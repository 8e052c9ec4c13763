/** The portable integer readers and writers of the MySQL headers, low byte first, against the
    little-endian value of a byte string. */
module ByteOrder {
  import opened Bytes

  // ---- Readers: shifts and sums as the headers write them --------------------------------------

  function Uint2korr(a: bytes): int
    requires |a| >= 2
  {
    (a[0] as int) + (a[1] as int) * 0x100
  }

  function Uint3korr(a: bytes): int
    requires |a| >= 3
  {
    (a[0] as int) + (a[1] as int) * 0x100 + (a[2] as int) * 0x10000
  }

  function Uint4korr(a: bytes): int
    requires |a| >= 4
  {
    (a[0] as int) + (a[1] as int) * 0x100 + (a[2] as int) * 0x10000 + (a[3] as int) * 0x1000000
  }

  function Uint5korr(a: bytes): int
    requires |a| >= 5
  {
    (a[0] as int) + (a[1] as int) * 0x100 + (a[2] as int) * 0x10000 + (a[3] as int) * 0x1000000
        + (a[4] as int) * 0x100000000
  }

  function Uint6korr(a: bytes): int
    requires |a| >= 6
  {
    (a[0] as int) + (a[1] as int) * 0x100 + (a[2] as int) * 0x10000 + (a[3] as int) * 0x1000000
        + (a[4] as int) * 0x100000000 + (a[5] as int) * 0x10000000000
  }

  /** Built from two 32-bit halves. */
  function Uint8korr(a: bytes): int
    requires |a| >= 8
  {
    Uint4korr(a) + Uint4korr(a[4..]) * 0x1_0000_0000
  }

  function Sint2korr(a: bytes): int
    requires |a| >= 2
  {
    ToSigned(Uint2korr(a), 2)
  }

  /** The sign bit of the third byte fills the fourth. */
  function Sint3korr(a: bytes): int
    requires |a| >= 3
  {
    if a[2] >= 128 then ToSigned(0xff00_0000 + Uint3korr(a), 4) else Uint3korr(a)
  }

  function Sint4korr(a: bytes): int
    requires |a| >= 4
  {
    ToSigned(Uint4korr(a), 4)
  }

  function Sint8korr(a: bytes): int
    requires |a| >= 8
  {
    ToSigned(Uint8korr(a), 8)
  }

  /** An n-byte unsigned number read as two's complement. */
  function ToSigned(v: int, n: nat): int {
    if 2 * v < Pow256(n) then v else v - Pow256(n)
  }

  /** The n-byte pattern of a signed number. */
  function ToUnsigned(v: int, n: nat): int {
    if v >= 0 then v else v + Pow256(n)
  }

  predicate Width(n: nat) { n == 2 || n == 3 || n == 4 || n == 5 || n == 6 || n == 8 }

  /** The reader for each width. */
  function Unsigned(a: bytes, n: nat): int
    requires Width(n) && |a| >= n
  {
    if n == 2 then Uint2korr(a) else if n == 3 then Uint3korr(a) else if n == 4 then Uint4korr(a)
    else if n == 5 then Uint5korr(a) else if n == 6 then Uint6korr(a) else Uint8korr(a)
  }

  function Signed(a: bytes, n: nat): int
    requires (n == 2 || n == 3 || n == 4 || n == 8) && |a| >= n
  {
    if n == 2 then Sint2korr(a) else if n == 3 then Sint3korr(a) else if n == 4 then Sint4korr(a) else Sint8korr(a)
  }

  lemma Powers()
    ensures Pow256(1) == 0x100 && Pow256(2) == 0x1_0000 && Pow256(3) == 0x100_0000 && Pow256(4) == 0x1_0000_0000
    ensures Pow256(5) == 0x100_0000_0000 && Pow256(6) == 0x1_0000_0000_0000 && Pow256(8) == 0x1_0000_0000_0000_0000
  {
    assert Pow256(2) == 256 * Pow256(1);
    assert Pow256(3) == 256 * Pow256(2);
    assert Pow256(4) == 256 * Pow256(3);
    assert Pow256(5) == 256 * Pow256(4);
    assert Pow256(6) == 256 * Pow256(5);
    assert Pow256(7) == 256 * Pow256(6);
  }

  /** One byte more at the low end. */
  lemma ValueStep(a: bytes, i: nat, n: nat)
    requires i < n <= |a|
    ensures LeValue(a[i..n]) == a[i] + 256 * LeValue(a[i + 1..n])
  {
    assert a[i..n][1..] == a[i + 1..n];
  }

  lemma FourBytes(a: bytes, i: nat)
    requires i + 4 <= |a|
    ensures LeValue(a[i..i + 4]) == Uint4korr(a[i..])
  {
    ValueStep(a, i, i + 4);
    ValueStep(a, i + 1, i + 4);
    ValueStep(a, i + 2, i + 4);
    ValueStep(a, i + 3, i + 4);
    assert a[i + 4..i + 4] == [];
  }

  /** The value of a string in two parts. */
  lemma {:induction false} ValueParts(a: bytes, b: bytes)
    ensures LeValue(a + b) == LeValue(a) + Pow256(|a|) * LeValue(b)
  {
    if a == [] {
      assert a + b == b;
    } else {
      assert (a + b)[1..] == a[1..] + b;
      ValueParts(a[1..], b);
      assert 256 * (Pow256(|a| - 1) * LeValue(b)) == Pow256(|a|) * LeValue(b);
    }
  }

  lemma SmallReader(a: bytes, n: nat)
    requires 2 <= n <= 6 && |a| >= n
    ensures Unsigned(a, n) == LeValue(a[0..n])
  {
    hide LeValue, Pow256;
    assert LeValue(a[n..n]) == 0 by { NoBytes(a, n); }
    ValueStep(a, 0, n);
    ValueStep(a, 1, n);
    if n > 2 { ValueStep(a, 2, n); }
    if n > 3 { ValueStep(a, 3, n); }
    if n > 4 { ValueStep(a, 4, n); }
    if n > 5 { ValueStep(a, 5, n); }
  }

  lemma NoBytes(a: bytes, n: nat)
    requires n <= |a|
    ensures LeValue(a[n..n]) == 0
  {
  }

  /** Every reader reads the little-endian value of its bytes. */
  lemma ReaderReads(a: bytes, n: nat)
    requires Width(n) && |a| >= n
    ensures Unsigned(a, n) == LeValue(a[..n])
  {
    hide LeValue;
    if n == 8 {
      Powers();
      FourBytes(a, 0);
      FourBytes(a, 4);
      assert a[0..] == a;
      assert a[..8] == a[0..4] + a[4..8];
      ValueParts(a[0..4], a[4..8]);
    } else {
      SmallReader(a, n);
      assert a[..n] == a[0..n];
    }
  }

  // ---- Writers --------------------------------------------------------------------------------

  /** Two shifts are one. */
  lemma ShiftTwice(v: nat)
    ensures (v / 0x100) / 0x100 == v / 0x1_0000 && (v / 0x100) / 0x1_0000 == v / 0x100_0000
    ensures (v / 0x100) / 0x100_0000 == v / 0x1_0000_0000 && (v / 0x100) / 0x1_0000_0000 == v / 0x100_0000_0000
  {
  }

  /** The bytes that successive shifts leave. */
  lemma Digits1(v: nat)
    ensures LeBytes(v, 1) == [v % 256]
  {
    assert LeBytes(v, 1) == [v % 256] + LeBytes(v / 0x100, 0);
  }

  lemma Digits2(v: nat)
    ensures LeBytes(v, 2) == [v % 256, (v / 0x100) % 256]
  {
    ShiftTwice(v);
    Digits1(v / 0x100);
    assert LeBytes(v, 2) == [v % 256] + LeBytes(v / 0x100, 1);
  }

  lemma Digits3(v: nat)
    ensures LeBytes(v, 3) == [v % 256, (v / 0x100) % 256, (v / 0x10000) % 256]
  {
    ShiftTwice(v);
    Digits2(v / 0x100);
    assert LeBytes(v, 3) == [v % 256] + LeBytes(v / 0x100, 2);
  }

  lemma Digits4(v: nat)
    ensures LeBytes(v, 4) == [v % 256, (v / 0x100) % 256, (v / 0x10000) % 256, (v / 0x1000000) % 256]
  {
    ShiftTwice(v);
    Digits3(v / 0x100);
    assert LeBytes(v, 4) == [v % 256] + LeBytes(v / 0x100, 3);
  }

  lemma Digits5(v: nat)
    ensures LeBytes(v, 5) == [v % 256, (v / 0x100) % 256, (v / 0x10000) % 256, (v / 0x1000000) % 256,
        (v / 0x100000000) % 256]
  {
    ShiftTwice(v);
    Digits4(v / 0x100);
    assert LeBytes(v, 5) == [v % 256] + LeBytes(v / 0x100, 4);
  }

  lemma Digits6(v: nat)
    ensures LeBytes(v, 6) == [v % 256, (v / 0x100) % 256, (v / 0x10000) % 256, (v / 0x1000000) % 256,
        (v / 0x100000000) % 256, (v / 0x10000000000) % 256]
  {
    ShiftTwice(v);
    Digits5(v / 0x100);
    assert LeBytes(v, 6) == [v % 256] + LeBytes(v / 0x100, 5);
  }

  method Int2Store(t: array<byte>, at: nat, v: nat)
    requires at + 2 <= t.Length
    modifies t
    ensures t[..] == Splice(old(t[..]), at, LeBytes(v, 2))
  {
    Digits2(v);
    t[at] := v % 256;
    t[at + 1] := (v / 0x100) % 256;
  }

  method Int3Store(t: array<byte>, at: nat, v: nat)
    requires at + 3 <= t.Length
    modifies t
    ensures t[..] == Splice(old(t[..]), at, LeBytes(v, 3))
  {
    Digits3(v);
    t[at] := v % 256;
    t[at + 1] := (v / 0x100) % 256;
    t[at + 2] := (v / 0x10000) % 256;
  }

  method Int4Store(t: array<byte>, at: nat, v: nat)
    requires at + 4 <= t.Length
    modifies t
    ensures t[..] == Splice(old(t[..]), at, LeBytes(v, 4))
  {
    Digits4(v);
    t[at] := v % 256;
    t[at + 1] := (v / 0x100) % 256;
    t[at + 2] := (v / 0x10000) % 256;
    t[at + 3] := (v / 0x1000000) % 256;
  }

  method Int5Store(t: array<byte>, at: nat, v: nat)
    requires at + 5 <= t.Length
    modifies t
    ensures t[..] == Splice(old(t[..]), at, LeBytes(v, 5))
  {
    Digits5(v);
    t[at] := v % 256;
    t[at + 1] := (v / 0x100) % 256;
    t[at + 2] := (v / 0x10000) % 256;
    t[at + 3] := (v / 0x1000000) % 256;
    t[at + 4] := (v / 0x100000000) % 256;
  }

  method Int6Store(t: array<byte>, at: nat, v: nat)
    requires at + 6 <= t.Length
    modifies t
    ensures t[..] == Splice(old(t[..]), at, LeBytes(v, 6))
  {
    Digits6(v);
    t[at] := v % 256;
    t[at + 1] := (v / 0x100) % 256;
    t[at + 2] := (v / 0x10000) % 256;
    t[at + 3] := (v / 0x1000000) % 256;
    t[at + 4] := (v / 0x100000000) % 256;
    t[at + 5] := (v / 0x10000000000) % 256;
  }

  /** int8store: two 4-byte stores of the halves. */
  method Int8Store(t: array<byte>, at: nat, v: nat)
    requires at + 8 <= t.Length && v < 0x1_0000_0000_0000_0000
    modifies t
    ensures t[..] == Splice(old(t[..]), at, LeBytes(v, 8))
  {
    var low, high := v % 0x1_0000_0000, v / 0x1_0000_0000;
    LowAndHigh(v);
    Int4Store(t, at, low);
    Int4Store(t, at + 4, high);
    SpliceJoin(old(t[..]), at, LeBytes(low, 4), LeBytes(high, 4));
  }

  lemma LowAndHigh(v: nat)
    requires v < 0x1_0000_0000_0000_0000
    ensures LeBytes(v % 0x1_0000_0000, 4) + LeBytes(v / 0x1_0000_0000, 4) == LeBytes(v, 8)
  {
    var low, high := v % 0x1_0000_0000, v / 0x1_0000_0000;
    var b := LeBytes(low, 4) + LeBytes(high, 4);
    Powers();
    LeRoundTrip(low, 4);
    LeRoundTrip(high, 4);
    ValueParts(LeBytes(low, 4), LeBytes(high, 4));
    LeRoundTripBytes(b);
  }

  // ---- Round trips ----------------------------------------------------------------------------

  /** What is stored is read back, at every width, for every value in range. */
  lemma StoreThenRead(v: nat, n: nat)
    requires Width(n) && v < Pow256(n)
    ensures Unsigned(LeBytes(v, n), n) == v
  {
    ReaderReads(LeBytes(v, n), n);
    assert LeBytes(v, n)[..n] == LeBytes(v, n);
    LeRoundTrip(v, n);
  }

  /** What is read is stored back as the same bytes. */
  lemma ReadThenStore(a: bytes, n: nat)
    requires Width(n) && |a| == n
    ensures 0 <= Unsigned(a, n) < Pow256(n)
    ensures LeBytes(Unsigned(a, n), n) == a
  {
    ReaderReads(a, n);
    assert a[..n] == a;
    LeRoundTripBytes(a);
  }

  /** The same for signed numbers, three-byte ones with their sign extension included. */
  lemma SignedRoundTrip(v: int, n: nat)
    requires n == 2 || n == 3 || n == 4 || n == 8
    requires 0 - Pow256(n) <= 2 * v < Pow256(n)
    ensures 0 <= ToUnsigned(v, n) < Pow256(n)
    ensures Signed(LeBytes(ToUnsigned(v, n), n), n) == v
  {
    Powers();
    var a := LeBytes(ToUnsigned(v, n), n);
    StoreThenRead(ToUnsigned(v, n), n);
    if n == 3 {
      assert Uint3korr(a) == a[0] as int + a[1] as int * 0x100 + a[2] as int * 0x1_0000;
    }
  }

  /** Eight spaces are recognised from the word alone. */
  lemma OnlySpaces(a: bytes)
    requires |a| == 8
    ensures Uint8korr(a) == 0x2020_2020_2020_2020 <==> forall k :: 0 <= k < 8 ==> a[k] == 0x20
  {
    var s: bytes := [0x20, 0x20, 0x20, 0x20, 0x20, 0x20, 0x20, 0x20];
    assert Uint8korr(s) == 0x2020_2020_2020_2020;
    ReadThenStore(a, 8);
    ReadThenStore(s, 8);
    assert Uint8korr(a) == Uint8korr(s) ==> a == s;
    assert (forall k :: 0 <= k < 8 ==> a[k] == 0x20) ==> a == s;
  }
}
