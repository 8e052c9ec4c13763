/** Bytes, little-endian fields, and the buffer overlay that every memcpy of the source performs. */
module Bytes {

  type byte = x: int | 0 <= x < 256

  type bytes = seq<byte>

  const U16_LIMIT: int := 0x1_0000
  const U32_LIMIT: int := 0x1_0000_0000

  datatype Option<T> = None | Some(value: T)

  function Min(a: int, b: int): int { if a <= b then a else b }

  lemma Distribute(p: nat, x: nat, y: nat)
    ensures p * (x + y) == p * x + p * y
  {
  }

  lemma MultipleAtLeast(p: nat, a: nat, b: nat)
    requires a < b
    ensures p * a + p <= p * b
  {
    var d := b - a - 1;
    var extra := p * d;
    Distribute(p, a, d + 1);
    Distribute(p, d, 1);
    assert p * b == p * a + (extra + p);
  }

  lemma ModUnique(x: nat, p: nat, q: nat, s: nat)
    requires x == p * q + s && s < p
    ensures x % p == s
  {
    var q' := x / p;
    if q < q' {
      MultipleAtLeast(p, q, q');
    } else if q' < q {
      MultipleAtLeast(p, q', q);
    }
  }

  lemma ModAgain(n: nat, m: nat, k: nat)
    requires m > 0 && k > 0
    ensures (n % m + k) % m == (n + k) % m
  {
    var q, r := n / m, n % m;
    var q', r' := (r + k) / m, (r + k) % m;
    assert m * (q + q') == m * q + m * q';
    ModUnique(n + k, m, q + q', r');
  }

  /** The n low-order bytes of v, least significant first. */
  function LeBytes(v: nat, n: nat): (b: bytes)
    ensures |b| == n
  {
    if n == 0 then [] else [v % 256] + LeBytes(v / 256, n - 1)
  }

  /** The number whose little-endian digits are b. */
  function LeValue(b: bytes): nat {
    if b == [] then 0 else b[0] + 256 * LeValue(b[1..])
  }

  function Pow256(n: nat): nat {
    if n == 0 then 1 else 256 * Pow256(n - 1)
  }

  lemma {:induction false} LeRoundTrip(v: nat, n: nat)
    requires v < Pow256(n)
    ensures LeValue(LeBytes(v, n)) == v
  {
    if n > 0 {
      assert LeBytes(v, n)[1..] == LeBytes(v / 256, n - 1);
      LeRoundTrip(v / 256, n - 1);
    }
  }

  lemma {:induction false} LeRoundTripBytes(b: bytes)
    ensures LeValue(b) < Pow256(|b|)
    ensures LeBytes(LeValue(b), |b|) == b
  {
    if b != [] {
      LeRoundTripBytes(b[1..]);
      assert LeValue(b) / 256 == LeValue(b[1..]) && LeValue(b) % 256 == b[0];
    }
  }

  /** An integer truncated to 16 bits. */
  function Le16(v: int): (b: bytes)
    ensures |b| == 2
  {
    [v % 256, (v / 256) % 256]
  }

  /** An integer truncated to 32 bits. */
  function Le32(v: int): (b: bytes)
    ensures |b| == 4
  {
    Le16(v) + Le16(v / U16_LIMIT)
  }

  /** The unsigned 16-bit field at an offset. */
  function U16(b: bytes, at: nat): (v: int)
    requires at + 2 <= |b|
    ensures 0 <= v < U16_LIMIT
  {
    (b[at] as int) + 256 * (b[at + 1] as int)
  }

  /** The unsigned 32-bit field at an offset. */
  function U32(b: bytes, at: nat): (v: int)
    requires at + 4 <= |b|
    ensures 0 <= v < U32_LIMIT
  {
    U16(b, at) + U16_LIMIT * U16(b, at + 2)
  }

  /** A u16 or s16 read as signed. */
  function Signed16(v: int): int { if v < 0x8000 then v else v - U16_LIMIT }

  /** b with chunk written over the bytes that start at offset at. */
  function Splice<T>(b: seq<T>, at: nat, chunk: seq<T>): (r: seq<T>)
    requires at + |chunk| <= |b|
    ensures |r| == |b|
    ensures r[..at] == b[..at]
    ensures r[at..at + |chunk|] == chunk
    ensures r[at + |chunk|..] == b[at + |chunk|..]
  {
    b[..at] + chunk + b[at + |chunk|..]
  }

  /** A window that a Splice does not touch keeps its content. */
  lemma SpliceFrame<T>(b: seq<T>, at: nat, chunk: seq<T>, lo: nat, hi: nat)
    requires at + |chunk| <= |b| && lo <= hi <= |b|
    requires hi <= at || at + |chunk| <= lo
    ensures Splice(b, at, chunk)[lo..hi] == b[lo..hi]
  {
    var r := Splice(b, at, chunk);
    forall k | lo <= k < hi
      ensures r[k] == b[k]
    {
    }
  }

  /** Two adjacent Splices are one. */
  lemma SpliceJoin<T>(b: seq<T>, at: nat, c: seq<T>, d: seq<T>)
    requires at + |c| + |d| <= |b|
    ensures Splice(Splice(b, at, c), at + |c|, d) == Splice(b, at, c + d)
  {
  }

  lemma SpliceNothing<T>(b: seq<T>, at: nat)
    requires at <= |b|
    ensures Splice(b, at, []) == b
  {
  }

  lemma SamePrefix<T>(a: seq<T>, b: seq<T>, lo: nat, hi: nat)
    requires lo <= hi <= |a| && hi <= |b| && a[..hi] == b[..hi]
    ensures a[..lo] == b[..lo]
  {
    assert a[..lo] == a[..hi][..lo];
    assert b[..lo] == b[..hi][..lo];
  }

  lemma SliceOfSlice<T>(b: seq<T>, from: nat, len: nat, lo: nat, hi: nat)
    requires from + len <= |b| && lo <= hi <= len
    ensures b[from + lo..from + hi] == b[from..from + len][lo..hi]
  {
    var w := b[from..from + len];
    assert forall k :: 0 <= k < len ==> w[k] == b[from + k];
    assert w[lo..hi] == b[from + lo..from + hi];
  }

  function Flatten<T>(ss: seq<seq<T>>): seq<T> {
    if ss == [] then [] else Flatten(ss[..|ss| - 1]) + ss[|ss| - 1]
  }

  lemma FlattenSingle<T>(s: seq<T>)
    ensures Flatten([s]) == s
  {
    assert [s][..0] == [];
  }

  lemma {:induction false} FlattenAppend<T>(a: seq<seq<T>>, b: seq<seq<T>>)
    ensures Flatten(a + b) == Flatten(a) + Flatten(b)
  {
    if b == [] {
      assert a + b == a;
    } else {
      var n := |b| - 1;
      assert (a + b)[..|a + b| - 1] == a + b[..n];
      FlattenAppend(a, b[..n]);
    }
  }

  /** The zero-terminated C string at the start of a fixed-size character field. */
  function CString(field: bytes): (s: bytes)
    ensures s <= field
    ensures 0 !in s
    ensures |s| == |field| || field[|s|] == 0
  {
    if field == [] || field[0] == 0 then [] else [field[0]] + CString(field[1..])
  }

  lemma FrontAndLast<T>(s: seq<T>)
    requires s != []
    ensures s == s[..|s| - 1] + [s[|s| - 1]]
  {
  }
}
