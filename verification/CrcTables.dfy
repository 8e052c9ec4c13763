/** The table generators and the table-driven CRC loops, proved against polynomial division. */
module CrcTables {
  import opened Bytes
  import opened Gf2
  import opened Crc
  import opened Words

  const CRC8_POLY: nat := 0x07
  const CRC8_INIT: nat := 0
  const CRC16_POLY: nat := 0xa001
  const CRC16_INIT: nat := 0
  const CRC32_POLY: nat := 0xedb88320
  const CRC32_INIT: nat := 0xffff_ffff

  ghost predicate IsEntry(e: nat, index: nat, p: Bits)
    requires 8 <= |p|
  {
    e < Pow2(|p|) && BitsOf(e, |p|) == Entry(BitsOf(index, 8), p)
  }

  ghost predicate IsTable(t: seq<nat>, p: Bits)
    requires 8 <= |p|
  {
    |t| == 256 && forall i :: 0 <= i < 256 ==> IsEntry(t[i], i, p)
  }

  lemma ShiftWord(r: nat, poly: nat, w: nat)
    requires 0 < w <= 32
    ensures BitsOf(if TestBit(r, w - 1) then Xor(Shl(r, 1), poly) else Shl(r, 1), w)
         == Shift(BitsOf(r, w), BitsOf(poly, w))
  {
    BitsTop(r, w);
    BitsShl(r, 1, w);
    assert Zeros(1) == [false];
    BitsXor(Shl(r, 1), poly, w);
  }

  lemma StartWord(i: nat, w: nat)
    requires 8 <= w <= 32
    ensures BitsOf(Shl(i, w - 8), w) == BitsOf(i, 8) + Zeros(w - 8)
  {
    BitsShl(i, w - 8, w);
    BitsSplit(i, w - 8, 8);
  }

  /** The inner loop: eight conditional shifts of the index. */
  method TableWord(i: nat, poly: nat, w: nat) returns (e: nat)
    requires 8 <= w <= 32
    ensures IsEntry(e, i, BitsOf(poly, w))
  {
    ghost var p := BitsOf(poly, w);
    var r: nat := Shl(i, w - 8);
    StartWord(i, w);
    for j := 0 to 8
      invariant Shifts(BitsOf(r, w), p, 8 - j) == Entry(BitsOf(i, 8), p)
    {
      ShiftWord(r, poly, w);
      if TestBit(r, w - 1) {
        r := Xor(Shl(r, 1), poly);
      } else {
        r := Shl(r, 1);
      }
    }
    BitsMod(r, w, w);
    e := r % Pow2(w);
  }

  /** The table of w-bit entries for any polynomial: the generators for 8, 16 and 32 bits are this
      loop with the start shift w - 8 and the tested bit w - 1. */
  method InitTable(t: array<nat>, poly: nat, w: nat)
    requires t.Length == 256 && 8 <= w <= 32
    modifies t
    ensures IsTable(t[..], BitsOf(poly, w))
  {
    for i := 0 to 256
      invariant forall k :: 0 <= k < i ==> IsEntry(t[k], k, BitsOf(poly, w))
    {
      var e := TableWord(i, poly, w);
      t[i] := e;
    }
  }

  /** One round of a table-driven loop is eight message bits, whatever lies above the low w bits of r. */
  lemma ByteStep(r: nat, d: byte, t: seq<nat>, p: Bits)
    requires 8 <= |p| <= 32 && IsTable(t, p)
    ensures BitsOf(Xor(Shl(r, 8), t[Xor(Shr(r, |p| - 8), d) % 256]), |p|) == FeedBits(BitsOf(r, |p|), BitsOf(d, 8), p)
  {
    var w := |p|;
    var x := Xor(Shr(r, w - 8), d);
    WordSizes();
    BitsMod(x, 8, 8);
    BitsXor(Shr(r, w - 8), d, 8);
    BitsSplit(r, 8, w - 8);
    assert IsEntry(t[x % 256], x % 256, p);
    BitsXor(Shl(r, 8), t[x % 256], w);
    BitsShl(r, 8, w);
    TableStep(BitsOf(r, w), BitsOf(d, 8), p);
  }

  /** The 8-bit loop drops the shifted register: nothing of it is left. */
  lemma ByteStep8(r: nat, d: byte, t: seq<nat>, p: Bits)
    requires |p| == 8 && IsTable(t, p)
    ensures BitsOf(t[Xor(r, d) % 256], 8) == FeedBits(BitsOf(r, 8), BitsOf(d, 8), p)
  {
    ByteStep(r, d, t, p);
    BitsXor(Shl(r, 8), t[Xor(r, d) % 256], 8);
    BitsShl(r, 8, 8);
    assert BitsOf(r, 8)[8..] + Zeros(8) == Zeros(8);
    assert AddLeading(Zeros(8), BitsOf(t[Xor(r, d) % 256], 8)) == BitsOf(t[Xor(r, d) % 256], 8);
  }

  lemma FeedNextByte(init: Bits, data: bytes, i: nat, p: Bits)
    requires i < |data| && |init| == |p| > 0
    ensures FeedBits(init, MessageBits(data[..i + 1]), p)
         == FeedBits(FeedBits(init, MessageBits(data[..i]), p), BitsOf(data[i], 8), p)
  {
    assert data[..i + 1][..i] == data[..i];
    FeedBitsAppend(init, MessageBits(data[..i]), BitsOf(data[i], 8), p);
  }

  method Crc8(data: bytes, t: array<nat>, ghost poly: nat) returns (crc: nat)
    requires IsTable(t[..], BitsOf(poly, 8))
    ensures crc < 0x100
    ensures BitsOf(crc, 8) == CrcRemainder(BitsOf(CRC8_INIT, 8), MessageBits(data), BitsOf(poly, 8))
  {
    ghost var init, p := BitsOf(CRC8_INIT, 8), BitsOf(poly, 8);
    var r: nat := CRC8_INIT;
    for i := 0 to |data|
      invariant BitsOf(r, 8) == FeedBits(init, MessageBits(data[..i]), p)
    {
      ByteStep8(r, data[i], t[..], p);
      FeedNextByte(init, data, i, p);
      r := t[Xor(r, data[i]) % 256];
    }
    assert data[..|data|] == data;
    RegisterIsRemainder(init, MessageBits(data), p);
    WordSizes();
    BitsMod(r, 8, 8);
    crc := r % 0x100;
  }

  /** The register is a u32 that is never masked, so junk collects above bit 15; the low 16 bits are
      the remainder all the same. */
  method Crc16(data: bytes, t: array<nat>, ghost poly: nat) returns (crc: nat)
    requires IsTable(t[..], BitsOf(poly, 16))
    ensures crc < U16_LIMIT
    ensures BitsOf(crc, 16) == CrcRemainder(BitsOf(CRC16_INIT, 16), MessageBits(data), BitsOf(poly, 16))
  {
    ghost var init, p := BitsOf(CRC16_INIT, 16), BitsOf(poly, 16);
    var r: nat := CRC16_INIT;
    for i := 0 to |data|
      invariant BitsOf(r, 16) == FeedBits(init, MessageBits(data[..i]), p)
    {
      ByteStep(r, data[i], t[..], p);
      FeedNextByte(init, data, i, p);
      r := Xor(Shl(r, 8), t[Xor(Shr(r, 8), data[i]) % 256]);
    }
    assert data[..|data|] == data;
    RegisterIsRemainder(init, MessageBits(data), p);
    WordSizes();
    BitsMod(r, 16, 16);
    crc := r % U16_LIMIT;
  }

  method Crc32(data: bytes, t: array<nat>, ghost poly: nat) returns (crc: nat)
    requires IsTable(t[..], BitsOf(poly, 32))
    ensures crc < U32_LIMIT
    ensures BitsOf(crc, 32) == CrcRemainder(BitsOf(CRC32_INIT, 32), MessageBits(data), BitsOf(poly, 32))
  {
    ghost var init, p := BitsOf(CRC32_INIT, 32), BitsOf(poly, 32);
    var r: nat := CRC32_INIT;
    for i := 0 to |data|
      invariant BitsOf(r, 32) == FeedBits(init, MessageBits(data[..i]), p)
    {
      ByteStep(r, data[i], t[..], p);
      FeedNextByte(init, data, i, p);
      r := Xor(Shl(r, 8), t[Xor(Shr(r, 24), data[i]) % 256]);
    }
    assert data[..|data|] == data;
    RegisterIsRemainder(init, MessageBits(data), p);
    WordSizes();
    BitsMod(r, 32, 32);
    crc := r % U32_LIMIT;
  }

  // ---- The CRC of a packet --------------------------------------------------------------------

  /** The value a correct table-driven loop returns for the polynomial the server installs. */
  ghost function PacketCrc(data: bytes): (crc: nat)
    ensures crc < U16_LIMIT
  {
    WordSizes();
    ValueOf(CrcRemainder(BitsOf(CRC16_INIT, 16), MessageBits(data), BitsOf(CRC16_POLY, 16)))
  }

  lemma PacketCrcIs(data: bytes, crc: nat)
    requires crc < U16_LIMIT
    requires BitsOf(crc, 16) == CrcRemainder(BitsOf(CRC16_INIT, 16), MessageBits(data), BitsOf(CRC16_POLY, 16))
    ensures crc == PacketCrc(data)
  {
    WordSizes();
    ValueOfBits(crc, 16);
  }

  ghost predicate Corrupted(e: Bits) {
    IsBurst(e, 16) || Parity(e)
  }

  /** The server's CRC-16 tells two payloads of one length apart whenever they differ by a burst of at
      most 16 bits or in an odd number of bits. */
  lemma PacketCrcDetects(a: bytes, b: bytes)
    requires |a| == |b|
    requires Corrupted(Difference(MessageBits(a), MessageBits(b)))
    ensures PacketCrc(a) != PacketCrc(b)
  {
    var p, init := BitsOf(CRC16_POLY, 16), BitsOf(CRC16_INIT, 16);
    var x, y := MessageBits(a), MessageBits(b);
    Polynomial16();
    BurstDetection(p);
    OddErrorDetection(p);
    assert FeedBits(init, x, p) != FeedBits(init, y, p);
    RegisterIsRemainder(init, x, p);
    RegisterIsRemainder(init, y, p);
    BitsOfValue(FeedBits(init, x, p));
    BitsOfValue(FeedBits(init, y, p));
  }

  lemma NoBits(n: nat)
    ensures BitsOf(0, n) == Zeros(n)
  {
  }

  lemma PacketCrcBits(data: bytes)
    ensures BitsOf(PacketCrc(data), 16) == FeedBits(Zeros(16), MessageBits(data), BitsOf(CRC16_POLY, 16))
  {
    var p := BitsOf(CRC16_POLY, 16);
    NoBits(16);
    RegisterIsRemainder(Zeros(16), MessageBits(data), p);
    BitsOfValue(FeedBits(Zeros(16), MessageBits(data), p));
  }

  /** The server's CRC-16 is linear: bytes that are the sum of two payloads, bit by bit, have the sum of
      their CRCs, so bytes that are all zero have CRC 0. */
  lemma PacketCrcLinear(a: bytes, b: bytes, sum: bytes)
    requires |a| == |b| == |sum| && MessageBits(sum) == AddLeading(MessageBits(a), MessageBits(b))
    ensures BitsOf(PacketCrc(sum), 16) == AddLeading(BitsOf(PacketCrc(a), 16), BitsOf(PacketCrc(b), 16))
  {
    hide PacketCrc, MessageBits, BitsOf;
    PacketCrcBits(a);
    PacketCrcBits(b);
    PacketCrcBits(sum);
    assert AddLeading(Zeros(16), Zeros(16)) == Zeros(16);
    Linear(Zeros(16), Zeros(16), MessageBits(a), MessageBits(b), BitsOf(CRC16_POLY, 16));
  }

  /** x^16 + x^15 + x^13 + 1: four terms, one of them constant. */
  lemma Polynomial16()
    ensures BitsOf(CRC16_POLY, 16) == [true, false, true] + (Zeros(12) + [true])
    ensures BitsOf(CRC16_POLY, 16)[15]
    ensures !Parity(Divisor(BitsOf(CRC16_POLY, 16)))
  {
    Coefficients16();
    hide BitsOf;
    ParityZeros(Zeros(12));
    ParityAppend(Zeros(12), [true]);
    ParityAppend([true, false, true], Zeros(12) + [true]);
    assert Divisor(BitsOf(CRC16_POLY, 16))[1..] == BitsOf(CRC16_POLY, 16);
  }

  lemma UpperCoefficients()
    ensures BitsOf(0xa00, 12) == [true, false, true] + Zeros(9)
  {
    assert BitsOf(0x5, 3) == [true, false, true];
    assert BitsOf(0x50, 7) == BitsOf(0x5, 3) + Zeros(4);
  }

  lemma Coefficients16()
    ensures BitsOf(CRC16_POLY, 16) == [true, false, true] + (Zeros(12) + [true])
  {
    UpperCoefficients();
    assert BitsOf(0x1400, 13) == BitsOf(0xa00, 12) + [false];
    assert BitsOf(0x2800, 14) == BitsOf(0x1400, 13) + [false];
    assert BitsOf(0x5000, 15) == BitsOf(0x2800, 14) + [false];
    assert BitsOf(0xa001, 16) == BitsOf(0x5000, 15) + [true];
  }

  lemma ConstantTerm(v: nat, n: nat)
    requires n > 0
    ensures BitsOf(v, n)[n - 1] <==> v % 2 == 1
  {
  }

  /** The 8-bit polynomial detects every burst up to its width; the 32-bit constant has no constant
      term when its bits are taken most significant first, as the loop takes them, so CRC-32 does not. */
  lemma OtherWidths()
    ensures DetectsBursts(BitsOf(CRC8_POLY, 8), 8)
    ensures !DetectsBursts(BitsOf(CRC32_POLY, 32), 32)
  {
    ConstantTerm(CRC8_POLY, 8);
    ConstantTerm(CRC32_POLY, 32);
    BurstDetection(BitsOf(CRC8_POLY, 8));
    BurstDetection(BitsOf(CRC32_POLY, 32));
  }
}
