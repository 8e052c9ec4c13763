/** The byte image of a data packet and its reading, field by field. */
module Packets {
  import opened Bytes
  import opened CrcTables
  import opened Fragments

  const HEADER: nat := 16        // sizeof(STSOCKMSGDATA_PACKDATASIZE)
  const SHORT_HEADER: nat := 12  // sizeof(STSOCKMSGDATA_DATASIZE)
  const KIND_MESSAGES: int := 1
  const KIND_FILE: int := 4
  const KIND_BIG: int := 8
  const FROM_SERVER: int := 0xffff // -1 as a u16
  const CONFIRM: int := 0xfff6     // -10
  const SIZE_LIMIT: int := 2048    // sizes take 11 bits of a table entry
  const BUFFER_SIZE: int := 0x1_0000 // STSV_MAX_BUFFER; the slots end here: 2048 + 62 * 1024

  predicate Sized(frags: seq<Frag>) {
    |frags| <= MAX_FRAGS && forall k :: 0 <= k < |frags| ==> |frags[k].data| <= BLOCK
  }

  /** size | (tag << 11) */
  function TableEntry(size: int, tag: int): int {
    size + SIZE_LIMIT * tag
  }

  /** The size table: one entry a fragment. */
  function Table(frags: seq<Frag>): (t: bytes)
    ensures |t| == 2 * |frags|
  {
    var n := |frags|;
    if n == 0 then []
    else Table(frags[..n - 1]) + Le16(TableEntry(|frags[n - 1].data|, Tags(frags)[n - 1]))
  }

  function Payload(frags: seq<Frag>): bytes {
    Flatten(Datas(frags))
  }

  function Body(frags: seq<Frag>, tail: bytes): bytes {
    Table(frags) + Payload(frags) + tail
  }

  function Header(kind: int, from: int, packNo: int, sizeAll: int, crc: int, n: int): (h: bytes)
    ensures |h| == HEADER
  {
    Le16(kind) + Le16(from) + Le32(packNo) + Le32(sizeAll) + Le16(crc) + Le16(n)
  }

  /** A data packet: its kind bits, the fromID and packNo fields, the fragments of its message part and
      whatever follows the message part. */
  datatype Packet = Packet(kind: int, from: int, packNo: int, frags: seq<Frag>, tail: bytes)

  predicate Encodable(p: Packet) {
    && 0 <= p.kind < U16_LIMIT && 0 <= p.from < U16_LIMIT && 0 <= p.packNo < U32_LIMIT
    && Sized(p.frags) && 4 + |Body(p.frags, p.tail)| < U32_LIMIT
  }

  /** The bytes of a packet whose CRC field holds crc. */
  function Image(p: Packet, crc: int): (b: bytes)
    ensures |b| == HEADER + |Body(p.frags, p.tail)|
  {
    var body := Body(p.frags, p.tail);
    Header(p.kind, p.from, p.packNo, 4 + |body|, crc, |p.frags|) + body
  }

  /** What the CRC covers: everything behind the header, its length taken as a u16. */
  function Covered(p: Packet): (b: bytes)
    ensures b <= Body(p.frags, p.tail)
  {
    var body := Body(p.frags, p.tail);
    body[..|body| % U16_LIMIT]
  }

  /** A packet as it goes out. */
  ghost function Encode(p: Packet): (b: bytes)
    ensures |b| == HEADER + |Body(p.frags, p.tail)|
  {
    Image(p, PacketCrc(Covered(p)))
  }

  /** A receiver takes the packet: the size in its header is at most 64 KB. */
  predicate PacketSized(p: Packet) {
    4 + |Body(p.frags, p.tail)| <= BUFFER_SIZE
  }

  /** In a packet that a receiver takes, the CRC covers everything behind the header. */
  lemma CoversAll(p: Packet)
    requires PacketSized(p)
    ensures Covered(p) == Body(p.frags, p.tail)
  {
    hide Body;
    var body := Body(p.frags, p.tail);
    assert body[..|body|] == body;
  }

  /** The 12-byte confirm that answers when there is nothing to send. */
  function Confirm(packRef: nat): bytes {
    Le16(CONFIRM) + Le16(FROM_SERVER) + Le32(packRef) + Le32(0)
  }

  // ---- Fields ---------------------------------------------------------------------------------

  lemma Le16Field(v: int, b: bytes, at: nat)
    requires 0 <= v < U16_LIMIT && at + 2 <= |b| && b[at..at + 2] == Le16(v)
    ensures U16(b, at) == v
  {
    assert b[at] == b[at..at + 2][0] && b[at + 1] == b[at..at + 2][1];
  }

  lemma Le16Low(v: nat, h: nat, l: nat)
    requires v == U16_LIMIT * h + l && l < U16_LIMIT
    ensures Le16(v) == Le16(l)
  {
    var d, r := l / 256, l % 256;
    var q := 256 * h + d;
    assert v == 256 * q + r;
    ModUnique(v, 256, q, r);
    assert v / 256 == q;
    ModUnique(q, 256, h, d);
  }

  lemma Le32Field(v: int, b: bytes, at: nat)
    requires 0 <= v < U32_LIMIT && at + 4 <= |b| && b[at..at + 4] == Le32(v)
    ensures U32(b, at) == v
  {
    assert b[at..at + 2] == b[at..at + 4][..2] && b[at + 2..at + 4] == b[at..at + 4][2..];
    Le16Low(v, v / U16_LIMIT, v % U16_LIMIT);
    Le16Field(v % U16_LIMIT, b, at);
    Le16Field(v / U16_LIMIT, b, at + 2);
  }

  /** A field lies where a prefix of the buffer puts it. */
  lemma FieldInPrefix(p: bytes, b: bytes, at: nat)
    requires p <= b
    ensures at + 2 <= |p| ==> U16(b, at) == U16(p, at)
    ensures at + 4 <= |p| ==> U32(b, at) == U32(p, at)
  {
  }

  lemma HeaderFields(kind: int, from: int, packNo: int, sizeAll: int, crc: int, n: int)
    requires 0 <= kind < U16_LIMIT && 0 <= from < U16_LIMIT && 0 <= crc < U16_LIMIT && 0 <= n < U16_LIMIT
    requires 0 <= packNo < U32_LIMIT && 0 <= sizeAll < U32_LIMIT
    ensures var h := Header(kind, from, packNo, sizeAll, crc, n);
            && U16(h, 0) == kind && U16(h, 2) == from && U32(h, 4) == packNo
            && U32(h, 8) == sizeAll && U16(h, 12) == crc && U16(h, 14) == n
  {
    var h := Header(kind, from, packNo, sizeAll, crc, n);
    assert h[0..2] == Le16(kind);
    assert h[2..4] == Le16(from);
    assert h[4..8] == Le32(packNo);
    assert h[8..12] == Le32(sizeAll);
    assert h[12..14] == Le16(crc);
    assert h[14..16] == Le16(n);
    Le16Field(kind, h, 0);
    Le16Field(from, h, 2);
    Le32Field(packNo, h, 4);
    Le32Field(sizeAll, h, 8);
    Le16Field(crc, h, 12);
    Le16Field(n, h, 14);
  }

  // ---- Reading --------------------------------------------------------------------------------

  /** numData, an s16 */
  function NumData(b: bytes): (n: int)
    requires HEADER <= |b|
  {
    Signed16(U16(b, 14))
  }

  function EntryAt(b: bytes, i: nat): (e: int)
    requires HEADER + 2 * i + 2 <= |b|
    ensures 0 <= e < U16_LIMIT
  {
    U16(b, HEADER + 2 * i)
  }

  /** The running data address behind the first i of n fragments. */
  function DataOffset(b: bytes, n: nat, i: nat): (at: nat)
    requires i <= n && HEADER + 2 * n <= |b|
    ensures at >= HEADER + 2 * n
  {
    if i == 0 then HEADER + 2 * n else DataOffset(b, n, i - 1) + EntryAt(b, i - 1) % SIZE_LIMIT
  }

  lemma {:induction false} DataOffsetMonotone(b: bytes, n: nat, i: nat, j: nat)
    requires i <= j <= n && HEADER + 2 * n <= |b|
    ensures DataOffset(b, n, i) <= DataOffset(b, n, j)
    decreases j - i
  {
    if i < j {
      DataOffsetMonotone(b, n, i, j - 1);
    }
  }

  /** The size table describes fragments that lie within b. */
  predicate WellFormed(b: bytes) {
    && HEADER <= |b|
    && var n := NumData(b);
       0 < n ==> HEADER + 2 * n <= |b| && DataOffset(b, n, n) <= |b|
  }

  function ReadTags(b: bytes, n: nat): (t: seq<nat>)
    requires HEADER + 2 * n <= |b|
    ensures |t| == n
  {
    seq(n, i requires 0 <= i < n => EntryAt(b, i) / SIZE_LIMIT)
  }

  function ReadDatas(b: bytes, n: nat): (d: seq<bytes>)
    requires HEADER + 2 * n <= |b| && DataOffset(b, n, n) <= |b|
    ensures |d| == n
  {
    seq(n, i requires 0 <= i < n =>
      DataOffsetMonotone(b, n, i, i + 1);
      DataOffsetMonotone(b, n, i + 1, n);
      b[DataOffset(b, n, i)..DataOffset(b, n, i + 1)])
  }

  /** The messages of a received packet; None when they cannot be regrouped or are more than the message
      arrays hold. */
  function ReadMessages(b: bytes): Option<seq<bytes>>
    requires WellFormed(b)
  {
    var n := NumData(b);
    if n <= 0 then Some([])
    else
      var g := Regroup(ReadTags(b, n), ReadDatas(b, n));
      if g.Some? && |g.value| > MAX_BLOCKS then None else g
  }

  // ---- What is read is what was written -------------------------------------------------------

  lemma {:induction false} TableField(frags: seq<Frag>, i: nat)
    requires Sized(frags) && i < |frags|
    ensures U16(Table(frags), 2 * i) == TableEntry(|frags[i].data|, Tags(frags)[i])
  {
    var n := |frags| - 1;
    var e := TableEntry(|frags[n].data|, Tags(frags)[n]);
    assert Table(frags) == Table(frags[..n]) + Le16(e);
    if i == n {
      assert Table(frags)[2 * n..2 * n + 2] == Le16(e);
      Le16Field(e, Table(frags), 2 * n);
    } else {
      TableField(frags[..n], i);
      FieldInPrefix(Table(frags[..n]), Table(frags), 2 * i);
      assert Tags(frags) == Tags(frags[..n]) + [Tags(frags)[n]];
    }
  }

  lemma DatasPrefix(frags: seq<Frag>, i: nat)
    requires i < |frags|
    ensures Payload(frags[..i + 1]) == Payload(frags[..i]) + frags[i].data
  {
    assert Datas(frags[..i + 1])[..i] == Datas(frags[..i]);
  }

  lemma {:induction false} PayloadPrefix(frags: seq<Frag>, i: nat)
    requires i <= |frags|
    ensures Payload(frags[..i]) <= Payload(frags)
    decreases |frags| - i
  {
    if i < |frags| {
      DatasPrefix(frags, i);
      PayloadPrefix(frags, i + 1);
    } else {
      assert frags[..i] == frags;
    }
  }

  lemma {:induction false} PayloadBound(frags: seq<Frag>)
    requires Sized(frags)
    ensures |Payload(frags)| <= BLOCK * |frags|
  {
    if frags != [] {
      var n := |frags| - 1;
      PayloadBound(frags[..n]);
      DatasPrefix(frags, n);
      assert frags[..n + 1] == frags;
    }
  }

  /** b starts with a packet. */
  ghost predicate Holds(b: bytes, p: Packet, crc: int) {
    Encodable(p) && 0 <= crc < U16_LIMIT && Image(p, crc) <= b
  }

  lemma {:induction false} ReadFields(b: bytes, p: Packet, crc: int)
    requires Holds(b, p, crc)
    ensures |b| >= HEADER + |Body(p.frags, p.tail)|
    ensures U16(b, 0) == p.kind && U16(b, 2) == p.from && U32(b, 4) == p.packNo
    ensures U32(b, 8) == 4 + |Body(p.frags, p.tail)| && U16(b, 12) == crc && NumData(b) == |p.frags|
  {
    var sizeAll := 4 + |Body(p.frags, p.tail)|;
    var h := Header(p.kind, p.from, p.packNo, sizeAll, crc, |p.frags|);
    HeaderFields(p.kind, p.from, p.packNo, sizeAll, crc, |p.frags|);
    assert h <= b;
    FieldInPrefix(h, b, 0);
    FieldInPrefix(h, b, 2);
    FieldInPrefix(h, b, 4);
    FieldInPrefix(h, b, 8);
    FieldInPrefix(h, b, 12);
    FieldInPrefix(h, b, 14);
  }

  /** Where the three parts of the body lie. */
  lemma {:induction false} BodyParts(b: bytes, p: Packet, crc: int)
    requires Holds(b, p, crc)
    ensures var at := HEADER + 2 * |p.frags|;
            var end := at + |Payload(p.frags)|;
            && end + |p.tail| == HEADER + |Body(p.frags, p.tail)| <= |b|
            && b[HEADER..at] == Table(p.frags)
            && b[at..end] == Payload(p.frags)
            && b[end..end + |p.tail|] == p.tail
  {
    var i := Image(p, crc);
    var at := HEADER + 2 * |p.frags|;
    var end := at + |Payload(p.frags)|;
    assert i[HEADER..at] == Table(p.frags);
    assert i[at..end] == Payload(p.frags);
    assert i[end..] == p.tail;
    assert b[..|i|] == i;
    assert forall lo, hi :: 0 <= lo <= hi <= |i| ==> b[lo..hi] == i[lo..hi];
  }

  lemma {:induction false} ReadEntry(b: bytes, frags: seq<Frag>, i: nat)
    requires Sized(frags) && i < |frags| && HEADER + 2 * |frags| <= |b|
    requires b[HEADER..HEADER + 2 * |frags|] == Table(frags)
    ensures EntryAt(b, i) / SIZE_LIMIT == Tags(frags)[i]
    ensures EntryAt(b, i) % SIZE_LIMIT == |frags[i].data|
  {
    TableField(frags, i);
    var t := b[HEADER..HEADER + 2 * |frags|];
    assert b[HEADER + 2 * i] == t[2 * i] && b[HEADER + 2 * i + 1] == t[2 * i + 1];
  }

  lemma {:induction false} ReadOffset(b: bytes, frags: seq<Frag>, i: nat)
    requires Sized(frags) && i <= |frags| && HEADER + 2 * |frags| <= |b|
    requires b[HEADER..HEADER + 2 * |frags|] == Table(frags)
    ensures DataOffset(b, |frags|, i) == HEADER + 2 * |frags| + |Payload(frags[..i])|
  {
    if i > 0 {
      ReadOffset(b, frags, i - 1);
      ReadEntry(b, frags, i - 1);
      DatasPrefix(frags, i - 1);
    }
  }

  lemma {:induction false} ReadData(b: bytes, frags: seq<Frag>, i: nat)
    requires Sized(frags) && i < |frags| && HEADER + 2 * |frags| + |Payload(frags)| <= |b|
    requires b[HEADER..HEADER + 2 * |frags|] == Table(frags)
    requires b[HEADER + 2 * |frags|..HEADER + 2 * |frags| + |Payload(frags)|] == Payload(frags)
    ensures DataOffset(b, |frags|, i) <= DataOffset(b, |frags|, i + 1) <= |b|
    ensures b[DataOffset(b, |frags|, i)..DataOffset(b, |frags|, i + 1)] == frags[i].data
  {
    hide DataOffset, Table, Payload;
    ReadOffset(b, frags, i);
    ReadOffset(b, frags, i + 1);
    DatasPrefix(frags, i);
    PayloadPrefix(frags, i + 1);
    var start, pay := HEADER + 2 * |frags|, Payload(frags);
    var lo, hi := |Payload(frags[..i])|, |Payload(frags[..i + 1])|;
    SliceOfSlice(b, start, |pay|, lo, hi);
    assert pay[..hi] == Payload(frags[..i + 1]);
    assert pay[lo..hi] == pay[..hi][lo..];
  }

  lemma {:induction false} ReadParts(b: bytes, frags: seq<Frag>)
    requires Sized(frags) && HEADER + 2 * |frags| + |Payload(frags)| <= |b|
    requires b[HEADER..HEADER + 2 * |frags|] == Table(frags)
    requires b[HEADER + 2 * |frags|..HEADER + 2 * |frags| + |Payload(frags)|] == Payload(frags)
    requires DataOffset(b, |frags|, |frags|) <= |b|
    ensures ReadTags(b, |frags|) == Tags(frags)
    ensures ReadDatas(b, |frags|) == Datas(frags)
  {
    hide Table, Payload, Tags;
    forall i | 0 <= i < |frags|
      ensures ReadTags(b, |frags|)[i] == Tags(frags)[i]
      ensures ReadDatas(b, |frags|)[i] == Datas(frags)[i]
    {
      ReadEntry(b, frags, i);
      ReadData(b, frags, i);
    }
  }

  /** Reading a packet gives what the receiver makes of the fragments written, and the message part
      ends where the table says. */
  lemma {:induction false} ReadBack(b: bytes, p: Packet, crc: int)
    requires Holds(b, p, crc)
    ensures WellFormed(b)
    ensures ReadMessages(b) == Deliver(p.frags)
    ensures NumData(b) == |p.frags|
    ensures DataOffset(b, |p.frags|, |p.frags|) + |p.tail| == HEADER + |Body(p.frags, p.tail)|
    ensures b[DataOffset(b, |p.frags|, |p.frags|)..HEADER + |Body(p.frags, p.tail)|] == p.tail
  {
    hide Table, Payload, Tags, Image, Body, U16, U32, Regroup;
    var frags, n := p.frags, |p.frags|;
    ReadFields(b, p, crc);
    BodyParts(b, p, crc);
    ReadOffset(b, frags, n);
    assert frags[..n] == frags;
    if n > 0 {
      ReadParts(b, frags);
    } else {
      DeliverNothing();
    }
  }
}
