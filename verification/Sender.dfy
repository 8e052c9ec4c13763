/** The send half of Client_t: its buffer, the arrays beside it, and the functions that fill the slots
    and build a packet in place at the front of the same buffer. */
module Sender {
  import opened Bytes
  import opened CrcTables
  import opened Files
  import opened Fragments
  import opened Link
  import opened Slots
  import opened Packets
  import opened Words

  // ---- Buffer algebra -------------------------------------------------------------------------

  lemma SpliceIndex(b: bytes, at: nat, chunk: bytes, i: nat)
    requires at + |chunk| <= |b| && i < |b|
    ensures Splice(b, at, chunk)[i] == if at <= i < at + |chunk| then chunk[i - at] else b[i]
  {
  }

  lemma HeaderIndex(kind: int, from: int, packNo: int, sizeAll: int, crc: int, n: int, i: nat)
    requires i < HEADER
    ensures Header(kind, from, packNo, sizeAll, crc, n)[i] ==
            if i < 2 then Le16(kind)[i] else if i < 4 then Le16(from)[i - 2]
            else if i < 8 then Le32(packNo)[i - 4] else if i < 12 then Le32(sizeAll)[i - 8]
            else if i < 14 then Le16(crc)[i - 12] else Le16(n)[i - 14]
  {
    hide Le16, Le32;
  }

  lemma FieldBytes(b: bytes, at: nat)
    requires at + 2 <= |b|
    ensures Le16(U16(b, at)) == [b[at], b[at + 1]]
  {
  }

  /** Writing the header fields one by one leaves the CRC field as it was. */
  lemma HeaderStores(b: bytes, kind: int, from: int, packNo: int, sizeAll: int, n: int)
    requires HEADER <= |b|
    ensures Splice(Splice(Splice(Splice(Splice(b, 0, Le16(kind)), 4, Le32(packNo)), 2, Le16(from)), 8, Le32(sizeAll)),
        14, Le16(n))
         == Splice(b, 0, Header(kind, from, packNo, sizeAll, U16(b, 12), n))
  {
    hide Splice, Header, Le16, Le32, U16;
    var h := Header(kind, from, packNo, sizeAll, U16(b, 12), n);
    var s1 := Splice(b, 0, Le16(kind));
    var s2 := Splice(s1, 4, Le32(packNo));
    var s3 := Splice(s2, 2, Le16(from));
    var s4 := Splice(s3, 8, Le32(sizeAll));
    var s5 := Splice(s4, 14, Le16(n));
    FieldBytes(b, 12);
    forall i | 0 <= i < |b|
      ensures s5[i] == Splice(b, 0, h)[i]
    {
      SpliceIndex(b, 0, Le16(kind), i);
      SpliceIndex(s1, 4, Le32(packNo), i);
      SpliceIndex(s2, 2, Le16(from), i);
      SpliceIndex(s3, 8, Le32(sizeAll), i);
      SpliceIndex(s4, 14, Le16(n), i);
      SpliceIndex(b, 0, h, i);
      if i < HEADER {
        HeaderIndex(kind, from, packNo, sizeAll, U16(b, 12), n, i);
      }
    }
  }

  /** The body goes in behind the header: table, then payload. */
  lemma BodyStores(b: bytes, h: bytes, t: bytes, d: bytes)
    requires |h| + |t| + |d| <= |b|
    ensures Splice(Splice(Splice(b, 0, h), |h|, t), |h| + |t|, d) == Splice(b, 0, h + (t + d + []))
  {
    hide Splice;
    SpliceJoin(b, 0, h, t);
    SpliceJoin(b, 0, h + t, d);
    assert h + t + d == h + (t + d + []);
  }

  lemma ResizeHeader(kind: int, kind': int, from: int, packNo: int, sizeAll: int, sizeAll': int, crc: int, n: int)
    ensures Splice(Splice(Header(kind, from, packNo, sizeAll, crc, n), 0, Le16(kind')), 8, Le32(sizeAll'))
         == Header(kind', from, packNo, sizeAll', crc, n)
  {
    hide Splice, Header, Le16, Le32;
    var h, h' := Header(kind, from, packNo, sizeAll, crc, n), Header(kind', from, packNo, sizeAll', crc, n);
    var s := Splice(h, 0, Le16(kind'));
    forall i | 0 <= i < HEADER
      ensures Splice(s, 8, Le32(sizeAll'))[i] == h'[i]
    {
      SpliceIndex(h, 0, Le16(kind'), i);
      SpliceIndex(s, 8, Le32(sizeAll'), i);
      HeaderIndex(kind, from, packNo, sizeAll, crc, n, i);
      HeaderIndex(kind', from, packNo, sizeAll', crc, n, i);
    }
  }

  lemma SealHeader(kind: int, from: int, packNo: int, sizeAll: int, crc: int, crc': int, n: int)
    ensures Splice(Header(kind, from, packNo, sizeAll, crc, n), 12, Le16(crc'))
        == Header(kind, from, packNo, sizeAll, crc', n)
  {
    hide Splice, Header, Le16, Le32;
    var h, h' := Header(kind, from, packNo, sizeAll, crc, n), Header(kind, from, packNo, sizeAll, crc', n);
    forall i | 0 <= i < HEADER
      ensures Splice(h, 12, Le16(crc'))[i] == h'[i]
    {
      SpliceIndex(h, 12, Le16(crc'), i);
      HeaderIndex(kind, from, packNo, sizeAll, crc, n, i);
      HeaderIndex(kind, from, packNo, sizeAll, crc', n, i);
    }
  }

  /** Overwriting inside something spliced in at the front. */
  lemma SpliceInside(b: bytes, front: bytes, at: nat, chunk: bytes)
    requires |front| <= |b| && at + |chunk| <= |front|
    ensures Splice(Splice(b, 0, front), at, chunk) == Splice(b, 0, Splice(front, at, chunk))
  {
  }

  lemma SpliceLeft(h: bytes, rest: bytes, at: nat, chunk: bytes)
    requires at + |chunk| <= |h|
    ensures Splice(h + rest, at, chunk) == Splice(h, at, chunk) + rest
  {
  }

  lemma AppendStores(b: bytes, h: bytes, body: bytes, tail: bytes, kind: bytes, size: bytes)
    requires |h| == HEADER && |kind| == 2 && |size| == 4 && |h| + |body| + |tail| <= |b|
    ensures Splice(Splice(Splice(Splice(b, 0, h + body), |h + body|, tail), 0, kind), 8, size)
         == Splice(b, 0, Splice(Splice(h, 0, kind), 8, size) + (body + tail))
  {
    hide Splice;
    var all := h + (body + tail);
    SpliceJoin(b, 0, h + body, tail);
    assert h + body + tail == all;
    SpliceInside(b, all, 0, kind);
    SpliceLeft(h, body + tail, 0, kind);
    SpliceInside(b, Splice(all, 0, kind), 8, size);
    SpliceLeft(Splice(h, 0, kind), body + tail, 8, size);
  }

  lemma {:induction false} BodyTail(frags: seq<Frag>, tail: bytes)
    ensures Body(frags, tail) == Body(frags, []) + tail
  {
    assert Body(frags, []) == Table(frags) + Payload(frags);
  }

  /** A packet under construction in b gets a tail, another kind and its new size. */
  lemma {:induction false} AppendTail(b: bytes, p: Packet, crc: int, kind: int, tail: bytes)
    requires p.tail == [] && |Image(p, crc)| + |tail| <= |b|
    ensures var b1 := Splice(b, 0, Image(p, crc));
            var size := 4 + |Body(p.frags, tail)|;
            Splice(Splice(Splice(b1, |Image(p, crc)|, tail), 0, Le16(kind)), 8, Le32(size))
            == Splice(b, 0, Image(p.(kind := kind, tail := tail), crc))
  {
    hide Splice, Header, Le16, Le32, Body;
    var body := Body(p.frags, []);
    var size, size' := 4 + |body|, 4 + |Body(p.frags, tail)|;
    var h := Header(p.kind, p.from, p.packNo, size, crc, |p.frags|);
    BodyTail(p.frags, tail);
    AppendStores(b, h, body, tail, Le16(kind), Le32(size'));
    ResizeHeader(p.kind, kind, p.from, p.packNo, size, size', crc, |p.frags|);
  }

  lemma SealStore(b: bytes, h: bytes, body: bytes, crc: bytes)
    requires |h| == HEADER && |crc| == 2 && |h| + |body| <= |b|
    ensures Splice(Splice(b, 0, h + body), 12, crc) == Splice(b, 0, Splice(h, 12, crc) + body)
  {
    hide Splice;
    SpliceInside(b, h + body, 12, crc);
    SpliceLeft(h, body, 12, crc);
  }

  lemma {:induction false} Seal(b: bytes, p: Packet, crc: int, crc': int)
    requires |Image(p, crc)| <= |b|
    ensures Splice(Splice(b, 0, Image(p, crc)), 12, Le16(crc')) == Splice(b, 0, Image(p, crc'))
  {
    hide Splice, Header, Le16, Body;
    var body := Body(p.frags, p.tail);
    var h := Header(p.kind, p.from, p.packNo, 4 + |body|, crc, |p.frags|);
    SealStore(b, h, body, Le16(crc'));
    SealHeader(p.kind, p.from, p.packNo, 4 + |body|, crc, crc', |p.frags|);
  }

  // ---- What is built --------------------------------------------------------------------------

  /** sizeAll of a packet that carries messages only */
  function MessageSize(frags: seq<Frag>): nat {
    4 + |Body(frags, [])|
  }

  /** The packet EndPackSendData builds from the pending fragments; content is None when the file
      cannot be opened. */
  function NextPacket(frags: seq<Frag>, packRef: nat, file: FileSend, content: Option<bytes>): Packet
    requires Sized(frags) && ValidSend(file) && (content.Some? ==> |content.value| == file.size)
  {
    if file.sending && content.Some? then
      MessageSizeBound(frags);
      var k := ChunkSize(file, MessageSize(frags));
      Packet(KIND_MESSAGES + KIND_FILE, FROM_SERVER, packRef, frags, ChunkTail(file, k, content.value))
    else
      Packet(KIND_MESSAGES, FROM_SERVER, packRef, frags, [])
  }

  function NextFile(frags: seq<Frag>, file: FileSend, content: Option<bytes>): FileSend
    requires Sized(frags) && ValidSend(file)
  {
    if file.sending && content.Some? then
      MessageSizeBound(frags);
      AfterChunk(file, ChunkSize(file, MessageSize(frags)))
    else file
  }

  lemma MessageSizeBound(frags: seq<Frag>)
    requires Sized(frags)
    ensures MessageSize(frags) <= 4 + MAX_FRAGS * (BLOCK + 2)
  {
    PayloadBound(frags);
  }

  /** The packet stays within the 64 KB of the smallest buffer. */
  predicate PacketFits(p: Packet) {
    HEADER + |Body(p.frags, p.tail)| <= BUFFER_SIZE
  }

  lemma {:induction false} NextPacketIs(frags: seq<Frag>, packRef: nat, file: FileSend, content: bytes)
    requires Sized(frags) && ValidSend(file) && file.sending && |content| == file.size && packRef < U32_LIMIT
    ensures 0 <= MessageSize(frags) < 0x8000_0000
    ensures var k := ChunkSize(file, MessageSize(frags));
            var p := NextPacket(frags, packRef, file, Some(content));
            && p == Packet(KIND_MESSAGES + KIND_FILE, FROM_SERVER, packRef, frags, ChunkTail(file, k, content))
            && NextFile(frags, file, Some(content))
                == file.(done := file.done + k, sending := file.done + k != file.size)
            && 4 + |Body(frags, p.tail)| == MessageSize(frags) + |p.tail|
            && |Body(frags, p.tail)| == |Body(frags, [])| + |p.tail|
            && Encodable(Packet(KIND_MESSAGES, FROM_SERVER, packRef, frags, []))
  {
    MessageSizeBound(frags);
    BodyTail(frags, NextPacket(frags, packRef, file, Some(content)).tail);
  }

  /** The next packet in terms of the chunk size that was worked out. */
  lemma {:induction false} NextTail(frags: seq<Frag>, packRef: nat, file: FileSend, content: bytes, k: nat)
    requires Sized(frags) && ValidSend(file) && file.sending && |content| == file.size && packRef < U32_LIMIT
    requires 4 + |Body(frags, [])| < 0x8000_0000 && k == ChunkSize(file, 4 + |Body(frags, [])|)
    ensures var p := NextPacket(frags, packRef, file, Some(content));
            && p == Packet(KIND_MESSAGES + KIND_FILE, FROM_SERVER, packRef, frags, ChunkTail(file, k, content))
            && NextFile(frags, file, Some(content))
                == file.(done := file.done + k, sending := file.done + k != file.size)
            && |Encode(p)| == HEADER + |Body(frags, [])| + |ChunkTail(file, k, content)|
  {
    hide Body, ChunkSize, ChunkTail;
    NextPacketIs(frags, packRef, file, content);
  }

  lemma {:induction false} PlainLength(frags: seq<Frag>, packRef: nat, file: FileSend, content: Option<bytes>)
    requires Sized(frags) && ValidSend(file) && (content.Some? ==> |content.value| == file.size)
    ensures |Body(frags, [])| == 2 * |frags| + |Payload(frags)| && 4 + |Body(frags, [])| < 0x8000_0000
    ensures frags == [] ==> |Body(frags, [])| == 0
    ensures !(file.sending && content.Some?) ==>
              |Encode(NextPacket(frags, packRef, file, content))| == HEADER + |Body(frags, [])|
  {
    MessageSizeBound(frags);
  }

  lemma {:induction false} NextEncodable(frags: seq<Frag>, packRef: nat, file: FileSend, content: Option<bytes>)
    requires Sized(frags) && ValidSend(file) && (content.Some? ==> |content.value| == file.size) && packRef < U32_LIMIT
    ensures Encodable(NextPacket(frags, packRef, file, content))
  {
    MessageSizeBound(frags);
    BodyTail(frags, NextPacket(frags, packRef, file, content).tail);
  }

  /** `now` is b with a packet built at its front. */
  ghost predicate AtFront(now: bytes, b: bytes, front: bytes) {
    && |front| <= |b| && now == Splice(b, 0, front)
    && BUFFER_SIZE <= |b| && U32(now, 8) + SHORT_HEADER == |front|
  }

  lemma FrontBytes(now: bytes, b: bytes, front: bytes)
    requires AtFront(now, b, front)
    ensures now[..|front|] == front
  {
  }

  lemma NextFileValid(frags: seq<Frag>, file: FileSend, content: Option<bytes>)
    requires Sized(frags) && ValidSend(file)
    ensures ValidSend(NextFile(frags, file, content))
  {
  }

  lemma {:induction false} EncodedAtFront(b: bytes, p: Packet)
    requires Encodable(p) && |Encode(p)| <= |b| && BUFFER_SIZE <= |b|
    ensures AtFront(Splice(b, 0, Encode(p)), b, Encode(p))
  {
    var now := Splice(b, 0, Encode(p));
    assert Encode(p) <= now;
    ReadFields(now, p, PacketCrc(Covered(p)));
  }

  /** Without a file, or with one whose chunk fits, the packet fits. */
  lemma NextPacketFits(frags: seq<Frag>, packRef: nat, file: FileSend, content: Option<bytes>)
    requires Sized(frags) && ValidSend(file) && (content.Some? ==> |content.value| == file.size)
    ensures PacketFits(NextPacket(frags, packRef, file, content)) <==>
            (file.sending && content.Some? ==>
               || MessageSize(frags) <= CAPACITY
               || MessageSize(frags) + SHORT_HEADER + 8 + (if file.done == 0 then NAME_SIZE else 0)
                   + Left(file) <= BUFFER_SIZE)
  {
    MessageSizeBound(frags);
    ChunkFits(file, MessageSize(frags));
    var p := NextPacket(frags, packRef, file, content);
    BodyTail(frags, p.tail);
  }

  lemma {:induction false} NumberedSized(no: byte, m: bytes)
    ensures forall k :: 0 <= k < |Chop(m)| ==> |Numbered(no, Chop(m))[k].data| <= BLOCK
  {
    forall k | 0 <= k < |Chop(m)|
      ensures |Chop(m)[k]| <= BLOCK
    {
      ChopSizes(m, k);
    }
  }

  lemma {:induction false} SendAllSized(ms: seq<bytes>)
    ensures Sized(SendAll(ms).frags)
  {
    if ms != [] {
      var q := SendAll(ms[..|ms| - 1]);
      SendAllSized(ms[..|ms| - 1]);
      NumberedSized(q.cur % 256, Fit(ms[|ms| - 1], MAX_FRAGS - |q.frags|));
    }
  }

  lemma OneMessage(m: bytes)
    requires Blocks([m]) <= MAX_FRAGS
    ensures SendAll([m]).frags == Numbered(0, Chop(m))
  {
    hide Chop;
    FitWhole(m, MAX_FRAGS);
    assert [m][..0] == [];
    assert SendAll([m][..0]) == Queue([], 0);
    assert [] + Numbered(0, Chop(m)) == Numbered(0, Chop(m));
  }

  lemma PayloadOfMessage(m: bytes)
    ensures Payload(Numbered(0, Chop(m))) == m
  {
    hide Chop;
    assert Datas(Numbered(0, Chop(m))) == Chop(m);
    ChopFlatten(m);
  }

  lemma BigMessageSize(m: bytes)
    requires |m| == MAX_FRAGS * BLOCK
    ensures MessageSize(SendAll([m]).frags) == 4 + MAX_FRAGS * (BLOCK + 2)
  {
    hide Chop, Numbered, Payload;
    assert [m][..0] == [];
    assert Blocks([m][..0]) == 0;
    OneMessage(m);
    PayloadOfMessage(m);
  }

  /** A batch and a file with which the packet does not fit: 62 full slots and a file of 2000 bytes,
      which goes out whole because the room left is negative. */
  lemma LargeBatchOverflows(m: bytes, packRef: nat, name: bytes, content: bytes)
    requires |m| == MAX_FRAGS * BLOCK && |name| == NAME_SIZE && |content| == 2000
    ensures Sized(SendAll([m]).frags)
    ensures var p := NextPacket(SendAll([m]).frags, packRef, StartSend(name, 2000), Some(content));
            !PacketFits(p) && !PacketSized(p)
  {
    SendAllSized([m]);
    BigMessageSize(m);
    var frags, f := SendAll([m]).frags, StartSend(name, 2000);
    NextPacketFits(frags, packRef, f, Some(content));
    var p := NextPacket(frags, packRef, f, Some(content));
    BodyTail(frags, p.tail);
  }

  lemma SuffixParts(b: bytes, at: nat, k: nat)
    requires at + k <= |b|
    ensures b[at..][..k] == b[at..at + k]
    ensures b[at..][k..] == b[at + k..]
  {
  }

  /** memcpy inside one buffer: the regions must not overlap. */
  method Memcpy(a: array<byte>, to: nat, from: nat, len: nat)
    requires from + len <= a.Length && to + len <= a.Length
    requires to + len <= from || from + len <= to
    modifies a
    ensures a[..] == Splice(old(a[..]), to, old(a[..])[from..from + len])
  {
    ghost var was := a[..];
    forall k | 0 <= k < len {
      a[to + k] := a[from + k];
    }
    assert forall k :: 0 <= k < a.Length ==> a[k] == if to <= k < to + len then was[from + (k - to)] else was[k];
    assert a[..] == Splice(was, to, was[from..from + len]);
  }

  lemma MoveJoin(b: bytes, start: nat, done: bytes, from: nat, data: bytes)
    requires start + |done| + |data| <= from && from + |data| <= |b|
    requires b[from..from + |data|] == data
    ensures var was := Splice(b, start, done);
            Splice(was, start + |done|, was[from..from + |data|]) == Splice(b, start, done + data)
  {
    SpliceFrame(b, start, done, from, from + |data|);
    SpliceJoin(b, start, done, data);
  }

  /** The slots of b hold these fragments. */
  ghost predicate InSlots(b: bytes, frags: seq<Frag>) {
    && BUFFER_SIZE <= |b| && Sized(frags)
    && forall k :: 0 <= k < |frags| ==> b[Slot(k)..Slot(k) + |frags[k].data|] == frags[k].data
  }

  lemma {:induction false} PlainImage(packRef: nat, frags: seq<Frag>, crc: int)
    ensures |Body(frags, [])| == 2 * |frags| + |Payload(frags)|
    ensures Image(Packet(KIND_MESSAGES, FROM_SERVER, packRef, frags, []), crc) ==
            Header(KIND_MESSAGES, FROM_SERVER, packRef, |Payload(frags)| + 2 * |frags| + 4, crc, |frags|)
            + (Table(frags) + Payload(frags) + [])
  {
  }

  /** The three stores make up the packet. */
  lemma {:induction false} BuildStores(b: bytes, size: nat, packRef: nat, frags: seq<Frag>, crc: int)
    requires size == |Payload(frags)| + 2 * |frags| + 4
    requires HEADER + 2 * |frags| + |Payload(frags)| <= |b|
    ensures HEADER + |Body(frags, [])| <= |b|
    ensures var h := Header(KIND_MESSAGES, FROM_SERVER, packRef, size, crc, |frags|);
            Splice(Splice(Splice(b, 0, h), HEADER, Table(frags)), HEADER + 2 * |frags|, Payload(frags)) ==
            Splice(b, 0, Image(Packet(KIND_MESSAGES, FROM_SERVER, packRef, frags, []), crc))
  {
    hide Splice, Image, Body, Header, Table, Payload;
    PlainImage(packRef, frags, crc);
    BodyStores(b, Header(KIND_MESSAGES, FROM_SERVER, packRef, size, crc, |frags|), Table(frags), Payload(frags));
  }

  lemma ChunkParts(f: FileSend, k: nat, content: bytes)
    requires ValidSend(f) && k <= Left(f) && |content| == f.size
    ensures var first := if f.done == 0 then FLAG_HEADER else FLAG_CONTINUE;
            var name := if f.done == 0 then f.name else [];
            var flags := if f.done + k == f.size then first + FLAG_END else first;
            ChunkTail(f, k, content) == Le32(flags) + Le32(f.size) + name + content[f.done..f.done + k]
  {
  }

  lemma SpliceAgain(b: bytes, at: nat, first: bytes, second: bytes, rest: bytes)
    requires |first| == |second| && at + |first| + |rest| <= |b|
    ensures Splice(Splice(b, at, first + rest), at, second) == Splice(b, at, second + rest)
  {
  }

  lemma ChunkStores(b: bytes, at: nat, flags: bytes, last: bytes, size: bytes, name: bytes, data: bytes)
    requires |flags| == |last| == |size| == 4 && at + 8 + |name| + |data| <= |b|
    ensures Splice(Splice(Splice(Splice(Splice(b, at, flags), at + 4, size), at + 8, name), at + 8 + |name|, data), at,
        last)
         == Splice(b, at, last + size + name + data)
  {
    hide Splice;
    SpliceJoin(b, at, flags, size);
    SpliceJoin(b, at, flags + size, name);
    SpliceJoin(b, at, flags + size + name, data);
    assert flags + size + name + data == flags + (size + name + data);
    assert last + size + name + data == last + (size + name + data);
    SpliceAgain(b, at, flags, last, size + name + data);
  }

  /** The sizeAll field of a packet under construction, and the bytes its CRC will cover. */
  lemma {:induction false} StoredSize(now: bytes, b: bytes, p: Packet, crc: int)
    requires Encodable(p) && 0 <= crc < U16_LIMIT && |Image(p, crc)| <= |b|
    requires now == Splice(b, 0, Image(p, crc))
    ensures U32(now, 8) == 4 + |Body(p.frags, p.tail)|
    ensures now[HEADER..HEADER + |Body(p.frags, p.tail)|] == Body(p.frags, p.tail)
  {
    assert Image(p, crc) <= now;
    ReadFields(now, p, crc);
    assert Image(p, crc)[HEADER..] == Body(p.frags, p.tail);
    assert now[..|Image(p, crc)|] == Image(p, crc);
  }

  lemma CoveredAt(now: bytes, p: Packet)
    requires HEADER + |Body(p.frags, p.tail)| <= |now|
    requires now[HEADER..HEADER + |Body(p.frags, p.tail)|] == Body(p.frags, p.tail)
    ensures |Covered(p)| == |Body(p.frags, p.tail)| % U16_LIMIT && HEADER + |Covered(p)| <= |now|
    ensures now[HEADER..HEADER + |Covered(p)|] == Covered(p)
  {
    hide Body;
    var body := Body(p.frags, p.tail);
    var k := |body| % U16_LIMIT;
    assert now[HEADER..HEADER + k] == now[HEADER..HEADER + |body|][..k];
  }

  lemma NoTable(frags: seq<Frag>)
    ensures Table(frags[..0]) == []
  {
    assert frags[..0] == [];
  }

  /** One more table entry: the tag flips when the packet number differs from the one before. */
  lemma {:induction false} TableStep(frags: seq<Frag>, i: nat)
    requires i < |frags|
    ensures var no, tag := if i == 0 then 0 else frags[i - 1].no as int, if i == 0 then 0 else Tags(frags[..i])[i - 1];
            var tag' := if frags[i].no as int != no then 1 - tag else tag;
            && Tags(frags[..i + 1])[i] == tag'
            && Table(frags[..i + 1]) == Table(frags[..i]) + Le16(TableEntry(|frags[i].data|, tag'))
  {
    assert frags[..i + 1][..i] == frags[..i];
  }

  lemma NoPayload()
    ensures Payload([]) == []
  {
  }

  /** Header and table end before the first slot. */
  lemma {:induction false} SlotsUntouched(b: bytes, h: bytes, t: bytes, frags: seq<Frag>)
    requires InSlots(b, frags) && |h| == HEADER && |t| == 2 * |frags|
    ensures InSlots(Splice(Splice(b, 0, h), HEADER, t), frags)
  {
    forall k | 0 <= k < |frags|
      ensures Splice(Splice(b, 0, h), HEADER, t)[Slot(k)..Slot(k) + |frags[k].data|] == frags[k].data
    {
      SpliceFrame(b, 0, h, Slot(k), Slot(k) + |frags[k].data|);
      SpliceFrame(Splice(b, 0, h), HEADER, t, Slot(k), Slot(k) + |frags[k].data|);
    }
  }

  /** Appends a block that still lies untouched further up to what has already been gathered at start. */
  method MoveBlock(a: array<byte>, to: nat, from: nat, len: nat, ghost b: bytes, ghost start: nat, ghost done: bytes,
      ghost data: bytes)
    requires start + |done| == to && to + len <= from && from + len <= a.Length == |b|
    requires a[..] == Splice(b, start, done) && b[from..from + len] == data
    modifies a
    ensures start + |done| + |data| <= |b|
    ensures a[..] == Splice(b, start, done + data)
  {
    hide Splice;
    MoveJoin(b, start, done, from, data);
    Memcpy(a, to, from, len);
  }

  class Sender {
    const sendBuffer: array<byte>
    const sendPacketNo: array<byte>
    const sendBufferMSGSize: array<nat>
    var sendCount: nat
    var curPacketNo: nat
    var sendDataSize: nat
    var file: FileSend // fileDataSending, fileSendName, bigDataSendSize, bigDataSendSizeDone

    ghost predicate Valid()
      reads this, sendBuffer, sendPacketNo, sendBufferMSGSize
    {
      && sendBuffer != sendPacketNo
      && BUFFER_SIZE <= sendBuffer.Length
      && sendPacketNo.Length == sendBufferMSGSize.Length == MAX_BLOCKS
      && sendCount <= MAX_FRAGS && sendDataSize <= sendBuffer.Length
      && Slots.Valid(Box())
      && ValidSend(file)
    }

    ghost function Box(): Outbox
      reads this, sendBuffer, sendPacketNo, sendBufferMSGSize
      requires sendCount <= sendPacketNo.Length && sendCount <= sendBufferMSGSize.Length
    {
      Outbox(sendBuffer[..], sendPacketNo[..sendCount], sendBufferMSGSize[..sendCount], curPacketNo)
    }

    constructor (length: nat, name: bytes)
      requires BUFFER_SIZE <= length && |name| == NAME_SIZE
      ensures Valid() && fresh(sendBuffer) && fresh(sendPacketNo) && fresh(sendBufferMSGSize)
      ensures sendCount == curPacketNo == sendDataSize == 0 && !file.sending
    {
      sendBuffer := new byte[length](_ => 0);
      sendPacketNo := new byte[MAX_BLOCKS](_ => 0);
      sendBufferMSGSize := new nat[MAX_BLOCKS](_ => 0);
      sendCount, curPacketNo, sendDataSize := 0, 0, 0;
      file := FileSend(false, name, 0, 0);
    }

    /** One round of the filling loop: a block into the next slot. */
    method PutBlock(block: bytes)
      requires Valid() && sendCount < MAX_FRAGS && |block| <= BLOCK
      modifies this`sendCount, sendBuffer, sendPacketNo, sendBufferMSGSize
      ensures Valid()
      ensures Box() == Put(old(Box()), block)
      ensures sendCount == old(sendCount) + 1
    {
      CopyIn(sendBuffer, Slot(sendCount), block);
      sendBufferMSGSize[sendCount] := |block|;
      sendPacketNo[sendCount] := curPacketNo % 256;
      sendCount := sendCount + 1;
    }

    /** The filling loop of STSV_SendData. */
    method FillSlots(buffer: bytes)
      requires Valid() && sendCount < MAX_FRAGS
      modifies this`sendCount, sendBuffer, sendPacketNo, sendBufferMSGSize
      ensures Valid()
      ensures Box() == Fill(old(Box()), buffer)
    {
      var at := 0;
      assert buffer[0..] == buffer;
      while at < |buffer|
        invariant 0 <= at <= |buffer|
        invariant Valid() && (sendCount < MAX_FRAGS || at == |buffer|)
        invariant Fill(Box(), buffer[at..]) == Fill(old(Box()), buffer)
      {
        var k := Min(|buffer| - at, BLOCK);
        SuffixParts(buffer, at, k);
        PutBlock(buffer[at..at + k]);
        at := at + k;
        if sendCount >= MAX_FRAGS {
          break;
        }
      }
    }

    /** STSV_SendData */
    method SendData(buffer: bytes)
      requires Valid()
      modifies this`sendCount, this`curPacketNo, sendBuffer, sendPacketNo, sendBufferMSGSize
      ensures Valid()
      ensures Box() == Slots.SendData(old(Box()), buffer)
    {
      if sendCount < MAX_FRAGS {
        FillSlots(buffer);
        curPacketNo := (curPacketNo + 1) % U16_LIMIT;
      }
    }

    /** STSV_SendDBFile: a transfer starts from the first byte when the file is there; one that is under way
        goes on undisturbed, and so does everything queued. */
    method SendDBFile(name: bytes, size: Option<nat>)
      requires Valid() && |name| == NAME_SIZE && (size.Some? ==> size.value < 0x8000_0000)
      modifies this`file
      ensures Valid() && Box() == old(Box())
      ensures file == if old(file.sending) then old(file)
                      else if size.Some? then StartSend(name, size.value) else old(file)
    {
      if !file.sending {
        if size.Some? {
          file := StartSend(name, size.value);
        }
      }
    }

    /** The arrays beside the buffer describe these fragments. */
    ghost predicate Describes(frags: seq<Frag>)
      reads this, sendPacketNo, sendBufferMSGSize
    {
      && |frags| == sendCount <= MAX_FRAGS
      && sendPacketNo.Length == sendBufferMSGSize.Length == MAX_BLOCKS
      && forall k :: 0 <= k < |frags| ==>
           frags[k].no == sendPacketNo[k] && |frags[k].data| == sendBufferMSGSize[k] <= BLOCK
    }

    /** The header, without the CRC. */
    method WriteHeader(packRef: nat, sizeAll: nat)
      requires BUFFER_SIZE <= sendBuffer.Length
      modifies sendBuffer
      ensures sendBuffer[..] ==
              Splice(old(sendBuffer[..]), 0, Header(KIND_MESSAGES, FROM_SERVER, packRef, sizeAll,
                  U16(old(sendBuffer[..]), 12), sendCount))
    {
      CopyIn(sendBuffer, 0, Le16(KIND_MESSAGES));
      CopyIn(sendBuffer, 4, Le32(packRef));
      CopyIn(sendBuffer, 2, Le16(FROM_SERVER));
      CopyIn(sendBuffer, 8, Le32(sizeAll));
      CopyIn(sendBuffer, 14, Le16(sendCount));
      HeaderStores(old(sendBuffer[..]), KIND_MESSAGES, FROM_SERVER, packRef, sizeAll, sendCount);
    }

    /** The size table: the boundary bit flips whenever the packet number changes. */
    method WriteTable(ghost frags: seq<Frag>)
      requires Describes(frags) && BUFFER_SIZE <= sendBuffer.Length && sendBuffer != sendPacketNo
      modifies sendBuffer
      ensures sendBuffer[..] == Splice(old(sendBuffer[..]), HEADER, Table(frags))
    {
      hide Splice, Le16, Table, Tags;
      ghost var b := sendBuffer[..];
      var continuePack, curPacket := 0, 0;
      SpliceNothing(b, HEADER);
      NoTable(frags);
      for i := 0 to sendCount
        invariant Describes(frags)
        invariant continuePack == if i == 0 then 0 else Tags(frags[..i])[i - 1]
        invariant curPacket == if i == 0 then 0 else frags[i - 1].no
        invariant sendBuffer[..] == Splice(b, HEADER, Table(frags[..i]))
      {
        TableStep(frags, i);
        if curPacket != sendPacketNo[i] as int {
          continuePack := 1 - continuePack;
        }
        SpliceJoin(b, HEADER, Table(frags[..i]), Le16(TableEntry(sendBufferMSGSize[i], continuePack)));
        CopyIn(sendBuffer, HEADER + 2 * i, Le16(TableEntry(sendBufferMSGSize[i], continuePack)));
        curPacket := sendPacketNo[i] as int;
      }
      assert frags[..sendCount] == frags;
    }

    /** The slots, compacted down behind the table in the same buffer. The copy of each slot ends
        before the slot begins, so every slot is still intact when its turn comes. */
    method Compact(ghost frags: seq<Frag>)
      requires Describes(frags) && BUFFER_SIZE <= sendBuffer.Length && sendBuffer != sendPacketNo
      requires InSlots(sendBuffer[..], frags)
      modifies sendBuffer
      ensures HEADER + 2 * |frags| + |Payload(frags)| <= sendBuffer.Length
      ensures sendBuffer[..] == Splice(old(sendBuffer[..]), HEADER + 2 * |frags|, Payload(frags))
    {
      hide Splice, Payload;
      ghost var b := sendBuffer[..];
      NoPayload();
      SpliceNothing(b, HEADER + 2 * sendCount);
      assert frags[..0] == [];
      var start := HEADER + 2 * sendCount;
      var at := start;
      for i := 0 to sendCount
        invariant Describes(frags)
        invariant at == start + |Payload(frags[..i])| && |Payload(frags[..i])| <= BLOCK * i
        invariant sendBuffer[..] == Splice(b, start, Payload(frags[..i]))
      {
        DatasPrefix(frags, i);
        MoveBlock(sendBuffer, at, Slot(i), sendBufferMSGSize[i], b, start, Payload(frags[..i]), frags[i].data);
        at := at + sendBufferMSGSize[i];
      }
      assert frags[..sendCount] == frags;
    }

    /** The sizes of the pending fragments, added up. */
    method SumSizes(ghost frags: seq<Frag>) returns (sum: nat)
      requires Describes(frags)
      ensures sum == |Payload(frags)|
    {
      sum := 0;
      for i := 0 to sendCount
        invariant sum == |Payload(frags[..i])|
      {
        DatasPrefix(frags, i);
        sum := sum + sendBufferMSGSize[i];
      }
      assert frags[..sendCount] == frags;
    }

    /** Header, table and payload, given the fragments that lie in the slots. */
    method Build(packRef: nat, ghost b: bytes, ghost frags: seq<Frag>)
      requires Describes(frags) && BUFFER_SIZE <= sendBuffer.Length && sendBuffer != sendPacketNo
      requires sendBuffer[..] == b && InSlots(b, frags)
      modifies sendBuffer
      ensures HEADER + |Body(frags, [])| <= |b|
      ensures sendBuffer[..] == Splice(b, 0, Image(Packet(KIND_MESSAGES, FROM_SERVER, packRef, frags, []), U16(b, 12)))
    {
      var sumSize := SumSizes(frags);
      sumSize := sumSize + 2 * sendCount + 4;
      ghost var h := Header(KIND_MESSAGES, FROM_SERVER, packRef, sumSize, U16(b, 12), |frags|);
      PayloadBound(frags);
      SlotsUntouched(b, h, Table(frags), frags);
      BuildStores(b, sumSize, packRef, frags, U16(b, 12));
      WriteHeader(packRef, sumSize);
      WriteTable(frags);
      Compact(frags);
    }

    /** _PackDataWithPacket: a packet of the pending fragments at the front of the buffer that holds
        them; its CRC field is left as it was. */
    method PackDataWithPacket(packRef: nat)
      requires Valid()
      modifies sendBuffer
      ensures var frags := Pending(old(Box())).frags;
              var b := old(sendBuffer[..]);
              && HEADER + |Body(frags, [])| <= |b|
              && sendBuffer[..] == Splice(b, 0, Image(Packet(KIND_MESSAGES, FROM_SERVER, packRef, frags, []),
                  U16(b, 12)))
    {
      ghost var frags := Pending(Box()).frags;
      Build(packRef, sendBuffer[..], frags);
    }

    /** Header words, name and file bytes of a chunk; the flag word is stored again when the chunk
        turns out to be the last. */
    method StoreChunk(at: nat, k: nat, content: bytes)
      requires ValidSend(file) && k <= Left(file) && |content| == file.size
      requires at + |ChunkTail(file, k, content)| <= sendBuffer.Length
      modifies sendBuffer
      ensures sendBuffer[..] == Splice(old(sendBuffer[..]), at, ChunkTail(file, k, content))
    {
      hide Splice, Le32, ChunkTail, ChunkFlags;
      var flags := if file.done == 0 then FLAG_HEADER else FLAG_CONTINUE;
      var name := if file.done == 0 then file.name else [];
      var last := if file.done + k == file.size then flags + FLAG_END else flags;
      ChunkParts(file, k, content);
      ChunkStores(sendBuffer[..], at, Le32(flags), Le32(last), Le32(file.size), name,
          content[file.done..file.done + k]);
      CopyIn(sendBuffer, at, Le32(flags));
      CopyIn(sendBuffer, at + 4, Le32(file.size));
      CopyIn(sendBuffer, at + 8, name);
      CopyIn(sendBuffer, at + 8 + |name|, content[file.done..file.done + k]);
      CopyIn(sendBuffer, at, Le32(last));
    }

    /** sizeDataCanSend against what is left of the file, as unsigned numbers */
    method RoomForChunk(sizeAll: nat) returns (k: nat)
      requires ValidSend(file) && sizeAll < 0x8000_0000
      ensures sizeAll <= CAPACITY ==> k == Min(CAPACITY - sizeAll, Left(file))
      ensures sizeAll > CAPACITY ==> k == Left(file)
      ensures k == ChunkSize(file, sizeAll)
    {
      var room := CAPACITY - sizeAll;
      var unsignedRoom := if room < 0 then room + U32_LIMIT else room;
      k := if unsignedRoom > file.size - file.done then file.size - file.done else room;
    }

    /** _PackDataWithBigData, with the file open: a chunk behind the message part of the packet. */
    method PackDataWithBigData(content: bytes, ghost b: bytes, ghost packRef: nat, ghost frags: seq<Frag>,
        ghost crc: nat)
      requires BUFFER_SIZE <= sendBuffer.Length == |b| && ValidSend(file) && file.sending && |content| == file.size
      requires Sized(frags) && packRef < U32_LIMIT && crc < U16_LIMIT
      requires HEADER + |Body(frags, [])| <= |b|
      requires sendBuffer[..] == Splice(b, 0, Image(Packet(KIND_MESSAGES, FROM_SERVER, packRef, frags, []), crc))
      requires |Encode(NextPacket(frags, packRef, file, Some(content)))| <= |b|
      modifies sendBuffer, this`file
      ensures file == NextFile(frags, old(file), Some(content))
      ensures |Encode(NextPacket(frags, packRef, old(file), Some(content)))| <= |b|
      ensures sendBuffer[..] == Splice(b, 0, Image(NextPacket(frags, packRef, old(file), Some(content)), crc))
    {
      hide Splice, Image, Encode, Body, Le16, Le32, ChunkTail, NextPacket, NextFile, U32, MessageSize, ChunkSize;
      ghost var p := Packet(KIND_MESSAGES, FROM_SERVER, packRef, frags, []);
      NextPacketIs(frags, packRef, file, content);
      StoredSize(sendBuffer[..], b, p, crc);
      var sizeAll := U32(sendBuffer[..], 8);
      var k := RoomForChunk(sizeAll);
      NextTail(frags, packRef, file, content, k);
      AppendChunk(sizeAll, k, content, b, p, crc);
      file := file.(done := file.done + k);
      if file.done == file.size {
        file := file.(sending := false);
      }
    }

    /** The chunk behind the packet, and the two fields of the header that it changes. */
    method AppendChunk(sizeAll: nat, k: nat, content: bytes, ghost b: bytes, ghost p: Packet, ghost crc: nat)
      requires sendBuffer.Length == |b| && ValidSend(file) && k <= Left(file) && |content| == file.size
      requires p.kind == KIND_MESSAGES && p.tail == [] && sizeAll == 4 + |Body(p.frags, [])|
      requires HEADER + |Body(p.frags, [])| + |ChunkTail(file, k, content)| <= |b|
      requires sendBuffer[..] == Splice(b, 0, Image(p, crc))
      modifies sendBuffer
      ensures HEADER + |Body(p.frags, ChunkTail(file, k, content))| <= |b|
      ensures var p' := p.(kind := KIND_MESSAGES + KIND_FILE, tail := ChunkTail(file, k, content));
              sendBuffer[..] == Splice(b, 0, Image(p', crc))
    {
      hide Splice, Image, Body, Le16, Le32, ChunkTail;
      var size := sizeAll + 8 + (if file.done == 0 then NAME_SIZE else 0) + k;
      ghost var tail := ChunkTail(file, k, content);
      BodyTail(p.frags, tail);
      AppendTail(b, p, crc, KIND_MESSAGES + KIND_FILE, tail);
      StoreChunk(sizeAll + SHORT_HEADER, k, content);
      CopyIn(sendBuffer, 0, Le16(KIND_MESSAGES + KIND_FILE));
      CopyIn(sendBuffer, 8, Le32(size));
    }

    /** _PackDataWithCRC16 */
    method PackDataWithCrc16(table: array<nat>, ghost b: bytes, ghost p: Packet, ghost crc: nat)
      requires IsTable(table[..], BitsOf(CRC16_POLY, 16))
      requires sendBuffer.Length == |b| && Encodable(p) && |Encode(p)| <= |b| && crc < U16_LIMIT
      requires sendBuffer[..] == Splice(b, 0, Image(p, crc))
      modifies sendBuffer
      ensures sendBuffer[..] == Splice(b, 0, Encode(p))
    {
      hide Splice, Image, Body, Le16, U32, IsTable, PacketCrc, Covered, Encodable;
      ghost var now := sendBuffer[..];
      StoredSize(now, b, p, crc);
      CoveredAt(now, p);
      var sizeAll := U32(sendBuffer[..], 8);
      var length := (sizeAll - 4) % U16_LIMIT;
      assert length == |Covered(p)|;
      var covered := sendBuffer[HEADER..HEADER + length];
      assert covered == now[HEADER..HEADER + |Covered(p)|];
      var sum := Crc16(covered, table, CRC16_POLY);
      PacketCrcIs(covered, sum);
      Seal(b, p, crc, sum);
      CopyIn(sendBuffer, 12, Le16(sum));
    }

    /** A batch can be built: its packet stays within the buffer, however large that is. */
    ghost predicate Ready(packRef: nat, content: Option<bytes>)
      reads this, sendBuffer, sendPacketNo, sendBufferMSGSize
    {
      && Valid() && packRef < U32_LIMIT
      && (content.Some? ==> |content.value| == file.size)
      && |Encode(NextPacket(Pending(Box()).frags, packRef, file, content))| <= sendBuffer.Length
    }

    ghost function NextPacketOf(packRef: nat, content: Option<bytes>): (p: Packet)
      requires Ready(packRef, content)
      reads this, sendBuffer, sendPacketNo, sendBufferMSGSize
      ensures Encodable(p) && |Encode(p)| <= sendBuffer.Length
    {
      NextEncodable(Pending(Box()).frags, packRef, file, content);
      NextPacket(Pending(Box()).frags, packRef, file, content)
    }

    /** Message part and chunk, before the CRC. */
    method BuildUnsealed(packRef: nat, content: Option<bytes>)
      requires Ready(packRef, content)
      modifies sendBuffer, this`file
      ensures var b := old(sendBuffer[..]);
              var p := old(NextPacketOf(packRef, content));
              sendBuffer[..] == Splice(b, 0, Image(p, U16(b, 12)))
      ensures file == NextFile(old(Pending(Box()).frags), old(file), content)
    {
      ghost var b, frags := sendBuffer[..], Pending(Box()).frags;
      hide Splice, Image, Body, U16, U32, ChunkSize, ChunkTail, Slots.Valid;
      PackDataWithPacket(packRef);
      if file.sending && content.Some? {
        PackDataWithBigData(content.value, b, packRef, frags, U16(b, 12));
      }
    }

    /** The locked part of EndPackSendData up to the write: the batch becomes a packet at the front of
        the buffer. (The source stores packNo once more at the end, with the value it already has.) */
    method BuildBatch(packRef: nat, content: Option<bytes>, table: array<nat>)
      requires Ready(packRef, content) && IsTable(table[..], BitsOf(CRC16_POLY, 16))
      modifies sendBuffer, this`file
      ensures Valid()
      ensures AtFront(sendBuffer[..], old(sendBuffer[..]), Encode(old(NextPacketOf(packRef, content))))
      ensures file == NextFile(old(Pending(Box()).frags), old(file), content)
    {
      hide Splice, Image, Encode, Body, U16, U32, IsTable, AtFront, Slots.Valid, NextPacket, NextFile, NextPacketOf;
      ghost var b, frags := sendBuffer[..], Pending(Box()).frags;
      ghost var p := NextPacketOf(packRef, content);
      BuildUnsealed(packRef, content);
      PackDataWithCrc16(table, b, p, U16(b, 12));
      EncodedAtFront(b, p);
      ValidWithBuffer(old(Box()), sendBuffer[..]);
      NextFileValid(frags, old(file), content);
    }

    /** How long the next packet would be. */
    method PacketLength(packRef: nat, content: Option<bytes>) returns (n: nat)
      requires Valid() && packRef < U32_LIMIT && (content.Some? ==> |content.value| == file.size)
      ensures n == |Encode(NextPacket(Pending(Box()).frags, packRef, file, content))|
      ensures sendCount == 0 && !file.sending ==> n == HEADER
    {
      hide Encode, NextPacket, Body, ChunkSize, ChunkTail;
      ghost var frags := Pending(Box()).frags;
      PlainLength(frags, packRef, file, content);
      var sum := SumSizes(frags);
      n := HEADER + 2 * sendCount + sum;
      if file.sending && content.Some? {
        var k := RoomForChunk(4 + 2 * sendCount + sum);
        NextTail(frags, packRef, file, content.value, k);
        n := n + 8 + (if file.done == 0 then NAME_SIZE else 0) + k;
      }
    }

    /** The write and the resets at the end of EndPackSendData. */
    method Flush(sock: Socket, ghost b: bytes, ghost front: bytes) returns (ok: bool)
      requires Valid() && AtFront(sendBuffer[..], b, front)
      modifies this`sendDataSize, this`sendCount, this`curPacketNo, sock`output, sock`sendPlan
      ensures Valid()
      ensures Box() == Outbox(Splice(b, 0, front), [], [], 0)
      ensures sendDataSize == |front|
      ensures ok ==> sock.output == old(sock.output) + front
      ensures Orderly(old(sock.sendPlan)) ==> ok && Orderly(sock.sendPlan)
    {
      hide Splice, U32;
      sendDataSize := U32(sendBuffer[..], 8) + SHORT_HEADER;
      FrontBytes(sendBuffer[..], b, front);
      assert sendBuffer[..sendDataSize] == sendBuffer[..][..sendDataSize] == front;
      var n := sock.WriteTo(sendBuffer[..sendDataSize]);
      ok := n != 0;
      sendCount, curPacketNo := 0, 0;
    }

    /** EndPackSendData: the batch and the next chunk of the file go out as one packet, and the queue is
        empty again; with nothing to send, a confirm goes out instead. False when the connection broke. */
    method EndPackSendData(packRef: nat, content: Option<bytes>, table: array<nat>, sock: Socket) returns (ok: bool)
      requires Ready(packRef, content) && IsTable(table[..], BitsOf(CRC16_POLY, 16))
      modifies this, sendBuffer, sock`output, sock`sendPlan
      ensures Valid()
      ensures var front := Encode(old(NextPacketOf(packRef, content)));
              if old(sendCount) > 0 || old(file.sending) then
                && |front| <= |old(sendBuffer[..])|
                && Box() == Sent(old(Box()), front) && sendDataSize == |front|
                && file == NextFile(old(Pending(Box()).frags), old(file), content)
                && (ok ==> sock.output == old(sock.output) + front)
              else
                && Box() == old(Box()) && sendDataSize == old(sendDataSize) && file == old(file)
                && (ok ==> sock.output == old(sock.output) + Confirm(packRef))
      ensures Orderly(old(sock.sendPlan)) ==> ok && Orderly(sock.sendPlan)
    {
      if sendCount > 0 || file.sending {
        hide Splice, Encode, U32, IsTable, NextPacket, NextFile, Pending, NextPacketOf;
        ghost var b, front := sendBuffer[..], Encode(NextPacketOf(packRef, content));
        BuildBatch(packRef, content, table);
        ok := Flush(sock, b, front);
      } else {
        var n := sock.WriteTo(Confirm(packRef));
        ok := n != 0;
      }
    }
  }
}
