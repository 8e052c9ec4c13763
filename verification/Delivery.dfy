/** End to end: what is passed to STSV_SendData and STSV_SendDBFile on one side of a connection comes
    out of processMessageBuffer on the other. */
module Delivery {
  import opened Bytes
  import opened CrcTables
  import opened Files
  import opened Fragments
  import opened Link
  import opened Packets
  import opened Reception
  import opened Sender
  import opened Session
  import opened Slots

  /** One batch: the messages passed to STSV_SendData, the sender's client id and packet number, and
      whether the file in transit could be opened. */
  datatype Batch = Batch(ms: seq<bytes>, from: int, packNo: nat, readable: bool)

  predicate ValidBatch(b: Batch, cfg: Config) {
    0 <= b.from < cfg.maxConnection && b.from < 0x8000 && b.packNo < U32_LIMIT && WellNumbered(b.ms)
  }

  function TurnOf(b: Batch): (t: Turn)
    ensures 0 <= t.sizeAll < 0x8000_0000
  {
    SendAllSized(b.ms);
    MessageSizeBound(SendAll(b.ms).frags);
    Turn(MessageSize(SendAll(b.ms).frags), b.readable)
  }

  function TurnsOf(bs: seq<Batch>): (t: seq<Turn>)
    ensures ValidTurns(t) && |t| == |bs|
  {
    seq(|bs|, i requires 0 <= i < |bs| => TurnOf(bs[i]))
  }

  /** The packet a batch becomes while the transfer stands at x. */
  function PacketOf(b: Batch, x: Transfer, content: bytes): Packet
    requires ValidSend(x.send) && |content| == x.send.size
  {
    SendAllSized(b.ms);
    NextPacket(SendAll(b.ms).frags, b.packNo, x.send, if b.readable then Some(content) else None).(from := b.from)
  }

  // ---- A run of batches -----------------------------------------------------------------------

  /** Where the transfer of the file stands after some batches. */
  function StateAfter(bs: seq<Batch>, name: bytes, content: bytes, inbox: Inbox): (x: Transfer)
    requires |name| == NAME_SIZE && |content| < 0x8000_0000
    ensures ValidSend(x.send) && x.send.size == |content|
  {
    Exchanges(Begin(name, content, inbox), TurnsOf(bs), content)
  }

  /** The packets of a run of batches, while a file is in transit. */
  ghost function PacketsOf(bs: seq<Batch>, name: bytes, content: bytes, inbox: Inbox): (ps: seq<Packet>)
    requires |name| == NAME_SIZE && |content| < 0x8000_0000
    ensures |ps| == |bs|
  {
    if bs == [] then []
    else
      var n := |bs| - 1;
      PacketsOf(bs[..n], name, content, inbox) + [PacketOf(bs[n], StateAfter(bs[..n], name, content, inbox), content)]
  }

  function NumbersOf(bs: seq<Batch>): (ns: seq<nat>)
    ensures |ns| == |bs|
  {
    seq(|bs|, i requires 0 <= i < |bs| => bs[i].packNo)
  }

  function MeantBy(bs: seq<Batch>): (m: seq<seq<bytes>>)
    ensures |m| == |bs|
  {
    seq(|bs|, i requires 0 <= i < |bs| => Expected(bs[i].ms))
  }

  /** Packets that fit the buffer, under rising numbers, from known clients. */
  ghost predicate Sendable(bs: seq<Batch>, from: nat, cfg: Config, name: bytes, content: bytes, inbox: Inbox)
    requires |name| == NAME_SIZE && |content| < 0x8000_0000
  {
    && (forall i :: 0 <= i < |bs| ==> ValidBatch(bs[i], cfg) && PacketSized(PacketsOf(bs, name, content, inbox)[i]))
    && Rising(from, bs)
  }

  /** Every batch uses a larger number than the one before. */
  predicate Rising(from: nat, bs: seq<Batch>) {
    bs != [] ==>
      var n := |bs| - 1;
      (if n == 0 then from else bs[n - 1].packNo) < bs[n].packNo && Rising(from, bs[..n])
  }

  lemma TurnsSnoc(bs: seq<Batch>)
    requires bs != []
    ensures TurnsOf(bs) == TurnsOf(bs[..|bs| - 1]) + [TurnOf(bs[|bs| - 1])]
  {
  }

  /** One more batch moves the transfer one exchange on. */
  lemma StateSnoc(bs: seq<Batch>, name: bytes, content: bytes, inbox: Inbox)
    requires bs != [] && |name| == NAME_SIZE && |content| < 0x8000_0000
    ensures StateAfter(bs, name, content, inbox) ==
            Exchange(StateAfter(bs[..|bs| - 1], name, content, inbox), TurnOf(bs[|bs| - 1]), content)
  {
    TurnsSnoc(bs);
    var t := TurnsOf(bs);
    assert t[..|t| - 1] == TurnsOf(bs[..|bs| - 1]);
  }

  /** The kinds of packets that batches become. */
  lemma TwoKinds()
    ensures DataKind(KIND_MESSAGES) && HasBit(KIND_MESSAGES, KIND_MESSAGES)
    ensures !HasBit(KIND_MESSAGES, KIND_BIG) && !HasBit(KIND_MESSAGES, KIND_FILE)
    ensures DataKind(KIND_MESSAGES + KIND_FILE) && HasBit(KIND_MESSAGES + KIND_FILE, KIND_MESSAGES)
    ensures !HasBit(KIND_MESSAGES + KIND_FILE, KIND_BIG) && HasBit(KIND_MESSAGES + KIND_FILE, KIND_FILE)
  {
  }

  /** A packet that carries messages and perhaps a chunk: it can be sent, and receiving it is the
      exchange of its chunk. */
  lemma PacketIsExchange(b: Batch, x: Transfer, content: bytes, cfg: Config)
    requires ValidSend(x.send) && |content| == x.send.size && ValidBatch(b, cfg)
    ensures var p := PacketOf(b, x, content);
            && Readable(p, cfg) && p.packNo == b.packNo && !HasBit(p.kind, KIND_BIG)
            && Messages(p) == Expected(b.ms) && PacketInbox(x.store, p) == Exchange(x, TurnOf(b), content).store
  {
    hide Deliver, Expected, ReceiveFile, ReceiveBig, ChunkTail, ChunkSize, ChunkFlags, WellNumbered, SendAll, HasBit,
        DataKind, Encodable, MessageSize, FileChunk, HasHeader, HasEnd;
    var frags := SendAll(b.ms).frags;
    SendAllSized(b.ms);
    RoundTrip(b.ms);
    TwoKinds();
    NextEncodable(frags, b.packNo, x.send, if b.readable then Some(content) else None);
    Readdressed(NextPacket(frags, b.packNo, x.send, if b.readable then Some(content) else None), b.from);
    if x.send.sending && b.readable {
      MessageSizeBound(frags);
      ChunkFields(x.send, ChunkSize(x.send, MessageSize(frags)), content);
    }
  }

  lemma Readdressed(p: Packet, from: int)
    requires Encodable(p) && 0 <= from < 0x8000
    ensures Encodable(p.(from := from))
  {
  }

  lemma SendableFront(bs: seq<Batch>, from: nat, cfg: Config, name: bytes, content: bytes, inbox: Inbox)
    requires bs != [] && |name| == NAME_SIZE && |content| < 0x8000_0000
    requires Sendable(bs, from, cfg, name, content, inbox)
    ensures var n := |bs| - 1;
            && Sendable(bs[..n], from, cfg, name, content, inbox)
            && ValidBatch(bs[n], cfg) && PacketSized(PacketOf(bs[n], StateAfter(bs[..n], name, content, inbox),
                content))
            && (if n == 0 then from else bs[n - 1].packNo) < bs[n].packNo
  {
    hide ValidBatch, PacketSized, PacketOf, StateAfter;
    var n := |bs| - 1;
    var ps := PacketsOf(bs, name, content, inbox);
    assert ps[..n] == PacketsOf(bs[..n], name, content, inbox);
    assert ps[n] == PacketOf(bs[n], StateAfter(bs[..n], name, content, inbox), content);
    forall i | 0 <= i < n
      ensures ValidBatch(bs[..n][i], cfg) && PacketSized(PacketsOf(bs[..n], name, content, inbox)[i])
    {
      assert ps[..n][i] == ps[i];
    }
  }

  /** The session after a run of batches: everything meant was delivered, batch by batch, under the
      numbers used, and the inbox is what the exchanges of the file made of it. */
  ghost predicate Received(t: Trace, s: Session, bs: seq<Batch>, x: Transfer)
  {
    && t.s.inbox == x.store && t.s.online && t.accepted == NumbersOf(bs) && t.delivered == MeantBy(bs)
    && t.s.packRef == if bs == [] then s.packRef else bs[|bs| - 1].packNo
  }

  lemma ReceivedNothing(s: Session, name: bytes, content: bytes)
    requires |name| == NAME_SIZE && |content| < 0x8000_0000 && s.online
    ensures Received(Trace(s, [], [], [], false), s, [], StateAfter([], name, content, s.inbox))
  {
  }

  lemma ReceivedParts(t: Trace, s: Session, bs: seq<Batch>, x: Transfer)
    requires Received(t, s, bs, x)
    ensures t.s.inbox == x.store && t.s.online && t.accepted == NumbersOf(bs)
    ensures t.s.packRef == if bs == [] then s.packRef else bs[|bs| - 1].packNo
  {
  }

  /** The packets of the batches, as packets like any others. */
  lemma {:induction false} BatchesAreTakeable(bs: seq<Batch>, from: nat, cfg: Config, name: bytes, content: bytes,
      inbox: Inbox)
    requires |name| == NAME_SIZE && |content| < 0x8000_0000
    requires Sendable(bs, from, cfg, name, content, inbox)
    ensures var ps := PacketsOf(bs, name, content, inbox);
            && Takeable(ps, from, cfg)
            && InboxAfter(inbox, ps, from, cfg) == StateAfter(bs, name, content, inbox).store
            && Numbers(ps, from, cfg) == NumbersOf(bs) && AllMessages(ps, from, cfg) == MeantBy(bs)
            && NewestNumber(ps, from) == if bs == [] then from else bs[|bs| - 1].packNo
  {
    hide PacketOf, Exchange, Readable, PacketSized, ValidBatch, Messages, PacketInbox, Expected, Sendable, StateAfter,
        NumbersOf, MeantBy;
    if bs == [] {
      NoState(name, content, inbox);
      NoBatches();
    } else {
      var n, ps := |bs| - 1, PacketsOf(bs, name, content, inbox);
      SendableFront(bs, from, cfg, name, content, inbox);
      BatchesAreTakeable(bs[..n], from, cfg, name, content, inbox);
      PacketsFront(bs, name, content, inbox);
      PacketIsExchange(bs[n], StateAfter(bs[..n], name, content, inbox), content, cfg);
      StateSnoc(bs, name, content, inbox);
      FrontAndLast(bs);
      BatchLists(bs);
    }
  }

  lemma BatchLists(bs: seq<Batch>)
    requires bs != []
    ensures var n := |bs| - 1;
            && NumbersOf(bs) == NumbersOf(bs[..n]) + [bs[n].packNo]
            && MeantBy(bs) == MeantBy(bs[..n]) + [Expected(bs[n].ms)]
  {
    hide Expected;
  }

  lemma {:induction false} PacketsFront(bs: seq<Batch>, name: bytes, content: bytes, inbox: Inbox)
    requires bs != [] && |name| == NAME_SIZE && |content| < 0x8000_0000
    ensures var n, ps := |bs| - 1, PacketsOf(bs, name, content, inbox);
            && ps[..n] == PacketsOf(bs[..n], name, content, inbox)
            && ps[n] == PacketOf(bs[n], StateAfter(bs[..n], name, content, inbox), content)
  {
    hide PacketOf, StateAfter;
  }

  lemma NoBatches()
    ensures NumbersOf([]) == [] && MeantBy([]) == []
  {
  }

  lemma NoState(name: bytes, content: bytes, inbox: Inbox)
    requires |name| == NAME_SIZE && |content| < 0x8000_0000
    ensures StateAfter([], name, content, inbox).store == inbox
  {
  }

  /** The packets of any run of batches, however many, with the chunks of a file behind them, and with
      anything sent the other way and any asides in between: they deliver what was meant, batch by batch,
      under the numbers used, and the receiver's files are what the exchange of the chunks makes of them. */
  lemma {:induction false} EndToEnd(bs: seq<Batch>, s: Session, cfg: Config, es: seq<Event>, name: bytes,
      content: bytes)
    requires ValidSession(s) && s.online && |name| == NAME_SIZE && |content| < 0x8000_0000 && AllValid(es)
    requires Sendable(bs, s.packRef, cfg, name, content, s.inbox)
    requires Carries(s, cfg, es, PacketsOf(bs, name, content, s.inbox))
    ensures var t := Run(s, cfg, es);
            && |t.s.outbox.buf| == |s.outbox.buf|
            && (t.faulted || Received(t, s, bs, StateAfter(bs, name, content, s.inbox)))
            && (t.faulted <==> exists e :: e in es && !Quiet(e, |s.outbox.buf|))
  {
    hide PacketsOf, Sendable, Carries, Run, StateAfter, InboxAfter, Takeable, Numbers, AllMessages, NewestNumber;
    BatchesAreTakeable(bs, s.packRef, cfg, name, content, s.inbox);
    AllReceived(PacketsOf(bs, name, content, s.inbox), s, cfg, es);
  }

  // ---- The sender's side ----------------------------------------------------------------------

  /** The send half between two batches, and the packets that have gone out. */
  datatype Sending = Sending(box: Outbox, file: FileSend, sent: seq<Packet>)

  predicate ValidSending(x: Sending, content: bytes) {
    Slots.Valid(x.box) && ValidSend(x.file) && |content| == x.file.size
  }

  /** The calls of STSV_SendData and the one of EndPackSendData that make up a batch. */
  ghost function SendBatch(x: Sending, b: Batch, content: bytes): (x': Sending)
    requires ValidSending(x, content)
    ensures ValidSending(x', content)
  {
    FrontSurvives(x.box, b.ms);
    var box := SendMany(x.box, b.ms);
    var frags, open := Pending(box).frags, if b.readable then Some(content) else None;
    if box.sizes == [] && !x.file.sending then x.(box := box)
    else
      var p := NextPacket(frags, b.packNo, x.file, open);
      NextFileValid(frags, x.file, open);
      var box' := if |Encode(p)| <= |box.buf| then Sent(box, Encode(p)) else box;
      Sending(box', NextFile(frags, x.file, open), x.sent + [p])
  }

  ghost function SendBatches(x: Sending, bs: seq<Batch>, content: bytes): (x': Sending)
    requires ValidSending(x, content)
    ensures ValidSending(x', content)
  {
    if bs == [] then x else SendBatch(SendBatches(x, bs[..|bs| - 1], content), bs[|bs| - 1], content)
  }

  /** One batch from an empty queue: the packet of the batch goes out, the file moves on as the exchange of
      its chunk says, and the queue is empty again. */
  lemma {:induction false} SendsBatch(x: Sending, b: Batch, y: Transfer, content: bytes)
    requires ValidSending(x, content) && x.box.sizes == [] && x.box.cur == 0 && x.file == y.send
    requires SendAll(b.ms).frags != [] || x.file.sending
    requires |Encode(PacketOf(b, y, content))| <= |x.box.buf|
    ensures var x' := SendBatch(x, b, content);
            && x'.box.sizes == [] && x'.box.cur == 0 && |x'.box.buf| == |x.box.buf|
            && x'.file == Exchange(y, TurnOf(b), content).send
            && x'.sent == x.sent + [PacketOf(b, y, content).(from := FROM_SERVER)]
  {
    hide SendAll, NextPacket, SendMany, ReceiveFile, ChunkTail, Encode;
    FrontSurvives(x.box, b.ms);
    ManyAccepted(x.box, b.ms);
    SendAllSized(b.ms);
    var frags, open := SendAll(b.ms).frags, if b.readable then Some(content) else None;
    ServersOwn(frags, b.packNo, x.file, open);
    SameLength(NextPacket(frags, b.packNo, x.file, open), b.from);
    NextIsExchange(b, y, content);
  }

  lemma ServersOwn(frags: seq<Frag>, packRef: nat, file: FileSend, content: Option<bytes>)
    requires Sized(frags) && ValidSend(file) && (content.Some? ==> |content.value| == file.size)
    ensures NextPacket(frags, packRef, file, content).from == FROM_SERVER
  {
  }

  lemma SameLength(p: Packet, from: int)
    ensures |Encode(p.(from := from))| == |Encode(p)|
  {
  }

  lemma NextIsExchange(b: Batch, y: Transfer, content: bytes)
    requires ValidSend(y.send) && |content| == y.send.size
    ensures Sized(SendAll(b.ms).frags)
    ensures NextFile(SendAll(b.ms).frags, y.send, if b.readable then Some(content) else None)
            == Exchange(y, TurnOf(b), content).send
  {
    hide SendAll, ReceiveFile, ChunkTail, ChunkSize;
    SendAllSized(b.ms);
  }

  /** Every batch has something to send, and its packet fits the send buffer. */
  ghost predicate Busy(length: nat, bs: seq<Batch>, name: bytes, content: bytes, inbox: Inbox)
    requires |name| == NAME_SIZE && |content| < 0x8000_0000
  {
    bs == [] ||
    var n, x := |bs| - 1, StateAfter(bs[..|bs| - 1], name, content, inbox);
    && Busy(length, bs[..n], name, content, inbox)
    && (SendAll(bs[n].ms).frags != [] || x.send.sending) && |Encode(PacketOf(bs[n], x, content))| <= length
  }

  /** The same packets under the server's own fromID. */
  function FromServer(ps: seq<Packet>): seq<Packet> {
    if ps == [] then [] else FromServer(ps[..|ps| - 1]) + [ps[|ps| - 1].(from := FROM_SERVER)]
  }

  /** The server's side of a run of batches: the packets that its send half builds are those of EndToEnd,
      but for the fromID, and the file has been sent as far as the exchange says. */
  lemma {:induction false} SenderBuildsBatches(box: Outbox, bs: seq<Batch>, name: bytes, content: bytes, inbox: Inbox)
    requires Slots.Valid(box) && box.sizes == [] && box.cur == 0 && |name| == NAME_SIZE && |content| < 0x8000_0000
    requires Busy(|box.buf|, bs, name, content, inbox)
    ensures var x := SendBatches(Sending(box, StartSend(name, |content|), []), bs, content);
            && x.box.sizes == [] && x.box.cur == 0 && |x.box.buf| == |box.buf|
            && x.file == StateAfter(bs, name, content, inbox).send
            && x.sent == FromServer(PacketsOf(bs, name, content, inbox))
  {
    hide StateAfter, PacketOf, PacketsOf, SendBatch, Encode, Exchange, SendAll, NextFile;
    if bs == [] {
      NoTransfer(name, content, inbox);
    } else {
      var n := |bs| - 1;
      PacketsFront(bs, name, content, inbox);
      SenderBuildsBatches(box, bs[..n], name, content, inbox);
      var x := SendBatches(Sending(box, StartSend(name, |content|), []), bs[..n], content);
      SendsBatch(x, bs[n], StateAfter(bs[..n], name, content, inbox), content);
      StateSnoc(bs, name, content, inbox);
    }
  }

  lemma NoTransfer(name: bytes, content: bytes, inbox: Inbox)
    requires |name| == NAME_SIZE && |content| < 0x8000_0000
    ensures StateAfter([], name, content, inbox).send == StartSend(name, |content|)
  {
  }

  /** Once the sender's transfer is over, the receiver has the file, and no other file has changed. */
  lemma {:induction false} FileArrives(bs: seq<Batch>, s: Session, cfg: Config, es: seq<Event>, name: bytes,
      content: bytes)
    requires ValidSession(s) && s.online && |name| == NAME_SIZE && |content| < 0x8000_0000 && AllValid(es)
    requires Sendable(bs, s.packRef, cfg, name, content, s.inbox)
    requires Carries(s, cfg, es, PacketsOf(bs, name, content, s.inbox))
    requires !StateAfter(bs, name, content, s.inbox).send.sending
    ensures var t := Run(s, cfg, es);
            t.faulted || (t.s.inbox.files == s.inbox.files[CString(name) := content] && t.delivered == MeantBy(bs))
  {
    hide Run, Sendable, PacketsOf, Carries, MeantBy;
    EndToEnd(bs, s, cfg, es, name, content);
    TransferContents(name, s.inbox, TurnsOf(bs), content);
  }
}
