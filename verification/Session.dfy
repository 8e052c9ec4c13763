/** A client's session as a state machine over whatever the peer sends: processMessageBuffer on values,
    and what holds over every run. */
module Session {
  import opened Bytes
  import opened CrcTables
  import opened Files
  import opened Fragments
  import Gf2
  import opened Link
  import opened Packets
  import opened Slots
  import Words

  const REGISTER: int := 0xfffb  // -5 as a u16
  const RETRASMIT: int := 0xfffa // -6
  const PING: int := 0xfff7      // -9
  const VERSIONS_SIZE: int := 24 // sizeof(StarVersion) * 2

  /** What the receive half and the send half of Client_t amount to between two calls. */
  datatype Session = Session(packRef: nat, online: bool, sendDone: bool, msgs: seq<bytes>, inbox: Inbox,
                             outbox: Outbox, sendDataSize: nat)

  predicate ValidSession(s: Session) {
    s.packRef < U32_LIMIT && Slots.Valid(s.outbox) && s.sendDataSize <= |s.outbox.buf|
  }

  datatype Config = Config(maxConnection: nat, oneTime: bool)

  /** What the surroundings decide in one call: the answer to a registration, how many bytes its one
      non-blocking read returned, and whether the temporary file and the data file can be opened. */
  datatype Env = Env(regCode: int, regRead: int, openTemp: bool, openFile: bool)

  /** The result of processMessageBuffer: the new state, the return value and what was written to the
      peer. Fault marks a packet on which the source leaves its buffers. */
  datatype Outcome = Outcome(s: Session, ret: int, reply: bytes) | Fault

  predicate HasBit(kind: int, bit: int)
    requires bit > 0
  {
    (kind / bit) % 2 == 1
  }

  /** The kinds that processMessageBuffer treats as data. */
  predicate DataKind(kind: int) {
    0 <= kind < U16_LIMIT && kind != REGISTER && kind != RETRASMIT && kind != PING && kind % 16 != 0
  }

  /** SendReTrasmit */
  function AskAgain(packNo: nat): bytes {
    Le16(RETRASMIT) + Le16(FROM_SERVER) + Le32(packNo) + Le32(0)
  }

  /** What follows the message part of a frame, if the size table leads there. */
  function TailOf(frame: bytes): (t: Option<bytes>)
    requires HEADER <= |frame|
  {
    var n := NumData(frame);
    if 0 <= n && WellFormed(frame) && HEADER <= |frame| then
      var at := DataOffset(frame, n, n);
      if at <= |frame| && at < U16_LIMIT then Some(frame[at..]) else None
    else None
  }

  /** The delivery of a packet that passed every check. */
  function Deliver1(s: Session, kind: int, packNo: nat, frame: bytes, env: Env): (o: Outcome)
    requires HEADER <= |frame|
  {
    if HasBit(kind, KIND_MESSAGES) && !(WellFormed(frame) && ReadMessages(frame).Some?) then Fault
    else
      var s1 := if HasBit(kind, KIND_MESSAGES) then s.(msgs := ReadMessages(frame).value) else s;
      DeliverBig(s1, kind, packNo, frame, env)
  }

  function DeliverBig(s: Session, kind: int, packNo: nat, frame: bytes, env: Env): (o: Outcome)
    requires HEADER <= |frame|
  {
    if !HasBit(kind, KIND_BIG) then DeliverFile(s, kind, packNo, frame, env)
    else match TailOf(frame)
      case None => Fault
      case Some(t) =>
        if |t| < 8 then Fault
        else
          var r := ReceiveBig(s.inbox, t, env.openTemp);
          var s1 := s.(inbox := r.0);
          if r.1 then DeliverFile(s1, kind, packNo, frame, env) else Outcome(s1, -1, [])
  }

  function DeliverFile(s: Session, kind: int, packNo: nat, frame: bytes, env: Env): (o: Outcome)
    requires HEADER <= |frame|
  {
    if !HasBit(kind, KIND_FILE) then Outcome(s.(packRef := packNo), 0, [])
    else match TailOf(frame)
      case None => Fault
      case Some(t) =>
        if !FileChunk(t) then Fault
        else
          var r := ReceiveFile(s.inbox, t, env.openFile);
          var s1 := s.(inbox := r.0);
          if r.1 then Outcome(s1.(packRef := packNo), 0, []) else Outcome(s1, -1, [])
  }

  /** A one-time server that has confirmed takes only packets that carry a chunk. */
  predicate StillTaken(s: Session, cfg: Config, kind: int) {
    cfg.oneTime && s.sendDone ==> HasBit(kind, KIND_BIG) || HasBit(kind, KIND_FILE)
  }

  /** A data packet whose 12-byte header has been read; body is None when the connection ended before
      the announced size had arrived. */
  ghost function HandleData(s: Session, cfg: Config, hdr: bytes, body: Option<bytes>, env: Env): (o: Outcome)
    requires |hdr| == SHORT_HEADER
    requires body.Some? ==> |body.value| == U32(hdr, 8)
  {
    var kind, packNo, size := U16(hdr, 0), U32(hdr, 4), U32(hdr, 8);
    if packNo <= s.packRef then Outcome(s, -1, [])
    else if !StillTaken(s, cfg, kind) then Outcome(s.(online := false), -1, [])
    else if body.None? then Outcome(s, -1, AskAgain(packNo))
    else if size < 4 then Fault
    else
      var frame := hdr + body.value;
      if !CrcMatches(frame) then Outcome(s, -1, AskAgain(packNo))
      else Deliver1(s, kind, packNo, frame, env)
  }

  /** The answer to a registration overwrites the first words of the send buffer. */
  function Registered(s: Session, regCode: int, regRead: int): (o: Outcome)
    requires ValidSession(s)
    ensures o.Outcome? && o.ret == -1
  {
    if regRead != VERSIONS_SIZE then Outcome(s.(online := false), -1, [])
    else
      var buf := Splice(s.outbox.buf, 0, Le16(REGISTER) + Le16(regCode));
      Outcome(s.(outbox := s.outbox.(buf := buf), sendDataSize := SHORT_HEADER), -1, buf[..SHORT_HEADER])
  }

  /** processMessageBuffer, once the 12-byte header has arrived. */
  ghost function Handle(s0: Session, cfg: Config, hdr: bytes, body: Option<bytes>, env: Env): (o: Outcome)
    requires ValidSession(s0) && |hdr| == SHORT_HEADER
    requires body.Some? ==> |body.value| == U32(hdr, 8)
  {
    var s := s0.(msgs := []);
    var kind, from, size := U16(hdr, 0), Signed16(U16(hdr, 2)), U32(hdr, 8);
    if kind == REGISTER then Registered(s, env.regCode, env.regRead)
    else if kind == RETRASMIT then
      // With nothing sent yet the write of no bytes returns 0, which counts as a broken connection.
      Outcome(s.(online := s.online && s.sendDataSize > 0), -1, s.outbox.buf[..s.sendDataSize])
    else if kind == PING then Outcome(s, -1, [])
    else if from < 0 || from >= cfg.maxConnection then Outcome(s.(online := false), -1, [])
    else if kind % 16 == 0 then Outcome(s, -1, [])
    else if size > BUFFER_SIZE then Outcome(s.(online := false), -1, [])
    else HandleData(s, cfg, hdr, body, env)
  }

  // ---- One packet -----------------------------------------------------------------------------

  /** From one state to the next, a data packet never touches the send half. */
  predicate SameSendHalf(s: Session, s': Session) {
    s'.outbox == s.outbox && s'.sendDataSize == s.sendDataSize
  }

  lemma DeliverKeeps(s: Session, kind: int, packNo: nat, frame: bytes, env: Env)
    requires HEADER <= |frame| && Deliver1(s, kind, packNo, frame, env).Outcome?
    ensures var o := Deliver1(s, kind, packNo, frame, env);
            && SameSendHalf(s, o.s) && o.s.online == s.online && o.s.sendDone == s.sendDone && o.reply == []
            && ((o.ret == 0 && o.s.packRef == packNo) || (o.ret == -1 && o.s.packRef == s.packRef))
            && (o.ret != 0 ==> !env.openTemp || !env.openFile)
  {
    hide ReadMessages, WellFormed, TailOf, BigEnd, FileEnd, CString;
  }

  /** Accepted means: new number, whole, undamaged. */
  ghost predicate Acceptable(s: Session, hdr: bytes, body: Option<bytes>)
    requires |hdr| == SHORT_HEADER
    requires body.Some? ==> |body.value| == U32(hdr, 8)
  {
    s.packRef < U32(hdr, 4) && body.Some? && U32(hdr, 8) >= 4 && CrcMatches(hdr + body.value)
  }

  /** A packet is accepted only under a new, larger number, which becomes packRef. A packet that is not
      accepted leaves packRef alone, and touches the inbox only when a file could not be opened. */
  lemma AcceptedOrUntouched(s: Session, cfg: Config, hdr: bytes, body: Option<bytes>, env: Env)
    requires ValidSession(s) && |hdr| == SHORT_HEADER
    requires body.Some? ==> |body.value| == U32(hdr, 8)
    requires Handle(s, cfg, hdr, body, env).Outcome?
    ensures var o := Handle(s, cfg, hdr, body, env);
            && ValidSession(o.s)
            && (o.ret == 0 || o.ret == -1)
            && (o.ret == 0 ==> Acceptable(s, hdr, body) && o.s.packRef == U32(hdr, 4) && o.s.online == s.online)
            && o.s.sendDone == s.sendDone
            && (o.ret != 0 ==> o.s.packRef == s.packRef)
            && (o.ret != 0 && env.openTemp && env.openFile ==> o.s.inbox == s.inbox)
            && (U16(hdr, 0) != REGISTER ==> SameSendHalf(s, o.s))
  {
    hide CrcMatches, Deliver1, Le16, Le32, U16, U32, Signed16;
    var s1 := s.(msgs := []);
    if body.Some? && U32(hdr, 8) >= 4 && Deliver1(s1, U16(hdr, 0), U32(hdr, 4), hdr + body.value, env).Outcome? {
      DeliverKeeps(s1, U16(hdr, 0), U32(hdr, 4), hdr + body.value, env);
    }
    ValidWithBuffer(s.outbox, Splice(s.outbox.buf, 0, Le16(REGISTER) + Le16(env.regCode)));
  }

  /** A duplicate, a packet cut short and a packet whose CRC is wrong change nothing but the list of
      messages, which is empty; the last two are asked for again. */
  lemma RejectedChangesNothing(s: Session, cfg: Config, hdr: bytes, body: Option<bytes>, env: Env)
    requires ValidSession(s) && |hdr| == SHORT_HEADER
    requires body.Some? ==> |body.value| == U32(hdr, 8) >= 4
    requires DataKind(U16(hdr, 0))
    requires 0 <= Signed16(U16(hdr, 2)) < cfg.maxConnection && U32(hdr, 8) <= BUFFER_SIZE
    ensures var o := Handle(s, cfg, hdr, body, env);
            var known := U32(hdr, 4) <= s.packRef;
            var damaged := body.None? || !CrcMatches(hdr + body.value);
            && (known ==> o == Outcome(s.(msgs := []), -1, []))
            && (!known && damaged && StillTaken(s, cfg, U16(hdr, 0)) ==>
                  o == Outcome(s.(msgs := []), -1, AskAgain(U32(hdr, 4))))
  {
  }

  /** A packet damaged on the way by a burst of at most 16 bits, or in an odd number of bits, behind its
      header is not delivered: it is asked for again and the session stays as it was. */
  lemma DamagedPacketIsAskedForAgain(s: Session, cfg: Config, p: Packet, frame: bytes, env: Env)
    requires ValidSession(s) && StillTaken(s, cfg, p.kind) && Encodable(p) && PacketSized(p)
    requires DataKind(p.kind) && 0 <= p.from < cfg.maxConnection && p.from < 0x8000 && s.packRef < p.packNo
    requires |frame| == |Encode(p)| && frame[..HEADER] == Encode(p)[..HEADER]
    requires Corrupted(Gf2.Difference(Words.MessageBits(Encode(p)[HEADER..]), Words.MessageBits(frame[HEADER..])))
    ensures U32(frame[..SHORT_HEADER], 8) == |frame[SHORT_HEADER..]|
    ensures Handle(s, cfg, frame[..SHORT_HEADER], Some(frame[SHORT_HEADER..]), env) ==
            Outcome(s.(msgs := []), -1, AskAgain(p.packNo))
  {
    hide CrcMatches, Handle, Encode, U16, U32, Corrupted, Body;
    FrameHeader(p, frame);
    DamagedFails(p, frame);
    assert frame[..SHORT_HEADER] + frame[SHORT_HEADER..] == frame;
    RejectedChangesNothing(s, cfg, frame[..SHORT_HEADER], Some(frame[SHORT_HEADER..]), env);
  }

  /** The first 12 bytes of a packet as the receiver reads them. */
  lemma {:induction false} FrameHeader(p: Packet, frame: bytes)
    requires Encodable(p) && |frame| == |Encode(p)| && frame[..HEADER] == Encode(p)[..HEADER]
    ensures var hdr := frame[..SHORT_HEADER];
            && U16(hdr, 0) == p.kind && U16(hdr, 2) == p.from && U32(hdr, 4) == p.packNo
            && U32(hdr, 8) == |frame[SHORT_HEADER..]| == 4 + |Body(p.frags, p.tail)|
  {
    hide Encode, U16, U32, Image;
    var b, hdr := Encode(p), frame[..SHORT_HEADER];
    EncodedFields(p);
    assert hdr == b[..HEADER][..SHORT_HEADER] == b[..SHORT_HEADER];
    assert hdr <= b;
    FieldInPrefix(hdr, b, 0);
    FieldInPrefix(hdr, b, 2);
    FieldInPrefix(hdr, b, 4);
    FieldInPrefix(hdr, b, 8);
  }

  lemma {:induction false} EncodedFields(p: Packet)
    requires Encodable(p)
    ensures var b := Encode(p);
            && U16(b, 0) == p.kind && U16(b, 2) == p.from && U32(b, 4) == p.packNo
            && U32(b, 8) == 4 + |Body(p.frags, p.tail)|
  {
    ReadFields(Encode(p), p, PacketCrc(Covered(p)));
  }

  /** The request to repeat packet n: 12 bytes that any session answers with the packet it sent last. */
  lemma {:induction false} RepeatRequest(s: Session, cfg: Config, n: nat, env: Env)
    requires ValidSession(s) && n < U32_LIMIT
    ensures |AskAgain(n)| == SHORT_HEADER && U32(AskAgain(n), 4) == n && U32(AskAgain(n), 8) == 0
    ensures Handle(s, cfg, AskAgain(n), None, env) ==
            Outcome(s.(msgs := [], online := s.online && s.sendDataSize > 0), -1, LastBatch(s))
  {
    hide U32, Le32;
    var b := AskAgain(n);
    assert b[0..2] == Le16(RETRASMIT) && b[4..8] == Le32(n) && b[8..12] == Le32(0);
    Le16Field(RETRASMIT, b, 0);
    Le32Field(n, b, 4);
    Le32Field(0, b, 8);
  }

  /** The confirm of packet n, field by field. */
  lemma {:induction false} ConfirmFields(n: nat)
    requires n < U32_LIMIT
    ensures var b := Confirm(n);
            && |b| == SHORT_HEADER && Signed16(U16(b, 0)) == -10 && Signed16(U16(b, 2)) == -1
            && U32(b, 4) == n && U32(b, 8) == 0
  {
    hide U32, Le32;
    var b := Confirm(n);
    assert b[0..2] == Le16(CONFIRM) && b[2..4] == Le16(FROM_SERVER) && b[4..8] == Le32(n) && b[8..12] == Le32(0);
    Le16Field(CONFIRM, b, 0);
    Le16Field(FROM_SERVER, b, 2);
    Le32Field(n, b, 4);
    Le32Field(0, b, 8);
  }

  /** A registration that comes with both versions is answered with 12 bytes: its own type, the verdict in
      the fromID field, and whatever the send buffer held behind them. They are what RETRASMIT repeats from
      then on, and no other byte of the buffer changes. Any other registration ends the connection. */
  lemma {:induction false} RegistrationAnswered(s: Session, cfg: Config, hdr: bytes, env: Env)
    requires ValidSession(s) && |hdr| == SHORT_HEADER && U16(hdr, 0) == REGISTER && 0 <= env.regCode < U16_LIMIT
    ensures var o := Handle(s, cfg, hdr, None, env);
            if env.regRead != 24 then o == Outcome(s.(msgs := [], online := false), -1, [])
            else
              && o.Outcome? && o.ret == -1 && |o.reply| == SHORT_HEADER
              && U16(o.reply, 0) == REGISTER && U16(o.reply, 2) == env.regCode
              && o.reply[4..] == s.outbox.buf[4..SHORT_HEADER]
              && o.s == s.(msgs := [], sendDataSize := SHORT_HEADER,
                           outbox := s.outbox.(buf := o.reply + s.outbox.buf[SHORT_HEADER..]))
  {
    hide U16, Le16;
    if env.regRead == 24 {
      var words := Le16(REGISTER) + Le16(env.regCode);
      var buf := Splice(s.outbox.buf, 0, words);
      var reply := buf[..SHORT_HEADER];
      assert buf[0..4] == words && reply[0..4] == words;
      assert reply[0..2] == reply[0..4][..2] == Le16(REGISTER);
      assert reply[2..4] == reply[0..4][2..] == Le16(env.regCode);
      Le16Field(REGISTER, reply, 0);
      Le16Field(env.regCode, reply, 2);
      assert reply[4..] == s.outbox.buf[4..SHORT_HEADER];
      assert buf == reply + s.outbox.buf[SHORT_HEADER..];
    }
  }

  /** The server's own packets carry fromID -1 and would be taken for a stranger's: whoever receives
      them with this code drops the connection. */
  lemma ServerPacketsAreRefused(s: Session, cfg: Config, p: Packet, env: Env)
    requires ValidSession(s) && Encodable(p) && DataKind(p.kind) && p.from == FROM_SERVER
    ensures U32(Encode(p)[..SHORT_HEADER], 8) == |Encode(p)[SHORT_HEADER..]|
    ensures Handle(s, cfg, Encode(p)[..SHORT_HEADER], Some(Encode(p)[SHORT_HEADER..]), env) ==
            Outcome(s.(msgs := [], online := false), -1, [])
  {
    hide Encode, U16, U32;
    FrameHeader(p, Encode(p));
  }

  /** A packet of more than 64 KB costs its sender the connection, whatever follows its header. */
  lemma OversizedPacketIsRefused(s: Session, cfg: Config, p: Packet, env: Env)
    requires ValidSession(s) && Encodable(p) && !PacketSized(p)
    requires DataKind(p.kind) && 0 <= p.from < cfg.maxConnection && p.from < 0x8000
    ensures U32(Encode(p)[..SHORT_HEADER], 8) == |Encode(p)[SHORT_HEADER..]|
    ensures Handle(s, cfg, Encode(p)[..SHORT_HEADER], None, env) == Outcome(s.(msgs := [], online := false), -1, [])
    ensures Handle(s, cfg, Encode(p)[..SHORT_HEADER], Some(Encode(p)[SHORT_HEADER..]), env) ==
            Outcome(s.(msgs := [], online := false), -1, [])
  {
    hide Encode, U16, U32, Body;
    FrameHeader(p, Encode(p));
  }

  // ---- Runs -----------------------------------------------------------------------------------

  /** A packet arrives, some thread calls STSV_SendData, or the owner reaches EndPackSendData and sends the
      packet it has built or, with nothing to send, confirms the last packet accepted. */
  datatype Event =
    | Arrive(hdr: bytes, body: Option<bytes>, env: Env)
    | Call(m: bytes)
    | Flush(packet: bytes)
    | Acknowledge

  predicate ValidEvent(e: Event) {
    e.Arrive? ==> |e.hdr| == SHORT_HEADER && (e.body.Some? ==> |e.body.value| == U32(e.hdr, 8))
  }

  ghost function Next(s: Session, cfg: Config, e: Event): Outcome
    requires ValidSession(s) && ValidEvent(e)
  {
    match e
    case Arrive(hdr, body, env) => if s.online then Handle(s, cfg, hdr, body, env) else Outcome(s, -1, [])
    case Call(m) => Outcome(s.(outbox := SendData(s.outbox, m)), -1, [])
    case Flush(packet) =>
      if |packet| > |s.outbox.buf| then Fault
      else Outcome(s.(msgs := [], outbox := Sent(s.outbox, packet), sendDataSize := |packet|), -1, packet)
    case Acknowledge => Outcome(s.(sendDone := s.sendDone || cfg.oneTime), -1, Confirm(s.packRef))
  }

  /** A run so far: the state, the numbers of the packets accepted, the messages each of them brought,
      what went out at each event, and whether the last event left the source's buffers. */
  datatype Trace =
    Trace(s: Session, accepted: seq<nat>, delivered: seq<seq<bytes>>, replies: seq<bytes>, faulted: bool)

  lemma NextValid(s: Session, cfg: Config, e: Event)
    requires ValidSession(s) && ValidEvent(e) && Next(s, cfg, e).Outcome?
    ensures ValidSession(Next(s, cfg, e).s)
  {
    hide Handle;
    match e
    case Arrive(hdr, body, env) =>
      if s.online {
        AcceptedOrUntouched(s, cfg, hdr, body, env);
      }
    case Call(m) => SendDataAccepts(s.outbox, m);
    case Flush(packet) =>
    case Acknowledge =>
  }

  /** What one more event adds to a run that has not faulted. */
  ghost function Extend(t: Trace, cfg: Config, e: Event): (t': Trace)
    requires ValidSession(t.s) && ValidEvent(e)
    ensures ValidSession(t'.s)
  {
    match Next(t.s, cfg, e)
    case Fault => t.(faulted := true)
    case Outcome(s', ret, reply) =>
      NextValid(t.s, cfg, e);
      if e.Arrive? && ret == 0 then
        Trace(s', t.accepted + [U32(e.hdr, 4)], t.delivered + [s'.msgs], t.replies + [reply], false)
      else Trace(s', t.accepted, t.delivered, t.replies + [reply], false)
  }

  /** All events in order, up to the first that faults. */
  ghost function Run(s: Session, cfg: Config, es: seq<Event>): (t: Trace)
    requires ValidSession(s) && forall i :: 0 <= i < |es| ==> ValidEvent(es[i])
    ensures ValidSession(t.s)
  {
    if es == [] then Trace(s, [], [], [], false)
    else
      var t := Run(s, cfg, es[..|es| - 1]);
      if t.faulted then t else Extend(t, cfg, es[|es| - 1])
  }

  ghost predicate Ascending(from: nat, ns: seq<nat>, to: nat) {
    && (forall i :: 0 <= i < |ns| ==> from < ns[i] <= to)
    && (forall i, j :: 0 <= i < j < |ns| ==> ns[i] < ns[j])
    && from <= to && (ns == [] ==> from == to) && (ns != [] ==> ns[|ns| - 1] == to)
  }

  lemma AscendingMore(from: nat, ns: seq<nat>, to: nat, n: nat)
    requires Ascending(from, ns, to) && to < n
    ensures Ascending(from, ns + [n], n)
  {
  }

  /** One event either accepts a packet under a larger number or leaves packRef alone. */
  lemma ArrivalNumber(s: Session, cfg: Config, e: Event)
    requires ValidSession(s) && ValidEvent(e) && Next(s, cfg, e).Outcome?
    ensures var o := Next(s, cfg, e);
            if e.Arrive? && o.ret == 0 then s.packRef < U32(e.hdr, 4) == o.s.packRef else o.s.packRef == s.packRef
  {
    hide Handle, ValidSession, U32;
    if e.Arrive? && s.online {
      AcceptedOrUntouched(s, cfg, e.hdr, e.body, e.env);
    }
  }

  /** Whatever arrives, in whatever order, mixed with any sending, up to a packet that faults if there is
      one: the numbers of the accepted packets strictly increase, so none is delivered twice, and packRef
      is the last of them. */
  lemma {:induction false} NoPacketTwice(s: Session, cfg: Config, es: seq<Event>)
    requires ValidSession(s) && forall i :: 0 <= i < |es| ==> ValidEvent(es[i])
    ensures var t := Run(s, cfg, es);
            Ascending(s.packRef, t.accepted, t.s.packRef) && |t.delivered| == |t.accepted|
  {
    hide Next, ValidSession, U32, Ascending;
    if es == [] {
      AscendingStart(s.packRef);
    } else {
      var n := |es| - 1;
      NoPacketTwice(s, cfg, es[..n]);
      var t := Run(s, cfg, es[..n]);
      if !t.faulted && Next(t.s, cfg, es[n]).Outcome? {
        ArrivalNumber(t.s, cfg, es[n]);
        if t.s.packRef < Next(t.s, cfg, es[n]).s.packRef {
          AscendingMore(s.packRef, t.accepted, t.s.packRef, Next(t.s, cfg, es[n]).s.packRef);
        }
      }
    }
  }

  lemma AscendingStart(from: nat)
    ensures Ascending(from, [], from)
  {
  }

  /** The packet that RETRASMIT would repeat. */
  function LastBatch(s: Session): bytes
    requires ValidSession(s)
  {
    s.outbox.buf[..s.sendDataSize]
  }

  /** Events that leave the last batch alone: anything but REGISTER and a new batch, and calls of
      STSV_SendData only when the batch ends before the first slot. */
  predicate Harmless(e: Event, batch: nat)
    requires ValidEvent(e)
  {
    match e
    case Arrive(hdr, body, env) => U16(hdr, 0) != REGISTER
    case Call(m) => batch <= 2 * BLOCK
    case Flush(packet) => false
    case Acknowledge => true
  }

  lemma HarmlessKeepsBatch(s: Session, cfg: Config, e: Event)
    requires ValidSession(s) && ValidEvent(e) && Harmless(e, s.sendDataSize) && Next(s, cfg, e).Outcome?
    ensures var s' := Next(s, cfg, e).s;
            ValidSession(s') && s'.sendDataSize == s.sendDataSize && LastBatch(s') == LastBatch(s)
  {
    hide Handle;
    NextValid(s, cfg, e);
    match e
    case Arrive(hdr, body, env) =>
      if s.online {
        AcceptedOrUntouched(s, cfg, hdr, body, env);
      }
    case Call(m) =>
      SendDataAccepts(s.outbox, m);
      SamePrefix(SendData(s.outbox, m).buf, s.outbox.buf, s.sendDataSize, Slot(|s.outbox.sizes|));
    case Acknowledge =>
  }

  /** After a batch is sent, RETRASMIT repeats it byte for byte, across any run of harmless events. */
  lemma {:induction false} RetransmitFidelity(s: Session, cfg: Config, packet: bytes, es: seq<Event>)
    requires ValidSession(s) && |packet| <= |s.outbox.buf|
    requires forall i :: 0 <= i < |es| ==> ValidEvent(es[i]) && Harmless(es[i], |packet|)
    ensures ValidSession(Next(s, cfg, Flush(packet)).s)
    ensures var t := Run(Next(s, cfg, Flush(packet)).s, cfg, es);
            LastBatch(t.s) == packet && t.s.sendDataSize == |packet|
  {
    hide Handle, Harmless;
    NextValid(s, cfg, Flush(packet));
    var s1 := Next(s, cfg, Flush(packet)).s;
    assert LastBatch(s1) == packet;
    if es != [] {
      var n := |es| - 1;
      RetransmitFidelity(s, cfg, packet, es[..n]);
      var t := Run(s1, cfg, es[..n]);
      if !t.faulted && Next(t.s, cfg, es[n]).Outcome? {
        HarmlessKeepsBatch(t.s, cfg, es[n]);
      }
    }
  }

  /** A RETRASMIT request after such a run, on a connection still open, is answered with the packet that
      was sent, byte for byte. */
  lemma {:induction false} RetransmitReply(s: Session, cfg: Config, packet: bytes, es: seq<Event>, hdr: bytes, env: Env)
    requires ValidSession(s) && 0 < |packet| <= |s.outbox.buf|
    requires forall i :: 0 <= i < |es| ==> ValidEvent(es[i]) && Harmless(es[i], |packet|)
    requires |hdr| == SHORT_HEADER && U16(hdr, 0) == RETRASMIT
    ensures ValidSession(Next(s, cfg, Flush(packet)).s)
    ensures var t := Run(Next(s, cfg, Flush(packet)).s, cfg, es);
            t.s.online ==> Next(t.s, cfg, Arrive(hdr, None, env)) == Outcome(t.s.(msgs := []), -1, packet)
  {
    RetransmitFidelity(s, cfg, packet, es);
  }
}
