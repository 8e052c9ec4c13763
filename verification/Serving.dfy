/** A client's worker: the loop that reads packets off the connection, hands each accepted one to the
    server's callback and answers it, proved against the session's runs for every way in which recv and
    send split the streams. */
module Serving {
  import opened Bytes
  import opened CrcTables
  import opened Delivery
  import opened Files
  import opened Fragments
  import opened Link
  import opened Packets
  import opened Receiver
  import opened Reception
  import opened Sender
  import opened Session
  import opened Slots
  import opened Words

  // ---- Cutting a stream -----------------------------------------------------------------------

  /** What one call of processMessageBuffer reads: a header, the body behind it, and how many bytes the
      non-blocking read of a registration returned. */
  datatype Piece = Piece(hdr: bytes, body: Option<bytes>, regRead: int)

  predicate ValidPiece(p: Piece) {
    |p.hdr| == SHORT_HEADER && (p.body.Some? ==> |p.body.value| == U32(p.hdr, 8))
  }

  /** The next piece of a stream, and the stream behind it. */
  function First(cfg: Config, stream: bytes, regRead: int): (r: (Piece, bytes))
    requires SHORT_HEADER <= |stream|
    ensures ValidPiece(r.0) && |r.1| < |stream|
  {
    var hdr, rest := stream[..SHORT_HEADER], stream[SHORT_HEADER..];
    if U16(hdr, 0) == REGISTER then (Piece(hdr, None, regRead), rest[Min(BytesTaken(regRead), |rest|)..])
    else if !TakesBody(cfg, hdr) then (Piece(hdr, None, regRead), rest)
    else if U32(hdr, 8) <= |rest| then (Piece(hdr, Some(rest[..U32(hdr, 8)]), regRead), rest[U32(hdr, 8)..])
    else (Piece(hdr, None, regRead), [])
  }

  /** The pieces that so many calls read, and the stream they leave. How recv splits the stream plays no
      part, except that it decides what the read of a registration returns. */
  function Cut(cfg: Config, stream: bytes, regReads: seq<int>): (r: (seq<Piece>, bytes))
    ensures forall k :: 0 <= k < |r.0| ==> ValidPiece(r.0[k])
    ensures |r.0| <= |regReads|
  {
    if regReads == [] then ([], stream)
    else
      var n := |regReads| - 1;
      var r := Cut(cfg, stream, regReads[..n]);
      if |r.1| < SHORT_HEADER then r
      else
        var next := First(cfg, r.1, regReads[n]);
        (r.0 + [next.0], next.1)
  }

  lemma {:induction false} TookFirst(cfg: Config, stream: bytes, hdr: bytes, body: Option<bytes>, regRead: int,
      after: bytes)
    requires |hdr| == SHORT_HEADER && hdr <= stream
    requires Took(cfg, hdr, body, regRead, stream[SHORT_HEADER..], after, true)
    ensures First(cfg, stream, regRead) == (Piece(hdr, body, regRead), after)
  {
    hide U16, U32;
    var before := stream[SHORT_HEADER..];
    assert stream[..SHORT_HEADER] == hdr;
    if TakesBody(cfg, hdr) && U32(hdr, 8) <= |before| {
      assert body.value == before[..U32(hdr, 8)];
      assert after == before[U32(hdr, 8)..];
    }
  }

  // ---- Framing --------------------------------------------------------------------------------

  /** A frame behind whose header a body is read. */
  predicate DataFrame(cfg: Config, f: bytes) {
    IsFrame(f) && TakesBody(cfg, f[..SHORT_HEADER])
  }

  /** What one call reads: a data frame, a bare header of any other kind, or a registration with the bytes
      that its one read returns. */
  predicate ReadUnit(cfg: Config, f: bytes, regRead: int) {
    && SHORT_HEADER <= |f|
    && if U16(f[..SHORT_HEADER], 0) == REGISTER then |f| == SHORT_HEADER + BytesTaken(regRead)
       else if TakesBody(cfg, f[..SHORT_HEADER]) then IsFrame(f)
       else |f| == SHORT_HEADER
  }

  function PieceOf(cfg: Config, f: bytes, regRead: int): (p: Piece)
    requires SHORT_HEADER <= |f|
  {
    var hdr := f[..SHORT_HEADER];
    Piece(hdr, if TakesBody(cfg, hdr) then Some(f[SHORT_HEADER..]) else None, regRead)
  }

  lemma FirstUnit(cfg: Config, f: bytes, rest: bytes, regRead: int)
    requires ReadUnit(cfg, f, regRead)
    ensures First(cfg, f + rest, regRead) == (PieceOf(cfg, f, regRead), rest)
  {
    hide U16, U32;
    var stream := f + rest;
    FieldInPrefix(f[..SHORT_HEADER], f, 8);
    assert stream[..SHORT_HEADER] == f[..SHORT_HEADER];
    assert stream[SHORT_HEADER..] == f[SHORT_HEADER..] + rest;
    assert stream[SHORT_HEADER..][..|f| - SHORT_HEADER] == f[SHORT_HEADER..];
    assert stream[SHORT_HEADER..][|f| - SHORT_HEADER..] == rest;
  }

  lemma DataUnit(cfg: Config, f: bytes, regRead: int)
    requires DataFrame(cfg, f)
    ensures ReadUnit(cfg, f, regRead) && PieceOf(cfg, f, regRead).body == Some(f[SHORT_HEADER..])
  {
  }

  /** A stream of frames, bare headers and registrations is cut into exactly those again, one a call. */
  lemma {:induction false} FramingRoundTrip(cfg: Config, frames: seq<bytes>, regReads: seq<int>)
    requires forall i :: 0 <= i < |frames| && i < |regReads| ==> ReadUnit(cfg, frames[i], regReads[i])
    ensures var k := Min(|regReads|, |frames|);
            var r := Cut(cfg, Flatten(frames), regReads);
            && |r.0| == k && r.1 == Flatten(frames[k..])
            && forall i :: 0 <= i < k ==>
                 |frames[i]| >= SHORT_HEADER && r.0[i] == PieceOf(cfg, frames[i], regReads[i])
    decreases |regReads|
  {
    hide Flatten, First, ReadUnit, PieceOf;
    if regReads == [] {
      assert frames[0..] == frames;
    } else {
      var n := |regReads| - 1;
      FramingRoundTrip(cfg, frames, regReads[..n]);
      if n < |frames| {
        FlattenFirst(frames[n..]);
        assert frames[n..][1..] == frames[n + 1..];
        LongEnough(cfg, frames[n], regReads[n]);
        FirstUnit(cfg, frames[n], Flatten(frames[n + 1..]), regReads[n]);
      } else {
        assert frames[|frames|..] == [];
        NoFrames();
      }
    }
  }

  lemma LongEnough(cfg: Config, f: bytes, regRead: int)
    requires ReadUnit(cfg, f, regRead)
    ensures |f| >= SHORT_HEADER
  {
  }

  lemma NoFrames()
    ensures Flatten<byte>([]) == []
  {
  }

  // ---- What a worker says ---------------------------------------------------------------------

  /** What the surroundings contribute to the n-th packet: the environment of the read, the messages the
      callback answers with, and whether the file in transit can be opened. */
  datatype Surroundings = Surroundings(env: nat -> Env, answer: nat -> seq<bytes>, readable: nat -> bool,
      content: bytes)

  function ContentAt(sur: Surroundings, n: nat): Option<bytes> {
    if sur.readable(n) then Some(sur.content) else None
  }

  /** Events, and the file transfer behind them. */
  datatype Talk = Talk(es: seq<Event>, file: FileSend)

  function CallsOf(ms: seq<bytes>): (es: seq<Event>)
    ensures AllValid(es) && |es| == |ms|
  {
    seq(|ms|, i requires 0 <= i < |ms| => Call(ms[i]))
  }

  /** How EndPackSendData ends a turn. */
  ghost function Ending(s: Session, f: FileSend, content: Option<bytes>): (t: Talk)
    requires ValidSession(s) && ValidSend(f) && (content.Some? ==> |content.value| == f.size)
    ensures AllValid(t.es) && ValidSend(t.file) && t.file.size == f.size
  {
    var frags := Pending(s.outbox).frags;
    if s.outbox.sizes != [] || f.sending then
      NextFileValid(frags, f, content);
      Talk([Flush(Encode(NextPacket(frags, s.packRef, f, content)))], NextFile(frags, f, content))
    else Talk([Acknowledge], f)
  }

  /** The callback's messages and then EndPackSendData. */
  ghost function Reply(s: Session, f: FileSend, ms: seq<bytes>, content: Option<bytes>): (t: Talk)
    requires ValidSession(s) && ValidSend(f) && (content.Some? ==> |content.value| == f.size)
    ensures AllValid(t.es) && ValidSend(t.file) && t.file.size == f.size
  {
    FrontSurvives(s.outbox, ms);
    var last := Ending(s.(outbox := SendMany(s.outbox, ms)), f, content);
    Talk(CallsOf(ms) + last.es, last.file)
  }

  function Arrival(p: Piece, env: Env): (e: Event)
    requires ValidPiece(p)
    ensures ValidEvent(e)
  {
    Arrive(p.hdr, p.body, env.(regRead := p.regRead))
  }

  /** One round of the worker's loop: a piece arrives and, if it is accepted, is answered. */
  ghost function Turn(s: Session, f: FileSend, cfg: Config, p: Piece, sur: Surroundings, n: nat): (t: Talk)
    requires ValidSession(s) && ValidSend(f) && |sur.content| == f.size && ValidPiece(p)
    ensures AllValid(t.es) && ValidSend(t.file) && t.file.size == f.size
  {
    var e := Arrival(p, sur.env(n));
    match Next(s, cfg, e)
    case Fault => Talk([e], f)
    case Outcome(s', ret, _) =>
      if ret != 0 then Talk([e], f)
      else
        NextValid(s, cfg, e);
        var more := Reply(s', f, sur.answer(n), ContentAt(sur, n));
        Talk([e] + more.es, more.file)
  }

  /** Everything that happens on a connection over which these pieces arrive. */
  ghost function Conversation(s: Session, f: FileSend, cfg: Config, ps: seq<Piece>, sur: Surroundings): (t: Talk)
    requires ValidSession(s) && ValidSend(f) && |sur.content| == f.size
    requires forall k :: 0 <= k < |ps| ==> ValidPiece(ps[k])
    ensures AllValid(t.es) && ValidSend(t.file) && t.file.size == f.size
  {
    if ps == [] then Talk([], f)
    else
      var n := |ps| - 1;
      var t := Conversation(s, f, cfg, ps[..n], sur);
      var r := Run(s, cfg, t.es);
      if r.faulted then t
      else
        var turn := Turn(r.s, t.file, cfg, ps[n], sur, n);
        Talk(t.es + turn.es, turn.file)
  }

  // ---- Runs one after the other ---------------------------------------------------------------

  function Joined(a: Trace, b: Trace): Trace {
    Trace(b.s, a.accepted + b.accepted, a.delivered + b.delivered, a.replies + b.replies, b.faulted)
  }

  lemma ExtendJoined(a: Trace, b: Trace, cfg: Config, e: Event)
    requires ValidSession(b.s) && ValidEvent(e)
    ensures Extend(Joined(a, b), cfg, e) == Joined(a, Extend(b, cfg, e))
  {
    hide Next, U32;
    assert b.accepted + [] == b.accepted;
  }

  /** A run that goes on where another one ended */
  lemma {:induction false} RunAppend(s: Session, cfg: Config, es: seq<Event>, more: seq<Event>)
    requires ValidSession(s) && AllValid(es) && AllValid(more) && !Run(s, cfg, es).faulted
    ensures AllValid(es + more)
    ensures Run(s, cfg, es + more) == Joined(Run(s, cfg, es), Run(Run(s, cfg, es).s, cfg, more))
    decreases |more|
  {
    hide Extend, ValidEvent, ValidSession;
    if more == [] {
      assert es + more == es;
    } else {
      var n := |more| - 1;
      RunAppend(s, cfg, es, more[..n]);
      assert (es + more)[..|es| + n] == es + more[..n];
      ExtendJoined(Run(s, cfg, es), Run(Run(s, cfg, es).s, cfg, more[..n]), cfg, more[n]);
    }
  }

  lemma RunOne(s: Session, cfg: Config, e: Event)
    requires ValidSession(s) && ValidEvent(e)
    ensures Run(s, cfg, [e]) == Extend(Trace(s, [], [], [], false), cfg, e)
  {
    assert [e][..0] == [];
  }

  lemma {:induction false} RunCalls(s: Session, cfg: Config, ms: seq<bytes>)
    requires ValidSession(s)
    ensures var t := Run(s, cfg, CallsOf(ms));
            && t.s == s.(outbox := SendMany(s.outbox, ms)) && t.accepted == [] && t.delivered == []
            && !t.faulted && Flatten(t.replies) == []
  {
    if ms != [] {
      var n := |ms| - 1;
      RunCalls(s, cfg, ms[..n]);
      var es := CallsOf(ms);
      assert es[..n] == CallsOf(ms[..n]);
    }
  }

  // ---- The worker -----------------------------------------------------------------------------

  /** The CRC table is not one of the client's arrays. */
  ghost predicate Apart(client: Client, table: array<nat>)
  {
    && table != client.recvBufferMSG && table != client.recvBufferMSGSize
    && table != client.sender.sendBufferMSGSize
  }

  /** processMSGClientRequest, as far as it sends. */
  method RunCallback(client: Client, ms: seq<bytes>)
    requires client.Valid()
    modifies client.sender`sendCount, client.sender`curPacketNo
    modifies client.sender.sendBuffer, client.sender.sendPacketNo, client.sender.sendBufferMSGSize
    ensures client.Valid()
    ensures client.View() == old(client.View()).(outbox := SendMany(old(client.View()).outbox, ms))
  {
    assert ms[..0] == [];
    for i := 0 to |ms|
      invariant client.Valid()
      invariant client.View() == old(client.View()).(outbox := SendMany(old(client.View()).outbox, ms[..i]))
    {
      client.sender.SendData(ms[i]);
      assert ms[..i + 1][..i] == ms[..i];
    }
    assert ms[..|ms|] == ms;
  }

  /** What EndPackSendData does to a session. */
  lemma EndingRun(v: Session, cfg: Config, f: FileSend, content: Option<bytes>)
    requires ValidSession(v) && ValidSend(f) && (content.Some? ==> |content.value| == f.size)
    ensures var frags, last := Pending(v.outbox).frags, Ending(v, f, content);
            var t, front := Run(v, cfg, last.es), Encode(NextPacket(frags, v.packRef, f, content));
            if v.outbox.sizes == [] && !f.sending then
              && t == Trace(v.(sendDone := v.sendDone || cfg.oneTime), [], [], [Confirm(v.packRef)], false)
              && last.file == f
            else if |front| > |v.outbox.buf| then t == Trace(v, [], [], [], true)
            else
              && t.s == v.(msgs := [], outbox := Sent(v.outbox, front), sendDataSize := |front|)
              && t == Trace(t.s, [], [], [front], false)
              && last.file == NextFile(frags, f, content)
  {
    hide Encode, NextPacket, NextFile, Pending;
    RunOne(v, cfg, Ending(v, f, content).es[0]);
  }

  /** What the client shows to its session: state s, and f about the file in transit. */
  ghost predicate Shows(client: Client, s: Session, f: FileSend)
    reads client, client.recvBuffer, client.recvBufferMSG, client.recvBufferMSGSize
    reads client.sender, client.sender.sendBuffer, client.sender.sendPacketNo, client.sender.sendBufferMSGSize
  {
    client.Valid() && client.View() == s && client.sender.file == f
  }

  /** The packet goes out. */
  method SendTurn(client: Client, content: Option<bytes>, table: array<nat>, sock: Socket, ghost v: Session,
      ghost f: FileSend)
    requires Shows(client, v, f) && Apart(client, table) && IsTable(table[..], BitsOf(CRC16_POLY, 16))
    requires v.outbox.sizes != [] || f.sending
    requires Orderly(sock.sendPlan) && client.sender.Ready(v.packRef, content)
    modifies client`msgs, client`recvCount, client.sender, client.sender.sendBuffer, sock`output, sock`sendPlan
    ensures Orderly(sock.sendPlan)
    ensures ValidSession(v) && ValidSend(f) && (content.Some? ==> |content.value| == f.size)
    ensures var frags := Pending(v.outbox).frags;
            var front := Encode(NextPacket(frags, v.packRef, f, content));
            && |front| <= |v.outbox.buf|
            && Shows(client, v.(msgs := [], outbox := Sent(v.outbox, front), sendDataSize := |front|),
                NextFile(frags, f, content))
            && sock.output == old(sock.output) + front
  {
    hide Encode, NextPacket, NextFile, Pending, Sent, Confirm, IsTable, Slots.Valid, client.Points;
    var ok := client.sender.EndPackSendData(client.packRef, content, table, sock);
    client.recvCount, client.msgs := 0, [];
    NoMessages(client);
  }

  lemma NoMessages(client: Client)
    ensures client.Points([])
  {
  }

  /** With nothing to send, the last packet is confirmed. */
  method ConfirmTurn(client: Client, cfg: Config, content: Option<bytes>, table: array<nat>, sock: Socket,
                     ghost v: Session, ghost f: FileSend)
    requires Shows(client, v, f) && Apart(client, table) && IsTable(table[..], BitsOf(CRC16_POLY, 16))
    requires v.outbox.sizes == [] && !f.sending
    requires Orderly(sock.sendPlan) && client.sender.Ready(v.packRef, content)
    modifies client`sendDone, client.sender, client.sender.sendBuffer, sock`output, sock`sendPlan
    ensures Orderly(sock.sendPlan)
    ensures Shows(client, v.(sendDone := v.sendDone || cfg.oneTime), f)
    ensures sock.output == old(sock.output) + Confirm(v.packRef)
  {
    hide Encode, NextPacket, NextFile, Pending, Sent, Confirm, IsTable, Slots.Valid, client.Points;
    var ok := client.sender.EndPackSendData(client.packRef, content, table, sock);
    if cfg.oneTime {
      client.sendDone := true;
    }
  }

  /** EndPackSendData on a client, unless its packet would leave the send buffer. */
  method EndTurn(client: Client, cfg: Config, content: Option<bytes>, table: array<nat>, sock: Socket,
                 ghost v: Session, ghost f: FileSend) returns (fault: bool)
    requires Shows(client, v, f) && Apart(client, table) && IsTable(table[..], BitsOf(CRC16_POLY, 16))
    requires ValidSession(v) && ValidSend(f)
    requires Orderly(sock.sendPlan) && (content.Some? ==> |content.value| == f.size)
    modifies client`msgs, client`recvCount, client`sendDone, client.sender, client.sender.sendBuffer
    modifies sock`output, sock`sendPlan
    ensures Orderly(sock.sendPlan)
    ensures var last := Ending(v, f, content);
            var t := Run(v, cfg, last.es);
            && fault == t.faulted
            && (!fault ==> Shows(client, t.s, last.file) && sock.output == old(sock.output) + Flatten(t.replies))
  {
    hide Encode, NextPacket, NextFile, Pending, Ending, Run, Sent, Confirm, IsTable, Slots.Valid, client.Points;
    var n := client.sender.PacketLength(client.packRef, content);
    EndingRun(v, cfg, f, content);
    FlattenSingle(Confirm(v.packRef));
    FlattenSingle(Encode(NextPacket(Pending(v.outbox).frags, v.packRef, f, content)));
    if n > client.sender.sendBuffer.Length {
      return true;
    }
    if client.sender.sendCount > 0 || client.sender.file.sending {
      SendTurn(client, content, table, sock, v, f);
    } else {
      ConfirmTurn(client, cfg, content, table, sock, v, f);
    }
    return false;
  }

  lemma ReplyRun(v: Session, cfg: Config, f: FileSend, ms: seq<bytes>, content: Option<bytes>)
    requires ValidSession(v) && ValidSend(f) && (content.Some? ==> |content.value| == f.size)
    ensures var s := v.(outbox := SendMany(v.outbox, ms));
            && ValidSession(s)
            && var last := Ending(s, f, content);
               var t, more := Run(v, cfg, Reply(v, f, ms, content).es), Run(s, cfg, last.es);
               && t.s == more.s && t.faulted == more.faulted
               && t.accepted == more.accepted && t.delivered == more.delivered
               && Flatten(t.replies) == Flatten(more.replies) && Reply(v, f, ms, content).file == last.file
               && t.s.online == v.online
  {
    hide Ending, Run;
    FrontSurvives(v.outbox, ms);
    EndingRun(v.(outbox := SendMany(v.outbox, ms)), cfg, f, content);
    RunCalls(v, cfg, ms);
    var s := v.(outbox := SendMany(v.outbox, ms));
    var last := Ending(s, f, content);
    RunAppend(v, cfg, CallsOf(ms), last.es);
    FlattenAppend(Run(v, cfg, CallsOf(ms)).replies, Run(s, cfg, last.es).replies);
  }

  /** The callback and EndPackSendData, after an accepted packet. */
  method Answer(client: Client, cfg: Config, ms: seq<bytes>, content: Option<bytes>, table: array<nat>, sock: Socket,
                ghost v: Session, ghost f: FileSend) returns (fault: bool)
    requires Shows(client, v, f) && Apart(client, table) && IsTable(table[..], BitsOf(CRC16_POLY, 16))
    requires ValidSession(v) && ValidSend(f)
    requires Orderly(sock.sendPlan) && (content.Some? ==> |content.value| == f.size)
    modifies client`msgs, client`recvCount, client`sendDone, client.sender, client.sender.sendBuffer
    modifies client.sender.sendPacketNo, client.sender.sendBufferMSGSize, sock`output, sock`sendPlan
    ensures Orderly(sock.sendPlan)
    ensures var more := Reply(v, f, ms, content);
            var t := Run(v, cfg, more.es);
            && fault == t.faulted
            && (!fault ==> Shows(client, t.s, more.file) && sock.output == old(sock.output) + Flatten(t.replies))
  {
    hide Reply, Ending, Run, SendMany, IsTable, Slots.Valid, client.Points, Flatten;
    ReplyRun(v, cfg, f, ms, content);
    RunCallback(client, ms);
    fault := EndTurn(client, cfg, content, table, sock, v.(outbox := SendMany(v.outbox, ms)), f);
  }

  /** A packet that ends the connection delivers nothing. */
  lemma OfflineEmpty(s: Session, cfg: Config, e: Event)
    requires ValidSession(s) && s.online && ValidEvent(e) && e.Arrive? && Next(s, cfg, e).Outcome?
    ensures var o := Next(s, cfg, e);
            && (o.ret == 0 || o.ret == -1) && (o.ret == 0 ==> o.s.online) && (!o.s.online ==> o.s.msgs == [])
  {
    hide Deliver1, CrcMatches, Registered, U16, U32, Signed16, AskAgain;
    AcceptedOrUntouched(s, cfg, e.hdr, e.body, e.env);
    var frame := if e.body.Some? then e.hdr + e.body.value else e.hdr;
    if |frame| >= HEADER && Deliver1(s.(msgs := []), U16(e.hdr, 0), U32(e.hdr, 4), frame, e.env).Outcome? {
      DeliverKeeps(s.(msgs := []), U16(e.hdr, 0), U32(e.hdr, 4), frame, e.env);
    }
    RegisteredEmpty(s.(msgs := []), e.env.regCode, e.env.regRead);
  }

  lemma RegisteredEmpty(s: Session, regCode: int, regRead: int)
    requires ValidSession(s)
    ensures Registered(s, regCode, regRead).s.msgs == s.msgs
  {
  }

  lemma TurnRun(v: Session, f: FileSend, cfg: Config, p: Piece, sur: Surroundings, n: nat)
    requires ValidSession(v) && v.online && ValidSend(f) && |sur.content| == f.size && ValidPiece(p)
    ensures var o, turn := Next(v, cfg, Arrival(p, sur.env(n))), Turn(v, f, cfg, p, sur, n);
            var t := Run(v, cfg, turn.es);
            && (!t.faulted && !t.s.online ==> t.s.msgs == [])
            && (o.Fault? ==> t.faulted)
            && (o.Outcome? && o.ret != 0 ==>
                  t.s == o.s && !t.faulted && Flatten(t.replies) == o.reply && turn.file == f)
            && (o.Outcome? && o.ret == 0 ==>
                  && ValidSession(o.s)
                  && var more := Reply(o.s, f, sur.answer(n), ContentAt(sur, n));
                     var rest := Run(o.s, cfg, more.es);
                     && t.s == rest.s && t.faulted == rest.faulted && turn.file == more.file
                     && Flatten(t.replies) == o.reply + Flatten(rest.replies))
  {
    hide Handle, Reply, Ending;
    var e := Arrival(p, sur.env(n));
    var o := Next(v, cfg, e);
    RunOne(v, cfg, e);
    if o.Outcome? {
      OfflineEmpty(v, cfg, e);
      NextValid(v, cfg, e);
      FlattenSingle(o.reply);
      assert [] + [o.reply] == [o.reply];
      if o.ret == 0 {
        var more := Reply(o.s, f, sur.answer(n), ContentAt(sur, n));
        RunAppend(v, cfg, [e], more.es);
        FlattenAppend([o.reply], Run(o.s, cfg, more.es).replies);
        ReplyRun(o.s, cfg, f, sur.answer(n), ContentAt(sur, n));
      }
    }
  }

  /** processMessageBuffer on an open session: one piece off the stream, or the end of the connection. */
  method ReadOne(client: Client, cfg: Config, env0: Env, table: array<nat>, sock: Socket, ghost v: Session,
      ghost f: FileSend)
    returns (ret: int, fault: bool, ghost got: bool, ghost p: Piece)
    requires Shows(client, v, f) && Apart(client, table) && IsTable(table[..], BitsOf(CRC16_POLY, 16))
    requires ValidSession(v) && v.online && Orderly(sock.recvPlan) && Orderly(sock.sendPlan)
    modifies client, client.recvBuffer, client.recvBufferMSG, client.recvBufferMSGSize
    modifies client.sender`sendDataSize, client.sender.sendBuffer, sock
    ensures Orderly(sock.recvPlan) && Orderly(sock.sendPlan)
    ensures !got ==>
              && ret == -1 && !fault && |old(sock.input)| < SHORT_HEADER && sock.output == old(sock.output)
              && Shows(client, v.(msgs := [], online := false), f)
    ensures got ==>
              && SHORT_HEADER <= |old(sock.input)| && ValidPiece(p)
              && First(cfg, old(sock.input), p.regRead) == (p, sock.input)
    ensures got ==>
              var o := Next(v, cfg, Arrival(p, env0));
              && fault == o.Fault?
              && (!fault ==> ret == o.ret && Shows(client, o.s, f) && sock.output == old(sock.output) + o.reply)
  {
    hide Handle, IsTable, Took, First, client.Points, Slots.Valid;
    ghost var hdr: Option<bytes>, body: Option<bytes>, env: Env;
    ret, fault, hdr, body, env := client.ProcessMessageBuffer(cfg, env0, table, sock);
    got := hdr.Some?;
    p := Piece(if got then hdr.value else [], body, env.regRead);
    if got {
      TookFirst(cfg, old(sock.input), p.hdr, body, env.regRead, sock.input);
    }
  }

  /** One round of the loop. */
  method ServeOne(client: Client, cfg: Config, sur: Surroundings, n: nat, table: array<nat>, sock: Socket,
                  ghost v: Session, ghost f: FileSend) returns (fault: bool, ghost got: bool, ghost p: Piece)
    requires Shows(client, v, f) && Apart(client, table) && IsTable(table[..], BitsOf(CRC16_POLY, 16))
    requires ValidSession(v) && v.online && ValidSend(f) && |sur.content| == f.size
    requires Orderly(sock.recvPlan) && Orderly(sock.sendPlan)
    modifies client, client.recvBuffer, client.recvBufferMSG, client.recvBufferMSGSize, client.sender
    modifies client.sender.sendBuffer, client.sender.sendPacketNo, client.sender.sendBufferMSGSize, sock
    ensures Orderly(sock.recvPlan) && Orderly(sock.sendPlan)
    ensures !got ==>
              && !fault && |old(sock.input)| < SHORT_HEADER && sock.output == old(sock.output)
              && Shows(client, v.(msgs := [], online := false), f)
    ensures got ==>
              && SHORT_HEADER <= |old(sock.input)| && ValidPiece(p)
              && First(cfg, old(sock.input), p.regRead) == (p, sock.input)
    ensures got ==>
              var turn := Turn(v, f, cfg, p, sur, n);
              var t := Run(v, cfg, turn.es);
              && fault == t.faulted
              && (!fault ==> Shows(client, t.s, turn.file) && sock.output == old(sock.output) + Flatten(t.replies))
              && (!fault && !t.s.online ==> t.s.msgs == [])
  {
    hide Next, Reply, Turn, Run, IsTable, First, Shows, Flatten;
    var ret;
    ret, fault, got, p := ReadOne(client, cfg, sur.env(n), table, sock, v, f);
    if got {
      TurnRun(v, f, cfg, p, sur, n);
    }
    if !fault && ret == 0 {
      ghost var o := Next(v, cfg, Arrival(p, sur.env(n)));
      AppendAssociates(old(sock.output), o.reply, Flatten(Run(o.s, cfg,
          Reply(o.s, f, sur.answer(n), ContentAt(sur, n)).es).replies));
      fault := Answer(client, cfg, sur.answer(n), ContentAt(sur, n), table, sock, o.s, f);
    }
  }

  lemma CutMore(cfg: Config, stream: bytes, regReads: seq<int>, regRead: int)
    requires |Cut(cfg, stream, regReads).1| >= SHORT_HEADER
    ensures var r := Cut(cfg, stream, regReads);
            var next := First(cfg, r.1, regRead);
            Cut(cfg, stream, regReads + [regRead]) == (r.0 + [next.0], next.1)
  {
    hide First;
    assert (regReads + [regRead])[..|regReads|] == regReads;
  }

  /** One more piece in a conversation */
  lemma TalkMore(v: Session, f: FileSend, cfg: Config, ps: seq<Piece>, p: Piece, sur: Surroundings)
    requires ValidSession(v) && ValidSend(f) && |sur.content| == f.size && ValidPiece(p)
    requires forall k :: 0 <= k < |ps| ==> ValidPiece(ps[k])
    requires !Run(v, cfg, Conversation(v, f, cfg, ps, sur).es).faulted
    ensures var talk, after := Conversation(v, f, cfg, ps, sur), Conversation(v, f, cfg, ps + [p], sur);
            var t := Run(v, cfg, talk.es);
            var turn := Turn(t.s, talk.file, cfg, p, sur, |ps|);
            var rest, whole := Run(t.s, cfg, turn.es), Run(v, cfg, after.es);
            && after.file == turn.file && whole.s == rest.s && whole.faulted == rest.faulted
            && Flatten(whole.replies) == Flatten(t.replies) + Flatten(rest.replies)
  {
    hide Turn, Run, Flatten, ValidSession, ValidPiece;
    assert (ps + [p])[..|ps|] == ps;
    var talk := Conversation(v, f, cfg, ps, sur);
    var t := Run(v, cfg, talk.es);
    var turn := Turn(t.s, talk.file, cfg, p, sur, |ps|);
    RunAppend(v, cfg, talk.es, turn.es);
    FlattenAppend(t.replies, Run(t.s, cfg, turn.es).replies);
  }

  /** Where a worker stands that has read these pieces: the run of the conversation so far, and what is
      left of the stream; a connection that was given up delivers nothing more. */
  ghost predicate Standing(client: Client, cfg: Config, sur: Surroundings, sock: Socket, v: Session, f: FileSend,
                           stream: bytes, sent: bytes, regReads: seq<int>)
    requires ValidSession(v) && ValidSend(f) && |sur.content| == f.size
    reads client, client.recvBuffer, client.recvBufferMSG, client.recvBufferMSGSize, sock
    reads client.sender, client.sender.sendBuffer, client.sender.sendPacketNo, client.sender.sendBufferMSGSize
  {
    var r := Cut(cfg, stream, regReads);
    var talk := Conversation(v, f, cfg, r.0, sur);
    var t := Run(v, cfg, talk.es);
    && |r.0| == |regReads| && !t.faulted && sock.output == sent + Flatten(t.replies)
    && (client.online ==> t.s.online && Shows(client, t.s, talk.file) && sock.input == r.1)
    && (!client.online ==>
          && Shows(client, t.s.(msgs := [], online := false), talk.file)
          && (t.s.online ==> |r.1| < SHORT_HEADER))
  }

  lemma StartStanding(v: Session, f: FileSend, cfg: Config, sur: Surroundings, stream: bytes)
    requires ValidSession(v) && ValidSend(f) && |sur.content| == f.size
    ensures Cut(cfg, stream, []) == ([], stream) && Conversation(v, f, cfg, [], sur) == Talk([], f)
    ensures Run(v, cfg, []) == Trace(v, [], [], [], false) && Flatten<byte>([]) == []
  {
  }

  lemma Seen(client: Client, s: Session, f: FileSend)
    requires Shows(client, s, f)
    ensures client.online == s.online
  {
  }

  /** The loop itself. */
  method ServeLoop(client: Client, cfg: Config, sur: Surroundings, table: array<nat>, sock: Socket, ghost v: Session,
      ghost f: FileSend)
    returns (fault: bool, ghost regReads: seq<int>)
    requires Shows(client, v, f) && client.online && Apart(client, table) && IsTable(table[..], BitsOf(CRC16_POLY, 16))
    requires ValidSession(v) && v.online && ValidSend(f) && |sur.content| == f.size
    requires Orderly(sock.recvPlan) && Orderly(sock.sendPlan)
    modifies client, client.recvBuffer, client.recvBufferMSG, client.recvBufferMSGSize, client.sender
    modifies client.sender.sendBuffer, client.sender.sendPacketNo, client.sender.sendBufferMSGSize, sock
    ensures !fault ==>
              !client.online && Standing(client, cfg, sur, sock, v, f, old(sock.input), old(sock.output), regReads)
    ensures fault ==>
              var r := Cut(cfg, old(sock.input), regReads);
              |r.0| == |regReads| && Run(v, cfg, Conversation(v, f, cfg, r.0, sur).es).faulted
  {
    hide First, Cut, Conversation, Turn, Run, IsTable, Flatten, Shows;
    ghost var stream, sent := sock.input, sock.output;
    fault, regReads := false, [];
    StartStanding(v, f, cfg, sur, stream);
    var i := 0;
    while client.online
      invariant Orderly(sock.recvPlan) && Orderly(sock.sendPlan) && IsTable(table[..], BitsOf(CRC16_POLY, 16))
      invariant Standing(client, cfg, sur, sock, v, f, stream, sent, regReads)
      invariant client.online ==> i == |regReads|
      decreases if client.online then |sock.input| + 1 else 0
    {
      ghost var r := Cut(cfg, stream, regReads);
      ghost var talk := Conversation(v, f, cfg, r.0, sur);
      ghost var t := Run(v, cfg, talk.es);
      ghost var got, p;
      fault, got, p := ServeOne(client, cfg, sur, i, table, sock, t.s, talk.file);
      if got {
        ghost var turn := Turn(t.s, talk.file, cfg, p, sur, i);
        CutMore(cfg, stream, regReads, p.regRead);
        TalkMore(v, f, cfg, r.0, p, sur);
        AppendAssociates(sent, Flatten(t.replies), Flatten(Run(t.s, cfg, turn.es).replies));
        regReads := regReads + [p.regRead];
        if !fault {
          Seen(client, Run(t.s, cfg, turn.es).s, turn.file);
        }
      } else {
        Seen(client, t.s.(msgs := [], online := false), talk.file);
      }
      if fault {
        return;
      }
      i := i + 1;
    }
  }

  /** The worker's loop, for every split of the streams: when it ends, the client's session is where the
      run of the conversation over the pieces of the stream leads, what went out is what that run sends,
      and either the stream is used up or the run gave up the connection. */
  method Serve(client: Client, cfg: Config, sur: Surroundings, table: array<nat>, sock: Socket)
    returns (fault: bool, ghost regReads: seq<int>)
    requires client.Valid() && client.online && Apart(client, table) && IsTable(table[..], BitsOf(CRC16_POLY, 16))
    requires |sur.content| == client.sender.file.size
    requires Orderly(sock.recvPlan) && Orderly(sock.sendPlan)
    modifies client, client.recvBuffer, client.recvBufferMSG, client.recvBufferMSGSize, client.sender
    modifies client.sender.sendBuffer, client.sender.sendPacketNo, client.sender.sendBufferMSGSize, sock
    ensures var r := Cut(cfg, old(sock.input), regReads);
            var talk := Conversation(old(client.View()), old(client.sender.file), cfg, r.0, sur);
            var t := Run(old(client.View()), cfg, talk.es);
            && |r.0| == |regReads| && fault == t.faulted
            && (!fault ==>
                  && client.Valid() && client.View() == t.s.(msgs := [], online := false)
                  && client.sender.file == talk.file && sock.output == old(sock.output) + Flatten(t.replies)
                  && (t.s.online ==> |r.1| < SHORT_HEADER))
  {
    hide Cut, Conversation, Run, IsTable, Flatten, client.Points, Slots.Valid;
    fault, regReads := ServeLoop(client, cfg, sur, table, sock, client.View(), client.sender.file);
  }

  // ---- A worker receives what was sent --------------------------------------------------------

  predicate NoArrival(es: seq<Event>) {
    forall i :: 0 <= i < |es| ==> !es[i].Arrive?
  }

  lemma {:induction false} CarriesSends(v: Session, cfg: Config, es: seq<Event>, ps: seq<Packet>, more: seq<Event>)
    requires ValidSession(v) && AllValid(es) && AllValid(more) && Carries(v, cfg, es, ps) && NoArrival(more)
    ensures Carries(v, cfg, es + more, ps)
    decreases |more|
  {
    hide Run, Brings, Aside, StillTaken;
    if more == [] {
      assert es + more == es;
    } else {
      var n := |more| - 1;
      CarriesSends(v, cfg, es, ps, more[..n]);
      assert (es + more)[..|es| + n] == es + more[..n];
    }
  }

  lemma {:induction false} CarriesOne(v: Session, cfg: Config, es: seq<Event>, ps: seq<Packet>, e: Event, p: Packet)
    requires ValidSession(v) && AllValid(es) && ValidEvent(e) && Carries(v, cfg, es, ps)
    requires Brings(e, p) && StillTaken(Run(v, cfg, es).s, cfg, p.kind)
    ensures Carries(v, cfg, es + [e], ps + [p])
  {
    hide Run, Brings, Aside, StillTaken;
    assert (es + [e])[..|es|] == es && (ps + [p])[..|ps|] == ps;
  }

  lemma TurnShape(v: Session, f: FileSend, cfg: Config, p: Piece, sur: Surroundings, n: nat)
    requires ValidSession(v) && ValidSend(f) && |sur.content| == f.size && ValidPiece(p)
    ensures var turn := Turn(v, f, cfg, p, sur, n);
            turn.es != [] && turn.es[0] == Arrival(p, sur.env(n)) && NoArrival(turn.es[1..])
  {
    hide Handle, Encode, NextPacket, NextFile, Pending;
  }

  lemma CarriesTurn(v: Session, cfg: Config, es: seq<Event>, ps: seq<Packet>, turn: seq<Event>, p: Packet)
    requires ValidSession(v) && AllValid(es) && AllValid(turn) && Carries(v, cfg, es, ps)
    requires turn != [] && Brings(turn[0], p) && NoArrival(turn[1..]) && StillTaken(Run(v, cfg, es).s, cfg, p.kind)
    ensures Carries(v, cfg, es + turn, ps + [p])
  {
    hide Encode, Carries, Brings, Run, StillTaken;
    CarriesOne(v, cfg, es, ps, turn[0], p);
    CarriesSends(v, cfg, es + [turn[0]], ps + [p], turn[1..]);
    assert es + turn == (es + [turn[0]]) + turn[1..];
  }

  /** The pieces are the frames of these packets. */
  ghost predicate PiecesOf(pieces: seq<Piece>, ps: seq<Packet>) {
    && |pieces| <= |ps|
    && forall i :: 0 <= i < |pieces| ==>
         && ValidPiece(pieces[i])
         && pieces[i].hdr == Encode(ps[i])[..SHORT_HEADER] && pieces[i].body == Some(Encode(ps[i])[SHORT_HEADER..])
  }

  /** Each packet is still taken when it arrives. */
  ghost predicate Welcome(v: Session, f: FileSend, cfg: Config, pieces: seq<Piece>, sur: Surroundings, ps: seq<Packet>)
    requires ValidSession(v) && ValidSend(f) && |sur.content| == f.size && PiecesOf(pieces, ps)
  {
    pieces == [] ||
    var n := |pieces| - 1;
    && Welcome(v, f, cfg, pieces[..n], sur, ps)
    && StillTaken(Run(v, cfg, Conversation(v, f, cfg, pieces[..n], sur).es).s, cfg, ps[n].kind)
  }

  lemma PrefixOfPrefix<T>(s: seq<T>, k: nat, n: nat)
    requires k <= n <= |s|
    ensures s[..n][..k] == s[..k]
  {
  }

  lemma {:induction false} SendablePrefix(bs: seq<Batch>, k: nat, from: nat, cfg: Config, name: bytes, content: bytes,
      inbox: Inbox)
    requires k <= |bs| && |name| == NAME_SIZE && |content| < 0x8000_0000
    requires Sendable(bs, from, cfg, name, content, inbox)
    ensures Sendable(bs[..k], from, cfg, name, content, inbox)
    ensures PacketsOf(bs, name, content, inbox)[..k] == PacketsOf(bs[..k], name, content, inbox)
    decreases |bs|
  {
    hide Sendable, PacketsOf;
    if k == |bs| {
      assert bs[..k] == bs;
    } else {
      var n := |bs| - 1;
      SendableFront(bs, from, cfg, name, content, inbox);
      PacketsFront(bs, name, content, inbox);
      SendablePrefix(bs[..n], k, from, cfg, name, content, inbox);
      PrefixOfPrefix(bs, k, n);
      PrefixOfPrefix(PacketsOf(bs, name, content, inbox), k, n);
    }
  }

  /** Every packet of a batch is a data frame. */
  lemma {:induction false} SentFrames(bs: seq<Batch>, from: nat, cfg: Config, name: bytes, content: bytes,
      inbox: Inbox, i: nat)
    requires i < |bs| && |name| == NAME_SIZE && |content| < 0x8000_0000
    requires Sendable(bs, from, cfg, name, content, inbox)
    ensures DataFrame(cfg, Encode(PacketsOf(bs, name, content, inbox)[i]))
    decreases |bs|
  {
    hide Encode, PacketOf, StateAfter, ValidBatch, PacketSized;
    var n := |bs| - 1;
    SendableFront(bs, from, cfg, name, content, inbox);
    if i < n {
      SentFrames(bs[..n], from, cfg, name, content, inbox, i);
    } else {
      SentFrame(bs[n], StateAfter(bs[..n], name, content, inbox), cfg, content);
    }
  }

  lemma {:induction false} SentFrame(b: Batch, x: Transfer, cfg: Config, content: bytes)
    requires ValidSend(x.send) && |content| == x.send.size && ValidBatch(b, cfg) && PacketSized(PacketOf(b, x, content))
    ensures DataFrame(cfg, Encode(PacketOf(b, x, content)))
  {
    hide Encode, U16, U32, PacketOf, Readable;
    var p := PacketOf(b, x, content);
    PacketIsExchange(b, x, content, cfg);
    ReadableParts(p, cfg);
    FrameHeader(p, Encode(p));
    EncodedIsFrame(p);
  }

  /** No frame is shorter than a header. */
  lemma FramesLeft(cfg: Config, frames: seq<bytes>, k: nat)
    requires k <= |frames| && forall i :: 0 <= i < |frames| ==> DataFrame(cfg, frames[i])
    ensures k < |frames| ==> |Flatten(frames[k..])| >= SHORT_HEADER
  {
    if k < |frames| {
      FlattenFirst(frames[k..]);
      assert DataFrame(cfg, frames[k]);
    }
  }

  /** A packet that is no longer taken ends the connection. */
  lemma {:induction false} UnwelcomeEnds(r: Session, f: FileSend, cfg: Config, p: Piece, sur: Surroundings, n: nat,
      b: Batch, x: Transfer, content: bytes)
    requires ValidSession(r) && r.online && ValidSend(f) && |sur.content| == f.size && ValidPiece(p)
    requires ValidSend(x.send) && |content| == x.send.size && ValidBatch(b, cfg) && PacketSized(PacketOf(b, x, content))
    requires r.packRef < b.packNo && !StillTaken(r, cfg, PacketOf(b, x, content).kind)
    requires Brings(Arrival(p, sur.env(n)), PacketOf(b, x, content))
    ensures !Run(r, cfg, Turn(r, f, cfg, p, sur, n).es).s.online
  {
    hide Encode, Handle, PacketSized, ValidBatch, SendAll, Reply, HasBit, Readable, PacketOf;
    var q, e := PacketOf(b, x, content), Arrival(p, sur.env(n));
    PacketIsExchange(b, x, content, cfg);
    ReadableParts(q, cfg);
    OneTimeHangsUp(r, cfg, q, e.env);
    RunOne(r, cfg, e);
  }

  /** Nothing that arrives reopens a connection. */
  lemma OfflineStays(r: Session, f: FileSend, cfg: Config, p: Piece, sur: Surroundings, n: nat)
    requires ValidSession(r) && !r.online && ValidSend(f) && |sur.content| == f.size && ValidPiece(p)
    ensures Run(r, cfg, Turn(r, f, cfg, p, sur, n).es).s == r
  {
    RunOne(r, cfg, Arrival(p, sur.env(n)));
  }

  /** One more packet: if it is still taken it is received, and otherwise the connection ends. */
  lemma {:induction false} OpenTurn(bs: seq<Batch>, v: Session, talk: Talk, cfg: Config, sur: Surroundings, name: bytes,
      content: bytes, p: Piece, n: nat)
    requires ValidSession(v) && v.online && AllValid(talk.es) && ValidSend(talk.file) && |sur.content| == talk.file.size
    requires sur.env(n).openFile && |name| == NAME_SIZE && |content| < 0x8000_0000 && n < |bs|
    requires Sendable(bs, v.packRef, cfg, name, content, v.inbox) && ValidPiece(p)
    requires var q := PacketsOf(bs, name, content, v.inbox)[n];
             p.hdr == Encode(q)[..SHORT_HEADER] && p.body == Some(Encode(q)[SHORT_HEADER..])
    requires !Run(v, cfg, talk.es).faulted
    requires Carries(v, cfg, talk.es, PacketsOf(bs, name, content, v.inbox)[..n])
    requires Received(Run(v, cfg, talk.es), v, bs[..n], StateAfter(bs[..n], name, content, v.inbox))
    ensures var r, ps := Run(v, cfg, talk.es), PacketsOf(bs, name, content, v.inbox);
            var es := talk.es + Turn(r.s, talk.file, cfg, p, sur, n).es;
            var t := Run(v, cfg, es);
            !t.faulted ==>
              && (t.s.online <==> StillTaken(r.s, cfg, ps[n].kind))
              && (t.s.online ==>
                    && Carries(v, cfg, es, ps[..n + 1])
                    && Received(t, v, bs[..n + 1], StateAfter(bs[..n + 1], name, content, v.inbox)))
  {
    hide Encode, Turn, Run, Carries, Sendable, PacketsOf, PacketOf, StateAfter, Received, StillTaken, Brings,
        ValidBatch, PacketSized, Readable, HasBit, Messages, PacketInbox, Exchange, Expected;
    var ps, r := PacketsOf(bs, name, content, v.inbox), Run(v, cfg, talk.es);
    var turn := Turn(r.s, talk.file, cfg, p, sur, n);
    ReceivedParts(r, v, bs[..n], StateAfter(bs[..n], name, content, v.inbox));
    TurnShape(r.s, talk.file, cfg, p, sur, n);
    NextBatch(bs, n, v, r, cfg, name, content);
    PacketIsExchange(bs[n], StateAfter(bs[..n], name, content, v.inbox), content, cfg);
    PieceBrings(p, sur.env(n), ps[n]);
    if StillTaken(r.s, cfg, ps[n].kind) {
      CarriesTurn(v, cfg, talk.es, ps[..n], turn.es, ps[n]);
      FrontAndLast(ps[..n + 1]);
      PrefixOfPrefix(ps, n, n + 1);
      SendablePrefix(bs, n + 1, v.packRef, cfg, name, content, v.inbox);
      EndToEnd(bs[..n + 1], v, cfg, talk.es + turn.es, name, content);
      ReceivedOpen(Run(v, cfg, talk.es + turn.es), v, bs[..n + 1], StateAfter(bs[..n + 1], name, content, v.inbox));
    } else {
      UnwelcomeEnds(r.s, talk.file, cfg, p, sur, n, bs[n], StateAfter(bs[..n], name, content, v.inbox), content);
      RunAppend(v, cfg, talk.es, turn.es);
    }
  }

  lemma ReceivedOpen(t: Trace, v: Session, bs: seq<Batch>, x: Transfer)
    ensures Received(t, v, bs, x) ==> t.s.online
  {
  }

  /** The connection stays open as long as every packet is still taken, and then everything is received. */
  lemma {:induction false} OpenWhileWelcome(bs: seq<Batch>, v: Session, f: FileSend, cfg: Config, sur: Surroundings,
      name: bytes, content: bytes, pieces: seq<Piece>)
    requires ValidSession(v) && v.online && ValidSend(f) && |sur.content| == f.size
    requires (forall n: nat :: sur.env(n).openFile) && |name| == NAME_SIZE && |content| < 0x8000_0000
    requires Sendable(bs, v.packRef, cfg, name, content, v.inbox)
    requires PiecesOf(pieces, PacketsOf(bs, name, content, v.inbox))
    requires !Run(v, cfg, Conversation(v, f, cfg, pieces, sur).es).faulted
    ensures var ps, k, es := PacketsOf(bs, name, content, v.inbox), |pieces|, Conversation(v, f, cfg, pieces, sur).es;
            && (Run(v, cfg, es).s.online <==> Welcome(v, f, cfg, pieces, sur, ps))
            && (Run(v, cfg, es).s.online ==>
                  && Carries(v, cfg, es, ps[..k])
                  && Received(Run(v, cfg, es), v, bs[..k], StateAfter(bs[..k], name, content, v.inbox)))
    decreases |pieces|
  {
    hide Encode, Turn, Run, Carries, Sendable, PacketsOf, StateAfter, Received, StillTaken;
    var ps, k := PacketsOf(bs, name, content, v.inbox), |pieces|;
    if pieces == [] {
      NothingYet(v, cfg, name, content);
      assert ps[..0] == [] && bs[..0] == [];
    } else {
      var n := k - 1;
      var talk := Conversation(v, f, cfg, pieces[..n], sur);
      var r := Run(v, cfg, talk.es);
      OpenWhileWelcome(bs, v, f, cfg, sur, name, content, pieces[..n]);
      if r.s.online {
        OpenTurn(bs, v, talk, cfg, sur, name, content, pieces[n], n);
      } else {
        OfflineStays(r.s, talk.file, cfg, pieces[n], sur, n);
        RunAppend(v, cfg, talk.es, Turn(r.s, talk.file, cfg, pieces[n], sur, n).es);
      }
    }
  }

  lemma PieceBrings(p: Piece, env: Env, q: Packet)
    requires ValidPiece(p) && env.openFile && !HasBit(q.kind, KIND_BIG)
    requires p.hdr == Encode(q)[..SHORT_HEADER] && p.body == Some(Encode(q)[SHORT_HEADER..])
    ensures Brings(Arrival(p, env), q)
  {
  }

  lemma NothingYet(v: Session, cfg: Config, name: bytes, content: bytes)
    requires ValidSession(v) && v.online && |name| == NAME_SIZE && |content| < 0x8000_0000
    ensures Run(v, cfg, []) == Trace(v, [], [], [], false) && Carries(v, cfg, [], [])
    ensures Received(Run(v, cfg, []), v, [], StateAfter([], name, content, v.inbox))
  {
    ReceivedNothing(v, name, content);
  }

  /** The next batch, after n of them were received */
  lemma {:induction false} NextBatch(bs: seq<Batch>, n: nat, v: Session, r: Trace, cfg: Config, name: bytes,
      content: bytes)
    requires n < |bs| && |name| == NAME_SIZE && |content| < 0x8000_0000
    requires Sendable(bs, v.packRef, cfg, name, content, v.inbox)
    requires Received(r, v, bs[..n], StateAfter(bs[..n], name, content, v.inbox))
    ensures var x := StateAfter(bs[..n], name, content, v.inbox);
            && r.s.packRef < bs[n].packNo && ValidBatch(bs[n], cfg)
            && PacketsOf(bs, name, content, v.inbox)[n] == PacketOf(bs[n], x, content)
            && PacketSized(PacketOf(bs[n], x, content))
  {
    hide Received, StateAfter, PacketOf, ValidBatch, PacketSized, Sendable;
    var front := bs[..n + 1];
    SendablePrefix(bs, n + 1, v.packRef, cfg, name, content, v.inbox);
    SendableFront(front, v.packRef, cfg, name, content, v.inbox);
    assert front[..n] == bs[..n] && front[n] == bs[n];
    ReceivedParts(r, v, bs[..n], StateAfter(bs[..n], name, content, v.inbox));
    assert PacketsOf(bs, name, content, v.inbox)[..n + 1][n] == PacketsOf(front, name, content, v.inbox)[n];
  }

  /** When a worker's loop on a stream of batches has ended, it has read all of the stream and was given every
      message meant, batch by batch, and the file, if and only if each packet was still taken when it
      arrived: whatever the callback answered, and whichever way recv and send split the streams. */
  lemma {:induction false} WorkerDelivers(bs: seq<Batch>, v: Session, f: FileSend, cfg: Config, sur: Surroundings,
                                          name: bytes, content: bytes, regReads: seq<int>)
    requires ValidSession(v) && v.online && ValidSend(f) && |sur.content| == f.size
    requires (forall n: nat :: sur.env(n).openFile) && |name| == NAME_SIZE && |content| < 0x8000_0000
    requires Sendable(bs, v.packRef, cfg, name, content, v.inbox)
    requires var r := Cut(cfg, Flatten(EncodeAll(PacketsOf(bs, name, content, v.inbox))), regReads);
             var t := Run(v, cfg, Conversation(v, f, cfg, r.0, sur).es);
             |r.0| == |regReads| && !t.faulted && (t.s.online ==> |r.1| < SHORT_HEADER)
    ensures var ps := PacketsOf(bs, name, content, v.inbox);
            var r := Cut(cfg, Flatten(EncodeAll(ps)), regReads);
            var t := Run(v, cfg, Conversation(v, f, cfg, r.0, sur).es);
            && PiecesOf(r.0, ps)
            && (Welcome(v, f, cfg, r.0, sur, ps) <==>
                |regReads| == |bs| && Received(t, v, bs, StateAfter(bs, name, content, v.inbox)))
  {
    hide Encode, Run, Conversation, Cut, Flatten, PacketsOf, Sendable, StateAfter, DataFrame, Carries, Received,
        Welcome;
    var ps := PacketsOf(bs, name, content, v.inbox);
    var frames := EncodeAll(ps);
    forall i | 0 <= i < |frames|
      ensures DataFrame(cfg, frames[i])
    {
      SentFrames(bs, v.packRef, cfg, name, content, v.inbox, i);
    }
    var k := |regReads|;
    forall i | 0 <= i < |frames| && i < k
      ensures ReadUnit(cfg, frames[i], regReads[i])
      ensures |frames[i]| >= SHORT_HEADER
      ensures PieceOf(cfg, frames[i], regReads[i]).body == Some(frames[i][SHORT_HEADER..])
    {
      DataUnit(cfg, frames[i], regReads[i]);
      LongEnough(cfg, frames[i], regReads[i]);
    }
    FramingRoundTrip(cfg, frames, regReads);
    var r := Cut(cfg, Flatten(frames), regReads);
    var t := Run(v, cfg, Conversation(v, f, cfg, r.0, sur).es);
    OpenWhileWelcome(bs, v, f, cfg, sur, name, content, r.0);
    FramesLeft(cfg, frames, k);
    assert bs[..|bs|] == bs;
    if |regReads| == |bs| && Received(t, v, bs, StateAfter(bs, name, content, v.inbox)) {
      ReceivedParts(t, v, bs, StateAfter(bs, name, content, v.inbox));
    }
  }

  /** Only a confirm on a one-time server marks the session as done. */
  lemma {:induction false} DoneByConfirm(v: Session, cfg: Config, es: seq<Event>)
    requires ValidSession(v) && AllValid(es)
    ensures Run(v, cfg, es).s.sendDone ==> v.sendDone || Acknowledge in es
  {
    hide Handle, ValidSession, ValidEvent;
    if es != [] {
      var n := |es| - 1;
      DoneByConfirm(v, cfg, es[..n]);
      FrontAndLast(es);
      var r, e := Run(v, cfg, es[..n]).s, es[n];
      if e.Arrive? && r.online && Next(r, cfg, e).Outcome? {
        ArrivalKeepsDone(r, cfg, e);
      }
    }
  }

  lemma ArrivalKeepsDone(s: Session, cfg: Config, e: Event)
    requires ValidSession(s) && s.online && ValidEvent(e) && e.Arrive? && Next(s, cfg, e).Outcome?
    ensures Next(s, cfg, e).s.sendDone == s.sendDone
  {
    hide Handle;
    AcceptedOrUntouched(s, cfg, e.hdr, e.body, e.env);
  }

  /** Every packet is taken by a server that is not of the one-time kind, by one that has nothing but data
      to answer, and by any server when each packet carries a chunk. */
  lemma {:induction false} AlwaysWelcome(v: Session, f: FileSend, cfg: Config, pieces: seq<Piece>, sur: Surroundings,
      ps: seq<Packet>)
    requires ValidSession(v) && ValidSend(f) && |sur.content| == f.size && PiecesOf(pieces, ps)
    requires || !cfg.oneTime
             || (!v.sendDone && Acknowledge !in Conversation(v, f, cfg, pieces, sur).es)
             || forall i :: 0 <= i < |pieces| ==> HasBit(ps[i].kind, KIND_FILE)
    ensures Welcome(v, f, cfg, pieces, sur, ps)
    decreases |pieces|
  {
    hide Turn, Run, Encode;
    if pieces != [] {
      var front := Conversation(v, f, cfg, pieces[..|pieces| - 1], sur);
      assert forall e :: e in front.es ==> e in Conversation(v, f, cfg, pieces, sur).es;
      AlwaysWelcome(v, f, cfg, pieces[..|pieces| - 1], sur, ps);
      DoneByConfirm(v, cfg, front.es);
    }
  }

  // ---- A worker sends what was answered -------------------------------------------------------

  /** A receiver regroups these messages from the frame. */
  predicate ReadsAs(frame: bytes, ms: seq<bytes>) {
    WellFormed(frame) && ReadMessages(frame) == Some(ms)
  }

  predicate NothingQueued(s: Session) {
    s.outbox.sizes == [] && s.outbox.cur == 0
  }

  /** What goes out when a client with an empty queue is answered with ms: one packet under the number of the
      packet that is answered, which reads back as exactly the messages meant and brings the next chunk of
      the file; or its confirm, when there is nothing to send. Afterwards the queue is empty again. */
  lemma {:induction false} ReplyAnswers(s: Session, cfg: Config, f: FileSend, ms: seq<bytes>, content: Option<bytes>)
    requires ValidSession(s) && NothingQueued(s) && ValidSend(f) && (content.Some? ==> |content.value| == f.size)
    ensures Sized(SendAll(ms).frags)
    ensures var reply, q := Reply(s, f, ms, content), SendAll(ms).frags;
            var t, p := Run(s, cfg, reply.es), NextPacket(q, s.packRef, f, content);
            if q == [] && !f.sending then
              && !t.faulted && Flatten(t.replies) == Confirm(s.packRef) && reply.file == f && t.s.outbox.sizes == []
              && (ms == [] ==> NothingQueued(t.s))
            else if |Encode(p)| > |s.outbox.buf| then t.faulted
            else
              && !t.faulted && Flatten(t.replies) == Encode(p) && NothingQueued(t.s)
              && reply.file == NextFile(q, f, content)
              && LastBatch(t.s) == Encode(p)
              && p.packNo == s.packRef && p.frags == q
              && (PacketSized(p) && WellNumbered(ms) ==> ReadsAs(Encode(p), Expected(ms)))
  {
    hide Run, Encode, NextPacket, NextFile, ReadsAs, WellNumbered, Expected, Confirm, Ending, Reply, SendMany,
        SendAll, Sent, Flatten, Sized, PacketSized, LastBatch, Deliver;
    SendAllSized(ms);
    QueuedBy(s.outbox, ms);
    var s1, q := s.(outbox := SendMany(s.outbox, ms)), SendAll(ms).frags;
    var front := Encode(NextPacket(q, s.packRef, f, content));
    ReplyRun(s, cfg, f, ms, content);
    EndingRun(s1, cfg, f, content);
    FlattenSingle(Confirm(s.packRef));
    FlattenSingle(front);
    ReplyReads(ms, s.packRef, f, content);
    if |front| <= |s.outbox.buf| {
      SentLast(s1, front);
    }
  }

  /** The queue of an idle client after the callback. */
  lemma {:induction false} QueuedBy(o: Outbox, ms: seq<bytes>)
    requires Slots.Valid(o) && o.sizes == [] && o.cur == 0
    ensures var o' := SendMany(o, ms);
            && |o'.buf| == |o.buf| && Pending(o').frags == SendAll(ms).frags
            && (o'.sizes == [] <==> SendAll(ms).frags == []) && (ms == [] ==> o' == o)
  {
    FrontSurvives(o, ms);
    ManyAccepted(o, ms);
  }

  lemma SentLast(s: Session, front: bytes)
    requires ValidSession(s) && |front| <= |s.outbox.buf|
    ensures var s' := s.(msgs := [], outbox := Sent(s.outbox, front), sendDataSize := |front|);
            ValidSession(s') && NothingQueued(s') && LastBatch(s') == front
  {
  }

  lemma NextPacketShape(frags: seq<Frag>, packRef: nat, f: FileSend, content: Option<bytes>)
    requires Sized(frags) && ValidSend(f) && (content.Some? ==> |content.value| == f.size)
    ensures var p := NextPacket(frags, packRef, f, content);
            p.packNo == packRef && p.frags == frags
  {
  }

  lemma {:induction false} ReplyReads(ms: seq<bytes>, packRef: nat, f: FileSend, content: Option<bytes>)
    requires packRef < U32_LIMIT && ValidSend(f) && (content.Some? ==> |content.value| == f.size)
    requires Sized(SendAll(ms).frags)
    ensures var p := NextPacket(SendAll(ms).frags, packRef, f, content);
            && p.packNo == packRef && p.frags == SendAll(ms).frags
            && (PacketSized(p) && WellNumbered(ms) ==> ReadsAs(Encode(p), Expected(ms)))
  {
    hide SendAll, Encode, ReadMessages, WellFormed, WellNumbered, Expected, Deliver, Body, NextPacket, Sized;
    NextPacketShape(SendAll(ms).frags, packRef, f, content);
    var p := NextPacket(SendAll(ms).frags, packRef, f, content);
    NextEncodable(SendAll(ms).frags, packRef, f, content);
    RoundTrip(ms);
    if PacketSized(p) {
      FrameParts(p);
    }
  }

  /** What arrives leaves the queue alone. */
  lemma ArrivalKeepsQueue(s: Session, cfg: Config, e: Event)
    requires ValidSession(s) && ValidEvent(e) && e.Arrive? && Next(s, cfg, e).Outcome?
    ensures var o := Next(s, cfg, e).s.outbox;
            o.sizes == s.outbox.sizes && o.nos == s.outbox.nos && o.cur == s.outbox.cur
  {
    hide Deliver1, CrcMatches, U16, U32, Signed16;
    if s.online {
      AcceptedOrUntouched(s, cfg, e.hdr, e.body, e.env);
    }
  }

  /** Without empty messages among the answers, nothing is left queued between two packets. */
  lemma {:induction false} NothingLeft(v: Session, f: FileSend, cfg: Config, pieces: seq<Piece>, sur: Surroundings)
    requires ValidSession(v) && NothingQueued(v) && ValidSend(f) && |sur.content| == f.size
    requires forall k :: 0 <= k < |pieces| ==> ValidPiece(pieces[k])
    requires forall n: nat :: [] !in sur.answer(n)
    requires !Run(v, cfg, Conversation(v, f, cfg, pieces, sur).es).faulted
    ensures NothingQueued(Run(v, cfg, Conversation(v, f, cfg, pieces, sur).es).s)
    decreases |pieces|
  {
    hide Run, Turn;
    if pieces == [] {
      NoRun(v, cfg);
    } else {
      var n := |pieces| - 1;
      var talk := Conversation(v, f, cfg, pieces[..n], sur);
      var r := Run(v, cfg, talk.es);
      NothingLeft(v, f, cfg, pieces[..n], sur);
      RunAppend(v, cfg, talk.es, Turn(r.s, talk.file, cfg, pieces[n], sur, n).es);
      TurnEmpties(r.s, talk.file, cfg, pieces[n], sur, n);
    }
  }

  lemma NoRun(v: Session, cfg: Config)
    requires ValidSession(v)
    ensures Run(v, cfg, []) == Trace(v, [], [], [], false)
  {
  }

  lemma {:induction false} NonEmptyQueued(ms: seq<bytes>)
    requires [] !in ms && ms != []
    ensures SendAll(ms).frags != []
  {
    assert ms[|ms| - 1] in ms;
    SendAllCounts(ms);
  }

  lemma {:induction false} TurnEmpties(v: Session, f: FileSend, cfg: Config, p: Piece, sur: Surroundings, n: nat)
    requires ValidSession(v) && NothingQueued(v) && ValidSend(f) && |sur.content| == f.size && ValidPiece(p)
    requires [] !in sur.answer(n)
    ensures var t := Run(v, cfg, Turn(v, f, cfg, p, sur, n).es);
            !t.faulted ==> NothingQueued(t.s)
  {
    hide Run, Handle, Reply, SendAll;
    var e := Arrival(p, sur.env(n));
    var o := Next(v, cfg, e);
    if v.online {
      TurnRun(v, f, cfg, p, sur, n);
    } else {
      OfflineStays(v, f, cfg, p, sur, n);
    }
    if v.online && o.Outcome? {
      ArrivalKeepsQueue(v, cfg, e);
      NextValid(v, cfg, e);
      if o.ret == 0 {
        if sur.answer(n) != [] {
          NonEmptyQueued(sur.answer(n));
        }
        ReplyAnswers(o.s, cfg, f, sur.answer(n), ContentAt(sur, n));
      }
    }
  }

  /** On any connection, whatever arrives, each accepted packet is answered at once with one packet under its
      number, which reads back as exactly the messages the callback answered with; or with its confirm. */
  lemma {:induction false} WorkerAnswers(v: Session, f: FileSend, cfg: Config, pieces: seq<Piece>, p: Piece,
      sur: Surroundings)
    requires ValidSession(v) && NothingQueued(v) && ValidSend(f) && |sur.content| == f.size && ValidPiece(p)
    requires forall k :: 0 <= k < |pieces| ==> ValidPiece(pieces[k])
    requires forall n: nat :: [] !in sur.answer(n)
    requires !Run(v, cfg, Conversation(v, f, cfg, pieces, sur).es).faulted
    ensures Sized(SendAll(sur.answer(|pieces|)).frags)
    ensures var n, talk := |pieces|, Conversation(v, f, cfg, pieces, sur);
            var r, ms := Run(v, cfg, talk.es).s, sur.answer(n);
            var o := Next(r, cfg, Arrival(p, sur.env(n)));
            var t := Run(r, cfg, Turn(r, talk.file, cfg, p, sur, n).es);
            r.online && o.Outcome? && o.ret == 0 && !t.faulted ==>
              && o.s.packRef == U32(p.hdr, 4) && o.reply == []
              && (ms == [] && !talk.file.sending ==> Flatten(t.replies) == Confirm(U32(p.hdr, 4)))
              && (ms != [] || talk.file.sending ==>
                    var q := NextPacket(SendAll(ms).frags, U32(p.hdr, 4), talk.file, ContentAt(sur, n));
                    && Flatten(t.replies) == Encode(q)
                    && (PacketSized(q) ==> ReadsAs(Encode(q), Expected(ms))))
  {
    hide Run, Handle, Reply, Encode, NextPacket, ReadsAs, Expected, Confirm, Turn, U32, SendAll;
    var n, talk := |pieces|, Conversation(v, f, cfg, pieces, sur);
    var r, ms := Run(v, cfg, talk.es).s, sur.answer(n);
    var e := Arrival(p, sur.env(n));
    SendAllSized(ms);
    NothingLeft(v, f, cfg, pieces, sur);
    if r.online && Next(r, cfg, e).Outcome? && Next(r, cfg, e).ret == 0 {
      var s' := Next(r, cfg, e).s;
      TurnRun(r, talk.file, cfg, p, sur, n);
      ArrivalKeepsQueue(r, cfg, e);
      ArrivalNumber(r, cfg, e);
      AcceptedSilently(r, cfg, e);
      NextValid(r, cfg, e);
      if ms != [] {
        NonEmptyQueued(ms);
      } else {
        NothingSent();
      }
      NonEmptyIsWellNumbered(ms);
      ReplyAnswers(s', cfg, talk.file, ms, ContentAt(sur, n));
    }
  }

  lemma NothingSent()
    ensures SendAll([]).frags == []
  {
  }

  /** Accepting a packet writes nothing. */
  lemma AcceptedSilently(s: Session, cfg: Config, e: Event)
    requires ValidSession(s) && s.online && ValidEvent(e) && e.Arrive?
    requires Next(s, cfg, e).Outcome? && Next(s, cfg, e).ret == 0
    ensures Next(s, cfg, e).reply == []
  {
    hide Deliver1, CrcMatches, U16, U32, Signed16, Registered, AskAgain;
    var s1, frame := s.(msgs := []), e.hdr + if e.body.Some? then e.body.value else [];
    if |frame| >= HEADER && Deliver1(s1, U16(e.hdr, 0), U32(e.hdr, 4), frame, e.env).Outcome? {
      DeliverKeeps(s1, U16(e.hdr, 0), U32(e.hdr, 4), frame, e.env);
    }
  }
}
