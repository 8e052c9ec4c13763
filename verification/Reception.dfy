/** What a session makes of whatever packets it can read, whoever built them: one packet, and any run of
    them with sending, duplicates and damage in between. */
module Reception {
  import opened Bytes
  import opened CrcTables
  import opened Files
  import opened Fragments
  import Gf2
  import opened Link
  import opened Packets
  import opened Session
  import opened Slots
  import Words

  // ---- One packet -----------------------------------------------------------------------------

  /** The receiver can make sense of the packet: its messages can be regrouped, and the chunk behind them
      has the header that its kind asks for. */
  predicate Readable(p: Packet, cfg: Config) {
    && Encodable(p) && DataKind(p.kind) && 0 <= p.from < cfg.maxConnection && p.from < 0x8000
    && (HasBit(p.kind, KIND_MESSAGES) ==> Deliver(p.frags).Some?)
    && (HasBit(p.kind, KIND_BIG) ==> |p.tail| >= 8)
    && (HasBit(p.kind, KIND_FILE) ==> FileChunk(p.tail))
  }

  /** The messages a packet brings. */
  function Messages(p: Packet): seq<bytes>
    requires HasBit(p.kind, KIND_MESSAGES) ==> Deliver(p.frags).Some?
  {
    if HasBit(p.kind, KIND_MESSAGES) then Deliver(p.frags).value else []
  }

  /** What its chunk does to the files. */
  function PacketInbox(s: Inbox, p: Packet): Inbox
    requires HasBit(p.kind, KIND_BIG) ==> |p.tail| >= 8
    requires HasBit(p.kind, KIND_FILE) ==> FileChunk(p.tail)
  {
    var s1 := if HasBit(p.kind, KIND_BIG) then ReceiveBig(s, p.tail, true).0 else s;
    if HasBit(p.kind, KIND_FILE) then ReceiveFile(s1, p.tail, true).0 else s1
  }

  /** What accepting a packet does to a session. */
  function Accepted(s: Session, p: Packet, cfg: Config): Session
    requires Readable(p, cfg)
  {
    s.(msgs := Messages(p), inbox := PacketInbox(s.inbox, p), packRef := p.packNo)
  }

  /** The files that the packet's chunk goes to can be opened. */
  predicate CanOpen(p: Packet, env: Env) {
    (HasBit(p.kind, KIND_BIG) ==> env.openTemp) && (HasBit(p.kind, KIND_FILE) ==> env.openFile)
  }

  /** The frame of a packet, read field by field. */
  lemma {:induction false} FrameParts(p: Packet)
    requires Encodable(p) && PacketSized(p)
    ensures var frame := Encode(p);
            && WellFormed(frame) && ReadMessages(frame) == Deliver(p.frags) && TailOf(frame) == Some(p.tail)
  {
    hide Encode, Deliver, Regroup, DataOffset, ReadMessages, PacketCrc, Table, Payload, Body, U16;
    var frame, crc := Encode(p), PacketCrc(Covered(p));
    EncodeHolds(p);
    ReadBack(frame, p, crc);
    BodyLength(p);
    PayloadBound(p.frags);
    var at := DataOffset(frame, |p.frags|, |p.frags|);
    assert frame[at..|frame|] == frame[at..];
  }

  lemma BodyLength(p: Packet)
    ensures |Encode(p)| == HEADER + |Body(p.frags, p.tail)|
    ensures |Body(p.frags, p.tail)| == 2 * |p.frags| + |Payload(p.frags)| + |p.tail|
  {
  }

  lemma EncodeHolds(p: Packet)
    requires Encodable(p)
    ensures Holds(Encode(p), p, PacketCrc(Covered(p)))
  {
  }

  lemma {:induction false} DeliverReadable(s: Session, cfg: Config, p: Packet, frame: bytes, env: Env)
    requires HEADER <= |frame| && Readable(p, cfg) && CanOpen(p, env) && s.msgs == []
    requires WellFormed(frame) && ReadMessages(frame) == Deliver(p.frags) && TailOf(frame) == Some(p.tail)
    ensures Deliver1(s, p.kind, p.packNo, frame, env) == Outcome(Accepted(s, p, cfg), 0, [])
  {
    hide WellFormed, ReadMessages, Deliver, TailOf, CString, FileEnd, BigEnd, U32;
    OpenedBig(s.inbox, p.tail);
    OpenedFile(s.inbox, p.tail);
  }

  /** A chunk whose file can be opened is not refused. */
  lemma OpenedBig(s: Inbox, t: bytes)
    ensures |t| >= 8 ==> ReceiveBig(s, t, true).1
  {
  }

  lemma OpenedFile(s: Inbox, t: bytes)
    ensures FileChunk(t) ==> forall s1: Inbox :: ReceiveFile(s1, t, true).1
  {
  }

  /** A packet with a new number from a known client passes every check. */
  lemma {:induction false} PacketReaches(s: Session, cfg: Config, p: Packet, env: Env)
    requires ValidSession(s) && StillTaken(s, cfg, p.kind)
    requires Readable(p, cfg) && PacketSized(p) && s.packRef < p.packNo
    ensures var frame := Encode(p);
            && U32(frame[..SHORT_HEADER], 8) == |frame[SHORT_HEADER..]|
            && U32(frame[..SHORT_HEADER], 4) == p.packNo
            && Handle(s, cfg, frame[..SHORT_HEADER], Some(frame[SHORT_HEADER..]), env)
               == Deliver1(s.(msgs := []), p.kind, p.packNo, frame, env)
            && WellFormed(frame) && ReadMessages(frame) == Deliver(p.frags) && TailOf(frame) == Some(p.tail)
  {
    hide Encode, CrcMatches, Deliver1, Deliver, U16, U32, FileChunk;
    var frame := Encode(p);
    FrameHeader(p, frame);
    EncodedPasses(p);
    FrameParts(p);
    assert frame[..SHORT_HEADER] + frame[SHORT_HEADER..] == frame;
  }

  /** It is accepted and brings its messages and its chunk, when the files for the chunk can be opened. */
  lemma {:induction false} PacketAccepted(s: Session, cfg: Config, p: Packet, env: Env)
    requires ValidSession(s) && StillTaken(s, cfg, p.kind) && CanOpen(p, env)
    requires Readable(p, cfg) && PacketSized(p) && s.packRef < p.packNo
    ensures var frame := Encode(p);
            && U32(frame[..SHORT_HEADER], 8) == |frame[SHORT_HEADER..]|
            && U32(frame[..SHORT_HEADER], 4) == p.packNo
            && Handle(s, cfg, frame[..SHORT_HEADER], Some(frame[SHORT_HEADER..]), env)
               == Outcome(Accepted(s, p, cfg), 0, [])
  {
    hide Encode, Handle, Deliver1, Deliver, U32, FileChunk, PacketInbox, Messages;
    PacketReaches(s, cfg, p, env);
    DeliverReadable(s.(msgs := []), cfg, p, Encode(p), env);
  }

  /** When the file for its chunk cannot be opened, a packet with a HEADER chunk is not accepted, but any
      other one is, and its chunk is lost without notice. */
  lemma {:induction false} UnopenedChunk(s: Session, cfg: Config, p: Packet, env: Env)
    requires ValidSession(s) && StillTaken(s, cfg, p.kind) && s.packRef < p.packNo
    requires Readable(p, cfg) && PacketSized(p) && |p.tail| >= 8
    requires HasBit(p.kind, KIND_BIG) != HasBit(p.kind, KIND_FILE)
    requires !env.openTemp && !env.openFile
    ensures var hdr, body := Encode(p)[..SHORT_HEADER], Encode(p)[SHORT_HEADER..];
            && U32(hdr, 8) == |body|
            && var o := Handle(s, cfg, hdr, Some(body), env);
               && o.Outcome? && (o.ret == 0 <==> !HasHeader(p.tail))
               && o.s.packRef == (if HasHeader(p.tail) then s.packRef else p.packNo)
               && o.s.inbox.temp == s.inbox.temp && o.s.inbox.files == s.inbox.files
  {
    hide Encode, Handle, Deliver, U32, WellFormed, ReadMessages, TailOf, CString;
    PacketReaches(s, cfg, p, env);
  }

  lemma OneTimeHangsUp(s: Session, cfg: Config, p: Packet, env: Env)
    requires ValidSession(s) && Encodable(p) && PacketSized(p) && DataKind(p.kind) && s.packRef < p.packNo
    requires 0 <= p.from < cfg.maxConnection && p.from < 0x8000
    requires cfg.oneTime && s.sendDone && !HasBit(p.kind, KIND_BIG) && !HasBit(p.kind, KIND_FILE)
    ensures U32(Encode(p)[..SHORT_HEADER], 8) == |Encode(p)[SHORT_HEADER..]|
    ensures Handle(s, cfg, Encode(p)[..SHORT_HEADER], Some(Encode(p)[SHORT_HEADER..]), env) ==
            Outcome(s.(msgs := [], online := false), -1, [])
  {
    hide Encode, CrcMatches, Deliver1, U16, U32;
    FrameHeader(p, Encode(p));
  }

  /** A readable packet with a new number is accepted if and only if its size is at most 64 KB and, on a
      one-time server that has confirmed, it carries a chunk; otherwise the connection ends. */
  lemma {:induction false} AcceptedExactly(s: Session, cfg: Config, p: Packet, env: Env)
    requires ValidSession(s) && s.online && CanOpen(p, env) && Readable(p, cfg) && s.packRef < p.packNo
    ensures var hdr, body := Encode(p)[..SHORT_HEADER], Encode(p)[SHORT_HEADER..];
            var chunk := HasBit(p.kind, KIND_BIG) || HasBit(p.kind, KIND_FILE);
            var taken := PacketSized(p) && (chunk || !(cfg.oneTime && s.sendDone));
            && U32(hdr, 8) == |body|
            && (Handle(s, cfg, hdr, Some(body), env) == Outcome(Accepted(s, p, cfg), 0, []) <==> taken)
            && (Handle(s, cfg, hdr, Some(body), env) == Outcome(s.(msgs := [], online := false), -1, []) <==> !taken)
  {
    hide Encode, Handle, PacketSized, Deliver, U32, FileChunk, PacketInbox, Messages, HasBit;
    if !PacketSized(p) {
      OversizedPacketIsRefused(s, cfg, p, env);
    } else if StillTaken(s, cfg, p.kind) {
      PacketAccepted(s, cfg, p, env);
    } else {
      OneTimeHangsUp(s, cfg, p, env);
    }
  }

  // ---- A run of packets -----------------------------------------------------------------------

  /** Packet p arrives whole, while its files can be opened. */
  ghost predicate Brings(e: Event, p: Packet) {
    && e.Arrive? && CanOpen(p, e.env)
    && e.hdr == Encode(p)[..SHORT_HEADER] && e.body == Some(Encode(p)[SHORT_HEADER..])
  }

  ghost predicate AllValid(es: seq<Event>) {
    forall i :: 0 <= i < |es| ==> ValidEvent(es[i])
  }

  /** What may arrive beside new packets: a registration that is answered, a request to repeat a packet,
      a ping, a packet of no known kind, an old number, and a packet that was cut short or damaged. */
  ghost predicate Aside(e: Event, cfg: Config, s: Session)
    requires ValidEvent(e)
  {
    e.Arrive? &&
    var kind, from, packNo, size := U16(e.hdr, 0), Signed16(U16(e.hdr, 2)), U32(e.hdr, 4), U32(e.hdr, 8);
    if kind == REGISTER then e.env.regRead == VERSIONS_SIZE
    else if kind == RETRASMIT then s.sendDataSize > 0
    else if kind == PING then true
    else
      && 0 <= from < cfg.maxConnection
      && (kind % 16 == 0 || (size <= BUFFER_SIZE && (packNo <= s.packRef || Damaged(e, cfg, s))))
  }

  /** Cut short, or with a CRC that does not match, while such packets are taken at all */
  ghost predicate Damaged(e: Event, cfg: Config, s: Session)
    requires ValidEvent(e) && e.Arrive?
  {
    && StillTaken(s, cfg, U16(e.hdr, 0))
    && (e.body.None? || (U32(e.hdr, 8) >= 4 && !CrcMatches(e.hdr + e.body.value)))
  }

  /** What arrives in these events is these packets, in order, each while it is still taken; between them
      anything may be sent, and anything may arrive that is no new packet. */
  ghost predicate Carries(s: Session, cfg: Config, es: seq<Event>, ps: seq<Packet>)
    requires ValidSession(s) && AllValid(es)
  {
    if es == [] then ps == []
    else
      var n, e := |es| - 1, es[|es| - 1];
      var now := Run(s, cfg, es[..n]).s;
      || ((!e.Arrive? || Aside(e, cfg, now)) && Carries(s, cfg, es[..n], ps))
      || (ps != [] && Brings(e, ps[|ps| - 1]) && StillTaken(now, cfg, ps[|ps| - 1].kind)
          && Carries(s, cfg, es[..n], ps[..|ps| - 1]))
  }

  /** Packets that a receiver takes, under rising numbers. */
  predicate Takeable(ps: seq<Packet>, from: nat, cfg: Config) {
    ps != [] ==>
      var n := |ps| - 1;
      && Readable(ps[n], cfg) && PacketSized(ps[n])
      && NewestNumber(ps[..n], from) < ps[n].packNo && Takeable(ps[..n], from, cfg)
  }

  function NewestNumber(ps: seq<Packet>, from: nat): int {
    if ps == [] then from else ps[|ps| - 1].packNo
  }

  /** The files after these packets. */
  function InboxAfter(s: Inbox, ps: seq<Packet>, from: nat, cfg: Config): Inbox
    requires Takeable(ps, from, cfg)
  {
    if ps == [] then s else PacketInbox(InboxAfter(s, ps[..|ps| - 1], from, cfg), ps[|ps| - 1])
  }

  /** What they bring, packet by packet. */
  function AllMessages(ps: seq<Packet>, from: nat, cfg: Config): (g: seq<seq<bytes>>)
    requires Takeable(ps, from, cfg)
    ensures |g| == |ps|
  {
    if ps == [] then [] else AllMessages(ps[..|ps| - 1], from, cfg) + [Messages(ps[|ps| - 1])]
  }

  function Numbers(ps: seq<Packet>, from: nat, cfg: Config): (ns: seq<nat>)
    requires Takeable(ps, from, cfg)
    ensures |ns| == |ps|
  {
    if ps == [] then [] else Numbers(ps[..|ps| - 1], from, cfg) + [ps[|ps| - 1].packNo]
  }

  /** The session has accepted exactly these packets, each once and in order. */
  ghost predicate Got(t: Trace, s: Session, ps: seq<Packet>, cfg: Config)
    requires Takeable(ps, s.packRef, cfg)
  {
    && t.s.online && t.s.inbox == InboxAfter(s.inbox, ps, s.packRef, cfg) && t.s.packRef == NewestNumber(ps, s.packRef)
    && t.accepted == Numbers(ps, s.packRef, cfg) && t.delivered == AllMessages(ps, s.packRef, cfg)
  }

  /** What is sent stays within the send buffer. */
  predicate Quiet(e: Event, length: nat) {
    e.Flush? ==> |e.packet| <= length
  }

  /** An aside touches nothing of the receive half but the message list. */
  lemma AsideKeeps(s: Session, cfg: Config, e: Event)
    requires ValidSession(s) && s.online && ValidEvent(e) && Aside(e, cfg, s)
    ensures var o := Next(s, cfg, e);
            && o.Outcome? && o.ret == -1 && |o.s.outbox.buf| == |s.outbox.buf|
            && o.s == s.(msgs := [], outbox := o.s.outbox, sendDataSize := o.s.sendDataSize)
  {
    hide U16, U32, Signed16, CrcMatches, Deliver1;
  }

  /** While files can be opened, what arrives is an aside if and only if it is neither accepted nor the end
      of the connection nor a fault. */
  lemma AsideExactly(s: Session, cfg: Config, e: Event)
    requires ValidSession(s) && s.online && ValidEvent(e) && e.Arrive? && e.env.openTemp && e.env.openFile
    ensures var o := Next(s, cfg, e);
            Aside(e, cfg, s) <==> o.Outcome? && o.ret != 0 && o.s.online
  {
    hide U16, U32, Signed16, CrcMatches, Deliver1;
    if Aside(e, cfg, s) {
      AsideKeeps(s, cfg, e);
    } else if e.body.Some? && U32(e.hdr, 8) >= 4 {
      var frame := e.hdr + e.body.value;
      if Deliver1(s.(msgs := []), U16(e.hdr, 0), U32(e.hdr, 4), frame, e.env).Outcome? {
        DeliverKeeps(s.(msgs := []), U16(e.hdr, 0), U32(e.hdr, 4), frame, e.env);
      }
    }
  }

  /** Sending and asides leave what was received alone. */
  lemma GotStays(t: Trace, s: Session, cfg: Config, e: Event, ps: seq<Packet>, length: nat)
    requires ValidSession(t.s) && ValidEvent(e) && !t.faulted && (!e.Arrive? || Aside(e, cfg, t.s))
    requires Takeable(ps, s.packRef, cfg) && Got(t, s, ps, cfg) && |t.s.outbox.buf| == length
    ensures var t' := Extend(t, cfg, e);
            if Quiet(e, length) then !t'.faulted && Got(t', s, ps, cfg) && |t'.s.outbox.buf| == length
            else t'.faulted
  {
    hide Handle, Aside, Takeable;
    if e.Arrive? {
      AsideKeeps(t.s, cfg, e);
    } else if e.Call? {
      SendDataAccepts(t.s.outbox, e.m);
    }
  }

  /** The last packet is accepted. */
  lemma {:induction false} GotMore(t: Trace, s: Session, cfg: Config, e: Event, ps: seq<Packet>, length: nat)
    requires ps != [] && Takeable(ps, s.packRef, cfg)
    requires ValidSession(t.s) && !t.faulted && |t.s.outbox.buf| == length && Got(t, s, ps[..|ps| - 1], cfg)
    requires Brings(e, ps[|ps| - 1]) && StillTaken(t.s, cfg, ps[|ps| - 1].kind)
    ensures ValidEvent(e)
    ensures var t' := Extend(t, cfg, e);
            !t'.faulted && |t'.s.outbox.buf| == length && Got(t', s, ps, cfg)
  {
    hide Encode, Handle, Readable, PacketSized, StillTaken, Messages, PacketInbox, U32, CanOpen;
    var p := ps[|ps| - 1];
    PacketAccepted(t.s, cfg, p, e.env);
    assert Next(t.s, cfg, e) == Outcome(Accepted(t.s, p, cfg), 0, []);
  }

  /** A fault leaves the state as it was. */
  lemma FaultedStays(t: Trace, cfg: Config, e: Event)
    requires ValidSession(t.s) && ValidEvent(e)
    ensures Extend(t, cfg, e).faulted && !t.faulted ==> Extend(t, cfg, e).s == t.s
  {
    hide Next;
  }

  lemma BringsQuiet(e: Event, p: Packet, length: nat)
    requires Brings(e, p)
    ensures Quiet(e, length)
  {
  }

  /** The packets of any run, however many, each still taken when it arrives, and with anything sent the
      other way and any asides in between, duplicates and damaged copies of these very packets included:
      all are accepted, once, under their numbers, and what they bring is delivered packet by packet. Only
      a packet sent the other way that leaves the send buffer can end the run early. */
  lemma {:induction false} AllReceived(ps: seq<Packet>, s: Session, cfg: Config, es: seq<Event>)
    requires ValidSession(s) && s.online && AllValid(es)
    requires Takeable(ps, s.packRef, cfg) && Carries(s, cfg, es, ps)
    ensures var t := Run(s, cfg, es);
            && |t.s.outbox.buf| == |s.outbox.buf|
            && (t.faulted || Got(t, s, ps, cfg))
            && (t.faulted <==> exists e :: e in es && !Quiet(e, |s.outbox.buf|))
    decreases |es|
  {
    hide Brings, Extend, Aside, StillTaken, Readable, PacketSized;
    if es != [] {
      var n, e, m := |es| - 1, es[|es| - 1], |ps| - 1;
      FrontAndLast(es);
      var length := |s.outbox.buf|;
      var t := Run(s, cfg, es[..n]);
      if (!e.Arrive? || Aside(e, cfg, t.s)) && Carries(s, cfg, es[..n], ps) {
        AllReceived(ps, s, cfg, es[..n]);
        if !t.faulted {
          GotStays(t, s, cfg, e, ps, length);
          FaultedStays(t, cfg, e);
        }
      } else {
        AllReceived(ps[..m], s, cfg, es[..n]);
        if !t.faulted {
          GotMore(t, s, cfg, e, ps, length);
        }
        BringsQuiet(e, ps[m], length);
      }
    }
  }

  // ---- Asking again ---------------------------------------------------------------------------

  /** What each aside is answered with. */
  lemma AsideAnswer(s: Session, cfg: Config, e: Event)
    requires ValidSession(s) && s.online && ValidEvent(e) && Aside(e, cfg, s)
    ensures var kind, packNo := U16(e.hdr, 0), U32(e.hdr, 4);
            Next(s, cfg, e).reply ==
            if kind == REGISTER then Registered(s, e.env.regCode, e.env.regRead).reply
            else if kind == RETRASMIT then LastBatch(s)
            else if DataKind(kind) && packNo > s.packRef then AskAgain(packNo)
            else []
  {
    hide U16, U32, Signed16, CrcMatches, Deliver1, AskAgain;
  }

  /** A frame that arrives whole. */
  function Whole(frame: bytes, env: Env): Event
    requires SHORT_HEADER <= |frame|
  {
    Arrive(frame[..SHORT_HEADER], Some(frame[SHORT_HEADER..]), env)
  }

  /** The receiver's side: it asks for a damaged packet again, and then accepts a copy as it would have
      accepted the packet. */
  lemma {:induction false} AsksAndAccepts(b: Session, cfg: Config, p: Packet, frame: bytes, env: Env)
    requires ValidSession(b) && b.online && StillTaken(b, cfg, p.kind) && CanOpen(p, env)
    requires Readable(p, cfg) && PacketSized(p) && b.packRef < p.packNo
    requires |frame| == |Encode(p)| && frame[..HEADER] == Encode(p)[..HEADER]
    requires Corrupted(Gf2.Difference(Words.MessageBits(Encode(p)[HEADER..]), Words.MessageBits(frame[HEADER..])))
    ensures ValidEvent(Whole(frame, env)) && ValidEvent(Whole(Encode(p), env))
    ensures var damaged := Next(b, cfg, Whole(frame, env));
            && damaged == Outcome(b.(msgs := []), -1, AskAgain(p.packNo))
            && Next(damaged.s, cfg, Whole(Encode(p), env)) == Outcome(Accepted(damaged.s, p, cfg), 0, [])
  {
    hide Encode, Handle, U32, AskAgain, Corrupted, StillTaken, Readable, PacketSized, CanOpen, Accepted, Body;
    ReadableParts(p, cfg);
    DamagedPacketIsAskedForAgain(b, cfg, p, frame, env);
    SameTaken(b, cfg, p.kind);
    PacketAccepted(b.(msgs := []), cfg, p, env);
  }

  /** The sender's side: the request makes it repeat the packet byte for byte, however many harmless events
      have passed since it was sent. */
  lemma {:induction false} RepeatsOnRequest(a: Session, cfg: Config, packet: bytes, es: seq<Event>, n: nat, env: Env)
    requires ValidSession(a) && 0 < |packet| <= |a.outbox.buf| && n < U32_LIMIT
    requires forall i :: 0 <= i < |es| ==> ValidEvent(es[i]) && Harmless(es[i], |packet|)
    ensures ValidSession(Next(a, cfg, Flush(packet)).s) && ValidEvent(Arrive(AskAgain(n), None, env))
    ensures var sender := Run(Next(a, cfg, Flush(packet)).s, cfg, es).s;
            sender.online ==>
              Next(sender, cfg, Arrive(AskAgain(n), None, env)) == Outcome(sender.(msgs := []), -1, packet)
  {
    hide Handle, U32, AskAgain, Harmless, Run;
    RetransmitFidelity(a, cfg, packet, es);
    RepeatRequest(Run(Next(a, cfg, Flush(packet)).s, cfg, es).s, cfg, n, env);
  }

  /** A packet that is damaged on its way gets through all the same: what its receiver writes, given to its
      sender, brings the packet again, and the copy is accepted. */
  lemma {:induction false} DamagedPacketGetsThrough(a: Session, b: Session, cfgA: Config, cfgB: Config, p: Packet,
      es: seq<Event>, frame: bytes, env: Env, envA: Env)
    requires ValidSession(a) && |Encode(p)| <= |a.outbox.buf|
    requires forall i :: 0 <= i < |es| ==> ValidEvent(es[i]) && Harmless(es[i], |Encode(p)|)
    requires ValidSession(b) && b.online && StillTaken(b, cfgB, p.kind) && CanOpen(p, env)
    requires Readable(p, cfgB) && PacketSized(p) && b.packRef < p.packNo
    requires |frame| == |Encode(p)| && frame[..HEADER] == Encode(p)[..HEADER]
    requires Corrupted(Gf2.Difference(Words.MessageBits(Encode(p)[HEADER..]), Words.MessageBits(frame[HEADER..])))
    ensures ValidEvent(Whole(frame, env)) && ValidSession(Next(a, cfgA, Flush(Encode(p))).s)
    ensures var sender, asked := Run(Next(a, cfgA, Flush(Encode(p))).s, cfgA, es).s, Next(b, cfgB, Whole(frame, env));
            && asked.Outcome? && ValidSession(asked.s) && asked.s == b.(msgs := [])
            && ValidEvent(Arrive(asked.reply, None, envA))
            && (sender.online ==>
                  && var copy := Next(sender, cfgA, Arrive(asked.reply, None, envA));
                     && copy.Outcome? && SHORT_HEADER <= |copy.reply| && ValidEvent(Whole(copy.reply, env))
                     && Next(asked.s, cfgB, Whole(copy.reply, env)) == Outcome(Accepted(asked.s, p, cfgB), 0, []))
  {
    hide Encode, Next, U32, AskAgain, Harmless, Corrupted, Run, StillTaken, Readable, PacketSized, CanOpen, Accepted,
        Body, ValidEvent, Whole;
    ReadableParts(p, cfgB);
    AsksAndAccepts(b, cfgB, p, frame, env);
    RepeatsOnRequest(a, cfgA, Encode(p), es, p.packNo, envA);
  }

  lemma ReadableParts(p: Packet, cfg: Config)
    requires Readable(p, cfg)
    ensures Encodable(p) && DataKind(p.kind) && 0 <= p.from < cfg.maxConnection && p.from < 0x8000
  {
  }

  lemma SameTaken(s: Session, cfg: Config, kind: int)
    ensures StillTaken(s.(msgs := []), cfg, kind) == StillTaken(s, cfg, kind)
  {
  }

  // ---- The end of a one-time conversation -----------------------------------------------------

  /** After its confirm a one-time server takes packets with chunks and drops the connection on any other;
      any other server goes on as before. */
  lemma {:induction false} AfterConfirm(s: Session, cfg: Config, p: Packet, env: Env)
    requires ValidSession(s) && s.online && CanOpen(p, env)
    requires Readable(p, cfg) && PacketSized(p) && s.packRef < p.packNo
    ensures var c := Next(s, cfg, Acknowledge);
            var chunk := HasBit(p.kind, KIND_BIG) || HasBit(p.kind, KIND_FILE);
            && c.Outcome? && ValidSession(c.s) && c.reply == Confirm(s.packRef)
            && U32(Encode(p)[..SHORT_HEADER], 8) == |Encode(p)[SHORT_HEADER..]|
            && Next(c.s, cfg, Arrive(Encode(p)[..SHORT_HEADER], Some(Encode(p)[SHORT_HEADER..]), env))
               == if cfg.oneTime && !chunk then Outcome(c.s.(msgs := [], online := false), -1, [])
                  else Outcome(Accepted(c.s, p, cfg), 0, [])
  {
    hide Encode, Handle, Confirm, Readable, PacketSized, HasBit, U32, Accepted;
    AcceptedExactly(Next(s, cfg, Acknowledge).s, cfg, p, env);
  }

  // ---- Big data -------------------------------------------------------------------------------

  /** The chunks of the packets that carry big data. */
  function BigTails(ps: seq<Packet>): (ts: seq<bytes>)
    ensures forall i :: 0 <= i < |ts| ==> |ts[i]| >= 8
  {
    if ps == [] then []
    else
      var n := |ps| - 1;
      BigTails(ps[..n]) + if HasBit(ps[n].kind, KIND_BIG) && |ps[n].tail| >= 8 then [ps[n].tail] else []
  }

  lemma ReadableTail(p: Packet, cfg: Config)
    requires Readable(p, cfg)
    ensures HasBit(p.kind, KIND_BIG) ==> |p.tail| >= 8
    ensures HasBit(p.kind, KIND_FILE) ==> FileChunk(p.tail)
  {
  }

  /** The temporary file depends on itself and the chunk alone, and a file chunk leaves it alone. */
  lemma SameTemp(a: Inbox, b: Inbox, t: bytes)
    requires |t| >= 8 && a.temp == b.temp && a.bigReady == b.bigReady
    ensures var a', b' := ReceiveBig(a, t, true).0, ReceiveBig(b, t, true).0;
            a'.temp == b'.temp && a'.bigReady == b'.bigReady
  {
  }

  lemma FileLeavesTemp(a: Inbox, t: bytes)
    requires FileChunk(t)
    ensures ReceiveFile(a, t, true).0.temp == a.temp && ReceiveFile(a, t, true).0.bigReady == a.bigReady
  {
    hide CString;
  }

  lemma {:induction false} TempAfter(s: Inbox, ps: seq<Packet>, from: nat, cfg: Config)
    requires Takeable(ps, from, cfg)
    ensures var a, b := InboxAfter(s, ps, from, cfg), ReceiveBigAll(s, BigTails(ps));
            && a.temp == b.temp && a.bigReady == b.bigReady
            && ((forall i :: 0 <= i < |ps| ==> !HasBit(ps[i].kind, KIND_FILE)) ==> a == b)
  {
    hide ReceiveBig, ReceiveFile, HasBit, Readable, FileChunk, PacketSized;
    if ps != [] {
      var n := |ps| - 1;
      ReadableTail(ps[n], cfg);
      TempAfter(s, ps[..n], from, cfg);
      var a, b, p := InboxAfter(s, ps[..n], from, cfg), ReceiveBigAll(s, BigTails(ps[..n])), ps[n];
      if HasBit(p.kind, KIND_BIG) {
        SameTemp(a, b, p.tail);
        var ts := BigTails(ps);
        assert ts[..|ts| - 1] == BigTails(ps[..n]);
      } else {
        assert BigTails(ps) == BigTails(ps[..n]);
      }
      if HasBit(p.kind, KIND_FILE) {
        FileLeavesTemp(if HasBit(p.kind, KIND_BIG) then ReceiveBig(a, p.tail, true).0 else a, p.tail);
      }
    }
  }

  /** The temporary file is what these chunks contribute from chunk h on, and bigDataReady is up if and only
      if one of them carried END. */
  predicate BigDataIs(s: Inbox, ts: seq<bytes>, h: nat)
    requires h < |ts| && forall i :: 0 <= i < |ts| ==> |ts[i]| >= 8
  {
    s.temp == Flatten(Payloads(ts[h..])) && (s.bigReady <==> exists i :: h <= i < |ts| && HasEnd(ts[i]))
  }

  /** Over any run of packets, with file chunks among them and anything in between, the temporary file and
      bigDataReady are what the big-data chunks from the last HEADER on make them. The byte count, which
      file transfers share, agrees when there are none. */
  lemma {:induction false} BigDataArrives(ps: seq<Packet>, s: Session, cfg: Config, es: seq<Event>, h: nat)
    requires ValidSession(s) && s.online && AllValid(es)
    requires Takeable(ps, s.packRef, cfg) && Carries(s, cfg, es, ps)
    requires h < |BigTails(ps)| && HasHeader(BigTails(ps)[h])
    requires forall i :: h < i < |BigTails(ps)| ==> !HasHeader(BigTails(ps)[i])
    ensures var t, ts := Run(s, cfg, es), BigTails(ps);
            t.faulted ||
            (&& BigDataIs(t.s.inbox, ts, h)
             && ((forall i :: 0 <= i < |ps| ==> !HasBit(ps[i].kind, KIND_FILE)) ==>
                   Collected(t.s.inbox, Flatten(Payloads(ts[h..])), ts[h])))
  {
    hide Run, Carries, InboxAfter, HasHeader, HasEnd, HasBit, Payloads, Flatten, Takeable;
    AllReceived(ps, s, cfg, es);
    TempAfter(s.inbox, ps, s.packRef, cfg);
    BigDataReassembly(s.inbox, BigTails(ps), h);
    BigDataReady(s.inbox, BigTails(ps), h);
  }
}
