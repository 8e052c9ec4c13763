/** The receive half of Client_t and processMessageBuffer, over a socket that may split the stream in
    any way, proved against the session on values. */
module Receiver {
  import opened Bytes
  import opened CrcTables
  import opened Files
  import opened Fragments
  import opened Link
  import opened Packets
  import S = Sender
  import opened Session
  import opened Slots
  import opened Words

  lemma HalfOfHalf(x: nat, h: nat, q: nat, b: nat, c: nat)
    requires x == 2 * h + b && h == 2 * q + c && b < 2 && c < 2
    ensures x / 4 == q
  {
  }

  lemma LastThree(x: nat, q: nat, a: nat, b: nat, c: nat)
    requires x == 8 * q + 4 * c + 2 * b + a && a < 2 && b < 2 && c < 2
    ensures x % 8 == 4 * c + 2 * b + a
  {
  }

  /** The three flag bits tested one at a time. */
  lemma FlagBits(flags: nat)
    ensures flags % 8 == 0 <==> flags % 2 == 0 && (flags / 2) % 2 == 0 && (flags / 4) % 2 == 0
  {
    var h, a := flags / 2, flags % 2;
    var q, b := h / 2, h % 2;
    HalfOfHalf(flags, h, q, a, b);
    LastThree(flags, q / 2, a, b, q % 2);
  }

  /** The headers behind which a body is read. */
  predicate TakesBody(cfg: Config, hdr: bytes)
    requires |hdr| == SHORT_HEADER
  {
    var kind, from := U16(hdr, 0), Signed16(U16(hdr, 2));
    && kind != REGISTER && kind != RETRASMIT && kind != PING && kind % 16 != 0
    && 0 <= from < cfg.maxConnection && U32(hdr, 8) <= BUFFER_SIZE
  }

  /** What a call took from the stream: all the announced bytes, or, on a connection that was not cut
      off, everything there was. */
  ghost predicate Arrived(hdr: bytes, body: Option<bytes>, before: bytes, after: bytes, orderly: bool)
    requires |hdr| == SHORT_HEADER
  {
    var size := U32(hdr, 8);
    && (body.Some? ==> body.value + after == before)
    && (orderly ==> (body.Some? <==> size <= |before|))
    && (orderly && body.None? ==> after == [])
  }

  /** The bytes that a read took which returned n. */
  function BytesTaken(n: int): nat {
    if n < 0 then 0 else n
  }

  /** What a call took from the stream behind the header; a registration takes what its one read got. */
  ghost predicate Took(cfg: Config, hdr: bytes, body: Option<bytes>, regRead: int, before: bytes, after: bytes,
      orderly: bool)
    requires |hdr| == SHORT_HEADER
  {
    && (body.Some? ==> |body.value| == U32(hdr, 8))
    && (TakesBody(cfg, hdr) ==> Arrived(hdr, body, before, after, orderly))
    && (!TakesBody(cfg, hdr) ==> body == None)
    && (!TakesBody(cfg, hdr) && U16(hdr, 0) != REGISTER ==> after == before)
    && (U16(hdr, 0) == REGISTER ==> BytesTaken(regRead) <= |before| && after == before[BytesTaken(regRead)..])
  }

  lemma LengthOfFrame(now: bytes, hdr: bytes, body: Option<bytes>)
    requires |hdr| <= |now|
    requires body.Some? ==>
               |hdr| + |body.value| <= |now| && now[..|hdr| + |body.value|] == hdr + body.value
    ensures body.Some? ==> now[..|hdr + body.value|] == hdr + body.value
  {
  }

  /** Less is said of a stream that may have been cut off. */
  lemma TookLess(cfg: Config, hdr: bytes, body: Option<bytes>, regRead: int, before: bytes, after: bytes,
      orderly: bool, less: bool)
    requires |hdr| == SHORT_HEADER && Took(cfg, hdr, body, regRead, before, after, orderly) && (less ==> orderly)
    ensures Took(cfg, hdr, body, regRead, before, after, less)
  {
  }

  /** The messages of the packet before play no part. */
  lemma HandleClears(s: Session, cfg: Config, hdr: bytes)
    requires ValidSession(s) && |hdr| == SHORT_HEADER
    ensures forall body: Option<bytes>, env: Env | body.Some? ==> |body.value| == U32(hdr, 8) ::
              Handle(s.(msgs := []), cfg, hdr, body, env) == Handle(s, cfg, hdr, body, env)
  {
  }

  lemma ReadBehindHeader(was: bytes, now: bytes, hdr: bytes, got: bytes)
    requires |hdr| == SHORT_HEADER && |hdr| + |got| <= |was| && was[..SHORT_HEADER] == hdr
    requires now == Splice(was, SHORT_HEADER, got)
    ensures now[..|hdr + got|] == hdr + got
  {
  }

  lemma TailFacts(frame: bytes)
    requires HEADER <= |frame| && TailOf(frame).Some?
    ensures var n := Signed16(U16(frame, 14));
            && 0 <= n && HEADER + 2 * n <= |frame|
            && DataOffset(frame, n, 0) == HEADER + 2 * n
            && DataOffset(frame, n, n) <= |frame| && DataOffset(frame, n, n) < U16_LIMIT
            && TailOf(frame).value == frame[DataOffset(frame, n, n)..]
            && HEADER + 2 * n <= DataOffset(frame, n, n)
  {
  }

  lemma TailStep(frame: bytes, n: nat, i: nat)
    requires i < n && HEADER + 2 * n <= |frame| && DataOffset(frame, n, n) < U16_LIMIT
    ensures DataOffset(frame, n, i + 1) == DataOffset(frame, n, i) + U16(frame, HEADER + 2 * i) % SIZE_LIMIT < U16_LIMIT
  {
    DataOffsetMonotone(frame, n, i + 1, n);
  }

  lemma SliceOfPrefix(b: bytes, frame: bytes, at: nat)
    requires at <= |frame| <= |b| && b[..|frame|] == frame
    ensures b[at..|frame|] == frame[at..]
  {
  }

  lemma StartTable(frame: bytes, n: nat)
    requires HEADER + 2 * n <= |frame|
    ensures DataOffset(frame, n, 0) == HEADER + 2 * n
    ensures Regroup([], []) == Some([])
  {
  }

  lemma ExtendedAt(g: seq<bytes>, data: bytes)
    requires g != []
    ensures forall j :: 0 <= j < |g| - 1 ==> ExtendLast(g, data)[j] == g[j]
    ensures ExtendLast(g, data)[|g| - 1] == g[|g| - 1] + data
  {
  }

  lemma ExtendNew(g: seq<bytes>, data: bytes)
    ensures ExtendLast(g + [[]], data) == g + [data]
  {
    assert [] + data == data;
  }

  lemma {:induction false} ReadStep(frame: bytes, n: nat, i: nat, tags: seq<nat>, datas: seq<bytes>)
    requires i < n && HEADER + 2 * n <= |frame| && DataOffset(frame, n, n) <= |frame|
    requires tags == ReadTags(frame, n) && datas == ReadDatas(frame, n)
    ensures var e := U16(frame, HEADER + 2 * i);
            var at := DataOffset(frame, n, i);
            && tags[i] == e / SIZE_LIMIT && DataOffset(frame, n, i + 1) == at + e % SIZE_LIMIT <= |frame|
            && frame[at..at + e % SIZE_LIMIT] == datas[i]
    ensures Regroup(tags[..i + 1], datas[..i + 1]) ==
            match Regroup(tags[..i], datas[..i])
            case None => None
            case Some(g) =>
              if tags[i] != (if i == 0 then 1 else tags[i - 1]) then Some(g + [datas[i]])
              else if g == [] then None
              else Some(ExtendLast(g, datas[i]))
  {
    hide Regroup, ExtendLast;
    DataOffsetMonotone(frame, n, i + 1, n);
    RegroupOne(tags[..i], datas[..i], tags[i], datas[i]);
    assert tags[..i + 1] == tags[..i] + [tags[i]] && datas[..i + 1] == datas[..i] + [datas[i]];
  }

  /** Further entries take away no message. */
  lemma {:induction false} RegroupGrows(tags: seq<nat>, datas: seq<bytes>, i: nat)
    requires |tags| == |datas| && i <= |tags| && Regroup(tags[..i], datas[..i]).Some?
    ensures Regroup(tags, datas).Some? ==> |Regroup(tags[..i], datas[..i]).value| <= |Regroup(tags, datas).value|
    decreases |tags| - i
  {
    hide Regroup, ExtendLast;
    if i == |tags| {
      assert tags[..i] == tags && datas[..i] == datas;
    } else {
      RegroupOne(tags[..i], datas[..i], tags[i], datas[i]);
      assert tags[..i + 1] == tags[..i] + [tags[i]] && datas[..i + 1] == datas[..i] + [datas[i]];
      if Regroup(tags[..i + 1], datas[..i + 1]) == None {
        RegroupFails(tags, datas, i + 1);
      } else {
        RegroupGrows(tags, datas, i + 1);
      }
    }
  }

  /** Once the receiver has gone wrong it stays wrong. */
  lemma {:induction false} RegroupFails(tags: seq<nat>, datas: seq<bytes>, i: nat)
    requires |tags| == |datas| && i <= |tags| && Regroup(tags[..i], datas[..i]) == None
    ensures Regroup(tags, datas) == None
    decreases |tags| - i
  {
    if i == |tags| {
      assert tags[..i] == tags && datas[..i] == datas;
    } else {
      RegroupOne(tags[..i], datas[..i], tags[i], datas[i]);
      assert tags[..i + 1] == tags[..i] + [tags[i]] && datas[..i + 1] == datas[..i] + [datas[i]];
      RegroupFails(tags, datas, i + 1);
    }
  }

  class Client {
    const sender: S.Sender
    const recvBuffer: array<byte>
    const recvBufferMSG: array<nat> // offsets into recvBuffer
    const recvBufferMSGSize: array<nat>
    var recvCount: nat
    var packRef: nat
    var online: bool
    var sendDone: bool
    var inbox: Inbox // bigDataReady, fileDataReady, bigDataReadSize, bigDataReadSizeDone and the files
    ghost var msgs: seq<bytes>

    /** A slot as AcceptConnection leaves it. */
    constructor (sender: S.Sender, length: nat, inbox: Inbox)
      requires BUFFER_SIZE + SHORT_HEADER <= length && sender.Valid()
      ensures Valid() && this.sender == sender && this.inbox == inbox
      ensures View() == Session(0, true, false, [], inbox, sender.Box(), sender.sendDataSize)
      ensures fresh(recvBuffer) && fresh(recvBufferMSG) && fresh(recvBufferMSGSize)
    {
      this.sender, this.inbox := sender, inbox;
      recvBuffer := new byte[length](_ => 0);
      recvBufferMSG := new nat[MAX_BLOCKS](_ => 0);
      recvBufferMSGSize := new nat[MAX_BLOCKS](_ => 0);
      packRef, online, sendDone, recvCount, msgs := 0, true, false, 0, [];
    }

    ghost predicate ValidArrays() {
      && recvBufferMSG != recvBufferMSGSize
      && recvBufferMSG.Length == recvBufferMSGSize.Length == MAX_BLOCKS
      && BUFFER_SIZE + SHORT_HEADER <= recvBuffer.Length
    }

    /** The message arrays point at these messages. */
    ghost predicate Points(g: seq<bytes>)
      reads recvBuffer, recvBufferMSG, recvBufferMSGSize
    {
      && |g| <= recvBufferMSG.Length && |g| <= recvBufferMSGSize.Length
      && forall k :: 0 <= k < |g| ==>
           && recvBufferMSG[k] + recvBufferMSGSize[k] <= recvBuffer.Length
           && recvBuffer[recvBufferMSG[k]..recvBufferMSG[k] + recvBufferMSGSize[k]] == g[k]
    }

    method StartMessage(k: nat, at: nat, ghost g: seq<bytes>)
      requires ValidArrays() && Points(g) && k == |g| < MAX_BLOCKS && at <= recvBuffer.Length
      modifies recvBufferMSG, recvBufferMSGSize
      ensures Points(g + [[]])
      ensures recvBufferMSG[k] == at && recvBufferMSGSize[k] == 0
    {
      recvBufferMSG[k] := at;
      recvBufferMSGSize[k] := 0;
    }

    method GrowMessage(k: nat, at: nat, size: nat, ghost g: seq<bytes>, ghost data: bytes)
      requires ValidArrays() && Points(g) && k + 1 == |g|
      requires recvBufferMSG[k] + recvBufferMSGSize[k] == at && at + size <= recvBuffer.Length
      requires recvBuffer[at..at + size] == data
      modifies recvBufferMSGSize
      ensures recvBufferMSG[k] + recvBufferMSGSize[k] == at + size
      ensures Points(ExtendLast(g, data))
    {
      hide ExtendLast;
      ghost var from := recvBufferMSG[k];
      recvBufferMSGSize[k] := recvBufferMSGSize[k] + size;
      assert recvBuffer[from..at] + data == recvBuffer[from..at + size];
      ExtendedAt(g, data);
    }

    /** One entry of the size table: a change of tag starts a message, which the entry's fragment then
        extends. False when there is no message to extend, or no place for another. */
    method TakeEntry(e: nat, at: nat, continuePack: int, curPacket: int, ghost g: seq<bytes>, ghost data: bytes)
      returns (cur: int, ok: bool)
      requires ValidArrays() && Points(g) && |g| == curPacket + 1
      requires curPacket >= 0 ==> recvBufferMSG[curPacket] + recvBufferMSGSize[curPacket] == at
      requires at + e % SIZE_LIMIT <= recvBuffer.Length && recvBuffer[at..at + e % SIZE_LIMIT] == data
      modifies recvBufferMSG, recvBufferMSGSize
      ensures ok <==> if continuePack != e / SIZE_LIMIT then |g| < MAX_BLOCKS else g != []
      ensures cur == if continuePack != e / SIZE_LIMIT then curPacket + 1 else curPacket
      ensures ok ==> Points(if continuePack != e / SIZE_LIMIT then g + [data] else ExtendLast(g, data))
      ensures ok ==> cur >= 0 && recvBufferMSG[cur] + recvBufferMSGSize[cur] == at + e % SIZE_LIMIT
    {
      hide Points, ExtendLast;
      cur := curPacket;
      ghost var g1 := g;
      if continuePack != e / SIZE_LIMIT {
        cur := curPacket + 1;
        if cur >= MAX_BLOCKS {
          return cur, false;
        }
        StartMessage(cur, at, g);
        ExtendNew(g, data);
        g1 := g + [[]];
      } else if curPacket < 0 {
        return cur, false;
      }
      GrowMessage(cur, at, e % SIZE_LIMIT, g1, data);
      ok := true;
    }

    /** The loop of _processMessagePacket over the size table. */
    method ProcessTable(n: nat, ghost frame: bytes, ghost tags: seq<nat>, ghost datas: seq<bytes>)
        returns (count: nat, ok: bool)
      requires ValidArrays() && |frame| <= recvBuffer.Length && recvBuffer[..|frame|] == frame
      requires HEADER + 2 * n <= |frame| && DataOffset(frame, n, n) <= |frame|
      requires tags == ReadTags(frame, n) && datas == ReadDatas(frame, n) && Points([])
      modifies recvBufferMSG, recvBufferMSGSize
      ensures ok <==> Regroup(tags, datas).Some? && |Regroup(tags, datas).value| <= MAX_BLOCKS
      ensures ok ==> count == |Regroup(tags, datas).value| && Points(Regroup(tags, datas).value)
    {
      hide ReadTags, ReadDatas, ExtendLast, U16, Points, DataOffset, Regroup;
      StartTable(frame, n);
      var continuePack, curPacket, at := 1, -1, HEADER + 2 * n;
      ghost var g: seq<bytes> := [];
      for i := 0 to n
        invariant at == DataOffset(frame, n, i)
        invariant Regroup(tags[..i], datas[..i]) == Some(g)
        invariant continuePack == if i == 0 then 1 else tags[i - 1]
        invariant |g| == curPacket + 1 <= MAX_BLOCKS
        invariant Points(g)
        invariant curPacket >= 0 ==> recvBufferMSG[curPacket] + recvBufferMSGSize[curPacket] == at
      {
        FieldInPrefix(frame, recvBuffer[..], HEADER + 2 * i);
        var e := U16(recvBuffer[..], HEADER + 2 * i);
        ReadStep(frame, n, i, tags, datas);
        assert recvBuffer[at..at + e % SIZE_LIMIT] == frame[at..at + e % SIZE_LIMIT];
        curPacket, ok := TakeEntry(e, at, continuePack, curPacket, g, datas[i]);
        if !ok {
          if Regroup(tags[..i + 1], datas[..i + 1]) == None {
            RegroupFails(tags, datas, i + 1);
          } else {
            RegroupGrows(tags, datas, i + 1);
          }
          return 0, false;
        }
        g := if continuePack != e / SIZE_LIMIT then g + [datas[i]] else ExtendLast(g, datas[i]);
        continuePack := e / SIZE_LIMIT;
        at := at + e % SIZE_LIMIT;
      }
      assert tags[..n] == tags && datas[..n] == datas;
      return curPacket + 1, true;
    }

    /** _processMessagePacket. False when the first tag is 1 or there are more than 64 messages: the
        source would then write before or behind the message array. */
    method ProcessMessagePacket(ghost frame: bytes) returns (ok: bool)
      requires ValidArrays() && |frame| <= recvBuffer.Length && recvBuffer[..|frame|] == frame
      requires WellFormed(frame) && recvCount == 0
      modifies this`recvCount, recvBufferMSG, recvBufferMSGSize
      ensures ok <==> ReadMessages(frame).Some?
      ensures ok ==> recvCount == |ReadMessages(frame).value| && Points(ReadMessages(frame).value)
    {
      FieldInPrefix(frame, recvBuffer[..], 14);
      var n := Signed16(U16(recvBuffer[..], 14));
      ok := true;
      if n > 0 {
        recvCount, ok := ProcessTable(n, frame, ReadTags(frame, n), ReadDatas(frame, n));
      }
    }

    /** Where the message part ends, added up from the size table in a u16. */
    method TailStart(ghost frame: bytes) returns (at: nat)
      requires |frame| <= recvBuffer.Length && recvBuffer[..|frame|] == frame && HEADER <= |frame|
      requires TailOf(frame).Some?
      ensures at <= |frame| && frame[at..] == TailOf(frame).value
    {
      hide TailOf, DataOffset, U16, Signed16, WellFormed;
      TailFacts(frame);
      FieldInPrefix(frame, recvBuffer[..], 14);
      var n := Signed16(U16(recvBuffer[..], 14));
      var packetDataSize := 0;
      for i := 0 to n
        invariant packetDataSize + HEADER + 2 * n == DataOffset(frame, n, i) < U16_LIMIT
      {
        FieldInPrefix(frame, recvBuffer[..], HEADER + 2 * i);
        TailStep(frame, n, i);
        var e := U16(recvBuffer[..], HEADER + 2 * i) % SIZE_LIMIT;
        assert packetDataSize + e < U16_LIMIT;
        packetDataSize := (packetDataSize + e) % U16_LIMIT;
      }
      at := (packetDataSize + HEADER + 2 * n) % U16_LIMIT;
    }

    /** _ProessMessageBigData on the bytes behind the message part */
    method ProcessBigData(t: bytes, openTemp: bool) returns (ok: bool)
      requires |t| >= 8
      modifies this`inbox
      ensures (inbox, ok) == ReceiveBig(old(inbox), t, openTemp)
    {
      hide U32;
      var flags, data := U32(t, 0), t[8..];
      FlagBits(flags);
      if flags % 2 == 1 {
        inbox := inbox.(bigReady := false, readSize := U32(t, 4), readDone := 0);
        if !openTemp {
          return false;
        }
        inbox := inbox.(temp := data, readDone := |data| % U32_LIMIT);
      } else if ((flags / 2) % 2 == 1 || (flags / 4) % 2 == 1) && openTemp {
        inbox := inbox.(temp := inbox.temp + data, readDone := (inbox.readDone + |data|) % U32_LIMIT);
      }
      if (flags / 4) % 2 == 1 {
        inbox := inbox.(bigReady := true);
      }
      return true;
    }

    /** _ProessMessageFileData on the bytes behind the message part */
    method ProcessFileData(t: bytes, openFile: bool) returns (ok: bool)
      requires FileChunk(t)
      modifies this`inbox
      ensures (inbox, ok) == ReceiveFile(old(inbox), t, openFile)
    {
      hide U32, CString;
      var flags := U32(t, 0);
      FlagBits(flags);
      if flags % 2 == 1 {
        inbox := inbox.(fileReady := false, readSize := U32(t, 4), readDone := 0, fileName := t[8..8 + NAME_SIZE]);
        if !openFile {
          return false;
        }
        var data := t[8 + NAME_SIZE..];
        inbox := inbox.(files := inbox.files[CString(inbox.fileName) := data], readDone := |data| % U32_LIMIT);
      } else if ((flags / 2) % 2 == 1 || (flags / 4) % 2 == 1) && openFile {
        var key, data := CString(inbox.fileName), t[8..];
        var before := if key in inbox.files then inbox.files[key] else [];
        inbox := inbox.(files := inbox.files[key := before + data], readDone := (inbox.readDone + |data|) % U32_LIMIT);
      }
      if flags == FLAG_END {
        inbox := inbox.(fileReady := true);
      }
      return true;
    }

    ghost predicate Valid()
      reads this, recvBuffer, recvBufferMSG, recvBufferMSGSize
      reads sender, sender.sendBuffer, sender.sendPacketNo, sender.sendBufferMSGSize
    {
      && ValidArrays() && sender.Valid()
      && recvBuffer != sender.sendBuffer && recvBuffer != sender.sendPacketNo
      && recvBufferMSG != sender.sendBufferMSGSize && recvBufferMSGSize != sender.sendBufferMSGSize
      && packRef < U32_LIMIT && recvCount == |msgs| && Points(msgs)
    }

    /** The session this object represents. */
    ghost function View(): (s: Session)
      requires Valid()
      reads this, recvBuffer, recvBufferMSG, recvBufferMSGSize
      reads sender, sender.sendBuffer, sender.sendPacketNo, sender.sendBufferMSGSize
      ensures ValidSession(s)
    {
      Session(packRef, online, sendDone, msgs, inbox, sender.Box(), sender.sendDataSize)
    }

    /** The file chunk, if the packet has one, and the packet's number. */
    method DeliverFilePart(kind: int, packNo: nat, size: nat, env: Env, ghost frame: bytes)
        returns (ret: int, fault: bool)
      requires Valid() && packNo < U32_LIMIT
      requires HEADER <= |frame| == SHORT_HEADER + size <= recvBuffer.Length && recvBuffer[..|frame|] == frame
      modifies this`inbox, this`packRef
      ensures fault <==> DeliverFile(old(View()), kind, packNo, frame, env).Fault?
      ensures !fault ==> Valid() && Outcome(View(), ret, []) == DeliverFile(old(View()), kind, packNo, frame, env)
    {
      hide TailOf, ReceiveFile, Points, FileChunk;
      if HasBit(kind, KIND_FILE) {
        var t := TailOf(recvBuffer[..SHORT_HEADER + size]);
        if t.None? || !FileChunk(t.value) {
          return 0, true;
        }
        var at := TailStart(frame);
        SliceOfPrefix(recvBuffer[..], frame, at);
        var ok := ProcessFileData(recvBuffer[at..SHORT_HEADER + size], env.openFile);
        if !ok {
          return -1, false;
        }
      }
      packRef := packNo;
      return 0, false;
    }

    /** The big-data chunk, if the packet has one, and the rest. */
    method DeliverBigPart(kind: int, packNo: nat, size: nat, env: Env, ghost frame: bytes)
        returns (ret: int, fault: bool)
      requires Valid() && packNo < U32_LIMIT
      requires HEADER <= |frame| == SHORT_HEADER + size <= recvBuffer.Length && recvBuffer[..|frame|] == frame
      modifies this`inbox, this`packRef
      ensures fault <==> DeliverBig(old(View()), kind, packNo, frame, env).Fault?
      ensures !fault ==> Valid() && Outcome(View(), ret, []) == DeliverBig(old(View()), kind, packNo, frame, env)
    {
      hide TailOf, ReceiveBig, Points, DeliverFile;
      if HasBit(kind, KIND_BIG) {
        var t := TailOf(recvBuffer[..SHORT_HEADER + size]);
        if t.None? || |t.value| < 8 {
          return 0, true;
        }
        var at := TailStart(frame);
        SliceOfPrefix(recvBuffer[..], frame, at);
        var ok := ProcessBigData(recvBuffer[at..SHORT_HEADER + size], env.openTemp);
        if !ok {
          return -1, false;
        }
      }
      ret, fault := DeliverFilePart(kind, packNo, size, env, frame);
    }

    /** The delivery of a packet that passed every check. */
    method DeliverPacket(kind: int, packNo: nat, size: nat, env: Env, ghost frame: bytes)
        returns (ret: int, fault: bool)
      requires Valid() && msgs == [] && packNo < U32_LIMIT
      requires HEADER <= |frame| == SHORT_HEADER + size <= recvBuffer.Length && recvBuffer[..|frame|] == frame
      modifies this`inbox, this`packRef, this`recvCount, this`msgs, recvBufferMSG, recvBufferMSGSize
      ensures fault <==> Deliver1(old(View()), kind, packNo, frame, env).Fault?
      ensures !fault ==> Valid() && Outcome(View(), ret, []) == Deliver1(old(View()), kind, packNo, frame, env)
    {
      hide WellFormed, ReadMessages, Points, DeliverBig;
      if HasBit(kind, KIND_MESSAGES) {
        if !WellFormed(recvBuffer[..SHORT_HEADER + size]) {
          return 0, true;
        }
        var ok := ProcessMessagePacket(frame);
        if !ok {
          return 0, true;
        }
        msgs := ReadMessages(frame).value;
      }
      ret, fault := DeliverBigPart(kind, packNo, size, env, frame);
    }

    /** What the object shows after a call that should leave session s and write reply: exactly that,
        or the same with the connection given up because the write failed. */
    ghost predicate Shows(s: Session, reply: bytes, sock: Socket, before: bytes, orderly: bool)
      requires Valid()
      reads this, recvBuffer, recvBufferMSG, recvBufferMSGSize, sock
      reads sender, sender.sendBuffer, sender.sendPacketNo, sender.sendBufferMSGSize
    {
      || (View() == s && sock.output == before + reply)
      || (!orderly && View() == s.(online := false))
    }

    /** Sends the request to repeat a packet. */
    method SendReTrasmit(packNo: nat, sock: Socket)
      requires Valid()
      modifies this`online, sock`output, sock`sendPlan
      ensures Valid() && Shows(old(View()), AskAgain(packNo), sock, old(sock.output), Orderly(old(sock.sendPlan)))
      ensures Orderly(old(sock.sendPlan)) ==> Orderly(sock.sendPlan)
    {
      hide Points;
      var n := sock.WriteTo(AskAgain(packNo));
      if n == 0 {
        online := false;
      }
    }

    /** The checks on a data packet that is wholly in the buffer, and its delivery. */
    method CheckAndDeliver(env: Env, table: array<nat>, sock: Socket, size: nat, ghost frame: bytes)
        returns (ret: int, fault: bool)
      requires Valid() && msgs == [] && IsTable(table[..], BitsOf(CRC16_POLY, 16))
      requires 4 <= size <= BUFFER_SIZE && |frame| == SHORT_HEADER + size && recvBuffer[..|frame|] == frame
      modifies this`inbox, this`packRef, this`recvCount, this`msgs, this`online, recvBufferMSG, recvBufferMSGSize
      modifies sock`output, sock`sendPlan
      ensures !fault ==> Valid()
      ensures CrcMatches(frame) ==>
                var d := Deliver1(old(View()), U16(frame, 0), U32(frame, 4), frame, env);
                (fault <==> d.Fault?) && (!fault ==> Outcome(View(), ret, []) == d && sock.output == old(sock.output))
      ensures !CrcMatches(frame) ==>
                !fault && ret == -1 &&
                Shows(old(View()), AskAgain(U32(frame, 4)), sock, old(sock.output), Orderly(old(sock.sendPlan)))
      ensures Orderly(old(sock.sendPlan)) ==> Orderly(sock.sendPlan)
    {
      hide U16, U32, Points, PacketCrc, IsTable, Deliver1, AskAgain;
      FieldInPrefix(frame, recvBuffer[..], 0);
      FieldInPrefix(frame, recvBuffer[..], 4);
      FieldInPrefix(frame, recvBuffer[..], 12);
      var covered := recvBuffer[HEADER..SHORT_HEADER + size];
      assert covered == frame[HEADER..];
      var crc16 := Crc16(covered, table, CRC16_POLY);
      PacketCrcIs(covered, crc16);
      var packNo := U32(recvBuffer[..], 4);
      if crc16 != U16(recvBuffer[..], 12) {
        SendReTrasmit(packNo, sock);
        return -1, false;
      }
      ret, fault := DeliverPacket(U16(recvBuffer[..], 0), packNo, size, env, frame);
    }

    /** The body of a data packet, behind the header in the buffer. */
    method ReadBody(size: nat, sock: Socket, ghost hdr: bytes) returns (complete: bool, ghost body: Option<bytes>)
      requires Valid() && msgs == [] && size <= BUFFER_SIZE
      requires |hdr| == SHORT_HEADER && recvBuffer[..SHORT_HEADER] == hdr && U32(hdr, 8) == size
      modifies recvBuffer, sock`input, sock`recvPlan
      ensures Valid() && View() == old(View())
      ensures recvBuffer[..SHORT_HEADER] == hdr && complete == body.Some?
      ensures body.Some? ==> |body.value| == size && recvBuffer[..SHORT_HEADER + size] == hdr + body.value
      ensures Arrived(hdr, body, old(sock.input), sock.input, Orderly(old(sock.recvPlan)))
      ensures Orderly(old(sock.recvPlan)) ==> Orderly(sock.recvPlan)
    {
      ghost var was := recvBuffer[..];
      var readSize;
      ghost var got;
      readSize, got := sock.ReadFrom(recvBuffer, SHORT_HEADER, size);
      body := if |got| == size then Some(got) else None;
      complete := readSize == size;
      ReadBehindHeader(was, recvBuffer[..], hdr, got);
      assert recvBuffer[..SHORT_HEADER] == recvBuffer[..][..|hdr + got|][..SHORT_HEADER];
    }

    /** What becomes of a data packet once its body has been read, whether or not it is wanted. */
    method JudgeData(cfg: Config, env: Env, table: array<nat>, sock: Socket, complete: bool, ghost hdr: bytes,
        ghost body: Option<bytes>)
      returns (ret: int, fault: bool)
      requires Valid() && msgs == [] && IsTable(table[..], BitsOf(CRC16_POLY, 16))
      requires |hdr| == SHORT_HEADER && recvBuffer[..SHORT_HEADER] == hdr && U32(hdr, 8) <= BUFFER_SIZE
      requires complete == body.Some?
      requires body.Some? ==> |body.value| == U32(hdr, 8) && recvBuffer[..|hdr + body.value|] == hdr + body.value
      modifies this`inbox, this`packRef, this`recvCount, this`msgs, this`online, recvBufferMSG, recvBufferMSGSize
      modifies sock`output, sock`sendPlan
      ensures fault <==> HandleData(old(View()), cfg, hdr, body, env).Fault?
      ensures !fault ==> Valid() && ret == HandleData(old(View()), cfg, hdr, body, env).ret
      ensures !fault ==>
                var o := HandleData(old(View()), cfg, hdr, body, env);
                Shows(o.s, o.reply, sock, old(sock.output), Orderly(old(sock.sendPlan)))
      ensures Orderly(old(sock.sendPlan)) ==> Orderly(sock.sendPlan)
    {
      hide U16, U32, IsTable, Deliver1, AskAgain, CrcMatches, Points;
      FieldInPrefix(hdr, recvBuffer[..], 0);
      FieldInPrefix(hdr, recvBuffer[..], 4);
      FieldInPrefix(hdr, recvBuffer[..], 8);
      var kind, packNo, size := U16(recvBuffer[..], 0), U32(recvBuffer[..], 4), U32(recvBuffer[..], 8);
      if packNo <= packRef {
        return -1, false;
      }
      if cfg.oneTime && sendDone && !HasBit(kind, KIND_BIG) && !HasBit(kind, KIND_FILE) {
        online := false;
        return -1, false;
      }
      if !complete {
        SendReTrasmit(packNo, sock);
        return -1, false;
      }
      if size < 4 {
        return 0, true;
      }
      FieldInPrefix(hdr, hdr + body.value, 0);
      FieldInPrefix(hdr, hdr + body.value, 4);
      ret, fault := CheckAndDeliver(env, table, sock, size, hdr + body.value);
    }

    /** The answer to a registration, given what its one non-blocking read returned. */
    method Register(regCode: int, regRead: int, sock: Socket)
      requires Valid() && msgs == []
      modifies this`online, sender`sendDataSize, sender.sendBuffer, sock`output, sock`sendPlan
      ensures Valid()
      ensures var o := Registered(old(View()), regCode, regRead);
              Shows(o.s, o.reply, sock, old(sock.output), Orderly(old(sock.sendPlan)))
      ensures Orderly(old(sock.sendPlan)) ==> Orderly(sock.sendPlan)
    {
      hide Points, Splice, Le16;
      if regRead != VERSIONS_SIZE {
        online := false;
        return;
      }
      ValidWithBuffer(sender.Box(), Splice(sender.sendBuffer[..], 0, Le16(REGISTER) + Le16(regCode)));
      CopyIn(sender.sendBuffer, 0, Le16(REGISTER) + Le16(regCode));
      sender.sendDataSize := SHORT_HEADER;
      var n := sock.WriteTo(sender.sendBuffer[..SHORT_HEADER]);
      if n == 0 {
        online := false;
      }
    }

    /** The answer to RETRASMIT: whatever lies at the front of the send buffer. */
    method Resend(sock: Socket)
      requires Valid()
      modifies this`online, sock`output, sock`sendPlan
      ensures Valid()
      ensures Shows(old(View()).(online := old(online) && sender.sendDataSize > 0), LastBatch(old(View())), sock,
                    old(sock.output), Orderly(old(sock.sendPlan)))
      ensures Orderly(old(sock.sendPlan)) ==> Orderly(sock.sendPlan)
    {
      hide Points;
      var n := sock.WriteTo(sender.sendBuffer[..sender.sendDataSize]);
      if n == 0 {
        online := false;
      }
    }

    /** The 12-byte header. */
    method ReadHeader(sock: Socket) returns (ghost hdr: Option<bytes>, complete: bool)
      requires Valid()
      modifies this`recvCount, this`msgs, recvBuffer, sock`input, sock`recvPlan
      ensures Valid() && View() == old(View()).(msgs := [])
      ensures complete == hdr.Some?
      ensures complete ==> |hdr.value| == SHORT_HEADER && recvBuffer[..SHORT_HEADER] == hdr.value
      ensures complete ==> hdr.value + sock.input == old(sock.input)
      ensures Orderly(old(sock.recvPlan)) ==> Orderly(sock.recvPlan) && complete == (SHORT_HEADER <= |old(sock.input)|)
    {
      recvCount, msgs := 0, [];
      ghost var was := recvBuffer[..];
      var n;
      ghost var got;
      n, got := sock.ReadFrom(recvBuffer, 0, SHORT_HEADER);
      hdr := if |got| == SHORT_HEADER then Some(got) else None;
      complete := n != 0;
      if complete {
        assert recvBuffer[..SHORT_HEADER] == recvBuffer[..][0..SHORT_HEADER];
      }
    }

    /** One non-blocking read, and the answer. */
    method TakeRegistration(regCode: int, size: nat, sock: Socket) returns (regRead: int)
      requires Valid() && msgs == []
      modifies this`online, sender`sendDataSize, sender.sendBuffer, sock
      ensures Valid()
      ensures var o := Registered(old(View()), regCode, regRead);
              Shows(o.s, o.reply, sock, old(sock.output), Orderly(old(sock.sendPlan)))
      ensures BytesTaken(regRead) <= |old(sock.input)| && sock.input == old(sock.input)[BytesTaken(regRead)..]
      ensures Orderly(old(sock.recvPlan)) ==> Orderly(sock.recvPlan)
      ensures Orderly(old(sock.sendPlan)) ==> Orderly(sock.sendPlan)
    {
      hide Points, Registered;
      regRead := 0;
      if size > 0 {
        var chunk;
        regRead, chunk := sock.Recv(size);
      }
      Register(regCode, regRead, sock);
    }

    /** Nothing is read or written; the connection is kept or given up. */
    method Stay(keep: bool, sock: Socket)
      requires Valid()
      modifies this`online
      ensures Valid()
      ensures Shows(old(View()).(online := old(online) && keep), [], sock, old(sock.output),
          Orderly(old(sock.sendPlan)))
      ensures old(View()).(online := old(online)) == old(View())
    {
      hide Points;
      online := online && keep;
    }

    method TakeData(cfg: Config, env: Env, table: array<nat>, sock: Socket, size: nat, ghost hdr: bytes)
      returns (ret: int, fault: bool, ghost body: Option<bytes>)
      requires Valid() && msgs == [] && IsTable(table[..], BitsOf(CRC16_POLY, 16))
      requires |hdr| == SHORT_HEADER && recvBuffer[..SHORT_HEADER] == hdr && size == U32(hdr, 8) <= BUFFER_SIZE
      modifies this`inbox, this`packRef, this`recvCount, this`msgs, this`online, recvBuffer, recvBufferMSG,
          recvBufferMSGSize
      modifies sock
      ensures body.Some? ==> |body.value| == U32(hdr, 8)
      ensures Arrived(hdr, body, old(sock.input), sock.input, Orderly(old(sock.recvPlan)))
      ensures fault <==> HandleData(old(View()), cfg, hdr, body, env).Fault?
      ensures !fault ==> Valid() && ret == HandleData(old(View()), cfg, hdr, body, env).ret
      ensures !fault ==>
                var o := HandleData(old(View()), cfg, hdr, body, env);
                Shows(o.s, o.reply, sock, old(sock.output), Orderly(old(sock.sendPlan)))
      ensures Orderly(old(sock.recvPlan)) ==> Orderly(sock.recvPlan)
      ensures Orderly(old(sock.sendPlan)) ==> Orderly(sock.sendPlan)
    {
      hide HandleData, U32, Arrived, Points, IsTable;
      var complete;
      complete, body := ReadBody(size, sock, hdr);
      LengthOfFrame(recvBuffer[..], hdr, body);
      ret, fault := JudgeData(cfg, env, table, sock, complete, hdr, body);
    }

    /** The switch on the packet type. */
    method Dispatch(cfg: Config, env0: Env, table: array<nat>, sock: Socket, ghost hdr: bytes)
      returns (ret: int, fault: bool, ghost body: Option<bytes>, ghost env: Env)
      requires Valid() && msgs == [] && IsTable(table[..], BitsOf(CRC16_POLY, 16))
      requires |hdr| == SHORT_HEADER <= recvBuffer.Length && recvBuffer[..SHORT_HEADER] == hdr
      modifies this`inbox, this`packRef, this`recvCount, this`msgs, this`online, recvBuffer, recvBufferMSG,
          recvBufferMSGSize
      modifies sender`sendDataSize, sender.sendBuffer, sock
      ensures env == env0.(regRead := env.regRead)
      ensures Took(cfg, hdr, body, env.regRead, old(sock.input), sock.input, Orderly(old(sock.recvPlan)))
      ensures fault <==> Handle(old(View()), cfg, hdr, body, env).Fault?
      ensures !fault ==> Valid() && ret == Handle(old(View()), cfg, hdr, body, env).ret
      ensures !fault ==>
                var o := Handle(old(View()), cfg, hdr, body, env);
                Shows(o.s, o.reply, sock, old(sock.output), Orderly(old(sock.sendPlan)))
      ensures Orderly(old(sock.recvPlan)) ==> Orderly(sock.recvPlan)
      ensures Orderly(old(sock.sendPlan)) ==> Orderly(sock.sendPlan)
    {
      hide U16, U32, Signed16, IsTable, HandleData, Points, Splice, Registered, Shows, Valid, Arrived, ValidArrays;
      assert hdr <= recvBuffer[..];
      assert View().(msgs := []) == View();
      ret, fault, env, body := -1, false, env0, None;
      FieldInPrefix(hdr, recvBuffer[..], 0);
      FieldInPrefix(hdr, recvBuffer[..], 2);
      FieldInPrefix(hdr, recvBuffer[..], 8);
      var kind, from, size := U16(recvBuffer[..], 0), Signed16(U16(recvBuffer[..], 2)), U32(recvBuffer[..], 8);
      if kind == REGISTER {
        var regRead := TakeRegistration(env0.regCode, size, sock);
        env := env0.(regRead := regRead);
      } else if kind == RETRASMIT {
        Resend(sock);
      } else if kind == PING {
        Stay(true, sock);
      } else if from < 0 || from >= cfg.maxConnection {
        Stay(false, sock);
      } else if kind % 16 == 0 {
        Stay(true, sock);
      } else if size > BUFFER_SIZE {
        Stay(false, sock);
      } else {
        ret, fault, body := TakeData(cfg, env0, table, sock, size, hdr);
      }
    }

    /** processMessageBuffer: whatever way the stream is split, the result is that of Handle on the next
        header and the body it announces; only the non-blocking read of a registration depends on the
        split. */
    method ProcessMessageBuffer(cfg: Config, env0: Env, table: array<nat>, sock: Socket)
      returns (ret: int, fault: bool, ghost hdr: Option<bytes>, ghost body: Option<bytes>, ghost env: Env)
      requires Valid() && IsTable(table[..], BitsOf(CRC16_POLY, 16))
      modifies this`inbox, this`packRef, this`recvCount, this`msgs, this`online, recvBuffer, recvBufferMSG,
          recvBufferMSGSize
      modifies sender`sendDataSize, sender.sendBuffer, sock
      ensures !fault ==> Valid()
      ensures Orderly(old(sock.recvPlan)) ==> hdr.Some? == (SHORT_HEADER <= |old(sock.input)|)
      ensures hdr == None ==> sock.output == old(sock.output)
      ensures hdr == None ==> !fault && ret == -1 && View() == old(View()).(msgs := [], online := false)
      ensures hdr.Some? ==> |hdr.value| == SHORT_HEADER && hdr.value <= old(sock.input)
      ensures hdr.Some? ==> env == env0.(regRead := env.regRead)
      ensures hdr.Some? ==>
                Took(cfg, hdr.value, body, env.regRead, old(sock.input)[SHORT_HEADER..], sock.input,
                    Orderly(old(sock.recvPlan)))
      ensures hdr.Some? ==> (fault <==> Handle(old(View()), cfg, hdr.value, body, env).Fault?)
      ensures hdr.Some? && !fault ==>
                var o := Handle(old(View()), cfg, hdr.value, body, env);
                ret == o.ret && Shows(o.s, o.reply, sock, old(sock.output), Orderly(old(sock.sendPlan)))
      ensures Orderly(old(sock.recvPlan)) ==> Orderly(sock.recvPlan)
      ensures Orderly(old(sock.sendPlan)) ==> Orderly(sock.sendPlan)
    {
      hide IsTable, Points, Took, Shows, Handle, U16;
      var complete;
      hdr, complete := ReadHeader(sock);
      if !complete {
        online := false;
        return -1, false, None, None, env0;
      }
      assert hdr.value <= old(sock.input) && old(sock.input)[SHORT_HEADER..] == sock.input;
      HandleClears(old(View()), cfg, hdr.value);
      ghost var rest, orderly := sock.input, Orderly(sock.recvPlan);
      ret, fault, body, env := Dispatch(cfg, env0, table, sock, hdr.value);
      TookLess(cfg, hdr.value, body, env.regRead, rest, sock.input, orderly, Orderly(old(sock.recvPlan)));
    }
  }
}
