/** Chunked transfer: a file sent piecewise behind the message part of successive packets, and its
    reassembly; and the same for big data, which the receiver collects in a temporary file. */
module Files {
  import opened Bytes
  import opened Fragments
  import opened Packets

  const FLAG_HEADER: int := 1
  const FLAG_CONTINUE: int := 2
  const FLAG_END: int := 4
  const NAME_SIZE: nat := 32
  const CAPACITY: int := 60 * 1024

  // ---- Sending --------------------------------------------------------------------------------

  /** fileDataSending, fileSendName, bigDataSendSize and bigDataSendSizeDone */
  datatype FileSend = FileSend(sending: bool, name: bytes, size: nat, done: nat)

  predicate ValidSend(f: FileSend) {
    |f.name| == NAME_SIZE && f.done <= f.size < 0x8000_0000
  }

  function Left(f: FileSend): nat
    requires ValidSend(f)
  {
    f.size - f.done
  }

  /** How much of the file goes behind a message part of the given sizeAll. The room is an int and the
      rest a u32, so the comparison is unsigned and a negative room counts as more than enough. */
  function ChunkSize(f: FileSend, sizeAll: int): (k: int)
    requires ValidSend(f) && 0 <= sizeAll < 0x8000_0000
    ensures 0 <= k <= Left(f)
  {
    var room := CAPACITY - sizeAll;
    var unsigned := if room < 0 then room + U32_LIMIT else room;
    if unsigned > Left(f) then Left(f) else room
  }

  function ChunkFlags(f: FileSend, k: nat): int {
    (if f.done == 0 then FLAG_HEADER else FLAG_CONTINUE) + (if f.done + k == f.size then FLAG_END else 0)
  }

  /** What _PackDataWithBigData appends to a packet. */
  function ChunkTail(f: FileSend, k: nat, content: bytes): (t: bytes)
    requires ValidSend(f) && k <= Left(f) && |content| == f.size
    ensures |t| == 8 + (if f.done == 0 then NAME_SIZE else 0) + k
  {
    Le32(ChunkFlags(f, k)) + Le32(f.size) + (if f.done == 0 then f.name else []) + content[f.done..f.done + k]
  }

  function AfterChunk(f: FileSend, k: nat): FileSend
    requires ValidSend(f)
  {
    f.(done := f.done + k, sending := f.sending && f.done + k != f.size)
  }

  /** A packet with a chunk stays within 64 KB if and only if its message part leaves room, or the rest
      of the file happens to be short enough to go out at once. */
  lemma ChunkFits(f: FileSend, sizeAll: int)
    requires ValidSend(f) && 0 <= sizeAll < 0x8000_0000
    ensures var overhead := SHORT_HEADER + 8 + (if f.done == 0 then NAME_SIZE else 0);
            sizeAll + overhead + ChunkSize(f, sizeAll) <= BUFFER_SIZE
            <==> sizeAll <= CAPACITY || sizeAll + overhead + Left(f) <= BUFFER_SIZE
  {
  }

  // ---- Receiving ------------------------------------------------------------------------------

  /** The receiver's files and the fields that describe the transfer in progress. */
  datatype Inbox = Inbox(bigReady: bool, fileReady: bool, readSize: nat, readDone: nat,
                         fileName: bytes, temp: bytes, files: map<bytes, bytes>)

  predicate HasHeader(t: bytes)
    requires |t| >= 8
  {
    U32(t, 0) % 2 == 1
  }

  predicate HasEnd(t: bytes)
    requires |t| >= 8
  {
    (U32(t, 0) / 4) % 2 == 1
  }

  /** Neither HEADER nor CONTINUE nor END is set: the chunk is dropped. */
  predicate Dropped(t: bytes)
    requires |t| >= 8
  {
    U32(t, 0) % 8 == 0
  }

  /** The chunk is long enough for its own header. */
  predicate FileChunk(t: bytes) {
    |t| >= 8 && (HasHeader(t) ==> |t| >= 8 + NAME_SIZE)
  }

  /** _ProessMessageFileData, given whether the file could be opened; the flag is false for a return of -1. */
  function ReceiveFile(s: Inbox, t: bytes, canOpen: bool): (r: (Inbox, bool))
    requires FileChunk(t)
  {
    if HasHeader(t) then
      var s1 := s.(fileReady := false, readSize := U32(t, 4), readDone := 0, fileName := t[8..8 + NAME_SIZE]);
      if !canOpen then (s1, false)
      else
        var data := t[8 + NAME_SIZE..];
        (FileEnd(s1.(files := s1.files[CString(s1.fileName) := data], readDone := |data| % U32_LIMIT), t), true)
    else if !Dropped(t) && canOpen then
      var key, data := CString(s.fileName), t[8..];
      var before := if key in s.files then s.files[key] else [];
      (FileEnd(s.(files := s.files[key := before + data], readDone := (s.readDone + |data|) % U32_LIMIT), t), true)
    else
      (FileEnd(s, t), true)
  }

  /** The flag word is compared with END as a whole. */
  function FileEnd(s: Inbox, t: bytes): Inbox
    requires |t| >= 8
  {
    if U32(t, 0) == FLAG_END then s.(fileReady := true) else s
  }

  /** _ProessMessageBigData */
  function ReceiveBig(s: Inbox, t: bytes, canOpen: bool): (r: (Inbox, bool))
    requires |t| >= 8
  {
    var data := t[8..];
    if HasHeader(t) then
      var s1 := s.(bigReady := false, readSize := U32(t, 4), readDone := 0);
      if !canOpen then (s1, false)
      else (BigEnd(s1.(temp := data, readDone := |data| % U32_LIMIT), t), true)
    else if !Dropped(t) && canOpen then
      (BigEnd(s.(temp := s.temp + data, readDone := (s.readDone + |data|) % U32_LIMIT), t), true)
    else
      (BigEnd(s, t), true)
  }

  function BigEnd(s: Inbox, t: bytes): Inbox
    requires |t| >= 8
  {
    if HasEnd(t) then s.(bigReady := true) else s
  }

  // ---- A chunk as the receiver sees it --------------------------------------------------------

  lemma ChunkFields(f: FileSend, k: nat, content: bytes)
    requires ValidSend(f) && k <= Left(f) && |content| == f.size
    ensures var t := ChunkTail(f, k, content);
            && FileChunk(t)
            && U32(t, 0) == ChunkFlags(f, k) && U32(t, 4) == f.size
            && (HasHeader(t) <==> f.done == 0)
            && (HasEnd(t) <==> f.done + k == f.size)
            && !Dropped(t) && U32(t, 0) != FLAG_END
            && (f.done == 0 ==> t[8..8 + NAME_SIZE] == f.name && t[8 + NAME_SIZE..] == content[..k])
            && (f.done > 0 ==> t[8..] == content[f.done..f.done + k])
  {
    var t := ChunkTail(f, k, content);
    assert t[0..4] == Le32(ChunkFlags(f, k));
    assert t[4..8] == Le32(f.size);
    Le32Field(ChunkFlags(f, k), t, 0);
    Le32Field(f.size, t, 4);
  }

  // ---- A whole transfer -----------------------------------------------------------------------

  /** One call of EndPackSendData during a transfer: the sizeAll of its message part, and whether the
      file could be opened. */
  datatype Turn = Turn(sizeAll: int, readable: bool)

  predicate ValidTurns(turns: seq<Turn>) {
    forall i :: 0 <= i < |turns| ==> 0 <= turns[i].sizeAll < 0x8000_0000
  }

  datatype Transfer = Transfer(send: FileSend, store: Inbox, sent: seq<bytes>)

  /** The chunk, if any, goes from the sender straight to the receiver. */
  function Exchange(x: Transfer, turn: Turn, content: bytes): (x': Transfer)
    requires ValidSend(x.send) && |content| == x.send.size && 0 <= turn.sizeAll < 0x8000_0000
    ensures ValidSend(x'.send) && x'.send.size == x.send.size && x'.send.name == x.send.name
  {
    if x.send.sending && turn.readable then
      var k := ChunkSize(x.send, turn.sizeAll);
      var t := ChunkTail(x.send, k, content);
      ChunkFields(x.send, k, content);
      Transfer(AfterChunk(x.send, k), ReceiveFile(x.store, t, true).0, x.sent + [t])
    else x
  }

  function Exchanges(x: Transfer, turns: seq<Turn>, content: bytes): (x': Transfer)
    requires ValidSend(x.send) && |content| == x.send.size && ValidTurns(turns)
    ensures ValidSend(x'.send) && x'.send.size == x.send.size && x'.send.name == x.send.name
  {
    if turns == [] then x else Exchange(Exchanges(x, turns[..|turns| - 1], content), turns[|turns| - 1], content)
  }

  /** STSV_SendDBFile on an idle client */
  function StartSend(name: bytes, size: nat): FileSend {
    FileSend(true, name, size, 0)
  }

  /** What every chunk keeps: the receiver's file is the sender's progress, and the flags say where the
      transfer starts and ends. */
  ghost predicate InStep(x: Transfer, s0: Inbox, content: bytes)
    requires ValidSend(x.send) && |content| == x.send.size
  {
    var f, s := x.send, x.store;
    && (x.sent == [] ==> s == s0 && f.done == 0 && f.sending)
    && (x.sent != [] ==>
          && s.fileName == f.name && CString(f.name) in s.files
          && s.files == s0.files[CString(f.name) := content[..f.done]]
          && s.readDone == f.done && s.readSize == f.size
          && !s.fileReady && s.bigReady == s0.bigReady && s.temp == s0.temp)
    && (f.sending <==> (x.sent == [] || f.done < f.size))
    && (forall j :: 0 <= j < |x.sent| ==>
          FileChunk(x.sent[j]) && (HasEnd(x.sent[j]) <==> j == |x.sent| - 1 && !f.sending))
  }

  lemma ReceiveFirst(s: Inbox, f: FileSend, k: nat, t: bytes, content: bytes)
    requires FileChunk(t) && HasHeader(t) && U32(t, 0) != FLAG_END && U32(t, 4) == f.size < U32_LIMIT
    requires k <= |content| == f.size && t[8..8 + NAME_SIZE] == f.name && t[8 + NAME_SIZE..] == content[..k]
    ensures ReceiveFile(s, t, true).0 ==
            s.(fileReady := false, readSize := f.size, readDone := k, fileName := f.name,
               files := s.files[CString(f.name) := content[..k]])
  {
    hide U32, CString;
  }

  lemma ReceiveNext(s: Inbox, f: FileSend, k: nat, t: bytes, content: bytes)
    requires FileChunk(t) && !HasHeader(t) && !Dropped(t) && U32(t, 0) != FLAG_END
    requires f.done + k <= |content| == f.size < U32_LIMIT && t[8..] == content[f.done..f.done + k]
    requires s.fileName == f.name && CString(f.name) in s.files && s.readDone == f.done
    requires s.files[CString(f.name)] == content[..f.done]
    ensures ReceiveFile(s, t, true).0 ==
            s.(readDone := f.done + k, files := s.files[CString(f.name) := content[..f.done + k]])
  {
    hide U32, CString;
    assert content[..f.done] + content[f.done..f.done + k] == content[..f.done + k];
  }

  /** What one chunk does to the receiver: the first one starts the file over, the others append. */
  lemma ReceiveChunk(s: Inbox, f: FileSend, k: nat, content: bytes)
    requires ValidSend(f) && k <= Left(f) && |content| == f.size
    requires f.done > 0 ==> s.fileName == f.name && CString(f.name) in s.files
    requires f.done > 0 ==> s.readDone == f.done && s.readSize == f.size
    requires f.done > 0 ==> s.files[CString(f.name)] == content[..f.done] && !s.fileReady
    ensures ReceiveFile(s, ChunkTail(f, k, content), true).0 ==
            s.(fileReady := false, readSize := f.size, readDone := f.done + k, fileName := f.name,
               files := s.files[CString(f.name) := content[..f.done + k]])
  {
    hide ReceiveFile, ChunkTail, ChunkFlags, U32, CString;
    var t := ChunkTail(f, k, content);
    ChunkFields(f, k, content);
    if f.done == 0 {
      ReceiveFirst(s, f, k, t, content);
    } else {
      ReceiveNext(s, f, k, t, content);
    }
  }

  lemma ExchangeInStep(x: Transfer, turn: Turn, s0: Inbox, content: bytes)
    requires ValidSend(x.send) && |content| == x.send.size && 0 <= turn.sizeAll < 0x8000_0000
    requires InStep(x, s0, content)
    ensures InStep(Exchange(x, turn, content), s0, content)
  {
    if x.send.sending && turn.readable {
      var f := x.send;
      var k := ChunkSize(f, turn.sizeAll);
      var t := ChunkTail(f, k, content);
      ChunkFields(f, k, content);
      ReceiveChunk(x.store, f, k, content);
      var x' := Exchange(x, turn, content);
      assert x'.sent == x.sent + [t];
      assert x'.store.files == s0.files[CString(f.name) := content[..f.done + k]];
    }
  }

  lemma {:induction false} TransferInStep(name: bytes, s0: Inbox, turns: seq<Turn>, content: bytes)
    requires |name| == NAME_SIZE && |content| < 0x8000_0000 && ValidTurns(turns)
    ensures InStep(Exchanges(Transfer(StartSend(name, |content|), s0, []), turns, content), s0, content)
  {
    if turns != [] {
      var n := |turns| - 1;
      TransferInStep(name, s0, turns[..n], content);
      ExchangeInStep(Exchanges(Transfer(StartSend(name, |content|), s0, []), turns[..n], content), turns[n], s0,
          content);
    }
  }

  function Begin(name: bytes, content: bytes, s0: Inbox): (x: Transfer)
  {
    Transfer(StartSend(name, |content|), s0, [])
  }

  /** Over any run of calls, the receiver's file is the part of the content sent so far, and the whole
      content exactly once the sender has stopped; no other file changes; END is on the last chunk and
      on no other; and fileDataReady, which waits for a flag word of END alone, is never raised. */
  lemma TransferContents(name: bytes, s0: Inbox, turns: seq<Turn>, content: bytes)
    requires |name| == NAME_SIZE && |content| < 0x8000_0000 && ValidTurns(turns)
    ensures var x := Exchanges(Begin(name, content, s0), turns, content);
            && x.send.done <= |content|
            && (x.sent == [] ==> x.store == s0)
            && (x.sent != [] ==>
                  && x.store.files == s0.files[CString(name) := content[..x.send.done]]
                  && x.store.readDone == x.send.done && !x.store.fileReady)
            && (!x.send.sending ==> x.store.files == s0.files[CString(name) := content])
            && (forall j :: 0 <= j < |x.sent| ==>
                  |x.sent[j]| >= 8 && (HasEnd(x.sent[j]) <==> j == |x.sent| - 1 && !x.send.sending))
  {
    TransferInStep(name, s0, turns, content);
    assert content[..|content|] == content;
  }

  /** With at least `room` bytes left in every packet and the file readable, each call moves that much,
      only the first chunk is a HEADER, and the transfer ends once the calls add up to the file. */
  lemma {:induction false} TransferProgress(name: bytes, s0: Inbox, turns: seq<Turn>, content: bytes, room: nat)
    requires |name| == NAME_SIZE && |content| < 0x8000_0000 && ValidTurns(turns) && room > 0
    requires forall i :: 0 <= i < |turns| ==> turns[i].readable && turns[i].sizeAll <= CAPACITY - room
    ensures var x := Exchanges(Begin(name, content, s0), turns, content);
            && (x.send.sending ==> |x.sent| == |turns| && room * |turns| <= x.send.done)
            && (turns != [] && |content| <= room * |turns| ==> !x.send.sending)
            && (x.sent != [] ==> x.send.done > 0 || !x.send.sending)
            && (forall j :: 0 <= j < |x.sent| ==> |x.sent[j]| >= 8 && (HasHeader(x.sent[j]) <==> j == 0))
  {
    TransferInStep(name, s0, turns, content);
    if turns != [] {
      var n := |turns| - 1;
      TransferProgress(name, s0, turns[..n], content, room);
      var x := Exchanges(Begin(name, content, s0), turns[..n], content);
      TransferInStep(name, s0, turns[..n], content);
      assert room * |turns| == room * n + room;
      if x.send.sending {
        var k := ChunkSize(x.send, turns[n].sizeAll);
        assert k == Left(x.send) || k >= room;
        ChunkFields(x.send, k, content);
      }
    }
  }

  // ---- Big data -------------------------------------------------------------------------------

  function ReceiveBigAll(s: Inbox, chunks: seq<bytes>): Inbox
    requires forall i :: 0 <= i < |chunks| ==> |chunks[i]| >= 8
  {
    if chunks == [] then s else ReceiveBig(ReceiveBigAll(s, chunks[..|chunks| - 1]), chunks[|chunks| - 1], true).0
  }

  /** What a chunk contributes: nothing, when its flag word has none of the three flags. */
  function Contribution(t: bytes): bytes
    requires |t| >= 8
  {
    if HasHeader(t) || !Dropped(t) then t[8..] else []
  }

  function Payloads(chunks: seq<bytes>): (p: seq<bytes>)
    requires forall i :: 0 <= i < |chunks| ==> |chunks[i]| >= 8
    ensures |p| == |chunks|
  {
    seq(|chunks|, i requires 0 <= i < |chunks| => Contribution(chunks[i]))
  }

  lemma CountModulo(a: nat, b: nat)
    ensures (a % U32_LIMIT + b) % U32_LIMIT == (a + b) % U32_LIMIT
  {
    if b > 0 {
      ModAgain(a, U32_LIMIT, b);
    }
  }

  /** The temporary file holds `data`, counts it, and expects what the HEADER announced. */
  predicate Collected(s: Inbox, data: bytes, header: bytes)
    requires |header| >= 8
  {
    s.temp == data && s.readDone == |data| % U32_LIMIT && s.readSize == U32(header, 4)
  }

  lemma BigChunk(s: Inbox, t: bytes, data: bytes, header: bytes)
    requires |t| >= 8 && |header| >= 8
    requires HasHeader(t) || Collected(s, data, header)
    ensures HasHeader(t) ==> Collected(ReceiveBig(s, t, true).0, Contribution(t), t)
    ensures !HasHeader(t) ==> Collected(ReceiveBig(s, t, true).0, data + Contribution(t), header)
  {
    CountModulo(|data|, |t[8..]|);
  }

  /** After any sequence of chunks, the temporary file holds what the chunks from the last HEADER on
      contribute, and the byte count agrees with it. */
  lemma {:induction false} BigDataReassembly(s: Inbox, chunks: seq<bytes>, h: nat)
    requires forall i :: 0 <= i < |chunks| ==> |chunks[i]| >= 8
    requires h < |chunks| && HasHeader(chunks[h])
    requires forall i :: h < i < |chunks| ==> !HasHeader(chunks[i])
    ensures Collected(ReceiveBigAll(s, chunks), Flatten(Payloads(chunks[h..])), chunks[h])
    decreases |chunks|
  {
    hide Collected, ReceiveBig, HasHeader, Dropped, Contribution, U32;
    var n := |chunks| - 1;
    var p := Payloads(chunks[h..]);
    assert p[|p| - 1] == Contribution(chunks[n]);
    var s1 := ReceiveBigAll(s, chunks[..n]);
    if h == n {
      assert p == [Contribution(chunks[n])];
      FlattenSingle(Contribution(chunks[n]));
      BigChunk(s1, chunks[n], [], chunks[n]);
    } else {
      BigDataReassembly(s, chunks[..n], h);
      assert Payloads(chunks[..n][h..]) == p[..|p| - 1];
      BigChunk(s1, chunks[n], Flatten(p[..|p| - 1]), chunks[h]);
    }
  }

  /** bigDataReady is raised by an END chunk and stays up until the next HEADER. */
  lemma {:induction false} BigDataReady(s: Inbox, chunks: seq<bytes>, h: nat)
    requires forall i :: 0 <= i < |chunks| ==> |chunks[i]| >= 8
    requires h < |chunks| && HasHeader(chunks[h])
    requires forall i :: h < i < |chunks| ==> !HasHeader(chunks[i])
    ensures ReceiveBigAll(s, chunks).bigReady <==> exists i :: h <= i < |chunks| && HasEnd(chunks[i])
    decreases |chunks|
  {
    var n := |chunks| - 1;
    if h < n {
      BigDataReady(s, chunks[..n], h);
    }
  }
}
