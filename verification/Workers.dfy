/** Client slots and their worker threads as interleaved steps: one acceptor reuses slots, one worker
    thread serves each accepted connection and leaves on its own. */
module Workers {
  import opened Bytes

  /** The fields of a slot that the life cycle depends on: online, thread and thread_ID. */
  datatype Slot = Slot(online: bool, thread: bool, tid: nat)

  /** A worker before it sets the thread flag; in its loop; after it has cleared online; between reading
      the login counter v and writing v - 1; and after it has returned, when it can be joined. */
  datatype Stage = Started | Running | Leaving | Uncounting(v: nat) | Ended

  datatype Worker = Worker(slot: nat, stage: Stage)

  /** AcceptConnection: scanning for a free slot, joining its old thread, overwriting its fields,
      creating the thread, reading the login counter and writing it back, or taking back a slot whose
      thread could not be created. */
  datatype Acceptor =
    | Idle | Scan(i: nat) | Chosen(i: nat) | Ready(i: nat) | Filled(i: nat) | Created(i: nat) | Counting(i: nat, v: nat)
    | Failed(i: nat)

  /** The slots, every worker ever created, the acceptor, s_nCurLoginCount and, as history, how far the
      counter has been put off by writes of values read too early. */
  datatype Server = Server(slots: seq<Slot>, workers: seq<Worker>, acceptor: Acceptor, count: nat, drift: int)

  /** A step of the acceptor, with whether pthread_create would succeed, or of a worker. */
  datatype Step = Accept(createOk: bool) | Work(w: nat)

  predicate InRange(s: Server) {
    && (forall w :: 0 <= w < |s.workers| ==>
          s.workers[w].slot < |s.slots| && s.slots[s.workers[w].slot].tid < |s.workers|)
    && (!s.acceptor.Idle? && !s.acceptor.Scan? ==> s.acceptor.i < |s.slots|)
    && (forall i :: 0 <= i < |s.slots| && s.slots[i].thread ==> s.slots[i].tid < |s.workers|)
  }

  function WithSlot(s: Server, i: nat, slot: Slot): Server
    requires i < |s.slots|
  {
    s.(slots := s.slots[i := slot])
  }

  function AcceptStep(s: Server, createOk: bool): (s': Server)
    requires InRange(s)
    ensures InRange(s') && |s'.slots| == |s.slots|
  {
    match s.acceptor
    case Idle => s.(acceptor := Scan(0))
    case Scan(i) =>
      if i >= |s.slots| then s.(acceptor := Idle)
      else if !s.slots[i].online then s.(acceptor := Chosen(i))
      else s.(acceptor := Scan(i + 1))
    case Chosen(i) =>
      if !s.slots[i].thread then s.(acceptor := Ready(i))
      else if s.workers[s.slots[i].tid].stage != Ended then s // pthread_join waits
      else WithSlot(s, i, s.slots[i].(thread := false)).(acceptor := Ready(i))
    case Ready(i) => WithSlot(s, i, s.slots[i].(online := true)).(acceptor := Filled(i))
    case Filled(i) =>
      if createOk then
        WithSlot(s, i, s.slots[i].(tid := |s.workers|)).(workers := s.workers + [Worker(i, Started)],
            acceptor := Created(i))
      else s.(acceptor := Failed(i))
    case Failed(i) => WithSlot(s, i, s.slots[i].(online := false)).(acceptor := Idle)
    case Created(i) => s.(acceptor := Counting(i, s.count))
    case Counting(i, v) => s.(count := (v + 1) % U32_LIMIT, drift := s.drift + v - s.count, acceptor := Idle)
  }

  function WorkStep(s: Server, w: nat): (s': Server)
    requires InRange(s)
    ensures InRange(s') && |s'.slots| == |s.slots|
  {
    if w >= |s.workers| then s
    else
      var i := s.workers[w].slot;
      match s.workers[w].stage
      case Started => WithSlot(s, i, s.slots[i].(thread := true)).(workers := s.workers[w := Worker(i, Running)])
      case Running => WithSlot(s, i, s.slots[i].(online := false)).(workers := s.workers[w := Worker(i, Leaving)])
      case Leaving => s.(workers := s.workers[w := Worker(i, Uncounting(s.count))])
      case Uncounting(v) =>
        s.(count := (v + U32_LIMIT - 1) % U32_LIMIT, drift := s.drift + v - s.count,
            workers := s.workers[w := Worker(i, Ended)])
      case Ended => s
  }

  // ---- The invariant --------------------------------------------------------------------------

  predicate Live(w: Worker) { w.stage != Ended }

  /** A live worker is the one its slot names; the flags of the slot follow its stage. */
  predicate Tended(s: Server, w: nat)
    requires w < |s.workers| && s.workers[w].slot < |s.slots|
  {
    var slot := s.slots[s.workers[w].slot];
    Live(s.workers[w]) ==>
      && slot.tid == w
      && (s.workers[w].stage.Started? || s.workers[w].stage.Running? ==> slot.online)
      && (s.workers[w].stage != Started ==> slot.thread)
  }

  /** The acceptor has made sure that nobody serves slot i. */
  predicate Free(s: Server, i: nat) {
    forall w :: 0 <= w < |s.workers| && s.workers[w].slot == i ==> !Live(s.workers[w])
  }

  function NumLive(ws: seq<Worker>): nat {
    if ws == [] then 0 else NumLive(ws[..|ws| - 1]) + if Live(ws[|ws| - 1]) then 1 else 0
  }

  /** Live workers, short of the one created but not yet counted */
  function Due(s: Server): int {
    NumLive(s.workers) - if s.acceptor.Created? || s.acceptor.Counting? then 1 else 0
  }

  predicate Counted(s: Server) {
    s.count == (Due(s) + s.drift) % U32_LIMIT
  }

  ghost predicate Inv(s: Server) {
    && InRange(s)
    && (forall w :: 0 <= w < |s.workers| ==> Tended(s, w))
    && (s.acceptor.Chosen? ==> !s.slots[s.acceptor.i].online)
    && (s.acceptor.Filled? ==> s.slots[s.acceptor.i].online)
    && (s.acceptor.Ready? || s.acceptor.Filled? || s.acceptor.Failed? ==> Free(s, s.acceptor.i))
    && Counted(s)
  }

  lemma {:induction false} NumLiveUpdate(ws: seq<Worker>, w: nat, x: Worker)
    requires w < |ws|
    ensures NumLive(ws[w := x]) == NumLive(ws) - (if Live(ws[w]) then 1 else 0) + (if Live(x) then 1 else 0)
  {
    var n := |ws| - 1;
    if w < n {
      assert ws[w := x][..n] == ws[..n][w := x];
      NumLiveUpdate(ws[..n], w, x);
    } else {
      assert ws[w := x][..n] == ws[..n];
    }
  }

  lemma NumLiveMore(ws: seq<Worker>, x: Worker)
    requires Live(x)
    ensures NumLive(ws + [x]) == NumLive(ws) + 1
  {
    assert (ws + [x])[..|ws|] == ws;
  }

  lemma ModShift(y: int, k: int)
    ensures (y + k * U32_LIMIT) % U32_LIMIT == y % U32_LIMIT
  {
  }

  /** Writing v + step instead of count + step puts the counter off by v - count. */
  lemma Recount(due: int, drift: int, count: int, v: int, step: int)
    requires count == (due + drift) % U32_LIMIT
    ensures (v + step) % U32_LIMIT == (due + step + (drift + v - count)) % U32_LIMIT
    ensures (v + step + U32_LIMIT) % U32_LIMIT == (v + step) % U32_LIMIT
  {
    var k := (due + drift) / U32_LIMIT;
    assert due + drift == k * U32_LIMIT + count;
    ModShift(v + step, k);
    ModShift(v + step, 1);
  }

  lemma AcceptKeeps(s: Server, createOk: bool)
    requires Inv(s)
    ensures Inv(AcceptStep(s, createOk))
  {
    hide NumLive;
    var s' := AcceptStep(s, createOk);
    if s.acceptor.Filled? && createOk {
      NumLiveMore(s.workers, Worker(s.acceptor.i, Started));
    }
    if s.acceptor.Counting? {
      Recount(Due(s), s.drift, s.count, s.acceptor.v, 1);
    }
    if s.acceptor.Chosen? && s'.acceptor.Ready? {
      forall w | 0 <= w < |s.workers| && s.workers[w].slot == s.acceptor.i
        ensures !Live(s.workers[w])
      {
        assert Tended(s, w);
      }
    }
    forall w | 0 <= w < |s'.workers|
      ensures Tended(s', w)
    {
      if w < |s.workers| {
        assert Tended(s, w);
        assert s.workers[w].slot < |s.slots|;
        assert s'.acceptor.Ready? || s.acceptor.Ready? || s.acceptor.Filled? || s.acceptor.Failed? ==>
            s.workers[w].slot == s.acceptor.i ==> !Live(s.workers[w]);
      }
    }
  }

  lemma WorkKeeps(s: Server, w: nat)
    requires Inv(s)
    ensures Inv(WorkStep(s, w))
  {
    hide NumLive;
    var s' := WorkStep(s, w);
    if w < |s.workers| {
      assert Tended(s, w);
      NumLiveUpdate(s.workers, w, s'.workers[w]);
      assert s.workers[w := s.workers[w]] == s.workers;
      if s.workers[w].stage.Uncounting? {
        Recount(Due(s), s.drift, s.count, s.workers[w].stage.v, -1);
      }
      forall v | 0 <= v < |s'.workers|
        ensures Tended(s', v)
      {
        assert Tended(s, v);
      }
    }
  }

  // ---- Runs -----------------------------------------------------------------------------------

  function Start(slots: nat): (s: Server)
    ensures InRange(s)
  {
    Server(seq(slots, _ => Slot(false, false, 0)), [], Idle, 0, 0)
  }

  function Next(s: Server, step: Step): (s': Server)
    requires InRange(s)
    ensures InRange(s') && |s'.slots| == |s.slots|
  {
    match step
    case Accept(createOk) => AcceptStep(s, createOk)
    case Work(w) => WorkStep(s, w)
  }

  function Run(slots: nat, steps: seq<Step>): (s: Server)
    ensures InRange(s)
  {
    if steps == [] then Start(slots) else Next(Run(slots, steps[..|steps| - 1]), steps[|steps| - 1])
  }

  /** Every step of every interleaving keeps the invariant. */
  lemma {:induction false} RunInv(slots: nat, steps: seq<Step>)
    ensures Inv(Run(slots, steps))
  {
    hide AcceptStep, WorkStep;
    if steps != [] {
      var n := |steps| - 1;
      RunInv(slots, steps[..n]);
      match steps[n]
      case Accept(createOk) => AcceptKeeps(Run(slots, steps[..n]), createOk);
      case Work(w) => WorkKeeps(Run(slots, steps[..n]), w);
    }
  }

  /** Two live workers never serve the same slot. */
  lemma OneWorkerPerSlot(slots: nat, steps: seq<Step>, v: nat, w: nat)
    requires var s := Run(slots, steps); v < w < |s.workers| && Live(s.workers[v]) && Live(s.workers[w])
    ensures Run(slots, steps).workers[v].slot != Run(slots, steps).workers[w].slot
  {
    RunInv(slots, steps);
    var s := Run(slots, steps);
    assert Tended(s, v) && Tended(s, w);
  }

  /** The acceptor overwrites the fields of a slot, and creates a worker for it, only when no live worker
      serves it. */
  lemma OverwritesOnlyFreeSlots(slots: nat, steps: seq<Step>)
    requires Run(slots, steps).acceptor.Ready? || Run(slots, steps).acceptor.Filled?
    ensures Free(Run(slots, steps), Run(slots, steps).acceptor.i)
  {
    RunInv(slots, steps);
  }

  /** In every interleaving the login counter is the number of live workers, short of the one created but
      not yet counted, but for its drift. A worker may leave before it is counted, and then the u32 passes
      through 2^32 - 1. */
  lemma LoginCountDrift(slots: nat, steps: seq<Step>)
    ensures var s := Run(slots, steps);
            s.count == (Due(s) + s.drift) % U32_LIMIT
  {
    hide Run, Due;
    RunInv(slots, steps);
    assert Counted(Run(slots, steps));
  }

  // ---- When the counter is exact --------------------------------------------------------------

  /** If the step writes the counter, it finds the value it has read. */
  predicate WritesFresh(s: Server, step: Step) {
    match step
    case Accept(_) => s.acceptor.Counting? ==> s.acceptor.v == s.count
    case Work(w) => w < |s.workers| && s.workers[w].stage.Uncounting? ==> s.workers[w].stage.v == s.count
  }

  /** Every write of the counter finds the value that was read for it. */
  predicate Undisturbed(slots: nat, steps: seq<Step>) {
    steps == [] ||
    var n := |steps| - 1;
    Undisturbed(slots, steps[..n]) && WritesFresh(Run(slots, steps[..n]), steps[n])
  }

  /** The counter is what it should be after every step. */
  predicate ExactThroughout(slots: nat, steps: seq<Step>) {
    var s := Run(slots, steps);
    s.count == Due(s) % U32_LIMIT && (steps == [] || ExactThroughout(slots, steps[..|steps| - 1]))
  }

  /** Every value read from the counter is a u32. */
  predicate U32Values(s: Server) {
    && s.count < U32_LIMIT
    && (s.acceptor.Counting? ==> s.acceptor.v < U32_LIMIT)
    && forall w :: 0 <= w < |s.workers| && s.workers[w].stage.Uncounting? ==> s.workers[w].stage.v < U32_LIMIT
  }

  lemma NextValues(s: Server, step: Step)
    requires InRange(s) && U32Values(s)
    ensures U32Values(Next(s, step))
  {
  }

  lemma {:induction false} RunValues(slots: nat, steps: seq<Step>)
    ensures U32Values(Run(slots, steps))
  {
    hide Next;
    if steps != [] {
      var n := |steps| - 1;
      RunValues(slots, steps[..n]);
      NextValues(Run(slots, steps[..n]), steps[n]);
    }
  }

  lemma NextDrift(s: Server, step: Step)
    requires InRange(s) && U32Values(s) && s.drift == 0
    ensures var s' := Next(s, step);
            -U32_LIMIT < s'.drift < U32_LIMIT && (WritesFresh(s, step) <==> s'.drift == 0)
  {
  }

  lemma NoDrift(due: int, drift: int)
    requires -U32_LIMIT < drift < U32_LIMIT
    ensures (due + drift) % U32_LIMIT == due % U32_LIMIT <==> drift == 0
  {
    var q, r := due / U32_LIMIT, due % U32_LIMIT;
    assert due == q * U32_LIMIT + r;
    ModShift(r + drift, q);
  }

  lemma {:induction false} ExactIsUndisturbed(slots: nat, steps: seq<Step>)
    ensures ExactThroughout(slots, steps) <==> Undisturbed(slots, steps)
    ensures Undisturbed(slots, steps) ==> Run(slots, steps).drift == 0
  {
    hide Next, Due;
    LoginCountDrift(slots, steps);
    if steps != [] {
      var n := |steps| - 1;
      ExactIsUndisturbed(slots, steps[..n]);
      if Undisturbed(slots, steps[..n]) {
        RunValues(slots, steps[..n]);
        NextDrift(Run(slots, steps[..n]), steps[n]);
        NoDrift(Due(Run(slots, steps)), Run(slots, steps).drift);
      }
    }
  }

  /** After every step of a run the login counter is the number of live workers, short of the one created
      but not yet counted, modulo 2^32, if and only if every increment and decrement found, when it
      wrote, the value it had read. */
  lemma {:induction false} LoginCountIsExact(slots: nat, steps: seq<Step>)
    ensures ExactThroughout(slots, steps) <==> Undisturbed(slots, steps)
    ensures var s := Run(slots, steps);
            Undisturbed(slots, steps) ==> s.count == Due(s) % U32_LIMIT
  {
    ExactIsUndisturbed(slots, steps);
    LoginCountDrift(slots, steps);
  }

  /** Between a read and a write of the counter */
  predicate InUpdate(w: Worker) { w.stage.Uncounting? }

  /** No worker other than w is. */
  predicate OthersOut(s: Server, w: nat) {
    forall u :: 0 <= u < |s.workers| && u != w ==> !InUpdate(s.workers[u])
  }

  /** If the step writes the counter, nobody else is between a read and a write. */
  predicate WritesAlone(s: Server, step: Step) {
    match step
    case Accept(_) => s.acceptor.Counting? ==> OthersOut(s, |s.workers|)
    case Work(w) => w < |s.workers| && InUpdate(s.workers[w]) ==> OthersOut(s, w) && !s.acceptor.Counting?
  }

  /** Nobody writes the counter while another thread is between its read and its write, as when ++ and --
      are atomic or under a lock. */
  predicate Uninterrupted(slots: nat, steps: seq<Step>) {
    steps == [] ||
    var n := |steps| - 1;
    Uninterrupted(slots, steps[..n]) && WritesAlone(Run(slots, steps[..n]), steps[n])
  }

  /** Every value that has been read is still the counter's. */
  predicate AllFresh(s: Server) {
    && (s.acceptor.Counting? ==> s.acceptor.v == s.count)
    && forall w :: 0 <= w < |s.workers| && InUpdate(s.workers[w]) ==> s.workers[w].stage.v == s.count
  }

  lemma FreshStays(s: Server, step: Step)
    requires InRange(s) && AllFresh(s) && WritesAlone(s, step)
    ensures WritesFresh(s, step) && AllFresh(Next(s, step))
  {
  }

  /** When no update is interrupted, the login counter is exact after every step. */
  lemma {:induction false} AtomicLoginCountIsExact(slots: nat, steps: seq<Step>)
    requires Uninterrupted(slots, steps)
    ensures Undisturbed(slots, steps) && AllFresh(Run(slots, steps)) && ExactThroughout(slots, steps)
  {
    hide Next, WritesAlone, WritesFresh, Due;
    if steps != [] {
      var n := |steps| - 1;
      AtomicLoginCountIsExact(slots, steps[..n]);
      FreshStays(Run(slots, steps[..n]), steps[n]);
    }
    LoginCountIsExact(slots, steps);
  }

  // ---- Slots come back ------------------------------------------------------------------------

  /** An online slot is the one the acceptor is about to hand over or take back, or its worker still has to
      leave. */
  predicate Attended(s: Server, i: nat)
    requires i < |s.slots|
  {
    s.slots[i].online ==>
      || ((s.acceptor.Filled? || s.acceptor.Failed?) && s.acceptor.i == i)
      || (&& s.slots[i].tid < |s.workers| && s.workers[s.slots[i].tid].slot == i
          && (s.workers[s.slots[i].tid].stage.Started? || s.workers[s.slots[i].tid].stage.Running?))
  }

  ghost predicate AllAttended(s: Server) {
    forall i :: 0 <= i < |s.slots| ==> Attended(s, i)
  }

  lemma AttendedAccept(s: Server, step: Step, i: nat)
    requires InRange(s) && step.Accept? && i < |s.slots| && Attended(s, i)
    ensures Attended(Next(s, step), i)
  {
  }

  lemma AttendedWork(s: Server, w: nat, i: nat)
    requires InRange(s) && w < |s.workers| && i < |s.slots| && Attended(s, i) && Tended(s, w)
    ensures Attended(Next(s, Work(w)), i)
  {
  }

  lemma AttendedStays(s: Server, step: Step)
    requires Inv(s) && AllAttended(s)
    ensures AllAttended(Next(s, step))
  {
    hide NumLive, Counted, Free;
    forall i | 0 <= i < |Next(s, step).slots|
      ensures Attended(Next(s, step), i)
    {
      assert Attended(s, i);
      match step
      case Accept(_) => AttendedAccept(s, step, i);
      case Work(w) =>
        if w < |s.workers| {
          assert Tended(s, w);
          AttendedWork(s, w, i);
        }
    }
  }

  lemma {:induction false} RunAttended(slots: nat, steps: seq<Step>)
    ensures AllAttended(Run(slots, steps))
  {
    hide Next, Inv;
    if steps == [] {
      assert forall i :: 0 <= i < slots ==> Attended(Start(slots), i);
    } else {
      var n := |steps| - 1;
      RunAttended(slots, steps[..n]);
      RunInv(slots, steps[..n]);
      AttendedStays(Run(slots, steps[..n]), steps[n]);
    }
  }

  /** Once its worker has left its loop, and the acceptor is not at work on it, a slot is free again. */
  lemma {:induction false} SlotsComeBack(slots: nat, steps: seq<Step>, i: nat)
    requires i < |Run(slots, steps).slots|
    requires var s := Run(slots, steps);
             && !((s.acceptor.Filled? || s.acceptor.Failed?) && s.acceptor.i == i)
             && forall w :: 0 <= w < |s.workers| && s.workers[w].slot == i ==>
                  !s.workers[w].stage.Started? && !s.workers[w].stage.Running?
    ensures !Run(slots, steps).slots[i].online
  {
    hide Run;
    RunAttended(slots, steps);
    assert Attended(Run(slots, steps), i);
  }

  // ---- What an accept does --------------------------------------------------------------------

  /** n steps of the acceptor, or of a worker */
  function Repeat(s: Server, step: Step, n: nat): (s': Server)
    requires InRange(s)
    ensures InRange(s')
  {
    if n == 0 then s else Next(Repeat(s, step, n - 1), step)
  }

  lemma RepeatMore(s: Server, step: Step, n: nat)
    requires InRange(s)
    ensures Repeat(s, step, 0) == s && Repeat(s, step, n + 1) == Next(Repeat(s, step, n), step)
  {
  }

  /** Joining the slot's old thread would not wait. */
  predicate Joinable(s: Server, i: nat)
    requires InRange(s) && i < |s.slots|
  {
    s.slots[i].thread ==> s.workers[s.slots[i].tid].stage == Ended
  }

  lemma JoinAndFill(s: Server, i: nat, e: Step)
    requires InRange(s) && s.acceptor == Chosen(i) && Joinable(s, i) && e.Accept?
    ensures Next(s, e) == s.(slots := s.slots[i := s.slots[i].(thread := false)], acceptor := Ready(i))
    ensures Next(Next(s, e), e) == s.(slots := s.slots[i := Slot(true, false, s.slots[i].tid)], acceptor := Filled(i))
  {
    var s1 := Next(s, e);
    assert s.slots[i := s.slots[i]] == s.slots;
    assert s1.slots == s.slots[i := s.slots[i].(thread := false)];
  }

  lemma ScanOne(s: Server, i: nat, e: Step)
    requires InRange(s) && s.acceptor == Scan(i) && i < |s.slots| && e.Accept?
    ensures Next(s, e) == s.(acceptor := if s.slots[i].online then Scan(i + 1) else Chosen(i))
  {
  }

  /** A free slot is filled, once its old thread is joined, its worker created, and the counter read. */
  lemma FillSlot(s: Server, i: nat)
    requires InRange(s) && s.acceptor == Chosen(i) && Joinable(s, i)
    ensures var e := Accept(true);
            var filled := s.(slots := s.slots[i := Slot(true, false, |s.workers|)],
                workers := s.workers + [Worker(i, Started)]);
            && Next(Next(Next(s, e), e), e) == filled.(acceptor := Created(i))
            && Next(Next(Next(Next(s, e), e), e), e) == filled.(acceptor := Counting(i, s.count))
  {
    var e := Accept(true);
    JoinAndFill(s, i, e);
    var s2 := Next(Next(s, e), e);
    assert s2.slots[i := Slot(true, false, |s.workers|)] == s.slots[i := Slot(true, false, |s.workers|)];
  }

  lemma CountOne(s: Server, i: nat, v: nat)
    requires InRange(s) && s.acceptor == Counting(i, v)
    ensures Next(s, Accept(true)) == s.(count := (v + 1) % U32_LIMIT, drift := s.drift + v - s.count, acceptor := Idle)
  {
  }

  lemma StartScan(s: Server, e: Step)
    requires InRange(s) && s.acceptor == Idle && e.Accept?
    ensures Next(s, e) == s.(acceptor := Scan(0))
  {
  }

  lemma {:induction false} ScanTo(s: Server, i: nat, e: Step)
    requires InRange(s) && s.acceptor == Idle && e.Accept? && i <= |s.slots|
    requires forall j :: 0 <= j < i ==> s.slots[j].online
    ensures Repeat(s, e, i + 1) == s.(acceptor := Scan(i))
  {
    hide Next, Repeat;
    RepeatMore(s, e, i);
    if i == 0 {
      StartScan(s, e);
    } else {
      ScanTo(s, i - 1, e);
      ScanOne(s.(acceptor := Scan(i - 1)), i - 1, e);
    }
  }

  /** An accept takes the first free slot once its old thread can be joined: exactly that slot is overwritten,
      exactly one worker is created, for it, and the client is counted. */
  lemma {:induction false} AcceptCreates(s: Server, i: nat)
    requires InRange(s) && s.acceptor == Idle && i < |s.slots| && !s.slots[i].online && Joinable(s, i)
    requires forall j :: 0 <= j < i ==> s.slots[j].online
    ensures Repeat(s, Accept(true), i + 7) ==
            s.(slots := s.slots[i := Slot(true, false, |s.workers|)], workers := s.workers + [Worker(i, Started)],
               count := (s.count + 1) % U32_LIMIT)
  {
    hide Next, Repeat;
    var e := Accept(true);
    ScanTo(s, i, e);
    var s1 := s.(acceptor := Scan(i));
    ScanOne(s1, i, e);
    FillSlot(s.(acceptor := Chosen(i)), i);
    RepeatMore(s, e, i + 1);
    RepeatMore(s, e, i + 2);
    RepeatMore(s, e, i + 3);
    RepeatMore(s, e, i + 4);
    RepeatMore(s, e, i + 5);
    RepeatMore(s, e, i + 6);
    var s5 := Repeat(s, e, i + 6);
    CountOne(s5, i, s.count);
  }

  /** When the thread cannot be created, the slot is free again and nothing is counted. */
  lemma {:induction false} AcceptGivesUp(s: Server, i: nat)
    requires InRange(s) && s.acceptor == Idle && i < |s.slots| && !s.slots[i].online && Joinable(s, i)
    requires forall j :: 0 <= j < i ==> s.slots[j].online
    ensures Repeat(s, Accept(false), i + 6) == s.(slots := s.slots[i := Slot(false, false, s.slots[i].tid)])
  {
    hide Next, Repeat;
    var e := Accept(false);
    ScanTo(s, i, e);
    ScanOne(s.(acceptor := Scan(i)), i, e);
    var s1 := s.(acceptor := Chosen(i));
    JoinAndFill(s1, i, e);
    TakeBack(Next(Next(s1, e), e), i);
    RepeatMore(s, e, i + 1);
    RepeatMore(s, e, i + 2);
    RepeatMore(s, e, i + 3);
    RepeatMore(s, e, i + 4);
    RepeatMore(s, e, i + 5);
  }

  lemma TakeBack(s: Server, i: nat)
    requires InRange(s) && s.acceptor == Filled(i)
    ensures var e := Accept(false);
            Next(Next(s, e), e) == s.(slots := s.slots[i := s.slots[i].(online := false)], acceptor := Idle)
  {
  }

  /** A server without a free slot turns the client away. */
  lemma {:induction false} FullServerRefuses(s: Server, e: Step)
    requires InRange(s) && s.acceptor == Idle && e.Accept? && forall j :: 0 <= j < |s.slots| ==> s.slots[j].online
    ensures Repeat(s, e, |s.slots| + 2) == s
  {
    ScanTo(s, |s.slots|, e);
    RepeatMore(s, e, |s.slots| + 1);
  }

  // ---- A run that loses one -------------------------------------------------------------------

  lemma {:induction false} RunRepeat(slots: nat, steps: seq<Step>, step: Step, n: nat)
    ensures Run(slots, steps + seq(n, _ => step)) == Repeat(Run(slots, steps), step, n)
  {
    hide Next;
    if n == 0 {
      assert steps + seq(n, _ => step) == steps;
    } else {
      RunRepeat(slots, steps, step, n - 1);
      assert (steps + seq(n, _ => step))[..|steps| + n - 1] == steps + seq(n - 1, _ => step);
    }
  }

  /** A client leaves while the next one is being counted: the acceptor has read the counter, the worker
      writes it, and the acceptor writes the value it has read plus one. One client is connected, and the
      counter stays at 2. */
  lemma {:induction false} LoginCountGoesWrong()
    ensures var steps := seq(7, _ => Accept(true)) + seq(1, _ => Work(0)) + seq(7, _ => Accept(true))
                         + seq(3, _ => Work(0)) + seq(1, _ => Accept(true));
            var s := Run(2, steps);
            NumLive(s.workers) == 1 && s.acceptor == Idle && s.count == 2
  {
    hide Run;
    var a, b, c := seq(7, _ => Accept(true)), seq(1, _ => Work(0)), seq(3, _ => Work(0));
    RunNothing();
    RunRepeat(2, [], Accept(true), 7);
    assert [] + a == a;
    FirstClient();
    RunRepeat(2, a, Work(0), 1);
    RunRepeat(2, a + b, Accept(true), 7);
    SecondClient();
    RunRepeat(2, a + b + a, Work(0), 3);
    RunRepeat(2, a + b + a + c, Accept(true), 1);
    FirstLeaves();
  }

  lemma RunNothing()
    ensures Run(2, []) == Start(2)
  {
  }

  lemma RepeatThree(s: Server, step: Step)
    requires InRange(s)
    ensures Repeat(s, step, 1) == Next(s, step)
    ensures Repeat(s, step, 3) == Next(Next(Next(s, step), step), step)
  {
    hide Next, Repeat;
    RepeatMore(s, step, 0);
    RepeatMore(s, step, 1);
    RepeatMore(s, step, 2);
  }

  lemma RepeatSeven(s: Server, step: Step)
    requires InRange(s)
    ensures var s3 := Next(Next(Next(s, step), step), step);
            var s5 := Next(Next(s3, step), step);
            Repeat(s, step, 7) == Next(Next(s5, step), step)
  {
    hide Next, Repeat;
    RepeatThree(s, step);
    RepeatMore(s, step, 3);
    RepeatMore(s, step, 4);
    RepeatMore(s, step, 5);
    RepeatMore(s, step, 6);
  }

  lemma FirstClient()
    ensures Repeat(Start(2), Accept(true), 7) ==
            Server([Slot(true, false, 0), Slot(false, false, 0)], [Worker(0, Started)], Idle, 1, 0)
  {
    hide Repeat, Next;
    var s, e := Start(2), Accept(true);
    RepeatSeven(s, e);
    StartScan(s, e);
    var s1 := Next(s, e);
    ScanOne(s1, 0, e);
    var s2 := Next(s1, e);
    FillSlot(s2, 0);
    var s6 := Next(Next(Next(Next(s2, e), e), e), e);
    CountOne(s6, 0, 0);
    assert s6.slots == [Slot(true, false, 0), Slot(false, false, 0)];
  }

  lemma SecondClient()
    ensures var s := Server([Slot(true, false, 0), Slot(false, false, 0)], [Worker(0, Started)], Idle, 1, 0);
            InRange(s) &&
            Repeat(Repeat(s, Work(0), 1), Accept(true), 7) ==
            Server([Slot(true, true, 0), Slot(true, false, 1)], [Worker(0, Running), Worker(1, Started)],
                Counting(1, 1), 1, 0)
  {
    hide Repeat, Next;
    var s, e := Server([Slot(true, false, 0), Slot(false, false, 0)], [Worker(0, Started)], Idle, 1, 0), Accept(true);
    WorkerStarts(s);
    RepeatThree(s, Work(0));
    var s1 := Next(s, Work(0));
    RepeatSeven(s1, e);
    StartScan(s1, e);
    var s2 := Next(s1, e);
    ScanOne(s2, 0, e);
    var s3 := Next(s2, e);
    ScanOne(s3, 1, e);
    FillSlot(Next(s3, e), 1);
  }

  lemma WorkerStarts(s: Server)
    requires s == Server([Slot(true, false, 0), Slot(false, false, 0)], [Worker(0, Started)], Idle, 1, 0)
    ensures InRange(s)
    ensures Next(s, Work(0)) == Server([Slot(true, true, 0), Slot(false, false, 0)], [Worker(0, Running)], Idle, 1, 0)
  {
  }

  lemma OneLive()
    ensures NumLive([Worker(0, Ended), Worker(1, Started)]) == 1
  {
    var ws := [Worker(0, Ended), Worker(1, Started)];
    assert ws[..1] == [Worker(0, Ended)] && ws[..1][..0] == [];
    assert NumLive(ws[..1]) == NumLive(ws[..1][..0]) == 0;
  }

  lemma WorkerLeaves(s: Server, v: nat)
    requires InRange(s) && 1 <= s.count == v < U32_LIMIT && s.workers == [Worker(0, Running), Worker(1, Started)]
    ensures var s' := Next(Next(Next(s, Work(0)), Work(0)), Work(0));
            s'.workers == [Worker(0, Ended), Worker(1, Started)] && s'.count == v - 1 && s'.acceptor == s.acceptor
  {
    var s1 := Next(s, Work(0));
    assert s1.workers == [Worker(0, Leaving), Worker(1, Started)] && s1.count == v;
    var s2 := Next(s1, Work(0));
    assert s2.workers == [Worker(0, Uncounting(v)), Worker(1, Started)] && s2.count == v;
  }

  lemma FirstLeaves()
    ensures var s := Server([Slot(true, true, 0), Slot(true, false, 1)], [Worker(0, Running), Worker(1, Started)],
                            Counting(1, 1), 1, 0);
            && InRange(s)
            && var s' := Repeat(Repeat(s, Work(0), 3), Accept(true), 1);
               NumLive(s'.workers) == 1 && s'.acceptor == Idle && s'.count == 2
  {
    hide Repeat, NumLive, Next;
    var s := Server([Slot(true, true, 0), Slot(true, false, 1)], [Worker(0, Running), Worker(1, Started)],
        Counting(1, 1), 1, 0);
    RepeatThree(s, Work(0));
    WorkerLeaves(s, 1);
    var s3 := Next(Next(Next(s, Work(0)), Work(0)), Work(0));
    RepeatThree(s3, Accept(true));
    CountOne(s3, 1, 1);
    OneLive();
  }
}
