/** The database connection pool as interleaved steps: finders run under a mutex, unlockers do not, and
    every read and every write of a lock flag or of the connection counter is a step of its own. */
module DbPool {
  import opened Bytes

  /** Where a caller stands. The index is the connection it has found, holds or is giving back. */
  datatype Pc =
    | Outside
    | Waiting               // at the mutex in STSV_DBFindAndLockResource
    | Scanning(i: nat)      // about to look at connection i
    | Found(i: nat)         // before s_nCurDBConnect++ reads the counter
    | Loaded(i: nat, v: int) // before it writes v + 1
    | Counted(i: nat)       // before sqlLock[i] = true
    | Locked(i: nat)        // before the mutex is released
    | Holding(i: nat)       // back in the caller, which may use the connection
    | Tested(i: nat)        // in STSV_DBUnlockResource, before s_nCurDBConnect-- reads the counter
    | Taken(i: nat, v: int) // before it writes v - 1
    | Decremented(i: nat)   // before the test for a negative counter
    | Negative(i: nat)      // before the counter is set to 0
    | Clamped(i: nat)       // before sqlLock[i] = false

  /** sqlLock, s_nCurDBConnect, the holder of s_MutexFreeDBIdx and every caller's position; and, as history,
      how far the counter has been put off by writes of values read too early. */
  datatype Pool = Pool(locked: seq<bool>, cur: int, mutex: Option<nat>, pcs: seq<Pc>, drift: int)

  predicate InRange(s: Pool) {
    && 0 < |s.locked|
    && forall t :: 0 <= t < |s.pcs| ==> HasIndex(s.pcs[t]) || s.pcs[t].Scanning? ==> s.pcs[t].i < |s.locked|
  }

  predicate HasIndex(pc: Pc) {
    !pc.Outside? && !pc.Waiting? && !pc.Scanning?
  }

  /** One step of caller t; which connections are open stays fixed. */
  function Next(s: Pool, open: seq<bool>, t: nat): (s': Pool)
    requires InRange(s) && |open| == |s.locked| && t < |s.pcs|
    ensures InRange(s') && |s'.locked| == |s.locked| && |s'.pcs| == |s.pcs|
  {
    match s.pcs[t]
    case Outside => At(s, t, Waiting)
    case Waiting => if s.mutex == None then At(s.(mutex := Some(t)), t, Scanning(0)) else s
    case Scanning(i) =>
      if !s.locked[i] && open[i] then At(s, t, Found(i))
      else At(s, t, Scanning(if i + 1 >= |s.locked| then 0 else i + 1))
    case Found(i) => At(s, t, Loaded(i, s.cur))
    case Loaded(i, v) => At(s.(cur := v + 1, drift := s.drift + v - s.cur), t, Counted(i))
    case Counted(i) => At(s.(locked := s.locked[i := true]), t, Locked(i))
    case Locked(i) => At(s.(mutex := None), t, Holding(i))
    case Holding(i) => if s.locked[i] then At(s, t, Tested(i)) else At(s, t, Outside)
    case Tested(i) => At(s, t, Taken(i, s.cur))
    case Taken(i, v) => At(s.(cur := v - 1, drift := s.drift + v - s.cur), t, Decremented(i))
    case Decremented(i) => At(s, t, if s.cur < 0 then Negative(i) else Clamped(i))
    case Negative(i) => At(s.(cur := 0, drift := s.drift - s.cur), t, Clamped(i))
    case Clamped(i) => At(s.(locked := s.locked[i := false]), t, Outside)
  }

  function At(s: Pool, t: nat, pc: Pc): Pool
    requires t < |s.pcs|
  {
    s.(pcs := s.pcs[t := pc])
  }

  function Start(connections: nat, callers: nat): Pool {
    Pool(seq(connections, _ => false), 0, None, seq(callers, _ => Outside), 0)
  }

  function Run(connections: nat, callers: nat, open: seq<bool>, schedule: seq<nat>): (s: Pool)
    requires 0 < connections == |open| && forall k :: 0 <= k < |schedule| ==> schedule[k] < callers
    ensures InRange(s) && |s.locked| == connections && |s.pcs| == callers
  {
    if schedule == [] then Start(connections, callers)
    else Next(Run(connections, callers, open, schedule[..|schedule| - 1]), open, schedule[|schedule| - 1])
  }

  // ---- Counting -------------------------------------------------------------------------------

  /** Between the increment and the set */
  predicate IsCounted(pc: Pc) { pc.Counted? }

  /** Between decrement and clear */
  predicate IsDecremented(pc: Pc) { pc.Decremented? || pc.Negative? || pc.Clamped? }

  /** Its connection's flag is set on its behalf. */
  predicate IsOwner(pc: Pc) { pc.Locked? || pc.Holding? || pc.Tested? || pc.Taken? || IsDecremented(pc) }

  predicate InCritical(pc: Pc) { pc.Scanning? || pc.Found? || pc.Loaded? || pc.Counted? || pc.Locked? }

  function Num<T>(s: seq<T>, p: T -> bool): nat {
    if s == [] then 0 else Num(s[..|s| - 1], p) + if p(s[|s| - 1]) then 1 else 0
  }

  function NumLocked(locked: seq<bool>): nat {
    Num(locked, b => b)
  }

  lemma {:induction false} NumUpdate<T>(s: seq<T>, p: T -> bool, t: nat, x: T)
    requires t < |s|
    ensures Num(s[t := x], p) == Num(s, p) - (if p(s[t]) then 1 else 0) + (if p(x) then 1 else 0)
  {
    var n := |s| - 1;
    if t < n {
      assert s[t := x][..n] == s[..n][t := x];
      NumUpdate(s[..n], p, t, x);
    } else {
      assert s[t := x][..n] == s[..n];
    }
  }

  lemma {:induction false} NumLess<T>(s: seq<T>, p: T -> bool, q: T -> bool)
    requires forall x :: x in s && p(x) ==> q(x)
    ensures Num(s, p) <= Num(s, q)
  {
    if s != [] {
      assert s[|s| - 1] in s;
      assert forall x :: x in s[..|s| - 1] ==> x in s;
      NumLess(s[..|s| - 1], p, q);
    }
  }

  lemma {:induction false} NumNone<T>(s: seq<T>, p: T -> bool)
    requires forall k :: 0 <= k < |s| ==> !p(s[k])
    ensures Num(s, p) == 0
  {
    if s != [] {
      NumNone(s[..|s| - 1], p);
    }
  }

  // ---- The invariant --------------------------------------------------------------------------

  ghost predicate Exclusive(s: Pool) {
    forall t, u :: 0 <= t < u < |s.pcs| && HasIndex(s.pcs[t]) && HasIndex(s.pcs[u]) ==> s.pcs[t].i != s.pcs[u].i
  }

  /** The flag of a connection is set exactly while a caller owns it, and a finder's connection is not yet set. */
  ghost predicate FlagsAgree(s: Pool)
    requires InRange(s)
  {
    forall t :: 0 <= t < |s.pcs| ==> FlagAgrees(s.pcs[t], s.locked)
  }

  predicate FlagAgrees(pc: Pc, locked: seq<bool>)
    requires HasIndex(pc) ==> pc.i < |locked|
  {
    HasIndex(pc) ==> locked[pc.i] == IsOwner(pc)
  }

  ghost predicate Guarded(s: Pool) {
    forall t :: 0 <= t < |s.pcs| ==> (InCritical(s.pcs[t]) <==> s.mutex == Some(t))
  }

  /** What the counter should be: the set flags, with the finders that have counted but not yet set, and
      without the unlockers that have discounted but not yet cleared. */
  function Due(s: Pool): int {
    NumLocked(s.locked) + Num(s.pcs, IsCounted) - Num(s.pcs, IsDecremented)
  }

  ghost predicate Balanced(s: Pool) {
    NumLocked(s.locked) == Num(s.pcs, IsOwner) && s.cur == Due(s) + s.drift
  }

  ghost predicate Inv(s: Pool)
    requires InRange(s)
  {
    Exclusive(s) && FlagsAgree(s) && Guarded(s) && Balanced(s) && (s.mutex.Some? ==> s.mutex.value < |s.pcs|)
  }

  lemma NeverNegative(s: Pool)
    requires InRange(s) && Balanced(s)
    ensures Due(s) >= 0
  {
    NumLess(s.pcs, IsDecremented, IsOwner);
  }

  lemma StepBalanced(s: Pool, open: seq<bool>, t: nat)
    requires InRange(s) && |open| == |s.locked| && t < |s.pcs| && Inv(s)
    ensures Balanced(Next(s, open, t))
  {
    hide Exclusive, Guarded;
    assert FlagAgrees(s.pcs[t], s.locked);
    var s' := Next(s, open, t);
    NeverNegative(s);
    NumUpdate(s.pcs, IsOwner, t, s'.pcs[t]);
    NumUpdate(s.pcs, IsCounted, t, s'.pcs[t]);
    NumUpdate(s.pcs, IsDecremented, t, s'.pcs[t]);
    assert s.pcs[t := s.pcs[t]] == s.pcs;
    match s.pcs[t]
    case Counted(i) => NumUpdate(s.locked, b => b, i, true);
    case Clamped(i) => NumUpdate(s.locked, b => b, i, false);
    case _ =>
  }

  lemma StepExclusive(s: Pool, open: seq<bool>, t: nat)
    requires InRange(s) && |open| == |s.locked| && t < |s.pcs| && Inv(s)
    ensures Exclusive(Next(s, open, t))
  {
    hide Balanced;
    var s' := Next(s, open, t);
    forall u | 0 <= u < |s.pcs| && u != t && HasIndex(s'.pcs[t]) && HasIndex(s.pcs[u])
      ensures s'.pcs[t].i != s.pcs[u].i
    {
      if s.pcs[t].Scanning? {
        assert InCritical(s.pcs[t]);
      }
    }
  }

  lemma StepFlags(s: Pool, open: seq<bool>, t: nat)
    requires InRange(s) && |open| == |s.locked| && t < |s.pcs| && Inv(s)
    ensures FlagsAgree(Next(s, open, t))
  {
    hide Balanced, Guarded;
    var s' := Next(s, open, t);
    forall u | 0 <= u < |s.pcs|
      ensures FlagAgrees(s'.pcs[u], s'.locked)
    {
      assert FlagAgrees(s.pcs[u], s.locked) && FlagAgrees(s.pcs[t], s.locked);
      if u != t {
        assert s'.pcs[u] == s.pcs[u];
        assert HasIndex(s.pcs[u]) && HasIndex(s.pcs[t]) ==> s.pcs[t].i != s.pcs[u].i;
      }
    }
  }

  lemma StepGuarded(s: Pool, open: seq<bool>, t: nat)
    requires InRange(s) && |open| == |s.locked| && t < |s.pcs| && Inv(s)
    ensures var s' := Next(s, open, t);
            Guarded(s') && (s'.mutex.Some? ==> s'.mutex.value < |s'.pcs|)
  {
    hide Balanced, FlagsAgree, Exclusive;
  }

  lemma {:induction false} RunInv(connections: nat, callers: nat, open: seq<bool>, schedule: seq<nat>)
    requires 0 < connections == |open| && forall k :: 0 <= k < |schedule| ==> schedule[k] < callers
    ensures Inv(Run(connections, callers, open, schedule))
  {
    if schedule == [] {
      var s := Start(connections, callers);
      NumNone(s.locked, b => b);
      NumNone(s.pcs, IsOwner);
      NumNone(s.pcs, IsCounted);
      NumNone(s.pcs, IsDecremented);
    } else {
      var n := |schedule| - 1;
      RunInv(connections, callers, open, schedule[..n]);
      var s := Run(connections, callers, open, schedule[..n]);
      StepBalanced(s, open, schedule[n]);
      StepExclusive(s, open, schedule[n]);
      StepFlags(s, open, schedule[n]);
      StepGuarded(s, open, schedule[n]);
    }
  }

  /** In every interleaving no two callers are ever given the same connection, whatever becomes of the
      counter; and an unlocker always finds its flag set. */
  lemma NoSharing(connections: nat, callers: nat, open: seq<bool>, schedule: seq<nat>, t: nat, u: nat)
    requires 0 < connections == |open| && forall k :: 0 <= k < |schedule| ==> schedule[k] < callers
    requires t < callers && u < callers && t != u
    ensures var s := Run(connections, callers, open, schedule);
            && (HasIndex(s.pcs[t]) && HasIndex(s.pcs[u]) ==> s.pcs[t].i != s.pcs[u].i)
            && (s.pcs[t].Holding? ==> s.locked[s.pcs[t].i])
  {
    RunInv(connections, callers, open, schedule);
    assert FlagAgrees(Run(connections, callers, open, schedule).pcs[t],
        Run(connections, callers, open, schedule).locked);
  }

  /** In every interleaving the counter is what it should be, but for its drift. */
  lemma CounterDrift(connections: nat, callers: nat, open: seq<bool>, schedule: seq<nat>)
    requires 0 < connections == |open| && forall k :: 0 <= k < |schedule| ==> schedule[k] < callers
    ensures var s := Run(connections, callers, open, schedule);
            s.cur == Due(s) + s.drift && Due(s) >= 0 && NumLocked(s.locked) == Num(s.pcs, IsOwner)
  {
    RunInv(connections, callers, open, schedule);
    NeverNegative(Run(connections, callers, open, schedule));
  }

  // ---- Only open connections, and always one --------------------------------------------------

  /** A caller has only ever found an open connection. */
  predicate FoundOpen(s: Pool, open: seq<bool>)
    requires InRange(s) && |open| == |s.locked|
  {
    forall t :: 0 <= t < |s.pcs| && HasIndex(s.pcs[t]) ==> open[s.pcs[t].i]
  }

  lemma StepOpen(s: Pool, open: seq<bool>, t: nat)
    requires InRange(s) && |open| == |s.locked| && t < |s.pcs| && FoundOpen(s, open)
    ensures FoundOpen(Next(s, open, t), open)
  {
    var s' := Next(s, open, t);
    forall u | 0 <= u < |s'.pcs| && HasIndex(s'.pcs[u])
      ensures open[s'.pcs[u].i]
    {
      if u != t {
        assert s'.pcs[u] == s.pcs[u];
      }
    }
  }

  /** In every interleaving a caller is given a connection that has been opened. */
  lemma {:induction false} OnlyOpenConnections(connections: nat, callers: nat, open: seq<bool>, schedule: seq<nat>)
    requires 0 < connections == |open| && forall k :: 0 <= k < |schedule| ==> schedule[k] < callers
    ensures FoundOpen(Run(connections, callers, open, schedule), open)
  {
    hide Next;
    if schedule == [] {
      NothingFound(connections, callers, open);
    } else {
      var n := |schedule| - 1;
      OnlyOpenConnections(connections, callers, open, schedule[..n]);
      StepOpen(Run(connections, callers, open, schedule[..n]), open, schedule[n]);
    }
  }

  lemma NothingFound(connections: nat, callers: nat, open: seq<bool>)
    requires 0 < connections == |open|
    ensures FoundOpen(Start(connections, callers), open)
  {
  }

  /** n steps of one caller */
  function Alone(s: Pool, open: seq<bool>, t: nat, n: nat): (s': Pool)
    requires InRange(s) && |open| == |s.locked| && t < |s.pcs|
    ensures InRange(s') && |s'.locked| == |s.locked| && |s'.pcs| == |s.pcs|
  {
    if n == 0 then s else Next(Alone(s, open, t, n - 1), open, t)
  }

  predicate Available(s: Pool, open: seq<bool>, i: nat)
    requires |open| == |s.locked|
  {
    i < |s.locked| && !s.locked[i] && open[i]
  }

  lemma ScanNext(s: Pool, open: seq<bool>, t: nat, i: nat)
    requires InRange(s) && |open| == |s.locked| && t < |s.pcs| && s.pcs[t] == Scanning(i)
    ensures Next(s, open, t) ==
            s.(pcs := s.pcs[t := if Available(s, open, i) then Found(i)
                                 else Scanning(if i + 1 >= |s.locked| then 0 else i + 1)])
  {
  }

  /** While nothing is available from i on, the scan moves on one connection a step, and from the last one
      to the first. */
  lemma {:induction false} ScanOn(s: Pool, open: seq<bool>, t: nat, i: nat, n: nat)
    requires InRange(s) && |open| == |s.locked| && t < |s.pcs| && s.pcs[t] == Scanning(i) && i + n <= |s.locked|
    requires forall k :: i <= k < i + n ==> !Available(s, open, k)
    ensures Alone(s, open, t, n) == s.(pcs := s.pcs[t := Scanning(if n > 0 && i + n == |s.locked| then 0 else i + n)])
  {
    hide Next;
    if n == 0 {
      assert s.pcs[t := s.pcs[t]] == s.pcs;
    } else {
      ScanOn(s, open, t, i, n - 1);
      var a := Alone(s, open, t, n - 1);
      ScanNext(a, open, t, i + n - 1);
      assert Available(a, open, i + n - 1) == Available(s, open, i + n - 1);
      assert s.pcs[t := Scanning(i + n - 1)][t := Scanning(0)] == s.pcs[t := Scanning(0)];
      assert s.pcs[t := Scanning(i + n - 1)][t := Scanning(i + n)] == s.pcs[t := Scanning(i + n)];
    }
  }

  /** How many steps a scan from i needs to find j. */
  function Distance(s: Pool, i: nat, j: nat): nat
    requires i < |s.locked| && j < |s.locked|
  {
    if i <= j then j - i + 1 else |s.locked| - i + j + 1
  }

  /** Between i and j, going round, nothing is available. */
  predicate NoneBefore(s: Pool, open: seq<bool>, i: nat, j: nat)
    requires |open| == |s.locked|
  {
    if i <= j then forall k :: i <= k < j ==> !Available(s, open, k)
    else
      && (forall k :: i <= k < |s.locked| ==> !Available(s, open, k))
      && (forall k :: 0 <= k < j ==> !Available(s, open, k))
  }

  lemma {:induction false} AloneSplit(s: Pool, open: seq<bool>, t: nat, m: nat, n: nat)
    requires InRange(s) && |open| == |s.locked| && t < |s.pcs|
    ensures Alone(s, open, t, m + n) == Alone(Alone(s, open, t, m), open, t, n)
  {
    hide Next;
    if n > 0 {
      AloneSplit(s, open, t, m, n - 1);
    }
  }

  /** The scan finds the first available connection, going round once at most, as long as no flag changes
      meanwhile. */
  lemma {:induction false} ScanFinds(s: Pool, open: seq<bool>, t: nat, i: nat, j: nat)
    requires InRange(s) && |open| == |s.locked| && t < |s.pcs| && s.pcs[t] == Scanning(i)
    requires j < |s.locked| && Available(s, open, j) && NoneBefore(s, open, i, j)
    ensures Distance(s, i, j) <= |s.locked|
    ensures Alone(s, open, t, Distance(s, i, j)) == s.(pcs := s.pcs[t := Found(j)])
  {
    hide Next, Available;
    var n := |s.locked|;
    if i <= j {
      ScanOn(s, open, t, i, j - i);
      FindsHere(s, open, t, j, j - i);
    } else {
      ScanOn(s, open, t, i, n - i);
      var s0 := Alone(s, open, t, n - i);
      SameFlags(s, s0, open);
      ScanOn(s0, open, t, 0, j);
      FindsHere(s0, open, t, j, j);
      AloneSplit(s, open, t, n - i, j + 1);
      assert s.pcs[t := Scanning(0)][t := Found(j)] == s.pcs[t := Found(j)];
    }
  }

  lemma SameFlags(s: Pool, s': Pool, open: seq<bool>)
    requires s.locked == s'.locked && |open| == |s.locked|
    ensures forall k: nat :: Available(s', open, k) == Available(s, open, k)
  {
  }

  lemma FindsHere(s: Pool, open: seq<bool>, t: nat, j: nat, n: nat)
    requires InRange(s) && |open| == |s.locked| && t < |s.pcs| && Available(s, open, j)
    requires Alone(s, open, t, n) == s.(pcs := s.pcs[t := Scanning(j)])
    ensures Alone(s, open, t, n + 1) == s.(pcs := s.pcs[t := Found(j)])
  {
    var a := Alone(s, open, t, n);
    ScanNext(a, open, t, j);
    assert s.pcs[t := Scanning(j)][t := Found(j)] == s.pcs[t := Found(j)];
  }

  /** From the mutex to the connection found at i: five more steps. */
  lemma Takes(s: Pool, open: seq<bool>, t: nat, n: nat, i: nat)
    requires InRange(s) && |open| == |s.locked| && t < |s.pcs|
    requires var a := Alone(s, open, t, n);
             a.pcs[t] == Scanning(i) && !a.locked[i] && open[i] && a.mutex == Some(t)
    ensures var a := Alone(s, open, t, n);
            Alone(s, open, t, n + 5) ==
            Pool(a.locked[i := true], a.cur + 1, None, a.pcs[t := Holding(i)], a.drift)
  {
    var a := Alone(s, open, t, n);
    var a1 := Alone(s, open, t, n + 1);
    assert a1 == a.(pcs := a.pcs[t := Found(i)]);
    var a2 := Alone(s, open, t, n + 2);
    assert a2 == a.(pcs := a.pcs[t := Loaded(i, a.cur)]);
    var a3 := Alone(s, open, t, n + 3);
    assert a3 == a.(cur := a.cur + 1, pcs := a.pcs[t := Counted(i)]);
    var a4 := Alone(s, open, t, n + 4);
    assert a4 == a.(cur := a.cur + 1, locked := a.locked[i := true], pcs := a.pcs[t := Locked(i)]);
  }

  /** A caller at an unlocked mutex gets the first available connection, if it alone moves: its flag is set,
      it is counted, and the mutex is released. */
  lemma {:induction false} CallerGetsOne(s: Pool, open: seq<bool>, t: nat, j: nat)
    requires InRange(s) && |open| == |s.locked| && t < |s.pcs| && s.pcs[t] == Waiting && s.mutex == None
    requires j < |s.locked| && Available(s, open, j) && forall k :: 0 <= k < j ==> !Available(s, open, k)
    ensures Alone(s, open, t, j + 6) ==
            Pool(s.locked[j := true], s.cur + 1, None, s.pcs[t := Holding(j)], s.drift)
  {
    hide Next, Available;
    var s1 := s.(mutex := Some(t), pcs := s.pcs[t := Scanning(0)]);
    EntersMutex(s, open, t);
    SameFlags(s, s1, open);
    ScanOn(s1, open, t, 0, j);
    Unavailable(s, open, j);
    assert Alone(s, open, t, 1) == Next(Alone(s, open, t, 0), open, t);
    AloneSplit(s, open, t, 1, j);
    Takes(s, open, t, j + 1, j);
    assert s.pcs[t := Scanning(0)][t := Scanning(j)][t := Holding(j)] == s.pcs[t := Holding(j)];
    assert s.pcs[t := Scanning(0)][t := Scanning(0)] == s.pcs[t := Scanning(0)];
  }

  lemma Unavailable(s: Pool, open: seq<bool>, j: nat)
    requires |open| == |s.locked| && Available(s, open, j)
    ensures j < |s.locked| && !s.locked[j] && open[j]
  {
  }

  lemma EntersMutex(s: Pool, open: seq<bool>, t: nat)
    requires InRange(s) && |open| == |s.locked| && t < |s.pcs| && s.pcs[t] == Waiting && s.mutex == None
    ensures Next(s, open, t) == s.(mutex := Some(t), pcs := s.pcs[t := Scanning(0)])
  {
  }

  /** A caller that gives its connection back, if it alone moves, clears the flag and counts it off. */
  lemma {:induction false} CallerGivesBack(s: Pool, open: seq<bool>, t: nat, i: nat)
    requires InRange(s) && |open| == |s.locked| && t < |s.pcs| && s.pcs[t] == Holding(i) && s.locked[i] && s.cur >= 1
    ensures Alone(s, open, t, 5) == s.(locked := s.locked[i := false], cur := s.cur - 1, pcs := s.pcs[t := Outside])
  {
    var a2 := Alone(s, open, t, 2);
    assert a2 == s.(pcs := s.pcs[t := Taken(i, s.cur)]) by {
      assert Alone(s, open, t, 1).pcs == s.pcs[t := Tested(i)];
      assert s.pcs[t := Tested(i)][t := Taken(i, s.cur)] == s.pcs[t := Taken(i, s.cur)];
    }
    var a3 := Alone(s, open, t, 3);
    assert a3 == s.(cur := s.cur - 1, pcs := s.pcs[t := Decremented(i)]);
    var a4 := Alone(s, open, t, 4);
    assert a4 == s.(cur := s.cur - 1, pcs := s.pcs[t := Clamped(i)]);
    assert s.pcs[t := Clamped(i)][t := Outside] == s.pcs[t := Outside];
  }

  // ---- When the counter is exact --------------------------------------------------------------

  /** If the step writes the counter, it finds the value it has read. */
  predicate WritesFresh(s: Pool, t: nat)
    requires t < |s.pcs|
  {
    (s.pcs[t].Loaded? || s.pcs[t].Taken?) ==> s.pcs[t].v == s.cur
  }

  /** Every write of the counter finds the value its caller has read. */
  predicate Undisturbed(connections: nat, callers: nat, open: seq<bool>, schedule: seq<nat>)
    requires 0 < connections == |open| && forall k :: 0 <= k < |schedule| ==> schedule[k] < callers
  {
    schedule == [] ||
    var n := |schedule| - 1;
    && Undisturbed(connections, callers, open, schedule[..n])
    && WritesFresh(Run(connections, callers, open, schedule[..n]), schedule[n])
  }

  /** The counter is what it should be after every step. */
  predicate ExactThroughout(connections: nat, callers: nat, open: seq<bool>, schedule: seq<nat>)
    requires 0 < connections == |open| && forall k :: 0 <= k < |schedule| ==> schedule[k] < callers
  {
    var s := Run(connections, callers, open, schedule);
    && s.cur == Due(s)
    && (schedule == [] || ExactThroughout(connections, callers, open, schedule[..|schedule| - 1]))
  }

  predicate NoneNegative(s: Pool) {
    forall t :: 0 <= t < |s.pcs| ==> !s.pcs[t].Negative?
  }

  lemma FreshStep(s: Pool, open: seq<bool>, t: nat)
    requires InRange(s) && |open| == |s.locked| && t < |s.pcs| && s.drift == 0 && s.cur >= 0 && NoneNegative(s)
    ensures NoneNegative(Next(s, open, t))
    ensures WritesFresh(s, t) <==> Next(s, open, t).drift == 0
  {
  }

  lemma {:induction false} ExactIsUndisturbed(connections: nat, callers: nat, open: seq<bool>, schedule: seq<nat>)
    requires 0 < connections == |open| && forall k :: 0 <= k < |schedule| ==> schedule[k] < callers
    ensures ExactThroughout(connections, callers, open, schedule) <==> Undisturbed(connections, callers, open, schedule)
    ensures Undisturbed(connections, callers, open, schedule) ==>
              NoneNegative(Run(connections, callers, open, schedule))
                  && Run(connections, callers, open, schedule).drift == 0
  {
    hide Next, Due;
    CounterDrift(connections, callers, open, schedule);
    if schedule != [] {
      var n := |schedule| - 1;
      ExactIsUndisturbed(connections, callers, open, schedule[..n]);
      CounterDrift(connections, callers, open, schedule[..n]);
      if Undisturbed(connections, callers, open, schedule[..n]) {
        FreshStep(Run(connections, callers, open, schedule[..n]), open, schedule[n]);
      }
    }
  }

  /** The counter is the number of set flags, plus the finders that have counted but not yet set, minus the
      unlockers that have discounted but not yet cleared, after every step of a run, if and only if every
      increment and decrement found, when it wrote, the value it had read; it is then never negative, and
      the clamp is never reached. */
  lemma {:induction false} CounterIsExact(connections: nat, callers: nat, open: seq<bool>, schedule: seq<nat>)
    requires 0 < connections == |open| && forall k :: 0 <= k < |schedule| ==> schedule[k] < callers
    ensures ExactThroughout(connections, callers, open, schedule) <==> Undisturbed(connections, callers, open, schedule)
    ensures var s := Run(connections, callers, open, schedule);
            Undisturbed(connections, callers, open, schedule) ==> s.cur == Due(s) >= 0 && NoneNegative(s)
  {
    ExactIsUndisturbed(connections, callers, open, schedule);
    CounterDrift(connections, callers, open, schedule);
  }

  /** Between its read and its write of the counter */
  predicate InUpdate(pc: Pc) { pc.Loaded? || pc.Taken? }

  predicate Writes(pc: Pc) { InUpdate(pc) || pc.Negative? }

  /** Nobody writes the counter while another caller is between its read and its write, as when ++ and --
      are atomic or under a lock. */
  predicate Uninterrupted(connections: nat, callers: nat, open: seq<bool>, schedule: seq<nat>)
    requires 0 < connections == |open| && forall k :: 0 <= k < |schedule| ==> schedule[k] < callers
  {
    schedule == [] ||
    var n := |schedule| - 1;
    var s := Run(connections, callers, open, schedule[..n]);
    && Uninterrupted(connections, callers, open, schedule[..n])
    && (Writes(s.pcs[schedule[n]]) ==>
          forall u :: 0 <= u < callers && u != schedule[n] ==> !InUpdate(s.pcs[u]))
  }

  /** Every value that has been read is still the counter's. */
  predicate AllFresh(s: Pool) {
    forall t :: 0 <= t < |s.pcs| && InUpdate(s.pcs[t]) ==> s.pcs[t].v == s.cur
  }

  lemma FreshStays(s: Pool, open: seq<bool>, t: nat)
    requires InRange(s) && |open| == |s.locked| && t < |s.pcs| && AllFresh(s)
    requires Writes(s.pcs[t]) ==> forall u :: 0 <= u < |s.pcs| && u != t ==> !InUpdate(s.pcs[u])
    ensures WritesFresh(s, t) && AllFresh(Next(s, open, t))
  {
  }

  /** When no update is interrupted, the counter is exact after every step, and never negative, and the clamp
      is never reached. */
  lemma {:induction false} AtomicCounterIsExact(connections: nat, callers: nat, open: seq<bool>, schedule: seq<nat>)
    requires 0 < connections == |open| && forall k :: 0 <= k < |schedule| ==> schedule[k] < callers
    requires Uninterrupted(connections, callers, open, schedule)
    ensures Undisturbed(connections, callers, open, schedule) && AllFresh(Run(connections, callers, open, schedule))
    ensures ExactThroughout(connections, callers, open, schedule)
    ensures var s := Run(connections, callers, open, schedule);
            s.cur == Due(s) >= 0 && NoneNegative(s)
  {
    hide Next, InUpdate, Writes, Due;
    StartFresh(connections, callers);
    if schedule != [] {
      var n := |schedule| - 1;
      AtomicCounterIsExact(connections, callers, open, schedule[..n]);
      FreshStays(Run(connections, callers, open, schedule[..n]), open, schedule[n]);
    }
    CounterIsExact(connections, callers, open, schedule);
  }

  lemma StartFresh(connections: nat, callers: nat)
    ensures AllFresh(Start(connections, callers))
  {
  }

  /** Whenever no caller is inside the two functions, the counter is the number of connections held, but
      for its drift. */
  lemma CounterAtRest(connections: nat, callers: nat, open: seq<bool>, schedule: seq<nat>)
    requires 0 < connections == |open| && forall k :: 0 <= k < |schedule| ==> schedule[k] < callers
    requires forall t :: 0 <= t < callers ==>
               var pc := Run(connections, callers, open, schedule).pcs[t]; pc.Outside? || pc.Waiting? || pc.Holding?
    ensures var s := Run(connections, callers, open, schedule);
            && s.cur == NumLocked(s.locked) + s.drift
            && NumLocked(s.locked) == Num(s.pcs, (pc: Pc) => pc.Holding?)
            && (Undisturbed(connections, callers, open, schedule) ==> s.drift == 0)
  {
    var s := Run(connections, callers, open, schedule);
    RunInv(connections, callers, open, schedule);
    ExactIsUndisturbed(connections, callers, open, schedule);
    NumNone(s.pcs, IsCounted);
    NumNone(s.pcs, IsDecremented);
    NumLess(s.pcs, IsOwner, (pc: Pc) => pc.Holding?);
    NumLess(s.pcs, (pc: Pc) => pc.Holding?, IsOwner);
  }

  // ---- A lost update --------------------------------------------------------------------------

  lemma RunMore(connections: nat, callers: nat, open: seq<bool>, schedule: seq<nat>, t: nat)
    requires 0 < connections == |open| && forall k :: 0 <= k < |schedule| ==> schedule[k] < callers
    requires t < callers
    ensures Run(connections, callers, open, schedule + [t]) == Next(Run(connections, callers, open, schedule), open, t)
  {
    assert (schedule + [t])[..|schedule|] == schedule;
  }

  function Play(s: Pool, open: seq<bool>, ts: seq<nat>): (s': Pool)
    requires InRange(s) && |open| == |s.locked| && forall k :: 0 <= k < |ts| ==> ts[k] < |s.pcs|
    ensures InRange(s') && |s'.locked| == |s.locked| && |s'.pcs| == |s.pcs|
    decreases |ts|
  {
    if ts == [] then s else Play(Next(s, open, ts[0]), open, ts[1..])
  }

  lemma {:induction false} RunPlay(connections: nat, callers: nat, open: seq<bool>, schedule: seq<nat>, ts: seq<nat>)
    requires 0 < connections == |open|
    requires forall k :: 0 <= k < |schedule| ==> schedule[k] < callers
    requires forall k :: 0 <= k < |ts| ==> ts[k] < callers
    ensures Run(connections, callers, open, schedule + ts) == Play(Run(connections, callers, open, schedule), open, ts)
    decreases |ts|
  {
    hide Next, Run;
    if ts == [] {
      assert schedule + ts == schedule;
    } else {
      RunMore(connections, callers, open, schedule, ts[0]);
      RunPlay(connections, callers, open, schedule + [ts[0]], ts[1..]);
      assert schedule + ts == schedule + [ts[0]] + ts[1..];
    }
  }

  /** Two callers' positions */
  function Two(s: Pool, t: nat, a: Pc, u: nat, b: Pc): (pcs: seq<Pc>)
    requires t < |s.pcs| && u < |s.pcs|
  {
    s.pcs[t := a][u := b]
  }

  lemma PlayTwo(s: Pool, open: seq<bool>, t: nat, u: nat, ts: seq<nat>)
    requires InRange(s) && |open| == |s.locked| && forall k :: 0 <= k < |ts| ==> ts[k] < |s.pcs|
    requires |ts| >= 2 && ts[0] == t && ts[1] == u
    ensures Play(s, open, ts) == Play(Next(Next(s, open, t), open, u), open, ts[2..])
  {
    hide Next;
    assert ts[1..][1..] == ts[2..];
  }

  lemma ReadCounter(s: Pool, open: seq<bool>, t: nat)
    requires InRange(s) && |open| == |s.locked| && t < |s.pcs| && s.pcs[t].Holding? && s.locked[s.pcs[t].i]
    ensures Next(Next(s, open, t), open, t) == s.(pcs := s.pcs[t := Taken(s.pcs[t].i, s.cur)])
  {
    var s1 := Next(s, open, t);
    assert s1.pcs == s.pcs[t := Tested(s.pcs[t].i)];
    assert s1.pcs[t := Taken(s.pcs[t].i, s.cur)] == s.pcs[t := Taken(s.pcs[t].i, s.cur)];
  }

  lemma WriteBoth(s: Pool, open: seq<bool>, t: nat, u: nat, i: nat, j: nat)
    requires InRange(s) && |open| == |s.locked| && t < |s.pcs| && u < |s.pcs| && t != u
    requires s.pcs[t] == Taken(i, s.cur) && s.pcs[u] == Taken(j, s.cur)
    ensures Next(Next(s, open, t), open, u) ==
            s.(cur := s.cur - 1, drift := s.drift + 1, pcs := Two(s, t, Decremented(i), u, Decremented(j)))
  {
  }

  lemma TestBoth(s: Pool, open: seq<bool>, t: nat, u: nat, i: nat, j: nat)
    requires InRange(s) && |open| == |s.locked| && t < |s.pcs| && u < |s.pcs| && t != u
    requires s.pcs[t] == Decremented(i) && s.pcs[u] == Decremented(j) && s.cur >= 0
    ensures Next(Next(s, open, t), open, u) == s.(pcs := Two(s, t, Clamped(i), u, Clamped(j)))
  {
  }

  lemma ClearBoth(s: Pool, open: seq<bool>, t: nat, u: nat, i: nat, j: nat)
    requires InRange(s) && |open| == |s.locked| && t < |s.pcs| && u < |s.pcs| && t != u
    requires s.pcs[t] == Clamped(i) && s.pcs[u] == Clamped(j)
    ensures Next(Next(s, open, t), open, u) ==
            s.(locked := s.locked[i := false][j := false], pcs := Two(s, t, Outside, u, Outside))
  {
  }

  /** Two callers that give their connections back at the same time: both read the counter before either
      writes it, and one of the two decrements is lost. */
  lemma LostUpdate(s: Pool, open: seq<bool>, t: nat, u: nat)
    requires InRange(s) && |open| == |s.locked| && t < |s.pcs| && u < |s.pcs| && t != u && Inv(s)
    requires s.pcs[t].Holding? && s.pcs[u].Holding? && s.cur >= 1
    ensures var s' := Play(s, open, [t, t, u, u, t, u, t, u, t, u]);
            && s'.pcs == s.pcs[t := Outside][u := Outside]
            && s'.locked == s.locked[s.pcs[t].i := false][s.pcs[u].i := false]
            && s'.cur == s.cur - 1 && s'.drift == s.drift + 1
  {
    assert FlagAgrees(s.pcs[t], s.locked) && FlagAgrees(s.pcs[u], s.locked);
    hide Next, Inv;
    var i, j := s.pcs[t].i, s.pcs[u].i;
    var s1 := Next(Next(s, open, t), open, t);
    var s2 := Next(Next(s1, open, u), open, u);
    var s3 := Next(Next(s2, open, t), open, u);
    var s4 := Next(Next(s3, open, t), open, u);
    var s5 := Next(Next(s4, open, t), open, u);
    ReadCounter(s, open, t);
    ReadCounter(s1, open, u);
    WriteBoth(s2, open, t, u, i, j);
    TestBoth(s3, open, t, u, i, j);
    ClearBoth(s4, open, t, u, i, j);
    PlayTen(s, open, t, u);
    assert s5.pcs == s.pcs[t := Outside][u := Outside];
  }

  lemma PlayTen(s: Pool, open: seq<bool>, t: nat, u: nat)
    requires InRange(s) && |open| == |s.locked| && t < |s.pcs| && u < |s.pcs|
    ensures var s1 := Next(Next(s, open, t), open, t);
            var s2 := Next(Next(s1, open, u), open, u);
            var s3 := Next(Next(s2, open, t), open, u);
            var s4 := Next(Next(s3, open, t), open, u);
            Play(s, open, [t, t, u, u, t, u, t, u, t, u]) == Next(Next(s4, open, t), open, u)
  {
    hide Next;
    var ts := [t, t, u, u, t, u, t, u, t, u];
    var s1 := Next(Next(s, open, t), open, t);
    var s2 := Next(Next(s1, open, u), open, u);
    var s3 := Next(Next(s2, open, t), open, u);
    var s4 := Next(Next(s3, open, t), open, u);
    PlayTwo(s, open, t, t, ts);
    PlayTwo(s1, open, u, u, ts[2..]);
    PlayTwo(s2, open, t, u, ts[2..][2..]);
    PlayTwo(s3, open, t, u, ts[2..][2..][2..]);
    PlayTwo(s4, open, t, u, ts[2..][2..][2..][2..]);
  }

  // ---- A run that loses one -------------------------------------------------------------------

  lemma {:induction false} RunAlone(connections: nat, callers: nat, open: seq<bool>, schedule: seq<nat>, t: nat, n: nat)
    requires 0 < connections == |open| && t < callers && forall k :: 0 <= k < |schedule| ==> schedule[k] < callers
    ensures Run(connections, callers, open, schedule + seq(n, _ => t)) ==
            Alone(Run(connections, callers, open, schedule), open, t, n)
  {
    hide Next, Run;
    if n == 0 {
      assert schedule + seq(n, _ => t) == schedule;
    } else {
      RunAlone(connections, callers, open, schedule, t, n - 1);
      RunMore(connections, callers, open, schedule + seq(n - 1, _ => t), t);
      assert schedule + seq(n, _ => t) == schedule + seq(n - 1, _ => t) + [t];
    }
  }

  /** Two callers take the two connections, and give them back at the same time. Nobody holds a connection
      any more, and the counter stays at 1. */
  lemma {:induction false} CounterGoesWrong()
    ensures var open, schedule := [true, true], seq(7, _ => 0) + seq(8, _ => 1) + [0, 0, 1, 1, 0, 1, 0, 1, 0, 1];
            var s := Run(2, 2, open, schedule);
            s.pcs == [Outside, Outside] && s.locked == [false, false] && s.cur == 1
  {
    hide Run, Inv, Alone, Play, Next;
    var open := [true, true];
    var s0 := Start(2, 2);
    RunNothing(open);
    RunAlone(2, 2, open, [], 0, 7);
    FirstHolds(open);
    var first := seq(7, _ => 0);
    assert [] + first == first;
    RunAlone(2, 2, open, first, 1, 8);
    SecondHolds(open);
    var both := first + seq(8, _ => 1);
    RunInv(2, 2, open, both);
    LostUpdate(Run(2, 2, open, both), open, 0, 1);
    RunPlay(2, 2, open, both, [0, 0, 1, 1, 0, 1, 0, 1, 0, 1]);
  }

  lemma RunNothing(open: seq<bool>)
    requires |open| == 2
    ensures Run(2, 2, open, []) == Start(2, 2)
  {
  }

  lemma FirstHolds(open: seq<bool>)
    requires open == [true, true]
    ensures Alone(Start(2, 2), open, 0, 7) == Pool([true, false], 1, None, [Holding(0), Outside], 0)
  {
    var s := Start(2, 2);
    assert Alone(s, open, 0, 1).pcs == [Waiting, Outside];
    assert Alone(s, open, 0, 2).pcs == [Scanning(0), Outside];
    Takes(s, open, 0, 2, 0);
  }

  lemma SecondHolds(open: seq<bool>)
    requires open == [true, true]
    ensures Alone(Pool([true, false], 1, None, [Holding(0), Outside], 0), open, 1, 8) ==
            Pool([true, true], 2, None, [Holding(0), Holding(1)], 0)
  {
    var s := Pool([true, false], 1, None, [Holding(0), Outside], 0);
    assert Alone(s, open, 1, 1).pcs == [Holding(0), Waiting];
    assert Alone(s, open, 1, 2).pcs == [Holding(0), Scanning(0)];
    assert Alone(s, open, 1, 3).pcs == [Holding(0), Scanning(1)];
    Takes(s, open, 1, 3, 1);
  }
}
