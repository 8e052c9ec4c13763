/** Any number of threads calling STSV_SendData on one client while its owner packs and sends: every
    interleaving at the granularity of the client's mutex. */
module Interleaving {
  import opened Bytes
  import opened Fragments

  /** The owner tests for work before it takes the mutex. */
  datatype Owner = Idle | WillPack(file: bool)

  /** The queue, where the owner stands, the batches sent so far, and as history every fragment ever
      queued, the calls that went into each batch, and the calls since. */
  datatype Shared = Shared(queue: Queue, owner: Owner, sent: seq<seq<Frag>>,
                           accepted: seq<Frag>, closed: seq<seq<bytes>>, current: seq<bytes>)

  /** A thread's call, which holds the mutex throughout; the owner's test, with whether a file is in
      transit; the owner's locked part of EndPackSendData. */
  datatype Step = Call(thread: nat, m: bytes) | Test(file: bool) | Pack

  const START: Shared := Shared(Queue([], 0), Idle, [], [], [], [])

  function Next(s: Shared, step: Step): (s': Shared)
    requires |s.queue.frags| <= MAX_FRAGS
    ensures |s'.queue.frags| <= MAX_FRAGS
  {
    match step
    case Call(_, m) =>
      var q := Accept(s.queue, m);
      s.(queue := q, accepted := s.accepted + q.frags[Min(|s.queue.frags|, |q.frags|)..], current := s.current + [m])
    case Test(file) =>
      if s.owner == Idle && (s.queue.frags != [] || file) then s.(owner := WillPack(file)) else s
    case Pack =>
      if s.owner == Idle then s
      else s.(queue := Queue([], 0), owner := Idle, sent := s.sent + [s.queue.frags],
              closed := s.closed + [s.current], current := [])
  }

  function Run(steps: seq<Step>): (s: Shared)
    ensures |s.queue.frags| <= MAX_FRAGS
  {
    if steps == [] then START else Next(Run(steps[..|steps| - 1]), steps[|steps| - 1])
  }

  /** The messages of all calls, in the order in which the mutex was taken. */
  function Calls(steps: seq<Step>): seq<bytes> {
    if steps == [] then []
    else Calls(steps[..|steps| - 1]) + if steps[|steps| - 1].Call? then [steps[|steps| - 1].m] else []
  }

  /** What every step keeps. */
  ghost predicate Inv(s: Shared) {
    && s.queue == SendAll(s.current)
    && |s.sent| == |s.closed|
    && (forall k :: 0 <= k < |s.sent| ==> s.sent[k] == SendAll(s.closed[k]).frags)
    && s.accepted == Flatten(s.sent) + s.queue.frags
    && (s.owner.WillPack? && !s.owner.file ==> s.queue.frags != [])
  }

  lemma {:induction false} AcceptExtends(q: Queue, m: bytes)
    requires |q.frags| <= MAX_FRAGS
    ensures q.frags <= Accept(q, m).frags
  {
  }

  lemma {:induction false} SendAllMore(ms: seq<bytes>, m: bytes)
    ensures SendAll(ms + [m]) == Accept(SendAll(ms), m)
  {
    assert (ms + [m])[..|ms|] == ms;
  }

  lemma {:induction false} FlattenMore<T>(ss: seq<seq<T>>, s: seq<T>)
    ensures Flatten(ss + [s]) == Flatten(ss) + s
  {
    assert (ss + [s])[..|ss|] == ss;
  }

  lemma CallKeeps(s: Shared, step: Step)
    requires |s.queue.frags| <= MAX_FRAGS && Inv(s) && step.Call?
    ensures Inv(Next(s, step))
  {
    hide Accept, SendAll, Flatten;
    AcceptExtends(s.queue, step.m);
    SendAllMore(s.current, step.m);
    var before, q := s.queue.frags, Accept(s.queue, step.m).frags;
    assert q == before + q[|before|..];
    assert Flatten(s.sent) + q == Flatten(s.sent) + before + q[|before|..];
  }

  lemma PackKeeps(s: Shared, step: Step)
    requires |s.queue.frags| <= MAX_FRAGS && Inv(s) && step.Pack?
    ensures Inv(Next(s, step))
  {
    hide Flatten;
    FlattenMore(s.sent, s.queue.frags);
    assert SendAll([]) == Queue([], 0);
  }

  lemma {:induction false} StepKeeps(s: Shared, step: Step)
    requires |s.queue.frags| <= MAX_FRAGS && Inv(s)
    ensures Inv(Next(s, step))
  {
    match step
    case Call(_, _) => CallKeeps(s, step);
    case Test(_) =>
    case Pack => PackKeeps(s, step);
  }

  /** A step adds its message, if it is a call, to the history of calls. */
  lemma StepRecords(s: Shared, step: Step)
    requires |s.queue.frags| <= MAX_FRAGS
    ensures var s' := Next(s, step);
            Flatten(s'.closed) + s'.current == Flatten(s.closed) + s.current + if step.Call? then [step.m] else []
  {
    hide Accept, Flatten;
    FlattenMore(s.closed, s.current);
  }

  lemma {:induction false} RunKeeps(steps: seq<Step>)
    ensures Inv(Run(steps))
    ensures Flatten(Run(steps).closed) + Run(steps).current == Calls(steps)
  {
    hide Next, Flatten, Inv;
    if steps == [] {
      StartKeeps();
    } else {
      var n := |steps| - 1;
      RunKeeps(steps[..n]);
      StepKeeps(Run(steps[..n]), steps[n]);
      StepRecords(Run(steps[..n]), steps[n]);
    }
  }

  lemma StartKeeps()
    ensures Inv(START)
    ensures Flatten(START.closed) + START.current == []
  {
    assert SendAll([]) == Queue([], 0);
  }

  /** Nothing queued is lost, repeated or reordered: the fragments ever queued are the batches sent, one
      after the other, and then the fragments still pending; the batches partition the calls, in order,
      into runs, and each batch is exactly what its run of calls builds. */
  lemma {:induction false} Conservation(steps: seq<Step>)
    ensures var s := Run(steps);
            && s.accepted == Flatten(s.sent) + s.queue.frags
            && Flatten(s.closed) + s.current == Calls(steps)
            && |s.sent| == |s.closed|
            && (forall k :: 0 <= k < |s.sent| ==> s.sent[k] == SendAll(s.closed[k]).frags)
            && s.queue == SendAll(s.current)
  {
    RunKeeps(steps);
  }

  /** The owner never sends an empty batch unless a file is in transit, although it tests the queue
      without the mutex. */
  lemma {:induction false} NoEmptyBatch(steps: seq<Step>)
    requires Run(steps).owner.WillPack? && !Run(steps).owner.file
    ensures Run(steps).queue.frags != []
    ensures |Next(Run(steps), Pack).sent| == |Run(steps).sent| + 1
        && Next(Run(steps), Pack).sent[|Run(steps).sent|] != []
  {
    RunKeeps(steps);
  }

  lemma RunTwo(steps: seq<Step>, a: Step, b: Step)
    ensures Run(steps + [a, b]) == Next(Next(Run(steps), a), b)
  {
    var all := steps + [a, b];
    assert all[..|all| - 1] == steps + [a] && (steps + [a])[..|steps|] == steps;
  }

  /** The owner's next turn sends what is pending, whatever was called before: after its test and its locked
      part the queue is empty, and exactly the queue has gone out as one batch, together with a file if one
      is in transit. With nothing pending and no file it sends no batch. */
  lemma {:induction false} TurnSends(steps: seq<Step>, file: bool)
    requires Run(steps).owner == Idle
    ensures var s, s' := Run(steps), Run(steps + [Test(file), Pack]);
            if s.queue.frags != [] || file then
              && s'.queue == Queue([], 0) && s'.owner == Idle && s'.sent == s.sent + [s.queue.frags]
              && s'.closed == s.closed + [s.current] && s'.current == []
            else s' == s
  {
    RunTwo(steps, Test(file), Pack);
  }

  function Received(sent: seq<seq<Frag>>): seq<bytes>
  {
    if sent == [] then []
    else
      var n := |sent| - 1;
      Received(sent[..n]) + (match Deliver(sent[n]) case None => [] case Some(g) => g)
  }

  lemma {:induction false} ReceivedWhole(sent: seq<seq<Frag>>, closed: seq<seq<bytes>>)
    requires |sent| == |closed|
    requires forall k :: 0 <= k < |sent| ==> sent[k] == SendAll(closed[k]).frags
    requires forall k :: 0 <= k < |closed| ==> [] !in closed[k] && Blocks(closed[k]) <= MAX_FRAGS
    ensures Received(sent) == Flatten(closed)
  {
    hide Deliver, SendAll, Blocks;
    if sent != [] {
      var n := |sent| - 1;
      assert Deliver(sent[n]) == Some(closed[n]) by {
        NonEmptyRoundTrip(closed[n]);
      }
      ReceivedWhole(sent[..n], closed[..n]);
    }
  }

  lemma {:induction false} NotInFlatten<T>(ss: seq<seq<T>>, k: nat, x: T)
    requires k < |ss| && x !in Flatten(ss)
    ensures x !in ss[k]
  {
    if k < |ss| - 1 {
      NotInFlatten(ss[..|ss| - 1], k, x);
    }
  }

  lemma {:induction false} NoEmptyCall(steps: seq<Step>, closed: seq<seq<bytes>>, current: seq<bytes>)
    requires Flatten(closed) + current == Calls(steps) && [] !in Calls(steps)
    ensures forall k :: 0 <= k < |closed| ==> [] !in closed[k]
  {
    assert forall x :: x in Flatten(closed) ==> x in Flatten(closed) + current;
    forall k | 0 <= k < |closed|
      ensures [] !in closed[k]
    {
      NotInFlatten(closed, k, []);
    }
  }

  /** When no message is empty and no batch runs out of slots, what the receiver regroups from the
      batches, followed by the calls still pending, is every message ever passed in, once, whole and in
      order, whichever threads the calls came from. */
  lemma {:induction false} NothingLost(steps: seq<Step>)
    requires [] !in Calls(steps)
    requires forall k :: 0 <= k < |Run(steps).closed| ==> Blocks(Run(steps).closed[k]) <= MAX_FRAGS
    ensures Received(Run(steps).sent) + Run(steps).current == Calls(steps)
  {
    var s := Run(steps);
    Conservation(steps);
    NoEmptyCall(steps, s.closed, s.current);
    ReceivedWhole(s.sent, s.closed);
  }

  lemma CallsTwo(steps: seq<Step>, a: Step, b: Step)
    requires !a.Call? && !b.Call?
    ensures Calls(steps + [a, b]) == Calls(steps)
  {
    var all := steps + [a, b];
    assert all[..|all| - 1] == steps + [a] && (steps + [a])[..|steps|] == steps;
  }

  /** Once the owner has taken a turn with messages pending, every message passed in so far has been
      received, once, whole and in order. */
  lemma {:induction false} EverythingArrives(steps: seq<Step>, file: bool)
    requires [] !in Calls(steps)
    requires Run(steps).owner == Idle && Run(steps).queue.frags != []
    requires Blocks(Run(steps).current) <= MAX_FRAGS
    requires forall k :: 0 <= k < |Run(steps).closed| ==> Blocks(Run(steps).closed[k]) <= MAX_FRAGS
    ensures Received(Run(steps + [Test(file), Pack]).sent) == Calls(steps)
  {
    hide Run, Received, Calls, Blocks;
    TurnSends(steps, file);
    CallsTwo(steps, Test(file), Pack);
    NothingLost(steps + [Test(file), Pack]);
  }
}
