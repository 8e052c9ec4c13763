/** The send half of a client on values: one 64 KB buffer whose front takes the packet and whose slots
    take the fragments, and the arrays that describe the fragments. */
module Slots {
  import opened Bytes
  import opened Fragments
  import opened Packets

  datatype Outbox = Outbox(buf: bytes, nos: seq<byte>, sizes: seq<nat>, cur: nat)

  function Slot(i: nat): nat { 2 * BLOCK + BLOCK * i }

  predicate Valid(o: Outbox) {
    && BUFFER_SIZE <= |o.buf|
    && |o.nos| == |o.sizes| <= MAX_FRAGS
    && (forall k :: 0 <= k < |o.sizes| ==> o.sizes[k] <= BLOCK)
    && o.cur < U16_LIMIT
  }

  lemma ValidWithBuffer(o: Outbox, b: bytes)
    requires Valid(o) && |b| == |o.buf|
    ensures Valid(o.(buf := b))
  {
  }

  function Pending(o: Outbox): (q: Queue)
    requires Valid(o)
    ensures |q.frags| == |o.sizes| && Sized(q.frags)
  {
    Queue(seq(|o.sizes|, i requires 0 <= i < |o.sizes| => Frag(o.nos[i], o.buf[Slot(i)..Slot(i) + o.sizes[i]])), o.cur)
  }

  /** One fragment into the next slot. */
  function Put(o: Outbox, chunk: bytes): (o': Outbox)
    requires Valid(o) && |o.sizes| < MAX_FRAGS && |chunk| <= BLOCK
    ensures Valid(o')
  {
    Outbox(Splice(o.buf, Slot(|o.sizes|), chunk), o.nos + [o.cur % 256], o.sizes + [|chunk|], o.cur)
  }

  /** The filling loop of STSV_SendData, which stops when the slots run out. */
  function Fill(o: Outbox, m: bytes): (o': Outbox)
    requires Valid(o)
    ensures Valid(o')
    decreases |m|
  {
    if m == [] || |o.sizes| == MAX_FRAGS then o
    else var k := Min(|m|, BLOCK); Fill(Put(o, m[..k]), m[k..])
  }

  function SendData(o: Outbox, m: bytes): (o': Outbox)
    requires Valid(o)
    ensures Valid(o')
  {
    if |o.sizes| < MAX_FRAGS then Fill(o, m).(cur := (o.cur + 1) % U16_LIMIT) else o
  }

  /** The buffer once a packet has been built at its front and sent. */
  function Sent(o: Outbox, packet: bytes): (o': Outbox)
    requires Valid(o) && |packet| <= |o.buf|
    ensures Valid(o')
  {
    Outbox(Splice(o.buf, 0, packet), [], [], 0)
  }

  // ---- The slots hold what was accepted -------------------------------------------------------

  lemma {:induction false} PutPending(o: Outbox, chunk: bytes)
    requires Valid(o) && |o.sizes| < MAX_FRAGS && |chunk| <= BLOCK
    ensures Pending(Put(o, chunk)).frags == Pending(o).frags + [Frag(o.cur % 256, chunk)]
    ensures Put(o, chunk).buf[..Slot(|o.sizes|)] == o.buf[..Slot(|o.sizes|)]
    ensures Put(o, chunk).cur == o.cur && |Put(o, chunk).buf| == |o.buf| && |Put(o, chunk).sizes| == |o.sizes| + 1
  {
    var n := |o.sizes|;
    var o' := Put(o, chunk);
    forall i | 0 <= i < n
      ensures Pending(o').frags[i] == Pending(o).frags[i]
    {
      SpliceFrame(o.buf, Slot(n), chunk, Slot(i), Slot(i) + o.sizes[i]);
    }
    assert Pending(o').frags[n] == Frag(o.cur % 256, chunk);
  }

  lemma {:induction false} FillStep(m: bytes, no: byte, room: nat)
    requires m != [] && room > 0
    ensures var k := Min(|m|, BLOCK);
            Numbered(no, Chop(Fit(m, room))) == [Frag(no, m[..k])] + Numbered(no, Chop(Fit(m[k..], room - 1)))
  {
    var k := Min(|m|, BLOCK);
    var part := Fit(m, room);
    if |part| <= BLOCK {
      assert part == m[..k];
      assert Fit(m[k..], room - 1) == [];
      assert Chop(part) == [m[..k]];
    } else {
      assert part[..BLOCK] == m[..k];
      assert part[BLOCK..] == Fit(m[k..], room - 1);
      assert Chop(part) == [m[..k]] + Chop(Fit(m[k..], room - 1));
    }
  }

  lemma AppendAssociates<T>(a: seq<T>, b: seq<T>, c: seq<T>)
    ensures a + (b + c) == (a + b) + c
  {
  }

  lemma {:induction false} FillPending(o: Outbox, m: bytes)
    requires Valid(o)
    ensures Pending(Fill(o, m)).frags == Pending(o).frags + Numbered(o.cur % 256, Chop(Fit(m, MAX_FRAGS - |o.sizes|)))
    ensures Fill(o, m).cur == o.cur && |Fill(o, m).buf| == |o.buf|
    ensures Fill(o, m).buf[..Slot(|o.sizes|)] == o.buf[..Slot(|o.sizes|)]
    decreases |m|
  {
    hide Put, Chop, Numbered, Pending;
    var room := MAX_FRAGS - |o.sizes|;
    if m == [] || room == 0 {
      assert Fit(m, room) == [];
      assert Numbered(o.cur % 256, []) == [];
    } else {
      var k := Min(|m|, BLOCK);
      var o' := Put(o, m[..k]);
      PutPending(o, m[..k]);
      FillPending(o', m[k..]);
      FillStep(m, o.cur % 256, room);
      SamePrefix(Fill(o', m[k..]).buf, o'.buf, Slot(|o.sizes|), Slot(|o'.sizes|));
      AppendAssociates(Pending(o).frags, [Frag(o.cur % 256, m[..k])],
          Numbered(o.cur % 256, Chop(Fit(m[k..], room - 1))));
    }
  }

  /** The buffer operation is the queue operation, and it leaves everything below the next slot alone. */
  lemma {:induction false} SendDataAccepts(o: Outbox, m: bytes)
    requires Valid(o)
    ensures Pending(SendData(o, m)) == Accept(Pending(o), m)
    ensures |SendData(o, m).buf| == |o.buf|
    ensures SendData(o, m).buf[..Slot(|o.sizes|)] == o.buf[..Slot(|o.sizes|)]
  {
    if |o.sizes| < MAX_FRAGS {
      FillPending(o, m);
      var f := Fill(o, m);
      assert Pending(f.(cur := (o.cur + 1) % U16_LIMIT)).frags == Pending(f).frags;
    }
  }

  // ---- How long a sent batch can be repeated --------------------------------------------------

  /** Everything below the first slot survives any number of calls. */
  lemma {:induction false} FrontSurvives(o: Outbox, ms: seq<bytes>)
    requires Valid(o)
    ensures |SendMany(o, ms).buf| == |o.buf|
    ensures SendMany(o, ms).buf[..2 * BLOCK] == o.buf[..2 * BLOCK]
  {
    if ms != [] {
      var before := SendMany(o, ms[..|ms| - 1]);
      FrontSurvives(o, ms[..|ms| - 1]);
      var o' := SendData(before, ms[|ms| - 1]);
      SendDataAccepts(before, ms[|ms| - 1]);
      SamePrefix(o'.buf, before.buf, 2 * BLOCK, Slot(|before.sizes|));
    }
  }

  function SendMany(o: Outbox, ms: seq<bytes>): (o': Outbox)
    requires Valid(o)
    ensures Valid(o')
  {
    if ms == [] then o else SendData(SendMany(o, ms[..|ms| - 1]), ms[|ms| - 1])
  }

  /** The slots hold what a list of calls queues behind what they held before. */
  lemma {:induction false} ManyAccepted(o: Outbox, ms: seq<bytes>)
    requires Valid(o) && o.sizes == [] && o.cur == 0
    ensures Pending(SendMany(o, ms)) == SendAll(ms)
  {
    if ms != [] {
      ManyAccepted(o, ms[..|ms| - 1]);
      SendDataAccepts(SendMany(o, ms[..|ms| - 1]), ms[|ms| - 1]);
    }
  }

  /** A slot that is taken over by the next client starts with packet number 0 but keeps what is queued: its
      batches are those of a new client if and only if nothing was left pending. */
  lemma {:induction false} LeftoversAreSent(o: Outbox)
    requires Valid(o)
    ensures (forall ms: seq<bytes> :: Pending(SendMany(o.(cur := 0), ms)) == SendAll(ms)) <==> o.sizes == []
  {
    var reused := o.(cur := 0);
    if o.sizes == [] {
      forall ms: seq<bytes>
        ensures Pending(SendMany(reused, ms)) == SendAll(ms)
      {
        ManyAccepted(reused, ms);
      }
    } else {
      assert |Pending(SendMany(reused, [])).frags| == |o.sizes|;
      assert SendAll([]).frags == [];
    }
  }

  /** A packet of a given length left at the front of the buffer survives every later run of
      STSV_SendData if and only if it ends at or before the first slot. */
  lemma {:induction false} BatchSurvives(o: Outbox, length: nat)
    requires Valid(o) && o.sizes == [] && length <= |o.buf|
    ensures (forall ms: seq<bytes> ::
               |SendMany(o, ms).buf| == |o.buf| && SendMany(o, ms).buf[..length] == o.buf[..length])
       <==> length <= 2 * BLOCK
  {
    if length <= 2 * BLOCK {
      forall ms: seq<bytes>
        ensures |SendMany(o, ms).buf| == |o.buf|
        ensures SendMany(o, ms).buf[..length] == o.buf[..length]
      {
        FrontSurvives(o, ms);
        SamePrefix(SendMany(o, ms).buf, o.buf, length, 2 * BLOCK);
      }
    } else {
      var x: byte := (o.buf[2 * BLOCK] as int + 1) % 256;
      var ms := [[x]];
      assert ms[..0] == [];
      assert SendMany(o, ms) == SendData(o, [x]);
      OneByte(o, x);
      assert SendMany(o, ms).buf[..length][2 * BLOCK] == x;
      assert o.buf[..length][2 * BLOCK] != x;
    }
  }

  lemma OneByte(o: Outbox, x: byte)
    requires Valid(o) && o.sizes == []
    ensures SendData(o, [x]).buf == o.buf[2 * BLOCK := x]
  {
    assert [x][..1] == [x] && [x][1..] == [];
    assert Fill(o, [x]) == Fill(Put(o, [x]), []);
  }
}
