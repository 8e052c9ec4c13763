/** The fragment codec on values: how messages are cut, numbered and tagged by the sender and regrouped
    by the receiver, and exactly when what was sent is what arrives. */
module Fragments {
  import opened Bytes

  const BLOCK: int := 1024      // bytes in a fragment slot
  const MAX_BLOCKS: int := 64   // length of the bookkeeping arrays
  const MAX_FRAGS: int := 62    // slots in the send buffer

  /** A fragment and the u8 packet number stored beside it. */
  datatype Frag = Frag(no: byte, data: bytes)

  /** What the sender holds: the pending fragments and the u16 number of the next message. */
  datatype Queue = Queue(frags: seq<Frag>, cur: nat)

  /** A message cut into blocks of 1024 bytes and a last block of 1 to 1024 bytes. */
  function Chop(m: bytes): (chunks: seq<bytes>)
    ensures |chunks| == (|m| + BLOCK - 1) / BLOCK
  {
    if m == [] then []
    else if |m| <= BLOCK then [m]
    else [m[..BLOCK]] + Chop(m[BLOCK..])
  }

  /** The part of a message that still finds slots. */
  function Fit(m: bytes, room: nat): bytes {
    m[..Min(|m|, BLOCK * room)]
  }

  function Numbered(no: byte, chunks: seq<bytes>): (f: seq<Frag>)
    ensures |f| == |chunks|
    ensures forall k :: 0 <= k < |f| ==> f[k] == Frag(no, chunks[k])
  {
    seq(|chunks|, k requires 0 <= k < |chunks| => Frag(no, chunks[k]))
  }

  /** One call of STSV_SendData. */
  function Accept(q: Queue, m: bytes): (q': Queue)
    requires |q.frags| <= MAX_FRAGS
    ensures |q'.frags| <= MAX_FRAGS
  {
    var room := MAX_FRAGS - |q.frags|;
    if room == 0 then q
    else Queue(q.frags + Numbered(q.cur % 256, Chop(Fit(m, room))), (q.cur + 1) % U16_LIMIT)
  }

  /** The calls of STSV_SendData that make up one batch. */
  function SendAll(ms: seq<bytes>): (q: Queue)
    ensures |q.frags| <= MAX_FRAGS
  {
    if ms == [] then Queue([], 0) else Accept(SendAll(ms[..|ms| - 1]), ms[|ms| - 1])
  }

  /** The boundary bits of the size table: the bit flips where the packet number changes, starting
      from number 0 and bit 0. */
  function Tags(frags: seq<Frag>): (t: seq<nat>)
    ensures |t| == |frags|
    ensures forall k :: 0 <= k < |t| ==> t[k] <= 1
  {
    var n := |frags|;
    if n == 0 then []
    else
      var before := Tags(frags[..n - 1]);
      var no, tag := if n == 1 then 0 else frags[n - 2].no, if n == 1 then 0 else before[n - 2];
      before + [if frags[n - 1].no != no then 1 - tag else tag]
  }

  function Datas(frags: seq<Frag>): (d: seq<bytes>)
    ensures |d| == |frags|
    ensures forall k :: 0 <= k < |d| ==> d[k] == frags[k].data
  {
    seq(|frags|, k requires 0 <= k < |frags| => frags[k].data)
  }

  /** The last element of a non-empty list of messages, longer. */
  function ExtendLast(g: seq<bytes>, more: bytes): (e: seq<bytes>)
    requires g != []
    ensures |e| == |g|
  {
    g[..|g| - 1] + [g[|g| - 1] + more]
  }

  /** The receiver's loop: a message starts wherever the tag differs from the one before it, which is
      taken to be 1 at the start. None stands for a table that would index before the message array. */
  function Regroup(tags: seq<nat>, datas: seq<bytes>): (g: Option<seq<bytes>>)
    requires |tags| == |datas|
    ensures g.Some? ==> |g.value| <= |tags|
    ensures g.Some? && tags != [] ==> g.value != []
  {
    var n := |tags|;
    if n == 0 then Some([])
    else match Regroup(tags[..n - 1], datas[..n - 1])
      case None => None
      case Some(g) =>
        if tags[n - 1] != (if n == 1 then 1 else tags[n - 2]) then Some(g + [datas[n - 1]])
        else if g == [] then None
        else Some(ExtendLast(g, datas[n - 1]))
  }

  /** What one more fragment, or message, does to what the receiver has regrouped from frags: it joins
      the last message exactly when its packet number repeats. */
  function Attach(frags: seq<Frag>, g: Option<seq<bytes>>, no: byte, data: bytes): Option<seq<bytes>> {
    if g.None? then None
    else if frags == [] then (if no == 0 then Some([data]) else None)
    else if frags[|frags| - 1].no != no then Some(g.value + [data])
    else if g.value == [] then None
    else Some(ExtendLast(g.value, data))
  }

  /** What the receiver makes of a batch of fragments. */
  function Deliver(frags: seq<Frag>): Option<seq<bytes>> {
    Regroup(Tags(frags), Datas(frags))
  }

  /** What the sender meant: the messages in order, without the empty ones, cut where the slots ran out. */
  function Expected(ms: seq<bytes>): seq<bytes> {
    if ms == [] then []
    else
      var before, m := ms[..|ms| - 1], ms[|ms| - 1];
      var part := Fit(m, MAX_FRAGS - |SendAll(before).frags|);
      Expected(before) + if part == [] then [] else [part]
  }

  /** Slots needed by a list of messages. */
  function Blocks(ms: seq<bytes>): nat {
    if ms == [] then 0 else Blocks(ms[..|ms| - 1]) + (|ms[|ms| - 1]| + BLOCK - 1) / BLOCK
  }

  /** The position of the last non-empty message. */
  function LastNonEmpty(ms: seq<bytes>): (i: Option<nat>)
    ensures i.Some? ==> i.value < |ms| && ms[i.value] != []
  {
    if ms == [] then None
    else if ms[|ms| - 1] != [] then Some(|ms| - 1)
    else LastNonEmpty(ms[..|ms| - 1])
  }

  /** The packet numbers of a batch tell its messages apart: the first non-empty message is sent by a
      call whose position is a multiple of 256, and each later one that still finds a slot is not a
      multiple of 256 calls after the non-empty message before it. */
  predicate WellNumbered(ms: seq<bytes>) {
    ms == [] ||
    var n := |ms| - 1;
    && WellNumbered(ms[..n])
    && (ms[n] != [] && Blocks(ms[..n]) < MAX_FRAGS ==> Distinct(n, LastNonEmpty(ms[..n])))
  }

  /** Call n is not mistaken for a continuation of the non-empty message sent by call `last`. */
  predicate Distinct(n: nat, last: Option<nat>) {
    match last
    case None => n % 256 == 0
    case Some(i) => (n - i) % 256 != 0
  }

  // ---- Cutting --------------------------------------------------------------------------------

  lemma {:induction false} ChopSizes(m: bytes, k: nat)
    requires k < |Chop(m)|
    ensures 0 < |Chop(m)[k]| <= BLOCK
    decreases k
  {
    if k > 0 {
      ChopSizes(m[BLOCK..], k - 1);
    }
  }

  lemma {:induction false} ChopFlatten(m: bytes)
    ensures Flatten(Chop(m)) == m
  {
    if |m| > BLOCK {
      ChopFlatten(m[BLOCK..]);
      FlattenAppend([m[..BLOCK]], Chop(m[BLOCK..]));
      FlattenSingle(m[..BLOCK]);
      assert m == m[..BLOCK] + m[BLOCK..];
    } else if m != [] {
      FlattenSingle(m);
    }
  }

  lemma {:induction false} FitChop(m: bytes, room: nat)
    ensures |Chop(Fit(m, room))| == Min((|m| + BLOCK - 1) / BLOCK, room)
    ensures room > 0 ==> (Fit(m, room) == [] <==> m == [])
  {
  }

  lemma {:induction false} AcceptStep(q: Queue, m: bytes)
    requires |q.frags| <= MAX_FRAGS
    ensures |Accept(q, m).frags| == |q.frags| + Min((|m| + BLOCK - 1) / BLOCK, MAX_FRAGS - |q.frags|)
    ensures Accept(q, m).cur == if |q.frags| < MAX_FRAGS then (q.cur + 1) % U16_LIMIT else q.cur
  {
    FitChop(m, MAX_FRAGS - |q.frags|);
  }

  lemma NextNumber(n: nat)
    ensures (n % U16_LIMIT + 1) % U16_LIMIT == (n + 1) % U16_LIMIT
    ensures (n % U16_LIMIT) % 256 == n % 256
  {
    ModAgain(n, U16_LIMIT, 1);
    var r := n % U16_LIMIT;
    ModUnique(n, 256, 256 * (n / U16_LIMIT) + r / 256, r % 256);
  }

  /** The queue after a batch: how many slots it takes, and the number of the next message. */
  lemma {:induction false} SendAllCounts(ms: seq<bytes>)
    ensures |SendAll(ms).frags| == Min(Blocks(ms), MAX_FRAGS)
    ensures Blocks(ms) < MAX_FRAGS ==> SendAll(ms).cur == |ms| % U16_LIMIT
  {
    if ms != [] {
      var n := |ms| - 1;
      var q := SendAll(ms[..n]);
      SendAllCounts(ms[..n]);
      AcceptStep(q, ms[n]);
      NextNumber(n);
      assert SendAll(ms) == Accept(q, ms[n]);
      assert Blocks(ms) == Blocks(ms[..n]) + (|ms[n]| + BLOCK - 1) / BLOCK;
    }
  }

  lemma AcceptLast(q: Queue, m: bytes)
    requires |q.frags| < MAX_FRAGS
    ensures m == [] ==> Accept(q, m).frags == q.frags
    ensures m != [] ==> Accept(q, m).frags != []
    ensures m != [] ==> Accept(q, m).frags[|Accept(q, m).frags| - 1].no == q.cur % 256
  {
    var room := MAX_FRAGS - |q.frags|;
    FitChop(m, room);
    var more := Numbered(q.cur % 256, Chop(Fit(m, room)));
    assert Accept(q, m).frags == q.frags + more;
  }

  /** The last pending fragment carries the position of the last non-empty message, modulo 256. */
  lemma {:induction false} LastNumber(ms: seq<bytes>)
    requires Blocks(ms) < MAX_FRAGS
    ensures var q := SendAll(ms).frags;
            match LastNonEmpty(ms)
            case None => q == []
            case Some(i) => q != [] && q[|q| - 1].no == i % 256
  {
    if ms != [] {
      var n := |ms| - 1;
      LastNumber(ms[..n]);
      SendAllCounts(ms[..n]);
      AcceptLast(SendAll(ms[..n]), ms[n]);
      NextNumber(n);
      assert SendAll(ms) == Accept(SendAll(ms[..n]), ms[n]);
    }
  }

  // ---- Tagging and regrouping -----------------------------------------------------------------

  lemma {:induction false} TagsOne(frags: seq<Frag>, f: Frag)
    ensures Tags(frags + [f]) == Tags(frags) +
            [if frags == [] then (if f.no != 0 then 1 else 0)
             else if f.no != frags[|frags| - 1].no then 1 - Tags(frags)[|frags| - 1]
             else Tags(frags)[|frags| - 1]]
  {
    assert (frags + [f])[..|frags|] == frags;
  }

  lemma {:induction false} RegroupOne(tags: seq<nat>, datas: seq<bytes>, tag: nat, data: bytes)
    requires |tags| == |datas|
    ensures Regroup(tags + [tag], datas + [data]) ==
            match Regroup(tags, datas)
            case None => None
            case Some(g) =>
              if tag != (if tags == [] then 1 else tags[|tags| - 1]) then Some(g + [data])
              else if g == [] then None
              else Some(ExtendLast(g, data))
  {
    assert (tags + [tag])[..|tags|] == tags && (datas + [data])[..|tags|] == datas;
  }

  lemma DatasOne(frags: seq<Frag>, f: Frag)
    ensures Datas(frags + [f]) == Datas(frags) + [f.data]
  {
  }

  lemma {:induction false} DeliverOne(frags: seq<Frag>, f: Frag)
    ensures Deliver(frags + [f]) == Attach(frags, Deliver(frags), f.no, f.data)
  {
    hide Tags, Datas, Regroup, ExtendLast;
    var tags, datas := Tags(frags), Datas(frags);
    DatasOne(frags, f);
    TagsOne(frags, f);
    var t := Tags(frags + [f])[|frags|];
    assert Tags(frags + [f]) == tags + [t];
    RegroupOne(tags, datas, t, f.data);
    if frags == [] {
      DeliverNothing();
      assert [] + [f.data] == [f.data];
    } else {
      assert tags[|frags| - 1] <= 1;
      assert t != tags[|frags| - 1] <==> f.no != frags[|frags| - 1].no;
    }
  }

  lemma {:induction false} AttachTwice(frags: seq<Frag>, more: seq<Frag>, g: Option<seq<bytes>>, no: byte, a: bytes,
      b: bytes)
    requires more != [] && more[|more| - 1].no == no
    ensures Attach(frags + more, Attach(frags, g, no, a), no, b) == Attach(frags, g, no, a + b)
  {
    var h := Attach(frags, g, no, a);
    assert (frags + more)[|frags + more| - 1] == more[|more| - 1];
    if h.Some? {
      assert h.value != [];
      assert ExtendLast(h.value, b)[..|h.value| - 1] == h.value[..|h.value| - 1];
      if frags != [] && frags[|frags| - 1].no == no {
        var k := |g.value| - 1;
        assert (g.value[k] + a) + b == g.value[k] + (a + b);
        assert ExtendLast(h.value, b) == ExtendLast(g.value, a + b);
      } else {
        var k := |h.value| - 1;
        assert h.value[k] == a;
        assert ExtendLast(h.value, b) == h.value[..k] + [a + b];
      }
    }
  }

  /** One more message, already cut: it arrives whole, and as its own exactly when its number is new. */
  lemma {:induction false} DeliverMessage(frags: seq<Frag>, no: byte, chunks: seq<bytes>)
    requires chunks != []
    ensures Deliver(frags + Numbered(no, chunks)) == Attach(frags, Deliver(frags), no, Flatten(chunks))
    decreases |chunks|
  {
    var n := |chunks| - 1;
    var f := Frag(no, chunks[n]);
    if n == 0 {
      assert frags + Numbered(no, chunks) == frags + [f];
      FlattenSingle(chunks[0]);
      assert chunks == [chunks[0]];
      DeliverOne(frags, f);
    } else {
      var more := Numbered(no, chunks[..n]);
      assert frags + Numbered(no, chunks) == (frags + more) + [f];
      DeliverMessage(frags, no, chunks[..n]);
      DeliverOne(frags + more, f);
      AttachTwice(frags, more, Deliver(frags), no, Flatten(chunks[..n]), chunks[n]);
    }
  }

  lemma SameNumber(n: nat, last: Option<nat>)
    ensures Distinct(n, last) <==>
            match last
            case None => n % 256 == 0
            case Some(i) => n % 256 != i % 256
  {
  }

  /** The number under which a message is attached decides whether it arrives as its own. */
  lemma AttachCounts(frags: seq<Frag>, d: Option<seq<bytes>>, no: byte, data: bytes, expected: seq<bytes>, good: bool,
      own: bool)
    requires good ==> d == Some(expected)
    requires !good ==> d == None || |d.value| < |expected|
    requires frags == [] ==> d == Some([])
    requires own == if frags == [] then no == 0 else frags[|frags| - 1].no != no
    ensures var d' := Attach(frags, d, no, data);
            && (good && own ==> d' == Some(expected + [data]))
            && (!(good && own) ==> d' == None || |d'.value| < |expected + [data]|)
  {
    if frags == [] && good {
      assert expected + [data] == [data];
    }
  }

  /** The part of the last message that found slots. */
  function LastPart(ms: seq<bytes>): bytes
    requires ms != []
  {
    Fit(ms[|ms| - 1], MAX_FRAGS - |SendAll(ms[..|ms| - 1]).frags|)
  }

  lemma {:induction false} LastMessageAccepted(ms: seq<bytes>)
    requires ms != [] && LastPart(ms) != []
    ensures var n, part := |ms| - 1, LastPart(ms);
            var q := SendAll(ms[..n]);
            && SendAll(ms).frags == q.frags + Numbered(q.cur % 256, Chop(part))
            && Expected(ms) == Expected(ms[..n]) + [part]
            && Chop(part) != []
  {
    hide Numbered, Blocks;
    var n := |ms| - 1;
    assert SendAll(ms) == Accept(SendAll(ms[..n]), ms[n]);
  }

  lemma {:induction false} LastMessageDistinct(ms: seq<bytes>)
    requires ms != [] && LastPart(ms) != []
    ensures var n := |ms| - 1;
            var q := SendAll(ms[..n]);
            var own := if q.frags == [] then q.cur % 256 == 0 else q.frags[|q.frags| - 1].no != q.cur % 256;
            WellNumbered(ms) <==> WellNumbered(ms[..n]) && own
  {
    var n := |ms| - 1;
    SendAllCounts(ms[..n]);
    FitChop(ms[n], MAX_FRAGS - |SendAll(ms[..n]).frags|);
    LastNumber(ms[..n]);
    NextNumber(n);
    SameNumber(n, LastNonEmpty(ms[..n]));
  }

  lemma {:induction false} LastMessageIgnored(ms: seq<bytes>)
    requires ms != [] && LastPart(ms) == []
    ensures var n := |ms| - 1;
            && SendAll(ms).frags == SendAll(ms[..n]).frags
            && Expected(ms) == Expected(ms[..n])
            && (WellNumbered(ms) <==> WellNumbered(ms[..n]))
  {
    var n := |ms| - 1;
    SendAllCounts(ms[..n]);
    FitChop(ms[n], MAX_FRAGS - |SendAll(ms[..n]).frags|);
  }

  /** A batch arrives as meant when it is well numbered; otherwise the receiver goes wrong on the
      first tag or ends up with fewer messages than were meant. */
  lemma {:induction false} Delivery(ms: seq<bytes>)
    ensures WellNumbered(ms) ==> Deliver(SendAll(ms).frags) == Some(Expected(ms))
    ensures !WellNumbered(ms) ==>
              Deliver(SendAll(ms).frags) == None || |Deliver(SendAll(ms).frags).value| < |Expected(ms)|
  {
    hide Accept, Chop, Fit, Numbered, Attach, Regroup, Tags, Blocks, LastNonEmpty, Distinct, Datas, Deliver;
    if ms == [] {
      DeliverNothing();
    } else {
      var n, part := |ms| - 1, LastPart(ms);
      Delivery(ms[..n]);
      if part == [] {
        LastMessageIgnored(ms);
      } else {
        LastMessageAccepted(ms);
        LastMessageDistinct(ms);
        var q := SendAll(ms[..n]);
        var own := if q.frags == [] then q.cur % 256 == 0 else q.frags[|q.frags| - 1].no != q.cur % 256;
        ChopFlatten(part);
        DeliverMessage(q.frags, q.cur % 256, Chop(part));
        DeliverNothing();
        AttachCounts(q.frags, Deliver(q.frags), q.cur % 256, part, Expected(ms[..n]), WellNumbered(ms[..n]), own);
      }
    }
  }

  lemma DeliverNothing()
    ensures Deliver([]) == Some([])
  {
  }

  /** The round trip holds if and only if the batch is well numbered. */
  lemma {:induction false} RoundTrip(ms: seq<bytes>)
    ensures Deliver(SendAll(ms).frags) == Some(Expected(ms)) <==> WellNumbered(ms)
  {
    Delivery(ms);
  }

  // ---- The ordinary case ----------------------------------------------------------------------

  lemma {:induction false} NonEmptyIsWellNumbered(ms: seq<bytes>)
    requires [] !in ms
    ensures WellNumbered(ms)
    ensures LastNonEmpty(ms) == if ms == [] then None else Some(|ms| - 1)
  {
    if ms != [] {
      var n := |ms| - 1;
      assert ms[n] in ms;
      NonEmptyIsWellNumbered(ms[..n]);
    }
  }

  lemma {:induction false} FitWhole(m: bytes, room: nat)
    requires (|m| + BLOCK - 1) / BLOCK <= room
    ensures Fit(m, room) == m
  {
  }

  /** A batch that fits is meant whole. */
  lemma {:induction false} FittingBatch(ms: seq<bytes>)
    requires Blocks(ms) <= MAX_FRAGS
    ensures Flatten(Expected(ms)) == Flatten(ms)
    ensures [] !in ms ==> Expected(ms) == ms
  {
    if ms != [] {
      var n := |ms| - 1;
      FittingBatch(ms[..n]);
      SendAllCounts(ms[..n]);
      FitWhole(ms[n], MAX_FRAGS - |SendAll(ms[..n]).frags|);
      FrontAndLast(ms);
      if ms[n] != [] {
        assert Expected(ms) == Expected(ms[..n]) + [ms[n]];
        assert Expected(ms)[..|Expected(ms)| - 1] == Expected(ms[..n]);
      } else {
        assert Expected(ms) == Expected(ms[..n]);
        assert ms[n] in ms;
      }
    }
  }

  /** A batch that does not fit is cut: what arrives is a prefix of what was sent. */
  lemma {:induction false} ExpectedIsPrefix(ms: seq<bytes>)
    ensures Flatten(Expected(ms)) <= Flatten(ms)
  {
    if ms != [] {
      var n := |ms| - 1;
      SendAllCounts(ms[..n]);
      var part := Fit(ms[n], MAX_FRAGS - |SendAll(ms[..n]).frags|);
      if part == [] {
        ExpectedIsPrefix(ms[..n]);
        assert Expected(ms) == Expected(ms[..n]);
      } else {
        FittingBatch(ms[..n]);
        assert Expected(ms)[..|Expected(ms)| - 1] == Expected(ms[..n]);
      }
    }
  }

  lemma BlocksBound(m: bytes, room: nat)
    ensures (|m| + BLOCK - 1) / BLOCK > room ==> |Fit(m, room)| < |m|
    ensures |Fit(m, room)| <= |m|
  {
  }

  lemma FlattenOne(ss: seq<bytes>, s: bytes)
    ensures |Flatten(ss + [s])| == |Flatten(ss)| + |s|
  {
    assert (ss + [s])[..|ss|] == ss;
  }

  /** A batch that needs more than 62 fragments loses bytes, whatever its messages are. */
  lemma {:induction false} FullBatchLoses(ms: seq<bytes>)
    requires Blocks(ms) > MAX_FRAGS
    ensures |Flatten(Expected(ms))| < |Flatten(ms)|
  {
    hide Flatten, SendAll, Fit;
    var n := |ms| - 1;
    var before := ms[..n];
    var room := MAX_FRAGS - |SendAll(before).frags|;
    var part := Fit(ms[n], room);
    SendAllCounts(before);
    BlocksBound(ms[n], room);
    FrontAndLast(ms);
    FlattenOne(before, ms[n]);
    FlattenOne(Expected(before), part);
    assert Expected(before) + [] == Expected(before);
    assert Expected(ms) == if part == [] then Expected(before) else Expected(before) + [part];
    if Blocks(before) > MAX_FRAGS {
      FullBatchLoses(before);
    } else {
      FittingBatch(before);
    }
  }

  /** A batch is meant whole if and only if it needs at most 62 fragments. */
  lemma {:induction false} ExpectedWhole(ms: seq<bytes>)
    ensures Flatten(Expected(ms)) == Flatten(ms) <==> Blocks(ms) <= MAX_FRAGS
    ensures [] !in ms ==> (Expected(ms) == ms <==> Blocks(ms) <= MAX_FRAGS)
  {
    hide Flatten, Expected, Blocks;
    if Blocks(ms) <= MAX_FRAGS {
      FittingBatch(ms);
    } else {
      FullBatchLoses(ms);
    }
  }

  /** Non-empty messages arrive exactly, in order, if and only if they need at most 62 fragments; a batch
      that needs more arrives as a proper prefix of its bytes. */
  lemma {:induction false} NonEmptyRoundTrip(ms: seq<bytes>)
    requires [] !in ms
    ensures Deliver(SendAll(ms).frags) == Some(ms) <==> Blocks(ms) <= MAX_FRAGS
    ensures Deliver(SendAll(ms).frags) == Some(Expected(ms)) && Flatten(Expected(ms)) <= Flatten(ms)
    ensures Blocks(ms) > MAX_FRAGS ==> |Flatten(Expected(ms))| < |Flatten(ms)|
  {
    hide Deliver, SendAll, Flatten, Expected, Blocks, WellNumbered;
    NonEmptyIsWellNumbered(ms);
    RoundTrip(ms);
    ExpectedIsPrefix(ms);
    ExpectedWhole(ms);
    if Blocks(ms) > MAX_FRAGS {
      FullBatchLoses(ms);
    }
  }

  // ---- Batches that cannot be regrouped -------------------------------------------------------

  /** The position of the first non-empty message. */
  function FirstNonEmpty(ms: seq<bytes>): (i: Option<nat>)
    ensures i.Some? ==> i.value < |ms| && ms[i.value] != [] && forall k :: 0 <= k < i.value ==> ms[k] == []
    ensures i.None? ==> forall k :: 0 <= k < |ms| ==> ms[k] == []
  {
    if ms == [] then None
    else
      var n := |ms| - 1;
      match FirstNonEmpty(ms[..n])
      case Some(i) => Some(i)
      case None => if ms[n] != [] then Some(n) else None
  }

  lemma {:induction false} BlocksNone(ms: seq<bytes>)
    ensures Blocks(ms) == 0 <==> FirstNonEmpty(ms) == None
  {
    if ms != [] {
      BlocksNone(ms[..|ms| - 1]);
    }
  }

  predicate BadStart(ms: seq<bytes>) {
    FirstNonEmpty(ms).Some? && FirstNonEmpty(ms).value % 256 != 0
  }

  lemma AttachFails(frags: seq<Frag>, g: Option<seq<bytes>>, no: byte, data: bytes)
    requires frags != [] && g.Some? ==> g.value != []
    ensures Attach(frags, g, no, data) == None <==> g == None || (frags == [] && no != 0)
  {
  }

  lemma {:induction false} DeliverSome(frags: seq<Frag>)
    ensures frags != [] && Deliver(frags).Some? ==> Deliver(frags).value != []
  {
  }

  /** The receiver cannot regroup a batch if and only if empty messages push the first non-empty one to a
      position that is not a multiple of 256: its first tag is then 1, and the receiver would count the
      fragment before the first message. */
  lemma {:induction false} BadStartBreaks(ms: seq<bytes>)
    ensures Deliver(SendAll(ms).frags) == None <==> BadStart(ms)
  {
    hide Accept, Chop, Fit, Numbered, Attach, Regroup, Tags, Blocks, Datas, Deliver, WellNumbered, Expected;
    DeliverNothing();
    if ms != [] {
      var n, part := |ms| - 1, LastPart(ms);
      var q := SendAll(ms[..n]);
      BadStartBreaks(ms[..n]);
      SendAllCounts(ms[..n]);
      BlocksNone(ms[..n]);
      FitChop(ms[n], MAX_FRAGS - |q.frags|);
      if part == [] {
        LastMessageIgnored(ms);
      } else {
        LastMessageAccepted(ms);
        DeliverMessage(q.frags, q.cur % 256, Chop(part));
        DeliverSome(q.frags);
        AttachFails(q.frags, Deliver(q.frags), q.cur % 256, Flatten(Chop(part)));
        NextNumber(n);
      }
    }
  }

  /** The smallest such batch: an empty message and then any other. */
  lemma {:induction false} EmptyFirstMessageBreaks(m: bytes)
    requires m != []
    ensures Deliver(SendAll([[], m]).frags) == None
  {
    var ms := [[], m];
    assert ms[0] == [] && ms[1] == m;
    BadStartBreaks(ms);
  }
}
