/** Cyclic redundancy checks on bit strings. A register of width w is a string of w bits, most
    significant first, and so is a polynomial p, which stands for the divisor x^w + p(x). */
module Crc {
  import opened Gf2

  /** The divisor x^w + p(x). */
  function Divisor(p: Bits): (g: Bits)
    ensures |g| == |p| + 1 && g[0]
  {
    [true] + p
  }

  /** What a CRC is defined to be: the message followed by w zeros, with the initial register added
      to its leading coefficients, modulo the divisor. */
  function CrcRemainder(init: Bits, m: Bits, p: Bits): (r: Bits)
    requires |init| == |p|
  {
    Remainder(AddLeading(m + Zeros(|p|), init), Divisor(p))
  }

  /** One shift of the register: the inner loop body of the table generators. */
  function Shift(r: Bits, p: Bits): (s: Bits)
    requires |r| == |p| > 0
    ensures |s| == |r|
  {
    var up := r[1..] + [false];
    if r[0] then AddLeading(up, p) else up
  }

  function Shifts(r: Bits, p: Bits, n: nat): (s: Bits)
    requires |r| == |p| > 0
    ensures |s| == |r|
    decreases n
  {
    if n == 0 then r else Shifts(Shift(r, p), p, n - 1)
  }

  /** The register after one message bit. */
  function Feed(r: Bits, bit: bool, p: Bits): (s: Bits)
    requires |r| == |p| > 0
    ensures |s| == |r|
  {
    Shift(r[0 := r[0] != bit], p)
  }

  /** The register after a string of message bits. */
  function FeedBits(r: Bits, m: Bits, p: Bits): (s: Bits)
    requires |r| == |p| > 0
    ensures |s| == |r|
    decreases |m|
  {
    if m == [] then r else FeedBits(Feed(r, m[0], p), m[1..], p)
  }

  // ---- The register computes a polynomial remainder -------------------------------------------

  lemma RemainderStep(a: Bits, g: Bits)
    requires 0 < |g| <= |a| && g[0]
    ensures Remainder(a, g) == Remainder(if a[0] then AddLeading(a, g)[1..] else a[1..], g)
  {
  }

  /** Long division cancels one coefficient exactly where the register takes one shift. */
  lemma FeedIsDivisionStep(r: Bits, m: Bits, p: Bits)
    requires |r| == |p| > 0 && m != []
    ensures CrcRemainder(r, m, p) == CrcRemainder(Feed(r, m[0], p), m[1..], p)
  {
    hide Remainder;
    var a, g := AddLeading(m + Zeros(|p|), r), Divisor(p);
    RemainderStep(a, g);
    CancelIsFeed(r, m, p, a, m[1..] + Zeros(|p|));
  }

  lemma AddTail(a: Bits, p: Bits)
    requires |p| < |a|
    ensures AddLeading(a, Divisor(p))[1..] == AddLeading(a[1..], p)
  {
    var next := AddLeading(a, Divisor(p));
    forall k | 0 <= k < |a| - 1
      ensures next[k + 1] == AddLeading(a[1..], p)[k]
    {
      assert k < |p| ==> Divisor(p)[k + 1] == p[k];
    }
  }

  lemma AddBoth(a: Bits, b: Bits, p: Bits)
    requires |b| == |p| <= |a|
    ensures AddLeading(AddLeading(a, b), p) == AddLeading(a, AddLeading(b, p))
  {
  }

  lemma CancelIsFeed(r: Bits, m: Bits, p: Bits, a: Bits, rest: Bits)
    requires |r| == |p| > 0 && m != []
    requires a == AddLeading(m + Zeros(|p|), r) && rest == m[1..] + Zeros(|p|)
    ensures (if a[0] then AddLeading(a, Divisor(p))[1..] else a[1..]) == AddLeading(rest, Feed(r, m[0], p))
  {
    hide Divisor;
    var bit, up := r[0] != m[0], r[1..] + [false];
    assert r[0 := bit][1..] == r[1..];
    forall k | 0 <= k < |rest|
      ensures a[k + 1] == AddLeading(rest, up)[k]
    {
      assert (m + Zeros(|p|))[k + 1] == rest[k];
    }
    assert a[1..] == AddLeading(rest, up);
    AddTail(a, p);
    AddBoth(rest, up, p);
  }

  /** Feeding a message bit by bit leaves the remainder of its polynomial in the register. */
  lemma {:induction false} RegisterIsRemainder(r: Bits, m: Bits, p: Bits)
    requires |r| == |p| > 0
    ensures FeedBits(r, m, p) == CrcRemainder(r, m, p)
    decreases |m|
  {
    if m == [] {
      assert AddLeading(m + Zeros(|p|), r) == r;
    } else {
      FeedIsDivisionStep(r, m, p);
      RegisterIsRemainder(Feed(r, m[0], p), m[1..], p);
    }
  }

  lemma {:induction false} FeedBitsAppend(r: Bits, a: Bits, b: Bits, p: Bits)
    requires |r| == |p| > 0
    ensures FeedBits(r, a + b, p) == FeedBits(FeedBits(r, a, p), b, p)
    decreases |a|
  {
    if a == [] {
      assert a + b == b;
    } else {
      assert (a + b)[1..] == a[1..] + b;
      FeedBitsAppend(Feed(r, a[0], p), a[1..], b, p);
    }
  }

  // ---- A table look-up replaces eight shifts --------------------------------------------------

  /** Adding message bits into the register at once and then shifting equals feeding them one by one. */
  lemma {:induction false} FeedAtOnce(r: Bits, m: Bits, p: Bits)
    requires |m| <= |r| == |p| && |p| > 0
    ensures FeedBits(r, m, p) == Shifts(AddLeading(r, m), p, |m|)
    decreases |m|
  {
    if m == [] {
      assert AddLeading(r, m) == r;
    } else {
      var s := Feed(r, m[0], p);
      assert Shift(AddLeading(r, m), p) == AddLeading(s, m[1..]);
      FeedAtOnce(s, m[1..], p);
    }
  }

  lemma ShiftAdd(a: Bits, b: Bits, p: Bits)
    requires |a| == |b| == |p| > 0
    ensures Shift(AddLeading(a, b), p) == AddLeading(Shift(a, p), Shift(b, p))
  {
    var c := AddLeading(a, b);
    var up, left, right := c[1..] + [false], a[1..] + [false], b[1..] + [false];
    forall k | 0 <= k < |p|
      ensures up[k] == (left[k] != right[k])
    {
      if k < |p| - 1 {
        assert up[k] == c[k + 1] && left[k] == a[k + 1] && right[k] == b[k + 1];
      }
    }
    forall k | 0 <= k < |p|
      ensures Shift(c, p)[k] == AddLeading(Shift(a, p), Shift(b, p))[k]
    {
      assert Shift(c, p)[k] == (up[k] != (c[0] && p[k]));
      assert Shift(a, p)[k] == (left[k] != (a[0] && p[k]));
      assert Shift(b, p)[k] == (right[k] != (b[0] && p[k]));
    }
  }

  lemma {:induction false} ShiftsAdd(a: Bits, b: Bits, p: Bits, n: nat)
    requires |a| == |b| == |p| > 0
    ensures Shifts(AddLeading(a, b), p, n) == AddLeading(Shifts(a, p, n), Shifts(b, p, n))
    decreases n
  {
    hide Shift;
    if n > 0 {
      ShiftAdd(a, b, p);
      ShiftsAdd(Shift(a, p), Shift(b, p), p, n - 1);
    }
  }

  /** Shifting out zeros only moves the rest of the register up. */
  lemma {:induction false} ShiftsOfZeros(r: Bits, p: Bits, n: nat)
    requires n <= |r| == |p| && |p| > 0
    requires forall k :: 0 <= k < n ==> !r[k]
    ensures Shifts(r, p, n) == r[n..] + Zeros(n)
    decreases n
  {
    if n > 0 {
      ShiftsOfZeros(r[1..] + [false], p, n - 1);
      assert (r[1..] + [false])[n - 1..] + Zeros(n - 1) == r[n..] + Zeros(n);
    } else {
      assert r[0..] + Zeros(0) == r;
    }
  }

  /** The table entry for an index of eight bits. */
  function Entry(index: Bits, p: Bits): (e: Bits)
    requires |index| == 8 <= |p|
    ensures |e| == |p|
  {
    Shifts(index + Zeros(|p| - 8), p, 8)
  }

  /** The update of the table-driven loops: shift the register by a byte and add the entry selected
      by the byte that left it plus the message byte. */
  lemma TableStep(r: Bits, m: Bits, p: Bits)
    requires |m| == 8 <= |r| == |p|
    ensures FeedBits(r, m, p) == AddLeading(r[8..] + Zeros(8), Entry(AddLeading(r[..8], m), p))
  {
    FeedAtOnce(r, m, p);
    var low, high := Zeros(8) + r[8..], AddLeading(r[..8], m) + Zeros(|p| - 8);
    assert AddLeading(r, m) == AddLeading(low, high);
    ShiftsAdd(low, high, p, 8);
    ShiftsOfZeros(low, p, 8);
    assert low[8..] == r[8..];
  }

  // ---- Error detection ------------------------------------------------------------------------

  /** The CRC is linear: messages that differ by e have registers that differ by the CRC of e. */
  lemma {:induction false} Linear(r: Bits, s: Bits, m: Bits, e: Bits, p: Bits)
    requires |r| == |s| == |p| > 0 && |m| == |e|
    ensures FeedBits(AddLeading(r, s), AddLeading(m, e), p) == AddLeading(FeedBits(r, m, p), FeedBits(s, e, p))
    decreases |m|
  {
    if m != [] {
      var r', s' := Feed(r, m[0], p), Feed(s, e[0], p);
      assert AddLeading(m, e)[1..] == AddLeading(m[1..], e[1..]);
      assert Feed(AddLeading(r, s), AddLeading(m, e)[0], p) == AddLeading(r', s');
      Linear(r', s', m[1..], e[1..], p);
    }
  }

  lemma AddNothing(x: Bits, y: Bits)
    requires |x| == |y|
    ensures AddLeading(x, y) == x <==> y == Zeros(|y|)
  {
    if AddLeading(x, y) == x {
      forall k | 0 <= k < |y|
        ensures !y[k]
      {
        assert AddLeading(x, y)[k] == (x[k] != y[k]);
      }
    }
  }

  lemma AddDifference(m: Bits, m': Bits)
    requires |m| == |m'|
    ensures AddLeading(m, Difference(m, m')) == m'
  {
  }

  /** The CRC misses an error exactly when the error pattern is itself a multiple of the divisor. */
  lemma Missed(init: Bits, m: Bits, m': Bits, p: Bits)
    requires |init| == |p| > 0 && |m| == |m'|
    ensures FeedBits(init, m, p) == FeedBits(init, m', p)
       <==> FeedBits(Zeros(|p|), Difference(m, m'), p) == Zeros(|p|)
  {
    var z, e := Zeros(|p|), Difference(m, m');
    Linear(init, z, m, e, p);
    AddNothing(init, z);
    AddDifference(m, m');
    AddNothing(FeedBits(init, m, p), FeedBits(z, e, p));
  }

  /** When the divisor has a constant term, multiplication by x is injective modulo it. */
  lemma ShiftInjective(r: Bits, p: Bits)
    requires |r| == |p| > 0 && p[|p| - 1]
    ensures Shift(r, p) == Zeros(|p|) <==> r == Zeros(|p|)
  {
    var w := |p|;
    if Shift(r, p) == Zeros(w) {
      assert !Shift(r, p)[w - 1];
      assert !r[0];
      forall k | 1 <= k < w
        ensures !r[k]
      {
        assert Shift(r, p)[k - 1] == r[k];
      }
      assert r == Zeros(w);
    } else {
      assert Zeros(w)[1..] + [false] == Zeros(w);
    }
  }

  lemma {:induction false} ShiftsInjective(r: Bits, p: Bits, n: nat)
    requires |r| == |p| > 0 && p[|p| - 1]
    ensures Shifts(r, p, n) == Zeros(|p|) <==> r == Zeros(|p|)
    decreases n
  {
    if n > 0 {
      ShiftInjective(r, p);
      ShiftsInjective(Shift(r, p), p, n - 1);
    }
  }

  /** Zero bits shift the register. */
  lemma {:induction false} FeedZeros(r: Bits, n: nat, p: Bits)
    requires |r| == |p| > 0
    ensures FeedBits(r, Zeros(n), p) == Shifts(r, p, n)
    decreases n
  {
    if n > 0 {
      assert Zeros(n)[1..] == Zeros(n - 1);
      assert r[0 := r[0] != false] == r;
      FeedZeros(Shift(r, p), n - 1, p);
    }
  }

  lemma AddToZeros(burst: Bits, w: nat)
    requires |burst| <= w && burst != Zeros(|burst|)
    ensures AddLeading(Zeros(w), burst) != Zeros(w)
  {
    var k :| 0 <= k < |burst| && burst[k];
    assert AddLeading(Zeros(w), burst)[k] && !Zeros(w)[k];
  }

  /** Up to w message bits fed into a zero register leave them shifted, so only zeros leave zero. */
  lemma BurstAlone(burst: Bits, p: Bits)
    requires |burst| <= |p| && |p| > 0 && p[|p| - 1]
    requires burst != Zeros(|burst|)
    ensures FeedBits(Zeros(|p|), burst, p) != Zeros(|p|)
  {
    FeedAtOnce(Zeros(|p|), burst, p);
    AddToZeros(burst, |p|);
    ShiftsInjective(AddLeading(Zeros(|p|), burst), p, |burst|);
  }

  /** Zeros around a burst change nothing. */
  lemma PaddedBurst(before: nat, burst: Bits, after: nat, p: Bits)
    requires |p| > 0 && p[|p| - 1]
    requires FeedBits(Zeros(|p|), burst, p) != Zeros(|p|)
    ensures FeedBits(Zeros(|p|), Zeros(before) + (burst + Zeros(after)), p) != Zeros(|p|)
  {
    var z := Zeros(|p|);
    FeedBitsAppend(z, Zeros(before), burst + Zeros(after), p);
    FeedZeros(z, before, p);
    ShiftsInjective(z, p, before);
    FeedBitsAppend(z, burst, Zeros(after), p);
    FeedZeros(FeedBits(z, burst, p), after, p);
    ShiftsInjective(FeedBits(z, burst, p), p, after);
  }

  /** A burst is zeros, a non-zero window, and zeros. */
  lemma BurstShape(e: Bits, w: nat) returns (before: nat, burst: Bits, after: nat)
    requires IsBurst(e, w)
    ensures |burst| <= w && burst != Zeros(|burst|)
    ensures e == Zeros(before) + (burst + Zeros(after))
  {
    var start: nat :| start <= |e| && Within(e, start, w);
    var end := if start + w <= |e| then start + w else |e|;
    var hit :| 0 <= hit < |e| && e[hit];
    before, burst, after := start, e[start..end], |e| - end;
    assert burst[hit - start];
    assert e[..start] == Zeros(start);
    assert e[end..] == Zeros(|e| - end);
  }

  /** A non-zero burst no longer than the register leaves a non-zero register. */
  lemma BurstLeavesTrace(e: Bits, p: Bits)
    requires |p| > 0 && p[|p| - 1] && IsBurst(e, |p|)
    ensures FeedBits(Zeros(|p|), e, p) != Zeros(|p|)
  {
    var before, burst, after := BurstShape(e, |p|);
    BurstAlone(burst, p);
    PaddedBurst(before, burst, after, p);
  }

  lemma {:induction false} RemainderOfZeros(n: nat, g: Bits)
    requires |g| > 0 && g[0]
    ensures Remainder(Zeros(n), g) == Zeros(if n < |g| then n else |g| - 1)
  {
    if n >= |g| {
      assert Zeros(n)[1..] == Zeros(n - 1);
      RemainderOfZeros(n - 1, g);
    }
  }

  lemma AddItself(g: Bits, k: nat)
    ensures AddLeading(g + Zeros(k), g) == Zeros(|g| + k)
  {
  }

  lemma AddNothingLeading(a: Bits, n: nat)
    requires n <= |a|
    ensures AddLeading(a, Zeros(n)) == a
  {
  }

  /** The divisor followed by zeros leaves nothing. */
  lemma DivisorLeavesNothing(g: Bits, k: nat)
    requires |g| > 1 && g[0]
    ensures Remainder(g + Zeros(k), g) == Zeros(|g| - 1)
  {
    var n := |g| + k - 1;
    var next := AddLeading(g + Zeros(k), g)[1..];
    assert next == Zeros(n) by {
      AddItself(g, k);
    }
    assert Remainder(g + Zeros(k), g) == Remainder(next, g);
    RemainderOfZeros(n, g);
  }

  /** The divisor, or the divisor short of a zero constant term, is an undetected error. */
  lemma DivisorMissed(e: Bits, p: Bits, k: nat)
    requires |p| > 0 && e + Zeros(|p|) == Divisor(p) + Zeros(k)
    ensures FeedBits(Zeros(|p|), e, p) == Zeros(|p|)
  {
    RegisterIsRemainder(Zeros(|p|), e, p);
    AddNothingLeading(e + Zeros(|p|), |p|);
    DivisorLeavesNothing(Divisor(p), k);
  }

  ghost predicate DetectsBursts(p: Bits, length: nat)
    requires |p| > 0
  {
    forall init: Bits, m: Bits, m': Bits ::
      |init| == |p| && |m| == |m'| && IsBurst(Difference(m, m'), length) ==>
        FeedBits(init, m, p) != FeedBits(init, m', p)
  }

  ghost predicate DetectsOddErrors(p: Bits)
    requires |p| > 0
  {
    forall init: Bits, m: Bits, m': Bits ::
      |init| == |p| && |m| == |m'| && Parity(Difference(m, m')) ==> FeedBits(init, m, p) != FeedBits(init, m', p)
  }

  /** Every burst as long as the register or shorter is detected if and only if the divisor has a
      constant term. */
  lemma BurstDetection(p: Bits)
    requires |p| > 0
    ensures DetectsBursts(p, |p|) <==> p[|p| - 1]
  {
    var w := |p|;
    if p[w - 1] {
      forall init: Bits, m: Bits, m': Bits | |init| == w && |m| == |m'| && IsBurst(Difference(m, m'), w)
        ensures FeedBits(init, m, p) != FeedBits(init, m', p)
      {
        Missed(init, m, m', p);
        BurstLeavesTrace(Difference(m, m'), p);
      }
    } else {
      // The divisor without its zero constant term is an undetected burst of w bits.
      var e, z := Divisor(p)[..w], Zeros(w);
      assert Divisor(p) == e + [false];
      assert e + Zeros(w) == Divisor(p) + Zeros(w - 1);
      DivisorMissed(e, p, w - 1);
      assert Difference(z, e) == e && e[0];
      assert Within(e, 0, w);
      assert IsBurst(Difference(z, e), w);
      Missed(z, z, e, p);
    }
  }

  lemma {:induction false} ParityAdd(a: Bits, b: Bits)
    requires |b| <= |a|
    ensures Parity(AddLeading(a, b)) == (Parity(a) != Parity(b))
  {
    if b == [] {
      assert AddLeading(a, b) == a;
    } else {
      assert AddLeading(a, b)[1..] == AddLeading(a[1..], b[1..]);
      ParityAdd(a[1..], b[1..]);
    }
  }

  /** When the divisor has an even number of terms, the register keeps the parity of every bit fed. */
  lemma FeedKeepsParity(r: Bits, bit: bool, p: Bits)
    requires |r| == |p| > 0 && Parity(p)
    ensures Parity(Feed(r, bit, p)) == (Parity(r) != bit)
  {
    var r' := r[0 := r[0] != bit];
    assert r'[1..] == r[1..];
    ParityAppend(r[1..], [false]);
    assert [false][1..] == [];
    ParityAdd(r[1..] + [false], p);
  }

  lemma {:induction false} RegisterParity(r: Bits, m: Bits, p: Bits)
    requires |r| == |p| > 0 && Parity(p)
    ensures Parity(FeedBits(r, m, p)) == (Parity(r) != Parity(m))
    decreases |m|
  {
    if m != [] {
      FeedKeepsParity(r, m[0], p);
      RegisterParity(Feed(r, m[0], p), m[1..], p);
    }
  }

  /** Every odd number of flipped bits is detected if and only if the divisor has an even number of terms. */
  lemma OddErrorDetection(p: Bits)
    requires |p| > 0
    ensures DetectsOddErrors(p) <==> !Parity(Divisor(p))
  {
    var g := Divisor(p);
    assert g[1..] == p;
    if Parity(p) {
      forall init: Bits, m: Bits, m': Bits | |init| == |p| && |m| == |m'| && Parity(Difference(m, m'))
        ensures FeedBits(init, m, p) != FeedBits(init, m', p)
      {
        RegisterParity(init, m, p);
        RegisterParity(init, m', p);
        ParityAdd(m, m');
      }
    } else {
      // The divisor itself is an undetected error with an odd number of bits.
      var z := Zeros(|g|);
      assert g + Zeros(|p|) == Divisor(p) + Zeros(|p|);
      DivisorMissed(g, p, |p|);
      assert Difference(z, g) == g;
      Missed(Zeros(|p|), z, g, p);
    }
  }
}
