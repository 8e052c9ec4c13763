/** Polynomials over GF(2) as coefficient strings, highest degree first, and schoolbook long division. */
module Gf2 {

  type Bits = seq<bool>

  function Zeros(n: nat): (z: Bits)
    ensures |z| == n
    ensures forall k :: 0 <= k < n ==> !z[k]
  {
    seq(n, _ => false)
  }

  /** Coefficient-wise sum: b is added into the leading coefficients of a. */
  function AddLeading(a: Bits, b: Bits): (r: Bits)
    requires |b| <= |a|
    ensures |r| == |a|
    ensures forall k :: 0 <= k < |b| ==> r[k] == (a[k] != b[k])
    ensures forall k :: |b| <= k < |a| ==> r[k] == a[k]
  {
    seq(|a|, k requires 0 <= k < |a| => if k < |b| then a[k] != b[k] else a[k])
  }

  /** The remainder of a by g, by long division: while the dividend is at least as long as the divisor,
      cancel its leading coefficient with a copy of g and drop it. */
  function Remainder(a: Bits, g: Bits): (r: Bits)
    requires |g| > 0 && g[0]
    ensures |r| == if |a| < |g| then |a| else |g| - 1
    decreases |a|
  {
    if |a| < |g| then a
    else if a[0] then Remainder(AddLeading(a, g)[1..], g)
    else Remainder(a[1..], g)
  }

  /** Whether an odd number of coefficients is set. */
  function Parity(a: Bits): bool {
    if a == [] then false else a[0] != Parity(a[1..])
  }

  lemma {:induction false} ParityAppend(a: Bits, b: Bits)
    ensures Parity(a + b) == (Parity(a) != Parity(b))
  {
    if a == [] {
      assert a + b == b;
    } else {
      assert (a + b)[1..] == a[1..] + b;
      ParityAppend(a[1..], b);
    }
  }

  lemma {:induction false} ParityZeros(a: Bits)
    requires forall k :: 0 <= k < |a| ==> !a[k]
    ensures !Parity(a)
  {
    if a != [] {
      ParityZeros(a[1..]);
    }
  }

  /** An error pattern that is non-zero and confined to a window of `length` consecutive bits. */
  ghost predicate IsBurst(e: Bits, length: nat) {
    (exists k :: 0 <= k < |e| && e[k]) &&
    exists start: nat :: start <= |e| && Within(e, start, length)
  }

  ghost predicate Within(e: Bits, start: nat, length: nat) {
    forall k :: 0 <= k < |e| && e[k] ==> start <= k < start + length
  }

  /** How two equally long bit strings differ. */
  function Difference(a: Bits, b: Bits): (e: Bits)
    requires |a| == |b|
    ensures |e| == |a|
    ensures forall k :: 0 <= k < |a| ==> e[k] == (a[k] != b[k])
  {
    AddLeading(a, b)
  }
}
