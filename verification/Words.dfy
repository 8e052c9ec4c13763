/** C's unsigned integers as bit strings: the operators the CRC code applies to u8, u16 and u32. */
module Words {
  import opened Bytes
  import opened Gf2

  function Pow2(n: nat): (p: nat)
    ensures p > 0
  {
    if n == 0 then 1 else 2 * Pow2(n - 1)
  }

  /** The n low bits of v, most significant first. */
  function BitsOf(v: nat, n: nat): (b: Bits)
    ensures |b| == n
  {
    if n == 0 then [] else BitsOf(v / 2, n - 1) + [v % 2 == 1]
  }

  /** The number written by a bit string. */
  function ValueOf(b: Bits): (v: nat)
    ensures v < Pow2(|b|)
  {
    if b == [] then 0 else 2 * ValueOf(b[..|b| - 1]) + (if b[|b| - 1] then 1 else 0)
  }

  /** a ^ b */
  function Xor(a: nat, b: nat): nat
    decreases a + b
  {
    if a == 0 && b == 0 then 0 else 2 * Xor(a / 2, b / 2) + (if a % 2 != b % 2 then 1 else 0)
  }

  /** v & (1 << k) != 0 */
  predicate TestBit(v: nat, k: nat)
    decreases k
  {
    if k == 0 then v % 2 == 1 else TestBit(v / 2, k - 1)
  }

  /** v << k in a u32 */
  function Shl(v: nat, k: nat): nat
    decreases k
  {
    if k == 0 then v else Shl((2 * v) % U32_LIMIT, k - 1)
  }

  /** v >> k */
  function Shr(v: nat, k: nat): nat
    decreases k
  {
    if k == 0 then v else Shr(v / 2, k - 1)
  }

  /** The bits of a message, most significant bit of each byte first. */
  function MessageBits(data: bytes): (m: Bits)
    ensures |m| == 8 * |data|
  {
    if data == [] then [] else MessageBits(data[..|data| - 1]) + BitsOf(data[|data| - 1], 8)
  }

  lemma {:induction false} ValueOfBits(v: nat, n: nat)
    requires v < Pow2(n)
    ensures ValueOf(BitsOf(v, n)) == v
  {
    if n > 0 {
      assert BitsOf(v, n)[..n - 1] == BitsOf(v / 2, n - 1);
      ValueOfBits(v / 2, n - 1);
    }
  }

  lemma {:induction false} BitsOfValue(b: Bits)
    ensures BitsOf(ValueOf(b), |b|) == b
  {
    if b != [] {
      BitsOfValue(b[..|b| - 1]);
    }
  }

  lemma {:induction false} BitsXor(a: nat, b: nat, n: nat)
    ensures BitsOf(Xor(a, b), n) == AddLeading(BitsOf(a, n), BitsOf(b, n))
    decreases n
  {
    if n > 0 {
      assert Xor(a, b) / 2 == Xor(a / 2, b / 2);
      assert (Xor(a, b) % 2 == 1) == (a % 2 != b % 2);
      BitsXor(a / 2, b / 2, n - 1);
    }
  }

  lemma WordSizes()
    ensures Pow2(8) == 0x100 && Pow2(16) == U16_LIMIT && Pow2(32) == U32_LIMIT
  {
    assert Pow2(4) == 16;
    assert Pow2(8) == 0x100;
    assert Pow2(12) == 0x1000;
    assert Pow2(16) == U16_LIMIT;
    assert Pow2(20) == 0x10_0000;
    assert Pow2(24) == 0x100_0000;
    assert Pow2(28) == 0x1000_0000;
  }

  lemma HalfSum(v: nat, pq: nat, m: nat)
    requires v == 2 * pq + m
    ensures v / 2 == pq + m / 2 && v % 2 == m % 2
  {
  }

  lemma TwiceProduct(p: nat, q: nat)
    ensures (2 * p) * q == 2 * (p * q)
  {
  }

  lemma HalfParts(v: nat, p: nat, q: nat, m: nat)
    requires v == (2 * p) * q + m && m / 2 < p
    ensures (v / 2) % p == m / 2 && v % 2 == m % 2
  {
    TwiceProduct(p, q);
    HalfSum(v, p * q, m);
    ModUnique(v / 2, p, q, m / 2);
  }

  lemma Quotient(v: nat, n: nat) returns (q: nat)
    requires n > 0
    ensures v == n * q + v % n && v % n < n
  {
    q := v / n;
  }

  lemma ModHalf(v: nat, p: nat)
    requires p > 0
    ensures (v % (2 * p)) / 2 == (v / 2) % p
    ensures (v % (2 * p)) % 2 == v % 2
  {
    var q := Quotient(v, 2 * p);
    HalfParts(v, p, q, v % (2 * p));
  }

  /** A cast to a k-bit type keeps the low k bits. */
  lemma {:induction false} BitsMod(v: nat, n: nat, k: nat)
    requires n <= k
    ensures BitsOf(v % Pow2(k), n) == BitsOf(v, n)
    decreases n
  {
    if n > 0 {
      ModHalf(v, Pow2(k - 1));
      BitsMod(v / 2, n - 1, k - 1);
    }
  }

  lemma {:induction false} BitsDouble(v: nat, n: nat)
    requires n > 0
    ensures BitsOf((2 * v) % U32_LIMIT, n) == BitsOf(2 * v, n) || n > 32
    ensures BitsOf(2 * v, n) == BitsOf(v, n)[1..] + [false]
  {
    BitsSplit(v, 1, n - 1);
    assert (2 * v) / 2 == v;
    if n <= 32 {
      WordSizes();
      BitsMod(2 * v, n, 32);
    }
  }

  /** The bits of v above and below position k. */
  lemma {:induction false} BitsSplit(v: nat, n: nat, k: nat)
    ensures BitsOf(v, n + k)[..n] == BitsOf(Shr(v, k), n)
    ensures BitsOf(v, n + k)[n..] == BitsOf(v, k)
    decreases k
  {
    if k > 0 {
      BitsSplit(v / 2, n, k - 1);
    }
  }

  lemma {:induction false} BitsShl(v: nat, k: nat, n: nat)
    requires k <= n <= 32
    ensures BitsOf(Shl(v, k), n) == BitsOf(v, n)[k..] + Zeros(k)
    decreases k
  {
    if k > 0 {
      var u := (2 * v) % U32_LIMIT;
      BitsDouble(v, n);
      BitsShl(u, k - 1, n);
      assert (BitsOf(v, n)[1..] + [false])[k - 1..] + Zeros(k - 1) == BitsOf(v, n)[k..] + Zeros(k);
    }
  }

  lemma {:induction false} BitsTop(v: nat, n: nat)
    requires n > 0
    ensures BitsOf(v, n)[0] == TestBit(v, n - 1)
    decreases n
  {
    if n > 1 {
      BitsTop(v / 2, n - 1);
    }
  }
}
