/** Bitwise operations on naturals, by their binary digits. */
module Bits {
  import opened Arith

  function Pow2(k: nat): (r: nat)
    ensures r > 0
  {
    if k == 0 then 1 else 2 * Pow2(k - 1)
  }

  function And(a: nat, b: nat): nat {
    if a == 0 then 0 else 2 * And(a / 2, b / 2) + (if a % 2 == 1 then b % 2 else 0)
  }

  function Xor(a: nat, b: nat): nat
    decreases a + b
  {
    if a == 0 && b == 0 then 0 else 2 * Xor(a / 2, b / 2) + (a + b) % 2
  }

  /** Number of ones. */
  function Popcount(a: nat): nat {
    if a == 0 then 0 else Popcount(a / 2) + a % 2
  }

  /** Bit `k` of `a`. */
  predicate BitSet(a: nat, k: nat) {
    if k == 0 then a % 2 == 1 else BitSet(a / 2, k - 1)
  }

  /** `a` with bit `k` inverted. */
  function Flip(a: nat, k: nat): (r: nat) {
    if k == 0 then (if a % 2 == 1 then a - 1 else a + 1)
    else 2 * Flip(a / 2, k - 1) + a % 2
  }

  lemma {:induction false} XorZero(a: nat)
    ensures Xor(a, 0) == a
  {
    if a > 0 {
      XorZero(a / 2);
    }
  }

  lemma XorStep(a: nat, b: nat)
    ensures Xor(a, b) == 2 * Xor(a / 2, b / 2) + (a + b) % 2
  {}

  lemma Pow2Step(k: nat)
    requires k > 0
    ensures Pow2(k) == 2 * Pow2(k - 1)
  {}

  lemma Halved(a: nat, p: nat)
    ensures 2 * p / 2 == p && (a + 2 * p) % 2 == a % 2
  {}

  lemma FlipLowest(a: nat)
    ensures Pow2(0) == 1 && Flip(a, 0) == 2 * (a / 2) + (a + 1) % 2
  {}

  lemma FlipStep(a: nat, k: nat)
    requires k > 0
    ensures Flip(a, k) == 2 * Flip(a / 2, k - 1) + a % 2
  {}

  lemma {:induction false} XorIsFlip(a: nat, k: nat)
    ensures Xor(a, Pow2(k)) == Flip(a, k)
  {
    hide *;
    XorStep(a, Pow2(k));
    if k == 0 {
      XorZero(a / 2);
      FlipLowest(a);
    } else {
      Pow2Step(k);
      FlipStep(a, k);
      Halved(a, Pow2(k - 1));
      XorIsFlip(a / 2, k - 1);
    }
  }

  lemma {:induction false} AndIsBit(a: nat, k: nat)
    ensures And(a, Pow2(k)) == if BitSet(a, k) then Pow2(k) else 0
  {
    if k == 0 {
      if a > 0 { AndZero(a / 2); }
    } else if a > 0 {
      assert Pow2(k) / 2 == Pow2(k - 1);
      AndIsBit(a / 2, k - 1);
    } else {
      ZeroHasNoBit(k);
    }
  }

  lemma {:induction false} ZeroHasNoBit(k: nat)
    ensures !BitSet(0, k)
  {
    if k > 0 { ZeroHasNoBit(k - 1); }
  }

  lemma {:induction false} AndZero(a: nat)
    ensures And(a, 0) == 0
  {
    if a > 0 { AndZero(a / 2); }
  }

  /** Masking with 2^k - 1 keeps the remainder modulo 2^k. */
  lemma {:induction false} AndMask(a: nat, k: nat)
    ensures And(a, Pow2(k) - 1) == a % Pow2(k)
  {
    if k == 0 {
      AndZero(a);
    } else {
      assert (Pow2(k) - 1) / 2 == Pow2(k - 1) - 1;
      assert (Pow2(k) - 1) % 2 == 1;
      AndMask(a / 2, k - 1);
      HalfMod(a, Pow2(k - 1));
    }
  }

  lemma HalfMod(a: nat, p: nat)
    requires p > 0
    ensures a % (2 * p) == 2 * (a / 2 % p) + a % 2
  {
    var q, m := a / 2 / p, a / 2 % p;
    DivNat(a / 2, p);
    assert a / 2 == p * q + m;
    assert a == (2 * p) * q + (2 * m + a % 2);
    DivIs(a, 2 * p, q, 2 * m + a % 2);
  }

  /** A bit splits the range below 2^(k+1): the top bit tells the halves apart, flipping swaps them. */
  lemma {:induction false} TopBit(i: nat, k: nat)
    requires i < Pow2(k)
    ensures !BitSet(i, k) && BitSet(Pow2(k) + i, k)
    ensures Flip(i, k) == Pow2(k) + i && Flip(Pow2(k) + i, k) == i
  {
    if k > 0 {
      TopBit(i / 2, k - 1);
      assert (Pow2(k) + i) / 2 == Pow2(k - 1) + i / 2;
    }
  }

  /** `a` is a multiple of 2^n. */
  predicate Aligned(a: nat, n: nat) {
    n == 0 || (a % 2 == 0 && Aligned(a / 2, n - 1))
  }

  lemma {:induction false} ZeroAligned(n: nat)
    ensures Aligned(0, n)
  {
    if n > 0 { ZeroAligned(n - 1); }
  }

  /** A block of 2^(n+1) starts with two blocks of 2^n. */
  lemma {:induction false} AlignedHalves(a: nat, n: nat)
    requires Aligned(a, n + 1)
    ensures Aligned(a, n) && Aligned(a + Pow2(n), n)
  {
    if n > 0 {
      AlignedHalves(a / 2, n - 1);
      assert (a + Pow2(n)) / 2 == a / 2 + Pow2(n - 1) && (a + Pow2(n)) % 2 == 0;
    }
  }

  /** Bit `k` and its flip do not see a multiple of 2^(k+1). */
  lemma {:induction false} BitOfSum(base: nat, i: nat, k: nat)
    requires Aligned(base, k + 1)
    ensures BitSet(base + i, k) == BitSet(i, k)
    ensures Flip(base + i, k) == base + Flip(i, k)
  {
    assert (base + i) / 2 == base / 2 + i / 2 && (base + i) % 2 == i % 2;
    if k > 0 {
      BitOfSum(base / 2, i / 2, k - 1);
    }
  }

  /** `a` with the bits of `b` cleared. */
  function AndNot(a: nat, b: nat): nat {
    if a == 0 then 0 else 2 * AndNot(a / 2, b / 2) + (if a % 2 == 1 then 1 - b % 2 else 0)
  }

  lemma {:induction false} AndNotSplits(a: nat, b: nat)
    ensures And(a, b) + AndNot(a, b) == a
  {
    if a != 0 { AndNotSplits(a / 2, b / 2); }
  }

  /** Clearing the low k bits rounds down to a multiple of 2^k. */
  lemma AndNotMask(a: nat, k: nat)
    ensures AndNot(a, Pow2(k) - 1) == a - a % Pow2(k)
  {
    AndMask(a, k);
    AndNotSplits(a, Pow2(k) - 1);
  }
}
