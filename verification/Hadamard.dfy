/** The Hadamard matrix and the butterfly network that multiplies by it. */
module Hadamard {
  import opened Arith
  import opened Bits

  /** Entry (i, j) of the Hadamard matrix, (-1)^popcount(i AND j), times `v`. */
  function Signed(i: nat, j: nat, v: real): real {
    if Popcount(And(i, j)) % 2 == 0 then v else -v
  }

  /** Row `i` of the matrix times the `n` elements of `x` from `base` on. */
  function Dot(i: nat, x: seq<real>, base: nat, n: nat): real
    requires base + n <= |x|
  {
    if n == 0 then 0.0 else Dot(i, x, base, n - 1) + Signed(i, n - 1, x[base + (n - 1)])
  }

  /** Entry `i` of the matrix-vector product. */
  function Product(x: seq<real>, i: nat): real {
    Dot(i, x, 0, |x|)
  }

  // ---------- signs of a doubled matrix ----------

  lemma AndStep(i: nat, j: nat)
    ensures And(i, j) == 2 * And(i / 2, j / 2) + (if i % 2 == 1 then j % 2 else 0)
  {}

  lemma {:induction false} AndTop(i: nat, j: nat, k: nat)
    requires i < Pow2(k) && j < Pow2(k)
    ensures And(i, Pow2(k) + j) == And(i, j)
    ensures And(Pow2(k) + i, j) == And(i, j)
    ensures And(Pow2(k) + i, Pow2(k) + j) == Pow2(k) + And(i, j) && And(i, j) < Pow2(k)
  {
    hide And;
    var p := Pow2(k);
    AndStep(i, j); AndStep(i, p + j); AndStep(p + i, j); AndStep(p + i, p + j);
    if k > 0 {
      var h := Pow2(k - 1);
      hide Pow2;
      AndTop(i / 2, j / 2, k - 1);
      assert (p + i) / 2 == h + i / 2 && (p + j) / 2 == h + j / 2 && (p + i) % 2 == i % 2 && (p + j) % 2 == j % 2;
    } else {
      AndOneBit();
    }
  }

  lemma AndOneBit()
    ensures And(0, 0) == 0 && And(0, 1) == 0 && And(1, 0) == 0 && And(1, 1) == 1
  {}

  lemma {:induction false} PopcountTop(m: nat, k: nat)
    requires m < Pow2(k)
    ensures Popcount(Pow2(k) + m) == 1 + Popcount(m)
  {
    if k > 0 {
      PopcountTop(m / 2, k - 1);
      assert (Pow2(k) + m) / 2 == Pow2(k - 1) + m / 2;
    }
  }

  lemma SignTop(i: nat, j: nat, k: nat, v: real)
    requires i < Pow2(k) && j < Pow2(k)
    ensures Signed(i, Pow2(k) + j, v) == Signed(i, j, v) && Signed(Pow2(k) + i, j, v) == Signed(i, j, v)
    ensures Signed(Pow2(k) + i, Pow2(k) + j, v) == -Signed(i, j, v)
  {
    hide And, Popcount, Pow2;
    AndTop(i, j, k);
    PopcountTop(And(i, j), k);
  }


  lemma {:induction false} DotLow(i: nat, x: seq<real>, base: nat, k: nat, n: nat)
    requires i < Pow2(k) && n <= Pow2(k) && base + n <= |x|
    ensures Dot(Pow2(k) + i, x, base, n) == Dot(i, x, base, n)
  {
    hide Signed, Pow2;
    if n > 0 {
      DotLow(i, x, base, k, n - 1);
      SignTop(i, n - 1, k, x[base + (n - 1)]);
    }
  }

  lemma {:induction false} DotHigh(i: nat, x: seq<real>, base: nat, k: nat, n: nat)
    requires i < Pow2(k) && n <= Pow2(k) && base + Pow2(k) + n <= |x|
    ensures Dot(i, x, base, Pow2(k) + n) == Dot(i, x, base, Pow2(k)) + Dot(i, x, base + Pow2(k), n)
    ensures Dot(Pow2(k) + i, x, base, Pow2(k) + n)
         == Dot(Pow2(k) + i, x, base, Pow2(k)) - Dot(i, x, base + Pow2(k), n)
  {
    hide Signed, Pow2;
    if n > 0 {
      DotHigh(i, x, base, k, n - 1);
      var v := x[base + Pow2(k) + (n - 1)];
      assert v == x[base + (Pow2(k) + n - 1)];
      SignTop(i, n - 1, k, v);
    }
  }

  // ---------- Sylvester's recursion ----------

  /** Entry `i` of the transform of the 2^n elements from `base` on: half sums, then half differences. */
  function Transform(x: seq<real>, base: nat, n: nat, i: nat): real
    requires base + Pow2(n) <= |x| && i < Pow2(n)
    decreases n
  {
    if n == 0 then x[base]
    else
      var h := Pow2(n - 1);
      if i < h then Transform(x, base, n - 1, i) + Transform(x, base + h, n - 1, i)
      else Transform(x, base, n - 1, i - h) - Transform(x, base + h, n - 1, i - h)
  }

  lemma TransformLow(x: seq<real>, base: nat, n: nat, j: nat)
    requires base + 2 * Pow2(n) <= |x| && j < Pow2(n)
    ensures Pow2(n + 1) == 2 * Pow2(n)
    ensures Transform(x, base, n + 1, j) == Transform(x, base, n, j) + Transform(x, base + Pow2(n), n, j)
  {}

  lemma TransformHigh(x: seq<real>, base: nat, n: nat, j: nat)
    requires base + 2 * Pow2(n) <= |x| && j < Pow2(n)
    ensures Pow2(n + 1) == 2 * Pow2(n)
    ensures Transform(x, base, n + 1, Pow2(n) + j) == Transform(x, base, n, j) - Transform(x, base + Pow2(n), n, j)
  {}

  /** The recursion computes the matrix product. */
  lemma {:induction false} TransformIsDot(x: seq<real>, base: nat, n: nat, i: nat)
    requires base + Pow2(n) <= |x| && i < Pow2(n)
    ensures Transform(x, base, n, i) == Dot(i, x, base, Pow2(n))
    decreases n, 1
  {
    if n == 0 {
      assert Dot(0, x, base, 1) == Dot(0, x, base, 0) + Signed(0, 0, x[base]);
    } else {
      Pow2Step(n);
      hide Pow2, Dot, Transform;
      DotPair(x, base, n - 1, if i < Pow2(n - 1) then i else i - Pow2(n - 1));
    }
  }

  lemma {:induction false} DotPair(x: seq<real>, base: nat, n: nat, j: nat)
    requires base + 2 * Pow2(n) <= |x| && j < Pow2(n)
    ensures Pow2(n + 1) == 2 * Pow2(n)
    ensures Transform(x, base, n + 1, j) == Dot(j, x, base, 2 * Pow2(n))
    ensures Transform(x, base, n + 1, Pow2(n) + j) == Dot(Pow2(n) + j, x, base, 2 * Pow2(n))
    decreases n + 1, 0
  {
    Pow2Step(n + 1);
    hide *;
    var h := Pow2(n);
    TransformIsDot(x, base, n, j);
    TransformIsDot(x, base + h, n, j);
    DotHigh(j, x, base, n, h);
    DotLow(j, x, base, n, h);
    TransformLow(x, base, n, j);
    TransformHigh(x, base, n, j);
  }

  // ---------- the butterfly network ----------

  /** One exchange stage: each element meets its partner across bit `b`; the upper one is negated first. */
  function Stage(x: seq<real>, b: nat, k: nat): (r: seq<real>)
    requires b < k && |x| == Pow2(k)
    ensures |r| == |x|
  {
    seq(|x|, i requires 0 <= i < |x| =>
      FlipInside(i, b, k);
      (if BitSet(i, b) then -x[i] else x[i]) + x[Flip(i, b)])
  }

  lemma {:induction false} FlipInside(i: nat, b: nat, k: nat)
    requires b < k && i < Pow2(k)
    ensures Flip(i, b) < Pow2(k)
  {
    hide Pow2, Flip;
    Pow2Step(k);
    FlipParts(i, b);
    if b > 0 { FlipInside(i / 2, b - 1, k - 1); }
    assert Flip(i, b) / 2 < Pow2(k - 1);
  }

  /** Stages 0 .. n-1 in order. */
  function Network(x: seq<real>, n: nat, k: nat): (r: seq<real>)
    requires n <= k && |x| == Pow2(k)
    ensures |r| == |x|
  {
    if n == 0 then x else Stage(Network(x, n - 1, k), n - 1, k)
  }

  lemma StageDef(y: seq<real>, b: nat, k: nat, i: nat)
    requires b < k && |y| == Pow2(k) && i < |y|
    ensures Flip(i, b) < |y|
    ensures Stage(y, b, k)[i] == (if BitSet(i, b) then -y[i] else y[i]) + y[Flip(i, b)]
  {
    FlipInside(i, b, k);
  }

  /** The lower element of a pair becomes the sum. */
  lemma StageLow(y: seq<real>, n: nat, k: nat, base: nat, j: nat)
    requires n < k && |y| == Pow2(k) && base + 2 * Pow2(n) <= |y| && Aligned(base, n + 1) && j < Pow2(n)
    ensures Stage(y, n, k)[base + j] == y[base + j] + y[base + Pow2(n) + j]
  {
    hide Pow2, BitSet, Flip, Stage;
    BitOfSum(base, j, n);
    TopBit(j, n);
    StageDef(y, n, k, base + j);
  }

  /** The upper element of a pair becomes the difference. */
  lemma StageHigh(y: seq<real>, n: nat, k: nat, base: nat, j: nat)
    requires n < k && |y| == Pow2(k) && base + 2 * Pow2(n) <= |y| && Aligned(base, n + 1) && j < Pow2(n)
    ensures Stage(y, n, k)[base + Pow2(n) + j] == y[base + j] - y[base + Pow2(n) + j]
  {
    hide Pow2, BitSet, Flip, Stage;
    BitOfSum(base, Pow2(n) + j, n);
    TopBit(j, n);
    StageDef(y, n, k, base + Pow2(n) + j);
  }

  lemma NetworkStep(x: seq<real>, n: nat, k: nat, base: nat)
    requires 0 < n <= k && |x| == Pow2(k) && Aligned(base, n)
    ensures Network(x, n, k) == Stage(Network(x, n - 1, k), n - 1, k)
    ensures |Network(x, n, k)| == |Network(x, n - 1, k)| == |x|
    ensures Pow2(n) == 2 * Pow2(n - 1) && Aligned(base, n - 1) && Aligned(base + Pow2(n - 1), n - 1)
  {
    AlignedHalves(base, n - 1);
  }

  lemma {:induction false} NetworkLow(x: seq<real>, n: nat, k: nat, base: nat, j: nat)
    requires n < k && |x| == Pow2(k) && base + 2 * Pow2(n) <= |x| && Aligned(base, n + 1) && j < Pow2(n)
    requires Network(x, n, k)[base + j] == Transform(x, base, n, j)
    requires Network(x, n, k)[base + Pow2(n) + j] == Transform(x, base + Pow2(n), n, j)
    ensures Network(x, n + 1, k)[base + j] == Transform(x, base, n + 1, j)
  {
    NetworkStep(x, n + 1, k, base);
    hide *;
    TransformLow(x, base, n, j);
    StageLow(Network(x, n, k), n, k, base, j);
  }

  lemma {:induction false} NetworkHigh(x: seq<real>, n: nat, k: nat, base: nat, j: nat)
    requires n < k && |x| == Pow2(k) && base + 2 * Pow2(n) <= |x| && Aligned(base, n + 1) && j < Pow2(n)
    requires Network(x, n, k)[base + j] == Transform(x, base, n, j)
    requires Network(x, n, k)[base + Pow2(n) + j] == Transform(x, base + Pow2(n), n, j)
    ensures Network(x, n + 1, k)[base + Pow2(n) + j] == Transform(x, base, n + 1, Pow2(n) + j)
  {
    NetworkStep(x, n + 1, k, base);
    hide *;
    TransformHigh(x, base, n, j);
    StageHigh(Network(x, n, k), n, k, base, j);
  }

  /** After n stages every aligned block of 2^n holds the transform of the block it started with. */
  lemma {:induction false} NetworkAt(x: seq<real>, n: nat, k: nat, base: nat, i: nat)
    requires n <= k && |x| == Pow2(k) && base + Pow2(n) <= |x| && Aligned(base, n) && i < Pow2(n)
    ensures Network(x, n, k)[base + i] == Transform(x, base, n, i)
    decreases n, 1
  {
    if n > 0 {
      hide *;
      Pow2Step(n);
      NetworkPair(x, n - 1, k, base, if i < Pow2(n - 1) then i else i - Pow2(n - 1));
      if i >= Pow2(n - 1) {
        assert base + Pow2(n - 1) + (i - Pow2(n - 1)) == base + i;
      }
    }
  }

  lemma {:induction false} NetworkPair(x: seq<real>, n: nat, k: nat, base: nat, j: nat)
    requires n < k && |x| == Pow2(k) && base + 2 * Pow2(n) <= |x| && Aligned(base, n + 1) && j < Pow2(n)
    ensures |Network(x, n + 1, k)| == |x| && Pow2(n + 1) == 2 * Pow2(n)
    ensures Network(x, n + 1, k)[base + j] == Transform(x, base, n + 1, j)
    ensures Network(x, n + 1, k)[base + Pow2(n) + j] == Transform(x, base, n + 1, Pow2(n) + j)
    decreases n + 1, 0
  {
    NetworkStep(x, n + 1, k, base);
    hide *;
    NetworkAt(x, n, k, base, j);
    NetworkAt(x, n, k, base + Pow2(n), j);
    NetworkLow(x, n, k, base, j);
    NetworkHigh(x, n, k, base, j);
  }

  /** The network of all k stages multiplies by the Hadamard matrix, for every length 2^k. */
  lemma NetworkIsProduct(x: seq<real>, k: nat, i: nat)
    requires |x| == Pow2(k) && i < |x|
    ensures Network(x, k, k)[i] == Product(x, i)
  {
    hide Network, Transform, Dot;
    ZeroAligned(k);
    NetworkAt(x, k, k, 0, i);
    TransformIsDot(x, 0, k, i);
  }

  // ---------- the network is its own inverse up to 2^k ----------

  function Times(c: real, a: seq<real>): (r: seq<real>)
    ensures |r| == |a| && forall i :: 0 <= i < |a| ==> r[i] == c * a[i]
  {
    seq(|a|, i requires 0 <= i < |a| => c * a[i])
  }

  lemma {:induction false} FlipTwice(i: nat, b: nat)
    ensures Flip(Flip(i, b), b) == i && BitSet(Flip(i, b), b) == !BitSet(i, b)
  {
    if b > 0 {
      FlipTwice(i / 2, b - 1);
    }
  }

  lemma {:induction false} FlipElsewhere(i: nat, b: nat, c: nat)
    requires b != c
    ensures BitSet(Flip(i, c), b) == BitSet(i, b)
  {
    FlipParts(i, c);
    if b > 0 && c > 0 {
      FlipElsewhere(i / 2, b - 1, c - 1);
    }
  }

  lemma FlipParts(i: nat, b: nat)
    ensures Flip(i, b) / 2 == (if b == 0 then i / 2 else Flip(i / 2, b - 1))
    ensures Flip(i, b) % 2 == (if b == 0 then 1 - i % 2 else i % 2)
  {}

  lemma {:induction false} FlipsCommute(i: nat, b: nat, c: nat)
    requires b != c
    ensures Flip(Flip(i, b), c) == Flip(Flip(i, c), b)
  {
    FlipParts(i, b); FlipParts(i, c);
    FlipParts(Flip(i, b), c); FlipParts(Flip(i, c), b);
    if b > 0 && c > 0 {
      FlipsCommute(i / 2, b - 1, c - 1);
    }
    hide Flip;
    var p, q := Flip(Flip(i, b), c), Flip(Flip(i, c), b);
    assert p / 2 == q / 2 && p % 2 == q % 2;
  }

  lemma StageTwice(x: seq<real>, b: nat, k: nat)
    requires b < k && |x| == Pow2(k)
    ensures Stage(Stage(x, b, k), b, k) == Times(2.0, x)
  {
    hide Stage, Flip, BitSet, Pow2;
    StageLength(x, b, k);
    var y := Stage(x, b, k);
    StageLength(y, b, k);
    forall i | 0 <= i < |x| ensures Stage(y, b, k)[i] == 2.0 * x[i] {
      FlipTwice(i, b);
      StageDef(y, b, k, i);
      StageDef(x, b, k, i);
      StageDef(x, b, k, Flip(i, b));
    }
  }

  lemma StageLength(x: seq<real>, b: nat, k: nat)
    requires b < k && |x| == Pow2(k)
    ensures |Stage(x, b, k)| == |x|
  {}

  lemma StagesCommute(x: seq<real>, b: nat, c: nat, k: nat)
    requires b < k && c < k && b != c && |x| == Pow2(k)
    ensures Stage(Stage(x, b, k), c, k) == Stage(Stage(x, c, k), b, k)
  {
    hide Stage, Flip, BitSet, Pow2;
    StageLength(x, b, k); StageLength(x, c, k);
    var y, z := Stage(x, b, k), Stage(x, c, k);
    StageLength(y, c, k); StageLength(z, b, k);
    forall i | 0 <= i < |x| ensures Stage(y, c, k)[i] == Stage(z, b, k)[i] {
      FlipsCommute(i, b, c);
      FlipElsewhere(i, b, c); FlipElsewhere(i, c, b);
      StageDef(y, c, k, i); StageDef(z, b, k, i);
      StageDef(x, b, k, i); StageDef(x, c, k, i);
      StageDef(x, b, k, Flip(i, c)); StageDef(x, c, k, Flip(i, b));
    }
  }

  /** A later stage passes through the first `n` stages. */
  lemma {:induction false} StagePasses(x: seq<real>, n: nat, b: nat, k: nat)
    requires n <= b < k && |x| == Pow2(k)
    ensures Network(Stage(x, b, k), n, k) == Stage(Network(x, n, k), b, k)
  {
    hide Stage, Pow2;
    StageLength(x, b, k);
    if n > 0 {
      StagePasses(x, n - 1, b, k);
      StagesCommute(Network(x, n - 1, k), n - 1, b, k);
    }
  }

  lemma TimesTwice(c: real, x: seq<real>)
    ensures Times(2.0, Times(c, x)) == Times(2.0 * c, x)
  {
    forall i | 0 <= i < |x| ensures 2.0 * (c * x[i]) == (2.0 * c) * x[i] {}
  }

  /** Running n stages twice returns 2^n times the input. */
  lemma {:induction false} NetworkTwice(x: seq<real>, n: nat, k: nat)
    requires n <= k && |x| == Pow2(k)
    ensures Network(Network(x, n, k), n, k) == Times(Pow2(n) as real, x)
  {
    if n > 0 {
      NetworkTwice(x, n - 1, k);
      OuterStage(x, n, k);
    } else {
      assert Times(1.0, x) == x;
    }
  }

  lemma LastStage(x: seq<real>, n: nat, k: nat)
    requires 0 < n <= k && |x| == Pow2(k)
    ensures Network(x, n, k) == Stage(Network(x, n - 1, k), n - 1, k)
  {}

  lemma DoubledTwice(n: nat)
    requires n > 0
    ensures Pow2(n) as real == 2.0 * (Pow2(n - 1) as real)
  {}

  lemma OuterStage(x: seq<real>, n: nat, k: nat)
    requires 0 < n <= k && |x| == Pow2(k)
    requires Network(Network(x, n - 1, k), n - 1, k) == Times(Pow2(n - 1) as real, x)
    ensures Network(Network(x, n, k), n, k) == Times(Pow2(n) as real, x)
  {
    hide *;
    var y := Network(x, n - 1, k);
    var c := Pow2(n - 1) as real;
    DoubledTwice(n);
    LastStage(x, n, k);
    LastStage(Network(x, n, k), n, k);
    StagePasses(y, n - 1, n - 1, k);
    LengthOfTimes(c, x);
    StageTwice(Times(c, x), n - 1, k);
    TimesTwice(c, x);
  }

  lemma LengthOfTimes(c: real, x: seq<real>)
    ensures |Times(c, x)| == |x|
  {}
}
