/** The H128 rotation kernel: per-slab butterflies over 32 lanes of four values, and the slab launch. */
module Rotations {
  import opened Arith
  import opened Bits
  import opened Hadamard

  const SCALE: real := 0.088388347648
  const LANES: nat := 32
  const SLAB: nat := 128

  type Lanes = h: seq<real> | |h| == 32 witness seq(32, _ => 0.0)

  /** Four lane vectors side by side: element 4 * lane + component. */
  function Flat(h0: Lanes, h1: Lanes, h2: Lanes, h3: Lanes): (r: seq<real>)
    ensures |r| == SLAB
  {
    seq(SLAB, i requires 0 <= i < SLAB =>
      if i % 4 == 0 then h0[i / 4] else if i % 4 == 1 then h1[i / 4] else if i % 4 == 2 then h2[i / 4] else h3[i / 4])
  }

  /** One of the four component vectors. */
  function Pick(h0: Lanes, h1: Lanes, h2: Lanes, h3: Lanes, c: nat): Lanes {
    if c == 0 then h0 else if c == 1 then h1 else if c == 2 then h2 else h3
  }

  lemma FlatAt(h0: Lanes, h1: Lanes, h2: Lanes, h3: Lanes, l: nat, c: nat)
    requires l < LANES && c < 4
    ensures Flat(h0, h1, h2, h3)[4 * l + c] == Pick(h0, h1, h2, h3, c)[l]
  {
    assert (4 * l + c) / 4 == l && (4 * l + c) % 4 == c;
  }

  /** The component vector of a slab. */
  function Component(v: seq<real>, c: nat): (r: Lanes)
    requires |v| == SLAB && c < 4
    ensures forall l :: 0 <= l < LANES ==> r[l] == v[4 * l + c]
  {
    seq(LANES, l requires 0 <= l < LANES => v[4 * l + c])
  }

  /** The lane at distance 2^step. */
  function Partner(l: nat, step: nat): (r: nat)
    requires l < LANES && step < 5
    ensures r < LANES
  {
    PartnerInside(l, step);
    Xor(l, Pow2(step))
  }

  lemma PartnerInside(l: nat, step: nat)
    requires l < LANES && step < 5
    ensures Xor(l, Pow2(step)) < LANES
  {
    assert Pow2(5) == 32;
    XorIsFlip(l, step);
    FlipInside(l, step, 5);
  }

  /** Every lane adds its partner at `distance`, after negating itself if it is the upper one. */
  function Exchange(h: Lanes, step: nat): (r: Lanes)
    requires step < 5
  {
    seq(LANES, l requires 0 <= l < LANES =>
      (if And(l, Pow2(step)) != 0 then -h[l] else h[l]) + h[Partner(l, step)])
  }

  /** Bits of 4 * lane + component above the lowest two are the bits of the lane. */
  lemma LaneBits(l: nat, c: nat, step: nat)
    requires c < 4
    ensures BitSet(4 * l + c, step + 2) == BitSet(l, step)
    ensures Flip(4 * l + c, step + 2) == 4 * Flip(l, step) + c
  {
    var i := 4 * l + c;
    assert i / 2 / 2 == l && i / 2 % 2 == c / 2 && i % 2 == c % 2;
    assert BitSet(i, step + 2) == BitSet(i / 2, step + 1) == BitSet(i / 2 / 2, step);
    assert Flip(i / 2, step + 1) == 2 * Flip(l, step) + c / 2;
    assert Flip(i, step + 2) == 2 * Flip(i / 2, step + 1) + c % 2;
  }

  lemma SlabIs128()
    ensures Pow2(7) == SLAB
  {
    assert Pow2(4) == 16;
  }

  lemma ExchangeAt(h: Lanes, step: nat, l: nat)
    requires step < 5 && l < LANES
    ensures Flip(l, step) < LANES
    ensures Exchange(h, step)[l] == (if BitSet(l, step) then -h[l] else h[l]) + h[Flip(l, step)]
  {
    PartnerInside(l, step);
    XorIsFlip(l, step);
    AndIsBit(l, step);
  }

  /** Exchanging all four components at lane distance 2^step is network stage step + 2. */
  lemma ExchangeIsStage(h0: Lanes, h1: Lanes, h2: Lanes, h3: Lanes, step: nat)
    requires step < 5
    ensures Pow2(7) == SLAB
    ensures Flat(Exchange(h0, step), Exchange(h1, step), Exchange(h2, step), Exchange(h3, step))
         == Stage(Flat(h0, h1, h2, h3), step + 2, 7)
  {
    SlabIs128();
    hide Stage, Exchange, Flat, Pow2, Flip, BitSet;
    FlatLength(h0, h1, h2, h3);
    FlatLength(Exchange(h0, step), Exchange(h1, step), Exchange(h2, step), Exchange(h3, step));
    StageLength(Flat(h0, h1, h2, h3), step + 2, 7);
    var left := Flat(Exchange(h0, step), Exchange(h1, step), Exchange(h2, step), Exchange(h3, step));
    var right := Stage(Flat(h0, h1, h2, h3), step + 2, 7);
    forall i | 0 <= i < SLAB ensures left[i] == right[i] {
      ExchangeElement(h0, h1, h2, h3, step, i / 4, i % 4);
    }
  }

  lemma FlatLength(h0: Lanes, h1: Lanes, h2: Lanes, h3: Lanes)
    ensures |Flat(h0, h1, h2, h3)| == SLAB
  {}

  lemma ExchangeElement(h0: Lanes, h1: Lanes, h2: Lanes, h3: Lanes, step: nat, l: nat, c: nat)
    requires step < 5 && l < LANES && c < 4
    ensures Pow2(7) == SLAB
    ensures Flat(Exchange(h0, step), Exchange(h1, step), Exchange(h2, step), Exchange(h3, step))[4 * l + c]
         == Stage(Flat(h0, h1, h2, h3), step + 2, 7)[4 * l + c]
  {
    SlabIs128();
    hide Stage, Exchange, Pow2, Flip, BitSet, Flat;
    FlatLength(h0, h1, h2, h3);
    FlatLength(Exchange(h0, step), Exchange(h1, step), Exchange(h2, step), Exchange(h3, step));
    StageLength(Flat(h0, h1, h2, h3), step + 2, 7);
    StageDef(Flat(h0, h1, h2, h3), step + 2, 7, 4 * l + c);
    LaneBits(l, c, step);
    PickExchange(h0, h1, h2, h3, step, c);
    ExchangeAt(Pick(h0, h1, h2, h3, c), step, l);
    FlatAt(h0, h1, h2, h3, l, c);
    FlatAt(h0, h1, h2, h3, Flip(l, step), c);
    FlatAt(Exchange(h0, step), Exchange(h1, step), Exchange(h2, step), Exchange(h3, step), l, c);
  }

  lemma PickExchange(h0: Lanes, h1: Lanes, h2: Lanes, h3: Lanes, step: nat, c: nat)
    requires step < 5
    ensures Pick(Exchange(h0, step), Exchange(h1, step), Exchange(h2, step), Exchange(h3, step), c)
         == Exchange(Pick(h0, h1, h2, h3, c), step)
  {}

  // ---------- the 4-point stage ----------

  lemma StageZero(v: seq<real>, l: nat)
    requires |v| == SLAB && l < LANES
    ensures Pow2(7) == SLAB && |Network(v, 1, 7)| == SLAB
    ensures var w := Network(v, 1, 7);
      && w[4 * l] == v[4 * l] + v[4 * l + 1] && w[4 * l + 1] == v[4 * l] - v[4 * l + 1]
      && w[4 * l + 2] == v[4 * l + 2] + v[4 * l + 3] && w[4 * l + 3] == v[4 * l + 2] - v[4 * l + 3]
  {
    SlabIs128();
    LaneAligned(l);
    assert Pow2(0) == 1;
    NetworkLength(v, 1);
    assert Network(v, 1, 7) == Stage(v, 0, 7);
    hide *;
    StageLow(v, 0, 7, 4 * l, 0); StageHigh(v, 0, 7, 4 * l, 0);
    StageLow(v, 0, 7, 4 * l + 2, 0); StageHigh(v, 0, 7, 4 * l + 2, 0);
  }

  lemma StageOne(v: seq<real>, l: nat, c: nat)
    requires |v| == SLAB && l < LANES && c < 2
    ensures Pow2(7) == SLAB && |Network(v, 1, 7)| == |Network(v, 2, 7)| == SLAB
    ensures Network(v, 2, 7)[4 * l + c] == Network(v, 1, 7)[4 * l + c] + Network(v, 1, 7)[4 * l + 2 + c]
    ensures Network(v, 2, 7)[4 * l + 2 + c] == Network(v, 1, 7)[4 * l + c] - Network(v, 1, 7)[4 * l + 2 + c]
  {
    LaneAligned(l);
    assert Pow2(1) == 2;
    NetworkLength(v, 1); NetworkLength(v, 2);
    var w := Network(v, 1, 7);
    assert Network(v, 2, 7) == Stage(w, 1, 7);
    hide *;
    StageLow(w, 1, 7, 4 * l, c);
    StageHigh(w, 1, 7, 4 * l, c);
  }

  lemma LaneAligned(l: nat)
    ensures Aligned(4 * l, 2) && Aligned(4 * l, 1) && Aligned(4 * l + 2, 1)
  {}

  lemma NetworkLength(v: seq<real>, n: nat)
    requires |v| == SLAB && n <= 7
    ensures Pow2(7) == SLAB && |Network(v, n, 7)| == SLAB
  {
    SlabIs128();
  }

  function LanePlus(a: Lanes, b: Lanes): (r: Lanes)
    ensures forall l :: 0 <= l < LANES ==> r[l] == a[l] + b[l]
  {
    seq(LANES, l requires 0 <= l < LANES => a[l] + b[l])
  }

  function LaneMinus(a: Lanes, b: Lanes): (r: Lanes)
    ensures forall l :: 0 <= l < LANES ==> r[l] == a[l] - b[l]
  {
    seq(LANES, l requires 0 <= l < LANES => a[l] - b[l])
  }

  /** The additions made inside a lane. */
  predicate FourPoint(v: seq<real>, h0: Lanes, h1: Lanes, h2: Lanes, h3: Lanes)
    requires |v| == SLAB
  {
    var a0, a1 := LanePlus(Component(v, 0), Component(v, 1)), LaneMinus(Component(v, 0), Component(v, 1));
    var a2, a3 := LanePlus(Component(v, 2), Component(v, 3)), LaneMinus(Component(v, 2), Component(v, 3));
    h0 == LanePlus(a0, a2) && h1 == LanePlus(a1, a3) && h2 == LaneMinus(a0, a2) && h3 == LaneMinus(a1, a3)
  }

  lemma FourPointLane(v: seq<real>, h0: Lanes, h1: Lanes, h2: Lanes, h3: Lanes, l: nat)
    requires |v| == SLAB && FourPoint(v, h0, h1, h2, h3) && l < LANES
    ensures h0[l] == (v[4 * l] + v[4 * l + 1]) + (v[4 * l + 2] + v[4 * l + 3])
    ensures h1[l] == (v[4 * l] - v[4 * l + 1]) + (v[4 * l + 2] - v[4 * l + 3])
    ensures h2[l] == (v[4 * l] + v[4 * l + 1]) - (v[4 * l + 2] + v[4 * l + 3])
    ensures h3[l] == (v[4 * l] - v[4 * l + 1]) - (v[4 * l + 2] - v[4 * l + 3])
  {}

  lemma FourPointElement(v: seq<real>, h0: Lanes, h1: Lanes, h2: Lanes, h3: Lanes, l: nat, c: nat)
    requires |v| == SLAB && FourPoint(v, h0, h1, h2, h3) && l < LANES && c < 4
    ensures Pow2(7) == SLAB && |Network(v, 2, 7)| == SLAB
    ensures Network(v, 2, 7)[4 * l + c] == Pick(h0, h1, h2, h3, c)[l]
  {
    hide Network, FourPoint, Pow2;
    StageZero(v, l);
    StageOne(v, l, c % 2);
    FourPointLane(v, h0, h1, h2, h3, l);
  }

  /** The 4-point stage is stages 0 and 1 of the network. */
  lemma FourPointIsNetwork(v: seq<real>, h0: Lanes, h1: Lanes, h2: Lanes, h3: Lanes)
    requires |v| == SLAB && FourPoint(v, h0, h1, h2, h3)
    ensures Pow2(7) == SLAB && Flat(h0, h1, h2, h3) == Network(v, 2, 7)
  {
    NetworkLength(v, 2);
    FlatLength(h0, h1, h2, h3);
    hide Network, Flat, Pow2, FourPoint;
    forall i | 0 <= i < SLAB ensures Flat(h0, h1, h2, h3)[i] == Network(v, 2, 7)[i] {
      var l, c := i / 4, i % 4;
      FourPointElement(v, h0, h1, h2, h3, l, c);
      FlatAt(h0, h1, h2, h3, l, c);
    }
  }

  // ---------- one slab ----------

  function Scaled(v: seq<real>, s: seq<real>): (r: seq<real>)
    requires |v| == |s|
    ensures |r| == |v| && forall i :: 0 <= i < |v| ==> r[i] == v[i] * s[i]
  {
    seq(|v|, i requires 0 <= i < |v| => v[i] * s[i])
  }

  /** Entry `i` of a rotated slab: the Hadamard product, with the channel scales before or after it. */
  function Rotated(v: seq<real>, s: seq<real>, pre: bool, i: nat): real
    requires |v| == |s| == SLAB && i < SLAB
  {
    if pre then Product(Scaled(v, s), i) * SCALE else Product(v, i) * SCALE * s[i]
  }

  /** The whole rotated slab. */
  function Rotation(v: seq<real>, s: seq<real>, pre: bool): (r: seq<real>)
    requires |v| == |s| == SLAB
    ensures |r| == SLAB && forall i :: 0 <= i < SLAB ==> r[i] == Rotated(v, s, pre, i)
  {
    seq(SLAB, i requires 0 <= i < SLAB => Rotated(v, s, pre, i))
  }

  function Ones(): (r: seq<real>)
    ensures |r| == SLAB && forall i :: 0 <= i < SLAB ==> r[i] == 1.0
  {
    seq(SLAB, _ => 1.0)
  }

  // ---------- on which side the scales act, and by how much ----------

  /** With PRE the scales act first: rotating under them is rotating the scaled slab without. */
  lemma ScalesActFirst(v: seq<real>, s: seq<real>)
    requires |v| == |s| == SLAB
    ensures Rotation(v, s, true) == Rotation(Scaled(v, s), Ones(), true) == Rotation(Scaled(v, s), Ones(), false)
  {
    assert Scaled(Scaled(v, s), Ones()) == Scaled(v, s);
  }

  /** Without PRE they act last, entry by entry. */
  lemma ScalesActLast(v: seq<real>, s: seq<real>)
    requires |v| == |s| == SLAB
    ensures Rotation(v, s, false) == Scaled(Rotation(v, Ones(), false), s)
  {
    hide Product;
    var left, right := Rotation(v, s, false), Scaled(Rotation(v, Ones(), false), s);
    forall i | 0 <= i < SLAB ensures left[i] == right[i] {
      assert Rotated(v, Ones(), false, i) == Product(v, i) * SCALE;
    }
  }

  /** Without scales entry `i` is the constant times the signed sum of the slab. */
  lemma UnscaledIsSignedSum(v: seq<real>, pre: bool, i: nat)
    requires |v| == SLAB && i < SLAB
    ensures Rotation(v, Ones(), pre)[i] == SCALE * Dot(i, v, 0, SLAB)
  {
    assert Scaled(v, Ones()) == v;
  }

  function Mul(c: real, d: real): real { c * d }

  predicate IsTimes(c: real, x: seq<real>, y: seq<real>) {
    |x| == |y| && forall i :: 0 <= i < |x| ==> y[i] == Mul(c, x[i])
  }

  /** The signed sum is linear. */
  lemma {:induction false} DotTimes(c: real, i: nat, x: seq<real>, y: seq<real>, n: nat)
    requires IsTimes(c, x, y) && n <= |x| == |y|
    ensures Dot(i, y, 0, n) == Mul(c, Dot(i, x, 0, n))
  {
    if n > 0 {
      hide Mul, Signed;
      DotTimes(c, i, x, y, n - 1);
      var e := Signed(i, n - 1, x[n - 1]);
      MulSigned(c, i, n - 1, x[n - 1]);
      MulSum(c, Dot(i, x, 0, n - 1), e);
    }
  }

  lemma MulSigned(c: real, i: nat, j: nat, v: real)
    ensures Signed(i, j, Mul(c, v)) == Mul(c, Signed(i, j, v))
  {}

  lemma MulSum(c: real, d: real, e: real)
    ensures Mul(c, d + e) == Mul(c, d) + Mul(c, e)
  {}

  /** The rotation without scales, as the network. */
  lemma UnscaledIsNetwork(v: seq<real>)
    requires |v| == SLAB
    ensures Pow2(7) == SLAB && |Network(v, 7, 7)| == SLAB
    ensures Rotation(v, Ones(), false) == Times(SCALE, Network(v, 7, 7))
  {
    NetworkLength(v, 7);
    hide Network, Pow2, Dot, Rotation;
    var left, right := Rotation(v, Ones(), false), Times(SCALE, Network(v, 7, 7));
    forall i | 0 <= i < SLAB ensures left[i] == right[i] {
      NetworkIsProduct(v, 7, i);
      UnscaledIsSignedSum(v, false, i);
    }
  }

  lemma UnscaledTwiceAt(v: seq<real>, i: nat)
    requires |v| == SLAB && i < SLAB
    ensures Rotation(Rotation(v, Ones(), false), Ones(), false)[i] == 128.0 * SCALE * SCALE * v[i]
  {
    hide Network, Dot, Rotation, Rotated;
    UnscaledIsNetwork(v);
    var once, w := Rotation(v, Ones(), false), Network(v, 7, 7);
    UnscaledIsSignedSum(once, false, i);
    assert IsTimes(SCALE, w, once);
    DotTimes(SCALE, i, w, once, SLAB);
    NetworkIsProduct(w, 7, i);
    NetworkTwice(v, 7, 7);
    assert Dot(i, w, 0, SLAB) == 128.0 * v[i];
  }

  /** Rotating twice without scales returns the slab times a factor within 10^-10 of one. */
  lemma RotatedTwice(v: seq<real>)
    requires |v| == SLAB
    ensures var c := 128.0 * SCALE * SCALE;
      && Rotation(Rotation(v, Ones(), false), Ones(), false) == Times(c, v)
      && -0.0000000001 < c - 1.0 < 0.0000000001
  {
    hide Rotation, Rotated;
    var twice := Rotation(Rotation(v, Ones(), false), Ones(), false);
    forall i | 0 <= i < SLAB ensures twice[i] == 128.0 * SCALE * SCALE * v[i] {
      UnscaledTwiceAt(v, i);
    }
  }

  /** The kernel body for one slab. */
  method RotateSlab(v: seq<real>, s: seq<real>, pre: bool) returns (y: seq<real>)
    requires |v| == |s| == SLAB
    ensures y == Rotation(v, s, pre)
  {
    hide Network, Stage, Flat, Exchange, Pow2, Product;
    var x := if pre then Scaled(v, s) else v;
    var v0, v1, v2, v3 := Component(x, 0), Component(x, 1), Component(x, 2), Component(x, 3);
    var a0, a1, a2, a3 := LanePlus(v0, v1), LaneMinus(v0, v1), LanePlus(v2, v3), LaneMinus(v2, v3);
    var h0, h1, h2, h3 := LanePlus(a0, a2), LanePlus(a1, a3), LaneMinus(a0, a2), LaneMinus(a1, a3);
    FourPointIsNetwork(x, h0, h1, h2, h3);
    var step := 0;
    while step < 5
      invariant step <= 5 && Pow2(7) == SLAB
      invariant Flat(h0, h1, h2, h3) == Network(x, step + 2, 7)
    {
      ExchangeIsStage(h0, h1, h2, h3, step);
      NextStage(x, step + 2);
      h0, h1, h2, h3 := Exchange(h0, step), Exchange(h1, step), Exchange(h2, step), Exchange(h3, step);
      step := step + 1;
    }
    var f := Flat(h0, h1, h2, h3);
    FlatLength(h0, h1, h2, h3);
    forall i | 0 <= i < SLAB ensures f[i] == Product(x, i) {
      NetworkIsProduct(x, 7, i);
    }
    y := seq(SLAB, i requires 0 <= i < SLAB => if pre then f[i] * SCALE else f[i] * SCALE * s[i]);
    assert forall i :: 0 <= i < SLAB ==> y[i] == Rotation(v, s, pre)[i];
  }

  lemma NextStage(x: seq<real>, n: nat)
    requires |x| == SLAB && n < 7 && Pow2(7) == SLAB
    ensures |Network(x, n, 7)| == SLAB && Network(x, n + 1, 7) == Stage(Network(x, n, 7), n, 7)
  {}

  // ---------- the launch ----------

  /** Slabs per program: four for large matrices, else one. */
  function LaunchSlabs(total: nat, sms: nat): (r: nat)
    ensures r == 4 || r == 1
  {
    if total >= 4 * sms then 4 else 1
  }

  /** The slab of a buffer. */
  function SlabOf(x: seq<real>, slab: nat): (r: seq<real>)
    requires (slab + 1) * SLAB <= |x|
    ensures |r| == SLAB
  {
    x[slab * SLAB..(slab + 1) * SLAB]
  }

  method StoreSlab(y: array<real>, slab: nat, row: seq<real>)
    requires (slab + 1) * SLAB <= y.Length && |row| == SLAB
    modifies y
    ensures forall i :: 0 <= i < SLAB ==> y[slab * SLAB + i] == row[i]
    ensures forall j :: 0 <= j < y.Length && !(slab * SLAB <= j < (slab + 1) * SLAB) ==> y[j] == old(y[j])
  {
    forall i | 0 <= i < SLAB {
      y[slab * SLAB + i] := row[i];
    }
  }

  /** Slab `slab` of the output is the rotation of the same slab of the input. */
  ghost predicate SlabRotated(x: seq<real>, s: seq<real>, pre: bool, y: seq<real>, slab: nat)
    requires |s| > 0 && |s| % SLAB == 0 && (slab + 1) * SLAB <= |x| == |y|
  {
    ScaleFits(|s|, slab);
    forall i :: 0 <= i < SLAB ==>
      SlabOf(y, slab)[i] == Rotated(SlabOf(x, slab), SlabOf(s, slab % (|s| / SLAB)), pre, i)
  }

  lemma ScaleFits(cols: nat, slab: nat)
    requires cols > 0 && cols % SLAB == 0
    ensures cols / SLAB > 0 && (slab % (cols / SLAB) + 1) * SLAB <= cols
  {}

  /** In a matrix with rows of |s| columns every element is scaled by its own column. */
  lemma ScaleIsColumns(s: seq<real>, slab: nat, i: nat)
    requires |s| > 0 && |s| % SLAB == 0 && i < SLAB
    ensures 0 < |s| / SLAB && (slab % (|s| / SLAB) + 1) * SLAB <= |s|
    ensures SlabOf(s, slab % (|s| / SLAB))[i] == s[(slab * SLAB + i) % |s|]
  {
    ScaleFits(|s|, slab);
    var n := |s| / SLAB;
    DivNat(slab, n);
    var q, m := slab / n, slab % n;
    assert slab == n * q + m && |s| == n * SLAB;
    assert slab * SLAB + i == |s| * q + (m * SLAB + i);
    DivIs(slab * SLAB + i, |s|, q, m * SLAB + i);
  }

  /** One slab of the kernel. */
  method RotateOne(x: array<real>, s: seq<real>, y: array<real>, pre: bool, slab: nat)
    requires |s| > 0 && |s| % SLAB == 0 && x.Length == y.Length && (slab + 1) * SLAB <= x.Length
    modifies y
    ensures SlabRotated(old(x[..]), s, pre, y[..], slab)
    ensures forall j :: 0 <= j < y.Length && !(slab * SLAB <= j < (slab + 1) * SLAB) ==> y[j] == old(y[j])
  {
    ScaleFits(|s|, slab);
    var row := RotateSlab(x[slab * SLAB..(slab + 1) * SLAB], SlabOf(s, slab % (|s| / SLAB)), pre);
    assert x[slab * SLAB..(slab + 1) * SLAB] == SlabOf(x[..], slab);
    StoreSlab(y, slab, row);
    assert SlabOf(y[..], slab) == row;
  }

  /** Writing one slab leaves the rotated slabs before it as they are. */
  lemma RotatedKept(x: seq<real>, s: seq<real>, pre: bool, y: seq<real>, z: seq<real>, slab: nat, q: nat)
    requires |s| > 0 && |s| % SLAB == 0 && q < slab && (slab + 1) * SLAB <= |x| == |y| == |z|
    requires SlabRotated(x, s, pre, y, q)
    requires forall j :: 0 <= j < |y| && !(slab * SLAB <= j < (slab + 1) * SLAB) ==> z[j] == y[j]
    ensures SlabRotated(x, s, pre, z, q)
  {
    assert SlabOf(z, q) == SlabOf(y, q);
  }

  /** The first `n` slabs are rotated and the rest of the input is untouched. */
  ghost predicate Progress(x0: seq<real>, s: seq<real>, pre: bool, x: seq<real>, y: seq<real>, n: nat)
    requires |s| > 0 && |s| % SLAB == 0 && |x0| == |x| == |y|
  {
    && (forall slab: nat :: slab < n && (slab + 1) * SLAB <= |x| ==> SlabRotated(x0, s, pre, y, slab))
    && (forall j :: 0 <= n * SLAB <= j < |x| ==> x[j] == x0[j])
  }

  /** The next slab in line, if there is one. */
  method RotateNext(x: array<real>, s: seq<real>, y: array<real>, pre: bool, slab: nat, ghost x0: seq<real>)
    requires |s| > 0 && |s| % SLAB == 0 && x.Length == y.Length == |x0| && x.Length % SLAB == 0
    requires Progress(x0, s, pre, x[..], y[..], slab)
    modifies y
    ensures Progress(x0, s, pre, x[..], y[..], slab + 1)
  {
    if (slab + 1) * SLAB <= x.Length {
      hide SlabRotated;
      ghost var before := y[..];
      assert SlabOf(x[..], slab) == SlabOf(x0, slab);
      RotateOne(x, s, y, pre, slab);
      SameSlabRotated(old(x[..]), x0, s, pre, y[..], slab);
      forall q: nat | q < slab + 1 && (q + 1) * SLAB <= x.Length ensures SlabRotated(x0, s, pre, y[..], q) {
        if q < slab {
          RotatedKept(x0, s, pre, before, y[..], slab, q);
        }
      }
    }
  }

  lemma SameSlabRotated(x: seq<real>, x0: seq<real>, s: seq<real>, pre: bool, y: seq<real>, slab: nat)
    requires |s| > 0 && |s| % SLAB == 0 && (slab + 1) * SLAB <= |x| == |y| == |x0|
    requires SlabOf(x, slab) == SlabOf(x0, slab) && SlabRotated(x, s, pre, y, slab)
    ensures SlabRotated(x0, s, pre, y, slab)
  {}

  /**
   * The launch covers every slab exactly once, whatever the multiprocessor count; input and output
   * may be the same buffer.
   */
  method Rotate(x: array<real>, s: seq<real>, y: array<real>, pre: bool, sms: nat)
    requires |s| > 0 && |s| % SLAB == 0 && x.Length == y.Length && x.Length % SLAB == 0
    modifies y
    ensures forall slab: nat :: (slab + 1) * SLAB <= x.Length ==> SlabRotated(old(x[..]), s, pre, y[..], slab)
  {
    ghost var x0 := x[..];
    var total := x.Length / SLAB;
    var slabs := LaunchSlabs(total, sms);
    var programs := (total + slabs - 1) / slabs;
    Covers(total, slabs);
    hide Progress, SlabRotated;
    NothingYet(x0, s, pre, y[..]);
    var pid, next := 0, 0;
    while pid < programs
      invariant pid <= programs && next == pid * slabs
      invariant Progress(x0, s, pre, x[..], y[..], next)
    {
      var lane := 0;
      while lane < slabs
        invariant lane <= slabs && next == pid * slabs + lane
        invariant Progress(x0, s, pre, x[..], y[..], next)
      {
        RotateNext(x, s, y, pre, next, x0);
        lane, next := lane + 1, next + 1;
      }
      pid := pid + 1;
    }
    AllDone(x0, s, pre, x[..], y[..], next);
  }

  lemma Covers(total: nat, slabs: nat)
    requires slabs == 1 || slabs == 4
    ensures (total + slabs - 1) / slabs * slabs >= total
  {}

  lemma NothingYet(x0: seq<real>, s: seq<real>, pre: bool, y: seq<real>)
    requires |s| > 0 && |s| % SLAB == 0 && |x0| == |y|
    ensures Progress(x0, s, pre, x0, y, 0)
  {}

  lemma AllDone(x0: seq<real>, s: seq<real>, pre: bool, x: seq<real>, y: seq<real>, n: nat)
    requires |s| > 0 && |s| % SLAB == 0 && |x0| == |x| == |y| && Progress(x0, s, pre, x, y, n) && n * SLAB >= |x|
    ensures forall slab: nat :: (slab + 1) * SLAB <= |x| ==> SlabRotated(x0, s, pre, y, slab)
  {}
}
