/** The split-vocabulary argmax: blocks, then a shard, then the ranks. */
module Argmax {
  import opened Arith
  import opened Common

  const INT_MAX: nat := 2147483647
  const EMPTY: nat := 2147483648
  const EXACT: nat := 16777216

  /** Logits, with the three values that are not finite. */
  datatype Logit = NaN | NegInf | Finite(r: real) | PosInf

  // ---------- the order and the flat specification ----------

  /** `a` does not beat `b`: numerical order, with NaN above everything. */
  predicate AtMost(a: Logit, b: Logit) {
    match (a, b)
    case (_, NaN) => true
    case (NaN, _) => false
    case (NegInf, _) => true
    case (_, PosInf) => true
    case (Finite(x), Finite(y)) => x <= y
    case (_, _) => false
  }

  /** The framework's argmax: the first NaN if there is one, otherwise the first maximum. */
  ghost predicate FlatArgmax(v: seq<Logit>, p: nat) {
    && p < |v|
    && if exists k :: 0 <= k < |v| && v[k].NaN?
       then v[p].NaN? && forall k :: 0 <= k < p ==> !v[k].NaN?
       else (forall k :: 0 <= k < |v| ==> AtMost(v[k], v[p])) && forall k :: 0 <= k < p ==> v[k] != v[p]
  }

  /** In numbers: without a NaN it is the first of the greatest, infinities included. */
  lemma ArgmaxIsGreatest(v: seq<Logit>, p: nat, k: nat)
    requires FlatArgmax(v, p) && k < |v| && forall j :: 0 <= j < |v| ==> !v[j].NaN?
    ensures v[k].PosInf? ==> v[p].PosInf?
    ensures v[k].Finite? ==> v[p].PosInf? || (v[p].Finite? && v[k].r <= v[p].r)
    ensures k < p ==> v[k] != v[p] && !v[k].PosInf? && (v[k].Finite? && v[p].Finite? ==> v[k].r < v[p].r)
  {
    assert AtMost(v[k], v[p]);
  }

  /** Nothing selected beats position `p`, and nothing selected before it ties. */
  ghost predicate Best(v: seq<Logit>, sel: seq<bool>, p: nat)
    requires |sel| == |v|
  {
    && p < |v| && sel[p]
    && forall k :: 0 <= k < |v| && sel[k] ==> AtMost(v[k], v[p]) && (k < p ==> !AtMost(v[p], v[k]))
  }

  function AllTrue(n: nat): (r: seq<bool>)
    ensures |r| == n && forall k :: 0 <= k < n ==> r[k]
  {
    seq(n, _ => true)
  }

  /** Best over everything is the framework's argmax. */
  lemma BestIsFlat(v: seq<Logit>, p: nat)
    requires Best(v, AllTrue(|v|), p)
    ensures FlatArgmax(v, p)
  {
    if exists k :: 0 <= k < |v| && v[k].NaN? {
      var k :| 0 <= k < |v| && v[k].NaN?;
      assert AtMost(v[k], v[p]);
    }
  }

  /** There is only one argmax. */
  lemma FlatIsUnique(v: seq<Logit>, p: nat, q: nat)
    requires FlatArgmax(v, p) && FlatArgmax(v, q)
    ensures p == q
  {}

  // ---------- one reduction ----------

  /** tl.min of the selected indices, INT_MAX elsewhere. */
  function MinIndex(indices: seq<nat>, sel: seq<bool>): nat
    requires |sel| == |indices|
  {
    if indices == [] then INT_MAX
    else
      var rest := MinIndex(indices[1..], sel[1..]);
      if sel[0] && indices[0] < rest then indices[0] else rest
  }

  /** tl.max of the selected values, -inf elsewhere. */
  function MaxValue(v: seq<Logit>, sel: seq<bool>): Logit
    requires |sel| == |v|
  {
    if v == [] then NegInf
    else
      var rest := MaxValue(v[1..], sel[1..]);
      if sel[0] && AtMost(rest, v[0]) then v[0] else rest
  }

  /** The lanes that are valid and NaN. */
  function NanLanes(v: seq<Logit>, valid: seq<bool>): (r: seq<bool>)
    requires |valid| == |v|
    ensures |r| == |v| && forall k :: 0 <= k < |v| ==> r[k] == (valid[k] && v[k].NaN?)
  {
    seq(|v|, k requires 0 <= k < |v| => valid[k] && v[k].NaN?)
  }

  /** The lanes that are valid and not NaN. */
  function NumberLanes(v: seq<Logit>, valid: seq<bool>): (r: seq<bool>)
    requires |valid| == |v|
    ensures |r| == |v| && forall k :: 0 <= k < |v| ==> r[k] == (valid[k] && !v[k].NaN?)
  {
    seq(|v|, k requires 0 <= k < |v| => valid[k] && !v[k].NaN?)
  }

  /** The lanes that are valid and equal to `m`; a NaN equals nothing. */
  function EqualLanes(v: seq<Logit>, valid: seq<bool>, m: Logit): (r: seq<bool>)
    requires |valid| == |v|
    ensures |r| == |v| && forall k :: 0 <= k < |v| ==> r[k] == (valid[k] && !v[k].NaN? && v[k] == m)
  {
    seq(|v|, k requires 0 <= k < |v| => valid[k] && !v[k].NaN? && v[k] == m)
  }

  /** The value and index a reduction keeps. */
  function Winner(v: seq<Logit>, indices: seq<nat>, valid: seq<bool>): (Logit, nat)
    requires |v| == |indices| == |valid|
  {
    var firstNan := MinIndex(indices, NanLanes(v, valid));
    var maximum := MaxValue(v, NumberLanes(v, valid));
    var firstMax := MinIndex(indices, EqualLanes(v, valid, maximum));
    if firstNan != INT_MAX then (NaN, firstNan) else (maximum, firstMax)
  }

  ghost predicate Increasing(indices: seq<nat>, valid: seq<bool>)
    requires |valid| == |indices|
  {
    && (forall k :: 0 <= k < |indices| && valid[k] ==> indices[k] < INT_MAX)
    && (forall j, k :: 0 <= j < k < |indices| && valid[j] && valid[k] ==> indices[j] < indices[k])
  }

  ghost predicate Within(sel: seq<bool>, valid: seq<bool>) {
    |sel| == |valid| && forall k :: 0 <= k < |sel| && sel[k] ==> valid[k]
  }

  /** The minimum index is the first selected lane's, or INT_MAX if none is selected. */
  lemma {:induction false} MinIndexFirst(indices: seq<nat>, sel: seq<bool>, valid: seq<bool>) returns (p: nat)
    requires |valid| == |indices| && Increasing(indices, valid) && Within(sel, valid)
    ensures p <= |indices| && forall k :: 0 <= k < p ==> !sel[k]
    ensures if p == |indices| then MinIndex(indices, sel) == INT_MAX else sel[p] && MinIndex(indices, sel) == indices[p]
  {
    if indices == [] {
      p := 0;
    } else {
      p := MinIndexFirst(indices[1..], sel[1..], valid[1..]);
      if sel[0] {
        p := 0;
      } else {
        p := p + 1;
      }
    }
  }

  /** The maximum dominates every selected number and is the one at `p`, or is -inf if none is selected. */
  lemma {:induction false} MaxValueDominates(v: seq<Logit>, sel: seq<bool>) returns (p: nat)
    requires |sel| == |v| && forall k :: 0 <= k < |v| && sel[k] ==> !v[k].NaN?
    ensures forall k :: 0 <= k < |v| && sel[k] ==> AtMost(v[k], MaxValue(v, sel))
    ensures p <= |v| && if p == |v| then MaxValue(v, sel) == NegInf && forall k :: 0 <= k < |v| ==> !sel[k]
                        else sel[p] && v[p] == MaxValue(v, sel)
  {
    if v == [] {
      p := 0;
    } else {
      p := MaxValueDominates(v[1..], sel[1..]);
      assert forall k :: 1 <= k < |v| ==> v[k] == v[1..][k - 1] && sel[k] == sel[1..][k - 1];
      p := if sel[0] && AtMost(MaxValue(v[1..], sel[1..]), v[0]) then 0 else p + 1;
    }
  }

  /** A reduction over increasing indices finds the best valid lane; without valid lanes it reports -inf. */
  lemma WinnerIsBest(v: seq<Logit>, indices: seq<nat>, valid: seq<bool>) returns (p: nat)
    requires |v| == |indices| == |valid| && Increasing(indices, valid)
    ensures p <= |v|
    ensures p == |v| ==> Winner(v, indices, valid) == (NegInf, INT_MAX) && forall k :: 0 <= k < |v| ==> !valid[k]
    ensures p < |v| ==> Best(v, valid, p) && Winner(v, indices, valid) == (v[p], indices[p])
  {
    var nans, numbers := NanLanes(v, valid), NumberLanes(v, valid);
    p := MinIndexFirst(indices, nans, valid);
    if p == |v| {
      var top := MaxValueDominates(v, numbers);
      var m := MaxValue(v, numbers);
      p := MinIndexFirst(indices, EqualLanes(v, valid, m), valid);
      forall k | 0 <= k < |v| && valid[k] ensures numbers[k] {
        assert !nans[k];
      }
    }
  }

  // ---------- composing reductions over consecutive pieces ----------

  /**
   * A sequence cut into consecutive pieces, some perhaps empty: piece b covers [cuts[b], cuts[b + 1]).
   */
  ghost predicate Cut(n: nat, cuts: seq<nat>) {
    && |cuts| > 0 && cuts[0] == 0 && cuts[|cuts| - 1] == n
    && forall b, c :: 0 <= b <= c < |cuts| ==> cuts[b] <= cuts[c]
  }

  /** Piece `b` has a best position, recorded in `at`. */
  ghost predicate BestOfPiece(v: seq<Logit>, lo: nat, hi: nat, at: nat)
    requires hi <= |v|
  {
    && lo <= at < hi
    && forall k :: lo <= k < hi ==> AtMost(v[k], v[at]) && (k < at ==> !AtMost(v[at], v[k]))
  }

  /** The piece a position lies in. */
  lemma {:induction false} PieceOf(cuts: seq<nat>, n: nat, k: nat) returns (b: nat)
    requires Cut(n, cuts) && k < n
    ensures b + 1 < |cuts| && cuts[b] <= k < cuts[b + 1]
  {
    b := 0;
    while cuts[b + 1] <= k
      invariant b + 1 < |cuts| && cuts[b] <= k
      decreases |cuts| - b
    {
      b := b + 1;
    }
  }

  /** The best of the pieces' bests is the best of the whole. */
  lemma BestOfBests(v: seq<Logit>, cuts: seq<nat>, tops: seq<Logit>, at: seq<nat>, full: seq<bool>, b: nat)
    requires Cut(|v|, cuts) && |tops| == |at| == |full| == |cuts| - 1
    requires forall c :: 0 <= c < |full| && full[c] ==>
      BestOfPiece(v, cuts[c], cuts[c + 1], at[c]) && tops[c] == v[at[c]]
    requires forall c :: 0 <= c < |full| && !full[c] ==> cuts[c] == cuts[c + 1]
    requires Best(tops, full, b)
    ensures at[b] < |v| && Best(v, AllTrue(|v|), at[b])
  {
    assert BestOfPiece(v, cuts[b], cuts[b + 1], at[b]) && cuts[b + 1] <= cuts[|cuts| - 1];
    forall k | 0 <= k < |v| ensures AtMost(v[k], v[at[b]]) && (k < at[b] ==> !AtMost(v[at[b]], v[k])) {
      var c := PieceOf(cuts, |v|, k);
      assert full[c];
      assert BestOfPiece(v, cuts[c], cuts[c + 1], at[c]) && BestOfPiece(v, cuts[b], cuts[b + 1], at[b]);
    }
  }

  // ---------- token ids carried in single precision ----------

  /** Distance between neighbouring float32 values around the integer `n`. */
  function Ulp(n: nat): (u: nat)
    ensures u > 0
  {
    if n < EXACT then 1 else 2 * Ulp(n / 2)
  }

  /** Conversion of an integer to float32, rounding to nearest, ties to even. */
  function ToF32(n: nat): nat {
    var u := Ulp(n);
    var q, r := n / u, n % u;
    if 2 * r < u || (2 * r == u && q % 2 == 0) then q * u else (q + 1) * u
  }

  lemma ToF32Exact(n: nat)
    requires n < EXACT
    ensures ToF32(n) == n
  {}

  /** And the next id after the exact range does not. */
  lemma ExactIsLargest()
    ensures ToF32(EXACT) == EXACT && ToF32(EXACT + 1) != EXACT + 1
  {
    assert Ulp(EXACT / 2) == 1;
    assert Ulp(EXACT) == 2 && Ulp(EXACT + 1) == 2;
  }

  /** The marker of an empty block rounds up to 2^31. */
  lemma MarkerRounds()
    ensures ToF32(INT_MAX) == EMPTY
  {
    assert Ulp(16777215) == 1;
    assert Ulp(33554431) == 2;
    assert Ulp(67108863) == 4;
    assert Ulp(134217727) == 8;
    assert Ulp(268435455) == 16;
    assert Ulp(536870911) == 32;
    assert Ulp(1073741823) == 64;
    assert Ulp(INT_MAX) == 128;
    assert INT_MAX == 16777215 * 128 + 127;
  }

  // ---------- the three kernels, one row each ----------

  /** A block's packet: value and index, both float32. */
  type Packet = (Logit, nat)

  function BlockValues(x: seq<Logit>, valid: nat, block: nat, chunk: nat): (r: seq<Logit>)
    requires valid <= |x|
    ensures |r| == block
    ensures forall j :: 0 <= j < block ==> r[j] == if chunk * block + j < valid then x[chunk * block + j] else NegInf
  {
    seq(block, j requires 0 <= j < block => if chunk * block + j < valid then x[chunk * block + j] else NegInf)
  }

  function BlockIndices(block: nat, chunk: nat): (r: seq<nat>)
    ensures |r| == block && forall j :: 0 <= j < block ==> r[j] == chunk * block + j
  {
    seq(block, j requires 0 <= j < block => chunk * block + j)
  }

  function BlockMask(valid: nat, block: nat, chunk: nat): (r: seq<bool>)
    ensures |r| == block && forall j :: 0 <= j < block ==> r[j] == (chunk * block + j < valid)
  {
    seq(block, j requires 0 <= j < block => chunk * block + j < valid)
  }

  /** The first kernel: one block of the row. */
  function Partial(x: seq<Logit>, valid: nat, block: nat, chunk: nat): Packet
    requires valid <= |x|
  {
    var (value, index) := Winner(BlockValues(x, valid, block, chunk), BlockIndices(block, chunk),
      BlockMask(valid, block, chunk));
    (value, ToF32(index))
  }

  function PaddedValues(p: seq<Packet>, lanes: nat): (r: seq<Logit>)
    requires |p| <= lanes
    ensures |r| == lanes && forall c :: 0 <= c < lanes ==> r[c] == if c < |p| then p[c].0 else NegInf
  {
    seq(lanes, c requires 0 <= c < lanes => if c < |p| then p[c].0 else NegInf)
  }

  /** Lanes whose block was not empty. */
  function Filled(p: seq<Packet>, lanes: nat): (r: seq<bool>)
    requires |p| <= lanes
    ensures |r| == lanes && forall c :: 0 <= c < lanes ==> r[c] == (c < |p| && p[c].1 < EMPTY)
  {
    seq(lanes, c requires 0 <= c < lanes => c < |p| && p[c].1 < EMPTY)
  }

  function PaddedIndices(p: seq<Packet>, lanes: nat): (r: seq<nat>)
    requires |p| <= lanes
    ensures |r| == lanes && forall c :: 0 <= c < lanes ==> r[c] == if c < |p| && p[c].1 < EMPTY then p[c].1 else 0
  {
    seq(lanes, c requires 0 <= c < lanes => if c < |p| && p[c].1 < EMPTY then p[c].1 else 0)
  }

  /** The second kernel: the shard's packet from its blocks' packets, padded to a power of two. */
  function LocalFinish(p: seq<Packet>, lanes: nat, start: nat): Packet
    requires |p| <= lanes
  {
    var (value, index) := Winner(PaddedValues(p, lanes), PaddedIndices(p, lanes), Filled(p, lanes));
    (value, ToF32((if index == INT_MAX then 0 else index) + start))
  }

  function RankIndices(lanes: nat): (r: seq<nat>)
    ensures |r| == lanes && forall k :: 0 <= k < lanes ==> r[k] == k
  {
    seq(lanes, k requires 0 <= k < lanes => k)
  }

  function RankMask(ranks: nat, lanes: nat): (r: seq<bool>)
    ensures |r| == lanes && forall k :: 0 <= k < lanes ==> r[k] == (k < ranks)
  {
    seq(lanes, k requires 0 <= k < lanes => k < ranks)
  }

  /** The third kernel's winning rank. */
  function WinningRank(p: seq<Packet>, lanes: nat): nat
    requires |p| <= lanes
  {
    Winner(PaddedValues(p, lanes), RankIndices(lanes), RankMask(|p|, lanes)).1
  }

  // ---------- one block ----------

  /** A block that holds valid columns reports its best one; an empty block reports the marker. */
  lemma PartialIsBest(x: seq<Logit>, valid: nat, block: nat, chunk: nat) returns (at: nat)
    requires valid <= |x| && valid < EXACT
    ensures var lo, hi := chunk * block, chunk * block + block; var (value, index) := Partial(x, valid, block, chunk);
      if lo < valid && block > 0 then
        && at == index < valid && value == x[at]
        && BestOfPiece(x, lo, if hi < valid then hi else valid, at)
      else (value, index) == (NegInf, EMPTY)
  {
    var v, indices, mask := BlockValues(x, valid, block, chunk), BlockIndices(block, chunk),
      BlockMask(valid, block, chunk);
    var p := WinnerIsBest(v, indices, mask);
    at := chunk * block + p;
    assert block > 0 ==> mask[0] == (chunk * block < valid);
    if p == block {
      MarkerRounds();
    } else {
      assert mask[p];
      ToF32Exact(at);
      BlockBest(x, valid, block, chunk, p);
    }
  }

  lemma BlockBest(x: seq<Logit>, valid: nat, block: nat, chunk: nat, p: nat)
    requires valid <= |x| && Best(BlockValues(x, valid, block, chunk), BlockMask(valid, block, chunk), p)
    ensures var lo, hi := chunk * block, chunk * block + block;
      lo < valid && BestOfPiece(x, lo, if hi < valid then hi else valid, lo + p)
  {
    var lo := chunk * block;
    var v, mask := BlockValues(x, valid, block, chunk), BlockMask(valid, block, chunk);
    forall k | lo <= k < lo + block && k < valid
      ensures AtMost(x[k], x[lo + p]) && (k < lo + p ==> !AtMost(x[lo + p], x[k]))
    {
      assert mask[k - lo] && v[k - lo] == x[k];
    }
  }

  // ---------- one shard ----------

  function Chunks(cols: nat, block: nat): nat
    requires block > 0
  {
    (cols + block - 1) / block
  }

  /** The packets of all blocks of a row. */
  function Partials(x: seq<Logit>, valid: nat, block: nat, chunks: nat): (r: seq<Packet>)
    requires valid <= |x|
    ensures |r| == chunks && forall c :: 0 <= c < chunks ==> r[c] == Partial(x, valid, block, c)
  {
    seq(chunks, c requires 0 <= c < chunks => Partial(x, valid, block, c))
  }

  /** Block boundaries, clipped to the valid columns. */
  function Bounds(valid: nat, block: nat, chunks: nat): (r: seq<nat>)
    ensures |r| == chunks + 1
    ensures forall c :: 0 <= c <= chunks ==> r[c] == if c * block < valid then c * block else valid
  {
    seq(chunks + 1, c requires 0 <= c <= chunks => if c * block < valid then c * block else valid)
  }

  lemma BoundsCut(valid: nat, block: nat, chunks: nat)
    requires chunks * block >= valid
    ensures Cut(valid, Bounds(valid, block, chunks))
  {
    var cuts := Bounds(valid, block, chunks);
    forall b, c | 0 <= b <= c < |cuts| ensures cuts[b] <= cuts[c] {
      MulMonotone(b, c, block);
    }
  }

  lemma MulMonotone(a: nat, b: nat, c: nat)
    requires a <= b
    ensures a * c <= b * c
  {}

  lemma ChunksCover(cols: nat, block: nat)
    requires block > 0
    ensures Chunks(cols, block) * block >= cols
  {
    assert (cols + block - 1) / block * block + (cols + block - 1) % block == cols + block - 1;
  }

  /** What block `c` reports, with its best column `at`. */
  ghost predicate ChunkBest(x: seq<Logit>, valid: nat, block: nat, c: nat, at: nat)
    requires valid <= |x|
  {
    var lo, hi := c * block, c * block + block;
    if lo < valid then
      && lo <= at < hi && at < valid
      && Partial(x, valid, block, c) == (x[at], at)
      && BestOfPiece(x[..valid], lo, if hi < valid then hi else valid, at)
    else Partial(x, valid, block, c) == (NegInf, EMPTY)
  }

  lemma {:induction false} BlockBests(x: seq<Logit>, valid: nat, block: nat, n: nat) returns (ats: seq<nat>)
    requires valid <= |x| && valid < EXACT && block > 0
    ensures |ats| == n && forall c :: 0 <= c < n ==> ChunkBest(x, valid, block, c, ats[c])
  {
    if n == 0 {
      ats := [];
    } else {
      ats := BlockBests(x, valid, block, n - 1);
      var at := PartialIsBest(x, valid, block, n - 1);
      OneChunk(x, valid, block, n - 1, at);
      ats := ats + [at];
    }
  }

  lemma OneChunk(x: seq<Logit>, valid: nat, block: nat, c: nat, at: nat)
    requires valid <= |x| && valid < EXACT && block > 0
    requires var lo, hi := c * block, c * block + block; var (value, index) := Partial(x, valid, block, c);
      if lo < valid && block > 0 then
        && at == index < valid && value == x[at]
        && BestOfPiece(x, lo, if hi < valid then hi else valid, at)
      else (value, index) == (NegInf, EMPTY)
    ensures ChunkBest(x, valid, block, c, at)
  {
    var lo, hi := c * block, c * block + block;
    if lo < valid {
      var top := if hi < valid then hi else valid;
      forall k | lo <= k < top
        ensures AtMost(x[..valid][k], x[..valid][at]) && (k < at ==> !AtMost(x[..valid][at], x[..valid][k]))
      {
        assert AtMost(x[k], x[at]);
      }
    }
  }

  lemma ChunkIndex(x: seq<Logit>, valid: nat, block: nat, c: nat, at: nat)
    requires valid <= |x| && valid < EXACT && ChunkBest(x, valid, block, c, at)
    ensures Partial(x, valid, block, c).1 < EMPTY <==> c * block < valid
    ensures c * block < valid ==>
      c * block <= at < c * block + block && at < valid && Partial(x, valid, block, c).1 == at
  {}

  lemma LaterIndex(block: nat, c: nat, d: nat, i: nat, j: nat)
    requires c < d && i < c * block + block && d * block <= j
    ensures i < j
  {
    MulMonotone(c + 1, d, block);
    assert (c + 1) * block == c * block + block;
  }

  /** The indices of the non-empty blocks increase with the block. */
  lemma LanesIncrease(x: seq<Logit>, valid: nat, block: nat, chunks: nat, lanes: nat, ats: seq<nat>)
    requires valid <= |x| && valid < EXACT && chunks <= lanes && |ats| == chunks
    requires forall c :: 0 <= c < chunks ==> ChunkBest(x, valid, block, c, ats[c])
    ensures var p := Partials(x, valid, block, chunks);
      && Increasing(PaddedIndices(p, lanes), Filled(p, lanes))
      && forall c :: 0 <= c < lanes ==> Filled(p, lanes)[c] == (c < chunks && c * block < valid)
  {
    hide ChunkBest, Partial;
    var p := Partials(x, valid, block, chunks);
    var indices, mask := PaddedIndices(p, lanes), Filled(p, lanes);
    forall c | 0 <= c < lanes
      ensures mask[c] == (c < chunks && c * block < valid)
      ensures mask[c] ==> indices[c] == ats[c] < valid
    {
      if c < chunks { ChunkIndex(x, valid, block, c, ats[c]); }
    }
    forall c, d | 0 <= c < d < lanes && mask[c] && mask[d] ensures indices[c] < indices[d] {
      ChunkIndex(x, valid, block, c, ats[c]);
      ChunkIndex(x, valid, block, d, ats[d]);
      LaterIndex(block, c, d, indices[c], indices[d]);
    }
  }

  /** The best block's best column is the best valid column. */
  lemma BlocksCompose(x: seq<Logit>, valid: nat, block: nat, chunks: nat, lanes: nat, ats: seq<nat>, b: nat)
    requires valid <= |x| && valid < EXACT && chunks <= lanes && |ats| == chunks && chunks * block >= valid
    requires forall c :: 0 <= c < chunks ==> ChunkBest(x, valid, block, c, ats[c])
    requires var p := Partials(x, valid, block, chunks); Best(PaddedValues(p, lanes), Filled(p, lanes), b)
    ensures b < chunks && ats[b] < valid && Partial(x, valid, block, b) == (x[ats[b]], ats[b])
    ensures Best(x[..valid], AllTrue(valid), ats[b])
  {
    var p := Partials(x, valid, block, chunks);
    var v, mask := PaddedValues(p, lanes), Filled(p, lanes);
    LanesIncrease(x, valid, block, chunks, lanes, ats);
    BoundsCut(valid, block, chunks);
    var tops, full := v[..chunks], mask[..chunks];
    assert mask[b] && ChunkBest(x, valid, block, b, ats[b]);
    assert Best(tops, full, b);
    var cuts := Bounds(valid, block, chunks);
    forall c | 0 <= c < chunks
      ensures full[c] ==> BestOfPiece(x[..valid], cuts[c], cuts[c + 1], ats[c]) && tops[c] == x[..valid][ats[c]]
      ensures !full[c] ==> cuts[c] == cuts[c + 1]
    {
      assert ChunkBest(x, valid, block, c, ats[c]);
      assert (c + 1) * block == c * block + block;
    }
    BestOfBests(x[..valid], cuts, tops, ats, full, b);
  }

  /** The winning lane among a shard's blocks, if any column is valid. */
  lemma LocalWinner(x: seq<Logit>, valid: nat, block: nat, chunks: nat, lanes: nat) returns (at: nat)
    requires valid <= |x| && valid < EXACT && block > 0 && chunks * block >= valid && chunks <= lanes
    ensures var p := Partials(x, valid, block, chunks);
      var w := Winner(PaddedValues(p, lanes), PaddedIndices(p, lanes), Filled(p, lanes));
      if valid == 0 then w == (NegInf, INT_MAX)
      else at < valid && Best(x[..valid], AllTrue(valid), at) && w == (x[at], at)
  {
    hide ChunkBest, Partial, Winner;
    var p := Partials(x, valid, block, chunks);
    var ats := BlockBests(x, valid, block, chunks);
    LanesIncrease(x, valid, block, chunks, lanes, ats);
    var b := WinnerIsBest(PaddedValues(p, lanes), PaddedIndices(p, lanes), Filled(p, lanes));
    at := 0;
    if b < lanes {
      BlocksCompose(x, valid, block, chunks, lanes, ats, b);
      at := ats[b];
    } else {
      assert chunks > 0 ==> Filled(p, lanes)[0] == (valid > 0);
    }
  }

  /** The shard kernel's answer: the best valid column, or -inf at column 0 for an empty shard. */
  lemma LocalIsBest(x: seq<Logit>, valid: nat, block: nat, lanes: nat, start: nat) returns (at: nat)
    requires valid <= |x| && start + |x| < EXACT && block > 0 && Chunks(|x|, block) <= lanes
    ensures var pair := LocalFinish(Partials(x, valid, block, Chunks(|x|, block)), lanes, start);
      if valid == 0 then pair == (NegInf, start)
      else at < valid && Best(x[..valid], AllTrue(valid), at) && pair == (x[at], at + start)
  {
    ChunksCover(|x|, block);
    hide Winner, Chunks;
    at := LocalWinner(x, valid, block, Chunks(|x|, block), lanes);
    ToF32Exact((if valid == 0 then 0 else at) + start);
  }

  // ---------- all ranks ----------

  /** One rank's slice of the vocabulary: its columns, how many are real, and its first token id. */
  datatype ShardRow = ShardRow(x: seq<Logit>, valid: nat, start: nat) {
    predicate Valid() { valid <= |x| && |x| > 0 && start + |x| < EXACT }

    function Real(): (r: seq<Logit>)
      requires Valid()
      ensures |r| == valid
    {
      x[..valid]
    }
  }

  ghost predicate Shards(shards: seq<ShardRow>) {
    forall r :: 0 <= r < |shards| ==> shards[r].Valid()
  }

  /** Where rank `r`'s real logits begin in the joined row. */
  ghost function Offset(shards: seq<ShardRow>, r: nat): nat
    requires r <= |shards|
  {
    if r == 0 then 0 else Offset(shards, r - 1) + shards[r - 1].valid
  }

  /** The real logits of the first `n` ranks, in rank order. */
  ghost function Joined(shards: seq<ShardRow>, n: nat): (r: seq<Logit>)
    requires Shards(shards) && n <= |shards|
    ensures |r| == Offset(shards, n)
  {
    if n == 0 then [] else Joined(shards, n - 1) + shards[n - 1].Real()
  }

  lemma {:induction false} JoinedAt(shards: seq<ShardRow>, n: nat, r: nat, k: nat)
    requires Shards(shards) && r < n <= |shards| && k < shards[r].valid
    ensures Offset(shards, r) + k < Offset(shards, n) && Joined(shards, n)[Offset(shards, r) + k] == shards[r].x[k]
  {
    if r < n - 1 {
      JoinedAt(shards, n - 1, r, k);
    }
  }

  ghost function Cuts(shards: seq<ShardRow>): (r: seq<nat>)
    ensures |r| == |shards| + 1 && forall k :: 0 <= k < |r| ==> r[k] == Offset(shards, k)
  {
    seq(|shards| + 1, k requires 0 <= k <= |shards| => Offset(shards, k))
  }

  lemma {:induction false} OffsetMonotone(shards: seq<ShardRow>, b: nat, c: nat)
    requires b <= c <= |shards|
    ensures Offset(shards, b) <= Offset(shards, c)
  {
    if b < c { OffsetMonotone(shards, b, c - 1); }
  }

  lemma OffsetStep(shards: seq<ShardRow>, r: nat)
    requires r < |shards|
    ensures Offset(shards, r + 1) == Offset(shards, r) + shards[r].valid
  {}

  lemma CutsCut(shards: seq<ShardRow>)
    requires Shards(shards)
    ensures Cut(Offset(shards, |shards|), Cuts(shards))
  {
    forall b, c | 0 <= b <= c < |shards| + 1 ensures Cuts(shards)[b] <= Cuts(shards)[c] {
      OffsetMonotone(shards, b, c);
    }
  }

  /** Column `k` of rank `r` is position `p` of the joined row, under token id `token`. */
  ghost predicate Placed(shards: seq<ShardRow>, p: nat, token: nat, r: nat, k: nat) {
    && r < |shards| && k < shards[r].valid
    && p == Offset(shards, r) + k && token == shards[r].start + k
  }

  /** `token` names the argmax of the joined row. */
  ghost predicate IsArgmaxToken(shards: seq<ShardRow>, token: nat)
    requires Shards(shards)
  {
    exists p, r, k :: FlatArgmax(Joined(shards, |shards|), p) && Placed(shards, p, token, r, k)
  }

  /** A rank's packet as `local_pair` makes it; None is the dimension error. */
  function LocalPair(s: ShardRow, block: nat): Option<Packet>
    requires block > 0
  {
    if s.valid <= |s.x| && s.start + |s.x| < EXACT then
      var chunks := Chunks(|s.x|, block);
      Some(LocalFinish(Partials(s.x, s.valid, block, chunks), NextPowerOfTwo(chunks), s.start))
    else None
  }

  /** The token `global_tokens` returns from the gathered packets. */
  function GlobalToken(p: seq<Packet>, lanes: nat): nat
    requires 0 < |p| <= lanes
  {
    var w := WinningRank(p, lanes);
    if w < |p| then p[w].1 else 0
  }

  /** The packets are those the ranks' shard kernels make. */
  ghost predicate Gathered(shards: seq<ShardRow>, block: nat, p: seq<Packet>) {
    && Shards(shards) && block > 0 && |p| == |shards|
    && forall r :: 0 <= r < |shards| ==> LocalPair(shards[r], block) == Some(p[r])
  }

  /** Rank `r` sent its best column, or -inf if it holds no real logit. */
  ghost predicate Sent(s: ShardRow, packet: Packet, at: nat)
    requires s.Valid()
  {
    if s.valid == 0 then packet == (NegInf, s.start)
    else at < s.valid && Best(s.Real(), AllTrue(s.valid), at) && packet == (s.x[at], at + s.start)
  }

  lemma {:induction false} AllSent(shards: seq<ShardRow>, block: nat, p: seq<Packet>, n: nat) returns (ats: seq<nat>)
    requires Gathered(shards, block, p) && n <= |shards|
    ensures |ats| == n && forall r :: 0 <= r < n ==> Sent(shards[r], p[r], ats[r])
  {
    if n == 0 {
      ats := [];
    } else {
      ats := AllSent(shards, block, p, n - 1);
      var s := shards[n - 1];
      var at := LocalIsBest(s.x, s.valid, block, NextPowerOfTwo(Chunks(|s.x|, block)), s.start);
      ats := ats + [at];
    }
  }

  /** The rank whose value wins, first among equals. */
  lemma RankWins(p: seq<Packet>, lanes: nat) returns (b: nat)
    requires 0 < |p| <= lanes < INT_MAX
    ensures b < |p| && GlobalToken(p, lanes) == p[b].1
    ensures Wins(p, b)
  {
    var v, mask := PaddedValues(p, lanes), RankMask(|p|, lanes);
    b := WinnerIsBest(v, RankIndices(lanes), mask);
    assert mask[0];
    forall r | 0 <= r < |p| ensures AtMost(p[r].0, p[b].0) && (r < b ==> !AtMost(p[b].0, p[r].0)) {
      assert mask[r] && v[r] == p[r].0;
    }
  }

  /** Position `at` is the best of rank `r`'s piece of the joined row, and `value` is the logit there. */
  ghost predicate RankPiece(shards: seq<ShardRow>, r: nat, value: Logit, at: nat)
    requires Shards(shards) && r < |shards|
  {
    var v := Joined(shards, |shards|);
    && Offset(shards, r + 1) <= |v|
    && BestOfPiece(v, Offset(shards, r), Offset(shards, r + 1), at) && value == v[at]
  }

  /** Rank `r`'s best column beats or precedes every other logit of its piece. */
  lemma PieceDominates(shards: seq<ShardRow>, r: nat, at: nat, k: nat)
    requires Shards(shards) && r < |shards| && at < shards[r].valid
    requires Offset(shards, r) <= k < Offset(shards, r + 1)
    requires Best(shards[r].Real(), AllTrue(shards[r].valid), at)
    ensures var v, q := Joined(shards, |shards|), Offset(shards, r) + at;
      && q < |v| && k < |v| && v[q] == shards[r].x[at]
      && AtMost(v[k], v[q]) && (k < q ==> !AtMost(v[q], v[k]))
  {
    JoinedAt(shards, |shards|, r, at);
    JoinedAt(shards, |shards|, r, k - Offset(shards, r));
    assert AtMost(shards[r].Real()[k - Offset(shards, r)], shards[r].Real()[at]);
  }

  lemma PieceIsBest(shards: seq<ShardRow>, r: nat, at: nat, v: seq<Logit>, lo: nat, hi: nat)
    requires Shards(shards) && r < |shards| && at < shards[r].valid
    requires Best(shards[r].Real(), AllTrue(shards[r].valid), at)
    requires v == Joined(shards, |shards|) && lo == Offset(shards, r) && lo + at < hi == Offset(shards, r + 1) <= |v|
    ensures BestOfPiece(v, lo, hi, lo + at)
  {
    hide Joined, AtMost, Best, Offset, Shards;
    forall k | lo <= k < hi ensures AtMost(v[k], v[lo + at]) && (k < lo + at ==> !AtMost(v[lo + at], v[k])) {
      PieceDominates(shards, r, at, k);
    }
  }

  /** Rank `r`'s best column is the best of its piece of the joined row. */
  lemma PieceBest(shards: seq<ShardRow>, r: nat, at: nat)
    requires Shards(shards) && r < |shards| && at < shards[r].valid
    requires Best(shards[r].Real(), AllTrue(shards[r].valid), at)
    ensures RankPiece(shards, r, shards[r].x[at], Offset(shards, r) + at)
  {
    hide AtMost, Best, BestOfPiece, Offset, Joined, AllTrue, ShardRow.Real;
    var lo, hi := Offset(shards, r), Offset(shards, r + 1);
    OffsetStep(shards, r);
    OffsetMonotone(shards, r + 1, |shards|);
    JoinedLength(shards, |shards|);
    PieceDominates(shards, r, at, lo + at);
    PieceIsBest(shards, r, at, Joined(shards, |shards|), lo, hi);
  }

  /** Every packet is what its rank sent. */
  ghost predicate SentAll(shards: seq<ShardRow>, p: seq<Packet>, ats: seq<nat>) {
    && Shards(shards) && |p| == |ats| == |shards|
    && forall r :: 0 <= r < |p| ==> Sent(shards[r], p[r], ats[r])
  }

  /** Rank `b` sent the greatest value, and no earlier rank ties with it. */
  ghost predicate Wins(p: seq<Packet>, b: nat) {
    && b < |p|
    && forall r :: 0 <= r < |p| ==> AtMost(p[r].0, p[b].0) && (r < b ==> !AtMost(p[b].0, p[r].0))
  }

  ghost function Tops(p: seq<Packet>): (r: seq<Logit>)
    ensures |r| == |p| && forall k :: 0 <= k < |p| ==> r[k] == p[k].0
  {
    seq(|p|, k requires 0 <= k < |p| => p[k].0)
  }

  ghost function HasReal(shards: seq<ShardRow>): (r: seq<bool>)
    ensures |r| == |shards| && forall k :: 0 <= k < |shards| ==> r[k] == (shards[k].valid > 0)
  {
    seq(|shards|, k requires 0 <= k < |shards| => shards[k].valid > 0)
  }

  ghost function Places(shards: seq<ShardRow>, ats: seq<nat>): (r: seq<nat>)
    requires |ats| == |shards|
    ensures |r| == |shards| && forall k :: 0 <= k < |shards| ==> r[k] == Offset(shards, k) + ats[k]
  {
    seq(|shards|, k requires 0 <= k < |shards| => Offset(shards, k) + ats[k])
  }

  lemma SentPiece(shards: seq<ShardRow>, r: nat, packet: Packet, at: nat)
    requires Shards(shards) && r < |shards| && shards[r].valid > 0 && Sent(shards[r], packet, at)
    ensures RankPiece(shards, r, packet.0, Offset(shards, r) + at)
  {
    hide RankPiece, Best, Offset;
    PieceBest(shards, r, at);
  }

  lemma WinsIsBest(shards: seq<ShardRow>, p: seq<Packet>, b: nat)
    requires |p| == |shards| && Wins(p, b) && shards[b].valid > 0
    ensures Best(Tops(p), HasReal(shards), b)
  {
    hide AtMost;
  }

  ghost predicate RankPieces(shards: seq<ShardRow>, tops: seq<Logit>, at: seq<nat>)
    requires Shards(shards) && |tops| == |at| == |shards|
  {
    forall r :: 0 <= r < |shards| && shards[r].valid > 0 ==> RankPiece(shards, r, tops[r], at[r])
  }

  lemma SentPieces(shards: seq<ShardRow>, p: seq<Packet>, ats: seq<nat>)
    requires SentAll(shards, p, ats)
    ensures RankPieces(shards, Tops(p), Places(shards, ats))
  {
    hide Sent, Offset, RankPiece;
    forall r | 0 <= r < |p| && shards[r].valid > 0 ensures RankPiece(shards, r, Tops(p)[r], Places(shards, ats)[r]) {
      SentPiece(shards, r, p[r], ats[r]);
    }
  }

  /** A winning rank with real logits holds the best position of the joined row. */
  lemma {:induction false} FullRankIsBest(shards: seq<ShardRow>, p: seq<Packet>, ats: seq<nat>, b: nat)
    requires SentAll(shards, p, ats) && Wins(p, b) && shards[b].valid > 0
    ensures var v := Joined(shards, |shards|);
      var q := Offset(shards, b) + ats[b];
      q < |v| && Best(v, AllTrue(|v|), q)
  {
    hide Best, Sent, AtMost, Joined, Offset, RankPieces;
    SentPieces(shards, p, ats);
    WinsIsBest(shards, p, b);
    RanksCompose(shards, Tops(p), Places(shards, ats), b);
  }

  /** The best of the ranks' bests is the best of the joined row. */
  lemma RanksCompose(shards: seq<ShardRow>, tops: seq<Logit>, at: seq<nat>, b: nat)
    requires Shards(shards) && |tops| == |at| == |shards| && b < |at|
    requires RankPieces(shards, tops, at) && Best(tops, HasReal(shards), b)
    ensures var v := Joined(shards, |shards|);
      at[b] < |v| && Best(v, AllTrue(|v|), at[b])
  {
    hide AtMost, Joined, Best;
    var v := Joined(shards, |shards|);
    assert |v| == Offset(shards, |shards|) by { JoinedLength(shards, |shards|); }
    CutsCut(shards);
    var full := HasReal(shards);
    forall r | 0 <= r < |full| && full[r]
      ensures BestOfPiece(v, Cuts(shards)[r], Cuts(shards)[r + 1], at[r]) && tops[r] == v[at[r]]
    {
      assert RankPiece(shards, r, tops[r], at[r]);
    }
    BestOfBests(v, Cuts(shards), tops, at, full, b);
  }

  lemma JoinedLength(shards: seq<ShardRow>, n: nat)
    requires Shards(shards) && n <= |shards|
    ensures |Joined(shards, n)| == Offset(shards, n)
  {}

  /** A winning rank with real logits holds the argmax of the joined row. */
  lemma FullRankIsArgmax(shards: seq<ShardRow>, p: seq<Packet>, ats: seq<nat>, b: nat)
    requires SentAll(shards, p, ats) && Wins(p, b) && shards[b].valid > 0
    ensures IsArgmaxToken(shards, p[b].1)
  {
    hide Best, Joined, FlatArgmax;
    FullRankIsBest(shards, p, ats, b);
    var q := Offset(shards, b) + ats[b];
    BestIsFlat(Joined(shards, |shards|), q);
    assert Sent(shards[b], p[b], ats[b]);
    assert Placed(shards, q, p[b].1, b, ats[b]);
  }

  /** Some real logit is above -inf. */
  ghost predicate AboveMinusInf(shards: seq<ShardRow>)
    requires Shards(shards)
  {
    var v := Joined(shards, |shards|);
    exists k :: 0 <= k < |v| && v[k] != NegInf
  }

  /** If an empty rank wins, every real logit is -inf and the winner is rank 0. */
  lemma EmptyWins(shards: seq<ShardRow>, p: seq<Packet>, ats: seq<nat>, b: nat)
    requires SentAll(shards, p, ats) && Wins(p, b) && shards[b].valid == 0
    ensures b == 0 && p[b].1 == shards[0].start && !AboveMinusInf(shards)
  {
    assert Sent(shards[b], p[b], ats[b]);
    assert Sent(shards[0], p[0], ats[0]) && AtMost(NegInf, p[0].0);
    var v := Joined(shards, |shards|);
    CutsCut(shards);
    forall k | 0 <= k < |v| ensures v[k] == NegInf {
      var r := PieceOf(Cuts(shards), |v|, k);
      AtMostMinusInf(shards, p, ats, b, r, k - Offset(shards, r));
    }
  }

  lemma AtMostMinusInf(shards: seq<ShardRow>, p: seq<Packet>, ats: seq<nat>, b: nat, r: nat, j: nat)
    requires SentAll(shards, p, ats) && Wins(p, b) && shards[b].valid == 0
    requires r < |shards| && j < shards[r].valid && Shards(shards)
    ensures var k := Offset(shards, r) + j;
      k < |Joined(shards, |shards|)| && Joined(shards, |shards|)[k] == NegInf
  {
    JoinedAt(shards, |shards|, r, j);
    assert Sent(shards[b], p[b], ats[b]);
    assert Sent(shards[r], p[r], ats[r]) && AtMost(p[r].0, NegInf);
    assert AtMost(shards[r].Real()[j], shards[r].Real()[ats[r]]);
  }

  /** With an empty rank 0, a rank with real logits wins only by a logit above -inf. */
  lemma FullBeatsEmpty(shards: seq<ShardRow>, p: seq<Packet>, ats: seq<nat>, b: nat)
    requires SentAll(shards, p, ats) && Wins(p, b) && shards[b].valid > 0 && shards[0].valid == 0
    ensures AboveMinusInf(shards)
  {
    assert Sent(shards[b], p[b], ats[b]) && Sent(shards[0], p[0], ats[0]);
    JoinedAt(shards, |shards|, b, ats[b]);
    assert !AtMost(p[b].0, p[0].0);
    var v := Joined(shards, |shards|);
    assert v[Offset(shards, b) + ats[b]] != NegInf;
  }

  /** The first token id of an empty rank 0 names no real logit. */
  lemma StartIsNoToken(shards: seq<ShardRow>)
    requires |shards| > 0 && Shards(shards) && shards[0].valid == 0
    requires forall r :: 0 < r < |shards| ==> shards[0].start < shards[r].start
    ensures !IsArgmaxToken(shards, shards[0].start)
  {
    hide FlatArgmax, Joined, Shards;
    forall q, r, k ensures !Placed(shards, q, shards[0].start, r, k) {
    }
  }

  /**
   * The three reductions return the argmax of the whole vocabulary exactly when rank 0 holds a real
   * logit or some logit is above -inf: an empty rank 0 wins the tie of an all -inf row.
   */
  lemma ReductionIsArgmaxExactly(shards: seq<ShardRow>, block: nat, p: seq<Packet>, lanes: nat)
    requires |shards| > 0 && Gathered(shards, block, p) && |p| <= lanes < INT_MAX
    requires forall r :: 0 < r < |shards| ==> shards[0].start < shards[r].start
    ensures IsArgmaxToken(shards, GlobalToken(p, lanes)) <==> shards[0].valid > 0 || AboveMinusInf(shards)
  {
    hide Sent, IsArgmaxToken, AboveMinusInf, LocalPair, GlobalToken;
    var ats := AllSent(shards, block, p, |shards|);
    var b := RankWins(p, lanes);
    if shards[b].valid > 0 {
      FullRankIsArgmax(shards, p, ats, b);
      if shards[0].valid == 0 { FullBeatsEmpty(shards, p, ats, b); }
    } else {
      EmptyWins(shards, p, ats, b);
      StartIsNoToken(shards);
    }
  }

  /**
   * The failing row: rank 0 empty, rank 1 with one logit of -inf. The reductions answer token 0, which rank 0
   * does not hold.
   */
  lemma EmptyRankTakesTie(block: nat) returns (shards: seq<ShardRow>, p: seq<Packet>)
    requires block > 0
    ensures shards == [ShardRow([NegInf], 0, 0), ShardRow([NegInf], 1, 1)] && Gathered(shards, block, p)
    ensures GlobalToken(p, 2) == 0 && !IsArgmaxToken(shards, 0)
  {
    hide LocalFinish, Partials, Chunks, IsArgmaxToken;
    shards := [ShardRow([NegInf], 0, 0), ShardRow([NegInf], 1, 1)];
    p := [LocalPair(shards[0], block).value, LocalPair(shards[1], block).value];
    ReductionIsArgmaxExactly(shards, block, p, 2);
    OneLogit(shards);
    var ats := AllSent(shards, block, p, 2);
    var b := RankWins(p, 2);
    assert Sent(shards[0], p[0], ats[0]) && Sent(shards[1], p[1], ats[1]);
  }

  lemma OneLogit(shards: seq<ShardRow>)
    requires shards == [ShardRow([NegInf], 0, 0), ShardRow([NegInf], 1, 1)]
    ensures Shards(shards) && !AboveMinusInf(shards)
  {
    assert Joined(shards, 0) == [] && Joined(shards, 1) == [] && Joined(shards, 2) == [NegInf];
  }

  // ---------- the launches, over a batch of rows ----------

  /** The first launch: one packet per row and block. */
  method PartialLaunch(logits: seq<seq<Logit>>, valid: nat, block: nat, p: array2<Packet>)
    requires p.Length0 == |logits| && forall i :: 0 <= i < |logits| ==> valid <= |logits[i]|
    modifies p
    ensures forall i, c :: 0 <= i < p.Length0 && 0 <= c < p.Length1 ==> p[i, c] == Partial(logits[i], valid, block, c)
  {
    hide Partial;
    for row := 0 to p.Length0
      invariant forall i, c :: 0 <= i < row && 0 <= c < p.Length1 ==> p[i, c] == Partial(logits[i], valid, block, c)
    {
      for chunk := 0 to p.Length1
        invariant forall i, c :: 0 <= i < row && 0 <= c < p.Length1 ==> p[i, c] == Partial(logits[i], valid, block, c)
        invariant forall c :: 0 <= c < chunk ==> p[row, c] == Partial(logits[row], valid, block, c)
      {
        p[row, chunk] := Partial(logits[row], valid, block, chunk);
      }
    }
  }

  /** `local_pair`: both launches of one rank; None is the ValueError. */
  method LocalPairs(logits: seq<seq<Logit>>, cols: nat, valid: int, start: int) returns (r: Option<array<Packet>>)
    requires forall i :: 0 <= i < |logits| ==> |logits[i]| == cols
    ensures r.None? <==> !(0 <= valid <= cols) || start < 0 || start + cols >= EXACT
    ensures r.Some? ==> r.value.Length == |logits| && forall i :: 0 <= i < |logits| ==>
      LocalPair(ShardRow(logits[i], valid, start), if |logits| == 1 then 512 else 1024) == Some(r.value[i])
  {
    if !(0 <= valid <= cols) || start < 0 || start + cols >= EXACT { return None; }
    var block := if |logits| == 1 then 512 else 1024;
    var chunks := Chunks(cols, block);
    var none: Packet := (NegInf, 0);
    var partial := new Packet[|logits|, chunks]((i, j) => none);
    var pair := new Packet[|logits|](i => none);
    PartialLaunch(logits, valid, block, partial);
    hide Partial, LocalFinish, Chunks;
    for row := 0 to |logits|
      invariant forall i :: 0 <= i < row ==> LocalPair(ShardRow(logits[i], valid, start), block) == Some(pair[i])
      modifies pair
    {
      var packets := seq(chunks, c requires 0 <= c < chunks reads partial => partial[row, c]);
      assert packets == Partials(logits[row], valid, block, chunks);
      pair[row] := LocalFinish(packets, NextPowerOfTwo(chunks), start);
    }
    r := Some(pair);
  }

  /** `global_tokens`: the token of every row from the gathered packets; None is the ValueError. */
  method GlobalTokens(pairs: seq<seq<Packet>>, columns: nat, tp: nat) returns (r: Option<array<nat>>)
    requires tp > 0 && forall i :: 0 <= i < |pairs| ==> |pairs[i]| == columns
    ensures r.None? <==> columns != tp
    ensures r.Some? ==> r.value.Length == |pairs| && forall i :: 0 <= i < |pairs| ==>
      r.value[i] == GlobalToken(pairs[i], NextPowerOfTwo(tp))
  {
    if columns != tp { return None; }
    hide GlobalToken;
    var out := new nat[|pairs|];
    for row := 0 to |pairs|
      invariant forall i :: 0 <= i < row ==> out[i] == GlobalToken(pairs[i], NextPowerOfTwo(tp))
    {
      out[row] := GlobalToken(pairs[row], NextPowerOfTwo(tp));
    }
    r := Some(out);
  }
}
