/** Padding of head, group and expert counts for a tensor-parallel size that does not divide them. */
module TensorPad {
  import opened Arith

  const MAX_LOCAL: nat := 128

  /** `n` rounded up to a multiple of `d`. */
  function CeilTo(n: nat, d: nat): nat
    requires d > 0
  {
    DivNat(n + d - 1, d);
    (n + d - 1) / d * d
  }

  /** The smallest multiple that is large enough. */
  lemma CeilIsLeast(n: nat, d: nat)
    requires d > 0
    ensures CeilTo(n, d) % d == 0 && n <= CeilTo(n, d) < n + d
  {
    DivNat(n + d - 1, d);
    var q: nat := (n + d - 1) / d;
    assert n + d - 1 == d * q + (n + d - 1) % d && q * d == d * q;
    DivIs(q * d, d, q, 0);
  }

  /** Local head counts the attention kernels exist for. */
  predicate Legal(local: nat) { local in {8, 16, 32, 64, 128} }

  /** The next legal local head count, or the greatest. */
  function NextLegal(local: nat): (r: nat)
    ensures Legal(r) && r <= MAX_LOCAL && (local <= MAX_LOCAL <==> local <= r)
    ensures forall l: nat :: Legal(l) && local <= l ==> local <= r <= l
  {
    if local <= 8 then 8 else if local <= 16 then 16 else if local <= 32 then 32 else if local <= 64 then 64 else 128
  }

  /** Heads in each group. */
  function Per(heads: nat, groups: nat): (r: nat)
    requires groups > 0
    ensures r > 0
  {
    DivNat(heads, groups);
    if heads / groups == 0 then 1 else heads / groups
  }

  /** The local head count before it is made legal, as the first rounding leaves it. */
  function FirstLocal(heads: nat, groups: nat, tp: nat): nat
    requires tp > 0 && groups > 0
  {
    var h := if heads % tp != 0 then CeilTo(groups, tp) * Per(heads, groups) else heads;
    DivNat(h, tp);
    h / tp
  }

  /** `h` heads in groups of `per`, the groups rounded up to the ranks if they do not come out even. */
  function Regrouped(h: nat, per: nat, tp: nat): (nat, nat)
    requires per > 0 && tp > 0
  {
    DivNat(h, per);
    if h / per * per != h then (CeilTo(h / per, tp) * per, CeilTo(h / per, tp)) else (h, h / per)
  }

  /** The padded head and group counts. */
  function PadHeads(heads: nat, groups: nat, tp: nat): (nat, nat)
    requires tp > 0
  {
    if heads == 0 || groups == 0 then (heads, groups)
    else
      var per := Per(heads, groups);
      var local := FirstLocal(heads, groups, tp);
      if !Legal(local) then Regrouped(NextLegal(local) * tp, per, tp)
      else if heads % tp != 0 then (CeilTo(groups, tp) * per, CeilTo(groups, tp))
      else (heads, groups)
  }

  /** A model of whole groups. */
  predicate Grouped(heads: nat, groups: nat, per: nat) {
    heads == groups * per && groups > 0 && per > 0
  }

  /** Divisible by the ranks, with a kernel for the local head count. */
  predicate Fits(heads: nat, groups: nat, per: nat, tp: nat)
    requires tp > 0
  {
    DivNat(heads, tp);
    Grouped(heads, groups, per) && heads % tp == 0 && groups % tp == 0 && Legal(heads / tp)
  }

  lemma PerIs(heads: nat, groups: nat, per: nat)
    requires Grouped(heads, groups, per)
    ensures Per(heads, groups) == per
  {
    DivIs(heads, groups, per, 0);
  }

  /** `per` heads at a time fill `local` heads exactly. */
  predicate Splits(local: nat, per: nat)
    requires per > 0
  {
    local % per == 0
  }

  lemma SplitsInto(local: nat, per: nat) returns (parts: nat)
    requires per > 0 && Splits(local, per) && local > 0
    ensures local == parts * per && parts > 0
  {
    DivNat(local, per);
    parts := local / per;
    assert local == per * parts;
  }

  lemma DoesSplit(parts: nat, per: nat)
    requires per > 0
    ensures Splits(parts * per, per)
  {
    DivIs(parts * per, per, parts, 0);
  }

  /** Small groups fill every legal local count. */
  lemma SmallGroupsSplit(local: nat, per: nat)
    requires Legal(local) && per in {1, 2, 4, 8}
    ensures Splits(local, per)
  {}

  lemma Regroup3(a: nat, b: nat, c: nat)
    ensures a * (b * c) == a * b * c == c * (a * b)
  {}

  lemma CompareScaled(a: nat, b: nat, d: nat)
    requires d > 0
    ensures a <= b <==> a * d <= b * d
  {
    assert a * d - b * d == d * (a - b);
    MulAtLeast(d, a - b);
  }

  lemma CompareRounded(n: nat, d: nat, q: nat, most: nat)
    requires d > 0 && n <= q * d < n + d
    ensures q <= most <==> n <= most * d
  {
    if q <= most {
      CompareScaled(q, most, d);
    } else {
      CompareScaled(most, q - 1, d);
      assert (q - 1) * d == q * d - d;
    }
  }

  lemma CeilIsProduct(n: nat, d: nat) returns (q: nat)
    requires d > 0
    ensures CeilTo(n, d) == q * d && n <= q * d < n + d
  {
    CeilIsLeast(n, d);
    DivNat(n + d - 1, d);
    q := (n + d - 1) / d;
  }

  // ---------- the first rounding ----------

  /** Rounded-up groups make a local count of whole groups. */
  lemma RoundedLocal(heads: nat, groups: nat, per: nat, tp: nat) returns (q: nat)
    requires Grouped(heads, groups, per) && tp > 0 && heads % tp != 0
    ensures CeilTo(groups, tp) == q * tp && groups <= q * tp < groups + tp && q > 0
    ensures FirstLocal(heads, groups, tp) == q * per && CeilTo(groups, tp) * per == tp * (q * per)
  {
    q := CeilIsProduct(groups, tp);
    hide CeilTo;
    PerIs(heads, groups, per);
    Regroup3(tp, q, per);
    DivIs(tp * (q * per), tp, q * per, 0);
  }

  lemma WholeLocal(heads: nat, groups: nat, tp: nat)
    requires tp > 0 && groups > 0 && heads % tp == 0
    ensures heads == tp * FirstLocal(heads, groups, tp)
  {
    DivNat(heads, tp);
  }

  /** The first local count is within a limit of whole groups exactly if the heads are. */
  lemma WithinLimit(heads: nat, groups: nat, per: nat, tp: nat, limit: nat)
    requires Grouped(heads, groups, per) && tp > 0 && Splits(limit, per) && limit > 0
    ensures FirstLocal(heads, groups, tp) <= limit <==> heads <= limit * tp
  {
    hide CeilTo, FirstLocal;
    var most := SplitsInto(limit, per);
    if heads % tp != 0 {
      var q := RoundedLocal(heads, groups, per, tp);
      CompareRounded(groups, tp, q, most);
      CompareScaled(q, most, per);
      CompareScaled(groups, most * tp, per);
      Regroup3(tp, most, per);
    } else {
      WholeLocal(heads, groups, tp);
      CompareScaled(FirstLocal(heads, groups, tp), limit, tp);
    }
  }

  // ---------- when the result fits ----------

  /** Heads that come out even are regrouped as they are. */
  lemma RegroupedEven(h: nat, per: nat, tp: nat, groups: nat)
    requires per > 0 && tp > 0 && h == groups * per
    ensures Regrouped(h, per, tp) == (h, groups)
  {
    DivIs(h, per, groups, 0);
  }

  lemma SameFactor(a: nat, b: nat, per: nat)
    requires per > 0 && a * per == b * per
    ensures a == b
  {
    DivIs(a * per, per, a, 0);
    DivIs(b * per, per, b, 0);
  }

  /** Which of its three ways padding takes. */
  lemma PadWays(heads: nat, groups: nat, per: nat, tp: nat)
    requires Grouped(heads, groups, per) && tp > 0
    ensures var local := FirstLocal(heads, groups, tp);
      PadHeads(heads, groups, tp) ==
        if !Legal(local) then Regrouped(NextLegal(local) * tp, per, tp)
        else if heads % tp != 0 then (CeilTo(groups, tp) * per, CeilTo(groups, tp))
        else (heads, groups)
  {
    hide CeilTo, NextLegal, Regrouped, FirstLocal, Legal, Per;
    PerIs(heads, groups, per);
    Positive(groups, per);
  }

  lemma Positive(a: nat, b: nat)
    requires a > 0 && b > 0
    ensures a * b > 0
  {}

  /** A legal first count is kept, so it is the chosen one. */
  lemma KeptLocal(heads: nat, groups: nat, per: nat, tp: nat, parts: nat)
    requires Grouped(heads, groups, per) && tp > 0 && FirstLocal(heads, groups, tp) == parts * per
    ensures if heads % tp != 0 then CeilTo(groups, tp) == tp * parts
            else heads == tp * (parts * per) && groups == tp * parts
  {
    hide CeilTo, FirstLocal;
    Regroup3(tp, parts, per);
    if heads % tp != 0 {
      var q := RoundedLocal(heads, groups, per, tp);
      SameFactor(q, parts, per);
    } else {
      WholeLocal(heads, groups, tp);
      SameFactor(groups, tp * parts, per);
    }
  }

  /** Where the chosen local count is whole groups, padding gives every rank just that. */
  lemma PadGivesLegal(heads: nat, groups: nat, per: nat, tp: nat, parts: nat)
    requires Grouped(heads, groups, per) && tp > 0 && NextLegal(FirstLocal(heads, groups, tp)) == parts * per
    ensures PadHeads(heads, groups, tp) == (tp * (parts * per), tp * parts)
  {
    hide *;
    PadWays(heads, groups, per, tp);
    Regroup3(tp, parts, per);
    GroupedIs(heads, groups, per);
    var local := FirstLocal(heads, groups, tp);
    if Legal(local) {
      NextOfLegal(local);
      KeptLocal(heads, groups, per, tp, parts);
    } else {
      RegroupedEven(NextLegal(local) * tp, per, tp, tp * parts);
    }
  }

  lemma GroupedIs(heads: nat, groups: nat, per: nat)
    requires Grouped(heads, groups, per)
    ensures heads == groups * per && groups > 0 && per > 0
  {}

  lemma NextIsLegal(local: nat)
    ensures Legal(NextLegal(local)) && NextLegal(local) > 0
  {}

  lemma NextOfLegal(local: nat)
    requires Legal(local)
    ensures NextLegal(local) == local
  {}

  lemma ShareFits(parts: nat, per: nat, tp: nat)
    requires Legal(parts * per) && per > 0 && parts > 0 && tp > 0
    ensures Fits(tp * (parts * per), tp * parts, per, tp)
  {
    Regroup3(tp, parts, per);
    DivIs(tp * (parts * per), tp, parts * per, 0);
    DivIs(tp * parts, tp, parts, 0);
    assert tp * parts > 0;
  }

  predicate PowerOfTwo(p: nat) { p == 1 || (p > 1 && p % 2 == 0 && PowerOfTwo(p / 2)) }

  /** An odd factor does not help a power of two divide a product. */
  lemma {:induction false} OddCancels(p: nat, n: nat, x: nat, k: nat) returns (c: nat)
    requires PowerOfTwo(p) && x % 2 == 1 && n * x == p * k
    ensures n == p * c
  {
    if p == 1 {
      c := n;
    } else {
      var half := p / 2;
      assert p * k == 2 * (half * k);
      EvenTimesOdd(n, x);
      assert 2 * (n / 2 * x) == n * x;
      c := OddCancels(half, n / 2, x, k);
      assert n == 2 * (half * c) == p * c;
    }
  }

  lemma OddTimesOdd(a: nat, b: nat)
    ensures (2 * a + 1) * (2 * b + 1) % 2 == 1
  {
    assert (2 * a + 1) * (2 * b + 1) == 2 * (2 * (a * b) + a + b) + 1;
  }

  lemma EvenTimesOdd(n: nat, x: nat)
    requires n * x % 2 == 0 && x % 2 == 1
    ensures n % 2 == 0
  {
    if n % 2 == 1 { OddTimesOdd(n / 2, x / 2); }
  }

  lemma Halve(n: nat, x: nat)
    requires x % 2 == 0
    ensures 2 * n * (x / 2) == n * x
  {
    Regroup3(n, 2, x / 2);
  }

  /** A power of two that divides n * x divides n * t, for every power of two t that is not less than x. */
  lemma {:induction false} PowerDivides(p: nat, n: nat, x: nat, t: nat, k: nat) returns (c: nat)
    requires PowerOfTwo(p) && PowerOfTwo(t) && 0 < x <= t && n * x == p * k
    ensures n * t == p * c
    decreases t
  {
    if x == t {
      c := k;
    } else if x % 2 == 1 {
      var d := OddCancels(p, n, x, k);
      Regroup3(p, d, t);
      c := d * t;
    } else {
      Halve(n, x);
      Halve(n, t);
      c := PowerDivides(p, 2 * n, x / 2, t / 2, k);
    }
  }

  /** If the chosen local count is not whole groups but the ranks' heads are, padding leaves the groups unsplit. */
  lemma NoWholeGroups(tp: nat, target: nat, per: nat, c: nat)
    requires tp > 0 && per > 0 && tp * c * per == target * tp
    ensures Splits(target, per)
  {
    Regroup3(tp, c, per);
    DivIs(target * tp, tp, target, 0);
    DivIs(tp * (c * per), tp, c * per, 0);
    DoesSplit(c, per);
  }

  lemma LegalPowers(per: nat, parts: nat)
    requires Legal(per * parts)
    ensures per in {1, 2, 4, 8, 16, 32, 64, 128}
  {
    assert parts != 0 && per != 0;
    CompareScaled(1, parts, per);
    DividesLegal(per, parts);
  }

  lemma DividesLegal(per: nat, parts: nat)
    requires Legal(per * parts) && 0 < per <= 128
    ensures per in {1, 2, 4, 8, 16, 32, 64, 128}
  {
    var legal := per * parts;
    var more := if legal == 8 then 16 else if legal == 16 then 8 else if legal == 32 then 4 else 128 / legal;
    assert 128 == legal * more;
    Regroup3(per, parts, more);
    DivIs(128, per, parts * more, 0);
    Divisors(per);
  }

  lemma Divisors(per: nat)
    requires 0 < per <= 128 && 128 % per == 0
    ensures per in {1, 2, 4, 8, 16, 32, 64, 128}
  {}

  /** A power-of-two group larger than the chosen local count does not come out even only if padding fits nowhere. */
  lemma LargeGroups(heads: nat, groups: nat, per: nat, tp: nat)
    requires Grouped(heads, groups, per) && tp > 0 && per in {1, 2, 4, 8, 16, 32, 64, 128}
    requires !Splits(NextLegal(FirstLocal(heads, groups, tp)), per)
    ensures Splits(NextLegal(FirstLocal(heads, groups, tp)) * tp, per)
  {
    hide CeilTo, FirstLocal, NextLegal;
    NextIsLegal(FirstLocal(heads, groups, tp));
    var local := FirstLocal(heads, groups, tp);
    var target := NextLegal(local);
    assert target < per && local <= target by { LargerThanTarget(local, per); }
    if heads % tp != 0 {
      var q := RoundedLocal(heads, groups, per, tp);
    } else {
      hide Legal, PowerOfTwo, Splits;
      WholeLocal(heads, groups, tp);
      Positive(groups, per);
      LegalIsPower(per);
      LegalIsPower(target);
      var c := PowerDivides(per, tp, local, target, groups);
      assert target * tp == c * per;
      DoesSplit(c, per);
    }
  }

  lemma LargerThanTarget(local: nat, per: nat)
    requires per in {1, 2, 4, 8, 16, 32, 64, 128} && !Splits(NextLegal(local), per)
    ensures NextLegal(local) < per && local <= NextLegal(local)
  {}

  lemma LegalIsPower(p: nat)
    requires p in {1, 2, 4, 8, 16, 32, 64, 128}
    ensures PowerOfTwo(p)
  {
    assert PowerOfTwo(1) && PowerOfTwo(2) && PowerOfTwo(4) && PowerOfTwo(8) && PowerOfTwo(16);
    assert PowerOfTwo(32) && PowerOfTwo(64) && PowerOfTwo(128);
  }

  /** If the chosen local count is not whole groups, the result does not fit. */
  lemma UnevenDoesNotFit(heads: nat, groups: nat, per: nat, tp: nat)
    requires Grouped(heads, groups, per) && tp > 0 && !Splits(NextLegal(FirstLocal(heads, groups, tp)), per)
    ensures var (h, g) := PadHeads(heads, groups, tp); !Fits(h, g, per, tp)
  {
    hide CeilTo, FirstLocal, NextLegal, Legal, PadHeads, Regrouped;
    var (h, g) := PadHeads(heads, groups, tp);
    PadWays(heads, groups, per, tp);
    var local := FirstLocal(heads, groups, tp);
    if Fits(h, g, per, tp) {
      var c: nat := ExactShare(g, tp);
      if !Legal(local) && !Splits(NextLegal(local) * tp, per) {
        RegroupedUp(NextLegal(local) * tp, per, tp, c);
        LegalPowers(per, c);
        LargeGroups(heads, groups, per, tp);
      } else if !Legal(local) {
        RegroupedKeeps(NextLegal(local) * tp, per, tp);
        NoWholeGroups(tp, NextLegal(local), per, c);
      } else {
        NextOfLegal(local);
        if heads % tp != 0 {
          var q := RoundedLocal(heads, groups, per, tp);
          DoesSplit(q, per);
        } else {
          WholeLocal(heads, groups, tp);
          NoWholeGroups(tp, local, per, c);
        }
      }
    }
  }

  lemma ExactShare(g: nat, tp: nat) returns (c: nat)
    requires tp > 0 && g % tp == 0
    ensures g == tp * c
  {
    DivNat(g, tp);
    c := g / tp;
  }

  lemma RegroupedKeeps(h: nat, per: nat, tp: nat)
    requires per > 0 && tp > 0 && Splits(h, per)
    ensures Regrouped(h, per, tp).0 == h
  {
    DivNat(h, per);
  }

  /** Groups rounded up to the ranks leave a local count of whole groups. */
  lemma RegroupedUp(h: nat, per: nat, tp: nat, c: nat)
    requires per > 0 && tp > 0 && !Splits(h, per) && Regrouped(h, per, tp).1 == tp * c
    ensures Regrouped(h, per, tp).0 == tp * (per * c) && Regrouped(h, per, tp).0 / tp == per * c
  {
    hide CeilTo;
    DivNat(h, per);
    assert h == per * (h / per) + h % per;
    Regroup3(tp, c, per);
    DivIs(tp * (per * c), tp, per * c, 0);
  }

  // ---------- what padding guarantees ----------

  /**
   * The padded counts keep the group size, divide by the ranks and have a kernel for the local head count
   * exactly if whole groups fill the chosen local count; then they never shrink exactly if the heads are
   * within the largest local count. Groups of 1, 2, 4 or 8 always fill it.
   */
  lemma PaddedFits(heads: nat, groups: nat, per: nat, tp: nat)
    requires Grouped(heads, groups, per) && tp > 0
    ensures var (h, g) := PadHeads(heads, groups, tp);
      && (Fits(h, g, per, tp) <==> Splits(NextLegal(FirstLocal(heads, groups, tp)), per))
      && (Fits(h, g, per, tp) ==> (heads <= h && groups <= g <==> heads <= MAX_LOCAL * tp))
    ensures per in {1, 2, 4, 8} ==> Splits(NextLegal(FirstLocal(heads, groups, tp)), per)
  {
    hide CeilTo, FirstLocal, PadHeads, Fits;
    var target := NextLegal(FirstLocal(heads, groups, tp));
    if Splits(target, per) {
      EvenFits(heads, groups, per, tp);
    } else {
      UnevenDoesNotFit(heads, groups, per, tp);
    }
    if per in {1, 2, 4, 8} { SmallGroupsSplit(target, per); }
  }

  lemma EvenFits(heads: nat, groups: nat, per: nat, tp: nat)
    requires Grouped(heads, groups, per) && tp > 0 && Splits(NextLegal(FirstLocal(heads, groups, tp)), per)
    ensures var (h, g) := PadHeads(heads, groups, tp);
      Fits(h, g, per, tp) && (heads <= h && groups <= g <==> heads <= MAX_LOCAL * tp)
  {
    hide CeilTo, FirstLocal, PadHeads, Fits, Legal, NextLegal;
    var local := FirstLocal(heads, groups, tp);
    var target := NextLegal(local);
    NextIsLegal(local);
    var parts := SplitsInto(target, per);
    PadGivesLegal(heads, groups, per, tp, parts);
    ShareFits(parts, per, tp);
    LargestSplits(target, per);
    WithinLimit(heads, groups, per, tp, MAX_LOCAL);
    Regroup3(tp, parts, per);
    CompareScaled(groups, tp * parts, per);
    NotShrunk(heads, groups, per, tp, local, target);
  }

  lemma LargestSplits(target: nat, per: nat)
    requires Legal(target) && per > 0 && Splits(target, per)
    ensures Splits(MAX_LOCAL, per)
  {
    var parts := SplitsInto(target, per);
    var more := 128 / target;
    Regroup3(more, parts, per);
    DoesSplit(more * parts, per);
  }

  lemma NotShrunk(heads: nat, groups: nat, per: nat, tp: nat, local: nat, target: nat)
    requires Grouped(heads, groups, per) && tp > 0 && local == FirstLocal(heads, groups, tp) &&
      target == NextLegal(local)
    requires local <= MAX_LOCAL <==> heads <= MAX_LOCAL * tp
    ensures heads <= tp * target <==> heads <= MAX_LOCAL * tp
  {
    hide CeilTo, FirstLocal;
    CompareScaled(local, target, tp);
    CompareScaled(target, MAX_LOCAL, tp);
    if heads % tp != 0 {
      var q := RoundedLocal(heads, groups, per, tp);
      CompareScaled(groups, q * tp, per);
      Regroup3(tp, q, per);
    } else {
      WholeLocal(heads, groups, tp);
    }
  }

  /**
   * No smaller head count would do: every legal local count of whole groups that holds the heads is at least
   * the chosen one.
   */
  lemma PaddingIsLeast(heads: nat, groups: nat, per: nat, tp: nat, l: nat)
    requires Grouped(heads, groups, per) && tp > 0 && Splits(NextLegal(FirstLocal(heads, groups, tp)), per)
    requires Legal(l) && Splits(l, per) && heads <= l * tp
    ensures PadHeads(heads, groups, tp).0 <= l * tp
  {
    hide CeilTo, FirstLocal, PadHeads;
    var target := NextLegal(FirstLocal(heads, groups, tp));
    WithinLimit(heads, groups, per, tp, l);
    assert target <= l;
    var parts := SplitsInto(target, per);
    PadGivesLegal(heads, groups, per, tp, parts);
    CompareScaled(target, l, tp);
  }

  /** The first count is legal, or the chosen heads of all ranks are whole groups. */
  predicate ComesOutEven(heads: nat, groups: nat, per: nat, tp: nat)
    requires tp > 0 && groups > 0 && per > 0
  {
    var local := FirstLocal(heads, groups, tp);
    Legal(local) || Splits(NextLegal(local) * tp, per)
  }

  /** Counts of whole groups whose heads divide into a legal local count are left alone. */
  lemma LegalIsKept(heads: nat, groups: nat, per: nat, tp: nat, local: nat)
    requires Grouped(heads, groups, per) && tp > 0 && heads == tp * local && Legal(local)
    ensures PadHeads(heads, groups, tp) == (heads, groups)
  {
    hide CeilTo, Regrouped;
    DivIs(tp * local, tp, local, 0);
    PerIs(heads, groups, per);
  }

  /** Where the groups come out even the first pass leaves nothing to do. */
  lemma EvenIsKept(heads: nat, groups: nat, per: nat, tp: nat)
    requires Grouped(heads, groups, per) && tp > 0 && ComesOutEven(heads, groups, per, tp)
    ensures var (h, g) := PadHeads(heads, groups, tp); PadHeads(h, g, tp) == (h, g)
  {
    hide CeilTo, FirstLocal, PadHeads, Legal, NextLegal, Regrouped;
    PadWays(heads, groups, per, tp);
    var local := FirstLocal(heads, groups, tp);
    if !Legal(local) {
      var target := NextLegal(local);
      NextIsLegal(local);
      Positive(target, tp);
      var g := SplitsInto(target * tp, per);
      RegroupedEven(target * tp, per, tp, g);
      LegalIsKept(target * tp, g, per, tp, target);
    } else if heads % tp != 0 {
      var q := RoundedLocal(heads, groups, per, tp);
      Positive(q, tp);
      LegalIsKept(q * tp * per, q * tp, per, tp, local);
    } else {
      WholeLocal(heads, groups, tp);
      LegalIsKept(heads, groups, per, tp, local);
    }
  }

  // ---------- the second pass, where the groups were rounded up ----------

  /** Groups of each rank when `target` heads a rank are not whole groups. */
  function UnevenShare(target: nat, per: nat, tp: nat): (c: nat)
    requires per > 0 && tp > 0
  {
    DivNat(target * tp, per);
    DivNat(CeilTo(target * tp / per, tp), tp);
    CeilTo(target * tp / per, tp) / tp
  }

  /**
   * A rank with `c` groups has a legal local count, or the next legal one is not whole groups either and makes
   * no further group.
   */
  predicate Settled(c: nat, per: nat, tp: nat)
    requires per > 0 && tp > 0
  {
    Legal(c * per) || (!Splits(NextLegal(c * per) * tp, per) && NextLegal(c * per) * tp < (c * tp + 1) * per)
  }

  /** What the first pass leaves. */
  lemma UnevenResult(heads: nat, groups: nat, per: nat, tp: nat)
    requires Grouped(heads, groups, per) && tp > 0 && !ComesOutEven(heads, groups, per, tp)
    ensures var c := UnevenShare(NextLegal(FirstLocal(heads, groups, tp)), per, tp);
      PadHeads(heads, groups, tp) == (tp * c * per, tp * c)
  {
    hide CeilTo, FirstLocal, PadHeads, Legal, NextLegal;
    PadWays(heads, groups, per, tp);
    var target := NextLegal(FirstLocal(heads, groups, tp));
    UnevenBounds(target, per, tp);
    EvenSplit(target * tp, per);
  }

  lemma EvenSplit(h: nat, per: nat)
    requires per > 0 && !Splits(h, per)
    ensures h / per * per != h
  {
    if h / per * per == h {
      DivNat(h, per);
      DoesSplit(h / per, per);
    }
  }

  /** The rounded groups of all ranks, between the exact quotient and one more a rank. */
  lemma UnevenBounds(target: nat, per: nat, tp: nat)
    requires per > 0 && tp > 0
    ensures var c, f := UnevenShare(target, per, tp), target * tp / per;
      f >= 0 && CeilTo(f, tp) == tp * c && f <= tp * c < f + tp
  {
    DivNat(target * tp, per);
    var q := CeilIsProduct(target * tp / per, tp);
    hide CeilTo;
    DivIs(q * tp, tp, q, 0);
  }

  /** Rounding up gives `c` groups a rank for every quotient in that range. */
  lemma RoundsTo(f: nat, tp: nat, c: nat)
    requires tp > 0 && tp * c < f + tp
    ensures CeilTo(f, tp) == tp * c <==> f <= tp * c
  {
    var q := CeilIsProduct(f, tp);
    if f <= tp * c {
      SameMultiple(q, c, tp, f);
    }
  }

  lemma SameMultiple(q: nat, c: nat, d: nat, f: nat)
    requires d > 0 && f <= q * d < f + d && f <= d * c < f + d
    ensures q == c
  {
    assert q * d - d * c == d * (q - c);
    MulAtLeast(d, q - c);
  }

  /** A nonzero share is more than half the local count it stands for, so its next legal count is not smaller. */
  lemma ShareIsHalf(target: nat, per: nat, tp: nat)
    requires per > 0 && tp > 0 && Legal(target) && UnevenShare(target, per, tp) > 0
    ensures NextLegal(UnevenShare(target, per, tp) * per) >= target
  {
    hide CeilTo, UnevenShare, NextLegal;
    var c, f := UnevenShare(target, per, tp), target * tp / per;
    UnevenBounds(target, per, tp);
    MulAtLeast(tp, c);
    assert target * tp == per * f + target * tp % per;
    TwiceAbove(target * tp, f, tp * c, per);
    Regroup3(tp, c, per);
    TwiceMore(target, c * per, tp);
    HalfLegal(c * per, target);
  }

  lemma TwiceAbove(x: nat, f: nat, n: nat, per: nat)
    requires per > 0 && 1 <= f <= n && x < per * f + per
    ensures x < 2 * (n * per)
  {
    CompareScaled(1, f, per);
    CompareScaled(f, n, per);
  }

  lemma TwiceMore(a: nat, b: nat, d: nat)
    requires d > 0 && a * d < 2 * (d * b)
    ensures a < 2 * b
  {
    assert 2 * (d * b) == (2 * b) * d;
    CompareScaled(2 * b, a, d);
  }

  lemma HalfLegal(local: nat, target: nat)
    requires Legal(target) && target < 2 * local
    ensures NextLegal(local) >= target
  {}

  /** The second pass starts from whole groups that the ranks share. */
  lemma SecondPass(c: nat, per: nat, tp: nat)
    requires c > 0 && per > 0 && tp > 0
    ensures PadHeads(tp * c * per, tp * c, tp) ==
      if Legal(c * per) then (tp * c * per, tp * c) else Regrouped(NextLegal(c * per) * tp, per, tp)
  {
    hide CeilTo, PadHeads, Legal, NextLegal, Regrouped, FirstLocal;
    Regroup3(tp, c, per);
    Positive(tp, c);
    PadWays(tp * c * per, tp * c, per, tp);
    SharedLocal(c, per, tp);
    DivIs(tp * (c * per), tp, c * per, 0);
  }

  lemma SharedLocal(c: nat, per: nat, tp: nat)
    requires c > 0 && per > 0 && tp > 0 && tp * c > 0
    ensures FirstLocal(tp * c * per, tp * c, tp) == c * per
  {
    hide CeilTo;
    Regroup3(tp, c, per);
    DivIs(tp * (c * per), tp, c * per, 0);
  }

  /** Regrouping the next legal count gives the same groups exactly if it makes no further one. */
  lemma RegroupsSame(target: nat, next: nat, per: nat, tp: nat, c: nat)
    requires per > 0 && tp > 0 && c == UnevenShare(target, per, tp) && next >= target && next != c * per
    ensures Regrouped(next * tp, per, tp) == (tp * c * per, tp * c)
            <==> !Splits(next * tp, per) && next * tp < (c * tp + 1) * per
  {
    hide CeilTo, UnevenShare;
    UnevenBounds(target, per, tp);
    DivNat(next * tp, per);
    var f, more: nat := target * tp / per, next * tp / per;
    assert f <= more by {
      CompareScaled(target, next, tp);
      DivMonotone(target * tp, next * tp, per);
    }
    assert next * tp == per * more + next * tp % per;
    if Splits(next * tp, per) {
      if next * tp == tp * c * per {
        Regroup3(tp, c, per);
        SameFactor(next, c * per, tp);
      }
    } else {
      EvenSplit(next * tp, per);
      RoundsTo(more, tp, c);
      BelowNext(next * tp, per, more, c * tp);
    }
  }

  lemma BelowNext(h: nat, per: nat, q: nat, n: nat)
    requires per > 0 && per * q <= h < per * q + per
    ensures q <= n <==> h < (n + 1) * per
  {
    if q <= n {
      CompareScaled(q, n, per);
      assert (n + 1) * per == n * per + per;
    } else {
      CompareScaled(n + 1, q, per);
    }
  }

  /** A share of no group at all is settled. */
  lemma NoShareSettles(target: nat, per: nat, tp: nat)
    requires per > 0 && tp > 0 && Legal(target) && UnevenShare(target, per, tp) == 0
    ensures Settled(0, per, tp)
  {
    hide CeilTo, UnevenShare;
    UnevenBounds(target, per, tp);
    assert target * tp == per * (target * tp / per) + target * tp % per;
    assert 0 * per == 0 && 0 * tp == 0;
    CompareScaled(8, target, tp);
    assert 0 < 8 * tp < per;
    DivIs(8 * tp, per, 0, 8 * tp);
  }

  /**
   * Padding twice is padding once exactly if the groups come out even, or the share they were rounded up to
   * is settled.
   */
  lemma IdempotentExactly(heads: nat, groups: nat, per: nat, tp: nat)
    requires Grouped(heads, groups, per) && tp > 0
    ensures var (h, g) := PadHeads(heads, groups, tp);
      PadHeads(h, g, tp) == (h, g) <==>
        || ComesOutEven(heads, groups, per, tp)
        || Settled(UnevenShare(NextLegal(FirstLocal(heads, groups, tp)), per, tp), per, tp)
  {
    if ComesOutEven(heads, groups, per, tp) {
      EvenIsKept(heads, groups, per, tp);
    } else {
      UnevenResult(heads, groups, per, tp);
      var target := NextLegal(FirstLocal(heads, groups, tp));
      NextIsLegal(FirstLocal(heads, groups, tp));
      var c := UnevenShare(target, per, tp);
      hide CeilTo, FirstLocal, PadHeads, Legal, NextLegal, UnevenShare, Splits, Regrouped;
      if c == 0 {
        NoShareSettles(target, per, tp);
        assert tp * c == 0 && tp * c * per == 0;
        NothingToPad(tp);
      } else {
        SecondPass(c, per, tp);
        if !Legal(c * per) {
          ShareIsHalf(target, per, tp);
          NextIsLegal(c * per);
          RegroupsSame(target, NextLegal(c * per), per, tp, c);
        }
      }
    }
  }

  lemma NothingToPad(tp: nat)
    requires tp > 0
    ensures PadHeads(0, 0, tp) == (0, 0)
  {}

  /** A fitting result always comes out even. */
  lemma FittingComesOutEven(heads: nat, groups: nat, per: nat, tp: nat)
    requires Grouped(heads, groups, per) && tp > 0 && Splits(NextLegal(FirstLocal(heads, groups, tp)), per)
    ensures ComesOutEven(heads, groups, per, tp)
  {
    hide CeilTo, FirstLocal;
    var target := NextLegal(FirstLocal(heads, groups, tp));
    var parts := SplitsInto(target, per);
    Regroup3(tp, parts, per);
    DoesSplit(tp * parts, per);
  }

  /** Groups of three over two ranks: the second pass changes what the first one made. */
  lemma PaddingNotIdempotent()
    ensures PadHeads(3, 1, 2) == (18, 6) && PadHeads(18, 6, 2) == (30, 10)
  {}

  /** Over three ranks 64 heads in groups of eight become 96: 24 local heads have no kernel, 32 have. */
  lemma PaddedModel()
    ensures PadHeads(64, 8, 3) == (96, 12)
  {}

  /** 1024 heads in groups of eight over three ranks shrink to 384. */
  lemma PaddingShrinks()
    ensures PadHeads(1024, 128, 3) == (384, 48)
  {}

  // ---------- the config object ----------

  /** A model configuration. */
  class Config {
    var heads: nat
    var groups: nat
    var draftExperts: nat
    var visionHeads: nat

    constructor (heads: nat, groups: nat, draftExperts: nat, visionHeads: nat)
      ensures this.heads == heads && this.groups == groups
      ensures this.draftExperts == draftExperts && this.visionHeads == visionHeads
    {
      this.heads, this.groups, this.draftExperts, this.visionHeads := heads, groups, draftExperts, visionHeads;
    }

    /** `pad_dsv41_hf_config`. */
    method Pad(tp: nat)
      requires tp > 0
      modifies this
      ensures (heads, groups) == PadHeads(old(heads), old(groups), tp)
      ensures draftExperts == CeilTo(old(draftExperts), tp) && visionHeads == CeilTo(old(visionHeads), tp)
    {
      hide PadHeads, CeilTo;
      DivIs(0, tp, 0, 0);
      CeilExact(draftExperts, tp);
      CeilExact(visionHeads, tp);
      var (h, g) := PadHeads(heads, groups, tp);
      if h != heads || g != groups { heads, groups := h, g; }
      if draftExperts != 0 && draftExperts % tp != 0 { draftExperts := CeilTo(draftExperts, tp); }
      if visionHeads != 0 && visionHeads % tp != 0 { visionHeads := CeilTo(visionHeads, tp); }
    }

    /** The model wrapper pads the configuration twice; this says when the second pass finds nothing to do. */
    method PadTwice(tp: nat, ghost per: nat)
      requires tp > 0 && Grouped(heads, groups, per)
      modifies this
      ensures var (h, g) := PadHeads(old(heads), old(groups), tp); (heads, groups) == PadHeads(h, g, tp)
      ensures (heads, groups) == PadHeads(old(heads), old(groups), tp) <==>
        || ComesOutEven(old(heads), old(groups), per, tp)
        || Settled(UnevenShare(NextLegal(FirstLocal(old(heads), old(groups), tp)), per, tp), per, tp)
      ensures draftExperts == CeilTo(old(draftExperts), tp) && visionHeads == CeilTo(old(visionHeads), tp)
    {
      IdempotentExactly(heads, groups, per, tp);
      CeilIsLeast(draftExperts, tp);
      CeilIsLeast(visionHeads, tp);
      CeilExact(CeilTo(draftExperts, tp), tp);
      CeilExact(CeilTo(visionHeads, tp), tp);
      hide PadHeads, CeilTo, ComesOutEven, Settled, UnevenShare, FirstLocal;
      Pad(tp);
      Pad(tp);
    }
  }

  /** A multiple rounds to itself. */
  lemma CeilExact(n: nat, d: nat)
    requires d > 0
    ensures n % d == 0 ==> CeilTo(n, d) == n
  {
    if n % d == 0 {
      DivNat(n, d);
      DivIs(n + d - 1, d, n / d, d - 1);
    }
  }
}
