/** Interleaved ownership of tokens by ranks: runs of `interleave` tokens dealt to the ranks in turn. */
module Striping {
  import opened Arith

  /** The rank that stores token `t`. */
  function Owner(t: nat, world: nat, interleave: nat): (r: nat)
    requires world > 0 && interleave > 0
    ensures r < world
  {
    DivNat(t, interleave);
    t / interleave % world
  }

  /** The place of token `t` among the tokens its owner stores. */
  function Local(t: nat, world: nat, interleave: nat): nat
    requires world > 0 && interleave > 0
  {
    Stride(world, interleave);
    DivNat(t, world * interleave);
    t / (world * interleave) * interleave + t % interleave
  }

  /** The token stored at place `l` of rank `r`. */
  function Global(r: nat, l: nat, world: nat, interleave: nat): nat
    requires world > 0 && interleave > 0
  {
    DivNat(l, interleave);
    l / interleave * (world * interleave) + r * interleave + l % interleave
  }

  function Clamp(x: int, hi: nat): nat {
    if x < 0 then 0 else if x < hi then x else hi
  }

  /** How many of the first `length` tokens rank `r` stores, as `local_count` computes it. */
  function LocalCount(length: nat, r: nat, world: nat, interleave: nat): nat
    requires world > 0 && interleave > 0
  {
    Stride(world, interleave);
    DivNat(length, world * interleave);
    var base := length / (world * interleave) * interleave;
    base + Clamp(length - base * world - r * interleave, interleave)
  }

  lemma Stride(world: nat, interleave: nat)
    requires world > 0 && interleave > 0
    ensures world * interleave > 0
  {}

  // ---------- the three digits of a token id ----------

  /** Token `t` is in round `q`, at place `e` of the run of rank `r`. */
  predicate Digits(t: nat, world: nat, interleave: nat, q: nat, r: nat, e: nat) {
    r < world && e < interleave && t == q * (world * interleave) + r * interleave + e
  }

  lemma RunFits(r: nat, world: nat, interleave: nat)
    requires r < world
    ensures r * interleave + interleave <= world * interleave
  {
    assert world * interleave - r * interleave == interleave * (world - r);
    if interleave > 0 { MulAtLeast(interleave, world - r); }
  }

  lemma RunStart(q: nat, world: nat, interleave: nat, r: nat)
    ensures q * (world * interleave) + r * interleave == interleave * (q * world + r)
  {}

  /** The digits determine owner and place. */
  lemma DigitsGive(t: nat, world: nat, interleave: nat, q: nat, r: nat, e: nat)
    requires Digits(t, world, interleave, q, r, e)
    ensures Owner(t, world, interleave) == r && Local(t, world, interleave) == q * interleave + e
  {
    var stride := world * interleave;
    RunFits(r, world, interleave);
    DivIs(t, stride, q, r * interleave + e);
    RunStart(q, world, interleave, r);
    DivIs(t, interleave, q * world + r, e);
    DivIs(q * world + r, world, q, r);
  }

  /** Every token id has digits. */
  lemma HasDigits(t: nat, world: nat, interleave: nat) returns (q: nat, r: nat, e: nat)
    requires world > 0 && interleave > 0
    ensures Digits(t, world, interleave, q, r, e)
  {
    DivNat(t, interleave);
    var run: nat := t / interleave;
    DivNat(run, world);
    q, r, e := run / world, run % world, t % interleave;
    assert t == interleave * run + e;
    assert run == world * q + r;
    assert interleave * (world * q + r) == q * (world * interleave) + r * interleave;
  }

  /** Ownership is a bijection, one direction: the place of a token leads back to it. */
  lemma TokenRoundTrip(t: nat, world: nat, interleave: nat)
    requires world > 0 && interleave > 0
    ensures Global(Owner(t, world, interleave), Local(t, world, interleave), world, interleave) == t
  {
    var q, r, e := HasDigits(t, world, interleave);
    DigitsGive(t, world, interleave, q, r, e);
    DivIs(q * interleave + e, interleave, q, e);
  }

  /** Ownership is a bijection, the other direction: the token at a place is stored at that place. */
  lemma PlaceRoundTrip(r: nat, l: nat, world: nat, interleave: nat)
    requires r < world && interleave > 0
    ensures Owner(Global(r, l, world, interleave), world, interleave) == r
    ensures Local(Global(r, l, world, interleave), world, interleave) == l
  {
    DivNat(l, interleave);
    var q: nat := l / interleave;
    DigitsGive(Global(r, l, world, interleave), world, interleave, q, r, l % interleave);
  }

  // ---------- counting ----------

  /** The whole rounds of a length and what is left of the last one. */
  predicate Rounds(n: nat, world: nat, interleave: nat, rounds: nat, rest: nat) {
    n == rounds * (world * interleave) + rest && rest < world * interleave
  }

  lemma HasRounds(n: nat, world: nat, interleave: nat) returns (rounds: nat, rest: nat)
    requires world > 0 && interleave > 0
    ensures Rounds(n, world, interleave, rounds, rest)
  {
    Stride(world, interleave);
    DivNat(n, world * interleave);
    rounds, rest := n / (world * interleave), n % (world * interleave);
  }

  /** `local_count` is the whole rounds plus what the last round reaches of the rank. */
  lemma CountGives(n: nat, world: nat, interleave: nat, r: nat, rounds: nat, rest: nat)
    requires world > 0 && interleave > 0 && Rounds(n, world, interleave, rounds, rest)
    ensures LocalCount(n, r, world, interleave) == rounds * interleave + Clamp(rest - r * interleave, interleave)
  {
    DivIs(n, world * interleave, rounds, rest);
    assert rounds * interleave * world == rounds * (world * interleave);
  }

  lemma Scaled(a: nat, b: nat, d: nat)
    requires a < b
    ensures a * d + d <= b * d
  {
    assert (b - a) * d == b * d - a * d;
    assert (b - a - 1) * d >= 0;
  }

  /** Rank `r` stores a token below `n` exactly when its place is below the rank's count. */
  lemma BelowCount(t: nat, n: nat, world: nat, interleave: nat)
    requires world > 0 && interleave > 0
    ensures t < n <==> Local(t, world, interleave) < LocalCount(n, Owner(t, world, interleave), world, interleave)
  {
    var q, r, e := HasDigits(t, world, interleave);
    DigitsGive(t, world, interleave, q, r, e);
    var rounds, rest := HasRounds(n, world, interleave);
    CountGives(n, world, interleave, r, rounds, rest);
    Scaled(r, world, interleave);
    DigitsBelow(q, r, e, rounds, rest, world * interleave, interleave);
  }

  lemma DigitsBelow(q: nat, r: nat, e: nat, rounds: nat, rest: nat, stride: nat, interleave: nat)
    requires e < interleave && rest < stride && r * interleave + interleave <= stride
    ensures q * stride + r * interleave + e < rounds * stride + rest
            <==> q * interleave + e < rounds * interleave + Clamp(rest - r * interleave, interleave)
  {
    if q < rounds {
      Scaled(q, rounds, stride);
      Scaled(q, rounds, interleave);
    } else if q > rounds {
      Scaled(rounds, q, stride);
      Scaled(rounds, q, interleave);
    }
  }

  /** The counts of ranks 0 .. k - 1. */
  function CountSum(n: nat, k: nat, world: nat, interleave: nat): nat
    requires world > 0 && interleave > 0
  {
    if k == 0 then 0 else CountSum(n, k - 1, world, interleave) + LocalCount(n, k - 1, world, interleave)
  }

  /** The first `k` ranks hold their whole rounds and what the last round reaches of them. */
  lemma {:induction false} PartialSum(n: nat, k: nat, world: nat, interleave: nat, rounds: nat, rest: nat)
    requires world > 0 && interleave > 0 && Rounds(n, world, interleave, rounds, rest)
    ensures CountSum(n, k, world, interleave) == k * (rounds * interleave) + Clamp(rest, k * interleave)
  {
    hide Rounds, LocalCount;
    if k == 0 {
      assert k * (rounds * interleave) == 0 && k * interleave == 0;
    } else {
      PartialSum(n, k - 1, world, interleave, rounds, rest);
      CountGives(n, world, interleave, k - 1, rounds, rest);
      AddOne(k - 1, interleave);
      AddOne(k - 1, rounds * interleave);
      ClampStep(rest, (k - 1) * interleave, interleave);
    }
  }

  lemma AddOne(k: nat, x: nat)
    ensures (k + 1) * x == k * x + x && k * x >= 0
  {}

  lemma ClampStep(rest: nat, a: nat, i: nat)
    ensures Clamp(rest, a) + Clamp(rest - a, i) == Clamp(rest, a + i)
  {}

  /** No token is lost or stored twice: the ranks' counts add up to the length. */
  lemma CountsConserve(n: nat, world: nat, interleave: nat)
    requires world > 0 && interleave > 0
    ensures CountSum(n, world, world, interleave) == n
  {
    hide CountSum;
    var rounds, rest := HasRounds(n, world, interleave);
    PartialSum(n, world, world, interleave, rounds, rest);
    Regroup(world, rounds, interleave);
  }

  lemma Regroup(a: nat, b: nat, c: nat)
    ensures a * (b * c) == b * (a * c)
  {}

  /** A longer sequence leaves no rank with fewer tokens. */
  lemma CountGrows(m: nat, n: nat, r: nat, world: nat, interleave: nat)
    requires r < world && interleave > 0 && m <= n
    ensures LocalCount(m, r, world, interleave) <= LocalCount(n, r, world, interleave)
  {
    var l := LocalCount(n, r, world, interleave);
    PlaceRoundTrip(r, l, world, interleave);
    BelowCount(Global(r, l, world, interleave), n, world, interleave);
    BelowCount(Global(r, l, world, interleave), m, world, interleave);
  }

  /** Rank 0 never stores fewer tokens than another rank. */
  lemma RankZeroLargest(n: nat, r: nat, world: nat, interleave: nat)
    requires r < world && interleave > 0
    ensures LocalCount(n, r, world, interleave) <= LocalCount(n, 0, world, interleave)
  {
    var l := LocalCount(n, 0, world, interleave);
    PlaceRoundTrip(0, l, world, interleave);
    PlaceRoundTrip(r, l, world, interleave);
    BelowCount(Global(0, l, world, interleave), n, world, interleave);
    BelowCount(Global(r, l, world, interleave), n, world, interleave);
    assert r * interleave >= 0 * interleave;
  }
}
