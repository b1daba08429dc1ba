/** The contiguous row ranges [N*r/tp, N*(r+1)/tp) given to the ranks. */
module RankRanges {
  import opened Arith

  /** First row of rank `r`; rank `r` owns [Start(r), Start(r + 1)). */
  function Start(rows: nat, r: nat, tp: nat): nat
    requires tp > 0
  {
    DivNat(rows * r, tp);
    rows * r / tp
  }

  predicate Owns(rows: nat, tp: nat, r: nat, id: nat)
    requires tp > 0
  {
    Start(rows, r, tp) <= id < Start(rows, r + 1, tp)
  }

  lemma StartMonotone(rows: nat, r: nat, q: nat, tp: nat)
    requires r <= q && tp > 0
    ensures Start(rows, r, tp) <= Start(rows, q, tp)
  {
    assert rows * r <= rows * q;
    DivMonotone(rows * r, rows * q, tp);
  }

  /** A boundary is the exact share, rounded down. */
  lemma StartIsFloor(rows: nat, r: nat, tp: nat)
    requires tp > 0
    ensures Start(rows, r, tp) * tp <= rows * r < Start(rows, r, tp) * tp + tp
  {
    assert rows * r == tp * (rows * r / tp) + rows * r % tp;
  }

  lemma RangeInside(rows: nat, r: nat, tp: nat)
    requires r < tp
    ensures Start(rows, r, tp) <= Start(rows, r + 1, tp) <= rows
  {
    StartMonotone(rows, r, r + 1, tp);
    StartMonotone(rows, r + 1, tp, tp);
    Ends(rows, tp);
  }

  lemma Ends(rows: nat, tp: nat)
    requires tp > 0
    ensures Start(rows, 0, tp) == 0 && Start(rows, tp, tp) == rows
  {
    assert rows * 0 == 0;
    DivIs(0, tp, 0, 0);
    DivIs(rows * tp, tp, rows, 0);
  }

  /** Range sizes of any two ranks differ by at most one row. */
  lemma Balanced(rows: nat, tp: nat, r: nat)
    requires tp > 0
    ensures rows / tp <= Start(rows, r + 1, tp) - Start(rows, r, tp) <= rows / tp + 1
  {
    var a, b := rows * r, rows * (r + 1);
    Distribute(rows, r, 1);
    DivNat(a, tp);
    DivNat(rows, tp);
    Carry(a, rows, tp, a / tp, a % tp, rows / tp, rows % tp);
  }

  /** Adding `n` to `a` adds their quotients, plus one if the remainders overflow. */
  lemma Carry(a: nat, n: nat, d: nat, x: nat, y: nat, q: nat, m: nat)
    requires d > 0 && y < d && m < d && a == d * x + y && n == d * q + m
    ensures (a + n) / d == if y + m < d then x + q else x + q + 1
  {
    Distribute(d, x, q);
    Distribute(d, x + q, 1);
    if y + m < d {
      DivIs(a + n, d, x + q, y + m);
    } else {
      DivIs(a + n, d, x + q + 1, y + m - d);
    }
  }

  /** Some rank below `tp` owns each row. */
  lemma {:induction false} SomeOwner(rows: nat, tp: nat, id: nat, upTo: nat) returns (r: nat)
    requires tp > 0 && upTo <= tp && id < Start(rows, upTo, tp)
    ensures r < upTo && Owns(rows, tp, r, id)
  {
    if upTo == 0 {
      Ends(rows, tp);
      assert false;
    } else if Start(rows, upTo - 1, tp) <= id {
      r := upTo - 1;
    } else {
      r := SomeOwner(rows, tp, id, upTo - 1);
    }
  }

  /** Exactly one rank owns each row of the table. */
  lemma OneOwner(rows: nat, tp: nat, id: nat) returns (r: nat)
    requires tp > 0 && id < rows
    ensures r < tp && Owns(rows, tp, r, id)
    ensures forall q: nat :: q != r ==> !Owns(rows, tp, q, id)
  {
    Ends(rows, tp);
    r := SomeOwner(rows, tp, id, tp);
    forall q: nat | q != r ensures !Owns(rows, tp, q, id) {
      if q < r {
        StartMonotone(rows, q + 1, r, tp);
      } else {
        StartMonotone(rows, r + 1, q, tp);
      }
    }
  }
}
