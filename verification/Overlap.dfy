/** Peak client overlap of a benchmark burst, by a sorted sweep. */
module Overlap {
  /** A request emits tokens from `first` until it has `finished`. */
  datatype Interval = Interval(first: real, finished: real) {
    predicate Valid() { first <= finished }

    predicate Contains(t: real) { first <= t < finished }
  }

  type Event = (real, int)

  /** How many intervals contain time `t`. */
  function At(intervals: seq<Interval>, t: real): nat {
    if intervals == [] then 0
    else At(intervals[1..], t) + if intervals[0].Contains(t) then 1 else 0
  }

  function Starts(intervals: seq<Interval>): (r: seq<Event>)
    ensures |r| == |intervals| && forall i :: 0 <= i < |r| ==> r[i].1 == 1
  {
    if intervals == [] then [] else [(intervals[0].first, 1)] + Starts(intervals[1..])
  }

  function Ends(intervals: seq<Interval>): (r: seq<Event>)
    ensures |r| == |intervals| && forall i :: 0 <= i < |r| ==> r[i].1 == -1
  {
    if intervals == [] then [] else [(intervals[0].finished, -1)] + Ends(intervals[1..])
  }

  /** Tuple order: by time, an end before a start at equal times. */
  predicate Before(a: Event, b: Event) {
    a.0 < b.0 || (a.0 == b.0 && a.1 <= b.1)
  }

  predicate Sorted(events: seq<Event>) {
    forall i, j :: 0 <= i < j < |events| ==> Before(events[i], events[j])
  }

  /** The deltas of the first `k` events, added up. */
  function Prefix(events: seq<Event>, k: nat): int
    requires k <= |events|
  {
    if k == 0 then 0 else Prefix(events, k - 1) + events[k - 1].1
  }

  /** The deltas of the events up to time `t`, wherever they stand. */
  function Net(events: seq<Event>, t: real): int {
    if events == [] then 0 else Net(events[1..], t) + if events[0].0 <= t then events[0].1 else 0
  }

  // ---------- the order of the events does not matter to Net ----------

  lemma {:induction false} NetSplit(a: seq<Event>, b: seq<Event>, t: real)
    ensures Net(a + b, t) == Net(a, t) + Net(b, t)
  {
    if a == [] {
      assert a + b == b;
    } else {
      assert (a + b)[1..] == a[1..] + b;
      NetSplit(a[1..], b, t);
    }
  }

  /** Taking one event out. */
  lemma TakeOut(b: seq<Event>, j: nat, t: real) returns (rest: seq<Event>)
    requires j < |b|
    ensures multiset(b) == multiset{b[j]} + multiset(rest)
    ensures Net(b, t) == Net(rest, t) + Net([b[j]], t)
  {
    rest := b[..j] + b[j + 1..];
    assert b == b[..j] + ([b[j]] + b[j + 1..]);
    NetSplit(b[..j], [b[j]] + b[j + 1..], t);
    NetSplit([b[j]], b[j + 1..], t);
    NetSplit(b[..j], b[j + 1..], t);
  }

  lemma {:induction false} NetIgnoresOrder(a: seq<Event>, b: seq<Event>, t: real)
    requires multiset(a) == multiset(b)
    ensures Net(a, t) == Net(b, t)
    decreases |a|
  {
    if a == [] {
      assert |multiset(b)| == 0;
    } else {
      assert a[0] in multiset(b);
      var j :| 0 <= j < |b| && b[j] == a[0];
      var aRest := TakeOut(a, 0, t);
      var bRest := TakeOut(b, j, t);
      assert multiset(aRest) == multiset(a) - multiset{a[0]} && |multiset(a)| == 1 + |multiset(aRest)|;
      assert multiset(bRest) == multiset(b) - multiset{a[0]};
      NetIgnoresOrder(aRest, bRest, t);
    }
  }

  /** Starts minus ends up to `t` is the number of intervals that contain `t`. */
  lemma {:induction false} NetIsOverlap(intervals: seq<Interval>, t: real)
    requires forall i :: 0 <= i < |intervals| ==> intervals[i].Valid()
    ensures Net(Starts(intervals), t) + Net(Ends(intervals), t) == At(intervals, t)
  {
    if intervals != [] {
      NetIsOverlap(intervals[1..], t);
      assert Starts(intervals)[1..] == Starts(intervals[1..]) && Ends(intervals)[1..] == Ends(intervals[1..]);
    }
  }

  // ---------- on sorted events, Net is a prefix ----------

  lemma {:induction false} NetPast(events: seq<Event>, t: real)
    requires forall i :: 0 <= i < |events| ==> events[i].0 > t
    ensures Net(events, t) == 0
  {
    if events != [] { NetPast(events[1..], t); }
  }

  lemma {:induction false} NetPrefix(events: seq<Event>, k: nat, t: real)
    requires k <= |events| && forall i :: 0 <= i < k ==> events[i].0 <= t
    ensures Net(events[..k], t) == Prefix(events, k)
  {
    if k > 0 {
      NetPrefix(events, k - 1, t);
      assert events[..k] == events[..k - 1] + [events[k - 1]];
      NetSplit(events[..k - 1], [events[k - 1]], t);
      NetOne(events[k - 1], t);
    }
  }

  lemma NetOne(e: Event, t: real)
    ensures Net([e], t) == if e.0 <= t then e.1 else 0
  {}

  /** The events up to `t` are a prefix of the sorted list. */
  lemma {:induction false} Reached(events: seq<Event>, n: nat, t: real) returns (k: nat)
    requires Sorted(events) && n <= |events| && forall i :: n <= i < |events| ==> events[i].0 > t
    ensures k <= n && Net(events, t) == Prefix(events, k)
  {
    if n > 0 && events[n - 1].0 > t {
      k := Reached(events, n - 1, t);
    } else {
      k := n;
      assert forall i :: 0 <= i < n ==> Before(events[i], events[n - 1]);
      NetPrefix(events, n, t);
      NetPast(events[n..], t);
      assert events == events[..n] + events[n..];
      NetSplit(events[..n], events[n..], t);
    }
  }

  /** Starts left over at the time of a start only add to it. */
  lemma {:induction false} NetAtLeast(events: seq<Event>, t: real)
    requires forall i :: 0 <= i < |events| && events[i].0 <= t ==> events[i].1 >= 0
    ensures Net(events, t) >= 0
  {
    if events != [] { NetAtLeast(events[1..], t); }
  }

  /** Every running count of the sweep is at most the overlap at some time. */
  lemma {:induction false} PrefixIsReached(events: seq<Event>, k: nat) returns (t: real)
    requires Sorted(events) && k <= |events| && forall i :: 0 <= i < |events| ==> events[i].1 in {-1, 1}
    ensures k == 0 || Prefix(events, k) <= Net(events, t) || Prefix(events, k) <= 0
  {
    t := 0.0;
    if k > 0 && events[k - 1].1 == -1 {
      t := PrefixIsReached(events, k - 1);
    } else if k > 0 {
      t := events[k - 1].0;
      forall i | 0 <= i < k ensures events[i].0 <= t {
        assert i < k - 1 ==> Before(events[i], events[k - 1]);
      }
      NetPrefix(events, k, t);
      forall i | 0 <= i < |events[k..]| && events[k..][i].0 <= t ensures events[k..][i].1 >= 0 {
        assert Before(events[k - 1], events[k + i]);
      }
      NetAtLeast(events[k..], t);
      assert events == events[..k] + events[k..];
      NetSplit(events[..k], events[k..], t);
    }
  }

  // ---------- the sweep ----------

  /** `peak` is the greatest running count, the one before the first event included. */
  ghost predicate GreatestCount(spans: seq<Event>, peak: int) {
    && (forall k :: 0 <= k <= |spans| ==> Prefix(spans, k) <= peak)
    && exists k :: 0 <= k <= |spans| && Prefix(spans, k) == peak
  }

  /** The source's loop over the sorted events. */
  method Sweep(spans: seq<Event>) returns (peak: int)
    ensures GreatestCount(spans, peak)
  {
    var active := 0;
    peak := 0;
    assert Prefix(spans, 0) == 0;
    for i := 0 to |spans|
      invariant active == Prefix(spans, i)
      invariant forall k :: 0 <= k <= i ==> Prefix(spans, k) <= peak
      invariant exists k :: 0 <= k <= i && Prefix(spans, k) == peak
    {
      active := active + spans[i].1;
      if active > peak {
        peak := active;
        assert Prefix(spans, i + 1) == peak;
      }
    }
  }

  lemma NetOfSpans(intervals: seq<Interval>, spans: seq<Event>, t: real)
    requires forall i :: 0 <= i < |intervals| ==> intervals[i].Valid()
    requires multiset(spans) == multiset(Starts(intervals) + Ends(intervals))
    ensures Net(spans, t) == At(intervals, t)
  {
    NetIgnoresOrder(spans, Starts(intervals) + Ends(intervals), t);
    NetSplit(Starts(intervals), Ends(intervals), t);
    NetIsOverlap(intervals, t);
  }

  lemma DeltasAreUnits(intervals: seq<Interval>, spans: seq<Event>)
    requires multiset(spans) == multiset(Starts(intervals) + Ends(intervals))
    ensures forall i :: 0 <= i < |spans| ==> spans[i].1 in {-1, 1}
  {
    forall i | 0 <= i < |spans| ensures spans[i].1 in {-1, 1} {
      assert spans[i] in multiset(spans);
      assert spans[i] in Starts(intervals) + Ends(intervals);
    }
  }

  /** No time is contained in more than `peak` intervals, and some time is contained in as many. */
  ghost predicate IsPeak(intervals: seq<Interval>, peak: int) {
    (forall t: real :: At(intervals, t) <= peak) && (exists t: real :: At(intervals, t) == peak)
  }

  /**
   * The sweep's answer is exactly the greatest number of half-open intervals containing one time: no time
   * has more, and some time has as many. Equal timestamps and empty intervals are included.
   */
  lemma {:induction false} SweepFindsPeak(intervals: seq<Interval>, spans: seq<Event>, peak: int)
    requires forall i :: 0 <= i < |intervals| ==> intervals[i].Valid()
    requires Sorted(spans) && multiset(spans) == multiset(Starts(intervals) + Ends(intervals))
    requires GreatestCount(spans, peak)
    ensures IsPeak(intervals, peak)
  {
    DeltasAreUnits(intervals, spans);
    forall t: real ensures At(intervals, t) <= peak {
      NetOfSpans(intervals, spans, t);
      var k := Reached(spans, |spans|, t);
    }
    var k :| 0 <= k <= |spans| && Prefix(spans, k) == peak;
    assert Prefix(spans, 0) <= peak;
    var t := PrefixIsReached(spans, k);
    NetOfSpans(intervals, spans, t);
    assert At(intervals, t) == peak;
  }
}
