/** Anchored replacement: each anchor must occur exactly once, counted as the library counts it. */
module Replace {
  import opened Common

  type Bytes = seq<byte>

  predicate OccursAt(data: Bytes, pattern: Bytes, i: nat) {
    i + |pattern| <= |data| && data[i..i + |pattern|] == pattern
  }

  /** The first occurrence at or after `from`. */
  function Find(data: Bytes, pattern: Bytes, from: nat): Option<nat>
    decreases |data| - from
  {
    if from + |pattern| > |data| then None
    else if OccursAt(data, pattern, from) then Some(from)
    else if from < |data| then Find(data, pattern, from + 1)
    else None
  }

  /** bytes.count: occurrences found left to right without overlapping; the empty pattern fits everywhere. */
  function CountFrom(data: Bytes, pattern: Bytes, from: nat): nat
    requires pattern != []
    decreases |data| - from
  {
    var i := Find(data, pattern, from);
    if i.None? || i.value < from || i.value + |pattern| > |data| then 0
    else 1 + CountFrom(data, pattern, i.value + |pattern|)
  }

  function Count(data: Bytes, pattern: Bytes): nat {
    if pattern == [] then |data| + 1 else CountFrom(data, pattern, 0)
  }

  /** One replacement, refused unless the anchor is found exactly once. */
  function Step(data: Bytes, before: Bytes, after: Bytes): Option<Bytes> {
    if Count(data, before) != 1 then None
    else
      var i := Find(data, before, 0);
      if i.Some? && i.value + |before| <= |data| then Some(data[..i.value] + after + data[i.value + |before|..])
      else Some(data)
  }

  lemma {:induction false} FindFirst(data: Bytes, pattern: Bytes, from: nat)
    ensures match Find(data, pattern, from)
      case Some(i) => from <= i && OccursAt(data, pattern, i) && forall j :: from <= j < i ==>
        !OccursAt(data, pattern, j)
      case None => forall j :: from <= j ==> !OccursAt(data, pattern, j)
    decreases |data| - from
  {
    if from + |pattern| <= |data| && !OccursAt(data, pattern, from) && from < |data| {
      FindFirst(data, pattern, from + 1);
    }
  }

  /** A count of one: the first occurrence is the only one apart from overlapping copies. */
  lemma CountOne(data: Bytes, pattern: Bytes)
    ensures Count(data, pattern) == 1 ==>
      Find(data, pattern, 0).Some? && OccursAt(data, pattern, Find(data, pattern, 0).value)
    ensures Count(data, pattern) == 1 && pattern != [] ==>
      forall j :: Find(data, pattern, 0).value + |pattern| <= j ==> !OccursAt(data, pattern, j)
  {
    FindFirst(data, pattern, 0);
    if Count(data, pattern) == 1 && pattern != [] {
      var i := Find(data, pattern, 0).value;
      FindFirst(data, pattern, i + |pattern|);
      assert CountFrom(data, pattern, i + |pattern|) == 0;
    }
  }

  /** Conversely an anchor that occurs nowhere past its first copy is counted once. */
  lemma OneIsCounted(data: Bytes, pattern: Bytes, i: nat)
    requires pattern != [] && OccursAt(data, pattern, i)
    requires forall j: nat :: j < i || i + |pattern| <= j ==> !OccursAt(data, pattern, j)
    ensures Count(data, pattern) == 1
  {
    FindFirst(data, pattern, 0);
    FindFirst(data, pattern, i + |pattern|);
    assert Find(data, pattern, i + |pattern|).None?;
    assert CountFrom(data, pattern, i + |pattern|) == 0;
  }

  // ---------- undoing one replacement ----------

  /** The replaced text is found again, once, and in its own place. */
  predicate StepClean(data: Bytes, before: Bytes, after: Bytes) {
    var next := Step(data, before, after);
    next.Some? && Count(next.value, after) == 1 && Find(next.value, after, 0) == Find(data, before, 0)
  }

  lemma StepIs(data: Bytes, before: Bytes, after: Bytes) returns (i: nat)
    requires Step(data, before, after).Some?
    ensures Find(data, before, 0) == Some(i) && OccursAt(data, before, i)
    ensures Step(data, before, after).value == data[..i] + after + data[i + |before|..]
    ensures OccursAt(Step(data, before, after).value, after, i)
    ensures forall j :: 0 <= j < i ==> !OccursAt(data, before, j)
  {
    CountOne(data, before);
    FindFirst(data, before, 0);
    i := Find(data, before, 0).value;
  }

  /** Swapping the text back restores the data exactly when the new text is found once, in its own place. */
  lemma StepBackExactly(data: Bytes, before: Bytes, after: Bytes)
    requires Step(data, before, after).Some?
    ensures Step(Step(data, before, after).value, after, before) == Some(data) <==> StepClean(data, before, after)
  {
    var next := Step(data, before, after).value;
    var i := StepIs(data, before, after);
    if Step(next, after, before).Some? {
      var j := StepIs(next, after, before);
      if i == j {
        assert next[..i] == data[..i] && next[i + |after|..] == data[i + |before|..];
        assert data == data[..i] + before + data[i + |before|..];
      } else {
        assert OccursAt(next[..j] + before + next[j + |after|..], before, j);
      }
    }
  }

  /** No proper prefix of `pattern` is also its suffix, so two copies cannot overlap. */
  ghost predicate Unbordered(pattern: Bytes) {
    forall k :: 0 < k < |pattern| ==> pattern[k..] != pattern[..|pattern| - k]
  }

  /** Overlapping copies make a border. */
  lemma OverlapIsBorder(data: Bytes, pattern: Bytes, i: nat, j: nat)
    requires OccursAt(data, pattern, i) && OccursAt(data, pattern, j) && i < j < i + |pattern|
    ensures pattern[j - i..] == pattern[..|pattern| - (j - i)]
  {
    var k := j - i;
    forall m | 0 <= m < |pattern| - k ensures pattern[k..][m] == pattern[..|pattern| - k][m] {
      assert pattern[k + m] == data[i..i + |pattern|][k + m];
      assert pattern[m] == data[j..j + |pattern|][m];
    }
  }

  lemma CopiesApart(data: Bytes, pattern: Bytes, i: nat, j: nat)
    requires Unbordered(pattern) && OccursAt(data, pattern, i) && OccursAt(data, pattern, j) && i < j
    ensures i + |pattern| <= j
  {
    if j < i + |pattern| {
      OverlapIsBorder(data, pattern, i, j);
    }
  }

  /** With unbordered new text, undoing a replacement either fails or restores the data. */
  lemma StepBackOrError(data: Bytes, before: Bytes, after: Bytes)
    requires Step(data, before, after).Some? && Unbordered(after)
    ensures var back := Step(Step(data, before, after).value, after, before);
      back == None || back == Some(data)
  {
    var next := Step(data, before, after).value;
    var i := StepIs(data, before, after);
    StepBackExactly(data, before, after);
    if Step(next, after, before).Some? {
      var j := StepIs(next, after, before);
      CountOne(next, after);
      if j < i {
        CopiesApart(next, after, j, i);
      }
    }
  }

  // ---------- a list of replacements ----------

  type Swap = (Bytes, Bytes)

  /** All replacements in order, stopping at the first missing or ambiguous anchor. */
  function Transform(data: Bytes, swaps: seq<Swap>): Option<Bytes>
    decreases |swaps|
  {
    if swaps == [] then Some(data)
    else match Step(data, swaps[0].0, swaps[0].1)
      case None => None
      case Some(next) => Transform(next, swaps[1..])
  }

  /** The same replacements swapped back, last one first. */
  function Reverse(data: Bytes, swaps: seq<Swap>): Option<Bytes> {
    if swaps == [] then Some(data)
    else match Reverse(data, swaps[1..])
      case None => None
      case Some(next) => Step(next, swaps[0].1, swaps[0].0)
  }

  lemma {:induction false} ReverseStopped(data: Bytes, swaps: seq<Swap>, m: nat)
    requires m <= |swaps| && Reverse(data, swaps[m..]) == None
    ensures Reverse(data, swaps) == None
  {
    if m > 0 {
      assert swaps[m - 1..][1..] == swaps[m..];
      ReverseStopped(data, swaps, m - 1);
    } else {
      assert swaps[0..] == swaps;
    }
  }

  /** The source's loop, in both directions. */
  method ApplySwaps(original: Bytes, swaps: seq<Swap>, reverse: bool) returns (r: Option<Bytes>)
    ensures r == if reverse then Reverse(original, swaps) else Transform(original, swaps)
  {
    var data := original;
    var n := |swaps|;
    assert swaps[n..] == [] && swaps[0..] == swaps;
    for k := 0 to n
      invariant !reverse ==> Transform(original, swaps) == Transform(data, swaps[k..])
      invariant reverse ==> Reverse(original, swaps[n - k..]) == Some(data)
    {
      var (before, after) := if reverse then (swaps[n - 1 - k].1, swaps[n - 1 - k].0) else swaps[k];
      assert swaps[k..][1..] == swaps[k + 1..] && swaps[n - 1 - k..][1..] == swaps[n - k..];
      var next := Step(data, before, after);
      if next.None? {
        if reverse { ReverseStopped(original, swaps, n - 1 - k); }
        return None;
      }
      data := next.value;
    }
    r := Some(data);
  }

  /** Every step's new text is found once, in its own place. */
  predicate Clean(data: Bytes, swaps: seq<Swap>)
    decreases |swaps|
  {
    swaps == [] || (StepClean(data, swaps[0].0, swaps[0].1) &&
      Clean(Step(data, swaps[0].0, swaps[0].1).value, swaps[1..]))
  }

  /** A clean patch is undone: reversing the transformed data gives the original bytes. */
  lemma {:induction false} RoundTrip(data: Bytes, swaps: seq<Swap>)
    requires Clean(data, swaps)
    ensures Transform(data, swaps).Some? && Reverse(Transform(data, swaps).value, swaps) == Some(data)
    decreases |swaps|
  {
    if swaps != [] {
      var next := Step(data, swaps[0].0, swaps[0].1).value;
      RoundTrip(next, swaps[1..]);
      StepBackExactly(data, swaps[0].0, swaps[0].1);
    }
  }

  ghost predicate AllUnbordered(swaps: seq<Swap>) {
    forall k :: 0 <= k < |swaps| ==> Unbordered(swaps[k].1)
  }

  /**
   * With unbordered new texts, reversing never yields wrong bytes: it restores the original exactly when
   * every step was clean, and reports an error otherwise.
   */
  lemma {:induction false} RoundTripExactly(data: Bytes, swaps: seq<Swap>)
    requires AllUnbordered(swaps) && Transform(data, swaps).Some?
    ensures Reverse(Transform(data, swaps).value, swaps) == if Clean(data, swaps) then Some(data) else None
    decreases |swaps|
  {
    if swaps != [] {
      var next := Step(data, swaps[0].0, swaps[0].1).value;
      RoundTripExactly(next, swaps[1..]);
      StepBackExactly(data, swaps[0].0, swaps[0].1);
      StepBackOrError(data, swaps[0].0, swaps[0].1);
    }
  }

  /** With a bordered new text reversing can return other bytes without noticing. */
  lemma OverlapLosesBytes()
    ensures var before: Bytes, after: Bytes := [2], [0, 1, 0];
      && Transform([0, 1, 2], [(before, after)]) == Some([0, 1, 0, 1, 0])
      && Reverse([0, 1, 0, 1, 0], [(before, after)]) == Some([2, 1, 0])
  {
    var d: Bytes, before: Bytes, after: Bytes := [0, 1, 2], [2], [0, 1, 0];
    assert d[0..1] == [0] && d[1..2] == [1] && d[2..3] == [2];
    assert !OccursAt(d, before, 0) && !OccursAt(d, before, 1) && OccursAt(d, before, 2);
    FindFirst(d, before, 0);
    assert CountFrom(d, before, 3) == 0;
    var e: Bytes := [0, 1, 0, 1, 0];
    assert d[..2] + after + d[3..] == e;
    assert OccursAt(e, after, 0);
    assert CountFrom(e, after, 3) == 0;
    assert e[..0] + before + e[3..] == [2, 1, 0];
    assert [(before, after)][1..] == [];
  }
}
