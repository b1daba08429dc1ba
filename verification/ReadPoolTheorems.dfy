/** Guarantees of the read pool over whole runs: what a gather holds, that it ends, and what breaks it. */
module ReadPoolTheorems {
  import opened Common
  import opened Arith
  import opened ReadPool
  import opened ReadPoolSafety

  // ---------- what a gather holds ----------

  /**
   * As long as the caller's own slice never raised with helpers out: every gather that raised nothing has
   * each row whose read reached the row's end, and zeros where nothing is owned; if no read fell short it
   * is filled. Between gathers no permit and no running worker is left over.
   */
  lemma GathersAreFilled(s: Pool, actions: seq<Action>, t: Pool)
    requires Init(s) && Run(s, actions, t) && !t.wild
    ensures forall i :: 0 <= i < |t.past| && t.past[i].outcome == Filled ==>
      Kept(t.past[i].job) && (t.past[i].job.owed == Wants(t.past[i].job.rows) ==> AllFilled(t.past[i].job))
    ensures t.caller == Idle ==> Quiet(t.f, t.workers)
  {
    RunKeeps(s, actions, t);
    forall i | 0 <= i < |t.past| && t.past[i].outcome == Filled
      ensures Kept(t.past[i].job) && (t.past[i].job.owed == Wants(t.past[i].job.rows) ==> AllFilled(t.past[i].job))
    {
      assert ReturnOk(t.past[i]);
      if t.past[i].job.owed == Wants(t.past[i].job.rows) { KeptIsFilled(t.past[i].job); }
    }
  }

  /** Nothing raised so far. */
  predicate NothingRaised(s: Pool) {
    && (s.caller != Idle ==> !s.f.error)
    && (forall w :: 0 <= w < |s.workers| ==> !s.workers[w].pc.Failed?)
    && (forall i :: 0 <= i < |s.past| ==> s.past[i].outcome == Filled)
  }

  lemma QuietStep(s: Pool, a: Action)
    requires NothingRaised(s) && Enabled(s, a) && !a.CallerRaise? && !a.WorkerRaise?
    ensures NothingRaised(Apply(s, a))
  {
    hide RowRead.Received, RowRead.Whole, Wants, StepSize, Stored;
  }

  /** A gather raises only after some read raised: over every run without an exception, none does. */
  lemma {:induction false} RaisesOnlyIfReadsDo(s: Pool, actions: seq<Action>, t: Pool)
    requires NothingRaised(s) && Run(s, actions, t)
    requires forall i :: 0 <= i < |actions| ==> !actions[i].CallerRaise? && !actions[i].WorkerRaise?
    ensures NothingRaised(t)
    decreases |actions|
  {
    hide NothingRaised;
    if actions != [] {
      QuietStep(s, actions[0]);
      RaisesOnlyIfReadsDo(Apply(s, actions[0]), actions[1..], t);
    }
  }

  lemma InitIsQuiet(s: Pool)
    requires Init(s)
    ensures NothingRaised(s)
  {}

  /** The read an action makes reaches the end of its row. */
  predicate WholeRead(s: Pool, a: Action)
    requires Enabled(s, a)
  {
    match a
    case CallerRead(count, _) => s.job.rows[s.caller.k].value.Whole(count)
    case WorkerRead(w, count, _) => s.job.rows[s.workers[w].pc.k].value.Whole(count)
    case _ => true
  }

  predicate AllWhole(s: Pool, actions: seq<Action>)
    decreases |actions|
  {
    actions == [] || (Enabled(s, actions[0]) && WholeRead(s, actions[0]) &&
      AllWhole(Apply(s, actions[0]), actions[1..]))
  }

  /** Nothing read so far fell short. */
  predicate NothingShort(s: Pool) {
    && (s.caller != Idle ==> s.job.owed == Wants(s.job.rows))
    && (s.caller.OwnCopy? ==> s.caller.got.whole)
    && (forall w :: 0 <= w < |s.workers| && s.workers[w].pc.Copying? ==> s.workers[w].pc.got.whole)
    && (forall i :: 0 <= i < |s.past| ==> s.past[i].job.owed == Wants(s.past[i].job.rows))
  }

  lemma WholeStep(s: Pool, a: Action)
    requires NothingShort(s) && Enabled(s, a) && WholeRead(s, a)
    ensures NothingShort(Apply(s, a))
  {
    hide RowRead.Received, RowRead.Whole, Wants, StepSize;
  }

  lemma {:induction false} WholeRun(s: Pool, actions: seq<Action>, t: Pool)
    requires NothingShort(s) && Run(s, actions, t) && AllWhole(s, actions)
    ensures NothingShort(t)
    decreases |actions|
  {
    hide NothingShort;
    if actions != [] {
      WholeStep(s, actions[0]);
      WholeRun(Apply(s, actions[0]), actions[1..], t);
    }
  }

  /** If every read of the run reached the end of its row, every gather that raised nothing is filled. */
  lemma WholeReadsFill(s: Pool, actions: seq<Action>, t: Pool)
    requires Init(s) && Run(s, actions, t) && !t.wild && AllWhole(s, actions)
    ensures forall i :: 0 <= i < |t.past| && t.past[i].outcome == Filled ==> AllFilled(t.past[i].job)
  {
    GathersAreFilled(s, actions, t);
    WholeRun(s, actions, t);
  }

  lemma WholeRunOwesAll(s: Pool, actions: seq<Action>, t: Pool, g: nat)
    requires Init(s) && Run(s, actions, t) && AllWhole(s, actions) && g < |t.past|
    ensures t.past[g].job.owed == Wants(t.past[g].job.rows)
  {
    WholeRun(s, actions, t);
  }

  /** When a gather ends, the slices 1..helpers were drawn once each, in whatever order permits woke workers. */
  lemma EachSliceOnce(s: Pool, actions: seq<Action>, t: Pool)
    requires Init(s) && Run(s, actions, t) && !t.wild
    requires t.caller == Wait && Enabled(t, CallerStep)
    ensures t.f.claim == t.helpers + 1 && |t.job.owner| == t.helpers && Quiet(t.f, t.workers)
  {
    RunKeeps(s, actions, t);
    AllThrough(t);
  }

  // ---------- a short read is not noticed ----------

  /**
   * A gather of one row whose read leaves anything but the row: it raises nothing and returns those bytes.
   */
  lemma ShortReadLosesRow(r: RowRead, zero: Bytes, count: nat, prior: Bytes) returns (s: Pool, actions: seq<Action>,
      t: Pool)
    requires |prior| == |r.want| == |zero| && r.Received(count, prior) != r.want
    ensures Init(s) && Run(s, actions, t) && !t.wild && |t.past| == 1 && t.past[0].outcome == Filled
    ensures t.past[0].job.rows == [Some(r)] && t.past[0].job.dst == [r.Received(count, prior)]
    ensures !AllFilled(t.past[0].job)
  {
    hide Run;
    s := Pool(Fields(0, 1, 0, false, 0, false), Job(0, [], zero, [], [], []), 0, Idle, [], [], false);
    NoSteps(s);
    DivIs(1, 1, 1, 0);
    actions, t := Then(s, [], s, Publish([Some(r)], zero));
    actions, t := Then(s, actions, t, CallerStep);
    actions, t := Then(s, actions, t, CallerRead(count, prior));
    actions, t := Then(s, actions, t, CallerStep);
    actions, t := Then(s, actions, t, CallerStep);
    actions, t := Then(s, actions, t, CallerStep);
  }

  // ---------- every gather ends ----------

  /** While a gather is out, some thread can step: the done event cannot be missed. */
  lemma NeverStuck(s: Pool) returns (a: Action)
    requires Inv(s) && s.caller != Idle
    ensures Enabled(s, a) && !a.Publish? && !a.CallerRaise? && !a.WorkerRaise? && WholeRead(s, a)
  {
    if Enabled(s, CallerStep) {
      a := CallerStep;
    } else if s.caller.OwnSlice? {
      var r := s.job.rows[s.caller.k].value;
      a := CallerRead(r.lead + |r.want|, r.want);
    } else {
      SumZero(s.workers, Busy);
      if w :| 0 <= w < |s.workers| && s.workers[w].pc != Parked {
        a := OwnMove(s, w);
      } else {
        a := OwnMove(s, 0);
      }
    }
  }

  /** What worker `w` does next when no read raises or falls short. */
  function OwnMove(s: Pool, w: nat): (a: Action)
    requires w < |s.workers| && (s.workers[w].pc == Parked ==> s.f.permits > 0)
    ensures Enabled(s, a) && (a.WorkerStep? || a.WorkerRead?) && a.k == w && WholeRead(s, a)
  {
    if AtRow(s, w) then
      var r := s.job.rows[s.workers[w].pc.k].value;
      WorkerRead(w, r.lead + |r.want|, r.want)
    else WorkerStep(w)
  }

  function Left(k: nat, hi: nat): nat { if k < hi then hi - k else 0 }

  /** Steps a thread still has to take for the slice it is at. */
  function Weight(step: nat, pc: Pc): nat {
    match pc
    case Parked => 0
    case Tally => 1
    case Failed(_) => 2
    case Reading(_, k, hi) => 3 + 2 * Left(k, hi)
    case Copying(_, k, hi, _) => 4 + 2 * Left(k + 1, hi)
    case Claimed(_) => 4 + 2 * step
    case Acquired => 5 + 2 * step
  }

  function WeightIn(step: nat): Worker -> nat { (t: Worker) => Weight(step, t.pc) }

  function CallerWeight(step: nat, c: Caller): nat {
    match c
    case Idle => 0
    case Wait => 1
    case OwnSlice(k, hi) => 2 + 2 * Left(k, hi)
    case OwnCopy(k, hi, _) => 3 + 2 * Left(k + 1, hi)
    case Release(more) => 3 + 2 * step + more * (7 + 2 * step)
  }

  function Measure(s: Pool): nat {
    CallerWeight(s.f.step, s.caller) + s.f.permits * (6 + 2 * s.f.step) + Sum(s.workers, WeightIn(s.f.step))
  }

  lemma MoveShrinks(s: Pool, r: Pool, w: nat)
    requires w < |s.workers| == |r.workers| && r.workers == s.workers[w := r.workers[w]]
    requires r.caller == s.caller && r.f.step == s.f.step && r.f.permits == s.f.permits
    requires Weight(s.f.step, r.workers[w].pc) < Weight(s.f.step, s.workers[w].pc)
    ensures Measure(r) < Measure(s)
  {
    SumUpdate(s.workers, w, r.workers[w], WeightIn(s.f.step));
  }

  lemma AcquireShrinks(s: Pool, w: nat)
    requires WorkerEnabled(s, w) && s.workers[w].pc == Parked
    ensures Measure(DoAcquire(s, w)) < Measure(s)
  {
    SumUpdate(s.workers, w, DoAcquire(s, w).workers[w], WeightIn(s.f.step));
    OneLess(s.f.permits, 6 + 2 * s.f.step);
  }

  lemma WorkerShrinks(s: Pool, a: Action, w: nat)
    requires Enabled(s, a) && (a == WorkerStep(w) || (a.WorkerRead? && a.k == w) || a == WorkerRaise(w))
    ensures Measure(Apply(s, a)) < Measure(s)
  {
    hide Stored, Measure;
    if s.workers[w].pc == Parked {
      AcquireShrinks(s, w);
    } else {
      MoveShrinks(s, Apply(s, a), w);
    }
  }

  lemma OneLess(n: nat, c: nat)
    requires n > 0
    ensures n * c == (n - 1) * c + c
  {}

  lemma CallerShrinks(s: Pool, a: Action)
    requires Enabled(s, a) && (a.CallerStep? || a.CallerRead? || a.CallerRaise?)
    ensures Measure(Apply(s, a)) < Measure(s)
  {
    hide Stored;
    if s.caller.Release? && s.caller.more > 0 {
      OneLess(s.caller.more, 7 + 2 * s.f.step);
      OneLess(s.f.permits + 1, 6 + 2 * s.f.step);
    }
  }

  /** Every step but publishing a gather shrinks the measure. */
  lemma StepShrinks(s: Pool, a: Action)
    requires Enabled(s, a) && !a.Publish?
    ensures Measure(Apply(s, a)) < Measure(s)
  {
    hide Measure;
    match a
    case WorkerStep(w) => WorkerShrinks(s, a, w);
    case WorkerRead(w, _, _) => WorkerShrinks(s, a, w);
    case WorkerRaise(w) => WorkerShrinks(s, a, w);
    case _ => CallerShrinks(s, a);
  }

  /**
   * Every gather ends: under any schedule, with any reads and exceptions, only boundedly many steps follow
   * its publication, and when no step is left the caller has returned.
   */
  lemma {:induction false} GatherEnds(s: Pool, actions: seq<Action>, t: Pool)
    requires Inv(s) && Run(s, actions, t) && !t.wild
    requires forall i :: 0 <= i < |actions| ==> !actions[i].Publish?
    ensures |actions| + Measure(t) <= Measure(s)
    ensures t.caller == Idle || exists a :: Enabled(t, a) && !a.Publish?
    decreases |actions|
  {
    hide Measure, Inv;
    if actions != [] {
      var a := actions[0];
      StepShrinks(s, a);
      var r := Apply(s, a);
      if r.wild { WildStays(r, actions[1..], t); }
      ApplyKeeps(s, a);
      GatherEnds(r, actions[1..], t);
    } else if t.caller != Idle {
      var a := NeverStuck(t);
    }
  }

  // ---------- putting runs together ----------

  /** One more step at the end of a run. */
  lemma {:induction false} Then(s: Pool, actions: seq<Action>, m: Pool, a: Action) returns (more: seq<Action>, t: Pool)
    requires Run(s, actions, m) && Enabled(m, a)
    ensures more == actions + [a] && t == Apply(m, a) && Run(s, more, t)
    decreases |actions|
  {
    more, t := actions + [a], Apply(m, a);
    if actions != [] {
      var rest, _ := Then(Apply(s, actions[0]), actions[1..], m, a);
      assert more[1..] == rest;
    }
  }

  lemma {:induction false} Append(s: Pool, actions: seq<Action>, m: Pool, more: seq<Action>, t: Pool)
    requires Run(s, actions, m) && Run(m, more, t)
    ensures Run(s, actions + more, t)
    decreases |actions|
  {
    if actions == [] {
      assert actions + more == more;
    } else {
      Append(Apply(s, actions[0]), actions[1..], m, more, t);
      assert (actions + more)[1..] == actions[1..] + more;
    }
  }

  lemma NoSteps(s: Pool)
    ensures Run(s, [], s)
  {}

  // ---------- the exception that is not joined ----------

  /** What worker `w` has before it until its tally. */
  ghost function ToTally(s: Pool, w: nat): nat
    requires w < |s.workers|
  {
    if s.workers[w].pc == Parked then 6 + 2 * s.f.step else Weight(s.f.step, s.workers[w].pc)
  }

  /** One step of worker `w` towards its tally. */
  lemma WalkMove(s: Pool, w: nat) returns (a: Action, t: Pool)
    requires s.caller == Idle && w < |s.workers| && s.workers[w].pc != Tally &&
      (s.workers[w].pc == Parked ==> s.f.permits > 0)
    ensures Enabled(s, a) && t == Apply(s, a) && t.caller == Idle && t.past == s.past && t.wild == s.wild
    ensures |t.workers| == |s.workers| && t.workers[w].pc != Parked && ToTally(t, w) < ToTally(s, w)
  {
    hide Stored;
    a := OwnMove(s, w);
    t := Apply(s, a);
  }

  lemma Before(s: Pool, a: Action, actions: seq<Action>, t: Pool)
    requires Enabled(s, a) && Run(Apply(s, a), actions, t)
    ensures Run(s, [a] + actions, t)
  {
    assert ([a] + actions)[1..] == actions;
  }

  /** Walks worker `w`, and nobody else, to its tally while the caller is idle. */
  lemma {:induction false} WalkToTally(s: Pool, w: nat) returns (actions: seq<Action>, t: Pool)
    requires s.caller == Idle && w < |s.workers| && (s.workers[w].pc == Parked ==> s.f.permits > 0)
    ensures Run(s, actions, t) && t.caller == Idle && t.past == s.past && t.wild == s.wild
    ensures |t.workers| == |s.workers| && t.workers[w].pc == Tally
    decreases ToTally(s, w)
  {
    hide *;
    if s.workers[w].pc == Tally {
      NoSteps(s);
      actions, t := [], s;
    } else {
      var a, m := WalkMove(s, w);
      actions, t := WalkToTally(m, w);
      Before(s, a, actions, t);
      actions := [a] + actions;
    }
  }

  /** With helpers out and not through, some worker is at work or a permit waits for one. */
  lemma LateWorker(s: Pool) returns (w: nat)
    requires Inv(s) && s.caller.OwnSlice? && s.helpers > 0 && !s.f.done
    ensures w < |s.workers| && (s.workers[w].pc == Parked ==> s.f.permits > 0)
  {
    SumZero(s.workers, Busy);
    if v :| 0 <= v < |s.workers| && s.workers[v].pc != Parked {
      w := v;
    } else {
      w := 0;
    }
  }

  /** Publishing a gather of two equal rows: slices are one row long, and one permit is released. */
  lemma PublishTwo(s: Pool, row: RowRead, zero: Bytes) returns (actions: seq<Action>, t: Pool)
    requires s.caller == Idle && |s.workers| > 0 && |row.want| == |zero|
    ensures Run(s, actions, t) && t.workers == s.workers && t.past == s.past && t.wild == s.wild
    ensures t.caller == OwnSlice(0, 1) && t.helpers == 1
    ensures t.f == Fields(1, 1, 1, false, s.f.permits + 1, false)
    ensures t.job == Job(s.job.serial + 1, [Some(row), Some(row)], zero, [zero, zero],
      [Some(row.want), Some(row.want)], [])
  {
    hide Run;
    DivIs(3, 2, 1, 1);
    NoSteps(s);
    actions, t := Then(s, [], s, Publish([Some(row), Some(row)], zero));
    assert t.f == Fields(1, 1, 1, false, s.f.permits, false) && t.caller == Release(1) && t.job.dst == [zero, zero];
    actions, t := Then(s, actions, t, CallerStep);
    actions, t := Then(s, actions, t, CallerStep);
  }

  /** A gather of two equal rows, published while worker `w` has yet to tally for the gather before. */
  lemma LateTallyEnds(s: Pool, w: nat, row: RowRead, zero: Bytes) returns (actions: seq<Action>, t: Pool)
    requires s.caller == Idle && w < |s.workers| && s.workers[w].pc == Tally
    requires |row.want| == |zero|
    ensures Run(s, actions, t) && t.wild == s.wild && |t.past| == |s.past| + 1 && s.past < t.past
    ensures t.past[|s.past|].outcome == Filled
    ensures var j := t.past[|s.past|].job;
      j.rows == [Some(row), Some(row)] && j.owed == Wants(j.rows) && j.zero == zero && |j.dst| == 2 && j.dst[1] == zero
  {
    hide Run, RowRead.Received;
    actions, t := PublishTwo(s, row, zero);
    actions, t := Then(s, actions, t, CallerRead(row.lead + |row.want|, zero));
    actions, t := Then(s, actions, t, CallerStep);
    actions, t := Then(s, actions, t, CallerStep);
    actions, t := Then(s, actions, t, WorkerStep(w));
    actions, t := Then(s, actions, t, CallerStep);
  }

  /**
   * Whenever the caller's own slice raises with helpers out, some continuation, with whole reads only and
   * no further such exception, has a gather that raises nothing and misses a row it read in no way short.
   */
  lemma RaiseAlwaysLoses(s: Pool, row: RowRead, zero: Bytes) returns (actions: seq<Action>, t: Pool)
    requires Inv(s) && s.caller.OwnSlice? && s.helpers > 0 && !s.f.done
    requires |row.want| == |zero| && row.want != zero
    ensures Run(DoCallerRaise(s).(wild := false), actions, t) && !t.wild && |t.past| == |s.past| + 2
    ensures var last := t.past[|s.past| + 1];
      last.outcome == Filled && last.job.owed == Wants(last.job.rows) && !Kept(last.job) && !AllFilled(last.job)
  {
    hide Run;
    var p := DoCallerRaise(s).(wild := false);
    var w := LateWorker(s);
    var walk, m := WalkToTally(p, w);
    var rest;
    rest, t := LateTallyEnds(m, w, row, zero);
    Append(p, walk, m, rest, t);
    actions := walk + rest;
  }

  /** No later gather that raises nothing misses a row, unless it was read short. */
  ghost predicate SafeFrom(p: Pool) {
    forall actions, t :: Run(p, actions, t) && !t.wild ==> forall i :: 0 <= i < |t.past| ==> ReturnOk(t.past[i])
  }

  /**
   * An exception of the caller's own slice, which does not wait for the helpers, is safe for later gathers
   * exactly when no helper is still out.
   */
  lemma RaiseIsSafeExactly(s: Pool)
    requires Inv(s) && s.caller.OwnSlice?
    ensures SafeFrom(DoCallerRaise(s).(wild := false)) <==> s.helpers == 0 || s.f.done
  {
    hide Run, Inv, ReturnOk;
    var p := DoCallerRaise(s).(wild := false);
    if s.helpers == 0 || s.f.done {
      JoinedRaiseKeeps(s);
      ForgetWild(DoCallerRaise(s));
      forall actions, t | Run(p, actions, t) && !t.wild ensures forall i :: 0 <= i < |t.past| ==> ReturnOk(t.past[i]) {
        RunKeeps(p, actions, t);
        PastIsOk(t);
      }
    } else {
      var actions, t := RaiseAlwaysLoses(s, RowRead([1], 0), [0]);
      LostIsNotOk(t.past[|s.past| + 1]);
    }
  }

  lemma ForgetWild(s: Pool)
    requires Inv(s)
    ensures Inv(s.(wild := false))
  {}

  lemma PastIsOk(s: Pool)
    requires Inv(s)
    ensures forall i :: 0 <= i < |s.past| ==> ReturnOk(s.past[i])
  {}

  lemma LostIsNotOk(r: Returned)
    requires r.outcome == Filled && !Kept(r.job)
    ensures !ReturnOk(r)
  {}

  /** The situation arises: with one worker and two rows, the caller's first read may raise at once. */
  lemma RaiseLosesRows(row: RowRead, zero: Bytes) returns (s: Pool, actions: seq<Action>, t: Pool)
    requires |row.want| == |zero| && row.want != zero
    ensures Init(s) && Run(s, actions, t)
    ensures |t.past| == 2 && t.past[0].outcome == Raised && t.past[1].outcome == Filled && !AllFilled(t.past[1].job)
    ensures t.past[1].job.owed == Wants(t.past[1].job.rows)
  {
    hide Run, Wants, RowRead.Received;
    s := Pool(Fields(0, 1, 0, false, 0, false), Job(0, [], zero, [], [], []), 0, Idle, [Worker(0, Parked)], [], false);
    actions, t := PublishTwo(s, row, zero);
    actions, t := Then(s, actions, t, CallerRaise);
    var walk, m := WalkToTally(t, 0);
    Append(s, actions, t, walk, m);
    actions, t := actions + walk, m;
    var rest, last := LateTallyEnds(t, 0, row, zero);
    Append(s, actions, t, rest, last);
    actions, t := actions + rest, last;
  }
}
