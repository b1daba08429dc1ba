/** Guarantees of the worker pool over whole runs: what a return means, and that it comes. */
module PoolTheorems {
  import opened Common
  import opened RowFile
  import opened RowCache
  import opened RowStore
  import opened RowPool
  import opened PoolSafety

  // ---------- safety ----------

  /**
   * In every interleaving: each job whose run() returned had legal ids and got every expected row
   * written exactly once, nobody ever touched the buffers of another job, and outside run() no thread
   * is inside drain().
   */
  lemma ReturnedJobsAreServed(b: Shard, s: Pool, actions: seq<Action>, t: Pool)
    requires Init(b, s) && Run(b, s, actions, t)
    ensures !t.stale && forall j :: 0 <= j < |t.past| ==> JobDone(b, t.past[j])
    ensures t.f.caller == Idle ==> forall k :: 0 <= k < |t.threads| ==> t.threads[k].pc == Out
  {
    InitInv(b, s);
    RunKeeps(b, s, actions, t);
  }

  /** A worker counted in `active` means job_ still is the job that worker drains. */
  lemma ActiveMeansCurrent(b: Shard, s: Pool, actions: seq<Action>, t: Pool)
    requires Init(b, s) && Run(b, s, actions, t)
    ensures |t.threads| > 0 && t.f.active == Sum(t.threads, Inside) - Inside(t.threads[0])
    ensures t.f.active > 0 ==> t.f.job == Some(t.job.serial)
    ensures forall k :: 0 <= k < |t.threads| && t.threads[k].pc != Out ==> t.threads[k].work == t.job.serial
  {
    InitInv(b, s);
    RunKeeps(b, s, actions, t);
  }

  /** The ticket counter and the chunk count are reset only when nobody is inside drain(). */
  lemma ResetsAreUnobserved(b: Shard, s: Pool, actions: seq<Action>, t: Pool, ids: seq<int>, buffer: seq<Row>)
    requires Init(b, s) && Run(b, s, actions, t) && Enabled(b, t, Publish(ids, buffer))
    ensures forall k :: 0 <= k < |t.threads| ==> t.threads[k].pc == Out
    ensures t.f.remaining == 0 && t.f.active == 0
  {
    InitInv(b, s);
    RunKeeps(b, s, actions, t);
  }

  /** The cache never holds a wrong row, and hits and misses add up to the completed calls. */
  lemma CacheStaysExact(b: Shard, s: Pool, actions: seq<Action>, t: Pool)
    requires Init(b, s) && Run(b, s, actions, t)
    ensures t.shared.cache.Valid() && t.shared.cache.Transparent(b)
    ensures (forall k :: 0 <= k < |t.threads| ==> FillingIn(t.threads[k]) == 0)
      && (forall k :: 0 <= k < |t.outsiders| ==> FillingOutside(t.outsiders[k]) == 0)
      ==> t.shared.hits + t.shared.misses == t.shared.completed
  {
    InitInv(b, s);
    RunKeeps(b, s, actions, t);
    SumZero(t.threads, FillingIn);
    SumZero(t.outsiders, FillingOutside);
  }

  /** No step writes into the buffers of a job that returned, although a thread that held one could. */
  lemma StepKeepsPast(b: Shard, s: Pool, a: Action)
    requires Inv(b, s) && Enabled(b, s, a)
    ensures s.past <= Apply(b, s, a).past
  {
    hide Tickets, SharedOk, JobDone, Counters, Outsiders, Stats, StaleBegin, StaleWrite;
    match a
    case Step(k) => DrainKeepsPast(b, s, k);
    case _ =>
  }

  lemma DrainKeepsPast(b: Shard, s: Pool, k: nat)
    requires Inv(b, s) && StepEnabled(b, s, k)
    ensures Drain(b, s, k).past == s.past
  {
    hide SharedOk, JobDone, Counters, Outsiders, Stats, StaleBegin, StaleWrite;
    assert PcExact(b, s.job, s.threads[k].pc);
  }

  /** What a thread that still held a returned job would do to its buffers. */
  lemma StaleWriteSpoils(s: Pool, k: nat, at: nat)
    requires k < |s.threads| && s.threads[k].pc.Write? && s.threads[k].work != s.job.serial
    requires FindPast(s.past, s.threads[k].work) == Some(at) && at < |s.past|
    requires s.threads[k].pc.i < |s.past[at].out| && s.past[at].out[s.threads[k].pc.i] != s.threads[k].pc.row
    ensures !(s.past <= StepWrite(s, k).past)
  {
    assert StepWrite(s, k).past[at].out[s.threads[k].pc.i] == s.threads[k].pc.row;
  }

  /** The buffers of a job that returned stay as they were returned, under every continuation. */
  lemma {:induction false} PastIsFinal(b: Shard, s: Pool, actions: seq<Action>, t: Pool)
    requires Inv(b, s) && Run(b, s, actions, t)
    ensures s.past <= t.past
    decreases |actions|
  {
    hide Inv;
    if actions != [] {
      StepKeepsPast(b, s, actions[0]);
      ApplyKeeps(b, s, actions[0]);
      PastIsFinal(b, Apply(b, s, actions[0]), actions[1..], t);
    }
  }

  // ---------- run() returns ----------

  function Rank(pc: Pc): nat {
    match pc
    case Out => 0
    case Leave => 1
    case Claim => 2
    case Notify => 3
    case Tally => 4
    case Write(_, _) => 5
    case Fetch(_, _, Fetched(_)) => 6
    case Fetch(_, _, Filling(_)) => 7
    case Fetch(_, _, Reading) => 8
    case Fetch(_, _, Looking) => 9
    case Begin(_) => 10
  }

  function RankIn(t: Thread): nat { Rank(t.pc) }

  function Unseen(g: nat): Thread -> nat { (t: Thread) => if t.seen == g then 0 else 1 }

  function CallerRank(c: Caller): nat {
    match c
    case Draining => 3
    case Locking => 2
    case Checked => 1
    case _ => 0
  }

  /** Tickets still to draw, workers that may still wake, and the steps left to the threads inside. */
  function Measure(s: Pool): nat {
    if s.aborted then 0
    else
      1 + 64 * Unclaimed(s.f) + 64 * Sum(s.threads, Unseen(s.f.generation)) + 4 * Sum(s.threads, RankIn)
      + CallerRank(s.f.caller)
  }

  predicate Progresses(a: Action) { a.Wake? || a.Step? || a.Lock? || a.Check? }

  lemma MeasureAt(s: Pool, k: nat, t: Thread)
    requires k < |s.threads|
    ensures Sum(s.threads[k := t], RankIn) + RankIn(s.threads[k]) == Sum(s.threads, RankIn) + RankIn(t)
    ensures Sum(s.threads[k := t], Unseen(s.f.generation)) + Unseen(s.f.generation)(s.threads[k])
         == Sum(s.threads, Unseen(s.f.generation)) + Unseen(s.f.generation)(t)
  {
    SumUpdate(s.threads, k, t, RankIn);
    SumUpdate(s.threads, k, t, Unseen(s.f.generation));
  }

  /** Every step towards the return of run() shrinks the measure. */
  lemma ProgressShrinks(b: Shard, s: Pool, a: Action)
    requires Inv(b, s) && Enabled(b, s, a) && Progresses(a)
    ensures Measure(Apply(b, s, a)) < Measure(s)
  {
    hide Tickets, SharedOk, JobDone, Counters, Outsiders, Stats;
    var r := Apply(b, s, a);
    match a
    case Wake(k) => MeasureAt(s, k, r.threads[k]);
    case Step(k) => DrainShrinks(b, s, k);
    case _ =>
  }

  /** A thread's move shrinks the measure when its local weight goes down. */
  lemma MoveShrinks(s: Pool, r: Pool, k: nat, pc: Pc)
    requires k < |s.threads| && r.threads == s.threads[k := s.threads[k].(pc := pc)]
    requires !s.aborted && r.f.generation == s.f.generation
    requires 64 * Unclaimed(r.f) + 4 * Rank(pc) + CallerRank(r.f.caller)
           < 64 * Unclaimed(s.f) + 4 * Rank(s.threads[k].pc) + CallerRank(s.f.caller)
    ensures Measure(r) < Measure(s)
  {
    MeasureAt(s, k, r.threads[k]);
  }

  lemma DrainShrinks(b: Shard, s: Pool, k: nat)
    requires Inv(b, s) && StepEnabled(b, s, k) && !s.aborted
    ensures Measure(Drain(b, s, k)) < Measure(s)
  {
    hide Tickets, SharedOk, JobDone, Counters, Outsiders, Stats, Measure;
    var r := Drain(b, s, k);
    assert PcExact(b, s.job, s.threads[k].pc);
    TicketsShape(b, s);
    if s.threads[k].pc.Begin? && r.aborted {
      AbortShrinks(s, r);
    } else {
      MoveShrinks(s, r, k, r.threads[k].pc);
    }
  }

  lemma AbortShrinks(s: Pool, r: Pool)
    requires !s.aborted && r.aborted
    ensures Measure(r) < Measure(s)
  {}

  /** The other actions cost at most a spurious wakeup each. */
  lemma OthersCost(b: Shard, s: Pool, a: Action)
    requires Enabled(b, s, a) && !Progresses(a) && !a.Publish?
    ensures Measure(Apply(b, s, a)) <= Measure(s) + if a.Awake? then 2 else 0
  {}

  function CountProgress(actions: seq<Action>): nat {
    if actions == [] then 0 else (if Progresses(actions[0]) then 1 else 0) + CountProgress(actions[1..])
  }

  function CountAwake(actions: seq<Action>): nat {
    if actions == [] then 0 else (if actions[0].Awake? then 1 else 0) + CountAwake(actions[1..])
  }

  /** Between two publications only boundedly many steps exist, under any schedule. */
  lemma {:induction false} WorkIsBounded(b: Shard, s: Pool, actions: seq<Action>, t: Pool)
    requires Inv(b, s) && Run(b, s, actions, t)
    requires forall i :: 0 <= i < |actions| ==> !actions[i].Publish?
    ensures CountProgress(actions) + Measure(t) <= Measure(s) + 2 * CountAwake(actions)
    decreases |actions|
  {
    hide Inv, Measure;
    if actions != [] {
      var a := actions[0];
      ApplyKeeps(b, s, a);
      if Progresses(a) {
        ProgressShrinks(b, s, a);
      } else {
        OthersCost(b, s, a);
      }
      WorkIsBounded(b, Apply(b, s, a), actions[1..], t);
    }
  }

  /** While run() has not returned, some step is possible that needs no parked worker to wake. */
  lemma NeverStuck(b: Shard, s: Pool) returns (a: Action)
    requires Inv(b, s) && s.f.caller != Idle && !s.aborted
    ensures Enabled(b, s, a) && (a.Step? || a.Lock? || a.Check?)
  {
    match s.f.caller
    case Locking => a := Lock;
    case Checked => a := Check;
    case Draining =>
      a := Step(0);
      assert PcExact(b, s.job, s.threads[0].pc);
    case Asleep =>
      SumZero(s.threads, Inside);
      var k :| 0 <= k < |s.threads| && Inside(s.threads[k]) != 0;
      a := Step(k);
      assert PcExact(b, s.job, s.threads[k].pc);
  }

  /** A sleeping caller is always owed a wakeup: some worker has yet to leave and notify. */
  lemma NoLostWakeup(b: Shard, s: Pool, actions: seq<Action>, t: Pool)
    requires Init(b, s) && Run(b, s, actions, t) && t.f.caller == Asleep
    ensures exists k :: 0 < k < |t.threads| && t.threads[k].pc != Out
  {
    hide Tickets, SharedOk, JobDone, Outsiders, Stats, Pcs, Run, Init;
    InitInv(b, s);
    RunKeeps(b, s, actions, t);
    SumZero(t.threads, Inside);
  }

  /** Whoever counts the last ticket down wakes the caller with its next step, also if workers are still inside. */
  lemma LastTicketWakes(b: Shard, s: Pool, k: nat)
    requires StepEnabled(b, s, k) && s.threads[k].pc == Tally && s.f.remaining == 1
    ensures var t := Drain(b, s, k);
      MutexFree(t) ==> StepEnabled(b, t, k) && Drain(b, t, k).f.caller != Asleep
  {}

  // ---------- when the process aborts ----------

  /** Every id lies in the table. */
  predicate Legal(b: Shard, ids: seq<int>) {
    forall i :: 0 <= i < |ids| ==> 0 <= ids[i] < b.table.rows
  }

  /** The process is up, and the job that is out has legal ids only. */
  predicate Sound(b: Shard, s: Pool) {
    !s.aborted && (s.f.caller != Idle ==> Legal(b, s.job.ids))
  }

  /** The action publishes no id outside the table and is no failing read. */
  predicate LegalAction(b: Shard, a: Action) {
    (a.Publish? ==> Legal(b, a.ids)) && !a.ReadFails? && !a.OutsideFails?
  }

  lemma StepStaysSound(b: Shard, s: Pool, a: Action)
    requires Inv(b, s) && Enabled(b, s, a) && Sound(b, s) && LegalAction(b, a)
    ensures Sound(b, Apply(b, s, a))
  {
    hide Tickets, SharedOk, JobDone, Counters, Outsiders, Stats, Advance;
    match a
    case Step(k) => assert PcExact(b, s.job, s.threads[k].pc);
    case _ =>
  }

  lemma {:induction false} RunStaysSound(b: Shard, s: Pool, actions: seq<Action>, t: Pool)
    requires Inv(b, s) && Run(b, s, actions, t) && Sound(b, s)
    requires forall n :: 0 <= n < |actions| ==> LegalAction(b, actions[n])
    ensures Sound(b, t)
    decreases |actions|
  {
    hide Inv, Sound, LegalAction;
    if actions != [] {
      StepStaysSound(b, s, actions[0]);
      ApplyKeeps(b, s, actions[0]);
      RunStaysSound(b, Apply(b, s, actions[0]), actions[1..], t);
    }
  }

  /** Over every run the process aborts only if some published id lies outside the table or some read fails. */
  lemma AbortsOnIllegalIds(b: Shard, s: Pool, actions: seq<Action>, t: Pool)
    requires Init(b, s) && Run(b, s, actions, t) && t.aborted
    requires forall n :: 0 <= n < |actions| ==> !actions[n].ReadFails? && !actions[n].OutsideFails?
    ensures exists n, i ::
      0 <= n < |actions| && actions[n].Publish? && 0 <= i < |actions[n].ids|
      && !(0 <= actions[n].ids[i] < b.table.rows)
  {
    InitInv(b, s);
    if forall n :: 0 <= n < |actions| ==> LegalAction(b, actions[n]) {
      RunStaysSound(b, s, actions, t);
      assert false;
    }
    var n :| 0 <= n < |actions| && !LegalAction(b, actions[n]);
    assert !Legal(b, actions[n].ids);
  }

  // ---------- some schedule returns ----------

  /**
   * run() returns: from any reachable state some schedule without any wakeup of a parked worker ends
   * with the caller back, or with the abort if some id of the job that is out lies outside the table.
   */
  lemma {:induction false} RunReturns(b: Shard, s: Pool) returns (actions: seq<Action>, t: Pool)
    requires Inv(b, s)
    ensures Run(b, s, actions, t) && (t.f.caller == Idle || t.aborted)
    ensures !s.aborted && (s.f.caller == Idle || Legal(b, s.job.ids)) ==> t.f.caller == Idle && !t.aborted
    ensures forall i :: 0 <= i < |actions| ==> actions[i].Step? || actions[i].Lock? || actions[i].Check?
    decreases Measure(s)
  {
    hide Inv, Run, Measure, Legal;
    if s.f.caller == Idle || s.aborted {
      Nothing(b, s);
      actions, t := [], s;
    } else {
      var a := NeverStuck(b, s);
      ApplyKeeps(b, s, a);
      ProgressShrinks(b, s, a);
      if Sound(b, s) { StepStaysSound(b, s, a); }
      actions, t := RunReturns(b, Apply(b, s, a));
      Before(b, s, a, actions, t);
      actions := [a] + actions;
    }
  }

  lemma Nothing(b: Shard, s: Pool)
    ensures Run(b, s, [], s)
  {}

  lemma Before(b: Shard, s: Pool, a: Action, actions: seq<Action>, t: Pool)
    requires Enabled(b, s, a) && Run(b, Apply(b, s, a), actions, t)
    ensures Run(b, s, [a] + actions, t)
  {
    assert ([a] + actions)[1..] == actions;
  }

  // ---------- run() returns under every fair schedule ----------

  /** A run without end; a process that aborted stays as it is. */
  ghost predicate Endless(b: Shard, states: nat -> Pool, actions: nat -> Action) {
    forall i: nat :: Leads(b, states(i), actions(i), states(i + 1))
  }

  ghost predicate Leads(b: Shard, s: Pool, a: Action, t: Pool) {
    if s.aborted then t == s else Enabled(b, s, a) && t == Apply(b, s, a)
  }

  /** As long as run() is out, the threads that can step towards its return some time do. */
  ghost predicate KeepsStepping(states: nat -> Pool, actions: nat -> Action) {
    forall n: nat :: StepsLater(states, actions, n)
  }

  ghost predicate StepsLater(states: nat -> Pool, actions: nat -> Action, n: nat) {
    exists m: nat :: n <= m && (Progresses(actions(m)) || states(m).f.caller == Idle)
  }

  /** Nobody publishes an id outside the table, and no read fails. */
  ghost predicate LegalJobs(b: Shard, actions: nat -> Action) {
    forall i: nat :: LegalAction(b, actions(i))
  }

  /** An endless run of legal jobs never aborts. */
  lemma {:induction false} EndlessKeeps(b: Shard, states: nat -> Pool, actions: nat -> Action, n: nat)
    requires Inv(b, states(0)) && Sound(b, states(0)) && Endless(b, states, actions) && LegalJobs(b, actions)
    ensures Inv(b, states(n)) && Sound(b, states(n))
  {
    if n > 0 {
      EndlessKeeps(b, states, actions, n - 1);
      assert LegalAction(b, actions(n - 1));
      assert Leads(b, states(n - 1), actions(n - 1), states(n - 1 + 1));
      assert !states(n - 1).aborted;
      hide Inv, Sound;
      ApplyKeeps(b, states(n - 1), actions(n - 1));
      StepStaysSound(b, states(n - 1), actions(n - 1));
    }
  }

  /** One step before the return does not raise the measure, unless it is a spurious wakeup. */
  lemma EndlessStep(b: Shard, states: nat -> Pool, actions: nat -> Action, n: nat)
    requires Inv(b, states(0)) && Sound(b, states(0)) && Endless(b, states, actions) && LegalJobs(b, actions)
    requires states(n).f.caller != Idle && !actions(n).Awake?
    ensures Measure(states(n + 1)) <= Measure(states(n))
    ensures Progresses(actions(n)) ==> Measure(states(n + 1)) < Measure(states(n))
  {
    EndlessKeeps(b, states, actions, n);
    var s, a := states(n), actions(n);
    assert Leads(b, s, a, states(n + 1));
    assert !a.Publish?;
    hide Inv, Measure;
    if Progresses(a) { ProgressShrinks(b, s, a); } else { OthersCost(b, s, a); }
  }

  /** From `n` to `m` run() returns, or the measure has not gone up. */
  lemma {:induction false} EndlessSteps(b: Shard, states: nat -> Pool, actions: nat -> Action, n: nat, m: nat)
    returns (i: nat)
    requires Inv(b, states(0)) && Sound(b, states(0)) && Endless(b, states, actions) && LegalJobs(b, actions)
    requires n <= m && forall j: nat :: n <= j ==> !actions(j).Awake?
    ensures n <= i <= m && (states(i).f.caller == Idle || (i == m && Measure(states(m)) <= Measure(states(n))))
    decreases m - n
  {
    hide Inv, Measure, Sound, Endless, LegalJobs;
    i := n;
    if n < m && states(n).f.caller != Idle {
      EndlessStep(b, states, actions, n);
      i := EndlessSteps(b, states, actions, n + 1, m);
    }
  }

  /**
   * If all published ids lie in the table and reads arrive, run() returns, and the process is up, in every run in which threads
   * keep stepping and spurious wakeups stop some time, again and again, whatever the schedule.
   */
  lemma {:induction false} FairRunReturns(b: Shard, states: nat -> Pool, actions: nat -> Action, from: nat)
    returns (i: nat)
    requires Inv(b, states(0)) && Sound(b, states(0)) && Endless(b, states, actions) && LegalJobs(b, actions)
    requires KeepsStepping(states, actions) && forall j: nat :: from <= j ==> !actions(j).Awake?
    ensures i >= from && states(i).f.caller == Idle && !states(i).aborted
    decreases Measure(states(from))
  {
    hide Inv, Measure, Endless, LegalJobs;
    assert StepsLater(states, actions, from);
    var m: nat :| from <= m && (Progresses(actions(m)) || states(m).f.caller == Idle);
    i := EndlessSteps(b, states, actions, from, m);
    if states(i).f.caller == Idle {
      EndlessKeeps(b, states, actions, i);
    } else {
      EndlessStep(b, states, actions, m);
      i := FairRunReturns(b, states, actions, m + 1);
    }
  }
}
