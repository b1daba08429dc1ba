/** What every step of the worker pool keeps, and what a returned job guarantees. */
module PoolSafety {
  import opened Common
  import opened RowFile
  import opened RowCache
  import opened RowStore
  import opened RowPool

  function Inside(t: Thread): nat { if t.pc == Out then 0 else 1 }

  /** Threads that drew a ticket and have not yet counted it down. */
  function Holding(t: Thread): nat { if HasIndex(t.pc) || t.pc == Tally then 1 else 0 }

  function FillingIn(t: Thread): nat { if t.pc.Fetch? then Filled(t.pc.call) else 0 }

  function FillingOutside(o: Outside): nat { if o.Calling? then Filled(o.call) else 0 }

  function Unclaimed(f: Fields): nat { if f.next < f.chunks then f.chunks - f.next else 0 }

  /** Index `i` of a job was a legal id and its expected row was written exactly once. */
  ghost predicate DoneAt(b: Shard, j: Job, i: nat)
    requires b.Valid() && i < |j.ids| == |j.out| == |j.serves|
  {
    && 0 <= j.ids[i] < b.table.rows
    && j.out[i] == Expected(b, j.ids[i])
    && j.serves[i] == 1
  }

  ghost predicate JobDone(b: Shard, j: Job)
    requires b.Valid()
  {
    && |j.ids| == |j.out| == |j.serves|
    && forall i :: 0 <= i < |j.ids| ==> DoneAt(b, j, i)
  }

  /** Where the caller is decides what the shared fields and the threads may look like. */
  ghost predicate Control(f: Fields, job: Job, threads: seq<Thread>) {
    && |threads| > 0
    && (f.caller == Idle ==> f.job == None && f.active == 0 && f.remaining == 0)
    && (f.caller != Idle ==> f.job == Some(job.serial) && f.chunks == |job.ids|)
    && (f.caller == Draining <==> threads[0].pc != Out)
    && threads[0].pc != Leave
    && (f.caller != Draining ==> f.next >= f.chunks)
    && (f.caller == Asleep ==> f.active > 0)
    && (forall k :: 0 <= k < |threads| && threads[k].pc != Out ==> f.caller != Idle && threads[k].work == job.serial)
  }

  /** `active` counts the workers inside drain; `remaining` the tickets not yet counted down. */
  ghost predicate Counters(f: Fields, threads: seq<Thread>) {
    && |threads| > 0
    && f.active == Sum(threads, Inside) - Inside(threads[0])
    && f.remaining == Unclaimed(f) + Sum(threads, Holding)
  }

  ghost predicate PcExact(b: Shard, j: Job, pc: Pc)
    requires b.Valid()
  {
    && (HasIndex(pc) ==> pc.i < |j.ids|)
    && (pc.Fetch? ==> j.ids[pc.i] == pc.id && CallExact(b, pc.id, pc.call))
    && (pc.Write? ==> 0 <= j.ids[pc.i] < b.table.rows && pc.row == Expected(b, j.ids[pc.i]))
  }

  ghost predicate Pcs(b: Shard, j: Job, threads: seq<Thread>)
    requires b.Valid()
  {
    forall k :: 0 <= k < |threads| && threads[k].pc != Out ==> PcExact(b, j, threads[k].pc)
  }

  ghost predicate Outsiders(b: Shard, outsiders: seq<Outside>)
    requires b.Valid()
  {
    forall k :: 0 <= k < |outsiders| && outsiders[k].Calling? ==> CallExact(b, outsiders[k].id, outsiders[k].call)
  }

  /** Thread `k` is still serving index `i`. */
  predicate Serving(threads: seq<Thread>, k: nat, i: nat) {
    k < |threads| && HasIndex(threads[k].pc) && threads[k].pc.i == i
  }

  /** Drawn tickets are done or being served by the thread that drew them; the others are untouched. */
  ghost predicate Tickets(b: Shard, f: Fields, j: Job, threads: seq<Thread>)
    requires b.Valid()
  {
    && |j.ids| == |j.out| == |j.serves| == f.chunks
    && |j.owner| == f.chunks - Unclaimed(f)
    && (forall k :: 0 <= k < |threads| && HasIndex(threads[k].pc)
          ==> threads[k].pc.i < |j.owner| && j.owner[threads[k].pc.i] == k && j.serves[threads[k].pc.i] == 0)
    && (forall i :: 0 <= i < |j.owner| ==> DoneAt(b, j, i) || Serving(threads, j.owner[i], i))
    && (forall i :: |j.owner| <= i < f.chunks ==> j.serves[i] == 0)
  }

  ghost predicate Stats(s: Pool) {
    s.shared.hits + s.shared.misses
    == s.shared.completed + Sum(s.threads, FillingIn) + Sum(s.outsiders, FillingOutside)
  }

  ghost predicate Inv(b: Shard, s: Pool) {
    && b.Valid() && SharedOk(b, s.shared) && !s.stale
    && Control(s.f, s.job, s.threads) && Counters(s.f, s.threads) && Stats(s)
    && Outsiders(b, s.outsiders) && Pcs(b, s.job, s.threads)
    && (s.f.caller != Idle ==> Tickets(b, s.f, s.job, s.threads))
    && (forall j :: 0 <= j < |s.past| ==> JobDone(b, s.past[j]))
  }

  lemma InitInv(b: Shard, s: Pool)
    requires Init(b, s)
    ensures Inv(b, s)
  {
    SumZero(s.threads, Inside); SumZero(s.threads, Holding); SumZero(s.threads, FillingIn);
    SumZero(s.outsiders, FillingOutside);
  }

  lemma SumsAt(threads: seq<Thread>, k: nat, t: Thread)
    requires k < |threads|
    ensures Sum(threads[k := t], Inside) + Inside(threads[k]) == Sum(threads, Inside) + Inside(t)
    ensures Sum(threads[k := t], Holding) + Holding(threads[k]) == Sum(threads, Holding) + Holding(t)
    ensures Sum(threads[k := t], FillingIn) + FillingIn(threads[k]) == Sum(threads, FillingIn) + FillingIn(t)
  {
    SumUpdate(threads, k, t, Inside);
    SumUpdate(threads, k, t, Holding);
    SumUpdate(threads, k, t, FillingIn);
  }

  // ---------- tickets, one kind of move at a time ----------

  /** A thread that keeps its index, or has none before and after, leaves the tickets as they are. */
  lemma SameIndexTickets(b: Shard, f: Fields, g: Fields, j: Job, threads: seq<Thread>, k: nat, t: Thread)
    requires b.Valid() && Tickets(b, f, j, threads) && k < |threads|
    requires g.chunks == f.chunks && Unclaimed(g) == Unclaimed(f)
    requires HasIndex(t.pc) == HasIndex(threads[k].pc)
    requires HasIndex(t.pc) ==> t.pc.i == threads[k].pc.i
    ensures Tickets(b, g, j, threads[k := t])
  {
    var after := threads[k := t];
    forall i | 0 <= i < |j.owner| ensures DoneAt(b, j, i) || Serving(after, j.owner[i], i) {
      assert DoneAt(b, j, i) || Serving(threads, j.owner[i], i);
    }
  }

  lemma ClaimTickets(b: Shard, f: Fields, j: Job, threads: seq<Thread>, k: nat, t: Thread)
    requires b.Valid() && Tickets(b, f, j, threads) && k < |threads| && f.next < f.chunks
    requires !HasIndex(threads[k].pc) && t.pc == Begin(f.next)
    ensures Tickets(b, f.(next := f.next + 1), j.(owner := j.owner + [k]), threads[k := t])
  {
    var after, grown := threads[k := t], j.(owner := j.owner + [k]);
    forall i | 0 <= i < |grown.owner| ensures DoneAt(b, grown, i) || Serving(after, grown.owner[i], i) {
      if i < |j.owner| {
        assert DoneAt(b, j, i) || Serving(threads, j.owner[i], i);
      }
    }
  }

  lemma WriteTickets(b: Shard, f: Fields, j: Job, threads: seq<Thread>, k: nat, t: Thread)
    requires b.Valid() && Tickets(b, f, j, threads) && k < |threads|
    requires threads[k].pc.Write? && PcExact(b, j, threads[k].pc) && t.pc == Tally
    ensures var Write(i, row) := threads[k].pc;
      Tickets(b, f, j.(out := j.out[i := row], serves := j.serves[i := j.serves[i] + 1]), threads[k := t])
  {
    var Write(i, row) := threads[k].pc;
    var after := threads[k := t];
    var done := j.(out := j.out[i := row], serves := j.serves[i := j.serves[i] + 1]);
    assert DoneAt(b, done, i);
    forall n | 0 <= n < |j.owner| ensures DoneAt(b, done, n) || Serving(after, j.owner[n], n) {
      assert DoneAt(b, j, n) || Serving(threads, j.owner[n], n);
    }
  }

  // ---------- every step of drain() ----------

  lemma ClaimKeeps(b: Shard, s: Pool, k: nat)
    requires Inv(b, s) && StepEnabled(b, s, k) && s.threads[k].pc == Claim
    ensures Inv(b, StepClaim(s, k))
  {
    hide Inv;
    if s.f.next < s.f.chunks {
      DrawKeeps(b, s, k);
    } else {
      ExitKeeps(b, s, k);
    }
  }

  lemma DrawKeeps(b: Shard, s: Pool, k: nat)
    requires Inv(b, s) && k < |s.threads| && s.threads[k].pc == Claim && s.f.next < s.f.chunks
    ensures Inv(b, StepClaim(s, k))
  {
    hide Tickets, SharedOk, JobDone, Outsiders;
    var r := StepClaim(s, k);
    SumsAt(s.threads, k, r.threads[k]);
    TicketsShape(b, s);
    ClaimTickets(b, s.f, s.job, s.threads, k, r.threads[k]);
  }

  lemma ExitKeeps(b: Shard, s: Pool, k: nat)
    requires Inv(b, s) && k < |s.threads| && s.threads[k].pc == Claim && s.f.next >= s.f.chunks
    ensures Inv(b, StepClaim(s, k))
  {
    hide Tickets, SharedOk, JobDone, Outsiders;
    var r := StepClaim(s, k);
    SumsAt(s.threads, k, r.threads[k]);
    SameIndexTickets(b, s.f, r.f, s.job, s.threads, k, r.threads[k]);
  }

  /** A thread that stays on its index, between steps of the serving loop. */
  lemma MoveKeeps(b: Shard, s: Pool, k: nat, pc: Pc)
    requires Inv(b, s) && k < |s.threads|
    requires HasIndex(s.threads[k].pc) && HasIndex(pc) && pc.i == s.threads[k].pc.i
    requires FillingIn(s.threads[k]) == FillingIn(s.threads[k].(pc := pc))
    requires PcExact(b, s.job, pc)
    ensures Inv(b, WithPc(s, k, pc))
  {
    hide Tickets, SharedOk, JobDone, Outsiders, PcExact;
    var t := s.threads[k].(pc := pc);
    SumsAt(s.threads, k, t);
    SameIndexTickets(b, s.f, s.f, s.job, s.threads, k, t);
  }

  lemma AbortKeeps(b: Shard, s: Pool)
    requires Inv(b, s)
    ensures Inv(b, s.(aborted := true))
  {
    hide Tickets, SharedOk, JobDone, Outsiders, Pcs, Control, Counters;
  }

  lemma BeginKeeps(b: Shard, s: Pool, k: nat)
    requires Inv(b, s) && StepEnabled(b, s, k) && s.threads[k].pc.Begin?
    ensures Inv(b, StepBegin(b, s, k))
  {
    hide Tickets, SharedOk, JobDone, Outsiders, Counters, Stats;
    assert PcExact(b, s.job, s.threads[k].pc);
    var i := s.threads[k].pc.i;
    var id := s.job.ids[i];
    if id < 0 || id >= b.table.rows {
      AbortKeeps(b, s);
    } else if !b.Owned(id) {
      MoveKeeps(b, s, k, Write(i, seq(ROW_BYTES, _ => 0 as byte)));
    } else {
      MoveKeeps(b, s, k, Fetch(i, id, Looking));
    }
  }

  lemma FetchKeeps(b: Shard, s: Pool, k: nat)
    requires Inv(b, s) && StepEnabled(b, s, k) && s.threads[k].pc.Fetch?
    ensures Inv(b, StepFetch(b, s, k))
  {
    hide Tickets, JobDone, Outsiders;
    var Fetch(i, id, call) := s.threads[k].pc;
    assert PcExact(b, s.job, s.threads[k].pc);
    if call.Fetched? {
      MoveKeeps(b, s, k, Write(i, call.row));
    } else {
      AdvanceKeeps(b, s, k);
    }
  }

  lemma AdvanceKeeps(b: Shard, s: Pool, k: nat)
    requires Inv(b, s) && StepEnabled(b, s, k) && s.threads[k].pc.Fetch? && !s.threads[k].pc.call.Fetched?
    ensures Inv(b, StepFetch(b, s, k))
  {
    hide Tickets, JobDone, Outsiders, SharedOk, CallExact, Advance;
    var pc := s.threads[k].pc;
    assert PcExact(b, s.job, pc);
    AdvanceExact(b, s.shared, pc.id, pc.call);
    var r := StepFetch(b, s, k);
    SumsAt(s.threads, k, r.threads[k]);
    SameIndexTickets(b, s.f, r.f, s.job, s.threads, k, r.threads[k]);
  }

  lemma WriteKeeps(b: Shard, s: Pool, k: nat)
    requires Inv(b, s) && StepEnabled(b, s, k) && s.threads[k].pc.Write?
    ensures Inv(b, StepWrite(s, k))
  {
    hide Tickets, SharedOk, JobDone, Outsiders;
    assert PcExact(b, s.job, s.threads[k].pc);
    TicketsShape(b, s);
    SumsAt(s.threads, k, s.threads[k].(pc := Tally));
    WriteTickets(b, s.f, s.job, s.threads, k, s.threads[k].(pc := Tally));
  }

  lemma TicketsShape(b: Shard, s: Pool)
    requires b.Valid() && Tickets(b, s.f, s.job, s.threads)
    ensures |s.job.ids| == |s.job.out| == |s.job.serves| == s.f.chunks
    ensures |s.job.owner| == s.f.chunks - Unclaimed(s.f)
  {}

  lemma TallyKeeps(b: Shard, s: Pool, k: nat)
    requires Inv(b, s) && StepEnabled(b, s, k) && s.threads[k].pc.Tally?
    ensures Inv(b, StepTally(s, k))
  {
    SumsAt(s.threads, k, StepTally(s, k).threads[k]);
    SumMember(s.threads, k, Holding);
  }

  lemma NotifyKeeps(b: Shard, s: Pool, k: nat)
    requires Inv(b, s) && StepEnabled(b, s, k) && s.threads[k].pc.Notify?
    ensures Inv(b, StepNotify(s, k))
  {
    SumsAt(s.threads, k, StepNotify(s, k).threads[k]);
  }

  lemma LeaveKeeps(b: Shard, s: Pool, k: nat)
    requires Inv(b, s) && StepEnabled(b, s, k) && s.threads[k].pc.Leave?
    ensures Inv(b, StepLeave(s, k))
  {
    SumsAt(s.threads, k, StepLeave(s, k).threads[k]);
  }

  // ---------- the remaining actions ----------

  lemma PublishKeeps(b: Shard, s: Pool, ids: seq<int>, buffer: seq<Row>)
    requires Inv(b, s) && Enabled(b, s, Publish(ids, buffer))
    ensures Inv(b, DoPublish(s, ids, buffer))
  {
    hide SharedOk, JobDone, Outsiders;
    SumsAt(s.threads, 0, DoPublish(s, ids, buffer).threads[0]);
    SumZero(s.threads, Inside);
    SumZero(s.threads, Holding);
  }

  lemma WakeKeeps(b: Shard, s: Pool, k: nat)
    requires Inv(b, s) && Enabled(b, s, Wake(k))
    ensures Inv(b, DoWake(s, k))
  {
    hide Tickets, SharedOk, JobDone, Outsiders;
    var r := DoWake(s, k);
    SumsAt(s.threads, k, r.threads[k]);
    if s.f.caller != Idle {
      SameIndexTickets(b, s.f, r.f, s.job, s.threads, k, r.threads[k]);
    }
  }

  /** When remaining_ is zero and nobody is inside, the whole job is done. */
  lemma QuietIsDone(b: Shard, s: Pool)
    requires Inv(b, s) && s.f.caller == Checked && s.f.remaining == 0 && s.f.active == 0
    ensures JobDone(b, s.job)
    ensures forall k :: 0 <= k < |s.threads| ==> s.threads[k].pc == Out
  {
    SumZero(s.threads, Inside);
    assert Inside(s.threads[0]) == 0;
    forall i | 0 <= i < |s.job.ids| ensures DoneAt(b, s.job, i) {
      assert DoneAt(b, s.job, i) || Serving(s.threads, s.job.owner[i], i);
    }
  }

  /** A caller that finds tickets outstanding after leaving drain() leaves a worker inside to wake it. */
  lemma SomeoneInside(b: Shard, s: Pool)
    requires Inv(b, s) && s.f.caller == Checked && (s.f.remaining != 0 || s.f.active != 0)
    ensures s.f.active > 0
  {
    hide Tickets, SharedOk, JobDone, Outsiders;
    if s.f.active == 0 {
      SumZero(s.threads, Inside);
      SumZero(s.threads, Holding);
    }
  }

  lemma CheckKeeps(b: Shard, s: Pool)
    requires Inv(b, s) && Enabled(b, s, Check)
    ensures Inv(b, DoCheck(s))
  {
    if s.f.remaining == 0 && s.f.active == 0 {
      QuietIsDone(b, s);
    } else {
      SomeoneInside(b, s);
    }
  }

  lemma OutsideKeeps(b: Shard, s: Pool, k: nat)
    requires Inv(b, s) && OutsideEnabled(b, s, k)
    ensures Inv(b, DoOutside(b, s, k))
  {
    hide Tickets, JobDone, Control, Counters, Pcs;
    var r := DoOutside(b, s, k);
    SumUpdate(s.outsiders, k, r.outsiders[k], FillingOutside);
    if !s.outsiders[k].call.Fetched? {
      AdvanceExact(b, s.shared, s.outsiders[k].id, s.outsiders[k].call);
    }
  }

  lemma ApplyKeeps(b: Shard, s: Pool, a: Action)
    requires Inv(b, s) && Enabled(b, s, a)
    ensures Inv(b, Apply(b, s, a))
  {
    hide Tickets, SharedOk, JobDone, Counters, Pcs;
    match a
    case Publish(ids, buffer) => PublishKeeps(b, s, ids, buffer);
    case Wake(k) => WakeKeeps(b, s, k);
    case Step(k) => DrainKeeps(b, s, k);
    case Lock => CallerMoves(b, s, Checked);
    case Check => CheckKeeps(b, s);
    case Awake => CallerMoves(b, s, Locking);
    case OutsideStart(k, id) => SumUpdate(s.outsiders, k, Calling(id, Looking), FillingOutside);
    case OutsideStep(k) => OutsideKeeps(b, s, k);
    case ReadFails(_) => AbortKeeps(b, s);
    case OutsideFails(_) => AbortKeeps(b, s);
  }

  lemma CallerMoves(b: Shard, s: Pool, c: Caller)
    requires Inv(b, s) && s.f.caller in {Locking, Asleep} && c in {Locking, Checked}
    ensures Inv(b, s.(f := s.f.(caller := c)))
  {
    SameIndexTickets(b, s.f, s.f.(caller := c), s.job, s.threads, 0, s.threads[0]);
    assert s.threads[0 := s.threads[0]] == s.threads;
  }

  lemma DrainKeeps(b: Shard, s: Pool, k: nat)
    requires Inv(b, s) && StepEnabled(b, s, k)
    ensures Inv(b, Drain(b, s, k))
  {
    hide Inv;
    match s.threads[k].pc
    case Claim => ClaimKeeps(b, s, k);
    case Begin(_) => BeginKeeps(b, s, k);
    case Fetch(_, _, _) => FetchKeeps(b, s, k);
    case Write(_, _) => WriteKeeps(b, s, k);
    case Tally => TallyKeeps(b, s, k);
    case Notify => NotifyKeeps(b, s, k);
    case Leave => LeaveKeeps(b, s, k);
  }

  // ---------- over whole runs ----------

  /** Every state of every interleaving satisfies the invariant. */
  lemma {:induction false} RunKeeps(b: Shard, s: Pool, actions: seq<Action>, t: Pool)
    requires Inv(b, s) && Run(b, s, actions, t)
    ensures Inv(b, t)
    decreases |actions|
  {
    if actions != [] {
      ApplyKeeps(b, s, actions[0]);
      RunKeeps(b, Apply(b, s, actions[0]), actions[1..], t);
    }
  }
}
