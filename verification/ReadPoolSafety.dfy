/** What every step of the read pool keeps, and what a gather that raises nothing has filled. */
module ReadPoolSafety {
  import opened Common
  import opened Arith
  import opened ReadPool

  function Busy(t: Worker): nat { if t.pc == Parked then 0 else 1 }

  function Undrawn(t: Worker): nat { if t.pc == Acquired then 1 else 0 }

  function ToRelease(c: Caller): nat { if c.Release? then c.more else 0 }

  predicate HasPart(pc: Pc) { pc.Claimed? || pc.Reading? || pc.Copying? || pc.Failed? }

  /** Position `k` holds what the gather still owes it, if anything. */
  predicate DoneAt(owed: seq<Option<Bytes>>, dst: seq<Bytes>, k: nat) {
    k < |dst| && k < |owed| && (owed[k].Some? ==> dst[k] == owed[k].value)
  }

  predicate DoneBetween(owed: seq<Option<Bytes>>, dst: seq<Bytes>, lo: nat, hi: nat) {
    forall k :: lo <= k < hi ==> DoneAt(owed, dst, k)
  }

  predicate PartDone(owed: seq<Option<Bytes>>, dst: seq<Bytes>, step: nat, p: nat) {
    DoneBetween(owed, dst, p * step, SliceEnd(step, |owed|, p))
  }

  /** Every position holds its row, or zeros where the shard does not own the index. */
  predicate AllFilled(j: Job) {
    |j.dst| == |j.rows| && forall k :: 0 <= k < |j.rows| ==>
      j.dst[k] == if j.rows[k].Some? then j.rows[k].value.want else j.zero
  }

  /** The same, apart from the rows whose read fell short. */
  predicate Kept(j: Job) {
    JobOk(j) && forall k :: 0 <= k < |j.rows| && j.owed[k].Some? ==> j.dst[k] == j.rows[k].value.want
  }

  /** Rows keep their length, zeros stay where nothing is owned, and only wanted rows are owed. */
  predicate JobOk(j: Job) {
    && |j.dst| == |j.rows| == |j.owed|
    && (forall k :: 0 <= k < |j.dst| ==> |j.dst[k]| == |j.zero|)
    && (forall k :: 0 <= k < |j.rows| && j.rows[k].None? ==> j.dst[k] == j.zero)
    && (forall k :: 0 <= k < |j.rows| ==> Owing(j.rows[k], j.owed[k], |j.zero|))
  }

  predicate Owing(row: Option<RowRead>, owed: Option<Bytes>, stride: nat) {
    && (owed.Some? ==> row.Some? && owed.value == row.value.want)
    && (row.Some? ==> |row.value.want| == stride)
  }

  /** What was read for position `k` has the row's length, and is the row if the read reached its end. */
  predicate GotOk(j: Job, k: nat, got: Got) {
    && k < |j.rows| && j.rows[k].Some? && |got.row| == |j.zero|
    && (got.whole ==> got.row == j.rows[k].value.want)
  }

  predicate Geometry(step: nat, j: Job, helpers: nat, workers: nat) {
    && |j.rows| > 0
    && helpers + 1 == Least(workers + 1, |j.rows|)
    && step == StepSize(|j.rows|, helpers + 1)
  }

  /** Permits, unclaimed slices and running workers add up; the event is set when all are through. */
  predicate Counters(f: Fields, j: Job, helpers: nat, c: Caller, workers: seq<Worker>) {
    && |j.owner| + 1 == f.claim
    && ToRelease(c) + f.permits + Sum(workers, Undrawn) + f.claim - 1 == helpers
    && f.left == ToRelease(c) + f.permits + Sum(workers, Busy)
    && f.left <= helpers
    && (helpers > 0 ==> (f.done <==> f.left == 0))
  }

  predicate Quiet(f: Fields, workers: seq<Worker>) {
    f.permits == 0 && f.left == 0 && forall w :: 0 <= w < |workers| ==> workers[w].pc == Parked
  }

  predicate CallerOk(step: nat, j: Job, c: Caller) {
    match c
    case OwnSlice(k, hi) => hi == Least(step, |j.rows|) && k <= hi && DoneBetween(j.owed, j.dst, 0, k)
    case OwnCopy(k, hi, got) =>
      hi == Least(step, |j.rows|) && k < hi && DoneBetween(j.owed, j.dst, 0, k) && GotOk(j, k, got)
    case Wait => DoneBetween(j.owed, j.dst, 0, Least(step, |j.rows|))
    case _ => true
  }

  /** A worker's locals fit the slice it drew, and everything before its position is done. */
  predicate WorkerOk(step: nat, j: Job, t: Worker) {
    match t.pc
    case Reading(p, k, hi) =>
      t.work == j.serial && hi == SliceEnd(step, |j.rows|, p) && p * step <= k <= hi &&
        DoneBetween(j.owed, j.dst, p * step, k)
    case Copying(p, k, hi, got) =>
      t.work == j.serial && hi == SliceEnd(step, |j.rows|, p) && p * step <= k < hi
      && DoneBetween(j.owed, j.dst, p * step, k) && GotOk(j, k, got)
    case _ => true
  }

  predicate WorkersOk(step: nat, j: Job, workers: seq<Worker>) {
    forall w :: 0 <= w < |workers| ==> WorkerOk(step, j, workers[w])
  }

  predicate Holds(workers: seq<Worker>, w: nat, p: nat) {
    w < |workers| && HasPart(workers[w].pc) && workers[w].pc.part == p
  }

  /** A drawn slice is held by the worker that drew it, or done, or its failure is recorded. */
  predicate Parts(step: nat, error: bool, j: Job, workers: seq<Worker>) {
    && (forall w :: 0 <= w < |workers| && HasPart(workers[w].pc) ==>
          0 < workers[w].pc.part <= |j.owner| && j.owner[workers[w].pc.part - 1] == w)
    && (error || forall i :: 0 <= i < |j.owner| ==> Settled(step, j, workers, i))
  }

  predicate Settled(step: nat, j: Job, workers: seq<Worker>, i: nat)
    requires i < |j.owner|
  {
    PartDone(j.owed, j.dst, step, i + 1) || Holds(workers, j.owner[i], i + 1)
  }

  /** A gather that returned without raising has every row whose read reached its end. */
  predicate ReturnOk(r: Returned) { r.outcome == Filled ==> Kept(r.job) }

  predicate Inv(s: Pool) {
    && (s.caller == Idle ==> Quiet(s.f, s.workers))
    && (s.caller != Idle ==>
          && Geometry(s.f.step, s.job, s.helpers, |s.workers|)
          && JobOk(s.job)
          && Counters(s.f, s.job, s.helpers, s.caller, s.workers)
          && CallerOk(s.f.step, s.job, s.caller)
          && WorkersOk(s.f.step, s.job, s.workers)
          && Parts(s.f.step, s.f.error, s.job, s.workers))
    && forall i :: 0 <= i < |s.past| ==> ReturnOk(s.past[i])
  }

  lemma SumsAt(workers: seq<Worker>, w: nat, t: Worker)
    requires w < |workers|
    ensures Sum(workers[w := t], Busy) + Busy(workers[w]) == Sum(workers, Busy) + Busy(t)
    ensures Sum(workers[w := t], Undrawn) + Undrawn(workers[w]) == Sum(workers, Undrawn) + Undrawn(t)
  {
    SumUpdate(workers, w, t, Busy);
    SumUpdate(workers, w, t, Undrawn);
  }

  // ---------- the arithmetic of slices ----------

  /** The slices 0..parts-1 cover every position. */
  lemma SlicesCover(n: nat, parts: nat, k: nat) returns (p: nat)
    requires 0 < parts && k < n
    ensures p < parts && p * StepSize(n, parts) <= k < SliceEnd(StepSize(n, parts), n, p)
  {
    var step := StepSize(n, parts);
    assert parts * step + (n + parts - 1) % parts == n + parts - 1;
    assert parts * step >= n;
    assert step > 0;
    DivNat(k, step);
    p := k / step;
    assert k == step * p + k % step;
    if p >= parts {
      MulMonotone(parts, p, step);
      assert false;
    }
  }

  lemma MulMonotone(a: nat, b: nat, c: nat)
    requires a <= b
    ensures a * c <= b * c
  {}

  /** A slice is no longer than it must be for the slices to cover all rows. */
  lemma StepIsLeast(n: nat, parts: nat)
    requires parts > 0
    ensures StepSize(n, parts) * parts >= n
    ensures n > 0 ==> StepSize(n, parts) > 0 && (StepSize(n, parts) - 1) * parts < n
  {
    var q := (n + parts - 1) / parts;
    DivNat(n + parts - 1, parts);
    assert n + parts - 1 == parts * q + (n + parts - 1) % parts;
    assert (q - 1) * parts == parts * q - parts;
  }

  /** Distinct slices share no position. */
  lemma SlicesDisjoint(step: nat, n: nat, p: nat, q: nat)
    requires p < q
    ensures SliceEnd(step, n, p) <= q * step
  {
    MulMonotone(p + 1, q, step);
    assert (p + 1) * step == p * step + step;
  }

  // ---------- pieces of the invariant under one worker's move ----------

  lemma SameLengths(j: Job)
    requires JobOk(j)
    ensures |j.dst| == |j.rows| == |j.owed|
  {}

  /** Storing what was read for a row only ever fills more, and keeps the job's shape. */
  lemma StoreFills(j: Job, k: nat, got: Got)
    requires JobOk(j) && GotOk(j, k, got)
    ensures var r := Stored(j, k, got);
      && JobOk(r) && |r.owed| == |j.owed| && r.rows == j.rows && r.owner == j.owner && r.serial == j.serial &&
        r.zero == j.zero
      && DoneAt(r.owed, r.dst, k) && forall m :: DoneAt(j.owed, j.dst, m) ==> DoneAt(r.owed, r.dst, m)
  {
    var r := Stored(j, k, got);
    assert Owing(j.rows[k], j.owed[k], |j.zero|);
    forall m | 0 <= m < |r.rows| ensures Owing(r.rows[m], r.owed[m], |r.zero|) {
      assert Owing(j.rows[m], j.owed[m], |j.zero|);
    }
  }

  lemma PartsMove(step: nat, error: bool, j: Job, workers: seq<Worker>, w: nat, t: Worker, after: bool)
    requires Parts(step, error, j, workers) && w < |workers|
    requires error ==> after
    requires HasPart(t.pc) ==> HasPart(workers[w].pc) && t.pc.part == workers[w].pc.part
    requires HasPart(workers[w].pc) && !HasPart(t.pc) ==> after || PartDone(j.owed, j.dst, step, workers[w].pc.part)
    ensures Parts(step, after, j, workers[w := t])
  {
    var moved := workers[w := t];
    if !after {
      forall i | 0 <= i < |j.owner| ensures Settled(step, j, moved, i) {
        assert Settled(step, j, workers, i);
      }
    }
  }

  lemma PartsStore(step: nat, error: bool, j: Job, workers: seq<Worker>, k: nat, got: Got)
    requires Parts(step, error, j, workers) && JobOk(j) && GotOk(j, k, got)
    ensures Parts(step, error, Stored(j, k, got), workers)
  {
    var r := Stored(j, k, got);
    StoreFills(j, k, got);
    if !error {
      forall i | 0 <= i < |j.owner| ensures Settled(step, r, workers, i) {
        assert Settled(step, j, workers, i);
      }
    }
  }

  lemma PartsClaim(step: nat, error: bool, j: Job, workers: seq<Worker>, w: nat, t: Worker)
    requires Parts(step, error, j, workers) && w < |workers| && !HasPart(workers[w].pc) &&
      t.pc == Claimed(|j.owner| + 1)
    ensures Parts(step, error, j.(owner := j.owner + [w]), workers[w := t])
  {
    var after, grown := workers[w := t], j.(owner := j.owner + [w]);
    if !error {
      forall i | 0 <= i < |grown.owner| ensures Settled(step, grown, after, i) {
        if i < |j.owner| {
          assert Settled(step, j, workers, i);
        }
      }
    }
  }

  /** Storing what was read keeps every worker's progress. */
  lemma WorkersStore(step: nat, j: Job, workers: seq<Worker>, k: nat, got: Got)
    requires WorkersOk(step, j, workers) && JobOk(j) && GotOk(j, k, got)
    ensures WorkersOk(step, Stored(j, k, got), workers)
  {
    hide JobOk;
    StoreFills(j, k, got);
    forall w | 0 <= w < |workers| ensures WorkerOk(step, Stored(j, k, got), workers[w]) {
      assert WorkerOk(step, j, workers[w]);
    }
  }

  // ---------- every step of a worker ----------

  lemma AcquireKeeps(s: Pool, w: nat)
    requires Inv(s) && WorkerEnabled(s, w) && s.workers[w].pc == Parked
    ensures Inv(DoAcquire(s, w))
  {
    hide Parts, Kept, StepSize;
    var r := DoAcquire(s, w);
    SumsAt(s.workers, w, r.workers[w]);
    PartsMove(s.f.step, s.f.error, s.job, s.workers, w, r.workers[w], r.f.error);
  }

  lemma ClaimKeeps(s: Pool, w: nat)
    requires Inv(s) && WorkerEnabled(s, w) && s.workers[w].pc == Acquired
    ensures Inv(DoClaim(s, w))
  {
    hide Parts, Kept, StepSize;
    var r := DoClaim(s, w);
    SumsAt(s.workers, w, r.workers[w]);
    PartsClaim(s.f.step, s.f.error, s.job, s.workers, w, r.workers[w]);
  }

  /** A running worker moves within its slice, or leaves it finished. */
  lemma MoveKeeps(s: Pool, w: nat, t: Worker)
    requires Inv(s) && s.caller != Idle && w < |s.workers|
    requires Busy(t) == Busy(s.workers[w]) && Undrawn(t) == Undrawn(s.workers[w])
    requires HasPart(s.workers[w].pc) && (HasPart(t.pc) ==> t.pc.part == s.workers[w].pc.part)
    requires HasPart(t.pc) || s.f.error || PartDone(s.job.owed, s.job.dst, s.f.step, s.workers[w].pc.part)
    requires WorkerOk(s.f.step, s.job, t)
    ensures Inv(s.(workers := s.workers[w := t]))
  {
    hide Parts, Kept, StepSize, WorkerOk, PartDone, JobOk, CallerOk;
    SumsAt(s.workers, w, t);
    PartsMove(s.f.step, s.f.error, s.job, s.workers, w, t, s.f.error);
  }

  lemma EnterKeeps(s: Pool, w: nat)
    requires Inv(s) && WorkerEnabled(s, w) && s.workers[w].pc.Claimed?
    ensures Inv(DoEnter(s, w))
  {
    hide Parts, Kept, StepSize, Counters, JobOk, CallerOk;
    SameLengths(s.job);
    MoveKeeps(s, w, DoEnter(s, w).workers[w]);
  }

  lemma SkipKeeps(s: Pool, w: nat)
    requires Inv(s) && WorkerEnabled(s, w) && s.workers[w].pc.Reading?
    ensures Inv(DoSkip(s, w))
  {
    hide Parts, Kept, StepSize, Counters, CallerOk;
    assert WorkerOk(s.f.step, s.job, s.workers[w]);
    MoveKeeps(s, w, DoSkip(s, w).workers[w]);
  }

  /** A read, whole or short, leaves in the buffer what the position may get. */
  lemma ReadIsGot(j: Job, k: nat, count: nat, prior: Bytes)
    requires JobOk(j) && k < |j.rows| && j.rows[k].Some? && |prior| == |j.rows[k].value.want|
    ensures GotOk(j, k, Got(j.rows[k].value.Received(count, prior), j.rows[k].value.Whole(count)))
  {
    assert Owing(j.rows[k], j.owed[k], |j.zero|);
  }

  lemma ReadKeeps(s: Pool, w: nat, count: nat, prior: Bytes)
    requires Inv(s) && Enabled(s, WorkerRead(w, count, prior))
    ensures Inv(DoRead(s, w, count, prior))
  {
    hide Parts, Kept, StepSize, Counters, CallerOk, JobOk, GotOk;
    assert WorkerOk(s.f.step, s.job, s.workers[w]);
    ReadIsGot(s.job, s.workers[w].pc.k, count, prior);
    MoveKeeps(s, w, DoRead(s, w, count, prior).workers[w]);
  }

  /** Storing what was read keeps the invariant, whoever stores it. */
  lemma StoreKeeps(s: Pool, k: nat, got: Got)
    requires Inv(s) && s.caller != Idle && GotOk(s.job, k, got)
    ensures Inv(s.(job := Stored(s.job, k, got)))
  {
    hide Parts, Kept, StepSize, JobOk, Stored, WorkersOk;
    StoreFills(s.job, k, got);
    WorkersStore(s.f.step, s.job, s.workers, k, got);
    PartsStore(s.f.step, s.f.error, s.job, s.workers, k, got);
    SameLengths(s.job);
    SameLengths(Stored(s.job, k, got));
  }

  lemma CopyKeeps(s: Pool, w: nat)
    requires Inv(s) && WorkerEnabled(s, w) && s.workers[w].pc.Copying?
    ensures Inv(DoCopy(s, w))
  {
    hide Parts, Kept, StepSize, JobOk, GotOk, Stored, Counters, CallerOk;
    var k, got := s.workers[w].pc.k, s.workers[w].pc.got;
    assert WorkerOk(s.f.step, s.job, s.workers[w]);
    StoreKeeps(s, k, got);
    StoreFills(s.job, k, got);
    MoveKeeps(s.(job := Stored(s.job, k, got)), w, DoCopy(s, w).workers[w]);
  }

  lemma FailKeeps(s: Pool, w: nat)
    requires Inv(s) && WorkerEnabled(s, w) && s.workers[w].pc.Failed?
    ensures Inv(DoFail(s, w))
  {
    hide Parts, Kept, StepSize;
    var r := DoFail(s, w);
    SumsAt(s.workers, w, r.workers[w]);
    PartsMove(s.f.step, s.f.error, s.job, s.workers, w, r.workers[w], r.f.error);
  }

  lemma TallyKeeps(s: Pool, w: nat)
    requires Inv(s) && WorkerEnabled(s, w) && s.workers[w].pc == Tally
    ensures Inv(DoTally(s, w))
  {
    hide Parts, Kept, StepSize;
    var r := DoTally(s, w);
    SumsAt(s.workers, w, r.workers[w]);
    SumMember(s.workers, w, Busy);
    PartsMove(s.f.step, s.f.error, s.job, s.workers, w, r.workers[w], r.f.error);
  }

  lemma WorkerRaiseKeeps(s: Pool, w: nat)
    requires Inv(s) && Enabled(s, WorkerRaise(w))
    ensures Inv(Apply(s, WorkerRaise(w)))
  {
    hide Parts, Kept, StepSize, Counters, JobOk, CallerOk;
    MoveKeeps(s, w, s.workers[w].(pc := Failed(s.workers[w].pc.part)));
  }

  lemma WorkerKeeps(s: Pool, w: nat)
    requires Inv(s) && WorkerEnabled(s, w)
    ensures Inv(DoWorker(s, w))
  {
    hide Inv;
    match s.workers[w].pc
    case Parked => AcquireKeeps(s, w);
    case Acquired => ClaimKeeps(s, w);
    case Claimed(_) => EnterKeeps(s, w);
    case Reading(_, _, _) => SkipKeeps(s, w);
    case Copying(_, _, _, _) => CopyKeeps(s, w);
    case Failed(_) => FailKeeps(s, w);
    case Tally => TallyKeeps(s, w);
  }

  // ---------- every step of the caller ----------

  lemma PublishKeeps(s: Pool, rows: seq<Option<RowRead>>, zero: Bytes)
    requires Inv(s) && Enabled(s, Publish(rows, zero))
    ensures Inv(DoPublish(s, rows, zero))
  {
    SumZero(s.workers, Busy);
    SumZero(s.workers, Undrawn);
  }

  /** Once all permits, claims and tallies are through, every slice was drawn and nobody works. */
  lemma AllThrough(s: Pool)
    requires Inv(s) && s.caller == Wait && (s.helpers == 0 || s.f.done)
    ensures Quiet(s.f, s.workers) && s.f.claim == s.helpers + 1
  {
    hide Parts, Kept, Geometry;
    SumZero(s.workers, Busy);
    SumZero(s.workers, Undrawn);
  }

  lemma PartsComplete(step: nat, j: Job, workers: seq<Worker>, p: nat)
    requires Parts(step, false, j, workers) && 0 < p <= |j.owner|
    requires forall w :: 0 <= w < |workers| ==> workers[w].pc == Parked
    ensures PartDone(j.owed, j.dst, step, p)
  {
    assert Settled(step, j, workers, p - 1);
  }

  /** A gather without errors that reaches its end has every row it still owes. */
  lemma WaitIsKept(s: Pool)
    requires Inv(s) && s.caller == Wait && (s.helpers == 0 || s.f.done) && !s.f.error
    ensures Kept(s.job)
  {
    hide Parts, WorkersOk, StepSize, PartDone, JobOk, Kept;
    AllThrough(s);
    SameLengths(s.job);
    forall k | 0 <= k < |s.job.rows| ensures DoneAt(s.job.owed, s.job.dst, k) {
      var p := SlicesCover(|s.job.rows|, s.helpers + 1, k);
      if p > 0 {
        PartsComplete(s.f.step, s.job, s.workers, p);
        PartAt(s.job.owed, s.job.dst, s.f.step, p, k);
      }
    }
    KeptFrom(s.job);
  }

  lemma KeptFrom(j: Job)
    requires JobOk(j) && forall k :: 0 <= k < |j.rows| ==> DoneAt(j.owed, j.dst, k)
    ensures Kept(j)
  {
    forall k | 0 <= k < |j.rows| && j.owed[k].Some? ensures j.dst[k] == j.rows[k].value.want {
      assert DoneAt(j.owed, j.dst, k) && Owing(j.rows[k], j.owed[k], |j.zero|);
    }
  }

  /** If no read fell short, every position is filled. */
  lemma KeptIsFilled(j: Job)
    requires Kept(j) && j.owed == Wants(j.rows)
    ensures AllFilled(j)
  {}

  lemma PartAt(owed: seq<Option<Bytes>>, dst: seq<Bytes>, step: nat, p: nat, k: nat)
    requires PartDone(owed, dst, step, p) && p * step <= k < SliceEnd(step, |owed|, p)
    ensures DoneAt(owed, dst, k)
  {}

  lemma CallerKeeps(s: Pool)
    requires Inv(s) && Enabled(s, CallerStep)
    ensures Inv(DoCaller(s))
  {
    hide Parts, WorkersOk, Geometry, Kept, JobOk;
    match s.caller
    case Release(_) =>
    case OwnSlice(_, _) => OwnSkipKeeps(s);
    case OwnCopy(_, _, _) => OwnCopyKeeps(s);
    case Wait =>
      AllThrough(s);
      if !s.f.error {
        WaitIsKept(s);
      }
  }

  lemma OwnSkipKeeps(s: Pool)
    requires Inv(s) && Enabled(s, CallerStep) && s.caller.OwnSlice?
    ensures Inv(DoCaller(s))
  {
    hide Parts, WorkersOk, StepSize, Kept;
    if s.caller.k < s.caller.hi {
      assert Owing(s.job.rows[s.caller.k], s.job.owed[s.caller.k], |s.job.zero|);
    }
  }

  lemma OwnReadKeeps(s: Pool, count: nat, prior: Bytes)
    requires Inv(s) && Enabled(s, CallerRead(count, prior))
    ensures Inv(DoCallerRead(s, count, prior))
  {
    hide Parts, WorkersOk, Geometry, Kept, JobOk, GotOk;
    ReadIsGot(s.job, s.caller.k, count, prior);
  }

  lemma OwnCopyKeeps(s: Pool)
    requires Inv(s) && s.caller.OwnCopy?
    ensures Inv(DoCaller(s))
  {
    hide Parts, Kept, WorkersOk, StepSize, JobOk, GotOk, Stored;
    StoreFills(s.job, s.caller.k, s.caller.got);
    StoreKeeps(s, s.caller.k, s.caller.got);
  }

  /** An exception of the caller's own slice with no helper out leaves the pool as a finished gather does. */
  lemma JoinedRaiseKeeps(s: Pool)
    requires Inv(s) && s.caller.OwnSlice? && (s.helpers == 0 || s.f.done)
    ensures Inv(DoCallerRaise(s))
  {
    hide Parts, Kept, Geometry;
    SumZero(s.workers, Busy);
    SumZero(s.workers, Undrawn);
  }

  lemma ApplyKeeps(s: Pool, a: Action)
    requires Inv(s) && Enabled(s, a) && !Apply(s, a).wild
    ensures Inv(Apply(s, a))
  {
    hide Parts, Kept, Geometry, Counters, CallerOk, WorkersOk, JobOk;
    match a
    case Publish(rows, zero) => PublishKeeps(s, rows, zero);
    case CallerStep => CallerKeeps(s);
    case CallerRead(count, prior) => OwnReadKeeps(s, count, prior);
    case CallerRaise => JoinedRaiseKeeps(s);
    case WorkerStep(w) => WorkerKeeps(s, w);
    case WorkerRead(w, count, prior) => ReadKeeps(s, w, count, prior);
    case WorkerRaise(w) => WorkerRaiseKeeps(s, w);
  }

  // ---------- over whole runs ----------

  /** `wild` is never lowered. */
  lemma {:induction false} WildStays(s: Pool, actions: seq<Action>, t: Pool)
    requires Run(s, actions, t) && s.wild
    ensures t.wild
    decreases |actions|
  {
    if actions != [] {
      WildStays(Apply(s, actions[0]), actions[1..], t);
    }
  }

  lemma {:induction false} RunKeeps(s: Pool, actions: seq<Action>, t: Pool)
    requires Inv(s) && Run(s, actions, t) && !t.wild
    ensures Inv(t)
    decreases |actions|
  {
    hide Inv;
    if actions != [] {
      var r := Apply(s, actions[0]);
      if r.wild {
        WildStays(r, actions[1..], t);
      }
      ApplyKeeps(s, actions[0]);
      RunKeeps(r, actions[1..], t);
    }
  }

}
