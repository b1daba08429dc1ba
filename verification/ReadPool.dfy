/**
 * The read pool of the disk table as a machine of interleaved atomic steps. A gather releases one
 * permit per helper slice; whichever workers take the permits draw slice numbers from a counter, and
 * the last one to finish sets the done event. Gathers queue on a lock, so there is one caller.
 */
module ReadPool {
  import opened Common
  import opened Arith

  type Bytes = seq<byte>

  /** A row to read: its bytes, and how many bytes of the block that is read come before it. */
  datatype RowRead = RowRead(want: Bytes, lead: nat) {
    /** The bytes in the row's place after a read that delivered `count` bytes over the `prior` content. */
    function Received(count: nat, prior: Bytes): (r: Bytes)
      requires |prior| == |want|
      ensures |r| == |want|
    {
      seq(|want|, i requires 0 <= i < |want| => if lead + i < count then want[i] else prior[i])
    }

    /** The read reached the end of the row. */
    predicate Whole(count: nat) { count >= lead + |want| }
  }

  /** A read is sure to yield the row, whatever was in its place, exactly if it reached the end of the row. */
  lemma WholeExactly(r: RowRead, count: nat)
    requires r.want != []
    ensures (forall prior: Bytes | |prior| == |r.want| :: r.Received(count, prior) == r.want) <==> r.Whole(count)
  {
    if r.Whole(count) {
      forall prior: Bytes | |prior| == |r.want| ensures r.Received(count, prior) == r.want {
      }
    } else {
      var last := |r.want| - 1;
      var prior := r.want[last := if r.want[last] == 0 then 1 else 0];
      assert r.Received(count, prior)[last] != r.want[last];
    }
  }

  /** Over zeros, where a buffered read lands, the bytes that did not arrive must be zeros themselves. */
  lemma ZeroPriorExactly(r: RowRead, count: nat)
    ensures r.Received(count, Zeros(|r.want|)) == r.want
            <==> forall i :: 0 <= i < |r.want| && r.lead + i >= count ==> r.want[i] == 0
  {
    var got := r.Received(count, Zeros(|r.want|));
    assert forall i :: 0 <= i < |r.want| ==> got[i] == if r.lead + i < count then r.want[i] else 0;
  }

  function Zeros(n: nat): (r: Bytes)
    ensures |r| == n
  {
    seq(n, _ => 0 as byte)
  }

  /**
   * One gather: the row wanted at each position (None if not owned), the result so far, and the rows still
   * owed, which are the wanted ones without those whose read fell short.
   */
  datatype Job = Job(serial: nat, rows: seq<Option<RowRead>>, zero: Bytes, dst: seq<Bytes>,
      owed: seq<Option<Bytes>>, owner: seq<nat>)

  function Wants(rows: seq<Option<RowRead>>): (r: seq<Option<Bytes>>)
    ensures |r| == |rows|
    ensures forall k :: 0 <= k < |r| ==> r[k] == if rows[k].Some? then Some(rows[k].value.want) else None
  {
    seq(|rows|, k requires 0 <= k < |rows| => if rows[k].Some? then Some(rows[k].value.want) else None)
  }

  /** The pool's own fields. `claim` is the next slice number the counter hands out. */
  datatype Fields = Fields(step: nat, claim: nat, left: int, error: bool, permits: nat, done: bool)

  /** What a read left in its buffer, and whether it reached the end of the row. */
  datatype Got = Got(row: Bytes, whole: bool)

  datatype Caller = Idle | Release(more: nat) | OwnSlice(k: nat, hi: nat) | OwnCopy(k: nat, hi: nat, got: Got) | Wait

  datatype Pc =
    | Parked
    | Acquired
    | Claimed(part: nat)
    | Reading(part: nat, k: nat, hi: nat)
    | Copying(part: nat, k: nat, hi: nat, got: Got)
    | Failed(part: nat)
    | Tally

  /** `work` is the job whose buffers the worker's locals point to. */
  datatype Worker = Worker(work: nat, pc: Pc)

  datatype Outcome = Filled | Raised

  datatype Returned = Returned(job: Job, outcome: Outcome)

  /** `wild` is raised when the caller's own slice raises while helpers are still out. */
  datatype Pool = Pool(
    f: Fields, job: Job, helpers: nat, caller: Caller, workers: seq<Worker>, past: seq<Returned>, wild: bool)

  /** Reads say how many bytes were delivered and what their buffer held before: neither is looked at. */
  datatype Action =
    | Publish(rows: seq<Option<RowRead>>, zero: Bytes)
    | CallerStep
    | CallerRead(count: nat, prior: Bytes)
    | CallerRaise
    | WorkerStep(k: nat)
    | WorkerRead(k: nat, count: nat, prior: Bytes)
    | WorkerRaise(k: nat)

  function Least(a: nat, b: nat): nat { if a < b then a else b }

  /** Rows per slice: n rows over `parts` slices, rounded up. */
  function StepSize(n: nat, parts: nat): (r: nat)
    requires parts > 0
  {
    DivNat(n + parts - 1, parts);
    (n + parts - 1) / parts
  }

  function SliceEnd(step: nat, n: nat, part: nat): nat { Least(part * step + step, n) }

  // ---------- the caller ----------

  function DoPublish(s: Pool, rows: seq<Option<RowRead>>, zero: Bytes): Pool
    requires rows != []
  {
    var n := |rows|;
    var parts := Least(|s.workers| + 1, n);
    var helpers := parts - 1;
    s.(f := Fields(StepSize(n, parts), 1, helpers, false, s.f.permits, if helpers > 0 then false else s.f.done),
       job := Job(s.job.serial + 1, rows, zero, seq(n, _ => zero), Wants(rows), []),
       helpers := helpers,
       caller := Release(helpers))
  }

  /** Position `k` of the slice is a row to read. */
  predicate Due(j: Job, k: nat, hi: nat) { k < hi && k < |j.rows| && j.rows[k].Some? }

  predicate CallerEnabled(s: Pool) {
    match s.caller
    case Idle => false
    case OwnSlice(k, hi) => !Due(s.job, k, hi)
    case Wait => s.helpers == 0 || s.f.done
    case _ => true
  }

  /** Putting a row in its place of the result. */
  function Stored(j: Job, k: nat, got: Got): Job {
    if k < |j.dst| == |j.owed| then
      j.(dst := j.dst[k := got.row], owed := if got.whole then j.owed else j.owed[k := None])
    else j
  }

  function DoCallerRead(s: Pool, count: nat, prior: Bytes): Pool
    requires s.caller.OwnSlice? && Due(s.job, s.caller.k, s.caller.hi)
    requires |prior| == |s.job.rows[s.caller.k].value.want|
  {
    var r := s.job.rows[s.caller.k].value;
    s.(caller := OwnCopy(s.caller.k, s.caller.hi, Got(r.Received(count, prior), r.Whole(count))))
  }

  function DoCaller(s: Pool): Pool
    requires CallerEnabled(s)
  {
    match s.caller
    case Release(more) =>
      if more > 0 then s.(f := s.f.(permits := s.f.permits + 1), caller := Release(more - 1))
      else s.(caller := OwnSlice(0, Least(s.f.step, |s.job.rows|)))
    case OwnSlice(k, hi) =>
      if k >= hi || k >= |s.job.rows| then s.(caller := Wait)
      else s.(caller := OwnSlice(k + 1, hi))
    case OwnCopy(k, hi, got) => s.(job := Stored(s.job, k, got), caller := OwnSlice(k + 1, hi))
    case Wait =>
      s.(caller := Idle, past := s.past + [Returned(s.job, if s.f.error then Raised else Filled)])
  }

  /** A read of the caller's own slice raises out of run(); the lock is released, nothing is joined. */
  function DoCallerRaise(s: Pool): Pool
    requires s.caller.OwnSlice?
  {
    s.(caller := Idle, past := s.past + [Returned(s.job, Raised)], wild := s.wild || (s.helpers > 0 && !s.f.done))
  }

  // ---------- the workers ----------

  function WithPc(s: Pool, w: nat, pc: Pc): Pool
    requires w < |s.workers|
  {
    s.(workers := s.workers[w := s.workers[w].(pc := pc)])
  }

  function DoAcquire(s: Pool, w: nat): Pool
    requires w < |s.workers| && s.f.permits > 0
  {
    WithPc(s.(f := s.f.(permits := s.f.permits - 1)), w, Acquired)
  }

  function DoClaim(s: Pool, w: nat): Pool
    requires w < |s.workers|
  {
    WithPc(s.(f := s.f.(claim := s.f.claim + 1), job := s.job.(owner := s.job.owner + [w])), w, Claimed(s.f.claim))
  }

  /** Enters _slice: reads the job and the step into locals. */
  function DoEnter(s: Pool, w: nat): Pool
    requires w < |s.workers| && s.workers[w].pc.Claimed?
  {
    var p := s.workers[w].pc.part;
    var t := s.workers[w].(work := s.job.serial);
    var lo := p * s.f.step;
    if lo >= |s.job.rows| then s.(workers := s.workers[w := t.(pc := Tally)])
    else s.(workers := s.workers[w := t.(pc := Reading(p, lo, SliceEnd(s.f.step, |s.job.rows|, p)))])
  }

  /** The worker is at a row of the current gather. */
  predicate AtRow(s: Pool, w: nat) {
    && w < |s.workers| && s.workers[w].pc.Reading?
    && s.workers[w].work == s.job.serial && Due(s.job, s.workers[w].pc.k, s.workers[w].pc.hi)
  }

  /** One position of the slice without a read for this gather, or the end of the slice. */
  function DoSkip(s: Pool, w: nat): Pool
    requires w < |s.workers| && s.workers[w].pc.Reading?
  {
    var Reading(p, k, hi) := s.workers[w].pc;
    WithPc(s, w, if k >= hi then Tally else Reading(p, k + 1, hi))
  }

  function DoRead(s: Pool, w: nat, count: nat, prior: Bytes): Pool
    requires AtRow(s, w) && |prior| == |s.job.rows[s.workers[w].pc.k].value.want|
  {
    var Reading(p, k, hi) := s.workers[w].pc;
    var r := s.job.rows[k].value;
    WithPc(s, w, Copying(p, k, hi, Got(r.Received(count, prior), r.Whole(count))))
  }

  function DoCopy(s: Pool, w: nat): Pool
    requires w < |s.workers| && s.workers[w].pc.Copying?
  {
    var Copying(p, k, hi, got) := s.workers[w].pc;
    WithPc(s.(job := if s.workers[w].work == s.job.serial then Stored(s.job, k, got) else s.job), w,
      Reading(p, k + 1, hi))
  }

  function DoFail(s: Pool, w: nat): Pool
    requires w < |s.workers| && s.workers[w].pc.Failed?
  {
    WithPc(s.(f := s.f.(error := true)), w, Tally)
  }

  /** Counts the slice down; the last one sets the done event. */
  function DoTally(s: Pool, w: nat): Pool
    requires w < |s.workers|
  {
    WithPc(s.(f := s.f.(left := s.f.left - 1, done := s.f.done || s.f.left == 1)), w, Parked)
  }

  predicate WorkerEnabled(s: Pool, w: nat) {
    w < |s.workers| && (s.workers[w].pc == Parked ==> s.f.permits > 0) && !AtRow(s, w)
  }

  function DoWorker(s: Pool, w: nat): Pool
    requires WorkerEnabled(s, w)
  {
    match s.workers[w].pc
    case Parked => DoAcquire(s, w)
    case Acquired => DoClaim(s, w)
    case Claimed(_) => DoEnter(s, w)
    case Reading(_, _, _) => DoSkip(s, w)
    case Copying(_, _, _, _) => DoCopy(s, w)
    case Failed(_) => DoFail(s, w)
    case Tally => DoTally(s, w)
  }

  /** The wanted rows and the zero row are all one stride long. */
  predicate OneStride(rows: seq<Option<RowRead>>, zero: Bytes) {
    forall k :: 0 <= k < |rows| && rows[k].Some? ==> |rows[k].value.want| == |zero|
  }

  predicate Enabled(s: Pool, a: Action) {
    match a
    case Publish(rows, zero) => s.caller == Idle && rows != [] && OneStride(rows, zero)
    case CallerStep => CallerEnabled(s)
    case CallerRead(_, prior) =>
      s.caller.OwnSlice? && Due(s.job, s.caller.k, s.caller.hi) && |prior| == |s.job.rows[s.caller.k].value.want|
    case CallerRaise => s.caller.OwnSlice? && s.caller.k < s.caller.hi
    case WorkerStep(w) => WorkerEnabled(s, w)
    case WorkerRead(w, _, prior) => AtRow(s, w) && |prior| == |s.job.rows[s.workers[w].pc.k].value.want|
    case WorkerRaise(w) => w < |s.workers| && s.workers[w].pc.Reading? && s.workers[w].pc.k < s.workers[w].pc.hi
  }

  function Apply(s: Pool, a: Action): Pool
    requires Enabled(s, a)
  {
    match a
    case Publish(rows, zero) => DoPublish(s, rows, zero)
    case CallerStep => DoCaller(s)
    case CallerRead(count, prior) => DoCallerRead(s, count, prior)
    case CallerRaise => DoCallerRaise(s)
    case WorkerStep(w) => DoWorker(s, w)
    case WorkerRead(w, count, prior) => DoRead(s, w, count, prior)
    case WorkerRaise(w) => WithPc(s, w, Failed(s.workers[w].pc.part))
  }

  predicate Init(s: Pool) {
    && s.caller == Idle && s.past == [] && !s.wild
    && s.f.permits == 0 && s.f.left == 0
    && forall w :: 0 <= w < |s.workers| ==> s.workers[w].pc == Parked
  }

  predicate Run(s: Pool, actions: seq<Action>, t: Pool)
    decreases |actions|
  {
    if actions == [] then t == s
    else Enabled(s, actions[0]) && Run(Apply(s, actions[0]), actions[1..], t)
  }
}
