/**
 * The shared worker pool as a machine of interleaved atomic steps: one caller (jobs are serialized
 * by a mutex), any number of workers, and outside threads that serve small lookups directly. All of
 * them fetch rows through the same lock-striped cache.
 */
module RowPool {
  import opened Common
  import opened RowFile
  import opened RowCache
  import opened RowStore

  const CHUNK: nat := 1

  type Row = r: seq<byte> | |r| == ROW_BYTES witness seq(ROW_BYTES, _ => 0 as byte)

  // ---------- one fetch_row call, as three critical steps ----------

  datatype Call = Looking | Reading | Filling(row: Row) | Fetched(row: Row)

  /** The cache with its counters; `completed` counts finished fetch_row calls. */
  datatype Shared = Shared(cache: Cache, hits: nat, misses: nat, completed: nat)

  /** The next atomic step of a call: locked lookup, unlocked read, locked insertion. */
  function Advance(b: Shard, s: Shared, id: nat, call: Call): (r: (Shared, Call))
    requires b.Valid() && b.Owned(id) && s.cache.Valid() && !call.Fetched?
  {
    match call
    case Looking =>
      (match s.cache.Lookup(id)
       case Some(row) =>
         LookupLength(s.cache, id);
         (s.(hits := s.hits + 1, completed := s.completed + 1), Fetched(row))
       case None => (s, Reading))
    case Reading =>
      b.MissRowIsRow(id);
      (s.(misses := s.misses + 1), Filling(b.MissRow(id)))
    case Filling(row) =>
      (s.(cache := s.cache.Insert(id, row), completed := s.completed + 1), Fetched(row))
  }

  lemma LookupLength(c: Cache, id: nat)
    requires c.Valid()
    ensures c.Lookup(id).Some? ==> |c.Lookup(id).value| == ROW_BYTES
  {}

  function Filled(call: Call): nat { if call.Filling? then 1 else 0 }

  /** A call in flight carries nothing but the row of its id. */
  ghost predicate CallExact(b: Shard, id: nat, call: Call)
    requires b.Valid()
  {
    && b.Owned(id)
    && (call.Filling? || call.Fetched? ==> call.row == b.table.Row(id))
  }

  ghost predicate SharedOk(b: Shard, s: Shared)
    requires b.Valid()
  {
    s.cache.Valid() && s.cache.Transparent(b)
  }

  /** Whatever the other threads did to the cache meanwhile, a call's next step stays exact. */
  lemma AdvanceExact(b: Shard, s: Shared, id: nat, call: Call)
    requires b.Valid() && SharedOk(b, s) && CallExact(b, id, call) && !call.Fetched?
    ensures var (t, next) := Advance(b, s, id, call);
      && SharedOk(b, t) && CallExact(b, id, next)
      && t.hits + t.misses + s.completed + Filled(call) == s.hits + s.misses + t.completed + Filled(next)
      && t.hits == s.hits + (if call.Looking? && s.cache.Lookup(id).Some? then 1 else 0)
  {
    match call
    case Looking => LookupIsRow(b, s.cache, id);
    case Reading => b.MissRowIsRow(id);
    case Filling(row) => InsertTransparent(b, s.cache, id);
  }

  // ---------- the machine ----------

  datatype Pc =
    | Out
    | Claim
    | Begin(i: nat)
    | Fetch(i: nat, id: nat, call: Call)
    | Write(i: nat, row: Row)
    | Tally
    | Notify
    | Leave

  /** A thread's own variables: the job it drains, the generation it saw, its program point. */
  datatype Thread = Thread(work: nat, seen: nat, pc: Pc)

  datatype Caller = Idle | Draining | Locking | Checked | Asleep

  datatype Outside = Resting | Calling(id: nat, call: Call)

  /**
   * A published job: its ids, its output rows, how often each index was written,
   * and which thread drew which ticket.
   */
  datatype Job = Job(serial: nat, ids: seq<int>, out: seq<Row>, serves: seq<nat>, owner: seq<nat>)

  /** The pool's own fields, with where the caller is inside run(). */
  datatype Fields = Fields(
    job: Option<nat>, next: nat, chunks: nat, remaining: int, active: int, generation: nat, caller: Caller)

  /**
   * Thread 0 is the caller. `past` holds the jobs that returned, whose buffers are back with their owners;
   * a thread that still holds such a job serves and writes into those buffers, and raises `stale`.
   */
  datatype Pool = Pool(
    f: Fields, job: Job, threads: seq<Thread>, shared: Shared, outsiders: seq<Outside>,
    past: seq<Job>, stale: bool, aborted: bool)

  datatype Action =
    | Publish(ids: seq<int>, buffer: seq<Row>)
    | Wake(worker: nat)
    | Step(thread: nat)
    | Lock
    | Check
    | Awake
    | OutsideStart(who: nat, id: nat)
    | OutsideStep(who: nat)
    | ReadFails(thread: nat)
    | OutsideFails(who: nat)

  predicate HasIndex(pc: Pc) { pc.Begin? || pc.Fetch? || pc.Write? }

  /** The pool mutex is held across the caller's check-then-sleep; other users of it must wait. */
  predicate MutexFree(s: Pool) { s.f.caller != Checked }

  /** notify_one on `done_`, whose only waiter is the caller. */
  function Woken(c: Caller): Caller { if c == Asleep then Locking else c }

  function WithPc(s: Pool, k: nat, pc: Pc): Pool
    requires k < |s.threads|
  {
    s.(threads := s.threads[k := s.threads[k].(pc := pc)])
  }

  // ---------- the steps of a thread inside drain() ----------

  /** fetch_add on the ticket counter; a ticket past the end leaves the loop. */
  function StepClaim(s: Pool, k: nat): Pool
    requires k < |s.threads|
  {
    var f := s.f.(next := s.f.next + 1);
    if s.f.next < s.f.chunks then
      WithPc(s.(f := f, job := s.job.(owner := s.job.owner + [k])), k, Begin(s.f.next))
    else if k == 0 then WithPc(s.(f := f.(caller := Locking)), k, Out)
    else WithPc(s.(f := f), k, Leave)
  }

  /** Where a returned job is kept. */
  function FindPast(past: seq<Job>, serial: nat): (r: Option<nat>)
    ensures r.Some? ==> r.value < |past| && past[r.value].serial == serial
  {
    if past == [] then None
    else if past[|past| - 1].serial == serial then Some(|past| - 1)
    else FindPast(past[..|past| - 1], serial)
  }

  /** The serving loop of a thread whose job has returned: it goes by that job's ids. */
  function StaleBegin(b: Shard, s: Pool, k: nat): Pool
    requires k < |s.threads| && s.threads[k].pc.Begin?
  {
    var i, at := s.threads[k].pc.i, FindPast(s.past, s.threads[k].work);
    var r := s.(stale := true);
    if at.None? || i >= |s.past[at.value].ids| then WithPc(r, k, Tally)
    else
      var id := s.past[at.value].ids[i];
      if id < 0 || id >= b.table.rows then r.(aborted := true)
      else if !b.Owned(id) then WithPc(r, k, Write(i, seq(ROW_BYTES, _ => 0 as byte)))
      else WithPc(r, k, Fetch(i, id, Looking))
  }

  /** Its copy lands in that job's buffers. */
  function StaleWrite(s: Pool, k: nat): Pool
    requires k < |s.threads| && s.threads[k].pc.Write?
  {
    var Write(i, row) := s.threads[k].pc;
    var at := FindPast(s.past, s.threads[k].work);
    var r := s.(stale := true);
    if at.None? || i >= |s.past[at.value].out| then WithPc(r, k, Tally)
    else WithPc(r.(past := s.past[at.value := s.past[at.value].(out := s.past[at.value].out[i := row])]), k, Tally)
  }

  /** The head of the serving loop: bounds check, zeros for rows of other ranks, else a fetch. */
  function StepBegin(b: Shard, s: Pool, k: nat): Pool
    requires k < |s.threads| && s.threads[k].pc.Begin?
  {
    var i := s.threads[k].pc.i;
    if s.threads[k].work != s.job.serial then StaleBegin(b, s, k)
    else if i >= |s.job.ids| then WithPc(s, k, Tally)
    else
      var id := s.job.ids[i];
      if id < 0 || id >= b.table.rows then s.(aborted := true)
      else if !b.Owned(id) then WithPc(s, k, Write(i, seq(ROW_BYTES, _ => 0 as byte)))
      else WithPc(s, k, Fetch(i, id, Looking))
  }

  function StepFetch(b: Shard, s: Pool, k: nat): Pool
    requires k < |s.threads| && s.threads[k].pc.Fetch?
    requires b.Valid() && b.Owned(s.threads[k].pc.id) && s.shared.cache.Valid()
  {
    var Fetch(i, id, call) := s.threads[k].pc;
    if call.Fetched? then WithPc(s, k, Write(i, call.row))
    else
      var (shared, next) := Advance(b, s.shared, id, call);
      WithPc(s.(shared := shared), k, Fetch(i, id, next))
  }

  function StepWrite(s: Pool, k: nat): Pool
    requires k < |s.threads| && s.threads[k].pc.Write?
  {
    var Write(i, row) := s.threads[k].pc;
    if s.threads[k].work != s.job.serial || i >= |s.job.out| || i >= |s.job.serves| then StaleWrite(s, k)
    else WithPc(s.(job := s.job.(out := s.job.out[i := row], serves := s.job.serves[i := s.job.serves[i] + 1])), k,
      Tally)
  }

  /** fetch_sub on `remaining_`; whoever takes it to zero notifies. */
  function StepTally(s: Pool, k: nat): Pool
    requires k < |s.threads|
  {
    WithPc(s.(f := s.f.(remaining := s.f.remaining - 1)), k, if s.f.remaining == 1 then Notify else Claim)
  }

  function StepNotify(s: Pool, k: nat): Pool
    requires k < |s.threads|
  {
    WithPc(s.(f := s.f.(caller := Woken(s.f.caller))), k, Claim)
  }

  /** A worker uncounts itself and notifies, under the mutex. */
  function StepLeave(s: Pool, k: nat): Pool
    requires k < |s.threads|
  {
    WithPc(s.(f := s.f.(active := s.f.active - 1, caller := Woken(s.f.caller))), k, Out)
  }

  ghost predicate StepEnabled(b: Shard, s: Pool, k: nat) {
    && k < |s.threads|
    && s.threads[k].pc != Out && (k == 0 ==> s.threads[k].pc != Leave)
    && (s.threads[k].pc == Notify || s.threads[k].pc == Leave ==> MutexFree(s))
    && (s.threads[k].pc.Fetch? ==> b.Valid() && b.Owned(s.threads[k].pc.id) && s.shared.cache.Valid())
  }

  ghost function Drain(b: Shard, s: Pool, k: nat): Pool
    requires StepEnabled(b, s, k)
  {
    match s.threads[k].pc
    case Claim => StepClaim(s, k)
    case Begin(_) => StepBegin(b, s, k)
    case Fetch(_, _, _) => StepFetch(b, s, k)
    case Write(_, _) => StepWrite(s, k)
    case Tally => StepTally(s, k)
    case Notify => StepNotify(s, k)
    case Leave => StepLeave(s, k)
  }

  // ---------- the other steps ----------

  /** run() installs the next job under the mutex; the buffers it is given hold anything. */
  function DoPublish(s: Pool, ids: seq<int>, buffer: seq<Row>): Pool
    requires |s.threads| > 0
  {
    var n := s.job.serial + 1;
    var chunks := (|ids| + CHUNK - 1) / CHUNK;
    s.(f := Fields(Some(n), 0, chunks, chunks, s.f.active, s.f.generation + 1, Draining),
       job := Job(n, ids, buffer, seq(|ids|, _ => 0), []),
       threads := s.threads[0 := s.threads[0].(work := n, pc := Claim)])
  }

  /** A parked worker sees a new generation and counts itself in under the mutex. */
  function DoWake(s: Pool, k: nat): Pool
    requires k < |s.threads|
  {
    var t := s.threads[k].(seen := s.f.generation);
    if s.f.job.Some? then
      s.(f := s.f.(active := s.f.active + 1), threads := s.threads[k := t.(work := s.f.job.value, pc := Claim)])
    else s.(threads := s.threads[k := t])
  }

  /** The wait predicate, evaluated with the mutex held: return from run(), or sleep. */
  function DoCheck(s: Pool): Pool {
    if s.f.remaining == 0 && s.f.active == 0 then s.(f := s.f.(caller := Idle, job := None), past := s.past + [s.job])
    else s.(f := s.f.(caller := Asleep))
  }

  function DoOutside(b: Shard, s: Pool, k: nat): Pool
    requires k < |s.outsiders| && s.outsiders[k].Calling?
    requires b.Valid() && b.Owned(s.outsiders[k].id) && s.shared.cache.Valid()
  {
    var Calling(id, call) := s.outsiders[k];
    if call.Fetched? then s.(outsiders := s.outsiders[k := Resting])
    else
      var (shared, next) := Advance(b, s.shared, id, call);
      s.(shared := shared, outsiders := s.outsiders[k := Calling(id, next)])
  }

  ghost predicate OutsideEnabled(b: Shard, s: Pool, k: nat) {
    && k < |s.outsiders| && s.outsiders[k].Calling?
    && b.Valid() && b.Owned(s.outsiders[k].id) && s.shared.cache.Valid()
  }

  ghost predicate Enabled(b: Shard, s: Pool, a: Action) {
    && !s.aborted && |s.threads| > 0
    && match a
       case Publish(ids, buffer) => s.f.caller == Idle && |buffer| == |ids|
       case Wake(k) => 0 < k < |s.threads| && s.threads[k].pc == Out && s.threads[k].seen != s.f.generation &&
         MutexFree(s)
       case Step(k) => StepEnabled(b, s, k)
       case Lock => s.f.caller == Locking
       case Check => s.f.caller == Checked
       case Awake => s.f.caller == Asleep
       case OutsideStart(k, id) => k < |s.outsiders| && s.outsiders[k].Resting? && b.Owned(id)
       case OutsideStep(k) => OutsideEnabled(b, s, k)
       case ReadFails(k) => k < |s.threads| && s.threads[k].pc.Fetch? && s.threads[k].pc.call.Reading?
       case OutsideFails(k) => k < |s.outsiders| && s.outsiders[k].Calling? && s.outsiders[k].call.Reading?
  }

  ghost function Apply(b: Shard, s: Pool, a: Action): Pool
    requires Enabled(b, s, a)
  {
    match a
    case Publish(ids, buffer) => DoPublish(s, ids, buffer)
    case Wake(k) => DoWake(s, k)
    case Step(k) => Drain(b, s, k)
    case Lock => s.(f := s.f.(caller := Checked))
    case Check => DoCheck(s)
    case Awake => s.(f := s.f.(caller := Locking))
    case OutsideStart(k, id) => s.(outsiders := s.outsiders[k := Calling(id, Looking)])
    case OutsideStep(k) => DoOutside(b, s, k)
    case ReadFails(_) => s.(aborted := true)
    case OutsideFails(_) => s.(aborted := true)
  }

  /** No job yet, nobody inside, nobody holding the mutex, a transparent cache. */
  ghost predicate Init(b: Shard, s: Pool) {
    && b.Valid() && SharedOk(b, s.shared) && s.shared.hits + s.shared.misses == s.shared.completed
    && s.f == Fields(None, 0, 0, 0, 0, 0, Idle)
    && s.past == [] && !s.stale && !s.aborted
    && |s.threads| > 0 && (forall k :: 0 <= k < |s.threads| ==> s.threads[k].pc == Out && s.threads[k].seen == 0)
    && (forall k :: 0 <= k < |s.outsiders| ==> s.outsiders[k].Resting?)
  }

  /** `s` evolves into `t` through the given actions, each enabled when it is taken. */
  ghost predicate Run(b: Shard, s: Pool, actions: seq<Action>, t: Pool)
    decreases |actions|
  {
    if actions == [] then t == s
    else Enabled(b, s, actions[0]) && Run(b, Apply(b, s, actions[0]), actions[1..], t)
  }
}
