/** Deferral of automatic garbage collection, shared by threads that enter and leave in any order. */
module GcGate {
  import opened Common

  /** The module's globals and the collector's switch. */
  datatype Globals = Globals(holders: int, restore: bool, collecting: bool) {
    function Enter(): Globals {
      if holders == 0 then Globals(1, collecting, false) else this.(holders := holders + 1)
    }

    function Leave(): Globals {
      Globals(holders - 1, restore, collecting || (holders == 1 && restore))
    }
  }

  /** The lock-protected halves of the context manager. */
  class Gate {
    var holders: int
    var restore: bool
    var collecting: bool

    function Now(): Globals
      reads this
    {
      Globals(holders, restore, collecting)
    }

    constructor (collecting: bool)
      ensures Now() == Globals(0, false, collecting)
    {
      this.holders, this.restore, this.collecting := 0, false, collecting;
    }

    /** Thread `t` enters: the gate keeps counting, and collection is off from here on. */
    method Enter(ghost inside: seq<nat>, ghost t: nat, ghost initially: bool)
      requires t < |inside| && Counted(Run(Now(), inside), initially)
      modifies this
      ensures Counted(Run(Now(), inside[t := inside[t] + 1]), initially)
      ensures !collecting && holders == old(holders) + 1
    {
      NextCounts(Run(Now(), inside), Enters(t), initially);
      SumMember(inside, t, Itself);
      if holders == 0 {
        restore := collecting;
        collecting := false;
      }
      holders := holders + 1;
    }

    /** Thread `t` leaves: the last one out puts collection back into its first state. */
    method Leave(ghost inside: seq<nat>, ghost t: nat, ghost initially: bool)
      requires t < |inside| && inside[t] > 0 && Counted(Run(Now(), inside), initially)
      modifies this
      ensures Counted(Run(Now(), inside[t := inside[t] - 1]), initially)
      ensures collecting == (holders == 0 && initially) && holders == old(holders) - 1
    {
      NextCounts(Run(Now(), inside), Leaves(t), initially);
      holders := holders - 1;
      if holders == 0 && restore { collecting := true; }
    }
  }

  /** A thread enters the context, or leaves it, normally or by an exception. */
  datatype Event = Enters(thread: nat) | Leaves(thread: nat)

  /** The globals and how many contexts each thread is inside. */
  datatype Run = Run(globals: Globals, inside: seq<nat>)

  predicate Possible(r: Run, e: Event) {
    e.thread < |r.inside| && (e.Leaves? ==> r.inside[e.thread] > 0)
  }

  function Next(r: Run, e: Event): Run
    requires Possible(r, e)
  {
    match e
    case Enters(t) => Run(r.globals.Enter(), r.inside[t := r.inside[t] + 1])
    case Leaves(t) => Run(r.globals.Leave(), r.inside[t := r.inside[t] - 1])
  }

  function Itself(n: nat): nat { n }

  /** Holders are counted, collection is off while there are any, and its first state is remembered. */
  ghost predicate Counted(r: Run, initially: bool) {
    && r.globals.holders == Sum(r.inside, Itself)
    && r.globals.collecting == (r.globals.holders == 0 && initially)
    && (r.globals.holders > 0 ==> r.globals.restore == initially)
  }

  lemma NextCounts(r: Run, e: Event, initially: bool)
    requires Possible(r, e) && Counted(r, initially)
    ensures Counted(Next(r, e), initially)
  {
    var t := e.thread;
    SumUpdate(r.inside, t, if e.Enters? then r.inside[t] + 1 else r.inside[t] - 1, Itself);
    SumMember(r.inside, t, Itself);
  }

  /** An interleaving of the threads' entries and exits, from the start. */
  ghost predicate Interleaving(runs: seq<Run>, threads: nat, initially: bool) {
    && |runs| > 0
    && runs[0].globals == Globals(0, runs[0].globals.restore, initially)
    && |runs[0].inside| == threads && (forall t :: 0 <= t < threads ==> runs[0].inside[t] == 0)
    && forall i :: 0 <= i < |runs| - 1 ==> Stepped(runs[i], runs[i + 1])
  }

  ghost predicate Stepped(r: Run, q: Run) {
    exists e :: Possible(r, e) && q == Next(r, e)
  }

  lemma {:induction false} InterleavingCounts(runs: seq<Run>, threads: nat, initially: bool, i: nat)
    requires Interleaving(runs, threads, initially) && i < |runs|
    ensures Counted(runs[i], initially)
  {
    if i == 0 {
      SumZero(runs[0].inside, Itself);
    } else {
      InterleavingCounts(runs, threads, initially, i - 1);
      assert Stepped(runs[i - 1], runs[i]);
      var e :| Possible(runs[i - 1], e) && runs[i] == Next(runs[i - 1], e);
      NextCounts(runs[i - 1], e, initially);
    }
  }

  /**
   * However the threads overlap: collection is off exactly while some thread is inside (or was off from the
   * start), and it is back in its first state when the last one has left.
   */
  lemma CollectionIsDeferred(runs: seq<Run>, threads: nat, initially: bool, i: nat)
    requires Interleaving(runs, threads, initially) && i < |runs|
    ensures runs[i].globals.collecting <==>
      initially && forall t :: 0 <= t < |runs[i].inside| ==> runs[i].inside[t] == 0
  {
    InterleavingCounts(runs, threads, initially, i);
    SumZero(runs[i].inside, Itself);
    assert forall t :: 0 <= t < |runs[i].inside| ==> Itself(runs[i].inside[t]) == runs[i].inside[t];
  }
}
