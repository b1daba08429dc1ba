/** Filtering artifact tags out of a build clone, and putting them back. */
module BuildTags {
  import opened Common

  type Ref = string
  type Oid = string
  type Refs = map<Ref, Oid>

  const PREFIX: Ref := "refs/tags/vllm-jovian-cu134-"

  /** The tags `for-each-ref` lists for the pattern; its star does not cross a slash. */
  predicate Artifact(r: Ref) {
    PREFIX <= r && '/' !in r[|PREFIX|..]
  }

  /** The artifact namespace: a tag whose name is the prefix and anything without a slash. */
  ghost predicate InNamespace(r: Ref) {
    exists name: string :: r == "refs/tags/vllm-jovian-cu134-" + name && '/' !in name
  }

  lemma ArtifactExactly(r: Ref)
    ensures Artifact(r) <==> InNamespace(r)
  {
    if Artifact(r) { assert r == PREFIX + r[|PREFIX|..]; }
    if InNamespace(r) {
      var name: string :| r == "refs/tags/vllm-jovian-cu134-" + name && '/' !in name;
      assert r[|PREFIX|..] == name;
    }
  }

  predicate HexDigit(c: char) {
    '0' <= c <= '9' || 'a' <= c <= 'f'
  }

  /** A saved entry that restoring accepts. */
  predicate ValidEntry(r: Ref, oid: Oid) {
    PREFIX <= r && 40 <= |oid| <= 64 && forall i :: 0 <= i < |oid| ==> HexDigit(oid[i])
  }

  /** Every object id, of either hash, is accepted for an artifact tag. */
  lemma ObjectIdsAreValid(r: Ref, oid: Oid)
    requires Artifact(r) && (|oid| == 40 || |oid| == 64)
    requires forall i :: 0 <= i < |oid| ==> '0' <= oid[i] <= '9' || 'a' <= oid[i] <= 'f'
    ensures ValidEntry(r, oid)
  {}

  function Artifacts(refs: Refs): (r: Refs)
    ensures r.Keys <= refs.Keys && forall x :: x in r <==> x in refs && Artifact(x)
    ensures forall x :: x in r ==> r[x] == refs[x]
  {
    map x | x in refs && Artifact(x) :: refs[x]
  }

  /** A clone's refs and its backup record. */
  datatype State = State(refs: Refs, record: Option<Refs>) {
    function Saved(): Refs { record.GetOr(map[]) }
  }

  /** Two maps agree on every ref both have. */
  predicate Agree(a: Refs, b: Refs) {
    forall r :: r in a && r in b ==> a[r] == b[r]
  }

  /** The states a filtering run may leave: refused, complete, or stopped after any of its deletions. */
  ghost predicate PrepareReaches(s: State, t: State) {
    || t == s
    || (&& Agree(Artifacts(s.refs), s.Saved())
        && t.record == Some(s.Saved() + Artifacts(s.refs))
        && Dropped(s.refs, t.refs))
  }

  /** Only artifact tags are gone, and nothing else changed. */
  ghost predicate Dropped(before: Refs, after: Refs) {
    && (forall r :: r in after ==> r in before && after[r] == before[r])
    && (forall r :: r in before && r !in after ==> Artifact(r))
  }

  /** The states a restoring run may leave: some of the saved refs are back, existing refs are as they were. */
  ghost predicate RestoreReaches(s: State, t: State) {
    && t.record == s.record
    && (forall r :: r in s.refs ==> r in t.refs && t.refs[r] == s.refs[r])
    && (forall r :: r in t.refs && r !in s.refs ==>
          r in s.Saved() && t.refs[r] == s.Saved()[r] && ValidEntry(r, t.refs[r]))
  }

  predicate Restorable(refs: Refs, saved: Refs) {
    Agree(refs, saved) && forall r :: r in saved ==> ValidEntry(r, saved[r])
  }

  /** A disposable build clone. */
  class Clone {
    var refs: Refs
    var record: Option<Refs>

    function Now(): State
      reads this
    {
      State(refs, record)
    }

    constructor (refs: Refs, record: Option<Refs>)
      ensures Now() == State(refs, record)
    {
      this.refs := refs;
      this.record := record;
    }

    /** Filter the tags; the process is stopped after `lives` deletions, if it gets that far. */
    method Prepare(lives: nat) returns (ok: bool, stopped: bool)
      modifies this
      ensures PrepareReaches(old(Now()), Now())
      ensures ok || stopped <==> Agree(Artifacts(old(refs)), old(Now()).Saved())
      ensures ok ==> record == Some(old(Now()).Saved() + Artifacts(old(refs))) && forall r :: r in refs ==> !Artifact(r)
      ensures forall r :: r in old(refs) && !InNamespace(r) ==> r in refs && refs[r] == old(refs)[r]
      ensures ok ==> forall r :: r in refs ==> !InNamespace(r)
      ensures !ok && !stopped ==> Now() == old(Now())
      ensures stopped ==> |Artifacts(old(refs))| > lives
    {
      forall r | r in refs ensures Artifact(r) <==> InNamespace(r) { ArtifactExactly(r); }
      hide Artifact, Agree, PrepareReaches, InNamespace;
      var entries := Artifacts(refs);
      var saved := Merge(record.GetOr(map[]), entries);
      Unprepared(Now());
      if saved.None? { return false, false; }
      record := saved;
      stopped := Delete(entries.Keys, lives);
      Prepared(old(Now()), Now());
      ok := !stopped;
    }

    /** Delete the listed refs, in any order. */
    method Delete(listed: set<Ref>, lives: nat) returns (stopped: bool)
      requires listed <= refs.Keys
      modifies this`refs
      ensures forall r :: r in refs ==> r in old(refs) && refs[r] == old(refs)[r]
      ensures forall r :: r in old(refs) && r !in refs ==> r in listed
      ensures !stopped ==> forall r :: r in refs ==> r !in listed
      ensures stopped ==> |listed| > lives
    {
      var left, done := listed, 0;
      while left != {}
        invariant left <= listed && done + |left| == |listed|
        invariant forall r :: r in refs ==> r in old(refs) && refs[r] == old(refs)[r]
        invariant forall r :: r in old(refs) ==> (r !in refs <==> r in listed && r !in left)
        decreases |left|
      {
        if done == lives { return true; }
        var r :| r in left;
        refs := refs - {r};
        left := left - {r};
        done := done + 1;
      }
      stopped := false;
    }

    /** Put the saved tags back, in any order; existing refs are never overwritten. */
    method Restore() returns (ok: bool)
      modifies this`refs
      ensures RestoreReaches(old(Now()), Now())
      ensures ok <==> Restorable(old(refs), old(Now()).Saved())
      ensures ok ==> refs == old(Now()).Saved() + old(refs)
    {
      hide ValidEntry, Restored, RestoreReaches, Agree, Restorable;
      var saved := record.GetOr(map[]);
      var left := saved.Keys;
      RestoredStart(refs, saved);
      while left != {}
        invariant left <= saved.Keys
        invariant Restored(old(refs), refs, saved, left)
        decreases |left|
      {
        RestoredReached(old(Now()), Now(), left);
        var r :| r in left;
        var oid := saved[r];
        ghost var was := refs;
        if !ValidEntry(r, oid) {
          Unrestorable(old(refs), refs, saved, left, r);
          return false;
        }
        if r in refs {
          if refs[r] != oid {
            Unrestorable(old(refs), refs, saved, left, r);
            return false;
          }
        } else {
          refs := refs[r := oid];
        }
        RestoredStep(old(refs), was, saved, left, r);
        left := left - {r};
      }
      RestoredReached(old(Now()), Now(), {});
      RestoredDone(old(refs), refs, saved);
      ok := true;
    }
  }

  /** Every saved entry outside `left` is valid and back; existing refs are as they were. */
  ghost predicate Restored(before: Refs, now: Refs, saved: Refs, left: set<Ref>) {
    && (forall r :: r in before ==> r in now && now[r] == before[r])
    && (forall r :: r in now && r !in before ==> r in saved && r !in left && now[r] == saved[r])
    && (forall r :: r in saved && r !in left ==> r in now && now[r] == saved[r] && ValidEntry(r, saved[r]))
  }

  lemma RestoredStart(before: Refs, saved: Refs)
    ensures Restored(before, before, saved, saved.Keys)
  {}

  lemma RestoredStep(before: Refs, now: Refs, saved: Refs, left: set<Ref>, r: Ref)
    requires Restored(before, now, saved, left) && r in left && left <= saved.Keys && ValidEntry(r, saved[r])
    ensures r in now && now[r] == saved[r] ==> Restored(before, now, saved, left - {r})
    ensures r !in now ==> Restored(before, now[r := saved[r]], saved, left - {r})
  {
    hide ValidEntry;
  }

  lemma RestoredReached(s: State, t: State, left: set<Ref>)
    requires Restored(s.refs, t.refs, s.Saved(), left) && left <= s.Saved().Keys && t.record == s.record
    ensures RestoreReaches(s, t)
  {
    hide ValidEntry;
  }

  lemma RestoredDone(before: Refs, now: Refs, saved: Refs)
    requires Restored(before, now, saved, {})
    ensures now == saved + before && Restorable(before, saved)
  {
    hide ValidEntry;
  }

  lemma Unrestorable(before: Refs, now: Refs, saved: Refs, left: set<Ref>, r: Ref)
    requires Restored(before, now, saved, left) && r in left && r in saved
    requires !ValidEntry(r, saved[r]) || (r in now && now[r] != saved[r])
    ensures !Restorable(before, saved)
  {
    hide ValidEntry;
  }

  lemma Unprepared(s: State)
    ensures PrepareReaches(s, s)
  {}

  lemma Prepared(s: State, t: State)
    requires Agree(Artifacts(s.refs), s.Saved()) && t.record == Some(s.Saved() + Artifacts(s.refs))
    requires forall r :: r in t.refs ==> r in s.refs && t.refs[r] == s.refs[r]
    requires forall r :: r in s.refs && r !in t.refs ==> r in Artifacts(s.refs)
    ensures PrepareReaches(s, t)
  {
    hide Artifact, Agree;
  }

  /** The backup with the listed refs added, or None if a listed ref changed since it was saved. */
  method Merge(saved: Refs, entries: Refs) returns (r: Option<Refs>)
    ensures r.Some? <==> Agree(entries, saved)
    ensures r.Some? ==> r.value == saved + entries
  {
    var merged, left := saved, entries.Keys;
    while left != {}
      invariant left <= entries.Keys
      invariant forall x :: x in entries && x !in left && x in saved ==> saved[x] == entries[x]
      invariant merged.Keys == saved.Keys + (entries.Keys - left)
      invariant forall x :: x in merged ==> merged[x] == if x in entries && x !in left then entries[x] else saved[x]
      decreases |left|
    {
      var x :| x in left;
      if x in merged && merged[x] != entries[x] { return None; }
      merged := merged[x := entries[x]];
      left := left - {x};
    }
    assert merged == saved + entries;
    r := Some(merged);
  }

  // ---------- crash safety ----------

  /** Every original ref is still in the clone or in the backup, under its original id, and nothing else is. */
  ghost predicate Kept(original: Refs, s: State) {
    && (forall r :: r in s.refs ==> r in original && s.refs[r] == original[r])
    && (forall r :: r in s.Saved() ==> Artifact(r) && r in original && s.Saved()[r] == original[r])
    && (forall r :: r in original ==> r in s.refs || (Artifact(r) && r in s.Saved()))
  }

  lemma PrepareKeeps(original: Refs, s: State, t: State)
    requires Kept(original, s) && PrepareReaches(s, t)
    ensures Kept(original, t)
  {
    hide Artifact, Agree;
    if t != s {
      forall r | r in original && r !in t.refs ensures Artifact(r) && r in t.Saved() {
        assert r in s.refs ==> Artifact(r) && r in Artifacts(s.refs);
      }
    }
  }

  lemma RestoreKeeps(original: Refs, s: State, t: State)
    requires Kept(original, s) && RestoreReaches(s, t)
    ensures Kept(original, t)
  {
    hide Artifact, ValidEntry;
  }

  /** A history of filtering and restoring runs, each complete, refused or stopped part way. */
  ghost predicate History(states: seq<State>) {
    forall i :: 0 <= i < |states| - 1 ==> Followed(states[i], states[i + 1])
  }

  ghost predicate Followed(s: State, t: State) {
    PrepareReaches(s, t) || RestoreReaches(s, t)
  }

  /** From a fresh clone, no history loses or changes a ref. */
  lemma {:induction false} HistoryKeeps(original: Refs, states: seq<State>, i: nat)
    requires History(states) && i < |states| && states[0] == State(original, None)
    ensures Kept(original, states[i])
  {
    hide PrepareReaches, RestoreReaches;
    if i == 0 {
      FreshKept(original);
    } else {
      HistoryKeeps(original, states, i - 1);
      assert Followed(states[i - 1], states[i]);
      if PrepareReaches(states[i - 1], states[i]) {
        PrepareKeeps(original, states[i - 1], states[i]);
      } else {
        RestoreKeeps(original, states[i - 1], states[i]);
      }
    }
  }

  lemma FreshKept(original: Refs)
    ensures Kept(original, State(original, None))
  {}

  /** After any history, a restore succeeds and returns exactly the original refs. */
  lemma RestoreReturnsOriginal(original: Refs, states: seq<State>, i: nat)
    requires History(states) && i < |states| && states[0] == State(original, None)
    requires forall r :: r in original && Artifact(r) ==> ValidEntry(r, original[r])
    ensures Restorable(states[i].refs, states[i].Saved())
    ensures states[i].Saved() + states[i].refs == original
  {
    hide Artifact, ValidEntry, History;
    HistoryKeeps(original, states, i);
  }

  /** After any history, a filtering run is not refused. */
  lemma PrepareNotRefused(original: Refs, states: seq<State>, i: nat)
    requires History(states) && i < |states| && states[0] == State(original, None)
    ensures Agree(Artifacts(states[i].refs), states[i].Saved())
  {
    hide Artifact, History;
    HistoryKeeps(original, states, i);
  }

  /** A tag whose id changed since the backup stops both directions, and neither run changes it. */
  lemma ConflictRefused(s: State, t: State, r: Ref)
    requires Artifact(r) && r in s.refs && r in s.Saved() && s.refs[r] != s.Saved()[r]
    ensures PrepareReaches(s, t) ==> t == s
    ensures RestoreReaches(s, t) ==> t.record == s.record && r in t.refs && t.refs[r] == s.refs[r]
    ensures !Restorable(s.refs, s.Saved())
  {
    assert r in Artifacts(s.refs);
  }
}
