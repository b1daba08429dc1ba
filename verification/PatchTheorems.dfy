/** What patching guarantees: exact results, convergence from any mixture, safety under interruption. */
module PatchTheorems {
  import opened Common
  import opened Replace
  import opened PatchEngine

  /** The only admitted original of a file is `o`. */
  ghost predicate OnlyPin(port: Port, fp: FilePatch, o: Bytes) {
    fp.admitted == {port.digest(o)}
  }

  function Wanted(fp: FilePatch, o: Bytes, revert: bool): Option<Bytes> {
    if revert then Some(o) else Transform(o, fp.swaps)
  }

  // ---------- exact results ----------

  lemma OnlyOriginal(port: Port, fp: FilePatch, o: Bytes, data: Bytes)
    requires port.Injective() && OnlyPin(port, fp, o)
    ensures port.Pinned(fp, data) <==> data == o
    ensures port.Original(fp, data) == None || port.Original(fp, data) == Some(o)
  {
    assert port.digest(data) == port.digest(o) ==> data == o;
    var back := Reverse(data, fp.swaps);
    assert back.Some? && port.digest(back.value) == port.digest(o) ==> back.value == o;
  }

  /**
   * Whatever the tree held and whatever reversing made of it, a run that succeeds leaves exactly the pinned
   * original, or exactly its transform.
   */
  lemma SuccessIsExact(port: Port, files: Files, revert: bool, k: nat, o: Bytes)
    requires port.Valid() && port.Injective() && port.Accepts(files, false, revert)
    requires k < |port.patches| && OnlyPin(port, port.patches[k], o)
    ensures var path := port.patches[k].path;
      path in port.Patched(files, revert) &&
        Wanted(port.patches[k], o, revert) == Some(port.Patched(files, revert)[path])
  {
    var fp := port.patches[k];
    PatchedTree(port, files, revert);
    assert port.FileOk(fp, files, false, revert);
    OnlyOriginal(port, fp, o, files[fp.path]);
  }

  /** `os` are the admitted originals of a file. */
  ghost predicate PinsAre(port: Port, fp: FilePatch, os: seq<Bytes>) {
    forall d :: d in fp.admitted ==> exists i :: 0 <= i < |os| && port.digest(os[i]) == d
  }

  /**
   * With several admitted originals, a run that succeeds leaves exactly one of them, or exactly the transform
   * of one of them.
   */
  lemma SuccessIsAdmitted(port: Port, files: Files, revert: bool, k: nat, os: seq<Bytes>) returns (i: nat)
    requires port.Valid() && port.Injective() && port.Accepts(files, false, revert)
    requires k < |port.patches| && PinsAre(port, port.patches[k], os)
    ensures var path := port.patches[k].path;
      && i < |os| && port.Pinned(port.patches[k], os[i])
      && path in port.Patched(files, revert) &&
        Wanted(port.patches[k], os[i], revert) == Some(port.Patched(files, revert)[path])
  {
    var fp := port.patches[k];
    PatchedTree(port, files, revert);
    assert port.FileOk(fp, files, false, revert);
    var o := port.Original(fp, files[fp.path]).value;
    i :| 0 <= i < |os| && port.digest(os[i]) == port.digest(o);
    assert os[i] == o;
  }

  /** A passing check means the tree already is what a run would leave. */
  lemma CheckIsExact(port: Port, files: Files, revert: bool, k: nat, o: Bytes)
    requires port.Valid() && port.Injective() && port.Accepts(files, true, revert)
    requires k < |port.patches| && OnlyPin(port, port.patches[k], o)
    ensures port.patches[k].path in files && Wanted(port.patches[k], o, revert) == Some(files[port.patches[k].path])
    ensures (port.destination in files) == !revert && port.HelperOk(files)
  {
    var fp := port.patches[k];
    assert port.FileOk(fp, files, true, revert);
    OnlyOriginal(port, fp, o, files[fp.path]);
  }

  // ---------- when a patched file can be recognised ----------

  predicate Recovers(port: Port, fp: FilePatch, o: Bytes) {
    var t := Transform(o, fp.swaps);
    t.Some? && port.Original(fp, t.value) == Some(o)
  }

  /** A clean patch is recognised, unless the patched text is itself another admitted original. */
  lemma CleanRecovers(port: Port, fp: FilePatch, o: Bytes)
    requires port.Pinned(fp, o) && Clean(o, fp.swaps)
    requires var t := Transform(o, fp.swaps); t.Some? && port.Pinned(fp, t.value) ==> t.value == o
    ensures Recovers(port, fp, o)
  {
    RoundTrip(o, fp.swaps);
  }

  /** With one admitted digest and unbordered new texts, a patched file is recognised exactly if the patch is clean. */
  lemma RecoversExactly(port: Port, fp: FilePatch, o: Bytes)
    requires port.Injective() && OnlyPin(port, fp, o) && AllUnbordered(fp.swaps)
    requires Transform(o, fp.swaps).Some? && Transform(o, fp.swaps).value != o
    ensures Recovers(port, fp, o) <==> Clean(o, fp.swaps)
  {
    OnlyOriginal(port, fp, o, Transform(o, fp.swaps).value);
    RoundTripExactly(o, fp.swaps);
  }

  // ---------- convergence ----------

  /** `base` lists the files' originals; both their forms compile. */
  ghost predicate Base(port: Port, base: seq<Bytes>) {
    && |base| == |port.patches|
    && forall k :: 0 <= k < |base| ==> BaseFile(port, port.patches[k], base[k])
  }

  ghost predicate BaseFile(port: Port, fp: FilePatch, o: Bytes) {
    && port.Pinned(fp, o) && Transform(o, fp.swaps).Some?
    && port.compiles(fp.path, o) && port.compiles(fp.path, Transform(o, fp.swaps).value)
  }

  /** The file is in one of its two states. */
  ghost predicate FileState(fp: FilePatch, o: Bytes, files: Files) {
    fp.path in files && (files[fp.path] == o || Some(files[fp.path]) == Transform(o, fp.swaps))
  }

  /** Every file independently pinned or patched; the helper absent or intact. */
  ghost predicate Mixed(port: Port, base: seq<Bytes>, files: Files)
    requires |base| == |port.patches|
  {
    port.HelperOk(files) && forall k :: 0 <= k < |base| ==> FileState(port.patches[k], base[k], files)
  }

  /** The all-patched or the all-pinned tree. */
  ghost predicate Uniform(port: Port, base: seq<Bytes>, files: Files, revert: bool)
    requires |base| == |port.patches|
  {
    && port.HelperOk(files) && (port.destination in files) == !revert
    && forall k :: 0 <= k < |base| ==>
         port.patches[k].path in files && Some(files[port.patches[k].path]) == Wanted(port.patches[k], base[k], revert)
  }

  ghost predicate AllRecover(port: Port, base: seq<Bytes>)
    requires |base| == |port.patches|
  {
    forall k :: 0 <= k < |base| ==> Recovers(port, port.patches[k], base[k])
  }

  lemma FileConverges(port: Port, fp: FilePatch, o: Bytes, files: Files, revert: bool)
    requires BaseFile(port, fp, o) && FileState(fp, o, files)
    requires files[fp.path] == o || Recovers(port, fp, o)
    ensures port.Target(fp, files, revert) == Wanted(fp, o, revert)
    ensures port.FileOk(fp, files, false, revert)
  {}

  lemma MixedIsAccepted(port: Port, base: seq<Bytes>, files: Files, revert: bool)
    requires port.Valid() && Base(port, base) && AllRecover(port, base) && Mixed(port, base, files)
    ensures port.Accepts(files, false, revert)
    ensures forall k :: 0 <= k < |base| ==>
      port.Target(port.patches[k], files, revert) == Wanted(port.patches[k], base[k], revert)
  {
    hide BaseFile, FileState, Recovers, Port.Target, Port.FileOk, Wanted;
    forall k | 0 <= k < |base|
      ensures port.FileOk(port.patches[k], files, false, revert)
      ensures port.Target(port.patches[k], files, revert) == Wanted(port.patches[k], base[k], revert)
    {
      assert BaseFile(port, port.patches[k], base[k]) && FileState(port.patches[k], base[k], files);
      assert Recovers(port, port.patches[k], base[k]);
      StateIsPath(port.patches[k], base[k], files);
      FileConverges(port, port.patches[k], base[k], files, revert);
    }
  }

  lemma StateIsPath(fp: FilePatch, o: Bytes, files: Files)
    requires FileState(fp, o, files)
    ensures fp.path in files
  {}

  /** From any mixture a run reaches the uniform tree. */
  lemma RunReachesUniform(port: Port, base: seq<Bytes>, files: Files, revert: bool)
    requires port.Valid() && Base(port, base) && AllRecover(port, base) && Mixed(port, base, files)
    ensures port.Accepts(files, false, revert) && Uniform(port, base, port.Patched(files, revert), revert)
  {
    hide AllRecover, Base, Mixed, Wanted, Port.Target, Port.Accepts, Port.Patched;
    SameLength(port, base);
    MixedIsAccepted(port, base, files, revert);
    PatchedTree(port, files, revert);
  }

  lemma SameLength(port: Port, base: seq<Bytes>)
    requires Base(port, base)
    ensures |base| == |port.patches|
  {}

  // ---------- repetition ----------

  lemma UniformIsMixed(port: Port, base: seq<Bytes>, files: Files, revert: bool)
    requires Base(port, base) && Uniform(port, base, files, revert)
    ensures Mixed(port, base, files)
  {
    hide BaseFile, Transform;
    forall k | 0 <= k < |base| ensures FileState(port.patches[k], base[k], files) {
      assert Some(files[port.patches[k].path]) == Wanted(port.patches[k], base[k], revert);
    }
  }

  /** Writing what is already there changes nothing. */
  lemma {:induction false} WritesNothing(files: Files, pending: seq<Write>, n: nat)
    requires n <= |pending| && forall k :: 0 <= k < n ==> pending[k].0 in files && files[pending[k].0] == pending[k].1
    ensures Writes(files, pending, n) == files
  {
    if n > 0 { WritesNothing(files, pending, n - 1); }
  }

  lemma FinishNothing(port: Port, files: Files, revert: bool)
    requires port.HelperOk(files) && (port.destination in files) == !revert
    ensures port.Finish(files, revert) == files
  {}

  /** Repeating a run is a no-op, and the check then passes. */
  lemma UniformIsStable(port: Port, base: seq<Bytes>, files: Files, revert: bool)
    requires port.Valid() && Base(port, base) && AllRecover(port, base) && Uniform(port, base, files, revert)
    ensures port.Patched(files, revert) == files && port.Accepts(files, true, revert)
  {
    hide AllRecover, Base, Mixed, Wanted, Port.Target, Port.Finish, Writes;
    SameLength(port, base);
    UniformIsMixed(port, base, files, revert);
    MixedIsAccepted(port, base, files, revert);
    forall k | 0 <= k < |base| ensures port.FileOk(port.patches[k], files, true, revert) {
      assert port.FileOk(port.patches[k], files, false, revert);
      assert Some(files[port.patches[k].path]) == Wanted(port.patches[k], base[k], revert);
    }
    WritesNothing(files, port.Pending(files, revert, |port.patches|), |port.patches|);
    FinishNothing(port, files, revert);
  }

  /**
   * Convergence: from any tree whose files are independently pinned or patched, a run succeeds, reaches the
   * all-patched (or all-pinned) tree, passes its own check afterwards, and is a no-op when repeated.
   */
  lemma Converges(port: Port, base: seq<Bytes>, files: Files, revert: bool)
    requires port.Valid() && Base(port, base) && AllRecover(port, base) && Mixed(port, base, files)
    ensures port.Accepts(files, false, revert)
    ensures var after := port.Patched(files, revert);
      && Uniform(port, base, after, revert)
      && port.Accepts(after, true, revert) && port.Patched(after, revert) == after
  {
    hide *;
    SameLength(port, base);
    RunReachesUniform(port, base, files, revert);
    UniformIsStable(port, base, port.Patched(files, revert), revert);
  }

  /** The patch of a file is clean, and its patched text is no other admitted original. */
  ghost predicate CleanFile(port: Port, fp: FilePatch, o: Bytes) {
    && Clean(o, fp.swaps)
    && (Transform(o, fp.swaps).Some? && port.Pinned(fp, Transform(o, fp.swaps).value) ==>
      Transform(o, fp.swaps).value == o)
  }

  /** Convergence from the texts alone: clean patches need nothing else. */
  lemma CleanPatchesConverge(port: Port, base: seq<Bytes>, files: Files, revert: bool)
    requires port.Valid() && Base(port, base) && Mixed(port, base, files)
    requires forall k :: 0 <= k < |base| ==> CleanFile(port, port.patches[k], base[k])
    ensures port.Accepts(files, false, revert)
    ensures var after := port.Patched(files, revert);
      && Uniform(port, base, after, revert)
      && port.Accepts(after, true, revert) && port.Patched(after, revert) == after
  {
    hide Clean, Transform, Recovers, Mixed, Uniform, Port.Accepts, Port.Patched;
    forall k | 0 <= k < |base| ensures Recovers(port, port.patches[k], base[k]) {
      assert CleanFile(port, port.patches[k], base[k]) && BaseFile(port, port.patches[k], base[k]);
      CleanRecovers(port, port.patches[k], base[k]);
    }
    Converges(port, base, files, revert);
  }

  // ---------- interruption ----------

  /** A run stopped between two file writes leaves a tree from which every run still converges. */
  lemma InterruptedConverges(port: Port, base: seq<Bytes>, files: Files, first: bool, n: nat, revert: bool)
    requires port.Valid() && Base(port, base) && AllRecover(port, base) && Mixed(port, base, files)
    requires n <= |port.patches|
    ensures var stopped := Writes(files, port.Pending(files, first, |port.patches|), n);
      port.Accepts(stopped, false, revert) && Uniform(port, base, port.Patched(stopped, revert), revert)
  {
    hide AllRecover, Base, Port.Target, Writes, Port.Patched, Uniform, Transform;
    SameLength(port, base);
    MixedIsAccepted(port, base, files, first);
    var pending := port.Pending(files, first, |port.patches|);
    var stopped := Writes(files, pending, n);
    forall k | 0 <= k < |base| ensures FileState(port.patches[k], base[k], stopped) {
      assert FileState(port.patches[k], base[k], files) && port.FileOk(port.patches[k], files, false, first);
      WritesAt(port, files, pending, n, k);
    }
    hide FileState, Port.FileOk, Port.Accepts;
    HelperKept(port, files, pending, n);
    RunReachesUniform(port, base, stopped, revert);
  }

  lemma {:induction false} HelperKept(port: Port, files: Files, pending: seq<Write>, n: nat)
    requires port.Valid() && port.HelperOk(files) && n <= |pending| == |port.patches|
    requires forall k :: 0 <= k < |pending| ==> pending[k].0 == port.patches[k].path
    ensures port.HelperOk(Writes(files, pending, n))
  {
    WritesKeep(files, pending, n, port.destination);
  }

  // ---------- exactly when a mixed tree is accepted ----------

  /** A patched file that is not recognised is refused. */
  lemma UnrecognisedRefused(port: Port, fp: FilePatch, o: Bytes, files: Files, revert: bool)
    requires port.Injective() && OnlyPin(port, fp, o) && BaseFile(port, fp, o) && FileState(fp, o, files)
    ensures port.FileOk(fp, files, false, revert) <==> files[fp.path] == o || Recovers(port, fp, o)
  {
    OnlyOriginal(port, fp, o, files[fp.path]);
  }

  ghost predicate Recognised(port: Port, fp: FilePatch, o: Bytes, files: Files) {
    fp.path in files && (files[fp.path] == o || Recovers(port, fp, o))
  }

  /** With one admitted digest per file, a mixture is accepted exactly if each patched file is recognised. */
  lemma AcceptedExactly(port: Port, base: seq<Bytes>, files: Files, revert: bool)
    requires port.Valid() && port.Injective() && Base(port, base) && Mixed(port, base, files)
    requires forall k :: 0 <= k < |base| ==> OnlyPin(port, port.patches[k], base[k])
    ensures port.Accepts(files, false, revert)
            <==> forall k :: 0 <= k < |base| ==> Recognised(port, port.patches[k], base[k], files)
  {
    hide Recovers, Port.FileOk, BaseFile, Port.Injective;
    forall k | 0 <= k < |base|
      ensures port.FileOk(port.patches[k], files, false, revert) <==> Recognised(port, port.patches[k], base[k], files)
    {
      assert FileState(port.patches[k], base[k], files) && BaseFile(port, port.patches[k], base[k]);
      UnrecognisedRefused(port, port.patches[k], base[k], files, revert);
    }
  }
}
