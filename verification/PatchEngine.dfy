/** Digest-guarded patching of several files and one helper file. */
module PatchEngine {
  import opened Common
  import opened Replace

  type Path = string
  type Digest = string
  type Files = map<Path, Bytes>
  type Write = (Path, Bytes)

  /** One file: the digests of its admitted originals and its replacements. */
  datatype FilePatch = FilePatch(path: Path, admitted: set<Digest>, swaps: seq<Swap>)

  /** A port: its files, its helper, the digest function and what compiles. */
  datatype Port = Port(patches: seq<FilePatch>, destination: Path, helper: Bytes,
                       digest: Bytes -> Digest, compiles: (Path, Bytes) -> bool) {
    ghost predicate Valid() {
      && (forall j, k :: 0 <= j < k < |patches| ==> patches[j].path != patches[k].path)
      && (forall k :: 0 <= k < |patches| ==> patches[k].path != destination)
    }

    /** SHA-256 taken as collision-free. */
    ghost predicate Injective() {
      forall a: Bytes, b: Bytes :: digest(a) == digest(b) ==> a == b
    }

    predicate Pinned(fp: FilePatch, data: Bytes) {
      digest(data) in fp.admitted
    }

    /** The original behind `data`: itself if pinned, otherwise the reversed text if that is pinned. */
    function Original(fp: FilePatch, data: Bytes): (r: Option<Bytes>)
      ensures r.Some? ==> Pinned(fp, r.value)
    {
      if Pinned(fp, data) then Some(data)
      else
        var back := Reverse(data, fp.swaps);
        if back.Some? && Pinned(fp, back.value) then back else None
    }

    function Expected(fp: FilePatch, data: Bytes, revert: bool): Option<Bytes> {
      var original := Original(fp, data);
      if original.None? || revert then original else Transform(original.value, fp.swaps)
    }

    /** What the run would write to the file; None is the run's error. */
    function Target(fp: FilePatch, files: Files, revert: bool): Option<Bytes> {
      if fp.path !in files then None
      else
        var expected := Expected(fp, files[fp.path], revert);
        if expected.Some? && compiles(fp.path, expected.value) then expected else None
    }

    predicate FileOk(fp: FilePatch, files: Files, check: bool, revert: bool) {
      && Target(fp, files, revert).Some?
      && (check ==> Target(fp, files, revert).value == files[fp.path])
    }

    predicate HelperOk(files: Files) {
      destination in files ==> files[destination] == helper
    }

    /** The runs that raise nothing. */
    predicate Accepts(files: Files, check: bool, revert: bool) {
      && HelperOk(files)
      && (forall k :: 0 <= k < |patches| ==> FileOk(patches[k], files, check, revert))
      && (check ==> (destination in files) != revert)
    }

    /** The pending writes of the first `n` files. */
    function Pending(files: Files, revert: bool, n: nat): (r: seq<Write>)
      requires n <= |patches|
      ensures |r| == n
      ensures forall k :: 0 <= k < n ==> r[k] == (patches[k].path, Target(patches[k], files, revert).GetOr([]))
    {
      if n == 0 then []
      else Pending(files, revert, n - 1) + [(patches[n - 1].path, Target(patches[n - 1], files, revert).GetOr([]))]
    }

    /** The helper is installed last, or removed. */
    function Finish(files: Files, revert: bool): Files {
      if revert then files - {destination} else files[destination := helper]
    }

    /** The tree an accepted run leaves. */
    function Patched(files: Files, revert: bool): Files {
      Finish(Writes(files, Pending(files, revert, |patches|), |patches|), revert)
    }
  }

  /** The tree after the first `n` writes. */
  function Writes(files: Files, pending: seq<Write>, n: nat): Files
    requires n <= |pending|
  {
    if n == 0 then files else Writes(files, pending, n - 1)[pending[n - 1].0 := pending[n - 1].1]
  }

  /** Every patched file is there and compiles. */
  predicate Compiled(port: Port, files: Files) {
    forall k :: 0 <= k < |port.patches| ==>
      port.patches[k].path in files && port.compiles(port.patches[k].path, files[port.patches[k].path])
  }

  /** Every text the run is to write compiles. */
  predicate RunsCompile(port: Port, files: Files, revert: bool) {
    forall k :: 0 <= k < |port.patches| ==> var path := port.patches[k].path;
      path in files &&
      var expected := port.Expected(port.patches[k], files[path], revert);
      expected.Some? && port.compiles(path, expected.value)
  }

  /** A checked-out source tree. */
  class Tree {
    var files: Files

    constructor (files: Files)
      ensures this.files == files
    {
      this.files := files;
    }

    /** Validates one file. */
    method Validate(port: Port, fp: FilePatch, check: bool, revert: bool) returns (r: Option<Bytes>)
      ensures r.Some? <==> port.FileOk(fp, files, check, revert)
      ensures r.Some? ==> r == port.Target(fp, files, revert)
    {
      if fp.path !in files { return None; }
      var data := files[fp.path];
      var original := Some(data);
      if port.digest(data) !in fp.admitted { original := ApplySwaps(data, fp.swaps, true); }
      if original.None? || port.digest(original.value) !in fp.admitted { return None; }
      var expected := original;
      if !revert { expected := ApplySwaps(original.value, fp.swaps, false); }
      if expected.None? || !port.compiles(fp.path, expected.value) { return None; }
      if check && data != expected.value { return None; }
      r := expected;
    }

    /** Apply, revert or check: everything is validated before anything is written. */
    method Patch(port: Port, check: bool, revert: bool) returns (ok: bool)
      modifies this
      ensures ok <==> port.Accepts(old(files), check, revert)
      ensures !ok || check ==> files == old(files)
      ensures ok && !check ==> files == port.Patched(old(files), revert)
      ensures ok ==> RunsCompile(port, old(files), revert) && (port.Valid() ==> Compiled(port, files))
    {
      hide Port.FileOk, Port.Target, Compiled, RunsCompile;
      if port.destination in files && files[port.destination] != port.helper { return false; }
      var pending: seq<Write> := [];
      for k := 0 to |port.patches|
        invariant files == old(files) && pending == port.Pending(files, revert, k)
        invariant forall j :: 0 <= j < k ==> port.FileOk(port.patches[j], files, check, revert)
      {
        var expected := Validate(port, port.patches[k], check, revert);
        if expected.None? { return false; }
        pending := pending + [(port.patches[k].path, expected.value)];
      }
      AcceptedCompiles(port, files, check, revert);
      if check { return (port.destination in files) != revert; }
      for k := 0 to |pending|
        invariant files == Writes(old(files), pending, k)
      {
        files := files[pending[k].0 := pending[k].1];
      }
      files := if revert then files - {port.destination} else files[port.destination := port.helper];
      ok := true;
    }
  }

  // ---------- what an accepted run leaves ----------

  lemma {:induction false} WritesKeep(files: Files, pending: seq<Write>, n: nat, path: Path)
    requires n <= |pending| && forall k :: 0 <= k < n ==> pending[k].0 != path
    ensures path in Writes(files, pending, n) <==> path in files
    ensures path in files ==> Writes(files, pending, n)[path] == files[path]
  {
    if n > 0 { WritesKeep(files, pending, n - 1, path); }
  }

  /** Which writes have reached a patched file after `n` of them. */
  lemma {:induction false} WritesAt(port: Port, files: Files, pending: seq<Write>, n: nat, k: nat)
    requires port.Valid() && n <= |pending| == |port.patches| && k < |pending|
    requires forall j :: 0 <= j < |pending| ==> pending[j].0 == port.patches[j].path
    ensures var path, after := port.patches[k].path, Writes(files, pending, n);
      if k < n then path in after && after[path] == pending[k].1
      else (path in after <==> path in files) && (path in files ==> after[path] == files[path])
  {
    if n > 0 { WritesAt(port, files, pending, n - 1, k); }
  }

  /** An accepted run writes every file's target, installs or removes the helper and changes nothing else. */
  lemma PatchedTree(port: Port, files: Files, revert: bool)
    requires port.Valid() && port.Accepts(files, false, revert)
    ensures var after := port.Patched(files, revert);
      && (forall k :: 0 <= k < |port.patches| ==>
            && port.patches[k].path in after
            && Some(after[port.patches[k].path]) == port.Target(port.patches[k], files, revert))
      && (port.destination in after) == !revert && port.HelperOk(after)
  {
    hide Port.Target;
    var pending := port.Pending(files, revert, |port.patches|);
    forall k | 0 <= k < |port.patches|
      ensures port.patches[k].path in port.Patched(files, revert)
      ensures Some(port.Patched(files, revert)[port.patches[k].path]) == port.Target(port.patches[k], files, revert)
    {
      assert port.FileOk(port.patches[k], files, false, revert);
      WritesAt(port, files, pending, |pending|, k);
    }
  }

  /** A run that raises nothing writes texts that compile only, and leaves such files. */
  lemma AcceptedCompiles(port: Port, files: Files, check: bool, revert: bool)
    ensures port.Accepts(files, check, revert) ==>
      && RunsCompile(port, files, revert)
      && (port.Valid() ==> Compiled(port, if check then files else port.Patched(files, revert)))
  {
    if port.Accepts(files, check, revert) {
      assert forall k :: 0 <= k < |port.patches| ==> port.FileOk(port.patches[k], files, check, revert);
      if port.Valid() && !check {
        assert port.Accepts(files, false, revert);
        PatchedTree(port, files, revert);
        hide Port.Patched;
        forall k | 0 <= k < |port.patches|
          ensures port.patches[k].path in port.Patched(files, revert)
          ensures port.compiles(port.patches[k].path, port.Patched(files, revert)[port.patches[k].path])
        {
          assert port.FileOk(port.patches[k], files, check, revert);
        }
      }
    }
  }

  lemma OtherPathsUntouched(port: Port, files: Files, revert: bool, path: Path)
    requires path != port.destination && forall k :: 0 <= k < |port.patches| ==> port.patches[k].path != path
    ensures path in port.Patched(files, revert) <==> path in files
    ensures path in files ==> port.Patched(files, revert)[path] == files[path]
  {
    var pending := port.Pending(files, revert, |port.patches|);
    WritesKeep(files, pending, |port.patches|, path);
  }
}
