/** Column-parallel loading of a checkpoint tensor that is smaller than the padded parameter. */
module TensorLoad {
  import opened Common

  /** Fill for padded slices: one for float32 block scales, zero for weights. */
  function Fill<T>(float32: bool, zero: T, one: T): T { if float32 then one else zero }

  /** Checkpoint rows at or past `start`. */
  function Kept(length: nat, start: nat): nat { if start < length then length - start else 0 }

  /** The shard reaches past the checkpoint. */
  predicate Short(length: nat, rank: nat, size: nat) { rank * size + size > length || rank * size >= length }

  /** What narrowing with padding may return: the slice from `start`, then zeros, perhaps not to full size. */
  predicate Narrowed<T(==)>(w: seq<T>, start: nat, size: nat, p: seq<T>, zero: T) {
    && Kept(|w|, start) <= |p| <= size
    && (forall i :: 0 <= i < Kept(|w|, start) ==> p[i] == w[start + i])
    && (forall i :: Kept(|w|, start) <= i < |p| ==> p[i] == zero)
  }

  /** Rank `rank`'s wanted shard: the checkpoint's slice, then fill. */
  function Shard<T>(w: seq<T>, rank: nat, size: nat, fill: T): (r: seq<T>)
    ensures |r| == size
    ensures forall i :: 0 <= i < size ==> r[i] == if rank * size + i < |w| then w[rank * size + i] else fill
  {
    seq(size, i requires 0 <= i < size => if rank * size + i < |w| then w[rank * size + i] else fill)
  }

  // ---------- the parameter's own loader ----------

  /** What the parameter's loader leaves at place `i` of the parameter. */
  function LoadedAt<T>(w: seq<T>, at: nat, i: nat, narrowed: nat, loaded32: bool, data32: bool, zero: T, one: T): T {
    if at + i < |w| then w[at + i] else Fill(if i < narrowed then loaded32 else data32, zero, one)
  }

  function Loaded<T>(w: seq<T>, rank: nat, size: nat, narrowed: nat, loaded32: bool, data32: bool, zero: T,
      one: T): (r: seq<T>)
    ensures |r| == size
    ensures forall i :: 0 <= i < size ==> r[i] == LoadedAt(w, rank * size, i, narrowed, loaded32, data32, zero, one)
  {
    seq(size, i requires 0 <= i < size => LoadedAt(w, rank * size, i, narrowed, loaded32, data32, zero, one))
  }

  /** `load_column_parallel_weight`; true if it hands a presharded weight to the original loader. */
  method LoadColumnParallel<T(==)>(data: array<T>, w: seq<T>, rank: nat, presharded: bool, narrowed: seq<T>,
      loaded32: bool, data32: bool, zero: T, one: T) returns (delegated: bool)
    requires Short(|w|, rank, data.Length) ==> Narrowed(w, rank * data.Length, data.Length, narrowed, zero)
    modifies data
    ensures delegated == presharded && (delegated ==> data[..] == old(data[..]))
    ensures !delegated ==> data[..] == Loaded(w, rank, data.Length, |narrowed|, loaded32, data32, zero, one)
  {
    if presharded { return true; }
    delegated := false;
    var size := data.Length;
    var start := rank * size;
    var end := start + size;
    var loaded;
    if end > |w| || start >= |w| {
      var kept := Kept(|w|, start);
      loaded := narrowed;
      if loaded32 && kept < |loaded| {
        loaded := loaded[..kept] + seq(|loaded| - kept, _ => one);
      }
    } else {
      loaded := w[start..end];
    }
    if size != |loaded| {
      forall i | 0 <= i < size { data[i] := Fill(data32, zero, one); }
      forall i | 0 <= i < size && i < |loaded| { data[i] := loaded[i]; }
    } else {
      forall i | 0 <= i < size { data[i] := loaded[i]; }
    }
    ghost var wanted := Loaded(w, rank, size, |narrowed|, loaded32, data32, zero, one);
    assert forall i :: 0 <= i < size ==> data[i] == wanted[i];
  }

  /**
   * The parameter gets its shard exactly if checkpoint and parameter agree on being float32, or narrowing
   * added no padding of its own.
   */
  lemma LoadedIsShardExactly<T>(w: seq<T>, rank: nat, size: nat, narrowed: nat, loaded32: bool, data32: bool,
      zero: T, one: T)
    requires zero != one && Short(|w|, rank, size) && Kept(|w|, rank * size) <= narrowed <= size
    ensures var wanted := Shard(w, rank, size, Fill(data32, zero, one));
      Loaded(w, rank, size, narrowed, loaded32, data32, zero, one) == wanted
      <==> loaded32 == data32 || narrowed == Kept(|w|, rank * size)
  {
    var got := Loaded(w, rank, size, narrowed, loaded32, data32, zero, one);
    var wanted := Shard(w, rank, size, Fill(data32, zero, one));
    var kept := Kept(|w|, rank * size);
    if loaded32 != data32 && kept < narrowed {
      assert got[kept] != wanted[kept];
    } else {
      assert forall i :: 0 <= i < size ==> got[i] == wanted[i];
    }
  }

  // ---------- the layer's loader ----------

  datatype Outcome = Taken | Delegated | Raised

  /**
   * `column_weight_loader`, where it applies. A tensor that is not padded, or that narrowing left short, goes on
   * to the original loader: `handed` is what that one gets. The fill of a short one is an index error.
   */
  method ColumnWeightLoader<T(==)>(data: array<T>, w: seq<T>, rank: nat, applies: bool, narrowed: seq<T>,
      loaded32: bool, zero: T, one: T) returns (r: Outcome, handed: seq<T>)
    requires Short(|w|, rank, data.Length) ==> Narrowed(w, rank * data.Length, data.Length, narrowed, zero)
    modifies data
    ensures var padded := applies && rank * data.Length + data.Length > |w|;
      && (r == Raised <==> padded && loaded32 && rank * data.Length <= |w| && |narrowed| != data.Length)
      && (r == Taken <==> padded && |narrowed| == data.Length)
      && (r != Raised ==>
            handed == if padded then ColumnLoaded(w, rank, data.Length, |narrowed|, loaded32, zero, one) else w)
    ensures data[..] == if r == Taken then handed else old(data[..])
  {
    handed, r := w, Delegated;
    if applies {
      var size := data.Length;
      var start := rank * size;
      var end := start + size;
      if end > |w| {
        var kept: int := |w| - start;
        handed := narrowed;
        if loaded32 && 0 <= kept < size {
          if |narrowed| < size { return Raised, handed; }
          handed := handed[..kept] + seq(size - kept, _ => one);
        }
        assert handed == ColumnLoaded(w, rank, size, |narrowed|, loaded32, zero, one);
        if size == |handed| {
          forall i | 0 <= i < size { data[i] := handed[i]; }
          r := Taken;
        }
      }
    }
  }

  /**
   * The tensor it makes, `n` long: filled as the checkpoint's type asks, unless the shard starts past the
   * checkpoint.
   */
  function ColumnLoaded<T>(w: seq<T>, rank: nat, size: nat, n: nat, loaded32: bool, zero: T, one: T): (r: seq<T>)
    requires n <= size
    ensures |r| == n
  {
    Shard(w, rank, size, Fill(loaded32 && rank * size <= |w|, zero, one))[..n]
  }

  /**
   * A padded shard has the fill its parameter wants exactly if that is the float32 fill and the checkpoint's tensor
   * is float32 and reaches the shard, or neither.
   */
  lemma ColumnLoadedExactly<T>(w: seq<T>, rank: nat, size: nat, loaded32: bool, data32: bool, zero: T, one: T)
    requires zero != one && size > 0 && rank * size + size > |w|
    ensures ColumnLoaded(w, rank, size, size, loaded32, zero, one) == Shard(w, rank, size, Fill(data32, zero, one))
            <==> data32 == (loaded32 && rank * size <= |w|)
  {
    var got := ColumnLoaded(w, rank, size, size, loaded32, zero, one);
    var wanted := Shard(w, rank, size, Fill(data32, zero, one));
    if data32 != (loaded32 && rank * size <= |w|) {
      assert got[size - 1] != wanted[size - 1];
    } else {
      assert forall i :: 0 <= i < size ==> got[i] == wanted[i];
    }
  }

  /** One scale row over three ranks: rank 2's scale is loaded as zero where one is wanted. */
  lemma ScaleIsLost()
    ensures ColumnLoaded([7], 2, 1, 1, true, 0, 1) == [0] && Shard([7], 2, 1, Fill(true, 0, 1)) == [1]
  {}

  /** A float32 parameter whose checkpoint tensor has another type, padded by one: again zero instead of one. */
  lemma ScaleTypeIsLost()
    ensures ColumnLoaded([7], 0, 2, 2, false, 0, 1) == [7, 0] && Shard([7], 0, 2, Fill(true, 0, 1)) == [7, 1]
  {}

  // ---------- all ranks ----------

  function Joined<T>(shards: seq<seq<T>>): seq<T> {
    if shards == [] then [] else Joined(shards[..|shards| - 1]) + shards[|shards| - 1]
  }

  /** Every rank holds its wanted shard. */
  ghost predicate ShardsOf<T>(w: seq<T>, shards: seq<seq<T>>, size: nat, fill: T) {
    forall r :: 0 <= r < |shards| ==> shards[r] == Shard(w, r, size, fill)
  }

  lemma {:induction false} JoinedLength<T>(w: seq<T>, shards: seq<seq<T>>, size: nat, fill: T)
    requires ShardsOf(w, shards, size, fill)
    ensures |Joined(shards)| == |shards| * size
  {
    if shards != [] {
      var n := |shards| - 1;
      JoinedLength(w, shards[..n], size, fill);
      assert shards[n] == Shard(w, n, size, fill);
      assert |shards| * size == n * size + size;
    }
  }

  lemma {:induction false} JoinedAt<T>(w: seq<T>, shards: seq<seq<T>>, size: nat, fill: T, i: nat)
    requires ShardsOf(w, shards, size, fill) && i < |shards| * size
    ensures i < |Joined(shards)| && Joined(shards)[i] == if i < |w| then w[i] else fill
  {
    var n := |shards| - 1;
    JoinedLength(w, shards, size, fill);
    JoinedLength(w, shards[..n], size, fill);
    assert |shards| * size == n * size + size;
    if i < n * size {
      JoinedAt(w, shards[..n], size, fill, i);
    } else {
      assert shards[n] == Shard(w, n, size, fill);
    }
  }

  /** The ranks' shards, joined, are the checkpoint tensor followed by fill. */
  lemma ShardsRebuildCheckpoint<T>(w: seq<T>, shards: seq<seq<T>>, size: nat, fill: T)
    requires ShardsOf(w, shards, size, fill) && |w| <= |shards| * size
    ensures |Joined(shards)| == |shards| * size && Joined(shards)[..|w|] == w
    ensures forall i :: |w| <= i < |shards| * size ==> Joined(shards)[i] == fill
  {
    JoinedLength(w, shards, size, fill);
    forall i | 0 <= i < |shards| * size ensures Joined(shards)[i] == if i < |w| then w[i] else fill {
      JoinedAt(w, shards, size, fill, i);
    }
  }
}
