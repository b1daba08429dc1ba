/** The row store object: opening, range selection, attaching, fetching and serving rows. */
module RowStore {
  import opened Arith
  import opened Common
  import opened RowFile
  import opened PackedShard
  import opened RowCache
  import opened RankRanges

  const KEY_BYTES: nat := 8

  /** What `serve` owes for one id: the table row if this rank owns it, zeros otherwise. */
  function Expected(b: Shard, id: nat): (r: seq<byte>)
    requires b.Valid() && id < b.table.rows
    ensures |r| == ROW_BYTES
  {
    if b.Owned(id) then b.table.Row(id) else seq(ROW_BYTES, _ => 0 as byte)
  }

  /** Memory of one set: rows, keys and the victim cursor. */
  function SetBytes(ways: nat): (r: nat)
    ensures r > 0
  {
    272 * ways + 1
  }

  /** Sets and ways of the cache for a byte budget; RAM mode keeps no cache. */
  function Geometry(wanted: nat, budget: nat, ram: bool): (r: (nat, nat))
    ensures 1 <= r.1 <= 16 && (1 <= wanted <= 16 ==> r.1 == wanted)
    ensures (wanted == 0 ==> r.1 == 1) && (wanted > 16 ==> r.1 == 16)
    ensures ram ==> r.0 == 0
    ensures !ram ==> r.0 * SetBytes(r.1) <= budget < (r.0 + 1) * SetBytes(r.1)
  {
    var w: nat := if wanted < 1 then 1 else if wanted > 16 then 16 else wanted;
    DivNat(budget, SetBytes(w));
    assert budget == SetBytes(w) * (budget / SetBytes(w)) + budget % SetBytes(w);
    (if ram then 0 else budget / SetBytes(w), w)
  }

  /** The cached rows, their keys and the victim cursors fit the budget, and one more set would not. */
  lemma GeometryFits(wanted: nat, budget: nat, ram: bool)
    ensures var (n, w) := Geometry(wanted, budget, ram);
      && n * w * (ROW_BYTES + KEY_BYTES) + n <= budget
      && (!ram ==> budget < (n + 1) * w * (ROW_BYTES + KEY_BYTES) + n + 1)
  {
    var (n, w) := Geometry(wanted, budget, ram);
    var unit := SetBytes(w);
    if !ram {
      assert unit * n + budget % unit == budget;
    }
    assert n * unit == n * w * 272 + n;
    assert (n + 1) * unit == (n + 1) * w * 272 + n + 1;
  }

  /** The 264 bytes staged for position `i` in the two output buffers. */
  function Staged(weights: seq<byte>, scales: seq<byte>, i: nat): (r: seq<byte>)
    requires (i + 1) * WEIGHT_BYTES <= |weights| && (i + 1) * SCALE_BYTES <= |scales|
  {
    weights[i * WEIGHT_BYTES..(i + 1) * WEIGHT_BYTES] + scales[i * SCALE_BYTES..(i + 1) * SCALE_BYTES]
  }

  lemma SpliceStages(weights: seq<byte>, scales: seq<byte>, i: nat, row: seq<byte>, j: nat)
    requires (i + 1) * WEIGHT_BYTES <= |weights| && (i + 1) * SCALE_BYTES <= |scales|
    requires (j + 1) * WEIGHT_BYTES <= |weights| && (j + 1) * SCALE_BYTES <= |scales|
    requires |row| == ROW_BYTES
    ensures Staged(Splice(weights, i * WEIGHT_BYTES, row[..WEIGHT_BYTES]),
                   Splice(scales, i * SCALE_BYTES, row[WEIGHT_BYTES..]), j)
         == if j == i then row else Staged(weights, scales, j)
  {
    var w, s := Splice(weights, i * WEIGHT_BYTES, row[..WEIGHT_BYTES]),
      Splice(scales, i * SCALE_BYTES, row[WEIGHT_BYTES..]);
    if j == i {
      assert row == row[..WEIGHT_BYTES] + row[WEIGHT_BYTES..];
    } else {
      SliceEqual(w, weights, j * WEIGHT_BYTES, (j + 1) * WEIGHT_BYTES);
      SliceEqual(s, scales, j * SCALE_BYTES, (j + 1) * SCALE_BYTES);
    }
  }

  /** The two memcpys that stage one row. */
  method StageRow(weights: array<byte>, scales: array<byte>, n: nat, i: nat, row: seq<byte>)
    requires i < n && weights.Length == n * WEIGHT_BYTES && scales.Length == n * SCALE_BYTES
    requires weights != scales && |row| == ROW_BYTES
    modifies weights, scales
    ensures Staged(weights[..], scales[..], i) == row
    ensures forall j :: 0 <= j < n && j != i ==>
      Staged(weights[..], scales[..], j) == old(Staged(weights[..], scales[..], j))
  {
    ghost var w, s := weights[..], scales[..];
    CopyInto(weights, i * WEIGHT_BYTES, row[..WEIGHT_BYTES]);
    CopyInto(scales, i * SCALE_BYTES, row[WEIGHT_BYTES..]);
    forall j | 0 <= j < n
      ensures Staged(weights[..], scales[..], j) == if j == i then row else Staged(w, s, j)
    {
      SpliceStages(w, s, i, row, j);
    }
  }

  /** What the reads of one row deliver: the first one, and the second one if there is one. */
  datatype RowReads = RowReads(first: int, second: int)

  /** A direct read of `length` bytes at `offset` reaches their end. */
  predicate Reaches(count: int, offset: nat, length: nat) { count >= offset % PAGE + length }

  /** The reads a miss makes on its path all reach their ends; resident bytes need none. */
  predicate MissArrives(b: Shard, resident: bool, id: nat, got: RowReads)
    requires b.Owned(id)
  {
    if b.packed.Some? then Reaches(got.first, HEADER + (id - b.lo) * ROW_BYTES, ROW_BYTES)
    else
      || resident
      || (&& Reaches(got.first, b.table.woff + id * WEIGHT_BYTES, WEIGHT_BYTES)
          && (b.scales.None? ==> Reaches(got.second, b.table.soff + id * SCALE_BYTES, SCALE_BYTES)))
  }

  /** A legal id of another rank, or one whose reads arrive if it is not cached. */
  predicate CanServe(b: Shard, resident: bool, id: int, got: RowReads) {
    0 <= id < b.table.rows && (b.Owned(id) ==> MissArrives(b, resident, id, got))
  }

  lemma HasOwned(t: Table, id: nat)
    requires t.Valid() && id < t.rows
    ensures t.Has(id)
  {}

  class Store {
    const table: Table
    const resident: bool
    const sets: nat
    const ways: nat
    const cache: array<byte>
    const keys: array<nat>
    const victim: array<nat>
    var lo: nat
    var hi: nat
    var packed: Option<seq<byte>>
    var scales: Option<seq<byte>>
    var hits: nat
    var misses: nat

    ghost function Backing(): Shard
      reads this
    {
      Shard(table, lo, hi, packed, scales)
    }

    ghost function Snapshot(): Cache
      reads this, cache, keys, victim
    {
      Cache(sets, ways, keys[..], cache[..], victim[..])
    }

    ghost predicate Valid()
      reads this, cache, keys, victim
    {
      && keys != victim
      && Backing().Valid()
      && Snapshot().Valid()
      && Snapshot().Transparent(Backing())
    }

    /** Opens a table of valid extent; the cache and its bookkeeping fit in the byte budget. */
    constructor (table: Table, wanted: nat, budget: nat, ram: bool)
      requires table.Valid()
      ensures Valid() && fresh(cache) && fresh(keys) && fresh(victim)
      ensures Backing() == Shard(table, 0, table.rows, None, None)
      ensures (sets, ways) == Geometry(wanted, budget, ram)
      ensures hits == 0 && misses == 0
    {
      var (n, w) := Geometry(wanted, budget, ram);
      this.table, resident, sets, ways := table, ram, n, w;
      lo, hi, packed, scales := 0, table.rows, None, None;
      hits, misses := 0, 0;
      var slots: nat := n * w;
      cache := new byte[slots * ROW_BYTES](_ => 0);
      keys := new nat[slots](_ => 0);
      victim := new nat[n](_ => 0);
      new;
      assert Snapshot().Valid();
      EmptyIsTransparent(Backing(), Snapshot());
    }

    /** The locked scan of the id's set. */
    method LookupLocked(id: nat) returns (r: Option<seq<byte>>)
      requires Valid()
      modifies `hits
      ensures Valid() && Snapshot() == old(Snapshot())
      ensures r == Snapshot().Lookup(id)
      ensures hits == old(hits) + (if r.Some? then 1 else 0)
    {
      r := None;
      if sets != 0 {
        ghost var c := Snapshot();
        var base := id % sets * ways;
        assert base == c.Base(id);
        hide Cache.Base, Cache.Transparent;
        var w := 0;
        while w < ways
          invariant w <= ways
          invariant c == Snapshot()
          invariant c.FindFrom(id, 0) == c.FindFrom(id, w)
        {
          if keys[base + w] == id + 1 {
            r := Some(cache[(base + w) * ROW_BYTES..(base + w) * ROW_BYTES + ROW_BYTES]);
            hits := hits + 1;
            return;
          }
          w := w + 1;
        }
      }
    }
  
    /** The locked insertion over the round-robin victim of the id's set. */
    method InsertLocked(id: nat, row: seq<byte>)
      requires Valid() && Backing().Owned(id) && row == table.Row(id)
      requires sets > 0
      modifies cache, keys, victim
      ensures Valid() && Snapshot() == old(Snapshot()).Insert(id, row)
    {
      ghost var c := Snapshot();
      var set_ := id % sets;
      var base := set_ * ways;
      assert base == c.Base(id);
      var w := victim[set_] % ways;
      assert base + w == c.Target(id);
      victim[set_] := (victim[set_] + 1) % ways;
      CopyInto(cache, (base + w) * ROW_BYTES, row);
      keys[base + w] := id + 1;
      assert Snapshot() == c.Insert(id, row);
      InsertTransparent(Backing(), c, id);
    }

    /** Assembles a missed row outside the lock. None is the process abort. */
    method ReadMiss(id: nat, got: RowReads) returns (r: Option<seq<byte>>)
      requires table.Valid() && Backing().Owned(id) && hi <= table.rows
      requires scales.Some? ==> |scales.value| == (hi - lo) * SCALE_BYTES
      ensures Backing().Valid() && r.Some? ==> r.value == Backing().MissRow(id)
      ensures packed.None? || HEADER + (id - lo) * ROW_BYTES + ROW_BYTES <= |packed.value| ==>
        (r.Some? <==> MissArrives(Backing(), resident, id, got))
      ensures packed.Some? && r.Some? ==>
        HEADER + (id - lo) * ROW_BYTES + ROW_BYTES <= |packed.value| && r.value == Record(packed.value, lo, id)
    {
      HasOwned(table, id);
      hide Table.Valid, Serves, ScaleShard;
      if packed.Some? {
        r := ReadFrom(packed.value, false, HEADER + (id - lo) * ROW_BYTES, ROW_BYTES, got.first);
        return;
      }
      var weight := ReadFrom(table.file, resident, table.woff + id * WEIGHT_BYTES, WEIGHT_BYTES, got.first);
      if weight.None? { return None; }
      if scales.Some? {
        return Some(weight.value + scales.value[(id - lo) * SCALE_BYTES..(id - lo) * SCALE_BYTES + SCALE_BYTES]);
      }
      var scale := ReadFrom(table.file, resident, table.soff + id * SCALE_BYTES, SCALE_BYTES, got.second);
      if scale.None? { return None; }
      return Some(weight.value + scale.value);
    }

    /**
     * Fetches one owned row through the cache: every completed call is one hit or one miss, and a call completes
     * exactly if the row is cached or its reads arrive.
     */
    method FetchRow(id: nat, got: RowReads) returns (r: Option<seq<byte>>)
      requires Valid() && Backing().Owned(id)
      modifies `hits, `misses, cache, keys, victim
      ensures Valid() && Backing() == old(Backing())
      ensures r.Some? ==> r.value == table.Row(id)
      ensures r.Some? <==> old(Snapshot().Lookup(id)).Some? || MissArrives(Backing(), resident, id, got)
      ensures hits == old(hits) + (if old(Snapshot().Lookup(id)).Some? then 1 else 0)
      ensures misses == old(misses) + (if r.Some? && old(Snapshot().Lookup(id)).None? then 1 else 0)
      ensures old(Snapshot().Lookup(id)).Some? ==> Snapshot() == old(Snapshot())
      ensures r.Some? && old(Snapshot().Lookup(id)).None?
        ==> Snapshot() == old(Snapshot()).Insert(id, table.Row(id))
    {
      LookupIsRow(Backing(), Snapshot(), id);
      r := LookupLocked(id);
      if r.Some? { return; }
      r := ReadMiss(id, got);
      if r.None? { return; }
      Backing().MissRowIsRow(id);
      misses := misses + 1;
      if sets > 0 {
        InsertLocked(id, r.value);
      }
    }

    /** One round of the serving loop: the row that is owed for `id`. None is the abort. */
    method RowFor(id: int, got: RowReads) returns (r: Option<seq<byte>>)
      requires Valid()
      modifies `hits, `misses, cache, keys, victim
      ensures Valid() && Backing() == old(Backing())
      ensures r.Some? <==>
        && 0 <= id < table.rows
        && (Backing().Owned(id) ==>
              old(Snapshot().Lookup(id)).Some? || MissArrives(Backing(), resident, id, got))
      ensures r.Some? ==> 0 <= id < table.rows && r.value == Expected(Backing(), id)
    {
      if id < 0 || id >= table.rows { return None; }
      if id < lo || id >= hi {
        return Some(seq(ROW_BYTES, _ => 0 as byte));
      }
      r := FetchRow(id, got);
    }

    /** Writes weight and scale bytes of ids[begin..end) into the staging buffers; false is the abort. */
    method Serve(ids: seq<int>, got: seq<RowReads>, weights: array<byte>, scaleOut: array<byte>, begin: nat, end: nat)
      returns (ok: bool)
      requires Valid() && begin <= end <= |ids| == |got|
      requires weights.Length == |ids| * WEIGHT_BYTES && scaleOut.Length == |ids| * SCALE_BYTES
      requires weights != scaleOut && cache != weights && cache != scaleOut
      modifies `hits, `misses, cache, keys, victim, weights, scaleOut
      ensures Valid() && Backing() == old(Backing())
      ensures ok ==> forall i :: begin <= i < end ==> 0 <= ids[i] < table.rows
      ensures (forall i :: begin <= i < end ==> CanServe(Backing(), resident, ids[i], got[i])) ==> ok
      ensures ok ==> forall i :: begin <= i < end ==>
        Staged(weights[..], scaleOut[..], i) == Expected(Backing(), ids[i])
      ensures forall i :: 0 <= i < |ids| && !(begin <= i < end) ==>
        Staged(weights[..], scaleOut[..], i) == old(Staged(weights[..], scaleOut[..], i))
    {
      hide Expected, Staged, Cache.Valid, Cache.Transparent, Shard.Valid, MissArrives, Cache.Lookup;
      var i := begin;
      while i < end
        invariant begin <= i <= end
        invariant Valid() && Backing() == old(Backing())
        invariant forall j :: begin <= j < i ==> 0 <= ids[j] < table.rows
        invariant forall j :: begin <= j < i ==>
          Staged(weights[..], scaleOut[..], j) == Expected(Backing(), ids[j])
        invariant forall j :: 0 <= j < |ids| && !(begin <= j < i) ==>
          Staged(weights[..], scaleOut[..], j) == old(Staged(weights[..], scaleOut[..], j))
      {
        var row := RowFor(ids[i], got[i]);
        if row.None? { assert !CanServe(Backing(), resident, ids[i], got[i]); return false; }
        StageRow(weights, scaleOut, |ids|, i, row.value);
        i := i + 1;
      }
      return true;
    }

    /**
     * Selects the owned range and pins its scales. False is the abort. The store stays valid unless the
     * range moves under an attached shard, or grows past its end, which the guard does not notice.
     */
    method SetRange(lo: nat, hi: nat, pin: bool, memory: bool, counts: seq<int>) returns (ok: bool)
      requires Valid()
      modifies `lo, `hi, `scales
      ensures packed.None? || !ok || lo == hi || (lo == old(this.lo) && hi <= old(this.hi)) ==> Valid()
      ensures Snapshot() == old(Snapshot()) && packed == old(packed)
      ensures ok == (lo <= hi <= table.rows
        && (old(scales).Some? ==> lo == old(this.lo) && hi == old(this.hi)))
      ensures if ok then this.lo == lo && this.hi == hi else unchanged(this)
      ensures old(scales).Some? || !pin ==> scales == old(scales)
      ensures ok && lo < hi && pin && memory && (resident || AllArrive(counts)) ==> scales.Some?
    {
      if lo > hi || hi > table.rows { return false; }
      if scales.Some? && (lo != this.lo || hi != this.hi) { return false; }
      this.lo, this.hi := lo, hi;
      if scales.None? && hi > lo && pin {
        scales := PinScales(table, lo, hi, resident, memory, counts);
      }
      return true;
    }

    /**
     * Attaches a repacked shard whose header and size fit this rank's range and table. The rows themselves
     * are not looked at: the store is valid afterwards exactly if they are the table's.
     */
    method Attach(image: Option<seq<byte>>, layer: nat, count: int) returns (r: Attach)
      requires Valid()
      modifies `packed
      ensures Snapshot() == old(Snapshot()) && (r == Absent <==> image.None?)
      ensures r != Attached ==> packed == old(packed) && Valid()
      ensures r == Attached <==>
        && image.Some? && count >= PAGE && |image.value| >= HEADER + (hi - lo) * ROW_BYTES
        && Decode(image.value) == Header(MAGIC, layer, lo, hi, table.rows, ROW_BYTES)
      ensures r == Attached ==> packed == image && (Valid() <==> Serves(table, image.value, lo, hi))
    {
      r := AttachPacked(image, lo, hi, table.rows, layer, count);
      if r == Attached {
        packed := image;
      }
    }
  }

  // ---------- moving the range under an attached shard ----------

  /** No table can be served a wrong row when the range moves after a shard that serves [lo, hi) was attached. */
  ghost predicate MoveIsSafe(rows: nat, lo: nat, hi: nat, newLo: nat, newHi: nat) {
    forall t: Table, image: seq<byte> | t.Valid() && t.rows == rows && Serves(t, image, lo, hi) ::
      ServesTable(t, image, newLo, newHi)
  }

  /** Every record read that succeeds under range [lo, hi) yields the row asked for. */
  ghost predicate ServesTable(t: Table, image: seq<byte>, lo: nat, hi: nat)
    requires t.Valid()
  {
    forall id :: lo <= id < hi <= t.rows && HEADER + (id - lo) * ROW_BYTES + ROW_BYTES <= |image| ==>
      Record(image, lo, id) == t.Row(id)
  }

  /**
   * The range guard only looks at pinned scales; with a packed shard, whose file may be longer than its rows,
   * the move is safe exactly when lo stays and hi does not grow, or nothing is owned afterwards.
   */
  lemma MoveIsSafeExactly(rows: nat, lo: nat, hi: nat, newLo: nat, newHi: nat)
    requires lo <= hi <= rows && newLo <= newHi <= rows
    ensures MoveIsSafe(rows, lo, hi, newLo, newHi) <==> newLo == newHi || (newLo == lo && newHi <= hi)
  {
    if newLo == newHi || (newLo == lo && newHi <= hi) {
      forall t: Table, image: seq<byte> | t.Valid() && t.rows == rows && Serves(t, image, lo, hi)
        ensures ServesTable(t, image, newLo, newHi)
      {}
    } else {
      var wrong := if newLo != lo then newLo else hi;
      var t, image := MarkedTable(rows, lo, hi, wrong);
      assert t.Row(wrong)[0] == 1;
      assert Record(image, newLo, wrong)[0] == image[HEADER + (wrong - newLo) * ROW_BYTES] == 0;
      assert !ServesTable(t, image, newLo, newHi);
    }
  }

  /**
   * The failing sequence: attach a sound shard for [lo, hi), move the range, which the guard accepts, and read
   * row `newLo`: row `lo` comes instead.
   */
  method MoveServesWrongRow(t: Table, image: seq<byte>, layer: nat, lo: nat, hi: nat, newLo: nat, newHi: nat)
    returns (moved: bool, row: Option<seq<byte>>)
    requires t.Valid() && lo < hi <= t.rows && newLo < newHi <= t.rows && newLo != lo
    requires Serves(t, image, lo, hi) && Decode(image) == Header(MAGIC, layer, lo, hi, t.rows, ROW_BYTES)
    ensures moved && row == Some(t.Row(lo))
  {
    var s := Attached(t, image, layer, lo, hi);
    moved := s.SetRange(newLo, newHi, false, true, []);
    row := s.ReadMiss(newLo, RowReads(2 * PAGE, 0));
  }

  /**
   * The other one: a shard with bytes behind its rows, and a range that keeps lo and grows past hi. A read of
   * row `hi` gives those bytes.
   */
  method GrownRangeServesTail(t: Table, shard: seq<byte>, tail: seq<byte>, layer: nat, lo: nat, hi: nat, newHi: nat)
    returns (moved: bool, row: Option<seq<byte>>)
    requires t.Valid() && lo <= hi < newHi <= t.rows && Carries(t, shard, lo, hi) && |tail| >= ROW_BYTES
    requires Decode(shard) == Header(MAGIC, layer, lo, hi, t.rows, ROW_BYTES)
    ensures moved && row == Some(tail[..ROW_BYTES])
  {
    ghost var image := shard + tail;
    DecodePrefix(shard);
    DecodePrefix(image);
    assert image[..PAGE] == shard[..PAGE];
    var s := Attached(t, shard + tail, layer, lo, hi);
    moved := s.SetRange(lo, newHi, false, true, []);
    row := s.ReadMiss(hi, RowReads(2 * PAGE, 0));
    assert Record(image, lo, hi) == tail[..ROW_BYTES];
  }

  /** A store without cache and pinned scales, its range selected and a fitting shard attached. */
  method Attached(t: Table, image: seq<byte>, layer: nat, lo: nat, hi: nat) returns (s: Store)
    requires t.Valid() && lo <= hi <= t.rows && |image| >= HEADER + (hi - lo) * ROW_BYTES
    requires Decode(image) == Header(MAGIC, layer, lo, hi, t.rows, ROW_BYTES)
    ensures fresh(s) && s.table == t && s.lo == lo && s.hi == hi && s.scales.None? && s.packed == Some(image)
    ensures fresh(s.cache) && fresh(s.keys) && fresh(s.victim)
    ensures s.Valid() <==> Serves(t, image, lo, hi)
  {
    s := new Store(t, 1, 0, false);
    var _ := s.SetRange(lo, hi, false, true, []);
    var r := s.Attach(Some(image), layer, PAGE);
  }

  /** `n` zero bytes, except for a one at `at`. */
  function Marked(n: nat, at: int): (r: seq<byte>)
    ensures |r| == n
    ensures forall i :: 0 <= i < n ==> r[i] == if i == at then 1 else 0
  {
    seq(n, i => if i == at then 1 as byte else 0 as byte)
  }

  /**
   * A table whose only nonzero byte is the first weight byte of row `mark`, and a shard of [lo, hi) with one
   * more record, of zeros, behind its rows.
   */
  lemma MarkedTable(rows: nat, lo: nat, hi: nat, mark: nat) returns (t: Table, image: seq<byte>)
    requires lo <= hi <= rows && mark < rows
    ensures t.Valid() && t.rows == rows && Serves(t, image, lo, hi) && t.Row(mark)[0] == 1
    ensures |image| == HEADER + (hi - lo) * ROW_BYTES + ROW_BYTES
    ensures mark != lo || lo == hi ==> image[HEADER] == 0
    ensures mark >= hi ==> image[HEADER + (hi - lo) * ROW_BYTES] == 0
  {
    t := Table(Marked(rows * ROW_BYTES, mark * WEIGHT_BYTES), rows, 0, rows * WEIGHT_BYTES);
    var size: nat := HEADER + (hi - lo) * ROW_BYTES + ROW_BYTES;
    image := Marked(size, if lo <= mark < hi then HEADER + (mark - lo) * ROW_BYTES else -1);
    forall id | lo <= id < hi ensures t.Has(id) && Record(image, lo, id) == t.Row(id) {
      MarkedRow(t, mark, id);
      var record, row := Record(image, lo, id), t.Row(id);
      forall k | 0 <= k < ROW_BYTES ensures record[k] == row[k] {
        assert record[k] == image[HEADER + (id - lo) * ROW_BYTES + k];
      }
    }
    MarkedRow(t, mark, mark);
  }

  lemma MarkedRow(t: Table, mark: nat, id: nat)
    requires id < t.rows && mark < t.rows
    requires t == Table(Marked(t.rows * ROW_BYTES, mark * WEIGHT_BYTES), t.rows, 0, t.rows * WEIGHT_BYTES)
    ensures t.Valid() && t.Has(id)
    ensures forall k :: 0 <= k < ROW_BYTES ==> t.Row(id)[k] == if id == mark && k == 0 then 1 else 0
  {
    forall k | 0 <= k < ROW_BYTES ensures t.Row(id)[k] == if id == mark && k == 0 then 1 else 0 {
      if k < WEIGHT_BYTES {
        assert t.Row(id)[k] == t.file[id * WEIGHT_BYTES + k];
      } else {
        assert t.Row(id)[k] == t.file[t.rows * WEIGHT_BYTES + id * SCALE_BYTES + (k - WEIGHT_BYTES)];
      }
    }
  }

  // ---------- packing, attaching and reading ----------

  function RankHeader(rows: nat, layer: nat, rank: nat, tp: nat): Header
    requires tp > 0
  {
    Header(MAGIC, layer, Start(rows, rank, tp), Start(rows, rank + 1, tp), rows, ROW_BYTES)
  }

  /**
   * The whole path: whatever the reads and writes deliver, a shard packed afresh that is then attached gives
   * the table's rows, and if all of them are whole it is attached and gives the row.
   */
  method PackedRowIsTableRow(t: Table, layer: nat, rank: nat, tp: nat, chunkRows: nat, arrived: seq<nat>,
      counts: seq<nat>, page: int, got: RowReads, id: nat) returns (attached: bool, row: Option<seq<byte>>)
    requires t.Valid() && rank < tp && Start(t.rows, rank, tp) <= id < Start(t.rows, rank + 1, tp)
    requires chunkRows > 0
    ensures row.Some? ==> attached && id < t.rows && row.value == t.Row(id)
    ensures attached ==> WritesWhole(Start(t.rows, rank, tp), Start(t.rows, rank + 1, tp), chunkRows, counts)
    ensures
      && arrived == [] && WritesWhole(Start(t.rows, rank, tp), Start(t.rows, rank + 1, tp), chunkRows, counts)
      && RankHeader(t.rows, layer, rank, tp).Fits() && page >= PAGE && got.first >= 2 * PAGE
      ==> row.Some?
  {
    hide WritesWhole;
    var lo, hi := Start(t.rows, rank, tp), Start(t.rows, rank + 1, tp);
    attached, row := false, None;
    RangeInside(t.rows, rank, tp);
    ghost var header := RankHeader(t.rows, layer, rank, tp);
    var image := PackLayer(t, layer, rank, tp, chunkRows, None, arrived, counts);
    if image.Some? {
      hide Start, PackedTo, Decode, Header.Encode, Carries, Serves, Shard.Valid, Cache.Transparent;
      SizeTells(t, header.Encode(), image.value, lo, hi, WritesWhole(lo, hi, chunkRows, counts));
      CarriedServes(t, image.value, lo, hi);
      if Carries(t, image.value, lo, hi) { AttachMatchesPack(t, image.value, header, header); }
      var s := new Store(t, 1, 0, false);
      var _ := s.SetRange(lo, hi, false, true, []);
      var r := s.Attach(image, layer, page);
      attached := r == PackedShard.Attached;
      if attached { row := s.FetchRow(id, got); }
    }
  }

  lemma CarriedServes(t: Table, image: seq<byte>, lo: nat, hi: nat)
    ensures Carries(t, image, lo, hi) ==> Serves(t, image, lo, hi)
  {}

  /**
   * The failing input of the size and header tests: a checkpoint replaced by one of the same geometry. The
   * packing step keeps the file made from the older one, it is attached, and reads return the older rows.
   */
  method StaleShardServesOldRows(older: Table, t: Table, image: seq<byte>, layer: nat, rank: nat, tp: nat,
      chunkRows: int, id: nat) returns (kept: bool, row: Option<seq<byte>>)
    requires t.Valid() && older.rows == t.rows && rank < tp
    requires Start(t.rows, rank, tp) <= id < Start(t.rows, rank + 1, tp)
    requires Carries(older, image, Start(t.rows, rank, tp), Start(t.rows, rank + 1, tp))
    requires var header := RankHeader(t.rows, layer, rank, tp); header.Fits() && image[..HEADER] == header.Encode()
    ensures kept && row == Some(older.Row(id))
  {
    var lo, hi := Start(t.rows, rank, tp), Start(t.rows, rank + 1, tp);
    var r := PackLayer(t, layer, rank, tp, chunkRows, Some(image), [], []);
    RangeInside(t.rows, rank, tp);
    kept := r == Some(image);
    DecodePrefix(image);
    DecodeEncode(RankHeader(t.rows, layer, rank, tp));
    var s := Attached(t, image, layer, lo, hi);
    row := s.ReadMiss(id, RowReads(2 * PAGE, 0));
  }

  // ---------- all ranks together ----------

  /** Byte `p` of what the first `n` ranks stage for `id`, added up. */
  function ColumnSum(shards: seq<Shard>, id: nat, p: nat, n: nat): nat
    requires n <= |shards| && p < ROW_BYTES
    requires forall r :: 0 <= r < |shards| ==> shards[r].Valid() && id < shards[r].table.rows
  {
    if n == 0 then 0 else ColumnSum(shards, id, p, n - 1) + Expected(shards[n - 1], id)[p] as nat
  }

  /** The shards of a table under the rank ranges. */
  ghost predicate RankShards(t: Table, shards: seq<Shard>) {
    forall r :: 0 <= r < |shards| ==>
      && shards[r].Valid() && shards[r].table == t
      && shards[r].lo == Start(t.rows, r, |shards|) && shards[r].hi == Start(t.rows, r + 1, |shards|)
  }

  /** Adding up every rank's staged bytes gives the row of the full table. */
  lemma RanksSumToTable(t: Table, shards: seq<Shard>, id: nat, p: nat)
    requires |shards| > 0 && RankShards(t, shards) && t.Valid() && id < t.rows && p < ROW_BYTES
    ensures ColumnSum(shards, id, p, |shards|) == t.Row(id)[p] as nat
  {
    var owner := OneOwner(t.rows, |shards|, id);
    SumHasOneTerm(t, shards, id, p, owner, |shards|);
  }

  lemma {:induction false} SumHasOneTerm(t: Table, shards: seq<Shard>, id: nat, p: nat, owner: nat, n: nat)
    requires |shards| > 0 && RankShards(t, shards) && t.Valid() && id < t.rows && p < ROW_BYTES
    requires n <= |shards| && owner < |shards| && shards[owner].Owned(id)
    requires forall q: nat :: q != owner ==> !Owns(t.rows, |shards|, q, id)
    ensures ColumnSum(shards, id, p, n) == if owner < n then t.Row(id)[p] as nat else 0
  {
    if n > 0 {
      SumHasOneTerm(t, shards, id, p, owner, n - 1);
      if n - 1 != owner {
        assert !Owns(t.rows, |shards|, n - 1, id);
      }
    }
  }
}
