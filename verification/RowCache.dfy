/** The set-associative row cache, as a value with its lookup and insertion steps. */
module RowCache {
  import opened Arith
  import opened Common
  import opened RowFile
  import opened PackedShard

  /** Where one rank's rows come from: the checkpoint table, a packed shard, pinned scales. */
  datatype Shard = Shard(table: Table, lo: nat, hi: nat, packed: Option<seq<byte>>, scales: Option<seq<byte>>) {
    ghost predicate Valid() {
      && table.Valid()
      && lo <= hi <= table.rows
      && (packed.Some? ==> Serves(table, packed.value, lo, hi))
      && (scales.Some? ==> scales.value == ScaleShard(table, lo, hi))
    }

    predicate Owned(id: nat) { lo <= id < hi }

    /** The bytes a miss assembles, on whichever of the three paths is configured. */
    function MissRow(id: nat): (r: seq<byte>)
      requires Valid() && Owned(id)
    {
      if packed.Some? then Record(packed.value, lo, id)
      else
        table.file[table.woff + id * WEIGHT_BYTES..table.woff + id * WEIGHT_BYTES + WEIGHT_BYTES]
        + if scales.Some? then scales.value[(id - lo) * SCALE_BYTES..(id - lo) * SCALE_BYTES + SCALE_BYTES]
          else table.file[table.soff + id * SCALE_BYTES..table.soff + id * SCALE_BYTES + SCALE_BYTES]
    }

    /** All three miss paths produce the row of the checkpoint table. */
    lemma MissRowIsRow(id: nat)
      requires Valid() && Owned(id)
      ensures MissRow(id) == table.Row(id)
    {
      if packed.None? && scales.Some? {
        SubSlice(table.file, table.soff + lo * SCALE_BYTES, table.soff + hi * SCALE_BYTES,
                 (id - lo) * SCALE_BYTES, (id - lo) * SCALE_BYTES + SCALE_BYTES);
      }
    }
  }

  datatype Cache = Cache(sets: nat, ways: nat, keys: seq<nat>, data: seq<byte>, victim: seq<nat>) {
    predicate Valid() {
      && ways > 0
      && |keys| == sets * ways
      && |data| == |keys| * ROW_BYTES
      && |victim| == sets
      && forall s :: 0 <= s < sets ==> victim[s] < ways
    }

    /** The 264 bytes held in slot `k`. */
    function Slot(k: nat): (r: seq<byte>)
      requires k * ROW_BYTES + ROW_BYTES <= |data|
      ensures |r| == ROW_BYTES
    {
      data[k * ROW_BYTES..k * ROW_BYTES + ROW_BYTES]
    }

    function Base(id: nat): (b: nat)
      requires Valid() && sets > 0
      ensures b + ways <= |keys|
    {
      SlotBound(id % sets, sets, ways);
      id % sets * ways
    }

    /** First way from `w` on whose key is `id`. */
    function FindFrom(id: nat, w: nat): (r: Option<nat>)
      requires Valid() && sets > 0 && w <= ways
      ensures r.Some? ==> Base(id) + w <= r.value < Base(id) + ways && keys[r.value] == id + 1
      ensures r.None? ==> forall k :: Base(id) + w <= k < Base(id) + ways ==> keys[k] != id + 1
      decreases ways - w
    {
      if w == ways then None
      else if keys[Base(id) + w] == id + 1 then Some(Base(id) + w)
      else FindFrom(id, w + 1)
    }

    /** The lookup critical section: the row found for `id`, if any. */
    function Lookup(id: nat): Option<seq<byte>>
      requires Valid()
    {
      if sets == 0 then None
      else match FindFrom(id, 0)
        case None => None
        case Some(k) => Some(Slot(k))
    }

    /** The slot the next insertion of `id` overwrites. */
    function Target(id: nat): (k: nat)
      requires Valid() && sets > 0
      ensures Base(id) <= k < Base(id) + ways
    {
      Base(id) + victim[id % sets] % ways
    }

    /** The insertion critical section: round-robin victim, then row, then key. */
    function Insert(id: nat, row: seq<byte>): (c: Cache)
      requires Valid() && |row| == ROW_BYTES
      ensures c.Valid() && c.sets == sets && c.ways == ways
    {
      if sets == 0 then this
      else
        var k := Target(id);
        Cache(sets, ways, keys[k := id + 1], Splice(data, k * ROW_BYTES, row),
              victim[id % sets := (victim[id % sets] + 1) % ways])
    }

    /** Every occupied slot holds its id's exact row, in that id's set. */
    ghost predicate Transparent(b: Shard)
      requires Valid() && b.Valid()
    {
      forall k :: 0 <= k < |keys| && keys[k] != 0 ==> Holds(b, k)
    }

    ghost predicate Holds(b: Shard, k: nat)
      requires Valid() && b.Valid() && k < |keys| && keys[k] != 0
    {
      && keys[k] - 1 < b.table.rows
      && Slot(k) == b.table.Row(keys[k] - 1)
      && sets > 0
      && Base(keys[k] - 1) <= k < Base(keys[k] - 1) + ways
    }
  }

  lemma SlotBound(s: nat, sets: nat, ways: nat)
    requires s < sets
    ensures s * ways + ways <= sets * ways
  {
    assert s * ways + ways == (s + 1) * ways;
    assert (s + 1) * ways <= sets * ways;
  }

  /** Zeroed memory is a transparent cache of any geometry. */
  lemma EmptyIsTransparent(b: Shard, c: Cache)
    requires b.Valid() && c.Valid() && forall k :: 0 <= k < |c.keys| ==> c.keys[k] == 0
    ensures c.Transparent(b)
  {}

  /** Slots other than the target keep key and bytes across an insertion. */
  lemma InsertFrame(c: Cache, id: nat, row: seq<byte>, k: nat)
    requires c.Valid() && |row| == ROW_BYTES && k < |c.keys|
    ensures c.sets > 0 && k == c.Target(id) ==>
      c.Insert(id, row).keys[k] == id + 1 && c.Insert(id, row).Slot(k) == row
    ensures c.sets == 0 || k != c.Target(id) ==>
      c.Insert(id, row).keys[k] == c.keys[k] && c.Insert(id, row).Slot(k) == c.Slot(k)
  {
    if c.sets > 0 && k != c.Target(id) {
      var d := c.Insert(id, row);
      var t := c.Target(id);
      SliceEqual(d.data, c.data, k * ROW_BYTES, k * ROW_BYTES + ROW_BYTES);
    }
  }

  /** A transparent cache answers with the backing row, or not at all. */
  lemma LookupIsRow(b: Shard, c: Cache, id: nat)
    requires b.Valid() && c.Valid() && c.Transparent(b)
    ensures c.Lookup(id).Some? ==> id < b.table.rows && c.Lookup(id).value == b.table.Row(id)
  {
    if c.Lookup(id).Some? {
      var k := c.FindFrom(id, 0).value;
      assert c.Holds(b, k);
    }
  }

  /** Inserting an exact row keeps the cache transparent, also when the id is already present. */
  lemma InsertTransparent(b: Shard, c: Cache, id: nat)
    requires b.Valid() && c.Valid() && c.Transparent(b) && b.Owned(id)
    ensures c.Insert(id, b.table.Row(id)).Transparent(b)
  {
    var row := b.table.Row(id);
    var d := c.Insert(id, row);
    forall k | 0 <= k < |d.keys| && d.keys[k] != 0 ensures d.Holds(b, k) {
      InsertFrame(c, id, row, k);
      if c.sets == 0 || k != c.Target(id) {
        assert c.Holds(b, k);
      }
    }
  }

  /** A row just inserted is found by the next lookup of its id. */
  lemma InsertThenLookup(b: Shard, c: Cache, id: nat)
    requires b.Valid() && c.Valid() && c.Transparent(b) && b.Owned(id) && c.sets > 0
    ensures c.Insert(id, b.table.Row(id)).Lookup(id) == Some(b.table.Row(id))
  {
    var d := c.Insert(id, b.table.Row(id));
    InsertTransparent(b, c, id);
    InsertFrame(c, id, b.table.Row(id), c.Target(id));
    assert d.keys[c.Target(id)] == id + 1;
    assert d.FindFrom(id, 0).Some?;
    LookupIsRow(b, d, id);
  }

  /** Critical sections on different sets touch disjoint memory and commute. */
  lemma SetsCommute(c: Cache, i: nat, j: nat, x: seq<byte>, y: seq<byte>)
    requires c.Valid() && |x| == |y| == ROW_BYTES && c.sets > 0 && i % c.sets != j % c.sets
    ensures c.Insert(i, x).Insert(j, y) == c.Insert(j, y).Insert(i, x)
  {
    DisjointSets(c, i, j);
    var p, q := c.Target(i), c.Target(j);
    assert c.Insert(i, x).Target(j) == q && c.Insert(j, y).Target(i) == p;
    SplicesCommute(c.data, p * ROW_BYTES, x, q * ROW_BYTES, y);
  }

  lemma SplicesCommute(s: seq<byte>, p: nat, x: seq<byte>, q: nat, y: seq<byte>)
    requires p + |x| <= |s| && q + |y| <= |s| && (p + |x| <= q || q + |y| <= p)
    ensures Splice(Splice(s, p, x), q, y) == Splice(Splice(s, q, y), p, x)
  {
    var u, v := Splice(Splice(s, p, x), q, y), Splice(Splice(s, q, y), p, x);
    forall i | 0 <= i < |s| ensures u[i] == v[i] {
      SpliceAt(s, p, x, i);
      SpliceAt(s, q, y, i);
      SpliceAt(Splice(s, p, x), q, y, i);
      SpliceAt(Splice(s, q, y), p, x, i);
    }
  }

  lemma SpliceAt(s: seq<byte>, p: nat, x: seq<byte>, i: nat)
    requires p + |x| <= |s| && i < |s|
    ensures Splice(s, p, x)[i] == if p <= i < p + |x| then x[i - p] else s[i]
  {}

  /** An insertion into another set does not change what a lookup finds. */
  lemma LookupElsewhere(c: Cache, i: nat, j: nat, x: seq<byte>)
    requires c.Valid() && |x| == ROW_BYTES && c.sets > 0 && i % c.sets != j % c.sets
    ensures c.Insert(i, x).Lookup(j) == c.Lookup(j)
  {
    DisjointSets(c, i, j);
    LookupFrame(c, i, j, x, 0);
    if c.FindFrom(j, 0).Some? {
      InsertFrame(c, i, x, c.FindFrom(j, 0).value);
    }
  }

  lemma DisjointSets(c: Cache, i: nat, j: nat)
    requires c.Valid() && c.sets > 0 && i % c.sets != j % c.sets
    ensures c.Base(i) + c.ways <= c.Base(j) || c.Base(j) + c.ways <= c.Base(i)
  {
    if i % c.sets < j % c.sets {
      SlotBound(i % c.sets, j % c.sets, c.ways);
    } else {
      SlotBound(j % c.sets, i % c.sets, c.ways);
    }
  }

  lemma {:induction false} LookupFrame(c: Cache, i: nat, j: nat, x: seq<byte>, w: nat)
    requires c.Valid() && |x| == ROW_BYTES && c.sets > 0 && i % c.sets != j % c.sets && w <= c.ways
    ensures c.Insert(i, x).FindFrom(j, w) == c.FindFrom(j, w)
    decreases c.ways - w
  {
    if w < c.ways {
      DisjointSets(c, i, j);
      LookupFrame(c, i, j, x, w + 1);
    }
  }

  // ---------- round-robin replacement ----------

  datatype Item = Item(id: nat, row: seq<byte>)

  ghost predicate Items(items: seq<Item>) {
    forall i :: 0 <= i < |items| ==> |items[i].row| == ROW_BYTES
  }

  /** Any further insertions, in order. */
  ghost function InsertAll(c: Cache, items: seq<Item>): (d: Cache)
    requires c.Valid() && Items(items)
    ensures d.Valid() && d.sets == c.sets && d.ways == c.ways
    decreases items
  {
    if items == [] then c else InsertAll(c.Insert(items[0].id, items[0].row), items[1..])
  }

  /** How many of the items fall into the set of `id`. */
  function Rivals(sets: nat, id: nat, items: seq<Item>): nat
    requires sets > 0
  {
    if items == [] then 0
    else (if items[0].id % sets == id % sets then 1 else 0) + Rivals(sets, id, items[1..])
  }

  /** An inserted row stays cached until its set has seen `ways` further insertions. */
  lemma KeptForARound(c: Cache, id: nat, row: seq<byte>, items: seq<Item>)
    requires c.Valid() && c.sets > 0 && |row| == ROW_BYTES && Items(items)
    requires Rivals(c.sets, id, items) < c.ways
    ensures InsertAll(c.Insert(id, row), items).Lookup(id).Some?
  {
    CursorAdvances(c, id, row);
    InsertFrame(c, id, row, c.Target(id));
    Outlives(c.Insert(id, row), id, c.Target(id), c.ways - 1, items);
  }

  lemma CursorAdvances(c: Cache, id: nat, row: seq<byte>)
    requires c.Valid() && c.sets > 0 && |row| == ROW_BYTES
    ensures c.Target(id) == c.Base(id) + c.victim[id % c.sets]
    ensures var v, d := c.victim[id % c.sets], c.Insert(id, row);
      d.victim == c.victim[id % c.sets := if v + 1 == c.ways then 0 else v + 1]
  {
    var v := c.victim[id % c.sets];
    DivIs(v, c.ways, 0, v);
    if v + 1 == c.ways {
      DivIs(v + 1, c.ways, 1, 0);
    } else {
      DivIs(v + 1, c.ways, 0, v + 1);
    }
  }

  /** Slot `k` keeps `id` while at most `gap` insertions reach its set; the cursor is `gap` steps behind `k`. */
  lemma {:induction false} Outlives(c: Cache, id: nat, k: nat, gap: nat, items: seq<Item>)
    requires c.Valid() && c.sets > 0 && Items(items)
    requires c.Base(id) <= k < c.Base(id) + c.ways && c.keys[k] == id + 1
    requires gap < c.ways
    requires c.victim[id % c.sets] + gap == k - c.Base(id) || c.victim[id % c.sets] + gap == k - c.Base(id) + c.ways
    requires Rivals(c.sets, id, items) <= gap
    ensures InsertAll(c, items).Lookup(id).Some?
    decreases items
  {
    if items != [] {
      var next := items[0];
      var d := c.Insert(next.id, next.row);
      CursorAdvances(c, next.id, next.row);
      InsertFrame(c, next.id, next.row, k);
      if next.id % c.sets == id % c.sets {
        Outlives(d, id, k, gap - 1, items[1..]);
      } else {
        DisjointSets(c, next.id, id);
        Outlives(d, id, k, gap, items[1..]);
      }
    }
  }
}
