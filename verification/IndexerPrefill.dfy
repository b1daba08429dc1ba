/** Per-rank metadata of one request's indexer prefill chunk. */
module IndexerPrefill {
  import opened Arith
  import opened Common
  import opened Striping

  const PAGE: nat := 64
  const LANES: nat := 256

  function Pages(tokens: nat): nat {
    (tokens + PAGE - 1) / PAGE
  }

  /** How the tokens are dealt to the ranks, seen from one rank. */
  datatype Geometry = Geometry(rank: nat, world: nat, interleave: nat) {
    predicate Valid() { rank < world && interleave > 0 }

    function Count(length: nat): nat
      requires Valid()
    {
      LocalCount(length, rank, world, interleave)
    }

    /** The kernel's local end for a context of any sign. */
    function End(context: int): int
      requires Valid()
    {
      Stride(world, interleave);
      var base := TruncDiv(context, world * interleave) * interleave;
      base + Clamp(context - base * world - rank * interleave, interleave)
    }
  }

  /** For a proper context it is the local count. */
  lemma EndIsCount(g: Geometry, context: nat)
    requires g.Valid()
    ensures g.End(context) == g.Count(context)
  {
    Stride(g.world, g.interleave);
    DivNat(context, g.world * g.interleave);
  }

  /** A row without context scans nothing. */
  lemma NoContextNoEnd(g: Geometry, context: int)
    requires g.Valid() && context <= 0
    ensures g.End(context) <= 0
  {
    Stride(g.world, g.interleave);
    if context == 0 {
      DivIs(0, g.world * g.interleave, 0, 0);
    } else {
      var stride, n := g.world * g.interleave, -context;
      DivNat(n, stride);
      var q: int := n / stride;
      assert n == stride * q + n % stride;
      Regroup(q, g.world, g.interleave);
      assert -q * g.interleave * g.world == -(stride * q);
      assert q * g.interleave >= 0 && g.rank * g.interleave >= 0;
    }
  }

  /** The live device metadata of one request. Nothing bounds the query length by the total. */
  datatype Request = Request(total: nat, queryLen: int) {
    /** Tokens visible to the query at `position` of the request; not positive if the total lags behind. */
    function Context(position: nat): int { total - queryLen + position + 1 }
  }

  /** Division as the kernel does it, towards zero. */
  function TruncDiv(a: int, d: nat): int
    requires d > 0
  {
    if a >= 0 then a / d else -((-a) / d)
  }

  /** A page is exposed if the rank's live tokens reach it. */
  function PageEntry(source: seq<int>, o: nat, live: nat): int
    requires o < |source|
  {
    if o < Pages(live) then source[o] else -1
  }

  /** The `_causal_metadata` launch: every program writes its masked lanes. */
  method CausalMetadata(g: Geometry, req: Request, source: seq<int>, offset: nat, programs: nat,
      starts: array<nat>, ends: array<int>, pages: array<int>, globalCu: array<nat>, localCu: array<nat>)
    requires g.Valid() && pages.Length <= |source| && globalCu.Length == localCu.Length == 2
    requires programs > 0 && starts.Length == ends.Length <= programs * LANES && pages.Length <= programs * LANES
    requires globalCu != localCu && starts != globalCu && starts != localCu && ends != pages
    modifies starts, ends, pages, globalCu, localCu
    ensures forall o :: 0 <= o < starts.Length ==> starts[o] == 0
    ensures forall o :: 0 <= o < ends.Length ==> ends[o] == g.End(req.total - req.queryLen + offset + o + 1)
    ensures forall o :: 0 <= o < pages.Length ==> pages[o] == PageEntry(source, o, g.Count(req.total))
    ensures globalCu[..] == [0, req.total] && localCu[..] == [0, g.Count(req.total)]
  {
    var local := g.Count(req.total);
    hide LocalCount, Geometry.Count, Geometry.End;
    for program := 0 to programs
      invariant forall o :: 0 <= o < starts.Length && o < program * LANES ==> starts[o] == 0
      invariant forall o :: 0 <= o < ends.Length && o < program * LANES ==> ends[o] == g.End(req.Context(offset + o))
      invariant forall o :: 0 <= o < pages.Length && o < program * LANES ==> pages[o] == PageEntry(source, o, local)
      invariant program > 0 ==> globalCu[0] == localCu[0] == 0 && globalCu[1] == req.total && localCu[1] == local
    {
      for lane := 0 to LANES
        invariant forall o :: 0 <= o < starts.Length && o < program * LANES + lane ==> starts[o] == 0
        invariant forall o :: 0 <= o < ends.Length && o < program * LANES + lane ==>
          ends[o] == g.End(req.Context(offset + o))
        invariant forall o :: 0 <= o < pages.Length && o < program * LANES + lane ==>
          pages[o] == PageEntry(source, o, local)
        invariant program > 0 ==> globalCu[0] == localCu[0] == 0 && globalCu[1] == req.total && localCu[1] == local
      {
        var o := program * LANES + lane;
        if o < starts.Length {
          starts[o] := 0;
          ends[o] := g.End(req.Context(offset + o));
        }
        if o < pages.Length {
          pages[o] := PageEntry(source, o, local);
        }
      }
      if program == 0 {
        globalCu[0], globalCu[1] := 0, req.total;
        localCu[0], localCu[1] := 0, local;
      }
    }
  }

  // ---------- the chunk one rank builds ----------

  datatype Chunk = Chunk(starts: seq<nat>, ends: seq<int>, pages: seq<int>, globalCu: seq<nat>, localCu: seq<nat>,
                         total: nat, tokenStart: nat, tokenEnd: nat, skipGather: bool, localUpper: nat, maxLocal: nat)

  /** Delegated: the generic builder's case. Nothing: an empty request. Invalid: a ValueError. */
  datatype Built = Delegated | Nothing | Invalid | Chunked(chunk: Chunk)

  /** Columns of the page table: the table's own, or what the CPU's upper bound needs if that is less. */
  function Width(columns: nat, upper: nat): nat {
    var needed := if Pages(upper) == 0 then 1 else Pages(upper);
    if columns < needed then columns else needed
  }

  /** The least width that covers the bound and is not zero, unless the table has fewer columns. */
  lemma WidthIsLeast(columns: nat, upper: nat)
    ensures Width(columns, upper) <= columns
    ensures Width(columns, upper) == columns || (Width(columns, upper) >= 1 && Width(columns, upper) * PAGE >= upper)
    ensures Width(columns, upper) <= 1 || (Width(columns, upper) - 1) * PAGE < upper
  {}

  /** `c` describes positions [begin, end) of the request, for a CPU length bound of `upper`. */
  ghost predicate ChunkOf(c: Chunk, g: Geometry, req: Request, source: seq<int>, upper: nat, begin: nat, end: nat) {
    && g.Valid() && begin <= end
    && |c.starts| == |c.ends| == end - begin
    && (forall o :: 0 <= o < end - begin ==> c.starts[o] == 0)
    && (forall o :: 0 <= o < end - begin ==> c.ends[o] == g.End(req.Context(begin + o)))
    && |c.pages| == Width(|source|, g.Count(upper))
    && (forall o :: 0 <= o < |c.pages| ==> c.pages[o] == PageEntry(source, o, g.Count(req.total)))
    && c.globalCu == [0, req.total] && c.localCu == [0, g.Count(req.total)]
    && c.total == upper && c.localUpper == g.Count(upper)
    && c.maxLocal == LocalCount(upper, 0, g.world, g.interleave)
  }

  /** The live metadata of request `start`. */
  function RequestAt(lens: seq<nat>, qsl: seq<nat>, start: nat): Request
    requires start < |lens| && start + 1 < |qsl|
  {
    var first: int, next: int := qsl[start], qsl[start + 1];
    Request(lens[start], next - first)
  }

  /** The query slice, by default the whole request. */
  function Positions(slice: Option<(int, int)>, first: int, next: int): (int, int) {
    if slice.Some? then slice.value else (0, next - first)
  }

  method BuildPagedChunk(start: nat, end: nat, qsl: seq<nat>, qslCpu: seq<nat>, lens: seq<nat>, lensCpu: seq<nat>,
      table: seq<seq<int>>, ratio: nat, slice: Option<(int, int)>, skip: bool, rank: int, world: int, interleave: int)
    returns (r: Built)
    requires start + 1 < |qsl| && start + 1 < |qslCpu| && start < |lens| && start < |lensCpu| && start < |table|
    ensures r.Delegated? <==> end != start + 1 || ratio != 1
    ensures r.Nothing? <==> !r.Delegated? && lensCpu[start] == 0
    ensures var (begin, stop) := Positions(slice, qslCpu[start], qslCpu[start + 1]);
      && (r.Chunked? <==>
            && !r.Delegated? && !r.Nothing? && 0 <= begin < stop && qslCpu[start] + stop <= qslCpu[start + 1]
            && 0 <= rank < world && interleave >= 1)
      && (r.Chunked? ==>
            && ChunkOf(r.chunk, Geometry(rank, world, interleave), RequestAt(lens, qsl, start),
                       table[start], lensCpu[start], begin, stop)
            && r.chunk.tokenStart == qslCpu[start] + begin && r.chunk.tokenEnd == qslCpu[start] + stop
            && r.chunk.skipGather == (skip || begin > 0))
      && (r.Chunked? ==>
            ScansOwn(r.chunk, Geometry(rank, world, interleave), lens[start], qsl[start + 1] as int - qsl[start],
                     begin, stop))
  {
    if end != start + 1 || ratio != 1 { return Delegated; }
    var total := lensCpu[start];
    if total == 0 { return Nothing; }
    var tokenBase := qslCpu[start];
    var queryLen := qslCpu[end] - tokenBase;
    var (begin, stop) := Positions(slice, tokenBase, qslCpu[end]);
    if !(0 <= begin < stop <= queryLen) { return Invalid; }
    if world < 1 || !(0 <= rank < world) || interleave < 1 { return Invalid; }
    var g, req := Geometry(rank, world, interleave), RequestAt(lens, qsl, start);
    hide LocalCount, Geometry.End;
    var rows := stop - begin;
    var localUpper := g.Count(total);
    var width := Width(|table[start]|, localUpper);
    var starts, ends, pages := new nat[rows], new int[rows], new int[width];
    var globalCu, localCu := new nat[2], new nat[2];
    var most := if rows < width then width else rows;
    CausalMetadata(g, req, table[start], begin, (most + LANES - 1) / LANES, starts, ends, pages, globalCu, localCu);
    r := Chunked(Chunk(starts[..], ends[..], pages[..], globalCu[..], localCu[..], total, tokenBase + begin,
                       tokenBase + stop, skip || begin > 0, localUpper, LocalCount(total, 0, world, interleave)));
    ChunkScansOwn(r.chunk, g, req, table[start], total, begin, stop);
  }

  // ---------- what the chunk means ----------

  /** Row `o` of the chunk scans the slot of token `t`. */
  predicate Scans(c: Chunk, g: Geometry, o: nat, t: nat)
    requires g.Valid() && o < |c.starts| && o < |c.ends|
  {
    c.starts[o] <= Local(t, g.world, g.interleave) < c.ends[o]
  }

  /**
   * Every row of the slice scans the rank's tokens up to its own: of a request of `total` tokens, the last
   * `queryLen` of which are the queries, row `o` is the query at position `begin + o`.
   */
  ghost predicate ScansOwn(c: Chunk, g: Geometry, total: nat, queryLen: int, begin: nat, end: nat) {
    && g.Valid() && begin <= end && |c.starts| == |c.ends| == end - begin
    && forall o: nat, t: nat :: o < end - begin && Owner(t, g.world, g.interleave) == g.rank ==>
         (Scans(c, g, o, t) <==> t + queryLen <= total + begin + o)
  }

  lemma ChunkScansOwn(c: Chunk, g: Geometry, req: Request, source: seq<int>, upper: nat, begin: nat, end: nat)
    requires ChunkOf(c, g, req, source, upper, begin, end)
    ensures ScansOwn(c, g, req.total, req.queryLen, begin, end)
  {
    hide Scans, Owner, ChunkOf;
    assert g.Valid() && begin <= end && |c.starts| == |c.ends| == end - begin by {
      ChunkShape(c, g, req, source, upper, begin, end);
    }
    forall o: nat, t: nat | o < end - begin && Owner(t, g.world, g.interleave) == g.rank
      ensures Scans(c, g, o, t) <==> t + req.queryLen <= req.total + begin + o
    {
      RowScansContext(c, g, req, source, upper, begin, end, o, t);
    }
  }

  lemma ChunkShape(c: Chunk, g: Geometry, req: Request, source: seq<int>, upper: nat, begin: nat, end: nat)
    requires ChunkOf(c, g, req, source, upper, begin, end)
    ensures g.Valid() && begin <= end && |c.starts| == |c.ends| == end - begin
  {}

  /** Each row scans its own token and nothing after it; the last query of the request scans all of it. */
  lemma RowScansItself(c: Chunk, g: Geometry, total: nat, queryLen: int, begin: nat, end: nat, o: nat, t: nat)
    requires ScansOwn(c, g, total, queryLen, begin, end) && o < end - begin
    requires Owner(t, g.world, g.interleave) == g.rank
    ensures t == total - queryLen + begin + o ==> Scans(c, g, o, t)
    ensures t > total - queryLen + begin + o ==> !Scans(c, g, o, t)
    ensures begin + o + 1 == queryLen ==> (Scans(c, g, o, t) <==> t < total)
  {}

  /** Row `o` scans exactly the rank's tokens that precede the end of its causal context. */
  lemma RowScansContext(c: Chunk, g: Geometry, req: Request, source: seq<int>, upper: nat, begin: nat, end: nat,
      o: nat, t: nat)
    requires ChunkOf(c, g, req, source, upper, begin, end) && o < end - begin
    requires Owner(t, g.world, g.interleave) == g.rank
    ensures Scans(c, g, o, t) <==> t + req.queryLen <= req.total + begin + o
  {
    hide LocalCount, Local, Owner, Geometry.End;
    var context := req.Context(begin + o);
    if context > 0 {
      EndIsCount(g, context);
      BelowCount(t, context, g.world, g.interleave);
    } else {
      NoContextNoEnd(g, context);
    }
  }

  /** Every slot a row scans lies on a page the chunk carries, whatever the CPU bound overestimates. */
  lemma PagesCoverRows(c: Chunk, g: Geometry, req: Request, source: seq<int>, upper: nat, begin: nat, end: nat,
      o: nat, l: nat)
    requires ChunkOf(c, g, req, source, upper, begin, end) && o < end - begin && l < c.ends[o]
    requires req.total <= upper && end <= req.queryLen && Pages(g.Count(upper)) <= |source|
    ensures l / PAGE < |c.pages| && c.pages[l / PAGE] == source[l / PAGE]
    ensures c.ends[o] <= c.localCu[1] <= c.localUpper <= c.maxLocal
  {
    hide LocalCount, Geometry.End;
    var context := req.Context(begin + o);
    if context > 0 {
      EndIsCount(g, context);
      CountGrows(context, req.total, g.rank, g.world, g.interleave);
    } else {
      NoContextNoEnd(g, context);
    }
    CountGrows(req.total, upper, g.rank, g.world, g.interleave);
    RankZeroLargest(upper, g.rank, g.world, g.interleave);
  }

  /** A page past the live tokens is never exposed. */
  lemma NoTrailingPage(c: Chunk, g: Geometry, req: Request, source: seq<int>, upper: nat, begin: nat, end: nat,
      page: nat)
    requires ChunkOf(c, g, req, source, upper, begin, end) && page < |c.pages|
    requires g.Count(req.total) <= page * PAGE
    ensures c.pages[page] == -1
  {
    hide LocalCount;
  }

  /** Row `o`'s ends on ranks 0 .. k - 1, added up. */
  ghost function EndsSum(chunks: seq<Chunk>, o: nat, k: nat): int
    requires k <= |chunks| && forall r :: 0 <= r < |chunks| ==> o < |chunks[r].ends|
  {
    if k == 0 then 0 else EndsSum(chunks, o, k - 1) + chunks[k - 1].ends[o]
  }

  /** The chunks all ranks build for the same positions of one request. */
  ghost predicate ChunksOf(chunks: seq<Chunk>, world: nat, interleave: nat, req: Request, upper: nat, begin: nat,
      end: nat) {
    |chunks| == world
    && forall r :: 0 <= r < world ==>
         exists source :: ChunkOf(chunks[r], Geometry(r, world, interleave), req, source, upper, begin, end)
  }

  lemma ChunkEnd(chunks: seq<Chunk>, world: nat, interleave: nat, req: Request, upper: nat, begin: nat, end: nat,
      o: nat, r: nat)
    requires ChunksOf(chunks, world, interleave, req, upper, begin, end) && o < end - begin && r < world &&
      interleave > 0
    ensures o < |chunks[r].ends|
    ensures req.Context(begin + o) >= 0 ==>
      chunks[r].ends[o] == LocalCount(req.Context(begin + o), r, world, interleave)
  {
    hide LocalCount, Geometry.End;
    if req.Context(begin + o) >= 0 { EndIsCount(Geometry(r, world, interleave), req.Context(begin + o)); }
    var source :| ChunkOf(chunks[r], Geometry(r, world, interleave), req, source, upper, begin, end);
  }

  lemma {:induction false} EndsAreCounts(chunks: seq<Chunk>, world: nat, interleave: nat, req: Request, upper: nat,
      begin: nat, end: nat, o: nat, k: nat)
    requires ChunksOf(chunks, world, interleave, req, upper, begin, end) && o < end - begin && k <= world
    requires req.Context(begin + o) >= 0 && interleave > 0 && world > 0 && forall r :: 0 <= r < |chunks| ==>
      o < |chunks[r].ends|
    ensures EndsSum(chunks, o, k) == CountSum(req.Context(begin + o), k, world, interleave)
  {
    hide LocalCount, ChunksOf;
    if k > 0 {
      EndsAreCounts(chunks, world, interleave, req, upper, begin, end, o, k - 1);
      ChunkEnd(chunks, world, interleave, req, upper, begin, end, o, k - 1);
    }
  }

  /** Over all ranks a row scans its whole causal context: the local ends add up to the context. */
  lemma RanksScanContext(chunks: seq<Chunk>, world: nat, interleave: nat, req: Request, upper: nat,
      begin: nat, end: nat, o: nat)
    requires ChunksOf(chunks, world, interleave, req, upper, begin, end) && o < end - begin && world > 0 &&
      interleave > 0
    requires req.total + begin + o + 1 >= req.queryLen
    ensures forall r :: 0 <= r < |chunks| ==> o < |chunks[r].ends|
    ensures EndsSum(chunks, o, world) == req.total - req.queryLen + begin + o + 1
    ensures begin + o + 1 == req.queryLen ==> EndsSum(chunks, o, world) == req.total
  {
    hide LocalCount, ChunksOf;
    ChunkEnd(chunks, world, interleave, req, upper, begin, end, o, 0);
    assert |chunks| == world by { ChunkTotal(chunks, world, interleave, req, upper, begin, end); }
    forall r | 0 <= r < |chunks| ensures o < |chunks[r].ends| {
      ChunkEnd(chunks, world, interleave, req, upper, begin, end, o, r);
    }
    EndsAreCounts(chunks, world, interleave, req, upper, begin, end, o, world);
    CountsConserve(req.Context(begin + o), world, interleave);
  }

  lemma ChunkTotal(chunks: seq<Chunk>, world: nat, interleave: nat, req: Request, upper: nat, begin: nat, end: nat)
    requires ChunksOf(chunks, world, interleave, req, upper, begin, end)
    ensures |chunks| == world
  {}
}
