/** Compacted addresses of the selected tokens in the gathered key-value buffer. */
module Ckv {
  import opened Arith
  import opened Striping

  /** Where each rank packs each request's tokens: starts[rank][request], lens[rank][request]. */
  datatype Layout = Layout(world: nat, interleave: nat, padded: nat, starts: seq<seq<nat>>, lens: seq<seq<nat>>) {
    predicate Valid(requests: nat) {
      && world > 0 && interleave > 0 && |starts| == |lens| == world
      && forall w :: 0 <= w < world ==> |starts[w]| == |lens[w]| == requests
    }

    /** A selected id is used if it is a token and its owner's shard reaches it. */
    predicate Picks(requests: nat, req: nat, tok: int)
      requires Valid(requests) && req < requests
    {
      tok >= 0 && Local(tok, world, interleave) < lens[Owner(tok, world, interleave)][req]
    }

    function Address(requests: nat, req: nat, tok: nat): nat
      requires Valid(requests) && req < requests
    {
      var owner := Owner(tok, world, interleave);
      owner * padded + starts[owner][req] + Local(tok, world, interleave)
    }
  }

  /** One row of the launch: its request, the layout and the request's causal length at this row. */
  datatype Row = Row(l: Layout, requests: nat, req: nat, ids: seq<int>, causal: int) {
    predicate Valid() { l.Valid(requests) && req < requests }

    /** The lane's mask bit; lanes past the row load -1. */
    predicate Takes(lane: nat)
      requires Valid()
    {
      lane < |ids| && l.Picks(requests, req, ids[lane])
    }

    /** The used ids of the first `n` lanes, in order. */
    function Chosen(n: nat): (r: seq<nat>)
      requires Valid()
      ensures |r| <= n
    {
      if n == 0 then [] else Chosen(n - 1) + (if Takes(n - 1) then [ids[n - 1]] else [])
    }

    function Count(): int
      requires Valid()
    {
      var used := |Chosen(|ids|)|;
      if used < causal then used else causal
    }

    /** What column `k` must hold. */
    function Entry(k: nat): int
      requires Valid()
    {
      if k < Count() then l.Address(requests, req, Chosen(|ids|)[k]) else -1
    }
  }

  lemma {:induction false} ChosenPrefix(r: Row, m: nat, n: nat)
    requires r.Valid() && m <= n
    ensures r.Chosen(m) <= r.Chosen(n)
  {
    if m < n { ChosenPrefix(r, m, n - 1); }
  }

  lemma {:induction false} ChosenPast(r: Row, n: nat)
    requires r.Valid() && n >= |r.ids|
    ensures r.Chosen(n) == r.Chosen(|r.ids|)
  {
    if n > |r.ids| { ChosenPast(r, n - 1); }
  }

  /** The count is what is used, unless that is more than the causal length. */
  lemma CountIsLeast(r: Row)
    requires r.Valid()
    ensures r.Count() <= r.causal && r.Count() <= |r.Chosen(|r.ids|)|
    ensures r.Count() == r.causal || r.Count() == |r.Chosen(|r.ids|)|
  {}

  // ---------- the kernel ----------

  /** Row `row` of `out` is the entries of `r`. */
  ghost predicate Written(out: array2<int>, row: nat, r: Row)
    requires r.Valid() && row < out.Length0 && out.Length1 == |r.ids|
    reads out
  {
    forall k :: 0 <= k < |r.ids| ==> out[row, k] == r.Entry(k)
  }

  /** Inclusive prefix sums of the mask, minus one, and the mask's total. */
  method Offsets(r: Row, lanes: nat) returns (offset: array<int>, total: nat)
    requires r.Valid() && |r.ids| <= lanes
    ensures fresh(offset) && offset.Length == lanes && total == |r.Chosen(|r.ids|)|
    ensures forall k :: 0 <= k < lanes ==> offset[k] == |r.Chosen(k + 1)| - 1
  {
    offset := new int[lanes];
    total := 0;
    for c := 0 to lanes
      invariant total == |r.Chosen(c)|
      invariant forall k :: 0 <= k < c ==> offset[k] == |r.Chosen(k + 1)| - 1
      modifies offset
    {
      total := total + if r.Takes(c) then 1 else 0;
      offset[c] := total - 1;
    }
    ChosenPast(r, lanes);
  }

  /** The tail store. */
  method StoreTail(row: nat, width: nat, lanes: nat, count: int, out: array2<int>)
    requires row < out.Length0 && out.Length1 == width <= lanes
    modifies out
    ensures forall i, k :: 0 <= i < out.Length0 && 0 <= k < width && i != row ==> out[i, k] == old(out[i, k])
    ensures forall k :: 0 <= k < width && k >= count ==> out[row, k] == -1
  {
    for c := 0 to lanes
      invariant forall i, k :: 0 <= i < out.Length0 && 0 <= k < width && i != row ==> out[i, k] == old(out[i, k])
      invariant forall k :: 0 <= k < width && k < c && k >= count ==> out[row, k] == -1
    {
      if c < width && c >= count { out[row, c] := -1; }
    }
  }

  /** The compacting store. */
  method StoreChosen(r: Row, row: nat, lanes: nat, offset: array<int>, out: array2<int>)
    requires r.Valid() && row < out.Length0 && out.Length1 == |r.ids| <= lanes == offset.Length
    requires forall k :: 0 <= k < lanes ==> offset[k] == |r.Chosen(k + 1)| - 1
    modifies out
    ensures forall i, k :: 0 <= i < out.Length0 && 0 <= k < |r.ids| && (i != row || k >= r.Count()) ==>
      out[i, k] == old(out[i, k])
    ensures forall k :: 0 <= k < |r.ids| && k < r.Count() ==> out[row, k] == r.Entry(k)
  {
    var count := r.Count();
    for c := 0 to lanes
      invariant forall i, k :: 0 <= i < out.Length0 && 0 <= k < |r.ids| && (i != row || k >= count) ==>
        out[i, k] == old(out[i, k])
      invariant forall k :: 0 <= k < |r.Chosen(c)| && k < |r.ids| && k < count ==> out[row, k] == r.Entry(k)
    {
      if r.Takes(c) {
        ChosenPrefix(r, c + 1, |r.ids|);
        if offset[c] < count {
          out[row, offset[c]] := r.l.Address(r.requests, r.req, r.ids[c]);
        }
      }
    }
    ChosenPast(r, lanes);
  }

  /** One program: the whole row, its count and its causal length. */
  method MetadataRow(r: Row, row: nat, lanes: nat, out: array2<int>, counts: array<int>, causal: array<int>)
    requires r.Valid() && row < out.Length0 && out.Length1 == |r.ids| <= lanes
    requires row < counts.Length && row < causal.Length && counts != causal
    modifies out, counts, causal
    ensures Written(out, row, r)
    ensures forall i, k :: 0 <= i < out.Length0 && 0 <= k < out.Length1 && i != row ==> out[i, k] == old(out[i, k])
    ensures forall i :: 0 <= i < counts.Length ==> counts[i] == if i == row then r.Count() else old(counts[i])
    ensures forall i :: 0 <= i < causal.Length ==> causal[i] == if i == row then r.causal else old(causal[i])
  {
    var offset, total := Offsets(r, lanes);
    var count := if total < r.causal then total else r.causal;
    StoreTail(row, |r.ids|, lanes, count, out);
    StoreChosen(r, row, lanes, offset, out);
    counts[row] := count;
    causal[row] := r.causal;
  }

  // ---------- the launch ----------

  /** A rank-by-request matrix. */
  ghost predicate Matrix(m: seq<seq<nat>>, columns: nat) {
    forall w :: 0 <= w < |m| ==> |m[w]| == columns
  }

  /** Row `row` of the launch: the causal length comes from the live sequence length and query offsets. */
  function RowAt(l: Layout, reqIds: seq<nat>, ids: seq<seq<int>>, seqLens: seq<int>, qsl: seq<int>, row: nat): Row
    requires row < |ids| && row < |reqIds| && reqIds[row] < |seqLens| < |qsl|
  {
    var req := reqIds[row];
    Row(l, |seqLens|, req, ids[row], seqLens[req] - qsl[req + 1] + row + 1)
  }

  /** Distinct live tokens at or before the one that `after` live tokens follow; negative ids are holes. */
  ghost predicate OwnSelection(ids: seq<int>, live: int, after: int) {
    DistinctIds(ids) && forall i :: 0 <= i < |ids| ==> ids[i] < live && ids[i] + after < live
  }

  /** Every id of the selection has its column. */
  ghost predicate KeptWhole(l: Layout, requests: nat, req: nat, ids: seq<int>, out: array2<int>, row: nat)
    requires l.Valid(requests) && req < requests && row < out.Length0
    reads out
  {
    forall c :: 0 <= c < |ids| && ids[c] >= 0 ==> HasColumn(l.Address(requests, req, ids[c]), out, row)
  }

  ghost predicate HasColumn(address: int, out: array2<int>, row: nat)
    requires row < out.Length0
    reads out
  {
    exists k :: 0 <= k < out.Length1 && out[row, k] == address
  }

  /** A row's own token is the one that as many live tokens follow as query rows of its request follow the row. */
  lemma OwnSelectionKept(r: Row, seqLens: seq<int>, out: array2<int>, row: nat, after: int)
    requires r.Valid() && row < out.Length0 && out.Length1 == |r.ids| && Written(out, row, r)
    requires r.requests == |seqLens| && LiveLens(r.l, seqLens) && r.causal + after == seqLens[r.req]
    requires OwnSelection(r.ids, seqLens[r.req], after)
    ensures KeptWhole(r.l, r.requests, r.req, r.ids, out, row)
  {
    hide Row.Chosen, Row.Count, Row.Entry, Layout.Address, LiveLens;
    forall c | 0 <= c < |r.ids| && r.ids[c] >= 0
      ensures HasColumn(r.l.Address(r.requests, r.req, r.ids[c]), out, row)
    {
      var k := EverySelectionKept(r, seqLens, c);
      assert out[row, k] == r.Entry(k);
    }
  }

  /** The last query row of a request sees all of it, and each row one token more than the row before. */
  lemma CausalLengths(l: Layout, reqIds: seq<nat>, ids: seq<seq<int>>, seqLens: seq<int>, qsl: seq<int>, row: nat)
    requires row < |ids| && row < |reqIds| && reqIds[row] < |seqLens| < |qsl|
    ensures row + 1 == qsl[reqIds[row] + 1] ==> RowAt(l, reqIds, ids, seqLens, qsl, row).causal == seqLens[reqIds[row]]
    ensures row + 1 < |ids| && row + 1 < |reqIds| && reqIds[row + 1] == reqIds[row] ==>
      RowAt(l, reqIds, ids, seqLens, qsl, row + 1).causal == RowAt(l, reqIds, ids, seqLens, qsl, row).causal + 1
  {}

  /** `_v12_prepare_ckv_metadata`: refuses a bad geometry, otherwise writes every row. */
  method PrepareMetadata(l: Layout, columns: nat, lensColumns: nat, reqIds: seq<nat>, ids: seq<seq<int>>, width: nat,
      seqLens: seq<int>, qsl: seq<int>, out: array2<int>, counts: array<int>, causal: array<int>) returns (ok: bool)
    requires Matrix(l.starts, columns) && Matrix(l.lens, lensColumns) && counts != causal
    requires forall row :: 0 <= row < |ids| ==> |ids[row]| == width
    requires forall row :: 0 <= row < |reqIds| ==> reqIds[row] < |seqLens|
    modifies out, counts, causal
    ensures ok <==>
                    && |ids| == out.Length0 && width == out.Length1 && 0 < width <= 4096
                    && l.world > 0 && l.interleave > 0
                    && |l.starts| == |l.lens| == l.world && columns == lensColumns
                    && |ids| <= |reqIds| && |ids| <= counts.Length && |ids| <= causal.Length
                    && |seqLens| == columns && |seqLens| + 1 <= |qsl|
    ensures ok ==> forall row :: 0 <= row < |ids| ==>
      var r := RowAt(l, reqIds, ids, seqLens, qsl, row);
      r.Valid() && Written(out, row, r) && counts[row] == r.Count() && causal[row] == r.causal
    ensures ok ==> forall row :: 0 <= row < |ids| ==>
      causal[row] + (qsl[reqIds[row] + 1] - 1 - row) == seqLens[reqIds[row]]
    ensures ok && LiveLens(l, seqLens) ==> forall row :: 0 <= row < |ids| ==>
      OwnSelection(ids[row], seqLens[reqIds[row]], qsl[reqIds[row] + 1] - 1 - row) ==>
        KeptWhole(l, |seqLens|, reqIds[row], ids[row], out, row)
    ensures !ok ==> unchanged(out, counts, causal)
  {
    if |ids| != out.Length0 || width != out.Length1 { return false; }
    if !(0 < width <= 4096) || l.world == 0 || l.interleave == 0 { return false; }
    if |l.starts| != |l.lens| || columns != lensColumns || |l.starts| != l.world { return false; }
    if |reqIds| < |ids| || counts.Length < |ids| || causal.Length < |ids| { return false; }
    if |seqLens| != columns || |qsl| < |seqLens| + 1 { return false; }
    for row := 0 to |ids|
      invariant forall i :: 0 <= i < row ==>
        var r := RowAt(l, reqIds, ids, seqLens, qsl, i);
        r.Valid() && Written(out, i, r) && counts[i] == r.Count() && causal[i] == r.causal
    {
      var r := RowAt(l, reqIds, ids, seqLens, qsl, row);
      MetadataRow(r, row, NextPowerOfTwo(width), out, counts, causal);
    }
    hide LiveLens, OwnSelection, KeptWhole;
    forall row | 0 <= row < |ids| && LiveLens(l, seqLens) &&
      OwnSelection(ids[row], seqLens[reqIds[row]], qsl[reqIds[row] + 1] - 1 - row)
      ensures KeptWhole(l, |seqLens|, reqIds[row], ids[row], out, row)
    {
      var r := RowAt(l, reqIds, ids, seqLens, qsl, row);
      OwnSelectionKept(r, seqLens, out, row, qsl[reqIds[row] + 1] - 1 - row);
    }
    ok := true;
  }

  // ---------- every column has one writer ----------

  /** Lane `lane` stores `v` in column `k`. */
  ghost predicate Stores(r: Row, lane: nat, k: nat, v: int)
    requires r.Valid()
  {
    || (lane == k < |r.ids| && k >= r.Count() && v == -1)
    || (r.Takes(lane) && k == |r.Chosen(lane)| < r.Count() && v == r.l.Address(r.requests, r.req, r.ids[lane]))
  }

  /** The lane that contributes the `k`-th used id. */
  lemma {:induction false} LaneOf(r: Row, n: nat, k: nat) returns (lane: nat)
    requires r.Valid() && k < |r.Chosen(n)|
    ensures lane < n && r.Takes(lane) && |r.Chosen(lane)| == k && r.ids[lane] == r.Chosen(n)[k]
  {
    if k < |r.Chosen(n - 1)| {
      lane := LaneOf(r, n - 1, k);
    } else {
      lane := n - 1;
    }
  }

  /** A used lane moves every later lane one column on. */
  lemma {:induction false} TakesGrows(r: Row, a: nat, b: nat)
    requires r.Valid() && a < b && r.Takes(a)
    ensures |r.Chosen(a)| < |r.Chosen(b)|
  {
    ChosenPrefix(r, a + 1, b);
  }

  /** Two used lanes never share a column. */
  lemma LaneIsUnique(r: Row, a: nat, b: nat)
    requires r.Valid() && r.Takes(a) && r.Takes(b) && |r.Chosen(a)| == |r.Chosen(b)|
    ensures a == b
  {
    hide Row.Chosen, Row.Takes;
    if a < b {
      TakesGrows(r, a, b);
    } else if b < a {
      TakesGrows(r, b, a);
    }
  }

  /**
   * Whatever the order of the stores, every column is written exactly once, with the entry it must hold.
   */
  lemma OneWriter(r: Row, k: nat) returns (lane: nat)
    requires r.Valid() && k < |r.ids|
    ensures Stores(r, lane, k, r.Entry(k))
    ensures forall other: nat, v :: Stores(r, other, k, v) ==> other == lane && v == r.Entry(k)
  {
    hide Row.Takes, Layout.Address;
    if k < r.Count() {
      lane := LaneOf(r, |r.ids|, k);
      forall other: nat, v | Stores(r, other, k, v) ensures other == lane && v == r.Entry(k) {
        LaneIsUnique(r, lane, other);
      }
    } else {
      lane := k;
    }
  }

  // ---------- what the addresses mean ----------

  /** A cached record: which request and token it belongs to. */
  datatype Record = Record(req: nat, token: nat)

  /** Rank `w` stores its `i`-th token of request `q` at starts[w][q] + i of its padded segment. */
  ghost predicate Stored(l: Layout, requests: nat, buffer: int -> Record)
    requires l.Valid(requests)
  {
    forall w, q, i :: 0 <= w < l.world && 0 <= q < requests && 0 <= i < l.lens[w][q] ==>
      buffer(w * l.padded + l.starts[w][q] + i) == Record(q, Global(w, i, l.world, l.interleave))
  }

  /** Requests packed back to back in each rank's segment, which its padded size holds. */
  ghost predicate Packed(l: Layout, requests: nat)
    requires l.Valid(requests)
  {
    forall w, q :: 0 <= w < l.world && 0 <= q < requests ==>
      l.starts[w][q] == |Segment(l, requests, w, q)| && l.starts[w][q] + l.lens[w][q] <= l.padded
  }

  /** What rank `w` packs of the first `q` requests. */
  function Segment(l: Layout, requests: nat, w: nat, q: nat): seq<Record>
    requires l.Valid(requests) && w < l.world && q <= requests
  {
    if q == 0 then [] else Segment(l, requests, w, q - 1) + Tokens(l, w, q - 1, l.lens[w][q - 1])
  }

  /** Rank `w`'s first `n` tokens of request `q`. */
  function Tokens(l: Layout, w: nat, q: nat, n: nat): (r: seq<Record>)
    requires l.world > 0 && l.interleave > 0
    ensures |r| == n && forall i :: 0 <= i < n ==> r[i] == Record(q, Global(w, i, l.world, l.interleave))
  {
    seq(n, i requires 0 <= i < n => Record(q, Global(w, i, l.world, l.interleave)))
  }

  /** The all-gathered buffer: the ranks' segments, each padded to the same size. */
  function GatheredAt(l: Layout, requests: nat, padding: Record, a: int): Record
    requires l.Valid(requests)
  {
    if a < 0 || l.padded == 0 || a / l.padded >= l.world then padding
    else
      var segment := Segment(l, requests, a / l.padded, requests);
      if a % l.padded < |segment| then segment[a % l.padded] else padding
  }

  lemma {:induction false} SegmentAt(l: Layout, requests: nat, w: nat, n: nat, q: nat, i: nat)
    requires l.Valid(requests) && w < l.world && q < n <= requests && i < l.lens[w][q]
    ensures var at := |Segment(l, requests, w, q)| + i;
      at < |Segment(l, requests, w, n)| &&
        Segment(l, requests, w, n)[at] == Record(q, Global(w, i, l.world, l.interleave))
  {
    if q < n - 1 { SegmentAt(l, requests, w, n - 1, q, i); }
  }

  /** The buffer's address of place `o` of rank `w`'s segment. */
  lemma GatheredIsSegment(l: Layout, requests: nat, padding: Record, w: nat, o: nat)
    requires l.Valid(requests) && w < l.world && o < l.padded && o < |Segment(l, requests, w, requests)|
    ensures GatheredAt(l, requests, padding, w * l.padded + o) == Segment(l, requests, w, requests)[o]
  {
    hide Segment;
    DivIs(w * l.padded + o, l.padded, w, o);
  }

  lemma PackedAt(l: Layout, requests: nat, padding: Record, w: nat, q: nat, i: nat)
    requires l.Valid(requests) && Packed(l, requests) && w < l.world && q < requests && i < l.lens[w][q]
    ensures GatheredAt(l, requests, padding, w * l.padded + l.starts[w][q] + i)
            == Record(q, Global(w, i, l.world, l.interleave))
  {
    hide Segment, Global, GatheredAt;
    SegmentAt(l, requests, w, requests, q, i);
    GatheredIsSegment(l, requests, padding, w, l.starts[w][q] + i);
  }

  /** Packing the segments and gathering them stores every token where the addresses expect it. */
  lemma PackingStores(l: Layout, requests: nat, padding: Record)
    requires l.Valid(requests) && Packed(l, requests)
    ensures Stored(l, requests, a => GatheredAt(l, requests, padding, a))
  {
    hide Global, GatheredAt, Packed;
    forall w, q, i | 0 <= w < l.world && 0 <= q < requests && 0 <= i < l.lens[w][q]
      ensures GatheredAt(l, requests, padding, w * l.padded + l.starts[w][q] + i)
              == Record(q, Global(w, i, l.world, l.interleave))
    {
      PackedAt(l, requests, padding, w, q, i);
    }
  }

  /** A used id's address holds that token's record. */
  lemma AddressHoldsToken(l: Layout, requests: nat, req: nat, tok: int, buffer: int -> Record)
    requires l.Valid(requests) && req < requests && l.Picks(requests, req, tok) && Stored(l, requests, buffer)
    ensures buffer(l.Address(requests, req, tok)) == Record(req, tok)
  {
    hide Owner, Local, Global;
    TokenRoundTrip(tok, l.world, l.interleave);
  }

  /** Every entry of the row addresses the record of the used id it stands for, in selection order. */
  lemma EntryHoldsToken(r: Row, k: nat, buffer: int -> Record)
    requires r.Valid() && Stored(r.l, r.requests, buffer) && k < |r.ids|
    ensures r.Entry(k) >= 0 <==> k < r.Count()
    ensures r.Entry(k) >= 0 ==> buffer(r.Entry(k)) == Record(r.req, r.Chosen(|r.ids|)[k])
  {
    if k < r.Count() {
      var lane := LaneOf(r, |r.ids|, k);
      AddressHoldsToken(r.l, r.requests, r.req, r.ids[lane], buffer);
    }
  }

  /** Distinct tokens get distinct slots. */
  lemma SlotsAreDistinct(r: Row, j: nat, k: nat, buffer: int -> Record)
    requires r.Valid() && Stored(r.l, r.requests, buffer) && j < |r.ids| && k < |r.ids|
    requires r.Entry(j) >= 0 && r.Entry(k) >= 0
    ensures r.Entry(j) == r.Entry(k) <==> r.Chosen(|r.ids|)[j] == r.Chosen(|r.ids|)[k]
  {
    hide Stored, Row.Count;
    EntryHoldsToken(r, j, buffer);
    EntryHoldsToken(r, k, buffer);
  }

  // ---------- no selection is lost ----------

  /** The shards reach exactly each request's live tokens. */
  ghost predicate LiveLens(l: Layout, seqLens: seq<int>)
    requires l.Valid(|seqLens|)
  {
    forall w, q :: 0 <= w < l.world && 0 <= q < |seqLens| ==>
      seqLens[q] >= 0 && l.lens[w][q] == LocalCount(seqLens[q], w, l.world, l.interleave)
  }

  /** With live shard lengths an id is used exactly when it is a token of the request. */
  lemma PicksLiveTokens(l: Layout, seqLens: seq<int>, req: nat, tok: int)
    requires l.Valid(|seqLens|) && LiveLens(l, seqLens) && req < |seqLens|
    ensures l.Picks(|seqLens|, req, tok) <==> 0 <= tok < seqLens[req]
  {
    hide Owner, Local, LocalCount;
    assert seqLens[req] >= 0 && |l.lens[0]| == |seqLens|;
    if tok >= 0 {
      assert l.lens[Owner(tok, l.world, l.interleave)][req]
          == LocalCount(seqLens[req], Owner(tok, l.world, l.interleave), l.world, l.interleave);
      BelowCount(tok, seqLens[req], l.world, l.interleave);
    }
  }

  /** Ids are pairwise different, apart from the negative holes. */
  ghost predicate DistinctIds(ids: seq<int>) {
    forall i, j :: 0 <= i < j < |ids| && ids[i] >= 0 ==> ids[i] != ids[j]
  }

  /** Pairwise different numbers below `n` are at most `n` many. */
  lemma {:induction false} Pigeonhole(s: seq<nat>, n: nat)
    requires forall i :: 0 <= i < |s| ==> s[i] < n
    requires forall i, j :: 0 <= i < j < |s| ==> s[i] != s[j]
    ensures |s| <= n
  {
    if |s| > 0 {
      assert s[0] < n;
      if i :| 0 <= i < |s| && s[i] == n - 1 {
        Pigeonhole(s[..i] + s[i + 1..], n - 1);
      } else {
        Pigeonhole(s, n - 1);
      }
    }
  }

  lemma {:induction false} ChosenDistinct(r: Row, n: nat, bound: nat)
    requires r.Valid() && DistinctIds(r.ids) && n <= |r.ids|
    requires forall c :: 0 <= c < |r.ids| ==> r.ids[c] < bound
    ensures forall i :: 0 <= i < |r.Chosen(n)| ==> r.Chosen(n)[i] < bound
    ensures forall i, j :: 0 <= i < j < |r.Chosen(n)| ==> r.Chosen(n)[i] != r.Chosen(n)[j]
  {
    if n > 0 {
      ChosenDistinct(r, n - 1, bound);
      var before := r.Chosen(n - 1);
      forall i | 0 <= i < |before| ensures r.Takes(n - 1) ==> before[i] != r.ids[n - 1] {
        var lane := LaneOf(r, n - 1, i);
      }
    }
  }

  /**
   * A causal selection is kept whole: if the ids are distinct live tokens below the row's causal length,
   * every one of them is addressed by some column.
   */
  lemma EverySelectionKept(r: Row, seqLens: seq<int>, c: nat) returns (k: nat)
    requires r.Valid() && r.requests == |seqLens| && LiveLens(r.l, seqLens) && DistinctIds(r.ids)
    requires forall i :: 0 <= i < |r.ids| ==> r.ids[i] < r.causal && r.ids[i] < seqLens[r.req]
    requires c < |r.ids| && r.ids[c] >= 0
    ensures k < |r.ids| && r.Entry(k) == r.l.Address(r.requests, r.req, r.ids[c])
  {
    PicksLiveTokens(r.l, seqLens, r.req, r.ids[c]);
    k := |r.Chosen(c)|;
    ChosenPrefix(r, c + 1, |r.ids|);
    ChosenDistinct(r, |r.ids|, r.causal);
    Pigeonhole(r.Chosen(|r.ids|), r.causal);
  }
}
