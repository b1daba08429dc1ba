/** Repacking owned rows into a local shard, and attaching such a shard. */
module PackedShard {
  import opened Arith
  import opened Common
  import opened RowFile
  import opened RankRanges

  const MAGIC: nat := 0x31344E4531565344
  const WORD_LIMIT: nat := 0x1_0000_0000_0000_0000

  // ---------- little-endian words ----------

  function Power256(k: nat): (r: nat)
    ensures r > 0
  {
    if k == 0 then 1 else 256 * Power256(k - 1)
  }

  function Little(n: nat, k: nat): (r: seq<byte>)
    ensures |r| == k
  {
    if k == 0 then [] else [(n % 256) as byte] + Little(n / 256, k - 1)
  }

  function Value(s: seq<byte>): nat {
    if s == [] then 0 else s[0] as nat + 256 * Value(s[1..])
  }

  lemma {:induction false} LittleRoundTrip(n: nat, k: nat)
    requires n < Power256(k)
    ensures Value(Little(n, k)) == n
  {
    if k > 0 {
      LittleRoundTrip(n / 256, k - 1);
      assert Little(n, k)[1..] == Little(n / 256, k - 1);
    }
  }

  /** Byte `i` of a number, the least significant one first. */
  function ByteOf(n: nat, i: nat): nat { n / Power256(i) % 256 }

  lemma {:induction false} LittleAt(n: nat, k: nat, i: nat)
    requires i < k
    ensures Little(n, k)[i] as nat == ByteOf(n, i)
  {
    if i == 0 {
      assert Power256(0) == 1;
    } else {
      LittleAt(n / 256, k - 1, i - 1);
      DivTwice(n, Power256(i - 1));
      assert Little(n, k)[i] == Little(n / 256, k - 1)[i - 1];
    }
  }

  lemma DivTwice(n: nat, p: nat)
    requires p > 0
    ensures n / 256 / p == n / (256 * p)
  {
    DivNat(n / 256, p);
    var q, m := n / 256 / p, n / 256 % p;
    assert n / 256 == p * q + m && n == 256 * (n / 256) + n % 256;
    assert 256 * (p * q + m) + n % 256 == (256 * p) * q + (256 * m + n % 256);
    DivIs(n, 256 * p, q, 256 * m + n % 256);
  }

  function Word(header: seq<byte>, at: nat): nat
    requires at + 8 <= |header|
  {
    Value(header[at..at + 8])
  }

  // ---------- the header ----------

  datatype Header = Header(magic: nat, layer: nat, lo: nat, hi: nat, rows: nat, rowBytes: nat) {
    /** struct.pack raises when a field does not fit in 64 bits. */
    predicate Fits() {
      magic < WORD_LIMIT && layer < WORD_LIMIT && lo < WORD_LIMIT
      && hi < WORD_LIMIT && rows < WORD_LIMIT && rowBytes < WORD_LIMIT
    }

    function Encode(): (r: seq<byte>)
      ensures |r| == HEADER
    {
      Little(magic, 8) + Little(layer, 8) + Little(lo, 8) + Little(hi, 8) + Little(rows, 8)
      + Little(rowBytes, 8) + seq(HEADER - 48, _ => 0 as byte)
    }
  }

  function Decode(page: seq<byte>): Header
    requires |page| >= 48
  {
    Header(Word(page, 0), Word(page, 8), Word(page, 16), Word(page, 24), Word(page, 32), Word(page, 40))
  }

  /** Field `f` of a header, in the order of the page. */
  function Field(h: Header, f: nat): nat
    requires f < 6
  {
    match f
    case 0 => h.magic
    case 1 => h.layer
    case 2 => h.lo
    case 3 => h.hi
    case 4 => h.rows
    case 5 => h.rowBytes
  }

  /** Where each byte of the page comes from: six fields of eight bytes, each from its lowest byte up, then zeros. */
  lemma HeaderLayout(h: Header, f: nat, i: nat)
    requires i < 8
    ensures f < 6 ==> h.Encode()[8 * f + i] as nat == ByteOf(Field(h, f), i)
    ensures 6 <= f < HEADER / 8 ==> h.Encode()[8 * f + i] == 0
  {
    if f < 6 { LittleAt(Field(h, f), 8, i); }
  }

  /** A written shard starts with the letters DSV1EN41. */
  lemma MagicLetters(h: Header)
    requires h.magic == MAGIC
    ensures h.Encode()[..8] == [0x44, 0x53, 0x56, 0x31, 0x45, 0x4E, 0x34, 0x31]
  {
    LittleOne(0x31, 0, 0);
    LittleOne(0x34, 0x31, 1);
    LittleOne(0x4E, 0x3134, 2);
    LittleOne(0x45, 0x31344E, 3);
    LittleOne(0x31, 0x31344E45, 4);
    LittleOne(0x56, 0x31344E4531, 5);
    LittleOne(0x53, 0x31344E453156, 6);
    LittleOne(0x44, 0x31344E45315653, 7);
    hide Little;
    assert Little(0, 0) == [];
    assert Little(MAGIC, 8) == [0x44, 0x53, 0x56, 0x31, 0x45, 0x4E, 0x34, 0x31];
  }

  lemma LittleOne(b: byte, n: nat, k: nat)
    ensures Little(256 * n + b as nat, k + 1) == [b] + Little(n, k)
  {
    assert (256 * n + b as nat) / 256 == n;
  }

  /** What a page says: the magic in its first eight bytes, and so on; a word's first byte counts least. */
  lemma PageLayout(page: seq<byte>, f: nat)
    requires |page| >= 48 && f < 6
    ensures Field(Decode(page), f) == WordAt(page, 8 * f)
  {
    WordIs(page, 8 * f);
  }

  function WordAt(page: seq<byte>, at: nat): nat
    requires at + 8 <= |page|
  {
    page[at] as nat + 0x100 * page[at + 1] as nat + 0x1_0000 * page[at + 2] as nat + 0x100_0000 * page[at + 3] as nat
    + 0x1_0000_0000 * page[at + 4] as nat + 0x100_0000_0000 * page[at + 5] as nat
    + 0x1_0000_0000_0000 * page[at + 6] as nat + 0x100_0000_0000_0000 * page[at + 7] as nat
  }

  lemma WordIs(page: seq<byte>, at: nat)
    requires at + 8 <= |page|
    ensures Word(page, at) == WordAt(page, at)
  {
    var w := page[at..at + 8];
    ValueStep(w); ValueStep(w[1..]); ValueStep(w[2..]); ValueStep(w[3..]);
    ValueStep(w[4..]); ValueStep(w[5..]); ValueStep(w[6..]); ValueStep(w[7..]);
    hide Value;
    assert w[1..][1..] == w[2..] && w[2..][1..] == w[3..] && w[3..][1..] == w[4..] && w[4..][1..] == w[5..];
    assert w[5..][1..] == w[6..] && w[6..][1..] == w[7..] && w[7..][1..] == [];
    assert Value([]) == 0 by { ValueStep([]); }
  }

  lemma ValueStep(s: seq<byte>)
    ensures Value(s) == if s == [] then 0 else s[0] as nat + 256 * Value(s[1..])
  {}

  /** The header is decided by the first page alone. */
  lemma DecodePrefix(image: seq<byte>)
    requires |image| >= PAGE
    ensures Decode(image[..PAGE]) == Decode(image)
  {
    SubSlice(image, 0, PAGE, 0, 8); SubSlice(image, 0, PAGE, 8, 16); SubSlice(image, 0, PAGE, 16, 24);
    SubSlice(image, 0, PAGE, 24, 32); SubSlice(image, 0, PAGE, 32, 40); SubSlice(image, 0, PAGE, 40, 48);
  }

  lemma DecodeEncode(h: Header)
    requires h.Fits()
    ensures Decode(h.Encode()) == h
  {
    assert Power256(8) == WORD_LIMIT;
    var e := h.Encode();
    assert e[0..8] == Little(h.magic, 8);
    assert e[8..16] == Little(h.layer, 8);
    assert e[16..24] == Little(h.lo, 8);
    assert e[24..32] == Little(h.hi, 8);
    assert e[32..40] == Little(h.rows, 8);
    assert e[40..48] == Little(h.rowBytes, 8);
    LittleRoundTrip(h.magic, 8); LittleRoundTrip(h.layer, 8); LittleRoundTrip(h.lo, 8);
    LittleRoundTrip(h.hi, 8); LittleRoundTrip(h.rows, 8); LittleRoundTrip(h.rowBytes, 8);
  }

  // ---------- packing ----------

  /** Record `i` of the interleaved block is weight row `i` then scale row `i`. */
  function Interleave(weights: seq<byte>, scales: seq<byte>, n: nat): (r: seq<byte>)
    requires n * WEIGHT_BYTES <= |weights| && n * SCALE_BYTES <= |scales|
    ensures |r| == n * ROW_BYTES
  {
    if n == 0 then []
    else
      Interleave(weights, scales, n - 1)
      + weights[(n - 1) * WEIGHT_BYTES..n * WEIGHT_BYTES] + scales[(n - 1) * SCALE_BYTES..n * SCALE_BYTES]
  }

  lemma {:induction false} InterleaveAt(weights: seq<byte>, scales: seq<byte>, n: nat, i: nat)
    requires n * WEIGHT_BYTES <= |weights| && n * SCALE_BYTES <= |scales| && i < n
    ensures Interleave(weights, scales, n)[i * ROW_BYTES..i * ROW_BYTES + ROW_BYTES]
         == weights[i * WEIGHT_BYTES..(i + 1) * WEIGHT_BYTES] + scales[i * SCALE_BYTES..(i + 1) * SCALE_BYTES]
  {
    var whole := Interleave(weights, scales, n);
    var head := Interleave(weights, scales, n - 1);
    assert whole[..(n - 1) * ROW_BYTES] == head;
    if i < n - 1 {
      InterleaveAt(weights, scales, n - 1, i);
      SubSlice(whole, 0, (n - 1) * ROW_BYTES, i * ROW_BYTES, i * ROW_BYTES + ROW_BYTES);
    }
  }

  /** The record of `id` in a shard that holds rows [lo, ...) after the header. */
  function Record(image: seq<byte>, lo: nat, id: nat): seq<byte>
    requires lo <= id && HEADER + (id - lo) * ROW_BYTES + ROW_BYTES <= |image|
  {
    image[HEADER + (id - lo) * ROW_BYTES..HEADER + (id - lo) * ROW_BYTES + ROW_BYTES]
  }

  /** `image` carries exactly the rows [lo, hi) of the table, one record after the other. */
  ghost predicate Carries(t: Table, image: seq<byte>, lo: nat, hi: nat) {
    && lo <= hi
    && |image| == HEADER + (hi - lo) * ROW_BYTES
    && forall id :: lo <= id < hi ==> t.Has(id) && Record(image, lo, id) == t.Row(id)
  }

  /** `image` holds the rows [lo, hi) of the table where they are read, whatever else it holds. */
  ghost predicate Serves(t: Table, image: seq<byte>, lo: nat, hi: nat) {
    && lo <= hi
    && |image| >= HEADER + (hi - lo) * ROW_BYTES
    && forall id :: lo <= id < hi ==> t.Has(id) && Record(image, lo, id) == t.Row(id)
  }

  /** The table bytes of rows [start, start + n), one slice per tensor. */
  predicate ChunkOf(t: Table, start: nat, n: nat, weights: seq<byte>, scales: seq<byte>) {
    && |weights| == n * WEIGHT_BYTES && |scales| == n * SCALE_BYTES
    && t.woff + (start + n) * WEIGHT_BYTES <= |t.file| && t.soff + (start + n) * SCALE_BYTES <= |t.file|
    && weights == t.file[t.woff + start * WEIGHT_BYTES..t.woff + (start + n) * WEIGHT_BYTES]
    && scales == t.file[t.soff + start * SCALE_BYTES..t.soff + (start + n) * SCALE_BYTES]
  }

  lemma ChunkWeight(t: Table, start: nat, n: nat, weights: seq<byte>, scales: seq<byte>, i: nat)
    requires ChunkOf(t, start, n, weights, scales) && i < n
    ensures weights[i * WEIGHT_BYTES..(i + 1) * WEIGHT_BYTES]
         == t.file[t.woff + (start + i) * WEIGHT_BYTES..t.woff + (start + i) * WEIGHT_BYTES + WEIGHT_BYTES]
  {
    SubSlice(t.file, t.woff + start * WEIGHT_BYTES, t.woff + (start + n) * WEIGHT_BYTES,
             i * WEIGHT_BYTES, (i + 1) * WEIGHT_BYTES);
  }

  lemma ChunkScale(t: Table, start: nat, n: nat, weights: seq<byte>, scales: seq<byte>, i: nat)
    requires ChunkOf(t, start, n, weights, scales) && i < n
    ensures scales[i * SCALE_BYTES..(i + 1) * SCALE_BYTES]
         == t.file[t.soff + (start + i) * SCALE_BYTES..t.soff + (start + i) * SCALE_BYTES + SCALE_BYTES]
  {
    SubSlice(t.file, t.soff + start * SCALE_BYTES, t.soff + (start + n) * SCALE_BYTES,
             i * SCALE_BYTES, (i + 1) * SCALE_BYTES);
  }

  lemma ChunkRow(t: Table, start: nat, n: nat, weights: seq<byte>, scales: seq<byte>, i: nat)
    requires ChunkOf(t, start, n, weights, scales) && i < n
    ensures t.Has(start + i)
    ensures Interleave(weights, scales, n)[i * ROW_BYTES..i * ROW_BYTES + ROW_BYTES] == t.Row(start + i)
  {
    ChunkHas(t, start, n, weights, scales, i);
    ChunkWeight(t, start, n, weights, scales, i);
    ChunkScale(t, start, n, weights, scales, i);
    InterleaveAt(weights, scales, n, i);
    hide Interleave, ChunkOf, Table.Has;
  }

  lemma ChunkHas(t: Table, start: nat, n: nat, weights: seq<byte>, scales: seq<byte>, i: nat)
    requires ChunkOf(t, start, n, weights, scales) && i < n
    ensures t.Has(start + i) && n * WEIGHT_BYTES == |weights| && n * SCALE_BYTES == |scales|
  {}

  lemma OldRecord(image: seq<byte>, block: seq<byte>, lo: nat, id: nat)
    requires lo <= id && HEADER + (id - lo) * ROW_BYTES + ROW_BYTES <= |image|
    ensures Record(image + block, lo, id) == Record(image, lo, id)
  {}

  lemma NewRecord(image: seq<byte>, block: seq<byte>, lo: nat, start: nat, i: nat)
    requires lo <= start && |image| == HEADER + (start - lo) * ROW_BYTES && i * ROW_BYTES + ROW_BYTES <= |block|
    ensures Record(image + block, lo, start + i) == block[i * ROW_BYTES..i * ROW_BYTES + ROW_BYTES]
  {}

  lemma CarriesMore(t: Table, image: seq<byte>, lo: nat, start: nat, n: nat, weights: seq<byte>, scales: seq<byte>)
    requires Carries(t, image, lo, start) && ChunkOf(t, start, n, weights, scales)
    ensures Carries(t, image + Interleave(weights, scales, n), lo, start + n)
  {
    var block := Interleave(weights, scales, n);
    var longer := image + block;
    hide Table.Row, Table.Has, ChunkOf, Interleave, Record;
    forall id | lo <= id < start + n
      ensures t.Has(id) && Record(longer, lo, id) == t.Row(id)
    {
      if id < start {
        OldRecord(image, block, lo, id);
      } else {
        var i := id - start;
        ChunkRow(t, start, n, weights, scales, i);
        NewRecord(image, block, lo, start, i);
      }
    }
  }

  /** An unbuffered read: fewer bytes than asked may come back. */
  method Read(file: seq<byte>, offset: nat, n: nat, count: nat) returns (r: seq<byte>)
    ensures |r| <= n
    ensures |r| == n ==> n == 0 || (offset + n <= |file| && r == file[offset..offset + n])
    ensures offset + n <= |file| && count >= n ==> |r| == n
  {
    var end := Min(offset + Min(n, count), |file|);
    return if end <= offset then [] else file[offset..end];
  }

  /** A target file of the right size is taken for complete. */
  predicate Complete(existing: Option<seq<byte>>, lo: nat, hi: nat) {
    lo <= hi && existing.Some? && |existing.value| == HEADER + (hi - lo) * ROW_BYTES
  }

  // ---------- writes ----------

  /** An unbuffered write: `count` of the bytes reach the file, if there are as many; nobody looks at how many. */
  function Written(image: seq<byte>, data: seq<byte>, count: nat): (r: seq<byte>)
    ensures |image| <= |r| <= |image| + |data|
    ensures |r| == |image| + |data| <==> count >= |data|
    ensures count >= |data| ==> r == image + data
  {
    image + if count < |data| then data[..count] else data
  }

  /** What the first of the writes delivers, and those after it. */
  function First(counts: seq<nat>, size: nat): nat { if counts == [] then size else counts[0] }

  function Rest(counts: seq<nat>): seq<nat> { if counts == [] then [] else counts[1..] }

  /** The writes of rows [start, hi), `step` rows at a time, are all whole. */
  predicate ChunksWhole(start: nat, hi: nat, step: nat, counts: seq<nat>)
    requires step > 0
    decreases if start < hi then hi - start else 0
  {
    start < hi ==>
      var n := Min(start + step, hi) - start;
      First(counts, n * ROW_BYTES) >= n * ROW_BYTES && ChunksWhole(start + n, hi, step, Rest(counts))
  }

  /** So are the header's and the rows'. */
  predicate WritesWhole(lo: nat, hi: nat, step: int, counts: seq<nat>) {
    First(counts, HEADER) >= HEADER && (step > 0 ==> ChunksWhole(lo, hi, step, Rest(counts)))
  }

  /** What a packing loop has written up to row `start`: all of it, or too little. */
  ghost predicate PackedTo(t: Table, header: seq<byte>, image: seq<byte>, lo: nat, start: nat, whole: bool) {
    && lo <= start
    && |image| <= HEADER + (start - lo) * ROW_BYTES
    && (|image| == HEADER + (start - lo) * ROW_BYTES <==> whole)
    && (whole ==> Carries(t, image, lo, start) && image[..HEADER] == header)
  }

  lemma PacksMore(t: Table, header: seq<byte>, image: seq<byte>, lo: nat, start: nat, whole: bool, n: nat,
      weights: seq<byte>, scales: seq<byte>, count: nat)
    requires PackedTo(t, header, image, lo, start, whole) && ChunkOf(t, start, n, weights, scales)
    ensures PackedTo(t, header, Written(image, Interleave(weights, scales, n), count), lo, start + n,
                     whole && count >= n * ROW_BYTES)
  {
    if whole { CarriesMore(t, image, lo, start, n, weights, scales); }
    hide Interleave, Carries, ChunkOf;
    assert (start + n - lo) * ROW_BYTES == (start - lo) * ROW_BYTES + n * ROW_BYTES;
  }

  /**
   * Writes the shard of `rank`, `chunkRows` rows at a time, unless a file of the right size exists, which is
   * kept unread. None is an exception. `counts` is what the writes deliver: the file never gets longer than
   * the shard, and it is the shard exactly if it gets as long, that is, if every write was whole. `arrived` is what
   * the reads deliver; if they are whole, nothing but a field too large or a zero step raises.
   */
  method PackLayer(t: Table, layer: nat, rank: nat, tp: nat, chunkRows: int, existing: Option<seq<byte>>,
      arrived: seq<nat>, counts: seq<nat>) returns (r: Option<seq<byte>>)
    requires rank < tp
    ensures var lo, hi := Start(t.rows, rank, tp), Start(t.rows, rank + 1, tp);
      t.Valid() && arrived == [] && chunkRows != 0 && Header(MAGIC, layer, lo, hi, t.rows, ROW_BYTES).Fits() ==> r.Some?
    ensures var lo, hi := Start(t.rows, rank, tp), Start(t.rows, rank + 1, tp);
      lo <= hi && (Complete(existing, lo, hi) ==> r == existing)
    ensures var lo, hi := Start(t.rows, rank, tp), Start(t.rows, rank + 1, tp);
      r.Some? && !Complete(existing, lo, hi) ==>
        var header := Header(MAGIC, layer, lo, hi, t.rows, ROW_BYTES);
        && chunkRows != 0 && header.Fits()
        && PackedTo(t, header.Encode(), r.value, lo, if chunkRows > 0 then hi else lo,
                    WritesWhole(lo, hi, chunkRows, counts))
  {
    var lo, hi := Start(t.rows, rank, tp), Start(t.rows, rank + 1, tp);
    RangeInside(t.rows, rank, tp);
    if Complete(existing, lo, hi) { return existing; }
    hide Start, Header.Encode, PackedTo, Written, ChunksWhole;
    var header := Header(MAGIC, layer, lo, hi, t.rows, ROW_BYTES);
    if !header.Fits() || chunkRows == 0 { return None; }
    var image := Written([], header.Encode(), First(counts, HEADER));
    HeaderPacked(t, header, lo, First(counts, HEADER));
    if chunkRows < 0 { return Some(image); }
    var whole := First(counts, HEADER) >= HEADER;
    r := PackChunks(t, header.Encode(), image, lo, hi, chunkRows, arrived, Rest(counts), whole);
  }

  /** The rows, behind the header. */
  method PackChunks(t: Table, header: seq<byte>, head: seq<byte>, lo: nat, hi: nat, step: nat, arrived: seq<nat>,
      counts: seq<nat>, ghost whole: bool) returns (r: Option<seq<byte>>)
    requires lo <= hi && step > 0 && PackedTo(t, header, head, lo, lo, whole)
    ensures r.Some? ==> PackedTo(t, header, r.value, lo, hi, whole && ChunksWhole(lo, hi, step, counts))
    ensures t.Valid() && hi <= t.rows && arrived == [] ==> r.Some?
  {
    hide Interleave, Carries, PackedTo, Written;
    var image, left, rest, start := head, arrived, counts, lo;
    ghost var good := whole;
    while start < hi
      invariant lo <= start <= hi
      invariant PackedTo(t, header, image, lo, start, good)
      invariant arrived == [] ==> left == []
      invariant (whole && ChunksWhole(lo, hi, step, counts)) == (good && ChunksWhole(start, hi, step, rest))
    {
      var n := Min(start + step, hi) - start;
      var size := First(left, n * WEIGHT_BYTES);
      var weights := Read(t.file, t.woff + start * WEIGHT_BYTES, n * WEIGHT_BYTES, size);
      left := Rest(left);
      size := First(left, n * SCALE_BYTES);
      var scales := Read(t.file, t.soff + start * SCALE_BYTES, n * SCALE_BYTES, size);
      left := Rest(left);
      if |weights| != n * WEIGHT_BYTES || |scales| != n * SCALE_BYTES { return None; }
      var count := First(rest, n * ROW_BYTES);
      PacksMore(t, header, image, lo, start, good, n, weights, scales, count);
      image := Written(image, Interleave(weights, scales, n), count);
      good := good && count >= n * ROW_BYTES;
      rest := Rest(rest);
      start := start + n;
    }
    return Some(image);
  }

  lemma HeaderPacked(t: Table, header: Header, lo: nat, count: nat)
    ensures PackedTo(t, header.Encode(), Written([], header.Encode(), count), lo, lo, count >= HEADER)
  {
    var e := header.Encode();
    assert [] + e == e && e[..HEADER] == e;
  }

  /** The size tells: of what a run wrote, exactly the files that pass the size test hold the shard. */
  lemma SizeTells(t: Table, header: seq<byte>, image: seq<byte>, lo: nat, hi: nat, whole: bool)
    requires PackedTo(t, header, image, lo, hi, whole)
    ensures Carries(t, image, lo, hi) <==> Complete(Some(image), lo, hi)
    ensures |image| >= HEADER + (hi - lo) * ROW_BYTES ==> Carries(t, image, lo, hi) && image[..HEADER] == header
  {}

  /** The most bytes one write moves on Linux. */
  const WRITE_MAX: nat := 2147479552

  /** Writes cut at that limit and nowhere else are whole exactly if a chunk fits in one. */
  lemma {:induction false} CappedChunks(start: nat, hi: nat, step: nat, counts: seq<nat>)
    requires step > 0 && start < hi && |counts| >= hi - start
    requires forall i :: 0 <= i < |counts| ==> counts[i] == WRITE_MAX
    ensures ChunksWhole(start, hi, step, counts) <==> Min(step, hi - start) * ROW_BYTES <= WRITE_MAX
    decreases hi - start
  {
    var n := Min(start + step, hi) - start;
    if start + n < hi { CappedChunks(start + n, hi, step, counts[1..]); }
  }

  /** The failing input: chunks of 8200000 rows, which two reads deliver whole and one write does not. */
  lemma LongChunkIsCut(lo: nat, hi: nat, counts: seq<nat>)
    requires hi - lo >= 8200000 && |counts| > hi - lo
    requires forall i :: 0 <= i < |counts| ==> counts[i] == WRITE_MAX
    ensures !WritesWhole(lo, hi, 8200000, counts)
    ensures 8200000 * WEIGHT_BYTES <= WRITE_MAX && 8200000 * SCALE_BYTES <= WRITE_MAX
  {
    CappedChunks(lo, hi, 8200000, counts[1..]);
  }

  /** With them the packing step returns, without an exception, a file that is too short. */
  method LongChunkLosesRows(t: Table, layer: nat, rank: nat, tp: nat, arrived: seq<nat>, counts: seq<nat>)
    returns (r: Option<seq<byte>>)
    requires rank < tp && Start(t.rows, rank + 1, tp) - Start(t.rows, rank, tp) >= 8200000
    requires |counts| > Start(t.rows, rank + 1, tp) - Start(t.rows, rank, tp)
    requires forall i :: 0 <= i < |counts| ==> counts[i] == WRITE_MAX
    ensures r.Some? ==>
      |r.value| < HEADER + (Start(t.rows, rank + 1, tp) - Start(t.rows, rank, tp)) * ROW_BYTES
    ensures t.Valid() && arrived == [] && t.rows < WORD_LIMIT && layer < WORD_LIMIT ==> r.Some?
  {
    hide Start, ChunksWhole;
    RangeInside(t.rows, rank, tp);
    LongChunkIsCut(Start(t.rows, rank, tp), Start(t.rows, rank + 1, tp), counts);
    r := PackLayer(t, layer, rank, tp, 8200000, None, arrived, counts);
  }

  // ---------- attaching ----------

  datatype Attach = Absent | Attached | Rejected

  /** Accepts exactly a shard whose header arrives and names this rank's rows, and whose rows are all there. */
  method AttachPacked(image: Option<seq<byte>>, lo: nat, hi: nat, rows: nat, layer: nat, count: int)
    returns (r: Attach)
    requires lo <= hi
    ensures r == Absent <==> image.None?
    ensures r == Attached <==>
      && image.Some? && count >= PAGE && |image.value| >= HEADER + (hi - lo) * ROW_BYTES
      && Decode(image.value) == Header(MAGIC, layer, lo, hi, rows, ROW_BYTES)
  {
    if image.None? { return Absent; }
    var page := new byte[PAGE];
    var got := Pread(image.value, page, PAGE, 0, count);
    if got < PAGE { return Rejected; }
    assert page[..] == image.value[..PAGE];
    DecodePrefix(image.value);
    if Decode(page[..]) != Header(MAGIC, layer, lo, hi, rows, ROW_BYTES) { return Rejected; }
    if |image.value| < HEADER + (hi - lo) * ROW_BYTES { return Rejected; }
    return Attached;
  }

  /** A shard written for one (layer, rank range, table) is attached for exactly that one. */
  lemma AttachMatchesPack(t: Table, image: seq<byte>, packed: Header, asked: Header)
    requires packed.Fits() && packed.lo <= packed.hi
    requires Carries(t, image, packed.lo, packed.hi) && image[..HEADER] == packed.Encode()
    ensures Decode(image) == asked <==> asked == packed
  {
    DecodePrefix(image);
    DecodeEncode(packed);
  }

  /** The rows [lo, hi) of both tables are there and the same. */
  ghost predicate SameRows(a: Table, b: Table, lo: nat, hi: nat) {
    forall id :: lo <= id < hi ==> a.Has(id) && b.Has(id) && a.Row(id) == b.Row(id)
  }

  /** A shard written from `source` that passes a store's header test serves its table exactly if the tables agree. */
  lemma WrittenShardServes(source: Table, image: seq<byte>, packed: Header, t: Table, layer: nat, lo: nat, hi: nat)
    requires packed.Fits() && Carries(source, image, packed.lo, packed.hi) && image[..HEADER] == packed.Encode()
    requires Decode(image) == Header(MAGIC, layer, lo, hi, t.rows, ROW_BYTES)
    ensures Serves(t, image, lo, hi) <==> SameRows(source, t, lo, hi)
  {
    AttachMatchesPack(source, image, packed, Header(MAGIC, layer, lo, hi, t.rows, ROW_BYTES));
    hide Table.Row, Record, Header.Encode, Decode;
    if Serves(t, image, lo, hi) {
      forall id | lo <= id < hi ensures source.Has(id) && t.Has(id) && source.Row(id) == t.Row(id) {
        assert Record(image, lo, id) == source.Row(id);
      }
    } else if SameRows(source, t, lo, hi) {
      forall id | lo <= id < hi ensures t.Has(id) && Record(image, lo, id) == t.Row(id) {}
    }
  }
}
