/** The disk-resident Engram table: building the row file and gathering rows from it. */
module DiskTable {
  import opened Arith
  import opened Bits
  import opened Common
  import ReadPool
  import ReadPoolSafety
  import ReadPoolTheorems

  type Bytes = seq<byte>

  const REFERENCE_BLOCK: nat := 32

  /** Decoding kept abstract: fp8 value, block scale, their rounded product, and zero. */
  datatype Codec<!V> = Codec(value: byte -> V, scale: byte -> V, product: (V, V) -> V, zero: V)

  /** Bytes per interleaved row. */
  function RowStride(dim: nat, block: nat): (r: nat)
    requires block > 0 && dim % block == 0
    ensures r >= dim
  {
    DivNat(dim, block);
    dim + dim / block
  }

  /** A checkpoint shard: one weight row of `dim` bytes and one scale row of `dim / block` bytes per index. */
  datatype Tensors = Tensors(weight: seq<Bytes>, scale: seq<Bytes>, dim: nat, block: nat) {
    predicate Valid() {
      && block > 0 && dim % block == 0 && dim > 0
      && |weight| == |scale|
      && (forall i :: 0 <= i < |weight| ==> |weight[i]| == dim)
      && (forall i :: 0 <= i < |scale| ==> |scale[i]| == dim / block)
    }

    function Record(i: nat): (r: Bytes)
      requires Valid() && i < |weight|
      ensures |r| == RowStride(dim, block)
    {
      weight[i] + scale[i]
    }

    /** The records of rows [lo, hi), one after the other. */
    function Records(lo: nat, hi: nat): (r: Bytes)
      requires Valid() && lo <= hi <= |weight|
      ensures |r| == (hi - lo) * RowStride(dim, block)
      decreases hi
    {
      if lo == hi then []
      else
        assert (hi - lo) * RowStride(dim, block) == (hi - 1 - lo) * RowStride(dim, block) + RowStride(dim, block);
        Records(lo, hi - 1) + Record(hi - 1)
    }
  }

  lemma {:induction false} RecordsConcat(t: Tensors, lo: nat, mid: nat, hi: nat)
    requires t.Valid() && lo <= mid <= hi <= |t.weight|
    ensures t.Records(lo, hi) == t.Records(lo, mid) + t.Records(mid, hi)
    decreases hi
  {
    if mid < hi {
      RecordsConcat(t, lo, mid, hi - 1);
    }
  }

  /** Writes the file `chunkRows` rows at a time; a negative step writes none. None is the error for a zero step. */
  method BuildRowFile(t: Tensors, chunkRows: int) returns (r: Option<Bytes>)
    requires t.Valid()
    ensures r.None? <==> chunkRows == 0
    ensures r.Some? ==> r.value == if chunkRows > 0 then t.Records(0, |t.weight|) else []
  {
    if chunkRows == 0 { return None; }
    var file := [];
    var lo := 0;
    while chunkRows > 0 && lo < |t.weight|
      invariant lo <= |t.weight| && (chunkRows < 0 ==> lo == 0)
      invariant file == t.Records(0, lo)
      decreases |t.weight| - lo
    {
      var hi := ReadPool.Least(lo + chunkRows, |t.weight|);
      RecordsConcat(t, 0, lo, hi);
      file := file + t.Records(lo, hi);
      lo := hi;
    }
    return Some(file);
  }

  /** Record `i` sits at offset i * stride of the file. */
  lemma RecordAt(t: Tensors, i: nat)
    requires t.Valid() && i < |t.weight|
    ensures i * RowStride(t.dim, t.block) + RowStride(t.dim, t.block) <= |t.Records(0, |t.weight|)|
    ensures var at := i * RowStride(t.dim, t.block);
      t.Records(0, |t.weight|)[at..at + RowStride(t.dim, t.block)] == t.Record(i)
  {
    OneRecord(t, i);
    hide *;
    RecordsConcat(t, 0, i, |t.weight|);
    RecordsConcat(t, i, i + 1, |t.weight|);
    Between(t.Records(0, i), t.Record(i), t.Records(i + 1, |t.weight|));
    RecordsLength(t, i);
  }

  lemma OneRecord(t: Tensors, i: nat)
    requires t.Valid() && i < |t.weight|
    ensures t.Records(i, i + 1) == t.Record(i)
  {
    assert t.Records(i, i) == [];
  }

  lemma RecordsLength(t: Tensors, i: nat)
    requires t.Valid() && i < |t.weight|
    ensures |t.Records(0, i)| == i * RowStride(t.dim, t.block) && |t.Record(i)| == RowStride(t.dim, t.block)
  {}

  lemma Between(head: Bytes, mid: Bytes, tail: Bytes)
    ensures |head + (mid + tail)| >= |head| + |mid|
    ensures (head + (mid + tail))[|head|..|head| + |mid|] == mid
  {}

  // ---------- aligned reads ----------

  /** Bytes of every row read: the blocks a row may span, plus one for its start. */
  function Span(stride: nat, align: nat): (r: nat)
    requires align > 0
  {
    DivNat(stride + align - 1, align);
    ((stride + align - 1) / align + 1) * align
  }

  /** Wherever a row starts inside its first block, the span covers it. */
  lemma SpanCovers(stride: nat, align: nat, off: nat)
    requires align > 0
    ensures off % align + stride <= Span(stride, align) < stride + 2 * align && Span(stride, align) % align == 0
  {
    var blocks := (stride + align - 1) / align;
    assert align * blocks + (stride + align - 1) % align == stride + align - 1;
    assert (blocks + 1) * align == align * blocks + align;
    DivNat(stride + align - 1, align);
    DivIs((blocks + 1) * align, align, blocks + 1, 0);
  }

  /** preadv at `start` that delivers `count` bytes; the rest of the buffer keeps what it held. */
  function Loaded(file: Bytes, buffer: Bytes, start: nat, count: nat): (r: Bytes)
    requires count <= |buffer| && start + count <= |file|
    ensures |r| == |buffer|
  {
    Splice(buffer, 0, file[start..start + count])
  }

  lemma LoadedAt(file: Bytes, buffer: Bytes, start: nat, count: nat, i: nat)
    requires count <= |buffer| && start + count <= |file| && i < |buffer|
    ensures Loaded(file, buffer, start, count)[i] == if i < count then file[start + i] else buffer[i]
  {}

  lemma ReceivedAt(r: ReadPool.RowRead, count: nat, prior: Bytes, i: nat)
    requires |prior| == |r.want| && i < |prior|
    ensures r.Received(count, prior)[i] == if r.lead + i < count then r.want[i] else prior[i]
  {}

  /** What an aligned read leaves in the row's place: the row as far as the read went, old content after. */
  lemma AlignedRead(file: Bytes, buffer: Bytes, stride: nat, align: nat, off: nat, count: nat)
    requires align > 0 && off + stride <= |file| && |buffer| >= Span(stride, align)
    requires count <= |buffer| && off - off % align + count <= |file|
    ensures var lo := off % align;
      && lo <= off && lo + stride <= |buffer|
      && Loaded(file, buffer, off - lo, count)[lo..lo + stride]
         == ReadPool.RowRead(file[off..off + stride], lo).Received(count, buffer[lo..lo + stride])
  {
    SpanCovers(stride, align, off);
    ModAtMost(off, align);
    LoadedRow(file, buffer, stride, off % align, off, count);
  }

  lemma LoadedRow(file: Bytes, buffer: Bytes, stride: nat, lo: nat, off: nat, count: nat)
    requires lo <= off && off + stride <= |file| && lo + stride <= |buffer| && count <= |buffer| &&
      off - lo + count <= |file|
    ensures Loaded(file, buffer, off - lo, count)[lo..lo + stride]
         == ReadPool.RowRead(file[off..off + stride], lo).Received(count, buffer[lo..lo + stride])
  {
    hide Loaded;
    var r := ReadPool.RowRead(file[off..off + stride], lo);
    var got, wanted := Loaded(file, buffer, off - lo, count)[lo..lo + stride],
      r.Received(count, buffer[lo..lo + stride]);
    hide ReadPool.RowRead.Received;
    forall i | 0 <= i < stride ensures got[i] == wanted[i] {
      assert got[i] == Loaded(file, buffer, off - lo, count)[lo + i];
      LoadedAt(file, buffer, off - lo, count, lo + i);
      ReceivedAt(r, count, buffer[lo..lo + stride], i);
    }
  }

  /** The aligned read leaves the row in its place. */
  ghost predicate ReadsRight(file: Bytes, buffer: Bytes, stride: nat, align: nat, off: nat, count: nat)
    requires align > 0 && off + stride <= |file| && |buffer| >= Span(stride, align)
    requires count <= |buffer| && off - off % align + count <= |file|
  {
    SpanCovers(stride, align, off);
    ModAtMost(off, align);
    Loaded(file, buffer, off - off % align, count)[off % align..off % align + stride] == file[off..off + stride]
  }

  lemma WholeReadsRight(file: Bytes, buffer: Bytes, stride: nat, align: nat, off: nat, count: nat)
    requires align > 0 && stride > 0 && off + stride <= |file| && |buffer| >= Span(stride, align)
    requires off % align + stride <= count <= |buffer| && off - off % align + count <= |file|
    ensures ReadsRight(file, buffer, stride, align, off, count)
  {
    hide Span, Loaded;
    var r := ReadPool.RowRead(file[off..off + stride], off % align);
    ReadPool.WholeExactly(r, count);
    AlignedRead(file, buffer, stride, align, off, count);
  }

  /** If the read falls short, some old content shows through. */
  lemma ShortReadsWrong(file: Bytes, n: nat, stride: nat, align: nat, off: nat, count: nat) returns (buffer: Bytes)
    requires align > 0 && stride > 0 && off + stride <= |file| && n >= Span(stride, align)
    requires count <= n && off - off % align + count <= |file| && count < off % align + stride
    ensures |buffer| == n && !ReadsRight(file, buffer, stride, align, off, count)
  {
    hide Loaded;
    var lo := off % align;
    SpanCovers(stride, align, off);
    var r := ReadPool.RowRead(file[off..off + stride], lo);
    ReadPool.WholeExactly(r, count);
    var prior: Bytes :| |prior| == |r.want| && r.Received(count, prior) != r.want;
    buffer := Splice(seq(n, _ => 0 as byte), lo, prior);
    AlignedRead(file, buffer, stride, align, off, count);
  }

  /** The row is right whatever the scratch buffer held if and only if the read reached the row's end. */
  lemma AlignedReadExactly(file: Bytes, n: nat, stride: nat, align: nat, off: nat, count: nat)
    requires align > 0 && stride > 0 && off + stride <= |file| && n >= Span(stride, align)
    requires count <= n && off - off % align + count <= |file|
    ensures (forall buffer: Bytes | |buffer| == n :: ReadsRight(file, buffer, stride, align, off, count))
            <==> count >= off % align + stride
  {
    hide Span, ReadsRight;
    if count >= off % align + stride {
      forall buffer: Bytes | |buffer| == n ensures ReadsRight(file, buffer, stride, align, off, count) {
        WholeReadsRight(file, buffer, stride, align, off, count);
      }
    } else {
      var buffer := ShortReadsWrong(file, n, stride, align, off, count);
    }
  }

  /** A read that delivers all it was asked for, up to the end of the file, reaches the row's end. */
  lemma FullReadIsWhole(size: nat, n: nat, stride: nat, align: nat, off: nat)
    requires align > 0 && off + stride <= size && n >= Span(stride, align)
    ensures off % align <= off && ReadPool.Least(n, size - (off - off % align)) >= off % align + stride
  {
    SpanCovers(stride, align, off);
    ModAtMost(off, align);
  }

  lemma ModAtMost(a: nat, d: nat)
    requires d > 0
    ensures a % d <= a
  {
    DivNat(a, d);
    assert a == d * (a / d) + a % d;
  }

  // ---------- rows inside the result buffer ----------

  /** Row `k` of a buffer of `stride`-byte rows. */
  function RowOf(buffer: Bytes, stride: nat, k: nat): (r: Bytes)
    requires k * stride + stride <= |buffer|
    ensures |r| == stride
  {
    buffer[k * stride..k * stride + stride]
  }

  lemma RowFits(stride: nat, k: nat, n: nat)
    requires k < n
    ensures k * stride + stride <= n * stride
  {
    assert (k + 1) * stride == k * stride + stride;
    ReadPoolSafety.MulMonotone(k + 1, n, stride);
  }

  lemma SpliceRow(buffer: Bytes, stride: nat, n: nat, k: nat, row: Bytes, j: nat)
    requires |buffer| == n * stride && k < n && j < n && |row| == stride
    ensures k * stride + stride <= |buffer| && j * stride + stride <= |buffer|
    ensures RowOf(Splice(buffer, k * stride, row), stride, j) == if j == k then row else RowOf(buffer, stride, j)
  {
    RowFits(stride, k, n);
    RowFits(stride, j, n);
    if j < k {
      RowFits(stride, j, k);
    } else if k < j {
      RowFits(stride, k, j);
    }
    if j != k {
      SliceEqual(Splice(buffer, k * stride, row), buffer, j * stride, j * stride + stride);
    }
  }

  method StoreRow(dst: array<byte>, stride: nat, n: nat, k: nat, row: Bytes)
    requires dst.Length == n * stride && k < n && |row| == stride
    requires k * stride + stride <= dst.Length
    modifies dst
    ensures dst[..] == Splice(old(dst[..]), k * stride, row)
  {
    CopyInto(dst, k * stride, row);
  }

  /** The rows of a result buffer. */
  function RowsOf(buffer: Bytes, stride: nat, n: nat): (r: seq<Bytes>)
    requires |buffer| == n * stride
    ensures |r| == n
    ensures forall k :: 0 <= k < n ==> |r[k]| == stride
  {
    seq(n, k requires 0 <= k < n => RowFits(stride, k, n); RowOf(buffer, stride, k))
  }

  lemma SpliceRows(buffer: Bytes, stride: nat, n: nat, k: nat, row: Bytes)
    requires |buffer| == n * stride && k < n && |row| == stride
    ensures k * stride + stride <= |buffer|
    ensures RowsOf(Splice(buffer, k * stride, row), stride, n) == RowsOf(buffer, stride, n)[k := row]
  {
    RowFits(stride, k, n);
    forall j | 0 <= j < n
      ensures RowsOf(Splice(buffer, k * stride, row), stride, n)[j] == RowsOf(buffer, stride, n)[k := row][j]
    {
      SpliceRow(buffer, stride, n, k, row, j);
    }
  }

  // ---------- gathering ----------

  /** One rank's open row file. */
  datatype Shard = Shard(file: Bytes, dim: nat, block: nat, rowStart: nat, rowCount: nat, bits: nat, direct: bool) {
    predicate Valid() {
      && block > 0 && dim > 0 && dim % block == 0
      && rowCount * RowStride(dim, block) <= |file|
    }

    function Stride(): (r: nat)
      requires Valid()
      ensures r >= dim
    {
      RowStride(dim, block)
    }

    predicate Owned(index: int) { 0 <= index - rowStart < rowCount }

    function Offset(index: int): (off: nat)
      requires Valid() && Owned(index)
      ensures off + Stride() <= |file|
    {
      RowFits(Stride(), index - rowStart, rowCount);
      (index - rowStart) * Stride()
    }

    /** The logical block size, a power of two. */
    function Align(): (a: nat)
      ensures a > 0
    {
      Pow2(bits)
    }

    /** Bytes of the block before the row; 0 when rows are read straight into place. */
    function Cut(index: int): nat
      requires Valid() && Owned(index)
    {
      if direct then And(Offset(index), Align() - 1) else 0
    }

    /** Where the read starts; -1 for a row this rank does not own. */
    function ReadStart(index: int): int
      requires Valid()
    {
      if Owned(index) then Offset(index) - Cut(index) else -1
    }

    /** The row a gather wants at this index. */
    function Wanted(index: int): Option<ReadPool.RowRead>
      requires Valid()
    {
      if Owned(index) then Some(ReadPool.RowRead(file[Offset(index)..Offset(index) + Stride()], Cut(index))) else None
    }
  }

  /** Opens a row file; the row count is the one asked for, cut at what the file holds. */
  function Open(file: Bytes, dim: nat, block: nat, rowStart: nat, rowCount: Option<nat>, bits: nat,
      direct: bool): (s: Shard)
    requires block > 0 && dim > 0 && dim % block == 0
    ensures s.Valid()
    ensures rowCount.Some? ==> s.rowCount <= rowCount.value
    ensures s.rowCount == rowCount.GetOr(s.rowCount) || (s.rowCount + 1) * s.Stride() > |file|
    ensures rowCount.None? ==> (s.rowCount + 1) * s.Stride() > |file|
  {
    var total := |file| / RowStride(dim, block);
    DivNat(|file|, RowStride(dim, block));
    NotMore(|file|, RowStride(dim, block));
    var n := if rowCount.Some? then ReadPool.Least(rowCount.value, total) else total;
    ReadPoolSafety.MulMonotone(n, total, RowStride(dim, block));
    Shard(file, dim, block, rowStart, n, if direct then bits else 0, direct)
  }

  lemma NotMore(a: nat, d: nat)
    requires d > 0
    ensures a / d >= 0 && a / d * d <= a < (a / d + 1) * d
  {
    DivNat(a, d);
    assert a == d * (a / d) + a % d;
  }

  function WantedRows(s: Shard, indices: seq<int>): (r: seq<Option<ReadPool.RowRead>>)
    requires s.Valid()
    ensures |r| == |indices|
    ensures forall k :: 0 <= k < |r| ==>
      r[k] == s.Wanted(indices[k]) && (r[k].Some? ==> |r[k].value.want| == s.Stride())
  {
    seq(|indices|, k requires 0 <= k < |indices| => s.Wanted(indices[k]))
  }

  /** Bytes that arrive when the system would deliver `count`, at most `n` are asked for and the file ends. */
  function Delivered(count: nat, n: nat, start: nat, size: nat): nat
    requires start <= size
  {
    ReadPool.Least(count, ReadPool.Least(n, size - start))
  }

  /** A direct read starts at a block, at most a block before the row; a buffered one at the row. */
  lemma ReadsAreAligned(s: Shard, index: int)
    requires s.Valid() && s.Owned(index)
    ensures s.direct ==> s.ReadStart(index) % s.Align() == 0 && 0 <= s.Offset(index) - s.ReadStart(index) < s.Align()
    ensures !s.direct ==> s.ReadStart(index) == s.Offset(index)
  {
    AndMask(s.Offset(index), s.bits);
    BlockStart(s.Offset(index), s.Align());
    hide And, Pow2, RowStride;
  }

  lemma BlockStart(off: nat, a: nat)
    requires a > 0
    ensures (off - off % a) % a == 0 && 0 <= off % a < a
  {
    DivNat(off, a);
    assert off == a * (off / a) + off % a;
    DivIs(a * (off / a), a, off / a, 0);
  }

  /** preadv: `count` of the bytes asked for arrive, if there are as many; nobody looks at how many. */
  method ReadBlock(file: Bytes, buffer: array<byte>, at: nat, n: nat, start: nat, count: nat)
    requires start <= |file| && at + n <= buffer.Length
    modifies buffer
    ensures buffer[..] == Splice(old(buffer[..]), at, file[start..start + Delivered(count, n, start, |file|)])
  {
    CopyInto(buffer, at, file[start..start + Delivered(count, n, start, |file|)]);
  }

  /** Bytes past the row make no difference to it. */
  lemma ReceivedClipped(r: ReadPool.RowRead, count: nat, most: nat, prior: Bytes)
    requires |prior| == |r.want| && most >= r.lead + |r.want|
    ensures r.Received(ReadPool.Least(count, most), prior) == r.Received(count, prior)
  {}

  /** What was in the row's place before: the scratch buffer's bytes, or the result's own. */
  ghost function Prior(s: Shard, index: int, dst: Bytes, n: nat, k: nat, buffer: Bytes): (r: Bytes)
    requires s.Valid() && s.Owned(index) && k < n && |dst| == n * s.Stride() && |buffer| >= Span(s.Stride(), s.Align())
    ensures |r| == s.Stride()
  {
    if s.direct then
      AndMask(s.Offset(index), s.bits);
      SpanCovers(s.Stride(), s.Align(), s.Offset(index));
      buffer[s.Cut(index)..s.Cut(index) + s.Stride()]
    else
      RowsOf(dst, s.Stride(), n)[k]
  }

  lemma DirectRow(s: Shard, index: int, before: Bytes, count: nat)
    requires s.Valid() && s.Owned(index) && s.direct && |before| >= Span(s.Stride(), s.Align())
    ensures 0 <= s.ReadStart(index) <= |s.file| && s.Cut(index) + s.Stride() <= |before|
    ensures var start := s.ReadStart(index);
      var got := s.file[start..start + Delivered(count, |before|, start, |s.file|)];
      Splice(before, 0, got)[s.Cut(index)..s.Cut(index) + s.Stride()]
      == s.Wanted(index).value.Received(count, before[s.Cut(index)..s.Cut(index) + s.Stride()])
  {
    hide Span, And, RowStride, Pow2, ReadPool.RowRead.Received, Splice;
    var off := s.Offset(index);
    AndMask(off, s.bits);
    ModAtMost(off, s.Align());
    SpanCovers(s.Stride(), s.Align(), off);
    var most := ReadPool.Least(|before|, |s.file| - s.ReadStart(index));
    AlignedRead(s.file, before, s.Stride(), s.Align(), off, ReadPool.Least(count, most));
    ReceivedClipped(s.Wanted(index).value, count, most, before[s.Cut(index)..s.Cut(index) + s.Stride()]);
  }

  /** A row read through the scratch buffer. */
  method ReadDirect(s: Shard, index: int, buffer: array<byte>, count: nat) returns (row: Bytes)
    requires s.Valid() && s.Owned(index) && s.direct && buffer.Length >= Span(s.Stride(), s.Align())
    modifies buffer
    ensures s.Cut(index) + s.Stride() <= buffer.Length
    ensures row == s.Wanted(index).value.Received(count, old(buffer[..])[s.Cut(index)..s.Cut(index) + s.Stride()])
  {
    hide Span, RowStride, Shard.Cut, Shard.Wanted, Splice, Delivered;
    DirectRow(s, index, buffer[..], count);
    ReadBlock(s.file, buffer, 0, buffer.Length, s.ReadStart(index), count);
    row := buffer[s.Cut(index)..s.Cut(index) + s.Stride()];
    assert row == buffer[..][s.Cut(index)..s.Cut(index) + s.Stride()];
  }

  /** A buffered read lands in the row's own place. */
  lemma PlacedRead(file: Bytes, dst: Bytes, stride: nat, n: nat, k: nat, off: nat, count: nat)
    requires |dst| == n * stride && k < n && off + stride <= |file| && count <= stride
    ensures k * stride + stride <= |dst|
    ensures var row := ReadPool.RowRead(file[off..off + stride], 0).Received(count, RowsOf(dst, stride, n)[k]);
      && Splice(dst, k * stride, file[off..off + count]) == Splice(dst, k * stride, row)
      && RowsOf(Splice(dst, k * stride, row), stride, n) == RowsOf(dst, stride, n)[k := row]
  {
    RowFits(stride, k, n);
    var row := ReadPool.RowRead(file[off..off + stride], 0).Received(count, RowsOf(dst, stride, n)[k]);
    SpliceRows(dst, stride, n, k, row);
    var left, right := Splice(dst, k * stride, file[off..off + count]), Splice(dst, k * stride, row);
    forall i | 0 <= i < |dst| ensures left[i] == right[i] {
      if k * stride <= i < k * stride + stride {
        SpliceIn(dst, k * stride, row, i);
        if i < k * stride + count { SpliceIn(dst, k * stride, file[off..off + count], i); }
      }
    }
  }

  lemma SpliceIn(s: Bytes, at: nat, patch: Bytes, i: nat)
    requires at + |patch| <= |s| && at <= i < at + |patch|
    ensures Splice(s, at, patch)[i] == patch[i - at]
  {
    assert Splice(s, at, patch)[at..at + |patch|][i - at] == Splice(s, at, patch)[i];
  }

  lemma BufferedRow(s: Shard, index: int, before: Bytes, n: nat, k: nat, count: nat)
    requires s.Valid() && s.Owned(index) && !s.direct && k < n && |before| == n * s.Stride()
    ensures 0 <= s.ReadStart(index) <= |s.file| && k * s.Stride() + s.Stride() <= |before|
    ensures var start := s.ReadStart(index);
      RowsOf(Splice(before, k * s.Stride(), s.file[start..start + Delivered(count, s.Stride(), start, |s.file|)]),
        s.Stride(), n)
      == RowsOf(before, s.Stride(), n)[k := s.Wanted(index).value.Received(count, RowsOf(before, s.Stride(), n)[k])]
  {
    hide RowStride, Splice, RowsOf, ReadPool.RowRead.Received;
    var off := s.Offset(index);
    PlacedRead(s.file, before, s.Stride(), n, k, off, Delivered(count, s.Stride(), off, |s.file|));
    ReceivedClipped(s.Wanted(index).value, count, s.Stride(), RowsOf(before, s.Stride(), n)[k]);
  }

  /** A row read straight into its place. */
  method ReadBuffered(s: Shard, index: int, dst: array<byte>, n: nat, k: nat, count: nat)
    requires s.Valid() && s.Owned(index) && !s.direct && k < n && dst.Length == n * s.Stride()
    modifies dst
    ensures var before := RowsOf(old(dst[..]), s.Stride(), n);
      RowsOf(dst[..], s.Stride(), n) == before[k := s.Wanted(index).value.Received(count, before[k])]
  {
    hide RowStride, Splice, RowsOf, ReadPool.RowRead.Received, Shard.ReadStart, Shard.Wanted, Shard.Valid, Delivered;
    BufferedRow(s, index, dst[..], n, k, count);
    ReadBlock(s.file, dst, k * s.Stride(), s.Stride(), s.ReadStart(index), count);
  }

  /** A buffered read into a fresh result is right exactly if the row ends in zeros from where the read stopped. */
  lemma BufferedReadExactly(s: Shard, index: int, count: nat)
    requires s.Valid() && s.Owned(index) && !s.direct
    ensures var want := s.Wanted(index).value.want;
      s.Wanted(index).value.Received(count, ReadPool.Zeros(s.Stride())) == want
      <==> forall i :: count <= i < |want| ==> want[i] == 0
  {
    ReadPool.ZeroPriorExactly(s.Wanted(index).value, count);
  }

  /** Reads one wanted row into place, through the scratch buffer when reads must be aligned. */
  method ReadRow(s: Shard, index: int, dst: array<byte>, n: nat, k: nat, buffer: array<byte>, count: nat)
    requires s.Valid() && s.Owned(index) && k < n && dst.Length == n * s.Stride()
    requires buffer != dst && buffer.Length >= Span(s.Stride(), s.Align())
    modifies dst, buffer
    ensures RowsOf(dst[..], s.Stride(), n) == RowsOf(old(dst[..]), s.Stride(), n)
              [k := s.Wanted(index).value.Received(count, Prior(s, index, old(dst[..]), n, k, old(buffer[..])))]
  {
    hide Span, RowStride, Splice, RowsOf, Shard.Cut;
    if s.direct {
      var row := ReadDirect(s, index, buffer, count);
      RowFits(s.Stride(), k, n);
      SpliceRows(dst[..], s.Stride(), n, k, row);
      StoreRow(dst, s.Stride(), n, k, row);
    } else {
      ReadBuffered(s, index, dst, n, k, count);
    }
  }

  /**
   * Positions [lo, hi) were served with reads of the given counts: a whole read put the row in place, an
   * unowned position and every other one is as before.
   */
  ghost predicate Served(want: seq<Option<ReadPool.RowRead>>, counts: seq<nat>, before: seq<Bytes>,
      after: seq<Bytes>, lo: nat, hi: nat) {
    && |want| == |counts| == |before| == |after|
    && forall k :: 0 <= k < |want| ==> ServedAt(want[k], counts[k], before[k], after[k], lo <= k < hi)
  }

  predicate ServedAt(want: Option<ReadPool.RowRead>, count: nat, before: Bytes, after: Bytes, served: bool) {
    if served && want.Some? then want.value.Whole(count) ==> after == want.value.want else after == before
  }

  /** One position of a slice: skipped when the plan marks it unowned. */
  method ReadPosition(s: Shard, indices: seq<int>, dst: array<byte>, k: nat, buffer: array<byte>, count: nat)
    requires s.Valid() && k < |indices| && dst.Length == |indices| * s.Stride()
    requires buffer != dst && buffer.Length >= Span(s.Stride(), s.Align())
    modifies dst, buffer
    ensures var before, after := RowsOf(old(dst[..]), s.Stride(), |indices|), RowsOf(dst[..], s.Stride(), |indices|);
      after == before[k := after[k]] && ServedAt(s.Wanted(indices[k]), count, before[k], after[k], true)
  {
    if s.Owned(indices[k]) {
      AndMask(s.Offset(indices[k]), s.bits);
      ModAtMost(s.Offset(indices[k]), s.Align());
    }
    if s.ReadStart(indices[k]) >= 0 {
      ReadRow(s, indices[k], dst, |indices|, k, buffer, count);
    }
  }

  lemma ServedNothing(want: seq<Option<ReadPool.RowRead>>, counts: seq<nat>, before: seq<Bytes>, lo: nat, hi: nat)
    requires |want| == |counts| == |before| && (hi <= lo || |want| <= lo)
    ensures Served(want, counts, before, before, lo, hi)
  {}

  lemma ServedStep(want: seq<Option<ReadPool.RowRead>>, counts: seq<nat>, before: seq<Bytes>, after: seq<Bytes>,
      lo: nat, k: nat,
      row: Bytes)
    requires Served(want, counts, before, after, lo, k) && lo <= k < |want|
    requires ServedAt(want[k], counts[k], after[k], row, true)
    ensures Served(want, counts, before, after[k := row], lo, k + 1)
  {
    assert ServedAt(want[k], counts[k], before[k], after[k], false);
    forall j | 0 <= j < |want|
      ensures ServedAt(want[j], counts[j], before[j], after[k := row][j], lo <= j < k + 1)
    {
      assert ServedAt(want[j], counts[j], before[j], after[j], lo <= j < k);
    }
  }

  /**
   * One slice of a gather: the rows of positions [part * step, ...) that this rank owns, with reads of the
   * given counts.
   */
  method ReadSlice(s: Shard, indices: seq<int>, dst: array<byte>, step: nat, part: nat, buffer: array<byte>,
      counts: seq<nat>)
    requires s.Valid() && dst.Length == |indices| * s.Stride() && |counts| == |indices|
    requires buffer != dst && buffer.Length >= Span(s.Stride(), s.Align())
    modifies dst, buffer
    ensures Served(WantedRows(s, indices), counts, RowsOf(old(dst[..]), s.Stride(), |indices|),
                   RowsOf(dst[..], s.Stride(), |indices|), part * step, ReadPool.SliceEnd(step, |indices|, part))
  {
    hide Span, RowsOf, Served, Shard.Offset, RowStride;
    ghost var want, before := WantedRows(s, indices), RowsOf(dst[..], s.Stride(), |indices|);
    var lo := part * step;
    ServedNothing(want, counts, before, lo, lo);
    if lo >= |indices| {
      ServedNothing(want, counts, before, lo, ReadPool.SliceEnd(step, |indices|, part));
      return;
    }
    var hi := ReadPool.Least(lo + step, |indices|);
    var k := lo;
    while k < hi
      invariant lo <= k <= hi
      invariant Served(want, counts, before, RowsOf(dst[..], s.Stride(), |indices|), lo, k)
    {
      ghost var now := RowsOf(dst[..], s.Stride(), |indices|);
      ReadPosition(s, indices, dst, k, buffer, counts[k]);
      ServedStep(want, counts, before, now, lo, k, RowsOf(dst[..], s.Stride(), |indices|)[k]);
      k := k + 1;
    }
  }

  // ---------- decoding ----------

  /** The bf16 row of fp8 bytes `w` under block scales `e`. */
  function Dequantize<V>(c: Codec<V>, w: Bytes, e: Bytes, block: nat): (r: seq<V>)
    requires block > 0 && |w| == |e| * block
    ensures |r| == |w|
  {
    seq(|w|, j requires 0 <= j < |w| =>
      BlockOf(j, block, |e|);
      c.product(c.value(w[j]), c.scale(e[j / block])))
  }

  /** Element `r` of block `q` of row `i`: the block's own scale applied to the element's own byte. */
  ghost predicate ElementIs<V>(c: Codec<V>, t: Tensors, i: nat, row: seq<V>, q: nat, r: nat)
    requires t.Valid() && i < |t.weight| && q < |t.scale[i]| && r < t.block && |row| == t.dim
  {
    ElementFits(t, i, q, r);
    row[q * t.block + r] == c.product(c.value(t.weight[i][q * t.block + r]), c.scale(t.scale[i][q]))
  }

  lemma ElementFits(t: Tensors, i: nat, q: nat, r: nat)
    requires t.Valid() && i < |t.weight| && q < |t.scale[i]| && r < t.block
    ensures |t.weight[i]| == t.dim && q * t.block + r < t.dim
  {
    Exact(t.dim, t.block);
    ReadPoolSafety.MulMonotone(q + 1, t.dim / t.block, t.block);
    assert (q + 1) * t.block == q * t.block + t.block;
  }

  ghost predicate ElementsAre<V(!new)>(c: Codec<V>, t: Tensors, i: nat, row: seq<V>)
    requires t.Valid() && i < |t.weight| && |row| == t.dim
  {
    forall q: nat, r: nat :: q < |t.scale[i]| && r < t.block ==> ElementIs(c, t, i, row, q, r)
  }

  /** A result row, element by element: the decoded row of the tensors where it is owned, zeros elsewhere. */
  ghost predicate RowIs<V(!new)>(c: Codec<V>, t: Tensors, rowStart: nat, rowCount: nat, index: int, row: seq<V>)
    requires t.Valid() && rowCount <= |t.weight|
  {
    && |row| == t.dim
    && (0 <= index - rowStart < rowCount ==> ElementsAre(c, t, index - rowStart, row))
    && (!(0 <= index - rowStart < rowCount) ==> forall j :: 0 <= j < t.dim ==> row[j] == c.zero)
  }

  /** The reference is that. */
  lemma ReferenceElements<V(!new)>(c: Codec<V>, t: Tensors, indices: seq<int>, rowStart: nat, rowCount: nat, k: nat)
    requires t.Valid() && t.block == REFERENCE_BLOCK && rowCount <= |t.weight| && k < |indices|
    ensures RowIs(c, t, rowStart, rowCount, indices[k], Reference(c, t, indices, rowStart, rowCount)[k])
  {
    Exact(t.dim, t.block);
    var index, row := indices[k], Reference(c, t, indices, rowStart, rowCount)[k];
    assert row == ReferenceRow(c, t, index, rowStart, rowCount);
    if 0 <= index - rowStart < rowCount {
      var i := index - rowStart;
      forall q: nat, r: nat | q < |t.scale[i]| && r < t.block ensures ElementIs(c, t, i, row, q, r) {
        ElementFits(t, i, q, r);
        DivIs(q * t.block + r, t.block, q, r);
      }
    }
  }

  lemma BlockOf(j: nat, block: nat, n: nat)
    requires block > 0 && j < n * block
    ensures 0 <= j / block < n
  {
    DivNat(j, block);
    assert j == block * (j / block) + j % block;
    if j / block >= n {
      ReadPoolSafety.MulMonotone(n, j / block, block);
    }
  }

  /** One row of the result: dequantized if owned, zero otherwise. */
  function DecodeRow<V>(c: Codec<V>, s: Shard, index: int, row: Bytes): (r: seq<V>)
    requires s.Valid() && |row| == s.Stride()
  {
    Exact(s.dim, s.block);
    if s.Owned(index) then Dequantize(c, row[..s.dim], row[s.dim..], s.block) else seq(s.dim, _ => c.zero)
  }

  predicate RowsFit(s: Shard, rows: seq<Bytes>)
    requires s.Valid()
  {
    forall k :: 0 <= k < |rows| ==> |rows[k]| == s.Stride()
  }

  /** What a gather makes of its result rows. */
  function Decoded<V>(c: Codec<V>, s: Shard, indices: seq<int>, rows: seq<Bytes>): (r: seq<seq<V>>)
    requires s.Valid() && |rows| == |indices| && RowsFit(s, rows)
    ensures |r| == |rows|
  {
    seq(|rows|, k requires 0 <= k < |rows| => DecodeRow(c, s, indices[k], rows[k]))
  }

  lemma Exact(dim: nat, block: nat)
    requires block > 0 && dim % block == 0
    ensures dim / block >= 0 && dim == dim / block * block
  {
    DivNat(dim, block);
  }

  /** One row of the in-memory reference, whose block size is fixed. */
  function ReferenceRow<V>(c: Codec<V>, t: Tensors, index: int, rowStart: nat, rowCount: nat): (r: seq<V>)
    requires t.Valid() && t.block == REFERENCE_BLOCK && rowCount <= |t.weight|
  {
    Exact(t.dim, t.block);
    if 0 <= index - rowStart < rowCount then
      Dequantize(c, t.weight[index - rowStart], t.scale[index - rowStart], REFERENCE_BLOCK)
    else seq(t.dim, _ => c.zero)
  }

  /** The in-memory reference over the tensors themselves. */
  function Reference<V>(c: Codec<V>, t: Tensors, indices: seq<int>, rowStart: nat, rowCount: nat): (r: seq<seq<V>>)
    requires t.Valid() && t.block == REFERENCE_BLOCK && rowCount <= |t.weight|
    ensures |r| == |indices|
  {
    seq(|indices|, k requires 0 <= k < |indices| => ReferenceRow(c, t, indices[k], rowStart, rowCount))
  }

  /** A shard over the file built from the tensors, whatever alignment it is read with. */
  predicate OverTensors(s: Shard, t: Tensors) {
    && t.Valid() && s.Valid() && s.file == t.Records(0, |t.weight|)
    && s.dim == t.dim && s.block == t.block && s.rowCount <= |t.weight|
  }

  lemma WantedIsRecord(s: Shard, t: Tensors, index: int)
    requires OverTensors(s, t) && s.Owned(index)
    ensures s.Wanted(index).Some? &&
      s.Wanted(index).value.want == t.weight[index - s.rowStart] + t.scale[index - s.rowStart]
  {
    RecordAt(t, index - s.rowStart);
  }

  /** A result row that is right, or unowned, decodes to the reference row. */
  lemma DecodedIsReference<V(!new)>(c: Codec<V>, s: Shard, t: Tensors, indices: seq<int>, rows: seq<Bytes>, k: nat)
    requires OverTensors(s, t) && t.block == REFERENCE_BLOCK
    requires |rows| == |indices| && RowsFit(s, rows) && k < |rows|
    requires s.Owned(indices[k]) ==> rows[k] == s.Wanted(indices[k]).value.want
    ensures Decoded(c, s, indices, rows)[k] == Reference(c, t, indices, s.rowStart, s.rowCount)[k]
    ensures RowIs(c, t, s.rowStart, s.rowCount, indices[k], Decoded(c, s, indices, rows)[k])
  {
    hide RowIs, Tensors.Records;
    if s.Owned(indices[k]) {
      var i := indices[k] - s.rowStart;
      WantedIsRecord(s, t, indices[k]);
      assert rows[k][..s.dim] == t.weight[i] && rows[k][s.dim..] == t.scale[i];
    }
    ReferenceElements(c, t, indices, s.rowStart, s.rowCount, k);
  }

  /** What the reads of the given counts leave owed. */
  ghost function Owed(want: seq<Option<ReadPool.RowRead>>, counts: seq<nat>): (r: seq<Option<Bytes>>)
    requires |want| == |counts|
    ensures |r| == |want|
    ensures forall k :: 0 <= k < |r| ==>
      r[k] == if want[k].Some? && want[k].value.Whole(counts[k]) then Some(want[k].value.want) else None
  {
    seq(|want|, k requires 0 <= k < |want| =>
      if want[k].Some? && want[k].value.Whole(counts[k]) then Some(want[k].value.want) else None)
  }

  /** Serving slice `p` completes what it owes and spoils no earlier slice. */
  lemma ServedFills(want: seq<Option<ReadPool.RowRead>>, counts: seq<nat>, before: seq<Bytes>, after: seq<Bytes>,
      step: nat, p: nat, q: nat)
    requires Served(want, counts, before, after, p * step, ReadPool.SliceEnd(step, |want|, p)) && q <= p
    requires q < p ==> ReadPoolSafety.PartDone(Owed(want, counts), before, step, q)
    ensures ReadPoolSafety.PartDone(Owed(want, counts), after, step, q)
  {
    if q < p { ReadPoolSafety.SlicesDisjoint(step, |want|, q, p); }
    forall k | q * step <= k < ReadPool.SliceEnd(step, |want|, q)
      ensures ReadPoolSafety.DoneAt(Owed(want, counts), after, k)
    {
      assert ServedAt(want[k], counts[k], before[k], after[k], p * step <= k < ReadPool.SliceEnd(step, |want|, p));
      if q < p { assert ReadPoolSafety.DoneAt(Owed(want, counts), before, k); }
    }
  }

  /** The position is unowned, or its read reached the end of the row. */
  predicate WholeAt(s: Shard, index: int, count: nat)
    requires s.Valid()
  {
    s.Owned(index) ==> s.Wanted(index).value.Whole(count)
  }

  /**
   * A whole gather, its slices taken one after the other, with reads that deliver the given counts: every
   * position whose read reaches the end of its row, and every unowned one, is the reference's row.
   */
  method Gather<V(!new)>(c: Codec<V>, s: Shard, indices: seq<int>, threads: nat, counts: seq<nat>, ghost t: Tensors)
    returns (r: seq<seq<V>>)
    requires OverTensors(s, t) && t.block == REFERENCE_BLOCK && |counts| == |indices|
    ensures |r| == |indices|
    ensures forall k :: 0 <= k < |indices| && WholeAt(s, indices[k], counts[k]) ==>
      r[k] == Reference(c, t, indices, s.rowStart, s.rowCount)[k]
    ensures (forall k :: 0 <= k < |indices| ==> WholeAt(s, indices[k], counts[k])) ==>
      r == Reference(c, t, indices, s.rowStart, s.rowCount)
    ensures forall k :: 0 <= k < |indices| && WholeAt(s, indices[k], counts[k]) ==>
      RowIs(c, t, s.rowStart, s.rowCount, indices[k], r[k])
  {
    var n := |indices|;
    if n == 0 { return []; }
    var dst := new byte[n * s.Stride()](_ => 0);
    var buffer := new byte[Span(s.Stride(), s.Align())];
    var parts := ReadPool.Least((if threads > 0 then threads - 1 else 0) + 1, n);
    var step := ReadPool.StepSize(n, parts);
    ghost var want := WantedRows(s, indices);
    var p := 0;
    hide Served, RowsOf, Span, Owed, ReadPoolSafety.PartDone;
    while p < parts
      invariant p <= parts
      invariant forall q :: 0 <= q < p ==>
        ReadPoolSafety.PartDone(Owed(want, counts), RowsOf(dst[..], s.Stride(), n), step, q)
    {
      ghost var before := RowsOf(dst[..], s.Stride(), n);
      ReadSlice(s, indices, dst, step, p, buffer, counts);
      forall q | 0 <= q < p + 1
        ensures ReadPoolSafety.PartDone(Owed(want, counts), RowsOf(dst[..], s.Stride(), n), step, q)
      {
        ServedFills(want, counts, before, RowsOf(dst[..], s.Stride(), n), step, p, q);
      }
      p := p + 1;
    }
    RowsHaveStride(dst[..], s, n);
    ghost var rows := RowsOf(dst[..], s.Stride(), n);
    GatheredAll(c, s, indices, t, rows, counts, parts);
    r := Decoded(c, s, indices, RowsOf(dst[..], s.Stride(), n));
    forall k | 0 <= k < n && WholeAt(s, indices[k], counts[k])
      ensures r[k] == Reference(c, t, indices, s.rowStart, s.rowCount)[k]
      ensures RowIs(c, t, s.rowStart, s.rowCount, indices[k], r[k])
    {
      assert RightAt(c, s, t, indices, rows, k);
      ReferenceElements(c, t, indices, s.rowStart, s.rowCount, k);
    }
  }

  lemma RowsHaveStride(dst: Bytes, s: Shard, n: nat)
    requires s.Valid() && |dst| == n * s.Stride()
    ensures |RowsOf(dst, s.Stride(), n)| == n && RowsFit(s, RowsOf(dst, s.Stride(), n))
  {}

  /** The result row of position `k` decodes to the reference's. */
  ghost predicate RightAt<V(!new)>(c: Codec<V>, s: Shard, t: Tensors, indices: seq<int>, rows: seq<Bytes>, k: nat)
    requires OverTensors(s, t) && t.block == REFERENCE_BLOCK && |rows| == |indices| && RowsFit(s, rows) && k < |rows|
  {
    Decoded(c, s, indices, rows)[k] == Reference(c, t, indices, s.rowStart, s.rowCount)[k]
  }

  lemma GatheredAt<V(!new)>(c: Codec<V>, s: Shard, indices: seq<int>, t: Tensors, rows: seq<Bytes>,
      counts: seq<nat>, step: nat, q: nat, k: nat)
    requires OverTensors(s, t) && t.block == REFERENCE_BLOCK
    requires |rows| == |counts| == |indices| && RowsFit(s, rows) && k < |indices| && WholeAt(s, indices[k], counts[k])
    requires q * step <= k < ReadPool.SliceEnd(step, |indices|, q)
    requires ReadPoolSafety.PartDone(Owed(WantedRows(s, indices), counts), rows, step, q)
    ensures RightAt(c, s, t, indices, rows, k)
  {
    hide Decoded, Reference, Tensors.Records, ReadPoolSafety.PartDone;
    ReadPoolSafety.PartAt(Owed(WantedRows(s, indices), counts), rows, step, q, k);
    DecodedIsReference(c, s, t, indices, rows, k);
  }

  lemma GatheredAll<V(!new)>(c: Codec<V>, s: Shard, indices: seq<int>, t: Tensors, rows: seq<Bytes>,
      counts: seq<nat>, parts: nat)
    requires OverTensors(s, t) && t.block == REFERENCE_BLOCK && 0 < parts
    requires |rows| == |counts| == |indices| && RowsFit(s, rows)
    requires var step := ReadPool.StepSize(|indices|, parts);
      forall q :: 0 <= q < parts ==> ReadPoolSafety.PartDone(Owed(WantedRows(s, indices), counts), rows, step, q)
    ensures forall k :: 0 <= k < |indices| && WholeAt(s, indices[k], counts[k]) ==> RightAt(c, s, t, indices, rows, k)
  {
    hide RightAt, WholeAt, Tensors.Records, ReadPoolSafety.PartDone, ReadPool.StepSize, RowsFit, Owed;
    forall k | 0 <= k < |indices| && WholeAt(s, indices[k], counts[k]) ensures RightAt(c, s, t, indices, rows, k) {
      var q := ReadPoolSafety.SlicesCover(|indices|, parts, k);
      GatheredAt(c, s, indices, t, rows, counts, ReadPool.StepSize(|indices|, parts), q, k);
    }
  }

  /** Rows that a gather of the pool kept decode to the reference. */
  lemma KeptDecodes<V(!new)>(c: Codec<V>, s: Shard, t: Tensors, indices: seq<int>, job: ReadPool.Job, k: nat)
    requires OverTensors(s, t) && t.block == REFERENCE_BLOCK
    requires ReadPoolSafety.Kept(job) && job.rows == WantedRows(s, indices) && |job.zero| == s.Stride()
    requires k < |indices| && (s.Owned(indices[k]) ==> job.owed[k].Some?)
    ensures |job.dst| == |indices| && RowsFit(s, job.dst) && RightAt(c, s, t, indices, job.dst, k)
    ensures RowIs(c, t, s.rowStart, s.rowCount, indices[k], Decoded(c, s, indices, job.dst)[k])
  {
    hide Decoded, Reference, Tensors.Records, RowIs;
    DecodedIsReference(c, s, t, indices, job.dst, k);
    ReferenceElements(c, t, indices, s.rowStart, s.rowCount, k);
  }

  lemma KeptFits(s: Shard, indices: seq<int>, job: ReadPool.Job)
    requires s.Valid() && ReadPoolSafety.Kept(job) && job.rows == WantedRows(s, indices) && |job.zero| == s.Stride()
    ensures |job.dst| == |job.owed| == |indices| && RowsFit(s, job.dst)
  {}

  /**
   * Any interleaving of the read pool: of a gather that raised nothing, published for these indices, every
   * position whose read reached the end of its row, and every unowned one, decodes to the reference's row.
   */
  lemma AnyScheduleGathers<V(!new)>(
    c: Codec<V>, s: Shard, t: Tensors, indices: seq<int>, i: ReadPool.Pool, actions: seq<ReadPool.Action>,
      f: ReadPool.Pool, g: nat)
    requires OverTensors(s, t) && t.block == REFERENCE_BLOCK
    requires ReadPool.Init(i) && ReadPool.Run(i, actions, f) && !f.wild
    requires g < |f.past| && f.past[g].outcome == ReadPool.Filled
    requires f.past[g].job.rows == WantedRows(s, indices) && |f.past[g].job.zero| == s.Stride()
    ensures var job := f.past[g].job;
      && |job.dst| == |job.owed| == |indices| && RowsFit(s, job.dst)
      && forall k :: 0 <= k < |indices| && (s.Owned(indices[k]) ==> job.owed[k].Some?) ==>
        RightAt(c, s, t, indices, job.dst, k) &&
        RowIs(c, t, s.rowStart, s.rowCount, indices[k], Decoded(c, s, indices, job.dst)[k])
  {
    hide RightAt, Tensors.Records, ReadPool.Run, ReadPool.Init, ReadPoolSafety.Kept, RowsFit, RowIs, Decoded;
    ReadPoolTheorems.GathersAreFilled(i, actions, f);
    var job := f.past[g].job;
    KeptFits(s, indices, job);
    forall k | 0 <= k < |indices| && (s.Owned(indices[k]) ==> job.owed[k].Some?)
      ensures RightAt(c, s, t, indices, job.dst, k)
      ensures RowIs(c, t, s.rowStart, s.rowCount, indices[k], Decoded(c, s, indices, job.dst)[k])
    {
      KeptDecodes(c, s, t, indices, job, k);
    }
  }

  /** Under any interleaving in which every read reached the end of its row, the gather is the reference. */
  lemma WholeReadsGatherReference<V(!new)>(
    c: Codec<V>, s: Shard, t: Tensors, indices: seq<int>, i: ReadPool.Pool, actions: seq<ReadPool.Action>,
      f: ReadPool.Pool, g: nat)
    requires OverTensors(s, t) && t.block == REFERENCE_BLOCK
    requires ReadPool.Init(i) && ReadPool.Run(i, actions, f) && !f.wild && ReadPoolTheorems.AllWhole(i, actions)
    requires g < |f.past| && f.past[g].outcome == ReadPool.Filled
    requires f.past[g].job.rows == WantedRows(s, indices) && |f.past[g].job.zero| == s.Stride()
    ensures |f.past[g].job.dst| == |indices| && RowsFit(s, f.past[g].job.dst)
    ensures Decoded(c, s, indices, f.past[g].job.dst) == Reference(c, t, indices, s.rowStart, s.rowCount)
    ensures forall k :: 0 <= k < |indices| ==>
      RowIs(c, t, s.rowStart, s.rowCount, indices[k], Decoded(c, s, indices, f.past[g].job.dst)[k])
  {
    hide Tensors.Records, ReadPool.Run, ReadPool.Init, ReadPoolSafety.Kept, ReadPoolTheorems.AllWhole;
    AnyScheduleGathers(c, s, t, indices, i, actions, f, g);
    ReadPoolTheorems.WholeRunOwesAll(i, actions, f, g);
    var rows := f.past[g].job.dst;
    forall k | 0 <= k < |indices|
      ensures Decoded(c, s, indices, rows)[k] == Reference(c, t, indices, s.rowStart, s.rowCount)[k]
    {
      assert RightAt(c, s, t, indices, rows, k);
    }
  }

  /**
   * A short read is returned as data: whatever bytes a read of `count` bytes leaves for an owned index, a
   * gather of that index alone raises nothing and decodes those bytes.
   */
  lemma ShortReadIsServed<V>(c: Codec<V>, s: Shard, t: Tensors, index: int, zero: Bytes, count: nat, prior: Bytes)
    returns (i: ReadPool.Pool, actions: seq<ReadPool.Action>, f: ReadPool.Pool)
    requires OverTensors(s, t) && t.block == REFERENCE_BLOCK && s.Owned(index) && |zero| == |prior| == s.Stride()
    requires s.direct || prior == ReadPool.Zeros(s.Stride())
    requires s.Wanted(index).value.Received(count, prior) != s.Wanted(index).value.want
    ensures ReadPool.Init(i) && ReadPool.Run(i, actions, f) && !f.wild
    ensures |f.past| == 1 && f.past[0].outcome == ReadPool.Filled && f.past[0].job.rows == WantedRows(s, [index])
    ensures f.past[0].job.dst == [s.Wanted(index).value.Received(count, prior)]
    ensures !s.Wanted(index).value.Whole(count)
  {
    var r := s.Wanted(index).value;
    i, actions, f := ReadPoolTheorems.ShortReadLosesRow(r, zero, count, prior);
    assert WantedRows(s, [index]) == [Some(r)];
    ReadPool.WholeExactly(r, count);
  }
}
