/** The backing files of one Engram table and the ways a row is read from them. */
module RowFile {
  import opened Bits
  import opened Common

  const ROW_BYTES: nat := 264
  const WEIGHT_BYTES: nat := 256
  const SCALE_BYTES: nat := 8
  const PAGE: nat := 4096
  const HEADER: nat := 4096
  const SPAN: nat := 8388608

  datatype Table = Table(file: seq<byte>, rows: nat, woff: nat, soff: nat) {
    /** The extent check made when the store is opened. */
    predicate Valid() {
      && woff <= |file| && soff <= |file|
      && rows <= (|file| - woff) / 256
      && rows <= (|file| - soff) / 8
    }

    /** Both parts of row `id` lie inside the file. */
    predicate Has(id: nat) {
      && woff + id * WEIGHT_BYTES + WEIGHT_BYTES <= |file|
      && soff + id * SCALE_BYTES + SCALE_BYTES <= |file|
    }

    /** The 256 weight bytes followed by the 8 scale bytes of row `id`. */
    function Row(id: nat): (r: seq<byte>)
      requires Has(id)
      ensures |r| == ROW_BYTES
    {
      file[woff + id * WEIGHT_BYTES..woff + id * WEIGHT_BYTES + WEIGHT_BYTES]
      + file[soff + id * SCALE_BYTES..soff + id * SCALE_BYTES + SCALE_BYTES]
    }
  }

  /** What a read of `n` bytes at `offset` returns if `count` are to arrive: an error, or as many as there are. */
  function Arrives(count: int, n: nat, offset: nat, size: nat): (got: int)
    ensures -1 <= got <= n && (got > 0 ==> offset + got <= size)
  {
    var limit := if offset + n <= size then n else if offset <= size then size - offset else 0;
    if count < 0 then -1 else Min(count, limit)
  }

  /** pread: a prefix of the requested range arrives, of any length, or an error (-1). */
  method Pread(file: seq<byte>, buffer: array<byte>, n: nat, offset: nat, count: int) returns (got: int)
    requires n <= buffer.Length
    modifies buffer
    ensures got == Arrives(count, n, offset, |file|)
    ensures forall j :: 0 <= j < got ==> buffer[j] == file[offset + j]
  {
    got := Arrives(count, n, offset, |file|);
    if got > 0 {
      CopyInto(buffer, 0, file[offset..offset + got]);
    }
  }

  /** Masking with the page size rounds down to a page. */
  lemma PageMask(offset: nat)
    ensures AndNot(offset, PAGE - 1) == offset - offset % PAGE
  {
    assert Pow2(4) == 16 && Pow2(8) == 256;
    assert Pow2(12) == PAGE;
    AndNotMask(offset, 12);
  }

  /**
   * One direct read through an 8192-byte page buffer. None is the process abort: it comes exactly if the read,
   * which starts at the page of `offset`, does not reach the end of the range.
   */
  method ReadFrom(file: seq<byte>, resident: bool, offset: nat, length: nat, count: int)
    returns (r: Option<seq<byte>>)
    requires 0 < length <= ROW_BYTES
    requires resident ==> offset + length <= |file|
    ensures r.Some? <==> resident || (offset + length <= |file| && count >= offset % PAGE + length)
    ensures r.Some? ==> r.value == file[offset..offset + length]
  {
    if resident {
      return Some(file[offset..offset + length]);
    }
    var page := new byte[8192];
    PageMask(offset);
    var base := AndNot(offset, PAGE - 1);
    var delta := offset - base;
    var requested := (delta + length + PAGE - 1) / PAGE * PAGE;
    assert requested <= 8192;
    var got := Pread(file, page, requested, base, count);
    if got < 0 || got < delta + length {
      return None;
    }
    r := Some(page[delta..delta + length]);
    ghost var wanted := file[offset..offset + length];
    forall j | 0 <= j < length ensures r.value[j] == wanted[j] {
      assert page[delta + j] == file[base + (delta + j)];
    }
  }

  function Min(a: int, b: int): int { if a < b then a else b }

  function Max(a: int, b: int): int { if a < b then b else a }

  /** The scale bytes of rows [lo, hi). */
  function ScaleShard(t: Table, lo: nat, hi: nat): (r: seq<byte>)
    requires t.Valid() && lo <= hi <= t.rows
    ensures |r| == (hi - lo) * SCALE_BYTES
  {
    t.file[t.soff + lo * SCALE_BYTES..t.soff + hi * SCALE_BYTES]
  }

  /** What the first of several reads delivers, and those after it; past the end they are whole. */
  function FirstOf(counts: seq<int>, size: nat): int { if counts == [] then size else counts[0] }

  function RestOf(counts: seq<int>): seq<int> { if counts == [] then [] else counts[1..] }

  /** Every read delivers something. */
  predicate AllArrive(counts: seq<int>) { forall i :: 0 <= i < |counts| ==> counts[i] > 0 }

  lemma RestArrives(counts: seq<int>, size: nat)
    requires AllArrive(counts) && size > 0
    ensures FirstOf(counts, size) > 0 && AllArrive(RestOf(counts))
  {}

  /**
   * Copies the owned scale rows to memory through an 8 MiB bounce buffer, whatever the read sizes; it fails only
   * without memory or over a read that delivers nothing.
   */
  method PinScales(t: Table, lo: nat, hi: nat, resident: bool, memory: bool, counts: seq<int>)
    returns (r: Option<seq<byte>>)
    requires t.Valid() && lo <= hi <= t.rows
    ensures r.Some? ==> r.value == ScaleShard(t, lo, hi)
    ensures lo == hi || !memory ==> r.None?
    ensures lo < hi && memory && (resident || AllArrive(counts)) ==> r.Some?
  {
    var bytes := (hi - lo) * SCALE_BYTES;
    if bytes == 0 || !memory { return None; }
    var out := new byte[bytes];
    var start := t.soff + lo * SCALE_BYTES;
    var end := start + bytes;
    if resident {
      CopyInto(out, 0, t.file[start..end]);
      assert out[..] == t.file[start..end];
      return Some(out[..]);
    }
    var buffer := new byte[SPAN];
    PageMask(start);
    var offset, rest := AndNot(start, PAGE - 1), counts;
    hide AndNot, AllArrive, FirstOf, RestOf;
    while offset < end
      invariant offset <= |t.file| && (AllArrive(counts) ==> AllArrive(rest))
      invariant forall i :: start <= i < Min(offset, end) ==> out[i - start] == t.file[i]
    {
      var want := Min(SPAN, (end - offset + PAGE - 1) / PAGE * PAGE);
      if AllArrive(counts) { RestArrives(rest, want); }
      var got := Pread(t.file, buffer, want, offset, FirstOf(rest, want));
      rest := RestOf(rest);
      if got <= 0 { return None; }
      var from, to := Max(offset, start), Min(offset + got, end);
      forall i | from <= i < to {
        out[i - start] := buffer[i - offset];
      }
      offset := offset + got;
    }
    assert out[..] == t.file[start..end];
    return Some(out[..]);
  }
}
