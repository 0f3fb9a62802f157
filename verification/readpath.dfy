/** The read path (`read__J_3BII__I`, `ReadChunk`, `addNewReadChunk`,
    `readData`, `readLeftChunksFromNativeFS`): reconstruct a byte range by
    walking the write history newest first and filling what is left from the
    pristine file. */
module ReadPath {
  import opened Outcomes
  import opened Storage
  import opened Overlay

  /** A ReadChunk: the still unfilled stretch of `len` bytes that starts `off`
      bytes past the read position. */
  datatype Gap = Gap(off: int, len: int) {

    function End(): int {
      off + len
    }

    predicate Contains(i: int) {
      off <= i < off + len
    }
  }

  /** Relative position `i` lies in some gap of the list. */
  predicate InGaps(gaps: seq<Gap>, i: int)
    decreases |gaps|
  {
    |gaps| > 0 && (gaps[0].Contains(i) || InGaps(gaps[1..], i))
  }

  /** Every gap lies in `[lo, hi)` and has a non-negative length. */
  predicate Within(gaps: seq<Gap>, lo: int, hi: int) {
    forall k :: 0 <= k < |gaps| ==> lo <= gaps[k].off && 0 <= gaps[k].len && gaps[k].End() <= hi
  }

  /** The gaps have non-negative lengths and are sorted and pairwise
      disjoint. An empty gap is allowed: a read that starts at the end of the
      file begins with one. */
  predicate Ordered(gaps: seq<Gap>) {
    && (forall k :: 0 <= k < |gaps| ==> 0 <= gaps[k].len)
    && (forall k, m :: 0 <= k < m < |gaps| ==> gaps[k].End() <= gaps[m].off)
  }

  /** Every gap of the list is non-empty. */
  predicate NonEmpty(gaps: seq<Gap>) {
    forall k :: 0 <= k < |gaps| ==> 0 < gaps[k].len
  }

  /** The code as written, or with its two departures from the newest-write
      semantics repaired: case 1 copies to `delta` rather than
      `rcOff + delta`, and case 4 also takes a chunk that ends exactly where
      the gap ends. */
  datatype Variant = AsWritten | Corrected

  /** One `readData` call: `count` bytes from position `src` of the cache
      file to relative position `dst` of the read window. */
  datatype Copy = Copy(src: int, dst: int, count: int)

  /** The effect of one write chunk on one gap: the copy it performs, if any,
      and the gaps that replace it in the list. */
  datatype Split = Split(copy: Option<Copy>, keep: seq<Gap>)

  /** addNewReadChunk: only a gap of positive length is added. */
  function Keep(off: int, len: int): (r: seq<Gap>)
    ensures |r| <= 1 && (|r| == 1 <==> len > 0)
    ensures |r| == 1 ==> r[0] == Gap(off, len)
  {
    if len > 0 then [Gap(off, len)] else []
  }

  /** The four cases that match a write chunk of `wcLength` bytes at relative
      position `delta` against a gap. */
  function SplitGap(v: Variant, g: Gap, delta: int, wcLength: int): (r: Split)
    ensures |r.keep| <= 2
  {
    var rcOff, rcLen := g.off, g.len;
    var writeChunkEnd, readChunkEnd := delta + wcLength, g.End();
    if delta >= rcOff && writeChunkEnd <= readChunkEnd then
      // the gap includes the chunk
      Split(Some(Copy(0, if v.AsWritten? then rcOff + delta else delta, wcLength)),
            Keep(rcOff, delta - rcOff) + Keep(delta + wcLength, readChunkEnd - writeChunkEnd))
    else if delta >= rcOff && writeChunkEnd >= readChunkEnd && readChunkEnd >= delta then
      // the chunk covers the right part of the gap
      Split(Some(Copy(0, delta, readChunkEnd - delta)), Keep(rcOff, delta - rcOff))
    else if delta <= rcOff && writeChunkEnd > rcOff && writeChunkEnd < readChunkEnd then
      // the chunk covers the left part of the gap
      Split(Some(Copy(rcOff - delta, rcOff, wcLength + delta - rcOff)),
            Keep(delta + wcLength, rcOff + rcLen - delta - wcLength))
    else if delta < rcOff && (if v.AsWritten? then writeChunkEnd > readChunkEnd else writeChunkEnd >= readChunkEnd) then
      // the chunk includes the gap
      Split(Some(Copy(rcOff - delta, rcOff, rcLen)), [])
    else
      Split(None, [g])
  }

  /** The splits on which the two variants differ: case 1 on a gap that does
      not start the window, and a chunk that starts before a gap and ends
      with it. */
  predicate Anomalous(g: Gap, delta: int, wcLength: int) {
    || (delta >= g.off && delta + wcLength <= g.End() && g.off != 0)
    || (delta < g.off && delta + wcLength == g.End())
  }

  /** The `readData` calls one write chunk makes while the inner loop passes
      over the gap list. */
  function ScanGaps(v: Variant, gaps: seq<Gap>, delta: int, blob: seq<byte>, offset: int, buf: seq<byte>): (r: Result<seq<byte>>)
    ensures r.Ok? ==> |r.value| == |buf|
    decreases |gaps|
  {
    if |gaps| == 0 then Ok(buf)
    else
      var buf1 :- match SplitGap(v, gaps[0], delta, |blob|).copy
                  case None => Ok(buf)
                  case Some(c) => Transfer(buf, blob, c.src, offset + c.dst, c.count);
      ScanGaps(v, gaps[1..], delta, blob, offset, buf1)
  }

  /** The gap list after the inner loop's removals and insertions for one
      write chunk: each gap is replaced, in place, by what its split keeps. */
  function NextGaps(v: Variant, gaps: seq<Gap>, delta: int, wcLength: int): (r: seq<Gap>)
    ensures |r| <= 2 * |gaps|
    decreases |gaps|
  {
    if |gaps| == 0 then []
    else SplitGap(v, gaps[0], delta, wcLength).keep + NextGaps(v, gaps[1..], delta, wcLength)
  }

  /** The outer loop: every chunk of the history, newest first, against the
      current gap list. Yields the gaps left and the buffer. */
  function Walk(v: Variant, chain: ChunkRef, startPos: int, gaps: seq<Gap>, offset: int, buf: seq<byte>): (r: Result<(seq<Gap>, seq<byte>)>)
    ensures r.Ok? ==> |r.value.1| == |buf|
    decreases chain
  {
    match chain
    case Null => Ok((gaps, buf))
    case WriteChunk(wcOffset, blob, prev) =>
      var delta := wcOffset - startPos;
      var buf1 :- ScanGaps(v, gaps, delta, blob, offset, buf);
      Walk(v, prev, startPos, NextGaps(v, gaps, delta, |blob|), offset, buf1)
  }

  /** readLeftChunksFromNativeFS: each gap left is read from the pristine file
      at `startPos` plus the gap's offset. */
  function FillFromNative(pristine: seq<byte>, startPos: int, gaps: seq<Gap>, offset: int, buf: seq<byte>): (r: Result<seq<byte>>)
    ensures r.Ok? ==> |r.value| == |buf|
    decreases |gaps|
  {
    if |gaps| == 0 then Ok(buf)
    else
      var buf1 :- Transfer(buf, pristine, startPos + gaps[0].off, offset + gaps[0].off, gaps[0].len);
      FillFromNative(pristine, startPos, gaps[1..], offset, buf1)
  }

  /** The number of bytes a read that is not past the end produces. */
  function ReadBytes(fs: FileState, startPos: int, length: int): (r: int)
    ensures r == Min(length, fs.length - startPos)
  {
    if startPos + length < fs.length then length else fs.length - startPos
  }

  /** The read peer: fill `data[offset..offset + length]` from position
      `startPos` of the virtual file. Reading never changes the file record. */
  function Read(v: Variant, fs: FileState, pristine: seq<byte>, startPos: int, data: seq<byte>, offset: int, length: int): (r: Outcome<seq<byte>>)
    ensures r.Thrown? <==> offset + length > |data|
    ensures offset + length <= |data| && length == 0 ==> r == Returned(0, data)
    ensures offset + length <= |data| && length != 0 && startPos > fs.length ==> r == Returned(-1, data)
    ensures offset + length <= |data| && length != 0 && startPos <= fs.length && r.Returned? ==>
      r.ret == Min(length, fs.length - startPos)
    ensures r.Returned? ==> |r.value| == |data|
  {
    if offset + length > |data| then Thrown
    else if length == 0 then Returned(0, data)
    else if fs.length < startPos then Returned(-1, data)
    else
      var readBytes := ReadBytes(fs, startPos, length);
      match Walk(v, fs.lastWriteChunk, startPos, [Gap(0, readBytes)], offset, data)
      case Fault => Crashed
      case Ok((gaps, buf)) =>
        // an empty gap list opens no native file and leaves `buf` as it is
        match FillFromNative(pristine, startPos, gaps, offset, buf)
        case Fault => Crashed
        case Ok(buf') => Returned(readBytes, buf')
  }
}
