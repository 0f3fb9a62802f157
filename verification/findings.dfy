/** Where the read loop as written departs from the newest-write semantics,
    and the theorem that holds for it when a read avoids both departures. */
module Findings {
  import opened Outcomes
  import opened Storage
  import opened Overlay
  import opened ReadPath
  import opened ReadProofs

  /** No gap of the list meets a chunk in an anomalous way. */
  predicate CleanPass(gaps: seq<Gap>, delta: int, wcLength: int) {
    forall k :: 0 <= k < |gaps| ==> !Anomalous(gaps[k], delta, wcLength)
  }

  /** No pass of the outer loop, started on `gaps`, meets an anomalous split. */
  predicate CleanWalk(chain: ChunkRef, startPos: int, gaps: seq<Gap>)
    decreases chain
  {
    match chain
    case Null => true
    case WriteChunk(wcOffset, blob, prev) =>
      && CleanPass(gaps, wcOffset - startPos, |blob|)
      && CleanWalk(prev, startPos, NextGaps(Corrected, gaps, wcOffset - startPos, |blob|))
  }

  /** The read of `length` bytes at `startPos` meets no anomalous split. */
  predicate CleanRead(fs: FileState, startPos: int, length: int) {
    CleanWalk(fs.lastWriteChunk, startPos, [Gap(0, ReadBytes(fs, startPos, length))])
  }

  lemma {:induction false} PassAgrees(gaps: seq<Gap>, delta: int, blob: seq<byte>, offset: int, buf: seq<byte>)
    requires CleanPass(gaps, delta, |blob|)
    ensures ScanGaps(AsWritten, gaps, delta, blob, offset, buf) == ScanGaps(Corrected, gaps, delta, blob, offset, buf)
    ensures NextGaps(AsWritten, gaps, delta, |blob|) == NextGaps(Corrected, gaps, delta, |blob|)
    decreases |gaps|
  {
    if |gaps| > 0 {
      SplitGapAgrees(gaps[0], delta, |blob|);
      assert CleanPass(gaps[1..], delta, |blob|) by {
        assert forall k :: 0 <= k < |gaps[1..]| ==> gaps[1..][k] == gaps[k + 1];
      }
      var s := SplitGap(Corrected, gaps[0], delta, |blob|);
      var buf1 := match s.copy
                  case None => Ok(buf)
                  case Some(c) => Transfer(buf, blob, c.src, offset + c.dst, c.count);
      if buf1.Ok? {
        PassAgrees(gaps[1..], delta, blob, offset, buf1.value);
      } else {
        PassAgrees(gaps[1..], delta, blob, offset, buf);
      }
    }
  }

  /** A walk that meets no anomalous split behaves as the corrected walk. */
  lemma {:induction false} WalkAgrees(chain: ChunkRef, startPos: int, gaps: seq<Gap>, offset: int, buf: seq<byte>)
    requires CleanWalk(chain, startPos, gaps)
    ensures Walk(AsWritten, chain, startPos, gaps, offset, buf) == Walk(Corrected, chain, startPos, gaps, offset, buf)
    decreases chain
  {
    match chain
    case Null =>
    case WriteChunk(wcOffset, blob, prev) =>
      var delta := wcOffset - startPos;
      PassAgrees(gaps, delta, blob, offset, buf);
      var r := ScanGaps(Corrected, gaps, delta, blob, offset, buf);
      if r.Ok? {
        WalkAgrees(prev, startPos, NextGaps(Corrected, gaps, delta, |blob|), offset, r.value);
      }
  }

  /** A read that meets no anomalous split gives what the corrected read gives. */
  lemma ReadAgrees(fs: FileState, pristine: seq<byte>, startPos: int, data: seq<byte>, offset: int, length: int)
    requires CleanRead(fs, startPos, length)
    ensures Read(AsWritten, fs, pristine, startPos, data, offset, length) ==
            Read(Corrected, fs, pristine, startPos, data, offset, length)
  {
    WalkAgrees(fs.lastWriteChunk, startPos, [Gap(0, ReadBytes(fs, startPos, length))], offset, data);
  }

  /** Main theorem for the code as written: under the hypothesis that the read
      meets neither departure, every byte of the window comes from the newest
      write covering it, otherwise from the pristine file. */
  lemma ReadNewestWinsAsWritten(fs: FileState, pristine: seq<byte>, startPos: int, data: seq<byte>, offset: int, length: int)
    requires 0 <= offset && 0 <= length && offset + length <= |data|
    requires 0 <= startPos <= fs.length
    requires CleanRead(fs, startPos, length)
    ensures Read(AsWritten, fs, pristine, startPos, data, offset, length) ==
      Returned(Min(length, fs.length - startPos),
               Overlaid(fs.lastWriteChunk, pristine, startPos, data, offset, Min(length, fs.length - startPos)))
  {
    ReadAgrees(fs, pristine, startPos, data, offset, length);
    ReadNewestWins(fs, pristine, startPos, data, offset, length);
  }

  lemma {:induction false} WalkNoGaps(v: Variant, chain: ChunkRef, startPos: int, offset: int, buf: seq<byte>)
    ensures Walk(v, chain, startPos, [], offset, buf) == Ok(([], buf))
    decreases chain
  {
    match chain
    case Null =>
    case WriteChunk(_, _, prev) =>
      WalkNoGaps(v, prev, startPos, offset, buf);
  }

  /** A write that does not start past the end adds a chunk holding exactly
      the written bytes at `startPos`. */
  lemma WriteInPlace(fs: FileState, startPos: int, data: seq<byte>, offset: int, length: int, hole: int -> byte)
    requires 0 < length && 0 <= offset && offset + length <= |data|
    requires startPos <= fs.length
    ensures Write(fs, startPos, data, offset, length, hole) ==
      Returned(length, FileState(Max(fs.length, startPos + length),
                                 WriteChunk(startPos, data[offset..offset + length], fs.lastWriteChunk)))
  {
    assert StoreBlob(0, hole, data, offset, length) == data[offset..offset + length];
  }

  /** Reading a whole blob to buffer index `dst` replaces exactly that stretch
      of the buffer by it. */
  lemma TransferAt(buf: seq<byte>, blob: seq<byte>, dst: int)
    requires 0 <= dst && dst + |blob| <= |buf|
    ensures Transfer(buf, blob, 0, dst, |blob|) == Ok(buf[..dst] + blob + buf[dst + |blob|..])
  {
    var r := Transfer(buf, blob, 0, dst, |blob|).value;
    assert r == buf[..dst] + blob + buf[dst + |blob|..];
  }

  /** Every chunk of the history above `c` lies wholly before or wholly after
      the range `[s, s + n)`, and `c` is reached from `chain`. */
  predicate DisjointDownTo(chain: ChunkRef, c: ChunkRef, s: int, n: int)
    decreases chain
  {
    || chain == c
    || (&& chain.WriteChunk?
        && (chain.startPos + |chain.blob| <= s || s + n <= chain.startPos)
        && DisjointDownTo(chain.prevChunk, c, s, n))
  }

  /** As written, a chunk that misses the window `[s, s + n)` leaves the
      single gap and the buffer as they are, so the walk goes on as if the
      chunk were not there. */
  lemma {:induction false} WalkPastDisjoint(chain: ChunkRef, c: ChunkRef, s: int, n: int, ro: int, buf: seq<byte>)
    requires DisjointDownTo(chain, c, s, n)
    requires 0 < n && 0 <= ro && ro + n <= |buf|
    ensures Walk(AsWritten, chain, s, [Gap(0, n)], ro, buf) == Walk(AsWritten, c, s, [Gap(0, n)], ro, buf)
    decreases chain
  {
    if chain != c {
      var g := Gap(0, n);
      var delta := chain.startPos - s;
      var blob := chain.blob;
      var sp := SplitGap(AsWritten, g, delta, |blob|);
      assert sp.keep == [g];
      assert sp.copy.Some? ==> sp.copy.value.src == 0 && sp.copy.value.count == 0 && 0 <= sp.copy.value.dst <= n;
      assert ScanGaps(AsWritten, [g], delta, blob, ro, buf) == Ok(buf);
      assert NextGaps(AsWritten, [g], delta, |blob|) == [g];
      WalkPastDisjoint(chain.prevChunk, c, s, n, ro, buf);
    }
  }

  /** As written, a write that did not start past the end is read back
      exactly, into any part of any buffer, after any later writes that miss
      its range: the read returns the written bytes at the buffer offset and
      leaves the rest of the buffer alone. */
  lemma ReadBackAfterDisjointWrites(fs: FileState, pristine: seq<byte>, startPos: int, data: seq<byte>, offset: int,
                                    length: int, hole: int -> byte, later: FileState, buf: seq<byte>, ro: int)
    requires 0 < length && 0 <= offset && offset + length <= |data|
    requires startPos <= fs.length
    requires Write(fs, startPos, data, offset, length, hole).Returned?
    requires DisjointDownTo(later.lastWriteChunk, Write(fs, startPos, data, offset, length, hole).value.lastWriteChunk,
                            startPos, length)
    requires startPos + length <= later.length
    requires 0 <= ro && ro + length <= |buf|
    ensures Read(AsWritten, later, pristine, startPos, buf, ro, length) ==
            Returned(length, buf[..ro] + data[offset..offset + length] + buf[ro + length..])
  {
    WriteInPlace(fs, startPos, data, offset, length, hole);
    var blob := data[offset..offset + length];
    var c := WriteChunk(startPos, blob, fs.lastWriteChunk);
    assert ReadBytes(later, startPos, length) == length;
    var g := Gap(0, length);
    WalkPastDisjoint(later.lastWriteChunk, c, startPos, length, ro, buf);
    assert SplitGap(AsWritten, g, 0, length) == Split(Some(Copy(0, 0, length)), []);
    TransferAt(buf, blob, ro);
    var buf1 := buf[..ro] + blob + buf[ro + length..];
    assert ScanGaps(AsWritten, [g], 0, blob, ro, buf) == Ok(buf1);
    assert NextGaps(AsWritten, [g], 0, length) == [];
    WalkNoGaps(AsWritten, fs.lastWriteChunk, startPos, ro, buf1);
    assert Walk(AsWritten, c, startPos, [g], ro, buf) == Ok(([], buf1));
    assert FillFromNative(pristine, startPos, [], ro, buf1) == Ok(buf1);
  }

  /** As written, reading back exactly the range of a write that did not
      start past the end, right after it, yields the written bytes at the
      buffer offset. */
  lemma ReadYourWrite(fs: FileState, pristine: seq<byte>, startPos: int, data: seq<byte>, offset: int, length: int,
                      hole: int -> byte, buf: seq<byte>, ro: int)
    requires 0 < length && 0 <= offset && offset + length <= |data|
    requires startPos <= fs.length
    requires 0 <= ro && ro + length <= |buf|
    ensures Write(fs, startPos, data, offset, length, hole).Returned?
    ensures Read(AsWritten, Write(fs, startPos, data, offset, length, hole).value, pristine, startPos, buf, ro, length) ==
            Returned(length, buf[..ro] + data[offset..offset + length] + buf[ro + length..])
  {
    WriteInPlace(fs, startPos, data, offset, length, hole);
    var fs' := Write(fs, startPos, data, offset, length, hole).value;
    ReadBackAfterDisjointWrites(fs, pristine, startPos, data, offset, length, hole, fs', buf, ro);
  }

  /** A later write that misses the range `[s, s + n)` keeps that range's
      chunk reachable past disjoint chunks only, and keeps the range inside
      the file: a past-end write is pinned to the old end, which already lies
      at or after `s + n`. */
  lemma DisjointWriteKeepsReadBack(later: FileState, c: ChunkRef, s: int, n: int,
                                   startPos: int, data: seq<byte>, offset: int, length: int, hole: int -> byte)
    requires DisjointDownTo(later.lastWriteChunk, c, s, n) && s + n <= later.length
    requires 0 < length && 0 <= offset && offset + length <= |data|
    requires startPos + length <= s || s + n <= startPos
    ensures Write(later, startPos, data, offset, length, hole).Returned?
    ensures var later' := Write(later, startPos, data, offset, length, hole).value;
      DisjointDownTo(later'.lastWriteChunk, c, s, n) && s + n <= later'.length
  {
  }

  /** As written, a write that starts past the end of the file has no effect
      on any read that starts after the old end and reaches the new end: its
      chunk is pinned to the old end, so it starts before the read window and
      ends with it, which no case handles. */
  lemma PastEndWriteUnread(fs: FileState, pristine: seq<byte>, startPos: int, data: seq<byte>, offset: int, length: int,
                           hole: int -> byte, readPos: int, buf: seq<byte>, readOffset: int, readLen: int)
    requires 0 < length && 0 <= offset && offset + length <= |data|
    requires startPos > fs.length
    requires fs.length < readPos && startPos + length <= readPos + readLen
    ensures Write(fs, startPos, data, offset, length, hole).Returned?
    ensures var fs' := Write(fs, startPos, data, offset, length, hole).value;
      Read(AsWritten, fs', pristine, readPos, buf, readOffset, readLen) ==
      Read(AsWritten, FileState(fs'.length, fs.lastWriteChunk), pristine, readPos, buf, readOffset, readLen)
  {
    var fs' := Write(fs, startPos, data, offset, length, hole).value;
    var c := fs'.lastWriteChunk;
    var delta := fs.length - readPos;
    if readOffset + readLen <= |buf| && readLen != 0 && readPos <= fs'.length {
      var g := Gap(0, startPos + length - readPos);
      assert ReadBytes(fs', readPos, readLen) == g.len;
      assert |c.blob| == startPos + length - fs.length;
      assert SplitGap(AsWritten, g, delta, |c.blob|) == Split(None, [g]);
      assert ScanGaps(AsWritten, [g], delta, c.blob, readOffset, buf) == Ok(buf);
      assert NextGaps(AsWritten, [g], delta, |c.blob|) == [g];
    }
  }

  /** Counterexample for the departure at case 1: the newer chunk "Y" at 2
      splits the window, and the older chunk "X" at 6 then lands at position 9
      of the buffer instead of 6; position 6 keeps its old value 0 although
      the newest write covering it put 88 there. */
  lemma MisplacedCopy()
    ensures var fs := FileState(10, WriteChunk(2, [89], WriteChunk(6, [88], Null)));
      var pristine: seq<byte> := [65, 65, 65, 65, 65, 65, 65, 65, 65, 65];
      var data: seq<byte> := [0, 0, 0, 0, 0, 0, 0, 0, 0, 0];
      var r := Read(AsWritten, fs, pristine, 0, data, 0, 10);
      && VirtualByte(fs.lastWriteChunk, pristine, 6) == Some(88)
      && r.Returned? && r.ret == 10 && r.value[6] == 0
  {
    var fs := FileState(10, WriteChunk(2, [89], WriteChunk(6, [88], Null)));
    var pristine: seq<byte> := [65, 65, 65, 65, 65, 65, 65, 65, 65, 65];
    var data: seq<byte> := [0, 0, 0, 0, 0, 0, 0, 0, 0, 0];
    var window := [Gap(0, 10)];
    // the newer chunk: case 1 on the whole window
    assert SplitGap(AsWritten, Gap(0, 10), 2, 1) == Split(Some(Copy(0, 2, 1)), [Gap(0, 2), Gap(3, 7)]);
    var b1 := Transfer(data, [89], 0, 2, 1).value;
    assert ScanGaps(AsWritten, window, 2, [89], 0, data) == Ok(b1);
    var split := [Gap(0, 2), Gap(3, 7)];
    assert NextGaps(AsWritten, window, 2, 1) == split;
    // the older chunk: untouched first gap, case 1 on the second gap
    assert SplitGap(AsWritten, Gap(0, 2), 6, 1) == Split(None, [Gap(0, 2)]);
    assert SplitGap(AsWritten, Gap(3, 7), 6, 1) == Split(Some(Copy(0, 9, 1)), [Gap(3, 3), Gap(7, 3)]);
    var b2 := Transfer(b1, [88], 0, 9, 1).value;
    assert ScanGaps(AsWritten, split[1..], 6, [88], 0, b1) == Ok(b2);
    assert ScanGaps(AsWritten, split, 6, [88], 0, b1) == Ok(b2);
    var left := [Gap(0, 2), Gap(3, 3), Gap(7, 3)];
    assert NextGaps(AsWritten, split[1..], 6, 1) == left[1..];
    assert NextGaps(AsWritten, split, 6, 1) == left;
    assert Walk(AsWritten, fs.lastWriteChunk, 0, window, 0, data) == Ok((left, b2));
    // the pristine file fills the three gaps left, none of which holds 6
    var w1 := Transfer(b2, pristine, 0, 0, 2).value;
    var w2 := Transfer(w1, pristine, 3, 3, 3).value;
    var w3 := Transfer(w2, pristine, 7, 7, 3).value;
    assert FillFromNative(pristine, 0, left[2..], 0, w2) == Ok(w3);
    assert FillFromNative(pristine, 0, left[1..], 0, w1) == Ok(w3);
    assert FillFromNative(pristine, 0, left, 0, b2) == Ok(w3);
    assert w3[6] == 0;
  }

  /** The same departure can also crash the peer: the misplaced destination
      runs past the buffer, and the cache-file read throws inside the peer.
      The newer chunk at 0 leaves the gap [2, 10); the older chunk at 5 is
      then copied to buffer index 2 + 5 = 7, and 7 + 5 exceeds the 10-byte
      buffer. The corrected read returns normally. */
  lemma MisplacedCopyCrash()
    ensures var fs := FileState(10, WriteChunk(0, [49, 50], WriteChunk(5, [51, 52, 53, 54, 55], Null)));
      var pristine: seq<byte> := [65, 65, 65, 65, 65, 65, 65, 65, 65, 65];
      var data: seq<byte> := [0, 0, 0, 0, 0, 0, 0, 0, 0, 0];
      && Read(AsWritten, fs, pristine, 0, data, 0, 10) == Crashed
      && Read(Corrected, fs, pristine, 0, data, 0, 10).Returned?
  {
    var fs := FileState(10, WriteChunk(0, [49, 50], WriteChunk(5, [51, 52, 53, 54, 55], Null)));
    var pristine: seq<byte> := [65, 65, 65, 65, 65, 65, 65, 65, 65, 65];
    var data: seq<byte> := [0, 0, 0, 0, 0, 0, 0, 0, 0, 0];
    var window := [Gap(0, 10)];
    // the newer chunk: case 1 on the whole window, copied in place
    assert SplitGap(AsWritten, Gap(0, 10), 0, 2) == Split(Some(Copy(0, 0, 2)), [Gap(2, 8)]);
    var b1 := Transfer(data, [49, 50], 0, 0, 2).value;
    assert ScanGaps(AsWritten, window, 0, [49, 50], 0, data) == Ok(b1);
    assert NextGaps(AsWritten, window, 0, 2) == [Gap(2, 8)];
    // the older chunk: case 1 on [2, 10) aims at index 7
    assert SplitGap(AsWritten, Gap(2, 8), 5, 5) == Split(Some(Copy(0, 7, 5)), [Gap(2, 3)]);
    assert Transfer(b1, [51, 52, 53, 54, 55], 0, 7, 5) == Fault;
    assert ScanGaps(AsWritten, [Gap(2, 8)], 5, [51, 52, 53, 54, 55], 0, b1) == Fault;
    assert Walk(AsWritten, fs.lastWriteChunk.prevChunk, 0, [Gap(2, 8)], 0, b1) == Fault;
    assert Walk(AsWritten, fs.lastWriteChunk, 0, window, 0, data) == Fault;
    ReadNewestWins(fs, pristine, 0, data, 0, 10);
  }

  /** Counterexample for the missing case: the chunk "XYZ" at 0 covers the
      read of positions 1 and 2 and ends with it, so the read returns the
      pristine bytes "AA" there instead of "YZ". */
  lemma MissedTail()
    ensures var fs := FileState(10, WriteChunk(0, [88, 89, 90], Null));
      var pristine: seq<byte> := [65, 65, 65, 65, 65, 65, 65, 65, 65, 65];
      var data: seq<byte> := [0, 0];
      var r := Read(AsWritten, fs, pristine, 1, data, 0, 2);
      && VirtualByte(fs.lastWriteChunk, pristine, 1) == Some(89)
      && VirtualByte(fs.lastWriteChunk, pristine, 2) == Some(90)
      && r.Returned? && r.ret == 2 && r.value[0] == 65 && r.value[1] == 65
  {
    var fs := FileState(10, WriteChunk(0, [88, 89, 90], Null));
    var pristine: seq<byte> := [65, 65, 65, 65, 65, 65, 65, 65, 65, 65];
    var data: seq<byte> := [0, 0];
    var g := Gap(0, 2);
    assert ReadBytes(fs, 1, 2) == 2;
    assert SplitGap(AsWritten, g, -1, 3) == Split(None, [g]);
    assert ScanGaps(AsWritten, [g], -1, [88, 89, 90], 0, data) == Ok(data);
    assert NextGaps(AsWritten, [g], -1, 3) == [g];
    assert Walk(AsWritten, fs.lastWriteChunk, 1, [g], 0, data) == Ok(([g], data));
    var filled := Transfer(data, pristine, 1, 0, 2).value;
    assert FillFromNative(pristine, 1, [g], 0, data) == Ok(filled);
    assert filled[0] == 65 && filled[1] == 65;
  }
}
