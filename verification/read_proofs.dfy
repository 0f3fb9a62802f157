/** Properties of the read path: the gap-list bookkeeping, and the per-byte
    result of a read (newest covering write, else the pristine file). */
module ReadProofs {
  import opened Outcomes
  import opened Storage
  import opened Overlay
  import opened ReadPath

  lemma {:induction false} InGapsConcat(a: seq<Gap>, b: seq<Gap>, i: int)
    ensures InGaps(a + b, i) <==> InGaps(a, i) || InGaps(b, i)
    decreases |a|
  {
    if |a| == 0 {
      assert a + b == b;
    } else {
      assert (a + b)[0] == a[0];
      assert (a + b)[1..] == a[1..] + b;
      InGapsConcat(a[1..], b, i);
    }
  }

  lemma InGapsSingle(g: Gap, i: int)
    ensures InGaps([g], i) <==> g.Contains(i)
  {
    assert [g][1..] == [];
  }

  lemma KeepContains(off: int, len: int, i: int)
    ensures InGaps(Keep(off, len), i) <==> 0 < len && off <= i < off + len
  {
    if len > 0 {
      InGapsSingle(Gap(off, len), i);
    }
  }

  /** Whenever a case fires it removes exactly the overlap of the gap with the
      chunk's range; when none fires the gap stays as it is, and in the
      corrected variant that happens only when there is no overlap. */
  lemma SplitGapRemovesOverlap(v: Variant, g: Gap, delta: int, wcLength: nat)
    requires 0 <= g.len
    ensures SplitGap(v, g, delta, wcLength).copy.Some? ==>
      forall i :: InGaps(SplitGap(v, g, delta, wcLength).keep, i) <==> g.Contains(i) && !(delta <= i < delta + wcLength)
    ensures SplitGap(v, g, delta, wcLength).copy.None? ==> SplitGap(v, g, delta, wcLength).keep == [g]
    ensures SplitGap(Corrected, g, delta, wcLength).copy.None? ==>
      forall i :: g.Contains(i) ==> !(delta <= i < delta + wcLength)
  {
    var s := SplitGap(v, g, delta, wcLength);
    var a, b, e := g.off, g.End(), delta + wcLength;
    if s.copy.Some? {
      forall i
        ensures InGaps(s.keep, i) <==> g.Contains(i) && !(delta <= i < delta + wcLength)
      {
        if delta >= a && e <= b {
          InGapsConcat(Keep(a, delta - a), Keep(e, b - e), i);
          KeepContains(a, delta - a, i);
          KeepContains(e, b - e, i);
        } else if delta >= a && e >= b && b >= delta {
          KeepContains(a, delta - a, i);
        } else if delta <= a && e > a && e < b {
          KeepContains(e, b - e, i);
        }
      }
    }
  }

  /** In the corrected variant the copy a split performs is exactly the
      overlap of gap and chunk, read from the matching blob position. */
  lemma SplitGapCopiesOverlap(g: Gap, delta: int, wcLength: nat)
    requires 0 <= g.len
    ensures SplitGap(Corrected, g, delta, wcLength).copy.Some? ==>
      var c := SplitGap(Corrected, g, delta, wcLength).copy.value;
      && c.dst == Max(g.off, delta)
      && c.src == c.dst - delta
      && 0 <= c.count
      && c.dst + c.count == Min(g.End(), delta + wcLength)
  {
  }

  /** The two variants split a gap alike unless the split is anomalous. */
  lemma SplitGapAgrees(g: Gap, delta: int, wcLength: int)
    requires !Anomalous(g, delta, wcLength)
    ensures SplitGap(AsWritten, g, delta, wcLength) == SplitGap(Corrected, g, delta, wcLength)
  {
  }

  /** A pass of a chunk over the gap list removes from it exactly the chunk's
      range (corrected variant). */
  lemma {:induction false} NextGapsRemovesChunk(gaps: seq<Gap>, delta: int, wcLength: nat)
    requires forall k :: 0 <= k < |gaps| ==> 0 <= gaps[k].len
    ensures forall i :: InGaps(NextGaps(Corrected, gaps, delta, wcLength), i) <==>
                          InGaps(gaps, i) && !(delta <= i < delta + wcLength)
    decreases |gaps|
  {
    if |gaps| > 0 {
      var s := SplitGap(Corrected, gaps[0], delta, wcLength);
      var rest := NextGaps(Corrected, gaps[1..], delta, wcLength);
      SplitGapRemovesOverlap(Corrected, gaps[0], delta, wcLength);
      NextGapsRemovesChunk(gaps[1..], delta, wcLength);
      forall i
        ensures InGaps(s.keep + rest, i) <==> InGaps(gaps, i) && !(delta <= i < delta + wcLength)
      {
        InGapsConcat(s.keep, rest, i);
        if s.copy.None? {
          InGapsSingle(gaps[0], i);
        }
      }
    }
  }

  lemma SplitGapWithin(v: Variant, g: Gap, delta: int, wcLength: nat)
    requires 0 <= g.len
    ensures Ordered(SplitGap(v, g, delta, wcLength).keep)
    ensures Within(SplitGap(v, g, delta, wcLength).keep, g.off, g.End())
    ensures 0 < g.len ==> NonEmpty(SplitGap(v, g, delta, wcLength).keep)
  {
  }

  lemma OrderedConcat(a: seq<Gap>, b: seq<Gap>, lo: int, mid: int, hi: int)
    requires lo <= mid <= hi
    requires Ordered(a) && Within(a, lo, mid)
    requires Ordered(b) && Within(b, mid, hi)
    ensures Ordered(a + b) && Within(a + b, lo, hi)
  {
    assert forall k :: 0 <= k < |a + b| ==> (a + b)[k] == if k < |a| then a[k] else b[k - |a|];
    forall k, m | 0 <= k < m < |a + b|
      ensures (a + b)[k].End() <= (a + b)[m].off
    {
      if m < |a| {
      } else if k >= |a| {
        assert (a + b)[k] == b[k - |a|] && (a + b)[m] == b[m - |a|];
      }
    }
  }

  /** Gap-list bookkeeping: a pass keeps the gaps sorted, pairwise disjoint
      and inside the bounds the list started in (either variant). */
  lemma {:induction false} NextGapsOrdered(v: Variant, gaps: seq<Gap>, delta: int, wcLength: nat, lo: int, hi: int)
    requires Ordered(gaps) && Within(gaps, lo, hi)
    ensures Ordered(NextGaps(v, gaps, delta, wcLength)) && Within(NextGaps(v, gaps, delta, wcLength), lo, hi)
    decreases |gaps|
  {
    if |gaps| > 0 {
      var g := gaps[0];
      var s := SplitGap(v, g, delta, wcLength);
      SplitGapWithin(v, g, delta, wcLength);
      assert Ordered(gaps[1..]) && Within(gaps[1..], g.End(), hi) by {
        forall k | 0 <= k < |gaps[1..]|
          ensures g.End() <= gaps[1..][k].off
        {
          assert gaps[1..][k] == gaps[k + 1];
        }
      }
      NextGapsOrdered(v, gaps[1..], delta, wcLength, g.End(), hi);
      OrderedConcat(s.keep, NextGaps(v, gaps[1..], delta, wcLength), lo, g.End(), hi);
    }
  }

  /** A pass over non-empty gaps leaves only non-empty gaps: addNewReadChunk
      drops the empty pieces (either variant). */
  lemma {:induction false} NextGapsNonEmpty(v: Variant, gaps: seq<Gap>, delta: int, wcLength: nat)
    requires NonEmpty(gaps)
    ensures NonEmpty(NextGaps(v, gaps, delta, wcLength))
    decreases |gaps|
  {
    if |gaps| > 0 {
      SplitGapWithin(v, gaps[0], delta, wcLength);
      assert NonEmpty(gaps[1..]) by {
        assert forall k :: 0 <= k < |gaps[1..]| ==> gaps[1..][k] == gaps[k + 1];
      }
      NextGapsNonEmpty(v, gaps[1..], delta, wcLength);
      var a, b := SplitGap(v, gaps[0], delta, wcLength).keep, NextGaps(v, gaps[1..], delta, wcLength);
      assert forall k :: 0 <= k < |a + b| ==> (a + b)[k] == if k < |a| then a[k] else b[k - |a|];
    }
  }

  /** The outer loop keeps the gap list sorted, disjoint, inside its bounds
      and, if it started so, non-empty (either variant). */
  lemma {:induction false} WalkOrdered(v: Variant, chain: ChunkRef, startPos: int, gaps: seq<Gap>, offset: int, buf: seq<byte>, lo: int, hi: int)
    requires Ordered(gaps) && Within(gaps, lo, hi)
    ensures var r := Walk(v, chain, startPos, gaps, offset, buf);
      r.Ok? ==> Ordered(r.value.0) && Within(r.value.0, lo, hi) && (NonEmpty(gaps) ==> NonEmpty(r.value.0))
    decreases chain
  {
    match chain
    case Null =>
    case WriteChunk(wcOffset, blob, prev) =>
      var delta := wcOffset - startPos;
      NextGapsOrdered(v, gaps, delta, |blob|, lo, hi);
      if NonEmpty(gaps) {
        NextGapsNonEmpty(v, gaps, delta, |blob|);
      }
      var buf1 := ScanGaps(v, gaps, delta, blob, offset, buf);
      if buf1.Ok? {
        WalkOrdered(v, prev, startPos, NextGaps(v, gaps, delta, |blob|), offset, buf1.value, lo, hi);
      }
  }

  /** A pass never moves a gap outside the read window (either variant). */
  lemma {:induction false} NextGapsWithin(v: Variant, gaps: seq<Gap>, delta: int, wcLength: nat, lo: int, hi: int)
    requires Within(gaps, lo, hi)
    ensures Within(NextGaps(v, gaps, delta, wcLength), lo, hi)
    decreases |gaps|
  {
    if |gaps| > 0 {
      SplitGapWithin(v, gaps[0], delta, wcLength);
      NextGapsWithin(v, gaps[1..], delta, wcLength, lo, hi);
      var a, b := SplitGap(v, gaps[0], delta, wcLength).keep, NextGaps(v, gaps[1..], delta, wcLength);
      assert forall k :: 0 <= k < |a + b| ==> (a + b)[k] == if k < |a| then a[k] else b[k - |a|];
    }
  }

  /** The gap list a read starts with, one gap of `readBytes` bytes, meets
      the hypothesis of `WalkOrdered`, even when it is empty at the end of the
      file: the gaps the walk leaves are sorted, disjoint and inside the
      window. */
  lemma ReadGapsOrdered(v: Variant, fs: FileState, startPos: int, data: seq<byte>, offset: int, length: int)
    requires startPos <= fs.length && 0 <= length
    ensures var readBytes := ReadBytes(fs, startPos, length);
      var w := Walk(v, fs.lastWriteChunk, startPos, [Gap(0, readBytes)], offset, data);
      w.Ok? ==> Ordered(w.value.0) && Within(w.value.0, 0, readBytes) && (0 < readBytes ==> NonEmpty(w.value.0))
  {
    var readBytes := ReadBytes(fs, startPos, length);
    WalkOrdered(v, fs.lastWriteChunk, startPos, [Gap(0, readBytes)], offset, data, 0, readBytes);
  }

  /** One corrected pass writes the chunk's bytes at exactly the positions of
      the gaps it overlaps and leaves every other byte alone. */
  lemma {:induction false} ScanGapsCopiesChunk(gaps: seq<Gap>, delta: int, blob: seq<byte>, offset: int, buf: seq<byte>, readBytes: int)
    requires 0 <= offset && offset + readBytes <= |buf|
    requires Within(gaps, 0, readBytes)
    ensures ScanGaps(Corrected, gaps, delta, blob, offset, buf).Ok?
    ensures forall j :: 0 <= j < |buf| ==>
      ScanGaps(Corrected, gaps, delta, blob, offset, buf).value[j] ==
        if InGaps(gaps, j - offset) && delta <= j - offset < delta + |blob| then blob[j - offset - delta] else buf[j]
    decreases |gaps|
  {
    if |gaps| > 0 {
      var g := gaps[0];
      var s := SplitGap(Corrected, g, delta, |blob|);
      SplitGapRemovesOverlap(Corrected, g, delta, |blob|);
      SplitGapCopiesOverlap(g, delta, |blob|);
      var buf1 := match s.copy
                  case None => Ok(buf)
                  case Some(c) => Transfer(buf, blob, c.src, offset + c.dst, c.count);
      assert buf1.Ok?;
      assert forall j :: 0 <= j < |buf| ==>
        buf1.value[j] == if g.Contains(j - offset) && delta <= j - offset < delta + |blob| then blob[j - offset - delta] else buf[j];
      assert Within(gaps[1..], 0, readBytes) by {
        assert forall k :: 0 <= k < |gaps[1..]| ==> gaps[1..][k] == gaps[k + 1];
      }
      ScanGapsCopiesChunk(gaps[1..], delta, blob, offset, buf1.value, readBytes);
    }
  }

  /** The corrected outer loop: a position stays in a gap exactly when no
      chunk covers it, and a position that leaves the gaps receives the byte
      of the newest chunk covering it. */
  lemma {:induction false} WalkResolvesNewest(chain: ChunkRef, startPos: int, gaps: seq<Gap>, offset: int, buf: seq<byte>, readBytes: int)
    requires 0 <= offset && offset + readBytes <= |buf|
    requires Within(gaps, 0, readBytes)
    ensures Walk(Corrected, chain, startPos, gaps, offset, buf).Ok?
    ensures Within(Walk(Corrected, chain, startPos, gaps, offset, buf).value.0, 0, readBytes)
    ensures forall i :: InGaps(Walk(Corrected, chain, startPos, gaps, offset, buf).value.0, i) <==>
                          InGaps(gaps, i) && NewestWrite(chain, startPos + i).None?
    ensures forall j :: 0 <= j < |buf| ==>
      Walk(Corrected, chain, startPos, gaps, offset, buf).value.1[j] ==
        if InGaps(gaps, j - offset) && NewestWrite(chain, startPos + (j - offset)).Some?
        then NewestWrite(chain, startPos + (j - offset)).value else buf[j]
    decreases chain
  {
    match chain
    case Null =>
    case WriteChunk(wcOffset, blob, prev) =>
      var delta := wcOffset - startPos;
      ScanGapsCopiesChunk(gaps, delta, blob, offset, buf, readBytes);
      var buf1 := ScanGaps(Corrected, gaps, delta, blob, offset, buf).value;
      var gaps1 := NextGaps(Corrected, gaps, delta, |blob|);
      NextGapsRemovesChunk(gaps, delta, |blob|);
      NextGapsWithin(Corrected, gaps, delta, |blob|, 0, readBytes);
      WalkResolvesNewest(prev, startPos, gaps1, offset, buf1, readBytes);
      var r := Walk(Corrected, prev, startPos, gaps1, offset, buf1).value;
      assert Walk(Corrected, chain, startPos, gaps, offset, buf) == Ok(r);
      WalkStepGaps(chain, startPos, gaps, gaps1, r.0);
      WalkStepBytes(chain, startPos, gaps, gaps1, offset, buf, buf1, r.1);
  }

  /** The gaps after the head chunk and the rest of the walk, combined. */
  lemma WalkStepGaps(chain: ChunkRef, startPos: int, gaps: seq<Gap>, gaps1: seq<Gap>, left: seq<Gap>)
    requires chain.WriteChunk?
    requires forall i :: InGaps(gaps1, i) <==>
      InGaps(gaps, i) && !(chain.startPos - startPos <= i < chain.startPos - startPos + |chain.blob|)
    requires forall i :: InGaps(left, i) <==> InGaps(gaps1, i) && NewestWrite(chain.prevChunk, startPos + i).None?
    ensures forall i :: InGaps(left, i) <==> InGaps(gaps, i) && NewestWrite(chain, startPos + i).None?
  {
  }

  /** The buffer after the head chunk and the rest of the walk, combined. */
  lemma WalkStepBytes(chain: ChunkRef, startPos: int, gaps: seq<Gap>, gaps1: seq<Gap>, offset: int,
                      buf: seq<byte>, buf1: seq<byte>, buf2: seq<byte>)
    requires chain.WriteChunk?
    requires |buf1| == |buf2| == |buf|
    requires forall i :: InGaps(gaps1, i) <==>
      InGaps(gaps, i) && !(chain.startPos - startPos <= i < chain.startPos - startPos + |chain.blob|)
    requires forall j :: 0 <= j < |buf| ==>
      buf1[j] == if InGaps(gaps, j - offset) && chain.Covers(startPos + (j - offset))
                 then chain.blob[startPos + (j - offset) - chain.startPos] else buf[j]
    requires forall j :: 0 <= j < |buf| ==>
      buf2[j] == if InGaps(gaps1, j - offset) && NewestWrite(chain.prevChunk, startPos + (j - offset)).Some?
                 then NewestWrite(chain.prevChunk, startPos + (j - offset)).value else buf1[j]
    ensures forall j :: 0 <= j < |buf| ==>
      buf2[j] == if InGaps(gaps, j - offset) && NewestWrite(chain, startPos + (j - offset)).Some?
                 then NewestWrite(chain, startPos + (j - offset)).value else buf[j]
  {
    forall j | 0 <= j < |buf|
      ensures buf2[j] == if InGaps(gaps, j - offset) && NewestWrite(chain, startPos + (j - offset)).Some?
                         then NewestWrite(chain, startPos + (j - offset)).value else buf[j]
    {
      var i := j - offset;
      assert InGaps(gaps1, i) <==>
        InGaps(gaps, i) && !(chain.startPos - startPos <= i < chain.startPos - startPos + |chain.blob|);
    }
  }

  /** Filling the gaps left from the pristine file copies its bytes where it
      has them and leaves the rest of the buffer alone. */
  lemma {:induction false} FillCopiesPristine(pristine: seq<byte>, startPos: int, gaps: seq<Gap>, offset: int, buf: seq<byte>, readBytes: int)
    requires 0 <= startPos && 0 <= offset && offset + readBytes <= |buf|
    requires Within(gaps, 0, readBytes)
    ensures FillFromNative(pristine, startPos, gaps, offset, buf).Ok?
    ensures forall j :: 0 <= j < |buf| ==>
      FillFromNative(pristine, startPos, gaps, offset, buf).value[j] ==
        if InGaps(gaps, j - offset) && 0 <= startPos + (j - offset) < |pristine|
        then pristine[startPos + (j - offset)] else buf[j]
    decreases |gaps|
  {
    if |gaps| > 0 {
      var g := gaps[0];
      var buf1 := Transfer(buf, pristine, startPos + g.off, offset + g.off, g.len);
      assert buf1.Ok?;
      assert Within(gaps[1..], 0, readBytes) by {
        assert forall k :: 0 <= k < |gaps[1..]| ==> gaps[1..][k] == gaps[k + 1];
      }
      FillCopiesPristine(pristine, startPos, gaps[1..], offset, buf1.value, readBytes);
    }
  }

  /** The buffer a read should produce: `data` with the window
      `[offset, offset + count)` replaced by the virtual file's bytes from
      `startPos` on, where the file has them. */
  function Overlaid(chain: ChunkRef, pristine: seq<byte>, startPos: int, data: seq<byte>, offset: int, count: int): (r: seq<byte>)
    ensures |r| == |data|
  {
    seq(|data|, j requires 0 <= j < |data| =>
      if offset <= j < offset + count && VirtualByte(chain, pristine, startPos + (j - offset)).Some?
      then VirtualByte(chain, pristine, startPos + (j - offset)).value else data[j])
  }

  /** The window byte `j` after the walk and the pristine fill, given what
      each of the two stages does to it. */
  lemma WindowByte(chain: ChunkRef, pristine: seq<byte>, startPos: int, data: seq<byte>, offset: int, readBytes: int,
                   left: seq<Gap>, walked: seq<byte>, filled: seq<byte>, j: int)
    requires 0 <= startPos && 0 <= j < |data| == |walked| == |filled|
    requires InGaps(left, j - offset) <==> 0 <= j - offset < readBytes && NewestWrite(chain, startPos + (j - offset)).None?
    requires walked[j] == if 0 <= j - offset < readBytes && NewestWrite(chain, startPos + (j - offset)).Some?
                          then NewestWrite(chain, startPos + (j - offset)).value else data[j]
    requires filled[j] == if InGaps(left, j - offset) && 0 <= startPos + (j - offset) < |pristine|
                          then pristine[startPos + (j - offset)] else walked[j]
    ensures filled[j] == Overlaid(chain, pristine, startPos, data, offset, readBytes)[j]
  {
    var p := startPos + (j - offset);
    var v := VirtualByte(chain, pristine, p);
    assert Overlaid(chain, pristine, startPos, data, offset, readBytes)[j] ==
      if offset <= j < offset + readBytes && v.Some? then v.value else data[j];
    if NewestWrite(chain, p).Some? {
      assert v == NewestWrite(chain, p);
    } else {
      assert v == if 0 <= p < |pristine| then Some(pristine[p]) else None;
    }
  }

  /** Main theorem, corrected variant: a read returns the number of readable
      bytes, every byte of the window comes from the newest write covering its
      file position, otherwise from the pristine file, and no byte outside the
      window changes. */
  lemma ReadNewestWins(fs: FileState, pristine: seq<byte>, startPos: int, data: seq<byte>, offset: int, length: int)
    requires 0 <= offset && 0 <= length && offset + length <= |data|
    requires 0 <= startPos <= fs.length
    ensures Read(Corrected, fs, pristine, startPos, data, offset, length) ==
      Returned(Min(length, fs.length - startPos),
               Overlaid(fs.lastWriteChunk, pristine, startPos, data, offset, Min(length, fs.length - startPos)))
  {
    var count := Min(length, fs.length - startPos);
    var expected := Overlaid(fs.lastWriteChunk, pristine, startPos, data, offset, count);
    if length == 0 {
      assert expected == data;
    } else {
      var readBytes := ReadBytes(fs, startPos, length);
      assert readBytes == count;
      var initial := [Gap(0, readBytes)];
      forall i ensures InGaps(initial, i) <==> 0 <= i < readBytes {
        InGapsSingle(Gap(0, readBytes), i);
      }
      WalkResolvesNewest(fs.lastWriteChunk, startPos, initial, offset, data, readBytes);
      var w := Walk(Corrected, fs.lastWriteChunk, startPos, initial, offset, data).value;
      FillCopiesPristine(pristine, startPos, w.0, offset, w.1, readBytes);
      var filled := FillFromNative(pristine, startPos, w.0, offset, w.1).value;
      forall j | 0 <= j < |data|
        ensures filled[j] == expected[j]
      {
        WindowByte(fs.lastWriteChunk, pristine, startPos, data, offset, readBytes, w.0, w.1, filled, j);
      }
      assert filled == expected;
    }
  }
}
