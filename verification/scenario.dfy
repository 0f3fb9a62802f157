/** A worked example: a ten-byte file of 'A's, an overlapping second write,
    and a rollback to the record saved before it. */
module Scenario {
  import opened Outcomes
  import opened Storage
  import opened Overlay
  import opened ReadPath
  import opened ReadProofs
  import opened Findings

  const A: byte := 65
  const X: byte := 88
  const Y: byte := 89
  const Z: byte := 90
  const One: byte := 49
  const Two: byte := 50

  function Pristine(): (s: seq<byte>)
    ensures |s| == 10 && forall p :: 0 <= p < 10 ==> s[p] == A
  {
    seq(10, _ => A)
  }

  /** The record after writing "XYZ" at 2. */
  function AfterXYZ(): FileState {
    FileState(10, WriteChunk(2, [X, Y, Z], Null))
  }

  /** The record after then writing "12" at 4. */
  function AfterOneTwo(): FileState {
    FileState(10, WriteChunk(4, [One, Two], AfterXYZ().lastWriteChunk))
  }

  lemma WritesBuildHistory(hole: int -> byte)
    ensures Write(FileState(10, Null), 2, [X, Y, Z], 0, 3, hole) == Returned(3, AfterXYZ())
    ensures Write(AfterXYZ(), 4, [One, Two], 0, 2, hole) == Returned(2, AfterOneTwo())
  {
    assert StoreBlob(0, hole, [X, Y, Z], 0, 3) == [X, Y, Z];
    assert StoreBlob(0, hole, [One, Two], 0, 2) == [One, Two];
  }

  lemma ReadAfterXYZ(buf: seq<byte>)
    requires |buf| == 10
    ensures var r := Read(AsWritten, AfterXYZ(), Pristine(), 0, buf, 0, 10);
      && r.Returned? && r.ret == 10
      && forall p :: 0 <= p < 10 ==> r.value[p] == if 2 <= p < 5 then [X, Y, Z][p - 2] else A
  {
    var fs := AfterXYZ();
    assert CleanRead(fs, 0, 10) by {
      assert ReadBytes(fs, 0, 10) == 10;
      assert NextGaps(Corrected, [Gap(0, 10)], 2, 3) == [Gap(0, 2), Gap(5, 5)];
    }
    ReadNewestWinsAsWritten(fs, Pristine(), 0, buf, 0, 10);
    var r := Read(AsWritten, fs, Pristine(), 0, buf, 0, 10);
    forall p | 0 <= p < 10
      ensures r.value[p] == if 2 <= p < 5 then [X, Y, Z][p - 2] else A
    {
      assert r.value[p] == Overlaid(fs.lastWriteChunk, Pristine(), 0, buf, 0, 10)[p];
      assert NewestWrite(fs.lastWriteChunk, p) == if 2 <= p < 5 then Some([X, Y, Z][p - 2]) else None;
    }
  }

  /** Reading the whole file after both writes meets no anomalous split. */
  lemma OneTwoReadIsClean()
    ensures CleanRead(AfterOneTwo(), 0, 10)
  {
    var fs := AfterOneTwo();
    assert ReadBytes(fs, 0, 10) == 10;
    var split := [Gap(0, 4), Gap(6, 4)];
    assert NextGaps(Corrected, [Gap(0, 10)], 4, 2) == split;
    assert NextGaps(Corrected, split[1..], 2, 3) == split[1..];
    assert NextGaps(Corrected, split, 2, 3) == [Gap(0, 2), Gap(6, 4)];
    assert CleanPass(split, 2, 3);
  }

  /** The bytes of the file after both writes. */
  lemma OneTwoBytes(p: int)
    requires 0 <= p < 10
    ensures VirtualByte(AfterOneTwo().lastWriteChunk, Pristine(), p) ==
      Some(if 4 <= p < 6 then [One, Two][p - 4] else if 2 <= p < 4 then [X, Y][p - 2] else A)
  {
    assert NewestWrite(AfterXYZ().lastWriteChunk, p) == if 2 <= p < 5 then Some([X, Y, Z][p - 2]) else None;
    assert NewestWrite(AfterOneTwo().lastWriteChunk, p) ==
      if 4 <= p < 6 then Some([One, Two][p - 4]) else NewestWrite(AfterXYZ().lastWriteChunk, p);
  }

  lemma ReadAfterOneTwo(buf: seq<byte>)
    requires |buf| == 10
    ensures var r := Read(AsWritten, AfterOneTwo(), Pristine(), 0, buf, 0, 10);
      && r.Returned? && r.ret == 10
      && forall p :: 0 <= p < 10 ==>
           r.value[p] == if 4 <= p < 6 then [One, Two][p - 4] else if 2 <= p < 4 then [X, Y][p - 2] else A
  {
    var fs := AfterOneTwo();
    OneTwoReadIsClean();
    ReadNewestWinsAsWritten(fs, Pristine(), 0, buf, 0, 10);
    var r := Read(AsWritten, fs, Pristine(), 0, buf, 0, 10);
    forall p | 0 <= p < 10
      ensures r.value[p] == if 4 <= p < 6 then [One, Two][p - 4] else if 2 <= p < 4 then [X, Y][p - 2] else A
    {
      assert r.value[p] == Overlaid(fs.lastWriteChunk, Pristine(), 0, buf, 0, 10)[p];
      OneTwoBytes(p);
    }
  }

  /** Write "XYZ" at 2, then "12" at 4, over the pristine "AAAAAAAAAA"; read
      the whole file after each write, and once more after restoring the
      record saved between the two writes. */
  lemma OverlappingWritesAndRollback(hole: int -> byte, buf: seq<byte>)
    requires |buf| == 10
    ensures var fs0 := FileState(10, Null);
      var w1 := Write(fs0, 2, [X, Y, Z], 0, 3, hole);
      w1.Returned? && w1.value.length == 10 &&
      var w2 := Write(w1.value, 4, [One, Two], 0, 2, hole);
      w2.Returned? && w2.value.lastWriteChunk.prevChunk == w1.value.lastWriteChunk &&
      var first := Read(AsWritten, w1.value, Pristine(), 0, buf, 0, 10);
      var second := Read(AsWritten, w2.value, Pristine(), 0, buf, 0, 10);
      var restored := Read(AsWritten, FileState(w1.value.length, w2.value.lastWriteChunk.prevChunk), Pristine(), 0, buf, 0, 10);
      && first.Returned? && first.ret == 10
      && (forall p :: 0 <= p < 10 ==> first.value[p] == if 2 <= p < 5 then [X, Y, Z][p - 2] else A)
      && second.Returned? && second.ret == 10
      && (forall p :: 0 <= p < 10 ==>
            second.value[p] == if 4 <= p < 6 then [One, Two][p - 4] else if 2 <= p < 4 then [X, Y][p - 2] else A)
      && restored == first
  {
    WritesBuildHistory(hole);
    ReadAfterXYZ(buf);
    ReadAfterOneTwo(buf);
  }
}
