/** The virtual file record, its write history, and the write path
    (`write__J_3BII__I`, `writeCacheData`, `addNewWriteChunk`). */
module Overlay {
  import opened Outcomes
  import opened Storage

  /** A reference to a WriteChunk object, or null. A chunk supplies the bytes
      `[startPos, startPos + |blob|)` of the file; the chunk's `length` field
      always equals the size of its cache file, so it is `|blob|` here. Chunks
      are never changed once linked, so the chain is an immutable list,
      newest first. */
  datatype ChunkRef = Null | WriteChunk(startPos: int, blob: seq<byte>, prevChunk: ChunkRef) {

    predicate Covers(p: int) {
      WriteChunk? && startPos <= p < startPos + |blob|
    }
  }

  /** The fields of a virtual file the peer reads and writes: its logical
      `length` and the head of its write history. The host's snapshot and
      backtrack mechanism saves and restores exactly this record. */
  datatype FileState = FileState(length: int, lastWriteChunk: ChunkRef)

  /** The byte that the most recent write covering position `p` put there. */
  function NewestWrite(chain: ChunkRef, p: int): Option<byte>
    decreases chain
  {
    match chain
    case Null => None
    case WriteChunk(startPos, blob, prev) =>
      if startPos <= p < startPos + |blob| then Some(blob[p - startPos]) else NewestWrite(prev, p)
  }

  /** The byte of the virtual file at position `p`: the newest write covering
      it, otherwise the pristine file's byte, and none past the pristine file. */
  function VirtualByte(chain: ChunkRef, pristine: seq<byte>, p: int): Option<byte> {
    match NewestWrite(chain, p)
    case Some(b) => Some(b)
    case None => if 0 <= p < |pristine| then Some(pristine[p]) else None
  }

  /** Every byte below the logical length has a value. */
  ghost predicate Defined(fs: FileState, pristine: seq<byte>) {
    forall p :: 0 <= p < fs.length ==> VirtualByte(fs.lastWriteChunk, pristine, p).Some?
  }

  /** `chain` is `head` or reachable from it through `prevChunk`. */
  predicate SuffixOf(chain: ChunkRef, head: ChunkRef)
    decreases head
  {
    chain == head || (head.WriteChunk? && SuffixOf(chain, head.prevChunk))
  }

  /** The write peer: store `data[offset..offset + length]` at `startPos`.
      A write that starts past the end of the file is pinned to the old
      length, and its cache file begins with `startPos - length` bytes of
      unspecified content, taken from `hole`. */
  function Write(fs: FileState, startPos: int, data: seq<byte>, offset: int, length: int, hole: int -> byte): (r: Outcome<FileState>)
    ensures r.Thrown? <==> offset + length > |data|
    ensures offset + length <= |data| && length == 0 ==> r == Returned(0, fs)
    ensures r.Crashed? <==> offset + length <= |data| && length != 0 && (offset < 0 || length < 0)
    ensures r.Returned? && length != 0 ==>
      var c := r.value.lastWriteChunk;
      && r.ret == length
      && r.value.length == Max(fs.length, startPos + length)
      && c.WriteChunk?
      && c.prevChunk == fs.lastWriteChunk
      && c.startPos == Min(startPos, fs.length)
      && c.startPos + |c.blob| == startPos + length
      && c.blob[|c.blob| - length..] == data[offset..offset + length]
  {
    if offset + length > |data| then Thrown
    else if length == 0 then Returned(0, fs)
    else if offset < 0 || length < 0 then Crashed
    else
      var skip := if startPos > fs.length then startPos - fs.length else 0;
      var blob := StoreBlob(skip, hole, data, offset, length);
      var chunk := if skip == 0 then WriteChunk(startPos, blob, fs.lastWriteChunk)
                   else WriteChunk(fs.length, blob, fs.lastWriteChunk);
      var newLength := if startPos + length > fs.length then startPos + length else fs.length;
      Returned(length, FileState(newLength, chunk))
  }

  /** After a write, the newest-write view of the file shows the written bytes
      in their range, the hole bytes between the old end of file and
      `startPos`, and what it showed before everywhere else. */
  lemma WriteContents(fs: FileState, startPos: int, data: seq<byte>, offset: int, length: int, hole: int -> byte)
    requires Write(fs, startPos, data, offset, length, hole).Returned?
    requires length != 0
    ensures forall p ::
              NewestWrite(Write(fs, startPos, data, offset, length, hole).value.lastWriteChunk, p) ==
                if startPos <= p < startPos + length then Some(data[offset + (p - startPos)])
                else if fs.length <= p < startPos then Some(hole(p - fs.length))
                else NewestWrite(fs.lastWriteChunk, p)
  {
    var c := Write(fs, startPos, data, offset, length, hole).value.lastWriteChunk;
    var skip := if startPos > fs.length then startPos - fs.length else 0;
    forall p
      ensures NewestWrite(c, p) ==
        if startPos <= p < startPos + length then Some(data[offset + (p - startPos)])
        else if fs.length <= p < startPos then Some(hole(p - fs.length))
        else NewestWrite(fs.lastWriteChunk, p)
    {
      if startPos <= p < startPos + length {
        assert c.blob[skip + (p - startPos)] == data[offset + (p - startPos)];
      }
    }
  }

  /** Pinning a past-end write to the old length keeps every byte below the
      new length defined. */
  lemma WritePreservesDefined(fs: FileState, pristine: seq<byte>, startPos: int, data: seq<byte>, offset: int, length: int, hole: int -> byte)
    requires Defined(fs, pristine)
    requires Write(fs, startPos, data, offset, length, hole).Returned?
    ensures Defined(Write(fs, startPos, data, offset, length, hole).value, pristine)
  {
    if length != 0 {
      var fs' := Write(fs, startPos, data, offset, length, hole).value;
      WriteContents(fs, startPos, data, offset, length, hole);
      forall p | 0 <= p < fs'.length
        ensures VirtualByte(fs'.lastWriteChunk, pristine, p).Some?
      {
        if p >= fs.length {
          assert NewestWrite(fs'.lastWriteChunk, p).Some?;
        } else {
          assert VirtualByte(fs.lastWriteChunk, pristine, p).Some?;
        }
      }
    }
  }

  /** A successful write only prepends: the old history stays reachable,
      unchanged, from the new head. */
  lemma WriteKeepsHistory(fs: FileState, startPos: int, data: seq<byte>, offset: int, length: int, hole: int -> byte)
    requires Write(fs, startPos, data, offset, length, hole).Returned?
    ensures SuffixOf(fs.lastWriteChunk, Write(fs, startPos, data, offset, length, hole).value.lastWriteChunk)
  {
  }

  /** Backtracking over a write restores the saved `length` and head
      reference; the head saved before the write is the new head's
      `prevChunk`, so the restored record is exactly the record before the
      write and every later read sees the file as it was. */
  lemma RollbackByHead(fs: FileState, startPos: int, data: seq<byte>, offset: int, length: int, hole: int -> byte)
    requires Write(fs, startPos, data, offset, length, hole).Returned?
    requires length != 0
    ensures var fs' := Write(fs, startPos, data, offset, length, hole).value;
      FileState(fs.length, fs'.lastWriteChunk.prevChunk) == fs
  {
  }
}
