# Copy-on-write file overlay of jpf-bfs, modelled in Dafny

jpf-bfs gives a program running under Java PathFinder a writable view of a
file. The view can be rolled back on backtrack, and the real file on disk is
never changed. Its native peer `JPF_gov_nasa_jpf_FileState` keeps, for each
virtual file, a logical `length` and a linked history of write chunks, newest
first. Each chunk holds the bytes of one write in a cache file of its own. A
write prepends a chunk. A read reconstructs the requested range. It starts
from a gap list covering the whole window, walks the history newest first,
splits every gap against every chunk using four interval cases, and fills what
is left from the pristine file. Backtracking restores the record's `length`
and head reference, and nothing else.

The model is functional:

- `Overlay` holds the data model. `ChunkRef` is a WriteChunk reference or null,
  and `FileState` is the file record. It also holds the reference semantics:
  `NewestWrite` is the byte the newest covering write put at a position, and
  `VirtualByte` falls back to the pristine file. The write peer `Write` lives
  here too, with its lemmas.
- `Storage` holds the blob content written by `writeCacheData` and the
  `seek` + `read` into the caller's buffer (`Transfer`). Files are byte
  sequences.
- `ReadPath` holds the read peer: `Gap` (a ReadChunk), `SplitGap` (the four
  cases), one pass of a chunk over the gap list (`ScanGaps` for the copies,
  `NextGaps` for the list edits), the outer loop `Walk`, `FillFromNative`, and
  `Read`. `Read` takes a `Variant`. `AsWritten` is the code as it stands.
  `Corrected` repairs the two departures listed under Findings.
- `ReadProofs` holds the gap bookkeeping and the per-byte theorem for the
  corrected read.
- `Findings` holds the theorem for the code as written, proved for reads that
  meet neither departure, and counterexamples for both departures.
- `Scenario` is a worked example: two overlapping writes and a rollback.

Outcomes of a peer call are `Returned(ret, value)`, `Thrown` or `Crashed`.
`Thrown` means IndexOutOfBoundsException raised in the simulated program.
`Crashed` means a java.io exception escaped the peer. Reading never changes
the file record: `Read` returns only the return code and the buffer.
Rollback is covered by the record being a value. Restoring the saved
`length` and head gives back the old record (`RollbackByHead`), so every read
gives what it gave before.

A read at exactly the end of the file returns 0, not -1; only a read that
starts past the end returns -1. Each chunk's `length` field always equals the
size of its cache file, so the model derives it from the blob rather than
storing it twice.

## Model

| member | source | states |
|---|---|---|
| Storage.Transfer | src/peers/gov/nasa/jpf/bfs/JPF_gov_nasa_jpf_FileState.java:236-242 | A read into the buffer fails exactly on a negative seek position or a destination range outside the buffer. Otherwise each window byte gets the source byte at the matching position, where the file has one, and every other byte is unchanged. |
| Storage.StoreBlob | src/peers/gov/nasa/jpf/bfs/JPF_gov_nasa_jpf_FileState.java:88-94 | A cache file holds `skip` bytes of unspecified content followed by the `length` written bytes. |
| Overlay.Write | src/peers/gov/nasa/jpf/bfs/JPF_gov_nasa_jpf_FileState.java:43-80 | IOOBE exactly when `offset + length` exceeds the array. A zero-length write returns 0 with the record unchanged. Negative offset or length with a non-zero length crashes in java.io. Otherwise it returns `length` and sets the file length to max(old length, end of write). The new head's `prevChunk` is the old head. The chunk starts at min(startPos, old length), ends at startPos + length, and its last `length` bytes are the data. |
| Overlay.WriteContents | src/peers/gov/nasa/jpf/bfs/JPF_gov_nasa_jpf_FileState.java:59-77 | After a write, the newest-write view shows the written bytes in their range and the hole bytes between the old length and startPos. Every other position is as before. |
| Overlay.WritePreservesDefined | src/peers/gov/nasa/jpf/bfs/JPF_gov_nasa_jpf_FileState.java:59-71 | Pinning a past-end write to the old length keeps every byte below the new length defined. |
| Overlay.WriteKeepsHistory | src/peers/gov/nasa/jpf/bfs/JPF_gov_nasa_jpf_FileState.java:97-108 | A write only prepends, so the old history is a suffix of the new one. |
| Overlay.RollbackByHead | src/peers/gov/nasa/jpf/bfs/JPF_gov_nasa_jpf_FileState.java:104-107 | Restoring the saved length and the new head's `prevChunk` gives back exactly the record before the write. |
| ReadPath.Keep | src/peers/gov/nasa/jpf/bfs/JPF_gov_nasa_jpf_FileState.java:220-225 | addNewReadChunk adds at most one gap, and adds it exactly when its length is positive. Which positions the result covers is stated by `SplitGapRemovesOverlap`. |
| ReadPath.SplitGap | src/peers/gov/nasa/jpf/bfs/JPF_gov_nasa_jpf_FileState.java:176-202 | Replaces a gap with at most two gaps. What the four cases keep and copy is stated by `SplitGapRemovesOverlap` and `SplitGapCopiesOverlap`. |
| ReadPath.NextGaps | src/peers/gov/nasa/jpf/bfs/JPF_gov_nasa_jpf_FileState.java:167-203 | One pass of the inner loop at most doubles the gap list. The positions it removes are stated by `NextGapsRemovesChunk`, and its ordering by `NextGapsOrdered`. |
| ReadPath.ScanGaps | src/peers/gov/nasa/jpf/bfs/JPF_gov_nasa_jpf_FileState.java:167-203 | The `readData` calls of one pass keep the buffer's size when none fails. Which bytes they write is stated by `ScanGapsCopiesChunk`. |
| ReadPath.Walk | src/peers/gov/nasa/jpf/bfs/JPF_gov_nasa_jpf_FileState.java:160-206 | The outer loop keeps the buffer's size when no copy fails. The gaps it leaves and the bytes it writes are stated by `WalkResolvesNewest` and `WalkOrdered`. |
| ReadPath.FillFromNative | src/peers/gov/nasa/jpf/bfs/JPF_gov_nasa_jpf_FileState.java:253-262 | Filling the gaps left from the pristine file keeps the buffer's size when no read fails. Which bytes it writes is stated by `FillCopiesPristine`. |
| ReadPath.ReadBytes | src/peers/gov/nasa/jpf/bfs/JPF_gov_nasa_jpf_FileState.java:142-150 | The number of bytes a read produces is min(length, fileLength - startPos). |
| ReadPath.Read | src/peers/gov/nasa/jpf/bfs/JPF_gov_nasa_jpf_FileState.java:123-150 | IOOBE exactly when `offset + length` exceeds the array. Length 0 returns 0. A start strictly past the end returns -1 with the buffer unchanged. Otherwise any return value is min(length, fileLength - startPos), and the buffer keeps its size. |
| ReadProofs.SplitGapRemovesOverlap | src/peers/gov/nasa/jpf/bfs/JPF_gov_nasa_jpf_FileState.java:175-202 | When a case fires, the gaps it keeps are exactly the gap minus the chunk's range. When none fires, the gap stays. In the corrected variant, no case firing implies no overlap. |
| ReadProofs.SplitGapCopiesOverlap | src/peers/gov/nasa/jpf/bfs/JPF_gov_nasa_jpf_FileState.java:176-199 | In the corrected variant, a case copies exactly the overlap of gap and chunk, from the matching blob position. |
| ReadProofs.SplitGapAgrees | src/peers/gov/nasa/jpf/bfs/JPF_gov_nasa_jpf_FileState.java:176-202 | The code as written splits a gap exactly as the corrected code does unless the split is one of the two anomalous ones. |
| ReadProofs.NextGapsRemovesChunk | src/peers/gov/nasa/jpf/bfs/JPF_gov_nasa_jpf_FileState.java:167-203 | After one corrected pass, a position is in a gap exactly when it was before and the chunk does not cover it. |
| ReadProofs.NextGapsOrdered | src/peers/gov/nasa/jpf/bfs/JPF_gov_nasa_jpf_FileState.java:167-203 | In either variant, a pass keeps the gaps sorted, pairwise disjoint and inside their original bounds. |
| ReadProofs.NextGapsNonEmpty | src/peers/gov/nasa/jpf/bfs/JPF_gov_nasa_jpf_FileState.java:220-225 | In either variant, a pass over non-empty gaps leaves only non-empty gaps, because addNewReadChunk drops the empty pieces. |
| ReadProofs.WalkOrdered | src/peers/gov/nasa/jpf/bfs/JPF_gov_nasa_jpf_FileState.java:160-206 | In either variant, the whole outer loop keeps the gap list sorted, disjoint and inside the read window, and non-empty if it started so. |
| ReadProofs.ReadGapsOrdered | src/peers/gov/nasa/jpf/bfs/JPF_gov_nasa_jpf_FileState.java:142-206 | For a read with a non-negative length that does not start past the end, the gaps left after the walk are sorted, disjoint and inside `[0, readBytes)`, and non-empty when `readBytes > 0`. This includes the empty starting gap of a read at the end of the file. |
| ReadProofs.NextGapsWithin | src/peers/gov/nasa/jpf/bfs/JPF_gov_nasa_jpf_FileState.java:168-203 | In either variant, no gap leaves the read window. |
| ReadProofs.ScanGapsCopiesChunk | src/peers/gov/nasa/jpf/bfs/JPF_gov_nasa_jpf_FileState.java:167-203 | A corrected pass writes the chunk's bytes at exactly the gap positions it covers and no other buffer byte. |
| ReadProofs.WalkResolvesNewest | src/peers/gov/nasa/jpf/bfs/JPF_gov_nasa_jpf_FileState.java:160-206 | Corrected walk: a position stays in the gaps exactly when no chunk covers it, so filled and open positions partition the window. A filled position holds the byte of the newest covering chunk. |
| ReadProofs.FillCopiesPristine | src/peers/gov/nasa/jpf/bfs/JPF_gov_nasa_jpf_FileState.java:253-262 | The gaps left receive the pristine byte wherever the pristine file has one, and nothing else changes. |
| ReadProofs.ReadNewestWins | src/peers/gov/nasa/jpf/bfs/JPF_gov_nasa_jpf_FileState.java:123-218 | Corrected read: it returns min(length, fileLength - startPos). Each window byte is the newest covering write, otherwise the pristine byte, otherwise left as it was. Bytes outside the window are unchanged. |
| Findings.PassAgrees | src/peers/gov/nasa/jpf/bfs/JPF_gov_nasa_jpf_FileState.java:167-203 | A pass with no anomalous split behaves the same in both variants. |
| Findings.WalkAgrees | src/peers/gov/nasa/jpf/bfs/JPF_gov_nasa_jpf_FileState.java:160-206 | A walk with no anomalous split behaves the same in both variants. |
| Findings.ReadAgrees | src/peers/gov/nasa/jpf/bfs/JPF_gov_nasa_jpf_FileState.java:152-217 | A read that meets no anomalous split gives the corrected result. |
| Findings.ReadNewestWinsAsWritten | src/peers/gov/nasa/jpf/bfs/JPF_gov_nasa_jpf_FileState.java:123-218 | The code as written satisfies the newest-write-wins theorem for every read that meets neither departure. |
| Findings.ReadYourWrite | src/peers/gov/nasa/jpf/bfs/JPF_gov_nasa_jpf_FileState.java:176-182 | As written, reading back exactly the range of a write that did not start past the end, right after it and into any part of the buffer, returns the written bytes there and leaves the rest of the buffer alone. |
| Findings.ReadBackAfterDisjointWrites | src/peers/gov/nasa/jpf/bfs/JPF_gov_nasa_jpf_FileState.java:160-206 | As written, the same read-back holds after any later writes that lie wholly before or wholly after the write's range, into any part of the buffer. |
| Findings.DisjointWriteKeepsReadBack | src/peers/gov/nasa/jpf/bfs/JPF_gov_nasa_jpf_FileState.java:43-80 | A later write that misses the range keeps the history above the range's chunk disjoint from it and the range inside the file. A past-end write is pinned to the old end, which lies at or after the range. |
| Findings.PastEndWriteUnread | src/peers/gov/nasa/jpf/bfs/JPF_gov_nasa_jpf_FileState.java:59-71 | As written, a write that starts past the end is invisible to every read that starts after the old end and reaches the new end. Such a read gives what it would give without that chunk. |
| Findings.MisplacedCopy | src/peers/gov/nasa/jpf/bfs/JPF_gov_nasa_jpf_FileState.java:177 | As written, a concrete read leaves a byte covered by a write at its old value. |
| Findings.MisplacedCopyCrash | src/peers/gov/nasa/jpf/bfs/JPF_gov_nasa_jpf_FileState.java:177 | As written, a concrete read copies a chunk past the end of the buffer, so the peer crashes. The corrected read returns normally. |
| Findings.MissedTail | src/peers/gov/nasa/jpf/bfs/JPF_gov_nasa_jpf_FileState.java:176-202 | As written, a concrete read returns pristine bytes where a write covers them. |
| Scenario.OverlappingWritesAndRollback | src/peers/gov/nasa/jpf/bfs/JPF_gov_nasa_jpf_FileState.java:43-108 | On "AAAAAAAAAA": writing "XYZ" at 2 reads back "AAXYZAAAAA". Writing "12" at 4 reads back "AAXY12AAAA". Restoring the earlier record reads back "AAXYZAAAAA". |

## Left out

- JPF_java_io_File.java (path, URL and metadata passthroughs to java.io.File) is not part of this model, and neither is BFSUtils.java (configuration and creating the cache directory). Both are plain I/O.
- `init` and `createCacheFile`: cache-file names and their uniqueness are not modelled. A chunk holds its bytes directly.
- MJIEnv field access and `throwException`: the fields form the `FileState` record, and the exception is the `Thrown` outcome.
- Java integer widths: `offset + length` is not wrapped to 32 bits, and the `(int)` casts of `skip` and of the copy positions are not truncated.
- I/O failures other than a negative seek and a buffer-bounds violation are not modelled. These include a cache file that cannot be created and a missing native file.
- Short reads are not modelled. A read obtains every byte the file has in range.
- The content of the `skip` bytes at the start of a past-end cache file is arbitrary (the `hole` parameter).
- JPF's snapshot and backtrack machinery: covered only through restoring the record (`RollbackByHead`, `Scenario.OverlappingWritesAndRollback`).
- ReadProofs.ReadNewestWins: stated for `0 <= startPos`, non-negative `offset` and `length`, and a start not past the end. A negative start is modelled in `Read` but not characterized. The pristine seek for a gap is `startPos` plus the gap's offset, so it fails only for a gap left below offset `-startPos`.
- Findings.ReadNewestWinsAsWritten: holds only for reads that meet neither departure (`CleanRead`). The two findings show that other reads violate it.

## Findings

| source | as written | input that shows it | evidently intended | confidence | as-written member | corrected member |
|---|---|---|---|---|---|---|
| src/peers/gov/nasa/jpf/bfs/JPF_gov_nasa_jpf_FileState.java:177 | Case 1 copies the chunk to buffer index `rcOff + offset + delta`. The byte lands in the wrong place, or past the end of the buffer, and then `raf.read` throws inside the peer. | File of ten 'A's, chunk "Y" at 2 written after chunk "X" at 6, read of 0..10 into a zeroed buffer. "X" lands at index 9, where the pristine fill overwrites it, and index 6 stays 0. With chunk "12" at 0 written after "34567" at 5, the same read aims the older chunk at index 7, and the peer crashes (`MisplacedCopyCrash`). | Copy to `offset + delta`, as cases 2 to 4 do. | high (not executed) | Findings.MisplacedCopy | ReadProofs.ReadNewestWins |
| src/peers/gov/nasa/jpf/bfs/JPF_gov_nasa_jpf_FileState.java:176-202 | No case fires when `delta < rcOff && writeChunkEnd == readChunkEnd`, so the gap stays open. | File of ten 'A's with "XYZ" written at 0, read of positions 1..2. It returns "AA" instead of "YZ". Every read that starts after the old end and reaches the end of a past-end write hits the same case, because the write's chunk is pinned to the old end (`PastEndWriteUnread`). | Case 4 should also take `writeChunkEnd >= readChunkEnd`. | high (not executed) | Findings.MissedTail | ReadProofs.ReadNewestWins |
