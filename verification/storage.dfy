/** The blob store and the byte transfers of java.io.RandomAccessFile, with
    files abstracted to byte sequences. */
module Storage {
  import opened Outcomes

  /** A Java byte. */
  newtype byte = b: int | -128 <= b < 128

  /** Number of bytes a read of `count` bytes at position `src` obtains from a
      file of `size` bytes: a full read of what is there, nothing past the end. */
  function Available(size: int, src: int, count: int): (n: int)
    requires 0 <= src && 0 <= count
    ensures 0 <= n <= count
    ensures n > 0 ==> src + n <= size
    ensures n < count ==> src + n >= size
  {
    if src >= size then 0
    else if size - src < count then size - src
    else count
  }

  /** `raf.seek(src); raf.read(buf, dst, count)` on a file holding `source`.
      A negative seek position or a destination range outside `buf` makes
      java.io throw; otherwise byte `j` of the window receives the source byte
      at the matching position when the file has one, and every other byte of
      `buf` keeps its value. */
  function Transfer(buf: seq<byte>, source: seq<byte>, src: int, dst: int, count: int): (r: Result<seq<byte>>)
    ensures r.Ok? <==> 0 <= src && 0 <= dst && 0 <= count && dst + count <= |buf|
    ensures r.Ok? ==> |r.value| == |buf|
    ensures r.Ok? ==> forall j :: 0 <= j < |buf| ==>
      r.value[j] == if dst <= j < dst + count && src + (j - dst) < |source|
                    then source[src + (j - dst)] else buf[j]
  {
    if src < 0 || dst < 0 || count < 0 || dst + count > |buf| then Fault
    else
      var n := Available(|source|, src, count);
      if n == 0 then Ok(buf)
      else Ok(buf[..dst] + source[src..src + n] + buf[dst + n..])
  }

  /** The content of a fresh cache file after `raf.seek(skip); raf.write(data,
      offset, length)`: `skip` bytes whose value java.io leaves unspecified
      (supplied by `hole`), then the written bytes. */
  function StoreBlob(skip: nat, hole: int -> byte, data: seq<byte>, offset: nat, length: nat): (blob: seq<byte>)
    requires offset + length <= |data|
    ensures |blob| == skip + length
    ensures blob[skip..] == data[offset..offset + length]
    ensures forall i :: 0 <= i < skip ==> blob[i] == hole(i)
  {
    seq(skip, i => hole(i)) + data[offset..offset + length]
  }
}
