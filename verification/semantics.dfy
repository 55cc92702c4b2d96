/**
 * What fsSeek, fsRead and fsWrite do to a cursor and a file, as values: the specifications the
 * imperative operations in module FileSystem are proved against.
 */
module FileSemantics {
  import opened Blocks
  import opened Windows

  /** The `whence` codes of fsSeek (the C library's values). */
  const SEEK_SET: int := 0
  const SEEK_CUR: int := 1
  const SEEK_END: int := 2

  /** Largest value of the i32 in which fs.c computes cursor + numb. */
  const MAX_I32: int := 0x7FFF_FFFF

  /** The conditions on which fs.c aborts the process (FATAL(EBADCURS), FATAL(EBADWHENCE)). */
  datatype Error = BadCursor | BadWhence

  /** A value, or the fatal condition that aborts the operation. */
  datatype Result<T> = Ok(value: T) | Fatal(error: Error)

  /**
   * The cursor fsSeek sets. A negative raw offset is fatal whatever `whence` is, even where the
   * resulting position would not be negative, so relative seeks never move backwards; an unknown
   * `whence` is fatal too.
   */
  function SeekTarget(curs: nat, size: nat, offset: int, whence: int): (r: Result<nat>)
    ensures offset < 0 ==> r == Fatal(BadCursor)
    ensures r.Ok? <==> offset >= 0 && (whence == SEEK_SET || whence == SEEK_CUR || whence == SEEK_END)
    ensures offset >= 0 && r.Fatal? ==> r.error == BadWhence
    ensures r.Ok? ==> r.value >= offset
    ensures r.Ok? && whence == SEEK_CUR ==> r.value >= curs
    ensures r.Ok? && whence == SEEK_END ==> r.value >= size
  {
    if offset < 0 then Fatal(BadCursor)
    else if whence == SEEK_SET then Ok(offset)
    else if whence == SEEK_CUR then Ok(curs + offset)
    else if whence == SEEK_END then Ok(size + offset)
    else Fatal(BadWhence)
  }

  /**
   * The number of bytes fsRead returns: the request clamped to end-of-file. A cursor past
   * end-of-file makes the clamped count negative, which the advancing fsSeek rejects.
   */
  function ReadCount(curs: nat, size: nat, numb: nat): (r: Result<nat>)
    ensures r.Ok? <==> curs <= size
    ensures r.Fatal? ==> r.error == BadCursor
    ensures r.Ok? ==> r.value <= numb && curs + r.value <= size
    ensures r.Ok? ==> r.value == numb || curs + r.value == size
  {
    var n := if curs + numb > size then size - curs else numb;
    if n < 0 then Fatal(BadCursor) else Ok(n)
  }

  /** A file as the engine sees it: its allocated blocks in FBN order and its size in bytes. */
  datatype Image = Image(blocks: seq<Block>, size: nat)
  {
    /**
     * The allocation reaches the block holding offset `size`, the last block a read or an
     * in-bounds write may visit.
     */
    predicate Covers() { size / BYTESPERBLOCK < |blocks| }
  }

  /**
   * The file after fsWrite puts `data` at `cursor`: when the write runs past end-of-file the
   * allocation is first extended through FBN (cursor + |data|) / BYTESPERBLOCK and the size
   * becomes cursor + |data|; then each block of the range is rewritten with its window patched.
   */
  function AfterWrite(img: Image, cursor: nat, data: seq<byte>, alloc: nat -> Block): (r: Image)
    ensures r.size == Max(img.size, cursor + |data|)
    ensures |r.blocks| >= |img.blocks|
    ensures cursor + |data| > img.size ==> |r.blocks| > (cursor + |data|) / BYTESPERBLOCK
    ensures img.Covers() ==> r.Covers()
  {
    var end := cursor + |data|;
    var blocks := if end > img.size then ExtendTo(img.blocks, end / BYTESPERBLOCK, alloc) else img.blocks;
    Image(Written(blocks, cursor, data), if end > img.size then end else img.size)
  }

  /** A file whose allocation covers its size holds every byte below the size. */
  lemma CoveredBytes(img: Image)
    requires img.Covers()
    ensures img.size <= |img.blocks| * BYTESPERBLOCK
  {
    var q := img.size / BYTESPERBLOCK;
    assert img.size < (q + 1) * BYTESPERBLOCK;
  }

  /**
   * Write then read: after `data` is written at `cursor`, a read of |data| bytes from `cursor`
   * is not clamped and returns exactly `data`.
   */
  lemma WriteThenRead(img: Image, cursor: nat, data: seq<byte>, alloc: nat -> Block)
    requires img.Covers()
    ensures var r := AfterWrite(img, cursor, data, alloc);
      && ReadCount(cursor, r.size, |data|) == Ok(|data|)
      && cursor + |data| <= |r.blocks| * BYTESPERBLOCK
      && Slice(r.blocks, cursor, |data|) == data
  {
    var end := cursor + |data|;
    var blocks := if end > img.size then ExtendTo(img.blocks, end / BYTESPERBLOCK, alloc) else img.blocks;
    CoveredBytes(Image(blocks, Max(img.size, end)));
    SliceOfWritten(blocks, cursor, data);
  }

  /**
   * Read-modify-write leaves the rest of the file alone: every byte of the old allocation
   * outside [cursor, cursor + |data|) keeps its value.
   */
  lemma WriteKeepsOtherBytes(img: Image, cursor: nat, data: seq<byte>, alloc: nat -> Block)
    ensures var r := AfterWrite(img, cursor, data, alloc);
      forall k | 0 <= k < |img.blocks| * BYTESPERBLOCK && !(cursor <= k < cursor + |data|) ::
        ByteAt(r.blocks, k) == ByteAt(img.blocks, k)
  {
    var end := cursor + |data|;
    var blocks := if end > img.size then ExtendTo(img.blocks, end / BYTESPERBLOCK, alloc) else img.blocks;
    ExtendKeepsBytes(img.blocks, end / BYTESPERBLOCK, alloc);
    WrittenBytes(blocks, cursor, data);
  }

  /**
   * Write then read past the end: when the write reaches end-of-file, a read of any `m >= |data|`
   * bytes from `cursor` is clamped to exactly |data| bytes, and they are `data`.
   */
  lemma WriteThenReadToEnd(img: Image, cursor: nat, data: seq<byte>, alloc: nat -> Block, m: nat)
    requires img.Covers() && img.size <= cursor + |data| && |data| <= m
    ensures var r := AfterWrite(img, cursor, data, alloc);
      && r.size == cursor + |data|
      && ReadCount(cursor, r.size, m) == Ok(|data|)
      && cursor + |data| <= |r.blocks| * BYTESPERBLOCK
      && Slice(r.blocks, cursor, |data|) == data
  {
    WriteThenRead(img, cursor, data, alloc);
  }
}
