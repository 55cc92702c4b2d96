/** Bytes, fixed-size blocks, and what a read-modify-write of a byte range does to a file's blocks. */
module Blocks {

  /** Size of every logical and physical block (BYTESPERBLOCK in bfs.h). */
  const BYTESPERBLOCK: nat := 512

  newtype byte = x: int | 0 <= x < 256

  /** One whole block, as the block layer reads and writes it: no partial-block I/O. */
  type Block = b: seq<byte> | |b| == BYTESPERBLOCK witness seq(BYTESPERBLOCK, _ => 0)

  /** Byte `k` of a file whose blocks, in FBN order, are `blocks`: byte k lives in FBN k / BYTESPERBLOCK. */
  function ByteAt(blocks: seq<Block>, k: nat): byte
    requires k < |blocks| * BYTESPERBLOCK
  {
    blocks[k / BYTESPERBLOCK][k % BYTESPERBLOCK]
  }

  /** The `n` file bytes starting at offset `from`. */
  function Slice(blocks: seq<Block>, from: nat, n: nat): seq<byte>
    requires from + n <= |blocks| * BYTESPERBLOCK
  {
    seq(n, i requires 0 <= i < n => ByteAt(blocks, from + i))
  }

  /** Offset j of FBN fbn is file byte fbn * BYTESPERBLOCK + j, and back. */
  lemma Locate(fbn: nat, j: int)
    requires 0 <= j < BYTESPERBLOCK
    ensures (fbn * BYTESPERBLOCK + j) / BYTESPERBLOCK == fbn
    ensures (fbn * BYTESPERBLOCK + j) % BYTESPERBLOCK == j
  {
  }

  /**
   * Block `fbn` after the bytes [cursor, cursor + |data|) of the file are replaced by `data`:
   * a block wholly outside that range keeps its bytes, a block wholly inside it becomes the
   * matching stretch of `data`.
   */
  function Patch(block: Block, fbn: nat, cursor: nat, data: seq<byte>): (r: Block)
    ensures (fbn + 1) * BYTESPERBLOCK <= cursor || cursor + |data| <= fbn * BYTESPERBLOCK ==> r == block
    ensures cursor <= fbn * BYTESPERBLOCK && (fbn + 1) * BYTESPERBLOCK <= cursor + |data| ==>
      r == data[fbn * BYTESPERBLOCK - cursor..(fbn + 1) * BYTESPERBLOCK - cursor]
  {
    seq(BYTESPERBLOCK, j requires 0 <= j < BYTESPERBLOCK =>
      if cursor <= fbn * BYTESPERBLOCK + j < cursor + |data| then data[fbn * BYTESPERBLOCK + j - cursor] else block[j])
  }

  /** The file's blocks after `data` is written at offset `cursor`, block by block. */
  function Written(blocks: seq<Block>, cursor: nat, data: seq<byte>): (r: seq<Block>)
    ensures |r| == |blocks|
    ensures forall b | 0 <= b < |blocks| && ((b + 1) * BYTESPERBLOCK <= cursor || cursor + |data| <= b * BYTESPERBLOCK) ::
      r[b] == blocks[b]
  {
    seq(|blocks|, b requires 0 <= b < |blocks| => Patch(blocks[b], b, cursor, data))
  }

  /**
   * The allocation after it is extended to cover FBN `lastFbn` (bfsExtend). Each block it adds,
   * FBN b, holds `alloc(b)`: whatever the allocator hands out, which this layer does not define.
   */
  function ExtendTo(blocks: seq<Block>, lastFbn: nat, alloc: nat -> Block): (r: seq<Block>)
    ensures |r| == if lastFbn < |blocks| then |blocks| else lastFbn + 1
    ensures r[..|blocks|] == blocks
    ensures forall b | |blocks| <= b < |r| :: r[b] == alloc(b)
  {
    if lastFbn < |blocks| then blocks
    else blocks + seq(lastFbn + 1 - |blocks|, i requires 0 <= i => alloc(|blocks| + i))
  }

  /**
   * Byte-level meaning of Written: every byte in [cursor, cursor + |data|) is the matching byte
   * of `data`, and every other byte of every block is unchanged.
   */
  lemma WrittenBytes(blocks: seq<Block>, cursor: nat, data: seq<byte>)
    ensures forall k | 0 <= k < |blocks| * BYTESPERBLOCK ::
      ByteAt(Written(blocks, cursor, data), k)
        == if cursor <= k < cursor + |data| then data[k - cursor] else ByteAt(blocks, k)
  {
    forall k | 0 <= k < |blocks| * BYTESPERBLOCK
      ensures ByteAt(Written(blocks, cursor, data), k)
        == if cursor <= k < cursor + |data| then data[k - cursor] else ByteAt(blocks, k)
    {
      var fbn, j := k / BYTESPERBLOCK, k % BYTESPERBLOCK;
      assert k == fbn * BYTESPERBLOCK + j;
      assert Written(blocks, cursor, data)[fbn] == Patch(blocks[fbn], fbn, cursor, data);
    }
  }

  /** Round trip: reading back the written range yields exactly the data written. */
  lemma {:induction false} SliceOfWritten(blocks: seq<Block>, cursor: nat, data: seq<byte>)
    requires cursor + |data| <= |blocks| * BYTESPERBLOCK
    ensures Slice(Written(blocks, cursor, data), cursor, |data|) == data
  {
    WrittenBytes(blocks, cursor, data);
  }

  /** Extending the allocation leaves every existing byte of the file as it was. */
  lemma ExtendKeepsBytes(blocks: seq<Block>, lastFbn: nat, alloc: nat -> Block)
    ensures forall k | 0 <= k < |blocks| * BYTESPERBLOCK ::
      ByteAt(ExtendTo(blocks, lastFbn, alloc), k) == ByteAt(blocks, k)
  {
    var r := ExtendTo(blocks, lastFbn, alloc);
    forall k | 0 <= k < |blocks| * BYTESPERBLOCK
      ensures ByteAt(r, k) == ByteAt(blocks, k)
    {
      assert r[k / BYTESPERBLOCK] == r[..|blocks|][k / BYTESPERBLOCK];
    }
  }
}
