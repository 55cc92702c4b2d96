# Byte-range read/write engine of the BFS file API, in Dafny

This project models the user-facing file API of `fs.c`. That API sits on a whole-block storage layer (BFS). The core is the byte-range engine:

- `fsRead` and `fsWrite` turn a cursor and a length into a walk over file block numbers (FBN). In each block they copy the intra-block window `[startBuff, endBuff)`.
- `fsWrite` does a read-modify-write on each block. When a write runs past end-of-file, it first extends the allocation and sets the size.
- `fsSeek` moves the cursor of an open-file-table entry from `SEEK_SET`, `SEEK_CUR` or `SEEK_END`.
- Around these sit the accessors `fsTell` and `fsSize`, the EFNF pass-through of `fsOpen` and `fsCreate`, and `fsClose`.

Modules, leaves first:

- `Blocks` (`blocks.dfy`): bytes, fixed-size blocks (`BYTESPERBLOCK` = 512), and the byte view of a file (`ByteAt`, `Slice`). It also defines what a write does to the blocks: `Patch` for one block, `Written` for all of them, and `ExtendTo` for `bfsExtend`. Lemmas give their byte-level meaning and the write/read round trip.
- `Windows` (`windows.dfy`): the block walk. `SourceWindow` is the `startBuff`/`endBuff` formula of fs.c:97/99 and fs.c:188/190. `Reached` is the closed form of `currCursor`, and `Walk` is the loop written as a recursion. Both block loops in `FileSystem` return, as a ghost result, the windows they visited, proved equal to `Visited`, so the walk lemmas are about the loops themselves. The lemmas prove that the windows partition `[cursor, cursor + numb)`. They also pin down the extra, empty iteration that happens when the range ends on a block boundary.
- `FileSemantics` (`semantics.dfy`): the specifications the imperative code is proved against. `SeekTarget` gives the cursor `fsSeek` sets, `ReadCount` the clamped count `fsRead` returns, and `AfterWrite` the file `fsWrite` leaves. The module also holds the round-trip and frame lemmas over them.
- `FileSystem` (`fs.dfy`): the state, as classes.
  - `Inode` holds the size and the blocks the block layer keeps. Its `Valid()` says that the allocation reaches the block holding offset `size`.
  - `OpenFile` is an open-file-table entry with its mutable `curs`.
  - `OpenFileTable` maps descriptors to entries. Its `Valid()` requires that no two descriptors share an entry, so every cursor is independent.
  - `fsRead`, `fsWrite` and `fsSeek` are methods that change these objects in place. The two block loops keep the source's scratch array `bioBuff`.
  - Two client methods, `CreateWriteReopenRead` and `ReopenAndRead`, run through one scenario using only the contracts: create, write 10 bytes, close, reopen, read 20 bytes. The read gets the 10 bytes back, and the size is 10.

`FATAL` becomes the `Fatal(BadCursor)` / `Fatal(BadWhence)` variant of `Result`. EFNF becomes `NotFound`. The collaborators whose source is not part of this model are stand-in methods on `Inode`: `bfsRead`, `bioWrite`/`bfsFbnToDbn`, `bfsExtend` and `bfsSetSize`. A block is addressed by its FBN, and `bfsRead(inum, fbn)` returns the block stored for that FBN.

## Model

| member | source | states |
|---|---|---|
| `FileSystem.OpenFileTable.Read` | fs.c:85-106 | The result is `ReadCount(cursor, size, numb)`. On `Ok(n)`: `buf[..n]` holds the file bytes `[cursor, cursor + n)`, the rest of `buf` is untouched, and the cursor advances by exactly `n`. A cursor past end-of-file is fatal and changes nothing. The file is never modified, and every other descriptor's cursor is unchanged. |
| `FileSemantics.ReadCount` | fs.c:87-90 | The read succeeds exactly when `cursor <= size`. The count never exceeds the request and never reads past end-of-file. It equals the request unless it was clamped to end at end-of-file, so it is `min(numb, size - cursor)`. At `cursor == size` it is 0. |
| `FileSystem.Inode.ReadRange` | fs.c:93-103 | The block loop of `fsRead` leaves `buf[..n] == Slice(blocks, cursor, n)` and `buf[n..]` as it was. The windows it visits are exactly `Visited(cursor, n)`. Loop invariant: the bytes copied so far are exactly the file bytes from `cursor` up to `currCursor`. |
| `FileSystem.Inode.CopyWindow` | fs.c:96-100 | One iteration of the read loop puts each byte of the block's window at its place in `buf`, measured from `cursor`, and leaves every other byte of `buf` as it was. |
| `FileSystem.Inode.ReadBlock` | fs.c:96 | The scratch buffer receives the whole of block `fbn`. |
| `FileSystem.Memcpy` | fs.c:100 | `dst` is its old prefix, then `len` bytes of `src` from `srcOff`, then its old suffix. |
| `FileSystem.OpenFileTable.Write` | fs.c:172-198 | The file becomes `AfterWrite(old file, cursor, buf[..numb], alloc)`. The cursor advances by `numb`, the result is 0, and the allocation invariant is kept. Every other descriptor's cursor is unchanged. |
| `FileSystem.Inode.WriteAt` | fs.c:176-195 | The file-changing part of `fsWrite`, meaning the extension at fs.c:178-181 followed by the block loop, leaves the file equal to `AfterWrite` of what it was, and keeps the inode invariant. |
| `FileSemantics.AfterWrite` | fs.c:177-181 | The new size is `max(size, cursor + numb)`. A write past end-of-file leaves the allocation reaching FBN `(cursor + numb) / BYTESPERBLOCK`. The allocation never shrinks, and a file whose allocation covered its size still does. |
| `FileSystem.Inode.Extend` | fs.c:179 | The blocks become `ExtendTo(old blocks, lastFbn, alloc)`; the size is unchanged. |
| `FileSystem.Inode.SetSize` | fs.c:180 | The size becomes `n`; the blocks are unchanged. |
| `FileSystem.Inode.WriteRange` | fs.c:183-195 | The block loop of `fsWrite` leaves the blocks equal to `Written(old blocks, cursor, buf[..numb])`, and the windows it visits are exactly `Visited(cursor, numb)`. Loop invariant: the blocks visited so far are patched and all others are as they were. |
| `FileSystem.Inode.PatchBlock` | fs.c:186-192 | One read-modify-write changes block `w.fbn` into `Patch` of its old value, given that `w` is the part of the range this block holds. No other block changes. |
| `FileSystem.Inode.WriteBlock` | fs.c:192 | Block `fbn` becomes the scratch buffer; no other block or the size changes. |
| `FileSystem.OpenFileTable.Seek` | fs.c:119-142 | The cursor becomes `SeekTarget(...)` when that is `Ok`. Otherwise the matching fatal error is returned and the cursor is unchanged. The inode, its size included, is unchanged either way, and so is every other descriptor's cursor. |
| `FileSemantics.SeekTarget` | fs.c:121-140 | A negative offset is `BadCursor` for every `whence`. Success happens exactly for a non-negative offset with `SEEK_SET`, `SEEK_CUR` or `SEEK_END`. Any other `whence` is `BadWhence`. The new cursor is never below the offset. `SEEK_CUR` never moves backwards, and `SEEK_END` never lands before the size. |
| `FileSystem.OpenFileTable.Tell` | fs.c:149-151 | Returns the entry's cursor, the offset where the next read or write starts. |
| `FileSystem.OpenFileTable.Size` | fs.c:160-163 | Returns the size of the inode open on the descriptor. |
| `FileSystem.OpenFileTable.Open` | fs.c:72-76 | A lookup miss gives `NotFound` and leaves the table unchanged. A hit binds a new descriptor to a fresh entry for that inode, with the cursor at 0, and leaves every other entry as it was. |
| `FileSystem.OpenFileTable.Create` | fs.c:23-27 | The same pass-through for the inode the directory created: `NotFound` leaves the table alone, and success binds a fresh descriptor. |
| `FileSystem.OpenFileTable.Close` | fs.c:11-15 | The descriptor's entry is released, the result is 0, and the inode is untouched. |
| `FileSystem.OpenFileTable.Bind` | fs.c:26 | The descriptor is new, its entry is fresh and refers to the given inode with cursor 0, and the other bindings are unchanged. |
| `Windows.SourceWindow` | fs.c:97-99 | The window starts at `currCursor`. It ends at the end of the range or the end of the block, whichever comes first. |
| `Windows.StepWindow` | fs.c:95-102 | At each block the loop visits, the window satisfies `0 <= startBuff <= endBuff <= BYTESPERBLOCK`. It is exactly the part of the range held by the block, and it moves `currCursor` to the value it has at the next block. |
| `Windows.Reached` | fs.c:94-101 | `currCursor` on arrival at block `fbn` stays within `[cursor, cursor + numb]`. Unless the range is exhausted, it is at or past the first byte of block `fbn`. Once it has moved past `cursor`, it is at most that first byte. So the range bytes below it lie in earlier blocks, and the ones from it on lie in block `fbn` or later. |
| `Windows.Walk` | fs.c:95-103 | The loop as a recursion visits one window per block from `fbn` through `lastFbn`, in FBN order, and none when `fbn > lastFbn`. |
| `Windows.Visited` | fs.c:89-103 | The whole walk has one window per block from `cursor / BYTESPERBLOCK` through `(cursor + numb) / BYTESPERBLOCK`, with block numbers in order. The first window starts at `cursor`. |
| `Windows.WalkFrom` | fs.c:95-103 | From block `fbn` on, the loop visits one window per remaining block, and each window is the source formula evaluated at `Reached` for that block (proved by induction). |
| `Windows.WalkLength` | fs.c:95-103 | The window lengths from block `fbn` on sum to the bytes still to copy (proved by induction). |
| `Windows.VisitTrace` | fs.c:97-102 | The window one loop iteration computes at the next block extends the windows visited so far to the next prefix of `Visited`. |
| `Windows.VisitedAt` | fs.c:95-103 | Window `i` of the walk belongs to block `cursor / BYTESPERBLOCK + i`. It lies inside that block and spans the part of the range the block holds. |
| `Windows.WindowsChain` | fs.c:95-103 | There is one window per block from the first FBN to the last. The first window starts at `cursor`, each window starts where the previous one ended, and the last ends at `cursor + numb`. |
| `Windows.WindowsLocate` | fs.c:95-100 | A byte of the range lies in a window exactly when that window belongs to the byte's own block, so no byte is duplicated or skipped. |
| `Windows.WindowsPartition` | fs.c:95-103 | The windows partition `[cursor, cursor + numb)`: they are contiguous and non-overlapping, their lengths sum to `numb`, and `currCursor` ends at `cursor + numb`. |
| `Windows.EmptyOnlyAtBoundary` | fs.c:91-95 | Every window but the last copies at least one byte. The last is empty exactly when `numb == 0` or `cursor + numb` lies on a block boundary. That is the extra iteration on block `lastFBN`. |
| `Windows.PatchWindow` | fs.c:187-191 | Overwriting the window of a block with the matching part of the data is `Patch` of that block. |
| `Windows.WrittenByWalk` | fs.c:185-195 | Patching only the blocks the walk visits amounts to `Written`: no block outside the walk holds a byte of the range. |
| `Blocks.ExtendTo` | fs.c:179 | After extension the allocation reaches `lastFbn` and the old blocks are kept as a prefix. Each new block, FBN `b`, holds `alloc(b)`, what the allocator supplied for it. |
| `Blocks.ExtendKeepsBytes` | fs.c:179 | Extension leaves every existing byte of the file as it was. |
| `Blocks.Patch` | fs.c:187-191 | The read-modify-write of one block leaves a block wholly outside the written range exactly as it was. A block wholly inside the range becomes the matching stretch of the data. |
| `Blocks.Written` | fs.c:185-195 | A write leaves the number of blocks unchanged, and every block wholly outside the written range keeps its contents. |
| `Blocks.WrittenBytes` | fs.c:185-195 | Every byte in `[cursor, cursor + numb)` becomes the matching byte of the data. Every other byte of every block is unchanged. |
| `Blocks.SliceOfWritten` | fs.c:172-198 | Reading back the written range yields exactly the data written. |
| `FileSemantics.WriteThenRead` | fs.c:172-198 | After `fsWrite` of `data` at `cursor`, a read of `|data|` bytes from `cursor` is not clamped and returns `data`. |
| `FileSemantics.WriteThenReadToEnd` | fs.c:85-106 | When the write reaches end-of-file, the size becomes exactly `cursor + |data|`. A longer read from `cursor` is then clamped to `|data|` bytes, which are `data`. |
| `FileSemantics.WriteKeepsOtherBytes` | fs.c:185-195 | `fsWrite` keeps every byte of the old allocation outside the written range. |

## Left out

- `fsFormat` and `fsMount` (fs.c:35-64) are not modelled. They open and close the backing file and call the block layer's initialisation routines: pure I/O, and a failure exits the process.
- The block layer itself is not part of this model: `bfs.c`, `bfs.h`, and the inode, free-list and directory code. `BYTESPERBLOCK` is taken to be 512, BFS's value. The proofs depend only on it being a positive constant.
- The FBN-to-DBN translation (`bfsFbnToDbn`) is folded into addressing blocks by FBN. The model assumes that distinct FBNs of a file are stored in distinct physical blocks.
- Descriptor binding (`bfsInumToFd`, `bfsFdToInum`, `bfsFindOFTE`, `bfsDerefOFT`) is bfs's. The model binds each successful open to a fresh entry with its cursor at 0, no two descriptors share an entry, and `fsClose` just releases the entry. fs.c reaches an entry through its inode number (fs.c:123-124), so bfs may keep one shared, reference-counted entry per inode. That sharing and the table's capacity limit are not modelled.
- Creating a file (`bfsCreateFile`, `bfsLookupFile`) is an input to `Open`/`Create`: the inode found, or none for EFNF. The model assumes a file comes with its size's block allocated, as `Inode.Valid()` requires.
- The contents of blocks that `bfsExtend` allocates are a parameter, `alloc`, giving the block handed out for each new FBN, because this layer does not define them. Bytes between the old size and a write that starts past end-of-file are therefore not asserted to be zero.
- A failure of `bfsExtend`, which is fatal in the block layer, is not modelled.
- `FileSystem.OpenFileTable.Read`: with the cursor past end-of-file the model returns `Fatal(BadCursor)` and changes nothing. The source computes a negative count at fs.c:90. If no block is visited, it then aborts in the `fsSeek` of fs.c:104. Otherwise it first calls `memcpy` with a negative length, which is undefined and is not modelled.
- `FileSystem.OpenFileTable.Read` and `FileSystem.OpenFileTable.Write` take `numb` as a natural number. A negative `i32` length is not modelled.
- `FileSystem.OpenFileTable.Read` and `FileSystem.OpenFileTable.Write` require `cursor + numb` to fit in an `i32`. Integers are otherwise unbounded.
- `FileSystem.OpenFileTable.Seek`: the 32-bit wrap-around of `curs + offset` and `size + offset` is not modelled.
- Seeking never changes the size. Growing a file by seeking past its end is not something fs.c does (fs.c:126-140), although the comment on `fsSize` mentions it.
- Concurrency is not modelled: the source is single-threaded and its table has no locking.
