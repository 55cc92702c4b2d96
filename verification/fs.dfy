/**
 * The user file API of fs.c over the block layer: descriptors bound to open-file-table entries,
 * the cursor each entry carries, and the byte-range read and write engine.
 */
module FileSystem {
  import opened Blocks
  import opened Windows
  import opened FileSemantics

  /** A file descriptor handed to callers. */
  type Fd = nat

  /** The outcome of fsOpen / fsCreate: a descriptor, or EFNF when the name has no file. */
  datatype Opened = Descriptor(fd: Fd) | NotFound

  /** An inode as the block layer keeps it: its size and its allocated blocks, in FBN order. */
  class Inode {
    var size: nat
    var blocks: seq<Block>

    /** The file as a value: its blocks and its size. */
    ghost function AsImage(): FileSemantics.Image
      reads this
    {
      FileSemantics.Image(blocks, size)
    }

    /** The inode invariant: the allocation reaches the block holding offset `size`. */
    ghost predicate Valid()
      reads this
    {
      AsImage().Covers()
    }

    /** A file as the block layer creates it: `size` bytes over the blocks `blocks`. */
    constructor (blocks: seq<Block>, size: nat)
      requires size / BYTESPERBLOCK < |blocks|
      ensures Valid() && this.blocks == blocks && this.size == size
    {
      this.blocks := blocks;
      this.size := size;
    }

    /** bfsRead: the whole block `fbn` into `dst`. */
    method ReadBlock(fbn: nat, dst: array<byte>)
      requires fbn < |blocks| && dst.Length == BYTESPERBLOCK
      modifies dst
      ensures dst[..] == blocks[fbn]
    {
      forall j | 0 <= j < BYTESPERBLOCK {
        dst[j] := blocks[fbn][j];
      }
    }

    /** bioWrite at bfsFbnToDbn(inum, fbn): the whole of `src` becomes block `fbn`. */
    method WriteBlock(fbn: nat, src: array<byte>)
      requires fbn < |blocks| && src.Length == BYTESPERBLOCK
      modifies this
      ensures blocks == old(blocks)[fbn := src[..]] && size == old(size)
    {
      blocks := blocks[fbn := src[..]];
    }

    /**
     * The block loop of fsRead (fs.c:93-103): walk FBN cursor / BYTESPERBLOCK through
     * (cursor + n) / BYTESPERBLOCK, read each whole block into the scratch buffer and copy its
     * window out, so that buf[..n] holds the file bytes from `cursor` and the rest of buf is untouched.
     */
    method ReadRange(cursor: nat, n: nat, buf: array<byte>) returns (ghost windows: seq<Window>)
      requires (cursor + n) / BYTESPERBLOCK < |blocks| && n <= buf.Length
      modifies buf
      ensures cursor + n <= |blocks| * BYTESPERBLOCK
      ensures buf[..n] == Slice(blocks, cursor, n) && buf[n..] == old(buf[n..])
      ensures windows == Visited(cursor, n)
    {
      ghost var first := cursor / BYTESPERBLOCK;
      windows := [];
      var currFbn := cursor / BYTESPERBLOCK;
      var lastFbn := (cursor + n) / BYTESPERBLOCK;
      assert cursor + n < (lastFbn + 1) * BYTESPERBLOCK;
      var bioBuff := new byte[BYTESPERBLOCK];
      var currCursor := cursor;
      while currFbn <= lastFbn
        invariant cursor / BYTESPERBLOCK <= currFbn <= lastFbn + 1
        invariant currCursor == Reached(cursor, n, currFbn)
        invariant forall i | 0 <= i < currCursor - cursor :: buf[i] == ByteAt(blocks, cursor + i)
        invariant forall i | currCursor - cursor <= i < buf.Length :: buf[i] == old(buf[i])
        invariant Traced(cursor, n, windows) && |windows| == currFbn - first
        modifies buf, bioBuff
        decreases lastFbn + 1 - currFbn
      {
        StepWindow(cursor, n, currFbn);
        var w := SourceWindow(cursor, n, currCursor, currFbn);
        VisitTrace(cursor, n, windows, w);
        windows := windows + [w];
        CopyWindow(cursor, buf, w, bioBuff);
        currCursor := currCursor + (w.end - w.start);
        currFbn := currFbn + 1;
      }
      TraceComplete(cursor, n, windows);
      assert buf[..n] == Slice(blocks, cursor, n);
    }

    /**
     * One iteration of fsRead's block loop (fs.c:96-100): read block w.fbn whole into the
     * scratch buffer and copy its window out to buf, at the place of its bytes in the range
     * that starts at `cursor`; the rest of buf is untouched.
     */
    method CopyWindow(cursor: nat, buf: array<byte>, w: Window, bioBuff: array<byte>)
      requires w.fbn < |blocks| && bioBuff.Length == BYTESPERBLOCK && bioBuff != buf
      requires 0 <= w.start <= w.end <= BYTESPERBLOCK && cursor <= AbsStart(w) && AbsEnd(w) - cursor <= buf.Length
      modifies buf, bioBuff
      ensures AbsEnd(w) <= |blocks| * BYTESPERBLOCK
      ensures forall i | AbsStart(w) - cursor <= i < AbsEnd(w) - cursor :: buf[i] == ByteAt(blocks, cursor + i)
      ensures forall i | 0 <= i < buf.Length && !(AbsStart(w) - cursor <= i < AbsEnd(w) - cursor) ::
        buf[i] == old(buf[i])
    {
      ReadBlock(w.fbn, bioBuff);
      ghost var before := buf[..];
      var off := AbsStart(w) - cursor;
      Memcpy(buf, off, bioBuff, w.start, w.end - w.start);
      forall i | off <= i < AbsEnd(w) - cursor
        ensures buf[i] == ByteAt(blocks, cursor + i)
      {
        var j := w.start + (i - off);
        Locate(w.fbn, j);
        assert buf[..][i] == bioBuff[j];
      }
      forall i | 0 <= i < buf.Length && !(off <= i < AbsEnd(w) - cursor)
        ensures buf[i] == old(buf[i])
      {
        assert buf[..][i] == before[i];
      }
    }

    /**
     * One iteration of fsWrite's block loop (fs.c:186-192): read block w.fbn whole into the
     * scratch buffer, overwrite its window with the next bytes of buf, and write it back.
     */
    method PatchBlock(cursor: nat, numb: nat, buf: array<byte>, w: Window, bioBuff: array<byte>)
      requires w.fbn < |blocks| && numb <= buf.Length && bioBuff.Length == BYTESPERBLOCK && bioBuff != buf
      requires 0 <= w.start <= w.end <= BYTESPERBLOCK
      requires AbsStart(w) == Max(cursor, w.fbn * BYTESPERBLOCK)
      requires AbsEnd(w) == Min(cursor + numb, (w.fbn + 1) * BYTESPERBLOCK)
      modifies this, bioBuff
      ensures blocks == old(blocks)[w.fbn := Patch(old(blocks)[w.fbn], w.fbn, cursor, buf[..numb])]
      ensures size == old(size)
    {
      ReadBlock(w.fbn, bioBuff);
      PatchWindow(blocks[w.fbn], cursor, buf[..numb], w);
      Memcpy(bioBuff, w.start, buf, AbsStart(w) - cursor, w.end - w.start);
      assert buf[AbsStart(w) - cursor..AbsEnd(w) - cursor] == buf[..numb][AbsStart(w) - cursor..AbsEnd(w) - cursor];
      WriteBlock(w.fbn, bioBuff);
    }

    /**
     * The block loop of fsWrite (fs.c:183-195): walk FBN cursor / BYTESPERBLOCK through
     * (cursor + numb) / BYTESPERBLOCK patching each block, so that the file's blocks become
     * Written(blocks, cursor, buf[..numb]).
     */
    method WriteRange(cursor: nat, numb: nat, buf: array<byte>) returns (ghost windows: seq<Window>)
      requires (cursor + numb) / BYTESPERBLOCK < |blocks| && numb <= buf.Length
      modifies this
      ensures blocks == Written(old(blocks), cursor, buf[..numb]) && size == old(size)
      ensures windows == Visited(cursor, numb)
    {
      ghost var first := cursor / BYTESPERBLOCK;
      windows := [];
      var currFbn := cursor / BYTESPERBLOCK;
      var lastFbn := (cursor + numb) / BYTESPERBLOCK;
      ghost var base := blocks;
      var bioBuff := new byte[BYTESPERBLOCK];
      var currCursor := cursor;
      while currFbn <= lastFbn
        invariant cursor / BYTESPERBLOCK <= currFbn <= lastFbn + 1
        invariant currCursor == Reached(cursor, numb, currFbn)
        invariant |blocks| == |base| && size == old(size)
        invariant forall b | 0 <= b < |base| ::
          blocks[b] == if cursor / BYTESPERBLOCK <= b < currFbn then Patch(base[b], b, cursor, buf[..numb]) else base[b]
        invariant Traced(cursor, numb, windows) && |windows| == currFbn - first
        modifies this, bioBuff
        decreases lastFbn + 1 - currFbn
      {
        StepWindow(cursor, numb, currFbn);
        var w := SourceWindow(cursor, numb, currCursor, currFbn);
        VisitTrace(cursor, numb, windows, w);
        windows := windows + [w];
        PatchBlock(cursor, numb, buf, w, bioBuff);
        currCursor := currCursor + (w.end - w.start);
        currFbn := currFbn + 1;
      }
      WrittenByWalk(base, blocks, cursor, buf[..numb]);
      TraceComplete(cursor, numb, windows);
    }

    /**
     * The part of fsWrite that changes the file (fs.c:176-195): extend the allocation and set
     * the size when the write runs past end-of-file, then read, patch and write back every
     * block of the range. The file becomes AfterWrite of what it was.
     */
    method WriteAt(cursor: nat, numb: nat, buf: array<byte>, alloc: nat -> Block)
      requires Valid() && numb <= buf.Length
      modifies this
      ensures Valid() && AsImage() == AfterWrite(old(AsImage()), cursor, buf[..numb], alloc)
    {
      var lastFbn := (cursor + numb) / BYTESPERBLOCK;
      if cursor + numb > size {
        Extend(lastFbn, alloc);
        SetSize(cursor + numb);
      }
      ghost var windows;
      windows := WriteRange(cursor, numb, buf);
    }

    /** bfsExtend: allocate blocks so that FBN `lastFbn` exists. */
    method Extend(lastFbn: nat, alloc: nat -> Block)
      modifies this
      ensures blocks == ExtendTo(old(blocks), lastFbn, alloc) && size == old(size)
    {
      blocks := ExtendTo(blocks, lastFbn, alloc);
    }

    /** bfsSetSize. */
    method SetSize(n: nat)
      modifies this
      ensures size == n && blocks == old(blocks)
    {
      size := n;
    }
  }

  /** An open-file-table entry: the inode it refers to and the cursor, which fsSeek updates in place. */
  class OpenFile {
    const inode: Inode
    var curs: nat

    constructor (inode: Inode)
      ensures this.inode == inode && curs == 0
    {
      this.inode := inode;
      curs := 0;
    }
  }

  /** The open-file table, and the operations of fs.c on the descriptors it binds. */
  class OpenFileTable {
    var entries: map<Fd, OpenFile>
    var nextFd: Fd

    ghost predicate Valid()
      reads this, set f | f in entries.Values :: f.inode
    {
      && (forall fd | fd in entries :: fd < nextFd)
      && (forall fd | fd in entries :: entries[fd].inode.Valid())
      && (forall fd1, fd2 | fd1 in entries && fd2 in entries && fd1 != fd2 :: entries[fd1] != entries[fd2])
    }

    constructor ()
      ensures Valid() && entries == map[]
    {
      entries := map[];
      nextFd := 0;
    }

    /** Bind a new descriptor to a new entry for `ino`, its cursor at the start of the file. */
    method Bind(ino: Inode) returns (fd: Fd)
      requires Valid() && ino.Valid()
      modifies this
      ensures Valid()
      ensures fd !in old(entries) && fd in entries && entries == old(entries)[fd := entries[fd]]
      ensures fresh(entries[fd]) && entries[fd].inode == ino && entries[fd].curs == 0
    {
      var entry := new OpenFile(ino);
      fd := nextFd;
      entries := entries[fd := entry];
      nextFd := nextFd + 1;
    }

    /** fsOpen, given what the directory lookup found: EFNF is passed through, a file is bound. */
    method Open(found: Option<Inode>) returns (r: Opened)
      requires Valid() && (found.Some? ==> found.value.Valid())
      modifies this
      ensures Valid()
      ensures found.None? ==> r == NotFound && entries == old(entries)
      ensures found.Some? ==>
        && r.Descriptor? && r.fd !in old(entries) && r.fd in entries
        && entries == old(entries)[r.fd := entries[r.fd]]
        && fresh(entries[r.fd]) && entries[r.fd].inode == found.value && entries[r.fd].curs == 0
    {
      if found.None? {
        return NotFound;
      }
      var fd := Bind(found.value);
      r := Descriptor(fd);
    }

    /** fsCreate, given the inode the directory made for the name (or EFNF): the same pass-through. */
    method Create(created: Option<Inode>) returns (r: Opened)
      requires Valid() && (created.Some? ==> created.value.Valid())
      modifies this
      ensures Valid()
      ensures created.None? ==> r == NotFound && entries == old(entries)
      ensures created.Some? ==>
        && r.Descriptor? && r.fd !in old(entries) && r.fd in entries
        && entries == old(entries)[r.fd := entries[r.fd]]
        && fresh(entries[r.fd]) && entries[r.fd].inode == created.value && entries[r.fd].curs == 0
    {
      if created.None? {
        return NotFound;
      }
      var fd := Bind(created.value);
      r := Descriptor(fd);
    }

    /** fsClose: release the entry; the inode is untouched. */
    method Close(fd: Fd) returns (r: int)
      requires Valid() && fd in entries
      modifies this
      ensures Valid() && entries == old(entries) - {fd} && r == 0
    {
      entries := entries - {fd};
      r := 0;
    }

    /** fsTell: where the next read or write on `fd` starts. */
    method Tell(fd: Fd) returns (c: nat)
      requires fd in entries
      ensures c == entries[fd].curs
    {
      c := entries[fd].curs;
    }

    /** fsSize: the size of the file open on `fd`. */
    method Size(fd: Fd) returns (s: nat)
      requires fd in entries
      ensures s == entries[fd].inode.size
    {
      s := entries[fd].inode.size;
    }

    /**
     * fsSeek: move the cursor of `fd` as SeekTarget says. Only that entry's cursor changes;
     * the file, its size included, does not, even when the cursor lands past end-of-file.
     */
    method Seek(fd: Fd, offset: int, whence: int) returns (r: Result<()>)
      requires Valid() && fd in entries
      modifies entries[fd]
      ensures Valid() && unchanged(entries[fd].inode)
      ensures forall g | g in entries && g != fd :: entries[g].curs == old(entries[g].curs)
      ensures var t := SeekTarget(old(entries[fd].curs), entries[fd].inode.size, offset, whence);
        && (t.Ok? ==> r == Ok(()) && entries[fd].curs == t.value)
        && (t.Fatal? ==> r == Fatal(t.error) && entries[fd].curs == old(entries[fd].curs))
    {
      if offset < 0 {
        return Fatal(BadCursor);
      }
      var entry := entries[fd];
      if whence == SEEK_SET {
        entry.curs := offset;
      } else if whence == SEEK_CUR {
        entry.curs := entry.curs + offset;
      } else if whence == SEEK_END {
        var end := Size(fd);
        entry.curs := end + offset;
      } else {
        return Fatal(BadWhence);
      }
      r := Ok(());
    }

    /**
     * fsRead: copy up to `numb` bytes from the cursor into `buf`, block by block, and advance
     * the cursor by the count returned. The count is the request clamped to end-of-file; a
     * cursor past end-of-file is fatal and changes nothing.
     */
    method Read(fd: Fd, numb: nat, buf: array<byte>) returns (r: Result<nat>)
      requires Valid() && fd in entries
      requires numb <= buf.Length && entries[fd].curs + numb <= MAX_I32
      modifies entries[fd], buf
      ensures Valid()
      ensures forall g | g in entries && g != fd :: entries[g].curs == old(entries[g].curs)
      ensures r == ReadCount(old(entries[fd].curs), entries[fd].inode.size, numb)
      ensures r.Fatal? ==> entries[fd].curs == old(entries[fd].curs) && buf[..] == old(buf[..])
      ensures r.Ok? ==>
        && entries[fd].curs == old(entries[fd].curs) + r.value
        && old(entries[fd].curs) + r.value <= |entries[fd].inode.blocks| * BYTESPERBLOCK
        && buf[..r.value] == Slice(entries[fd].inode.blocks, old(entries[fd].curs), r.value)
        && buf[r.value..] == old(buf[r.value..])
    {
      var entry := entries[fd];
      var ino := entry.inode;
      var size := ino.size;
      var cursor := entry.curs;
      var n: int := numb;
      if cursor + n > size {
        n := size - cursor;
      }
      if n < 0 {
        return Fatal(BadCursor);
      }
      CoveredBytes(ino.AsImage());
      ghost var windows;
      windows := ino.ReadRange(cursor, n, buf);
      var _ := Seek(fd, n, SEEK_CUR);
      r := Ok(n);
    }

    /**
     * fsWrite: put buf[..numb] at the cursor. The file becomes AfterWrite of what it was (the
     * allocation is extended first when the write runs past end-of-file, then every block of
     * the range is read, patched and written back), the cursor advances by numb, and 0 is returned.
     */
    method Write(fd: Fd, numb: nat, buf: array<byte>, alloc: nat -> Block) returns (r: int)
      requires Valid() && fd in entries
      requires numb <= buf.Length && entries[fd].curs + numb <= MAX_I32
      modifies entries[fd], entries[fd].inode
      ensures Valid()
      ensures forall g | g in entries && g != fd :: entries[g].curs == old(entries[g].curs)
      ensures entries[fd].inode.AsImage()
        == AfterWrite(old(entries[fd].inode.AsImage()), old(entries[fd].curs), buf[..numb], alloc)
      ensures entries[fd].curs == old(entries[fd].curs) + numb && r == 0
    {
      var entry := entries[fd];
      entry.inode.WriteAt(entry.curs, numb, buf, alloc);
      var _ := Seek(fd, numb, SEEK_CUR);
      r := 0;
    }
  }

  /** memcpy: `len` bytes of `src` from `srcOff` over the bytes of `dst` from `dstOff`. */
  method Memcpy(dst: array<byte>, dstOff: nat, src: array<byte>, srcOff: nat, len: nat)
    requires dst != src && dstOff + len <= dst.Length && srcOff + len <= src.Length
    modifies dst
    ensures dst[..] == old(dst[..dstOff]) + src[srcOff..srcOff + len] + old(dst[dstOff + len..])
  {
    forall i | 0 <= i < len {
      dst[dstOff + i] := src[srcOff + i];
    }
    assert dst[..] == old(dst[..dstOff]) + src[srcOff..srcOff + len] + old(dst[dstOff + len..]);
  }

  /** Optional inode, as the directory lookup or creation reports it: None stands for EFNF. */
  datatype Option<T> = None | Some(value: T)

  /**
   * Create a file, write 10 bytes at offset 0, close it, open it again and ask for 20 bytes:
   * the read returns the 10 bytes written, and the size is 10.
   */
  method CreateWriteReopenRead()
  {
    var table := new OpenFileTable();
    var zeros: Block := seq(BYTESPERBLOCK, _ => 0);
    var alloc: nat -> Block := _ => zeros;
    var ino := new Inode([zeros], 0);
    var created := table.Create(Some(ino));
    var fd := created.fd;

    var data := new byte[10];
    forall i | 0 <= i < 10 {
      data[i] := (i + 1) as byte;
    }
    ghost var empty := ino.AsImage();
    assert table.entries[fd].inode == ino;
    var w := table.Write(fd, 10, data, alloc);
    assert data[..10] == data[..];
    WriteThenReadToEnd(empty, 0, data[..], alloc, 20);
    var closed := table.Close(fd);
    ReopenAndRead(table, ino, data[..]);
  }

  /** The second half: open the file again and read past its end from offset 0. */
  method ReopenAndRead(table: OpenFileTable, ino: Inode, written: seq<byte>)
    requires table.Valid() && ino.Valid()
    requires |written| == 10 && ino.size == 10
    requires 10 <= |ino.blocks| * BYTESPERBLOCK && Slice(ino.blocks, 0, 10) == written
    modifies table
  {
    var reopened := table.Open(Some(ino));
    var out := new byte[20];
    var n := table.Read(reopened.fd, 20, out);
    assert n == Ok(10) && out[..10] == written;
    var size := table.Size(reopened.fd);
    assert size == 10;
  }
}
