/**
 * The block walk shared by fsRead and fsWrite: the loop steps currFBN from cursor / BYTESPERBLOCK
 * to (cursor + numb) / BYTESPERBLOCK and, in each block, touches the intra-block window
 * [startBuff, endBuff).
 */
module Windows {
  import opened Blocks

  function Min(a: int, b: int): int { if a < b then a else b }
  function Max(a: int, b: int): int { if a < b then b else a }

  /** The intra-block window [start, end) of block `fbn`, relative to the block's first byte. */
  datatype Window = Window(fbn: nat, start: int, end: int)

  /** File offset of the window's first byte. */
  function AbsStart(w: Window): int { w.fbn * BYTESPERBLOCK + w.start }

  /** File offset just past the window's last byte. */
  function AbsEnd(w: Window): int { w.fbn * BYTESPERBLOCK + w.end }

  /** File offset `p` falls inside the window. */
  predicate Contains(w: Window, p: int) { AbsStart(w) <= p < AbsEnd(w) }

  /** The sum of the window lengths, i.e. the number of bytes the walk copies. */
  function TotalLength(ws: seq<Window>): int
  {
    if ws == [] then 0 else (ws[0].end - ws[0].start) + TotalLength(ws[1..])
  }

  /**
   * The window fsRead and fsWrite compute for block `fbn` once the walk has reached offset
   * `currCursor`: startBuff is currCursor's place in the block; endBuff is the end of the block
   * when the rest of the range runs past it, otherwise the place where the range ends.
   */
  function SourceWindow(cursor: int, numb: int, currCursor: int, fbn: nat): (w: Window)
    ensures w.fbn == fbn && AbsStart(w) == currCursor
    ensures AbsEnd(w) == Min(cursor + numb, (fbn + 1) * BYTESPERBLOCK)
  {
    var startBuff := currCursor - fbn * BYTESPERBLOCK;
    var left := numb - (currCursor - cursor);
    var endBuff := if currCursor + left > (fbn + 1) * BYTESPERBLOCK then BYTESPERBLOCK else left + startBuff;
    Window(fbn, startBuff, endBuff)
  }

  /**
   * The value of currCursor when the walk over [cursor, cursor + numb) arrives at block `fbn`:
   * the point of the range where the bytes held by the blocks before `fbn` end and those held
   * by `fbn` and later blocks begin.
   */
  function Reached(cursor: nat, numb: nat, fbn: nat): (r: nat)
    ensures cursor <= r <= cursor + numb
    ensures r < cursor + numb ==> fbn * BYTESPERBLOCK <= r
    ensures cursor < r ==> r <= fbn * BYTESPERBLOCK
  {
    Min(cursor + numb, Max(cursor, fbn * BYTESPERBLOCK))
  }

  /**
   * The loop itself, as a recursion: the windows visited from block `fbn` through block `lastFbn`
   * when the walk starts that block at `currCursor`.
   */
  function Walk(cursor: nat, numb: nat, currCursor: int, fbn: nat, lastFbn: nat): (r: seq<Window>)
    ensures |r| == if fbn <= lastFbn then lastFbn + 1 - fbn else 0
    ensures forall i | 0 <= i < |r| :: r[i].fbn == fbn + i
    decreases lastFbn + 1 - fbn
  {
    if fbn > lastFbn then []
    else
      var w := SourceWindow(cursor, numb, currCursor, fbn);
      [w] + Walk(cursor, numb, currCursor + (w.end - w.start), fbn + 1, lastFbn)
  }

  /**
   * Every window the walk over [cursor, cursor + numb) visits, in order: one per block from
   * cursor / BYTESPERBLOCK through (cursor + numb) / BYTESPERBLOCK, the first starting at cursor.
   */
  function Visited(cursor: nat, numb: nat): (r: seq<Window>)
    ensures |r| == (cursor + numb) / BYTESPERBLOCK - cursor / BYTESPERBLOCK + 1
    ensures forall i | 0 <= i < |r| :: r[i].fbn == cursor / BYTESPERBLOCK + i
    ensures AbsStart(r[0]) == cursor
  {
    Walk(cursor, numb, cursor, cursor / BYTESPERBLOCK, (cursor + numb) / BYTESPERBLOCK)
  }

  /**
   * One iteration: at every block the walk visits, the window lies inside the block, is the
   * part of [cursor, cursor + numb) that the block holds, and moves currCursor to where the
   * next block starts.
   */
  lemma StepWindow(cursor: nat, numb: nat, fbn: nat)
    requires cursor / BYTESPERBLOCK <= fbn <= (cursor + numb) / BYTESPERBLOCK
    ensures var w := SourceWindow(cursor, numb, Reached(cursor, numb, fbn), fbn);
      && 0 <= w.start <= w.end <= BYTESPERBLOCK
      && AbsStart(w) == Max(cursor, fbn * BYTESPERBLOCK) == Reached(cursor, numb, fbn)
      && AbsEnd(w) == Min(cursor + numb, (fbn + 1) * BYTESPERBLOCK) == Reached(cursor, numb, fbn + 1)
  {
    var first, last := cursor / BYTESPERBLOCK, (cursor + numb) / BYTESPERBLOCK;
    assert first * BYTESPERBLOCK <= cursor < (first + 1) * BYTESPERBLOCK;
    assert last * BYTESPERBLOCK <= cursor + numb < (last + 1) * BYTESPERBLOCK;
  }

  /** The walk from block `fbn` on: one window per remaining block, each the source's window there. */
  lemma {:induction false} WalkFrom(cursor: nat, numb: nat, fbn: nat)
    requires cursor / BYTESPERBLOCK <= fbn <= (cursor + numb) / BYTESPERBLOCK + 1
    ensures var ws := Walk(cursor, numb, Reached(cursor, numb, fbn), fbn, (cursor + numb) / BYTESPERBLOCK);
      && |ws| == (cursor + numb) / BYTESPERBLOCK + 1 - fbn
      && (forall i | 0 <= i < |ws| :: ws[i] == SourceWindow(cursor, numb, Reached(cursor, numb, fbn + i), fbn + i))
    decreases (cursor + numb) / BYTESPERBLOCK + 1 - fbn
  {
    var last := (cursor + numb) / BYTESPERBLOCK;
    if fbn <= last {
      StepWindow(cursor, numb, fbn);
      WalkFrom(cursor, numb, fbn + 1);
      var w := SourceWindow(cursor, numb, Reached(cursor, numb, fbn), fbn);
      var rest := Walk(cursor, numb, Reached(cursor, numb, fbn + 1), fbn + 1, last);
      var ws := Walk(cursor, numb, Reached(cursor, numb, fbn), fbn, last);
      assert ws == [w] + rest;
      forall i | 0 <= i < |ws|
        ensures ws[i] == SourceWindow(cursor, numb, Reached(cursor, numb, fbn + i), fbn + i)
      {
        if i > 0 {
          assert ws[i] == rest[i - 1];
        }
      }
    }
  }

  /** The windows of the walk from block `fbn` on add up to the bytes still to copy. */
  lemma {:induction false} WalkLength(cursor: nat, numb: nat, fbn: nat)
    requires cursor / BYTESPERBLOCK <= fbn <= (cursor + numb) / BYTESPERBLOCK + 1
    ensures TotalLength(Walk(cursor, numb, Reached(cursor, numb, fbn), fbn, (cursor + numb) / BYTESPERBLOCK))
      == cursor + numb - Reached(cursor, numb, fbn)
    decreases (cursor + numb) / BYTESPERBLOCK + 1 - fbn
  {
    var last := (cursor + numb) / BYTESPERBLOCK;
    if fbn <= last {
      StepWindow(cursor, numb, fbn);
      WalkLength(cursor, numb, fbn + 1);
      var w := SourceWindow(cursor, numb, Reached(cursor, numb, fbn), fbn);
      var rest := Walk(cursor, numb, Reached(cursor, numb, fbn + 1), fbn + 1, last);
      assert Walk(cursor, numb, Reached(cursor, numb, fbn), fbn, last) == [w] + rest;
      assert ([w] + rest)[1..] == rest;
    } else {
      assert last * BYTESPERBLOCK <= cursor + numb < (last + 1) * BYTESPERBLOCK;
    }
  }

  /** Window i of the walk: the one of block cursor / BYTESPERBLOCK + i, as StepWindow describes it. */
  lemma VisitedAt(cursor: nat, numb: nat, i: nat)
    requires i <= (cursor + numb) / BYTESPERBLOCK - cursor / BYTESPERBLOCK
    ensures var ws, fbn := Visited(cursor, numb), cursor / BYTESPERBLOCK + i;
      && |ws| == (cursor + numb) / BYTESPERBLOCK - cursor / BYTESPERBLOCK + 1
      && ws[i].fbn == fbn && 0 <= ws[i].start <= ws[i].end <= BYTESPERBLOCK
      && AbsStart(ws[i]) == Max(cursor, fbn * BYTESPERBLOCK) == Reached(cursor, numb, fbn)
      && AbsEnd(ws[i]) == Min(cursor + numb, (fbn + 1) * BYTESPERBLOCK) == Reached(cursor, numb, fbn + 1)
  {
    var first := cursor / BYTESPERBLOCK;
    WalkFrom(cursor, numb, first);
    assert Reached(cursor, numb, first) == cursor;
    StepWindow(cursor, numb, first + i);
  }

  /** `done` is the windows the walk over [cursor, cursor + numb) visits first, in order. */
  ghost predicate Traced(cursor: nat, numb: nat, done: seq<Window>)
  {
    |done| <= |Visited(cursor, numb)| && done == Visited(cursor, numb)[..|done|]
  }

  /**
   * One more iteration of the loop: the window it computes at the next block extends the
   * windows visited so far to the next prefix of the walk.
   */
  lemma VisitTrace(cursor: nat, numb: nat, done: seq<Window>, w: Window)
    requires Traced(cursor, numb, done) && |done| <= (cursor + numb) / BYTESPERBLOCK - cursor / BYTESPERBLOCK
    requires var fbn := cursor / BYTESPERBLOCK + |done|;
      w == SourceWindow(cursor, numb, Reached(cursor, numb, fbn), fbn)
    ensures Traced(cursor, numb, done + [w])
  {
    var ws, i := Visited(cursor, numb), |done|;
    VisitedAt(cursor, numb, i);
    assert ws[i] == w;
    assert ws[..i + 1] == ws[..i] + [ws[i]];
  }

  /** Once the loop has visited every block, the windows it visited are the whole walk. */
  lemma TraceComplete(cursor: nat, numb: nat, done: seq<Window>)
    requires Traced(cursor, numb, done) && |done| == (cursor + numb) / BYTESPERBLOCK - cursor / BYTESPERBLOCK + 1
    ensures done == Visited(cursor, numb)
  {
  }

  /**
   * The windows lie one per block from cursor / BYTESPERBLOCK to (cursor + numb) / BYTESPERBLOCK,
   * each inside its block, the first starting at cursor, each next one starting where the
   * previous one ended, and the last ending at cursor + numb.
   */
  lemma WindowsChain(cursor: nat, numb: nat)
    ensures var ws := Visited(cursor, numb);
      && |ws| == (cursor + numb) / BYTESPERBLOCK - cursor / BYTESPERBLOCK + 1
      && (forall i | 0 <= i < |ws| ::
            ws[i].fbn == cursor / BYTESPERBLOCK + i && 0 <= ws[i].start <= ws[i].end <= BYTESPERBLOCK)
      && AbsStart(ws[0]) == cursor
      && AbsEnd(ws[|ws| - 1]) == cursor + numb
      && (forall i | 0 <= i < |ws| - 1 :: AbsEnd(ws[i]) == AbsStart(ws[i + 1]))
  {
    var first, last := cursor / BYTESPERBLOCK, (cursor + numb) / BYTESPERBLOCK;
    var ws := Visited(cursor, numb);
    VisitedAt(cursor, numb, 0);
    VisitedAt(cursor, numb, last - first);
    assert first * BYTESPERBLOCK <= cursor < (first + 1) * BYTESPERBLOCK;
    assert last * BYTESPERBLOCK <= cursor + numb < (last + 1) * BYTESPERBLOCK;
    forall i | 0 <= i < |ws|
      ensures ws[i].fbn == first + i && 0 <= ws[i].start <= ws[i].end <= BYTESPERBLOCK
    {
      VisitedAt(cursor, numb, i);
    }
    forall i | 0 <= i < |ws| - 1
      ensures AbsEnd(ws[i]) == AbsStart(ws[i + 1])
    {
      VisitedAt(cursor, numb, i);
      VisitedAt(cursor, numb, i + 1);
    }
  }

  /** Every byte of [cursor, cursor + numb) is in a window exactly when that window is of the byte's own block. */
  lemma WindowsLocate(cursor: nat, numb: nat)
    ensures var ws := Visited(cursor, numb);
      forall i, p | 0 <= i < |ws| && cursor <= p < cursor + numb ::
        Contains(ws[i], p) <==> ws[i].fbn == p / BYTESPERBLOCK
  {
    var ws := Visited(cursor, numb);
    VisitedAt(cursor, numb, 0);
    forall i, p | 0 <= i < |ws| && cursor <= p < cursor + numb
      ensures Contains(ws[i], p) <==> ws[i].fbn == p / BYTESPERBLOCK
    {
      VisitedAt(cursor, numb, i);
      var q := p / BYTESPERBLOCK;
      assert q * BYTESPERBLOCK <= p < (q + 1) * BYTESPERBLOCK;
    }
  }

  /**
   * The windows of fsRead/fsWrite partition [cursor, cursor + numb): they form the chain of
   * WindowsChain, their lengths sum to numb, and every byte of the range is in exactly the
   * window of its own block.
   */
  lemma WindowsPartition(cursor: nat, numb: nat)
    ensures var ws := Visited(cursor, numb);
      && |ws| == (cursor + numb) / BYTESPERBLOCK - cursor / BYTESPERBLOCK + 1
      && (forall i | 0 <= i < |ws| ::
            ws[i].fbn == cursor / BYTESPERBLOCK + i && 0 <= ws[i].start <= ws[i].end <= BYTESPERBLOCK)
      && AbsStart(ws[0]) == cursor
      && AbsEnd(ws[|ws| - 1]) == cursor + numb
      && (forall i | 0 <= i < |ws| - 1 :: AbsEnd(ws[i]) == AbsStart(ws[i + 1]))
      && TotalLength(ws) == numb
      && (forall i, p | 0 <= i < |ws| && cursor <= p < cursor + numb ::
            Contains(ws[i], p) <==> ws[i].fbn == p / BYTESPERBLOCK)
  {
    WalkLength(cursor, numb, cursor / BYTESPERBLOCK);
    assert Reached(cursor, numb, cursor / BYTESPERBLOCK) == cursor;
    WindowsChain(cursor, numb);
    WindowsLocate(cursor, numb);
  }

  /**
   * The walk's extra iteration: only the last window can be empty, and it is empty exactly when
   * the range is empty or ends on a block boundary, the case where the loop visits block
   * (cursor + numb) / BYTESPERBLOCK and copies nothing there.
   */
  lemma EmptyOnlyAtBoundary(cursor: nat, numb: nat)
    ensures var ws := Visited(cursor, numb);
      && (forall i | 0 <= i < |ws| - 1 :: ws[i].start < ws[i].end)
      && (ws[|ws| - 1].start == ws[|ws| - 1].end <==> numb == 0 || (cursor + numb) % BYTESPERBLOCK == 0)
  {
    var first, last := cursor / BYTESPERBLOCK, (cursor + numb) / BYTESPERBLOCK;
    var ws := Visited(cursor, numb);
    VisitedAt(cursor, numb, 0);
    assert first * BYTESPERBLOCK <= cursor < (first + 1) * BYTESPERBLOCK;
    assert last * BYTESPERBLOCK <= cursor + numb < (last + 1) * BYTESPERBLOCK;
    forall i | 0 <= i < |ws| - 1
      ensures ws[i].start < ws[i].end
    {
      VisitedAt(cursor, numb, i);
    }
    VisitedAt(cursor, numb, last - first);
    assert (cursor + numb) % BYTESPERBLOCK == cursor + numb - last * BYTESPERBLOCK;
  }

  /**
   * fsWrite's copy into one block: when the window is the part of [cursor, cursor + |data|)
   * that block `fbn` holds, overwriting the window with the matching part of `data` is Patch.
   */
  lemma PatchWindow(block: Block, cursor: nat, data: seq<byte>, w: Window)
    requires 0 <= w.start <= w.end <= BYTESPERBLOCK
    requires AbsStart(w) == Max(cursor, w.fbn * BYTESPERBLOCK)
    requires AbsEnd(w) == Min(cursor + |data|, (w.fbn + 1) * BYTESPERBLOCK)
    ensures 0 <= AbsStart(w) - cursor <= AbsEnd(w) - cursor <= |data|
    ensures Patch(block, w.fbn, cursor, data)
      == block[..w.start] + data[AbsStart(w) - cursor..AbsEnd(w) - cursor] + block[w.end..]
  {
  }

  /**
   * Patching only the blocks the walk visits is the whole of Written: the blocks before
   * cursor / BYTESPERBLOCK and after (cursor + |data|) / BYTESPERBLOCK hold no byte of the range.
   */
  lemma WrittenByWalk(base: seq<Block>, blocks: seq<Block>, cursor: nat, data: seq<byte>)
    requires |blocks| == |base|
    requires forall b | 0 <= b < |base| ::
      blocks[b] == if cursor / BYTESPERBLOCK <= b <= (cursor + |data|) / BYTESPERBLOCK
                   then Patch(base[b], b, cursor, data) else base[b]
    ensures blocks == Written(base, cursor, data)
  {
    var first, last := cursor / BYTESPERBLOCK, (cursor + |data|) / BYTESPERBLOCK;
    assert first * BYTESPERBLOCK <= cursor;
    assert cursor + |data| < (last + 1) * BYTESPERBLOCK;
    assert forall b | 0 <= b < |base| :: blocks[b] == Written(base, cursor, data)[b];
  }
}
