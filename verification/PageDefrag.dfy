/** Byte-level effect of defragmentPage: squeezing out at most two freeblocks, or
    repacking every cell against the end of the page. */
module PageDefrag {
  import opened Common
  import opened PageLayout
  import opened PageBytes
  import opened PageFree
  import opened PageAlloc

  // The cells have been moved to cells', whose content area starts at cbrk; the header still has to be updated.
  ghost predicate Ready(s: seq<byte>, m: seq<byte>, g: Geom, cells: seq<Region>, cells': seq<Region>, cbrk: nat) {
    && g.Ok() && g.usable <= |s| == |m| && |cells'| == |cells|
    && Get2(m, g.hdr + 3) == |cells| && m[g.hdr + 7] <= 60
    && Pointers(m, g, cells') && KeepsCells(s, m, cells, cells')
    && Gap(g, |cells|) <= cbrk && Tiling(cbrk, g.usable, m[g.hdr + 7], cells', [])
    && (cells == [] ==> cbrk == g.usable && m[g.hdr + 7] == 0)
  }

  // The page after defragmentation: the same cells in the same order, no freeblocks, the same free space.
  ghost predicate Defragmented(s: seq<byte>, t: seq<byte>, g: Geom, cells: seq<Region>, blocks: seq<Region>,
                               cells': seq<Region>) {
    && g.hdr + 8 <= |s| && Page(t, g, cells', []) && KeepsCells(s, t, cells, cells')
    && FreeBytes(t, g, cells', []) == FreeBytes(s, g, cells, blocks)
  }

  // The common tail: store the content offset, drop the freeblock list, zero the gap.
  ghost predicate Finished(m: seq<byte>, t: seq<byte>, g: Geom, gap: nat, cbrk: nat) {
    && g.hdr + 8 <= |m| == |t| && TopOf(t, g) == cbrk && t[g.hdr + 1] == t[g.hdr + 2] == 0
    && forall p | 0 <= p < |m| && !(g.hdr + 1 <= p < g.hdr + 3) && !(g.hdr + 5 <= p < g.hdr + 7)
         && !(gap <= p < cbrk) :: t[p] == m[p]
  }

  lemma FinishedPage(s: seq<byte>, m: seq<byte>, t: seq<byte>, g: Geom, cells: seq<Region>, blocks: seq<Region>,
                     cells': seq<Region>, cbrk: nat)
    requires Page(s, g, cells, blocks) && Ready(s, m, g, cells, cells', cbrk)
             && Finished(m, t, g, Gap(g, |cells|), cbrk)
    requires m[g.hdr + 7] as int + cbrk - Gap(g, |cells|) == FreeBytes(s, g, cells, blocks)
    ensures Defragmented(s, t, g, cells, blocks, cells') && t[g.hdr + 7] == m[g.hdr + 7]
  {
    hide Tiling, Linked, Pointers, TopOf, Total;
    Get2Same(m, t, g.hdr + 3);
    assert Get2(t, g.hdr + 1) == 0;
    LinkedEmpty(t, g);
    CellsFrom(cbrk, g.usable, m[g.hdr + 7], cells');
    PointersSame(m, t, g, cells');
    forall j | 0 <= j < |cells| ensures Body(t, cells'[j]) == Body(s, cells[j]) {
      BodySame(m, t, cells'[j]);
    }
    TotalSmall(Region(0, 0));
  }

  lemma CellsFrom(top: nat, usable: nat, frag: nat, cells: seq<Region>)
    requires Tiling(top, usable, frag, cells, [])
    ensures top <= usable && forall j | 0 <= j < |cells| :: top <= cells[j].start && cells[j].End() <= usable
  {
    hide Total;
  }

  // ---------- the fast path ----------

  function SecondLen(blocks: seq<Region>): nat { if |blocks| == 2 then blocks[1].len else 0 }

  // The cells between the two freeblocks move up over the second one.
  function MovedMiddle(s: seq<byte>, blocks: seq<Region>): (t: seq<byte>)
    requires |blocks| == 2 && blocks[0].End() <= blocks[1].start && blocks[1].End() <= |s|
  {
    Moved(s, blocks[0].End() + blocks[1].len, blocks[0].End(), blocks[1].start - blocks[0].End())
  }

  // The cells before the first freeblock move up over everything that was free.
  function MovedFront(s: seq<byte>, blocks: seq<Region>, top: nat): (t: seq<byte>)
    requires 1 <= |blocks| <= 2 && top <= blocks[0].start && blocks[0].End() + SecondLen(blocks) <= |s|
  {
    Moved(s, top + blocks[0].len + SecondLen(blocks), top, blocks[0].start - top)
  }

  // A cell lies before, between or after the freeblocks.
  predicate Zoned(blocks: seq<Region>, top: nat, c: Region)
    requires 1 <= |blocks| <= 2
  {
    || (top <= c.start && c.End() <= blocks[0].start)
    || (|blocks| == 2 && blocks[0].End() <= c.start && c.End() <= blocks[1].start)
    || (blocks[0].End() <= c.start && (|blocks| == 2 ==> blocks[1].End() <= c.start))
  }

  lemma CellZone(s: seq<byte>, g: Geom, cells: seq<Region>, blocks: seq<Region>, i: nat)
    requires Page(s, g, cells, blocks) && 1 <= |blocks| <= 2 && i < |cells|
    ensures Zoned(blocks, TopOf(s, g), cells[i]) && cells[i].len >= 4 && cells[i].End() <= |s|
    ensures cells[i].End() + Shift(blocks, cells[i].start) <= |s|
    ensures |blocks| == 2 ==> blocks[0].End() <= blocks[1].start
    ensures forall b | b in blocks :: b.len >= 4
  {
    hide Linked, Pointers, Tiling, TopOf, Get2, Shift;
    BlocksBeyondHeader(s, g, cells, blocks);
    GapBelow(s, g, cells, blocks);
    PageTiles(s, g, cells, blocks);
    CellClearOf(TopOf(s, g), g.usable, s[g.hdr + 7], cells, blocks, i, 0);
    if |blocks| == 2 {
      CellClearOf(TopOf(s, g), g.usable, s[g.hdr + 7], cells, blocks, i, 1);
      SpacedAt(blocks, 0, 1);
    }
    CellAtTop(s, g, cells, blocks, i);
    SqueezeOne(TopOf(s, g), g.usable, s[g.hdr + 7], cells, blocks, i);
  }

  lemma SqueezedBody(s: seq<byte>, m: seq<byte>, blocks: seq<Region>, top: nat, c: Region)
    requires 1 <= |blocks| <= 2 && top <= blocks[0].start && blocks[0].End() + SecondLen(blocks) <= |s|
    requires |blocks| == 2 ==> blocks[0].End() <= blocks[1].start && blocks[1].End() <= |s|
    requires m == MovedFront(if |blocks| == 2 then MovedMiddle(s, blocks) else s, blocks, top)
    requires Zoned(blocks, top, c) && c.len >= 4 && c.End() + Shift(blocks, c.start) <= |s|
    requires forall b | b in blocks :: b.len >= 4
    ensures |m| == |s| && Body(m, Region(c.start + Shift(blocks, c.start), c.len)) == Body(s, c)
  {
    hide MovedMiddle, MovedFront;
    var d := Region(c.start + Shift(blocks, c.start), c.len);
    SqueezedByte(s, blocks, top, c.start);
    var x, y := Body(m, d), Body(s, c);
    forall p | 0 <= p < |x| ensures x[p] == y[p] {
      SqueezedByte(s, blocks, top, c.start + p);
    }
  }

  // Where each byte of a cell ends up.
  lemma SqueezedByte(s: seq<byte>, blocks: seq<Region>, top: nat, q: nat)
    requires 1 <= |blocks| <= 2 && top <= blocks[0].start && blocks[0].End() + SecondLen(blocks) <= |s|
    requires |blocks| == 2 ==> blocks[0].End() <= blocks[1].start && blocks[1].End() <= |s|
    ensures var m := MovedFront(if |blocks| == 2 then MovedMiddle(s, blocks) else s, blocks, top);
            && |m| == |s|
            && (top <= q < blocks[0].start ==> m[q + blocks[0].len + SecondLen(blocks)] == s[q])
            && (|blocks| == 2 && blocks[0].End() <= q < blocks[1].start ==> m[q + blocks[1].len] == s[q])
            && (blocks[0].End() <= q < |s| && (|blocks| == 2 ==> blocks[1].End() <= q) ==> m[q] == s[q])
  {
    hide MovedMiddle, MovedFront;
    if |blocks| == 2 {
      MiddleByte(s, blocks, q);
      FrontByte(MovedMiddle(s, blocks), blocks, top, q);
      FrontByte(MovedMiddle(s, blocks), blocks, top, q + blocks[1].len);
    } else {
      FrontByte(s, blocks, top, q);
    }
  }

  lemma MiddleByte(s: seq<byte>, blocks: seq<Region>, q: nat)
    requires |blocks| == 2 && blocks[0].End() <= blocks[1].start && blocks[1].End() <= |s|
    ensures var m := MovedMiddle(s, blocks);
            && |m| == |s|
            && (q < blocks[0].End() ==> m[q] == s[q])
            && (blocks[0].End() <= q < blocks[1].start ==> m[q + blocks[1].len] == s[q])
            && (blocks[1].End() <= q < |s| ==> m[q] == s[q])
  {
  }

  lemma FrontByte(s: seq<byte>, blocks: seq<Region>, top: nat, q: nat)
    requires 1 <= |blocks| <= 2 && top <= blocks[0].start && blocks[0].End() + SecondLen(blocks) <= |s|
    ensures var m := MovedFront(s, blocks, top);
            && |m| == |s|
            && (top <= q < blocks[0].start ==> m[q + blocks[0].len + SecondLen(blocks)] == s[q])
            && (blocks[0].End() + SecondLen(blocks) <= q < |s| ==> m[q] == s[q])
  {
  }

  lemma CellAtTop(s: seq<byte>, g: Geom, cells: seq<Region>, blocks: seq<Region>, i: nat)
    requires Page(s, g, cells, blocks) && i < |cells|
    ensures TopOf(s, g) <= cells[i].start && cells[i].End() <= g.usable && cells[i].len >= 4
  {
    hide Total, Linked, Pointers;
  }

  lemma FastMoved(s: seq<byte>, m: seq<byte>, g: Geom, cells: seq<Region>, blocks: seq<Region>, moved: seq<Region>)
    requires Page(s, g, cells, blocks) && 1 <= |blocks| <= 2 && Squeezed(cells, blocks, moved)
    requires |blocks| == 2 ==> blocks[0].End() <= blocks[1].start && blocks[1].End() <= |s|
    requires TopOf(s, g) <= blocks[0].start && blocks[0].End() + SecondLen(blocks) <= |s|
    requires m == MovedFront(if |blocks| == 2 then MovedMiddle(s, blocks) else s, blocks, TopOf(s, g))
    ensures KeepsCells(s, m, cells, moved) && Same(s, m, 0, TopOf(s, g))
  {
    hide Linked, Pointers, Tiling, TopOf, MovedMiddle, MovedFront;
    forall i | 0 <= i < |cells|
      ensures cells[i].End() <= |s| && moved[i].End() <= |m| && Body(m, moved[i]) == Body(s, cells[i])
    {
      CellZone(s, g, cells, blocks, i);
      SqueezedBody(s, m, blocks, TopOf(s, g), cells[i]);
    }
    GapBelow(s, g, cells, blocks);
    BelowKept(s, blocks, TopOf(s, g));
  }

  lemma BelowKept(s: seq<byte>, blocks: seq<Region>, top: nat)
    requires 1 <= |blocks| <= 2 && top <= blocks[0].start && blocks[0].End() + SecondLen(blocks) <= |s|
    requires |blocks| == 2 ==> blocks[0].End() <= blocks[1].start && blocks[1].End() <= |s|
    ensures Same(s, MovedFront(if |blocks| == 2 then MovedMiddle(s, blocks) else s, blocks, top), 0, top)
  {
  }

  // Rewriting the pointer array once the bytes have moved.
  lemma FastReady(s: seq<byte>, m: seq<byte>, u: seq<byte>, g: Geom, cells: seq<Region>, blocks: seq<Region>,
                  moved: seq<Region>)
    requires Page(s, g, cells, blocks) && 1 <= |blocks| <= 2 && Squeezed(cells, blocks, moved)
    requires KeepsCells(s, m, cells, moved) && Same(s, m, 0, TopOf(s, g)) && |u| == |m|
    requires Pointers(u, g, moved) && forall p | 0 <= p < |m| && !(g.Off() <= p < Gap(g, |cells|)) :: u[p] == m[p]
    ensures Ready(s, u, g, cells, moved, TopOf(s, g) + Total(blocks)) && u[g.hdr + 7] == s[g.hdr + 7]
    ensures u[g.hdr + 7] as int + TopOf(s, g) + Total(blocks) - Gap(g, |cells|) == FreeBytes(s, g, cells, blocks)
  {
    hide Tiling, Linked, Pointers, TopOf, Total, Squeezed;
    BlocksBeyondHeader(s, g, cells, blocks);
    GapBelow(s, g, cells, blocks);
    PageTiles(s, g, cells, blocks);
    Get2Same(s, u, g.hdr + 3);
    SqueezeTiles(TopOf(s, g), g.usable, s[g.hdr + 7], cells, blocks, moved);
    CellsFrom(TopOf(s, g) + Total(blocks), g.usable, s[g.hdr + 7], moved);
    forall j | 0 <= j < |cells| ensures Body(u, moved[j]) == Body(s, cells[j]) {
      BodySame(m, u, moved[j]);
    }
    SomeCell(s, g, cells, blocks);
  }

  lemma SomeCell(s: seq<byte>, g: Geom, cells: seq<Region>, blocks: seq<Region>)
    requires Page(s, g, cells, blocks) && blocks != []
    ensures cells != []
  {
  }

  // ---------- the slow path ----------

  // Where cell j goes when the cells are packed downwards from the usable end.
  ghost function PackRegion(usable: nat, cells: seq<Region>, j: nat): Region
    requires j < |cells| && Total(cells) <= usable
  {
    TotalPrefix(cells, j + 1, |cells|);
    assert cells[..|cells|] == cells;
    Region(usable - Total(cells[..j + 1]), cells[j].len)
  }

  // Cells 0..i-1 have been copied from src to their packed places; cbrk is the lowest byte used.
  ghost predicate Repacking(src: seq<byte>, m: seq<byte>, g: Geom, cells: seq<Region>, i: nat, cbrk: nat) {
    && g.Ok() && |m| == |src| && i <= |cells| && Gap(g, |cells|) <= |src| && Total(cells) <= g.usable <= |src|
    && cbrk + Total(cells[..i]) == g.usable
    && Same(src, m, 0, g.Off()) && Same(src, m, g.Off() + 2 * i, Gap(g, |cells|))
    && forall j | 0 <= j < i ::
         var d := PackRegion(g.usable, cells, j);
         && cbrk <= d.start && d.End() <= g.usable && cells[j].End() <= |src|
         && Get2(m, g.Off() + 2 * j) == d.start && Body(m, d) == Body(src, cells[j])
  }

  function CopyCell(m: seq<byte>, ptr: nat, at: nat, cell: seq<byte>): (r: seq<byte>)
    requires ptr + 2 <= |m| && at < 65536 && at + |cell| <= |m|
  {
    Paste(Put2(m, ptr, at), at, cell)
  }

  lemma PagePointers(s: seq<byte>, g: Geom, cells: seq<Region>, blocks: seq<Region>)
    requires Page(s, g, cells, blocks)
    ensures g.Ok() && g.usable <= |s| && Pointers(s, g, cells)
  {
  }

  lemma RepackStep(src: seq<byte>, m: seq<byte>, g: Geom, cells: seq<Region>, blocks: seq<Region>, i: nat, cbrk: nat)
    requires Page(src, g, cells, blocks) && Repacking(src, m, g, cells, i, cbrk) && i < |cells|
    ensures Get2(m, g.Off() + 2 * i) == cells[i].start && g.Off() + 2 * i + 2 <= |m|
    ensures TopOf(src, g) <= cbrk - cells[i].len < 65536 && cells[i].End() <= g.usable && cells[i].len >= 4
    ensures Repacking(src, CopyCell(m, g.Off() + 2 * i, cbrk - cells[i].len, Body(src, cells[i])), g, cells, i + 1,
            cbrk - cells[i].len)
  {
    hide Tiling, Linked, Pointers, TopOf, Total, Get2, Page;
    var c := cells[i];
    CellAtTop(src, g, cells, blocks, i);
    GapBelow(src, g, cells, blocks);
    RepackRoom(src, g, cells, blocks, i);
    TotalPrefix(cells, i, |cells|);
    PagePointers(src, g, cells, blocks);
    PointerAt(src, g, cells, i);
    Get2Same(src, m, g.Off() + 2 * i);
    var at, ptr := cbrk - c.len, g.Off() + 2 * i;
    var body := Body(src, c);
    var m1 := Put2(m, ptr, at);
    var r := CopyCell(m, ptr, at, body);
    forall j | 0 <= j < i + 1
      ensures var d := PackRegion(g.usable, cells, j);
              && at <= d.start && d.End() <= g.usable && cells[j].End() <= |src|
              && Get2(r, g.Off() + 2 * j) == d.start && Body(r, d) == Body(src, cells[j])
    {
      var d := PackRegion(g.usable, cells, j);
      if j < i {
        Get2Same(m, r, g.Off() + 2 * j);
        BodySame(m, r, d);
      } else {
        Get2Same(m1, r, ptr);
        assert Body(r, d) == body;
      }
    }
  }

  lemma PointerAt(s: seq<byte>, g: Geom, cells: seq<Region>, i: nat)
    requires Pointers(s, g, cells) && i < |cells|
    ensures Get2(s, g.Off() + 2 * i) == cells[i].start
  {
  }

  // The packed cells never reach below the old content area.
  lemma RepackRoom(s: seq<byte>, g: Geom, cells: seq<Region>, blocks: seq<Region>, i: nat)
    requires Page(s, g, cells, blocks) && i < |cells|
    ensures TopOf(s, g) + Total(cells[..i + 1]) <= g.usable && Total(cells) <= g.usable
    ensures Gap(g, |cells|) <= TopOf(s, g)
  {
    hide Total, Linked, Pointers;
    TotalPrefix(cells, i + 1, |cells|);
    assert cells[..|cells|] == cells;
  }

  lemma RepackStart(s: seq<byte>, g: Geom, cells: seq<Region>, blocks: seq<Region>)
    requires Page(s, g, cells, blocks)
    ensures Repacking(s, s, g, cells, 0, g.usable)
  {
    assert cells[..0] == [];
    TotalSmall(Region(0, 0));
  }

  lemma RepackReady(s: seq<byte>, m: seq<byte>, u: seq<byte>, g: Geom, cells: seq<Region>, blocks: seq<Region>,
                    cbrk: nat)
    returns (packed: seq<Region>)
    requires Page(s, g, cells, blocks) && Repacking(s, m, g, cells, |cells|, cbrk) && u == m[g.hdr + 7 := 0]
    ensures Ready(s, u, g, cells, packed, cbrk)
            && u[g.hdr + 7] as int + cbrk - Gap(g, |cells|) == FreeBytes(s, g, cells, blocks)
  {
    hide Tiling, Linked, TopOf, Total, Get2, Repacking, Pointers, KeepsCells;
    RepackBound(s, g, cells, blocks);
    packed := PackAll(g.usable, cells);
    PageTiles(s, g, cells, blocks);
    PackAllDown(g.usable, cells);
    PackedTiles(TopOf(s, g), g.usable, s[g.hdr + 7], cells, blocks, packed);
    RepackEnd(s, m, g, cells, cbrk);
    RepackedBytes(s, m, u, g, cells, cbrk, packed);
  }

  lemma RepackEnd(s: seq<byte>, m: seq<byte>, g: Geom, cells: seq<Region>, cbrk: nat)
    requires Repacking(s, m, g, cells, |cells|, cbrk)
    ensures cbrk + Total(cells) == g.usable && |m| == |s|
  {
    hide Total;
    assert cells[..|cells|] == cells;
  }

  ghost function PackAll(usable: nat, cells: seq<Region>): (packed: seq<Region>)
    requires Total(cells) <= usable
    ensures |packed| == |cells| && forall j | 0 <= j < |cells| :: packed[j] == PackRegion(usable, cells, j)
  {
    seq(|cells|, j requires 0 <= j < |cells| => PackRegion(usable, cells, j))
  }

  lemma PackAllDown(usable: nat, cells: seq<Region>)
    requires Total(cells) <= usable
    ensures PackedDown(usable, cells, PackAll(usable, cells))
  {
    hide Total;
    assert cells[..|cells|] == cells;
    var packed := PackAll(usable, cells);
    forall j | 0 <= j < |cells| ensures packed[j].start + Total(cells[..j + 1]) == usable {
      TotalPrefix(cells, j + 1, |cells|);
    }
  }

  lemma RepackedBytes(s: seq<byte>, m: seq<byte>, u: seq<byte>, g: Geom, cells: seq<Region>, cbrk: nat,
                      packed: seq<Region>)
    requires Repacking(s, m, g, cells, |cells|, cbrk) && u == m[g.hdr + 7 := 0] && packed == PackAll(g.usable, cells)
    requires Gap(g, |cells|) <= cbrk
    ensures |u| == |s| && Get2(u, g.hdr + 3) == Get2(s, g.hdr + 3) && Pointers(u, g, packed)
            && KeepsCells(s, u, cells, packed)
  {
    hide Total, Get2;
    assert cells[..|cells|] == cells;
    Get2Same(s, m, g.hdr + 3);
    Get2Same(m, u, g.hdr + 3);
    forall j | 0 <= j < |cells|
      ensures Get2(u, g.Off() + 2 * j) == packed[j].start && cells[j].End() <= |s| && packed[j].End() <= |u|
              && Body(u, packed[j]) == Body(s, cells[j])
    {
      Get2Same(m, u, g.Off() + 2 * j);
      BodySame(m, u, packed[j]);
    }
  }

  lemma RepackBound(s: seq<byte>, g: Geom, cells: seq<Region>, blocks: seq<Region>)
    requires Page(s, g, cells, blocks)
    ensures Gap(g, |cells|) <= TopOf(s, g) && TopOf(s, g) + s[g.hdr + 7] as int + Total(blocks) + Total(cells) ==
            g.usable
    ensures cells == [] ==> Total(cells) == 0
  {
  }
}
