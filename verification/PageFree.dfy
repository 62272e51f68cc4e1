/** Byte-level effect of freeSpace on a well-formed page. */
module PageFree {
  import opened Common
  import opened PageLayout
  import opened PageBytes

  // The bytes freeSpace may change: five header bytes, the header of the coalesced
  // block n, and the link of the freeblock before it.
  predicate Touchable(g: Geom, blocks: seq<Region>, n: Region, k: nat, p: nat) {
    || (g.hdr + 1 <= p < g.hdr + 3) || (g.hdr + 5 <= p < g.hdr + 8)
    || (n.start <= p < n.start + 4)
    || (0 < k <= |blocks| && blocks[k - 1].start <= p < blocks[k - 1].start + 2)
  }

  ghost predicate Untouched(s: seq<byte>, t: seq<byte>, g: Geom, blocks: seq<Region>, n: Region, k: nat) {
    |t| == |s| && forall p | 0 <= p < |s| && !Touchable(g, blocks, n, k, p) :: t[p] == s[p]
  }

  // The freed block reaches down to the gap: the content area just starts later.
  ghost predicate TopWrites(s: seq<byte>, t: seq<byte>, g: Geom, next: nat, n: Region)
    requires g.hdr + 8 <= |s|
  {
    && |t| == |s| && Get2(t, g.hdr + 1) == next && TopOf(t, g) == n.End()
    && Same(s, t, g.hdr + 8, |s|)
  }

  // The freed block goes on the list, between the block pointed to from `ptr` and `next`.
  ghost predicate BlockWrites(s: seq<byte>, t: seq<byte>, g: Geom, ptr: nat, next: nat, n: Region, k: nat)
    requires g.hdr + 8 <= |s|
  {
    && |t| == |s| && ptr + 2 <= |s| && n.start + 4 <= |s|
    && TopOf(t, g) == TopOf(s, g) && Get2(t, ptr) == n.start
    && Get2(t, n.start) == next && Get2(t, n.start + 2) == n.len
    && (k > 0 ==> Same(s, t, g.hdr + 1, g.hdr + 3))
  }

  // t is s after cell r has been given back; k is the place of r among the freeblocks.
  ghost predicate FreeWrites(s: seq<byte>, t: seq<byte>, g: Geom, blocks: seq<Region>, r: Region, k: nat)
    requires g.Ok() && g.usable <= |s| && k <= |blocks|
  {
    var n := Joined(blocks, r, k);
    && Untouched(s, t, g, blocks, n, k)
    && t[g.hdr + 7] as int == s[g.hdr + 7] as int - JoinFrag(blocks, r, k)
    && (if n.start <= TopOf(s, g) then TopWrites(s, t, g, Target(blocks, JoinHi(blocks, r, k)), n)
        else BlockWrites(s, t, g, PtrOf(g, blocks, JoinLo(blocks, r, k)), Target(blocks, JoinHi(blocks, r, k)), n, k))
  }

  lemma PageTiles(s: seq<byte>, g: Geom, cells: seq<Region>, blocks: seq<Region>)
    requires Page(s, g, cells, blocks)
    ensures Tiling(TopOf(s, g), g.usable, s[g.hdr + 7], cells, blocks) && Linked(s, g, blocks) && g.Ok()
            && g.usable <= |s|
  {
  }

  lemma BlockBound(s: seq<byte>, g: Geom, cells: seq<Region>, blocks: seq<Region>)
    requires Page(s, g, cells, blocks)
    ensures forall k | 0 <= k < |blocks| ::
              blocks[k].len >= 4 && blocks[k].End() <= g.usable <= 65536
              && 0 < blocks[k].start
  {
    hide Total, Linked, Pointers;
  }

  lemma BlocksBeyondHeader(s: seq<byte>, g: Geom, cells: seq<Region>, blocks: seq<Region>)
    requires Page(s, g, cells, blocks)
    ensures forall k | 0 <= k < |blocks| ::
              Gap(g, |cells|) < blocks[k].start
              && blocks[k].start + 4 <= blocks[k].End() <= |s|
    ensures forall k | 0 <= k < |cells| :: Gap(g, |cells|) <= cells[k].start && cells[k].End() <= |s|
    ensures g.hdr + 8 <= Gap(g, |cells|) <= |s|
  {
    hide Linked, Pointers, Total, Clear, AllApart;
  }

  lemma KeepsBody(s: seq<byte>, t: seq<byte>, g: Geom, blocks: seq<Region>, n: Region, k: nat, c: Region)
    requires Untouched(s, t, g, blocks, n, k) && g.hdr + 8 <= c.start && c.End() <= |s|
    requires n.len >= 4 && Apart(c, n)
    requires 0 < k <= |blocks| ==> blocks[k - 1].len >= 4 && Apart(c, blocks[k - 1])
    ensures Body(t, c) == Body(s, c)
  {
    BodySame(s, t, c);
  }

  // The other cells keep their bytes.
  lemma FreeKeepsCells(s: seq<byte>, t: seq<byte>, g: Geom, cells: seq<Region>, blocks: seq<Region>, i: nat, k: nat,
                       j: nat)
    requires Page(s, g, cells, blocks) && i < |cells| && Slot(blocks, cells[i].start, k)
    requires FreeWrites(s, t, g, blocks, cells[i], k) && j < |cells| && j != i
    ensures cells[j].End() <= |s| && Body(t, cells[j]) == Body(s, cells[j])
  {
    hide Linked, Pointers, Tiling, Untouched, TopWrites, BlockWrites, Joined, JoinLo, JoinHi, JoinFrag, TopOf, Get2;
    var top, frag := TopOf(s, g), s[g.hdr + 7];
    BlocksBeyondHeader(s, g, cells, blocks);
    FreeNeighbours(top, g.usable, frag, cells, blocks, i, k);
    OthersClear(top, g.usable, frag, cells, blocks, i, k, j);
    JoinedSpacing(top, g.usable, frag, cells, blocks, i, k);
    if k > 0 { CellClearOf(top, g.usable, frag, cells, blocks, j, k - 1); }
    KeepsBody(s, t, g, blocks, Joined(blocks, cells[i], k), k, cells[j]);
  }

  lemma CellClearOf(top: nat, usable: nat, frag: nat, cells: seq<Region>, blocks: seq<Region>, j: nat, k: nat)
    requires Tiling(top, usable, frag, cells, blocks) && j < |cells| && k < |blocks|
    ensures Apart(cells[j], blocks[k]) && blocks[k].len >= 4
  {
    hide Total;
    assert ApartFrom(cells, blocks[k]);
  }

  lemma FreeKeepsPointers(s: seq<byte>, t: seq<byte>, g: Geom, cells: seq<Region>, blocks: seq<Region>, i: nat, k: nat)
    requires Page(s, g, cells, blocks) && i < |cells| && Slot(blocks, cells[i].start, k)
    requires FreeWrites(s, t, g, blocks, cells[i], k)
    ensures Pointers(t, g, cells) && Get2(t, g.hdr + 3) == |cells| && t[g.hdr] == s[g.hdr]
    ensures Same(s, t, g.hdr + 8, Gap(g, |cells|))
  {
    hide Linked, Pointers, Tiling, TopWrites, BlockWrites, Joined, JoinLo, JoinHi, JoinFrag, TopOf, Get2;
    BlocksBeyondHeader(s, g, cells, blocks);
    JoinedSpacing(TopOf(s, g), g.usable, s[g.hdr + 7], cells, blocks, i, k);
    GapBelow(s, g, cells, blocks);
    Get2Same(s, t, g.hdr + 3);
    PointersSame(s, t, g, cells);
  }

  lemma GapBelow(s: seq<byte>, g: Geom, cells: seq<Region>, blocks: seq<Region>)
    requires Page(s, g, cells, blocks)
    ensures Gap(g, |cells|) <= TopOf(s, g) <= g.usable <= |s| && Spaced(blocks)
  {
  }

  // Links and sizes before the coalesced block are untouched, except the one link being redirected.
  lemma KeepsBefore(s: seq<byte>, t: seq<byte>, g: Geom, blocks: seq<Region>, n: Region, k: nat, lo: nat, l: nat)
    requires Untouched(s, t, g, blocks, n, k) && Spaced(blocks) && l < lo <= k <= |blocks| && k <= lo + 1
    requires forall j | 0 <= j < |blocks| ::
               g.hdr + 8 < blocks[j].start && blocks[j].start + 4 <= blocks[j].End() <= |s|
    requires g.hdr + 8 <= n.start && n.len >= 4 && n.End() <= |s|
    requires forall j | 0 <= j < lo :: blocks[j].End() + 4 <= n.start
    ensures l > 0 ==> Same(s, t, PtrOf(g, blocks, l), PtrOf(g, blocks, l) + 2)
    ensures Same(s, t, blocks[l].start + 2, blocks[l].start + 4)
  {
    hide Spaced;
    if l > 0 { SpacedAt(blocks, l - 1, k - 1); }
    if l < k - 1 { SpacedAt(blocks, l, k - 1); }
  }

  lemma KeepsAfter(s: seq<byte>, t: seq<byte>, g: Geom, blocks: seq<Region>, n: Region, k: nat, hi: nat, l: nat)
    requires Untouched(s, t, g, blocks, n, k) && Spaced(blocks) && k <= hi <= l < |blocks|
    requires forall j | 0 <= j < |blocks| ::
               g.hdr + 8 < blocks[j].start && blocks[j].start + 4 <= blocks[j].End() <= |s|
    requires n.len >= 4 && n.End() + 4 <= blocks[l].start
    ensures Same(s, t, blocks[l].start, blocks[l].start + 4)
  {
    hide Spaced;
    if k > 0 { SpacedAt(blocks, k - 1, l); }
  }

  lemma FreeRelinks(s: seq<byte>, t: seq<byte>, g: Geom, cells: seq<Region>, blocks: seq<Region>, i: nat, k: nat)
    requires Page(s, g, cells, blocks) && i < |cells| && Slot(blocks, cells[i].start, k)
    requires FreeWrites(s, t, g, blocks, cells[i], k)
    ensures Linked(t, g, FreedBlocks(TopOf(s, g), blocks, cells[i], k))
  {
    hide Linked, Pointers, Tiling, Get2, JoinFrag, TopOf, Spaced, Untouched, Splice;
    var r := cells[i];
    var n := Joined(blocks, r, k);
    var lo, hi := JoinLo(blocks, r, k), JoinHi(blocks, r, k);
    BlocksBeyondHeader(s, g, cells, blocks);
    JoinedSpacing(TopOf(s, g), g.usable, s[g.hdr + 7], cells, blocks, i, k);
    GapBelow(s, g, cells, blocks);
    var mid := if n.start <= TopOf(s, g) then [] else [n];
    forall l | 0 <= l < lo
      ensures Same(s, t, PtrOf(g, blocks, l), PtrOf(g, blocks, l) + 2)
              && Same(s, t, blocks[l].start + 2, blocks[l].start + 4)
    {
      KeepsBefore(s, t, g, blocks, n, k, lo, l);
    }
    forall l | hi <= l < |blocks| ensures Same(s, t, blocks[l].start, blocks[l].start + 4) {
      KeepsAfter(s, t, g, blocks, n, k, hi, l);
    }
    assert |t| == |s| by { UntouchedLen(s, t, g, blocks, n, k); }
    if n.start <= TopOf(s, g) {
      assert lo == 0 && Get2(t, PtrOf(g, blocks, lo)) == Target(blocks, hi);
      LinkedSplice(s, t, g, blocks, lo, hi, []);
    } else {
      assert SizeAt(t, n);
      LinkedSplice(s, t, g, blocks, lo, hi, [n]);
    }
  }

  lemma UntouchedLen(s: seq<byte>, t: seq<byte>, g: Geom, blocks: seq<Region>, n: Region, k: nat)
    requires Untouched(s, t, g, blocks, n, k)
    ensures |t| == |s|
  {
  }

  // After freeSpace the remaining cells, the new chain and the new header tile the page.
  lemma FreedPage(s: seq<byte>, t: seq<byte>, g: Geom, cells: seq<Region>, blocks: seq<Region>, i: nat, k: nat)
    requires Page(s, g, cells, blocks) && i < |cells| && Slot(blocks, cells[i].start, k)
    requires FreeWrites(s, t, g, blocks, cells[i], k)
    ensures var b := FreedBlocks(TopOf(s, g), blocks, cells[i], k);
            && Linked(t, g, b) && t[g.hdr + 7] <= 60
            && Tiling(TopOf(t, g), g.usable, t[g.hdr + 7], Without(cells, i), b)
            && Gap(g, |cells|) <= TopOf(t, g)
            && TopOf(t, g) + t[g.hdr + 7] as int + Total(b) == TopOf(s, g) + s[g.hdr + 7] as int + Total(blocks)
                 + cells[i].len
  {
    hide Linked, Pointers, Tiling, Get2, JoinFrag, TopOf, Total, Joined, JoinLo, JoinHi, FreedBlocks, Untouched;
    FreeRelinks(s, t, g, cells, blocks, i, k);
    FreeTiles(TopOf(s, g), g.usable, s[g.hdr + 7], cells, blocks, i, k);
    FreedTotal(TopOf(s, g), g.usable, s[g.hdr + 7], cells, blocks, i, k);
    JoinedSpacing(TopOf(s, g), g.usable, s[g.hdr + 7], cells, blocks, i, k);
    GapBelow(s, g, cells, blocks);
    assert TopOf(t, g) == FreedTop(TopOf(s, g), blocks, cells[i], k);
  }
}
