/** Byte-level effect of the ways allocateSpace finds room on a well-formed page. */
module PageAlloc {
  import opened Common
  import opened PageLayout
  import opened PageBytes
  import opened PageFree

  // Room for nByte bytes at idx, to become the i-th cell, has been set aside: the cells
  // (now at cells') keep their bytes and order, and the new region overlaps nothing.
  ghost predicate Allocated(s: seq<byte>, t: seq<byte>, g: Geom, cells: seq<Region>, blocks: seq<Region>,
                            cells': seq<Region>, blocks': seq<Region>, nByte: nat, idx: nat, i: nat) {
    && g.hdr + 8 <= |s| == |t| && i <= |cells'| == |cells|
    && Get2(t, g.hdr + 3) == |cells| && t[g.hdr + 7] <= 60
    && Pointers(t, g, cells') && Linked(t, g, blocks') && KeepsCells(s, t, cells, cells')
    && Gap(g, |cells| + 1) <= TopOf(t, g)
    && Tiling(TopOf(t, g), g.usable, t[g.hdr + 7], InsertAt(cells', i, Region(idx, nByte)), blocks')
    && TopOf(t, g) + t[g.hdr + 7] as int + Total(blocks') + nByte == TopOf(s, g) + s[g.hdr + 7] as int + Total(blocks)
  }

  ghost predicate KeepsCells(s: seq<byte>, t: seq<byte>, cells: seq<Region>, cells': seq<Region>) {
    |cells'| == |cells| && forall j | 0 <= j < |cells| ::
      cells[j].End() <= |s| && cells'[j].End() <= |t| && Body(t, cells'[j]) == Body(s, cells[j])
  }

  // t differs from s only in the link at ptr, the two size bytes of block b, and the fragment count.
  ghost predicate SlotEdit(s: seq<byte>, t: seq<byte>, g: Geom, ptr: nat, b: Region) {
    |t| == |s| && forall p | 0 <= p < |s| && p != g.hdr + 7 && !(ptr <= p < ptr + 2)
        && !(b.start + 2 <= p < b.start + 4) :: t[p] == s[p]
  }

  lemma SlotEditFrame(s: seq<byte>, t: seq<byte>, g: Geom, cells: seq<Region>, blocks: seq<Region>, j: nat)
    requires Page(s, g, cells, blocks) && j < |blocks| && SlotEdit(s, t, g, PtrOf(g, blocks, j), blocks[j])
    ensures Get2(t, g.hdr + 3) == |cells| && Pointers(t, g, cells) && TopOf(t, g) == TopOf(s, g)
    ensures KeepsCells(s, t, cells, cells)
  {
    hide Tiling, Linked, Pointers, Get2, TopOf;
    var top, frag := TopOf(s, g), s[g.hdr + 7];
    BlocksBeyondHeader(s, g, cells, blocks);
    GapBelow(s, g, cells, blocks);
    Get2Same(s, t, g.hdr + 3);
    TopSame(s, t, g);
    PointersSame(s, t, g, cells);
    forall l | 0 <= l < |cells| ensures cells[l].End() <= |s| && Body(t, cells[l]) == Body(s, cells[l]) {
      CellClearOf(top, g.usable, frag, cells, blocks, l, j);
      if j > 0 { CellClearOf(top, g.usable, frag, cells, blocks, l, j - 1); }
      BodySame(s, t, cells[l]);
    }
  }

  // Links and sizes other than those of block j and its predecessor's link are untouched.
  lemma SlotEditLinks(s: seq<byte>, t: seq<byte>, g: Geom, cells: seq<Region>, blocks: seq<Region>, j: nat, l: nat)
    requires Page(s, g, cells, blocks) && j < |blocks| && l < |blocks|
             && SlotEdit(s, t, g, PtrOf(g, blocks, j), blocks[j])
    ensures l < j ==>
              Same(s, t, PtrOf(g, blocks, l), PtrOf(g, blocks, l) + 2)
              && Same(s, t, blocks[l].start + 2, blocks[l].start + 4)
    ensures l > j ==> Same(s, t, blocks[l].start, blocks[l].start + 4)
  {
    hide Tiling, Linked, Pointers, Get2, TopOf, Spaced;
    BlocksBeyondHeader(s, g, cells, blocks);
    GapBelow(s, g, cells, blocks);
    if l < j {
      SpacedAt(blocks, l, j);
      if l < j - 1 { SpacedAt(blocks, l, j - 1); }
      if l > 0 { SpacedAt(blocks, l - 1, j); SpacedAt(blocks, l - 1, j - 1); }
    }
    if l > j {
      SpacedAt(blocks, j, l);
      if j > 0 { SpacedAt(blocks, j - 1, l); }
    }
  }

  lemma SlotRelinks(s: seq<byte>, t: seq<byte>, g: Geom, cells: seq<Region>, blocks: seq<Region>, j: nat,
                    mid: seq<Region>)
    requires Page(s, g, cells, blocks) && j < |blocks| && SlotEdit(s, t, g, PtrOf(g, blocks, j), blocks[j])
             && |mid| <= 1
    requires PtrOf(g, blocks, j) + 2 <= |t|
    requires Get2(t, PtrOf(g, blocks, j)) == if mid == [] then Target(blocks, j + 1) else mid[0].start
    requires mid != [] ==> SizeAt(t, mid[0]) && Get2(t, mid[0].start) == Target(blocks, j + 1)
    ensures Linked(t, g, Splice(blocks, j, j + 1, mid))
  {
    hide Tiling, Linked, Pointers, Get2, TopOf, SlotEdit, Splice;
    forall l | 0 <= l < j
      ensures Same(s, t, PtrOf(g, blocks, l), PtrOf(g, blocks, l) + 2)
              && Same(s, t, blocks[l].start + 2, blocks[l].start + 4)
    {
      SlotEditLinks(s, t, g, cells, blocks, j, l);
    }
    forall l | j + 1 <= l < |blocks| ensures Same(s, t, blocks[l].start, blocks[l].start + 4) {
      SlotEditLinks(s, t, g, cells, blocks, j, l);
    }
    LinkedSplice(s, t, g, blocks, j, j + 1, mid);
  }

  function WholeBytes(s: seq<byte>, g: Geom, ptr: nat, next: nat, x: nat): (t: seq<byte>)
    requires g.hdr + 8 <= |s| && ptr + 2 <= |s| && next < 65536 && s[g.hdr + 7] as int + x < 256
    requires ptr + 2 <= g.hdr + 7 || g.hdr + 8 <= ptr
  {
    Put2(s, ptr, next)[g.hdr + 7 := s[g.hdr + 7] + x]
  }

  lemma WholeSlot(s: seq<byte>, g: Geom, cells: seq<Region>, blocks: seq<Region>, j: nat, nByte: nat, i: nat)
    requires Page(s, g, cells, blocks) && j < |blocks| && i <= |cells| && Gap(g, |cells| + 1) <= TopOf(s, g)
    requires 4 <= nByte <= blocks[j].len < nByte + 4 && s[g.hdr + 7] <= 57
    ensures var p := PtrOf(g, blocks, j);
            p + 2 <= |s| && (p + 2 <= g.hdr + 7 || g.hdr + 8 <= p) && Target(blocks, j + 1) < 65536
    ensures var t := WholeBytes(s, g, PtrOf(g, blocks, j), Target(blocks, j + 1), blocks[j].len - nByte);
            Allocated(s, t, g, cells, blocks, cells, Without(blocks, j), nByte, blocks[j].start, i)
  {
    hide Tiling, Linked, Pointers, Get2, TopOf, KeepsCells, SlotEdit, Total;
    BlocksBeyondHeader(s, g, cells, blocks);
    PageTiles(s, g, cells, blocks);
    var p, next, x := PtrOf(g, blocks, j), Target(blocks, j + 1), blocks[j].len - nByte;
    BlockBound(s, g, cells, blocks);
    var t := WholeBytes(s, g, p, next, x);
    WholeEdit(s, g, p, next, x, blocks[j]);
    SlotEditFrame(s, t, g, cells, blocks, j);
    SlotRelinks(s, t, g, cells, blocks, j, []);
    assert Splice(blocks, j, j + 1, []) == Without(blocks, j);
    WholeSlotTiles(TopOf(s, g), g.usable, s[g.hdr + 7], cells, blocks, j, nByte, i);
    TotalRemove(blocks, j);
  }

  lemma WholeEdit(s: seq<byte>, g: Geom, ptr: nat, next: nat, x: nat, b: Region)
    requires g.hdr + 8 <= |s| && ptr + 2 <= |s| && next < 65536 && s[g.hdr + 7] as int + x < 256
    requires ptr + 2 <= g.hdr + 7 || g.hdr + 8 <= ptr
    ensures var t := WholeBytes(s, g, ptr, next, x);
            SlotEdit(s, t, g, ptr, b) && Get2(t, ptr) == next && t[g.hdr + 7] as int == s[g.hdr + 7] as int + x
  {
  }

  lemma SplitSlot(s: seq<byte>, g: Geom, cells: seq<Region>, blocks: seq<Region>, j: nat, nByte: nat, i: nat)
    requires Page(s, g, cells, blocks) && j < |blocks| && i <= |cells| && Gap(g, |cells| + 1) <= TopOf(s, g)
    requires 4 <= nByte && nByte + 4 <= blocks[j].len
    ensures blocks[j].start + 4 <= |s| && blocks[j].len < 65536
    ensures var x := blocks[j].len - nByte;
            Allocated(s, Put2(s, blocks[j].start + 2, x), g, cells, blocks, cells,
                blocks[j := Region(blocks[j].start, x)],
                      nByte, blocks[j].start + x, i)
  {
    hide Tiling, Linked, Pointers, Get2, TopOf, KeepsCells, Total;
    BlocksBeyondHeader(s, g, cells, blocks);
    GapBelow(s, g, cells, blocks);
    PageTiles(s, g, cells, blocks);
    BlockBound(s, g, cells, blocks);
    var b := blocks[j];
    var x := b.len - nByte;
    var rest := Region(b.start, x);
    var t := Put2(s, b.start + 2, x);
    LinkFields(s, g, blocks, j);
    if j > 0 { SpacedAt(blocks, j - 1, j); }
    Get2Same(s, t, PtrOf(g, blocks, j));
    Get2Same(s, t, b.start);
    SlotEditFrame(s, t, g, cells, blocks, j);
    SlotRelinks(s, t, g, cells, blocks, j, [rest]);
    assert Splice(blocks, j, j + 1, [rest]) == blocks[j := rest];
    SplitSlotTiles(TopOf(s, g), g.usable, s[g.hdr + 7], cells, blocks, j, nByte, i);
    TotalReplace(blocks, j, j + 1, [rest]);
    assert blocks[j..j + 1] == [b];
    TotalSmall(rest);
    TotalSmall(b);
  }

  lemma LinkFields(s: seq<byte>, g: Geom, blocks: seq<Region>, j: nat)
    requires Linked(s, g, blocks) && j < |blocks|
    ensures PtrOf(g, blocks, j) + 2 <= |s| && Get2(s, PtrOf(g, blocks, j)) == blocks[j].start
    ensures SizeAt(s, blocks[j]) && Get2(s, blocks[j].start) == Target(blocks, j + 1)
  {
    assert PtrAt(s, g, blocks, j) && PtrAt(s, g, blocks, j + 1);
  }

  // Lowering the start of the content area.
  lemma FromGap(s: seq<byte>, g: Geom, cells: seq<Region>, blocks: seq<Region>, nByte: nat, i: nat)
    requires Page(s, g, cells, blocks) && i <= |cells| && nByte >= 4 && Gap(g, |cells| + 1) + nByte <= TopOf(s, g)
    ensures TopOf(s, g) - nByte < 65536
    ensures var top := TopOf(s, g) - nByte;
            Allocated(s, Put2(s, g.hdr + 5, top), g, cells, blocks, cells, blocks, nByte, top, i)
  {
    hide Tiling, Linked, Pointers, KeepsCells, Total;
    BlocksBeyondHeader(s, g, cells, blocks);
    GapBelow(s, g, cells, blocks);
    PageTiles(s, g, cells, blocks);
    var top := TopOf(s, g) - nByte;
    var t := Put2(s, g.hdr + 5, top);
    Get2Same(s, t, g.hdr + 3);
    PointersSame(s, t, g, cells);
    LinkedSame(s, t, g, blocks);
    GapTiles(TopOf(s, g), g.usable, s[g.hdr + 7], cells, blocks, nByte, i);
    KeepsAbove(s, t, cells, g.hdr + 8);
  }

  lemma KeepsAbove(s: seq<byte>, t: seq<byte>, cells: seq<Region>, lo: nat)
    requires |s| == |t| && Same(s, t, lo, |s|)
    requires forall j | 0 <= j < |cells| :: lo <= cells[j].start && cells[j].End() <= |s|
    ensures KeepsCells(s, t, cells, cells)
  {
    forall j | 0 <= j < |cells| ensures Body(t, cells[j]) == Body(s, cells[j]) { BodySame(s, t, cells[j]); }
  }

  // ---------- writing the new cell ----------

  function Paste(s: seq<byte>, dst: nat, src: seq<byte>): (r: seq<byte>)
    requires dst + |src| <= |s|
    ensures |r| == |s|
    ensures forall p | 0 <= p < |s| :: r[p] == if dst <= p < dst + |src| then src[p - dst] else s[p]
  {
    s[..dst] + src + s[dst + |src|..]
  }

  // Open the pointer array of n cells at position i, store idx there, and count one more cell.
  function WithPointer(t: seq<byte>, g: Geom, n: nat, i: nat, idx: nat): (u: seq<byte>)
    requires i <= n && n + 1 < 65536 && idx < 65536 && Gap(g, n + 1) <= |t| && g.hdr + 8 <= |t|
  {
    Put2(Put2(Moved(t, g.Off() + 2 * i + 2, g.Off() + 2 * i, 2 * (n - i)), g.Off() + 2 * i, idx), g.hdr + 3, n + 1)
  }

  lemma WithPointerFrame(t: seq<byte>, g: Geom, n: nat, i: nat, idx: nat)
    requires i <= n && n + 1 < 65536 && idx < 65536 && Gap(g, n + 1) <= |t| && g.hdr + 8 <= |t|
    ensures var u := WithPointer(t, g, n, i, idx);
            && |u| == |t| && Get2(u, g.hdr + 3) == n + 1
            && (forall p | 0 <= p < |t| && !(g.hdr + 3 <= p < g.hdr + 5) && !(g.Off() <= p < Gap(g, n + 1)) ::
                  u[p] == t[p])
  {
  }

  lemma WithPointerReads(t: seq<byte>, g: Geom, cells: seq<Region>, i: nat, r: Region)
    requires Pointers(t, g, cells) && i <= |cells| && |cells| + 1 < 65536 && r.start < 65536
    requires Gap(g, |cells| + 1) <= |t| && g.hdr + 8 <= |t|
    ensures Pointers(WithPointer(t, g, |cells|, i, r.start), g, InsertAt(cells, i, r))
  {
    hide Get2;
    var n := |cells|;
    var t1 := Moved(t, g.Off() + 2 * i + 2, g.Off() + 2 * i, 2 * (n - i));
    var t2 := Put2(t1, g.Off() + 2 * i, r.start);
    var u := Put2(t2, g.hdr + 3, n + 1);
    var c := InsertAt(cells, i, r);
    forall j | 0 <= j < |c| ensures Get2(u, g.Off() + 2 * j) == c[j].start {
      if j == i {
        Get2Same(t2, u, g.Off() + 2 * j);
      } else {
        var k := if j < i then j else j - 1;
        assert c[j] == cells[k];
        assert Get2(t, g.Off() + 2 * k) == cells[k].start;
        Get2Moved(t1, t, g.Off() + 2 * j, g.Off() + 2 * k);
        Get2Same(t1, u, g.Off() + 2 * j);
      }
    }
  }

  // The new cell is in place, and everything else is where it was.
  lemma Inserted(s: seq<byte>, t: seq<byte>, g: Geom, cells: seq<Region>, blocks: seq<Region>,
                 cells': seq<Region>, blocks': seq<Region>, cell: seq<byte>, idx: nat, i: nat)
    requires Page(s, g, cells, blocks) && i <= |cells|
    requires Allocated(s, t, g, cells, blocks, cells', blocks', |cell|, idx, i)
    ensures idx + |cell| <= |t| && idx < 65536 && |cells| + 1 < 65536 && Gap(g, |cells| + 1) <= |t|
    ensures var u := WithPointer(Paste(t, idx, cell), g, |cells|, i, idx);
            var c := InsertAt(cells', i, Region(idx, |cell|));
            && Page(u, g, c, blocks') && FreeBytes(u, g, c, blocks') == FreeBytes(s, g, cells, blocks) - |cell| - 2
            && KeepsInserted(s, u, cells, c, i, cell)
  {
    hide Tiling, Linked, Pointers, TopOf, Total, KeepsCells, KeepsInserted, WithPointer, Get2;
    var r := Region(idx, |cell|);
    var c := InsertAt(cells', i, r);
    TiledRegion(TopOf(t, g), g.usable, t[g.hdr + 7], cells', blocks', i, r);
    CellCount(s, t, g, cells);
    var t1 := Paste(t, idx, cell);
    var u := WithPointer(t1, g, |cells|, i, idx);
    WithPointerFrame(t1, g, |cells|, i, idx);
    PointersSame(t, t1, g, cells');
    WithPointerReads(t1, g, cells', i, r);
    TopSame(t, u, g);
    LinkedSame(t, u, g, blocks');
    InsertedBodies(s, t, u, g, cells, cells', i, r, cell);
  }

  // Every old cell keeps its bytes and its place in the order; the new cell reads back.
  ghost predicate KeepsInserted(s: seq<byte>, u: seq<byte>, cells: seq<Region>, c: seq<Region>, i: nat,
                                cell: seq<byte>) {
    && i <= |cells| && |c| == |cells| + 1
    && c[i].End() <= |u| && Body(u, c[i]) == cell
    && forall j | 0 <= j < |cells| ::
         var k := if j < i then j else j + 1;
         cells[j].End() <= |s| && c[k].End() <= |u| && Body(u, c[k]) == Body(s, cells[j])
  }

  lemma CellCount(s: seq<byte>, t: seq<byte>, g: Geom, cells: seq<Region>)
    requires g.Ok() && g.usable <= |s| == |t| && Gap(g, |cells| + 1) <= TopOf(t, g) <= g.usable
    ensures |cells| + 1 < 65536 && Gap(g, |cells| + 1) <= |t|
  {
  }

  lemma TiledRegion(top: nat, usable: nat, frag: nat, cells: seq<Region>, blocks: seq<Region>, i: nat, r: Region)
    requires i <= |cells| && Tiling(top, usable, frag, InsertAt(cells, i, r), blocks)
    ensures top <= usable && top <= r.start && r.End() <= usable && r.len >= 4 && r.start + 4 <= usable
    ensures forall k | 0 <= k < |blocks| ::
              Apart(r, blocks[k]) && top < blocks[k].start && blocks[k].len >= 4
              && blocks[k].End() <= usable
    ensures forall k | 0 <= k < |cells| :: Apart(cells[k], r) && top <= cells[k].start && cells[k].End() <= usable
  {
    hide Total;
    var c := InsertAt(cells, i, r);
    assert c[i] == r;
    forall k | 0 <= k < |blocks| ensures Apart(r, blocks[k]) { assert ApartFrom(c, blocks[k]); }
    forall k | 0 <= k < |cells| ensures Apart(cells[k], r) && top <= cells[k].start && cells[k].End() <= usable {
      assert cells[k] == c[if k < i then k else k + 1];
    }
  }

  lemma InsertedBodies(s: seq<byte>, t: seq<byte>, u: seq<byte>, g: Geom, cells: seq<Region>, cells': seq<Region>,
                       i: nat, r: Region, cell: seq<byte>)
    requires KeepsCells(s, t, cells, cells') && i <= |cells| && r.len == |cell| && r.End() <= |t| == |u|
    requires forall p | 0 <= p < |t| && !(g.hdr + 3 <= p < g.hdr + 5) && !(g.Off() <= p < Gap(g, |cells| + 1)) ::
               u[p] == Paste(t, r.start, cell)[p]
    requires Gap(g, |cells| + 1) <= r.start && g.hdr + 8 <= g.Off()
    requires forall k | 0 <= k < |cells| ::
               Apart(cells'[k], r) && Gap(g, |cells| + 1) <= cells'[k].start
               && cells'[k].End() <= |t|
    ensures KeepsInserted(s, u, cells, InsertAt(cells', i, r), i, cell)
  {
    var c := InsertAt(cells', i, r);
    assert c[i] == r;
    assert Body(u, r) == cell;
    forall j | 0 <= j < |cells| ensures Body(u, c[if j < i then j else j + 1]) == Body(s, cells[j]) {
      assert c[if j < i then j else j + 1] == cells'[j];
      BodySame(t, u, cells'[j]);
    }
  }
}
