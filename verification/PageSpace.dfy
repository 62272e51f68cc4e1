/** MemPage: cells are inserted into and dropped from a page's byte buffer in place. */
module PageSpace {
  import opened Common
  import opened PageLayout
  import opened PageBytes
  import opened PageFree
  import opened PageAlloc
  import opened PageDefrag

  // ---------- buffer primitives ----------

  function Read2(a: array<byte>, i: nat): nat
    requires i + 2 <= a.Length
    reads a
    ensures Read2(a, i) == Get2(a[..], i)
  {
    (a[i] as int) * 256 + a[i + 1] as int
  }

  method Write2(a: array<byte>, i: nat, v: nat)
    requires i + 2 <= a.Length && v < 65536
    modifies a
    ensures a[..] == Put2(old(a[..]), i, v)
  {
    a[i] := v / 256;
    a[i + 1] := v % 256;
  }

  method MemMove(a: array<byte>, dst: nat, src: nat, n: nat)
    requires dst + n <= a.Length && src + n <= a.Length
    modifies a
    ensures a[..] == Moved(old(a[..]), dst, src, n)
  {
    forall p | 0 <= p < n { a[dst + p] := a[src + p]; }
    assert a[..] == Moved(old(a[..]), dst, src, n);
  }

  method MemCopy(a: array<byte>, dst: nat, src: seq<byte>)
    requires dst + |src| <= a.Length
    modifies a
    ensures a[..] == Paste(old(a[..]), dst, src)
  {
    forall p | 0 <= p < |src| { a[dst + p] := src[p]; }
    assert a[..] == Paste(old(a[..]), dst, src);
  }

  lemma LinkedPtr(s: seq<byte>, g: Geom, blocks: seq<Region>, k: nat)
    requires Linked(s, g, blocks) && k <= |blocks|
    ensures PtrOf(g, blocks, k) + 2 <= |s| && Get2(s, PtrOf(g, blocks, k)) == Target(blocks, k)
    ensures k < |blocks| ==> SizeAt(s, blocks[k])
  {
    assert PtrAt(s, g, blocks, k);
  }

  // A page with a cell stores its content offset as itself.
  lemma TopIsStored(s: seq<byte>, t: seq<byte>, g: Geom, cells: seq<Region>, blocks: seq<Region>, i: nat)
    requires Page(s, g, cells, blocks) && i < |cells| && Same(s, t, g.hdr + 5, g.hdr + 7)
    ensures Get2(t, g.hdr + 5) == TopOf(s, g)
  {
    Get2Same(s, t, g.hdr + 5);
  }

  lemma PtrAtHeader(g: Geom, blocks: seq<Region>, r: Region, k: nat)
    requires k <= |blocks| && JoinLo(blocks, r, k) == 0 && !JoinsPrev(blocks, r, k)
    ensures PtrOf(g, blocks, k) == g.hdr + 1
  {
  }

  function TopBytes(s: seq<byte>, g: Geom, n: Region, next: nat): seq<byte>
    requires g.hdr + 8 <= |s| && next < 65536
  {
    Put2(Put2(s, g.hdr + 1, next), g.hdr + 5, n.End() % 65536)
  }

  function BlockBytes(s: seq<byte>, n: Region, ptr: nat, next: nat): seq<byte>
    requires ptr + 2 <= |s| && n.start + 4 <= |s| && next < 65536 && n.start < 65536 && n.len < 65536
  {
    Put2(Put2(Put2(s, ptr, n.start), n.start, next), n.start + 2, n.len)
  }

  lemma TopWritten(s: seq<byte>, s1: seq<byte>, g: Geom, blocks: seq<Region>, n: Region, k: nat, nFrag: nat, next: nat)
    requires g.Ok() && g.usable <= |s| && nFrag <= s[g.hdr + 7] as int && s1 == s[g.hdr + 7 := s[g.hdr + 7] - nFrag]
    requires next < 65536 && 0 < n.End() <= 65536
    ensures var t := TopBytes(s1, g, n, next);
            Untouched(s, t, g, blocks, n, k) && TopWrites(s, t, g, next, n)
                && t[g.hdr + 7] as int == s[g.hdr + 7] as int - nFrag
  {
    var t1 := Put2(s1, g.hdr + 1, next);
    var t := Put2(t1, g.hdr + 5, n.End() % 65536);
    Get2Same(t1, t, g.hdr + 1);
  }

  lemma BlockWritten(s: seq<byte>, s1: seq<byte>, g: Geom, cells: seq<Region>, blocks: seq<Region>, i: nat, n: Region,
                     k: nat, nFrag: nat, next: nat)
    requires Page(s, g, cells, blocks) && i < |cells| && Slot(blocks, cells[i].start, k)
             && n == Joined(blocks, cells[i], k)
    requires nFrag <= s[g.hdr + 7] as int && s1 == s[g.hdr + 7 := s[g.hdr + 7] - nFrag] && next < 65536
    requires n.start > TopOf(s, g) && n.End() <= g.usable && n.len >= 4
    ensures PtrOf(g, blocks, k) + 2 <= |s| && n.len < 65536 && n.start < 65536
    ensures var t := BlockBytes(s1, n, PtrOf(g, blocks, k), next);
            && Untouched(s, t, g, blocks, n, k) && t[g.hdr + 7] as int == s[g.hdr + 7] as int - nFrag
            && BlockWrites(s, t, g, PtrOf(g, blocks, JoinLo(blocks, cells[i], k)), next, n, k)
  {
    hide Tiling, Linked, Pointers, TopOf, Get2, JoinFrag, BlockBytes;
    var r := cells[i];
    var lo := JoinLo(blocks, r, k);
    BlocksBeyondHeader(s, g, cells, blocks);
    GapBelow(s, g, cells, blocks);
    PageTiles(s, g, cells, blocks);
    JoinedSpacing(TopOf(s, g), g.usable, s[g.hdr + 7], cells, blocks, i, k);
    var p := PtrOf(g, blocks, k);
    var t := BlockBytes(s1, n, p, next);
    BlockBytesFrame(s1, n, p, next);
    TopSame(s, t, g);
    if JoinsPrev(blocks, r, k) {
      LinkedPtr(s, g, blocks, lo);
      if lo > 0 { SpacedAt(blocks, lo - 1, lo); }
      Get2Same(s, t, PtrOf(g, blocks, lo));
    }
  }

  lemma BlockBytesFrame(s: seq<byte>, n: Region, ptr: nat, next: nat)
    requires ptr + 2 <= |s| && n.start + 4 <= |s| && next < 65536 && n.start < 65536 && n.len < 65536
    ensures var t := BlockBytes(s, n, ptr, next);
            && |t| == |s| && Get2(t, n.start) == next && Get2(t, n.start + 2) == n.len
            && (ptr + 2 <= n.start || n.start + 4 <= ptr ==> Get2(t, ptr) == n.start)
            && (forall p | 0 <= p < |s| && !(ptr <= p < ptr + 2) && !(n.start <= p < n.start + 4) :: t[p] == s[p])
  {
    hide Get2;
    var t1 := Put2(s, ptr, n.start);
    var t2 := Put2(t1, n.start, next);
    var t := Put2(t2, n.start + 2, n.len);
    Get2Same(t2, t, n.start);
    if ptr + 2 <= n.start || n.start + 4 <= ptr { Get2Same(t1, t, ptr); }
  }

  // A cell's size can be read off its own bytes, whatever follows them.
  ghost predicate SelfDelimiting(f: seq<byte> -> nat) {
    forall x: seq<byte>, y: seq<byte> {:trigger f(x), f(y)} | f(x) <= |x| && f(x) <= |y| && x[..f(x)] == y[..f(x)] ::
        f(y) == f(x)
  }

  ghost predicate AllSized(f: seq<byte> -> nat, cs: seq<seq<byte>>) {
    forall i | 0 <= i < |cs| :: f(cs[i]) == |cs[i]|
  }

  ghost predicate Fits(s: seq<byte>, cells: seq<Region>) {
    forall i | 0 <= i < |cells| :: cells[i].End() <= |s|
  }

  lemma PointerOf(s: seq<byte>, g: Geom, cells: seq<Region>, blocks: seq<Region>, i: nat)
    requires Page(s, g, cells, blocks) && i < |cells|
    ensures g.Off() + 2 * i + 2 <= Gap(g, |cells|) <= |s| && Get2(s, g.Off() + 2 * i) == cells[i].start
    ensures cells[i].len >= 4 && cells[i].End() <= g.usable && cells[i].start < 65536
            && Gap(g, |cells|) <= cells[i].start
  {
    hide Total, Linked;
  }

  lemma CountBound(s: seq<byte>, g: Geom, cells: seq<Region>, blocks: seq<Region>)
    requires Page(s, g, cells, blocks)
    ensures |cells| < 65536
  {
  }

  lemma EmptyPage(s: seq<byte>, g: Geom)
    requires g.Ok() && g.usable <= |s| && Get2(s, g.hdr + 5) == g.usable % 65536
    requires s[g.hdr + 1] == s[g.hdr + 2] == s[g.hdr + 3] == s[g.hdr + 4] == s[g.hdr + 7] == 0
    ensures Page(s, g, [], []) && FreeBytes(s, g, [], []) == g.usable - g.hdr - g.child - 8
  {
    LinkedEmpty(s, g);
  }

  lemma NoCells(f: seq<byte> -> nat, s: seq<byte>)
    ensures Fits(s, []) && AllSized(f, Contents(s, [])) && Contents(s, []) == []
  {
  }

  // Cells that do not overlap the pointer array are untouched by edits to it and to the cell count.
  lemma HeaderEdit(t: seq<byte>, u: seq<byte>, g: Geom, blocks: seq<Region>, gap: nat)
    requires Linked(t, g, blocks) && g.hdr + 8 <= gap <= |t| == |u| && g.hdr + 8 <= g.Off()
    requires forall p | 0 <= p < |t| && !(g.hdr + 3 <= p < g.hdr + 5) && !(g.Off() <= p < gap) :: u[p] == t[p]
    requires forall k | 0 <= k < |blocks| :: gap <= blocks[k].start && blocks[k].start + 4 <= |t|
    ensures Linked(u, g, blocks) && TopOf(u, g) == TopOf(t, g) && u[g.hdr + 7] == t[g.hdr + 7]
    ensures forall r: Region | gap <= r.start && r.End() <= |t| :: Body(u, r) == Body(t, r)
  {
    hide Linked;
    TopSame(t, u, g);
    LinkedSame(t, u, g, blocks);
    forall r: Region | gap <= r.start && r.End() <= |t| ensures Body(u, r) == Body(t, r) { BodySame(t, u, r); }
  }

  lemma TilingBounds(top: nat, usable: nat, frag: nat, cells: seq<Region>, blocks: seq<Region>)
    requires Tiling(top, usable, frag, cells, blocks)
    ensures forall k | 0 <= k < |blocks| :: top < blocks[k].start && blocks[k].start + 4 <= blocks[k].End() <= usable
    ensures forall k | 0 <= k < |cells| :: top <= cells[k].start && cells[k].start + 4 <= cells[k].End() <= usable
  {
    hide Total;
  }

  // The pointer array of n cells without its idx-th entry, and one less in the cell count.
  function WithoutPointer(t: seq<byte>, g: Geom, n: nat, idx: nat): (u: seq<byte>)
    requires idx < n < 65536 && Gap(g, n) <= |t| && g.hdr + 8 <= |t|
  {
    Put2(Moved(t, g.Off() + 2 * idx, g.Off() + 2 * idx + 2, 2 * (n - 1 - idx)), g.hdr + 3, n - 1)
  }

  // Closing the gap in the pointer array after freeSpace.
  lemma Dropped(s: seq<byte>, t: seq<byte>, u: seq<byte>, g: Geom, cells: seq<Region>, blocks: seq<Region>, i: nat,
                k: nat)
    requires Page(s, g, cells, blocks) && i < |cells| && |cells| > 1 && Slot(blocks, cells[i].start, k)
    requires FreeWrites(s, t, g, blocks, cells[i], k)
    requires |t| == |s| && Gap(g, |cells|) <= |t| && g.hdr + 8 <= |t| && |cells| < 65536
    requires u == WithoutPointer(t, g, |cells|, i)
    ensures var c, b := Without(cells, i), FreedBlocks(TopOf(s, g), blocks, cells[i], k);
            && Page(u, g, c, b) && FreeBytes(u, g, c, b) == FreeBytes(s, g, cells, blocks) + cells[i].len + 2
            && Fits(u, c) && Fits(s, cells) && Contents(u, c) == Contents(s, cells)[..i] + Contents(s, cells)[i + 1..]
  {
    hide Tiling, Linked, Pointers, FreeWrites, Get2, TopOf, FreedBlocks, Total;
    var c, b := Without(cells, i), FreedBlocks(TopOf(s, g), blocks, cells[i], k);
    BlocksBeyondHeader(s, g, cells, blocks);
    FreedPage(s, t, g, cells, blocks, i, k);
    FreeKeepsPointers(s, t, g, cells, blocks, i, k);
    TilingBounds(TopOf(t, g), g.usable, t[g.hdr + 7], c, b);
    HeaderEdit(t, u, g, b, Gap(g, |cells|));
    ShiftedPointers(t, u, g, cells, i);
    forall j | 0 <= j < |cells| && j != i ensures Body(u, cells[j]) == Body(s, cells[j]) {
      FreeKeepsCells(s, t, g, cells, blocks, i, k, j);
      CellBeyond(c, cells, i, j, TopOf(t, g), g.usable);
    }
    ContentsWithout(s, u, cells, i);
  }

  lemma CellBeyond(c: seq<Region>, cells: seq<Region>, i: nat, j: nat, lo: nat, hi: nat)
    requires i < |cells| && j < |cells| && j != i && c == Without(cells, i)
    requires forall k | 0 <= k < |c| :: lo <= c[k].start && c[k].End() <= hi
    ensures lo <= cells[j].start && cells[j].End() <= hi
  {
    assert cells[j] == c[if j < i then j else j - 1];
  }

  lemma ContentsWithout(s: seq<byte>, u: seq<byte>, cells: seq<Region>, i: nat)
    requires i < |cells| && Fits(s, cells) && |u| == |s|
    requires forall j | 0 <= j < |cells| && j != i :: Body(u, cells[j]) == Body(s, cells[j])
    ensures Fits(u, Without(cells, i))
    ensures Contents(u, Without(cells, i)) == Contents(s, cells)[..i] + Contents(s, cells)[i + 1..]
  {
    var c := Without(cells, i);
    assert forall j | 0 <= j < |c| :: c[j] == if j < i then cells[j] else cells[j + 1];
    var x, y := Contents(u, c), Contents(s, cells);
    var z := y[..i] + y[i + 1..];
    forall j | 0 <= j < |x| ensures x[j] == z[j] {
      assert x[j] == Body(u, c[j]);
      assert z[j] == y[if j < i then j else j + 1];
    }
  }

  lemma ShiftedPointers(t: seq<byte>, u: seq<byte>, g: Geom, cells: seq<Region>, i: nat)
    requires Pointers(t, g, cells) && i < |cells| < 65536 && Gap(g, |cells|) <= |t| && g.hdr + 8 <= |t|
    requires u == WithoutPointer(t, g, |cells|, i)
    ensures Pointers(u, g, Without(cells, i)) && Get2(u, g.hdr + 3) == |cells| - 1
  {
    var c := Without(cells, i);
    forall j | 0 <= j < |c| ensures Get2(u, g.Off() + 2 * j) == c[j].start {
      assert Get2(t, g.Off() + 2 * (if j < i then j else j + 1)) == c[j].start;
    }
  }

  lemma SizedWithout(f: seq<byte> -> nat, s: seq<byte>, u: seq<byte>, cells: seq<Region>, i: nat)
    requires i < |cells| && Fits(s, cells) && Fits(u, Without(cells, i)) && AllSized(f, Contents(s, cells))
    requires Contents(u, Without(cells, i)) == Contents(s, cells)[..i] + Contents(s, cells)[i + 1..]
    ensures AllSized(f, Contents(u, Without(cells, i)))
  {
  }

  lemma SqueezeFacts(s: seq<byte>, g: Geom, cells: seq<Region>, blocks: seq<Region>)
    requires Page(s, g, cells, blocks) && 1 <= |blocks| <= 2
    ensures g.Ok() && g.usable <= |s| && Get2(s, g.hdr + 1) == blocks[0].start && Get2(s, g.hdr + 5) == TopOf(s, g)
    ensures g.hdr + 8 < blocks[0].start && TopOf(s, g) < blocks[0].start
            && blocks[0].End() + SecondLen(blocks) <= g.usable
    ensures Get2(s, blocks[0].start) == (if |blocks| == 2 then blocks[1].start else 0)
    ensures SizeAt(s, blocks[0]) && (|blocks| == 2 ==>
              SizeAt(s, blocks[1]) && blocks[0].End() <= blocks[1].start
              && blocks[1].End() <= g.usable && 0 < blocks[1].start)
  {
    hide Tiling, Linked, Pointers, Get2, Total;
    BlocksBeyondHeader(s, g, cells, blocks);
    BlockBound(s, g, cells, blocks);
    PageTiles(s, g, cells, blocks);
    GapBelow(s, g, cells, blocks);
    LinkFields(s, g, blocks, 0);
    if |blocks| == 2 { LinkFields(s, g, blocks, 1); SpacedAt(blocks, 0, 1); }
    TilingBounds(TopOf(s, g), g.usable, s[g.hdr + 7], cells, blocks);
    SomeCell(s, g, cells, blocks);
    TopIsStored(s, s, g, cells, blocks, 0);
  }

  lemma MiddleIs(s: seq<byte>, blocks: seq<Region>)
    requires |blocks| == 2 && blocks[0].End() <= blocks[1].start && blocks[1].End() <= |s|
    ensures MovedMiddle(s, blocks) == Moved(s, blocks[0].start + blocks[0].len + blocks[1].len,
            blocks[0].start + blocks[0].len, blocks[1].start - (blocks[0].start + blocks[0].len))
  {
  }

  lemma FrontIs(s: seq<byte>, blocks: seq<Region>, top: nat)
    requires 1 <= |blocks| <= 2 && top <= blocks[0].start && blocks[0].End() + SecondLen(blocks) <= |s|
    ensures MovedFront(s, blocks, top) == Moved(s, top + (blocks[0].len + SecondLen(blocks)), top,
            blocks[0].start - top)
  {
  }

  predicate Squeezable(s: seq<byte>, g: Geom, blocks: seq<Region>) {
    && 1 <= |blocks| <= 2 && g.hdr + 7 <= |s| && TopOf(s, g) <= blocks[0].start
         && blocks[0].End() + SecondLen(blocks) <= |s|
    && (|blocks| == 2 ==> blocks[0].End() <= blocks[1].start && blocks[1].End() <= |s|)
  }

  function SqueezedBytes(s: seq<byte>, g: Geom, blocks: seq<Region>): seq<byte>
    requires Squeezable(s, g, blocks)
  {
    MovedFront(if |blocks| == 2 then MovedMiddle(s, blocks) else s, blocks, TopOf(s, g))
  }

  function ShiftedCells(cells: seq<Region>, blocks: seq<Region>): (moved: seq<Region>)
    requires 1 <= |blocks| <= 2
    ensures Squeezed(cells, blocks, moved)
  {
    seq(|cells|, i requires 0 <= i < |cells| => Region(cells[i].start + Shift(blocks, cells[i].start), cells[i].len))
  }

  lemma ShiftedFacts(s: seq<byte>, m: seq<byte>, g: Geom, cells: seq<Region>, blocks: seq<Region>, moved: seq<Region>)
    requires Page(s, g, cells, blocks) && 1 <= |blocks| <= 2 && Squeezed(cells, blocks, moved)
             && Same(s, m, 0, TopOf(s, g))
    ensures Pointers(m, g, cells) && forall i | 0 <= i < |moved| :: moved[i].start < 65536
  {
    hide Tiling, Linked, Pointers, Get2, Total, TopOf;
    GapBelow(s, g, cells, blocks);
    PageTiles(s, g, cells, blocks);
    PointersSame(s, m, g, cells);
    forall i | 0 <= i < |moved| ensures moved[i].start < 65536 {
      SqueezeOne(TopOf(s, g), g.usable, s[g.hdr + 7], cells, blocks, i);
      CellAtTop(s, g, cells, blocks, i);
    }
  }

  lemma TotalOfFew(blocks: seq<Region>)
    requires 1 <= |blocks| <= 2
    ensures Total(blocks) == blocks[0].len + SecondLen(blocks)
  {
    if |blocks| == 2 { assert blocks == [blocks[0], blocks[1]]; TotalTwo(blocks[0], blocks[1]); }
    else { assert blocks == [blocks[0]]; TotalSmall(blocks[0]); }
  }

  lemma RepackFacts(s: seq<byte>, g: Geom, cells: seq<Region>, blocks: seq<Region>)
    requires Page(s, g, cells, blocks)
    ensures g.Ok() && g.usable <= |s|
    ensures Linked(s, g, blocks) && Gap(g, |cells|) <= TopOf(s, g)
  {
  }

  lemma StoredTop(s: seq<byte>, g: Geom, cells: seq<Region>, blocks: seq<Region>)
    requires Page(s, g, cells, blocks) && cells != []
    ensures Get2(s, g.hdr + 5) == TopOf(s, g)
  {
    TopIsStored(s, s, g, cells, blocks, 0);
  }

  // The size of a cell is found from the bytes at its start.
  lemma SizeRead(f: seq<byte> -> nat, s: seq<byte>, g: Geom, cells: seq<Region>, i: nat)
    requires Fits(s, cells) && i < |cells| && AllSized(f, Contents(s, cells)) && SelfDelimiting(f)
    requires cells[i].End() <= g.usable <= |s|
    ensures f(s[cells[i].start..g.usable]) == cells[i].len
            && Body(s, cells[i]) == s[cells[i].start..cells[i].start + cells[i].len]
  {
    var x, y := Body(s, cells[i]), s[cells[i].start..g.usable];
    assert Contents(s, cells)[i] == x;
    assert f(x) == |x| == cells[i].len;
    assert x[..f(x)] == y[..f(x)];
  }

  lemma FewFacts(s: seq<byte>, g: Geom, cells: seq<Region>, blocks: seq<Region>)
    requires Page(s, g, cells, blocks)
    ensures g.hdr + 3 <= |s| && Get2(s, g.hdr + 1) == Target(blocks, 0)
    ensures forall k | 0 <= k < |blocks| ::
              0 < blocks[k].start && blocks[k].start + 4 <= |s|
              && Get2(s, blocks[k].start) == Target(blocks, k + 1)
  {
    hide Tiling, Linked, Pointers, Get2, TopOf;
    PageTiles(s, g, cells, blocks);
    BlockBound(s, g, cells, blocks);
    LinkedPtr(s, g, blocks, 0);
    forall k | 0 <= k < |blocks|
      ensures blocks[k].start + 4 <= |s| && Get2(s, blocks[k].start) == Target(blocks, k + 1)
    {
      LinkFields(s, g, blocks, k);
    }
  }

  lemma ReadyBounds(s: seq<byte>, m: seq<byte>, g: Geom, cells: seq<Region>, c: seq<Region>, cbrk: nat)
    requires Ready(s, m, g, cells, c, cbrk)
    ensures g.hdr + 8 <= Gap(g, |cells|) <= cbrk <= g.usable
  {
  }

  lemma DefragKeeps(s: seq<byte>, t: seq<byte>, g: Geom, cells: seq<Region>, blocks: seq<Region>, c: seq<Region>)
    requires Defragmented(s, t, g, cells, blocks, c)
    ensures Fits(s, cells) && Fits(t, c) && Contents(t, c) == Contents(s, cells) && |c| == |cells|
    ensures Page(t, g, c, []) && g.hdr + 8 <= |s| && FreeBytes(t, g, c, []) == FreeBytes(s, g, cells, blocks)
  {
    hide Page;
  }

  lemma AllocFacts(s: seq<byte>, g: Geom, cells: seq<Region>, blocks: seq<Region>, nByte: nat)
    requires Page(s, g, cells, blocks) && nByte + 2 <= FreeBytes(s, g, cells, blocks)
    ensures g.Ok() && g.usable <= |s| && Gap(g, |cells|) <= TopOf(s, g) <= g.usable && nByte <= g.usable
  {
  }

  lemma HasBlocks(s: seq<byte>, g: Geom, cells: seq<Region>, blocks: seq<Region>)
    requires Page(s, g, cells, blocks)
    ensures g.hdr + 3 <= |s| && ((s[g.hdr + 2] != 0 || s[g.hdr + 1] != 0) <==> blocks != [])
  {
    hide Tiling, Pointers;
    FewFacts(s, g, cells, blocks);
  }

  lemma SlotAboveGap(s: seq<byte>, t: seq<byte>, g: Geom, cells: seq<Region>, blocks: seq<Region>,
                     c: seq<Region>, b: seq<Region>, nByte: nat, idx: nat, i: nat)
    requires Allocated(s, t, g, cells, blocks, c, b, nByte, idx, i)
    ensures Gap(g, |cells|) + 2 <= idx
  {
    hide Tiling, Pointers, Linked, Total, KeepsCells, Get2, TopOf;
    TiledRegion(TopOf(t, g), g.usable, t[g.hdr + 7], c, b, i, Region(idx, nByte));
  }

  // With no freeblocks, all free bytes but the fragments are in the gap.
  lemma DefragRoom(s: seq<byte>, g: Geom, cells: seq<Region>)
    requires Page(s, g, cells, [])
    ensures g.Ok() && g.usable <= |s| && TopOf(s, g) - Gap(g, |cells|) ==
            FreeBytes(s, g, cells, []) - s[g.hdr + 7] as int
  {
    TotalSmall(Region(0, 0));
  }

  lemma CountKept(s: seq<byte>, t: seq<byte>, u: seq<byte>, g: Geom, cells: seq<Region>, blocks: seq<Region>,
                  c: seq<Region>, b: seq<Region>, idx: nat, cell: seq<byte>, i: nat)
    requires Page(s, g, cells, blocks) && Allocated(s, t, g, cells, blocks, c, b, |cell|, idx, i)
    requires idx + |cell| <= |t| && u == Paste(t, idx, cell)
    ensures Get2(u, g.hdr + 3) == |cells|
  {
    hide Tiling, TopOf, Get2;
    TiledRegion(TopOf(t, g), g.usable, t[g.hdr + 7], c, b, i, Region(idx, |cell|));
    Get2Same(t, u, g.hdr + 3);
  }

  lemma InsertedContents(s: seq<byte>, u: seq<byte>, cells: seq<Region>, c: seq<Region>, i: nat, cell: seq<byte>)
    requires KeepsInserted(s, u, cells, c, i, cell)
    ensures Fits(s, cells) && Fits(u, c) && Contents(u, c) == InsertAt(Contents(s, cells), i, cell)
  {
    forall k | 0 <= k < |c| ensures c[k].End() <= |u| {
      if k < i { assert cells[k].End() <= |s|; } else if k > i { assert cells[k - 1].End() <= |s|; }
    }
    var x, y := Contents(u, c), InsertAt(Contents(s, cells), i, cell);
    forall k | 0 <= k < |x| ensures x[k] == y[k] {
      if k < i { assert Body(s, cells[k]) == Body(u, c[k]); }
      else if k > i { assert Body(s, cells[k - 1]) == Body(u, c[k]); }
    }
  }

  lemma SizedInsert(f: seq<byte> -> nat, v: seq<seq<byte>>, i: nat, cell: seq<byte>)
    requires AllSized(f, v) && i <= |v| && f(cell) == |cell|
    ensures AllSized(f, InsertAt(v, i, cell))
  {
  }

  lemma CountAfterMove(t: seq<byte>, g: Geom, n: nat, i: nat, idx: nat)
    requires i <= n && idx < 65536 && Gap(g, n + 1) <= |t| && g.hdr + 8 <= |t|
    ensures Get2(Put2(Moved(t, g.Off() + 2 * i + 2, g.Off() + 2 * i, 2 * (n - i)), g.Off() + 2 * i, idx), g.hdr + 3) ==
            Get2(t, g.hdr + 3)
  {
    hide Get2;
    var u := Put2(Moved(t, g.Off() + 2 * i + 2, g.Off() + 2 * i, 2 * (n - i)), g.Off() + 2 * i, idx);
    Get2Same(t, u, g.hdr + 3);
  }

  // Bytes a list of cells takes on a page, counting each cell's two-byte pointer.
  function Footprint(v: seq<seq<byte>>): nat { if v == [] then 0 else |v[0]| + 2 + Footprint(v[1..]) }

  lemma {:induction false} FootprintSum(s: seq<byte>, cells: seq<Region>)
    requires Fits(s, cells)
    ensures Footprint(Contents(s, cells)) == Sum(cells) + 2 * |cells|
  {
    if cells != [] {
      FootprintSum(s, cells[1..]);
      assert Contents(s, cells)[1..] == Contents(s, cells[1..]);
    }
  }

  /** However the free bytes are spread over gap, freeblocks and fragments, their number depends on the cells alone. */
  lemma FreeBytesFromCells(s: seq<byte>, g: Geom, cells: seq<Region>, blocks: seq<Region>)
    requires Page(s, g, cells, blocks)
    ensures Fits(s, cells) && FreeBytes(s, g, cells, blocks) == g.usable - g.Off() - Footprint(Contents(s, cells))
  {
    hide Linked, Pointers, TopOf;
    FitsPage(s, g, cells, blocks);
    FootprintSum(s, cells);
  }

  lemma FitsPage(s: seq<byte>, g: Geom, cells: seq<Region>, blocks: seq<Region>)
    requires Page(s, g, cells, blocks)
    ensures Fits(s, cells)
  {
    hide Linked, Pointers, TopOf, Total;
  }

  // The first freeblock with room for nByte bytes, or the number of freeblocks.
  function FirstFit(blocks: seq<Region>, nByte: nat): (j: nat)
    ensures j <= |blocks| && (forall l | 0 <= l < j :: blocks[l].len < nByte)
    ensures j < |blocks| ==> blocks[j].len >= nByte
  {
    if blocks == [] || blocks[0].len >= nByte then 0 else 1 + FirstFit(blocks[1..], nByte)
  }

  lemma FitIs(blocks: seq<Region>, nByte: nat, j: nat)
    requires j <= |blocks| && (forall l | 0 <= l < j :: blocks[l].len < nByte)
    requires j < |blocks| ==> blocks[j].len >= nByte
    ensures FirstFit(blocks, nByte) == j
  {
  }

  lemma FitsAt(blocks: seq<Region>, nByte: nat)
    ensures FirstFit(blocks, nByte) < |blocks| ==> blocks[FirstFit(blocks, nByte)].len >= nByte
  {
  }

  datatype Edit = Insert(at: nat, cell: seq<byte>) | Drop(at: nat)

  // The edit asks for something the page's callers ask for: a position among n cells and a cell of its own size.
  predicate Asked(f: seq<byte> -> nat, n: nat, e: Edit) {
    match e
    case Insert(i, cell) => i <= n && |cell| >= 4 && f(cell) == |cell|
    case Drop(i) => i < n
  }

  // What an edit does to the list of cells when room bytes are shared by cells and pointers.
  function Edited(f: seq<byte> -> nat, room: int, v: seq<seq<byte>>, e: Edit): seq<seq<byte>> {
    if !Asked(f, |v|, e) then v
    else
      match e
      case Insert(i, cell) => if Footprint(v) + |cell| + 2 <= room then v[..i] + [cell] + v[i..] else v
      case Drop(i) => v[..i] + v[i + 1..]
  }

  // The first freeblock lies inside the content area.
  lemma FirstBlock(s: seq<byte>, g: Geom, cells: seq<Region>, blocks: seq<Region>)
    requires Page(s, g, cells, blocks) && blocks != []
    ensures TopOf(s, g) < blocks[0].start
  {
    hide Total, Linked, Pointers;
  }

  class MemPage {
    const g: Geom
    const data: array<byte>
    const cellSize: seq<byte> -> nat
    var nCell: nat
    var nFree: int
    ghost var cells: seq<Region>
    ghost var blocks: seq<Region>

    /** zeroPage: an empty page. */
    constructor ZeroPage(g: Geom, pageSize: nat, cellSize: seq<byte> -> nat)
      requires g.Ok() && g.usable <= pageSize && SelfDelimiting(cellSize)
      ensures Valid() && View() == [] && nFree == g.usable - g.Off() && fresh(data)
      ensures this.g == g && this.cellSize == cellSize && data.Length == pageSize
    {
      this.g, this.cellSize, data := g, cellSize, new byte[pageSize];
      nCell, nFree, cells, blocks := 0, g.usable - g.Off(), [], [];
      new;
      hide Page, SelfDelimiting, FreeBytes;
      Clear();
      NoCells(cellSize, data[..]);
    }

    ghost predicate Formed()
      reads this, data
    {
      Page(data[..], g, cells, blocks)
    }

    // Walk the ascending freeblock list to where a block starting at iStart belongs.
    method FindPlace(iStart: nat) returns (rc: Rc, iPtr: nat, iFreeBlk: nat, ghost k: nat)
      requires Formed() && 0 < iStart
      ensures rc.OK? && Slot(blocks, iStart, k) && iPtr == PtrOf(g, blocks, k) && iFreeBlk == Target(blocks, k)
      ensures iPtr + 2 <= data.Length
    {
      hide Tiling, Linked, Pointers, Get2, TopOf;
      BlocksBeyondHeader(data[..], g, cells, blocks);
      GapBelow(data[..], g, cells, blocks);
      rc, k := OK, 0;
      LinkedPtr(data[..], g, blocks, 0);
      iPtr := g.hdr + 1;
      iFreeBlk := Read2(data, iPtr);
      while iFreeBlk < iStart
        invariant k <= |blocks| && iPtr == PtrOf(g, blocks, k) && iFreeBlk == Target(blocks, k)
        invariant forall l | 0 <= l < k :: blocks[l].start < iStart
        decreases |blocks| - k
      {
        assert k < |blocks| ==> iPtr < iFreeBlk by { if 0 < k < |blocks| { SpacedAt(blocks, k - 1, k); } }
        if iFreeBlk <= iPtr {
          if iFreeBlk == 0 { break; }
          assert false;
          return CORRUPT, iPtr, iFreeBlk, k;
        }
        k := k + 1;
        iPtr := iFreeBlk;
        LinkedPtr(data[..], g, blocks, k);
        iFreeBlk := Read2(data, iPtr);
      }
      forall l | k < l < |blocks| ensures iStart <= blocks[l].start { SpacedAt(blocks, k, l); }
    }

    // Coalesce the freed bytes with the freeblocks within three bytes on either side.
    method Coalesce(r: Region, iPtr: nat, iFreeBlk0: nat, ghost i: nat, ghost k: nat)
      returns (rc: Rc, n: Region, iFreeBlk: nat, nFrag: nat)
      requires Formed() && i < |cells| && cells[i] == r && Slot(blocks, r.start, k)
      requires iPtr == PtrOf(g, blocks, k) && iFreeBlk0 == Target(blocks, k)
      ensures rc.OK? && n == Joined(blocks, r, k) && iFreeBlk == Target(blocks, JoinHi(blocks, r, k))
      ensures nFrag == JoinFrag(blocks, r, k) && iFreeBlk < 65536
    {
      hide Tiling, Linked, Pointers, Get2, TopOf;
      ghost var s := data[..];
      BlocksBeyondHeader(s, g, cells, blocks);
      PageTiles(s, g, cells, blocks);
      FreeNeighbours(TopOf(s, g), g.usable, s[g.hdr + 7], cells, blocks, i, k);
      BlockBound(s, g, cells, blocks);
      LinkedPtr(s, g, blocks, k);
      if k < |blocks| { LinkedPtr(s, g, blocks, k + 1); }
      if k > 0 { LinkedPtr(s, g, blocks, k - 1); }
      var iStart, iEnd := r.start, r.End();
      iFreeBlk, nFrag := iFreeBlk0, 0;
      rc, n := OK, r;
      if iFreeBlk > g.usable - 4 {
        assert false;
        rc := CORRUPT;
        return;
      }
      if iFreeBlk != 0 && iEnd + 3 >= iFreeBlk {
        if iEnd > iFreeBlk {
          assert false;
          rc := CORRUPT;
          return;
        }
        nFrag := iFreeBlk - iEnd;
        iEnd := iFreeBlk + Read2(data, iFreeBlk + 2);
        if iEnd > g.usable {
          assert false;
          rc := CORRUPT;
          return;
        }
        iFreeBlk := Read2(data, iFreeBlk);
      }
      if iPtr > g.hdr + 1 {
        var iPtrEnd := iPtr + Read2(data, iPtr + 2);
        if iPtrEnd + 3 >= iStart {
          if iPtrEnd > iStart {
            assert false;
            rc := CORRUPT;
            return;
          }
          nFrag := nFrag + (iStart - iPtrEnd);
          iStart := iPtr;
        }
      }
      n := Region(iStart, iEnd - iStart);
    }

    // Record the coalesced block n in the page.
    method PutFreed(n: Region, iPtr: nat, iFreeBlk: nat, nFrag: nat, ghost i: nat, ghost k: nat) returns (rc: Rc)
      requires Formed() && i < |cells| && Slot(blocks, cells[i].start, k) && n == Joined(blocks, cells[i], k)
      requires iPtr == PtrOf(g, blocks, k) && iPtr + 2 <= data.Length
      requires iFreeBlk == Target(blocks, JoinHi(blocks, cells[i], k)) < 65536 && nFrag == JoinFrag(blocks, cells[i], k)
      modifies data
      ensures rc.OK? && FreeWrites(old(data[..]), data[..], g, blocks, cells[i], k)
    {
      hide Tiling, Linked, Pointers, TopWrites, BlockWrites, Untouched, Get2, TopOf, JoinFrag, Slot, JoinsPrev,
           JoinsNext, Joined, TopBytes, BlockBytes;
      ghost var s := data[..];
      rc := OK;
      BlocksBeyondHeader(s, g, cells, blocks);
      PageTiles(s, g, cells, blocks);
      FreeNeighbours(TopOf(s, g), g.usable, s[g.hdr + 7], cells, blocks, i, k);
      JoinedSpacing(TopOf(s, g), g.usable, s[g.hdr + 7], cells, blocks, i, k);
      if n.start == TopOf(s, g) { PtrAtHeader(g, blocks, cells[i], k); }
      if nFrag > data[g.hdr + 7] as int {
        assert false;
        rc := CORRUPT;
        return;
      }
      data[g.hdr + 7] := data[g.hdr + 7] - nFrag;
      ghost var s1 := data[..];
      assert s1 == s[g.hdr + 7 := s[g.hdr + 7] - nFrag];
      TopIsStored(s, s1, g, cells, blocks, i);
      var x := Read2(data, g.hdr + 5);
      if n.start <= x {
        if n.start < x || iPtr != g.hdr + 1 {
          assert false;
          rc := CORRUPT;
          return;
        }
        LowerTop(n, iFreeBlk);
        TopWritten(s, s1, g, blocks, n, k, nFrag, iFreeBlk);
      } else {
        BlockWritten(s, s1, g, cells, blocks, i, n, k, nFrag, iFreeBlk);
        LinkBlock(n, iPtr, iFreeBlk);
      }
    }

    method LowerTop(n: Region, iFreeBlk: nat)
      requires g.Ok() && g.usable <= data.Length && iFreeBlk < 65536
      modifies data
      ensures data[..] == TopBytes(old(data[..]), g, n, iFreeBlk)
    {
      hide Put2, Get2;
      Write2(data, g.hdr + 1, iFreeBlk);
      Write2(data, g.hdr + 5, n.End() % 65536);
    }

    method LinkBlock(n: Region, iPtr: nat, iFreeBlk: nat)
      requires iPtr + 2 <= data.Length && n.start + 4 <= data.Length && iFreeBlk < 65536 && n.start < 65536
               && n.len < 65536
      modifies data
      ensures data[..] == BlockBytes(old(data[..]), n, iPtr, iFreeBlk)
    {
      hide Put2, Get2;
      Write2(data, iPtr, n.start);
      Write2(data, n.start, iFreeBlk);
      Write2(data, n.start + 2, n.len);
    }

    // freeSpace: return the bytes of cell i to the page.
    method FreeSpace(iStart: nat, iSize: nat, ghost i: nat) returns (rc: Rc, ghost k: nat)
      requires Formed() && i < |cells| && cells[i] == Region(iStart, iSize)
      modifies data, `nFree
      ensures rc.OK? && Slot(blocks, iStart, k) && FreeWrites(old(data[..]), data[..], g, blocks, cells[i], k)
      ensures nFree == old(nFree) + iSize
    {
      hide Tiling, Linked, Pointers, FreeWrites, Get2, TopOf, JoinFrag, Slot, JoinsPrev, JoinsNext, Joined;
      BlocksBeyondHeader(data[..], g, cells, blocks);
      var iPtr, iFreeBlk, n, nFrag;
      rc, iPtr, iFreeBlk, k := FindPlace(iStart);
      rc, n, iFreeBlk, nFrag := Coalesce(Region(iStart, iSize), iPtr, iFreeBlk, i, k);
      rc := PutFreed(n, iPtr, iFreeBlk, nFrag, i, k);
      nFree := nFree + iSize;
    }

    // The page as a list of cells, with the cached counters up to date.
    ghost predicate Valid()
      reads this, data
    {
      && Formed() && nCell == |cells| && nFree == FreeBytes(data[..], g, cells, blocks)
      && Fits(data[..], cells) && AllSized(cellSize, Contents(data[..], cells)) && SelfDelimiting(cellSize)
    }

    ghost function View(): seq<seq<byte>>
      reads this, data
      requires Valid()
    {
      Contents(data[..], cells)
    }

    // Close up the pointer array of n cells over its idx-th entry and decrement the cell count.
    method RemovePointer(idx: nat, n: nat)
      requires idx < n < 65536 && Gap(g, n) <= data.Length && g.hdr + 8 <= data.Length
      modifies data
      ensures data[..] == WithoutPointer(old(data[..]), g, n, idx)
    {
      hide Put2, Moved, Get2;
      MemMove(data, g.Off() + 2 * idx, g.Off() + 2 * idx + 2, 2 * (n - 1 - idx));
      Write2(data, g.hdr + 3, n - 1);
    }

    // An empty page.
    method Clear()
      requires g.Ok() && g.usable <= data.Length
      modifies data
      ensures Page(data[..], g, [], []) && FreeBytes(data[..], g, [], []) == g.usable - g.hdr - g.child - 8
    {
      data[g.hdr + 1], data[g.hdr + 2], data[g.hdr + 3], data[g.hdr + 4] := 0, 0, 0, 0;
      data[g.hdr + 7] := 0;
      Write2(data, g.hdr + 5, g.usable % 65536);
      EmptyPage(data[..], g);
    }

    /** dropCell: remove the idx-th cell. */
    method DropCell(idx: nat, sz: nat) returns (rc: Rc)
      requires Valid() && idx < nCell && sz == |View()[idx]|
      modifies this, data
      ensures rc.OK? && Valid() && View() == old(View()[..idx] + View()[idx + 1..])
    {
      hide Tiling, Linked, Pointers, FreeWrites, Get2, TopOf, AllSized, SelfDelimiting, FreedBlocks, Total,
           WithoutPointer;
      ghost var s, c0 := data[..], cells;
      ghost var k;
      BlocksBeyondHeader(s, g, cells, blocks);
      PointerOf(s, g, cells, blocks, idx);
      var pc := Read2(data, g.Off() + 2 * idx);
      rc := OK;
      if pc + sz > g.usable {
        assert false;
        rc := CORRUPT;
        return;
      }
      rc, k := FreeSpace(pc, sz, idx);
      CountBound(s, g, cells, blocks);
      ghost var t := data[..];
      nCell := nCell - 1;
      cells := Without(cells, idx);
      if nCell == 0 {
        Clear();
        nFree := g.usable - g.hdr - g.child - 8;
        blocks := [];
        NoCells(cellSize, data[..]);
      } else {
        RemovePointer(idx, nCell + 1);
        nFree := nFree + 2;
        ghost var b0 := blocks;
        blocks := FreedBlocks(TopOf(s, g), b0, c0[idx], k);
        Dropped(s, t, data[..], g, c0, b0, idx, k);
        SizedWithout(cellSize, s, data[..], c0, idx);
      }
    }

    // ---------- allocation ----------

    // Walk the freeblock list to the first block with room for nByte bytes.
    method Search(nByte: nat) returns (rc: Rc, fit: bool, iAddr: nat, pc: nat, size: nat)
      requires Formed() && blocks != [] && 4 <= nByte <= g.usable
      ensures var j := FirstFit(blocks, nByte);
              && rc.OK? && (fit <==> j < |blocks|)
              && (fit ==> iAddr == PtrOf(g, blocks, j) && pc == blocks[j].start && size == blocks[j].len)
    {
      hide Tiling, Linked, Pointers, Get2, TopOf, FirstFit, Page, Long, Total, Spaced;
      ghost var s := data[..];
      BlocksBeyondHeader(s, g, cells, blocks);
      RepackFacts(s, g, cells, blocks);
      PageTiles(s, g, cells, blocks);
      BlockBound(s, g, cells, blocks);
      rc, fit, size := OK, false, 0;
      ghost var j := 0;
      iAddr := g.hdr + 1;
      LinkFields(s, g, blocks, 0);
      pc := Read2(data, iAddr);
      var maxPC := g.usable - nByte;
      while pc <= maxPC
        invariant j < |blocks| && pc == blocks[j].start && iAddr == PtrOf(g, blocks, j)
        invariant forall l | 0 <= l < j :: blocks[l].len < nByte
        decreases |blocks| - j
      {
        LinkFields(s, g, blocks, j);
        size := Read2(data, pc + 2);
        if size >= nByte {
          fit := true;
          FitIs(blocks, nByte, j);
          return;
        }
        iAddr := pc;
        pc := Read2(data, pc);
        assert j + 1 < |blocks| ==> iAddr < pc by { if j + 1 < |blocks| { SpacedAt(blocks, j, j + 1); } }
        if pc <= iAddr {
          if pc != 0 {
            assert false;
            rc := CORRUPT;
          }
          FitIs(blocks, nByte, j + 1);
          return;
        }
        j := j + 1;
      }
      if pc > maxPC + nByte - 4 {
        assert false;
        rc := CORRUPT;
      }
      forall l | j <= l < |blocks| ensures blocks[l].len < nByte { if j < l { SpacedAt(blocks, j, l); } }
      FitIs(blocks, nByte, |blocks|);
    }

    /** pageFindSlot: the first freeblock large enough, used whole if the excess is under
        four bytes (and the fragment count allows it), else split. */
    method PageFindSlot(nByte: nat, ghost i: nat) returns (rc: Rc, found: bool, idx: nat, ghost blocks': seq<Region>)
      requires Formed() && blocks != [] && 4 <= nByte <= g.usable && i <= |cells|
               && Gap(g, |cells| + 1) <= TopOf(data[..], g)
      modifies data
      ensures rc.OK?
      ensures !found ==> data[..] == old(data[..])
      ensures found ==> Allocated(old(data[..]), data[..], g, cells, blocks, cells, blocks', nByte, idx, i)
      ensures var j := FirstFit(blocks, nByte);
              && (found <==> j < |blocks| && (blocks[j].len >= nByte + 4 || old(data[g.hdr + 7]) <= 57))
              && (found ==> idx == if blocks[j].len < nByte + 4 then blocks[j].start else blocks[j].End() - nByte)
    {
      hide Tiling, Linked, Pointers, Get2, TopOf, Allocated, WholeBytes, Put2, FirstFit;
      ghost var s, j := data[..], FirstFit(blocks, nByte);
      BlocksBeyondHeader(s, g, cells, blocks);
      GapBelow(s, g, cells, blocks);
      PageTiles(s, g, cells, blocks);
      BlockBound(s, g, cells, blocks);
      idx, blocks' := 0, blocks;
      var iAddr, pc, size;
      rc, found, iAddr, pc, size := Search(nByte);
      FitsAt(blocks, nByte);
      if found {
        LinkFields(s, g, blocks, j);
        var x := size - nByte;
        if x < 4 {
          if data[g.hdr + 7] > 57 { found := false; return; }
          WholeSlot(s, g, cells, blocks, j, nByte, i);
          TakeWhole(iAddr, Read2(data, pc), x);
          idx := pc;
          blocks' := Without(blocks, j);
        } else if x + pc > g.usable - nByte {
          assert false;
          rc := CORRUPT;
        } else {
          SplitSlot(s, g, cells, blocks, j, nByte, i);
          Write2(data, pc + 2, x);
          idx := pc + x;
          blocks' := blocks[j := Region(blocks[j].start, x)];
        }
      }
    }

    // Take a slot off the list and count its excess bytes as fragments.
    method TakeWhole(iAddr: nat, next: nat, x: nat)
      requires g.hdr + 8 <= data.Length && iAddr + 2 <= data.Length && next < 65536 && data[g.hdr + 7] as int + x < 256
      requires iAddr + 2 <= g.hdr + 7 || g.hdr + 8 <= iAddr
      modifies data
      ensures data[..] == WholeBytes(old(data[..]), g, iAddr, next, x)
    {
      Write2(data, iAddr, next);
      data[g.hdr + 7] := data[g.hdr + 7] + x;
    }

    // Store the content offset, drop the freeblock list and zero the gap.
    method FinishDefrag(gap: nat, cbrk: nat)
      requires g.Ok() && g.usable <= data.Length && g.hdr + 8 <= gap <= cbrk <= g.usable
      modifies data
      ensures Finished(old(data[..]), data[..], g, gap, cbrk)
    {
      Write2(data, g.hdr + 5, cbrk % 65536);
      data[g.hdr + 1] := 0;
      data[g.hdr + 2] := 0;
      ghost var m := data[..];
      forall p | gap <= p < cbrk { data[p] := 0; }
      TopSame(m, data[..], g);
    }

    // Add the distance each cell has moved to its pointer.
    method ShiftPointers(iFree: nat, iFree2: nat, sz: nat, sz2: nat, ghost moved: seq<Region>)
      requires g.Ok() && Pointers(data[..], g, cells) && nCell == |cells| && 1 <= |blocks| <= 2
               && Squeezed(cells, blocks, moved)
      requires iFree == blocks[0].start && iFree2 == (if |blocks| == 2 then blocks[1].start else 0)
      requires sz2 == SecondLen(blocks) && sz == blocks[0].len + sz2
      requires forall i | 0 <= i < |moved| :: moved[i].start < 65536
      modifies data
      ensures Pointers(data[..], g, moved)
      ensures forall p | 0 <= p < data.Length && !(g.Off() <= p < Gap(g, |cells|)) :: data[p] == old(data[p])
    {
      hide Get2;
      ghost var m := data[..];
      var i := 0;
      while i < nCell
        invariant 0 <= i <= nCell
        invariant forall p | 0 <= p < data.Length && !(g.Off() <= p < g.Off() + 2 * i) :: data[p] == m[p]
        invariant forall j | 0 <= j < i :: Get2(data[..], g.Off() + 2 * j) == moved[j].start
      {
        ghost var d := data[..];
        PointerAt(m, g, cells, i);
        Get2Same(m, d, g.Off() + 2 * i);
        var pc := Read2(data, g.Off() + 2 * i);
        if pc < iFree { Write2(data, g.Off() + 2 * i, pc + sz); }
        else if pc < iFree2 { Write2(data, g.Off() + 2 * i, pc + sz2); }
        forall j | 0 <= j < i ensures Get2(data[..], g.Off() + 2 * j) == moved[j].start {
          Get2Same(d, data[..], g.Off() + 2 * j);
        }
        i := i + 1;
      }
    }

    // Addresses and sizes of the one or two freeblocks.
    method ReadBlocks() returns (iFree: nat, iFree2: nat, sz: nat, sz2: nat)
      requires Formed() && 1 <= |blocks| <= 2
      ensures iFree == blocks[0].start && iFree2 == (if |blocks| == 2 then blocks[1].start else 0)
      ensures sz == blocks[0].len && sz2 == SecondLen(blocks)
    {
      hide Tiling, Linked, Pointers, Get2, TopOf, Page;
      SqueezeFacts(data[..], g, cells, blocks);
      iFree := Read2(data, g.hdr + 1);
      iFree2 := Read2(data, iFree);
      sz, sz2 := Read2(data, iFree + 2), 0;
      if iFree2 != 0 { sz2 := Read2(data, iFree2 + 2); }
    }

    // Move the cells between and before the freeblocks up over the free bytes.
    method MoveRuns() returns (iFree: nat, iFree2: nat, sz: nat, sz2: nat, cbrk: nat)
      requires Formed() && 1 <= |blocks| <= 2
      modifies data
      ensures iFree == blocks[0].start && iFree2 == (if |blocks| == 2 then blocks[1].start else 0)
      ensures sz2 == SecondLen(blocks) && sz == blocks[0].len + sz2 && cbrk == TopOf(old(data[..]), g) + sz
      ensures Squeezable(old(data[..]), g, blocks) && data[..] == SqueezedBytes(old(data[..]), g, blocks)
    {
      hide Tiling, Linked, Pointers, Get2, TopOf, Page, MovedMiddle, MovedFront, Moved;
      ghost var s := data[..];
      SqueezeFacts(s, g, cells, blocks);
      iFree, iFree2, sz, sz2 := ReadBlocks();
      var top := Read2(data, g.hdr + 5);
      ghost var s1 := s;
      if iFree2 != 0 {
        MiddleIs(s, blocks);
        MemMove(data, iFree + sz + sz2, iFree + sz, iFree2 - (iFree + sz));
        s1 := data[..];
        assert s1 == MovedMiddle(s, blocks);
      }
      sz := sz + sz2;
      cbrk := top + sz;
      FrontIs(s1, blocks, top);
      MemMove(data, cbrk, top, iFree - top);
      assert data[..] == MovedFront(s1, blocks, top);
    }

    // The fast path: squeeze out one or two freeblocks by moving whole runs of cells.
    method SqueezeOut() returns (cbrk: nat, ghost moved: seq<Region>)
      requires Formed() && nCell == |cells| && 1 <= |blocks| <= 2
      modifies data
      ensures Ready(old(data[..]), data[..], g, cells, moved, cbrk) && data[g.hdr + 7] == old(data[g.hdr + 7])
      ensures data[g.hdr + 7] as int + cbrk - Gap(g, |cells|) == FreeBytes(old(data[..]), g, cells, blocks)
    {
      hide Tiling, Linked, Pointers, Get2, TopOf, Ready, Page, MovedMiddle, MovedFront, Total, KeepsCells, Squeezed;
      ghost var s := data[..];
      RepackFacts(s, g, cells, blocks);
      var iFree, iFree2, sz, sz2;
      iFree, iFree2, sz, sz2, cbrk := MoveRuns();
      ghost var m := data[..];
      moved := ShiftedCells(cells, blocks);
      FastMoved(s, m, g, cells, blocks, moved);
      ShiftedFacts(s, m, g, cells, blocks, moved);
      ShiftPointers(iFree, iFree2, sz, sz2, moved);
      FastReady(s, m, data[..], g, cells, blocks, moved);
      TotalOfFew(blocks);
    }

    // The slow path: copy every cell, in index order, down from the usable end.
    method Repack() returns (rc: Rc, cbrk: nat, ghost packed: seq<Region>)
      requires Formed() && nCell == |cells| && Fits(data[..], cells)
      requires AllSized(cellSize, Contents(data[..], cells)) && SelfDelimiting(cellSize)
      modifies data
      ensures rc.OK? && Ready(old(data[..]), data[..], g, cells, packed, cbrk) && data[g.hdr + 7] == 0
      ensures data[g.hdr + 7] as int + cbrk - Gap(g, |cells|) == FreeBytes(old(data[..]), g, cells, blocks)
    {
      hide Tiling, Linked, Pointers, Get2, TopOf, Ready, Page, Repacking, CopyCell, AllSized, SelfDelimiting, Total;
      rc := OK;
      cbrk := g.usable;
      var src := data[..];
      RepackFacts(src, g, cells, blocks);
      RepackStart(src, g, cells, blocks);
      var iCellStart := Read2(data, g.hdr + 5);
      var i := 0;
      while i < nCell
        invariant 0 <= i <= nCell && cbrk <= g.usable && Repacking(src, data[..], g, cells, i, cbrk)
      {
        ghost var m := data[..];
        RepackStep(src, m, g, cells, blocks, i, cbrk);
        SizeRead(cellSize, src, g, cells, i);
        var pc := Read2(data, g.Off() + 2 * i);
        if pc > g.usable - 4 {
          assert false;
          rc := CORRUPT;
          return;
        }
        var size := cellSize(src[pc..g.usable]);
        StoredTop(src, g, cells, blocks);
        if cbrk - size < iCellStart || pc + size > g.usable {
          assert false;
          rc := CORRUPT;
          return;
        }
        cbrk := cbrk - size;
        CopyOne(g.Off() + 2 * i, cbrk, src[pc..pc + size]);
        i := i + 1;
      }
      ghost var m := data[..];
      data[g.hdr + 7] := 0;
      packed := RepackReady(src, m, data[..], g, cells, blocks, cbrk);
    }

    method CopyOne(ptr: nat, at: nat, cell: seq<byte>)
      requires ptr + 2 <= data.Length && at < 65536 && at + |cell| <= data.Length
      modifies data
      ensures data[..] == CopyCell(old(data[..]), ptr, at, cell)
    {
      hide Put2, Paste, Get2;
      Write2(data, ptr, at);
      MemCopy(data, at, cell);
    }

    // The list has one or two blocks, read off the links as the code does.
    method FewBlocks() returns (few: bool)
      requires Formed()
      ensures few <==> 1 <= |blocks| <= 2
    {
      hide Tiling, Pointers, Get2, TopOf, Linked, Page;
      FewFacts(data[..], g, cells, blocks);
      var iFree := Read2(data, g.hdr + 1);
      if iFree == 0 { return false; }
      var iFree2 := Read2(data, iFree);
      if iFree2 == 0 { return true; }
      var last := Read2(data, iFree2);
      return last == 0;
    }

    /** defragmentPage: same cells in the same order, no freeblocks, at most max(nMaxFrag, 0) fragment bytes. */
    method DefragmentPage(nMaxFrag: int) returns (rc: Rc)
      requires Valid()
      modifies data, `cells, `blocks
      ensures rc.OK? && Valid() && View() == old(View()) && blocks == []
      ensures data[g.hdr + 7] as int <= if nMaxFrag < 0 then 0 else nMaxFrag
      ensures data[g.hdr + 7] == if 1 <= old(|blocks|) <= 2 && old(data[g.hdr + 7] as int) <= nMaxFrag
                                 then old(data[g.hdr + 7]) else 0
    {
      hide Tiling, Linked, Pointers, Get2, TopOf, Ready, Finished, Page, AllSized, SelfDelimiting, Total, Defragmented,
           FreeBytes;
      ghost var s, c0, b0 := data[..], cells, blocks;
      RepackFacts(s, g, cells, blocks);
      rc := OK;
      var cbrk;
      ghost var c1;
      var few := FewBlocks();
      if data[g.hdr + 7] as int <= nMaxFrag && few {
        cbrk, c1 := SqueezeOut();
      } else {
        rc, cbrk, c1 := Repack();
      }
      ghost var m := data[..];
      ReadyBounds(s, m, g, cells, c1, cbrk);
      if data[g.hdr + 7] as int + cbrk - (g.Off() + 2 * nCell) != nFree {
        assert false;
        rc := CORRUPT;
        return;
      }
      FinishDefrag(g.Off() + 2 * nCell, cbrk);
      FinishedPage(s, m, data[..], g, cells, blocks, c1, cbrk);
      DefragKeeps(s, data[..], g, cells, blocks, c1);
      cells := c1;
      blocks := [];
    }

    // Take the bytes off the end of the gap, after defragmenting if it is too small for them and a pointer.
    method AllocateFromGap(nByte: nat, top0: nat, ghost i: nat) returns (rc: Rc, idx: nat, ghost s1: seq<byte>)
      requires Valid() && nByte >= 4 && nByte + 2 <= nFree && i <= |cells| && top0 == TopOf(data[..], g)
      modifies data, `cells, `blocks
      ensures rc.OK? && Page(s1, g, cells, blocks) && Fits(s1, cells) && Contents(s1, cells) == old(View())
      ensures FreeBytes(s1, g, cells, blocks) == old(nFree) && |s1| == data.Length && |cells| == |old(cells)|
      ensures Allocated(s1, data[..], g, cells, blocks, cells, blocks, nByte, idx, i) && idx + nByte == TopOf(s1, g)
      ensures if Gap(g, old(|cells|)) + 2 + nByte <= top0 then s1 == old(data[..]) else blocks == []
    {
      hide Tiling, Linked, Pointers, Get2, Page, AllSized, SelfDelimiting, Total, Allocated, FreeBytes, Put2;
      s1 := data[..];
      AllocFacts(s1, g, cells, blocks, nByte);
      rc := OK;
      var top := top0;
      if g.Off() + 2 * nCell + 2 + nByte > top {
        var room := nFree - (2 + nByte);
        rc := DefragmentPage(if room < 4 then room else 4);
        s1 := data[..];
        DefragRoom(s1, g, cells);
        top := Read2(data, g.hdr + 5);
        if top == 0 { top := 65536; }
      }
      FromGap(s1, g, cells, blocks, nByte, i);
      top := top - nByte;
      Write2(data, g.hdr + 5, top);
      idx := top;
    }

    /** allocateSpace: with nFree >= nByte + 2 there is always room for one more cell and its pointer. */
    method AllocateSpace(nByte: nat, ghost i: nat)
      returns (rc: Rc, idx: nat, ghost s1: seq<byte>, ghost cells': seq<Region>, ghost blocks': seq<Region>)
      requires Valid() && nByte >= 4 && nByte + 2 <= nFree && i <= |cells|
      modifies data, `cells, `blocks
      ensures rc.OK? && Page(s1, g, cells, blocks) && Fits(s1, cells) && Contents(s1, cells) == old(View())
      ensures FreeBytes(s1, g, cells, blocks) == old(nFree) && |s1| == data.Length && |cells| == |old(cells)|
      ensures Allocated(s1, data[..], g, cells, blocks, cells', blocks', nByte, idx, i)
      ensures var j, top, b := FirstFit(old(blocks), nByte), old(TopOf(data[..], g)), old(blocks);
              var slot := j < |b| && (b[j].len >= nByte + 4 || old(data[g.hdr + 7]) <= 57);
              if Gap(g, old(|cells|)) + 2 <= top && slot then
                s1 == old(data[..]) && idx == if b[j].len < nByte + 4 then b[j].start else b[j].End() - nByte
              else
                && idx + nByte == TopOf(s1, g)
                && if Gap(g, old(|cells|)) + 2 + nByte <= top then s1 == old(data[..]) else blocks == []
    {
      hide Tiling, Linked, Pointers, Get2, Page, AllSized, SelfDelimiting, Total, Allocated, FreeBytes, Put2;
      s1 := data[..];
      AllocFacts(s1, g, cells, blocks, nByte);
      rc, idx, cells', blocks' := OK, 0, cells, blocks;
      var gap := g.Off() + 2 * nCell;
      var top := Read2(data, g.hdr + 5);
      if gap > top {
        if top == 0 && g.usable == 65536 {
          top := 65536;
        } else {
          assert false;
          rc := CORRUPT;
          return;
        }
      } else if top > g.usable {
        assert false;
        rc := CORRUPT;
        return;
      }
      HasBlocks(s1, g, cells, blocks);
      if (data[g.hdr + 2] != 0 || data[g.hdr + 1] != 0) && gap + 2 <= top {
        var found;
        rc, found, idx, blocks' := PageFindSlot(nByte, i);
        if found {
          SlotAboveGap(s1, data[..], g, cells, blocks, cells, blocks', nByte, idx, i);
          if idx <= gap {
            assert false;
            rc := CORRUPT;
          }
          return;
        }
      }
      rc, idx, s1 := AllocateFromGap(nByte, top, i);
      cells', blocks' := cells, blocks;
    }

    // Increment the two-byte cell count, carrying into the high byte.
    method IncrementCount(ghost n: nat)
      requires n + 1 < 65536 && g.hdr + 8 <= data.Length && Get2(data[..], g.hdr + 3) == n
      modifies data
      ensures data[..] == Put2(old(data[..]), g.hdr + 3, n + 1)
    {
      ghost var u := data[..];
      assert n == 256 * data[g.hdr + 3] as int + data[g.hdr + 4] as int;
      var low := (data[g.hdr + 4] as int + 1) % 256;
      data[g.hdr + 4] := low;
      if low == 0 { data[g.hdr + 3] := data[g.hdr + 3] + 1; }
      assert (n + 1) % 256 == low && (n + 1) / 256 == data[g.hdr + 3] as int;
    }

    // Open the pointer array at position i for the cell at idx and count the cell.
    method AddPointer(i: nat, n: nat, idx: nat)
      requires i <= n && n + 1 < 65536 && idx < 65536 && Gap(g, n + 1) <= data.Length && g.hdr + 8 <= data.Length
      requires Get2(data[..], g.hdr + 3) == n
      modifies data
      ensures data[..] == WithPointer(old(data[..]), g, n, i, idx)
    {
      hide Get2, Put2, Moved;
      CountAfterMove(data[..], g, n, i, idx);
      MemMove(data, g.Off() + 2 * i + 2, g.Off() + 2 * i, 2 * (n - i));
      Write2(data, g.Off() + 2 * i, idx);
      IncrementCount(n);
    }

    /** insertCellFast: insert the cell at position i, or report that it does not fit on the page. */
    method InsertCell(i: nat, cell: seq<byte>) returns (rc: Rc, overflow: bool)
      requires Valid() && i <= nCell && |cell| >= 4 && cellSize(cell) == |cell|
      modifies this, data
      ensures rc.OK? && Valid() && overflow == (|cell| + 2 > old(nFree))
      ensures overflow ==> View() == old(View()) && data[..] == old(data[..]) && nFree == old(nFree)
      ensures !overflow ==> View() == InsertAt(old(View()), i, cell) && nFree == old(nFree) - |cell| - 2
    {
      hide Tiling, Linked, Pointers, Get2, Page, AllSized, SelfDelimiting, Total, FreeBytes, WithPointer,
           KeepsInserted, TopOf;
      rc, overflow := OK, false;
      if |cell| + 2 > nFree {
        overflow := true;
        return;
      }
      ghost var v := View();
      var idx;
      ghost var s1, c1, b1;
      rc, idx, s1, c1, b1 := AllocateSpace(|cell|, i);
      ghost var t := data[..];
      Inserted(s1, t, g, cells, blocks, c1, b1, cell, idx, i);
      nFree := nFree - (2 + |cell|);
      MemCopy(data, idx, cell);
      CountKept(s1, t, data[..], g, cells, blocks, c1, b1, idx, cell, i);
      AddPointer(i, nCell, idx);
      nCell := nCell + 1;
      ghost var c2 := InsertAt(c1, i, Region(idx, |cell|));
      InsertedContents(s1, data[..], cells, c2, i, cell);
      SizedInsert(cellSize, v, i, cell);
      cells := c2;
      blocks := b1;
    }

    /** btreeComputeFreeSpace: recompute nFree from the bytes of the page. */
    method ComputeFreeSpace() returns (rc: Rc, n: int)
      requires Formed() && nCell == |cells|
      ensures rc.OK? && n == FreeBytes(data[..], g, cells, blocks)
    {
      hide Tiling, Linked, Pointers, Get2, Page, Total;
      ghost var s := data[..];
      RepackFacts(s, g, cells, blocks);
      BlocksBeyondHeader(s, g, cells, blocks);
      BlockBound(s, g, cells, blocks);
      GapBelow(s, g, cells, blocks);
      RepackBound(s, g, cells, blocks);
      rc := OK;
      var top := Read2(data, g.hdr + 5);
      if top == 0 { top := 65536; }
      var iCellFirst := g.Off() + 2 * nCell;
      LinkedPtr(s, g, blocks, 0);
      var pc := Read2(data, g.hdr + 1);
      n := data[g.hdr + 7] as int + top;
      assert blocks[..0] == [];
      TotalSmall(Region(0, 0));
      if pc > 0 {
        FirstBlock(s, g, cells, blocks);
        if pc < top {
          assert false;
          rc := CORRUPT;
          return;
        }
        ghost var k := 0;
        while true
          invariant k < |blocks| && pc == blocks[k].start && n == s[g.hdr + 7] as int + TopOf(s, g) + Total(blocks[..k])
          decreases |blocks| - k
        {
          LinkFields(s, g, blocks, k);
          if pc > g.usable - 4 {
            assert false;
            rc := CORRUPT;
            return;
          }
          var next, size := Read2(data, pc), Read2(data, pc + 2);
          if size < 4 {
            assert false;
            rc := CORRUPT;
            return;
          }
          TotalPrefix(blocks, k, |blocks|);
          n := n + size;
          assert k + 1 < |blocks| ==> pc + size + 4 <= next by { if k + 1 < |blocks| { SpacedAt(blocks, k, k + 1); } }
          if next < pc + size + 4 {
            if next > 0 || pc + size > g.usable {
              assert false;
              rc := CORRUPT;
              return;
            }
            break;
          }
          k := k + 1;
          pc := next;
        }
        assert blocks[..|blocks|] == blocks;
      }
      if n > g.usable || n < iCellFirst {
        assert false;
        rc := CORRUPT;
        return;
      }
      n := n - iCellFirst;
    }

    // The size of a cell, read at the place its pointer names.
    method CellSizeAt(i: nat) returns (sz: nat)
      requires Valid() && i < nCell
      ensures sz == |View()[i]|
    {
      hide Tiling, Linked, Pointers, Get2, TopOf, Page, AllSized, SelfDelimiting, Total, FreeBytes;
      RepackFacts(data[..], g, cells, blocks);
      PointerOf(data[..], g, cells, blocks, i);
      SizeRead(cellSize, data[..], g, cells, i);
      var pc := Read2(data, g.Off() + 2 * i);
      sz := cellSize(data[pc..g.usable]);
      assert data[pc..g.usable] == data[..][pc..g.usable];
    }

    // One edit, or none if it asks for what no caller asks for.
    method Apply(e: Edit) returns (rc: Rc)
      requires Valid()
      modifies this, data
      ensures rc.OK? && Valid() && View() == old(Edited(cellSize, g.usable - g.Off(), View(), e))
    {
      hide Page, Tiling, Total, FreeBytes, AllSized, SelfDelimiting, Footprint;
      FreeBytesFromCells(data[..], g, cells, blocks);
      rc := OK;
      if Asked(cellSize, nCell, e) {
        match e {
          case Insert(i, cell) =>
            var overflow;
            rc, overflow := InsertCell(i, cell);
          case Drop(i) =>
            var sz := CellSizeAt(i);
            rc := DropCell(i, sz);
        }
      }
    }

    /** Every run of insertions and deletions: none fails, the page stays well-formed, and its cells are at every moment
        those of the same run on a plain list in which an insertion is refused exactly when the cells do not fit. */
    method ApplyAll(edits: seq<Edit>) returns (rc: Rc, ghost history: seq<seq<seq<byte>>>)
      requires Valid()
      modifies this, data
      ensures rc.OK? && Valid() && |history| == |edits| + 1 && history[0] == old(View()) && history[|edits|] == View()
      ensures forall n | 0 <= n < |edits| ::
                history[n + 1] == Edited(cellSize, g.usable - g.Off(), history[n], edits[n])
    {
      hide Page, Tiling, Total, FreeBytes, AllSized, SelfDelimiting, Footprint, Edited;
      rc, history := OK, [View()];
      for k := 0 to |edits|
        invariant rc.OK? && Valid() && |history| == k + 1 && history[0] == old(View()) && history[k] == View()
        invariant forall n | 0 <= n < k :: history[n + 1] == Edited(cellSize, g.usable - g.Off(), history[n], edits[n])
      {
        rc := Apply(edits[k]);
        history := history + [View()];
      }
    }
  }
}
