/** Vacuuming an auto-vacuum database: pages at the end of the file move to free pages before them until the file can
    be cut. */
module AutoVacuum {
  import Sets
  import opened PtrMap
  import opened Relocate
  import F = Freelist

  datatype Outcome = Ok | Done | Corrupt

  // ---------- counting ----------

  ghost function OrdinaryUpTo(l: Layout, n: nat): set<nat> { set p: nat | p <= n && Ordinary(l, p) }

  lemma {:induction false} CountIsSize(l: Layout, n: nat)
    ensures |OrdinaryUpTo(l, n)| == Count(l, n)
  {
    if n == 0 {
      assert OrdinaryUpTo(l, 0) == {};
    } else {
      CountIsSize(l, n - 1);
      assert OrdinaryUpTo(l, n) == OrdinaryUpTo(l, n - 1) + if Ordinary(l, n) then {n} else {};
    }
  }

  // As many pages as there is room for up to fin, and one of them beyond: then some place up to fin is not taken.
  lemma PlaceLeft(l: Layout, fin: nat, used: set<nat>, j: nat)
    requires |used| <= Count(l, fin) && j in used && j > fin
    ensures exists q: nat :: q <= fin && Ordinary(l, q) && q !in used
  {
    hide Ordinary, Count;
    CountIsSize(l, fin);
    if forall q: nat | q <= fin && Ordinary(l, q) :: q in used {
      Sets.SubsetSize(OrdinaryUpTo(l, fin) + {j}, used);
    }
  }

  // ---------- the same database under other page numbers ----------

  function MapPtr(f: map<nat, nat>, t: nat): nat { if t in f then f[t] else t }

  function CellMapped(leaf: bool, c: Cell, f: map<nat, nat>): Cell {
    c.(child := if leaf then c.child else MapPtr(f, c.child), ovfl := MapPtr(f, c.ovfl))
  }

  // The page with every pointer renumbered.
  function ContentMapped(c: Content, f: map<nat, nat>): Content {
    match c
    case Btree(leaf, cells, right) =>
      Btree(leaf, seq(|cells|, i requires 0 <= i < |cells| => CellMapped(leaf, cells[i], f)), if leaf then right
          else MapPtr(f, right))
    case Overflow(next, data) => Overflow(MapPtr(f, next), data)
  }

  /** Page p of one database is page f[p] of the other, and nothing else differs. */
  ghost predicate SameUpTo(was: Pages, now: Pages, f: map<nat, nat>) {
    && f.Keys == was.Keys
    && (forall p, q | p in f && q in f && f[p] == f[q] :: p == q)
    && (forall p | p in f :: f[p] in now && now[f[p]] == ContentMapped(was[p], f))
    && (forall q | q in now :: exists p :: p in f && f[p] == q)
  }

  function Unmoved(was: Pages): map<nat, nat> { map p | p in was :: p }

  lemma UnmovedSame(was: Pages)
    ensures SameUpTo(was, was, Unmoved(was))
  {
    var f := Unmoved(was);
    forall p | p in f ensures was[p] == ContentMapped(was[p], f) {
      var c := was[p];
      if c.Btree? { assert c.cells == ContentMapped(c, f).cells; }
    }
    forall q | q in was ensures exists p :: p in f && f[p] == q { assert f[q] == q; }
  }

  // Every pointer of c is renumbered by f.
  ghost predicate Closed(c: Content, f: map<nat, nat>) {
    match c
    case Btree(leaf, cells, right) =>
      && (forall i | 0 <= i < |cells| :: (cells[i].ovfl == 0 || cells[i].ovfl in f) && (leaf || cells[i].child in f))
      && (leaf || right in f)
    case Overflow(next, _) => next == 0 || next in f
  }

  lemma ExactIsClosed(was: Pages, m: Map, p: nat, f: map<nat, nat>)
    requires Exact(was, m) && p in was && f.Keys == was.Keys
    ensures Closed(was[p], f)
  {
    var c := was[p];
    if c.Btree? {
      forall i | 0 <= i < |c.cells|
        ensures (c.cells[i].ovfl == 0 || c.cells[i].ovfl in f) && (c.leaf || c.cells[i].child in f)
      {
        if Ovfl(c, i) != 0 { assert HasRef(c, OVERFLOW1, Ovfl(c, i)); }
        if !c.leaf { assert Child(c, i) != 0 && HasRef(c, BTREE, Child(c, i)); }
      }
      if !c.leaf { assert Child(c, |c.cells|) != 0 && HasRef(c, BTREE, Child(c, |c.cells|)); }
    } else {
      assert c.next != 0 ==> HasRef(c, OVERFLOW2, c.next);
    }
  }

  // f followed by renaming a to b.
  function Then(f: map<nat, nat>, a: nat, b: nat): map<nat, nat> { map p | p in f :: To(f[p], a, b) }

  lemma ContentThen(c: Content, f: map<nat, nat>, a: nat, b: nat)
    requires Closed(c, f) && a != 0
    ensures ContentTo(ContentMapped(c, f), a, b) == ContentMapped(c, Then(f, a, b))
  {
    if c.Btree? {
      var x, y := ContentTo(ContentMapped(c, f), a, b), ContentMapped(c, Then(f, a, b));
      forall i | 0 <= i < |c.cells| ensures x.cells[i] == y.cells[i] { }
      assert x.cells == y.cells;
    }
  }

  lemma RenamedPage(was: Pages, m: Map, now: Pages, f: map<nat, nat>, a: nat, b: nat, p: nat)
    requires Exact(was, m) && SameUpTo(was, now, f) && a in now && b !in now && 0 !in now && p in f
    ensures var q := To(f[p], a, b);
              q in Renamed(now, a, b)
              && Renamed(now, a, b)[q] == ContentMapped(was[p], Then(f, a, b))
  {
    hide Exact, ContentTo, ContentMapped, Closed;
    ExactIsClosed(was, m, p, f);
    ContentThen(was[p], f, a, b);
    assert now[f[p]] == ContentMapped(was[p], f);
  }

  lemma RenamedReached(was: Pages, now: Pages, f: map<nat, nat>, a: nat, b: nat, q: nat)
    requires SameUpTo(was, now, f) && a in now && b !in now && q in Renamed(now, a, b)
    ensures exists p :: p in Then(f, a, b) && Then(f, a, b)[p] == q
  {
    hide ContentTo, ContentMapped;
    var q0 := if q == b then a else q;
    var p :| p in f && f[p] == q0;
    assert Then(f, a, b)[p] == q;
  }

  lemma Assembled(was: Pages, now: Pages, h: map<nat, nat>)
    requires h.Keys == was.Keys && (forall p, q | p in h && q in h && h[p] == h[q] :: p == q)
    requires (forall p | p in h :: h[p] in now && now[h[p]] == ContentMapped(was[p], h))
             && (forall q | q in now :: exists p :: p in h && h[p] == q)
    ensures SameUpTo(was, now, h)
  {
  }

  lemma RenamedOnce(was: Pages, now: Pages, f: map<nat, nat>, a: nat, b: nat)
    requires SameUpTo(was, now, f) && b !in now
    ensures Then(f, a, b).Keys == was.Keys == f.Keys && (forall p | p in f :: Then(f, a, b)[p] == To(f[p], a, b))
    ensures forall p, q | p in f && q in f && Then(f, a, b)[p] == Then(f, a, b)[q] :: p == q
  {
    hide ContentMapped;
    forall p, q | p in f && q in f && Then(f, a, b)[p] == Then(f, a, b)[q] ensures p == q { assert f[p] == f[q]; }
  }

  lemma RenamedSame(was: Pages, m: Map, now: Pages, f: map<nat, nat>, a: nat, b: nat)
    requires Exact(was, m) && SameUpTo(was, now, f) && a in now && b !in now && 0 !in now
    ensures SameUpTo(was, Renamed(now, a, b), Then(f, a, b))
  {
    hide Exact, ContentMapped, Renamed, SameUpTo, Then;
    var g, next := Then(f, a, b), Renamed(now, a, b);
    RenamedOnce(was, now, f, a, b);
    forall p | p in g ensures g[p] in next && next[g[p]] == ContentMapped(was[p], g) {
      RenamedPage(was, m, now, f, a, b, p);
    }
    forall q | q in next ensures exists p :: p in g && g[p] == q { RenamedReached(was, now, f, a, b, q); }
    Assembled(was, next, g);
  }

  // ---------- between two steps ----------

  /** Pages beyond i have been dealt with, and there is room up to fin for all pages in use. exact says that the
      freelist has no entries to spare and none missing. */
  ghost predicate Vacuuming(l: Layout, fin: nat, i: nat, exact: bool, pages: Pages, ptrmap: Map, free: set<nat>) {
    && Ordinary(l, fin) && fin <= i && |pages.Keys| <= Count(l, fin)
    && 1 in pages && 1 !in ptrmap && 0 !in ptrmap && Exact(pages, ptrmap) && Kinds(pages, ptrmap)
    && (forall p | p in pages :: Ordinary(l, p) && p <= i && (p != 1 ==> p in ptrmap)
         && (p > fin ==> p in ptrmap && ptrmap[p].kind != ROOTPAGE))
    && free !! pages.Keys
    && (forall p | p in free :: Ordinary(l, p) && IsFree(ptrmap, p))
    && (forall p: nat | p <= fin && Ordinary(l, p) :: p in pages || p in free)
    && (forall p: nat | fin < p <= i && Ordinary(l, p) && p !in pages :: IsFree(ptrmap, p))
    && (exact ==>
          (forall p | p in free :: p <= i)
          && (forall p: nat | p <= i && Ordinary(l, p) :: p in pages || p in free))
  }

  ghost predicate IsFree(ptrmap: Map, p: nat) { p in ptrmap && ptrmap[p].kind == FREEPAGE }

  // A page in use beyond fin can move: some free page is not beyond fin.
  lemma RoomBelow(l: Layout, fin: nat, i: nat, exact: bool, pages: Pages, ptrmap: Map, free: set<nat>, j: nat)
    requires Vacuuming(l, fin, i, exact, pages, ptrmap, free) && j in pages && j > fin
    ensures exists q :: q in free && q <= fin
  {
    hide Exact, Kinds, Ordinary, Count;
    PlaceLeft(l, fin, pages.Keys, j);
  }

  lemma NoneFree(l: Layout, fin: nat, i: nat, exact: bool, pages: Pages, ptrmap: Map, free: set<nat>)
    requires Vacuuming(l, fin, i, exact, pages, ptrmap, free) && free == {}
    ensures Vacuuming(l, fin, fin, exact, pages, ptrmap, free)
  {
    hide Exact, Kinds, Ordinary, Count;
    forall j | j in pages ensures j <= fin {
      if j > fin { RoomBelow(l, fin, i, exact, pages, ptrmap, free, j); }
    }
  }

  // A last page that is not in use is left behind.
  lemma PassOver(l: Layout, fin: nat, i: nat, exact: bool, pages: Pages, ptrmap: Map, free: set<nat>, free': set<nat>)
    requires Vacuuming(l, fin, i, exact, pages, ptrmap, free) && i > fin && i !in pages
    requires if exact then free' == free - {i} else free' == free
    ensures Vacuuming(l, fin, i - 1, exact, pages, ptrmap, free')
  {
    hide Exact, Kinds, Ordinary, Count;
  }

  // The last page has moved to the free page q.
  lemma MovedDown(l: Layout, fin: nat, i: nat, exact: bool, pages: Pages, ptrmap: Map, free: set<nat>,
                  q: nat, pages': Pages, ptrmap': Map, free': set<nat>)
    requires Vacuuming(l, fin, i, exact, pages, ptrmap, free) && i > fin && i in pages && q in free && q <= fin
    requires pages' == Renamed(pages, i, q) && Exact(pages', ptrmap') && Kinds(pages', ptrmap') && 0 !in ptrmap'
             && q in ptrmap'
    requires (forall t | t in ptrmap && t != q :: t in ptrmap' && ptrmap'[t].kind == ptrmap[t].kind)
             && (forall t | t in ptrmap' :: t in ptrmap || t == q)
    requires free' <= free - {q} && (forall p | p in free :: p in free' || p == q || p > fin)
             && (exact ==> free' == free - {q})
    ensures Vacuuming(l, fin, i - 1, exact, pages', ptrmap', free')
  {
    hide Exact, Kinds, Ordinary, Count, Renamed, IsFree;
    RenamedKeys(pages, i, q);
    MovedFree(l, fin, i, exact, pages, ptrmap, free, q, pages'.Keys, ptrmap', free');
  }

  // What is free when page i has gone to page q.
  lemma MovedFree(l: Layout, fin: nat, i: nat, exact: bool, pages: Pages, ptrmap: Map, free: set<nat>,
                  q: nat, used': set<nat>, ptrmap': Map, free': set<nat>)
    requires Vacuuming(l, fin, i, exact, pages, ptrmap, free) && i > fin && i in pages && q in free && q <= fin
    requires used' == pages.Keys - {i} + {q}
    requires forall t | t in ptrmap && t != q :: t in ptrmap' && ptrmap'[t].kind == ptrmap[t].kind
    requires free' <= free - {q} && (forall p | p in free :: p in free' || p == q || p > fin)
             && (exact ==> free' == free - {q})
    ensures free' !! used' && (forall p | p in free' :: Ordinary(l, p) && IsFree(ptrmap', p))
    ensures forall p: nat | p <= fin && Ordinary(l, p) :: p in used' || p in free'
    ensures forall p: nat | fin < p <= i - 1 && Ordinary(l, p) && p !in used' :: IsFree(ptrmap', p)
    ensures exact ==>
              (forall p | p in free' :: p <= i - 1)
              && (forall p: nat | p <= i - 1 && Ordinary(l, p) :: p in used' || p in free')
  {
    hide Exact, Kinds, Ordinary, Count;
  }

  // ---------- a database at rest ----------

  // Root pages come before all others.
  ghost predicate RootsFirst(l: Layout, pages: Pages, ptrmap: Map) {
    forall r, q: nat | r in pages && r in ptrmap && ptrmap[r].kind == ROOTPAGE && 1 < q <= r && Ordinary(l, q) ::
      q in pages && q in ptrmap && ptrmap[q].kind == ROOTPAGE
  }

  /** Every ordinary page of the file is in use or free, and the pointer map says which. */
  ghost predicate Resting(l: Layout, nPage: nat, pages: Pages, ptrmap: Map, free: set<nat>) {
    && l.Ok() && Ordinary(l, nPage) && pages.Keys !! free && pages.Keys + free == OrdinaryUpTo(l, nPage)
    && 1 in pages && 1 !in ptrmap && 0 !in ptrmap && Exact(pages, ptrmap) && Kinds(pages, ptrmap)
         && RootsFirst(l, pages, ptrmap)
    && (forall p | p in pages && p != 1 :: p in ptrmap) && (forall p | p in free :: IsFree(ptrmap, p))
  }

  // A root page beyond fin would leave too little room for the pages before it.
  lemma RootsFit(l: Layout, nPage: nat, pages: Pages, ptrmap: Map, free: set<nat>, fin: nat, r: nat)
    requires Resting(l, nPage, pages, ptrmap, free) && |pages.Keys| <= Count(l, fin)
    requires r in pages && r in ptrmap && ptrmap[r].kind == ROOTPAGE
    ensures r <= fin
  {
    hide Exact, Kinds, Ordinary, Count;
    if r > fin {
      PlaceLeft(l, fin, pages.Keys, r);
      var q: nat :| q <= fin && Ordinary(l, q) && q !in pages.Keys;
      OrdinaryPositive(l, q);
    }
  }

  lemma OrdinaryPositive(l: Layout, q: nat)
    requires Ordinary(l, q)
    ensures q >= 1
  {
  }

  lemma RestingSize(l: Layout, nPage: nat, pages: Pages, ptrmap: Map, free: set<nat>)
    requires Resting(l, nPage, pages, ptrmap, free)
    ensures |pages.Keys| + |free| == Count(l, nPage) && |free| < Count(l, nPage)
  {
    hide Exact, Kinds, Ordinary, Count;
    CountIsSize(l, nPage);
    assert |pages.Keys + free| == |pages.Keys| + |free|;
    assert pages.Keys != {};
  }

  lemma VacuumStarts(l: Layout, nPage: nat, pages: Pages, ptrmap: Map, free: set<nat>, fin: nat)
    requires Resting(l, nPage, pages, ptrmap, free) && Ordinary(l, fin) && fin <= nPage && |pages.Keys| <= Count(l, fin)
    ensures Vacuuming(l, fin, nPage, true, pages, ptrmap, free) && Vacuuming(l, fin, nPage, false, pages, ptrmap, free)
  {
    hide Exact, Kinds, Ordinary, Count, RootsFirst;
    OrdinaryPositive(l, fin);
    forall p: nat | p <= nPage && Ordinary(l, p) ensures p in pages || p in free { assert p in OrdinaryUpTo(l, nPage); }
    forall p | p in pages || p in free ensures Ordinary(l, p) && p <= nPage { assert p in OrdinaryUpTo(l, nPage); }
    forall p | p in pages && p > fin ensures ptrmap[p].kind != ROOTPAGE {
      if ptrmap[p].kind == ROOTPAGE { RootsFit(l, nPage, pages, ptrmap, free, fin, p); }
    }
  }

  // Root pages have not moved.
  ghost predicate SameRoots(pages: Pages, ptrmap: Map, pages': Pages, ptrmap': Map) {
    forall r: nat :: IsRoot(pages, ptrmap, r) <==> IsRoot(pages', ptrmap', r)
  }

  ghost predicate IsRoot(pages: Pages, ptrmap: Map, r: nat) { r in pages && r in ptrmap && ptrmap[r].kind == ROOTPAGE }

  lemma RootsMoved(l: Layout, fin: nat, i: nat, exact: bool, pages: Pages, ptrmap: Map, free: set<nat>, q: nat,
                   pages': Pages, ptrmap': Map)
    requires Vacuuming(l, fin, i, exact, pages, ptrmap, free) && i > fin && i in pages && q in free && q <= fin
    requires pages' == Renamed(pages, i, q) && q in ptrmap' && i in ptrmap && ptrmap'[q].kind == ptrmap[i].kind
    requires (forall t | t in ptrmap && t != q :: t in ptrmap' && ptrmap'[t].kind == ptrmap[t].kind)
             && (forall t | t in ptrmap' :: t in ptrmap || t == q)
    ensures SameRoots(pages, ptrmap, pages', ptrmap')
  {
    hide Exact, Kinds, Ordinary, Count, Renamed;
    RenamedKeys(pages, i, q);
  }

  lemma RestsAgain(l: Layout, fin: nat, n: nat, pages0: Pages, ptrmap0: Map, free0: set<nat>, nPage: nat, exact: bool,
                   pages: Pages, ptrmap: Map, free: set<nat>)
    requires Resting(l, n, pages0, ptrmap0, free0) && Vacuuming(l, fin, nPage, exact, pages, ptrmap, free)
             && SameRoots(pages0, ptrmap0, pages, ptrmap)
    requires Ordinary(l, nPage) && (exact || (nPage == fin && |pages.Keys| == Count(l, fin)))
    ensures Resting(l, nPage, pages, ptrmap, if exact then free else {})
  {
    hide Exact, Kinds, Ordinary, Count;
    RootsStill(l, pages0, ptrmap0, pages, ptrmap);
    if exact {
      forall p: nat ensures p in pages.Keys + free <==> p in OrdinaryUpTo(l, nPage) { }
    } else {
      CountIsSize(l, fin);
      forall p | p in pages.Keys ensures p in OrdinaryUpTo(l, fin) { }
      Sets.SubsetSize(pages.Keys, OrdinaryUpTo(l, fin));
      assert pages.Keys + {} == pages.Keys;
    }
  }

  lemma RootsStill(l: Layout, pages0: Pages, ptrmap0: Map, pages: Pages, ptrmap: Map)
    requires RootsFirst(l, pages0, ptrmap0) && SameRoots(pages0, ptrmap0, pages, ptrmap)
    ensures RootsFirst(l, pages, ptrmap)
  {
    forall r, q: nat | r in pages && r in ptrmap && ptrmap[r].kind == ROOTPAGE && 1 < q <= r && Ordinary(l, q)
      ensures q in pages && q in ptrmap && ptrmap[q].kind == ROOTPAGE
    {
      assert IsRoot(pages, ptrmap, r) && IsRoot(pages0, ptrmap0, r);
      assert IsRoot(pages0, ptrmap0, q);
      assert IsRoot(pages, ptrmap, q);
    }
  }

  // ---------- the operations ----------

  // How many pages the application wants vacuumed, if it was asked.
  datatype Asked = NotAsked | Asked(pages: nat)

  function PagesToVacuum(ask: Asked, nFree: nat): nat {
    match ask
    case NotAsked => nFree
    case Asked(n) => if n > nFree then nFree else n
  }

  // Every ordinary page up to i is in a file of nPage pages.
  ghost predicate Covers(l: Layout, nPage: nat, i: nat) {
    forall q: nat | q <= i && Ordinary(l, q) :: q <= nPage
  }

  lemma CoversAll(l: Layout, nPage: nat, i: nat)
    requires i <= nPage
    ensures Covers(l, nPage, i)
  {
  }

  // A file that ended at the last ordinary page before i has all of them before i.
  lemma CoversBefore(l: Layout, nPage: nat, i: nat)
    requires LastBefore(l, i, nPage)
    ensures Covers(l, nPage, i - 1)
  {
  }

  // The last ordinary page before iLastPg.
  method PageBefore(l: Layout, nFin: nat, iLastPg: nat) returns (i: nat)
    requires Ordinary(l, nFin) && nFin < iLastPg
    ensures LastBefore(l, iLastPg, i) && nFin <= i
  {
    i := iLastPg - 1;
    while i == l.pending || IsMap(l, i)
      invariant nFin <= i < iLastPg && forall p | i < p < iLastPg :: !Ordinary(l, p)
      decreases i
    {
      i := i - 1;
    }
  }

  lemma FreeBefore(l: Layout, nFin: nat, iLastPg: nat, pages: Pages, ptrmap: Map, free: set<nat>, i: nat)
    requires iLastPg > nFin && Vacuuming(l, nFin, iLastPg - 1, true, pages, ptrmap, free) && LastBefore(l, iLastPg, i)
    ensures forall p | p in free :: p <= i
  {
    hide Exact, Kinds, Count;
  }

  /** The database whose pages are moved, and its file with the freelist. */
  class Vacuum {
    const db: Db
    const bt: F.BtShared

    ghost predicate Valid()
      reads this, db, bt
    {
      Ready() && Resting(bt.l, bt.nPage, db.pages, db.ptrmap, bt.Free())
    }

    ghost predicate Ready()
      reads this, bt
    {
      bt.Valid() && bt.autoVacuum && bt.nPage + 3 < F.U32
    }

    constructor (db: Db, bt: F.BtShared)
      requires bt.Valid() && bt.autoVacuum && bt.nPage + 3 < F.U32
               && Resting(bt.l, bt.nPage, db.pages, db.ptrmap, bt.Free())
      ensures Valid() && this.db == db && this.bt == bt
    {
      this.db, this.bt := db, bt;
    }

    lemma Facts()
      requires Ready()
      ensures bt.l.Ok() && 1 in bt.pages && |bt.pages[1]| > 9 && bt.pages[1][9] == |bt.Free()|
      ensures forall p | p in bt.Free() :: 2 <= p <= bt.nPage
    {
      bt.FreeFacts();
    }

    // A free page up to nFin. When the whole freelist is to go, pages beyond nFin are taken off it on the way.
    method FindPlace(nFin: nat, bCommit: bool) returns (rc: Outcome, iFreePg: nat)
      requires Ready() && nFin <= bt.nPage && exists q :: q in bt.Free() && q <= nFin
      modifies bt
      ensures Ready() && bt.nPage == old(bt.nPage) && rc.Ok? && iFreePg in old(bt.Free()) && iFreePg <= nFin
              && bt.Free() <= old(bt.Free()) - {iFreePg}
      ensures forall p | p in old(bt.Free()) :: p in bt.Free() || p == iFreePg || p > nFin
      ensures !bCommit ==> bt.Free() == old(bt.Free()) - {iFreePg}
    {
      hide F.BtShared.Valid, F.BtShared.Free;
      Facts();
      var eMode, iNear := F.ANY, 0;
      if !bCommit { eMode, iNear := F.LE, nFin; }
      ghost var low: nat :| low in bt.Free() && low <= nFin;
      rc := Ok;
      iFreePg := bt.Take(iNear, eMode);
      while bCommit && iFreePg > nFin
        invariant Ready() && bt.nPage == old(bt.nPage) && rc.Ok? && iFreePg in old(bt.Free())
                  && bt.Free() <= old(bt.Free()) - {iFreePg} && (low in bt.Free() || low == iFreePg)
        invariant forall p | p in old(bt.Free()) :: p in bt.Free() || p == iFreePg || p > nFin
        invariant !bCommit ==> bt.Free() == old(bt.Free()) - {iFreePg} && iFreePg <= nFin
        decreases bt.Free()
      {
        iFreePg := bt.Take(iNear, eMode);
      }
      if iFreePg > bt.nPage {
        assert false;
        rc := Corrupt;
      }
    }

    /** incrVacuumStep: the page at the end is not in use any more. q is where its content went, or zero. */
    method IncrVacuumStep(nFin: nat, iLastPg: nat, bCommit: bool) returns (rc: Outcome, ghost q: nat)
      requires Vacuuming(bt.l, nFin, iLastPg, !bCommit, db.pages, db.ptrmap, bt.Free()) && iLastPg > nFin
      requires Ready() && nFin <= bt.nPage && Covers(bt.l, bt.nPage, iLastPg)
      modifies db, bt
      ensures !rc.Corrupt? && Vacuuming(bt.l, nFin, if rc.Ok? then iLastPg - 1
              else nFin, !bCommit, db.pages, db.ptrmap, bt.Free())
      ensures rc.Done? ==> old(bt.Free()) == {} && unchanged(bt) && unchanged(db)
      ensures Moved(old(db.pages), old(db.ptrmap), nFin, iLastPg, q, db.pages, db.ptrmap)
      ensures Ready() && bt.Free() <= old(bt.Free()) && nFin <= bt.nPage <= old(bt.nPage)
      ensures bCommit ==> bt.nPage == old(bt.nPage)
      ensures !bCommit && rc.Ok? ==> LastBefore(bt.l, iLastPg, bt.nPage)
    {
      hide F.BtShared.Valid, F.BtShared.Free, Vacuuming, Exact, Kinds, Renamed, SameRoots, Ordinary;
      rc, q := Ok, 0;
      Facts();
      var i := iLastPg;
      Stayed(db.pages, db.ptrmap, nFin, iLastPg);
      LastFacts(bt.l, nFin, iLastPg, !bCommit, db.pages, db.ptrmap, bt.Free());
      if !IsMap(bt.l, i) && i != bt.l.pending {
        if bt.pages[1][9] == 0 {
          NoneFree(bt.l, nFin, i, !bCommit, db.pages, db.ptrmap, bt.Free());
          return Done, 0;
        }
        var eType, iPtrPage := db.ptrmap[i].kind, db.ptrmap[i].parent;
        if eType == ROOTPAGE {
          assert false;
          rc := Corrupt;
          return;
        }
        if eType == FREEPAGE {
          ghost var free0 := bt.Free();
          if !bCommit { var _ := bt.Take(i, F.EXACT); }
          PassOver(bt.l, nFin, i, !bCommit, db.pages, db.ptrmap, free0, bt.Free());
        } else {
          q := MoveLast(nFin, i, bCommit, eType, iPtrPage);
        }
      } else {
        PassOver(bt.l, nFin, i, !bCommit, db.pages, db.ptrmap, bt.Free(), bt.Free());
      }
      if !bCommit { CutLast(nFin, iLastPg); }
    }

    // The page at the end goes to a free page up to nFin.
    method MoveLast(nFin: nat, i: nat, bCommit: bool, eType: PageType, iPtrPage: nat) returns (ghost q: nat)
      requires Vacuuming(bt.l, nFin, i, !bCommit, db.pages, db.ptrmap, bt.Free()) && i > nFin
      requires Ready() && nFin <= bt.nPage
      requires i in db.pages && i in db.ptrmap && db.ptrmap[i] == Entry(eType, iPtrPage) && eType != ROOTPAGE
      modifies db, bt
      ensures Vacuuming(bt.l, nFin, i - 1, !bCommit, db.pages, db.ptrmap, bt.Free()) && q != 0
      ensures Moved(old(db.pages), old(db.ptrmap), nFin, i, q, db.pages, db.ptrmap)
      ensures Ready() && bt.nPage == old(bt.nPage) && bt.Free() <= old(bt.Free())
    {
      hide F.BtShared.Valid, F.BtShared.Free, Exact, Kinds, Renamed, SameRoots, Ordinary, Count;
      Facts();
      RoomBelow(bt.l, nFin, i, !bCommit, db.pages, db.ptrmap, bt.Free(), i);
      BeyondTwo(bt.l, nFin, i);
      ghost var pages0, map0, free0 := db.pages, db.ptrmap, bt.Free();
      var rc, iFreePg := FindPlace(nFin, bCommit);
      var rc' := db.RelocatePage(i, eType, iPtrPage, iFreePg);
      q := iFreePg;
      MovedDown(bt.l, nFin, i, !bCommit, pages0, map0, free0, q, db.pages, db.ptrmap, bt.Free());
      RootsMoved(bt.l, nFin, i, !bCommit, pages0, map0, free0, q, db.pages, db.ptrmap);
      RenamedKeys(pages0, i, q);
    }

    // The file ends at the ordinary page before iLastPg.
    method CutLast(nFin: nat, iLastPg: nat)
      requires iLastPg > nFin && Vacuuming(bt.l, nFin, iLastPg - 1, true, db.pages, db.ptrmap, bt.Free())
      requires Ready() && nFin <= bt.nPage && Covers(bt.l, bt.nPage, iLastPg)
      modifies bt
      ensures Ready() && LastBefore(bt.l, iLastPg, bt.nPage) && nFin <= bt.nPage <= old(bt.nPage) && bt.bDoTruncate
      ensures bt.Free() == old(bt.Free())
    {
      hide F.BtShared.Valid, F.BtShared.Free, Exact, Kinds, Count, IsMap;
      var i := PageBefore(bt.l, nFin, iLastPg);
      FreeBefore(bt.l, nFin, iLastPg, db.pages, db.ptrmap, bt.Free(), i);
      bt.CutTo(i);
    }

    /** autoVacuumCommit: all free pages, or as many as asked for, are gone from the end of the file, and the database
        is the same except for the numbers of pages that were beyond the new end. */
    method AutoVacuumCommit(incrVacuum: bool, ask: Asked) returns (rc: Outcome, ghost f: map<nat, nat>)
      requires Valid()
      modifies db, bt
      ensures rc.Ok? && Valid()
      ensures SameUpTo(old(db.pages), db.pages, f) && forall p | p in f && p <= bt.nPage :: f[p] == p
      ensures var nFree := old(|bt.Free()|);
              var nVac := if incrVacuum then 0 else if ask.Asked? && ask.pages < nFree then ask.pages else nFree;
              && Count(bt.l, bt.nPage) == old(Count(bt.l, bt.nPage)) - nVac && |bt.Free()| == nFree - nVac
              && (nVac == nFree && !incrVacuum ==> bt.Free() == {} && db.pages.Keys == OrdinaryUpTo(bt.l, bt.nPage))
    {
      hide F.BtShared.Valid, F.BtShared.Free, Resting, Vacuuming, SameUpTo, SameRoots, Ordinary, Count, Unmoved, Moved,
           Exact, Then, LastBefore, OrdinaryUpTo, IsMap, Along;
      rc, f := Ok, Unmoved(db.pages);
      UnmovedFixes(db.pages);
      RestingSize(bt.l, bt.nPage, db.pages, db.ptrmap, bt.Free());
      if incrVacuum { return; }
      Facts();
      var nOrig, nFree := bt.nPage, bt.pages[1][9];
      RestingFacts(bt.l, bt.nPage, db.pages, db.ptrmap, bt.Free());
      if IsMap(bt.l, nOrig) || nOrig == bt.l.pending {
        assert false;
        rc := Corrupt;
        return;
      }
      var nVac := PagesToVacuum(ask, nFree);
      if ask.Asked? && nVac == 0 {
        NothingFree(bt.l, bt.nPage, db.pages, db.ptrmap, bt.Free());
        return;
      }
      var nFin := FinalDbSize(bt.l, nOrig, nVac);
      FinNotBeyond(bt.l, nFin, nOrig);
      if nFin > nOrig {
        assert false;
        rc := Corrupt;
        return;
      }
      f := Shrink(nFin, nVac == nFree);
      if nFree > 0 {
        if nVac == nFree { bt.DropAll(); }
        RestingFacts(bt.l, nFin, db.pages, db.ptrmap, bt.Free());
        bt.CutTo(nFin);
        bt.WriteSize();
      } else {
        CountUnique(bt.l, nFin, nOrig);
      }
      RestingSize(bt.l, bt.nPage, db.pages, db.ptrmap, bt.Free());
      NothingFree(bt.l, bt.nPage, db.pages, db.ptrmap, bt.Free());
    }

    /** sqlite3BtreeIncrVacuum: the file is one ordinary page shorter, or there was nothing to do. */
    method IncrVacuum() returns (rc: Outcome, ghost f: map<nat, nat>)
      requires Valid()
      modifies db, bt
      ensures !rc.Corrupt? && Valid() && (rc.Done? <==> old(bt.Free()) == {})
      ensures rc.Done? ==> unchanged(bt) && unchanged(db) && bt.Free() == {}
      ensures rc.Ok? ==>
                LastBefore(bt.l, old(bt.nPage), bt.nPage) && bt.nPage < old(bt.nPage)
                && |bt.Free()| == old(|bt.Free()|) - 1
      ensures SameUpTo(old(db.pages), db.pages, f) && bt.nPage <= old(bt.nPage) && forall p | p in f
              && p <= bt.nPage :: f[p] == p
    {
      hide F.BtShared.Valid, F.BtShared.Free, Resting, Vacuuming, SameUpTo, SameRoots, Ordinary, Count, Unmoved, Moved,
           Exact, Then, LastBefore, OrdinaryUpTo, IsMap, Along;
      f := Unmoved(db.pages);
      UnmovedFixes(db.pages);
      RestingSize(bt.l, bt.nPage, db.pages, db.ptrmap, bt.Free());
      RestingFacts(bt.l, bt.nPage, db.pages, db.ptrmap, bt.Free());
      Facts();
      var nOrig, nFree := bt.nPage, bt.pages[1][9];
      var nFin := FinalDbSize(bt.l, nOrig, nFree);
      FinNotBeyond(bt.l, nFin, nOrig);
      CountAtMost(bt.l, nOrig);
      if nOrig < nFin || nFree >= nOrig {
        assert false;
        rc := Corrupt;
      } else if nFree > 0 {
        ghost var was, map0, free0 := db.pages, db.ptrmap, bt.Free();
        AlongStart(was, map0, nFin);
        VacuumStarts(bt.l, bt.nPage, was, map0, bt.Free(), nFin);
        ghost var q;
        rc, q := IncrVacuumStep(nFin, nOrig, false);
        if rc.Ok? { bt.WriteSize(); }
        AlongNext(was, map0, nFin, f, was, map0, nOrig, q, db.pages, db.ptrmap);
        AlongIs(was, map0, nFin, if q == 0 then f else Then(f, nOrig, q), db.pages, db.ptrmap);
        OnlyLastMoved(f, nOrig, q, was);
        f := if q == 0 then f else Then(f, nOrig, q);
        OneLess(bt.l, nOrig, bt.nPage);
        UpToLast(bt.l, nFin, nOrig, bt.nPage, db.pages, db.ptrmap, bt.Free());
        RestsAgain(bt.l, nFin, nOrig, was, map0, free0, bt.nPage, true, db.pages, db.ptrmap, bt.Free());
        RestingSize(bt.l, bt.nPage, db.pages, db.ptrmap, bt.Free());
      } else {
        rc := Done;
      }
    }

    /** Incremental vacuum repeated to the end leaves what a vacuum at commit leaves: no free page, and a file that ends
        at the one page up to which there is room for exactly the pages in use. */
    method VacuumAll() returns (ghost f: map<nat, nat>)
      requires Valid()
      modifies db, bt
      ensures Valid() && bt.Free() == {} && db.pages.Keys == OrdinaryUpTo(bt.l, bt.nPage)
      ensures Count(bt.l, bt.nPage) == old(|db.pages.Keys|)
      ensures SameUpTo(old(db.pages), db.pages, f) && forall p | p in f && p <= bt.nPage :: f[p] == p
    {
      hide F.BtShared.Valid, F.BtShared.Free, Ready, Resting, SameUpTo, Ordinary, Count, Unmoved, Exact, Compose,
           Still, OrdinaryUpTo, LastBefore;
      ghost var was, map0 := db.pages, db.ptrmap;
      f := Unmoved(was);
      StillStart(was, bt.nPage);
      RestingFacts(bt.l, bt.nPage, was, map0, bt.Free());
      var rc := Ok;
      while rc.Ok?
        invariant Valid() && !rc.Corrupt? && (rc.Done? ==> bt.Free() == {}) && Still(was, db.pages, f, bt.nPage)
        decreases rc.Ok?, |bt.Free()|
      {
        ghost var g;
        ghost var pages1, map1, n := db.pages, db.ptrmap, bt.nPage;
        RestingFacts(bt.l, bt.nPage, pages1, map1, bt.Free());
        rc, g := IncrVacuum();
        StillNext(was, map0, pages1, db.pages, f, g, bt.nPage, n);
        f := Compose(f, g);
      }
      StillIs(was, db.pages, f, bt.nPage);
      RestingSize(bt.l, bt.nPage, db.pages, db.ptrmap, bt.Free());
      NothingFree(bt.l, bt.nPage, db.pages, db.ptrmap, bt.Free());
    }

    // Move everything beyond nFin, one page after the other from the end.
    method Shrink(nFin: nat, bCommit: bool) returns (ghost f: map<nat, nat>)
      requires Valid() && Ordinary(bt.l, nFin) && nFin <= bt.nPage && |db.pages.Keys| <= Count(bt.l, nFin)
      requires bCommit ==> |db.pages.Keys| == Count(bt.l, nFin)
      modifies db, bt
      ensures Ready() && nFin <= bt.nPage <= old(bt.nPage)
              && Resting(bt.l, nFin, db.pages, db.ptrmap, if bCommit then {} else bt.Free())
      ensures SameUpTo(old(db.pages), db.pages, f) && forall p | p in f && p <= nFin :: f[p] == p
      ensures |db.pages.Keys| == old(|db.pages.Keys|) && (old(bt.Free()) == {} ==> bt.Free() == {})
              && (nFin == old(bt.nPage) ==> bt.nPage == old(bt.nPage))
    {
      hide F.BtShared.Valid, F.BtShared.Free, Ready, Resting, Vacuuming, SameUpTo, SameRoots, Ordinary, Count, Unmoved,
           Moved, Exact, Then, LastBefore, OrdinaryUpTo, IsMap, Along;
      ghost var was, map0, free0 := db.pages, db.ptrmap, bt.Free();
      var nOrig := bt.nPage;
      f := Unmoved(was);
      AlongStart(was, map0, nFin);
      RestingFacts(bt.l, bt.nPage, was, map0, bt.Free());
      VacuumStarts(bt.l, bt.nPage, was, map0, bt.Free(), nFin);
      var i, rc := nOrig, Ok;
      while i > nFin && rc.Ok?
        invariant nFin <= i <= nOrig && !rc.Corrupt?
                  && (i == nOrig ==> bt.nPage == nOrig && bt.Free() == free0 && rc.Ok?)
        invariant Vacuuming(bt.l, nFin, if rc.Ok? then i else nFin, !bCommit, db.pages, db.ptrmap, bt.Free())
        invariant Ready() && nFin <= bt.nPage <= nOrig && (bCommit ==> bt.nPage == nOrig)
        invariant bt.Free() <= free0 && Covers(bt.l, bt.nPage, i)
        invariant Along(was, map0, nFin, f, db.pages, db.ptrmap)
        decreases i
      {
        ghost var q;
        ghost var pages1, map1 := db.pages, db.ptrmap;
        rc, q := IncrVacuumStep(nFin, i, bCommit);
        AlongNext(was, map0, nFin, f, pages1, map1, i, q, db.pages, db.ptrmap);
        f := if q == 0 then f else Then(f, i, q);
        if bCommit { CoversAll(bt.l, bt.nPage, i - 1); } else if rc.Ok? { CoversBefore(bt.l, bt.nPage, i); }
        i := i - 1;
      }
      AlongIs(was, map0, nFin, f, db.pages, db.ptrmap);
      RestsAgain(bt.l, nFin, nOrig, was, map0, free0, nFin, !bCommit, db.pages, db.ptrmap, bt.Free());
    }
  }

  // f followed by g.
  function Compose(f: map<nat, nat>, g: map<nat, nat>): map<nat, nat> { map p | p in f :: MapPtr(g, f[p]) }

  lemma ContentComposed(c: Content, f: map<nat, nat>, g: map<nat, nat>)
    requires Closed(c, f) && 0 !in g && 0 !in f
    ensures ContentMapped(ContentMapped(c, f), g) == ContentMapped(c, Compose(f, g))
  {
    if c.Btree? {
      var x, y := ContentMapped(ContentMapped(c, f), g), ContentMapped(c, Compose(f, g));
      forall i | 0 <= i < |c.cells| ensures x.cells[i] == y.cells[i] { }
      assert x.cells == y.cells;
    }
  }

  lemma ComposedPage(was: Pages, m: Map, mid: Pages, now: Pages, f: map<nat, nat>, g: map<nat, nat>, p: nat)
    requires Exact(was, m) && SameUpTo(was, mid, f) && SameUpTo(mid, now, g) && 0 !in mid && p in f
    ensures f[p] in g && g[f[p]] in now && now[g[f[p]]] == ContentMapped(was[p], Compose(f, g))
  {
    hide ContentMapped, Closed;
    NoZero(was, m);
    ExactIsClosed(was, m, p, f);
    ContentComposed(was[p], f, g);
  }

  lemma NoZero(was: Pages, m: Map)
    requires Exact(was, m)
    ensures 0 !in was
  {
  }

  lemma ComposedReached(was: Pages, mid: Pages, now: Pages, f: map<nat, nat>, g: map<nat, nat>, q: nat)
    requires SameUpTo(was, mid, f) && SameUpTo(mid, now, g) && q in now
    ensures exists p :: p in Compose(f, g) && Compose(f, g)[p] == q
  {
    hide ContentMapped;
    var r :| r in g && g[r] == q;
    var p :| p in f && f[p] == r;
    assert Compose(f, g)[p] == q;
  }

  lemma ComposedOnce(was: Pages, mid: Pages, now: Pages, f: map<nat, nat>, g: map<nat, nat>, p: nat, q: nat)
    requires SameUpTo(was, mid, f) && SameUpTo(mid, now, g) && p in f && q in f && Compose(f, g)[p] == Compose(f, g)[q]
    ensures p == q
  {
    hide ContentMapped;
    assert f[p] in g && f[q] in g;
  }

  lemma ComposedKeys(was: Pages, mid: Pages, now: Pages, f: map<nat, nat>, g: map<nat, nat>)
    requires SameUpTo(was, mid, f) && SameUpTo(mid, now, g)
    ensures Compose(f, g).Keys == was.Keys == f.Keys && forall p | p in f :: f[p] in g && Compose(f, g)[p] == g[f[p]]
  {
    hide ContentMapped;
  }

  /** One renaming after the other is a renaming. */
  lemma Composed(was: Pages, m: Map, mid: Pages, now: Pages, f: map<nat, nat>, g: map<nat, nat>, n: nat, n': nat)
    requires Exact(was, m) && SameUpTo(was, mid, f) && SameUpTo(mid, now, g) && 0 !in mid && n <= n'
    requires (forall p | p in f && p <= n' :: f[p] == p) && (forall p | p in g && p <= n :: g[p] == p)
    ensures SameUpTo(was, now, Compose(f, g)) && forall p | p in Compose(f, g) && p <= n :: Compose(f, g)[p] == p
  {
    hide Exact, ContentMapped, SameUpTo, Compose;
    var h := Compose(f, g);
    ComposedKeys(was, mid, now, f, g);
    forall p | p in h ensures h[p] in now && now[h[p]] == ContentMapped(was[p], h) {
      ComposedPage(was, m, mid, now, f, g, p);
    }
    forall q | q in now ensures exists p :: p in h && h[p] == q { ComposedReached(was, mid, now, f, g, q); }
    forall p, q | p in h && q in h && h[p] == h[q] ensures p == q { ComposedOnce(was, mid, now, f, g, p, q); }
    Assembled(was, now, h);
  }

  // Nothing is lost since was, and pages up to n have not moved.
  ghost predicate Still(was: Pages, pages: Pages, f: map<nat, nat>, n: nat) {
    SameUpTo(was, pages, f) && |pages.Keys| == |was.Keys| && forall p | p in f && p <= n :: f[p] == p
  }

  lemma StillStart(was: Pages, n: nat)
    ensures Still(was, was, Unmoved(was), n)
  {
    hide SameUpTo, Unmoved;
    UnmovedFixes(was);
  }

  lemma StillNext(was: Pages, m: Map, mid: Pages, now: Pages, f: map<nat, nat>, g: map<nat, nat>, n: nat, n': nat)
    requires Exact(was, m) && Still(was, mid, f, n') && 0 !in mid && n <= n'
    requires SameUpTo(mid, now, g) && forall p | p in g && p <= n :: g[p] == p
    ensures Still(was, now, Compose(f, g), n)
  {
    hide Exact, SameUpTo, Compose;
    Composed(was, m, mid, now, f, g, n, n');
    SameSize(mid, now, g);
  }

  lemma StillIs(was: Pages, pages: Pages, f: map<nat, nat>, n: nat)
    requires Still(was, pages, f, n)
    ensures SameUpTo(was, pages, f) && |pages.Keys| == |was.Keys| && forall p | p in f && p <= n :: f[p] == p
  {
    hide SameUpTo;
  }

  // Page p is the last ordinary one before i.
  ghost predicate LastBefore(l: Layout, i: nat, p: nat) {
    p < i && Ordinary(l, p) && forall q | p < q < i :: !Ordinary(l, q)
  }

  // Page i has gone to the free page q, or is where it was if q is zero.
  ghost predicate Moved(pages: Pages, ptrmap: Map, fin: nat, i: nat, q: nat, pages': Pages, ptrmap': Map) {
    && (q == 0 ==> pages' == pages && ptrmap' == ptrmap)
    && (q != 0 ==> fin < i && i in pages && q !in pages && q <= fin && 0 !in pages && pages' == Renamed(pages, i, q))
    && SameRoots(pages, ptrmap, pages', ptrmap') && |pages'.Keys| == |pages.Keys|
  }

  lemma Stayed(pages: Pages, ptrmap: Map, fin: nat, i: nat)
    ensures Moved(pages, ptrmap, fin, i, 0, pages, ptrmap)
  {
  }

  lemma RenamedKeys(pages: Pages, i: nat, q: nat)
    requires i in pages && q !in pages
    ensures Renamed(pages, i, q).Keys == pages.Keys - {i} + {q} && |Renamed(pages, i, q).Keys| == |pages.Keys|
  {
    hide ContentTo;
    assert Renamed(pages, i, q).Keys == pages.Keys - {i} + {q};
  }

  // Since was, pages beyond fin have moved to where f says, and roots have stayed.
  ghost predicate Along(was: Pages, map0: Map, fin: nat, f: map<nat, nat>, pages: Pages, ptrmap: Map) {
    && SameUpTo(was, pages, f) && (forall p | p in f && p <= fin :: f[p] == p)
    && SameRoots(was, map0, pages, ptrmap) && |pages.Keys| == |was.Keys|
  }

  lemma AlongStart(was: Pages, map0: Map, fin: nat)
    ensures Along(was, map0, fin, Unmoved(was), was, map0)
  {
    UnmovedSame(was);
  }

  // One more move.
  lemma AlongNext(was: Pages, map0: Map, fin: nat, f: map<nat, nat>, pages: Pages, ptrmap: Map, i: nat, q: nat,
                  pages': Pages, ptrmap': Map)
    requires Exact(was, map0) && Along(was, map0, fin, f, pages, ptrmap)
             && Moved(pages, ptrmap, fin, i, q, pages', ptrmap')
    ensures Along(was, map0, fin, if q == 0 then f else Then(f, i, q), pages', ptrmap')
  {
    hide Exact, Renamed, SameUpTo;
    if q != 0 { RenamedSame(was, map0, pages, f, i, q); }
  }

  lemma AlongIs(was: Pages, map0: Map, fin: nat, f: map<nat, nat>, pages: Pages, ptrmap: Map)
    requires Along(was, map0, fin, f, pages, ptrmap)
    ensures SameUpTo(was, pages, f) && (forall p | p in f && p <= fin :: f[p] == p)
    ensures SameRoots(was, map0, pages, ptrmap) && |pages.Keys| == |was.Keys|
  {
  }

  lemma LastFacts(l: Layout, fin: nat, i: nat, exact: bool, pages: Pages, ptrmap: Map, free: set<nat>)
    requires Vacuuming(l, fin, i, exact, pages, ptrmap, free) && i > fin
    ensures i in pages ==> Ordinary(l, i)
    ensures Ordinary(l, i) ==> i in ptrmap && ptrmap[i].kind != ROOTPAGE && (i in pages <==> ptrmap[i].kind != FREEPAGE)
    ensures Ordinary(l, i) && exact && i !in pages ==> i in free
    ensures exact && i !in pages && !Ordinary(l, i) ==> free - {i} == free
    ensures Ordinary(l, i) <==> !IsMap(l, i) && i != l.pending
  {
    hide Exact, Count;
    if exact && i in free { assert Ordinary(l, i); }
  }

  lemma BeyondTwo(l: Layout, fin: nat, i: nat)
    requires l.Ok() && Ordinary(l, fin) && Ordinary(l, i) && i > fin
    ensures i >= 3
  {
    if i == 2 { MapPlace(l, 2); }
  }

  lemma UnmovedFixes(was: Pages)
    ensures SameUpTo(was, was, Unmoved(was)) && forall p | p in Unmoved(was) :: Unmoved(was)[p] == p
  {
    UnmovedSame(was);
  }

  lemma RestingFacts(l: Layout, nPage: nat, pages: Pages, ptrmap: Map, free: set<nat>)
    requires Resting(l, nPage, pages, ptrmap, free)
    ensures l.Ok() && Ordinary(l, nPage) && !IsMap(l, nPage) && nPage != l.pending && Exact(pages, ptrmap)
            && 0 !in pages && forall p | p in free :: p <= nPage
  {
    hide Kinds, RootsFirst;
    forall p | p in free ensures p <= nPage { assert p in OrdinaryUpTo(l, nPage); }
  }

  lemma NothingFree(l: Layout, nPage: nat, pages: Pages, ptrmap: Map, free: set<nat>)
    requires Resting(l, nPage, pages, ptrmap, free)
    ensures |free| == 0 ==> free == {} && pages.Keys == OrdinaryUpTo(l, nPage)
  {
    hide Exact, Kinds, RootsFirst, Ordinary;
    if |free| == 0 { assert pages.Keys + {} == pages.Keys; }
  }

  lemma {:induction false} CountAtMost(l: Layout, n: nat)
    ensures Count(l, n) <= n
  {
    if n > 0 { CountAtMost(l, n - 1); }
  }

  lemma OneLess(l: Layout, i: nat, p: nat)
    requires Ordinary(l, i) && LastBefore(l, i, p)
    ensures Count(l, p) == Count(l, i) - 1 && Ordinary(l, p) && p < i
  {
    SameCount(l, p, i - 1);
  }

  lemma {:induction false} SameCount(l: Layout, p: nat, i: nat)
    requires p <= i && forall q | p < q <= i :: !Ordinary(l, q)
    ensures Count(l, p) == Count(l, i)
    decreases i
  {
    if p < i { SameCount(l, p, i - 1); }
  }

  // Between the last ordinary page and i there is nothing.
  lemma UpToLast(l: Layout, fin: nat, i: nat, p: nat, pages: Pages, ptrmap: Map, free: set<nat>)
    requires i > 0 && Vacuuming(l, fin, i - 1, true, pages, ptrmap, free) && LastBefore(l, i, p) && fin <= p
    ensures Vacuuming(l, fin, p, true, pages, ptrmap, free)
  {
    hide Exact, Kinds, Ordinary, Count;
  }

  // Renaming the last page to a page before it changes no other number.
  lemma OnlyLastMoved(f: map<nat, nat>, n: nat, q: nat, was: Pages)
    requires f == Unmoved(was)
    ensures forall p | p in Then(f, n, q) && p < n :: Then(f, n, q)[p] == p
  {
  }

  lemma SameSize(was: Pages, now: Pages, f: map<nat, nat>)
    requires SameUpTo(was, now, f)
    ensures |now.Keys| == |was.Keys|
  {
    hide ContentMapped;
    ImageSize(f, was.Keys);
    assert now.Keys == Image(f, was.Keys);
  }

  ghost function Image(f: map<nat, nat>, s: set<nat>): set<nat>
    requires s <= f.Keys
  {
    set p | p in s :: f[p]
  }

  lemma {:induction false} ImageSize(f: map<nat, nat>, s: set<nat>)
    requires s <= f.Keys && forall p, q | p in f && q in f && f[p] == f[q] :: p == q
    ensures |Image(f, s)| == |s|
  {
    if s != {} {
      var e :| e in s;
      ImageSize(f, s - {e});
      assert Image(f, s) == Image(f, s - {e}) + {f[e]};
    }
  }

  lemma FinNotBeyond(l: Layout, fin: nat, orig: nat)
    requires Ordinary(l, fin) && Count(l, fin) <= Count(l, orig)
    ensures fin <= orig
  {
    if orig < fin { CountStrict(l, orig, fin); }
  }
}
