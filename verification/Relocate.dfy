/** Moving a page of an auto-vacuum database to another page number: the pointer map stays the exact
    inverse of the pointers between pages (section 1.8 of the SQLite Database File Format). */
module Relocate {
  import opened Common
  import opened PtrMap

  // A cell: its left child on an interior page, its first overflow page or zero, and the rest.
  datatype Cell = Cell(child: nat, ovfl: nat, rest: seq<byte>)

  datatype Content =
    | Btree(leaf: bool, cells: seq<Cell>, right: nat)
    | Overflow(next: nat, data: seq<byte>)

  type Pages = map<nat, Content>
  type Map = map<nat, Entry>

  // Child i of an interior page; the right child comes after those of the cells.
  function Child(c: Content, i: nat): nat
    requires c.Btree? && i <= |c.cells|
  {
    if i < |c.cells| then c.cells[i].child else c.right
  }

  function Ovfl(c: Content, i: nat): nat
    requires c.Btree? && i < |c.cells|
  {
    c.cells[i].ovfl
  }

  // The page has a pointer of kind k to page t.
  ghost predicate HasRef(c: Content, k: PageType, t: nat) {
    t != 0 && match k
    case BTREE => c.Btree? && !c.leaf && exists i :: 0 <= i <= |c.cells| && Child(c, i) == t
    case OVERFLOW1 => c.Btree? && exists i :: 0 <= i < |c.cells| && Ovfl(c, i) == t
    case OVERFLOW2 => c.Overflow? && c.next == t
    case _ => false
  }

  // No two pointers of a page lead to the same page, and an interior page has all its children.
  ghost predicate Unique(c: Content) {
    c.Btree? ==>
      && (!c.leaf ==> forall i | 0 <= i <= |c.cells| :: Child(c, i) != 0)
      && (forall i, j | 0 <= i < j < |c.cells| :: Ovfl(c, i) != Ovfl(c, j) || Ovfl(c, i) == 0)
      && (!c.leaf ==> forall i, j | 0 <= i < j <= |c.cells| :: Child(c, i) != Child(c, j))
  }

  /** Every pointer is in the map, and the map has nothing else for the pages in use. */
  ghost predicate Exact(pages: Pages, ptrmap: Map) {
    && 0 !in pages
    && (forall p, k, t | p in pages && HasRef(pages[p], k, t) ::
          t in pages && t != p && t in ptrmap && ptrmap[t] == Entry(k, p))
    && (forall t | t in pages && t in ptrmap && ptrmap[t].kind !in {ROOTPAGE, FREEPAGE} ::
          ptrmap[t].parent in pages && HasRef(pages[ptrmap[t].parent], ptrmap[t].kind, t))
    && (forall p | p in pages :: Unique(pages[p]))
  }

  // The map says b-tree page of b-tree pages, overflow page of overflow pages, and free of no page in use.
  ghost predicate Kinds(pages: Pages, ptrmap: Map) {
    forall t | t in pages && t in ptrmap ::
      ptrmap[t].kind != FREEPAGE && (pages[t].Btree? <==> ptrmap[t].kind == BTREE || ptrmap[t].kind == ROOTPAGE)
  }

  function To(x: nat, a: nat, b: nat): nat { if x == a then b else x }

  function CellTo(leaf: bool, c: Cell, a: nat, b: nat): Cell {
    c.(child := if leaf then c.child else To(c.child, a, b), ovfl := To(c.ovfl, a, b))
  }

  // The page with pointers to a turned into pointers to b.
  function ContentTo(c: Content, a: nat, b: nat): Content {
    match c
    case Btree(leaf, cells, right) =>
      Btree(leaf, seq(|cells|, i requires 0 <= i < |cells| => CellTo(leaf, cells[i], a, b)), if leaf then right
          else To(right, a, b))
    case Overflow(next, data) => Overflow(To(next, a, b), data)
  }

  /** The same database with page a called b. */
  ghost function Renamed(pages: Pages, a: nat, b: nat): Pages
    requires a in pages
  {
    map q | q in pages.Keys - {a} + {b} :: if q == b then ContentTo(pages[a], a, b) else ContentTo(pages[q], a, b)
  }

  lemma SlotsTo(c: Content, a: nat, b: nat)
    requires c.Btree?
    ensures var d := ContentTo(c, a, b); d.Btree? && d.leaf == c.leaf && |d.cells| == |c.cells|
    ensures forall i | 0 <= i < |c.cells| :: Ovfl(ContentTo(c, a, b), i) == To(Ovfl(c, i), a, b)
    ensures !c.leaf ==> forall i | 0 <= i <= |c.cells| :: Child(ContentTo(c, a, b), i) == To(Child(c, i), a, b)
  {
  }

  lemma NoRefSame(c: Content, a: nat, b: nat)
    requires a != 0 && forall k :: !HasRef(c, k, a)
    ensures ContentTo(c, a, b) == c
  {
    match c
    case Btree(leaf, cells, right) =>
      assert !HasRef(c, BTREE, a) && !HasRef(c, OVERFLOW1, a);
      forall i | 0 <= i < |cells| ensures CellTo(leaf, cells[i], a, b) == cells[i] {
        assert Ovfl(c, i) != a && (!leaf ==> Child(c, i) != a);
      }
      assert !leaf ==> Child(c, |cells|) != a;
    case Overflow(next, data) =>
      assert !HasRef(c, OVERFLOW2, a);
  }

  // Pointers after the renaming, traced back.
  lemma RefTo(c: Content, a: nat, b: nat, k: PageType, t: nat)
    requires a != 0 && b != 0 && a != b && forall j :: !HasRef(c, j, b)
    ensures HasRef(ContentTo(c, a, b), k, t) <==> t != a && HasRef(c, k, if t == b then a else t)
  {
    var d, u := ContentTo(c, a, b), if t == b then a else t;
    assert !HasRef(c, k, b);
    if c.Btree? {
      SlotsTo(c, a, b);
      hide ContentTo;
      if t != a && HasRef(c, k, u) {
        if k == BTREE {
          var i :| 0 <= i <= |c.cells| && Child(c, i) == u;
          assert Child(d, i) == t;
        } else {
          var i :| 0 <= i < |c.cells| && Ovfl(c, i) == u;
          assert Ovfl(d, i) == t;
        }
      }
      if HasRef(d, k, t) {
        if k == BTREE {
          var i :| 0 <= i <= |d.cells| && Child(d, i) == t;
          assert Child(c, i) != b;
        } else {
          var i :| 0 <= i < |d.cells| && Ovfl(d, i) == t;
          assert Ovfl(c, i) != b;
        }
      }
    }
  }

  lemma UniqueTo(c: Content, a: nat, b: nat)
    requires Unique(c) && a != 0 && b != 0 && a != b && forall j :: !HasRef(c, j, b)
    ensures Unique(ContentTo(c, a, b))
  {
    if c.Btree? {
      SlotsTo(c, a, b);
      assert !HasRef(c, BTREE, b) && !HasRef(c, OVERFLOW1, b);
      hide ContentTo;
      var d := ContentTo(c, a, b);
      forall i, j | 0 <= i < j < |d.cells| ensures Ovfl(d, i) != Ovfl(d, j) || Ovfl(d, i) == 0 {
        assert Ovfl(c, i) != b && Ovfl(c, j) != b;
      }
      if !d.leaf {
        forall i, j | 0 <= i < j <= |d.cells| ensures Child(d, i) != Child(d, j) {
          assert Child(c, i) != b && Child(c, j) != b;
        }
        forall i | 0 <= i <= |d.cells| ensures Child(d, i) != 0 {
          assert Child(c, i) != 0;
        }
      }
    }
  }

  // The targets of c's pointers have parent p in the new map, with the right kind; other entries are as they were.
  ghost predicate Reparented(m: Map, m': Map, c: Content, p: nat) {
    && (forall t | Target(c, t) :: t in m' && m'[t].parent == p && HasRef(c, m'[t].kind, t))
    && (forall t | t in m && !Target(c, t) :: t in m' && m'[t] == m[t])
    && (forall t | t in m' :: t in m || Target(c, t))
  }

  ghost predicate Target(c: Content, t: nat) {
    HasRef(c, BTREE, t) || HasRef(c, OVERFLOW1, t) || HasRef(c, OVERFLOW2, t)
  }

  // Pointers of the first n cells of a page.
  ghost predicate HasRefUpTo(c: Content, n: nat, k: PageType, t: nat)
    requires c.Btree? && n <= |c.cells|
  {
    t != 0 && match k
    case BTREE => !c.leaf && exists i :: 0 <= i < n && Child(c, i) == t
    case OVERFLOW1 => exists i :: 0 <= i < n && Ovfl(c, i) == t
    case _ => false
  }

  ghost predicate ReparentedUpTo(m: Map, m': Map, c: Content, n: nat, p: nat)
    requires c.Btree? && n <= |c.cells|
  {
    && (forall t | HasRefUpTo(c, n, BTREE, t) || HasRefUpTo(c, n, OVERFLOW1, t) ::
          t in m' && m'[t].parent == p && HasRefUpTo(c, n, m'[t].kind, t))
    && (forall t | t in m && t != 0 && !HasRefUpTo(c, n, BTREE, t) && !HasRefUpTo(c, n, OVERFLOW1, t) ::
          t in m' && m'[t] == m[t])
    && (forall t | t in m' :: t in m || HasRefUpTo(c, n, BTREE, t) || HasRefUpTo(c, n, OVERFLOW1, t))
  }

  class Db {
    var pages: Pages
    var ptrmap: Map

    // setChildPtrmaps: the pages that pgno points to get it as their parent.
    method SetChildPtrmaps(pgno: nat) returns (rc: Rc)
      requires pgno in pages && pages[pgno].Btree? && Unique(pages[pgno]) && 0 !in ptrmap
      modifies `ptrmap
      ensures rc.OK? && Reparented(old(ptrmap), ptrmap, pages[pgno], pgno) && 0 !in ptrmap
    {
      rc := OK;
      var c := pages[pgno];
      var i := 0;
      while i < |c.cells|
        invariant 0 <= i <= |c.cells| && ReparentedUpTo(old(ptrmap), ptrmap, c, i, pgno) && 0 !in ptrmap && rc.OK?
      {
        ghost var m := ptrmap;
        var cell := c.cells[i];
        if cell.ovfl != 0 { ptrmap := ptrmap[cell.ovfl := Entry(OVERFLOW1, pgno)]; }
        if !c.leaf {
          assert Child(c, i) != 0;
          if cell.child == 0 {
            assert false;
            rc := CORRUPT;
            return;
          }
          ptrmap := ptrmap[cell.child := Entry(BTREE, pgno)];
        }
        OneMore(old(ptrmap), m, ptrmap, c, i, pgno);
        i := i + 1;
      }
      ghost var m := ptrmap;
      if !c.leaf {
        assert Child(c, |c.cells|) != 0;
        if c.right == 0 {
          assert false;
          rc := CORRUPT;
          return;
        }
        ptrmap := ptrmap[c.right := Entry(BTREE, pgno)];
      }
      AllDone(old(ptrmap), m, ptrmap, c, pgno);
    }

    // modifyPagePointer: the one pointer of kind eType from page p to iFrom now leads to iTo.
    method ModifyPagePointer(p: nat, iFrom: nat, iTo: nat, eType: PageType) returns (rc: Rc)
      requires p in pages && Unique(pages[p]) && HasRef(pages[p], eType, iFrom)
               && (forall k | k != eType :: !HasRef(pages[p], k, iFrom))
      modifies `pages
      ensures rc.OK? && pages == old(pages)[p := ContentTo(old(pages)[p], iFrom, iTo)]
    {
      rc := OK;
      var c := pages[p];
      if eType == OVERFLOW2 {
        if c.next != iFrom {
          assert false;
          rc := CORRUPT;
          return;
        }
        pages := pages[p := c.(next := iTo)];
        return;
      }
      var i := 0;
      while i < |c.cells|
        invariant 0 <= i <= |c.cells| && pages == old(pages) && rc.OK?
        invariant eType == OVERFLOW1 ==> forall j | 0 <= j < i :: Ovfl(c, j) != iFrom
        invariant eType == BTREE ==> forall j | 0 <= j < i :: Child(c, j) != iFrom
      {
        var cell := c.cells[i];
        if eType == OVERFLOW1 {
          if cell.ovfl == iFrom {
            OnlyOvfl(c, i, iFrom, iTo);
            pages := pages[p := c.(cells := c.cells[i := cell.(ovfl := iTo)])];
            return;
          }
        } else if cell.child == iFrom {
          OnlyChild(c, i, iFrom, iTo);
          pages := pages[p := c.(cells := c.cells[i := cell.(child := iTo)])];
          return;
        }
        i := i + 1;
      }
      if eType != BTREE || c.right != iFrom {
        assert false;
        rc := CORRUPT;
        return;
      }
      OnlyChild(c, i, iFrom, iTo);
      pages := pages[p := c.(right := iTo)];
    }

    /** relocatePage: the database is the same with one page renamed, and the map is still its exact inverse. */
    method RelocatePage(iDbPage: nat, eType: PageType, iPtrPage: nat, iFreePage: nat) returns (rc: Rc)
      requires Exact(pages, ptrmap) && Kinds(pages, ptrmap) && 0 !in ptrmap
      requires iDbPage in pages && iDbPage in ptrmap && ptrmap[iDbPage] == Entry(eType, iPtrPage)
      requires iFreePage !in pages && iFreePage != 0
               && (eType == ROOTPAGE ==> iFreePage in ptrmap && ptrmap[iFreePage] == Entry(eType, iPtrPage))
      modifies this
      ensures rc.OK? <==> iDbPage >= 3
      ensures rc.CORRUPT? ==> unchanged(this)
      ensures rc.OK? ==>
                pages == Renamed(old(pages), iDbPage, iFreePage) && Exact(pages, ptrmap)
                && Kinds(pages, ptrmap) && 0 !in ptrmap
      ensures rc.OK? ==> iFreePage in ptrmap && ptrmap[iFreePage] == Entry(eType, iPtrPage)
      ensures rc.OK? ==> (forall t | t in old(ptrmap) && t != iFreePage ::
                t in ptrmap && ptrmap[t].kind == old(ptrmap)[t].kind)
      ensures rc.OK? ==> forall t | t in ptrmap :: t in old(ptrmap) || t == iFreePage
    {
      hide HasRef, Unique, ContentTo, Exact, Kinds, Reparented;
      if iDbPage < 3 { return CORRUPT; }
      ghost var was, m := pages, ptrmap;
      MoveFacts(was, m, iDbPage);
      RenamedIs(was, m, iDbPage, iFreePage, eType == ROOTPAGE);
      pages := (pages - {iDbPage})[iFreePage := pages[iDbPage]];
      rc := Adopt(iFreePage, eType);
      ghost var m1 := ptrmap;
      if eType != ROOTPAGE {
        rc := ModifyPagePointer(iPtrPage, iDbPage, iFreePage, eType);
        ptrmap := ptrmap[iFreePage := Entry(eType, iPtrPage)];
      }
      RemapIs(was, m, m1, ptrmap, iDbPage, iFreePage);
      StillExact(was, m, ptrmap, iDbPage, iFreePage);
      StillKinds(was, m, ptrmap, iDbPage, iFreePage);
      KindsKept(was, m, ptrmap, iDbPage, iFreePage);
    }

    // The pages that pgno points to get it as their parent, whether it is a b-tree or an overflow page.
    method Adopt(pgno: nat, eType: PageType) returns (rc: Rc)
      requires pgno in pages && Unique(pages[pgno]) && 0 !in ptrmap
               && (pages[pgno].Btree? <==> eType == BTREE || eType == ROOTPAGE)
      modifies `ptrmap
      ensures rc.OK? && Reparented(old(ptrmap), ptrmap, pages[pgno], pgno) && 0 !in ptrmap
    {
      rc := OK;
      if eType == BTREE || eType == ROOTPAGE {
        rc := SetChildPtrmaps(pgno);
      } else {
        var nextOvfl := pages[pgno].next;
        if nextOvfl != 0 { ptrmap := ptrmap[nextOvfl := Entry(OVERFLOW2, pgno)]; }
      }
    }
  }

  lemma OnlyOvfl(c: Content, i: nat, a: nat, b: nat)
    requires c.Btree? && Unique(c) && i < |c.cells| && Ovfl(c, i) == a != 0 && !HasRef(c, BTREE, a)
    ensures ContentTo(c, a, b) == c.(cells := c.cells[i := c.cells[i].(ovfl := b)])
  {
    var d := c.cells[i := c.cells[i].(ovfl := b)];
    forall j | 0 <= j < |c.cells| ensures CellTo(c.leaf, c.cells[j], a, b) == d[j] {
      assert !c.leaf ==> Child(c, j) != a;
      assert j != i ==> Ovfl(c, j) != a;
    }
    assert !c.leaf ==> Child(c, |c.cells|) != a;
  }

  lemma OnlyChild(c: Content, i: nat, a: nat, b: nat)
    requires c.Btree? && !c.leaf && Unique(c) && i <= |c.cells| && Child(c, i) == a != 0 && !HasRef(c, OVERFLOW1, a)
    ensures ContentTo(c, a, b) == if i < |c.cells| then c.(cells := c.cells[i := c.cells[i].(child := b)])
            else c.(right := b)
  {
    var d := if i < |c.cells| then c.cells[i := c.cells[i].(child := b)] else c.cells;
    forall j | 0 <= j < |c.cells| ensures CellTo(c.leaf, c.cells[j], a, b) == d[j] {
      assert Ovfl(c, j) != a;
      assert j != i ==> Child(c, j) != a;
    }
    assert i != |c.cells| ==> Child(c, |c.cells|) != a;
  }

  lemma UpToNext(c: Content, n: nat, k: PageType, t: nat)
    requires c.Btree? && n < |c.cells|
    ensures HasRefUpTo(c, n + 1, k, t) <==>
      HasRefUpTo(c, n, k, t)
          || (t != 0 && ((k == BTREE && !c.leaf && Child(c, n) == t) || (k == OVERFLOW1 && Ovfl(c, n) == t)))
  {
    if HasRefUpTo(c, n + 1, k, t) {
      if k == BTREE {
        var i :| 0 <= i < n + 1 && Child(c, i) == t;
        assert i < n ==> HasRefUpTo(c, n, k, t);
      } else {
        var i :| 0 <= i < n + 1 && Ovfl(c, i) == t;
        assert i < n ==> HasRefUpTo(c, n, k, t);
      }
    }
    if HasRefUpTo(c, n, k, t) {
      if k == BTREE {
        var i :| 0 <= i < n && Child(c, i) == t;
        assert 0 <= i < n + 1 && Child(c, i) == t;
      } else {
        var i :| 0 <= i < n && Ovfl(c, i) == t;
        assert 0 <= i < n + 1 && Ovfl(c, i) == t;
      }
    }
  }

  lemma OneMore(m0: Map, m: Map, m': Map, c: Content, n: nat, p: nat)
    requires c.Btree? && n < |c.cells| && ReparentedUpTo(m0, m, c, n, p)
    requires var a := if Ovfl(c, n) != 0 then m[Ovfl(c, n) := Entry(OVERFLOW1, p)] else m;
             m' == if !c.leaf && Child(c, n) != 0 then a[Child(c, n) := Entry(BTREE, p)] else a
    ensures ReparentedUpTo(m0, m', c, n + 1, p)
  {
    hide HasRefUpTo;
    forall t: nat | HasRefUpTo(c, n + 1, BTREE, t) || HasRefUpTo(c, n + 1, OVERFLOW1, t)
      ensures t in m' && m'[t].parent == p && HasRefUpTo(c, n + 1, m'[t].kind, t)
    {
      UpToNext(c, n, BTREE, t);
      UpToNext(c, n, OVERFLOW1, t);
      UpToNext(c, n, m'[t].kind, t);
    }
    forall t: nat
      ensures t in m0 && t != 0 && !HasRefUpTo(c, n + 1, BTREE, t) && !HasRefUpTo(c, n + 1, OVERFLOW1, t) ==>
                t in m' && m'[t] == m0[t]
      ensures t in m' ==> t in m0 || HasRefUpTo(c, n + 1, BTREE, t) || HasRefUpTo(c, n + 1, OVERFLOW1, t)
    {
      UpToNext(c, n, BTREE, t);
      UpToNext(c, n, OVERFLOW1, t);
    }
  }

  lemma UpToAll(c: Content, k: PageType, t: nat)
    requires c.Btree?
    ensures HasRef(c, k, t) <==> HasRefUpTo(c, |c.cells|, k, t) || (t != 0 && k == BTREE && !c.leaf && c.right == t)
  {
    if HasRef(c, k, t) && k == BTREE {
      var i :| 0 <= i <= |c.cells| && Child(c, i) == t;
    }
    if t != 0 && k == BTREE && !c.leaf && c.right == t { assert Child(c, |c.cells|) == t; }
  }

  lemma AllDone(m0: Map, m: Map, m': Map, c: Content, p: nat)
    requires c.Btree? && ReparentedUpTo(m0, m, c, |c.cells|, p) && 0 !in m0
    requires m' == if !c.leaf && c.right != 0 then m[c.right := Entry(BTREE, p)] else m
    ensures Reparented(m0, m', c, p)
  {
    hide HasRefUpTo, HasRef;
    forall t, k
      ensures HasRef(c, k, t) <==> HasRefUpTo(c, |c.cells|, k, t) || (t != 0 && k == BTREE && !c.leaf && c.right == t)
    {
      UpToAll(c, k, t);
    }
    forall t ensures !HasRefUpTo(c, |c.cells|, OVERFLOW2, t) { NoNext(c, t); }
  }

  lemma NoNext(c: Content, t: nat)
    requires c.Btree?
    ensures !HasRefUpTo(c, |c.cells|, OVERFLOW2, t) && !HasRef(c, OVERFLOW2, t)
  {
  }

  // ---------- the database after the move ----------

  // Page a is now at b, with its own pointers unchanged.
  function MovedPages(pages: Pages, a: nat, b: nat): Pages
    requires a in pages
  {
    (pages - {a})[b := pages[a]]
  }

  // Only one page points to a, and only with the kind the map says.
  lemma OnlyParent(pages: Pages, ptrmap: Map, a: nat, p: nat)
    requires Exact(pages, ptrmap) && a in pages && a in ptrmap && p in pages
    ensures forall k | HasRef(pages[p], k, a) :: ptrmap[a] == Entry(k, p) && p != a
  {
  }

  /** Moving the page and changing the one pointer to it is renaming it everywhere. */
  lemma RenamedIs(pages: Pages, ptrmap: Map, a: nat, b: nat, root: bool)
    requires Exact(pages, ptrmap) && a in pages && a in ptrmap && b !in pages && b != 0
    requires root <==> ptrmap[a].kind == ROOTPAGE
    requires ptrmap[a].kind != FREEPAGE
    ensures root ==> MovedPages(pages, a, b) == Renamed(pages, a, b)
    ensures !root ==> ptrmap[a].parent in pages && ptrmap[a].parent != a
    ensures !root ==>
              MovedPages(pages, a, b)[ptrmap[a].parent := ContentTo(pages[ptrmap[a].parent], a, b)] ==
              Renamed(pages, a, b)
  {
    var e := ptrmap[a];
    if !root { assert HasRef(pages[e.parent], e.kind, a); }
    forall q | q in pages && (root || q != e.parent) ensures ContentTo(pages[q], a, b) == pages[q] {
      OnlyParent(pages, ptrmap, a, q);
      NoRefSame(pages[q], a, b);
    }
  }

  // No page points to a page that is not there.
  lemma NoDangling(pages: Pages, ptrmap: Map, b: nat, p: nat)
    requires Exact(pages, ptrmap) && b !in pages && p in pages
    ensures forall k :: !HasRef(pages[p], k, b)
  {
  }

  ghost predicate Remapped(pages: Pages, m: Map, m': Map, a: nat, b: nat)
    requires a in pages && a in m
  {
    && b in m' && m'[b] == m[a]
    && (forall t | Target(pages[a], t) && t != b :: t in m' && m'[t].parent == b && HasRef(pages[a], m'[t].kind, t))
    && (forall t | t in m && t != b && !Target(pages[a], t) :: t in m' && m'[t] == m[t])
    && (forall t | t in m' :: t in m || t == b || Target(pages[a], t))
  }

  lemma ForwardExact(pages: Pages, m: Map, m': Map, a: nat, b: nat, p: nat, k: PageType, t: nat)
    requires Exact(pages, m) && a in pages && a in m && b !in pages && b != 0 && Remapped(pages, m, m', a, b)
    requires p in Renamed(pages, a, b) && HasRef(Renamed(pages, a, b)[p], k, t)
    ensures t in Renamed(pages, a, b) && t != p && t in m' && m'[t] == Entry(k, p)
  {
    hide HasRef, ContentTo, Unique;
    var q := if p == b then a else p;
    NoDangling(pages, m, b, q);
    RefTo(pages[q], a, b, k, t);
    KindsOnly(pages[q], k, if t == b then a else t);
  }

  lemma BackwardExact(pages: Pages, m: Map, m': Map, a: nat, b: nat, t: nat)
    requires Exact(pages, m) && a in pages && a in m && b !in pages && b != 0 && Remapped(pages, m, m', a, b)
    requires t in Renamed(pages, a, b) && t in m' && m'[t].kind !in {ROOTPAGE, FREEPAGE}
    ensures m'[t].parent in Renamed(pages, a, b) && HasRef(Renamed(pages, a, b)[m'[t].parent], m'[t].kind, t)
  {
    hide HasRef, ContentTo, Unique;
    var k := m'[t].kind;
    if t == b {
      var p := m[a].parent;
      NoDangling(pages, m, b, p);
      RefTo(pages[p], a, b, k, b);
    } else if Target(pages[a], t) {
      NoDangling(pages, m, b, a);
      RefTo(pages[a], a, b, k, t);
    } else {
      var p := m[t].parent;
      KindsOnly(pages[p], k, t);
      NoDangling(pages, m, b, p);
      RefTo(pages[p], a, b, k, t);
    }
  }

  lemma KindsOnly(c: Content, k: PageType, t: nat)
    requires HasRef(c, k, t)
    ensures Target(c, t)
  {
  }

  /** The map is exact for the renamed database. */
  lemma StillExact(pages: Pages, m: Map, m': Map, a: nat, b: nat)
    requires Exact(pages, m) && a in pages && a in m && b !in pages && b != 0 && m[a].kind != FREEPAGE
    requires Remapped(pages, m, m', a, b)
    ensures Exact(Renamed(pages, a, b), m')
  {
    hide HasRef, ContentTo, Unique;
    var now := Renamed(pages, a, b);
    forall p, k, t | p in now && HasRef(now[p], k, t) ensures t in now && t != p && t in m' && m'[t] == Entry(k, p) {
      ForwardExact(pages, m, m', a, b, p, k, t);
    }
    forall t | t in now && t in m' && m'[t].kind !in {ROOTPAGE, FREEPAGE}
      ensures m'[t].parent in now && HasRef(now[m'[t].parent], m'[t].kind, t)
    {
      BackwardExact(pages, m, m', a, b, t);
    }
    forall p | p in now ensures Unique(now[p]) {
      var q := if p == b then a else p;
      NoDangling(pages, m, b, q);
      UniqueTo(pages[q], a, b);
    }
  }

  lemma MoveFacts(pages: Pages, m: Map, a: nat)
    requires Exact(pages, m) && Kinds(pages, m) && a in pages && a in m
    ensures Unique(pages[a]) && m[a].kind != FREEPAGE
            && (pages[a].Btree? <==> m[a].kind == BTREE || m[a].kind == ROOTPAGE)
    ensures m[a].kind != ROOTPAGE ==>
              m[a].parent in pages && Unique(pages[m[a].parent])
              && HasRef(pages[m[a].parent], m[a].kind, a)
    ensures m[a].kind != ROOTPAGE ==> forall k | k != m[a].kind :: !HasRef(pages[m[a].parent], k, a)
  {
  }

  lemma RemapIs(pages: Pages, m: Map, m1: Map, m': Map, a: nat, b: nat)
    requires Exact(pages, m) && a in pages && a in m && b !in pages && b != 0 && Reparented(m, m1, pages[a], b)
    requires if m[a].kind == ROOTPAGE then b in m && m[b] == m[a] && m' == m1 else m' == m1[b := m[a]]
    ensures Remapped(pages, m, m', a, b)
  {
    NoDangling(pages, m, b, a);
    assert !Target(pages[a], b);
    hide HasRef, Exact;
  }

  lemma KindsKept(pages: Pages, m: Map, m': Map, a: nat, b: nat)
    requires Exact(pages, m) && a in pages && a in m && Remapped(pages, m, m', a, b)
    ensures forall t | t in m && t != b :: t in m' && m'[t].kind == m[t].kind
    ensures forall t | t in m' :: t in m || t == b
  {
    hide HasRef, Unique;
    forall t | Target(pages[a], t) ensures t in m && (t != b ==> t in m' && m'[t].kind == m[t].kind) {
      if t != b { assert HasRef(pages[a], m'[t].kind, t); }
    }
  }

  lemma StillKinds(pages: Pages, m: Map, m': Map, a: nat, b: nat)
    requires Exact(pages, m) && Kinds(pages, m) && a in pages && a in m && b !in pages && Remapped(pages, m, m', a, b)
    ensures Kinds(Renamed(pages, a, b), m')
  {
    hide HasRef;
    var now := Renamed(pages, a, b);
    forall t | t in now && t in m'
      ensures m'[t].kind != FREEPAGE && (now[t].Btree? <==> m'[t].kind == BTREE || m'[t].kind == ROOTPAGE)
    {
      if t != b && Target(pages[a], t) { assert HasRef(pages[a], m'[t].kind, t); }
    }
  }
}
