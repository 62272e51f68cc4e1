/** Allocating and freeing database pages, and which pages may be overwritten
    during a transaction without saving what they held. */
module Freelist {
  import opened Common
  import opened PtrMap
  import opened FreelistShape

  datatype Mode = ANY | EXACT | LE

  // BtShared.pHasContent: absent, or a set of page numbers up to size.
  datatype HasContent = Absent | Bits(size: nat, bits: set<nat>)

  const U32 := 0x1_0000_0000

  // sqlite3AbsInt32 of the 32-bit difference.
  function Dist(a: nat, b: nat): (d: nat)
    ensures a < U32 && b < U32 ==> (d == 0 <==> a == b)
    ensures a <= b < a + 0x8000_0000 ==> d == b - a
    ensures b <= a < b + 0x8000_0000 ==> d == a - b
  {
    var v := (a - b) % U32;
    if v < 0x8000_0000 then v else if v == 0x8000_0000 then 0x7fff_ffff else U32 - v
  }

  // A page the search may stop at.
  predicate Wanted(mode: Mode, nearby: nat, p: nat) {
    (mode.EXACT? ==> p == nearby) && (mode.LE? ==> p <= nearby)
  }

  // The page to take off a trunk when any will do: the trunk itself if it has no leaves, else its first leaf or the one
  // nearest to the page asked for.
  ghost predicate Nearest(t: Trunk, nearby: nat, p: nat) {
    if t.leaves == [] then p == t.pgno
    else if nearby == 0 then p == t.leaves[0]
    else p in t.leaves && forall x | x in t.leaves :: Dist(p, nearby) <= Dist(x, nearby)
  }

  // Leaf number i of a trunk page.
  function Leaf(s: seq<nat>, i: nat): nat
    requires 2 + i < |s|
  {
    s[2 + i]
  }

  /** The leaf to take from a trunk page: the first that is low enough, or the nearest. */
  method ClosestLeaf(s: seq<nat>, k: nat, nearby: nat, mode: Mode) returns (closest: nat)
    requires 0 < k && k + 2 <= |s|
    ensures closest < k && (nearby == 0 ==> closest == 0)
    ensures mode.LE? && nearby > 0 && Leaf(s, closest) > nearby ==> forall i | 0 <= i < k :: Leaf(s, i) > nearby
    ensures !mode.LE? && nearby > 0 ==> forall i | 0 <= i < k ::
              Dist(Leaf(s, closest), nearby) <= Dist(Leaf(s, i), nearby)
  {
    closest := 0;
    if nearby > 0 {
      if mode.LE? {
        var i := 0;
        while i < k
          invariant 0 <= i <= k && forall j | 0 <= j < i :: Leaf(s, j) > nearby
        {
          if Leaf(s, i) <= nearby { return i; }
          i := i + 1;
        }
      } else {
        var dist := Dist(Leaf(s, 0), nearby);
        var i := 1;
        while i < k
          invariant 1 <= i <= k && closest < k && dist == Dist(Leaf(s, closest), nearby)
          invariant forall j | 0 <= j < i :: dist <= Dist(Leaf(s, j), nearby)
        {
          var d2 := Dist(Leaf(s, i), nearby);
          if d2 < dist {
            closest, dist := i, d2;
          }
          i := i + 1;
        }
      }
    }
  }

  // The list has pages of the file only, each once; no page of the file is missing.
  ghost predicate InFile(l: Layout, auto: bool, nPage: nat, pages: Pages, ts: seq<Trunk>) {
    && NoDup(ts)
    && (forall x | x in Members(ts) :: 2 <= x <= nPage && Grantable(l, auto, x))
    && (forall q | 1 <= q <= nPage && q != l.pending :: q in pages && |pages[q]| == l.usable / 4)
  }

  ghost predicate Marked(auto: bool, ptrmap: map<nat, PageType>, s: set<nat>) {
    auto ==> forall x | x in s :: x in ptrmap && ptrmap[x] == FREEPAGE
  }

  // A file with its freelist, as the header counts it.
  ghost predicate Sound(l: Layout, auto: bool, nPage: nat, pages: Pages, ptrmap: map<nat, PageType>, ts: seq<Trunk>) {
    && l.Ok() && l.usable >= 480 && 1 <= nPage < U32
    && Listed(pages, l.usable / 4, ts) && InFile(l, auto, nPage, pages, ts)
    && Marked(auto, ptrmap, Members(ts)) && pages[1][9] == |Bag(ts)|
  }

  class BtShared {
    const l: Layout
    const autoVacuum: bool
    var nPage: nat
    var pages: Pages
    var ptrmap: map<nat, PageType>
    var hasContent: HasContent
    var bDoTruncate: bool
    ghost var trunks: seq<Trunk>
    // File, pointer map and freelist when the transaction began, which is what rollback goes back to.
    var startSize: nat
    var startPages: Pages
    var startMap: map<nat, PageType>
    ghost var startTrunks: seq<Trunk>
    ghost var startLeaves: set<nat>
    // Pages that became freelist leaves since, and pages fetched with the no-content flag, which the journal does not
    // have.
    ghost var becameLeaf: set<nat>
    var blind: set<nat>

    ghost function Free(): set<nat>
      reads this
    {
      Members(trunks)
    }

    ghost predicate Shape()
      reads this
    {
      && l.Ok() && l.usable >= 480 && 1 <= nPage < U32
      && Listed(pages, l.usable / 4, trunks)
      && InFile(l, autoVacuum, nPage, pages, trunks)
      && Marked(autoVacuum, ptrmap, Members(trunks))
    }

    // What is overwritten without being saved first was free when the transaction began, or not in the file.
    ghost predicate Journaled()
      reads this
    {
      && (forall p | p in becameLeaf :: hasContent.Bits? && (p > hasContent.size || p in hasContent.bits))
      && LeafSet(trunks) <= startLeaves + becameLeaf
      && (!bDoTruncate ==> startSize <= nPage && forall p | p in becameLeaf :: p <= nPage)
      && (forall p | p in blind :: p in startLeaves || p > startSize)
    }

    ghost predicate Valid()
      reads this
    {
      Shape() && Journaled() && pages[1][9] == |Bag(trunks)|
    }

    ghost predicate BlindOk()
      reads this
    {
      forall p | p in blind :: p in startLeaves || p > startSize
    }

    // What the transaction began with was in order.
    ghost predicate Restorable()
      reads this
    {
      Sound(l, autoVacuum, startSize, startPages, startMap, startTrunks) && startLeaves == LeafSet(startTrunks)
    }

    // A new database of one page.
    constructor (l: Layout, autoVacuum: bool)
      requires l.Ok() && l.usable >= 480
      ensures Valid() && Restorable() && this.l == l && this.autoVacuum == autoVacuum && nPage == 1 && Free() == {}
    {
      this.l, this.autoVacuum, nPage, ptrmap, hasContent, bDoTruncate := l, autoVacuum, 1, map[], Absent, false;
      var file := map[1 := seq(l.usable / 4, _ => 0)];
      pages, trunks := file, [];
      startSize, startPages, startMap, startTrunks, startLeaves := 1, file, map[], [], {};
      becameLeaf, blind := {}, {};
      new;
      NoMembers([]);
      EmptyBag([]);
    }

    ghost predicate Searching(mode: Mode, nearby: nat)
      reads this
    {
      mode.LE? || (mode.EXACT? && nearby <= nPage && nearby in ptrmap && ptrmap[nearby] == FREEPAGE)
    }

    // btreeSetHasContent
    method SetHasContent(p: nat)
      modifies this`hasContent
      ensures hasContent.Bits? && (p > hasContent.size || p in hasContent.bits)
      ensures old(hasContent).Bits? ==>
                hasContent.size == old(hasContent).size
                && old(hasContent).bits <= hasContent.bits
    {
      if hasContent.Absent? { hasContent := Bits(nPage, {}); }
      if p <= hasContent.size { hasContent := hasContent.(bits := hasContent.bits + {p}); }
    }

    // btreeGetHasContent
    predicate GetHasContent(p: nat)
      reads this
    {
      hasContent.Bits? && (p > hasContent.size || p in hasContent.bits)
    }

    // Unlink trunk i, which has no leaves.
    method RemoveTrunk(iPrev: nat, iTrunk: nat, ghost i: nat)
      requires Shape() && i < |trunks| && iTrunk == trunks[i].pgno && iPrev == Prev(trunks, i) && trunks[i].leaves == []
      modifies `pages, `trunks
      ensures Listed(pages, l.usable / 4, trunks) && Took(old(pages), old(trunks), pages, trunks, iTrunk)
      ensures trunks == old(trunks[..i] + trunks[i + 1..])
    {
      hide Listed, Separate, Took, Bag;
      ListFacts(l, autoVacuum, nPage, pages, trunks);
      DropEmptyTrunk(pages, l.usable / 4, trunks, i);
      EmptyTrunkTook(pages, l.usable / 4, trunks, i);
      pages := SetLink(pages, iPrev, pages[iTrunk][0]);
      trunks := trunks[..i] + trunks[i + 1..];
    }

    // Trunk i leaves the list and its first leaf takes over the others.
    method PromoteFirstLeaf(iPrev: nat, iTrunk: nat, k: nat, ghost i: nat) returns (rc: Rc)
      requires Shape() && i < |trunks| && iTrunk == trunks[i].pgno && iPrev == Prev(trunks, i)
               && k == |trunks[i].leaves| > 0
      modifies `pages, `trunks
      ensures rc.OK? && Listed(pages, l.usable / 4, trunks) && Took(old(pages), old(trunks), pages, trunks, iTrunk)
      ensures trunks == old(trunks[i := Trunk(trunks[i].leaves[0], trunks[i].leaves[1..])])
    {
      hide Listed, Separate, Took, Bag;
      ListFacts(l, autoVacuum, nPage, pages, trunks);
      StoredAt(pages, l.usable / 4, trunks, i);
      var t := pages[iTrunk];
      var iNewTrunk := t[2];
      LeafFacts(l, autoVacuum, nPage, pages, trunks, i, 0);
      if iNewTrunk > nPage {
        assert false;
        return CORRUPT;
      }
      var s := [t[0], k - 1] + t[3..k + 2] + pages[iNewTrunk][k + 1..];
      PromoteLeaf(pages, l.usable / 4, trunks, i, s);
      PromoteTook(pages, l.usable / 4, trunks, i, s);
      pages := SetLink(pages[iNewTrunk := s], iPrev, iNewTrunk);
      trunks := trunks[i := Trunk(iNewTrunk, trunks[i].leaves[1..])];
      return OK;
    }

    // Leaf number closest of trunk i leaves the list.
    method RemoveLeaf(iTrunk: nat, k: nat, closest: nat, ghost i: nat)
      requires Shape() && i < |trunks| && iTrunk == trunks[i].pgno && k == |trunks[i].leaves| && closest < k
      modifies `pages, `trunks
      ensures Listed(pages, l.usable / 4, trunks)
              && Took(old(pages), old(trunks), pages, trunks, old(trunks[i].leaves[closest]))
      ensures trunks == old(trunks[i := Trunk(iTrunk, SwapOut(trunks[i].leaves, closest))])
    {
      hide Listed, Separate, Took, Bag;
      ListFacts(l, autoVacuum, nPage, pages, trunks);
      StoredAt(pages, l.usable / 4, trunks, i);
      var s := pages[iTrunk];
      if closest < k - 1 { s := With(s, 2 + closest, s[1 + k]); }
      s := With(s, 1, k - 1);
      NewLeaves(pages, l.usable / 4, trunks, i, s, SwapOut(trunks[i].leaves, closest));
      LeafTook(pages, l.usable / 4, trunks, i, s, closest);
      pages := pages[iTrunk := s];
      trunks := trunks[i := Trunk(iTrunk, SwapOut(trunks[i].leaves, closest))];
    }

    // Page p was taken from the list ts that pages held.
    ghost predicate Granted(pages0: Pages, ts: seq<Trunk>, p: nat)
      reads this
    {
      && Valid() && Same(pages0, pages, Members(ts))
      && p in Members(ts) && Members(trunks) == Members(ts) - {p} && LeafSet(trunks) <= LeafSet(ts)
    }

    // One turn of the search: take trunk i or a leaf of it, or find that neither will do.
    method TakeFrom(searchList: bool, nearby: nat, mode: Mode, iPrev: nat, iTrunk: nat, ghost i: nat)
      returns (rc: Rc, pgno: nat, leaf: bool)
      requires Shape() && Journaled() && pages[1][9] == |Bag(trunks)| - 1 && nearby < U32
               && (searchList ==> !mode.ANY? && nearby > 0)
      requires i < |trunks| && iPrev == Prev(trunks, i) && iTrunk == trunks[i].pgno
      modifies `pages, `trunks
      ensures rc.OK? && (!searchList ==> pgno != 0)
      ensures pgno != 0 ==> Granted(old(pages), old(trunks), pgno) && (searchList ==> Wanted(mode, nearby, pgno))
      ensures pgno != 0 ==> (leaf <==> pgno in LeafSet(old(trunks)))
      ensures !searchList && !mode.LE? ==> Nearest(old(trunks[i]), nearby, pgno)
      ensures pgno == 0 ==> pages == old(pages) && trunks == old(trunks) && !leaf && forall x | x in One(trunks[i]) ::
                !Wanted(mode, nearby, x)
    {
      hide Listed, Separate, Took, Bag, NoDup, LeafSet, Grantable, Members, InFile, Same, Marked;
      rc, pgno, leaf := OK, 0, false;
      ghost var pages0, ts := pages, trunks;
      ListFacts(l, autoVacuum, nPage, pages, trunks);
      TrunkNoLeaf(trunks, i);
      StoredAt(pages, l.usable / 4, trunks, i);
      var k := pages[iTrunk][1];
      if k == 0 && !searchList {
        RemoveTrunk(iPrev, iTrunk, i);
        pgno := iTrunk;
      } else if k > l.usable / 4 - 2 {
        assert false;
        rc := CORRUPT;
        return;
      } else if searchList && (nearby == iTrunk || (iTrunk < nearby && mode.LE?)) {
        pgno := iTrunk;
        if k == 0 {
          RemoveTrunk(iPrev, iTrunk, i);
        } else {
          rc := PromoteFirstLeaf(iPrev, iTrunk, k, i);
        }
      } else if k > 0 {
        var closest := ClosestLeaf(pages[iTrunk], k, nearby, mode);
        LeafFacts(l, autoVacuum, nPage, pages, trunks, i, closest);
        var iPage := pages[iTrunk][2 + closest];
        if iPage > nPage || iPage < 2 {
          assert false;
          rc := CORRUPT;
          return;
        }
        if !searchList || iPage == nearby || (iPage < nearby && mode.LE?) {
          pgno, leaf := iPage, true;
          if !mode.LE? { NearestLeaf(pages, l.usable / 4, trunks, i, closest, nearby); }
          LeafListed(ts, i, closest);
          RemoveLeaf(iTrunk, k, closest, i);
        } else {
          NoneWanted(pages, l, autoVacuum, nPage, ts, i, closest, mode, nearby);
          return;
        }
      } else {
        return;
      }
      Settle(l, autoVacuum, nPage, ptrmap, pages0, ts, pages, trunks, pgno);
    }

    // Walk the trunks, with the header already counting one page less, until a page has been taken.
    method Search(n: nat, searchList: bool, nearby: nat, mode: Mode) returns (rc: Rc, pgno: nat, leaf: bool)
      requires Shape() && Journaled() && n == |Bag(trunks)| > 0 && pages[1][9] == n - 1 && nearby < U32
               && (searchList ==> !mode.ANY? && nearby > 0)
      modifies `pages, `trunks
      ensures rc.CORRUPT? <==> searchList && forall x | x in old(Free()) :: !Wanted(mode, nearby, x)
      ensures rc.CORRUPT? ==> pages == old(pages) && trunks == old(trunks)
      ensures rc.OK? ==> Granted(old(pages), old(trunks), pgno) && (searchList ==> Wanted(mode, nearby, pgno))
      ensures rc.OK? ==> (leaf <==> pgno in LeafSet(old(trunks)))
      ensures !searchList && !mode.LE? && old(trunks) != [] ==> Nearest(old(trunks)[0], nearby, pgno)
    {
      hide Listed, Separate, Took, Bag, NoDup, LeafSet, Grantable, Members, InFile, Same, Marked, Wanted, Journaled,
           Granted, Nearest;
      ghost var ts, pages0 := trunks, pages;
      ListFacts(l, autoVacuum, nPage, pages, ts);
      NothingYet(mode, nearby, ts[..0]);
      EmptyBag(ts);
      FirstLink(pages, l.usable / 4, ts);
      ghost var i := 0;
      var nSearch, iPrev, iTrunk := 0, 0, pages[1][8];
      while true
        invariant i <= |ts| && trunks == ts && pages == pages0 && nSearch == i && iPrev == Prev(ts, i)
                  && iTrunk == Link(ts, i)
        invariant (!searchList ==> i == 0) && forall x | x in Members(ts[..i]) :: !Wanted(mode, nearby, x)
        decreases |ts| - i
      {
        if iTrunk > nPage || nSearch > n {
          assert false;
          rc := CORRUPT;
          return;
        }
        if iTrunk == 0 {
          assert ts[..i] == ts;
          return CORRUPT, 0, false;
        }
        rc, pgno, leaf := TakeFrom(searchList, nearby, mode, iPrev, iTrunk, i);
        if pgno != 0 {
          GrantedIs(ts, pages0, pgno);
          return;
        }
        NoneWantedTrunk(ts, i, mode, nearby);
        StoredAt(pages, l.usable / 4, trunks, i);
        iPrev, iTrunk := iTrunk, pages[iTrunk][0];
        nSearch := nSearch + 1;
        i := i + 1;
      }
    }

    lemma GrantedIs(ts: seq<Trunk>, pages0: Pages, p: nat)
      requires Granted(pages0, ts, p)
      ensures p in Members(ts)
    {
    }

    /** allocateBtreePage when the freelist is not empty. */
    method FromFreelist(n: nat, nearby: nat, mode: Mode) returns (rc: Rc, pgno: nat, noContent: bool)
      requires Valid() && nearby < U32 && n == |Bag(trunks)| > 0 && (mode.ANY? || nearby > 0)
      modifies `pages, `trunks, `blind
      ensures rc.CORRUPT? <==> old((mode.EXACT? && nearby <= nPage && nearby !in ptrmap)
                                   || (Searching(mode, nearby) && forall x | x in Free() :: !Wanted(mode, nearby, x)))
      ensures rc.CORRUPT? ==> trunks == old(trunks) && blind == old(blind) && !noContent
      ensures rc.OK? ==>
                Granted(old(pages), old(trunks), pgno)
                && (old(Searching(mode, nearby)) ==> Wanted(mode, nearby, pgno))
      ensures rc.OK? && noContent ==> pgno !in becameLeaf && pgno in startLeaves
      ensures rc.OK? ==> (noContent <==> pgno in old(LeafSet(trunks)) && !old(GetHasContent(pgno)))
      ensures rc.OK? ==> blind == old(blind) + if noContent then {pgno} else {}
      ensures rc.OK? && !old(Searching(mode, nearby)) && old(trunks) != [] ==> Nearest(old(trunks)[0], nearby, pgno)
    {
      hide Listed, Separate, Took, Bag, NoDup, LeafSet, Grantable, Members, InFile, Same, Marked, Wanted, Nearest;
      noContent := false;
      ListFacts(l, autoVacuum, nPage, pages, trunks);
      var searchList := false;
      if mode.EXACT? {
        if nearby <= nPage {
          if nearby !in ptrmap { return CORRUPT, 0, false; }
          if ptrmap[nearby] == FREEPAGE { searchList := true; }
        }
      } else if mode.LE? {
        searchList := true;
      }
      CountWritten(pages, l, autoVacuum, nPage, trunks, n - 1);
      ghost var pages0 := pages;
      pages := pages[1 := With(pages[1], 9, n - 1)];
      ghost var pages1, ts := pages, trunks;
      var leaf;
      rc, pgno, leaf := Search(n, searchList, nearby, mode);
      if rc.CORRUPT? { return; }
      GrantedSince(pages0, pages1, pages, ts);
      if leaf {
        noContent := !GetHasContent(pgno);
        if noContent { blind := blind + {pgno}; }
      }
    }

    /** allocateBtreePage when the freelist is empty: extend the file. */
    method GrowFile() returns (pgno: nat, noContent: bool)
      requires Valid() && trunks == [] && nPage + 3 < U32
      modifies `pages, `blind, `nPage
      ensures Valid() && pgno == nPage > old(nPage) && Grantable(l, autoVacuum, pgno) && pages[1][7] == nPage
      ensures forall q | old(nPage) < q < pgno :: !Grantable(l, autoVacuum, q)
      ensures forall q | q in old(pages) && q <= old(nPage) && q != 1 :: q in pages && pages[q] == old(pages[q])
      ensures noContent == !bDoTruncate && (noContent ==> pgno > startSize && pgno !in becameLeaf)
    {
      hide Bag, NoDup, LeafSet, Members, IsMap, Listed, InFile, Marked, Grantable, Fetched;
      noContent := !bDoTruncate;
      ghost var n := nPage;
      var file, p := pages, AfterPending(l, nPage + 1);
      FirstLink(pages, l.usable / 4, trunks);
      NextPageIs(l, autoVacuum, n);
      Grown(l, autoVacuum, ptrmap, n, pages, trunks, noContent);
      if autoVacuum && IsMap(l, p) {
        file := Fetched(file, l.usable / 4, p, noContent);
        if noContent { blind := blind + {p}; }
        p := AfterPending(l, p + 1);
      }
      file := Fetched(file, l.usable / 4, p, noContent);
      if noContent { blind := blind + {p}; }
      pages := file[1 := With(file[1], 7, p)];
      nPage := p;
      pgno := p;
    }

    /** allocateBtreePage */
    method Allocate(nearby: nat, mode: Mode) returns (rc: Rc, pgno: nat, noContent: bool)
      requires Valid() && nearby < U32 && nPage + 3 < U32 && (mode.ANY? || (nearby > 0 && autoVacuum))
      modifies `pages, `trunks, `blind, `nPage
      ensures rc.CORRUPT? <==> old(Free() != {} && ((mode.EXACT? && nearby <= nPage && nearby !in ptrmap)
                                   || (Searching(mode, nearby) && forall x | x in Free() :: !Wanted(mode, nearby, x))))
      ensures rc.OK? ==> Valid() && (noContent ==> pgno !in becameLeaf && (pgno in startLeaves || pgno > startSize))
      ensures rc.CORRUPT? ==> blind == old(blind)
      ensures rc.OK? && old(Free()) != {} ==>
                (noContent <==> pgno in old(LeafSet(trunks)) && !old(GetHasContent(pgno)))
      ensures rc.OK? && old(Free()) == {} ==> noContent == !bDoTruncate
      ensures rc.OK? && old(Free()) != {} ==> nPage == old(nPage) && Granted(old(pages), old(trunks), pgno)
      ensures rc.OK? && mode.EXACT? && nearby in old(Free()) ==> pgno == nearby
      ensures rc.OK? && mode.LE? && old(Free()) != {} ==> pgno <= nearby
      ensures rc.OK? && !old(Searching(mode, nearby)) && old(trunks) != [] ==> Nearest(old(trunks)[0], nearby, pgno)
      ensures old(Free()) == {} ==> Free() == {} && old(nPage) < pgno == nPage && Grantable(l, autoVacuum, pgno)
      ensures old(Free()) == {} ==> forall q | old(nPage) < q < pgno :: !Grantable(l, autoVacuum, q)
      ensures old(Free()) == {} ==> forall q | q in old(pages) && q <= old(nPage) && q != 1 ::
                q in pages && pages[q] == old(pages[q])
    {
      hide Listed, Bag, NoDup, LeafSet, Members, Grantable, InFile, Granted, Same, Nearest;
      ListFacts(l, autoVacuum, nPage, pages, trunks);
      SizeFacts(l, autoVacuum, nPage, pages, trunks, ptrmap);
      rc, pgno, noContent := OK, 0, false;
      var n := pages[1][9];
      if n >= nPage {
        assert false;
        rc := CORRUPT;
        return;
      }
      if n > 0 {
        rc, pgno, noContent := FromFreelist(n, nearby, mode);
        if rc.OK? { GrantedValid(old(trunks), old(pages), pgno); }
      } else {
        pgno, noContent := GrowFile();
      }
    }

    lemma GrantedValid(ts: seq<Trunk>, pages0: Pages, p: nat)
      requires Granted(pages0, ts, p)
      ensures Valid() && p in Members(ts)
    {
    }

    /** freePage2 */
    method FreePage(p: nat) returns (rc: Rc)
      requires Valid() && p !in Free() && (2 <= p <= nPage ==> Grantable(l, autoVacuum, p))
      modifies `pages, `trunks, `ptrmap, `hasContent, `becameLeaf
      ensures rc.CORRUPT? <==> p < 2 || p > nPage
      ensures rc.CORRUPT? ==> pages == old(pages) && trunks == old(trunks) && ptrmap == old(ptrmap)
      ensures Valid()
      ensures rc.OK? ==> Free() == old(Free()) + {p} && Same(old(pages), pages, Free())
      ensures rc.OK? ==> ptrmap == if autoVacuum then old(ptrmap)[p := FREEPAGE] else old(ptrmap)
      ensures becameLeaf == old(becameLeaf) + (LeafSet(trunks) - old(LeafSet(trunks)))
      ensures rc.OK? ==>
                trunks == if old(trunks) != [] && |old(trunks)[0].leaves| < l.usable / 4 - 8
                          then old(trunks)[0 := Trunk(old(trunks)[0].pgno, old(trunks)[0].leaves + [p])]
                          else [Trunk(p, [])] + old(trunks)
    {
      hide Listed, Separate, Bag, NoDup, LeafSet, Members, Grantable, InFile, Same, Marked, Added;
      rc := OK;
      if p < 2 || p > nPage { return CORRUPT; }
      PageHeld(l, autoVacuum, nPage, pages, trunks, p);
      LeavesMembers(trunks);
      ListFacts(l, autoVacuum, nPage, pages, trunks);
      EmptyBag(trunks);
      ghost var pages0, ts, map0 := pages, trunks, ptrmap;
      var nFree := pages[1][9];
      CountWritten(pages0, l, autoVacuum, nPage, trunks, nFree + 1);
      pages := pages[1 := With(pages[1], 9, nFree + 1)];
      if autoVacuum { ptrmap := ptrmap[p := FREEPAGE]; }
      ghost var pages1 := pages;
      var leaf;
      rc, leaf := LinkFreed(nFree, p);
      Joined(l, autoVacuum, nPage, map0, ptrmap, pages0, pages1, ts, pages, trunks, p);
      if leaf {
        SetHasContent(p);
        becameLeaf := becameLeaf + {p};
      }
    }

    // Put p on the first trunk if that has room, or else make it the first trunk.
    method LinkFreed(nFree: nat, p: nat) returns (rc: Rc, leaf: bool)
      requires l.usable >= 480 && Listed(pages, l.usable / 4, trunks) && Separate(trunks)
               && (nFree == 0 <==> trunks == [])
      requires forall i | 0 <= i < |trunks| :: trunks[i].pgno <= nPage
      requires 2 <= p && p in pages && |pages[p]| == l.usable / 4 && p !in Members(trunks)
      modifies `pages, `trunks
      ensures rc.OK? && Listed(pages, l.usable / 4, trunks) && Added(old(pages), old(trunks), pages, trunks, p)
      ensures LeafSet(trunks) == old(LeafSet(trunks)) + if leaf then {p} else {}
      ensures trunks == if old(trunks) != [] && |old(trunks)[0].leaves| < l.usable / 4 - 8
                          then old(trunks)[0 := Trunk(old(trunks)[0].pgno, old(trunks)[0].leaves + [p])]
                          else [Trunk(p, [])] + old(trunks)
    {
      hide Listed, Separate, Bag, LeafSet, Members, Added;
      rc, leaf := OK, false;
      FirstLink(pages, l.usable / 4, trunks);
      var iTrunk := 0;
      if nFree != 0 {
        iTrunk := pages[1][8];
        if iTrunk > nPage {
          assert false;
          rc := CORRUPT;
          return;
        }
        StoredAt(pages, l.usable / 4, trunks, 0);
        var nLeaf := pages[iTrunk][1];
        if nLeaf > l.usable / 4 - 2 {
          assert false;
          rc := CORRUPT;
          return;
        }
        if nLeaf < l.usable / 4 - 8 {
          AddLeaf(iTrunk, nLeaf, p);
          leaf := true;
          return;
        }
      }
      AddTrunk(iTrunk, p);
    }

    method AddLeaf(iTrunk: nat, nLeaf: nat, p: nat)
      requires trunks != [] && Listed(pages, l.usable / 4, trunks) && Separate(trunks)
      requires iTrunk == trunks[0].pgno && nLeaf == |trunks[0].leaves| && nLeaf + 2 < l.usable / 4
      modifies `pages, `trunks
      ensures Listed(pages, l.usable / 4, trunks) && Added(old(pages), old(trunks), pages, trunks, p)
      ensures LeafSet(trunks) == old(LeafSet(trunks)) + {p}
      ensures trunks == old(trunks)[0 := Trunk(iTrunk, old(trunks)[0].leaves + [p])]
    {
      hide Listed, Separate, Bag, NoDup, Added, LeafSet;
      LeavesAppend(trunks, p);
      StoredAt(pages, l.usable / 4, trunks, 0);
      var s := With(With(pages[iTrunk], 1, nLeaf + 1), 2 + nLeaf, p);
      NewLeaves(pages, l.usable / 4, trunks, 0, s, trunks[0].leaves + [p]);
      LeafAdded(pages, l.usable / 4, trunks, s, p);
      pages := pages[iTrunk := s];
      trunks := trunks[0 := Trunk(iTrunk, trunks[0].leaves + [p])];
    }

    method AddTrunk(iTrunk: nat, p: nat)
      requires Listed(pages, l.usable / 4, trunks) && Separate(trunks) && iTrunk == Link(trunks, 0)
      requires p != 1 && p in pages && |pages[p]| == l.usable / 4 && p !in Members(trunks)
      modifies `pages, `trunks
      ensures Listed(pages, l.usable / 4, trunks) && Added(old(pages), old(trunks), pages, trunks, p)
      ensures LeafSet(trunks) == old(LeafSet(trunks)) && trunks == [Trunk(p, [])] + old(trunks)
    {
      hide Listed, Separate, Bag, NoDup, Added, LeafSet;
      forall i | 0 <= i < |trunks| ensures trunks[i].pgno != p { OneHolds(trunks, i); }
      FirstLink(pages, l.usable / 4, trunks);
      var s := With(With(pages[p], 0, iTrunk), 1, 0);
      NewTrunk(pages, l.usable / 4, trunks, p, s);
      TrunkAdded(pages, l.usable / 4, trunks, s, p);
      LeavesPrepend(trunks, p);
      pages := pages[p := s];
      pages := pages[1 := With(pages[1], 8, p)];
      trunks := [Trunk(p, [])] + trunks;
    }

    // allocateBtreePage, as seen on the set of free pages.
    method Obtain(nearby: nat, mode: Mode) returns (rc: Rc, pgno: nat)
      requires Valid() && nearby < U32 && nPage + 3 < U32 && (mode.ANY? || (nearby > 0 && autoVacuum))
      modifies `pages, `trunks, `blind, `nPage
      ensures rc.CORRUPT? ==> old(Free()) != {} && !mode.ANY? && forall x | x in old(Free()) :: !Wanted(mode, nearby, x)
      ensures if rc.OK? then Valid() else blind == old(blind)
      ensures rc.OK? && old(Free()) != {} ==>
                pgno in old(Free()) && Free() == old(Free()) - {pgno} && nPage == old(nPage)
      ensures rc.OK? && mode.EXACT? && nearby in old(Free()) ==> pgno == nearby
      ensures rc.OK? && mode.LE? && old(Free()) != {} ==> pgno <= nearby
      ensures rc.OK? && old(Free()) == {} ==>
                && Free() == {} && old(nPage) < pgno == nPage
                && forall q | old(nPage) < q < pgno :: !Grantable(l, autoVacuum, q)
      ensures rc.OK? ==> Grantable(l, autoVacuum, pgno)
      ensures rc.OK? ==> forall q | q in old(pages) && 1 < q <= old(nPage) && q !in old(Free()) ::
                q in pages && pages[q] == old(pages[q])
    {
      hide Listed, Bag, NoDup, LeafSet, Members, Grantable, InFile, Granted, Same;
      SizeFacts(l, autoVacuum, nPage, pages, trunks, ptrmap);
      var noContent;
      rc, pgno, noContent := Allocate(nearby, mode);
      if rc.OK? && old(Free()) != {} {
        GrantedFree(old(trunks), old(pages), pgno);
        CanGrant(l, autoVacuum, nPage, old(pages), old(trunks), pgno);
      }
    }

    // The same on a freelist that has what is asked for.
    method Take(nearby: nat, mode: Mode) returns (pgno: nat)
      requires Valid() && nearby < U32 && nPage + 3 < U32 && autoVacuum && Free() != {} && (mode.ANY? || nearby > 0)
      requires (mode.LE? ==> exists q :: q in Free() && q <= nearby) && (mode.EXACT? ==> nearby in Free())
      modifies `pages, `trunks, `blind, `nPage
      ensures Valid() && nPage == old(nPage) && pgno in old(Free()) && Free() == old(Free()) - {pgno}
      ensures (mode.EXACT? ==> pgno == nearby) && (mode.LE? ==> pgno <= nearby)
    {
      hide Valid, Free, Grantable;
      var rc;
      rc, pgno := Obtain(nearby, mode);
    }

    // The file ends at page n.
    method CutTo(n: nat)
      requires Valid() && 1 <= n <= nPage && forall p | p in Free() :: p <= n
      modifies `nPage, `bDoTruncate
      ensures Valid() && Free() == old(Free()) && nPage == n && bDoTruncate
    {
      hide Listed, InFile, Bag, NoDup, LeafSet, Members, Marked;
      forall x | x in Members(trunks) ensures x <= n { assert x in Free(); }
      Shorter(l, autoVacuum, nPage, n, pages, trunks);
      bDoTruncate, nPage := true, n;
    }

    // The header says where the file ends.
    method WriteSize()
      requires Valid()
      modifies `pages
      ensures Valid() && Free() == old(Free()) && 1 in pages && |pages[1]| > 9 && pages[1][7] == nPage
    {
      hide Bag, NoDup, LeafSet, Members, Grantable, Marked;
      ListFacts(l, autoVacuum, nPage, pages, trunks);
      var file := pages[1 := With(pages[1], 7, nPage)];
      forall i | 0 <= i < |trunks| ensures Stored(file, l.usable / 4, trunks, i) {
        StoredAt(pages, l.usable / 4, trunks, i);
      }
      pages := file;
    }

    // Nothing is free any more.
    method DropAll()
      requires Valid()
      modifies `pages, `trunks
      ensures Valid() && Free() == {}
    {
      hide Bag, NoDup, LeafSet, Members, Grantable;
      ListFacts(l, autoVacuum, nPage, pages, trunks);
      NoMembers([]);
      EmptyBag([]);
      pages := pages[1 := With(With(pages[1], 8, 0), 9, 0)];
      trunks := [];
    }

    // What the header and the list say of the free pages.
    lemma FreeFacts()
      requires Valid()
      ensures l.Ok() && 1 in pages && |pages[1]| > 9 && pages[1][9] == |Free()| && 1 <= nPage < U32
      ensures forall p | p in Free() :: 2 <= p <= nPage
    {
      hide Bag, LeafSet;
      MembersCount(trunks);
    }

    /** incrVacuumStep on a last page that is free: take it off the list and shorten the file. */
    method VacuumFreeTail() returns (rc: Rc)
      requires Valid() && autoVacuum && nPage + 3 < U32 && nPage in Free()
      modifies `pages, `trunks, `blind, `nPage, `bDoTruncate
      ensures rc.OK? && Valid() && bDoTruncate && Free() == old(Free()) - {old(nPage)}
      ensures 1 <= nPage < old(nPage) && Ordinary(l, nPage) && forall q | nPage < q < old(nPage) :: !Ordinary(l, q)
      ensures Same(old(pages), pages, old(Free()))
    {
      hide Listed, Bag, NoDup, LeafSet, Members, InFile, Same, Marked, IsMap;
      var iLastPg := nPage;
      SizeFacts(l, autoVacuum, nPage, pages, trunks, ptrmap);
      TailOnly(l, autoVacuum, nPage, pages, trunks);
      var pgno, noContent;
      rc, pgno, noContent := Allocate(iLastPg, EXACT);
      iLastPg := iLastPg - 1;
      PageOne(l);
      while iLastPg == l.pending || IsMap(l, iLastPg)
        invariant 1 <= iLastPg < old(nPage)
        invariant forall q | iLastPg < q < old(nPage) :: !Ordinary(l, q)
        decreases iLastPg
      {
        iLastPg := iLastPg - 1;
      }
      Shortened(l, autoVacuum, nPage, iLastPg, pages, trunks);
      bDoTruncate := true;
      nPage := iLastPg;
    }

    /** Commit: the next transaction starts here. */
    method EndTransaction()
      requires Valid()
      modifies `hasContent, `bDoTruncate, `startSize, `startPages, `startMap, `startTrunks, `startLeaves, `becameLeaf,
               `blind
      ensures Valid() && Restorable() && becameLeaf == {} && blind == {}
      ensures startSize == nPage && startPages == pages && startMap == ptrmap && startTrunks == trunks
    {
      hide Sound, Shape, LeafSet, Members, Bag;
      ValidIs();
      hasContent := Absent;
      bDoTruncate := false;
      startSize, startPages, startMap, startTrunks, startLeaves := nPage, pages, ptrmap, trunks, LeafSet(trunks);
      becameLeaf, blind := {}, {};
      FreshValid();
    }

    lemma ValidIs()
      ensures Valid() <==> Sound(l, autoVacuum, nPage, pages, ptrmap, trunks) && Journaled()
    {
      hide Listed, InFile, Marked, Bag, LeafSet;
    }

    // Right after a commit or a rollback nothing is remembered.
    lemma FreshValid()
      requires Sound(l, autoVacuum, nPage, pages, ptrmap, trunks) && startSize == nPage
               && startLeaves == LeafSet(trunks)
      requires becameLeaf == {} && blind == {}
      ensures Valid()
    {
      hide Listed, InFile, Marked, Bag, LeafSet;
    }

    /** Rollback: the pager puts back every page it saved. A page fetched without content was not saved, and holds
        whatever the transaction left there; that is never a page whose content anything depends on. */
    method Rollback(left: Pages)
      requires Restorable() && BlindOk()
      modifies this
      ensures Valid() && Restorable() && nPage == startSize == old(startSize) && ptrmap == old(startMap)
      ensures trunks == startTrunks == old(startTrunks) && startLeaves == old(startLeaves) && startPages == pages
              && startMap == ptrmap
      ensures forall p | 1 <= p <= nPage && p != l.pending && p !in startLeaves ::
                p in pages && p in old(startPages) && pages[p] == old(startPages)[p]
    {
      hide Sound, Shape, LeafSet, Members, Bag, Journaled, Valid, Restored;
      RolledBack(l, autoVacuum, startSize, startPages, startMap, startTrunks, blind, left);
      nPage, pages, ptrmap, trunks := startSize, Restored(startSize, startPages, blind, left), startMap, startTrunks;
      hasContent, bDoTruncate := Absent, false;
      startPages, becameLeaf, blind := pages, {}, {};
      FreshValid();
    }

    // A page in use is written.
    method WritePage(p: nat, data: seq<nat>)
      requires Valid() && p !in Free() && 2 <= p <= nPage && p != l.pending && |data| == l.usable / 4
      modifies `pages
      ensures Valid() && pages == old(pages)[p := data]
    {
      hide Bag, NoDup, LeafSet, Members, Grantable;
      ListFacts(l, autoVacuum, nPage, pages, trunks);
      forall i | 0 <= i < |trunks| ensures trunks[i].pgno != p { OneIn(trunks, i); }
      var file := pages[p := data];
      forall i | 0 <= i < |trunks| ensures Stored(file, l.usable / 4, trunks, i) {
        StoredAt(pages, l.usable / 4, trunks, i);
      }
      pages := file;
    }

    // ---------- runs ----------

    // Every page that can be handed out is either free or in use.
    ghost predicate Partition(inUse: set<nat>)
      reads this
    {
      inUse !! Free() && inUse + Free() == AllPages(l, autoVacuum, nPage)
    }

    ghost predicate StartPartition(inUse: set<nat>)
      reads this
    {
      inUse !! Members(startTrunks) && inUse + Members(startTrunks) == AllPages(l, autoVacuum, startSize)
    }

    // The file has h.nPage pages, of which h.inUse are in use, with that content, and rollback goes back to h.startSize
    // and h.start.
    ghost predicate At(h: Held)
      reads this
    {
      && nPage == h.nPage && Partition(h.inUse.Keys) && Holds(pages, h.inUse)
      && startSize == h.startSize && StartPartition(h.start.Keys) && Holds(startPages, h.start)
    }

    // What rollback would go back to, leaf contents aside.
    ghost predicate SameStart(size: nat, file: Pages, m: map<nat, PageType>, ts: seq<Trunk>)
      reads this
    {
      && startSize == size && startMap == m && startTrunks == ts
      && forall p | 1 <= p <= size && p != l.pending && p !in LeafSet(ts) ::
            p in startPages && p in file && startPages[p] == file[p]
    }

    /** One operation. An allocation that fails is followed by a rollback, as a failed statement is. */
    method Apply(op: Op, h: Held, left: Pages) returns (granted: nat, h': Held)
      requires Valid() && Restorable() && At(h) && MayDo(l, autoVacuum, h, op)
      modifies this
      ensures Valid() && Restorable() && At(h') && Follows(l, autoVacuum, h, op, granted, h')
      ensures op != DoCommit ==> SameStart(old(startSize), old(startPages), old(startMap), old(startTrunks))
    {
      hide Valid, Restorable, SameStart, Grants, FailsToGrant, Partition, StartPartition, BlindOk, Holds, Members,
           LeafSet;
      granted, h' := 0, h;
      match op {
        case DoAllocate(nearby, mode) => granted, h' := DoneAllocate(nearby, mode, h, left);
        case DoFree(p) => h' := DoneFree(p, h);
        case DoWrite(p, data) => h' := DoneWrite(p, data, h);
        case DoCutTail => h' := DoneCut(h);
        case DoCommit =>
          CommitHere(h);
          h' := h.(startSize := h.nPage, start := h.inUse);
        case DoRollback =>
          Blind();
          BackToStart(h.start, left);
          h' := h.(nPage := h.startSize, inUse := h.start);
      }
    }

    method DoneFree(p: nat, h: Held) returns (h': Held)
      requires Valid() && Restorable() && At(h) && MayDo(l, autoVacuum, h, DoFree(p))
      modifies this
      ensures Valid() && Restorable() && At(h') && Follows(l, autoVacuum, h, DoFree(p), 0, h')
      ensures SameStart(old(startSize), old(startPages), old(startMap), old(startTrunks))
    {
      hide Listed, Bag, NoDup, LeafSet, Members, InFile, Marked, Same, Grantable, Granted, Holds;
      NotOne(l, autoVacuum, h.nPage, h.inUse.Keys);
      StartSelf();
      PagesIn(l, autoVacuum, nPage, p);
      var rc := FreePage(p);
      h' := h.(inUse := h.inUse - {p});
      HoldsStill(old(pages), pages, Free(), h.inUse, h'.inUse);
    }

    method DoneWrite(p: nat, data: seq<nat>, h: Held) returns (h': Held)
      requires Valid() && Restorable() && At(h) && MayDo(l, autoVacuum, h, DoWrite(p, data))
      modifies this
      ensures Valid() && Restorable() && At(h') && Follows(l, autoVacuum, h, DoWrite(p, data), 0, h')
      ensures SameStart(old(startSize), old(startPages), old(startMap), old(startTrunks))
    {
      hide Listed, Bag, NoDup, LeafSet, Members, InFile, Marked, Same, Grantable, Granted, Holds;
      NotOne(l, autoVacuum, h.nPage, h.inUse.Keys);
      StartSelf();
      PagesIn(l, autoVacuum, nPage, p);
      WritePage(p, data);
      h' := h.(inUse := h.inUse[p := data]);
      HoldsWritten(old(pages), h.inUse, p, data);
      assert h'.inUse.Keys == h.inUse.Keys;
    }

    method DoneCut(h: Held) returns (h': Held)
      requires Valid() && Restorable() && At(h) && MayDo(l, autoVacuum, h, DoCutTail)
      modifies this
      ensures Valid() && Restorable() && At(h') && Follows(l, autoVacuum, h, DoCutTail, 0, h')
      ensures SameStart(old(startSize), old(startPages), old(startMap), old(startTrunks))
    {
      hide Listed, Bag, NoDup, LeafSet, Members, InFile, Marked, Same, Grantable, Granted, Holds;
      NotOne(l, autoVacuum, h.nPage, h.inUse.Keys);
      StartSelf();
      FreeIs(h);
      PagesIn(l, autoVacuum, nPage, nPage);
      var rc := VacuumFreeTail();
      FewerPages(l, h.nPage, nPage);
      h' := h.(nPage := nPage);
      HoldsStill(old(pages), pages, old(Free()), h.inUse, h'.inUse);
    }

    method CommitHere(h: Held)
      requires Valid() && At(h)
      modifies this
      ensures Valid() && Restorable() && At(h.(startSize := h.nPage, start := h.inUse))
    {
      hide LeafSet, Members, Sound, Valid, Holds;
      EndTransaction();
    }

    method DoneAllocate(nearby: nat, mode: Mode, h: Held, left: Pages) returns (granted: nat, h': Held)
      requires Valid() && Restorable() && At(h) && MayDo(l, autoVacuum, h, DoAllocate(nearby, mode))
      modifies this
      ensures Valid() && Restorable() && At(h') && Follows(l, autoVacuum, h, DoAllocate(nearby, mode), granted, h')
      ensures SameStart(old(startSize), old(startPages), old(startMap), old(startTrunks))
    {
      hide Valid, Restorable, SameStart, Grants, FailsToGrant, Partition, StartPartition, BlindOk, Holds;
      var rc;
      rc, granted, h' := Granting(nearby, mode, h);
      if rc.CORRUPT? {
        BackToStart(h.start, left);
        granted, h' := 0, h.(nPage := h.startSize, inUse := h.start);
      }
    }

    method Granting(nearby: nat, mode: Mode, h: Held) returns (rc: Rc, pgno: nat, h': Held)
      requires Valid() && Restorable() && At(h) && MayDo(l, autoVacuum, h, DoAllocate(nearby, mode))
      modifies `pages, `trunks, `blind, `nPage
      ensures Restorable() && StartPartition(h.start.Keys) && Holds(startPages, h.start)
      ensures SameStart(old(startSize), old(startPages), old(startMap), old(startTrunks))
      ensures rc.CORRUPT? ==> BlindOk() && FailsToGrant(l, autoVacuum, h, nearby, mode)
      ensures rc.OK? ==> Valid() && At(h') && pgno != 0 && Grants(l, autoVacuum, h, nearby, mode, pgno, h')
    {
      hide LeafSet, Members, Grantable, Sound, Valid, Wanted, Restorable, SameStart, FreeIn, AllPages, Grants, Holds;
      FreeIs(h);
      FreeFacts();
      Blind();
      NotOne(l, autoVacuum, h.nPage, h.inUse.Keys);
      ghost var free0 := Free();
      rc, pgno := Obtain(nearby, mode);
      StillRestorable();
      h' := h;
      if rc.OK? {
        GrantedPage(pgno);
        h' := h.(nPage := nPage, inUse := h.inUse[pgno := pages[pgno]]);
        GrantTracked(l, autoVacuum, h, nearby, mode, free0, pgno, nPage, Free(), h');
        HoldsGranted(old(pages), pages, free0, h.nPage, h.inUse, pgno);
      }
    }

    method BackToStart(start: map<nat, seq<nat>>, left: Pages)
      requires Restorable() && BlindOk() && StartPartition(start.Keys) && Holds(startPages, start)
      modifies this
      ensures Valid() && Restorable() && nPage == startSize == old(startSize)
      ensures Partition(start.Keys) && StartPartition(start.Keys) && Holds(pages, start) && Holds(startPages, start)
      ensures SameStart(old(startSize), old(startPages), old(startMap), old(startTrunks))
    {
      hide LeafSet, Members, Sound, Valid, Holds;
      LeavesMembers(startTrunks);
      Rollback(left);
      HoldsBack(l, autoVacuum, nPage, old(startPages), pages, startTrunks, start);
    }

    // A page that has just been granted is in the file.
    lemma GrantedPage(p: nat)
      requires Valid() && p <= nPage && Grantable(l, autoVacuum, p)
      ensures p in pages
    {
      hide Listed, Bag, NoDup, LeafSet, Members;
    }

    twostate lemma StillRestorable()
      requires old(Restorable()) && unchanged(`startSize, `startPages, `startMap, `startTrunks, `startLeaves)
      ensures Restorable() && SameStart(old(startSize), old(startPages), old(startMap), old(startTrunks))
    {
      hide LeafSet;
    }

    lemma Blind()
      requires Valid()
      ensures BlindOk()
    {
    }

    lemma FreeIs(h: Held)
      requires At(h)
      ensures Free() == FreeIn(l, autoVacuum, h)
    {
      hide Members, Grantable;
    }

    /** Any run of allocations, frees, writes, cuts, commits and rollbacks does to the sets of pages in use and
        pages free what the log says, operation by operation: a page granted was not in use before and is then, a page
        freed is not in use any more, and nothing else changes. Operations a caller may not ask for are left out. */
    method ApplyAll(ops: seq<Op>, h: Held, left: Pages) returns (log: seq<Held>, grants: seq<nat>)
      requires Valid() && Restorable() && At(h)
      modifies this
      ensures Valid() && Restorable() && |log| == |ops| + 1 == |grants| + 1 && log[0] == h && At(log[|ops|])
      ensures forall n | 0 <= n < |ops| :: Logged(l, autoVacuum, log[n], ops[n], grants[n], log[n + 1])
      ensures DoCommit !in ops ==> SameStart(old(startSize), old(startPages), old(startMap), old(startTrunks))
    {
      hide Valid, Restorable, At, MayDo, Follows, LeafSet;
      log, grants := [h], [];
      StartSelf();
      for i := 0 to |ops|
        invariant Valid() && Restorable() && |log| == i + 1 == |grants| + 1 && log[0] == h && At(log[i])
        invariant forall n | 0 <= n < i :: Logged(l, autoVacuum, log[n], ops[n], grants[n], log[n + 1])
        invariant DoCommit !in ops ==> SameStart(old(startSize), old(startPages), old(startMap), old(startTrunks))
      {
        var granted, h' := 0, log[i];
        if MayDo(l, autoVacuum, log[i], ops[i]) { granted, h' := Apply(ops[i], log[i], left); }
        log, grants := log + [h'], grants + [granted];
      }
    }

    /** A transaction that is rolled back leaves the freelist and every page but its leaves as they were. */
    method Undone(ops: seq<Op>, held: set<nat>, left: Pages)
      requires Valid() && Partition(held) && DoCommit !in ops
      modifies this
      ensures Valid() && Partition(held) && nPage == old(nPage) && Free() == old(Free()) && ptrmap == old(ptrmap)
      ensures forall p | 1 <= p <= nPage && p != l.pending && p !in old(LeafSet(trunks)) ::
                p in pages && p in old(pages) && pages[p] == old(pages)[p]
    {
      hide Valid, Sound, LeafSet, Members;
      EndTransaction();
      InUseHeld(held);
      var content := map p | p in held :: pages[p];
      assert content.Keys == held;
      var log, grants := ApplyAll(ops, Held(nPage, content, nPage, content), left);
      Blind();
      Rollback(left);
    }

    lemma InUseHeld(inUse: set<nat>)
      requires Valid() && Partition(inUse)
      ensures forall p | p in inUse :: p in pages
    {
      hide Listed, Bag, NoDup, LeafSet, Members, Grantable;
      forall p | p in inUse ensures p in pages { PagesIn(l, autoVacuum, nPage, p); }
    }

    lemma StartSelf()
      requires Restorable()
      ensures SameStart(startSize, startPages, startMap, startTrunks)
    {
    }

    lemma GrantedFree(ts: seq<Trunk>, pages0: Pages, p: nat)
      requires Granted(pages0, ts, p)
      ensures p in Members(ts) && Free() == Members(ts) - {p}
      ensures forall q | q in pages0 && q != 1 && q !in Members(ts) :: q in pages && pages[q] == pages0[q]
    {
    }
  }

  // An operation on the file.
  datatype Op = DoAllocate(nearby: nat, mode: Mode) | DoFree(p: nat) | DoWrite(q: nat, data: seq<nat>) | DoCutTail |
      DoCommit | DoRollback

  // Pages beyond the first that the b-tree layer can hand out.
  ghost function AllPages(l: Layout, auto: bool, n: nat): set<nat> { set p: nat | 2 <= p <= n && Grantable(l, auto, p) }

  /** What a file looks like to its users: how long it is and what is on the pages in use, now and when the transaction
      began. All other pages that can be handed out are free. */
  datatype Held = Held(nPage: nat, inUse: map<nat, seq<nat>>, startSize: nat, start: map<nat, seq<nat>>)

  ghost function FreeIn(l: Layout, auto: bool, h: Held): set<nat> { AllPages(l, auto, h.nPage) - h.inUse.Keys }

  ghost predicate Holds(pages: Pages, content: map<nat, seq<nat>>) {
    forall p | p in content :: p in pages && pages[p] == content[p]
  }

  lemma NotOne(l: Layout, auto: bool, n: nat, s: set<nat>)
    ensures forall p | p in s && s <= AllPages(l, auto, n) :: 1 < p <= n
  {
    hide Grantable;
  }

  lemma HoldsStill(pages: Pages, pages': Pages, free: set<nat>, content: map<nat, seq<nat>>,
                   content': map<nat, seq<nat>>)
    requires Same(pages, pages', free) && Holds(pages, content) && content'.Keys !! free && 1 !in content'
    requires forall p | p in content' :: p in content && content'[p] == content[p]
    ensures Holds(pages', content')
  {
  }

  lemma HoldsWritten(pages: Pages, content: map<nat, seq<nat>>, p: nat, data: seq<nat>)
    requires Holds(pages, content)
    ensures Holds(pages[p := data], content[p := data])
  {
  }

  lemma HoldsGranted(pages: Pages, pages': Pages, free: set<nat>, n: nat, content: map<nat, seq<nat>>, p: nat)
    requires Holds(pages, content) && content.Keys !! free && p in pages' && forall q | q in content :: 1 < q <= n
    requires forall q | q in pages && 1 < q <= n && q !in free :: q in pages' && pages'[q] == pages[q]
    ensures p !in content ==> Holds(pages', content[p := pages'[p]])
  {
  }

  lemma HoldsBack(l: Layout, auto: bool, n: nat, file: Pages, pages: Pages, ts: seq<Trunk>, content: map<nat, seq<nat>>)
    requires Holds(file, content) && content.Keys !! Members(ts) && content.Keys <= AllPages(l, auto, n)
    requires LeafSet(ts) <= Members(ts)
    requires forall p | 1 <= p <= n && p != l.pending && p !in LeafSet(ts) ::
               p in pages && p in file && pages[p] == file[p]
    ensures Holds(pages, content)
  {
    hide Members, LeafSet;
    forall p | p in content ensures p in pages && pages[p] == content[p] { PagesIn(l, auto, n, p); }
  }

  lemma CanGrant(l: Layout, auto: bool, n: nat, pages: Pages, ts: seq<Trunk>, p: nat)
    requires InFile(l, auto, n, pages, ts) && p in Members(ts)
    ensures Grantable(l, auto, p) && p <= n
  {
  }

  // What a caller may ask for, given the pages it uses.
  predicate MayDo(l: Layout, auto: bool, h: Held, op: Op) {
    match op
    case DoAllocate(nearby, mode) => nearby < U32 && h.nPage + 3 < U32 && (mode.ANY? || (nearby > 0 && auto))
    case DoFree(p) => p in h.inUse
    case DoWrite(p, data) => p in h.inUse && |data| == l.usable / 4
    case DoCutTail => auto && h.nPage + 3 < U32 && h.nPage !in h.inUse && 2 <= h.nPage && Grantable(l, true, h.nPage)
    case _ => true
  }

  // What an operation does; granted is the page an allocation returns, or zero if it fails.
  ghost predicate Follows(l: Layout, auto: bool, h: Held, op: Op, granted: nat, h': Held) {
    match op
    case DoAllocate(nearby, mode) =>
      if granted == 0 then FailsToGrant(l, auto, h, nearby, mode) && h' == h.(nPage := h.startSize, inUse := h.start)
      else Grants(l, auto, h, nearby, mode, granted, h')
    case DoFree(p) => h' == h.(inUse := h.inUse - {p})
    case DoWrite(p, data) => h' == h.(inUse := h.inUse[p := data])
    case DoCutTail =>
      && h' == h.(nPage := h'.nPage) && h'.nPage < h.nPage && Ordinary(l, h'.nPage)
      && forall q | h'.nPage < q < h.nPage :: !Ordinary(l, q)
    case DoCommit => h' == h.(startSize := h.nPage, start := h.inUse)
    case DoRollback => h' == h.(nPage := h.startSize, inUse := h.start)
  }

  // Pages are free, but none of them is one asked for.
  ghost predicate FailsToGrant(l: Layout, auto: bool, h: Held, nearby: nat, mode: Mode) {
    !mode.ANY? && FreeIn(l, auto, h) != {} && forall x | x in FreeIn(l, auto, h) :: !Wanted(mode, nearby, x)
  }

  // A free page, or if there is none the next one after the end of the file, is in use from now on.
  ghost predicate Grants(l: Layout, auto: bool, h: Held, nearby: nat, mode: Mode, granted: nat, h': Held) {
    && granted !in h.inUse && granted in h'.inUse
    && h' == h.(nPage := h'.nPage, inUse := h.inUse[granted := h'.inUse[granted]])
    && (if FreeIn(l, auto, h) != {} then granted in FreeIn(l, auto, h) && h'.nPage == h.nPage
        else h'.nPage == granted > h.nPage && Grantable(l, auto, granted) && forall q | h.nPage < q < granted ::
               !Grantable(l, auto, q))
    && (mode.EXACT? && nearby in FreeIn(l, auto, h) ==> granted == nearby)
    && (mode.LE? && FreeIn(l, auto, h) != {} ==> granted <= nearby)
  }

  ghost predicate Logged(l: Layout, auto: bool, h: Held, op: Op, granted: nat, h': Held) {
    if MayDo(l, auto, h, op) then Follows(l, auto, h, op, granted, h') else granted == 0 && h' == h
  }

  lemma GrantTracked(l: Layout, auto: bool, h: Held, nearby: nat, mode: Mode, free: set<nat>, pgno: nat, n: nat,
                     free': set<nat>, h': Held)
    requires free == FreeIn(l, auto, h) && h.inUse.Keys !! free && h.inUse.Keys + free == AllPages(l, auto, h.nPage)
    requires 1 <= h.nPage && pgno in h'.inUse
    requires h' == h.(nPage := n, inUse := h.inUse[pgno := h'.inUse[pgno]])
    requires free != {} ==> pgno in free && free' == free - {pgno} && n == h.nPage && pgno != 0
    requires free == {} ==>
               && free' == {} && h.nPage < pgno == n && Grantable(l, auto, pgno)
               && forall q | h.nPage < q < pgno :: !Grantable(l, auto, q)
    requires (mode.EXACT? && nearby in free ==> pgno == nearby) && (mode.LE? && free != {} ==> pgno <= nearby)
    ensures pgno != 0 && Grants(l, auto, h, nearby, mode, pgno, h') && pgno !in h.inUse
    ensures h'.inUse.Keys !! free' && h'.inUse.Keys + free' == AllPages(l, auto, n)
  {
    hide Grantable, FreeIn, AllPages;
    if free == {} { MorePages(l, auto, h.nPage, n); }
  }

  // An operation that may take page p away from its user.
  predicate GivesUp(op: Op, granted: nat, p: nat) {
    op == DoFree(p) || op == DoRollback || (op.DoAllocate? && granted == 0)
  }

  /** In every run a page that is in use stays so, is granted to nobody else and has the content last written to it,
      until it is freed or the transaction is rolled back. */
  lemma {:induction false} InUseUntilFreed(l: Layout, auto: bool, log: seq<Held>, ops: seq<Op>, grants: seq<nat>,
                                           i: nat, j: nat, p: nat)
    requires i <= j <= |ops| == |grants| && |log| == |ops| + 1 && p in log[i].inUse
    requires forall n | 0 <= n < |ops| :: Logged(l, auto, log[n], ops[n], grants[n], log[n + 1])
    requires forall n | i <= n < j :: !GivesUp(ops[n], grants[n], p)
    ensures p in log[j].inUse && forall n | i <= n < j && ops[n].DoAllocate? :: grants[n] != p
    ensures (forall n | i <= n < j && ops[n].DoWrite? :: ops[n].q != p) ==> log[j].inUse[p] == log[i].inUse[p]
    decreases j
  {
    hide Grantable, AllPages;
    if i < j {
      InUseUntilFreed(l, auto, log, ops, grants, i, j - 1, p);
      assert Logged(l, auto, log[j - 1], ops[j - 1], grants[j - 1], log[j]);
    }
  }

  lemma PagesIn(l: Layout, auto: bool, n: nat, p: nat)
    ensures p in AllPages(l, auto, n) <==> 2 <= p <= n && Grantable(l, auto, p)
    ensures Grantable(l, auto, p) ==> p != l.pending
  {
  }

  lemma MorePages(l: Layout, auto: bool, n: nat, p: nat)
    requires 1 <= n < p && Grantable(l, auto, p) && forall q | n < q < p :: !Grantable(l, auto, q)
    ensures AllPages(l, auto, p) == AllPages(l, auto, n) + {p} && p !in AllPages(l, auto, n)
  {
    hide Grantable;
  }

  lemma FewerPages(l: Layout, n: nat, m: nat)
    requires 1 <= m < n && forall q | m < q < n :: !Ordinary(l, q)
    ensures AllPages(l, true, m) == AllPages(l, true, n) - {n}
  {
    forall q | m < q < n ensures !Grantable(l, true, q) { assert !Ordinary(l, q); }
  }

  lemma OneIn(ts: seq<Trunk>, i: nat)
    requires i < |ts|
    ensures ts[i].pgno in Members(ts)
  {
    OneHolds(ts, i);
  }

  // The file of n pages with every page put back that is not blind.
  function Restored(n: nat, file: Pages, blind: set<nat>, left: Pages): Pages {
    map p | p in file && 1 <= p <= n :: if p in blind && p in left && |left[p]| == |file[p]| then left[p] else file[p]
  }

  // Putting back everything but leaves puts back the list.
  lemma RolledBack(l: Layout, auto: bool, n: nat, file: Pages, m: map<nat, PageType>, ts: seq<Trunk>, blind: set<nat>,
                   left: Pages)
    requires Sound(l, auto, n, file, m, ts) && forall p | p in blind :: p in LeafSet(ts) || p > n
    ensures var pages := Restored(n, file, blind, left);
            && Sound(l, auto, n, pages, m, ts)
            && forall p | 1 <= p <= n && p != l.pending && p !in LeafSet(ts) ::
                  p in pages && p in file && pages[p] == file[p]
  {
    ListFacts(l, auto, n, file, ts);
    hide Bag, NoDup, Members, Grantable, LeafSet;
    var pages := Restored(n, file, blind, left);
    LeavesAbove(l, auto, n, file, ts);
    forall i | 0 <= i < |ts| ensures Stored(pages, l.usable / 4, ts, i) {
      StoredAt(file, l.usable / 4, ts, i);
      TrunkNoLeaf(ts, i);
    }
  }

  lemma LeavesAbove(l: Layout, auto: bool, n: nat, file: Pages, ts: seq<Trunk>)
    requires Separate(ts)
    ensures 1 !in LeafSet(ts)
  {
  }

  lemma TrunkNoLeaf(ts: seq<Trunk>, i: nat)
    requires Separate(ts) && i < |ts|
    ensures ts[i].pgno !in LeafSet(ts)
  {
  }

  // ---------- consequences of the invariant ----------

  lemma ListFacts(l: Layout, auto: bool, nPage: nat, pages: Pages, ts: seq<Trunk>)
    requires l.usable >= 480 && InFile(l, auto, nPage, pages, ts) && Listed(pages, l.usable / 4, ts)
    ensures Separate(ts) && (forall i | 0 <= i < |ts| :: 2 <= ts[i].pgno <= nPage) && 0 !in Bag(ts) && 1 !in Bag(ts)
    ensures 1 in pages && |pages[1]| == l.usable / 4 && |ts| <= |Bag(ts)|
  {
    hide Bag, NoDup, Separate, Grantable;
    assert 0 !in Members(ts) && 1 !in Members(ts);
    NoDupSeparate(ts);
    forall i | 0 <= i < |ts| ensures 2 <= ts[i].pgno <= nPage {
      OneHolds(ts, i);
      assert ts[i].pgno in Members(ts);
    }
    TrunksCounted(ts);
  }

  lemma {:induction false} TrunksCounted(ts: seq<Trunk>)
    ensures |ts| <= |Bag(ts)|
  {
    if ts != [] {
      TrunksCounted(ts[1..]);
      assert Bag(ts) == One(ts[0]) + Bag(ts[1..]);
    }
  }

  lemma SizeFacts(l: Layout, auto: bool, nPage: nat, pages: Pages, ts: seq<Trunk>, ptrmap: map<nat, PageType>)
    requires InFile(l, auto, nPage, pages, ts) && Marked(auto, ptrmap, Members(ts)) && nPage >= 1
    ensures |Bag(ts)| < nPage && (|Bag(ts)| == 0 <==> Members(ts) == {}) && (|Bag(ts)| == 0 <==> ts == [])
    ensures forall x | x in Members(ts) :: x <= nPage && (auto ==> x in ptrmap && ptrmap[x] == FREEPAGE)
  {
    MembersCount(ts);
    RangeSize(Members(ts), nPage);
    EmptyBag(ts);
  }

  lemma PageHeld(l: Layout, auto: bool, nPage: nat, pages: Pages, ts: seq<Trunk>, p: nat)
    requires InFile(l, auto, nPage, pages, ts) && 2 <= p <= nPage && Grantable(l, auto, p)
    ensures p in pages && |pages[p]| == l.usable / 4
  {
  }

  lemma StoredAt(pages: Pages, w: nat, ts: seq<Trunk>, i: nat)
    requires Listed(pages, w, ts) && i < |ts|
    ensures Stored(pages, w, ts, i)
  {
  }

  lemma NearestLeaf(pages: Pages, w: nat, ts: seq<Trunk>, i: nat, c: nat, nearby: nat)
    requires i < |ts| && Stored(pages, w, ts, i) && c < |ts[i].leaves|
    requires nearby == 0 ==> c == 0
    requires nearby > 0 ==> forall j | 0 <= j < |ts[i].leaves| ::
               Dist(Leaf(pages[ts[i].pgno], c), nearby) <= Dist(Leaf(pages[ts[i].pgno], j), nearby)
    ensures Nearest(ts[i], nearby, Leaf(pages[ts[i].pgno], c))
  {
    hide Dist;
    var t := ts[i];
    assert Leaf(pages[t.pgno], c) == t.leaves[c];
    forall x | nearby > 0 && x in t.leaves ensures Dist(Leaf(pages[t.pgno], c), nearby) <= Dist(x, nearby) {
      var j :| 0 <= j < |t.leaves| && t.leaves[j] == x;
      assert Leaf(pages[t.pgno], j) == x;
    }
  }

  lemma LeafFacts(l: Layout, auto: bool, nPage: nat, pages: Pages, ts: seq<Trunk>, i: nat, j: nat)
    requires InFile(l, auto, nPage, pages, ts) && i < |ts| && j < |ts[i].leaves|
    ensures ts[i].leaves[j] in Members(ts) && 2 <= ts[i].leaves[j] <= nPage
    ensures ts[i].leaves[j] in pages && |pages[ts[i].leaves[j]]| == l.usable / 4
  {
    hide Bag, NoDup;
    OneHolds(ts, i);
    assert ts[i].leaves[j] in Members(ts);
    assert Grantable(l, auto, ts[i].leaves[j]);
  }

  lemma CountWritten(pages: Pages, l: Layout, auto: bool, nPage: nat, ts: seq<Trunk>, v: nat)
    requires l.usable >= 480 && InFile(l, auto, nPage, pages, ts) && Listed(pages, l.usable / 4, ts)
    ensures 1 in pages && |pages[1]| == l.usable / 4
    ensures var pages' := pages[1 := With(pages[1], 9, v)];
            Listed(pages', l.usable / 4, ts) && InFile(l, auto, nPage, pages', ts) && Same(pages, pages', {})
  {
    ListFacts(l, auto, nPage, pages, ts);
    hide Bag, NoDup, Grantable;
    var pages' := pages[1 := With(pages[1], 9, v)];
    forall i | 0 <= i < |ts| ensures Stored(pages', l.usable / 4, ts, i) {
      assert Stored(pages, l.usable / 4, ts, i);
    }
  }

  // The header counts one page less than ts has, and page p has left the list.
  lemma Settle(l: Layout, auto: bool, nPage: nat, ptrmap: map<nat, PageType>, pages: Pages, ts: seq<Trunk>,
               pages': Pages, ts': seq<Trunk>, p: nat)
    requires InFile(l, auto, nPage, pages, ts) && Marked(auto, ptrmap, Members(ts)) && Took(pages, ts, pages', ts', p)
    requires pages[1][9] == |Bag(ts)| - 1
    ensures InFile(l, auto, nPage, pages', ts') && Marked(auto, ptrmap, Members(ts')) && 1 in pages'
            && |pages'[1]| >= 10
    ensures pages'[1][9] == |Bag(ts')| && Same(pages, pages', Members(ts))
    ensures p in Members(ts) && p >= 2 && Members(ts') == Members(ts) - {p} && LeafSet(ts') <= LeafSet(ts)
  {
    hide Bag, NoDup, LeafSet, Grantable, Members;
    TookMembers(pages, ts, pages', ts', p);
  }

  // The header counts one page more than ts has, and page p has joined the list.
  lemma Joined(l: Layout, auto: bool, nPage: nat, map0: map<nat, PageType>, ptrmap: map<nat, PageType>, pages0: Pages,
               pages: Pages,
               ts: seq<Trunk>, pages': Pages, ts': seq<Trunk>, p: nat)
    requires InFile(l, auto, nPage, pages, ts) && Marked(auto, map0, Members(ts)) && Added(pages, ts, pages', ts', p)
    requires p !in Members(ts) && 2 <= p <= nPage && Grantable(l, auto, p)
             && ptrmap == if auto then map0[p := FREEPAGE] else map0
    requires Same(pages0, pages, {}) && pages[1][9] == |Bag(ts)| + 1
    ensures InFile(l, auto, nPage, pages', ts') && Marked(auto, ptrmap, Members(ts')) && 1 in pages'
            && |pages'[1]| >= 10
    ensures pages'[1][9] == |Bag(ts')| && Same(pages0, pages', Members(ts'))
    ensures Members(ts') == Members(ts) + {p} && LeafSet(ts') <= LeafSet(ts) + {p}
  {
    hide Bag, NoDup, LeafSet, Grantable, Members;
    AddedMembers(pages, ts, pages', ts', p);
  }

  lemma GrantedSince(pages0: Pages, pages: Pages, pages': Pages, ts: seq<Trunk>)
    requires Same(pages0, pages, {}) && Same(pages, pages', Members(ts))
    ensures Same(pages0, pages', Members(ts))
  {
  }

  lemma FirstLink(pages: Pages, w: nat, ts: seq<Trunk>)
    requires Listed(pages, w, ts)
    ensures 1 in pages && |pages[1]| == w && w >= 10 && pages[1][8] == Link(ts, 0)
  {
  }

  lemma EmptyBag(ts: seq<Trunk>)
    ensures |Bag(ts)| == 0 <==> ts == []
    ensures ts == [] ==> Bag(ts) == multiset{}
  {
    if ts != [] { TrunksCounted(ts); }
  }

  lemma NothingYet(mode: Mode, nearby: nat, ts: seq<Trunk>)
    requires ts == []
    ensures forall x | x in Members(ts) :: !Wanted(mode, nearby, x)
  {
    EmptyBag(ts);
    assert forall x :: x !in Members(ts);
  }

  lemma LeafListed(ts: seq<Trunk>, i: nat, j: nat)
    requires i < |ts| && j < |ts[i].leaves|
    ensures ts[i].leaves[j] in LeafSet(ts)
  {
    assert ts[i].leaves[j] in ts[i].leaves;
  }

  lemma NoneWantedTrunk(ts: seq<Trunk>, i: nat, mode: Mode, nearby: nat)
    requires i < |ts| && forall x | x in Members(ts[..i]) :: !Wanted(mode, nearby, x)
    requires forall x | x in One(ts[i]) :: !Wanted(mode, nearby, x)
    ensures forall x | x in Members(ts[..i + 1]) :: !Wanted(mode, nearby, x)
  {
    hide Bag, One;
    BagAt(ts, i);
    forall x | x in Members(ts[..i + 1]) ensures !Wanted(mode, nearby, x) {
      if x !in One(ts[i]) { assert x in Members(ts[..i]); }
    }
  }

  // When the leaf chosen from a trunk will not do, no leaf of it will.
  lemma NoneWanted(pages: Pages, l: Layout, auto: bool, nPage: nat, ts: seq<Trunk>, i: nat, c: nat, mode: Mode,
                   nearby: nat)
    requires InFile(l, auto, nPage, pages, ts) && i < |ts| && Stored(pages, l.usable / 4, ts, i) && c < |ts[i].leaves|
    requires nPage < U32 && nearby < U32 && (mode.LE? || mode.EXACT?)
    requires !Wanted(mode, nearby, ts[i].pgno) && !Wanted(mode, nearby, ts[i].leaves[c])
    requires var s := pages[ts[i].pgno];
             (mode.LE? && Leaf(s, c) > nearby ==> forall j | 0 <= j < |ts[i].leaves| :: Leaf(s, j) > nearby)
             && (!mode.LE? ==> forall j | 0 <= j < |ts[i].leaves| ::
                   Dist(Leaf(s, c), nearby) <= Dist(Leaf(s, j), nearby))
    ensures forall x | x in One(ts[i]) :: !Wanted(mode, nearby, x)
  {
    hide Bag, Grantable, NoDup, Dist;
    var s, t := pages[ts[i].pgno], ts[i];
    forall j | 0 <= j < |t.leaves| ensures !Wanted(mode, nearby, t.leaves[j]) {
      assert Leaf(s, j) == t.leaves[j] && Leaf(s, c) == t.leaves[c];
      LeafFacts(l, auto, nPage, pages, ts, i, j);
      LeafFacts(l, auto, nPage, pages, ts, i, c);
      if mode.EXACT? { DistZero(t.leaves[c], t.leaves[j], nearby); }
    }
  }

  lemma DistZero(a: nat, b: nat, nearby: nat)
    requires a < U32 && b < U32 && nearby < U32 && a != nearby && Dist(a, nearby) <= Dist(b, nearby)
    ensures b != nearby
  {
  }

  lemma NoMembers(ts: seq<Trunk>)
    requires ts == []
    ensures Members(ts) == {} && LeafSet(ts) == {} && NoDup(ts)
  {
    EmptyBag(ts);
  }

  // A page fetched from the pager: without the no-content flag, what an earlier truncation left there is kept.
  function Fetched(pages: Pages, w: nat, p: nat, noContent: bool): Pages {
    if noContent || p !in pages || |pages[p]| != w then pages[p := seq(w, _ => 0)] else pages
  }

  function GrownPages(l: Layout, auto: bool, n: nat, pages: Pages, noContent: bool): Pages {
    var p := AfterPending(l, n + 1);
    var mid := if auto && IsMap(l, p) then Fetched(pages, l.usable / 4, p, noContent) else pages;
    Fetched(mid, l.usable / 4, NextPage(l, auto, n), noContent)
  }

  lemma GrownFrame(l: Layout, auto: bool, n: nat, pages: Pages, noContent: bool)
    ensures var pages' := GrownPages(l, auto, n, pages, noContent);
            (forall q | q in pages && q <= n :: q in pages' && pages'[q] == pages[q])
            && (forall q | n < q <= NextPage(l, auto, n) && q != l.pending ::
                  q in pages' && |pages'[q]| == l.usable / 4)
  {
    hide IsMap;
  }

  lemma Grown(l: Layout, auto: bool, ptrmap: map<nat, PageType>, n: nat, pages: Pages, ts: seq<Trunk>, noContent: bool)
    requires l.usable >= 480 && n >= 1 && Listed(pages, l.usable / 4, ts) && InFile(l, auto, n, pages, ts) && ts == []
    ensures var file, p := GrownPages(l, auto, n, pages, noContent), NextPage(l, auto, n);
            1 in pages && 1 in file && file[1] == pages[1] && |file[1]| > 9
            && (forall q | q in pages && q <= n :: q in file && file[q] == pages[q])
            && var pages' := file[1 := With(file[1], 7, p)];
            Listed(pages', l.usable / 4, ts) && InFile(l, auto, p, pages', ts) && Marked(auto, ptrmap, Members(ts))
  {
    hide Bag, GrownPages, NextPage;
    GrownFrame(l, auto, n, pages, noContent);
    NoMembers(ts);
    hide NoDup, Members, Grantable;
    var file, p := GrownPages(l, auto, n, pages, noContent), NextPage(l, auto, n);
    var pages' := file[1 := With(file[1], 7, p)];
    forall q | 1 <= q <= p && q != l.pending ensures q in pages' && |pages'[q]| == l.usable / 4 {
      assert q <= n ==> q in pages;
    }
  }

  lemma PageOne(l: Layout)
    ensures !IsMap(l, 1)
  {
  }

  lemma TailOnly(l: Layout, auto: bool, nPage: nat, pages: Pages, ts: seq<Trunk>)
    requires InFile(l, auto, nPage, pages, ts) && nPage in Members(ts)
    ensures nPage >= 2
  {
  }

  // A shorter file still holds the list when the pages given up are not on it.
  lemma Shorter(l: Layout, auto: bool, nPage: nat, m: nat, pages: Pages, ts: seq<Trunk>)
    requires InFile(l, auto, nPage, pages, ts) && m <= nPage && forall x | x in Members(ts) :: x <= m
    ensures InFile(l, auto, m, pages, ts)
  {
    hide Bag, NoDup, Grantable, Members;
  }

  lemma Shortened(l: Layout, auto: bool, nPage: nat, m: nat, pages: Pages, ts: seq<Trunk>)
    requires InFile(l, auto, nPage, pages, ts) && auto && m <= nPage && nPage !in Members(ts)
    requires forall q | m < q < nPage :: !Ordinary(l, q)
    ensures InFile(l, auto, m, pages, ts)
  {
    hide Bag, NoDup, IsMap, Members;
    forall x | x in Members(ts) ensures x <= m {
      assert Grantable(l, auto, x);
      assert m < x < nPage ==> !Ordinary(l, x);
    }
  }
}
