/** Payloads whose overflow pages come from the freelist of the file and go back to it. */
module OverflowStore {
  import opened Common
  import opened PtrMap
  import O = Overflow
  import C = OverflowChain
  import F = Freelist

  /** The b-tree layer's view of its pages and the file with its freelist: every page that can be handed out is in use
      or free, and not both. */
  ghost predicate Joined(ov: O.Btree, fl: F.BtShared)
    reads ov, fl
  {
    && ov.Valid() && fl.Valid() && ov.l == fl.l && ov.autoVacuum == fl.autoVacuum && ov.nPage == fl.nPage
    && ov.used !! fl.Free() && ov.used + fl.Free() == F.AllPages(fl.l, fl.autoVacuum, fl.nPage)
    && Buffered(ov.pages, ov.lim.usable, fl.l, fl.autoVacuum, fl.nPage)
  }

  // Pages drawn from a file of n pages, now of m pages, with the pages of free.
  ghost predicate Drawn(l: Layout, auto: bool, n: nat, m: nat, free: set<nat>, free': set<nat>, grants: seq<nat>) {
    && n <= m && O.Distinct(grants) && free' == free - (set p | p in grants)
    && (forall i | 0 <= i < |grants| :: grants[i] in free || (n < grants[i] <= m && Grantable(l, auto, grants[i])))
    && (forall q: nat | n < q <= m && Grantable(l, auto, q) :: q in grants)
    && (m == n || m in grants)
    && (forall i, q: nat | 0 <= i < |grants| && n < q < grants[i] && Grantable(l, auto, q) :: q in grants[..i])
  }

  lemma DrawnNone(l: Layout, auto: bool, n: nat, free: set<nat>)
    ensures Drawn(l, auto, n, n, free, free, [])
  {
    hide Grantable;
    assert (set p: nat | p in []) == {};
  }

  lemma DrawnFree(l: Layout, auto: bool, n: nat, m: nat, free: set<nat>, free': set<nat>, grants: seq<nat>, p: nat)
    requires Drawn(l, auto, n, m, free, free', grants) && p in free' && p <= n
    ensures Drawn(l, auto, n, m, free, free' - {p}, grants + [p])
  {
    hide Grantable;
    var g := grants + [p];
    assert (set x | x in g) == (set x | x in grants) + {p};
    forall i, q: nat | 0 <= i < |g| && n < q < g[i] && Grantable(l, auto, q) ensures q in g[..i] {
      assert i < |grants| && g[..i] == grants[..i];
    }
  }

  lemma DrawnNew(l: Layout, auto: bool, n: nat, m: nat, free: set<nat>, grants: seq<nat>, p: nat)
    requires Drawn(l, auto, n, m, free, {}, grants) && m < p && Grantable(l, auto, p)
    requires forall x | x in free :: x <= n
    requires forall q: nat | m < q < p :: !Grantable(l, auto, q)
    ensures Drawn(l, auto, n, p, free, {}, grants + [p])
  {
    hide Grantable;
    var g := grants + [p];
    assert forall i | 0 <= i < |grants| :: grants[i] <= m;
    NewSet(grants, p, free);
    forall i | 0 <= i < |g| ensures g[i] in free || (n < g[i] <= p && Grantable(l, auto, g[i])) {
      assert i < |grants| ==> g[i] == grants[i];
    }
    forall q: nat | n < q <= p && Grantable(l, auto, q) ensures q in g { assert q <= m || q == g[|grants|]; }
    forall i, q: nat | 0 <= i < |g| && n < q < g[i] && Grantable(l, auto, q) ensures q in g[..i] {
      if i < |grants| { assert g[..i] == grants[..i]; } else { assert g[..i] == grants && q <= m; }
    }
    assert g[|grants|] == p;
  }

  lemma NewSet(grants: seq<nat>, p: nat, free: set<nat>)
    requires free - (set x | x in grants) == {}
    ensures free - (set x | x in grants + [p]) == {}
  {
    assert (set x | x in grants + [p]) == (set x | x in grants) + {p};
  }

  // Every page that can be handed out has a buffer.
  ghost predicate Buffered(pages: C.Pages, u: nat, l: Layout, auto: bool, n: nat) {
    forall p | p in F.AllPages(l, auto, n) :: C.Has(pages, u, p)
  }

  // Pages outside s are what they were.
  ghost predicate SameBut(pages: C.Pages, pages': C.Pages, s: seq<nat>) {
    forall p | p in pages && p !in s :: p in pages' && pages'[p] == pages[p]
  }

  // Draw up to n pages, fewer only if page numbers run out; new pages are zero.
  method Draw(ov: O.Btree, fl: F.BtShared, n: nat, nearby: seq<nat>) returns (grants: seq<nat>)
    requires Joined(ov, fl) && |nearby| == n && forall i | 0 <= i < n :: nearby[i] < F.U32
    modifies fl, ov`pages
    ensures ov.Valid() && fl.Valid() && |grants| <= n && (|grants| < n ==> fl.nPage + 3 >= F.U32)
    ensures Drawn(fl.l, fl.autoVacuum, old(fl.nPage), fl.nPage, old(fl.Free()), fl.Free(), grants)
    ensures SameBut(old(ov.pages), ov.pages, grants) && Buffered(ov.pages, ov.lim.usable, fl.l, fl.autoVacuum, fl.nPage)
  {
    hide F.BtShared.Valid, F.BtShared.Free, O.Btree.Valid, Drawn, F.AllPages, Buffered, SameBut, C.Has;
    grants := [];
    DrawnNone(fl.l, fl.autoVacuum, fl.nPage, fl.Free());
    StartBuffered(ov, fl);
    while |grants| < n && fl.nPage + 3 < F.U32
      invariant ov.Valid() && fl.Valid() && |grants| <= n && ov.nPage == old(fl.nPage)
      invariant Drawn(fl.l, fl.autoVacuum, old(fl.nPage), fl.nPage, old(fl.Free()), fl.Free(), grants)
      invariant SameBut(old(ov.pages), ov.pages, grants)
                && Buffered(ov.pages, ov.lim.usable, fl.l, fl.autoVacuum, fl.nPage)
      decreases n - |grants|
    {
      ghost var pages0 := ov.pages;
      var was := grants;
      grants := DrawOne(ov, fl, nearby[|grants|], grants, old(fl.nPage), old(fl.Free()), old(ov.used));
      SameMore(old(ov.pages), pages0, ov.pages, was, grants);
    }
  }

  lemma StartBuffered(ov: O.Btree, fl: F.BtShared)
    requires Joined(ov, fl)
    ensures Buffered(ov.pages, ov.lim.usable, fl.l, fl.autoVacuum, fl.nPage) && SameBut(ov.pages, ov.pages, [])
    ensures forall p | p in fl.Free() :: p <= fl.nPage && p !in ov.used
    ensures forall p | p in ov.used :: p <= fl.nPage
  {
    hide F.BtShared.Valid, O.Btree.Valid, Grantable;
    fl.FreeFacts();
  }

  lemma SameMore(a: C.Pages, b: C.Pages, c: C.Pages, s: seq<nat>, s': seq<nat>)
    requires SameBut(a, b, s) && s <= s' && (forall p | p in b && p !in s' :: p in c && c[p] == b[p])
    ensures SameBut(a, c, s')
  {
    assert forall p | p in s :: p in s';
  }

  // One more page.
  method DrawOne(ov: O.Btree, fl: F.BtShared, near: nat, grants: seq<nat>, ghost n0: nat, ghost free0: set<nat>,
                 ghost used0: set<nat>)
    returns (grants': seq<nat>)
    requires ov.Valid() && fl.Valid() && near < F.U32 && fl.nPage + 3 < F.U32 && ov.used == used0
    requires Drawn(fl.l, fl.autoVacuum, n0, fl.nPage, free0, fl.Free(), grants)
    requires (forall p | p in used0 :: p <= n0) && (forall p | p in free0 :: p <= n0)
    requires Buffered(ov.pages, ov.lim.usable, fl.l, fl.autoVacuum, fl.nPage)
    modifies fl, ov`pages
    ensures ov.Valid() && fl.Valid() && |grants'| == |grants| + 1 && grants <= grants'
    ensures Drawn(fl.l, fl.autoVacuum, n0, fl.nPage, free0, fl.Free(), grants')
    ensures Buffered(ov.pages, ov.lim.usable, fl.l, fl.autoVacuum, fl.nPage)
    ensures forall p | p in old(ov.pages) && p !in grants' :: p in ov.pages && ov.pages[p] == old(ov.pages[p])
  {
    hide F.BtShared.Valid, F.BtShared.Free, O.Btree.Valid, Drawn, Grantable, F.AllPages;
    var m := fl.nPage;
    ghost var free := fl.Free();
    fl.FreeFacts();
    DrawnBounds(fl.l, fl.autoVacuum, n0, m, free0, free, grants);
    var rc, pgno := fl.Obtain(near, F.ANY);
    if pgno > m {
      F.MorePages(fl.l, fl.autoVacuum, m, pgno);
      AddBuffer(ov, pgno);
      DrawnNew(fl.l, fl.autoVacuum, n0, m, free0, grants, pgno);
    } else {
      DrawnFree(fl.l, fl.autoVacuum, n0, m, free0, free, grants, pgno);
    }
    grants' := grants + [pgno];
  }

  lemma DrawnBounds(l: Layout, auto: bool, n: nat, m: nat, free: set<nat>, free': set<nat>, grants: seq<nat>)
    requires Drawn(l, auto, n, m, free, free', grants)
    ensures n <= m && free' <= free
  {
    hide Grantable;
  }

  // The pager's zeroed buffer for a page after the end of the file.
  method AddBuffer(ov: O.Btree, p: nat)
    requires ov.Valid() && p !in ov.used
    modifies ov`pages
    ensures ov.Valid() && ov.pages == old(ov.pages)[p := O.Zeros(ov.lim.usable)]
  {
    ov.pages := ov.pages[p := O.Zeros(ov.lim.usable)];
  }

  // What is drawn may be used for a chain.
  lemma DrawnGrants(ov: O.Btree, l: Layout, auto: bool, n: nat, m: nat, free: set<nat>, free': set<nat>,
                    grants: seq<nat>)
    requires Drawn(l, auto, n, m, free, free', grants) && ov.l == l && ov.nPage == n && 1 <= n && m < F.U32
    requires free <= F.AllPages(l, auto, n) && ov.used !! free && (forall p | p in ov.used :: p <= n)
    requires Buffered(ov.pages, ov.lim.usable, l, auto, m)
    ensures ov.Grants(grants)
  {
    forall i | 0 <= i < |grants|
      ensures C.Has(ov.pages, ov.lim.usable, grants[i]) && 2 <= grants[i] < 0x1_0000_0000 && grants[i] !in ov.used
    {
      F.PagesIn(l, auto, n, grants[i]);
      F.PagesIn(l, auto, m, grants[i]);
    }
    forall i, q: nat | 0 <= i < |grants| && n < q < grants[i] && Ordinary(l, q) ensures q in grants[0..i] {
      assert Grantable(l, auto, q) && grants[0..i] == grants[..i];
    }
  }

  // Pages drawn and pages there were are all the pages there are.
  lemma DrawnPages(l: Layout, auto: bool, n: nat, m: nat, free: set<nat>, free': set<nat>, grants: seq<nat>,
                   used: set<nat>)
    requires Drawn(l, auto, n, m, free, free', grants) && 1 <= n && used !! free
             && used + free == F.AllPages(l, auto, n)
    ensures var taken := used + (set p | p in grants);
            taken !! free' && taken + free' == F.AllPages(l, auto, m)
  {
    hide Grantable;
    var taken, all := used + (set p | p in grants), F.AllPages(l, auto, m);
    forall p | p in taken + free' ensures p in all {
      F.PagesIn(l, auto, n, p);
      F.PagesIn(l, auto, m, p);
    }
    forall p | p in all ensures p in taken + free' {
      F.PagesIn(l, auto, n, p);
      F.PagesIn(l, auto, m, p);
    }
  }

  // Overflow pages a payload needs.
  function Need(lim: O.Limits, nPayload: nat): nat
    requires lim.Ok()
  {
    if nPayload <= lim.maxLocal then 0 else O.NumPages(lim, nPayload)
  }

  /** A payload is stored: its overflow pages leave the freelist or extend the file, are in use from then on, and no
      page is lost. It fails only if page numbers run out. */
  method StoreCell(ov: O.Btree, fl: F.BtShared, data: seq<byte>, nZero: nat, nearby: seq<nat>)
    returns (ok: bool, cell: O.Cell, ghost chain: seq<nat>)
    requires Joined(ov, fl) && |nearby| == Need(ov.lim, |data| + nZero) && forall i | 0 <= i < |nearby| ::
               nearby[i] < F.U32
    modifies ov, fl
    ensures Joined(ov, fl) && (!ok ==> fl.nPage + 3 >= F.U32)
    ensures ok ==> O.Holds(ov.pages, ov.lim, cell, chain) && cell.nPayload == |data| + nZero
    ensures ok ==> O.Payload(ov.pages, ov.lim, cell, chain) == data + O.Zeros(nZero)
    ensures ov.used == old(ov.used) + (set p | p in chain) && fl.Free() == old(fl.Free()) - (set p | p in chain)
    ensures O.Distinct(chain) && forall p | p in chain :: p !in old(ov.used)
  {
    hide F.BtShared.Valid, F.BtShared.Free, O.Btree.Valid, Drawn, F.AllPages, Buffered, SameBut, O.Holds, O.Payload,
         O.NumPages, O.Distinct, O.Kept;
    ghost var n0, free0, used0 := fl.nPage, fl.Free(), ov.used;
    ov.Sizes();
    StartBuffered(ov, fl);
    fl.FreeFacts();
    var grants := Draw(ov, fl, |nearby|, nearby);
    fl.FreeFacts();
    JoinedFree(ov.l, fl.autoVacuum, n0, free0, used0);
    DrawnGrants(ov, fl.l, fl.autoVacuum, n0, fl.nPage, free0, fl.Free(), grants);
    DrawnPages(fl.l, fl.autoVacuum, n0, fl.nPage, free0, fl.Free(), grants, used0);
    ghost var pages1 := ov.pages;
    ok, cell, chain := ov.FillInCell(data, nZero, grants);
    WholeChain(ov, used0, n0, grants, chain, ok, cell);
    EndsTogether(ov, fl.l, fl.autoVacuum, n0, fl.nPage, free0, fl.Free(), grants);
    StillBuffered(pages1, ov.pages, ov.lim.usable, fl.l, fl.autoVacuum, fl.nPage, grants);
    DrawnIs(fl.l, fl.autoVacuum, n0, fl.nPage, free0, fl.Free(), grants);
  }

  lemma JoinedFree(l: Layout, auto: bool, n: nat, free: set<nat>, used: set<nat>)
    requires used + free == F.AllPages(l, auto, n)
    ensures free <= F.AllPages(l, auto, n)
  {
  }

  lemma WholeChain(ov: O.Btree, used: set<nat>, n: nat, grants: seq<nat>, chain: seq<nat>, ok: bool, cell: O.Cell)
    requires ov.lim.Ok() && ov.Taken(used, n, grants, chain) && (!ok ==> chain == grants)
    requires ok ==> O.Holds(ov.pages, ov.lim, cell, chain) && |grants| <= Need(ov.lim, cell.nPayload)
    ensures chain == grants && ov.used == used + (set p | p in grants) && ov.Valid() && O.Grown(n, ov.nPage, grants)
  {
    hide O.Btree.Valid, C.Linked;
  }

  lemma EndsTogether(ov: O.Btree, l: Layout, auto: bool, n: nat, m: nat, free: set<nat>, free': set<nat>,
                     grants: seq<nat>)
    requires Drawn(l, auto, n, m, free, free', grants) && ov.Valid() && O.Grown(n, ov.nPage, grants)
    requires (forall p | p in grants :: p in ov.used) && forall p | p in free :: p <= n
    ensures ov.nPage == m
  {
    hide Grantable;
  }

  lemma StillBuffered(pages: C.Pages, pages': C.Pages, u: nat, l: Layout, auto: bool, n: nat, s: seq<nat>)
    requires Buffered(pages, u, l, auto, n) && O.Kept(pages, pages', s)
    ensures Buffered(pages', u, l, auto, n)
  {
    hide F.AllPages;
  }

  lemma DrawnIs(l: Layout, auto: bool, n: nat, m: nat, free: set<nat>, free': set<nat>, grants: seq<nat>)
    requires Drawn(l, auto, n, m, free, free', grants)
    ensures free' == free - (set p | p in grants) && O.Distinct(grants)
    ensures forall p | p in grants :: p in free || n < p
  {
    hide Grantable;
  }

  /** A cell's overflow pages go back to the freelist, each once, and no page is lost. */
  method DropCell(ov: O.Btree, fl: F.BtShared, cell: O.Cell, ghost chain: seq<nat>) returns (freed: seq<nat>)
    requires Joined(ov, fl) && O.Holds(ov.pages, ov.lim, cell, chain) && forall p | p in chain :: p in ov.used
    modifies ov, fl
    ensures Joined(ov, fl) && freed == chain && fl.nPage == old(fl.nPage)
    ensures ov.used == old(ov.used) - (set p | p in chain) && fl.Free() == old(fl.Free()) + (set p | p in chain)
  {
    hide F.BtShared.Valid, F.BtShared.Free, O.Btree.Valid, F.AllPages, Buffered, O.Kept, O.Spilled, O.Distinct;
    ov.Sizes();
    ghost var n0, free0, used0 := fl.nPage, fl.Free(), ov.used;
    freed := [];
    if cell.nPayload <= ov.lim.maxLocal {
      assert (set p | p in chain) == {};
      return;
    }
    ghost var pages0 := ov.pages;
    ChainDistinct(ov, cell, chain);
    var rc;
    rc, freed := ov.ClearCellOverflow(cell, chain);
    StillBuffered(pages0, ov.pages, ov.lim.usable, fl.l, fl.autoVacuum, fl.nPage, chain);
    Reclaimed(ov.used, used0, free0, F.AllPages(fl.l, fl.autoVacuum, n0), chain);
    FreeAll(fl, freed);
  }

  lemma Reclaimed(used': set<nat>, used: set<nat>, free: set<nat>, all: set<nat>, chain: seq<nat>)
    requires used !! free && used + free == all && used' == used - (set p | p in chain) && forall p | p in chain ::
               p in used
    ensures forall p | p in chain :: p in all && p !in free
    ensures var free' := free + (set p | p in chain); used' !! free' && used' + free' == all
  {
  }

  // Free pages one after the other.
  method FreeAll(fl: F.BtShared, ps: seq<nat>)
    requires fl.Valid() && O.Distinct(ps)
    requires forall p | p in ps :: p in F.AllPages(fl.l, fl.autoVacuum, fl.nPage) && p !in fl.Free()
    modifies fl
    ensures fl.Valid() && fl.nPage == old(fl.nPage) && fl.Free() == old(fl.Free()) + (set p | p in ps)
  {
    hide F.BtShared.Valid, F.BtShared.Free, F.AllPages, Grantable;
    var i := 0;
    ghost var done: set<nat> := {};
    while i < |ps|
      invariant 0 <= i <= |ps| && fl.Valid() && fl.nPage == old(fl.nPage) && fl.Free() == old(fl.Free()) + done
      invariant forall p :: p in done <==> exists k :: 0 <= k < i && ps[k] == p
    {
      F.PagesIn(fl.l, fl.autoVacuum, fl.nPage, ps[i]);
      var rc := fl.FreePage(ps[i]);
      done := done + {ps[i]};
      i := i + 1;
    }
    assert done == set p | p in ps;
  }

  lemma ChainDistinct(ov: O.Btree, cell: O.Cell, chain: seq<nat>)
    requires ov.lim.Ok() && O.Holds(ov.pages, ov.lim, cell, chain)
    ensures O.Distinct(chain)
  {
  }
}
