/** The order in which balance_nonroot rewrites sibling pages in place: down from
    the right, then up again, without destroying a cell that is still needed. */
module BalanceOrder {

  // Where a cell being balanced is stored: on a sibling page, or in a copy outside the
  // siblings (a divider or an overflow cell).
  datatype Ptr = OnPage(page: nat, off: nat) | InScratch(idx: nat)

  ghost predicate Valid<T>(mem: seq<seq<T>>, scratch: seq<T>, ptr: Ptr) {
    match ptr
    case OnPage(q, off) => q < |mem| && off < |mem[q]|
    case InScratch(i) => i < |scratch|
  }

  function Deref<T>(mem: seq<seq<T>>, scratch: seq<T>, ptr: Ptr): T
    requires Valid(mem, scratch, ptr)
  {
    match ptr
    case OnPage(q, off) => mem[q][off]
    case InScratch(i) => scratch[i]
  }

  // Cells on page q lie between the old ends of pages q-1 and q.
  ghost predicate Sited(ap: seq<Ptr>, cntOld: seq<nat>, c: nat)
    requires c < |ap|
  {
    ap[c].OnPage? ==>
      var q := ap[c].page;
      q < |cntOld| && c < cntOld[q] && (q > 0 ==> cntOld[q - 1] <= c)
  }

  predicate Ascending(s: seq<nat>) {
    forall i, j | 0 <= i < j < |s| :: s[i] <= s[j]
  }

  function First(cntNew: seq<nat>, d: nat, p: nat): nat
    requires p < |cntNew|
  {
    if p == 0 then 0 else cntNew[p - 1] + d
  }

  // Cell c goes to page q.
  ghost predicate Wants(cntNew: seq<nat>, d: nat, q: nat, c: nat) {
    q < |cntNew| && First(cntNew, d, q) <= c < cntNew[q]
  }

  // Page p holds no cell that page q wants.
  ghost predicate Spares(ap: seq<Ptr>, cntNew: seq<nat>, d: nat, p: nat, q: nat) {
    forall c: nat | c < |ap| && Wants(cntNew, d, q, c) :: ap[c].OnPage? ==> ap[c].page != p
  }

  // The cells page q is to hold, read through the pointers.
  ghost predicate Holds<T>(page: seq<T>, mem: seq<seq<T>>, scratch: seq<T>, ap: seq<Ptr>, lo: nat, hi: nat) {
    && lo <= hi <= |ap| && |page| == hi - lo
    && forall c: nat {:trigger ap[c]} | lo <= c < hi ::
          Valid(mem, scratch, ap[c]) && page[c - lo] == Deref(mem, scratch, ap[c])
  }

  // Copy cells lo..hi-1 to where a page will hold them.
  method Gather<T>(mem: seq<seq<T>>, scratch: seq<T>, ap: seq<Ptr>, lo: nat, hi: nat) returns (page: seq<T>)
    requires lo <= hi <= |ap| && forall c | lo <= c < hi :: Valid(mem, scratch, ap[c])
    ensures Holds(page, mem, scratch, ap, lo, hi)
  {
    page := [];
    var c := lo;
    while c < hi
      invariant lo <= c <= hi && Holds(page, mem, scratch, ap, lo, c)
    {
      page := page + [Deref(mem, scratch, ap[c])];
      c := c + 1;
    }
  }

  // A page whose left neighbour's cells do not move right can be rewritten before all pages to its left.
  lemma SparesLeft(ap: seq<Ptr>, cntOld: seq<nat>, cntNew: seq<nat>, d: nat, p: nat, q: nat)
    requires Ascending(cntOld) && Ascending(cntNew) && |cntNew| <= |cntOld| && q < p < |cntNew|
    requires forall c: nat | c < |ap| :: Sited(ap, cntOld, c)
    requires cntOld[p - 1] >= cntNew[p - 1]
    ensures Spares(ap, cntNew, d, p, q)
  {
    forall c: nat | c < |ap| && Wants(cntNew, d, q, c) ensures ap[c].OnPage? ==> ap[c].page != p {
      assert Sited(ap, cntOld, c);
      assert q < p - 1 ==> cntNew[q] <= cntNew[p - 1];
    }
  }

  // A page whose left neighbour grows takes only cells from beyond that neighbour's old end.
  lemma SparesRight(ap: seq<Ptr>, cntOld: seq<nat>, cntNew: seq<nat>, d: nat, p: nat, q: nat)
    requires Ascending(cntOld) && Ascending(cntNew) && |cntNew| <= |cntOld| && p < q < |cntNew|
    requires forall c: nat | c < |ap| :: Sited(ap, cntOld, c)
    requires cntOld[q - 1] < cntNew[q - 1]
    ensures Spares(ap, cntNew, d, p, q)
  {
    forall c: nat | c < |ap| && Wants(cntNew, d, q, c) ensures ap[c].OnPage? ==> ap[c].page != p {
      assert Sited(ap, cntOld, c);
      assert p < q - 1 ==> cntOld[p] <= cntOld[q - 1];
    }
  }

  // After some pages have been rewritten: those hold their new cells, the others are
  // untouched, and no rewritten page held a cell that another page still wants.
  ghost predicate Halfway<T>(mem0: seq<seq<T>>, mem: seq<seq<T>>, scratch: seq<T>, ap: seq<Ptr>, cntNew: seq<nat>,
                             d: nat,
                             abDone: seq<nat>) {
    && |abDone| == |cntNew| <= |mem| == |mem0|
    && (forall p: nat | p < |abDone| :: abDone[p] <= 1)
    && (forall p: nat | p < |abDone| && abDone[p] == 1 ::
          Holds(mem[p], mem0, scratch, ap, First(cntNew, d, p), cntNew[p]))
    && (forall p: nat | p < |mem| && (p < |abDone| ==> abDone[p] == 0) :: mem[p] == mem0[p])
    && (forall p: nat, q: nat | p < |abDone| && q < |abDone| && abDone[p] == 1 && abDone[q] == 0 ::
          Spares(ap, cntNew, d, p, q))
  }

  // A page that every rewritten page spares can still be assembled from the pages as they are now.
  lemma StillThere<T>(mem0: seq<seq<T>>, mem: seq<seq<T>>, scratch: seq<T>, ap: seq<Ptr>, cntNew: seq<nat>, d: nat,
                      abDone: seq<nat>, q: nat)
    requires Halfway(mem0, mem, scratch, ap, cntNew, d, abDone) && q < |cntNew| && abDone[q] == 0
    requires First(cntNew, d, q) <= cntNew[q] <= |ap|
    requires forall c: nat | c < |ap| :: Valid(mem0, scratch, ap[c])
    ensures forall c: nat | First(cntNew, d, q) <= c < cntNew[q] ::
              Valid(mem, scratch, ap[c]) && Deref(mem, scratch, ap[c]) == Deref(mem0, scratch, ap[c])
  {
    forall c: nat | First(cntNew, d, q) <= c < cntNew[q]
      ensures Valid(mem, scratch, ap[c]) && Deref(mem, scratch, ap[c]) == Deref(mem0, scratch, ap[c])
    {
      assert Valid(mem0, scratch, ap[c]);
      assert Wants(cntNew, d, q, c);
      if ap[c].OnPage? {
        var p := ap[c].page;
        assert p < |abDone| && abDone[p] != 0 ==> Spares(ap, cntNew, d, p, q);
        assert mem[p] == mem0[p];
      }
    }
  }

  lemma Rewritten<T>(mem0: seq<seq<T>>, mem: seq<seq<T>>, scratch: seq<T>, ap: seq<Ptr>, cntNew: seq<nat>, d: nat,
                     abDone: seq<nat>, p: nat, page: seq<T>)
    requires Halfway(mem0, mem, scratch, ap, cntNew, d, abDone) && p < |cntNew| && abDone[p] == 0
    requires First(cntNew, d, p) <= cntNew[p] <= |ap|
    requires forall c: nat | c < |ap| :: Valid(mem0, scratch, ap[c])
    requires Holds(page, mem, scratch, ap, First(cntNew, d, p), cntNew[p])
    requires forall q: nat | q < |abDone| && abDone[q] == 0 && q != p :: Spares(ap, cntNew, d, p, q)
    ensures Halfway(mem0, mem[p := page], scratch, ap, cntNew, d, abDone[p := 1])
  {
    hide Spares;
    StillThere(mem0, mem, scratch, ap, cntNew, d, abDone, p);
    assert Holds(page, mem0, scratch, ap, First(cntNew, d, p), cntNew[p]);
  }

  // How far the two passes have come: going down, page p is skipped only if its left neighbour grows.
  ghost predicate Visited(cntOld: seq<nat>, cntNew: seq<nat>, abDone: seq<nat>, i: int)
    requires |abDone| == |cntNew| <= |cntOld|
  {
    && (forall p: nat | p < |cntNew| && abDone[p] == 0 && i <= 0 && p > -i :: cntOld[p - 1] < cntNew[p - 1])
    && (forall p: nat | p < |cntNew| && i <= 0 && p <= -i :: abDone[p] == 0)
    && (forall p: nat | p < |cntNew| && abDone[p] == 0 && i > 0 :: p >= i && cntOld[p - 1] < cntNew[p - 1])
  }

  function PageAt(i: int): nat { if i < 0 then -i else i }

  // Page iPg is rewritten on this visit.
  predicate Chosen(cntOld: seq<nat>, cntNew: seq<nat>, abDone: seq<nat>, i: int)
    requires |abDone| == |cntNew| <= |cntOld| && -|cntNew| < i < |cntNew|
  {
    abDone[PageAt(i)] == 0 && (i >= 0 || cntOld[PageAt(i) - 1] >= cntNew[PageAt(i) - 1])
  }

  lemma VisitedNext(cntOld: seq<nat>, cntNew: seq<nat>, abDone: seq<nat>, i: int)
    requires |abDone| == |cntNew| <= |cntOld| && -|cntNew| < i < |cntNew| && Visited(cntOld, cntNew, abDone, i)
    ensures !Chosen(cntOld, cntNew, abDone, i) ==> Visited(cntOld, cntNew, abDone, i + 1)
    ensures Chosen(cntOld, cntNew, abDone, i) ==> Visited(cntOld, cntNew, abDone[PageAt(i) := 1], i + 1)
  {
  }

  // The two conditions the code asserts before rewriting a page: cells moving left need iPg-1
  // done first, cells moving right need iPg+1 done first.
  lemma SafeToRewrite(ap: seq<Ptr>, cntOld: seq<nat>, cntNew: seq<nat>, d: nat, abDone: seq<nat>, i: int)
    requires |abDone| == |cntNew| <= |cntOld| && -|cntNew| < i < |cntNew| && Visited(cntOld, cntNew, abDone, i)
    requires Chosen(cntOld, cntNew, abDone, i) && Ascending(cntOld) && Ascending(cntNew)
    requires cntNew[|cntNew| - 1] == |ap| && forall p: nat | p < |cntOld| :: cntOld[p] <= |ap|
    requires forall c: nat | c < |ap| :: Sited(ap, cntOld, c)
    ensures var p := PageAt(i);
            && (p == 0 || cntOld[p - 1] >= cntNew[p - 1] || abDone[p - 1] != 0)
            && (cntNew[p] >= cntOld[p] || (p + 1 < |cntNew| && abDone[p + 1] != 0))
            && forall q: nat | q < |cntNew| && abDone[q] == 0 && q != p :: Spares(ap, cntNew, d, p, q)
  {
    hide Spares, Sited;
    var p := PageAt(i);
    assert p + 1 < |cntNew| && abDone[p + 1] == 0 ==> cntOld[p] < cntNew[p];
    forall q: nat | q < |cntNew| && abDone[q] == 0 && q != p ensures Spares(ap, cntNew, d, p, q) {
      if q < p { SparesLeft(ap, cntOld, cntNew, d, p, q); }
      else { SparesRight(ap, cntOld, cntNew, d, p, q); }
    }
  }

  /** The two passes over the pages. Every page is rewritten exactly once, and ends up
      holding its cells as they were before any page was touched. */
  method RewriteSiblings<T>(mem: array<seq<T>>, scratch: seq<T>, ap: seq<Ptr>, cntOld: seq<nat>, cntNew: seq<nat>,
                            d: nat)
    returns (abDone: seq<nat>)
    requires d <= 1 && 0 < |cntNew| <= |cntOld| == mem.Length && Ascending(cntOld) && Ascending(cntNew)
    requires forall p: nat | p < |cntNew| :: First(cntNew, d, p) <= cntNew[p]
    requires cntNew[|cntNew| - 1] == |ap| && forall p: nat | p < |cntOld| :: cntOld[p] <= |ap|
    requires forall c: nat | c < |ap| :: Sited(ap, cntOld, c) && Valid(mem[..], scratch, ap[c])
    modifies mem
    ensures |abDone| == |cntNew| && forall p: nat | p < |cntNew| :: abDone[p] == 1
    ensures forall p: nat | p < |cntNew| :: Holds(mem[p], old(mem[..]), scratch, ap, First(cntNew, d, p), cntNew[p])
    ensures forall p: nat | |cntNew| <= p < mem.Length :: mem[p] == old(mem[p])
  {
    hide Holds, Spares, Sited, Visited, Halfway, Ascending;
    var n := |cntNew|;
    ghost var mem0 := mem[..];
    abDone := seq(n, _ => 0);
    NothingVisited(cntOld, cntNew);
    Untouched(mem0, scratch, ap, cntNew, d);
    var i := 1 - n;
    while i < n
      invariant 1 - n <= i <= n && |abDone| == n
      invariant Visited(cntOld, cntNew, abDone, i)
      invariant Halfway(mem0, mem[..], scratch, ap, cntNew, d, abDone)
    {
      var iPg := PageAt(i);
      VisitedNext(cntOld, cntNew, abDone, i);
      if Chosen(cntOld, cntNew, abDone, i) {
        SafeToRewrite(ap, cntOld, cntNew, d, abDone, i);
        ghost var now := mem[..];
        EndsWithin(cntNew, |ap|, iPg);
        StillThere(mem0, now, scratch, ap, cntNew, d, abDone, iPg);
        var page := Gather(mem[..], scratch, ap, First(cntNew, d, iPg), cntNew[iPg]);
        Rewritten(mem0, now, scratch, ap, cntNew, d, abDone, iPg, page);
        mem[iPg] := page;
        assert mem[..] == now[iPg := page];
        abDone := abDone[iPg := abDone[iPg] + 1];
      }
      i := i + 1;
    }
    AllVisited(cntOld, cntNew, abDone);
    AllRewritten(mem0, mem[..], scratch, ap, cntNew, d, abDone);
  }

  lemma EndsWithin(cntNew: seq<nat>, n: nat, p: nat)
    requires Ascending(cntNew) && p < |cntNew| && cntNew[|cntNew| - 1] == n
    ensures cntNew[p] <= n
  {
    assert p < |cntNew| - 1 ==> cntNew[p] <= cntNew[|cntNew| - 1];
  }

  lemma Untouched<T>(mem: seq<seq<T>>, scratch: seq<T>, ap: seq<Ptr>, cntNew: seq<nat>, d: nat)
    requires |cntNew| <= |mem|
    ensures Halfway(mem, mem, scratch, ap, cntNew, d, seq(|cntNew|, _ => 0))
  {
  }

  lemma AllRewritten<T>(mem0: seq<seq<T>>, mem: seq<seq<T>>, scratch: seq<T>, ap: seq<Ptr>, cntNew: seq<nat>, d: nat,
                        abDone: seq<nat>)
    requires Halfway(mem0, mem, scratch, ap, cntNew, d, abDone) && forall p: nat | p < |cntNew| :: abDone[p] != 0
    ensures forall p: nat | p < |cntNew| :: abDone[p] == 1
    ensures forall p: nat | p < |cntNew| :: Holds(mem[p], mem0, scratch, ap, First(cntNew, d, p), cntNew[p])
    ensures forall p: nat | |cntNew| <= p < |mem| :: mem[p] == mem0[p]
  {
    hide Holds;
  }

  lemma NothingVisited(cntOld: seq<nat>, cntNew: seq<nat>)
    requires 0 < |cntNew| <= |cntOld|
    ensures Visited(cntOld, cntNew, seq(|cntNew|, _ => 0), 1 - |cntNew|)
  {
  }

  lemma AllVisited(cntOld: seq<nat>, cntNew: seq<nat>, abDone: seq<nat>)
    requires 0 < |abDone| == |cntNew| <= |cntOld| && Visited(cntOld, cntNew, abDone, |cntNew|)
    ensures forall p: nat | p < |cntNew| :: abDone[p] != 0
  {
  }
}
