/** Balancing sibling pages: choosing how many cells each page gets, and then rewriting the pages in place. */
module Balance {
  import P = BalancePacking
  import O = BalanceOrder

  function Nats(s: seq<int>): (r: seq<nat>)
    requires forall j | 0 <= j < |s| :: 0 <= s[j]
    ensures |r| == |s| && forall j | 0 <= j < |s| :: r[j] == s[j]
  {
    seq(|s|, j requires 0 <= j < |s| => s[j])
  }

  // The old boundaries, continued for pages that are new.
  function Extended(cntOld: seq<int>, n: nat, total: nat): (r: seq<nat>)
    requires forall j | 0 <= j < |cntOld| :: 0 <= cntOld[j]
    ensures |r| == n && forall j | 0 <= j < n :: r[j] == if j < |cntOld| then cntOld[j] else total
  {
    seq(n, j requires 0 <= j < n => if j < |cntOld| then cntOld[j] else total)
  }

  /** A division chosen by packing is one the rewriting can carry out. */
  lemma DivisionRewritable(cell: seq<nat>, d: nat, usable: nat, b: seq<int>)
    requires d <= 1 && P.Division(cell, d, usable, b)
    ensures forall j | 0 <= j < |b| :: 0 <= b[j] <= |cell|
    ensures O.Ascending(Nats(b)) && (forall p: nat | p < |b| :: O.First(Nats(b), d, p) <= b[p]) && b[|b| - 1] == |cell|
  {
    hide P.Span;
    forall j: nat | j < |b| ensures 0 <= P.Start(b, d, j) <= b[j] <= |cell| { P.DivisionBounds(cell, d, usable, b, j); }
    forall i: nat, j: nat | i < j < |b| ensures b[i] <= b[j] { Rising(cell, d, usable, b, i, j); }
  }

  lemma {:induction false} Rising(cell: seq<nat>, d: nat, usable: nat, b: seq<int>, i: nat, j: nat)
    requires P.Division(cell, d, usable, b) && i < j < |b|
    ensures b[i] <= b[j]
  {
    assert P.Start(b, d, j) <= b[j];
    if i < j - 1 { Rising(cell, d, usable, b, i, j - 1); }
  }

  // Packing, in the form the rewriting wants.
  method ChoosePages(size: seq<nat>, leafData: bool, usable: nat, bulk: bool, cntOld: seq<int>, szOld: seq<int>)
    returns (ok: bool, cnt: seq<nat>, ghost g: seq<int>)
    requires 1 <= |cntOld| <= P.NB && |szOld| == |cntOld| && cntOld[|cntOld| - 1] == |size|
    requires forall j: nat | j < |cntOld| :: 0 <= cntOld[j] <= |size|
    requires P.Sizes(size, if leafData then 0 else 1, |cntOld|, cntOld, szOld)
    requires forall c | c in size :: 2 + c <= usable
    ensures ok <==> P.Divisible(size, if leafData then 0 else 1, usable)
    ensures ok ==> P.Chosen(size, if leafData then 0 else 1, usable, bulk, g, cnt) && 1 <= |cnt| <= 5
    ensures ok ==> O.Ascending(cnt) && cnt[|cnt| - 1] == |size|
    ensures ok ==> forall p: nat | p < |cnt| :: O.First(cnt, if leafData then 0 else 1, p) <= cnt[p]
  {
    hide P.Sizes, P.Chosen, P.Division;
    var p;
    p, g := P.Pack(size, leafData, usable, bulk, cntOld, szOld);
    ok, cnt := p.Pages?, [];
    if ok {
      var b := p.cnt[..p.k];
      DivisionRewritable(size, if leafData then 0 else 1, usable, b);
      cnt := Nats(b);
      assert b == cnt;
    }
  }

  /** Either no division fits and nothing is touched, or every page ends up with exactly its share of the cells. */
  method BalanceSiblings<T>(mem: array<seq<T>>, scratch: seq<T>, ap: seq<O.Ptr>, size: seq<nat>, leafData: bool,
                            usable: nat, bulk: bool,
                            cntOld: seq<int>, szOld: seq<int>)
    returns (ok: bool, cnt: seq<nat>, ghost g: seq<int>)
    requires 1 <= |cntOld| <= P.NB && |szOld| == |cntOld| && cntOld[|cntOld| - 1] == |size| == |ap|
             && P.MAX_PAGES <= mem.Length
    requires forall j: nat | j < |cntOld| :: 0 <= cntOld[j] <= |ap|
    requires forall i: nat, j: nat | i < j < |cntOld| :: cntOld[i] <= cntOld[j]
    requires P.Sizes(size, if leafData then 0 else 1, |cntOld|, cntOld, szOld) && forall c | c in size ::
               2 + c <= usable
    requires forall c: nat | c < |ap| ::
               O.Sited(ap, Extended(cntOld, mem.Length, |ap|), c)
               && O.Valid(mem[..], scratch, ap[c])
    modifies mem
    ensures ok <==> P.Divisible(size, if leafData then 0 else 1, usable)
    ensures !ok ==> mem[..] == old(mem[..])
    ensures ok ==> P.Chosen(size, if leafData then 0 else 1, usable, bulk, g, cnt) && |cnt| <= 5
    ensures ok ==> forall p: nat | p < |cnt| ::
      O.Holds(mem[p], old(mem[..]), scratch, ap, O.First(cnt, if leafData then 0 else 1, p), cnt[p])
  {
    hide P.Sizes, P.Chosen, P.Divisible, O.Holds, O.Sited, O.Valid, O.Ascending;
    var d := if leafData then 0 else 1;
    ok, cnt, g := ChoosePages(size, leafData, usable, bulk, cntOld, szOld);
    if ok {
      var was := Extended(cntOld, mem.Length, |ap|);
      ExtendedAscends(cntOld, mem.Length, |ap|);
      var done := O.RewriteSiblings(mem, scratch, ap, was, cnt, d);
    }
  }

  lemma ExtendedAscends(cntOld: seq<int>, n: nat, total: nat)
    requires forall j: nat | j < |cntOld| :: 0 <= cntOld[j] <= total
    requires forall i: nat, j: nat | i < j < |cntOld| :: cntOld[i] <= cntOld[j]
    ensures O.Ascending(Extended(cntOld, n, total))
  {
  }
}
