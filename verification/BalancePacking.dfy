/** The packing passes of balance_nonroot: how the cells of up to three sibling
    pages are divided over at most NB+2 pages. */
module BalancePacking {

  // The outcome of packing: the number of pages, where each one ends, and how many bytes it holds.
  datatype Packing = Corrupt | Pages(k: nat, cnt: seq<int>, sz: seq<int>)

  const NB: nat := 3
  const MAX_PAGES: nat := NB + 2

  // Bytes taken by cells 0..x-1 and their pointers; the position past the last cell weighs nothing.
  ghost function Pre(cell: seq<nat>, x: int): nat {
    if x <= 0 then 0
    else if x > |cell| then Pre(cell, |cell|)
    else Pre(cell, x - 1) + 2 + cell[x - 1]
  }

  lemma PreStep(cell: seq<nat>, x: nat)
    ensures x < |cell| ==> Pre(cell, x + 1) == Pre(cell, x) + 2 + cell[x]
    ensures x == |cell| ==> Pre(cell, x + 1) == Pre(cell, x)
  {
  }

  lemma {:induction false} PreMonotone(cell: seq<nat>, x: nat, y: nat)
    requires x <= y <= |cell| + 1
    ensures Pre(cell, x) <= Pre(cell, y)
    ensures x < y <= |cell| ==> Pre(cell, x) < Pre(cell, y)
    decreases y - x
  {
    if x < y {
      PreMonotone(cell, x, y - 1);
      PreStep(cell, y - 1);
    }
  }

  // Bytes of cells x..y-1, negative when y < x.
  ghost function Span(cell: seq<nat>, x: int, y: int): int { Pre(cell, y) - Pre(cell, x) }

  // First cell of page j: a divider (d == 1) sits between consecutive pages unless the leaves carry the data.
  function Start(cnt: seq<int>, d: nat, j: nat): int
    requires j <= |cnt|
  {
    if j == 0 then 0 else cnt[j - 1] + d
  }

  // szNew[] agrees with cntNew[] on the first k pages, as signed differences.
  ghost predicate Sizes(cell: seq<nat>, d: nat, k: nat, cnt: seq<int>, sz: seq<int>) {
    && k <= |cnt| == |sz|
    && forall j: nat {:trigger Start(cnt, d, j)} | j < k :: sz[j] == Span(cell, Start(cnt, d, j), cnt[j])
  }

  // The boundaries b divide all cells over |b| pages that fit, none empty unless there is just one page.
  ghost predicate Division(cell: seq<nat>, d: nat, usable: nat, b: seq<int>) {
    && 0 < |b| && b[|b| - 1] == |cell|
    && (forall j: nat {:trigger Start(b, d, j)} | j < |b| ::
          Start(b, d, j) <= b[j] && Span(cell, Start(b, d, j), b[j]) <= usable)
    && (|b| > 1 ==> forall j: nat {:trigger Start(b, d, j)} | j < |b| :: Start(b, d, j) < b[j])
  }

  ghost predicate Divisible(cell: seq<nat>, d: nat, usable: nat) {
    exists b: seq<int> :: |b| <= MAX_PAGES && Division(cell, d, usable, b)
  }

  // Page j could not take one more cell.
  ghost predicate Full(cell: seq<nat>, d: nat, usable: nat, cnt: seq<int>, j: nat)
    requires j < |cnt|
  {
    0 <= cnt[j] < |cell| && Span(cell, Start(cnt, d, j), cnt[j] + 1) > usable
  }

  // Pages 0..i-1 packed from the left: each fits, holds a cell and is full.
  ghost predicate Packed(cell: seq<nat>, d: nat, usable: nat, cnt: seq<int>, i: nat) {
    && i <= |cnt|
    && forall j: nat {:trigger Start(cnt, d, j)} | j < i ::
         && 0 <= Start(cnt, d, j) < cnt[j] < |cell|
         && Span(cell, Start(cnt, d, j), cnt[j]) <= usable
         && Full(cell, d, usable, cnt, j)
  }

  // Packing from the left gets at least as far as any division.
  lemma {:induction false} PackedIsAhead(cell: seq<nat>, d: nat, usable: nat, cnt: seq<int>, i: nat, b: seq<int>,
                                         j: nat)
    requires d <= 1 && Packed(cell, d, usable, cnt, i) && Division(cell, d, usable, b)
    requires j < i && j < |b|
    ensures b[j] <= cnt[j] && j + 1 < |b|
    decreases j
  {
    if j > 0 { PackedIsAhead(cell, d, usable, cnt, i, b, j - 1); }
    DivisionBounds(cell, d, usable, b, j);
    var s, t := Start(cnt, d, j), Start(b, d, j);
    assert Full(cell, d, usable, cnt, j);
    PreMonotone(cell, t, s);
    if cnt[j] < b[j] { PreMonotone(cell, cnt[j] + 1, b[j]); }
  }

  lemma {:induction false} DivisionBounds(cell: seq<nat>, d: nat, usable: nat, b: seq<int>, j: nat)
    requires Division(cell, d, usable, b) && j < |b|
    ensures 0 <= Start(b, d, j) <= b[j] <= |cell|
  {
    DivisionLow(cell, d, usable, b, j);
    DivisionHigh(cell, d, usable, b, j);
  }

  lemma {:induction false} DivisionLow(cell: seq<nat>, d: nat, usable: nat, b: seq<int>, j: nat)
    requires Division(cell, d, usable, b) && j < |b|
    ensures 0 <= Start(b, d, j)
  {
    if j > 0 { DivisionLow(cell, d, usable, b, j - 1); }
  }

  lemma {:induction false} DivisionHigh(cell: seq<nat>, d: nat, usable: nat, b: seq<int>, j: nat)
    requires Division(cell, d, usable, b) && j < |b|
    ensures b[j] <= |cell|
    decreases |b| - j
  {
    if j + 1 < |b| {
      DivisionHigh(cell, d, usable, b, j + 1);
      assert Start(b, d, j + 1) == b[j] + d;
    }
  }

  // If MAX_PAGES-1 packed pages leave more than a page of cells, no division exists.
  lemma TooManyPages(cell: seq<nat>, d: nat, usable: nat, cnt: seq<int>)
    requires d <= 1 && |cnt| == MAX_PAGES && Packed(cell, d, usable, cnt, MAX_PAGES - 1)
    requires Span(cell, Start(cnt, d, MAX_PAGES - 1), |cell|) > usable
    ensures !Divisible(cell, d, usable)
  {
    forall b: seq<int> | |b| <= MAX_PAGES && Division(cell, d, usable, b) ensures false {
      var l := MAX_PAGES - 1;
      if |b| <= l {
        PackedIsAhead(cell, d, usable, cnt, l, b, |b| - 1);
      } else {
        PackedIsAhead(cell, d, usable, cnt, l, b, l - 1);
        DivisionBounds(cell, d, usable, b, l);
        PreMonotone(cell, Start(b, d, l), Start(cnt, d, l));
      }
    }
  }

  // cntNew[] and szNew[] while k pages are in use.
  ghost predicate Working(cell: seq<nat>, d: nat, k: nat, cnt: seq<int>, sz: seq<int>) {
    && 1 <= k <= MAX_PAGES == |cnt| == |sz| && cnt[k - 1] == |cell|
    && Sizes(cell, d, k, cnt, sz)
    && forall j: nat | j < k :: 0 <= cnt[j] <= |cell|
  }

  // Shifting the end of page i by one cell moves bytes between pages i and i+1 only.
  lemma MoveEnd(cell: seq<nat>, d: nat, k: nat, cnt: seq<int>, sz: seq<int>, i: nat, e: int)
    requires d <= 1 && Working(cell, d, k, cnt, sz) && i + 1 < k && 0 <= e <= |cell|
    ensures var cnt' := cnt[i := e];
            var sz' := sz[i := sz[i] + Span(cell, cnt[i], e)][i + 1 := sz[i + 1] - Span(cell, cnt[i] + d, e + d)];
            Working(cell, d, k, cnt', sz')
  {
    var cnt' := cnt[i := e];
    var sz' := sz[i := sz[i] + Span(cell, cnt[i], e)][i + 1 := sz[i + 1] - Span(cell, cnt[i] + d, e + d)];
    forall j: nat | j < k ensures sz'[j] == Span(cell, Start(cnt', d, j), cnt'[j]) {
      assert sz[j] == Span(cell, Start(cnt, d, j), cnt[j]);
    }
  }

  // An empty page after the last one.
  lemma AddPage(cell: seq<nat>, d: nat, k: nat, cnt: seq<int>, sz: seq<int>)
    requires d <= 1 && Working(cell, d, k, cnt, sz) && k < MAX_PAGES
    ensures Working(cell, d, k + 1, cnt[k := |cell|], sz[k := 0])
  {
    var cnt', sz' := cnt[k := |cell|], sz[k := 0];
    PreStep(cell, |cell|);
    forall j: nat | j < k + 1 ensures sz'[j] == Span(cell, Start(cnt', d, j), cnt'[j]) {
      if j < k { assert sz[j] == Span(cell, Start(cnt, d, j), cnt[j]); }
    }
  }

  lemma OverfullHasCell(cell: seq<nat>, d: nat, usable: nat, k: nat, cnt0: seq<int>, cnt: seq<int>, sz: seq<int>,
                        i: nat)
    requires d <= 1 && Working(cell, d, k, cnt, sz) && i < k && sz[i] > usable
    requires Packed(cell, d, usable, cnt0, i) && |cnt0| == |cnt| && Start(cnt0, d, i) == Start(cnt, d, i)
    ensures 0 <= Start(cnt, d, i) < cnt[i] && sz[i] == Span(cell, Start(cnt, d, i), cnt[i])
  {
    assert sz[i] == Span(cell, Start(cnt, d, i), cnt[i]);
    if i > 0 { assert Start(cnt0, d, i - 1) < cnt0[i - 1]; }
    if cnt[i] <= Start(cnt, d, i) { PreMonotone(cell, cnt[i], Start(cnt, d, i)); }
  }

  // Move cells off the end of page i until it fits, opening a new page when there is none to its right.
  method Shed(cell: seq<nat>, d: nat, usable: nat, i: nat, k0: nat, cnt0: seq<int>, sz0: seq<int>)
    returns (corrupt: bool, k: nat, cnt: seq<int>, sz: seq<int>)
    requires d <= 1 && Working(cell, d, k0, cnt0, sz0) && i < k0 && Packed(cell, d, usable, cnt0, i)
    ensures corrupt ==> !Divisible(cell, d, usable)
    ensures !corrupt ==> Working(cell, d, k, cnt, sz) && i < k && cnt[..i] == cnt0[..i] && sz[i] <= usable
  {
    k, cnt, sz := k0, cnt0, sz0;
    corrupt := false;
    while sz[i] > usable
      invariant i < k && Working(cell, d, k, cnt, sz) && cnt[..i] == cnt0[..i]
      decreases cnt[i]
    {
      StartKept(cnt0, cnt, d, i);
      OverfullHasCell(cell, d, usable, k, cnt0, cnt, sz, i);
      if i + 1 >= k {
        k := i + 2;
        if k > MAX_PAGES {
          assert Start(cnt, d, i) == Start(cnt0, d, i);
          TooManyPages(cell, d, usable, cnt0);
          corrupt := true;
          return;
        }
        AddPage(cell, d, k - 1, cnt, sz);
        sz := sz[k - 1 := 0];
        cnt := cnt[k - 1 := |cell|];
      }
      cnt, sz := ShedOne(cell, d, k, cnt, sz, i);
    }
  }

  // The last cell of page i leaves it; the next page gains that cell, or the old divider when there is one.
  method ShedOne(cell: seq<nat>, d: nat, k: nat, cnt0: seq<int>, sz0: seq<int>, i: nat)
    returns (cnt: seq<int>, sz: seq<int>)
    requires d <= 1 && Working(cell, d, k, cnt0, sz0) && i + 1 < k && 0 < cnt0[i]
    ensures Working(cell, d, k, cnt, sz) && cnt == cnt0[i := cnt0[i] - 1]
  {
    hide Sizes;
    var c := cnt0[i];
    PreStep(cell, c - 1);
    PreStep(cell, c);
    MoveEnd(cell, d, k, cnt0, sz0, i, c - 1);
    var w := 2 + cell[c - 1];
    sz := sz0[i := sz0[i] - w];
    if d == 1 {
      w := if c < |cell| then 2 + cell[c] else 0;
    }
    sz := sz[i + 1 := sz[i + 1] + w];
    cnt := cnt0[i := c - 1];
  }

  lemma StartKept(cnt: seq<int>, cnt': seq<int>, d: nat, i: nat)
    requires i <= |cnt| == |cnt'| && cnt[..i] == cnt'[..i]
    ensures Start(cnt, d, i) == Start(cnt', d, i)
  {
    if i > 0 { assert cnt[i - 1] == cnt[..i][i - 1] == cnt'[..i][i - 1]; }
  }

  // Pull cells onto page i for as long as they fit.
  method Pull(cell: seq<nat>, d: nat, usable: nat, i: nat, k: nat, cnt0: seq<int>, sz0: seq<int>)
    returns (cnt: seq<int>, sz: seq<int>)
    requires d <= 1 && Working(cell, d, k, cnt0, sz0) && i < k && sz0[i] <= usable
    ensures Working(cell, d, k, cnt, sz) && cnt[..i] == cnt0[..i] && sz[i] <= usable
    ensures cnt[i] < |cell| ==> Full(cell, d, usable, cnt, i)
  {
    cnt, sz := cnt0, sz0;
    while cnt[i] < |cell|
      invariant Working(cell, d, k, cnt, sz) && cnt[..i] == cnt0[..i] && sz[i] <= usable
      decreases |cell| - cnt[i]
    {
      var c := cnt[i];
      PreStep(cell, c);
      PreStep(cell, c + 1);
      var w := 2 + cell[c];
      assert sz[i] == Span(cell, Start(cnt, d, i), c);
      if sz[i] + w > usable { break; }
      MoveEnd(cell, d, k, cnt, sz, i, c + 1);
      sz := sz[i := sz[i] + w];
      cnt := cnt[i := c + 1];
      if d == 1 {
        w := if c + 1 < |cell| then 2 + cell[c + 1] else 0;
      }
      sz := sz[i + 1 := sz[i + 1] - w];
    }
  }

  // The packing is complete and biased to the left.
  ghost predicate LeftPacked(cell: seq<nat>, d: nat, usable: nat, p: Packing) {
    && p.Pages? && Working(cell, d, p.k, p.cnt, p.sz)
    && Packed(cell, d, usable, p.cnt, p.k - 1) && p.sz[p.k - 1] <= usable
  }

  /** The first packing loop: fill the siblings from the left. */
  method PackLeft(cell: seq<nat>, d: nat, usable: nat, cntOld: seq<int>, szOld: seq<int>) returns (p: Packing)
    requires d <= 1 && 1 <= |cntOld| <= NB && |szOld| == |cntOld| && cntOld[|cntOld| - 1] == |cell|
    requires (forall j: nat | j < |cntOld| :: 0 <= cntOld[j] <= |cell|) && Sizes(cell, d, |cntOld|, cntOld, szOld)
    requires forall c | c in cell :: 2 + c <= usable
    ensures p.Corrupt? ==> !Divisible(cell, d, usable)
    ensures p.Pages? ==> LeftPacked(cell, d, usable, p)
  {
    var k, cnt, sz := |cntOld|, Padded(cntOld), Padded(szOld);
    PaddedWorking(cell, d, cntOld, szOld);
    var i := 0;
    while i < k
      invariant 0 <= i <= k && Working(cell, d, k, cnt, sz)
      invariant i < k ==> Packed(cell, d, usable, cnt, i)
      invariant i == k ==> Packed(cell, d, usable, cnt, i - 1) && sz[i - 1] <= usable
      decreases MAX_PAGES - i
    {
      ghost var cnt0 := cnt;
      var corrupt;
      corrupt, k, cnt, sz := Shed(cell, d, usable, i, k, cnt, sz);
      if corrupt { return Corrupt; }
      cnt, sz := Pull(cell, d, usable, i, k, cnt, sz);
      PackedKept(cell, d, usable, cnt0, cnt, i);
      if cnt[i] >= |cell| {
        k := i + 1;
        WorkingShorter(cell, d, cnt, sz, i + 1);
      } else {
        FullHasCell(cell, d, usable, k, cnt, sz, i);
        if cnt[i] <= (if i > 0 then cnt[i - 1] else 0) {
          assert false;
          return Corrupt;
        }
        PackedMore(cell, d, usable, k, cnt, sz, i);
      }
      i := i + 1;
    }
    p := Pages(k, cnt, sz);
  }

  function Padded(s: seq<int>): (r: seq<int>)
    requires |s| <= MAX_PAGES
    ensures |r| == MAX_PAGES && forall j | 0 <= j < |s| :: r[j] == s[j]
  {
    s + seq(MAX_PAGES - |s|, _ => 0)
  }

  lemma PaddedWorking(cell: seq<nat>, d: nat, cnt: seq<int>, sz: seq<int>)
    requires d <= 1 && 1 <= |cnt| <= MAX_PAGES && |sz| == |cnt| && cnt[|cnt| - 1] == |cell|
    requires (forall j: nat | j < |cnt| :: 0 <= cnt[j] <= |cell|) && Sizes(cell, d, |cnt|, cnt, sz)
    ensures Working(cell, d, |cnt|, Padded(cnt), Padded(sz))
  {
    forall j: nat | j < |cnt| ensures Padded(sz)[j] == Span(cell, Start(Padded(cnt), d, j), Padded(cnt)[j]) {
      assert sz[j] == Span(cell, Start(cnt, d, j), cnt[j]);
    }
  }

  lemma PackedKept(cell: seq<nat>, d: nat, usable: nat, cnt: seq<int>, cnt': seq<int>, i: nat)
    requires Packed(cell, d, usable, cnt, i) && i <= |cnt| == |cnt'| && cnt[..i] == cnt'[..i]
    ensures Packed(cell, d, usable, cnt', i)
  {
    assert forall j | 0 <= j < i :: cnt[j] == cnt[..i][j] == cnt'[j];
    forall j: nat | j < i
      ensures 0 <= Start(cnt', d, j) < cnt'[j] < |cell| && Span(cell, Start(cnt', d, j), cnt'[j]) <= usable
              && Full(cell, d, usable, cnt', j)
    {
      assert Start(cnt, d, j) == Start(cnt', d, j);
    }
  }

  lemma WorkingShorter(cell: seq<nat>, d: nat, cnt: seq<int>, sz: seq<int>, k: nat)
    requires exists l: nat :: k <= l && Working(cell, d, l, cnt, sz)
    requires 1 <= k && cnt[k - 1] == |cell|
    ensures Working(cell, d, k, cnt, sz)
  {
  }

  // A page that could not take one more cell holds one already, since every cell fits on a page.
  lemma FullHasCell(cell: seq<nat>, d: nat, usable: nat, k: nat, cnt: seq<int>, sz: seq<int>, i: nat)
    requires d <= 1 && Working(cell, d, k, cnt, sz) && i < k && Packed(cell, d, usable, cnt, i)
    requires Full(cell, d, usable, cnt, i) && forall c | c in cell :: 2 + c <= usable
    ensures 0 <= Start(cnt, d, i) < cnt[i]
  {
    if i > 0 { assert 0 <= Start(cnt, d, i - 1) < cnt[i - 1] < |cell|; }
    PreStep(cell, cnt[i]);
    assert cell[cnt[i]] in cell;
    if cnt[i] <= Start(cnt, d, i) { PreMonotone(cell, cnt[i], Start(cnt, d, i)); }
  }

  lemma PackedMore(cell: seq<nat>, d: nat, usable: nat, k: nat, cnt: seq<int>, sz: seq<int>, i: nat)
    requires d <= 1 && Working(cell, d, k, cnt, sz) && i < k && Packed(cell, d, usable, cnt, i)
    requires Full(cell, d, usable, cnt, i) && sz[i] <= usable && 0 <= Start(cnt, d, i) < cnt[i] < |cell|
    ensures i + 1 < k && Packed(cell, d, usable, cnt, i + 1)
  {
    forall j: nat | j < i + 1
      ensures 0 <= Start(cnt, d, j) < cnt[j] < |cell| && Span(cell, Start(cnt, d, j), cnt[j]) <= usable
              && Full(cell, d, usable, cnt, j)
    {
      assert sz[j] == Span(cell, Start(cnt, d, j), cnt[j]);
    }
  }

  // ---------- the second pass: spread the cells more evenly ----------

  // Page j of the left packing g holds exactly one cell.
  ghost predicate Single(d: nat, g: seq<int>, j: nat)
    requires j < |g|
  {
    Start(g, d, j) + 1 == g[j]
  }

  // Why page i may be empty: there are dividers, the last page was left empty, and
  // every page from i on gave up its only cell.
  ghost predicate Drained(cell: seq<nat>, d: nat, g: seq<int>, k: nat, i: nat) {
    && d == 1 && 2 <= k <= |g| && i < k && g[k - 2] + 1 == |cell|
    && forall j: nat | i <= j < k - 1 :: Single(d, g, j)
  }

  // Pages i and up are final except that page i may be empty; pages below i are as first packed (g).
  ghost predicate Spreading(cell: seq<nat>, d: nat, usable: nat, g: seq<int>, k: nat, i: nat, cnt: seq<int>,
                            sz: seq<int>) {
    && i < k && |g| == MAX_PAGES && Working(cell, d, k, cnt, sz)
    && Packed(cell, d, usable, g, k - 1) && cnt[..i] == g[..i]
    && (forall j: nat | i <= j < k :: sz[j] <= usable)
    && (forall j: nat {:trigger Start(cnt, d, j)} | i < j < k :: Start(cnt, d, j) < cnt[j])
    && Start(cnt, d, i) <= cnt[i]
    && (Start(cnt, d, i) == cnt[i] && k > 1 ==> Drained(cell, d, g, k, i))
  }

  // The page to the left of page i is still as first packed.
  lemma LeftPage(cell: seq<nat>, d: nat, usable: nat, g: seq<int>, k: nat, i: nat, cnt: seq<int>, sz: seq<int>)
    requires 0 < i < k && Spreading(cell, d, usable, g, k, i, cnt, sz)
    ensures Start(cnt, d, i - 1) == Start(g, d, i - 1) && cnt[i - 1] == g[i - 1]
    ensures 0 <= Start(cnt, d, i - 1) < cnt[i - 1] < |cell| && sz[i - 1] <= usable
    ensures sz[i - 1] == Span(cell, Start(cnt, d, i - 1), cnt[i - 1])
    ensures sz[i] == Span(cell, cnt[i - 1] + d, cnt[i]) && cnt[i - 1] + d == Start(cnt, d, i)
  {
    assert forall j | 0 <= j < i :: cnt[j] == cnt[..i][j] == g[j];
    assert 0 <= Start(g, d, i - 1) < g[i - 1];
    assert sz[i - 1] == Span(cell, Start(cnt, d, i - 1), cnt[i - 1]);
    assert sz[i] == Span(cell, Start(cnt, d, i), cnt[i]);
  }

  // What moving one cell across the boundary e between pages [s,e) and [e+d,z) costs.
  lemma Costs(cell: seq<nat>, d: nat, s: int, e: int, z: int)
    requires d <= 1 && 0 <= s <= e && e + d <= z <= |cell| && 0 < e && (e + d < z || d == 0 || e < |cell|)
    ensures Span(cell, s, e - 1) == Span(cell, s, e) - (cell[e - 1] + 2)
    ensures Span(cell, e - 1 + d, z) == Span(cell, e + d, z) + cell[e - 1 + d] + 2
    ensures Span(cell, e + d, z) >= 0 && (Span(cell, e + d, z) == 0 <==> e + d == z)
    ensures s <= e - 1 && Span(cell, s, e - 1) > 0 ==> s < e - 1
    ensures s == e ==> Span(cell, s, e) == 0
  {
    PreStep(cell, e - 1);
    PreStep(cell, e - 1 + d);
    PreMonotone(cell, e + d, z);
  }

  /** The inner loop of the second pass: hand the last cell of page [s,e) to page [e+d,z) while that page is empty or,
      outside bulk loads, does not come out larger than what the left page keeps. */
  method HandOver(cell: seq<nat>, d: nat, usable: nat, bulk: bool, last: bool, ghost s: int, e0: int, ghost z: int,
                  szLeft0: int, szRight0: int) returns (e: int, szLeft: int, szRight: int)
    requires d <= 1 && 0 <= s < e0 < |cell| && e0 + d <= z <= |cell| && forall c | c in cell :: 2 + c <= usable
    requires szLeft0 == Span(cell, s, e0) <= usable && szRight0 == Span(cell, e0 + d, z) <= usable
    ensures s <= e <= e0 && e + d < z
    ensures szLeft == Span(cell, s, e) <= usable && 0 < szRight == Span(cell, e + d, z) <= usable
    ensures e == s ==> s + 1 == e0 && e0 + d == z
    ensures !bulk && e > 0 ==> szRight + cell[e - 1 + d] + 2 > szLeft - (cell[e - 1] + if last then 0 else 2)
    ensures !bulk ==> forall c | e < c <= e0 && c + d < z ::
              Span(cell, c + d, z) + cell[c - 1 + d] + 2 <= Span(cell, s, c) - (cell[c - 1] + if last then 0 else 2)
    ensures bulk && e < e0 ==> e == e0 - 1 && e0 + d == z
  {
    e, szLeft, szRight := e0, szLeft0, szRight0;
    var r := e0 - 1;
    var dd := r + d;
    while r >= 0
      invariant r == e - 1 && dd == r + d && s <= e <= e0 && e + d <= z
      invariant szRight == Span(cell, e + d, z) <= usable && szLeft == Span(cell, s, e) <= usable
      invariant e < e0 ==> e + d < z
      invariant e == s ==> s + 1 == e0 && e0 + d == z
      invariant !bulk ==> forall c | e < c <= e0 && c + d < z ::
                  Span(cell, c + d, z) + cell[c - 1 + d] + 2 <= Span(cell, s, c) - (cell[c - 1] + if last then 0 else 2)
      invariant bulk && e < e0 ==> e == e0 - 1 && e0 + d == z
      decreases r
    {
      Costs(cell, d, s, e, z);
      var szR, szD := cell[r], cell[dd];
      assert szD in cell;
      if szRight != 0 && (bulk || szRight + szD + 2 > szLeft - (szR + if last then 0 else 2)) { break; }
      szRight := szRight + szD + 2;
      szLeft := szLeft - (szR + 2);
      e := r;
      r := r - 1;
      dd := dd - 1;
    }
    PreMonotone(cell, e + d, z);
  }

  // Even out pages i-1 and i; a page left empty always receives a cell.
  method Even(cell: seq<nat>, d: nat, usable: nat, bulk: bool, k: nat, i: nat, cnt0: seq<int>, sz0: seq<int>,
              ghost g: seq<int>)
    returns (cnt: seq<int>, sz: seq<int>)
    requires d <= 1 && 0 < i < k && Spreading(cell, d, usable, g, k, i, cnt0, sz0)
    requires forall c | c in cell :: 2 + c <= usable
    ensures Spreading(cell, d, usable, g, k, i - 1, cnt, sz)
    ensures cnt == cnt0[i - 1 := cnt[i - 1]] && cnt[i - 1] <= cnt0[i - 1] == g[i - 1] < |cell|
    ensures cnt[i - 1] > 0 ==> Settled(cell, d, bulk, g, k, i, cnt)
  {
    LeftPage(cell, d, usable, g, k, i, cnt0, sz0);
    ghost var s, z := Start(cnt0, d, i - 1), cnt0[i];
    var e, szLeft, szRight := HandOver(cell, d, usable, bulk, i == k - 1, s, cnt0[i - 1], z, sz0[i - 1], sz0[i]);
    cnt := cnt0[i - 1 := e];
    sz := sz0[i := szRight][i - 1 := szLeft];
    Evened(cell, d, usable, g, k, i, cnt0, sz0, e, cnt, sz);
  }

  // The end of page i-1 as the second pass leaves it, when the first pass ended the pages at g.
  ghost predicate Settled(cell: seq<nat>, d: nat, bulk: bool, g: seq<int>, k: nat, i: nat, cnt: seq<int>) {
    && d <= 1 && 0 < i < k <= |cnt| && k <= |g| && 0 < cnt[i - 1] <= g[i - 1] < |cell|
    && cnt[i - 1] + d < cnt[i]
    && var s, e, z, last := Start(g, d, i - 1), cnt[i - 1], cnt[i], if i == k - 1 then 0 else 2;
       && (bulk && e < g[i - 1] ==> e == g[i - 1] - 1 && g[i - 1] + d == z)
       && (!bulk ==>
             && Span(cell, e + d, z) + cell[e - 1 + d] + 2 > Span(cell, s, e) - (cell[e - 1] + last)
             && forall c | e < c <= g[i - 1] && c + d < z ::
                  Span(cell, c + d, z) + cell[c - 1 + d] + 2 <= Span(cell, s, c) - (cell[c - 1] + last))
  }

  lemma DrainedMore(cell: seq<nat>, d: nat, g: seq<int>, k: nat, i: nat)
    requires 0 < i && Drained(cell, d, g, k, i) && Single(d, g, i - 1)
    ensures Drained(cell, d, g, k, i - 1)
  {
  }

  lemma EvenedSizes(cell: seq<nat>, d: nat, usable: nat, g: seq<int>, k: nat, i: nat, cnt0: seq<int>, sz0: seq<int>,
                    e: int, cnt: seq<int>, sz: seq<int>)
    requires d <= 1 && 0 < i < k && Spreading(cell, d, usable, g, k, i, cnt0, sz0)
    requires Start(cnt0, d, i - 1) <= e <= cnt0[i - 1] && e + d < cnt0[i] && cnt == cnt0[i - 1 := e]
    requires sz == sz0[i := Span(cell, e + d, cnt0[i])][i - 1 := Span(cell, Start(cnt0, d, i - 1), e)]
    ensures Working(cell, d, k, cnt, sz)
  {
    hide Span, Packed, Drained;
    LeftPage(cell, d, usable, g, k, i, cnt0, sz0);
    forall j: nat | j < k ensures sz[j] == Span(cell, Start(cnt, d, j), cnt[j]) {
      assert sz0[j] == Span(cell, Start(cnt0, d, j), cnt0[j]);
    }
  }

  lemma Evened(cell: seq<nat>, d: nat, usable: nat, g: seq<int>, k: nat, i: nat, cnt0: seq<int>, sz0: seq<int>,
               e: int, cnt: seq<int>, sz: seq<int>)
    requires d <= 1 && 0 < i < k && Spreading(cell, d, usable, g, k, i, cnt0, sz0)
    requires Start(cnt0, d, i - 1) <= e <= cnt0[i - 1] && e + d < cnt0[i] && cnt == cnt0[i - 1 := e]
    requires Span(cell, e + d, cnt0[i]) <= usable && Span(cell, Start(cnt0, d, i - 1), e) <= usable
    requires sz == sz0[i := Span(cell, e + d, cnt0[i])][i - 1 := Span(cell, Start(cnt0, d, i - 1), e)]
    requires e == Start(cnt0, d, i - 1) ==> Single(d, g, i - 1) && Start(cnt0, d, i) == cnt0[i]
    ensures Spreading(cell, d, usable, g, k, i - 1, cnt, sz)
  {
    hide Span, Packed, Drained;
    LeftPage(cell, d, usable, g, k, i, cnt0, sz0);
    EvenedSizes(cell, d, usable, g, k, i, cnt0, sz0, e, cnt, sz);
    if e == Start(cnt0, d, i - 1) { DrainedMore(cell, d, g, k, i); }
    assert cnt[..i - 1] == cnt0[..i][..i - 1] == g[..i - 1];
    forall j: nat | i - 1 < j < k ensures Start(cnt, d, j) < cnt[j] {
      assert j > i ==> Start(cnt0, d, j) < cnt0[j];
    }
  }

  // When even the first page is drained there were too few cells to give every page one.
  lemma DrainedIndivisible(cell: seq<nat>, usable: nat, g: seq<int>, k: nat)
    requires 2 <= k <= |g| && Packed(cell, 1, usable, g, k - 1) && Drained(cell, 1, g, k, 0)
    ensures !Divisible(cell, 1, usable)
  {
    forall b: seq<int> | |b| <= MAX_PAGES && Division(cell, 1, usable, b) ensures false {
      PackedIsAhead(cell, 1, usable, g, k - 1, b, 0);
      AtLeastOdd(cell, usable, g, k, b, k - 2);
      assert Start(b, 1, k - 1) < b[k - 1];
      DivisionBounds(cell, 1, usable, b, k - 1);
    }
  }

  // With one cell per page, g ends page j as early as any division can.
  lemma {:induction false} AtLeastOdd(cell: seq<nat>, usable: nat, g: seq<int>, k: nat, b: seq<int>, j: nat)
    requires 2 <= k <= |g| && Packed(cell, 1, usable, g, k - 1) && Drained(cell, 1, g, k, 0)
    requires Division(cell, 1, usable, b) && |b| > 1 && j < k - 1
    ensures j + 1 < |b| && b[j] == g[j]
    decreases j
  {
    if j > 0 { AtLeastOdd(cell, usable, g, k, b, j - 1); }
    PackedIsAhead(cell, 1, usable, g, k - 1, b, j);
    assert Single(1, g, j);
    assert Start(b, 1, j) < b[j];
  }

  lemma SettledKept(cell: seq<nat>, d: nat, bulk: bool, g: seq<int>, k: nat, i: nat, cnt: seq<int>, cnt': seq<int>)
    requires forall j: nat | i < j < k :: Settled(cell, d, bulk, g, k, j, cnt)
    requires k <= |cnt| && k <= |cnt'| && forall j | i <= j < k :: cnt[j] == cnt'[j]
    ensures forall j: nat | i < j < k :: Settled(cell, d, bulk, g, k, j, cnt')
  {
    hide Span;
    forall j: nat | i < j < k ensures Settled(cell, d, bulk, g, k, j, cnt') {
      assert Settled(cell, d, bulk, g, k, j, cnt);
    }
  }

  /** The second packing loop: from the right, hand cells over until neighbours are about equal. */
  method Spread(cell: seq<nat>, d: nat, usable: nat, bulk: bool, left: Packing) returns (p: Packing)
    requires d <= 1 && LeftPacked(cell, d, usable, left) && forall c | c in cell :: 2 + c <= usable
    ensures p.Corrupt? ==> !Divisible(cell, d, usable)
    ensures p.Pages? ==> Working(cell, d, p.k, p.cnt, p.sz) && Division(cell, d, usable, p.cnt[..p.k]) && p.k == left.k
    ensures p.Pages? ==> forall i: nat | 0 < i < p.k :: Settled(cell, d, bulk, left.cnt, p.k, i, p.cnt)
  {
    hide Settled, Spreading, Packed, Drained, Division, Divisible;
    var k, cnt, sz := left.k, left.cnt, left.sz;
    ghost var g := cnt;
    LeftIsSpreading(cell, d, usable, left);
    var i := k - 1;
    while i > 0
      invariant 0 <= i < k <= |cnt| && Spreading(cell, d, usable, g, k, i, cnt, sz)
      invariant i == 0 && k > 1 ==> 0 < cnt[0]
      invariant forall j: nat | i < j < k :: Settled(cell, d, bulk, g, k, j, cnt)
    {
      ghost var before := cnt;
      cnt, sz := Even(cell, d, usable, bulk, k, i, cnt, sz, g);
      OnlyFirstEmpty(cell, d, usable, g, k, i - 1, cnt, sz);
      if cnt[i - 1] <= (if i > 1 then cnt[i - 2] else 0) {
        DrainedIndivisible(cell, usable, g, k);
        return Corrupt;
      }
      SettledKept(cell, d, bulk, g, k, i, before, cnt);
      i := i - 1;
    }
    SpreadIsDivision(cell, d, usable, g, k, cnt, sz);
    p := Pages(k, cnt, sz);
  }

  // The second pass can only come out with an empty page at the far left, and only if every page was drained.
  lemma OnlyFirstEmpty(cell: seq<nat>, d: nat, usable: nat, g: seq<int>, k: nat, i: nat, cnt: seq<int>, sz: seq<int>)
    requires d <= 1 && i + 1 < k && Spreading(cell, d, usable, g, k, i, cnt, sz)
    ensures k <= |cnt| && 0 <= (if i > 0 then cnt[i - 1] else 0)
    ensures cnt[i] <= (if i > 0 then cnt[i - 1] else 0) ==>
              d == 1 && k <= |g| && Packed(cell, 1, usable, g, k - 1) && Drained(cell, 1, g, k, 0)
  {
  }

  lemma LeftIsSpreading(cell: seq<nat>, d: nat, usable: nat, p: Packing)
    requires d <= 1 && LeftPacked(cell, d, usable, p)
    ensures Spreading(cell, d, usable, p.cnt, p.k, p.k - 1, p.cnt, p.sz)
  {
    var k, cnt := p.k, p.cnt;
    if k > 1 { assert 0 <= Start(cnt, d, k - 2) < cnt[k - 2] < |cell|; }
  }

  lemma SpreadIsDivision(cell: seq<nat>, d: nat, usable: nat, g: seq<int>, k: nat, cnt: seq<int>, sz: seq<int>)
    requires 0 < k && Spreading(cell, d, usable, g, k, 0, cnt, sz) && (k > 1 ==> Start(cnt, d, 0) < cnt[0])
    ensures Division(cell, d, usable, cnt[..k]) && Working(cell, d, k, cnt, sz)
  {
    var b := cnt[..k];
    forall j: nat | j < |b|
      ensures Start(b, d, j) <= b[j] && Span(cell, Start(b, d, j), b[j]) <= usable
              && (|b| > 1 ==> Start(b, d, j) < b[j])
    {
      assert Start(b, d, j) == Start(cnt, d, j);
      assert sz[j] == Span(cell, Start(cnt, d, j), cnt[j]);
    }
  }

  // ---------- the whole computation ----------

  ghost predicate Boundaries(n: nat, d: nat, b: seq<int>) {
    && (forall i: nat | i < |b| :: 0 <= b[i] <= n)
    && (forall i: nat {:trigger Start(b, d, i)} | i < |b| :: 0 <= Start(b, d, i) <= b[i])
  }

  // Pages 0..j-1 with the dividers between them, read from left to right.
  ghost function Reassembled<T>(cells: seq<T>, d: nat, b: seq<int>, j: nat): seq<T>
    requires j <= |b| && d <= 1 && Boundaries(|cells|, d, b)
  {
    if j == 0 then []
    else
      var s, e := Start(b, d, j - 1), b[j - 1];
      Reassembled(cells, d, b, j - 1) + (if j > 1 && d == 1 then [cells[b[j - 2]]] else []) + cells[s..e]
  }

  lemma {:induction false} ReassembledPrefix<T>(cells: seq<T>, d: nat, b: seq<int>, j: nat)
    requires 0 < j <= |b| && d <= 1 && Boundaries(|cells|, d, b)
    ensures Reassembled(cells, d, b, j) == cells[..b[j - 1]]
  {
    assert 0 <= Start(b, d, j - 1) <= b[j - 1];
    if j > 1 { ReassembledPrefix(cells, d, b, j - 1); }
  }

  // A division loses, duplicates and reorders nothing.
  lemma DivisionHoldsAll<T>(cells: seq<T>, cell: seq<nat>, d: nat, usable: nat, b: seq<int>)
    requires d <= 1 && Division(cell, d, usable, b) && |cells| == |cell|
    ensures Boundaries(|cells|, d, b) && Reassembled(cells, d, b, |b|) == cells
  {
    forall j: nat | j < |b| ensures 0 <= Start(b, d, j) <= b[j] <= |cells| { DivisionBounds(cell, d, usable, b, j); }
    ReassembledPrefix(cells, d, b, |b|);
  }

  // The first pass: every page but the last is filled for as long as cells fit.
  ghost predicate Filled(cell: seq<nat>, d: nat, usable: nat, k: nat, g: seq<int>) {
    && 1 <= k <= |g| && g[k - 1] == |cell| && Span(cell, Start(g, d, k - 1), |cell|) <= usable
    && forall j: nat {:trigger Start(g, d, j)} | j < k - 1 ::
         && 0 <= Start(g, d, j) < g[j] < |cell|
         && Span(cell, Start(g, d, j), g[j]) <= usable < Span(cell, Start(g, d, j), g[j] + 1)
  }

  lemma FilledLeft(cell: seq<nat>, d: nat, usable: nat, p: Packing)
    requires LeftPacked(cell, d, usable, p)
    ensures Filled(cell, d, usable, p.k, p.cnt)
  {
    assert p.sz[p.k - 1] == Span(cell, Start(p.cnt, d, p.k - 1), p.cnt[p.k - 1]);
    forall j: nat | j < p.k - 1
      ensures 0 <= Start(p.cnt, d, j) < p.cnt[j] < |cell|
      ensures Span(cell, Start(p.cnt, d, j), p.cnt[j]) <= usable < Span(cell, Start(p.cnt, d, j), p.cnt[j] + 1)
    {
      assert Full(cell, d, usable, p.cnt, j);
    }
  }

  lemma {:induction false} FilledOnce(cell: seq<nat>, d: nat, usable: nat, k: nat, g: seq<int>, k': nat, g': seq<int>,
                                      j: nat)
    requires d <= 1 && Filled(cell, d, usable, k, g) && Filled(cell, d, usable, k', g') && j < k && j < k'
    ensures g[j] == g'[j] && Start(g, d, j) == Start(g', d, j) && (j + 1 == k <==> j + 1 == k')
    decreases j
  {
    if j > 0 { FilledOnce(cell, d, usable, k, g, k', g', j - 1); }
    assert Start(g, d, j) == Start(g', d, j);
    if g[j] < g'[j] { PreMonotone(cell, g[j] + 1, g'[j]); }
    if g'[j] < g[j] { PreMonotone(cell, g'[j] + 1, g[j]); }
  }

  // The second pass leaves one choice for the end of each page.
  lemma SettledOnce(cell: seq<nat>, d: nat, bulk: bool, k: nat, g: seq<int>, cnt: seq<int>, g': seq<int>,
                    cnt': seq<int>, i: nat)
    requires 0 < i < k && Settled(cell, d, bulk, g, k, i, cnt) && Settled(cell, d, bulk, g', k, i, cnt')
    requires Start(g, d, i - 1) == Start(g', d, i - 1) && g[i - 1] == g'[i - 1] && cnt[i] == cnt'[i]
    ensures cnt[i - 1] == cnt'[i - 1]
  {
    var s := Start(g, d, i - 1);
    assert Span(cell, s, cnt[i - 1]) == Span(cell, s, cnt[i - 1]);
    assert Span(cell, s, cnt'[i - 1]) == Span(cell, s, cnt'[i - 1]);
  }

  lemma {:induction false} SettledFrom(cell: seq<nat>, d: nat, usable: nat, bulk: bool, k: nat, g: seq<int>,
                                       cnt: seq<int>, g': seq<int>, cnt': seq<int>, i: nat)
    requires d <= 1 && Filled(cell, d, usable, k, g) && Filled(cell, d, usable, k, g') && k <= |cnt| && k <= |cnt'|
    requires forall j: nat | 0 < j < k :: Settled(cell, d, bulk, g, k, j, cnt)
    requires forall j: nat | 0 < j < k :: Settled(cell, d, bulk, g', k, j, cnt')
    requires i < k && cnt[k - 1] == cnt'[k - 1]
    ensures cnt[i] == cnt'[i]
    decreases k - i
  {
    if i + 1 < k {
      SettledFrom(cell, d, usable, bulk, k, g, cnt, g', cnt', i + 1);
      FilledOnce(cell, d, usable, k, g, k, g', i);
      SettledOnce(cell, d, bulk, k, g, cnt, g', cnt', i + 1);
    }
  }

  // The pages end at b: each next to what the first pass chose (g), as evened out by the second.
  ghost predicate Chosen(cell: seq<nat>, d: nat, usable: nat, bulk: bool, g: seq<int>, b: seq<int>) {
    && Division(cell, d, usable, b) && Filled(cell, d, usable, |b|, g)
    && forall i: nat | 0 < i < |b| :: Settled(cell, d, bulk, g, |b|, i, b)
  }

  /** Where the pages end depends on nothing but the cells, the page size and the bulk flag: in particular not on how
      the cells were divided before. */
  lemma PackingUnique(cell: seq<nat>, d: nat, usable: nat, bulk: bool, g: seq<int>, b: seq<int>, g': seq<int>,
                      b': seq<int>)
    requires d <= 1 && Chosen(cell, d, usable, bulk, g, b) && Chosen(cell, d, usable, bulk, g', b')
    ensures b == b'
  {
    hide Settled;
    var k, k' := |b|, |b'|;
    FilledOnce(cell, d, usable, k, g, k', g', (if k < k' then k else k') - 1);
    forall i: nat | i < k ensures b[i] == b'[i] { SettledFrom(cell, d, usable, bulk, k, g, b, g', b', i); }
  }

  /** balance_nonroot's choice of pages: it succeeds exactly when the cells can be
      divided over at most NB+2 pages, and then returns such a division with the exact byte counts. The pages are first
      filled from the left (up to g); then, from the right, each page hands its last cell over for as long as the next
      page is empty or, outside bulk loads, does not come out larger than what the page keeps. */
  method Pack(cell: seq<nat>, leafData: bool, usable: nat, bulk: bool, cntOld: seq<int>, szOld: seq<int>)
    returns (p: Packing, ghost g: seq<int>)
    requires 1 <= |cntOld| <= NB && |szOld| == |cntOld| && cntOld[|cntOld| - 1] == |cell|
    requires forall j: nat | j < |cntOld| :: 0 <= cntOld[j] <= |cell|
    requires Sizes(cell, if leafData then 0 else 1, |cntOld|, cntOld, szOld)
    requires forall c | c in cell :: 2 + c <= usable
    ensures p.Pages? <==> exists b: seq<int> :: |b| <= 5 && Division(cell, if leafData then 0 else 1, usable, b)
    ensures p.Pages? ==>
              var d := if leafData then 0 else 1;
              && 1 <= p.k <= 5 && p.k <= |p.cnt| && Chosen(cell, d, usable, bulk, g, p.cnt[..p.k])
              && Division(cell, d, usable, p.cnt[..p.k]) && Sizes(cell, d, p.k, p.cnt, p.sz)
  {
    hide Settled, Packed;
    var d := if leafData then 0 else 1;
    p := PackLeft(cell, d, usable, cntOld, szOld);
    g := [];
    if p.Pages? {
      g := p.cnt;
      FilledLeft(cell, d, usable, p);
      p := Spread(cell, d, usable, bulk, p);
      if p.Pages? { SettledKept(cell, d, bulk, g, p.k, 0, p.cnt, p.cnt[..p.k]); }
    }
  }
}
