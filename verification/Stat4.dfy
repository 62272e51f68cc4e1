/** The STAT4 sampler of ANALYZE: one pass over a sorted index keeps a bounded
    set of samples, with "0 in eq" meaning "this prefix is still open". */
module Stat4 {
  import opened IndexOrder

  // A StatSample: anEq, anLt, anDLt, the rowid, isPSample, iCol and iHash.
  datatype Sample = Sample(eq: seq<nat>, lt: seq<nat>, dlt: seq<nat>,
                           rowid: int, periodic: bool, col: nat, hash: nat)

  // The position of the sampled entry in the index is its nLt for all nCol columns.
  function Pos(s: Sample): nat { if s.lt == [] then 0 else s.lt[|s.lt| - 1] }

  // ---------- the preference order ----------

  predicate BetterPost(x: Sample, y: Sample, i: nat)
    decreases |x.eq| - i
  {
    if i >= |x.eq| || i >= |y.eq| then x.hash > y.hash
    else x.eq[i] > y.eq[i] || (x.eq[i] == y.eq[i] && BetterPost(x, y, i + 1))
  }

  // (e1, c1) beats (e2, c2): more rows, or as many rows on fewer columns.
  predicate KeyBetter(e1: nat, c1: nat, e2: nat, c2: nat) {
    e1 > e2 || (e1 == e2 && c1 < c2)
  }

  predicate Better(x: Sample, y: Sample)
    requires x.col < |x.eq| && y.col < |y.eq|
  {
    || KeyBetter(x.eq[x.col], x.col, y.eq[y.col], y.col)
    || (x.eq[x.col] == y.eq[y.col] && x.col == y.col && BetterPost(x, y, x.col + 1))
  }

  lemma {:induction false} BetterPostTransitive(x: Sample, y: Sample, z: Sample, i: nat)
    requires |x.eq| == |y.eq| == |z.eq|
    requires BetterPost(x, y, i) && BetterPost(y, z, i)
    ensures BetterPost(x, z, i)
    decreases |x.eq| - i
  {
    if i < |x.eq| && x.eq[i] == y.eq[i] == z.eq[i] { BetterPostTransitive(x, y, z, i + 1); }
  }

  lemma BetterTransitive(x: Sample, y: Sample, z: Sample)
    requires |x.eq| == |y.eq| == |z.eq| && x.col < |x.eq| && y.col < |x.eq| && z.col < |x.eq|
    requires Better(x, y) && Better(y, z)
    ensures Better(x, z)
  {
    if x.eq[x.col] == y.eq[y.col] == z.eq[z.col] && x.col == y.col == z.col {
      BetterPostTransitive(x, y, z, x.col + 1);
    }
  }

  lemma {:induction false} BetterPostIrreflexive(x: Sample, i: nat)
    ensures !BetterPost(x, x, i)
    decreases |x.eq| - i
  {
    if i < |x.eq| { BetterPostIrreflexive(x, i + 1); }
  }

  // The first count from i on in which two samples differ decides.
  lemma {:induction false} FirstDecides(x: Sample, y: Sample, i: nat, d: nat)
    requires |x.eq| == |y.eq| && i <= d < |x.eq| && x.eq[d] != y.eq[d]
    requires forall j | i <= j < d :: x.eq[j] == y.eq[j]
    ensures BetterPost(x, y, i) <==> x.eq[d] > y.eq[d]
    decreases d - i
  {
    if i < d { FirstDecides(x, y, i + 1, d); }
  }

  // If there is none, the hash does.
  lemma {:induction false} HashDecides(x: Sample, y: Sample, i: nat)
    requires |x.eq| == |y.eq| && forall j | i <= j < |x.eq| :: x.eq[j] == y.eq[j]
    ensures BetterPost(x, y, i) <==> x.hash > y.hash
    decreases |x.eq| - i
  {
    if i < |x.eq| { HashDecides(x, y, i + 1); }
  }

  /** What the order says of two samples with the same count at the same column. */
  lemma TiesBroken(x: Sample, y: Sample, i: nat)
    requires |x.eq| == |y.eq|
    ensures forall d | i <= d < |x.eq| && x.eq[d] != y.eq[d] && x.eq[i..d] == y.eq[i..d] ::
              BetterPost(x, y, i) <==> x.eq[d] > y.eq[d]
    ensures (forall d | i <= d < |x.eq| :: x.eq[d] == y.eq[d]) ==> (BetterPost(x, y, i) <==> x.hash > y.hash)
  {
    forall d | i <= d < |x.eq| && x.eq[d] != y.eq[d] && x.eq[i..d] == y.eq[i..d]
      ensures BetterPost(x, y, i) <==> x.eq[d] > y.eq[d]
    {
      forall j | i <= j < d ensures x.eq[j] == y.eq[j] { assert x.eq[i..d][j - i] == y.eq[i..d][j - i]; }
      FirstDecides(x, y, i, d);
    }
    if forall d | i <= d < |x.eq| :: x.eq[d] == y.eq[d] { HashDecides(x, y, i); }
  }

  method IsBetterPost(x: Sample, y: Sample) returns (b: bool)
    requires |x.eq| == |y.eq|
    ensures b == BetterPost(x, y, x.col + 1)
  {
    var i := x.col + 1;
    while i < |x.eq|
      invariant BetterPost(x, y, x.col + 1) == BetterPost(x, y, i)
    {
      if x.eq[i] > y.eq[i] { return true; }
      if x.eq[i] < y.eq[i] { return false; }
      i := i + 1;
    }
    return x.hash > y.hash;
  }

  /** sampleIsBetter: the larger count at the sample's own column, then the lower column, then what comes after. */
  method IsBetter(x: Sample, y: Sample) returns (b: bool)
    requires |x.eq| == |y.eq| && x.col < |x.eq| && y.col < |y.eq|
    ensures b == Better(x, y)
    ensures x.eq[x.col] > y.eq[y.col] ==> b
    ensures x.eq[x.col] < y.eq[y.col] ==> !b
    ensures x.eq[x.col] == y.eq[y.col] && x.col != y.col ==> (b <==> x.col < y.col)
    ensures x.eq[x.col] == y.eq[y.col] && x.col == y.col ==> (b <==> BetterPost(x, y, x.col + 1))
  {
    var nEqNew, nEqOld := x.eq[x.col], y.eq[y.col];
    if nEqNew > nEqOld { return true; }
    if nEqNew == nEqOld {
      if x.col < y.col { return true; }
      if x.col != y.col { return false; }
      b := IsBetterPost(x, y);
      return b;
    }
    return false;
  }

  // ---------- what a sample must say ----------

  // nLt, nDLt and the rowid are those of the entry at the sample's position.
  ghost predicate Located(ix: Index, nCol: nat, m: nat, s: Sample) {
    && nCol > 0 && |s.eq| == |s.lt| == |s.dlt| == nCol
    && Pos(s) < m <= |ix|
    && (forall j | 0 <= j < nCol :: s.lt[j] == LtCount(ix, Pos(s), j) && s.dlt[j] == DLtCount(ix, Pos(s), j))
    && s.rowid == ix[Pos(s)].rowid
  }

  // The group of entry p on columns 0..j still includes the last entry visited.
  ghost predicate Open(ix: Index, nCol: nat, m: nat, p: nat, j: nat) {
    0 < m && j < nCol - 1 && Shares(ix, p, m - 1, j)
  }

  // A retained sample after m entries, while columns b and up are being closed:
  // every count is exact, except that an open one is held at zero.
  ghost predicate Fits(ix: Index, nCol: nat, m: nat, b: nat, s: Sample) {
    && Located(ix, nCol, m, s)
    && (forall j | 0 <= j < nCol ::
          s.eq[j] == EqCount(ix, m, Pos(s), j) || (s.eq[j] == 0 && Open(ix, nCol, m, Pos(s), j)))
    && (forall j | 0 <= j < b && j < nCol :: Open(ix, nCol, m, Pos(s), j) ==> s.eq[j] == 0)
    && (!s.periodic ==> s.col < nCol - 1 && s.eq[s.col] == EqCount(ix, m, Pos(s), s.col))
  }

  // The current entry as a sample.
  ghost predicate CurrentOk(ix: Index, nCol: nat, m: nat, s: Sample) {
    && Located(ix, nCol, m, s) && Pos(s) == m - 1
    && (forall j | 0 <= j < nCol :: s.eq[j] == EqCount(ix, m, m - 1, j))
  }

  // aBest[i]: an entry of the current group on columns 0..i whose longer prefixes are counted exactly.
  ghost predicate BestOk(ix: Index, nCol: nat, m: nat, i: nat, s: Sample) {
    && Located(ix, nCol, m, s) && !s.periodic && s.col == i
    && Open(ix, nCol, m, Pos(s), i)
    && (forall j | i < j < nCol :: s.eq[j] == EqCount(ix, m, Pos(s), j))
  }

  // aBest[i] once its own column has been counted too.
  ghost predicate CandidateOk(ix: Index, nCol: nat, m: nat, i: nat, s: Sample) {
    BestOk(ix, nCol, m, i, s) && s.eq[i] == EqCount(ix, m, Pos(s), i)
  }

  ghost predicate Ordered(a: seq<Sample>) {
    forall k, l | 0 <= k < l < |a| :: Pos(a[k]) < Pos(a[l])
  }

  // Complete periods of n entries among the first m.
  function Periods(m: nat, n: nat): nat requires n > 0 { m / n }

  // Entry p completes a period of n entries.
  predicate Due(p: nat, n: nat) requires n > 0 { Periods(p, n) != Periods(p + 1, n) }

  ghost predicate HasPeriodic(a: seq<Sample>, p: nat) {
    exists k :: 0 <= k < |a| && a[k].periodic && Pos(a[k]) == p
  }

  // The periodic samples retained are exactly the entries that were due.
  ghost predicate PeriodicOk(a: seq<Sample>, m: nat, n: nat) {
    && n > 0
    && (forall k | 0 <= k < |a| :: a[k].periodic ==> Pos(a[k]) < m && Due(Pos(a[k]), n))
    && (forall p: nat | p < m && Due(p, n) :: HasPeriodic(a, p))
  }

  // a[iMin] has the least key of all non-periodic samples once the array is full.
  ghost predicate MinOk(nCol: nat, mx: nat, a: seq<Sample>, iMin: nat) {
    && (forall k | 0 <= k < |a| :: |a[k].eq| == nCol && (!a[k].periodic ==> a[k].col < nCol))
    && (|a| == mx ==>
          && iMin < |a| && !a[iMin].periodic
          && forall k | 0 <= k < |a| && !a[k].periodic ::
               !KeyBetter(a[iMin].eq[a[iMin].col], a[iMin].col, a[k].eq[a[k].col], a[k].col))
  }

  ghost predicate ZerosBelow(nCol: nat, a: seq<Sample>, z: nat) {
    forall k, j | 0 <= k < |a| && z <= j < nCol && j < |a[k].eq| :: a[k].eq[j] > 0
  }

  // A retained sample in the group of p on columns 0..j, kept for that group or a shorter prefix.
  ghost predicate Witness(ix: Index, s: Sample, p: nat, j: nat) {
    Shares(ix, Pos(s), p, j) && (s.periodic || s.col <= j)
  }

  ghost predicate Witnessed(ix: Index, a: seq<Sample>, p: nat, j: nat) {
    exists k :: 0 <= k < |a| && Witness(ix, a[k], p, j)
  }

  // The group of p on columns 0..j does not beat the worst retained sample.
  ghost predicate Outranked(ix: Index, m: nat, mx: nat, a: seq<Sample>, iMin: nat, p: nat, j: nat) {
    && |a| == mx && iMin < |a| && a[iMin].col < |a[iMin].eq|
    && !KeyBetter(EqCount(ix, m, p, j), j, a[iMin].eq[a[iMin].col], a[iMin].col)
  }

  ghost predicate Accounted(ix: Index, m: nat, mx: nat, a: seq<Sample>, iMin: nat, p: nat, j: nat) {
    Witnessed(ix, a, p, j) || Outranked(ix, m, mx, a, iMin, p, j)
  }

  // Every closed group is represented, or is outranked by every retained sample.
  ghost predicate AllAccounted(ix: Index, nCol: nat, m: nat, b: nat, mx: nat, a: seq<Sample>, iMin: nat) {
    forall p: nat, j: nat | p < m && j < nCol - 1 && (j >= b || !Open(ix, nCol, m, p, j)) ::
      Accounted(ix, m, mx, a, iMin, p, j)
  }

  ghost predicate AllFit(ix: Index, nCol: nat, m: nat, b: nat, a: seq<Sample>) {
    forall k | 0 <= k < |a| :: Fits(ix, nCol, m, b, a[k])
  }

  // All that holds of a[] and iMin after m entries while columns b and up are being closed.
  ghost predicate Retained(ix: Index, nCol: nat, m: nat, b: nat, mx: nat, a: seq<Sample>, iMin: nat) {
    && |a| <= mx && AllFit(ix, nCol, m, b, a) && Ordered(a)
    && MinOk(nCol, mx, a, iMin) && AllAccounted(ix, nCol, m, b, mx, a, iMin)
  }

  // ---------- what one insertion does to a[] ----------

  // The existing sample takes over the shorter prefix that has just been counted.
  function Upgraded(prev: Sample, cand: Sample): Sample
    requires cand.col < |cand.eq| && cand.col < |prev.eq|
  {
    prev.(col := cand.col, eq := prev.eq[cand.col := cand.eq[cand.col]])
  }

  function Zeroed(s: Sample, z: nat): (r: Sample)
    requires z <= |s.eq|
    ensures |r.eq| == |s.eq|
    ensures forall j | 0 <= j < |s.eq| :: r.eq[j] == if j < z then 0 else s.eq[j]
  {
    s.(eq := seq(z, _ => 0) + s.eq[z..])
  }

  // The least key does not fall.
  ghost predicate MinRises(nCol: nat, mx: nat, a: seq<Sample>, iMin: nat, a': seq<Sample>, iMin': nat) {
    MinOk(nCol, mx, a, iMin) && MinOk(nCol, mx, a', iMin') &&
    (|a| == mx ==> |a'| == mx &&
                   !KeyBetter(a[iMin].eq[a[iMin].col], a[iMin].col, a'[iMin'].eq[a'[iMin'].col], a'[iMin'].col))
  }

  lemma OutrankedStays(ix: Index, nCol: nat, m: nat, mx: nat, a: seq<Sample>, iMin: nat,
                       a': seq<Sample>, iMin': nat, p: nat, j: nat)
    requires MinRises(nCol, mx, a, iMin, a', iMin') && Outranked(ix, m, mx, a, iMin, p, j)
    ensures Outranked(ix, m, mx, a', iMin', p, j)
  {
  }

  // The group of a sample's own column outranks every longer prefix of the same entry.
  lemma WitnessOutranks(ix: Index, nCol: nat, m: nat, b: nat, s: Sample, p: nat, j: nat)
    requires Fits(ix, nCol, m, b, s) && !s.periodic && Witness(ix, s, p, j)
    ensures !KeyBetter(EqCount(ix, m, p, j), j, s.eq[s.col], s.col)
  {
    EqSame(ix, m, Pos(s), p, j);
    EqNested(ix, m, Pos(s), s.col, j);
  }

  // Every closed group stays accounted for when all samples but the evicted one survive.
  lemma AccountedStays(ix: Index, nCol: nat, m: nat, b: nat, mx: nat, a: seq<Sample>, iMin: nat,
                       a': seq<Sample>, iMin': nat, p: nat, j: nat)
    requires AllFit(ix, nCol, m, b, a) && MinRises(nCol, mx, a, iMin, a', iMin')
    requires Accounted(ix, m, mx, a, iMin, p, j)
    requires forall k | 0 <= k < |a| && Witness(ix, a[k], p, j) ::
               Witnessed(ix, a', p, j) || (|a| == mx && k == iMin)
    ensures Accounted(ix, m, mx, a', iMin', p, j)
  {
    if Witnessed(ix, a, p, j) {
      var k :| 0 <= k < |a| && Witness(ix, a[k], p, j);
      if !Witnessed(ix, a', p, j) {
        WitnessOutranks(ix, nCol, m, b, a[k], p, j);
        OutrankedStays(ix, nCol, m, mx, a, iMin, a', iMin', p, j);
      }
    } else {
      OutrankedStays(ix, nCol, m, mx, a, iMin, a', iMin', p, j);
    }
  }

  // An open sample was kept for a longer prefix than the one now closing, so upgrading it never demotes it.
  lemma UpgradeNeverDemotes(ix: Index, nCol: nat, m: nat, i: nat, prev: Sample, cand: Sample)
    requires Sorted(ix, nCol) && 0 < m <= |ix| && Fits(ix, nCol, m, i + 1, prev) && CandidateOk(ix, nCol, m, i, cand)
    requires !prev.periodic && prev.eq[i] == 0
    ensures prev.col > i && Open(ix, nCol, m, Pos(prev), i)
    ensures Better(cand, prev)
    ensures Fits(ix, nCol, m, i, Upgraded(prev, cand))
  {
    hide Sorted, Shares, EqCount, LtCount, DLtCount;
    var p := Pos(prev);
    EqPositive(ix, nCol, m, p, i);
    EqPositive(ix, nCol, m, p, prev.col);
    assert Open(ix, nCol, m, p, i);
    if prev.col <= i { SharesDown(ix, p, m - 1, prev.col, i); }
    EqSame(ix, m, p, m - 1, i);
    EqSame(ix, m, Pos(cand), m - 1, i);
    EqNested(ix, m, p, i, prev.col);
  }

  // Groups on column i: either already closed, or all the same group as that of the last entry.
  lemma NewGroupWitnessed(ix: Index, nCol: nat, m: nat, i: nat, a: seq<Sample>, k: nat)
    requires k < |a| && i < nCol - 1 && Open(ix, nCol, m, Pos(a[k]), i)
    requires a[k].periodic || a[k].col <= i
    ensures forall p: nat | Open(ix, nCol, m, p, i) :: Witnessed(ix, a, p, i)
  {
    forall p: nat | Open(ix, nCol, m, p, i) ensures Witnessed(ix, a, p, i) {
      assert Witness(ix, a[k], p, i);
    }
  }

  lemma FitsLower(ix: Index, nCol: nat, m: nat, b: nat, i: nat, s: Sample)
    requires i <= b && Fits(ix, nCol, m, b, s)
    ensures Fits(ix, nCol, m, i, s)
  {
  }

  // Outcome 1: a periodic sample already covers the group.
  lemma CoveredKeeps(ix: Index, nCol: nat, m: nat, i: nat, mx: nat, a: seq<Sample>, iMin: nat, k: nat, iMin': nat)
    requires Sorted(ix, nCol) && 0 < m <= |ix| && i < nCol - 1
    requires Retained(ix, nCol, m, i + 1, mx, a, iMin) && MinOk(nCol, mx, a, iMin')
    requires k < |a| && a[k].periodic && a[k].eq[i] == 0
    ensures Retained(ix, nCol, m, i, mx, a, iMin')
  {
    hide Sorted, Shares, EqCount, LtCount, DLtCount;
    EqPositive(ix, nCol, m, Pos(a[k]), i);
    NewGroupWitnessed(ix, nCol, m, i, a, k);
    forall p: nat, j: nat | p < m && j < nCol - 1 && (j >= i || !Open(ix, nCol, m, p, j))
      ensures Accounted(ix, m, mx, a, iMin', p, j)
    {
      if !(j == i && Open(ix, nCol, m, p, j)) {
        AccountedStays(ix, nCol, m, i + 1, mx, a, iMin, a, iMin', p, j);
      }
    }
  }

  // Outcome 2: an open sample is upgraded.
  lemma UpgradeKeeps(ix: Index, nCol: nat, m: nat, i: nat, mx: nat, a: seq<Sample>, iMin: nat,
                     u: nat, cand: Sample, a': seq<Sample>, iMin': nat)
    requires Sorted(ix, nCol) && 0 < m <= |ix| && i < nCol - 1
    requires Retained(ix, nCol, m, i + 1, mx, a, iMin) && CandidateOk(ix, nCol, m, i, cand)
    requires u < |a| && !a[u].periodic && a[u].eq[i] == 0
    requires a' == a[u := Upgraded(a[u], cand)] && MinOk(nCol, mx, a', iMin')
    ensures Retained(ix, nCol, m, i, mx, a', iMin')
  {
    hide Sorted, Shares, EqCount, LtCount, DLtCount;
    UpgradeNeverDemotes(ix, nCol, m, i, a[u], cand);
    assert Pos(a'[u]) == Pos(a[u]);
    forall k | 0 <= k < |a'| ensures Fits(ix, nCol, m, i, a'[k]) {
      if k != u { FitsLower(ix, nCol, m, i + 1, i, a[k]); }
    }
    assert MinRises(nCol, mx, a, iMin, a', iMin');
    NewGroupWitnessed(ix, nCol, m, i, a', u);
    forall p: nat, j: nat | p < m && j < nCol - 1 && (j >= i || !Open(ix, nCol, m, p, j))
      ensures Accounted(ix, m, mx, a', iMin', p, j)
    {
      if !(j == i && Open(ix, nCol, m, p, j)) {
        forall k | 0 <= k < |a| && Witness(ix, a[k], p, j) ensures Witnessed(ix, a', p, j) {
          assert Witness(ix, a'[k], p, j);
        }
        AccountedStays(ix, nCol, m, i + 1, mx, a, iMin, a', iMin', p, j);
      }
    }
  }

  // a[] after an append that evicts the least sample first when the array is full.
  function Appended(mx: nat, a: seq<Sample>, iMin: nat, s: Sample): (r: seq<Sample>)
    requires |a| == mx ==> iMin < |a|
    ensures |a| == mx ==> |r| == |a|
    ensures |a| != mx ==> |r| == |a| + 1
    ensures r[|r| - 1] == s
    ensures forall k | 0 <= k < |r| - 1 :: r[k] == if |a| == mx && k >= iMin then a[k + 1] else a[k]
  {
    (if |a| == mx then a[..iMin] + a[iMin + 1..] else a) + [s]
  }

  lemma AppendKeepsFit(ix: Index, nCol: nat, m: nat, b: nat, b': nat, mx: nat, a: seq<Sample>, iMin: nat, s: Sample)
    requires b' <= b && (|a| == mx ==> iMin < |a|)
    requires AllFit(ix, nCol, m, b, a) && Ordered(a) && Fits(ix, nCol, m, b', s)
    requires forall k | 0 <= k < |a| :: Pos(a[k]) < Pos(s)
    ensures AllFit(ix, nCol, m, b', Appended(mx, a, iMin, s)) && Ordered(Appended(mx, a, iMin, s))
  {
    hide Fits;
    var a' := Appended(mx, a, iMin, s);
    forall k | 0 <= k < |a'| ensures Fits(ix, nCol, m, b', a'[k]) {
      if k < |a'| - 1 {
        FitsLower(ix, nCol, m, b, b', if |a| == mx && k >= iMin then a[k + 1] else a[k]);
      }
    }
  }

  lemma AppendMinRises(nCol: nat, mx: nat, a: seq<Sample>, iMin: nat, s: Sample, iMin': nat)
    requires mx > 0 && |a| <= mx && MinOk(nCol, mx, a, iMin) && MinOk(nCol, mx, Appended(mx, a, iMin, s), iMin')
    requires |a| == mx && !s.periodic ==>
               !KeyBetter(a[iMin].eq[a[iMin].col], a[iMin].col, s.eq[s.col], s.col)
    ensures MinRises(nCol, mx, a, iMin, Appended(mx, a, iMin, s), iMin')
  {
  }

  // Outcome 3: the sample is appended, the least one evicted first when the array is full.
  lemma AppendKeeps(ix: Index, nCol: nat, m: nat, b: nat, b': nat, mx: nat, a: seq<Sample>, iMin: nat,
                    s: Sample, a': seq<Sample>, iMin': nat)
    requires Sorted(ix, nCol) && 0 < m <= |ix| && b' <= b && b <= b' + 1 && mx > 0
    requires Retained(ix, nCol, m, b, mx, a, iMin) && Fits(ix, nCol, m, b', s)
    requires forall k | 0 <= k < |a| :: Pos(a[k]) < Pos(s)
    requires a' == Appended(mx, a, iMin, s) && MinOk(nCol, mx, a', iMin')
    requires |a| == mx && !s.periodic ==>
               !KeyBetter(a[iMin].eq[a[iMin].col], a[iMin].col, s.eq[s.col], s.col)
    requires b' < b ==> b' < nCol - 1 && Open(ix, nCol, m, Pos(s), b') && s.col <= b'
    ensures Retained(ix, nCol, m, b', mx, a', iMin')
  {
    hide Sorted, Shares, EqCount, LtCount, DLtCount, Fits, Outranked, KeyBetter;
    AppendKeepsFit(ix, nCol, m, b, b', mx, a, iMin, s);
    AppendMinRises(nCol, mx, a, iMin, s, iMin');
    if b' < b { NewGroupWitnessed(ix, nCol, m, b', a', |a'| - 1); }
    forall p: nat, j: nat | p < m && j < nCol - 1 && (j >= b' || !Open(ix, nCol, m, p, j))
      ensures Accounted(ix, m, mx, a', iMin', p, j)
    {
      if !(b' < b && j == b' && Open(ix, nCol, m, p, j)) {
        forall k | 0 <= k < |a| && Witness(ix, a[k], p, j)
          ensures Witnessed(ix, a', p, j) || (|a| == mx && k == iMin)
        {
          if |a| != mx || k < iMin { assert Witness(ix, a'[k], p, j); }
          else if k > iMin { assert Witness(ix, a'[k - 1], p, j); }
        }
        AccountedStays(ix, nCol, m, b, mx, a, iMin, a', iMin', p, j);
      }
    }
  }

  // A candidate that is not offered is outranked.
  lemma SkipKeeps(ix: Index, nCol: nat, m: nat, i: nat, mx: nat, a: seq<Sample>, iMin: nat, cand: Sample)
    requires Sorted(ix, nCol) && 0 < m <= |ix| && i < nCol - 1
    requires Retained(ix, nCol, m, i + 1, mx, a, iMin) && CandidateOk(ix, nCol, m, i, cand)
    requires |a| == mx && !Better(cand, a[iMin])
    ensures Retained(ix, nCol, m, i, mx, a, iMin)
  {
    hide Sorted, Shares, EqCount, LtCount, DLtCount;
    forall k | 0 <= k < |a| ensures Fits(ix, nCol, m, i, a[k]) { FitsLower(ix, nCol, m, i + 1, i, a[k]); }
    forall p: nat, j: nat | p < m && j < nCol - 1 && (j >= i || !Open(ix, nCol, m, p, j))
      ensures Accounted(ix, m, mx, a, iMin, p, j)
    {
      if j == i && Open(ix, nCol, m, p, j) {
        EqSame(ix, m, p, m - 1, i);
        EqSame(ix, m, Pos(cand), m - 1, i);
        assert Outranked(ix, m, mx, a, iMin, p, j);
      }
    }
  }

  // A sample at or after the candidate would be open on the candidate's column.
  lemma CandidateIsLast(ix: Index, nCol: nat, m: nat, i: nat, a: seq<Sample>, cand: Sample, k: nat)
    requires Sorted(ix, nCol) && 0 < m <= |ix| && i < nCol - 1 && AllFit(ix, nCol, m, i + 1, a)
    requires CandidateOk(ix, nCol, m, i, cand) && k < |a| && a[k].eq[i] != 0
    ensures Pos(a[k]) < Pos(cand)
  {
    hide Sorted, Shares, EqCount, LtCount, DLtCount;
    assert Fits(ix, nCol, m, i + 1, a[k]);
    if Pos(a[k]) >= Pos(cand) { Contiguous(ix, nCol, Pos(cand), Pos(a[k]), m - 1, i); }
  }

  // ---------- closing columns c and up: the back-fill ----------

  function Filled(s: Sample, cur: Sample, c: nat): (r: Sample)
    requires |cur.eq| == |s.eq|
    ensures |r.eq| == |s.eq| && r == s.(eq := r.eq)
    ensures forall j | 0 <= j < |s.eq| :: r.eq[j] == if j >= c && s.eq[j] == 0 then cur.eq[j] else s.eq[j]
  {
    s.(eq := seq(|s.eq|, j requires 0 <= j < |s.eq| => if j >= c && s.eq[j] == 0 then cur.eq[j] else s.eq[j]))
  }

  // All counts on columns c and up are final.
  ghost predicate Settled(ix: Index, nCol: nat, m: nat, c: nat, s: Sample) {
    Fits(ix, nCol, m, c, s) && forall j | c <= j < nCol :: s.eq[j] == EqCount(ix, m, Pos(s), j)
  }

  lemma FillSettles(ix: Index, nCol: nat, m: nat, c: nat, s: Sample, cur: Sample)
    requires Sorted(ix, nCol) && Fits(ix, nCol, m, c, s) && CurrentOk(ix, nCol, m, cur)
    ensures Settled(ix, nCol, m, c, Filled(s, cur, c))
    ensures !s.periodic ==> Filled(s, cur, c).eq[s.col] == s.eq[s.col]
  {
    hide Sorted, Shares, EqCount, LtCount, DLtCount;
    var r := Filled(s, cur, c);
    forall j | 0 <= j < nCol
      ensures EqCount(ix, m, Pos(s), j) > 0
      ensures Open(ix, nCol, m, Pos(s), j) ==> EqCount(ix, m, m - 1, j) == EqCount(ix, m, Pos(s), j)
    {
      EqPositive(ix, nCol, m, Pos(s), j);
      if Open(ix, nCol, m, Pos(s), j) { EqSame(ix, m, Pos(s), m - 1, j); }
    }
  }

  // When no zero stands at column c or beyond there is nothing to fill.
  lemma NothingToFill(s: Sample, cur: Sample, c: nat)
    requires |cur.eq| == |s.eq| && forall j | c <= j < |s.eq| :: s.eq[j] > 0
    ensures Filled(s, cur, c) == s
  {
    assert Filled(s, cur, c).eq == s.eq;
  }

  lemma FillKeepsAccounts(ix: Index, nCol: nat, m: nat, c: nat, mx: nat, a: seq<Sample>, iMin: nat,
                          cur: Sample, a': seq<Sample>)
    requires Sorted(ix, nCol) && CurrentOk(ix, nCol, m, cur)
    requires Retained(ix, nCol, m, c, mx, a, iMin)
    requires |a'| == |a| && forall k | 0 <= k < |a| :: |a[k].eq| == nCol && a'[k] == Filled(a[k], cur, c)
    ensures Retained(ix, nCol, m, c, mx, a', iMin)
    ensures forall k | 0 <= k < |a'| :: Settled(ix, nCol, m, c, a'[k])
  {
    hide Sorted, Shares, EqCount, LtCount, DLtCount, Fits, Open;
    forall k | 0 <= k < |a|
      ensures Settled(ix, nCol, m, c, a'[k]) && (!a[k].periodic ==> a'[k].eq[a[k].col] == a[k].eq[a[k].col])
    {
      FillSettles(ix, nCol, m, c, a[k], cur);
    }
    forall p: nat, j: nat | p < m && j < nCol - 1 && (j >= c || !Open(ix, nCol, m, p, j))
      ensures Accounted(ix, m, mx, a', iMin, p, j)
    {
      assert Accounted(ix, m, mx, a, iMin, p, j);
      if Witnessed(ix, a, p, j) {
        var k :| 0 <= k < |a| && Witness(ix, a[k], p, j);
        assert Witness(ix, a'[k], p, j);
      }
    }
  }

  // ---------- moving to the next entry ----------

  lemma SettledAdvances(ix: Index, nCol: nat, m: nat, c: nat, s: Sample)
    requires Sorted(ix, nCol) && 0 < m < |ix| && c == ChangedCol(ix[m - 1].key, ix[m].key)
    requires Settled(ix, nCol, m, c, s)
    ensures Fits(ix, nCol, m + 1, nCol - 1, s)
  {
    hide Sorted, EqCount, LtCount, DLtCount, Shares, ChangedCol;
    forall j | 0 <= j < nCol
      ensures Open(ix, nCol, m + 1, Pos(s), j) <==> Open(ix, nCol, m, Pos(s), j) && j < c
      ensures !Open(ix, nCol, m + 1, Pos(s), j) ==> EqCount(ix, m + 1, Pos(s), j) == EqCount(ix, m, Pos(s), j)
    {
      OpenAdvances(ix, nCol, m, c, Pos(s), j);
    }
    if !s.periodic { EqPositive(ix, nCol, m, Pos(s), s.col); }
  }

  lemma OpenAdvances(ix: Index, nCol: nat, m: nat, c: nat, p: nat, j: nat)
    requires Sorted(ix, nCol) && 0 < m < |ix| && c == ChangedCol(ix[m - 1].key, ix[m].key) && p < m && j < nCol
    ensures Open(ix, nCol, m + 1, p, j) <==> Open(ix, nCol, m, p, j) && j < c
    ensures !Open(ix, nCol, m + 1, p, j) ==> EqCount(ix, m + 1, p, j) == EqCount(ix, m, p, j)
  {
    hide Sorted, EqCount, LtCount, DLtCount, ChangedCol;
    ChangedColumn(ix, nCol, m, j);
    if Shares(ix, p, m, j) {
      Contiguous(ix, nCol, p, m - 1, m, j);
      if j == nCol - 1 { SharesAllIsSame(ix, nCol, p, m); }
    }
    EqGrows(ix, m, p, j);
  }

  lemma AccountsAdvance(ix: Index, nCol: nat, m: nat, c: nat, mx: nat, a: seq<Sample>, iMin: nat)
    requires nCol > 0 && Sorted(ix, nCol) && 0 < m < |ix| && c == ChangedCol(ix[m - 1].key, ix[m].key)
    requires Retained(ix, nCol, m, c, mx, a, iMin)
    requires forall k | 0 <= k < |a| :: Settled(ix, nCol, m, c, a[k])
    ensures Retained(ix, nCol, m + 1, nCol - 1, mx, a, iMin)
  {
    hide Sorted, EqCount, LtCount, DLtCount, Shares, Fits, KeyBetter, ChangedCol;
    forall k | 0 <= k < |a| ensures Fits(ix, nCol, m + 1, nCol - 1, a[k]) {
      SettledAdvances(ix, nCol, m, c, a[k]);
    }
    var m' := m + 1;
    forall p: nat, j: nat | p < m' && j < nCol - 1 && !Open(ix, nCol, m', p, j)
      ensures Accounted(ix, m', mx, a, iMin, p, j)
    {
      if p == m { SelfShares(ix, nCol, m, j); }
      else {
        OpenAdvances(ix, nCol, m, c, p, j);
        assert Accounted(ix, m, mx, a, iMin, p, j);
      }
    }
  }

  lemma SelfShares(ix: Index, nCol: nat, p: nat, j: nat)
    requires Sorted(ix, nCol) && p < |ix| && j < nCol
    ensures Shares(ix, p, p, j)
  {
  }

  // current.anEq, anLt and anDLt after one more entry, given which column changed.
  ghost predicate NextCurrent(nCol: nat, c: nat, cur: Sample, next: Sample) {
    && |cur.eq| == |cur.lt| == |cur.dlt| == |next.eq| == |next.lt| == |next.dlt| == nCol
    && forall j | 0 <= j < nCol ::
         && next.eq[j] == (if j < c then cur.eq[j] + 1 else 1)
         && next.lt[j] == (if j < c then cur.lt[j] else cur.lt[j] + cur.eq[j])
         && next.dlt[j] == (if j < c then cur.dlt[j] else cur.dlt[j] + 1)
  }

  lemma CurrentAdvances(ix: Index, nCol: nat, m: nat, c: nat, cur: Sample, next: Sample)
    requires Sorted(ix, nCol) && 0 < m < |ix| && c == ChangedCol(ix[m - 1].key, ix[m].key)
    requires CurrentOk(ix, nCol, m, cur) && NextCurrent(nCol, c, cur, next) && next.rowid == ix[m].rowid
    ensures CurrentOk(ix, nCol, m + 1, next)
  {
    hide Sorted, EqCount, LtCount, DLtCount, Shares, ChangedCol;
    forall j | 0 <= j < nCol
      ensures next.lt[j] == LtCount(ix, m, j) && next.dlt[j] == DLtCount(ix, m, j)
      ensures next.eq[j] == EqCount(ix, m + 1, m, j)
    {
      ChangedColumn(ix, nCol, m, j);
      LtAdvances(ix, nCol, m, j);
      DLtAdvances(ix, nCol, m, j);
      EqOfNext(ix, nCol, m, j);
    }
    LtLastColumn(ix, nCol, m);
  }

  lemma EqOfNext(ix: Index, nCol: nat, m: nat, j: nat)
    requires Sorted(ix, nCol) && 0 < m < |ix| && j < nCol
    ensures EqCount(ix, m + 1, m, j) == if Shares(ix, m - 1, m, j) then EqCount(ix, m, m - 1, j) + 1 else 1
  {
    hide Sorted, EqCount;
    SelfShares(ix, nCol, m, j);
    EqGrows(ix, m, m, j);
    if Shares(ix, m - 1, m, j) {
      EqSame(ix, m, m - 1, m, j);
    } else {
      forall k: nat | k < m ensures !Shares(ix, k, m, j) {
        if Shares(ix, k, m, j) { Contiguous(ix, nCol, k, m - 1, m, j); }
      }
      NoneBefore(ix, m, j);
    }
  }

  lemma NoneBefore(ix: Index, m: nat, j: nat)
    requires forall k: nat | k < m :: !Shares(ix, k, m, j)
    ensures EqCount(ix, m, m, j) == 0
  {
    assert EqSet(ix, m, m, j) == {};
  }

  // aBest[i] may be left alone: if the next entry had joined any longer prefix of it, it would have been replaced.
  lemma BestStays(ix: Index, nCol: nat, m: nat, c: nat, i: nat, best: Sample, cur: Sample)
    requires Sorted(ix, nCol) && 0 < m < |ix| && c == ChangedCol(ix[m - 1].key, ix[m].key)
    requires i < nCol - 1 && i < c && BestOk(ix, nCol, m, i, best) && CurrentOk(ix, nCol, m + 1, cur)
    requires !BetterPost(cur, best, i + 1)
    ensures BestOk(ix, nCol, m + 1, i, best)
  {
    hide Sorted, EqCount, LtCount, DLtCount, Shares, ChangedCol;
    var p := Pos(best);
    assert !Shares(ix, p, m, i + 1) by {
      if Shares(ix, p, m, i + 1) { JoinedIsBetter(ix, nCol, m, i, best, cur); }
    }
    forall j | i < j < nCol ensures EqCount(ix, m + 1, p, j) == EqCount(ix, m, p, j) {
      if Shares(ix, p, m, j) { SharesDown(ix, p, m, i + 1, j); }
      SharesSymmetric(ix, m, p, j);
      EqGrows(ix, m, p, j);
    }
    OpenAdvances(ix, nCol, m, c, p, i);
  }

  lemma SharesSymmetric(ix: Index, p: nat, q: nat, j: nat)
    ensures Shares(ix, p, q, j) <==> Shares(ix, q, p, j)
  {
  }

  lemma JoinedIsBetter(ix: Index, nCol: nat, m: nat, i: nat, best: Sample, cur: Sample)
    requires Sorted(ix, nCol) && 0 < m < |ix| && i < nCol - 1
    requires BestOk(ix, nCol, m, i, best) && CurrentOk(ix, nCol, m + 1, cur)
    requires Shares(ix, Pos(best), m, i + 1)
    ensures BetterPost(cur, best, i + 1)
  {
    hide Sorted, EqCount, LtCount, DLtCount, Shares;
    var p := Pos(best);
    EqSame(ix, m + 1, p, m, i + 1);
    SharesSymmetric(ix, m, p, i + 1);
    EqGrows(ix, m, p, i + 1);
  }

  lemma BestReplaced(ix: Index, nCol: nat, m: nat, i: nat, cur: Sample)
    requires Sorted(ix, nCol) && 0 < m <= |ix| && i < nCol - 1 && CurrentOk(ix, nCol, m, cur) && !cur.periodic
    ensures BestOk(ix, nCol, m, i, cur.(col := i))
  {
    hide Sorted, EqCount, LtCount, DLtCount, Shares;
    SelfShares(ix, nCol, m - 1, i);
  }

  // The periodic sample of the current entry: open on every column but the last.
  lemma PeriodicFits(ix: Index, nCol: nat, m: nat, cur: Sample)
    requires Sorted(ix, nCol) && 0 < m <= |ix| && nCol > 0 && CurrentOk(ix, nCol, m, cur)
    ensures Fits(ix, nCol, m, nCol - 1, Zeroed(cur.(periodic := true, col := 0), nCol - 1))
  {
    hide Sorted, EqCount, LtCount, DLtCount, Shares;
    var p := m - 1;
    forall j | 0 <= j < nCol ensures Shares(ix, p, p, j) { SelfShares(ix, nCol, p, j); }
  }

  lemma CandidateFits(ix: Index, nCol: nat, m: nat, i: nat, cand: Sample)
    requires Sorted(ix, nCol) && 0 < m <= |ix| && CandidateOk(ix, nCol, m, i, cand)
    ensures Fits(ix, nCol, m, i, Zeroed(cand, i))
  {
    hide Sorted, EqCount, LtCount, DLtCount, Shares;
    forall j | 0 <= j < i ensures Open(ix, nCol, m, Pos(cand), j) { SharesDown(ix, Pos(cand), m - 1, j, i); }
  }

  // ---------- the periodic budget ----------

  function CountPeriodic(a: seq<Sample>): (n: nat)
    ensures n <= |a|
  {
    if a == [] then 0
    else CountPeriodic(a[..|a| - 1]) + (if a[|a| - 1].periodic then 1 else 0)
  }

  // How many samples are periodic.
  function NumPeriodic(a: seq<Sample>): nat { CountPeriodic(a) }

  lemma DueDivides(p: nat, n: nat)
    requires n > 0
    ensures Periods(p + 1, n) == Periods(p, n) + if Due(p, n) then 1 else 0
  {
    var q, r := p / n, p % n;
    assert p == q * n + r;
    if r + 1 == n {
      assert p + 1 == (q + 1) * n;
      assert (p + 1) / n == q + 1 by { DivExact(p + 1, n, q + 1, 0); }
    } else {
      assert (p + 1) / n == q by { DivExact(p + 1, n, q, r + 1); }
    }
  }

  lemma DivExact(x: nat, n: nat, q: nat, r: nat)
    requires n > 0 && x == q * n + r && r < n
    ensures x / n == q
  {
    var q', r' := x / n, x % n;
    assert x == q' * n + r';
    assert q' >= q + 1 ==> q' * n >= (q + 1) * n;
    assert q >= q' + 1 ==> q * n >= (q' + 1) * n;
  }

  lemma {:induction false} PeriodsMonotone(x: nat, y: nat, n: nat)
    requires n > 0 && x <= y
    ensures Periods(x, n) <= Periods(y, n)
    decreases y - x
  {
    hide Periods;
    if x < y {
      DueDivides(y - 1, n);
      PeriodsMonotone(x, y - 1, n);
    }
  }

  // Retained periodic samples are at most one per period.
  lemma {:induction false} PeriodicAtMost(a: seq<Sample>, m: nat, n: nat)
    requires n > 0 && Ordered(a)
    requires forall k | 0 <= k < |a| :: Pos(a[k]) < m && (a[k].periodic ==> Due(Pos(a[k]), n))
    ensures NumPeriodic(a) <= Periods(m, n)
    decreases |a|
  {
    hide Periods;
    if a != [] {
      var l := |a| - 1;
      var p := Pos(a[l]);
      PeriodicAtMost(a[..l], p, n);
      DueDivides(p, n);
      PeriodsMonotone(p + 1, m, n);
    }
  }

  lemma {:induction false} PeriodicAtLeast(a: seq<Sample>, m: nat, n: nat)
    requires n > 0 && Ordered(a) && forall k | 0 <= k < |a| :: Pos(a[k]) < m
    requires forall p: nat | p < m && Due(p, n) :: HasPeriodic(a, p)
    ensures NumPeriodic(a) >= Periods(m, n)
    decreases m
  {
    if m == 0 { return; }
    hide Periods, Due, HasPeriodic;
    DueDivides(m - 1, n);
    if Due(m - 1, n) { LastPeriodic(a, m - 1); }
    if a != [] && Pos(a[|a| - 1]) == m - 1 {
      EarlierPeriodic(a, a[..|a| - 1], m - 1, n);
      PeriodicAtLeast(a[..|a| - 1], m - 1, n);
    } else {
      assert forall k | 0 <= k < |a| :: Pos(a[k]) < m - 1;
      PeriodicAtLeast(a, m - 1, n);
    }
  }

  // The periodic sample of the last entry is the last sample.
  lemma LastPeriodic(a: seq<Sample>, p: nat)
    requires Ordered(a) && HasPeriodic(a, p) && forall k | 0 <= k < |a| :: Pos(a[k]) <= p
    ensures a != [] && Pos(a[|a| - 1]) == p && a[|a| - 1].periodic
  {
    var k :| 0 <= k < |a| && a[k].periodic && Pos(a[k]) == p;
  }

  lemma EarlierPeriodic(a: seq<Sample>, a': seq<Sample>, m: nat, n: nat)
    requires n > 0 && a' <= a && forall k | |a'| <= k < |a| :: Pos(a[k]) >= m
    requires forall p: nat | p < m && Due(p, n) :: HasPeriodic(a, p)
    ensures forall p: nat | p < m && Due(p, n) :: HasPeriodic(a', p)
  {
    hide Due;
    forall p: nat | p < m && Due(p, n) ensures HasPeriodic(a', p) {
      var k :| 0 <= k < |a| && a[k].periodic && Pos(a[k]) == p;
      assert a'[k] == a[k];
    }
  }

  lemma {:induction false} OnlyPeriodic(a: seq<Sample>)
    requires NumPeriodic(a) >= |a|
    ensures NumPeriodic(a) == |a| && forall k | 0 <= k < |a| :: a[k].periodic
    decreases |a|
  {
    if a != [] {
      var b := a[..|a| - 1];
      OnlyPeriodic(b);
      assert forall k | 0 <= k < |b| :: b[k] == a[k];
    }
  }

  lemma {:induction false} AllPeriodic(a: seq<Sample>)
    requires forall k | 0 <= k < |a| :: a[k].periodic
    ensures NumPeriodic(a) == |a|
    decreases |a|
  {
    if a != [] { AllPeriodic(a[..|a| - 1]); }
  }

  lemma NumAtMost(a: seq<Sample>)
    ensures NumPeriodic(a) <= |a|
  {
  }

  // nPSample: how many entries make up one period.
  function Period(nEst: nat, mx: nat): (n: nat)
    ensures n > 0
  {
    nEst / (mx / 3 + 1) + 1
  }

  lemma FewPeriods(x: nat, k: nat)
    requires k > 0
    ensures Periods(x, x / k + 1) < k
  {
    var q, r := x / k, x % k;
    assert x == q * k + r;
    assert x < k * (q + 1);
    QuotientBelow(x, q + 1, k);
  }

  lemma QuotientBelow(x: nat, n: nat, k: nat)
    requires n > 0 && x < k * n
    ensures x / n < k
  {
    var q := x / n;
    assert q * n <= x;
    assert q >= k ==> q * n >= k * n;
  }

  // One period is long enough that a scan no longer than the estimate has at most mx/3 of them.
  lemma PeriodBudget(m: nat, nEst: nat, mx: nat)
    requires m <= nEst
    ensures Periods(m, Period(nEst, mx)) <= mx / 3
  {
    hide Periods;
    var k := mx / 3 + 1;
    var n := Period(nEst, mx);
    PeriodsMonotone(m, nEst, n);
    FewPeriods(nEst, k);
  }
}
