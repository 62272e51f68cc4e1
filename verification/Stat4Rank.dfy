/** Where the samples of STAT4 stand: zeros are leading, counts from a sample's own column on are
    known, and so the eviction candidate is least in the full preference order at all times. */
module Stat4Rank {
  import opened IndexOrder
  import opened Stat4

  predicate Shaped(nCol: nat, a: seq<Sample>) {
    forall k | 0 <= k < |a| :: |a[k].eq| == nCol && (!a[k].periodic ==> a[k].col < nCol)
  }

  ghost predicate OpenPeriodic(a: seq<Sample>, col: nat) {
    exists k :: 0 <= k < |a| && col < |a[k].eq| && a[k].eq[col] == 0 && a[k].periodic
  }

  // a[u] is open on column col and no other open sample is better.
  ghost predicate BestOpen(nCol: nat, a: seq<Sample>, col: nat, u: nat)
    requires Shaped(nCol, a) && col < nCol
  {
    && u < |a| && a[u].eq[col] == 0 && !a[u].periodic
    && forall k | 0 <= k < |a| && a[k].eq[col] == 0 && !a[k].periodic :: !Better(a[k], a[u])
  }

  // What sampleInsert does to a[]: nothing, one upgrade, or one append.
  ghost predicate InsertOutcome(nCol: nat, mx: nat, a: seq<Sample>, iMin: nat, cand: Sample, z: nat, a': seq<Sample>)
    requires Shaped(nCol, a) && |cand.eq| == nCol && z <= nCol && cand.col < nCol
    requires |a| == mx ==> iMin < |a|
  {
    if !cand.periodic && OpenPeriodic(a, cand.col) then a' == a
    else if !cand.periodic && exists k :: 0 <= k < |a| && a[k].eq[cand.col] == 0 then
      exists u: nat :: BestOpen(nCol, a, cand.col, u) && a' == a[u := Upgraded(a[u], cand)]
    else a' == Appended(mx, a, iMin, Zeroed(cand, z))
  }

  // ---------- what holds of every retained sample ----------

  ghost predicate LeadingZeros(s: Sample) {
    forall i, j | 0 <= i < j < |s.eq| && s.eq[j] == 0 :: s.eq[i] == 0
  }

  // Counts from the sample's own column on are known, as sampleIsBetter assumes.
  ghost predicate Known(s: Sample) {
    forall j | s.col <= j < |s.eq| :: s.eq[j] > 0
  }

  ghost predicate Standing(s: Sample) { LeadingZeros(s) && (!s.periodic ==> Known(s)) }

  ghost predicate AllStanding(a: seq<Sample>) { forall k | 0 <= k < |a| :: Standing(a[k]) }

  // a[iMin] is not better than any other non-periodic sample, in the full order, once the array is full.
  ghost predicate Least(nCol: nat, mx: nat, a: seq<Sample>, iMin: nat) {
    && Shaped(nCol, a)
    && (|a| == mx ==>
          && iMin < |a| && !a[iMin].periodic
          && forall k | 0 <= k < |a| && !a[k].periodic :: !Better(a[iMin], a[k]))
  }

  // ---------- filling zeros changes no comparison ----------

  lemma {:induction false} BetterPostSame(x: Sample, y: Sample, x': Sample, y': Sample, i: nat)
    requires |x.eq| == |y.eq| == |x'.eq| == |y'.eq| && x.hash == x'.hash && y.hash == y'.hash
    requires forall j | i <= j < |x.eq| :: x.eq[j] == x'.eq[j] && y.eq[j] == y'.eq[j]
    ensures BetterPost(x, y, i) == BetterPost(x', y', i)
    decreases |x.eq| - i
  {
    if i < |x.eq| { BetterPostSame(x, y, x', y', i + 1); }
  }

  lemma FilledSame(s: Sample, cur: Sample, c: nat)
    requires |cur.eq| == |s.eq| && Standing(s) && forall j | 0 <= j < |cur.eq| :: cur.eq[j] > 0
    ensures Standing(Filled(s, cur, c))
    ensures !s.periodic ==> forall j | s.col <= j < |s.eq| :: Filled(s, cur, c).eq[j] == s.eq[j]
  {
  }

  lemma FillKeepsLeast(nCol: nat, mx: nat, a: seq<Sample>, iMin: nat, cur: Sample, c: nat, a': seq<Sample>)
    requires |cur.eq| == nCol && forall j | 0 <= j < nCol :: cur.eq[j] > 0
    requires AllStanding(a) && Least(nCol, mx, a, iMin)
    requires |a'| == |a| && forall k | 0 <= k < |a| :: a'[k] == Filled(a[k], cur, c)
    ensures AllStanding(a') && Least(nCol, mx, a', iMin)
  {
    hide BetterPost, Filled, Standing;
    forall k | 0 <= k < |a| ensures Standing(a'[k]) { FilledSame(a[k], cur, c); }
    if |a| == mx {
      forall k | 0 <= k < |a| && !a[k].periodic ensures !Better(a'[iMin], a'[k]) {
        FilledSame(a[k], cur, c);
        FilledSame(a[iMin], cur, c);
        assert !Better(a[iMin], a[k]);
        if a[k].col == a[iMin].col { BetterPostSame(a[iMin], a[k], a'[iMin], a'[k], a[k].col + 1); }
      }
    }
  }

  // ---------- the samples still open while columns b and up are closed ----------

  // a[w] is open on column j and outranks a[u].
  ghost predicate OpenAbove(a: seq<Sample>, w: nat, u: nat, j: nat) {
    && w < |a| && u < |a| && !a[w].periodic && j < |a[w].eq| && a[w].eq[j] == 0
    && a[w].col < |a[w].eq| && a[u].col < |a[u].eq|
    && KeyBetter(a[w].eq[a[w].col], a[w].col, a[u].eq[a[u].col], a[u].col)
  }

  ghost predicate Overshadowed(a: seq<Sample>, u: nat, j: nat) {
    OpenPeriodic(a, j) || exists w :: OpenAbove(a, w, u, j)
  }

  // A sample passed over on column b will be passed over on the next column too.
  ghost predicate PassedOver(a: seq<Sample>, b: nat) {
    forall u | 0 <= u < |a| && !a[u].periodic && 0 < b < |a[u].eq| && a[u].eq[b] == 0 :: Overshadowed(a, u, b - 1)
  }

  lemma NonePassedOver(ix: Index, nCol: nat, m: nat, b: nat, a: seq<Sample>)
    requires Sorted(ix, nCol) && nCol > 0 && m <= |ix| && AllFit(ix, nCol, m, b, a)
    ensures PassedOver(a, nCol - 1)
  {
    hide Sorted, Shares, EqCount, LtCount, DLtCount;
    forall k | 0 <= k < |a| ensures a[k].eq[nCol - 1] != 0 {
      assert Fits(ix, nCol, m, b, a[k]);
      EqPositive(ix, nCol, m, Pos(a[k]), nCol - 1);
    }
  }

  // The candidate outranks every sample that is still open on its column.
  lemma CandidateAbove(ix: Index, nCol: nat, m: nat, i: nat, a: seq<Sample>, cand: Sample, u: nat)
    requires Sorted(ix, nCol) && 0 < m <= |ix| && AllFit(ix, nCol, m, i + 1, a) && CandidateOk(ix, nCol, m, i, cand)
    requires u < |a| && !a[u].periodic && i < |a[u].eq| && a[u].eq[i] == 0
    ensures a[u].col < |a[u].eq| && KeyBetter(cand.eq[i], i, a[u].eq[a[u].col], a[u].col)
  {
    hide Sorted, Shares, EqCount, LtCount, DLtCount;
    assert Fits(ix, nCol, m, i + 1, a[u]);
    UpgradeNeverDemotes(ix, nCol, m, i, a[u], cand);
  }

  // A candidate that is not offered finds no open sample.
  lemma SkipLeavesNone(ix: Index, nCol: nat, m: nat, i: nat, mx: nat, a: seq<Sample>, iMin: nat, cand: Sample)
    requires Sorted(ix, nCol) && 0 < m <= |ix| && AllFit(ix, nCol, m, i + 1, a) && CandidateOk(ix, nCol, m, i, cand)
    requires MinOk(nCol, mx, a, iMin) && |a| == mx && !Better(cand, a[iMin])
    ensures PassedOver(a, i)
  {
    hide Sorted, Shares, EqCount, LtCount, DLtCount, Fits, BetterPost;
    forall u | 0 <= u < |a| && !a[u].periodic && i < |a[u].eq| ensures a[u].eq[i] != 0 {
      if a[u].eq[i] == 0 { CandidateAbove(ix, nCol, m, i, a, cand, u); }
    }
  }

  // The sample that is upgraded has all longer prefixes counted.
  lemma UpgradedStands(nCol: nat, a: seq<Sample>, i: nat, cand: Sample, u: nat)
    requires Shaped(nCol, a) && i < nCol - 1 && AllStanding(a) && PassedOver(a, i + 1)
    requires !OpenPeriodic(a, i) && BestOpen(nCol, a, i, u) && |cand.eq| == nCol && cand.col == i && cand.eq[i] > 0
    ensures Standing(Upgraded(a[u], cand))
  {
    hide BetterPost;
    assert a[u].eq[i + 1] != 0;
  }

  lemma UpgradeLeaves(ix: Index, nCol: nat, m: nat, i: nat, a: seq<Sample>, cand: Sample, u: nat, a': seq<Sample>)
    requires Sorted(ix, nCol) && 0 < m <= |ix| && i < nCol - 1 && AllFit(ix, nCol, m, i + 1, a)
    requires CandidateOk(ix, nCol, m, i, cand) && cand.eq[i] > 0 && Shaped(nCol, a) && AllStanding(a)
    requires u < |a| && a[u].eq[i] == 0 && !a[u].periodic && a' == a[u := Upgraded(a[u], cand)]
    ensures PassedOver(a', i)
  {
    hide Sorted, Shares, EqCount, LtCount, DLtCount, Fits;
    forall k | 0 <= k < |a'| && !a'[k].periodic && 0 < i < |a'[k].eq|
        && a'[k].eq[i] == 0 ensures Overshadowed(a', k, i - 1) {
      CandidateAbove(ix, nCol, m, i, a, cand, k);
      assert Standing(a[u]);
      assert OpenAbove(a', u, k, i - 1);
    }
  }

  lemma AppendLeaves(mx: nat, a: seq<Sample>, iMin: nat, i: nat, s: Sample)
    requires (|a| == mx ==> iMin < |a|) && i < |s.eq| && s.eq[i] > 0
    requires forall k | 0 <= k < |a| && i < |a[k].eq| :: a[k].eq[i] > 0
    ensures PassedOver(Appended(mx, a, iMin, s), i)
  {
    var a' := Appended(mx, a, iMin, s);
    forall k | 0 <= k < |a'| && i < |a'[k].eq| ensures a'[k].eq[i] > 0 {
      if k < |a'| - 1 { assert a'[k] in a; }
    }
  }

  // Whatever an offered candidate does, all samples stand and the rest stay passed over.
  lemma OfferedStands(ix: Index, nCol: nat, m: nat, i: nat, mx: nat, a: seq<Sample>, iMin: nat, cand: Sample,
                      a': seq<Sample>)
    requires Sorted(ix, nCol) && 0 < m <= |ix| && i < nCol - 1 && AllFit(ix, nCol, m, i + 1, a)
    requires CandidateOk(ix, nCol, m, i, cand) && forall j | i <= j < nCol :: cand.eq[j] > 0
    requires Shaped(nCol, a) && AllStanding(a) && PassedOver(a, i + 1) && (|a| == mx ==> iMin < |a|)
    requires InsertOutcome(nCol, mx, a, iMin, cand, i, a')
    ensures AllStanding(a') && PassedOver(a', i)
  {
    hide Sorted, Shares, EqCount, LtCount, DLtCount, AllFit, Better, PassedOver, Standing, Appended, Upgraded;
    if OpenPeriodic(a, i) {
      PeriodicStaysOpen(ix, nCol, m, i, a);
    } else if exists k :: 0 <= k < |a| && a[k].eq[i] == 0 {
      var u: nat :| BestOpen(nCol, a, i, u) && a' == a[u := Upgraded(a[u], cand)];
      UpgradedStands(nCol, a, i, cand, u);
      UpgradeLeaves(ix, nCol, m, i, a, cand, u, a');
    } else {
      ZeroedStands(cand, i);
      AppendStands(mx, a, iMin, Zeroed(cand, i));
      AppendLeaves(mx, a, iMin, i, Zeroed(cand, i));
    }
  }

  lemma ZeroedStands(s: Sample, z: nat)
    requires z < |s.eq| && (s.periodic || s.col >= z) && forall j | z <= j < |s.eq| :: s.eq[j] > 0
    ensures Standing(Zeroed(s, z)) && Zeroed(s, z).eq[z] > 0
  {
  }

  lemma AppendStands(mx: nat, a: seq<Sample>, iMin: nat, s: Sample)
    requires AllStanding(a) && (|a| == mx ==> iMin < |a|) && Standing(s)
    ensures AllStanding(Appended(mx, a, iMin, s))
  {
    hide Standing;
  }

  lemma PeriodicStaysOpen(ix: Index, nCol: nat, m: nat, i: nat, a: seq<Sample>)
    requires AllFit(ix, nCol, m, i + 1, a) && i < nCol - 1 && OpenPeriodic(a, i)
    requires AllStanding(a)
    ensures PassedOver(a, i)
  {
    hide Fits;
    var k :| 0 <= k < |a| && i < |a[k].eq| && a[k].eq[i] == 0 && a[k].periodic;
    if i > 0 { assert a[k].eq[i - 1] == 0; }
  }
}
