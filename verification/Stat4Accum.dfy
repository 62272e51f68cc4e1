/** stat_init, stat_push and the final flush of stat_get, as updates of one StatAccum object. */
module Stat4Accum {
  import opened IndexOrder
  import opened Stat4
  import opened Stat4Rank
  import opened Stat4Best

  // ---------- periodic counts under the three outcomes of an insertion ----------

  lemma {:induction false} CountConcat(x: seq<Sample>, y: seq<Sample>)
    ensures NumPeriodic(x + y) == NumPeriodic(x) + NumPeriodic(y)
    decreases |y|
  {
    if y == [] {
      assert x + y == x;
    } else {
      var l := |y| - 1;
      assert (x + y)[..|x + y| - 1] == x + y[..l];
      CountConcat(x, y[..l]);
    }
  }

  lemma CountUpdate(a: seq<Sample>, u: nat, s: Sample)
    requires u < |a| && s.periodic == a[u].periodic
    ensures NumPeriodic(a[u := s]) == NumPeriodic(a)
  {
    assert a == a[..u] + [a[u]] + a[u + 1..] && a[u := s] == a[..u] + [s] + a[u + 1..];
    CountConcat(a[..u], [a[u]]);
    CountConcat(a[..u] + [a[u]], a[u + 1..]);
    CountConcat(a[..u], [s]);
    CountConcat(a[..u] + [s], a[u + 1..]);
  }

  lemma CountWithout(a: seq<Sample>, k: nat)
    requires k < |a| && !a[k].periodic
    ensures NumPeriodic(a[..k] + a[k + 1..]) == NumPeriodic(a)
  {
    hide NumPeriodic;
    assert a == a[..k] + [a[k]] + a[k + 1..];
    CountConcat(a[..k], [a[k]]);
    CountConcat(a[..k] + [a[k]], a[k + 1..]);
    CountConcat(a[..k], a[k + 1..]);
    CountOne(a[k]);
  }

  lemma CountOne(s: Sample)
    ensures NumPeriodic([s]) == if s.periodic then 1 else 0
  {
    assert [s][..0] == [];
  }

  lemma CountAppended(mx: nat, a: seq<Sample>, iMin: nat, s: Sample)
    requires |a| == mx ==> iMin < |a| && !a[iMin].periodic
    ensures NumPeriodic(Appended(mx, a, iMin, s)) == NumPeriodic(a) + (if s.periodic then 1 else 0)
  {
    hide NumPeriodic;
    CountOne(s);
    if |a| == mx {
      CountWithout(a, iMin);
      CountConcat(a[..iMin] + a[iMin + 1..], [s]);
    } else {
      CountConcat(a, [s]);
    }
  }

  // ---------- the two searches of sampleInsert ----------

  // Scan from the newest sample down: stop at an open periodic one, else pick the best open one.
  method FindUpgrade(nCol: nat, a: seq<Sample>, col: nat) returns (covered: bool, up: int)
    requires Shaped(nCol, a) && col < nCol
    ensures covered <==> OpenPeriodic(a, col)
    ensures !covered && up >= 0 ==> BestOpen(nCol, a, col, up)
    ensures !covered && up < 0 ==> forall k | 0 <= k < |a| :: a[k].eq[col] != 0
  {
    covered, up := false, -1;
    var i := |a|;
    while i > 0
      invariant 0 <= i <= |a| && -1 <= up < |a|
      invariant forall k | i <= k < |a| && a[k].eq[col] == 0 :: !a[k].periodic
      invariant up < 0 ==> forall k | i <= k < |a| :: a[k].eq[col] != 0
      invariant up >= 0 ==> i <= up && a[up].eq[col] == 0
      invariant up >= 0 ==> forall k | i <= k < |a| && a[k].eq[col] == 0 :: !Better(a[k], a[up])
    {
      i := i - 1;
      if a[i].eq[col] == 0 {
        if a[i].periodic { covered := true; return; }
        BetterPostIrreflexive(a[i], a[i].col + 1);
        var take := up < 0;
        if !take { take := IsBetter(a[i], a[up]); }
        if take {
          forall k | i < k < |a| && a[k].eq[col] == 0 ensures !Better(a[k], a[i]) {
            if up >= 0 && Better(a[k], a[i]) { BetterTransitive(a[k], a[i], a[up]); }
          }
          up := i;
        }
      }
    }
  }

  // The least desirable non-periodic sample, or -1 if there is none.
  method FindMin(nCol: nat, a: seq<Sample>) returns (iMin: int)
    requires Shaped(nCol, a)
    ensures iMin < 0 <==> forall k | 0 <= k < |a| :: a[k].periodic
    ensures iMin >= 0 ==> iMin < |a| && !a[iMin].periodic && forall k | 0 <= k < |a| && !a[k].periodic ::
              !Better(a[iMin], a[k])
  {
    iMin := -1;
    var i := 0;
    while i < |a|
      invariant 0 <= i <= |a| && -1 <= iMin < i
      invariant iMin < 0 ==> forall k | 0 <= k < i :: a[k].periodic
      invariant iMin >= 0 ==> !a[iMin].periodic && forall k | 0 <= k < i && !a[k].periodic :: !Better(a[iMin], a[k])
    {
      if !a[i].periodic {
        BetterPostIrreflexive(a[i], a[i].col + 1);
        var take := iMin < 0;
        if !take { take := IsBetter(a[iMin], a[i]); }
        if take {
          forall k | 0 <= k < i && !a[k].periodic ensures !Better(a[i], a[k]) {
            if iMin >= 0 && Better(a[i], a[k]) { BetterTransitive(a[iMin], a[i], a[k]); }
          }
          iMin := i;
        }
      }
      i := i + 1;
    }
  }

  lemma UpgradeOutcome(nCol: nat, mx: nat, a: seq<Sample>, iMin: nat, cand: Sample, z: nat, u: nat)
    requires Shaped(nCol, a) && |cand.eq| == nCol && z <= nCol && cand.col < nCol && !cand.periodic
    requires (|a| == mx ==> iMin < |a|) && !OpenPeriodic(a, cand.col) && BestOpen(nCol, a, cand.col, u)
    ensures var a' := a[u := Upgraded(a[u], cand)];
            InsertOutcome(nCol, mx, a, iMin, cand, z, a') && Shaped(nCol, a') && NumPeriodic(a') == NumPeriodic(a)
  {
    hide Better, NumPeriodic;
    CountUpdate(a, u, Upgraded(a[u], cand));
  }

  lemma ShapedAppend(nCol: nat, mx: nat, a: seq<Sample>, iMin: nat, cand: Sample, z: nat)
    requires Shaped(nCol, a) && |cand.eq| == nCol && z <= nCol && cand.col < nCol && (|a| == mx ==> iMin < |a|)
    ensures Shaped(nCol, Appended(mx, a, iMin, Zeroed(cand, z)))
    ensures Zeroed(cand, z).periodic == cand.periodic
  {
    var s := Zeroed(cand, z);
    var a' := Appended(mx, a, iMin, s);
    assert |s.eq| == nCol && s.col == cand.col;
    forall k | 0 <= k < |a'| ensures |a'[k].eq| == nCol && (!a'[k].periodic ==> a'[k].col < nCol) {
      if k < |a'| - 1 { assert a'[k] in a; }
    }
  }

  lemma CoveredOutcome(nCol: nat, mx: nat, a: seq<Sample>, iMin: nat, cand: Sample, z: nat)
    requires Shaped(nCol, a) && |cand.eq| == nCol && z <= nCol && cand.col < nCol && !cand.periodic
    requires (|a| == mx ==> iMin < |a|) && OpenPeriodic(a, cand.col)
    ensures InsertOutcome(nCol, mx, a, iMin, cand, z, a)
  {
  }

  lemma AppendOutcome(nCol: nat, mx: nat, a: seq<Sample>, iMin: nat, cand: Sample, z: nat)
    requires Shaped(nCol, a) && |cand.eq| == nCol && z <= nCol && cand.col < nCol
    requires |a| == mx ==> iMin < |a| && !a[iMin].periodic
    requires !cand.periodic ==> forall k | 0 <= k < |a| :: a[k].eq[cand.col] != 0
    ensures var a' := Appended(mx, a, iMin, Zeroed(cand, z));
            && InsertOutcome(nCol, mx, a, iMin, cand, z, a') && Shaped(nCol, a')
            && NumPeriodic(a') == NumPeriodic(a) + (if cand.periodic then 1 else 0)
  {
    hide Better, Zeroed, Appended, NumPeriodic;
    CountAppended(mx, a, iMin, Zeroed(cand, z));
    ShapedAppend(nCol, mx, a, iMin, cand, z);
  }

  lemma NotFull(nCol: nat, mx: nat, a: seq<Sample>, iMin: nat)
    requires Shaped(nCol, a) && |a| < mx
    ensures MinOk(nCol, mx, a, iMin)
  {
  }

  lemma LeastKey(nCol: nat, mx: nat, a: seq<Sample>, iMin: nat)
    requires Shaped(nCol, a) && iMin < |a| && !a[iMin].periodic
    requires forall k | 0 <= k < |a| && !a[k].periodic :: !Better(a[iMin], a[k])
    ensures MinOk(nCol, mx, a, iMin)
  {
    forall k | 0 <= k < |a| && !a[k].periodic
      ensures !KeyBetter(a[iMin].eq[a[iMin].col], a[iMin].col, a[k].eq[a[k].col], a[k].col)
    {
      assert !Better(a[iMin], a[k]);
    }
  }

  // A candidate for column i, once placed, leaves that column closed.
  lemma CandidatePlaced(ix: Index, nCol: nat, m: nat, i: nat, mx: nat, a: seq<Sample>, iMin: nat,
                        cand: Sample, a': seq<Sample>, iMin': nat)
    requires Sorted(ix, nCol) && 0 < m <= |ix| && i < nCol - 1 && mx > 0
    requires Retained(ix, nCol, m, i + 1, mx, a, iMin) && CandidateOk(ix, nCol, m, i, cand)
    requires |a| == mx ==> Better(cand, a[iMin])
    requires Shaped(nCol, a) && InsertOutcome(nCol, mx, a, iMin, cand, i, a') && MinOk(nCol, mx, a', iMin')
    ensures Retained(ix, nCol, m, i, mx, a', iMin')
  {
    hide Sorted, Shares, EqCount, LtCount, DLtCount, AllAccounted, AllFit, Ordered, Appended, Zeroed;
    if OpenPeriodic(a, i) {
      var k :| 0 <= k < |a| && i < |a[k].eq| && a[k].eq[i] == 0 && a[k].periodic;
      CoveredKeeps(ix, nCol, m, i, mx, a, iMin, k, iMin');
    } else if exists k :: 0 <= k < |a| && a[k].eq[i] == 0 {
      var u: nat :| BestOpen(nCol, a, i, u) && a' == a[u := Upgraded(a[u], cand)];
      UpgradeKeeps(ix, nCol, m, i, mx, a, iMin, u, cand, a', iMin');
    } else {
      forall k | 0 <= k < |a| ensures Pos(a[k]) < Pos(cand) { CandidateIsLast(ix, nCol, m, i, a, cand, k); }
      CandidateFits(ix, nCol, m, i, cand);
      ZeroedKeeps(cand, i);
      AppendKeeps(ix, nCol, m, i + 1, i, mx, a, iMin, Zeroed(cand, i), a', iMin');
    }
  }

  lemma ZeroedKeeps(s: Sample, z: nat)
    requires z <= |s.eq|
    ensures var r := Zeroed(s, z); r == s.(eq := r.eq) && Pos(r) == Pos(s)
    ensures z < |s.eq| ==> Zeroed(s, z).eq[z] == s.eq[z]
  {
  }

  // Insertions never lose a periodic sample, and add one only when asked to.
  lemma PeriodicKept(nCol: nat, mx: nat, a: seq<Sample>, iMin: nat, cand: Sample, z: nat, a': seq<Sample>, m: nat,
                     n: nat)
    requires Shaped(nCol, a) && |cand.eq| == nCol && z <= nCol && cand.col < nCol
    requires |a| == mx ==> iMin < |a| && !a[iMin].periodic
    requires InsertOutcome(nCol, mx, a, iMin, cand, z, a') && PeriodicOk(a, m, n)
    requires cand.periodic ==> Pos(cand) == m && Due(m, n)
    ensures PeriodicOk(a', if cand.periodic then m + 1 else m, n)
  {
    hide Better, Zeroed, Periods;
    ZeroedKeeps(cand, z);
    forall p: nat | HasPeriodic(a, p) ensures HasPeriodic(a', p) {
      var k :| 0 <= k < |a| && a[k].periodic && Pos(a[k]) == p;
      KeptAt(nCol, mx, a, iMin, cand, z, a', k);
    }
    forall k | 0 <= k < |a'| && a'[k].periodic
      ensures (Pos(a'[k]) == Pos(cand) && cand.periodic) || HasPeriodic(a, Pos(a'[k]))
    {
      CameFrom(nCol, mx, a, iMin, cand, z, a', k);
    }
    if cand.periodic { assert a'[|a'| - 1] == Zeroed(cand, z); assert HasPeriodic(a', m); }
  }

  lemma KeptAt(nCol: nat, mx: nat, a: seq<Sample>, iMin: nat, cand: Sample, z: nat, a': seq<Sample>, k: nat)
    requires Shaped(nCol, a) && |cand.eq| == nCol && z <= nCol && cand.col < nCol
    requires |a| == mx ==> iMin < |a| && !a[iMin].periodic
    requires InsertOutcome(nCol, mx, a, iMin, cand, z, a') && k < |a| && a[k].periodic
    ensures HasPeriodic(a', Pos(a[k]))
  {
    hide Better, Zeroed;
    if !(k < |a'| && a'[k] == a[k]) { assert a'[k - 1] == a[k]; }
  }

  lemma CameFrom(nCol: nat, mx: nat, a: seq<Sample>, iMin: nat, cand: Sample, z: nat, a': seq<Sample>, k: nat)
    requires Shaped(nCol, a) && |cand.eq| == nCol && z <= nCol && cand.col < nCol
    requires |a| == mx ==> iMin < |a| && !a[iMin].periodic
    requires InsertOutcome(nCol, mx, a, iMin, cand, z, a') && k < |a'| && a'[k].periodic
    ensures (Pos(a'[k]) == Pos(cand) && cand.periodic) || HasPeriodic(a, Pos(a'[k]))
  {
    hide Better, Zeroed;
    ZeroedKeeps(cand, z);
    if a' == Appended(mx, a, iMin, Zeroed(cand, z)) {
      if k < |a'| - 1 {
        var l := if |a| == mx && k >= iMin then k + 1 else k;
        assert a'[k] == a[l];
      }
    } else {
      assert Pos(a'[k]) == Pos(a[k]) && a[k].periodic;
    }
  }

  lemma ZerosKept(nCol: nat, mx: nat, a: seq<Sample>, iMin: nat, cand: Sample, z: nat, a': seq<Sample>, lo: nat,
                  hi: nat)
    requires Shaped(nCol, a) && |cand.eq| == nCol && z <= nCol && cand.col < nCol
    requires |a| == mx ==> iMin < |a|
    requires InsertOutcome(nCol, mx, a, iMin, cand, z, a') && ZerosBelow(nCol, a, lo) && lo <= hi && z <= hi
    requires forall j | z <= j < nCol :: cand.eq[j] > 0
    requires !cand.periodic ==> cand.eq[cand.col] > 0
    ensures ZerosBelow(nCol, a', hi)
  {
    hide Better;
    forall k, j | 0 <= k < |a'| && hi <= j < nCol && j < |a'[k].eq| ensures a'[k].eq[j] > 0 {
      if a' == Appended(mx, a, iMin, Zeroed(cand, z)) {
        if k < |a'| - 1 {
          var l := if |a| == mx && k >= iMin then k + 1 else k;
          assert a'[k] == a[l];
        }
      } else {
        assert a[k].eq[j] > 0;
      }
    }
  }

  lemma CountedBest(ix: Index, nCol: nat, m: nat, i: nat, best: Sample, cur: Sample)
    requires i < nCol - 1 && BestOk(ix, nCol, m, i, best) && CurrentOk(ix, nCol, m, cur) && Sorted(ix, nCol)
    ensures CandidateOk(ix, nCol, m, i, best.(eq := best.eq[i := cur.eq[i]]))
    ensures var eq := best.eq[i := cur.eq[i]]; forall j | i <= j < nCol :: eq[j] > 0
  {
    hide Sorted, EqCount, LtCount, DLtCount, Shares;
    EqSame(ix, m, Pos(best), m - 1, i);
    forall j | i <= j < nCol ensures EqCount(ix, m, Pos(best), j) > 0 { EqPositive(ix, nCol, m, Pos(best), j); }
  }

  // What holds after a candidate for column i has been inserted.
  lemma OfferTaken(ix: Index, nCol: nat, m: nat, i: nat, mx: nat, n: nat, a: seq<Sample>, iMin: nat, cand: Sample,
                   a': seq<Sample>, iMin': nat, lo: nat, hi: nat)
    requires Sorted(ix, nCol) && 0 < m <= |ix| && i < nCol - 1 && mx > 0
    requires Retained(ix, nCol, m, i + 1, mx, a, iMin) && CandidateOk(ix, nCol, m, i, cand)
    requires |a| == mx ==> Better(cand, a[iMin])
    requires Shaped(nCol, a) && InsertOutcome(nCol, mx, a, iMin, cand, i, a') && MinOk(nCol, mx, a', iMin')
    requires (forall j | i <= j < nCol :: cand.eq[j] > 0) && AllStanding(a) && PassedOver(a, i + 1)
    requires PeriodicOk(a, m, n) && ZerosBelow(nCol, a, lo) && lo <= hi && i <= hi
    ensures Retained(ix, nCol, m, i, mx, a', iMin') && AllStanding(a') && PassedOver(a', i)
    ensures PeriodicOk(a', m, n) && ZerosBelow(nCol, a', hi)
  {
    hide Sorted, EqCount, LtCount, DLtCount, Shares, Better, InsertOutcome, AllAccounted, AllFit, PassedOver,
         AllStanding, PeriodicOk, ZerosBelow, Ordered;
    CandidatePlaced(ix, nCol, m, i, mx, a, iMin, cand, a', iMin');
    OfferedStands(ix, nCol, m, i, mx, a, iMin, cand, a');
    PeriodicKept(nCol, mx, a, iMin, cand, i, a', m, n);
    ZerosKept(nCol, mx, a, iMin, cand, i, a', lo, hi);
  }

  lemma SkipSkips(ix: Index, nCol: nat, m: nat, i: nat, mx: nat, a: seq<Sample>, iMin: nat, cand: Sample)
    requires Sorted(ix, nCol) && 0 < m <= |ix| && Retained(ix, nCol, m, i + 1, mx, a, iMin)
    requires CandidateOk(ix, nCol, m, i, cand) && |a| == mx && !Better(cand, a[iMin])
    ensures PassedOver(a, i)
  {
    hide Sorted, EqCount, LtCount, DLtCount, Shares, Better, AllAccounted, PassedOver;
    SkipLeavesNone(ix, nCol, m, i, mx, a, iMin, cand);
  }

  lemma RoomForOne(ix: Index, nCol: nat, m: nat, b: nat, mx: nat, n: nat, a: seq<Sample>, iMin: nat)
    requires Retained(ix, nCol, m, b, mx, a, iMin) && n > 0 && Periods(m, n) < mx && PeriodicOk(a, m, n)
    ensures NumPeriodic(a) < mx && Shaped(nCol, a)
  {
    hide EqCount, LtCount, DLtCount, Shares, AllAccounted, Open, Periods, NumPeriodic;
    PeriodicAtMost(a, m, n);
  }

  // One periodic sample for each complete period, so one more makes as many as there are then.
  lemma PeriodicExactly(m: nat, n: nat, a: seq<Sample>)
    requires Ordered(a) && n > 0 && PeriodicOk(a, m, n) && Due(m, n) && forall k | 0 <= k < |a| :: Pos(a[k]) < m
    ensures NumPeriodic(a) == Periods(m, n) && Periods(m + 1, n) == NumPeriodic(a) + 1
  {
    hide HasPeriodic, Periods, NumPeriodic;
    PeriodicAtMost(a, m, n);
    PeriodicAtLeast(a, m, n);
    DueDivides(m, n);
  }

  lemma FillKeepsPeriodic(a: seq<Sample>, cur: Sample, c: nat, a': seq<Sample>, nCol: nat, m: nat, n: nat)
    requires PeriodicOk(a, m, n) && |cur.eq| == nCol
    requires |a'| == |a| && forall k | 0 <= k < |a| :: |a[k].eq| == nCol && a'[k] == Filled(a[k], cur, c)
    ensures PeriodicOk(a', m, n)
  {
    hide Periods;
    assert forall k | 0 <= k < |a| :: a'[k].periodic == a[k].periodic && Pos(a'[k]) == Pos(a[k]);
    forall p: nat | p < m && Due(p, n) ensures HasPeriodic(a', p) {
      assert HasPeriodic(a, p);
      var k :| 0 <= k < |a| && a[k].periodic && Pos(a[k]) == p;
      assert a'[k].periodic;
    }
  }

  lemma SettledNoZero(ix: Index, nCol: nat, m: nat, c: nat, a: seq<Sample>)
    requires Sorted(ix, nCol) && forall k | 0 <= k < |a| :: Settled(ix, nCol, m, c, a[k])
    ensures ZerosBelow(nCol, a, c)
  {
    hide Sorted, EqCount, LtCount, DLtCount, Shares;
    forall k, j | 0 <= k < |a| && c <= j < nCol && j < |a[k].eq| ensures a[k].eq[j] > 0 {
      EqPositive(ix, nCol, m, Pos(a[k]), j);
    }
  }

  // Before anything has been sampled the first entry has no closed group.
  lemma NothingClosed(ix: Index, nCol: nat, mx: nat, iMin: nat, n: nat)
    requires Sorted(ix, nCol) && nCol > 0 && |ix| > 0 && mx > 0 && n > 0
    ensures Retained(ix, nCol, 1, nCol - 1, mx, [], iMin)
    ensures PeriodicOk([], 0, n) && ZerosBelow(nCol, [], 0)
  {
    hide Sorted, EqCount, LtCount, DLtCount, Shares;
    forall j: nat | j < nCol - 1 ensures Open(ix, nCol, 1, 0, j) { SelfShares(ix, nCol, 0, j); }
  }

  lemma FirstCurrent(ix: Index, nCol: nat, s: Sample)
    requires Sorted(ix, nCol) && nCol > 0 && |ix| > 0 && s.rowid == ix[0].rowid
    requires s.eq == seq(nCol, _ => 1) && s.lt == s.dlt == seq(nCol, _ => 0)
    ensures CurrentOk(ix, nCol, 1, s)
  {
    hide Sorted, EqCount, LtCount, DLtCount, Shares;
    forall j | 0 <= j < nCol ensures LtCount(ix, 0, j) == 0 && DLtCount(ix, 0, j) == 0 && EqCount(ix, 1, 0, j) == 1 {
      FirstEntryCounts(ix, nCol, j);
    }
  }

  // Fill one sample's zeros on columns c and up.
  method FillOne(s: Sample, cur: Sample, c: nat) returns (r: Sample)
    requires |cur.eq| == |s.eq|
    ensures r == Filled(s, cur, c)
  {
    var eq := s.eq;
    var j := c;
    while j < |eq|
      invariant |eq| == |s.eq| && c <= j
      invariant forall k | 0 <= k < |eq| :: eq[k] == if c <= k < j && s.eq[k] == 0 then cur.eq[k] else s.eq[k]
    {
      if eq[j] == 0 { eq := eq[j := cur.eq[j]]; }
      j := j + 1;
    }
    r := s.(eq := eq);
    assert eq == Filled(s, cur, c).eq;
  }

  // Fill every sample's zeros on columns c and up, the newest first.
  method FillAll(nCol: nat, a: seq<Sample>, cur: Sample, c: nat) returns (r: seq<Sample>)
    requires |cur.eq| == nCol && Shaped(nCol, a)
    ensures |r| == |a| && forall k | 0 <= k < |a| :: r[k] == Filled(a[k], cur, c)
  {
    hide Filled;
    r := a;
    var i := |a|;
    while i > 0
      invariant 0 <= i <= |a| == |r|
      invariant forall k | 0 <= k < i :: r[k] == a[k]
      invariant forall k | i <= k < |a| :: r[k] == Filled(a[k], cur, c)
    {
      i := i - 1;
      var s := FillOne(r[i], cur, c);
      r := r[i := s];
    }
  }

  lemma NoneToFill(nCol: nat, a: seq<Sample>, cur: Sample, c: nat, z: nat)
    requires |cur.eq| == nCol && Shaped(nCol, a) && ZerosBelow(nCol, a, z) && z <= c
    ensures forall k | 0 <= k < |a| :: a[k] == Filled(a[k], cur, c)
  {
    forall k | 0 <= k < |a| ensures a[k] == Filled(a[k], cur, c) { NothingToFill(a[k], cur, c); }
  }

  lemma RetainedShape(ix: Index, nCol: nat, m: nat, b: nat, mx: nat, a: seq<Sample>, iMin: nat)
    requires Retained(ix, nCol, m, b, mx, a, iMin)
    ensures Shaped(nCol, a)
  {
    hide AllFit, AllAccounted, KeyBetter;
  }

  // current.anEq, anLt and anDLt for the next entry.
  method NextCounts(nCol: nat, c: nat, cur: Sample) returns (next: Sample)
    requires |cur.eq| == |cur.lt| == |cur.dlt| == nCol && c <= nCol
    ensures NextCurrent(nCol, c, cur, next) && next == cur.(eq := next.eq, lt := next.lt, dlt := next.dlt)
  {
    var eq, lt, dlt := cur.eq, cur.lt, cur.dlt;
    var i := 0;
    while i < c
      invariant 0 <= i <= c && |eq| == nCol
      invariant forall k | 0 <= k < nCol :: eq[k] == cur.eq[k] + if k < i then 1 else 0
    {
      eq := eq[i := eq[i] + 1];
      i := i + 1;
    }
    while i < nCol
      invariant c <= i <= nCol && |eq| == |lt| == |dlt| == nCol
      invariant forall k | 0 <= k < nCol :: eq[k] == if k < c then cur.eq[k] + 1 else if k < i then 1 else cur.eq[k]
      invariant forall k | 0 <= k < nCol :: lt[k] == if c <= k < i then cur.lt[k] + cur.eq[k] else cur.lt[k]
      invariant forall k | 0 <= k < nCol :: dlt[k] == if c <= k < i then cur.dlt[k] + 1 else cur.dlt[k]
    {
      dlt := dlt[i := dlt[i] + 1];
      lt := lt[i := lt[i] + eq[i]];
      eq := eq[i := 1];
      i := i + 1;
    }
    next := cur.(eq := eq, lt := lt, dlt := dlt);
  }

  lemma PeriodicAppended(nCol: nat, mx: nat, a: seq<Sample>, iMin: nat, cand: Sample, z: nat, a': seq<Sample>)
    requires Shaped(nCol, a) && |cand.eq| == nCol && z <= nCol && cand.col < nCol && cand.periodic
    requires |a| == mx ==> iMin < |a|
    requires InsertOutcome(nCol, mx, a, iMin, cand, z, a')
    ensures a' == Appended(mx, a, iMin, Zeroed(cand, z))
  {
  }

  // A due entry, once placed, is retained with all but its last column open.
  lemma PeriodicPlaced(ix: Index, nCol: nat, m: nat, mx: nat, n: nat, a: seq<Sample>, iMin: nat, z: nat,
                       cur: Sample, a': seq<Sample>, iMin': nat, z': nat)
    requires Sorted(ix, nCol) && nCol > 0 && mx > 0 && n > 0 && CurrentOk(ix, nCol, m, cur) && Due(m - 1, n)
    requires Retained(ix, nCol, m, nCol - 1, mx, a, iMin) && Shaped(nCol, a)
    requires PeriodicOk(a, m - 1, n) && ZerosBelow(nCol, a, z) && z <= z' && nCol - 1 <= z'
    requires forall k | 0 <= k < |a| :: Pos(a[k]) < m - 1
    requires InsertOutcome(nCol, mx, a, iMin, cur.(periodic := true, col := 0), nCol - 1, a')
             && MinOk(nCol, mx, a', iMin')
    ensures Retained(ix, nCol, m, nCol - 1, mx, a', iMin')
    ensures PeriodicOk(a', m, n) && ZerosBelow(nCol, a', z')
  {
    hide Sorted, EqCount, LtCount, DLtCount, Shares, InsertOutcome, AllAccounted, KeyBetter, Due, PeriodicOk,
         ZerosBelow, Better;
    var p := cur.(periodic := true, col := 0);
    PeriodicFits(ix, nCol, m, cur);
    PeriodicAppended(nCol, mx, a, iMin, p, nCol - 1, a');
    ZeroedKeeps(p, nCol - 1);
    AppendKeeps(ix, nCol, m, nCol - 1, nCol - 1, mx, a, iMin, Zeroed(p, nCol - 1), a', iMin');
    PeriodicKept(nCol, mx, a, iMin, p, nCol - 1, a', m - 1, n);
    EqPositive(ix, nCol, m, m - 1, nCol - 1);
    ZerosKept(nCol, mx, a, iMin, p, nCol - 1, a', z, z');
  }

  lemma AllBefore(ix: Index, nCol: nat, m: nat, b: nat, mx: nat, a: seq<Sample>, iMin: nat)
    requires Retained(ix, nCol, m, b, mx, a, iMin)
    ensures forall k | 0 <= k < |a| :: Pos(a[k]) < m
  {
  }

  lemma KeyLengths(ix: Index, nCol: nat)
    requires Sorted(ix, nCol)
    ensures forall p | 0 <= p < |ix| :: |ix[p].key| == nCol
  {
  }

  lemma NotDue(a: seq<Sample>, m: nat, n: nat)
    requires PeriodicOk(a, m, n) && !Due(m, n)
    ensures PeriodicOk(a, m + 1, n)
  {
    hide Periods;
  }

  lemma StartPassing(ix: Index, nCol: nat, m: nat, mx: nat, a: seq<Sample>, iMin: nat)
    requires Sorted(ix, nCol) && nCol > 0 && m <= |ix| && Retained(ix, nCol, m, nCol - 1, mx, a, iMin)
    ensures PassedOver(a, nCol - 1)
  {
    NonePassedOver(ix, nCol, m, nCol - 1, a);
  }

  lemma CurrentPositive(ix: Index, nCol: nat, m: nat, cur: Sample)
    requires Sorted(ix, nCol) && CurrentOk(ix, nCol, m, cur)
    ensures forall j | 0 <= j < nCol :: cur.eq[j] > 0
  {
    hide Sorted, EqCount, LtCount, DLtCount;
    forall j | 0 <= j < nCol ensures cur.eq[j] > 0 { EqPositive(ix, nCol, m, m - 1, j); }
  }

  lemma CurrentShape(ix: Index, nCol: nat, m: nat, cur: Sample)
    requires CurrentOk(ix, nCol, m, cur)
    ensures |cur.eq| == |cur.lt| == |cur.dlt| == nCol
  {
  }

  lemma CurrentHashed(ix: Index, nCol: nat, m: nat, cur: Sample, h: nat)
    requires CurrentOk(ix, nCol, m, cur)
    ensures CurrentOk(ix, nCol, m, cur.(hash := h))
  {
  }

  lemma PrnNext(seed: nat, n: nat)
    requires n > 0
    ensures Prn(seed, n) == (Prn(seed, n - 1) * 1103515245 + 12345) % 0x1_0000_0000
  {
  }

  lemma PeriodicStands(ix: Index, nCol: nat, m: nat, mx: nat, a: seq<Sample>, iMin: nat, cur: Sample, a': seq<Sample>)
    requires Sorted(ix, nCol) && nCol > 0 && CurrentOk(ix, nCol, m, cur) && Shaped(nCol, a) && AllStanding(a)
    requires |a| == mx ==> iMin < |a|
    requires InsertOutcome(nCol, mx, a, iMin, cur.(periodic := true, col := 0), nCol - 1, a')
    ensures AllStanding(a')
  {
    hide Sorted, EqCount, LtCount, DLtCount, Standing, Appended, Zeroed;
    var p := cur.(periodic := true, col := 0);
    PeriodicAppended(nCol, mx, a, iMin, p, nCol - 1, a');
    CurrentPositive(ix, nCol, m, cur);
    ZeroedStands(p, nCol - 1);
    AppendStands(mx, a, iMin, Zeroed(p, nCol - 1));
  }

  // The current entry is chosen when it starts the group or is better.
  lemma CurrentChosen(ix: Index, nCol: nat, m: nat, seed: nat, c: nat, i: nat, best: Sample, cur: Sample)
    requires Sorted(ix, nCol) && 0 < m <= |ix| && i < nCol - 1 && CurrentOk(ix, nCol, m, cur)
             && cur.hash == Prn(seed, m)
    requires forall p | 0 <= p < |ix| :: |ix[p].key| == nCol
    requires c == if m == 1 then 0 else ChangedCol(ix[m - 2].key, ix[m - 1].key)
    requires i >= c || (m > 1 && Chosen(ix, nCol, m - 1, seed, i, best) && BetterPost(cur, best, i + 1))
    ensures Chosen(ix, nCol, m, seed, i, cur)
  {
    hide Sorted, EqCount, LtCount, DLtCount, Shares, ChangedCol, Chosen, BetterPost, CurrentOk;
    if i >= c {
      if m > 1 { ChangedColumn(ix, nCol, m - 1, i); }
      FirstIsChosen(ix, nCol, m, seed, i, cur);
    } else {
      BetterIsChosen(ix, nCol, m - 1, seed, i, best, cur);
    }
  }

  class StatAccum {
    const nCol: nat
    const mxSample: nat
    const nPSample: nat
    ghost const seed: nat
    var nRow: nat
    var prn: nat
    var current: Sample
    var best: seq<Sample>
    var a: seq<Sample>
    var iMin: nat
    var maxEqZero: nat

    // The samples stand, iMin is least, and the hashes follow the pseudo-random sequence.
    ghost predicate Ranked()
      reads this
    {
      && AllStanding(a) && Least(nCol, mxSample, a, iMin)
      && prn == Prn(seed, nRow) && (nRow > 0 ==> current.hash == prn)
    }

    ghost predicate Valid(ix: Index)
      reads this
    {
      && nCol > 0 && mxSample > 0 && nPSample > 0 && Sorted(ix, nCol) && Periods(nRow, nPSample) < mxSample
      && |best| == nCol && nRow <= |ix| && maxEqZero <= nCol && !current.periodic && Ranked()
      && (nRow == 0 ==>
            && a == [] && maxEqZero == 0
            && current.eq == current.lt == current.dlt == seq(nCol, _ => 0))
      && (nRow > 0 ==>
            && CurrentOk(ix, nCol, nRow, current)
            && (forall i | 0 <= i < nCol - 1 :: BestAt(ix, nCol, nRow, seed, i, best[i]))
            && Retained(ix, nCol, nRow, nCol - 1, mxSample, a, iMin)
            && PeriodicOk(a, nRow, nPSample) && ZerosBelow(nCol, a, maxEqZero))
    }

    // sampleInsert
    method SampleInsert(cand: Sample, nEqZero: nat) returns (ok: bool)
      requires Shaped(nCol, a) && |a| <= mxSample && MinOk(nCol, mxSample, a, iMin) && Least(nCol, mxSample, a, iMin)
      requires |cand.eq| == nCol && cand.col < nCol && nEqZero <= nCol
      requires NumPeriodic(a) < mxSample
      modifies `a, `iMin, `maxEqZero
      ensures InsertOutcome(nCol, mxSample, old(a), old(iMin), cand, nEqZero, a)
      ensures Shaped(nCol, a) && |a| <= mxSample && (ok <==> NumPeriodic(a) < mxSample)
      ensures ok ==> MinOk(nCol, mxSample, a, iMin) && Least(nCol, mxSample, a, iMin)
      ensures !ok ==> |a| == mxSample && forall k | 0 <= k < |a| :: a[k].periodic
      ensures NumPeriodic(a) == NumPeriodic(old(a)) + (if cand.periodic then 1 else 0)
      ensures maxEqZero == if nEqZero > old(maxEqZero) then nEqZero else old(maxEqZero)
    {
      hide Better, KeyBetter, InsertOutcome, Shaped, OpenPeriodic, NumPeriodic;
      if nEqZero > maxEqZero { maxEqZero := nEqZero; }
      var up := -1;
      if !cand.periodic {
        var covered;
        covered, up := FindUpgrade(nCol, a, cand.col);
        if covered {
          CoveredOutcome(nCol, mxSample, a, iMin, cand, nEqZero);
          return true;
        }
      }
      if up >= 0 {
        UpgradeOutcome(nCol, mxSample, a, iMin, cand, nEqZero, up);
        a := a[up := Upgraded(a[up], cand)];
      } else {
        var s := Zeroed(cand, nEqZero);
        AppendOutcome(nCol, mxSample, a, iMin, cand, nEqZero);
        if |a| >= mxSample { a := a[..iMin] + a[iMin + 1..]; }
        a := a + [s];
      }
      ok := RefreshMin();
    }

    // find_new_min; the source asserts that there is one.
    method RefreshMin() returns (ok: bool)
      requires Shaped(nCol, a) && |a| <= mxSample && mxSample > 0
      modifies `iMin
      ensures ok <==> NumPeriodic(a) < mxSample
      ensures ok ==> MinOk(nCol, mxSample, a, iMin) && Least(nCol, mxSample, a, iMin)
      ensures !ok ==> |a| == mxSample && forall k | 0 <= k < |a| :: a[k].periodic
    {
      hide Better, KeyBetter, NumPeriodic, Shaped;
      ok := true;
      NumAtMost(a);
      if |a| >= mxSample {
        var found := FindMin(nCol, a);
        if found < 0 {
          AllPeriodic(a);
          return false;
        }
        if NumPeriodic(a) == |a| { OnlyPeriodic(a); }
        iMin := found;
        LeastKey(nCol, mxSample, a, iMin);
      } else {
        NotFull(nCol, mxSample, a, iMin);
      }
    }

    // samplePushPrevious: column c changed, so every group on columns c and up is complete.
    method SamplePushPrevious(c: nat, ghost ix: Index)
      requires Valid(ix) && 0 < nRow && c < nCol
      modifies `a, `iMin, `maxEqZero, `best
      ensures |best| == nCol && maxEqZero <= nCol
      ensures (forall i | 0 <= i < nCol - 1 :: BestAt(ix, nCol, nRow, seed, i, best[i])) && Ranked()
      ensures Retained(ix, nCol, nRow, c, mxSample, a, iMin)
      ensures forall k | 0 <= k < |a| :: Settled(ix, nCol, nRow, c, a[k])
      ensures PeriodicOk(a, nRow, nPSample) && ZerosBelow(nCol, a, maxEqZero)
    {
      hide Sorted, EqCount, LtCount, DLtCount, Shares, Retained, BestAt, PeriodicOk, ZerosBelow, Settled, Periods,
           Ranked, PassedOver;
      StartPassing(ix, nCol, nRow, mxSample, a, iMin);
      var i := nCol - 1;
      while i > c
        invariant c <= i <= nCol - 1
        invariant |best| == nCol && maxEqZero <= nCol
        invariant (forall j | 0 <= j < nCol - 1 :: BestAt(ix, nCol, nRow, seed, j, best[j])) && Ranked()
                  && PassedOver(a, i)
        invariant Retained(ix, nCol, nRow, i, mxSample, a, iMin)
        invariant PeriodicOk(a, nRow, nPSample) && ZerosBelow(nCol, a, maxEqZero)
      {
        i := i - 1;
        OfferBest(i, ix);
      }
      BackFill(c, ix);
    }

    // Insert the sample unless a[] is full and a[iMin] is no worse.
    method Offer(pb: Sample, i: nat) returns (taken: bool)
      requires Shaped(nCol, a) && |a| <= mxSample && MinOk(nCol, mxSample, a, iMin) && Least(nCol, mxSample, a, iMin)
      requires |pb.eq| == nCol && pb.col < nCol && i <= nCol && NumPeriodic(a) < mxSample && !pb.periodic
      modifies `a, `iMin, `maxEqZero
      ensures taken <==> old(|a|) < mxSample || Better(pb, old(a[iMin]))
      ensures !taken ==> a == old(a) && iMin == old(iMin) && maxEqZero == old(maxEqZero)
      ensures taken ==> InsertOutcome(nCol, mxSample, old(a), old(iMin), pb, i, a) && Shaped(nCol, a) && |a| <= mxSample
      ensures taken ==> MinOk(nCol, mxSample, a, iMin) && Least(nCol, mxSample, a, iMin)
      ensures taken ==> NumPeriodic(a) == NumPeriodic(old(a))
      ensures taken ==> maxEqZero == if i > old(maxEqZero) then i else old(maxEqZero)
    {
      hide KeyBetter, InsertOutcome, OpenPeriodic, NumPeriodic, BetterPost;
      taken := |a| < mxSample;
      if !taken { taken := IsBetter(pb, a[iMin]); }
      if taken { var ok := SampleInsert(pb, i); }
    }

    // One step of the downward loop: count column i of aBest[i] and offer it to a[].
    method OfferBest(i: nat, ghost ix: Index)
      requires nCol > 0 && mxSample > 0 && nPSample > 0 && Sorted(ix, nCol) && 0 < nRow <= |ix|
      requires Periods(nRow, nPSample) < mxSample && maxEqZero <= nCol
      requires i < nCol - 1 && |best| == nCol && CurrentOk(ix, nCol, nRow, current)
      requires (forall j | 0 <= j < nCol - 1 :: BestAt(ix, nCol, nRow, seed, j, best[j])) && Ranked()
               && PassedOver(a, i + 1)
      requires Retained(ix, nCol, nRow, i + 1, mxSample, a, iMin)
      requires PeriodicOk(a, nRow, nPSample) && ZerosBelow(nCol, a, maxEqZero)
      modifies `a, `iMin, `maxEqZero, `best
      ensures |best| == nCol && maxEqZero <= nCol
      ensures (forall j | 0 <= j < nCol - 1 :: BestAt(ix, nCol, nRow, seed, j, best[j])) && Ranked() && PassedOver(a, i)
      ensures Retained(ix, nCol, nRow, i, mxSample, a, iMin)
      ensures PeriodicOk(a, nRow, nPSample) && ZerosBelow(nCol, a, maxEqZero)
    {
      hide Sorted, EqCount, LtCount, DLtCount, Shares, Better, InsertOutcome, AllAccounted, AllFit, Periods, Chosen,
           PassedOver, AllStanding, Prn, PeriodicOk, ZerosBelow, Ordered;
      var pb := best[i].(eq := best[i].eq[i := current.eq[i]]);
      CountedBest(ix, nCol, nRow, i, best[i], current);
      ChosenCounted(ix, nCol, nRow, seed, i, best[i], current.eq[i]);
      best := best[i := pb];
      RoomForOne(ix, nCol, nRow, i + 1, mxSample, nPSample, a, iMin);
      ghost var a0, m0, z0 := a, iMin, maxEqZero;
      var taken := Offer(pb, i);
      if taken {
        OfferTaken(ix, nCol, nRow, i, mxSample, nPSample, a0, m0, pb, a, iMin, z0, maxEqZero);
      } else {
        SkipKeeps(ix, nCol, nRow, i, mxSample, a, iMin, pb);
        SkipSkips(ix, nCol, nRow, i, mxSample, a, iMin, pb);
      }
    }

    // Replace every zero on columns c and up by the count of the group that has just closed.
    method BackFill(c: nat, ghost ix: Index)
      requires nCol > 0 && Sorted(ix, nCol) && c < nCol && maxEqZero <= nCol && nPSample > 0
      requires CurrentOk(ix, nCol, nRow, current) && Retained(ix, nCol, nRow, c, mxSample, a, iMin) && Ranked()
      requires PeriodicOk(a, nRow, nPSample) && ZerosBelow(nCol, a, maxEqZero)
      modifies `a, `maxEqZero
      ensures Retained(ix, nCol, nRow, c, mxSample, a, iMin) && Ranked()
      ensures forall k | 0 <= k < |a| :: Settled(ix, nCol, nRow, c, a[k])
      ensures |a| == |old(a)| && forall k | 0 <= k < |a| ::
                |old(a[k].eq)| == nCol && a[k] == Filled(old(a[k]), current, c)
      ensures PeriodicOk(a, nRow, nPSample) && ZerosBelow(nCol, a, maxEqZero) && maxEqZero <= nCol
    {
      hide Sorted, EqCount, LtCount, DLtCount, Shares, Retained, Settled, PeriodicOk, ZerosBelow, Least, AllStanding,
           Prn, Filled;
      ghost var a0 := a;
      RetainedShape(ix, nCol, nRow, c, mxSample, a, iMin);
      if c < maxEqZero {
        a := FillAll(nCol, a, current, c);
        maxEqZero := c;
      } else {
        NoneToFill(nCol, a, current, c, maxEqZero);
      }
      FillKeepsAccounts(ix, nCol, nRow, c, mxSample, a0, iMin, current, a);
      FillKeepsPeriodic(a0, current, c, a, nCol, nRow, nPSample);
      CurrentPositive(ix, nCol, nRow, current);
      FillKeepsLeast(nCol, mxSample, a0, iMin, current, c, a);
      SettledNoZero(ix, nCol, nRow, c, a);
    }

    // The state between the update of `current` and the update of aBest[].
    ghost predicate Counted(ix: Index)
      reads this
    {
      && nCol > 0 && mxSample > 0 && nPSample > 0 && Sorted(ix, nCol)
      && |best| == nCol && 0 < nRow <= |ix| && maxEqZero <= nCol && !current.periodic
      && CurrentOk(ix, nCol, nRow, current)
      && Retained(ix, nCol, nRow, nCol - 1, mxSample, a, iMin) && ZerosBelow(nCol, a, maxEqZero) && Ranked()
    }

    // Close what column c closes and count the next entry.
    method CountNext(c: nat, rowid: int, ghost ix: Index)
      requires Valid(ix) && nRow < |ix| && rowid == ix[nRow].rowid
      requires c == if nRow == 0 then 0 else ChangedCol(ix[nRow - 1].key, ix[nRow].key)
      modifies this
      ensures Counted(ix) && nRow == old(nRow) + 1
      ensures PeriodicOk(a, nRow - 1, nPSample)
      ensures forall k | 0 <= k < |a| :: Pos(a[k]) < nRow - 1
      ensures nRow > 1 ==> forall i | 0 <= i < nCol - 1 :: BestAt(ix, nCol, nRow - 1, seed, i, best[i])
    {
      hide Sorted, EqCount, LtCount, DLtCount, Shares, Retained, Settled, BestAt, PeriodicOk, ZerosBelow, Periods,
           ChangedCol, AllStanding, Least, CurrentOk, Prn;
      if nRow == 0 {
        current := current.(eq := seq(nCol, _ => 1), rowid := rowid);
        FirstCurrent(ix, nCol, current);
        NothingClosed(ix, nCol, mxSample, iMin, nPSample);
      } else {
        ChangedColumn(ix, nCol, nRow, 0);
        CurrentShape(ix, nCol, nRow, current);
        SamplePushPrevious(c, ix);
        AllBefore(ix, nCol, nRow, c, mxSample, a, iMin);
        ghost var before := current;
        current := NextCounts(nCol, c, current);
        current := current.(rowid := rowid);
        CurrentAdvances(ix, nCol, nRow, c, before, current);
        AccountsAdvance(ix, nCol, nRow, c, mxSample, a, iMin);
      }
      nRow := nRow + 1;
      PrnNext(seed, nRow);
      prn := (prn * 1103515245 + 12345) % 0x1_0000_0000;
      CurrentHashed(ix, nCol, nRow, current, prn);
      current := current.(hash := prn);
    }

    // Keep the entry as a periodic sample when it completes a period; fails if that leaves nothing to evict.
    method TakePeriodic(ghost ix: Index) returns (ok: bool)
      requires Counted(ix) && PeriodicOk(a, nRow - 1, nPSample) && Periods(nRow - 1, nPSample) < mxSample
      requires forall k | 0 <= k < |a| :: Pos(a[k]) < nRow - 1
      modifies `a, `iMin, `maxEqZero
      ensures ok <==> Periods(nRow, nPSample) < mxSample
      ensures ok ==> Counted(ix) && PeriodicOk(a, nRow, nPSample)
      ensures !ok ==> |a| == mxSample && forall k | 0 <= k < |a| :: a[k].periodic
    {
      hide Sorted, EqCount, LtCount, DLtCount, Shares, InsertOutcome, AllAccounted, KeyBetter, Periods, NumPeriodic;
      var nLt := current.lt[nCol - 1];
      if Due(nLt, nPSample) {
        var p := current.(periodic := true, col := 0);
        ghost var a0, m0, z0 := a, iMin, maxEqZero;
        PeriodicExactly(nRow - 1, nPSample, a);
        ok := SampleInsert(p, nCol - 1);
        if !ok { return; }
        PeriodicPlaced(ix, nCol, nRow, mxSample, nPSample, a0, m0, z0, current, a, iMin, maxEqZero);
        PeriodicStands(ix, nCol, nRow, mxSample, a0, m0, current, a);
      } else {
        NotDue(a, nRow - 1, nPSample);
        ok := true;
      }
    }

    // Replace aBest[i] for every group the entry starts, and wherever the entry is better.
    method UpdateBest(c: nat, ghost ix: Index)
      requires Counted(ix) && PeriodicOk(a, nRow, nPSample) && Periods(nRow, nPSample) < mxSample
      requires c == if nRow == 1 then 0 else ChangedCol(ix[nRow - 2].key, ix[nRow - 1].key)
      requires nRow > 1 ==> forall i | 0 <= i < nCol - 1 :: BestAt(ix, nCol, nRow - 1, seed, i, best[i])
      modifies `best, `current
      ensures Valid(ix)
    {
      hide Sorted, EqCount, LtCount, DLtCount, Shares, AllAccounted, Periods, PeriodicOk, ChangedCol;
      var i := 0;
      while i < nCol - 1
        invariant 0 <= i <= nCol - 1
        invariant Counted(ix) && PeriodicOk(a, nRow, nPSample)
        invariant forall j | 0 <= j < i :: BestAt(ix, nCol, nRow, seed, j, best[j])
        invariant nRow > 1 ==> forall j | i <= j < nCol - 1 :: BestAt(ix, nCol, nRow - 1, seed, j, best[j])
      {
        current := current.(col := i);
        var take := i >= c;
        if !take { take := IsBetterPost(current, best[i]); }
        if take {
          KeyLengths(ix, nCol);
          BestReplaced(ix, nCol, nRow, i, current);
          CurrentChosen(ix, nCol, nRow, seed, c, i, best[i], current);
          best := best[i := current];
        } else {
          BestStays(ix, nCol, nRow - 1, c, i, best[i], current);
          ChangedColumn(ix, nCol, nRow - 1, i);
          ChosenStays(ix, nCol, nRow - 1, seed, i, best[i], current);
        }
        i := i + 1;
      }
    }

    // stat_push
    method Push(c: nat, rowid: int, ghost ix: Index) returns (ok: bool)
      requires Valid(ix) && nRow < |ix| && rowid == ix[nRow].rowid
      requires c == if nRow == 0 then 0 else ChangedCol(ix[nRow - 1].key, ix[nRow].key)
      modifies this
      ensures nRow == old(nRow) + 1 && (ok <==> Periods(nRow, nPSample) < mxSample)
      ensures ok ==> Valid(ix)
      ensures !ok ==> |a| == mxSample && forall k | 0 <= k < |a| :: a[k].periodic
    {
      hide Sorted, EqCount, LtCount, DLtCount, Shares, Retained, Periods, ChangedCol, PeriodicOk, ZerosBelow, BestAt,
           CurrentOk, Prn;
      CountNext(c, rowid, ix);
      ok := TakePeriodic(ix);
      if ok { UpdateBest(c, ix); }
    }

    // stat_init
    constructor (nCol: nat, mxSample: nat, nEst: nat, prn: nat, ghost ix: Index)
      requires nCol > 0 && mxSample > 0 && Sorted(ix, nCol)
      ensures Valid(ix) && nRow == 0
      ensures this.nCol == nCol && this.mxSample == mxSample && this.nPSample == Period(nEst, mxSample)
    {
      this.nCol, this.mxSample, this.nPSample := nCol, mxSample, Period(nEst, mxSample);
      this.nRow, this.prn, this.iMin, this.maxEqZero, this.seed := 0, prn, 0, 0, prn;
      var zero := seq(nCol, _ => 0);
      this.current := Sample(zero, zero, zero, 0, false, 0, 0);
      this.best := seq(nCol, i requires 0 <= i < nCol => Sample(zero, zero, zero, 0, false, i, 0));
      this.a := [];
    }
  }

  // ---------- the whole pass ----------

  // The sample tells the truth about its entry in the finished index.
  ghost predicate Exact(ix: Index, nCol: nat, s: Sample) {
    && nCol > 0 && |s.eq| == |s.lt| == |s.dlt| == nCol && Pos(s) < |ix| && s.rowid == ix[Pos(s)].rowid
    && forall j | 0 <= j < nCol ::
         && s.eq[j] == EqCount(ix, |ix|, Pos(s), j)
         && s.lt[j] == LtCount(ix, Pos(s), j)
         && s.dlt[j] == DLtCount(ix, Pos(s), j)
  }

  // Some retained sample lies in the group of entry p on columns 0..j.
  ghost predicate Represented(ix: Index, a: seq<Sample>, p: nat, j: nat) {
    exists k :: 0 <= k < |a| && Shares(ix, Pos(a[k]), p, j)
  }

  // The group of entry p on columns 0..j has no more rows than that of any retained non-periodic sample on the columns
  // it was kept for, and if it has as many, no fewer columns.
  ghost predicate BeatsNone(ix: Index, a: seq<Sample>, p: nat, j: nat) {
    forall k | 0 <= k < |a| && !a[k].periodic ::
      && a[k].col < |a[k].eq| && EqCount(ix, |ix|, p, j) <= a[k].eq[a[k].col]
      && (EqCount(ix, |ix|, p, j) == a[k].eq[a[k].col] ==> a[k].col <= j)
  }

  lemma FlushedIsExact(ix: Index, nCol: nat, mx: nat, a: seq<Sample>, iMin: nat)
    requires Sorted(ix, nCol) && |ix| > 0 && Retained(ix, nCol, |ix|, 0, mx, a, iMin)
    requires forall k | 0 <= k < |a| :: Settled(ix, nCol, |ix|, 0, a[k])
    ensures forall k | 0 <= k < |a| :: Exact(ix, nCol, a[k])
  {
    hide Sorted, EqCount, LtCount, DLtCount, Shares;
  }

  lemma FlushedColumns(ix: Index, nCol: nat, mx: nat, a: seq<Sample>, iMin: nat)
    requires Retained(ix, nCol, |ix|, 0, mx, a, iMin)
    ensures forall k | 0 <= k < |a| && !a[k].periodic :: a[k].col < nCol - 1 && nCol - 1 < |a[k].eq|
  {
    hide EqCount, LtCount, DLtCount, Shares, AllAccounted;
  }

  // The entries kept as periodic samples are those at which the number of complete periods changes.
  lemma PeriodicAt(a: seq<Sample>, m: nat, n: nat)
    requires PeriodicOk(a, m, n)
    ensures forall p: nat | p < m :: HasPeriodic(a, p) <==> p / n != (p + 1) / n
  {
    forall p: nat | p < m ensures HasPeriodic(a, p) <==> p / n != (p + 1) / n {
      assert Due(p, n) <==> p / n != (p + 1) / n;
    }
  }

  lemma FlushedIsBest(ix: Index, nCol: nat, mx: nat, a: seq<Sample>, iMin: nat, p: nat, j: nat)
    requires |ix| > 0 && Retained(ix, nCol, |ix|, 0, mx, a, iMin) && p < |ix| && j < nCol - 1
    ensures Represented(ix, a, p, j) || (|a| == mx && BeatsNone(ix, a, p, j))
  {
    hide EqCount, LtCount, DLtCount, Shares, AllFit;
    assert Accounted(ix, |ix|, mx, a, iMin, p, j);
    if Witnessed(ix, a, p, j) {
      var k :| 0 <= k < |a| && Witness(ix, a[k], p, j);
      assert Shares(ix, Pos(a[k]), p, j);
    }
  }

  lemma PeriodicCount(ix: Index, nCol: nat, mx: nat, a: seq<Sample>, iMin: nat, nEst: nat)
    requires Retained(ix, nCol, |ix|, 0, mx, a, iMin) && |ix| <= nEst
    requires PeriodicOk(a, |ix|, Period(nEst, mx))
    ensures NumPeriodic(a) <= mx / 3
  {
    hide EqCount, LtCount, DLtCount, Shares, AllAccounted, Periods, NumPeriodic;
    PeriodicAtMost(a, |ix|, Period(nEst, mx));
    PeriodBudget(|ix|, nEst, mx);
  }

  // The pass, in terms of the invariants.
  method Scan(ix: Index, nCol: nat, mxSample: nat, nEst: nat, prn: nat) returns (ok: bool, samples: seq<Sample>)
    requires nCol > 0 && mxSample > 0 && Sorted(ix, nCol) && 0 < |ix|
    ensures ok <==> Periods(|ix|, Period(nEst, mxSample)) < mxSample
    ensures !ok ==> |samples| == mxSample && forall k | 0 <= k < |samples| :: samples[k].periodic
    ensures ok ==> |samples| <= mxSample && Ordered(samples)
    ensures ok ==> forall k | 0 <= k < |samples| :: Exact(ix, nCol, samples[k])
    ensures ok ==> forall k | 0 <= k < |samples| && !samples[k].periodic ::
              samples[k].col < nCol - 1 < |samples[k].eq|
    ensures ok ==> PeriodicOk(samples, |ix|, Period(nEst, mxSample))
    ensures |ix| <= nEst ==> ok && NumPeriodic(samples) <= mxSample / 3
    ensures ok ==> forall p: nat, j: nat | p < |ix| && j < nCol - 1 ::
              Represented(ix, samples, p, j) || (|samples| == mxSample && BeatsNone(ix, samples, p, j))
  {
    hide Sorted, EqCount, LtCount, DLtCount, Shares, BestOk, PeriodicOk, ZerosBelow, CurrentOk, Settled, Exact,
         Represented, BeatsNone, Periods, NumPeriodic, ChangedCol;
    var acc := new StatAccum(nCol, mxSample, nEst, prn, ix);
    ok := true;
    if |ix| <= nEst { PeriodBudget(|ix|, nEst, mxSample); }
    var i := 0;
    while i < |ix|
      invariant 0 <= i <= |ix| && acc.Valid(ix) && acc.nRow == i
    {
      KeyLengths(ix, nCol);
      var c := if i == 0 then 0 else ChangedCol(ix[i - 1].key, ix[i].key);
      ok := acc.Push(c, ix[i].rowid, ix);
      if !ok {
        PeriodsMonotone(i + 1, |ix|, acc.nPSample);
        samples := acc.a;
        return;
      }
      i := i + 1;
    }
    ok := true;
    acc.SamplePushPrevious(0, ix);
    samples := acc.a;
    FlushedIsExact(ix, nCol, mxSample, samples, acc.iMin);
    FlushedColumns(ix, nCol, mxSample, samples, acc.iMin);
    if |ix| <= nEst { PeriodicCount(ix, nCol, mxSample, samples, acc.iMin, nEst); }
    forall p: nat, j: nat | p < |ix| && j < nCol - 1
      ensures Represented(ix, samples, p, j) || (|samples| == mxSample && BeatsNone(ix, samples, p, j))
    {
      FlushedIsBest(ix, nCol, mxSample, samples, acc.iMin, p, j);
    }
  }

  /** The program ANALYZE runs for one index: stat_init, one stat_push per entry
      with the leftmost changed column, and the flush on the first stat_get. It comes to its end exactly if there are
      fewer complete periods than room for samples; otherwise some entry fills the array with periodic samples. */
  method Analyze(ix: Index, nCol: nat, mxSample: nat, nEst: nat, prn: nat) returns (ok: bool, samples: seq<Sample>)
    requires nCol > 0 && mxSample > 0 && Sorted(ix, nCol) && 0 < |ix|
    ensures ok <==> |ix| / (nEst / (mxSample / 3 + 1) + 1) < mxSample
    ensures !ok ==> |samples| == mxSample && forall k | 0 <= k < |samples| :: samples[k].periodic
    ensures ok ==> |samples| <= mxSample && Ordered(samples)
    ensures ok ==> forall k | 0 <= k < |samples| :: Exact(ix, nCol, samples[k])
    ensures ok ==> forall k | 0 <= k < |samples| && !samples[k].periodic ::
              samples[k].col < nCol - 1 < |samples[k].eq|
    ensures ok ==> forall p: nat | p < |ix| ::
              var n := nEst / (mxSample / 3 + 1) + 1; HasPeriodic(samples, p) <==> p / n != (p + 1) / n
    ensures |ix| <= nEst ==> ok && NumPeriodic(samples) <= mxSample / 3
    ensures ok ==> forall p: nat, j: nat | p < |ix| && j < nCol - 1 && !Represented(ix, samples, p, j) ::
              |samples| == mxSample && forall k | 0 <= k < |samples| && !samples[k].periodic ::
                && EqCount(ix, |ix|, p, j) <= samples[k].eq[samples[k].col]
                && (EqCount(ix, |ix|, p, j) == samples[k].eq[samples[k].col] ==> samples[k].col <= j)
  {
    hide Sorted, EqCount, LtCount, DLtCount, Shares, Exact, Represented, NumPeriodic, PeriodicOk, HasPeriodic;
    ok, samples := Scan(ix, nCol, mxSample, nEst, prn);
    if ok {
      PeriodicAt(samples, |ix|, Period(nEst, mxSample));
      NoneBeaten(ix, nCol, mxSample, samples);
    }
  }

  lemma NoneBeaten(ix: Index, nCol: nat, mx: nat, a: seq<Sample>)
    requires forall p: nat, j: nat | p < |ix| && j < nCol - 1 ::
               Represented(ix, a, p, j) || (|a| == mx && BeatsNone(ix, a, p, j))
    requires forall k | 0 <= k < |a| && !a[k].periodic :: a[k].col < |a[k].eq|
    ensures forall p: nat, j: nat | p < |ix| && j < nCol - 1 && !Represented(ix, a, p, j) ::
              |a| == mx && forall k | 0 <= k < |a| && !a[k].periodic ::
                && EqCount(ix, |ix|, p, j) <= a[k].eq[a[k].col]
                && (EqCount(ix, |ix|, p, j) == a[k].eq[a[k].col] ==> a[k].col <= j)
  {
    hide EqCount, Represented;
  }

  // n entries of one column.
  function Rows(n: nat): Index { seq(n, i => Entry([i], i)) }

  lemma RowsSorted(n: nat)
    ensures Sorted(Rows(n), 1)
  {
    forall p, q | 0 <= p < q < n ensures LexLess(Rows(n)[p].key, Rows(n)[q].key) { FirstDiffUnique([p], [q], 0); }
  }

  /** An estimate of zero makes every entry a period, so as many entries as there is room for samples are too many. */
  method EstimateTooLow(mxSample: nat, prn: nat) returns (ok: bool, samples: seq<Sample>)
    requires mxSample > 0
    ensures !ok && |samples| == mxSample && forall k | 0 <= k < |samples| :: samples[k].periodic
  {
    RowsSorted(mxSample);
    OnePeriodEach(mxSample, mxSample);
    ok, samples := Analyze(Rows(mxSample), 1, mxSample, 0, prn);
  }

  lemma OnePeriodEach(m: nat, mx: nat)
    ensures Period(0, mx) == 1 && Periods(m, 1) == m
  {
    assert 0 / (mx / 3 + 1) == 0 by { DivExact(0, mx / 3 + 1, 0, 0); }
  }
}
