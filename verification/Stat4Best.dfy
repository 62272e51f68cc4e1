/** Which entry of a group aBest[] holds: the best of those that end a group one column longer. */
module Stat4Best {
  import opened IndexOrder
  import opened Stat4
  import opened Stat4Rank

  // The pseudo-random sequence the tie-breaking hashes are taken from.
  function Prn(seed: nat, n: nat): nat {
    if n == 0 then seed else (Prn(seed, n - 1) * 1103515245 + 12345) % 0x1_0000_0000
  }

  // Entry q as a sample after m entries.
  ghost function Ideal(ix: Index, nCol: nat, m: nat, seed: nat, q: nat): (s: Sample)
    ensures |s.eq| == nCol && s.hash == Prn(seed, q + 1) && forall j | 0 <= j < nCol :: s.eq[j] == EqCount(ix, m, q, j)
  {
    Sample(seq(nCol, j requires 0 <= j < nCol => EqCount(ix, m, q, j)), [], [], 0, false, 0, Prn(seed, q + 1))
  }

  // Entry q is the last of its group on columns 0..j among the first m.
  ghost predicate LastIn(ix: Index, m: nat, q: nat, j: nat) {
    q < m && (q + 1 < m ==> !Shares(ix, q, q + 1, j))
  }

  // Entry q is in the group of the last entry on columns 0..i, and ends a group on one column more.
  ghost predicate Eligible(ix: Index, m: nat, i: nat, q: nat) {
    0 < m && LastIn(ix, m, q, i + 1) && Shares(ix, q, m - 1, i)
  }

  // s is an eligible entry, and none is better.
  ghost predicate Chosen(ix: Index, nCol: nat, m: nat, seed: nat, i: nat, s: Sample) {
    && |s.eq| == nCol && Eligible(ix, m, i, Pos(s)) && s.hash == Prn(seed, Pos(s) + 1)
    && forall q: nat | Eligible(ix, m, i, q) :: !BetterPost(Ideal(ix, nCol, m, seed, q), s, i + 1)
  }

  // aBest[i]: the chosen entry of the open group on columns 0..i.
  ghost predicate BestAt(ix: Index, nCol: nat, m: nat, seed: nat, i: nat, s: Sample) {
    BestOk(ix, nCol, m, i, s) && Chosen(ix, nCol, m, seed, i, s)
  }

  lemma CurrentIsIdeal(ix: Index, nCol: nat, m: nat, seed: nat, i: nat, cur: Sample)
    requires CurrentOk(ix, nCol, m, cur) && cur.hash == Prn(seed, m)
    ensures !BetterPost(Ideal(ix, nCol, m, seed, m - 1), cur, i)
  {
    BetterPostSame(Ideal(ix, nCol, m, seed, m - 1), cur, cur, cur, i);
    BetterPostIrreflexive(cur, i);
  }

  // The first entry of a group is the only one so far.
  lemma FirstIsChosen(ix: Index, nCol: nat, m: nat, seed: nat, i: nat, cur: Sample)
    requires Sorted(ix, nCol) && 0 < m <= |ix| && i < nCol - 1 && CurrentOk(ix, nCol, m, cur)
             && cur.hash == Prn(seed, m)
    requires m > 1 ==> !Shares(ix, m - 2, m - 1, i)
    ensures Chosen(ix, nCol, m, seed, i, cur)
  {
    hide Sorted, Shares, EqCount, LtCount, DLtCount, BetterPost, Prn;
    SelfShares(ix, nCol, m - 1, i);
    CurrentIsIdeal(ix, nCol, m, seed, i + 1, cur);
    forall q: nat | Eligible(ix, m, i, q) ensures q == m - 1 {
      if q < m - 1 { Contiguous(ix, nCol, q, m - 2, m - 1, i); }
    }
  }

  // An entry that ended its longer group before the next entry keeps its counts there.
  lemma EligibleBefore(ix: Index, nCol: nat, m: nat, i: nat, q: nat)
    requires Sorted(ix, nCol) && 0 < m < |ix| && i < nCol - 1 && q < m && Eligible(ix, m + 1, i, q)
    ensures Eligible(ix, m, i, q)
    ensures forall j | i < j < nCol :: EqCount(ix, m + 1, q, j) == EqCount(ix, m, q, j)
  {
    hide Sorted, EqCount;
    Contiguous(ix, nCol, q, m - 1, m, i);
    forall j | i < j < nCol ensures EqCount(ix, m + 1, q, j) == EqCount(ix, m, q, j) {
      if Shares(ix, q, m, j) {
        SharesDown(ix, q, m, i + 1, j);
        Contiguous(ix, nCol, q, q + 1, m, i + 1);
      }
      SharesSymmetric(ix, m, q, j);
      EqGrows(ix, m, q, j);
    }
  }

  lemma SameBefore(ix: Index, nCol: nat, m: nat, seed: nat, i: nat, q: nat, s: Sample)
    requires Sorted(ix, nCol) && 0 < m < |ix| && i < nCol - 1 && q < m && Eligible(ix, m + 1, i, q)
    requires Chosen(ix, nCol, m, seed, i, s)
    ensures !BetterPost(Ideal(ix, nCol, m + 1, seed, q), s, i + 1)
  {
    hide Sorted, EqCount, Shares, BetterPost, Prn;
    EligibleBefore(ix, nCol, m, i, q);
    BetterPostSame(Ideal(ix, nCol, m + 1, seed, q), s, Ideal(ix, nCol, m, seed, q), s, i + 1);
  }

  lemma BetterIsChosen(ix: Index, nCol: nat, m: nat, seed: nat, i: nat, best: Sample, cur: Sample)
    requires Sorted(ix, nCol) && 0 < m < |ix| && i < nCol - 1 && Chosen(ix, nCol, m, seed, i, best)
    requires CurrentOk(ix, nCol, m + 1, cur) && cur.hash == Prn(seed, m + 1) && BetterPost(cur, best, i + 1)
    ensures Chosen(ix, nCol, m + 1, seed, i, cur)
  {
    hide Sorted, Shares, EqCount, LtCount, DLtCount, BetterPost, Prn;
    SelfShares(ix, nCol, m, i);
    CurrentIsIdeal(ix, nCol, m + 1, seed, i + 1, cur);
    var m' := m + 1;
    forall q: nat | Eligible(ix, m', i, q) && q < m ensures !BetterPost(Ideal(ix, nCol, m', seed, q), cur, i + 1) {
      SameBefore(ix, nCol, m, seed, i, q, best);
      if BetterPost(Ideal(ix, nCol, m', seed, q), cur, i + 1) {
        BetterPostTransitive(Ideal(ix, nCol, m', seed, q), cur, best, i + 1);
      }
    }
  }

  lemma ChosenStays(ix: Index, nCol: nat, m: nat, seed: nat, i: nat, best: Sample, cur: Sample)
    requires Sorted(ix, nCol) && 0 < m < |ix| && i < nCol - 1 && Shares(ix, m - 1, m, i)
    requires Chosen(ix, nCol, m, seed, i, best) && BestOk(ix, nCol, m, i, best)
    requires CurrentOk(ix, nCol, m + 1, cur) && cur.hash == Prn(seed, m + 1) && !BetterPost(cur, best, i + 1)
    ensures Chosen(ix, nCol, m + 1, seed, i, best)
  {
    hide Sorted, EqCount, LtCount, DLtCount, BetterPost, Prn, BestOk, CurrentOk;
    var p := Pos(best);
    assert !Shares(ix, p, m, i + 1) by {
      if Shares(ix, p, m, i + 1) { JoinedIsBetter(ix, nCol, m, i, best, cur); }
    }
    var m' := m + 1;
    CurrentSame(ix, nCol, m', seed, i, best, cur);
    forall q: nat | Eligible(ix, m', i, q) ensures !BetterPost(Ideal(ix, nCol, m', seed, q), best, i + 1) {
      if q < m { SameBefore(ix, nCol, m, seed, i, q, best); }
    }
  }

  lemma CurrentSame(ix: Index, nCol: nat, m: nat, seed: nat, i: nat, s: Sample, cur: Sample)
    requires CurrentOk(ix, nCol, m, cur) && cur.hash == Prn(seed, m) && |s.eq| == nCol
    ensures BetterPost(Ideal(ix, nCol, m, seed, m - 1), s, i + 1) == BetterPost(cur, s, i + 1)
  {
    BetterPostSame(Ideal(ix, nCol, m, seed, m - 1), s, cur, s, i + 1);
  }

  // Counting column i does not change the choice.
  lemma ChosenCounted(ix: Index, nCol: nat, m: nat, seed: nat, i: nat, s: Sample, n: nat)
    requires i < nCol && Chosen(ix, nCol, m, seed, i, s)
    ensures Chosen(ix, nCol, m, seed, i, s.(eq := s.eq[i := n]))
  {
    hide EqCount, Shares, Eligible, Prn, BetterPost;
    var s' := s.(eq := s.eq[i := n]);
    forall q: nat | Eligible(ix, m, i, q) ensures !BetterPost(Ideal(ix, nCol, m, seed, q), s', i + 1) {
      var d := Ideal(ix, nCol, m, seed, q);
      BetterPostSame(d, s, d, s', i + 1);
    }
  }

  // ---------- how good the choice is ----------

  lemma {:induction false} LastOfGroup(ix: Index, nCol: nat, m: nat, q: nat, j: nat) returns (l: nat)
    requires Sorted(ix, nCol) && q < m <= |ix| && j < nCol
    ensures q <= l && LastIn(ix, m, l, j) && Shares(ix, q, l, j)
    decreases m - q
  {
    hide Sorted;
    SelfShares(ix, nCol, q, j);
    l := q;
    if q + 1 < m && Shares(ix, q, q + 1, j) { l := LastOfGroup(ix, nCol, m, q + 1, j); }
  }

  /** No entry of the group is in a larger group one column longer. */
  lemma ChosenIsLargest(ix: Index, nCol: nat, m: nat, seed: nat, i: nat, s: Sample, q: nat)
    requires Sorted(ix, nCol) && 0 < m <= |ix| && i < nCol - 1 && Chosen(ix, nCol, m, seed, i, s)
    requires q < m && Shares(ix, q, m - 1, i)
    ensures EqCount(ix, m, q, i + 1) <= s.eq[i + 1]
  {
    hide Sorted, EqCount, Prn;
    var l := LastOfGroup(ix, nCol, m, q, i + 1);
    SharesDown(ix, q, l, i, i + 1);
    EqSame(ix, m, q, l, i + 1);
    assert Eligible(ix, m, i, l);
  }

  // No entry of the open group on columns 0..i is better than s.
  ghost predicate BestOfGroup(ix: Index, nCol: nat, m: nat, seed: nat, i: nat, s: Sample) {
    forall q: nat | q < m && Shares(ix, q, m - 1, i) :: !BetterPost(Ideal(ix, nCol, m, seed, q), s, i + 1)
  }

  // Where one column more tells all entries apart, every entry of the group is eligible.
  lemma ChosenIsBest(ix: Index, nCol: nat, m: nat, seed: nat, s: Sample)
    requires Sorted(ix, nCol) && 0 < m <= |ix| && nCol > 1 && Chosen(ix, nCol, m, seed, nCol - 2, s)
    ensures BestOfGroup(ix, nCol, m, seed, nCol - 2, s)
  {
    hide Sorted, EqCount, Prn;
    var i := nCol - 2;
    forall q: nat | q < m && Shares(ix, q, m - 1, i) ensures Eligible(ix, m, i, q) {
      if q + 1 < m && Shares(ix, q, q + 1, nCol - 1) { SharesAllIsSame(ix, nCol, q, q + 1); }
    }
  }

  // Two entries that agree on all columns but the last.
  function Twins(nCol: nat): Index
    requires nCol > 0
  {
    [Entry(seq(nCol, _ => 0), 1), Entry(seq(nCol - 1, _ => 0) + [1], 2)]
  }

  lemma TwinsSorted(nCol: nat)
    requires nCol > 0
    ensures Sorted(Twins(nCol), nCol)
    ensures forall p, q, j | 0 <= p < 2 && 0 <= q < 2 && 0 <= j < nCol - 1 :: Shares(Twins(nCol), p, q, j)
  {
    var x, y := Twins(nCol)[0].key, Twins(nCol)[1].key;
    assert x[..nCol - 1] == y[..nCol - 1];
    FirstDiffUnique(x, y, nCol - 1);
  }

  // A seed whose second hash is below its first.
  const FALLING_SEED: nat := 12345

  lemma HashFalls()
    ensures Prn(FALLING_SEED, 1) > Prn(FALLING_SEED, 2)
  {
    assert Prn(FALLING_SEED, 1) == 3554416254;
  }

  // The second twin as aBest[i] holds it.
  ghost function SecondTwin(nCol: nat, i: nat): (s: Sample)
    requires i < nCol
    ensures |s.eq| == nCol && s.hash == Prn(FALLING_SEED, 2) && s.col == i && !s.periodic && s.rowid == 2
    ensures forall j | 0 <= j < nCol :: s.eq[j] == EqCount(Twins(nCol), 2, 1, j)
    ensures |s.lt| == |s.dlt| == nCol
    ensures forall j | 0 <= j < nCol :: s.lt[j] == LtCount(Twins(nCol), 1, j) && s.dlt[j] == DLtCount(Twins(nCol), 1, j)
  {
    Sample(seq(nCol, j requires 0 <= j < nCol => EqCount(Twins(nCol), 2, 1, j)),
           seq(nCol, j requires 0 <= j < nCol => LtCount(Twins(nCol), 1, j)),
           seq(nCol, j requires 0 <= j < nCol => DLtCount(Twins(nCol), 1, j)), 2, false, i, Prn(FALLING_SEED, 2))
  }

  lemma SecondTwinFits(nCol: nat, i: nat)
    requires i < nCol - 1
    ensures BestOk(Twins(nCol), nCol, 2, i, SecondTwin(nCol, i)) && Pos(SecondTwin(nCol, i)) == 1
  {
    hide Sorted, EqCount, LtCount, DLtCount, Prn, SecondTwin;
    TwinsSorted(nCol);
    LtLastColumn(Twins(nCol), nCol, 1);
  }

  // The first twin ends no group on i + 2 columns, so the second is chosen although its hash is less.
  lemma TwinBeatsChosen(nCol: nat, i: nat)
    requires i < nCol - 2
    ensures BestAt(Twins(nCol), nCol, 2, FALLING_SEED, i, SecondTwin(nCol, i))
    ensures !BestOfGroup(Twins(nCol), nCol, 2, FALLING_SEED, i, SecondTwin(nCol, i))
  {
    hide Sorted, EqCount, Prn, BetterPost, SecondTwin, BestOk;
    var ix, seed, s := Twins(nCol), FALLING_SEED, SecondTwin(nCol, i);
    TwinsSorted(nCol);
    SecondTwinFits(nCol, i);
    var d := Ideal(ix, nCol, 2, seed, 1);
    BetterPostSame(d, s, d, d, i + 1);
    BetterPostIrreflexive(d, i + 1);
    assert Chosen(ix, nCol, 2, seed, i, s);
    HashFalls();
    TwinsTie(nCol, i + 1, s);
  }

  lemma {:induction false} TwinsTie(nCol: nat, i: nat, s: Sample)
    requires 0 < i <= nCol && s.hash < Prn(FALLING_SEED, 1)
    requires |s.eq| == nCol && forall j | 0 <= j < nCol :: s.eq[j] == EqCount(Twins(nCol), 2, 1, j)
    ensures BetterPost(Ideal(Twins(nCol), nCol, 2, FALLING_SEED, 0), s, i)
    decreases nCol - i
  {
    hide Sorted, EqCount, Prn, Shares;
    if i < nCol {
      TwinsSorted(nCol);
      if i < nCol - 1 {
        EqSame(Twins(nCol), 2, 0, 1, i);
      } else {
        EqUnique(Twins(nCol), nCol, 2, 0);
        EqUnique(Twins(nCol), nCol, 2, 1);
      }
      TwinsTie(nCol, i + 1, s);
    }
  }

  /** aBest[i] is the best entry of its group, for every index and seed, exactly on the last sampled column. */
  lemma BestOnLastColumnOnly(nCol: nat, i: nat)
    requires i < nCol - 1
    ensures i == nCol - 2 <==>
            forall ix: Index, m: nat, seed: nat, s: Sample
                 | Sorted(ix, nCol) && 0 < m <= |ix| && BestAt(ix, nCol, m, seed, i, s) ::
              BestOfGroup(ix, nCol, m, seed, i, s)
  {
    hide Sorted, Chosen, BestOk, BestOfGroup, Prn, SecondTwin;
    if i == nCol - 2 {
      forall ix: Index, m: nat, seed: nat, s: Sample | Sorted(ix, nCol) && 0 < m <= |ix|
          && BestAt(ix, nCol, m, seed, i, s)
        ensures BestOfGroup(ix, nCol, m, seed, i, s)
      {
        ChosenIsBest(ix, nCol, m, seed, s);
      }
    } else {
      TwinsSorted(nCol);
      TwinBeatsChosen(nCol, i);
    }
  }
}
