/** A sorted index as the STAT4 sampler sees it: entries in key order, the
    prefixes they share, and the true counts that sqlite_stat4 promises. */
module IndexOrder {
  import Sets

  // One index entry: its nCol column values and the rowid stored with the sample.
  datatype Entry = Entry(key: seq<int>, rowid: int)

  type Index = seq<Entry>

  ghost predicate LexLess(x: seq<int>, y: seq<int>) {
    |x| == |y| && var d := FirstDiff(x, y); d < |x| && x[d] < y[d]
  }

  // Every entry has nCol columns and the scan visits them in strictly ascending order.
  ghost predicate Sorted(ix: Index, nCol: nat) {
    && (forall p | 0 <= p < |ix| :: |ix[p].key| == nCol)
    && (forall p, q | 0 <= p < q < |ix| :: LexLess(ix[p].key, ix[q].key))
  }

  // Entries p and q agree on columns 0..j.
  ghost predicate Shares(ix: Index, p: int, q: int, j: int) {
    && 0 <= p < |ix| && 0 <= q < |ix| && 0 <= j < |ix[p].key| && j < |ix[q].key|
    && ix[p].key[..j + 1] == ix[q].key[..j + 1]
  }

  // The (j+1)-column prefix of p sorts before that of q.
  ghost predicate PrefixLess(ix: Index, p: int, q: int, j: int) {
    && 0 <= p < |ix| && 0 <= q < |ix| && 0 <= j < |ix[p].key| && j < |ix[q].key|
    && LexLess(ix[p].key[..j + 1], ix[q].key[..j + 1])
  }

  // The leftmost column in which two keys differ, or their length when they do not.
  function FirstDiff(x: seq<int>, y: seq<int>): (c: nat)
    requires |x| == |y|
    ensures c <= |x| && x[..c] == y[..c]
    ensures c < |x| ==> x[c] != y[c]
  {
    if x == [] then 0
    else if x[0] != y[0] then 0
    else
      var c := 1 + FirstDiff(x[1..], y[1..]);
      assert x[..c] == [x[0]] + x[1..][..c - 1] && y[..c] == [y[0]] + y[1..][..c - 1];
      c
  }

  // ---------- true counts ----------

  ghost function EqSet(ix: Index, m: nat, p: nat, j: nat): set<nat> {
    set k: nat | 0 <= k < m && Shares(ix, k, p, j)
  }

  // Among the first m entries, how many agree with p on columns 0..j.
  ghost function EqCount(ix: Index, m: nat, p: nat, j: nat): nat { |EqSet(ix, m, p, j)| }

  ghost function LtSet(ix: Index, p: nat, j: nat): set<nat> {
    set k: nat | 0 <= k < |ix| && PrefixLess(ix, k, p, j)
  }

  // Entries of the whole index whose (j+1)-column prefix is below that of p.
  ghost function LtCount(ix: Index, p: nat, j: nat): nat { |LtSet(ix, p, j)| }

  ghost function Prefix(ix: Index, k: nat, j: nat): seq<int> {
    if k < |ix| && j < |ix[k].key| then ix[k].key[..j + 1] else []
  }

  ghost function DLtSet(ix: Index, p: nat, j: nat): set<seq<int>> {
    set k: nat | 0 <= k < |ix| && PrefixLess(ix, k, p, j) :: Prefix(ix, k, j)
  }

  // Distinct (j+1)-column prefixes of the whole index below that of p.
  ghost function DLtCount(ix: Index, p: nat, j: nat): nat { |DLtSet(ix, p, j)| }

  // ---------- order facts ----------

  lemma FirstDiffUnique(x: seq<int>, y: seq<int>, c: nat)
    requires |x| == |y| && c <= |x| && x[..c] == y[..c] && (c < |x| ==> x[c] != y[c])
    ensures FirstDiff(x, y) == c
  {
    var d := FirstDiff(x, y);
    assert forall k | 0 <= k < c :: x[k] == x[..c][k] && y[k] == y[..c][k];
    assert forall k | 0 <= k < d :: x[k] == x[..d][k] && y[k] == y[..d][k];
  }

  // Sharing and order of prefixes, read off the first differing column.
  lemma ByFirstDiff(ix: Index, nCol: nat, p: nat, q: nat, j: nat)
    requires Sorted(ix, nCol) && p < |ix| && q < |ix| && j < nCol
    ensures var x, y := ix[p].key, ix[q].key; var d := FirstDiff(x, y);
            && d == FirstDiff(y, x)
            && (Shares(ix, p, q, j) <==> j < d)
            && (PrefixLess(ix, p, q, j) <==> d <= j && x[d] < y[d])
  {
    var x, y := ix[p].key, ix[q].key;
    var d := FirstDiff(x, y);
    FirstDiffUnique(y, x, d);
    var u, v := x[..j + 1], y[..j + 1];
    if j < d {
      assert u == x[..d][..j + 1] && v == y[..d][..j + 1];
      FirstDiffUnique(u, v, j + 1);
    } else {
      assert u[..d] == x[..d] && v[..d] == y[..d] && u[d] == x[d] && v[d] == y[d];
      FirstDiffUnique(u, v, d);
    }
  }

  // Going right, a prefix either stays the same or grows.
  lemma PrefixDichotomy(ix: Index, nCol: nat, p: nat, q: nat, j: nat)
    requires Sorted(ix, nCol) && p < q < |ix| && j < nCol
    ensures Shares(ix, p, q, j) != PrefixLess(ix, p, q, j)
    ensures !PrefixLess(ix, q, p, j)
  {
    assert LexLess(ix[p].key, ix[q].key);
    ByFirstDiff(ix, nCol, p, q, j);
    ByFirstDiff(ix, nCol, q, p, j);
  }

  // Entries that share a prefix are contiguous.
  lemma Contiguous(ix: Index, nCol: nat, p: nat, q: nat, r: nat, j: nat)
    requires Sorted(ix, nCol) && p <= q <= r < |ix| && j < nCol
    requires Shares(ix, p, r, j)
    ensures Shares(ix, p, q, j) && Shares(ix, q, r, j)
  {
    if p < q < r {
      PrefixDichotomy(ix, nCol, p, q, j);
      PrefixDichotomy(ix, nCol, q, r, j);
    }
  }

  lemma SharesDown(ix: Index, p: nat, q: nat, i: nat, j: nat)
    requires i <= j && Shares(ix, p, q, j)
    ensures Shares(ix, p, q, i)
  {
    assert ix[p].key[..i + 1] == ix[p].key[..j + 1][..i + 1];
    assert ix[q].key[..i + 1] == ix[q].key[..j + 1][..i + 1];
  }

  lemma SharesAllIsSame(ix: Index, nCol: nat, p: nat, q: nat)
    requires Sorted(ix, nCol) && nCol > 0 && Shares(ix, p, q, nCol - 1)
    ensures p == q
  {
    ByFirstDiff(ix, nCol, p, q, nCol - 1);
  }

  // The changed-column argument of stat_push: the leftmost column in which two entries differ.
  function ChangedCol(x: seq<int>, y: seq<int>): nat requires |x| == |y| { FirstDiff(x, y) }

  lemma ChangedColumn(ix: Index, nCol: nat, m: nat, j: nat)
    requires Sorted(ix, nCol) && 0 < m < |ix| && j < nCol
    ensures var c := ChangedCol(ix[m - 1].key, ix[m].key);
            c < nCol && (Shares(ix, m - 1, m, j) <==> j < c)
  {
    assert LexLess(ix[m - 1].key, ix[m].key);
    ByFirstDiff(ix, nCol, m - 1, m, j);
  }

  // ---------- how the true counts grow by one entry ----------

  lemma LtSetIsBefore(ix: Index, nCol: nat, p: nat, j: nat)
    requires Sorted(ix, nCol) && p < |ix| && j < nCol
    ensures LtSet(ix, p, j) == set k: nat | 0 <= k < p && !Shares(ix, k, p, j)
  {
    forall k: nat | k < |ix|
      ensures PrefixLess(ix, k, p, j) <==> k < p && !Shares(ix, k, p, j)
    {
      if k < p { PrefixDichotomy(ix, nCol, k, p, j); }
      else if k > p { PrefixDichotomy(ix, nCol, p, k, j); }
    }
  }

  lemma EqGrows(ix: Index, m: nat, p: nat, j: nat)
    ensures EqCount(ix, m + 1, p, j) == EqCount(ix, m, p, j) + (if Shares(ix, m, p, j) then 1 else 0)
  {
    if Shares(ix, m, p, j) {
      assert EqSet(ix, m + 1, p, j) == EqSet(ix, m, p, j) + {m};
    } else {
      assert EqSet(ix, m + 1, p, j) == EqSet(ix, m, p, j);
    }
  }

  lemma EqSame(ix: Index, m: nat, p: nat, q: nat, j: nat)
    requires Shares(ix, p, q, j)
    ensures EqCount(ix, m, p, j) == EqCount(ix, m, q, j)
  {
    assert EqSet(ix, m, p, j) == EqSet(ix, m, q, j);
  }

  lemma EqPositive(ix: Index, nCol: nat, m: nat, p: nat, j: nat)
    requires Sorted(ix, nCol) && p < m <= |ix| && j < nCol
    ensures EqCount(ix, m, p, j) > 0
  {
    assert p in EqSet(ix, m, p, j);
  }

  lemma EqNested(ix: Index, m: nat, p: nat, i: nat, j: nat)
    requires i <= j
    ensures EqCount(ix, m, p, j) <= EqCount(ix, m, p, i)
  {
    forall k | k in EqSet(ix, m, p, j) ensures k in EqSet(ix, m, p, i) { SharesDown(ix, k, p, i, j); }
    Sets.SubsetSize(EqSet(ix, m, p, j), EqSet(ix, m, p, i));
  }

  lemma EqUnique(ix: Index, nCol: nat, m: nat, p: nat)
    requires Sorted(ix, nCol) && p < m <= |ix| && nCol > 0
    ensures EqCount(ix, m, p, nCol - 1) == 1
  {
    var j := nCol - 1;
    forall k: nat | Shares(ix, k, p, j) ensures k == p { SharesAllIsSame(ix, nCol, k, p); }
    assert EqSet(ix, m, p, j) == {p};
  }

  // nLt of the next entry: unchanged where it shares the prefix, advanced past the closed group where not.
  lemma LtAdvances(ix: Index, nCol: nat, m: nat, j: nat)
    requires Sorted(ix, nCol) && 0 < m < |ix| && j < nCol
    ensures LtCount(ix, m, j) == LtCount(ix, m - 1, j) +
              (if Shares(ix, m - 1, m, j) then 0 else EqCount(ix, m, m - 1, j))
  {
    if Shares(ix, m - 1, m, j) {
      LtSetIsBefore(ix, nCol, m, j);
      LtSetIsBefore(ix, nCol, m - 1, j);
      assert forall k: nat | k < m :: Shares(ix, k, m, j) <==> Shares(ix, k, m - 1, j);
      assert LtSet(ix, m - 1, j) == LtSet(ix, m, j);
    } else {
      LtSplit(ix, nCol, m, j);
    }
  }

  ghost function Prefixes(ix: Index, ks: set<nat>, j: nat): set<seq<int>> {
    set k | k in ks :: Prefix(ix, k, j)
  }

  lemma PrefixesAddGroup(ix: Index, lo: set<nat>, group: set<nat>, j: nat, last: seq<int>)
    requires group != {}
    requires forall k | k in group :: Prefix(ix, k, j) == last
    requires forall k | k in lo :: Prefix(ix, k, j) != last
    ensures |Prefixes(ix, lo + group, j)| == |Prefixes(ix, lo, j)| + 1
  {
    var g :| g in group;
    assert Prefix(ix, g, j) in Prefixes(ix, lo + group, j);
    assert Prefixes(ix, lo + group, j) == Prefixes(ix, lo, j) + {last};
  }

  lemma DLtAdvances(ix: Index, nCol: nat, m: nat, j: nat)
    requires Sorted(ix, nCol) && 0 < m < |ix| && j < nCol
    ensures DLtCount(ix, m, j) == DLtCount(ix, m - 1, j) + (if Shares(ix, m - 1, m, j) then 0 else 1)
  {
    hide Sorted, PrefixLess;
    LtSetIsBefore(ix, nCol, m, j);
    LtSetIsBefore(ix, nCol, m - 1, j);
    var lo, hi := LtSet(ix, m - 1, j), LtSet(ix, m, j);
    assert DLtSet(ix, m - 1, j) == Prefixes(ix, lo, j);
    assert DLtSet(ix, m, j) == Prefixes(ix, hi, j);
    if Shares(ix, m - 1, m, j) {
      assert forall k: nat | k < m :: Shares(ix, k, m, j) <==> Shares(ix, k, m - 1, j);
      assert lo == hi;
    } else {
      LtSplit(ix, nCol, m, j);
      var last := Prefix(ix, m - 1, j);
      assert forall k | k in EqSet(ix, m, m - 1, j) :: Prefix(ix, k, j) == last;
      assert m - 1 in EqSet(ix, m, m - 1, j);
      PrefixesAddGroup(ix, lo, EqSet(ix, m, m - 1, j), j, last);
    }
  }

  lemma LtSplit(ix: Index, nCol: nat, m: nat, j: nat)
    requires Sorted(ix, nCol) && 0 < m < |ix| && j < nCol && !Shares(ix, m - 1, m, j)
    ensures LtSet(ix, m, j) == LtSet(ix, m - 1, j) + EqSet(ix, m, m - 1, j)
    ensures LtSet(ix, m - 1, j) !! EqSet(ix, m, m - 1, j)
  {
    LtSetIsBefore(ix, nCol, m, j);
    LtSetIsBefore(ix, nCol, m - 1, j);
    forall k: nat | k < m ensures !Shares(ix, k, m, j) {
      if Shares(ix, k, m, j) { Contiguous(ix, nCol, k, m - 1, m, j); }
    }
  }

  lemma FirstEntryCounts(ix: Index, nCol: nat, j: nat)
    requires Sorted(ix, nCol) && |ix| > 0 && j < nCol
    ensures LtCount(ix, 0, j) == 0 && DLtCount(ix, 0, j) == 0 && EqCount(ix, 1, 0, j) == 1
  {
    LtSetIsBefore(ix, nCol, 0, j);
    assert LtSet(ix, 0, j) == {};
    assert DLtSet(ix, 0, j) == Prefixes(ix, {}, j);
    assert EqSet(ix, 1, 0, j) == {0};
  }

  lemma {:induction false} LtLastColumn(ix: Index, nCol: nat, p: nat)
    requires Sorted(ix, nCol) && p < |ix| && nCol > 0
    ensures LtCount(ix, p, nCol - 1) == p
  {
    hide Sorted, LtCount, EqCount, DLtCount, Shares;
    if p == 0 {
      FirstEntryCounts(ix, nCol, nCol - 1);
    } else {
      LtLastColumn(ix, nCol, p - 1);
      LtAdvances(ix, nCol, p, nCol - 1);
      EqUnique(ix, nCol, p, p - 1);
      assert !Shares(ix, p - 1, p, nCol - 1) by { if Shares(ix, p - 1, p,
             nCol - 1) { SharesAllIsSame(ix, nCol, p - 1, p); } }
    }
  }
}
