/** The trunk/leaf freelist as it lies on pages of four-byte words
    (section 1.5 of the SQLite Database File Format). */
module FreelistShape {

  // A trunk page and the leaves it lists.
  datatype Trunk = Trunk(pgno: nat, leaves: seq<nat>)

  type Pages = map<nat, seq<nat>>

  // put4byte on a page of words.
  function With(s: seq<nat>, i: nat, v: nat): (r: seq<nat>)
    requires i < |s|
  {
    s[i := v]
  }

  function One(t: Trunk): multiset<nat> { multiset{t.pgno} + multiset(t.leaves) }

  // Every page of the list with its multiplicity.
  function Bag(ts: seq<Trunk>): multiset<nat> { Flat(ts) }

  function Flat(ts: seq<Trunk>): multiset<nat> {
    if ts == [] then multiset{} else One(ts[0]) + Flat(ts[1..])
  }

  function SetOf(m: multiset<nat>): set<nat> { set x | x in m }

  function Members(ts: seq<Trunk>): set<nat> { SetOf(Bag(ts)) }

  ghost predicate NoDup(ts: seq<Trunk>) { forall x :: Bag(ts)[x] <= 1 }

  function LeafSet(ts: seq<Trunk>): set<nat> { set i, x | 0 <= i < |ts| && x in ts[i].leaves :: x }

  // The i-th trunk, or zero past the end.
  function Link(ts: seq<Trunk>, i: nat): nat { if i < |ts| then ts[i].pgno else 0 }

  // The trunk before the i-th, or zero at the head.
  function Prev(ts: seq<Trunk>, i: nat): nat
    requires i <= |ts|
  {
    if i == 0 then 0 else ts[i - 1].pgno
  }

  // Trunk i is on its page: the next trunk, the number of leaves, and the leaves.
  ghost predicate Stored(pages: Pages, w: nat, ts: seq<Trunk>, i: nat)
    requires i < |ts|
  {
    && ts[i].pgno in pages && |pages[ts[i].pgno]| == w && |ts[i].leaves| + 2 <= w
    && pages[ts[i].pgno][0] == Link(ts, i + 1)
    && pages[ts[i].pgno][1] == |ts[i].leaves|
    && forall j | 0 <= j < |ts[i].leaves| :: pages[ts[i].pgno][2 + j] == ts[i].leaves[j]
  }

  // Word 8 of page 1 starts the chain.
  ghost predicate Listed(pages: Pages, w: nat, ts: seq<Trunk>) {
    && 1 in pages && |pages[1]| == w && w >= 10 && pages[1][8] == Link(ts, 0)
    && forall i | 0 <= i < |ts| :: Stored(pages, w, ts, i)
  }

  // ---------- the bag ----------

  lemma {:induction false} BagConcat(a: seq<Trunk>, b: seq<Trunk>)
    ensures Bag(a + b) == Bag(a) + Bag(b)
  {
    if a == [] {
      assert a + b == b;
    } else {
      assert (a + b)[1..] == a[1..] + b;
      BagConcat(a[1..], b);
    }
  }

  lemma BagOne(t: Trunk)
    ensures Bag([t]) == One(t)
  {
    assert [t][1..] == [];
    assert Flat([t]) == One(t) + Flat([t][1..]);
  }

  lemma BagAt(ts: seq<Trunk>, i: nat)
    requires i < |ts|
    ensures Bag(ts) == Bag(ts[..i]) + One(ts[i]) + Bag(ts[i + 1..])
    ensures Bag(ts[..i + 1]) == Bag(ts[..i]) + One(ts[i])
  {
    hide One;
    assert ts == ts[..i] + [ts[i]] + ts[i + 1..];
    assert ts[..i + 1] == ts[..i] + [ts[i]];
    BagConcat(ts[..i] + [ts[i]], ts[i + 1..]);
    BagConcat(ts[..i], [ts[i]]);
    BagOne(ts[i]);
  }

  lemma BagReplace(ts: seq<Trunk>, i: nat, t: Trunk)
    requires i < |ts|
    ensures Bag(ts[i := t]) + One(ts[i]) == Bag(ts) + One(t)
  {
    BagAt(ts, i);
    BagAt(ts[i := t], i);
    assert ts[i := t][..i] == ts[..i] && ts[i := t][i + 1..] == ts[i + 1..];
  }

  lemma BagRemove(ts: seq<Trunk>, i: nat)
    requires i < |ts|
    ensures Bag(ts[..i] + ts[i + 1..]) + One(ts[i]) == Bag(ts)
  {
    BagAt(ts, i);
    BagConcat(ts[..i], ts[i + 1..]);
  }

  lemma OneHolds(ts: seq<Trunk>, i: nat)
    requires i < |ts|
    ensures ts[i].pgno in Bag(ts) && forall x | x in ts[i].leaves :: x in Bag(ts)
  {
    BagAt(ts, i);
  }

  lemma {:induction false} SetSize(m: multiset<nat>)
    requires forall x :: m[x] <= 1
    ensures |SetOf(m)| == |m|
    decreases |m|
  {
    if m == multiset{} {
      assert SetOf(m) == {};
    } else {
      var y :| y in m;
      var m' := m - multiset{y};
      forall x ensures m'[x] <= 1 { assert m[x] <= 1; }
      SetSize(m');
      assert SetOf(m) == SetOf(m') + {y};
    }
  }

  /** A list without duplicates denotes a set of as many pages as it has entries. */
  lemma MembersCount(ts: seq<Trunk>)
    requires NoDup(ts)
    ensures |Members(ts)| == |Bag(ts)|
  {
    SetSize(Bag(ts));
  }

  lemma {:induction false} RangeSize(s: set<nat>, n: nat)
    requires forall x | x in s :: 2 <= x <= n
    ensures |s| < n || s == {}
  {
    if n < 2 {
      assert s == {};
    } else {
      var s' := s - {n};
      RangeSize(s', n - 1);
      if n in s { assert s == s' + {n}; } else { assert s == s'; }
    }
  }

  // ---------- distinct pages ----------

  // Trunks differ from each other and from every leaf, and page 1 is not listed.
  ghost predicate Separate(ts: seq<Trunk>) {
    && (forall i, j | 0 <= i < j < |ts| :: ts[i].pgno != ts[j].pgno)
    && (forall i, x, j | 0 <= i < |ts| && x in ts[i].leaves && 0 <= j < |ts| :: ts[j].pgno != x)
    && (forall i | 0 <= i < |ts| :: ts[i].pgno != 1 && 1 !in ts[i].leaves)
  }

  lemma TwoTrunks(ts: seq<Trunk>, i: nat, j: nat)
    requires NoDup(ts) && i < j < |ts|
    ensures forall x | x in One(ts[i]) :: x !in One(ts[j])
  {
    BagAt(ts, j);
    BagAt(ts[..j], i);
    assert ts[..j][i] == ts[i];
    forall x | x in One(ts[i]) ensures x !in One(ts[j]) { assert Bag(ts)[x] <= 1; }
  }

  lemma OwnLeaf(ts: seq<Trunk>, i: nat)
    requires NoDup(ts) && i < |ts|
    ensures ts[i].pgno !in ts[i].leaves
  {
    BagAt(ts, i);
    assert Bag(ts)[ts[i].pgno] <= 1;
  }

  lemma NoDupSeparate(ts: seq<Trunk>)
    requires NoDup(ts) && 1 !in Bag(ts)
    ensures Separate(ts)
  {
    hide Bag, NoDup;
    forall i, j | 0 <= i < j < |ts| ensures ts[i].pgno != ts[j].pgno {
      TwoTrunks(ts, i, j);
      assert ts[i].pgno in One(ts[i]);
    }
    forall i, x, j | 0 <= i < |ts| && x in ts[i].leaves && 0 <= j < |ts| ensures ts[j].pgno != x {
      assert x in One(ts[i]) && ts[j].pgno in One(ts[j]);
      if i == j { OwnLeaf(ts, i); } else if i < j { TwoTrunks(ts, i, j); } else { TwoTrunks(ts, j, i); }
    }
    forall i | 0 <= i < |ts| ensures ts[i].pgno != 1 && 1 !in ts[i].leaves { OneHolds(ts, i); }
  }

  // ---------- edits ----------

  // Point the trunk prev, or the database header when prev is zero, at v.
  function SetLink(pages: Pages, prev: nat, v: nat): Pages
    requires prev == 0 ==> 1 in pages && |pages[1]| > 8
    requires prev != 0 ==> prev in pages && |pages[prev]| > 0
  {
    if prev == 0 then pages[1 := With(pages[1], 8, v)] else pages[prev := With(pages[prev], 0, v)]
  }

  lemma DropEmptyTrunk(pages: Pages, w: nat, ts: seq<Trunk>, i: nat)
    requires Listed(pages, w, ts) && Separate(ts) && i < |ts| && (forall j | 0 <= j < |ts| :: ts[j].pgno != 0)
    ensures Prev(ts, i) != 0 ==> Prev(ts, i) in pages && |pages[Prev(ts, i)]| == w
    ensures ts[i].pgno in pages && |pages[ts[i].pgno]| == w && pages[ts[i].pgno][0] == Link(ts, i + 1)
    ensures Listed(SetLink(pages, Prev(ts, i), Link(ts, i + 1)), w, ts[..i] + ts[i + 1..])
  {
    assert Stored(pages, w, ts, i);
    assert i > 0 ==> Stored(pages, w, ts, i - 1);
    var us, pages' := ts[..i] + ts[i + 1..], SetLink(pages, Prev(ts, i), Link(ts, i + 1));
    forall j | 0 <= j < |us| ensures Stored(pages', w, us, j) {
      var k := if j < i then j else j + 1;
      assert Stored(pages, w, ts, k) && us[j] == ts[k];
    }
  }

  // The words of page f once it is the trunk of rest with next trunk v.
  predicate TrunkWords(s: seq<nat>, w: nat, v: nat, rest: seq<nat>) {
    && |s| == w && |rest| + 2 <= w && s[0] == v && s[1] == |rest|
    && forall j | 0 <= j < |rest| :: s[2 + j] == rest[j]
  }

  lemma PromoteLeaf(pages: Pages, w: nat, ts: seq<Trunk>, i: nat, s: seq<nat>)
    requires Listed(pages, w, ts) && Separate(ts) && i < |ts| && ts[i].leaves != []
             && (forall j | 0 <= j < |ts| :: ts[j].pgno != 0)
    requires TrunkWords(s, w, Link(ts, i + 1), ts[i].leaves[1..])
    ensures var f := ts[i].leaves[0]; var mid := pages[f := s];
            (Prev(ts, i) != 0 ==> Prev(ts, i) in mid && |mid[Prev(ts, i)]| == w) && 1 in mid && |mid[1]| == w
            && Listed(SetLink(mid, Prev(ts, i), f), w, ts[i := Trunk(f, ts[i].leaves[1..])])
  {
    var f := ts[i].leaves[0];
    assert Stored(pages, w, ts, i);
    assert i > 0 ==> Stored(pages, w, ts, i - 1);
    assert f in ts[i].leaves;
    var us, pages' := ts[i := Trunk(f, ts[i].leaves[1..])], SetLink(pages[f := s], Prev(ts, i), f);
    forall j | 0 <= j < |us| ensures Stored(pages', w, us, j) {
      assert Stored(pages, w, ts, j);
    }
  }

  // A leaf list without entry c: the last entry takes its place.
  function SwapOut(leaves: seq<nat>, c: nat): seq<nat>
    requires c < |leaves|
  {
    leaves[c := leaves[|leaves| - 1]][..|leaves| - 1]
  }

  lemma SwapOutBag(leaves: seq<nat>, c: nat)
    requires c < |leaves|
    ensures multiset(SwapOut(leaves, c)) + multiset{leaves[c]} == multiset(leaves)
    ensures forall x | x in SwapOut(leaves, c) :: x in leaves
  {
    var k := |leaves|;
    var front := leaves[..k - 1];
    assert leaves == front + [leaves[k - 1]];
    if c < k - 1 {
      assert SwapOut(leaves, c) == front[c := leaves[k - 1]];
    } else {
      assert SwapOut(leaves, c) == front;
    }
    forall x | x in SwapOut(leaves, c) ensures x in leaves { assert x in multiset(SwapOut(leaves, c)); }
  }

  // Rewriting trunk i's own page with other leaves.
  lemma NewLeaves(pages: Pages, w: nat, ts: seq<Trunk>, i: nat, s: seq<nat>, leaves: seq<nat>)
    requires Listed(pages, w, ts) && Separate(ts) && i < |ts| && TrunkWords(s, w, Link(ts, i + 1), leaves)
    ensures Listed(pages[ts[i].pgno := s], w, ts[i := Trunk(ts[i].pgno, leaves)])
  {
    var us, pages' := ts[i := Trunk(ts[i].pgno, leaves)], pages[ts[i].pgno := s];
    forall j | 0 <= j < |us| ensures Stored(pages', w, us, j) {
      assert Stored(pages, w, ts, j);
    }
  }

  lemma NewTrunk(pages: Pages, w: nat, ts: seq<Trunk>, p: nat, s: seq<nat>)
    requires Listed(pages, w, ts) && Separate(ts) && TrunkWords(s, w, Link(ts, 0), [])
    requires p != 1 && forall i | 0 <= i < |ts| :: ts[i].pgno != p
    ensures Listed(pages[p := s][1 := With(pages[1], 8, p)], w, [Trunk(p, [])] + ts)
  {
    var us, pages' := [Trunk(p, [])] + ts, pages[p := s][1 := With(pages[1], 8, p)];
    forall j | 0 <= j < |us| ensures Stored(pages', w, us, j) {
      assert j > 0 ==> Stored(pages, w, ts, j - 1);
    }
  }

  // ---------- taking a page ----------

  // From ts on pages to ts' on pages': page p left the list, and only page 1 and pages of the list changed.
  ghost predicate Took(pages: Pages, ts: seq<Trunk>, pages': Pages, ts': seq<Trunk>, p: nat) {
    && Bag(ts') + multiset{p} == Bag(ts) && LeafSet(ts') <= LeafSet(ts)
    && Same(pages, pages', Members(ts)) && 1 in pages && |pages[1]| >= 10 && pages'[1][9] == pages[1][9]
  }

  // Pages keep their sizes, and those outside s and page 1 their contents.
  ghost predicate Same(pages: Pages, pages': Pages, s: set<nat>) {
    && pages'.Keys == pages.Keys
    && forall q | q in pages :: |pages'[q]| == |pages[q]| && (q == 1 || q in s || pages'[q] == pages[q])
  }

  lemma EmptyTrunkTook(pages: Pages, w: nat, ts: seq<Trunk>, i: nat)
    requires Listed(pages, w, ts) && Separate(ts) && i < |ts| && ts[i].leaves == []
             && (forall j | 0 <= j < |ts| :: ts[j].pgno != 0)
    requires Prev(ts, i) != 0 ==> Prev(ts, i) in pages && |pages[Prev(ts, i)]| == w
    ensures Took(pages, ts, SetLink(pages, Prev(ts, i), Link(ts, i + 1)), ts[..i] + ts[i + 1..], ts[i].pgno)
  {
    hide Listed, Separate, Bag, LeafSet;
    ListedHead(pages, w, ts);
    BagRemove(ts, i);
    LeavesRemove(ts, i);
    if i > 0 { OneHolds(ts, i - 1); }
  }

  lemma LeavesRemove(ts: seq<Trunk>, i: nat)
    requires i < |ts|
    ensures LeafSet(ts[..i] + ts[i + 1..]) <= LeafSet(ts)
  {
    var us := ts[..i] + ts[i + 1..];
    forall x | x in LeafSet(us) ensures x in LeafSet(ts) {
      var j :| 0 <= j < |us| && x in us[j].leaves;
      var k := if j < i then j else j + 1;
      assert us[j] == ts[k];
    }
  }

  lemma LeavesReplace(ts: seq<Trunk>, i: nat, t: Trunk)
    requires i < |ts|
    ensures LeafSet(ts[i := t]) <= LeafSet(ts) + (set x | x in t.leaves)
    ensures (set x | x in ts[i].leaves) <= LeafSet(ts)
  {
    var us := ts[i := t];
    forall x | x in LeafSet(us) ensures x in LeafSet(ts) || x in t.leaves {
      var j :| 0 <= j < |us| && x in us[j].leaves;
      if j != i { assert x in ts[j].leaves; }
    }
  }

  lemma ListedHead(pages: Pages, w: nat, ts: seq<Trunk>)
    requires Listed(pages, w, ts)
    ensures 1 in pages && |pages[1]| == w && w >= 10
  {
  }

  lemma Cancel(a: multiset<nat>, b: multiset<nat>, c: multiset<nat>, d: multiset<nat>, e: multiset<nat>)
    requires a + b == c + d && d + e == b
    ensures a + e == c
  {
    forall x ensures (a + e)[x] == c[x] {
      assert (a + b)[x] == (c + d)[x] && (d + e)[x] == b[x];
    }
  }

  lemma ReplaceTook(pages: Pages, ts: seq<Trunk>, pages': Pages, i: nat, t: Trunk, p: nat)
    requires i < |ts| && One(t) + multiset{p} == One(ts[i]) && (forall x | x in t.leaves :: x in ts[i].leaves)
    requires Same(pages, pages', Members(ts)) && 1 in pages && |pages[1]| >= 10 && pages'[1][9] == pages[1][9]
    ensures Took(pages, ts, pages', ts[i := t], p)
  {
    hide Bag, LeafSet, One, Same, Members;
    BagReplace(ts, i, t);
    LeavesReplace(ts, i, t);
    Cancel(Bag(ts[i := t]), One(ts[i]), Bag(ts), One(t), multiset{p});
  }

  lemma PromoteTook(pages: Pages, w: nat, ts: seq<Trunk>, i: nat, s: seq<nat>)
    requires Listed(pages, w, ts) && Separate(ts) && i < |ts| && ts[i].leaves != [] && |s| == w
    requires ts[i].leaves[0] in pages && |pages[ts[i].leaves[0]]| == w
    requires Prev(ts, i) != 0 ==> Prev(ts, i) in pages && |pages[Prev(ts, i)]| == w
    ensures ts[i].leaves[0] != 1 && (i > 0 ==> ts[i].leaves[0] != Prev(ts, i))
    ensures Took(pages, ts, SetLink(pages[ts[i].leaves[0] := s], Prev(ts, i), ts[i].leaves[0]),
                 ts[i := Trunk(ts[i].leaves[0], ts[i].leaves[1..])], ts[i].pgno)
  {
    var f := ts[i].leaves[0];
    assert f in ts[i].leaves;
    assert f != 1 && (i > 0 ==> f != ts[i - 1].pgno && ts[i - 1].pgno != 1);
    hide Listed, Separate, Bag, LeafSet;
    ListedHead(pages, w, ts);
    OneHolds(ts, i);
    if i > 0 { OneHolds(ts, i - 1); }
    assert ts[i].leaves == [f] + ts[i].leaves[1..];
    ReplaceTook(pages, ts, SetLink(pages[f := s], Prev(ts, i), f), i, Trunk(f, ts[i].leaves[1..]), ts[i].pgno);
  }

  lemma OneSwap(t: Trunk, c: nat)
    requires c < |t.leaves|
    ensures One(Trunk(t.pgno, SwapOut(t.leaves, c))) + multiset{t.leaves[c]} == One(t)
    ensures forall x | x in SwapOut(t.leaves, c) :: x in t.leaves
  {
    hide SwapOut;
    SwapOutBag(t.leaves, c);
    var a, b, p := multiset{t.pgno}, multiset(SwapOut(t.leaves, c)), multiset{t.leaves[c]};
    assert a + b + p == a + (b + p);
  }

  lemma LeafTook(pages: Pages, w: nat, ts: seq<Trunk>, i: nat, s: seq<nat>, c: nat)
    requires Listed(pages, w, ts) && Separate(ts) && i < |ts| && c < |ts[i].leaves| && |s| == w
    ensures Took(pages, ts, pages[ts[i].pgno := s], ts[i := Trunk(ts[i].pgno, SwapOut(ts[i].leaves, c))],
            ts[i].leaves[c])
  {
    hide Listed, Separate, Stored, Bag, LeafSet, SwapOut, Took, One, Same, Members;
    OwnPageChanged(pages, w, ts, i, s);
    OneSwap(ts[i], c);
    ReplaceTook(pages, ts, pages[ts[i].pgno := s], i, Trunk(ts[i].pgno, SwapOut(ts[i].leaves, c)), ts[i].leaves[c]);
  }

  lemma OwnPageChanged(pages: Pages, w: nat, ts: seq<Trunk>, i: nat, s: seq<nat>)
    requires Listed(pages, w, ts) && Separate(ts) && i < |ts| && |s| == w
    ensures var pages' := pages[ts[i].pgno := s];
            Same(pages, pages', Members(ts)) && 1 in pages && |pages[1]| >= 10 && pages'[1] == pages[1]
  {
    assert Stored(pages, w, ts, i) && ts[i].pgno != 1;
    hide Listed, Separate, Stored, Bag;
    ListedHead(pages, w, ts);
    OneHolds(ts, i);
  }

  lemma TookMembers(pages: Pages, ts: seq<Trunk>, pages': Pages, ts': seq<Trunk>, p: nat)
    requires Took(pages, ts, pages', ts', p) && NoDup(ts)
    ensures NoDup(ts') && p in Members(ts) && Members(ts') == Members(ts) - {p} && |Bag(ts')| == |Bag(ts)| - 1
  {
    forall x ensures Bag(ts')[x] <= 1 { assert Bag(ts)[x] <= 1; }
    assert Bag(ts)[p] <= 1;
  }

  // ---------- adding a page ----------

  // From ts on pages to ts' on pages': page p joined the list, and only page 1, p and pages of the list changed.
  ghost predicate Added(pages: Pages, ts: seq<Trunk>, pages': Pages, ts': seq<Trunk>, p: nat) {
    && Bag(ts') == Bag(ts) + multiset{p} && LeafSet(ts') <= LeafSet(ts) + {p}
    && Same(pages, pages', Members(ts) + {p}) && 1 in pages && |pages[1]| >= 10 && pages'[1][9] == pages[1][9]
  }

  lemma AddedMembers(pages: Pages, ts: seq<Trunk>, pages': Pages, ts': seq<Trunk>, p: nat)
    requires Added(pages, ts, pages', ts', p) && NoDup(ts) && p !in Members(ts)
    ensures NoDup(ts') && Members(ts') == Members(ts) + {p} && |Bag(ts')| == |Bag(ts)| + 1
  {
    forall x ensures Bag(ts')[x] <= 1 { assert Bag(ts)[x] <= 1; }
  }

  lemma LeavesAppend(ts: seq<Trunk>, p: nat)
    requires ts != []
    ensures LeafSet(ts[0 := Trunk(ts[0].pgno, ts[0].leaves + [p])]) == LeafSet(ts) + {p}
  {
    var us := ts[0 := Trunk(ts[0].pgno, ts[0].leaves + [p])];
    LeavesReplace(ts, 0, us[0]);
    assert p in us[0].leaves;
    forall x | x in LeafSet(ts) ensures x in LeafSet(us) {
      var j :| 0 <= j < |ts| && x in ts[j].leaves;
      assert x in us[j].leaves;
    }
  }

  lemma {:induction false} LeavesMembers(ts: seq<Trunk>)
    ensures LeafSet(ts) <= Members(ts)
  {
    forall x | x in LeafSet(ts) ensures x in Bag(ts) {
      var j :| 0 <= j < |ts| && x in ts[j].leaves;
      OneHolds(ts, j);
    }
  }

  lemma LeafAdded(pages: Pages, w: nat, ts: seq<Trunk>, s: seq<nat>, p: nat)
    requires Listed(pages, w, ts) && Separate(ts) && ts != [] && |s| == w
    ensures Added(pages, ts, pages[ts[0].pgno := s], ts[0 := Trunk(ts[0].pgno, ts[0].leaves + [p])], p)
  {
    hide Listed, Separate, Bag, LeafSet, Members;
    var t := Trunk(ts[0].pgno, ts[0].leaves + [p]);
    OwnPageChanged(pages, w, ts, 0, s);
    BagReplace(ts, 0, t);
    LeavesReplace(ts, 0, t);
    Cancel(Bag(ts) + multiset{p}, One(ts[0]), Bag(ts[0 := t]), One(ts[0]), multiset{});
  }

  lemma TrunkAdded(pages: Pages, w: nat, ts: seq<Trunk>, s: seq<nat>, p: nat)
    requires Listed(pages, w, ts) && Separate(ts) && |s| == w && p in pages && |pages[p]| == w && p != 1
    ensures 1 in pages && |pages[1]| == w && w >= 10
    ensures Added(pages, ts, pages[p := s][1 := With(pages[1], 8, p)], [Trunk(p, [])] + ts, p)
  {
    hide Listed, Separate, Bag, LeafSet, Members;
    ListedHead(pages, w, ts);
    BagConcat([Trunk(p, [])], ts);
    BagOne(Trunk(p, []));
    LeavesPrepend(ts, p);
  }

  lemma LeavesPrepend(ts: seq<Trunk>, p: nat)
    ensures LeafSet([Trunk(p, [])] + ts) == LeafSet(ts)
  {
    var us := [Trunk(p, [])] + ts;
    forall x | x in LeafSet(ts) ensures x in LeafSet(us) {
      var j :| 0 <= j < |ts| && x in ts[j].leaves;
      assert us[j + 1] == ts[j];
    }
    forall x | x in LeafSet(us) ensures x in LeafSet(ts) {
      var j :| 0 <= j < |us| && x in us[j].leaves;
      assert us[j] == ts[j - 1];
    }
  }
}
