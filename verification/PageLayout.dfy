/** How a b-tree page's cell content area is divided: cells, freeblocks and
    fragments tile the bytes from the start of the content area to the usable end
    (section 1.6 of the SQLite Database File Format). */
module PageLayout {
  import Sets

  datatype Region = Region(start: nat, len: nat) {
    function End(): nat { start + len }
  }

  predicate Apart(a: Region, b: Region) { a.End() <= b.start || b.End() <= a.start }

  function Sum(rs: seq<Region>): nat { if rs == [] then 0 else rs[0].len + Sum(rs[1..]) }

  // Bytes covered by a list of disjoint regions.
  function Total(rs: seq<Region>): nat { Sum(rs) }

  predicate Inside(rs: seq<Region>, lo: nat, hi: nat) {
    forall i | 0 <= i < |rs| :: lo <= rs[i].start && rs[i].End() <= hi
  }

  predicate AllApart(rs: seq<Region>) {
    forall i, j | 0 <= i < j < |rs| :: Apart(rs[i], rs[j])
  }

  predicate ApartFrom(rs: seq<Region>, r: Region) {
    forall i | 0 <= i < |rs| :: Apart(rs[i], r)
  }

  // No cell or freeblock is shorter than four bytes.
  predicate Long(rs: seq<Region>) { forall i | 0 <= i < |rs| :: rs[i].len >= 4 }

  // Freeblocks are in ascending order and at least four bytes apart.
  predicate Spaced(blocks: seq<Region>) {
    forall i, j | 0 <= i < j < |blocks| :: blocks[i].End() + 4 <= blocks[j].start
  }

  ghost predicate Clear(cells: seq<Region>, blocks: seq<Region>) {
    forall j | 0 <= j < |blocks| :: ApartFrom(cells, blocks[j])
  }

  // Cells, freeblocks and frag bytes of fragments account for every byte from top to the usable end,
  // and the content area does not begin with a freeblock.
  ghost predicate Tiling(top: nat, usable: nat, frag: nat, cells: seq<Region>, blocks: seq<Region>) {
    && top <= usable
    && Inside(cells, top, usable) && Inside(blocks, top + 1, usable)
    && Long(cells) && Long(blocks) && AllApart(cells) && Spaced(blocks) && Clear(cells, blocks)
    && Total(cells) + Total(blocks) + frag == usable - top
  }

  // ---------- totals ----------

  lemma {:induction false} SumConcat(a: seq<Region>, b: seq<Region>)
    ensures Sum(a + b) == Sum(a) + Sum(b)
  {
    if a == [] {
      assert a + b == b;
    } else {
      assert (a + b)[1..] == a[1..] + b;
      SumConcat(a[1..], b);
    }
  }

  lemma SumOne(r: Region)
    ensures Sum([r]) == r.len
  {
    assert [r][1..] == [];
  }

  lemma TotalConcat(a: seq<Region>, b: seq<Region>)
    ensures Total(a + b) == Total(a) + Total(b)
  {
    SumConcat(a, b);
  }

  lemma TotalInsert(a: seq<Region>, i: nat, r: Region)
    requires i <= |a|
    ensures Total(a[..i] + [r] + a[i..]) == Total(a) + r.len
  {
    assert a == a[..i] + a[i..];
    SumConcat(a[..i], a[i..]);
    SumConcat(a[..i], [r]);
    SumConcat(a[..i] + [r], a[i..]);
    SumOne(r);
  }

  lemma TotalRemove(a: seq<Region>, i: nat)
    requires i < |a|
    ensures Total(a[..i] + a[i + 1..]) + a[i].len == Total(a)
  {
    var b := a[..i] + a[i + 1..];
    TotalInsert(b, i, a[i]);
    assert b[..i] == a[..i] && b[i..] == a[i + 1..];
    assert a[..i] + [a[i]] + a[i + 1..] == a;
  }

  lemma TotalReplace(a: seq<Region>, lo: nat, hi: nat, mid: seq<Region>)
    requires lo <= hi <= |a|
    ensures Total(Splice(a, lo, hi, mid)) + Total(a[lo..hi]) == Total(a) + Total(mid)
  {
    assert a == a[..lo] + a[lo..hi] + a[hi..];
    SumConcat(a[..lo], a[lo..hi]);
    SumConcat(a[..lo] + a[lo..hi], a[hi..]);
    SumConcat(a[..lo], mid);
    SumConcat(a[..lo] + mid, a[hi..]);
  }

  // ---------- disjoint regions cannot exceed the room they lie in ----------

  predicate Covers(r: Region, p: nat) { r.start <= p < r.End() }

  ghost function Bytes(r: Region): set<nat> { set p: nat | p < r.End() && Covers(r, p) }

  lemma {:induction false} BytesCard(s: nat, n: nat)
    ensures |Bytes(Region(s, n))| == n
  {
    if n == 0 {
      assert Bytes(Region(s, n)) == {};
    } else {
      BytesCard(s, n - 1);
      var r, q := Region(s, n), Region(s, n - 1);
      forall p: nat ensures Covers(r, p) <==> Covers(q, p) || p == s + n - 1 {}
      assert Bytes(r) == Bytes(q) + {s + n - 1};
    }
  }

  ghost function AllBytes(rs: seq<Region>): set<nat> {
    if rs == [] then {} else Bytes(rs[0]) + AllBytes(rs[1..])
  }

  ghost predicate SomeCovers(rs: seq<Region>, p: nat) { exists i :: 0 <= i < |rs| && Covers(rs[i], p) }

  lemma {:induction false} AllBytesMember(rs: seq<Region>, p: nat)
    ensures p in AllBytes(rs) <==> SomeCovers(rs, p)
  {
    if rs != [] {
      var rest := rs[1..];
      AllBytesMember(rest, p);
      if SomeCovers(rest, p) {
        var i :| 0 <= i < |rest| && Covers(rest[i], p);
        assert Covers(rs[i + 1], p);
      }
      if SomeCovers(rs, p) {
        var i :| 0 <= i < |rs| && Covers(rs[i], p);
        if i > 0 { assert Covers(rest[i - 1], p); }
      }
    }
  }

  lemma {:induction false} AllBytesCard(rs: seq<Region>)
    requires AllApart(rs)
    ensures |AllBytes(rs)| == Sum(rs)
  {
    if rs != [] {
      var rest := rs[1..];
      forall i, j | 0 <= i < j < |rest| ensures Apart(rest[i], rest[j]) { assert Apart(rs[i + 1], rs[j + 1]); }
      AllBytesCard(rest);
      BytesCard(rs[0].start, rs[0].len);
      forall i | 0 <= i < |rest| ensures Apart(rs[0], rest[i]) { assert Apart(rs[0], rs[i + 1]); }
      forall p: nat | p in Bytes(rs[0]) ensures p !in AllBytes(rest) { AllBytesMember(rest, p); }
    }
  }

  // Disjoint regions inside [lo, hi) cover at most hi - lo bytes.
  lemma TotalFits(rs: seq<Region>, lo: nat, hi: nat)
    requires lo <= hi && Inside(rs, lo, hi) && AllApart(rs)
    ensures Total(rs) <= hi - lo
  {
    AllBytesCard(rs);
    BytesCard(lo, hi - lo);
    var room := Region(lo, hi - lo);
    forall p: nat | p in AllBytes(rs) ensures p in Bytes(room) {
      AllBytesMember(rs, p);
      assert Covers(room, p);
    }
    Sets.SubsetSize(AllBytes(rs), Bytes(room));
  }

  lemma SpacedApart(blocks: seq<Region>)
    requires Spaced(blocks)
    ensures AllApart(blocks)
  {
  }

  // Any disjoint gaps that no cell or freeblock touches are made of fragment bytes.
  lemma GapsAreFragments(top: nat, usable: nat, frag: nat, cells: seq<Region>, blocks: seq<Region>, gaps: seq<Region>)
    requires Tiling(top, usable, frag, cells, blocks)
    requires Inside(gaps, top, usable) && AllApart(gaps)
    requires forall k | 0 <= k < |gaps| :: ApartFrom(cells, gaps[k]) && ApartFrom(blocks, gaps[k])
    ensures Total(gaps) <= frag
  {
    var all := cells + blocks + gaps;
    SpacedApart(blocks);
    forall i, j | 0 <= i < j < |all| ensures Apart(all[i], all[j]) {
      if j < |cells| {
      } else if j < |cells| + |blocks| {
        if i < |cells| { assert ApartFrom(cells, blocks[j - |cells|]); }
      } else {
        var g := gaps[j - |cells| - |blocks|];
        assert ApartFrom(cells, g) && ApartFrom(blocks, g);
      }
    }
    TotalFits(all, top, usable);
    TotalConcat(cells + blocks, gaps);
    TotalConcat(cells, blocks);
  }

  // ---------- freeing a cell ----------

  // k is where a region starting at `start` belongs among the freeblocks.
  predicate Slot(blocks: seq<Region>, start: nat, k: nat) {
    && k <= |blocks|
    && (forall i | 0 <= i < k :: blocks[i].start < start)
    && (forall i | k <= i < |blocks| :: start <= blocks[i].start)
  }

  predicate JoinsNext(blocks: seq<Region>, r: Region, k: nat) { k < |blocks| && r.End() + 3 >= blocks[k].start }

  predicate JoinsPrev(blocks: seq<Region>, r: Region, k: nat) {
    0 < k <= |blocks| && blocks[k - 1].End() + 3 >= r.start
  }

  // The region r together with the freeblocks it coalesces with.
  function Joined(blocks: seq<Region>, r: Region, k: nat): Region {
    var s := if JoinsPrev(blocks, r, k) then blocks[k - 1].start else r.start;
    var e := if JoinsNext(blocks, r, k) then blocks[k].End() else r.End();
    Region(s, if e >= s then e - s else 0)
  }

  function JoinLo(blocks: seq<Region>, r: Region, k: nat): nat { if JoinsPrev(blocks, r, k) then k - 1 else k }

  function JoinHi(blocks: seq<Region>, r: Region, k: nat): nat { if JoinsNext(blocks, r, k) then k + 1 else k }

  // Fragment bytes swallowed by coalescing.
  function JoinFrag(blocks: seq<Region>, r: Region, k: nat): int {
    (if JoinsNext(blocks, r, k) then blocks[k].start - r.End() else 0) +
    (if JoinsPrev(blocks, r, k) then r.start - blocks[k - 1].End() else 0)
  }

  function Without(rs: seq<Region>, i: nat): seq<Region> requires i < |rs| { rs[..i] + rs[i + 1..] }

  lemma WithoutKeeps(cells: seq<Region>, i: nat, lo: nat, hi: nat)
    requires i < |cells| && Inside(cells, lo, hi) && Long(cells) && AllApart(cells)
    ensures Inside(Without(cells, i), lo, hi) && Long(Without(cells, i)) && AllApart(Without(cells, i))
    ensures ApartFrom(Without(cells, i), cells[i])
    ensures forall r: Region :: ApartFrom(cells, r) ==> ApartFrom(Without(cells, i), r)
  {
    var w := Without(cells, i);
    assert forall j | 0 <= j < |w| :: w[j] == if j < i then cells[j] else cells[j + 1];
  }

  // Neighbouring freeblocks lie wholly on either side of the freed cell, and what lies between is fragments.
  lemma FreeNeighbours(top: nat, usable: nat, frag: nat, cells: seq<Region>, blocks: seq<Region>, i: nat, k: nat)
    requires Tiling(top, usable, frag, cells, blocks) && i < |cells| && Slot(blocks, cells[i].start, k)
    ensures var r := cells[i];
            && (k < |blocks| ==> r.End() <= blocks[k].start)
            && (k > 0 ==> blocks[k - 1].End() <= r.start)
            && 0 <= JoinFrag(blocks, r, k) <= frag
  {
    hide Total;
    var r := cells[i];
    if k < |blocks| { assert ApartFrom(cells, blocks[k]); }
    if k > 0 { assert ApartFrom(cells, blocks[k - 1]); }
    var g1 := if JoinsNext(blocks, r, k) then Region(r.End(), blocks[k].start - r.End()) else Region(r.start, 0);
    var g2 := if JoinsPrev(blocks, r, k) then Region(blocks[k - 1].End(), r.start - blocks[k - 1].End())
        else Region(r.start, 0);
    GapApart(top, usable, frag, cells, blocks, i, k);
    GapsAreFragments(top, usable, frag, cells, blocks, [g1, g2]);
    TotalTwo(g1, g2);
  }

  lemma TotalTwo(a: Region, b: Region)
    ensures Total([a, b]) == a.len + b.len
  {
    assert [a, b] == [a] + [b];
    SumConcat([a], [b]);
    SumOne(a);
    SumOne(b);
  }

  lemma GapApart(top: nat, usable: nat, frag: nat, cells: seq<Region>, blocks: seq<Region>, i: nat, k: nat)
    requires Tiling(top, usable, frag, cells, blocks) && i < |cells| && Slot(blocks, cells[i].start, k)
    requires k < |blocks| ==> cells[i].End() <= blocks[k].start
    requires k > 0 ==> blocks[k - 1].End() <= cells[i].start
    ensures var r := cells[i];
            && (JoinsNext(blocks, r, k) ==> var g := Region(r.End(), blocks[k].start - r.End());
                 ApartFrom(cells, g) && ApartFrom(blocks, g))
            && (JoinsPrev(blocks, r, k) ==> var g := Region(blocks[k - 1].End(), r.start - blocks[k - 1].End());
                 ApartFrom(cells, g) && ApartFrom(blocks, g))
            && ApartFrom(blocks, Region(r.start, 0)) && ApartFrom(cells, Region(r.start, 0))
  {
    hide Total;
    var r := cells[i];
    assert ApartFrom(blocks, r) by {
      forall j | 0 <= j < |blocks| ensures Apart(blocks[j], r) { assert ApartFrom(cells, blocks[j]); }
    }
    if JoinsNext(blocks, r, k) {
      var g := Region(r.End(), blocks[k].start - r.End());
      assert ApartFrom(cells, blocks[k]);
      forall j | 0 <= j < |cells| ensures Apart(cells[j], g) {
        assert j != i ==> Apart(cells[j], r) || Apart(r, cells[j]);
      }
    }
    if JoinsPrev(blocks, r, k) {
      var g := Region(blocks[k - 1].End(), r.start - blocks[k - 1].End());
      assert ApartFrom(cells, blocks[k - 1]);
      forall j | 0 <= j < |cells| ensures Apart(cells[j], g) {
        assert j != i ==> Apart(cells[j], r) || Apart(r, cells[j]);
      }
    }
  }

  // Every other cell is clear of the coalesced block.
  lemma OthersClear(top: nat, usable: nat, frag: nat, cells: seq<Region>, blocks: seq<Region>, i: nat, k: nat, j: nat)
    requires Tiling(top, usable, frag, cells, blocks) && i < |cells| && Slot(blocks, cells[i].start, k)
    requires j < |cells| && j != i
    requires k < |blocks| ==> cells[i].End() <= blocks[k].start
    requires k > 0 ==> blocks[k - 1].End() <= cells[i].start
    ensures Apart(cells[j], Joined(blocks, cells[i], k))
  {
    hide Total;
    assert Apart(cells[j], cells[i]);
    if k < |blocks| { assert ApartFrom(cells, blocks[k]); assert Apart(cells[j], blocks[k]); }
    if k > 0 { assert ApartFrom(cells, blocks[k - 1]); assert Apart(cells[j], blocks[k - 1]); }
  }

  // The freeblock list after freeing.
  function FreedBlocks(top: nat, blocks: seq<Region>, r: Region, k: nat): seq<Region>
    requires k <= |blocks|
  {
    var n := Joined(blocks, r, k);
    Splice(blocks, JoinLo(blocks, r, k), JoinHi(blocks, r, k), if n.start <= top then [] else [n])
  }

  function FreedTop(top: nat, blocks: seq<Region>, r: Region, k: nat): nat {
    var n := Joined(blocks, r, k);
    if n.start <= top then n.End() else top
  }

  // blocks lo..hi-1 replaced by mid.
  function Splice(blocks: seq<Region>, lo: nat, hi: nat, mid: seq<Region>): (b: seq<Region>)
    requires lo <= hi <= |blocks|
    ensures |b| == |blocks| - (hi - lo) + |mid|
    ensures forall j | 0 <= j < |b| ::
              b[j] == if j < lo then blocks[j] else if j < lo + |mid| then mid[j - lo] else blocks[j - lo - |mid| + hi]
  {
    blocks[..lo] + mid + blocks[hi..]
  }

  // The coalesced block keeps its distance from the blocks that remain.
  lemma JoinedSpacing(top: nat, usable: nat, frag: nat, cells: seq<Region>, blocks: seq<Region>, i: nat, k: nat)
    requires Tiling(top, usable, frag, cells, blocks) && i < |cells| && Slot(blocks, cells[i].start, k)
    ensures var r := cells[i]; var n := Joined(blocks, r, k);
            && top <= n.start && n.End() <= usable && n.len >= 4
            && (n.start == top ==> JoinLo(blocks, r, k) == 0 && !JoinsPrev(blocks, r, k))
            && (forall j | 0 <= j < JoinLo(blocks, r, k) :: blocks[j].End() + 4 <= n.start)
            && (forall j | JoinHi(blocks, r, k) <= j < |blocks| :: n.End() + 4 <= blocks[j].start)
  {
    hide Total, Clear;
    FreeNeighbours(top, usable, frag, cells, blocks, i, k);
  }

  lemma FreedShape(top: nat, usable: nat, frag: nat, cells: seq<Region>, blocks: seq<Region>, i: nat, k: nat)
    requires Tiling(top, usable, frag, cells, blocks) && i < |cells| && Slot(blocks, cells[i].start, k)
    ensures var r := cells[i]; var n := Joined(blocks, r, k);
            && top <= n.start && n.End() <= usable && n.len >= 4
            && (n.start == top ==> JoinLo(blocks, r, k) == 0 && !JoinsPrev(blocks, r, k))
            && Inside(FreedBlocks(top, blocks, r, k), FreedTop(top, blocks, r, k) + 1, usable)
            && Long(FreedBlocks(top, blocks, r, k)) && Spaced(FreedBlocks(top, blocks, r, k))
  {
    JoinedSpacing(top, usable, frag, cells, blocks, i, k);
    var r := cells[i];
    var n := Joined(blocks, r, k);
    var lo, hi := JoinLo(blocks, r, k), JoinHi(blocks, r, k);
    hide Tiling, Joined, JoinLo, JoinHi, Splice;
    SpliceLong(blocks, lo, hi, n, top, usable, frag, cells);
    SpliceSpaced(blocks, lo, hi, n, top, usable, frag, cells);
  }

  lemma SpliceLong(blocks: seq<Region>, lo: nat, hi: nat, n: Region, top: nat, usable: nat, frag: nat,
                   cells: seq<Region>)
    requires Tiling(top, usable, frag, cells, blocks) && lo <= hi <= |blocks| && n.len >= 4 && n.End() <= usable
    requires n.start <= top ==> lo == 0
    requires forall j | hi <= j < |blocks| :: n.End() + 4 <= blocks[j].start
    ensures var b := Splice(blocks, lo, hi, if n.start <= top then [] else [n]);
            Long(b) && Inside(b, (if n.start <= top then n.End() else top) + 1, usable)
  {
    hide Total, Clear, Spaced, AllApart;
  }

  lemma SpliceSpaced(blocks: seq<Region>, lo: nat, hi: nat, n: Region, top: nat, usable: nat, frag: nat,
                     cells: seq<Region>)
    requires Tiling(top, usable, frag, cells, blocks) && lo <= hi <= |blocks|
    requires forall j | 0 <= j < lo :: blocks[j].End() + 4 <= n.start
    requires forall j | hi <= j < |blocks| :: n.End() + 4 <= blocks[j].start
    ensures Spaced(Splice(blocks, lo, hi, if n.start <= top then [] else [n]))
  {
    var mid := if n.start <= top then [] else [n];
    var b := Splice(blocks, lo, hi, mid);
    var m := |mid|;
    assert Spaced(blocks);
    hide Tiling, Spaced;
    forall i, j | 0 <= i < j < |b| ensures b[i].End() + 4 <= b[j].start {
      if j < lo { SpacedAt(blocks, i, j); }
      else if i >= lo + m { SpacedAt(blocks, i - lo - m + hi, j - lo - m + hi); }
      else if i < lo && j >= lo + m { SpacedAt(blocks, i, j - lo - m + hi); }
    }
    SpacedFrom(b);
  }

  lemma SpacedAt(blocks: seq<Region>, i: nat, j: nat)
    requires Spaced(blocks) && i < j < |blocks|
    ensures blocks[i].End() + 4 <= blocks[j].start
  {
  }

  lemma SpacedFrom(blocks: seq<Region>)
    requires forall i, j | 0 <= i < j < |blocks| :: blocks[i].End() + 4 <= blocks[j].start
    ensures Spaced(blocks)
  {
  }

  lemma FreedTotal(top: nat, usable: nat, frag: nat, cells: seq<Region>, blocks: seq<Region>, i: nat, k: nat)
    requires Tiling(top, usable, frag, cells, blocks) && i < |cells| && Slot(blocks, cells[i].start, k)
    ensures var r := cells[i];
            Total(FreedBlocks(top, blocks, r, k)) + FreedTop(top, blocks, r, k) ==
            Total(blocks) + top + r.len + JoinFrag(blocks, r, k)
  {
    var r := cells[i];
    FreeNeighbours(top, usable, frag, cells, blocks, i, k);
    FreedShape(top, usable, frag, cells, blocks, i, k);
    hide Tiling, Total, Spaced;
    var n := Joined(blocks, r, k);
    var lo, hi := JoinLo(blocks, r, k), JoinHi(blocks, r, k);
    var mid := if n.start <= top then [] else [n];
    TotalReplace(blocks, lo, hi, mid);
    JoinedTotal(blocks, r, k);
    TotalSmall(n);
  }

  lemma TotalSmall(n: Region)
    ensures Total([]) == 0 && Total([n]) == n.len
  {
    SumOne(n);
  }

  lemma JoinedTotal(blocks: seq<Region>, r: Region, k: nat)
    requires k <= |blocks|
    requires k < |blocks| ==> r.End() <= blocks[k].start
    requires k > 0 ==> blocks[k - 1].End() <= r.start
    ensures var n := Joined(blocks, r, k);
            n.len == r.len + JoinFrag(blocks, r, k) + Total(blocks[JoinLo(blocks, r, k)..JoinHi(blocks, r, k)])
  {
    var lo, hi := JoinLo(blocks, r, k), JoinHi(blocks, r, k);
    if hi == lo + 2 {
      assert blocks[lo..hi] == [blocks[lo], blocks[lo + 1]];
      TotalTwo(blocks[lo], blocks[lo + 1]);
    } else if hi == lo + 1 {
      assert blocks[lo..hi] == [blocks[lo]];
      SumOne(blocks[lo]);
    } else {
      assert blocks[lo..hi] == [];
    }
  }

  lemma JoinedClear(top: nat, usable: nat, frag: nat, cells: seq<Region>, blocks: seq<Region>, i: nat, k: nat)
    requires Tiling(top, usable, frag, cells, blocks) && i < |cells| && Slot(blocks, cells[i].start, k)
    ensures ApartFrom(Without(cells, i), Joined(blocks, cells[i], k))
  {
    hide Total, Spaced, Tiling, Joined;
    FreeNeighbours(top, usable, frag, cells, blocks, i, k);
    var w := Without(cells, i);
    forall j | 0 <= j < |w| ensures Apart(w[j], Joined(blocks, cells[i], k)) {
      OthersClear(top, usable, frag, cells, blocks, i, k, if j < i then j else j + 1);
    }
  }

  lemma FreedClear(top: nat, usable: nat, frag: nat, cells: seq<Region>, blocks: seq<Region>, i: nat, k: nat)
    requires Tiling(top, usable, frag, cells, blocks) && i < |cells| && Slot(blocks, cells[i].start, k)
    ensures Clear(Without(cells, i), FreedBlocks(top, blocks, cells[i], k))
    ensures Inside(Without(cells, i), FreedTop(top, blocks, cells[i], k), usable)
  {
    hide Total, Spaced;
    var r := cells[i];
    FreedShape(top, usable, frag, cells, blocks, i, k);
    WithoutKeeps(cells, i, top, usable);
    var n := Joined(blocks, r, k);
    var w := Without(cells, i);
    assert forall j | 0 <= j < |w| :: w[j] == if j < i then cells[j] else cells[j + 1];
    JoinedClear(top, usable, frag, cells, blocks, i, k);
    var b := FreedBlocks(top, blocks, r, k);
    forall j | 0 <= j < |b| ensures ApartFrom(w, b[j]) {
      if b[j] != n {
        assert b[j] in blocks;
        var l :| 0 <= l < |blocks| && blocks[l] == b[j];
        assert ApartFrom(cells, blocks[l]);
      }
    }
  }

  // Freeing a cell keeps the tiling.
  lemma FreeTiles(top: nat, usable: nat, frag: nat, cells: seq<Region>, blocks: seq<Region>, i: nat, k: nat)
    requires Tiling(top, usable, frag, cells, blocks) && i < |cells| && Slot(blocks, cells[i].start, k)
    ensures var r := cells[i];
            && 0 <= JoinFrag(blocks, r, k) <= frag
            && Tiling(FreedTop(top, blocks, r, k), usable, frag - JoinFrag(blocks, r, k),
                      Without(cells, i), FreedBlocks(top, blocks, r, k))
  {
    FreeNeighbours(top, usable, frag, cells, blocks, i, k);
    FreedShape(top, usable, frag, cells, blocks, i, k);
    FreedTotal(top, usable, frag, cells, blocks, i, k);
    FreedClear(top, usable, frag, cells, blocks, i, k);
    WithoutKeeps(cells, i, top, usable);
    TotalRemove(cells, i);
  }

  // ---------- taking space for a new cell ----------

  function InsertAt<T>(rs: seq<T>, i: nat, r: T): seq<T> requires i <= |rs| { rs[..i] + [r] + rs[i..] }

  lemma InsertKeeps(cells: seq<Region>, i: nat, r: Region, lo: nat, hi: nat)
    requires i <= |cells| && Inside(cells, lo, hi) && Long(cells) && AllApart(cells)
    requires lo <= r.start && r.End() <= hi && r.len >= 4 && ApartFrom(cells, r)
    ensures var c := InsertAt(cells, i, r); Inside(c, lo, hi) && Long(c) && AllApart(c)
    ensures Total(InsertAt(cells, i, r)) == Total(cells) + r.len
  {
    hide Total;
    var c := InsertAt(cells, i, r);
    assert forall j | 0 <= j < |c| :: c[j] == if j < i then cells[j] else if j == i then r else cells[j - 1];
    TotalInsert(cells, i, r);
  }

  lemma InsertClear(cells: seq<Region>, i: nat, r: Region, b: Region)
    requires i <= |cells| && ApartFrom(cells, b) && Apart(r, b)
    ensures ApartFrom(InsertAt(cells, i, r), b)
  {
    var c := InsertAt(cells, i, r);
    assert forall j | 0 <= j < |c| :: c[j] == if j < i then cells[j] else if j == i then r else cells[j - 1];
  }

  lemma SubRegionApart(cells: seq<Region>, b: Region, r: Region)
    requires ApartFrom(cells, b) && b.start <= r.start && r.End() <= b.End()
    ensures ApartFrom(cells, r)
  {
  }

  // A slot within three bytes of the request is used whole; the excess becomes a fragment.
  lemma WholeSlotTiles(top: nat, usable: nat, frag: nat, cells: seq<Region>, blocks: seq<Region>, j: nat, nByte: nat,
                       i: nat)
    requires Tiling(top, usable, frag, cells, blocks) && j < |blocks| && i <= |cells|
    requires 4 <= nByte <= blocks[j].len < nByte + 4
    ensures Tiling(top, usable, frag + blocks[j].len - nByte,
                   InsertAt(cells, i, Region(blocks[j].start, nByte)), Without(blocks, j))
  {
    hide Total;
    var b := blocks[j];
    var r := Region(b.start, nByte);
    assert ApartFrom(cells, b);
    SubRegionApart(cells, b, r);
    InsertKeeps(cells, i, r, top, usable);
    TotalRemove(blocks, j);
    var w := Without(blocks, j);
    assert forall l | 0 <= l < |w| :: w[l] == if l < j then blocks[l] else blocks[l + 1];
    forall l | 0 <= l < |w| ensures ApartFrom(InsertAt(cells, i, r), w[l]) {
      assert ApartFrom(cells, if l < j then blocks[l] else blocks[l + 1]);
      InsertClear(cells, i, r, w[l]);
    }
  }

  // A larger slot gives up its tail and stays on the list.
  lemma SplitSlotTiles(top: nat, usable: nat, frag: nat, cells: seq<Region>, blocks: seq<Region>, j: nat, nByte: nat,
                       i: nat)
    requires Tiling(top, usable, frag, cells, blocks) && j < |blocks| && i <= |cells|
    requires 4 <= nByte && nByte + 4 <= blocks[j].len
    ensures var x := blocks[j].len - nByte;
            Tiling(top, usable, frag, InsertAt(cells, i, Region(blocks[j].start + x, nByte)),
                   blocks[j := Region(blocks[j].start, x)])
  {
    hide Total;
    var b := blocks[j];
    var x := b.len - nByte;
    var r, rest := Region(b.start + x, nByte), Region(b.start, x);
    assert ApartFrom(cells, b);
    SubRegionApart(cells, b, r);
    SubRegionApart(cells, b, rest);
    InsertKeeps(cells, i, r, top, usable);
    var w := blocks[j := rest];
    TotalReplace(blocks, j, j + 1, [rest]);
    assert w == Splice(blocks, j, j + 1, [rest]) && blocks[j..j + 1] == [b];
    TotalSmall(rest);
    TotalSmall(b);
    forall l | 0 <= l < |w| ensures ApartFrom(InsertAt(cells, i, r), w[l]) {
      if l != j { assert ApartFrom(cells, blocks[l]); }
      InsertClear(cells, i, r, w[l]);
    }
  }

  // Space from the gap between the pointer array and the content area.
  lemma GapTiles(top: nat, usable: nat, frag: nat, cells: seq<Region>, blocks: seq<Region>, nByte: nat, i: nat)
    requires Tiling(top, usable, frag, cells, blocks) && i <= |cells| && 4 <= nByte <= top
    ensures Tiling(top - nByte, usable, frag, InsertAt(cells, i, Region(top - nByte, nByte)), blocks)
  {
    hide Total;
    var r := Region(top - nByte, nByte);
    InsertKeeps(cells, i, r, top - nByte, usable);
    forall l | 0 <= l < |blocks| ensures ApartFrom(InsertAt(cells, i, r), blocks[l]) {
      InsertClear(cells, i, r, blocks[l]);
    }
  }

  // ---------- defragmenting ----------

  lemma {:induction false} TotalPrefix(rs: seq<Region>, i: nat, j: nat)
    requires i <= j <= |rs|
    ensures Total(rs[..i]) <= Total(rs[..j])
    ensures i < |rs| ==> Total(rs[..i + 1]) == Total(rs[..i]) + rs[i].len
  {
    assert rs[..j] == rs[..i] + rs[i..j];
    SumConcat(rs[..i], rs[i..j]);
    if i < |rs| {
      assert rs[..i + 1] == rs[..i] + [rs[i]];
      SumConcat(rs[..i], [rs[i]]);
      SumOne(rs[i]);
    }
  }

  // new[] holds the cells packed against the usable end in index order.
  ghost predicate PackedDown(usable: nat, cells: seq<Region>, packed: seq<Region>) {
    |packed| == |cells| && forall i | 0 <= i < |cells| ::
      packed[i].len == cells[i].len && packed[i].start + Total(cells[..i + 1]) == usable
  }

  lemma {:induction false} SameLensSameTotal(a: seq<Region>, b: seq<Region>)
    requires |a| == |b| && forall i | 0 <= i < |a| :: a[i].len == b[i].len
    ensures Total(a) == Total(b)
  {
    if a != [] { SameLensSameTotal(a[1..], b[1..]); }
  }

  lemma PackedTiles(top: nat, usable: nat, frag: nat, cells: seq<Region>, blocks: seq<Region>, packed: seq<Region>)
    requires Tiling(top, usable, frag, cells, blocks) && PackedDown(usable, cells, packed)
    ensures top <= usable - Total(cells) && Tiling(usable - Total(cells), usable, 0, packed, [])
  {
    hide Total;
    SameLensSameTotal(cells, packed);
    TotalSmall(Region(0, 0));
    assert cells[..|cells|] == cells;
    forall i, j | 0 <= i < j < |packed| ensures Apart(packed[i], packed[j]) {
      TotalPrefix(cells, i + 1, j);
      TotalPrefix(cells, j, |cells|);
    }
    forall i | 0 <= i < |packed| ensures usable - Total(cells) <= packed[i].start && packed[i].End() <= usable {
      TotalPrefix(cells, i + 1, |cells|);
      TotalPrefix(cells, i, |cells|);
    }
  }

  // How far a cell moves when at most two freeblocks are squeezed out.
  function Shift(blocks: seq<Region>, pc: nat): nat
    requires 1 <= |blocks| <= 2
  {
    var sz2 := if |blocks| == 2 then blocks[1].len else 0;
    if pc < blocks[0].start then blocks[0].len + sz2
    else if |blocks| == 2 && pc < blocks[1].start then sz2
    else 0
  }

  ghost predicate Squeezed(cells: seq<Region>, blocks: seq<Region>, moved: seq<Region>)
    requires 1 <= |blocks| <= 2
  {
    |moved| == |cells| && forall i | 0 <= i < |cells| ::
      moved[i] == Region(cells[i].start + Shift(blocks, cells[i].start), cells[i].len)
  }

  lemma SqueezeTiles(top: nat, usable: nat, frag: nat, cells: seq<Region>, blocks: seq<Region>, moved: seq<Region>)
    requires Tiling(top, usable, frag, cells, blocks) && 1 <= |blocks| <= 2 && Squeezed(cells, blocks, moved)
    ensures top + Total(blocks) <= usable && Tiling(top + Total(blocks), usable, frag, moved, [])
  {
    SameLensSameTotal(cells, moved);
    if |blocks| == 2 { assert blocks == [blocks[0], blocks[1]]; TotalTwo(blocks[0], blocks[1]); }
    else { assert blocks == [blocks[0]]; TotalSmall(blocks[0]); }
    TotalSmall(blocks[0]);
    hide Total, Shift;
    forall i | 0 <= i < |cells| ensures top + Total(blocks) <= moved[i].start && moved[i].End() <= usable {
      SqueezeOne(top, usable, frag, cells, blocks, i);
    }
    forall i, j | 0 <= i < j < |cells| ensures Apart(moved[i], moved[j]) {
      SqueezePair(top, usable, frag, cells, blocks, i, j);
    }
  }

  lemma SqueezeOne(top: nat, usable: nat, frag: nat, cells: seq<Region>, blocks: seq<Region>, i: nat)
    requires Tiling(top, usable, frag, cells, blocks) && 1 <= |blocks| <= 2 && i < |cells|
    ensures var s := cells[i].start + Shift(blocks, cells[i].start);
            top + blocks[0].len + (if |blocks| == 2 then blocks[1].len else 0) <= s && s + cells[i].len <= usable
  {
    hide Total;
    assert ApartFrom(cells, blocks[0]);
    assert |blocks| == 2 ==> ApartFrom(cells, blocks[1]);
  }

  lemma SqueezePair(top: nat, usable: nat, frag: nat, cells: seq<Region>, blocks: seq<Region>, i: nat, j: nat)
    requires Tiling(top, usable, frag, cells, blocks) && 1 <= |blocks| <= 2 && i < j < |cells|
    ensures Apart(Region(cells[i].start + Shift(blocks, cells[i].start), cells[i].len),
                  Region(cells[j].start + Shift(blocks, cells[j].start), cells[j].len))
  {
    hide Total;
    assert Apart(cells[i], cells[j]);
    assert ApartFrom(cells, blocks[0]);
    assert |blocks| == 2 ==> ApartFrom(cells, blocks[1]);
  }
}
