/** Which pages of an auto-vacuum database are pointer-map pages, and how many
    ordinary pages are left after vacuuming (section 1.8 of the SQLite Database File Format). */
module PtrMap {

  // Usable page size and the page holding the pending byte.
  datatype Layout = Layout(usable: nat, pending: nat) {
    predicate Ok() { 5 <= usable && 1 < pending }
    // Entries on one pointer-map page.
    function Entries(): nat { usable / 5 }
    // A pointer-map page and the pages it describes.
    function Group(): (n: nat) ensures n >= 1 { usable / 5 + 1 }
  }

  // What a pointer-map entry says of its page.
  datatype PageType = ROOTPAGE | FREEPAGE | OVERFLOW1 | OVERFLOW2 | BTREE

  datatype Entry = Entry(kind: PageType, parent: nat)

  /** ptrmapPageno: the pointer-map page with the entry for p; zero for page 1. */
  function PageNo(l: Layout, p: nat): nat {
    if p < 2 then 0
    else
      var ret := (p - 2) / l.Group() * l.Group() + 2;
      if ret == l.pending then ret + 1 else ret
  }

  predicate IsMap(l: Layout, p: nat) { PageNo(l, p) == p && p != 0 }

  // Pages that can hold b-tree, overflow or freelist content.
  predicate Ordinary(l: Layout, p: nat) { p >= 1 && !IsMap(l, p) && p != l.pending }

  /** The number of ordinary pages among 1..n. */
  function Count(l: Layout, n: nat): nat {
    if n == 0 then 0 else Count(l, n - 1) + if Ordinary(l, n) then 1 else 0
  }

  // ---------- arithmetic of groups ----------

  // Number of the group that page p falls in, and its place there; page 1 counts as the end of group -1.
  function GroupOf(l: Layout, p: int): int { (p - 2) / l.Group() }

  function Place(l: Layout, p: int): int { (p - 2) % l.Group() }

  lemma Decompose(l: Layout, p: int)
    requires l.Ok()
    ensures p == GroupOf(l, p) * l.Group() + Place(l, p) + 2 && 0 <= Place(l, p) < l.Group()
  {
  }

  lemma DivUnique(x: int, n: int, q: int, r: int)
    requires n > 0 && x == q * n + r && 0 <= r < n
    ensures x / n == q && x % n == r
  {
    var q', r' := x / n, x % n;
    assert x == q' * n + r';
    assert (q - q') * n == r' - r;
    if q > q' {
      MulAtLeast(q - q', n);
    } else if q < q' {
      MulAtLeast(q' - q, n);
    }
  }

  lemma MulAtLeast(a: int, n: int)
    requires a >= 1 && n >= 0
    ensures a * n >= n
  {
    assert a * n == (a - 1) * n + n;
  }

  lemma Recompose(l: Layout, p: int, k: int, r: int)
    requires l.Ok() && p == k * l.Group() + r + 2 && 0 <= r < l.Group()
    ensures GroupOf(l, p) == k && Place(l, p) == r
  {
    DivUnique(p - 2, l.Group(), k, r);
  }

  // Going one page further stays in the group or begins the next one.
  lemma NextPlace(l: Layout, p: int)
    requires l.Ok()
    ensures Place(l, p) + 1 < l.Group() ==> GroupOf(l, p + 1) == GroupOf(l, p) && Place(l, p + 1) == Place(l, p) + 1
    ensures Place(l, p) + 1 == l.Group() ==> GroupOf(l, p + 1) == GroupOf(l, p) + 1 && Place(l, p + 1) == 0
  {
    Decompose(l, p);
    if Place(l, p) + 1 < l.Group() {
      Recompose(l, p + 1, GroupOf(l, p), Place(l, p) + 1);
    } else {
      assert (GroupOf(l, p) + 1) * l.Group() == GroupOf(l, p) * l.Group() + l.Group();
      Recompose(l, p + 1, GroupOf(l, p) + 1, 0);
    }
  }

  // The pointer-map page of a group is its first page, or the second when the first is the pending page.
  lemma MapPlace(l: Layout, p: nat)
    requires l.Ok() && p >= 2
    ensures PageNo(l, p) == p - Place(l, p) + if p - Place(l, p) == l.pending then 1 else 0
    ensures IsMap(l, p) <==> (Place(l, p) == 0 && p != l.pending) || (Place(l, p) == 1 && p - 1 == l.pending)
  {
    hide GroupOf, Place;
    Decompose(l, p);
    assert (p - 2) / l.Group() == GroupOf(l, p) by { PlaceIs(l, p); }
  }

  lemma PlaceIs(l: Layout, p: int)
    ensures GroupOf(l, p) == (p - 2) / l.Group() && Place(l, p) == (p - 2) % l.Group()
  {
  }

  // The page has an entry of its own in the pointer map.
  predicate HasEntry(l: Layout, p: nat) { p >= 2 && PageNo(l, p) < p }

  function Offset(l: Layout, p: nat): int { 5 * (p - PageNo(l, p) - 1) }

  /** Every ordinary page beyond the first has five bytes on its pointer-map page. */
  lemma EntryInPage(l: Layout, p: nat)
    requires l.Ok() && p >= 2
    ensures Ordinary(l, p) ==> HasEntry(l, p)
    ensures HasEntry(l, p) <==> Offset(l, p) >= 0
    ensures Offset(l, p) <= l.usable - 5 && IsMap(l, PageNo(l, p))
  {
    hide GroupOf, Place;
    MapPlace(l, p);
    Decompose(l, p);
    var m := PageNo(l, p);
    assert m == p - Place(l, p) || m == p - Place(l, p) + 1;
    if p - Place(l, p) == l.pending {
      Recompose(l, m, GroupOf(l, p), 1);
    } else {
      Recompose(l, m, GroupOf(l, p), 0);
    }
    MapPlace(l, m);
  }

  /** Pointer-map pages are usable/5 + 1 pages apart, from page 2 on, each but for the pending page, whose place the
      next page takes; the entries of the pages after one follow each other in five-byte slots from its start. */
  lemma EntryAt(l: Layout, p: nat)
    requires l.Ok() && p >= 2
    ensures var i := (p - 2) % (l.usable / 5 + 1);
            var m := if p - i == l.pending then p - i + 1 else p - i;
            && (IsMap(l, p) <==> p == m && p != l.pending) && (HasEntry(l, p) <==> m < p)
            && (m < p ==> PageNo(l, p) == m && Offset(l, p) == 5 * (p - m - 1))
  {
    hide GroupOf, Place;
    PlaceIs(l, p);
    MapPlace(l, p);
  }

  // ---------- extending the file ----------

  // A page the b-tree layer may hand out.
  predicate Grantable(l: Layout, autoVacuum: bool, p: nat) { p >= 1 && p != l.pending && !(autoVacuum && IsMap(l, p)) }

  lemma NoTwoMaps(l: Layout, p: nat)
    requires l.Ok() && l.usable >= 10 && IsMap(l, p)
    ensures !IsMap(l, p + 1) && (p + 1 == l.pending ==> !IsMap(l, p + 2))
  {
    hide GroupOf, Place;
    assert p >= 2;
    MapPlace(l, p);
    MapPlace(l, p + 1);
    MapPlace(l, p + 2);
    NextPlace(l, p);
    NextPlace(l, p + 1);
    Decompose(l, p);
  }

  function AfterPending(l: Layout, p: nat): nat { if p == l.pending then p + 1 else p }

  // The page the file of n pages grows to.
  function NextPage(l: Layout, auto: bool, n: nat): nat {
    var p := AfterPending(l, n + 1);
    if auto && IsMap(l, p) then AfterPending(l, p + 1) else p
  }

  lemma NextPageIs(l: Layout, auto: bool, n: nat)
    requires l.Ok() && l.usable >= 10
    ensures var p := NextPage(l, auto, n); n < p <= n + 3 && Grantable(l, auto, p) && forall q | n < q < p ::
              !Grantable(l, auto, q)
  {
    hide PageNo;
    var p := AfterPending(l, n + 1);
    if IsMap(l, p) { NoTwoMaps(l, p); }
  }

  // ---------- counting ----------

  // Pages 1..n that are not the first of their group.
  function Plain(l: Layout, n: int): int { n - (GroupOf(l, n) + 1) }

  /** The count in closed form: the pending page is one less, unless it took the place of a pointer-map page
      that now comes after it. */
  lemma {:induction false} CountIs(l: Layout, n: nat)
    requires l.Ok() && n >= 1
    ensures Count(l, n) == Plain(l, n) - (if l.pending <= n && !(n == l.pending && Place(l, n) == 0) then 1 else 0)
  {
    hide GroupOf, Place;
    if n == 1 {
      Recompose(l, 1, -1, l.Group() - 1);
      assert Count(l, 0) == 0;
    } else {
      CountIs(l, n - 1);
      NextPlace(l, n - 1);
      Decompose(l, n - 1);
      MapPlace(l, n);
    }
  }

  lemma {:induction false} CountMonotone(l: Layout, m: nat, n: nat)
    requires m <= n
    ensures Count(l, m) <= Count(l, n)
    decreases n
  {
    if m < n { CountMonotone(l, m, n - 1); }
  }

  lemma CountStrict(l: Layout, m: nat, n: nat)
    requires m < n && Ordinary(l, n)
    ensures Count(l, m) < Count(l, n)
  {
    CountMonotone(l, m, n - 1);
  }

  /** An ordinary page is determined by how many ordinary pages there are up to it. */
  lemma CountUnique(l: Layout, m: nat, n: nat)
    requires Ordinary(l, m) && Ordinary(l, n) && Count(l, m) == Count(l, n)
    ensures m == n
  {
    if m < n {
      CountStrict(l, m, n);
    } else if n < m {
      CountStrict(l, n, m);
    }
  }

  // ---------- finalDbSize ----------

  lemma GroupsOrdered(l: Layout, x: int, y: int)
    requires l.Ok() && GroupOf(l, x) < GroupOf(l, y)
    ensures x < y
  {
    hide GroupOf, Place;
    Decompose(l, x);
    Decompose(l, y);
    var k := GroupOf(l, y) - GroupOf(l, x);
    MulAtLeast(k, l.Group());
    assert GroupOf(l, y) * l.Group() == GroupOf(l, x) * l.Group() + k * l.Group();
  }

  lemma PlainPositive(l: Layout, x: int)
    requires l.Ok() && Plain(l, x) >= 1
    ensures x >= 1
  {
    hide GroupOf, Place;
    Decompose(l, x);
    var q, n := GroupOf(l, x), l.Group();
    if x <= 0 {
      assert (q + 1) * n == q * n + n;
      assert q + 1 <= -1;
      MulAtLeast(n - 1, -(q + 1));
    }
  }

  lemma PlainBefore(l: Layout, x: int)
    requires l.Ok()
    ensures Plain(l, x - 1) == if Place(l, x) == 0 then Plain(l, x) else Plain(l, x) - 1
  {
    hide GroupOf, Place;
    NextPlace(l, x - 1);
    Decompose(l, x - 1);
  }

  // Where to start looking for the last page after removing free ordinary pages below orig.
  function Landing(l: Layout, orig: nat, free: nat): int
    requires l.Ok()
  {
    var maps := (free - orig + PageNo(l, orig) + l.Entries()) / l.Entries();
    orig - free - maps
  }

  function Adjusted(l: Layout, orig: nat, x: int): int {
    if orig > l.pending && x < l.pending then x - 1 else x
  }

  // One pointer-map page and e entries for each of maps groups.
  lemma StepDown(g: int, n: int, e: int, maps: int)
    requires n == e + 1
    ensures g * n - maps - e * maps == (g - maps) * n
  {
    assert (g - maps) * n == g * n - maps * n;
    assert maps * n == maps * e + maps;
  }

  lemma EnoughMaps(e: int, maps: int, d: int, f: int)
    requires 0 < e && d <= e && 0 <= f && 1 <= e * maps + d - f
    ensures maps >= 0
  {
    if maps < 0 { MulAtLeast(-maps, e); }
  }

  // How far below orig the landing is, in groups and places.
  lemma LandingPlace(l: Layout, orig: nat, free: nat) returns (maps: int, r: int)
    requires l.Ok() && orig >= 2
    ensures maps == orig - free - Landing(l, orig, free) && maps >= 0
    ensures r == l.Entries() * maps + (orig - PageNo(l, orig)) - free && 1 <= r <= l.Entries()
    ensures Landing(l, orig, free) == (GroupOf(l, orig) - maps) * l.Group() + 2 + r
            + PageNo(l, orig) - (orig - Place(l, orig))
  {
    hide GroupOf, Place, PageNo;
    var e, d := l.Entries(), orig - PageNo(l, orig);
    maps := (free - d + e) / e;
    r := e * maps + d - free;
    Quotient(free - d + e, e);
    Decompose(l, orig);
    MapPlace(l, orig);
    EnoughMaps(e, maps, d, free);
    StepDown(GroupOf(l, orig), l.Group(), e, maps);
  }

  lemma Quotient(a: int, n: int)
    requires n > 0
    ensures n * (a / n) <= a < n * (a / n) + n
  {
  }

  lemma CountLanding(l: Layout, orig: nat, free: nat)
    requires l.Ok() && orig >= 2 && Ordinary(l, orig) && free < Count(l, orig)
    ensures var x := Adjusted(l, orig, Landing(l, orig, free)); x >= 1 && Count(l, x) == Count(l, orig) - free
  {
    hide GroupOf, Place, Landing, Count, PageNo;
    var maps, r := LandingPlace(l, orig, free);
    var x, g := Landing(l, orig, free), GroupOf(l, orig);
    MapPlace(l, orig);
    Decompose(l, orig);
    CountIs(l, orig);
    if orig - Place(l, orig) != l.pending {
      Recompose(l, x, g - maps, r);
      LandsPlain(l, orig, free, x);
    } else {
      assert Place(l, orig) != 0 && Place(l, orig) != 1;
      LandsShifted(l, orig, free, x, maps, r);
    }
  }

  // The pointer-map page of orig's group is where it should be.
  lemma LandsPlain(l: Layout, orig: nat, free: nat, x: int)
    requires l.Ok() && orig >= 2 && orig != l.pending && free < Count(l, orig) && x <= orig
    requires Plain(l, x) == Plain(l, orig) - free && Place(l, x) != 0
    ensures var y := Adjusted(l, orig, x); y >= 1 && Count(l, y) == Count(l, orig) - free
  {
    hide GroupOf, Place, Count;
    CountIs(l, orig);
    PlainBefore(l, x);
    var y := Adjusted(l, orig, x);
    PlainPositive(l, y);
    CountIs(l, y);
  }

  lemma ShiftedPlace(l: Layout, x: int, k: int, r: int)
    requires l.Ok() && x == k * l.Group() + 3 + r && 1 <= r <= l.Entries()
    ensures if r < l.Entries() then GroupOf(l, x) == k && Place(l, x) == r + 1
            else GroupOf(l, x) == k + 1 && Place(l, x) == 0
  {
    hide GroupOf, Place;
    if r < l.Entries() {
      Recompose(l, x, k, r + 1);
    } else {
      assert (k + 1) * l.Group() == k * l.Group() + l.Group();
      Recompose(l, x, k + 1, 0);
    }
  }

  // The pending page begins orig's group and the pointer-map page follows it.
  lemma LandsShifted(l: Layout, orig: nat, free: nat, x: int, maps: int, r: int)
    requires l.Ok() && orig > l.pending + 1 && free < Count(l, orig) && orig - Place(l, orig) == l.pending
    requires x == orig - free - maps && r == l.Entries() * maps + (orig - l.pending - 1) - free && 1 <= r <= l.Entries()
    requires x == (GroupOf(l, orig) - maps) * l.Group() + 3 + r
    ensures var y := Adjusted(l, orig, x); y >= 1 && Count(l, y) == Count(l, orig) - free
  {
    hide GroupOf, Place, Count;
    var g, y := GroupOf(l, orig), Adjusted(l, orig, x);
    Decompose(l, orig);
    CountIs(l, orig);
    Recompose(l, l.pending, g, 0);
    PlainBefore(l, x);
    ShiftedPlace(l, x, g - maps, r);
    Decompose(l, x);
    if GroupOf(l, x) < g { GroupsOrdered(l, x, l.pending); }
    PlainPositive(l, y);
    CountIs(l, y);
  }

  /** finalDbSize: the one ordinary page that has free fewer ordinary pages up to it than orig. */
  method FinalDbSize(l: Layout, orig: nat, free: nat) returns (fin: nat)
    requires l.Ok() && Ordinary(l, orig) && free < Count(l, orig)
    ensures Ordinary(l, fin) && Count(l, fin) == Count(l, orig) - free
    ensures forall p: nat | Ordinary(l, p) && Count(l, p) == Count(l, orig) - free :: p == fin
  {
    var entries := l.usable / 5;
    var maps := (free - orig + PageNo(l, orig) + entries) / entries;
    var x := orig - free - maps;
    if orig == 1 { OnePage(l, free, maps); } else { CountLanding(l, orig, free); }
    if orig > l.pending && x < l.pending {
      x := x - 1;
    }
    while IsMap(l, x) || x == l.pending
      invariant x >= 1 && Count(l, x) == Count(l, orig) - free
      decreases x
    {
      x := x - 1;
    }
    fin := x;
    forall p: nat | Ordinary(l, p) && Count(l, p) == Count(l, orig) - free ensures p == fin { CountUnique(l, p, fin); }
  }

  lemma OnePage(l: Layout, free: nat, maps: int)
    requires l.Ok() && free < Count(l, 1) && maps == (free - 1 + l.Entries()) / l.Entries()
    ensures free == 0 && maps == 0
  {
    assert Count(l, 1) == Count(l, 0) + 1;
    Quotient(l.Entries() - 1, l.Entries());
  }
}
