/** The leaf representations of a Bitvec: a bitmap, and an open-addressed hash table of at most
    NINT - 1 values. */
module BitvecTable {
  import Sets

  const BITVEC_SZ := 512
  const USIZE := (BITVEC_SZ - 3 * 4) / 8 * 8
  const NELEM := USIZE
  const NBIT := NELEM * 8
  const NINT := USIZE / 4
  const MXHASH := NINT / 2
  const NPTR := USIZE / 8

  // ---------- bitmap ----------

  // 1 << k for k < 8.
  function Mask(k: nat): bv8
    requires k < 8
  {
    if k == 0 then 1 else if k == 1 then 2 else if k == 2 then 4 else if k == 3 then 8
    else if k == 4 then 16 else if k == 5 then 32 else if k == 6 then 64 else 128
  }

  predicate BitOn(b: bv8, k: nat)
    requires k < 8
  {
    b & Mask(k) != 0
  }

  lemma BitSet(b: bv8, j: nat, k: nat)
    requires j < 8 && k < 8
    ensures BitOn(b | Mask(k), j) <==> j == k || BitOn(b, j)
    ensures BitOn(b & !Mask(k), j) <==> j != k && BitOn(b, j)
  {
  }

  // The element that holds bit i, counted from 1, and its place there.
  function Elem(i: nat): (e: nat)
    requires i >= 1
    ensures i <= NBIT ==> e < NELEM
  {
    (i - 1) / 8
  }

  function Place(i: nat): (k: nat)
    requires i >= 1
    ensures k < 8
  {
    (i - 1) % 8
  }

  lemma PlacesDiffer(i: nat, j: nat)
    requires i >= 1 && j >= 1 && i != j
    ensures Elem(i) != Elem(j) || Place(i) != Place(j)
  {
  }

  predicate BitAt(m: seq<bv8>, i: nat)
    requires |m| == NELEM && 1 <= i <= NBIT
  {
    BitOn(m[Elem(i)], Place(i))
  }

  // The bitmap holds exactly the numbers in bits.
  ghost predicate BitmapOk(m: seq<bv8>, bits: set<nat>) {
    |m| == NELEM && (forall i | i in bits :: 1 <= i <= NBIT) && forall i | 1 <= i <= NBIT :: BitAt(m, i) <==> i in bits
  }

  function SetBit(m: seq<bv8>, i: nat): (r: seq<bv8>)
    requires |m| == NELEM && 1 <= i <= NBIT
    ensures |r| == NELEM
  {
    m[Elem(i) := m[Elem(i)] | Mask(Place(i))]
  }

  function ClearBit(m: seq<bv8>, i: nat): (r: seq<bv8>)
    requires |m| == NELEM && 1 <= i <= NBIT
    ensures |r| == NELEM
  {
    m[Elem(i) := m[Elem(i)] & !Mask(Place(i))]
  }

  lemma BitAfter(m: seq<bv8>, i: nat, j: nat)
    requires |m| == NELEM && 1 <= i <= NBIT && 1 <= j <= NBIT
    ensures BitAt(SetBit(m, i), j) <==> j == i || BitAt(m, j)
    ensures BitAt(ClearBit(m, i), j) <==> j != i && BitAt(m, j)
  {
    hide Mask, BitOn, Elem, Place, SetBit, ClearBit;
    PlacesFit(i);
    PlacesFit(j);
    if i != j { PlacesDiffer(i, j); }
    BitSet(m[Elem(i)], Place(j), Place(i));
    ElemAfter(m, i, j);
  }

  lemma PlacesFit(i: nat)
    requires 1 <= i <= NBIT
    ensures Elem(i) < NELEM && Place(i) < 8
  {
  }

  lemma ElemAfter(m: seq<bv8>, i: nat, j: nat)
    requires |m| == NELEM && 1 <= i <= NBIT && 1 <= j <= NBIT
    ensures SetBit(m, i)[Elem(j)] == if Elem(j) == Elem(i) then m[Elem(i)] | Mask(Place(i)) else m[Elem(j)]
    ensures ClearBit(m, i)[Elem(j)] == if Elem(j) == Elem(i) then m[Elem(i)] & !Mask(Place(i)) else m[Elem(j)]
  {
    hide Mask, Elem, Place;
    PlacesFit(i);
    PlacesFit(j);
  }

  lemma BitmapSet(m: seq<bv8>, bits: set<nat>, i: nat)
    requires BitmapOk(m, bits) && 1 <= i <= NBIT
    ensures BitmapOk(SetBit(m, i), bits + {i}) && BitmapOk(ClearBit(m, i), bits - {i})
  {
    forall j | 1 <= j <= NBIT
      ensures BitAt(SetBit(m, i), j) <==> j in bits + {i}
      ensures BitAt(ClearBit(m, i), j) <==> j in bits - {i}
    {
      BitAfter(m, i, j);
      assert BitAt(m, j) <==> j in bits;
    }
  }

  // ---------- hash table ----------

  function Home(v: nat): nat
    requires v >= 1
  {
    (v - 1) % NINT
  }

  // The slot d steps after start, going round.
  function Slot(start: nat, d: nat): (h: nat)
    requires start < NINT && d <= NINT
    ensures h < NINT
  {
    if start + d < NINT then start + d else start + d - NINT
  }

  // How many steps lead from start to h.
  function Steps(start: nat, h: nat): nat
    requires start < NINT && h < NINT
  {
    if h >= start then h - start else h - start + NINT
  }

  lemma StepsSlot(start: nat, h: nat)
    requires start < NINT && h < NINT
    ensures Steps(start, h) < NINT && Slot(start, Steps(start, h)) == h
    ensures forall d | 0 <= d < NINT && Slot(start, d) == h :: d == Steps(start, h)
  {
  }

  // The d slots from start on are taken.
  ghost predicate Run(a: seq<nat>, start: nat, d: nat)
    requires |a| == NINT && start < NINT && d <= NINT
  {
    forall x | 0 <= x < d :: a[Slot(start, x)] != 0
  }

  /** The table holds exactly the numbers in bits, each once, and no empty slot between its home and its place. */
  ghost predicate HashOk(a: seq<nat>, bits: set<nat>) {
    && |a| == NINT
    && (forall h | 0 <= h < NINT && a[h] != 0 :: a[h] in bits && Run(a, Home(a[h]), Steps(Home(a[h]), h)))
    && (forall v | v in bits :: v >= 1 && exists h :: 0 <= h < NINT && a[h] == v)
    && (forall h, g | 0 <= h < g < NINT && a[h] != 0 :: a[h] != a[g])
  }

  lemma {:induction false} ValuesCount(a: seq<nat>, n: nat)
    requires n <= |a| && forall h, g | 0 <= h < g < n :: a[h] != a[g]
    ensures |set h | 0 <= h < n :: a[h]| == n
  {
    var s := set h | 0 <= h < n :: a[h];
    if n == 0 {
      assert s == {};
    } else {
      ValuesCount(a, n - 1);
      var s' := set h | 0 <= h < n - 1 :: a[h];
      assert s == s' + {a[n - 1]};
    }
  }

  /** Fewer than NINT values leave an empty slot, so every probe ends. */
  lemma EmptySlot(a: seq<nat>, bits: set<nat>) returns (e: nat)
    requires HashOk(a, bits) && |bits| < NINT
    ensures e < NINT && a[e] == 0
  {
    if forall h | 0 <= h < NINT :: a[h] != 0 {
      ValuesCount(a, NINT);
      var s := set h | 0 <= h < NINT :: a[h];
      assert s <= bits;
      Sets.SubsetSize(s, bits);
    }
    e :| 0 <= e < NINT && a[e] == 0;
  }

  // A run cannot cover an empty slot.
  lemma RunShort(a: seq<nat>, start: nat, d: nat, e: nat)
    requires |a| == NINT && start < NINT && d <= NINT && e < NINT && a[e] == 0 && Run(a, start, d)
    ensures d <= Steps(start, e)
  {
    StepsSlot(start, e);
  }

  // An empty slot ends the search: what has not been met on the way from its home is not in the table.
  lemma NotFound(a: seq<nat>, bits: set<nat>, v: nat, d: nat)
    requires HashOk(a, bits) && v >= 1 && d < NINT && a[Slot(Home(v), d)] == 0
    requires forall x | 0 <= x < d :: a[Slot(Home(v), x)] != v
    ensures v !in bits
  {
    if v in bits {
      var h :| 0 <= h < NINT && a[h] == v;
      StepsSlot(Home(v), h);
    }
  }

  /** Storing a new value at the first empty slot from its home. */
  lemma Stored(a: seq<nat>, bits: set<nat>, v: nat, d: nat)
    requires HashOk(a, bits) && v >= 1 && v !in bits && d < NINT && a[Slot(Home(v), d)] == 0 && Run(a, Home(v), d)
    ensures HashOk(a[Slot(Home(v), d) := v], bits + {v})
  {
    var h := Slot(Home(v), d);
    var b := a[h := v];
    StepsSlot(Home(v), h);
    forall g | 0 <= g < NINT && b[g] != 0 ensures b[g] in bits + {v} && Run(b, Home(b[g]), Steps(Home(b[g]), g)) {
      if g != h { assert Run(a, Home(a[g]), Steps(Home(a[g]), g)); }
    }
    forall w | w in bits + {v} ensures w >= 1 && exists g :: 0 <= g < NINT && b[g] == w {
      if w == v {
        assert b[h] == v;
      } else {
        var g :| 0 <= g < NINT && a[g] == w;
        assert b[g] == w;
      }
    }
  }

  lemma EmptyTable(a: seq<nat>)
    requires |a| == NINT && forall h | 0 <= h < NINT :: a[h] == 0
    ensures HashOk(a, {})
  {
  }

  // d slots from the home of v have been passed, all taken and none by v, and h comes next.
  ghost predicate Searched(a: seq<nat>, v: nat, d: nat, h: nat) {
    && |a| == NINT && v >= 1 && d < NINT && h == Slot(Home(v), d) && Run(a, Home(v), d)
    && forall x | 0 <= x < d :: a[Slot(Home(v), x)] != v
  }

  lemma SearchStart(a: seq<nat>, v: nat)
    requires |a| == NINT && v >= 1
    ensures Searched(a, v, 0, Home(v))
  {
  }

  lemma SearchStep(a: seq<nat>, v: nat, d: nat, h: nat, e: nat)
    requires Searched(a, v, d, h) && h < NINT && a[h] != 0 && a[h] != v && e < NINT && a[e] == 0
    ensures Searched(a, v, d + 1, if h + 1 < NINT then h + 1 else 0)
  {
    RunShort(a, Home(v), d + 1, e);
    StepsSlot(Home(v), e);
  }

  lemma SearchEnd(a: seq<nat>, bits: set<nat>, v: nat, d: nat, h: nat)
    requires HashOk(a, bits) && Searched(a, v, d, h) && h < NINT && a[h] == 0
    ensures v !in bits && HashOk(a[h := v], bits + {v})
  {
    hide HashOk, Run, Slot;
    NotFound(a, bits, v, d);
    Stored(a, bits, v, d);
  }

  lemma Listed(a: seq<nat>, bits: set<nat>, h: nat)
    requires HashOk(a, bits) && h < NINT && a[h] != 0
    ensures a[h] in bits
  {
  }
}
