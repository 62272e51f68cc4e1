/** Bitvec: a set of numbers in 1..iSize with three representations, chosen by size and population. */
module Bitvec {
  import Sets
  import opened BitvecTable

  // Numbers handled by each child of a node of the given size.
  function Divisor(iSize: nat): nat {
    var d := iSize / NPTR + if iSize % NPTR != 0 then 1 else 0;
    if d < NBIT then NBIT else d
  }

  /** Children are strictly smaller than their parent and together cover it. */
  lemma DivisorFits(iSize: nat)
    requires iSize > NBIT
    ensures 0 < Divisor(iSize) < iSize && iSize <= NPTR * Divisor(iSize)
  {
  }

  // The child that i, counted from 1, goes to, and its number there.
  function Bin(i: nat, div: nat): nat
    requires i >= 1 && div > 0
  {
    (i - 1) / div
  }

  function Off(i: nat, div: nat): (r: nat)
    requires i >= 1 && div > 0
    ensures 1 <= r <= div
  {
    (i - 1) % div + 1
  }

  lemma BinOff(i: nat, j: nat, div: nat)
    requires i >= 1 && j >= 1 && div > 0 && Bin(i, div) == Bin(j, div) && Off(i, div) == Off(j, div)
    ensures i == j
  {
  }

  lemma BinIs(i: nat, div: nat)
    requires div > 0
    ensures Bin(i + 1, div) == i / div && Off(i + 1, div) == i % div + 1
  {
  }

  lemma BinBelow(i: nat, iSize: nat)
    requires iSize > NBIT && 1 <= i <= iSize
    ensures Divisor(iSize) > 0 && Bin(i, Divisor(iSize)) < NPTR
  {
    DivisorFits(iSize);
    hide Divisor;
    var d := Divisor(iSize);
    Quotient(i - 1, d, NPTR);
  }

  lemma Quotient(x: nat, d: nat, n: nat)
    requires d > 0 && x < n * d
    ensures x / d < n
  {
  }

  // The number i is in bits exactly if its child holds its offset.
  ghost predicate Spread(iSize: nat, div: nat, bits: set<nat>, kids: seq<set<nat>>) {
    div > 0 && forall i | 1 <= i <= iSize :: Bin(i, div) < |kids| && (i in bits <==> Off(i, div) in kids[Bin(i, div)])
  }

  lemma SpreadSet(iSize: nat, div: nat, bits: set<nat>, kids: seq<set<nat>>, n: nat)
    requires Spread(iSize, div, bits, kids) && 1 <= n <= iSize
    ensures Bin(n, div) < |kids|
    ensures Spread(iSize, div, bits + {n}, kids[Bin(n, div) := kids[Bin(n, div)] + {Off(n, div)}])
    ensures Spread(iSize, div, bits - {n}, kids[Bin(n, div) := kids[Bin(n, div)] - {Off(n, div)}])
  {
    forall i | 1 <= i <= iSize && i != n && Bin(i, div) == Bin(n, div) ensures Off(i, div) != Off(n, div) {
      if Off(i, div) == Off(n, div) { BinOff(i, n, div); }
    }
    hide Bin, Off;
  }

  lemma SpreadNone(iSize: nat, div: nat, kids: seq<set<nat>>)
    requires iSize > NBIT && div == Divisor(iSize) && |kids| == NPTR && forall k | 0 <= k < NPTR :: kids[k] == {}
    ensures Spread(iSize, div, {}, kids)
  {
    DivisorFits(iSize);
    forall i | 1 <= i <= iSize ensures Bin(i, div) < NPTR { BinBelow(i, iSize); }
  }

  class Node {
    const iSize: nat
    var nSet: nat
    var iDivisor: nat
    // The members of the union; which one is in use depends on iSize and iDivisor.
    var aBitmap: seq<bv8>
    var aHash: seq<nat>
    var apSub: seq<Node?>
    ghost var Repr: set<Node>
    ghost var Bits: set<nat>

    ghost predicate Valid()
      reads this, Repr
      decreases iSize
    {
      && this in Repr && (forall i | i in Bits :: 1 <= i <= iSize)
      && if iSize <= NBIT then iDivisor == 0 && BitmapOk(aBitmap, Bits)
         else if iDivisor == 0 then HashOk(aHash, Bits) && nSet == |Bits| < NINT
         else
           && iDivisor == Divisor(iSize) && 0 < iDivisor < iSize && |apSub| == NPTR && Separate()
           && Spread(iSize, iDivisor, Bits, Kids())
           && forall k | 0 <= k < NPTR && apSub[k] != null :: apSub[k].Valid()
    }

    // The children have the right size and share nothing.
    ghost predicate Separate()
      requires |apSub| == NPTR
      reads this, Repr
    {
      && (forall k | 0 <= k < NPTR && apSub[k] != null ::
            apSub[k] in Repr && apSub[k].Repr <= Repr && this !in apSub[k].Repr && apSub[k].iSize == iDivisor)
      && (forall j, k | 0 <= j < k < NPTR && apSub[j] != null && apSub[k] != null ::
            apSub[j] in Repr && apSub[k] in Repr && apSub[j].Repr !! apSub[k].Repr)
    }

    // What each child holds.
    ghost function Kids(): (s: seq<set<nat>>)
      requires |apSub| == NPTR
      reads this, Repr
      ensures |s| == NPTR && forall k | 0 <= k < NPTR :: s[k] == Held(apSub[k])
    {
      var a := apSub;
      seq(NPTR, k requires 0 <= k < NPTR reads this, Repr => Held(a[k]))
    }

    ghost function Held(c: Node?): set<nat>
      reads this, Repr
    {
      if c != null && c in Repr then c.Bits else {}
    }

    /** sqlite3BitvecCreate */
    constructor (iSize: nat)
      ensures Valid() && Bits == {} && this.iSize == iSize && fresh(Repr)
    {
      this.iSize, nSet, iDivisor := iSize, 0, 0;
      aBitmap, aHash, apSub := seq(NELEM, _ => 0), seq(NINT, _ => 0), seq(NPTR, _ => null);
      Repr, Bits := {this}, {};
      new;
      EmptyBitmap(aBitmap);
      EmptyTable(aHash);
    }

    /** sqlite3BitvecTestNotNull */
    method Test(n: nat) returns (r: bool)
      requires Valid()
      ensures r <==> n in Bits
    {
      hide HashOk, BitmapOk, Divisor, Separate, Spread, Mask, Bin, Off;
      if n == 0 || n - 1 >= iSize { return false; }
      var p: Node, i := this, n - 1;
      while p.iDivisor != 0
        invariant p.Valid() && 0 <= i < p.iSize && (n in Bits <==> i + 1 in p.Bits)
        decreases p.iSize
      {
        p.ChildHas(i + 1);
        BinIs(i, p.iDivisor);
        var bin := i / p.iDivisor;
        i := i % p.iDivisor;
        var q := p.apSub[bin];
        if q == null { return false; }
        p := q;
      }
      if p.iSize <= NBIT {
        p.BitHas(i);
        return p.aBitmap[i / 8] & Mask(i % 8) != 0;
      } else {
        var h;
        r, h := p.Probe(i + 1);
      }
    }

    lemma BitHas(i: nat)
      requires Valid() && iSize <= NBIT && i < iSize
      ensures |aBitmap| == NELEM && i / 8 < NELEM && (aBitmap[i / 8] & Mask(i % 8) != 0 <==> i + 1 in Bits)
    {
      assert BitAt(aBitmap, i + 1) <==> i + 1 in Bits;
    }

    // Look for v in the hash table: where it is, or the first empty slot from its home.
    method Probe(v: nat) returns (found: bool, h: nat)
      requires HashOk(aHash, Bits) && |Bits| < NINT && v >= 1
      ensures h < NINT == |aHash| && (found <==> v in Bits)
      ensures !found ==> aHash[h] == 0 && HashOk(aHash[h := v], Bits + {v})
    {
      hide HashOk, Searched, Slot, Run;
      TableSize(aHash, Bits);
      found, h := false, (v - 1) % NINT;
      ghost var d := 0;
      ghost var e := EmptySlot(aHash, Bits);
      SearchStart(aHash, v);
      while aHash[h] != 0
        invariant h < NINT && Searched(aHash, v, d, h) && d <= NINT && !found
        decreases NINT - d
      {
        if aHash[h] == v {
          Listed(aHash, Bits, h);
          return true, h;
        }
        SearchStep(aHash, v, d, h, e);
        SearchBound(aHash, v, d + 1, if h + 1 < NINT then h + 1 else 0);
        h := if h + 1 < NINT then h + 1 else 0;
        d := d + 1;
      }
      SearchEnd(aHash, Bits, v, d, h);
    }

    // What a node with children holds is held by the child it falls to.
    lemma ChildHas(i: nat)
      requires Valid() && iDivisor != 0 && 1 <= i <= iSize
      ensures 0 < iDivisor < iSize && Bin(i, iDivisor) < |apSub| == NPTR
      ensures var c := apSub[Bin(i, iDivisor)];
              (c == null ==> i !in Bits)
              && (c != null ==>
                    c in Repr && c.Valid() && c.iSize == iDivisor && c.iSize < iSize
                    && (i in Bits <==> Off(i, iDivisor) in c.Bits))
    {
      hide HashOk, BitmapOk, Divisor, Bin, Off;
    }

    // The first empty slot from the home of a value that is not in the table.
    method FreeSlot(v: nat) returns (h: nat)
      requires HashOk(aHash, Bits) && |Bits| < NINT && v >= 1 && v !in Bits
      ensures h < NINT == |aHash| && HashOk(aHash[h := v], Bits + {v})
    {
      hide HashOk, Searched, Slot, Run;
      TableSize(aHash, Bits);
      h := (v - 1) % NINT;
      ghost var d := 0;
      ghost var e := EmptySlot(aHash, Bits);
      SearchStart(aHash, v);
      while aHash[h] != 0
        invariant h < NINT && Searched(aHash, v, d, h) && d <= NINT
        decreases NINT - d
      {
        Listed(aHash, Bits, h);
        SearchStep(aHash, v, d, h, e);
        SearchBound(aHash, v, d + 1, if h + 1 < NINT then h + 1 else 0);
        h := h + 1;
        if h >= NINT { h := 0; }
        d := d + 1;
      }
      SearchEnd(aHash, Bits, v, d, h);
    }

    // Give the node an empty child at bin.
    method AddChild(bin: nat)
      requires Valid() && iDivisor != 0 && bin < NPTR == |apSub| && apSub[bin] == null
      modifies this
      ensures Valid() && Bits == old(Bits) && iDivisor == old(iDivisor) && apSub == old(apSub)[bin := apSub[bin]]
              && |apSub| == NPTR
      ensures apSub[bin] != null && Repr == old(Repr) + apSub[bin].Repr && fresh(apSub[bin].Repr)
    {
      hide HashOk, BitmapOk, Divisor, Bin, Off, Spread;
      var c := new Node(iDivisor);
      apSub := apSub[bin := c];
      Repr := Repr + c.Repr;
      assert Kids() == old(Kids());
    }

    /** sqlite3BitvecSet */
    method Set(n: nat)
      requires Valid() && 1 <= n <= iSize
      modifies Repr
      ensures Valid() && Bits == old(Bits) + {n} && fresh(Repr - old(Repr))
      ensures old(iDivisor) != 0 ==> iDivisor != 0
      decreases iSize, if iDivisor == 0 then 2 else 0, 2
    {
      hide HashOk, BitmapOk, Divisor, Bin, Off, Spread, Separate, ClearBit, SetBit, Mask, Kids;
      if iSize > NBIT && iDivisor != 0 {
        SetInChild(n);
      } else if iSize <= NBIT {
        BitmapSet(aBitmap, Bits, n);
        BitmapSize(aBitmap, Bits);
        aBitmap := SetBit(aBitmap, n);
        Bits := Bits + {n};
      } else {
        TableSize(aHash, Bits);
        var direct := aHash[(n - 1) % NINT] == 0;
        var found, h := Probe(n);
        if found {
          assert Bits == Bits + {n};
          return;
        }
        if nSet >= MXHASH && !(direct && nSet < NINT - 1) {
          Rehash(n);
        } else {
          nSet := nSet + 1;
          aHash := aHash[h := n];
          Bits := Bits + {n};
        }
      }
    }

    // Pass the number on to the child it falls to.
    method SetInChild(n: nat)
      requires Valid() && 1 <= n <= iSize && iDivisor != 0
      modifies Repr
      ensures Valid() && Bits == old(Bits) + {n} && fresh(Repr - old(Repr)) && iDivisor != 0
      decreases iSize, 0, 1
    {
      hide HashOk, BitmapOk, Divisor, Bin, Off, Spread, Separate;
      ChildHas(n);
      BinIs(n - 1, iDivisor);
      var bin := (n - 1) / iDivisor;
      if apSub[bin] == null { AddChild(bin); }
      ghost var kids := Kids();
      Descend(bin, (n - 1) % iDivisor + 1);
      SpreadSet(iSize, iDivisor, Bits, kids, n);
      NoteSet(n);
    }

    // Record what the children now hold.
    ghost method NoteSet(n: nat)
      requires this in Repr && (forall i | i in Bits :: 1 <= i <= iSize) && 1 <= n <= iSize && iSize > NBIT
      requires iDivisor == Divisor(iSize) && 0 < iDivisor < iSize && |apSub| == NPTR && Separate()
      requires forall k | 0 <= k < NPTR && apSub[k] != null :: apSub[k].Valid()
      requires Spread(iSize, iDivisor, Bits + {n}, Kids())
      modifies this`Bits
      ensures Valid() && Bits == old(Bits) + {n}
    {
      hide HashOk, BitmapOk, Divisor, Bin, Off, Spread;
      Bits := Bits + {n};
      assert Kids() == old(Kids());
    }

    // Set bit off of the child at bin; the other children stay as they are.
    method Descend(bin: nat, off: nat)
      requires Valid() && iDivisor != 0 && bin < |apSub| == NPTR && apSub[bin] != null && 1 <= off <= iDivisor
      modifies Repr
      ensures iDivisor == old(iDivisor) && 0 < iDivisor < iSize && apSub == old(apSub) && Bits == old(Bits)
              && this in Repr
      ensures Separate() && fresh(Repr - old(Repr))
              && (forall k | 0 <= k < NPTR && apSub[k] != null :: apSub[k].Valid())
      ensures Kids() == old(Kids())[bin := old(Kids()[bin]) + {off}]
      decreases iSize, 0, 0
    {
      hide HashOk, BitmapOk, Divisor, Bin, Off, Spread;
      var c := apSub[bin];
      c.Set(off);
      Repr := Repr + c.Repr;
      assert Kids() == old(Kids())[bin := old(Kids()[bin]) + {off}];
    }

    // Too many values for the hash table: turn it into a node with children and put them back one by one.
    method Rehash(n: nat)
      requires Valid() && 1 <= n <= iSize && iSize > NBIT && iDivisor == 0
      modifies Repr
      ensures Valid() && Bits == old(Bits) + {n} && fresh(Repr - old(Repr))
      decreases iSize, 1, 0
    {
      hide HashOk, BitmapOk, Divisor, Bin, Off, Spread, Values;
      TableSize(aHash, Bits);
      var values := aHash;
      HashValues(values, Bits);
      Split();
      Set(n);
      var j := 0;
      while j < NINT
        invariant j <= NINT && Valid() && iDivisor != 0 && fresh(Repr - old(Repr))
        invariant Bits == {n} + Values(values, j)
      {
        ValuesStep(values, j);
        if values[j] != 0 { Set(values[j]); }
        j := j + 1;
      }
    }

    // Drop the hash table for an empty array of children.
    method Split()
      requires Valid() && iSize > NBIT && iDivisor == 0
      modifies this
      ensures Valid() && iDivisor != 0 && Bits == {} && Repr == {this}
    {
      hide HashOk, BitmapOk, Bin, Off, Spread;
      DivisorFits(iSize);
      apSub := seq(NPTR, _ => null);
      iDivisor := iSize / NPTR;
      if iSize % NPTR != 0 { iDivisor := iDivisor + 1; }
      if iDivisor < NBIT { iDivisor := NBIT; }
      Bits, Repr := {}, {this};
      SpreadNone(iSize, iDivisor, Kids());
    }

    /** sqlite3BitvecClear */
    method Clear(n: nat)
      requires Valid() && 1 <= n <= iSize
      modifies Repr
      ensures Valid() && Bits == old(Bits) - {n} && Repr == old(Repr)
      decreases iSize, 2
    {
      hide HashOk, BitmapOk, Divisor, Bin, Off, Spread, Separate, ClearBit, SetBit, Mask, Kids;
      if iDivisor != 0 {
        ClearInChild(n);
      } else if iSize <= NBIT {
        BitmapSet(aBitmap, Bits, n);
        BitmapSize(aBitmap, Bits);
        aBitmap := ClearBit(aBitmap, n);
        Bits := Bits - {n};
      } else {
        RebuildWithout(n);
      }
    }

    method ClearInChild(n: nat)
      requires Valid() && 1 <= n <= iSize && iDivisor != 0
      modifies Repr
      ensures Valid() && Bits == old(Bits) - {n} && Repr == old(Repr)
      decreases iSize, 1
    {
      hide HashOk, BitmapOk, Divisor, Bin, Off, Spread, Separate;
      ChildHas(n);
      BinIs(n - 1, iDivisor);
      var bin := (n - 1) / iDivisor;
      if apSub[bin] == null { return; }
      ghost var kids := Kids();
      DescendClear(bin, (n - 1) % iDivisor + 1);
      SpreadSet(iSize, iDivisor, Bits, kids, n);
      NoteClear(n);
    }

    method DescendClear(bin: nat, off: nat)
      requires Valid() && iDivisor != 0 && bin < |apSub| == NPTR && apSub[bin] != null && 1 <= off <= iDivisor
      modifies Repr
      ensures iDivisor == old(iDivisor) && 0 < iDivisor < iSize && apSub == old(apSub) && Bits == old(Bits)
              && Repr == old(Repr)
      ensures Separate() && (forall k | 0 <= k < NPTR && apSub[k] != null :: apSub[k].Valid())
      ensures Kids() == old(Kids())[bin := old(Kids()[bin]) - {off}]
      decreases iSize, 0
    {
      hide HashOk, BitmapOk, Divisor, Bin, Off, Spread;
      var c := apSub[bin];
      c.Clear(off);
      assert Kids() == old(Kids())[bin := old(Kids()[bin]) - {off}];
    }

    ghost method NoteClear(n: nat)
      requires this in Repr && (forall i | i in Bits :: 1 <= i <= iSize) && iSize > NBIT
      requires iDivisor == Divisor(iSize) && 0 < iDivisor < iSize && |apSub| == NPTR && Separate()
      requires forall k | 0 <= k < NPTR && apSub[k] != null :: apSub[k].Valid()
      requires Spread(iSize, iDivisor, Bits - {n}, Kids())
      modifies this`Bits
      ensures Valid() && Bits == old(Bits) - {n}
    {
      hide HashOk, BitmapOk, Divisor, Bin, Off, Spread;
      Bits := Bits - {n};
      assert Kids() == old(Kids());
    }

    // Put one value back.
    method StoreAgain(v: nat)
      requires HashOk(aHash, Bits) && |Bits| < NINT && v >= 1 && v !in Bits && nSet == |Bits|
      modifies `aHash, `nSet, `Bits
      ensures HashOk(aHash, Bits) && Bits == old(Bits) + {v} && nSet == |Bits|
    {
      hide HashOk;
      nSet := nSet + 1;
      var h := FreeSlot(v);
      aHash := aHash[h := v];
      Bits := Bits + {v};
    }

    // Put every value but n back into the empty table.
    method Refill(values: seq<nat>, n: nat, ghost bits: set<nat>)
      requires HashOk(values, bits) && |bits| < NINT && HashOk(aHash, {}) && nSet == 0 && Bits == {}
      modifies `aHash, `nSet, `Bits
      ensures HashOk(aHash, Bits) && nSet == |Bits| && Bits == bits - {n}
    {
      hide HashOk, Values;
      TableSize(values, bits);
      HashValues(values, bits);
      var j := 0;
      while j < NINT
        invariant j <= NINT && HashOk(aHash, Bits) && nSet == |Bits|
        invariant Bits == Values(values, j) - {n} && Bits <= bits
      {
        ValuesStep(values, j);
        if values[j] != 0 && values[j] != n {
          ValuesNew(values, j, bits);
          Fewer(Bits, bits, values[j]);
          StoreAgain(values[j]);
        }
        j := j + 1;
      }
    }

    // Empty the hash table and put every value but n back.
    method RebuildWithout(n: nat)
      requires Valid() && iSize > NBIT && iDivisor == 0
      modifies this
      ensures Valid() && Bits == old(Bits) - {n} && Repr == old(Repr)
    {
      hide HashOk, BitmapOk, Divisor, Bin, Off, Spread, Values;
      var values := aHash;
      aHash := seq(NINT, _ => 0);
      EmptyTable(aHash);
      nSet := 0;
      Bits := {};
      Refill(values, n, old(Bits));
      Sets.SubsetSize(Bits, old(Bits));
    }
  }

  // The values in the first j slots.
  function Values(a: seq<nat>, j: nat): set<nat>
    requires j <= |a|
  {
    set h | 0 <= h < j && a[h] != 0 :: a[h]
  }

  lemma ValuesStep(a: seq<nat>, j: nat)
    requires j < |a|
    ensures Values(a, 0) == {} && Values(a, j + 1) == Values(a, j) + (if a[j] != 0 then {a[j]} else {})
    ensures a[j] != 0 ==> a[j] in Values(a, |a|)
  {
    assert a[j] != 0 ==> a[j] in Values(a, |a|);
  }

  lemma BitmapSize(m: seq<bv8>, bits: set<nat>)
    requires BitmapOk(m, bits)
    ensures |m| == NELEM
  {
  }

  lemma TableSize(a: seq<nat>, bits: set<nat>)
    requires HashOk(a, bits)
    ensures |a| == NINT
  {
  }

  lemma SearchBound(a: seq<nat>, v: nat, d: nat, h: nat)
    requires Searched(a, v, d, h)
    ensures d < NINT && h < NINT
  {
  }

  lemma EmptyBitmap(m: seq<bv8>)
    requires |m| == NELEM && forall e | 0 <= e < NELEM :: m[e] == 0
    ensures BitmapOk(m, {})
  {
    forall i | 1 <= i <= NBIT ensures !BitAt(m, i) {
      ZeroBit(Place(i));
    }
  }

  lemma ZeroBit(k: nat)
    requires k < 8
    ensures !BitOn(0, k)
  {
  }

  // The nonzero slots hold the values of the table.
  lemma HashValues(a: seq<nat>, bits: set<nat>)
    requires HashOk(a, bits)
    ensures bits == Values(a, |a|) && Values(a, 0) == {}
  {
  }

  lemma ValuesNew(a: seq<nat>, j: nat, bits: set<nat>)
    requires HashOk(a, bits) && j < |a| && a[j] != 0
    ensures a[j] !in Values(a, j) && a[j] in bits
  {
  }

  lemma Fewer(s: set<nat>, t: set<nat>, x: nat)
    requires s <= t && x in t && x !in s
    ensures |s| < |t|
  {
    Sets.SubsetSize(s + {x}, t);
  }
}
