/** Overflow chains: the bytes of a payload that does not fit in its cell
    (section 1.7 of the SQLite Database File Format). */
module OverflowChain {
  import opened Common

  type Pages = map<nat, seq<byte>>

  // A page of u usable bytes in the file.
  predicate Has(pages: Pages, u: nat, p: nat) { p in pages && |pages[p]| >= u }

  // Payload bytes on an overflow page: all but the four of the next page number.
  function Piece(pages: Pages, u: nat, p: nat): (b: seq<byte>)
    requires u >= 4 && Has(pages, u, p)
    ensures |b| == u - 4
  {
    pages[p][4..u]
  }

  ghost predicate AllHas(pages: Pages, u: nat, chain: seq<nat>) {
    forall i | 0 <= i < |chain| :: Has(pages, u, chain[i])
  }

  // The bytes along a chain.
  ghost function Tail(pages: Pages, u: nat, chain: seq<nat>): seq<byte>
    requires u >= 4 && AllHas(pages, u, chain)
  {
    if chain == [] then [] else Piece(pages, u, chain[0]) + Tail(pages, u, chain[1..])
  }

  // What page i of the chain says comes next.
  function Next(chain: seq<nat>, i: nat): nat { if i + 1 < |chain| then chain[i + 1] else 0 }

  ghost predicate Linked(pages: Pages, u: nat, chain: seq<nat>) {
    && u >= 4 && AllHas(pages, u, chain)
    && (forall i | 0 <= i < |chain| :: chain[i] != 0 && Get4(pages[chain[i]], 0) == Next(chain, i))
    && (forall i, j | 0 <= i < j < |chain| :: chain[i] != chain[j])
  }

  // Pages agree on the chain.
  ghost predicate Agree(pages: Pages, pages': Pages, u: nat, chain: seq<nat>) {
    AllHas(pages, u, chain) && forall i | 0 <= i < |chain| :: chain[i] in pages' && pages'[chain[i]] == pages[chain[i]]
  }

  lemma {:induction false} TailAgree(pages: Pages, pages': Pages, u: nat, chain: seq<nat>)
    requires u >= 4 && Agree(pages, pages', u, chain)
    ensures AllHas(pages', u, chain) && Tail(pages', u, chain) == Tail(pages, u, chain)
  {
    if chain != [] {
      assert forall i | 0 <= i < |chain[1..]| :: chain[1..][i] == chain[i + 1];
      TailAgree(pages, pages', u, chain[1..]);
      assert Has(pages, u, chain[0]);
    }
  }

  lemma AllHasConcat(pages: Pages, u: nat, a: seq<nat>, b: seq<nat>)
    requires AllHas(pages, u, a + b)
    ensures AllHas(pages, u, a) && AllHas(pages, u, b)
  {
    assert forall i | 0 <= i < |a| :: (a + b)[i] == a[i];
    assert forall i | 0 <= i < |b| :: (a + b)[|a| + i] == b[i];
  }

  lemma {:induction false} TailConcat(pages: Pages, u: nat, a: seq<nat>, b: seq<nat>)
    requires u >= 4 && AllHas(pages, u, a + b) && AllHas(pages, u, a) && AllHas(pages, u, b)
    ensures Tail(pages, u, a + b) == Tail(pages, u, a) + Tail(pages, u, b)
  {
    hide Piece, Has;
    if a == [] {
      assert a + b == b;
    } else {
      assert (a + b)[1..] == a[1..] + b;
      TailConcat(pages, u, a[1..], b);
      assert Piece(pages, u, a[0]) + (Tail(pages, u, a[1..]) + Tail(pages, u, b)) == Piece(pages, u, a[0])
             + Tail(pages, u, a[1..]) + Tail(pages, u, b);
    }
  }

  lemma TailOne(pages: Pages, u: nat, p: nat)
    requires u >= 4 && Has(pages, u, p)
    ensures AllHas(pages, u, [p]) && Tail(pages, u, [p]) == Piece(pages, u, p)
  {
    assert [p][1..] == [];
    assert AllHas(pages, u, [p]);
    assert Tail(pages, u, [p]) == Piece(pages, u, [p][0]) + Tail(pages, u, [p][1..]);
  }

  lemma {:induction false} TailLength(pages: Pages, u: nat, chain: seq<nat>)
    requires u >= 4 && AllHas(pages, u, chain)
    ensures |Tail(pages, u, chain)| == |chain| * (u - 4)
  {
    if chain != [] {
      TailLength(pages, u, chain[1..]);
      assert |chain| * (u - 4) == (|chain| - 1) * (u - 4) + (u - 4);
    }
  }

  // Skipping k pages skips k pieces.
  lemma TailDrop(pages: Pages, u: nat, chain: seq<nat>, k: nat)
    requires u >= 4 && AllHas(pages, u, chain) && k <= |chain|
    ensures AllHas(pages, u, chain[k..]) && 0 <= k * (u - 4) <= |Tail(pages, u, chain)|
    ensures Tail(pages, u, chain)[k * (u - 4)..] == Tail(pages, u, chain[k..])
  {
    assert chain == chain[..k] + chain[k..];
    AllHasConcat(pages, u, chain[..k], chain[k..]);
    TailConcat(pages, u, chain[..k], chain[k..]);
    TailLength(pages, u, chain[..k]);
  }

  // One page and the rest of the chain.
  lemma TailStep(pages: Pages, u: nat, chain: seq<nat>, k: nat)
    requires u >= 4 && AllHas(pages, u, chain) && k < |chain|
    ensures AllHas(pages, u, chain[k..]) && AllHas(pages, u, chain[k + 1..]) && Has(pages, u, chain[k])
    ensures Tail(pages, u, chain[k..]) == Piece(pages, u, chain[k]) + Tail(pages, u, chain[k + 1..])
  {
    assert chain[k..][1..] == chain[k + 1..];
    assert AllHas(pages, u, chain[k..]);
  }

  // Byte j of the piece of page k.
  lemma TailByte(pages: Pages, u: nat, chain: seq<nat>, k: nat, j: nat)
    requires u > 4 && AllHas(pages, u, chain) && k < |chain| && j < u - 4
    ensures 0 <= k * (u - 4) && k * (u - 4) + j < |Tail(pages, u, chain)|
    ensures Tail(pages, u, chain)[k * (u - 4) + j] == pages[chain[k]][4 + j]
  {
    TailDrop(pages, u, chain, k);
    TailStep(pages, u, chain, k);
    var t := Tail(pages, u, chain);
    assert t[k * (u - 4)..][j] == Piece(pages, u, chain[k])[j];
  }

  // ---------- building a chain ----------

  // Give a chain another page at its end: the old last page points to it and it points nowhere.
  function Extended(pages: Pages, u: nat, last: nat, p: nat): Pages
    requires u >= 4 && Has(pages, u, p) && (last != 0 ==> Has(pages, u, last)) && p < 0x1_0000_0000
  {
    var linked := if last == 0 then pages else pages[last := Put4(pages[last], 0, p)];
    linked[p := Put4(linked[p], 0, 0)]
  }

  function Last(chain: seq<nat>): nat { if chain == [] then 0 else chain[|chain| - 1] }

  lemma ExtendLinked(pages: Pages, u: nat, chain: seq<nat>, p: nat)
    requires Linked(pages, u, chain) && Has(pages, u, p) && 0 < p < 0x1_0000_0000 && p !in chain
    ensures Last(chain) != 0 ==> Has(pages, u, Last(chain))
    ensures var pages' := Extended(pages, u, Last(chain), p);
            Linked(pages', u, chain + [p]) && Tail(pages', u, chain) == Tail(pages, u, chain)
  {
    hide Put4, Get4;
    var last := Last(chain);
    assert chain != [] ==> Has(pages, u, chain[|chain| - 1]);
    var pages' := Extended(pages, u, last, p);
    if last != 0 { Get4Put4(pages[last], 0, p); }
    Get4Put4(pages[p], 0, 0);
    forall i | 0 <= i < |chain + [p]|
      ensures Has(pages', u, (chain + [p])[i]) && Get4(pages'[(chain + [p])[i]], 0) == Next(chain + [p], i)
    {
      assert i < |chain| ==> Has(pages, u, chain[i]);
      assert i == |chain| ==> (chain + [p])[i] == p;
    }
    PiecesKept(pages, pages', u, chain);
  }

  lemma {:induction false} PiecesKept(pages: Pages, pages': Pages, u: nat, chain: seq<nat>)
    requires u >= 4 && AllHas(pages, u, chain) && AllHas(pages', u, chain)
    requires forall i | 0 <= i < |chain| :: Piece(pages', u, chain[i]) == Piece(pages, u, chain[i])
    ensures Tail(pages', u, chain) == Tail(pages, u, chain)
  {
    if chain != [] { PiecesKept(pages, pages', u, chain[1..]); }
  }

  // Write bytes at offset at within the payload part of page p.
  function Filled(pages: Pages, u: nat, p: nat, at: nat, bytes: seq<byte>): Pages
    requires u >= 4 && Has(pages, u, p) && at + |bytes| <= u - 4
  {
    pages[p := pages[p][..4 + at] + bytes + pages[p][4 + at + |bytes|..]]
  }

  lemma FillLinked(pages: Pages, u: nat, chain: seq<nat>, p: nat, at: nat, bytes: seq<byte>)
    requires Linked(pages, u, chain + [p]) && at + |bytes| <= u - 4
    ensures Has(pages, u, p)
    ensures var pages' := Filled(pages, u, p, at, bytes);
            Linked(pages', u, chain + [p]) && AllHas(pages, u, chain) && Tail(pages', u, chain) == Tail(pages, u, chain)
            && Piece(pages', u, p) == Piece(pages, u, p)[..at] + bytes + Piece(pages, u, p)[at + |bytes|..]
  {
    assert (chain + [p])[|chain|] == p;
    assert Has(pages, u, p);
    FillKeeps(pages, u, chain + [p], p, at, bytes);
    AllHasConcat(pages, u, chain, [p]);
    AllHasConcat(Filled(pages, u, p, at, bytes), u, chain, [p]);
    FillPiece(pages, u, p, at, bytes);
    hide Filled, Linked, Piece;
    FillElsewhere(pages, u, chain, p, at, bytes);
  }

  lemma FillElsewhere(pages: Pages, u: nat, chain: seq<nat>, p: nat, at: nat, bytes: seq<byte>)
    requires Linked(pages, u, chain + [p]) && at + |bytes| <= u - 4 && Has(pages, u, p) && AllHas(pages, u, chain)
    ensures var pages' := Filled(pages, u, p, at, bytes);
            AllHas(pages', u, chain) && Tail(pages', u, chain) == Tail(pages, u, chain)
  {
    forall i | 0 <= i < |chain| ensures chain[i] != p {
      assert (chain + [p])[i] == chain[i] && (chain + [p])[|chain|] == p;
    }
    TailAgree(pages, Filled(pages, u, p, at, bytes), u, chain);
  }

  lemma FillKeeps(pages: Pages, u: nat, chain: seq<nat>, p: nat, at: nat, bytes: seq<byte>)
    requires Linked(pages, u, chain) && at + |bytes| <= u - 4 && Has(pages, u, p)
    ensures Linked(Filled(pages, u, p, at, bytes), u, chain)
  {
    var pages' := Filled(pages, u, p, at, bytes);
    forall i | 0 <= i < |chain| ensures Has(pages', u, chain[i]) && Get4(pages'[chain[i]], 0) == Next(chain, i) {
      assert Has(pages, u, chain[i]);
    }
  }

  lemma FillPiece(pages: Pages, u: nat, p: nat, at: nat, bytes: seq<byte>)
    requires u >= 4 && Has(pages, u, p) && at + |bytes| <= u - 4
    ensures Has(Filled(pages, u, p, at, bytes), u, p)
    ensures Piece(Filled(pages, u, p, at, bytes), u, p) == Piece(pages, u, p)[..at] + bytes
            + Piece(pages, u, p)[at + |bytes|..]
  {
  }
}
