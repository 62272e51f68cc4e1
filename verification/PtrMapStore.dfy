/** Reading and writing pointer-map entries: five-byte slots on scattered pages
    behave as a table from page numbers to (type, parent). */
module PtrMapStore {
  import opened Common
  import opened PtrMap

  // An entry as it is stored.
  datatype Slot = Slot(eType: byte, parent: nat)

  class Store {
    const l: Layout
    var pages: map<nat, seq<byte>>

    ghost predicate Valid()
      reads this
    {
      && l.Ok()
      && forall p | p in pages :: |pages[p]| >= l.usable
    }

    // The entry is on a page of the file.
    ghost predicate Held(key: nat)
      reads this
    {
      HasEntry(l, key) && PageNo(l, key) in pages
    }

    ghost function At(key: nat): Slot
      requires Valid() && Held(key)
      reads this
    {
      EntryInPage(l, key);
      var s := pages[PageNo(l, key)];
      Slot(s[Offset(l, key)], Get4(s, Offset(l, key) + 1))
    }

    /** ptrmapPut */
    method Put(key: nat, eType: byte, parent: nat) returns (rc: Rc)
      requires Valid() && parent < 0x1_0000_0000
      modifies this`pages
      ensures Valid() && rc.OK? == old(Held(key)) && pages.Keys == old(pages).Keys
      ensures rc.CORRUPT? ==> pages == old(pages)
      ensures rc.OK? ==> Held(key) && At(key) == Slot(eType, parent)
      ensures forall q | q != key && Held(q) :: At(q) == old(At(q))
      ensures forall p | p in pages && !IsMap(l, p) :: pages[p] == old(pages)[p]
    {
      if key == 0 { return CORRUPT; }
      var iPtrmap := PageNo(l, key);
      if iPtrmap !in pages { return CORRUPT; }
      if iPtrmap == 0 { return CORRUPT; }
      EntryInPage(l, key);
      var offset := 5 * (key - iPtrmap - 1);
      if offset < 0 { return CORRUPT; }
      var s := pages[iPtrmap];
      var stored := Get4(s, offset + 1);
      if eType != s[offset] || stored != parent {
        Written(s, offset, eType, parent);
        pages := pages[iPtrmap := Put4(s[offset := eType], offset + 1, parent)];
        forall q | q != key && Held(q) ensures At(q) == old(At(q)) {
          EntryInPage(l, q);
          if PageNo(l, q) == iPtrmap { SlotsApart(l, s, key, q, eType, parent); }
        }
      }
      return OK;
    }

    /** ptrmapGet */
    method Get(key: nat) returns (rc: Rc, eType: byte, parent: nat)
      requires Valid()
      ensures rc.OK? <==> Held(key) && 1 <= At(key).eType <= 5
      ensures rc.OK? ==> At(key) == Slot(eType, parent)
    {
      eType, parent := 0, 0;
      var iPtrmap := PageNo(l, key);
      if iPtrmap !in pages || iPtrmap == 0 { return CORRUPT, 0, 0; }
      EntryInPage(l, key);
      var offset := 5 * (key - iPtrmap - 1);
      if offset < 0 { return CORRUPT, 0, 0; }
      var s := pages[iPtrmap];
      eType, parent := s[offset], Get4(s, offset + 1);
      rc := if eType < 1 || eType > 5 then CORRUPT else OK;
    }
  }

  lemma Written(s: seq<byte>, offset: nat, eType: byte, parent: nat)
    requires offset + 5 <= |s| && parent < 0x1_0000_0000
    ensures var t := Put4(s[offset := eType], offset + 1, parent);
            t[offset] == eType && Get4(t, offset + 1) == parent && |t| == |s|
  {
    Get4Put4(s[offset := eType], offset + 1, parent);
  }

  // Slots on one page do not overlap.
  lemma SlotsApart(l: Layout, s: seq<byte>, key: nat, q: nat, eType: byte, parent: nat)
    requires l.Ok() && HasEntry(l, key) && HasEntry(l, q) && key != q && PageNo(l, key) == PageNo(l, q)
    requires |s| >= l.usable && parent < 0x1_0000_0000
    ensures 0 <= Offset(l, key) <= l.usable - 5 && 0 <= Offset(l, q) <= l.usable - 5
    ensures var t := Put4(s[Offset(l, key) := eType], Offset(l, key) + 1, parent);
            t[Offset(l, q)] == s[Offset(l, q)] && Get4(t, Offset(l, q) + 1) == Get4(s, Offset(l, q) + 1)
  {
    hide PageNo;
    EntryInPage(l, key);
    EntryInPage(l, q);
  }
}
