/** Cells: the header in front of the payload, and a cell read back as it was written. */
module CellHeader {
  import opened Common
  import opened Overflow
  import opened Varint

  // ---------- cells ----------

  // A cell of a table leaf, or of an index page whose cells start with childPtrSize bytes for a child page.
  datatype Shape = TableLeaf | Index(childPtrSize: nat)

  datatype CellInfo = CellInfo(nKey: nat, nPayload: nat, nLocal: nat, nSize: nat, payload: nat)

  // What comes before the payload.
  function Header(shape: Shape, child: seq<byte>, key: nat, nPayload: nat): seq<byte>
    requires key < U64 && nPayload < U32
  {
    match shape
    case TableLeaf => Encode(nPayload) + Encode(key)
    case Index(_) => child + Encode(nPayload)
  }

  predicate Fits(shape: Shape, child: seq<byte>) { shape.Index? ==> |child| == shape.childPtrSize <= 4 }

  // The bytes a cell takes on its page.
  function CellSize(lim: Limits, nHeader: nat, nPayload: nat): nat
    requires lim.Ok()
  {
    if nPayload <= lim.maxLocal then Max(4, nHeader + nPayload) else nHeader + Local(lim, nPayload) + 4
  }

  // The header can be read from p.
  predicate Readable(shape: Shape, p: seq<byte>) {
    match shape
    case TableLeaf => Has(p, 0) && Has(p[Value(p, 0, 0).1..], 0)
    case Index(c) => c <= |p| && Has(p[c..], 0)
  }

  lemma HeaderRead(shape: Shape, child: seq<byte>, key: nat, nPayload: nat, p: seq<byte>)
    requires key < U64 && nPayload < U32 && Fits(shape, child) && Header(shape, child, key, nPayload) <= p
    ensures Readable(shape, p)
    ensures var i := if shape.TableLeaf? then 0 else |child|;
            var n := Value(p[i..], 0, 0).1;
            var m := if shape.TableLeaf? then Value(p[n..], 0, 0).1 else 0;
            Read(0, p[i..][..n]) % U32 == nPayload && i + n + m == |Header(shape, child, key, nPayload)| <= 22
    ensures shape.TableLeaf? ==> Value(p[Value(p, 0, 0).1..], 0, 0).0 == key
  {
    hide Encode, Value, Has, Read;
    var h := Header(shape, child, key, nPayload);
    var rest := p[|h|..];
    match shape
    case TableLeaf =>
      SizeWritten(nPayload, Encode(key) + rest);
      RoundTrip(key, rest);
      assert p == Encode(nPayload) + (Encode(key) + rest) && p[0..] == p;
      assert p[|Encode(nPayload)|..] == Encode(key) + rest;
    case Index(_) =>
      SizeWritten(nPayload, rest);
      assert p[|child|..] == Encode(nPayload) + rest;
  }

  // How much of the payload is on the page, and the size of the cell; both are 16-bit integers.
  method LocalSizes(lim: Limits, pIter: nat, nPayload: nat) returns (nLocal: nat, nSize: nat)
    requires lim.Ok() && lim.maxLocal <= 65501
    ensures nLocal == Local(lim, nPayload) && (pIter <= 22 ==> nSize == CellSize(lim, pIter, nPayload))
  {
    hide Low16;
    SmallEnough();
    if nPayload <= lim.maxLocal {
      nSize := Low16(nPayload + pIter);
      if nSize < 4 { nSize := 4; }
      nLocal := Low16(nPayload);
    } else {
      var surplus := lim.minLocal + (nPayload - lim.minLocal) % (lim.usable - 4);
      nLocal := Low16(if surplus <= lim.maxLocal then surplus else lim.minLocal);
      nSize := Low16(Low16(pIter + nLocal) + 4);
    }
  }

  lemma SmallEnough()
    ensures forall n: nat | n < 0x1_0000 :: Low16(n) == n
  {
  }

  // A 16-bit integer.
  function Low16(n: nat): nat { n % 0x1_0000 }

  /** btreeParseCellPtr and btreeParseCellPtrIndex */
  method ParseCell(lim: Limits, shape: Shape, pCell: seq<byte>) returns (info: CellInfo)
    requires lim.Ok() && lim.maxLocal <= 65501 && Readable(shape, pCell) && (shape.Index? ==> shape.childPtrSize <= 4)
    ensures forall child, key: nat, nPayload: nat | key < U64 && nPayload < U32 && Fits(shape, child)
            && Header(shape, child, key, nPayload) <= pCell ::
              var h := |Header(shape, child, key, nPayload)|;
              info == CellInfo(if shape.TableLeaf? then key
                  else nPayload, nPayload, Local(lim, nPayload), CellSize(lim, h, nPayload), h)
  {
    hide Encode, Value, Has, Read, Local, CellSize;
    var pIter := if shape.TableLeaf? then 0 else shape.childPtrSize;
    var nPayload, n := ReadSize(pCell[pIter..]);
    pIter := pIter + n;
    var nKey := nPayload;
    if shape.TableLeaf? {
      var v, k := GetVarint(pCell[pIter..]);
      nKey, pIter := v, pIter + k;
    }
    var nLocal, nSize := LocalSizes(lim, pIter, nPayload);
    info := CellInfo(nKey, nPayload, nLocal, nSize, pIter);
    forall child, key: nat, nP: nat | key < U64 && nP < U32 && Fits(shape, child)
        && Header(shape, child, key, nP) <= pCell
      ensures nPayload == nP && pIter == |Header(shape, child, key, nP)| <= 22 && (shape.TableLeaf? ==> nKey == key)
    {
      HeaderRead(shape, child, key, nP, pCell);
    }
  }

  /** btreeParseCellPtrNoPayload, for interior cells of tables: a child page and a key. */
  method ParseCellNoPayload(pCell: seq<byte>) returns (info: CellInfo)
    requires 4 <= |pCell| && Has(pCell[4..], 0)
    ensures forall child, key: nat | |child| == 4 && key < U64 && child + Encode(key) <= pCell ::
              info == CellInfo(key, 0, 0, 4 + |Encode(key)|, 0)
  {
    hide Encode, Value, Has;
    var v, n := GetVarint(pCell[4..]);
    info := CellInfo(v, 0, 0, 4 + n, 0);
    forall child, key: nat | |child| == 4 && key < U64 && child + Encode(key) <= pCell
      ensures v == key && n == |Encode(key)|
    {
      var rest := pCell[4 + |Encode(key)|..];
      assert pCell[4..] == Encode(key) + rest;
      RoundTrip(key, rest);
    }
  }

  // The part of a cell that Overflow speaks of: its payload on the page and the first overflow page.
  function CellAt(lim: Limits, info: CellInfo, p: seq<byte>): Cell
    requires info.payload + BodySize(lim, info) <= |p|
  {
    Cell(info.nPayload, p[info.payload..info.payload + BodySize(lim, info)])
  }

  function BodySize(lim: Limits, info: CellInfo): nat { info.nLocal + if info.nPayload <= lim.maxLocal then 0 else 4 }

  lemma BodyLength(bt: Btree, cell: Cell, chain: seq<nat>)
    requires bt.lim.Ok() && Holds(bt.pages, bt.lim, cell, chain)
    ensures |cell.body| == (if cell.nPayload <= bt.lim.maxLocal then cell.nPayload
            else Local(bt.lim, cell.nPayload) + 4)
  {
  }

  /** fillInCell with its header: the cell takes as many bytes as it will be found to have. */
  method FillCell(bt: Btree, shape: Shape, child: seq<byte>, key: nat, data: seq<byte>, nZero: nat, grants: seq<nat>)
    returns (ok: bool, pCell: seq<byte>, cell: Cell, ghost chain: seq<nat>)
    requires bt.Valid() && bt.Grants(grants) && key < U64 && |data| + nZero <= 0x7fff_ffff && Fits(shape, child)
    modifies bt`pages, bt`ptrmap, bt`used, bt`nPage
    ensures ok <==> |data| + nZero <= bt.lim.maxLocal || NumPages(bt.lim, |data| + nZero) <= |grants|
    ensures ok ==> bt.Valid() && Holds(bt.pages, bt.lim, cell, chain) && cell.nPayload == |data| + nZero
    ensures ok ==> Payload(bt.pages, bt.lim, cell, chain) == data + Zeros(nZero)
    ensures ok ==> |chain| <= |grants| && chain == grants[..|chain|] && bt.used == old(bt.used) + (set p | p in chain)
    ensures ok ==> Kept(old(bt.pages), bt.pages, grants)
    ensures ok ==> var n := |data| + nZero;
                   var h := if shape.TableLeaf? then Encode(n) + Encode(key) else child + Encode(n);
                   && h + cell.body <= pCell && |pCell| == (if |h| + |cell.body| < 4 then 4 else |h| + |cell.body|)
                   && |pCell| == CellSize(bt.lim, |h|, n)
  {
    hide Encode, Payload, Zeros, Btree.Valid, Btree.Grants, NumPages, Holds;
    assert bt.lim.Ok() by { bt.Sizes(); }
    var nPayload := |data| + nZero;
    pCell := if shape.TableLeaf? then [] else child;
    var size := PutVarint(nPayload);
    pCell := pCell + size;
    if shape.TableLeaf? {
      var rowid := PutVarint(key);
      assert [] + size == size;
      pCell := pCell + rowid;
    }
    ok, cell, chain := bt.FillInCell(data, nZero, grants);
    if !ok { return; }
    BodyLength(bt, cell, chain);
    pCell := pCell + cell.body;
    if |pCell| < 4 {
      // One zero byte; what follows it is not set.
      var rest: seq<byte> := [];
      while |pCell| + 1 + |rest| < 4
        invariant |pCell| + 1 + |rest| <= 4
      {
        var junk: byte := *;
        rest := rest + [junk];
      }
      pCell := pCell + [0] + rest;
    }
  }

  lemma CellFound(lim: Limits, h: seq<byte>, p: seq<byte>, cell: Cell, info: CellInfo)
    requires lim.Ok() && h + cell.body <= p && info.payload == |h| && info.nPayload == cell.nPayload
    requires info.nLocal == Local(lim, cell.nPayload)
    requires |cell.body| == (if cell.nPayload <= lim.maxLocal then cell.nPayload else Local(lim, cell.nPayload) + 4)
    ensures info.payload + BodySize(lim, info) <= |p| && CellAt(lim, info, p) == cell
  {
    LocalIs(lim, cell.nPayload);
  }

  /** A record that is stored and looked up again has its key and its payload. */
  method StoreAndLoad(bt: Btree, shape: Shape, child: seq<byte>, key: nat, data: seq<byte>, nZero: nat,
                      grants: seq<nat>)
    returns (ok: bool, info: CellInfo, buf: seq<byte>)
    requires bt.Valid() && bt.Grants(grants) && key < U64 && |data| + nZero <= 0x7fff_ffff && Fits(shape, child)
    requires bt.lim.maxLocal <= 65501
    modifies bt
    ensures ok <==> |data| + nZero <= bt.lim.maxLocal || NumPages(bt.lim, |data| + nZero) <= |grants|
    ensures ok ==> bt.Valid() && info.nPayload == |data| + nZero && buf == data + Zeros(nZero)
    ensures ok && shape.TableLeaf? ==> info.nKey == key
  {
    hide Encode, Payload, Zeros, Btree.Valid, Btree.Grants, NumPages, Local, Holds, CellSize, CellAt, Readable, Value,
         Read;
    assert bt.lim.Ok() by { bt.Sizes(); }
    ghost var chain;
    var pCell, cell;
    info, buf := CellInfo(0, 0, 0, 0, 0), [];
    ok, pCell, cell, chain := FillCell(bt, shape, child, key, data, nZero, grants);
    if !ok { return; }
    var nPayload := |data| + nZero;
    HeaderRead(shape, child, key, nPayload, pCell);
    info := ParseCell(bt.lim, shape, pCell);
    BodyLength(bt, cell, chain);
    CellFound(bt.lim, Header(shape, child, key, nPayload), pCell, cell, info);
    bt.ForgetOverflow(chain);
    var rc;
    rc, buf := bt.AccessPayload(CellAt(bt.lim, info, pCell), 0, info.nPayload, chain);
  }
}
