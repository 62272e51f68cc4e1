/** Spilling a payload onto overflow pages, reading it back through the lazily filled
    page-list cache, and freeing the chain. */
module Overflow {
  import opened Common
  import opened PtrMap
  import opened OverflowChain

  datatype Limits = Limits(usable: nat, maxLocal: nat, minLocal: nat) {
    predicate Ok() { 480 <= usable && 1 <= minLocal <= maxLocal }
    // Payload bytes per overflow page.
    function Size(): (s: int) ensures usable >= 480 ==> s >= 1 { usable - 4 }
  }

  // A cell: its payload size and the bytes kept on the b-tree page, with the first overflow page number at the end.
  datatype Cell = Cell(nPayload: nat, body: seq<byte>)

  /** btreePayloadToLocal */
  function Local(lim: Limits, nPayload: nat): (n: nat)
    requires lim.Ok()
    ensures n <= lim.maxLocal && (nPayload <= lim.maxLocal ==> n == nPayload)
    ensures nPayload > lim.maxLocal ==> lim.minLocal <= n < nPayload
  {
    if nPayload <= lim.maxLocal then nPayload
    else
      var surplus := lim.minLocal + (nPayload - lim.minLocal) % lim.Size();
      if surplus <= lim.maxLocal then surplus else lim.minLocal
  }

  /** The limits of a table leaf, and of any other page that has payloads, in a database of this page size. */
  function LimitsOf(usable: nat, tableLeaf: bool): (lim: Limits)
    requires 480 <= usable <= 65536
    ensures lim.Ok() && lim.usable == usable && lim.maxLocal <= 65501 && lim.maxLocal - lim.minLocal < usable - 4
  {
    var minLocal := (usable - 12) * 32 / 255 - 23;
    Limits(usable, if tableLeaf then usable - 35 else (usable - 12) * 64 / 255 - 23, minLocal)
  }

  /** Whenever some amount within the limits leaves whole pages, the least such amount is kept; otherwise minLocal. */
  lemma LocalIsLeast(lim: Limits, nPayload: nat, m: nat)
    requires lim.Ok() && lim.minLocal <= m <= lim.maxLocal < nPayload
    ensures (nPayload - m) % (lim.usable - 4) == 0 ==>
              Local(lim, nPayload) <= m && (nPayload - Local(lim, nPayload)) % (lim.usable - 4) == 0
    ensures Local(lim, nPayload) != lim.minLocal ==> (nPayload - Local(lim, nPayload)) % (lim.usable - 4) == 0
  {
    var u, a := lim.usable - 4, nPayload - lim.minLocal;
    WholePages(a, u, a % u);
    if (nPayload - m) % u == 0 { WholePages(a, u, m - lim.minLocal); }
  }

  // Taking t off a leaves a multiple of u: for the remainder, and for nothing less.
  lemma WholePages(a: nat, u: nat, t: nat)
    requires u > 0 && t <= a
    ensures (a - t) % u == 0 ==> a % u <= t
    ensures t == a % u ==> (a - t) % u == 0
  {
    var q, r := a / u, a % u;
    assert a == q * u + r;
    if t == r { Remainder(a - t, u, q, 0); }
    if t < r { Remainder(a - t, u, q, r - t); }
  }

  lemma Remainder(x: nat, u: nat, q: nat, r: nat)
    requires u > 0 && x == q * u + r && r < u
    ensures x / u == q && x % u == r
  {
    var q', r' := x / u, x % u;
    assert x == q' * u + r';
    if q' > q { MulAtMost(q + 1, q', u); }
    if q' < q { MulAtMost(q' + 1, q, u); }
  }

  // Bytes left unused when x bytes are spread over overflow pages of u bytes.
  function Unused(u: nat, x: nat): int
    requires u > 0
  {
    (x + u - 1) / u * u - x
  }

  lemma UnusedIs(u: nat, x: nat, q: nat, r: nat)
    requires u > 0 && x == q * u + r && r < u
    ensures (x + u - 1) / u == (if r == 0 then q else q + 1) && Unused(u, x) == if r == 0 then 0 else u - r
  {
    if r == 0 { Remainder(x + u - 1, u, q, u - 1); } else { Remainder(x + u - 1, u, q + 1, r - 1); }
  }

  lemma LocalCases(lim: Limits, nPayload: nat)
    requires lim.Ok() && lim.maxLocal < nPayload
    ensures var r := (nPayload - lim.minLocal) % (lim.usable - 4);
            Local(lim, nPayload) == if lim.minLocal + r <= lim.maxLocal then lim.minLocal + r else lim.minLocal
  {
  }

  lemma UnusedZero(u: nat, x: nat)
    requires u > 0
    ensures Unused(u, x) >= 0 && (Unused(u, x) == 0 ==> x % u == 0)
  {
    hide Unused;
    var q, r := x / u, x % u;
    assert x == q * u + r;
    UnusedIs(u, x, q, r);
  }

  /** What the choice is for: no other amount within the limits leaves less space unused on the overflow pages, and of
      those that leave as little, none keeps less on the b-tree page. */
  lemma LeastUnused(lim: Limits, nPayload: nat, m: nat)
    requires lim.Ok() && lim.minLocal <= m <= lim.maxLocal < nPayload
    ensures var n, u := Local(lim, nPayload), lim.usable - 4;
            && Unused(u, nPayload - n) <= Unused(u, nPayload - m)
            && (Unused(u, nPayload - n) == Unused(u, nPayload - m) ==> n <= m)
  {
    hide Local, Unused;
    var n, u, a := Local(lim, nPayload), lim.usable - 4, nPayload - lim.minLocal;
    var q, r, t := a / u, a % u, m - lim.minLocal;
    assert a == q * u + r;
    LocalCases(lim, nPayload);
    if lim.minLocal + r <= lim.maxLocal {
      UnusedIs(u, a - r, q, 0);
      UnusedZero(u, a - t);
      WholePages(a, u, t);
    } else {
      UnusedIs(u, a, q, r);
      UnusedIs(u, a - t, q, r - t);
    }
  }

  // How many pages of u bytes hold what is left of a after t bytes.
  lemma PagesAfter(u: nat, a: nat, q: nat, r: nat, t: nat)
    requires u > 0 && a == q * u + r && r < u && t < u && t <= a
    ensures (a - t + u - 1) / u == if t < r then q + 1 else q
  {
    hide Unused;
    if t <= r {
      UnusedIs(u, a - t, q, r - t);
    } else {
      assert q * u == (q - 1) * u + u;
      UnusedIs(u, a - t, q - 1, u + r - t);
    }
  }

  /** And none needs fewer pages, as the limits are less than a page apart. */
  lemma FewestPages(lim: Limits, nPayload: nat, m: nat)
    requires lim.Ok() && lim.maxLocal - lim.minLocal < lim.usable - 4 && lim.minLocal <= m <= lim.maxLocal < nPayload
    ensures NumPages(lim, nPayload) <= (nPayload - m + lim.usable - 4 - 1) / (lim.usable - 4)
  {
    hide Local;
    var n, u, a := Local(lim, nPayload), lim.usable - 4, nPayload - lim.minLocal;
    var q, r := a / u, a % u;
    assert a == q * u + r;
    LocalCases(lim, nPayload);
    PagesAfter(u, a, q, r, m - lim.minLocal);
    PagesAfter(u, a, q, r, n - lim.minLocal);
  }

  function NumPages(lim: Limits, nPayload: nat): nat
    requires lim.Ok()
  {
    (nPayload - Local(lim, nPayload) + lim.Size() - 1) / lim.Size()
  }

  ghost predicate Spilled(pages: Pages, lim: Limits, cell: Cell, chain: seq<nat>)
    requires lim.Ok()
  {
    var n := Local(lim, cell.nPayload);
    && |cell.body| == n + 4 && chain != [] && Get4(cell.body, n) == chain[0]
    && Linked(pages, lim.usable, chain) && |chain| == NumPages(lim, cell.nPayload)
  }

  // The cell and the pages of chain hold a payload.
  ghost predicate Holds(pages: Pages, lim: Limits, cell: Cell, chain: seq<nat>)
    requires lim.Ok()
  {
    if cell.nPayload <= lim.maxLocal then chain == []
        && |cell.body| == cell.nPayload else Spilled(pages, lim, cell, chain)
  }

  // Local bytes followed by the bytes along the chain, slack included.
  ghost function Bytes(pages: Pages, lim: Limits, cell: Cell, chain: seq<nat>): seq<byte>
    requires lim.Ok() && Holds(pages, lim, cell, chain)
  {
    cell.body[..Local(lim, cell.nPayload)] + Tail(pages, lim.usable, chain)
  }

  // Enough pages, and not one too many.
  lemma PagesFit(lim: Limits, nPayload: nat, k: nat)
    requires lim.Ok() && nPayload > lim.maxLocal
    ensures k == NumPages(lim, nPayload) <==> (k - 1) * lim.Size() < nPayload - Local(lim, nPayload) <= k * lim.Size()
    ensures nPayload - Local(lim, nPayload) > k * lim.Size() ==> k < NumPages(lim, nPayload)
    ensures NumPages(lim, nPayload) >= 1
  {
    CeilDiv(nPayload - Local(lim, nPayload), lim.Size(), k);
  }

  function Times(k: nat, s: int): int { k * s }

  lemma TailEnough(pages: Pages, lim: Limits, cell: Cell, chain: seq<nat>)
    requires lim.Ok() && Holds(pages, lim, cell, chain) && Local(lim, cell.nPayload) < cell.nPayload
    ensures Spilled(pages, lim, cell, chain)
    ensures |Tail(pages, lim.usable, chain)| + Local(lim, cell.nPayload) >= cell.nPayload
  {
    BytesEnough(pages, lim, cell, chain);
  }

  lemma LocalBytes(pages: Pages, lim: Limits, cell: Cell, chain: seq<nat>)
    requires lim.Ok() && Holds(pages, lim, cell, chain)
    ensures Local(lim, cell.nPayload) <= |cell.body| && AllHas(pages, lim.usable, chain)
  {
  }

  /** The payload is all there. */
  lemma BytesEnough(pages: Pages, lim: Limits, cell: Cell, chain: seq<nat>)
    requires lim.Ok() && Holds(pages, lim, cell, chain)
    ensures |Bytes(pages, lim, cell, chain)| >= cell.nPayload
  {
    if cell.nPayload > lim.maxLocal {
      TailLength(pages, lim.usable, chain);
      PagesFit(lim, cell.nPayload, |chain|);
    }
  }

  ghost function Payload(pages: Pages, lim: Limits, cell: Cell, chain: seq<nat>): (s: seq<byte>)
    requires lim.Ok() && Holds(pages, lim, cell, chain)
    ensures |s| == cell.nPayload
  {
    BytesEnough(pages, lim, cell, chain);
    Bytes(pages, lim, cell, chain)[..cell.nPayload]
  }

  /** The first bytes of a payload are on the b-tree page. */
  lemma LocalByte(pages: Pages, lim: Limits, cell: Cell, chain: seq<nat>, k: nat)
    requires lim.Ok() && Holds(pages, lim, cell, chain) && k < cell.nPayload && k < Local(lim, cell.nPayload)
    ensures k < |cell.body| && Payload(pages, lim, cell, chain)[k] == cell.body[k]
  {
    hide Local, NumPages, Linked, Tail;
    LocalBytes(pages, lim, cell, chain);
    BytesEnough(pages, lim, cell, chain);
  }

  /** The others fill the overflow pages in order, after the four bytes of the link. */
  lemma SpilledByte(pages: Pages, lim: Limits, cell: Cell, chain: seq<nat>, k: nat, i: nat, j: nat)
    requires lim.Ok() && Holds(pages, lim, cell, chain) && k < cell.nPayload && j < lim.usable - 4
    requires k == Local(lim, cell.nPayload) + i * (lim.usable - 4) + j
    ensures i < |chain| && chain[i] in pages && |pages[chain[i]]| >= lim.usable
    ensures Payload(pages, lim, cell, chain)[k] == pages[chain[i]][4 + j]
  {
    hide Local, NumPages, Linked, Tail;
    PageWithin(lim, cell.nPayload, k, i, j);
    LocalBytes(pages, lim, cell, chain);
    BytesEnough(pages, lim, cell, chain);
    TailByte(pages, lim.usable, chain, i, j);
    var n, w := Local(lim, cell.nPayload), i * (lim.usable - 4) + j;
    assert k == n + w;
  }

  lemma PageWithin(lim: Limits, nPayload: nat, k: nat, i: nat, j: nat)
    requires lim.Ok() && k < nPayload && k == Local(lim, nPayload) + i * (lim.usable - 4) + j
    ensures nPayload > lim.maxLocal && i < NumPages(lim, nPayload)
  {
    hide Local, NumPages;
    MulAtMost(0, i, lim.Size());
    LocalIs(lim, nPayload);
    var p := NumPages(lim, nPayload);
    PagesFit(lim, nPayload, p);
    if p <= i { MulAtMost(p, i, lim.Size()); }
  }

  function Zeros(n: nat): (z: seq<byte>)
    ensures |z| == n && forall i | 0 <= i < n :: z[i] == 0
  {
    seq(n, _ => 0)
  }

  // An OVERFLOW2 entry names the page that points to its own page, except perhaps for page x.
  ghost predicate MapTrue(pages: Pages, u: nat, ptrmap: map<nat, Entry>, used: set<nat>, x: nat) {
    forall q | q in ptrmap && q != 0 && q != x && ptrmap[q].kind == OVERFLOW2 ::
      q in used && ptrmap[q].parent in used && u >= 4 && Has(pages, u, ptrmap[q].parent)
          && Get4(pages[ptrmap[q].parent], 0) == q
  }

  class Btree {
    const lim: Limits
    const l: Layout
    const autoVacuum: bool
    var nPage: nat
    var pages: Pages
    var ptrmap: map<nat, Entry>
    // Pages in use.
    ghost var used: set<nat>
    // The cursor's overflow page-list cache; zero entries are not known yet.
    var aOverflow: seq<nat>
    var validOvfl: bool

    ghost predicate Setting()
      reads this
    {
      && lim.Ok() && l.Ok() && l.usable == lim.usable
      && (forall p | p in used :: 2 <= p <= nPage)
      && (autoVacuum ==> forall q | 2 <= q <= nPage && Ordinary(l, q) :: q in ptrmap)
    }

    ghost predicate Valid()
      reads this
    {
      Setting() && (autoVacuum ==> MapTrue(pages, lim.usable, ptrmap, used, 0))
    }

    // A prefix of the chain is cached.
    ghost predicate Cached(chain: seq<nat>)
      reads this
    {
      validOvfl ==> |aOverflow| == |chain| && exists m :: Prefix(aOverflow, chain, m)
    }

    /** getOverflowPage: guess the next page from the pointer map, or else read it. */
    method GetOverflowPage(ovfl: nat, ghost x: nat) returns (next: nat)
      requires Setting() && Has(pages, lim.usable, ovfl) && 2 <= ovfl && x <= ovfl
      requires autoVacuum ==> MapTrue(pages, lim.usable, ptrmap, used, x)
      ensures next == Get4(pages[ovfl], 0)
    {
      if autoVacuum {
        var iGuess := ovfl + 1;
        NextPageIs(l, true, ovfl);
        while IsMap(l, iGuess) || iGuess == l.pending
          invariant ovfl < iGuess <= NextPage(l, true, ovfl)
          decreases NextPage(l, true, ovfl) - iGuess
        {
          iGuess := iGuess + 1;
        }
        if iGuess <= nPage {
          var e := ptrmap[iGuess];
          if e.kind == OVERFLOW2 && e.parent == ovfl { return iGuess; }
        }
      }
      return Get4(pages[ovfl], 0);
    }

    /** accessPayload, reading: the bytes asked for, whatever the cache knew. */
    method AccessPayload(cell: Cell, start: nat, count: nat, ghost chain: seq<nat>) returns (rc: Rc, buf: seq<byte>)
      requires Valid() && Holds(pages, lim, cell, chain) && start + count <= cell.nPayload
      requires (forall p | p in chain :: p in used) && Cached(chain)
      modifies `aOverflow, `validOvfl
      ensures rc.OK? && Valid() && Cached(chain) && buf == Payload(pages, lim, cell, chain)[start..start + count]
    {
      hide MapTrue, Linked, Tail, Local;
      BytesEnough(pages, lim, cell, chain);
      rc, buf := OK, [];
      var offset: nat, amt: nat, nLocal := start, count, Local(lim, cell.nPayload);
      LocalIs(lim, cell.nPayload);
      LocalBytes(pages, lim, cell, chain);
      var a := 0;
      if offset < nLocal {
        a := amt;
        if a + offset > nLocal { a := nLocal - offset; }
        buf := cell.body[offset..offset + a];
        offset := 0;
        amt := amt - a;
      } else {
        offset := offset - nLocal;
      }
      ReadSplit(cell.body[..nLocal], Tail(pages, lim.usable, chain), cell.nPayload, start, count, a, offset);
      assert start < nLocal ==> cell.body[..nLocal][start..start + a] == cell.body[start..start + a];
      if amt > 0 {
        var rest;
        TailEnough(pages, lim, cell, chain);
        rc, rest := ReadChain(cell, nLocal, offset, amt, chain);
        buf := buf + rest;
      }
    }

    // The part of a read that lies on overflow pages.
    method ReadChain(cell: Cell, nLocal: nat, start: nat, count: nat, ghost chain: seq<nat>)
      returns (rc: Rc, buf: seq<byte>)
      requires Valid() && Spilled(pages, lim, cell, chain) && nLocal == Local(lim, cell.nPayload) && 0 < count
      requires Linked(pages, lim.usable, chain) && start + count <= |Tail(pages, lim.usable, chain)|
      requires (forall p | p in chain :: p in used) && Cached(chain)
      modifies `aOverflow, `validOvfl
      ensures rc.OK? && Cached(chain) && buf == Tail(pages, lim.usable, chain)[start..start + count]
    {
      hide MapTrue, Linked, Tail, Local, NumPages;
      LinkAt(pages, lim.usable, chain, 0);
      var iIdx, nextPage, offset := Seek(cell, nLocal, start, chain);
      SeekTo(pages, lim.usable, chain, start, iIdx, offset);
      Shifted(Tail(pages, lim.usable, chain), Tail(pages, lim.usable, chain[iIdx..]), start, offset, count);
      rc, buf := Walk(iIdx, nextPage, offset, count, chain);
    }

    // Where to start: the page the offset falls on if the cache knows it, or else the first.
    method Seek(cell: Cell, nLocal: nat, start: nat, ghost chain: seq<nat>)
      returns (iIdx: nat, nextPage: nat, offset: nat)
      requires lim.Ok() && Spilled(pages, lim, cell, chain) && nLocal == Local(lim, cell.nPayload)
      requires start < |Tail(pages, lim.usable, chain)| && Cached(chain)
      modifies `aOverflow, `validOvfl
      ensures validOvfl && Cached(chain) && iIdx < |chain| && nextPage == chain[iIdx]
              && (iIdx == 0 || aOverflow[iIdx] != 0)
      ensures (iIdx == 0 && offset == start) || (iIdx == start / (lim.usable - 4) && offset == start % (lim.usable - 4))
    {
      hide Linked, Tail, Local, NumPages;
      var ovflSize := lim.usable - 4;
      iIdx, nextPage, offset := 0, Get4(cell.body, nLocal), start;
      if !validOvfl {
        var nOvfl := NumPages(lim, cell.nPayload);
        aOverflow := seq(nOvfl, _ => 0);
        validOvfl := true;
        assert Prefix(aOverflow, chain, 0);
      } else {
        PageOf(pages, lim.usable, chain, start);
        if aOverflow[offset / ovflSize] != 0 {
          iIdx := offset / ovflSize;
          nextPage := aOverflow[iIdx];
          offset := offset % ovflSize;
        }
      }
    }

    // Follow the chain from page first, filling the cache on the way.
    method Walk(first: nat, firstPage: nat, start: nat, count: nat, ghost chain: seq<nat>)
      returns (rc: Rc, buf: seq<byte>)
      requires Valid() && Linked(pages, lim.usable, chain) && AllHas(pages, lim.usable, chain) && first < |chain|
               && firstPage == chain[first]
      requires 0 < count && start + count <= |Tail(pages, lim.usable, chain[first..])|
      requires (forall p | p in chain :: p in used) && validOvfl && Cached(chain)
               && (first == 0 || aOverflow[first] != 0)
      modifies `aOverflow
      ensures rc.OK? && Cached(chain) && buf == Tail(pages, lim.usable, chain[first..])[start..start + count]
    {
      hide MapTrue, Linked, Tail, Local, Progress, Piece, Get4;
      rc, buf := OK, [];
      var offset: nat, amt: nat, iIdx: nat, nextPage, ovflSize := start, count, first, firstPage, lim.usable - 4;
      ghost var m: nat :| Prefix(aOverflow, chain, m);
      ghost var want := Tail(pages, lim.usable, chain[first..])[start..start + count];
      Begin(want, Tail(pages, lim.usable, chain[first..]), start, count);
      while nextPage != 0
        invariant iIdx <= m && Prefix(aOverflow, chain, m) && nextPage == (if iIdx < |chain| then chain[iIdx] else 0)
        invariant 0 < amt && offset + amt <= |Tail(pages, lim.usable, chain[iIdx..])|
        invariant Progress(want, buf, Tail(pages, lim.usable, chain[iIdx..]), offset, amt)
        decreases |chain| - iIdx
      {
        LinkAt(pages, lim.usable, chain, iIdx);
        TailStep(pages, lim.usable, chain, iIdx);
        assert chain[iIdx] in chain;
        if nextPage > nPage {
          assert false;
          rc := CORRUPT;
          return;
        }
        aOverflow := aOverflow[iIdx := nextPage];
        m := if m == iIdx then iIdx + 1 else m;
        assert Prefix(aOverflow, chain, m);
        PieceLength(pages, lim.usable, nextPage);
        ghost var piece, rest := Piece(pages, lim.usable, nextPage), Tail(pages, lim.usable, chain[iIdx + 1..]);
        if offset >= ovflSize {
          LastTail(pages, lim.usable, chain, iIdx);
          if aOverflow[iIdx + 1] != 0 {
            nextPage := aOverflow[iIdx + 1];
          } else {
            nextPage := GetOverflowPage(nextPage, 0);
          }
          Skip(want, buf, piece, rest, offset, amt);
          offset := offset - ovflSize;
        } else {
          var a := amt;
          if a + offset > ovflSize { a := ovflSize - offset; }
          Copy(want, buf, piece, rest, offset, amt, a);
          PieceSlice(pages, lim.usable, nextPage, offset, a);
          buf := buf + pages[nextPage][offset + 4..offset + 4 + a];
          nextPage := Get4(pages[nextPage], 0);
          offset := 0;
          amt := amt - a;
          if amt == 0 { return; }
        }
        iIdx := iIdx + 1;
      }
      LinkAt(pages, lim.usable, chain, iIdx);
      assert false;
      rc := CORRUPT;
    }

    /** accessPayload, writing: the payload is the same but for the bytes written. Pages in busy are open elsewhere; the
        write stops at the first of them it gets to, and done says how many bytes were written by then. */
    method PutPayload(cell: Cell, start: nat, bytes: seq<byte>, busy: set<nat>, ghost chain: seq<nat>)
      returns (rc: Rc, cell': Cell, ghost done: nat)
      requires Valid() && Holds(pages, lim, cell, chain) && start + |bytes| <= cell.nPayload
      requires (forall p | p in chain :: p in used) && Cached(chain)
      modifies `aOverflow, `validOvfl, `pages
      ensures Valid() && Cached(chain) && Kept(old(pages), pages, chain)
      ensures cell'.nPayload == cell.nPayload && Holds(pages, lim, cell', chain)
      ensures done <= |bytes| && (rc.OK? <==> done == |bytes|)
      ensures Payload(pages, lim, cell', chain) ==
              Overwritten(old(Payload(pages, lim, cell, chain)), start, bytes[..done])
      ensures Quiet(chain, busy, lim.usable - 4, start - Local(lim, cell.nPayload), done)
      ensures !rc.OK? ==> Open(chain, busy, lim.usable - 4, start + done - Local(lim, cell.nPayload))
    {
      hide MapTrue, Linked, Tail, Local, Overwritten, NumPages, Quiet, Open;
      BytesEnough(pages, lim, cell, chain);
      KeptSelf(pages, chain);
      var offset: nat, nLocal := start, Local(lim, cell.nPayload);
      LocalIs(lim, cell.nPayload);
      LocalBytes(pages, lim, cell, chain);
      ghost var head, tail := cell.body[..nLocal], Tail(pages, lim.usable, chain);
      rc, cell', done := OK, cell, 0;
      var a := 0;
      if offset < nLocal {
        a := |bytes|;
        if a + offset > nLocal { a := nLocal - offset; }
        LocalWrite(cell.body, nLocal, start, bytes[..a]);
        cell' := cell.(body := Overwritten(cell.body, offset, bytes[..a]));
        offset := 0;
      } else {
        offset := offset - nLocal;
      }
      done := a;
      QuietBefore(chain, busy, lim.usable - 4, start - nLocal, a);
      if a < |bytes| {
        TailEnough(pages, lim, cell, chain);
        ghost var more;
        rc, more := WriteChain(cell', nLocal, offset, bytes[a..], busy, chain);
        LinkAt(pages, lim.usable, chain, 0);
        QuietJoin(chain, busy, lim.usable - 4, start - nLocal, a, more);
        if more == 0 { OverNothing(tail, offset, bytes[a..][..more]); }
        done := a + more;
        assert bytes[..done][a..] == bytes[a..][..more] && bytes[..done][..a] == bytes[..a];
      } else {
        assert bytes[..a] == bytes;
      }
      WriteSplit(head, tail, cell.nPayload, start, bytes[..done], a, offset);
      assert a == done ==> bytes[..done][..a] == bytes[..a];
      LocalBytes(pages, lim, cell', chain);
      BytesEnough(pages, lim, cell', chain);
    }

    // The part of a write that lies on overflow pages.
    method WriteChain(cell: Cell, nLocal: nat, start: nat, src: seq<byte>, busy: set<nat>, ghost chain: seq<nat>)
      returns (rc: Rc, ghost done: nat)
      requires Valid() && Spilled(pages, lim, cell, chain) && nLocal == Local(lim, cell.nPayload) && 0 < |src|
      requires Linked(pages, lim.usable, chain) && start + |src| <= |Tail(pages, lim.usable, chain)|
      requires (forall p | p in chain :: p in used) && Cached(chain)
      modifies `aOverflow, `validOvfl, `pages
      ensures Valid() && Cached(chain) && Linked(pages, lim.usable, chain) && Kept(old(pages), pages, chain)
      ensures old(AllHas(pages, lim.usable, chain)) && AllHas(pages, lim.usable, chain)
      ensures done <= |src| && (rc.OK? <==> done == |src|)
      ensures Tail(pages, lim.usable, chain) == Overwritten(old(Tail(pages, lim.usable, chain)), start, src[..done])
      ensures Quiet(chain, busy, lim.usable - 4, start, done)
      ensures !rc.OK? ==> Open(chain, busy, lim.usable - 4, start + done)
    {
      hide MapTrue, Linked, Tail, Local, NumPages, Overwritten, Quiet, Open;
      LinkAt(pages, lim.usable, chain, 0);
      var iIdx, nextPage, offset := Seek(cell, nLocal, start, chain);
      DivMod(start, lim.usable - 4);
      rc, done := WriteWalk(iIdx, nextPage, offset, src, busy, start, chain);
    }

    // Follow the chain from page first and write over its bytes.
    method WriteWalk(first: nat, firstPage: nat, start: nat, src: seq<byte>, busy: set<nat>, ghost base: nat,
                     ghost chain: seq<nat>)
      returns (rc: Rc, ghost done: nat)
      requires Valid() && Linked(pages, lim.usable, chain) && AllHas(pages, lim.usable, chain)
      requires first < |chain| && firstPage == chain[first] && base == Times(first, lim.usable - 4) + start
      requires 0 < |src| && base + |src| <= |Tail(pages, lim.usable, chain)|
      requires (forall p | p in chain :: p in used) && validOvfl && Cached(chain)
               && (first == 0 || aOverflow[first] != 0)
      modifies `aOverflow, `pages
      ensures Valid() && Cached(chain) && Linked(pages, lim.usable, chain) && Kept(old(pages), pages, chain)
      ensures old(AllHas(pages, lim.usable, chain)) && AllHas(pages, lim.usable, chain)
      ensures done <= |src| && (rc.OK? <==> done == |src|)
      ensures Tail(pages, lim.usable, chain) == Overwritten(old(Tail(pages, lim.usable, chain)), base, src[..done])
      ensures Quiet(chain, busy, lim.usable - 4, base, done)
      ensures !rc.OK? ==> Open(chain, busy, lim.usable - 4, base + done)
    {
      hide MapTrue, Linked, Tail, Local, Piece, Get4, Overwritten, Times, Kept, AllHas, Quiet, Open;
      rc, done := OK, 0;
      var offset: nat, amt: nat, iIdx: nat, nextPage, ovflSize := start, |src|, first, firstPage, lim.usable - 4;
      ghost var m: nat :| Prefix(aOverflow, chain, m);
      ghost var tail0, pages0 := Tail(pages, lim.usable, chain), pages;
      OverNothing(tail0, base, src[..0]);
      QuietNone(chain, busy, ovflSize, base);
      KeptSelf(pages, chain);
      while nextPage != 0
        invariant iIdx <= m && Prefix(aOverflow, chain, m) && nextPage == (if iIdx < |chain| then chain[iIdx] else 0)
        invariant 0 < amt <= |src| && Times(iIdx, ovflSize) + offset + amt == base + |src| && Kept(pages0, pages, chain)
        invariant Valid() && Linked(pages, lim.usable, chain) && AllHas(pages, lim.usable, chain) && rc.OK?
        invariant done == |src| - amt && Tail(pages, lim.usable, chain) == Overwritten(tail0, base, src[..done])
        invariant Quiet(chain, busy, ovflSize, base, done)
        decreases |chain| - iIdx
      {
        LinkAt(pages, lim.usable, chain, iIdx);
        assert chain[iIdx] in chain;
        if nextPage > nPage {
          assert false;
          rc := CORRUPT;
          return;
        }
        aOverflow := aOverflow[iIdx := nextPage];
        m := if m == iIdx then iIdx + 1 else m;
        assert Prefix(aOverflow, chain, m);
        NextTimes(iIdx, ovflSize);
        if offset >= ovflSize {
          MorePages(pages, lim.usable, chain, iIdx + 1, offset - ovflSize, amt, tail0, base, src);
          if aOverflow[iIdx + 1] != 0 {
            nextPage := aOverflow[iIdx + 1];
          } else {
            nextPage := GetOverflowPage(nextPage, 0);
          }
          offset := offset - ovflSize;
        } else {
          var a := amt;
          if a + offset > ovflSize { a := ovflSize - offset; }
          QuietMore(chain, busy, ovflSize, base, done, iIdx, offset, a);
          if nextPage in busy {
            rc := CORRUPT;
            return;
          }
          var p, sofar := nextPage, |src| - amt;
          nextPage := Get4(pages[p], 0);
          ghost var pages1 := pages;
          WriteAt(iIdx, p, offset, src, sofar, a, tail0, base, chain);
          KeptTwice(pages0, pages1, pages, chain);
          offset := 0;
          amt := amt - a;
          done := done + a;
          if amt == 0 {
            assert src[..|src|] == src;
            assert Prefix(aOverflow, chain, m);
            return;
          }
        }
        iIdx := iIdx + 1;
      }
      MorePages(pages, lim.usable, chain, iIdx, offset, amt, tail0, base, src);
      LinkAt(pages, lim.usable, chain, iIdx);
      assert false;
      rc := CORRUPT;
    }

    // Write the next a bytes of src on page p of the chain.
    method WriteAt(ghost i: nat, p: nat, at: nat, src: seq<byte>, done: nat, a: nat, ghost tail0: seq<byte>,
                   ghost base: nat,
                   ghost chain: seq<nat>)
      requires Valid() && Linked(pages, lim.usable, chain) && AllHas(pages, lim.usable, chain) && i < |chain|
               && p == chain[i]
      requires Has(pages, lim.usable, p) && at + a <= lim.usable - 4 && done + a <= |src| && base + |src| <= |tail0|
      requires Times(i, lim.usable - 4) + at == base + done
      requires Tail(pages, lim.usable, chain) == Overwritten(tail0, base, src[..done])
      modifies `pages
      ensures Valid() && Linked(pages, lim.usable, chain) && AllHas(pages, lim.usable, chain)
      ensures Tail(pages, lim.usable, chain) == Overwritten(tail0, base, src[..done + a])
              && Kept(old(pages), pages, chain)
    {
      hide MapTrue, Linked, Tail, AllHas, Overwritten, Times, Filled, Kept, Has;
      Overwrote(pages, lim.usable, chain, i, at, tail0, base, src, done, a);
      if autoVacuum { FillMap(pages, lim.usable, ptrmap, used, p, at, src[done..done + a]); }
      FillKept(pages, lim.usable, chain, p, at, src[done..done + a]);
      pages := Filled(pages, lim.usable, p, at, src[done..done + a]);
    }

    /** A payload is written, read any number of times in any order, overwritten in part and read again, and its cell
        is dropped: every read gives the bytes that were last written there, and the pages taken are given back,
        each once. */
    method Lifetime(data: seq<byte>, nZero: nat, grants: seq<nat>, ranges: seq<(nat, nat)>, at: nat, bytes: seq<byte>)
      returns (ok: bool, before: seq<seq<byte>>, after: seq<seq<byte>>, freed: seq<nat>)
      requires Valid() && Grants(grants) && at + |bytes| <= |data| + nZero
      requires forall i | 0 <= i < |ranges| :: ranges[i].0 + ranges[i].1 <= |data| + nZero
      modifies this
      ensures ok <==> |data| + nZero <= lim.maxLocal || NumPages(lim, |data| + nZero) <= |grants|
      ensures ok ==> Valid() && used == old(used) && |data + Zeros(nZero)| == |data| + nZero
      ensures ok ==> |freed| <= |grants| && freed == grants[..|freed|]
      ensures ok ==> |freed| == (if |data| + nZero <= lim.maxLocal then 0 else NumPages(lim, |data| + nZero))
      ensures ok ==> before == Slices(data + Zeros(nZero), ranges)
      ensures ok ==> after == Slices(Overwritten(data + Zeros(nZero), at, bytes), ranges)
      ensures ok ==> Kept(old(pages), pages, grants)
    {
      hide MapTrue, Linked, Tail, Local, NumPages, Overwritten, Payload, Kept, Spare;
      ZerosLength(nZero);
      Sizes();
      GrantsFree(grants);
      var cell;
      ghost var chain;
      before, after, freed := [], [], [];
      ghost var want, used0, pages0 := data + Zeros(nZero), used, pages;
      ok, cell, chain := FillInCell(data, nZero, grants);
      if !ok { return; }
      ForgetOverflow(chain);
      before := ReadAll(cell, ranges, chain);
      ghost var pages1 := pages;
      var rc;
      ghost var done;
      rc, cell, done := PutPayload(cell, at, bytes, {}, chain);
      assert bytes[..|bytes|] == bytes;
      after := ReadAll(cell, ranges, chain);
      KeptMore(pages0, pages1, pages, chain, grants);
      if cell.nPayload > lim.maxLocal {
        ghost var pages2 := pages;
        rc, freed := ClearCellOverflow(cell, chain);
        KeptMore(pages0, pages2, pages, chain, grants);
      }
      TakenBack(used0, chain, grants);
    }

    // invalidateOverflowCache: the cursor points to another cell now.
    method ForgetOverflow(ghost chain: seq<nat>)
      modifies `validOvfl
      ensures Cached(chain) && (old(Valid()) ==> Valid())
    {
      validOvfl := false;
    }

    // Any number of reads, one after the other through the same cache.
    method ReadAll(cell: Cell, ranges: seq<(nat, nat)>, ghost chain: seq<nat>) returns (bufs: seq<seq<byte>>)
      requires Valid() && Holds(pages, lim, cell, chain) && (forall p | p in chain :: p in used) && Cached(chain)
      requires forall i | 0 <= i < |ranges| :: ranges[i].0 + ranges[i].1 <= cell.nPayload
      modifies `aOverflow, `validOvfl
      ensures Cached(chain) && bufs == Slices(Payload(pages, lim, cell, chain), ranges)
    {
      hide MapTrue, Holds, Payload;
      bufs := [];
      ghost var want := Payload(pages, lim, cell, chain);
      for i := 0 to |ranges|
        invariant Valid() && Cached(chain) && |bufs| == i && |want| == cell.nPayload
        invariant forall j | 0 <= j < i :: bufs[j] == want[ranges[j].0..ranges[j].0 + ranges[j].1]
      {
        var rc, buf := AccessPayload(cell, ranges[i].0, ranges[i].1, chain);
        bufs := bufs + [buf];
      }
    }

    // Pages the allocator may hand out: distinct, not in use, and beyond the end of the file only one after the other.
    ghost predicate Grants(grants: seq<nat>)
      reads this
    {
      Spare(l, pages, lim.usable, nPage, used, grants, 0) && Distinct(grants)
    }

    // Take page p from the allocator and link it to the end of the chain.
    method AddPage(body: seq<byte>, nLocal: nat, prev: nat, p: nat, ghost chain: seq<nat>) returns (body': seq<byte>)
      requires Valid() && Linked(pages, lim.usable, chain) && prev == Last(chain)
               && (forall q | q in chain :: q in used)
      requires Has(pages, lim.usable, p) && 2 <= p < 0x1_0000_0000 && p !in used && NoneBetween(l, nPage, p)
      requires |body| == nLocal + 4 && (chain != [] ==> Get4(body, nLocal) == chain[0])
      modifies `pages, `ptrmap, `used, `nPage
      ensures Valid() && Linked(pages, lim.usable, chain + [p]) && used == old(used) + {p}
              && nPage == Max(old(nPage), p)
      ensures AllHas(pages, lim.usable, chain) && old(AllHas(pages, lim.usable, chain))
              && Tail(pages, lim.usable, chain) == old(Tail(pages, lim.usable, chain))
      ensures |body'| == nLocal + 4 && body'[..nLocal] == body[..nLocal] && Get4(body', nLocal) == (chain + [p])[0]
      ensures Kept(old(pages), pages, chain + [p])
    {
      hide MapTrue, Linked, Tail, Get4, Put4, Extended, Last;
      LastZero(pages, lim.usable, chain);
      LinkAt(pages, lim.usable, chain, 0);
      if autoVacuum { MapExtend(pages, lim.usable, ptrmap, used, chain, p); }
      ExtendLinked(pages, lim.usable, chain, p);
      ExtendKept(pages, lim.usable, chain, p);
      FirstSet(body, nLocal, p);
      body' := body;
      if autoVacuum { ptrmap := ptrmap[p := Entry(if prev != 0 then OVERFLOW2 else OVERFLOW1, prev)]; }
      if prev == 0 { body' := Put4(body, nLocal, p); }
      pages := Extended(pages, lim.usable, prev, p);
      used, nPage := used + {p}, Max(nPage, p);
    }

    // Write bytes at the end of what has been written so far: in the cell, or on the last page of the chain.
    method WriteChunk(body: seq<byte>, nLocal: nat, last: nat, at: nat, chunk: seq<byte>, ghost chain: seq<nat>)
      returns (body': seq<byte>)
      requires Valid() && Linked(pages, lim.usable, chain) && last == Last(chain)
      requires |body| == nLocal + 4 && at + |chunk| <= (if chain == [] then nLocal else lim.usable - 4)
      modifies `pages
      ensures Valid() && Linked(pages, lim.usable, chain) && AllHas(pages, lim.usable, chain)
              && old(AllHas(pages, lim.usable, chain))
      ensures |body'| == nLocal + 4 && body'[nLocal..] == body[nLocal..] && Kept(old(pages), pages, chain)
      ensures var was := body[..nLocal] + old(Tail(pages, lim.usable, chain));
              Replaced(was, body'[..nLocal] + Tail(pages, lim.usable, chain),
                  |was| - (if chain == [] then nLocal else lim.usable - 4) + at, chunk)
    {
      hide MapTrue, Get4, Filled, Linked, Tail;
      LinkAt(pages, lim.usable, chain, 0);
      LastZero(pages, lim.usable, chain);
      if last == 0 {
        body' := body[..at] + chunk + body[at + |chunk|..];
        NoTail(pages, lim.usable, chain);
      } else {
        body' := body;
        ghost var init := chain[..|chain| - 1];
        assert chain == init + [last];
        FillLinked(pages, lim.usable, init, last, at, chunk);
        FillMap(pages, lim.usable, ptrmap, used, last, at, chunk);
        FillTails(pages, lim.usable, init, last, at, chunk, body[..nLocal]);
        FillKept(pages, lim.usable, chain, last, at, chunk);
        pages := Filled(pages, lim.usable, last, at, chunk);
        LinkAt(pages, lim.usable, chain, 0);
      }
    }

    // A payload being spilled: its first done bytes are in the cell and on the pages of chain, and there is
    // room for spaceLeft more bytes.
    ghost predicate Building(used0: set<nat>, n0: nat, grants: seq<nat>, want: seq<byte>, body: seq<byte>, nLocal: nat,
                             pgno: nat,
                             chain: seq<nat>, done: nat, spaceLeft: nat)
      reads this
    {
      && Valid() && Linked(pages, lim.usable, chain) && AllHas(pages, lim.usable, chain) && pgno == Last(chain)
      && |chain| <= |grants| && chain == grants[..|chain|] && used == used0 + (set p | p in chain)
           && Grown(n0, nPage, chain)
      && Spare(l, pages, lim.usable, nPage, used, grants, |chain|)
      && |body| == nLocal + 4 && (chain != [] ==> Get4(body, nLocal) == chain[0])
      && spaceLeft <= (if chain == [] then nLocal else lim.usable - 4)
      && Matches(want, body[..nLocal] + Tail(pages, lim.usable, chain), done, spaceLeft)
    }

    method WriteStep(body: seq<byte>, nLocal: nat, pgno: nat, spaceLeft: nat, chunk: seq<byte>,
                     ghost used0: set<nat>, ghost n0: nat, ghost grants: seq<nat>, ghost want: seq<byte>,
                         ghost chain: seq<nat>, ghost done: nat)
      returns (body': seq<byte>)
      requires Building(used0, n0, grants, want, body, nLocal, pgno, chain, done, spaceLeft)
      requires |chunk| <= spaceLeft && done + |chunk| <= |want| && chunk == want[done..done + |chunk|]
      modifies `pages
      ensures Building(used0, n0, grants, want, body', nLocal, pgno, chain, done + |chunk|, spaceLeft - |chunk|)
      ensures Kept(old(pages), pages, chain)
    {
      hide MapTrue, Linked, Tail, Get4, Matches, Replaced, Last;
      LastZero(pages, lim.usable, chain);
      ghost var was, pages0 := body[..nLocal] + Tail(pages, lim.usable, chain), pages;
      var room := if pgno == 0 then nLocal else lim.usable - 4;
      MatchSize(want, was, done, spaceLeft);
      body' := WriteChunk(body, nLocal, pgno, room - spaceLeft, chunk, chain);
      Wrote(want, was, body'[..nLocal] + Tail(pages, lim.usable, chain), done, spaceLeft, chunk);
      SpareKept(l, pages0, pages, lim.usable, nPage, used, grants, chain);
      SamePointer(body, body', nLocal);
    }

    method AllocStep(body: seq<byte>, nLocal: nat, pgno: nat, grants: seq<nat>, k: nat,
                     ghost used0: set<nat>, ghost n0: nat, ghost want: seq<byte>, ghost chain: seq<nat>,
                         ghost done: nat)
      returns (body': seq<byte>)
      requires Building(used0, n0, grants, want, body, nLocal, pgno, chain, done, 0) && k == |chain| < |grants|
      requires Distinct(grants)
      modifies `pages, `ptrmap, `used, `nPage
      ensures Building(used0, n0, grants, want, body', nLocal, grants[k], grants[..k + 1], done, lim.usable - 4)
      ensures Kept(old(pages), pages, grants[..k + 1])
    {
      hide MapTrue, Linked, Tail, Get4, Matches, Last, Kept, Spare, Piece;
      ghost var pages0, was, p := pages, body[..nLocal] + Tail(pages, lim.usable, chain), grants[k];
      SpareAt(l, pages, lim.usable, nPage, used, grants, k);
      body' := AddPage(body, nLocal, pgno, grants[k], chain);
      assert grants[..k + 1] == chain + [p];
      LinkAt(pages, lim.usable, chain + [p], 0);
      TailLast(pages, lim.usable, chain, p);
      PieceLength(pages, lim.usable, p);
      MoreRoom(want, was, Piece(pages, lim.usable, p), done);
      Assoc(body[..nLocal], Tail(pages, lim.usable, chain), Piece(pages, lim.usable, p));
      SpareKept(l, pages0, pages, lim.usable, old(nPage), old(used), grants, chain + [p]);
      SpareLess(l, pages, lim.usable, old(nPage), old(used), grants, k);
      LastZero(pages, lim.usable, chain + [p]);
    }

    // Write one run of bytes and, if the page is then full and more remain, take another page.
    method Turn(data: seq<byte>, nZero: nat, nLocal: nat, grants: seq<nat>, body: seq<byte>, left: nat, spaceLeft: nat,
                pgno: nat, k: nat,
                ghost used0: set<nat>, ghost n0: nat)
      returns (body': seq<byte>, left': nat, spaceLeft': nat, pgno': nat, k': nat)
      requires 0 < left <= |data| + nZero && 0 < spaceLeft && k <= |grants| && Distinct(grants)
      requires Building(used0, n0, grants, data + Zeros(nZero), body, nLocal, pgno, grants[..k], |data| + nZero - left,
               spaceLeft)
      modifies `pages, `ptrmap, `used, `nPage
      ensures left' < left && k <= k' <= |grants| && (left' == 0 ==> k' == k && spaceLeft' < spaceLeft)
              && Kept(old(pages), pages, grants)
      ensures Building(used0, n0, grants, data + Zeros(nZero), body', nLocal, pgno', grants[..k'],
              |data| + nZero - left', spaceLeft')
      ensures left' > 0 && spaceLeft' == 0 ==> k' == |grants|
      ensures spaceLeft' <= (if k' == 0 then nLocal else lim.usable - 4) && (k' != k ==> 0 < spaceLeft')
    {
      hide Zeros, Kept, Building, Spilled, Tail, AllHas;
      var nPayload := |data| + nZero;
      BuildSizes(used0, n0, grants, data + Zeros(nZero), body, nLocal, pgno, grants[..k], nPayload - left, spaceLeft);
      var chunk := NextChunk(data, nZero, left, spaceLeft, |data| - (nPayload - left));
      ghost var pages0 := pages;
      body' := WriteStep(body, nLocal, pgno, spaceLeft, chunk, used0, n0, grants, data + Zeros(nZero), grants[..k],
          nPayload - left);
      KeptWider(pages0, pages, grants[..k], grants);
      left', spaceLeft', pgno', k' := left - |chunk|, spaceLeft - |chunk|, pgno, k;
      if left' > 0 && spaceLeft' == 0 && k < |grants| {
        ghost var pages1 := pages;
        body' := AllocStep(body', nLocal, pgno, grants, k, used0, n0, data + Zeros(nZero), grants[..k],
            nPayload - left');
        KeptMore(pages0, pages1, pages, grants[..k + 1], grants);
        pgno', k', spaceLeft' := grants[k], k + 1, lim.usable - 4;
      }
    }

    // Fill the cell and then one overflow page after another, until all is written or no page is left.
    method WriteOut(data: seq<byte>, nZero: nat, nLocal: nat, grants: seq<nat>, cell: seq<byte>, ghost used0: set<nat>,
                    ghost n0: nat)
      returns (body: seq<byte>, left: nat, spaceLeft: nat, pgno: nat, k: nat, ghost room: nat)
      requires 0 < |data| + nZero && 0 < nLocal && Distinct(grants) && lim.Ok()
      requires Building(used0, n0, grants, data + Zeros(nZero), cell, nLocal, 0, grants[..0], 0, nLocal)
      modifies `pages, `ptrmap, `used, `nPage
      ensures left <= |data| + nZero && k <= |grants| && spaceLeft < room <= (if k == 0 then nLocal else lim.usable - 4)
      ensures Building(used0, n0, grants, data + Zeros(nZero), body, nLocal, pgno, grants[..k], |data| + nZero - left,
              spaceLeft)
      ensures left > 0 ==> spaceLeft == 0 && k == |grants|
      ensures Kept(old(pages), pages, grants)
    {
      hide Zeros, Kept, Building, Distinct;
      ghost var pages0 := pages;
      KeptSelf(pages, grants);
      body, left, spaceLeft, pgno, k, room := cell, |data| + nZero, nLocal, 0, 0, nLocal;
      while left > 0 && spaceLeft > 0
        invariant left <= |data| + nZero && k <= |grants| && room <= (if k == 0 then nLocal else lim.usable - 4)
        invariant spaceLeft <= room && (left == 0 ==> spaceLeft < room) && (spaceLeft == 0 ==> 0 < room)
        invariant Building(used0, n0, grants, data + Zeros(nZero), body, nLocal, pgno, grants[..k],
                  |data| + nZero - left, spaceLeft)
        invariant left > 0 && spaceLeft == 0 ==> k == |grants|
        invariant Kept(pages0, pages, grants)
        decreases left
      {
        ghost var pages1 := pages;
        room := spaceLeft;
        body, left, spaceLeft, pgno, k := Turn(data, nZero, nLocal, grants, body, left, spaceLeft, pgno, k, used0, n0);
        KeptTwice(pages0, pages1, pages, grants);
        if left > 0 && spaceLeft > 0 { room := spaceLeft; }
      }
    }

    method Spill(data: seq<byte>, nZero: nat, nLocal: nat, grants: seq<nat>)
      returns (ok: bool, body: seq<byte>, ghost chain: seq<nat>)
      requires Valid() && Grants(grants) && |data| + nZero > lim.maxLocal && nLocal == Local(lim, |data| + nZero)
      modifies `pages, `ptrmap, `used, `nPage
      ensures ok <==> NumPages(lim, |data| + nZero) <= |grants|
      ensures ok ==> Complete(old(used), old(nPage), grants, data + Zeros(nZero), body, nLocal, chain)
      ensures Taken(old(used), old(nPage), grants, chain) && (!ok ==> chain == grants)
      ensures Kept(old(pages), pages, grants)
    {
      hide NumPages, Zeros, Kept, Building, Local, Valid, Grants, Distinct, Complete, Taken;
      Sizes();
      GrantsDistinct(grants);
      var nPayload := |data| + nZero;
      LocalSpills(lim, nPayload);
      ZerosLength(nLocal + 4);
      ZerosLength(nZero);
      assert grants[..0] == [];
      ghost var want, used0, n0 := data + Zeros(nZero), used, nPage;
      BuildStart(grants, want, Zeros(nLocal + 4), nLocal);
      var left, spaceLeft, pgno, k;
      ghost var room;
      body, left, spaceLeft, pgno, k, room := WriteOut(data, nZero, nLocal, grants, Zeros(nLocal + 4), used, nPage);
      ok, chain := left == 0, grants[..k];
      if ok {
        BuildEnd(used0, n0, grants, want, body, nLocal, pgno, chain, nPayload, spaceLeft, room - spaceLeft);
      } else {
        BuildStuck(used0, n0, grants, want, body, nLocal, pgno, chain, nPayload - left, nPayload);
      }
      BuildTaken(used0, n0, grants, want, body, nLocal, pgno, chain, nPayload - left, spaceLeft);
    }

    // The first pages granted are in use and in a chain.
    ghost predicate Taken(used0: set<nat>, n0: nat, grants: seq<nat>, chain: seq<nat>)
      reads this
    {
      && Valid() && |chain| <= |grants| && chain == grants[..|chain|] && Linked(pages, lim.usable, chain)
      && used == used0 + (set p | p in chain) && Grown(n0, nPage, chain)
    }

    lemma BuildTaken(used0: set<nat>, n0: nat, grants: seq<nat>, want: seq<byte>, body: seq<byte>, nLocal: nat,
                     pgno: nat,
                     chain: seq<nat>, done: nat, spaceLeft: nat)
      requires Building(used0, n0, grants, want, body, nLocal, pgno, chain, done, spaceLeft)
      ensures Taken(used0, n0, grants, chain)
    {
      hide MapTrue, Linked, Tail, Matches, Spare;
    }

    // The payload want is all written.
    ghost predicate Complete(used0: set<nat>, n0: nat, grants: seq<nat>, want: seq<byte>, body: seq<byte>, nLocal: nat,
                             chain: seq<nat>)
      reads this
    {
      && Valid() && Spilled(pages, lim, Cell(|want|, body), chain) && |body| == nLocal + 4
           && AllHas(pages, lim.usable, chain)
      && |chain| <= |grants| && chain == grants[..|chain|] && used == used0 + (set p | p in chain)
           && Grown(n0, nPage, chain)
      && want <= body[..nLocal] + Tail(pages, lim.usable, chain)
    }

    // The bytes to write next: as much as there is room for, but never data and zeros at once.
    static method NextChunk(data: seq<byte>, nZero: nat, left: nat, spaceLeft: nat, nSrc: int)
      returns (chunk: seq<byte>)
      requires 0 < left <= |data| + nZero && nSrc == |data| - (|data| + nZero - left) && 0 < spaceLeft
      ensures 0 < |chunk| <= spaceLeft && |chunk| <= left
      ensures var done := |data| + nZero - left;
              |data + Zeros(nZero)| == |data| + nZero && chunk == (data + Zeros(nZero))[done..done + |chunk|]
    {
      var n, done := if left > spaceLeft then spaceLeft else left, |data| + nZero - left;
      if nSrc >= n {
        chunk := data[done..done + n];
      } else if nSrc > 0 {
        n := nSrc;
        chunk := data[done..done + n];
      } else {
        chunk := Zeros(n);
      }
      ChunkIs(data, nZero, done, n, chunk);
    }

    lemma BuildStart(grants: seq<nat>, want: seq<byte>, body: seq<byte>, nLocal: nat)
      requires Valid() && Grants(grants) && |body| == nLocal + 4
      ensures Building(used, nPage, grants, want, body, nLocal, 0, [], 0, nLocal) && Kept(pages, pages, grants)
    {
      hide MapTrue;
      NoTail(pages, lim.usable, []);
    }

    lemma BuildCount(used0: set<nat>, n0: nat, grants: seq<nat>, want: seq<byte>, body: seq<byte>, nLocal: nat,
                     pgno: nat,
                     chain: seq<nat>, done: nat, spaceLeft: nat)
      requires Building(used0, n0, grants, want, body, nLocal, pgno, chain, done, spaceLeft)
      ensures done + spaceLeft == nLocal + Times(|chain|, lim.usable - 4)
    {
      hide MapTrue, Linked;
      TailLength(pages, lim.usable, chain);
    }

    lemma BuildSizes(used0: set<nat>, n0: nat, grants: seq<nat>, want: seq<byte>, body: seq<byte>, nLocal: nat,
                     pgno: nat,
                     chain: seq<nat>, done: nat, spaceLeft: nat)
      requires Building(used0, n0, grants, want, body, nLocal, pgno, chain, done, spaceLeft)
      ensures spaceLeft <= (if chain == [] then nLocal else lim.usable - 4) && lim.Ok()
    {
    }

    lemma BuildStuck(used0: set<nat>, n0: nat, grants: seq<nat>, want: seq<byte>, body: seq<byte>, nLocal: nat,
                     pgno: nat,
                     chain: seq<nat>, done: nat, nPayload: nat)
      requires Building(used0, n0, grants, want, body, nLocal, pgno, chain, done, 0) && |chain| == |grants|
               && done < nPayload
      requires nPayload > lim.maxLocal && lim.Ok() && nLocal == Local(lim, nPayload)
      ensures NumPages(lim, nPayload) > |grants|
    {
      hide Building;
      BuildCount(used0, n0, grants, want, body, nLocal, pgno, chain, done, 0);
      PagesFit(lim, nPayload, |chain|);
    }

    lemma BuildEnd(used0: set<nat>, n0: nat, grants: seq<nat>, want: seq<byte>, body: seq<byte>, nLocal: nat, pgno: nat,
                   chain: seq<nat>, nPayload: nat, spaceLeft: nat, n: nat)
      requires Building(used0, n0, grants, want, body, nLocal, pgno, chain, nPayload, spaceLeft) && |want| == nPayload
               && n > 0
      requires nPayload > lim.maxLocal && lim.Ok() && nLocal == Local(lim, nPayload)
               && spaceLeft + n <= (if chain == [] then nLocal else lim.usable - 4)
      ensures Complete(used0, n0, grants, want, body, nLocal, chain) && NumPages(lim, nPayload) <= |grants|
    {
      hide MapTrue, Linked, Local, NumPages, Tail, Matches, Spare, Times;
      BuildCount(used0, n0, grants, want, body, nLocal, pgno, chain, nPayload, spaceLeft);
      RightCount(lim, nPayload, nLocal, |chain|, spaceLeft, n);
      MatchesAll(want, body[..nLocal] + Tail(pages, lim.usable, chain), spaceLeft);
    }

    /** fillInCell: the cell and the pages taken from the allocator hold the data and the zeros after it. */
    method FillInCell(data: seq<byte>, nZero: nat, grants: seq<nat>)
      returns (ok: bool, cell: Cell, ghost chain: seq<nat>)
      requires Valid() && Grants(grants)
      modifies `pages, `ptrmap, `used, `nPage
      ensures ok <==> |data| + nZero <= lim.maxLocal || NumPages(lim, |data| + nZero) <= |grants|
      ensures ok ==> Holds(pages, lim, cell, chain) && cell.nPayload == |data| + nZero
      ensures ok ==> Payload(pages, lim, cell, chain) == data + Zeros(nZero)
      ensures Taken(old(used), old(nPage), grants, chain) && (!ok ==> chain == grants)
      ensures Kept(old(pages), pages, grants)
    {
      hide Valid, Grants, NumPages, Spilled, Tail, Zeros;
      assert lim.Ok() by { Sizes(); }
      var nPayload := |data| + nZero;
      chain := [];
      if nPayload <= lim.maxLocal {
        cell := Cell(nPayload, data + Zeros(nZero));
        ZerosLength(nZero);
        NoTail(pages, lim.usable, []);
        NothingTaken(grants);
        return true, cell, [];
      }
      var mn := lim.minLocal;
      var n := mn + (nPayload - mn) % (lim.usable - 4);
      if n > lim.maxLocal { n := mn; }
      var body;
      ok, body, chain := Spill(data, nZero, n, grants);
      cell := Cell(nPayload, body);
      ZerosLength(nZero);
      if ok {
        LocalBytes(pages, lim, cell, chain);
        TakePrefix(data + Zeros(nZero), body[..n] + Tail(pages, lim.usable, chain));
      }
    }

    lemma NothingTaken(grants: seq<nat>)
      requires Valid()
      ensures Taken(used, nPage, grants, [])
    {
      hide MapTrue;
      assert (set p: nat | p in []) == {};
    }

    lemma GrantsFree(grants: seq<nat>)
      requires Grants(grants)
      ensures forall i | 0 <= i < |grants| :: grants[i] !in used
    {
      hide Ordinary;
    }

    lemma GrantsDistinct(grants: seq<nat>)
      requires Grants(grants)
      ensures Distinct(grants)
    {
    }

    lemma Sizes()
      requires Valid()
      ensures lim.Ok()
    {
    }

    // freePage2 as seen from here: the page is marked free and whatever it held may be gone.
    method FreePage(p: nat)
      requires p in pages
      modifies `pages, `ptrmap, `used
      ensures used == old(used) - {p} && ptrmap ==
              (if autoVacuum then old(ptrmap)[p := Entry(FREEPAGE, 0)] else old(ptrmap))
      ensures Kept(old(pages), pages, [p])
    {
      var junk: seq<byte> := *;
      if |junk| != |pages[p]| { junk := Zeros(|pages[p]|); }
      pages := pages[p := junk];
      if autoVacuum { ptrmap := ptrmap[p := Entry(FREEPAGE, 0)]; }
      used := used - {p};
    }

    // Free the first page of what is left of a chain.
    method FreeFirst(p: nat, ghost rest: seq<nat>)
      requires Setting() && (autoVacuum ==> MapTrue(pages, lim.usable, ptrmap, used, p))
      requires Linked(pages, lim.usable, rest) && rest != [] && p == rest[0] && p in pages && forall q | q in rest ::
                 q in used
      modifies `pages, `ptrmap, `used
      ensures Setting() && (autoVacuum ==> MapTrue(pages, lim.usable, ptrmap, used, Next(rest, 0)))
      ensures Linked(pages, lim.usable, rest[1..]) && (forall q | q in rest[1..] :: q in used)
              && used == old(used) - {p}
      ensures Kept(old(pages), pages, [p])
    {
      hide MapTrue, Linked, Ordinary;
      FreePage(p);
      if autoVacuum { MapFree(old(pages), pages, lim.usable, old(ptrmap), old(used), rest); }
      LinkedRest(old(pages), pages, lim.usable, rest);
    }

    /** clearCellOverflow: free every page of the chain, each once. */
    method ClearCellOverflow(cell: Cell, ghost chain: seq<nat>) returns (rc: Rc, freed: seq<nat>)
      requires Valid() && cell.nPayload > lim.maxLocal && Holds(pages, lim, cell, chain) && forall p | p in chain ::
                 p in used
      modifies `pages, `ptrmap, `used
      ensures rc.OK? && freed == chain && Valid() && used == old(used) - (set p | p in chain)
      ensures Kept(old(pages), pages, chain)
    {
      hide MapTrue, Linked, Local, NumPages, Get4, AllHas, Has, Ordinary, Kept;
      rc, freed := OK, [];
      var nOvfl, ovflPgno := NumPages(lim, cell.nPayload), Get4(cell.body, Local(lim, cell.nPayload));
      LinkAt(pages, lim.usable, chain, 0);
      if autoVacuum { MapWeaker(pages, lim.usable, ptrmap, used, ovflPgno); }
      assert chain[0..] == chain && chain[..0] == [];
      KeptSelf(pages, chain[..0]);
      ghost var i: nat := 0;
      while nOvfl > 0
        invariant i + nOvfl == |chain| && freed == chain[..i] && ovflPgno == (if i < |chain| then chain[i] else 0)
                  && rc.OK?
        invariant Setting() && (autoVacuum ==> MapTrue(pages, lim.usable, ptrmap, used, ovflPgno))
        invariant Linked(pages, lim.usable, chain[i..]) && (forall p | p in chain[i..] :: p in used)
        invariant used == old(used) - (set p | p in chain[..i])
        invariant Kept(old(pages), pages, chain[..i])
      {
        nOvfl := nOvfl - 1;
        var iNext := 0;
        assert chain[i..][0] == chain[i] && chain[i] in chain[i..];
        LinkAt(pages, lim.usable, chain[i..], 0);
        if ovflPgno < 2 || ovflPgno > nPage {
          assert false;
          rc := CORRUPT;
          return;
        }
        if nOvfl > 0 { iNext := GetOverflowPage(ovflPgno, ovflPgno); }
        ghost var pages0 := pages;
        FreeFirst(ovflPgno, chain[i..]);
        assert chain[i..][1..] == chain[i + 1..] && chain[..i + 1] == chain[..i] + [chain[i]];
        KeptOneMore(old(pages), pages0, pages, chain[..i], ovflPgno);
        freed := freed + [ovflPgno];
        ovflPgno := iNext;
        i := i + 1;
      }
      assert chain[..i] == chain;
    }
  }

  predicate Prefix(a: seq<nat>, chain: seq<nat>, m: nat) {
    && m <= |chain| == |a| && (forall i | 0 <= i < m :: a[i] == chain[i])
    && (forall i | m <= i < |a| :: a[i] == 0)
  }

  // s with bytes in place of what it has from i on.
  function Overwritten(s: seq<byte>, i: nat, bytes: seq<byte>): (r: seq<byte>)
    requires i + |bytes| <= |s|
    ensures |r| == |s|
  {
    s[..i] + bytes + s[i + |bytes|..]
  }

  function Slices(s: seq<byte>, ranges: seq<(nat, nat)>): (r: seq<seq<byte>>)
    requires forall i | 0 <= i < |ranges| :: ranges[i].0 + ranges[i].1 <= |s|
    ensures |r| == |ranges|
  {
    seq(|ranges|, i requires 0 <= i < |ranges| => s[ranges[i].0..ranges[i].0 + ranges[i].1])
  }

  lemma OverNothing(s: seq<byte>, i: nat, none: seq<byte>)
    requires none == [] && i <= |s|
    ensures Overwritten(s, i, none) == s
  {
  }

  lemma OverMore(s: seq<byte>, i: nat, a: seq<byte>, b: seq<byte>)
    requires i + |a| + |b| <= |s|
    ensures Overwritten(Overwritten(s, i, a), i + |a|, b) == Overwritten(s, i, a + b)
  {
  }

  lemma LocalWrite(body: seq<byte>, n: nat, i: nat, bytes: seq<byte>)
    requires i + |bytes| <= n <= |body|
    ensures Overwritten(body, i, bytes)[..n] == Overwritten(body[..n], i, bytes)
    ensures n + 4 <= |body| ==> Get4(Overwritten(body, i, bytes), n) == Get4(body, n)
  {
  }

  lemma OverSize(s: seq<byte>, i: nat, bytes: seq<byte>)
    requires i + |bytes| <= |s|
    ensures |Overwritten(s, i, bytes)| == |s|
  {
  }

  lemma OverTail(head: seq<byte>, tail: seq<byte>, o: nat, bytes: seq<byte>)
    requires o + |bytes| <= |tail|
    ensures head + Overwritten(tail, o, bytes) == Overwritten(head + tail, |head| + o, bytes)
  {
  }

  lemma OverHead(head: seq<byte>, tail: seq<byte>, i: nat, bytes: seq<byte>)
    requires i + |bytes| <= |head|
    ensures Overwritten(head, i, bytes) + tail == Overwritten(head + tail, i, bytes)
  {
  }

  lemma OverBoth(head: seq<byte>, tail: seq<byte>, i: nat, a: seq<byte>, b: seq<byte>)
    requires i + |a| == |head| && |b| <= |tail|
    ensures Overwritten(head, i, a) + Overwritten(tail, 0, b) == Overwritten(head + tail, i, a + b)
  {
  }

  // Writing over two sequences one after the other is writing over both.
  lemma WriteSplit(head: seq<byte>, tail: seq<byte>, n: nat, start: nat, bytes: seq<byte>, a: nat, o: nat)
    requires start + |bytes| <= n <= |head| + |tail| && a <= |bytes|
    requires if start < |head| then o == 0 && a == (if start + |bytes| > |head| then |head| - start else |bytes|)
             else a == 0 && o == start - |head|
    ensures start < |head| ==> start + a <= |head|
    ensures a < |bytes| ==> o + |bytes| - a <= |tail|
    ensures var head' := if start < |head| then Overwritten(head, start, bytes[..a]) else head;
            var tail' := if a < |bytes| then Overwritten(tail, o, bytes[a..]) else tail;
            (head' + tail')[..n] == Overwritten((head + tail)[..n], start, bytes)
  {
    hide Overwritten, Get4;
    LocalWrite(head + tail, n, start, bytes);
    if start < |head| { OverSize(head, start, bytes[..a]); }
    if a < |bytes| { OverSize(tail, o, bytes[a..]); }
    OverSize(head + tail, start, bytes);
    OverSize((head + tail)[..n], start, bytes);
    if start >= |head| && bytes == [] {
      OverNothing(head + tail, start, bytes);
    } else if start >= |head| {
      OverTail(head, tail, o, bytes);
      assert bytes[0..] == bytes;
    } else if a == |bytes| {
      assert bytes[..a] == bytes;
      OverHead(head, tail, start, bytes);
    } else {
      OverBoth(head, tail, start, bytes[..a], bytes[a..]);
      assert bytes[..a] + bytes[a..] == bytes;
    }
  }

  // Page at / s of the chain, on which byte at of its bytes is, is open elsewhere.
  ghost predicate Open(chain: seq<nat>, busy: set<nat>, s: int, at: int) {
    s > 0 && 0 <= at && at / s < |chain| && chain[at / s] in busy
  }

  // None of n bytes from byte at on, of those that are on the chain, is on a page that is open elsewhere.
  ghost predicate Quiet(chain: seq<nat>, busy: set<nat>, s: int, at: int, n: nat) {
    forall t: nat | at <= t < at + n :: !Open(chain, busy, s, t)
  }

  lemma QuietNone(chain: seq<nat>, busy: set<nat>, s: int, at: int)
    ensures Quiet(chain, busy, s, at, 0)
  {
  }

  lemma QuietBefore(chain: seq<nat>, busy: set<nat>, s: int, at: int, n: nat)
    requires at + n <= 0 || n == 0
    ensures Quiet(chain, busy, s, at, n)
  {
  }

  lemma QuietJoin(chain: seq<nat>, busy: set<nat>, s: int, at: int, n: nat, m: nat)
    requires Quiet(chain, busy, s, at, n) && Quiet(chain, busy, s, at + n, m)
    ensures Quiet(chain, busy, s, at, n + m)
  {
  }

  // a more bytes, all on page i.
  lemma QuietMore(chain: seq<nat>, busy: set<nat>, s: nat, base: nat, n: nat, i: nat, offset: nat, a: nat)
    requires Quiet(chain, busy, s, base, n) && s > 0 && i < |chain| && base + n == Times(i, s) + offset
    requires offset + a <= s && 0 < a
    ensures if chain[i] in busy then Open(chain, busy, s, base + n) else Quiet(chain, busy, s, base, n + a)
  {
    forall t: nat | base + n <= t < base + n + a ensures t / s == i { OnPage(t, i, s); }
    assert (base + n) / s == i;
  }

  lemma OnPage(t: nat, i: nat, s: nat)
    requires s > 0 && Times(i, s) <= t < Times(i, s) + s
    ensures t / s == i
  {
    DivMod(t, s);
    if t / s < i { MulAtMost(t / s + 1, i, s); }
    if t / s > i { MulAtMost(i + 1, t / s, s); }
  }

  lemma NextTimes(k: nat, s: int)
    ensures Times(k + 1, s) == Times(k, s) + s
  {
  }

  // While bytes remain to be written there is another page.
  lemma MorePages(pages: Pages, u: nat, chain: seq<nat>, i: nat, offset: nat, amt: nat, tail0: seq<byte>, base: nat,
                  src: seq<byte>)
    requires u > 4 && AllHas(pages, u, chain) && 0 < amt && Times(i, u - 4) + offset + amt == base + |src| <= |tail0|
    requires |Tail(pages, u, chain)| == |tail0|
    ensures i < |chain|
  {
    TailLength(pages, u, chain);
    if i >= |chain| { MulAtMost(|chain|, i, u - 4); }
  }

  // Writing on one page of a chain writes over its bytes.
  lemma FillAt(pages: Pages, u: nat, chain: seq<nat>, i: nat, at: nat, bytes: seq<byte>)
    requires Linked(pages, u, chain) && i < |chain| && at + |bytes| <= u - 4 && Has(pages, u, chain[i])
             && AllHas(pages, u, chain)
    ensures var pages' := Filled(pages, u, chain[i], at, bytes);
            Linked(pages', u, chain) && AllHas(pages', u, chain)
            && 0 <= Times(i, u - 4) && Times(i, u - 4) + at + |bytes| <= |Tail(pages, u, chain)|
            && Tail(pages', u, chain) == Overwritten(Tail(pages, u, chain), Times(i, u - 4) + at, bytes)
  {
    hide Linked, Filled, Piece, Tail, Overwritten, AllHas;
    LinkAt(pages, u, chain, i);
    var pages' := Filled(pages, u, chain[i], at, bytes);
    FillKeeps(pages, u, chain, chain[i], at, bytes);
    FillPiece(pages, u, chain[i], at, bytes);
    TailParts(pages, u, chain, i);
    FillOthers(pages, u, chain, i, at, bytes);
    LinkAt(pages', u, chain, 0);
    TailParts(pages', u, chain, i);
    TailLength(pages, u, chain[..i]);
    Spliced(Tail(pages, u, chain[..i]), Piece(pages, u, chain[i]), Tail(pages, u, chain[i + 1..]), at, bytes);
  }

  lemma FillOthers(pages: Pages, u: nat, chain: seq<nat>, i: nat, at: nat, bytes: seq<byte>)
    requires Linked(pages, u, chain) && i < |chain| && at + |bytes| <= u - 4 && Has(pages, u, chain[i])
    requires AllHas(pages, u, chain[..i]) && AllHas(pages, u, chain[i + 1..])
    ensures var pages' := Filled(pages, u, chain[i], at, bytes);
            AllHas(pages', u, chain[..i]) && Tail(pages', u, chain[..i]) == Tail(pages, u, chain[..i])
            && AllHas(pages', u, chain[i + 1..]) && Tail(pages', u, chain[i + 1..]) == Tail(pages, u, chain[i + 1..])
  {
    hide Get4, Piece;
    var pages' := Filled(pages, u, chain[i], at, bytes);
    assert forall j | 0 <= j < |chain| && j != i :: chain[j] != chain[i];
    var rest := chain[i + 1..];
    assert forall j | 0 <= j < |rest| :: rest[j] != chain[i];
    TailAgree(pages, pages', u, chain[..i]);
    TailAgree(pages, pages', u, chain[i + 1..]);
  }

  lemma Spliced(a: seq<byte>, b: seq<byte>, c: seq<byte>, at: nat, bytes: seq<byte>)
    requires at + |bytes| <= |b|
    ensures a + (b[..at] + bytes + b[at + |bytes|..] + c) == Overwritten(a + (b + c), |a| + at, bytes)
  {
  }

  lemma TailParts(pages: Pages, u: nat, chain: seq<nat>, i: nat)
    requires u >= 4 && AllHas(pages, u, chain) && i < |chain|
    ensures AllHas(pages, u, chain[..i]) && AllHas(pages, u, chain[i + 1..]) && Has(pages, u, chain[i])
    ensures Tail(pages, u, chain) == Tail(pages, u, chain[..i])
            + (Piece(pages, u, chain[i]) + Tail(pages, u, chain[i + 1..]))
  {
    assert chain == chain[..i] + chain[i..];
    AllHasConcat(pages, u, chain[..i], chain[i..]);
    TailConcat(pages, u, chain[..i], chain[i..]);
    TailStep(pages, u, chain, i);
  }

  // One more run of src is written.
  lemma Overwrote(pages: Pages, u: nat, chain: seq<nat>, i: nat, at: nat, tail0: seq<byte>, base: nat, src: seq<byte>,
                  done: nat, a: nat)
    requires Linked(pages, u, chain) && AllHas(pages, u, chain) && i < |chain| && Has(pages, u, chain[i])
             && at + a <= u - 4
    requires done + a <= |src| && base + |src| <= |tail0| && Times(i, u - 4) + at == base + done
    requires Tail(pages, u, chain) == Overwritten(tail0, base, src[..done])
    ensures var pages' := Filled(pages, u, chain[i], at, src[done..done + a]);
            Linked(pages', u, chain) && AllHas(pages', u, chain)
                && Tail(pages', u, chain) == Overwritten(tail0, base, src[..done + a])
  {
    hide Linked, Tail, Overwritten, Filled, Times;
    FillAt(pages, u, chain, i, at, src[done..done + a]);
    OverMore(tail0, base, src[..done], src[done..done + a]);
    assert src[..done] + src[done..done + a] == src[..done + a];
  }

  lemma KeptOneMore(a: Pages, b: Pages, c: Pages, s: seq<nat>, p: nat)
    requires Kept(a, b, s) && Kept(b, c, [p])
    ensures Kept(a, c, s + [p])
  {
  }

  lemma TakenBack(used: set<nat>, chain: seq<nat>, grants: seq<nat>)
    requires |chain| <= |grants| && chain == grants[..|chain|] && forall i | 0 <= i < |grants| :: grants[i] !in used
    ensures used + (set p | p in chain) - (set p | p in chain) == used
  {
  }

  lemma LocalIs(lim: Limits, nPayload: nat)
    requires lim.Ok()
    ensures Local(lim, nPayload) <= nPayload && (nPayload <= lim.maxLocal ==> Local(lim, nPayload) == nPayload)
  {
  }

  // Past the end of a chain there are no bytes.
  lemma LastTail(pages: Pages, u: nat, chain: seq<nat>, i: nat)
    requires u >= 4 && AllHas(pages, u, chain) && i < |chain|
    ensures AllHas(pages, u, chain[i + 1..]) && (i + 1 == |chain| ==> Tail(pages, u, chain[i + 1..]) == [])
  {
  }

  lemma LinkAt(pages: Pages, u: nat, chain: seq<nat>, i: nat)
    requires Linked(pages, u, chain) && i <= |chain|
    ensures AllHas(pages, u, chain) && (i == |chain| ==>
              AllHas(pages, u, chain[i..]) && Tail(pages, u, chain[i..]) == [])
    ensures i < |chain| ==>
              Has(pages, u, chain[i]) && u >= 4 && chain[i] != 0
              && Get4(pages[chain[i]], 0) == Next(chain, i)
  {
  }

  // buf is the beginning of want and the rest of want is the next amt bytes of tail from offset on.
  ghost predicate Progress(want: seq<byte>, buf: seq<byte>, tail: seq<byte>, offset: nat, amt: nat) {
    |buf| + amt == |want| && offset + amt <= |tail| && buf == want[..|buf|]
        && want[|buf|..] == tail[offset..offset + amt]
  }

  lemma Begin(want: seq<byte>, tail: seq<byte>, offset: nat, amt: nat)
    requires offset + amt <= |tail| && want == tail[offset..offset + amt]
    ensures Progress(want, [], tail, offset, amt)
  {
  }

  lemma Skip(want: seq<byte>, buf: seq<byte>, piece: seq<byte>, rest: seq<byte>, offset: nat, amt: nat)
    requires Progress(want, buf, piece + rest, offset, amt) && |piece| <= offset
    ensures Progress(want, buf, rest, offset - |piece|, amt) && offset - |piece| + amt <= |rest|
  {
    assert (piece + rest)[offset..offset + amt] == rest[offset - |piece|..offset - |piece| + amt];
  }

  lemma Copy(want: seq<byte>, buf: seq<byte>, piece: seq<byte>, rest: seq<byte>, offset: nat, amt: nat, a: nat)
    requires Progress(want, buf, piece + rest, offset, amt) && offset + a <= |piece|
             && (a == amt || offset + a == |piece|) && a <= amt
    ensures Progress(want, buf + piece[offset..offset + a], rest, 0, amt - a) && amt - a <= |rest|
    ensures a == amt ==> buf + piece[offset..offset + a] == want
  {
    var todo := want[|buf|..];
    assert todo == (piece + rest)[offset..offset + amt];
    assert todo[..a] == piece[offset..offset + a];
    assert todo[a..] == rest[..amt - a];
    assert want == buf + todo;
  }

  lemma Shifted(a: seq<byte>, b: seq<byte>, i: nat, j: nat, n: nat)
    requires i + n <= |a| && j <= |b| && b[j..] == a[i..]
    ensures j + n <= |b| && b[j..j + n] == a[i..i + n]
  {
    assert b[j..j + n] == b[j..][..n] && a[i..i + n] == a[i..][..n];
  }

  lemma DivMod(x: nat, s: nat)
    requires s > 0
    ensures x == x / s * s + x % s && 0 <= x % s < s
  {
  }

  lemma QuotientBelow(x: nat, s: nat, n: nat)
    requires s > 0 && x < n * s
    ensures 0 <= x / s < n
  {
    if x / s >= n { MulAtMost(n, x / s, s); }
  }

  // A range of a payload, split where the cell ends.
  lemma ReadSplit(head: seq<byte>, tail: seq<byte>, n: nat, start: nat, count: nat, a: nat, o: nat)
    requires start + count <= n <= |head| + |tail| && a <= count
    requires if start < |head| then o == 0 && a == (if start + count > |head| then |head| - start else count)
             else a == 0 && o == start - |head|
    ensures (head + tail)[..n][start..start + count] == (if start < |head| then head[start..start + a] else [])
              + (if a < count then tail[o..o + (count - a)] else [])
  {
    if start < |head| {
      assert (head + tail)[start..start + count] == head[start..start + a] + tail[..count - a];
    } else {
      assert (head + tail)[start..start + count] == tail[o..o + count];
    }
  }

  // The page a byte of the chain is on.
  lemma PageOf(pages: Pages, u: nat, chain: seq<nat>, start: nat)
    requires u > 4 && Linked(pages, u, chain) && start < |Tail(pages, u, chain)|
    ensures 0 <= start / (u - 4) < |chain|
  {
    assert AllHas(pages, u, chain);
    hide Tail, Linked;
    TailLength(pages, u, chain);
    QuotientBelow(start, u - 4, |chain|);
  }

  // Starting at page i of the chain, or at the first, the bytes wanted are the same.
  lemma SeekTo(pages: Pages, u: nat, chain: seq<nat>, start: nat, i: nat, offset: nat)
    requires u > 4 && Linked(pages, u, chain) && start < |Tail(pages, u, chain)|
    requires (i == 0 && offset == start) || (i == start / (u - 4) && offset == start % (u - 4))
    ensures i < |chain| && AllHas(pages, u, chain[i..])
    ensures offset < |Tail(pages, u, chain[i..])|
            && Tail(pages, u, chain[i..])[offset..] == Tail(pages, u, chain)[start..]
  {
    hide Linked, Tail, Get4;
    LinkAt(pages, u, chain, 0);
    TailLength(pages, u, chain);
    if i == 0 {
      assert chain[0..] == chain;
      if chain == [] { NoTail(pages, u, chain); }
    } else {
      PageOf(pages, u, chain, start);
      DivMod(start, u - 4);
      TailDrop(pages, u, chain, i);
    }
  }

  // Only pages of the chain changed, and none changed its size.
  ghost predicate Kept(pages: Pages, pages': Pages, chain: seq<nat>) {
    pages'.Keys == pages.Keys && forall q | q in pages ::
        |pages'[q]| == |pages[q]| && (q in chain || pages'[q] == pages[q])
  }

  lemma LastZero(pages: Pages, u: nat, chain: seq<nat>)
    requires Linked(pages, u, chain)
    ensures Last(chain) == 0 <==> chain == []
    ensures chain != [] ==>
              Last(chain) == chain[|chain| - 1] && Last(chain) in chain && Has(pages, u, Last(chain))
              && u >= 4 && Get4(pages[Last(chain)], 0) == 0
  {
    assert chain != [] ==> Has(pages, u, chain[|chain| - 1]);
  }

  lemma FirstSet(body: seq<byte>, n: nat, p: nat)
    requires |body| == n + 4 && p < 0x1_0000_0000
    ensures Get4(Put4(body, n, p), n) == p && Put4(body, n, p)[..n] == body[..n]
  {
    Get4Put4(body, n, p);
  }

  lemma NoTail(pages: Pages, u: nat, chain: seq<nat>)
    requires u >= 4 && chain == []
    ensures AllHas(pages, u, chain) && Tail(pages, u, chain) == []
  {
  }

  lemma MapExtend(pages: Pages, u: nat, ptrmap: map<nat, Entry>, used: set<nat>, chain: seq<nat>, p: nat)
    requires Linked(pages, u, chain) && MapTrue(pages, u, ptrmap, used, 0) && 0 !in used
             && (forall q | q in chain :: q in used)
    requires Has(pages, u, p) && 0 < p < 0x1_0000_0000 && p !in used
             && (Last(chain) != 0 ==> Has(pages, u, Last(chain)))
    ensures var e := Entry(if Last(chain) != 0 then OVERFLOW2 else OVERFLOW1, Last(chain));
            MapTrue(Extended(pages, u, Last(chain), p), u, ptrmap[p := e], used + {p}, 0)
  {
    hide Get4, Put4, Linked;
    LastZero(pages, u, chain);
    var last := Last(chain);
    if last != 0 { Get4Put4(pages[last], 0, p); }
    forall q | q in ptrmap && q != p && q != 0 && ptrmap[q].kind == OVERFLOW2 ensures ptrmap[q].parent != last {
      assert q in used;
    }
  }

  lemma ExtendKept(pages: Pages, u: nat, chain: seq<nat>, p: nat)
    requires Linked(pages, u, chain) && Has(pages, u, p) && p < 0x1_0000_0000
             && (Last(chain) != 0 ==> Has(pages, u, Last(chain)))
    ensures Kept(pages, Extended(pages, u, Last(chain), p), chain + [p])
  {
    hide Get4, Put4;
    LastZero(pages, u, chain);
    var pages' := Extended(pages, u, Last(chain), p);
    forall q | q in pages && q !in chain + [p] ensures pages'[q] == pages[q] {
      assert p in chain + [p];
      assert Last(chain) in chain ==> Last(chain) in chain + [p];
    }
  }

  lemma FillMap(pages: Pages, u: nat, ptrmap: map<nat, Entry>, used: set<nat>, p: nat, at: nat, bytes: seq<byte>)
    requires u >= 4 && Has(pages, u, p) && at + |bytes| <= u - 4
    ensures MapTrue(pages, u, ptrmap, used, 0) ==> MapTrue(Filled(pages, u, p, at, bytes), u, ptrmap, used, 0)
  {
  }

  lemma FillKept(pages: Pages, u: nat, chain: seq<nat>, p: nat, at: nat, bytes: seq<byte>)
    requires u >= 4 && Has(pages, u, p) && at + |bytes| <= u - 4 && p in chain
    ensures Kept(pages, Filled(pages, u, p, at, bytes), chain)
  {
  }

  // One run of bytes replaced in a sequence.
  predicate Replaced(was: seq<byte>, now: seq<byte>, i: int, bytes: seq<byte>) {
    0 <= i && i + |bytes| <= |was| && now == was[..i] + bytes + was[i + |bytes|..]
  }

  lemma LinkedHas(pages: Pages, u: nat, chain: seq<nat>)
    requires Linked(pages, u, chain)
    ensures u >= 4 && AllHas(pages, u, chain)
  {
  }

  lemma FillTails(pages: Pages, u: nat, init: seq<nat>, p: nat, at: nat, bytes: seq<byte>, local: seq<byte>)
    requires Linked(pages, u, init + [p]) && at + |bytes| <= u - 4 && Has(pages, u, p)
    ensures AllHas(pages, u, init + [p]) && AllHas(Filled(pages, u, p, at, bytes), u, init + [p])
    ensures var was := local + Tail(pages, u, init + [p]);
            Replaced(was, local + Tail(Filled(pages, u, p, at, bytes), u, init + [p]), |was| - (u - 4) + at, bytes)
  {
    hide Linked, Filled, Piece, Tail, AllHas, Replaced, Has;
    FillLinked(pages, u, init, p, at, bytes);
    var pages' := Filled(pages, u, p, at, bytes);
    LinkedHas(pages', u, init + [p]);
    LinkedHas(pages, u, init + [p]);
    TailLast(pages, u, init, p);
    TailLast(pages', u, init, p);
    PieceLength(pages, u, p);
    Splice(local, Tail(pages, u, init), Piece(pages, u, p), at, bytes);
  }

  lemma PieceSlice(pages: Pages, u: nat, p: nat, offset: nat, a: nat)
    requires u >= 4 && Has(pages, u, p) && offset + a <= u - 4
    ensures pages[p][offset + 4..offset + 4 + a] == Piece(pages, u, p)[offset..offset + a]
  {
    var x, y := pages[p][offset + 4..offset + 4 + a], Piece(pages, u, p)[offset..offset + a];
    forall j | 0 <= j < a ensures x[j] == y[j] { assert y[j] == pages[p][4..u][offset + j]; }
  }

  lemma PieceLength(pages: Pages, u: nat, p: nat)
    requires u >= 4 && Has(pages, u, p)
    ensures |Piece(pages, u, p)| == u - 4
  {
  }

  lemma TailLast(pages: Pages, u: nat, init: seq<nat>, p: nat)
    requires u >= 4 && AllHas(pages, u, init + [p])
    ensures AllHas(pages, u, init) && Has(pages, u, p)
            && Tail(pages, u, init + [p]) == Tail(pages, u, init) + Piece(pages, u, p)
  {
    hide Tail, Piece;
    AllHasConcat(pages, u, init, [p]);
    assert [p][0] == p;
    TailConcat(pages, u, init, [p]);
    TailOne(pages, u, p);
  }

  lemma Splice(a: seq<byte>, b: seq<byte>, c: seq<byte>, at: nat, bytes: seq<byte>)
    requires at + |bytes| <= |c|
    ensures var was := a + (b + c);
            Replaced(was, a + (b + (c[..at] + bytes + c[at + |bytes|..])), |was| - |c| + at, bytes)
  {
  }

  // ---------- spilling ----------

  // The first done bytes of full are those of want, and spaceLeft follow.
  ghost predicate Matches(want: seq<byte>, full: seq<byte>, done: nat, spaceLeft: nat) {
    |full| == done + spaceLeft && done <= |want| && full[..done] == want[..done]
  }

  ghost predicate Distinct(grants: seq<nat>) { forall i, j | 0 <= i < j < |grants| :: grants[i] != grants[j] }

  // No ordinary page lies beyond the end of the file and before p.
  ghost predicate NoneBetween(l: Layout, nPage: nat, p: nat) { forall q: nat | nPage < q < p :: !Ordinary(l, q) }

  // The file has grown from n to m pages, the last of which is in the chain.
  ghost predicate Grown(n: nat, m: nat, chain: seq<nat>) { m == n || (n < m && m in chain) }

  function Max(a: nat, b: nat): nat { if a < b then b else a }

  // Grants not yet taken are free pages, or extend the file without a gap.
  ghost predicate Spare(l: Layout, pages: Pages, u: nat, nPage: nat, used: set<nat>, grants: seq<nat>, k: nat) {
    && (forall i | k <= i < |grants| :: Has(pages, u, grants[i]) && 2 <= grants[i] < 0x1_0000_0000
         && grants[i] !in used)
    && forall i, q: nat | k <= i < |grants| && nPage < q < grants[i] && Ordinary(l, q) :: q in grants[k..i]
  }

  lemma SpareAt(l: Layout, pages: Pages, u: nat, nPage: nat, used: set<nat>, grants: seq<nat>, k: nat)
    requires Spare(l, pages, u, nPage, used, grants, k) && k < |grants|
    ensures Has(pages, u, grants[k]) && 2 <= grants[k] < 0x1_0000_0000 && grants[k] !in used
            && NoneBetween(l, nPage, grants[k])
  {
    hide Ordinary;
    forall q: nat | nPage < q < grants[k] ensures !Ordinary(l, q) { assert q !in grants[k..k]; }
  }

  lemma SpareKept(l: Layout, pages: Pages, pages': Pages, u: nat, n: nat, used: set<nat>, grants: seq<nat>,
                  chain: seq<nat>)
    requires Kept(pages, pages', chain)
    ensures forall k: nat | Spare(l, pages, u, n, used, grants, k) :: Spare(l, pages', u, n, used, grants, k)
  {
    hide Ordinary;
  }

  lemma SpareLess(l: Layout, pages: Pages, u: nat, nPage: nat, used: set<nat>, grants: seq<nat>, k: nat)
    requires Spare(l, pages, u, nPage, used, grants, k) && k < |grants| && Distinct(grants)
    ensures Spare(l, pages, u, Max(nPage, grants[k]), used + {grants[k]}, grants, k + 1)
  {
    hide Ordinary;
    var p := grants[k];
    forall i, q: nat | k + 1 <= i < |grants| && Max(nPage, p) < q < grants[i]
        && Ordinary(l, q) ensures q in grants[k + 1..i] {
      assert q in grants[k..i] && grants[k..i] == [p] + grants[k + 1..i];
    }
  }

  lemma MatchSize(want: seq<byte>, full: seq<byte>, done: nat, spaceLeft: nat)
    requires Matches(want, full, done, spaceLeft)
    ensures |full| == done + spaceLeft
  {
  }

  lemma Wrote(want: seq<byte>, was: seq<byte>, now: seq<byte>, done: nat, spaceLeft: nat, chunk: seq<byte>)
    requires Matches(want, was, done, spaceLeft) && |chunk| <= spaceLeft && Replaced(was, now, done, chunk)
    requires done + |chunk| <= |want| && chunk == want[done..done + |chunk|]
    ensures Matches(want, now, done + |chunk|, spaceLeft - |chunk|)
  {
    assert want[..done + |chunk|] == want[..done] + chunk;
    assert now[..done + |chunk|] == was[..done] + chunk;
  }

  lemma MoreRoom(want: seq<byte>, was: seq<byte>, piece: seq<byte>, done: nat)
    requires Matches(want, was, done, 0)
    ensures Matches(want, was + piece, done, |piece|)
  {
    assert (was + piece)[..done] == was[..done];
  }

  lemma SamePointer(body: seq<byte>, body': seq<byte>, n: nat)
    requires |body| == |body'| == n + 4 && body'[n..] == body[n..]
    ensures Get4(body', n) == Get4(body, n)
  {
    assert forall j | 0 <= j < 4 :: body'[n + j] == body'[n..][j] && body[n + j] == body[n..][j];
  }

  lemma Assoc(a: seq<byte>, b: seq<byte>, c: seq<byte>)
    ensures a + (b + c) == a + b + c
  {
  }

  lemma TakePrefix(a: seq<byte>, b: seq<byte>)
    requires a <= b
    ensures b[..|a|] == a
  {
  }

  lemma ZerosLength(n: nat)
    ensures |Zeros(n)| == n
  {
  }

  lemma ChunkIs(data: seq<byte>, nZero: nat, done: nat, n: nat, chunk: seq<byte>)
    requires done + n <= |data| + nZero
    requires if done + n <= |data| then chunk == data[done..done + n] else done >= |data| && chunk == Zeros(n)
    ensures |data + Zeros(nZero)| == |data| + nZero && |chunk| == n && chunk == (data + Zeros(nZero))[done..done + n]
  {
  }

  lemma KeptMore(a: Pages, b: Pages, c: Pages, chain: seq<nat>, grants: seq<nat>)
    requires Kept(a, b, grants) && Kept(b, c, chain) && |chain| <= |grants| && chain == grants[..|chain|]
    ensures Kept(a, c, grants)
  {
  }

  lemma KeptWider(a: Pages, b: Pages, chain: seq<nat>, grants: seq<nat>)
    requires Kept(a, b, chain) && |chain| <= |grants| && chain == grants[..|chain|]
    ensures Kept(a, b, grants)
  {
  }

  lemma KeptSelf(a: Pages, grants: seq<nat>)
    ensures Kept(a, a, grants)
  {
  }

  lemma KeptTwice(a: Pages, b: Pages, c: Pages, grants: seq<nat>)
    requires Kept(a, b, grants) && Kept(b, c, grants)
    ensures Kept(a, c, grants)
  {
  }

  lemma LocalSpills(lim: Limits, nPayload: nat)
    requires lim.Ok() && nPayload > lim.maxLocal
    ensures 0 < Local(lim, nPayload) < nPayload
  {
  }

  lemma RightCount(lim: Limits, nPayload: nat, nLocal: nat, k: nat, spaceLeft: nat, n: nat)
    requires lim.Ok() && nPayload > lim.maxLocal && nLocal == Local(lim, nPayload) && n > 0
    requires nPayload + spaceLeft == nLocal + Times(k, lim.usable - 4)
             && spaceLeft + n <= (if k == 0 then nLocal else lim.usable - 4)
    ensures k == NumPages(lim, nPayload) && k > 0
  {
    LocalSpills(lim, nPayload);
    hide Local, NumPages;
    OnePageLess(k, lim.usable - 4);
    PagesFit(lim, nPayload, k);
  }

  lemma MatchesAll(want: seq<byte>, full: seq<byte>, spaceLeft: nat)
    requires Matches(want, full, |want|, spaceLeft)
    ensures want <= full && full[..|want|] == want
  {
    assert want[..|want|] == want;
  }

  lemma OnePageLess(k: nat, s: int)
    ensures (k - 1) * s == k * s - s
  {
  }

  // ---------- freeing ----------

  // Freeing the first page of a chain leaves every entry true but that of the next page.
  lemma MapFree(pages: Pages, pages': Pages, u: nat, ptrmap: map<nat, Entry>, used: set<nat>, chain: seq<nat>)
    requires Linked(pages, u, chain) && chain != [] && MapTrue(pages, u, ptrmap, used, chain[0]) && 0 !in used
    requires pages'.Keys == pages.Keys && forall q | q in pages && q != chain[0] :: pages'[q] == pages[q]
    ensures MapTrue(pages', u, ptrmap[chain[0] := Entry(FREEPAGE, 0)], used - {chain[0]}, Next(chain, 0))
  {
    hide Get4, Linked;
    LinkAt(pages, u, chain, 0);
  }

  lemma MapWeaker(pages: Pages, u: nat, ptrmap: map<nat, Entry>, used: set<nat>, x: nat)
    requires MapTrue(pages, u, ptrmap, used, 0)
    ensures MapTrue(pages, u, ptrmap, used, x)
  {
  }

  lemma LinkedRest(pages: Pages, pages': Pages, u: nat, chain: seq<nat>)
    requires Linked(pages, u, chain) && chain != []
    requires pages'.Keys == pages.Keys && forall q | q in pages && q != chain[0] :: pages'[q] == pages[q]
    ensures Linked(pages', u, chain[1..]) && chain[0] !in chain[1..]
  {
    hide Get4;
    var rest := chain[1..];
    forall i | 0 <= i < |rest|
      ensures Has(pages', u, rest[i]) && rest[i] != 0 && Get4(pages'[rest[i]], 0) == Next(rest, i)
    {
      assert rest[i] == chain[i + 1] && Has(pages, u, chain[i + 1]);
    }
  }
}
