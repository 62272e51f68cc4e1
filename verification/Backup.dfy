/** Online backup: pages are copied a few at a time while the source goes on changing. Source and
    destination have the same page size. */
module Backup {
  import Common

  datatype Code = OK | BUSY | LOCKED | IOERR | DONE

  /** isFatalError */
  predicate Fatal(rc: Code) { rc != OK && rc != BUSY && rc != LOCKED }

  // An answer after which the step may be tried again.
  predicate Retry(rc: Code) { rc == BUSY || rc == LOCKED }

  type Page = s: seq<Common.byte> | |s| >= 100 witness seq(100, _ => 0)

  // Page p of a database of pages 1..|src|.
  function At(src: seq<Page>, p: nat): Page
    requires 1 <= p <= |src|
  {
    src[p - 1]
  }

  // Bytes of page 1 that need not agree: the size field, and once the header has been stamped for
  // completion the file format and the schema version too.
  predicate Header(stamped: bool, i: nat) { 28 <= i < 32 || (stamped && (18 <= i < 20 || 40 <= i < 44)) }

  predicate Agree(p: nat, a: Page, b: Page, stamped: bool) {
    |a| == |b| && forall i | 0 <= i < |a| && !(p == 1 && Header(stamped, i)) :: a[i] == b[i]
  }

  /** Every page already passed is in the destination. */
  ghost predicate Copied(dest: map<nat, Page>, src: seq<Page>, pending: nat, iNext: nat, stamped: bool) {
    forall p | 1 <= p < iNext && p <= |src| && p != pending :: p in dest && Agree(p, dest[p], At(src, p), stamped)
  }

  lemma CopiedShorter(dest: map<nat, Page>, src: seq<Page>, pending: nat, iNext: nat, stamped: bool, n: nat)
    requires Copied(dest, src, pending, iNext, stamped) && n <= |src|
    ensures Copied(dest, src[..n], pending, iNext, stamped)
  {
    hide Agree;
  }

  // One page further: p is there, or it is passed over.
  lemma CopiedNext(dest: map<nat, Page>, src: seq<Page>, pending: nat, p: nat, stamped: bool)
    requires Copied(dest, src, pending, p, stamped) && 1 <= p <= |src|
    ensures Copied(dest, src, pending, p + 1, stamped) <==>
              p == pending
              || (p in dest && Agree(p, dest[p], At(src, p), stamped))
    ensures p != pending ==> forall d: Page | Agree(p, d, At(src, p), false) ::
              Copied(dest[p := d], src, pending, p + 1, stamped)
  {
  }

  // A complete copy: the source's pages and no others, page 1 with its own header fields.
  ghost predicate Whole(dest: map<nat, Page>, pending: nat, src: seq<Page>, newDb: Page) {
    if |src| == 0 then dest.Keys == {1} && Agree(1, dest[1], newDb, true)
    else (forall p | p in dest :: 1 <= p <= |src|) && Copied(dest, src, pending, |src| + 1, true)
  }

  function PutSize(a: Page, n: nat): (r: Page)
    requires n < 0x1_0000_0000
    ensures |r| == |a|
  {
    Common.Put4(a, 28, n)
  }

  // The header of a finished copy: a new schema version, and the format of a write-ahead-log database.
  function Stamp(a: Page, schema: nat, wal: bool): (r: Page)
    requires schema < 0x1_0000_0000
    ensures |r| == |a| && forall i | 0 <= i < |a| && !Header(true, i) :: r[i] == a[i]
  {
    var s := Common.Put4(a, 40, schema);
    if wal then s[18 := 2][19 := 2] else s
  }

  lemma Stamped(a: Page, schema: nat, wal: bool)
    requires schema < 0x1_0000_0000
    ensures Common.Get4(Stamp(a, schema, wal), 40) == schema
    ensures if wal then Stamp(a, schema, wal)[18] == Stamp(a, schema, wal)[19] == 2
            else Stamp(a, schema, wal)[18..20] == a[18..20]
  {
    Common.Get4Put4(a, 40, schema);
  }

  lemma StampAgrees(a: Page, schema: nat, wal: bool)
    requires schema < 0x1_0000_0000
    ensures Agree(1, Stamp(a, schema, wal), a, true)
  {
  }

  lemma EmptyWhole(dest: map<nat, Page>, dest': map<nat, Page>, src: seq<Page>, pending: nat, iNext: nat, stamped: bool,
                   newDb: Page)
    requires src == [] && dest'.Keys == {1} && Agree(1, dest'[1], newDb, true)
    ensures Copied(dest', src, pending, iNext, true) && Whole(dest', pending, src, newDb)
  {
    hide Agree;
  }

  // Page 1 has been stamped and the pages past the end dropped.
  lemma CutAgrees(dest: map<nat, Page>, dest': map<nat, Page>, n: nat)
    requires 1 in dest && 1 in dest' && Agree(1, dest'[1], dest[1], true)
    requires forall p | p in dest' :: p in dest && (p != 1 ==> dest'[p] == dest[p])
    ensures forall p | p in dest' :: p in dest && Agree(p, dest'[p], dest[p], true)
  {
  }

  lemma CutCopied(dest: map<nat, Page>, dest': map<nat, Page>, src: seq<Page>, pending: nat, iNext: nat, stamped: bool,
                  newDb: Page)
    requires Copied(dest, src, pending, iNext, stamped) && 0 < |src| < iNext
    requires forall p | p in dest' :: 1 <= p <= |src| && p in dest && Agree(p, dest'[p], dest[p], true)
    requires forall p | p in dest && 1 <= p <= |src| :: p in dest'
    ensures Copied(dest', src, pending, iNext, true) && Whole(dest', pending, src, newDb)
  {
    forall p | 1 <= p < iNext && p <= |src| && p != pending ensures p in dest' && Agree(p, dest'[p], At(src, p), true) {
      assert p in dest && Agree(p, dest[p], At(src, p), stamped);
    }
  }

  // The source after its page p has been written, perhaps as a new last page.
  function Written(src: seq<Page>, p: nat, data: Page): seq<Page>
    requires 1 <= p <= |src| + 1
  {
    if p <= |src| then src[p - 1 := data] else src + [data]
  }

  lemma WrittenSize(src: seq<Page>, p: nat, data: Page)
    requires 1 <= p <= |src| + 1
    ensures |src| <= |Written(src, p, data)| <= |src| + 1
  {
  }

  // ---------- how far one step gets ----------

  // The page where copying stops if no page is refused.
  function End(iNext: nat, count: int, n: nat): (e: nat)
    ensures e >= iNext
  {
    if iNext > n then iNext
    else if count < 0 || iNext + count > n then n + 1
    else iNext + count
  }

  predicate Refused(codes: map<nat, Code>, pending: nat, p: nat) { p != pending && p in codes && codes[p] != OK }

  // No page from lo to hi is refused.
  ghost predicate NoneBetween(codes: map<nat, Code>, pending: nat, lo: nat, hi: nat) {
    forall p | lo <= p <= hi && p != pending && p in codes :: codes[p] == OK
  }

  // Page q is the first one from lo on that is refused.
  ghost predicate FirstBad(codes: map<nat, Code>, pending: nat, lo: nat, q: nat) {
    && lo <= q && q != pending && q in codes && codes[q] != OK
    && forall p | lo <= p < q && p != pending && p in codes :: codes[p] == OK
  }

  // The first page from p on that a pager refuses, or end.
  function FirstRefused(codes: map<nat, Code>, pending: nat, p: nat, end: nat): (q: nat)
    requires p <= end
    ensures p <= q <= end && (q < end ==> Refused(codes, pending, q))
    ensures forall x | p <= x < q :: !Refused(codes, pending, x)
    decreases end - p
  {
    if p == end || Refused(codes, pending, p) then p else FirstRefused(codes, pending, p + 1, end)
  }

  lemma FirstRefusedIs(codes: map<nat, Code>, pending: nat, p: nat, end: nat, q: nat)
    requires p <= q <= end && (q < end ==> Refused(codes, pending, q))
    requires forall x | p <= x < q :: !Refused(codes, pending, x)
    ensures FirstRefused(codes, pending, p, end) == q
  {
  }

  lemma NoneRefused(pending: nat, p: nat, end: nat)
    requires p <= end
    ensures FirstRefused(map[], pending, p, end) == end
  {
    FirstRefusedIs(map[], pending, p, end, end);
  }

  // What the pagers answer in one step: to the locks, page by page where that is not OK, and to the commit.
  datatype Answers = Answers(lockRc: Code, codes: map<nat, Code>, commitRc: Code) {
    predicate Ok() { lockRc != DONE && commitRc != DONE && forall p | p in codes :: codes[p] != DONE }
  }

  /** A backup as a value: how far it has got, what is in the destination and whether the source reports changes. */
  datatype View = View(pending: nat, iNext: nat, rc: Code, isAttached: bool, dest: map<nat, Page>, stamped: bool) {

    // Pages have been copied but the source will not report changes to them.
    predicate Exposed() { !Fatal(rc) && iNext > 1 && !isAttached }

    // Page p is not in the destination as it is in the source.
    predicate Stale(src: seq<Page>, p: nat) {
      1 <= p <= |src| && !(p in dest && Agree(p, dest[p], At(src, p), stamped))
    }

    // The first page that would be refused, or where copying stops.
    function Reached(src: seq<Page>, count: int, codes: map<nat, Code>): (q: nat)
      ensures iNext <= q <= End(iNext, count, |src|)
    {
      FirstRefused(codes, pending, iNext, End(iNext, count, |src|))
    }

    // What a step returns.
    function Result(src: seq<Page>, count: int, a: Answers): Code {
      var q, e := Reached(src, count, a.codes), End(iNext, count, |src|);
      if Fatal(rc) then rc
      else if a.lockRc != OK then a.lockRc
      else if q < e then a.codes[q]
      else if e <= |src| then OK
      else if a.commitRc == OK then DONE
      else a.commitRc
    }

    // A step passes over a page that differs, because a pager refuses it for now.
    predicate Skips(src: seq<Page>, count: int, a: Answers) {
      var q, e := Reached(src, count, a.codes), End(iNext, count, |src|);
      !Fatal(rc) && a.lockRc == OK && q < e && Retry(a.codes[q]) && Stale(src, q)
    }

    // A step copies pages and has to be tried again although the backup is not attached to the source yet.
    predicate Deafens(src: seq<Page>, count: int, a: Answers) {
      var q, e := Reached(src, count, a.codes), End(iNext, count, |src|);
      && !Fatal(rc) && a.lockRc == OK && !isAttached
      && if q < e then Retry(a.codes[q]) else e > |src| && e > 1 && Retry(a.commitRc)
    }

    predicate Spoils(src: seq<Page>, count: int, a: Answers) { Skips(src, count, a) || Deafens(src, count, a) }

    // Nothing copied so far is out of date, and changes are reported.
    ghost predicate Right(src: seq<Page>) {
      (!Fatal(rc) ==> Copied(dest, src, pending, iNext, stamped)) && !Exposed()
    }
  }

  // Where a step that gets its locks comes to, and what it returns.
  lemma StepReads(v: View, src: seq<Page>, count: int, a: Answers)
    ensures !Fatal(v.rc) && a.lockRc != OK ==> v.Result(src, count, a) == a.lockRc
    ensures !Fatal(v.rc) && a.lockRc == OK ==>
              forall q: nat | FirstBad(a.codes, v.pending, v.iNext, q) && q <= |src|
                && (count < 0 || q < v.iNext + count) ::
                v.Reached(src, count, a.codes) == q < End(v.iNext, count, |src|)
                && v.Result(src, count, a) == a.codes[q]
    ensures !Fatal(v.rc) && a.lockRc == OK && NoneBetween(a.codes, v.pending, v.iNext, |src|) ==>
              var e := if v.iNext > |src| then v.iNext
                       else if count < 0 || v.iNext + count > |src| then |src| + 1
                       else v.iNext + count;
              && v.Reached(src, count, a.codes) == e == End(v.iNext, count, |src|)
              && v.Result(src, count, a) == if e <= |src| then OK else if a.commitRc == OK then DONE else a.commitRc
  {
    hide FirstRefused;
    var e := End(v.iNext, count, |src|);
    forall q: nat | FirstBad(a.codes, v.pending, v.iNext, q) && q <= |src| && (count < 0 || q < v.iNext + count)
      ensures v.Reached(src, count, a.codes) == q < e
    {
      FirstRefusedIs(a.codes, v.pending, v.iNext, e, q);
    }
    if NoneBetween(a.codes, v.pending, v.iNext, |src|) { FirstRefusedIs(a.codes, v.pending, v.iNext, e, e); }
  }

  class Handle {
    const pending: nat
    var iNext: nat
    var rc: Code
    var nRemaining: int
    var nPagecount: nat
    var isAttached: bool
    var dest: map<nat, Page>
    var iDestSchema: nat
    // Kept by the model: whether the header has been stamped for completion.
    var stamped: bool

    ghost predicate Shape()
      reads this
    {
      1 < pending && iNext >= 1 && iDestSchema + 1 < 0x1_0000_0000 && 1 in dest
    }

    // Nothing copied so far is out of date.
    ghost predicate Valid(src: seq<Page>)
      reads this
    {
      Shape() && (!Fatal(rc) ==> Copied(dest, src, pending, iNext, stamped))
    }

    predicate Exposed()
      reads this
    {
      V().Exposed()
    }

    // first is page 1 of the destination before the backup, as the write transaction makes it if there was none.
    constructor (pending: nat, schema: nat, first: Page)
      requires schema + 1 < 0x1_0000_0000 && 1 < pending
      ensures forall src :: Valid(src)
      ensures iNext == 1 && rc == OK && !isAttached && !Exposed() && !stamped
      ensures this.pending == pending && iDestSchema == schema && dest == map[1 := first]
    {
      this.pending, iNext, rc, nRemaining, nPagecount := pending, 1, OK, 0, 0;
      isAttached, iDestSchema, stamped := false, schema, false;
      dest := map[1 := first];
    }

    // backupOnePage; code is what the pagers answer.
    method OnePage(p: nat, data: Page, update: bool, last: nat, code: Code) returns (r: Code)
      requires last < 0x1_0000_0000
      modifies `dest
      ensures r == code
      ensures code != OK || p == pending ==> dest == old(dest)
      ensures code == OK && p != pending ==> exists d: Page :: dest == old(dest)[p := d] && Agree(p, d, data, false)
      ensures code == OK && p != pending && (update || p != 1) ==> dest == old(dest)[p := data]
      ensures code == OK && p != pending && p == 1 && !update ==> Common.Get4(dest[1], 28) == last
    {
      if code == OK && p != pending {
        var d: Page := data;
        if p == 1 && !update {
          d := PutSize(data, last);
          Common.Get4Put4(data, 28, last);
        }
        dest := dest[p := d];
        assert Agree(p, d, data, false);
      }
      return code;
    }

    lemma InShape(src: seq<Page>)
      requires Valid(src)
      ensures Shape()
    {
    }

    // A backup that is not attached and not exposed has nothing that could go out of date.
    lemma NothingYet(src: seq<Page>, now: seq<Page>)
      requires Valid(src) && !Exposed() && !isAttached
      ensures Valid(now)
    {
    }

    /** backupUpdate, for one backup: a page already copied has been written in the source. */
    method Update(p: nat, data: Page, code: Code, ghost src: seq<Page>)
      requires 1 <= p <= |src| + 1 && Valid(src) && code != BUSY && code != LOCKED && code != DONE
      modifies `dest, `rc
      ensures Valid(Written(src, p, data)) && (Exposed() ==> old(Exposed()))
      ensures V() == Updated(old(V()), p, data, code)
    {
      if !Fatal(rc) && p < iNext {
        var r := OnePage(p, data, true, 0, code);
        if r != OK { rc := r; }
      }
    }

    /** sqlite3BackupRestart, for one backup: the source may have changed in any way. */
    method Restart(ghost src: seq<Page>)
      requires Valid(src)
      modifies `iNext
      ensures iNext == 1 && !Exposed() && forall s :: Valid(s)
    {
      iNext := 1;
    }

    // Hear of a written page, if attached.
    method Hear(p: nat, data: Page, code: Code, ghost src: seq<Page>)
      requires 1 <= p <= |src| + 1 && Shape() && (code == OK || code == IOERR)
      requires isAttached ==> Valid(src) && !Exposed()
      modifies `dest, `rc
      ensures Shape() && V() == Told(old(V()), p, data, code)
      ensures old(Valid(src) && !Exposed()) ==> Valid(Written(src, p, data)) && !Exposed()
    {
      hide Written, Copied, Updated;
      if isAttached {
        Update(p, data, code, src);
      } else if Valid(src) && !Exposed() {
        NothingYet(src, Written(src, p, data));
      }
    }

    // Start over, if attached.
    method HearAll(ghost src: seq<Page>, ghost now: seq<Page>)
      requires Valid(src) && !Exposed()
      modifies `iNext
      ensures Valid(now) && !Exposed() && V() == Restarted(old(V()))
    {
      hide Copied;
      if isAttached { Restart(src); } else { NothingYet(src, now); }
    }

    function V(): View
      reads this
    {
      View(pending, iNext, rc, isAttached, dest, stamped)
    }

    predicate Stale(src: seq<Page>, p: nat)
      reads this
    {
      V().Stale(src, p)
    }

    function Reached(src: seq<Page>, count: int, codes: map<nat, Code>): (q: nat)
      reads this
      ensures iNext <= q <= End(iNext, count, |src|)
    {
      V().Reached(src, count, codes)
    }

    // Copy up to count pages, or all that are left, up to the first that is refused, which is passed over.
    method CopyPages(src: seq<Page>, count: int, codes: map<nat, Code>) returns (r: Code)
      requires |src| < 0x1_0000_0000 && !Fatal(rc) && Shape() && forall p | p in codes :: codes[p] != DONE
      modifies `dest, `iNext
      ensures Shape() && r != DONE
      ensures NoneBetween(codes, pending, old(iNext), |src|) ==>
                r == OK
                && iNext == if old(iNext) > |src| then old(iNext)
                            else if count < 0 || old(iNext) + count > |src| then |src| + 1
                            else old(iNext) + count
      ensures var q, e := old(Reached(src, count, codes)), End(old(iNext), count, |src|);
              && iNext == (if q < e then q + 1 else e) && r == (if q < e then codes[q] else OK)
              && (old(Valid(src)) ==> (Copied(dest, src, pending, iNext, stamped) <==> q == e || !old(Stale(src, q))))
              && forall p: nat | !(old(iNext) <= p < q) :: SameAt(old(dest), dest, p)
    {
      hide Copied, Agree, FirstRefused;
      r := OK;
      var ii, from := 0, iNext;
      ghost var e := End(from, count, |src|);
      while (count < 0 || ii < count) && iNext <= |src| && r == OK
        invariant 0 <= ii && (count >= 0 ==> ii <= count) && iNext == from + ii && 1 in dest && r != DONE && iNext <= e
        invariant forall p | from <= p < (if r == OK then iNext else iNext - 1) :: !Refused(codes, pending, p)
        invariant r != OK ==> ii > 0 && Refused(codes, pending, iNext - 1) && codes[iNext - 1] == r
        invariant r == OK && old(Valid(src)) ==> Copied(dest, src, pending, iNext, stamped)
        invariant r != OK && old(Valid(src)) ==>
          from + ii - 1 <= |src| && (Copied(dest, src, pending, iNext, stamped) <==> !old(Stale(src, from + ii - 1)))
        invariant forall p: nat | !(from <= p < (if r == OK then iNext else iNext - 1)) :: SameAt(old(dest), dest, p)
        decreases |src| + 1 - iNext
      {
        var p := iNext;
        if old(Valid(src)) { CopiedNext(dest, src, pending, p, stamped); }
        assert SameAt(old(dest), dest, p);
        ghost var before := dest;
        if p != pending { r := OnePage(p, At(src, p), false, |src|, if p in codes then codes[p] else OK); }
        assert dest - {p} == before - {p};
        SameNext(old(dest), before, dest, from, p);
        iNext := iNext + 1;
        ii := ii + 1;
      }
      FirstRefusedIs(codes, pending, from, e, if r == OK then iNext else iNext - 1);
    }

    ghost predicate Complete(src: seq<Page>, newDb: Page)
      reads this
    {
      Whole(dest, pending, src, newDb)
    }

    // Stamp the header, cut the destination to size and commit; newDb is page 1 of an empty database.
    method Finish(src: seq<Page>, wal: bool, newDb: Page, commitRc: Code) returns (r: Code)
      requires !Fatal(rc) && Shape() && iNext > |src| && commitRc != DONE
      modifies `dest, `stamped
      ensures Shape() && stamped && r == if commitRc == OK then DONE else commitRc
      ensures Copied(old(dest), src, pending, iNext, old(stamped)) ==>
                Copied(dest, src, pending, iNext, true)
                && Whole(dest, pending, src, newDb)
      ensures |src| > 0 ==> forall p | p in dest :: p in old(dest) && Agree(p, dest[p], old(dest[p]), true)
      ensures Common.Get4(dest[1], 40) == iDestSchema + 1 && (wal ==> dest[1][18] == dest[1][19] == 2)
      ensures !wal && |src| > 0 ==> dest[1][18..20] == old(dest[1])[18..20]
    {
      hide Stamp, Copied, Agree, Whole;
      ghost var dest0 := dest;
      var nSrcPage := |src|;
      if nSrcPage == 0 {
        dest := map[1 := newDb];
        nSrcPage := 1;
      }
      Stamped(dest[1], iDestSchema + 1, wal);
      dest := dest[1 := Stamp(dest[1], iDestSchema + 1, wal)];
      stamped := true;
      var cut := map p | p in dest && 1 <= p <= nSrcPage :: dest[p];
      dest := cut;
      r := if commitRc == OK then DONE else commitRc;
      if |src| == 0 {
        StampAgrees(newDb, iDestSchema + 1, wal);
        EmptyWhole(dest0, dest, src, pending, iNext, old(stamped), newDb);
      } else {
        StampAgrees(dest0[1], iDestSchema + 1, wal);
        CutAgrees(dest0, dest, |src|);
        if Copied(dest0, src, pending, iNext, old(stamped)) {
          CutCopied(dest0, dest, src, pending, iNext, old(stamped), newDb);
        }
      }
    }

    function Result(src: seq<Page>, count: int, a: Answers): Code
      reads this
    {
      V().Result(src, count, a)
    }

    predicate Skips(src: seq<Page>, count: int, a: Answers)
      reads this
    {
      V().Skips(src, count, a)
    }

    predicate Deafens(src: seq<Page>, count: int, a: Answers)
      reads this
    {
      V().Deafens(src, count, a)
    }

    predicate Spoils(src: seq<Page>, count: int, a: Answers)
      reads this
    {
      V().Spoils(src, count, a)
    }

    // The step in terms of where it gets to.
    method TryStep(src: seq<Page>, count: int, a: Answers, wal: bool, newDb: Page) returns (r: Code)
      requires |src| < 0x1_0000_0000 && Shape() && a.Ok()
      modifies this
      ensures Shape() && r == rc == old(Result(src, count, a))
      ensures old(Fatal(rc)) ==> unchanged(this)
      ensures old(Valid(src)) ==> (Valid(src) <==> !old(Skips(src, count, a)))
      ensures old(!Exposed()) ==> (Exposed() <==> old(Deafens(src, count, a)))
      ensures old(!Fatal(rc)) && a.lockRc != OK ==> V() == old(V()).(rc := r)
      ensures old(!Fatal(rc)) && a.lockRc == OK ==>
        var q, e := old(Reached(src, count, a.codes)), End(old(iNext), count, |src|);
        && iNext == (if q < e then q + 1 else e) && isAttached == (old(isAttached) || r == OK)
        && (|src| > 0 ==> AgreesOutside(old(dest), dest, old(iNext), q))
      ensures old(!Fatal(rc)) && (r == OK || r == DONE) ==> nPagecount == |src| && nRemaining == |src| + 1 - iNext
      ensures old(!Fatal(rc)) && r == DONE ==> iNext > |src| && (old(Valid(src)) ==> Complete(src, newDb))
      ensures old(!Fatal(rc)) && r == DONE ==>
                Common.Get4(dest[1], 40) == iDestSchema + 1 && (wal ==> dest[1][18] == dest[1][19] == 2)
      ensures iDestSchema == old(iDestSchema)
    {
      hide Copied, Agree, FirstRefused, Whole, View.Stale;
      r := rc;
      if !Fatal(r) {
        r := a.lockRc;
        if r == OK { r := Advance(src, count, a, wal, newDb); }
        rc := r;
      }
    }

    /** sqlite3_backup_step. A backup that is right stays right exactly if no page that differs is passed over, and
        one that is told of changes, or needs no telling, stays so exactly if the step does not deafen it. */
    method Step(src: seq<Page>, count: int, a: Answers, wal: bool, newDb: Page) returns (r: Code)
      requires |src| < 0x1_0000_0000 && Shape() && a.Ok()
      modifies this
      ensures Shape() && r == rc == old(Result(src, count, a))
      ensures old(Fatal(rc)) ==> unchanged(this)
      ensures old(!Fatal(rc)) && a.lockRc != OK ==> r == a.lockRc
      ensures old(!Fatal(rc)) && a.lockRc == OK ==>
                forall q: nat | FirstBad(a.codes, pending, old(iNext), q) && q <= |src|
                  && (count < 0 || q < old(iNext) + count) ::
                  r == a.codes[q] && iNext == q + 1
      ensures old(Valid(src)) ==> (Valid(src) <==> !old(Skips(src, count, a)))
      ensures old(!Exposed()) ==> (Exposed() <==> old(Deafens(src, count, a)))
      ensures old(!Fatal(rc)) && a.lockRc != OK ==> V() == old(V()).(rc := r)
      ensures old(!Fatal(rc)) && a.lockRc == OK ==>
        var q, e := old(Reached(src, count, a.codes)), End(old(iNext), count, |src|);
        && iNext == (if q < e then q + 1 else e) && isAttached == (old(isAttached) || r == OK)
        && (|src| > 0 ==> AgreesOutside(old(dest), dest, old(iNext), q))
      ensures old(!Fatal(rc)) && a.lockRc == OK && NoneBetween(a.codes, pending, old(iNext), |src|) ==>
        && r == (if iNext <= |src| then OK else if a.commitRc == OK then DONE else a.commitRc)
        && iNext == if old(iNext) > |src| then old(iNext)
                    else if count < 0 || old(iNext) + count > |src| then |src| + 1
                    else old(iNext) + count
      ensures old(!Fatal(rc)) && (r == OK || r == DONE) ==> nPagecount == |src| && nRemaining == |src| + 1 - iNext
      ensures old(!Fatal(rc)) && r == DONE ==> iNext > |src| && (old(Valid(src)) ==> Complete(src, newDb))
      ensures old(!Fatal(rc)) && r == DONE ==>
                Common.Get4(dest[1], 40) == iDestSchema + 1 && (wal ==> dest[1][18] == dest[1][19] == 2)
      ensures iDestSchema == old(iDestSchema)
    {
      hide Copied, Agree, FirstRefused, Whole, End, View.Stale, View.Result, View.Reached, View.Skips, View.Deafens,
           View.Exposed, Handle.Valid, Handle.Complete, NoneBetween, FirstBad, AgreesOutside;
      StepReads(V(), src, count, a);
      r := TryStep(src, count, a, wal, newDb);
    }

    // The part of a step that comes once both databases are locked.
    method Advance(src: seq<Page>, count: int, a: Answers, wal: bool, newDb: Page) returns (r: Code)
      requires |src| < 0x1_0000_0000 && Shape() && !Fatal(rc) && a.Ok() && a.lockRc == OK
      modifies `dest, `iNext, `isAttached, `nPagecount, `nRemaining, `stamped
      ensures Shape() && r == old(Result(src, count, a))
      ensures old(Valid(src)) && !Fatal(r) ==>
                (Copied(dest, src, pending, iNext, stamped) <==> !old(Skips(src, count, a)))
      ensures var q, e := old(Reached(src, count, a.codes)), End(old(iNext), count, |src|);
        && iNext == (if q < e then q + 1 else e) && isAttached == (old(isAttached) || r == OK)
        && (|src| > 0 ==> AgreesOutside(old(dest), dest, old(iNext), q))
      ensures r == OK || r == DONE ==> nPagecount == |src| && nRemaining == |src| + 1 - iNext
      ensures r == DONE ==> iNext > |src| && (old(Valid(src)) ==> Whole(dest, pending, src, newDb))
      ensures r == DONE ==> Common.Get4(dest[1], 40) == iDestSchema + 1 && (wal ==> dest[1][18] == dest[1][19] == 2)
    {
      hide Copied, Agree, FirstRefused, Whole, View.Stale, Handle.Exposed;
      r := CopyPages(src, count, a.codes);
      SameAgrees(old(dest), dest, old(iNext), old(Reached(src, count, a.codes)));
      if r == OK {
        ghost var mid := dest;
        nPagecount := |src|;
        nRemaining := |src| + 1 - iNext;
        if iNext > |src| {
          r := Finish(src, wal, newDb, a.commitRc);
          if |src| > 0 { AgreeThrough(old(dest), mid, dest, old(iNext), old(Reached(src, count, a.codes))); }
        } else if !isAttached {
          isAttached := true;
        }
      }
    }

    /** While the source does not change and nobody is in the way, steps of count pages each are told OK until the last
        one, the one by which count times the number of steps has come to the size of the source, is told DONE. */
    method StepToEnd(src: seq<Page>, count: nat, wal: bool, newDb: Page) returns (steps: nat)
      requires 0 < count && |src| < 0x1_0000_0000 && Valid(src) && iNext == 1 && !Fatal(rc)
      modifies this
      ensures rc == DONE && Complete(src, newDb)
      ensures steps == if |src| == 0 then 1 else (|src| + count - 1) / count
    {
      hide Copied, Agree, FirstRefused, Whole, View.Stale;
      var r := OK;
      steps := 0;
      while r != DONE
        invariant Valid(src) && (r != DONE ==> !Fatal(rc) && iNext == 1 + steps * count)
        invariant r != DONE && steps > 0 ==> iNext <= |src|
        invariant r == DONE ==> rc == DONE && Complete(src, newDb)
        invariant r == DONE ==> steps == if |src| == 0 then 1 else (|src| + count - 1) / count
        decreases |src| + 1 - iNext, r != DONE
      {
        NoneRefused(pending, iNext, End(iNext, count, |src|));
        LastOne(|src|, count, steps);
        r := Step(src, count, Answers(OK, map[], OK), wal, newDb);
        steps := steps + 1;
      }
    }

    /** A backup that is wrong about a page it has passed goes on to report success without that page. */
    method WrongToTheEnd(src: seq<Page>, q: nat, wal: bool, newDb: Page) returns (r: Code)
      requires |src| < 0x1_0000_0000 && Shape() && !Fatal(rc)
      requires 1 <= q < iNext && q <= |src| && q != pending && !(q in dest && Agree(q, dest[q], At(src, q), true))
      modifies this
      ensures r == DONE && !Complete(src, newDb)
    {
      hide FirstRefused, Agree;
      NoneRefused(pending, iNext, End(iNext, -1, |src|));
      r := Step(src, -1, Answers(OK, map[], OK), wal, newDb);
      if q in dest && Agree(q, dest[q], At(src, q), true) {
        AgreeBack(q, dest[q], old(dest[q]), At(src, q));
      }
    }
  }

  // The step with which count times the number of steps gets to n.
  lemma LastOne(n: nat, count: nat, steps: nat)
    requires 0 < count && (steps > 0 ==> steps * count < n)
    ensures (steps + 1) * count == steps * count + count
    ensures (steps + 1) * count >= n > 0 ==> (n + count - 1) / count == steps + 1
    ensures n == 0 ==> steps == 0
  {
    Common.MulAtMost(0, steps, count);
    if n > 0 { Common.CeilDiv(n, count, steps + 1); }
  }

  ghost predicate SameAt(dest: map<nat, Page>, dest': map<nat, Page>, p: nat) {
    (p in dest <==> p in dest') && (p in dest ==> dest[p] == dest'[p])
  }

  // Another page has been written, perhaps.
  lemma SameNext(d0: map<nat, Page>, d1: map<nat, Page>, d2: map<nat, Page>, lo: nat, hi: nat)
    requires lo <= hi && (forall p: nat | !(lo <= p < hi) :: SameAt(d0, d1, p)) && d2 - {hi} == d1 - {hi}
    ensures forall p: nat | !(lo <= p < hi + 1) :: SameAt(d0, d2, p)
    ensures d2 == d1 ==> forall p: nat | !(lo <= p < hi) :: SameAt(d0, d2, p)
  {
    forall p: nat | !(lo <= p < hi + 1) ensures SameAt(d0, d2, p) {
      assert SameAt(d0, d1, p) && (p in d1 <==> p in d1 - {hi}) && (p in d2 <==> p in d2 - {hi});
    }
  }

  // Apart from pages lo..hi-1 and header fields, nothing has been written.
  ghost predicate AgreesOutside(dest: map<nat, Page>, dest': map<nat, Page>, lo: nat, hi: nat) {
    forall p | p in dest' && !(lo <= p < hi) :: p in dest && Agree(p, dest'[p], dest[p], true)
  }

  lemma SameAgrees(dest: map<nat, Page>, dest': map<nat, Page>, lo: nat, hi: nat)
    requires forall p: nat | !(lo <= p < hi) :: SameAt(dest, dest', p)
    ensures AgreesOutside(dest, dest', lo, hi)
  {
    forall p | p in dest' && !(lo <= p < hi) ensures p in dest && Agree(p, dest'[p], dest[p], true) {
      assert SameAt(dest, dest', p);
    }
  }

  lemma AgreeThrough(dest: map<nat, Page>, mid: map<nat, Page>, dest': map<nat, Page>, lo: nat, hi: nat)
    requires AgreesOutside(dest, mid, lo, hi)
    requires forall p | p in dest' :: p in mid && Agree(p, dest'[p], mid[p], true)
    ensures AgreesOutside(dest, dest', lo, hi)
  {
  }

  lemma AgreeBack(p: nat, now: Page, was: Page, data: Page)
    requires Agree(p, now, was, true) && Agree(p, now, data, true)
    ensures Agree(p, was, data, true)
  {
  }

  // What may happen to a source and its backups.
  datatype Op = DoStart(pending: nat, schema: nat, first: Page)
              | DoStep(k: nat, count: int, a: Answers, wal: bool, newDb: Page)
              | DoWrite(p: nat, data: Page, codes: seq<Code>)
              | DoTruncate(n: nat)
              | DoOutside(now: seq<Page>)

  /** A source database and the backups being made of it. */
  class Source {
    var src: seq<Page>
    var backups: seq<Handle>

    // The handles are different objects in good shape; they need not be right.
    ghost predicate Shape()
      reads this, backups
    {
      && |src| < 0xffff_ffff
      && (forall i, j | 0 <= i < j < |backups| :: backups[i] != backups[j])
      && (forall i | 0 <= i < |backups| :: backups[i].Shape())
    }

    ghost predicate Valid()
      reads this, backups
    {
      Shape() && forall i | 0 <= i < |backups| :: Right(i)
    }

    // Backup i is right, and stays so when the source changes.
    ghost predicate Right(i: nat)
      requires i < |backups|
      reads this, backups
    {
      backups[i].Valid(src) && !backups[i].Exposed()
    }

    /** A step of one backup: everything is in order afterwards exactly if the step does not spoil that backup. */
    method StepBackup(k: nat, count: int, a: Answers, wal: bool, newDb: Page) returns (r: Code)
      requires Shape() && k < |backups| && a.Ok()
      modifies backups[k]
      ensures Shape() && r == old(backups[k].Result(src, count, a))
      ensures old(Valid()) ==> (Valid() <==> !old(backups[k].Spoils(src, count, a)))
      ensures old(Right(k)) ==> (backups[k].Valid(src) <==> !old(backups[k].Skips(src, count, a)))
      ensures old(Right(k)) ==> (backups[k].Exposed() <==> old(backups[k].Deafens(src, count, a)))
      ensures Stepped(old(backups[k].V()), src, count, a, backups[k].V()) && backups[k].rc == r
      ensures old(backups[k].Valid(src)) && old(!Fatal(backups[k].rc)) && r == DONE ==>
                backups[k].Complete(src, newDb)
    {
      hide Copied, Whole, Agree, FirstRefused, View.Skips, View.Deafens;
      r := backups[k].Step(src, count, a, wal, newDb);
      assert forall i | 0 <= i < |backups| && i != k :: old(Right(i)) ==> Right(i);
      assert old(Valid()) ==> old(Right(k));
      assert Valid() ==> Right(k);
    }

    /** A page is written to the source, and every attached backup is told. */
    method Write(p: nat, data: Page, codes: seq<Code>)
      requires Shape() && 1 <= p <= |src| + 1 && |src| + 1 < 0xffff_ffff
      requires forall i | 0 <= i < |backups| && backups[i].isAttached :: Right(i)
      requires |codes| == |backups| && forall i | 0 <= i < |codes| :: codes[i] == OK || codes[i] == IOERR
      modifies this, backups
      ensures Shape() && src == Written(old(src), p, data) && backups == old(backups)
      ensures forall i | 0 <= i < |backups| && old(Right(i)) :: Right(i)
      ensures forall i | 0 <= i < |backups| :: backups[i].V() == Told(old(backups[i].V()), p, data, codes[i])
    {
      hide Written, Copied, Whole, Handle.Valid, Handle.Exposed, Updated;
      var i := 0;
      while i < |backups|
        invariant 0 <= i <= |backups| && backups == old(backups) && src == old(src) && forall j | 0 <= j < |backups| ::
                    backups[j].Shape()
        invariant forall j | 0 <= j < i && old(Right(j)) ::
                    backups[j].Valid(Written(src, p, data)) && !backups[j].Exposed()
        invariant forall j | i <= j < |backups| :: unchanged(backups[j])
        invariant forall j | 0 <= j < i :: backups[j].V() == Told(old(backups[j].V()), p, data, codes[j])
      {
        var b := backups[i];
        assert unchanged(b);
        assert old(Right(i)) <==> b.Valid(src) && !b.Exposed();
        b.Hear(p, data, codes[i], src);
        i := i + 1;
      }
      WrittenSize(src, p, data);
      src := Written(src, p, data);
    }

    /** The source loses pages at its end; nobody is told. */
    method Truncate(n: nat)
      requires Valid() && n <= |src|
      modifies this`src
      ensures Valid() && src == old(src)[..n]
    {
      hide Copied, Whole;
      ghost var was := src;
      src := src[..n];
      forall i | 0 <= i < |backups| ensures Right(i) {
        assert old(Right(i));
        var b := backups[i];
        if !Fatal(b.rc) { CopiedShorter(b.dest, was, b.pending, b.iNext, b.stamped, n); }
      }
    }

    /** Another process has changed the source in any way: every attached backup starts over. */
    method ChangedOutside(now: seq<Page>)
      requires Valid() && |now| < 0xffff_ffff
      modifies this, backups
      ensures Valid() && src == now && backups == old(backups)
      ensures forall i | 0 <= i < |backups| :: backups[i].V() == Restarted(old(backups[i].V()))
    {
      hide Copied, Whole, Handle.Valid, Handle.Exposed, Handle.V, Restarted;
      RestartAll(now);
      forall j | 0 <= j < |backups| ensures backups[j].Shape() { backups[j].InShape(now); }
      src := now;
    }

    // sqlite3BackupRestart
    method RestartAll(ghost now: seq<Page>)
      requires Valid()
      modifies backups
      ensures forall i | 0 <= i < |backups| ::
                && backups[i].Valid(now) && !backups[i].Exposed()
                && backups[i].V() == Restarted(old(backups[i].V()))
    {
      hide Copied, Whole, Handle.Valid, Handle.Exposed, Handle.V, Restarted;
      forall j | 0 <= j < |backups| ensures backups[j].Valid(src) && !backups[j].Exposed() { assert Right(j); }
      for i := 0 to |backups|
        invariant forall j | i <= j < |backups| :: unchanged(backups[j])
        invariant forall j | 0 <= j < i ::
                    && backups[j].Valid(now) && !backups[j].Exposed()
                    && backups[j].V() == Restarted(old(backups[j].V()))
      {
        assert old(Right(i)) && unchanged(backups[i]);
        backups[i].HearAll(src, now);
      }
    }

    // sqlite3_backup_init: one more backup, nothing copied yet.
    method StartBackup(pending: nat, schema: nat, first: Page)
      requires Valid() && schema + 1 < 0x1_0000_0000 && 1 < pending
      modifies this`backups
      ensures Valid() && |backups| == |old(backups)| + 1 && old(backups) <= backups && fresh(backups[|backups| - 1])
      ensures backups[|backups| - 1].V() == View(pending, 1, OK, false, map[1 := first], false)
    {
      var b := new Handle(pending, schema, first);
      forall i | 0 <= i < |backups| ensures backups[i].Valid(src) && !backups[i].Exposed() { assert old(Right(i)); }
      backups := backups + [b];
    }

    function Now(): Moment
      reads this, backups
    {
      Moment(src, seq(|backups|, i requires 0 <= i < |backups| reads this, backups => backups[i].V()))
    }

    /** One event at the source or at one of its backups. */
    method Apply(op: Op)
      requires Valid() && MayDo(Now(), op)
      modifies this, backups
      ensures Valid() && old(backups) <= backups && forall i | |old(backups)| <= i < |backups| :: fresh(backups[i])
      ensures Leads(old(Now()), op, Now())
    {
      hide Copied, Whole, View.Skips, View.Deafens, View.Result, Stepped, Updated;
      match op {
        case DoStart(pending, schema, first) => StartBackup(pending, schema, first);
        case DoStep(k, count, a, wal, newDb) =>
          assert Right(k);
          var r := StepBackup(k, count, a, wal, newDb);
          assert Now().backups == old(Now()).backups[k := backups[k].V()];
        case DoWrite(p, data, codes) =>
          forall i | 0 <= i < |backups| ensures Right(i) { }
          Write(p, data, codes);
          forall i | 0 <= i < |backups| ensures Right(i) { assert old(Right(i)); }
        case DoTruncate(n) => Truncate(n);
        case DoOutside(now) => ChangedOutside(now);
      }
    }

    lemma AllRight()
      requires Valid()
      ensures RightAt(Now())
    {
      hide Copied;
      forall i | 0 <= i < |backups| ensures Now().backups[i].Right(src) { assert Right(i); }
    }
  }

  // ---------- runs ----------

  /** A source and its backups as values. */
  datatype Moment = Moment(src: seq<Page>, backups: seq<View>)

  // Every backup in progress is right.
  ghost predicate RightAt(m: Moment) { forall i | 0 <= i < |m.backups| :: m.backups[i].Right(m.src) }

  // What the source's callers see to, and no step that spoils its backup.
  predicate MayDo(m: Moment, op: Op) {
    match op
    case DoStart(pending, schema, _) => schema + 1 < 0x1_0000_0000 && 1 < pending
    case DoStep(k, count, a, _, _) => k < |m.backups| && a.Ok() && !m.backups[k].Spoils(m.src, count, a)
    case DoWrite(p, _, codes) =>
      && 1 <= p <= |m.src| + 1 && |m.src| + 1 < 0xffff_ffff && |codes| == |m.backups|
      && forall i | 0 <= i < |codes| :: codes[i] == OK || codes[i] == IOERR
    case DoTruncate(n) => n <= |m.src|
    case DoOutside(now) => |now| < 0xffff_ffff
  }

  // The source after an event.
  function After(src: seq<Page>, op: Op): seq<Page>
    requires op.DoWrite? ==> 1 <= op.p <= |src| + 1
    requires op.DoTruncate? ==> op.n <= |src|
  {
    match op
    case DoStart(_, _, _) => src
    case DoStep(_, _, _, _, _) => src
    case DoWrite(p, data, _) => Written(src, p, data)
    case DoTruncate(n) => src[..n]
    case DoOutside(now) => now
  }

  // A page of the source has been written: a backup that has passed it copies it again.
  function Updated(v: View, p: nat, data: Page, code: Code): View {
    if Fatal(v.rc) || p >= v.iNext then v
    else if code != OK then v.(rc := code)
    else if p == v.pending then v
    else v.(dest := v.dest[p := data])
  }

  function Told(v: View, p: nat, data: Page, code: Code): View { if v.isAttached then Updated(v, p, data, code) else v }

  function Restarted(v: View): View { if v.isAttached then v.(iNext := 1) else v }

  // What a step does, apart from the pages it copies.
  predicate Stepped(v: View, src: seq<Page>, count: int, a: Answers, v': View) {
    if Fatal(v.rc) then v' == v
    else if a.lockRc != OK then v' == v.(rc := a.lockRc)
    else
      var q, e := v.Reached(src, count, a.codes), End(v.iNext, count, |src|);
      && v'.rc == v.Result(src, count, a) && v'.iNext == (if q < e then q + 1 else e) && v'.pending == v.pending
      && v'.isAttached == (v.isAttached || v'.rc == OK)
  }

  /** One event. The source is as the event makes it, a backup that is stepped gets as far as the pagers let it and is a
      whole copy if it finishes, and the others only hear of changes. */
  ghost predicate Leads(m: Moment, op: Op, m': Moment) {
    && MayDo(m, op) && m'.src == After(m.src, op)
    && match op {
      case DoStart(pending, _, first) =>
        m'.backups == m.backups + [View(pending, 1, OK, false, map[1 := first], false)]
      case DoStep(k, count, a, _, newDb) =>
        && k < |m'.backups| && m'.backups == m.backups[k := m'.backups[k]]
        && Stepped(m.backups[k], m.src, count, a, m'.backups[k])
        && (!Fatal(m.backups[k].rc) && m'.backups[k].rc == DONE ==>
              Whole(m'.backups[k].dest, m'.backups[k].pending, m.src, newDb))
      case DoWrite(p, data, codes) =>
        |m'.backups| == |m.backups| && forall i | 0 <= i < |m.backups| ::
          m'.backups[i] == Told(m.backups[i], p, data, codes[i])
      case DoTruncate(_) => m'.backups == m.backups
      case DoOutside(_) =>
        |m'.backups| == |m.backups| && forall i | 0 <= i < |m.backups| :: m'.backups[i] == Restarted(m.backups[i])
    }
  }

  /** Any run of events in which no step spoils its backup: each moment follows from the one before, and at each one the
      backups in progress are right. */
  method ApplyAll(s: Source, ops: seq<Op>) returns (ghost history: seq<Moment>)
    requires s.Valid()
    modifies s, s.backups
    ensures s.Valid() && |history| == |ops| + 1 && history[0] == old(s.Now()) && history[|ops|] == s.Now()
    ensures forall n | 0 <= n < |ops| :: Follows(history[n], ops[n], history[n + 1])
    ensures forall n | 0 <= n < |history| :: RightAt(history[n])
  {
    hide Leads, MayDo, RightAt, Handle.Valid;
    history := [s.Now()];
    s.AllRight();
    for n := 0 to |ops|
      invariant s.Valid() && |history| == n + 1 && history[0] == old(s.Now()) && history[n] == s.Now()
      invariant old(s.backups) <= s.backups && forall i | |old(s.backups)| <= i < |s.backups| :: fresh(s.backups[i])
      invariant forall k | 0 <= k < n :: Follows(history[k], ops[k], history[k + 1])
      invariant forall k | 0 <= k <= n :: RightAt(history[k])
    {
      if MayDo(s.Now(), ops[n]) { s.Apply(ops[n]); }
      s.AllRight();
      history := history + [s.Now()];
    }
  }

  ghost predicate Follows(m: Moment, op: Op, m': Moment) { if MayDo(m, op) then Leads(m, op, m') else m' == m }

  /** In every run a backup that has finished by moment j was finished by one of its own steps, n say, as a whole copy
      of the source at that moment, and has not been touched since. */
  lemma {:induction false} FinishedWhole(history: seq<Moment>, ops: seq<Op>, i: nat, j: nat) returns (n: nat)
    requires |history| == |ops| + 1 && j <= |ops| && forall k | 0 <= k < |ops| ::
               Follows(history[k], ops[k], history[k + 1])
    requires i < |history[j].backups| && history[j].backups[i].rc == DONE
    requires i < |history[0].backups| ==> history[0].backups[i].rc != DONE
    ensures n < j && ops[n].DoStep? && ops[n].k == i
    ensures Whole(history[j].backups[i].dest, history[j].backups[i].pending, history[n].src, ops[n].newDb)
    ensures forall k | n < k <= j ::
              i < |history[k].backups|
              && history[k].backups[i].dest == history[j].backups[i].dest
    decreases j
  {
    hide Whole, Stepped, View.Spoils;
    if j > 0 {
      assert Follows(history[j - 1], ops[j - 1], history[j - 1 + 1]);
      LastStep(history[j - 1], ops[j - 1], history[j], i);
      if i < |history[j - 1].backups| && history[j - 1].backups[i].rc == DONE {
        n := FinishedWhole(history, ops, i, j - 1);
      } else {
        n := j - 1;
      }
    }
  }

  // A backup finishes only by a step of its own, and then stays as it is.
  lemma LastStep(m: Moment, op: Op, m': Moment, i: nat)
    requires Follows(m, op, m') && i < |m'.backups| && m'.backups[i].rc == DONE
    ensures i < |m.backups|
    ensures if m.backups[i].rc == DONE then m'.backups[i].dest == m.backups[i].dest
            && m'.backups[i].pending == m.backups[i].pending
            else op.DoStep? && op.k == i && Whole(m'.backups[i].dest, m'.backups[i].pending, m.src, op.newDb)
  {
    hide Whole, View.Result, View.Spoils, View.Reached;
  }

  // ---------- when the promise fails ----------

  /** A backup that has copied pages without being attached does not hear of changes: whatever page it has passed is
      then written with other content, the next step reports success without it. */
  method LostUpdate(s: Source, k: nat, p: nat, data: Page, codes: seq<Code>, wal: bool, newDb: Page) returns (r: Code)
    requires s.Shape() && k < |s.backups| && s.backups[k].Valid(s.src) && s.backups[k].Exposed()
    requires forall i | 0 <= i < |s.backups| && s.backups[i].isAttached :: s.Right(i)
    requires |codes| == |s.backups| && forall i | 0 <= i < |codes| :: codes[i] == OK || codes[i] == IOERR
    requires 1 <= p < s.backups[k].iNext && p <= |s.src| && p != s.backups[k].pending && |s.src| + 1 < 0xffff_ffff
    requires !Agree(p, At(s.src, p), data, true)
    modifies s, s.backups
    ensures s.backups == old(s.backups) && r == DONE && !s.backups[k].Complete(s.src, newDb)
            && s.src == Written(old(s.src), p, data)
  {
    hide Agree;
    var b := s.backups[k];
    ghost var was := b.dest;
    if Agree(p, was[p], data, true) { AgreeBoth(p, was[p], At(s.src, p), data, b.stamped); }
    s.Write(p, data, codes);
    r := b.WrongToTheEnd(s.src, p, wal, newDb);
  }

  lemma AgreeBoth(p: nat, copy: Page, was: Page, data: Page, stamped: bool)
    requires Agree(p, copy, was, stamped) && Agree(p, copy, data, true)
    ensures Agree(p, was, data, true)
  {
  }

  /** Such a backup arises when its first step copies a one-page source and the commit is answered BUSY. */
  method CommitRetried(zero: Page) returns (s: Source)
    ensures fresh(s) && s.Shape() && |s.backups| == 1 && s.src == [zero]
    ensures s.backups[0].Valid(s.src) && s.backups[0].Exposed() && s.backups[0].iNext == 2 && s.backups[0].pending == 5
  {
    hide FirstRefused;
    s := new Source;
    s.src, s.backups := [zero], [];
    s.StartBackup(5, 0, zero);
    NoneRefused(5, 1, 2);
    assert s.Right(0);
    var r := s.StepBackup(0, -1, Answers(OK, map[], BUSY), false, zero);
  }

  /** A page whose copy is refused for now is passed over, and the next step reports success without it. */
  method SkippedPage(zero: Page, one: Page) returns (r: Code, b: Handle)
    requires !Agree(1, zero, one, true)
    ensures r == DONE && !b.Complete([one], zero)
  {
    hide Agree;
    b := new Handle(5, 0, zero);
    FirstRefusedIs(map[1 := BUSY], 5, 1, 2, 1);
    r := b.Step([one], -1, Answers(OK, map[1 := BUSY], OK), false, zero);
    if Agree(1, b.dest[1], one, true) { AgreeBack(1, b.dest[1], zero, one); }
    r := b.WrongToTheEnd([one], 1, false, zero);
  }
}
