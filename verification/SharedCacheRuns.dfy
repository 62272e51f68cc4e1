/** Runs of the shared cache: what a begin, a refused lock or an end does to everything that comes after it. */
module SharedCacheRuns {
  import opened SharedCache

  // The states before and after each operation, as BtShared.ApplyAll records them.
  ghost predicate Run(history: seq<State>, ops: seq<Op>) {
    && |history| == |ops| + 1
    && (forall n | 0 <= n < |ops| :: history[n + 1] == Next(history[n], ops[n]))
    && (forall n | 0 <= n < |history| :: Good(history[n]))
  }

  predicate Leaves(op: Op, p: nat) { (op.DoEnd? || op.DoClose?) && op.p == p }

  predicate Writes(s: State, p: nat) { p in s.inTrans && s.inTrans[p] == WRITE }

  // A handle other than p is in a transaction.
  ghost predicate Company(s: State, p: nat) { exists q :: q in s.inTrans && q != p && s.inTrans[q] != NONE }

  // At step n handle p entered an exclusive transaction, which it has not ended before moment m.
  ghost predicate ExclusiveSince(history: seq<State>, ops: seq<Op>, n: nat, m: nat, p: nat)
    requires n < m < |history| == |ops| + 1
  {
    && ops[n].DoBegin? && ops[n].p == p && ops[n].wrflag > 1 && !Writes(history[n], p) && Writes(history[n + 1], p)
    && forall j | n < j < m :: !Leaves(ops[j], p)
  }

  // At step n handle w was refused a write lock because of another's lock on the table; ever since, it has been writing
  // and not been alone.
  ghost predicate PendingSince(history: seq<State>, ops: seq<Op>, n: nat, m: nat, w: nat)
    requires n < m < |history| == |ops| + 1
  {
    && ops[n].DoLock? && ops[n].p == w && ops[n].eLock == WRITE_LOCK && Writes(history[n], w)
    && (exists i :: 0 <= i < |history[n].locks|
          && history[n].locks[i].owner != w && history[n].locks[i].table == ops[n].table)
    && forall j | n < j <= m :: Writes(history[j], w) && Company(history[j], w)
  }

  // ---------- exclusive transactions ----------

  lemma Exclusively(s: State)
    requires Good(s) && s.exclusive
    ensures s.writer.Handle? && Writes(s, s.writer.id) && !Company(s, s.writer.id)
  {
    hide WritesAlone, SchemaHeld, Owned;
    forall q | q in s.inTrans && s.inTrans[q] != NONE ensures q == s.writer.id { assert q in Active(s.inTrans); }
  }

  // Only its holder ends an exclusive transaction, and nobody else gets in.
  lemma StaysExclusive(s: State, op: Op, p: nat)
    requires Good(s) && s.exclusive && s.writer == Handle(p) && !Leaves(op, p)
    ensures Next(s, op).exclusive && Next(s, op).writer == Handle(p)
    ensures op.DoBegin? ==> Next(s, op) == s
    ensures op.DoBegin? && op.p != p && op.p in s.inTrans ==>
              Answer(s, op) == if op.readOnly && op.wrflag > 0 then FAILED else LOCKED
  {
    hide Good, Conflicts, Locked, Others, Downgraded;
    Exclusively(s);
  }

  lemma BecomesExclusive(s: State, op: Op)
    requires Good(s) && !s.exclusive && Next(s, op).exclusive
    ensures op.DoBegin? && op.wrflag > 1 && !Writes(s, op.p) && Writes(Next(s, op), op.p)
    ensures Next(s, op).writer == Handle(op.p)
  {
    hide Good, Conflicts, Locked, Others, Downgraded;
  }

  lemma EntersExclusive(s: State, op: Op, p: nat)
    requires Good(s) && op.DoBegin? && op.p == p && op.wrflag > 1 && !Writes(s, p) && Writes(Next(s, op), p)
    ensures Next(s, op).exclusive && Next(s, op).writer == Handle(p)
  {
    hide Good, Conflicts, Locked, Others, Downgraded;
  }

  lemma {:induction false} ExclusiveHeld(history: seq<State>, ops: seq<Op>, n: nat, m: nat, p: nat)
    requires Run(history, ops) && n < m < |history| && ExclusiveSince(history, ops, n, m, p)
    ensures history[m].exclusive && history[m].writer == Handle(p)
    decreases m
  {
    hide Good, Next;
    assert history[m - 1 + 1] == Next(history[m - 1], ops[m - 1]);
    if m == n + 1 {
      EntersExclusive(history[n], ops[n], p);
    } else {
      ExclusiveHeld(history, ops, n, m - 1, p);
      StaysExclusive(history[m - 1], ops[m - 1], p);
    }
  }

  /** From the moment a handle enters an exclusive transaction until it ends it, it is the only handle in a transaction,
      and every begin by another handle is refused and changes nothing. */
  lemma ExclusiveAlone(history: seq<State>, ops: seq<Op>, n: nat, m: nat, p: nat)
    requires Run(history, ops) && n < m < |history| && ExclusiveSince(history, ops, n, m, p)
    ensures forall q | q in history[m].inTrans :: history[m].inTrans[q] == if q == p then WRITE else NONE
    ensures m < |ops| && ops[m].DoBegin? && ops[m].p != p && ops[m].p in history[m].inTrans ==>
              history[m + 1] == history[m]
              && Answer(history[m], ops[m]) == if ops[m].readOnly && ops[m].wrflag > 0 then FAILED else LOCKED
  {
    hide Good, Next, Answer;
    ExclusiveHeld(history, ops, n, m, p);
    Exclusively(history[m]);
    if m < |ops| && ops[m].DoBegin? && ops[m].p != p { StaysExclusive(history[m], ops[m], p); }
  }

  /** A cache is exclusive for no other reason. */
  lemma {:induction false} ExclusiveOrigin(history: seq<State>, ops: seq<Op>, m: nat) returns (n: nat, p: nat)
    requires Run(history, ops) && m < |history| && !history[0].exclusive && history[m].exclusive
    ensures n < m && ExclusiveSince(history, ops, n, m, p)
  {
    hide Good, Next;
    assert history[m - 1 + 1] == Next(history[m - 1], ops[m - 1]);
    if history[m - 1].exclusive {
      n, p := ExclusiveOrigin(history, ops, m - 1);
      ExclusiveHeld(history, ops, n, m - 1, p);
      NotEnded(history[m - 1], ops[m - 1], p);
    } else {
      BecomesExclusive(history[m - 1], ops[m - 1]);
      n, p := m - 1, ops[m - 1].p;
    }
  }

  lemma NotEnded(s: State, op: Op, p: nat)
    requires Good(s) && s.exclusive && s.writer == Handle(p) && Next(s, op).exclusive
    ensures !Leaves(op, p)
  {
    hide Good, Conflicts, Locked, Others, Downgraded;
    Exclusively(s);
  }

  // ---------- a pending writer ----------

  lemma Pending(s: State)
    requires Good(s) && s.pending
    ensures s.writer.Handle? && Writes(s, s.writer.id) && Company(s, s.writer.id)
  {
    hide WritesAlone, SchemaHeld, Owned;
    var w := s.writer.id;
    assert Active(s.inTrans) == (Active(s.inTrans) - {w}) + {w};
    var q :| q in Active(s.inTrans) - {w};
  }

  lemma TheWriter(s: State, w: nat)
    requires Good(s) && w in s.inTrans
    ensures Writes(s, w) <==> s.writer == Handle(w)
  {
    hide WritesAlone, SchemaHeld, Owned;
  }

  // The writer stops pending only by ending, or by being left alone.
  lemma StaysPending(s: State, op: Op, w: nat)
    requires Good(s) && s.pending && s.writer == Handle(w) && Writes(Next(s, op), w) && Company(Next(s, op), w)
    ensures Next(s, op).pending
  {
    hide Good, Conflicts, Locked, Others, Downgraded;
    if Leaves(op, op.p) && MayDo(s, op) && op.p != w && |Active(s.inTrans)| == 2 && s.inTrans[op.p] != NONE {
      Pending(s);
      LeftAlone(s, op, w);
    }
  }

  lemma LeftAlone(s: State, op: Op, w: nat)
    requires Good(s) && Leaves(op, op.p) && MayDo(s, op) && op.p != w && |Active(s.inTrans)| == 2
    requires s.inTrans[op.p] != NONE && Writes(s, w)
    ensures Company(Next(s, op), w) ==> op.DoEnd? && op.reading
  {
    hide Good, Conflicts, Locked, Others, Downgraded;
    var rest := Active(s.inTrans) - {w, op.p};
    assert Active(s.inTrans) == rest + {w, op.p};
    assert rest == {};
    assert forall q | q in s.inTrans && s.inTrans[q] != NONE :: q in Active(s.inTrans);
  }

  lemma BecomesPending(s: State, op: Op)
    requires Good(s) && Good(Next(s, op)) && !s.pending && Next(s, op).pending
    ensures op.DoLock? && op.eLock == WRITE_LOCK && Writes(s, op.p) && Writes(Next(s, op), op.p)
    ensures exists i :: 0 <= i < |s.locks| && s.locks[i].owner != op.p && s.locks[i].table == op.table
  {
    hide Good, Locked, Others, Downgraded;
  }

  lemma RefusedPends(s: State, op: Op, w: nat)
    requires op.DoLock? && op.p == w && op.eLock == WRITE_LOCK && Writes(s, w)
    requires exists i :: 0 <= i < |s.locks| && s.locks[i].owner != w && s.locks[i].table == op.table
    ensures Next(s, op).pending && Next(s, op).writer == s.writer
  {
    var i :| 0 <= i < |s.locks| && s.locks[i].owner != w && s.locks[i].table == op.table;
    assert Conflict(s.locks[i], w, op.table, WRITE_LOCK);
  }

  lemma SamePending(s: State, op: Op)
    requires Good(s) && s.pending && Next(s, op).pending
    ensures Next(s, op).writer == s.writer
  {
    hide Good, Conflicts, Locked, Others, Downgraded;
  }

  lemma {:induction false} PendingHeld(history: seq<State>, ops: seq<Op>, n: nat, m: nat, w: nat)
    requires Run(history, ops) && n < m < |history| && PendingSince(history, ops, n, m, w)
    ensures history[m].pending && history[m].writer == Handle(w)
    decreases m
  {
    hide Good, Next, Company;
    assert history[m - 1 + 1] == Next(history[m - 1], ops[m - 1]);
    TheWriter(history[m], w);
    if m == n + 1 {
      RefusedPends(history[n], ops[n], w);
    } else {
      PendingHeld(history, ops, n, m - 1, w);
      StaysPending(history[m - 1], ops[m - 1], w);
    }
  }

  lemma {:induction false} PendingOrigin(history: seq<State>, ops: seq<Op>, m: nat) returns (n: nat, w: nat)
    requires Run(history, ops) && m < |history| && !history[0].pending && history[m].pending
    ensures n < m && PendingSince(history, ops, n, m, w)
  {
    hide Good, Next, Company;
    assert history[m - 1 + 1] == Next(history[m - 1], ops[m - 1]);
    Pending(history[m]);
    if history[m - 1].pending {
      n, w := PendingOrigin(history, ops, m - 1);
      PendingHeld(history, ops, n, m - 1, w);
      SamePending(history[m - 1], ops[m - 1]);
    } else {
      BecomesPending(history[m - 1], ops[m - 1]);
      n, w := m - 1, ops[m - 1].p;
      TheWriter(history[m], w);
    }
  }

  // ---------- refused begins ----------

  /** In a run that starts with neither flag set, a begin that needs a transaction it does not have is refused for one
      of five reasons and no other: it wants to write and some handle writes; a writer has been pending; some handle
      has been exclusive; it wants to be exclusive and another handle is in a transaction; the schema is write-locked.
      */
  lemma RefusedBecause(history: seq<State>, ops: seq<Op>, m: nat)
    requires Run(history, ops) && !history[0].exclusive && !history[0].pending && m < |ops| && ops[m].DoBegin?
    requires ops[m].p in history[m].inTrans && !Writes(history[m], ops[m].p)
    requires (history[m].inTrans[ops[m].p] == READ ==> ops[m].wrflag > 0) && !(ops[m].readOnly && ops[m].wrflag > 0)
    ensures Answer(history[m], ops[m]) == LOCKED <==>
              || (ops[m].wrflag > 0 && exists q :: Writes(history[m], q))
              || (exists n: nat, w :: n < m && PendingSince(history, ops, n, m, w))
              || (exists n: nat, p :: n < m && ExclusiveSince(history, ops, n, m, p))
              || (ops[m].wrflag > 1 && Company(history[m], ops[m].p))
              || exists i :: 0 <= i < |history[m].locks|
                   && history[m].locks[i].table == 1 && history[m].locks[i].eLock == WRITE_LOCK
  {
    hide Good, Next, BlockedIn, PendingSince, ExclusiveSince;
    var s, op := history[m], ops[m];
    Refusals(s, op.p, op.wrflag);
    assert (exists q :: Writes(s, q)) <==> exists q :: q in s.inTrans && s.inTrans[q] == WRITE by {
      if q :| q in s.inTrans && s.inTrans[q] == WRITE { assert Writes(s, q); }
    }
    if s.pending { var n, w := PendingOrigin(history, ops, m); }
    if s.exclusive { var n, p := ExclusiveOrigin(history, ops, m); }
    forall n: nat, w | n < m && PendingSince(history, ops, n, m, w) ensures s.pending {
      PendingHeld(history, ops, n, m, w);
    }
    forall n: nat, p | n < m && ExclusiveSince(history, ops, n, m, p) ensures s.exclusive {
      ExclusiveHeld(history, ops, n, m, p);
    }
  }
}
