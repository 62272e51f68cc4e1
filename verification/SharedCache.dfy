/** Transactions and table locks of the connections that share one page cache. */
module SharedCache {

  datatype Trans = NONE | READ | WRITE

  datatype LockType = READ_LOCK | WRITE_LOCK

  datatype Rc = OK | LOCKED | FAILED

  datatype Owner = Nobody | Handle(id: nat)

  datatype Lock = Lock(owner: nat, table: nat, eLock: LockType)

  const SCHEMA_ROOT := 1

  // Handles with a transaction open.
  ghost function Active(inTrans: map<nat, Trans>): set<nat> { set h | h in inTrans && inTrans[h] != NONE }

  // A lock that stands in the way of another handle's.
  predicate Conflict(k: Lock, p: nat, table: nat, eLock: LockType) {
    k.owner != p && k.table == table && (eLock.WRITE_LOCK? || k.eLock.WRITE_LOCK?)
  }

  ghost predicate Conflicts(locks: seq<Lock>, p: nat, table: nat, eLock: LockType) {
    exists i :: 0 <= i < |locks| && Conflict(locks[i], p, table, eLock)
  }

  // Locks belong to handles in a transaction, at most one per handle and table.
  ghost predicate Owned(locks: seq<Lock>, inTrans: map<nat, Trans>) {
    && (forall i | 0 <= i < |locks| :: locks[i].owner in Active(inTrans))
    && (forall i, j | 0 <= i < j < |locks| :: locks[i].owner != locks[j].owner || locks[i].table != locks[j].table)
  }

  // A write lock belongs to the writer, and no other handle has a lock on its table.
  ghost predicate WritesAlone(locks: seq<Lock>, writer: Owner) {
    && (forall i | 0 <= i < |locks| && locks[i].eLock.WRITE_LOCK? :: writer == Handle(locks[i].owner))
    && (forall i | 0 <= i < |locks| && locks[i].eLock.WRITE_LOCK? ::
          !Conflicts(locks, locks[i].owner, locks[i].table, WRITE_LOCK))
  }

  // Every transaction holds the schema table.
  ghost predicate SchemaHeld(locks: seq<Lock>, inTrans: map<nat, Trans>) {
    forall h | h in Active(inTrans) :: HasLock(locks, h, SCHEMA_ROOT)
  }

  ghost predicate HasLock(locks: seq<Lock>, h: nat, table: nat) {
    exists i :: 0 <= i < |locks| && locks[i].owner == h && locks[i].table == table
  }

  /** What holds between any two operations: the writer is the one handle in a write transaction; the counts and
      the shared state agree with the handles; exclusive means alone; pending means a writer is waiting for others. */
  ghost predicate Sound(nTransaction: nat, inTrans: map<nat, Trans>, writer: Owner, inTransaction: Trans,
                        exclusive: bool, pending: bool,
                        locks: seq<Lock>)
  {
    && nTransaction == |Active(inTrans)|
    && (forall h | h in inTrans :: inTrans[h] == WRITE <==> writer == Handle(h))
    && (writer.Handle? ==> writer.id in inTrans)
    && inTransaction == (if writer.Handle? then WRITE else if nTransaction > 0 then READ else NONE)
    && (exclusive ==> writer.Handle? && Active(inTrans) == {writer.id})
    && (pending ==> writer.Handle? && nTransaction >= 2)
    && Owned(locks, inTrans) && WritesAlone(locks, writer) && SchemaHeld(locks, inTrans)
  }

  class BtShared {
    // The list of table locks, newest first.
    var locks: seq<Lock>
    var writer: Owner
    var exclusive: bool
    var pending: bool
    var inTransaction: Trans
    var nTransaction: nat
    // The transaction state of each open handle.
    var inTrans: map<nat, Trans>

    ghost predicate Valid()
      reads this
    {
      Sound(nTransaction, inTrans, writer, inTransaction, exclusive, pending, locks)
    }

    function Now(): State
      reads this
    {
      State(locks, writer, exclusive, pending, inTrans)
    }

    constructor ()
      ensures Valid() && Now() == State([], Nobody, false, false, map[])
    {
      locks, writer, exclusive, pending, inTransaction, nTransaction, inTrans :=
          [], Nobody, false, false, NONE, 0, map[];
      new;
      assert Active(inTrans) == {};
    }

    // A connection opens the shared cache.
    method Open(p: nat)
      requires Valid() && p !in inTrans
      modifies this
      ensures Valid() && Now() == old(Now()).(inTrans := old(inTrans)[p := NONE])
    {
      inTrans := inTrans[p := NONE];
      assert Active(inTrans) == old(Active(inTrans));
    }

    /** querySharedCacheTableLock: refused exactly when another handle is exclusive or holds a conflicting lock. */
    method QueryTableLock(p: nat, table: nat, eLock: LockType) returns (rc: Rc)
      requires Valid() && p in inTrans && (eLock.WRITE_LOCK? ==> writer == Handle(p))
      modifies this`pending
      ensures Valid() && rc != FAILED
      ensures rc == LOCKED <==>
                || (exclusive && writer != Handle(p))
                || exists i :: 0 <= i < |locks| && locks[i].owner != p && locks[i].table == table
                     && (eLock == WRITE_LOCK || locks[i].eLock == WRITE_LOCK)
      ensures pending == (old(pending) || (rc == LOCKED && eLock.WRITE_LOCK?))
    {
      if writer != Handle(p) && exclusive { return LOCKED; }
      var i := 0;
      while i < |locks|
        invariant 0 <= i <= |locks| && pending == old(pending)
        invariant forall j | 0 <= j < i :: !Conflict(locks[j], p, table, eLock)
      {
        if locks[i].owner != p && locks[i].table == table && locks[i].eLock != eLock {
          if eLock.WRITE_LOCK? { pending := true; }
          TwoActive(inTrans, p, locks[i].owner);
          return LOCKED;
        }
        i := i + 1;
      }
      return OK;
    }

    // setSharedCacheTableLock: strengthen the handle's lock on the table, or add one at the head of the list.
    method SetTableLock(p: nat, table: nat, eLock: LockType)
      requires Valid() && p in Active(inTrans) && (eLock.WRITE_LOCK? ==> writer == Handle(p))
               && !Conflicts(locks, p, table, eLock)
      modifies this`locks
      ensures Valid() && Granted(old(locks), locks, p, table, eLock) && locks == Locked(old(locks), p, table, eLock)
    {
      var i := 0;
      while i < |locks| && !(locks[i].table == table && locks[i].owner == p)
        invariant 0 <= i <= |locks| && locks == old(locks)
        invariant forall j | 0 <= j < i :: !(locks[j].owner == p && locks[j].table == table)
      {
        i := i + 1;
      }
      LockFound(locks, p, table, i);
      if i < |locks| {
        if eLock.WRITE_LOCK? && locks[i].eLock.READ_LOCK? {
          Strengthened(locks, writer, inTrans, i);
          locks := locks[i := locks[i].(eLock := WRITE_LOCK)];
        }
      } else {
        Added(locks, writer, inTrans, Lock(p, table, eLock));
        locks := [Lock(p, table, eLock)] + locks;
      }
    }

    /** sqlite3BtreeLockTable: refused exactly when another handle has the table locked and one of the two writes. */
    method LockTable(p: nat, table: nat, eLock: LockType) returns (rc: Rc)
      requires Valid() && p in Active(inTrans) && (eLock.WRITE_LOCK? ==> writer == Handle(p))
      modifies this`pending, this`locks
      ensures Valid() && rc != FAILED
      ensures rc == LOCKED <==>
                old(exists i :: 0 <= i < |locks| && locks[i].owner != p && locks[i].table == table
                      && (eLock == WRITE_LOCK || locks[i].eLock == WRITE_LOCK))
      ensures rc == LOCKED ==> locks == old(locks) && pending == (old(pending) || eLock.WRITE_LOCK?)
      ensures rc == OK ==> pending == old(pending) && Granted(old(locks), locks, p, table, eLock)
      ensures rc == OK ==> locks == Locked(old(locks), p, table, eLock)
    {
      rc := QueryTableLock(p, table, eLock);
      if rc == OK { SetTableLock(p, table, eLock); }
    }

    /** sqlite3BtreeBeginTrans; readOnly is a read-only database, pagerOk says whether the pager could take its
        own lock, and lateOk whether it could then write page 1 and open its savepoints. If it could not, the call
        fails with the transaction entered. */
    method BeginTrans(p: nat, wrflag: nat, readOnly: bool, pagerOk: bool, lateOk: bool) returns (rc: Rc)
      requires Valid() && p in inTrans
      modifies this
      ensures Valid()
      ensures rc == LOCKED <==>
                && old(inTrans[p]) != WRITE && (old(inTrans[p]) == READ ==> wrflag > 0) && !(readOnly && wrflag > 0)
                && old(|| (wrflag > 0 && exists q :: q in inTrans && inTrans[q] == WRITE)
                       || pending || exclusive
                       || (wrflag > 1 && exists q :: q in inTrans && q != p && inTrans[q] != NONE)
                       || exists i :: 0 <= i < |locks| && locks[i].table == 1 && locks[i].eLock == WRITE_LOCK)
      ensures rc == LOCKED ==> unchanged(this)
      ensures rc == OK ==>
                && p in inTrans && inTrans == old(inTrans)[p := inTrans[p]]
                && inTrans[p] == if wrflag > 0 || old(inTrans[p]) == WRITE then WRITE else READ
      ensures rc == Answer(old(Now()), DoBegin(p, wrflag, readOnly, pagerOk, lateOk))
      ensures Now() == After(old(Now()), DoBegin(p, wrflag, readOnly, pagerOk, lateOk))
    {
      hide WritesAlone, SchemaHeld, Owned;
      if inTrans[p] != WRITE { Refusals(Now(), p, wrflag); }
      if inTrans[p] == WRITE || (inTrans[p] == READ && wrflag == 0) {
        return if wrflag > 0 && !lateOk then FAILED else OK;
      }
      if readOnly && wrflag > 0 { return FAILED; }
      if (wrflag > 0 && inTransaction == WRITE) || pending {
        assert writer.Handle?;
        return LOCKED;
      } else if wrflag > 1 {
        var i := 0;
        while i < |locks|
          invariant 0 <= i <= |locks| && forall j | 0 <= j < i :: locks[j].owner == p
        {
          if locks[i].owner != p { return LOCKED; }
          i := i + 1;
        }
      }
      rc := QueryTableLock(p, SCHEMA_ROOT, READ_LOCK);
      if rc != OK { return; }
      if !pagerOk { return FAILED; }
      Start(p, wrflag);
      if wrflag > 0 && !lateOk { rc := FAILED; }
    }

    // Enter the transaction.
    method Start(p: nat, wrflag: nat)
      requires Valid() && p in inTrans && inTrans[p] != WRITE && !(inTrans[p] == READ && wrflag == 0)
               && !BlockedIn(Now(), p, wrflag)
      modifies this
      ensures Valid() && Now() == Begun(old(Now()), p, wrflag)
    {
      hide Sound;
      Counted(nTransaction, inTrans, writer, inTransaction, exclusive, pending, locks);
      StartSound(nTransaction, inTrans, writer, inTransaction, exclusive, pending, locks, p, wrflag);
      var was := inTrans[p];
      if was == NONE { nTransaction := nTransaction + 1; }
      inTrans := inTrans[p := if wrflag > 0 then WRITE else READ];
      if was == NONE { locks := [Lock(p, SCHEMA_ROOT, READ_LOCK)] + locks; }
      if inTransaction == NONE || (inTransaction == READ && wrflag > 0) {
        inTransaction := if wrflag > 0 then WRITE else READ;
      }
      if wrflag > 0 {
        writer := Handle(p);
        exclusive := wrflag > 1;
      }
      assert [] + old(locks) == old(locks);
    }

    // clearAllSharedCacheTableLocks: drop the locks of a handle that is leaving its transaction.
    method ClearLocks(p: nat)
      requires nTransaction > 0
      modifies this`locks, this`writer, this`exclusive, this`pending
      ensures locks == Others(old(locks), p)
      ensures if old(writer) == Handle(p) then writer == Nobody && !exclusive && !pending
              else
                && writer == old(writer) && exclusive == old(exclusive)
                && pending == (old(pending) && nTransaction != 2)
    {
      var kept, i := [], 0;
      while i < |locks|
        invariant 0 <= i <= |locks| && kept == Others(locks[..i], p) && locks == old(locks)
      {
        assert locks[..i + 1][..i] == locks[..i];
        if locks[i].owner != p { kept := kept + [locks[i]]; }
        i := i + 1;
      }
      assert locks[..i] == locks;
      locks := kept;
      if writer == Handle(p) {
        writer, exclusive, pending := Nobody, false, false;
      } else if nTransaction == 2 {
        pending := false;
      }
    }

    // downgradeAllSharedCacheTableLocks: the writer becomes a reader.
    method DowngradeLocks(p: nat)
      requires WritesAlone(locks, writer)
      modifies this`locks, this`writer, this`exclusive, this`pending
      ensures if old(writer) == Handle(p) then locks == Downgraded(old(locks), p) && writer == Nobody && !exclusive
              && !pending
              else unchanged(this)
    {
      if writer == Handle(p) {
        writer, exclusive, pending := Nobody, false, false;
        var i := 0;
        while i < |locks|
          invariant 0 <= i <= |locks| == |old(locks)|
          invariant forall j | 0 <= j < i :: locks[j] == old(locks)[j].(eLock := READ_LOCK)
          invariant forall j | i <= j < |locks| :: locks[j] == old(locks)[j]
          invariant writer == Nobody && !exclusive && !pending
        {
          locks := locks[i := locks[i].(eLock := READ_LOCK)];
          i := i + 1;
        }
      }
    }

    /** btreeEndTransaction, after a commit or a rollback; reading says that other statements of the connection still
        read. */
    method EndTransaction(p: nat, reading: bool)
      requires Valid() && p in inTrans
      modifies this
      ensures Valid()
      ensures Now() == Ended(old(Now()), p, reading)
      ensures inTrans == old(inTrans)[p := if reading && old(inTrans[p]) != NONE then READ else NONE]
      ensures !reading && old(inTrans[p]) != NONE ==> forall k :: k in locks <==> k in old(locks) && k.owner != p
      ensures reading || old(inTrans[p]) == NONE ==> |locks| == |old(locks)| && forall i | 0 <= i < |locks| ::
                locks[i] == if old(locks)[i].owner == p then old(locks)[i].(eLock := READ_LOCK) else old(locks)[i]
    {
      hide Sound, Others, Downgraded, WritesAlone;
      EndedLocks(nTransaction, inTrans, writer, inTransaction, exclusive, pending, locks, p);
      SoundParts(nTransaction, inTrans, writer, inTransaction, exclusive, pending, locks, p);
      LeaveSound(nTransaction, inTrans, writer, inTransaction, exclusive, pending, locks, p);
      DowngradeSound(nTransaction, inTrans, writer, inTransaction, exclusive, pending, locks, p);
      Counted(nTransaction, inTrans, writer, inTransaction, exclusive, pending, locks);
      if inTrans[p] == WRITE { inTransaction := READ; }
      if inTrans[p] != NONE && reading {
        DowngradeLocks(p);
        inTrans := inTrans[p := READ];
      } else {
        if inTrans[p] != NONE {
          ClearLocks(p);
          nTransaction := nTransaction - 1;
          if nTransaction == 0 { inTransaction := NONE; }
        }
        assert inTrans[p] == NONE ==> inTrans[p := NONE] == inTrans;
        inTrans := inTrans[p := NONE];
      }
    }

    // sqlite3BtreeClose: the handle rolls back and is gone.
    method Close(p: nat)
      requires Valid() && p in inTrans
      modifies this
      ensures Valid() && Now() == Closed(old(Now()), p)
    {
      hide Sound, Others, Downgraded;
      EndTransaction(p, false);
      HandleGone(nTransaction, inTrans, writer, inTransaction, exclusive, pending, locks, p);
      inTrans := inTrans - {p};
    }

    // ---------- runs ----------

    /** One operation of any handle does to the cache what the transition function says. */
    method Apply(op: Op) returns (rc: Rc)
      requires Valid() && MayDo(Now(), op)
      modifies this
      ensures Valid() && Now() == After(old(Now()), op) && rc == Answer(old(Now()), op)
    {
      hide Owned, WritesAlone, SchemaHeld, BlockedIn, Locked, Others, Downgraded;
      rc := OK;
      match op {
        case DoOpen(p) => Open(p);
        case DoBegin(p, wrflag, readOnly, pagerOk, lateOk) => rc := BeginTrans(p, wrflag, readOnly, pagerOk, lateOk);
        case DoLock(p, table, eLock) => rc := LockTable(p, table, eLock);
        case DoEnd(p, reading) => EndTransaction(p, reading);
        case DoClose(p) => Close(p);
      }
    }

    /** Any run of operations by any handles, those a caller may not make left out. The history is the state before
        and after each operation: each follows from the one before by the transition function, every one is safe, and as
        long as a writer stays pending handles only leave. The answers are those the transition function goes by. */
    method ApplyAll(ops: seq<Op>) returns (rcs: seq<Rc>, ghost history: seq<State>)
      requires Valid()
      modifies this
      ensures Valid() && |history| == |ops| + 1 && history[0] == old(Now()) && history[|ops|] == Now()
      ensures |rcs| == |ops| && forall n | 0 <= n < |ops| :: rcs[n] == Answer(history[n], ops[n])
      ensures forall n | 0 <= n < |ops| :: history[n + 1] == Next(history[n], ops[n])
      ensures forall n | 0 <= n < |history| :: Safe(history[n]) && Good(history[n])
      ensures forall i, j | 0 <= i <= j < |history| && AllPending(history[i..j + 1]) ::
                Active(history[j].inTrans) <= Active(history[i].inTrans)
    {
      hide Sound, Active, AllPending, MayDo, After, Safe, Answer, Good;
      rcs, history := [], [Now()];
      SafeState(nTransaction, inTrans, writer, inTransaction, exclusive, pending, locks);
      for i := 0 to |ops|
        invariant Valid() && |history| == i + 1 && history[0] == old(Now()) && history[i] == Now()
        invariant forall n | 0 <= n < i :: history[n + 1] == Next(history[n], ops[n])
        invariant |rcs| == i && forall n | 0 <= n < i :: rcs[n] == Answer(history[n], ops[n])
        invariant forall n | 0 <= n <= i :: Safe(history[n]) && Good(history[n])
      {
        var rc := FAILED;
        if MayDo(Now(), ops[i]) { rc := Apply(ops[i]); } else { NoAnswer(Now(), ops[i]); }
        rcs, history := rcs + [rc], history + [Now()];
        SafeState(nTransaction, inTrans, writer, inTransaction, exclusive, pending, locks);
      }
      forall i, j | 0 <= i <= j < |history| && AllPending(history[i..j + 1])
        ensures Active(history[j].inTrans) <= Active(history[i].inTrans)
      {
        LeavingSince(history, ops, i, j);
      }
    }
  }

  // ---------- the cache as a value ----------

  /** What the handles can tell of the cache. The shared transaction state and the number of transactions follow from it
      in a sound cache. */
  datatype State = State(locks: seq<Lock>, writer: Owner, exclusive: bool, pending: bool, inTrans: map<nat, Trans>)

  // The transaction asked for is open already.
  predicate InAlready(s: State, p: nat, wrflag: nat)
    requires p in s.inTrans
  {
    s.inTrans[p] == WRITE || (s.inTrans[p] == READ && wrflag == 0)
  }

  // Why a transaction may not be started.
  ghost predicate BlockedIn(s: State, p: nat, wrflag: nat) {
    || (wrflag > 0 && s.writer.Handle?) || s.pending
    || (wrflag > 1 && exists i :: 0 <= i < |s.locks| && s.locks[i].owner != p)
    || (s.exclusive && s.writer != Handle(p)) || Conflicts(s.locks, p, SCHEMA_ROOT, READ_LOCK)
  }

  ghost predicate Enters(s: State, p: nat, wrflag: nat, readOnly: bool, pagerOk: bool)
    requires p in s.inTrans
  {
    !InAlready(s, p, wrflag) && !(readOnly && wrflag > 0) && !BlockedIn(s, p, wrflag) && pagerOk
  }

  // p in a transaction, with a lock on the schema table.
  function Begun(s: State, p: nat, wrflag: nat): State
    requires p in s.inTrans
  {
    State((if s.inTrans[p] == NONE then [Lock(p, SCHEMA_ROOT, READ_LOCK)] else []) + s.locks,
          if wrflag > 0 then Handle(p) else s.writer, if wrflag > 0 then wrflag > 1 else s.exclusive, s.pending,
          s.inTrans[p := if wrflag > 0 then WRITE else READ])
  }

  // Where p's lock on the table is, or the length of the list.
  function LockOf(locks: seq<Lock>, p: nat, table: nat): (i: nat)
    ensures i <= |locks|
  {
    if locks == [] || (locks[0].owner == p && locks[0].table == table) then 0 else 1 + LockOf(locks[1..], p, table)
  }

  lemma {:induction false} LockFound(locks: seq<Lock>, p: nat, table: nat, i: nat)
    requires i <= |locks| && forall j | 0 <= j < i :: !(locks[j].owner == p && locks[j].table == table)
    requires i < |locks| ==> locks[i].owner == p && locks[i].table == table
    ensures LockOf(locks, p, table) == i
  {
    if i > 0 { LockFound(locks[1..], p, table, i - 1); }
  }

  // p's lock on the table strengthened, or a new one at the head of the list.
  function Locked(locks: seq<Lock>, p: nat, table: nat, eLock: LockType): seq<Lock> {
    var i := LockOf(locks, p, table);
    if i == |locks| then [Lock(p, table, eLock)] + locks
    else if eLock.WRITE_LOCK? && locks[i].eLock.READ_LOCK? then locks[i := locks[i].(eLock := WRITE_LOCK)]
    else locks
  }

  // p goes back to reading or leaves its transaction.
  ghost function Ended(s: State, p: nat, reading: bool): State
    requires p in s.inTrans
  {
    if s.inTrans[p] == NONE then s
    else if reading then
      if s.writer == Handle(p) then State(Downgraded(s.locks, p), Nobody, false, false, s.inTrans[p := READ])
      else s.(inTrans := s.inTrans[p := READ])
    else if s.writer == Handle(p) then State(Others(s.locks, p), Nobody, false, false, s.inTrans[p := NONE])
    else State(Others(s.locks, p), s.writer, s.exclusive, s.pending && |Active(s.inTrans)| != 2, s.inTrans[p := NONE])
  }

  ghost function Closed(s: State, p: nat): State
    requires p in s.inTrans
  {
    var e := Ended(s, p, false);
    e.(inTrans := e.inTrans - {p})
  }

  // What the source asserts of its callers.
  predicate MayDo(s: State, op: Op) {
    match op
    case DoOpen(p) => p !in s.inTrans
    case DoBegin(p, _, _, _, _) => p in s.inTrans
    case DoLock(p, _, eLock) => p in s.inTrans && s.inTrans[p] != NONE && (eLock.WRITE_LOCK? ==> s.inTrans[p] == WRITE)
    case DoEnd(p, _) => p in s.inTrans
    case DoClose(p) => p in s.inTrans
  }

  /** The state after an operation. */
  ghost function After(s: State, op: Op): State
    requires MayDo(s, op)
  {
    match op
    case DoOpen(p) => s.(inTrans := s.inTrans[p := NONE])
    case DoBegin(p, wrflag, readOnly, pagerOk, _) =>
      if Enters(s, p, wrflag, readOnly, pagerOk) then Begun(s, p, wrflag) else s
    case DoLock(p, table, eLock) =>
      if Conflicts(s.locks, p, table, eLock) then s.(pending := s.pending || eLock.WRITE_LOCK?)
      else s.(locks := Locked(s.locks, p, table, eLock))
    case DoEnd(p, reading) => Ended(s, p, reading)
    case DoClose(p) => Closed(s, p)
  }

  // What the caller is told; FAILED also for a call that may not be made.
  ghost function Answer(s: State, op: Op): Rc {
    if !MayDo(s, op) then FAILED
    else
      match op
      case DoBegin(p, wrflag, readOnly, pagerOk, lateOk) =>
        if InAlready(s, p, wrflag) then if wrflag > 0 && !lateOk then FAILED else OK
        else if readOnly && wrflag > 0 then FAILED
        else if BlockedIn(s, p, wrflag) then LOCKED
        else if !pagerOk || (wrflag > 0 && !lateOk) then FAILED
        else OK
      case DoLock(p, table, eLock) => if Conflicts(s.locks, p, table, eLock) then LOCKED else OK
      case _ => OK
  }

  lemma NoAnswer(s: State, op: Op)
    requires !MayDo(s, op)
    ensures Answer(s, op) == FAILED
  {
  }

  // A sound cache, as a value.
  ghost predicate Good(s: State) {
    var n := |Active(s.inTrans)|;
    var it := if s.writer.Handle? then WRITE else if n > 0 then READ else NONE;
    Sound(n, s.inTrans, s.writer, it, s.exclusive, s.pending, s.locks)
  }

  /** Why a transaction that is not open yet may not be started, in terms of the other handles. */
  lemma Refusals(s: State, p: nat, wrflag: nat)
    requires Good(s) && p in s.inTrans && s.inTrans[p] != WRITE
    ensures BlockedIn(s, p, wrflag) <==>
              || (wrflag > 0 && exists q :: q in s.inTrans && s.inTrans[q] == WRITE)
              || s.pending || s.exclusive
              || (wrflag > 1 && exists q :: q in s.inTrans && q != p && s.inTrans[q] != NONE)
              || exists i :: 0 <= i < |s.locks| && s.locks[i].table == 1 && s.locks[i].eLock == WRITE_LOCK
  {
    if s.writer.Handle? { assert s.inTrans[s.writer.id] == WRITE; }
    OthersLocked(s, p);
    SchemaWritten(s, p);
  }

  // Another handle has a lock exactly if it is in a transaction.
  lemma OthersLocked(s: State, p: nat)
    requires Good(s)
    ensures (exists i :: 0 <= i < |s.locks| && s.locks[i].owner != p)
            <==> exists q :: q in s.inTrans && q != p && s.inTrans[q] != NONE
  {
    hide WritesAlone;
    if i :| 0 <= i < |s.locks| && s.locks[i].owner != p { assert s.locks[i].owner in Active(s.inTrans); }
    if q :| q in s.inTrans && q != p && s.inTrans[q] != NONE {
      assert HasLock(s.locks, q, SCHEMA_ROOT);
    }
  }

  lemma SchemaWritten(s: State, p: nat)
    requires Good(s) && p in s.inTrans && s.inTrans[p] != WRITE
    ensures Conflicts(s.locks, p, SCHEMA_ROOT, READ_LOCK)
            <==> exists i :: 0 <= i < |s.locks| && s.locks[i].table == 1 && s.locks[i].eLock == WRITE_LOCK
  {
    if i :| 0 <= i < |s.locks| && s.locks[i].table == 1 && s.locks[i].eLock == WRITE_LOCK {
      assert s.writer == Handle(s.locks[i].owner);
      assert Conflict(s.locks[i], p, SCHEMA_ROOT, READ_LOCK);
    }
    if i :| 0 <= i < |s.locks| && Conflict(s.locks[i], p, SCHEMA_ROOT, READ_LOCK) {
      assert s.locks[i].table == 1 && s.locks[i].eLock == WRITE_LOCK;
    }
  }

  ghost function Next(s: State, op: Op): State { if MayDo(s, op) then After(s, op) else s }

  /** At most one writer, write-locked tables locked by one handle, exclusive means all locks are the writer's, pending
      means a writer waits for a reader, and every lock belongs to a handle in a transaction. */
  ghost predicate Safe(s: State) {
    && (forall g, h | g in s.inTrans && h in s.inTrans && s.inTrans[g] == s.inTrans[h] == WRITE :: g == h)
    && (forall i, j | 0 <= i < |s.locks| && 0 <= j < |s.locks| && s.locks[i].table == s.locks[j].table
          && s.locks[i].eLock.WRITE_LOCK? :: s.locks[i].owner == s.locks[j].owner)
    && (s.exclusive ==> forall i | 0 <= i < |s.locks| :: s.writer == Handle(s.locks[i].owner))
    && (s.pending ==>
          exists g, h :: g in s.inTrans && h in s.inTrans && s.inTrans[g] == WRITE && s.inTrans[h] == READ)
    && (forall i | 0 <= i < |s.locks| :: s.locks[i].owner in Active(s.inTrans))
  }

  predicate AllPending(history: seq<State>) { forall i | 0 <= i < |history| :: history[i].pending }

  // No operation lets a handle into a transaction while a writer is pending.
  lemma OnlyLeaves(s: State, op: Op)
    requires s.pending
    ensures Active(Next(s, op).inTrans) <= Active(s.inTrans)
  {
    hide Conflicts, Locked, Others, Downgraded;
  }

  lemma {:induction false} LeavingSince(history: seq<State>, ops: seq<Op>, i: nat, j: nat)
    requires i <= j < |history| == |ops| + 1 && AllPending(history[i..j + 1])
    requires forall n | 0 <= n < |ops| :: history[n + 1] == Next(history[n], ops[n])
    ensures Active(history[j].inTrans) <= Active(history[i].inTrans)
    decreases j
  {
    hide Next, Active;
    if i < j {
      assert history[i..j + 1][j - 1 - i] == history[j - 1];
      assert history[i..j + 1][..j - i] == history[i..j];
      LeavingSince(history, ops, i, j - 1);
      OnlyLeaves(history[j - 1], ops[j - 1]);
      assert history[j - 1 + 1] == Next(history[j - 1], ops[j - 1]);
    }
  }

  lemma Counted(n: nat, inTrans: map<nat, Trans>, writer: Owner, it: Trans, exclusive: bool, pending: bool,
                locks: seq<Lock>)
    requires Sound(n, inTrans, writer, it, exclusive, pending, locks)
    ensures n == |Active(inTrans)| && (it == WRITE <==> writer.Handle?)
    ensures forall p | writer != Handle(p) :: Downgraded(locks, p) == locks
  {
    forall p | writer != Handle(p) ensures Downgraded(locks, p) == locks {
      assert forall i | 0 <= i < |locks| && locks[i].owner == p :: locks[i].(eLock := READ_LOCK) == locks[i];
    }
  }

  // An operation of one handle.
  datatype Op = DoOpen(p: nat) | DoBegin(p: nat, wrflag: nat, readOnly: bool, pagerOk: bool, lateOk: bool)
              | DoLock(p: nat, table: nat, eLock: LockType) | DoEnd(p: nat, reading: bool) | DoClose(p: nat)

  /** What soundness means for the handles and their locks. */
  lemma SafeState(n: nat, inTrans: map<nat, Trans>, writer: Owner, it: Trans, exclusive: bool, pending: bool,
                  locks: seq<Lock>)
    requires Sound(n, inTrans, writer, it, exclusive, pending, locks)
    ensures Safe(State(locks, writer, exclusive, pending, inTrans))
    ensures Good(State(locks, writer, exclusive, pending, inTrans))
  {
    forall i, j | 0 <= i < |locks| && 0 <= j < |locks| && locks[i].table == locks[j].table && locks[i].eLock.WRITE_LOCK?
      ensures locks[i].owner == locks[j].owner
    {
      assert !Conflict(locks[j], locks[i].owner, locks[i].table, WRITE_LOCK);
    }
    if pending {
      var w := writer.id;
      assert w in Active(inTrans);
      assert Active(inTrans) == (Active(inTrans) - {w}) + {w};
      var h :| h in Active(inTrans) - {w};
      assert inTrans[w] == WRITE && inTrans[h] == READ;
    }
  }

  lemma SoundParts(n: nat, inTrans: map<nat, Trans>, writer: Owner, it: Trans, exclusive: bool, pending: bool,
                   locks: seq<Lock>, p: nat)
    requires Sound(n, inTrans, writer, it, exclusive, pending, locks) && p in inTrans
    ensures (inTrans[p] == WRITE <==> writer == Handle(p)) && WritesAlone(locks, writer)
            && (inTrans[p] != NONE ==> n > 0)
  {
    if inTrans[p] != NONE { assert p in Active(inTrans); }
  }

  lemma HandleGone(n: nat, inTrans: map<nat, Trans>, writer: Owner, it: Trans, exclusive: bool, pending: bool,
                   locks: seq<Lock>, p: nat)
    requires Sound(n, inTrans, writer, it, exclusive, pending, locks) && p in inTrans && inTrans[p] == NONE
    ensures Sound(n, inTrans - {p}, writer, it, exclusive, pending, locks)
  {
    hide WritesAlone, HasLock;
    assert Active(inTrans - {p}) == Active(inTrans);
  }

  lemma StartSound(n: nat, inTrans: map<nat, Trans>, writer: Owner, it: Trans, exclusive: bool, pending: bool,
                   locks: seq<Lock>, p: nat, wrflag: nat)
    requires Sound(n, inTrans, writer, it, exclusive, pending, locks) && p in inTrans && inTrans[p] != WRITE
             && !(inTrans[p] == READ && wrflag == 0)
    requires !(wrflag > 0 && it == WRITE) && !pending
             && !(wrflag > 1 && exists i :: 0 <= i < |locks| && locks[i].owner != p)
    requires !(exclusive && writer != Handle(p)) && !Conflicts(locks, p, SCHEMA_ROOT, READ_LOCK)
    ensures var t := if wrflag > 0 then WRITE else READ;
            Sound(if inTrans[p] == NONE then n + 1 else n, inTrans[p := t], if wrflag > 0 then Handle(p) else writer,
                  if it == NONE || (it == READ && wrflag > 0) then t else it, if wrflag > 0 then wrflag > 1
                      else exclusive, pending,
                  (if inTrans[p] == NONE then [Lock(p, SCHEMA_ROOT, READ_LOCK)] else []) + locks)
  {
    hide Owned, WritesAlone, SchemaHeld, Conflicts, Active;
    StartLocks(locks, inTrans, writer, p, if wrflag > 0 then WRITE else READ);
    OnlyActive(locks, inTrans, p);
  }

  lemma LeaveSound(n: nat, inTrans: map<nat, Trans>, writer: Owner, it: Trans, exclusive: bool, pending: bool,
                   locks: seq<Lock>, p: nat)
    requires Sound(n, inTrans, writer, it, exclusive, pending, locks) && p in inTrans
    ensures inTrans[p] != NONE ==> n > 0 && var mine := writer == Handle(p);
            Sound(n - 1, inTrans[p := NONE], if mine then Nobody else writer, if n == 1 then NONE else if mine
                then READ else it,
                  exclusive && !mine, pending && !mine && n != 2, Others(locks, p))
  {
    hide Owned, WritesAlone, SchemaHeld, Others, Active;
    if inTrans[p] != NONE {
      ActiveEnds(inTrans, p);
      OthersKeep(locks, inTrans, writer, p);
      if writer.Handle? && writer != Handle(p) { StillThere(inTrans, p, writer.id); }
    }
  }

  lemma DowngradeSound(n: nat, inTrans: map<nat, Trans>, writer: Owner, it: Trans, exclusive: bool, pending: bool,
                       locks: seq<Lock>, p: nat)
    requires Sound(n, inTrans, writer, it, exclusive, pending, locks) && p in inTrans
    ensures inTrans[p] != NONE ==> var mine := writer == Handle(p);
            Sound(n, inTrans[p := READ], if mine then Nobody else writer, if mine then READ else it,
                  exclusive && !mine, pending && !mine, Downgraded(locks, p))
            && (!mine ==> Downgraded(locks, p) == locks)
  {
    hide Owned, WritesAlone, SchemaHeld, Downgraded, Active;
    if inTrans[p] != NONE {
      ActiveEnds(inTrans, p);
      DowngradeKeeps(locks, inTrans, writer, p);
    }
  }

  lemma TwoActive(inTrans: map<nat, Trans>, p: nat, q: nat)
    requires p != q && q in Active(inTrans)
    ensures p in Active(inTrans) ==> |Active(inTrans)| >= 2
  {
    if p in Active(inTrans) {
      assert {p, q} <= Active(inTrans);
      var rest := Active(inTrans) - {p, q};
      assert Active(inTrans) == rest + {p, q};
    }
  }

  // The lock list after granting a lock: p has a lock on the table at least as strong as asked, and nothing else
  // changed.
  ghost predicate Granted(locks: seq<Lock>, locks': seq<Lock>, p: nat, table: nat, eLock: LockType) {
    || (locks' == [Lock(p, table, eLock)] + locks && !HasLock(locks, p, table))
    || (exists i :: 0 <= i < |locks| && locks[i].owner == p && locks[i].table == table
          && locks' == locks[i := locks[i].(eLock := if eLock.WRITE_LOCK? then WRITE_LOCK else locks[i].eLock)])
  }

  lemma Strengthened(locks: seq<Lock>, writer: Owner, inTrans: map<nat, Trans>, i: nat)
    requires Owned(locks, inTrans) && WritesAlone(locks, writer) && SchemaHeld(locks, inTrans) && i < |locks|
    requires writer == Handle(locks[i].owner) && !Conflicts(locks, locks[i].owner, locks[i].table, WRITE_LOCK)
    ensures var locks' := locks[i := locks[i].(eLock := WRITE_LOCK)];
            Owned(locks', inTrans) && WritesAlone(locks', writer) && SchemaHeld(locks', inTrans)
  {
    var locks' := locks[i := locks[i].(eLock := WRITE_LOCK)];
    forall j | 0 <= j < |locks'| && locks'[j].eLock.WRITE_LOCK?
      ensures !Conflicts(locks', locks'[j].owner, locks'[j].table, WRITE_LOCK)
    {
      forall k | 0 <= k < |locks'| ensures !Conflict(locks'[k], locks'[j].owner, locks'[j].table, WRITE_LOCK) {
        assert !Conflict(locks[k], locks[j].owner, locks[j].table, WRITE_LOCK);
      }
    }
    forall h | h in Active(inTrans) ensures HasLock(locks', h, SCHEMA_ROOT) {
      var k :| 0 <= k < |locks| && locks[k].owner == h && locks[k].table == SCHEMA_ROOT;
      assert locks'[k].owner == h;
    }
  }

  lemma Added(locks: seq<Lock>, writer: Owner, inTrans: map<nat, Trans>, l: Lock)
    requires Owned(locks, inTrans) && WritesAlone(locks, writer)
    requires l.owner in Active(inTrans) && !HasLock(locks, l.owner, l.table)
             && !Conflicts(locks, l.owner, l.table, l.eLock)
    requires l.eLock.WRITE_LOCK? ==> writer == Handle(l.owner)
    ensures Owned([l] + locks, inTrans) && WritesAlone([l] + locks, writer)
    ensures forall h, t | HasLock(locks, h, t) :: HasLock([l] + locks, h, t)
    ensures HasLock([l] + locks, l.owner, l.table)
  {
    var locks' := [l] + locks;
    forall j | 0 <= j < |locks'| && locks'[j].eLock.WRITE_LOCK?
      ensures !Conflicts(locks', locks'[j].owner, locks'[j].table, WRITE_LOCK)
    {
      forall k | 0 <= k < |locks'| ensures !Conflict(locks'[k], locks'[j].owner, locks'[j].table, WRITE_LOCK) {
        assert j > 0 && k > 0 ==> !Conflict(locks[k - 1], locks[j - 1].owner, locks[j - 1].table, WRITE_LOCK);
        assert j > 0 ==> !Conflict(locks[j - 1], l.owner, l.table, l.eLock);
        assert k > 0 ==> !Conflict(locks[k - 1], l.owner, l.table, l.eLock);
      }
    }
    forall h, t | HasLock(locks, h, t) ensures HasLock(locks', h, t) {
      var k :| 0 <= k < |locks| && locks[k].owner == h && locks[k].table == t;
      assert locks'[k + 1].owner == h;
    }
    assert locks'[0] == l;
  }

  lemma ActiveAfter(inTrans: map<nat, Trans>, p: nat, t: Trans)
    requires p in inTrans && t != NONE
    ensures Active(inTrans[p := t]) == Active(inTrans) + {p}
    ensures inTrans[p] == NONE ==> p !in Active(inTrans) && |Active(inTrans[p := t])| == |Active(inTrans)| + 1
    ensures inTrans[p] != NONE ==> Active(inTrans[p := t]) == Active(inTrans)
  {
  }

  // The locks when p enters a transaction or goes from reading to writing.
  lemma StartLocks(locks: seq<Lock>, inTrans: map<nat, Trans>, writer: Owner, p: nat, t: Trans)
    requires Owned(locks, inTrans) && WritesAlone(locks, writer) && SchemaHeld(locks, inTrans) && p in inTrans
             && t != NONE
    requires (t == WRITE ==> writer == Nobody) && !Conflicts(locks, p, SCHEMA_ROOT, READ_LOCK)
    ensures var inTrans', writer' := inTrans[p := t], if t == WRITE then Handle(p) else writer;
            var locks' := (if inTrans[p] == NONE then [Lock(p, SCHEMA_ROOT, READ_LOCK)] else []) + locks;
            Owned(locks', inTrans') && WritesAlone(locks', writer') && SchemaHeld(locks', inTrans')
            && |Active(inTrans')| == |Active(inTrans)| + (if inTrans[p] == NONE then 1 else 0)
                 && Active(inTrans') == Active(inTrans) + {p}
  {
    hide Conflicts, Owned, WritesAlone, SchemaHeld, Active;
    ActiveAfter(inTrans, p, t);
    if inTrans[p] == NONE {
      EnterLocks(locks, inTrans, writer, p, t);
    } else {
      assert [] + locks == locks;
      UpgradeLocks(locks, inTrans, writer, p, t);
    }
  }

  lemma UpgradeLocks(locks: seq<Lock>, inTrans: map<nat, Trans>, writer: Owner, p: nat, t: Trans)
    requires Owned(locks, inTrans) && WritesAlone(locks, writer) && SchemaHeld(locks, inTrans) && p in inTrans
             && t != NONE
    requires (t == WRITE ==> writer == Nobody) && inTrans[p] != NONE
    ensures Owned(locks, inTrans[p := t]) && SchemaHeld(locks, inTrans[p := t])
    ensures WritesAlone(locks, if t == WRITE then Handle(p) else writer)
  {
    hide Conflicts;
    ActiveAfter(inTrans, p, t);
  }

  lemma EnterLocks(locks: seq<Lock>, inTrans: map<nat, Trans>, writer: Owner, p: nat, t: Trans)
    requires Owned(locks, inTrans) && WritesAlone(locks, writer) && SchemaHeld(locks, inTrans) && p in inTrans
             && t != NONE
    requires (t == WRITE ==> writer == Nobody) && inTrans[p] == NONE && !Conflicts(locks, p, SCHEMA_ROOT, READ_LOCK)
    ensures var locks' := [Lock(p, SCHEMA_ROOT, READ_LOCK)] + locks;
            Owned(locks', inTrans[p := t]) && SchemaHeld(locks', inTrans[p := t])
            && WritesAlone(locks', if t == WRITE then Handle(p) else writer)
  {
    hide Conflicts;
    ActiveAfter(inTrans, p, t);
    Added(locks, if t == WRITE then Handle(p) else writer, inTrans[p := t], Lock(p, SCHEMA_ROOT, READ_LOCK));
  }

  // When no lock belongs to another handle, no other handle is in a transaction.
  lemma OnlyActive(locks: seq<Lock>, inTrans: map<nat, Trans>, p: nat)
    requires SchemaHeld(locks, inTrans)
    ensures (forall i | 0 <= i < |locks| :: locks[i].owner == p) ==> Active(inTrans) <= {p}
  {
    if forall i | 0 <= i < |locks| :: locks[i].owner == p {
      forall h | h in Active(inTrans) ensures h == p {
        assert HasLock(locks, h, SCHEMA_ROOT);
      }
    }
  }

  // ---------- ending a transaction ----------

  // The locks of handles other than p, in the same order.
  function Others(locks: seq<Lock>, p: nat): (r: seq<Lock>)
    ensures forall k | k in r :: k in locks && k.owner != p
  {
    if locks == [] then []
    else
      var n := |locks| - 1;
      Others(locks[..n], p) + if locks[n].owner != p then [locks[n]] else []
  }

  // p's write locks become read locks.
  function Downgraded(locks: seq<Lock>, p: nat): (r: seq<Lock>)
    ensures |r| == |locks| && forall i | 0 <= i < |locks| ::
              r[i] == if locks[i].owner == p then locks[i].(eLock := READ_LOCK) else locks[i]
  {
    seq(|locks|, i requires 0 <= i < |locks| => if locks[i].owner == p then locks[i].(eLock := READ_LOCK) else locks[i])
  }

  // The locks after p has left or gone back to reading.
  lemma EndedLocks(n: nat, inTrans: map<nat, Trans>, writer: Owner, it: Trans, exclusive: bool, pending: bool,
                   locks: seq<Lock>, p: nat)
    requires Sound(n, inTrans, writer, it, exclusive, pending, locks) && p in inTrans
    ensures forall k :: k in Others(locks, p) <==> k in locks && k.owner != p
    ensures |Downgraded(locks, p)| == |locks| && forall i | 0 <= i < |locks| ::
              Downgraded(locks, p)[i] == if locks[i].owner == p then locks[i].(eLock := READ_LOCK) else locks[i]
    ensures inTrans[p] == NONE || writer != Handle(p) ==> Downgraded(locks, p) == locks
  {
    hide SchemaHeld;
    OthersHold(locks, p);
    if inTrans[p] == NONE || writer != Handle(p) {
      forall i | 0 <= i < |locks| ensures Downgraded(locks, p)[i] == locks[i] {
        assert locks[i].owner in Active(inTrans);
      }
    }
  }

  lemma ActiveEnds(inTrans: map<nat, Trans>, p: nat)
    requires p in inTrans
    ensures Active(inTrans[p := NONE]) == Active(inTrans) - {p}
    ensures inTrans[p] != NONE ==>
              Active(inTrans[p := READ]) == Active(inTrans) && p in Active(inTrans)
              && |Active(inTrans)| > 0
    ensures inTrans[p] != NONE ==> |Active(inTrans[p := NONE])| == |Active(inTrans)| - 1
  {
  }

  lemma StillThere(inTrans: map<nat, Trans>, p: nat, w: nat)
    requires p in inTrans && w in inTrans && w != p && inTrans[w] != NONE
    ensures |Active(inTrans[p := NONE])| > 0
  {
    assert w in Active(inTrans[p := NONE]);
  }

  lemma {:induction false} OthersHold(locks: seq<Lock>, p: nat)
    ensures forall k | k in locks && k.owner != p :: k in Others(locks, p)
    ensures (forall i, j | 0 <= i < j < |locks| ::
              locks[i].owner != locks[j].owner || locks[i].table != locks[j].table) ==>
      forall i, j | 0 <= i < j < |Others(locks, p)| :: Others(locks, p)[i].owner != Others(locks, p)[j].owner
          || Others(locks, p)[i].table != Others(locks, p)[j].table
  {
    if locks != [] {
      var n := |locks| - 1;
      OthersHold(locks[..n], p);
      forall k | k in locks && k.owner != p ensures k in Others(locks, p) {
        assert k in locks[..n] || k == locks[n];
      }
    }
  }

  lemma OthersKeep(locks: seq<Lock>, inTrans: map<nat, Trans>, writer: Owner, p: nat)
    requires Owned(locks, inTrans) && WritesAlone(locks, writer) && SchemaHeld(locks, inTrans) && p in inTrans
    ensures var locks', inTrans', writer' := Others(locks, p), inTrans[p := NONE], if writer == Handle(p) then Nobody
            else writer;
            Owned(locks', inTrans') && WritesAlone(locks', writer') && SchemaHeld(locks', inTrans')
  {
    hide WritesAlone, Conflicts;
    OthersHold(locks, p);
    OthersAlone(locks, writer, p);
    var locks', inTrans' := Others(locks, p), inTrans[p := NONE];
    forall i | 0 <= i < |locks'| ensures locks'[i].owner in Active(inTrans') {
      assert locks'[i] in locks';
    }
    forall h | h in Active(inTrans') ensures HasLock(locks', h, SCHEMA_ROOT) {
      assert h in Active(inTrans) && h != p;
      var k :| 0 <= k < |locks| && locks[k].owner == h && locks[k].table == SCHEMA_ROOT;
      assert locks[k] in locks';
    }
  }

  lemma OthersAlone(locks: seq<Lock>, writer: Owner, p: nat)
    requires WritesAlone(locks, writer)
    ensures WritesAlone(Others(locks, p), if writer == Handle(p) then Nobody else writer)
  {
    var locks' := Others(locks, p);
    forall i | 0 <= i < |locks'| && locks'[i].eLock.WRITE_LOCK?
      ensures writer == Handle(locks'[i].owner) != Handle(p)
              && !Conflicts(locks', locks'[i].owner, locks'[i].table, WRITE_LOCK)
    {
      assert locks'[i] in locks';
      var j :| 0 <= j < |locks| && locks[j] == locks'[i];
      StillAlone(locks, locks', locks[j]);
    }
  }

  lemma StillAlone(locks: seq<Lock>, locks': seq<Lock>, l: Lock)
    requires (forall k | k in locks' :: k in locks) && !Conflicts(locks, l.owner, l.table, WRITE_LOCK)
    ensures !Conflicts(locks', l.owner, l.table, WRITE_LOCK)
  {
    forall k | 0 <= k < |locks'| ensures !Conflict(locks'[k], l.owner, l.table, WRITE_LOCK) {
      assert locks'[k] in locks';
      var m :| 0 <= m < |locks| && locks[m] == locks'[k];
      assert !Conflict(locks[m], l.owner, l.table, WRITE_LOCK);
    }
  }

  lemma DowngradeKeeps(locks: seq<Lock>, inTrans: map<nat, Trans>, writer: Owner, p: nat)
    requires Owned(locks, inTrans) && WritesAlone(locks, writer) && SchemaHeld(locks, inTrans) && p in Active(inTrans)
    ensures var locks', inTrans', writer' := Downgraded(locks, p), inTrans[p := READ], if writer == Handle(p)
            then Nobody else writer;
            Owned(locks', inTrans') && WritesAlone(locks', writer') && SchemaHeld(locks', inTrans')
                && (writer != Handle(p) ==> locks' == locks)
  {
    var locks', inTrans' := Downgraded(locks, p), inTrans[p := READ];
    assert Active(inTrans') == Active(inTrans);
    if writer != Handle(p) {
      assert locks' == locks;
    } else {
      forall h | h in Active(inTrans') ensures HasLock(locks', h, SCHEMA_ROOT) {
        var k :| 0 <= k < |locks| && locks[k].owner == h && locks[k].table == SCHEMA_ROOT;
        assert locks'[k].owner == h;
      }
    }
  }
}
