/** How connections take the mutexes of the shared caches they use. Each step below is one
    indivisible action of one connection; steps of different connections interleave freely. */
module BtMutex {

  // A b-tree handle: the shared cache it is on, whether its mutex is held, and how many times it was entered.
  datatype BtreeRef = BtreeRef(pBt: nat, locked: bool, wantToLock: nat)

  // Where a connection is: outside; about to try handle i; giving up the handles from j on before
  // waiting for i; waiting for i; or taking back the handles from j on.
  datatype Pc = Idle | Trying(i: nat) | Unlocking(i: nat, j: nat) | Locking(i: nat) | Relocking(i: nat, j: nat)

  // A connection: its sharable handles in ascending order of shared cache.
  datatype Conn = Conn(list: seq<BtreeRef>, pc: Pc)

  // holder maps each mutex that is held to the connection holding it; db is what each shared cache
  // records as the connection using it.
  datatype State = State(conns: seq<Conn>, holder: map<nat, nat>, db: map<nat, nat>)

  datatype Step = Enter(c: nat, i: nat) | Try(c: nat) | Unlock(c: nat) | Lock(c: nat) | Relock(c: nat) |
      Leave(c: nat, i: nat)

  function SetLocked(s: seq<BtreeRef>, k: nat, b: bool): (r: seq<BtreeRef>)
    requires k < |s|
  {
    s[k := s[k].(locked := b)]
  }

  // The state with connection c changed to n.
  function With(s: State, c: nat, n: Conn): State
    requires c < |s.conns|
  {
    s.(conns := s.conns[c := n])
  }

  // Connection c takes, or gives back, the mutex of its handle k and goes on at pc.
  function Acquire(s: State, c: nat, k: nat, pc: Pc): State
    requires c < |s.conns| && k < |s.conns[c].list|
  {
    var n := s.conns[c];
    With(s, c, Conn(SetLocked(n.list, k, true), pc)).(holder := s.holder[n.list[k].pBt := c], db :=
        s.db[n.list[k].pBt := c])
  }

  function Release(s: State, c: nat, k: nat, pc: Pc): State
    requires c < |s.conns| && k < |s.conns[c].list|
  {
    var n := s.conns[c];
    With(s, c, Conn(SetLocked(n.list, k, false), pc)).(holder := s.holder - {n.list[k].pBt})
  }

  // The mutex connection c has to wait for at its present point.
  function WaitsFor(n: Conn): (k: int)
    ensures k == -1 || 0 <= k < |n.list|
  {
    match n.pc
    case Locking(i) => if i < |n.list| then i else -1
    case Relocking(i, j) => if j < |n.list| && n.list[j].wantToLock > 0 then j else -1
    case _ => -1
  }

  /** What a step requires and what it makes of the state. Trying may fail even when the mutex is free. */
  ghost predicate Next(s: State, s': State, step: Step) {
    step.c < |s.conns| && var c, n := step.c, s.conns[step.c];
    match step
    case Enter(_, i) =>
      && n.pc.Idle? && i < |n.list|
      && var l := n.list[i := n.list[i].(wantToLock := n.list[i].wantToLock + 1)];
      s' == With(s, c, Conn(l, if n.list[i].locked then Idle else Trying(i)))
    case Try(_) =>
      && n.pc.Trying? && n.pc.i < |n.list|
      && (|| (n.list[n.pc.i].pBt !in s.holder && s' == Acquire(s, c, n.pc.i, Idle))
          || s' == With(s, c, n.(pc := Unlocking(n.pc.i, n.pc.i + 1))))
    case Unlock(_) =>
      && n.pc.Unlocking?
      && s' == if n.pc.j >= |n.list| then With(s, c, n.(pc := Locking(n.pc.i)))
               else if n.list[n.pc.j].locked then Release(s, c, n.pc.j, Unlocking(n.pc.i, n.pc.j + 1))
               else With(s, c, n.(pc := Unlocking(n.pc.i, n.pc.j + 1)))
    case Lock(_) =>
      && n.pc.Locking? && n.pc.i < |n.list| && n.list[n.pc.i].pBt !in s.holder
      && s' == Acquire(s, c, n.pc.i, Relocking(n.pc.i, n.pc.i + 1))
    case Relock(_) =>
      && n.pc.Relocking?
      && if n.pc.j >= |n.list| then s' == With(s, c, n.(pc := Idle))
         else if n.list[n.pc.j].wantToLock > 0 then n.list[n.pc.j].pBt !in s.holder
             && s' == Acquire(s, c, n.pc.j, Relocking(n.pc.i, n.pc.j + 1))
         else s' == With(s, c, n.(pc := Relocking(n.pc.i, n.pc.j + 1)))
    case Leave(_, i) =>
      && n.pc.Idle? && i < |n.list| && n.list[i].wantToLock > 0
      && var l := n.list[i := n.list[i].(wantToLock := n.list[i].wantToLock - 1)];
      var m := With(s, c, n.(list := l));
      s' == if l[i].wantToLock == 0 then Release(m, c, i, Idle) else m
  }

  // ---------- the invariant ----------

  ghost predicate Ascending(list: seq<BtreeRef>) { forall j, k | 0 <= j < k < |list| :: list[j].pBt < list[k].pBt }

  // Handles lo..hi are locked exactly if they are wanted.
  ghost predicate AllSettled(list: seq<BtreeRef>, lo: nat, hi: nat) {
    hi <= |list| && forall k | lo <= k < hi :: list[k].locked <==> list[k].wantToLock > 0
  }

  ghost predicate NoneLocked(list: seq<BtreeRef>, lo: nat, hi: nat) {
    hi <= |list| && forall k | lo <= k < hi :: !list[k].locked
  }

  /** A connection at each point: which handles it holds. */
  ghost predicate ConnOk(n: Conn) {
    Ascending(n.list) && var l := n.list;
    match n.pc
    case Idle => AllSettled(l, 0, |l|)
    case Trying(i) => i < |l| && !l[i].locked && l[i].wantToLock > 0 && AllSettled(l, 0, i) && AllSettled(l, i + 1, |l|)
    case Unlocking(i, j) => i < j <= |l| && !l[i].locked && l[i].wantToLock > 0 && AllSettled(l, 0, i)
        && NoneLocked(l, i, j) && AllSettled(l, j, |l|)
    case Locking(i) => i < |l| && l[i].wantToLock > 0 && AllSettled(l, 0, i) && NoneLocked(l, i, |l|)
    case Relocking(i, j) => i < j <= |l| && AllSettled(l, 0, j) && NoneLocked(l, j, |l|)
  }

  // Connection c has a locked handle on mutex m.
  ghost predicate Has(s: State, c: nat, m: nat) {
    c < |s.conns| && exists k :: 0 <= k < |s.conns[c].list| && s.conns[c].list[k].pBt == m && s.conns[c].list[k].locked
  }

  ghost predicate Holders(s: State) {
    && (forall m: nat, c: nat :: Has(s, c, m) <==> m in s.holder && s.holder[m] == c)
    && (forall m | m in s.holder :: m in s.db && s.db[m] == s.holder[m])
  }

  ghost predicate Inv(s: State) {
    (forall c | 0 <= c < |s.conns| :: ConnOk(s.conns[c])) && Holders(s)
  }

  // ---------- every step keeps it ----------

  // Connection c moves on without touching a mutex.
  lemma Moved(s: State, c: nat, n: Conn)
    requires Inv(s) && c < |s.conns| && ConnOk(n) && SameLocks(s.conns[c].list, n.list)
    ensures Inv(With(s, c, n))
  {
    var s' := With(s, c, n);
    forall d: nat, m: nat ensures Has(s', d, m) <==> Has(s, d, m) {
      if d == c { SameHas(s, c, n, m); }
    }
  }

  ghost predicate SameLocks(a: seq<BtreeRef>, b: seq<BtreeRef>) {
    |a| == |b| && forall k | 0 <= k < |a| :: a[k].pBt == b[k].pBt && a[k].locked == b[k].locked
  }

  lemma SameHas(s: State, c: nat, n: Conn, m: nat)
    requires c < |s.conns| && SameLocks(s.conns[c].list, n.list)
    ensures Has(With(s, c, n), c, m) <==> Has(s, c, m)
  {
    var a, s' := s.conns[c].list, With(s, c, n);
    if Has(s, c, m) {
      var k :| 0 <= k < |a| && a[k].pBt == m && a[k].locked;
      assert s'.conns[c].list[k].pBt == m && s'.conns[c].list[k].locked;
    }
    if Has(s', c, m) {
      var k :| 0 <= k < |s'.conns[c].list| && s'.conns[c].list[k].pBt == m && s'.conns[c].list[k].locked;
      assert a[k].pBt == m && a[k].locked;
    }
  }

  lemma Acquired(s: State, c: nat, k: nat, pc: Pc)
    requires Inv(s) && c < |s.conns| && k < |s.conns[c].list| && s.conns[c].list[k].pBt !in s.holder
    requires Ascending(s.conns[c].list) && ConnOk(Conn(SetLocked(s.conns[c].list, k, true), pc))
    ensures Inv(Acquire(s, c, k, pc))
  {
    hide ConnOk;
    var s', l := Acquire(s, c, k, pc), s.conns[c].list;
    forall m: nat, d: nat ensures Has(s', d, m) <==> m in s'.holder && s'.holder[m] == d {
      SwitchHas(s, s', c, k, d, m);
    }
  }

  lemma Released(s: State, c: nat, k: nat, pc: Pc)
    requires Holders(s) && (forall d | 0 <= d < |s.conns| && d != c :: ConnOk(s.conns[d])) && c < |s.conns|
             && k < |s.conns[c].list|
    requires Ascending(s.conns[c].list) && s.conns[c].list[k].locked
             && ConnOk(Conn(SetLocked(s.conns[c].list, k, false), pc))
    ensures Inv(Release(s, c, k, pc))
  {
    hide ConnOk;
    var s', l := Release(s, c, k, pc), s.conns[c].list;
    assert Has(s, c, l[k].pBt);
    forall m: nat, d: nat ensures Has(s', d, m) <==> m in s'.holder && s'.holder[m] == d {
      SwitchHas(s, s', c, k, d, m);
    }
  }

  // What changing handle k of connection c does to who has mutex m.
  lemma SwitchHas(s: State, s': State, c: nat, k: nat, d: nat, m: nat)
    requires c < |s.conns| == |s'.conns| && k < |s.conns[c].list| && Ascending(s.conns[c].list)
    requires forall e | 0 <= e < |s.conns| && e != c :: s'.conns[e] == s.conns[e]
    requires |s'.conns[c].list| == |s.conns[c].list| && s'.conns[c].list[k].pBt == s.conns[c].list[k].pBt
    requires forall j | 0 <= j < |s.conns[c].list| && j != k :: s'.conns[c].list[j] == s.conns[c].list[j]
    ensures d != c || m != s.conns[c].list[k].pBt ==> (Has(s', d, m) <==> Has(s, d, m))
    ensures d == c && m == s.conns[c].list[k].pBt ==> (Has(s', d, m) <==> s'.conns[c].list[k].locked)
  {
    if d == c {
      var a, b := s.conns[c].list, s'.conns[c].list;
      if m != a[k].pBt {
        if Has(s, c, m) {
          var j :| 0 <= j < |a| && a[j].pBt == m && a[j].locked;
          assert b[j].pBt == m && b[j].locked;
        }
        if Has(s', c, m) {
          var j :| 0 <= j < |b| && b[j].pBt == m && b[j].locked;
          assert a[j].pBt == m && a[j].locked;
        }
      } else if Has(s', c, m) {
        var j :| 0 <= j < |b| && b[j].pBt == m && b[j].locked;
        assert j == k;
      }
    }
  }

  lemma Entered(n: Conn, i: nat)
    requires ConnOk(n) && n.pc.Idle? && i < |n.list|
    ensures ConnOk(Conn(n.list[i := n.list[i].(wantToLock := n.list[i].wantToLock + 1)], if n.list[i].locked then Idle
            else Trying(i)))
  {
  }

  lemma Tried(n: Conn)
    requires ConnOk(n) && n.pc.Trying?
    ensures n.pc.i < |n.list| && ConnOk(Conn(SetLocked(n.list, n.pc.i, true), Idle))
            && ConnOk(n.(pc := Unlocking(n.pc.i, n.pc.i + 1)))
  {
  }

  lemma Unlocked(n: Conn)
    requires ConnOk(n) && n.pc.Unlocking?
    ensures n.pc.j >= |n.list| ==> ConnOk(n.(pc := Locking(n.pc.i)))
    ensures n.pc.j < |n.list| && n.list[n.pc.j].locked ==>
              ConnOk(Conn(SetLocked(n.list, n.pc.j, false), Unlocking(n.pc.i, n.pc.j + 1)))
    ensures n.pc.j < |n.list| && !n.list[n.pc.j].locked ==> ConnOk(n.(pc := Unlocking(n.pc.i, n.pc.j + 1)))
  {
  }

  lemma Locked(n: Conn)
    requires ConnOk(n) && n.pc.Locking?
    ensures n.pc.i < |n.list| && ConnOk(Conn(SetLocked(n.list, n.pc.i, true), Relocking(n.pc.i, n.pc.i + 1)))
  {
  }

  lemma Relocked(n: Conn)
    requires ConnOk(n) && n.pc.Relocking?
    ensures n.pc.j >= |n.list| ==> ConnOk(n.(pc := Idle))
    ensures n.pc.j < |n.list| && n.list[n.pc.j].wantToLock > 0 ==>
              ConnOk(Conn(SetLocked(n.list, n.pc.j, true), Relocking(n.pc.i, n.pc.j + 1)))
    ensures n.pc.j < |n.list| && n.list[n.pc.j].wantToLock == 0 ==> ConnOk(n.(pc := Relocking(n.pc.i, n.pc.j + 1)))
  {
  }

  lemma Left(n: Conn, i: nat)
    requires ConnOk(n) && n.pc.Idle? && i < |n.list| && n.list[i].wantToLock > 0
    ensures n.list[i].locked
    ensures var l := n.list[i := n.list[i].(wantToLock := n.list[i].wantToLock - 1)];
            Ascending(l) && ConnOk(if l[i].wantToLock == 0 then Conn(SetLocked(l, i, false), Idle) else Conn(l, Idle))
  {
  }

  /** Every step of every connection keeps the invariant. */
  lemma StepKeeps(s: State, s': State, step: Step)
    requires Inv(s) && Next(s, s', step)
    ensures Inv(s')
  {
    hide ConnOk, Holders;
    var c, n := step.c, s.conns[step.c];
    ListAscending(n);
    match step {
      case Enter(_, i) =>
        Entered(n, i);
        Moved(s, c, Conn(n.list[i := n.list[i].(wantToLock := n.list[i].wantToLock + 1)], if n.list[i].locked then Idle
            else Trying(i)));
      case Try(_) =>
        Tried(n);
        if n.list[n.pc.i].pBt !in s.holder { Acquired(s, c, n.pc.i, Idle); }
        Moved(s, c, n.(pc := Unlocking(n.pc.i, n.pc.i + 1)));
      case Unlock(_) =>
        Unlocked(n);
        if n.pc.j >= |n.list| {
          Moved(s, c, n.(pc := Locking(n.pc.i)));
        } else if n.list[n.pc.j].locked {
          Released(s, c, n.pc.j, Unlocking(n.pc.i, n.pc.j + 1));
        } else {
          Moved(s, c, n.(pc := Unlocking(n.pc.i, n.pc.j + 1)));
        }
      case Lock(_) =>
        Locked(n);
        Acquired(s, c, n.pc.i, Relocking(n.pc.i, n.pc.i + 1));
      case Relock(_) =>
        Relocked(n);
        if n.pc.j >= |n.list| {
          Moved(s, c, n.(pc := Idle));
        } else if n.list[n.pc.j].wantToLock > 0 {
          Acquired(s, c, n.pc.j, Relocking(n.pc.i, n.pc.j + 1));
        } else {
          Moved(s, c, n.(pc := Relocking(n.pc.i, n.pc.j + 1)));
        }
      case Leave(_, i) =>
        LeaveKeeps(s, c, i);
    }
  }

  lemma LeaveKeeps(s: State, c: nat, i: nat)
    requires Inv(s) && c < |s.conns| && s.conns[c].pc.Idle? && i < |s.conns[c].list|
             && s.conns[c].list[i].wantToLock > 0
    ensures var n := s.conns[c];
            var l := n.list[i := n.list[i].(wantToLock := n.list[i].wantToLock - 1)];
            var m := With(s, c, n.(list := l));
            Inv(if l[i].wantToLock == 0 then Release(m, c, i, Idle) else m)
  {
    var n := s.conns[c];
    Left(n, i);
    hide ConnOk;
    var l := n.list[i := n.list[i].(wantToLock := n.list[i].wantToLock - 1)];
    var m := With(s, c, n.(list := l));
    if l[i].wantToLock == 0 {
      forall x: nat, d: nat ensures Has(m, d, x) <==> Has(s, d, x) {
        if d == c { SameHas(s, c, n.(list := l), x); }
      }
      Released(m, c, i, Idle);
    } else {
      Moved(s, c, Conn(l, Idle));
    }
  }

  lemma ListAscending(n: Conn)
    requires ConnOk(n)
    ensures Ascending(n.list)
  {
  }

  // ---------- runs ----------

  // Nobody has entered anything yet.
  ghost predicate Init(s: State) {
    && s.holder == map[]
    && forall c | 0 <= c < |s.conns| :: s.conns[c].pc.Idle? && Ascending(s.conns[c].list)
         && forall k | 0 <= k < |s.conns[c].list| :: !s.conns[c].list[k].locked && s.conns[c].list[k].wantToLock == 0
  }

  ghost predicate Run(trace: seq<State>, steps: seq<Step>) {
    && |trace| == |steps| + 1 && Init(trace[0])
    && forall i | 0 <= i < |steps| :: Next(trace[i], trace[i + 1], steps[i])
  }

  /** The invariant holds at the end of every run. */
  lemma {:induction false} RunKeeps(trace: seq<State>, steps: seq<Step>)
    requires Run(trace, steps)
    ensures Inv(trace[|trace| - 1])
    decreases |steps|
  {
    if steps == [] {
      forall m: nat, c: nat ensures !Has(trace[0], c, m) {}
    } else {
      var n := |steps| - 1;
      RunKeeps(trace[..n + 1], steps[..n]);
      StepKeeps(trace[n], trace[n + 1], steps[n]);
    }
  }

  // How many times connection c entered its handle k, less how many times it left it.
  ghost function Entries(steps: seq<Step>, c: nat, k: nat): int {
    if steps == [] then 0
    else
      var last := steps[|steps| - 1];
      Entries(steps[..|steps| - 1], c, k)
      + if last == Enter(c, k) then 1 else if last == Leave(c, k) then -1 else 0
  }

  // The connections and their handles stay the same, and only entering and leaving changes how often one is wanted.
  lemma StepCounts(s: State, s': State, step: Step, c: nat, k: nat)
    requires Next(s, s', step) && c < |s'.conns| && k < |s'.conns[c].list|
    ensures c < |s.conns| && k < |s.conns[c].list| && s'.conns[c].list[k].pBt == s.conns[c].list[k].pBt
    ensures s'.conns[c].list[k].wantToLock == s.conns[c].list[k].wantToLock
            + if step == Enter(c, k) then 1 else if step == Leave(c, k) then -1 else 0
  {
  }

  lemma {:induction false} RunCounts(trace: seq<State>, steps: seq<Step>, c: nat, k: nat)
    requires Run(trace, steps)
    requires c < |trace[|steps|].conns| && k < |trace[|steps|].conns[c].list|
    ensures trace[|steps|].conns[c].list[k].wantToLock == Entries(steps, c, k)
    decreases |steps|
  {
    hide Next;
    if steps != [] {
      var n := |steps| - 1;
      StepCounts(trace[n], trace[n + 1], steps[n], c, k);
      RunCounts(trace[..n + 1], steps[..n], c, k);
    }
  }

  // ---------- no deadlock ----------

  /** A connection only ever waits for a mutex above all those it holds. */
  lemma WaitsAbove(n: Conn, k: nat)
    requires ConnOk(n) && WaitsFor(n) >= 0 && k < |n.list| && n.list[k].locked
    ensures n.list[k].pBt < n.list[WaitsFor(n)].pBt
  {
  }

  // Connection c waits for a mutex that connection d holds.
  ghost predicate Waits(s: State, c: nat, d: nat) {
    && c < |s.conns| && WaitsFor(s.conns[c]) >= 0
    && var m := s.conns[c].list[WaitsFor(s.conns[c])].pBt;
    m in s.holder && s.holder[m] == d
  }

  function Wanted(n: Conn): nat
    requires WaitsFor(n) >= 0
  {
    n.list[WaitsFor(n)].pBt
  }

  // Along the wait-for relation the mutex waited for goes up.
  lemma WaitsRise(s: State, c: nat, d: nat)
    requires Inv(s) && Waits(s, c, d)
    ensures d < |s.conns| && (WaitsFor(s.conns[d]) >= 0 ==> Wanted(s.conns[c]) < Wanted(s.conns[d]))
  {
    hide ConnOk;
    var m := Wanted(s.conns[c]);
    assert Has(s, d, m);
    var k :| 0 <= k < |s.conns[d].list| && s.conns[d].list[k].pBt == m && s.conns[d].list[k].locked;
    if WaitsFor(s.conns[d]) >= 0 { WaitsAbove(s.conns[d], k); }
  }

  /** The wait-for graph has no cycles: a chain of waiting connections never comes back. */
  lemma {:induction false} NoCycle(s: State, p: seq<nat>)
    requires Inv(s) && |p| >= 2 && forall i | 0 <= i < |p| - 1 :: Waits(s, p[i], p[i + 1])
    ensures p[0] != p[|p| - 1]
    ensures p[0] < |s.conns| && WaitsFor(s.conns[p[0]]) >= 0 && p[|p| - 1] < |s.conns|
    ensures (WaitsFor(s.conns[p[|p| - 1]]) >= 0 ==> Wanted(s.conns[p[0]]) < Wanted(s.conns[p[|p| - 1]]))
  {
    var n := |p| - 1;
    assert Waits(s, p[n - 1], p[n]) && Waits(s, p[0], p[1]);
    WaitsRise(s, p[n - 1], p[n]);
    if |p| > 2 { NoCycle(s, p[..n]); }
  }

  // Each connection on the path waits for the next.
  ghost predicate WaitPath(s: State, p: seq<nat>, c: nat, d: nat) {
    |p| > 0 && p[0] == c && p[|p| - 1] == d && forall i | 0 <= i < |p| - 1 :: Waits(s, p[i], p[i + 1])
  }

  /** A connection that waits is waiting, directly or through others, for one that can go on. */
  lemma Progress(s: State, c: nat, bound: nat) returns (step: Step, s': State, p: seq<nat>)
    requires Inv(s) && c < |s.conns| && WaitsFor(s.conns[c]) >= 0 && forall m | m in s.holder :: m < bound
    ensures WaitPath(s, p, c, step.c) && Next(s, s', step) && !step.Enter?
    decreases bound - Wanted(s.conns[c])
  {
    hide ConnOk, Holders;
    var n := s.conns[c];
    var m := Wanted(n);
    if m !in s.holder {
      p := [c];
      step := if n.pc.Locking? then Lock(c) else Relock(c);
      s' := if n.pc.Locking? then Acquire(s, c, n.pc.i, Relocking(n.pc.i, n.pc.i + 1))
          else Acquire(s, c, n.pc.j, Relocking(n.pc.i, n.pc.j + 1));
    } else {
      var d := s.holder[m];
      WaitsRise(s, c, d);
      if WaitsFor(s.conns[d]) >= 0 {
        step, s', p := Progress(s, d, bound);
      } else {
        p := [d];
        step, s' := GoesOn(s, d, m);
      }
      p := [c] + p;
    }
  }

  lemma GoesOn(s: State, d: nat, m: nat) returns (step: Step, s': State)
    requires Inv(s) && m in s.holder && s.holder[m] == d && d < |s.conns| && WaitsFor(s.conns[d]) < 0
    ensures step.c == d && Next(s, s', step) && !step.Enter?
  {
    assert Has(s, d, m);
    var n := s.conns[d];
    var k :| 0 <= k < |n.list| && n.list[k].pBt == m && n.list[k].locked;
    match n.pc {
      case Idle =>
        var l := n.list[k := n.list[k].(wantToLock := n.list[k].wantToLock - 1)];
        var t := With(s, d, n.(list := l));
        step, s' := Leave(d, k), if l[k].wantToLock == 0 then Release(t, d, k, Idle) else t;
      case Trying(i) =>
        step, s' := Try(d), if n.list[i].pBt !in s.holder then Acquire(s, d, i, Idle)
            else With(s, d, n.(pc := Unlocking(i, i + 1)));
      case Unlocking(i, j) =>
        step, s' := Unlock(d), if j >= |n.list| then With(s, d, n.(pc := Locking(i)))
                               else if n.list[j].locked then Release(s, d, j, Unlocking(i, j + 1))
                                   else With(s, d, n.(pc := Unlocking(i, j + 1)));
      case Locking(i) =>
        assert false;
      case Relocking(i, j) =>
        step, s' := Relock(d), if j >= |n.list| then With(s, d, n.(pc := Idle))
            else With(s, d, n.(pc := Relocking(i, j + 1)));
    }
  }

  /** In every reachable state: a connection outside has locked exactly the handles it wants, that is, those it has
      entered more often than left; no two
      connections hold one mutex, a shared cache names the connection that holds it, a connection waits only
      for a mutex above those it holds, and no chain of waits comes back. */
  lemma RunIsSafe(trace: seq<State>, steps: seq<Step>)
    requires Run(trace, steps)
    ensures var s := trace[|trace| - 1];
            && (forall c, k | 0 <= c < |s.conns| && s.conns[c].pc.Idle? && 0 <= k < |s.conns[c].list| ::
                  s.conns[c].list[k].locked <==> s.conns[c].list[k].wantToLock > 0)
            && (forall c: nat, d: nat, m: nat | Has(s, c, m) && Has(s, d, m) :: c == d && m in s.db && s.db[m] == c)
            && (forall c, k | 0 <= c < |s.conns| && WaitsFor(s.conns[c]) >= 0 && 0 <= k < |s.conns[c].list|
                 && s.conns[c].list[k].locked ::
                  s.conns[c].list[k].pBt < Wanted(s.conns[c]))
            && (forall p: seq<nat> | |p| >= 2 && WaitPath(s, p, p[0], p[|p| - 1]) :: p[0] != p[|p| - 1])
            && (forall c: nat, k: nat | c < |s.conns| && k < |s.conns[c].list| ::
                  s.conns[c].list[k].wantToLock == Entries(steps, c, k))
  {
    hide Next;
    RunKeeps(trace, steps);
    var s := trace[|trace| - 1];
    forall c: nat, k: nat | c < |s.conns| && k < |s.conns[c].list|
      ensures s.conns[c].list[k].wantToLock == Entries(steps, c, k)
    {
      RunCounts(trace, steps, c, k);
    }
    forall p: seq<nat> | |p| >= 2 && WaitPath(s, p, p[0], p[|p| - 1]) ensures p[0] != p[|p| - 1] { NoCycle(s, p); }
    forall c, k | 0 <= c < |s.conns| && WaitsFor(s.conns[c]) >= 0 && 0 <= k < |s.conns[c].list|
        && s.conns[c].list[k].locked
      ensures s.conns[c].list[k].pBt < Wanted(s.conns[c])
    {
      WaitsAbove(s.conns[c], k);
    }
  }

  // ---------- the order of the list ----------

  /** Linking a new handle into a connection's list, found through any handle already on it, keeps the list ascending.
      */
  method Link(list: seq<BtreeRef>, sib: nat, p: BtreeRef) returns (r: seq<BtreeRef>, at: nat)
    requires Ascending(list) && (list != [] ==> sib < |list|) && forall k | 0 <= k < |list| :: list[k].pBt != p.pBt
    ensures at <= |list| && r == list[..at] + [p] + list[at..] && Ascending(r)
  {
    if |list| == 0 { return [p], 0; }
    var k := sib;
    while k > 0
      invariant 0 <= k < |list|
    {
      k := k - 1;
    }
    if p.pBt < list[k].pBt {
      at := 0;
    } else {
      while k + 1 < |list| && list[k + 1].pBt < p.pBt
        invariant 0 <= k < |list| && list[k].pBt < p.pBt
      {
        k := k + 1;
      }
      at := k + 1;
    }
    r := list[..at] + [p] + list[at..];
  }
}
