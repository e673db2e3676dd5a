/** The four locks of the client and why their order excludes deadlock. */
module LockOrder {
  /** A lock is named by its place in the documented order. */
  type LockId = nat

  const SYNC_MU: LockId := 0
  const RENEW_MU: LockId := 1
  const API_MU: LockId := 2
  const CLIENT_MU: LockId := 3

  datatype Mode = Read | Write

  datatype Op = Acquire(lock: LockId, mode: Mode) | Release(lock: LockId) | Work

  // ---- Programs ----

  /** What is held after running ops. */
  function HeldAfter(ops: seq<Op>, held: set<LockId>): set<LockId>
  {
    if ops == [] then held
    else
      match ops[0]
      case Acquire(l, _) => HeldAfter(ops[1..], held + {l})
      case Release(l) => HeldAfter(ops[1..], held - {l})
      case Work => HeldAfter(ops[1..], held)
  }

  /** Locks are taken in ascending order only and released only when held. */
  predicate Ascending(ops: seq<Op>, held: set<LockId>)
  {
    if ops == [] then true
    else
      match ops[0]
      case Acquire(l, _) => (forall h | h in held :: h < l) && Ascending(ops[1..], held + {l})
      case Release(l) => l in held && Ascending(ops[1..], held - {l})
      case Work => Ascending(ops[1..], held)
  }

  /** An ascending program that ends with nothing held. */
  predicate Disciplined(ops: seq<Op>, held: set<LockId>)
  {
    Ascending(ops, held) && HeldAfter(ops, held) == {}
  }

  lemma {:induction false} AppendAscending(a: seq<Op>, b: seq<Op>, held: set<LockId>)
    ensures HeldAfter(a + b, held) == HeldAfter(b, HeldAfter(a, held))
    ensures Ascending(a + b, held) <==> Ascending(a, held) && Ascending(b, HeldAfter(a, held))
  {
    if a == [] {
      assert a + b == b;
    } else {
      assert (a + b)[1..] == a[1..] + b;
      match a[0]
      case Acquire(l, _) => AppendAscending(a[1..], b, held + {l});
      case Release(l) => AppendAscending(a[1..], b, held - {l});
      case Work => AppendAscending(a[1..], b, held);
    }
  }

  function Section(l: LockId, mode: Mode): seq<Op>
  {
    [Acquire(l, mode), Release(l)]
  }

  /** How one renewal went. */
  datatype Renewal = Skipped | RefreshOk | LoginOk | BothFailed

  function RenewOps(r: Renewal): seq<Op>
  {
    [Acquire(RENEW_MU, Write)] + Section(API_MU, Read)
    + (match r
       case Skipped => []
       case RefreshOk => Section(API_MU, Read) + [Work] + Section(API_MU, Write)
       case LoginOk => Section(API_MU, Read) + [Work, Work] + Section(API_MU, Write)
       case BothFailed => Section(API_MU, Read) + [Work, Work])
    + [Release(RENEW_MU)]
  }

  /** How one fetch went: whether it renewed first, whether it was rejected and renewed
      again, whether the retry was rejected too. */
  datatype Fetch = Fetch(expiring: bool, first: Renewal, rejected: bool, second: Renewal, again: bool)

  function FetchOps(f: Fetch): seq<Op>
  {
    Section(API_MU, Read)
    + (if f.expiring then RenewOps(f.first) else [])
    + (if f.expiring && f.first == BothFailed then []
       else
         Section(API_MU, Read) + [Work]
         + (if f.rejected then RenewOps(f.second) else [])
         + (if f.rejected && f.second != BothFailed
            then Section(API_MU, Read) + [Work] + (if f.again then Section(API_MU, Write) else [])
            else []))
  }

  function SyncVaultOps(f: Fetch, applied: bool): seq<Op>
  {
    [Acquire(SYNC_MU, Write)] + FetchOps(f) + (if applied then Section(CLIENT_MU, Write) else []) + [Release(SYNC_MU)]
  }

  /** Everything that takes locks: a refresh request, a background tick, which also reads
      the retained count, and a lookup, a listing or a read of the name maps. */
  datatype Task = Refresh(f: Fetch, applied: bool) | BackgroundTick(f: Fetch, applied: bool) | Lookup

  function TaskOps(t: Task): seq<Op>
  {
    match t
    case Refresh(f, applied) => SyncVaultOps(f, applied)
    case BackgroundTick(f, applied) => SyncVaultOps(f, applied) + Section(CLIENT_MU, Read)
    case Lookup => Section(CLIENT_MU, Read)
  }

  function Program(tasks: seq<Task>): seq<Op>
  {
    if tasks == [] then [] else TaskOps(tasks[0]) + Program(tasks[1..])
  }

  /** The longest cycle, written out: a refresh before the first request, a login after it
      was rejected, and a second rejection. */
  lemma LongestCycle()
    ensures RenewOps(RefreshOk)
         == [Acquire(1, Write), Acquire(2, Read), Release(2), Acquire(2, Read), Release(2), Work,
             Acquire(2, Write), Release(2), Release(1)]
    ensures RenewOps(LoginOk)
         == [Acquire(1, Write), Acquire(2, Read), Release(2), Acquire(2, Read), Release(2), Work, Work,
             Acquire(2, Write), Release(2), Release(1)]
    ensures FetchOps(Fetch(true, RefreshOk, true, LoginOk, true))
         == [Acquire(2, Read), Release(2)] + RenewOps(RefreshOk) + [Acquire(2, Read), Release(2), Work]
            + RenewOps(LoginOk) + [Acquire(2, Read), Release(2), Work, Acquire(2, Write), Release(2)]
  {
  }

  /** A cycle holds syncMu from before its fetch until after it has published. */
  lemma CycleHoldsSyncMu(f: Fetch, applied: bool)
    ensures SyncVaultOps(f, applied)
         == [Acquire(0, Write)] + FetchOps(f) + (if applied then [Acquire(3, Write), Release(3)] else []) + [Release(0)]
  {
  }

  lemma SectionAscends(l: LockId, mode: Mode, held: set<LockId>)
    requires forall h | h in held :: h < l
    ensures Ascending(Section(l, mode), held) && HeldAfter(Section(l, mode), held) == held
  {
    var ops := Section(l, mode);
    assert ops[1..] == [Release(l)] && ops[1..][1..] == [];
    assert held + {l} - {l} == held;
    assert HeldAfter([Release(l)], held + {l}) == HeldAfter([], held + {l} - {l});
  }

  /** A run of work, then a critical section. */
  lemma WorkAscends(work: seq<Op>, held: set<LockId>)
    requires work == [] || work == [Work] || work == [Work, Work]
    ensures Ascending(work, held) && HeldAfter(work, held) == held
  {
  }

  /** Two well-behaved pieces inside one lock. */
  lemma BracketAscends(l: LockId, a: seq<Op>, b: seq<Op>, held: set<LockId>)
    requires forall h | h in held :: h < l
    requires Ascending(a, held + {l}) && HeldAfter(a, held + {l}) == held + {l}
    requires Ascending(b, held + {l}) && HeldAfter(b, held + {l}) == held + {l}
    ensures var ops := [Acquire(l, Write)] + a + b + [Release(l)];
            Ascending(ops, held) && HeldAfter(ops, held) == held
  {
    var inner := held + {l};
    var ops := [Acquire(l, Write)] + a + b + [Release(l)];
    AppendAscending(a, b, inner);
    AppendAscending(a + b, [Release(l)], inner);
    assert [Release(l)][1..] == [];
    assert ops[1..] == a + b + [Release(l)];
    assert inner - {l} == held;
  }

  lemma RenewAscends(r: Renewal, held: set<LockId>)
    requires held <= {SYNC_MU}
    ensures Ascending(RenewOps(r), held) && HeldAfter(RenewOps(r), held) == held
  {
    var inner := held + {RENEW_MU};
    SectionAscends(API_MU, Read, inner);
    SectionAscends(API_MU, Write, inner);
    WorkAscends([Work], inner);
    WorkAscends([Work, Work], inner);
    var sec, pub := Section(API_MU, Read), Section(API_MU, Write);
    AppendAscending(sec, [Work], inner);
    AppendAscending(sec + [Work], pub, inner);
    AppendAscending(sec, [Work, Work], inner);
    AppendAscending(sec + [Work, Work], pub, inner);
    var body := match r
      case Skipped => []
      case RefreshOk => sec + [Work] + pub
      case LoginOk => sec + [Work, Work] + pub
      case BothFailed => sec + [Work, Work];
    assert Ascending(body, inner) && HeldAfter(body, inner) == inner;
    BracketAscends(RENEW_MU, sec, body, held);
  }

  lemma FetchAscends(f: Fetch, held: set<LockId>)
    requires held <= {SYNC_MU}
    ensures Ascending(FetchOps(f), held) && HeldAfter(FetchOps(f), held) == held
  {
    var rd, wr := Section(API_MU, Read), Section(API_MU, Write);
    SectionAscends(API_MU, Read, held);
    SectionAscends(API_MU, Write, held);
    WorkAscends([Work], held);
    RenewAscends(f.first, held);
    RenewAscends(f.second, held);
    AppendAscending(rd, [Work], held);
    var last := if f.again then wr else [];
    AppendAscending(rd + [Work], last, held);
    var retry := if f.rejected && f.second != BothFailed then rd + [Work] + last else [];
    var renew := if f.rejected then RenewOps(f.second) else [];
    AppendAscending(rd + [Work], renew, held);
    AppendAscending(rd + [Work] + renew, retry, held);
    var ask := if f.expiring && f.first == BothFailed then [] else rd + [Work] + renew + retry;
    var ensureValid := if f.expiring then RenewOps(f.first) else [];
    AppendAscending(rd, ensureValid, held);
    AppendAscending(rd + ensureValid, ask, held);
    assert FetchOps(f) == rd + ensureValid + ask;
  }

  lemma TaskIsDisciplined(t: Task)
    ensures Disciplined(TaskOps(t), {})
  {
    SectionAscends(CLIENT_MU, Read, {});
    if !t.Lookup? {
      FetchAscends(t.f, {SYNC_MU});
      SectionAscends(CLIENT_MU, Write, {SYNC_MU});
      assert {} + {SYNC_MU} == {SYNC_MU};
      BracketAscends(SYNC_MU, FetchOps(t.f), if t.applied then Section(CLIENT_MU, Write) else [], {});
      AppendAscending(SyncVaultOps(t.f, t.applied), Section(CLIENT_MU, Read), {});
    }
  }

  /** Whatever its requests meet with, every goroutine keeps the order. */
  lemma {:induction false} ProgramIsDisciplined(tasks: seq<Task>)
    ensures Disciplined(Program(tasks), {})
  {
    if tasks != [] {
      TaskIsDisciplined(tasks[0]);
      ProgramIsDisciplined(tasks[1..]);
      AppendAscending(TaskOps(tasks[0]), Program(tasks[1..]), {});
    }
  }

  // ---- Interleavings ----

  datatype Thread = Thread(rest: seq<Op>, held: map<LockId, Mode>)

  type System = map<nat, Thread>

  predicate HeldBy(s: System, l: LockId, mode: Mode) {
    exists t | t in s :: l in s[t].held && s[t].held[l] == mode
  }

  predicate Free(s: System, l: LockId) {
    !HeldBy(s, l, Read) && !HeldBy(s, l, Write)
  }

  /** A writer at the gate of l, which may keep readers out. */
  predicate WriterWaits(s: System, l: LockId) {
    exists t | t in s :: s[t].rest != [] && s[t].rest[0] == Acquire(l, Write)
  }

  /** An operation that may happen: a writer needs the lock free, a reader needs no writer
      to hold it. */
  predicate MayStep(s: System, t: nat) {
    && t in s && s[t].rest != []
    && match s[t].rest[0]
       case Acquire(l, Write) => Free(s, l)
       case Acquire(l, Read) => !HeldBy(s, l, Write)
       case Release(_) => true
       case Work => true
  }

  /** An operation that nothing can hold up, not even a waiting writer. */
  predicate MustStep(s: System, t: nat) {
    MayStep(s, t) && (s[t].rest[0].Acquire? && s[t].rest[0].mode == Read ==> !WriterWaits(s, s[t].rest[0].lock))
  }

  function Advance(s: System, t: nat): System
    requires MayStep(s, t)
  {
    var held := s[t].held;
    var held' := match s[t].rest[0]
      case Acquire(l, mode) => held[l := mode]
      case Release(l) => held - {l}
      case Work => held;
    s[t := Thread(s[t].rest[1..], held')]
  }

  ghost predicate Ordered(s: System) {
    forall t | t in s :: Disciplined(s[t].rest, s[t].held.Keys)
  }

  ghost predicate Launched(s: System) {
    forall t | t in s :: exists tasks :: s[t] == Thread(Program(tasks), map[])
  }

  ghost predicate Run(s: System, schedule: seq<nat>, s': System)
    decreases |schedule|
  {
    if schedule == [] then s == s'
    else MayStep(s, schedule[0]) && Run(Advance(s, schedule[0]), schedule[1..], s')
  }

  lemma AdvanceKeepsOrder(s: System, t: nat)
    requires Ordered(s) && MayStep(s, t)
    ensures Ordered(Advance(s, t))
  {
    var s' := Advance(s, t);
    var rest, held := s[t].rest, s[t].held;
    match rest[0]
    case Acquire(l, mode) => assert s'[t].held.Keys == held.Keys + {l};
    case Release(l) => assert s'[t].held.Keys == held.Keys - {l};
    case Work =>
  }

  lemma {:induction false} RunKeepsOrder(s: System, schedule: seq<nat>, s': System)
    requires Ordered(s) && Run(s, schedule, s')
    ensures Ordered(s')
    decreases |schedule|
  {
    if schedule != [] {
      AdvanceKeepsOrder(s, schedule[0]);
      RunKeepsOrder(Advance(s, schedule[0]), schedule[1..], s');
    }
  }

  ghost predicate IsTop(locks: set<LockId>, top: LockId) {
    top in locks && forall l | l in locks :: l <= top
  }

  lemma {:induction false} MaxExists(locks: set<LockId>)
    requires locks != {}
    ensures exists top :: IsTop(locks, top)
    decreases locks
  {
    var x :| x in locks;
    if locks == {x} {
      assert IsTop(locks, x);
    } else {
      MaxExists(locks - {x});
      var sub :| IsTop(locks - {x}, sub);
      assert locks == (locks - {x}) + {x};
      assert IsTop(locks, if x > sub then x else sub);
    }
  }

  /** If nobody holds a lock above anything t waits for, then t or a waiting writer can go. */
  lemma GateOpens(s: System, t: nat)
    requires Ordered(s) && t in s && s[t].rest != []
    requires s[t].rest[0].Acquire? ==> Free(s, s[t].rest[0].lock)
    ensures exists u :: MustStep(s, u)
  {
    var op := s[t].rest[0];
    if op.Acquire? && op.mode == Read && WriterWaits(s, op.lock) {
      var u :| u in s && s[u].rest != [] && s[u].rest[0] == Acquire(op.lock, Write);
      assert MustStep(s, u);
    } else {
      assert MustStep(s, t);
    }
  }

  function AllHeld(s: System): set<LockId>
  {
    set u, l | u in s && l in s[u].held :: l
  }

  lemma FreeIfUnheld(s: System, l: LockId)
    requires l !in AllHeld(s)
    ensures Free(s, l)
  {
    forall u | u in s
      ensures l !in s[u].held
    {
    }
  }

  lemma SomeoneCanGo(s: System, t: nat)
    requires Ordered(s) && t in s && s[t].rest != []
    ensures exists u :: MustStep(s, u)
  {
    var locks := AllHeld(s);
    if locks == {} {
      forall l: LockId
        ensures Free(s, l)
      {
        FreeIfUnheld(s, l);
      }
      GateOpens(s, t);
    } else {
      MaxExists(locks);
      var top :| IsTop(locks, top);
      var u :| u in s && top in s[u].held;
      assert Disciplined(s[u].rest, s[u].held.Keys);
      if s[u].rest[0].Acquire? {
        assert s[u].rest[0].lock > top;
        FreeIfUnheld(s, s[u].rest[0].lock);
      }
      GateOpens(s, u);
    }
  }

  /** No deadlock: in any state any interleaving of any number of goroutines reaches, while
      one is unfinished, some goroutine can go on. */
  lemma NoDeadlock(s0: System, schedule: seq<nat>, s: System, t: nat)
    requires Launched(s0) && Run(s0, schedule, s)
    requires t in s && s[t].rest != []
    ensures exists u :: MustStep(s, u)
  {
    forall u | u in s0
      ensures Disciplined(s0[u].rest, s0[u].held.Keys)
    {
      var tasks :| s0[u] == Thread(Program(tasks), map[]);
      ProgramIsDisciplined(tasks);
      assert s0[u].held.Keys == {};
    }
    RunKeepsOrder(s0, schedule, s);
    SomeoneCanGo(s, t);
  }
}
