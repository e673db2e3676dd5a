/** Concurrent sync cycles against a vault that keeps changing: which version of the
    vault the cache shows. Background ticks and refresh requests are calls; a call holds
    syncMu from before its request until after it has published. */
module SyncOrder {
  import opened Wrappers
  import opened VaultItems
  import opened Reconcile

  /** `since` is the vault's version when the call was made, `asked` its version when the
      request went out. The answer is a version the vault had between asking and answering,
      or nothing when the request fails. */
  datatype Pc =
    | Idle
    | Waiting(since: nat)
    | Locked(since: nat)
    | Asked(since: nat, asked: nat)
    | Answered(since: nat, asked: nat, version: Option<nat>)
    | Published(since: nat, version: Option<nat>)
    | Done(since: nat, version: Option<nat>)

  /** `versions` is every state the vault has had, `applied` the versions published to the
      cache, `history` what the sync cycles so far have applied. */
  datatype State = State(
    versions: seq<Payload>,
    lock: Option<nat>,
    calls: map<nat, Pc>,
    cache: Cache,
    applied: seq<nat>,
    history: seq<Option<Payload>>)

  /** `locked` is true of the program; false models it with syncMu removed. */
  datatype Config = Config(d: Decryption, locked: bool)

  datatype Event =
    | Change(pl: Payload)
    | Call(t: nat)
    | Lock(t: nat)
    | Ask(t: nat)
    | Answer(t: nat, version: Option<nat>)
    | Publish(t: nat)
    | Unlock(t: nat)

  function Newest(s: State): int
  {
    |s.versions| - 1
  }

  function PayloadAt(s: State, version: Option<nat>): Option<Payload>
  {
    if version.Some? && version.value < |s.versions| then Some(s.versions[version.value]) else None
  }

  function PublishStep(c: Config, s: State, t: nat, pc: Pc): State
    requires pc.Answered?
  {
    var x := PayloadAt(s, pc.version);
    s.(cache := Apply(c.d, s.cache, x),
       applied := if x.Some? then s.applied + [pc.version.value] else s.applied,
       history := s.history + [x],
       calls := s.calls[t := Published(pc.since, pc.version)])
  }

  function Step(c: Config, s: State, e: Event): Option<State>
  {
    if e.Change? then Some(s.(versions := s.versions + [e.pl]))
    else if e.t !in s.calls || s.versions == [] then None
    else
      var t, pc := e.t, s.calls[e.t];
      match e
      case Call(_) => if pc.Idle? then Some(s.(calls := s.calls[t := Waiting(|s.versions| - 1)])) else None
      case Lock(_) =>
        if pc.Waiting? && (c.locked ==> s.lock.None?)
        then Some(s.(lock := Some(t), calls := s.calls[t := Locked(pc.since)])) else None
      case Ask(_) => if pc.Locked? then Some(s.(calls := s.calls[t := Asked(pc.since, |s.versions| - 1)])) else None
      case Answer(_, version) =>
        if pc.Asked? && (version.Some? ==> pc.asked <= version.value < |s.versions|)
        then Some(s.(calls := s.calls[t := Answered(pc.since, pc.asked, version)])) else None
      case Publish(_) => if pc.Answered? then Some(PublishStep(c, s, t, pc)) else None
      case Unlock(_) =>
        if pc.Published? then Some(s.(lock := None, calls := s.calls[t := Done(pc.since, pc.version)])) else None
  }

  function Exec(c: Config, s: State, events: seq<Event>): Option<State>
  {
    if events == [] then Some(s)
    else
      match Exec(c, s, events[..|events| - 1])
      case None => None
      case Some(mid) => Step(c, mid, events[|events| - 1])
  }

  ghost predicate Start(s: State) {
    && s.versions != [] && s.lock == None && s.cache == map[] && s.applied == [] && s.history == []
    && forall t | t in s.calls :: s.calls[t] == Idle
  }

  // ---- The invariant ----

  predicate Holding(pc: Pc) {
    pc.Locked? || pc.Asked? || pc.Answered? || pc.Published?
  }

  /** The newest version published so far, -1 before the first. */
  function Shown(s: State): int
  {
    if s.applied == [] then -1 else s.applied[|s.applied| - 1]
  }

  ghost predicate CallInv(s: State, pc: Pc) {
    match pc
    case Idle => true
    case Waiting(since) => since <= Newest(s)
    case Locked(since) => since <= Newest(s)
    case Asked(since, asked) => since <= asked <= Newest(s) && Shown(s) <= asked
    case Answered(since, asked, version) =>
      since <= asked && Shown(s) <= asked && (version.Some? ==> asked <= version.value <= Newest(s))
    case Published(since, version) => version.Some? ==> since <= version.value <= Shown(s)
    case Done(since, version) => version.Some? ==> since <= version.value <= Shown(s)
  }

  ghost predicate Ascending(vs: seq<nat>) {
    forall i, j | 0 <= i < j < |vs| :: vs[i] <= vs[j]
  }

  /** The history's payloads are the applied versions, in order. */
  ghost predicate Traces(versions: seq<Payload>, history: seq<Option<Payload>>, applied: seq<nat>)
    decreases |history|
  {
    if history == [] then applied == []
    else
      var x := history[|history| - 1];
      match x
      case None => Traces(versions, history[..|history| - 1], applied)
      case Some(pl) =>
        && applied != [] && applied[|applied| - 1] < |versions|
        && versions[applied[|applied| - 1]] == pl
        && Traces(versions, history[..|history| - 1], applied[..|applied| - 1])
  }

  ghost predicate Inv(c: Config, s: State) {
    && s.versions != []
    && Ascending(s.applied) && Shown(s) <= Newest(s)
    && s.cache == CacheAfter(c.d, s.history)
    && Traces(s.versions, s.history, s.applied)
    && (forall t | t in s.calls :: CallInv(s, s.calls[t]))
    && (forall t | t in s.calls && Holding(s.calls[t]) :: s.lock == Some(t))
  }

  lemma {:induction false} TracesSurviveChange(versions: seq<Payload>, pl: Payload, history: seq<Option<Payload>>,
                                               applied: seq<nat>)
    requires Traces(versions, history, applied)
    ensures Traces(versions + [pl], history, applied)
    decreases |history|
  {
    if history != [] {
      TracesSurviveChange(versions, pl, history[..|history| - 1],
        if history[|history| - 1].Some? then applied[..|applied| - 1] else applied);
    }
  }

  lemma ChangeKeeps(c: Config, s: State, pl: Payload)
    requires Inv(c, s)
    ensures Inv(c, s.(versions := s.versions + [pl]))
  {
    TracesSurviveChange(s.versions, pl, s.history, s.applied);
  }

  lemma AscendingAppend(applied: seq<nat>, shown: int, pc: Pc)
    requires Ascending(applied) && pc.Answered?
    requires shown == if applied == [] then -1 else applied[|applied| - 1]
    ensures pc.version.Some? && shown <= pc.version.value ==> Ascending(applied + [pc.version.value])
  {
  }

  lemma PublishTraces(c: Config, s: State, t: nat)
    requires Inv(c, s) && t in s.calls && s.calls[t].Answered?
    ensures var s' := PublishStep(c, s, t, s.calls[t]);
            Traces(s'.versions, s'.history, s'.applied) && s'.cache == CacheAfter(c.d, s'.history)
  {
    var s' := PublishStep(c, s, t, s.calls[t]);
    assert CallInv(s, s.calls[t]);
    assert s'.history[..|s.history|] == s.history;
    if s'.applied != s.applied {
      assert s'.applied[..|s.applied|] == s.applied;
    }
  }

  lemma PublishKeeps(c: Config, s: State, t: nat)
    requires Inv(c, s) && t in s.calls && s.calls[t].Answered?
    ensures Inv(c, PublishStep(c, s, t, s.calls[t]))
  {
    var pc := s.calls[t];
    var s' := PublishStep(c, s, t, pc);
    assert CallInv(s, pc);
    AscendingAppend(s.applied, Shown(s), pc);
    PublishTraces(c, s, t);
    assert Shown(s) <= Shown(s') <= Newest(s') == Newest(s);
    forall u | u in s'.calls
      ensures CallInv(s', s'.calls[u])
    {
      if u != t {
        assert CallInv(s, s.calls[u]) && !Holding(s.calls[u]);
      }
    }
  }

  /** A step of t that neither publishes nor changes the vault. */
  lemma LocalStepKeeps(c: Config, s: State, s': State, t: nat)
    requires Inv(c, s) && t in s.calls && t in s'.calls
    requires s' == s.(lock := s'.lock, calls := s.calls[t := s'.calls[t]]) && CallInv(s, s'.calls[t])
    requires || (s'.lock == s.lock && Holding(s'.calls[t]) == Holding(s.calls[t]))
             || (s.lock == None && s'.lock == Some(t))
             || (Holding(s.calls[t]) && s'.lock == None && !Holding(s'.calls[t]))
    ensures Inv(c, s')
  {
    forall u | u in s'.calls
      ensures CallInv(s', s'.calls[u])
    {
      assert u != t ==> CallInv(s, s.calls[u]);
    }
  }

  lemma CallStepKeeps(c: Config, s: State, e: Event)
    requires c.locked && Inv(c, s) && Step(c, s, e).Some? && !e.Change? && !e.Publish?
    ensures Inv(c, Step(c, s, e).value)
  {
    assert CallInv(s, s.calls[e.t]);
    LocalStepKeeps(c, s, Step(c, s, e).value, e.t);
  }

  lemma StepKeeps(c: Config, s: State, e: Event)
    requires c.locked && Inv(c, s) && Step(c, s, e).Some?
    ensures Inv(c, Step(c, s, e).value)
  {
    match e
    case Change(pl) => ChangeKeeps(c, s, pl);
    case Publish(t) => PublishKeeps(c, s, t);
    case _ => CallStepKeeps(c, s, e);
  }

  lemma {:induction false} ExecKeeps(c: Config, s0: State, events: seq<Event>)
    requires c.locked && Inv(c, s0) && Exec(c, s0, events).Some?
    ensures Inv(c, Exec(c, s0, events).value)
  {
    if events != [] {
      var n := |events| - 1;
      ExecKeeps(c, s0, events[..n]);
      StepKeeps(c, Exec(c, s0, events[..n]).value, events[n]);
    }
  }

  // ---- Theorems ----

  /** For every interleaving, the versions published never go back, and a call that
      reached the vault has left the cache showing a version at least as new as the vault
      was when the call was made. */
  lemma CacheNeverGoesBack(c: Config, s0: State, events: seq<Event>, s: State)
    requires c.locked && Start(s0) && Exec(c, s0, events) == Some(s)
    ensures Ascending(s.applied) && Shown(s) <= Newest(s)
    ensures forall t | t in s.calls && s.calls[t].Done? && s.calls[t].version.Some? :: s.calls[t].since <= Shown(s)
  {
    ExecKeeps(c, s0, events);
    assert forall t | t in s.calls :: CallInv(s, s.calls[t]);
  }

  lemma {:induction false} LatestIsLastApplied(versions: seq<Payload>, history: seq<Option<Payload>>, applied: seq<nat>)
    requires Traces(versions, history, applied)
    ensures applied == [] ==> Latest(history) == None
    ensures applied != [] ==> applied[|applied| - 1] < |versions|
                              && Latest(history) == Some(versions[applied[|applied| - 1]])
    decreases |history|
  {
    if history != [] && history[|history| - 1].None? {
      LatestIsLastApplied(versions, history[..|history| - 1], applied);
    }
  }

  lemma LatestIsShown(c: Config, s: State)
    requires Inv(c, s)
    ensures s.applied == [] ==> Latest(s.history) == None
    ensures s.applied != [] ==> 0 <= Shown(s) < |s.versions| && Latest(s.history) == Some(s.versions[Shown(s)])
    ensures forall v | v in s.applied :: v <= Shown(s)
  {
    LatestIsLastApplied(s.versions, s.history, s.applied);
  }

  lemma EmptyUntilApplied(d: Decryption, history: seq<Option<Payload>>)
    requires Latest(history) == None
    ensures CacheAfter(d, history) == map[]
  {
    CacheIsCurrent(d, history);
  }

  lemma CurrentAfter(d: Decryption, history: seq<Option<Payload>>, pl: Payload)
    requires Latest(history) == Some(pl)
    ensures Current(d, CacheAfter(d, history), pl)
  {
    CacheIsCurrent(d, history);
  }

  /** What the cache shows is live in the newest version ever published: an item gone from
      it cannot come back from an older fetch. */
  lemma CacheShowsNewestPublished(c: Config, s0: State, events: seq<Event>, s: State)
    requires c.locked && Start(s0) && Exec(c, s0, events) == Some(s)
    ensures s.cache == CacheAfter(c.d, s.history)
    ensures s.applied == [] ==> s.cache == map[]
    ensures s.applied != [] ==>
              && 0 <= Shown(s) < |s.versions|
              && (forall v | v in s.applied :: v <= Shown(s))
              && Current(c.d, s.cache, s.versions[Shown(s)])
  {
    ExecKeeps(c, s0, events);
    LatestIsShown(c, s);
    if s.applied == [] {
      EmptyUntilApplied(c.d, s.history);
    } else {
      CurrentAfter(c.d, s.history, s.versions[Shown(s)]);
    }
  }

  // ---- Why the sync lock is needed ----

  lemma Extend(c: Config, s0: State, events: seq<Event>, s: State, e: Event) returns (events': seq<Event>, s': State)
    requires Exec(c, s0, events) == Some(s) && Step(c, s, e).Some?
    ensures Exec(c, s0, events') == Some(s') && Step(c, s, e) == Some(s')
  {
    events', s' := events + [e], Step(c, s, e).value;
    assert events'[..|events|] == events;
  }

  /** Call t asks and hears the newest version. */
  lemma UnlockedAnswer(c: Config, s0: State, events: seq<Event>, s: State, t: nat) returns (events': seq<Event>, s': State)
    requires !c.locked && Exec(c, s0, events) == Some(s) && s.versions != []
    requires t in s.calls && s.calls[t] == Idle
    ensures Exec(c, s0, events') == Some(s')
    ensures var v := |s.versions| - 1;
            s' == s.(lock := Some(t), calls := s.calls[t := Answered(v, v, Some(v))])
  {
    var e1, s1 := Extend(c, s0, events, s, Call(t));
    var e2, s2 := Extend(c, s0, e1, s1, Lock(t));
    var e3, s3 := Extend(c, s0, e2, s2, Ask(t));
    events', s' := Extend(c, s0, e3, s3, Answer(t, Some(|s.versions| - 1)));
    assert s'.calls == s.calls[t := s'.calls[t]];
  }

  lemma UnlockedPublish(c: Config, s0: State, events: seq<Event>, s: State, t: nat) returns (events': seq<Event>, s': State)
    requires Exec(c, s0, events) == Some(s) && s.versions != []
    requires t in s.calls && s.calls[t].Answered? && s.calls[t].version.Some? && s.calls[t].version.value < |s.versions|
    ensures Exec(c, s0, events') == Some(s')
    ensures s'.versions == s.versions && s'.applied == s.applied + [s.calls[t].version.value]
    ensures forall u | u in s.calls && u != t :: u in s'.calls && s'.calls[u] == s.calls[u]
  {
    events', s' := Extend(c, s0, events, s, Publish(t));
  }

  /** With syncMu removed, a slower fetch can publish last: a newer version is replaced by
      an older one. */
  lemma WithoutLockCacheGoesBack(d: Decryption, older: Payload, newer: Payload) returns (s0: State, events: seq<Event>, s: State)
    ensures Start(s0) && Exec(Config(d, false), s0, events) == Some(s)
    ensures s.applied == [1, 0] && s.versions == [older, newer]
  {
    var c := Config(d, false);
    s0 := State([older], None, map[0 := Idle, 1 := Idle], map[], [], []);
    var e1, s1 := UnlockedAnswer(c, s0, [], s0, 0);
    var e2, s2 := Extend(c, s0, e1, s1, Change(newer));
    var e3, s3 := UnlockedAnswer(c, s0, e2, s2, 1);
    var e4, s4 := UnlockedPublish(c, s0, e3, s3, 1);
    events, s := UnlockedPublish(c, s0, e4, s4, 0);
  }
}
