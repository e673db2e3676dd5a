/** What the renewal protocol guarantees in every reachable state of any number of
    concurrent Sync calls. */
module RenewalTheorems {
  import opened Wrappers
  import opened Base64
  import opened CipherStrings
  import opened SealedStrings
  import opened VaultKeys
  import opened Credentials
  import opened Renewal

  /** Access token, refresh token and key always stem from one login, and so does every
      (token, key) pair a call sends or returns with; the key is a full one. */
  lemma CredentialsMatch(c: Config, s: State)
    requires Sound(c.login) && c.locked && Reachable(c, s)
    ensures s.shared.origin.access == s.shared.origin.key
    ensures s.shared.creds.refresh != "" ==> s.shared.origin.refresh == s.shared.origin.key
    ensures s.shared.creds.access != "" && s.shared.creds.key.Full()
    ensures forall t | t in s.calls && s.calls[t].pc.Sent? :: Matched(s.calls[t].pc.grant)
    ensures forall t | t in s.calls && s.calls[t].pc.Done? && s.calls[t].pc.result.Some? ::
              Matched(s.calls[t].pc.result.value)
  {
    ReachableInv(c, s);
    assert forall t | t in s.calls :: CallInv(c, s.shared, s.calls[t]);
  }

  /** Each access token is replaced by at most one renewal, however many calls saw it
      rejected. */
  lemma ReplacedOnce(c: Config, s: State)
    requires Sound(c.login) && c.locked && c.neverReissues && Reachable(c, s)
    ensures s.shared.creds.access !in s.shared.replaced
    ensures forall i, j | 0 <= i < j < |s.shared.replaced| :: s.shared.replaced[i] != s.shared.replaced[j]
  {
    ReachableInv(c, s);
  }

  predicate AtTokenEndpoint(pc: Pc) {
    pc.Refreshing? || pc.LoggingIn?
  }

  /** Token requests are sent for the current token only, by one call at a time; a call
      whose token is already replaced passes the lock without one. */
  lemma LateCallsSkip(c: Config, s: State, t: nat)
    requires Sound(c.login) && c.locked && Reachable(c, s) && t in s.calls
    ensures AtTokenEndpoint(s.calls[t].pc) ==>
              && s.calls[t].pc.stale == s.shared.creds.access
              && (c.neverReissues ==> s.calls[t].pc.stale !in s.shared.replaced)
              && forall u | u in s.calls && u != t :: !AtTokenEndpoint(s.calls[u].pc)
    ensures s.calls[t].pc.Comparing? && s.calls[t].pc.stale != s.shared.creds.access ==>
              var pc := s.calls[t].pc;
              && Step(c, s, Compare(t)).Some?
              && Step(c, Step(c, s, Compare(t)).value, Unlock(t)).Some?
              && var s' := Step(c, Step(c, s, Compare(t)).value, Unlock(t)).value;
                 s' == s.(calls := s.calls[t := Call(Ready(pc.phase, pc.stale), s.calls[t].sent)], lock := None)
  {
    ReachableInv(c, s);
    assert CallInv(c, s.shared, s.calls[t]);
    if s.calls[t].pc.Comparing? && s.calls[t].pc.stale != s.shared.creds.access {
      var s1 := Step(c, s, Compare(t)).value;
      var s2 := Step(c, s1, Unlock(t)).value;
      assert s2.calls == s.calls[t := s2.calls[t]];
    }
  }

  /** A renewal that returns success has left a token other than the rejected one; a call
      sends at most two sync requests, and the second never carries the rejected token. */
  lemma RetryUsesAnotherToken(c: Config, s: State, t: nat)
    requires Sound(c.login) && c.locked && Reachable(c, s) && t in s.calls
    ensures |s.calls[t].sent| <= 2
    ensures c.neverReissues && |s.calls[t].sent| == 2 ==> s.calls[t].sent[0] != s.calls[t].sent[1]
    ensures c.neverReissues && s.calls[t].pc.Unlocking? && s.calls[t].pc.ok ==>
              s.shared.creds.access != s.calls[t].pc.stale
  {
    ReachableInv(c, s);
    assert CallInv(c, s.shared, s.calls[t]);
  }

  /** Every publication, whatever runs between its reads and its write, is one whole
      sequential renewal of the credentials it finds: the contract of
      APIClient.RefreshOrReauthenticate. This one ends in a refresh, */
  lemma RefreshIsAtomic(c: Config, s: State, t: nat, login: LoginAnswers)
    requires Sound(c.login) && c.locked && Reachable(c, s) && t in s.calls && s.calls[t].pc.Refreshed?
    ensures Step(c, s, PublishRefresh(t)).Some?
    ensures var creds' := Step(c, s, PublishRefresh(t)).value.shared.creds;
            AfterRenewal(c.login, s.shared.creds, s.calls[t].pc.stale, Some(s.calls[t].pc.answer), login, s.now)
            == (true, creds')
  {
    ReachableInv(c, s);
    assert CallInv(c, s.shared, s.calls[t]);
  }

  /** and this one in a full login. */
  lemma LoginIsAtomic(c: Config, s: State, t: nat)
    requires Sound(c.login) && c.locked && Reachable(c, s) && t in s.calls && s.calls[t].pc.LoggedIn?
    ensures Step(c, s, PublishLogin(t)).Some?
    ensures var creds' := Step(c, s, PublishLogin(t)).value.shared.creds;
            AfterRenewal(c.login, s.shared.creds, s.calls[t].pc.stale, None, s.calls[t].pc.answers, s.now)
            == (true, creds')
  {
    ReachableInv(c, s);
    var pc := s.calls[t].pc;
    assert CallInv(c, s.shared, s.calls[t]);
    assert Step(c, s, PublishLogin(t)) == Some(PublishLoginStep(s, t));
  }

  /** Nothing but a publication changes the tokens or the key, so failed refreshes and
      failed logins leave all four fields alone; only the retry path touches the expiry. */
  lemma OnlyPublicationsChange(c: Config, s: State, e: Event)
    requires Step(c, s, e).Some?
    ensures !e.PublishRefresh? && !e.PublishLogin? ==>
              var creds, creds' := s.shared.creds, Step(c, s, e).value.shared.creds;
              creds' == if e.ZeroExpiry? then creds.(expiry := ZERO_TIME) else creds
  {
  }

  predicate Publishes(e: Event) {
    e.PublishRefresh? || e.PublishLogin?
  }

  /** Once the expiry is zeroed, every later call renews first, until a renewal publishes. */
  lemma {:induction false} ZeroedExpiryForcesRenewal(c: Config, s: State, events: seq<Event>, t: nat)
    requires s.shared.creds.expiry == ZERO_TIME && s.now >= 0
    requires Exec(c, s, events).Some? && forall e | e in events :: !Publishes(e)
    ensures var s' := Exec(c, s, events).value;
            && s'.shared.creds == s.shared.creds
            && s'.now >= 0
            && (t in s'.calls && s'.calls[t].pc.Idle? ==>
                  && Step(c, s', Begin(t)).Some?
                  && Step(c, s', Begin(t)).value.calls[t].pc == WantLock(Ensuring, s'.shared.creds.access))
  {
    if events != [] {
      var n := |events| - 1;
      assert events[n] in events && forall e | e in events[..n] :: e in events;
      ZeroedExpiryForcesRenewal(c, s, events[..n], t);
      OnlyPublicationsChange(c, Exec(c, s, events[..n]).value, events[n]);
    }
  }

  // ---- Progress ----

  /** What a call at pc can do next, if every request it waits for fails. */
  function NextEvent(pc: Pc, u: nat): Event
    requires !pc.Done?
  {
    match pc
    case Idle => Begin(u)
    case WantLock(_, _) => Lock(u)
    case Comparing(_, _) => Compare(u)
    case ReadingRefresh(_, _) => ReadRefresh(u)
    case Refreshing(_, _, _, _) => RefreshReply(u, None)
    case Refreshed(_, _, _, _) => PublishRefresh(u)
    case LoggingIn(_, _) => LoginReply(u, LoginAnswers(None, None, None))
    case LoggedIn(_, _, _, _, _) => PublishLogin(u)
    case Unlocking(_, _, _) => Unlock(u)
    case Ready(_, _) => Snapshot(u)
    case Sent(_, _) => SyncReply(u, 0, false)
    case Rejected => ZeroExpiry(u)
  }

  lemma NextIsEnabled(c: Config, s: State, u: nat)
    requires Sound(c.login) && u in s.calls && !s.calls[u].pc.Done? && CallInv(c, s.shared, s.calls[u])
    requires s.calls[u].pc.WantLock? ==> s.lock == None
    ensures Step(c, s, NextEvent(s.calls[u].pc, u)).Some?
  {
  }

  /** While a call is unfinished, some call can take a step. */
  lemma NeverStuck(c: Config, s: State, t: nat)
    requires Sound(c.login) && c.locked && Reachable(c, s)
    requires t in s.calls && !s.calls[t].pc.Done?
    ensures exists u | u in s.calls && !s.calls[u].pc.Done? :: Step(c, s, NextEvent(s.calls[u].pc, u)).Some?
  {
    ReachableInv(c, s);
    NextIsEnabled(c, s, if s.lock.Some? then s.lock.value else t);
  }

  function Round(phase: Phase): nat
  {
    if phase == Ensuring then 11 else 2
  }

  /** An upper bound on the steps a call at pc has left. */
  function StepsLeft(pc: Pc): nat
  {
    match pc
    case Idle => 20
    case WantLock(phase, _) => Round(phase) + 8
    case Comparing(phase, _) => Round(phase) + 7
    case ReadingRefresh(phase, _) => Round(phase) + 6
    case Refreshing(phase, _, _, _) => Round(phase) + 5
    case Refreshed(phase, _, _, _) => Round(phase) + 4
    case LoggingIn(phase, _) => Round(phase) + 4
    case LoggedIn(phase, _, _, _, _) => Round(phase) + 3
    case Unlocking(phase, _, _) => Round(phase) + 2
    case Ready(phase, _) => Round(phase) + 1
    case Sent(phase, _) => Round(phase)
    case Rejected => 1
    case Done(_) => 0
  }

  ghost function TotalLeft(calls: map<nat, Call>): nat
  {
    if calls == map[] then 0
    else
      var t :| t in calls;
      StepsLeft(calls[t].pc) + TotalLeft(calls - {t})
  }

  lemma {:induction false} TotalLeftSplits(calls: map<nat, Call>, t: nat)
    requires t in calls
    ensures TotalLeft(calls) == StepsLeft(calls[t].pc) + TotalLeft(calls - {t})
    decreases |calls|
  {
    var u :| u in calls && TotalLeft(calls) == StepsLeft(calls[u].pc) + TotalLeft(calls - {u});
    if u != t {
      TotalLeftSplits(calls - {u}, t);
      TotalLeftSplits(calls - {t}, u);
      assert calls - {u} - {t} == calls - {t} - {u};
    }
  }

  lemma StepUsesOne(c: Config, s: State, e: Event)
    requires Step(c, s, e).Some? && !e.Tick?
    ensures e.t in s.calls
    ensures var s' := Step(c, s, e).value;
            && s'.calls == s.calls[e.t := s'.calls[e.t]]
            && StepsLeft(s'.calls[e.t].pc) < StepsLeft(s.calls[e.t].pc)
  {
  }

  function CallSteps(events: seq<Event>): nat
  {
    if events == [] then 0
    else CallSteps(events[..|events| - 1]) + if events[|events| - 1].Tick? then 0 else 1
  }

  /** Every run is finite: calls take no more steps than they had left at its start. With
      NeverStuck, every maximal run finishes every call. */
  lemma {:induction false} RunsAreBounded(c: Config, s: State, events: seq<Event>)
    requires Exec(c, s, events).Some?
    ensures CallSteps(events) + TotalLeft(Exec(c, s, events).value.calls) <= TotalLeft(s.calls)
  {
    if events != [] {
      var n := |events| - 1;
      RunsAreBounded(c, s, events[..n]);
      var mid, e := Exec(c, s, events[..n]).value, events[n];
      if !e.Tick? {
        StepUsesOne(c, mid, e);
        var s' := Step(c, mid, e).value;
        TotalLeftSplits(mid.calls, e.t);
        TotalLeftSplits(s'.calls, e.t);
        assert mid.calls - {e.t} == s'.calls - {e.t};
      }
    }
  }

  // ---- Why the renewal lock is needed ----

  lemma ExecAppend(c: Config, s0: State, events: seq<Event>, e: Event)
    requires Exec(c, s0, events).Some? && Step(c, Exec(c, s0, events).value, e).Some?
    ensures Exec(c, s0, events + [e]) == Step(c, Exec(c, s0, events).value, e)
  {
    assert (events + [e])[..|events|] == events;
  }

  /** Without the lock a call can read the refresh token whatever others are doing. */
  lemma UnlockedRead(c: Config, s0: State, events: seq<Event>, t: nat) returns (events': seq<Event>)
    requires !c.locked && Exec(c, s0, events).Some?
    requires var s := Exec(c, s0, events).value;
             && t in s.calls && s.calls[t] == Call(Idle, [])
             && Expiring(s.shared.creds.expiry, s.now) && s.shared.creds.refresh != ""
    ensures var s, sh := Exec(c, s0, events).value, Exec(c, s0, events).value.shared;
            Exec(c, s0, events') == Some(s.(
              lock := Some(t),
              calls := s.calls[t := Call(Refreshing(Ensuring, sh.creds.access, sh.creds.refresh, sh.origin.refresh), [])]))
  {
    ExecAppend(c, s0, events, Begin(t));
    var e1 := events + [Begin(t)];
    ExecAppend(c, s0, e1, Lock(t));
    var e2 := e1 + [Lock(t)];
    ExecAppend(c, s0, e2, Compare(t));
    var e3 := e2 + [Compare(t)];
    ExecAppend(c, s0, e3, ReadRefresh(t));
    events' := e3 + [ReadRefresh(t)];
    var s, s' := Exec(c, s0, events).value, Exec(c, s0, events').value;
    assert s'.calls == s.calls[t := s'.calls[t]];
  }

  /** One step of a run whose state is known. */
  lemma Extend(c: Config, s0: State, events: seq<Event>, s: State, e: Event, s': State) returns (events': seq<Event>)
    requires Exec(c, s0, events) == Some(s) && Step(c, s, e) == Some(s')
    ensures Exec(c, s0, events') == Some(s')
  {
    ExecAppend(c, s0, events, e);
    events' := events + [e];
  }

  lemma UnlockedLogin(c: Config, s0: State, events: seq<Event>, t: nat, answers: LoginAnswers) returns (events': seq<Event>)
    requires Exec(c, s0, events).Some?
    requires var s := Exec(c, s0, events).value;
             && t in s.calls && s.calls[t].pc.Refreshing?
             && c.login(answers).Some?
             && MayMint(c, s, c.login(answers).value.answer.access)
    ensures Exec(c, s0, events').Some?
    ensures var s, s' := Exec(c, s0, events).value, Exec(c, s0, events').value;
            && s'.shared.origin == Origin(s.nextLogin, s.nextLogin, s.nextLogin)
            && s'.shared.minted == s.shared.minted + {c.login(answers).value.answer.access}
            && forall u | u in s.calls && u != t :: u in s'.calls && s'.calls[u] == s.calls[u]
  {
    var s := Exec(c, s0, events).value;
    var s1 := Goto(s, t, LoggingIn(s.calls[t].pc.phase, s.calls[t].pc.stale));
    var e1 := Extend(c, s0, events, s, RefreshReply(t, None), s1);
    var s2 := LoginReplyStep(c, s1, t, answers).value;
    var e2 := Extend(c, s0, e1, s1, LoginReply(t, answers), s2);
    events' := Extend(c, s0, e2, s2, PublishLogin(t), PublishLoginStep(s2, t));
  }

  lemma UnlockedRefresh(c: Config, s0: State, events: seq<Event>, t: nat, answer: TokenResponse) returns (events': seq<Event>)
    requires Exec(c, s0, events).Some? && answer.access != ""
    requires var s := Exec(c, s0, events).value;
             t in s.calls && s.calls[t].pc.Refreshing? && answer.access !in s.shared.minted
    ensures Exec(c, s0, events').Some?
    ensures var s, s' := Exec(c, s0, events).value, Exec(c, s0, events').value;
            && s'.shared.origin.access == s.calls[t].pc.rtLogin
            && s'.shared.origin.key == s.shared.origin.key
  {
    ExecAppend(c, s0, events, RefreshReply(t, Some(answer)));
    var e1 := events + [RefreshReply(t, Some(answer))];
    ExecAppend(c, s0, e1, PublishRefresh(t));
    events' := e1 + [PublishRefresh(t)];
  }

  /** A login answer that carries the wrapped form of a full key. */
  lemma LoginCarrying(p: Primitives, key: SymmetricKey, masterKey: seq<byte>, iv: seq<byte>) returns (answers: LoginAnswers)
    requires p.Lawful() && key.Full() && |iv| == BLOCK
    ensures LoginWith(p)(answers).Some? && LoginWith(p)(answers).value.answer.access == "b"
  {
    var wrapped := Print(Sealed(p, StretchKey(p, masterKey), iv, key.encKey + key.macKey));
    UnwrapWrapped(p, masterKey, iv, key, false);
    answers := LoginAnswers(Some(masterKey), Some(TokenResponse("b", "", 3600, wrapped)), None);
    assert OpenSession(p, answers) == Some(Session(answers.token.value, key));
  }

  /** With renewMu removed, two calls suffice to pair a token of one login with the key of
      another: one call's refresh is answered across the other's full login. */
  lemma WithoutLockLoginsMix(p: Primitives, key: SymmetricKey, masterKey: seq<byte>, iv: seq<byte>) returns (s: State)
    requires p.Lawful() && key.Full() && |iv| == BLOCK
    ensures Reachable(Config(LoginWith(p), false, true), s)
    ensures s.shared.origin.access != s.shared.origin.key
  {
    var c := Config(LoginWith(p), false, true);
    var s0 := State(Shared(Creds("a", "r", ZERO_TIME, key), Origin(0, 0, 0), [], {"a"}), None,
                    map[0 := Call(Idle, []), 1 := Call(Idle, [])], 0, 1);
    assert Start(c, s0);
    var answers := LoginCarrying(p, key, masterKey, iv);
    var e1 := UnlockedRead(c, s0, [], 0);
    var e2 := UnlockedRead(c, s0, e1, 1);
    var e3 := UnlockedLogin(c, s0, e2, 1, answers);
    var e4 := UnlockedRefresh(c, s0, e3, 0, TokenResponse("c", "", 3600, ""));
    s := Exec(c, s0, e4).value;
  }
}
