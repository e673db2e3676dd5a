/** One Sync call that runs alone in the transition system does what the sequential
    operations of the client do. */
module RenewalAlone {
  import opened Wrappers
  import opened CipherStrings
  import opened Credentials
  import opened Renewal

  /** The status of a reply, and whether its body decodes; 0 stands for no reply. */
  function StatusOf<R>(reply: Reply<R>): (int, bool)
  {
    match reply
    case NoReply => (0, false)
    case Reply(status, body) => (status, body.Some?)
  }

  /** The answers the event brings call t are among those of the exchange. */
  predicate Hears<R(==)>(e: Event, t: nat, x: Exchange<R>) {
    match e
    case Tick(_) => true
    case RefreshReply(u, answer) => u == t && (answer == x.refresh || answer == x.retryRefresh)
    case LoginReply(u, answers) => u == t && (answers == x.answers || answers == x.retryAnswers)
    case SyncReply(u, status, decoded) =>
      u == t && ((status, decoded) == StatusOf(x.first) || (status, decoded) == StatusOf(x.second))
    case _ => e.t == t
  }

  /** A run of call t that hears the exchange and leads to s. */
  ghost predicate Leads<R>(c: Config, s0: State, events: seq<Event>, s: State, t: nat, x: Exchange<R>) {
    Exec(c, s0, events) == Some(s) && forall e | e in events :: Hears(e, t, x)
  }

  lemma Go<R>(c: Config, s0: State, events: seq<Event>, s: State, t: nat, x: Exchange<R>, e: Event)
    returns (events': seq<Event>, s': State)
    requires Leads(c, s0, events, s, t, x) && Hears(e, t, x) && Step(c, s, e).Some?
    ensures Leads(c, s0, events', s', t, x) && Step(c, s, e) == Some(s')
  {
    events', s' := events + [e], Step(c, s, e).value;
    assert events'[..|events|] == events;
  }

  /** Where a call stands that has just finished a renewal. */
  ghost predicate Renewed(s: State, s': State, t: nat, creds: Creds, ok: bool)
    requires t in s.calls && s.calls[t].pc.WantLock?
  {
    var pc := s.calls[t].pc;
    && s'.shared.creds == creds
    && s'.lock == None
    && t in s'.calls
    && s'.calls[t] == Call(if ok then Ready(pc.phase, pc.stale) else Done(None), s.calls[t].sent)
  }

  /** The full login of a renewal. */
  lemma LoginAlone<R>(c: Config, s0: State, events: seq<Event>, s: State, t: nat, x: Exchange<R>, answers: LoginAnswers)
    returns (events': seq<Event>, s': State)
    requires Leads(c, s0, events, s, t, x) && Sound(c.login) && !c.neverReissues
    requires t in s.calls && s.calls[t].pc.LoggingIn? && (answers == x.answers || answers == x.retryAnswers)
    ensures Leads(c, s0, events', s', t, x) && t in s'.calls && s'.lock == None && s'.now == s.now
    ensures var pc, session := s.calls[t].pc, c.login(answers);
            && s'.shared.creds == (if session.Some? then AfterLogin(session.value, s.now) else s.shared.creds)
            && s'.calls[t]
               == Call(if session.Some? then Ready(pc.phase, pc.stale) else Done(None), s.calls[t].sent)
  {
    var e1, s1 := Go(c, s0, events, s, t, x, LoginReply(t, answers));
    if c.login(answers).Some? {
      var e2, s2 := Go(c, s0, e1, s1, t, x, PublishLogin(t));
      events', s' := Go(c, s0, e2, s2, t, x, Unlock(t));
    } else {
      events', s' := Go(c, s0, e1, s1, t, x, Unlock(t));
    }
  }

  /** What a renewal does once it has found its token still current. */
  lemma GrantAlone<R>(c: Config, s0: State, events: seq<Event>, s: State, t: nat, x: Exchange<R>,
                      refresh: Option<TokenResponse>, answers: LoginAnswers)
    returns (events': seq<Event>, s': State)
    requires Leads(c, s0, events, s, t, x) && Sound(c.login) && !c.neverReissues
    requires t in s.calls && s.calls[t].pc.ReadingRefresh? && s.calls[t].pc.stale == s.shared.creds.access
    requires (refresh, answers) == (x.refresh, x.answers) || (refresh, answers) == (x.retryRefresh, x.retryAnswers)
    ensures Leads(c, s0, events', s', t, x) && t in s'.calls && s'.lock == None && s'.now == s.now
    ensures var pc := s.calls[t].pc;
            var (ok, creds) := AfterRenewal(c.login, s.shared.creds, pc.stale, refresh, answers, s.now);
            && s'.shared.creds == creds
            && s'.calls[t] == Call(if ok then Ready(pc.phase, pc.stale) else Done(None), s.calls[t].sent)
  {
    var e1, s1 := Go(c, s0, events, s, t, x, ReadRefresh(t));
    if s.shared.creds.refresh == "" {
      events', s' := LoginAlone(c, s0, e1, s1, t, x, answers);
    } else {
      var e2, s2 := Go(c, s0, e1, s1, t, x, RefreshReply(t, refresh));
      if Usable(refresh) {
        var e3, s3 := Go(c, s0, e2, s2, t, x, PublishRefresh(t));
        events', s' := Go(c, s0, e3, s3, t, x, Unlock(t));
      } else {
        events', s' := LoginAlone(c, s0, e2, s2, t, x, answers);
      }
    }
  }

  /** A renewal alone is APIClient.RefreshOrReauthenticate. */
  lemma RenewAlone<R>(c: Config, s0: State, events: seq<Event>, s: State, t: nat, x: Exchange<R>,
                      refresh: Option<TokenResponse>, answers: LoginAnswers, now: Time)
    returns (events': seq<Event>, s': State)
    requires Leads(c, s0, events, s, t, x) && Sound(c.login) && !c.neverReissues
    requires s.lock == None && t in s.calls && s.calls[t].pc.WantLock? && s.now <= now
    requires (refresh, answers) == (x.refresh, x.answers) || (refresh, answers) == (x.retryRefresh, x.retryAnswers)
    ensures Leads(c, s0, events', s', t, x) && s'.now == now
    ensures var (ok, creds) := AfterRenewal(c.login, s.shared.creds, s.calls[t].pc.stale, refresh, answers, now);
            Renewed(s, s', t, creds, ok)
  {
    var e1, s1 := Go(c, s0, events, s, t, x, Tick(now - s.now));
    var e2, s2 := Go(c, s0, e1, s1, t, x, Lock(t));
    var e3, s3 := Go(c, s0, e2, s2, t, x, Compare(t));
    if s.shared.creds.access != s.calls[t].pc.stale {
      events', s' := Go(c, s0, e3, s3, t, x, Unlock(t));
    } else {
      events', s' := GrantAlone(c, s0, e3, s3, t, x, refresh, answers);
    }
  }

  /** The call has come to its end with what the fetch returned. */
  ghost predicate Finished<R>(s: State, t: nat, fetched: Option<(R, SymmetricKey)>) {
    && t in s.calls && s.calls[t].pc.Done?
    && (s.calls[t].pc.result.Some? <==> fetched.Some?)
    && (fetched.Some? ==> s.calls[t].pc.result.value.key == fetched.value.1
                          && s.calls[t].pc.result.value.token == s.shared.creds.access)
  }

  lemma EnsureAlone<R>(c: Config, s0: State, t: nat, x: Exchange<R>) returns (events: seq<Event>, s: State)
    requires Sound(c.login) && !c.neverReissues && s0.lock == None && t in s0.calls && s0.calls[t] == Call(Idle, [])
    requires s0.now <= x.clock <= x.renewed
    ensures Leads(c, s0, events, s, t, x) && s.lock == None && t in s.calls && s.now <= x.renewed
    ensures var (ok, creds) := AfterEnsure(c.login, s0.shared.creds, x);
            && s.shared.creds == creds
            && s.calls[t] == Call(if ok then Ready(Ensuring, s0.shared.creds.access) else Done(None), [])
  {
    var e1, s1 := Go(c, s0, [], s0, t, x, Tick(x.clock - s0.now));
    events, s := Go(c, s0, e1, s1, t, x, Begin(t));
    if Expiring(s0.shared.creds.expiry, x.clock) {
      events, s := RenewAlone(c, s0, events, s, t, x, x.refresh, x.answers, x.renewed);
    }
  }

  /** The retry, from the renewal after the first rejection on. */
  lemma RetryAlone<R>(c: Config, s0: State, events: seq<Event>, s: State, t: nat, x: Exchange<R>)
    returns (events': seq<Event>, s': State)
    requires Leads(c, s0, events, s, t, x) && Sound(c.login) && !c.neverReissues
    requires s.lock == None && t in s.calls && s.calls[t].pc == WantLock(Retrying, s.shared.creds.access)
    requires s.now <= x.retryRenewed && |s.calls[t].sent| == 1
    ensures Leads(c, s0, events', s', t, x)
    ensures var creds := s.shared.creds;
            var (ok, again) := AfterRenewal(c.login, creds, creds.access, x.retryRefresh, x.retryAnswers, x.retryRenewed);
            && s'.shared.creds == (if ok && Unauthorized(x.second) then again.(expiry := ZERO_TIME) else again)
            && Finished(s', t, if ok then Accepted(x.second, again.key) else None)
            && s'.calls[t].sent == s.calls[t].sent + if ok then [again.access] else []
  {
    events', s' := RenewAlone(c, s0, events, s, t, x, x.retryRefresh, x.retryAnswers, x.retryRenewed);
    if s'.calls[t].pc.Ready? {
      events', s' := Go(c, s0, events', s', t, x, Snapshot(t));
      var (status, decoded) := StatusOf(x.second);
      events', s' := Go(c, s0, events', s', t, x, SyncReply(t, status, decoded));
      if Unauthorized(x.second) {
        events', s' := Go(c, s0, events', s', t, x, ZeroExpiry(t));
      }
    }
  }

  /** A call alone ends with the credentials and the result of APIClient.Fetch, and has sent
      one sync request for each reply it heard. */
  lemma CallAlone<R>(c: Config, s0: State, t: nat, x: Exchange<R>) returns (events: seq<Event>, s: State)
    requires Sound(c.login) && !c.neverReissues && s0.lock == None && t in s0.calls && s0.calls[t] == Call(Idle, [])
    requires s0.now <= x.clock <= x.renewed <= x.retryRenewed
    ensures Leads(c, s0, events, s, t, x)
    ensures s.shared.creds == AfterFetch(c.login, s0.shared.creds, x).0
    ensures Finished(s, t, AfterFetch(c.login, s0.shared.creds, x).1)
    ensures var (ok, creds) := AfterEnsure(c.login, s0.shared.creds, x);
            !ok ==> s.calls[t].sent == []
    ensures var (ok, creds) := AfterEnsure(c.login, s0.shared.creds, x);
            ok ==> s.calls[t].sent != [] && s.calls[t].sent[0] == creds.access
  {
    events, s := EnsureAlone(c, s0, t, x);
    if s.calls[t].pc.Ready? {
      events, s := Go(c, s0, events, s, t, x, Snapshot(t));
      var (status, decoded) := StatusOf(x.first);
      events, s := Go(c, s0, events, s, t, x, SyncReply(t, status, decoded));
      if Unauthorized(x.first) {
        events, s := RetryAlone(c, s0, events, s, t, x);
      }
    }
  }
}
