/** Any number of concurrent Sync calls sharing one set of credentials, as a transition
    system. Every critical section of the credential lock is one step; network exchanges
    and waiting for the renewal lock lie between steps.

    The system records, beside the real fields, which login each value stems from and
    which access tokens have been replaced. */
module Renewal {
  import opened Wrappers
  import opened CipherStrings
  import opened Credentials

  /** Why a call renews: the token was about to expire, or the server rejected it. */
  datatype Phase = Ensuring | Retrying

  /** The (token, key) pair a call works with, each with the login it stems from. */
  datatype Grant = Grant(token: string, tokenLogin: nat, key: SymmetricKey, keyLogin: nat)

  /** Where a Sync call stands. */
  datatype Pc =
    | Idle
    | WantLock(phase: Phase, stale: string)
    | Comparing(phase: Phase, stale: string)
    | ReadingRefresh(phase: Phase, stale: string)
    | Refreshing(phase: Phase, stale: string, rt: string, rtLogin: nat)
    | Refreshed(phase: Phase, stale: string, answer: TokenResponse, login: nat)
    | LoggingIn(phase: Phase, stale: string)
    | LoggedIn(phase: Phase, stale: string, answers: LoginAnswers, session: Session, login: nat)
    | Unlocking(phase: Phase, stale: string, ok: bool)
    | Ready(phase: Phase, stale: string)
    | Sent(phase: Phase, grant: Grant)
    | Rejected
    | Done(result: Option<Grant>)

  /** A call's position and the tokens of the sync requests it has sent. */
  datatype Call = Call(pc: Pc, sent: seq<string>)

  /** The login each field stems from. */
  datatype Origin = Origin(access: nat, refresh: nat, key: nat)

  datatype Shared = Shared(creds: Creds, origin: Origin, replaced: seq<string>, minted: set<string>)

  datatype State = State(shared: Shared, lock: Option<nat>, calls: map<nat, Call>, now: Time, nextLogin: nat)

  /** `locked` is true of the program; false models it with renewMu removed.
      `neverReissues` assumes the server never hands out an access token twice. */
  datatype Config = Config(login: Login, locked: bool, neverReissues: bool)

  datatype Event =
    | Tick(elapsed: nat)
    | Begin(t: nat)
    | Lock(t: nat)
    | Compare(t: nat)
    | ReadRefresh(t: nat)
    | RefreshReply(t: nat, answer: Option<TokenResponse>)
    | PublishRefresh(t: nat)
    | LoginReply(t: nat, answers: LoginAnswers)
    | PublishLogin(t: nat)
    | Unlock(t: nat)
    | Snapshot(t: nat)
    | SyncReply(t: nat, status: int, decoded: bool)
    | ZeroExpiry(t: nat)

  // ---- Steps ----

  function Goto(s: State, t: nat, pc: Pc): State
    requires t in s.calls
  {
    s.(calls := s.calls[t := Call(pc, s.calls[t].sent)])
  }

  /** The server may answer with this token. */
  predicate MayMint(c: Config, s: State, token: string) {
    token != "" && (c.neverReissues ==> token !in s.shared.minted)
  }

  function Mint(s: State, token: string): State
  {
    s.(shared := s.shared.(minted := s.shared.minted + {token}))
  }

  function Publish(s: State, creds: Creds, origin: Origin): State
  {
    s.(shared := s.shared.(creds := creds, origin := origin, replaced := s.shared.replaced + [s.shared.creds.access]))
  }

  /** EnsureValidToken's snapshot and expiry test. */
  function BeginStep(s: State, t: nat): State
    requires t in s.calls
  {
    var c := s.shared.creds;
    Goto(s, t, if Expiring(c.expiry, s.now) then WantLock(Ensuring, c.access) else Ready(Ensuring, c.access))
  }

  function ReadRefreshStep(s: State, t: nat): State
    requires t in s.calls && s.calls[t].pc.ReadingRefresh?
  {
    var pc, c := s.calls[t].pc, s.shared.creds;
    Goto(s, t, if c.refresh == "" then LoggingIn(pc.phase, pc.stale)
               else Refreshing(pc.phase, pc.stale, c.refresh, s.shared.origin.refresh))
  }

  /** An answer to a refresh belongs to the login of the token presented (section 6 of
      RFC 6749). */
  function RefreshReplyStep(c: Config, s: State, t: nat, answer: Option<TokenResponse>): Option<State>
    requires t in s.calls && s.calls[t].pc.Refreshing?
  {
    var pc := s.calls[t].pc;
    if !Usable(answer) then Some(Goto(s, t, LoggingIn(pc.phase, pc.stale)))
    else if !MayMint(c, s, answer.value.access) then None
    else Some(Goto(Mint(s, answer.value.access), t, Refreshed(pc.phase, pc.stale, answer.value, pc.rtLogin)))
  }

  function PublishRefreshStep(s: State, t: nat): State
    requires t in s.calls && s.calls[t].pc.Refreshed?
  {
    var pc, o := s.calls[t].pc, s.shared.origin;
    var origin := Origin(pc.login, if pc.answer.refresh != "" then pc.login else o.refresh, o.key);
    Goto(Publish(s, AfterRefresh(s.shared.creds, pc.answer, s.now), origin), t, Unlocking(pc.phase, pc.stale, true))
  }

  /** A full login starts a new lineage: its tokens and its key carry a new number. */
  function LoginReplyStep(c: Config, s: State, t: nat, answers: LoginAnswers): Option<State>
    requires t in s.calls && s.calls[t].pc.LoggingIn?
  {
    var pc := s.calls[t].pc;
    match c.login(answers)
    case None => Some(Goto(s, t, Unlocking(pc.phase, pc.stale, false)))
    case Some(session) =>
      if !MayMint(c, s, session.answer.access) then None
      else Some(Goto(Mint(s, session.answer.access), t, LoggedIn(pc.phase, pc.stale, answers, session, s.nextLogin))
                .(nextLogin := s.nextLogin + 1))
  }

  function PublishLoginStep(s: State, t: nat): State
    requires t in s.calls && s.calls[t].pc.LoggedIn?
  {
    var pc := s.calls[t].pc;
    Goto(Publish(s, AfterLogin(pc.session, s.now), Origin(pc.login, pc.login, pc.login)), t,
         Unlocking(pc.phase, pc.stale, true))
  }

  function UnlockStep(s: State, t: nat): State
    requires t in s.calls && s.calls[t].pc.Unlocking?
  {
    var pc := s.calls[t].pc;
    Goto(s, t, if pc.ok then Ready(pc.phase, pc.stale) else Done(None)).(lock := None)
  }

  /** Token and key are read together and the sync request is sent with the token. */
  function SnapshotStep(s: State, t: nat): State
    requires t in s.calls && s.calls[t].pc.Ready?
  {
    var sh := s.shared;
    var grant := Grant(sh.creds.access, sh.origin.access, sh.creds.key, sh.origin.key);
    s.(calls := s.calls[t := Call(Sent(s.calls[t].pc.phase, grant), s.calls[t].sent + [grant.token])])
  }

  function SyncReplyStep(s: State, t: nat, status: int, decoded: bool): State
    requires t in s.calls && s.calls[t].pc.Sent?
  {
    var pc := s.calls[t].pc;
    Goto(s, t, if status == 401 then
                 if pc.phase == Ensuring then WantLock(Retrying, pc.grant.token) else Rejected
               else if status == 200 && decoded then Done(Some(pc.grant))
               else Done(None))
  }

  function ZeroExpiryStep(s: State, t: nat): State
    requires t in s.calls
  {
    Goto(s.(shared := s.shared.(creds := s.shared.creds.(expiry := ZERO_TIME))), t, Done(None))
  }

  /** The event's successor state; None when the event cannot happen. */
  function Step(c: Config, s: State, e: Event): Option<State>
  {
    if e.Tick? then Some(s.(now := s.now + e.elapsed))
    else if e.t !in s.calls then None
    else
      var t, pc := e.t, s.calls[e.t].pc;
      match e
      case Begin(_) => if pc.Idle? then Some(BeginStep(s, t)) else None
      case Lock(_) =>
        if pc.WantLock? && (c.locked ==> s.lock.None?)
        then Some(Goto(s, t, Comparing(pc.phase, pc.stale)).(lock := Some(t))) else None
      case Compare(_) =>
        if pc.Comparing?
        then Some(Goto(s, t, if s.shared.creds.access != pc.stale then Unlocking(pc.phase, pc.stale, true)
                             else ReadingRefresh(pc.phase, pc.stale)))
        else None
      case ReadRefresh(_) => if pc.ReadingRefresh? then Some(ReadRefreshStep(s, t)) else None
      case RefreshReply(_, answer) => if pc.Refreshing? then RefreshReplyStep(c, s, t, answer) else None
      case PublishRefresh(_) => if pc.Refreshed? then Some(PublishRefreshStep(s, t)) else None
      case LoginReply(_, answers) => if pc.LoggingIn? then LoginReplyStep(c, s, t, answers) else None
      case PublishLogin(_) => if pc.LoggedIn? then Some(PublishLoginStep(s, t)) else None
      case Unlock(_) => if pc.Unlocking? then Some(UnlockStep(s, t)) else None
      case Snapshot(_) => if pc.Ready? then Some(SnapshotStep(s, t)) else None
      case SyncReply(_, status, decoded) => if pc.Sent? then Some(SyncReplyStep(s, t, status, decoded)) else None
      case ZeroExpiry(_) => if pc.Rejected? then Some(ZeroExpiryStep(s, t)) else None
  }

  /** The state after a whole run; None when some event of it cannot happen. */
  function Exec(c: Config, s: State, events: seq<Event>): Option<State>
  {
    if events == [] then Some(s)
    else
      match Exec(c, s, events[..|events| - 1])
      case None => None
      case Some(mid) => Step(c, mid, events[|events| - 1])
  }

  /** Initialize has logged in, before any call runs; each call of `ids` is still to begin. */
  ghost predicate Start(c: Config, s: State) {
    && s.shared.creds.access != ""
    && s.shared.creds.key.Full()
    && s.shared.origin == Origin(0, 0, 0)
    && s.shared.replaced == []
    && s.shared.minted == {s.shared.creds.access}
    && s.lock == None
    && s.nextLogin == 1
    && s.now >= 0
    && forall t | t in s.calls :: s.calls[t] == Call(Idle, [])
  }

  ghost predicate Reachable(c: Config, s: State) {
    exists s0, events :: Start(c, s0) && Exec(c, s0, events) == Some(s)
  }

  // ---- The invariant ----

  predicate Holding(pc: Pc) {
    pc.Comparing? || pc.ReadingRefresh? || pc.Refreshing? || pc.Refreshed?
    || pc.LoggingIn? || pc.LoggedIn? || pc.Unlocking?
  }

  /** The token a renewal was asked to replace: the one whose sync request was rejected,
      when that is the reason; current or already replaced. */
  ghost predicate StaleInv(c: Config, sh: Shared, phase: Phase, stale: string, sent: seq<string>) {
    && sent == (if phase == Ensuring then [] else [stale])
    && (c.neverReissues ==> stale == sh.creds.access || stale in sh.replaced)
  }

  /** An answered but unpublished token is neither current nor replaced. */
  ghost predicate PendingInv(c: Config, sh: Shared, token: string) {
    && token != ""
    && (c.neverReissues ==> token in sh.minted && token != sh.creds.access && token !in sh.replaced)
  }

  ghost predicate Matched(g: Grant) {
    g.tokenLogin == g.keyLogin && g.key.Full()
  }

  ghost predicate CallInv(c: Config, sh: Shared, call: Call) {
    var sent := call.sent;
    match call.pc
    case Idle => sent == []
    case WantLock(phase, stale) => StaleInv(c, sh, phase, stale, sent)
    case Comparing(phase, stale) => StaleInv(c, sh, phase, stale, sent)
    case ReadingRefresh(phase, stale) => StaleInv(c, sh, phase, stale, sent) && stale == sh.creds.access
    case Refreshing(phase, stale, rt, rtLogin) =>
      StaleInv(c, sh, phase, stale, sent) && stale == sh.creds.access
      && rt == sh.creds.refresh && rt != "" && rtLogin == sh.origin.refresh
    case Refreshed(phase, stale, answer, login) =>
      StaleInv(c, sh, phase, stale, sent) && stale == sh.creds.access
      && sh.creds.refresh != "" && PendingInv(c, sh, answer.access) && login == sh.origin.access
    case LoggingIn(phase, stale) => StaleInv(c, sh, phase, stale, sent) && stale == sh.creds.access
    case LoggedIn(phase, stale, answers, session, login) =>
      StaleInv(c, sh, phase, stale, sent) && stale == sh.creds.access
      && c.login(answers) == Some(session) && session.key.Full() && PendingInv(c, sh, session.answer.access)
    case Unlocking(phase, stale, ok) =>
      StaleInv(c, sh, phase, stale, sent) && (c.neverReissues && ok ==> stale in sh.replaced)
    case Ready(phase, stale) =>
      StaleInv(c, sh, phase, stale, sent) && (c.neverReissues && phase == Retrying ==> stale in sh.replaced)
    case Sent(phase, grant) =>
      && Matched(grant)
      && (c.neverReissues ==> grant.token == sh.creds.access || grant.token in sh.replaced)
      && sent != [] && sent[|sent| - 1] == grant.token
      && |sent| == (if phase == Ensuring then 1 else 2)
      && (c.neverReissues && phase == Retrying ==> sent[0] != sent[1])
    case Rejected => |sent| == 2 && (c.neverReissues ==> sent[0] != sent[1])
    case Done(result) =>
      && |sent| <= 2
      && (c.neverReissues && |sent| == 2 ==> sent[0] != sent[1])
      && (result.Some? ==> Matched(result.value) && sent != [] && sent[|sent| - 1] == result.value.token)
  }

  ghost predicate SharedInv(c: Config, sh: Shared) {
    && sh.creds.access != ""
    && sh.creds.key.Full()
    && sh.origin.access == sh.origin.key
    && (sh.creds.refresh != "" ==> sh.origin.refresh == sh.origin.access)
    && (c.neverReissues ==>
          && sh.creds.access in sh.minted
          && sh.creds.access !in sh.replaced
          && (forall x | x in sh.replaced :: x in sh.minted)
          && (forall i, j | 0 <= i < j < |sh.replaced| :: sh.replaced[i] != sh.replaced[j]))
  }

  ghost predicate LockInv(s: State) {
    && (forall t | t in s.calls && Holding(s.calls[t].pc) :: s.lock == Some(t))
    && (s.lock.Some? ==> s.lock.value in s.calls && Holding(s.calls[s.lock.value].pc))
  }

  ghost predicate Inv(c: Config, s: State) {
    && SharedInv(c, s.shared)
    && LockInv(s)
    && s.now >= 0
    && forall t | t in s.calls :: CallInv(c, s.shared, s.calls[t])
  }

  /** A call that does not hold the lock keeps its invariant when another publishes. */
  lemma PublishKeepsOthers(c: Config, s: State, creds: Creds, origin: Origin, call: Call)
    requires CallInv(c, s.shared, call) && !Holding(call.pc)
    ensures CallInv(c, Publish(s, creds, origin).shared, call)
  {
  }

  /** Minting a token no one knows of keeps every call's invariant. */
  lemma MintKeeps(c: Config, s: State, token: string, call: Call)
    requires CallInv(c, s.shared, call)
    ensures CallInv(c, Mint(s, token).shared, call)
  {
  }

  lemma PublishKeepsShared(c: Config, s: State, creds: Creds, origin: Origin)
    requires SharedInv(c, s.shared) && PendingInv(c, s.shared, creds.access)
    requires creds.key.Full() && origin.access == origin.key
    requires creds.refresh != "" ==> origin.refresh == origin.access
    ensures SharedInv(c, Publish(s, creds, origin).shared)
  {
  }

  /** A step of t that publishes nothing keeps the invariant if t's own part holds. */
  lemma LocalStepKeeps(c: Config, s: State, s': State, t: nat)
    requires Inv(c, s) && t in s.calls && t in s'.calls
    requires s'.calls == s.calls[t := s'.calls[t]] && s'.shared == s.shared && s'.now == s.now
    requires CallInv(c, s.shared, s'.calls[t])
    requires || (s'.lock == s.lock && Holding(s'.calls[t].pc) == Holding(s.calls[t].pc))
             || (s.lock == None && s'.lock == Some(t) && Holding(s'.calls[t].pc))
             || (Holding(s.calls[t].pc) && s'.lock == None && !Holding(s'.calls[t].pc))
    ensures Inv(c, s')
  {
  }

  lemma RefreshReplyKeeps(c: Config, s: State, t: nat, answer: Option<TokenResponse>)
    requires Inv(c, s) && t in s.calls && s.calls[t].pc.Refreshing?
    requires RefreshReplyStep(c, s, t, answer).Some?
    ensures Inv(c, RefreshReplyStep(c, s, t, answer).value)
  {
    if Usable(answer) {
      var m := Mint(s, answer.value.access);
      forall u | u in s.calls
        ensures CallInv(c, m.shared, s.calls[u])
      {
        MintKeeps(c, s, answer.value.access, s.calls[u]);
      }
      LocalStepKeeps(c, m, RefreshReplyStep(c, s, t, answer).value, t);
    } else {
      LocalStepKeeps(c, s, RefreshReplyStep(c, s, t, answer).value, t);
    }
  }

  lemma LoginReplyKeeps(c: Config, s: State, t: nat, answers: LoginAnswers)
    requires Sound(c.login) && Inv(c, s) && t in s.calls && s.calls[t].pc.LoggingIn?
    requires LoginReplyStep(c, s, t, answers).Some?
    ensures Inv(c, LoginReplyStep(c, s, t, answers).value)
  {
    if c.login(answers).Some? {
      var token := c.login(answers).value.answer.access;
      var m := Mint(s, token);
      forall u | u in s.calls
        ensures CallInv(c, m.shared, s.calls[u])
      {
        MintKeeps(c, s, token, s.calls[u]);
      }
      LocalStepKeeps(c, m, LoginReplyStep(c, s, t, answers).value, t);
    } else {
      LocalStepKeeps(c, s, LoginReplyStep(c, s, t, answers).value, t);
    }
  }

  /** Publishing under the lock: no other call is in the middle of a renewal. */
  lemma PublishKeeps(c: Config, s: State, t: nat, creds: Creds, origin: Origin)
    requires Inv(c, s) && t in s.calls && Holding(s.calls[t].pc)
    requires StaleInv(c, s.shared, s.calls[t].pc.phase, s.calls[t].pc.stale, s.calls[t].sent)
    requires s.calls[t].pc.stale == s.shared.creds.access
    requires PendingInv(c, s.shared, creds.access) && creds.key.Full() && origin.access == origin.key
    requires creds.refresh != "" ==> origin.refresh == origin.access
    ensures Inv(c, Goto(Publish(s, creds, origin), t, Unlocking(s.calls[t].pc.phase, s.calls[t].pc.stale, true)))
  {
    PublishKeepsShared(c, s, creds, origin);
    forall u | u in s.calls && u != t
      ensures CallInv(c, Publish(s, creds, origin).shared, s.calls[u])
    {
      PublishKeepsOthers(c, s, creds, origin, s.calls[u]);
    }
  }

  predicate Answering(e: Event) {
    e.RefreshReply? || e.LoginReply? || e.PublishRefresh? || e.PublishLogin?
  }

  lemma AnswerStepKeeps(c: Config, s: State, e: Event)
    requires Sound(c.login) && Inv(c, s) && Step(c, s, e).Some? && Answering(e)
    ensures Inv(c, Step(c, s, e).value)
  {
    var t, pc, o := e.t, s.calls[e.t].pc, s.shared.origin;
    match e
    case RefreshReply(_, answer) => RefreshReplyKeeps(c, s, t, answer);
    case LoginReply(_, answers) => LoginReplyKeeps(c, s, t, answers);
    case PublishRefresh(_) =>
      PublishKeeps(c, s, t, AfterRefresh(s.shared.creds, pc.answer, s.now),
                   Origin(pc.login, if pc.answer.refresh != "" then pc.login else o.refresh, o.key));
    case PublishLogin(_) =>
      PublishKeeps(c, s, t, AfterLogin(pc.session, s.now), Origin(pc.login, pc.login, pc.login));
  }

  lemma ZeroExpiryKeeps(c: Config, s: State, t: nat)
    requires Inv(c, s) && t in s.calls && s.calls[t].pc.Rejected?
    ensures Inv(c, ZeroExpiryStep(s, t))
  {
    var zeroed := s.(shared := s.shared.(creds := s.shared.creds.(expiry := ZERO_TIME)));
    assert forall u | u in s.calls :: CallInv(c, zeroed.shared, s.calls[u]);
    LocalStepKeeps(c, zeroed, ZeroExpiryStep(s, t), t);
  }

  lemma RequestStepKeeps(c: Config, s: State, e: Event)
    requires Inv(c, s) && Step(c, s, e).Some?
    requires e.Begin? || e.Snapshot? || e.SyncReply?
    ensures Inv(c, Step(c, s, e).value)
  {
    LocalStepKeeps(c, s, Step(c, s, e).value, e.t);
  }

  lemma LockStepKeeps(c: Config, s: State, e: Event)
    requires c.locked && Inv(c, s) && Step(c, s, e).Some?
    requires e.Lock? || e.Compare? || e.ReadRefresh? || e.Unlock?
    ensures Inv(c, Step(c, s, e).value)
  {
    LocalStepKeeps(c, s, Step(c, s, e).value, e.t);
  }

  lemma StepKeeps(c: Config, s: State, e: Event)
    requires Sound(c.login) && c.locked && Inv(c, s) && Step(c, s, e).Some?
    ensures Inv(c, Step(c, s, e).value)
  {
    if Answering(e) {
      AnswerStepKeeps(c, s, e);
    } else if e.Lock? || e.Compare? || e.ReadRefresh? || e.Unlock? {
      LockStepKeeps(c, s, e);
    } else if e.ZeroExpiry? {
      ZeroExpiryKeeps(c, s, e.t);
    } else if !e.Tick? {
      RequestStepKeeps(c, s, e);
    }
  }

  lemma {:induction false} ExecKeeps(c: Config, s0: State, events: seq<Event>)
    requires Sound(c.login) && c.locked && Inv(c, s0) && Exec(c, s0, events).Some?
    ensures Inv(c, Exec(c, s0, events).value)
  {
    if events != [] {
      var n := |events| - 1;
      ExecKeeps(c, s0, events[..n]);
      StepKeeps(c, Exec(c, s0, events[..n]).value, events[n]);
    }
  }

  lemma ReachableInv(c: Config, s: State)
    requires Sound(c.login) && c.locked && Reachable(c, s)
    ensures Inv(c, s)
  {
    var s0, events :| Start(c, s0) && Exec(c, s0, events) == Some(s);
    ExecKeeps(c, s0, events);
  }
}
