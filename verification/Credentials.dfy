/** The credentials of the Vaultwarden API client and the operations that renew them.
    Each network exchange is a parameter: the answer the server gives, or None when
    the request, its status or its decoding fails. */
module Credentials {
  import opened Wrappers
  import opened Base64
  import opened CipherStrings
  import opened VaultKeys

  /** Seconds since the Unix epoch. */
  type Time = int

  /** Go's zero time.Time, the start of year 1. */
  const ZERO_TIME: Time := -62135596800

  /** Credentials are renewed this long before they expire. */
  const RENEWAL_MARGIN := 60

  datatype Creds = Creds(access: string, refresh: string, expiry: Time, key: SymmetricKey)

  datatype TokenResponse = TokenResponse(access: string, refresh: string, expiresIn: int, key: string)

  /** What a full login hears: the derived master key (None when prelogin or derivation
      fails), the token endpoint's answer, and the profile key fetched when that answer
      carries no key. */
  datatype LoginAnswers = LoginAnswers(
    masterKey: Option<seq<byte>>,
    token: Option<TokenResponse>,
    profileKey: Option<string>)

  /** The encrypted user key of a login, from the token response or else the profile. */
  function EncryptedKey(a: LoginAnswers): Option<string>
    requires a.token.Some?
  {
    if a.token.value.key != "" then Some(a.token.value.key)
    else if a.profileKey == Some("") then None
    else a.profileKey
  }

  /** What a successful login yields: the token endpoint's answer and the user key. */
  datatype Session = Session(answer: TokenResponse, key: SymmetricKey)

  /** The session a full login opens; None when any of its steps fails. */
  function OpenSession(p: Primitives, a: LoginAnswers): Option<Session>
  {
    if a.masterKey.None? || a.token.None? || a.token.value.access == "" || EncryptedKey(a).None? then None
    else
      match DecryptSymmetricKey(p, EncryptedKey(a).value, a.masterKey.value)
      case Err(_) => None
      case Ok(key) => Some(Session(a.token.value, key))
  }

  type Login = LoginAnswers -> Option<Session>

  /** The login procedure of the program. */
  function LoginWith(p: Primitives): Login
  {
    a => OpenSession(p, a)
  }

  /** A login procedure that only ever opens sessions with a token and a full key, and
      none when every request fails. */
  ghost predicate Sound(login: Login) {
    && (forall a :: login(a).Some? ==> login(a).value.answer.access != "" && login(a).value.key.Full())
    && login(LoginAnswers(None, None, None)) == None
  }

  lemma LoginWithIsSound(p: Primitives)
    requires p.Lawful()
    ensures Sound(LoginWith(p))
  {
    forall a | LoginWith(p)(a).Some?
      ensures LoginWith(p)(a).value.answer.access != "" && LoginWith(p)(a).value.key.Full()
    {
      StretchedPathAuthenticates(p, EncryptedKey(a).value, a.masterKey.value);
    }
  }

  /** The last step of a login decides about it. */
  lemma SessionOpens(p: Primitives, a: LoginAnswers, encryptedKey: string)
    requires p.Lawful()
    requires a.masterKey.Some? && a.token.Some? && a.token.value.access != "" && EncryptedKey(a) == Some(encryptedKey)
    ensures var key := DecryptSymmetricKey(p, encryptedKey, a.masterKey.value);
            && LoginWith(p)(a) == (if key.Ok? then Some(Session(a.token.value, key.value)) else None)
            && (key.Ok? ==> key.value.Full())
  {
    LoginWithIsSound(p);
  }

  function AfterLogin(s: Session, now: Time): Creds
  {
    Creds(s.answer.access, s.answer.refresh, now + s.answer.expiresIn, s.key)
  }

  /** A refresh answer is usable when it carries an access token. */
  predicate Usable(answer: Option<TokenResponse>) {
    answer.Some? && answer.value.access != ""
  }

  function AfterRefresh(c: Creds, t: TokenResponse, now: Time): Creds
  {
    Creds(t.access, if t.refresh != "" then t.refresh else c.refresh, now + t.expiresIn, c.key)
  }

  predicate Expiring(expiry: Time, now: Time) {
    now > expiry - RENEWAL_MARGIN
  }

  /** What one whole renewal leaves behind: whether it succeeded and the credentials. */
  function AfterRenewal(login: Login, c: Creds, stale: string,
                        refresh: Option<TokenResponse>, answers: LoginAnswers, now: Time): (bool, Creds)
  {
    if c.access != stale then (true, c)
    else if c.refresh != "" && Usable(refresh) then (true, AfterRefresh(c, refresh.value, now))
    else
      match login(answers)
      case Some(session) => (true, AfterLogin(session, now))
      case None => (false, c)
  }

  /** A renewal attempts a full login: the stale token is current, and there is nothing to
      refresh with or the refresh brings no token. */
  predicate NeedsLogin(c: Creds, stale: string, refresh: Option<TokenResponse>) {
    c.access == stale && (c.refresh == "" || !Usable(refresh))
  }

  /** An HTTP answer: none, or a status with the decoded body if it decodes. */
  datatype Reply<+R> = NoReply | Reply(status: int, body: Option<R>)

  /** Everything one fetch of the vault can hear, in the order it can ask. */
  datatype Exchange<+R> = Exchange(
    clock: Time,
    refresh: Option<TokenResponse>, answers: LoginAnswers, renewed: Time,
    first: Reply<R>,
    retryRefresh: Option<TokenResponse>, retryAnswers: LoginAnswers, retryRenewed: Time,
    second: Reply<R>)

  /** The body of a 200 answer, with the key to decrypt it. */
  function Accepted<R>(reply: Reply<R>, key: SymmetricKey): Option<(R, SymmetricKey)>
  {
    if reply.Reply? && reply.status == 200 && reply.body.Some? then Some((reply.body.value, key)) else None
  }

  predicate Unauthorized<R>(reply: Reply<R>) {
    reply.Reply? && reply.status == 401
  }

  function AfterEnsure<R>(login: Login, c: Creds, x: Exchange<R>): (bool, Creds)
  {
    if Expiring(c.expiry, x.clock) then AfterRenewal(login, c, c.access, x.refresh, x.answers, x.renewed) else (true, c)
  }

  /** What a fetch leaves behind: the credentials, and the response with its key. */
  function AfterFetch<R>(login: Login, c: Creds, x: Exchange<R>): (Creds, Option<(R, SymmetricKey)>)
  {
    var (ok, c1) := AfterEnsure(login, c, x);
    if !ok then (c1, None)
    else if !Unauthorized(x.first) then (c1, Accepted(x.first, c1.key))
    else
      var (ok2, c2) := AfterRenewal(login, c1, c1.access, x.retryRefresh, x.retryAnswers, x.retryRenewed);
      if !ok2 then (c2, None)
      else if Unauthorized(x.second) then (c2.(expiry := ZERO_TIME), None)
      else (c2, Accepted(x.second, c2.key))
  }

  /** How many full logins a fetch attempts. */
  function LoginsOf<R>(login: Login, c: Creds, x: Exchange<R>): nat
  {
    var (ok, c1) := AfterEnsure(login, c, x);
    (if Expiring(c.expiry, x.clock) && NeedsLogin(c, c.access, x.refresh) then 1 else 0)
    + (if ok && Unauthorized(x.first) && NeedsLogin(c1, c1.access, x.retryRefresh) then 1 else 0)
  }

  /** A renewal that fails changes nothing; one that succeeds leaves usable credentials
      with a full key; if they changed at all, they replaced the stale token, and a new
      key comes with a new login. */
  lemma RenewalIsAllOrNothing(login: Login, c: Creds, stale: string,
                              refresh: Option<TokenResponse>, answers: LoginAnswers, now: Time)
    requires Sound(login) && c.access != "" && c.key.Full()
    ensures var (ok, c') := AfterRenewal(login, c, stale, refresh, answers, now);
            && c'.access != ""
            && c'.key.Full()
            && (!ok ==> c' == c)
            && (c' != c ==> ok && c.access == stale)
            && (c'.key != c.key ==> login(answers).Some? && c' == AfterLogin(login(answers).value, now))
  {
  }

  /** A fetch yields a body with a key exactly if the renewals it enters succeed, the last
      reply it hears, which is the first one unless that was a 401, is a 200 with that body,
      and the key is the one current afterwards. */
  lemma FetchYieldsIff<R>(login: Login, c: Creds, x: Exchange<R>, body: R, key: SymmetricKey)
    ensures var renewed := if x.clock > c.expiry - 60
                           then AfterRenewal(login, c, c.access, x.refresh, x.answers, x.renewed) else (true, c);
            var again := AfterRenewal(login, renewed.1, renewed.1.access, x.retryRefresh, x.retryAnswers, x.retryRenewed);
            AfterFetch(login, c, x).1 == Some((body, key))
            <==> && renewed.0
                 && (if x.first.Reply? && x.first.status == 401 then again.0 && x.second == Reply(200, Some(body))
                     else x.first == Reply(200, Some(body)))
                 && key == AfterFetch(login, c, x).0.key
  {
  }

  /** The credentials a fetch leaves: those of the renewals it enters, with the expiry
      zeroed if the retry was rejected, too. */
  lemma FetchLeaves<R>(login: Login, c: Creds, x: Exchange<R>)
    ensures var renewed := if x.clock > c.expiry - 60
                           then AfterRenewal(login, c, c.access, x.refresh, x.answers, x.renewed) else (true, c);
            var again := AfterRenewal(login, renewed.1, renewed.1.access, x.retryRefresh, x.retryAnswers, x.retryRenewed);
            AfterFetch(login, c, x).0
            == if !renewed.0 || x.first.NoReply? || x.first.status != 401 then renewed.1
               else if again.0 && x.second.Reply? && x.second.status == 401 then again.1.(expiry := ZERO_TIME)
               else again.1
  {
  }

  /** A fetched response always comes with the key that is current, a full one; a fetch
      never loses the access token; and a second rejection leaves the expiry zeroed. */
  lemma FetchKeepsCredentials<R>(login: Login, c: Creds, x: Exchange<R>)
    requires Sound(login) && c.access != "" && c.key.Full()
    ensures var (c', fetched) := AfterFetch(login, c, x);
            && c'.access != "" && c'.key.Full()
            && (fetched.Some? ==> fetched.value.1 == c'.key)
            && (Unauthorized(x.first) && Unauthorized(x.second) ==> fetched == None)
  {
    var (ok, c1) := AfterEnsure(login, c, x);
    RenewalIsAllOrNothing(login, c, c.access, x.refresh, x.answers, x.renewed);
    RenewalIsAllOrNothing(login, c1, c1.access, x.retryRefresh, x.retryAnswers, x.retryRenewed);
  }

  class APIClient {
    var accessToken: string
    var refreshToken: string
    var tokenExpiry: Time
    var symKey: SymmetricKey

    /** How many full logins were attempted so far. */
    ghost var logins: nat

    ghost function Current(): Creds
      reads this
    {
      Creds(accessToken, refreshToken, tokenExpiry, symKey)
    }

    /** A login has succeeded: there is an access token and a full key. */
    ghost predicate LoggedIn()
      reads this
    {
      accessToken != "" && symKey.Full()
    }

    constructor ()
      ensures Current() == Creds("", "", ZERO_TIME, SymmetricKey([], [])) && logins == 0
    {
      accessToken, refreshToken, tokenExpiry, symKey, logins := "", "", ZERO_TIME, SymmetricKey([], []), 0;
    }

    /** The full login. A failure at any step leaves all four fields alone. */
    method Authenticate(p: Primitives, a: LoginAnswers, now: Time) returns (ok: bool)
      requires p.Lawful()
      modifies this
      ensures ok <==> LoginWith(p)(a).Some?
      ensures ok ==>
                && a.masterKey.Some? && a.token.Some?
                && accessToken == a.token.value.access && refreshToken == a.token.value.refresh
                && tokenExpiry == now + a.token.value.expiresIn
                && (a.token.value.key == "" ==> a.profileKey.Some?)
                && Ok(symKey) == DecryptSymmetricKey(p, if a.token.value.key != "" then a.token.value.key
                                                        else a.profileKey.value, a.masterKey.value)
      ensures Current() == if ok then AfterLogin(LoginWith(p)(a).value, now) else old(Current())
      ensures ok ==> LoggedIn()
      ensures logins == old(logins) + 1
    {
      logins := logins + 1;
      if a.masterKey.None? || a.token.None? || a.token.value.access == "" {
        return false;
      }
      var tokenResp := a.token.value;
      var encryptedKey := tokenResp.key;
      if encryptedKey == "" {
        if a.profileKey.None? || a.profileKey.value == "" {
          return false;
        }
        encryptedKey := a.profileKey.value;
      }
      SessionOpens(p, a, encryptedKey);
      var key := DecryptSymmetricKey(p, encryptedKey, a.masterKey.value);
      if key.Err? {
        return false;
      }
      accessToken := tokenResp.access;
      refreshToken := tokenResp.refresh;
      tokenExpiry := now + tokenResp.expiresIn;
      symKey := key.value;
      return true;
    }

    /** The refresh grant. A failure leaves all four fields alone; success keeps the key,
        and keeps the refresh token when the answer brings no new one. */
    method RefreshAccessToken(answer: Option<TokenResponse>, now: Time) returns (ok: bool)
      modifies this
      ensures ok <==> old(refreshToken) != "" && answer.Some? && answer.value.access != ""
      ensures ok ==> accessToken == answer.value.access && symKey == old(symKey)
                     && refreshToken == (if answer.value.refresh != "" then answer.value.refresh else old(refreshToken))
                     && tokenExpiry == now + answer.value.expiresIn
      ensures Current() == if ok then AfterRefresh(old(Current()), answer.value, now) else old(Current())
      ensures logins == old(logins)
    {
      var rt := refreshToken;
      if rt == "" || answer.None? {
        return false;
      }
      var tokenResp := answer.value;
      if tokenResp.access == "" {
        return false;
      }
      accessToken := tokenResp.access;
      if tokenResp.refresh != "" {
        refreshToken := tokenResp.refresh;
      }
      tokenExpiry := now + tokenResp.expiresIn;
      return true;
    }

    /** Refresh grant first, full login as fallback, nothing when the stale token has
        already been replaced. */
    method RefreshOrReauthenticate(p: Primitives, stale: string, refresh: Option<TokenResponse>,
                                   login: LoginAnswers, now: Time) returns (ok: bool)
      requires p.Lawful()
      modifies this
      ensures (ok, Current()) == AfterRenewal(LoginWith(p), old(Current()), stale, refresh, login, now)
      ensures old(accessToken) != stale ==> ok && Current() == old(Current())
      ensures old(accessToken) == stale && old(refreshToken) != "" && refresh.Some? && refresh.value.access != "" ==>
                ok && accessToken == refresh.value.access && symKey == old(symKey)
      ensures old(accessToken) == stale && (old(refreshToken) == "" || refresh.None? || refresh.value.access == "") ==>
                (ok <==> LoginWith(p)(login).Some?)
                && (ok ==> login.token.Some? && accessToken == login.token.value.access)
      ensures logins == old(logins) + if NeedsLogin(old(Current()), stale, refresh) then 1 else 0
    {
      var current := accessToken;
      if current != stale {
        return true;
      }
      var refreshed := RefreshAccessToken(refresh, now);
      if refreshed {
        return true;
      }
      ok := Authenticate(p, login, now);
    }

    method EnsureValidToken(p: Primitives, clock: Time, refresh: Option<TokenResponse>,
                            login: LoginAnswers, now: Time) returns (ok: bool)
      requires p.Lawful()
      modifies this
      ensures (ok, Current()) == if Expiring(old(tokenExpiry), clock)
                               then AfterRenewal(LoginWith(p), old(Current()), old(accessToken), refresh, login, now)
                               else (true, old(Current()))
      ensures clock <= old(tokenExpiry) - 60 ==> ok && Current() == old(Current())
      ensures logins > old(logins) <==>
                clock > old(tokenExpiry) - 60 && (old(refreshToken) == "" || refresh.None? || refresh.value.access == "")
      ensures old(logins) <= logins <= old(logins) + 1
    {
      var expiry, token := tokenExpiry, accessToken;
      if Expiring(expiry, clock) {
        ok := RefreshOrReauthenticate(p, token, refresh, login, now);
        return;
      }
      return true;
    }

    /** The authenticated part of Sync: renew if the token is about to expire, ask for the
        vault, and on a rejection renew once and ask again. */
    method Fetch<R>(p: Primitives, x: Exchange<R>) returns (fetched: Option<(R, SymmetricKey)>)
      requires p.Lawful()
      modifies this
      ensures (Current(), fetched) == AfterFetch(LoginWith(p), old(Current()), x)
      ensures logins == old(logins) + LoginsOf(LoginWith(p), old(Current()), x)
    {
      var ok := EnsureValidToken(p, x.clock, x.refresh, x.answers, x.renewed);
      if !ok {
        return None;
      }
      var token, key := accessToken, symKey;
      var resp := x.first;
      var retriedAfterRenewal := false;
      if Unauthorized(resp) {
        ok := RefreshOrReauthenticate(p, token, x.retryRefresh, x.retryAnswers, x.retryRenewed);
        if !ok {
          return None;
        }
        token, key := accessToken, symKey;
        retriedAfterRenewal := true;
        resp := x.second;
      }
      if resp.NoReply? {
        return None;
      }
      if resp.status != 200 {
        if retriedAfterRenewal && resp.status == 401 {
          tokenExpiry := ZERO_TIME;
        }
        return None;
      }
      if resp.body.None? {
        return None;
      }
      return Some((resp.body.value, key));
    }
  }

  // ---- What a zeroed expiry forces ----

  /** Both requests of the fetch were rejected. */
  predicate TwiceRejected<R>(x: Exchange<R>) {
    Unauthorized(x.first) && Unauthorized(x.second)
  }

  /** The refresh grant answers with a token whenever the fetch asks for one. */
  predicate Refreshing<R>(x: Exchange<R>) {
    Usable(x.refresh) && Usable(x.retryRefresh)
  }

  /** With a zeroed expiry the next fetch renews before it asks for anything; that renewal
      is a login exactly if there is no refresh token or the refresh brings no token, */
  lemma ForcedRenewalIff<R>(login: Login, c: Creds, x: Exchange<R>)
    requires c.expiry == ZERO_TIME && x.clock >= 0
    ensures AfterEnsure(login, c, x) == AfterRenewal(login, c, c.access, x.refresh, x.answers, x.renewed)
    ensures NeedsLogin(c, c.access, x.refresh) <==> c.refresh == "" || !Usable(x.refresh)
    ensures NeedsLogin(c, c.access, x.refresh) ==>
              LoginsOf(login, c, x) > 0 && AfterEnsure(login, c, x).0 == login(x.answers).Some?
    ensures !NeedsLogin(c, c.access, x.refresh) ==>
              AfterEnsure(login, c, x) == (true, AfterRefresh(c, x.refresh.value, x.renewed))
  {
  }

  /** so a fetch that is rejected twice passes without a login exactly if both of its
      renewals can refresh. */
  lemma RejectedWithoutLoginIff<R>(login: Login, c: Creds, x: Exchange<R>)
    requires c.expiry == ZERO_TIME && x.clock >= 0 && TwiceRejected(x)
    ensures LoginsOf(login, c, x) == 0 <==> c.refresh != "" && Refreshing(x)
    ensures LoginsOf(login, c, x) == 0 ==> AfterFetch(login, c, x).0.expiry == ZERO_TIME
  {
  }

  /** Credentials after a run of fetches, and the logins attempted in it. */
  function AfterFetches<R>(login: Login, c: Creds, xs: seq<Exchange<R>>): Creds
  {
    if xs == [] then c else AfterFetch(login, AfterFetches(login, c, xs[..|xs| - 1]), xs[|xs| - 1]).0
  }

  function LoginsIn<R>(login: Login, c: Creds, xs: seq<Exchange<R>>): nat
  {
    if xs == [] then 0
    else
      LoginsIn(login, c, xs[..|xs| - 1])
      + LoginsOf(login, AfterFetches(login, c, xs[..|xs| - 1]), xs[|xs| - 1])
  }

  /** While the refresh grant keeps answering, any number of fetches can be rejected twice
      without one login. */
  lemma {:induction false} RefreshingNeverLogsIn<R>(login: Login, c: Creds, xs: seq<Exchange<R>>)
    requires c.refresh != ""
    requires forall i | 0 <= i < |xs| :: TwiceRejected(xs[i]) && Refreshing(xs[i])
    ensures LoginsIn(login, c, xs) == 0 && AfterFetches(login, c, xs).refresh != ""
    ensures xs != [] ==> AfterFetches(login, c, xs).expiry == ZERO_TIME
  {
    if xs != [] {
      RefreshingNeverLogsIn(login, c, xs[..|xs| - 1]);
    }
  }

  /** For one: a rejected fetch zeroes the expiry, and the next one is served after a
      refresh alone, still under the key of the old login. */
  lemma ForcedRenewalCanRefresh(login: Login, key: SymmetricKey)
    ensures exists c: Creds, x: Exchange<string>, y: Exchange<string> ::
              var c1 := AfterFetch(login, c, x).0;
              && TwiceRejected(x)
              && c1.expiry == ZERO_TIME && y.clock >= 0
              && LoginsOf(login, c1, y) == 0
              && AfterFetch(login, c1, y).1 == Some(("vault", key))
  {
    var none, again := LoginAnswers(None, None, None), Some(TokenResponse("b", "", 3600, ""));
    var c := Creds("a", "r", 7200, key);
    var x: Exchange<string> := Exchange(0, None, none, 0, Reply(401, None), again, none, 0, Reply(401, None));
    var y: Exchange<string> := Exchange(0, again, none, 0, Reply(200, Some("vault")), None, none, 0, NoReply);
    var c1 := AfterFetch(login, c, x).0;
    assert c1 == Creds("b", "r", ZERO_TIME, key);
    assert TwiceRejected(x) && AfterFetch(login, c1, y).1 == Some(("vault", key));
  }
}
