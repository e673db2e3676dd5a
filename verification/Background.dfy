/** The background loop: one sync cycle per tick, and when its log escalates. */
module Background {
  import opened Wrappers
  import opened Credentials
  import opened VaultItems
  import opened Reconcile
  import opened VaultClient

  /** How a tick went; a success counts the entries still served from the previous cache. */
  datatype Tick = Failed | Succeeded(retained: nat)

  predicate IsPartial(t: Tick) {
    t.Succeeded? && t.retained > 0
  }

  predicate IsClean(t: Tick) {
    t.Succeeded? && t.retained == 0
  }

  datatype Entry =
    | Quiet
    | WarnFailed
    | ErrorStale(failures: nat)
    | ErrorPartial(retained: nat, syncs: nat)

  const THRESHOLD := 3

  predicate ShouldEscalate(n: nat) {
    n >= THRESHOLD
  }

  /** The length of the run of failures a history ends with. */
  function TrailingFailures(ticks: seq<Tick>): (n: nat)
    ensures n <= |ticks|
  {
    if ticks == [] || !ticks[|ticks| - 1].Failed? then 0 else 1 + TrailingFailures(ticks[..|ticks| - 1])
  }

  /** How many partial successes there were since the last clean one; failed ticks in
      between neither count nor start over. */
  function PartialsSinceClean(ticks: seq<Tick>): nat
  {
    if ticks == [] || IsClean(ticks[|ticks| - 1]) then 0
    else PartialsSinceClean(ticks[..|ticks| - 1]) + if IsPartial(ticks[|ticks| - 1]) then 1 else 0
  }

  /** What the last tick of a history logs. */
  function LogOf(ticks: seq<Tick>): Entry
    requires ticks != []
  {
    match ticks[|ticks| - 1]
    case Failed =>
      if ShouldEscalate(TrailingFailures(ticks)) then ErrorStale(TrailingFailures(ticks)) else WarnFailed
    case Succeeded(n) =>
      if n > 0 && ShouldEscalate(PartialsSinceClean(ticks)) then ErrorPartial(n, PartialsSinceClean(ticks)) else Quiet
  }

  /** How the last cycle of a client went. */
  ghost function TickOf(d: Decryption, history: seq<Option<Payload>>): Tick
  {
    if history == [] then Failed
    else
      match history[|history| - 1]
      case None => Failed
      case Some(pl) =>
        if OutcomeOf(d, Some(pl)).Synced? then Succeeded(|Undecrypted(d, pl, CacheAfter(d, history))|) else Failed
  }

  ghost function Ticker(d: Decryption): seq<Option<Payload>> -> Tick
  {
    history => TickOf(d, history)
  }

  /** The cycle of one tick: how it went, and how many entries it retained. */
  method Cycle(client: Client, api: APIClient, x: Exchange<SyncResponse>) returns (ok: bool, retained: nat)
    requires client.Valid()
    modifies client, api
    ensures client.Valid() && old(client.history) <= client.history && |client.history| == |old(client.history)| + 1
    ensures Ticker(DecryptionWith(client.p))(client.history) == if ok then Succeeded(retained) else Failed
  {
    ok := client.SyncVault(api, x);
    retained := client.retained;
  }

  /** Ticks are those of the history from its n-th cycle on. */
  ghost predicate TicksOf(tick: seq<Option<Payload>> -> Tick, history: seq<Option<Payload>>, n: nat, ticks: seq<Tick>) {
    |history| == n + |ticks| && forall k | 0 <= k < |ticks| :: ticks[k] == tick(history[..n + k + 1])
  }

  lemma SamePrefix(before: seq<Option<Payload>>, after: seq<Option<Payload>>, m: nat)
    requires before <= after && m <= |before|
    ensures before[..m] == after[..m]
    ensures m == |after| ==> after[..m] == after
  {
  }

  lemma TicksGrow(tick: seq<Option<Payload>> -> Tick, before: seq<Option<Payload>>, after: seq<Option<Payload>>, n: nat,
                  ticks: seq<Tick>)
    requires TicksOf(tick, before, n, ticks) && before <= after && |after| == |before| + 1
    ensures TicksOf(tick, after, n, ticks + [tick(after)])
  {
    SamePrefix(after, after, |after|);
    forall k | 0 <= k < |ticks|
      ensures ticks[k] == tick(after[..n + k + 1])
    {
      SamePrefix(before, after, n + k + 1);
    }
  }

  /** Each tick logged what the ticks up to it call for. */
  ghost predicate LogsOf(log: seq<Entry>, ticks: seq<Tick>) {
    |log| == |ticks| && forall k | 0 <= k < |ticks| :: log[k] == LogOf(ticks[..k + 1])
  }

  lemma OneMoreTick(ticks: seq<Tick>, t: Tick)
    ensures TrailingFailures(ticks + [t]) == if t.Failed? then TrailingFailures(ticks) + 1 else 0
    ensures PartialsSinceClean(ticks + [t])
         == if IsClean(t) then 0 else PartialsSinceClean(ticks) + if IsPartial(t) then 1 else 0
  {
    assert (ticks + [t])[..|ticks|] == ticks;
  }

  lemma LogGrows(log: seq<Entry>, ticks: seq<Tick>, entry: Entry, t: Tick)
    requires LogsOf(log, ticks) && entry == LogOf(ticks + [t])
    ensures LogsOf(log + [entry], ticks + [t])
  {
    forall k | 0 <= k <= |ticks|
      ensures (log + [entry])[k] == LogOf((ticks + [t])[..k + 1])
    {
      if k < |ticks| {
        assert (ticks + [t])[..k + 1] == ticks[..k + 1];
      } else {
        assert (ticks + [t])[..k + 1] == ticks + [t];
      }
    }
  }

  /** The loop, until it is stopped after the given ticks. Each tick is one more cycle of
      the client, and logs what the ticks so far call for. */
  method BackgroundSync(client: Client, api: APIClient, xs: seq<Exchange<SyncResponse>>)
    returns (log: seq<Entry>, ghost ticks: seq<Tick>)
    requires client.Valid()
    modifies client, api
    ensures client.Valid() && |log| == |xs| && old(client.history) <= client.history
    ensures TicksOf(Ticker(DecryptionWith(client.p)), client.history, |old(client.history)|, ticks)
    ensures LogsOf(log, ticks)
  {
    log, ticks := [], [];
    ghost var tickOf, n := Ticker(DecryptionWith(client.p)), |client.history|;
    var consecutiveFailures, consecutivePartial := 0, 0;
    for i := 0 to |xs|
      invariant client.Valid() && |log| == i && old(client.history) <= client.history
      invariant TicksOf(tickOf, client.history, n, ticks)
      invariant LogsOf(log, ticks)
      invariant consecutiveFailures == TrailingFailures(ticks)
      invariant consecutivePartial == PartialsSinceClean(ticks)
    {
      ghost var before := client.history;
      var ok, retained := Cycle(client, api, xs[i]);
      ghost var tick := if ok then Succeeded(retained) else Failed;
      TicksGrow(tickOf, before, client.history, n, ticks);
      OneMoreTick(ticks, tick);
      var entry := Quiet;
      if !ok {
        consecutiveFailures := consecutiveFailures + 1;
        entry := if ShouldEscalate(consecutiveFailures) then ErrorStale(consecutiveFailures) else WarnFailed;
      } else {
        consecutiveFailures := 0;
        if retained > 0 {
          consecutivePartial := consecutivePartial + 1;
          if ShouldEscalate(consecutivePartial) {
            entry := ErrorPartial(retained, consecutivePartial);
          }
        } else {
          consecutivePartial := 0;
        }
      }
      LogGrows(log, ticks, entry, tick);
      log, ticks := log + [entry], ticks + [tick];
    }
  }

  // ---- When the log escalates ----

  /** The counter of failures is the longest run of failures at the end. */
  lemma {:induction false} TrailingFailuresAre(ticks: seq<Tick>)
    ensures var n := TrailingFailures(ticks);
            && (forall k | |ticks| - n <= k < |ticks| :: ticks[k].Failed?)
            && (n < |ticks| ==> !ticks[|ticks| - n - 1].Failed?)
  {
    if ticks != [] && ticks[|ticks| - 1].Failed? {
      TrailingFailuresAre(ticks[..|ticks| - 1]);
      assert forall k | 0 <= k < |ticks| - 1 :: ticks[..|ticks| - 1][k] == ticks[k];
    }
  }

  /** A stale cache is reported as an error exactly when the last three ticks failed. */
  lemma StaleErrorIff(ticks: seq<Tick>)
    requires ticks != []
    ensures LogOf(ticks).ErrorStale? <==> |ticks| >= 3 && forall k | |ticks| - 3 <= k < |ticks| :: ticks[k].Failed?
    ensures LogOf(ticks).WarnFailed? <==> ticks[|ticks| - 1].Failed? && !LogOf(ticks).ErrorStale?
    ensures LogOf(ticks).ErrorStale? ==>
              var n := LogOf(ticks).failures;
              && n <= |ticks| && (forall k | |ticks| - n <= k < |ticks| :: ticks[k].Failed?)
              && (n < |ticks| ==> !ticks[|ticks| - n - 1].Failed?)
  {
    TrailingFailuresAre(ticks);
    var n := TrailingFailures(ticks);
    if n < 3 && |ticks| >= 3 {
      assert !ticks[|ticks| - n - 1].Failed?;
    }
  }

  /** The positions of the partial successes since the last clean one. */
  ghost function RecentPartials(ticks: seq<Tick>): set<int>
  {
    set k | 0 <= k < |ticks| && IsPartial(ticks[k]) && forall j | k < j < |ticks| :: !IsClean(ticks[j])
  }

  lemma RecentPartialsGrow(ticks: seq<Tick>)
    requires ticks != []
    ensures var n := |ticks| - 1;
            RecentPartials(ticks)
            == if IsClean(ticks[n]) then {} else RecentPartials(ticks[..n]) + if IsPartial(ticks[n]) then {n} else {}
  {
    var n := |ticks| - 1;
    var front := ticks[..n];
    assert forall k | 0 <= k < n :: front[k] == ticks[k];
    if !IsClean(ticks[n]) {
      assert forall k | 0 <= k < n :: k in RecentPartials(ticks) <==> k in RecentPartials(front);
    }
  }

  lemma {:induction false} PartialsAreRecent(ticks: seq<Tick>)
    ensures PartialsSinceClean(ticks) == |RecentPartials(ticks)|
  {
    if ticks == [] {
      assert RecentPartials(ticks) == {};
    } else {
      PartialsAreRecent(ticks[..|ticks| - 1]);
      RecentPartialsGrow(ticks);
    }
  }

  /** A half-readable vault is reported as an error exactly at a partial success that is at
      least the third since the last clean one, whatever failed in between. */
  lemma PartialErrorIff(ticks: seq<Tick>)
    requires ticks != []
    ensures var last := ticks[|ticks| - 1];
            && (LogOf(ticks).ErrorPartial? <==> last.Succeeded? && last.retained > 0 && |RecentPartials(ticks)| >= 3)
            && (LogOf(ticks).ErrorPartial? ==> LogOf(ticks) == ErrorPartial(last.retained, |RecentPartials(ticks)|))
  {
    PartialsAreRecent(ticks);
  }

  /** The length of the run of partial successes a history ends with. */
  function TrailingPartials(ticks: seq<Tick>): nat
  {
    if ticks == [] || !IsPartial(ticks[|ticks| - 1]) then 0 else 1 + TrailingPartials(ticks[..|ticks| - 1])
  }

  /** No tick has failed after a partial success that still counts. */
  ghost predicate NoneFailedSince(ticks: seq<Tick>) {
    forall i, j | i in RecentPartials(ticks) && i < j < |ticks| :: !ticks[j].Failed?
  }

  lemma NoneFailedStep(ticks: seq<Tick>)
    requires ticks != [] && IsPartial(ticks[|ticks| - 1])
    ensures NoneFailedSince(ticks) <==> NoneFailedSince(ticks[..|ticks| - 1])
  {
    var n := |ticks| - 1;
    var front := ticks[..n];
    RecentPartialsGrow(ticks);
    assert forall k | 0 <= k < n :: front[k] == ticks[k];
  }

  /** The number an error about a half-readable vault reports is a number of syncs in a row
      exactly if none failed in between. */
  lemma {:induction false} InARowIff(ticks: seq<Tick>)
    ensures PartialsSinceClean(ticks) == TrailingPartials(ticks) <==> NoneFailedSince(ticks)
  {
    if ticks != [] {
      var n := |ticks| - 1;
      var front := ticks[..n];
      RecentPartialsGrow(ticks);
      assert forall k | 0 <= k < n :: front[k] == ticks[k];
      if IsPartial(ticks[n]) {
        InARowIff(front);
        NoneFailedStep(ticks);
      } else if ticks[n].Failed? {
        PartialsAreRecent(ticks);
        if i :| i in RecentPartials(ticks) {
          assert i < n && ticks[n].Failed?;
        }
      }
    }
  }

  /** It need not be: three partial successes with a failure between any two. */
  lemma NotInARow()
    ensures var p := Succeeded(1);
            LogOf([p, Failed, p, Failed, p]) == ErrorPartial(1, 3) && TrailingPartials([p, Failed, p, Failed, p]) == 1
  {
    var p := Succeeded(1);
    var t1 := [] + [p];
    var t2 := t1 + [Failed];
    var t3 := t2 + [p];
    var t4 := t3 + [Failed];
    OneMoreTick([], p);
    OneMoreTick(t1, Failed);
    OneMoreTick(t2, p);
    OneMoreTick(t3, Failed);
    OneMoreTick(t4, p);
    assert t4 + [p] == [p, Failed, p, Failed, p];
    assert (t4 + [p])[..4] == t4 && TrailingPartials(t4) == 0;
  }
}
