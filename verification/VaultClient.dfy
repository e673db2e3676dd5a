/** The caching client: sync cycles that replace the cache, and the lookups it answers. */
module VaultClient {
  import opened Wrappers
  import opened GoStrings
  import opened Sorting
  import opened CipherStrings
  import opened Credentials
  import opened VaultItems
  import opened Reconcile
  import opened Names
  import opened Lookup

  /** What APIClient.Sync returns: an error without failures, the error raised when nothing
      decrypted, or a decrypted vault. */
  datatype SyncOutcome =
    | Unreachable
    | NothingDecrypted(failed: seq<FailedCipher>)
    | Synced(items: seq<Item>, names: NameMaps, failed: seq<FailedCipher>)

  function OutcomeOf(d: Decryption, x: Option<Payload>): SyncOutcome
  {
    match x
    case None => Unreachable
    case Some(pl) =>
      var items, failed := ItemsOf(d, pl, pl.response.ciphers), FailuresOf(d, pl, pl.response.ciphers);
      if items == [] && failed != [] then NothingDecrypted(failed) else Synced(items, NamesOf(d, pl), failed)
  }

  function PayloadOf(fetched: Option<(SyncResponse, SymmetricKey)>): Option<Payload>
  {
    match fetched
    case None => None
    case Some((response, key)) => Some(Payload(response, key))
  }

  /** The payload a sync cycle applies, given the credentials it starts with. */
  function FetchedPayload(p: Primitives, c: Creds, x: Exchange<SyncResponse>): Option<Payload>
  {
    PayloadOf(AfterFetch(LoginWith(p), c, x).1)
  }

  method DecryptPayload(d: Decryption, pl: Payload) returns (outcome: SyncOutcome)
    ensures outcome == OutcomeOf(d, Some(pl))
  {
    var orgKeys := DecryptOrgKeys(d, pl.response, pl.key);
    var items, failed := DecryptAll(d, pl, orgKeys);
    if |items| == 0 && |failed| > 0 {
      return NothingDecrypted(failed);
    }
    var names := BuildSyncNameMaps(d, pl, orgKeys);
    return Synced(items, names, failed);
  }

  /** APIClient.Sync: fetch, then decrypt. */
  method Sync(api: APIClient, p: Primitives, x: Exchange<SyncResponse>) returns (outcome: SyncOutcome)
    requires p.Lawful()
    modifies api
    ensures api.Current() == AfterFetch(LoginWith(p), old(api.Current()), x).0
    ensures outcome == OutcomeOf(DecryptionWith(p), FetchedPayload(p, old(api.Current()), x))
  {
    var fetched := api.Fetch(p, x);
    if fetched.None? {
      return Unreachable;
    }
    outcome := DecryptPayload(DecryptionWith(p), Payload(fetched.value.0, fetched.value.1));
  }

  lemma RetainAt(newItems: Cache, prior: Cache, failed: seq<FailedCipher>, id: string)
    ensures id in Retain(newItems, prior, failed) <==>
              id in newItems || (id in prior && FirstFailure(failed, id).Some?)
    ensures id in Retain(newItems, prior, failed) ==>
              Retain(newItems, prior, failed)[id]
              == if id in newItems then newItems[id] else prior[id].(place := FirstFailure(failed, id).value.place)
  {
  }

  lemma SameMap(a: Cache, b: Cache)
    requires forall id :: id in a <==> id in b
    requires forall id | id in a :: a[id] == b[id]
    ensures a == b
  {
    assert a.Keys == b.Keys;
  }

  lemma RetainOneMore(newItems: Cache, prior: Cache, failed: seq<FailedCipher>)
    requires failed != []
    ensures var m, f := Retain(newItems, prior, failed[..|failed| - 1]), failed[|failed| - 1];
            Retain(newItems, prior, failed)
            == if f.id !in m && f.id in prior then m[f.id := prior[f.id].(place := f.place)] else m
  {
    var front, f := failed[..|failed| - 1], failed[|failed| - 1];
    var m, m' := Retain(newItems, prior, front), Retain(newItems, prior, failed);
    var expected := if f.id !in m && f.id in prior then m[f.id := prior[f.id].(place := f.place)] else m;
    forall id
      ensures id in m' <==> id in expected
      ensures id in m' ==> m'[id] == expected[id]
    {
      RetainAt(newItems, prior, front, id);
      RetainAt(newItems, prior, failed, id);
    }
    SameMap(m', expected);
  }

  method RetainFailedCiphers(newItems: Cache, prior: Cache, failed: seq<FailedCipher>) returns (m: Cache, retained: nat)
    ensures m == Retain(newItems, prior, failed)
    ensures retained == |m| - |newItems|
  {
    m, retained := newItems, 0;
    for i := 0 to |failed|
      invariant m == Retain(newItems, prior, failed[..i])
      invariant retained == |m| - |newItems|
    {
      assert failed[..i + 1][..i] == failed[..i];
      var f := failed[i];
      RetainOneMore(newItems, prior, failed[..i + 1]);
      if f.id in m {
        continue;
      }
      if f.id in prior {
        m := m[f.id := prior[f.id].(place := f.place)];
        retained := retained + 1;
      }
    }
    assert failed[..|failed|] == failed;
  }

  method CollectById(items: seq<Item>) returns (m: Cache)
    ensures m == ById(items)
  {
    m := map[];
    for i := 0 to |items|
      invariant m == ById(items[..i])
    {
      assert items[..i + 1][..i] == items[..i];
      if items[i].id == "" {
        continue;
      }
      m := m[items[i].id := items[i]];
    }
    assert items[..|items|] == items;
  }

  /** chosen is the first candidate satisfying pred, in the order given, if any does. */
  ghost predicate FirstMatch(candidates: seq<Item>, pred: Item -> bool, chosen: Option<Item>) {
    match chosen
    case None => forall c | c in candidates :: !pred(c)
    case Some(item) =>
      pred(item) && exists i | 0 <= i < |candidates| :: candidates[i] == item && forall j | 0 <= j < i :: !pred(candidates[j])
  }

  method SelectMatch(candidates: seq<Item>, pred: Item -> bool) returns (chosen: Option<Item>)
    ensures FirstMatch(candidates, pred, chosen)
  {
    chosen := None;
    var found := 0;
    ghost var at := 0;
    for k := 0 to |candidates|
      invariant found == 0 <==> chosen.None?
      invariant chosen.None? ==> forall j | 0 <= j < k :: !pred(candidates[j])
      invariant chosen.Some? ==> 0 <= at < k && candidates[at] == chosen.value && pred(chosen.value)
                                 && forall j | 0 <= j < at :: !pred(candidates[j])
    {
      if !pred(candidates[k]) {
        continue;
      }
      found := found + 1;
      if found == 1 {
        chosen := Some(candidates[k]);
        at := k;
      }
    }
  }

  ghost predicate Distinct(keys: seq<string>) {
    forall i, j | 0 <= i < j < |keys| :: keys[i] != keys[j]
  }

  /** keys walks the set once, in some order. */
  ghost predicate Enumerates(keys: seq<string>, all: set<string>) {
    Distinct(keys) && forall k :: k in keys <==> k in all
  }

  /** Ranging over a map visits its keys in no particular order. */
  method KeysOf<V>(m: map<string, V>) returns (keys: seq<string>)
    ensures Enumerates(keys, m.Keys)
  {
    keys := [];
    var todo := m.Keys;
    while todo != {}
      invariant Distinct(keys)
      invariant forall k :: k in m.Keys <==> (k in keys || k in todo)
      invariant forall k | k in keys :: k !in todo
      decreases todo
    {
      var k :| k in todo;
      keys, todo := keys + [k], todo - {k};
    }
  }

  lemma {:induction false} DistinctCount(keys: seq<string>, x: string)
    requires Distinct(keys)
    ensures multiset(keys)[x] <= 1
  {
    if keys != [] {
      var front, k := keys[..|keys| - 1], keys[|keys| - 1];
      DistinctCount(front, x);
      assert keys == front + [k] && k !in front;
      assert k in front <==> k in multiset(front);
    }
  }

  lemma RepeatedCount(names: seq<string>, i: nat, j: nat)
    requires i < j < |names| && names[i] == names[j]
    ensures multiset(names)[names[j]] >= 2
  {
    assert names == names[..j] + [names[j]] + names[j + 1..];
    assert names[..j][i] == names[j];
    assert names[j] in multiset(names[..j]);
  }

  lemma PermutedDistinct(keys: seq<string>, names: seq<string>)
    requires Distinct(keys) && multiset(names) == multiset(keys)
    ensures Distinct(names)
  {
    forall i, j | 0 <= i < j < |names|
      ensures names[i] != names[j]
    {
      if names[i] == names[j] {
        RepeatedCount(names, i, j);
        DistinctCount(keys, names[j]);
        assert false;
      }
    }
  }

  /** The keys of a map, each once, in ascending order. */
  method SortedKeys(m: map<string, string>) returns (names: seq<string>)
    ensures forall n :: n in names <==> n in m
    ensures forall i, j | 0 <= i < j < |names| :: Less(names[i], names[j])
  {
    var keys := KeysOf(m);
    names := SortStrings(keys);
    PermutedDistinct(keys, names);
    forall n
      ensures n in names <==> n in m
    {
      assert n in names <==> n in multiset(names);
      assert n in keys <==> n in multiset(keys);
    }
    forall i, j | 0 <= i < j < |names|
      ensures Less(names[i], names[j])
    {
      LessTotal(names[i], names[j]);
    }
  }

  /** The first name with a value, in a sorted list, is the least one. */
  lemma FirstNonEmptyIsLeast(m: map<string, string>, names: seq<string>, i: nat)
    requires forall n :: n in names <==> n in m
    requires forall j, k | 0 <= j < k < |names| :: Less(names[j], names[k])
    requires i < |names| && m[names[i]] != "" && forall j | 0 <= j < i :: m[names[j]] == ""
    ensures NonEmpty(m) != {} && Least(NonEmpty(m)) == names[i]
  {
    assert names[i] in NonEmpty(m);
    forall n | n in NonEmpty(m) && n != names[i]
      ensures Less(names[i], n)
    {
      var j :| 0 <= j < |names| && names[j] == n;
      assert i < j;
    }
    LeastIsUnique(NonEmpty(m), names[i]);
  }

  method ExtractSecret(item: Item) returns (secret: string)
    ensures secret == SecretOf(item)
  {
    if item.password != "" {
      return item.password;
    }
    for i := 0 to |PRIORITY|
      invariant FirstField(item.fields, PRIORITY) == FirstField(item.fields, PRIORITY[i..])
    {
      if PRIORITY[i] in item.fields && item.fields[PRIORITY[i]] != "" {
        return item.fields[PRIORITY[i]];
      }
    }
    if item.notes != "" {
      return item.notes;
    }
    var names := SortedKeys(item.fields);
    for i := 0 to |names|
      invariant forall j | 0 <= j < i :: item.fields[names[j]] == ""
    {
      if item.fields[names[i]] != "" {
        FirstNonEmptyIsLeast(item.fields, names, i);
        return item.fields[names[i]];
      }
    }
    assert forall n | n in item.fields :: n in names;
    return "";
  }

  // ---- Candidate lists ----

  /** The items with these ids, each once. */
  ghost predicate Collected(candidates: seq<Item>, m: Cache, ids: set<string>) {
    && |candidates| == |ids|
    && (forall c | c in candidates :: c.id in ids && c.id in m && m[c.id] == c)
    && (forall id | id in ids :: id in m && m[id] in candidates)
  }

  ghost predicate Presents(candidates: seq<Item>, m: Cache, ids: set<string>) {
    && Collected(candidates, m, ids)
    && forall i, j | 0 <= i < j < |candidates| :: !Less(candidates[j].id, candidates[i].id)
  }

  /** The items among these keys that the filter shows. */
  function Shown(cs: Casing, m: Cache, f: SecretFilter, keys: seq<string>): seq<Item>
    requires forall k | k in keys :: k in m
  {
    if keys == [] then []
    else
      var front, k := keys[..|keys| - 1], keys[|keys| - 1];
      if Matches(cs, m[k], f) then Shown(cs, m, f, front) + [m[k]] else Shown(cs, m, f, front)
  }

  function ShownIds(cs: Casing, m: Cache, f: SecretFilter, keys: seq<string>): set<string>
    requires forall k | k in keys :: k in m
  {
    set k | k in keys && Matches(cs, m[k], f)
  }

  lemma CollectOne(candidates: seq<Item>, m: Cache, ids: set<string>, id: string)
    requires WellKeyed(m) && id in m && id !in ids && Collected(candidates, m, ids)
    ensures Collected(candidates + [m[id]], m, ids + {id})
  {
  }

  lemma ShownIdsGrow(cs: Casing, m: Cache, f: SecretFilter, keys: seq<string>, i: nat)
    requires Distinct(keys) && i < |keys| && forall k | k in keys :: k in m
    ensures var before, after := ShownIds(cs, m, f, keys[..i]), ShownIds(cs, m, f, keys[..i + 1]);
            keys[i] !in before && after == if Matches(cs, m[keys[i]], f) then before + {keys[i]} else before
  {
    assert keys[..i + 1] == keys[..i] + [keys[i]];
    var before, after := ShownIds(cs, m, f, keys[..i]), ShownIds(cs, m, f, keys[..i + 1]);
    if Matches(cs, m[keys[i]], f) {
      assert after == before + {keys[i]};
    } else {
      assert after == before;
    }
  }

  lemma {:induction false} ShownIsCollected(cs: Casing, m: Cache, f: SecretFilter, keys: seq<string>)
    requires WellKeyed(m) && Distinct(keys) && forall k | k in keys :: k in m
    ensures Collected(Shown(cs, m, f, keys), m, ShownIds(cs, m, f, keys))
  {
    if keys != [] {
      var front, k := keys[..|keys| - 1], keys[|keys| - 1];
      ShownIsCollected(cs, m, f, front);
      ShownIdsGrow(cs, m, f, keys, |keys| - 1);
      assert keys[..|keys|] == keys;
      if Matches(cs, m[k], f) {
        CollectOne(Shown(cs, m, f, front), m, ShownIds(cs, m, f, front), k);
      }
    }
  }

  lemma SortedPresents(candidates: seq<Item>, sorted: seq<Item>, m: Cache, ids: set<string>, key: Item -> Key)
    requires Collected(candidates, m, ids) && multiset(sorted) == multiset(candidates)
    requires forall item :: key(item) == (item.id, "")
    requires Ordered(key, sorted)
    ensures Presents(sorted, m, ids)
  {
    assert |sorted| == |multiset(sorted)| == |candidates|;
    forall c
      ensures c in sorted <==> c in candidates
    {
      assert c in sorted <==> c in multiset(sorted);
    }
    forall i, j | 0 <= i < j < |sorted|
      ensures !Less(sorted[j].id, sorted[i].id)
    {
      assert !KeyLess(key(sorted[j]), key(sorted[i]));
    }
  }

  function Satisfying(m: Cache, visible: set<string>, pred: Item -> bool): set<string>
    requires visible <= m.Keys
  {
    set id | id in visible && pred(m[id])
  }

  /** The first candidate that satisfies pred is the one of least id; there is one if any
      visible item satisfies it. */
  lemma FirstIsLeast(m: Cache, candidates: seq<Item>, visible: set<string>, pred: Item -> bool, chosen: Option<Item>)
    requires WellKeyed(m) && visible <= m.Keys
    requires Presents(candidates, m, visible) && FirstMatch(candidates, pred, chosen)
    ensures chosen.Some? <==> Satisfying(m, visible, pred) != {}
    ensures chosen.Some? ==> var least := Least(Satisfying(m, visible, pred)); least in m && m[least] == chosen.value
  {
    var ids := Satisfying(m, visible, pred);
    if chosen.Some? {
      var i :| 0 <= i < |candidates| && candidates[i] == chosen.value && forall j | 0 <= j < i :: !pred(candidates[j]);
      assert candidates[i].id in ids;
      forall id | id in ids && id != candidates[i].id
        ensures Less(candidates[i].id, id)
      {
        var j :| 0 <= j < |candidates| && candidates[j] == m[id];
        LessTotal(candidates[i].id, id);
      }
      LeastIsUnique(ids, candidates[i].id);
    }
  }

  function CountIn(keys: seq<string>, counted: set<string>): nat
  {
    if keys == [] then 0
    else CountIn(keys[..|keys| - 1], counted) + if keys[|keys| - 1] in counted then 1 else 0
  }

  function Among(keys: seq<string>, counted: set<string>): set<string>
  {
    set k | k in keys && k in counted
  }

  lemma AmongGrows(keys: seq<string>, counted: set<string>)
    requires keys != [] && Distinct(keys)
    ensures var before, k := Among(keys[..|keys| - 1], counted), keys[|keys| - 1];
            k !in before && Among(keys, counted) == if k in counted then before + {k} else before
  {
    var front, k := keys[..|keys| - 1], keys[|keys| - 1];
    assert keys == front + [k] && k !in front;
  }

  lemma {:induction false} CountInIsSize(keys: seq<string>, counted: set<string>)
    requires Distinct(keys)
    ensures CountIn(keys, counted) == |Among(keys, counted)|
  {
    if keys != [] {
      var front, k := keys[..|keys| - 1], keys[|keys| - 1];
      CountInIsSize(front, counted);
      AmongGrows(keys, counted);
    }
  }

  lemma CountAll(keys: seq<string>, all: set<string>, counted: set<string>)
    requires Enumerates(keys, all) && counted <= all
    ensures CountIn(keys, counted) == |counted|
  {
    CountInIsSize(keys, counted);
    assert Among(keys, counted) == counted;
  }

  lemma DecryptedIds(d: Decryption, pl: Payload, decrypted: Cache)
    requires decrypted == ById(ItemsOf(d, pl, pl.response.ciphers))
    ensures forall id :: id in decrypted <==> Read(d, pl, id).Some?
  {
    forall id
      ensures id in decrypted <==> Read(d, pl, id).Some?
    {
      ByIdIsLastRead(d, pl, pl.response.ciphers, id);
    }
  }

  /** The ids of m that the payload did not decrypt. */
  function Undecrypted(d: Decryption, pl: Payload, m: Cache): set<string>
  {
    set id | id in m && Read(d, pl, id).None?
  }

  lemma RetainAddsKeys(newItems: Cache, prior: Cache, failed: seq<FailedCipher>)
    ensures var m := Retain(newItems, prior, failed);
            newItems.Keys <= m.Keys && |m| - |newItems| == |m.Keys - newItems.Keys|
  {
    var m := Retain(newItems, prior, failed);
    assert m.Keys == newItems.Keys + (m.Keys - newItems.Keys);
    assert |m.Keys| == |newItems.Keys| + |m.Keys - newItems.Keys|;
  }

  lemma UndecryptedKeys(d: Decryption, pl: Payload, decrypted: Cache, m: Cache)
    requires decrypted == ById(ItemsOf(d, pl, pl.response.ciphers))
    ensures Undecrypted(d, pl, m) == m.Keys - decrypted.Keys
  {
    DecryptedIds(d, pl, decrypted);
  }

  /** What a reconciled cache carries over are the ids the payload did not decrypt. */
  lemma CarriedOver(d: Decryption, prior: Cache, pl: Payload, decrypted: Cache, m: Cache)
    requires decrypted == ById(ItemsOf(d, pl, pl.response.ciphers))
    requires m == Retain(decrypted, prior, FailuresOf(d, pl, pl.response.ciphers))
    ensures |m| - |decrypted| == |Undecrypted(d, pl, m)|
  {
    RetainAddsKeys(decrypted, prior, FailuresOf(d, pl, pl.response.ciphers));
    UndecryptedKeys(d, pl, decrypted, m);
  }

  /** The cache a decrypted payload publishes, and how many entries it carried over. */
  method Publish(ghost d: Decryption, ghost pl: Payload, outcome: SyncOutcome, prior: Cache)
    returns (items: Cache, retained: nat)
    requires outcome == OutcomeOf(d, Some(pl))
    ensures items == Apply(d, prior, Some(pl))
    ensures retained == |Undecrypted(d, pl, items)|
  {
    var newItems: Cache := map[];
    if outcome.Synced? {
      newItems := CollectById(outcome.items);
    }
    items, retained := RetainFailedCiphers(newItems, prior, outcome.failed);
    CarriedOver(d, prior, pl, newItems, items);
  }

  lemma CacheGrows(d: Decryption, history: seq<Option<Payload>>, x: Option<Payload>)
    ensures CacheAfter(d, history + [x]) == Apply(d, CacheAfter(d, history), x)
  {
    assert (history + [x])[..|history|] == history;
  }

  /** Only a 200 brings a payload. */
  lemma NothingFetched(p: Primitives, c: Creds, x: Exchange<SyncResponse>)
    ensures (x.first.NoReply? || x.first.status != 200) && (x.second.NoReply? || x.second.status != 200) ==>
              FetchedPayload(p, c, x) == None
  {
    var fetched := AfterFetch(LoginWith(p), c, x).1;
    if fetched.Some? {
      FetchYieldsIff(LoginWith(p), c, x, fetched.value.0, fetched.value.1);
    }
  }

  /** What a logged-in client fetches comes with a full key, and leaves it logged in. */
  lemma FetchedKeyIsFull(p: Primitives, c: Creds, x: Exchange<SyncResponse>)
    requires p.Lawful() && c.access != "" && c.key.Full()
    ensures FetchedPayload(p, c, x).Some? ==> FetchedPayload(p, c, x).value.key.Full()
    ensures var c' := AfterFetch(LoginWith(p), c, x).0; c'.access != "" && c'.key.Full()
  {
    LoginWithIsSound(p);
    FetchKeepsCredentials(LoginWith(p), c, x);
  }

  // ---- Scans over the cache ----

  /** The visible items, sorted by id. */
  method Candidates(cs: Casing, m: Cache, filter: SecretFilter) returns (candidates: seq<Item>)
    requires WellKeyed(m)
    ensures Presents(candidates, m, Visible(cs, m, filter))
  {
    candidates := [];
    var keys := KeysOf(m);
    for i := 0 to |keys|
      invariant candidates == Shown(cs, m, filter, keys[..i])
    {
      assert keys[..i + 1][..i] == keys[..i];
      if Matches(cs, m[keys[i]], filter) {
        candidates := candidates + [m[keys[i]]];
      }
    }
    assert keys[..|keys|] == keys;
    ShownIsCollected(cs, m, filter, keys);
    assert ShownIds(cs, m, filter, keys) == Visible(cs, m, filter);
    var byId := (item: Item) => (item.id, "");
    var sorted := Sort(candidates, byId);
    SortedPresents(candidates, sorted, m, Visible(cs, m, filter), byId);
    candidates := sorted;
  }

  /** A value-free description of one item. */
  method Summarise(item: Item, names: NameMaps) returns (s: Summary)
    ensures Describes(s, item, names)
  {
    var ids := item.place.collectionIds;
    var collectionNames := [];
    for i := 0 to |ids|
      invariant collectionNames == KnownNames(names.collections, ids[..i])
    {
      assert ids[..i + 1][..i] == ids[..i];
      if ids[i] in names.collections {
        collectionNames := collectionNames + [names.collections[ids[i]]];
      }
    }
    assert ids[..|ids|] == ids;
    var fields := SortedKeys(item.fields);
    return Summary(item.name, item.id, item.place.organizationId, NameOr(names.organizations, item.place.organizationId),
                   ids, collectionNames, item.place.folderId, NameOr(names.folders, item.place.folderId), fields);
  }

  /** out describes the items with these ids, each once. */
  ghost predicate ListsIds(out: seq<Summary>, m: Cache, names: NameMaps, ids: set<string>) {
    && |out| == |ids|
    && (forall s | s in out :: s.id in ids && s.id in m && Describes(s, m[s.id], names))
    && (forall id | id in ids :: exists s | s in out :: s.id == id)
  }

  lemma ListOneMore(out: seq<Summary>, m: Cache, names: NameMaps, ids: set<string>, s: Summary, id: string)
    requires WellKeyed(m) && ListsIds(out, m, names, ids) && id in m && id !in ids && Describes(s, m[id], names)
    ensures ListsIds(out + [s], m, names, ids + {id})
  {
    forall k | k in ids + {id}
      ensures exists t | t in out + [s] :: t.id == k
    {
      if k == id {
        assert s in out + [s] && s.id == id;
      } else {
        var t :| t in out && t.id == k;
        assert t in out + [s];
      }
    }
  }

  lemma SortedLists(unsorted: seq<Summary>, out: seq<Summary>, m: Cache, names: NameMaps, ids: set<string>, key: Summary -> Key)
    requires ListsIds(unsorted, m, names, ids) && multiset(out) == multiset(unsorted)
    requires forall s :: key(s) == (s.name, s.id)
    requires Ordered(key, out)
    ensures ListsIds(out, m, names, ids)
    ensures forall i, j | 0 <= i < j < |out| ::
              !Less(out[j].name, out[i].name) && (out[j].name == out[i].name ==> !Less(out[j].id, out[i].id))
  {
    assert |out| == |multiset(out)| == |unsorted|;
    forall s
      ensures s in out <==> s in unsorted
    {
      assert s in out <==> s in multiset(out);
      assert s in unsorted <==> s in multiset(unsorted);
    }
    forall id | id in ids
      ensures exists s | s in out :: s.id == id
    {
      var s :| s in unsorted && s.id == id;
      assert s in out;
    }
    forall i, j | 0 <= i < j < |out|
      ensures !Less(out[j].name, out[i].name) && (out[j].name == out[i].name ==> !Less(out[j].id, out[i].id))
    {
      assert !KeyLess(key(out[j]), key(out[i]));
    }
  }

  method ListVisible(cs: Casing, m: Cache, names: NameMaps, filter: SecretFilter) returns (out: seq<Summary>)
    requires WellKeyed(m)
    ensures Lists(out, cs, m, names, filter)
  {
    out := [];
    var keys := KeysOf(m);
    for i := 0 to |keys|
      invariant ListsIds(out, m, names, ShownIds(cs, m, filter, keys[..i]))
    {
      ShownIdsGrow(cs, m, filter, keys, i);
      if !Matches(cs, m[keys[i]], filter) {
        continue;
      }
      var s := Summarise(m[keys[i]], names);
      ListOneMore(out, m, names, ShownIds(cs, m, filter, keys[..i]), s, keys[i]);
      out := out + [s];
    }
    assert ShownIds(cs, m, filter, keys[..|keys|]) == Visible(cs, m, filter);
    var byName := (s: Summary) => (s.name, s.id);
    var sorted := Sort(out, byName);
    SortedLists(out, sorted, m, names, Visible(cs, m, filter), byName);
    out := sorted;
  }

  /** How the scan classifies one item. */
  lemma MissCases(cs: Casing, m: Cache, name: string, f: SecretFilter, strict: bool, id: string)
    requires id in m
    ensures id in HiddenMatches(cs, m, f, name, strict) <==>
              !Matches(cs, m[id], f) && if strict then Exact(cs, m[id].name, name) else Partial(cs, m[id].name, name)
    ensures id in VisiblePartials(cs, m, f, name) <==>
              Matches(cs, m[id], f) && Partial(cs, m[id].name, name) && !Exact(cs, m[id].name, name)
  {
  }

  /** Why a lookup missed, for the log. */
  method ExplainMiss(cs: Casing, m: Cache, name: string, key: string, visible: nat, filter: SecretFilter, strict: bool)
    returns (e: LookupFailure)
    requires key == cs.lower(name) && visible == |Visible(cs, m, filter)|
    ensures e == FailureOf(cs, m, filter, name, strict)
  {
    var hiddenNameMatches, partialInVisible := 0, 0;
    ghost var hidden, partials := HiddenMatches(cs, m, filter, name, strict), VisiblePartials(cs, m, filter, name);
    var keys := KeysOf(m);
    for i := 0 to |keys|
      invariant hiddenNameMatches == CountIn(keys[..i], hidden)
      invariant partialInVisible == CountIn(keys[..i], partials)
    {
      assert keys[..i + 1][..i] == keys[..i];
      MissCases(cs, m, name, filter, strict, keys[i]);
      var item := m[keys[i]];
      var exact, partial := Exact(cs, item.name, name), Contains(cs.lower(item.name), key);
      if Matches(cs, item, filter) {
        if partial && !exact {
          partialInVisible := partialInVisible + 1;
        }
        continue;
      }
      var servable := exact;
      if !strict {
        servable := partial;
      }
      if servable {
        hiddenNameMatches := hiddenNameMatches + 1;
      }
    }
    assert keys[..|keys|] == keys;
    CountAll(keys, m.Keys, hidden);
    CountAll(keys, m.Keys, partials);
    return LookupFailure(|m|, visible, hiddenNameMatches, partialInVisible, strict);
  }

  /** The secret a name stands for, or why there is none. */
  method FindSecret(cs: Casing, m: Cache, name: string, filter: SecretFilter, strict: bool)
    returns (r: Result<string, LookupError>)
    requires WellKeyed(m)
    ensures r == match Winner(cs, m, filter, name, strict)
                 case Some(id) => Ok(SecretOf(m[id]))
                 case None => Err(NotFound(FailureOf(cs, m, filter, name, strict)))
  {
    var key := cs.lower(name);
    var candidates := Candidates(cs, m, filter);
    ghost var visible := Visible(cs, m, filter);
    var isExact := (item: Item) => cs.fold(item.name, name);
    var exact := SelectMatch(candidates, isExact);
    FirstIsLeast(m, candidates, visible, isExact, exact);
    assert ExactIds(cs, m, filter, name) == Satisfying(m, visible, isExact);
    if exact.Some? {
      var secret := ExtractSecret(exact.value);
      return Ok(secret);
    }
    if !strict {
      var isPartial := (item: Item) => Contains(cs.lower(item.name), key);
      var partial := SelectMatch(candidates, isPartial);
      FirstIsLeast(m, candidates, visible, isPartial, partial);
      assert PartialIds(cs, m, filter, name) == Satisfying(m, visible, isPartial);
      if partial.Some? {
        var secret := ExtractSecret(partial.value);
        return Ok(secret);
      }
    }
    var failure := ExplainMiss(cs, m, name, key, |candidates|, filter, strict);
    return Err(NotFound(failure));
  }

  /** An exact match of least id is served, and without one, unless matching is strict, a
      partial match of least id. */
  lemma ServedIs(cs: Casing, m: Cache, f: SecretFilter, name: string, strict: bool, r: Result<string, LookupError>)
    requires r == match Winner(cs, m, f, name, strict)
                  case Some(id) => Ok(SecretOf(m[id]))
                  case None => Err(NotFound(FailureOf(cs, m, f, name, strict)))
    ensures forall id | id in m && Matches(cs, m[id], f) && cs.fold(m[id].name, name)
                        && (forall o | o in m && Matches(cs, m[o], f) && cs.fold(m[o].name, name) :: !Less(o, id)) ::
              r == Ok(SecretOf(m[id]))
    ensures forall id | !strict
                        && (forall o | o in m && Matches(cs, m[o], f) :: !cs.fold(m[o].name, name))
                        && id in m && Matches(cs, m[id], f) && Contains(cs.lower(m[id].name), cs.lower(name))
                        && (forall o | o in m && Matches(cs, m[o], f)
                                       && Contains(cs.lower(m[o].name), cs.lower(name)) :: !Less(o, id)) ::
              r == Ok(SecretOf(m[id]))
  {
    forall id | id in m && Matches(cs, m[id], f) && cs.fold(m[id].name, name)
                && (forall o | o in m && Matches(cs, m[o], f) && cs.fold(m[o].name, name) :: !Less(o, id))
      ensures r == Ok(SecretOf(m[id]))
    {
      ExactWins(cs, m, f, name, strict, id);
    }
    forall id | !strict
                && (forall o | o in m && Matches(cs, m[o], f) :: !cs.fold(m[o].name, name))
                && id in m && Matches(cs, m[id], f) && Contains(cs.lower(m[id].name), cs.lower(name))
                && (forall o | o in m && Matches(cs, m[o], f)
                               && Contains(cs.lower(m[o].name), cs.lower(name)) :: !Less(o, id))
      ensures r == Ok(SecretOf(m[id]))
    {
      PartialWins(cs, m, f, name, id);
    }
  }

  class Client {
    const p: Primitives
    const strictMatch: bool
    var items: Cache
    var nameMaps: NameMaps
    var retained: nat

    /** The payloads of the sync cycles so far; None for one that reached no payload. */
    ghost var history: seq<Option<Payload>>

    ghost predicate Valid()
      reads this
    {
      && p.Lawful()
      && items == CacheAfter(DecryptionWith(p), history)
      && CleanNames(nameMaps)
    }

    /** Every payload so far came with a full key. */
    ghost predicate FullKeys()
      reads this
    {
      forall x | x in history && x.Some? :: x.value.key.Full()
    }

    constructor (p: Primitives, strictMatch: bool)
      requires p.Lawful()
      ensures Valid() && this.p == p && this.strictMatch == strictMatch
      ensures history == [] && nameMaps == EMPTY_NAMES && retained == 0
    {
      this.p, this.strictMatch := p, strictMatch;
      items, nameMaps, retained, history := map[], EMPTY_NAMES, 0, [];
    }

    /** Log in, then sync once. A failed login changes nothing; after a successful one the
        state is that of a first sync cycle with the new credentials. */
    method Initialize(api: APIClient, a: LoginAnswers, now: Time, x: Exchange<SyncResponse>) returns (ok: bool)
      requires Valid()
      modifies this, api
      ensures Valid() && (old(FullKeys()) ==> FullKeys())
      ensures match LoginWith(p)(a)
              case None =>
                && !ok && api.Current() == old(api.Current()) && history == old(history)
                && items == old(items) && nameMaps == old(nameMaps) && retained == old(retained)
              case Some(session) =>
                var creds := AfterLogin(session, now);
                var d, applied := DecryptionWith(p), FetchedPayload(p, creds, x);
                && ok == OutcomeOf(d, applied).Synced?
                && api.Current() == AfterFetch(LoginWith(p), creds, x).0
                && history == old(history) + [applied]
                && items == Apply(d, old(items), applied)
                && nameMaps == (if ok then OutcomeOf(d, applied).names else old(nameMaps))
                && retained == (match applied
                                case None => old(retained)
                                case Some(pl) => |Undecrypted(d, pl, items)|)
                && api.LoggedIn()
    {
      var authenticated := api.Authenticate(p, a, now);
      if !authenticated {
        return false;
      }
      ok := SyncVault(api, x);
    }

    /** What a cycle makes of its outcome: nothing of an error without failures, a
        reconciled cache of a payload that did not decrypt, cache and names of one that did. */
    method Adopt(ghost applied: Option<Payload>, outcome: SyncOutcome) returns (ok: bool)
      requires Valid() && outcome == OutcomeOf(DecryptionWith(p), applied)
      modifies this
      ensures Valid()
      ensures var d := DecryptionWith(p);
              && history == old(history) + [applied]
              && ok == outcome.Synced?
              && items == Apply(d, old(items), applied)
              && nameMaps == (if ok then outcome.names else old(nameMaps))
              && retained == (match applied
                              case None => old(retained)
                              case Some(pl) => |Undecrypted(d, pl, items)|)
    {
      ghost var d := DecryptionWith(p);
      CacheGrows(d, history, applied);
      history := history + [applied];
      if outcome.Unreachable? {
        return false;
      }
      items, retained := Publish(d, applied.value, outcome, items);
      if outcome.NothingDecrypted? {
        return false;
      }
      nameMaps := outcome.names;
      NamesAreClean(d, applied.value);
      return true;
    }

    /** One sync cycle. The payload it applies joins the history that determines the cache;
        name maps change only when something was decrypted; `retained` is the number of
        entries carried over from the previous cache. */
    method SyncVault(api: APIClient, x: Exchange<SyncResponse>) returns (ok: bool)
      requires Valid()
      modifies this, api
      ensures Valid()
      ensures api.Current() == AfterFetch(LoginWith(p), old(api.Current()), x).0
      ensures var d, applied := DecryptionWith(p), FetchedPayload(p, old(api.Current()), x);
              && history == old(history) + [applied]
              && ok == OutcomeOf(d, applied).Synced?
              && items == Apply(d, old(items), applied)
              && nameMaps == (if ok then OutcomeOf(d, applied).names else old(nameMaps))
              && retained == (match applied
                              case None => old(retained)
                              case Some(pl) => |Undecrypted(d, pl, items)|)
      ensures (x.first.NoReply? || x.first.status != 200) && (x.second.NoReply? || x.second.status != 200) ==>
                !ok && items == old(items) && nameMaps == old(nameMaps) && retained == old(retained)
      ensures old(api.LoggedIn()) ==> api.LoggedIn()
      ensures old(FullKeys() && api.LoggedIn()) ==> FullKeys()
    {
      ghost var before, applied := api.Current(), FetchedPayload(p, api.Current(), x);
      NothingFetched(p, before, x);
      if api.LoggedIn() {
        FetchedKeyIsFull(p, before, x);
      }
      var outcome := Sync(api, p, x);
      ok := Adopt(applied, outcome);
    }

    /** Whatever the client serves was authenticated: each cached entry is, placement aside,
        the item that the cycle it is held since decrypted from a cipher of its id, with that
        payload's key for the cipher, a full one, and all its non-empty values passed a MAC
        check under that key. */
    lemma CacheIsAuthentic(id: string) returns (k: nat, c: Cipher, key: SymmetricKey)
      requires Valid() && FullKeys() && id in items
      ensures HeldSince(DecryptionWith(p), history, id, k)
      ensures c in history[k].value.response.ciphers && c.id == id
      ensures var d, pl := DecryptionWith(p), history[k].value;
              && pl.Reads(d, c) && pl.KeyOf(d, c) == Some(key) && key.Full()
              && AuthenticItem(p, pl.ItemFor(d, c), c, key)
              && SameContent(items[id], pl.ItemFor(d, c))
    {
      k, c, key := CachedValuesWereAuthenticated(p, history, id);
    }

    lemma CacheIsKeyed()
      requires Valid()
      ensures WellKeyed(items)
    {
      CacheIsCurrent(DecryptionWith(p), history);
    }

    method GetSecret(cs: Casing, name: string, filter: SecretFilter) returns (r: Result<string, LookupError>)
      requires Valid()
      ensures name == "" ==> r == Err(EmptyName)
      ensures name != "" ==>
                r == match Winner(cs, items, filter, name, strictMatch)
                     case Some(id) => Ok(SecretOf(items[id]))
                     case None => Err(NotFound(FailureOf(cs, items, filter, name, strictMatch)))
      ensures forall id | name != "" && id in items && Matches(cs, items[id], filter) && cs.fold(items[id].name, name)
                          && (forall o | o in items && Matches(cs, items[o], filter) && cs.fold(items[o].name, name) ::
                                !Less(o, id)) ::
                r == Ok(SecretOf(items[id]))
      ensures forall id | name != "" && !strictMatch
                          && (forall o | o in items && Matches(cs, items[o], filter) :: !cs.fold(items[o].name, name))
                          && id in items && Matches(cs, items[id], filter)
                          && Contains(cs.lower(items[id].name), cs.lower(name))
                          && (forall o | o in items && Matches(cs, items[o], filter)
                                         && Contains(cs.lower(items[o].name), cs.lower(name)) :: !Less(o, id)) ::
                r == Ok(SecretOf(items[id]))
    {
      if name == "" {
        return Err(EmptyName);
      }
      CacheIsKeyed();
      r := FindSecret(cs, items, name, filter, strictMatch);
      ServedIs(cs, items, filter, name, strictMatch, r);
    }

    /** A description of every visible item, by name and then by id. */
    method ListSecrets(cs: Casing, filter: SecretFilter) returns (out: seq<Summary>)
      requires Valid()
      ensures Lists(out, cs, items, nameMaps, filter)
    {
      CacheIsKeyed();
      out := ListVisible(cs, items, nameMaps, filter);
    }
  }
}
