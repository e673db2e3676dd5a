/** The cache as a function of the history of sync payloads. */
module Reconcile {
  import opened Wrappers
  import opened GoStrings
  import opened CipherStrings
  import opened VaultItems

  type Cache = map<string, Item>

  /** Decrypted items under their ids, the last one per id; items without an id are dropped. */
  function ById(items: seq<Item>): Cache
  {
    if items == [] then map[]
    else
      var rest, item := ById(items[..|items| - 1]), items[|items| - 1];
      if item.id == "" then rest else rest[item.id := item]
  }

  /** The first reported failure for an id. */
  function FirstFailure(failed: seq<FailedCipher>, id: string): Option<FailedCipher>
  {
    if failed == [] then None
    else
      match FirstFailure(failed[..|failed| - 1], id)
      case Some(f) => Some(f)
      case None => if failed[|failed| - 1].id == id then Some(failed[|failed| - 1]) else None
  }

  /** Cached entries of failed ciphers are carried over under the placement reported now. */
  function Retain(rebuilt: Cache, prior: Cache, failed: seq<FailedCipher>): Cache
  {
    rebuilt + map id | id in prior && id !in rebuilt && FirstFailure(failed, id).Some?
              :: prior[id].(place := FirstFailure(failed, id).value.place)
  }

  /** The cache after a sync: unchanged by a transport or login error, otherwise rebuilt
      from the payload. */
  function Apply(d: Decryption, prior: Cache, x: Option<Payload>): Cache
  {
    match x
    case None => prior
    case Some(pl) =>
      Retain(ById(ItemsOf(d, pl, pl.response.ciphers)), prior, FailuresOf(d, pl, pl.response.ciphers))
  }

  function CacheAfter(d: Decryption, history: seq<Option<Payload>>): Cache
  {
    if history == [] then map[]
    else Apply(d, CacheAfter(d, history[..|history| - 1]), history[|history| - 1])
  }

  /** The most recent applied payload. */
  function Latest(history: seq<Option<Payload>>): Option<Payload>
  {
    if history == [] then None
    else if history[|history| - 1].Some? then history[|history| - 1]
    else Latest(history[..|history| - 1])
  }

  // ---- What a payload says about an id ----

  /** The last live cipher with this id that decrypts. */
  function LastRead(d: Decryption, pl: Payload, ciphers: seq<Cipher>, id: string): (r: Option<Cipher>)
    ensures r.Some? ==> r.value in ciphers && pl.Reads(d, r.value) && r.value.id == id
  {
    if ciphers == [] then None
    else
      var front, c := ciphers[..|ciphers| - 1], ciphers[|ciphers| - 1];
      assert ciphers == front + [c];
      if pl.Reads(d, c) && c.id == id then Some(c) else LastRead(d, pl, front, id)
  }

  /** The first live cipher with this id that does not. */
  function FirstFail(d: Decryption, pl: Payload, ciphers: seq<Cipher>, id: string): (r: Option<Cipher>)
    ensures r.Some? ==> r.value in ciphers && pl.Fails(d, r.value) && r.value.id == id
  {
    if ciphers == [] then None
    else
      var front, c := ciphers[..|ciphers| - 1], ciphers[|ciphers| - 1];
      assert ciphers == front + [c];
      match FirstFail(d, pl, front, id)
      case Some(f) => Some(f)
      case None => if pl.Fails(d, c) && c.id == id then Some(c) else None
  }

  lemma {:induction false} LastReadIsLast(d: Decryption, pl: Payload, ciphers: seq<Cipher>, id: string, i: nat)
    requires i < |ciphers| && pl.Reads(d, ciphers[i]) && ciphers[i].id == id
    requires forall j | i < j < |ciphers| :: !(pl.Reads(d, ciphers[j]) && ciphers[j].id == id)
    ensures LastRead(d, pl, ciphers, id) == Some(ciphers[i])
  {
    if i < |ciphers| - 1 {
      LastReadIsLast(d, pl, ciphers[..|ciphers| - 1], id, i);
    }
  }

  lemma {:induction false} NoFailBefore(d: Decryption, pl: Payload, ciphers: seq<Cipher>, id: string)
    requires forall c | c in ciphers :: !(pl.Fails(d, c) && c.id == id)
    ensures FirstFail(d, pl, ciphers, id) == None
  {
    if ciphers != [] {
      NoFailBefore(d, pl, ciphers[..|ciphers| - 1], id);
    }
  }

  lemma {:induction false} FirstFailIsFirst(d: Decryption, pl: Payload, ciphers: seq<Cipher>, id: string, i: nat)
    requires i < |ciphers| && pl.Fails(d, ciphers[i]) && ciphers[i].id == id
    requires forall j | 0 <= j < i :: !(pl.Fails(d, ciphers[j]) && ciphers[j].id == id)
    ensures FirstFail(d, pl, ciphers, id) == Some(ciphers[i])
  {
    if i < |ciphers| - 1 {
      FirstFailIsFirst(d, pl, ciphers[..|ciphers| - 1], id, i);
    } else {
      NoFailBefore(d, pl, ciphers[..i], id);
    }
  }

  function Read(d: Decryption, pl: Payload, id: string): Option<Cipher>
  {
    if id == "" then None else LastRead(d, pl, pl.response.ciphers, id)
  }

  function Failing(d: Decryption, pl: Payload, id: string): Option<Cipher>
  {
    FirstFail(d, pl, pl.response.ciphers, id)
  }

  lemma ByIdAppend(items: seq<Item>, item: Item)
    ensures ById(items + [item]) == if item.id == "" then ById(items) else ById(items)[item.id := item]
  {
    assert (items + [item])[..|items|] == items;
  }

  lemma {:induction false} ByIdIsLastRead(d: Decryption, pl: Payload, ciphers: seq<Cipher>, id: string)
    ensures var m, r := ById(ItemsOf(d, pl, ciphers)), LastRead(d, pl, ciphers, id);
            && (id in m <==> id != "" && r.Some?)
            && (id in m ==> m[id] == pl.ItemFor(d, r.value))
  {
    if ciphers != [] {
      var front, c := ciphers[..|ciphers| - 1], ciphers[|ciphers| - 1];
      ByIdIsLastRead(d, pl, front, id);
      var items := ItemsOf(d, pl, front);
      if pl.Reads(d, c) {
        assert pl.ItemFor(d, c).id == c.id;
        ByIdAppend(items, pl.ItemFor(d, c));
        assert ItemsOf(d, pl, ciphers) == items + [pl.ItemFor(d, c)];
      } else {
        assert ItemsOf(d, pl, ciphers) == items;
        assert LastRead(d, pl, ciphers, id) == LastRead(d, pl, front, id);
      }
    }
  }

  lemma {:induction false} FailureIsFirstFail(d: Decryption, pl: Payload, ciphers: seq<Cipher>, id: string)
    ensures FirstFailure(FailuresOf(d, pl, ciphers), id)
         == match FirstFail(d, pl, ciphers, id)
            case Some(c) => Some(FailedCipher(id, PlacementOf(c)))
            case None => None
  {
    if ciphers != [] {
      var front, c := ciphers[..|ciphers| - 1], ciphers[|ciphers| - 1];
      FailureIsFirstFail(d, pl, front, id);
      if pl.Fails(d, c) {
        var failed := FailuresOf(d, pl, front);
        assert (failed + [FailedCipher(c.id, PlacementOf(c))])[..|failed|] == failed;
      } else {
        assert FailuresOf(d, pl, ciphers) == FailuresOf(d, pl, front);
      }
    }
  }

  /** One applied payload, id by id: decrypted now, or carried over because it is live but
      undecryptable, or gone. */
  lemma ApplyAt(d: Decryption, prior: Cache, pl: Payload, id: string)
    ensures var m := Apply(d, prior, Some(pl));
            match Read(d, pl, id)
            case Some(c) => id in m && m[id] == pl.ItemFor(d, c)
            case None =>
              && (id in m <==> id in prior && Failing(d, pl, id).Some?)
              && (id in m ==> m[id] == prior[id].(place := PlacementOf(Failing(d, pl, id).value)))
  {
    ByIdIsLastRead(d, pl, pl.response.ciphers, id);
    FailureIsFirstFail(d, pl, pl.response.ciphers, id);
  }

  // ---- History theorems ----

  /** A payload that keeps a cached id without decrypting it. */
  ghost predicate Holds(d: Decryption, x: Option<Payload>, id: string) {
    x.Some? ==> Read(d, x.value, id).None? && Failing(d, x.value, id).Some?
  }

  ghost predicate Decrypts(d: Decryption, x: Option<Payload>, id: string) {
    x.Some? && Read(d, x.value, id).Some?
  }

  /** Payload k decrypted the id, and every payload applied since reported it live but
      undecryptable. */
  ghost predicate HeldSince(d: Decryption, h: seq<Option<Payload>>, id: string, k: int) {
    0 <= k < |h| && Decrypts(d, h[k], id) && forall j | k < j < |h| :: Holds(d, h[j], id)
  }

  /** Everything but the placement. */
  ghost predicate SameContent(a: Item, b: Item) {
    a.(place := b.place) == b
  }

  /** The item a payload decrypts for an id. */
  ghost function ItemAt(d: Decryption, x: Option<Payload>, id: string): Item
    requires Decrypts(d, x, id)
  {
    x.value.ItemFor(d, Read(d, x.value, id).value)
  }

  lemma HeldUpTo(d: Decryption, h: seq<Option<Payload>>, id: string)
    requires h != []
    ensures forall k | k < |h| - 1 ::
              HeldSince(d, h, id, k) <==> HeldSince(d, h[..|h| - 1], id, k) && Holds(d, h[|h| - 1], id)
  {
    var n := |h| - 1;
    forall k | k < n
      ensures HeldSince(d, h, id, k) <==> HeldSince(d, h[..n], id, k) && Holds(d, h[n], id)
    {
      assert forall j | 0 <= j < n :: h[..n][j] == h[j];
    }
  }

  /** What the last event of a history does to an id. */
  lemma ApplyLast(d: Decryption, prior: Cache, x: Option<Payload>, id: string)
    ensures Decrypts(d, x, id) ==> id in Apply(d, prior, x) && Apply(d, prior, x)[id] == ItemAt(d, x, id)
    ensures !Decrypts(d, x, id) ==> (id in Apply(d, prior, x) <==> id in prior && Holds(d, x, id))
    ensures !Decrypts(d, x, id) && id in Apply(d, prior, x) ==> SameContent(Apply(d, prior, x)[id], prior[id])
  {
    if x.Some? {
      ApplyAt(d, prior, x.value, id);
    }
  }

  lemma {:induction false} CachedIsHeld(d: Decryption, h: seq<Option<Payload>>, id: string) returns (k: int)
    requires id in CacheAfter(d, h)
    ensures HeldSince(d, h, id, k)
  {
    var n := |h| - 1;
    ApplyLast(d, CacheAfter(d, h[..n]), h[n], id);
    if Decrypts(d, h[n], id) {
      k := n;
    } else {
      k := CachedIsHeld(d, h[..n], id);
      HeldUpTo(d, h, id);
    }
  }

  /** The content of a cached id is what was decrypted then. */
  lemma {:induction false} CachedContent(d: Decryption, h: seq<Option<Payload>>, id: string, k: int)
    requires HeldSince(d, h, id, k)
    ensures id in CacheAfter(d, h) && SameContent(CacheAfter(d, h)[id], ItemAt(d, h[k], id))
  {
    var n := |h| - 1;
    ApplyLast(d, CacheAfter(d, h[..n]), h[n], id);
    if k < n {
      HeldUpTo(d, h, id);
      CachedContent(d, h[..n], id, k);
    }
  }

  /** An id is cached exactly when some payload decrypted it and every later one found it
      live but undecryptable. */
  lemma CachedIffHeld(d: Decryption, h: seq<Option<Payload>>, id: string)
    ensures id in CacheAfter(d, h) <==> exists k :: HeldSince(d, h, id, k)
  {
    if id in CacheAfter(d, h) {
      var k := CachedIsHeld(d, h, id);
    }
    if k :| HeldSince(d, h, id, k) {
      CachedContent(d, h, id, k);
    }
  }

  /** Both together: over any history, the cache is this function of the payloads. */
  lemma CacheIsHistory(d: Decryption, h: seq<Option<Payload>>, id: string)
    ensures id in CacheAfter(d, h) <==> exists k :: HeldSince(d, h, id, k)
    ensures forall k | HeldSince(d, h, id, k) :: SameContent(CacheAfter(d, h)[id], ItemAt(d, h[k], id))
  {
    CachedIffHeld(d, h, id);
    forall k | HeldSince(d, h, id, k)
      ensures SameContent(CacheAfter(d, h)[id], ItemAt(d, h[k], id))
    {
      CachedContent(d, h, id, k);
    }
  }

  /** The placement the payload reports for a cipher: its organization and folder, trimmed,
      or empty if it has none, and its collections. */
  ghost predicate LivesWhere(place: Placement, c: Cipher) {
    && place.organizationId == (if c.organizationId.Some? then TrimSpace(c.organizationId.value) else "")
    && place.collectionIds == c.collectionIds
    && place.folderId == (if c.folderId.Some? then TrimSpace(c.folderId.value) else "")
  }

  /** Every cached id is a live cipher of the latest payload, under its own id and with
      the placement that payload reports. */
  ghost predicate Current(d: Decryption, m: Cache, pl: Payload) {
    forall id | id in m ::
      && id != "" && m[id].id == id
      && exists c | c in pl.response.ciphers :: c.id == id && !Trashed(c) && LivesWhere(m[id].place, c)
  }

  ghost predicate WellKeyed(m: Cache) {
    forall id | id in m :: id != "" && m[id].id == id
  }

  lemma PlacementIs(c: Cipher)
    ensures LivesWhere(PlacementOf(c), c)
  {
    assert TrimSpace("") == "";
  }

  lemma ApplyIsCurrent(d: Decryption, prior: Cache, pl: Payload)
    requires WellKeyed(prior)
    ensures Current(d, Apply(d, prior, Some(pl)), pl)
  {
    var m := Apply(d, prior, Some(pl));
    forall id | id in m
      ensures id != "" && m[id].id == id
      ensures exists c | c in pl.response.ciphers :: c.id == id && !Trashed(c) && LivesWhere(m[id].place, c)
    {
      ApplyAt(d, prior, pl, id);
      var c := if Read(d, pl, id).Some? then Read(d, pl, id).value else Failing(d, pl, id).value;
      PlacementIs(c);
      assert c in pl.response.ciphers && LivesWhere(m[id].place, c);
    }
  }

  /** After every history the cache is well keyed, and agrees with the latest payload
      applied, if there is one, about what is live and where it lives. */
  lemma {:induction false} CacheIsCurrent(d: Decryption, h: seq<Option<Payload>>)
    ensures WellKeyed(CacheAfter(d, h))
    ensures match Latest(h)
            case Some(pl) => Current(d, CacheAfter(d, h), pl)
            case None => CacheAfter(d, h) == map[]
  {
    if h != [] {
      CacheIsCurrent(d, h[..|h| - 1]);
      if h[|h| - 1].Some? {
        ApplyIsCurrent(d, CacheAfter(d, h[..|h| - 1]), h[|h| - 1].value);
      }
    }
  }

  lemma OrgKeysAreFull(d: Decryption, r: SyncResponse, key: SymmetricKey)
    requires OpensFullKeys(d)
    ensures forall id | id in OrgKeysOf(d, r, key) :: OrgKeysOf(d, r, key)[id].Full()
  {
    match d.privateKey(r.privateKey, key)
    case None =>
    case Some(privateKey) => OrgKeyMapIsFull(d, r.organizations, privateKey);
  }

  /** When every payload came with a full key, every cached entry is, placement aside, the
      item that payload k decrypted from cipher c with its key for it, where k is the cycle
      the entry is held since; the key is a full one, and every non-empty value passed its
      MAC check under it. */
  lemma CachedValuesWereAuthenticated(p: Primitives, h: seq<Option<Payload>>, id: string) returns (k: nat, c: Cipher, key: SymmetricKey)
    requires forall j | 0 <= j < |h| && h[j].Some? :: h[j].value.key.Full()
    requires id in CacheAfter(DecryptionWith(p), h)
    ensures HeldSince(DecryptionWith(p), h, id, k)
    ensures c in h[k].value.response.ciphers && c.id == id
    ensures h[k].value.Reads(DecryptionWith(p), c) && h[k].value.KeyOf(DecryptionWith(p), c) == Some(key) && key.Full()
    ensures AuthenticItem(p, h[k].value.ItemFor(DecryptionWith(p), c), c, key)
    ensures SameContent(CacheAfter(DecryptionWith(p), h)[id], h[k].value.ItemFor(DecryptionWith(p), c))
  {
    var d := DecryptionWith(p);
    CacheIsHistory(d, h, id);
    k :| k >= 0 && HeldSince(d, h, id, k);
    var pl := h[k].value;
    c := Read(d, pl, id).value;
    key := pl.KeyOf(d, c).value;
    ProgramOpensFullKeys(p);
    OrgKeysAreFull(d, pl.response, pl.key);
    DecryptedItemIsAuthentic(p, c, key);
  }
}
