/** The guard that keeps a payload nobody can read from replacing the cache, and where it
    does not. */
module SyncGuard {
  import opened Wrappers
  import opened CipherStrings
  import opened VaultItems
  import opened Reconcile
  import opened VaultClient

  /** No cipher of the payload is both live and decryptable. */
  ghost predicate NothingReads(d: Decryption, pl: Payload) {
    forall c | c in pl.response.ciphers :: !pl.Reads(d, c)
  }

  /** Every cipher is trashed or carries no id. */
  ghost predicate NothingNamed(pl: Payload) {
    forall c | c in pl.response.ciphers :: Trashed(c) || c.id == ""
  }

  lemma {:induction false} NoItems(d: Decryption, pl: Payload, ciphers: seq<Cipher>)
    requires forall c | c in ciphers :: !pl.Reads(d, c)
    ensures ItemsOf(d, pl, ciphers) == []
  {
    if ciphers != [] {
      NoItems(d, pl, ciphers[..|ciphers| - 1]);
    }
  }

  lemma {:induction false} NoFailures(d: Decryption, pl: Payload, ciphers: seq<Cipher>)
    requires forall c | c in ciphers :: !pl.Fails(d, c)
    ensures FailuresOf(d, pl, ciphers) == []
  {
    if ciphers != [] {
      NoFailures(d, pl, ciphers[..|ciphers| - 1]);
    }
  }

  lemma {:induction false} SomeFailure(d: Decryption, pl: Payload, ciphers: seq<Cipher>, i: nat)
    requires i < |ciphers| && pl.Fails(d, ciphers[i])
    ensures FailuresOf(d, pl, ciphers) != []
  {
    if i < |ciphers| - 1 {
      SomeFailure(d, pl, ciphers[..|ciphers| - 1], i);
    }
  }

  /** A payload of which nothing can be read passes the guard exactly if none of its live
      ciphers carries an id, */
  lemma GuardIff(d: Decryption, pl: Payload)
    requires NothingReads(d, pl)
    ensures OutcomeOf(d, Some(pl)).Synced? <==> NothingNamed(pl)
  {
    var ciphers := pl.response.ciphers;
    NoItems(d, pl, ciphers);
    if NothingNamed(pl) {
      NoFailures(d, pl, ciphers);
    } else {
      var i :| 0 <= i < |ciphers| && !Trashed(ciphers[i]) && ciphers[i].id != "";
      SomeFailure(d, pl, ciphers, i);
    }
  }

  /** and then it empties the cache. */
  lemma PassingEmptiesCache(d: Decryption, prior: Cache, pl: Payload)
    requires NothingReads(d, pl) && OutcomeOf(d, Some(pl)).Synced?
    ensures Apply(d, prior, Some(pl)) == map[]
  {
    var ciphers := pl.response.ciphers;
    NoItems(d, pl, ciphers);
    assert FailuresOf(d, pl, ciphers) == [];
  }

  lemma {:induction false} SomeItem(d: Decryption, pl: Payload, ciphers: seq<Cipher>, i: nat)
    requires i < |ciphers| && pl.Reads(d, ciphers[i])
    ensures ItemsOf(d, pl, ciphers) != []
  {
    if i < |ciphers| - 1 {
      SomeItem(d, pl, ciphers[..|ciphers| - 1], i);
    }
  }

  /** A payload of which anything can be read always gets past it, whatever else fails. */
  lemma ReadingSyncs(d: Decryption, pl: Payload)
    requires !NothingReads(d, pl)
    ensures OutcomeOf(d, Some(pl)).Synced?
  {
    var ciphers := pl.response.ciphers;
    var i :| 0 <= i < |ciphers| && pl.Reads(d, ciphers[i]);
    SomeItem(d, pl, ciphers, i);
  }

  const BLANK := Cipher("", 1, None, [], None, "", None, None, None, [])

  /** One cipher, which decrypts to an item without values, and one whose name is no
      cipher string, and which carries no id. */
  function GoodPayload(key: SymmetricKey): Payload
  {
    Payload(SyncResponse("", [], [BLANK.(id := "1")], [], []), key)
  }

  function BadPayload(key: SymmetricKey): Payload
  {
    Payload(SyncResponse("", [], [BLANK.(name := "x")], [], []), key)
  }

  lemma GoodIsCached(p: Primitives, key: SymmetricKey)
    ensures "1" in CacheAfter(DecryptionWith(p), [Some(GoodPayload(key))])
  {
    var d, good := DecryptionWith(p), GoodPayload(key);
    assert good.Reads(d, good.response.ciphers[0]);
    assert Read(d, good, "1").Some?;
    ApplyAt(d, map[], good, "1");
    assert [Some(good)][..0] == [];
  }

  lemma BadReadsNothing(p: Primitives, key: SymmetricKey)
    ensures NothingReads(DecryptionWith(p), BadPayload(key)) && NothingNamed(BadPayload(key))
  {
    var bad := BadPayload(key);
    assert '.' !in "x";
    assert Parse("x").Err?;
    assert forall c | c in bad.response.ciphers :: c == bad.response.ciphers[0];
  }

  /** A live cipher that cannot be read gets past the guard, and the cached item is gone. */
  lemma GuardCanBePassed(p: Primitives, key: SymmetricKey)
    ensures var d, good, bad := DecryptionWith(p), GoodPayload(key), BadPayload(key);
            && "1" in CacheAfter(d, [Some(good)])
            && !Trashed(bad.response.ciphers[0])
            && NothingReads(d, bad)
            && OutcomeOf(d, Some(bad)).Synced?
            && CacheAfter(d, [Some(good), Some(bad)]) == map[]
  {
    var d, good, bad := DecryptionWith(p), GoodPayload(key), BadPayload(key);
    GoodIsCached(p, key);
    BadReadsNothing(p, key);
    GuardIff(d, bad);
    PassingEmptiesCache(d, CacheAfter(d, [Some(good)]), bad);
    assert [Some(good), Some(bad)][..1] == [Some(good)];
  }
}
