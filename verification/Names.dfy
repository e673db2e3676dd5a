/** Display names of organizations, folders and collections, keyed by id. */
module Names {
  import opened Wrappers
  import opened GoStrings
  import opened CipherStrings
  import opened VaultItems

  datatype NameMaps = NameMaps(
    organizations: map<string, string>,
    folders: map<string, string>,
    collections: map<string, string>)

  const EMPTY_NAMES := NameMaps(map[], map[], map[])

  /** The plaintext under the first usable key that gives a non-empty one. */
  function FirstPlain(d: Decryption, raw: string, keys: seq<SymmetricKey>): Option<string>
  {
    if keys == [] then None
    else
      var out := if keys[0].encKey == [] then None else d.str(raw, keys[0]);
      if out.Some? && out.value != "" then out else FirstPlain(d, raw, keys[1..])
  }

  /** A label is decrypted if possible and kept as it is when it was never encrypted. */
  function Label(d: Decryption, raw: string, keys: seq<SymmetricKey>): string
  {
    var t := TrimSpace(raw);
    if t == "" then ""
    else
      match FirstPlain(d, t, keys)
      case Some(out) => out
      case None => if d.isCipherString(t) then "" else t
  }

  method DecryptVaultLabel(d: Decryption, raw: string, keys: seq<SymmetricKey>) returns (shown: string)
    ensures shown == Label(d, raw, keys)
  {
    var t := TrimSpace(raw);
    if t == "" {
      return "";
    }
    for i := 0 to |keys|
      invariant FirstPlain(d, t, keys) == FirstPlain(d, t, keys[i..])
    {
      if keys[i].encKey == [] {
        continue;
      }
      var out := d.str(t, keys[i]);
      if out.Some? && out.value != "" {
        return out.value;
      }
    }
    if !d.isCipherString(t) {
      return t;
    }
    return "";
  }

  lemma {:induction false} FirstPlainFrom(d: Decryption, raw: string, keys: seq<SymmetricKey>)
    requires FirstPlain(d, raw, keys).Some?
    ensures exists k | k in keys :: d.str(raw, k) == FirstPlain(d, raw, keys)
  {
    if FirstPlain(d, raw, keys) != d.str(raw, keys[0]) {
      FirstPlainFrom(d, raw, keys[1..]);
    }
  }

  lemma {:induction false} FirstPlainIs(d: Decryption, raw: string, keys: seq<SymmetricKey>, i: nat)
    requires i < |keys| && keys[i].encKey != [] && d.str(raw, keys[i]).GetOr("") != ""
    requires forall j | 0 <= j < i :: keys[j].encKey == [] || d.str(raw, keys[j]).GetOr("") == ""
    ensures FirstPlain(d, raw, keys) == d.str(raw, keys[i])
  {
    if i > 0 {
      FirstPlainIs(d, raw, keys[1..], i - 1);
    }
  }

  /** The first usable key under which a label decrypts to something decides what is shown; */
  lemma LabelIs(d: Decryption, raw: string, keys: seq<SymmetricKey>, i: nat, out: string)
    requires TrimSpace(raw) != "" && i < |keys| && keys[i].encKey != [] && out != ""
    requires d.str(TrimSpace(raw), keys[i]) == Some(out)
    requires forall j | 0 <= j < i :: keys[j].encKey == [] || d.str(TrimSpace(raw), keys[j]).GetOr("") == ""
    ensures Label(d, raw, keys) == out
  {
    FirstPlainIs(d, TrimSpace(raw), keys, i);
  }

  lemma {:induction false} NoFirstPlain(d: Decryption, raw: string, keys: seq<SymmetricKey>)
    requires forall k | k in keys :: k.encKey == [] || d.str(raw, k).GetOr("") == ""
    ensures FirstPlain(d, raw, keys) == None
  {
    if keys != [] {
      NoFirstPlain(d, raw, keys[1..]);
    }
  }

  /** without one a label is shown as it is, trimmed, unless it is a cipher string. */
  lemma LabelFallsBack(d: Decryption, raw: string, keys: seq<SymmetricKey>)
    requires forall k | k in keys :: k.encKey == [] || d.str(TrimSpace(raw), k).GetOr("") == ""
    ensures Label(d, raw, keys) == if TrimSpace(raw) != "" && d.isCipherString(TrimSpace(raw)) then "" else TrimSpace(raw)
  {
    NoFirstPlain(d, TrimSpace(raw), keys);
  }

  /** Ciphertext is never shown: what a cipher string is labelled with, a key decrypted. */
  lemma {:induction false} LabelsAreDecrypted(d: Decryption, raw: string, keys: seq<SymmetricKey>)
    requires d.isCipherString(TrimSpace(raw)) && Label(d, raw, keys) != ""
    ensures exists k | k in keys :: d.str(TrimSpace(raw), k) == Some(Label(d, raw, keys))
  {
    FirstPlainFrom(d, TrimSpace(raw), keys);
  }

  /** Ids with their labels, the last non-empty label per id; entries without an id are
      dropped. */
  function NameMap(entries: seq<(string, string)>): map<string, string>
  {
    if entries == [] then map[]
    else
      var rest, (id, name) := NameMap(entries[..|entries| - 1]), entries[|entries| - 1];
      if id == "" || name == "" then rest else rest[id := name]
  }

  /** The map holds exactly the ids that some entry labels, */
  lemma {:induction false} NamedIff(entries: seq<(string, string)>, id: string)
    ensures id in NameMap(entries) <==> id != "" && exists e | e in entries :: e.0 == id && e.1 != ""
  {
    if entries != [] {
      var front, last := entries[..|entries| - 1], entries[|entries| - 1];
      NamedIff(front, id);
      assert entries == front + [last];
      assert last in entries && forall e | e in front :: e in entries;
    }
  }

  /** and the last entry that labels an id gives its name. */
  lemma {:induction false} LastNameWins(entries: seq<(string, string)>, i: nat)
    requires i < |entries| && entries[i].0 != "" && entries[i].1 != ""
    requires forall j | i < j < |entries| :: entries[j].0 == entries[i].0 ==> entries[j].1 == ""
    ensures entries[i].0 in NameMap(entries) && NameMap(entries)[entries[i].0] == entries[i].1
  {
    if i < |entries| - 1 {
      LastNameWins(entries[..|entries| - 1], i);
    }
  }

  lemma NameMapGrows(entries: seq<(string, string)>, i: nat)
    requires i < |entries|
    ensures var before, (id, name) := NameMap(entries[..i]), entries[i];
            NameMap(entries[..i + 1]) == if id == "" || name == "" then before else before[id := name]
  {
    assert entries[..i + 1][..i] == entries[..i];
  }

  function OrgLabelKeys(o: Organization, userKey: SymmetricKey, orgKeys: OrgKeys): seq<SymmetricKey>
  {
    [userKey] + if o.id in orgKeys then [orgKeys[o.id]] else []
  }

  function OrgEntries(d: Decryption, orgs: seq<Organization>, userKey: SymmetricKey, orgKeys: OrgKeys)
    : seq<(string, string)>
  {
    seq(|orgs|, i requires 0 <= i < |orgs| => (orgs[i].id, Label(d, orgs[i].name, OrgLabelKeys(orgs[i], userKey, orgKeys))))
  }

  function FolderEntries(d: Decryption, folders: seq<Folder>, userKey: SymmetricKey): seq<(string, string)>
  {
    seq(|folders|, i requires 0 <= i < |folders| => (folders[i].id, Label(d, folders[i].name, [userKey])))
  }

  /** A collection is labelled under the key of its organization, if that is known. */
  function CollectionLabel(d: Decryption, col: Collection, orgKeys: OrgKeys): string
  {
    if col.organizationId == "" || col.organizationId !in orgKeys then ""
    else Label(d, col.name, [orgKeys[col.organizationId]])
  }

  function CollectionEntries(d: Decryption, collections: seq<Collection>, orgKeys: OrgKeys): seq<(string, string)>
  {
    seq(|collections|, i requires 0 <= i < |collections| => (collections[i].id, CollectionLabel(d, collections[i], orgKeys)))
  }

  function NamesOf(d: Decryption, pl: Payload): NameMaps
  {
    var orgKeys := OrgKeysOf(d, pl.response, pl.key);
    NameMaps(NameMap(OrgEntries(d, pl.response.organizations, pl.key, orgKeys)),
             NameMap(FolderEntries(d, pl.response.folders, pl.key)),
             NameMap(CollectionEntries(d, pl.response.collections, orgKeys)))
  }

  /** Names of a payload: an organization's, under the user key or else its own, */
  lemma OrganizationName(d: Decryption, pl: Payload, i: nat)
    requires i < |pl.response.organizations|
    requires forall j | i < j < |pl.response.organizations| ::
               pl.response.organizations[j].id != pl.response.organizations[i].id
    ensures var o, keys := pl.response.organizations[i], OrgKeysOf(d, pl.response, pl.key);
            var name := Label(d, o.name, if o.id in keys then [pl.key, keys[o.id]] else [pl.key]);
            o.id != "" && name != "" ==>
              o.id in NamesOf(d, pl).organizations && NamesOf(d, pl).organizations[o.id] == name
  {
    var o, keys := pl.response.organizations[i], OrgKeysOf(d, pl.response, pl.key);
    assert OrgLabelKeys(o, pl.key, keys) == if o.id in keys then [pl.key, keys[o.id]] else [pl.key];
    var entries := OrgEntries(d, pl.response.organizations, pl.key, keys);
    if o.id != "" && entries[i].1 != "" {
      LastNameWins(entries, i);
    }
  }

  /** a folder's, under the user key, */
  lemma FolderName(d: Decryption, pl: Payload, i: nat)
    requires i < |pl.response.folders|
    requires forall j | i < j < |pl.response.folders| :: pl.response.folders[j].id != pl.response.folders[i].id
    ensures var f := pl.response.folders[i];
            var name := Label(d, f.name, [pl.key]);
            f.id != "" && name != "" ==> f.id in NamesOf(d, pl).folders && NamesOf(d, pl).folders[f.id] == name
  {
    var entries := FolderEntries(d, pl.response.folders, pl.key);
    if entries[i].0 != "" && entries[i].1 != "" {
      LastNameWins(entries, i);
    }
  }

  /** and a collection's, under the key of its organization. */
  lemma CollectionName(d: Decryption, pl: Payload, i: nat)
    requires i < |pl.response.collections|
    requires forall j | i < j < |pl.response.collections| ::
               pl.response.collections[j].id != pl.response.collections[i].id
    ensures var col, keys := pl.response.collections[i], OrgKeysOf(d, pl.response, pl.key);
            col.id != "" && col.organizationId != "" && col.organizationId in keys
            && Label(d, col.name, [keys[col.organizationId]]) != "" ==>
              && col.id in NamesOf(d, pl).collections
              && NamesOf(d, pl).collections[col.id] == Label(d, col.name, [keys[col.organizationId]])
  {
    var entries := CollectionEntries(d, pl.response.collections, OrgKeysOf(d, pl.response, pl.key));
    if entries[i].0 != "" && entries[i].1 != "" {
      LastNameWins(entries, i);
    }
  }

  method LabelOrg(d: Decryption, o: Organization, userKey: SymmetricKey, orgKeys: OrgKeys) returns (name: string)
    ensures name == Label(d, o.name, OrgLabelKeys(o, userKey, orgKeys))
  {
    var keys := [userKey];
    if o.id in orgKeys {
      keys := keys + [orgKeys[o.id]];
    }
    assert keys == OrgLabelKeys(o, userKey, orgKeys);
    name := DecryptVaultLabel(d, o.name, keys);
  }

  method BuildOrgNames(d: Decryption, orgs: seq<Organization>, userKey: SymmetricKey, orgKeys: OrgKeys)
    returns (out: map<string, string>)
    ensures out == NameMap(OrgEntries(d, orgs, userKey, orgKeys))
  {
    out := map[];
    ghost var entries := OrgEntries(d, orgs, userKey, orgKeys);
    for i := 0 to |orgs|
      invariant out == NameMap(entries[..i])
    {
      NameMapGrows(entries, i);
      if orgs[i].id == "" {
        continue;
      }
      var name := LabelOrg(d, orgs[i], userKey, orgKeys);
      if name == "" {
        continue;
      }
      out := out[orgs[i].id := name];
    }
    assert entries[..|orgs|] == entries;
  }

  method BuildFolderNames(d: Decryption, folders: seq<Folder>, userKey: SymmetricKey) returns (out: map<string, string>)
    ensures out == NameMap(FolderEntries(d, folders, userKey))
  {
    out := map[];
    ghost var entries := FolderEntries(d, folders, userKey);
    for i := 0 to |folders|
      invariant out == NameMap(entries[..i])
    {
      NameMapGrows(entries, i);
      if folders[i].id == "" {
        continue;
      }
      var name := DecryptVaultLabel(d, folders[i].name, [userKey]);
      if name == "" {
        continue;
      }
      out := out[folders[i].id := name];
    }
    assert entries[..|folders|] == entries;
  }

  method LabelCollection(d: Decryption, col: Collection, orgKeys: OrgKeys) returns (name: string)
    ensures name == CollectionLabel(d, col, orgKeys)
  {
    if col.organizationId == "" || col.organizationId !in orgKeys {
      return "";
    }
    name := DecryptVaultLabel(d, col.name, [orgKeys[col.organizationId]]);
  }

  method BuildCollectionNames(d: Decryption, collections: seq<Collection>, orgKeys: OrgKeys)
    returns (out: map<string, string>)
    ensures out == NameMap(CollectionEntries(d, collections, orgKeys))
  {
    out := map[];
    ghost var entries := CollectionEntries(d, collections, orgKeys);
    for i := 0 to |collections|
      invariant out == NameMap(entries[..i])
    {
      NameMapGrows(entries, i);
      if collections[i].id == "" {
        continue;
      }
      var name := LabelCollection(d, collections[i], orgKeys);
      if name == "" {
        continue;
      }
      out := out[collections[i].id := name];
    }
    assert entries[..|collections|] == entries;
  }

  method BuildSyncNameMaps(d: Decryption, pl: Payload, orgKeys: OrgKeys) returns (out: NameMaps)
    requires orgKeys == OrgKeysOf(d, pl.response, pl.key)
    ensures out == NamesOf(d, pl)
  {
    var organizations := BuildOrgNames(d, pl.response.organizations, pl.key, orgKeys);
    var folders := BuildFolderNames(d, pl.response.folders, pl.key);
    var collections := BuildCollectionNames(d, pl.response.collections, orgKeys);
    return NameMaps(organizations, folders, collections);
  }

  /** No empty id and no empty name. */
  ghost predicate Clean(m: map<string, string>) {
    forall id | id in m :: id != "" && m[id] != ""
  }

  ghost predicate CleanNames(n: NameMaps) {
    Clean(n.organizations) && Clean(n.folders) && Clean(n.collections)
  }

  lemma {:induction false} NameMapIsClean(entries: seq<(string, string)>)
    ensures Clean(NameMap(entries))
  {
    if entries != [] {
      NameMapIsClean(entries[..|entries| - 1]);
    }
  }

  lemma NamesAreClean(d: Decryption, pl: Payload)
    ensures CleanNames(NamesOf(d, pl))
  {
    var orgKeys := OrgKeysOf(d, pl.response, pl.key);
    NameMapIsClean(OrgEntries(d, pl.response.organizations, pl.key, orgKeys));
    NameMapIsClean(FolderEntries(d, pl.response.folders, pl.key));
    NameMapIsClean(CollectionEntries(d, pl.response.collections, orgKeys));
  }
}
