/** The sync payload and its decryption into vault items. */
module VaultItems {
  import opened Wrappers
  import opened GoStrings
  import opened CipherStrings
  import opened SealedStrings
  import opened VaultKeys

  const FIELD_LINKED := 3

  datatype Field = Field(name: Option<string>, value: Option<string>, kind: int)

  datatype LoginData = LoginData(
    username: Option<string>,
    password: Option<string>,
    uri: Option<string>,
    uris: seq<Option<string>>)

  datatype Cipher = Cipher(
    id: string,
    kind: int,
    organizationId: Option<string>,
    collectionIds: seq<string>,
    folderId: Option<string>,
    name: string,
    deletedDate: Option<string>,
    notes: Option<string>,
    login: Option<LoginData>,
    fields: seq<Field>)

  datatype Organization = Organization(id: string, name: string, key: string)

  datatype Collection = Collection(id: string, organizationId: string, name: string)

  datatype Folder = Folder(id: string, name: string)

  datatype SyncResponse = SyncResponse(
    privateKey: string,
    organizations: seq<Organization>,
    ciphers: seq<Cipher>,
    collections: seq<Collection>,
    folders: seq<Folder>)

  /** Where an item lives in the vault. */
  datatype Placement = Placement(organizationId: string, collectionIds: seq<string>, folderId: string)

  datatype Item = Item(
    id: string,
    kind: int,
    name: string,
    username: string,
    password: string,
    notes: string,
    uri: string,
    fields: map<string, string>,
    place: Placement)

  datatype FailedCipher = FailedCipher(id: string, place: Placement)

  // ---- One cipher ----

  function OrEmpty(s: Option<string>): string
  {
    if s.Some? then s.value else ""
  }

  /** The plaintext placement a payload reports for a cipher, trimmed. */
  function PlacementOf(c: Cipher): Placement
  {
    Placement(TrimSpace(OrEmpty(c.organizationId)), c.collectionIds, TrimSpace(OrEmpty(c.folderId)))
  }

  predicate Trashed(c: Cipher) {
    TrimSpace(OrEmpty(c.deletedDate)) != ""
  }

  /** How strings and keys of a payload are decrypted; None is a failure. */
  datatype Decryption = Decryption(
    str: (string, SymmetricKey) -> Option<string>,
    privateKey: (string, SymmetricKey) -> Option<PrivateKey>,
    orgKey: (string, PrivateKey) -> Option<SymmetricKey>,
    isCipherString: string -> bool)

  function ToOption<R, E>(r: Result<R, E>): Option<R>
  {
    if r.Ok? then Some(r.value) else None
  }

  /** The decryption of the program. */
  function DecryptionWith(p: Primitives): Decryption
  {
    Decryption(
      (s, key) => ToOption(DecryptStr(p, s, key)),
      (s, key) => ToOption(DecryptPrivateKey(p, s, key)),
      (s, privateKey) => ToOption(DecryptOrgKey(p, s, privateKey)),
      s => Parse(s).Ok?)
  }

  /** A string decrypts to what the cipher string it spells does; the empty one to itself. */
  lemma StringsDecrypt(p: Primitives, s: string, key: SymmetricKey, v: string)
    ensures DecryptionWith(p).str(s, key) == Some(v)
       <==> if s == "" then v == ""
            else
              && Parse(s).Ok? && Decrypted(p, Parse(s).value, key).Ok?
              && var plain := Decrypted(p, Parse(s).value, key).value;
                 |v| == |plain| && forall i | 0 <= i < |v| :: v[i] as int == plain[i]
  {
    if Parse(s).Ok? && Decrypted(p, Parse(s).value, key).Ok? {
      TextIs(Decrypted(p, Parse(s).value, key).value, v);
    }
  }

  /** A value whose decryption failure fails the whole cipher. */
  predicate Readable(d: Decryption, s: Option<string>, key: SymmetricKey) {
    s.Some? ==> d.str(s.value, key).Some?
  }

  /** The decrypted value, or the empty string when it is absent or fails. */
  function Plain(d: Decryption, s: Option<string>, key: SymmetricKey): string
  {
    if s.Some? && d.str(s.value, key).Some? then d.str(s.value, key).value else ""
  }

  /** Every value the service can serve decrypts. */
  predicate Decryptable(d: Decryption, c: Cipher, key: SymmetricKey) {
    && Readable(d, Some(c.name), key)
    && Readable(d, c.notes, key)
    && (c.login.Some? ==> Readable(d, c.login.value.password, key))
    && forall f | f in c.fields && f.kind != FIELD_LINKED :: Readable(d, f.value, key)
  }

  /** A custom field counts when it is not linked and its name decrypts to something. */
  predicate Named(d: Decryption, f: Field, key: SymmetricKey) {
    f.kind != FIELD_LINKED && Plain(d, f.name, key) != ""
  }

  function FieldMap(d: Decryption, fields: seq<Field>, key: SymmetricKey): map<string, string>
  {
    if fields == [] then map[]
    else
      var rest, f := FieldMap(d, fields[..|fields| - 1], key), fields[|fields| - 1];
      if Named(d, f, key) then rest[Plain(d, f.name, key) := Plain(d, f.value, key)] else rest
  }

  function UriOf(d: Decryption, l: LoginData, key: SymmetricKey): string
  {
    var uri := Plain(d, l.uri, key);
    if uri == "" && l.uris != [] then Plain(d, l.uris[0], key) else uri
  }

  function ItemOf(d: Decryption, c: Cipher, key: SymmetricKey): Item
  {
    Item(c.id, c.kind, Plain(d, Some(c.name), key),
         if c.login.Some? then Plain(d, c.login.value.username, key) else "",
         if c.login.Some? then Plain(d, c.login.value.password, key) else "",
         Plain(d, c.notes, key),
         if c.login.Some? then UriOf(d, c.login.value, key) else "",
         FieldMap(d, c.fields, key),
         PlacementOf(c))
  }

  /** A counting field of this name. */
  predicate Sets(d: Decryption, f: Field, key: SymmetricKey, name: string) {
    Named(d, f, key) && Plain(d, f.name, key) == name
  }

  /** The map holds exactly the names some field sets, */
  lemma {:induction false} FieldMapNames(d: Decryption, fields: seq<Field>, key: SymmetricKey, name: string)
    ensures name in FieldMap(d, fields, key) <==> exists f | f in fields :: Sets(d, f, key, name)
  {
    if fields != [] {
      var front, last := fields[..|fields| - 1], fields[|fields| - 1];
      FieldMapNames(d, front, key, name);
      assert fields == front + [last];
      assert last in fields && forall f | f in front :: f in fields;
    }
  }

  /** and the last field that sets a name gives its value. */
  lemma {:induction false} LastFieldWins(d: Decryption, fields: seq<Field>, key: SymmetricKey, name: string, i: nat)
    requires i < |fields| && Sets(d, fields[i], key, name)
    requires forall j | i < j < |fields| :: !Sets(d, fields[j], key, name)
    ensures name in FieldMap(d, fields, key)
    ensures FieldMap(d, fields, key)[name] == Plain(d, fields[i].value, key)
  {
    if i < |fields| - 1 {
      LastFieldWins(d, fields[..|fields| - 1], key, name, i);
    }
  }

  /** One field of a cipher in the item: its decrypted name leads to its decrypted value,
      unless the field is linked, has no name, or a later field has the same name. */
  lemma FieldHolds(d: Decryption, fields: seq<Field>, key: SymmetricKey, i: nat, name: string)
    requires i < |fields| && fields[i].kind != 3 && name != ""
    requires fields[i].name.Some? && d.str(fields[i].name.value, key) == Some(name)
    requires forall j | i < j < |fields| && fields[j].kind != 3 && fields[j].name.Some? ::
               d.str(fields[j].name.value, key) != Some(name)
    ensures name in FieldMap(d, fields, key)
    ensures match fields[i].value
            case None => FieldMap(d, fields, key)[name] == ""
            case Some(v) => d.str(v, key).Some? ==> FieldMap(d, fields, key)[name] == d.str(v, key).value
  {
    LastFieldWins(d, fields, key, name, i);
  }

  /** A cipher decrypts exactly if its name and whichever it has of notes, password and
      values of fields that are not linked do. */
  lemma DecryptableIff(d: Decryption, c: Cipher, key: SymmetricKey)
    ensures Decryptable(d, c, key)
       <==> && d.str(c.name, key).Some?
            && (c.notes.Some? ==> d.str(c.notes.value, key).Some?)
            && (c.login.Some? && c.login.value.password.Some? ==> d.str(c.login.value.password.value, key).Some?)
            && forall f | f in c.fields && f.kind != 3 && f.value.Some? :: d.str(f.value.value, key).Some?
  {
  }

  /** What its item holds: the decrypted values, and the identifiers of organization and
      folder trimmed. What the cipher does not have is empty, and so is a user name or
      location that does not decrypt. */
  lemma ItemHolds(d: Decryption, c: Cipher, key: SymmetricKey)
    requires Decryptable(d, c, key)
    ensures var item := ItemOf(d, c, key);
            && item.id == c.id && item.kind == c.kind
            && d.str(c.name, key) == Some(item.name)
            && (if c.notes.Some? then d.str(c.notes.value, key) == Some(item.notes) else item.notes == "")
            && item.fields == FieldMap(d, c.fields, key)
            && item.place.organizationId == (if c.organizationId.Some? then TrimSpace(c.organizationId.value) else "")
            && item.place.collectionIds == c.collectionIds
            && item.place.folderId == (if c.folderId.Some? then TrimSpace(c.folderId.value) else "")
    ensures c.login.None? ==> var item := ItemOf(d, c, key); item.username == item.password == item.uri == ""
    ensures c.login.Some? ==>
              var item, l := ItemOf(d, c, key), c.login.value;
              && (if l.password.Some? then d.str(l.password.value, key) == Some(item.password) else item.password == "")
              && item.username == (if l.username.Some? then d.str(l.username.value, key).GetOr("") else "")
              && (l.uri.Some? && d.str(l.uri.value, key).GetOr("") != "" ==> item.uri == d.str(l.uri.value, key).value)
              && (l.uri.None? || d.str(l.uri.value, key).GetOr("") == "" ==>
                    item.uri == if l.uris != [] && l.uris[0].Some? then d.str(l.uris[0].value, key).GetOr("") else "")
  {
    assert TrimSpace("") == "";
  }

  method DecryptFields(d: Decryption, fields: seq<Field>, key: SymmetricKey) returns (r: Option<map<string, string>>)
    ensures r == if forall f | f in fields && f.kind != FIELD_LINKED :: Readable(d, f.value, key)
                 then Some(FieldMap(d, fields, key)) else None
  {
    var m: map<string, string> := map[];
    for i := 0 to |fields|
      invariant m == FieldMap(d, fields[..i], key)
      invariant forall k | 0 <= k < i && fields[k].kind != FIELD_LINKED :: Readable(d, fields[k].value, key)
    {
      assert fields[..i + 1][..i] == fields[..i];
      var f := fields[i];
      if f.kind == FIELD_LINKED {
        continue;
      }
      var name, value := Plain(d, f.name, key), "";
      if f.value.Some? {
        var v := d.str(f.value.value, key);
        if v.None? {
          assert f in fields && !Readable(d, f.value, key);
          return None;
        }
        value := v.value;
      }
      if name != "" {
        m := m[name := value];
      }
    }
    assert fields[..|fields|] == fields;
    return Some(m);
  }

  method DecryptCipher(d: Decryption, c: Cipher, key: SymmetricKey) returns (r: Option<Item>)
    ensures r == if Decryptable(d, c, key) then Some(ItemOf(d, c, key)) else None
  {
    var item := Item(c.id, c.kind, "", "", "", "", "", map[], Placement("", [], ""));
    var name := d.str(c.name, key);
    if name.None? {
      return None;
    }
    item := item.(name := name.value);
    if c.notes.Some? {
      var notes := d.str(c.notes.value, key);
      if notes.None? {
        return None;
      }
      item := item.(notes := notes.value);
    }
    if c.login.Some? {
      var l := c.login.value;
      if l.password.Some? {
        var password := d.str(l.password.value, key);
        if password.None? {
          return None;
        }
        item := item.(password := password.value);
      }
      item := item.(username := Plain(d, l.username, key));
      item := item.(uri := Plain(d, l.uri, key));
      if item.uri == "" && |l.uris| > 0 && l.uris[0].Some? {
        item := item.(uri := Plain(d, l.uris[0], key));
      }
    }
    var fields := DecryptFields(d, c.fields, key);
    if fields.None? {
      return None;
    }
    item := item.(fields := fields.value);
    item := item.(place := PlacementOf(c));
    return Some(item);
  }

  // ---- Authenticity ----

  /** A value is empty or the decryption of a string whose MAC was checked under key. */
  ghost predicate Authentic(p: Primitives, value: string, s: Option<string>, key: SymmetricKey) {
    value != "" ==> s.Some? && DecryptStr(p, s.value, key) == Ok(value) && MacChecked(p, s.value, key)
  }

  lemma PlainIsAuthentic(p: Primitives, s: Option<string>, key: SymmetricKey)
    requires key.Full()
    ensures Authentic(p, Plain(DecryptionWith(p), s, key), s, key)
  {
    if Plain(DecryptionWith(p), s, key) != "" {
      DecryptionAuthenticates(p, s.value, key);
    }
  }

  ghost predicate AuthenticFields(p: Primitives, m: map<string, string>, fields: seq<Field>, key: SymmetricKey) {
    forall n | n in m :: exists f | f in fields :: Authentic(p, n, f.name, key) && Authentic(p, m[n], f.value, key)
  }

  /** Every non-empty value of the item stems from a string of the cipher whose MAC holds. */
  ghost predicate AuthenticItem(p: Primitives, item: Item, c: Cipher, key: SymmetricKey) {
    && Authentic(p, item.name, Some(c.name), key)
    && Authentic(p, item.notes, c.notes, key)
    && (c.login.None? ==> item.username == item.password == item.uri == "")
    && (c.login.Some? ==>
          var l := c.login.value;
          && Authentic(p, item.username, l.username, key)
          && Authentic(p, item.password, l.password, key)
          && (Authentic(p, item.uri, l.uri, key) || (l.uris != [] && Authentic(p, item.uri, l.uris[0], key))))
    && AuthenticFields(p, item.fields, c.fields, key)
  }

  lemma {:induction false} FieldsAreAuthentic(p: Primitives, fields: seq<Field>, key: SymmetricKey)
    requires key.Full()
    ensures AuthenticFields(p, FieldMap(DecryptionWith(p), fields, key), fields, key)
  {
    if fields != [] {
      var front, f := fields[..|fields| - 1], fields[|fields| - 1];
      FieldsAreAuthentic(p, front, key);
      PlainIsAuthentic(p, f.name, key);
      PlainIsAuthentic(p, f.value, key);
      assert f in fields && forall g | g in front :: g in fields;
    }
  }

  lemma DecryptedItemIsAuthentic(p: Primitives, c: Cipher, key: SymmetricKey)
    requires key.Full()
    ensures AuthenticItem(p, ItemOf(DecryptionWith(p), c, key), c, key)
  {
    PlainIsAuthentic(p, Some(c.name), key);
    PlainIsAuthentic(p, c.notes, key);
    if c.login.Some? {
      var l := c.login.value;
      PlainIsAuthentic(p, l.username, key);
      PlainIsAuthentic(p, l.password, key);
      PlainIsAuthentic(p, l.uri, key);
      if l.uris != [] {
        PlainIsAuthentic(p, l.uris[0], key);
      }
    }
    FieldsAreAuthentic(p, c.fields, key);
  }

  // ---- The whole payload ----

  type OrgKeys = map<string, SymmetricKey>

  /** Organization keys, last decryptable one per id. */
  function OrgKeyMap(d: Decryption, orgs: seq<Organization>, privateKey: PrivateKey): OrgKeys
  {
    if orgs == [] then map[]
    else
      var rest, org := OrgKeyMap(d, orgs[..|orgs| - 1], privateKey), orgs[|orgs| - 1];
      match d.orgKey(org.key, privateKey)
      case Some(k) => rest[org.id := k]
      case None => rest
  }

  /** The map holds exactly the ids of organizations whose key opens, */
  lemma {:induction false} OrgKeyMapIds(d: Decryption, orgs: seq<Organization>, privateKey: PrivateKey, id: string)
    ensures id in OrgKeyMap(d, orgs, privateKey) <==> exists o | o in orgs :: o.id == id && d.orgKey(o.key, privateKey).Some?
  {
    if orgs != [] {
      var front, last := orgs[..|orgs| - 1], orgs[|orgs| - 1];
      OrgKeyMapIds(d, front, privateKey, id);
      assert orgs == front + [last];
      assert last in orgs && forall o | o in front :: o in orgs;
    }
  }

  /** and the last one of an id gives its key. */
  lemma {:induction false} LastOrgKeyWins(d: Decryption, orgs: seq<Organization>, privateKey: PrivateKey, i: nat)
    requires i < |orgs| && d.orgKey(orgs[i].key, privateKey).Some?
    requires forall j | i < j < |orgs| :: orgs[j].id == orgs[i].id ==> d.orgKey(orgs[j].key, privateKey).None?
    ensures orgs[i].id in OrgKeyMap(d, orgs, privateKey)
    ensures OrgKeyMap(d, orgs, privateKey)[orgs[i].id] == d.orgKey(orgs[i].key, privateKey).value
  {
    if i < |orgs| - 1 {
      LastOrgKeyWins(d, orgs[..|orgs| - 1], privateKey, i);
    }
  }

  function OrgKeysOf(d: Decryption, r: SyncResponse, key: SymmetricKey): OrgKeys
  {
    if r.organizations == [] || r.privateKey == "" then map[]
    else
      match d.privateKey(r.privateKey, key)
      case None => map[]
      case Some(privateKey) => OrgKeyMap(d, r.organizations, privateKey)
  }

  ghost predicate OpensFullKeys(d: Decryption) {
    forall s, privateKey :: d.orgKey(s, privateKey).Some? ==> d.orgKey(s, privateKey).value.Full()
  }

  lemma ProgramOpensFullKeys(p: Primitives)
    ensures OpensFullKeys(DecryptionWith(p))
  {
    forall s, privateKey | DecryptionWith(p).orgKey(s, privateKey).Some?
      ensures DecryptionWith(p).orgKey(s, privateKey).value.Full()
    {
      OrgKeyIsFull(p, s, privateKey);
    }
  }

  lemma {:induction false} OrgKeyMapIsFull(d: Decryption, orgs: seq<Organization>, privateKey: PrivateKey)
    requires OpensFullKeys(d)
    ensures forall id | id in OrgKeyMap(d, orgs, privateKey) :: OrgKeyMap(d, orgs, privateKey)[id].Full()
  {
    if orgs != [] {
      OrgKeyMapIsFull(d, orgs[..|orgs| - 1], privateKey);
    }
  }

  /** The key a cipher is decrypted with; None when its organization has no key. */
  function KeyFor(c: Cipher, key: SymmetricKey, orgKeys: OrgKeys): Option<SymmetricKey>
  {
    var org := OrEmpty(c.organizationId);
    if org == "" then Some(key)
    else if org in orgKeys then Some(orgKeys[org])
    else None
  }

  /** An applied payload: the response and the key it was decrypted with. */
  datatype Payload = Payload(response: SyncResponse, key: SymmetricKey) {
    function KeyOf(d: Decryption, c: Cipher): Option<SymmetricKey>
    {
      KeyFor(c, key, OrgKeysOf(d, response, key))
    }

    /** A live cipher that decrypts. */
    predicate Reads(d: Decryption, c: Cipher)
    {
      !Trashed(c) && KeyOf(d, c).Some? && Decryptable(d, c, KeyOf(d, c).value)
    }

    /** A live cipher, with an id, that does not decrypt. */
    predicate Fails(d: Decryption, c: Cipher)
    {
      !Trashed(c) && !Reads(d, c) && c.id != ""
    }

    function ItemFor(d: Decryption, c: Cipher): Item
      requires Reads(d, c)
    {
      ItemOf(d, c, KeyOf(d, c).value)
    }
  }

  /** Where the organization keys of a payload come from. */
  lemma OrgKeysAre(d: Decryption, r: SyncResponse, key: SymmetricKey, id: string)
    ensures id in OrgKeysOf(d, r, key)
       <==> && r.privateKey != "" && d.privateKey(r.privateKey, key).Some?
            && exists o | o in r.organizations ::
                 o.id == id && d.orgKey(o.key, d.privateKey(r.privateKey, key).value).Some?
  {
    if r.privateKey != "" && d.privateKey(r.privateKey, key).Some? {
      OrgKeyMapIds(d, r.organizations, d.privateKey(r.privateKey, key).value, id);
    }
  }

  /** A cipher of no organization is decrypted with the user key, any other one with the key
      of its organization. */
  lemma KeyOfIs(d: Decryption, pl: Payload, c: Cipher)
    ensures pl.KeyOf(d, c)
         == if c.organizationId.None? || c.organizationId.value == "" then Some(pl.key)
            else if c.organizationId.value in OrgKeysOf(d, pl.response, pl.key)
            then Some(OrgKeysOf(d, pl.response, pl.key)[c.organizationId.value])
            else None
  {
  }

  /** A cipher is read exactly if no non-blank deletion date is on it, its key is known and
      it decrypts; it is a failure exactly if only the latter is amiss and it has an id. */
  lemma ReadsAndFails(d: Decryption, pl: Payload, c: Cipher)
    ensures var trashed := c.deletedDate.Some? && TrimSpace(c.deletedDate.value) != "";
            && (pl.Reads(d, c) <==> !trashed && pl.KeyOf(d, c).Some? && Decryptable(d, c, pl.KeyOf(d, c).value))
            && (pl.Fails(d, c) <==> !trashed && c.id != ""
                                    && (pl.KeyOf(d, c).Some? ==> !Decryptable(d, c, pl.KeyOf(d, c).value)))
  {
    assert TrimSpace("") == "";
  }

  function ItemsOf(d: Decryption, pl: Payload, ciphers: seq<Cipher>): seq<Item>
  {
    if ciphers == [] then []
    else
      var c := ciphers[|ciphers| - 1];
      ItemsOf(d, pl, ciphers[..|ciphers| - 1]) + if pl.Reads(d, c) then [pl.ItemFor(d, c)] else []
  }

  function FailuresOf(d: Decryption, pl: Payload, ciphers: seq<Cipher>): seq<FailedCipher>
  {
    if ciphers == [] then []
    else
      var c := ciphers[|ciphers| - 1];
      FailuresOf(d, pl, ciphers[..|ciphers| - 1]) + if pl.Fails(d, c) then [FailedCipher(c.id, PlacementOf(c))] else []
  }

  method DecryptOrgKeys(d: Decryption, r: SyncResponse, key: SymmetricKey) returns (orgKeys: OrgKeys)
    ensures orgKeys == OrgKeysOf(d, r, key)
  {
    orgKeys := map[];
    if |r.organizations| > 0 && r.privateKey != "" {
      var privateKey := d.privateKey(r.privateKey, key);
      if privateKey.Some? {
        for i := 0 to |r.organizations|
          invariant orgKeys == OrgKeyMap(d, r.organizations[..i], privateKey.value)
        {
          assert r.organizations[..i + 1][..i] == r.organizations[..i];
          var org := r.organizations[i];
          var orgKey := d.orgKey(org.key, privateKey.value);
          if orgKey.None? {
            continue;
          }
          orgKeys := orgKeys[org.id := orgKey.value];
        }
        assert r.organizations[..|r.organizations|] == r.organizations;
      }
    }
  }

  /** One turn of the decryption loop. */
  method DecryptOne(d: Decryption, pl: Payload, orgKeys: OrgKeys, c: Cipher)
    returns (item: Option<Item>, failure: Option<FailedCipher>)
    requires orgKeys == OrgKeysOf(d, pl.response, pl.key)
    ensures item == if pl.Reads(d, c) then Some(pl.ItemFor(d, c)) else None
    ensures failure == if pl.Fails(d, c) then Some(FailedCipher(c.id, PlacementOf(c))) else None
  {
    item, failure := None, None;
    if c.deletedDate.Some? && TrimSpace(c.deletedDate.value) != "" {
      return;
    }
    assert TrimSpace("") == "";
    var decryptKey := pl.key;
    if c.organizationId.Some? && c.organizationId.value != "" {
      if c.organizationId.value in orgKeys {
        decryptKey := orgKeys[c.organizationId.value];
      } else {
        if c.id != "" {
          failure := Some(FailedCipher(c.id, PlacementOf(c)));
        }
        return;
      }
    }
    assert pl.KeyOf(d, c) == Some(decryptKey);
    item := DecryptCipher(d, c, decryptKey);
    if item.None? && c.id != "" {
      failure := Some(FailedCipher(c.id, PlacementOf(c)));
    }
  }

  /** The lists grown so far and the i-th cipher. */
  method DecryptNext(d: Decryption, pl: Payload, orgKeys: OrgKeys, ciphers: seq<Cipher>, i: nat, read: seq<Item>,
                     unread: seq<FailedCipher>)
    returns (items: seq<Item>, failed: seq<FailedCipher>)
    requires i < |ciphers| && orgKeys == OrgKeysOf(d, pl.response, pl.key)
    requires read == ItemsOf(d, pl, ciphers[..i]) && unread == FailuresOf(d, pl, ciphers[..i])
    ensures items == ItemsOf(d, pl, ciphers[..i + 1]) && failed == FailuresOf(d, pl, ciphers[..i + 1])
  {
    var item, failure := DecryptOne(d, pl, orgKeys, ciphers[i]);
    assert ciphers[..i + 1][..i] == ciphers[..i];
    items := if item.Some? then read + [item.value] else read;
    failed := if failure.Some? then unread + [failure.value] else unread;
  }

  method DecryptAll(d: Decryption, pl: Payload, orgKeys: OrgKeys) returns (items: seq<Item>, failed: seq<FailedCipher>)
    requires orgKeys == OrgKeysOf(d, pl.response, pl.key)
    ensures items == ItemsOf(d, pl, pl.response.ciphers)
    ensures failed == FailuresOf(d, pl, pl.response.ciphers)
  {
    items, failed := [], [];
    var ciphers := pl.response.ciphers;
    for i := 0 to |ciphers|
      invariant items == ItemsOf(d, pl, ciphers[..i])
      invariant failed == FailuresOf(d, pl, ciphers[..i])
    {
      items, failed := DecryptNext(d, pl, orgKeys, ciphers, i, items, failed);
    }
    assert ciphers[..|ciphers|] == ciphers;
  }
}
