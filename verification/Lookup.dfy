/** Which secret a name stands for, who may see it, and why a lookup missed. */
module Lookup {
  import opened Wrappers
  import opened GoStrings
  import opened Sorting
  import opened VaultItems
  import opened Reconcile
  import opened Names

  // ---- Visibility ----

  /** Singular fields are the caller's query, plural fields the key's scope; an empty
      field constrains nothing. */
  datatype SecretFilter = SecretFilter(
    organizationId: string,
    collectionId: string,
    folderId: string,
    organizationIds: seq<string>,
    collectionIds: seq<string>)

  const NO_FILTER := SecretFilter("", "", "", [], [])

  predicate ContainsFold(cs: Casing, ids: seq<string>, target: string) {
    exists id | id in ids :: cs.fold(id, target)
  }

  predicate IntersectsFold(cs: Casing, a: seq<string>, b: seq<string>) {
    exists id | id in a :: ContainsFold(cs, b, id)
  }

  predicate Matches(cs: Casing, item: Item, f: SecretFilter) {
    && (f.organizationId != "" ==> cs.fold(item.place.organizationId, f.organizationId))
    && (f.collectionId != "" ==> ContainsFold(cs, item.place.collectionIds, f.collectionId))
    && (f.folderId != "" ==> cs.fold(item.place.folderId, f.folderId))
    && (f.organizationIds != [] ==> ContainsFold(cs, f.organizationIds, item.place.organizationId))
    && (f.collectionIds != [] ==> IntersectsFold(cs, item.place.collectionIds, f.collectionIds))
  }

  /** A visible item belongs, up to case, to whatever the filter names in each dimension. */
  lemma MatchesIff(cs: Casing, item: Item, f: SecretFilter)
    ensures Matches(cs, item, f)
       <==> && (f.organizationId == "" || cs.fold(item.place.organizationId, f.organizationId))
            && (f.collectionId == "" || exists c | c in item.place.collectionIds :: cs.fold(c, f.collectionId))
            && (f.folderId == "" || cs.fold(item.place.folderId, f.folderId))
            && (f.organizationIds == [] || exists o | o in f.organizationIds :: cs.fold(o, item.place.organizationId))
            && (f.collectionIds == []
                || exists c, k | c in item.place.collectionIds && k in f.collectionIds :: cs.fold(k, c))
  {
    if c, k :| c in item.place.collectionIds && k in f.collectionIds && cs.fold(k, c) {
      assert ContainsFold(cs, f.collectionIds, c);
    }
  }

  function Visible(cs: Casing, m: Cache, f: SecretFilter): set<string>
  {
    set id | id in m && Matches(cs, m[id], f)
  }

  // ---- Names ----

  predicate Exact(cs: Casing, itemName: string, name: string) {
    cs.fold(itemName, name)
  }

  predicate Partial(cs: Casing, itemName: string, name: string) {
    Contains(cs.lower(itemName), cs.lower(name))
  }

  /** The rule a lookup serves names under. */
  predicate Servable(cs: Casing, itemName: string, name: string, strict: bool) {
    Exact(cs, itemName, name) || (!strict && Partial(cs, itemName, name))
  }

  function ExactIds(cs: Casing, m: Cache, f: SecretFilter, name: string): set<string>
  {
    set id | id in Visible(cs, m, f) && Exact(cs, m[id].name, name)
  }

  function PartialIds(cs: Casing, m: Cache, f: SecretFilter, name: string): set<string>
  {
    set id | id in Visible(cs, m, f) && Partial(cs, m[id].name, name)
  }

  /** The lowest visible id that matches exactly, else, unless matching is strict, the
      lowest visible id that matches partially. */
  ghost function Winner(cs: Casing, m: Cache, f: SecretFilter, name: string, strict: bool): Option<string>
  {
    if ExactIds(cs, m, f, name) != {} then Some(Least(ExactIds(cs, m, f, name)))
    else if !strict && PartialIds(cs, m, f, name) != {} then Some(Least(PartialIds(cs, m, f, name)))
    else None
  }

  // ---- The value of an item ----

  const PRIORITY: seq<string> := ["value", "secret", "api_key", "apikey", "token"]

  /** The first of these fields that is there and not empty. */
  function FirstField(fields: map<string, string>, names: seq<string>): Option<string>
  {
    if names == [] then None
    else if names[0] in fields && fields[names[0]] != "" then Some(fields[names[0]])
    else FirstField(fields, names[1..])
  }

  function NonEmpty(fields: map<string, string>): set<string>
  {
    set n | n in fields && fields[n] != ""
  }

  /** Password, else a priority field, else the notes, else the field of least name among
      those that are not empty. */
  ghost function SecretOf(item: Item): string
  {
    if item.password != "" then item.password
    else if FirstField(item.fields, PRIORITY).Some? then FirstField(item.fields, PRIORITY).value
    else if item.notes != "" then item.notes
    else if NonEmpty(item.fields) != {} then item.fields[Least(NonEmpty(item.fields))]
    else ""
  }

  lemma {:induction false} FirstFieldIsNonEmpty(fields: map<string, string>, names: seq<string>)
    ensures FirstField(fields, names).Some? ==>
              FirstField(fields, names).value != ""
              && exists n | n in NonEmpty(fields) :: fields[n] == FirstField(fields, names).value
  {
    if names != [] && FirstField(fields, names).Some? {
      if names[0] in fields && fields[names[0]] != "" {
        assert names[0] in NonEmpty(fields);
      } else {
        FirstFieldIsNonEmpty(fields, names[1..]);
      }
    }
  }

  /** An item serves the empty string only when it holds nothing to serve. */
  lemma {:induction false} EmptySecretIff(item: Item)
    ensures SecretOf(item) == "" <==> item.password == "" && item.notes == "" && NonEmpty(item.fields) == {}
  {
    FirstFieldIsNonEmpty(item.fields, PRIORITY);
  }

  /** The first of the five priority fields with a value. */
  ghost predicate LeadsFields(fields: map<string, string>, names: seq<string>, i: nat) {
    && i < |names|
    && names[i] in fields && fields[names[i]] != ""
    && forall j | 0 <= j < i :: names[j] in fields ==> fields[names[j]] == ""
  }

  lemma {:induction false} FirstFieldIs(fields: map<string, string>, names: seq<string>, i: nat)
    requires LeadsFields(fields, names, i)
    ensures FirstField(fields, names) == Some(fields[names[i]])
  {
    if i > 0 {
      assert forall j | 0 <= j < i - 1 :: names[1..][j] == names[j + 1];
      FirstFieldIs(fields, names[1..], i - 1);
    }
  }

  lemma {:induction false} NoFirstField(fields: map<string, string>, names: seq<string>)
    requires forall n | n in names && n in fields :: fields[n] == ""
    ensures FirstField(fields, names) == None
  {
    if names != [] {
      NoFirstField(fields, names[1..]);
    }
  }

  /** What an item serves, case by case: the password, */
  lemma PasswordFirst(item: Item)
    requires item.password != ""
    ensures SecretOf(item) == item.password
  {
  }

  /** or else the first priority field with a value, */
  lemma PriorityFieldNext(item: Item, i: nat)
    requires item.password == ""
    requires LeadsFields(item.fields, ["value", "secret", "api_key", "apikey", "token"], i)
    ensures SecretOf(item) == item.fields[["value", "secret", "api_key", "apikey", "token"][i]]
  {
    FirstFieldIs(item.fields, PRIORITY, i);
  }

  /** or else the notes, or else the field with a value and the least name. */
  lemma NotesThenFields(item: Item)
    requires item.password == ""
    requires forall n | n in ["value", "secret", "api_key", "apikey", "token"] && n in item.fields :: item.fields[n] == ""
    ensures item.notes != "" ==> SecretOf(item) == item.notes
    ensures forall n | n in item.fields && item.fields[n] != "" && item.notes == ""
                       && (forall o | o in item.fields && item.fields[o] != "" && o != n :: Less(n, o)) ::
              SecretOf(item) == item.fields[n]
  {
    NoFirstField(item.fields, PRIORITY);
    forall n | n in item.fields && item.fields[n] != "" && item.notes == ""
               && (forall o | o in item.fields && item.fields[o] != "" && o != n :: Less(n, o))
      ensures SecretOf(item) == item.fields[n]
    {
      assert n in NonEmpty(item.fields);
      LeastIsUnique(NonEmpty(item.fields), n);
    }
  }

  // ---- Misses ----

  datatype LookupFailure = LookupFailure(
    cached: nat,
    visible: nat,
    hiddenNameMatches: nat,
    partialInVisible: nat,
    strictMatch: bool)

  datatype LookupError = EmptyName | NotFound(why: LookupFailure)

  /** The text a client sees. */
  function ErrorText(e: LookupError): string
  {
    match e
    case EmptyName => "secret name cannot be empty"
    case NotFound(_) => "secret not found"
  }

  datatype Diagnosis =
    | CacheIsEmpty
    | OutsideScope(hidden: nat, visible: nat, cached: nat)
    | StrictRefused(partial: nat, visible: nat, cached: nat)
    | NothingVisible(cached: nat)
    | NoSuchItem(visible: nat, cached: nat)

  function Diagnose(e: LookupFailure): Diagnosis
  {
    if e.cached == 0 then CacheIsEmpty
    else if e.hiddenNameMatches > 0 then OutsideScope(e.hiddenNameMatches, e.visible, e.cached)
    else if e.strictMatch && e.partialInVisible > 0 then StrictRefused(e.partialInVisible, e.visible, e.cached)
    else if e.visible == 0 then NothingVisible(e.cached)
    else NoSuchItem(e.visible, e.cached)
  }

  /** Items the filter hides that the failure scan counts: in strict mode those that match
      exactly, otherwise those that match partially. */
  function HiddenMatches(cs: Casing, m: Cache, f: SecretFilter, name: string, strict: bool): set<string>
  {
    set id | id in m && !Matches(cs, m[id], f)
             && if strict then Exact(cs, m[id].name, name) else Partial(cs, m[id].name, name)
  }

  function VisiblePartials(cs: Casing, m: Cache, f: SecretFilter, name: string): set<string>
  {
    PartialIds(cs, m, f, name) - ExactIds(cs, m, f, name)
  }

  function FailureOf(cs: Casing, m: Cache, f: SecretFilter, name: string, strict: bool): LookupFailure
  {
    LookupFailure(|m|, |Visible(cs, m, f)|, |HiddenMatches(cs, m, f, name, strict)|,
                  |VisiblePartials(cs, m, f, name)|, strict)
  }

  // ---- Listings ----

  datatype Summary = Summary(
    name: string,
    id: string,
    organizationId: string,
    organizationName: string,
    collectionIds: seq<string>,
    collectionNames: seq<string>,
    folderId: string,
    folderName: string,
    fields: seq<string>)

  function NameOr(m: map<string, string>, id: string): string
  {
    if id in m then m[id] else ""
  }

  /** The known names of these ids, in order. */
  function KnownNames(m: map<string, string>, ids: seq<string>): seq<string>
  {
    if ids == [] then []
    else
      var rest := KnownNames(m, ids[..|ids| - 1]);
      if ids[|ids| - 1] in m then rest + [m[ids[|ids| - 1]]] else rest
  }

  /** The names of more ids come after the names of the first ones. */
  lemma {:induction false} KnownNamesDistribute(m: map<string, string>, ids: seq<string>, more: seq<string>)
    ensures KnownNames(m, ids + more) == KnownNames(m, ids) + KnownNames(m, more)
  {
    if more == [] {
      assert ids + more == ids;
    } else {
      var n := |more| - 1;
      assert (ids + more)[..|ids| + n] == ids + more[..n];
      KnownNamesDistribute(m, ids, more[..n]);
    }
  }

  /** s describes the item and nothing else; its field names are each there once, in order. */
  ghost predicate Describes(s: Summary, item: Item, names: NameMaps) {
    && s.name == item.name
    && s.id == item.id
    && s.organizationId == item.place.organizationId
    && s.organizationName == NameOr(names.organizations, item.place.organizationId)
    && s.collectionIds == item.place.collectionIds
    && s.collectionNames == KnownNames(names.collections, item.place.collectionIds)
    && s.folderId == item.place.folderId
    && s.folderName == NameOr(names.folders, item.place.folderId)
    && (forall n :: n in s.fields <==> n in item.fields)
    && forall i, j | 0 <= i < j < |s.fields| :: Less(s.fields[i], s.fields[j])
  }

  /** An item is listed under the names of its organization, its folder and its collections,
      each where the name is known. */
  lemma ListedUnder(s: Summary, item: Item, names: NameMaps, before: seq<string>, id: string, after: seq<string>)
    requires Describes(s, item, names) && item.place.collectionIds == before + [id] + after
    ensures s.organizationName == (if s.organizationId in names.organizations then names.organizations[s.organizationId]
                                   else "")
    ensures s.folderName == (if s.folderId in names.folders then names.folders[s.folderId] else "")
    ensures s.collectionNames == KnownNames(names.collections, before)
                                 + (if id in names.collections then [names.collections[id]] else [])
                                 + KnownNames(names.collections, after)
  {
    KnownNamesDistribute(names.collections, before + [id], after);
    KnownNamesDistribute(names.collections, before, [id]);
    assert [id][..0] == [] && KnownNames(names.collections, []) == [];
  }

  /** out lists each visible item once, by name and then by id. */
  ghost predicate Lists(out: seq<Summary>, cs: Casing, m: Cache, names: NameMaps, f: SecretFilter) {
    && (forall s | s in out :: s.id in Visible(cs, m, f) && Describes(s, m[s.id], names))
    && (forall id | id in Visible(cs, m, f) :: exists s | s in out :: s.id == id)
    && |out| == |Visible(cs, m, f)|
    && (forall i, j | 0 <= i < j < |out| ::
          !Less(out[j].name, out[i].name) && (out[j].name == out[i].name ==> !Less(out[j].id, out[i].id)))
  }

  // ---- Theorems ----

  /** A visible item that folds to the name wins if no other one with a lesser id does, */
  lemma ExactWins(cs: Casing, m: Cache, f: SecretFilter, name: string, strict: bool, id: string)
    requires id in m && Matches(cs, m[id], f) && cs.fold(m[id].name, name)
    requires forall o | o in m && Matches(cs, m[o], f) && cs.fold(m[o].name, name) :: !Less(o, id)
    ensures Winner(cs, m, f, name, strict) == Some(id)
  {
    assert id in ExactIds(cs, m, f, name);
    forall o | o in ExactIds(cs, m, f, name) && o != id
      ensures Less(id, o)
    {
      LessTotal(id, o);
    }
    LeastIsUnique(ExactIds(cs, m, f, name), id);
  }

  /** and if none folds to the name, and matching is not strict, a visible item that contains
      it in lowercase wins if no other one with a lesser id does. */
  lemma PartialWins(cs: Casing, m: Cache, f: SecretFilter, name: string, id: string)
    requires forall o | o in m && Matches(cs, m[o], f) :: !cs.fold(m[o].name, name)
    requires id in m && Matches(cs, m[id], f) && Contains(cs.lower(m[id].name), cs.lower(name))
    requires forall o | o in m && Matches(cs, m[o], f) && Contains(cs.lower(m[o].name), cs.lower(name)) :: !Less(o, id)
    ensures Winner(cs, m, f, name, false) == Some(id)
  {
    assert ExactIds(cs, m, f, name) == {};
    assert id in PartialIds(cs, m, f, name);
    forall o | o in PartialIds(cs, m, f, name) && o != id
      ensures Less(id, o)
    {
      LessTotal(id, o);
    }
    LeastIsUnique(PartialIds(cs, m, f, name), id);
  }

  lemma WinnerIff(cs: Casing, m: Cache, f: SecretFilter, name: string, strict: bool)
    ensures Winner(cs, m, f, name, strict).Some? <==>
              exists id | id in Visible(cs, m, f) :: Servable(cs, m[id].name, name, strict)
    ensures Winner(cs, m, f, name, strict).Some? ==>
              var id := Winner(cs, m, f, name, strict).value;
              id in Visible(cs, m, f) && Servable(cs, m[id].name, name, strict)
  {
    var exacts, partials := ExactIds(cs, m, f, name), PartialIds(cs, m, f, name);
    if id :| id in Visible(cs, m, f) && Servable(cs, m[id].name, name, strict) {
      assert id in exacts || (!strict && id in partials);
    }
  }

  /** GetSecret hits exactly when the listing under the same filter shows a name that the
      lookup serves. */
  lemma HitIffListed(cs: Casing, m: Cache, names: NameMaps, f: SecretFilter, name: string, strict: bool, out: seq<Summary>)
    requires WellKeyed(m) && Lists(out, cs, m, names, f)
    ensures Winner(cs, m, f, name, strict).Some? <==> exists s | s in out :: Servable(cs, s.name, name, strict)
  {
    WinnerIff(cs, m, f, name, strict);
    if s :| s in out && Servable(cs, s.name, name, strict) {
      assert s.id in Visible(cs, m, f) && m[s.id].name == s.name;
    }
    if id :| id in Visible(cs, m, f) && Servable(cs, m[id].name, name, strict) {
      var s :| s in out && s.id == id;
      assert Servable(cs, s.name, name, strict);
    }
  }

  /** What a client learns from a lookup: the value, or the text of the error. */
  ghost function Told(cs: Casing, m: Cache, f: SecretFilter, name: string, strict: bool): Result<string, string>
  {
    match Winner(cs, m, f, name, strict)
    case Some(id) => WinnerIff(cs, m, f, name, strict); Ok(SecretOf(m[id]))
    case None => Err(ErrorText(NotFound(FailureOf(cs, m, f, name, strict))))
  }

  /** Two caches that agree on what the filter shows answer alike: the value, or the text
      of the error, says nothing about hidden items. */
  lemma HiddenItemsDoNotMatter(cs: Casing, m: Cache, m': Cache, f: SecretFilter, name: string, strict: bool)
    requires Visible(cs, m, f) == Visible(cs, m', f)
    requires forall id | id in Visible(cs, m, f) :: m[id] == m'[id]
    ensures Winner(cs, m, f, name, strict) == Winner(cs, m', f, name, strict)
    ensures Told(cs, m, f, name, strict) == Told(cs, m', f, name, strict)
  {
    assert ExactIds(cs, m, f, name) == ExactIds(cs, m', f, name);
    assert PartialIds(cs, m, f, name) == PartialIds(cs, m', f, name);
    WinnerIff(cs, m, f, name, strict);
  }

  function Elements(ids: seq<string>): set<string>
  {
    set x | x in ids
  }

  /** A list as long as its set of elements repeats none. */
  lemma {:induction false} NoRepetition(ids: seq<string>)
    ensures |Elements(ids)| <= |ids|
    ensures |Elements(ids)| == |ids| ==> forall i, j | 0 <= i < j < |ids| :: ids[i] != ids[j]
  {
    if ids != [] {
      var front, last := ids[..|ids| - 1], ids[|ids| - 1];
      NoRepetition(front);
      assert ids == front + [last];
      assert Elements(ids) == Elements(front) + {last};
    }
  }

  function IdsOf(out: seq<Summary>): seq<string>
  {
    seq(|out|, i requires 0 <= i < |out| => out[i].id)
  }

  lemma ListedIds(out: seq<Summary>, ids: set<string>)
    requires forall s | s in out :: s.id in ids
    requires forall id | id in ids :: exists s | s in out :: s.id == id
    ensures Elements(IdsOf(out)) == ids
  {
    forall id
      ensures id in Elements(IdsOf(out)) <==> id in ids
    {
      if id in IdsOf(out) {
        var i :| 0 <= i < |out| && IdsOf(out)[i] == id;
        assert out[i] in out;
      }
      if id in ids {
        var s :| s in out && s.id == id;
        var i :| 0 <= i < |out| && out[i] == s;
        assert IdsOf(out)[i] == id;
      }
    }
  }

  function SummaryKey(s: Summary): Key
  {
    (s.name, s.id)
  }

  lemma ListingIsStrict(out: seq<Summary>, cs: Casing, m: Cache, names: NameMaps, f: SecretFilter)
    requires Lists(out, cs, m, names, f)
    ensures StrictlyOrdered(SummaryKey, out)
  {
    ListedIds(out, Visible(cs, m, f));
    NoRepetition(IdsOf(out));
    forall i, j | 0 <= i < j < |out|
      ensures KeyLess(SummaryKey(out[i]), SummaryKey(out[j]))
    {
      assert IdsOf(out)[i] != IdsOf(out)[j];
      LessTotal(out[i].name, out[j].name);
      LessTotal(out[i].id, out[j].id);
    }
  }

  lemma DescriptionIsUnique(s: Summary, s': Summary, item: Item, names: NameMaps)
    requires Describes(s, item, names) && Describes(s', item, names)
    ensures s == s'
  {
    StrictOrderIsUnique((n: string) => (n, ""), s.fields, s'.fields);
  }

  /** What the listing of one cache holds, that of a cache with the same visible items does. */
  lemma ListedInBoth(s: Summary, out: seq<Summary>, out': seq<Summary>, cs: Casing, m: Cache, m': Cache, names: NameMaps,
                     f: SecretFilter)
    requires Lists(out, cs, m, names, f) && Lists(out', cs, m', names, f)
    requires Visible(cs, m, f) == Visible(cs, m', f)
    requires forall id | id in Visible(cs, m, f) :: m[id] == m'[id]
    requires s in out
    ensures s in out'
  {
    var s' :| s' in out' && s'.id == s.id;
    DescriptionIsUnique(s, s', m[s.id], names);
  }

  /** The visible items determine the listing, whatever order the item map is visited in
      and whatever it hides. */
  lemma ListingIsDetermined(out: seq<Summary>, out': seq<Summary>, cs: Casing, m: Cache, m': Cache, names: NameMaps,
                            f: SecretFilter)
    requires Lists(out, cs, m, names, f) && Lists(out', cs, m', names, f)
    requires Visible(cs, m, f) == Visible(cs, m', f)
    requires forall id | id in Visible(cs, m, f) :: m[id] == m'[id]
    ensures out == out'
  {
    ListingIsStrict(out, cs, m, names, f);
    ListingIsStrict(out', cs, m', names, f);
    forall s
      ensures s in out <==> s in out'
    {
      if s in out {
        ListedInBoth(s, out, out', cs, m, m', names, f);
      }
      if s in out' {
        ListedInBoth(s, out', out, cs, m', m, names, f);
      }
    }
    StrictOrderIsUnique(SummaryKey, out, out');
  }

  lemma DiagnosisBySize(e: LookupFailure, m: Cache, visible: set<string>, hidden: set<string>, partial: set<string>)
    requires e == LookupFailure(|m|, |visible|, |hidden|, |partial|, e.strictMatch)
    ensures Diagnose(e)
         == if m == map[] then CacheIsEmpty
            else if hidden != {} then OutsideScope(|hidden|, |visible|, |m|)
            else if e.strictMatch && partial != {} then StrictRefused(|partial|, |visible|, |m|)
            else if visible == {} then NothingVisible(|m|)
            else NoSuchItem(|visible|, |m|)
  {
  }

  /** What the log says of a miss, in order: the cache is empty; hidden items match; visible
      ones contain the name and strict matching refused them; nothing is visible; or there is
      no such item. */
  lemma DiagnosisIs(cs: Casing, m: Cache, f: SecretFilter, name: string, strict: bool, visible: set<string>,
                    hidden: set<string>, partial: set<string>)
    requires forall id :: id in visible <==> id in m && Matches(cs, m[id], f)
    requires forall id :: id in hidden <==>
               (id in m && !Matches(cs, m[id], f)
                && if strict then cs.fold(m[id].name, name) else Contains(cs.lower(m[id].name), cs.lower(name)))
    requires forall id :: id in partial <==>
               (id in m && Matches(cs, m[id], f)
                && Contains(cs.lower(m[id].name), cs.lower(name)) && !cs.fold(m[id].name, name))
    ensures Diagnose(FailureOf(cs, m, f, name, strict))
         == if m == map[] then CacheIsEmpty
            else if hidden != {} then OutsideScope(|hidden|, |visible|, |m|)
            else if strict && partial != {} then StrictRefused(|partial|, |visible|, |m|)
            else if visible == {} then NothingVisible(|m|)
            else NoSuchItem(|visible|, |m|)
  {
    assert visible == Visible(cs, m, f);
    assert hidden == HiddenMatches(cs, m, f, name, strict);
    assert partial == VisiblePartials(cs, m, f, name);
    DiagnosisBySize(FailureOf(cs, m, f, name, strict), m, visible, hidden, partial);
  }

  /** A miss that blames the scope. */
  ghost predicate BlamesScope(cs: Casing, m: Cache, f: SecretFilter, name: string, strict: bool) {
    Diagnose(FailureOf(cs, m, f, name, strict)).OutsideScope?
  }

  lemma BlamesScopeIff(cs: Casing, m: Cache, f: SecretFilter, name: string, strict: bool)
    ensures BlamesScope(cs, m, f, name, strict) <==> HiddenMatches(cs, m, f, name, strict) != {}
  {
    var hidden := HiddenMatches(cs, m, f, name, strict);
    if id :| id in hidden {
      assert id in m.Keys && |m.Keys| == |m|;
    }
  }

  /** The same name without any filter. */
  ghost predicate HitsUnfiltered(cs: Casing, m: Cache, name: string, strict: bool) {
    Winner(cs, m, NO_FILTER, name, strict).Some?
  }

  lemma UnfilteredMissedIff(cs: Casing, m: Cache, f: SecretFilter, name: string, strict: bool)
    requires Winner(cs, m, f, name, strict) == None
    ensures HitsUnfiltered(cs, m, name, strict) <==>
              exists id | id in m :: !Matches(cs, m[id], f) && Servable(cs, m[id].name, name, strict)
  {
    WinnerIff(cs, m, f, name, strict);
    WinnerIff(cs, m, NO_FILTER, name, strict);
    assert Visible(cs, m, NO_FILTER) == m.Keys;
    assert forall id | id in m && Matches(cs, m[id], f) :: id in Visible(cs, m, f);
  }

  /** Under strict matching a miss blames the scope exactly when the same name without
      the filter would have hit. */
  lemma StrictDiagnosisIsRight(cs: Casing, m: Cache, f: SecretFilter, name: string)
    requires Winner(cs, m, f, name, true) == None
    ensures BlamesScope(cs, m, f, name, true) <==> HitsUnfiltered(cs, m, name, true)
  {
    BlamesScopeIff(cs, m, f, name, true);
    UnfilteredMissedIff(cs, m, f, name, true);
    if id :| id in m && !Matches(cs, m[id], f) && Servable(cs, m[id].name, name, true) {
      assert id in HiddenMatches(cs, m, f, name, true);
    }
  }

  /** A hidden item whose name folds to the requested one. */
  ghost predicate HiddenExact(cs: Casing, m: Cache, f: SecretFilter, name: string) {
    exists id | id in m :: !Matches(cs, m[id], f) && Exact(cs, m[id].name, name)
  }

  ghost predicate HiddenPartial(cs: Casing, m: Cache, f: SecretFilter, name: string) {
    exists id | id in m :: !Matches(cs, m[id], f) && Partial(cs, m[id].name, name)
  }

  /** Otherwise the diagnosis is right exactly unless some hidden item matches by folding
      while none matches by lowercase containment, the only test the scan makes. */
  lemma LooseDiagnosisIff(cs: Casing, m: Cache, f: SecretFilter, name: string)
    requires Winner(cs, m, f, name, false) == None
    ensures (BlamesScope(cs, m, f, name, false) <==> HitsUnfiltered(cs, m, name, false))
       <==> (HiddenExact(cs, m, f, name) ==> HiddenPartial(cs, m, f, name))
    ensures VisiblePartials(cs, m, f, name) == {}
  {
    BlamesScopeIff(cs, m, f, name, false);
    UnfilteredMissedIff(cs, m, f, name, false);
    if id :| id in m && !Matches(cs, m[id], f) && Partial(cs, m[id].name, name) {
      assert id in HiddenMatches(cs, m, f, name, false);
    }
  }

  /** In particular it is right for every name whose folded equals contain it in lowercase. */
  lemma LooseDiagnosisIsRight(cs: Casing, m: Cache, f: SecretFilter, name: string)
    requires Winner(cs, m, f, name, false) == None
    requires forall other :: Exact(cs, other, name) ==> Partial(cs, other, name)
    ensures BlamesScope(cs, m, f, name, false) <==> HitsUnfiltered(cs, m, name, false)
  {
    LooseDiagnosisIff(cs, m, f, name);
    if HiddenExact(cs, m, f, name) {
      var id :| id in m && !Matches(cs, m[id], f) && Exact(cs, m[id].name, name);
      assert Partial(cs, m[id].name, name);
    }
  }

  // ---- Where the loose diagnosis goes wrong ----

  /** UTF-8 of U+017F, the long s, which folds together with both letters s although it is
      its own lowercase. */
  const LONG_S: string := [0xC5 as char, 0xBF as char]

  predicate IsS(s: string) {
    s == "s" || s == "S" || s == LONG_S
  }

  /** Folding and lowercasing, as far as the letter s is concerned. */
  function SCasing(): Casing
  {
    Casing((a: string, b: string) => a == b || (IsS(a) && IsS(b)), (a: string) => if a == "S" then "s" else a)
  }

  lemma LongSLacksS()
    ensures !Contains(LONG_S, "s")
  {
    forall i
      ensures !OccursAt(LONG_S, "s", i)
    {
      if 0 <= i < |LONG_S| {
        assert LONG_S[i..i + 1][0] == LONG_S[i];
      }
    }
  }

  lemma SCasingIsLawful()
    ensures SCasing().Lawful()
  {
  }

  lemma NothingShown(item: Item, f: SecretFilter)
    requires f == NO_FILTER.(folderId := "2") && item.place == Placement("", [], "")
    ensures !Matches(SCasing(), item, f)
  {
    assert |""| != |"2"|;
    assert SCasing().fold(item.place.folderId, f.folderId) == (item.place.folderId == f.folderId || (IsS("") && IsS("2")));
  }

  lemma HiddenLongSMisses(cs: Casing, m: Cache, f: SecretFilter, item: Item)
    requires cs == SCasing() && m == map["1" := item] && f == NO_FILTER.(folderId := "2")
    requires item.name == LONG_S && item.place == Placement("", [], "")
    ensures Winner(cs, m, f, "s", false) == None
    ensures HitsUnfiltered(cs, m, "s", false) && !BlamesScope(cs, m, f, "s", false)
  {
    NothingShown(item, f);
    assert Visible(cs, m, f) == {};
    assert cs.lower(LONG_S) == LONG_S && cs.lower("s") == "s";
    LongSLacksS();
    assert HiddenMatches(cs, m, f, "s", false) == {};
    BlamesScopeIff(cs, m, f, "s", false);
    assert "1" in Visible(cs, m, NO_FILTER) && Exact(cs, m["1"].name, "s");
    WinnerIff(cs, m, NO_FILTER, "s", false);
  }

  /** A hidden item named with the long s, asked for as "s": the miss reports that no such
      item exists, although without the filter it would be served. */
  lemma LooseDiagnosisCanBeWrong()
    ensures SCasing().Lawful()
    ensures exists m: Cache, f ::
              && WellKeyed(m)
              && Winner(SCasing(), m, f, "s", false) == None
              && HitsUnfiltered(SCasing(), m, "s", false)
              && !BlamesScope(SCasing(), m, f, "s", false)
  {
    SCasingIsLawful();
    var item := Item("1", 1, LONG_S, "", "", "", "", map[], Placement("", [], ""));
    var m: Cache := map["1" := item];
    var f := NO_FILTER.(folderId := "2");
    HiddenLongSMisses(SCasing(), m, f, item);
    assert WellKeyed(m);
  }
}
