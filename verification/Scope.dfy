/** Request handlers: query filters, the scope of a key, and what a request is shown. */
module Scope {
  import opened Wrappers
  import opened GoStrings
  import opened Sorting
  import opened VaultItems
  import opened Reconcile
  import opened Names
  import opened Lookup
  import opened VaultClient
  import opened PathParam

  /** Library code and input validation: case folding, uuid.Parse followed by String, and
      the two regular-expression checks. */
  datatype Library = Library(
    cs: Casing,
    parseUuid: string -> Option<string>,
    validName: string -> bool,
    validFilter: string -> bool)
  {
    ghost predicate Lawful() {
      cs.Lawful() && forall s :: parseUuid(s) != Some("")
    }
  }

  /** What a key may read, by name or UUID; an empty list does not constrain. */
  datatype KeyScope = KeyScope(organizations: seq<string>, collections: seq<string>) {
    predicate IsEmpty() {
      organizations == [] && collections == []
    }
  }

  // ---- From names to ids ----

  function NamedIds(cs: Casing, m: map<string, string>, target: string): set<string>
  {
    set id | id in m && cs.fold(TrimSpace(m[id]), TrimSpace(target))
  }

  /** The least id under this display name. */
  ghost function IdByName(cs: Casing, m: map<string, string>, target: string): Option<string>
  {
    if TrimSpace(target) == "" || NamedIds(cs, m, target) == {} then None
    else Some(Least(NamedIds(cs, m, target)))
  }

  lemma FirstSortedIsLeast(unsorted: seq<string>, sorted: seq<string>, ids: set<string>)
    requires unsorted != [] && multiset(sorted) == multiset(unsorted)
    requires forall i, j | 0 <= i < j < |sorted| :: !Less(sorted[j], sorted[i])
    requires forall k :: k in unsorted <==> k in ids
    ensures sorted != [] && ids != {} && Least(ids) == sorted[0]
  {
    assert |sorted| == |multiset(sorted)| == |unsorted|;
    forall k
      ensures k in sorted <==> k in ids
    {
      assert k in sorted <==> k in multiset(sorted);
      assert k in unsorted <==> k in multiset(unsorted);
    }
    assert sorted[0] in ids;
    forall id | id in ids && id != sorted[0]
      ensures Less(sorted[0], id)
    {
      var j :| 0 <= j < |sorted| && sorted[j] == id;
      LessTotal(sorted[0], id);
    }
    LeastIsUnique(ids, sorted[0]);
  }

  /** It is an id whose trimmed name folds to the trimmed target, and less than any other
      such id; there is none exactly if the target is blank or no name does. */
  lemma IdByNameIff(cs: Casing, m: map<string, string>, target: string)
    ensures match IdByName(cs, m, target)
            case None => TrimSpace(target) == "" || forall k | k in m :: !cs.fold(TrimSpace(m[k]), TrimSpace(target))
            case Some(id) =>
              && TrimSpace(target) != "" && id in m && cs.fold(TrimSpace(m[id]), TrimSpace(target))
              && forall k | k in m && k != id && cs.fold(TrimSpace(m[k]), TrimSpace(target)) :: Less(id, k)
  {
    var wanted := TrimSpace(target);
    if k :| k in m && cs.fold(TrimSpace(m[k]), wanted) {
      assert k in NamedIds(cs, m, target);
    }
    if IdByName(cs, m, target).Some? {
      assert IsLeast(NamedIds(cs, m, target), IdByName(cs, m, target).value);
    }
  }

  method LookupIdByName(cs: Casing, m: map<string, string>, target: string) returns (id: Option<string>)
    ensures id == IdByName(cs, m, target)
  {
    var wanted := TrimSpace(target);
    if wanted == "" || |m| == 0 {
      return None;
    }
    var matches := [];
    var keys := KeysOf(m);
    for i := 0 to |keys|
      invariant forall k :: k in matches <==> k in keys[..i] && cs.fold(TrimSpace(m[k]), wanted)
    {
      assert keys[..i + 1] == keys[..i] + [keys[i]];
      if cs.fold(TrimSpace(m[keys[i]]), wanted) {
        matches := matches + [keys[i]];
      }
    }
    assert forall k :: k in matches <==> k in NamedIds(cs, m, target);
    if |matches| == 0 {
      assert NamedIds(cs, m, target) == {};
      return None;
    }
    assert matches[0] in NamedIds(cs, m, target);
    var sorted := SortStrings(matches);
    FirstSortedIsLeast(matches, sorted, NamedIds(cs, m, target));
    return Some(sorted[0]);
  }

  /** A reference is a UUID, taken on trust, or else a display name. */
  ghost function RefId(lib: Library, m: map<string, string>, ref: string): Option<string>
  {
    var r := TrimSpace(ref);
    if r == "" then None
    else if lib.parseUuid(r).Some? then lib.parseUuid(r)
    else IdByName(lib.cs, m, r)
  }

  /** A blank reference resolves to nothing, a UUID to itself, and anything else to the id it
      names. */
  lemma RefIdIs(lib: Library, m: map<string, string>, ref: string)
    ensures TrimSpace(ref) == "" ==> RefId(lib, m, ref) == None
    ensures TrimSpace(ref) != "" && lib.parseUuid(TrimSpace(ref)).Some? ==>
              RefId(lib, m, ref) == lib.parseUuid(TrimSpace(ref))
    ensures TrimSpace(ref) != "" && lib.parseUuid(TrimSpace(ref)).None? ==>
              RefId(lib, m, ref) == IdByName(lib.cs, m, TrimSpace(ref))
  {
  }

  method ResolveRef(lib: Library, m: map<string, string>, ref: string) returns (id: Option<string>)
    ensures id == RefId(lib, m, ref)
  {
    var r := TrimSpace(ref);
    if r == "" {
      return None;
    }
    var parsed := lib.parseUuid(r);
    if parsed.Some? {
      return parsed;
    }
    id := LookupIdByName(lib.cs, m, r);
  }

  ghost function Resolution(lib: Library, m: map<string, string>): string -> Option<string>
  {
    ref => RefId(lib, m, ref)
  }

  /** The ids the references resolve to, in order; the others are dropped. */
  ghost function RefIds(resolve: string -> Option<string>, refs: seq<string>): seq<string>
  {
    if refs == [] then []
    else
      var front := RefIds(resolve, refs[..|refs| - 1]);
      match resolve(refs[|refs| - 1])
      case None => front
      case Some(id) => front + [id]
  }

  method ResolveScopeRefs(lib: Library, refs: seq<string>, m: map<string, string>) returns (out: seq<string>)
    ensures out == RefIds(Resolution(lib, m), refs)
  {
    out := [];
    for i := 0 to |refs|
      invariant out == RefIds(Resolution(lib, m), refs[..i])
    {
      assert refs[..i + 1][..i] == refs[..i];
      var id := ResolveRef(lib, m, refs[i]);
      if id.Some? {
        out := out + [id.value];
      }
    }
    assert refs[..|refs|] == refs;
  }

  lemma {:induction false} RefIdsAre(resolve: string -> Option<string>, refs: seq<string>, id: string)
    ensures id in RefIds(resolve, refs) <==> exists ref | ref in refs :: resolve(ref) == Some(id)
  {
    if refs != [] {
      var front, last := refs[..|refs| - 1], refs[|refs| - 1];
      RefIdsAre(resolve, front, id);
      assert refs == front + [last];
      if resolve(last) == Some(id) {
        assert last in refs;
      }
    }
  }

  ghost predicate Unresolved(resolve: string -> Option<string>, refs: seq<string>) {
    forall ref | ref in refs :: resolve(ref) == None
  }

  lemma {:induction false} NoIdsIff(resolve: string -> Option<string>, refs: seq<string>)
    ensures RefIds(resolve, refs) == [] <==> Unresolved(resolve, refs)
  {
    if refs != [] {
      var front, last := refs[..|refs| - 1], refs[|refs| - 1];
      NoIdsIff(resolve, front);
      assert refs == front + [last];
    }
  }

  // ---- Query filters ----

  datatype Query = Query(
    organizationId: string,
    organizationName: string,
    collectionId: string,
    collectionName: string,
    folderId: string,
    folderName: string)

  datatype Dimension = OrganizationDim | CollectionDim | FolderDim

  datatype FilterError =
    | NotAUuid(dim: Dimension)
    | IdAndName(dim: Dimension)
    | InvalidName(dim: Dimension)
    | UnknownName(dim: Dimension)

  function Trimmed(q: Query): Query
  {
    Query(TrimSpace(q.organizationId), TrimSpace(q.organizationName), TrimSpace(q.collectionId),
          TrimSpace(q.collectionName), TrimSpace(q.folderId), TrimSpace(q.folderName))
  }

  function IdParam(q: Query, dim: Dimension): string
  {
    match dim
    case OrganizationDim => q.organizationId
    case CollectionDim => q.collectionId
    case FolderDim => q.folderId
  }

  function NameParam(q: Query, dim: Dimension): string
  {
    match dim
    case OrganizationDim => q.organizationName
    case CollectionDim => q.collectionName
    case FolderDim => q.folderName
  }

  function NamesIn(nm: NameMaps, dim: Dimension): map<string, string>
  {
    match dim
    case OrganizationDim => nm.organizations
    case CollectionDim => nm.collections
    case FolderDim => nm.folders
  }

  predicate IllFormed(lib: Library, id: string, name: string, e: FilterError) {
    match e
    case NotAUuid(_) => id != "" && lib.parseUuid(id) == None
    case IdAndName(_) => id != "" && name != ""
    case InvalidName(_) => name != "" && !lib.validFilter(name)
    case UnknownName(_) => false
  }

  ghost predicate Unknown(lib: Library, m: map<string, string>, name: string, e: FilterError) {
    e.UnknownName? && name != "" && IdByName(lib.cs, m, name) == None
  }

  /** What is wrong with one dimension of a query, by kind. */
  ghost predicate Wrong(lib: Library, nm: NameMaps, q: Query, e: FilterError) {
    IllFormed(lib, IdParam(q, e.dim), NameParam(q, e.dim), e) || Unknown(lib, NamesIn(nm, e.dim), NameParam(q, e.dim), e)
  }

  ghost function Choice(lib: Library, m: map<string, string>, name: string, id: string): string
  {
    if name != "" then IdByName(lib.cs, m, name).GetOr("") else id
  }

  function ParsedId(lib: Library, id: string): string
  {
    if id == "" then "" else lib.parseUuid(id).GetOr("")
  }

  /** What a dimension of a query asks for; "" asks for nothing. */
  ghost function Wanted(lib: Library, nm: NameMaps, q: Query, dim: Dimension): string
  {
    Choice(lib, NamesIn(nm, dim), NameParam(q, dim), ParsedId(lib, IdParam(q, dim)))
  }

  method ParseUuidQuery(lib: Library, dim: Dimension, trimmed: string) returns (r: Result<string, FilterError>)
    ensures r.Err? ==> r.error == NotAUuid(dim)
    ensures r.Err? <==> IllFormed(lib, trimmed, "", NotAUuid(dim))
    ensures r.Ok? ==> r.value == ParsedId(lib, trimmed)
  {
    if trimmed == "" {
      return Ok("");
    }
    var parsed := lib.parseUuid(trimmed);
    if parsed.None? {
      return Err(NotAUuid(dim));
    }
    return Ok(parsed.value);
  }

  /** Sets out from a name if there is one, else from an id if there is one. */
  method ResolveDim(lib: Library, dim: Dimension, name: string, id: string, m: map<string, string>, out: Cell<string>)
    returns (failure: Option<FilterError>)
    modifies out
    ensures failure.Some? ==> failure.value == UnknownName(dim) && out.value == old(out.value)
    ensures failure.Some? <==> Unknown(lib, m, name, UnknownName(dim))
    ensures failure.None? ==> out.value == if name == "" && id == "" then old(out.value) else Choice(lib, m, name, id)
  {
    if name != "" {
      var resolved := LookupIdByName(lib.cs, m, name);
      if resolved.None? {
        return Some(UnknownName(dim));
      }
      out.value := resolved.value;
    } else if id != "" {
      out.value := id;
    }
    return None;
  }

  /** The syntactic faults of a query, one kind after the other. */
  ghost predicate QueryFault(lib: Library, q: Query, e: FilterError) {
    IllFormed(lib, IdParam(q, e.dim), NameParam(q, e.dim), e)
  }

  method ParseIds(lib: Library, q: Query) returns (r: Result<(string, string, string), FilterError>)
    ensures r.Err? ==> QueryFault(lib, q, r.error)
    ensures r.Ok? ==> forall dim :: !QueryFault(lib, q, NotAUuid(dim))
    ensures r.Ok? ==>
              r.value == (ParsedId(lib, IdParam(q, OrganizationDim)), ParsedId(lib, IdParam(q, CollectionDim)),
                          ParsedId(lib, IdParam(q, FolderDim)))
  {
    var orgId := ParseUuidQuery(lib, OrganizationDim, q.organizationId);
    if orgId.Err? {
      return Err(orgId.error);
    }
    var colId := ParseUuidQuery(lib, CollectionDim, q.collectionId);
    if colId.Err? {
      return Err(colId.error);
    }
    var folderId := ParseUuidQuery(lib, FolderDim, q.folderId);
    if folderId.Err? {
      return Err(folderId.error);
    }
    return Ok((orgId.value, colId.value, folderId.value));
  }

  method CheckNames(lib: Library, q: Query, orgId: string, colId: string, folderId: string)
    returns (failure: Option<FilterError>)
    requires orgId == "" <==> q.organizationId == ""
    requires colId == "" <==> q.collectionId == ""
    requires folderId == "" <==> q.folderId == ""
    ensures failure.Some? ==> QueryFault(lib, q, failure.value)
    ensures failure.None? ==> forall e: FilterError | !e.NotAUuid? :: !QueryFault(lib, q, e)
  {
    if orgId != "" && q.organizationName != "" {
      return Some(IdAndName(OrganizationDim));
    }
    if colId != "" && q.collectionName != "" {
      return Some(IdAndName(CollectionDim));
    }
    if folderId != "" && q.folderName != "" {
      return Some(IdAndName(FolderDim));
    }
    if q.organizationName != "" && !lib.validFilter(q.organizationName) {
      return Some(InvalidName(OrganizationDim));
    }
    if q.collectionName != "" && !lib.validFilter(q.collectionName) {
      return Some(InvalidName(CollectionDim));
    }
    if q.folderName != "" && !lib.validFilter(q.folderName) {
      return Some(InvalidName(FolderDim));
    }
    return None;
  }

  method DimValue(lib: Library, dim: Dimension, name: string, id: string, m: map<string, string>)
    returns (r: Result<string, FilterError>)
    ensures r.Err? ==> r.error == UnknownName(dim)
    ensures r.Err? <==> Unknown(lib, m, name, UnknownName(dim))
    ensures r.Ok? ==> r.value == Choice(lib, m, name, id)
  {
    var out := new Cell("");
    var failure := ResolveDim(lib, dim, name, id, m, out);
    return if failure.Some? then Err(failure.value) else Ok(out.value);
  }

  method ResolveDims(lib: Library, nm: NameMaps, q: Query, orgId: string, colId: string, folderId: string)
    returns (r: Result<SecretFilter, FilterError>)
    ensures var org, col, folder := Unknown(lib, nm.organizations, q.organizationName, UnknownName(OrganizationDim)),
                                    Unknown(lib, nm.collections, q.collectionName, UnknownName(CollectionDim)),
                                    Unknown(lib, nm.folders, q.folderName, UnknownName(FolderDim));
            match r
            case Ok(_) => !org && !col && !folder
            case Err(e) =>
              || (org && e == UnknownName(OrganizationDim))
              || (col && e == UnknownName(CollectionDim))
              || (folder && e == UnknownName(FolderDim))
    ensures r.Ok? ==>
              r.value == SecretFilter(Choice(lib, nm.organizations, q.organizationName, orgId),
                                      Choice(lib, nm.collections, q.collectionName, colId),
                                      Choice(lib, nm.folders, q.folderName, folderId), [], [])
  {
    var org := DimValue(lib, OrganizationDim, q.organizationName, orgId, nm.organizations);
    if org.Err? {
      return Err(org.error);
    }
    var col := DimValue(lib, CollectionDim, q.collectionName, colId, nm.collections);
    if col.Err? {
      return Err(col.error);
    }
    var folder := DimValue(lib, FolderDim, q.folderName, folderId, nm.folders);
    if folder.Err? {
      return Err(folder.error);
    }
    return Ok(SecretFilter(org.value, col.value, folder.value, [], []));
  }

  ghost function FilterOf(lib: Library, nm: NameMaps, q: Query): SecretFilter
  {
    SecretFilter(Wanted(lib, nm, q, OrganizationDim), Wanted(lib, nm, q, CollectionDim), Wanted(lib, nm, q, FolderDim), [], [])
  }

  lemma ParsedIsEmptyIff(lib: Library, q: Query)
    requires lib.Lawful() && forall dim :: !QueryFault(lib, q, NotAUuid(dim))
    ensures forall dim :: ParsedId(lib, IdParam(q, dim)) == "" <==> IdParam(q, dim) == ""
  {
    forall dim
      ensures ParsedId(lib, IdParam(q, dim)) == "" <==> IdParam(q, dim) == ""
    {
      assert !QueryFault(lib, q, NotAUuid(dim));
    }
  }

  lemma WrongIff(lib: Library, nm: NameMaps, q: Query)
    ensures forall e :: Wrong(lib, nm, q, e) <==>
              QueryFault(lib, q, e)
              || (e.UnknownName? && Unknown(lib, NamesIn(nm, e.dim), NameParam(q, e.dim), UnknownName(e.dim)))
  {
  }

  method ParseTrimmed(lib: Library, nm: NameMaps, t: Query) returns (r: Result<SecretFilter, FilterError>)
    requires lib.Lawful()
    ensures r.Err? ==> Wrong(lib, nm, t, r.error)
    ensures r.Ok? ==> forall e :: !Wrong(lib, nm, t, e)
    ensures r.Ok? ==> r.value == FilterOf(lib, nm, t)
  {
    var ids := ParseIds(lib, t);
    if ids.Err? {
      return Err(ids.error);
    }
    ParsedIsEmptyIff(lib, t);
    var (orgId, colId, folderId) := ids.value;
    var failure := CheckNames(lib, t, orgId, colId, folderId);
    if failure.Some? {
      return Err(failure.value);
    }
    r := ResolveDims(lib, nm, t, orgId, colId, folderId);
    WrongIff(lib, nm, t);
  }

  /** What one dimension of a query wants of the filter, given its trimmed parameters. */
  ghost predicate Means(lib: Library, m: map<string, string>, id: string, name: string, wanted: string) {
    && (name == "" && id == "" ==> wanted == "")
    && (name == "" && id != "" ==> lib.parseUuid(id) == Some(wanted))
    && (name != "" ==> id == "" && lib.validFilter(name) && IdByName(lib.cs, m, name) == Some(wanted))
  }

  lemma DimMeans(lib: Library, nm: NameMaps, t: Query, dim: Dimension)
    requires forall e :: !Wrong(lib, nm, t, e)
    ensures Means(lib, NamesIn(nm, dim), IdParam(t, dim), NameParam(t, dim), Wanted(lib, nm, t, dim))
  {
    assert !Wrong(lib, nm, t, NotAUuid(dim));
    assert !Wrong(lib, nm, t, IdAndName(dim));
    assert !Wrong(lib, nm, t, InvalidName(dim));
    assert !Wrong(lib, nm, t, UnknownName(dim));
  }

  /** The filter of an accepted query: each dimension asks for the id its parameter names,
      and the fields that hold the scope of a key are empty. */
  lemma QueryMeans(lib: Library, nm: NameMaps, t: Query)
    requires forall e :: !Wrong(lib, nm, t, e)
    ensures var f := FilterOf(lib, nm, t);
            && Means(lib, nm.organizations, t.organizationId, t.organizationName, f.organizationId)
            && Means(lib, nm.collections, t.collectionId, t.collectionName, f.collectionId)
            && Means(lib, nm.folders, t.folderId, t.folderName, f.folderId)
            && f.organizationIds == [] && f.collectionIds == []
  {
    DimMeans(lib, nm, t, OrganizationDim);
    DimMeans(lib, nm, t, CollectionDim);
    DimMeans(lib, nm, t, FolderDim);
  }

  /** Parameters a dimension cannot be asked for with: an id that is no UUID, id and name
      together, a malformed name, or one nothing is called by. */
  ghost predicate Unacceptable(lib: Library, m: map<string, string>, id: string, name: string) {
    || (id != "" && (lib.parseUuid(id) == None || name != ""))
    || (name != "" && (!lib.validFilter(name) || IdByName(lib.cs, m, name) == None))
  }

  lemma DimRefusedIff(lib: Library, nm: NameMaps, t: Query, dim: Dimension)
    ensures Unacceptable(lib, NamesIn(nm, dim), IdParam(t, dim), NameParam(t, dim))
       <==> Wrong(lib, nm, t, NotAUuid(dim)) || Wrong(lib, nm, t, IdAndName(dim))
            || Wrong(lib, nm, t, InvalidName(dim)) || Wrong(lib, nm, t, UnknownName(dim))
  {
  }

  lemma RefusedIff(lib: Library, nm: NameMaps, t: Query)
    ensures (exists e :: Wrong(lib, nm, t, e))
       <==> || Unacceptable(lib, nm.organizations, t.organizationId, t.organizationName)
            || Unacceptable(lib, nm.collections, t.collectionId, t.collectionName)
            || Unacceptable(lib, nm.folders, t.folderId, t.folderName)
  {
    DimRefusedIff(lib, nm, t, OrganizationDim);
    DimRefusedIff(lib, nm, t, CollectionDim);
    DimRefusedIff(lib, nm, t, FolderDim);
    if e :| Wrong(lib, nm, t, e) {
      assert e == NotAUuid(e.dim) || e == IdAndName(e.dim) || e == InvalidName(e.dim) || e == UnknownName(e.dim);
      assert e.dim == OrganizationDim || e.dim == CollectionDim || e.dim == FolderDim;
    }
  }

  /** At most one of id and name in each dimension. A query is refused exactly when it has
      a fault, and the error is one of its faults. */
  method ParseSecretFilters(lib: Library, nm: NameMaps, q: Query) returns (r: Result<SecretFilter, FilterError>)
    requires lib.Lawful()
    ensures r.Err? ==> Wrong(lib, nm, Trimmed(q), r.error)
    ensures r.Ok? ==> forall e :: !Wrong(lib, nm, Trimmed(q), e)
    ensures r.Ok? ==> r.value == FilterOf(lib, nm, Trimmed(q))
    ensures r.Ok? ==>
              && Means(lib, nm.organizations, TrimSpace(q.organizationId), TrimSpace(q.organizationName),
                       r.value.organizationId)
              && Means(lib, nm.collections, TrimSpace(q.collectionId), TrimSpace(q.collectionName), r.value.collectionId)
              && Means(lib, nm.folders, TrimSpace(q.folderId), TrimSpace(q.folderName), r.value.folderId)
              && r.value.organizationIds == [] && r.value.collectionIds == []
  {
    var t := Trimmed(q);
    r := ParseTrimmed(lib, nm, t);
    if r.Ok? {
      QueryMeans(lib, nm, t);
    }
  }

  // ---- The scope of a key ----

  datatype Denial =
    | NoAuthContext
    | OrgsUnresolved(configured: nat, known: nat)
    | CollectionsUnresolved(configured: nat, known: nat)

  /** Denied exactly when there is no scope, or a dimension the scope names resolves to
      nothing. */
  ghost function DenialOf(lib: Library, nm: NameMaps, scope: Option<KeyScope>): Option<Denial>
  {
    match scope
    case None => Some(NoAuthContext)
    case Some(s) =>
      if s.organizations != [] && Unresolved(Resolution(lib, nm.organizations), s.organizations) then
        Some(OrgsUnresolved(|s.organizations|, |nm.organizations|))
      else if s.collections != [] && Unresolved(Resolution(lib, nm.collections), s.collections) then
        Some(CollectionsUnresolved(|s.collections|, |nm.collections|))
      else None
  }

  ghost function Scoped(lib: Library, nm: NameMaps, s: KeyScope, f: SecretFilter): SecretFilter
  {
    var f' := if s.organizations == [] then f else f.(organizationIds := RefIds(Resolution(lib, nm.organizations), s.organizations));
    if s.collections == [] then f' else f'.(collectionIds := RefIds(Resolution(lib, nm.collections), s.collections))
  }

  /** Restricts a filter to the scope of the key, or says why the request is denied. A
      request without a scope was never authenticated. */
  method ApplyKeyScope(lib: Library, nm: NameMaps, scope: Option<KeyScope>, filter: Cell<SecretFilter>)
    returns (denial: Option<Denial>)
    modifies filter
    ensures denial == DenialOf(lib, nm, scope)
    ensures denial.Some? <==>
              || scope == None
              || (scope.value.organizations != []
                  && forall ref | ref in scope.value.organizations :: RefId(lib, nm.organizations, ref) == None)
              || (scope.value.collections != []
                  && forall ref | ref in scope.value.collections :: RefId(lib, nm.collections, ref) == None)
    ensures denial.None? ==> filter.value == Scoped(lib, nm, scope.value, old(filter.value))
    ensures denial.Some? ==>
              filter.value == if denial.value.CollectionsUnresolved?
                              then Scoped(lib, nm, scope.value.(collections := []), old(filter.value))
                              else old(filter.value)
  {
    if scope.None? {
      return Some(NoAuthContext);
    }
    if scope.value.IsEmpty() {
      return None;
    }
    if |scope.value.organizations| > 0 {
      var ids := ResolveScopeRefs(lib, scope.value.organizations, nm.organizations);
      NoIdsIff(Resolution(lib, nm.organizations), scope.value.organizations);
      if |ids| == 0 {
        return Some(OrgsUnresolved(|scope.value.organizations|, |nm.organizations|));
      }
      filter.value := filter.value.(organizationIds := ids);
    }
    if |scope.value.collections| > 0 {
      var ids := ResolveScopeRefs(lib, scope.value.collections, nm.collections);
      NoIdsIff(Resolution(lib, nm.collections), scope.value.collections);
      if |ids| == 0 {
        return Some(CollectionsUnresolved(|scope.value.collections|, |nm.collections|));
      }
      filter.value := filter.value.(collectionIds := ids);
    }
    return None;
  }

  // ---- What a scoped key sees ----

  /** One of these references names this id. */
  ghost predicate NamedBy(cs: Casing, resolve: string -> Option<string>, refs: seq<string>, id: string) {
    exists ref | ref in refs :: resolve(ref).Some? && cs.fold(resolve(ref).value, id)
  }

  /** The item belongs, in every dimension the key names, to something the key names. */
  ghost predicate InScope(lib: Library, nm: NameMaps, s: KeyScope, item: Item) {
    && (s.organizations != [] ==>
          NamedBy(lib.cs, Resolution(lib, nm.organizations), s.organizations, item.place.organizationId))
    && (s.collections != [] ==>
          exists col | col in item.place.collectionIds ::
            NamedBy(lib.cs, Resolution(lib, nm.collections), s.collections, col))
  }

  lemma FoldsIntoIff(cs: Casing, resolve: string -> Option<string>, refs: seq<string>, id: string)
    ensures ContainsFold(cs, RefIds(resolve, refs), id) <==> NamedBy(cs, resolve, refs, id)
  {
    if ContainsFold(cs, RefIds(resolve, refs), id) {
      var x :| x in RefIds(resolve, refs) && cs.fold(x, id);
      RefIdsAre(resolve, refs, x);
      var ref :| ref in refs && resolve(ref) == Some(x);
    }
    if ref :| ref in refs && resolve(ref).Some? && cs.fold(resolve(ref).value, id) {
      RefIdsAre(resolve, refs, resolve(ref).value);
    }
  }

  lemma IntersectsIff(cs: Casing, resolve: string -> Option<string>, refs: seq<string>, cols: seq<string>)
    requires cs.Lawful()
    ensures IntersectsFold(cs, cols, RefIds(resolve, refs)) <==> exists col | col in cols :: NamedBy(cs, resolve, refs, col)
  {
    forall col
      ensures ContainsFold(cs, RefIds(resolve, refs), col) <==> NamedBy(cs, resolve, refs, col)
    {
      FoldsIntoIff(cs, resolve, refs, col);
    }
  }

  /** An allowed request sees exactly the items its query asks for that lie in the scope of
      its key. */
  lemma ScopeIsABoundary(lib: Library, nm: NameMaps, s: KeyScope, f: SecretFilter, item: Item)
    requires lib.Lawful() && DenialOf(lib, nm, Some(s)) == None
    requires f.organizationIds == [] && f.collectionIds == []
    ensures Matches(lib.cs, item, Scoped(lib, nm, s, f)) <==> Matches(lib.cs, item, f) && InScope(lib, nm, s, item)
  {
    var orgs, cols := Resolution(lib, nm.organizations), Resolution(lib, nm.collections);
    NoIdsIff(orgs, s.organizations);
    NoIdsIff(cols, s.collections);
    FoldsIntoIff(lib.cs, orgs, s.organizations, item.place.organizationId);
    IntersectsIff(lib.cs, cols, s.collections, item.place.collectionIds);
  }

  /** Resolved ids are never empty: uuid.Parse gives none, and no name map holds one. */
  lemma RefIdIsNonEmpty(lib: Library, m: map<string, string>, ref: string)
    requires lib.Lawful() && Clean(m) && RefId(lib, m, ref).Some?
    ensures RefId(lib, m, ref).value != ""
  {
    var r := TrimSpace(ref);
    if lib.parseUuid(r).None? {
      assert Least(NamedIds(lib.cs, m, r)) in NamedIds(lib.cs, m, r);
    }
  }

  /** A key scoped to organizations never sees an item that belongs to none. */
  lemma OrgScopeHidesPersonalItems(lib: Library, nm: NameMaps, s: KeyScope, item: Item)
    requires lib.Lawful() && CleanNames(nm) && s.organizations != [] && InScope(lib, nm, s, item)
    ensures item.place.organizationId != ""
  {
    var resolve := Resolution(lib, nm.organizations);
    var ref :| ref in s.organizations && resolve(ref).Some?
               && lib.cs.fold(resolve(ref).value, item.place.organizationId);
    RefIdIsNonEmpty(lib, nm.organizations, ref);
  }

  /** A key scoped to collections never sees an item that is in none. */
  lemma CollectionScopeHidesLooseItems(lib: Library, nm: NameMaps, s: KeyScope, item: Item)
    requires s.collections != [] && InScope(lib, nm, s, item)
    ensures item.place.collectionIds != []
  {
    var col :| col in item.place.collectionIds && NamedBy(lib.cs, Resolution(lib, nm.collections), s.collections, col);
  }

  // ---- Requests ----

  /** A request of an authenticated key (or of none), with the name maps its two scope
      steps happened to read; a sync may run between them. */
  datatype Request = Request(query: Query, scope: Option<KeyScope>, queryNames: NameMaps, scopeNames: NameMaps)

  ghost predicate Admitted(lib: Library, req: Request) {
    (forall e :: !Wrong(lib, req.queryNames, Trimmed(req.query), e)) && DenialOf(lib, req.scopeNames, req.scope) == None
  }

  /** The filter an admitted request looks things up under. */
  ghost function FilterFor(lib: Library, req: Request): SecretFilter
    requires Admitted(lib, req)
  {
    Scoped(lib, req.scopeNames, req.scope.value, FilterOf(lib, req.queryNames, Trimmed(req.query)))
  }

  ghost function RequestFilter(lib: Library, req: Request): Option<SecretFilter>
  {
    if Admitted(lib, req) then Some(FilterFor(lib, req)) else None
  }

  method FilterOfRequest(lib: Library, req: Request) returns (r: Option<SecretFilter>)
    requires lib.Lawful()
    ensures r == RequestFilter(lib, req)
  {
    var parsed := ParseSecretFilters(lib, req.queryNames, req.query);
    if parsed.Err? {
      return None;
    }
    var filter := new Cell(parsed.value);
    var denial := ApplyKeyScope(lib, req.scopeNames, req.scope, filter);
    if denial.Some? {
      return None;
    }
    return Some(filter.value);
  }

  datatype BadRequestKind = InvalidFormat | NameRequired

  datatype Response<T> = Success(body: T) | BadRequest(kind: BadRequestKind) | NotHere

  /** The name a path asks for, if it is well formed. */
  function RequestedName(lib: Library, decoded: Result<string, PathError>): Result<string, BadRequestKind>
  {
    match decoded
    case Err(_) => Err(InvalidFormat)
    case Ok(name) => if name == "" then Err(NameRequired) else if !lib.validName(name) then Err(InvalidFormat) else Ok(name)
  }

  /** What a client is told: the value, or one of three fixed texts. */
  ghost function Answer(cs: Casing, name: Result<string, BadRequestKind>, filter: Option<SecretFilter>, items: Cache,
                        strict: bool): Response<(string, string)>
  {
    if name.Err? then BadRequest(name.error)
    else if filter.None? then NotHere
    else
      WinnerIff(cs, items, filter.value, name.value, strict);
      match Winner(cs, items, filter.value, name.value, strict)
      case None => NotHere
      case Some(id) => Success((name.value, SecretOf(items[id])))
  }

  ghost function SecretResponse(lib: Library, decoded: Result<string, PathError>, req: Request, items: Cache, strict: bool)
    : Response<(string, string)>
  {
    Answer(lib.cs, RequestedName(lib, decoded), RequestFilter(lib, req), items, strict)
  }

  method ServeSecret(client: Client, lib: Library, decoded: Result<string, PathError>, req: Request)
    returns (resp: Response<(string, string)>)
    requires client.Valid() && lib.Lawful()
    ensures resp == SecretResponse(lib, decoded, req, client.items, client.strictMatch)
    ensures decoded.Err? ==> resp == BadRequest(InvalidFormat)
    ensures decoded == Ok("") ==> resp == BadRequest(NameRequired)
    ensures decoded.Ok? && decoded.value != "" ==> (resp == BadRequest(InvalidFormat) <==> !lib.validName(decoded.value))
    ensures resp.Success? ==> resp.body.0 == decoded.value
  {
    if decoded.Err? {
      return BadRequest(InvalidFormat);
    }
    var name := decoded.value;
    if name == "" {
      return BadRequest(NameRequired);
    }
    if !lib.validName(name) {
      return BadRequest(InvalidFormat);
    }
    var filter := FilterOfRequest(lib, req);
    if filter.None? {
      return NotHere;
    }
    var found := client.GetSecret(lib.cs, name, filter.value);
    if found.Err? {
      return NotHere;
    }
    return Success((name, found.value));
  }

  /** GET /secret/:name. */
  method GetSecret(client: Client, lib: Library, raw: string, req: Request) returns (resp: Response<(string, string)>)
    requires client.Valid() && lib.Lawful()
    ensures resp == SecretResponse(lib, Passes(TrimSpace(raw), 4), req, client.items, client.strictMatch)
  {
    var decoded := DecodeSecretPathParam(raw);
    resp := ServeSecret(client, lib, decoded, req);
  }

  /** What a listing request is told: the listing of what it may see, or one fixed text. */
  ghost predicate IsListing(lib: Library, filter: Option<SecretFilter>, items: Cache, names: NameMaps,
                            resp: Response<seq<Summary>>)
  {
    match filter
    case None => resp == NotHere
    case Some(f) => resp.Success? && Lists(resp.body, lib.cs, items, names, f)
  }

  /** GET /secrets. */
  method ListSecrets(client: Client, lib: Library, req: Request) returns (resp: Response<seq<Summary>>)
    requires client.Valid() && lib.Lawful()
    ensures IsListing(lib, RequestFilter(lib, req), client.items, client.nameMaps, resp)
  {
    var filter := FilterOfRequest(lib, req);
    if filter.None? {
      return NotHere;
    }
    var out := client.ListSecrets(lib.cs, filter.value);
    return Success(out);
  }

  // ---- Theorems about requests ----

  /** What a request sees: the items in the scope of its key that its query asks for. */
  lemma VisibleIff(lib: Library, req: Request, items: Cache, id: string)
    requires lib.Lawful() && Admitted(lib, req)
    ensures id in Visible(lib.cs, items, FilterFor(lib, req)) <==>
              && id in items
              && InScope(lib, req.scopeNames, req.scope.value, items[id])
              && Matches(lib.cs, items[id], FilterOf(lib, req.queryNames, Trimmed(req.query)))
  {
    if id in items {
      ScopeIsABoundary(lib, req.scopeNames, req.scope.value, FilterOf(lib, req.queryNames, Trimmed(req.query)), items[id]);
    }
  }

  /** A query only takes away: what a request sees, the same key sees without a query. */
  lemma QueriesOnlyNarrow(lib: Library, req: Request, items: Cache)
    requires lib.Lawful() && Admitted(lib, req)
    ensures DenialOf(lib, req.scopeNames, req.scope) == None
    ensures Visible(lib.cs, items, FilterFor(lib, req))
         <= Visible(lib.cs, items, Scoped(lib, req.scopeNames, req.scope.value, NO_FILTER))
  {
    var s := req.scope.value;
    forall id | id in Visible(lib.cs, items, FilterFor(lib, req))
      ensures id in Visible(lib.cs, items, Scoped(lib, req.scopeNames, s, NO_FILTER))
    {
      VisibleIff(lib, req, items, id);
      ScopeIsABoundary(lib, req.scopeNames, s, NO_FILTER, items[id]);
    }
  }

  lemma AnswerIsVisible(cs: Casing, name: Result<string, BadRequestKind>, filter: Option<SecretFilter>, items: Cache,
                        strict: bool)
    returns (id: string)
    requires Answer(cs, name, filter, items, strict).Success?
    ensures name.Ok? && filter.Some? && id in Visible(cs, items, filter.value)
    ensures Answer(cs, name, filter, items, strict).body == (name.value, SecretOf(items[id]))
  {
    WinnerIff(cs, items, filter.value, name.value, strict);
    id := Winner(cs, items, filter.value, name.value, strict).value;
  }

  lemma AnswerIsOfVisible(cs: Casing, name: string, f: SecretFilter, items: Cache, items': Cache, strict: bool)
    requires Visible(cs, items, f) == Visible(cs, items', f)
    requires forall id | id in Visible(cs, items, f) :: items[id] == items'[id]
    ensures Answer(cs, Ok(name), Some(f), items, strict) == Answer(cs, Ok(name), Some(f), items', strict)
  {
    HiddenItemsDoNotMatter(cs, items, items', f, name, strict);
  }

  /** What a request sees has the organization, the collection and the folder that its query
      names by id. */
  lemma ShownMeetsQuery(lib: Library, req: Request, items: Cache, id: string)
    requires lib.Lawful() && Admitted(lib, req) && id in Visible(lib.cs, items, FilterFor(lib, req))
    ensures var org, col, folder := TrimSpace(req.query.organizationId), TrimSpace(req.query.collectionId),
                                    TrimSpace(req.query.folderId);
            var place := items[id].place;
            && (org != "" ==>
                  lib.parseUuid(org).Some? && lib.cs.fold(place.organizationId, lib.parseUuid(org).value))
            && (col != "" ==>
                  lib.parseUuid(col).Some?
                  && exists c | c in place.collectionIds :: lib.cs.fold(c, lib.parseUuid(col).value))
            && (folder != "" ==>
                  lib.parseUuid(folder).Some? && lib.cs.fold(place.folderId, lib.parseUuid(folder).value))
  {
    var t := Trimmed(req.query);
    VisibleIff(lib, req, items, id);
    QueryMeans(lib, req.queryNames, t);
    MatchesIff(lib.cs, items[id], FilterOf(lib, req.queryNames, t));
    RefusedIff(lib, req.queryNames, t);
  }

  /** A secret that is served belongs to an item in the scope of the key. */
  lemma ServedFromScope(lib: Library, decoded: Result<string, PathError>, req: Request, items: Cache, strict: bool)
    returns (id: string)
    requires lib.Lawful() && SecretResponse(lib, decoded, req, items, strict).Success?
    ensures Admitted(lib, req) && id in items && InScope(lib, req.scopeNames, req.scope.value, items[id])
    ensures SecretResponse(lib, decoded, req, items, strict).body.1 == SecretOf(items[id])
  {
    id := AnswerIsVisible(lib.cs, RequestedName(lib, decoded), RequestFilter(lib, req), items, strict);
    VisibleIff(lib, req, items, id);
  }

  /** The caches hold the same items in scope. */
  ghost predicate SameInScope(lib: Library, nm: NameMaps, s: KeyScope, items: Cache, items': Cache) {
    forall id ::
      && (id in items && InScope(lib, nm, s, items[id]) ==> id in items' && items'[id] == items[id])
      && (id in items' && InScope(lib, nm, s, items'[id]) ==> id in items && items[id] == items'[id])
  }

  lemma SameVisible(lib: Library, req: Request, items: Cache, items': Cache, f: SecretFilter)
    requires lib.Lawful() && Admitted(lib, req) && SameInScope(lib, req.scopeNames, req.scope.value, items, items')
    requires f == FilterFor(lib, req)
    ensures Visible(lib.cs, items, f) == Visible(lib.cs, items', f)
    ensures forall id | id in Visible(lib.cs, items, f) :: items[id] == items'[id]
  {
    forall id
      ensures id in Visible(lib.cs, items, f) <==> id in Visible(lib.cs, items', f)
      ensures id in Visible(lib.cs, items, f) ==> items[id] == items'[id]
    {
      VisibleIff(lib, req, items, id);
      VisibleIff(lib, req, items', id);
    }
  }

  lemma ListingIsOfVisible(lib: Library, f: SecretFilter, items: Cache, items': Cache, names: NameMaps,
                           resp: Response<seq<Summary>>, resp': Response<seq<Summary>>)
    requires Visible(lib.cs, items, f) == Visible(lib.cs, items', f)
    requires forall id | id in Visible(lib.cs, items, f) :: items[id] == items'[id]
    requires IsListing(lib, Some(f), items, names, resp) && IsListing(lib, Some(f), items', names, resp')
    ensures resp == resp'
  {
    ListingIsDetermined(resp.body, resp'.body, lib.cs, items, items', names, f);
  }

  /** Items out of scope cannot be told from items that do not exist: caches that agree on
      the items in scope give the same response to every lookup, */
  lemma OutOfScopeIsUnobservable(lib: Library, decoded: Result<string, PathError>, req: Request, items: Cache,
                                 items': Cache, strict: bool)
    requires lib.Lawful()
    requires req.scope.Some? ==> SameInScope(lib, req.scopeNames, req.scope.value, items, items')
    ensures SecretResponse(lib, decoded, req, items, strict) == SecretResponse(lib, decoded, req, items', strict)
  {
    var name := RequestedName(lib, decoded);
    if Admitted(lib, req) && name.Ok? {
      SameVisible(lib, req, items, items', FilterFor(lib, req));
      AnswerIsOfVisible(lib.cs, name.value, FilterFor(lib, req), items, items', strict);
    }
  }

  /** and the same response to every listing, in whatever order either item map is visited. */
  lemma OutOfScopeIsUnlisted(lib: Library, req: Request, items: Cache, items': Cache, names: NameMaps,
                             resp: Response<seq<Summary>>, resp': Response<seq<Summary>>)
    requires lib.Lawful()
    requires req.scope.Some? ==> SameInScope(lib, req.scopeNames, req.scope.value, items, items')
    requires IsListing(lib, RequestFilter(lib, req), items, names, resp)
    requires IsListing(lib, RequestFilter(lib, req), items', names, resp')
    ensures resp == resp'
  {
    if Admitted(lib, req) {
      SameVisible(lib, req, items, items', FilterFor(lib, req));
      ListingIsOfVisible(lib, FilterFor(lib, req), items, items', names, resp, resp');
    }
  }

  // ---- Down to the payload ----

  /** A live cipher of the payload that a cached item stands for, with the organization,
      collections and folder of the item. */
  lemma LiveCipher(d: Decryption, h: seq<Option<Payload>>, id: string) returns (c: Cipher)
    requires id in CacheAfter(d, h)
    ensures Latest(h).Some? && c in Latest(h).value.response.ciphers && c.id == id && id != ""
    ensures c.deletedDate.None? || TrimSpace(c.deletedDate.value) == ""
    ensures var place := CacheAfter(d, h)[id].place;
            && place.organizationId == (if c.organizationId.Some? then TrimSpace(c.organizationId.value) else "")
            && place.collectionIds == c.collectionIds
            && place.folderId == (if c.folderId.Some? then TrimSpace(c.folderId.value) else "")
  {
    CacheIsCurrent(d, h);
    var pl := Latest(h).value;
    assert Current(d, CacheAfter(d, h), pl);
    c :| c in pl.response.ciphers && c.id == id && !Trashed(c) && LivesWhere(CacheAfter(d, h)[id].place, c);
  }

  lemma OrganizationInScope(lib: Library, nm: NameMaps, s: KeyScope, item: Item, c: Cipher)
    requires lib.Lawful() && CleanNames(nm) && InScope(lib, nm, s, item)
    requires item.place.organizationId == (if c.organizationId.Some? then TrimSpace(c.organizationId.value) else "")
    ensures s.organizations != [] ==>
              && c.organizationId.Some?
              && exists ref, id | ref in s.organizations && RefId(lib, nm.organizations, ref) == Some(id) ::
                   lib.cs.fold(id, TrimSpace(c.organizationId.value))
  {
    if s.organizations != [] {
      OrgScopeHidesPersonalItems(lib, nm, s, item);
      var resolve := Resolution(lib, nm.organizations);
      var ref :| ref in s.organizations && resolve(ref).Some?
                 && lib.cs.fold(resolve(ref).value, item.place.organizationId);
      assert RefId(lib, nm.organizations, ref) == Some(resolve(ref).value);
    }
  }

  lemma CollectionInScope(lib: Library, nm: NameMaps, s: KeyScope, item: Item, c: Cipher)
    requires InScope(lib, nm, s, item) && item.place.collectionIds == c.collectionIds
    ensures s.collections != [] ==>
              exists col, ref, id | col in c.collectionIds && ref in s.collections
                                    && RefId(lib, nm.collections, ref) == Some(id) ::
                lib.cs.fold(id, col)
  {
    if s.collections != [] {
      var resolve := Resolution(lib, nm.collections);
      var col :| col in item.place.collectionIds && NamedBy(lib.cs, resolve, s.collections, col);
      var ref :| ref in s.collections && resolve(ref).Some? && lib.cs.fold(resolve(ref).value, col);
      assert RefId(lib, nm.collections, ref) == Some(resolve(ref).value);
    }
  }

  /** The boundary, in the terms of the latest payload: a secret that is served comes from a
      live cipher whose organization, if the key names any, and one of whose collections, if
      the key names any, is an id that a reference of the key resolves to. */
  lemma ServedFromCipher(lib: Library, decoded: Result<string, PathError>, req: Request, d: Decryption,
                         h: seq<Option<Payload>>, strict: bool)
    returns (c: Cipher)
    requires lib.Lawful() && CleanNames(req.scopeNames)
    requires SecretResponse(lib, decoded, req, CacheAfter(d, h), strict).Success?
    ensures Latest(h).Some? && c in Latest(h).value.response.ciphers
    ensures c.deletedDate.None? || TrimSpace(c.deletedDate.value) == ""
    ensures c.id in CacheAfter(d, h)
            && SecretResponse(lib, decoded, req, CacheAfter(d, h), strict).body.1 == SecretOf(CacheAfter(d, h)[c.id])
    ensures req.scope.Some?
    ensures req.scope.value.organizations != [] ==>
              && c.organizationId.Some?
              && exists ref, id | ref in req.scope.value.organizations
                                  && RefId(lib, req.scopeNames.organizations, ref) == Some(id) ::
                   lib.cs.fold(id, TrimSpace(c.organizationId.value))
    ensures req.scope.value.collections != [] ==>
              exists col, ref, id | col in c.collectionIds && ref in req.scope.value.collections
                                    && RefId(lib, req.scopeNames.collections, ref) == Some(id) ::
                lib.cs.fold(id, col)
  {
    var items := CacheAfter(d, h);
    var id := ServedFromScope(lib, decoded, req, items, strict);
    c := LiveCipher(d, h, id);
    OrganizationInScope(lib, req.scopeNames, req.scope.value, items[id], c);
    CollectionInScope(lib, req.scopeNames, req.scope.value, items[id], c);
  }
}
