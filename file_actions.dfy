/** The local decision logic of the file actions: the filter, sort and limit
    predicates handed to the document database when files are listed, the
    parameter defaults and user check of the listing action, the base64 part
    of an uploaded data URL, and the name written by a rename. */
module FileActions {
  import opened Wrappers
  import opened JsString

  // ---------------------------------------------------------------------------
  // Queries

  /** The signed-in user, as far as the queries use it: the document id and the
      email address of the user record. */
  datatype User = User(id: string, email: string)

  /** A predicate of the document database's query language. */
  datatype Query =
    | Or(queries: seq<Query>)
    | Equal(attribute: string, values: seq<string>)
    | Contains(attribute: string, values: seq<string>)
    | Limit(count: int)
    | OrderAsc(attribute: string)
    | OrderDesc(attribute: string)

  predicate IsOrder(q: Query)
  {
    q.OrderAsc? || q.OrderDesc?
  }

  /** Position of each kind of predicate in a query list: access, type,
      search, limit, sort. */
  function Rank(q: Query): nat
  {
    match q
    case Or(_) => 0
    case Equal(_, _) => 1
    case Contains(_, _) => 2
    case Limit(_) => 3
    case OrderAsc(_) => 4
    case OrderDesc(_) => 4
  }

  /** A file is visible to the user who owns it or to whom it is shared. */
  function AccessFilter(user: User): Query
  {
    Or([Equal("owner", [user.id]), Contains("users", [user.email])])
  }

  /** JavaScript truthiness of `number | undefined`: neither absent nor zero. */
  predicate LimitIsSet(limit: Option<int>)
  {
    limit.Some? && limit.value != 0
  }

  /** The sort predicate of a non-empty sort specifier: split on every `-`, the
      first piece names the attribute and the second the direction; only the
      direction `asc` sorts ascending. */
  function SortOrder(sort: string): (q: Query)
    requires sort != ""
    ensures IsOrder(q)
  {
    var parts := Split(sort, "-");
    var sortBy := parts[0];
    if |parts| >= 2 && parts[1] == "asc" then OrderAsc(sortBy) else OrderDesc(sortBy)
  }

  /** The optional predicates, each an empty or a one-element list. */
  function TypeFilter(types: seq<string>): seq<Query>
  {
    if |types| > 0 then [Equal("type", types)] else []
  }

  function NameSearch(searchText: string): seq<Query>
  {
    if searchText != "" then [Contains("name", [searchText])] else []
  }

  function LimitClause(limit: Option<int>): seq<Query>
  {
    if LimitIsSet(limit) then [Limit(limit.value)] else []
  }

  function SortClause(sort: string): seq<Query>
  {
    if sort != "" then [SortOrder(sort)] else []
  }

  /** The query list for the given listing parameters: the access predicate,
      then one predicate per condition that holds. */
  function QueryList(user: User, types: seq<string>, searchText: string, sort: string, limit: Option<int>)
    : (qs: seq<Query>)
    ensures |qs| >= 1 && qs[0] == AccessFilter(user)
    ensures |qs| == 1 + (if |types| > 0 then 1 else 0) + (if searchText != "" then 1 else 0)
                      + (if LimitIsSet(limit) then 1 else 0) + (if sort != "" then 1 else 0)
  {
    [AccessFilter(user)] + TypeFilter(types) + NameSearch(searchText) + LimitClause(limit) + SortClause(sort)
  }

  /** The predicates come in the fixed order access, type, search, limit,
      sort, each kind at most once; so the access predicate is the only
      disjunction, and it is first. */
  lemma QueryListOrder(user: User, types: seq<string>, searchText: string, sort: string, limit: Option<int>)
    ensures var qs := QueryList(user, types, searchText, sort, limit);
            && (forall i, j :: 0 <= i < j < |qs| ==> Rank(qs[i]) < Rank(qs[j]))
            && (forall i :: 0 < i < |qs| ==> !qs[i].Or?)
  {
  }

  /** A predicate is in the list exactly when it is the access predicate or
      an optional predicate whose condition holds. */
  lemma QueryListMembers(user: User, types: seq<string>, searchText: string, sort: string, limit: Option<int>)
    ensures forall q :: q in QueryList(user, types, searchText, sort, limit) <==>
      || q == AccessFilter(user)
      || (|types| > 0 && q == Equal("type", types))
      || (searchText != "" && q == Contains("name", [searchText]))
      || (LimitIsSet(limit) && q == Limit(limit.value))
      || (sort != "" && q == SortOrder(sort))
  {
  }

  /** The type filter and the name search are each present exactly when
      their condition holds, and carry the given value unchanged. */
  lemma QueryListFilters(user: User, types: seq<string>, searchText: string, sort: string, limit: Option<int>)
    ensures var qs := QueryList(user, types, searchText, sort, limit);
            // a type filter carrying the type list iff there are types
            && (Equal("type", types) in qs <==> |types| > 0)
            && (forall q :: q in qs && q.Equal? ==> q == Equal("type", types))
            // a name search iff the search text is not empty
            && (Contains("name", [searchText]) in qs <==> searchText != "")
            && (forall q :: q in qs && q.Contains? ==> q == Contains("name", [searchText]))
  {
  }

  /** The limit and the sort predicate are each present exactly when their
      condition holds; the limit carries the given value and the sort
      predicate is the one parsed from the specifier. */
  lemma QueryListLimitSort(user: User, types: seq<string>, searchText: string, sort: string, limit: Option<int>)
    ensures var qs := QueryList(user, types, searchText, sort, limit);
            // a limit iff the limit is present and not zero
            && (LimitIsSet(limit) ==> Limit(limit.value) in qs)
            && (forall q :: q in qs && q.Limit? ==> LimitIsSet(limit) && limit == Some(q.count))
            // a sort predicate iff the sort specifier is not empty
            && (sort != "" ==> SortOrder(sort) in qs)
            && (forall q :: q in qs && IsOrder(q) ==> sort != "" && q == SortOrder(sort))
  {
    QueryListMembers(user, types, searchText, sort, limit);
  }

  /** Builds the query list by appending to it, one optional predicate after
      another. */
  method CreateQueries(currentUser: User, types: seq<string>, searchText: string, sort: string, limit: Option<int>)
    returns (queries: seq<Query>)
    ensures queries == QueryList(currentUser, types, searchText, sort, limit)
  {
    queries := [Or([Equal("owner", [currentUser.id]), Contains("users", [currentUser.email])])];
    if |types| > 0 {
      queries := queries + [Equal("type", types)];
    }
    assert queries == [AccessFilter(currentUser)] + TypeFilter(types);
    if searchText != "" {
      queries := queries + [Contains("name", [searchText])];
    }
    assert queries == [AccessFilter(currentUser)] + TypeFilter(types) + NameSearch(searchText);
    if limit.Some? && limit.value != 0 {
      queries := queries + [Limit(limit.value)];
    }
    assert queries == [AccessFilter(currentUser)] + TypeFilter(types) + NameSearch(searchText) + LimitClause(limit);
    if sort != "" {
      var parts := Split(sort, "-");
      var sortBy := parts[0];
      var orderBy := if |parts| >= 2 then Some(parts[1]) else None;
      queries := queries + [if orderBy == Some("asc") then OrderAsc(sortBy) else OrderDesc(sortBy)];
    }
  }

  /** The sort attribute is the longest prefix of the specifier without a `-`. */
  lemma SortField(sort: string)
    requires sort != ""
    ensures var field := SortOrder(sort).attribute;
            && field <= sort
            && '-' !in field
            && (field == sort || sort[|field|] == '-')
  {
    var parts := Split(sort, "-");
    JoinSplit(sort, "-");
    SplitPiecesFree(sort, "-");
    OccursChar(parts[0], '-');
    if |parts| >= 2 {
      assert sort == parts[0] + "-" + Join(parts[1..], "-");
    }
  }

  /** An ascending order comes from a specifier `field-asc`, possibly
      followed by more `-`-separated text. */
  lemma AscendingSpecifier(sort: string, field: string)
    requires sort != "" && SortOrder(sort) == OrderAsc(field)
    ensures '-' !in field && (sort == field + "-asc" || field + "-asc-" <= sort)
  {
    var parts := Split(sort, "-");
    SortField(sort);
    JoinSplit(sort, "-");
    var tail := Join(parts[1..], "-");
    assert sort == field + "-" + tail;
    if |parts| > 2 {
      assert parts[1..][1..] == parts[2..];
      assert tail == "asc" + "-" + Join(parts[2..], "-");
      assert sort == (field + "-asc-") + Join(parts[2..], "-");
    }
  }

  /** With a one-character separator, `field-asc` followed by nothing or by
      more `-`-separated text splits into `field`, `asc`, and the rest. */
  lemma SplitFieldAsc(field: string, rest: string)
    requires '-' !in field
    ensures Split(field + "-asc", "-") == [field, "asc"]
    ensures Split(field + "-asc-" + rest, "-") == [field, "asc"] + Split(rest, "-")
  {
    OccursChar("asc", '-');
    assert field + "-asc" == field + ['-'] + "asc";
    SplitAfterHead(field, '-', "asc");
    SplitWithout("asc", "-");
    assert field + "-asc-" + rest == field + ['-'] + ("asc" + ['-'] + rest);
    SplitAfterHead(field, '-', "asc" + ['-'] + rest);
    SplitAfterHead("asc", '-', rest);
  }

  /** The order is ascending on `field` exactly when the specifier is
      `field-asc`, possibly followed by more `-`-separated text. */
  lemma SortAscIff(sort: string, field: string)
    requires sort != ""
    ensures SortOrder(sort) == OrderAsc(field)
        <==> '-' !in field && (sort == field + "-asc" || field + "-asc-" <= sort)
  {
    if SortOrder(sort) == OrderAsc(field) {
      AscendingSpecifier(sort, field);
    }
    if '-' !in field && field + "-asc-" <= sort {
      var rest := sort[|field| + 5..];
      assert sort == field + "-asc-" + rest;
      SplitFieldAsc(field, rest);
    } else if '-' !in field && sort == field + "-asc" {
      SplitFieldAsc(field, "");
    }
  }

  /** A specifier without `-` has no direction and sorts descending on itself. */
  lemma SortWithoutDirection(sort: string)
    requires sort != "" && '-' !in sort
    ensures SortOrder(sort) == OrderDesc(sort)
  {
    OccursChar(sort, '-');
    SplitWithout(sort, "-");
  }

  // ---------------------------------------------------------------------------
  // Listing

  /** Parameters of the listing action; `None` is an omitted property. */
  datatype GetFilesProps = GetFilesProps(
    types: Option<seq<string>>,
    searchText: Option<string>,
    sort: Option<string>,
    limit: Option<int>)

  const DefaultSort: string := "$createdAt-desc"
  const UserNotFound: string := "User not found !"

  function OrElse<T>(o: Option<T>, default: T): T
  {
    if o.Some? then o.value else default
  }

  /** The queries the listing action sends for the signed-in user, if any:
      omitted parameters take their defaults (no types, no search text,
      newest first, no limit) and a missing user is an error. */
  function GetFilesQueries(currentUser: Option<User>, props: GetFilesProps): (r: Result<seq<Query>, string>)
    ensures r.Failure? <==> currentUser.None?
    ensures r.Failure? ==> r.error == UserNotFound
    ensures r.Success? ==> |r.value| >= 1 && r.value[0] == AccessFilter(currentUser.value)
  {
    if currentUser.None? then Failure(UserNotFound)
    else Success(QueryList(currentUser.value, OrElse(props.types, []), OrElse(props.searchText, ""),
                           OrElse(props.sort, DefaultSort), props.limit))
  }

  /** A specifier `field-dir` whose direction is not `asc` sorts descending
      on `field`. */
  lemma DescendingPair(field: string, dir: string)
    requires '-' !in field && '-' !in dir && dir != "asc"
    ensures SortOrder(field + "-" + dir) == OrderDesc(field)
  {
    OccursChar(dir, '-');
    assert field + "-" + dir == field + ['-'] + dir;
    SplitAfterHead(field, '-', dir);
    SplitWithout(dir, "-");
  }

  /** The default specifier sorts newest first. */
  lemma DefaultSortOrder()
    ensures SortOrder(DefaultSort) == OrderDesc("$createdAt")
  {
    assert DefaultSort == "$createdAt" + "-" + "desc";
    DescendingPair("$createdAt", "desc");
  }

  /** An omitted sort specifier lists newest first, whatever the other
      parameters are: the last predicate is a descending order on
      `$createdAt`. */
  lemma OmittedSortNewestFirst(user: User, types: Option<seq<string>>, searchText: Option<string>, limit: Option<int>)
    ensures var r := GetFilesQueries(Some(user), GetFilesProps(types, searchText, None, limit));
            r.Success? && |r.value| >= 2 && r.value[|r.value| - 1] == OrderDesc("$createdAt")
  {
    DefaultSortOrder();
  }

  /** Omitted types add no type filter, whatever the other parameters are. */
  lemma OmittedTypesNoTypeFilter(user: User, searchText: Option<string>, sort: Option<string>, limit: Option<int>)
    ensures var r := GetFilesQueries(Some(user), GetFilesProps(None, searchText, sort, limit));
            r.Success? && forall q :: q in r.value ==> !q.Equal?
  {
  }

  /** An omitted search text adds no name search, whatever the other
      parameters are. */
  lemma OmittedSearchNoNameSearch(user: User, types: Option<seq<string>>, sort: Option<string>, limit: Option<int>)
    ensures var r := GetFilesQueries(Some(user), GetFilesProps(types, None, sort, limit));
            r.Success? && forall q :: q in r.value ==> !q.Contains?
  {
  }

  /** An omitted limit adds no limit predicate, whatever the other
      parameters are. */
  lemma OmittedLimitNoLimit(user: User, types: Option<seq<string>>, searchText: Option<string>, sort: Option<string>)
    ensures var r := GetFilesQueries(Some(user), GetFilesProps(types, searchText, sort, None));
            r.Success? && forall q :: q in r.value ==> !q.Limit?
  {
  }

  /** Supplied parameters reach the query builder unchanged. */
  lemma SuppliedPassedThrough(user: User, types: seq<string>, searchText: string, sort: string, limit: Option<int>)
    ensures GetFilesQueries(Some(user), GetFilesProps(Some(types), Some(searchText), Some(sort), limit))
         == Success(QueryList(user, types, searchText, sort, limit))
  {
  }

  /** With every parameter omitted, the user's files are listed newest first
      and nothing else is asked for. */
  lemma DefaultListing(user: User)
    ensures GetFilesQueries(Some(user), GetFilesProps(None, None, None, None))
         == Success([AccessFilter(user), OrderDesc("$createdAt")])
  {
    var r := GetFilesQueries(Some(user), GetFilesProps(None, None, None, None));
    OmittedSortNewestFirst(user, None, None, None);
    assert |DefaultSort| > 0;
    assert |r.value| == 2;
    assert r.value == [r.value[0], r.value[1]];
  }

  /** An explicitly empty sort specifier does not take the default: no sort
      predicate is sent. */
  lemma EmptySortNotDefaulted(user: User, types: Option<seq<string>>, searchText: Option<string>, limit: Option<int>)
    ensures var r := GetFilesQueries(Some(user), GetFilesProps(types, searchText, Some(""), limit));
            r.Success? && forall q :: q in r.value ==> !IsOrder(q)
  {
  }

  // ---------------------------------------------------------------------------
  // Upload

  const Base64Marker: string := ";base64,"

  /** The text after the last `;base64,` marker, or all of it without one. */
  function Base64Payload(dataUrl: string): (payload: string)
    ensures |payload| <= |dataUrl| && payload == dataUrl[|dataUrl| - |payload|..]
    ensures !Occurs(payload, Base64Marker)
  {
    var parts := Split(dataUrl, Base64Marker);
    LastPiece(dataUrl, Base64Marker);
    parts[|parts| - 1]
  }

  /** Two occurrences of the marker never overlap: its first character `;`
      appears nowhere else in it. */
  lemma MarkerNoSelfOverlap(s: string, i: int, j: int)
    ensures OccursAt(s, Base64Marker, i) && OccursAt(s, Base64Marker, j) && i < j
        ==> i + |Base64Marker| <= j
  {
    if OccursAt(s, Base64Marker, i) && OccursAt(s, Base64Marker, j) && i < j {
      assert s[j] == s[j..j + |Base64Marker|][0] == ';';
      forall k | i < k < i + |Base64Marker| ensures s[k] != ';' {
        assert s[k] == s[i..i + |Base64Marker|][k - i];
      }
    }
  }

  /** The payload is the suffix after the last marker: every occurrence of the
      marker ends where the payload starts or earlier, the last one ends
      exactly there, and without a marker the payload is the whole string. */
  lemma PayloadAfterLastMarker(dataUrl: string)
    ensures var p := Base64Payload(dataUrl);
            && |p| <= |dataUrl| && p == dataUrl[|dataUrl| - |p|..]
            && !Occurs(p, Base64Marker)
            && (p == dataUrl <==> !Occurs(dataUrl, Base64Marker))
            && (Occurs(dataUrl, Base64Marker) ==> OccursAt(dataUrl, Base64Marker, |dataUrl| - |p| - |Base64Marker|))
            && (forall i :: OccursAt(dataUrl, Base64Marker, i) ==> i + |Base64Marker| <= |dataUrl| - |p|)
  {
    var p := Base64Payload(dataUrl);
    var start := |dataUrl| - |p|;
    LastPiece(dataUrl, Base64Marker);
    SplitSingleIff(dataUrl, Base64Marker);
    forall i | OccursAt(dataUrl, Base64Marker, i) ensures i + |Base64Marker| <= start {
      assert Occurs(dataUrl, Base64Marker);
      OccursInSuffix(dataUrl, Base64Marker, start, i);
      assert !OccursAt(p, Base64Marker, i - start);
      MarkerNoSelfOverlap(dataUrl, start - |Base64Marker|, i);
    }
  }

  /** Inverse of building a data URL: the payload of `header;base64,data` is
      `data` whenever `data` holds no marker (base64 text never does). */
  lemma PayloadOfDataUrl(header: string, data: string)
    requires !Occurs(data, Base64Marker)
    ensures Base64Payload(header + Base64Marker + data) == data
  {
    var s := header + Base64Marker + data;
    var p := Base64Payload(s);
    PayloadAfterLastMarker(s);
    assert s[|header|..|header| + |Base64Marker|] == Base64Marker;
    assert OccursAt(s, Base64Marker, |header|);
    var q := |s| - |p| - |Base64Marker|;
    assert OccursAt(s, Base64Marker, q);
    MarkerNoSelfOverlap(s, |header|, q);
    OccursInSuffix(s, Base64Marker, |header| + |Base64Marker|, q);
    assert s[|header| + |Base64Marker|..] == data;
    assert !OccursAt(data, Base64Marker, q - |header| - |Base64Marker|);
    assert |p| == |data|;
  }

  // ---------------------------------------------------------------------------
  // Rename

  /** The stored name of a renamed file: the new base name, a dot, and the
      file's existing extension. */
  function NewName(name: string, extension: string): (newName: string)
    ensures |newName| == |name| + 1 + |extension| && name <= newName && newName[|name|] == '.'
    ensures newName[|name| + 1..] == extension
  {
    name + "." + extension
  }

  /** Splitting the new name at its last dot gives back the base name and the
      extension, provided the extension holds no dot. */
  lemma NewNameParts(name: string, extension: string)
    requires '.' !in extension
    ensures var s := NewName(name, extension);
            var parts := Split(s, ".");
            && |parts| >= 2
            && parts[|parts| - 1] == extension
            && s[..|s| - |extension| - 1] == name
  {
    var s := NewName(name, extension);
    var parts := Split(s, ".");
    var r := parts[|parts| - 1];
    LastPiece(s, ".");
    OccursChar(r, '.');
    assert s[|name|] == '.';
    assert s[|name|..|name| + 1] == ".";
    assert OccursAt(s, ".", |name|);
    SplitSingleIff(s, ".");
    forall k | |s| - |r| <= k < |s| ensures s[k] != '.' {
      assert s[k] == r[k - (|s| - |r|)];
    }
    forall k | |name| < k < |s| ensures s[k] != '.' {
      assert s[k] == extension[k - |name| - 1];
    }
    assert s[|s| - |r| - 1] == s[|s| - |r| - 1..|s| - |r|][0];
    assert |r| == |extension|;
    assert s[|s| - |extension|..] == extension;
  }

  /** A file's metadata record, with the fields written on upload. */
  datatype FileRecord = FileRecord(
    fileType: string,
    name: string,
    url: string,
    extension: string,
    size: int,
    owner: string,
    accountId: string,
    users: seq<string>,
    bucketFileId: string)

  /** The record after a rename: the partial update `{ name: newName }`
      merged into it. */
  function Renamed(file: FileRecord, name: string, extension: string): (r: FileRecord)
    ensures r.name == NewName(name, extension)
    ensures r.(name := file.name) == file
  {
    file.(name := NewName(name, extension))
  }

  /** Repeating a rename with the same inputs changes nothing further. */
  lemma RenameIdempotent(file: FileRecord, name: string, extension: string)
    ensures Renamed(Renamed(file, name, extension), name, extension) == Renamed(file, name, extension)
  {
  }

  // ---------------------------------------------------------------------------
  // Visibility

  /** The string-valued attributes of a file record, by attribute name. */
  function StringAttribute(file: FileRecord, attribute: string): Option<string>
  {
    match attribute
    case "type" => Some(file.fileType)
    case "name" => Some(file.name)
    case "url" => Some(file.url)
    case "extension" => Some(file.extension)
    case "owner" => Some(file.owner)
    case "accountId" => Some(file.accountId)
    case "bucketFileId" => Some(file.bucketFileId)
    case _ => None
  }

  /** How the document database reads a filter predicate on a record:
      `equal` holds when the attribute is one of the values; `contains`
      holds when the `users` list holds one of the values, or a string
      attribute has one of them as a substring; `or` holds when one of its
      predicates does. Limits and orders filter nothing. */
  predicate Matches(q: Query, file: FileRecord)
    decreases q
  {
    match q
    case Or(qs) => exists i :: 0 <= i < |qs| && Matches(qs[i], file)
    case Equal(a, vs) => StringAttribute(file, a).Some? && StringAttribute(file, a).value in vs
    case Contains(a, vs) =>
      if a == "users" then exists v :: v in vs && v in file.users
      else StringAttribute(file, a).Some? && exists v :: v in vs && Occurs(StringAttribute(file, a).value, v)
    case Limit(_) => true
    case OrderAsc(_) => true
    case OrderDesc(_) => true
  }

  /** The access predicate admits a file exactly when the user owns it or the
      user's email is among the file's users. */
  lemma AccessFilterVisible(user: User, file: FileRecord)
    ensures Matches(AccessFilter(user), file) <==> file.owner == user.id || user.email in file.users
  {
    var qs := AccessFilter(user).queries;
    if file.owner == user.id {
      assert Matches(qs[0], file);
    }
    if user.email in file.users {
      assert Matches(qs[1], file);
    }
  }

  /** Every file that satisfies a listing's queries is one the user owns or
      one shared with the user, whatever the other parameters are. */
  lemma ListedFilesVisible(user: User, types: seq<string>, searchText: string, sort: string, limit: Option<int>, file: FileRecord)
    requires forall q :: q in QueryList(user, types, searchText, sort, limit) ==> Matches(q, file)
    ensures file.owner == user.id || user.email in file.users
  {
    AccessFilterVisible(user, file);
    assert AccessFilter(user) in QueryList(user, types, searchText, sort, limit);
  }
}
