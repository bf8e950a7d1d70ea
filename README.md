# File-listing queries, upload payload and rename name of mystore-app

mystore-app is a file-storage web front end whose server actions talk to a
hosted document database and object store. Almost all of its code forwards
calls to that platform. This project models the small part that makes its own
decisions, in `lib/actions/file.actions.ts`:

- **Query construction** (`createQueries`). From the signed-in user, a list of
  file types, a search text, a sort specifier and an optional limit, it builds
  the ordered list of predicates sent with the "list documents" call:
  - an access predicate (owner is the user, or the user's email is among the
    file's users);
  - a type filter, a name search, a limit and a sort order, each added only
    when its JavaScript truthiness test passes.
  `CreateQueries` builds the list step by step, like the source does.
  `QueryList` is the specification function it is proved against.
- **Listing defaults** (`getFiles`). Omitted parameters take their defaults,
  and the sort defaults to `$createdAt-desc`. A missing current user is the
  error `User not found !`.
- **Upload payload**. The part of the data-URL string after the last
  `;base64,` marker (data URL syntax, section 3 of RFC 2397) is what gets
  decoded.
- **Rename**. The stored name is `name + "." + extension`, merged into the
  file's metadata record.

JavaScript's `String.prototype.split` with a non-empty string separator is
modelled in module `JsString`. It cuts at every leftmost, non-overlapping
occurrence. It is proved that joining the pieces with the separator gives
the string back, that no piece contains the separator, and that the first cut
is at the leftmost occurrence.

Points where the code is more specific than a quick description of it:

- The sort specifier is split at *every* `-`, not only the first. The
  direction is the second piece. So `size-asc-x` sorts ascending, and
  `size` alone sorts descending.
- The upload payload starts after the *last* `;base64,` marker, not the first.
- The limit predicate comes *before* the sort predicate.
- An explicitly empty sort string adds no sort predicate. The default
  `$createdAt-desc` applies only when the parameter is omitted.

Modelling choices:

- The platform's `Query` builders become the datatype `FileActions.Query`.
  `Query.contains('name', searchText)` receives a single string, which the
  client library wraps into a one-element value list; the model writes that
  list directly.
- `limit: number | undefined` is `Option<int>`, and it is truthy when present
  and non-zero.
- File types are the strings that the listing action passes on.

## Model

| member | source | states |
|---|---|---|
| `FileActions.CreateQueries` | lib/actions/file.actions.ts:18-30 | The list built by successive appends is exactly `QueryList` of the same inputs |
| `FileActions.QueryList` | lib/actions/file.actions.ts:19-29 | Starts with the access predicate `Or([Equal("owner",[id]), Contains("users",[email])])`; length is 1 plus the number of optional conditions that held |
| `FileActions.AccessFilterVisible` | lib/actions/file.actions.ts:19 | The access predicate `Or([Equal("owner",[id]), Contains("users",[email])])` admits a file iff the user owns it or the user's email is among its users |
| `FileActions.ListedFilesVisible` | lib/actions/file.actions.ts:19-29 | For every parameter choice, a file satisfying all the listing's predicates is owned by or shared with the user |
| `FileActions.QueryListOrder` | lib/actions/file.actions.ts:19-28 | Predicates appear in the order access, type, search, limit, sort, each at most once; the access predicate is the only `Or` and is first |
| `FileActions.QueryListMembers` | lib/actions/file.actions.ts:19-28 | A predicate is in the list iff it is the access predicate, or `Equal("type", types)` with types non-empty, or `Contains("name", [searchText])` with the text non-empty, or `Limit(limit)` with the limit present and non-zero, or the parsed sort order with the sort string non-empty |
| `FileActions.QueryListFilters` | lib/actions/file.actions.ts:22-23 | A type filter with the unchanged type list is present iff the types are non-empty; a name search with the search text is present iff the text is non-empty; no other equality or contains predicate is at top level |
| `FileActions.QueryListLimitSort` | lib/actions/file.actions.ts:24-28 | A limit is present iff the limit is present and non-zero, and it carries that value; a sort predicate is present iff the sort string is non-empty, and it is `SortOrder(sort)` |
| `FileActions.SortOrder` | lib/actions/file.actions.ts:26-27 | A non-empty specifier always yields an ascending or a descending order predicate |
| `FileActions.SortField` | lib/actions/file.actions.ts:26 | The sort attribute is the longest prefix of the specifier without `-` (the whole specifier when it has no `-`) |
| `FileActions.AscendingSpecifier` | lib/actions/file.actions.ts:26-27 | An ascending order on `f` comes only from a specifier `f-asc` or one starting with `f-asc-`, with `f` free of `-` |
| `FileActions.SplitFieldAsc` | lib/actions/file.actions.ts:26 | `f-asc` splits into `f` and `asc`; `f-asc-rest` splits into `f`, `asc` and the pieces of `rest` |
| `FileActions.SortAscIff` | lib/actions/file.actions.ts:26-27 | Ascending on `f` iff `f` has no `-` and the specifier is `f-asc` or starts with `f-asc-`; every other specifier is descending |
| `FileActions.DescendingPair` | lib/actions/file.actions.ts:26-27 | A specifier `f-d` whose direction `d` is not `asc` sorts descending on `f` |
| `FileActions.SortWithoutDirection` | lib/actions/file.actions.ts:26-27 | A specifier with no `-` (no second piece) sorts descending on itself |
| `FileActions.GetFilesQueries` | lib/actions/file.actions.ts:69-78 | Fails with `User not found !` exactly when there is no current user; otherwise the queries start with that user's access predicate |
| `FileActions.DefaultSortOrder` | lib/actions/file.actions.ts:69 | The default specifier `$createdAt-desc` sorts descending on `$createdAt` |
| `FileActions.OmittedSortNewestFirst` | lib/actions/file.actions.ts:69-78 | For every types, search text and limit, an omitted sort makes the last predicate `OrderDesc("$createdAt")` |
| `FileActions.OmittedTypesNoTypeFilter` | lib/actions/file.actions.ts:69-78 | For every other parameter, omitted types add no equality predicate at top level |
| `FileActions.OmittedSearchNoNameSearch` | lib/actions/file.actions.ts:69-78 | For every other parameter, an omitted search text adds no contains predicate at top level |
| `FileActions.OmittedLimitNoLimit` | lib/actions/file.actions.ts:69-78 | For every other parameter, an omitted limit adds no limit predicate |
| `FileActions.SuppliedPassedThrough` | lib/actions/file.actions.ts:69-78 | Supplied types, search text and sort, and the limit, reach the query builder unchanged |
| `FileActions.DefaultListing` | lib/actions/file.actions.ts:69-78 | With every parameter omitted the listing sends exactly `[access, OrderDesc("$createdAt")]` |
| `FileActions.EmptySortNotDefaulted` | lib/actions/file.actions.ts:69 | An explicitly empty sort string is not replaced by the default, so no order predicate is sent |
| `FileActions.Base64Payload` | lib/actions/file.actions.ts:37 | The last piece of a split on `;base64,`: a suffix of the input that contains no marker |
| `FileActions.PayloadAfterLastMarker` | lib/actions/file.actions.ts:37 | The payload is a suffix without the marker; it is the whole input iff there is no marker; otherwise a marker ends right where it starts, and every marker ends there or earlier |
| `FileActions.MarkerNoSelfOverlap` | lib/actions/file.actions.ts:37 | Two occurrences of `;base64,` never overlap |
| `FileActions.PayloadOfDataUrl` | lib/actions/file.actions.ts:37 | Inverse of building a data URL: the payload of `header;base64,data` is `data` when `data` has no marker |
| `FileActions.NewName` | lib/actions/file.actions.ts:92 | The new name is the base name, then one `.`, then the extension |
| `FileActions.NewNameParts` | lib/actions/file.actions.ts:92 | For a dot-free extension, the new name splits at its last `.` into the base name and the extension |
| `FileActions.Renamed` | lib/actions/file.actions.ts:92-95 | The renamed record's name is `name.extension`; every other field is unchanged |
| `FileActions.RenameIdempotent` | lib/actions/file.actions.ts:92-95 | Repeating the same rename gives the same record |
| `JsString.Split` | lib/actions/file.actions.ts:37 | Split always yields at least one piece, so taking the last piece is always defined |
| `JsString.JoinSplit` | lib/actions/file.actions.ts:26 | Joining the pieces of a split with the separator gives back the string |
| `JsString.SplitPiecesFree` | lib/actions/file.actions.ts:26 | No piece contains the separator |
| `JsString.SplitLeftmost` | lib/actions/file.actions.ts:26 | With several pieces, the separator occurs right after the first piece and at no earlier position, so the first cut is at the leftmost occurrence |
| `JsString.SplitSingleIff` | lib/actions/file.actions.ts:37 | Exactly one piece iff the separator does not occur |
| `JsString.LastPiece` | lib/actions/file.actions.ts:37 | The last piece is a separator-free suffix, and with several pieces the separator immediately precedes it |
| `JsString.SplitAfterHead` | lib/actions/file.actions.ts:26 | With a one-character separator, a separator-free head followed by the separator is the first piece |
| `JsString.SplitWithout` | lib/actions/file.actions.ts:26 | A string without the separator splits into itself |

## Left out

- The platform calls: `storage.createFile`, `databases.createDocument`, `listDocuments`, `updateDocument` and `deleteDocument`, and `storage.deleteFile` (lib/actions/file.actions.ts:44, 60, 80, 93, 106, 120, 124). They are remote operations with no local semantics. So `updateFileUsers` and `deleteFile` contribute nothing beyond their calls. `deleteFile`'s ordering (document first, then the stored object) is not modelled.
- Base64 decoding (`Buffer.from(..., 'base64')`) and `InputFile.fromBuffer` (lib/actions/file.actions.ts:38-41). These are library calls; only the splitting of the string is modelled.
- The upload's metadata document (lib/actions/file.actions.ts:47-57). It is built from the storage call's result and from `getFileType` and `constructFileUrl`. `lib/utils` is not part of this model. `FileRecord` only mirrors its fields so that a rename can be stated.
- `Matches`: the database's reading of `equal`, `contains` and `or` on a file record is an assumed model of the platform, written out so that the access predicate's meaning can be stated; the platform itself is not part of this model.
- `Renamed`: the database's merge of a partial update is assumed to replace the named field only. The real update happens remotely.
- `getCurrentUser` is remote. Its result is a parameter of `GetFilesQueries`.
- `parseStringify`, `revalidatePath`, `console.log` and `handleError`'s log-and-rethrow. These are serialization, cache and logging side effects.
- Strings are sequences of Unicode characters, whereas JavaScript strings are UTF-16 code units. Splitting on the ASCII separators `-`, `;base64,` and `.` is unaffected, but lengths and indices (for example `|dataUrl| - |p|` in `PayloadAfterLastMarker`) count characters, not JavaScript code units.
- `LimitIsSet`: `NaN` and fractional limits are not modelled, because the limit is an `int`.
- The user actions, the client factory with its session-cookie guard, the UI components and the build configuration. They only route between remote or framework calls.
