# SharePointOnlineCSOM: a Dafny model of its own logic

`SharePointOnlineCSOM` is a C# class that wraps the SharePoint client object
model. Most of each method is calls into that library: loading a list,
running a query, uploading bytes. This project models only the sequential
logic that the class itself contains between those calls:

- **File paths** (`filepaths.dfy`, module `FilePaths`). `UploadFileToSharePoint`
  takes the file name from a local Windows path: the part after the last
  backslash, or the whole path when it has none. `CopyDocument` and
  `UploadFileToSharePoint` build a destination as
  `TrimEnd(ServerRelativeUrl, '/') + "/" + library + "/" + name`.
- **Columns and metadata** (`documentlibrary.dfy`, module `DocumentLibraries`).
  A document library is a class. It holds its fields as a `seq` of
  (title, internal name, kind) and its items as a `map<int, map<string, Value>>`.
  - `ColumnExists` is the flag-setting scan that stops at the first field
    whose title matches.
  - `AddTextColumn` and `AddLookupColumn` append a field only when that scan
    finds nothing.
  - `ApplyTextMetadata` and `ApplyLookupMetadata` share one loop, `Apply`.
    It has no `break`: every field whose title matches gets the value written
    under its internal name on the one target item.
  - Pure functions give the meaning of these methods: `WithColumn`,
    `CountTitle` and `ApplyAll`. The lemmas are about those functions.
- **List queries** (`listqueries.dfy`, module `ListQueries`).
  - `GetItemId` applies its count policy to the ids that the file-name query
    returned.
  - `GetLookupListItems` fills the id-to-title dictionary one row at a time.
    It stops at the first row whose `Add` or `ToString` throws: the id is
    already a key, or the title is null. It returns what it has built so far.

The store is replaced by values: the fields and items of the library, the
rows or ids a query returns (in the order the store enumerates them), and the
id of a lookup source list. When the source swallows a failed round trip, the
model leaves the state as it was at that point.

Three behaviours of the code are worth stating plainly:

- `Apply` writes the value under the internal name of every field with the
  title, not only the first (SharePointOnlineCSOM.cs:291-306).
- `AddTextColumn` has no `try`, so a failure reaches the caller.
- `GetItemId` treats a count of 0 or more than 2 as ambiguous, so with 2
  matches it returns the second id.

## Model

| member | source | states |
|---|---|---|
| FilePaths.LastIndexOf | SharePointOnlineCSOM.cs:210 | -1 exactly when the backslash is absent; otherwise the position of the last backslash |
| FilePaths.FileName | SharePointOnlineCSOM.cs:209-213 | the result is a suffix of the path with no backslash; the character before it is a backslash, or it is the whole path; a path with no backslash comes back unchanged |
| FilePaths.FileNameOfJoin | SharePointOnlineCSOM.cs:209-213 | the file name of `dir\name` is `name` when `name` has no backslash |
| FilePaths.FileNameIdempotent | SharePointOnlineCSOM.cs:209-213 | extracting the file name from a file name changes nothing |
| FilePaths.TrimEnd | SharePointOnlineCSOM.cs:221 | the result is a prefix of the input that does not end in the character; every character removed was that character |
| FilePaths.TrimEndIgnoresTrailing | SharePointOnlineCSOM.cs:221 | adding any number of trailing separators to the input does not change the trimmed result |
| FilePaths.RelativePath | SharePointOnlineCSOM.cs:183 | the path is a prefix of the site URL with no trailing `/`, followed by `/library/name`; the part of the URL that was dropped is all `/` |
| FilePaths.RelativePathIgnoresTrailingSlashes | SharePointOnlineCSOM.cs:183 | a site URL with extra trailing slashes gives the same path: exactly one `/` separates site and library |
| FilePaths.UploadPath | SharePointOnlineCSOM.cs:209-221 | the upload destination ends with `/` followed by the file name of the local path |
| FilePaths.UploadPathOfLocalFile | SharePointOnlineCSOM.cs:209-221 | uploading `dir\name` targets the same path as a file called `name` placed in that library |
| DocumentLibraries.DocumentLibrary.ColumnExists | SharePointOnlineCSOM.cs:84-91 | the flag is set exactly when some field's title equals the requested name (the loop body breaks at the first match) |
| DocumentLibraries.DocumentLibrary.AddTextColumn | SharePointOnlineCSOM.cs:76-100 | the fields are unchanged if the title exists; otherwise one text field with that title is appended; the items are unchanged |
| DocumentLibraries.DocumentLibrary.AddLookupColumn | SharePointOnlineCSOM.cs:111-148 | like the text column, but the new field looks up `Title` in the source list; if the source list cannot be resolved, nothing changes |
| DocumentLibraries.EnsureColumnEstablishes | SharePointOnlineCSOM.cs:93-100 | afterwards a field with the title exists; the earlier fields are untouched; at most one field was added |
| DocumentLibraries.EnsureColumnIdempotent | SharePointOnlineCSOM.cs:84-100 | a second request with the same title leaves the fields unchanged, whatever internal name or kind it carries |
| DocumentLibraries.EnsureColumnCount | SharePointOnlineCSOM.cs:84-100 | the number of fields with the title becomes 1 if it was 0, and otherwise stays the same |
| DocumentLibraries.EnsureColumnRepeated | SharePointOnlineCSOM.cs:93-100 | one or more requests with the same title, starting from at most one such field, leave exactly one (for lookup columns: requests whose source list resolves) |
| DocumentLibraries.DocumentLibrary.Apply | SharePointOnlineCSOM.cs:291-306 | the fields are unchanged; only the target item changes, and it becomes `ApplyAll` of its old value; a missing item leaves everything unchanged |
| DocumentLibraries.DocumentLibrary.ApplyTextMetadata | SharePointOnlineCSOM.cs:282-312 | `Apply` with the text value |
| DocumentLibraries.DocumentLibrary.ApplyLookupMetadata | SharePointOnlineCSOM.cs:323-357 | `Apply` with the id of the item in the source list |
| DocumentLibraries.ApplyAllOverwrites | SharePointOnlineCSOM.cs:291-306 | the item afterwards is the old item with every internal name of a matching field, duplicates included, set to the value |
| DocumentLibraries.ApplyReadBack | SharePointOnlineCSOM.cs:293-299 | reading through any matching field's internal name gives the applied value; every other key keeps its presence and value |
| DocumentLibraries.ApplyWithoutMatch | SharePointOnlineCSOM.cs:302-305 | when no field has the title, the item is unchanged |
| DocumentLibraries.ApplyIdempotent | SharePointOnlineCSOM.cs:333-351 | applying the same value twice gives the same item as applying it once |
| ListQueries.GetItemId | SharePointOnlineCSOM.cs:245-271 | with 0 or more than 2 matches: reports ambiguity and returns 0; with 1 or 2: returns the id of the last match enumerated |
| ListQueries.StopIndex | SharePointOnlineCSOM.cs:385-394 | the rows before it are all added without an exception; the row at it (if any) makes `Add` or `ToString` throw |
| ListQueries.ReadsAllIffAdmissible | SharePointOnlineCSOM.cs:385-389 | every row is read exactly when all titles are present and no id repeats |
| ListQueries.TableOfContents | SharePointOnlineCSOM.cs:385-389 | for such rows, the table's keys are exactly their ids, it has one entry per row, and it maps each id to its row's title |
| ListQueries.GetLookupListItems | SharePointOnlineCSOM.cs:368-396 | the returned dictionary is the table of the rows before the first one that throws |
| ListQueries.LookupTablePrefix | SharePointOnlineCSOM.cs:385-395 | the returned table holds each row before the first failing one, with its title, and nothing else; it has as many entries as those rows |

## Left out

- `ConnectToSharePoint` and `GetSPOSecureStringPassword` (authentication and the library's `SecureString`) are not modelled. Neither has logic of this repository's own.
- `CreateDocumentLibrary` is not modelled. It is one library call whose exception is swallowed, with no existence check.
- Binary transfer is not modelled: `OpenBinaryDirect`, `SaveBinaryDirect` and `FileStream`. Only the paths computed before those calls are modelled. In `CopyDocument`, each item's copy has its own swallowed exception; that per-item loop is left out with the transfer.
- The CAML query text is built by string interpolation and its meaning is decided by the server, so it is left out. Each query's answer is a parameter instead.
- DocumentLibraries.DocumentLibrary.AddTextColumn: assumes the created field's title is exactly the requested name. The field definition XML at SharePointOnlineCSOM.cs:97 puts the name into its attributes unescaped, which gives that only for names without `'`, `<`, `&` or control whitespace. Another name can make malformed XML (the failure reaches the caller) or be created under a different title, which the scan then never matches. The idempotence lemmas hold under this assumption.
- DocumentLibraries.DocumentLibrary.AddLookupColumn: assumes the created field's title is exactly the requested name. The field definition XML at SharePointOnlineCSOM.cs:138 puts the name into its attributes unescaped, which gives that only for names without `'`, `<`, `&` or control whitespace. Another name can make malformed XML (the failure is swallowed) or be created under a different title, which the scan then never matches. The idempotence lemmas hold under this assumption.
- The new field's `Guid` is not modelled. The internal name that the server derives from the name hint is a parameter of `AddTextColumn` and `AddLookupColumn`. Collisions of internal names are left to the server.
- `ExecuteQuery` failures other than the ones named above are not modelled: network errors, and the server rejecting a value type. So are retries and remote consistency.
- A failed load of the library in the lookup-column and apply operations is not modelled. The model's library always exists.
- A failed all-items query in `GetLookupListItems` is not modelled separately. It returns the empty dictionary, as an empty list does.
- The console message of `GetItemId` is not modelled as output. It is the `ambiguous` result.
- `Int32.Parse(listItem["ID"].ToString())` is not modelled. Ids are taken as integers already. 32-bit bounds do not matter, because no arithmetic is done on ids.
- Whether a lookup target id exists in the source list is not checked, and the source does not check it either.
- FilePaths.LastIndexOf: .NET's `LastIndexOf(string)` at SharePointOnlineCSOM.cs:210 searches culture-sensitively in the current culture; the model searches ordinally for the one character `\`. The two can differ when a combining mark follows the last backslash.
