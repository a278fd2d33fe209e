# SCIM 2.0 user provisioning, modelled in Dafny

This project models the core of a small SCIM 2.0 server for users (RFC 7643
section 4.1, RFC 7644). An identity provider calls it to list, read, create,
replace and patch users. The server stores the users in two tables:

- Users, whose `UserName` column has a unique index;
- Emails, keyed by `(Value, UserId)`.

The model covers six parts:

- **Common**: the option and result types, the exceptions that escape a
  handler, and C# `int` with unchecked wrap-around.
- **Strings**: the .NET string operations the core relies on:
  - `string.IsNullOrWhiteSpace`;
  - ordinal `string.Split(" eq ")`;
  - `ToLower`;
  - `Int32.ToString`, with its inverse.
- **DataModels**: the persisted `User` and `Email` rows and the constraints
  of the database. `WellFormed` states them:
  - every user sits under its own Id, which is below the next Id the store
    will hand out;
  - user names are unique;
  - each user's email rows carry its Id and have distinct values.

  This part also holds the three seed users.
- **ScimModels**:
  - the wire shapes;
  - the list and error envelopes;
  - the parsing of `filter`, `startIndex` and `count`;
  - the two directions of the user mapping, as explicit functions with
    round-trip lemmas.
- **Endpoints** covers `GET /scim/v2/users` and `GET /scim/v2/users/{id}` as
  queries over the Users table. For the list this means:
  - the case-insensitive `username` key;
  - the case-sensitive match on `UserName`;
  - descending Id order;
  - `totalResults` taken before paging;
  - LINQ `Skip`/`Take` clamping.
- **EmailReconciliation**, **PatchOperations** and **Handlers** cover the
  writes:
  - **POST** adds the mapped user under a fresh Id.
  - **PUT** overwrites the columns and reconciles the email rows by value. It
    removes the rows that are gone, updates the matching rows in place and
    appends the new ones.
  - **PATCH** walks the `Operations` array and honours only an ordinal
    `replace` whose value holds `active`.

  Each write is a function from the old tables to the new tables and the
  reply. The `ScimDbContext` class carries out these functions. Its methods
  keep `Valid()`, the database constraints.

The model follows the code where RFC 7644 and the code disagree:

- **Username clash**: RFC 7644 section 3.3 asks for 409 Conflict with
  `scimType` `uniqueness`. The code lets the database exception escape, so
  the model answers `Unhandled(UniqueViolation)` and leaves the tables as
  they were.
- **Malformed PATCH operation**: RFC 7644 sections 3.5.2 and 3.12 ask for
  400 Bad Request. In the code it throws, and the model answers `Unhandled`
  with the exception that `System.Text.Json` raises.

## Model

| member | source | states |
|---|---|---|
| Common.Wrap32 | Program.cs:97 | C# unchecked `int` arithmetic: the result is congruent to the exact value modulo 2^32 and equals it when it fits in 32 bits |
| Strings.Find | ScimModels.cs:18 | the ordinal search behind `Split`: the index of the first occurrence of the separator, or none exactly when the separator does not occur |
| Strings.SplitInTwo | ScimModels.cs:18-19 | `Split(" eq ")` yields two pieces iff the separator occurs once in the left-to-right scan, and the pieces are the text before and after it |
| Strings.ToLowerMatchesEitherCase | Program.cs:89 | a key lower-cases to `username` iff it spells `username` with each letter in either case |
| Strings.NatToString | ScimModels.cs:88 | `Int32.ToString` of a non-negative Id is a non-empty string of decimal digits |
| Strings.DecimalRoundTrip | ScimModels.cs:88 | reading the decimal text of n gives back n |
| Strings.IntToStringRoundTrip | ScimModels.cs:88 | the wire `id` text of any Id reads back as that Id |
| Strings.IntToStringInjective | ScimModels.cs:88 | two Ids have the same wire `id` iff they are equal |
| DataModels.EmailRowsKeyed | DataModels.cs:44-55 | in a well-formed database each email row belongs to exactly one existing user, a user's emails are exactly the rows with its Id, and no two rows share `(Value, UserId)` |
| DataModels.Attach | DataModels.cs:33-34 | the store-assigned key: the user gets the new Id, every email row points at it, and nothing else changes |
| DataModels.SeedIsWellFormed | DataModels.cs:16-26 | the seed rows meet every constraint and take Ids 1 to 3 |
| ScimModels.ErrorResponse | ScimModels.cs:40-51 | an error envelope always carries the Error schema URN alone, with the given status and detail |
| ScimModels.ListResponse | ScimModels.cs:31-38 | a list envelope always carries the ListResponse schema URN alone, with the given counts and resources |
| ScimModels.ParsedFilter | ScimModels.cs:11-26 | a blank filter, or one without `" eq "`, or one with a second `" eq "`, parses to no entry. Otherwise the entry is `{text before the separator ↦ text after it without its first and last character}`. A value part shorter than two characters throws `ArgumentOutOfRangeException`. There is never more than one entry |
| ScimModels.FilterClauseRoundTrip | ScimModels.cs:18-21 | `key eq "value"` parses to `{key ↦ value}` when neither part contains ` eq ` and the key does not end in ` eq` |
| ScimModels.ParsedStartIndex | ScimModels.cs:27 | `startIndex`, or 1 when it is absent |
| ScimModels.ParsedCount | ScimModels.cs:28 | `count`, or 100 when it is absent |
| ScimModels.ToPersisted | ScimModels.cs:83-86 | the name parts become FirstName, LastName and MiddleName; the other columns and the emails are copied; absent emails become none; the store will assign Id |
| ScimModels.ToWire | ScimModels.cs:87-89 | `schemas` is the User URN alone, `id` is the decimal text of Id, the name object is rebuilt, and the emails are copied element by element |
| ScimModels.PersistedRoundTrip | ScimModels.cs:83-91 | persisted → wire → persisted under the same Id gives back the user unchanged |
| ScimModels.WireRoundTrip | ScimModels.cs:83-91 | wire → persisted → wire gives back the request, with only `schemas` and `id` set by the server and absent emails turned into an empty list |
| Endpoints.GetUser | Program.cs:104-111 | an unknown Id answers with the 404 envelope "Resource Not Found"; a known one with the mapped user |
| Endpoints.FilterUsername | Program.cs:89 | the filter value whose key lower-cases to `username`, if there is one |
| Endpoints.SortDescending | Program.cs:91 | `OrderByDescending(u => u.Id)`: every selected Id once, strictly descending, and nothing else |
| Endpoints.ListedSpec | Program.cs:91 | the users loaded are exactly the selected users, each once, in strictly descending Id order |
| Endpoints.FilterByUserName | Program.cs:91 | with a non-blank value the query returns the one user whose `UserName` equals it exactly, or none |
| Endpoints.Skip | Program.cs:97 | `Enumerable.Skip`: a non-positive count skips nothing, and a count past the end leaves nothing |
| Endpoints.Take | Program.cs:97 | `Enumerable.Take`: a non-positive count takes nothing, and a count past the end takes everything |
| Endpoints.SkipCountAsWritten | Program.cs:97 | `startIndex - 1` in unchecked arithmetic, which wraps `int.MinValue` to `int.MaxValue` |
| Endpoints.SkipCount | Program.cs:97 | `startIndex - 1` without wrap-around, which agrees with the code for every other start index |
| Endpoints.Page | Program.cs:97 | a page holds at most `count` entries. From a start index of 1 or more it holds consecutive entries beginning at that 1-based position, as many as `count` allows and the list still has. From a start index of 1 or less it is the first `count` entries |
| Endpoints.PageAsWritten | Program.cs:97 | as written, `startIndex = int.MinValue` skips every entry, so the page is empty |
| Endpoints.PageOfOne | Program.cs:97 | a page of one entry at start index k is the k-th entry |
| Endpoints.MinStartIndexEmptiesPage | Program.cs:97 | as written, `startIndex = int.MinValue` empties the page of any non-empty list; the corrected page is the first page |
| Endpoints.PageAgreesAwayFromMin | Program.cs:97 | apart from `int.MinValue` the corrected page and the page as written agree |
| Endpoints.MapToWire | Program.cs:97 | each listed user is mapped to the wire, in order |
| Endpoints.ListUsers | Program.cs:88-98 | the list fails exactly when the filter cannot be parsed. Otherwise `totalResults` counts the selected users before paging. `startIndex` and `itemsPerPage` echo the request. `Resources` is the requested page of the selected users, newest Id first, skipped in unchecked 32-bit arithmetic; for every start index but `int.MinValue` this is the corrected page |
| Endpoints.MinStartIndexListsNothing | Program.cs:88-98 | `startIndex = int.MinValue` answers a non-empty user list with no resources, while the corrected page is not empty |
| Endpoints.UnfilteredListing | Program.cs:89-97 | without a filter every user is selected and the reply pages all of them, as the handler computes the page |
| Endpoints.UnfilteredPageOfOne | Program.cs:94-97 | without a filter a page of one at start index k holds the k-th user listed, and `totalResults` counts all users |
| Endpoints.SecondHighest | Program.cs:91 | the second user listed has the second-highest Id |
| Endpoints.SecondPageOfOne | Program.cs:91-97 | `startIndex=2, count=1` over two or more users answers with exactly the user with the second-highest Id, while `totalResults` counts them all |
| Endpoints.UserNameFilterParses | Program.cs:89 | for a name without ` eq `, the filter `userName eq "name"` parses to `{userName ↦ name}`, and its key is the username key |
| Endpoints.LookupByUserName | Program.cs:88-98 | for a non-blank name without ` eq `, a `userName eq "name"` lookup answers with that user alone, or with an empty list when no user has the name. A blank name, or one containing ` eq `, falls back to listing every user |
| Endpoints.SeedFilterExample | Program.cs:88-98 | over the seed rows the filter `userName eq "dslem@fake.domain"` finds Dan Slem alone |
| EmailReconciliation.LastWithFound | Program.cs:134-144 | there is a last inbound email with value v iff some inbound email carries v |
| EmailReconciliation.Row | Program.cs:142 | an added email is the inbound email as a row of the user |
| EmailReconciliation.KeptSpec | Program.cs:130-133 | the first loop keeps exactly the existing rows with an inbound value, and the rows keep their owner and distinct values |
| EmailReconciliation.IndexOfValue | Program.cs:136 | the row with the inbound value, or none exactly when no row has it |
| EmailReconciliation.UpsertSpec | Program.cs:136-143 | one inbound email updates the type and primary flag of the row with its value in place, or appends a new row when no row has the value; every other row is unchanged |
| EmailReconciliation.UpsertRows | Program.cs:136-143 | one inbound email keeps the values distinct and adds exactly its own value |
| EmailReconciliation.UpsertAllSpec | Program.cs:134-144 | the second loop keeps the values of existing rows in place and appends each new inbound value once. Each row with an inbound value ends with the type and primary flag of the last inbound email with that value |
| EmailReconciliation.ReconciledSpec | Program.cs:130-144 | after PUT the user's email values are exactly the inbound values, each once. Each row is the last inbound email with its value and belongs to the user. The kept rows stay first, in their old order |
| EmailReconciliation.ReconcileEmails | Program.cs:130-144 | the two loops compute the reconciled rows |
| EmailReconciliation.ReplaceOneEmail | Program.cs:130-144 | a row whose value the request drops is removed, and the new value is added |
| EmailReconciliation.UpdateOneEmailInPlace | Program.cs:136-139 | a row whose value the request repeats takes the inbound type and primary flag; the row it drops goes |
| PatchOperations.GetProperty | Program.cs:156-159 | `JsonElement.GetProperty`: the member, or `KeyNotFoundException` when it is absent, or `InvalidOperationException` on a non-object |
| PatchOperations.TryGetProperty | Program.cs:158 | an absent member is not an error; a non-object is |
| PatchOperations.GetString | Program.cs:158 | a string, null for JSON null, otherwise `InvalidOperationException` |
| PatchOperations.GetBoolean | Program.cs:159 | only `true` and `false` read as a bool |
| PatchOperations.Operations | Program.cs:156 | the body yields its operations exactly when it is an object whose `Operations` member is an array |
| PatchOperations.StepSpec | Program.cs:158-159 | an operation throws iff it is malformed, naming the missing `op` or `value` member where one is missing. A `replace` (exact case) whose value holds a boolean `active` sets Active. Anything else changes nothing |
| PatchOperations.AppliedClean | Program.cs:156-162 | with well-formed operations the last `replace` of `active` wins; with none, Active is unchanged |
| PatchOperations.AppliedStops | Program.cs:156-162 | the first malformed operation stops the loop with the Active value reached before it |
| PatchOperations.ApplyOperations | Program.cs:156-162 | the loop over the operations computes that outcome |
| PatchOperations.PatchExamples | Program.cs:158 | deactivation sets Active to false; a `replace` of another attribute and a capitalised `Replace` are ignored |
| Handlers.CreateSpec | Program.cs:116-121 | POST keeps the constraints. On success the new user sits under an Id no user had. The location is `users/{Id}` and the reply is the request with that `id` and the User schema, with absent emails answered as an empty list. Duplicate inbound email values or a taken user name fail and store nothing |
| Handlers.UpdateSpec | Program.cs:126-147 | PUT keeps the constraints. An unknown Id answers 404. Missing emails throw `ArgumentNullException` when the user has email rows and `NullReferenceException` when it has none; a user name taken by another user throws too; none of these stores anything. A known Id with emails and a user name no other user has succeeds, and only then; only the addressed user changes: Id kept, columns from the request, emails reconciled |
| Handlers.PatchSpec | Program.cs:152-164 | PATCH keeps the constraints and changes nothing but the addressed user's Active. An unknown Id answers 404. A body without an `Operations` array changes nothing. Well-formed operations leave the value of the last `replace` of `active` |
| Handlers.PatchStopsAtFault | Program.cs:156-163 | a malformed operation ends PATCH with an exception; the user keeps the Active value reached before it |
| Handlers.ScimDbContext.constructor | DataModels.cs:17-26 | a fresh database holds the seed rows, valid, with Ids 1 to 3 taken |
| Handlers.ScimDbContext.CreateUser | Program.cs:116-121 | the database after POST is the one `Create` specifies, and stays valid |
| Handlers.ScimDbContext.UpdateUser | Program.cs:126-147 | the database after PUT is the one `Update` specifies, with the emails reconciled by the two loops, and stays valid |
| Handlers.ScimDbContext.UpdateUserPartial | Program.cs:152-164 | the database after PATCH is the one `Patch` specifies, and stays valid |

## Left out

- Host configuration, JSON serializer options, Swagger and route metadata, and `app.Run` (Program.cs:11-82, 170) are wiring with no logic. Okta authentication and authorization are foreign calls: every request is taken as authorized.
- Entity Framework internals: `DbContextPool`, SQLite, async saves and change tracking. Each handler is one atomic update of the two tables. The store's Id generation is a counter `nextId` above every Id, and a failed save does not use it up.
- Handlers.ScimDbContext.UpdateUserPartial: the code saves after each operation. The model writes the Active value reached once, at the end. The final tables are the same, including after an exception. Intermediate states that a concurrent request could see are not modelled.
- Concurrency between requests: the code has none of its own.
- `SetValues` matches columns by name, and whether it touches the key is library behaviour. The model keeps `Id`. For an email row (Program.cs:139) it deliberately takes the type and primary flag from the inbound email. If the name match is case-sensitive, the lower-case `value`, `type` and `primary` of the wire email match none of the row's columns, and the row would stay unchanged. The model does not capture that reading.
- ScimModels.ListResponse: `schemas` is a public field of the list envelope (ScimModels.cs:33), and `System.Text.Json` skips fields unless `IncludeFields` is set, which the host never does. So the list reply on the wire has no `schemas` member, while the model's envelope carries it. JSON serialization is not modelled.
- AutoMapper's mapping of an inbound `id` onto `Id` is not modelled; Id always comes from the store.
- ScimModels.ParsedFilter: strings are sequences of Unicode scalar values, not UTF-16 code units, so `Substring(1, Length - 2)` is measured in characters. A value part holding a character outside the Basic Multilingual Plane at its edge parses differently: `userName eq 😀` yields an empty value in .NET but `ArgumentOutOfRangeException` in the model, and `k eq "a😀` keeps a lone high surrogate in .NET but not in the model.
- Strings.ToLower: culture-sensitive casing is not modelled; only the ASCII letters are lower-cased.
- A missing `name` object, or another missing non-nullable string, in a request is not modelled. Those fields are always present in the model.
- JSON: an object is a map, so duplicate member names are not modelled; numbers are integers. The body's other members, such as `schemas`, are ignored, as in the code.
- Ids and `totalResults` are unbounded integers: overflow past `int.MaxValue` users is not modelled.
- The database returns a user's email rows in no particular order. The model keeps them in the order they were written.
- A non-numeric `{id}` fails to bind to the handler's `int id` parameter, and the host answers 400 Bad Request before the handler body runs; not modelled.

## Findings

| source | as written | input that shows it | evidently intended | confidence | as-written member | corrected member |
|---|---|---|---|---|---|---|
| Program.cs:97 | `Skip(request.parsedStartIndex - 1)` subtracts in the default unchecked `int` context | `startIndex=-2147483648` over any non-empty list: the subtraction wraps to `int.MaxValue` and the page is empty | a start index below 1 is read as 1 (RFC 7644 section 3.4.2.4), so the first page is returned | not executed | Endpoints.MinStartIndexListsNothing | Endpoints.Page |
