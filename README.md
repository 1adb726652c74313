# Stop registry

A Dafny model of the stop registry behind a small Flask service (`app.py`). The service keeps a
`stops` table keyed by `stop_id`. Each row holds a name, a location, the time of its last change,
its own URI and the last known next departure. Six endpoints act on the table:

- `PUT /stops?query=…` imports up to five stops from a transit search.
- `GET /stops/{id}` reads one stop. It stores the next departure and computes the neighbouring
  ids, and an `include` argument filters the fields.
- `DELETE /stops/{id}` removes one stop.
- `PATCH /stops/{id}` validates a partial update and writes only the supplied fields.
- `GET /operator-profiles/{id}` collects up to five distinct operator names from a departure board.
- `GET /guide` requires at least two stored stops.

The table is the field `stops: map<int, Stop>` of the class `Registry.StopRegistry`. It is
updated in place, and each endpoint is a method on it. Every method is proved to compute a
specification function: `Importing.ImportSpec`, `Endpoints.ReadSpec`, `DeleteSpec`,
`PatchSpec`, `OperatorsSpec` and `GuideSpec`. Each method also keeps the table invariant
`WellFormed`: every row's link names its own id. The lemmas about the specification functions
state what the service promises.

The transit provider's responses are input values (`Upstream.SearchResponse`,
`Upstream.BoardResponse`), as is the formatted clock reading `now`. An uncaught exception in a
handler, which Flask answers with HTTP 500, is the reply `Crashed`.

Modules:

- `wrappers.dfy`: `Option`, `Result` and the reply type.
- `decimal.dfy`: `str(int)` and its inverse.
- `text.dfy`: `str.strip`, `split` and `join`.
- `ordinal.dfy`: the neighbour ids and the ascending id order.
- `timestamp.dfy`: `strptime` with the format `%Y-%m-%d-%H:%M:%S`, and `strftime`.
- `upstream.dfy`: the provider's responses, the status mapping, the departure choice and the operator loop.
- `stops.dfy`: rows, links and the `include` filter.
- `patch.dfy`: patch validation and merge.
- `importing.dfy`: the import scan.
- `endpoints.dfy`: the endpoint specifications.
- `registry.dfy`: the store class.

Where the code and its documentation disagree, the model follows the code:

- **5xx from the provider.** The import and both departure-board endpoints test `not r`, which is
  true for every 4xx and 5xx status. For the departure boards, and for an import whose search body
  parses as JSON, a 5xx from the provider therefore gets 404 "could not be found", not the
  documented 503. There, 503 is returned only for statuses below 200, for 3xx, and for 600 and
  above (`Upstream.BoardStatusError`, `Importing.ImportSpec`). An import whose search body is not
  JSON gets 400 for status 400, 404 for status 404, and 503 for every other status, 5xx included.
- **Import with no `'stop'` candidate.** If none of the five candidates has type `'stop'`, the
  handler falls off its end. It then answers 200 with a JSON `null` body (`NoBody(200)`).
- **The patch endpoint is modelled with its fix.** As written, the patch handler raises (500) on
  every body that passes the parser and guards but supplies no `name`; see "## Findings". The
  patch endpoint (`Endpoints.PatchSpec`, `Registry.StopRegistry.Patch`) and the lemmas about it
  describe the handler with that fix (`PatchRules.ValidatePatch`). The handler as written is
  `PatchRules.ValidatePatchAsWritten`, and `PatchRules.AsWrittenAgreesWithName` shows that the two
  differ only on bodies without a `name`.
- **`include` naming a protected field.** Naming `_links` or `stop_id` in `include` is answered
  with 400. This check comes after the stored-id check, so an unknown id gets 404 first.

## Model

| member | source | states |
|---|---|---|
| Registry.StopRegistry.constructor | app.py:69-70 | A fresh table is empty and well formed. |
| Registry.StopRegistry.Import | app.py:66-129 | The reply and the new table are those of `ImportSpec` on the old table, and the table stays well formed. |
| Registry.ScanCandidates | app.py:95-124 | The import loop over the first five candidates ends with the table, answer list, "already stored" flag and raise flag that `ScanUpTo` gives, and keeps the table well formed. |
| Registry.StopRegistry.Read | app.py:185-307 | The reply and the new table are those of `ReadSpec` on the old table, and the table stays well formed. A 200's self link is the link of the id read. |
| Registry.StopRegistry.Delete | app.py:312-340 | The reply and the new table are those of `DeleteSpec` on the old table, and the table stays well formed. |
| Registry.StopRegistry.Patch | app.py:346-494 | The reply and the new table are those of `PatchSpec` (the handler with the fix for a missing `name`) on the old table, and the table stays well formed. |
| Registry.StopRegistry.Operators | app.py:512-549 | The reply is `OperatorsSpec` of the table, and the table is not written. |
| Registry.StopRegistry.Guide | app.py:581-591 | The reply is `GuideSpec` of the table, and the table is not written. |
| Importing.InsertSorted | app.py:122-123 | Appending an entry and re-sorting adds exactly that entry: the multiset of entries grows by one, and membership is the old entries plus the new one. |
| Importing.InsertSortedAscending | app.py:122-123 | Inserting an id not yet listed keeps the answer list strictly ascending by `stop_id`. |
| Importing.CrashedStays | app.py:97-98 | Once a pass of the loop raises, later passes change neither the table nor the answer. |
| Importing.ScanRaises | app.py:97-98 | The scan raises exactly when some index it reaches is past the end of the list or names a candidate without `type`. |
| Importing.ScanKeeps | app.py:100-105 | Every row stored before the import is kept unchanged; a stored id is never overwritten. |
| Importing.ScanAdds | app.py:106-111 | Every id the scan adds is a `'stop'` candidate among the ones reached, stored with its name, location, `now`, its link and no departure. |
| Importing.ScanKeys | app.py:97-111 | Without a raise, the stored ids afterwards are the old ids plus the ids of every `'stop'` candidate reached. |
| Importing.ScanFlag | app.py:98-105 | Without a raise, the "already stored" flag is set exactly when some `'stop'` candidate reached was already stored, either before the import or by an earlier pass. |
| Importing.ScanCreated | app.py:106-124 | The answer list is strictly ascending and lists exactly the ids the scan added, each with time `now` and its stop link. |
| Importing.ScanIgnoresRest | app.py:97 | The scan never looks past the first `n` candidates. |
| Importing.ImportRejected | app.py:77-92 | Every search the scan does not run on leaves the table unchanged. A non-JSON body gives 400 for status 400, 404 for status 404, and 503 otherwise. With a JSON list: an absent query or status 400 gives 400 "not valid". Otherwise a 4xx/5xx status, status 404, an empty list or a first candidate without `type` gives 404 "could not be found". Any other non-2xx status gives 503 "not available". |
| Importing.ImportShortListRaises | app.py:97-98 | Once the status checks pass, the import raises exactly when one of the first five indices is missing or lacks `type`. |
| Importing.ImportKeepsStored | app.py:97-112 | The import keeps every stored row as it was and adds only records built from `'stop'` candidates among the first five. |
| Importing.ImportAlreadyStored | app.py:97-127 | The 200 "already in the database" answer comes exactly when no pass raised and one of the first five `'stop'` candidates was stored before it was reached. This answer wins over creation. |
| Importing.ImportCreated | app.py:106-129 | A 201 lists, in strictly ascending `stop_id`, exactly the stops the import created, each with `now` and its link. The table then holds every `'stop'` among the first five. |
| Importing.ScanCreatedEmpty | app.py:106-124 | Without a raise, the answer list is empty exactly when every `'stop'` candidate reached was already stored before the import. |
| Importing.ImportOutcome | app.py:97-129 | Once the status checks pass, 201 comes exactly when no pass raised, no `'stop'` candidate was met already stored, and some `'stop'` among the first five is new. The bare 200 comes exactly when no pass raised, none was met already stored, and none is new. |
| Importing.ImportReadsFirstFive | app.py:97 | The answer and the new table depend only on the first five candidates. |
| Endpoints.ReadFailureKeepsStore | app.py:186-234 | Every answer but a 200 leaves the table unchanged. A 200 comes exactly when the id is non-zero and stored, `include` names no protected field, the status is 2xx, and some departure has both platform and direction. Id 0 gives 400 "not valid", an unstored id 404 "not in the database", a protected `include` 400, and a 2xx board with no usable departure 404 "no valid next departure". |
| Endpoints.ReadWritesDeparture | app.py:224-240 | A successful read overwrites only `depa` (with the first qualifying departure) and `time` (with `now`) of that one row; all other rows and fields are unchanged. |
| Endpoints.ReadLinks | app.py:242-291 | After a successful read, `self` is the row's stored link. `next` is the link of the smallest stored id above, or the last-stop notice when there is none. `prev` is the link of the largest stored id below, or the first-stop notice. |
| Endpoints.ReadSelfLink | app.py:242-243 | On a well-formed table, the self link of a successful read is the stop URI of the id read. |
| Endpoints.ReadFields | app.py:293-307 | Each optional field of a successful read is present exactly when `include` is empty or lists it, and then holds the value just stored. |
| Endpoints.DeleteRemovesOne | app.py:313-340 | Id 0 gives 400 "Input stop_id is not valid." and an unstored id gives 404 "This stop is not in the database.", both leaving the table unchanged. A stored id gives 200 and exactly that id is removed; every other row is untouched. |
| Endpoints.DeleteThenRead | app.py:312-340 | After deleting a stored id, reading it gives 404, and its former predecessor's next neighbour is its former next neighbour. |
| Endpoints.PatchRejectedKeepsStore | app.py:347-455 | Every validation answer comes before the first write: a rejected update leaves the table unchanged, and the corrected handler never raises. A forbidden key, or no allowed key, on a stored id gives 400. |
| Endpoints.PatchRejectsBadTime | app.py:439-455 | A supplied, non-blank `last_updated` that `checktime` rejects gives 400 and leaves the table unchanged. |
| Endpoints.PatchSucceeds | app.py:347-457 | With the fix for a missing `name`, an update succeeds exactly when the id is non-zero and stored, the body passes the parser and both key-set guards, and `last_updated` is absent, blank or a timestamp. |
| Endpoints.PatchTouchesOneStop | app.py:459-494 | A successful update answers 200 with the id, the time written and the stop link. It rewrites only that row, and keeps its link. |
| Endpoints.PatchWritesSupplied | app.py:391-480 | With the fix for a missing `name`, a successful update writes the parsed name and departure when supplied, each coordinate when supplied and not 0.0, and always `time`. The time is the supplied non-blank timestamp, or `now`. Unsupplied fields keep their stored values. The written time always passes `checktime` or is `now`. |
| Endpoints.PatchWritesPlain | app.py:391-480 | For a body without arrays, a successful update of the handler with the fix for a missing `name` writes the trimmed name and departure. A supplied coordinate `v` is written as `v`, except that 0.0 keeps the stored value. A non-blank `last_updated` `t` is written as its trimmed text; otherwise `now` is written. |
| Endpoints.MergeTwice | app.py:462-480 | Writing the same fields into the same row twice stores what writing them once does. |
| Endpoints.PatchIdempotent | app.py:459-480 | Repeating an update with the same body at the same time changes nothing more. |
| Endpoints.OperatorsCollected | app.py:537-549 | From a usable board, the answer is one to five distinct operator names of the board, and every name it holds is the operator name of some departure. With fewer than five, it holds every name on the board. It answers 404 exactly when no departure carries a name. |
| Endpoints.GuideSpec | app.py:584-591 | The guide goes ahead exactly when two or more stops are stored, otherwise 400 with its message. It hands on every stored name in ascending id order. |
| PatchRules.NonEmptyText | app.py:166-173 | A value converts to a name or departure exactly when it is a string that is not all whitespace; it is then its stripped text. |
| PatchRules.FloatValue | app.py:174-175 | A value is refused as a coordinate exactly when it is null, an array, an object, or a string `float()` cannot read. A number converts to itself, and a boolean to 1.0 or 0.0. |
| PatchRules.StrValue | app.py:176 | `last_updated` refuses only null. A string becomes its stripped text; any other value becomes its rendered text. |
| PatchRules.Lookup | app.py:171-176 | An argument is absent when its key is missing or holds an empty array. One refused value among its values refuses the request. Otherwise the argument is the first converted value: the value itself, or an array's first element. |
| PatchRules.ParseRefusal | app.py:171-176 | Parsing fails exactly when some value supplied for a declared argument is refused by that argument's type. |
| PatchRules.Screen | app.py:367-389 | A body passes the parser stage and both key-set guards exactly when it parses, has no `_links` or `stop_id`, and has at least one allowed key. Each failure gives its own message, in the handler's order. |
| PatchRules.TimeRule | app.py:439-457 | `last_updated` passes exactly when it is absent, blank, or a string that `checktime` accepts. A passing non-blank text is written as given, otherwise `now` is written. Anything else is refused with the time message. |
| PatchRules.ValidatePatchAsWritten | app.py:367-457 | The handler as written answers a failed parse or guard with its message. Every screened body without a name raises, so no body without a `name` is accepted. |
| PatchRules.ValidatePatch | app.py:367-457 | The corrected validator never raises, and answers a failed parse or guard with its message. It accepts exactly when the body is screened and the time is acceptable, and otherwise refuses with the time message. An accepted update writes each supplied name and departure, each supplied non-zero coordinate, and the supplied non-blank time or `now`. |
| PatchRules.GuardsReject | app.py:369-389 | A body with `_links` or `stop_id`, or with no allowed key, is refused with 400 before any field is read. |
| PatchRules.BadTimeRejected | app.py:446-455 | A supplied `last_updated` string whose stripped text is not blank and that `checktime` rejects is answered with 400. |
| PatchRules.PlainBodyFields | app.py:391-457 | For a body without arrays, an accepted update writes the trimmed name and departure, each coordinate's float value unless 0.0, and the trimmed non-blank time or `now`; unsupplied fields are not written. |
| PatchRules.PlainBodyAccepted | app.py:367-457 | A body without arrays is accepted when it parses, has no forbidden key, has an allowed key, and its `last_updated`, if any, is a string that is blank once trimmed or passes `checktime`. |
| PatchRules.AsWrittenAgreesWithName | app.py:391-450 | Both validators agree on every body that fails the screen, and on every screened body that supplies a name. The one as written raises on every screened body without a name. |
| PatchRules.AbsentNameCrashes | app.py:391-394 | For a body holding only a latitude, the handler as written raises, while the corrected one accepts it and writes the latitude and `now`. |
| PatchRules.ArraysReadFirst | app.py:171-176 | An array under a key is read by its first element. An accepted update writes the trimmed first string of a `name` array. A `last_updated` array whose first element is a string is accepted exactly when that string, trimmed, is blank or passes `checktime`, and that string or `now` is written. |
| PatchRules.Merge | app.py:462-480 | The merged row takes each supplied field and the new time; every other field, and always the link, is kept. |
| PatchRules.MergeIdempotent | app.py:462-480 | Merging the same fields twice gives what merging once does. |
| Upstream.BoardStatusError | app.py:213-218 | The handler goes on exactly for a 2xx status. 400 comes exactly from 400. 503 comes exactly from statuses below 200, 3xx, or 600 and above. Every other status gives 404. |
| Upstream.FirstQualifying | app.py:225-231 | The index found is the first departure with both platform and direction; every earlier one lacks one of them. |
| Upstream.NextDeparture | app.py:224-234 | There is no next departure exactly when no departure has both a platform and a direction. |
| Upstream.SelectDeparture | app.py:224-231 | The loop over the board finds the description of the first qualifying departure, or none. |
| Upstream.OperatorNamesExact | app.py:538-542 | A name is collected exactly when some departure carries it as its operator name; departures whose `line`, `operator` or `name` key is missing, or whose name is null, add nothing. |
| Upstream.Dedup | app.py:543-544 | The de-duplicated names are distinct, and they are exactly the names of the board. |
| Upstream.FirstIndex | app.py:543-544 | The index found holds the value, and no earlier index does. |
| Upstream.FirstIndexUnique | app.py:543-544 | The first occurrence is the only index that holds the value with no earlier copy. |
| Upstream.DedupOrder | app.py:543-544 | The de-duplicated names come in the order of their first occurrence on the board. |
| Upstream.FiveCollected | app.py:545-546 | Once five distinct names are held, later departures cannot change the first five. |
| Upstream.CollectOperators | app.py:537-546 | The loop's list is the first five distinct names of the board in board order. |
| Upstream.CollectedOperators | app.py:537-549 | The collected list has at most five distinct names, all from the board. With fewer than five, it holds every name on the board. It is empty exactly when the board has no name. |
| Upstream.CollectedInOrder | app.py:537-546 | The collected names come in the order of their first departure. A name whose first departure comes before that of a collected name is itself collected. |
| StopRecords.StopLinkInjective | app.py:107 | Distinct ids have distinct stop URIs. |
| StopRecords.RewriteKeepsWellFormed | app.py:107-111 | Writing a row that carries its own id's link keeps every row's link naming its id. |
| StopRecords.RemoveKeepsWellFormed | app.py:333 | Deleting a row keeps every remaining link naming its id. |
| StopRecords.IncludeItems | app.py:194-198 | `include` gives no items exactly when it is absent or empty. |
| StopRecords.FilterFields | app.py:293-307 | Deleting unlisted keys from a copy gives the filtered document. |
| StopRecords.IncludeShowsListed | app.py:293-307 | The filtered document always keeps the id and the links. Each optional field is kept exactly when `include` is empty or lists it, and then with its full value. |
| StopRecords.IncludeItemsExact | app.py:196 | The items hold no comma and join back to the `include` text, so an item matches a field only when equal to its key. |
| Ordinal.NextId | app.py:245-250 | The next id is the smallest stored id strictly greater; it is absent exactly when none is greater. |
| Ordinal.PrevId | app.py:252-257 | The previous id is the largest stored id strictly smaller; it is absent exactly when none is smaller. |
| Ordinal.NextThenPrev | app.py:245-257 | From a stored id with a next neighbour, the next neighbour's previous neighbour is that id. |
| Ordinal.PrevThenNext | app.py:245-257 | From a stored id with a previous neighbour, the previous neighbour's next neighbour is that id. |
| Ordinal.RemovalJoinsNeighbours | app.py:245-257 | Removing a stored id makes its previous neighbour's next neighbour the removed id's next neighbour. |
| Ordinal.Ascending | app.py:584-586 | The table scan lists each stored id once, in strictly ascending order. |
| Text.Strip | app.py:166-172 | `strip()` is at most as long as its input, and starts and ends with a non-space. It is empty exactly when the input is all whitespace. |
| Text.StripIsInfix | app.py:166-172 | `strip()` keeps one contiguous part of its input and removes only whitespace around it. |
| Text.StripIdempotent | app.py:166-172 | Stripping twice (the parser's trim, then `non_empty_str`) gives what stripping once does. |
| Text.Split | app.py:196 | A split has at least one part, and no part holds the separator. |
| Text.JoinSplit | app.py:196 | Joining the parts of a split with its separator gives back the text. |
| Text.SplitJoin | app.py:196 | Splitting a join of separator-free parts gives back the parts. |
| Timestamp.DaysInMonth | app.py:439-444 | Every month has between 28 and 31 days, with February's leap-year rule. |
| Timestamp.ParseTime | app.py:439-444 | Whatever `strptime` accepts denotes a real date and time. |
| Timestamp.FormatRoundTrip | app.py:439-457 | Every clock reading the handler formats reads back as itself, so it passes `checktime`. |
| Timestamp.UnpaddedFieldsAccepted | app.py:441 | `strptime` also accepts one-digit month, day, hour, minute and second. |
| Timestamp.NonexistentDayRejected | app.py:441 | A day past the end of its month is rejected. |
| Timestamp.TrailingTextRejected | app.py:441 | A seconds field longer than two digits is rejected. |
| Decimal.IntToString | app.py:107 | `str(id)` is non-empty and starts with `-` exactly for a negative id. |
| Decimal.IntToStringRoundTrip | app.py:107 | Reading back `str(id)` gives the same integer. |
| Decimal.IntToStringInjective | app.py:107 | Distinct integers have distinct decimal texts. |

## Left out

- HTTP routing, the `api.model` schemas and the request plumbing are not modelled. Each endpoint
  takes the route's integer `stop_id`, the query argument and the parsed JSON body as inputs. An
  absent query or `include` argument is the empty string.
- The requests to the transit provider are not modelled. Each response is an input value: its
  status, and its parsed list, or None when the body is not JSON. For a departure board, None also
  covers a body without a `departures` key; reading such a board raises, which is the `Crashed` reply.
- The AI text generation of the operator-profile and guide endpoints is out of scope, and so are
  the file write and download of the guide. These are foreign services and file I/O. Those
  endpoints are modelled up to the list they hand to the generator: the operator names, and the
  stored names (joined with `; ` in the source).
- The sqlite connection, commits and `sqlite3.Error` handling are not modelled. The table is a map
  with atomic writes. Each import insert is committed at once, so rows inserted before a raise
  stay; the model keeps them.
- The SQL text is built by string interpolation in the patch writes. The model treats each value
  as stored as given, with no quoting and no injection.
- The `UPDATE stops SET stop_id=... WHERE time=...` issued for an already-stored import id is
  modelled as a no-op, and that is not always what it does. It rewrites the `stop_id` of every row
  stamped with the current second, such as a row created earlier in the same request. When that
  row is not the stored one, the new id collides with the stored row's primary key.
  `sqlite3.IntegrityError` then escapes and the answer is 500. The model omits this, and it also
  reads the clock once (`now`) where the source reads it on every pass.
- `datetime.now()` is the parameter `now`, already formatted. Its format is `Timestamp.Format`,
  and `Timestamp.FormatRoundTrip` shows that `checktime` accepts it.
- The argument parser also reads the query string and form data (`request.values`) besides the
  JSON body. Only the JSON body is modelled, and a body that is not a JSON object is not modelled.
- Float parsing and float values are opaque. A coordinate is a `real`. What `float()` makes of a
  string is carried in the JSON value (`asFloat`). The patch writes a coordinate into the table as
  the text of the float; the model stores the value.
- Registry.StopRegistry.Read: the model assumes stored rows have a name and a location. In the
  source, a row without them would make `float(None)` raise; the model cannot produce such a row,
  since every insert supplies them.
- Candidates and departures are records with the fields the handlers read. A candidate's `id` is
  an integer. A missing `id`, `name` or `location` key on a `'stop'` candidate, which would raise,
  is not modelled. A missing `type` key is modelled.
- The `stop_id` field that the delete and patch answers carry beside their message is not
  modelled. The replies carry the message only.
- The profile text, guide text and `NOTFOUND` check are out of scope, for the reason above.
- Environment loading and `app.run` are not modelled.
- The import endpoint's `for i in range(5)` has no length check. It is modelled as written: a list
  shorter than five, or a candidate without `type` among the first five, makes the handler raise
  (`Crashed`) after the earlier inserts.
- Timestamp.ParseTime: `strptime`'s patterns for `%Y`, `%d`, `%H`, `%M` and `%S` use `\d`, which
  also matches non-ASCII Unicode decimal digits (Arabic-Indic or full-width digits, say). The
  model accepts ASCII digits only, so a timestamp written with other decimal digits is refused
  here but accepted by the source.
- PatchRules.StrValue: the text `str()` renders for a non-string `last_updated` (a number, a
  boolean, an object) is not modelled. It never has the timestamp form, so it is refused with 400
  either way.
- The handler's answers "Your update name is invalid.", "... next_departure ...", "... latitude
  ..." and "... longitude ..." are not modelled: they cannot be given. The parser hands on a
  converted string or float for each supplied argument (the first value of an array), so the
  handler's `isinstance` checks always pass.
- Answers to a malformed provider response that raise are not modelled: a departure without a
  `platform` or `direction` key (app.py:226), a `line` or `operator` that is null in the operator
  scan, which raises `TypeError` past the `KeyError` handler (app.py:539-542), and a JSON search
  body that is not a list (an object or a number, say), which the import's checks and scan
  index as a list. Each of these either raises (500) or is answered by the source's checks in
  ways the model does not follow; a JSON string body that reaches those checks, for one, gets 404.
  The model's departures and candidates are records of the fields read.
- Endpoints.GuideSpec: the table scan order of the guide's query, which has no `ORDER BY`, is
  taken to be ascending `stop_id`. That is the rowid order of an `INTEGER PRIMARY KEY` table.

## Findings

| source | as written | input that shows it | evidently intended | confidence | as-written member | corrected member |
|---|---|---|---|---|---|---|
| app.py:391-394 | `up_name.strip()` is called even when no `name` was supplied, so `data.get('name')` is None and the call raises (HTTP 500). | a patch body `{"latitude": 52.5}` on a stored stop | a body without `name` leaves the name as stored and writes the other fields | not executed | PatchRules.ValidatePatchAsWritten, PatchRules.AbsentNameCrashes | PatchRules.ValidatePatch |
