# dashboard-api: a Dafny model of the router catalog, IP rotation and the bot table

The system is a small Express server with a React dashboard. The server keeps two global arrays:

- `routerIp`: the router hosts read from `router.txt`;
- `awsData`: a catalog of proxy configurations, one single-key object `{ [configName]: entry }` per configuration.

A sweep (`processCommandCheck`) asks every valid, distinct router for its configurations and merges them into the catalog. When two routers report the same key, the last write wins. Keys are appended, and no key is ever removed.

The `/network/ck` command rotates the IP of the configurations `AC-<n>` chosen by a selection. A selection is a number, a range `a-b` or a slash list `a/b-c/d`. Each rotation retries until the endpoint returns a reply with `success` and a new IP whose prefix is on the whitelist: 13., 18., 35., 99. or 100. Three read-only summaries complete the server: `/network/checkip`, `/network/list` and `/network/count`.

The dashboard component keeps a table of bots. Its logic covers:
- selection, with toggle, shift-click range and select-all;
- a per-column, case-insensitive substring search;
- pagination by 100 rows;
- the set of cells that changed since the previous poll;
- the status counters;
- the filter applied after a delete.

Modules:

- `Wrappers`: `Option` and `Result`.
- `JsStrings`: the JavaScript string built-ins the code relies on, with their ECMAScript edge cases:
  - `split` always yields at least one part;
  - `trim` removes ECMAScript white space and line terminators;
  - `parseInt` reads an optional sign and the leading digits, and yields NaN (`None`) when there are none;
  - also `includes`, `startsWith`, `toLowerCase` and integer `toString`.
- `RouterHosts`:
  - `isValidIp`, following the regular expression alternative by alternative;
  - the load step `split('\n').map(trim).filter(nonempty)`;
  - the `ipSet` deduplication.
- `Catalog`: the catalog as a sequence of slots, and the merge that one sweep performs.
- `Rotation`:
  - the `fetchAndEditJson` loop;
  - `parseLinkSpec`;
  - the single, range and mixed modes;
  - the `/network/ck` dispatch.
- `Summaries`: `/network/checkip`, `/network/list` and `/network/count`.
- `ServerState`: class `Server`, holding `awsData` and `routerIp`, with the handlers that change them.
- `Table`: the pure logic of the table.
- `DashboardState`: class `Dashboard`, holding the component's `useState` fields, with one method per handler.

The environment is modelled by parameters:
- `routerFile` is the content of `router.txt`, or `None` when the read fails.
- `poll(url)` is the reply of a router's checkConfig request. It is `Unreachable` when the request throws or there is no `result.aws`.
- `net` is the sequence of outcomes that successive rotation requests receive.
- On the dashboard, the poll response and the results of the confirmation dialog and the DELETE requests are method arguments.

The dispatch tests for `-` before `/`, so `"3-5/9"` goes to range mode. There, `parseInt("5/9")` is 5, so the keys rotated are AC-3, AC-4 and AC-5, not AC-9 as well (`Rotation.ParseLinkSpecStopsAtSlash`, `Rotation.DashWinsOverSlash`).

## Model

| member | source | states |
|---|---|---|
| JsStrings.TrimStart | server.js:182 | `trimStart` drops exactly the leading white space: the result is a suffix, it does not start with a space, and everything dropped is a space |
| JsStrings.TrimBlank | server.js:182 | a trimmed line is empty exactly when every character of the line is white space |
| JsStrings.Split | server.js:182 | `split` on one character yields at least one part, and no part contains the separator |
| JsStrings.JoinSplit | server.js:182 | joining the parts of a split gives back the string |
| JsStrings.ParseIntToString | server.js:392 | `parseInt(n.toString())` is `n` for every integer: the number range mode passes to single mode as text is the number single mode reads back (server.js:375) |
| JsStrings.ParseIntDigitsThen | server.js:375 | `parseInt` reads the leading digits and ignores what follows a non-digit |
| JsStrings.ParseInt | server.js:375 | `parseInt(s, 10)`: optional leading white space and sign, then the leading decimal digits; NaN (`None`) when there are none. Its properties are the `ParseInt` lemmas |
| JsStrings.TrimIdempotent | server.js:182 | trimming a trimmed line changes nothing |
| JsStrings.SplitJoin | server.js:402 | splitting the join of separator-free parts gives back the parts |
| JsStrings.IncludesIff | src/components/Content.js:152 | `includes` holds exactly when the query occurs at some position |
| JsStrings.ToLowerIdempotent | src/components/Content.js:152 | lowercasing twice is lowercasing once |
| RouterHosts.OctetPatternIsByte | server.js:368-371 | one octet alternative of the pattern accepts exactly the 1-3 digit strings of value at most 255 |
| RouterHosts.IsValidIpQuad | server.js:368-371 | `isValidIp` accepts a dot-joined string exactly when there are four parts and each is such an octet |
| RouterHosts.IsValidIp | server.js:368-371 | the pattern as four octet alternatives joined by dots; its properties are the lemmas of this module |
| RouterHosts.ValidIpIsDottedQuad | server.js:368-371 | every accepted string is four dot-joined parts, each one to three decimal digits (leading zeros allowed) worth at most 255 |
| RouterHosts.AcceptsPrivateAddress | server.js:368-371 | `192.168.1.1` is accepted |
| RouterHosts.RejectsLetters | server.js:368-371 | `abc.def.1.1` is rejected |
| RouterHosts.DecimalAddressValid | server.js:368-371 | every address `a.b.c.d` with bytes written in decimal is accepted |
| RouterHosts.RejectsOctetAbove255 | server.js:368-371 | `256.1.1.1` is rejected |
| RouterHosts.RejectsThreeOctets | server.js:368-371 | `1.2.3` is rejected: three octets |
| RouterHosts.HostLinesMembers | server.js:182 | a host is loaded exactly when it is the non-empty trim of some line of the file |
| RouterHosts.HostLines | server.js:182 | the load step as split, trim and filter; its properties are `HostLinesMembers`, `HostLinesClean` and `HostFileRoundTrip` |
| RouterHosts.HostLinesClean | server.js:182 | every loaded host is non-empty, has no line break and is trimmed |
| RouterHosts.HostFileRoundTrip | server.js:182 | writing non-empty, space-free hosts one per line and loading the file gives them back |
| RouterHosts.ValidDistinctMembers | server.js:326-334 | a host is polled exactly when it is in the router list and valid |
| RouterHosts.ValidDistinct | server.js:326-334 | the contents of `ipSet` in insertion order, as a reference for `CollectHosts` |
| RouterHosts.ValidDistinctNoDuplicates | server.js:326-334 | every host is polled at most once |
| RouterHosts.ValidDistinctOrder | server.js:326-336 | hosts are polled in the order of their first occurrence |
| RouterHosts.CollectHosts | server.js:326-334 | the loop filling `ipSet` produces the valid, distinct hosts in first-occurrence order |
| Catalog.FindIndex | server.js:347 | `findIndex` is the first slot holding the key, or -1 when no slot does |
| Catalog.Lookup | server.js:376 | `awsData.find(...)[key]` as the entry of the first slot holding the key, or none; its properties are `MergeItemsLookup` and `SweepLookup` |
| Catalog.Upsert | server.js:347-352 | one merge step: overwrite the slot that holds the key, or append; its properties are `UpsertSpec` |
| Catalog.UpsertSpec | server.js:343-352 | one merge step stores the new entry under its key and leaves every other key alone; it appends exactly when the key is new, keeps old keys in place, and keeps keys unique |
| Catalog.MergeItems | server.js:343-353 | the inner `forEach` as upserts in report order; its properties are `MergeItemsLookup` and `MergeItemsKeys` |
| Catalog.Sweep | server.js:336-358 | the outer loop as one merge per reachable host, in host order; its properties are the `Sweep` lemmas |
| Catalog.UpsertKeys | server.js:347-352 | an upsert lists its key last exactly when the key was not yet in the catalog, and leaves the key order alone otherwise |
| Catalog.MergeItemsKeys | server.js:343-353 | merging a report lists its new names after the old keys, in report order, each once |
| Catalog.MergeItemsLookup | server.js:343-352 | after a report is merged, each key holds the annotated last item reported under it, or its old entry |
| Catalog.SweepLookup | server.js:336-358 | after a sweep, each key holds the last entry reported for it in host order, or its old entry when no host reported it (last write wins, no pruning) |
| Catalog.SweepShape | server.js:336-358 | a sweep never removes or moves a slot, only appends, and keeps keys unique |
| Catalog.SweepSlots | server.js:336-358 | every slot after a sweep holds the last report for its key or is an untouched old slot; appended slots carry only new keys |
| Catalog.SweepKeyOrder | server.js:336-358 | the keys after a sweep, in order, are the old keys and then each name no slot held yet, in the order the sweep first meets it |
| Catalog.SweepKeysAppends | server.js:350-352 | that key list keeps the old keys as its prefix and appends distinct keys that were not there |
| Catalog.SweepUnreachable | server.js:356-358 | if every router is unreachable, the catalog is unchanged |
| ServerState.Server.ProcessCommandCheck | server.js:316-365 | routers are loaded only when the list is empty; no router means no change; otherwise the catalog becomes the sweep of the valid distinct routers, item by item, updated in place |
| ServerState.Server.MergeReport | server.js:343-353 | the inner `forEach` leaves the catalog as the merge of the reported items, in report order, with the router list unchanged |
| ServerState.Server.LoadRouterIps | server.js:176-186 | the router list becomes the file's non-blank trimmed lines; a read error changes nothing |
| ServerState.Server.Ck | server.js:258-278 | the catalog is swept first only if it is empty; the reply is the run of the dispatched selection on the resulting catalog, including the array-length error of a too-long range |
| ServerState.Server.List | server.js:281-303 | same lazy sweep, then the list of links |
| ServerState.Server.Reload | server.js:306-313 | always sweeps and always reports success |
| ServerState.CheckKeys | server.js:336-358 | after a check, a key is present exactly when it was before or a valid router reported it |
| ServerState.CheckKeepsKeys | server.js:336-358 | a check never loses a key |
| ServerState.Server.constructor | server.js:437-443 | at startup the router list is the file's non-blank trimmed lines and the catalog is empty |
| ServerState.Server.CheckIpHandler | server.js:227-256 | the handler answers "No data available." exactly on an empty catalog, and otherwise the counts of entries with and without an IP and the names without one |
| Rotation.Fetch | server.js:189-213 | the retry loop returns the first accepted reply (success, and a whitelisted new IP), after rejecting all earlier attempts |
| Rotation.FetchAndEditJson | server.js:189-213 | the `while` loop computes `Fetch`, returns a reply exactly when some attempt is accepted, and waits once per thrown attempt |
| Rotation.RetriesUntilAccepted | server.js:195-207 | a failed reply and one outside the whitelist are retried; the third, good reply is returned |
| Rotation.RejectsOutsideWhitelist | server.js:195-201 | `52.1.1.1` is rejected, as is a reply without `success` |
| Rotation.ParseLinkSpec | server.js:419-424 | the numbers from the first to the second bound, ascending; a NaN bound or an end below the start gives none; a range of more than 2^32 - 1 numbers makes `Array.from` throw a RangeError (`InvalidArrayLength`), and the result is an error exactly then |
| Rotation.RangeSelection | server.js:419-424 | for a spec with a dash and two numeric bounds: a range too long for an array throws; otherwise the selected keys are the decimal texts of start, start + 1, ..., end |
| Rotation.ParseLinkSpecDescending | server.js:419-424 | a one-digit spec `x-y` with `y < x`, such as `8-5`, selects nothing rather than failing |
| Rotation.ParseLinkSpecStopsAtSlash | server.js:419-424 | for digits x, y, z, `x-y/z` (such as `3-5/9`) selects the numbers x..y: the `/z` is dropped |
| Rotation.DashWinsOverSlash | server.js:268-270 | a spec `a-b...` with digit runs `a` and `b` is always a range from `a` to `b`, or the array-length error when that range has more than 2^32 - 1 numbers; what follows the second digit run is ignored |
| Rotation.DashMeansRange | server.js:268-269 | a spec with a dash selects the keys of its range, whatever else it holds |
| Rotation.MixedPartsAreSingles | server.js:270-271 | a dash-free selection rotates its slash-separated parts one by one, as given |
| Rotation.RunSpecs | server.js:374-398 | a run of single mode over a list of keys on the shared stream, stopping at the first throw; it never uses more of the stream than it is given. Its properties are the `RunSpecs` lemmas |
| Rotation.RunSpecsAppend | server.js:401-416 | running a selection in pieces is the same as running it whole, each piece on what the previous left of the stream |
| Rotation.RunSpecsDone | server.js:374-398 | a completed run visited every key in order, requested each entry's rotation URL, and returned only accepted replies |
| Rotation.RunSpecsNoData | server.js:374-385 | a "No data found" run stopped at the first missing key, carrying its `parseInt`, with no request for that key |
| Rotation.RunSpecsStops | server.js:391-395 | once a key throws, the keys after it add no result and make no request |
| Rotation.RangeRun | server.js:387-398 | range mode as a value: a range too long for an array throws before any request, otherwise the keys of `parseLinkSpec` run in order; it never uses more of the stream than it is given |
| Rotation.PartRun | server.js:406-412 | one mixed part: a range when it has a dash, otherwise a single key |
| Rotation.RunParts | server.js:401-416 | mixed mode as a value: the parts in order, each on what the previous left of the stream, stopping at the first throw |
| Rotation.RunSelection | server.js:268-276 | the dispatch as a value: `-` selects range mode, else `/` mixed mode, else single mode |
| Rotation.RunSelectionSpecs | server.js:268-276 | unless the selection is a range too long for an array, the dispatched run is the run of the keys the selection names |
| Rotation.HugeRangeThrows | server.js:423 | a digit range with more than 2^32 - 1 numbers rejects with no result and no request |
| Rotation.RunPartsFlatten | server.js:401-416 | when no part is a range too long for an array, mixed mode is the run of all the parts' keys, flattened in order |
| Rotation.MixedRunsSpecs | server.js:401-416 | a dash-free slash list is the run of its parts, each one key |
| Rotation.RunPartsStops | server.js:405-413 | once a part throws, the later parts add nothing and make no request |
| Rotation.MixedStep | server.js:405-413 | one iteration of the mixed loop extends the run of the parts before it; a part that throws ends the whole run |
| Rotation.ProcessSingleMode | server.js:374-385 | single mode is the run of one key; a missing key throws before any request |
| Rotation.ProcessRangeMode | server.js:387-398 | a range too long for an array throws before any request; otherwise the loop runs single mode on every number of `parseLinkSpec` in ascending order, stopping at the first throw |
| Rotation.ProcessMixedMode | server.js:401-416 | the loop runs each slash part as a range or a single on what the previous parts left of the stream, concatenating results, stopping at the first throw, a too-long range part included |
| Rotation.Dispatch | server.js:268-276 | `-` selects range mode, else `/` mixed mode, else single mode; a range too long for an array rejects with no request, and any other selection runs exactly the keys it names |
| Summaries.CheckIp | server.js:227-256 | "No data available." exactly on an empty catalog; otherwise the counts of entries with and without an IP, which add up to the catalog size, and the names without one, in catalog order |
| Summaries.CheckIpPartition | server.js:235-244 | every entry is counted in exactly one class |
| Summaries.WithIpMembers | server.js:237-239 | an entry is counted as valid exactly when it is in the catalog and has a non-blank IP |
| Summaries.WithoutIpMembers | server.js:240-242 | an entry is listed as invalid exactly when it is in the catalog and has no non-blank IP |
| Summaries.ListLinks | server.js:285-300 | one link per slot, in order, with its name and rotation URL; `validate` is truthy exactly when the entry has an IP; the empty message exactly on an empty catalog |
| Summaries.ListAgreesWithCheckIp | server.js:291 | the number of validated links equals the count of valid entries that checkip reports |
| Summaries.Count | server.js:217-224 | NaN gives "Invalid number provided."; otherwise the result is the number minus 1080 |
| Summaries.CountOffset | server.js:217-224 | counting the decimal form of `n + 1080` gives `n` |
| Table.Toggled | src/components/Content.js:93-101 | a plain click flips the clicked row and no other |
| Table.ToggleTwice | src/components/Content.js:93-101 | two plain clicks on a row restore the selection |
| Table.AddRange | src/components/Content.js:82-91 | a shift-click adds exactly the indices between the last and the clicked index, inclusive, and removes none |
| Table.SelectAllMeansAll | src/components/Content.js:74 | with distinct indices and a selection of users' indices, the size comparison holds exactly when every user is selected |
| Table.FilterMembers | src/components/Content.js:149-155 | a row survives a filter exactly when it was present and is kept |
| Table.FilterUsers | src/components/Content.js:149-155 | `filterUsers` as the rows every non-empty query matches; its properties are the `FilterUsers` lemmas |
| Table.FilterAppend | src/components/Content.js:149-155 | filtering preserves order: it distributes over concatenation |
| Table.FilterUsersMembers | src/components/Content.js:149-155 | a row is shown exactly when every non-empty query occurs in its column, both lowercased |
| Table.FilterUsersAllEmpty | src/components/Content.js:149-155 | with all queries empty, every row is shown in the original order |
| Table.FilterUsersIgnoresCase | src/components/Content.js:152 | lowercasing the queries does not change the rows shown |
| Table.PageRowsWindow | src/components/Content.js:267-269 | page `p` shows the rows from `(p-1)*100` up to `p*100`, at most 100 |
| Table.PageRows | src/components/Content.js:266-269 | `slice(indexOfFirstUser, indexOfLastUser)` of the filtered rows; its properties are the `Page` lemmas |
| Table.PagesCover | src/components/Content.js:267-270 | the pages 1..totalPages concatenate to the filtered rows, and each is non-empty |
| Table.PageRowsBounded | src/components/Content.js:266-269 | for any page number, including zero and negative ones that `slice` counts from the end, at most 100 rows, all of them filtered rows |
| Table.PageBeyondLast | src/components/Content.js:267-270 | page 0 and pages past the last are empty |
| Table.TotalPages | src/components/Content.js:270 | `ceil(n/100)`: the least page count whose pages hold `n` rows |
| Table.NextPage | src/components/Content.js:272 | next is one page on, but never past `totalPages` |
| Table.PreviousPage | src/components/Content.js:273 | previous is one page back, but never below 1 |
| Table.NavigationStaysInRange | src/components/Content.js:272-273 | from a page in 1..totalPages, next and previous stay in range |
| Table.RowChangedCells | src/components/Content.js:48-52 | the loop over one row's columns collects exactly the ids of the columns whose value differs from the counterpart's |
| Table.ComputeUpdatedCells | src/components/Content.js:43-54 | the nested loops compute the set of changed cells |
| Table.UpdatedCellsMembers | src/components/Content.js:45-54 | a cell `index-key` is marked exactly when a new row with that index had a counterpart whose value for `key` differs or is missing |
| Table.UpdatedCells | src/components/Content.js:43-54 | the cells each new row marks against its counterpart, as a reference for `ComputeUpdatedCells` |
| Table.CellIdDecodes | src/components/Content.js:50 | a cell id `index-key` reads back its index with `parseInt` and its column after the first dash |
| Table.CellIdInjective | src/components/Content.js:50 | different (index, column) pairs give different cell ids |
| Table.NewRowsUnmarked | src/components/Content.js:46-47 | rows with no earlier counterpart mark nothing |
| Table.UnchangedUnmarked | src/components/Content.js:45-54 | polling identical data twice marks nothing |
| Table.Counters | src/components/Content.js:256-259 | online + offline = total, and banned <= offline |
| Table.RemoveSelectedSpec | src/components/Content.js:213 | after a delete, exactly the unselected rows remain, in their original order |
| Table.RemoveSelected | src/components/Content.js:213 | the delete filter as the rows whose index is not selected; its properties are `RemoveSelectedSpec` |
| DashboardState.Dashboard.FetchData | src/components/Content.js:39-62 | a response sets the changed cells against the previous poll and replaces both lists; an error changes nothing |
| DashboardState.Dashboard.constructor | src/components/Content.js:12-36 | the component starts with no users, no selection, page 1 and every query empty |
| DashboardState.Dashboard.SyncSelectAll | src/components/Content.js:73-75 | the effect sets `selectAll` to the size comparison |
| DashboardState.Dashboard.HandleSelectRow | src/components/Content.js:79-105 | shift-click after a click adds the range, otherwise toggles; the clicked index becomes the last |
| DashboardState.Dashboard.HandleSelectAll | src/components/Content.js:111-118 | clears the selection if `selectAll`, else selects every index; flips the flag |
| DashboardState.Dashboard.OnSelectAll | src/components/Content.js:120-122 | selects every user's index |
| DashboardState.Dashboard.OnDeselectAll | src/components/Content.js:123-125 | clears the selection |
| DashboardState.Dashboard.HandleSearchChange | src/components/Content.js:142-147 | sets one column's query and keeps the others |
| DashboardState.Dashboard.HandleDelete | src/components/Content.js:182-222 | no selection means only a warning; after confirmation and successful requests, exactly the unselected users remain and the selection is cleared; otherwise nothing changes |
| DashboardState.Dashboard.CurrentUsers | src/components/Content.js:266-269 | the table shows at most 100 rows, all of them filtered rows |
| DashboardState.Dashboard.GoToNextPage | src/components/Content.js:272 | the page becomes `NextPage` of the filtered page count |
| DashboardState.Dashboard.GoToPreviousPage | src/components/Content.js:273 | the page becomes `PreviousPage` |
| DashboardState.Dashboard.HandlePageChange | src/components/Content.js:274 | the page becomes the one given, with no clamping, and nothing else changes |
| DashboardState.Dashboard.Statistics | src/components/Content.js:256-259 | the counters satisfy online + offline = total and banned <= offline |

## Left out

- MySQL endpoints (`/api/users`, `/api/worlds`, the upload): database plumbing with no logic of its own.
- Express, body-parser, cors and the startup: the constructor of `Server` starts from a readable router file; when the file is unreadable the server never listens, and that path is not modelled.
- Network calls: each becomes an oracle (`poll` for checkConfig, the stream `net` for rotation), so timeouts and TLS settings are not modelled.
- Rotation.FetchAndEditJson: the source loops forever when no attempt is ever accepted. The model runs over a finite stream and reports `StillRetrying` when the stream runs out.
- Rotation.ProcessRangeMode: the 2000 ms pause after each rotation is not modelled. `FetchAndEditJson` counts its waits but does not model time.
- Rotation.Dispatch: the thrown "No data found" error and the RangeError of a too-long range have no HTTP response in the source, because the async handler rejects. The model returns the error as the outcome. What follows an unhandled rejection depends on the runtime and is not modelled.
- Concurrency: `Server.Ck`, `Server.List`, `Server.Reload` and `Server.ProcessCommandCheck` each run to completion in the model. In the source every `await` (server.js:263, 284, 309, 321 and 339) lets other requests run. So a read can see a half-merged catalog, and two sweeps can interleave their merges.
- DashboardState.Dashboard.HandleDelete: it is atomic in the model. In the source the filter at Content.js:213 uses the `users` captured before the dialog and the DELETE requests, so a poll that lands during those awaits is overwritten until the next poll.
- saveAwsDataToFile and the logging: best-effort output with no effect on state.
- A throw in the middle of a router's `forEach` (an item that is `null` or `undefined`, so reading `item.configName` throws): the items merged before the throw stay merged in the source, but the model does not capture that partial merge; such a reply counts as `Unreachable` or as a full report.
- Summaries.CheckIp: an entry whose `ip` is truthy but not a string is not modelled, because `ConfigItem.ip` is an `Option<string>`. In the source `details.ip.trim()` (server.js:238) then throws outside any `try`, so the handler rejects and sends no reply.
- Summaries.ListLinks: the same `ip` value is not modelled, for the same reason. In the source `link.ip.trim()` (server.js:291) throws inside the `try`, and the reply is the 500 error reply.
- Catalog.Lookup: a key is matched by string equality; JavaScript prototype keys such as `__proto__` and entry truthiness are not modelled.
- JsStrings.ParseInt: numbers are unbounded. Values beyond 2^53, where JavaScript loses precision, are not modelled.
- JsStrings.LowerChar: only A-Z are lowercased; Unicode case mapping is not modelled.
- Table.Value: cells are strings or integers; floating-point values and `null` are not modelled.
- Table.UpdatedCells: the `index` column is kept apart from the other columns; it never differs from its counterpart, so it never marks a cell.
- Table.FilterUsers: requires every column with a non-empty query to exist on every row, since `user[key].toString()` throws otherwise.
- The polling timer, the Swal dialogs, the export to `export.txt`, the context menu position and all rendering of the dashboard: UI effects. The results of the dialogs and requests are passed to `HandleDelete`.
- `totalGems`, `avgGems` and `formatNumber`: `+` mixes numbers and strings in JavaScript, and the average uses floating point and `toFixed`.
- Terminal, ContextMenu, UserStatisticsChart and Home: UI files with no logic of their own.
