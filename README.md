# natlas server: rescan requests and the host-result routes

This project models the decision rules in the natlas server's main blueprint
(`natlas-server/app/main/routes.py`), along with proofs about them:

- **Rescan requests** (`rescan_host`). A logged-in user asks for a target to be
  scanned again. The request can be turned away because the form did not
  validate or the target is outside the scope. Otherwise the handler walks the
  scope manager's list of incomplete rescan tasks, and the first task for the
  target decides:
  - a pending task makes the request a duplicate;
  - a task dispatched within the last twenty minutes also makes it a duplicate;
  - a task dispatched longer ago is flipped back to not dispatched, in place.

  With no task for the target, a new pending task is recorded. The model has
  two parts:
  - `Rescan.Rescan`, a function over task values;
  - a `RescanTask` class and an `IncompleteScans` class. Their `RescanHost`
    method flips `dispatched` on the very object it found, or appends a fresh
    task, and is proved to agree with the function.

  "Twenty minutes" is read as the code reads it: the `seconds` field of a
  Python `timedelta`, that is, the elapsed time modulo one day. So a dispatch a
  day and a minute old counts as one minute old. A dispatch time slightly in
  the future reads as almost a day old and is refreshed; one more than
  23 h 40 min in the future reads as recent and is left in flight.
- **Template version** (`determine_data_version`). It splits the reported
  `agent_version` on dots and runs `int` on every part. The major part is
  ignored. It falls "up" to `0.6.4` when the key is absent, when the minor part
  is below 6, or when the minor part is 6 and the patch part is below 4. The
  patch part is read only when the minor part is 6. The exceptions the code
  lets escape are modelled as error results: `ValueError` from `int` and
  `IndexError` from too few parts. Python's `int` on strings is modelled too:
  surrounding whitespace, a sign, and digits with single underscores, without
  Python's limit on the number of digits.
- **Paging** in `search`, `host_history`, `host_screenshots` and
  `browseScreenshots`. The offset is `rpp * (page - 1)`. A next link exists
  iff `count > page * rpp`. A previous link exists iff `page > 1`. `search`
  also chooses the `nmap_history` index when `includeHistory` is truthy.
- **Export** (`export_scan`). The extension is checked against
  `xml`/`nmap`/`gnmap`/`json`, and the MIME type chosen. The route then serves
  the whole record (json), the `<ext>_data` field, or not-found.
- **Host list** (the `format=hostlist` branch of `search`). The output has one
  line per hit, `ip` or `ip,scan_id`, joined with newlines.

Modules: `Wrappers` (Option, Result), `Text` (`str.split` and `str.join` on
one character), `PyInt` (`int(str)`), `DataVersion`, `Pagination`, `Export`,
`Hostlist`, `Rescan`.

Three details of `rescan_host` matter for the model:
- the first incomplete task for the target, in list order, decides, whether it
  is pending or dispatched;
- staleness is strict (`> 1200` seconds);
- elapsed time is the within-day `timedelta.seconds`, not the total.

## Model

| member | source | states |
|---|---|---|
| `Rescan.Rescan` | natlas-server/app/main/routes.py:188-224 | the outcome and the tasks afterwards: dispatched tasks stay dated, the list grows by one exactly on `Created`, and is unchanged unless the outcome is `Refreshed` or `Created`; characterised case by case by `TurnedAway`, `ExistingTask` and `NewTask` |
| `Rescan.ElapsedSeconds` | natlas-server/app/main/routes.py:203 | the elapsed reading lies in 0..86399 and differs from `now - since` by a whole number of days |
| `Rescan.ElapsedWithinDay` | natlas-server/app/main/routes.py:203 | within one day the reading equals the true elapsed time |
| `Rescan.FirstFor` | natlas-server/app/main/routes.py:199-200 | the loop finds no task iff none has the target; otherwise it finds one that has the target, with none before it |
| `Rescan.TurnedAway` | natlas-server/app/main/routes.py:191-195 | an unvalidated form gives `NotSubmitted` and an out-of-scope target gives `Rejected`; the tasks are unchanged in both cases |
| `Rescan.ExistingTask` | natlas-server/app/main/routes.py:199-216 | pending first task gives `AlreadyPending`, unchanged; dispatched with reading <= 1200 gives `AlreadyDispatched`, unchanged; dispatched with reading > 1200 gives `Refreshed`, same length, only that task's `dispatched` cleared |
| `Rescan.NewTask` | natlas-server/app/main/routes.py:218-224 | with no task for the target: `Created`, one task appended (the target, the requesting user, not dispatched, no dispatch time), the rest unchanged |
| `Rescan.UnchangedUnlessRecorded` | natlas-server/app/main/routes.py:188-224 | the task list changes iff the outcome is `Refreshed` or `Created` |
| `Rescan.KeepsInvariants` | natlas-server/app/main/routes.py:197-224 | every request keeps dispatch times on dispatched tasks and keeps at most one incomplete task per target |
| `Rescan.RepeatIsPending` | natlas-server/app/main/routes.py:199-224 | right after `Created` or `Refreshed`, the same request gives `AlreadyPending` and changes nothing |
| `Rescan.StaleBoundary` | natlas-server/app/main/routes.py:203-212 | a dispatch exactly 1200 s old is still in flight; one 1201 s old is refreshed |
| `Rescan.WithinDayReading` | natlas-server/app/main/routes.py:203 | a dispatch a day and a minute old is left in flight; a dispatch time 10 s in the future is refreshed; one 23 h 50 min in the future is left in flight |
| `Rescan.FlipKeepsWellFormed` | natlas-server/app/main/routes.py:206 | clearing `dispatched` keeps every dispatched task dated |
| `Rescan.AppendKeepsWellFormed` | natlas-server/app/main/routes.py:218 | appending an undispatched task keeps every dispatched task dated |
| `Rescan.RescanTask.constructor` | natlas-server/app/main/routes.py:218 | a new task has the given target and user, is not dispatched and has no dispatch time |
| `Rescan.IncompleteScans.constructor` | natlas-server/app/main/routes.py:197 | the list of distinct, well-formed incomplete tasks the handler reads |
| `Rescan.IncompleteScans.RescanHost` | natlas-server/app/main/routes.py:188-224 | outcome and new task values are those of `Rescan` on the old values; the list object is kept unless a fresh task is appended at the end; the list invariant is preserved |
| `DataVersion.Collect` | natlas-server/app/main/routes.py:79-80 | the conversion succeeds iff every component converts, then with one number per component; a failure is always `ValueError` |
| `DataVersion.ParseAll` | natlas-server/app/main/routes.py:78-80 | converting the split components succeeds iff `int` accepts each of them, with one number per component; a failure is `ValueError`; `ParseAllOk` gives the numbers |
| `DataVersion.FromParts` | natlas-server/app/main/routes.py:82-83 | the result is `0.6.4` or the version itself; `IndexError` exactly when there are fewer than two parts, or the minor part is 6 and there is no patch part; characterised by `FallsUpExactly` and `TwoComponents` |
| `DataVersion.DataVersion` | natlas-server/app/main/routes.py:74-88 | `0.6.4` when the key is absent; any chosen version is `0.6.4` or the reported one; characterised by `RenderedVersion`, `MissingParts` and `NeverOlder` |
| `DataVersion.ParseComponents` | natlas-server/app/main/routes.py:78-80 | the in-place conversion loop returns the numbers, or `ValueError` at the first component `int` rejects |
| `DataVersion.CollectPrefixError` | natlas-server/app/main/routes.py:79-80 | a failure within a prefix makes the whole conversion fail with `ValueError` |
| `DataVersion.CollectOk` | natlas-server/app/main/routes.py:79-80 | components that all convert yield exactly their numbers |
| `DataVersion.ParseAllOk` | natlas-server/app/main/routes.py:79-80 | components on which `int` succeeds convert to those numbers |
| `DataVersion.DetermineDataVersion` | natlas-server/app/main/routes.py:74-88 | the route helper returns `DataVersion` of the `agent_version` value |
| `DataVersion.RenderedVersion` | natlas-server/app/main/routes.py:78-83 | for a dotted string of decimal numbers the outcome is the minor/patch comparison on those numbers |
| `DataVersion.FallsUpExactly` | natlas-server/app/main/routes.py:82-83 | with three or more parts: `0.6.4` iff minor < 6 or (minor == 6 and patch < 4); otherwise the string unchanged; the major part plays no role |
| `DataVersion.TwoComponents` | natlas-server/app/main/routes.py:82 | with two parts: minor < 6 falls up, minor > 6 keeps the string, minor == 6 raises `IndexError` (the patch is looked up only then) |
| `DataVersion.MissingParts` | natlas-server/app/main/routes.py:75-86 | an absent `agent_version` gives `0.6.4`; a version with one part raises `IndexError` |
| `DataVersion.FallbackParts` | natlas-server/app/main/routes.py:83 | the fallback string is major 0, minor 6, patch 4 |
| `DataVersion.FallbackKept` | natlas-server/app/main/routes.py:83-86 | the fallback passes its own test and is kept |
| `DataVersion.NeverOlder` | natlas-server/app/main/routes.py:74-88 | a chosen version is never older than 0.6.4 by the minor/patch rule, and choosing again from it gives the same result |
| `DataVersion.DecimalHasNoDot` | natlas-server/app/main/routes.py:78 | a printed number contains no dot, so it is one component |
| `PyInt.ParseDecimal` | natlas-server/app/main/routes.py:80 | `int(str(n)) == n` for every integer, with no limit on the number of digits |
| `PyInt.ParseDigits` | natlas-server/app/main/routes.py:80 | a run of digits parses to its decimal value |
| `PyInt.ParseNegated` | natlas-server/app/main/routes.py:80 | a minus sign followed by digits parses to the negated value |
| `PyInt.ParseInt` | natlas-server/app/main/routes.py:80 | `int(item)` on one component, without the 4300-digit limit; characterised by `ParseDecimal`, `ParseDigits`, `ParseNegated` and `ParsePadded` |
| `PyInt.ParsePadded` | natlas-server/app/main/routes.py:80 | whitespace before and after a number, of any amount and not necessarily the same on both sides, does not change the parse |
| `Text.Split` | natlas-server/app/main/routes.py:78 | `split('.')` yields at least one piece and no piece contains the separator |
| `Text.Join` | natlas-server/app/main/routes.py:65 | `str.join` on one character; `JoinSplit` and `SplitJoin` prove it inverse to `Split` |
| `Text.JoinSplit` | natlas-server/app/main/routes.py:78 | joining the pieces of a split restores the string |
| `Text.SplitJoin` | natlas-server/app/main/routes.py:65 | splitting a join of separator-free pieces restores the pieces |
| `Pagination.Offset` | natlas-server/app/main/routes.py:42 | the index of the first result on a page, `rpp * (page - 1)`; `PrevIffNotFirst` and `EveryResultReachable` relate it to the pages |
| `Pagination.PageLinks` | natlas-server/app/main/routes.py:42-55 | the paging rule every route shares; characterised by `NextIffMoreResults`, `PrevIffNotFirst`, `EveryResultReachable` and `LastPageEnds` |
| `Pagination.NextIffMoreResults` | natlas-server/app/main/routes.py:42-53 | a next link exists iff results remain past this page's window; it names page + 1, which starts where this page ends |
| `Pagination.PrevIffNotFirst` | natlas-server/app/main/routes.py:42-55 | for rpp > 0 and any page: a previous link exists iff the offset is positive; the previous page ends where this one starts |
| `Pagination.EveryResultReachable` | natlas-server/app/main/routes.py:42-53 | result k is on page k / rpp + 1, and every earlier page has a next link |
| `Pagination.LastPageEnds` | natlas-server/app/main/routes.py:47-53 | the last non-empty page has no next link |
| `Pagination.SearchIndex` | natlas-server/app/main/routes.py:34-40 | `nmap_history` iff `includeHistory` is present and non-empty, else `nmap` |
| `Pagination.Search` | natlas-server/app/main/routes.py:30-58 | `search` uses the index choice and the shared paging rule, and returns the host list iff `format == "hostlist"` |
| `Pagination.HostHistory` | natlas-server/app/main/routes.py:110-123 | not found iff the history count is 0; otherwise the shared paging rule |
| `Pagination.HostScreenshots` | natlas-server/app/main/routes.py:166-177 | the shared paging rule over the host's screenshot entries |
| `Pagination.BrowseScreenshots` | natlas-server/app/main/routes.py:247-255 | the shared paging rule over the count of hosts with screenshots |
| `Export.ExportScan` | natlas-server/app/main/routes.py:143-160 | something is served only for an allowed extension with a hit, with the MIME type of that extension; `json` serves the record itself, any other extension the `<ext>_data` field, which exists; characterised by `ExportCases` and `ServedIff` |
| `Export.FieldName` | natlas-server/app/main/routes.py:147 | the field is the extension followed by `_data` |
| `Export.Mime` | natlas-server/app/main/routes.py:149-152 | `application/json` iff the extension is `json`, else `text/plain` |
| `Export.ExportCases` | natlas-server/app/main/routes.py:143-160 | unknown extension or no hit: not found; `json` with a hit: the whole record; any other allowed extension with a hit: its field if present, else not found |
| `Export.ServedIff` | natlas-server/app/main/routes.py:144-160 | something is served iff the extension is allowed, there is a hit and (json or the field exists); the MIME type is JSON iff json |
| `Export.FieldNamesDistinct` | natlas-server/app/main/routes.py:147 | different extensions read different fields |
| `Hostlist.Line` | natlas-server/app/main/routes.py:61-64 | one hit's line, `ip` or `ip,scan_id`; `LineFields` splits it back |
| `Hostlist.Render` | natlas-server/app/main/routes.py:58-65 | the host-list body; `OneLinePerHost` and `EmptyHostlist` characterise it |
| `Hostlist.FormatHostlist` | natlas-server/app/main/routes.py:58-65 | the append loop then the join produce the lines, in order, joined by newlines |
| `Hostlist.OneLinePerHost` | natlas-server/app/main/routes.py:58-65 | when no field contains a newline, the body splits into exactly one line per hit, in order |
| `Hostlist.LineFields` | natlas-server/app/main/routes.py:61-62 | a line with scan ids splits on its comma back into address and scan id |
| `Hostlist.EmptyHostlist` | natlas-server/app/main/routes.py:65 | no hits give an empty body |

## Left out

- Flask plumbing is not modelled: templates, `url_for` strings, `flash` messages, redirects, `send_from_directory`, `Response` objects, the login and authentication decorators. `abort(404)` is a `None` or `NotFound` value.
- The routes `index`, `send_media`, `search_modal`, `host`, `host_historical_result` and `randomHost` are left out. They only render or redirect; the three that choose a template call `determine_data_version`, which is modelled.
- Elasticsearch reads are not modelled: search, history, scan-id and screenshot lookups, the random host and the total host count. Their counts and records are inputs.
- `isAcceptableTarget` comes from `app.util`, which is not part of this model. It is a `string -> bool` parameter, with no scope semantics.
- `RescanForm.validate_on_submit()` is a boolean input. The handler returns nothing when it fails, which is modelled as the outcome `NotSubmitted`.
- The scope manager's `getIncompleteScans`, `updatePendingRescans` and `updateDispatchedRescans` are not part of this model. The incomplete list is the `IncompleteScans` object. After the refresh, the new task is assumed to be at the end of the list and other tasks keep their order.
- `db.session` add and commit are modelled as the state change only: no transactions, no failures.
- Concurrency is left out. The handler has no locking, and interleaved requests are not modelled.
- `datetime.utcnow()` is the integer parameter `now`, in whole seconds.
- Rescan.ElapsedSeconds: sub-second (microsecond) parts of the timestamps are not modelled.
- The model requires every dispatched task to carry a dispatch time. Without one, Python would raise `TypeError` on the subtraction.
- The `json.dumps` serialisation of an exported record is left out. The response carries the record itself. Record values are strings.
- `str(host['ip'])` and `str(host['scan_id'])` are taken to be strings already.
- PyInt.ParseInt: the int/str conversion limit (`sys.get_int_max_str_digits()`, 4300 digits by default) is not modelled; a digit run longer than that is accepted, where Python raises `ValueError`.
- PyInt.ParseDigits: holds for digit runs of any length; Python raises `ValueError` past the 4300-digit limit.
- PyInt.ParseNegated: holds for digit runs of any length; Python raises `ValueError` past the 4300-digit limit.
- PyInt.ParseDecimal: holds for numbers of any size; past the 4300-digit limit Python's `str(n)` and `int` both raise `ValueError`.
- PyInt.ParseInt: non-ASCII digits and whitespace, which Python's `int` also accepts, are not modelled.
- `int(request.args.get('page', 1))` failing on a non-number page argument is not modelled. The page is an integer input.
