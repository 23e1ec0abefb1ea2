# Link health check: a Dafny model

This project models the decision logic of the government e-form and
service link checker (`app.py`). The checker fetches two link catalogs:
forms, and department services. It turns each catalog item into one record
per published URL and probes every URL with HEAD, falling back to GET. It
classifies each link as `OK`, `Error <code>` or `Broken`, and merges the new
results with the previous run's results so that a link that stays broken
keeps the time it first broke. It sorts failures first and writes a snapshot
holding the results, the check time and, when there is one, the last
auto-refresh time.

The model is functional. The network, the clock and the files are inputs:
- each request is given by its outcome, either an HTTP status code or a raised request exception;
- the run time is an opaque string;
- the previous snapshot is an optional value, where `None` means no file.

Modules, one per stage:

- `Text`: the Python string operations the code relies on. These are `str.isspace`, `strip()`, `split()[0]`, `str` ordering and decimal rendering of integers.
- `Probe`: request outcomes, the `Status` datatype with its display text, `check_link`, and the sort rank of a status.
- `Catalog`: raw catalog items (`map<string, string>`, where a missing key and `""` are both falsy), the department and title fallback of each catalog, and record emission.
- `History`: persisted results and the "first broken" merge.
- `Ordering`: the sort key and Python's stable sort, modelled as an insertion sort on sequences.
- `Run`: the snapshot, a whole `run_check` and its cross-run properties.
- `Options`: an `Option` datatype.

Facts about `app.py` the model keeps:

- `check_link` (app.py:153-165) produces only `OK`, `Error <code>` and `Broken`.
- The records are not deduplicated or validated, so several records may share a URL. A URL field that holds only whitespace is truthy, so it yields a record whose URL strips to `""`. A whitespace-only `en_department` or `en_title` wins the fallback in the same way and then strips to `""`.

## Model

| member | source | states |
|---|---|---|
| Probe.HeadFallback | app.py:158 | the `(405, 403)` disjunct of the GET-fallback test is subsumed: the test holds exactly when the HEAD code is at least 400 |
| Probe.Performed | app.py:156-160 | HEAD is always performed first; GET is performed as a second request exactly when HEAD answered with a code of at least 400 |
| Probe.CheckLink | app.py:153-165 | the status is `Broken` iff some performed request raised; otherwise the last performed request's code decides: `OK` iff below 400, else `Error` carrying that code |
| Probe.GetIrrelevantWithoutFallback | app.py:158-159 | when GET is not performed its outcome cannot change the status |
| Probe.CheckLinkErrorCodes | app.py:161-162 | an `Error` status always carries a code of at least 400 |
| Probe.Display | app.py:161-165 | the status text is "OK" exactly for the OK status, so the code's comparisons with "OK" (app.py:202-203) mean "healthy" |
| Probe.DisplayRoundTrip | app.py:161-165 | the status text `"OK"`, `"Error <code>"` or `"Broken"` parses back to the same status, so no information is lost when it is persisted as text |
| Probe.FirstTokenOfDisplay | app.py:216 | `split()[0]` of a status text is its leading word: OK, Error or Broken |
| Probe.RankOfText | app.py:215-216 | `status_order.get(text.split()[0], 1)` is 0 exactly when the first word is "Error" or "Broken", and 1 for every other word, known or not |
| Probe.Rank | app.py:215-216 | the sort rank looked up by a status's first word is 0 exactly for statuses that are not OK, and 1 for OK |
| Text.Strip | app.py:94 | `strip()` leaves a string that neither starts nor ends with whitespace and is no longer than its input |
| Text.StripKeepsMiddle | app.py:135 | `strip()` returns a contiguous middle of its input with only whitespace removed before and after |
| Text.StripOfPadded | app.py:148 | for whitespace + stripped core + whitespace, `strip()` returns exactly the core (the characterisation of `strip()`) |
| Text.TrimStartDropsSpace | app.py:139 | the leading-whitespace trim removes whitespace only, keeping the rest of the string as a suffix |
| Text.TrimEndDropsSpace | app.py:139 | the trailing-whitespace trim removes whitespace only, keeping the rest of the string as a prefix |
| Text.FirstToken | app.py:216 | `split()[0]` yields nothing exactly for all-whitespace text; otherwise a non-empty whitespace-free word that starts after the leading whitespace and ends at whitespace or the end |
| Text.FirstTokenOfWord | app.py:216 | a word followed by whitespace (or nothing) splits to that word first |
| Text.StrLessIrreflexive | app.py:216 | Python's string `<` is irreflexive |
| Text.StrLessTransitive | app.py:216 | Python's string `<` is transitive |
| Text.StrLessTotal | app.py:216 | distinct strings are ordered one way or the other by `<` |
| Text.NatToDecimal | app.py:162 | the decimal rendering of a code is a non-empty string of digits |
| Text.DecimalRoundTrip | app.py:162 | reading the decimal rendering of a number back yields the number |
| Catalog.FormsHeading | app.py:134-139 | the forms department and title are both stripped |
| Catalog.FormsHeadingPriority | app.py:134-139 | a complete English (department, title) pair decides the forms heading; otherwise a complete Traditional Chinese pair does; otherwise the Simplified Chinese fields do, with `""` for missing ones |
| Catalog.ServicesHeading | app.py:93-95 | the services department and title are both stripped |
| Catalog.ServicesHeadingPriority | app.py:93-95 | the services department is the first truthy of the en, tc and sc department fields, stripped; the title is the stripped `en_fun`, or the stripped `en_fun_a` when `en_fun` strips to nothing |
| Catalog.HeadingFromHeadingKeys | app.py:134-139 | the heading depends only on the department and title fields of each catalog (forms: the en/tc/sc department and title; services: the en/tc/sc department, `en_fun` and `en_fun_a`, app.py:93-95); items that agree on those get the same heading whatever their URLs |
| Catalog.LangRecords | app.py:141-149 | records carry the item's heading and the stripped value of a truthy URL field; their languages are exactly the given languages whose URL field is truthy, in that order |
| Catalog.ItemRecords | app.py:96-104 | one record per truthy `en_url`, `tc_url`, `sc_url`, in en, tc, sc order, each with the shared heading, its language and its stripped URL |
| Catalog.ItemRecordsCount | app.py:141-143 | an item contributes exactly as many records as it has truthy URL fields |
| Catalog.RecordsAppend | app.py:133-149 | the records of two item lists placed one after the other are the records of each list concatenated, so the output follows item order |
| Catalog.ItemBlock | app.py:133-149 | item `i`'s records form one contiguous block between the records of the earlier items and those of the later items |
| Catalog.Records | app.py:133-150 | the outer loop over the items, for forms here and for services at app.py:92-105; it yields one record per truthy URL field over all items |
| Catalog.RecordsSplit | app.py:133-149 | the records of an item list split at any point are the front's records followed by the back's |
| Catalog.RecordsEmpty | app.py:92-105 | normalisation yields no records exactly when no item has a truthy URL field |
| History.FirstBrokenEntry | app.py:203 | `next(...)` finds the first previous result with the same URL and a status text other than "OK", or reports that there is none |
| History.FirstBrokenEntryOf | app.py:203 | the index `next(...)` stops at is the unique first previous entry reporting the URL broken |
| History.FirstBroken | app.py:201-204 | `first_broken` is absent iff the status is OK; a broken link takes the first matching previous entry's value when set, else `now`; with no matching entry it is `now` |
| History.FirstBrokenOrigin | app.py:202-204 | a `first_broken` is always `now` or a value copied from a previous result that had the same URL broken |
| History.MergeOne | app.py:200-213 | the loop body: a result copies the record's department, title, lang and url and its status, and carries a `first_broken` exactly when the status is not OK |
| History.Merge | app.py:199-213 | one result per record in record order, copying department, title, lang, url and status, with `first_broken` absent exactly for OK |
| History.MergeDatesBroken | app.py:201-204 | when the run time is non-empty, a merged result has a set `first_broken` exactly when it is not OK |
| History.MergeInherits | app.py:203-204 | a broken result inherits the set `first_broken` of the first previous entry that had its URL broken |
| History.SameUrlSameFirstBroken | app.py:202-204 | two broken results for the same URL get the same `first_broken`, because the date depends only on the URL and the previous results |
| Ordering.KeyOf | app.py:216 | the sort key of a result: rank 0 for failures and 1 for healthy links, then its department and title unchanged |
| Ordering.KeyLessIrreflexive | app.py:216 | tuple `<` on sort keys is irreflexive |
| Ordering.KeyLessTransitive | app.py:216 | tuple `<` on sort keys is transitive |
| Ordering.KeyLessTotal | app.py:216 | distinct sort keys are ordered one way or the other |
| Ordering.Insert | app.py:216 | insertion adds exactly one element to the multiset |
| Ordering.InsertSorted | app.py:216 | inserting into a sorted sequence keeps it sorted |
| Ordering.InsertWithKey | app.py:216 | inserting into a sorted sequence places the element after all elements with an equal key |
| Ordering.Sort | app.py:215-216 | `sort(key=...)` returns a permutation of its input, ordered by key, that keeps the relative order of elements with equal keys (stable) |
| Ordering.SortedGroups | app.py:215-216 | in sorted results every non-OK result precedes every OK result, and within one rank department and then title never decrease |
| Run.NewSnapshot | app.py:218-222 | `last_checked` is the run time; `last_auto_refresh` is the run time on scheduled runs, else the previous snapshot's value, or absent when there was no previous snapshot |
| Run.CatalogFor | app.py:173-183 | "eforms" selects the forms catalog, "services" the services catalog, and every other name none |
| Run.Statuses | app.py:199-200 | one status per record, in record order, each the `check_link` of that record's HEAD and GET outcomes |
| Run.RunCheck | app.py:185-222 | no records: the previous results are returned and nothing is written; otherwise the returned and written results are the merge, sorted stably, with the snapshot timestamps above |
| Run.RunDataset | app.py:173-187 | an unknown dataset name returns no results and writes nothing; an empty fetch returns the previous results and writes nothing |
| Run.EmptyFetchKeepsHistory | app.py:185-187 | a catalog with no usable URL never overwrites history |
| Run.WrittenResultsInvariant | app.py:199-216 | when the run time is non-empty (strftime's always is), in every written snapshot a result has a set `first_broken` iff it is not OK, and failures precede healthy links |
| Run.StillBrokenKeepsFirstBroken | app.py:202-204 | a URL broken in one run and still broken in the next keeps the `first_broken` the first run gave it, even though sorting reordered the stored results |
| Run.BrokenDateSurvivesSort | app.py:202-216 | when the run time is non-empty (strftime's always is), in any reordering of a merge, such as the sorted list that is written, the first stored entry reporting a broken result's URL broken carries that result's set date |
| Run.RecoveredIsCleared | app.py:201-202 | a link that is OK again has its `first_broken` cleared |
| Run.NotFoundThenRecovered | app.py:199-222 | a 404, 404, 200 sequence over three runs gives `Error 404` dated by the first run, the same date after the second run, then OK with no date |

## Left out

- HTTP requests: `requests.head` and `requests.get` are foreign network calls. Their timeouts, redirects and streaming are left out; only each request's outcome (a code, or a raised `RequestException`) is an input. An exception from `check_link` that is not a `RequestException` would propagate out of the run; it is not modelled.
- Catalog fetch retries (app.py:76-89, 110-130): three attempts with a two-second sleep and JSON validation are I/O and timing. Only their result matters: `[]` when every attempt fails, and that is covered by the empty-records path.
- Catalog items holding JSON values other than strings (`null`, numbers), or catalog elements that are not JSON objects: items are `map<string, string>`. With a `null` `sc_department` the forms loop would raise on `.strip()`, and a string or number element makes `form.get` raise (app.py:93, 134); the exception propagates out of `run_check`. These cases are not modelled.
- `with_check_lock`, `check_lock`, `is_checking`: a threading lock whose point is concurrency.
- `update_progress`, `progress_queue`, `progress_status_dataset` and the event-stream generator: a shared blocking queue and its consumers.
- File I/O: JSON reads and writes, `load_history` and the CSV exports. The previous snapshot is an input and the snapshot to write is an output. The previous snapshot is assumed to have been written by this code, so its statuses are well-formed status texts (`Probe.DisplayRoundTrip`). A `last_auto_refresh` stored as JSON `null` by hand is not distinguished from a missing key. The empty-records path reads the file separately (app.py:187, default encoding, `["results"]`); that read is taken to return the same snapshot as the one at app.py:191-195.
- Flask routes, template rendering and dashboard counts: user interface.
- `background_scheduler`, `self_pinger` and thread startup: timers and threads.
- `datetime.now()` formatting: the run time is an opaque string.
- Run.StillBrokenKeepsFirstBroken: assumes a non-empty run time. The run time comes from `strftime` and is never empty, but the model treats it as an opaque string.
