# FreelanceXchain backend: a model in Dafny

The project models the parts of the backend whose correctness needs an argument over several calls: the
idempotency and rate-limiting middleware, the request validator, the CSV sanitiser, the paging and batching
loops of the repositories, two races that the repositories handle in code, the JSON encoding of stored
attributes, and the rewriting of the OpenAPI document. `dafny verify dfyconfig.toml` checks everything.

How the model is laid out:

- **Whole objects.** What the source updates in place is a class (`Idempotency.IdempotencyCache` and
  `CachedResponse`, `LruCache.LRUCache`, `RateLimiter.Redis`, `Notifications.NotificationStore`,
  `Subscriptions.SubscriptionRepository`, `Suggestions.SuggestionStore`, `Validation.ErrorLog`) or a method
  with a loop; each method is proved against a function, and the theorems are about those functions.
- **Runs.** Protocols are state machines whose events are the steps between two waits of the source: request
  arrivals, responses, closed connections, clock ticks, evictions, single database calls. A theorem about runs
  holds for every list of enabled events.
- **The database** is a sequence of rows in query order and one primitive, `Paging.List`: a filter, a limit and
  a cursor. Where the source catches errors, a parameter says how each call fares; a `Fault` can hit before or
  after the database has acted.
- **JSON** is not assumed: `Json` has the printer, the parser and their inverse laws, `JsonGrammar` the grammar
  (sections 2 to 7 of RFC 8259) that the parser accepts exactly, and the attribute and response theorems use them.

Where the code does not do what one would expect, the exact condition is proved, with an example:

- two handlers of one idempotency key run at once exactly when a request arrives while the running one has
  overrun its minute, lost its client, or lost its cache entry (`IdempotencyRuns.MutualExclusion`);
- a replayed `send()` can differ from the first answer in its text, and in its content type unless that is JSON
  (`Idempotency.SendReplaysIdentically`);
- a request that waits for Redis until the counter of its window has expired restarts it, so more than `maxRequests`
  can pass in a window (`RateLimiter.WindowExact`, with `RateLimiter.LateScriptExample`); `Retry-After` can be zero
  (`RateLimiter.RetryAfterLeavesWindow`);
- `getUserContracts` skips contracts on later pages unless one role fills everything up to the page's end
  (`Contracts.LaterPageExact`);
- when the query for one role fails, `getUserContracts` answers with the other role's contracts as if they were all;
  it is proved exactly when the first page, its total and its `hasMore` are still right (`Contracts.FirstPageExact`,
  with `Contracts.FailedRoleExample`);
- `findAllByFreelancers` repeats a freelancer's contracts once per chunk of ids that names them
  (`Grouping.GroupRight`);
- `hasMore` of `getUserContracts` can promise more than there is, up to an empty page that promises more
  (`Contracts.HasMoreExactly`, `Contracts.EmptyPromise`);
- a single-quoted CSV formula with a comma is torn apart by its own sanitising (`Csv.ResplitExactly`), and what
  was text inside it can read back as a live formula (`Csv.SanitizedLineIsSafe`, with `Csv.LiveExample`);
  sanitising is not idempotent (`Csv.SanitizeTwice`);
- the CSV sanitiser cuts at every line break, also inside double quotes, so a formula in or behind a cell of several
  lines gets through (`Csv.SanitizedRecord`, with `Csv.BreakExample`); files without such cells are safe exactly when
  no cell comes to life as above (`Csv.SanitizedFileIsSafe`);
- an array item declared `object` passes when it is not one, and a null item can make the validator throw
  (`Validation.NonObjectItems`, `Validation.ThrowsExactly`); integer, boolean and array items are not checked at
  all (`Validation.ItemsEnforcedExactly`);
- a failed read ends the paging of the audit log and of the notifications as if there were no more
  (`AuditLog.CursorDeliversAll`, `Notifications.PagingDeliversAll`);
- an experience entry can lose its stored id to an entry without one (`Experience.StoredIdLostExactly`);
- a colon in a path can give two requests one idempotency key (`Idempotency.SameCacheKeyExactly`);
- after an overlap on an idempotency key, a request that meets a running one need not get the conflict
  (`IdempotencyRuns.ConflictExactly`, with `IdempotencyRuns.OverlapExample`);
- creating a subscription with an explicit undefined drops the default (`Subscriptions.CreateIsUpdateOfDefaults`).
  The comment in `recordSuggestionRequest` speaks of a double increment without the lock; what the code would
  suffer is a lost request (`Suggestions.LostWithoutLock`).

## Model

| member | source | states |
|---|---|---|
| `Idempotency.IdempotencyCache.Get` | src/utils/cache.ts:35-50 | an entry is served up to and including its expiry, and an expired one is dropped |
| `Idempotency.IdempotencyCache.Set` | src/utils/cache.ts:72-83 | only the key's entry changes, with a new expiry |
| `Idempotency.IdempotencyCache.Delete` | src/utils/cache.ts:85-87 | only the key's entry goes |
| `Idempotency.CachedResponse.CommitCache` | src/middleware/idempotency-middleware.ts:60-68 | only the first body is committed; below 500 it is stored for the ttl, otherwise the key is freed |
| `Idempotency.CachedResponse.Json` | src/middleware/idempotency-middleware.ts:70-73 | sends the JSON text, as JSON unless the handler has set another type, and, through the nested call of send, still commits the body once and as a value |
| `Idempotency.CachedResponse.Send` | src/middleware/idempotency-middleware.ts:75-86 | commits a string as the JSON it holds, if any, and sends it as it is, as HTML unless the handler has set a type; a value goes through json |
| `Idempotency.CachedResponse.OnClose` | src/middleware/idempotency-middleware.ts:88-92 | frees the key only if nothing was committed and the response has not ended |
| `Idempotency.Handle` | src/middleware/idempotency-middleware.ts:98-137 | exactly the requests of another verb or without a key pass; a key of no or more than 255 characters is refused, one of a running request conflicts, one of a stored response is replayed, and any other is admitted; only an admitted one writes: an in-progress entry for 60 s |
| `Idempotency.KeyOfHeaders` | src/middleware/idempotency-middleware.ts:22-25 | the newer header decides, also when it is empty, and the key is the header without the whitespace around it |
| `Idempotency.JsonReplaysIdentically` | src/middleware/idempotency-middleware.ts:70-86 | for every body, none included, the nested send would commit the very same body, and what json sends is what a replay of the committed body sends, with the same content type exactly when the handler has set none or that of JSON |
| `Idempotency.SendReplaysIdentically` | src/middleware/idempotency-middleware.ts:75-86 | a replay repeats the text of a response made with send if and only if that is the compact text of a JSON value, a value other than null, or a response without a body; and text and content type if and only if it was besides sent as JSON |
| `Idempotency.SameCacheKeyExactly` | src/middleware/idempotency-middleware.ts:122-124 | for user ids without a colon two requests share a cache key if and only if user and method agree and path, colon and key agree as one text |
| `Idempotency.CacheKeyCollision` | src/middleware/idempotency-middleware.ts:124 | with a colon in the path two different requests share one |
| `IdempotencyRuns.StepOneRunning` | src/middleware/idempotency-middleware.ts:27-136 | one event keeps at most one handler per key if and only if it is not an arrival that meets a lapsed request |
| `IdempotencyRuns.MutualExclusion` | src/middleware/idempotency-middleware.ts:55-136 | over every run, handlers of a key never overlap if and only if no request arrives on it while a running one has overrun its 60 s, lost its client or lost its entry |
| `IdempotencyRuns.RunningMeansConflict` | src/middleware/idempotency-middleware.ts:27-42 | in every run whose requests have not overlapped on the key, a request that meets a running one gets the conflict and changes nothing, unless that one has lapsed, and then it is admitted |
| `IdempotencyRuns.ConflictExactly` | src/middleware/idempotency-middleware.ts:27-136 | in every run whatsoever a request gets the conflict if and only if the request last admitted on its key arrived at most a minute ago and its entry was not replaced or dropped since; no request of the protocol passes unguarded, and only admitted ones run |
| `IdempotencyRuns.OverlapExample` | src/middleware/idempotency-middleware.ts:60-92 | after an overlap a request can meet a running one and get the response of the other |
| `IdempotencyRuns.AbortedClientExample` | src/middleware/idempotency-middleware.ts:88-92 | a closed connection is enough for two handlers at once |
| `IdempotencyRuns.ResponseSettles` | src/middleware/idempotency-middleware.ts:63-64 | a response below 500 leaves the key with that response and no handler running |
| `IdempotencyRuns.ServerErrorFreesKey` | src/middleware/idempotency-middleware.ts:65-66 | after a response of 500 or more the next request on the key is admitted |
| `IdempotencyRuns.SettledUntilExpiry` | src/middleware/idempotency-middleware.ts:27-53 | until the committed response expires every request on the key gets it and no handler runs, whatever else happens |
| `IdempotencyRuns.CommittedResponseIsReplayed` | src/middleware/idempotency-middleware.ts:55-136 | the protocol end to end: from a committed response below 500 to its expiry all requests on the key get its status and body |
| `LruCache.LRUCache.Get` | src/utils/cache.ts:35-50 | a hit moves the entry to the back, an expired entry is dropped |
| `LruCache.LRUCache.Set` | src/utils/cache.ts:72-83 | replaces the key's entry or, when full, drops the least recently used one |
| `LruCache.LRUCache.Delete` | src/utils/cache.ts:85-87 | says whether the key had an entry; if so exactly that entry is cut out and the others keep their order, otherwise nothing changes |
| `LruCache.RunSpares` | src/utils/cache.ts:35-87 | over every run of operations on few enough other keys an entry stays in place unchanged |
| `LruCache.WrittenEntryStays` | src/utils/cache.ts:461-465 | an entry just written survives every run of operations on fewer than maxSize different other keys |
| `LruCache.EvictedExactly` | src/utils/cache.ts:72-83 | writes of new keys evict an entry if and only if they, it and the entries used since it are more than maxSize |
| `LruCache.WrittenEntryGoes` | src/utils/cache.ts:461-465 | an entry just written goes with the maxSize-th new key after it and not before: when an idempotency entry is lost |
| `CacheRefinement.GetRefines` | src/utils/cache.ts:35-50 | seen as a map, the LRU cache answers a get with what the idempotency protocol looks up, and drops an expired entry |
| `CacheRefinement.SetRefines` | src/utils/cache.ts:72-83 | seen as a map, a set is the protocol's write, after the key used longest ago is dropped exactly when the written one is new and the cache full |
| `CacheRefinement.DeleteRefines` | src/utils/cache.ts:85-87 | seen as a map, a delete takes the key's entry out and leaves the others |
| `CacheRefinement.StepRefines` | src/middleware/idempotency-middleware.ts:55-136 | each step of the protocol on the LRU cache is a step of the protocol model, behind its evict event when the step writes a new key to the full cache |
| `CacheRefinement.RunRefines` | src/middleware/idempotency-middleware.ts:55-136 | every run of the protocol on the LRU cache is a run of the protocol model with evict events added: same answers, entries and handlers, so the theorems about runs hold on the real cache |
| `RateLimiter.Redis.Eval` | src/middleware/rate-limiter.ts:32-38 | the script counts up, starts the expiry on the first count only, and returns count and time left |
| `RateLimiter.Limiter.Handle` | src/middleware/rate-limiter.ts:66-108 | the decision on a request whose window is that of its arrival and whose script runs later, after scripts of others, under a Redis call that works, fails before or fails after running |
| `RateLimiter.ScriptsContinueRun` | src/middleware/rate-limiter.ts:32-38 | the counters of a run, after the scripts of more requests, are the counters of the longer run |
| `RateLimiter.HandleDecides` | src/middleware/rate-limiter.ts:78-108 | what Handle decides and leaves, when a run made the counters and scripts of later requests run while it waits, is the last decision and the counters of the whole run, so the theorems about runs are about Handle |
| `RateLimiter.OthersDoNotDisturb` | src/middleware/rate-limiter.ts:80 | the scripts of other limiters change no decision |
| `RateLimiter.CountersOutlive` | src/middleware/rate-limiter.ts:32-38 | however late its scripts run, a counter never expires before its window ends |
| `RateLimiter.RestartsExactly` | src/middleware/rate-limiter.ts:32-38 | no script starts an expired counter again if and only if no script of the counter runs more than a window length after another |
| `RateLimiter.PromptInTime` | src/middleware/rate-limiter.ts:78-88 | which holds in particular when all of them run before the window ends |
| `RateLimiter.WindowBound` | src/middleware/rate-limiter.ts:78-105 | in every run a window lets through at most maxRequests per client for every start of its counter, so at most maxRequests when no script runs after the expiry; failing open adds only its faulted requests |
| `RateLimiter.IntervalBound` | src/middleware/rate-limiter.ts:78-105 | any interval as long as a window lets through at most 2 * maxRequests while no script runs after the expiry of its two counters, and maxRequests more for every restart; when failing closed this holds under every pattern of Redis errors |
| `RateLimiter.IntervalBoundTight` | src/middleware/rate-limiter.ts:79-80 | for every limiter with a window of at least 2 ms that bound is reached |
| `RateLimiter.WindowExact` | src/middleware/rate-limiter.ts:78-93 | without faults a window lets through the smaller of the arrivals and maxRequests if and only if no script runs after the expiry, no more arrive, or the limit is zero; and more than maxRequests exactly when one does and more arrive |
| `RateLimiter.LateScriptExample` | src/middleware/rate-limiter.ts:79-88 | with a limit of one two requests of a window pass, whatever its length |
| `RateLimiter.RetryAfterLeavesWindow` | src/middleware/rate-limiter.ts:90-101 | Retry-After is less than a window plus a second and leads past the window that refused; it is zero exactly when the script runs in the millisecond in which the counter expires |
| `Validation.ValidatePattern` | src/middleware/validation-core.ts:157-168 | adds the mismatch or the invalid-pattern error and nothing else |
| `Validation.ValidateLengthAndBounds` | src/middleware/validation-core.ts:170-202 | adds one error per violated bound, in order, with UTF-16 lengths |
| `Validation.ValidateEnum` | src/middleware/validation-core.ts:204-208 | adds an error for a value that is not one of the listed ones |
| `Validation.ValidateItems` | src/middleware/validation-core.ts:210-230 | adds the errors of each item in turn, or throws at the first item that throws |
| `Validation.ValidateObjectFields` | src/middleware/validation-core.ts:236-262 | adds the errors of each declared field and then of the required ones, or throws on null |
| `Validation.ValidateNestedObject` | src/middleware/validation-core.ts:264-268 | object-typed values get their fields checked, others nothing |
| `Validation.ValidateFormat` | src/middleware/validation-core.ts:270-303 | adds an error for a string that is not of its declared format |
| `Validation.ValidateProperty` | src/middleware/validation-core.ts:308-321 | a type error alone, or the errors of all checks in order |
| `Validation.ValidateRequest` | src/middleware/validation-core.ts:323-361 | undeclared keys, then required ones, then each property; valid exactly when the list is empty |
| `Validation.KindMeans` | src/middleware/validation-core.ts:138-155 | a request whose one required field declares only a type is accepted exactly when its value is, for each of the six types, a string, a number, a finite number equal to some integer, a boolean, an array or an object; otherwise it gets the type error alone |
| `Validation.RequiredMeans` | src/middleware/validation-core.ts:337-349 | a member that is missing or null gets the error of a missing one alone |
| `Validation.UndeclaredMeans` | src/middleware/validation-core.ts:326-335 | a key is refused exactly when the schema forbids undeclared keys and has no property of that name |
| `Validation.LengthMeans` | src/middleware/validation-core.ts:171-177 | strings are measured in UTF-16 code units: two for a character beyond U+FFFF, one for any other |
| `Validation.LengthBoundsMean` | src/middleware/validation-core.ts:171-177 | a request with a length bound is accepted exactly when a string keeps it, and otherwise gets that error alone |
| `Validation.RangeMeans` | src/middleware/validation-core.ts:179-193 | the same for the four bounds on numbers, the infinite ones included |
| `Validation.SizeBoundsMean` | src/middleware/validation-core.ts:195-201 | the same for the bounds on arrays |
| `Validation.PatternMeans` | src/middleware/validation-core.ts:157-168 | a pattern admits the strings it matches, the empty one all, and one that does not compile none |
| `Validation.EnumMeans` | src/middleware/validation-core.ts:204-208 | an enum admits exactly the listed values, and no array or object |
| `Validation.FormatMeans` | src/middleware/validation-core.ts:270-303 | what each of the five formats admits; any other admits everything |
| `Validation.ItemKindMeans` | src/middleware/validation-core.ts:213-221 | an item of the wrong declared type is reported by its place |
| `Validation.NestedNames` | src/middleware/validation-core.ts:224-228 | a missing member of an object, or of an object in an array, is reported under the object's name and place |
| `Validation.NestedErrors` | src/middleware/validation-core.ts:236-262 | a declared member of an object that is missing or of the wrong type gets that error alone, under the object's name and its own |
| `Validation.PropertyExact` | src/middleware/validation-core.ts:138-321 | by recursion on the schema: a check adds no error if and only if the value conforms, given object items, and then it never throws |
| `Validation.AcceptsExactlyConforming` | src/middleware/validation-core.ts:323-361 | for every schema and all data: the data satisfies the conformance predicate if and only if the validator reports nothing and all object-typed items are objects |
| `Validation.ThrowsExactly` | src/middleware/validation-core.ts:210-361 | for every schema and all data the validator throws if and only if a declared member breaks: somewhere in it a null stands for an object item whose schema has a field to read |
| `Validation.ItemsEnforcedExactly` | src/middleware/validation-core.ts:210-230 | the items that pass are those that conform in full if and only if the item schema is one of: strings without an enum, a maximum length or a positive minimum, whose pattern and format hold of every string; numbers without an enum, exclusive bounds, or finite ones; objects without an enum and with declared properties or nothing required (or declared ones that no object meets); items of no known kind for which all this holds, and whose own items are unbounded and not strings, numbers or objects; never integers, booleans or arrays |
| `Validation.NonObjectItems` | src/middleware/validation-core.ts:224-228 | a non-object item of a declared object array is accepted without conforming, and a null item throws |
| `Coercion.CoerceStringValues` | src/middleware/validation-core.ts:405-427 | the loop turns each declared string member into its type where it parses and touches nothing else |
| `Coercion.CoercedSpells` | src/middleware/validation-core.ts:405-427 | a coerced boolean is spelled as the string was, a number is the one the string spells, the elements of a list are the trimmed parts of the string, and a string that spells no value of the type stays |
| `Text.CommaSplitJoins` | src/middleware/validation-core.ts:422-424 | the parts of a list hold no comma and joined with commas are the string again |
| `Coercion.CoerceIdempotent` | src/middleware/validation-core.ts:405-427 | coercing again changes nothing |
| `Coercion.ConformingUnchanged` | src/middleware/validation-core.ts:400-404 | data that already conforms is left as it is |
| `Csv.SplitCsvLine` | src/middleware/file-upload-middleware.ts:74-92 | the loop computes the cells of the quote-aware split |
| `Csv.JoinSplit` | src/middleware/file-upload-middleware.ts:74-92 | joining the cells of a line with commas gives back the line |
| `Csv.SplitJoin` | src/middleware/file-upload-middleware.ts:74-92 | splitting is the only way to cut a line at its unquoted commas |
| `Csv.SanitizedIsSafe` | src/middleware/file-upload-middleware.ts:104-112 | no sanitised cell, trimmed and without one pair of enclosing double quotes, starts a formula |
| `Csv.FormulaCells` | src/middleware/file-upload-middleware.ts:105-112 | a cell without quotes around it gets a single quote, and loses the whitespace around it, exactly when it starts with one of = + - @ and the bar |
| `Csv.QuotedFormulaCells` | src/middleware/file-upload-middleware.ts:105-112 | a cell in quotes of either kind is rewritten in double quotes, with a single quote in front, exactly when its inside starts with one of these, a tab or a carriage return |
| `Csv.ResplitExactly` | src/middleware/file-upload-middleware.ts:101-114 | re-splitting a sanitised line gives the same number of cells, and exactly the sanitised ones, if and only if no single-quoted formula cell holds a comma |
| `Csv.SanitizedLineIsSafe` | src/middleware/file-upload-middleware.ts:101-114 | every cell read back from a sanitised line is safe if and only if no single-quoted formula cell of the line has a comma behind which, up to the next comma or the closing quote, trimmed and without double quotes around it, another formula starts |
| `Csv.LiveExample` | src/middleware/file-upload-middleware.ts:106-109 | a line of one text cell whose sanitised form reads back with a live formula |
| `Csv.SanitizeTwice` | src/middleware/file-upload-middleware.ts:105-110 | exactly when sanitising a cell again changes it |
| `Csv.TornExample` | src/middleware/file-upload-middleware.ts:106-109 | a cell that becomes several |
| `Csv.SanitizedLinesAreSafe` | src/middleware/file-upload-middleware.ts:98-116 | read line by line a sanitised file has as many lines as before, and a line reads back with safe cells only if and only if no cell of the original line comes to life in that way |
| `Csv.SanitizedRecord` | src/middleware/file-upload-middleware.ts:98-116 | read as RFC 4180 has it, a line break inside quotes not ending a record, every sanitised file has as many records as the original and each is its sanitised lines: one of a single line is safe if and only if no cell comes to life, and one that the sanitiser leaves alone is as safe as it was |
| `Csv.SanitizedFileIsSafe` | src/middleware/file-upload-middleware.ts:98-116 | when no line leaves a quote open, the lines are the records, and each reads back safe if and only if no cell of it comes to life |
| `Csv.BreakExample` | src/middleware/file-upload-middleware.ts:100 | a file left as it is, although its one record, a cell of which holds a line break, has a live formula |
| `Json.NumberRoundTrip` | src/repositories/base-repository.ts:26-47 | a printed number reads back as itself |
| `Json.ValueRoundTrip` | src/repositories/base-repository.ts:26-47 | a printed value is read back from any text that goes on after it |
| `Json.ParsePrint` | src/repositories/base-repository.ts:26-47 | JSON.parse undoes JSON.stringify on every well-formed value |
| `Json.PrintInjective` | src/repositories/base-repository.ts:47 | different values have different texts |
| `Json.PrintedChar` | src/repositories/base-repository.ts:47 | which characters print as themselves, as escapes of two characters, and as escapes of six |
| `Json.NumberLayout` | src/repositories/base-repository.ts:47 | exactly which numbers are laid out with a power of ten, and where the decimal point is |
| `JsonGrammar.ParseExactly` | src/repositories/base-repository.ts:19-30 | the texts JSON.parse accepts are exactly those of the grammar of RFC 8259, and its answer is what they mean |
| `Attributes.SerializeFields` | src/repositories/base-repository.ts:135-142 | the loop drops undefined fields and timestamps and encodes objects and non-native arrays |
| `Attributes.StoredExactly` | src/repositories/base-repository.ts:42-48 | exactly the defined fields other than id and timestamps are stored; only under `required_skill_ids` and `requester_ids` is an array stored as it is, other arrays and objects as the text that parses to them, every scalar unchanged |
| `Attributes.MapDocument` | src/repositories/base-repository.ts:57-69 | the in-place loop decodes every string field |
| `Attributes.ReadsExactly` | src/repositories/base-repository.ts:19-30 | exactly the strings that are the JSON text of an array, or of an object with members, are read as JSON, whatever whitespace is in front |
| `Attributes.AttributeRoundTrip` | src/repositories/base-repository.ts:19-48 | a value written and read back is unchanged if and only if it is neither the empty object nor the text of an array or of an object with members |
| `Attributes.CreatedEntity` | src/repositories/base-repository.ts:135-153 | what create returns has exactly the written fields, unchanged if and only if each of them survives, and system timestamps |
| `Attributes.Timestamps` | src/repositories/base-repository.ts:80-88 | an entity has its own timestamps unless they are absent or null, and then the document's |
| `Attributes.UpdatedEntity` | src/repositories/base-repository.ts:170-193 | what update returns has the sent fields as on creation and every other field as before |
| `Paging.PageIsSlice` | src/repositories/base-repository.ts:249-257 | a page read from a row's cursor is the next slice of the matching rows |
| `Paging.UnknownCursor` | src/repositories/base-repository.ts:249-257 | a cursor is an error exactly when it names no row |
| `Paging.CursorKeepsPlace` | src/repositories/audit-log-repository.ts:187-193 | rows added in front do not move a cursor |
| `Paging.FetchInBatches` | src/repositories/base-repository.ts:240-271 | the batches are a prefix of the matching rows; unless stopped or failing they are all of them, after exactly n / pageSize + 1 queries; a failed query ends them |
| `Paging.FetchAll` | src/repositories/base-repository.ts:236-243 | all matching rows in order, whatever the page size, if and only if all n / pageSize + 1 queries succeed |
| `AuditLog.ConditionsMean` | src/repositories/audit-log-repository.ts:200-208 | the pushed queries together admit exactly the entries the filters ask for |
| `AuditLog.Search` | src/repositories/audit-log-repository.ts:194-226 | one look-ahead row decides hasMore and nextCursor; any error, also that of a bad cursor, is an empty last page |
| `AuditLog.SearchFrom` | src/repositories/audit-log-repository.ts:212-222 | a search that works, from the k-th match, answers the next matches, and has more exactly when some remain |
| `AuditLog.PageSize` | src/repositories/audit-log-repository.ts:196-224 | a first page holds as many of the matches as asked for, between 1 and 100 and 20 by default, and has more exactly when more match |
| `AuditLog.EmptyFilterAdmits` | src/repositories/audit-log-repository.ts:201-206 | a filter that is the empty string asks for nothing |
| `AuditLog.BadSearch` | src/repositories/audit-log-repository.ts:224-226 | a cursor that names no entry, or an error, gives an empty last page |
| `AuditLog.CursorDeliversAll` | src/repositories/audit-log-repository.ts:187-226 | following nextCursor, with any arrivals between reads, any limits and any reads failing, yields a prefix of the matches present at the first read, once each, in order; at null it is all of them if and only if the last read worked or nothing matched; and null comes |
| `AuditLog.ListForRange` | src/repositories/audit-log-repository.ts:233-259 | the loop returns the entries in range at the first read, whatever arrives meanwhile, and an empty list exactly when a read fails or there are none |
| `Notifications.FilterMeans` | src/repositories/notification-repository.ts:24-30 | the pushed queries admit the user's archived rows, or all the others, those from before the attribute existed included |
| `Notifications.NotificationStore.GetNotificationsByUser` | src/repositories/notification-repository.ts:55-89 | the pushed queries and the page made of the response are a page of the archived or the active rows from the token or the offset; any error is an empty page that promises nothing |
| `Notifications.NotificationStore.SetArchived` | src/repositories/notification-repository.ts:144-146 | every row stays in its place, the named one has its flag set and is returned, the others are as they were; null for a missing row or an error |
| `Notifications.NotificationStore.DeleteNotification` | src/repositories/notification-repository.ts:172-174 | true exactly when the row was there and the call works; then that row is cut out and the others keep their order, otherwise nothing changes |
| `Notifications.RunKeeps` | src/repositories/notification-repository.ts:61-64 | every event of a paging client keeps the layout: rows before the cursor, held rows, rows still to come |
| `Notifications.PagingDeliversAll` | src/repositories/notification-repository.ts:55-89 | while loaded rows are archived or deleted, new ones arrive and loads fail, a client that pages from the last row it holds has a prefix of the rows active at the start, once each, in order; when a load says hasMore false it has them all if and only if that load worked or it had them before |
| `Chunks.DedupeKeeps` | src/repositories/proposal-repository.ts:131 | the distinct ids, each once |
| `Proposals.CountsByProjects` | src/repositories/proposal-repository.ts:129-223 | for each distinct id exactly its number of wanted proposals, or zero for all ids when a query fails; at most 100 ids per query |
| `Proposals.GetProposalCountsByProjects` | src/repositories/proposal-repository.ts:129-175 | for each project the number of its proposals not withdrawn, or zero for all when a query fails |
| `Proposals.GetAcceptedProposalCountsByProjects` | src/repositories/proposal-repository.ts:177-223 | for each project the number of its accepted proposals, or zero for all when a query fails |
| `Proposals.AcceptedAmongCounted` | src/repositories/proposal-repository.ts:144-210 | a project's accepted proposals are never more than those counted, and as many exactly when all its others are withdrawn |
| `Proposals.CountChunk` | src/repositories/proposal-repository.ts:144-169 | the pages of one chunk add exactly the chunk's proposals and nothing to other ids |
| `Proposals.ChunkCounts` | src/repositories/proposal-repository.ts:145-163 | the rows of a chunk's query hold every wanted proposal of its projects and none of another |
| `Entitlements.ChunkLimitSuffices` | src/repositories/subscription-repository.ts:109-113 | the limit of the query, the chunk's length, never cuts its result |
| `Entitlements.GetProUserIds` | src/repositories/subscription-repository.ts:100-127 | exactly the asked users with an entitled Pro subscription, less those in chunks whose query failed |
| `Entitlements.ProHasSource` | src/repositories/subscription-repository.ts:63-127 | nobody is Pro whom no write of their own has put on the plan and given an entitled status |
| `Grouping.AddRows` | src/repositories/contract-repository.ts:368-372 | grouping keeps each owner's rows, in order |
| `Grouping.GroupInChunks` | src/repositories/contract-repository.ts:361-376 | each owner gets all of their documents once per chunk that names them; the caller gets an error if and only if a query that one of the chunks takes fails |
| `Grouping.GroupRight` | src/repositories/contract-repository.ts:364-366 | so a group is right if and only if one chunk names its owner or there is nothing to group |
| `Grouping.DistinctSafe` | src/repositories/contract-repository.ts:364-366 | ids without repeats are each in one chunk |
| `Grouping.RepeatedAcrossChunks` | src/repositories/contract-repository.ts:364-366 | an id repeated a hundred places later is in two |
| `Grouping.FindByContractIds` | src/repositories/payment-repository.ts:50-79 | each contract asked for gets exactly its payments, or the caller an error if and only if a query that one of the chunks takes fails |
| `Contracts.SortIsStable` | src/repositories/contract-repository.ts:316-317 | the sort is newest first and keeps the order of equals |
| `Contracts.StableSortUnique` | src/repositories/contract-repository.ts:316-317 | any stable sort gives that list |
| `Contracts.SortIsMerge` | src/repositories/contract-repository.ts:316-317 | sorting two newest-first lists behind one another merges them |
| `Contracts.RolePageMeans` | src/repositories/base-repository.ts:349-380 | a page of one role's list is the stretch from the offset and promises more exactly when the list goes on behind it; after an error it is empty and promises nothing |
| `Contracts.FirstPageExact` | src/repositories/contract-repository.ts:292-331 | for every outcome of the two queries, equal timestamps included: the first page is the first `limit` of the sorted whole if and only if failed roles are empty or, with the other's query working, begin behind the page; the total is right if and only if failed roles are empty; hasMore if and only if they are or more is seen than the page shows |
| `Contracts.LaterPageExact` | src/repositories/contract-repository.ts:300-320 | for every outcome of the two queries a page at any offset is the right slice if and only if nothing is asked for or left, everything up to its end comes from one role whose query works, or it is the first and both work |
| `Contracts.HasMoreExactly` | src/repositories/contract-repository.ts:321-327 | for every outcome of the queries of two pages: the page at the next offset shows something exactly when it starts inside the longer list that its queries see, and then hasMore is true unless a query failed that works for the next page; and exactly when hasMore is true although the next page shows nothing |
| `Contracts.EmptyPromise` | src/repositories/contract-repository.ts:321-327 | a page is empty and promises more exactly from the end of the longer list that its queries see to the sum of both |
| `Contracts.SkippedExample` | src/repositories/contract-repository.ts:300-327 | a contract that is on no page, and an empty page that promises more |
| `Contracts.FailedRoleExample` | src/repositories/base-repository.ts:376-379 | with one query failing, the other role's newest contract is the whole first page although it is not the newest of all, and nothing is said to be left |
| `Experience.UniqueExperienceId` | src/repositories/freelancer-profile-repository.ts:70-91 | the stored id if it is free, otherwise the first free generated name; the loop ends because the used set is finite |
| `Experience.StoredMeans` | src/repositories/freelancer-profile-repository.ts:75-77 | an entry is stored with an id exactly when one of its three fields is a text that is not blank, and then with the first such text, trimmed |
| `Experience.FirstFreeIsFirst` | src/repositories/freelancer-profile-repository.ts:80-86 | the generated name is free and all earlier ones are taken |
| `Experience.NormalizeExperience` | src/repositories/freelancer-profile-repository.ts:105-123 | the loop over the entries with its set of used ids |
| `Experience.FieldsMean` | src/repositories/freelancer-profile-repository.ts:58-122 | what each field of a normalised entry is, for texts, null, absent and other values |
| `Experience.IdsAreDistinct` | src/repositories/freelancer-profile-repository.ts:108-114 | no two entries end up with the same id |
| `Experience.OrderKept` | src/repositories/freelancer-profile-repository.ts:109-122 | entries keep order and contents, and later ones do not affect earlier ones |
| `Experience.StoredIdLostExactly` | src/repositories/freelancer-profile-repository.ts:75-87 | an entry stored with an id loses it if and only if an earlier entry is stored with the same id, or an earlier one without a free stored id tries it as a generated name, the names before being taken |
| `Experience.StoredIdLostExample` | src/repositories/freelancer-profile-repository.ts:79-87 | an entry without an id takes the first generated name from one that is stored with it |
| `Experience.NormalizeIdempotent` | src/repositories/freelancer-profile-repository.ts:105-131 | normalising what was normalised changes nothing |
| `AvailableProfiles.GetAvailableProfiles` | src/repositories/freelancer-profile-repository.ts:173-194 | the first available profile per user, whatever the page size, or an empty list exactly when a query fails or nobody is available |
| `AvailableProfiles.FirstPerUserIsFair` | src/repositories/freelancer-profile-repository.ts:181-189 | nobody is listed twice and no available user is lost |
| `AvailableProfiles.ListedUsers` | src/repositories/freelancer-profile-repository.ts:183-187 | no two listed profiles have the same user, every available user is listed, and a profile without a user is listed by its own id |
| `AvailableProfiles.KeptInOrder` | src/repositories/freelancer-profile-repository.ts:179 | newest first |
| `AvailableProfiles.KeptIsNewest` | src/repositories/freelancer-profile-repository.ts:183-187 | the profile listed for a user is that user's newest |
| `OpenApi.ApplyValidationSchemasToSpec` | src/config/swagger.ts:494-523 | the loop over the endpoints rewrites the paths and nothing else |
| `OpenApi.OperationAffected` | src/config/swagger.ts:498-520 | each operation is decided by the entries for it alone |
| `OpenApi.EntryDocumented` | src/config/swagger.ts:498-520 | every entry ends up documented, its converted schema under its content type or no body at all, unless a later entry for its operation replaces it |
| `OpenApi.OthersUnchanged` | src/config/swagger.ts:498-520 | an operation no entry names is left as it was |
| `OpenApi.ApplyIdempotent` | src/config/swagger.ts:494-523 | applying the list again changes nothing, for every document and list |
| `OpenApi.OrderIrrelevant` | src/config/swagger.ts:500-519 | two body entries of one operation with different content types commute if and only if the operation exists or both bring the same metadata |
| `OpenApi.OtherOperationsIndependent` | src/config/swagger.ts:498-520 | entries for different operations always commute |
| `OpenApi.LastEntryDecides` | src/config/swagger.ts:485-519 | an operation with no later entry has a body if and only if its entry's schema declares or requires a member, and then its schema under its content type, JSON by default |
| `OpenApi.NewOperation` | src/config/swagger.ts:500-519 | an operation the document did not have is the entry's metadata, with a required body of that one content or none |
| `OpenApi.NoBodyMeansEmpty` | src/config/swagger.ts:480-488 | for an operation documented without a body the validator accepts exactly the empty body, if it forbids undeclared members |
| `Subscriptions.FailedReadHarmless` | src/repositories/base-repository.ts:155-168 | reading an error as null is harmless: when nobody else writes, an upsert does the same whether its read works or fails |
| `Subscriptions.SubscriptionRepository.Create` | src/repositories/base-repository.ts:135-153 | creates with the defined attributes, or throws and leaves an existing document alone |
| `Subscriptions.SubscriptionRepository.Update` | src/repositories/base-repository.ts:170-193 | overlays the defined attributes, or null for a missing document or an error |
| `Subscriptions.SubscriptionRepository.UpsertForUser` | src/repositories/subscription-repository.ts:63-90 | read, create or update, fall back to update, with other callers writing at each wait |
| `Subscriptions.UpsertWritesOnce` | src/repositories/subscription-repository.ts:67-89 | one call, whatever others write at its waits and even if its read fails: it writes exactly once, on top of what is there, and returns that document; the fallback runs exactly when a document appeared after a read that found none |
| `Subscriptions.DocsAreReplay` | src/repositories/subscription-repository.ts:63-90 | in every interleaving and under any faults the documents are what the logged writes make one after another |
| `Subscriptions.EveryCallSound` | src/repositories/subscription-repository.ts:63-90 | whatever fails, a document returned to a caller is the one its own last write left |
| `Subscriptions.Linearizable` | src/repositories/subscription-repository.ts:63-90 | while writes go through, every returned call has written exactly once and returns what its write left in the sequential order |
| `Subscriptions.RealTimeOrder` | src/repositories/subscription-repository.ts:63-90 | a call that returned before another began comes before it in that order |
| `Subscriptions.FieldIsLastWritten` | src/repositories/subscription-repository.ts:73-83 | every field holds what the last write that defines it says, and otherwise what the create gave it |
| `Subscriptions.FieldHasSource` | src/repositories/subscription-repository.ts:71-83 | every value in a document was set by one of the user's own writes, or is that of a new subscription: plan free, status none, both flags false, event time zero, the user's id |
| `Subscriptions.ProOnlyWhenWritten` | src/repositories/subscription-repository.ts:77 | a user is on plan pro only if one of the user's writes says so |
| `Subscriptions.UntouchedIsFree` | src/repositories/subscription-repository.ts:74-83 | a document whose writes leave these fields out is on plan free, not active, with both flags false and event time zero |
| `Subscriptions.CreateIsUpdateOfDefaults` | src/repositories/subscription-repository.ts:74-83 | a create is the default document with the updates applied, if and only if no default is overridden by undefined |
| `Subscriptions.UserIdIsDocumentId` | src/repositories/subscription-repository.ts:42-49 | every document carries its own id as its user id |
| `Suggestions.SuggestionStore.RecordSuggestionRequest` | src/repositories/user-custom-skill-repository.ts:167-188 | records a new user once, changes nothing else, and null exactly when a call fails or there is no suggestion |
| `Suggestions.CounterExact` | src/repositories/user-custom-skill-repository.ts:154-188 | in every locked interleaving nobody is listed twice or taken off, and the counter rises by the number of users newly listed |
| `Suggestions.AnsweredAreListed` | src/repositories/user-custom-skill-repository.ts:174-183 | a caller who was given the suggestion is on its list for good |
| `Suggestions.OnlyCallersListed` | src/repositories/user-custom-skill-repository.ts:180-183 | every user newly listed is one who asked |
| `Suggestions.LostWithoutLock` | src/repositories/user-custom-skill-repository.ts:162-165 | without the lock an acknowledged request can be lost |
| `Payments.GetTotalEarnings` | src/repositories/payment-repository.ts:146-158 | the converted total of completed non-deposit payments to the user, or null exactly when a query fails |
| `Payments.GetTotalSpent` | src/repositories/payment-repository.ts:170-182 | the same for payments by the user |
| `Payments.PaymentAdds` | src/repositories/payment-repository.ts:134-182 | one more payment adds its amount to its payee's earnings and its payer's spending and to nobody else's; a deposit into escrow or an uncompleted one adds nothing, and a large amount of a released milestone counts as wei |
| `Payments.Conservation` | src/repositories/payment-repository.ts:134-182 | over any users that include the parties of every payment that moved something, the sum earned equals the sum spent, and both equal what was moved |
| `Text.NatTextInjective` | src/repositories/freelancer-profile-repository.ts:84 | different suffixes print differently |
| `Text.TrimSplits` | src/middleware/file-upload-middleware.ts:105 | trimming removes a run of whitespace at each end and nothing else |
| `Text.SpaceCodes` | src/middleware/file-upload-middleware.ts:105 | exactly which characters trimming removes, by their code points |
| `Text.TrimPadded` | src/middleware/file-upload-middleware.ts:105 | padding a trimmed text with whitespace does not change its trim |

## Left out

- Idempotency: the charset of a content type, the header names and the bodies of the 400 and 409 answers; `send` with a number (a deprecated way to set the status); `clearIdempotencyCache`.
- Idempotency.CachedResponse.Send: a response that has ended cannot be sent again, because Express throws there.
- IdempotencyRuns.MutualExclusion: states the exact condition instead of mutual exclusion outright, which does not hold after an aborted connection.
- LruCache: the hit counters, `has`, `peek`, the cleanup timer and the Redis mirror.
- RateLimiter: the switches that disable limiting, the choice of the client address, and the HTML redirect of a refused OAuth navigation. Redis keeps its data and evaluates a script atomically; it and the server share one clock.
- RateLimiter.IntervalBoundTight: asks for a window of at least 2 ms, because a 1 ms interval cannot straddle two windows of whole milliseconds.
- Validation: regular expressions, `Date.parse` and `URL` are parameters; error texts are messages with parameters; members are own properties, so names such as `toString` on the prototype are not looked up; bodies that are arrays; file counts (lines 368-398) and the choice among body, query and params (lines 429-482).
- Coercion: `Number()` is a parameter.
- Csv.SanitizedRecord: of a record over several lines that sanitising changes it says that it reads as its sanitised lines, not which original cells make it safe.
- Csv: decoding and encoding of the bytes, and `sanitizeFilename`, a chain of four replacements.
- Json: numbers are exact decimals and not rounded to doubles, minus zero is not a value, escapes of lone surrogates are refused because text is a sequence of Unicode scalar values, and keys that look like array indices are not moved to the front.
- JsonGrammar.ParseExactly: for the same reason its grammar has no escapes of lone surrogates, which RFC 8259 (section 8.2) lets through.
- Attributes: logging and timing.
- Idempotency.SameCacheKeyExactly: asks for user ids without a colon, as document ids and `anon` are.
- Paging: the collection does not change during `fetchInBatches`; where the source expects changes (audit log, notifications) they are modelled there.
- AuditLog and Notifications: decoding of the entries' payloads; `getOwnedByIds` and the unread counts.
- Proposals: proposals submitted while they are being counted.
- Grouping: which of several failing queries the error comes from.
- Contracts: time stamps are numbers of milliseconds; an invalid date is not modelled.
- Contracts.LaterPageExact: asks that no contract is in both roles' lists, so that a contract can be told from its copies; so does what `Contracts.FirstPageExact` says of the items of a page with a failed query.
- Experience: the skills of an entry and the rest of the profile, whose normalisers are not about ids.
- OpenApi: the conversion of a schema is a parameter; path-level keys that are not operations.
- Subscriptions: deletion of a user's document, and the reading back of stored strings, which `Attributes` models.
- Suggestions: the lock's own implementation; it is mutual exclusion here.
- Payments: amounts are real numbers without rounding.
- The services, the Solidity contracts, the routes, logging, and everything that talks to Stripe, Ethereum or a language model.
