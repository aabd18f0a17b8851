# Verified model of the authworks platform core

A Dafny 4.11 model of the parts of authworks whose behaviour is easiest to get wrong, with proofs of what
they promise over every input, every run or every reachable state. `dafny verify dfyconfig.toml` checks all of it.

| part | modules |
|---|---|
| keyset pagination and its opaque cursor | `ListPage`, `ListOrder`, `ListWalk`, `ListStill`, `ListBoundaries`, `ListCursor`, `JsonText`, `Utf8`, `Base64Url` |
| fixed-window rate limiter | `RateLimit`, `RateLimitRuns`, `RateLimitMany`, `RateLimitRows` |
| append-only event log with its purge gate | `EventLog`, `EventPurge`, `EventDatabase`, `EventLogRuns` |
| sign-in identifiers, administrator backfill | `Identifiers`, `AdministratorsBackfill` |
| HTTP dates and conditional GET | `Calendar`, `HttpDate` |
| UUIDv7 identifiers | `Bytes`, `Uuid` |
| Valibot to JSON Schema compiler | `JsonSchema`, `SchemaCompiler`, `SchemaCutoff`, `SchemaConverse` |
| base32 decoder, trusted-proxy walk | `Totp`, `ProxyChain` |

`Wrappers`, `Text` and `Numbers` hold the option and result types, digits and the order of strings, and number limits.

## How the model follows the program

- Code that changes state keeps that form: `Database`, `Store` and `UtcDate` are classes whose methods carry out one
  statement or loop at a time, and each is proved against a function of the old state; the lemmas are about those
  functions. Comparators, parsers and printers are functions.
- What the functions themselves compute is pinned by lemmas that do not use them, most of them named `...Exactly`: columns of
  stored rows, the direction of a sort, the epoch and the printed form of dates, alphabets, messages and limits.
- Lemmas switch automatic induction off; every proof by induction is written out.
- A database failure is a parameter: `Fault` says which statement of a rate-limit call fails. The event log's `budget`
  is the number of statements carried out before one is refused; after a refusal it is any number again, so a
  transaction that tolerates one failure can succeed with later statements or meet another.
- Clocks, random bytes, generated ids, `localeCompare`, number printing and reading, and `trim().toLowerCase()` on
  addresses are parameters, with what is assumed of them stated as a predicate (`Comparable`, `KeyReadsBack`).
- JavaScript strings that travel through a cursor are sequences of UTF-16 code units, lone surrogates included.
- JavaScript numbers are reals, or integers where the code insists on safe integers; the 32-bit accumulator of the
  base32 decoder is modelled modulo 2^32.

## What turned out false, and exactly when it holds

- A walk by cursors over a list that stands still shows the sorted list if and only if, at every page boundary, the
  resuming predicate agrees with the comparator on every row (`WalkIsRightExactly`). It can disagree in two ways only
  (`AgreesThroughoutExactly`):
  - Nulls. The default `nullsLast = false` sorts them first but resumes as if they were last. Where that is the only
    disagreement, a walk of more than one page is right if and only if the keys are all null or all non-null
    (`NullsDecide`); otherwise it never shows a row with a sort value, or its second page starts the list over
    (`NullBoundaryLosesRows`, `ValueBoundaryRepeatsRows`). The comment at `src/platform/http/listRowsPage.ts:55` says
    nulls sort last; the code does not. A null and a number, one a page, lose the number (`NullHidesNumber`).
  - Ids of equal keys. Sorting orders them by `localeCompare`, resuming by code units. A row sorted after the first
    boundary but not resumed there is never shown, and one sorted before it but resumed makes the second page start
    over (`BoundaryLoses`, `BoundaryRepeats`); of two rows with equal keys and the ids "a" and "B" the second is lost
    under a dictionary order (`MixedCaseRowIsLost`). Lists whose keys never tie, such as metadata sorted by its own key,
    do not depend on this (`KeysWithoutTies`).
- Where the collation calls two ids of equal keys the same, the sort keeps the rows as they are listed, and a walk is
  right if and only if exactly the later rows resume at each page boundary (`WalkResumesExactly`). Of the two ways to
  list two such rows exactly one loses the second (`EqualIdsExactly`).
- Over lists that change, every finished walk shows each row that stays exactly once if and only if resuming agrees with
  the sort order on all places that may occur (`WalksAreCompleteExactly`).
- The date 29 February 0000 is printed and then rejected: `Date.UTC` reads year 0 as 1900, which is no leap year. It is
  the only four-digit-year instant that does not survive (`FormatThenParse`).
- The depth cut-off of the schema compiler does not only loosen. A union whose options reach the cut-off becomes
  `oneOf [{}, {}]`, which rejects everything, so a cyclic schema with a union advertises only shallow values
  (`UnionAtCutoffRejects`, `CutoffRejectsDeepTrees`). Wherever the deeper conversion keeps the options of each union
  disjoint it does only loosen (`CutoffLoosens`), which covers the whole soundness fragment and all schemas without unions.
- Null, which the validator accepts, is advertised of a nullable if and only if the wrapped schema is not, seen through
  its wrappers, a literal or picklist of one JSON type without null; and of a nullish if and only if the wrapped schema
  is itself advertised as taking null (`NullExactly`). So a nullable literal text and a nullish text reject null
  (`NullableLiteralRejectsNull`, `NullishTextRejectsNull`).
- The emitted schema may admit more than the validator: strict objects, dates and further checks leave no trace
  (`StrictObjectAdmitsMore`, `DateAdmitsTexts`, `DroppedExactly`), and a bound or an integer check may be written over by a
  later one (`LateIntegerLosesMaximum`). A pipe of bounds and integer checks loses nothing if and only if the least and the
  greatest number its schema leaves room for pass it (`PipeIsKeptExactly`). On schemas without such parts that end above the
  cut-off whatever is valid is accepted (`ConvertKeeps`), and on the soundness fragment too both agree (`ConvertExactly`).
- A rate-limit interval one window long can see nearly twice the limit. The bound is 2L - 1, and it is reached.
- A grant over several dimensions keeps a window within its limit if and only if the listings of its key, repetitions
  included, fit into the room there was (`GrantWithinLimitExactly`); repeating a key passes the check and then the limit.
- An error of such a call is not all-or-nothing: it leaves the table alone if and only if the call did not come to
  consume or every upsert failed (`ErrorLeavesTableExactly`). Two keys, the second of whose upserts fails, are such a
  call (`ErrorConsumesTheFirst`).
- A purge that is refused a statement leaves the gate open if and only if two of its statements had gone through
  (`StoppedPurgeLeavesGateOpen`), with aggregates in it that its ids cover (`StoppedPurgeIsCovered`). A caller that went
  on and committed would let a later transaction without any purge remove an event if and only if the failed purge's ids
  cover the event's aggregate (`SwallowedPurgeExposesExactly`): a purge of that aggregate does
  (`SwallowedPurgeLosesEvents`), a purge of nothing does not (`PurgeOfNothingExposesNothing`). Both callers roll back.
- The unique index compares usernames as stored, while sign-in lowers and trims them. Sign-in is unambiguous if and only
  if no two usernames of a realm differ in case or outer spaces only (`SignInExactly`, `StatementKeepsSignInExactly`).
  "Ada" and "ada" can both be inserted (`CaseMakesSignInAmbiguous`); names stored lowered and trimmed, as the repository
  does, keep it unambiguous for ever (`NormalNamesSignInUnambiguously`).
- The triggers on `users` look for a new username in `user_emails` only. Of all statements exactly an insert or update
  that takes another account's verified `users.email` as its username breaks the rule for that column
  (`StatementKeepsAccountsExactly`, `RunKeepsAccountsExactly`), which cannot happen while those addresses are mirrored.
- The administrator backfill is not one transaction. Interrupted inside a realm, it leaves that realm half done for good
  (`RerunExactly`): of two owners the second stays out (`InterruptionLeavesHalf`).
- A two-digit year is right exactly from 1970 to 2069, and the weekday in a date is never compared with the date.

## Model

| member | source | states |
|---|---|---|
| ListPage.ResumeAgreesExactly | src/platform/http/listRowsPage.ts:46-90 | the resuming predicate agrees with the sort order on two rows if and only if the collation and code units agree on the ids, where the keys tie, or nulls sort last or neither key is null, where they do not |
| ListPage.PageSizeResolve | src/platform/http/listPageSizeResolve.ts:4-6 | the page size is always between 1 and 100 |
| ListPage.PageSizeExactly | src/platform/http/listPageSizeResolve.ts:4-6 | the page size is the whole part of what was asked for, 20 if nothing was, kept between 1 and 100 |
| ListPage.RefusedExactly | src/platform/http/listRowsPage.ts:29-35 | a request is refused if and only if its token does not decode |
| ListOrder.BeforeIsStrict | src/platform/http/listRowsPage.ts:61-90 | the comparator is irreflexive and asymmetric, and total on distinct ids the collation tells apart, in both directions |
| ListOrder.BeforeTransitive | src/platform/http/listRowsPage.ts:61-90 | the comparator is transitive on keys of one kind, nulls mixed in, whatever the ids |
| ListOrder.AfterTransitive | src/platform/http/listRowsPage.ts:46-59 | the resuming predicate is transitive too, whatever the nulls and the collation |
| ListOrder.AgreesThroughoutExactly | src/platform/http/listRowsPage.ts:46-90 | the two agree on all rows of a list if and only if ids that tie collate as their code units and nulls sort last or are not mixed in |
| ListOrder.KeysWithoutTies | src/platform/http/listRowsPage.ts:61-90 | a list without ties needs nothing of its ids or of the collation |
| ListOrder.WholeNumbersQualify | src/platform/http/listRowsPage.ts:61-90 | what the walks assume of a list holds of every list with whole-number or null keys, ids of 1 to 128 units and collation by code units |
| ListOrder.NumbersInOrder | src/platform/http/listRowsPage.ts:61-88 | of two rows the one with the smaller number comes first when ascending and last when descending |
| ListOrder.TextsInOrder | src/platform/http/listRowsPage.ts:61-89 | the same of two texts along the collation, a number beside a text being compared as printed |
| ListOrder.NullsInOrder | src/platform/http/listRowsPage.ts:69-87 | a null comes last or first as asked, in both directions |
| ListOrder.TiesInOrder | src/platform/http/listRowsPage.ts:75-78 | equal keys leave it to the collation of the ids, in the direction asked for |
| ListOrder.SortedByNumbers | src/platform/http/listRowsPage.ts:19-28 | a list sorted by numbers goes up when ascending and down when descending |
| ListOrder.SortedByTexts | src/platform/http/listRowsPage.ts:19-28 | a list sorted by texts goes along the collation or against it |
| ListOrder.SortedFacts | src/platform/http/listRowsPage.ts:19-28 | sorting keeps exactly the rows, once each, in strict order |
| ListOrder.IncreasingIsUnique | src/platform/http/listRowsPage.ts:19-28 | the comparator leaves one order for a set of rows, so the sort's algorithm does not matter |
| ListWalk.PageFacts | src/platform/http/listPageFromRows.ts:9-19 | a page is the first rows left after the cursor, and its token decodes to the place of its last row |
| ListWalk.LaterIsResumed | src/platform/http/listRowsPage.ts:29-35 | on lists that change in any way, all that is shown after a page resumes after its last row |
| ListWalk.TraversalInOrder | src/platform/http/listRowsPage.ts:15-44 | however the list changes between fetches, where resuming agrees with the sort order the places shown strictly increase and the token names the last of them |
| ListWalk.TraversalMissesNothing | src/platform/http/listRowsPage.ts:15-44 | a row whose id and key are there at every fetch has been shown or still resumes |
| ListWalk.FinishedWalkIsComplete | src/platform/http/listRowsPage.ts:15-44 | over a finished walk of a changing list every row that stays is shown exactly once, where resuming agrees with the sort order |
| ListBoundaries.WalksAreCompleteExactly | src/platform/http/listRowsPage.ts:15-90 | over lists that change within given places every finished walk is complete if and only if resuming agrees with the sort order on all of them |
| ListWalk.LastPageShowsItsFetch | src/platform/http/listRowsPage.ts:15-44 | no page shows a row that was not in the list at its fetch, for any list, collation and token |
| ListWalk.NextFetchSucceeds | src/platform/http/listRowsPage.ts:29-35 | a token handed out is never refused, whatever the list has become |
| ListStill.WalkResumesExactly | src/platform/http/listRowsPage.ts:15-90 | a whole walk over a list that stands still shows the sorted list if and only if at every page boundary exactly the rows listed later resume, ids that collate as equal included |
| ListStill.WalkIsRightExactly | src/platform/http/listRowsPage.ts:15-90 | a whole walk over a list that stands still concatenates to the sorted list if and only if resuming agrees with sorting at every page boundary |
| ListStill.WalkLength | src/platform/http/listPageFromRows.ts:9-19 | such a walk takes max(1, ceil(n / size)) fetches |
| ListStill.WalkEnds | src/platform/http/listRowsPage.ts:15-44 | every walk over a list that stands still can be carried on to a finished one, right or wrong |
| ListBoundaries.SkippedIsLost | src/platform/http/listRowsPage.ts:32-34 | on lists that change in any way, what does not resume after a page is on no later page |
| ListBoundaries.UnresumedIsLost | src/platform/http/listRowsPage.ts:32-34 | a row listed after the first page that does not resume there is never shown, whatever the ids are |
| ListBoundaries.ResumedIsRepeated | src/platform/http/listRowsPage.ts:32-34 | a row of the first page that resumes after it makes the second page begin with it or one listed before it |
| ListBoundaries.BoundaryLoses | src/platform/http/listRowsPage.ts:53-58 | a row that sorts after the first boundary but does not resume there is never shown |
| ListBoundaries.BoundaryRepeats | src/platform/http/listRowsPage.ts:53-58 | a row that sorts before the first boundary but resumes there makes the second page begin with it or one before it |
| ListBoundaries.NullsDecide | src/platform/http/listRowsPage.ts:53-90 | where ids agree, a whole walk is right if and only if one page holds the list, nulls sort last, or the keys are alike in nullness |
| ListBoundaries.NullBoundaryLosesRows | src/platform/http/listRowsPage.ts:53-58 | with nulls first, a first page that ends on a null means no row with a sort value is ever shown |
| ListBoundaries.ValueBoundaryRepeatsRows | src/platform/http/listRowsPage.ts:53-58 | with nulls first, a first page from a null to a sort value is followed by a page that begins with the same row |
| ListBoundaries.TwoRowsExactly | src/platform/http/listRowsPage.ts:46-90 | of two rows, one a page, the second is shown if and only if the two places agree |
| ListBoundaries.EqualIdsExactly | src/platform/http/listRowsPage.ts:46-90 | of two rows whose keys tie and whose ids collate as equal the second is shown if and only if its code units come second, so one of the two listings loses a row |
| ListBoundaries.NullHidesNumber | src/platform/http/listRowsPage.ts:53-90 | with nulls first a whole walk over a null and a number, one a page, loses the number |
| ListBoundaries.MixedCaseRowIsLost | src/platform/http/listRowsPage.ts:54-77 | a collation that puts "a" before "B" loses the row "B" of two rows with equal keys |
| ListCursor.CursorRoundTrip | src/platform/http/listCursorDecode.ts:7-19 | for every id and key the cursor passes the alphabet check and decodes to its payload exactly when the id has 1 to 128 code units, and to an error otherwise |
| ListCursor.PayloadTextIsReadBack | src/platform/http/listCursorEncode.ts:1-3 | the JSON text of a payload is parsed back to its three members, whatever the id and key contain |
| ListCursor.PayloadTextExactly | src/platform/http/listCursorEncode.ts:1-3 | the characters of a payload on the wire |
| ListCursor.PayloadExactly | src/platform/http/listCursorPayloadSchema.ts:3-7 | the schema accepts exactly the objects with version 1, an id of 1 to 128 code units and a key, and nothing else in them |
| ListCursor.DecodeExactly | src/platform/http/listCursorDecode.ts:7-19 | a token is accepted if and only if it is one of the alphabet and its text is such an object |
| ListCursor.PayloadIsRecognized | src/platform/http/listCursorPayloadSchema.ts:3-7 | the strict schema accepts the parsed payload exactly when the id has 1 to 128 code units |
| ListCursor.IntegersReadBack | src/platform/http/listCursorEncode.ts:1-3 | decimal integers satisfy what the round trip assumes of the number printer |
| JsonText.QuotedIsReadBack | src/platform/http/listCursorEncode.ts:1-3 | every string, lone surrogates included, is read back from its JSON form |
| JsonText.EscapeExactly | src/platform/http/listCursorEncode.ts:1-3 | how each code unit is written (RFC 8259 section 7), lone surrogates by number |
| JsonText.QuotedIsWellFormed | src/platform/http/listCursorEncode.ts:1-3 | quoting leaves no lone surrogate, so the UTF-8 step loses nothing |
| Utf8.DecodeUndoesEncode | src/platform/http/listCursorDecode.ts:12 | UTF-8 (RFC 3629) decoding undoes encoding on every well-formed text |
| Utf8.ReplacementExactly | src/platform/http/listCursorDecode.ts:12 | half a pair is written, and a byte that cannot lead is read, as U+FFFD |
| Base64Url.DecodeUndoesEncode | src/platform/http/listCursorDecode.ts:10-12 | base64url (RFC 4648 section 5) decoding undoes encoding, and the encoding uses only its alphabet |
| Base64Url.AlphabetExactly | src/platform/http/listCursorDecode.ts:10-12 | the 64 characters of RFC 4648 section 5 in their order |
| RateLimit.Store.Consume | src/platform/rateLimit/rateLimitConsume.ts:18-64 | the upsert, the clean-up and the answer, for every failing statement, as functions of the old table |
| RateLimit.Store.ExpiredRowsCleanup | src/platform/rateLimit/rateLimitConsume.ts:66-83 | deletes the oldest batch of expired rows, or nothing when the statement fails |
| RateLimit.OldestBatchFacts | src/platform/rateLimit/rateLimitConsume.ts:66-79 | the batch has 32 rows or all the expired ones, and holds the first in the order of expiry, scope and key |
| RateLimitRows.RequestErrorExactly | src/platform/rateLimit/rateLimitConsume.ts:24-32 | exactly the requests out of range are refused, the window first |
| RateLimitRows.ConsumeErrorExactly | src/platform/rateLimit/rateLimitConsume.ts:24-63 | a call answers with an error if and only if it is out of range or its upsert fails |
| RateLimitRows.RowExactly | src/platform/rateLimit/rateLimitConsume.ts:33-57 | every column of the row a call writes |
| RateLimitRows.RunKeepsWindows | src/platform/rateLimit/rateLimitConsume.ts:33-57 | over any run with one window length each row's window is that long and was last counted within it |
| RateLimitRows.CleanupExactly | src/platform/rateLimit/rateLimitConsume.ts:66-83 | clean-up deletes as many rows as are over but at most 32, those that ended first, and leaves all others as they are |
| RateLimit.Store.ConsumeMany | src/platform/rateLimit/rateLimitConsumeMany.ts:21-63 | validation, check and consumption loops equal their specification on the old table |
| RateLimit.DimensionsCheck | src/platform/rateLimit/rateLimitConsumeMany.ts:39-46 | the check loop collects the expiries of exactly the dimensions without room, in order |
| RateLimitRows.DimensionsErrorExactly | src/platform/rateLimit/rateLimitConsumeMany.ts:26-36 | the first dimension out of range names the error, if there is one |
| RateLimitRows.DeniedExactly | src/platform/rateLimit/rateLimitConsumeMany.ts:39-46 | a call in range is denied if and only if some key has no room left |
| RateLimitRows.GrantNamesLatestEnd | src/platform/rateLimit/rateLimitConsumeMany.ts:48-59 | the `retryAt` of a grant is the latest end of the windows it has counted in |
| RateLimitRows.FirstErrorIsKept | src/platform/rateLimit/rateLimitConsumeMany.ts:51-55 | of several failed consumptions the first gives the error |
| RateLimitRuns.CleanupSparesLive | src/platform/rateLimit/rateLimitConsume.ts:66-79 | clean-up never touches a window that is still live, the one just written included |
| RateLimitRuns.StepOnWindows | src/platform/rateLimit/rateLimitConsume.ts:33-60 | a call's answer and effect depend on its key's live window alone: started, or one higher with the end unchanged |
| RateLimitRuns.CleanupIsInvisible | src/platform/rateLimit/rateLimitConsume.ts:45-83 | every run answers exactly as a limiter that never deletes |
| RateLimitRuns.CountIsExact | src/platform/rateLimit/rateLimitConsume.ts:33-60 | a count reported in any run is the number of calls counted in its window, and is granted exactly within the limit |
| RateLimitRuns.WindowGrantsExactly | src/platform/rateLimit/rateLimitConsume.ts:33-60 | the grants of a window are the smaller of the limit and its calls, less those it had granted before the run |
| RateLimitRuns.GrantsPerWindowLength | src/platform/rateLimit/rateLimitConsume.ts:33-60 | in every run and every interleaving of keys an interval one window long holds at most 2L - 1 grants |
| RateLimitRuns.BoundIsReached | src/platform/rateLimit/rateLimitConsume.ts:33-60 | for every limit and window length of at least 2 ms some run reaches 2L - 1 |
| RateLimitMany.CallCounts | src/platform/rateLimit/rateLimitConsumeMany.ts:39-62 | what any call leaves, an error included: nothing unless it came to consume, and then each key counted once for each listing whose upsert went through |
| RateLimitMany.AllOrNothing | src/platform/rateLimit/rateLimitConsumeMany.ts:39-59 | a denial leaves the table alone; a grant counts each key once per listing, despite the clean-ups in between, and leaves other live windows alone |
| RateLimitMany.ErrorMeansFault | src/platform/rateLimit/rateLimitConsumeMany.ts:48-55 | a call that comes to consume answers with an error if and only if some upsert fails |
| RateLimitMany.ErrorLeavesTableExactly | src/platform/rateLimit/rateLimitConsumeMany.ts:48-62 | an error leaves the table alone if and only if the call did not come to consume or every upsert failed |
| RateLimitMany.ErrorConsumesTheFirst | src/platform/rateLimit/rateLimitConsumeMany.ts:48-55 | two keys, the second of whose upserts fails: an error, and a changed table |
| RateLimitMany.GrantWithinLimitExactly | src/platform/rateLimit/rateLimitConsumeMany.ts:39-59 | a grant keeps a window within its limit if and only if its count before and all listings of its key fit |
| RateLimitMany.DistinctGrantStaysWithinLimit | src/platform/rateLimit/rateLimitConsumeMany.ts:39-59 | with distinct keys a grant never takes a window past its limit |
| RateLimitMany.RepeatedKeyPassesItsLimit | src/platform/rateLimit/rateLimitConsumeMany.ts:39-59 | listing a key of limit 1 twice, for any scope, key and window, takes it to 2 |
| RateLimitMany.RetryExactly | src/platform/rateLimit/rateLimitConsumeMany.ts:41-46 | with no other traffic a denied call is denied before `retryAt` and allowed from `retryAt` on |
| EventDatabase.Database.EventAppend | src/platform/storage/storageEventAppend.ts:27-82 | appends exactly the validated event at the next position, or changes nothing and says why |
| EventLog.PreparedExactly | src/platform/storage/storageEventAppend.ts:33-73 | which events are accepted, and what each of the fourteen columns holds, fallbacks included |
| EventLog.FirstFailedCheckDecides | src/platform/storage/storageEventAppend.ts:33-46 | the first check on the fields that fails names the error |
| EventLog.IdentifierBeforeJson | src/platform/storage/storageEventAppend.ts:49-57 | then two identifiers that differ, then their form, then the JSON |
| EventLog.AppendExactly | src/platform/storage/storageEventAppend.ts:48-82 | an append is refused if and only if the event is not acceptable or its id is taken, and otherwise adds one row at the end |
| EventLog.RawDeleteExactly | src/platform/storage/storageSchemaCreate.ts:785-791 | a raw delete is refused if and only if it meets an event the gate does not name, and otherwise takes what it addresses |
| EventLog.NameUserExactly | src/platform/storage/storageSchemaCreate.ts:775-791 | a subject row is added if and only if its event is there and has none |
| EventLog.RawUpdateAndDeleteUserExactly | src/platform/storage/storageSchemaCreate.ts:775-791 | no event that is there can be updated, and deleting a user takes exactly that user's subject rows |
| EventDatabase.Database.Execute | src/platform/storage/storageTransactionRun.ts:21-26 | a command succeeds if and only if no check refuses it and the database carries out all its statements |
| EventDatabase.Database.EventsPurge | src/platform/storage/storageEventsPurge.ts:19-84 | the loops carry out the purge's statements up to the first one refused, and say error exactly if one was; a success leaves the purged state with an empty gate and `deleted` is the drop in the log's size; an error has removed only whole gated aggregates, gated only ones that the ids cover, and left the gate open exactly if two statements had gone through |
| EventPurge.PurgeWritten | src/platform/storage/storageEventsPurge.ts:30-80 | the statements of a purge, each user's depending on what the earlier ones left, together do what the purge means on sets |
| EventPurge.StoppedPurgeIsCovered | src/platform/storage/storageEventsPurge.ts:29-83 | wherever a purge stops, only whole aggregates that it named are gone and it has named only aggregates that its ids cover |
| EventPurge.StoppedPurgeLeavesGateOpen | src/platform/storage/storageEventsPurge.ts:30-83 | it leaves the gate open if and only if two statements went through |
| EventPurge.CoveredEventIsExposed | src/platform/storage/storageEventsPurge.ts:30-80 | every event that a purge covers is, before some statement, still there with its aggregate in the gate |
| EventDatabase.Database.EventsDelete | src/platform/storage/storageSchemaCreate.ts:786-791 | the trigger aborts the delete unless the gate names the aggregate; otherwise the aggregate's events go and subject rows cascade |
| EventDatabase.Database.TransactionRun | src/platform/storage/storageTransactionRun.ts:15-31 | it commits whenever no command is refused, and whenever every failure is tolerated; a failed operation restores the old tables; a success is a composition of the steps it took, of which a swallowed failed purge is some first part of its statements |
| EventLog.PurgeUserStep | src/platform/storage/storageEventsPurge.ts:42-78 | the loop body for one user extends the purge by that user, though it queries a log already shortened |
| EventLog.ClosedGateDeletesNothing | src/platform/storage/storageSchemaCreate.ts:785-788 | with an empty gate a raw delete that is not refused removes nothing |
| EventLog.StepKeepsCommitted | src/platform/storage/storageSchemaCreate.ts:775-791 | every statement keeps the gate empty, positions increasing and below the next one, ids distinct and subject rows attached |
| EventLogRuns.PurgeExactly | src/platform/storage/storageEventsPurge.ts:10-18 | what a purge leaves: the events of the other aggregates, no dangling subject row, none naming a purged user, all others unchanged |
| EventLogRuns.PurgesCompose | src/platform/storage/storageEventsPurge.ts:25-80 | two purges in a row equal one purge of both, so the order and batching of ids do not matter |
| EventLogRuns.TransactionExtends | src/platform/storage/storageTransactionRun.ts:21-26 | a committed transaction, whatever failures it swallows, keeps the rules of the tables and old positions |
| EventLogRuns.TransactionKeepsGateShut | src/platform/storage/storageTransactionRun.ts:21-26 | from an empty gate one that does not swallow a failed purge leaves it empty, and one without a purge only appends |
| EventLogRuns.RunExtends | src/platform/storage/storageTransactionRun.ts:21-30 | over any run of transactions, failed ones and swallowed failures included, every commit point keeps the rules and no event appears at an old position; the gate stays empty where no failed purge is swallowed |
| EventLogRuns.PositionsAreForEver | src/platform/storage/storageSchemaCreate.ts:775-788 | over any run a position names one event, never changed and never reused |
| EventLogRuns.LostEventWasCovered | src/platform/storage/storageEventsPurge.ts:10-18 | over any run an event that is gone was covered by a purge in a committed transaction in between, or by one swallowed earlier |
| EventLogRuns.OnlyPurgesRemove | src/platform/storage/storageEventsPurge.ts:10-18 | where none is swallowed, an event that is gone was covered by the ids of a purge carried out inside a committed transaction in between |
| EventLogRuns.SwallowedPurgeExposesExactly | src/platform/storage/storageEventsPurge.ts:29-83 | after a swallowed purge a later transaction without a purge can remove an event if and only if the purge's ids cover its aggregate |
| EventLogRuns.SwallowedPurgeLosesEvents | src/platform/storage/storageEventsPurge.ts:81-83 | so a swallowed purge of its own aggregate exposes any event |
| EventLogRuns.PurgeOfNothingExposesNothing | src/platform/storage/storageEventsPurge.ts:25-27 | and a purge without ids exposes none |
| Identifiers.ExecuteKeepsConsistent | src/platform/storage/storageSchemaCreate.ts:266-287 | each checked insert, update or delete keeps usernames apart from other users' verified addresses, and both unique |
| Identifiers.InsertUserExactly | src/platform/storage/storageSchemaCreate.ts:276-278 | a user is inserted if and only if the id is new, name and address are not in the realm, and neither crosses another user's |
| Identifiers.UpdateUserExactly | src/platform/storage/storageSchemaCreate.ts:279-281 | the same of an update, which is checked for crossing only if it names or changes a watched column |
| Identifiers.InsertEmailExactly | src/platform/storage/storageSchemaCreate.ts:262-284 | when an address is inserted |
| Identifiers.UpdateEmailExactly | src/platform/storage/storageSchemaCreate.ts:262-287 | when one is updated |
| Identifiers.DeletesExactly | src/platform/storage/storageSchemaCreate.ts:262-264 | deleting a user takes exactly that user's addresses along |
| Identifiers.TrimExactly | src/platform/storage/storageSchemaCreate.ts:266-287 | trimming takes the spaces at both ends and nothing else |
| Identifiers.LowerAt | src/platform/storage/storageSchemaCreate.ts:266-287 | lowering changes the letters A to Z, each on its own, and nothing else |
| Identifiers.ReachableIsConsistent | src/platform/storage/storageSchemaCreate.ts:266-287 | the rules hold in every state any sequence of statements reaches |
| Identifiers.IdentifiersAreUnambiguous | src/platform/storage/storageSchemaCreate.ts:266-287 | from an empty directory no identifier ever matches two users of a realm by exact username or by verified address |
| Identifiers.SignInExactly | src/features/passwords/persistence/passwordRepositoryCreate.ts:574-608 | matching lowered and trimmed usernames, as sign-in does, no identifier matches two users of a realm if and only if no two usernames differ in case or outer spaces only |
| Identifiers.StatementKeepsSignInExactly | src/platform/storage/storageSchemaCreate.ts:276-287 | a statement keeps that if and only if it is refused or writes no such username |
| Identifiers.NormalNamesSignInUnambiguously | src/features/users/persistence/userRepositoryCreate.ts:88-90 | it holds in every state reached by statements that store usernames lowered and trimmed |
| Identifiers.CaseMakesSignInAmbiguous | src/features/passwords/persistence/passwordRepositoryCreate.ts:594-600 | two accepted inserts, "Ada" and "ada", that both match "ada" |
| Identifiers.StatementKeepsAccountsExactly | src/platform/storage/storageSchemaCreate.ts:276-287 | a statement keeps names apart from other accounts' verified `users.email` if and only if it is refused or writes no such name |
| Identifiers.RunKeepsAccountsExactly | src/platform/storage/storageSchemaCreate.ts:276-287 | over any run that rule holds throughout if and only if no statement carried out writes such a name |
| Identifiers.InsertBreaksAccounts | src/platform/storage/storageSchemaCreate.ts:276-278 | two accepted inserts that break that rule |
| Identifiers.UpdateBreaksAccounts | src/platform/storage/storageSchemaCreate.ts:279-281 | an accepted update that breaks it |
| Identifiers.MirroredAccountsAreSafe | src/platform/storage/storageSchemaCreate.ts:273-287 | while every verified account address also stands in `user_emails` the rule cannot be broken |
| AdministratorsBackfill.Store.Backfill | src/platform/storage/storageSchemaCreate.ts:845-907 | the nested loops equal the set-level backfill, and do nothing once the marker is there |
| AdministratorsBackfill.OldestActiveIsLeast | src/platform/storage/storageSchemaCreate.ts:862-869 | the organization chosen is the (created_at, id)-least active one of the realm |
| AdministratorsBackfill.BackfillExactly | src/platform/storage/storageSchemaCreate.ts:852-901 | exactly the non-deleted owners of each unadministered realm's oldest active organization gain administration |
| AdministratorsBackfill.GainsExactly | src/platform/storage/storageSchemaCreate.ts:852-894 | who gains, down to times, the characters of ids and the quoted name of the role |
| AdministratorsBackfill.OpenedOnce | src/platform/storage/storageSchemaCreate.ts:846-851 | any number of openings between any changes equals one, even after a realm loses its administrators |
| AdministratorsBackfill.RerunExactly | src/platform/storage/storageSchemaCreate.ts:893-906 | after an interruption the next opening completes the backfill if and only if no realm was left half done |
| AdministratorsBackfill.InterruptionLeavesHalf | src/platform/storage/storageSchemaCreate.ts:893-906 | of one realm's two owners, interrupted after the first insert, the second never gains administration |
| Calendar.CivilDayCivil | src/platform/http/httpDateParse.ts:34-43 | day number and civil date are inverse, from every date of every year |
| Calendar.DayCivilDay | src/platform/http/httpDateFormat.ts:9-14 | and from every day number |
| Calendar.DaysAreCountedFromTheEpoch | src/platform/http/httpDateParse.ts:34-43 | day 0 is 1 January 1970 and each next date has the next number |
| Calendar.MonthLengths | src/platform/http/httpDateParse.ts:34-43 | the lengths of the months of every year |
| HttpDate.HttpDateCreate | src/platform/http/httpDateParse.ts:23-46 | the mutable date, corrected in place and checked, holds exactly the specified time or is refused |
| HttpDate.DateCreateExact | src/platform/http/httpDateParse.ts:31-45 | the component check accepts exactly the fields that name an existing instant other than on 29 February 0000, and then yields that instant |
| HttpDate.FormatThenParse | src/platform/http/httpDateFormat.ts:8-16 | on every time, parsing the printed date gives the time floored to the second exactly in years 0 to 9999 except 29 February 0000, and nothing otherwise |
| HttpDate.PrintedExactly | src/platform/http/httpDateFormat.ts:8-16 | the printed text of every time in years 0 to 9999, character for character, weekday included |
| HttpDate.PrintedWeekday | src/platform/http/httpDateFormat.ts:8-11 | whatever the year, the printed weekday is the one counted on from Thursday, 1 January 1970 |
| HttpDate.EpochIsTimeZero | src/platform/http/httpDateParse.ts:34 | the epoch is time 0 and the clock counts milliseconds from midnight |
| HttpDate.GrammarsExactly | src/platform/http/httpDateParse.ts:16-21 | a text is read if and only if it is made up of the pieces of one of the three grammars |
| HttpDate.Rfc850Agrees | src/platform/http/httpDateParse.ts:65-72 | the rfc850 form of a time parses to it if and only if its year is 1970 to 2069 |
| HttpDate.AsctimeAgrees | src/platform/http/httpDateParse.ts:74-85 | in years 0 to 9999 the asctime form of a time parses exactly as its preferred form does |
| HttpDate.ParseThenFormat | src/platform/http/httpDateParse.ts:48-86 | whatever parses, in any grammar, reprints to a fixed point |
| HttpDate.NotModifiedExactly | src/platform/http/httpConditionalGetEvaluate.ts:13-19 | 304 is answered if and only if the time is printable, the header parses and is not before the floored modification time |
| HttpDate.EchoedValidator | src/platform/http/httpConditionalGetEvaluate.ts:13-19 | for all times, an echoed Last-Modified gives 304 exactly while the resource has not moved to a later second and both times are printable |
| HttpDate.ConditionalGetHeader | src/platform/http/httpConditionalGetEvaluate.ts:13-19 | the answer carries the printed modification time whatever its status, 200 or 304 |
| Uuid.Uuidv7Create | src/platform/ids/uuidv7Create.ts:5-24 | the loop and the two masks leave exactly the UUIDv7 bytes in the array; wrong times and lengths are refused |
| Uuid.LaterSortsLater | src/platform/ids/uuidv7Create.ts:14-23 | for all randomness, an earlier millisecond gives a lexicographically smaller identifier |
| Uuid.IdentifierIsReadable | src/platform/ids/uuidv7Create.ts:14-23 | every identifier passes the event log's check and gives back its millisecond and its random bits |
| Uuid.CollidesExactly | src/platform/ids/uuidv7Create.ts:14-23 | two identifiers are equal if and only if millisecond and the 74 kept random bits are |
| Uuid.CanonicalIdsAreIdentifiers | src/platform/storage/storageEventAppend.ts:84-86 | the event log's check accepts nothing the generator could not have made |
| SchemaCompiler.NumberConvert | src/features/mcp/mcpValibotJsonSchema.ts:54-69 | the loop over the pipe equals the emitted number schema |
| SchemaCompiler.ObjectConvert | src/features/mcp/mcpValibotJsonSchema.ts:113-126 | the loop over the entries equals the emitted object schema |
| SchemaCompiler.InnerConvert | src/features/mcp/mcpValibotJsonSchema.ts:47-168 | the recursive compiler with its loops equals the conversion function; cycles end by the measure 11 - depth |
| SchemaCompiler.NumberExact | src/features/mcp/mcpValibotJsonSchema.ts:54-69 | a number the pipe accepts is valid for the emitted schema exactly when it is within the safe-integer cap, where that cap is the last bound written |
| SchemaConverse.NumberValidExactly | src/features/mcp/mcpValibotJsonSchema.ts:54-69 | a number is valid if and only if it is integral where asked and meets the last minimum and the last maximum written |
| SchemaConverse.PipeIsKeptExactly | src/features/mcp/mcpValibotJsonSchema.ts:54-69 | a pipe of bounds and integer checks accepts all that is valid if and only if the ends of its schema pass it |
| SchemaConverse.LateIntegerLosesMaximum | src/features/mcp/mcpValibotJsonSchema.ts:58-65 | an integer check after a maximum of 5 lets 6 through |
| SchemaCompiler.WithNullAdmitsNull | src/features/mcp/mcpValibotJsonSchema.ts:94-100 | the nullable wrapper admits null exactly when no const or enum beside a type excludes it |
| SchemaCutoff.NullExactly | src/features/mcp/mcpValibotJsonSchema.ts:90-100 | null is advertised of a nullable if and only if the wrapped schema is not, through its wrappers above the cut-off, closed over other values of one type; and of a nullish if and only if the wrapped schema is itself advertised as taking null |
| SchemaCutoff.AdvertisesNullExactly | src/features/mcp/mcpValibotJsonSchema.ts:47-168 | which schemas are advertised as taking null, told from the schema alone: a union by exactly one option, an intersection by all |
| SchemaCutoff.HidesNullExactly | src/features/mcp/mcpValibotJsonSchema.ts:73-100 | which conversions carry a closed value list without null beside a type, told from the schema alone |
| SchemaCutoff.NullableLiteralRejectsNull | src/features/mcp/mcpValibotJsonSchema.ts:73-100 | a nullable over a literal text accepts null and does not advertise it |
| SchemaCutoff.NullishTextRejectsNull | src/features/mcp/mcpValibotJsonSchema.ts:90-93 | nor does a nullish over a text |
| SchemaCompiler.ConvertSound | src/features/mcp/mcpValibotJsonSchema.ts:47-168 | on the fragment, at every depth, each value the validator accepts is valid for the emitted schema, cyclic schemas included |
| SchemaCompiler.AdvertisedSchemaSound | src/features/mcp/mcpValibotJsonSchema.ts:170-184 | the same of the schema that is advertised |
| SchemaConverse.ConvertKeeps | src/features/mcp/mcpValibotJsonSchema.ts:47-168 | on a stated fragment each value valid for the emitted schema is accepted by the validator |
| SchemaConverse.ConvertExactly | src/features/mcp/mcpValibotJsonSchema.ts:47-168 | on both fragments a value is valid if and only if it is accepted |
| SchemaConverse.StrictObjectAdmitsMore | src/features/mcp/mcpValibotJsonSchema.ts:113-126 | a strict object without entries is advertised as any object |
| SchemaConverse.DateAdmitsTexts | src/features/mcp/mcpValibotJsonSchema.ts:73-75 | a date is advertised as any text |
| SchemaConverse.OptionalExactly | src/features/mcp/mcpValibotJsonSchema.ts:27-30 | which entries may be absent |
| SchemaConverse.DraftExactly | src/features/mcp/mcpValibotJsonSchema.ts:170-184 | the draft is declared of every schema but an object without entries, and nothing else is added |
| SchemaCompiler.TaggedVariantsAreFaithful | src/features/mcp/mcpValibotJsonSchema.ts:104-108 | a union of source objects told apart by a required literal entry, as variants are, lies in the fragment as long as those literals lie above the cut-off |
| SchemaCutoff.UnionAtCutoffRejects | src/features/mcp/mcpValibotJsonSchema.ts:48-108 | at the last depth a union of two or more options rejects every value |
| SchemaCutoff.CutoffRejectsDeepTrees | src/features/mcp/mcpValibotJsonSchema.ts:156-163 | a cyclic union accepted at every nesting is advertised with nestings up to two only |
| SchemaCutoff.CutoffLoosens | src/features/mcp/mcpValibotJsonSchema.ts:47-168 | where the deeper conversion's unions have disjoint options, what passes a conversion passes the one begun a level deeper |
| SchemaCutoff.FaithfulIsDisjoint | src/features/mcp/mcpValibotJsonSchema.ts:47-168 | that condition holds of every schema in the soundness fragment |
| SchemaCutoff.UnionFreeLoosens | src/features/mcp/mcpValibotJsonSchema.ts:47-168 | and of every schema without unions, at every depth |
| Totp.Base32Decode | e2e/authworksE2eFixtureCreate.ts:556-569 | the loop with its unmasked 32-bit accumulator outputs the octets of the unbounded regrouping of five-bit digits |
| Totp.WindowOfBuffer | e2e/authworksE2eFixtureCreate.ts:560-566 | the octet read from the low 32 bits is the octet of the unbounded number |
| Totp.DecodeUndoesEncode | e2e/authworksE2eFixtureCreate.ts:556-569 | decoding an RFC 4648 base32 text gives back the encoded octets |
| Totp.AlphabetExactly | e2e/authworksE2eFixtureCreate.ts:561 | the letters, then the digits from 2 to 7; no other character has a number |
| Totp.CounterMessage | e2e/authworksE2eFixtureCreate.ts:543-548 | the loop writes the counter as eight big-endian octets |
| ProxyChain.TrustedProxyIpResolve | src/platform/http/trustedProxyIpResolve.ts:7-27 | the walk returns what the chain resolves to |
| ProxyChain.RightmostExactly | src/platform/http/trustedProxyIpResolve.ts:22-25 | the answer is an address that is not trusted with only trusted ones to its right, and there is none if and only if all are trusted |
| ProxyChain.ResolveExactly | src/platform/http/trustedProxyIpResolve.ts:7-27 | unknown without a peer, an untrusted peer itself, or else the last address before only trusted ones, or the first of the chain |
| ProxyChain.StrippedExactly | src/platform/http/trustedProxyIpResolve.ts:33-40 | what brackets hold, what stands before a port, or all of an address |
| ProxyChain.AddressesExactly | src/platform/http/trustedProxyIpResolve.ts:15-19 | the addresses of the chain are those of each part in turn, parts without one left out |
| ProxyChain.SplitExactly | src/platform/http/trustedProxyIpResolve.ts:15-17 | the header's parts have no commas and joined with commas give it back |
| ProxyChain.TrustedExactly | src/platform/http/trustedProxyIpResolve.ts:10-12 | an address is trusted if and only if some configured entry comes down to it |
| ProxyChain.PrependedTextIsIgnored | src/platform/http/trustedProxyIpResolve.ts:15-26 | text put before the forwarded header changes the answer only when everything after it is trusted; the exact answer is given in both cases |

## Left out

- HttpDate.FormatThenParse: an invalid `Date` is not modelled, nor are times beyond the engine's limit of 8.64e15 ms.
- ListOrder.BeforeTransitive: mixed number and string keys are outside `Comparable`, because comparing them as strings is not transitive.
- ListOrder.BeforeIsStrict: it is total only on ids of equal keys that the collation tells apart; `WalkResumesExactly` and `EqualIdsExactly` cover the others on lists that stand still.
- ListBoundaries.WalksAreCompleteExactly: changing lists in which the collation calls distinct ids of equal keys equal.
- ListCursor.CursorRoundTrip: non-finite numbers and -0 as keys, and the engine's number printer itself, which is a parameter; integers are proved to satisfy the assumption.
- ListPage.PageSizeResolve: a page size that is NaN.
- The choice of a list's direction between the caller's, the query's and `asc`, which arrives resolved in a `View`.
- RateLimit.Store.Consume: rounding of `now + windowMs` above 2^53.
- EventPurge.PurgeWritten: the foreign aggregates of a user are gone through in the order of the log, an order that `SELECT DISTINCT` does not promise.
- EventLogRuns.RunExtends: an empty gate at commit points of runs with a transaction that swallows a failed purge, which neither caller does (`src/features/users/actions/userPurge.ts:60`, `src/features/organizations/actions/organizationPurge.ts:86`).
- Identifiers.SignInExactly: the identifier is compared lowered and trimmed, as the callers hand it over; the second look-up of registration by exact `users.email` and the choice of the oldest of several matches are not part of the model.
- Identifiers.ReachableIsConsistent: the legacy insert at `src/platform/storage/storageSchemaCreate.ts:273-275` that runs before the triggers exist, updates that change a row's id, and realms deleted as a whole.
- SchemaCompiler.ConvertSound: schemas outside the predicate `Faithful` (nullish over a schema that takes no null, nullable over closed values, overlapping unions); `CutoffRejectsDeepTrees` and `NullExactly` show what happens there.
- SchemaConverse.ConvertKeeps: schemas outside the predicate `Kept`; what they drop is stated by the lemmas beside it.
- SchemaCompiler.InnerConvert: tuples, records without a value schema, `exact_optional`, transformations, key schemas of records, the `format` keyword of dates, and the validator's skipping of reserved keys; a getter that throws is an absent one.
- Totp.Base32Decode: octets for text with characters outside the alphabet are computed but nothing is stated of them.
- Totp.CounterMessage: the keyed hash and the truncation to six digits.
- ProxyChain.TrustedProxyIpResolve: `trim` and `toLowerCase` are one parameter, any function on strings.
- RFC 850's fifty-year rule and leap second 60, which the code does not implement.
- SQLite itself, `ALTER TABLE` retries, the other backfills and repairs of the schema file, and the database reset.
- HTTP servers and clients, tool registration, the command line, the user interface, configuration and logging.
