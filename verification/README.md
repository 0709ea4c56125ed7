# Verified models of the ResearchCrafters cores

The learning platform is mostly input and output around a few small algorithms that carry real
invariants: a tar reader, canonical JSON and a digest, a context cache, a redactor, a rate limiter, a
spend ledger, a grading protocol over two stores, a tensor comparison, a prerequisite planner, line
wrapping, stream capture, branch statistics and the deletion of an account. This project models each of
them in Dafny and proves what the platform relies on.

Each module models one component. Where the program updates variables in place, the model is a class or
a method with loops; its contract ties the result to a specification function, and the lemmas prove what
the component promises about that function: over every input, every run of operations, or every split
of a stream. `dafny verify dfyconfig.toml` covers the whole project.

| module | component |
|---|---|
| `Bytes`, `TarReader`, `TarWriter`, `TarRoundTrip` | the starter-bundle tar reader, and a writer after IEEE Std 1003.1-2017, pax utility |
| `StarterExtract` | safe entry paths and the capped extraction |
| `Sorting`, `CanonicalJson`, `JsonRoundTrip` | canonical JSON text and a reader after RFC 8259 |
| `FnvDigest` | the FNV-1a digest written with shifts, in 32-bit arithmetic |
| `ContextCache`, `ContextBuilder` | the mentor context cache, its keys and the cached builder |
| `Redaction` | the redactor for literal targets |
| `RateLimiter`, `SpendStore`, `Budget` | sliding windows kept incrementally, against full histories |
| `Keys`, `Grades`, `Grading`, `PrismaGradeStore` | idempotency keys, grading with checkpoints, both grade stores |
| `NumericCheck` | the tensor check |
| `Prerequisites` | the curriculum planner |
| `LineWrap`, `XmlEscape` | share-card text |
| `StreamCapture` | capped capture and line splitting |
| `BranchStats` | traversal counts, percentages and the rollup |
| `AccountSchema`, `AccountCascade` | the tables with what their foreign keys do, and deletion and export of an account |
| `Wrappers`, `Reals` | results that may fail, and order under multiplication |

Numbers are mathematical integers and reals, except in the digest, where wrap-around at 32 bits is
spelled out. `async` calls are sequential steps; the clock, ids and timestamps are parameters.

## What was found out about the code

Each of these is a lemma with a concrete case or an exact condition.

- Cleaning an entry path is idempotent except when the result begins with a drive letter; a second
  leading `./` hides such a path from the drive-letter test (`SafePathIdempotence`,
  `DriveLetterSurvivesOneCleaning`).
- The second check of the extraction loop refuses nothing below an ordinary destination, and everything
  when the destination is the root directory (`SecondCheckOnlyMindsTheRoot`).
- A redaction leaves evidence behind exactly when it fired and some target is part of the word
  `redacted`; of all targets, those with a bracket included, exactly the ones that cannot overlap a mark
  are always gone (`RedactionIsComplete`, `BracketsCanComeBack`, `GoneExactlyWhenClear`).
- A bar inside a ref lets two inputs share a cached context, as do no refs and one empty ref; hits are
  fresh exactly when inputs with one key ask the same question (`BarsCollide`, `HitsAreFreshExactly`).
- The comment on the context builder wants a pass before a solution is shown; the code shows it after an
  attempt if the policy says so (`SolutionAfterAnAttempt`, `ContextShowsWhatIsAllowed`).
- The cache keeps one entry even when no entries are allowed (`ZeroRoomKeepsOne`).
- Two (user, package) pairs can share a rate-limit window, stages of two packages a total, and two grades
  a key, when an id contains the separator or a colon stands next to one; each holds exactly when keys
  coincide, and the limits hold all the same (`PairWindowsCanCollide`, `PairsCountByThemselves`,
  `StagesCanShareATotal`, `PackageTotalIsSumOfStageTotals`, `KeysCanCollide`, `KeyBelongsToOneTuple`,
  `NoWindowOverflows`).
- A checkpoint outlives the artifacts it was made from: a retry under the same key is graded with the
  first call's dimensions, so one that fails its tests can pass; exactly when it is still graded on its own
  is known (`CheckpointDecidesTheRetry`, `FailingRetryPasses`, `RetryAnswersForItself`).
- The database store reads a partial grade back as failed, refuses the second insert that the in-memory
  store accepts, and does not find by its key a grade without a submission, or with any other tuple that
  does not parse back (`PartialReadsBackAsFailed`, `DuplicateInsertsDiffer`, `EmptySubmissionIsNotFound`,
  `StoresAgree`).
- A deletion takes another user's share card that hangs on an enrollment of the user's, and nothing in the
  schema forbids such a card; without such rows it changes nobody else's export (`ForeignCardGoes`,
  `OtherExportsKept`, `ActionsNeedTangledRows`).
- Wrapping does not mark the cut when the last line happens to end with the first dropped word
  (`DroppedWordCanGoUnmarked`, `OverflowKeepsPrefix`).
- The comment on required stages promises DAG order; they are sorted by id, which is DAG order exactly when
  ids are named that way (`RequiredStagesOutOfDagOrder`, `DagOrderIsNameOrder`).
- A rollup neither updates nor removes the row of a pair that is no longer counted (`RollupRow`).
- The reader takes the first `path` record of a PAX header, where the standard lets the last one win
  (`OverriddenPathIsTaken`, `FirstPathAgreesWithLast`).

## Model

| member | source | states |
|---|---|---|
| TarReader.ParseTar | packages/cli/src/lib/starter.ts:28-91 | the reading loop, with its pending names and both thrown errors, computes what the recursive specification says of the unread bytes, and stops |
| TarReader.EntriesFitTheBuffer | packages/cli/src/lib/starter.ts:43-87 | on any bytes at all, the entries need no more than the buffer holds, a header block each included, and only files carry data |
| TarReader.ParsePaxPath | packages/cli/src/lib/starter.ts:114-131 | the scan over self-describing records finds the first `path` value |
| TarReader.SizeFieldMeaning | packages/cli/src/lib/starter.ts:99-107 | a size field of blanks, a sign, octal digits and anything after them says what the digits say, and is refused where that is negative |
| TarReader.NoNumberIsInvalid | packages/cli/src/lib/starter.ts:99-107 | a size field that begins with neither digits nor blanks alone is refused |
| TarReader.BlankSizeIsZero | packages/cli/src/lib/starter.ts:99-101 | a size field of blanks and NULs says zero |
| Bytes.SliceMeaning | packages/cli/src/lib/starter.ts:124 | a slice is cut off at the end of the text, so an overlong record is read as far as it goes |
| TarWriter.SizeFieldReadsBack | packages/cli/src/lib/starter.ts:99-107 | a zero-padded octal size, ended by NUL or blank, reads back as the size |
| TarWriter.BlockReadsBack | packages/cli/src/lib/starter.ts:36-54 | a header with its data and padding is cut off the front of the buffer exactly, whatever follows |
| TarWriter.RecordLengthIsTrue | packages/cli/src/lib/starter.ts:115-128 | the decimal length a PAX record states, which counts its own digits, is the length the record has |
| TarWriter.PaxReadsBack | packages/cli/src/lib/starter.ts:114-131 | rendered records with any values scan back to the value of the first `path` record |
| TarWriter.FirstPathAgreesWithLast | packages/cli/src/lib/starter.ts:62-131 | the name taken from a header is the standard's, in which the last `path` record counts and an empty one deletes, if and only if the first and the last `path` record carry one value |
| TarWriter.OverriddenPathIsTaken | packages/cli/src/lib/starter.ts:62-131 | two `path` records of which the reader takes the one that is overridden, or deleted |
| TarRoundTrip.ExtensionReadsBack | packages/cli/src/lib/starter.ts:56-68 | a GNU long-name, PAX or global record leaves pending exactly what it announces |
| TarRoundTrip.AnnouncedNames | packages/cli/src/lib/starter.ts:56-82 | after any mix of such records the last of each kind is what is pending |
| TarRoundTrip.ArchiveRoundTrip | packages/cli/src/lib/starter.ts:28-91 | every archive of files, directories and special entries, each renamed by any mix of records, written with the standard's own offsets and bytes, reads back with its names, kinds, sizes and data and with nothing else; a PAX path goes before a GNU name, and either before the header |
| TarRoundTrip.EveryNamingReadsBack | packages/cli/src/lib/starter.ts:70-82 | plain, prefix-split, GNU and PAX naming each give a well-formed entry with that name |
| TarRoundTrip.CutArchiveIsRefused | packages/cli/src/lib/starter.ts:50-52 | an archive that stops inside the data of an entry is refused as truncated, whatever came before |
| StarterExtract.SafePathStaysInside | packages/cli/src/lib/starter.ts:138-150 | an accepted name resolves to where the archive meant, strictly below the destination |
| StarterExtract.SafePathMeaning | packages/cli/src/lib/starter.ts:138-149 | which names are accepted and as what, said of the bytes: one leading `./` off, backslashes as slashes; refused are empty names, NULs, a leading slash or drive letter, a `..` segment, and names without a segment; the rest are the naming segments with slashes between |
| StarterExtract.ResolveRules | packages/cli/src/lib/starter.ts:181 | resolving goes up at a parent segment and starts over at an absolute path |
| StarterExtract.SecondCheckOnlyMindsTheRoot | packages/cli/src/lib/starter.ts:181-183 | on accepted names the containment check passes if and only if the destination is not the root |
| StarterExtract.SafePathIdempotence | packages/cli/src/lib/starter.ts:138-150 | cleaning an accepted path again gives the same path, unless it begins with a drive letter, and then refuses it |
| StarterExtract.DriveLetterSurvivesOneCleaning | packages/cli/src/lib/starter.ts:142-145 | behind two leading `./` any plain path is accepted, drive letter or not |
| StarterExtract.Extract | packages/cli/src/lib/starter.ts:167-210 | writes stay below the destination; the files written are the wanted files or their longest prefix within the three limits, with the error of the first limit broken; success if and only if all fit |
| CanonicalJson.CharsReadBack | packages/ai/src/context-cache.ts:149-152 | every string, lone surrogates included, reads back from its escaped form (RFC 8259, section 7) |
| CanonicalJson.PrintedTokens | packages/ai/src/context-cache.ts:149-165 | words and punctuation of canonical text, as RFC 8259, sections 2 and 3, has them |
| CanonicalJson.NumeralCharacters | packages/ai/src/context-cache.ts:149-152 | the characters of a number, after RFC 8259, section 6 |
| CanonicalJson.EscapesOfUnits | packages/ai/src/context-cache.ts:149-152 | every escape of RFC 8259, section 7, that a code unit below 128 takes |
| CanonicalJson.EscapesOfSurrogates | packages/ai/src/context-cache.ts:149-152 | pairs of surrogates stand as they are, lone ones are written with their four hexadecimal digits |
| JsonRoundTrip.CanonicalTextReadsBack | packages/ai/src/context-cache.ts:149-165 | canonical text parses to the value with sorted members and is used up |
| JsonRoundTrip.CanonicalKeysAscend | packages/ai/src/context-cache.ts:156-164 | members are printed once each by ascending keys |
| JsonRoundTrip.CanonicalTextSeparatesValues | packages/ai/src/context-cache.ts:149-165 | two values print the same text if and only if they are equal up to the order of object keys |
| JsonRoundTrip.StableJsonAgrees | packages/db/src/seed.ts:350-364 | the seed script, which sorts entries, prints the text of the cache, which sorts keys |
| Sorting.SortIsCanonical | packages/ai/src/context-cache.ts:157 | sorting two lists of strings gives the same list if and only if they agree as multisets |
| Sorting.SortAscends | packages/ai/src/context-cache.ts:157 | sorted strings are in ascending order of their first different code unit, a proper part of the front first |
| FnvDigest.ShiftsMultiplyByPrime | packages/ai/src/context-cache.ts:142-145 | one round of signed 32-bit shifts and additions is the exclusive or and multiplication by the FNV prime modulo 2^32 |
| FnvDigest.Fnv1aDigest | packages/ai/src/context-cache.ts:139-147 | the loop computes published FNV-1a of the canonical text, in padded hexadecimal |
| FnvDigest.KnownHashes | packages/ai/src/context-cache.ts:139-147 | the published hashes of the empty text and of `a`, and the digest of the latter |
| FnvDigest.DigestShowsTheHash | packages/ai/src/context-cache.ts:146 | the digest has eight characters and is injective in the hash |
| FnvDigest.DigestIgnoresKeyOrder | packages/ai/src/context-cache.ts:139-165 | objects that differ in key order only have one digest |
| FnvDigest.OneChangedUnitShows | packages/ai/src/context-cache.ts:139-147 | changing exactly one code unit of a text always changes its digest |
| ContextCache.InMemoryMentorContextCache.Lookup | packages/ai/src/context-cache.ts:63-71 | a read of the map, with removal of an expired entry |
| ContextCache.InMemoryMentorContextCache.Store | packages/ai/src/context-cache.ts:73-81 | a write, with reinsertion or eviction of the oldest entry |
| ContextCache.SizeAndOrder | packages/ai/src/context-cache.ts:63-89 | on every run keys stay distinct and the size bound holds; insertion order is expiry order |
| ContextCache.HitIsTheLatestLiveWrite | packages/ai/src/context-cache.ts:63-89 | a hit is the latest write of its key, not undone and not expired; such a write is found while fewer than `maxEntries` other keys have been written since |
| ContextCache.LiveWriteIsKept | packages/ai/src/context-cache.ts:73-81 | a live entry is not evicted before that many other writes |
| ContextCache.ZeroRoomKeepsOne | packages/ai/src/context-cache.ts:73-81 | with `maxEntries` zero or below the cache still holds one entry |
| ContextBuilder.KeySeparatesInputs | packages/ai/src/context-cache.ts:118-132 | two inputs whose ids and digests contain no `::` and do not end in `:`, whatever the refs, share a cache key if and only if they agree on package version, stage, visibility, digest and the parts their sorted refs fall into at bars |
| ContextBuilder.KnownKey | packages/ai/src/context-cache.ts:118-132 | a key in full |
| ContextBuilder.KeyBelongsToOneInput | packages/ai/src/context-cache.ts:118-132 | an input, of any ids, digest and refs, shares its key only with inputs that agree on these if and only if no `::` can be read in its ids, nor in its digest and refs, except the one put there |
| ContextBuilder.BarFreeRefsSeparate | packages/ai/src/context-cache.ts:122-131 | refs without a bar share those parts if and only if they agree as a multiset, or one list is empty and the other a single empty ref |
| ContextBuilder.BarsCollide | packages/ai/src/context-cache.ts:122-131 | one ref that is two refs with a bar between them has the key of the two if and only if they stand in sorted order or the other order reads the same; no ref at all has the key of one empty ref |
| ContextBuilder.ContextShowsWhatIsAllowed | packages/ai/src/context-builder.ts:58-167 | a context holds what the loaders return, ref by ref, for exactly the scopes it lists, and lists a solution if and only if the trigger of that scope's own rule has fired, `always` never firing |
| ContextBuilder.GrantedScopesAreListed | packages/ai/src/context-builder.ts:69-169 | the allowed scopes are exactly those whose trigger has fired and those that are `always` and no solution, each once in policy order; redaction targets and policy snapshot are the policy's |
| ContextBuilder.SolutionAfterAnAttempt | packages/ai/src/context-builder.ts:87-137 | a policy that lets a solution be shown after an attempt alone |
| ContextBuilder.ProgressShowsMore | packages/ai/src/context-builder.ts:69-85 | progress never hides a scope |
| ContextBuilder.BuildMentorContext | packages/ai/src/context-builder.ts:96-176 | without a cache, the fresh context; with one, the lookup, the refreshed attempt, and on a miss the store |
| ContextBuilder.SameAnswerMeansSameQuestion | packages/ai/src/context-builder.ts:132-169 | two inputs give one context, up to attempt and excerpt order, if and only if they agree on stage, package version, policy, shown scopes and, where refs are shown, the refs as a multiset |
| ContextBuilder.HitsAreFresh | packages/ai/src/context-builder.ts:100-122 | after any interleaving of builds, expiries, evictions, deletes and clears, with any clock, a hit is what a fresh build would give, up to the order of excerpts, unless its key was stored for a different question |
| ContextBuilder.HitsAreFreshExactly | packages/ai/src/context-builder.ts:100-122 | over a set of inputs every hit of every run is fresh if and only if inputs that share a key ask the same question |
| ContextBuilder.KeyableInputsSeparate | packages/ai/src/context-cache.ts:109-132 | they do where ids and digests keep clear of the separator, digests tell policies apart and refs have no bar and are not a single empty one |
| ContextBuilder.CachedBuildAgreesWithUncached | packages/ai/src/context-builder.ts:96-176 | a cached build answers what an uncached one would, solutions behind their triggers and the current attempt included, and affects the cache as a lookup and at most one store |
| Redaction.Redact | packages/ai/src/redaction.ts:36-59 | the loop over the targets, with the flag and the list of targets that fired |
| Redaction.OneTargetMore | packages/ai/src/redaction.ts:36-59 | a target more at the end of the list is looked for in the text the others leave, and only then replaced, flagged and listed, if it is not empty and occurs |
| Redaction.FindRedactionEvidence | packages/ai/src/redaction.ts:65-77 | the matches of every target, in order |
| Redaction.ReplaceChangesOnlyMatches | packages/ai/src/redaction.ts:50-55 | replacement puts a mark where each leftmost match was and leaves everything else as it stood |
| Redaction.ReplaceBringsNothingBack | packages/ai/src/redaction.ts:45-57 | replacing one target never makes another one occur, if that one cannot overlap a mark |
| Redaction.TargetIsGone | packages/ai/src/redaction.ts:36-59 | such a target does not occur in the redacted text, whatever the other targets are |
| Redaction.TriggeredMeansEvidence | packages/ai/src/redaction.ts:36-77 | redaction triggers if and only if the input shows evidence, and otherwise changes nothing |
| Redaction.EvidenceAfterRedaction | packages/ai/src/redaction.ts:36-77 | for targets that stay clear of the mark or lie inside it: when evidence remains |
| Redaction.RedactionIsComplete | packages/ai/src/redaction.ts:15-77 | for all literal targets without brackets: the output shows no evidence unless something fired and some target is part of the word `redacted`, and then it always does |
| Redaction.BracketsCanComeBack | packages/ai/src/redaction.ts:15-59 | a redacted target with a bracket that occurs in the output |
| Redaction.GoneExactlyWhenClear | packages/ai/src/redaction.ts:15-59 | a target is gone from every redacted text, whatever else is redacted, if and only if it cannot overlap a mark |
| Redaction.TargetComesBack | packages/ai/src/redaction.ts:36-59 | for every target that fits a mark at some offset, a text and a second target that bring it back |
| RateLimiter.InMemoryMentorRateLimiter.CheckNow | apps/web/lib/mentor/rate-limiter.ts:92-127 | both windows pruned, the narrower decided first, both extended on admission |
| RateLimiter.PruneWindow | apps/web/lib/mentor/rate-limiter.ts:144-151 | the loop drops exactly the leading expired hits |
| RateLimiter.LimiterAgreesWithHistory | apps/web/lib/mentor/rate-limiter.ts:92-151 | on every run, whatever the ids, the decisions and admissions are those of a limiter that forgets nothing and counts users and pair keys |
| RateLimiter.NoWindowOverflows | apps/web/lib/mentor/rate-limiter.ts:92-127 | no window of any run, ending at any instant, holds more admitted requests of a user or a pair than its limit, whatever the ids |
| RateLimiter.WaitIsLeast | apps/web/lib/mentor/rate-limiter.ts:92-159 | on every run, whatever the ids, the wait in a refusal is the least whole number of seconds that frees the window that refused |
| RateLimiter.PairsCountByThemselves | apps/web/lib/mentor/rate-limiter.ts:92-127 | over a set of pairs each pair is counted by itself, on every run under every configuration, if and only if no two of them have one pair key |
| RateLimiter.SeparableKeysDiffer | apps/web/lib/mentor/rate-limiter.ts:99 | they have not where user ids contain no `::` and do not end in `:` |
| RateLimiter.PairWindowsCanCollide | apps/web/lib/mentor/rate-limiter.ts:92-127 | a run on which a pair is refused for the request of another pair |
| SpendStore.InMemoryMentorSpendStore.RecordSpend | apps/web/lib/mentor/spend-store.ts:73-101 | a positive spend enters the user's hits and all three totals, any other leaves no trace |
| SpendStore.InMemoryMentorSpendStore.PruneAndTotalUser | apps/web/lib/mentor/spend-store.ts:109-129 | the loop drops expired hits and takes their sum off the running total |
| SpendStore.PruneEntryIsWindow | apps/web/lib/mentor/spend-store.ts:109-129 | after pruning the running total is the sum of the hits inside the window, and the guard against negatives never fires |
| SpendStore.ReadTotalIsWindow | apps/web/lib/mentor/spend-store.ts:61-129 | after any run a user's total as read is what the whole ledger says was spent in the window |
| SpendStore.TotalsFollowLedger | apps/web/lib/mentor/spend-store.ts:65-100 | package and stage totals are the sums of the ledger |
| SpendStore.PackageIsSumOfStages | apps/web/lib/mentor/spend-store.ts:94-99 | what the ledger spent on a package is the sum over its stages |
| SpendStore.StageIsKey | apps/web/lib/mentor/spend-store.ts:69-100 | the total under a stage's key is what was spent on the stage if and only if no other package has spent anything under that key |
| SpendStore.PackageTotalIsSumOfStageTotals | apps/web/lib/mentor/spend-store.ts:65-100 | after any run a package total is the sum of its stage totals if and only if that holds of the key of every stage |
| SpendStore.SeparableKeysAreOwn | apps/web/lib/mentor/spend-store.ts:132-134 | it does where package ids contain no `::` and do not end in `:` |
| SpendStore.StagesCanShareATotal | apps/web/lib/mentor/spend-store.ts:94-100 | a run of two packages after which the total of one is not the sum of its stage totals |
| Budget.CheckBudget | packages/ai/src/cost-cap.ts:72-120 | the cost is estimated, the three totals are read, the user's after pruning, and the decision follows in order of severity; the totals are reported |
| Budget.DecisionMeaning | packages/ai/src/cost-cap.ts:63-112 | which cap, and for a user which tier, each decision stands for |
| Budget.CostPerMillion | packages/ai/src/cost-cap.ts:47-61 | a million times the cost is tokens times prices, and an unpriced model costs nothing |
| Budget.NoCapIsExceeded | packages/ai/src/cost-cap.ts:62-112 | requests run one at a time, only when allowed and within their estimates, never take a package or stage, in the ledger or in the store, or a user in any window, over its cap |
| Budget.FewerTokensCostLess | packages/ai/src/cost-cap.ts:47-60 | using no more tokens than estimated costs no more than estimated |
| Keys.KeyRoundTrip | packages/db/src/grade-store.ts:154-168 | an idempotency key parses back to its tuple if and only if the parts are non-empty, contain no `::` and the first two do not end in `:` |
| Keys.ParsedHasKey | packages/db/src/grade-store.ts:154-168 | whatever a key parses to has that key |
| Keys.KeysSeparateTuples | packages/evaluator-sdk/src/idempotency.ts:7-13 | on such tuples the key is injective |
| Keys.KeyBelongsToOneTuple | packages/evaluator-sdk/src/idempotency.ts:7-13 | a key belongs to one tuple only if and only if no part contains `::` and no colon of a part stands next to a separator |
| Keys.KeysCanCollide | packages/evaluator-sdk/src/idempotency.ts:7-13 | two different tuples with one key |
| Grades.InMemoryGradeStore.FindGrade | packages/evaluator-sdk/src/idempotency.ts:35-37 | the grade under a key, if any |
| Grades.InMemoryGradeStore.InsertGrade | packages/evaluator-sdk/src/idempotency.ts:39-48 | both indexes updated |
| Grades.InMemoryGradeStore.AppendGradeOverride | packages/evaluator-sdk/src/idempotency.ts:50-71 | the entry appended and its patch applied, in both indexes, or the error for an unknown id |
| Grades.OverrideSetsPatchedFields | packages/evaluator-sdk/src/idempotency.ts:50-71 | an override sets exactly the fields its patch has, and adds itself to the history |
| Grades.OneGradePerKey | packages/evaluator-sdk/src/idempotency.ts:31-72 | consistent indexes hold at most one grade for each key |
| Grading.GradeAttempt | packages/evaluator-sdk/src/grade.ts:135-280 | one call: its reads, its writes in order, and its answer, over both stores |
| Grading.CallMeaning | packages/evaluator-sdk/src/grade.ts:135-280 | for every stored grade, checkpoint and input: which answer a call gives, said of the run, the evidence, the citations, the weighted mean of the dimensions and the threshold, and what it writes in which order |
| Grading.VerdictMeaning | packages/evaluator-sdk/src/grade.ts:81-280 | the same of an uninterrupted call |
| Grading.AggregateIsAnAverage | packages/evaluator-sdk/src/grade.ts:85-90 | the aggregate lies between the lowest and the highest dimension score, or is zero when nothing weighs |
| Grading.DefaultScoreIsPassRatio | packages/evaluator-sdk/src/grade.ts:98-112 | with the default scorer the score is the fraction of tests passed, whatever the weights |
| Grading.CrashedCallsResume | packages/evaluator-sdk/src/grade.ts:135-280 | after any number of calls that complete or crash between any two writes, a call that completes answers and stores what an uninterrupted one would, up to id and time; at most one grade for each key |
| Grading.AfterFits | packages/evaluator-sdk/src/grade.ts:149-280 | the invariant of the protocol: every stored grade and snapshot is what its input determines |
| Grading.SnapshotsKeepDimensions | packages/evaluator-sdk/src/intermediate.ts:42-53 | no attempt, complete or crashed, ever loses dimensions a snapshot holds |
| Grading.CheckpointDecidesTheRetry | packages/evaluator-sdk/src/grade.ts:159-260 | after a crash behind the checkpoint a retry with other artifacts is graded with the first call's dimensions and threshold |
| Grading.RetryAnswersForItself | packages/evaluator-sdk/src/grade.ts:141-260 | behind such a checkpoint, of any scorer, the retry answers what it would on its own if and only if it ignores checkpoints, or passes the checks it skips and is refused for citations or has the first call's threshold and default dimensions |
| Grading.FailingRetryPasses | packages/evaluator-sdk/src/grade.ts:141-260 | two calls of one key of which the second fails its only test and is answered with a pass |
| PrismaGradeStore.StatusFromRow | packages/db/src/grade-store.ts:117-128 | the backward loop finds the latest status an override set, or falls back on the boolean |
| PrismaGradeStore.RowReading | packages/db/src/grade-store.ts:117-152 | how any row reads, missing values included, with the status of the latest override that sets one |
| PrismaGradeStore.PrismaStore.FindGrade | packages/db/src/grade-store.ts:197-208 | the row under a parsed key, as a grade |
| PrismaGradeStore.PrismaStore.InsertGrade | packages/db/src/grade-store.ts:210-238 | a new row, or the violated unique constraint |
| PrismaGradeStore.PrismaStore.AppendGradeOverride | packages/db/src/grade-store.ts:240-265 | the normalized history with the entry, and the columns the patch sets |
| PrismaGradeStore.FittingRowShows | packages/db/src/grade-store.ts:117-152 | a row that stands for a grade reads back as that grade, with the status its history or the boolean gives |
| PrismaGradeStore.TableRefinesMemory | packages/db/src/grade-store.ts:189-267 | after every sequence of overrides and of inserts with new keys and ids, of any submission, the table stands for the in-memory store |
| PrismaGradeStore.GradesAgree | packages/db/src/grade-store.ts:189-267 | the two stores then hold the same grades by id, and the table shows each of them |
| PrismaGradeStore.StoresAgree | packages/db/src/grade-store.ts:196-267 | under any key the table finds a grade if and only if memory does and the grade's tuple parses back from its key, and then it shows that grade |
| PrismaGradeStore.StatusesAgree | packages/db/src/grade-store.ts:117-267 | they agree on history, score, whether the grade is passed, and on the full status exactly when it is passed or failed or an override set it |
| PrismaGradeStore.EmptySubmissionIsNotFound | packages/db/src/grade-store.ts:197-238 | a grade without a submission is stored by both, and found by its key in memory only |
| PrismaGradeStore.OverridesAgree | packages/db/src/grade-store.ts:240-265 | an override fails in both stores or in neither, and the table's answer shows the grade memory answers |
| PrismaGradeStore.PartialReadsBackAsFailed | packages/db/src/grade-store.ts:117-128 | a partial grade without overrides reads back as failed |
| PrismaGradeStore.DuplicateInsertsDiffer | packages/db/src/grade-store.ts:210-238 | a second insert under one key replaces the grade in memory; the table refuses it if and only if there is a submission or the id is taken |
| NumericCheck.InferShapeUnchecked | packages/evaluator-sdk/src/numeric.ts:75-84 | the loop down the first children |
| NumericCheck.InferredShapesDecide | packages/evaluator-sdk/src/numeric.ts:75-104 | the uniformity and equality checks on inferred shapes decide whether two values are regular tensors of one shape |
| NumericCheck.WalkPairs | packages/evaluator-sdk/src/numeric.ts:106-127 | the paired walk with its running worst residuals |
| NumericCheck.WalkIsWalkLeaves | packages/evaluator-sdk/src/numeric.ts:106-127 | walking two tensors of one shape is walking their flattened leaves |
| NumericCheck.CheckNumeric | packages/evaluator-sdk/src/numeric.ts:133-266 | the cascade of checks, each with its reason and the fields it reports |
| NumericCheck.PairOkMeaning | packages/evaluator-sdk/src/numeric.ts:227-246 | the three comparisons of a pair of leaves, by which tolerances are given |
| NumericCheck.ResidualMeaning | packages/evaluator-sdk/src/numeric.ts:230-235 | the residuals are the distance of the two numbers, and that distance over the size of the expectation |
| NumericCheck.CheckMeaning | packages/evaluator-sdk/src/numeric.ts:133-266 | a check passes if and only if tolerance, unit and shapes are right and every pair of leaves is finite and within tolerance; the reported errors are then the true maxima |
| NumericCheck.FailureMeaning | packages/evaluator-sdk/src/numeric.ts:133-266 | a shape failure if and only if the shapes are at fault, and otherwise the reason of the first leaf out of tolerance |
| NumericCheck.WideningKeepsPasses | packages/evaluator-sdk/src/numeric.ts:222-246 | raising or adding a tolerance never turns a pass into a failure |
| Prerequisites.BuildParents | packages/content-sdk/src/validator/sandbox.ts:70-86 | the reverse adjacency holds exactly the edges of both kinds |
| Prerequisites.Ancestors | packages/content-sdk/src/validator/sandbox.ts:93-106 | on every graph, cyclic or not, the worklist stops and returns, each once, exactly the nodes with a non-empty path to the start |
| Prerequisites.DerivePrereqsPlans | packages/content-sdk/src/validator/sandbox.ts:57-123 | one plan for each gated node, requiring exactly the gated stages of the nodes that reach it, each once if no two nodes share a stage; plans and required stages are sorted by stage id with the given comparison |
| Prerequisites.DagOrderIsNameOrder | packages/content-sdk/src/validator/sandbox.ts:35-36 | a plan lists its required stages in DAG order if and only if no required stage reaches another one whose id sorts before its own |
| Prerequisites.RequiredStagesOutOfDagOrder | packages/content-sdk/src/validator/sandbox.ts:108-121 | three stages in a row of which the last requires the first two, the wrong way round |
| Prerequisites.PlansAreTransitive | packages/content-sdk/src/validator/sandbox.ts:108-122 | with one node for each stage, what a required stage's plan requires is required already |
| Prerequisites.PrerequisitesAreTransitive | packages/content-sdk/src/validator/sandbox.ts:108-122 | the required-stage relation is transitive |
| LineWrap.WrapLines | apps/web/lib/share-card-svg.ts:24-53 | the loop with its early stop and the mark on the last line gives what is said of the greedy lines |
| LineWrap.SpacesAreWhiteSpace | apps/web/lib/share-card-svg.ts:25 | words are cut at exactly the white space of ECMA-262, sections 12.2 and 12.3 |
| LineWrap.EndsWithMeaning | apps/web/lib/share-card-svg.ts:44 | a line ends with a text if and only if it is something followed by that text |
| LineWrap.GreedyIsOptimal | apps/web/lib/share-card-svg.ts:28-41 | greedy filling is a layout of all the words, and no layout has fewer lines |
| LineWrap.WrappingIsOptimal | apps/web/lib/share-card-svg.ts:24-53 | if any layout fits the line limit, wrapping keeps every word in order and uses the fewest lines |
| LineWrap.OverflowKeepsPrefix | apps/web/lib/share-card-svg.ts:42-52 | otherwise the lines before truncation hold a proper prefix of the words, and only the last line changes, to the longest prefix of itself that leaves room for the ellipsis, unless it ends with the first dropped word |
| LineWrap.WordsOfJoin | apps/web/lib/share-card-svg.ts:25-35 | a line splits back into the words it was joined from |
| LineWrap.DroppedWordCanGoUnmarked | apps/web/lib/share-card-svg.ts:28-50 | an insight of one long word five times, at the size the card uses, loses the fifth without an ellipsis |
| LineWrap.LineLimitHolds | apps/web/lib/share-card-svg.ts:28-43 | no more lines come back than allowed if and only if at least one is allowed, or none and there is at most one |
| XmlEscape.PassesDoNotInterfere | apps/web/lib/share-card-svg.ts:15-22 | five replacement passes replace each character once |
| XmlEscape.EscapeRoundTrip | apps/web/lib/share-card-svg.ts:15-22 | escaped text has no markup characters and decodes by the predefined entities of XML 1.0, section 4.6, to the original |
| StreamCapture.Drain.Data | apps/runner/src/sandboxes/local-fs.ts:187-218 | the capped capture of one chunk and the lines it completes |
| StreamCapture.Drain.EmitLines | apps/runner/src/sandboxes/local-fs.ts:208-217 | the loop emits every complete line, scrubbed, and keeps the remainder |
| StreamCapture.Drain.End | apps/runner/src/sandboxes/local-fs.ts:220-226 | a last line without a newline is emitted once |
| StreamCapture.LinesAreTheText | apps/runner/src/sandboxes/local-fs.ts:208-217 | the lines and the remainder are the text, cut at every newline and nowhere else |
| StreamCapture.ChunkingDoesNotMatter | apps/runner/src/sandboxes/local-fs.ts:182-227 | for every split into chunks the capture is the capped prefix, the flag says whether the text is longer, and the lines are those of the whole text |
| BranchStats.AggregateTraversals | apps/worker/src/jobs/branch-stats-rollup.ts:96-118 | the loops over maps compute counts in order of first appearance |
| BranchStats.AggregationConserves | apps/worker/src/jobs/branch-stats-rollup.ts:96-118 | every counted (node, branch) is reported exactly once with its true counts, and branch counts sum to the node count |
| BranchStats.PublishedPercentIsSafe | apps/worker/src/jobs/branch-stats-rollup.ts:85-129 | a percentage is published if and only if both samples are large enough; it is a multiple of 5 in 0..100 within 2.5 of the exact value and equals the share card's |
| BranchStats.CardRefusesImpossibleCounts | apps/web/lib/share-cards.ts:55-64 | the share card shows nothing for a branch with more traversals than its node |
| BranchStats.RunBranchStatsRollup | apps/worker/src/jobs/branch-stats-rollup.ts:131-187 | one update or creation for each aggregated pair of the window |
| BranchStats.CountsAreDirect | apps/worker/src/jobs/branch-stats-rollup.ts:96-149 | the counts behind a rollup are those of all traversals of the job's package version inside its half-open window, at the node, and on the branch |
| BranchStats.RollupPublishesSafely | apps/worker/src/jobs/branch-stats-rollup.ts:85-187 | after a rollup the first row of every pair counted in the window carries the pair's true count and a percentage that is safe for the true counts |
| BranchStats.RollupRow | apps/worker/src/jobs/branch-stats-rollup.ts:149-183 | a rollup leaves every row of a pair it does not count as it was, stale or not, and every row it writes carries the true count and a safe percentage |
| BranchStats.EveryRowWasCounted | apps/worker/src/jobs/branch-stats-rollup.ts:131-187 | after any sequence of runs every row of the table carries the true count and a safe percentage of one of the runs, of its package version, cohort and window |
| BranchStats.RerunChangesNothing | apps/worker/src/jobs/branch-stats-rollup.ts:131-187 | running the job again over the same traversals changes no row |
| AccountSchema.NothingFollows | packages/db/prisma/schema.prisma:469-608 | below rows that nothing points to, no `Restrict`, `Cascade` or `SetNull` acts |
| AccountCascade.Client.Statement | apps/web/lib/account-cascade.ts:266-284 | one statement on one table with the referential actions below it, the number of rows it touches, or the refusal of a `Restrict` |
| AccountCascade.Client.DeleteAccount | apps/web/lib/account-cascade.ts:241-441 | the statements in order, with the ids collected on the way and empty lists skipped, are never refused, leave the database the plan describes and count the rows that were the user's at the start |
| AccountCascade.StepsSoFar | apps/web/lib/account-cascade.ts:264-437 | on every database no statement of the plan is refused, and every table after every step is told from the initial tables |
| AccountCascade.DeletionMeaning | apps/web/lib/account-cascade.ts:241-441 | a deletion leaves exactly the tables without the user's rows, with their events and reviews unlinked and the user row anonymized, and with what `SetNull` on grades and `Cascade` on share cards change besides |
| AccountCascade.FateOfTheUsersRows | apps/web/lib/account-cascade.ts:241-441 | what becomes of each row that belongs to the user: the user row stays as a tombstone, events and reviews stay without their user, a grade that is the user's by its submission only stays without it, and every other row is gone |
| AccountCascade.NothingAppears | apps/web/lib/account-cascade.ts:241-441 | no table gains a row |
| AccountCascade.FoundOnTheWay | apps/web/lib/account-cascade.ts:286-363 | the ids collected between the statements are those there were at the start |
| AccountCascade.ForeignKeysHoldThroughout | apps/web/lib/account-cascade.ts:264-437 | after every step of the plan each foreign key still finds its row, if each did at the start |
| AccountCascade.DeletedUserExportsNothing | apps/web/lib/account-cascade.ts:507-618 | after a deletion every list of the user's export is empty and the user row identifies nobody |
| AccountCascade.ExportIsWhatBelongs | apps/web/lib/account-cascade.ts:507-618 | the export has twelve lists, and each holds exactly the rows that lead to the user through their foreign keys, a grade through its attempt and a share card through its user |
| AccountCascade.CountsAreExportLengths | apps/web/lib/account-cascade.ts:241-618 | the counts reported are the lengths of the lists exported just before and, with the share cards the database removes on its own, account for every row that left |
| AccountCascade.ExactlyTheUsersRowsChange | apps/web/lib/account-cascade.ts:241-441 | outside the user table exactly the rows that lead to the user through their foreign keys leave or change; in it, only the user's own |
| AccountCascade.ActionsNeedTangledRows | packages/db/prisma/schema.prisma:497-608 | the database changes anything on its own if and only if a grade or share card of another user hangs on a row of this one |
| AccountCascade.OtherExportsKept | apps/web/lib/account-cascade.ts:507-618 | somebody else's export is exactly what it was if and only if none of their share cards and grades hangs on a row of the user's |
| AccountCascade.OwnedTogetherIsUntangled | packages/db/prisma/schema.prisma:497-608 | where grades and share cards that hang on two rows hang on two rows of one user, every other user's export is kept in that way |
| AccountCascade.ForeignCardGoes | packages/db/prisma/schema.prisma:594-608 | a legal database in which a deletion takes another user's share card |

## Left out

- gunzip, SHA-256, AES-GCM and the process spawning around the stream capture: library or operating-system code.
- UTF-8 decoding: the tar reader works on bytes taken as characters, so lengths of PAX records are byte lengths; stream chunks are already decoded characters. Names and paths with other than ASCII characters are not covered.
- IEEE double rounding, NaN and infinities: amounts, scores, times and tolerances are reals; only the leaves of a tensor may be non-finite. A numeral too long for a double, which `parseInt` turns into infinity, is not covered.
- Windows path resolution: `path.resolve` is modelled for POSIX, over segments.
- Line lengths are counted in characters; the program counts UTF-16 code units, and may cut a surrogate pair.
- Global PAX headers, whose `path` the reader ignores, and how the standard lets one header override another.
- JSON numbers are the numerals JavaScript prints for them; `undefined`, functions and `toJSON` are not values of the model.
- Glob targets of the redactor, and every other regular expression: literal targets only; case-insensitivity is any fold of single characters, and the log scrubber is a parameter.
- The fallback digest of a stage policy inside the builder: an input carries the digest in use; that equal digests mean equal policies is an assumption of `KeyableInputsSeparate`, in line with `OneChangedUnitShows` but not implied by it.
- Concurrent `gradeAttempt` calls for one key; a custom scorer is deterministic; ids drawn are never drawn twice; the feedback text is kept as its ingredients.
- `evidenceRefs`, `modelMeta` and malformed stored dimensions of a grade row.
- The resolution of a graph node's stage reference, an input of the planner; `localeCompare` is any consistent comparison.
- Message texts of the budget check.
- Columns of database rows that neither deletion nor export looks at; an address that already equals an anonymized one; transaction rollback and timeouts; sessions and tokens are tables like the others.
- Redis, BullMQ, S3, Prisma itself, telemetry, warnings, the user interface, `limits.ts`, `abuse-budget.ts`, `permissions.ts`, `version-check.ts`, `checkNumericBatch` and `classifyExit`: calls to other systems, or members that would be easy.
- Constructor arguments that make the program throw (a limit or window that is not positive) are preconditions of the constructors.
- TarRoundTrip.ArchiveRoundTrip: names are NUL-free bytes, and PAX lengths count bytes, because decoded text is not modelled.
- ContextBuilder.KeySeparatesInputs: ids and digests without `::` that do not end in `:`, because others shift parts of the key into each other; `KeyBelongsToOneInput` and `HitsAreFreshExactly` do without.
- ContextBuilder.HitsAreFresh: loaders are deterministic.
- Redaction.GoneExactlyWhenClear: of targets that leave some character out, up to case, because the text that brings a target back needs one.
- Redaction.RedactionIsComplete: literal targets, and a fold that keeps brackets apart from other characters.
- Grading.CrashedCallsResume: calls for one key run one after the other, each with the same input.
