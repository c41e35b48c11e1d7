# BRIDGEPORT algorithm models

Dafny models of the algorithms and protocols in `src/lib` of BRIDGEPORT, with proofs of what
they promise. One module per source file or component; `Text`, `Concat`, `Sorting`,
`Decimals`, `CodeUnits`, `StampMap` and `Wrappers` hold what several of them share.

- `Idempotency`, `IdempotencyRetry`, `IdempotencyAnswers`, `IdempotencyHooks`, `StoredKeys`: the
  Idempotency-Key protocol, as a transition system in which requests, cleanup sweeps, clock ticks and crashes
  interleave at every `await`, and as the hook methods that update a table and a per-request
  marker; and the key a row is stored under.
- `LineDiff`, `LineDiffOrder`, `UnifiedDiff`, `Redaction`, `RedactionOrder`: the dry-run diff and
  the secret redactor.
- `Downsample`: columnar largest-triangle-three-buckets downsampling.
- `KeyedLock`, `KeyedLockProgress`: the promise-chain mutex, one step per promise reaction.
- `CanonicalJson`, `JsonNumber`, `JsonNumberText`, `JsonString`: the canonical printer, with a JSON reader to
  state that its text is unambiguous.
- `ConfigScan`, `ConfigScanLines`, `KeyUsage`, `KeyUsageForms`, `ConfigFragments`, `UsageSync`: the
  two line parsers, the usage index, the rendered content it must agree with, and the join-table sync.
- `ShellEscape`, `ConnectionPool`, `ConnectionPoolIdle`: quoting for a POSIX shell, and the SSH
  connection pool.
- `ResponseCache`, `LastActiveThrottle`: the single-flight cache and the write throttle.

Stateful code has two layers. A class whose methods update their fields as the source does is
proved equal, call by call, to a step function on values; what holds over whole runs, for every
list of steps, is proved about the step function. Where the source waits, each wait ends a step,
so a run is any interleaving.

## Where the code does less than it says

Each of these is proved as an exact condition, or with a run that shows it.

- Idempotency (`SeparationExactly`): two 2xx executions under one stored key can be as close as
  the retention time, or closer by the time between computing `expiresAt` and the insert taking
  effect. The promised distance holds on all runs with insert delay up to `lag` exactly when
  staleness limit + `lag` < retention. The configuration accepts settings outside this.
- Idempotency (`LostRaceExactly`): the answer that another request is being processed concurrently
  is given when a row was inserted since the lookup, and also when the row to be taken over could
  not be deleted, since that failure is swallowed.
- Substitution (`SubstitutionCommutes`, `LoneQuoteDisagrees`, `CarriageReturnMissed`): a
  right-hand side that is one quote character is a bare value to `rewriteLine` and an empty
  quoted one to `extractKeyValues`, and behind a carriage return or another line terminator the
  first sees no value where the second does. Lines of these two kinds, and lines with an empty
  value if that is what is to be substituted, are exactly what keeps the two from agreeing.
- Redaction (`SingleSecretExactly`): a secret that starts or ends with `*`, or contains `***`,
  can come back out of the mask.
- Redaction (`OrderExactly`, `OrderMatters`): the comment that the function is order-independent
  does not hold for values of equal length. For two of them that the mask cannot touch the order
  makes no difference if and only if no proper suffix of either is a prefix of the other; "ab"
  and "bc" in "abc" show it. With pairwise different lengths order does not matter
  (`OrderIrrelevant`), and neither does it for any number of mask-safe values of which no two
  different ones of one length overlap (`PermutationIrrelevant`).
- Usage index (`HeaderRefersExactly`, `NamesDecide`, `HeaderNameDisagrees`): header lines carry
  fragment names, and the comment that headers carry no placeholders overlooks a name such as
  `$KEY`, or one with a KEY= behind a line end. Index and rendered content agree for all contents
  if and only if no headers are written or no name refers to anything.
- Usage sync (`TwoSyncsExactly`, `ThreeCanFail`): overlapping syncs of different contents can
  leave a key set that is neither content's. Two syncs leave the keys of one of their contents on
  all runs, from every table, if and only if the contents differ in at most one key;
  `MixedSyncsBound` says what holds for any number. The retry after a collision cannot collide
  again while there are two syncs, and with three it can.
- Keyed lock (`EndsExactly`, `OwnKeyNeverEnds`): a function that awaits a `runExclusive` of its own
  key waits for ever, and so does every later call of the key. All calls can come to an end if and
  only if there are no calls each of which is queued behind, or awaits, another of them.
- Stored keys (`StoredKeySeparatesExactly`, `StoredKeyCollision`): credential, environment text
  and client key are joined by `:`. Two environments of one credential are told apart by all
  client keys if and only if neither text continues the other behind a colon, so colon-free ids
  are safe. A missing environment and the id `-` have the same text.
- Connection pool (`AlwaysExactExactly`, `ReturnEndangersExactly`, `OverlapClosesInUse`,
  `LostConnectionClosesInUse`, `FailureHitsOtherExactly`, `NeverLeaksExactly`): `release` and
  `evict` look entries up by key. After overlapping connects, or a connection lost while held, a stale
  handle is booked on somebody else's connection, and idle cleanup or `evict` can then close it
  in use. Counts go wrong exactly when a handle is returned on another connection than its own
  with a positive count. A connect that resolves when its key has a live entry overwrites it, and
  leaves a live connection that nothing in the pool closes; no other step does.
- Throttle (`PromiseKeptExactly`): at most one write per id and window holds on all runs over a
  set of ids if and only if the map can hold an entry for each of them, or the window is empty.
- Response cache: the time to live counts from the start of the compute, not from the moment the
  value is ready (`ServedUntilExpiry`). The size limits of the cache and the throttle hold
  exactly for limits of at least 1 (`SizeBoundedExactly`).

## Model

| member | source | states |
|---|---|---|
| Idempotency.OneCreatorPerRow | src/lib/idempotency.ts:272-287 | on every run each row was inserted by one request, and a request inserts at most one row |
| Idempotency.OnlyOwnerWrites | src/lib/idempotency.ts:334-360 | on every run a stored row changes only in the finalizer of the request that created it, after a 2xx response, and to what that request captured |
| Idempotency.FinalizerFrame | src/lib/idempotency.ts:340-356 | a finalizer changes no row but its own; if that was taken over, the table stays as it is |
| Idempotency.ReplaySound | src/lib/idempotency.ts:258-269 | a replayed status and body come from a 2xx run of another request with the same stored key, route and request hash |
| Idempotency.Separation | src/lib/idempotency.ts:226-287 | over every interleaving, crash and sweep: unless a row's run ended non-2xx, a later row for its slot is created only once the earlier is older than the staleness limit or has expired |
| Idempotency.SeparationExactly | src/lib/idempotency.ts:230-283 | two 2xx executions of a slot are more than min(stale, retention) apart on all runs with insert lag at most `lag` if and only if stale + lag < retention |
| Idempotency.RunInv | src/lib/idempotency.ts:200-387 | the invariant of all reachable states: unique slots, genuine rows, sound markers, justified takeovers |
| IdempotencyRetry.RunsAloneExactly | src/lib/idempotency.ts:226-287 | in every reachable state a new request gets to run its handler exactly when its slot holds no row, an expired one, or one of its own hash in progress for longer than the staleness limit |
| IdempotencyRetry.RepetitionAnswered | src/lib/idempotency.ts:258-356 | a repetition after the finalizer replays a captured 2xx response while the row lives, and runs the handler again after any other response or after expiry |
| IdempotencyRetry.AnsweredAloneExactly | src/lib/idempotency.ts:236-269 | in every reachable state, by the unexpired row of its slot: another hash gets the key-reused refusal, the same hash the in-progress refusal up to the staleness limit or the stored status and body, each if and only if |
| IdempotencyAnswers.AnswersExactly | src/lib/idempotency.ts:230-297 | with anything in between: a refusal or replay is given on the unexpired row the request has looked up, a lost race when its insert finds the slot taken, a store error when its insert fails, and in no other step |
| IdempotencyAnswers.LostRaceExactly | src/lib/idempotency.ts:272-294 | on every run an insert that reaches the database loses the race if and only if the slot holds a row inserted since the request looked, or the one it was to take over and could not delete |
| StoredKeys.StoredKeySeparates | src/lib/idempotency.ts:219-224 | for colon-free environment texts, stored keys are equal exactly when credential, environment text and client key are |
| StoredKeys.SameScope | src/lib/idempotency.ts:219-224 | whatever the ids hold, equal stored keys mean the same credential, and within one environment text the same client key |
| StoredKeys.StoredKeySeparatesExactly | src/lib/idempotency.ts:219-224 | two environment texts are told apart by all pairs of client keys if and only if neither continues the other behind a colon |
| StoredKeys.StoredKeyCollision | src/lib/idempotency.ts:219-224 | environments `a` and `a:b` share a stored key |
| IdempotencyHooks.IdempotencyTable.Create | src/lib/idempotency.ts:275-285 | an insert adds one in-progress row with a new id, or fails and changes nothing when the slot is taken |
| IdempotencyHooks.IdempotencyTable.CleanupExpired | src/lib/idempotency.ts:382-387 | a row stays, unchanged, if and only if it does not expire before the cutoff, and the others are counted |
| IdempotencyHooks.Request.PreHandler | src/lib/idempotency.ts:226-299 | alone, each verdict is given if and only if expiry, hash, progress flag and age of the slot's row call for it, a replay with that row's status and body; on a go-ahead the slot then holds the request's row alone, otherwise nothing is written |
| IdempotencyHooks.Request.CaptureOnSend | src/lib/idempotency.ts:313-326 | the first response of a request that created a row is captured, later ones are not |
| IdempotencyHooks.Request.FinalizeOnResponse | src/lib/idempotency.ts:334-365 | a captured 2xx response is written to the request's own row, any other frees it, once |
| LineDiff.FillTable | src/lib/dry-run.ts:182-191 | each cell holds the length of a longest common subsequence of the two suffixes |
| LineDiff.EditScript | src/lib/dry-run.ts:193-215 | the walk over the table emits the script that `ScriptExactly` characterises |
| LineDiffOrder.ScriptExactly | src/lib/dry-run.ts:197-215 | a list of lines is the emitted script if and only if it transforms the old lines into the new, none does with fewer changes, and among the shortest it is first when keeping comes before deleting and deleting before inserting; in it no insertion stands right before a deletion |
| LineDiff.ScriptTransforms | src/lib/dry-run.ts:197-215 | the script's old side is the old lines, its new side the new lines, and it keeps as many lines as the table says |
| LineDiff.LcsBounds | src/lib/dry-run.ts:183-191 | no common subsequence of two suffixes is longer than the cell for them |
| LineDiff.ScriptMinimal | src/lib/dry-run.ts:182-215 | the context lines are a longest common subsequence, and no script for the same change has fewer `-` and `+` lines |
| UnifiedDiff.UnifiedDiff | src/lib/dry-run.ts:168-224 | the method emits the rendered diff, with the default labels when none are given |
| UnifiedDiff.DiffRoundTrip | src/lib/dry-run.ts:217-223 | reading the emitted lines gives back labels, both texts, counts that match the sides, and the script, as first of the shortest |
| UnifiedDiff.DiffEmptyIffEqual | src/lib/dry-run.ts:172-174 | the output is empty if and only if the two texts are equal |
| Redaction.RedactSecretValues | src/lib/dry-run.ts:125-137 | the loop replaces the non-empty values one after another, longest first |
| Redaction.RedactEnvSecrets | src/lib/dry-run.ts:144-153 | same keys, each value redacted |
| Redaction.SortedValues | src/lib/dry-run.ts:130 | the values used are the non-empty ones, in order of falling length |
| Redaction.PiecesRestore | src/lib/dry-run.ts:134 | splitting cuts out occurrences of the value and nothing else: joining with the value restores the text |
| Redaction.ReplaceAddsNone | src/lib/dry-run.ts:132-135 | a later replacement brings in no occurrence of a value the mask cannot touch |
| Redaction.RedactionComplete | src/lib/dry-run.ts:125-137 | no secret without `*` (more generally, none the mask can touch) occurs in the result, and content without occurrences is unchanged |
| RedactionOrder.ReplaceAllIsScan | src/lib/dry-run.ts:134 | splitting and joining is one scan from left to right that masks each occurrence it meets |
| RedactionOrder.OrderIrrelevant | src/lib/dry-run.ts:120-130 | values of pairwise different lengths give the same result in any order |
| RedactionOrder.PermutationIrrelevant | src/lib/dry-run.ts:120-136 | any number of mask-safe values, repetitions counted, give the same result in any order when no two different ones of one length overlap |
| RedactionOrder.OrderExactly | src/lib/dry-run.ts:120-136 | for two different mask-safe values of one length the order makes no difference to any content if and only if no proper suffix of either is a prefix of the other |
| RedactionOrder.OrderMatters | src/lib/dry-run.ts:130-136 | "abc" redacted by "ab" and "bc" in the two orders |
| RedactionOrder.TwoScans | src/lib/dry-run.ts:132-135 | two replacements in turn do what one scan for both values does, unless the second value can run into the first |
| Redaction.SingleSecretExactly | src/lib/dry-run.ts:125-137 | a single secret is removed from every content if and only if it neither starts nor ends with `*` nor contains `***` |
| Downsample.BucketShape | src/lib/metrics-downsample.ts:60-65 | each bucket is non-empty and ends where the next starts; the clamp and the degenerate branch are never needed |
| Downsample.BucketsPartition | src/lib/metrics-downsample.ts:53-65 | the buckets partition the indices strictly between first and last |
| Downsample.Boundaries | src/lib/metrics-downsample.ts:54-65 | the loop fills in these buckets: interior * (start - 1) <= i * (n - 2) < interior * start, each ends where the next one starts, the last at n - 1 |
| Downsample.StartUnique | src/lib/metrics-downsample.ts:61 | that inequality fixes each start |
| Downsample.BucketsEven | src/lib/metrics-downsample.ts:53-65 | no two buckets differ in length by more than one index |
| Downsample.NextFollows | src/lib/metrics-downsample.ts:96-118 | what is averaged starts where the bucket ends and goes up to the end of the next one, or to the last index |
| Downsample.AverageBalances | src/lib/metrics-downsample.ts:101-118 | a row's mean point is where its samples of the range balance, and there is none exactly when it has no sample there |
| Downsample.RowAreaIsTriangle | src/lib/metrics-downsample.ts:141-146 | a row's score is twice the area of the triangle over its previous sample, the candidate and the mean |
| Downsample.EvidenceAdds | src/lib/metrics-downsample.ts:124-150 | the evidence of a list of rows is the sum over its parts |
| Downsample.AreaIsShoelace | src/lib/metrics-downsample.ts:141-146 | the score expression is the shoelace formula for twice the triangle's area, whatever the order of the corners |
| Downsample.Averages | src/lib/metrics-downsample.ts:101-118 | the hoisted array holds each row's mean point of the next bucket |
| Downsample.Weigh | src/lib/metrics-downsample.ts:124-150 | with hoisted averages the score and the number of contributing rows are those with averages recomputed per candidate |
| Downsample.ContributesExactly | src/lib/metrics-downsample.ts:128-150 | the contributing count is positive exactly when some row has candidate, previous and next-bucket data |
| Downsample.BestCandidate | src/lib/metrics-downsample.ts:120-158 | the choice is the earliest candidate of largest summed area among those some row contributes to, or the bucket's start |
| Downsample.Advance | src/lib/metrics-downsample.ts:162-167 | each row's previous index becomes the new anchor exactly when it has a sample there |
| Downsample.LastSampledIs | src/lib/metrics-downsample.ts:80-82 | a row's previous index is 0, or the latest chosen anchor at which it has a sample |
| Downsample.SelectAnchors | src/lib/metrics-downsample.ts:84-168 | every bucket's anchor is right given the anchors before it |
| Downsample.AnchorListUnique | src/lib/metrics-downsample.ts:84-168 | that determines the whole selection |
| Downsample.FinalIndicesRise | src/lib/metrics-downsample.ts:170-174 | the maxPoints kept indices rise strictly from 0 to n-1 |
| Downsample.LatestInBucket | src/lib/metrics-downsample.ts:200-212 | a slot is null if and only if the row has no sample in the bucket; else it is its sample at the anchor or its latest in the bucket |
| Downsample.DownsampleColumnar | src/lib/metrics-downsample.ts:38-218 | small inputs and maxPoints below 3 come back as they are; otherwise timestamps and rows are the projection on the anchors |
| Downsample.DownsampledUnique | src/lib/metrics-downsample.ts:38-218 | the conditions leave one possible answer |
| KeyedLock.Lock.RunExclusive | src/lib/keyed-lock.ts:20-43 | a call queues behind the key's tail and becomes its tail |
| KeyedLock.Lock.Finally | src/lib/keyed-lock.ts:36-41 | the key is dropped if and only if its tail is still this call's |
| KeyedLock.LockSafe | src/lib/keyed-lock.ts:18-44 | on every run, with any mix of outcomes: no two calls of a key run together, starts follow arrival order, and a key absent from the map has no unsettled call |
| KeyedLock.StartsExactlyWhen | src/lib/keyed-lock.ts:21-25 | a waiting call may start exactly when all earlier calls of its key are settled, however they ended |
| KeyedLock.QuiescentMapEmpty | src/lib/keyed-lock.ts:36-41 | when all calls are done and cleaned up the map is empty |
| KeyedLockProgress.LockProgress | src/lib/keyed-lock.ts:20-44 | while a call is not cleaned up, the lock has a step of its own to take or some function is running, and there is no endless run without new arrivals |
| KeyedLockProgress.EndsExactly | src/lib/keyed-lock.ts:20-44 | when functions await results of calls, all calls can come to an end if and only if there are none each of which is queued behind, or awaits, another of them |
| KeyedLockProgress.KnotForever | src/lib/keyed-lock.ts:20-44 | such calls stay as they are on every continuation, new arrivals included |
| KeyedLockProgress.OwnKeyNeverEnds | src/lib/keyed-lock.ts:20-25 | a running function that awaits a later call of its own key never settles, nor does that call |
| JsonNumber.NumberRoundTrip | src/lib/canonical-json.ts:19-21 | reading a printed number gives the number back, and what is printed meets the number grammar of RFC 8259, section 6 |
| JsonNumberText.ExponentExactly | src/lib/canonical-json.ts:20 | a number is printed with an exponent if and only if it is 10^21 or more, or below 10^-6, in magnitude |
| JsonNumberText.IntegersExactly | src/lib/canonical-json.ts:20 | an integer is printed as its decimal digits if and only if its magnitude is below 10^21 |
| JsonString.PlainAsIs | src/lib/canonical-json.ts:20 | a string with nothing to escape stands in quotes as it is |
| JsonString.StringRoundTrip | src/lib/canonical-json.ts:19-27 | reading a quoted string, followed by anything, gives the string and stops at its end |
| CanonicalJson.CanonicalRoundTrip | src/lib/canonical-json.ts:18-29 | the canonical text is JSON, numbers included, that denotes the value |
| CanonicalJson.KeysRise | src/lib/canonical-json.ts:25-27 | the entries of an object are its members with the keys rising by code units |
| CanonicalJson.CanonicalInjective | src/lib/canonical-json.ts:12-29 | two values have the same text if and only if they are equal up to the order of object keys at every depth |
| ConfigScan.ExtractKeyValues | src/lib/config-scan-parsing.ts:17-50 | the loop collects what the lines contribute, in order |
| ConfigScan.SubstituteFullValue | src/lib/config-scan-parsing.ts:99-113 | the new content is the rewritten lines, and the counter the number of rewritten ones |
| ConfigScanLines.EnvListedExactly | src/lib/config-scan-parsing.ts:25-35 | for a plain value v, the line k=v is listed as (k, v) if and only if k is letters, digits and underscores and does not start with a digit |
| ConfigScanLines.YamlListedExactly | src/lib/config-scan-parsing.ts:37-46 | the line "k: v" is listed as (k, v) if and only if k is upper-case letters, digits and underscores and starts with a letter |
| ConfigScanLines.PlainRewritten | src/lib/config-scan-parsing.ts:59-90 | in such lines the value is replaced, with key and separator kept |
| ConfigScanLines.QuotedListed | src/lib/config-scan-parsing.ts:27-30 | a quoted value is listed without its quotes and otherwise as it is |
| ConfigScanLines.IndentedAlike | src/lib/config-scan-parsing.ts:22 | blanks, tabs and carriage returns around a line change nothing |
| ConfigScanLines.AttributeIgnored | src/lib/config-scan-parsing.ts:13-15 | a line with a lower-case key and a colon is neither listed nor rewritten, whatever follows |
| ConfigScanLines.RestartIgnored | src/lib/config-scan-parsing.ts:13-15 | "restart: unless-stopped", for one |
| ConfigScan.ParsersAgree | src/lib/config-scan-parsing.ts:21-90 | on every line the raw-line parser sees the key and value the trimmed-line parser lists, except that it sees no value with a line terminator behind |
| ConfigScan.RewriteCases | src/lib/config-scan-parsing.ts:59-93 | a line is rewritten exactly when it carries the value with no line terminator behind, or has the value without being listed, which takes an empty value or a lone quote |
| ConfigScan.RewrittenReads | src/lib/config-scan-parsing.ts:72-89 | a rewritten line reads back with the same indentation, key and separator, and the placeholder quoted as the value was |
| ConfigScan.SubstitutionCommutes | src/lib/config-scan-parsing.ts:17-113 | for any content and value, the list of the new content is the old list with the value mapped to the placeholder if and only if no line is missed or unlisted; the counter is the number of pairs with the value, less the missed and plus the unlisted lines |
| ConfigScan.NoneMissed | src/lib/config-scan-parsing.ts:19-25 | with the line feed as the only line terminator no line is missed |
| ConfigScan.LoneQuoteDisagrees | src/lib/config-scan-parsing.ts:28-33 | the line A=" with a double quote as the value: replaced, not listed |
| ConfigScan.CarriageReturnMissed | src/lib/config-scan-parsing.ts:60 | the line A=x with a carriage return behind: listed, not replaced |
| ConfigScan.SecondPassIdle | src/lib/config-scan-parsing.ts:99-113 | a second pass replaces nothing, on any content |
| KeyUsage.MatchAll | src/lib/key-usage-extraction.ts:85-103 | scanning from match to match finds every key that matches anywhere |
| KeyUsage.MatchesApart | src/lib/key-usage-extraction.ts:85-103 | no match of a pattern starts inside another |
| KeyUsage.ReferredIsKey | src/lib/key-usage-extraction.ts:67-111 | what the patterns capture is a valid key, so the final pass drops nothing |
| KeyUsage.ExtractReferencedKeys | src/lib/key-usage-extraction.ts:81-114 | the result is exactly the keys the content refers to, all upper-case letters, digits and underscores, starting with a letter |
| KeyUsageForms.RefersExactly | src/lib/key-usage-extraction.ts:85-103 | a content refers to exactly such names that stand in it as `${KEY}`, as `$KEY` with none of these characters behind, as `{{KEY}}`, or as KEY= at the start of a line |
| KeyUsage.RefersAcross | src/lib/key-usage-extraction.ts:85-103 | nothing is referred to across a line end and nothing is lost at one |
| KeyUsage.ScanContentKeys | src/lib/key-usage-extraction.ts:59-65 | the scan blob refers to exactly the keys of the fragments and of the own content |
| ConfigFragments.ComposeFragmentedContent | src/lib/config-fragments.ts:53-77 | the loop builds the joined sections, or the own content alone |
| ConfigFragments.FirstFragmentFirst | src/lib/config-fragments.ts:58-76 | the rendered content is the first fragment under its header, a blank line, and what the other fragments and the own content render to; no headers for json, xml and html in any spelling, headers for all others |
| ConfigFragments.OwnContentLast | src/lib/config-fragments.ts:45-77 | the own content ends the rendered content byte for byte, and is all of it without fragments |
| ConfigFragments.HeaderRefersExactly | src/lib/config-fragments.ts:66 | a header line refers to exactly the keys its name does with `${KEY}`, `$KEY` or `{{KEY}}`, or with KEY= behind a line end in the name |
| ConfigFragments.ComposedKeys | src/lib/config-fragments.ts:53-77 | the rendered content refers to the keys of the scan blob and of the fragment names in header lines, no others |
| ConfigFragments.IndexAgreesWithRendered | src/lib/key-usage-extraction.ts:49-114 | index and rendered content agree exactly when each key a name refers to in a header is referred to by some content too |
| ConfigFragments.NamesDecide | src/lib/key-usage-extraction.ts:52-57 | they agree for all contents if and only if no headers are written or no name refers to anything, as with names that hold no `$`, `{` or line end |
| ConfigFragments.HeaderNameDisagrees | src/lib/key-usage-extraction.ts:52-57 | an empty fragment named `$KEY` makes them disagree |
| UsageSync.UsageTable.Sync | src/lib/key-usage-extraction.ts:123-164 | alone, a sync leaves exactly the referenced keys and touches no row it need not |
| UsageSync.WantedInv | src/lib/key-usage-extraction.ts:134-179 | a key that every sync refers to is, in each of them, planned for or in the table, whatever the interleaving |
| UsageSync.UnwantedInv | src/lib/key-usage-extraction.ts:134-179 | a key that no sync refers to is, in each of them, planned to go or gone |
| UsageSync.MixedSyncsBound | src/lib/key-usage-extraction.ts:123-180 | syncs of any contents, in any interleaving: once one has finished the table holds every key all of them refer to and none that none of them does |
| UsageSync.SyncsConverge | src/lib/key-usage-extraction.ts:123-180 | so syncs of the same content leave exactly its keys |
| UsageSync.TwoSyncsExactly | src/lib/key-usage-extraction.ts:123-180 | two syncs that finish leave the keys of one of their two contents, from every table and however interleaved, if and only if the contents differ in at most one key |
| UsageSync.TwoSyncsFail | src/lib/key-usage-extraction.ts:157-179 | for any two contents that differ in more keys, a table and a run that end with neither's keys |
| UsageSync.TwoNeverFail | src/lib/key-usage-extraction.ts:157-179 | with two syncs, of any contents, the retry after a collision never collides |
| UsageSync.ThreeCanFail | src/lib/key-usage-extraction.ts:157-179 | three syncs, of {x, y}, {x} and {y}: a run in which the retry itself collides |
| ShellEscape.EscapeRoundTrip | src/lib/ssh.ts:27-29 | a shell that reads the escaped values joined by blanks gets back exactly those values, if and only if none holds a NUL |
| StampMap.EvictOldest | src/lib/response-cache.ts:81-85 | the deletion loop performs one eviction pass |
| StampMap.EvictIs | src/lib/last-active-throttle.ts:47-50 | one pass drops half of the entries, rounded down, none of them newer than one that stays, and changes none |
| StampMap.StoreBounded | src/lib/response-cache.ts:77-87 | a store keeps the map within its limit, or one entry, and brings in nothing but the new entry |
| ResponseCache.Cache.GetOrCompute | src/lib/response-cache.ts:90-107 | a fresh entry is served, a pending flight is joined, otherwise a compute starts |
| ResponseCache.Cache.StoreEntry | src/lib/response-cache.ts:77-87 | the entry is set, then the half that expires first goes if the map is too big |
| ResponseCache.SingleFlight | src/lib/response-cache.ts:94-106 | on every run a key has at most one unfinished flight, and a joined promise belongs to the caller's key |
| ResponseCache.StartsExactlyWhen | src/lib/response-cache.ts:90-106 | a call starts a compute exactly when no entry is fresh and every flight of the key is finished, so a rejection is retried |
| ResponseCache.HitIsFresh | src/lib/response-cache.ts:91-92 | a value served from memory at `now` is what a compute of the key fulfilled with that started less than ttlMs before; rejections are never stored |
| ResponseCache.ServedUntilExpiry | src/lib/response-cache.ts:77-106 | from its store on, through every continuation in which no store replaces the entry and no eviction picks it, a value is served exactly while less than ttlMs have passed since its compute was started |
| ResponseCache.StoreAdvances | src/lib/response-cache.ts:77-101 | what a store overwrites had expired when its compute was started |
| ResponseCache.SizeBoundedExactly | src/lib/response-cache.ts:79-86 | the map stays within maxEntries on every run if and only if maxEntries is at least 1 |
| ResponseCache.CacheInvisible | src/lib/response-cache.ts:89-107 | if computes depend only on the key, every caller that gets a value gets the one its own compute would give |
| LastActiveThrottle.Throttle.ShouldWriteNow | src/lib/last-active-throttle.ts:42-53 | the answer and the new map of one call |
| LastActiveThrottle.EarlyWriteMeansEviction | src/lib/last-active-throttle.ts:41-53 | two consecutive writes for an id within the window: an eviction from the first call on dropped the id and kept at least half of a full map, all other ids, none stamped earlier |
| LastActiveThrottle.RefusedMeansRecent | src/lib/last-active-throttle.ts:43-44 | a call is turned down only if the last write for its id was less than windowMs before |
| LastActiveThrottle.FewIdsExact | src/lib/last-active-throttle.ts:12-19 | while no more ids turn up than the map can hold, a call is answered with true if and only if the last write for its id was at least windowMs before |
| LastActiveThrottle.PromiseKeptExactly | src/lib/last-active-throttle.ts:12-19 | all runs over a set of ids, by a clock that does not run backwards, keep the promise of one write per id and window if and only if the map can hold an entry for each id, or the window is not positive |
| LastActiveThrottle.SizeBoundedExactly | src/lib/last-active-throttle.ts:45-51 | the map stays within maxEntries on every run if and only if maxEntries is at least 1 |
| ConnectionPool.SSHConnectionPool.BeginAcquire | src/lib/ssh.ts:508-522 | a healthy entry is reused and counted, a dead one is dropped |
| ConnectionPool.SSHConnectionPool.FinishAcquire | src/lib/ssh.ts:525-529 | a new connection replaces whatever the key has by then, with a count of 1 |
| ConnectionPool.SSHConnectionPool.CleanUp | src/lib/ssh.ts:566-582 | the sweep removes exactly the dead and the expired unused entries and closes the latter |
| ConnectionPool.PooledClient.Disconnect | src/lib/ssh.ts:671-676 | a handle is returned once, however often it is called |
| ConnectionPool.PooledClient.OnCallFailed | src/lib/ssh.ts:634-641 | a failed call evicts the key's entry if and only if the handle's connection is dead |
| ConnectionPool.NeverPinned | src/lib/ssh.ts:502-582 | on every run an entry counts at most the unreturned handles of its own connection; with all returned it counts none, and cleanup removes it after the idle time |
| ConnectionPool.CleanupLeaves | src/lib/ssh.ts:566-582 | a cleanup leaves exactly the live entries in use or not idle for too long, all still live, and closes only the connections of expired ones |
| ConnectionPoolIdle.LastUsedIs | src/lib/ssh.ts:511-550 | on every run the time on an entry is that of the latest acquire that reused it, connect that made it, or first return of a handle booked on its key |
| ConnectionPoolIdle.RecentlyUsedStays | src/lib/ssh.ts:545-582 | by a clock that does not go back, a cleanup leaves a live connection alone up to the idle time after every use, a return among them |
| ConnectionPoolIdle.UnusedGoesExactly | src/lib/ssh.ts:566-582 | with every handle returned a cleanup keeps a live connection if and only if some use lies within the idle time, and otherwise removes and closes it |
| ConnectionPoolIdle.StaysPooled | src/lib/ssh.ts:502-582 | a live connection stays pooled on every continuation that does not lose, evict or overwrite it and whose cleanups find it in use or used within the idle time |
| ConnectionPool.ExactWithoutStrays | src/lib/ssh.ts:545-582 | while no handle is returned after its key got another connection, counts are exact and idle cleanup closes no connection in use |
| ConnectionPool.StepExactly | src/lib/ssh.ts:545-551 | in a reachable state with exact counts, a step keeps them exact if and only if it is not a return that finds another connection than its own with a positive count |
| ConnectionPool.AlwaysExactExactly | src/lib/ssh.ts:545-551 | counts are exact all along a run if and only if the run has no such return |
| ConnectionPool.ReturnEndangersExactly | src/lib/ssh.ts:545-582 | a return leaves the live connection of its key open to being closed in use by its own holders' returns if and only if it is such a return |
| ConnectionPool.QuietRunsExact | src/lib/ssh.ts:502-582 | without overlapping connects for a key and without lost connections, counts are exact, every handle holds the live pooled connection, and idle cleanup closes none in use |
| ConnectionPool.QuietRunsLeakNone | src/lib/ssh.ts:502-582 | on such runs the live connections are exactly the pooled ones |
| ConnectionPool.OwnReturnsCloseExactly | src/lib/ssh.ts:545-582 | the holders of a live connection can return their handles one by one so that cleanup closes it under the last of them, exactly when the entry counts fewer users than it has |
| ConnectionPool.FailureHitsOtherExactly | src/lib/ssh.ts:557-563 | a failed call closes a live connection exactly when the key has been given a new one, never the failing handle's |
| ConnectionPool.OverlapClosesInUse | src/lib/ssh.ts:524-534 | a run with two overlapping connects after which idle cleanup closes a connection in use |
| ConnectionPool.StepLeaksExactly | src/lib/ssh.ts:502-582 | in a reachable state with nothing leaked, a step leaks a connection if and only if it is a connect that resolves while its key has a live entry |
| ConnectionPool.NeverLeaksExactly | src/lib/ssh.ts:502-582 | no connection is leaked all along a run if and only if the run has no such connect |
| ConnectionPool.OverlapLeaks | src/lib/ssh.ts:524-529 | after two overlapping connects the first connection is live and in no entry |
| ConnectionPool.LeakedForever | src/lib/ssh.ts:502-582 | nothing the pool does closes such a connection |
| ConnectionPool.LostConnectionClosesInUse | src/lib/ssh.ts:518-534 | a run without overlap, with one lost connection, that ends the same way |

## Left out

- Idempotency: the method and path filters, the header length check, hashing, and credential lookup; hashes and client keys are plain strings. Row ids are never reused, `createdAt` is the clock at the insert, and all readers share one clock that does not run backwards.
- IdempotencyHooks.Request.PreHandler: runs without interruption; what may come between its statements is the subject of `Idempotency`, whose steps use the same decision function. A database error other than the unique constraint appears only there.
- Downsample.DownsampleColumnar: sums, means and areas are exact; floating-point rounding, NaN and infinities are not modelled, nor that small inputs come back as the same objects.
- JsonNumber.NumberRoundTrip: a number is its shortest decimal digits; how they are found from the binary value is not modelled. The reader takes exponents with a small e only, which is all that is printed. `undefined`, `toJSON`, symbols and non-finite numbers are not JSON values and do not occur.
- ConfigScan: white space is JavaScript's, written out as a predicate; placeholders have the form `${KEY}`.
- ConfigFragments.IndexAgreesWithRendered: language names are lower-cased for ASCII letters only; rendering substitutes placeholders later, which is not part of this model.
- UsageSync: a sync that failed is not tried again; the environment column and database errors other than the unique constraint are left out. Binary files are syncs with no referenced key. The variable table follows the same steps as the secret table.
- ShellEscape.EscapeRoundTrip: the reader takes blanks, quotes and backslashes; any unquoted operator, expansion or pattern character makes it give up, so that a line that is more than words is not read as words.
- ResponseCache: `reset`, a `compute` that calls the cache for its own key before it returns, and a `compute` that throws instead of rejecting.
- LastActiveThrottle: `reset`.
- ConnectionPool: local connections, `stats`, `shutdown`, the connection itself and the cleanup timer; a connection that dies between connecting and being stored counts as lost right after.
- KeyedLock: the order in which ready promise reactions run is left open; the first-in first-out order of the microtask queue is one of those covered.
- KeyedLockProgress.EndsExactly: what a function awaits of other calls is a fixed set, which it has only once it runs; anything else it waits for is taken to come.
- Fastify, Prisma and SQLite beyond a unique constraint, updates and deletes by id that fail when the row is gone, and atomic single statements.
- Language detection, tag parsing, the scheduler, deployment plans, the agent, the command line client and the user interface.
