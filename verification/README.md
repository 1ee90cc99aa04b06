# Write path of the query-log sink, modelled and proved

A row enters the ingest buffer, waits in a channel, is batched, deduplicated by
query id, clamped to the statement budget (Trino only), split into chunks,
inserted, retried and finally stored or counted as dropped. This project models
that path, the read-through cache and the retention prune, and proves what they
promise. Verify everything with `dafny verify dfyconfig.toml`.

## How it is organised

| file | what it holds |
|---|---|
| ByteStrings.dfy, Sums.dfy | Go strings as bytes: decimals, quotes, string order; sums over sequences |
| Truncation.dfy | `truncate` and `runeSafeCut`, with UTF-8 well-formedness after section 4 of RFC 3629 |
| Rows.dfy | the 41-column row, its arguments, size estimates, `TruncateFields` |
| Chunking.dfy | `chunkRows`: greedy packing, its uniqueness and optimality |
| Clamping.dfy | `clampRow`: the shrinking loop and its iteration count |
| Splitting.dfy | `SplitBatch` of both backends and its stability under retries |
| Statements.dfy | the EXECUTE IMMEDIATE text and its length |
| Dedup.dfy | `dedupe` |
| Tokens.dfy | `batchToken` and `hashArg`: the token encoding and what it can tell apart |
| Delivery.dfy | logs of insert statements and what a server holds after them |
| Inserting.dfy | `InsertBatch` and `insert`: one attempt, against a store or any other writer |
| Backoff.dfy | the waits between attempts |
| Flushing.dfy | `flush`: one batch with its retries, and what it leaves on the server |
| BufferRuns.dfy | the buffer as a state machine of producers, flusher and closer |
| Storing.dfy | what the server holds during a run of the buffer, over all its flushes |
| Quoting.dfy, ListKeys.dfy | the %q verb, and the list keys built with it |
| CachedReads.dfy | the read-through cache |
| Pruning.dfy | the UTC calendar, partition names and both backends' prune |

Three kinds of environment appear as arguments, and every theorem is for all of
them. The server is a script that gives the fate of each statement: acknowledged,
failed, or applied although the client sees an error. The interleaving of
producers, ticks, close and flusher is an arbitrary list of enabled steps. The
cache's and the catalogue's answers are parameters of the reads and the prune.

Code that works in loops over changing state is a method proved equal to a
specification function or, for `flush`, to what the source promises of the log
and the counters; the theorems are lemmas about those functions and logs. For
each specification function there is a lemma that describes its result without
naming the function's own parts: by column names, byte values, dates,
configuration values or the row before and after.

## Findings

- A deduplication token cannot tell two times apart that differ by a multiple of
  2^64 nanoseconds, because `UnixNano` wraps. `Tokens.TokenDetermines` is the
  exact statement, `Tokens.TokenBlindToWrap` an example, and
  `Tokens.TokenInjectiveInRange` the guarantee for times an int64 can hold.
- The retry wait follows min(backoff * 2^k, maximum) only as long as no doubling
  overflows an int64. `Backoff.WaitsFollowFormula` gives the exact condition; it
  always holds for a maximum below 2^62 ns, and `Backoff.WaitOverflows` is a
  configuration for which it fails.
- For windows of whole seconds shorter than 292 years, equal list keys mean the
  same search over an equally wide window ending less than one TTL away if and
  only if the (positive) TTL is a second or more (`ListKeys.ListKeyExact`). With such a TTL,
  windows of fractional seconds that share a key are equally wide to within a
  second (`ListKeys.ListKeyWidth`), but not exactly (`ListKeys.ListKeyAliases`);
  widths of 292 years or more, such as of a window whose start is unset, all
  count as one.
- `Prune` on ClickHouse agrees with Trino's DELETE exactly when no row lies on
  the cutoff's own day before the cutoff (`Pruning.PrunesAgree`;
  `Pruning.PrunesDisagree` shows a row that is spared); the cutoffs that
  `prune.Run` computes are midnights, so there it always does
  (`Pruning.RunAgrees`).

## Model

| member | source | states |
|---|---|---|
| Truncation.RuneSafeCut | internal/store/truncate.go:35-42 | the loop returns the rune cut of its specification function |
| Truncation.RuneCutIsLargest | internal/store/truncate.go:35-42 | the cut is 0 or a rune start, and no byte between it and the requested cut starts a rune |
| Truncation.TruncateLoss | internal/store/truncate.go:14-42 | of valid UTF-8 it keeps a prefix of the cap less the marker's width and at most 3 bytes |
| Truncation.TruncateShape | internal/store/truncate.go:14-33 | the result is the input, a prefix, or a prefix plus a marker naming exactly the bytes removed, cut at the latest rune start that fits |
| Truncation.TruncateReads | internal/store/truncate.go:14-33 | where the cap leaves room for a marker, the text behind the prefix is a newline, an ellipsis and `[truncated N bytes]`, N being the plain decimal of the number of bytes missing |
| Truncation.TruncateBound | internal/store/truncate.go:14-33 | the result never has more than max(0, cap) bytes, although the marker's width depends on the cut |
| Truncation.TruncateIdempotent | internal/store/truncate.go:14-33 | truncating again with the same cap changes nothing |
| Truncation.TruncateValid | internal/store/truncate.go:14-42 | valid UTF-8 stays valid UTF-8, whatever the cap |
| Rows.ArgsInjective | internal/store/store.go:157-167 | the 41 arguments determine the row |
| Rows.ArgsColumns | internal/store/store.go:57-99 | column by column, by name: argument 12 is the create time, 13 the execution start, 14 the end, before them the first twelve strings, behind them the seventeen counters and the other nine strings |
| Rows.FieldLists | internal/store/truncate.go:44-62 | the two field lists together name each of the 21 strings exactly once |
| Rows.PointerColumns | internal/store/truncate.go:44-62 | the columns behind the pointers, by name and in order, so clampRow prefers plan, json_plan, query_text, error_message and inputs_json |
| Rows.TruncateFields | internal/store/truncate.go:64-79 | the two pointer loops cap every string field of its kind and nothing else |
| Rows.TruncateFieldsNames | internal/store/truncate.go:64-79 | by column name: five payloads are truncated to max, all other strings to the smaller of max and 16384, and a max of 0 or less changes nothing |
| Rows.TruncateFieldsCaps | internal/store/truncate.go:64-79 | each field obeys its cap, short fields and non-strings are untouched, validity is kept, a second pass is the identity |
| Rows.ArgsBytesSplit | internal/store/chunk.go:8-31 | the estimate is a fixed part of at most 684 bytes plus the strings' bytes and quotes |
| Rows.EstimatesExact | internal/store/chunk.go:8-31 | both estimates to the byte: 64 for each time there, 6 for each missing, 24 a counter, 4 and the bytes and quotes a string, 85 more for a Trino row |
| Rows.EstimateRowBytes | internal/store/trino.go:208-214 | the summing loop computes the row estimate |
| Chunking.ChunkRows | internal/store/chunk.go:33-53 | the packing loop returns the chunks of its specification function |
| Chunking.ChunksGreedy | internal/store/chunk.go:33-53 | chunks are non-empty, each row after a chunk's first was let in by the budget, each next chunk's first row was not, and together they are the input in order |
| Chunking.GreedyUnique | internal/store/chunk.go:36-53 | only one packing of a row sequence has those properties |
| Chunking.ChunksStable | internal/store/chunk.go:36-53 | re-chunking the rows of any run of consecutive chunks returns that run |
| Chunking.ChunksOptimal | internal/store/chunk.go:33-53 | no order-preserving split into chunks that fit or are single rows has fewer chunks |
| Clamping.FindLargest | internal/store/trino.go:225-230 | the inner loop finds the field its specification function names |
| Clamping.LargestAmongWins | internal/store/trino.go:216-230 | that field is the first in stringFields order among the longest, so payloads win ties |
| Clamping.ClampRow | internal/store/trino.go:222-243 | the clamp loop, with its cap and both early exits, computes Clamp, which ClampChain describes from outside |
| Clamping.ClampChain | internal/store/trino.go:216-243 | the result is reached by a chain of rows, each but the last over budget and followed by itself with only its first longest string truncated by the deficit or to half; the chain ends within the budget or with all strings empty, and for strings under 2^47 bytes never at the iteration cap |
| Clamping.ClampOnce | internal/store/trino.go:222-243 | if the excess is at most half of the longest string, exactly the excess is taken off that string and the other twenty are untouched |
| Clamping.ClampOnceKeeps | internal/store/trino.go:222-243 | of that string, if valid UTF-8, all is kept but the excess, the marker and at most 3 bytes |
| Clamping.ShrinkProgress | internal/store/trino.go:234-240 | an iteration on a row over budget strictly lowers the estimate, so the no-progress exit is dead, and reaches the budget or halves the largest field |
| Clamping.ShrinkKeepsMost | internal/store/trino.go:234-235 | an iteration keeps of the largest field all but the deficit, or half if that is more, less the marker and a split rune, and leaves the others alone |
| Clamping.ClampMeetsGoal | internal/store/trino.go:216-243 | for strings under 2^47 bytes the estimate ends at max(budget, the row with empty strings) at most, and the loop ends by itself: every iteration cap from 988 on gives the same row |
| Clamping.ClampFromKeeps | internal/store/trino.go:222-243 | clamping changes only strings, lengthens none and keeps UTF-8 validity |
| Clamping.ClampStable | internal/store/trino.go:216-243 | clamping a clamped row is the identity; a row within budget is untouched |
| Splitting.SplitBatch | internal/store/trino.go:156-166 | clamp every row, then chunk; for ClickHouse chunk alone: computes Split, which TrinoSplit and ClickHouseSplit describe in the configuration's terms |
| Splitting.TrinoSplit | internal/store/trino.go:156-166 | with the room MaxStatementBytes leaves beside 27 bytes, the insert prefix and its quotes, at least 4096: rows within the room are untouched, others clamped to it; chunks of several rows are within it, and each next chunk's first row would have exceeded it |
| Splitting.ClickHouseSplit | internal/store/clickhouse.go:261-263 | the rows as they are, in chunks filled in the same sense up to MaxBatchBytes of the argument estimate |
| Splitting.SplitKeepsRows | internal/store/trino.go:156-166 | the chunks hold the prepared rows, all of them, in order, none empty |
| Splitting.SplitOptimal | internal/store/chunk.go:33-53 | with each backend's own estimate, no order-preserving split of the prepared rows that obeys the budget has fewer chunks |
| Splitting.SplitSuffix | internal/ingest/buffer.go:190-195 | splitting the original rows from a chunk boundary on gives exactly the remaining chunks |
| Splitting.SplitStable | internal/store/insert_test.go:205-219 | splitting the rows of any run of chunks, clamped already, gives that run |
| Splitting.SplitChunkAlone | internal/store/insert_test.go:205-219 | a chunk splits into itself alone, so one buffer chunk is one commit |
| Splitting.TrinoChunksFit | internal/store/trino.go:156-166 | every Trino chunk's estimate is within the budget; no oversize single row remains |
| Statements.SerialBound | internal/store/chunk.go:8-31 | estimateArgBytes bounds a serialized argument plus separator |
| Statements.InsertTextGroups | internal/store/trino.go:182-190 | the insert text is the prefix and, for each row, one parenthesised group of 41 question marks, comma and blank between groups |
| Statements.StatementReads | internal/store/trino.go:143-194 | equal statements carry equal rows, up to times with the same literal: quoting lets no string pass for syntax |
| Statements.StatementBound | internal/store/trino.go:143-154 | the whole EXECUTE IMMEDIATE text is no longer than the framing plus the rows' estimates |
| Statements.StatementsFit | internal/store/trino.go:143-194 | the statement of every SplitBatch chunk is at most MaxStatementBytes long when the framing leaves 4096 bytes |
| Dedup.Dedupe | internal/ingest/buffer.go:245-257 | the loop with its index map computes first-occurrence order with last-occurrence rows |
| Dedup.DedupedIds | internal/ingest/buffer.go:245-257 | output ids are pairwise distinct, the id set is kept, no row is invented |
| Dedup.DedupedLatest | internal/ingest/buffer.go:245-257 | the row kept for an id is its last one in the batch |
| Dedup.DedupedOrder | internal/ingest/buffer.go:245-257 | of two output ids the earlier one first appeared in the batch before any occurrence of the later one |
| Dedup.DedupedOfDistinct | internal/ingest/buffer.go:245-257 | a batch without repeated ids is unchanged |
| Dedup.DedupedIdempotent | internal/ingest/buffer.go:245-257 | deduplicating twice is deduplicating once |
| Tokens.EncodeArgPrefix | internal/store/clickhouse.go:314-327 | an encoded argument can be read off the front of any byte string |
| Tokens.EncodingUnique | internal/store/clickhouse.go:305-327 | two argument lists are encoded alike if and only if they agree, times compared as wrapped nanoseconds |
| Tokens.SortContract | internal/store/clickhouse.go:300-304 | the order is by id, a permutation, and stable |
| Tokens.StableSortUnique | internal/store/clickhouse.go:300-304 | any stable sort by id gives this order |
| Tokens.BatchToken | internal/store/clickhouse.go:299-312 | the hashing loops feed the encoding of the sorted batch's arguments |
| Tokens.TokenDetermines | internal/store/clickhouse.go:299-327 | batches share a token if and only if their id-sorted rows agree up to the wrap-around of times |
| Rows.WrapCongruent | internal/store/clickhouse.go:320-321 | the wrapped time is the one int64 that differs by a multiple of 2^64 |
| Tokens.TokenInjectiveInRange | internal/store/clickhouse.go:299-327 | with times an int64 can hold, a shared token means the same sorted rows |
| Tokens.TokenBlindToWrap | internal/store/clickhouse.go:320-321 | a create time 2^64 ns later gives the same token |
| Tokens.TokenOfPermutation | internal/store/clickhouse.go:299-312 | with distinct ids the token is the same for every order of the batch |
| Tokens.TokenSharesId | internal/store/clickhouse.go:299-312 | batches with the same token have an id in common |
| Delivery.ResumesAt | internal/ingest/buffer.go:222-234 | in a resuming log every statement carries the chunk numbered by the acknowledgements before it |
| Delivery.ResumesConcat | internal/ingest/buffer.go:186-216 | an attempt on the remaining chunks continues the log of the earlier attempts |
| Delivery.ChunksHaveDistinctTokens | internal/store/clickhouse.go:279-312 | the chunks of a deduplicated batch have pairwise different tokens |
| Delivery.ServeHolds | internal/store/clickhouse.go:279-297 | a deduplicating server holds the acknowledged chunks, and the next one if it was applied without acknowledgement, each once and in order |
| Delivery.ExactlyOnce | internal/ingest/buffer.go:182-257 | once all chunks are acknowledged each deduplicated row is stored exactly once; before that, at most one chunk beyond the acknowledged ones |
| Delivery.AtLeastOnce | internal/store/trino.go:168-194 | without tokens the server stores each acknowledged chunk once plus a copy per lost acknowledgement |
| Inserting.Connection.InsertBatch | internal/store/trino.go:168-180 | sends its chunks in order up to the first failure and reports exactly the rows acknowledged before it, every answer being the server's; another writer answers for one call |
| Inserting.Connection.InsertChunks | internal/store/clickhouse.go:265-277 | the same for a given chunk list, with the partial-commit count; no answer is made up |
| Inserting.OneStatement | internal/ingest/buffer.go:224-231 | a chunk handed to InsertBatch goes out as one statement, and its failure reports no partial commit |
| Inserting.ChunksOfOther | internal/ingest/buffer.go:236-243 | another writer's own split is used unless it is empty, and then the rows go as one chunk |
| Inserting.PartialChunk | internal/ingest/buffer.go:222-234 | when a store fails inside a chunk, rows are left over, so a retry has something to send |
| Flushing.Buffer.Insert | internal/ingest/buffer.go:222-234 | one attempt, answered by the server throughout, walks the chunks of the remaining rows up to the first failure and returns the rows of the acknowledged chunks, plus for another writer what its failure claims |
| Flushing.FollowPass | internal/ingest/buffer.go:186-234 | with any other writer, an attempt leaves the rows behind the acknowledged chunks and the clipped claim, and the next attempt splits those |
| Flushing.ClipNearest | internal/ingest/buffer.go:189 | a claimed count stands for the possible count nearest to it |
| Flushing.ContinuePass | internal/ingest/buffer.go:188-195 | committed rows add up across attempts and never exceed the batch |
| Flushing.TryOnce | internal/ingest/buffer.go:188-195 | after an attempt the rest is still a suffix at a chunk boundary of the original split |
| Flushing.AttemptEnds | internal/ingest/buffer.go:196-216 | an attempt has at most one failure, its last statement, and that failure decides whether the flush goes on |
| Flushing.Buffer.Flush | internal/ingest/buffer.go:182-220 | for any writer: every answer in the log is the server's; flushed plus dropped is the deduplicated count; FlushFailed fires exactly when the last statement failed and FlushNonRetryable exactly when it failed for good; at most MaxRetries+1 failures, nothing after a final failure or a cancelled one, the waits of the schedule. On a store: the statements are the one chunk list in order, each repeated per failure, and flushed counts the acknowledged chunks. With another writer: each statement is the next chunk of what its reports left, and flushed is what they add up to |
| Backoff.WaitsFollowFormula | internal/ingest/buffer.go:185-215 | waits are min(RetryBackoff * 2^k, RetryMaxBackoff) up to the k-th if and only if no earlier doubling overflows |
| Backoff.WaitOverflows | internal/ingest/buffer.go:214 | with 2^62 ns for both settings the second wait is negative |
| Backoff.TotalWait | internal/ingest/buffer.go:185-215 | the timers of a flush run for at most MaxRetries * RetryMaxBackoff in all, a negative one counting as no wait |
| Flushing.ClickHouseFlush | internal/ingest/buffer.go:182-257 | with lost acknowledgements a recovered flush stored every deduplicated row exactly once; one that gave up stored the acknowledged chunks and at most the next |
| Flushing.TrinoFlush | internal/store/trino.go:168-194 | a recovered flush stored the clamped rows exactly once if and only if no acknowledgement was lost |
| Flushing.TrinoFlushStatementsFit | internal/store/trino.go:143-194 | no statement of any attempt exceeds MaxStatementBytes |
| BufferRuns.ReceiveKeeps | internal/ingest/buffer.go:152-156 | receiving keeps the invariant and hands over exactly the batches that reached BatchSize |
| BufferRuns.AddDecides | internal/ingest/buffer.go:107-117 | while the buffer is open a row is dropped exactly when the channel is full; a sent row goes to the channel's end, a dropped one only to the counter |
| BufferRuns.ReceiveTakes | internal/ingest/buffer.go:152-156 | a receive takes the oldest queued row, into the batch or, with the batch it completes, into flush |
| BufferRuns.TickFlushes | internal/ingest/buffer.go:157-158 | a tick can always fire at the select and hands over whatever is batched, in full |
| BufferRuns.StopStarts | internal/ingest/buffer.go:119-163 | Close closes stop, only that lets the flusher drain, and nothing else changes |
| BufferRuns.FlushCanReturn | internal/ingest/buffer.go:182-220 | for every writer and batch there is a way to end that Flush's contract allows |
| BufferRuns.StepKeeps | internal/ingest/buffer.go:107-180 | every enabled step of producer, closer or flusher keeps the invariant |
| BufferRuns.BufferSafe | internal/ingest/buffer.go:107-220 | in every reachable state the enqueue history is the handed batches, the batch and the channel in order; every enqueued row is flushed, dropped, collapsed, in flush, batched or queued; sizes are bounded |
| BufferRuns.RunAdds | internal/ingest/buffer.go:107-117 | every Add is counted once, as enqueued or as dropped |
| BufferRuns.AfterDone | internal/ingest/buffer.go:135-180 | after run returns, exactly the rows enqueued before drain saw the channel empty were handed to flush, and all later ones are still queued |
| BufferRuns.CleanShutdown | internal/ingest/buffer.go:119-180 | without an Add after stop nothing is left in channel or batch |
| BufferRuns.DrainProgress | internal/ingest/buffer.go:159-180 | a draining flusher can always move, and each of its moves lowers a measure led by the channel length |
| BufferRuns.DrainTerminates | internal/ingest/buffer.go:159-180 | left alone, it returns within that many moves |
| BufferRuns.StopReachesDone | internal/ingest/buffer.go:135-180 | from every state that keeps the invariant and has stop closed the flusher alone can run to its end |
| BufferRuns.CatchesUp | internal/ingest/buffer.go:150-158 | while the buffer is open, receives, ticks and flushes alone can bring every accepted row into a flush |
| Storing.FlushesStore | internal/ingest/buffer.go:182-257 | over any sequence of flushes to ClickHouse with fresh tokens, the server holds what each flush took, in order |
| Storing.TakenCounts | internal/ingest/buffer.go:182-220 | what a flush took is a prefix of its deduplicated batch: all of it if it recovered, else the rows it counted as flushed plus at most one chunk |
| Storing.BufferStores | internal/ingest/buffer.go:107-257 | at any point of any run the table holds its earlier rows followed by what each finished flush took, in the order the batches were handed over |
| Storing.BufferCounts | internal/ingest/buffer.go:107-257 | the table gained at least Flushed and at most Flushed plus the rows flushes dropped; exactly Flushed when no chunk is in doubt |
| Storing.DistinctBatches | internal/store/clickhouse.go:279-312 | when no query id is in two batches of the run, no token repeats |
| Quoting.QuotedPrefix | internal/store/cache.go:136 | a %q literal, of any bytes and whatever runes are printable, can be read off the front of a string |
| ListKeys.KeyTailUnique | internal/store/cache.go:136-137 | the unquoted sort key cannot be confused with the fields after it |
| ListKeys.ListKeyUnique | internal/store/cache.go:132-140 | keys are equal if and only if the search fields and both printed second counts are |
| ListKeys.BucketBounds | internal/store/cache.go:134 | the bucket's end is a multiple of the TTL, at most a TTL before the window's end |
| ListKeys.BucketEdges | internal/store/cache.go:133-135 | without a TTL the window's end is its own bucket; widths beyond a Duration are saturated, and the most negative one keeps its sign when negated |
| ListKeys.ListKeyBucket | internal/store/cache.go:132-140 | with a TTL of a second or more, equal keys mean the same bucket and ends less than a TTL apart, for any windows |
| ListKeys.ListKeyWidth | internal/store/cache.go:132-140 | and the widths, capped at a Duration, differ by less than a second |
| ListKeys.ListKeyWindow | internal/store/cache.go:132-140 | for windows of whole seconds and a TTL of a second or more, keys are equal if and only if search, width and bucket are |
| ListKeys.ListKeyExact | internal/store/cache.go:132-140 | windows of whole seconds that share a key are interchangeable if and only if the TTL is a second or more |
| ListKeys.ShortTTLAliases | internal/store/cache.go:132-140 | for every positive TTL below a second, two windows that share a key although their ends are a TTL apart |
| ListKeys.ListKeyAliases | internal/store/cache.go:132-140 | two pairs of windows, one of fractional and one of very large width, that share a key |
| CachedReads.CacheKeyKinds | internal/store/cache.go:139-144 | list keys and query keys never meet |
| CachedReads.CachedStore.GetCached | internal/store/cache.go:96-116 | a hit is a value that decodes, which the inner store gave earlier under the same key; every lookup is counted as a hit, a miss or an error, once |
| CachedReads.CachedStore.Serve | internal/store/cache.go:66-94 | every result is the inner answer to this read or an earlier one under the same key; errors and missing rows are passed on and never written; over the run hits, misses and errors count each read once, failed Sets apart, and each read moves exactly the counters its outcome names |
| CachedReads.CachedStore.SetCached | internal/store/cache.go:118-130 | an entry is written only from an inner answer that can be encoded, under that read's key, and exactly a failed Set of such an entry counts as an error |
| CachedReads.StaleBound | internal/store/cache.go:66-140 | with a list TTL of a second or more, a cached list was the inner answer to the same search over a window of the same width ending less than a TTL away; a cached row is the row asked for |
| Pruning.EpochDay | internal/store/clickhouse.go:479-481 | the day count reaches 1 January 1970 at the Unix epoch |
| Pruning.DayOfDate | internal/store/clickhouse.go:479-481 | counting days reaches every Gregorian date at the number its closed form gives |
| Pruning.PartitionName | internal/store/clickhouse.go:479-481 | at any instant of a UTC date the name is its year in four digits, month from 1 in two and day in two |
| Pruning.PartitionOrder | internal/store/clickhouse.go:451-481 | partition names compare as strings exactly as their days do |
| Pruning.Table.PartitionsBefore | internal/store/clickhouse.go:465-476 | a listing with a name that is not eight digits is refused as a whole |
| Pruning.Table.Prune | internal/store/clickhouse.go:438-449 | succeeds exactly when listing, names and drops are all good, and leaves the rows outside the partitions dropped so far |
| Pruning.PrunedRows | internal/store/trino.go:312-318 | DELETE leaves every row from the cutoff on as often as it was there and none before it |
| Pruning.PrunesAgree | internal/store/trino.go:312-318 | a finished prune equals Trino's DELETE if and only if no row is on the cutoff's day before the cutoff |
| Pruning.PrunesDisagree | internal/store/clickhouse.go:451-463 | a row of the cutoff's own day, before the cutoff, which DELETE removes and a partition drop spares |
| Pruning.PartialPrune | internal/store/clickhouse.go:443-447 | an unfinished prune dropped only rows before the cutoff, older days first |
| Pruning.Run | internal/prune/prune.go:18-29 | a negative retention is refused untouched; it succeeds exactly when listing, names and drops are all good, and then leaves what Trino's DELETE would; otherwise the partitions dropped so far are gone |
| Pruning.RunAgrees | internal/prune/prune.go:18-38 | the cutoff Run computes is a UTC midnight, for which both backends prune the same rows |
| Pruning.CutoffIs | internal/prune/prune.go:31-38 | the cutoff is a UTC midnight, less than a day before retentionDays days ago |
| Pruning.RetentionKept | internal/prune/prune.go:18-38 | no row within the retention is deleted, and every row a day older than it is |

## Left out

- SHA-256 and hex: taken to be injective, so a token is its encoding and a list key its canonical string.
- Database, driver and Redis internals: the server's answers are a script, the driver's timestamp literals are any of at most 50 bytes, one insert is atomic and no token leaves the window during a flush.
- sort.SliceStable: not modelled as an in-place algorithm; any stable sort returns the same order, which is proved.
- Truncation.TruncateValid: invalid input is only covered by the shape and bound lemmas, as the code promises nothing about its validity.
- Clamping.ClampMeetsGoal: strings of 2^47 bytes or more, which no process can hold, may run into the iteration cap.
- BufferRuns.StepKeeps: `run` and `drain` are steps of a state machine rather than loops over a channel object, and a flush is two steps, the second ending it in any way that Flush's contract allows; nothing of it is visible between them.
- Flushing.Buffer.Flush: cancellation takes effect between answered statements, stop's shortening of a wait is not recorded, and flush timestamps are not kept.
- Configuration defaults: what `New`, `NewTrino` and `NewClickHouse` put in for unset values; the configured ranges of `internal/config/config.go` are assumed.
- Error classification: which server errors are non-retryable is part of the script.
- Printable runes: which of them %q leaves unescaped is a parameter.
- Statements.StatementReads: times are told apart only as far as the driver's literals tell them apart; that a literal starts with a T and holds no comma is assumed.
- JSON encoding in the cache: any codec whose decoder inverts its encoder; cached bytes that decode are bytes that were written under that key.
- Expiry in the cache: an entry may vanish at any time, and how long it may be served is not bounded.
- Column names and the insert prefix built from them (any prefix is allowed), DDL, listing queries, HTTP handlers, readiness, metrics text, the CLI, maintain and optimize: straight-line or I/O code.
- Years outside 0 to 9999: their partition names do not have eight digits.
