# Verified models of donto-memory's stateful algorithms

This project models, in Dafny, the parts of donto-memory in which a mistake
would lose, duplicate or misreport memories, and proves what they promise:

- **Salvage of truncated responses** (`JsonText`, `Salvage`, `SalvageCuts`,
  `Truncation`, `DocumentSalvage`, `PythonSalvage`, `Fence`). JSON texts
  (RFC 8259) are concrete syntax that keeps its white space and escapes; the
  scanner is proved to invert their printer on every prefix. The per-object
  parser is a parameter.
- **Identity of facts** (`ContentKey`, `MultiPass`): the content key and the
  merge loops of the multi-pass extractors.
- **Recall** (`Fusion`, `FusionLaws`, `Bundle`, `HotPath`, `MemoryState`):
  reciprocal-rank fusion over exact reals, the top of the fused list, the writes
  each returned row causes, and the bitemporal state table they drive.
- **The reconsolidation queue** (`Reconsolidation`, `SleepPath`,
  `LeaseProtocol`, `WorkerRuns`): coalescing enqueue, prioritised leases,
  completion; the worker loop; and every interleaving of any number of workers.
  `WorkerRuns` shows that the loop is a run of the protocol.
- **Deferred memorize requests** (`JobLog`, `Lifecycle`): the audit log as a
  queue, with handlers, background tasks, workflows elsewhere, crashes, the
  startup sweep, retention and the drain-safe snapshot.
- **Prefix search** (`LikePrefix`): the LIKE escape of `/search`.

Tables are fields of classes or values, SQL statements and transactions are
atomic steps, clocks and failures are parameters. `dafny verify dfyconfig.toml`
checks everything.

## Where the code does less than its comments say

The models follow the code. Where a promise fails, the failure is stated beside
the condition under which the promise holds.

- The worker's scanner counts braces inside strings and can lose facts by it
  (`PythonSalvage.BraceInStringLosesFact`; `PythonSalvage.PythonObjectsExact` and
  `PythonSalvage.ScannersAgreeExactly` for the exact condition), and skips refused
  objects where the extractor stops (`PythonSalvage.ScannersAgree`).
- A separator byte in a subject or predicate makes different facts one
  (`ContentKey.SeparatorCollision`; `ContentKey.KeyIsUnique` for the exact condition).
- A bump not later than the open version closes it to an empty range, which the
  table's constraint rejects; the transaction fails (`MemoryState.StateTable.BumpState`).
- A request the gateway did not confirm may run twice, once as a workflow and
  once in the process; the workflow's completion then hides the running task from
  the snapshot (`Lifecycle.DrainSafeCanMissATask`, `Lifecycle.TaskIsPending`).
- The gateway answers 409 to every error of starting a workflow
  (`worker/worker.py:81-88`), which the API takes for a duplicate
  (`crates/donto-memory/src/api/routes/memorize.rs:197-198`). Such a request is
  durable by name only and stays pending (`Lifecycle.ConfirmedButNeverRun`, with
  `Lifecycle.DurableWaitsForWorkflow` for the exact condition).
- A workflow can report before the handler writes the queued row. Retention can
  then separate the two rows: the request looks pending again or is declared lost
  (`Lifecycle.PrunedCompletionRevives`, `Lifecycle.CompletedYetLost`, with
  `JobLog.PruneRevives` and `Lifecycle.LostMeansForgotten` for the exact conditions).
- A restart within 60 seconds of a crash sweeps too early, and the request waits
  for the next restart (`JobLog.SweepIsExact`, `Lifecycle.QuickRestartLeavesOrphan`).
- The preview of a response that yields nothing is cut at byte 400, which panics
  inside a character (`Salvage.PreviewCanFail`; `Salvage.PreviewIsSliceable` for the
  exact condition).

## Model

| member | source | states |
|---|---|---|
| `Salvage.WalkObject` | crates/donto-memory-core/src/extract.rs:1124-1155 | The inner loop stops just past the brace that closes the object it started at, or reports that the text ends first. |
| `Salvage.NextObject` | crates/donto-memory-core/src/extract.rs:1116-1155 | Skipping blanks, tabs, line feeds, form feeds, carriage returns and commas and walking on finds the next complete object, or that there is none. |
| `Salvage.FindIsFirst` | crates/donto-memory-core/src/extract.rs:1108-1111 | The position used for the key and for the bracket is the first occurrence: none stands before it, and none at all if the search fails. |
| `Salvage.AfterAsciiIsBoundary` | crates/donto-memory-core/src/extract.rs:1156-1156 | In UTF-8 text a one-byte character starts and ends on character boundaries, so the slice of an object never panics. |
| `Fence.EncodedIsCharacter` | crates/donto-memory-core/src/extract.rs:1156-1156 | The UTF-8 encoding of a code point below 0x10000 is text without a boundary inside. |
| `Salvage.FindArray` | crates/donto-memory-core/src/extract.rs:1108-1111 | The bracket is searched in the slice that starts at the key, which is on a character boundary; the position found is the array start. |
| `Salvage.ArrayStartIs` | crates/donto-memory-core/src/extract.rs:1108-1111 | Byte for byte: there is no array exactly if no 0x5B stands at or after the first key, and otherwise it starts right after the first one that does. |
| `Salvage.RecoverTruncatedFacts` | crates/donto-memory-core/src/extract.rs:1105-1163 | The nested loops terminate on every UTF-8 input, take every slice on character boundaries, and return the salvage that `ScanByBytes` and `DocumentRoundTrip` characterise: the parsed objects after the array start, up to the first refused one. |
| `Salvage.ScanByBytes` | crates/donto-memory-core/src/extract.rs:1115-1155 | Byte for byte: 20, 09, 0A, 0C, 0D and 2C are passed over, 7B starts an object that is taken if it is complete, and anything else ends the scan. |
| `Salvage.BoundaryIsWhole` | crates/donto-memory-core/src/extract.rs:840-840 | A prefix of UTF-8 text ends on a character boundary if and only if it is UTF-8 itself. |
| `Salvage.PreviewIsSliceable` | crates/donto-memory-core/src/extract.rs:836-842 | The preview logged when nothing is salvaged can be taken if and only if the text has at most 400 bytes or its first 400 hold whole characters. |
| `Salvage.PreviewCanFail` | crates/donto-memory-core/src/extract.rs:836-842 | A response from which nothing is salvaged and whose preview cannot be taken. |
| `SalvageCuts.FirstObjectCut` | crates/donto-memory-core/src/extract.rs:1117-1155 | Cutting a text at k keeps the next object exactly if it ends at or before k. |
| `SalvageCuts.ArrayStartCut` | crates/donto-memory-core/src/extract.rs:1108-1111 | Cutting a text at k keeps the array start exactly if the bracket is before k; it never invents another one. |
| `SalvageCuts.RecoverCut` | crates/donto-memory-core/src/extract.rs:1105-1163 | For any text, JSON or not, and any cut: the salvage is the parse of exactly the objects that end before the cut. |
| `SalvageCuts.PrefixMonotone` | crates/donto-memory-core/src/extract.rs:1105-1163 | For any text: what a shorter prefix yields is a prefix of what a longer one yields. |
| `Truncation.ValueLevel` | crates/donto-memory-core/src/extract.rs:1124-1155 | Walking over any printed JSON value, with nested arrays and objects and strings holding quotes, backslashes and braces, returns to the same nesting depth outside strings without closing the surrounding object. |
| `Truncation.PrintedObjectEnds` | crates/donto-memory-core/src/extract.rs:1124-1155 | The walk over a printed object ends exactly where its printed text ends. |
| `Truncation.PrintedArrayStart` | crates/donto-memory-core/src/extract.rs:1108-1111 | In a printed response the array start found is the one that was printed, whatever the white space and the facts. |
| `Truncation.PrintedObjects` | crates/donto-memory-core/src/extract.rs:1114-1163 | The objects found in a printed response, with white space (form feed included) and commas between them, are the printed texts of its facts, in order, and those that survive a cut are those whose text ends by it. |
| `Truncation.TruncationRoundTrip` | crates/donto-memory-core/src/extract.rs:1105-1163 | The scanner inverts the printer on every prefix: for every list of objects, any white space and commas between them, any spelling of the response and every cut, it returns the facts of exactly the objects printed completely before the cut. |
| `Truncation.SalvagedFacts` | crates/donto-memory-core/src/extract.rs:1105-1163 | When the parser takes every printed object, the salvage of a cut response is the list of facts cut at the number of complete ones. |
| `DocumentSalvage.DocumentRoundTrip` | crates/donto-memory-core/src/extract.rs:1105-1163 | For every JSON document (RFC 8259) whose first member is an array of objects named facts, whatever follows it, and every cut: the salvage is the parse of exactly the elements whose text, in the printed document, ends by the cut, up to the first refused one. |
| `DocumentSalvage.ExampleSalvage` | crates/donto-memory-core/src/extract.rs:1105-1163 | In characters: of two objects parted by a comma both are salvaged, and one when the text ends before the last brace. |
| `Fence.DropInert` | crates/donto-memory-core/src/extract.rs:1165-1175 | Dropping a start of the text that holds no quote, brace or bracket does not change the salvage. |
| `Fence.TakeInert` | crates/donto-memory-core/src/extract.rs:1165-1175 | Dropping such an end does not change it either. |
| `Fence.StrippingKeepsFacts` | crates/donto-memory-core/src/extract.rs:1165-1175 | On every input, fenced or not, complete or cut, salvage after the fence is stripped equals salvage before. |
| `Fence.SpacesAreUnicode` | crates/donto-memory-core/src/extract.rs:1165-1175 | The characters trimmed are exactly the UTF-8 encodings of the code points with the Unicode property White_Space. |
| `Fence.FencedTextComesBack` | crates/donto-memory-core/src/extract.rs:1165-1175 | White space, a fence with or without its language, white space, a text, white space, closing fences, white space: what is left is the text. |
| `Fence.PlainTextComesBack` | crates/donto-memory-core/src/extract.rs:1165-1175 | A text that starts and ends without fence or white space comes back from under any white space around it. |
| `PythonSalvage.SalvageElements` | worker/extraction.py:108-131 | The loop of the worker returns every object its brace counter delimits and the parser takes, skipping the refused ones. |
| `PythonSalvage.PythonObjectsExact` | worker/extraction.py:116-131 | On every cut of every printed response: the texts found are the complete objects if and only if, with braces in strings counted too, each complete object balances at its end and not before and the rest never balances at a closing brace. |
| `PythonSalvage.BraceFreeAgrees` | worker/extraction.py:116-131 | Every cut of a response without braces in strings, and without an opening brace after its array, is such a one. |
| `PythonSalvage.PythonTruncation` | worker/extraction.py:108-131 | On such a cut the worker keeps all complete objects that parse. |
| `PythonSalvage.StopOrSkip` | worker/extraction.py:125-130 | Stopping at the first refusal and skipping refusals agree exactly when no accepted text follows a refused one. |
| `PythonSalvage.ScannersAgree` | worker/extraction.py:108-131 | On such a cut both scanners return the same facts if and only if no complete object that parses follows one that does not. |
| `PythonSalvage.ScannersAgreeExactly` | worker/extraction.py:108-131 | Both scanners agree under every parser that refuses no complete object before one it takes if and only if the cut is such a one. |
| `PythonSalvage.BraceInStringLosesFact` | worker/extraction.py:116-131 | From a response cut before its last brace, with a closing brace inside a string, the worker loses an object that the extractor keeps. |
| `LikePrefix.EscapeIsQuote` | crates/donto-memory/src/api/routes/search.rs:111-114 | The three replacements in sequence are one simultaneous map that quotes each metacharacter once. |
| `LikePrefix.LiteralPrefix` | crates/donto-memory/src/api/routes/search.rs:107-126 | Under LIKE with ESCAPE, a context matches the built pattern if and only if the prefix, read literally, is a prefix of it; the pattern is never malformed. |
| `LikePrefix.UnderscoreMatchesAny` | crates/donto-memory/src/api/routes/search.rs:107-126 | Why the escape is needed: a bare underscore matches any one character, an escaped one only itself. |
| `ContentKey.KeyIsInjective` | crates/donto-memory-core/src/extract.rs:151-169 | On facts whose subject and predicate hold no byte 0x1F, the hashed bytes agree if and only if subject, predicate and object do, the object being the IRI if either fact has one and the literal otherwise. |
| `ContentKey.SeparatorCollision` | crates/donto-memory-core/src/extract.rs:151-169 | Every fact with a separator byte in its subject or predicate shares its hashed bytes with a fact of another subject. |
| `ContentKey.KeyIsUnique` | crates/donto-memory-core/src/extract.rs:151-169 | For every fact, and whatever texts literals have: no different triple shares its hashed bytes if and only if subject and predicate hold no separator and no separator in the object is followed by the bytes of an object. |
| `ContentKey.SeparatorsDecide` | crates/donto-memory-core/src/extract.rs:151-169 | So for an object without separators: if and only if subject and predicate hold none. |
| `ContentKey.LiteralsAreSafe` | crates/donto-memory-core/src/extract.rs:162-166 | A literal is JSON text, which holds no separator: so for every fact without an IRI as object it is the subject and the predicate that decide. |
| `MultiPass.DedupKeepsFirst` | crates/donto-memory-core/src/extract.rs:506-516 | The deduplicated list consists of exactly the first occurrences of each key, in order. |
| `MultiPass.FirstOccurrencesUnique` | crates/donto-memory-core/src/extract.rs:506-516 | No other list does. |
| `MultiPass.DedupByTriple` | crates/donto-memory-core/src/extract.rs:506-516 | For facts without separator bytes: kept facts are pairwise different triples, and every triple is kept once. |
| `MultiPass.YieldedFrom` | crates/donto-memory-core/src/extract.rs:506-516 | What goes into the dedup is exactly what the successful calls reported, each fact labelled with the number of its call, or in an aperture with the label it came with if it had one. |
| `MultiPass.RawIsYielded` | crates/donto-memory-core/src/extract.rs:490-527 | The facts concatenated from the successful passes are as many as the raw counts add up to; failed passes add none. |
| `MultiPass.MergedUsageMore` | crates/donto-memory-core/src/extract.rs:188-194 | Merging one more usage report keeps each counter the sum of the parts modulo 2^32. |
| `MultiPass.MergeFacts` | crates/donto-memory-core/src/extract.rs:506-516 | One pass over new facts extends the first-occurrence dedup, and kept plus collided facts are all facts. |
| `MultiPass.ExtractExhaustive` | crates/donto-memory-core/src/extract.rs:483-537 | The result is the dedup of the concatenated successful yields; kept facts plus collisions equal the raw facts; usage is the sum of the parts. |
| `MultiPass.ExtractDeep` | crates/donto-memory-core/src/extract.rs:562-690 | The same for sequential passes, each of which is shown the 300 most recent of the facts kept so far (1007-1012); one pass if none is asked for, ten if more than ten are. |
| `Fusion.AddRow` | crates/donto-memory-core/src/fusion.rs:17-33 | One more row keeps the accumulator: score the exact sum of weights, kept row the best-ranked and, among equals, the earliest. |
| `Fusion.IntoValues` | crates/donto-memory-core/src/fusion.rs:36-36 | The rows of the accumulator come out in the order of their statement ids. |
| `Fusion.SortOrdered` | crates/donto-memory-core/src/fusion.rs:37-42 | The stable sort of rows in id order puts them in order of descending score, ties by id. |
| `Fusion.RrfFuse` | crates/donto-memory-core/src/fusion.rs:13-47 | The loops and the sort return a fused list: one row per statement, with its exact score, its best-ranked row, ordered and ranked from 1. |
| `FusionLaws.ScoreOfOneRow` | crates/donto-memory-core/src/fusion.rs:18-20 | A single row scores its statement the inverse of k plus its rank, and other statements nothing. |
| `FusionLaws.FusedRow` | crates/donto-memory-core/src/fusion.rs:21-46 | Row i is ranked i + 1 and otherwise a row of its statement of which none has a better rank, and no earlier one as good a rank; a missing rank counts as 1. |
| `FusionLaws.FusedOrder` | crates/donto-memory-core/src/fusion.rs:37-42 | Along the fused list scores fall, and rows of equal score are in the order of their statement ids. |
| `FusionLaws.FusionIsUnique` | crates/donto-memory-core/src/fusion.rs:13-47 | Only one list is a fused list of given rows. |
| `FusionLaws.ScoreOfPermutation` | crates/donto-memory-core/src/fusion.rs:15-33 | Scores do not depend on the order of the rows. |
| `FusionLaws.GroupingDoesNotMatter` | crates/donto-memory-core/src/fusion.rs:13-47 | Ids, scores and ranks do not depend on how the rows are split or ordered among modules. |
| `FusionLaws.BetterRanksScoreHigher` | crates/donto-memory-core/src/fusion.rs:18-33 | Ranks that meet other ranks one for one, in any order, with better or equal ones score at least as high, and higher with a rank more or a better one. |
| `FusionLaws.BetterInModulesScoresHigher` | crates/donto-memory-core/src/fusion.rs:15-33 | A statement ranked at least as well as another in every module scores at least as high, and higher if some module ranks it better or surfaces it in addition. |
| `FusionLaws.BetterRanksComeFirst` | crates/donto-memory-core/src/fusion.rs:15-46 | In the second case it comes out first. |
| `FusionLaws.TwoRanksOutweighOne` | crates/donto-memory-core/src/hot_path.rs:69-69 | Two ranks up to k + 1 outweigh any single rank. |
| `FusionLaws.NextRankTies` | crates/donto-memory-core/src/hot_path.rs:69-69 | The bound is tight: two ranks of k + 2 only tie with one first place. |
| `FusionLaws.AgreementWins` | crates/donto-memory-core/src/hot_path.rs:69-69 | With k = 60, a statement with any two votes at ranks up to 61 comes before every statement surfaced once. |
| `MemoryState.TableMore` | crates/donto-memory-core/src/overlays.rs:604-634 | Closing the open row and appending the next one is what one more bump does to the table of the whole history. |
| `MemoryState.StateTable.FindOpen` | crates/donto-memory-core/src/overlays.rs:604-611 | The query meets at most one open row, that of the latest bump, and none only for a record never bumped. |
| `MemoryState.StateTable.BumpState` | crates/donto-memory-core/src/overlays.rs:598-637 | The transaction commits exactly if the clock is later than every earlier bump of the record; it then adds that bump to the history, and otherwise changes nothing. |
| `MemoryState.TimeTravel` | migrations/0001_memory_overlays.sql:160-174 | At every instant at most one version of a record is in force, none before its first bump and one from then on; it carries the number of bumps up to that instant and the sum of their deltas. |
| `MemoryState.OneOpenVersion` | migrations/0001_memory_overlays.sql:155-174 | A record that was bumped has exactly one open version, with its count and sum so far. |
| `HotPath.FindRecord` | crates/donto-memory-core/src/overlays.rs:530-549 | The record found is anchored to the statement and none anchored to it is later; none is found only if there is none. |
| `HotPath.DistinctRecords` | crates/donto-memory-core/src/overlays.rs:530-549 | Distinct statements resolve to distinct records. |
| `HotPath.Overlays.RecordAccess` | crates/donto-memory-core/src/overlays.rs:573-594 | An access event is appended with its instant, or nothing happens if the write failed; only retrievals count for the state. |
| `HotPath.Overlays.Track` | crates/donto-memory-core/src/hot_path.rs:101-129 | The writes of one returned row: what is found, logged and bumped under each failure, and that log and state stay those of the tracked retrievals. |
| `HotPath.Overlays.Bookkeep` | crates/donto-memory-core/src/hot_path.rs:92-150 | One bundle bumps each record at most once, tags each row with its own record, and keeps log and state in balance; no write is lost if all reach the tables and the clock is past the earlier bumps. |
| `HotPath.LogAndStateBalance` | crates/donto-memory-core/src/hot_path.rs:112-129 | At every instant, whatever writes fail: accesses logged and lost by then are the bumps made, lost and still to come. |
| `HotPath.StateAgreesWithLogAt` | crates/donto-memory-core/src/hot_path.rs:112-129 | When no write was lost, the version in force at any instant carries the number of retrievals logged by then, less those whose bump is still to come: the two agree there if and only if none is. |
| `HotPath.StateAgreesWithLog` | crates/donto-memory-core/src/hot_path.rs:112-129 | And the open version of a recalled record carries exactly the number of its retrievals in the access log. |
| `HotPath.SalienceFollowsRecalls` | crates/donto-memory-core/src/hot_path.rs:121-129 | Every version of every record has a tenth of its recall count as salience. |
| `Bundle.Select` | crates/donto-memory-core/src/hot_path.rs:28-32 | The modules asked are the named ones that exist, each as often as named and in that order, or all of them in the order of their IRIs. |
| `Bundle.FanOut` | crates/donto-memory-core/src/hot_path.rs:46-66 | The modules asked and no others are in the map; each holds the very rows its last retrieval returned, none if that failed. |
| `Bundle.LastAnswer` | crates/donto-memory-core/src/hot_path.rs:53-66 | The same of the map that the further theorems speak of. |
| `Bundle.Fuse` | crates/donto-memory-core/src/hot_path.rs:53-69 | What is fused are the rows of the modules in IRI order. |
| `Bundle.ComposeBundle` | crates/donto-memory-core/src/hot_path.rs:18-166 | The bundle is the top of the fused rows with the record of each row, each record is bumped at most once, and log and state stay balanced, with nothing lost if every write succeeds. |
| `Bundle.FusedStatements` | crates/donto-memory-core/src/hot_path.rs:53-69 | The fused list has a row for exactly the statements that the last answer of some asked module surfaced. |
| `Bundle.ReturnedRow` | crates/donto-memory-core/src/hot_path.rs:92-150 | A returned row is the fused row, with the IRI of a record anchored to its statement if there is one and its lookup succeeded. |
| `Bundle.BundleConstant` | crates/donto-memory-core/src/hot_path.rs:69-69 | With the constant the bundle uses, two votes up to rank 61 outrank a first place and two at rank 62 tie with it. |
| `Bundle.TopIsBest` | crates/donto-memory-core/src/hot_path.rs:69-74 | Ranks rise strictly along the bundle; it holds distinct permitted rows, at most as many as the limit and none if that is not positive; every permitted row that is missing ranks below all of it, and is missing only if the bundle has as many rows as the limit. |
| `Bundle.LargerLimitAppends` | crates/donto-memory-core/src/hot_path.rs:73-74 | A larger limit only appends rows; a negative one counts as zero. |
| `Bundle.NamingTwice` | crates/donto-memory-core/src/hot_path.rs:53-69 | When modules answer alike each time, naming one twice gives it no second vote: the fused lists are equal. |
| `Bundle.FailedModuleAddsNothing` | crates/donto-memory-core/src/hot_path.rs:57-69 | Fusing with a module that failed gives the same list as fusing what the others answered. |
| `Reconsolidation.Queue.Enqueue` | crates/donto-memory-core/src/overlays.rs:642-675 | The request joins the latest open row of its key that is at most a window earlier, or is added as a new row if there is none; `JoinsOrAdds` spells this out. |
| `Reconsolidation.Queue.ClaimNextBatch` | crates/donto-memory-core/src/overlays.rs:686-724 | A claim takes a batch as `ClaimTakes` describes it and reports each row of it once, with its record, reason and priority; a negative limit fails and changes nothing. |
| `Reconsolidation.ClaimTakes` | crates/donto-memory-core/src/overlays.rs:686-724 | The rows taken are unfinished, due, not locked, and never claimed or claimed more than the time to live ago. If such a row is left behind, the limit was reached, and it has lower priority than every row taken, or the same and is due no earlier. Exactly the rows taken are stamped. |
| `Reconsolidation.Queue.CompleteQueueItem` | crates/donto-memory-core/src/overlays.rs:726-735 | Completion stamps one row unconditionally and leaves every other row alone. |
| `Reconsolidation.EnqueueSpaced` | crates/donto-memory-core/src/overlays.rs:653-675 | Enqueueing keeps the coalescing invariant: open rows of one key are more than the window apart. |
| `Reconsolidation.ClaimSpaced` | crates/donto-memory-core/src/overlays.rs:697-713 | So does claiming. |
| `Reconsolidation.CompleteSpaced` | crates/donto-memory-core/src/overlays.rs:726-735 | So does completing. |
| `Reconsolidation.OpenRowsSpread` | crates/donto-memory-core/src/overlays.rs:653-665 | m open rows of one key span more than m - 1 windows. |
| `Reconsolidation.JoinsOrAdds` | crates/donto-memory-core/src/overlays.rs:642-675 | The table grows, by exactly the request, if and only if every unclaimed, unfinished row of its record and reason is due more than a window before it; otherwise the id is that of the latest such row, due at most a window before, and nothing changes. |
| `SleepPath.Worker.ProcessOne` | crates/donto-memory-core/src/sleep_path.rs:82-137 | If the lookup or the recall fails nothing changes; if the completing update fails the table does not change; found, recalled and updated means applied once and finished, missing and updated means finished and not applied. |
| `SleepPath.Worker.RunPass` | crates/donto-memory-core/src/sleep_path.rs:29-62 | One turn claims a batch and processes each item once; `PassInFields` and `AppliedInFields` say what becomes of it. |
| `SleepPath.PassInFields` | crates/donto-memory-core/src/sleep_path.rs:29-137 | Rows not claimed stay; a claimed row keeps its request, is leased to the worker, and is finished exactly if its update succeeded and its record was missing, or found and recalled. |
| `SleepPath.AppliedInFields` | crates/donto-memory-core/src/sleep_path.rs:82-137 | The items applied are those whose record was found and recalled, each once. |
| `SleepPath.Worker.Drain` | crates/donto-memory-core/src/sleep_path.rs:29-62 | With no enqueues, one worker and every item succeeding: each row is processed once, in a batch for which it was eligible, and in the end nothing is due. The n rows due from the start are all finished, in the order `HighestFirst` states. There are ceil(n/b) claims, and at most one more for each row that comes due meanwhile. |
| `SleepPath.HighestFirst` | crates/donto-memory-core/src/overlays.rs:702-702 | Of a row of an earlier batch and one of a later batch that was due from the start, the earlier has the higher priority, or the same and is due no later. |
| `SleepPath.CeilMeans` | crates/donto-memory-core/src/sleep_path.rs:30-36 | The number of claims is the least that covers the rows. |
| `SleepPath.CeilStep` | crates/donto-memory-core/src/sleep_path.rs:30-36 | The count of claims behind the bound: one claim per full batch and one for the rest. |
| `LeaseProtocol.EarlierLeases` | crates/donto-memory-core/src/overlays.rs:697-705 | All leases of a row have run out when it is eligible. |
| `LeaseProtocol.StepKeeps` | crates/donto-memory-core/src/sleep_path.rs:29-137 | Every enqueue, claim, application, completion, failure, crash and clock tick of any worker keeps the invariant and loses nothing. |
| `LeaseProtocol.LeaseSafety` | crates/donto-memory-core/src/overlays.rs:697-713 | In every run of any number of workers, two leases of one row are more than the TTL apart, and open rows of a key stay more than a window apart. |
| `LeaseProtocol.NothingLost` | crates/donto-memory-core/src/overlays.rs:686-735 | Along every run no row disappears or changes its request, completion is final, and a finished row is never leased again. |
| `LeaseProtocol.OneHolder` | crates/donto-memory-core/src/overlays.rs:697-713 | While no worker overstays its lease, a row is being processed under at most one lease. |
| `LeaseProtocol.CompletedAfterApply` | crates/donto-memory-core/src/sleep_path.rs:82-137 | In every run a finished row had its delta applied or its record found missing, and each lease leads to at most one application. |
| `LeaseProtocol.Reclaimable` | crates/donto-memory-core/src/sleep_path.rs:54-58 | An unfinished row is claimable exactly from when it is due and every lease of it has run out, and a claim with room for all available rows then takes it unless it is locked. |
| `LeaseProtocol.CrashThenClaim` | crates/donto-memory-core/src/sleep_path.rs:29-62 | A worker that crashed has forgotten its items and no one else's, and may claim whatever is available at once. |
| `WorkerRuns.ReachesKeeps` | crates/donto-memory-core/src/sleep_path.rs:29-62 | Any stretch of a run keeps the invariant and loses nothing. |
| `WorkerRuns.PassIsRun` | crates/donto-memory-core/src/sleep_path.rs:29-62 | What a turn of the worker loop does to the table is a run of the protocol after which it holds nothing, with the same deltas applied in the same order: the laws of runs hold for the loop. |
| `JobLog.RecordSettles` | crates/donto-memory/src/api/job_log.rs:54-109 | A row written to the log settles exactly the requests it finishes, leaves the others as they were, and makes the log drain-safe exactly if it is not pending itself and finishes all that was. |
| `JobLog.Table.MarkOrphanedQueuedRows` | crates/donto-memory/src/main.rs:156-192 | The statement adds one lost row for each orphan of the log as it was before, and reports how many. |
| `JobLog.SweepAdds` | crates/donto-memory/src/main.rs:156-192 | The rows added are the lost rows, of that instant, of the ids that have a non-durable queued row more than 60 seconds old and no other kind of row. |
| `JobLog.Table.PruneJobLog` | crates/donto-memory-core/src/sleep_path.rs:67-80 | Exactly the rows older than the cutoff go, the others keep their order; a row of the cutoff itself stays. |
| `JobLog.Table.Snapshot` | crates/donto-memory/src/api/mod.rs:220-279 | The snapshot says drain-safe exactly when every queued row of the log has another row of its id that is not one, and counts the queued rows that have none. |
| `JobLog.PendingAreCounted` | crates/donto-memory/src/api/mod.rs:220-279 | The count is the number of places in the log with a queued row whose id has only such rows. |
| `JobLog.SweepCoversAll` | crates/donto-memory/src/main.rs:156-192 | After a sweep no orphan is left, so sweeping again at once adds nothing. |
| `JobLog.SweepIsExact` | crates/donto-memory/src/main.rs:174-187 | Of the pending non-durable requests the sweep finishes exactly those older than 60 seconds. |
| `JobLog.NeverSweptTwice` | crates/donto-memory/src/main.rs:183-187 | Whatever rows are written in between, a later sweep adds no second lost row for an id. |
| `JobLog.PruneRevives` | crates/donto-memory-core/src/sleep_path.rs:67-80 | Some retention cutoff makes a finished request look pending if and only if its queued row is younger than everything that finished it. |
| `JobLog.PruneKeepsFinished` | crates/donto-memory-core/src/sleep_path.rs:67-80 | No cutoff does so, or makes it an orphan, if the queued row is not the younger one. |
| `Lifecycle.StepKeeps` | crates/donto-memory/src/api/routes/memorize.rs:219-352 | Every step of handlers, tasks, workflows, crash, sweep, retention and clock keeps the invariant. |
| `Lifecycle.SweepIsSafe` | crates/donto-memory/src/main.rs:174-187 | An orphan is not durable, nothing in the process ever finished it, and any completion it has is a workflow's that retention removed. |
| `Lifecycle.OneFinishPerRequest` | crates/donto-memory/src/api/routes/memorize.rs:294-352 | Over every run, tasks and sweeps together write at most one finishing row for an id, and neither they nor a lost row ever touch a durable one. |
| `Lifecycle.TasksAreSerial` | crates/donto-memory/src/api/routes/memorize.rs:302-302 | At most one background job is past the lock, and only while the API that spawned it serves. |
| `Lifecycle.TaskReports` | crates/donto-memory/src/api/routes/memorize.rs:302-349 | A task that extracted adds a completion to the log, one that failed a failure, under its own id and at that instant, and is then gone. |
| `Lifecycle.LostWasOrphaned` | crates/donto-memory/src/main.rs:122-192 | A sweep declares lost only what is not durable, what nothing in the process finished, and what nothing still works on; only a pruned completion of a workflow can be overlooked. |
| `Lifecycle.LostMeansForgotten` | crates/donto-memory/src/main.rs:174-187 | An old non-durable request is declared lost if and only if all its finishing rows, if it ever had any, were pruned. |
| `Lifecycle.CompletedYetLost` | crates/donto-memory/src/main.rs:174-187 | A run in which that happens to a completed request. |
| `Lifecycle.DurableWaitsForWorkflow` | crates/donto-memory/src/api/mod.rs:241-247 | A durable request is pending exactly until a workflow reports, and no sweep settles it. |
| `Lifecycle.ConfirmedButNeverRun` | crates/donto-memory/src/api/routes/memorize.rs:197-198 | A run in which the gateway confirms a request that is never run: it is durable, nothing works on it, and it is pending. |
| `Lifecycle.FinishedStaysFinished` | crates/donto-memory-core/src/sleep_path.rs:67-80 | Once a task or a sweep finished a request, no pruning at any cutoff makes it look pending or lost again. |
| `Lifecycle.TaskIsPending` | crates/donto-memory/src/api/mod.rs:241-247 | The snapshot shows the request of every live task, except exactly when its queued row was not written, was pruned, or a workflow reported on it too. |
| `Lifecycle.DeathLeavesPending` | crates/donto-memory/src/api/routes/memorize.rs:294-352 | A task that dies is gone, and its request stays pending as it was. |
| `Lifecycle.DrainSafeMeansIdle` | crates/donto-memory/src/api/mod.rs:220-279 | Without these three, drain-safe means that no task is left. |
| `Lifecycle.DrainSafeCanMissATask` | crates/donto-memory/src/api/routes/memorize.rs:174-206 | A run in which an enqueue that was not confirmed starts the workflow anyway, and drain-safe is reported while the fallback task runs. |
| `Lifecycle.QuickRestartLeavesOrphan` | crates/donto-memory/src/main.rs:146-149 | A run in which a crash and restart within 60 seconds leave a request pending that nothing works on. |
| `Lifecycle.PrunedCompletionRevives` | crates/donto-memory-core/src/sleep_path.rs:67-80 | A run in which retention makes a finished durable request look pending. |

## Left out

- SleepPath.Worker.ProcessOne: `apply_delta` logs and swallows the errors of single operations, so "applied" means that every operation was attempted.
- SleepPath.Worker.Drain: each item's outcome does not depend on the pass in which it is processed, and the clock never reads earlier than at the start.
- LeaseProtocol.CompletedAfterApply: "applied" is meant in the same sense; a worker that overstays its lease may apply a delta that another worker applies too.
- Reconsolidation.Queue.Enqueue: the select and the insert are one atomic step; the code runs them without a transaction, so two concurrent enqueues can break the spacing.
- Reconsolidation.Queue.ClaimNextBatch: rows locked by other transactions are an arbitrary set; NaN priorities and NULL ordering are not modelled.
- MemoryState.StateTable.BumpState: one atomic step whose clock is the instant of its transaction; two concurrent first bumps of one record could both insert an open row.
- HotPath.Overlays.Bookkeep: rows are handled one after the other; the code runs their chains concurrently, on distinct records.
- HotPath.Overlays.Track: both writes of a row read one clock, the bump not before the access.
- HotPath.FindRecord: among records of equal creation time the query leaves the choice open; the model takes the first.
- Fusion.RrfFuse: exact reals instead of f64, hence no rounding, and rows with k + rank = 0 are excluded, where the code would divide by zero to an infinity.
- Bundle.ComposeBundle: modules rank their rows from 1; the optional enqueue after each row is modelled in the queue only; holder, lens and policy report are not modelled.
- Salvage.RecoverTruncatedFacts: overlong UTF-8 forms and surrogates are not excluded from its inputs, and the i32 depth counter does not overflow.
- DocumentSalvage.DocumentRoundTrip: the facts array is the value of the first member, as the prompts ask for.
- PythonSalvage.SalvageElements: models only what runs after the fast path failed; the regular expressions that strip fences and the fast path itself are not modelled, and text is bytes rather than code points.
- ContentKey.KeyIsInjective: SHA-256 is injective on the bytes it is fed, and a literal is its serialised text.
- MultiPass.ExtractDeep: token counters wrap as in a release build; model name and timing are not modelled.
- Lifecycle.StepKeeps: one API process, started again only after a crash, with the sweep allowed any number of times before serving; the retention cutoff is arbitrary but not in the future.
- Lifecycle.QuickRestartLeavesOrphan: shown for one run; `JobLog.SweepIsExact` gives the condition.
- JobLog.Table.MarkOrphanedQueuedRows: holder, session, request body and error text of the rows are not modelled.
- The hourly cadence of pruning in the worker loop; pruning may happen at any time instead.
- The worker's `extract_facts` loop and its lower-cased key: the dedup is that of `MultiPass` with another key.
- `default_reflect`, `ingest_fact_list`, `is_ingestable`, `should_defer`: short case analyses.
- LLM calls, prompts, OCR, HTTP clients and handlers, HTML pages, configuration: no decidable content.
- The donto substrate and the Temporal server: not part of this model; a workflow is one that may report at any time.
