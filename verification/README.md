# A verified model of the accounting assistant's algorithmic core

The repository is a retrieval-augmented assistant for accountants: it crawls and chunks accounting
standards, answers questions with verbatim citations over an event stream, compares a client's documents
under US GAAP and IFRS, and runs reconciliation, analytics and audit-sampling jobs on ledgers. This project
models its self-contained algorithms in Dafny, one module for each component, and proves what they promise.
Code that works step by step (loops, objects, concurrent tasks) is modelled by methods and classes whose
contracts tie the new state to a specification function, and the promises are lemmas about that function.
Concurrent parts are state machines whose steps are the sections between two awaits: the lemmas are about
every interleaving of such steps.

| module | what it models |
|---|---|
| `Chunker`, `ChunkFilling` | the overlapping word windows over a text, how full they are and what they quote |
| `BankReconciliation` | greedy one-to-one matching of bank lines to ledger lines |
| `Json`, `EventStream`, `QueryStream` | the server's frame printer, JSON, the browser's incremental parser, and the round trip |
| `BoilerplateTable`, `BoilerplateNames`, `HebrewBoilerplate` | the table of canned phrases and the pass that replaces them |
| `Pretranslation`, `PretranslationTasks` | the Hebrew cache and the background tasks that fill it |
| `KeyRotation`, `LlmClient` | the circular key rotator and the retry loop that drives it |
| `Detection` | repeated framework detection and the consensus of its attempts |
| `Corpus`, `CorpusReading` | the evenly spaced sample of a long corpus, and how its chunks are read back |
| `Orchestration`, `RunStream` | what a comparison run commits, and the stream that polls it |
| `CitationValidator`, `Grounding`, `VectorStore`, `VectorScores`, `QueryEngine` | grounding: normalisation, what a kept quote is, similarity, top-k search, the gate |
| `FetchCache`, `FetchGate` | the crawl's ETag cache, and the semaphores and throttle every fetch passes |
| `PdfStub` | the hand-built PDF and a reader of its structure |
| `Anomalies`, `Benford`, `Sampling` | z-scores, the first-digit test, monetary-unit sampling |
| `Wrappers`, `Text`, `Reals`, `Collections`, `Dedupe` | options, Python strings, exact real arithmetic, finite sets, dropping repeats |

Some promises turned out to need a condition, or to fail; the lemmas named here say when.

- A late 429 or forced cooldown report re-enables a disabled key (`KeyRotation.DisabledSurvives`).
- When the attempt budget runs out the client reports no `retry_after`, although the exception's
  documentation reserves that for permanently disabled keys. Some call from a given time on does so whenever
  any key is then active or due, because a `Retry-After` of 0 frees each key again at once; so no state with a
  key that is not disabled is safe (`LlmClient.WaitHiddenFromIff`, `LlmClient.WaitCanHideIff`). Even among calls
  during which no cooldown expires it can happen, there exactly when the cooldown is positive and every key
  starts active, without failures unless there are no retries (`LlmClient.WaitHiddenIff`); a full outage then
  makes it happen (`LlmClient.OutageHidesRetryAfter`).
- The cache key of the crawl joins URL and tag with a bar, so it is safe exactly when no two tags in use
  collide; tags of the standard's form never do (`FetchCache.SafeIff`, `FetchCache.StandardTagsAreSafe`).
- The one-task guard of the Hebrew cache is per process. Two translating tasks of one run drop or overwrite
  a cached field exactly as `PretranslationTasks.TwoTasksLoseAKey` says, and are harmless for every answer
  only when nothing is missing (`PretranslationTasks.HarmlessIff`).
- The size of the chunks is bounded only if the overlap is positive, or so far below zero that a window keeps no
  tail: for texts with sentences of at most m words exactly when the overlap is at least 1 or at most
  -max(target, m) (`Chunker.BoundedIff`). An overlap of zero words carries the whole previous chunk over, because
  `[-0:]` keeps everything: the chunks stay within a bound iff the whole text does (`Chunker.ZeroOverlapBoundIff`).
  The reassembly holds for every overlap (`Chunker.ChunksKeep`).
- A sampled corpus is bounded by the number of its chunks, not by the character budget, which it can exceed
  five times over when the sampled chunks are longer than the average (`Corpus.SampleSize`,
  `Corpus.SampleCanBurstBudget`).
- An account of n entries can be flagged at threshold t iff n >= 4 and n * t^2 <= (n - 1)^2, so at the default
  threshold only from eleven entries on (`Anomalies.FlaggableIff`, `Anomalies.ElevenIsEnough`); a single amount
  that leads with 7, 8 or 9 makes the Benford test "suspect" (`Benford.OneAmountIsSuspect`).
- A dissenting detection attempt after two or more agreeing ones lowers the reported confidence exactly when
  the best one is below the cap of 0.99 (`Detection.DissentLowers`).
- A negative sampling factor makes the monetary-unit sampler loop forever on any item, and zero divides
  (`Sampling.MusSample`, `Sampling.NegativeIntervalNeverEnds`).

To check everything: `dafny verify dfyconfig.toml`.

## Model

| member | source | states |
|---|---|---|
| `Chunker.ChunkText` | app/rag/chunker.py:38-101 | the loops compute `ChunksOf`: chunks carry their true word count, hash and position; each opens with the words carried from the previous one and adds at least one; dropping the overlaps gives back exactly the words of the text; with overlap at least 1 no chunk exceeds overlap + max(target, longest sentence), and with overlap at most -max(target, longest sentence) none exceeds that maximum |
| `Chunker.ChunksKeep` | app/rag/chunker.py:38-101 | the same promises of the chunking as a function, with no more chunks than pieces (paragraphs that fit, sentences of the others) |
| `Chunker.BuildUnits` | app/rag/chunker.py:55-79 | units are those of the paragraphs in order and hold exactly the words of the text, each at least one word and at most max(target, longest sentence) |
| `Chunker.TextUnits` | app/rag/chunker.py:55-79 | no word is lost, every unit is within the bound, and there are no more units than pieces |
| `Chunker.PackSentences` | app/rag/chunker.py:63-79 | packing sentences loses no word and stays in the bound |
| `Chunker.PackKeeps` | app/rag/chunker.py:63-79 | after every sentence the packing holds the words so far, its units and its open buffer within the bound |
| `Chunker.CloseWindow` | app/rag/chunker.py:87-94 | emits the open window and leaves its tail, of at most the overlap, and none when the overlap is below minus the window |
| `Chunker.CloseKeeps` | app/rag/chunker.py:87-94 | emitting a window and sliding it keeps the stamps, the overlap chain and the reassembly |
| `Chunker.SlideKeeps` | app/rag/chunker.py:81-96 | after every unit the windowing holds all words so far, in a window past its carried words; and within the limit when the overlap is positive or leaves no tail |
| `Chunker.WindowPush` | app/rag/chunker.py:95-96 | a unit joins the open window: the words done grow by the unit's |
| `Chunker.WindowEmit` | app/rag/chunker.py:88-94 | the emitted chunk continues the overlap chain and its tail is the next window |
| `Chunker.Splitter.SplitKeepsWords` | app/rag/chunker.py:18-19 | splitting at paragraph or sentence breaks loses no word |
| `Chunker.PartsKeepWords` | app/rag/chunker.py:55-63 | paragraphs, and sentences, hold exactly the words of the text |
| `Chunker.TailRejoins` | app/rag/chunker.py:92-94 | the tail words joined by blanks split into the same words |
| `Chunker.ZeroOverlapKeepsAll` | app/rag/chunker.py:92-94 | with overlap 0 each chunk holds all the words before it |
| `Chunker.ZeroOverlapBoundIff` | app/rag/chunker.py:92-94 | with overlap 0 the chunks stay within a bound iff the whole text does |
| `Chunker.NegativeOverlapKeeps` | app/rag/chunker.py:92-94 | with overlap -m the i-th chunk after the first holds all but at most m * i of the words before its end |
| `Chunker.NegativeOverlapBound` | app/rag/chunker.py:92-94 | with overlap -m the chunks stay within a bound only if the text has at most m more words for each piece after the first |
| `Chunker.RowsBreak` | app/rag/chunker.py:92-94 | k equal paragraphs of w words break every bound below w * k - m * (k - 1) |
| `Chunker.BoundedIff` | app/rag/chunker.py:81-101 | over all texts with sentences of at most m words one bound holds for every chunk iff the overlap is at least 1 or at most -max(target, m), or m is 0 |
| `ChunkFilling.ChunksAreFilled` | app/rag/chunker.py:81-101 | a chunk is past the target only if it adds a single unit to the words carried into it, and each chunk after the first was opened because its first unit did not fit the one before |
| `ChunkFilling.NeighboursExceed` | app/rag/chunker.py:85-96 | the words of a chunk and those the next one adds exceed the target together |
| `ChunkFilling.FittingTextIsOneChunk` | app/rag/chunker.py:81-101 | a text that fits the target is one chunk |
| `ChunkFilling.OverlapIsTail` | app/rag/chunker.py:92-94 | with a positive overlap each chunk opens with exactly the last overlap words of the one before, or with all of them if fewer |
| `ChunkFilling.ParagraphIsFilled` | app/rag/chunker.py:62-79 | the units of an oversized paragraph are filled with its sentences in the same way |
| `ChunkFilling.ParagraphsAreQuoted` | app/rag/chunker.py:55-101 | a paragraph that fits the target stands in a chunk word for word, and so does every sentence of the others |
| `ChunkFilling.ParagraphBreakIff` | app/rag/chunker.py:18-18 | a paragraph break is the longest whitespace run from one newline to another |
| `ChunkFilling.SentenceBreakIff` | app/rag/chunker.py:19-19 | a sentence break is the whole whitespace run after a full stop, question or exclamation mark or sof pasuq |
| `BankReconciliation.Reconcile` | app/reconcile/bank.py:50-93 | the report is that of the greedy choice: each bank line in turn takes the first highest-scoring admissible ledger line still free |
| `BankReconciliation.BestCandidate` | app/reconcile/bank.py:63-81 | the scan finds the first highest-scoring admissible line of the pool, or there is none |
| `BankReconciliation.PoolDecides` | app/reconcile/bank.py:63-81 | scanning the shrunken pool decides as the ledger's free positions do |
| `BankReconciliation.PoolAfterPop` | app/reconcile/bank.py:82-86 | popping a line leaves exactly the positions that are free afterwards, in order |
| `BankReconciliation.GreedyIsUnique` | app/reconcile/bank.py:62-86 | the rule leaves no freedom: one matching for one input |
| `BankReconciliation.ScoreWeighs` | app/reconcile/bank.py:74-78 | the score lies in 0..100; a day between the dates, up to ten, costs as much as 20/3 points of similarity |
| `BankReconciliation.FirstBestIff` | app/reconcile/bank.py:63-81 | the line taken is the first free admissible one that no other suits better, by 3 * similarity - 20 * days, unknown dates counting as none and more than ten days as ten |
| `BankReconciliation.GreedySuits` | app/reconcile/bank.py:62-86 | every match suits no worse than any admissible line left: of equally similar ones the nearer in time, of equally near ones the more similar |
| `BankReconciliation.GreedyIsMatching` | app/reconcile/bank.py:62-86 | no bank or ledger line is used twice and every pair is admissible |
| `BankReconciliation.GreedyIsMaximal` | app/reconcile/bank.py:62-93 | no unmatched bank line is admissible with an unmatched ledger line |
| `BankReconciliation.GreedyIsHalfOptimal` | app/reconcile/bank.py:58-93 | every admissible one-to-one matching has at most twice as many pairs |
| `BankReconciliation.ReportIsHalfOptimal` | app/reconcile/bank.py:50-93 | the reported pairs are at least half as many as any admissible one-to-one matching has |
| `BankReconciliation.HalfIsTight` | app/reconcile/bank.py:58-93 | an input where greedy finds exactly half |
| `BankReconciliation.ReportsPartition` | app/reconcile/bank.py:82-93 | every bank line and every ledger line is reported exactly once, matched or unmatched: the multisets of ids add up |
| `Json.RoundTrip` | app/api/routes/query.py:111-124 | whatever object is dumped is parsed back, whatever characters its strings hold |
| `Json.StringRoundTrip` | app/api/routes/query.py:111-111 | an escaped string literal is read back and the reader stops at its closing quote |
| `Json.MembersRoundTrip` | app/api/routes/query.py:121-121 | members are read back in order, a repeated key keeping its last value |
| `EventStream.ParseSSE` | web/src/components/chat/chat.tsx:29-59 | however the stream is cut into chunks, the events are those of the whole stream |
| `EventStream.DrainBuffer` | web/src/components/chat/chat.tsx:38-57 | the inner loop cuts off exactly the complete blocks and keeps the rest |
| `EventStream.ReadBlock` | web/src/components/chat/chat.tsx:42-56 | a block's last event line and joined data lines make its event, whatever JSON the data is; malformed data, or a property read of null, yields none |
| `EventStream.BlockSays` | web/src/components/chat/chat.tsx:42-48 | a block's name is that of its last event line, its data the trimmed data lines one after the other |
| `EventStream.FeedSplit` | web/src/components/chat/chat.tsx:33-41 | feeding a then b is feeding a + b |
| `EventStream.Receive` | web/src/components/chat/chat.tsx:87-104 | the message on screen is the fold of the stream's events |
| `EventStream.Message.ApplyAllAppend` | web/src/components/chat/chat.tsx:87-104 | folding two runs of events is folding their concatenation |
| `QueryStream.Gen` | app/api/routes/query.py:101-124 | the frames are preamble, token pieces, citations in order, done |
| `QueryStream.PrintTokens` | app/api/routes/query.py:107-112 | the answer goes out in 24-character pieces |
| `QueryStream.PrintCitations` | app/api/routes/query.py:114-121 | one frame for each citation, in order |
| `QueryStream.PiecesConcat` | app/api/routes/query.py:107-110 | the pieces concatenate to the answer |
| `QueryStream.BlocksOfFrames` | web/src/components/chat/chat.tsx:39-41 | frames are cut where they were joined, never inside |
| `QueryStream.BlockIsRead` | web/src/components/chat/chat.tsx:42-50 | a printed block is read as its own name and data |
| `QueryStream.Carries` | web/src/components/chat/chat.tsx:49-53 | a printed token, citation or done frame yields that event with the printed object |
| `QueryStream.CitationArrives` | app/api/routes/query.py:114-121 | every citation field arrives under its own name |
| `QueryStream.CommentIsIgnored` | web/src/components/chat/chat.tsx:44-48 | a comment frame yields no event |
| `QueryStream.PreambleIsIgnored` | app/api/routes/query.py:105-105 | the padding is one block and yields no event |
| `QueryStream.EndToEnd` | app/api/routes/query.py:101-124 | for every answer and every chunking the browser ends with its text, its citations in order, its refused flag and its language |
| `QueryStream.EventsInOrder` | app/api/routes/query.py:101-124 | the browser sees one token event for each piece, one citation event for each citation, then the done event, in order |
| `QueryStream.PiecesAre24` | app/api/routes/query.py:107-110 | pieces have 24 characters, the last at most as many and at least one |
| `QueryStream.PrintedIsAscii` | app/api/routes/query.py:101-124 | every character of the printed stream is ASCII, whatever the answer's language |
| `BoilerplateTable.TableShape` | app/services/comparison_translation.py:435-490 | every key is Hebrew-free with fixed end characters, every replacement carries Hebrew and no outer letter a key could share |
| `BoilerplateNames.TableCorresponds` | app/services/comparison_translation.py:435-490 | each Hebrew phrase names US GAAP and IFRS as its English one does, in the same order, and is framed alike |
| `HebrewBoilerplate.LocalizeBoilerplate` | app/services/comparison_translation.py:492-516 | the text after all replacements in table order, or the text itself when empty or not Hebrew |
| `HebrewBoilerplate.Pass` | app/services/comparison_translation.py:508-516 | the loop replaces every pair in order |
| `HebrewBoilerplate.ReplaceSwapsSeparators` | app/services/comparison_translation.py:508-516 | replacing swaps the occurrences of a key and touches nothing between them |
| `HebrewBoilerplate.OneSide` | app/services/comparison_translation.py:435-490 | an occurrence of a key next to a replacement lies wholly on one side of it |
| `HebrewBoilerplate.ReplaceMakesNoKey` | app/services/comparison_translation.py:508-516 | a replacement removes its own key and brings in no other |
| `HebrewBoilerplate.PassRemovesKeys` | app/services/comparison_translation.py:508-516 | after the whole pass no key is left, later replacements recreate none |
| `HebrewBoilerplate.LocalizeIsClean` | app/services/comparison_translation.py:492-516 | for every text: no canned key remains, a second pass changes nothing, and a pass changes the text iff it holds a key |
| `HebrewBoilerplate.OnlyKeyIsReplaced` | app/services/comparison_translation.py:508-516 | a text holding one key only has each occurrence swapped for that key's own replacement |
| `HebrewBoilerplate.LocalizeKeepsHebrew` | app/services/comparison_translation.py:492-516 | a text with Hebrew keeps some |
| `Pretranslation.Flatten` | app/services/comparison_translation.py:226-251 | the flat dictionary of fields still to translate |
| `Pretranslation.FlatIsSources` | app/services/comparison_translation.py:226-251 | every field sent out is Hebrew-free and not blank |
| `Pretranslation.FlatIsComplete` | app/services/comparison_translation.py:243-251 | the dictionary holds exactly the fields that want translation, each under its own key with its own text |
| `Pretranslation.TranslateToHebrew` | app/services/comparison_translation.py:163-201 | each field maps to its Hebrew answer, or to its source when the call failed or brought none |
| `Pretranslation.Merge` | app/services/comparison_translation.py:369-389 | the written cache is the snapshot plus the localized fresh translations, counted |
| `Pretranslation.FreshMeansTranslated` | app/services/comparison_translation.py:370-374 | a value differs from its source iff its translation succeeded, and what is cached for it holds Hebrew |
| `Pretranslation.WantsIff` | app/services/comparison_translation.py:243-251 | a text wants translation iff it has a word and no character of the Hebrew block; an answer is accepted iff it has one |
| `PretranslationTasks.Worker.Kick` | app/services/comparison_translation.py:267-291 | a run in flight starts no second task |
| `PretranslationTasks.Worker.Begin` | app/services/comparison_translation.py:311-343 | a task reads the row, its cache and what is missing, or ends |
| `PretranslationTasks.Worker.Finish` | app/services/comparison_translation.py:353-394 | a task merges its translations and commits; when the row was deleted meanwhile it just ends |
| `PretranslationTasks.Worker.Done` | app/services/comparison_translation.py:287-290 | the callback clears the in-flight mark |
| `PretranslationTasks.StepKeepsInv` | app/services/comparison_translation.py:267-398 | every step keeps: one task per run, its snapshot still current, only Hebrew cached |
| `PretranslationTasks.StepExtends` | app/services/comparison_translation.py:353-389 | every step only extends the caches of the rows it does not delete, and a step that writes one strictly shrinks what is missing |
| `PretranslationTasks.CommitExtends` | app/services/comparison_translation.py:369-389 | a commit loses no key, overwrites no value and adds Hebrew only |
| `PretranslationTasks.RunIsSafe` | app/services/comparison_translation.py:267-398 | over every interleaving, failures, deletions and restarts included, a run's cache only grows and is written at most once per missing field |
| `PretranslationTasks.AtMostOneTask` | app/services/comparison_translation.py:264-291 | in every reachable state at most one task per run is live |
| `PretranslationTasks.ReadTranslates` | app/services/comparison_translation.py:311-345 | a task that reads its row goes on iff the run is done and wants a field, however much is cached, and takes on exactly the wanted fields |
| `PretranslationTasks.CommitDelivers` | app/services/comparison_translation.py:353-389 | in every reachable state a commit caches exactly the wanted fields whose answers are accepted, and keeps the rest |
| `PretranslationTasks.PassDelivers` | app/services/comparison_translation.py:267-389 | one undisturbed pass over a done run caches every accepted answer and frees the run for the next kick |
| `PretranslationTasks.PassCompletes` | app/services/comparison_translation.py:267-389 | a pass in which every answer is accepted leaves nothing to translate |
| `PretranslationTasks.BeginsInInv` | app/services/comparison_translation.py:257-264 | a worker process begins in a state that meets the invariant |
| `PretranslationTasks.TwoTasksLoseAKey` | app/services/comparison_translation.py:340-389 | of two tasks that read the same row, the second commit drops a field the first cached iff it failed on that field but translated another, and overwrites it when it translated it too |
| `PretranslationTasks.HarmlessIff` | app/services/comparison_translation.py:264-389 | whatever the translator answers, concurrent commits of a run lose and overwrite nothing iff at most one of its tasks is translating or nothing is missing |
| `KeyRotation.KeyRotator.Create` | app/llm/ollama_rotator.py:66-90 | distinct stripped keys in declared order; it fails iff none is left |
| `KeyRotation.UsableKeysAre` | app/llm/ollama_rotator.py:71-82 | the usable keys are the stripped ones that are not blank, in declared order |
| `KeyRotation.KeyRotator.RefreshCooldowns` | app/llm/ollama_rotator.py:112-117 | exactly the cooling keys whose time has come become active |
| `KeyRotation.KeyRotator.Acquire` | app/llm/ollama_rotator.py:94-126 | the first active key in circular order from the cursor, counted; or none is active and the wait is the smallest remaining cooldown |
| `KeyRotation.KeyRotator.Report` | app/llm/ollama_rotator.py:130-194 | the named key's new state and the cursor for each of the five reports; unknown keys change nothing |
| `KeyRotation.AcquireIsDeterministic` | app/llm/ollama_rotator.py:94-126 | acquire has one outcome |
| `KeyRotation.RetryAfterIsExact` | app/llm/ollama_rotator.py:94-126 | after a failure with wait r > 0 and no reports, acquire fails at every time before and succeeds from that time on |
| `KeyRotation.NoRetryAfterMeansDisabled` | app/llm/ollama_rotator.py:119-126 | no wait is given iff every key is disabled |
| `KeyRotation.DisabledSurvives` | app/llm/ollama_rotator.py:130-194 | a report leaves a disabled key disabled iff it is not a late 429 or cooldown about that key |
| `KeyRotation.UsableAfter` | app/llm/ollama_rotator.py:112-194 | when a key can be used again after each report: after the announced or default wait, never, or as before; no other key is touched |
| `Dedupe.DropRepeats` | app/llm/ollama_rotator.py:75-82 | the seen-set loop keeps the elements at the first positions, in order |
| `Dedupe.FirstOccurrencesSpec` | app/llm/ollama_rotator.py:75-82 | no repeats, and the same elements |
| `Dedupe.FirstOccurrencesOrder` | app/llm/ollama_rotator.py:75-82 | the kept elements are those at the positions where an element occurs first, all of them, in ascending order |
| `LlmClient.Request` | app/llm/client.py:107-158 | a call is a sequence of attempts, each a fresh acquire and its reports, within the budget, ending in an answer, an HTTP error or exhaustion |
| `LlmClient.Respond` | app/llm/client.py:125-156 | the reports made for each kind of reply |
| `LlmClient.AttemptLowers` | app/llm/client.py:112-156 | a failed attempt lowers its own key's weight max(1, R+1-failures) and touches no other key |
| `LlmClient.FailuresSpend` | app/llm/client.py:109-156 | k failed attempts spend at least k of the sum of the active keys' weights |
| `LlmClient.TriesPerKey` | app/llm/client.py:107-158 | each key is tried at most R+1 times in a call |
| `LlmClient.ExhaustedMeansNoneActive` | app/llm/client.py:111-158 | a call that gives up leaves no key active |
| `LlmClient.HealthyKeyAnswers` | app/llm/client.py:107-158 | one active key that never fails guarantees a reply, an answer when no other status occurs, whatever cooldowns expire meanwhile: after at most the tries left to the keys before it plus one, at most (n-1)(R+1) + 1 attempts |
| `LlmClient.AttemptNears` | app/llm/client.py:112-156 | a failed attempt spends a try of a key before the healthy one, or moves past it |
| `LlmClient.QuietCallIsShort` | app/llm/client.py:107-158 | a call during which no cooldown expires makes at most as many attempts as its active keys can take failures |
| `LlmClient.OutageHidesRetryAfter` | app/llm/client.py:157-158 | when every request of a quiet call fails with 5xx and every key starts with its full weight, the call reports no wait although every key is only cooling |
| `LlmClient.HiddenMeansFull` | app/llm/client.py:109-158 | a quiet call that reports no wait with a key not disabled has spent its whole budget and began with full weights |
| `LlmClient.WaitHiddenIff` | app/llm/client.py:107-158 | among calls during which no cooldown expires, some hides the wait iff the cooldown is positive, every key starts active, and either no key has failures or there are no retries |
| `LlmClient.WaitHiddenFromIff` | app/llm/client.py:107-158 | among all calls that start at a given time, some hides the wait iff some key is then active or due |
| `LlmClient.WaitCanHideIff` | app/llm/client.py:107-158 | at some time some call can hide the wait iff some key is not disabled |
| `LlmClient.AttemptKeepsDisabled` | app/llm/client.py:112-156 | with one caller at a time an attempt never re-enables a key and counts one request |
| `LlmClient.AttemptsAreCounted` | app/llm/client.py:107-158 | over a run of attempts, cooldowns expiring or not, requests grow by the successful acquires and disabled keys stay disabled |
| `LlmClient.AnswerRestores` | app/llm/client.py:146-149 | an answer leaves its key active, without failures or error, and with its whole weight |
| `LlmClient.FailuresAreConsecutive` | app/llm/client.py:107-158 | over successive calls a key's failure count is the number of its failed attempts since its last answer |
| `LlmClient.ReplyDecides` | app/llm/client.py:125-156 | what each reply means for its key: active, disabled for good, cooled for the announced or default wait, or cooled once its failures in a row pass the limit |
| `Detection.ConfidenceOf` | app/services/comparison_orchestrator.py:236-268 | a value in [0, 1]: the number itself when it is one, 0 for booleans |
| `Detection.GroupByFramework` | app/services/comparison_orchestrator.py:331-333 | frameworks in the order first seen, each with its answers |
| `Detection.ConsensusOf` | app/services/comparison_orchestrator.py:300-347 | the aggregation loop computes the consensus |
| `Detection.ConsensusSpec` | app/services/comparison_orchestrator.py:300-347 | n unanimous answers give 1 - (1 - best)/n up to 0.99; otherwise the carrier's own confidence; the carrier is the most confident answer of the most frequent framework, ties by summed confidence |
| `Detection.ConfidentCarries` | app/services/comparison_orchestrator.py:330-347 | of two answers naming different frameworks the more confident carries the verdict, of equally confident ones the first |
| `Detection.TotalAdds` | app/services/comparison_orchestrator.py:330-337 | the confidences of a group are summed |
| `Detection.AgreementHelps` | app/services/comparison_orchestrator.py:342-347 | one more agreeing answer lowers the consensus iff it was above the cap |
| `Detection.DissentLowers` | app/services/comparison_orchestrator.py:342-347 | a dissenting answer takes the boost away, leaving the best single confidence; that is no higher than before iff the best one is within the cap |
| `Detection.DetectWithConfidence` | app/services/comparison_orchestrator.py:350-446 | the loop stops at the first attempt that ends it, quotes the best confidence so far in each retry, and otherwise returns the consensus of all answers, the last error, or nothing for no attempts |
| `Detection.BarIsBest` | app/services/comparison_orchestrator.py:395-420 | the quoted confidence is the best one so far |
| `Detection.EndsEarlyIff` | app/services/comparison_orchestrator.py:418-433 | detection stops early iff some attempt alone reaches the target, or the target is within the cap and some prefix is unanimous with (1 - best)/n at most 1 - target |
| `Detection.EarlyIsAtTarget` | app/services/comparison_orchestrator.py:422-433 | an early end returns that attempt untouched, or a plurality answer whose agreement reached the target |
| `Detection.OtherwiseBelowTarget` | app/services/comparison_orchestrator.py:435-446 | without an early end the result is a plurality answer with a confidence below the target before rounding; it raises iff every attempt raised |
| `Corpus.SampleIsEven` | app/services/comparison_orchestrator.py:138-151 | when t is less than n the sampled positions increase strictly from 0 to n-1, number t+1 and are at most ceil(n/t) apart |
| `Corpus.CorpusShows` | app/services/comparison_orchestrator.py:123-151 | the corpus is empty, all non-blank chunks when they fit, their first 24000 characters when the target count is no less than their number, and otherwise the chunks at an even sample of target count + 1 positions |
| `Corpus.SampleCount` | app/services/comparison_orchestrator.py:114-151 | a sampled corpus says truthfully how many chunks it shows, at least two |
| `Corpus.CorpusSize` | app/services/comparison_orchestrator.py:134-142 | the estimate of 25 characters a chunk is the exact size of the joined corpus but for the references |
| `Corpus.SampleSize` | app/services/comparison_orchestrator.py:134-150 | a sample of k chunks has fewer than k * (837 + the longest reference) characters |
| `Corpus.SampleCanBurstBudget` | app/services/comparison_orchestrator.py:139-150 | a thousand chunks whose sample has more than five times the budget |
| `Corpus.PointStep` | app/services/comparison_orchestrator.py:146-147 | consecutive points advance by at least one and at most ceil(n/t) |
| `Corpus.LastPoint` | app/services/comparison_orchestrator.py:146-147 | the last point stays short of n-1, by less than one step |
| `CorpusReading.IdsReadBack` | app/services/comparison_orchestrator.py:134-151 | every chunk of a whole or sampled corpus is found at a known place and reads back under its own reference with its own text |
| `CorpusReading.ShownAreGiven` | app/services/comparison_orchestrator.py:123-151 | a chunk shown is a non-blank one given, with its own reference and its text up to the limit |
| `Orchestration.Session.Commit` | app/services/comparison_orchestrator.py:999-1000 | a commit makes the session's row and added issues visible at once; on a deleted row it raises |
| `Orchestration.Session.Start` | app/services/comparison_orchestrator.py:839-862 | a run that exists is committed as parsing |
| `Orchestration.Session.OnExtraction` | app/services/comparison_orchestrator.py:864-899 | failed with its error, failed without text, or detecting |
| `Orchestration.Session.OnDetection` | app/services/comparison_orchestrator.py:901-936 | failed, done without issues, or comparing with the framework recorded when it is a known one |
| `Orchestration.Session.CompareAll` | app/services/comparison_orchestrator.py:941-1000 | the loop's rows, numbered 1..m in order, become visible in one commit together with done |
| `Orchestration.LoopIsSteps` | app/services/comparison_orchestrator.py:941-997 | the loop is as many steps that no other session can see |
| `Orchestration.StepKeepsInv` | app/services/comparison_orchestrator.py:832-1000 | every step, crashes and deletion included: issues are readable only of a done run and numbered 1, 2, 3; the status only moves forward |
| `Orchestration.BeginsInInv` | app/api/routes/comparisons.py:270-283 | a new run begins in a state that meets the invariant |
| `Orchestration.RunMovesForward` | app/services/comparison_orchestrator.py:832-1000 | a later read shows the same status or a later one; a finished row is frozen, a deleted one stays deleted |
| `Orchestration.PublishIsWhole` | app/services/comparison_orchestrator.py:941-1000 | the final commit publishes every issue detected, in order, numbered from 1 |
| `Orchestration.RunEnds` | app/services/comparison_orchestrator.py:840-1000 | a run ends as failed iff extraction or detection failed or no text was found, with that error and no issues, and otherwise as done with its framework and every issue in order |
| `RunStream.Gen` | app/api/routes/comparisons.py:418-454 | the polling loop sends status changes, a heartbeat every fifth tick, and the closing event |
| `RunStream.BeatAdded` | app/api/routes/comparisons.py:427-453 | counting from the last heartbeat sends one at exactly the ticks 5, 10, 15, ... |
| `RunStream.StatusesGoOnward` | app/api/routes/comparisons.py:430-445 | the statuses sent move strictly forward |
| `RunStream.DoneIffEndSeen` | app/api/routes/comparisons.py:446-448 | done is sent iff a poll finds the run at its end; once, last, after a final status |
| `RunStream.NothingIsMissed` | app/api/routes/comparisons.py:436-445 | every status a poll finds is sent |
| `RunStream.EventsAreReports` | app/api/routes/comparisons.py:427-454 | each status event tells status, framework and error of a row a poll found |
| `RunStream.StreamIsFaithful` | app/api/routes/comparisons.py:418-454 | in every interleaving of orchestrator and stream: repeat-free forward statuses, none found is missed, done exactly when an end was seen |
| `RunStream.DoneIsFinal` | app/api/routes/comparisons.py:446-448 | after a poll has seen the end, later reads find the same row and issues, or none |
| `CitationValidator.ValidateCitations` | app/rag/citation.py:35-91 | kept citations and reasons for the dropped ones, in order |
| `CitationValidator.FindSupport` | app/rag/citation.py:69-82 | the inner loop finds support iff the citation is grounded |
| `CitationValidator.KeptIsGrounded` | app/rag/citation.py:35-91 | kept + dropped is all; every kept citation is in a retrieved chunk of the cited source |
| `CitationValidator.NormalizeKeepsSubstring` | app/rag/citation.py:25-26 | a literal substring of a text is one after normalisation |
| `CitationValidator.VerbatimQuoteIsKept` | app/rag/citation.py:35-91 | a verbatim non-blank quote with a matching url is always kept |
| `Grounding.NormalizeIsOneLine` | app/rag/citation.py:25-26 | normalising joins the words of a text with single blanks and folds each character |
| `Grounding.NormalizeKeepsWords` | app/rag/citation.py:25-26 | without folding, the words stay as they are |
| `Grounding.AlikeNormalize` | app/rag/citation.py:25-26 | texts equal up to the fold, blanks in the same places, normalise alike |
| `Grounding.SoundIff` | app/rag/citation.py:61-91 | no objection is raised iff the quote has a word and its words, on one line, stand in a chunk of a source the citation names, up to the fold |
| `Grounding.KeptAreSound` | app/rag/citation.py:48-91 | exactly the sound citations are kept, in order |
| `Grounding.QuoteStands` | app/rag/citation.py:81-83 | for a fold of single characters: at some place of the chunk, character by character |
| `Grounding.ObjectionIs` | app/rag/citation.py:49-89 | the reason given is the first that applies |
| `Grounding.ReasonsInOrder` | app/rag/citation.py:48-91 | the reasons are those of the dropped citations, in order |
| `Grounding.EntriesAre` | app/rag/citation.py:48-60 | a dictionary's entries are taken as they are, a missing url or quote as empty |
| `VectorStore.MemoryVectorStore.Upsert` | app/rag/vector_store.py:87-91 | known ids are replaced where they stand, new ones go last |
| `VectorStore.MemoryVectorStore.SearchIn` | app/rag/vector_store.py:93-119 | the best top_k of the matching points |
| `VectorStore.MemoryVectorStore.DeleteBySource` | app/rag/vector_store.py:121-127 | popping the listed ids one by one leaves the points of other sources, and touches no other collection |
| `VectorStore.NotFromSpec` | app/rag/vector_store.py:121-127 | exactly the points of other sources stay, in their order |
| `VectorStore.NotFromKeepsIds` | app/rag/vector_store.py:121-127 | one point per id stays one point per id |
| `VectorStore.DroppedAreFrom` | app/rag/vector_store.py:126-127 | with one point per id, popping a source's ids pops exactly its points |
| `VectorStore.SearchIsTopK` | app/rag/vector_store.py:93-119 | hits are stored, match, descend, are min(k, m) many (m + k, if any, for a negative k), and nothing left out beats one |
| `VectorStore.HitsAreStored` | app/rag/vector_store.py:93-119 | for every top_k, hits are stored, matching points with their own scores |
| `VectorStore.SortSpec` | app/rag/vector_store.py:118-118 | sorting descends and permutes |
| `VectorStore.PutKeepsIds` | app/rag/vector_store.py:87-91 | one point per id; the new one is stored and the others stay |
| `VectorStore.PutInPlace` | app/rag/vector_store.py:87-91 | a known id's point is replaced where it stands, a new one goes last |
| `VectorStore.GateIsComplete` | app/rag/query_engine.py:94-94 | for top_k >= 1 the gate opens iff some matching stored point reaches the threshold |
| `VectorStore.CauchySchwarz` | app/rag/vector_store.py:34-42 | the squared dot product is at most the product of the squared norms |
| `VectorStore.CosineBounds` | app/rag/vector_store.py:34-42 | the cosine lies in [-1, 1] |
| `VectorStore.FusedBounds` | app/rag/vector_store.py:104-117 | fused scores lie in [-0.7, 1] |
| `VectorScores.DotPlus` | app/rag/vector_store.py:37-37 | the dot product is additive |
| `VectorScores.DotUnit` | app/rag/vector_store.py:37-37 | with a unit vector it is the coordinate |
| `VectorScores.CosineOfMultiple` | app/rag/vector_store.py:34-42 | the cosine with a multiple of a vector is 1 or -1 by its sign |
| `VectorScores.OverlapAdds` | app/rag/vector_store.py:54-56 | the overlap sums, over the question's tokens, how often the document holds each |
| `VectorScores.FusedWeighs` | app/rag/vector_store.py:110-116 | without a shared token the score is seven tenths of the cosine, and an overlap of at least the root of the length adds three tenths |
| `VectorScores.SortIsStable` | app/rag/vector_store.py:118-118 | hits with equal scores stay in store order |
| `VectorScores.FiltersAdd` | app/rag/vector_store.py:130-140 | filters hold together, each asking for one of its values |
| `QueryEngine.AnswerQuestion` | app/rag/query_engine.py:31-143 | retrieve, gate, answer, validate, or refuse |
| `QueryEngine.AnswersAreGrounded` | app/rag/query_engine.py:94-143 | an answer that is no refusal has text and citations, each quote in a stored matching chunk of its source |
| `QueryEngine.UngroundedIsRefused` | app/rag/query_engine.py:94-105 | without a stored matching point at the threshold the question is refused, whatever the model would say |
| `QueryEngine.AnswersIff` | app/rag/query_engine.py:94-143 | an answer is given iff a stored matching point reaches the threshold, the reply has a text, and one of its citations is sound for what was retrieved |
| `FetchCache.Crawl.Request` | app/ingest_standards/fetcher.py:169-173 | the request carries the tag the index holds for the url |
| `FetchCache.Crawl.Take` | app/ingest_standards/fetcher.py:175-204 | the next phase for errors, 304, other statuses, oversized bodies, tagged and untagged bodies |
| `FetchCache.Crawl.Put` | app/ingest_standards/fetcher.py:205-210 | the body is stored under the key of url and tag |
| `FetchCache.Crawl.Note` | app/ingest_standards/fetcher.py:211-213 | the index names the tag only after the body is stored |
| `FetchCache.Crawl.Serve` | app/ingest_standards/fetcher.py:181-188 | a 304 is answered from the store, or not at all |
| `FetchCache.StepKeepsInv` | app/ingest_standards/fetcher.py:123-213 | every step, a crash before the index is saved included, keeps: each tag indexed, saved or sent has its own body in the store |
| `FetchCache.NotModifiedIsServed` | app/ingest_standards/fetcher.py:181-188 | in every interleaving a 304 is answered with the body the sent tag stands for |
| `FetchCache.KeysCollideIff` | app/ingest_standards/fetcher.py:54-57 | two keys coincide iff the pairs do, or one url extends the other by a bar and the head of its tag |
| `FetchCache.EntityTagsNeverCollide` | app/ingest_standards/fetcher.py:54-57 | tags of the form of RFC 9110 section 8.8.3 never share a key |
| `FetchCache.BarFreeUrlsNeverCollide` | app/ingest_standards/fetcher.py:54-57 | nor do any tags of urls without a bar |
| `FetchCache.CollisionServesTheOtherPage` | app/ingest_standards/fetcher.py:54-57 | two colliding pairs with different bodies have a crawl history that serves the wrong one |
| `FetchCache.SafeIff` | app/ingest_standards/fetcher.py:54-213 | every history serves the right bodies iff no two tags in use share a key and differ in body |
| `FetchCache.StandardTagsAreSafe` | app/ingest_standards/fetcher.py:54-213 | so it does for servers with well-formed tags |
| `FetchCache.PageIsDelivered` | app/ingest_standards/fetcher.py:160-213 | a fetch that gets a page within the limit delivers its body, and caches it under its tag if it has one |
| `FetchCache.SecondFetchIsServed` | app/ingest_standards/fetcher.py:160-213 | the next fetch sends that tag, and a 304 to it delivers the body stored |
| `FetchCache.OtherwiseNothing` | app/ingest_standards/fetcher.py:175-204 | any other response delivers and stores nothing |
| `FetchGate.Gate.AcquireGlobal` | app/ingest_standards/fetcher.py:150-150 | a fetch takes a global slot first |
| `FetchGate.Gate.AcquireHost` | app/ingest_standards/fetcher.py:133-150 | and then a slot of its host, whose semaphore starts full |
| `FetchGate.Gate.WaitBegins` | app/ingest_standards/fetcher.py:99-107 | under the host's lock the wake time is the later of now and the last stamp plus the delay |
| `FetchGate.Gate.WaitEnds` | app/ingest_standards/fetcher.py:106-108 | the stamp is taken when the sleep is over and the lock released |
| `FetchGate.Gate.Release` | app/ingest_standards/fetcher.py:150-152 | on any way out of the guarded blocks, by return or exception, exactly the slots and the lock held are given back |
| `FetchGate.RunKeepsInv` | app/ingest_standards/fetcher.py:91-152 | slots free and held always add up to the caps, and stamps of a host stay spaced |
| `FetchGate.CapsAndSpacing` | app/ingest_standards/fetcher.py:91-152 | in every interleaving in-flight fetches respect both caps and two fetches of a host start at least the later one's delay apart |
| `FetchGate.DelayIsLonger` | app/ingest_standards/fetcher.py:91-152 | a fetch asks for the longer of the robots' delay and the least interval |
| `FetchGate.WaitIsShortest` | app/ingest_standards/fetcher.py:99-107 | it waits until its delay after the host's last stamp and no longer |
| `FetchGate.GetsThrough` | app/ingest_standards/fetcher.py:91-152 | a fetch that finds slots and lock free is let through when its wait is over, and leaves everything as free as it was |
| `PdfStub.StubPdf` | app/audit/workpapers/renderer.py:158-196 | the file whose offsets are where the objects were put: each search finds its object, never the message |
| `PdfStub.Safe` | app/audit/workpapers/renderer.py:169-172 | at most 500 printable characters, no parenthesis or backslash, harmless characters kept, a stock text iff the message is empty |
| `PdfStub.MarkIsFound` | app/audit/workpapers/renderer.py:183-186 | searching the body for an object's mark gives the object's offset |
| `PdfStub.BeforeHasNoMark` | app/audit/workpapers/renderer.py:148-155 | nothing before an object holds its mark |
| `PdfStub.Pad10Reads` | app/audit/workpapers/renderer.py:188-190 | a padded offset has ten digits and reads as the offset |
| `PdfStub.XrefLocatesObjects` | app/audit/workpapers/renderer.py:183-195 | startxref locates the table and each twenty-byte entry locates its object |
| `PdfStub.StreamIsRead` | app/audit/workpapers/renderer.py:173-179 | /Length is the stream's size: a reader gets the stream whole |
| `PdfStub.TextIsRead` | app/audit/workpapers/renderer.py:173-173 | the literal string ends at its own parenthesis |
| `PdfStub.EveryMessageIsRead` | app/audit/workpapers/renderer.py:158-196 | for every message a reader that follows trailer, table, length and literal string ends at the sanitized text |
| `Anomalies.ZScoreOutliers` | app/analyze/anomalies.py:80-103 | the hits of every account, accounts in order of first appearance |
| `Anomalies.GroupByAccount` | app/analyze/anomalies.py:86-88 | each account with its amounts in entry order |
| `Anomalies.AmountsAreEntries` | app/analyze/anomalies.py:86-88 | an account's amounts are those of its entries, in their order |
| `Anomalies.ScanAccount` | app/analyze/anomalies.py:90-102 | the entries whose z-score reaches the threshold; none below four entries or without spread |
| `Anomalies.HitsAreOutliers` | app/analyze/anomalies.py:96-102 | the hits are exactly the amounts whose score reaches the threshold, in order, each with its score |
| `Anomalies.ZSquaresSum` | app/analyze/anomalies.py:91-100 | the squared z-scores of n entries sum to n-1 |
| `Anomalies.ZScoreBound` | app/analyze/anomalies.py:91-100 | no squared z-score exceeds (n-1)^2/n |
| `Anomalies.HitsAreFew` | app/analyze/anomalies.py:80-103 | h hits need h * threshold^2 <= n-1 |
| `Anomalies.UnreachableIsNeverFlagged` | app/analyze/anomalies.py:80-103 | no entry is flagged in an account of fewer than four entries, or of n with n * t^2 > (n - 1)^2 |
| `Anomalies.SpikeIsFlagged` | app/analyze/anomalies.py:80-103 | otherwise an account of n - 1 zeros and a one is flagged |
| `Anomalies.FlaggableIff` | app/analyze/anomalies.py:80-103 | some account of n entries is flagged at threshold t iff n >= 4 and n * t^2 <= (n - 1)^2 (a negative t counting as 0) |
| `Anomalies.ElevenIsEnough` | app/analyze/anomalies.py:80-103 | at the default threshold iff n >= 11 |
| `Benford.FirstDigit` | app/analyze/anomalies.py:32-40 | the digit that leads the amount in decimal; none below 1e-9; both loops end |
| `Benford.LeadingDigitIsUnique` | app/analyze/anomalies.py:32-40 | a number has one leading digit |
| `Benford.BenfordFirstDigit` | app/analyze/anomalies.py:43-70 | the test of the leading digits of the amounts that have one; its statistic is the weighted sum of squared counts less the count |
| `Benford.BenfordTest` | app/analyze/anomalies.py:49-70 | observed counts of the nine digits, the chi-square statistic, and its comparison with the critical value |
| `Benford.ChiIdentity` | app/analyze/anomalies.py:56-60 | the statistic is the weighted sum of squared counts less the count, because the shares sum to one |
| `Benford.CountIsMultiplicity` | app/analyze/anomalies.py:49-55 | the observed counts are how often each digit occurs |
| `Benford.SharesDecrease` | app/analyze/anomalies.py:15-18 | the expected shares decrease with the digit and sum to one |
| `Benford.OneAmountIsSuspect` | app/analyze/anomalies.py:56-62 | a single amount is suspect iff it leads with 7, 8 or 9 |
| `Sampling.MusSample` | app/audit/sampling.py:67-102 | an error for non-positive materiality, a division by zero for factor 0, an endless loop for a negative factor and any item; otherwise every selection point up to the total is owned by the item it falls on, and ids stand once each in order of first hit |
| `Sampling.Select` | app/audit/sampling.py:87-94 | the two loops: the selection points and their owners, for a positive interval |
| `Sampling.NegativeIntervalNeverEnds` | app/audit/sampling.py:90-94 | with a negative interval the inner loop's test still holds after any number of turns |
| `Sampling.SelectedIffHit` | app/audit/sampling.py:82-102 | an item is selected iff some start + k * interval falls on its currency units |
| `Sampling.HitsCounted` | app/audit/sampling.py:84-94 | there are floor((T - start)/interval) + 1 hits, none when T < start |
| `Sampling.LargeItemsAreSelected` | app/audit/sampling.py:82-102 | an item as large as the interval is always selected |
| `Sampling.CoverIsUnique` | app/audit/sampling.py:86-94 | a point falls on one item |

## Left out

- Sampling.MusSample: the draw of the start between 0 and the interval is a parameter; a method that never ends cannot be written here, so the endless case is an outcome of its own.
- EventStream.Message.ApplyAllAppend: JSON numbers are kept as written: rounding to doubles (the printed form of a number delta, an underflow to zero) is not modelled; the server prints no numbers.
- EventStream.ParseSSE: works on characters; splitting UTF-8 sequences between chunks is the browser's decoder, which is not modelled (the printed stream is ASCII, `QueryStream.PrintedIsAscii`).
- Json.RoundTrip: the objects printed are flat, of strings, booleans and null, as the stream prints them; the reader takes all JSON, and nothing is proved of how it reads numbers, arrays and nested objects.
- Pretranslation.TranslateToHebrew: an answer is an arbitrary value per field; prompts, batching and the cleaning of the model's reply (fences, labels) are not modelled.
- CitationValidator.ValidateCitations: dictionary entries are strings or missing; a null quote raises in the source.
- CitationValidator.NormalizeKeepsSubstring: lower-casing is one function per character; Python's context-sensitive cases are not modelled.
- Chunker.ChunkText: the two regular expressions are modelled by hand as functions.
- LlmClient.HealthyKeyAnswers: assumes one request at a time; the streaming request path and the sleeps between retries are not modelled.
- KeyRotation.KeyRotator.Acquire: the lock makes each call atomic; masking and the snapshot are not modelled.
- Detection.DetectWithConfidence: prompts, timeouts and the answer's parsing are not modelled: each attempt is an arbitrary value; rounding is a parameter, and nothing is claimed about the confidence of an attempt returned untouched.
- Corpus.SampleIsEven: the step is the exact quotient; the source multiplies floating-point numbers. The notices appended to a sampled or cut corpus are left out.
- FetchCache.NotModifiedIsServed: the hash in the key is taken to be injective and tags to be strong validators; which parser a 304 selects, robots.txt and the malformed index are not modelled.
- FetchGate.CapsAndSpacing: the clock is a real number that a sleep does not undercut.
- RunStream.Gen: polls are reads of the committed row; the sleep of a second between them is not modelled, nor the payload's confidence.
- Orchestration.Session.CompareAll: what the agents and verifiers write into an issue is an arbitrary text; the locale and the override of the framework are left out.
- VectorStore.FusedBounds: the tokenizer is a parameter and the square root exact.
- Anomalies.ZScoreBound: amounts are real numbers; floating-point rounding and NaN are not modelled anywhere.
- BankReconciliation.Reconcile: the text similarity is an arbitrary function into 0..100, dates are day numbers.
- PdfStub.StubPdf: fonts, pages and the two full renderers are not modelled.
- Random and stratified sampling, attribute sample sizes, the Hebrew merge of the export, Markdown to HTML, ratios, three-way match and the journal-entry tests: only easy members.
- HTTP, databases, object storage, authentication, telemetry, interface components: state kept, plumbing left out.
