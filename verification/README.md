# repolm governance core, modelled in Dafny

This project models the layer of repolm that decides what work the server
takes on and how it keeps that work bounded. The pieces are:

- **Job queue** (`JobQueue`): the worker pools. A job runs at once below 80 %
  utilisation; otherwise it waits in a FIFO of at most 50, or it is turned
  away.
- **Per-IP limits** (`IpLimit`): at most two concurrent ingests and three
  streams per client address.
- **Upstream model calls** (`CircuitBreaker`, `Retry`): the circuit breaker
  and the retry loop with its 2/4/8-second backoff.
- **Expiring store** (`TtlStore`): the in-memory store with expiry and
  least-recently-used eviction.
- **Database tables** (`JobStatus`, `RateLimits`, `Accounts`): job progress
  rows, the sliding-window rate limiter, token balances with their ledger,
  the daily API-call counter and the monthly repository quota.
- **Admission of a repository** (`RepoUrl`, `Admission`): the path of
  `add_repo`. It covers:
  - GitHub URL admission and normalisation;
  - the ready-cache shortcut;
  - the per-IP slot and the token charge;
  - the job row and the queue submission;
  - the slot release, which happens exactly once on each return path.
- **Text and data pipelines**:
  - ingestion of a checked-out repository (`Ingest`): its filters, language
    count, priority-first ordering, reading budget and text assembly;
  - ingestion of an uploaded folder (`Upload`);
  - turning a generated JSON reply into a repository (`ConceptLab`);
  - system-prompt assembly (`Prompts`);
  - the learning-path catalogue (`LearningPaths`).

Every component is an immutable value, and every operation is a pure
transition function. A block that the source guards with a lock becomes one
atomic step. Clock readings are passed in as an explicit integer `now` in
seconds. Calendar strings, the JSON decoder, the upstream model's behaviour
and the directory walk are also parameters.

Shared helpers:

- `Wrappers`: Option and Result.
- `Seqs`: filtering, duplicate-freedom and first-occurrence removal.
- `StableSort`: a stable insertion sort on an integer-pair rank, proved to
  sort, to permute and to be stable.
- `Text`: `strip`, `splitext`, `basename`, ASCII case mapping and joining.

## Model

| member | source | states |
|---|---|---|
| JobQueue.Submit | src/concurrency.py:112-131 | A job runs exactly when 5·active < 4·max_workers, which never holds with no workers, and active then grows by one. Otherwise it is queued exactly when fewer than 50 wait: it joins the back of the queue and the answer is the queue's new length. Otherwise it is rejected and nothing changes. |
| JobQueue.Complete | src/concurrency.py:142-149 | A completion with an empty queue frees one worker. Otherwise the oldest queued job takes the freed worker, so active is unchanged and the queue loses its head. |
| JobQueue.Position | src/concurrency.py:151-157 | Gives the 1-based index of the job's first occurrence, and None exactly when the job is not queued. |
| JobQueue.Cancel | src/concurrency.py:159-164 | Reports true exactly when the job was queued. Active and max_workers never change, and nothing changes when the job was not queued. |
| JobQueue.ThresholdIsUtilization | src/concurrency.py:119-120 | The integer test 5·active < 4·max agrees with the floating comparison active/max < 0.8. A pool with no workers never counts as below the threshold. |
| JobQueue.SubmitKeepsInv | src/concurrency.py:112-131 | A submission preserves four facts: active ≤ max_workers, at most 50 queued, no duplicates, and a non-empty queue only at or above the threshold. |
| JobQueue.CompleteKeepsInv | src/concurrency.py:142-149 | A completion preserves the pool invariant. |
| JobQueue.CancelKeepsInv | src/concurrency.py:159-164 | A cancellation preserves the pool invariant. |
| JobQueue.QueuedJobsGoFirst | src/concurrency.py:119-149 | While jobs wait, a new submission never starts, and a completion hands the worker to the oldest waiting job. |
| JobQueue.SubmitPositionAgrees | src/concurrency.py:125-157 | The position that submit reports for a new queued job is the one get_position then reports. |
| JobQueue.PositionUnique | src/concurrency.py:151-157 | A job whose first occurrence is at index i has position i + 1. |
| JobQueue.CancelShiftsPositions | src/concurrency.py:151-164 | After a cancellation, every job behind the cancelled one moves forward one place. Jobs ahead of it keep their place. |
| JobQueue.Step | src/concurrency.py:112-164 | One submit, completion or cancel event is possible unless it is a completion with nothing running. |
| JobQueue.RunKeepsInv | src/concurrency.py:112-164 | Over any sequence of submissions, completions of running jobs and cancellations, the invariant holds. In particular, active ≤ max_workers. |
| JobQueue.StepIsFifo | src/concurrency.py:125-149 | A submission only appends at the back of the queue, and a completion only takes from the front. |
| JobQueue.DispatchIsFifo | src/concurrency.py:125-149 | With no cancellations, the jobs handed from the queue to workers are the oldest waiting or enqueued ones, in enqueue order. The rest still wait in that order. |
| JobQueue.TwoWorkersFiveJobs | src/concurrency.py:112-149 | Two workers and five submissions: two jobs run, three wait at positions 1, 2 and 3, and the first completion starts the third job. |
| IpLimit.TryAcquire | src/concurrency.py:47-54 | Succeeds exactly when the IP's count is below the cap. It then increments the count and marks the context as holding a slot. Otherwise nothing changes. |
| IpLimit.Release | src/concurrency.py:56-64 | Acts only for a context holding a slot. The count drops by one, or the entry is removed when it would reach zero. Afterwards the context holds nothing. |
| IpLimit.Acquire | src/concurrency.py:67-78 | Returns a held context exactly when the IP is below the cap (2 for ingests, 3 for streams), and its count then grows by one. Otherwise it returns None and nothing changes. |
| IpLimit.AcquireReleaseKeepValid | src/concurrency.py:47-64 | Every stored count stays between 1 and the cap, so a count never exceeds the cap. |
| IpLimit.ReleaseUndoesAcquire | src/concurrency.py:47-64 | Releasing the slot just acquired restores the table exactly, including deleting the entry. |
| IpLimit.ReleaseIsIdempotent | src/concurrency.py:56-64 | A second release of the same context changes nothing. |
| IpLimit.IngestCapScenario | src/concurrency.py:35-78 | For one IP, two ingest acquisitions succeed and the third is refused. After one release, the next acquisition succeeds. |
| CircuitBreaker.RecordSuccess | src/services/llm.py:43-49 | The failure streak resets to 0 and total_calls grows by one. The latency is appended, and the list keeps at most the last 100 samples. |
| CircuitBreaker.RecordFailure | src/services/llm.py:51-59 | The streak, total_errors and total_calls each grow by one. At or past the threshold, open_until becomes now + cooldown, and the streak is not reset. |
| CircuitBreaker.GetStats | src/services/llm.py:61-71 | circuit_open is is_open, and consecutive_failures is the streak. |
| CircuitBreaker.IsOpen | src/services/llm.py:37-41 | A breaker that never opened (open_until 0) is closed at every instant from 0 on. |
| CircuitBreaker.FreshIsClosed | src/services/llm.py:26-41 | A new breaker is closed at every non-negative instant. |
| CircuitBreaker.ErrorsWithinCalls | src/services/llm.py:43-56 | After any sequence of records, total_errors ≤ total_calls, and total_calls grows by one per record. |
| CircuitBreaker.ThresholdFailuresOpen | src/services/llm.py:51-59 | From a zero streak, threshold failures make the breaker open exactly until the last failure's time plus the cooldown. |
| CircuitBreaker.StreakCount | src/services/llm.py:51-59 | Once a run of failures reaches the threshold, each further failure pushes the reopening to its own time plus the cooldown. |
| CircuitBreaker.SuccessResetsStreak | src/services/llm.py:43-46 | One success resets the streak, whatever it was. |
| Retry.RetryableErrors | src/services/llm.py:95-101 | An error is retried exactly when it is a 429, 500, 502 or 503 status, a failed connection or a timeout. |
| Retry.RetriedStatuses | src/services/llm.py:95-101 | Among 4xx statuses only 429 is retried; among 5xx statuses 500, 502 and 503; no other status. |
| Retry.Loop | src/services/llm.py:112-136 | The loop ends after at least one and at most len(RETRY_DELAYS) + 1 attempts. |
| Retry.LoopSleeps | src/services/llm.py:112-131 | The loop sleeps the configured delays in order, one per retried attempt and none after the last attempt. |
| Retry.LoopPathSpec | src/services/llm.py:112-136 | Every attempt before the last raised a retryable error, and the loop returns exactly when its last attempt answered. It never ends with the circuit open. |
| Retry.LoopReportSpec | src/services/llm.py:112-136 | An answer is reported once, as a success with its latency. An error is reported once, as a failure, and it is either permanent or the last attempt's. An answer without choices is reported as a success and then a failure, and is not retried. The loop ends at the start clock plus the seconds every attempt took plus the seconds slept, and a failure is reported at that instant. |
| Retry.CallLlm | src/services/llm.py:104-139 | The call fails fast exactly when the breaker is open, with no attempt and the breaker unchanged. Otherwise it makes 1 to 4 attempts and sleeps 2, 4 and 8 seconds in order. A returned text is the last attempt's answer and is recorded as a success. A raised error is the last attempt's, is recorded as a failure, and is permanent or came at the fourth attempt. An answer without choices is recorded as a success and then a failure, and the call fails with that IndexError. Unless it fails fast, the call ends at `now` plus the seconds its attempts took plus the seconds slept, which is the time the failure is recorded at, so the breaker reopens `cooldown` seconds after it. |
| Retry.CallCounts | src/services/llm.py:104-139 | A returned text resets the streak and adds one call and no error. A raised error adds one call, one error and one to the streak. An answer without choices adds two calls and one error and leaves a streak of 1. A fast failure on an open circuit changes nothing. |
| Retry.TwoThrottlesThenSuccess | src/services/llm.py:104-134 | Two 429 answers and then an answer: the text is returned after sleeping 2 and then 4 seconds, with exactly one success reported. |
| Retry.PermanentErrorNotRetried | src/services/llm.py:127-136 | A non-retryable first error is re-raised after one attempt with no sleep, and one failure is reported. |
| TtlStore.New | src/state.py:25-32 | A new store is empty, valid, and has the given default ttl and size bound. |
| TtlStore.EffectiveTtl | src/state.py:59 | An absent or zero ttl falls back to the default. Any other ttl is used as given. |
| TtlStore.Get | src/state.py:34-48 | Returns the value exactly for a live entry and makes that entry the most recently used. An expired entry is dropped from the data, the expiries and the order. A missing key leaves the store alone. |
| TtlStore.Contains | src/state.py:71-72 | Holds exactly for a live entry, with the same effect on the store as a get. |
| TtlStore.Set | src/state.py:50-62 | The key holds the value, expires ttl (or the default) after now, and is the most recently used. The least recently used entry is removed only when a new key enters a full bounded store. |
| TtlStore.Delete | src/state.py:64-69 | The key leaves the data, the expiries and the order. Nothing else changes, and an absent key is a no-op. |
| TtlStore.Cleanup | src/state.py:83-94 | Exactly the entries whose expiry has passed are removed, and their number is returned. The remaining values are unchanged, and the surviving keys keep their order of use. |
| TtlStore.GetKeepsValid | src/state.py:34-48 | After a get, the order list is still duplicate-free and holds exactly the stored keys. |
| TtlStore.EvictKeepsValid | src/state.py:53-57 | Eviction keeps the store valid. |
| TtlStore.SetKeepsValid | src/state.py:50-62 | A set keeps the store valid. |
| TtlStore.DeleteKeepsValid | src/state.py:64-69 | A delete keeps the store valid. |
| TtlStore.CleanupKeepsValid | src/state.py:83-94 | A cleanup keeps the store valid. |
| TtlStore.OrderMatchesSize | src/state.py:96-98 | The order list has one entry per stored key. |
| TtlStore.SetThenGet | src/state.py:34-62 | A value written at now reads back before its expiry instant, and not from then on. |
| TtlStore.SetRespectsBound | src/state.py:50-62 | A bounded store never holds more entries than its bound. |
| TtlStore.EvictsLeastRecent | src/state.py:53-57 | A new key entering a full store evicts exactly the least recently used entry. Every other entry stays. |
| TtlStore.GetRefreshes | src/state.py:37-42 | A live read moves the key to the back of the order, and the other keys keep their order. |
| TtlStore.CleanupAgreesWithGet | src/state.py:83-94 | An entry survives a cleanup exactly when a read at the same instant would return it. |
| TtlStore.CleanupCount | src/state.py:83-98 | The reported count is the drop in size, and a second cleanup at the same instant removes nothing. |
| TtlStore.ReadProtectsFromEviction | src/state.py:34-62 | In a store bounded to two entries, reading the older entry makes the other one the victim of the next insertion. |
| JobStatus.CreateJob | src/db_postgres.py:578-586 | An upsert: the id gets the given kind, status, message and repo id, stamped now. A new row starts with no result. An existing row keeps its creation time and result. Other rows are unchanged. |
| JobStatus.UpdateJob | src/db_postgres.py:589-606 | Only the given fields are written, and the time is always stamped. Other fields and other rows are unchanged, and an unknown id is a no-op. |
| JobStatus.GetJob | src/db_postgres.py:609-613 | Returns the stored row, or None exactly when there is none. |
| JobStatus.CleanupOldJobs | src/db_postgres.py:616-620 | Deletes exactly the rows created before now − hours·3600 and keeps the others unchanged. |
| JobStatus.CreateUpdateGet | src/db_postgres.py:578-613 | A job created and then updated reads back with the newest fields and its first creation time. |
| JobStatus.RecreateKeepsResult | src/db_postgres.py:578-606 | Re-creating a job resets its status but keeps its result and its creation time. |
| JobStatus.CleanupIdempotent | src/db_postgres.py:616-620 | A second cleanup at the same instant deletes nothing. |
| RateLimits.InWindow | src/db_postgres.py:625-640 | Keeps exactly the stamps with now − t < window. |
| RateLimits.CheckRateLimitDb | src/db_postgres.py:625-640 | The call is limited exactly when at least max stamps remain in the window, and then nothing is written. Otherwise now is appended to the in-window stamps and stored. |
| RateLimits.AdmittedListBounded | src/db_postgres.py:625-640 | After an admitted call, the stored list holds at most max stamps, all inside the window. |
| RateLimits.BurstAdmitsUpToMax | src/db_postgres.py:625-640 | Of n calls arriving together, exactly min(n, room) are admitted, where room is max minus the stamps already inside the window. |
| RateLimits.AdmitFillsWindow | src/db_postgres.py:625-640 | An admitted call adds exactly one stamp to the window. |
| Accounts.GetTokenBalance | src/db_postgres.py:466-470 | A missing user or an empty balance reads as 0. |
| Accounts.SpendTokens | src/db_postgres.py:473-484 | Succeeds exactly when the user exists with a balance of at least the amount. The balance then drops by exactly the amount, one −amount "spend" row is appended, and the balance stays non-negative. Otherwise nothing changes. |
| Accounts.LedgerAccountsForBalance | src/db_postgres.py:473-484 | Over any run of spends, each balance moves by exactly the net of its ledger rows, and a non-negative balance stays non-negative. |
| Accounts.CheckApiRateLimit | src/db_postgres.py:799-812 | An unknown user is denied. A new day resets the counter to 1 and allows the call. On the same day, the call is allowed and counted exactly while the counter is below the limit, and a denial changes nothing. |
| Accounts.DailyLimitHolds | src/db_postgres.py:799-812 | On one day, a user gets at most the day's remaining allowance of calls through. |
| Accounts.IncrementRepoCount | src/db_postgres.py:553-561 | Adds one within the recorded month and resets to 1 in a new month, recording that month. Other users are unchanged, and a missing user is left alone. |
| Accounts.CheckRepoLimit | src/db_postgres.py:564-573 | Allows a missing user, an active pro subscriber, and a count from another month. Otherwise it allows exactly when the month's count is below 3. |
| Accounts.CountAfterNewMonth | src/db_postgres.py:553-561 | After n ≥ 1 repositories in a month not yet recorded, the month's count is n. |
| Accounts.SameMonthAdds | src/db_postgres.py:553-561 | Within the recorded month, n repositories add n to the count. |
| Accounts.FreeQuotaIsThreePerMonth | src/db_postgres.py:553-573 | Without an active pro subscription, the third repository of a month is allowed, the fourth is refused, and the next month allows again. |
| Ingest.DetectLanguage | src/ingest.py:127-140 | The language of the lower-cased extension from the table, or "Other". |
| Ingest.ShouldSkipDir | src/ingest.py:87-88 | A directory is skipped exactly when its name is listed or begins with a dot. |
| Ingest.ShouldSkipFile | src/ingest.py:91-98 | A file is skipped exactly when the lower-cased splitext extension of its base name is listed, or its base name ends in .min.js or .min.css. |
| Ingest.SkipsListedExtension | src/ingest.py:91-98 | A name made of a stem that does not start with a dot and a one-dot listed extension, in any letter case, is skipped, at the top or under any directory. |
| Ingest.IsPriority | src/ingest.py:172 | A path is a priority file exactly when it is one of the 22 priority names or ends with '/' followed by one. |
| Ingest.FiltersUseBaseName | src/ingest.py:91-98 | Only the last path component decides whether a file is skipped or a priority file. |
| Ingest.LanguageUsesBaseName | src/ingest.py:127-140 | Only the last path component decides a file's language. |
| Ingest.Bump | src/ingest.py:190-191 | Counting one more file raises the total count by one. |
| Ingest.BumpSpec | src/ingest.py:190-191 | A new language is appended at the end with count 1, as a dict inserts a new key. A known language keeps its place, and only its count changes, by one. The table stays duplicate-free. |
| Ingest.Counted | src/ingest.py:190-191 | Counting a sequence of detections gives a table whose counts add up to the number of detections. |
| Ingest.CountedSpec | src/ingest.py:190-191 | The table lists each detected language once, in order of first appearance, with the number of times it was detected. |
| Ingest.Walked | src/ingest.py:157-158 | The walk reaches exactly the files under no skipped directory. |
| Ingest.CollectWith | src/ingest.py:156-173 | The candidates are exactly the reached files that pass the name filter and have a known size within MAX_FILE_SIZE, in walk order, each with its priority. Candidates, skips and files whose size query fails add up to the files reached. |
| Ingest.Collect | src/ingest.py:156-173 | The same with should_skip_file and the priority test: exactly the passing files become candidates, in walk order. Every other reached file counts as skipped, except one whose size query fails. |
| Ingest.Take | src/ingest.py:190-199 | A taken file is appended whole, with its size equal to its length, and the total grows by that length. |
| Ingest.Read | src/ingest.py:179-199 | Every candidate is either kept or counted as skipped, and files already kept stay in front. |
| Ingest.ReadStep | src/ingest.py:179-199 | One pass takes the candidate if the total is below the budget and the file is readable; otherwise only the skip count grows. |
| Ingest.ReadKeepsBudgeted | src/ingest.py:179-199 | The kept files are exactly the readable candidates met before the total reaches the budget, whole and in order, with their paths and priorities. The total grows by their text, and every other candidate is skipped. |
| Ingest.CutIsFirstFull | src/ingest.py:180-182 | The loop meets candidates below the budget up to the first index where the readable text before it fills the budget. |
| Ingest.IngestKeepsBudgeted | src/ingest.py:179-199 | An ingested repository stores exactly the readable sorted candidates met before 500,000 characters are reached, with their paths, texts and priorities. Every candidate from the first one met with the budget full is skipped. |
| Ingest.IngestRepo | src/ingest.py:143-201 | The data carries the clone's name, the URL and the tree drawing. |
| Ingest.TakeKeepsInv | src/ingest.py:179-199 | Taking a file while the total is below the budget keeps the accumulator's bookkeeping. |
| Ingest.ReadKeepsInv | src/ingest.py:179-199 | The reading loop keeps four facts: the total is the sum of the sizes, the language counts add up to the file count, the languages are distinct, and the total minus the last file is below the budget. |
| Ingest.IngestTotals | src/ingest.py:179-199 | total_chars is the sum of the kept sizes and overshoots 500000 by less than the last file. The language counts add up to the number of files, no language is listed twice, and kept plus skipped files never exceed the files walked. Kept, skipped and size-failed files add up to the files the walk reaches. |
| Ingest.Detected | src/ingest.py:190 | One detection per kept file, in order, each the language of that file's path. |
| Ingest.IngestLanguages | src/ingest.py:179-199 | language_stats lists the languages of the kept files in order of first appearance, and each count is the number of kept files of that language. |
| Ingest.ReadKeepsOrder | src/ingest.py:176-199 | Reading sorted candidates never appends a priority file after a regular one. |
| Ingest.PriorityFilesFirst | src/ingest.py:172-199 | The kept files come priority first. |
| Ingest.OrderIsSortedPermutation | src/ingest.py:175-176 | The sort keeps every candidate and orders them priority first, then by ascending size. Candidates of equal (priority, size) keep their walk order, as Python's stable sort does. |
| Ingest.Header | src/ingest.py:208-218 | The title line names the repository, the second gives the URL, the third the file and skip counts. A languages line follows exactly when there are languages. The last section is the directory tree. |
| Ingest.TopLanguages | src/ingest.py:213 | The top n entries: min(n, size) of them, all taken from the table. |
| Ingest.TopLanguagesSpec | src/ingest.py:213 | The shown entries are the n most frequent, by descending count. Entries with equal counts keep their table order, and no entry left out has a larger count than one shown. |
| Ingest.LanguagesLine | src/ingest.py:213-215 | The line starts with "Languages: ". A single language is shown as its name, a colon and its count. |
| Ingest.FileSections | src/ingest.py:222-224 | One section per file, in the given order. |
| Ingest.Sections | src/ingest.py:204-228 | The header is followed by one section per file, in emission order. |
| Ingest.RepoToText | src/ingest.py:204-228 | The text opens with the title line and a newline. A repository without files ends with the directory tree. |
| Ingest.EmitOrderPermutes | src/ingest.py:220-224 | The emission order is a permutation of the files. |
| Ingest.EmitOrderSpec | src/ingest.py:220-224 | Each file is emitted once and priority files come first. Files already in priority-first order are emitted in stored order. |
| Ingest.PartitionedSplit | src/ingest.py:220-224 | Splitting priority-first files into the two groups and joining them again gives the same sequence. |
| Ingest.SkipDirExamples | src/ingest.py:87-88 | "*.egg-info" is skipped only literally; hidden and listed names are skipped and "src" is not. |
| Ingest.TwoDotEntriesNeverMatch | src/ingest.py:91-98 | A lower-cased extension is never ".min.js" or ".min.css". |
| Ingest.SkipMinifiedExamples | src/ingest.py:91-98 | Minified bundles are skipped by the ending of their name. |
| Ingest.SkipImageExample | src/ingest.py:91-98 | Extensions are compared in lower case ("Logo.PNG" is skipped). |
| Ingest.KeepSourceExample | src/ingest.py:91-98 | "src/main.py" is not skipped. |
| Ingest.DetectLanguageExample | src/ingest.py:127-140 | "Layout.XML" is XML. |
| Ingest.OtherLanguageExamples | src/ingest.py:127-140 | "Makefile" and ".bashrc" are "Other". |
| RepoUrl.ShorthandSound | src/routes/repo.py:193 | A shorthand match is an owner run, a '/' and a repo run, followed by at most a final newline. |
| RepoUrl.ShorthandComplete | src/routes/repo.py:193 | Every string of that shape matches the shorthand pattern. |
| RepoUrl.HostPrefix | src/routes/repo.py:200-202 | Finds the one host prefix, of the four the pattern allows, that the URL starts with, if any. |
| RepoUrl.ParseGh | src/routes/repo.py:200-203 | A match places the host, owner, '/', repository and tail by index, each in the allowed form. |
| RepoUrl.ParseGhSound | src/routes/repo.py:200-203 | What the strict pattern accepts is host + owner + "/" + repo + tail, each in the allowed form. |
| RepoUrl.ParseGhComplete | src/routes/repo.py:200-203 | Every URL of that shape is accepted and split the same way. |
| RepoUrl.FirstKw | src/routes/repo.py:209 | Finds the leftmost keyword-segment match at or after a position, or None when there is none. |
| RepoUrl.StripKeyword | src/routes/repo.py:209 | The URL is cut at the first keyword match, keeping a final newline, or left unchanged when there is no match. |
| RepoUrl.Clean | src/routes/repo.py:207-208 | The query and the fragment are gone, and the URL does not grow. |
| RepoUrl.NormalizeAsWritten | src/routes/repo.py:207-209 | The normalisation as written leaves no query or fragment and never lengthens the URL. |
| RepoUrl.Normalize | src/routes/repo.py:207-209 | The intended normalisation leaves no query or fragment and never lengthens the URL. |
| RepoUrl.NormalizeKeepsOwner | src/routes/repo.py:207-209 | The intended normalisation keeps the host, the owner and the following '/'. |
| RepoUrl.CleanKeepsRepoBeforeTail | src/routes/repo.py:207-208 | Cutting the query, the fragment and ".git" keeps owner/repo when a path follows it. |
| RepoUrl.CleanKeepsBareRepo | src/routes/repo.py:207-208 | A URL without a tail is kept whole unless its repository ends in ".git". |
| RepoUrl.NormalizeKeepsRepo | src/routes/repo.py:207-209 | The intended normalisation keeps the whole owner/repo head, except for a ".git" that ends the URL. |
| RepoUrl.AgreeUnlessKeywordInPath | src/routes/repo.py:207-209 | The as-written and the intended normalisations agree whenever no keyword segment starts inside owner/repo. |
| RepoUrl.Admit | src/routes/repo.py:186-209 | The URL step as written answers the normalised URL or a 400. |
| RepoUrl.Accept | src/routes/repo.py:196-209 | The checks on the expanded URL fail only with a 400. |
| RepoUrl.HostsAreHttp | src/routes/repo.py:196-203 | Anything the strict pattern accepts starts with "http", so the "http" check rejects nothing extra. |
| RepoUrl.AdmitIff | src/routes/repo.py:186-209 | A URL is admitted exactly when, after trimming and shorthand expansion, it is non-empty and the strict pattern accepts it. The answer is that URL normalised as written. |
| RepoUrl.AcceptIff | src/routes/repo.py:196-209 | An expanded URL is accepted exactly when the strict pattern matches it, and the answer is that URL normalised as written. |
| RepoUrl.AdmitIntended | src/routes/repo.py:186-209 | The URL step with the intended normalisation answers a URL or a 400. |
| RepoUrl.AcceptIntended | src/routes/repo.py:196-209 | The checks followed by the intended normalisation fail only with a 400. |
| RepoUrl.AdmitIntendedIff | src/routes/repo.py:186-209 | The intended step admits exactly the same URLs, and answers the URL with only what follows owner/repo cut. |
| RepoUrl.AcceptIntendedIff | src/routes/repo.py:196-209 | An expanded URL passes the intended checks exactly when the strict pattern matches it. |
| RepoUrl.AdmitAgrees | src/routes/repo.py:186-209 | The two steps admit the same URLs. They give the same answer unless a keyword segment starts inside the accepted owner/repo. |
| RepoUrl.ExpandShorthand | src/routes/repo.py:193-195 | An expanded shorthand is accepted, with the shorthand's owner and repository. |
| RepoUrl.ShorthandAdmitted | src/routes/repo.py:191-209 | A shorthand is always admitted, by both steps. |
| RepoUrl.AdmittedKeepsOwner | src/routes/repo.py:199-209 | A URL admitted by the intended step keeps the host, the owner and the '/' of the URL the pattern accepted. |
| RepoUrl.KwAtStart | src/routes/repo.py:209 | A keyword match starts with '/' followed by a keyword's first letter. |
| RepoUrl.CheckoutFirstKeyword | src/routes/repo.py:209 | In https://github.com/actions/checkout, the leftmost keyword match is the owner's "/actions/". |
| RepoUrl.CheckoutAdmitted | src/routes/repo.py:186-209 | The intended step admits that URL unchanged. |
| RepoUrl.CheckoutAdmittedAsWritten | src/routes/repo.py:186-209 | The step as written admits that URL as the bare host https://github.com. |
| RepoUrl.CheckoutAsWritten | src/routes/repo.py:209 | The normalisation as written cuts that URL down to "https://github.com". |
| RepoUrl.OwnerNamedLikeKeyword | src/routes/repo.py:209 | On that URL, the step as written answers https://github.com while the intended one keeps the URL whole. |
| Admission.StartIngest | src/routes/repo.py:219-253 | From the slot onward, a refusal is only ever 429, 402 or 503, and never a cache hit. |
| Admission.AddRepo | src/routes/repo.py:182-253 | The handler refuses only with 400, 402, 429 or 503. Its URL step is the normalisation as written. |
| Admission.FinishIngest | src/routes/repo.py:238-242 | When a task ends, its job no longer holds a slot, a job that held none leaves the counts alone, and the pool records one completion. |
| Admission.SlotRefusalsChangeNothing | src/routes/repo.py:219-231 | The 429 comes exactly when the IP is at its cap. A 429 or a 402 leaves the whole server unchanged: no charge, no job, no submission, no slot. |
| Admission.RejectedSubmitReleases | src/routes/repo.py:244-247 | A 503 gives the slot back at once: counts, holders and pool are as before. The job row remains queued. |
| Admission.AcceptedHoldsSlot | src/routes/repo.py:225-253 | An accepted job holds one more slot of its IP, recorded against its id. A signed-in user pays exactly 1, with one ledger row. A queue position is returned exactly when the job was queued. |
| Admission.AcquireKeepsAgree | src/routes/repo.py:220-223 | Taking a slot for a fresh job keeps each IP's count equal to the number of jobs holding its slots. |
| Admission.StartIngestKeepsInv | src/routes/repo.py:219-247 | Admission keeps the slot accounting on every path. |
| Admission.AddRepoKeepsInv | src/routes/repo.py:182-253 | The whole handler keeps the slot accounting. |
| Admission.OnlyAcceptedHoldsSlots | src/routes/repo.py:182-253 | Every answer except an accepted job leaves the slot table and the holders as they were. |
| Admission.CacheHitIsFree | src/routes/repo.py:211-217 | A cache hit returns a cached ready id and changes nothing: no slot, no charge. |
| Admission.FinishReleasesOnce | src/routes/repo.py:238-242 | Finishing a task lowers its IP's count by exactly one and leaves every other IP's count alone. |
| Admission.FinishKeepsInv | src/routes/repo.py:238-242 | Finishing a task keeps the slot accounting. |
| Admission.HolderRoundTrip | src/routes/repo.py:221-242 | Releasing the slot recorded for a new job restores the counts and the holders. |
| Admission.AcceptThenFinishRestoresSlots | src/routes/repo.py:219-247 | Admitting a job and then finishing it restores the slot table and the holders exactly, so the slot is released exactly once. |
| Admission.AtMostTwoPerIp | src/routes/repo.py:219-247 | With the accounting kept, no IP has more than two ingest tasks holding slots. |
| Upload.FolderName | src/routes/repo.py:105-106 | The folder is the first path's leading component when that path has a '/'. Otherwise it is "uploaded-project". |
| Upload.RelPath | src/routes/repo.py:115 | A path starting with the folder and '/' loses exactly that prefix. Any other path is kept. |
| Upload.Process | src/routes/repo.py:113-146 | Every file is either kept or counted as skipped, and earlier kept files stay in front. |
| Upload.Processed | src/routes/repo.py:113-146 | Kept files plus skips equal the files uploaded. |
| Upload.UploadHeader | src/routes/repo.py:150-153 | Three header lines when there are languages, two otherwise, the first naming the project. |
| Upload.UploadSections | src/routes/repo.py:150-161 | The header is followed by one section per file, priority files first. |
| Upload.UploadData | src/routes/repo.py:162-167 | The URL is "upload://" + name and the tree is empty. Kept files plus skips equal the files uploaded. |
| Upload.UploadIngest | src/routes/repo.py:99-176 | total_chars stays within 500000. The stored files are the kept files, reordered priority first and then by size. The text is the header followed by one section per stored file, in stored order. |
| Upload.StepSpec | src/routes/repo.py:113-146 | A file is kept exactly when it passes the name filter, is within 100000 bytes, decodes, and fits whole in what is left of the budget. It is then appended with its relative path, text and priority. Otherwise only the skip count moves. |
| Upload.StepKeepsInv | src/routes/repo.py:113-146 | One loop pass keeps the total within 500000 and equal to the sum of the sizes. |
| Upload.ProcessKeepsInv | src/routes/repo.py:113-146 | The whole loop keeps the total within 500000 and equal to the sum of the sizes. |
| Upload.ProcessKeepsOnlyPassing | src/routes/repo.py:113-146 | Every kept file is an uploaded file that passed every filter, with its decoded text. |
| Upload.UploadWithinBudget | src/routes/repo.py:134-146 | total_chars is the sum of the kept sizes and never exceeds 500000. The language counts add up to the file count. |
| Upload.SortKeepsOnlyPassing | src/routes/repo.py:113-148 | Sorting keeps only files that passed the filters. |
| Upload.UploadKeepsOnlyPassing | src/routes/repo.py:113-148 | Every stored file comes from an uploaded file under no skipped directory, with no skipped name, within the size limit, and decoded to exactly its content. |
| Upload.UploadOrder | src/routes/repo.py:148 | The stored files are the kept files reordered, priority first and then by ascending size. Files of equal rank stay in upload order. |
| Upload.RankedIsPriorityFirst | src/routes/repo.py:148 | Sorted files have no regular file before a priority file. |
| Upload.UploadTextFollowsOrder | src/routes/repo.py:150-161 | After the header, the k-th section is the k-th stored file's. |
| Upload.SectionsInOrder | src/routes/repo.py:150-161 | For files already priority first, the sections are the header followed by one section per file in stored order. |
| Upload.UploadLanguages | src/routes/repo.py:139-140 | The language counts list the kept files' languages in order of first appearance, each with its number of files. The stored languages are the top 10 of those counts. |
| ConceptLab.WordRun | src/concept_lab.py:63 | Finds the longest prefix of `\w` characters. |
| ConceptLab.StripOpening | src/concept_lab.py:63 | Exactly the longest prefix of three backticks, word characters and at most one newline is cut. |
| ConceptLab.StripClosing | src/concept_lab.py:64 | Removing the closing fence never lengthens the text. |
| ConceptLab.StripFences | src/concept_lab.py:60-65 | The result has no whitespace at either end and is no longer than the reply. |
| ConceptLab.BraceSpan | src/concept_lab.py:71 | A found span starts with '{' and ends with '}'. |
| ConceptLab.Decode | src/concept_lab.py:67-78 | A reply that decodes is taken as it is. Otherwise the brace span is decoded, and with no span there is nothing. There is a value exactly when the reply or its brace span decodes. |
| ConceptLab.Entries | src/concept_lab.py:85-86 | The kept entries are a subsequence of the items. |
| ConceptLab.FileOf | src/concept_lab.py:87-92 | The file keeps the entry's path. Its size is the content's len, which for a string is its length and the content itself. It is a priority file exactly when its path is one of the five names. |
| ConceptLab.FilesOf | src/concept_lab.py:84-92 | One file per kept entry, in order. |
| ConceptLab.ConceptStats | src/concept_lab.py:99-106 | The language counts add up to the number of files. |
| ConceptLab.ConceptLanguage | src/concept_lab.py:102-104 | A listed extension gives the table's language. Any other extension gives its upper-cased self, and no extension gives "Text". |
| ConceptLab.ConceptStatsCounts | src/concept_lab.py:99-106 | The counts list the files' languages in order of first appearance, each with its number of files. |
| ConceptLab.Paths | src/concept_lab.py:121 | Lists the paths of the files, in order. |
| ConceptLab.ConceptHeader | src/concept_lab.py:108 | Two header lines, the first naming the project. |
| ConceptLab.ConceptSections | src/concept_lab.py:108-112 | The header is followed by one section per file, in order. |
| ConceptLab.Build | src/concept_lab.py:97-126 | The repository has the given name and files, and nothing skipped. |
| ConceptLab.ParseGenerated | src/concept_lab.py:57-127 | A returned repository has at least one file and nothing skipped. |
| ConceptLab.WordRunStopsAtTag | src/concept_lab.py:63 | For any tag of word characters and any rest, the word run of the tag, a newline and the rest is exactly the tag. |
| ConceptLab.OpeningOfFence | src/concept_lab.py:63 | "```tag\n" followed by the rest loses exactly the fence line. |
| ConceptLab.ClosingOfFence | src/concept_lab.py:64 | The body followed by "\n```" loses exactly the closing fence. |
| ConceptLab.FenceRoundTrip | src/concept_lab.py:60-65 | A fenced reply gives back its body, provided the tag is a word and the body has no whitespace at either end. |
| ConceptLab.BraceSpanSpec | src/concept_lab.py:71 | The search succeeds exactly when some '{' precedes some '}'. It yields the slice from the first '{' to the last '}'. |
| ConceptLab.NoRepoCases | src/concept_lab.py:67-95 | None is returned exactly in three cases: nothing decodes, the value is not an object with "files", or no entry has both "path" and "content". |
| ConceptLab.FilesOfEntries | src/concept_lab.py:84-92 | Every entry with both keys becomes a file, and every file comes from such an entry. |
| ConceptLab.KeptFiles | src/concept_lab.py:84-92 | The files are exactly the entries with both keys, one each. Sizes are content lengths, and a file is a priority file exactly when its path is one of the five names. |
| ConceptLab.ConceptTotals | src/concept_lab.py:83-126 | total_chars is the sum of the sizes and skipped is 0. The language counts add up to the file count. The URL is "concept://" + name, and the name defaults to "concept-demo". |
| ConceptLab.ConceptTextInOrder | src/concept_lab.py:108-112 | The text has a two-line header and then one section per file, in the order given. |
| ConceptLab.RaisesCases | src/concept_lab.py:85-104 | The call raises exactly when "files" cannot be iterated, or when an entry with both keys has a non-string path or a content without a length. |
| ConceptLab.ListContentIsKept | src/concept_lab.py:85-92 | An entry whose content is a list is kept, with the list's length as its size. |
| ConceptLab.ReadmeIsMarkdown | src/concept_lab.py:102-104 | "demo/README.md" counts as Markdown. |
| ConceptLab.LanguageFallback | src/concept_lab.py:102-104 | An extension missing from the table counts under its upper-cased self. |
| ConceptLab.UnknownExtensionUpperCased | src/concept_lab.py:102-104 | Example: "src/App.kt" counts as "KT". The all-inputs rule is LanguageFallback. |
| ConceptLab.NoExtensionIsText | src/concept_lab.py:102-104 | A name without an extension counts as "Text". |
| Prompts.PodcastExtra | src/config.py:259-263 | A template other than the podcast's gets no addition. |
| Prompts.SystemPrompt | src/config.py:253-264 | The prompt raises exactly when formatting the template does. |
| Prompts.DefaultPrompt | src/config.py:253-264 | With the default arguments, the fields take the high-level and amateur texts, and no template is extended, the podcast's included. |
| Prompts.FormatEscaped | src/config.py:255-258 | Formatting literal text written with doubled braces gives the literal back. |
| Prompts.FormatDepthField | src/config.py:255-256 | `{depth}` is replaced by the depth text. |
| Prompts.FormatExpertiseField | src/config.py:255-257 | `{expertise}` is replaced by the expertise text. |
| Prompts.FormatRender | src/config.py:255-258 | A template made of literals and the two fields never raises and gives the pieces with the fields filled in. |
| Prompts.SystemPromptOfPieces | src/config.py:253-264 | Such a template's prompt has the depth and expertise texts filled in, or "" for an unknown key, followed by the podcast addition. |
| Prompts.OnlyPodcastExtended | src/config.py:259-264 | Only the podcast template is extended: the beginner text for "beginner", the expert text for "expert", nothing otherwise. Any other template gives exactly its substitution. |
| Prompts.UnknownKeysFillNothing | src/config.py:101-110 | With the configured keys, an unknown depth or expertise key fills its field with "". |
| Prompts.OtherFieldRaises | src/config.py:255-258 | A template that opens with a field whose name is neither depth nor expertise, including the empty name, raises whatever follows the name. |
| Prompts.NameFieldRaises | src/config.py:255-258 | The template `{name}` raises. |
| LearningPaths.AllPaths | src/learning_paths.py:149-159 | One summary per path, in table order. |
| LearningPaths.PathById | src/learning_paths.py:162-167 | A found path has the id and is in the table. None is returned exactly when no path has the id. |
| LearningPaths.SummaryCopiesFields | src/learning_paths.py:151-158 | A summary copies id, title, description, tags, difficulty and icon, and counts the repositories. |
| LearningPaths.PathByIdIsFirst | src/learning_paths.py:162-167 | The lookup returns the path at the first index carrying the id. |
| LearningPaths.ListedIsFound | src/learning_paths.py:149-167 | When ids are distinct, every listed id leads back to the very path it summarises. |
| LearningPaths.IdsDistinct | src/learning_paths.py:6-147 | The ten configured ids are pairwise distinct. |
| LearningPaths.CatalogListing | src/learning_paths.py:6-159 | The configured table lists ten paths with their ids and repository counts, and each listed id leads back to its path. |
| LearningPaths.UnknownIdNotFound | src/learning_paths.py:162-167 | An id outside the configured ones is not found. |

## Left out

- Threads, locks and the thread pools. Each locked block is one atomic step, and handing a job to a pool is an event. The stream semaphore and `get_pool_status` are not modelled.
- Clocks and sleeping. The time is the parameter `now`, and the retry sleeps are a recorded list.
- The upstream model client and the streaming variant of `call_llm`. A call is given a script: what each of the four possible attempts would do (answer or raise, and after how long).
- CircuitBreaker.GetStats: the error rate and the average latency are floating point and not modelled.
- Retry.Loop: the `record_failure` after the retry loop can never be reached; the model shows this by ending every path inside the loop.
- Admission.AddRepo: these pieces are inputs rather than computed:
  - the rate limiter's verdict (`check_rate_limit`);
  - the signed-in user (`get_current_user`);
  - the cache lookups (a ready-cache map from URL to id).
- Admission.StartIngest: the job id is a parameter. The invariant lemmas require it to be fresh, as `uuid4` makes it in practice.
- Admission.StartIngest: the awaited calls between taking the slot (src/routes/repo.py:221) and the submission (:244) are total in the model. In the source, an exception from `get_current_user` (:225), `get_token_balance` (:228), `spend_tokens` (:232), `create_job` (:235) or `state.repos.set` (:236) leaves the handler with no `try`/`finally` around it, so the slot is never released. The slot is released exactly once only on the return paths.
- Admission.FinishIngest: `run_ingest` itself is not part of this model. A submitted task's end is the `FinishIngest` transition, whatever the task did.
- Admission.RejectedSubmitReleases: the token charge is not refunded on a 503, as in the source. The model states this but does not call it a fault.
- The background tasks `run_ingest` and `run_upload_ingest` are not modelled as written. `run_ingest` calls `ingest_repo(url, progress_callback=_progress)` (src/routes/repo.py:76), but `ingest_repo` takes only `url` (src/ingest.py:143). Both tasks also call `db_async.sync_update_job` (src/routes/repo.py:77, 103), which src/db_async.py does not define. So each task raises before it stores anything, and its `except` branch raises again. The model describes what the ingestion and upload code compute, not the job-row updates or the failure of these wrappers.
- Ingest.IngestRepo: cloning, the tree drawing and the file system are not modelled. The walk is an input listing each file's size and text, with None for a failing call.
- The Python `re` semantics are written out for the patterns used. `\w` is taken to be ASCII letters, digits and '_'.
- Text.Lower: case mapping (`Lower`, `Upper`) is ASCII only, while Python's `str.lower` and `str.upper` follow Unicode. For example, "x.\u212At" (a Kelvin sign) lowers to "x.kt" in Python, so `detect_language` answers Kotlin where Ingest.DetectLanguage answers "Other".
- ConceptLab.ParseGenerated: JSON decoding is a parameter (`json.loads`). How a non-string name or a list or object content is written into the text (`str` of a Python value) is the parameter `show`. A non-string path, and content that is a number, a boolean or null, make the call raise, which RaisesCases states.
- ConceptLab.StripClosing: its contract only bounds the length. The exact behaviour is stated for the fenced shape by ClosingOfFence.
- Prompts.SystemPrompt: the wording of the prompt texts is a parameter, and only their keys are fixed. Format specifications and conversions inside fields (`{depth:>10}`, `{depth!r}`), and element and attribute access on a field (`{depth[0]}`, `{depth.upper}`), are treated as errors. Python formats them, so `"{depth[0]}"` gives the first character of the depth text where the model raises.
- Upload.UploadIngest: file records missing "path" or "content" are not modelled. The byte length and the decoded text of an upload are independent inputs.
- TtlStore.Contains: stored values are never None, so `__contains__` is taken to be liveness. `__getitem__` and `__setitem__` are plain wrappers and have no separate model.
- The integer columns of the tables are unbounded integers, and SQL text is not modelled.
- LearningPaths: the prose of the table (titles, descriptions, repository notes) is a parameter. The ids, their order and the repository counts are fixed.

## Findings

| source | as written | input that shows it | evidently intended | confidence | as-written member | corrected member |
|---|---|---|---|---|---|---|
| src/routes/repo.py:209 | The keyword pattern `/(tree\|blob\|…\|actions\|wiki)/.*$` is searched over the whole URL, owner included. | https://github.com/actions/checkout normalises to https://github.com | Only path segments after owner/repo are cut, so the URL stays whole | not executed | RepoUrl.NormalizeAsWritten, RepoUrl.Admit, RepoUrl.CheckoutAdmittedAsWritten, RepoUrl.OwnerNamedLikeKeyword | RepoUrl.Normalize, RepoUrl.AdmitIntended, RepoUrl.NormalizeKeepsRepo, RepoUrl.AdmittedKeepsOwner |

The request handler (Admission.AddRepo) follows the source and uses the step as written, RepoUrl.Admit. The corrected step, RepoUrl.AdmitIntended, admits exactly the same URLs (RepoUrl.AdmitAgrees). It differs only in the answer.
