# PriceScout: a verified model of its algorithms

PriceScout scrapes shops and matches products across them. Around the scraping
stand a number of self-contained algorithms whose promises span many calls,
many interleavings or arbitrary input text. This project models those
algorithms in Dafny and proves what they promise; where a promise does not
hold, it gives an input on which it fails and proves exactly when it holds.

| file | what it models |
|---|---|
| `TokenBucket.dfy`, `BucketRuns.dfy` | the arithmetic of the token bucket, and whole runs of hits on one key |
| `MemoryStore.dfy`, `RedisBucket.dfy`, `RateLimiter.dfy` | the in-process bucket with its sweep, the script in Redis with its expiry, and the routing between them |
| `BraceScanner.dfy`, `JsonText.dfy` | the string-aware scanner that cuts a JSON object out of a page, and a JSON printer it inverts |
| `NaiveScanner.dfy`, `ProductSearch.dfy`, `ProductCut.dfy` | counting braces without looking at strings, how far that can be trusted, and the product search built on it |
| `LeaseLock.dfy` | the lease in Redis as a transition system over every interleaving |
| `MatchLoop.dfy`, `MatchReport.dfy`, `MatchRun.dfy`, `LearnedBarcodes.dfy` | matching one product over all stores, with search, scraping and scoring arbitrary, and the barcodes learned on the way |
| `TextLines.dfy`, `EnvBinding.dfy`, `EnvRewrite.dfy`, `EnvPlaces.dfy`, `EnvFile.dfy` | splitting a text into lines, loading a `.env` file, and rewriting one |
| `Evaluator.dfy` | the data set loader and the confusion-matrix evaluator |
| `Bench.dfy` | interpolated percentiles, and pooling the samples of parallel slots |
| `Redaction.dfy`, `HiddenTokens.dfy`, `HiddenPasswords.dfy`, `Logins.dfy`, `Patterns.dfy`, `RedactedMappings.dfy` | masking secrets in log texts and nested mappings, and exactly what that hides |
| `Wrappers.dfy`, `Basics.dfy`, `Characters.dfy` | Option, Result, distinct lists, and character classes |

Conventions. Time, tokens, confidences and latencies are real numbers. A run of
hits is a sequence of times; a run of the lock is a sequence of states and
labels. What the original mutates step by step is a class or a loop here, each
proved against a function over values, and the theorems are about those
functions. Clocks, search results, parsers, scores and the moment Redis chooses
to drop an expired key are parameters over which every theorem quantifies.

## Where the code does not do what one would expect

- **Setting the Redis clock back grants extra hits.** `updated_at` never goes
  back, but EXPIRE counts from the raw clock, so after a set-back the hash can
  vanish although the script's own clock has not moved by a window. ADR 0047
  (`docs/adr/0047-api-token-bucket-scoped-cooldown.md:34`) says that the expiry
  does not redefine the balance while there is traffic.
  `RedisBucket.OwnClockBoundFails` is a run of three hits that breaks the burst
  bound, and `RedisBucket.SetBacksCost` bounds the damage on every clock.
  `RedisBucket.OwnClockBoundIff` is exact: every run keeps the bound if and only
  if the set-backs add up to at most twice the tolerance of 1e-9, in windows.
- **Deleting the key late lets two processes in.** The challenger deletes the
  key without looking whose it is. `LeaseLock.LateDeleteBreaksExclusion` is a
  run; `LeaseLock.ExclusiveWithinIff` is exact: with deletes up to some time
  late, all runs exclude if and only if no delete comes after the deleter's own
  lease, or there are no three processes of which one deletes. The probe's own
  holder and challenger are always safe.
- **A learned barcode can be lost.** `LearnedBarcodes.TwoBrandsForget` is a run
  that ends without the barcode it had learned;
  `LearnedBarcodes.RunLosesBarcodeIff` says of every run when that happens, and
  `LearnedBarcodes.RunGoesAstrayIff` when it comes to hold another product's.
- **`.env` values do not always read back.** A value in apostrophes is accepted
  and loses them (`EnvFile.ApostrophesLost`); `EnvFile.ReadsBackIff` is exact.
- **A bearer token shows when the word is said twice.** The pattern takes the
  second word for the token (`HiddenTokens.SecondWordExposes`);
  `HiddenTokens.TokenHiddenIff` gives the exact condition on the text in front.
- **A URL password can show** when it holds a slash, as in a database URL with
  an unescaped one (`HiddenPasswords.SlashPasswordShows`), or the word and
  whitespace (`HiddenPasswords.SpacedPasswordShows`).
  `HiddenPasswords.PasswordHiddenIff` is exact for every password.
- **The naive counter stops at a brace inside a string literal**
  (`NaiveScanner.BraceInLiteralMisleads`). `NaiveScanner.CountAgreesIff` is
  exact about which literals it can be trusted with.
- **Two scopes can share a bucket** (`RateLimiter.ColonInScopeCollides`):
  exactly when one begins with the other and a colon
  (`RateLimiter.ShareABucketIff`).

## Model

| member | source | states |
|---|---|---|
| TokenBucket.RefillPathIndependent | src/scout_api/core/rate_limit.py:67-69 | Refilling in two steps, each capped at the capacity, gives what one refill over the whole time gives. |
| TokenBucket.IdleWindowRefills | src/scout_api/core/rate_limit.py:64-73 | A bucket left alone for one window is full, so that dropping it loses nothing. |
| TokenBucket.LevelInRange | src/scout_api/core/rate_limit.py:69-73 | Stored tokens stay between zero and the capacity after every hit. |
| TokenBucket.LevelHolds | src/scout_api/core/rate_limit.py:67-69 | A new bucket holds the limit; an old one its tokens plus elapsed time times limit over window, up to the limit; time running back adds nothing. |
| TokenBucket.ReportAnswers | src/scout_api/core/rate_limit.py:70-79 | A hit passes exactly with one token less a billionth, takes one token then, reports the whole tokens left and no wait, and if refused the first whole second from one up with a token. |
| TokenBucket.EveryHitRight | src/scout_api/core/rate_limit.py:67-79 | In every run of hits on one key, each hit finds, answers and leaves just that. |
| BucketRuns.TokensSpentSince | src/scout_api/core/rate_limit.py:67-73 | In every window of every run, tokens left plus hits accepted never exceed the capacity plus what flowed in, up to the tolerance per accepted hit. |
| BucketRuns.BurstBound | src/scout_api/core/rate_limit.py:67-73 | Between any two hits of any run at most capacity + rate * elapsed hits pass, up to the tolerance per accepted hit. |
| BucketRuns.LastFull | src/scout_api/core/rate_limit.py:67-73 | For every hit there is an earlier one since which nothing overflowed: the accepted hits and the tokens left add up to at least all the capacity and the flow. |
| BucketRuns.GreedyOptimal | src/scout_api/core/rate_limit.py:61-80 | Any choice of hits that respects capacity and rate in every window lets through no more than the bucket does, in every prefix of the run. |
| BucketRuns.RefusedLeaveNoTrace | src/scout_api/core/rate_limit.py:67-79 | Deleting any set of refused hits from a run leaves every other hit's allowed, remaining and retry answers unchanged. |
| TokenBucket.RetryAfterLeast | src/scout_api/core/rate_limit.py:78 | The wait reported after a refusal is the least whole number of seconds, from one up, after which a full token is there. |
| BucketRuns.RetryAfterHonest | src/scout_api/core/rate_limit.py:70-78 | After any number of refused polls, a hit is accepted once the reported wait has passed, and at every earlier whole second less than one token is there. |
| BucketRuns.SameInstant | src/scout_api/core/rate_limit.py:69-77 | Of n further hits at the same instant exactly as many pass as there are whole tokens left, within the tolerance. |
| BucketRuns.RemainingMeans | src/scout_api/core/rate_limit.py:77 | With a reported remainder of k exactly k further hits at the same instant pass, and k + 1 only if what is left is k + 1 tokens less a billionth. |
| MemoryStore.AnswersAsIfAlone | src/scout_api/core/rate_limit.py:61-80 | In every interleaved run over all keys, with the sweep, each hit gets the answer that its key's own hits would get from a bucket that never forgets. |
| MemoryStore.OtherKeysInvisible | src/scout_api/core/rate_limit.py:61-80 | Two runs in which one key is hit at the same times answer that key alike, whatever other keys do. |
| MemoryStore.RetainedRecently | src/scout_api/core/rate_limit.py:64-73 | After each hit every retained entry was last hit less than window + 60 seconds ago. |
| MemoryStore.EveryAnswerRight | src/scout_api/core/rate_limit.py:61-80 | In every interleaved run each answer and each stored entry is right for what the sweep had left of that entry. |
| MemoryStore.OthersAfterHit | src/scout_api/core/rate_limit.py:64-66 | Another key's entry is kept unchanged exactly unless a sweep, at most once in 60 seconds, finds it expired. |
| MemoryStore.MemoryBucket.Hit | src/scout_api/core/rate_limit.py:61-80 | The answer and the whole new dictionary and cleanup time; and, spelled out in tokens and seconds, what the key's entry held, what must be answered, and what must be stored. |
| MemoryStore.MemoryBucket.constructor | src/scout_api/core/rate_limit.py:56-59 | A new bucket remembers nothing and is due for a sweep. |
| RedisBucket.RedisAgrees | src/scout_api/core/rate_limit.py:20-43 | On a clock that is never set back, and whenever Redis drops expired hashes, each evaluation answers what the bucket that never forgets answers. |
| RedisBucket.BurstBoundOnAnyClock | src/scout_api/core/rate_limit.py:24-41 | On any clock, and for every choice of when expired hashes vanish, a window lets through at most the capacity plus what the clock's forward movement allows. |
| RedisBucket.BurstBoundOnOwnClock | src/scout_api/core/rate_limit.py:28-41 | The bound on the script's own monotone clock holds while every dropped hash is a window old on that clock. |
| RedisBucket.OwnClockBoundFails | src/scout_api/core/rate_limit.py:24-41 | With one hit per second and readings 100, 50, 52 two hits pass where the own clock's bound allows one. |
| RedisBucket.SetBacksCost | src/scout_api/core/rate_limit.py:24-41 | On every clock a window exceeds the bound on the own clock by at most the tokens that all set-backs together are worth. |
| RedisBucket.SetBackBreaksBound | src/scout_api/core/rate_limit.py:24-41 | For every policy and every set-back beyond the tolerance there is a run, set back by just that much, that breaks the bound. |
| RedisBucket.SlackKept | src/scout_api/core/rate_limit.py:24-41 | On a clock set back by no more than a window, what a window of a run leaves of the bound is never less than the tolerance its tokens must leave unused, minus what the caught-up set-backs cost beyond one such reserve. |
| RedisBucket.OwnClockBoundIff | src/scout_api/core/rate_limit.py:24-41 | Every run whose set-backs add up to at most d meets the own clock's bound if and only if d is at most twice the tolerance times the window. |
| RedisBucket.EveryEvalRight | src/scout_api/core/rate_limit.py:24-42 | In every run, on any clock and with any drops, each evaluation runs on the later of the clock and `updated_at`, sets the expiry by the clock, and answers and leaves what it must. |
| RedisBucket.RedisKey.Eval | src/scout_api/core/rate_limit.py:20-43 | The three numbers the script returns and the hash and deadline it leaves, for a hash that may be missing and a clock that may be behind it; spelled out in tokens and seconds as well. |
| RedisBucket.RedisKey.Expire | src/scout_api/core/rate_limit.py:41 | A hash goes exactly when its deadline has been reached. |
| RateLimiter.FormsAgree | src/scout_api/core/rate_limit.py:20-80 | On one nondecreasing clock the in-process bucket among all its keys and the script on that key answer every hit alike. |
| RateLimiter.ShareABucketIff | src/scout_api/core/rate_limit.py:117 | Two different scopes have callers that share a bucket if and only if one scope begins with the other and a colon. |
| RateLimiter.KeysSeparate | src/scout_api/core/rate_limit.py:117 | Between any other two scopes, calls share a bucket exactly when scope and identity are the same. |
| RateLimiter.ShadowedHoldsColon | src/scout_api/core/rate_limit.py:117 | A scope that begins with another and a colon holds one, so scopes without colons never share. |
| RateLimiter.ColonInScopeCollides | src/scout_api/core/rate_limit.py:117 | A colon inside a scope can make two different pairs share one key. |
| RateLimiter.Limiter.Check | src/scout_api/core/rate_limit.py:98-143 | Switched off, invalid arguments, Redis answering, Redis failing: which result comes back, what the fallback bucket remembers, and a warning at most once a minute. |
| BraceScanner.ScannerExact | scripts/_extract_nissei_swatches.py:12-36 | A text is what the scanner closes on if and only if it is the object text, defined by a grammar of items and literals, that begins at the brace and ends in the window. |
| BraceScanner.PrefixFree | scripts/_extract_nissei_swatches.py:12-36 | No object text is a proper prefix of another, so the segment is unique and shortest. |
| BraceScanner.CloseReadsObject | scripts/_find_nissei_jsonconfig.py:21-43 | The scan of an object text with anything behind it ends exactly at its last brace. |
| BraceScanner.ClosedIsObject | scripts/_find_nissei_jsonconfig.py:21-43 | Wherever the scan ends, what it has read parses by the grammar as one object. |
| BraceScanner.ScanFrom | scripts/_extract_nissei_swatches.py:18-35 | The loop over depth, in-string and escape ends where the specified automaton does, never past the window. |
| BraceScanner.ExtractBalanced | scripts/_extract_nissei_swatches.py:12-36 | The result is exactly the balanced segment from the given brace, and nothing if and only if none ends inside the window. |
| BraceScanner.TryExtractObject | scripts/_find_nissei_jsonconfig.py:12-43 | From the first brace at or behind the start, the parser gets exactly the balanced segment and the end is reported; (None, -1) exactly when there is no brace or no such segment. |
| JsonText.ValueIsBalanced | scripts/_extract_nissei_swatches.py:12-36 | Whatever braces, quotes and backslashes its strings contain, a printed JSON value (RFC 8259, sections 4 and 7) is balanced text, in any layout and with every character spelled in any way section 7 allows. |
| JsonText.PrintedObjectIsSegment | scripts/_extract_nissei_swatches.py:12-36 | A printed object between any two texts is the only segment that starts there, and is one exactly if it fits the window. |
| JsonText.ExtractPrinted | scripts/_extract_nissei_swatches.py:12-36 | Round trip: from inside any text the scanner returns exactly the printed object, or nothing if it is longer than five million characters. |
| JsonText.TryExtractPrinted | scripts/_find_nissei_jsonconfig.py:12-43 | Round trip of the second scanner, from any start between which and the object no brace opens: the parser gets exactly the printed object and the end is where it ends, or nothing and -1 if it is longer than two million characters. |
| JsonText.UnescapeInvertsEscape | scripts/_extract_nissei_swatches.py:23-29 | The string printer of the round trip loses nothing: whichever of RFC 8259 section 7's spellings each character gets, surrogate pairs included, undoing them gives the string back. |
| NaiveScanner.CountAgrees | memory/working/_extract_pichau_ryzen_flight.py:91-101 | Counting braces without looking at strings finds the same end as the string-aware scan when braces inside each literal nest among themselves. |
| NaiveScanner.SingleLiteralIff | memory/working/_extract_pichau_ryzen_flight.py:91-101 | Of an object that holds one literal alone, whatever follows it, the count finds the right end if and only if that literal's braces nest among themselves. |
| NaiveScanner.CountAgreesIff | memory/working/_extract_pichau_ryzen_flight.py:91-101 | For any kind of literals: the count cuts every object with literals of that kind as the string-aware scan does, behind any tail, if and only if the braces in each literal of the kind nest among themselves. |
| NaiveScanner.NoBracesSteady | memory/working/_extract_pichau_ryzen_flight.py:91-101 | Literals without braces are such literals. |
| NaiveScanner.BraceInLiteralMisleads | memory/working/_extract_pichau_ryzen_flight.py:91-101 | A closing brace in a literal makes the count stop early. |
| ProductSearch.CountFrom | memory/working/_extract_pichau_ryzen_flight.py:92-101 | The counting loop cuts what the specification cuts, or nothing when the count never returns to zero. |
| ProductSearch.NoOverlap | memory/working/_extract_pichau_ryzen_flight.py:90 | No occurrence of the pattern begins inside another, so that going on behind a match passes over none. |
| ProductSearch.BracesIff | memory/working/_extract_pichau_ryzen_flight.py:90 | The search yields the brace of every occurrence of the pattern, and no other place. |
| ProductSearch.OccursSpelled | memory/working/_extract_pichau_ryzen_flight.py:90 | Wherever in a text the quoted word, any whitespace, a colon, any whitespace and a brace stand, the pattern occurs and leads to that brace. |
| ProductSearch.OnlySpelledOccurs | memory/working/_extract_pichau_ryzen_flight.py:90 | And it occurs nowhere else. |
| ProductCut.CutIsShortest | memory/working/_extract_pichau_ryzen_flight.py:91-101 | What is cut out is the shortest text from the brace on that ends in a closing brace and closes as many as it opens. |
| ProductCut.CutNothing | memory/working/_extract_pichau_ryzen_flight.py:91-101 | Nothing is cut out if there is no such text. |
| ProductSearch.ExtractProduct | memory/working/_extract_pichau_ryzen_flight.py:89-110 | The first occurrence whose cut parses to the wanted product is returned, and nothing if and only if there is none. |
| LeaseLock.RunKeepsGuard | scripts/probe_profile_lock_multiprocess.py:112-126 | In every reachable state the key bears the token and deadline of every process inside an unexpired lease. |
| LeaseLock.EveryStepMeans | scripts/probe_profile_lock_multiprocess.py:112-162 | In every run, a process gets inside only when the key is free and then with its own token and time to live; it ends as acquired only from inside, and otherwise only a holder that found the key taken or a challenger past its timeout. |
| LeaseLock.AcquiredWasInside | scripts/probe_profile_lock_multiprocess.py:112-157 | A process that ends as having acquired was inside before. |
| LeaseLock.MutualExclusion | scripts/probe_profile_lock_multiprocess.py:112-126 | In every interleaving of set, expiry, kill, release and prompt delete, by any number of processes, at most one is inside an unexpired lease. |
| LeaseLock.ReleaseTakesOwnLease | scripts/probe_profile_lock_multiprocess.py:121-126 | In every run, however late its plain deletes, a holder's compare-and-delete removes exactly its own lease while that is running, and leaves any other key as it is. |
| LeaseLock.ReleaseSparesOthers | scripts/probe_profile_lock_multiprocess.py:121-126 | In runs with prompt deletes, a process inside its lease stays so, key and all, when another gives the lock back. |
| LeaseLock.UncrowdedIsExclusive | scripts/probe_profile_lock_multiprocess.py:112-157 | Without a challenger and two more processes able to take the key, at most one is inside an unexpired lease in every run, however late any delete comes; the probe's holder and challenger are such a pair. |
| LeaseLock.LateDeleteLetsIn | scripts/probe_profile_lock_multiprocess.py:149-157 | With three such processes, and any lateness allowed at all, there is a run in which two end up inside unexpired leases. |
| LeaseLock.ExclusiveWithinIff | scripts/probe_profile_lock_multiprocess.py:112-157 | With deletes before the deleter's lease has been over for some time, all runs exclude if and only if that time is not positive or there are no three such processes. |
| LeaseLock.LateDeleteBreaksExclusion | scripts/probe_profile_lock_multiprocess.py:149-157 | A run of three processes in which a late delete puts two of them inside unexpired leases. |
| LeaseLock.PollingEnds | scripts/probe_profile_lock_multiprocess.py:146-162 | A challenger still polling is no more than one interval and the latency past both its own deadline and the end of the last lease, and its polls are bounded by its timeout. |
| LeaseLock.CrashRecovery | scripts/probe_profile_lock_multiprocess.py:351-405 | If the holder is killed inside its lease, the challenger polls no longer than one interval and the latency past the lease's end, and cannot give up before that. |
| LeaseLock.AcquiredInTime | scripts/probe_profile_lock_multiprocess.py:383-405 | In every run, once a killed holder's lease has been over for one interval and the latency, a challenger with enough time that was not killed itself is inside or has been. |
| LeaseLock.PollerCanMove | scripts/probe_profile_lock_multiprocess.py:146-162 | A challenger that polls can always poll, give up or sleep until its next poll. |
| LeaseLock.CanRecover | scripts/probe_profile_lock_multiprocess.py:383-405 | Every run with a killed holder and a challenger with enough time can go on so that the challenger is inside by that bound. |
| LeaseLock.PollForLock | scripts/probe_profile_lock_multiprocess.py:147-162 | The polling loop terminates: acquired at the first poll that finds the key free before the deadline, otherwise timed out, with the elapsed time of that moment. |
| LeaseLock.RedisKey.TakeNx | scripts/probe_profile_lock_multiprocess.py:114 | Setting succeeds exactly when no unexpired lease is there, and changes the key only then. |
| LeaseLock.RedisKey.GiveBack | scripts/probe_profile_lock_multiprocess.py:121-126 | The key is deleted exactly when it is unexpired and bears the caller's token, and the count returned says so. |
| MatchReport.StoreOutcome | scripts/_live_full_match_container.py:214-351 | Every store of the order is in exactly one of matches and unmatched; its match is the first highest-confidence hit among all its hits; without a hit its last error is reported. |
| MatchReport.ReportPlaces | scripts/_live_full_match_container.py:342-347 | Matches, unmatched stores and errors stand in the order of the stores, each at the place that the earlier stores leave it. |
| MatchReport.ExactlyOneList | scripts/_live_full_match_container.py:342-347 | A store is matched if and only if it had a hit, and unmatched if and only if it had none. |
| MatchReport.RunErrors | scripts/_live_full_match_container.py:216-225 | In the report of every run over distinct stores, errors name only unmatched stores, and each at most once. |
| MatchReport.TurnResult | scripts/_live_full_match_container.py:214-226 | An unsupported store yields that error and nothing else; any other its hits and last error, found with what the stores before it had learned. |
| MatchLoop.StopsAtFirstAuto | scripts/_live_full_match_container.py:229-340 | A store's search uses all queries up to and including the first that yields an automatic match or says that search is unsupported, and no earlier one did either. |
| MatchLoop.EveryQueryCounts | scripts/_live_full_match_container.py:229-251 | The i-th search is for the i-th query; its candidates add exactly their hits and leave the error, a failed search leaves the hits and becomes the last error, and no later query disturbs the hits so far. |
| MatchLoop.HitBearsQuery | scripts/_live_full_match_container.py:287-296 | Each hit of a turn comes of the query it bears, so that hits are in the order of the queries. |
| MatchLoop.BestIsFirstHighest | scripts/_live_full_match_container.py:313-317 | Keeping the better hit one by one ends with the first hit of highest confidence. |
| MatchLoop.FirstHighestUnique | scripts/_live_match_alt_product.py:214-218 | Any hit that is first highest is the one kept. |
| MatchLoop.HitsAreScored | scripts/_live_full_match_container.py:253-312 | Every hit comes from a candidate of that search that is not the reference, was scraped, and was scored other than reject. |
| MatchLoop.EveryCandidateCounts | scripts/_live_full_match_container.py:253-312 | No candidate is passed over: one that is not the reference, is scraped and not rejected has its hit right behind those of the candidates before it, and any other adds none. |
| MatchLoop.RunSettles | scripts/_live_full_match_container.py:318-337 | Once the reference has a barcode, neither it nor the queries change for the rest of the run. |
| LearnedBarcodes.RunTeaches | scripts/_live_full_match_container.py:318-337 | What any run ends up knowing about barcodes depends on its hits alone, in their order over stores, queries and candidates. |
| LearnedBarcodes.RivalTakesAway | scripts/_live_full_match_container.py:137-166 | An adopted barcode is dropped exactly by an automatic match that shows another barcode under a brand that disagrees; nothing else changes it. |
| LearnedBarcodes.LosesBarcodeIff | scripts/_live_full_match_container.py:137-166 | Over any sequence of hits, a learned barcode is lost somewhere if and only if such a match comes after the first one that could be learned from. |
| LearnedBarcodes.RunLosesBarcodeIff | scripts/_live_full_match_container.py:318-337 | The same of every run over any stores that starts without a barcode. |
| LearnedBarcodes.TwoBrandsForget | scripts/_live_full_match_container.py:320-337 | A run over one shop with two automatic matches of two brands, which ends without the barcode it had learned. |
| LearnedBarcodes.ReferenceStays | scripts/_live_full_match_container.py:137-166 | A barcode of the reference itself is never lost. |
| LearnedBarcodes.RunGoesAstrayIff | scripts/_live_full_match_container.py:318-337 | A run that starts without a barcode at some point holds another barcode than it searches for if and only if, after the first adoption, two rivals come with no match of the adopted barcode between them. |
| MatchRun.ConsiderCandidates | scripts/_live_full_match_container.py:253-337 | The candidate loop carries on the best hit, the learned barcode and the queries as specified, and reports a match exactly when a hit is automatic. |
| MatchRun.AskOnce | scripts/_live_full_match_container.py:230-338 | One search with its candidates, or its error: an unsupported search or an automatic match stops the store, any other error only replaces the last one. |
| MatchRun.AskStore | scripts/_live_full_match_container.py:227-340 | The query loop of one store, over the queries as they were when it began: progress, best hit and last error. |
| MatchRun.MatchAll | scripts/_live_full_match_container.py:204-347 | The loop over stores reports the specified matches, unmatched stores and errors. |
| EnvBinding.QuotedBinds | scripts/google_drive_oauth_bootstrap.py:50 | A line as the writer forms it is read by the loader as that key and that value, apostrophes at its ends cut off. |
| EnvBinding.BindingHasLineKey | scripts/google_drive_oauth_bootstrap.py:47 | Writer and loader see the same key in every line that the loader takes. |
| EnvBinding.PlainBinds | scripts/google_drive_oauth_bootstrap.py:77-82 | A line with any whitespace around its key and its value binds them, if the value has no quotes at its ends. |
| EnvBinding.QuotedBindsSpread | scripts/google_drive_oauth_bootstrap.py:77-82 | So does one with its value in double quotes, whitespace inside them kept. |
| EnvBinding.NothingBound | scripts/google_drive_oauth_bootstrap.py:77-83 | Blank lines, comments, lines without an equals sign and lines without a key bind nothing. |
| EnvBinding.Load | scripts/google_drive_oauth_bootstrap.py:71-84 | Variables already set stay; every other key gets the value of its first binding line, and no others appear; it breaks off exactly when such a binding holds a NUL, which the environment refuses. |
| EnvRewrite.FirstRewritten | scripts/google_drive_oauth_bootstrap.py:44-53 | After rewriting, selected keys load as their new values and all others as before. |
| EnvRewrite.RewriteKeepsRest | scripts/google_drive_oauth_bootstrap.py:44-53 | Every unselected line survives verbatim in order, and each selected key occurs once. |
| EnvPlaces.RewriteInPlace | scripts/google_drive_oauth_bootstrap.py:46-52 | A selected key's new line stands where the key first stood, every unselected line keeps its place among them, and only repeated lines of selected keys are dropped. |
| EnvPlaces.RewriteAppends | scripts/google_drive_oauth_bootstrap.py:53 | Selected keys that had no line follow at the end, in the dictionary's order, and nothing else does. |
| EnvRewrite.RewriteTwice | scripts/google_drive_oauth_bootstrap.py:44-53 | Rewriting the rewritten lines with the same values changes nothing. |
| EnvFile.RewrittenTwice | scripts/google_drive_oauth_bootstrap.py:43-60 | The same for whole file texts, splitting and joining included. |
| TextLines.SplitInvertsText | scripts/google_drive_oauth_bootstrap.py:46-60 | Splitting what was written line by line gives the lines back. |
| TextLines.SplitLinesIff | scripts/google_drive_oauth_bootstrap.py:46 | Splitting gives the one list of lines, free of breaks, that with a break behind each, a carriage return and newline being one, spells out the text; only the last may lack its break. |
| EnvFile.LoadUndoesRewrite | scripts/google_drive_oauth_bootstrap.py:38-84 | Loading the rewritten file gives the old bindings overridden by the new values. |
| EnvFile.EveryLineWritten | scripts/google_drive_oauth_bootstrap.py:43-60 | However the old text is laid out, with or without a last newline, each of its lines stands as a line in the written text, a selected key's with its new value. |
| EnvFile.ReadsBackIff | scripts/google_drive_oauth_bootstrap.py:38-84 | Loading goes through and every accepted value reads back as written if and only if none contains another line separator or a NUL or begins or ends with an apostrophe, and no other binding of the file holds a NUL. |
| EnvFile.ApostrophesLost | scripts/google_drive_oauth_bootstrap.py:38-84 | A value in apostrophes is accepted and read back without them. |
| EnvFile.CheckValues | scripts/google_drive_oauth_bootstrap.py:40-42 | A value with a line break, a carriage return, a double quote, a backslash or a dollar is found if there is one. |
| EnvFile.RewriteLines | scripts/google_drive_oauth_bootstrap.py:44-53 | The loop that replaces, drops and appends lines computes the specified rewriting. |
| EnvFile.WriteEnvValues | scripts/google_drive_oauth_bootstrap.py:38-60 | Fails exactly when some value holds a line break, a carriage return, a double quote, a backslash or a dollar; otherwise the file's new text is the specified one, a missing file counting as empty. |
| Evaluator.LoadDataset | scripts/bench_matching_baseline.py:133-223 | Which inputs load, which are empty, and the first line at which any other is rejected; loaded examples are the non-blank lines in order, with distinct ids and no group in two splits. |
| Evaluator.ReadableIff | scripts/bench_matching_baseline.py:140-218 | Checking line by line against the ids and groups seen so far accepts exactly the files whose rows are valid, distinct and separated as a whole. |
| Evaluator.ExamplesPlaces | scripts/bench_matching_baseline.py:140-216 | The data set holds the examples of the lines that have one, each once, in the order of the file. |
| Evaluator.SelectPlaces | scripts/bench_matching_baseline.py:268 | The selection takes the examples of the split, each once, in the order of the data set. |
| Evaluator.SplitsIsolated | scripts/bench_matching_baseline.py:183-185 | Selections for two different splits share no group and no sample. |
| Evaluator.ConfusionConserves | scripts/bench_matching_baseline.py:294-303 | Every row of the confusion matrix sums to its label's count and every column to its prediction's. |
| Evaluator.MetricsConserve | scripts/bench_matching_baseline.py:226-261 | True and false positives and negatives add up to the number of rows. |
| Evaluator.BinaryCells | scripts/bench_matching_baseline.py:289-303 | The four numbers are the matching cells of the confusion matrix, an uncertain prediction counting as not the same. |
| Evaluator.BinaryConserves | scripts/bench_matching_baseline.py:226-293 | They sum to the pairs whose label is not uncertain. |
| Evaluator.F1ClosedForm | scripts/bench_matching_baseline.py:243-250 | F1 is defined exactly when precision and recall are, equals 2tp / (2tp + fp + fn), and lies between them. |
| Evaluator.MetricsRatios | scripts/bench_matching_baseline.py:243-261 | In every metrics block precision times the predicted, recall times the labelled and the false positive rate times the negatives give the counts they are shares of; each is there exactly when its denominator is not zero; F1 is 2tp / (2tp + fp + fn), between the other two. |
| Evaluator.GroupCases | scripts/bench_matching_baseline.py:304-309 | The loop files each labelled pair under its category and its language pair, in order and nowhere else. |
| Evaluator.InGroupMore | scripts/bench_matching_baseline.py:304-309 | One more labelled pair goes to the end of the group "category:" with its category and of the group "language_pair:" with its languages, and of no other. |
| Evaluator.GroupsSumToWhole | scripts/bench_matching_baseline.py:304-321 | Over the categories, and over the language pairs, any count sums to the overall one. |
| Evaluator.CountersMatchConfusion | scripts/bench_matching_baseline.py:294-318 | The report's label counts are the rows of its confusion matrix summed up, and its decision counts the columns. |
| Evaluator.Evaluate | scripts/bench_matching_baseline.py:264-322 | Refuses exactly the splits without samples; otherwise the report's counts, confusion matrix, metrics with their ratios, case list and groups are those of the selected examples, in order, where a match counts as the same, a rejection as different and a review as uncertain. |
| Bench.PercentileBetween | scripts/bench_camoufox_capacity.py:109-119 | A percentile of sorted values lies between the two samples around its position. |
| Bench.PercentileMonotone | scripts/bench_camoufox_capacity.py:109-119 | A higher percentage never gives a smaller percentile. |
| Bench.PercentileEnds | scripts/bench_camoufox_capacity.py:109-119 | Percentile 0 is the least sample and 100 the greatest. |
| Bench.PercentileInterpolates | scripts/bench_camoufox_capacity.py:114-119 | Between two neighbouring samples a percentile moves on a straight line from one to the other. |
| Bench.SamplesIgnoreSchedule | scripts/bench_camoufox_capacity.py:362-398 | In whatever order the slots complete, sorting the pooled samples gives iterations 1 to capacity * iterations, slot after slot. |
| Bench.LatenciesIgnoreSchedule | scripts/bench_camoufox_capacity.py:384-410 | The sorted latencies do not depend on that order, and P50 <= P95 <= maximum. |
| Bench.TotalsIgnoreSchedule | scripts/bench_camoufox_capacity.py:381-387 | The totals do not depend on it, and the slots' own counts sum to them. |
| Bench.SumOkIsSuccesses | scripts/bench_camoufox_capacity.py:274 | The slots' own counts add up to the number of fetches that succeed. |
| Bench.LatencyOfSuccess | scripts/bench_camoufox_capacity.py:384 | Each latency is pooled as often as a successful sample has it. |
| Bench.PoolIgnoresOrder | scripts/bench_camoufox_capacity.py:365-368 | Pooling lists in two orders gives the same elements with the same multiplicities. |
| Bench.MeasureSlot | scripts/bench_camoufox_capacity.py:224-276 | A slot's loop yields one sample per iteration, numbered on from its first, and counts those that succeeded. |
| Bench.RunCapacity | scripts/bench_camoufox_capacity.py:284-383 | Pooling in completion order yields all samples; fetches are successes plus errors, and successes are the sum of the slots' counts. |
| Redaction.MaskingMasks | src/scout_api/core/log_redaction.py:15-20 | After the first substitution every token behind the word is masked, wherever the word stands. |
| Redaction.MaskUrlIdempotent | src/scout_api/core/log_redaction.py:16-21 | Masking URL passwords twice is masking them once. |
| Redaction.RedactStringIdempotent | src/scout_api/core/log_redaction.py:19-22 | Redacting a redacted text changes nothing, although the second substitution works on the result of the first. |
| HiddenTokens.MaskSeparates | src/scout_api/core/log_redaction.py:15-20 | Where no token is being read, masking a text and what follows it are independent. |
| HiddenTokens.MaskExposes | src/scout_api/core/log_redaction.py:15-20 | Where one is, the following word is taken for the token and what stands behind that word is treated as plain text. |
| HiddenTokens.TokenHiddenIff | src/scout_api/core/log_redaction.py:15-22 | The token behind a word never shows in the redacted text if and only if the text in front does not end inside a token. |
| HiddenTokens.FirstWordHides | src/scout_api/core/log_redaction.py:15-22 | It is hidden wherever the word stands for the first time. |
| HiddenTokens.SecondWordExposes | src/scout_api/core/log_redaction.py:15-22 | Right behind another such word it is not. |
| HiddenPasswords.FrontHidesIff | src/scout_api/core/log_redaction.py:15-22 | Through both substitutions, an ordinary password (no whitespace, slash or at sign) before an at sign never shows if and only if the text in front ends inside a bearer token or, tokens masked, where a URL's password is expected or being read. |
| HiddenPasswords.PasswordHiddenIff | src/scout_api/core/log_redaction.py:15-22 | In such a place any password at all comes out as ordinary ones do, whatever follows, if and only if a token being read takes it in whole (no whitespace), or else it leaves no token open and, its own tokens masked, holds no slash and no at sign. |
| HiddenPasswords.SlashPasswordShows | src/scout_api/core/log_redaction.py:16-21 | A password with a slash that is not escaped is left in the open, with the whole login around it. |
| HiddenPasswords.SpacedPasswordShows | src/scout_api/core/log_redaction.py:15-22 | A password that holds the word and a space is left in the open. |
| Logins.LoginPasswordHidden | src/scout_api/core/log_redaction.py:16-21 | Behind any text that is not inside a token and any user name without colon, slash and at sign, the redacted text does not tell one password without slash, at sign and whitespace from another. |
| Logins.LoginMasked | src/scout_api/core/log_redaction.py:16-21 | The second substitution keeps such a login's user name, puts three asterisks for the password, and goes on behind the at sign. |
| Logins.BearerMasked | src/scout_api/core/log_redaction.py:15-20 | The first substitution keeps the word, in capitals or not, and its whitespace, puts three asterisks for the token up to the next whitespace, and goes on there. |
| Logins.HeaderMasked | src/scout_api/core/log_redaction.py:15-20 | In an authorization header, one blank and a token of printable characters behind the word, the token is masked up to a blank, a line break or the end. |
| Patterns.FirstTokenMasked | src/scout_api/core/log_redaction.py:15-20 | In any text the first place where the word, whitespace and a token stand has just the token masked, and the search goes on behind it. |
| Patterns.NoTokenKept | src/scout_api/core/log_redaction.py:15-20 | A text without such a place is left as it is. |
| Patterns.FirstUrlMasked | src/scout_api/core/log_redaction.py:16-21 | In any text the first login with a password loses just the password, and the search goes on behind its at sign. |
| Patterns.NoUrlKept | src/scout_api/core/log_redaction.py:16-21 | A text without a login is left as it is. |
| Logins.PlainTextKept | src/scout_api/core/log_redaction.py:19-22 | A text without the word and without an at sign is left as it is. |
| RedactedMappings.RedactEntriesIdempotent | src/scout_api/core/log_redaction.py:25-36 | Redacting a redacted mapping changes nothing, at any depth. |
| RedactedMappings.RedactEntries | src/scout_api/core/log_redaction.py:25-36 | Every key is kept, in order. |
| RedactedMappings.EntryRedacted | src/scout_api/core/log_redaction.py:27-35 | Under each sensitive key stand three asterisks, under any other a redacted text, a redacted mapping, or the value itself. |
| RedactedMappings.RedactionHides | src/scout_api/core/log_redaction.py:25-36 | Two mappings redact alike if and only if they have the same keys and agree, at every depth, but for values under sensitive keys and for strings that redact alike. |
| RedactedMappings.SecretsHidden | src/scout_api/core/log_redaction.py:15-36 | Two mappings that differ only under sensitive keys and in any number of bearer tokens and hidden URL passwords, at any depth, redact alike. |
| RedactedMappings.RedactMapping | src/scout_api/core/log_redaction.py:25-36 | The loop and its recursion compute the specified mapping; values that are neither mappings nor strings, lists among them, pass unchanged. |

## Left out

- Network, browsers, Docker, Google Drive, SQL and the file system: search, scrape, score, parse and fetch are arbitrary functions, files are texts or sequences of lines.
- IEEE rounding, the precision with which Redis stores numbers, and the limiter's thread lock: time and tokens are reals and each hit is atomic.
- Redis expiry is modelled as: a key may vanish at any evaluation at which its deadline has been reached; an EXPIRE counts from the same reading as the script's TIME.
- The scope inside `hit`'s own result, which `check` overwrites.
- RedisBucket.BurstBoundOnOwnClock: a condition on one run that suffices; the exact condition, on what a clock may do, is `RedisBucket.OwnClockBoundIff`.
- NaiveScanner.CountAgrees: suffices for one object; which literals can be trusted in every object is `NaiveScanner.CountAgreesIff`.
- ProductSearch.ExtractProduct: parsing a cut is an arbitrary function.
- JsonText.ValueIsBalanced: numbers are any run of number characters, and white space is any that a layout chooses per place and depth.
- LeaseLock.CrashRecovery: stated for one holder and one challenger, as the crash phase runs them; other processes could take the key first.
- The file-lock phases of the lock probe, process spawning and result files.
- LearnedBarcodes.RivalTakesAway: the resolver of trusted barcodes is modelled for the single hit that `maybe_learn` passes (`src/scout_api/modules/matching/gtin_learning.py:31-81`), with brand agreement and normalisation arbitrary.
- Diagnostics of failed stores, printing and report files of the match scripts; that stores in the order are distinct is taken from `src/scout_api/modules/matching/store_search_order.py:141-149`.
- The atomic replacement of the `.env` file and its file mode.
- Evaluator.LoadDataset: whether a row's fields are valid comes with the line, which is blank, invalid or a row; the SHA digest is not part of this model.
- Bench.SamplesIgnoreSchedule: the library sort is not modelled; the result holds of every sorted arrangement of the samples.
- Rounding to one decimal, memory, CPU and browser counters of the benchmark.
- RedactedMappings.RedactEntries: which keys are sensitive is an arbitrary predicate on the key; a mapping is its list of entries in insertion order.
- The log filter that applies redaction to records, JWT verification, authentication routes, migrations, configuration and middleware, and the HTML probing scripts.
