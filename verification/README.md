# A verified model of the credit-bureau uploader

The program takes raw JSON lines, enriches each with identity data, and posts every
enriched line to a credit bureau exactly as one request, keeping the state of each line in
SQLite. Around that stand a rate limiter, a session cache, an archiver, and a generator
that rewrites one overdue slice of a deal into its month-by-month history. This project
models that logic in Dafny and proves what it keeps.

Check it with `dafny verify dfyconfig.toml`.

## How the model is laid out

- `Results`: a reply of the bureau, and the result the upload pass acts on.
- `Session` and `SessionDay`: the cached session, who may ask the bureau for a new one, how
  often that happens over a day of passes, and what a dead session does to them.
- `Store`: the tables `files` and `records`, and the class `Db` whose methods are the
  transactions.
- `Waves`: the bounded-window dispatcher as a machine over completions in any order, with
  its partition invariant, the error streak and the outage bound.
- `Passes`: a first wave, one renewal of the session, one resend wave, and the summary.
- `UploadPass`: the pass as the program writes it, a class whose loops wait for any part of
  the sends in flight; every method is proved to follow the machine of `Waves` and `Passes`.
- `Protocol`: the system that outlives a pass: ingest, passes, posts, commits, manual resets
  and crashes as steps, and theorems over all runs. A completed pass is proved to be such a
  run (`Protocol.PassIsARun`), so they hold of the methods of `UploadPass` too.
- `Reposting`: exactly when a record can still be posted, from any state of that system, and
  how often it can fail before somebody has to reset it.
- `FilePhases` and `RunPass`: ingest, recompute and archive, one whole pass end to end, and a
  day of passes over one cached session.
- `Retries`: the recompute of a pass with manual retries at work between its commits.
- `RateLimit`: the slot reservation over exact real time.
- `Calendar`, `Backfill`, `SelfCheck` and `ChainLaws`: the Gregorian calendar, the chain
  generator, its self-check, and what a generated chain says.
- `Sampling`: the stratified sample.
- `Documents`, `TaxId`, `EnrichLine`: document selection, dates in text and tax ids, and the
  guards in front of an enriched line.
- `Json` and `Lines`: JSON text, the quarantine wrapper, and the split of a file's lines.
- `EnrichFile`: the split and the guards put together, fields read out of parsed JSON.
- `QuarantineFile` and `LostLines`: the quarantine file as text, written line by line and cut
  again, and the raw lines that do not survive it.
- `FileStep` and `SecondIdentity`: the enricher's file operations with a crash possible after
  each, and the uploader ingesting and archiving beside them.
- `Basics`: what several modules share.

Preconditions of the pass are the ones its configuration needs to work at all: a
concurrency, an abort threshold and a retry cap of at least one.

## Where the code and its documentation differ

The model follows the code; each difference is stated as a theorem.

- `ARCHITECTURE.md:314` promises never to send twice. That holds from the acknowledging
  commit on (`Protocol.SentIsForever`), and no earlier: a record that fits can be posted
  exactly as long as its row does not say sent (`Reposting.PostableIff`). A post that is out
  can be followed by another exactly if a crash or a result other than sent ends it
  (`Reposting.PostedAgainIff`), and after a crash the next pass can do so unasked
  (`Reposting.DyingReposts`; `Protocol.CrashCanPostTwice` is the shortest example).
- `ARCHITECTURE.md:177-178` promises that stale sessions are renewed once and their records
  resent. Stale answers also feed the abort streak, so a pass with a dead session and
  `threshold` records to post gives up before the renewal (`SessionDay.DeadPass`, both ways),
  the cache keeps the dead session, and every pass of that day does the same
  (`SessionDay.DeadDay`).
- `app/ratelimit.py:7-8` promises at most `rate` starts in any second. That is so exactly
  when starts do not lag their slots and the rate is whole (`RateLimit.DocumentedBoundIff`).
- `app/uploader.py:207-209` says a stale record left out of the tally will be counted by its
  resend. `Passes.ShortfallIff` says exactly when it is not, `Passes.SummaryIsExact` by how
  many, and `SessionDay.ShortfallHappens` that it happens over any tables with `threshold`
  records to post.
- `app/uploader.py:404-409` recomputes only some files. If archived rows are up to date when
  a pass begins that is as good as recomputing all (`Retries.ScopedIsFull`), and a completed
  pass makes no row wrong, whatever operators retry meanwhile (`Retries.RetriesDoNoHarm`). A retry
  caught between its reset and its own recompute leaves its file out of date exactly in the
  case `Retries.HalfRetryIff` states, and only until that recompute.
- `ARCHITECTURE.md:321-322` calls a crash at any point harmless. A pass that dies between a
  commit and its recompute leaves the row of an archived file wrong in exactly the case
  `Retries.DeathIff` states; if nothing of the file is left to send, no later pass mends it
  (`Retries.DeathHappens`), only a commit to that file or a retry of it does
  (`Retries.RetriesDoNoHarm`, `Retries.NothingElseMends`).
- `backfill_deallife.py:185` says the last slice keeps the deal's own period. The code takes
  the period from `dldateclc`; with that date in another month the generator can trip its own
  check (`SelfCheck.DateOutsideThePeriodTripsTheCheck`; exactly when, for any subject, is
  `SelfCheck.ExpandedSubjectIsSaneIff`), and `SelfCheck.SelfCheckNeverFires` needs the date in
  the deal's month. Deals of a multi-deal subject are not left untouched but cut to one slice
  (`SelfCheck.SeveralDealsAreTruncated`).
- The self-check means to catch zero days beside a non-zero amount. A generated chain gets
  past it with exactly that if and only if it has no history and the overdue start is not
  before the final date (`SelfCheck.CheckMissesIff`).
- `unique_target` can replace an archived file (`FilePhases.MoveOverwritesIff`, with the case
  in `FilePhases.MoveOverwritesHappens`), and so can the enricher a processed raw file or an
  unconsumed output that `app/enricher.py:560-561` means to preserve
  (`FileStep.ProcessedOverwritesIff`, `FileStep.PutOverwritesIff`).
- `app/enricher.py:553-561` means one raw file to reach the uploader under one identity. The
  exception, both ways: `FileStep.SecondIdentityIff`, and for the rows the uploader stores
  `SecondIdentity.StoredOnceIff`.
- `app/enricher.py:574-584` picks the clients to look up; `Documents.LacksIssuerIff` gives the
  one case it misses.
- Dropping a quarantine file back for a re-run (`app/enricher.py:679-680`) works once for a
  line (`EnrichFile.RedropWorksIff`), and for the file exactly if no reason holds one of three
  line breaks that JSON leaves as they are (`QuarantineFile.WrittenQuarantineIff`). The reason
  quotes the line, so a raw line can bring one in, and is then lost (`LostLines.LineIsLost`).

## Model

| member | source | states |
|---|---|---|
| Protocol.SentIsForever | ARCHITECTURE.md:314 | In every run of passes, resets and crashes, once a record's sent result is committed its row never changes and no post of it ever starts |
| Protocol.PostedAgainOnlyIf | app/uploader.py:189-198 | A record already posted is posted again only after a crash or after a committed result other than sent |
| Reposting.PostableIff | app/uploader.py:165 | From any reachable state some continuation posts the record if and only if its envelope fits and its row does not say sent |
| Reposting.PostedAgainIff | app/uploader.py:189-198 | What ends a post that is out decides: some continuation posts the record again if and only if a crash or a result other than sent ended it |
| Reposting.DyingReposts | app/uploader.py:223-235 | From any state with a post out, a crash and the passes after it can post the record again, with no manual reset |
| Reposting.NextPassPosts | app/uploader.py:165 | From rest, for any tables, a pass exists that posts a given sendable record that fits |
| Reposting.OversizeIsNeverPosted | app/uploader.py:229-233 | A record whose envelope is too big is posted in no run |
| Reposting.RetriedUnattendedIff | app/db.py:185-191 | Left to themselves the passes post a record again if and only if it fits and is pending, or failed with fewer counted attempts than the cap |
| Reposting.SpentIsFrozen | app/db.py:185-191 | Any other record is never posted and its row never changes while nobody resets it |
| Reposting.BudgetIff | app/uploader.py:189-198 | Between manual resets some run gives a record k counted outcomes if and only if k more stay within the cap |
| Protocol.StatusGraph | ARCHITECTURE.md:261-275 | A result takes a record from pending, or from failed below the cap, to sent, failed or rejected, counting the attempt unless network-like; a reset from failed or rejected to pending; nothing else changes it |
| Protocol.CrashCanPostTwice | app/uploader.py:223-235 | The shortest example of `Reposting.DyingReposts`: one record, one crash, two posts |
| Protocol.PostedAtMostTwice | app/uploader.py:281-303 | In one pass, crashed or not, a record is posted at most twice |
| Protocol.PostedTwiceOnlyWhenStale | app/uploader.py:260-303 | Two posts of a record in one pass have a stale-session result of that record between them |
| Protocol.RepostNeedsStaleResult | app/uploader.py:260-303 | A record the pass is done posting is posted again in it only after its result came back as a stale session |
| Protocol.PostsFitBudget | app/uploader.py:237-303 | From any reachable point of a pass the remaining posts of a record fit the number its place in queue, window and stale list allows |
| Protocol.ReachableStates | app/uploader.py:165 | From an empty database every run keeps: pending rows have no attempts, attempts never exceed the retry cap, exactly sent rows have a sending time, at most `concurrency` posts lack a committed result |
| Protocol.RunKeepsInv | app/uploader.py:154-313 | The invariant of rows, queue, window and stale list survives every run |
| Protocol.StepKeepsInv | app/uploader.py:154-313 | Each single step keeps it: ingest, begin, post, settle, end of wave, reset, crash |
| Protocol.BurnedAreCounted | app/db.py:194-212 | Between manual resets `attempts` is exactly the number of counted outcomes, and there are at most `retry_cap` of them |
| Protocol.OutagesAreFree | app/uploader.py:191-198 | Any number of passes meeting only network-like errors, crashing or not, leaves every record's attempts and sendability unchanged |
| Protocol.PassIsARun | app/uploader.py:154-313 | Any completed pass over the send list it read is a run of the step system between two idle states with the same final tables |
| Protocol.WaveIsARun | app/uploader.py:237-279 | Any schedule of a wave is a run of posts and commits ending in the same wave state and tables |
| Waves.WaveIsPartitioned | app/uploader.py:237-279 | After any completions in any order each record is in exactly one of undispatched, in flight, committed; the window is never over-full and is full while work remains and nothing aborted |
| Waves.CompleteKeepsPartition | app/uploader.py:257-278 | One completion keeps that partition |
| Waves.FinishedWave | app/uploader.py:255-279 | A wave that ran out committed a prefix of the list, each record once; all of it unless it aborted |
| Waves.WaveTerminates | app/uploader.py:255-256 | No schedule is longer than the wave, and it can be extended exactly while something is in flight |
| Waves.StreakRefinesRuns | app/uploader.py:264-271 | The counter is the trailing run of network-like errors with local rejects left out, and the latch says exactly whether a run of threshold length ever occurred, also across waves |
| Waves.RunGrows | app/uploader.py:264-267 | A further completion yields a run of `n` errors exactly if there was one or the trailing run now reaches `n` |
| Waves.LatchIsPermanent | app/uploader.py:275-278 | Once latched the abort never clears, nothing more is dispatched and the window only drains |
| Waves.OutageBound | app/uploader.py:238-241 | In an outage a first wave makes at most threshold + window - 1 posts, exactly that many (or all records) without local rejects, with at most window - 1 left to drain at the latch |
| Waves.OutageCount | app/uploader.py:257-278 | At every point of an outage: streak, latch and the number dispatched in terms of posts and completions |
| Waves.StaleIds | app/uploader.py:260-262 | The records collected for resend are exactly those that completed with a stale session, each once |
| Waves.ExpiredIsStale | app/uploader.py:260-262 | A first wave's list to resend is its stale completions in order; a resend wave collects none |
| Passes.AbortIff | app/uploader.py:264-303 | The pass aborts exactly when both waves' completions together, local rejects removed, hold `threshold` network-like errors in a row |
| Passes.ReauthenticatesIff | app/uploader.py:289-291 | The session is renewed exactly when one went stale and the first wave never met `threshold` network-like errors in a row, stale ones among them |
| Passes.SentAtMostTwice | app/uploader.py:281-303 | A record completes at most once per wave, in the second only after a stale session in the first, and at least once unless aborted |
| Passes.SummaryIsExact | app/uploader.py:207-303 | Sent and rejected in the summary agree with the tables; failed is short by exactly the stale records never resent, none when nothing aborted |
| Passes.WarningsAreCounted | app/uploader.py:212-217 | The summary counts exactly the accepted results with warnings, and those that lost a component, of both waves |
| Passes.ShortfallIff | app/uploader.py:207-211 | The summary falls short exactly when a session went stale and `threshold` network-like errors came in a row, in the first wave, or counted over both within so few resends that the window had not reached the last stale record |
| Passes.ResendGivesUpIff | app/uploader.py:264-278 | The resend wave leaves a stale record unsent exactly if some k resends complete such a run and k plus the window less one falls short of the stale records |
| Waves.LeavesSomeIff | app/uploader.py:264-278 | The same of any finished wave: records are left exactly if the latch is set by some k completions while k plus the window less one falls short of the wave |
| Waves.DispatchedAtLatch | app/uploader.py:275-278 | How many records were dispatched is fixed by the first completion that sets the latch |
| Passes.FirstWaveAgrees | app/uploader.py:207-221 | After any prefix of the first wave the summary owes exactly the stale records |
| Passes.ResendWaveAgrees | app/uploader.py:237-279 | Every completion of the resend wave pays off one owed record |
| Passes.CommitsAreLocal | app/db.py:194-212 | A log of commits changes only rows it names, and of those never file, line number or text |
| Passes.StoredAsAnswered | app/ubki_client.py:391-431 | However a pass went, a record it leaves sent was sent before, or fits and was accepted by the bureau with no component rejected; one it leaves rejected was so before, is too big, or was rejected in whole or in part |
| Passes.StaleRowsAreFailed | app/uploader.py:207-209 | A record whose session was stale stands in the tables as failed until its resend |
| UploadPass.Wait | app/uploader.py:256-257 | Some non-empty part of the sends in flight, each once, in any order |
| UploadPass.SendRecord | app/uploader.py:223-235 | A local reject exactly for an oversize envelope, otherwise a result that some reply yields |
| UploadPass.Sender.Commit | app/uploader.py:189-221 | One row of the tables, the touched files and, unless left out, one place of the tally |
| UploadPass.Sender.Settle | app/uploader.py:257-278 | One completion does what the wave machine does, to the tables and the summary too |
| UploadPass.Sender.RunWave | app/uploader.py:237-279 | Whatever completes when, the loop ends with an empty window at the end of a schedule of the wave machine, with tables, tally and touched files those of its log |
| UploadPass.Sender.SendRecords | app/uploader.py:154-313 | The send phase is a completed pass over exactly the sendable records, or nothing was sent: because nothing was sendable, or because no session was known and the login was refused; authentication requests are counted exactly, a session is cached afterwards exactly as `SessionDay` says, and a cached one stays, dead or alive, unless a renewal is granted |
| RunPass.RunLocked | app/uploader.py:378-417 | Over any tables: afterwards exactly the finished files are archived, besides those that were, and a status is wrong exactly if its row was archived and wrong before and the pass touched none of its records; identities grown by the inbox; a dry run changes nothing |
| RunPass.RunDay | ARCHITECTURE.md:206-207 | Passes of one day, each with its own client on one cache: the bureau is asked once for a session, plus once per refused login and per renewal, and the cache ends as the outcomes say |
| Session.Client.Auth | app/ubki_client.py:205-229 | One request; a granted session is kept and cached for the day, a refusal changes nothing |
| Session.Client.EnsureSession | app/ubki_client.py:231-247 | The client's own session, else the one cached today, else a newly granted one; the bureau is asked exactly in the last case, and an empty session or one of another day is none |
| Session.Client.Reauth | app/ubki_client.py:249-253 | One request; a refusal leaves the client without a session and the stale one in the cache |
| Session.Client.PostRecord | app/ubki_client.py:306-318 | Nothing, and the session dropped, exactly for a stale session |
| Session.Client.UploadRecord | app/ubki_client.py:268-293 | At most two posts, two only after a stale first reply and a granted renewal; never reports a stale session; any definite result is the last reply's; requests counted exactly |
| SessionDay.AuthCallsOfADay | ARCHITECTURE.md:206-207 | Over any day of passes the requests are one for the shared session, plus one per refused login, plus one per renewal |
| SessionDay.DeadPass | ARCHITECTURE.md:177-178 | With every answer stale a pass gives up before the renewal if and only if it has `threshold` records to post, sending and reporting nothing; it renews if and only if it has fewer, and one |
| SessionDay.DeadDay | ARCHITECTURE.md:177-178 | With a dead cached session and `threshold` records waiting, every pass of the day aborts, none asks for a session, none sends, whatever is ingested or reset between them |
| SessionDay.BetweenPasses | app/uploader.py:376-402 | Ingesting files and resetting records between passes takes nothing away from what can be posted |
| SessionDay.DeadPassHappens | app/uploader.py:260-279 | Over any tables such a pass exists |
| SessionDay.ShortfallHappens | app/uploader.py:207-209 | Over any tables with `threshold` records to post some pass leaves the summary short |
| SessionDay.WholeWave | app/uploader.py:255-279 | Whatever each record's outcome, a wave can be driven to its end |
| Results.ResultOfReply | app/ubki_client.py:320-447 | On the fields of a reply: sent if and only if the body decides with state ok or nt and no rejected component; rejected if and only if with state er, or a rejected component; a stale session exactly for 401, 403 or code 2014 on a 200; network-like exactly for no reply, a stale session, a 5xx or state sy |
| Results.FitsMeansAnswered | app/uploader.py:223-235 | A send that ends as sent had a small enough envelope and only accepting replies lead to its result; one that ends rejected was too big or only rejecting replies do |
| Results.EveryResultIsWellFormed | app/ubki_client.py:320-447 | Whatever the bureau or the network answers, the result is one the pass can rely on: never pending, stale implies network-like, network-like implies failed, local reject exactly for an oversize envelope, a dropped component always warns |
| Results.EveryReplyIsWellFormed | ARCHITECTURE.md:223-225 | The same of a bare reply, which is never a local reject; from 500 on it is an outage that leaves the session alone, whatever its body |
| Results.ItemsNeverDecide | ARCHITECTURE.md:221-222 | Findings about single components change neither the record's status nor whether the session or the network is blamed |
| Results.CodeMattersIff | ARCHITECTURE.md:223-225 | Below 500 two codes lead to the same result for a body with a state unless it reports a stale session and just one of them is 200 |
| Results.SilentAcceptance | app/ubki_client.py:391-422 | Of an accepted reply: a component counts as lost exactly if the counter or an item says so, and there is no warning exactly if none was lost and every notice is 4014 or 5001, or there is none and state and counter show none |
| Results.WarningCodes | app/ubki_client.py:138-158 | One pass over the items yields exactly the codes of ignored and notice items under their prefixes, each once and in order, and whether any was ignored |
| Store.Db.InsertFile | app/db.py:131-147 | A new identity adds one pending file and its records under unused ids; a known one changes nothing |
| Store.Db.InsertRecords | app/db.py:138-145 | One pending record per line, numbered from 1, under consecutive ids |
| Store.Db.SendableRecords | app/db.py:185-191 | Exactly the pending records and the failed ones below the cap, each once, by file and line |
| Store.SendListIff | app/db.py:185-191 | A send list spelled out: each record once that is pending, or failed with attempts left, ordered by file and then line |
| Store.InsertKeepsOrder | app/db.py:189 | Placing one more record keeps the list sorted, free of repeats, with exactly one more member |
| Store.Db.UpdateRecordResult | app/db.py:194-212 | Only the named row changes: status, sending time, and an attempt unless the failure is network-like |
| Store.Db.ResetRecords | app/db.py:215-225 | Failed and rejected rows among the named start over, others stay, and the count is exact |
| Store.Db.RecomputeFileStatus | app/db.py:150-175 | Only this file's status and completion mark change: to the aggregate of its records, and to completed if it was or all its records are terminal |
| Store.AggregateIsTerminalIff | app/db.py:154-169 | The aggregate is sent or rejected exactly when no record is left to send or retry, sent exactly when all are sent or there are none |
| Store.AggregateMeans | app/db.py:154-166 | What failed, rejected, pending and partial each say about the records, both ways |
| FilePhases.IngestNewFiles | app/uploader.py:130-151 | Each name and digest is ingested once, with exactly its lines as pending records; what was there stays; a dry run changes nothing; new and empty files are counted exactly in both modes |
| FilePhases.IngestOne | app/uploader.py:131-151 | One path adds one file exactly if its identity is new |
| FilePhases.RecomputePhase | app/uploader.py:404-416 | Exactly the unarchived and the touched files are recomputed |
| FilePhases.ScopedRecomputeIff | app/uploader.py:404-416 | After a pass a row is up to date exactly if it was recomputed or was up to date before; from archived rows up to date that equals recomputing every file |
| Retries.RetriesDoNoHarm | app/uploader.py:404-416 | With any API retries of any files between the commits, a row is out of date afterwards exactly if it was before, is archived, and its file saw neither a commit nor a retry |
| Retries.ScopedIsFull | app/uploader.py:404-416 | So from archived rows up to date a pass with retries beside it equals recomputing every file |
| Retries.DeathIff | app/uploader.py:404-416 | After a pass that died before its recompute and a completed one, a row is out of date exactly if it is archived, its records no longer add up to what it last saw before the death, and the later pass neither commits to the file nor sees a retry of it |
| Retries.NothingElseMends | ARCHITECTURE.md:321-322 | No number of later passes, completed or dead, mends such a row without a commit to its file or a retry of it |
| Retries.DeathHappens | ARCHITECTURE.md:321-322 | An archived rejected file, its record retried and sent, the pass dead before its recompute: the row says pending and the record is not sendable |
| Retries.SeenStays | app/db.py:150-175 | Without a commit to a file its records add up to what its row last saw, through any retries |
| Retries.HalfRetryIff | app/api.py:169-186 | With one reset whose own recompute is still to come, every other row is right, and that file's is wrong if and only if it is archived, untouched by the pass, and the reset changed what its records add up to; its recompute mends it |
| Retries.ResetShowsIff | app/db.py:215-225 | A reset changes what a file's records add up to exactly if the last failed record goes, or, with none failed, a rejected one goes and the file is not left partial as it was |
| Retries.HalfRetryHappens | app/api.py:177-186 | An archived rejected file whose one record is reset: its row still says rejected |
| FilePhases.IngestKeepsArchived | app/uploader.py:130-151 | Ingest leaves archived rows up to date |
| FilePhases.ApiRetryKeepsUpToDate | app/api.py:169-186 | Reset followed by recompute of that file leaves every row up to date |
| FilePhases.Disk.ArchiveOne | app/uploader.py:325-333 | The file moves exactly if the inbox still holds this version; it is marked either way |
| FilePhases.Disk.ArchiveCompletedFiles | app/uploader.py:316-338 | Exactly the unarchived files without unfinished records are marked, and those whose version is still in the inbox are moved and counted |
| FilePhases.MovesUnder | app/uploader.py:86-93 | A file leaves the inbox under its own name, or where that is taken under eight digits of its digest and its name |
| FilePhases.ArchivedAreTerminal | app/uploader.py:319-323 | On up-to-date rows the query picks exactly the unarchived files stored as sent or rejected, files without records among them |
| FilePhases.MovesLoseNothing | app/uploader.py:325-333 | With the prefixed names unused, nothing leaves the inbox but into the archive and nothing archived is replaced |
| FilePhases.MoveOverwritesIff | app/uploader.py:86-93 | A move replaces other archived content exactly when the plain and the prefixed name are both taken, the latter by other content |
| FilePhases.MoveOverwritesHappens | app/uploader.py:86-93 | It happens to every finished file whose plain and prefixed names are both taken: the content under the prefixed name is gone |
| RateLimit.RateLimiter.Acquire | app/ratelimit.py:37-47 | The call reserves the slot of its place in the sequence of readings and wakes no earlier than that slot |
| RateLimit.SlotIsTheMaximum | app/ratelimit.py:41-44 | The n-th slot is the maximum over earlier calls of their reading plus the intervals since, and of the initial slot |
| RateLimit.SlotsAreOptimal | app/ratelimit.py:37-47 | The slots are the pointwise least schedule never before arrival and one interval apart |
| RateLimit.SlotWindow | app/ratelimit.py:7-8 | Any half-open window of length l holds at most ceil(l * rate) slots |
| RateLimit.SlidingWindowBound | app/ratelimit.py:7-8 | With starts lagging by at most d, any second holds at most ceil((1 + d) * rate) starts |
| RateLimit.DocumentedBoundIff | app/ratelimit.py:7-8 | At most `rate` starts in every second of every run if and only if d is 0 and the rate is whole |
| RateLimit.FractionalRateExceeds | app/ratelimit.py:7-8 | Every fractional rate has a run that exceeds it |
| RateLimit.LaggingStartExceeds | app/ratelimit.py:7-8 | Every positive lag has a run that exceeds a whole rate |
| Calendar.MonthEndStep | backfill_deallife.py:99-107 | Consecutive month ends are the later month's length apart, across years and leap years |
| Calendar.OrdinalOrder | backfill_deallife.py:137-138 | Day numbers order dates as years, months and days do, and are equal only for equal dates |
| Calendar.MonthOfDay | backfill_deallife.py:205-212 | Which month a date is in is decided by its day number against the month ends |
| Calendar.FromOrdinal | app/enricher.py:199-202 | The date it returns has the day number given |
| Calendar.DateRoundTrip | app/enricher.py:199-202 | Converting a date to its number and back gives the date |
| Calendar.PlusYearsIsMonotone | app/enricher.py:249-254 | Adding years never swaps two dates and merges them exactly when 29 February folds onto the 28th |
| Calendar.PlusYearsIsThatDay | app/enricher.py:249-254 | The same month and day that many years on, with 29 February falling back to the 28th exactly where there is none |
| Backfill.Stats.CleanSlice | backfill_deallife.py:110-117 | A malformed end date is removed and counted, nothing else changes |
| Backfill.Stats.BuildSlice | backfill_deallife.py:120-141 | The slice dated at the calculation date, the counters of what was removed |
| Backfill.Stats.WriteMonth | backfill_deallife.py:206-211 | One month's slice is appended unless it has no overdue day, which is counted |
| Backfill.Stats.BuildChain | backfill_deallife.py:195-212 | The month-by-month walk produces exactly the closed-form chain and counters |
| Backfill.Stats.ExpandDeal | backfill_deallife.py:144-219 | The deal becomes its expansion and the counters its account |
| Backfill.Stats.ExpandSubject | backfill_deallife.py:222-243 | Every deal is expanded in turn, or each is cut to one cleaned slice; counters exact in both cases |
| SelfCheck.AssertChainSane | backfill_deallife.py:246-265 | The runtime check passes exactly when every step and amount of every deal is sane |
| Backfill.ZeroOnlyOnTheFirstMonthEnd | backfill_deallife.py:203-211 | Only the first month can have zero overdue days, exactly when the overdue start is its last day |
| ChainLaws.ChainLength | backfill_deallife.py:205-212 | The chain has one slice per month of the distance plus one, minus the one drop, which happens exactly when a month end before the end period is the overdue start |
| ChainLaws.ExpandsIff | backfill_deallife.py:144-219 | A one-slice deal becomes its chain exactly if it exceeds the step, has a known start, a non-zero amount, a valid period and no final status unless asked for, else it keeps its cleaned slice; it gets several slices exactly if some month before its own ends after the start |
| ChainLaws.FinalDealsAreKept | backfill_deallife.py:171-172 | By default a deal in a final status keeps its one cleaned slice, and asking for those changes nothing else |
| ChainLaws.EachDealIsCounted | backfill_deallife.py:163-183 | Every deal is counted once: as expanded, or under the first reason that keeps it |
| ChainLaws.SlicesAreConsistent | backfill_deallife.py:120-141 | Every slice is dated in its own period, counts the days from the start to that date and carries the present amount and flags; only the last keeps an end date |
| ChainLaws.CountersAreExact | backfill_deallife.py:206-218 | Over any list of deals months equal slices written plus dropped, at most one drop per expanded deal, `max_slices` is the maximum chain length |
| SelfCheck.ExpandedChainIsSaneIff | backfill_deallife.py:246-265 | A generated chain passes the self-check exactly if it has no history or its final date follows the last month end by 1 to max_step days |
| SelfCheck.ExpandedDealIsSaneIff | backfill_deallife.py:144-219 | The same for any deal, including the ones returned as they came |
| SelfCheck.ExpandedSubjectIsSaneIff | backfill_deallife.py:222-265 | The same for any subject |
| SelfCheck.SelfCheckNeverFires | backfill_deallife.py:246-265 | With calculation dates in the deals' own months, at most one slice per deal and max_step of 31 or more, the self-check never fires |
| ChainLaws.ChainIsCorrect | backfill_deallife.py:195-219 | Consecutive months up to the deal's own; days positive, first at most 31, growing by 1 to 31, by whole months inside, and adding up to final date minus overdue start |
| ChainLaws.HistoryIsCorrect | backfill_deallife.py:205-211 | Before the last slice every step is one calendar month and adds its length, so at most 31 days, whatever the final date is |
| ChainLaws.GrowthTelescopes | backfill_deallife.py:205-212 | First day count plus all growth is the last day count |
| SelfCheck.DateOutsideThePeriodTripsTheCheck | backfill_deallife.py:185 | A deal whose `dldateclc` is in another month is expanded into a chain the self-check refuses |
| SelfCheck.UntouchedDealTripsTheCheck | backfill_deallife.py:145-148 | A two-slice deal comes back unmodified and is refused by the self-check |
| SelfCheck.SeveralDealsAreTruncated | backfill_deallife.py:224-243 | A multi-deal subject keeps one slice per deal, unchanged exactly when each had one clean slice; asked otherwise, or with a single deal, every deal is expanded |
| SelfCheck.CheckMissesIff | backfill_deallife.py:246-265 | A generated chain passes the self-check with zero days beside a non-zero amount if and only if it has no history and the overdue start is not before the final date |
| SelfCheck.CheckMissesASingleSlice | backfill_deallife.py:252-253 | The concrete case of one slice |
| Sampling.Stratified | backfill_deallife.py:268-311 | No line twice, all from the input, first every multi-deal line by number of deals, a longest span and a largest line; of distinct lines exactly max(mandatory, min(want, n)) |
| Sampling.Sample.Take | backfill_deallife.py:293-296 | A line is added unless seen |
| Sampling.Sample.TakeMultiDeal | backfill_deallife.py:298-301 | Takes exactly the multi-deal lines, most deals first, ties in input order |
| Sampling.Sample.TakeMandatory | backfill_deallife.py:298-303 | Then exactly the mandatory lines are seen |
| Sampling.Sample.TakeSpread | backfill_deallife.py:304-310 | What was picked stays in front; every stride-th unseen line follows, until the wanted number or the end |
| Sampling.StrideIsEnough | backfill_deallife.py:306 | Every floor(len/need)-th of len items yields at least need |
| Sampling.ByDealsIsSorted | backfill_deallife.py:298 | The order is by number of deals, descending, with the same entries |
| Sampling.ByDealsIsStable | backfill_deallife.py:298 | Entries with equally many deals stay in input order |
| Sampling.FirstOfTheLongest | backfill_deallife.py:302 | Of several lines with the longest span the first is taken |
| Sampling.FirstOfTheLargest | backfill_deallife.py:303 | And of several largest lines the first |
| Sampling.RestOfParts | backfill_deallife.py:304 | The rest is in input order |
| Sampling.StrideIsWidest | backfill_deallife.py:306 | The step is the widest that still yields enough picks, and one if there are too few |
| Sampling.StridedAt | backfill_deallife.py:307-310 | The k-th pick lies k steps into the rest |
| Sampling.RestCounts | backfill_deallife.py:304 | Of distinct lines, the rest lists each unseen one once and accounts for all |
| Documents.BuildDoc | app/enricher.py:318-382 | The loop over the two sources ends with the selection |
| Documents.DocumentSelection | app/enricher.py:318-382 | A document exactly when some source parses, complete exactly when some parseable source is complete after peer filling, the snapshot preferred; flags and term exact |
| Documents.DocumentFields | app/enricher.py:299-366 | Number, issuer and date are the chosen source's own where it has them; only for want of an issuer does a newest peer for the same normalized number give its issuer, and its date for want of a date; recovery is reported exactly if that completes the document |
| Documents.TermIsTenYears | app/enricher.py:311-314 | An ID card with a date, and nothing else, has a term: that day ten years on |
| Documents.PeerIsSameDocument | app/enricher.py:278-296 | A peer found is a candidate for the number that no other candidate is newer than; none only if there is none |
| Documents.NormalizeIsIdempotent | app/enricher.py:257-275 | Normalizing twice is normalizing once, and the parser does not tell the difference |
| Documents.NormalizeOne | app/enricher.py:257-259 | What normalizing does to each character: white space goes, small letters become capitals, the rest stays |
| Documents.NormalizeParts | app/enricher.py:257-259 | It works character by character |
| Documents.ParseDocNumberIff | app/enricher.py:262-275 | A number is read exactly as it is spelled out again: nine digits for an ID card, two non-digits and six digits for a passport |
| Documents.StripIsInside | app/enricher.py:415 | Only white space is taken off, and all of it at both ends |
| Documents.ClientsMissingIssuer | app/enricher.py:573-596 | Exactly the clients with a row in which some usable source lacks an issuer and none has one, each once, ascending |
| Documents.LacksIssuerIff | app/enricher.py:573-596 | Without peers a row's document lacks an issuer exactly if the lookup picks it, or in the one case it misses |
| Documents.MissedLookup | app/enricher.py:573-596 | In that case an available peer would have completed the document that goes out incomplete |
| Documents.MissedLookupHappens | app/enricher.py:573-596 | Such rows exist for every ID card number, issuer and date |
| EnrichLine.Summary.CollectRows | app/enricher.py:422-430 | The rows of all deals in order, or the failure of the first deal that has no or an unknown reference |
| EnrichLine.Summary.Enrich | app/enricher.py:409-523 | The verdict of the first guard that fails, in the program's order; the counters move only for an enriched line, by what its document says |
| EnrichLine.JudgedRightly | app/enricher.py:409-482 | A line is enriched exactly when it is safe, its person, date, document and phone then those of the newest application; any reason for quarantine is true of the line |
| EnrichLine.FirstGuardThatFails | app/enricher.py:409-482 | The reason given is that of the first guard that fails in the program's order: all before it pass |
| EnrichLine.SafeMeansOnePerson | app/enricher.py:432-482 | An enriched line names one client in every deal, that client's own tax id, its newest application, and no contradicting birth date |
| EnrichLine.BirthDateDecides | app/enricher.py:471-482 | Of a line that passes with some birth date: with an ISO date it passes exactly if the tax id encodes that very date, else it is refused naming both; text not shaped like a date passes |
| EnrichLine.ContradictsIff | app/enricher.py:479-480 | Contradicting means a ten-digit id, a birth date starting in ISO shape, and not the encoded date |
| EnrichLine.NormalizePhoneIff | app/enricher.py:183-189 | A phone is accepted exactly if its digits are a Ukrainian number with or without country code, and goes out as +380 and nine digits |
| EnrichLine.OnlyDigitsAre | app/enricher.py:184 | The digits of a text and nothing else |
| TaxId.IsoShapedIff | app/enricher.py:480 | The shape of an ISO date: four, two and two digits, every date among them |
| TaxId.IsoOrder | app/enricher.py:237-246 | ISO dates compare as strings exactly as in time |
| TaxId.StampOrder | app/enricher.py:237-246 | So do timestamps of one format |
| TaxId.NewestIsNewest | app/enricher.py:436-437 | The row chosen by key is chronologically newest, the first of them |
| TaxId.BirthDayInRange | app/enricher.py:192-202 | Every ten-digit id decodes between 1899-12-31 and 2173-10-14 |
| TaxId.BirthdayIsStrictlyMonotone | app/enricher.py:192-202 | Decoded dates are ordered exactly as the first five digits, and equal exactly when they are |
| TaxId.EveryBirthdayIsEncoded | app/enricher.py:192-202 | Every date of that range is some id's |
| Json.StringRoundTrip | app/enricher.py:688-690 | Any text written as a string literal and read back is itself |
| Json.UnicodeEscapeIsRead | app/enricher.py:622-624 | Any character may be escaped by its UTF-16 number in four hexadecimal digits of either case, beyond 16 bits by a pair of surrogates |
| Json.ShortEscapes | app/enricher.py:622-624 | The eight short escapes; a raw control character makes a literal fail |
| Json.RoundTrip | app/enricher.py:688-690 | Any well-formed value written and read back is itself, whatever follows |
| Json.LoadsDumps | app/enricher.py:688-690 | Reading the whole printed text gives the value |
| Json.NothingFollows | app/enricher.py:622-624 | Behind a value nothing but white space may follow |
| Json.NumberIsReadIff | app/enricher.py:622-624 | Text in the characters of numbers is read as itself if it is an integer without leading zeros with optional fraction and exponent, else refused |
| Lines.QuarantineRoundTrip | app/enricher.py:399-406 | Parsing one written quarantine record gives what parsing the original line gives, broken lines included |
| Lines.IsRecordIff | app/enricher.py:399-406 | A quarantine record is an object with exactly the three keys |
| Lines.LaterMemberCounts | app/enricher.py:622 | Of members with one key the last counts, and exactly the keys named are there |
| QuarantineFile.QuarantineFileIff | app/enricher.py:688-690 | The file's text is cut back into exactly the records written if and only if no reason and no line holds a line break beyond ASCII |
| QuarantineFile.WrittenQuarantineIff | app/enricher.py:549-550 | For what one run quarantines, lines cut from a file themselves, the reasons alone decide |
| QuarantineFile.QuarantineFileReadBack | app/enricher.py:531-550 | A file cut back right is numbered right, and each record parses to what its original line parses to |
| QuarantineFile.CutInTheReason | app/enricher.py:549 | A break in the reason cuts the record into exactly these two pieces |
| QuarantineFile.CutRecordIsLost | app/enricher.py:427-429 | With a deal reference continuing in a capital letter after the break both pieces are refused, whatever the cabinet holds |
| LostLines.RefusedLineIsLost | app/enricher.py:652-664 | A raw line refused with such a break in the reason is written as one record and read back as two refused pieces |
| LostLines.LineIsLost | app/enricher.py:427-429 | It happens to every line with a tax id whose one deal refers, with an escaped line separator before a capital letter, to an application the cabinet does not know |
| LostLines.RawLineLoads | app/enricher.py:622-626 | Such a raw line parses to that tax id and that reference |
| LostLines.LineIsUnknown | app/enricher.py:427-429 | The guards refuse it with a message that quotes the reference |
| QuarantineFile.FirstPieceIsRefused | app/enricher.py:622-626 | The first piece of a record cut in its reason never parses |
| QuarantineFile.FileRoundTripIff | app/enricher.py:549-550 | Any lines written one to a line come back exactly if none holds a break |
| QuarantineFile.CutAtIff | app/enricher.py:549 | The characters text is cut at, carriage return and line feed being one cut |
| Lines.OneLevelIsRemoved | app/enricher.py:399-406 | After k failed rounds the next parse sees what the line after k - 1 rounds denotes |
| Lines.SecondFailureIsFinal | app/enricher.py:679-680 | A line that failed twice is refused by any enrichment that needs a tax id |
| EnrichFile.EnricherNeedsInn | app/enricher.py:415-417 | The guards do need one, whatever is around them |
| EnrichFile.SecondFailureStays | app/enricher.py:679-680 | So a line that failed twice is refused whatever the cabinet holds by then |
| EnrichFile.FirstFailureIsJudgedAgain | app/enricher.py:399-406 | A line that failed once is judged as the object it was, by the cabinet of the day |
| EnrichFile.RedropWorksIff | app/enricher.py:679-680 | After its failed rounds a line that was no quarantine record is enriched if and only if there was at most one and the guards pass it by now |
| EnrichFile.InnMeansNoRecord | app/enricher.py:399-406 | An object with a tax id is no quarantine record |
| EnrichFile.FieldsAreRead | app/enricher.py:415-418 | Text fields as they are, a missing key or null as empty, deals only from a list |
| EnrichFile.DealsAreRead | app/enricher.py:422-427 | Each deal gives one reference, in order, and none if it is no object or has none |
| Lines.NumbersAreTrue | app/enricher.py:531-550 | Exactly the non-blank lines, in order, under their true 1-based numbers |
| Lines.BlankCharacterIff | app/enricher.py:550 | A line of one character is left out exactly if it is white space |
| Lines.BlankLineIff | app/enricher.py:550 | A line is left out exactly if each of its characters alone would be |
| Lines.SplitLines | app/enricher.py:620-664 | The two loops produce exactly the enriched and the quarantined lines |
| Lines.EachLineOnce | app/enricher.py:652-664 | Each line is in exactly one output, at the place its predecessors leave for it |
| Lines.TotalsAddUp | app/enricher.py:705-707 | The two outputs together are as many as the lines |
| FileStep.Enricher.WriteEnriched | app/enricher.py:553-570 | Reuse or temporary file and rename: dying after any operation leaves the disk of that many steps |
| FileStep.Enricher.WriteQuarantine | app/enricher.py:688-697 | The same for the quarantine file |
| FileStep.Enricher.MarkDone | app/enricher.py:702-705 | Move, then record |
| FileStep.Enricher.ProcessFile | app/enricher.py:599-709 | One attempt leaves the disk of the operations it got through; success means all of them |
| FileStep.OneDeath | app/enricher.py:666-705 | Wherever an attempt dies, a full one afterwards gets where one would have gotten before, or everything is already there |
| FileStep.CrashRestart | app/enricher.py:666-705 | Any number of deaths at any points and then one full attempt give exactly the folders of an undisturbed attempt |
| FileStep.AttemptDecides | app/enricher.py:602-604 | A file is processed exactly if it lies there with these bytes and is not recorded as done; afterwards it is gone, recorded, and nothing is left to do |
| FileStep.ProcessedOverwritesIff | app/enricher.py:702-703 | Nothing disappears from the processed folder, the raw bytes are there, and an older file is overwritten exactly if the plain and the prefixed name are both taken, the latter by other bytes |
| FileStep.PutOverwritesIff | app/enricher.py:553-570 | The same of the inbox and the quarantine folder: another visible file is overwritten exactly if both names are taken by other bytes |
| FileStep.PutTwice | app/enricher.py:553-570 | Writing the same bytes twice is writing them once |
| FileStep.PutAfterTmp | app/enricher.py:567-569 | A leftover temporary file changes nothing |
| FileStep.SecondIdentityIff | app/enricher.py:553-570 | With the uploader taking files away at any time and the process dying at any time, the enriched bytes can appear under two names exactly if a different file held the name at the start |
| SecondIdentity.StoredOnceIff | app/uploader.py:130-134 | With the uploader scanning, ingesting and archiving at any time beside the enricher and its deaths, the enriched bytes are stored under at most one name in every run if and only if no different file held the name at the start |
| SecondIdentity.OneRowIff | app/db.py:125-128 | Identities being unique, one name for a content is one row |
| SecondIdentity.TwoIdentities | app/enricher.py:562-566 | The run that stores both, for every such file |
| FileStep.GapHappens | app/enricher.py:562-566 | The concrete schedule for every such file |
| FileStep.OnlyOwnName | app/enricher.py:562-566 | If the name is free or its own, only that name is ever shown |
| FileStep.NoDeathNoGap | app/enricher.py:666-705 | Without a death the bytes appear under at most one name, wherever the uploader steps in |

## Left out

- Requests, threads, SQLite and clocks: replies are arbitrary values, completions arrive in
  any order, each database call is one atomic transaction, clock readings and the current
  day are parameters, sleeping is the time it lasts.
- Reading the fields of a reply out of its JSON: `Results.Info` holds them as the code reads
  them (state in lower case, error types in upper case, counters as integers).
- Contents and digests: a file's content is identified by its digest, so collisions of the
  digest are excluded; names are compared in full.
- Deciding whether a file is old enough or matches the pattern: `IngestNewFiles` takes the
  files found.
- The lock between passes: runs have one pass at a time by the step rules of `Protocol`.
- UploadPass.SendRecord: the reply is chosen at completion, not at dispatch; the limiter's
  slot of a send is modelled separately in `RateLimit`.
- Protocol.CanRun: manual resets may come at any step, while ingest happens between passes
  only, as the lock has it.
- FilePhases.ScopedRecomputeIff: the pass by itself; with API writes beside it, see `Retries`.
- Retries.NothingElseMends: the later passes as writes and recomputes; what they ingest and
  archive concerns other rows.
- RateLimit.RateLimiter.constructor: a rate that is not positive, which the program refuses,
  is a precondition.
- RunPass.RunDay: the program is started anew for each pass; the loop over them stands for
  the scheduler, and tables change between them only by what the passes find in the inbox.
- UploadPass.Sender.SendRecords: one current day for the whole pass; a session cached before
  midnight is not used after it.
- Json.RoundTrip: lone surrogates and the literals NaN and Infinity, which JSON does not
  have, are not modelled.
- Documents.NormalizeIsIdempotent: white space and upper case beyond ASCII and the
  Ukrainian alphabet are not modelled, nor digits beyond ASCII.
- ChainLaws.ChainIsCorrect: years beyond 9999 and field values of the wrong JSON type, which
  raise in the program, are not modelled; amounts are exact.
- EnrichLine.Summary.Enrich: the cabinet's answers are parameters, with application times as
  timestamps of one format rather than text of any shape; assembling the other
  fields of the subject is copied data and left out.
- Lines.SplitLines: decoding the file's bytes comes before it; cutting the text into lines is
  in `QuarantineFile`, and what enriching yields in `EnrichFile`.
- EnrichFile.EnricherNeedsInn: how numbers, lists and objects in place of text are shown, how
  an enriched line is written and how a list of client ids is printed are parameters.
- QuarantineFile.QuarantineFileIff: text as characters; the encoding of the file is left out.
- SecondIdentity.StoredOnceIff: of the first attempt at bytes that are stored nowhere yet.
- Sampling.Stratified: parsing the lines and computing spans and sizes come before it.
- FileStep.Enricher.ProcessFile: what enriching the file yields is carried by the job, since
  the cabinet's answers are unchanged between attempts.
- Session.Client.UploadRecord: one current day for the whole call.
- The deletion of periods, closing deals from a list, the HTTP API beyond its retry
  endpoints, health rules, alerts, logging and configuration.
- Address, phone and name assembly beyond the guards that decide a line's fate.
