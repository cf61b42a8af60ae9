# A verified model of the sandbox platform's hard parts

The repository runs containers of tools for agents: `api-rust` keeps a paged registry of template containers,
`tools-rust` is the daemon inside a container (processes, edits, searches), and `e2b-shim` translates another
vendor's wire formats. This project models the parts of it in which state, concurrency, or byte-level parsing is hard
to get right, and proves what they guarantee for every input, every run, or every interleaving.

Run `dafny verify dfyconfig.toml` in this directory.

## The parts

**The paged registry** (`api-rust/src/main.rs`). Templates are hot (running), warm (paused), or cold (no container);
acquiring one may demote the oldest hot templates and remove the oldest warm ones. `PagedRegistry` is the registry run
by one caller at a time, as a class with the source's map, LRU deque and eviction loops, driving a list of containers.
Every method is proved to make the move that `RecencyPages` prescribes in closed form, and `RegistryRuns` proves what
whole runs of such moves have in common. `RegistryConcurrency` is the same code under any number of callers, each
stopping wherever the code gives up the state lock. `RegistrySections` says what each section between such points does
whatever happened before it. `RegistryLocks` proves that its locks cannot block it for good,
`RegistrySerial` that with one caller it does what `RegistryRuns` says, and `RegistryParting` that this ends with two;
`RegistrySchedules` attains the bound on its hot tier.

**Processes** (`tools-rust/src/process.rs`). `OutputTracks` and `StreamBuffer` are the bounded output buffer, as a
specification over the whole stream and as the class that drops bytes one by one; `ReadAction` is the `read` action
with the writers and the wait task running between its drains. `ProcessSession` is the life of a session's processes as
seen through replies: the cap, the wait task, replies that look at the state twice, and the deletion of the session.

**Edits and searches** (`tools-rust/src/main.rs`). `Scanner` is leftmost non-overlapping matching; `Edit` defines what
it means to make several replacements at once and proves that sorting, a check of neighbours, and one pass do it;
`EditRequest` is the whole tool with its older request form. `Grep` is the nested search loop with context windows,
limits and early exits.

**Wire formats** (`e2b-shim/src/main.rs`). `Multipart`, `BuildLog`, `Base64`, `PercentCoding` and `ConnectFrames`.

Bytes are integers from 0 to 255, and a Rust string is the sequence of its UTF-8 bytes (base64 text is a `string`).
Template names, process ids and container ids are numbers, as the code only compares them. Shifts and masks of
disjoint bits are written as division, remainder and sum. Counters that saturate or wrap do so in the model.

## What the code does that its documentation does not say

- A hot limit of 0 behaves like 1 (`api-rust/src/main.rs:319-321`, `HotCapacity`).
- With two callers, whatever the limits, a template can be left warm but out of the deque
  (`api-rust/src/main.rs:338-351`, `LateDemotionSeparates`); with a warm limit of 0 that is one more than allowed. It
  stays beyond any victim scan until someone asks for it (`StrandedStays`). The map and the deque hold the same names
  in every run exactly when no two calls can overlap (`SameNamesExactlyWhenSerial`).
- A failed cold start has already demoted a template, so the hot tier may be one short of the newest names that fit,
  and never more than one short (`HotAtLeast`). A larger hot limit still keeps hot what a smaller one does; with equal
  limits such a failure makes the difference (`InclusionOverHotLimits`, `FailedStartLeavesSlotFree`).
- A promotion can remove the containers of the very template it returns: while it is being promoted it is still warm,
  and trimming the warm tier does not exclude it (`api-rust/src/main.rs:361-377`). `DeadExactlyWhenTrimmed` gives the
  exact condition and `AlternatingCallsTrimThemselves` a run in which it happens at the third call.
- If building the HTTP client for the health probe fails, the container just started is neither removed nor recorded
  (`api-rust/src/main.rs:875-878`). Of the ten steps at which a start can fail this is the only one that leaves a
  container running without an owner (`StartContainer`, `Acquire`), and one call is enough (`ClientFailureLeaks`).
- The process cap counts every process that is still tracked, ended ones included
  (`tools-rust/src/process.rs:335`); the written requirements of the process tool speak of active processes.
  `EndedProcessBlocksStart` is a run in which a session without a running process is refused a start,
  `GuardCountsTheEnded` and `SerialGuard` say exactly when the two differ, and `SpawnedWithinCap` what the code bounds
  instead: every process the session ever spawned. The buffer's default size is 262144 bytes
  (`tools-rust/src/process.rs:67`), not the 1048576 given there.
- A process spawned before the deletion of its session lists the processes, but tracked after that, outlives the
  session (`tools-rust/src/process.rs:453`, `902`, `RacingStartOutlivesDeletion`).
- `read` reports one truncation flag for both streams (`tools-rust/src/process.rs:551`), where those requirements
  have one for each.
- A buffer capacity of 0 bounds nothing (`BoundedIffPositive`), and then truncation is reported although nothing is
  lost (`ToldExactlyIffPositive`).
- A `write` that looked at the process before it ended may still answer "running" after another caller has been told
  the exit code (`SlowWriteMayContradict`); only replies to requests that began afterwards must agree
  (`TerminalIsAbsorbing`).
- A length of 2^32 bytes or more is cut to 32 bits in a Connect envelope, so that the data does not come back
  (`ConnectFrames.RoundTripExactlyWhen`).
- A build whose response breaks off without a complete marker line counts as ready if its HTTP status was good
  (`e2b-shim/src/main.rs:2358`, `2380-2392`), and a marker on an unterminated last line is not looked at
  (`BrokenOffMarkerIsReady`); `ReadyExactlyWhen` is the exact condition.
- In a multipart content type, parameters after the boundary become part of it (`e2b-shim/src/main.rs:1869`): it is
  found exactly when it comes last (`BoundaryExactlyWhen`).
- A percent sign followed by a plus sign and a hexadecimal digit decodes, as the standard number parser allows a sign
  (`PlusIsAccepted`). `PercentCoding.AcceptedExactlyWhen` says which texts decode.

## Model

| member | source | states |
|---|---|---|
| `RecencyPages.TrimWarmKeeps` | api-rust/src/main.rs:361-405 | dropping the oldest warm templates beyond the limit removes a prefix of the recency order and keeps everything else in place |
| `RecencyPages.TrimOne` | api-rust/src/main.rs:361-384 | one turn of the trimming loop is a first step of trimming to the limit, and stays well-formed |
| `RecencyPages.DemoteOneTowardsRoom` | api-rust/src/main.rs:312-358 | trimming the warm tier after every single demotion comes to the same as demoting all that must go and trimming once |
| `RegistryRuns.StepRefines` | api-rust/src/main.rs:207-308 | one acquire, successful or not, keeps both tiers within their limits and the tiers the tail of the move-to-back list |
| `RegistryRuns.RunRefinesRecencyList` | api-rust/src/main.rs:191-405 | over every run, failed starts included, the LRU order is warm names then hot names, it is the tail of the plain move-to-back list of the names served, and both limits hold |
| `RegistryRuns.HotIsTheNewestNames` | api-rust/src/main.rs:312-358 | in a run without a failed cold start the hot tier is exactly the newest names served, as many as fit |
| `RegistryRuns.DropsOneWhenFull` | api-rust/src/main.rs:207-405 | a call drops a resident only if it is no hit and both tiers are full, and then exactly one, the oldest |
| `RegistryRuns.InclusionOverHotLimits` | api-rust/src/main.rs:207-221 | of two runs that serve the same names, failed starts in between or not, what is hot under the smaller hot limit is hot under a larger one (0 counting as 1); and under an equal one, if no cold start failed in that run |
| `RegistryRuns.HotAtLeast` | api-rust/src/main.rs:267-358 | in every run, failed starts included, the hot tier is at most one short of the newest names that fit |
| `RegistryRuns.FailedStartLeavesSlotFree` | api-rust/src/main.rs:273-289 | with one hot slot, two runs that serve the same names end with the name hot in the one and not in the other, in which a second cold start failed |
| `RegistryRuns.DeadExactlyWhenTrimmed` | api-rust/src/main.rs:241-264 | the template handed out has removed containers if and only if it had before, or it was the oldest warm one while both tiers were full |
| `RegistryRuns.AlternatingCallsTrimThemselves` | api-rust/src/main.rs:361-377 | with one slot per tier, alternating between two templates makes the third call return removed containers |
| `PagedRegistry.DropResident` | api-rust/src/main.rs:381-400 | removing a resident and its containers keeps every live container with exactly one owner |
| `PagedRegistry.AbsorbFailedStart` | api-rust/src/main.rs:275-289 | after a start that failed part-way, containers are all removed again except one that leaked, and ownership is as before |
| `PagedRegistry.AdmitRemoved` | api-rust/src/main.rs:254-261 | a template trimmed in the middle of its promotion comes back with removed containers, which the model records as dead |
| `PagedRegistry.PagedRegistry.TouchLru` | api-rust/src/main.rs:191-196 | the name is moved to the young end, the others keep their order |
| `PagedRegistry.PagedRegistry.TierCounts` | api-rust/src/main.rs:198-204 | counting the map by tier gives the lengths of the two recency lists |
| `PagedRegistry.PagedRegistry.OldestHotExcept` | api-rust/src/main.rs:322-333 | the victim scan finds the oldest hot template and is empty-handed only when none is hot |
| `PagedRegistry.PagedRegistry.EvictHotToWarm` | api-rust/src/main.rs:312-358 | the demotion loop ends, frees exactly one hot slot, and keeps container ownership, also in the middle of a promotion |
| `PagedRegistry.PagedRegistry.EvictWarmToCold` | api-rust/src/main.rs:361-405 | the trimming loop ends with the warm tier at its limit, the youngest kept, and the removed templates' containers removed |
| `PagedRegistry.LeakedIsUnowned` | api-rust/src/main.rs:275-289 | what is recorded as leaked is exactly what lives without an owner |
| `PagedRegistry.PagedRegistry.TierMeansStatus` | api-rust/src/main.rs:241-250 | the containers of a hot template run and those of a warm one are paused, but for templates whose containers have been removed |
| `PagedRegistry.ClientFailureLeaks` | api-rust/src/main.rs:875-878 | one acquire whose health client cannot be built leaves a running container that nobody owns |
| `PagedRegistry.PagedRegistry.StartContainer` | api-rust/src/main.rs:770-905 | going through the steps of a start, each exit with its own cleanup: an id is returned exactly when no step fails, and a running container is left without one exactly when the failing step is the health client |
| `PagedRegistry.PagedRegistry.StartReplicas` | api-rust/src/main.rs:275-289 | all replicas run, or the first failure is reported and the replicas before it are removed |
| `PagedRegistry.PagedRegistry.Promote` | api-rust/src/main.rs:241-264 | a warm template becomes the youngest hot one, with the runtime it had |
| `PagedRegistry.PagedRegistry.ColdStart` | api-rust/src/main.rs:267-307 | success enters the new runtime as youngest hot; failure keeps only the room that was made |
| `PagedRegistry.PagedRegistry.Acquire` | api-rust/src/main.rs:207-308 | which calls succeed and with which error they fail; the new recency lists; a cold start hands out as many running containers as are configured, one for a count of 0, and succeeds exactly when each of them starts; which warm and hot ones run; that other runtimes are untouched; and what leaked |
| `RegistryConcurrency.SoundAlways` | api-rust/src/main.rs:191-336 | in every interleaving the deque has no duplicates, its names are in the map, hot names are in it, name locks are held by their tasks, and a name being admitted is not hot |
| `RegistryConcurrency.VictimFound` | api-rust/src/main.rs:322-336 | in every such state the victim scan is empty-handed exactly when nothing is hot |
| `RegistrySections.ReturnsHot` | api-rust/src/main.rs:209-306 | in any state, a call that returns a runtime leaves its name hot and the youngest, even if it was demoted after the re-check, and nothing else changed; one that ends in an error leaves map and deque alone |
| `RegistrySections.ReturnedIsYoungest` | api-rust/src/main.rs:209-306 | so after every run with any number of slots |
| `RegistrySections.SectionChanges` | api-rust/src/main.rs:312-405 | before a call ends, only a demotion and a drop change anything, and just their victim, whatever became of it meanwhile |
| `RegistrySections.HotScanDecides` | api-rust/src/main.rs:312-336 | the demotion loop ends exactly when fewer templates than the limit are hot or no other one is, and otherwise picks the oldest other hot one |
| `RegistrySections.WarmScanDecides` | api-rust/src/main.rs:361-378 | the trimming loop ends exactly when the warm tier is within its limit or the deque has no warm template, and otherwise picks the oldest one |
| `RegistrySections.CallPath` | api-rust/src/main.rs:207-271 | which section follows which: the lock is waited for while it is taken, and a cold start is made exactly if the re-check did not find the template |
| `RegistryConcurrency.HotNeverExceeds` | api-rust/src/main.rs:207-358 | with at most K calls in flight no interleaving has more than the hot limit plus K - 1 hot templates |
| `RegistrySchedules.HotBoundAttained` | api-rust/src/main.rs:312-320 | that bound is attained for every limit, 0 included, and every K of 1 or more |
| `RegistryConcurrency.SameNamesWhenSerial` | api-rust/src/main.rs:207-405 | one call at a time, abandoned ones included, the map and the deque hold the same names |
| `RegistrySerial.CallStep` | api-rust/src/main.rs:207-405 | each critical section of a single call keeps the map and the deque on the way to what the specification says of that call |
| `RegistrySerial.SerialRunsAreRuns` | api-rust/src/main.rs:207-405 | with one slot and no abandoned request, every state is accounted for by the finished calls, in the order of their arrival |
| `RegistrySerial.SerialRunsAreRunsBetweenCalls` | api-rust/src/main.rs:207-405 | whenever no call is in flight, the map and the deque are those of the sequential run of the same requests |
| `RegistryLocks.LocksAlwaysHeld` | api-rust/src/main.rs:222-224 | in every interleaving, abandoned calls included, a lock that is taken belongs to a call in flight that holds it |
| `RegistryLocks.SectionIsProgress` | api-rust/src/main.rs:207-405 | in any state, a critical section of a call that is not waiting for a lock ends the call or lowers a measure of what it has ahead |
| `RegistryLocks.SomeoneCanGoOn` | api-rust/src/main.rs:222-224 | whenever calls are in flight one of them is not blocked, and a blocked call waits for one that is not |
| `RegistryLocks.AllCanReturn` | api-rust/src/main.rs:207-405 | every reachable state can be run until all calls have returned and all locks are free, with no call abandoned |
| `RegistryParting.StrandedStays` | api-rust/src/main.rs:322-400 | a warm template that is in the map and not in the deque, and that no call in flight has to do with, stays so in every run in which nobody asks for it |
| `RegistryParting.LateDemotionSeparates` | api-rust/src/main.rs:338-351 | under all limits, with two slots or more, a late demotion strands a template in this way, and all calls return; with a warm limit of 0 the limit is then exceeded |
| `RegistryParting.SameNamesExactlyWhenSerial` | api-rust/src/main.rs:207-405 | for every pair of limits, the map and the deque hold the same names in every run if and only if there is at most one slot |
| `OutputTracks.PushCompose` | tools-rust/src/process.rs:213-224 | pushing in pieces is pushing at once, for every capacity |
| `OutputTracks.PushAccurate` | tools-rust/src/process.rs:213-224 | a push keeps the buffer the newest part of the stream; with a capacity it stays within it and the loss counter is accurate, with capacity 0 nothing is lost |
| `OutputTracks.PushKeepsWhatFits` | tools-rust/src/process.rs:213-224 | a push loses no more than it must: the buffer ends as full as the bytes allow |
| `OutputTracks.CloseIsReported` | tools-rust/src/process.rs:226-253 | closing loses nothing, lasts, and is reported by exactly the drain that takes the last byte |
| `OutputTracks.DrainAccurate` | tools-rust/src/process.rs:235-253 | a drain delivers the next buffered slice; with a capacity it reports truncation exactly when bytes before it were lost, with capacity 0 none were |
| `OutputTracks.DrainTakesWhatIsAllowed` | tools-rust/src/process.rs:235-253 | a drain returns the oldest bytes, as many as `max` allows or all, leaves the rest, and says end of file exactly when the buffer is closed and nothing is left |
| `OutputTracks.RunExplained` | tools-rust/src/process.rs:213-253 | for every capacity and every interleaving of pushes, closes and drains the replies are disjoint slices of the output in order, with a gap before a slice exactly where truncation is reported (and no gap at all with capacity 0) |
| `OutputTracks.EveryByteAccountedFor` | tools-rust/src/process.rs:213-253 | for every capacity, every byte was delivered, lost before a delivered slice, counted for the next report, or is buffered |
| `OutputTracks.BoundedIffPositive` | tools-rust/src/process.rs:213-224 | the buffer stays within its capacity in every run if and only if the capacity is not 0 |
| `OutputTracks.ToldExactlyIffPositive` | tools-rust/src/process.rs:213-253 | truncation is reported exactly where bytes are lost, in every run, if and only if the capacity is not 0 |
| `StreamBuffer.StreamBuffer.Push` | tools-rust/src/process.rs:213-224 | the byte-by-byte loop appends to the stream and keeps the newest bytes |
| `StreamBuffer.StreamBuffer.Close` | tools-rust/src/process.rs:226-231 | closing changes nothing but the flag |
| `StreamBuffer.StreamBuffer.Drain` | tools-rust/src/process.rs:235-253 | the loop takes from the front, reports and resets the counter, and reports end of file when closed and empty |
| `ReadAction.ReadLosesNothing` | tools-rust/src/process.rs:509-541 | on each stream the reply is exactly the slice its one or two drains took; with a capacity it reports truncation exactly when bytes before one of the slices were lost, with capacity 0 none were |
| `ReadAction.ReplyIsOfTheLastDrains` | tools-rust/src/process.rs:509-553 | for each stream separately, bytes and end of file are those of its last drain; the drains are repeated exactly when the caller waits and the first pair finds nothing; running and exit code are those of the process at the end |
| `ReadAction.AfterCalls` | tools-rust/src/process.rs:489-554 | until a reply reports truncation, and for ever with capacity 0, the concatenated replies of any sequence of reads are a prefix of the child's output on both streams; and a closed stream belongs to a process that has ended |
| `ReadAction.EndOfFileMeansEnded` | tools-rust/src/process.rs:443-543 | after any calls, a reply that reports the end of either stream says that the process is not running |
| `ReadAction.ProcessHandle.ActionRead` | tools-rust/src/process.rs:489-554 | the action drains both buffers once or twice and then looks at the process, with output, exit and closes allowed at every await point |
| `ProcessSession.ExitIsRecorded` | tools-rust/src/process.rs:429-446 | an exit is recorded at once, for its process alone, with its exit code, else its signal, else -1 |
| `ProcessSession.RepliesReportTheEnd` | tools-rust/src/process.rs:429-622 | in every run, every reply to a request that began after a process ended says what waiting for it yielded: its exit code, else in a full reply its signal, else -1; so does every other reply that does not say running |
| `ProcessSession.AnswersItsRequest` | tools-rust/src/process.rs:569-622 | a request is answered by one reply of its kind about its process, or abandoned |
| `ProcessSession.EachLookAnswers` | tools-rust/src/process.rs:604-622 | in every run, each step of a request brings its reply nearer, and the last one issues it |
| `ProcessSession.AlwaysHonest` | tools-rust/src/process.rs:489-869 | in every run, every reply issued tells the truth about its process, and a reply "running" contradicts nothing issued before its request began |
| `ProcessSession.TerminalIsAbsorbing` | tools-rust/src/process.rs:429-451 | once a reply says not running, every reply to a later request says so with the same code and signal |
| `ProcessSession.SlowWriteMayContradict` | tools-rust/src/process.rs:667-732 | a request that began earlier may still be answered "running" |
| `ProcessSession.FullReplySaysOneThing` | tools-rust/src/process.rs:604-622 | every wait, signal or stop reply has exactly one of running, exit code and signal, although the state is read twice |
| `ProcessSession.TrackedWithinCap` | tools-rust/src/process.rs:335-453 | with at most K concurrent starts, tracked processes never exceed the cap plus K - 1, across spawn failures and deletion |
| `ProcessSession.TrackedStays` | tools-rust/src/process.rs:453-902 | nothing is untracked before the deletion of the session has run to its end |
| `ProcessSession.GuardCountsTheEnded` | tools-rust/src/process.rs:335-340 | no start is let through while the cap is reached by active processes; one is refused below that exactly when tracked processes that have ended make up the difference |
| `ProcessSession.SerialGuard` | tools-rust/src/process.rs:335-340 | with one start at a time, refusing at the cap and refusing at that many active processes differ exactly when the cap is reached and a tracked process has ended |
| `ProcessSession.EndedProcessBlocksStart` | tools-rust/src/process.rs:335-340 | with a cap of 1, a session whose only process has ended is refused its next start |
| `ProcessSession.SpawnedWithinCap` | tools-rust/src/process.rs:335-453 | until the deletion ends, the cap (plus K - 1) bounds every process the session ever spawned |
| `ProcessSession.DeletionIsFinal` | tools-rust/src/process.rs:875-903 | a deletion that raced with no start leaves nothing tracked and every process ended or killed |
| `ProcessSession.KillsOnlyTheWarned` | tools-rust/src/process.rs:875-889 | a process is killed only after it was warned, and never when the second look shows that it has ended |
| `ProcessSession.WarnsOnlyTheLiving` | tools-rust/src/process.rs:875-879 | it is warned only when the first look does not show that it has ended |
| `ProcessSession.DeletionGoesOn` | tools-rust/src/process.rs:893-903 | each step of a deletion is through with one process or warns one, and after the last it forgets them all |
| `ProcessSession.RacingStartOutlivesDeletion` | tools-rust/src/process.rs:453-902 | a run in which a start races with the deletion: it completes, and afterwards a process is tracked and running that nobody killed |
| `Scanner.MatchesSpaced` | tools-rust/src/main.rs:717 | the scanner's matches are real, in order, and do not overlap |
| `Scanner.MatchesComplete` | tools-rust/src/main.rs:717 | every other match starts within one of them |
| `Scanner.OccursOnce` | tools-rust/src/main.rs:717-730 | a text is counted once exactly when it occurs and all its occurrences start within one |
| `Edit.NeighboursSuffice` | tools-rust/src/main.rs:734-742 | for ranges sorted by start, checking neighbours decides whether all are disjoint |
| `Edit.OnePassRewrites` | tools-rust/src/main.rs:744-751 | the pass with a cursor rewrites every position of the source as its range, or the lack of one, demands |
| `Edit.OrderDoesNotMatter` | tools-rust/src/main.rs:709-752 | any permutation of the edits succeeds exactly when the others do, with the same text |
| `Edit.SucceedsExactlyWhen` | tools-rust/src/main.rs:702-742 | the list form succeeds if and only if there is an edit, every old text is non-empty and occurs once, and the places are disjoint |
| `Edit.OnePassIsRightToLeft` | tools-rust/src/main.rs:744-751 | the single pass gives what single replacements give when made right to left |
| `Edit.ReplacedRightToLeft` | tools-rust/src/main.rs:734-752 | so does the whole list form |
| `Edit.LengthChange` | tools-rust/src/main.rs:702-752 | the text grows by the sum of new length minus old length |
| `EditRequest.FormsAgree` | tools-rust/src/main.rs:657-752 | for one pair of strings both request forms give the same text and count, or both fail for the same reason |
| `EditRequest.ListReply` | tools-rust/src/main.rs:702-752 | the list form reports as many replacements as there are edits, with the text of simultaneous replacement |
| `EditRequest.FormErrors` | tools-rust/src/main.rs:657-707 | exactly which requests are refused for their form, and how |
| `EditRequest.ListErrors` | tools-rust/src/main.rs:709-742 | the error is that of the first edit that has no place, because it is empty, does not occur or occurs that often; an overlap is reported only if all have one |
| `EditRequest.LegacyErrors` | tools-rust/src/main.rs:671-694 | the errors of the older form mean the same |
| `EditRequest.OneMatchEitherWay` | tools-rust/src/main.rs:695-699 | with one occurrence, replacing one and replacing all are the same |
| `EditRequest.ReplaceIsSplitJoin` | tools-rust/src/main.rs:695-696 | replacing every match is splitting by the old text and joining by the new one |
| `EditRequest.JoinSplit` | tools-rust/src/main.rs:695-696 | joining by the old text again gives back the source |
| `EditRequest.BulkReplace` | tools-rust/src/main.rs:677-700 | bulk replacement succeeds exactly when the text occurs, reports the number of joints, and changes the length by that many times the difference |
| `EditRequest.SortedRanges` | tools-rust/src/main.rs:709-734 | the loop builds the ranges of all edits, or reports the first error |
| `EditRequest.NeighboursApart` | tools-rust/src/main.rs:735-742 | the loop over neighbours rejects exactly the overlapping ranges |
| `EditRequest.Splice` | tools-rust/src/main.rs:744-751 | the cursor loop makes the single pass |
| `EditRequest.ApplyEditReq` | tools-rust/src/main.rs:652-753 | the tool's result, error cases in their order included, is that of simultaneous replacement |
| `Scanner.TrimEndExactly` | tools-rust/src/main.rs:1068-1070 | trimming a character removes exactly its run at the end |
| `Grep.LinesExactly` | tools-rust/src/main.rs:1033 | the lines of a file are its text, cut after every newline and nowhere else |
| `Grep.HitsExactly` | tools-rust/src/main.rs:1037-1040 | the hits are exactly the matching lines |
| `Grep.AllHitsExactly` | tools-rust/src/main.rs:1007-1050 | the hits of a walk are exactly the matching lines of the files that the glob admits, that can be read, and that hold no NUL byte |
| `Grep.AllHitsOrdered` | tools-rust/src/main.rs:1007-1050 | they come in strict walk order, by file and by line |
| `Grep.NearLinesExactly` | tools-rust/src/main.rs:1054-1063 | the lines shown of a file are exactly those within the context of a chosen hit, clipped to the file |
| `Grep.NearLinesIncrease` | tools-rust/src/main.rs:1054-1064 | they come in strictly increasing order |
| `Grep.ShownIsBlock` | tools-rust/src/main.rs:1064-1073 | what is emitted for a file is those lines, numbered from 1 and without their line ends |
| `Grep.Select` | tools-rust/src/main.rs:1054-1063 | merging the windows hit by hit into an ordered set gives exactly those lines |
| `Grep.MatchedLines` | tools-rust/src/main.rs:1034-1050 | the line loop takes the first hits the limit allows and stops at the first one beyond it |
| `Grep.StopsAtOverflow` | tools-rust/src/main.rs:1043-1091 | stopping at the file that overflows leaves out nothing that should be shown |
| `Grep.RunSearch` | tools-rust/src/main.rs:970-1100 | in each mode the report shows the first `limit` hits, or files, in walk order among the first `max_files` files, says truncated exactly when a limit left something out, and counts the files walked |
| `Grep.ReportExactly` | tools-rust/src/main.rs:1054-1073 | a report in content mode shows exactly the lines within the query's context of a chosen hit in their file, each once and in walk order, with path, number from 1, and text without its line end |
| `Grep.TalliesExactly` | tools-rust/src/main.rs:1075-1087 | in the other modes it names exactly the first `limit` files that have a hit, in walk order, with the number of their hits |
| `Grep.FilesExactly` | tools-rust/src/main.rs:1007-1015 | the files that count are the regular ones, in walk order |
| `BuildLog.CutIsExact` | e2b-shim/src/main.rs:2359-2362 | cutting at newlines loses nothing and no line holds a newline |
| `BuildLog.CutIsUnique` | e2b-shim/src/main.rs:2359-2362 | it is the only such cut |
| `BuildLog.CutInTwo` | e2b-shim/src/main.rs:2358-2362 | cutting may stop after any chunk and go on with the remainder |
| `BuildLog.ReadyExactlyWhen` | e2b-shim/src/main.rs:2363-2392 | the build ends ready if and only if the status was good and the last marker among the complete lines, if any, says exit 0; otherwise in error |
| `BuildLog.ReadyExactlyOnExitZero` | e2b-shim/src/main.rs:2363-2364 | for every exit code, a good response whose one marker line names it makes a ready build exactly when it is 0 |
| `BuildLog.LogIsTheResponse` | e2b-shim/src/main.rs:2343-2379 | the log holds every line of the response once and in order, an unfinished last one included, after a note on a bad status |
| `BuildLog.BrokenOffMarkerIsReady` | e2b-shim/src/main.rs:2358-2392 | a response that breaks off within a marker line that does not say exit 0 makes a ready build |
| `BuildLog.TemplateBuild.TakeChunk` | e2b-shim/src/main.rs:2358-2375 | one chunk takes the lines it completes and keeps the rest |
| `BuildLog.TemplateBuild.Run` | e2b-shim/src/main.rs:2337-2393 | whatever the chunks, log and status are those of the whole response, and a response that never came is an error |
| `Multipart.BoundaryFound` | e2b-shim/src/main.rs:1869 | the boundary is found with or without quotes |
| `Multipart.BoundaryExactlyWhen` | e2b-shim/src/main.rs:1869 | what follows the boundary, up to quotes at the end, becomes part of it, so that it is found if and only if it comes last |
| `Multipart.BoundaryEndsAtNextKey` | e2b-shim/src/main.rs:1869 | a key mentioned again ends the boundary |
| `Multipart.NoBoundary` | e2b-shim/src/main.rs:1869 | without a key nothing is extracted |
| `Multipart.PayloadExactly` | e2b-shim/src/main.rs:1883-1896 | of any part: a line end that starts it is skipped, the payload starts after the first blank line, and one line end that closes it is cut off |
| `Multipart.PreambleIgnored` | e2b-shim/src/main.rs:1872-1882 | whole lines without a delimiter, before the first one, change nothing |
| `Multipart.NoneBeforeSecond` | e2b-shim/src/main.rs:1872-1877 | a delimiter without CR or LF cannot be found across the line ends of the body |
| `Multipart.ExtractedIfInHeaders` | e2b-shim/src/main.rs:1868-1897 | a delimiter inside the headers makes the extraction fail |
| `Multipart.ExtractedIfInPayload` | e2b-shim/src/main.rs:1868-1897 | a delimiter inside the file cuts it there |
| `Multipart.RoundTripExactlyWhen` | e2b-shim/src/main.rs:1868-1897 | the file comes back if and only if the delimiter occurs in neither headers nor file; the file may itself end in a line end, and a preamble may precede the first delimiter |
| `Multipart.RoundTripAsText` | e2b-shim/src/main.rs:1868-1897 | the same for a content type and a body written out as text |
| `Multipart.FindSubseq` | e2b-shim/src/main.rs:1903-1913 | the search returns the first occurrence, and nothing for an empty needle |
| `Multipart.Delimiters` | e2b-shim/src/main.rs:1872-1877 | the loop finds all non-overlapping delimiters |
| `Multipart.ExtractFirstFile` | e2b-shim/src/main.rs:1868-1897 | the extraction is the one the round trip is about |
| `Base64.TableIsStandard` | e2b-shim/src/main.rs:1197 | the encoder's table is the one of RFC 4648 |
| `Base64.DecodeEncode` | e2b-shim/src/main.rs:1195-1224 | a decoder after section 4 of RFC 4648 gives back every byte string |
| `Base64.EncodedLength` | e2b-shim/src/main.rs:1195-1224 | the text has four characters for every three bytes begun |
| `Base64.GeneralB64` | e2b-shim/src/main.rs:1195-1224 | the loop with its remainder produces that encoding |
| `PercentCoding.DecodeEncode` | e2b-shim/src/main.rs:2156-2185 | decoding an encoding gives back the bytes if they are UTF-8, and fails otherwise |
| `PercentCoding.EncodesEachByte` | e2b-shim/src/main.rs:2156-2166 | letters, digits and `-._~` stand for themselves, any other byte becomes a percent sign and its two upper-case digits |
| `PercentCoding.DecodesEitherCase` | e2b-shim/src/main.rs:2169-2180 | an escape decodes to the number its digits make, in either case |
| `PercentCoding.DecodesToItself` | e2b-shim/src/main.rs:2180-2182 | any other byte, and a percent sign with fewer than two characters after it, decodes to itself |
| `PercentCoding.Utf8Exactly` | e2b-shim/src/main.rs:2184 | the bytes accepted as UTF-8 are exactly the encodings of sequences of Unicode scalar values |
| `PercentCoding.EncodeIsCanonical` | e2b-shim/src/main.rs:2156-2166 | an encoding consists of unreserved characters and upper-case escapes of other bytes |
| `PercentCoding.CanonicalIsEncoded` | e2b-shim/src/main.rs:2156-2185 | and every such text is the encoding of what it decodes to |
| `PercentCoding.AcceptedExactlyWhen` | e2b-shim/src/main.rs:2169-2185 | a text decodes if and only if every escape the scan from the left comes to is followed by two hexadecimal digits, or a plus sign and one, and the result is UTF-8 |
| `PercentCoding.PlusDecodes` | e2b-shim/src/main.rs:2176-2177 | a plus sign before a digit adds nothing to its value |
| `PercentCoding.PlusIsAccepted` | e2b-shim/src/main.rs:2176-2177 | "%+5" decodes to one byte |
| `PercentCoding.UrlEncode` | e2b-shim/src/main.rs:2156-2166 | the loop produces that encoding |
| `PercentCoding.UrlDecode` | e2b-shim/src/main.rs:2169-2185 | the loop computes that decoding, stray percent signs kept and malformed escapes refused |
| `ConnectFrames.BigEndianBack` | e2b-shim/src/main.rs:1164 | a number that fits comes back from its bytes |
| `ConnectFrames.EnvelopeByPlace` | e2b-shim/src/main.rs:1161-1167 | an envelope is its flags, its length modulo 2^32 by the place values of four bytes, and the data |
| `ConnectFrames.ExtractedByPlace` | e2b-shim/src/main.rs:1270-1288 | of any body: one that is no stream comes back whole, and of a stream as many bytes as the four length bytes say, or none |
| `ConnectFrames.RoundTripExactlyWhen` | e2b-shim/src/main.rs:1161-1288 | the data comes out of its envelope, whatever follows, if and only if its length fits in 32 bits |
| `ConnectFrames.AcceptedExactlyWhen` | e2b-shim/src/main.rs:1274-1288 | a stream body yields given data if and only if it starts with an envelope of it |
| `ConnectFrames.CutShort` | e2b-shim/src/main.rs:1274-1288 | a frame cut short anywhere is refused |

## Left out

- Docker, HTTP, storage, protobuf, archives and the file system: only the outcome of a call appears.
- Pausing, unpausing and removing a container are taken to succeed; the source ignores their failures
  (`api-rust/src/main.rs:245-251`, `343`, `387-398`).
- Time stamps, the round robin over daemon addresses, and the idle reaper.
- Timeouts and wake-ups: a wait may end at any moment, and nothing is said about how soon it does.
- Under concurrency, the warm limit, which does not hold in every interleaving (`LateDemotionSeparates`), and container
  ownership: `RegistryConcurrency` has no containers.
- `RegistryConcurrency.HotNeverExceeds`: counts hot templates, not containers, as pausing and removing happen outside
  the lock.
- The process actions are steps of a state machine and not methods on a class, as their interleaving
  is the point; the standard input of a child and signal delivery are left out, and a kill is recorded, not carried out.
- `ProcessSession.DeletionIsFinal`: says nothing of a deletion that races with a start, in which the new process can
  outlive the session (`RacingStartOutlivesDeletion`).
- The `list` action and other snapshots that only try the lock; their answer may be stale. The reaper's own use of
  such a snapshot is modelled.
- That no byte follows an end of file: the wait task may close a buffer while output is still on its way
  (`tools-rust/src/process.rs:447-449`).
- `ReadAction.AfterCalls`: has one reader; two readers share one cursor and each sees a part.
- `ReadAction.ReadLosesNothing`: is about reads that are answered; one abandoned between its two drains loses what the
  first drain took (`tools-rust/src/process.rs:509-510`).
- `PagedRegistry.PagedRegistry.Acquire`: is about calls that are answered; one abandoned while its replicas start can
  leave containers that nobody owns (`api-rust/src/main.rs:275-297`). `RegistryConcurrency` has abandoned calls, but
  no containers.
- Lossy decoding of bytes that are not UTF-8, in `read` replies, in searched files and in build logs: lines are bytes.
- `Grep.RunSearch`: takes the walk, the glob and the regular expression as given, and the glob as a flag on each
  entry; a matcher error counts as no match, as in the source.
- `EditRequest.ApplyEditReq`: takes the sort and the substring search of the standard library as functions, defined in
  `Edit` and `Scanner`; error texts are reduced to their kinds.
- `Multipart.RoundTripExactlyWhen`: takes a preamble to be whole lines without the delimiter, as section 5.1.1 of
  RFC 2046 has it.
- `BuildLog.TemplateBuild.Run`: has no second writer of the status, and a response that breaks off is one that ends.
- `slice_lines`, `resolve_in`, name and memory parsing, warm-up, prefix deletion, command rewriting, and session
  forwarding: short, without state of their own.
