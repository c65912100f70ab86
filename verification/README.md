# Verification of FreeLlama's algorithmic core

A Dafny 4.11 model of the parts of the repository whose correctness is an argument rather than a lookup,
with proofs. `dafny verify dfyconfig.toml` checks all of it.

- `repetition.dfy`: the detector of degenerate repetition at the end of an output.
- `admission.dfy`, `admission_pool.dfy`: the weighted admission pool, as functions on the guarded state and as
  the mutable object. `admission_protocol.dfy` adds everything outside the mutex (waiters' wake-ups, permits,
  owed notifications) as a state machine; `admission_invariants.dfy`, `admission_fairness.dfy`,
  `admission_share.dfy` and `admission_drain.dfy` prove safety, reservation, weighted share and progress over
  whole runs; `admission_charge.dfy` and `admission_counts.dfy` say of the numbers alone what is charged, who is
  chosen, and what places, limits and counters come to.
- `path_text.dfy`, `workspace_path.dfy`: path cleaning, confinement, and the memoised symlink walk over any
  finite link map; `path_rewriting.dfy` compares it with a plain walker. `glob.dfy`, `glob_compile.dfy`: the glob
  matcher and compiler; `glob_meaning.dfy` says what patterns mean, of characters alone.
- `text16.dfy`, `utf8.dfy`, `pages.dfy`, `paginate.dfy`, `observations.dfy`, `refused_puts.dfy`: code points over
  UTF-16 units (RFC 2781, section 2), UTF-8 (RFC 3629, section 3), the two paginators and the page store over byte files.
- `canonical_json.dfy`, `json_meaning.dfy`, `json_reading.dfy`, `json_printing.dfy`: the canonical JSON printer, a
  reader of the standard (RFC 8259, sections 2 to 7) that reads it back, and its injectivity. `actions.dfy`,
  `action_reply.dfy`: recovering an action from a reply.
- `clip.dfy`, `fit.dfy`, `fit_rounds.dfy`, `fit_conversation.dfy`: clipping, the stages of fitting a conversation
  into the context window, the rounds they need, and the whole. `fit_guarantees.dfy` proves what it promises and
  exactly when, `fit_cases.dfy` gives inputs where it falls short. `budgeter.dfy`: the calibrated estimate.
- `shlex.dfy`, `shlex_words.dfy`, `shlex_shell.dfy`: the shell lexer, what its two callers rely on, and the whole
  shell grammar it reads.
- `jobs.dfy`, `job_protocol.dfy`, `job_history.dfy`: deferred jobs, one lock region at a time, in every interleaving,
  and what a record tells of its past.
- `wrappers.dfy`, `sequences.dfy`: shared datatypes and sequence facts.

Code that changes state is modelled by classes and loops that are proved equal to functions on values; the
properties are lemmas about those functions. Results worth knowing:

- The comment on `should_stop_streaming` speaks of a tail that spans 96 characters; the code asks for 96
  characters beyond the first copy. The model follows the code, and `ThreeCopiesNotStopped` gives a tail of three
  copies that spans 96 characters and is not stopped (packages/rust-core/src/platform/repetition.rs:123-129).
- `get` does not always give back what `put` accepted: a `put` of the same step that is refused later has by then
  overwritten the files with the pages before the lone surrogate, while the old descriptor stays. The earlier text
  comes back exactly if it has the code points of those pages, and a page of it exactly if the same page was
  written there (`GetAfterRefusal`, `ViewAfterRefusal`). `RefusedPutLosesText` and `RefusedPutKeepsText` give a
  case of each (packages/mcp/src/research/observations.ts:122-134).
- A fitted conversation can be longer in one place: contents only shrink, but a thinking text is replaced without
  comparing lengths. `NeverGrowsExactly` says when this cannot happen, and `ThinkingCanGrow` gives a case
  (packages/mcp/src/research/fit.ts:224-231).
- The fitting error does not always mean that nothing is left to shrink, because a loop gives up after 200 rounds.
  It does for every counter and budget exactly if the texts need no more (`NothingLeftExactly`); how many they need
  follows from their widths. `RefusedOneRoundShort` gives a conversation that one more round would fit
  (packages/mcp/src/research/fit.ts:217-249).

## Model

| member | source | states |
|---|---|---|
| Repetition.DetectTailLoop | packages/rust-core/src/platform/repetition.rs:26-49 | For texts of any length the windowed search with follow-back returns exactly the answer of an exhaustive search of the whole text over all periods up to 4,096: smallest first-copy end, smallest period on ties, or none |
| Repetition.DetectInWindow | packages/rust-core/src/platform/repetition.rs:51-84 | The period loop with its early exit returns the exhaustive answer for its window |
| Repetition.CountRepeated | packages/rust-core/src/platform/repetition.rs:63-66 | The backward count is the length of the longest tail that repeats with the period |
| Repetition.EarlyBreak | packages/rust-core/src/platform/repetition.rs:55-62 | Once the period reaches the best prefix, no remaining period can be a better answer |
| Repetition.WindowLosesNothing | packages/rust-core/src/platform/repetition.rs:32-48 | The unit chosen in the last 65,536 characters, followed back when its run fills the window, is the exhaustive answer of the whole text, and no answer in the window is no answer at all |
| Repetition.FineWilf | packages/rust-core/src/platform/repetition.rs:28-31 | Two periods p and q of a word of length at least p+q give period gcd(p, q); this rules out a competing unit |
| Repetition.LeastFillingWins | packages/rust-core/src/platform/repetition.rs:37-44 | In a window of at least two maximal periods, no other period up to 4,096 reaches as far back as the least one that fills the window |
| Repetition.FillingWinnerIsGlobal | packages/rust-core/src/platform/repetition.rs:37-44 | The least period that fills the window is the exhaustive choice for the whole text |
| Repetition.UnfilledWindowIsGlobal | packages/rust-core/src/platform/repetition.rs:45-47 | When no period fills the window, shifting the window's answer by the offset gives the exhaustive answer |
| Repetition.DetectsUnique | packages/rust-core/src/platform/repetition.rs:71-81 | The exhaustive answer is unique |
| Repetition.LoopExactly | packages/rust-core/src/platform/repetition.rs:27-49 | A loop is found exactly if some unit of at most 4,096 characters is repeated at the end: one further copy and 48 characters in all, or 128 repeated characters |
| Repetition.AnswerTiles | packages/rust-core/src/platform/repetition.rs:16-24 | Prefix plus repeated tail is the whole text, every tail character repeats the one a period before, and the run cannot be extended to the left |
| Repetition.UnitIsPrimitive | packages/rust-core/src/platform/repetition.rs:19-20 | The repeated unit is never a shorter word written several times |
| Repetition.ShouldStopStreaming | packages/rust-core/src/platform/repetition.rs:123-129 | A stop happens exactly when the exhaustive answer has at least two further copies and 96 repeated characters, and implies that the text ends in three whole copies of one unit |
| Repetition.ThreeCopiesNotStopped | packages/rust-core/src/platform/repetition.rs:123-129 | Three whole copies of a unit of 32 characters span 96 characters and are not stopped |
| AdmissionService.AdmissionPool.constructor | packages/rust-core/src/platform/admission.rs:274-297 | A new pool is the initial state: limit and ceiling at least one, full credits, nothing queued or granted |
| AdmissionService.AdmissionPool.RecordBypasses | packages/rust-core/src/platform/admission.rs:372-380 | Every waiter that does not fit the units free before the charge gets one more bypass, saturating at 255, and no other waiter changes |
| AdmissionService.AdmissionPool.SelectedWaiter | packages/rust-core/src/platform/admission.rs:333-370 | In-place selection computes the specified choice: reservation first, else 3:2:1 credits in two passes, refilling even when nothing is found |
| AdmissionService.AdmissionPool.Enqueue | packages/rust-core/src/platform/admission.rs:388-409 | Registration issues a ticket at the back of the queue, or counts a timeout or a full queue |
| AdmissionService.AdmissionPool.RegisterResourceWaiter | packages/rust-core/src/platform/admission.rs:253-267 | A resource registration takes a ticket and queue capacity but no units |
| AdmissionService.AdmissionPool.MoveToSlotQueue | packages/rust-core/src/platform/admission.rs:119-133 | Handing off keeps the ticket, leaves the resource queue and joins the back of the slot queue |
| AdmissionService.AdmissionPool.DropResourceGuard | packages/rust-core/src/platform/admission.rs:147-159 | Dropping a resource guard returns its place and counts a cancellation only when it is one |
| AdmissionService.AdmissionPool.DropWaitGuard | packages/rust-core/src/platform/admission.rs:161-175 | Dropping a wait guard removes its entry, gives up its grant and counts a cancellation only for an entry that was there |
| AdmissionService.AdmissionPool.DropAdmissionPermit | packages/rust-core/src/platform/admission.rs:84-93 | Dropping a permit returns its units and moves one task from in flight to released |
| AdmissionService.AdmissionPool.OfferGrant | packages/rust-core/src/platform/admission.rs:438-444 | A selection is attempted only while nothing is granted; the chosen waiter keeps its place and owns the grant |
| AdmissionService.AdmissionPool.PollOnce | packages/rust-core/src/platform/admission.rs:431-470 | One pass of the admission loop expires, claims the granted charge if it fits the current limit, or stays pending |
| AdmissionService.AdmissionPool.ChangeLimit | packages/rust-core/src/platform/admission.rs:224-236 | The limit is clamped to 1..ceiling; the policy epoch moves exactly when it changes |
| AdmissionService.AdmissionPool.ChangeCeiling | packages/rust-core/src/platform/admission.rs:207-222 | The limit follows the ceiling down, and up only from the old ceiling |
| Admission.SelectFindsExactly | packages/rust-core/src/platform/admission.rs:337-370 | A selection is found exactly when the first reserved waiter fits, or none is reserved and some waiter fits, whatever the credits |
| Admission.IdlePoolSelects | packages/rust-core/src/platform/admission.rs:55-59 | With no units charged a non-empty queue always yields a selection, whatever costs, limit, credits and bypass counts |
| Admission.SelectFrame | packages/rust-core/src/platform/admission.rs:337-380 | A selection changes only credits and bypass counts, keeps queue order, and chooses a waiter that fits |
| AdmissionProtocol.ClaimWithinLimit | packages/rust-core/src/platform/admission.rs:456-466 | A claim charges at least one unit and never pushes the charge past the limit in force when it is made, even after the limit shrank |
| AdmissionCharge.ClaimCharges | packages/rust-core/src/platform/admission.rs:55-59 | A claim charges one unit for a cost of nothing, the cost itself up to the limit, and the limit beyond it, and takes exactly its own waiter out of the queue |
| AdmissionCharge.ChargedAsAsked | packages/rust-core/src/platform/admission.rs:382-480 | Along every run, what a task asked for on joining is what waits under its ticket and what is charged at its claim, cut to the limit in force then |
| AdmissionCharge.ChoiceExactly | packages/rust-core/src/platform/admission.rs:351-370 | Without a reservation somebody is chosen exactly if somebody has room: the oldest of the best class that has a credit and anyone with room, from refilled credits if nobody with room has one, and one credit is spent |
| AdmissionCharge.ReservedChoiceExactly | packages/rust-core/src/platform/admission.rs:338-350 | With a reservation the oldest waiter passed over six times is chosen if it has room, and nobody otherwise |
| AdmissionCharge.PassedOverExactly | packages/rust-core/src/platform/admission.rs:372-380 | A choice counts as passed over exactly the waiters without room, up to 255 |
| AdmissionCharge.AdmitTogether | packages/rust-core/src/platform/admission.rs:382-480 | Requests whose units together are within the limit are all admitted with none released, whatever their costs and priorities, each at its own charge, and the pool ends with the sum |
| AdmissionCounts.PlaceExactly | packages/rust-core/src/platform/admission.rs:253-262 | A place is given exactly if fewer are taken than there are; otherwise only a rejection is counted |
| AdmissionCounts.PlacesBound | packages/rust-core/src/platform/admission.rs:46-49 | While the number of places stays, no more are taken along any run |
| AdmissionCounts.NeverOverLimit | packages/rust-core/src/platform/admission.rs:445-466 | Until the limit is changed, no run charges more than it allows |
| AdmissionCounts.TimeoutsExactly | packages/rust-core/src/platform/admission.rs:391-394 | A timeout is counted exactly when a deadline is found to have passed, on arrival, at a wake-up or asleep |
| AdmissionCounts.CeilingExactly | packages/rust-core/src/platform/admission.rs:207-222 | The limit follows a new ceiling down, and up only from the old ceiling; the policy epoch moves exactly when either changes |
| AdmissionCounts.LimitExactly | packages/rust-core/src/platform/admission.rs:224-236 | A new limit is brought between one and the ceiling |
| AdmissionCounts.NewPoolExactly | packages/rust-core/src/platform/admission.rs:274-297 | A new pool is idle, with at least one unit and one place, and full credits |
| AdmissionInvariants.AccountedStep | packages/rust-core/src/platform/admission.rs:119-175 | Every step keeps every issued ticket in exactly one of slot queue, resource queue and settled fates |
| AdmissionInvariants.ConservedStep | packages/rust-core/src/platform/admission.rs:84-93 | Every step keeps charged units equal to the units of the permits held, and admitted equal to released plus in flight |
| AdmissionInvariants.CountedStep | packages/rust-core/src/platform/admission.rs:161-175 | Every step keeps the admission and cancellation counters equal to the tickets settled that way |
| AdmissionInvariants.NoLostWakeUpStep | packages/rust-core/src/platform/admission.rs:419-492 | Every step keeps it true that, with no notification owed and no guard waiting to drop, a claimable grant has its owner awake and a possible selection has some waiter awake |
| AdmissionInvariants.BypassesStep | packages/rust-core/src/platform/admission.rs:372-380 | Every step keeps each bypass beyond the sixth paid for by a waiter that stood ahead and has left or holds the grant |
| AdmissionInvariants.InvStep | packages/rust-core/src/platform/admission.rs:84-267 | All of these invariants survive every interleaving of arrival, poll, timeout, cancellation, release, notification, handoff and resize |
| AdmissionInvariants.ReachableIsSafe | packages/rust-core/src/platform/admission.rs:84-267 | In every reachable state the limit lies in 1..ceiling, units and counters are conserved, a granted ticket is still queued, and each ticket issued so far is in exactly one place |
| AdmissionInvariants.BypassBound | packages/rust-core/src/platform/admission.rs:333-380 | A queued waiter has at most six bypasses more than the waiters it found ahead of it when it joined |
| AdmissionInvariants.FateIsFinal | packages/rust-core/src/platform/admission.rs:161-175 | A settled ticket keeps its fate and is never queued again, along every run |
| AdmissionInvariants.ClaimedGuardIsHarmless | packages/rust-core/src/platform/admission.rs:471-480 | The registration guard that an admitted task drops on return changes nothing in the pool |
| AdmissionFairness.ReservationHonoured | packages/rust-core/src/platform/admission.rs:333-350 | Along every run in which the first reserved waiter stays queued and ungranted, nobody else is granted |
| AdmissionShare.PotentialBound | packages/rust-core/src/platform/admission.rs:183-194 | The choices a waiter may still have to wait for never exceed 6*(k+2), k being the same-class waiters ahead of it |
| AdmissionShare.PassedOverCosts | packages/rust-core/src/platform/admission.rs:351-369 | Each choice of somebody else, refill included, uses up at least one of those |
| AdmissionShare.ShareAlongRun | packages/rust-core/src/platform/admission.rs:351-369 | Along a run in which a waiter fits at every attempt and no reservation is pending, fewer others are chosen before it than its remaining potential |
| AdmissionShare.WeightedShare | packages/rust-core/src/platform/admission.rs:183-194 | Within 6*(k+2) choices of such a run the waiter is granted or has left |
| AdmissionDrain.InternalRunsEnd | packages/rust-core/src/platform/admission.rs:419-492 | Without new work every run is finite, its length bounded by an explicit measure of the queue, permits and owed notifications |
| AdmissionDrain.RestIsEmpty | packages/rust-core/src/platform/admission.rs:457-466 | When no step is left, nobody waits, no permit is held and nothing is charged |
| AdmissionDrain.PatientRunsAdmitAll | packages/rust-core/src/platform/admission.rs:457-466 | A run without timeouts and cancellations that comes to rest has admitted every waiter that had not already timed out |
| AdmissionDrain.Drains | packages/rust-core/src/platform/admission.rs:419-492 | From every reachable state such a run to rest exists |
| PathText.CleanKeepsNames | packages/mcp/src/research/workspace-path.ts:16-21 | Cleaning keeps the names of a path and whether it is absolute, and is idempotent |
| PathText.JoinPathNames | packages/mcp/src/research/workspace-path.ts:23-26 | Joining appends the child's names, or replaces the base when the child is absolute |
| PathText.EscapesRootExactly | packages/mcp/src/research/workspace-path.ts:28-33 | On absolute paths the string test says outside exactly when the root's names are not a prefix of the path's |
| WorkspacePath.OneOutcome | packages/mcp/src/research/workspace-path.ts:88-118 | Uncached resolution of every text has exactly one outcome: one path, a NUL, or divergence |
| WorkspacePath.Resolver.Enter | packages/mcp/src/research/workspace-path.ts:98-113 | One component is answered from the memo, followed, or kept, and gives what uncached resolution gives; a memo entry still open is reported exactly as divergence |
| WorkspacePath.Resolver.Walk | packages/mcp/src/research/workspace-path.ts:90-115 | The re-entrant memoised walk terminates on every finite link map and computes the uncached outcome while keeping the memo truthful |
| WorkspacePath.ResolvePath | packages/mcp/src/research/workspace-path.ts:87-118 | The result is the resolved path exactly when uncached resolution has one, a symlink loop exactly when it diverges, and the NUL error exactly when it meets one |
| WorkspacePath.OpenLinkLoops | packages/mcp/src/research/workspace-path.ts:99-101 | A link met again while it is being followed cannot be resolved with any number of steps |
| WorkspacePath.EvalIsPhysical | packages/mcp/src/research/workspace-path.ts:87-118 | From a physical start, a resolved path is physical: plain names, no NUL, no prefix that is a link |
| WorkspacePath.ResolvedIsFixed | packages/mcp/src/research/workspace-path.ts:87-118 | A resolved path has no link prefix, and resolving it again from any directory changes nothing |
| WorkspacePath.ConfinementExactly | packages/mcp/src/research/workspace-path.ts:28-33 | On resolved paths the confinement test is exactly: the root's component list is not a prefix |
| PathRewriting.NamesExactly | packages/mcp/src/research/workspace-path.ts:16-21 | A slash separates the names of a text, nothing and a single dot name nothing, and anything else names itself |
| PathRewriting.ResolvesAsWalked | packages/mcp/src/research/workspace-path.ts:87-115 | Resolution that takes each link by itself leads to a path exactly if the plain walker, which puts a link's names in front of those left, ends there |
| PathRewriting.StuckAsWalked | packages/mcp/src/research/workspace-path.ts:78-105 | Resolution meets a NUL exactly if the walker gets stuck at one, and loops exactly if it walks for ever |
| PathRewriting.ResolveAsWalked | packages/mcp/src/research/workspace-path.ts:87-118 | The memoised walk answers exactly where the plain walker ends, a loop if it never does, and a NUL if it gets stuck |
| Glob.MatchItems | packages/mcp/src/research/glob.ts:134-158 | Single-star backtracking terminates and accepts exactly the names the items match declaratively, for any number of stars |
| Glob.NextStar | packages/mcp/src/research/glob.ts:144-147 | After the next star, the choice made for the star before it no longer matters |
| Glob.Backtrack | packages/mcp/src/research/glob.ts:148-151 | A mismatch after star-free items rules out exactly the current start of the last star |
| GlobCompile.ParseClass | packages/mcp/src/research/glob.ts:87-125 | The class ends at the first closing bracket after a leading ! and ], is literal without one, and a range that runs downwards is the only error |
| GlobCompile.MarkOperators | packages/mcp/src/research/glob.ts:102-108 | With a double hyphen exactly the left-to-right range hyphens are operators, otherwise every hyphen is |
| GlobCompile.RangeHyphensApart | packages/mcp/src/research/glob.ts:103-108 | Chosen range hyphens are at least three apart, so ranges never share a character |
| GlobCompile.PlainClass | packages/mcp/src/research/glob.ts:109-123 | A class without operators accepts exactly the characters it lists |
| GlobCompile.ListedIsAccepted | packages/mcp/src/research/glob.ts:109-123 | Every listed character that is not an operator is accepted by its class |
| GlobCompile.ClassAcceptsExactly | packages/mcp/src/research/glob.ts:98-124 | A class is read exactly if its chosen ranges run upwards, and accepts exactly the characters listed other than as range operators and those between the ends of a chosen range, or all others when negated |
| GlobCompile.ItemsMean | packages/mcp/src/research/glob.ts:68-69 | Leaving out a star right after a star does not change what the pattern means |
| GlobCompile.GlobAccepts | packages/mcp/src/research/glob.ts:62-85 | Compiling and matching accepts exactly the names the pattern means, and fails exactly when some class has a downward range |
| GlobMeaning.NothingMeans | packages/mcp/src/research/glob.ts:62-85 | The empty pattern means the empty name alone |
| GlobMeaning.PlainMeans | packages/mcp/src/research/glob.ts:62-85 | A plain character stands for itself |
| GlobMeaning.QuestionMeans | packages/mcp/src/research/glob.ts:62-85 | A question mark stands for any one character |
| GlobMeaning.StarMeansRun | packages/mcp/src/research/glob.ts:62-85 | A star stands for any run of characters, none included |
| GlobMeaning.ClassMeans | packages/mcp/src/research/glob.ts:87-125 | A class, up to the first bracket after a leading ! and one character, stands for one character that it lists or spans, or any other when negated |
| GlobMeaning.OpenBracketMeans | packages/mcp/src/research/glob.ts:87-97 | A bracket that is never closed stands for itself |
| GlobMeaning.OperatorsExactly | packages/mcp/src/research/glob.ts:99-107 | Every hyphen is a range operator; in a class with two together, a hyphen is one unless one of the two characters before it is |
| GlobMeaning.OrdinaryMeansItself | packages/mcp/src/research/glob.ts:62-85 | A pattern without special characters means itself alone |
| GlobMeaning.EndingMeans | packages/mcp/src/research/glob.ts:135-158 | A star and plain characters mean exactly the names that end so |
| GlobMeaning.BeginningMeans | packages/mcp/src/research/glob.ts:135-158 | Plain characters and a star mean exactly the names that begin so |
| GlobMeaning.BothEndsMean | packages/mcp/src/research/glob.ts:135-158 | Plain characters around a star mean exactly the names that begin and end so without overlap |
| GlobMeaning.QuestionsMean | packages/mcp/src/research/glob.ts:62-85 | So many question marks mean exactly the names of that length |
| GlobMeaning.AcceptsEnding | packages/mcp/src/research/glob.ts:62-158 | Compiling and matching a star and plain characters accepts exactly the names that end so |
| Text16.PointsEncodeBack | packages/mcp/src/research/text.ts:13-32 | Reading UTF-16 units as code points loses nothing, lone surrogates included |
| Text16.EncodeReadsBack | packages/mcp/src/research/text.ts:13-32 | Code points without a high surrogate next to a low one read back from their units |
| Text16.SliceOfPoints | packages/mcp/src/research/text.ts:34-41 | A slice of units between code-point boundaries holds exactly that slice of the code points |
| Text16.CpLength | packages/mcp/src/research/text.ts:15-20 | The length in code points, on both branches |
| Text16.CpAdvance | packages/mcp/src/research/text.ts:22-32 | From a code-point boundary, the boundary that many code points further, or the end |
| Text16.CpSlice | packages/mcp/src/research/text.ts:34-41 | The units of the asked code points, clamped to the text, which read back as exactly those code points |
| Text16.CpTail | packages/mcp/src/research/text.ts:43-47 | The last code points of the text, or all of it |
| Pages.PagesJoin | packages/mcp/src/research/observations.ts:13-42 | The pages joined are the text |
| Pages.PagesAreWellCut | packages/mcp/src/research/observations.ts:13-42 | Every page holds 1..size code points; one that is not last ends at the last newline of its window, or fills a window without newline |
| Pages.PageTextsJoin | packages/mcp/src/research/observations.ts:112-185 | The texts of pages 1 to n, in order, are the observation unit for unit |
| Paginator.Paginate | packages/mcp/src/research/observations.ts:17-42 | The line-grouping paginator offers exactly the pages of the common cutting rule, clamps the page number, and refuses only a non-positive size |
| Paginator.AddLine | packages/mcp/src/research/observations.ts:28-37 | A line longer than a page is split at the hard limit without losing or repeating a code point |
| Utf8.Decode8RoundTrip | packages/mcp/src/research/observations.ts:61-67 | Decoding the UTF-8 encoding of scalar values gives them back |
| Utf8.Decode8Exactly | packages/mcp/src/research/observations.ts:90 | Fatal decoding accepts only encodings of scalar values: no overlong form and no surrogate |
| Text16.StandardPairs | packages/mcp/src/research/text.ts:13-47 | Surrogate pairs are those of the standard's example and of both ends of their range |
| Utf8.StandardExamples | packages/mcp/src/research/observations.ts:61-67 | The bytes are those of the standard's examples |
| Observations.LoneExactly | packages/mcp/src/research/observations.ts:61-64 | The lone-surrogate test refuses exactly the texts with a code point that has no UTF-8 encoding |
| Observations.EncodeStrict | packages/mcp/src/research/observations.ts:61-67 | The strict encoder gives the UTF-8 bytes, or nothing exactly when a surrogate is alone |
| Observations.BigEndianRoundTrip | packages/mcp/src/research/observations.ts:137-139 | An offset below 256^8 written in eight big-endian bytes reads back |
| Observations.FirstByteCounts | packages/mcp/src/research/observations.ts:137-139 | The most significant byte of an offset comes first |
| Observations.RecordAt | packages/mcp/src/research/observations.ts:137-140 | Record k of the index holds the start of page k and the start of page k+1 |
| Observations.PagesTile | packages/mcp/src/research/observations.ts:124-144 | Neighbouring offsets delimit exactly one page's bytes: no gap and no overlap |
| Observations.PageIsReadBack | packages/mcp/src/research/observations.ts:172-185 | Fetching record k and the bytes it names gives exactly page k, with offsets exact as JavaScript numbers |
| Observations.ObservationStore.constructor | packages/mcp/src/research/observations.ts:101-105 | A new store is empty and valid |
| Observations.OpenStore | packages/mcp/src/research/observations.ts:101-105 | A store opens exactly for a positive page size |
| Observations.ObservationStore.PageEnd | packages/mcp/src/research/observations.ts:126-131 | The streaming cut ends where the common cutting rule does, always at a code-point boundary |
| Observations.ObservationStore.WritePages | packages/mcp/src/research/observations.ts:122-148 | The writing loop leaves exactly the pages before the first that has no encoding, and one record for each; all of them exactly when every code point has an encoding |
| Observations.ObservationStore.Put | packages/mcp/src/research/observations.ts:112-158 | The whole new state: a step below 1 changes nothing; an accepted text is kept whole with its descriptor; a refused one leaves the pages before the first that cannot be encoded, with their records, under the old descriptor; other steps are untouched |
| Observations.ObservationStore.View | packages/mcp/src/research/observations.ts:172-185 | For every listed step, what the clamped record and its bytes decode to; for a step kept whole, exactly the page the line-grouping paginator offers |
| Observations.ObservationStore.Get | packages/mcp/src/research/observations.ts:160-164 | For every listed step, what its file decodes to; for a step kept whole, the stored text unit for unit |
| RefusedPuts.GetAfterRefusal | packages/mcp/src/research/observations.ts:111-164 | After a refused put over an observation kept whole, it is read back exactly if the pages written before the refusal have the same code points |
| RefusedPuts.ViewAfterRefusal | packages/mcp/src/research/observations.ts:111-185 | After a refused put, a page of the earlier observation is read back exactly if the same page was written at that place before the refusal |
| RefusedPuts.AllFetchedExactly | packages/mcp/src/research/observations.ts:166-185 | All pages of the earlier observation are read back exactly if they are the first pages written before the refusal |
| RefusedPuts.RefusedPutLosesText | packages/mcp/src/research/observations.ts:122-134 | A letter is stored, a lone surrogate refused, and the step reads back as empty |
| RefusedPuts.RefusedPutKeepsText | packages/mcp/src/research/observations.ts:122-134 | Two letters fill a page, a refused text starts with that page, and the step reads back unchanged |
| JsonMeaning.SortIncreasing | packages/mcp/src/research/canonical-json.ts:29-30 | Sorting distinct keys gives strictly increasing keys and loses none |
| JsonMeaning.CanonMeans | packages/mcp/src/research/canonical-json.ts:27-32 | Sorting the keys of every object keeps what a value means |
| JsonMeaning.CanonicalUnique | packages/mcp/src/research/canonical-json.ts:27-32 | Two values with sorted keys that mean the same are the same |
| JsonPrinting.EscapeReads | packages/mcp/src/research/canonical-json.ts:15-20 | An escaped string ends at its closing quote and nowhere else, and determines the string, in both escaping modes |
| JsonPrinting.DecimalReads | packages/mcp/src/research/canonical-json.ts:38-40 | A printed integer is read off a text in one way when no digit follows |
| JsonReading.StringBack | packages/mcp/src/research/canonical-json.ts:15-20 | A reader of the standard's strings, with all its escapes, reads an escaped string back as itself and stops at its closing quote |
| JsonReading.ValueBack | packages/mcp/src/research/canonical-json.ts:21-34 | A reader of the standard's values reads a printed value back from the front of any text and leaves the rest |
| JsonPrinting.PrintedReadsBack | packages/mcp/src/research/canonical-json.ts:13-36 | Whatever is printed reads back, in every mode, as the value itself or with its keys sorted, which means the same |
| JsonPrinting.EscapedExactly | packages/mcp/src/research/canonical-json.ts:15-20 | A unit is printed as itself where that may be, with a letter where there is one, and else with four lower-case hex digits; with ASCII asked for, everything from 127 on so |
| JsonPrinting.RenderVisible | packages/mcp/src/research/canonical-json.ts:13-36 | A printed value has no control characters, and with ASCII asked for nothing but printable ASCII |
| JsonPrinting.ListSpacing | packages/mcp/src/research/canonical-json.ts:26 | Items stand between brackets in order |
| JsonPrinting.JoinSpacing | packages/mcp/src/research/canonical-json.ts:14 | A comma and one blank stand between two items |
| JsonPrinting.MemberSpacing | packages/mcp/src/research/canonical-json.ts:27-31 | A colon and one blank stand between a key and its value |
| JsonMeaning.BeforeExactly | packages/mcp/src/research/canonical-json.ts:29-30 | Keys are sorted by their first different unit, a beginning before what continues it |
| JsonPrinting.RenderReads | packages/mcp/src/research/canonical-json.ts:21-34 | A printed value can be read off the front of a text in at most one way |
| JsonPrinting.SortedIsCanon | packages/mcp/src/research/canonical-json.ts:27-32 | Sorting while printing is printing the value with sorted keys |
| JsonPrinting.RenderExactly | packages/mcp/src/research/canonical-json.ts:13-36 | The sorted-key printer gives equal texts exactly for values equal up to object key order, in both escaping modes |
| JsonPrinting.UnsortedExactly | packages/mcp/src/research/canonical-json.ts:13-36 | Without sorting, equal texts mean equal values with equal key order |
| JsonPrinting.SignatureExactly | packages/mcp/src/research/actions.ts:52-58 | Two tool calls have the same signature exactly when they are the same JSON value up to object key order |
| Actions.ObjectAt | packages/mcp/src/research/actions.ts:9-28 | The depth-and-string loop returns the text up to the balancing bracket, or nothing when there is none |
| Actions.SkipValue | packages/mcp/src/research/actions.ts:13-26 | Inside brackets, scanning a printed value changes neither depth nor string state |
| Actions.PrintedObjectEnds | packages/mcp/src/research/actions.ts:9-28 | The scanner stops exactly at the closing brace of a printed object, whatever follows |
| Actions.ObjectEnds | packages/mcp/src/research/actions.ts:9-28 | In any text the object ends at the first bracket outside strings that leaves nothing open, counting braces and brackets alike, or nowhere |
| ActionReply.RepliesExactly | packages/mcp/src/research/actions.ts:31-50 | Every outcome of a reply: the whole text if it parses, else the object at the first brace if it ends and parses, else no action or an invalid one; and a value counts exactly if it is an object with a string action |
| ActionReply.TrimExactly | packages/mcp/src/research/actions.ts:31-33 | Trimming takes all whitespace at both ends and nothing else |
| ActionReply.ActionTextExactly | packages/mcp/src/research/actions.ts:31-33 | What is parsed is the trimmed reply, or the lines between the fences, whatever mixture of line breaks separates them |
| ActionReply.ParseJsonAction | packages/mcp/src/research/actions.ts:30-50 | Trim, fence, direct parse, recovery and the action check, with the error of each failing stage; a success is an object with a string action |
| ActionReply.RecoversPrinted | packages/mcp/src/research/actions.ts:38-47 | After text without an opening brace, recovery parses exactly the printed object's text |
| ActionReply.ProseGivesAction | packages/mcp/src/research/actions.ts:31-50 | A printed action in prose without an earlier brace is recovered, unless all of the reply parses |
| ActionReply.BareGivesAction | packages/mcp/src/research/actions.ts:31-36 | A printed action alone, with any whitespace around it, is that action |
| ActionReply.FenceGivesAction | packages/mcp/src/research/actions.ts:32-33 | A printed action in a fenced block with any tag is that action |
| Clipping.Clip | packages/mcp/src/research/fit.ts:81-98 | The clipped text keeps a prefix, or both ends around the exact count of what was dropped, and never exceeds a positive limit in code points |
| Clipping.DigitsGrow | packages/mcp/src/research/fit.ts:89-91 | The marker for fewer dropped characters is never longer, so the room reserved for it suffices |
| Clipping.ClipKeepsEnds | packages/mcp/src/research/fit.ts:89-97 | A text too long keeps a beginning and an end around the count of what is gone; they take what the limit leaves beside the marker, the beginning its share of that |
| Clipping.ClipKeepsBeginning | packages/mcp/src/research/fit.ts:86-92 | Without room beside the marker only the beginning is kept, and a text within the limit is kept whole |
| Clipping.MarkerExample | packages/mcp/src/research/fit.ts:89 | The marker for seven characters, in full |
| ContextFit.WidestIndex | packages/mcp/src/research/fit.ts:141-153 | The first index with the longest content |
| ContextFit.ShrinkWidest | packages/mcp/src/research/fit.ts:206-215 | Shrinks the first widest candidate strictly, or reports that none is wider than the preview |
| ContextFit.CompactOld | packages/mcp/src/research/fit.ts:194-204 | Unprotected observations are compacted oldest first, only to something shorter, for as long as the estimate is above the target and no longer; something changed exactly if the flag says so |
| ContextFit.ShrinkObservations | packages/mcp/src/research/fit.ts:217-222 | As many rounds on the first widest observation as it takes to fit, to make all of them narrow, or 200, and no more; the flag tells whether there was one |
| ContextFit.ReduceThinking | packages/mcp/src/research/fit.ts:223-231 | Long thinking of the middle messages is compacted in order for as long as the estimate is over budget and no longer |
| ContextFit.ShrinkRange | packages/mcp/src/research/fit.ts:232-242 | The same rounds over the texts of a range, although the wide ones are listed anew in each round |
| FitRounds.RoundTakesOne | packages/mcp/src/research/fit.ts:206-215 | Whichever candidate is the widest, a round takes exactly one off the rounds that any list holding the candidates still needs |
| FitRounds.NarrowExactly | packages/mcp/src/research/fit.ts:217-222 | After n rounds all candidates are narrow exactly if their widths together need at most n |
| FitConversation.FitToContext | packages/mcp/src/research/fit.ts:177-251 | A conversation that fits is returned as it is; otherwise the five stages run, each for exactly as long as it has to, and the answer is what they reach with an exact flag, or an error with its estimate when that is over budget |
| FitGuarantees.StopsUnique | packages/mcp/src/research/fit.ts:184-242 | How far each stage goes is determined by the conversation, the counter and the budget |
| FitGuarantees.StagesFit | packages/mcp/src/research/fit.ts:173-176 | The result has the same messages in the same order; contents are unchanged or strictly shorter; only long thinking of the middle messages is compacted; the first two messages are untouched unless clipping is configured |
| FitGuarantees.CompactedExactly | packages/mcp/src/research/fit.ts:186-204 | After n observations exactly those texts of users and tools are compacted that are among the first n, have at least as many later ones as are to be protected, and get shorter |
| FitGuarantees.CompactsToNineTenths | packages/mcp/src/research/fit.ts:194-196 | Compacting goes over the observations until the estimate is within nine tenths of the budget, and no further |
| FitGuarantees.RoundExactly | packages/mcp/src/research/fit.ts:206-215 | A round cuts the first widest text to the configured share of its length, or to the preview where that is more, and touches nothing else |
| FitGuarantees.ThinkingExactly | packages/mcp/src/research/fit.ts:223-231 | Thinking changes only from the third message to where the stage stopped, never in the last two, exactly where it is longer than the preview, and then to its compaction |
| FitGuarantees.BudgetExactly | packages/mcp/src/research/context-policy.ts:52-54 | The budget is what the window leaves beside the answer and the margin, if anything |
| FitGuarantees.OrderOfLoss | packages/mcp/src/research/fit.ts:217-242 | A stage does something only when every earlier one went all the way: recent observations after old ones, thinking after observations, other texts after thinking, pinned texts last; after an error all of them did |
| FitGuarantees.FitsAndStays | packages/mcp/src/research/fit.ts:217-242 | Once the estimate fits, no later stage changes anything |
| FitGuarantees.RefusedExactly | packages/mcp/src/research/fit.ts:243-249 | An error comes with one conversation, whatever the counter and the budget, in which nothing is left to shrink exactly if 200 rounds are enough for each loop |
| FitGuarantees.NothingLeftExactly | packages/mcp/src/research/fit.ts:217-249 | That an error leaves nothing to shrink holds for every counter and budget exactly if the widths of the texts, once old observations are compacted, need at most 200 rounds in each loop |
| FitGuarantees.GrowsExactly | packages/mcp/src/research/fit.ts:224-231 | The thinking of a message is longer in the end exactly if the message is neither pinned nor one of the last two, the stage got to it, and its thinking is long and longer when compacted |
| FitGuarantees.NeverGrowsExactly | packages/mcp/src/research/fit.ts:224-231 | No counter and no budget make any thinking longer exactly if no long thinking of the middle messages is longer when compacted |
| FitCases.OneRoundShort | packages/mcp/src/research/fit.ts:233-236 | With 201 texts of two letters the 200 rounds run out one letter above the budget, and one more round would fit |
| FitCases.RefusedOneRoundShort | packages/mcp/src/research/fit.ts:243-249 | That conversation is refused with an estimate of 202 against a budget of 201 |
| FitCases.ThinkingCanGrow | packages/mcp/src/research/fit.ts:224-231 | With a counter that adds up lengths, a thinking of two letters becomes 49 long while the conversation gets shorter and fits |
| Budgeter.MessagesTokens | packages/mcp/src/research/fit.ts:31-41 | The estimate is the sum over messages of content, images and other fields, at least two per message |
| Budgeter.EstimateBounds | packages/mcp/src/research/fit.ts:26-41 | Apart from images the estimate is never below what the characters come to, and at most two above it for each message |
| Budgeter.ContextBudgeter.constructor | packages/mcp/src/research/fit.ts:53-57 | The scale starts at no less than one |
| Budgeter.ContextBudgeter.Observe | packages/mcp/src/research/fit.ts:61-70 | The estimate of every conversation only rises, no non-empty conversation ever observed is again estimated below its reported count, and a rise is exact for the one at hand |
| Shlex.Lexer.ReadToken | packages/mcp/src/research/shlex.ts:64-170 | The mutable machine reads exactly the token, state and remaining input of the specified machine, and terminates on every input and option |
| Shlex.Lexer.ReadChar | packages/mcp/src/research/shlex.ts:52-56 | The next character is the one put back, else the next of the text |
| Shlex.Lexer.SkipLine | packages/mcp/src/research/shlex.ts:57-62 | A comment runs to and over the next newline |
| Shlex.Tokens | packages/mcp/src/research/shlex.ts:172-177 | The generator terminates and yields all tokens up to the end or the lexing error, characters put back included |
| ShlexWords.PlainIsPieces | packages/mcp/src/research/shlex.ts:29-177 | In non-posix whitespace-split mode the machine is the simple splitter on blanks and leading quotes, error included |
| ShlexWords.PlainRebuilds | packages/mcp/src/research/shlex.ts:29-177 | In that mode the tokens, with the blanks skipped around them, rebuild the text in order |
| ShlexWords.ShellRoundTrip | packages/mcp/src/research/shlex.ts:29-177 | In posix punctuation mode, quoting any words, empty ones and ones with quotes included, and joining them with spaces is undone by lexing |
| ShlexShell.ShellLexesExactly | packages/mcp/src/research/shlex.ts:29-177 | A text of blanks, operators and words, where words are plain, escaped, single-quoted and double-quoted parts, lexes to exactly these operators and to what the words quote, in order, and to the error where it breaks off |
| ShlexShell.EveryTextHasShape | packages/mcp/src/research/shlex.ts:29-177 | Every text is of that form |
| ShlexShell.ShellAcceptsExactly | packages/mcp/src/research/shlex.ts:29-177 | A text lexes without error exactly if it is finished, and says one thing only |
| ShlexShell.OperatorBetween | packages/mcp/src/research/shlex.ts:139-146 | A run of operator characters after a word is one token, with or without blanks around it |
| ShlexShell.TwoCommands | packages/mcp/src/research/shlex.ts:139-146 | Two words joined by a double ampersand, spaced or not, are three tokens |
| Jobs.Job.Update | packages/rust-core/src/platform/jobs.rs:151-161 | A report changes status, reason and detail unless the job is over or being cancelled |
| Jobs.Job.CommitResult | packages/rust-core/src/platform/jobs.rs:172-188 | The commit runs only when no cancel was requested, and it is marked exactly when it succeeds |
| Jobs.Job.Finish | packages/rust-core/src/platform/jobs.rs:194-237 | The final status, reason, result and error, with a requested cancel overriding the outcome and an oversized result failing |
| Jobs.Job.RequestCancel | packages/rust-core/src/platform/jobs.rs:366-380 | A request wins exactly when the job is neither over nor committed |
| Jobs.JobRegistry.Prune | packages/rust-core/src/platform/jobs.rs:95-102 | Exactly the finished jobs older than ten minutes are dropped |
| Jobs.JobRegistry.Oldest | packages/rust-core/src/platform/jobs.rs:107-117 | The job that finished first, the first in key order on ties, or none when no job is finished |
| Jobs.JobRegistry.MakeRoom | packages/rust-core/src/platform/jobs.rs:104-131 | After pruning, a full registry gives up its oldest finished job; room exists exactly when fewer than 64 are left |
| Jobs.JobRegistry.Submit | packages/rust-core/src/platform/jobs.rs:276-285 | A submission is refused exactly when no room was made, and otherwise adds one new job |
| Jobs.JobRegistry.Lookup | packages/rust-core/src/platform/jobs.rs:323-333 | A job is found exactly if it is still registered after pruning |
| JobProtocol.StepInv | packages/rust-core/src/platform/jobs.rs:94-411 | Every step of workers, cancellers, removers, listers and submitters keeps the invariant |
| JobProtocol.ReachableIsSafe | packages/rust-core/src/platform/jobs.rs:94-131 | In every reachable world the registry has at most 64 entries and every unfinished job, and no job is both cancelled and committed |
| JobProtocol.CancelWins | packages/rust-core/src/platform/jobs.rs:172-188 | After a winning cancel no commit ever succeeds and the job can only end cancelled, without a result |
| JobProtocol.CommitWins | packages/rust-core/src/platform/jobs.rs:374-378 | After a commit no request ever marks the job as cancelled |
| JobHistory.CommittedExactly | packages/rust-core/src/platform/jobs.rs:172-188 | In every run a job is marked committed exactly if a commit of it succeeded before |
| JobHistory.CancelledExactly | packages/rust-core/src/platform/jobs.rs:366-380 | In every run a job is marked cancelled exactly if a request came before while it was neither over nor committed |
| JobHistory.CommitStands | packages/rust-core/src/platform/jobs.rs:172-205 | From the event of a successful commit on, no request wins, and a result that fits completes the job with it |
| JobHistory.CancelStands | packages/rust-core/src/platform/jobs.rs:366-380 | From the event of a winning request on, no commit succeeds, and the job can only end cancelled without a result |
| JobHistory.EndsExactly | packages/rust-core/src/platform/jobs.rs:194-237 | How a job ends for every outcome: cancelled if a request has won, completed with a result that fits, failed with one that does not, and by its code for an error |
| JobHistory.ReportShows | packages/rust-core/src/platform/jobs.rs:151-161 | A report is shown unless the job is over or a request has won |
| JobHistory.RequestShows | packages/rust-core/src/platform/jobs.rs:366-380 | A request marks the job at once, exactly where it wins |
| JobHistory.PrunedExactly | packages/rust-core/src/platform/jobs.rs:95-102 | Pruning keeps exactly the jobs that are not over or ended less than ten minutes ago |
| JobHistory.SixtyFour | packages/rust-core/src/platform/jobs.rs:104-131 | At most 64 jobs are held, and one is turned away exactly when 64 are held that are not over |
| JobHistory.EvictionExactly | packages/rust-core/src/platform/jobs.rs:104-131 | A submission drops what has expired and otherwise only, of 64, the job that ended first, the least identifier on ties |
| JobProtocol.VerdictIsFinal | packages/rust-core/src/platform/jobs.rs:151-161 | A job that is over keeps status, end and reason for ever; its payload is kept or dropped, never replaced |
| JobProtocol.AnswerIsTrue | packages/rust-core/src/platform/jobs.rs:351-410 | Every answered cancel or remove reports a job that is over with the status it keeps; if the cancel won, cancelled and without a result |
| JobProtocol.WaitingIsWoken | packages/rust-core/src/platform/jobs.rs:381-385 | A waiting caller can go on once the worker has reported, and for good |
| JobProtocol.OnlyFinishedLeave | packages/rust-core/src/platform/jobs.rs:95-131 | A job leaves the registry only finished: expired, the oldest of a full registry, or removed by request |
| JobProtocol.RefusedExactly | packages/rust-core/src/platform/jobs.rs:104-131 | A submission is refused exactly when the registry holds 64 unfinished jobs |

## Left out

- Admission.Register: tickets and counters are unbounded naturals, so their 64-bit wrap-around and saturation are not modelled; bypass counts saturate at 255 as in the source.
- AdmissionProtocol.Step: deadlines and cancellation are nondeterministic steps; the clock, the async runtime and mutex poisoning are not modelled. A notification that arrives between enabling the wake-up and taking the lock counts for nothing, so wake-ups are only underestimated.
- AdmissionShare.WeightedShare: speaks of runs in which the waiter fits at every attempt, because an attempt that finds nothing also refills the credits.
- WorkspacePath.ResolvePath: the file system is a finite map from component lists to link texts that does not change during the walk; the working directory is absolute and clean.
- WorkspacePath.ResolvedIsFixed: for a relative path the starting directory must itself be physical, since the source does not resolve it.
- Text16.CpAdvance: is stated from code-point boundaries, which is where every caller starts.
- Paginator.Paginate: pages are kept as joined texts rather than lists of line parts.
- Observations.ObservationStore.Put: texts are shorter than 2^51 units, far above what an engine can hold, so that byte offsets are exact as JavaScript numbers; page metadata and input and output errors are not kept.
- JsonPrinting.RenderExactly: numbers are integers of any size; float keys, exponent forms, other separators and entries that are undefined are not modelled.
- ActionReply.ParseJsonAction: the JSON parser is any partial function from texts to values; results about printed objects assume only what it does on the printed text and on the whole reply.
- FitConversation.FitToContext: the token counter and the compaction of one text are arbitrary functions; the step headers, ledgers and page footers that `compact` looks for are not modelled, and the source's one method is two here, `Trim` for the stages.
- Clipping.Clip: ratios are real numbers, as are the scale and the characters per token of the budgeter; rounding of floating-point arithmetic is not modelled.
- Budgeter.MessagesTokens: a message is given by the texts its estimate counts; building those texts from JSON is not modelled.
- Shlex.Lexer.ReadToken: the tests for a word that has not begun are left out where a word always has; the class splits the loop body into one method per state.
- Jobs.Job.Finish: errors are their code and encoded size; the size check of a value is a comparison of its encoded length, not the counting writer.
- JobProtocol.Step: workers report only the waiting, loading and running states, as their callers do; the worker's own work and the receipts' other fields are not modelled.
- The receipts and JSON output of `output_check`, `receipt`, `pageFooter`, `message` and `writeResult`: formatting only.
- `globPaths`: directory listing and the rule for hidden names.
- `exists`, `isDir`, `lexists`, `isSymlink`: probes of the file system.
- Servers, command lines, transports, host probing, model catalogues and command policy: wrappers around programs and formats outside the repository.
- Routing, resources, residency, runtime, scopes and execution are not part of this model.
