# Verified model of libuzi

libuzi gives POSIX programs the synchronisation and runtime primitives of Windows. This project models the
non-Windows code of its hardest parts and proves what they promise. `dafny verify dfyconfig.toml` checks everything.

**Concurrent protocols** (`CriticalSection`, `SList`, `Barrier`, `InitOnce`, on the counting lemmas in `Sums`).
Each is a step system over any number of threads, every one with its own program counter. Each read, write or atomic
operation on a shared field is one step, and the theorems quantify over every run, that is, every interleaving. Those
named `Alone…` say what a thread's own steps come to when no other thread makes any. A
method cannot express interleaving, so these four are step functions on values although the code assigns fields.
The spin loop of `EnterCriticalSection` is included: `libuzi/critical.c:132` tests a name that
`include/uzi/synch.h:65` does not define. The list header uses the layout in which one 64-bit swap covers pointer, Depth and Sequence
(`include/uzi/interlocked.h:123-133`), and copying it takes two loads, so a copy may be torn.

**Converters** (`Utf` holds the encodings of RFC 3629 and RFC 2781 as reference definitions, `Utf16ToUtf8` and
`Utf8ToUtf16` the code, `Transcode` what both loops share, `UnicodeRoundTrip` the theorems on whole strings,
`UnicodeErrors` those on sources that are no well-formed string, `UziUnicode` the entry points). The loops write an array and are proved equal to the function `Transcode.Convert`.

**Timers and waits** (`Timespec`, `TimerQueues`, `Wait`). The timer queue is a class over linked `Timer` objects whose
methods refine functions on the queue as a value. `WaitForMultipleObjects` works on its arrays; handles, `poll` and
cleanup are a parameter that may answer differently in every round.

**Heap structures** (`DoublyLinkedList`, `Bits`, `Alignment`). List nodes are objects; the aligned allocator writes its
hidden header byte by byte into a memory of bytes and reads it back from there. `Sequences` and `Wrappers` are helpers.

## Where the code differs from what it says

- `isLegalUTF8` has no lower bound on the second byte after 0xED and 0xF4, so some ill-formed bytes are accepted. The
  accepted set is stated exactly (`Utf8ToUtf16.IsLegalUTF8`). Such bytes never come back unchanged
  (`UnicodeRoundTrip.ReturnsUnchangedExactly`, with the example `IllFormedButAccepted`).
- A first byte of 0xF8 or more announces five or six bytes; with fewer left the source is called exhausted, although no
  continuation could make it legal (`UnicodeErrors.AnswersExactly8`).
- Lenient UTF-16 conversion reads an unpaired high surrogate only when another unit follows, so the units read do not
  always convert on their own. They do for every size of target exactly when each high surrogate but a last unit is
  followed by a low one (`UnicodeRoundTrip.LenientPrefixConvertsForEveryRoom`, example `LenientPrefixCanDiffer`).
- `InsertTimerQueueTimer` replaces a node when the new time falls strictly between two neighbours and never inserts
  before the head. `TimerQueues.LosesNodeExactly` and `TimerQueues.InsertKeepsExactly` say exactly when this matters;
  `TimerQueues.LosesNode` is an example.
- `timespec_add_ms` multiplies in 32 bits: `Timespec.AddMsExactly` gives the exact bound of 4294 ms.
- That product is 0 for a period that is a multiple of 67108864 ms: such a timer does not move on when it fires. In a
  sorted queue with that period, due timers are called back for ever exactly when nothing is pending
  (`TimerQueues.SortedQueueEndsExactly`, example `StuckTimer`). With a timer pending, each is called once and ends up
  behind it, out of order (`StuckBehindPending`). When all are due the order does not matter
  (`TimerQueues.CommonPeriodEndsExactly`). For every mix of periods that move timers on, firing ends in any order of
  near times (`TimerQueues.FirableEnds`); mixed with others it need not, since they can be dropped
  (`TimerQueues.MixedQueueCanHang`).
- For periods over 4294 ms the timer moves on by less than its period and fires too often
  (`TimerQueues.FiresTooOften`); `TimerQueues.FiringOutcome` counts exactly how often.
- `timespec_compare` cuts a 64-bit difference down to an int: `Timespec.OrdersExactly` says which pairs compare right.
- `InterlockedFlushSList` looks at the 16-bit Depth first, so it gives up on a multiple of 65536 entries
  (`SList.FlushGivesUpExactly`); `SList.FlushGivesUpOnNodes` is a run to such a list.
- The list is right in every run in which fewer than 65536 header updates come between a pop's load and its successful
  swap, whatever the age of pushes and flushes. `SList.BoundIsTight` is a run of exactly 65536 that breaks it.

## Assumptions

Sequential consistency; thread identifiers are unique and not null; no counter overflows a LONG; list nodes stay
allocated while a pop may read them; a barrier is used by exactly the number of threads it was initialised for;
`LeaveCriticalSection` is called by the owner only; `long`, `size_t` and pointers outside the list header have 64 bits and memory is
little-endian; sizes passed to the aligned allocator do not wrap around.

## Model

| member | source | states |
|---|---|---|
| CriticalSection.MutualExclusion | libuzi/critical.c:130-226 | in every run at most one thread is inside the section |
| CriticalSection.OwnerTestIsExact | libuzi/critical.c:166-173 | a thread finds its own id in OwningThread exactly when it is inside and not already past clearing it; so the unlocked test is safe |
| CriticalSection.OnePermit | libuzi/critical.c:164-182 | holders, pending posts and semaphore tokens add up to one while LockCount is at least 0 and to none at -1 |
| CriticalSection.RecursionIsDepth | libuzi/critical.c:208-226 | RecursionCount is the number of enters the thread inside has not left |
| CriticalSection.LockCountAccounting | libuzi/critical.c:164-182 | LockCount + 1 is the holder's depth, its call in progress included, plus the queued threads |
| CriticalSection.FreeLockCount | libuzi/critical.c:214-220 | with no holder LockCount + 1 is the number of queued threads |
| CriticalSection.NoLostWakeup | libuzi/critical.c:216-220 | a queued thread finds a token, or somebody holds or is about to post |
| CriticalSection.NoDeadlock | libuzi/critical.c:130-226 | when a call is in progress some thread can go on, or the holder is outside any call |
| CriticalSection.BalancedUseRestores | libuzi/critical.c:208-226 | after balanced use the section is in its initial state |
| CriticalSection.TryAnswers | libuzi/critical.c:184-206 | a try answers TRUE exactly when the thread is then inside; its failed swap and its failed owner test, the only steps of a FALSE answer, leave everything shared as it was |
| CriticalSection.TryReturns | libuzi/critical.c:184-206 | a client's try, however others interleave, returns TRUE with the thread one level deeper exactly when LockCount was -1 at its swap or the thread was already inside, and FALSE with its depth unchanged otherwise |
| CriticalSection.EnterAndLeaveReturn | libuzi/critical.c:130-226 | a whole enter that returns has added one level and a whole leave has taken one away |
| CriticalSection.SwapTakesExactly | libuzi/critical.c:143-189 | in every run a swap takes the section exactly when LockCount is -1 and otherwise changes nothing |
| CriticalSection.AloneGoesIn | libuzi/critical.c:130-206 | a free section is entered at once by enter, spinning or not, and by try |
| CriticalSection.AloneGoesOut | libuzi/critical.c:208-226 | the last leave with nobody queued frees it |
| CriticalSection.AloneHandsOver | libuzi/critical.c:211-220 | the last leave with threads queued posts one token |
| CriticalSection.AloneTakesToken | libuzi/critical.c:175-181 | a queued thread that finds a token owns the section three steps later |
| CriticalSection.AloneGoesDeeper | libuzi/critical.c:165-173 | the holder's enter adds one to both counters without waiting |
| CriticalSection.AloneTriesDeeper | libuzi/critical.c:196-203 | and so does its try |
| CriticalSection.AloneGoesBack | libuzi/critical.c:211-225 | a leave that is not the last takes one off both |
| CriticalSection.AloneSpinsFirst | libuzi/critical.c:133-165 | an enter of a held section tries, tests it SpinCount times and only then queues |
| CriticalSection.AloneDoesNotCompete | libuzi/critical.c:139-140 | with others queued the spin loop ends at its first test |
| SList.Linearizable | libuzi/interlocked.c:47-181 | the operations in the order of their effective steps, with the pointers they return, are a legal history of a stack, and the memory spells out that stack |
| SList.NothingLostOrDuplicated | libuzi/interlocked.c:47-181 | every node is at exactly one place of the list or with exactly one client |
| SList.EffectOf | libuzi/interlocked.c:73-84 | a successful swap is the same operation on the abstract stack |
| SList.PopHandsOutTop | libuzi/interlocked.c:125-140 | a pop hands out the top node, to one owner, who alone may push it again |
| SList.SavedSuccessorIsRight | libuzi/interlocked.c:134-138 | the successor a pop read before its swap is still the right new top although nodes are re-pushed |
| SList.FlushHandsOutChain | libuzi/interlocked.c:170-179 | a flush hands out the whole chain in stack order and leaves the list empty |
| SList.FailedSwapMeansProgress | libuzi/interlocked.c:75-82 | lock freedom: a swap that fails sends the thread back to loading the header, and only because somebody else's update has taken effect since it began to copy it, torn copy or not |
| SList.CallTakesEffectOnce | libuzi/interlocked.c:47-181 | in every timely run, between a call and its return the thread's steps add exactly one event to the history: the push of that node, a pop, or a flush or its giving up |
| SList.RunHasTrace | libuzi/interlocked.c:47-181 | every timely run is a run with its steps attributed to threads, so the statement above is about all of them |
| SList.TraceIsRun | libuzi/interlocked.c:47-181 | and every such attributed run is a timely run |
| SList.AloneFinishes | libuzi/interlocked.c:47-181 | from any point of a call in any timely run, with a copy however old, seven steps of the thread's own return from it |
| SList.RunFlush | libuzi/interlocked.c:144-179 | a flush on its own of a list with Depth other than 0 returns the top and empties the list |
| SList.RunPopEmpty | libuzi/interlocked.c:125-133 | a pop on its own of an empty list returns NULL and changes nothing |
| SList.FlushGivesUpExactly | libuzi/interlocked.c:148-149 | the depth test gives up exactly on multiples of 65536 |
| SList.FlushGivesUpOnNodes | libuzi/interlocked.c:148-149 | a run to a list of 65536 nodes whose flush returns at once |
| SList.BoundIsTight | include/uzi/interlocked.h:123-133 | a run with exactly 65536 updates during a pop after which its successful swap breaks the list |
| Barrier.NobodyLeavesEarly | libuzi/barrier.c:169-226 | no thread has left a round that another has not entered |
| Barrier.RoundsStayClose | libuzi/barrier.c:169-226 | completed rounds of two threads differ by at most one |
| Barrier.ExactlyOneTrue | libuzi/barrier.c:210-226 | every completed round gave TRUE to exactly one thread |
| Barrier.CounterNeverNegative | libuzi/barrier.c:172-174 | the remaining counter stays between 0 and N, and a decrement finds it positive |
| Barrier.WaiterIsReleased | libuzi/barrier.c:192-208 | once all have entered a waiter's round it can leave, or the last thread of that round is still on its way to letting it go |
| Barrier.ReleaseIsStable | libuzi/barrier.c:200-224 | no step of another thread takes a release back: the event is not reset and the spin test does not flip back |
| Barrier.ReleaseMeansAllEntered | libuzi/barrier.c:192-208 | a waiter can leave only when all have entered its round |
| Barrier.NoDeadlock | libuzi/barrier.c:135-227 | with every thread inside a call some thread makes real progress |
| Barrier.CallReturns | libuzi/barrier.c:178-226 | a call returns one answer; with the spin-only flag it never blocks, with block-only alone it never spins |
| Barrier.WaiterReturnsExactly | libuzi/barrier.c:200-210 | a waiter's next step returns FALSE exactly when it can leave |
| Barrier.LastToEnterFinishes | libuzi/barrier.c:169-226 | the last thread to enter goes straight through, switches and sets the event, restores the counter and gets TRUE |
| Barrier.AloneWaits | libuzi/barrier.c:178-208 | a thread that is not the last spins if told to, or if fewer are missing than there are processors unless told not to, and else blocks |
| Barrier.AloneSpins | libuzi/barrier.c:202-208 | while the round is open a waiter tests SpinCount + 1 times and then blocks |
| Barrier.AloneSpinsOn | libuzi/barrier.c:202-204 | and a spin-only one never stops testing |
| Barrier.DefaultSpins | libuzi/barrier.c:90-133 | initialised with -1 a barrier lets its waiters test 2001 times before they block |
| InitOnce.InitFnIsExclusive | libuzi/init.c:45-53 | InitFn never runs in two threads at once |
| InitOnce.NeverAgainAfterSuccess | libuzi/init.c:37-57 | InitFn succeeds at most once and is not entered afterwards |
| InitOnce.TrueMeansDone | libuzi/init.c:39-57 | every TRUE return follows the success |
| InitOnce.FalseCountsFailures | libuzi/init.c:60-62 | a thread's FALSE returns are its failed initialisations already reset |
| InitOnce.EveryCallAccountedFor | libuzi/init.c:45-62 | calls of InitFn are the success, the failures and the one that may be running |
| InitOnce.NoDeadlock | libuzi/init.c:64-72 | the word can be claimed, is done, or some thread is about to release it |
| InitOnce.CallAnswers | libuzi/init.c:33-74 | a call returns one answer: FALSE exactly when its own InitFn has failed in it, with the word free again, and TRUE with the word done |
| InitOnce.SwapClaimsExactly | libuzi/init.c:45-49 | in every run the swap enters InitFn exactly when the word is 0 |
| InitOnce.AloneInitializes | libuzi/init.c:42-62 | a lone caller of a free word runs InitFn once and returns its answer, and the word is done or free again |
| InitOnce.DoneAnswersAtOnce | libuzi/init.c:39-41 | once done a call returns TRUE and changes nothing |
| InitOnce.SleeperLooksAgain | libuzi/init.c:64-72 | a caller that has slept returns TRUE if the word is done, claims it if it is free, and sleeps again otherwise |
| Transcode.ResumeConcatenates | libuzi/unicode.c:221-229 | going on after a full target, into any further room, gives the conversion into the combined room; for both converters and modes |
| Transcode.PartsAreOneShot | libuzi/unicode.c:429-434 | over any list of fresh buffers the parts concatenate to the one-shot conversion |
| Transcode.RoomDecides | libuzi/unicode.c:543-558 | with the counted length as room the outcome is the counted one, with less the target is exhausted |
| Utf16ToUtf8.WriteBytes | libuzi/unicode.c:231-252 | the fall-through switch writes exactly the UTF-8 form of RFC 3629 and nothing else |
| Utf16ToUtf8.WriteCodePoint | libuzi/unicode.c:197-276 | a code point's bytes are counted, or written within the target or not at all |
| Utf16ToUtf8.ConvertUTF16toUTF8 | libuzi/unicode.c:133-277 | the loop consumes, writes or counts, and answers exactly as `Convert` says, never past the target's end |
| Utf8ToUtf16.IsLegalUTF8 | libuzi/unicode.c:292-347 | accepts exactly the well-formed sequences and leads 0xED, 0xF4 with a second byte below 0x80 |
| Utf8ToUtf16.IsLegalUTF8Sequence | libuzi/unicode.c:355-363 | some accepted sequence stands at the start of the buffer |
| Utf8ToUtf16.OffsetsAreStandard | libuzi/unicode.c:108-119 | subtracting the table's offset gives the character number of RFC 3629 |
| Utf8ToUtf16.AcceptedIsScalar | libuzi/unicode.c:436-479 | everything accepted decodes to a scalar value, so neither flag-dependent branch is reached |
| Utf8ToUtf16.FlagIsIrrelevant | libuzi/unicode.c:436-479 | strict and lenient conversion to UTF-16 are the same |
| Utf8ToUtf16.WriteCodePoint | libuzi/unicode.c:429-502 | the units of any value, flag-dependent branches included, are counted, written within the target, or refused |
| Utf8ToUtf16.ConvertUTF8toUTF16 | libuzi/unicode.c:367-508 | the loop consumes, writes or counts, and answers exactly as `Convert` says, never past the target's end |
| UnicodeRoundTrip.StrictAcceptsExactly | libuzi/unicode.c:133-277 | strict conversion accepts exactly the well-formed UTF-16 strings and makes well-formed UTF-8 of them |
| UnicodeRoundTrip.RoundTrip16 | libuzi/unicode.c:133-277 | whatever strict conversion accepts comes back as the same UTF-16 units |
| UnicodeRoundTrip.RoundTrip8 | libuzi/unicode.c:367-508 | well-formed UTF-8 converts to UTF-16 and back to the same bytes |
| UnicodeRoundTrip.ReturnsUnchangedExactly | libuzi/unicode.c:310-333 | among all accepted bytes exactly the well-formed ones come back unchanged |
| UnicodeRoundTrip.IllFormedButAccepted | libuzi/unicode.c:317-319 | ED 00 80 is accepted and is not UTF-8 |
| UnicodeRoundTrip.LengthBounds | libuzi/unicode.c:133-508 | at most three bytes for each unit read and one unit for each byte read, wherever the conversion stops |
| UnicodeRoundTrip.StrictPrefixConverts | libuzi/unicode.c:221-229 | wherever strict conversion stops, the target is the whole conversion of what was read |
| UnicodeRoundTrip.PrefixConverts8 | libuzi/unicode.c:429-488 | the same to UTF-16, in both modes |
| UnicodeRoundTrip.LenientPrefixConvertsForEveryRoom | libuzi/unicode.c:160-195 | in lenient mode that holds for every room exactly when each high surrogate but a last unit is followed by a low one |
| UnicodeRoundTrip.LenientPrefixConvertsExactly | libuzi/unicode.c:160-195 | for one room, exactly when the last unit read is no high surrogate |
| UnicodeRoundTrip.LenientPrefixCanDiffer | libuzi/unicode.c:160-195 | a source and a target of three bytes for which it does not |
| UnicodeErrors.StrictAnswers | libuzi/unicode.c:151-195 | strict conversion to UTF-8 stops behind the longest well-formed text with that text converted; a high surrogate at the end is exhausted, any other unpaired surrogate illegal |
| UnicodeErrors.StrictAnswersExactly | libuzi/unicode.c:151-195 | and these are all the sources called exhausted, or illegal |
| UnicodeErrors.LenientSpellsOut | libuzi/unicode.c:156-219 | lenient conversion writes each code point in the form of RFC 3629, unpaired surrogates included, up to a high surrogate that comes last |
| UnicodeErrors.LenientAnswersExactly | libuzi/unicode.c:156-195 | it never calls a source illegal, and exhausted exactly when the last unit is a high surrogate |
| UnicodeErrors.Answers8 | libuzi/unicode.c:382-404 | conversion to UTF-16 stops behind the accepted sequences with their text converted; exhausted if fewer bytes are left than the leading ones of the next announce, illegal if those are not accepted |
| UnicodeErrors.AnswersExactly8 | libuzi/unicode.c:382-404 | and these are all the sources called exhausted, or illegal |
| UnicodeErrors.CutTextIsExhausted | libuzi/unicode.c:382-393 | well-formed UTF-8 cut off inside a character is exhausted, with all whole characters converted |
| UziUnicode.UziUtf16toUtf8 | libuzi/unicode.c:561-593 | for every text: with -1 and a terminator, whatever follows, the call returns the length of its UTF-8 form plus one and a large enough target starts with that form and a zero; with a count the same without the zero; a smaller non-empty target gets 0, as does a source that does not convert |
| UziUnicode.UziUtf8toUtf16 | libuzi/unicode.c:527-559 | the same in the other direction |
| UziUnicode.Terminated16 | libuzi/unicode.c:570-571 | with -1 what is converted is the text and its terminator, and no unit behind it |
| UziUnicode.Terminated8 | libuzi/unicode.c:536-537 | the same in the other direction |
| UziUnicode.WcsLen | libuzi/unicode.c:514-525 | the number of units before the first zero |
| Timespec.TsAddMs | libuzi/wait.c:183-189 | exact and normalised for every number of milliseconds |
| Timespec.AddMsExactly | libuzi/timer.c:397-402 | exact if and only if the milliseconds are at most 4294 |
| Timespec.OrdersExactly | libuzi/timer.c:420-426 | exactly which pairs of times compare right |
| Timespec.OrdersWithinExactly | libuzi/timer.c:420-426 | all pairs up to a distance compare right exactly when that is below 2^31 seconds |
| TimerQueues.LosesNodeExactly | libuzi/timer.c:445-462 | inserting into a sorted queue drops a timer exactly when the time is strictly inside and no timer's own |
| TimerQueues.LosesNode | libuzi/timer.c:458-462 | between 0 s and 2 s a timer for 1 s takes the place of the second |
| TimerQueues.InsertKeepsExactly | libuzi/timer.c:434-468 | the queue stays sorted with all its timers exactly when the new time is not before the last |
| TimerQueues.InsertTimerQueueTimer | libuzi/timer.c:434-468 | in any queue: if the comparisons put the time between neighbours, the second of the first two such gives its place to the timer and all others keep theirs; otherwise the timer comes last and none goes |
| TimerQueues.RemoveTimerQueueTimer | libuzi/timer.c:470-507 | the list without the timer and with all others in order, the timer unlinked; unchanged if it was not there |
| TimerQueues.InsertedPutsIn | libuzi/timer.c:447-467 | the same of the queue as a value |
| TimerQueues.FirableEnds | libuzi/timer.c:520-545 | firing ends, after one pass for every callback, whenever the timers are near the current time and no period is a multiple of 67108864 ms but 0; any order, any mix |
| TimerQueues.SortedQueueEndsExactly | libuzi/timer.c:520-545 | in a sorted queue with a common period firing ends exactly when that is no multiple of 67108864 ms, or is nobody's, or some timer is pending |
| TimerQueues.StuckBehindPending | libuzi/timer.c:529-533 | with another timer pending, a timer with such a period is called once and put behind it, out of order |
| TimerQueues.CommonPeriodEndsExactly | libuzi/timer.c:520-545 | with all timers due, in any order, and a common period firing ends exactly when that is no multiple of 67108864 ms, or is nobody's |
| TimerQueues.MixedQueueCanHang | libuzi/timer.c:458-462 | three due timers in order, one of them with a period of 4 s, that are fired for ever once that one is dropped |
| TimerQueues.OneTimerEndsExactly | libuzi/timer.c:397-402 | with one timer firing ends exactly when it is not due, has no period, or one that is no such multiple |
| TimerQueues.StuckTimer | libuzi/timer.c:529-533 | a timer alone with a period of 67108864 ms that is fired for ever |
| TimerQueues.FiringOutcome | libuzi/timer.c:509-548 | in a regular queue every timer ends up fired floor((now-exp)/step)+1 times if due and not otherwise, moved on by as many steps, where the step is what the 32-bit product adds; no timer is lost, the queue is still sorted and within one step, and nothing is due |
| TimerQueues.AfterIsPromised | libuzi/timer.c:509-548 | for periods of up to 4294 ms the step is the period, so the count is floor((now-exp)/P)+1 |
| TimerQueues.FiresTooOften | libuzi/timer.c:397-402 | for longer periods a timer never fires less often, and at least twice within its first period once a step has passed |
| TimerQueues.FiresInOrder | libuzi/timer.c:509-548 | callbacks come in non-decreasing order of expiration and none early |
| TimerQueues.FiresExactly | libuzi/timer.c:522-543 | the callbacks made are exactly those each timer is owed, one per step |
| TimerQueues.TimerQueue.FireFirst | libuzi/timer.c:524-541 | one pass over the linked lists is one pass on the queue as a value, for any queue |
| TimerQueues.TimerQueue.FireExpiredTimerQueueTimers | libuzi/timer.c:509-548 | terminates on every queue of near timers whose periods are 0 or no multiple of 67108864 ms, with the queue and the callbacks that the passes add up to |
| Wait.WaitForMultipleObjects | libuzi/wait.c:302-512 | the loops over index map, flags and longest signalled prefix do what the plain account of rounds says, and the number returned: 0xFFFFFFFF for a bad count, with no poll or cleanup; for wait-any what WaitAnyCleansLowest says and for wait-all what the WaitAll rows say |
| Wait.WaitAllCleansOnce | libuzi/wait.c:453-505 | wait-all succeeds exactly when every handle has been cleaned, none is cleaned twice, and a refusal ends the call |
| Wait.WaitAllStory | libuzi/wait.c:363-505 | wait-all polls in each round exactly the handles not cleaned before, in order; every cleanup is of a handle that its round's poll reported ready; no round is left with a ready handle uncleaned |
| Wait.WaitAllAnswers | libuzi/wait.c:420-505 | it returns 0x102 if its last poll reports nothing, 0xFFFFFFFF if that fails or a handle still waited for cannot be used, the code of a refused cleanup, or else 0, and times out or fails for no other reason |
| Wait.PollsShrink | libuzi/wait.c:363-403 | wait-all never polls an empty list, and only handles it polled before |
| Wait.WaitAllPollBound | libuzi/wait.c:346-510 | nCount polls are enough if each reports a requested event |
| Wait.WaitAnyCleansLowest | libuzi/wait.c:346-510 | wait-any goes on while rounds are quiet; the first that is not decides: 0x102 if its poll reports nothing, 0xFFFFFFFF if the poll fails, a handle cannot be polled or one up to the lowest ready is no longer usable, else that handle alone is cleaned and its index is returned, or the cleanup's own code if that is not 0 |
| Wait.Advance | libuzi/wait.c:489-494 | `signalled` is the longest signalled prefix |
| DoublyLinkedList.LinksAreInverse | libuzi/interlocked.c:335-414 | Flink and Blink are each other's inverse around the ring |
| DoublyLinkedList.InitializeListHead | libuzi/interlocked.c:335-338 | the head is a ring of its own |
| DoublyLinkedList.IsListEmpty | libuzi/interlocked.c:340-343 | TRUE exactly for a head alone |
| DoublyLinkedList.RemoveEntryList | libuzi/interlocked.c:345-356 | the ring without the node, all others in order, TRUE exactly when one node remains |
| DoublyLinkedList.InsertHeadList | libuzi/interlocked.c:358-367 | the entry comes right behind the head |
| DoublyLinkedList.RemoveHeadList | libuzi/interlocked.c:369-380 | the first entry is taken out and returned |
| DoublyLinkedList.InsertTailList | libuzi/interlocked.c:382-391 | the entry comes last |
| DoublyLinkedList.RemoveTailList | libuzi/interlocked.c:393-404 | the last entry is taken out and returned |
| DoublyLinkedList.AppendTailList | libuzi/interlocked.c:406-414 | a headless ring of any length is spliced in at the end, in order |
| Alignment.BlockFits | libuzi/alignment.c:87-95 | for every even alignment header and block lie inside the raw block |
| Alignment.PlaceIsAligned | libuzi/alignment.c:92 | pointer plus offset is a multiple of an alignment that is a power of two |
| Alignment.EffectiveIsEnough | libuzi/alignment.c:81-83 | with the alignment raised to a pointer's size, pointer plus offset is a multiple of the one asked for, if a power of two, and of 8 |
| Alignment.HeaderReadsBack | libuzi/alignment.c:93-96 | the three header fields read back as written and nothing else is touched |
| Alignment.WriteKeeps | libuzi/alignment.c:92-96 | writing inside a block touches no header and no other block |
| Alignment.Heap.AlignedOffsetMalloc | libuzi/alignment.c:70-100 | NULL exactly for an odd alignment, an offset not below the size, or no memory; otherwise one new raw block with an intact header, pointer plus offset a multiple of the alignment asked for and of 8 if that is a power of two, all other blocks as they were |
| Alignment.Heap.AlignedOffsetRealloc | libuzi/alignment.c:102-135 | keeps the first min(old, new) bytes, leaves one raw block for the allocation, or leaves everything alone |
| Alignment.Heap.AlignedFree | libuzi/alignment.c:196-211 | the raw block is freed at its true base, and nothing else |
| Alignment.Heap.AlignedMsize | libuzi/alignment.c:179-194 | the size asked for |

## Left out

- The four concurrent protocols are step functions on values, because a method cannot express interleaving: each access to a shared field is one step, but one section, list, barrier or control word is looked at in isolation, and weaker memory orders are not captured.
- SList on 64-bit pointers, where Depth and Sequence lie outside the swapped word, and freeing nodes that a pop still reads.
- `InterlockedPushListSListEx`, which is empty.
- `DeleteCriticalSection` and `winpr_DeleteSynchronizationBarrier`.
- Finite time limits in wait-all (`libuzi/wait.c:438-447`), where the time difference is taken with its operands reversed and in other units; the `select` variant of polling; retries of an interrupted poll are part of the poll's answer.
- Wait.WaitForMultipleObjects: follows the call for a number of rounds, any number, and answers Pending beyond that, because an unlimited wait need not end.
- Outcome, order and callbacks for queues of mixed periods, after `ChangeTimerQueueTimer` and in the list move of `DeleteTimerQueueEx`: the insertion does not keep order or membership there, as stated by InsertKeepsExactly. That firing ends is covered for mixed periods (FirableEnds).
- TimerQueues.TimerQueue.FireExpiredTimerQueueTimers: asks that timers are within 2^30 seconds of the current time and that no period is a multiple of 67108864 ms but 0, because firing need not end for such a period (StuckTimer). For queues with such a period, when firing ends is stated for a common period in sorted order or with all timers due, not for such a period mixed with others, where it depends on which timers are dropped (MixedQueueCanHang). A callback's own effects, and locking, are not part of it.
- The FireCount of a timer is not cut down to an int.
- `_aligned_offset_recalloc`, which returns its null argument for a null block, and sizes that wrap around.
- `libuzi/dictionary.c`: searches and updates of one linked list that would add only easy members.
- `libuzi/thread.c`, file, socket, library and system information wrappers, and the event, mutex and semaphore system calls behind the abstract ones used here.
