# Models of Synergy's core, with proofs

This project models the platform-independent core of Synergy, the mouse and keyboard sharing
utility, in Dafny 4.11 and proves what its parts promise. `dafny verify dfyconfig.toml` checks
everything.

| files | what they model |
|---|---|
| `EventStore`, `EventMachine`, `TimerMachine`, `EventQueue`, `PriorityQueue`, `Stopwatch` | the event queue: recycled ids, the buffer, parked events, handlers, and the heap of timers |
| `Utf8`, `Unicode`, `ArchString` | the Unicode codecs and the conversion to and from the locale |
| `ClientMachine`, `ClipboardHistory`, `Client` | the connection of a client and its clipboards |
| `StringFormat` | the positional formatter |
| `Grid`, `ScreenList`, `ServerConfig` | the grid of screens, its links and where a new screen goes |
| `Options` | the option type |

**The event queue.** Events lie in a table under recycled ids; only ids travel through the
buffer. `EventMachine` is the state machine whose steps are the locked sections of the source, so
its runs are all interleavings of threads that add events with the one thread that takes them.
Its theorems: events are delivered in the order in which they were accepted, an id on its way
always has its event, the id handed out next is free, and the data of an event is in exactly one
place until it is released, at most once. The class `EventQueue` is proved to take these steps.
Timers are a heap of remaining times, decremented in place at each check; `TimerMachine` is what
the heap stands for, a map from timer to absolute deadline, and the timer methods are proved to
be its steps. The clock is a parameter of each operation, and its readings are reals.

**The codecs.** `Encode` and `Decode` follow the table of section 2 of RFC 2279, in its six-octet
form; the source's branch-by-branch loops are proved equal to them. The round trips are stated as
equivalences: a conversion there and back returns the input exactly when a condition on the input
holds.

**The client.** Everything the client does happens in handlers that run only while they are
registered, so its assertions hold because of what is in the handler table. `ClientMachine` is
the connection without the table; in `Client`, the table, the pointers and the flags are proved to
be determined by the phase between any two operations. Whether an attempt to connect succeeds,
what the server's greeting says and what the screen has on its clipboard are parameters. The
server proxy takes over the input of the stream when it is made, and new streams and timers have
fresh addresses.

Lemmas that spell out a specification function case by case, with the constants of the source,
stand beside it: their names say Outcome, or what the case is.

## Where code and documentation differ

The models follow the code. These differences are stated as lemmas or contracts.

- `src/lib/base/Unicode.cpp:497` reads the second unit of a surrogate pair before the position is
  advanced, so it reads the first unit again and no pair is ever joined. `ReadUtf16` has the
  place of the second unit as a parameter: `AS_WRITTEN` is the code, `AS_INTENDED` a corrected
  variant that the code does not have. `AsWrittenIsRightIff` says when the code is right, and
  `PairIsLost` gives the first character that is lost.
- `src/lib/base/Unicode.cpp:437` and `:538` compare with 0x0000fffe, which is not the swapped form
  of 0x0000feff, so swapped 32-bit data is not recognised (`SwappedMarkReported32`).
- `toUTF8` writes U+FFFE and U+FFFF, which `fromUTF8` and `isUTF8` refuse (`OutputIsUtf8Iff`), and
  every reader takes a leading U+FEFF for a byte order mark.
- The error flag of `UTF8ToText` is documented for characters that could not be encoded and not for
  decoding errors (`Unicode.h:76-78`). The code loses the error of its first half (`FlagLost`), and
  it reports the U+FFFD that stands for malformed input when the locale lacks that
  (`FlagForDecodingError`). `FlagIsRightFor` and `FlagIsRightIff` say when the flag is right.
- `IEventQueue.h:130` says that the count of a one-shot timer is always 1; it is exactly when the
  event is taken less than one timeout late (`CountIsOneIff`).
- `Stopwatch.h:75-76` says that `getTime` resets the watch and returns zero if the trigger is set;
  it returns what the watch has run since it was reset (`ZeroIffStoodStill`, `TriggeredReading`).
- With encryption, the handler registered at `src/lib/client/Client.cpp:482` is never removed. An
  announcement that waits behind a suspend fails an assertion at once, and one beside a server does
  so at the next hello (`LateAnnouncement`, `SecondAnnouncement`). One about an older stream is
  taken for the present attempt (`StaleAnnouncement`).
- `%{}`, `%{0}` and `%{-0}` format as a per cent sign and `%{ 1}` and `%{+1}` as the first argument,
  although indexes are documented to be positive integers (`ElementIsDocumentedIff`).
- A lead octet that announces more octets than are left takes everything that is left with it,
  `src/lib/base/Unicode.cpp:612-616` (`ResynchronisesIff`, `CutOffLeadSwallows`).
- `textToUTF8` reads the array of wchar_t in the encoding requested without regard to its size.
  `src/test/unittests/base/UnicodeTests.cpp:47` records what comes of it (`RequestIsRightIff`).
- The scan of `setOptions` takes the values of other options for keys, and a clipboard option that
  comes last as a key, such as a lone one, leads it past the end (`ScanPassesEndIff`).
- The numbers of columns and rows are read from the settings (`src/gui/src/ServerConfig.cpp:190-191`)
  while the list keeps its width and the walk its offsets, both of five columns. With another number
  of columns a client may go elsewhere than beside the server (`WidthsAgreeIff`,
  `PlacementIsDocumentedIff`, `FourColumns`, `NotLinkedToServer`), and the walk up or down goes
  astray or leaves the list (`WalkIsRightIff`). In a list whose last row is short by its own width,
  a free corner may be passed over (`PriorityIsAsDocumentedIff`).
- An event added while the loop still moves parked events overtakes them (`OvertakesParked`).

## Model

| member | source | states |
|---|---|---|
| `EventStore.NewIdIsFree` | src/lib/base/EventQueue.cpp:449-467 | `saveEvent` never overwrites a live event, whether it reuses an id or makes a new one |
| `EventStore.SaveKeeps` | src/lib/base/EventQueue.cpp:449-467 | saving keeps ids in use and free ids disjoint, free of duplicates and together exactly 0..k-1, and adds one event |
| `EventStore.RemoveKeeps` | src/lib/base/EventQueue.cpp:469-486 | so does removing, for any id |
| `EventStore.PostAppends` | src/lib/base/EventQueue.cpp:303-317 | posting appends one event to the FIFO the tables stand for, or leaves it alone when the buffer refuses |
| `EventStore.FetchKeeps` | src/lib/base/EventQueue.cpp:233-235 | taking an id out of the buffer does not change what is to be delivered |
| `EventStore.TakePops` | src/lib/base/EventQueue.cpp:249-254 | the fetched id is found in the table, its event is the oldest, and it alone leaves |
| `EventStore.ReleasedOf` | src/lib/base/Event.cpp:86-103 | what `deleteData` releases, address by address: nothing for the four built-in kinds or with the flag against it, otherwise the data and the data object unless null |
| `EventStore.ReleasedOfTable` | src/lib/base/EventQueue.cpp:175-201 | releasing everything in a table releases each address as often as events with leave to release it hold it as data or as data object |
| `EventStore.IdsAreRecycledLastFirst` | src/lib/base/EventQueue.cpp:449-486 | an id given back is the next to be given out and then leaves the free list as it was; without a free id the number of events is the next |
| `EventMachine.NextKeepsFifo` | src/lib/base/EventQueue.cpp:277-317 | every atomic step, in any order, keeps: accepted events are the delivered ones followed by those to come |
| `EventMachine.NextKeepsConserved` | src/lib/base/EventQueue.cpp:175-201 | every step keeps: each address handed over is parked, in the table, being dispatched or released, counted with multiplicity |
| `EventMachine.AddEventOutcome` | src/lib/base/EventQueue.cpp:277-317 | kUnknown, kSystem and kTimer change nothing; any other event goes to the front of those running if immediate, to the end of those parked before the loop is ready, and else under an id at the end of the buffer, or is released if that refuses it, a quit event releasing nothing |
| `EventMachine.DispatchedOutcome` | src/lib/base/Event.cpp:86-103 | exactly one event stops running, and exactly its own data is released, if its kind and flags allow that |
| `EventMachine.AdoptOutcome` | src/lib/base/EventQueue.cpp:175-201 | a new buffer starts with an empty table and free list, parked and running events stay, and each address is released as often as the table held it |
| `EventMachine.RunsAreFifo` | src/lib/base/EventQueue.cpp:204-260 | over every run delivery order is acceptance order, no fetched id is missing from the table, and the id allocator is intact |
| `EventMachine.RunsReleaseOnce` | src/lib/base/Event.cpp:86-103 | over every run, with dispatch inside dispatch, events dispatched on several threads that end in any order, and changes of buffer, event data is released at most once and only if it was handed over |
| `EventMachine.OvertakesParked` | src/lib/base/EventQueue.cpp:112-124 | between ready flag and drain, the order of the calls survives if and only if all parked events equal the new one |
| `EventMachine.AdoptIsSafeIff` | src/lib/base/EventQueue.cpp:175-201 | adopting a buffer keeps any sound queue sound if and only if no fetched id is waiting for its event |
| `EventMachine.AdoptInsideGetBreaks` | src/lib/base/EventQueue.cpp:175-201 | what goes wrong otherwise: a recycled id delivers the wrong event and its own id stays behind |
| `EventQueues.SimpleEventQueueBuffer.AddEvent` | src/lib/base/SimpleEventQueueBuffer.cpp:72-82 | an id goes in at the front and the ready flag says whether there are any |
| `EventQueues.SimpleEventQueueBuffer.GetEvent` | src/lib/base/SimpleEventQueueBuffer.cpp:59-70 | the id at the back comes out, nothing if there is none |
| `EventQueues.EventQueue.AddEventToBuffer` | src/lib/base/EventQueue.cpp:303-317 | the fields change as the machine's posting does, and a refused event is taken back and released |
| `EventQueues.EventQueue.AddEvent` | src/lib/base/EventQueue.cpp:277-301 | is the machine's step: kinds 0, 2 and 3 change nothing; an immediate event runs now, with the job returned; one before the loop is ready is parked last; any other is posted last or, when refused, its data released, unless it is a quit event or keeps its data |
| `EventQueues.EventQueue.BeginLoop` | src/lib/base/EventQueue.cpp:110-124 | ready first, then every parked event posted, each as one step of the machine |
| `EventQueues.DrainAllPosts` | src/lib/base/EventQueue.cpp:119-124 | when the buffer takes them, exactly the parked events are accepted, in their order |
| `EventQueues.DrainAllIsRun` | src/lib/base/EventQueue.cpp:119-124 | the drain is a run of as many steps as events were parked |
| `EventQueues.EventQueue.TakeEvent` | src/lib/base/EventQueue.cpp:249-254 | the event delivered is the head of the FIFO |
| `EventQueues.EventQueue.AdoptBuffer` | src/lib/base/EventQueue.cpp:175-201 | each address is released as often as the table holds it as data or data object with leave to release it, in whatever order the table is walked; the queue is empty, and parked and running events stay |
| `EventQueues.EventQueue.FinishDispatch` | src/lib/base/EventQueue.cpp:128-132 | after the handler of any of the running events, what is released is nothing for kinds 0 to 3 and for data to be kept, and otherwise the data and the data object unless null; the other running events stay |
| `EventQueues.EventQueue.PollEvent` | src/lib/base/EventQueue.cpp:204-235 | a waiting event goes before a due timer; a timer event has kind 3, the queue's own data, no flags and the target of its timer; the call times out only when nothing is due; the wait, reckoned from the check of the timers, ends exactly at the first of the caller's timeout and the earliest deadline |
| `EventQueues.PollOutcome` | src/lib/base/EventQueue.cpp:204-235 | what each answer means for the buffer, the timers and the clock: the oldest id if there is one; else a timer whose deadline has passed; a wait that passes neither the caller's time nor any deadline and ends at one of them; for ever only if there is neither |
| `EventQueues.WaitEndsLate` | src/lib/base/EventQueue.cpp:219-230 | begun later than that check, the wait ends at most the delay past the earliest deadline, and exactly that much when a timer sets its end, so it is on time if and only if there is no delay |
| `EventQueues.EventQueue.TimeToWait` | src/lib/base/EventQueue.cpp:215-230 | the wait ends exactly at the first of the caller's timeout and the earliest deadline, or never if there is neither |
| `EventQueues.EventQueue.AdoptHandler` | src/lib/base/EventQueue.cpp:375-382 | one entry changes and its old job is the one deleted; the new job is then found for events of its kind and, when it is for every kind, for those without a job of their own, and no other event finds another job |
| `EventQueues.EventQueue.RemoveHandler` | src/lib/base/EventQueue.cpp:384-401 | one entry goes; events of its kind fall back on the job for every kind, and no other event finds another job, unless that job is the one removed |
| `EventQueues.EventQueue.RemoveHandlers` | src/lib/base/EventQueue.cpp:403-426 | every job of the target is deleted once, its events find none, and no event of another target is affected |
| `EventQueues.EventQueue.NewTimer` | src/lib/base/EventQueue.cpp:319-355 | the duration plus the stopwatch's reading makes an entry whose deadline is now plus the duration |
| `EventQueues.EventQueue.DeleteTimer` | src/lib/base/EventQueue.cpp:357-373 | exactly the timer's entry, if it still has one, leaves the heap, and no other deadline moves |
| `EventQueues.EventQueue.CountDown` | src/lib/base/EventQueue.cpp:498-506 | decrementing every entry in place keeps the heap and all deadlines |
| `EventQueues.EventQueue.HasTimerExpired` | src/lib/base/EventQueue.cpp:488-528 | if a timer fires it is due and has the earliest deadline, and only it is restarted or disarmed; if none does, none is due |
| `EventQueues.EventQueue.GetNextTimerTimeout` | src/lib/base/EventQueue.cpp:530-543 | -1 without timers, otherwise the least remaining time, zero when it has passed |
| `EventQueues.OneEntryPerTimer` | src/lib/base/EventQueue.cpp:488-528 | in every state that keeps the timer invariant no timer has two entries, a deleted one none, and a recurring one exactly one |
| `EventQueues.TracksCountdown` | src/lib/base/EventQueue.cpp:502-506 | subtracting the elapsed time from every entry moves the time of the last check and no deadline |
| `EventQueues.TopFires` | src/lib/base/EventQueue.cpp:508-527 | taking the expired top out and putting it back with its full period is the firing of the timer due first |
| `EventQueues.PeriodsFit` | src/lib/base/EventQueue.cpp:631-639 | the count n of a timer event satisfies n*timeout <= timeout - remaining < (n+1)*timeout |
| `EventQueues.WaitsForTop` | src/lib/base/EventQueue.cpp:219-227 | the least remaining time against the caller's gives the exact end of the wait |
| `TimerMachine.NoEventAfterDelete` | src/lib/base/EventQueue.cpp:357-373 | after a timer is deleted no later event carries it |
| `TimerMachine.EventsAreDue` | src/lib/base/EventQueue.cpp:508-511 | over every run no timer fires before a full timeout has passed since it was created or last fired, and every count is at least 1 |
| `TimerMachine.CountdownTally` | src/lib/base/EventQueue.cpp:595-599 | over every run the counts of a timer's events add up to the periods since its creation, less at most one period per event |
| `TimerMachine.CountIsOneIff` | src/lib/base/EventQueue.cpp:631-639 | the count is 1 if and only if the event is taken less than one timeout late |
| `TimerMachine.ArmedUntilFired` | src/lib/base/EventQueue.cpp:513-527 | over every run a recurring timer stays armed until deleted, and a one-shot has at most one event and is armed exactly until then |
| `TimerMachine.AsCreated` | src/lib/base/EventQueue.cpp:319-355 | over every run a timer has the timeout, target and kind of its last creation, being its own target if that was null |
| `PriorityQueues.RootIsLeast` | src/lib/base/PriorityQueue.h:116-119 | the front of a heap is its least element |
| `PriorityQueues.ShiftKeepsHeap` | src/lib/base/EventQueue.cpp:503-506 | subtracting one number from every key through the iterator keeps the heap |
| `PriorityQueues.PriorityQueue.Push` | src/lib/base/PriorityQueue.h:54-58 | keeps the heap and adds one element |
| `PriorityQueues.PriorityQueue.Pop` | src/lib/base/PriorityQueue.h:61-65 | keeps the heap and removes its front element only |
| `PriorityQueues.PriorityQueue.Erase` | src/lib/base/PriorityQueue.h:68-72 | removes the addressed element only and makes a heap of the rest |
| `PriorityQueues.PriorityQueue.SwapContainer` | src/lib/base/PriorityQueue.h:93-97 | gives the old elements away and makes a heap of the new ones |
| `PriorityQueues.PriorityQueue.Top` | src/lib/base/PriorityQueue.h:116-119 | no element is less |
| `PriorityQueues.SinkStep` | src/lib/base/PriorityQueue.h:61-72 | one step of sifting down keeps everything in order but the sinking element |
| `PriorityQueues.RiseStep` | src/lib/base/PriorityQueue.h:54-58 | one step of sifting up keeps everything in order but the rising element |
| `Stopwatches.RunningTimeNonNegative` | src/lib/base/Stopwatch.cpp:89-103 | under a clock that never goes back no reading is negative |
| `Stopwatches.RunningTimeLinear` | src/lib/base/Stopwatch.cpp:115-125 | between operations a reading grows with the clock exactly while the watch runs |
| `Stopwatches.Stopwatch.Reset` | src/lib/base/Stopwatch.cpp:41-55 | returns the time run since the last reset and starts counting anew; a stopped watch stays stopped |
| `Stopwatches.Stopwatch.Stop` | src/lib/base/Stopwatch.cpp:57-67 | the time run so far is kept, once |
| `Stopwatches.Stopwatch.Start` | src/lib/base/Stopwatch.cpp:69-80 | counting goes on from the time run so far, and the trigger is gone |
| `Stopwatches.Stopwatch.SetTrigger` | src/lib/base/Stopwatch.cpp:82-87 | a set trigger implies a stopped watch |
| `Stopwatches.Stopwatch.GetTime` | src/lib/base/Stopwatch.cpp:89-103 | is the total time run since the last reset over any sequence of operations, with the trigger set or not, and zero exactly when the watch stood still; a set trigger starts the watch and resets nothing |
| `Stopwatches.Stopwatch.PeekTime` | src/lib/base/Stopwatch.cpp:115-125 | the same number without starting the watch |
| `Stopwatches.ZeroIffStoodStill` | src/lib/base/Stopwatch.cpp:89-103 | under a clock that never goes back, a reading is zero if and only if every interval in which the watch ran since it was last zeroed has length zero |
| `Stopwatches.TriggeredReading` | src/lib/base/Stopwatch.cpp:89-95 | `getTime` of a watch with its trigger set shows what the watch ran before |
| `Utf8.DecodeOfEncode` | src/lib/base/Unicode.cpp:563-736 | the encoding of any 31-bit number, followed by any octets, is consumed exactly and leaves those octets; the number comes back if and only if it is no surrogate, U+FFFE or U+FFFF |
| `Utf8.EncodeOfDecode` | src/lib/base/Unicode.cpp:563-736 | if decoding succeeds, the octets consumed are the one encoding of the character, so no longer form is accepted |
| `Utf8.ResynchronisesIff` | src/lib/base/Unicode.cpp:611-616 | no octet that could begin a character is swallowed if and only if the announced size fits into what is left or nothing left could begin one |
| `Utf8.CutOffLeadSwallows` | src/lib/base/Unicode.cpp:611-616 | a lead octet cut off at the end takes the letters after it with it |
| `Utf8.TruncatedIsOne` | src/lib/base/Unicode.cpp:665-711 | a sequence broken by an octet that does not continue it is one malformed character, up to that octet |
| `Utf8.CutOffIsOne` | src/lib/base/Unicode.cpp:611-616 | a sequence that announces more than is left is one malformed character, to the end |
| `Utf8.NoLeadIsOne` | src/lib/base/Unicode.cpp:563-609 | an octet that announces nothing, 0x80 to 0xbf, 0xfe or 0xff, is one malformed character by itself |
| `Utf8.CompleteIsWhole` | src/lib/base/Unicode.cpp:704-735 | a complete sequence is consumed whole; it is malformed if and only if its value fits fewer octets, is a surrogate, U+FFFE or U+FFFF, and otherwise stands for its value |
| `Utf8.OctetsOfEncoding` | src/lib/base/Unicode.cpp:748-791 | the octets of the encoding in each of its six lengths |
| `Utf8.DecodeAllOfEncodeAll` | src/lib/base/Unicode.cpp:563-792 | whole strings: reading what was written returns every character and refuses anything else in place |
| `Utf8.EncodeAllOfDecodeAll` | src/lib/base/Unicode.cpp:563-792 | whole strings: encoding inverts decoding of what is well formed |
| `Utf8.WellFormedIffEncoded` | src/lib/base/Unicode.cpp:100-111 | a string passes `isUTF8` if and only if it is the encoding of characters |
| `Utf8.EncodesExactly` | src/lib/base/Unicode.cpp:738-792 | encoding given characters gives a string exactly when that is well formed and decodes to them |
| `Utf8.WrittenIsWellFormedIff` | src/lib/base/Unicode.cpp:738-792 | what `toUTF8` writes is valid UTF-8 if and only if only characters are written |
| `Utf8.FromUTF8` | src/lib/base/Unicode.cpp:563-736 | the branches of `fromUTF8`, its overlong tests and its search for the next character compute the decoding by the RFC's table, of which `TruncatedIsOne`, `CutOffIsOne`, `NoLeadIsOne` and `CompleteIsWhole` give every case |
| `Utf8.ToUTF8` | src/lib/base/Unicode.cpp:738-792 | the branches of `toUTF8` write the encoding, and report what they replace |
| `Unicode.IsUTF8` | src/lib/base/Unicode.cpp:100-111 | true if and only if no stretch of the string is malformed |
| `Unicode.UTF8ToUCS2` | src/lib/base/Unicode.cpp:113-140 | repaired characters as 16-bit units; an error if and only if some character is 0x10000 or above |
| `Unicode.UTF8ToUCS4` | src/lib/base/Unicode.cpp:142-164 | repaired characters as 32-bit units, never an error |
| `Unicode.UTF8ToUTF16` | src/lib/base/Unicode.cpp:166-202 | UTF-16 of the repaired characters; an error if and only if some character is 0x110000 or above |
| `Unicode.UTF8ToUTF32` | src/lib/base/Unicode.cpp:204-230 | repaired characters as 32-bit units; an error if and only if some character is 0x110000 or above |
| `Unicode.UCS2ToUTF8` | src/lib/base/Unicode.cpp:384-419 | the units after the mark, in its byte order, encoded; an error if and only if one had to be replaced |
| `Unicode.UCS4ToUTF8` | src/lib/base/Unicode.cpp:421-456 | the same for 32-bit units |
| `Unicode.UTF16ToUTF8` | src/lib/base/Unicode.cpp:458-520 | the reading of the units as the code does it, second unit included, with its errors |
| `Unicode.UTF32ToUTF8` | src/lib/base/Unicode.cpp:522-561 | the units after the mark, those from 0x110000 on replaced and reported |
| `Unicode.FirstUnit16` | src/lib/base/Unicode.cpp:113-140 | each character, or U+FFFD for one that is malformed or from 0x10000 on, becomes two octets, low one first, and the rest follows |
| `Unicode.FirstUnit32` | src/lib/base/Unicode.cpp:142-164 | the same with four octets and the limits 0x80000000 for UCS-4 and 0x110000 for UTF-32 |
| `Unicode.FirstOfUtf16` | src/lib/base/Unicode.cpp:166-202 | the same with the limit 0x110000 and the one or two units of the character |
| `Unicode.PairOf` | src/lib/base/Unicode.cpp:183-195 | a character from 0x10000 on becomes a high surrogate with its upper ten bits and a low one with the lower ten |
| `Unicode.UnitsRead` | src/lib/base/Unicode.cpp:462-478 | units of two and four octets in host order and swapped, and what is too short for a unit |
| `Unicode.MarksRead` | src/lib/base/Unicode.cpp:387-446 | the octets taken for a byte order mark, and the byte order each stands for |
| `Unicode.NoMark` | src/lib/base/Unicode.cpp:387-446 | nothing else is taken for a mark |
| `Unicode.TurnAsWritten` | src/lib/base/Unicode.cpp:485-517 | a unit that is no surrogate is a character; a high surrogate takes the next unit with it and is an error in any case, as is a low one |
| `Unicode.Ucs4RoundTrip` | src/lib/base/Unicode.cpp:142-164 | to UCS-4 and back is the identity if and only if the string is well formed and does not begin with U+FEFF, over all 31 bits, without error |
| `Unicode.Utf32RoundTrip` | src/lib/base/Unicode.cpp:204-230 | to UTF-32 and back is the identity if and only if, besides, all characters are below 0x110000 |
| `Unicode.Ucs2RoundTrip` | src/lib/base/Unicode.cpp:113-140 | to UCS-2 and back is the identity if and only if, besides, all characters are below 0x10000 |
| `Unicode.Utf16OutputWellFormed` | src/lib/base/Unicode.cpp:166-202 | every octet string converts to UTF-16 in which every surrogate is paired |
| `Unicode.Utf16RoundTripAsWritten` | src/lib/base/Unicode.cpp:458-520 | to UTF-16 and back, as written, is the identity if and only if the string is well formed, within 16 bits and without leading U+FEFF |
| `Unicode.Utf16RoundTripAsIntended` | src/lib/base/Unicode.cpp:480-510 | with the second unit read one place later it would be the identity up to 0x10ffff |
| `Unicode.AsWrittenErrsIff` | src/lib/base/Unicode.cpp:480-510 | whatever the units, an error is reported if and only if there is a surrogate, paired or not |
| `Unicode.AsIntendedErrsIff` | src/lib/base/Unicode.cpp:480-510 | with the second unit read one place later it would be if and only if a surrogate is unpaired |
| `Unicode.AsWrittenIsRightIff` | src/lib/base/Unicode.cpp:480-510 | well-formed UTF-16 is read as it should be if and only if it has no surrogate |
| `Unicode.PairIsLost` | src/lib/base/Unicode.cpp:497 | U+10000 is the first character lost |
| `Unicode.ByteOrderIsImmaterial16` | src/lib/base/Unicode.cpp:462-478 | swapping every pair of octets behind a mark changes nothing in what is read |
| `Unicode.SwappedMarkReported32` | src/lib/base/Unicode.cpp:426-442 | swapped 32-bit data behind a swapped mark is not recognised: its mark is read as a character and reported |
| `Unicode.OutputIsUtf8Iff` | src/lib/base/Unicode.cpp:738-747 | whatever units are read, what is written for them passes `isUTF8` if and only if none is U+FFFE or U+FFFF |
| `Unicode.RepairIsIdentityIff` | src/lib/base/Unicode.cpp:113-230 | replacing what is malformed or too big and dropping a mark leaves a string alone exactly when it has none of these |
| `ArchString.MeasureWCToMB` | src/lib/arch/IArchString.cpp:59-75 | the pass without destination returns the length of the text, for any stateless locale |
| `ArchString.WriteWCToMB` | src/lib/arch/IArchString.cpp:76-96 | the writing pass writes that text, returns the same length and error, and stays inside length plus one |
| `ArchString.MeasureMBToWC` | src/lib/arch/IArchString.cpp:121-156 | the pass without destination returns the number of wide characters; the loop ends |
| `ArchString.WriteMBToWC` | src/lib/arch/IArchString.cpp:157-194 | the writing pass writes exactly those, with the same error |
| `ArchString.LocaleOutcomes` | src/lib/arch/IArchString.cpp:41-198 | the text is that of each wide character, a question mark where the locale has none; octets that cannot be read become U+FFFD one at a time, and all that is left does when incomplete |
| `ArchString.UTF8ToText` | src/lib/base/Unicode.cpp:232-253 | the text fits the allocated buffer; the error is that of the second half alone |
| `ArchString.TextToUTF8` | src/lib/base/Unicode.cpp:299-318 | the wide string fits its buffer, the text is that of the octets read from it in the encoding requested, whatever the size of wchar_t, and the error is that of both halves |
| `ArchString.WideCharToUTF8` | src/lib/base/Unicode.cpp:356-382 | as many units of the encoding requested, or of the platform's own if none is, are read as there are wide characters, from the octets these are stored in, and written with the error of that reading |
| `ArchString.RequestIsRightIff` | src/lib/base/Unicode.cpp:356-382 | a requested encoding gives the right text for every plain wide string if and only if its units have the size of wchar_t |
| `ArchString.RequestIsNativeIff` | src/lib/base/Unicode.cpp:356-382 | it gives what the platform's own gives for every wide string if and only if it is the platform's own |
| `ArchString.NarrowRequestReads` | src/lib/base/Unicode.cpp:356-382 | where wchar_t has four octets, a 16-bit request reads the two halves of each wide character of the first half of the string |
| `ArchString.HelloAsUcs2` | src/test/unittests/base/UnicodeTests.cpp:39-49 | so "hello" reads as "h", "e" and "l" with nulls in between |
| `ArchString.FlagIs` | src/lib/base/Unicode.cpp:232-253 | the error flag of `UTF8ToText` in terms of the characters read: one that fits is lacking, or U+FFFD is and something is malformed or too big |
| `ArchString.FlagIsRightFor` | src/lib/base/Unicode.h:73-79 | for each input, exactly when that is the documented flag, which counts the characters that could not be encoded and no decoding errors |
| `ArchString.FlagIsRightIff` | src/lib/base/Unicode.h:73-79 | the flag is the documented one for all inputs if and only if wide characters are UCS-4 and the locale has U+FFFD |
| `ArchString.FlagForDecodingError` | src/lib/base/Unicode.cpp:232-253 | the octet 0xff alone raises the flag where the locale lacks U+FFFD, although it is a decoding error |
| `ArchString.FlagLost` | src/lib/base/Unicode.cpp:232-253 | 0x110000 alone is lost without an error where the locale has U+FFFD and wide characters are not UCS-4 |
| `ArchString.TooBigLeavesReplacement` | src/lib/base/Unicode.cpp:320-354 | a character that does not fit the wide encoding leaves U+FFFD in the wide string |
| `ArchString.TextReadsBack` | src/lib/arch/IArchString.cpp:41-198 | for a locale whose functions undo each other, reading the text written returns the wide characters, with a question mark for each that the locale lacks |
| `ArchString.LocaleRoundTrip` | src/lib/base/Unicode.cpp:232-318 | on a platform with any of the four encodings and a locale whose functions undo each other and that has ASCII's question mark, UTF-8 to the locale and back is the identity if and only if the input is well formed, has no leading U+FEFF, no character beyond the encoding's limit and none that the locale lacks, with the exact error |
| `ArchString.MissingCharacterIsLost` | src/lib/base/Unicode.cpp:232-318 | U+00E9, where the locale lacks it, becomes a question mark for good |
| `ClientMachine.RunKeepsInv` | src/lib/client/Client.cpp:125-206 | over every run: ready only with a server, suspended only when idle, connect-on-resume only when suspended |
| `ClientMachine.ResumeReconnectsIff` | src/lib/client/Client.cpp:795-818 | over every run a resume connects if and only if there was a server at the suspend or `connect` was called since, and nothing took that back |
| `ClientMachine.DropIsReported` | src/lib/client/Client.cpp:651-694 | every step from a connection or an attempt to idle raises exactly one notice, except a refusal without a message, which raises none |
| `ClientMachine.LastNoticeTells` | src/lib/client/Client.cpp:208-214 | over every run without such a refusal, the last notice says whether the client is ready |
| `ClientMachine.SilentRefusalMisleads` | src/lib/client/Client.cpp:195-206 | such a refusal leaves the last notice saying connected |
| `Clients.DeliveredIsEnabled` | src/lib/client/Client.cpp:476-559 | whatever registered event is delivered, its handler is meant for the present phase, if and only if it is not a secure connection announced without a stream or beside a server |
| `Clients.HandlersTellPhase` | src/lib/client/Client.cpp:476-559 | the registered handlers determine the phase and the stream |
| `Clients.Registered` | src/lib/client/Client.cpp:476-634 | for each kind of event, exactly when it has a handler: in which phase, for which target and with which encryption setting |
| `Clients.SecondAnnouncement` | src/lib/client/Client.cpp:749-793 | with encryption, a second announcement on any client that is up is delivered; after it a hello fails the assertion of `setupScreen`, and any other input deletes the stream under the server |
| `Clients.LateAnnouncement` | src/lib/client/Client.cpp:498-501 | with encryption, an announcement that waits behind a suspend finds its handler on the idle client, and the assertion of `setupConnection` fails |
| `Clients.ResumedBesideOldStream` | src/lib/client/Client.cpp:795-818 | with encryption, a connection suspended and resumed has a new stream beside the old one's handler |
| `Clients.StaleAnnouncement` | src/lib/client/Client.cpp:636-649 | an announcement about an older stream is taken for the present attempt, which waits for a hello and has no handler for its failure any more |
| `Clients.Client.Connect` | src/lib/client/Client.cpp:125-180 | is the machine's step: ignored when there is a stream, remembered when suspended, undone and reported when it throws |
| `Clients.Client.Disconnect` | src/lib/client/Client.cpp:182-193 | everything set up is taken down from any phase, and one notice is raised |
| `Clients.Client.RefuseConnection` | src/lib/client/Client.cpp:195-206 | the same, with a notice only if there is a message |
| `Clients.Client.CompleteHandshake` | src/lib/client/Client.cpp:208-214 | the client is ready and says so |
| `Clients.Client.OnConnected` | src/lib/client/Client.cpp:636-649 | the assertion holds if and only if there is a stream; then the connecting handlers give way to those of a connection and all clipboard flags are reset, and beside a server the input goes back to the hello handler |
| `Clients.Client.OnConnectionFailed` | src/lib/client/Client.cpp:651-663 | back to idle with one failed notice |
| `Clients.Client.OnConnectTimeout` | src/lib/client/Client.cpp:665-674 | back to idle with one failed notice, from either phase that has the timer |
| `Clients.Client.OnConnectionLost` | src/lib/client/Client.cpp:676-694 | back to idle with one disconnected notice |
| `Clients.Client.OnHello` | src/lib/client/Client.cpp:749-793 | the assertion holds if and only if there is no server or the hello is refused; while one is awaited, a server proxy takes over and the timer goes, or the client is idle with one failed notice |
| `Clients.Client.OnSuspend` | src/lib/client/Client.cpp:795-805 | the machine's step, remembering whether there was a server |
| `Clients.Client.OnResume` | src/lib/client/Client.cpp:807-818 | the machine's step, connecting only if remembered |
| `Clients.Client.Dispatch` | src/lib/client/Client.cpp:636-818 | any event with a handler may come at any time and takes the step of its kind: suspend for the suspend event, resume for the resume event, and so on; the log grows by exactly what a connection or a grab adds; an assertion fails if and only if it announces a secure connection to an idle client, which needs encryption; the invariant holds after every other event but such an announcement beside a server; an announcement about whichever stream ends the handling of the present one's failure |
| `Clients.Client.SetupConnecting` | src/lib/client/Client.cpp:476-496 | adds exactly the handlers of an attempt |
| `Clients.Client.SetupConnection` | src/lib/client/Client.cpp:498-529 | adds exactly the six handlers of a connection |
| `Clients.Client.SetupScreen` | src/lib/client/Client.cpp:531-546 | adds the screen's handlers and hands the input of the stream to the proxy |
| `Clients.Client.CleanupConnection` | src/lib/client/Client.cpp:582-600 | removes exactly the six handlers of a connection and the stream |
| `Clients.Client.CleanupScreen` | src/lib/client/Client.cpp:602-617 | removes exactly the screen's handlers and the input's |
| `Clients.Client.SendClipboard` | src/lib/client/Client.cpp:410-448 | sends if and only if the contents are new, below the limit and unknown to the server; afterwards there is nothing left to send |
| `Clients.Client.Leave` | src/lib/client/Client.cpp:271-288 | exactly the owned clipboards with something to send are sent, in order, each once, and none has anything left to send |
| `Clients.Client.TakeClipboard` | src/lib/client/Client.cpp:290-304 | the server's set or grab ends ownership and clears what was sent |
| `Clients.Client.OnClipboardGrabbed` | src/lib/client/Client.cpp:703-726 | a grab here takes ownership and, if the pointer is elsewhere, sends at once, if it fits |
| `Clients.Client.SetOptions` | src/lib/client/Client.cpp:373-402 | the scan stays in the list if and only if an even number of clipboard options stands at its end; then the loop sets what it finds, and sharing is never on with a size limit of zero |
| `ClipboardHistory.ResentOnlyAfterClear` | src/lib/client/Client.cpp:441-446 | over a whole history, two successive sends of one clipboard with equal data have something between them that cleared it |
| `ClipboardHistory.SentOnlyWhileOwned` | src/lib/client/Client.cpp:278-285 | everything sent was grabbed here since connecting and not taken since, and is below the limit at the time |
| `ClipboardHistory.KnownSince` | src/lib/client/Client.cpp:441-446 | the sent flag stands for the data last sent until something clears it |
| `ClipboardHistory.ScanPassesEndIff` | src/lib/client/Client.cpp:376-393 | for any list, the scan steps past the end if and only if an odd number of clipboard options stands there |
| `ClipboardHistory.ValueTakenForKeyIff` | src/lib/client/Client.cpp:376-393 | in a list of pairs a value is taken for a key if and only if some other option has a clipboard option's code for its value; if none has, the scan sets what it should |
| `ClipboardHistory.CollisionsDiffer` | src/lib/client/Client.cpp:376-393 | such a value may do no harm, set the wrong thing or lead past the end |
| `ClipboardHistory.LoneKeyPassesEnd` | src/lib/client/Client.cpp:376-393 | a clipboard option as the only word leads past the end |
| `StringFormat.VFormat` | src/lib/base/String.cpp:49-128 | equals the substitution of elements from left to right, for every format and list of arguments; `ElementAmong` and `OthersAreCopied` say what that is |
| `StringFormat.FindSpans` | src/lib/base/String.cpp:52-94 | the spans recorded are increasing, disjoint and exactly the well-formed elements, and the highest index is right |
| `StringFormat.ResultLength` | src/lib/base/String.cpp:108-114 | the length computed never falls below zero on the way |
| `StringFormat.Substitute` | src/lib/base/String.cpp:116-125 | text outside the spans is copied unchanged |
| `StringFormat.Turn` | src/lib/base/String.cpp:58-93 | jumping over what `strtol` has read of a bad element misses no good one |
| `StringFormat.FilledIsSubst` | src/lib/base/String.cpp:116-125 | filling the spans in is the substitution |
| `StringFormat.FilledLength` | src/lib/base/String.cpp:108-114 | the result is as long as the format, less the spans, plus their replacements |
| `StringFormat.EscapedIsLiteral` | src/lib/base/String.cpp:64-69 | any text with its per cent signs doubled formats to itself |
| `StringFormat.ElementAmong` | src/lib/base/String.cpp:96-125 | an element between any escaped text and any rest of a format becomes the argument of its number, counted from one; the text before it comes out unescaped and the rest is formatted by itself |
| `StringFormat.ElementIsArgument` | src/lib/base/String.cpp:96-106 | an element alone is the argument of its number |
| `StringFormat.OthersAreCopied` | src/lib/base/String.cpp:58-94 | any other character is copied, a doubled per cent sign becomes one and a final one stays |
| `StringFormat.AnswerIs42` | src/test/unittests/base/StringTests.cpp:24-33 | the example of the unit test comes out as expected there |
| `StringFormat.ElementIsDocumentedIff` | src/lib/base/String.cpp:59-88 | at every place of every format, the element found is the documented one if and only if it is not an index between braces that is empty, zero, too large for a long or in need of the blanks and signs `strtol` allows |
| `StringFormat.ElementBetween` | src/lib/base/String.cpp:70-88 | what is found for any text between braces |
| `StringFormat.LooseIndexes` | src/lib/base/String.cpp:70-88 | an empty index, zero and minus zero stand for a per cent sign, and a blank or a plus sign does not matter |
| `Grid.StepBack` | src/gui/src/ServerConfig.cpp:240-256 | a step and the opposite step undo each other, without wrapping round a row |
| `Grid.NextColumn` | src/gui/src/ScreenList.cpp:48 | the test on remainders is the test for the last column |
| `Grid.PreviousColumn` | src/gui/src/ScreenList.cpp:47 | the test on truncated remainders is the test for the first column, also for cell 0 |
| `Grid.RowBounds` | src/gui/src/ScreenList.cpp:49-50 | the tests on indexes are the tests for the first and the last row |
| `ScreenLists.NeighborsAreExactIff` | src/gui/src/ScreenList.cpp:31-58 | in a list of any length the eight indexes are the neighbouring cells by the list's own width, in the documented order, if and only if its rows are full or the server is none of three cells near the end |
| `ScreenLists.WidthsAgreeIff` | src/gui/src/ScreenList.cpp:89-92 | they are the neighbours in a grid of so many columns, for every server and every number of rows, if and only if the width of the list is that number |
| `ScreenLists.ShortRowExamples` | src/gui/src/ScreenList.cpp:47-54 | in a short list the right and the bottom right index can be the size of the list, and the bottom left corner can be missed |
| `ScreenLists.PriorityIsAsDocumentedIff` | src/gui/src/ScreenList.cpp:89-113 | in a list of any length the cell chosen is the first free neighbour by the list's own width in the documented order, or else the first free cell, with the one exception of a missed corner, stated exactly; without a server it is the first free cell |
| `ScreenLists.PlacementIsDocumentedIff` | src/gui/src/ScreenList.cpp:89-113 | in every grid of so many columns a screen goes where the documentation puts it if and only if the width of the list is that number |
| `ScreenLists.Misplaced` | src/gui/src/ScreenList.cpp:89-113 | for any two numbers that differ, a grid with only the server in it in which the screen goes elsewhere |
| `ScreenLists.FourColumns` | src/gui/src/ScreenList.cpp:89-113 | with four columns and the width of five, the screen goes to the end of the row above the server |
| `ScreenLists.CornerPassedOver` | src/gui/src/ScreenList.cpp:54 | a list of five cells in which the corner is passed over |
| `ScreenLists.FirstFreeOf` | src/gui/src/ScreenList.cpp:94-112 | a named screen is never overwritten, and a cell is found unless all are taken |
| `ScreenLists.IndexesAre` | src/gui/src/ScreenList.cpp:31-58 | the eight indexes in a list of any length, in numbers: left, right, above, below, above left, above right, below right, below left |
| `ScreenLists.FirstFreeOfEight` | src/gui/src/ScreenList.cpp:94-112 | of eight indexes the first with a free cell is chosen, and without one the first free cell of the list |
| `ScreenLists.PriorityCellIs` | src/gui/src/ScreenList.cpp:89-113 | with a server in the list the eight are those of its first cell, and without one the first free cell is chosen |
| `ScreenLists.ScreenList.AddScreenByPriority` | src/gui/src/ScreenList.cpp:89-113 | exactly the cell chosen is overwritten with the screen, and nothing changes if all are taken |
| `ScreenLists.ScreenList.AddScreenToFirstEmpty` | src/gui/src/ScreenList.cpp:115-126 | exactly the first free cell changes |
| `ScreenLists.ScreenList.GetServerIndex` | src/gui/src/ScreenList.cpp:65-78 | the first server, -1 if there is none |
| `ServerConfigs.AdjacentIsNeighbour` | src/gui/src/ServerConfig.cpp:240-256 | on a list of any length the adjacent index of an occupied cell is its neighbour in the grid |
| `ServerConfigs.LinkIs` | src/gui/src/ServerConfig.cpp:276-289 | a link joins two named cells: one on within the row for right, one back within the row for left, a row back for up and a row on for down |
| `ServerConfigs.LinksAreSymmetric` | src/gui/src/ServerConfig.cpp:276-289 | every link written has its way back |
| `ServerConfigs.LinksAreFunctional` | src/gui/src/ServerConfig.cpp:276-289 | one link for each screen and direction, both ways, and none to itself |
| `ServerConfigs.WriteLinks` | src/gui/src/ServerConfig.cpp:276-289 | exactly the links are written, each once, in order of cells and directions |
| `ServerConfigs.FreeInLineIsFirst` | src/gui/src/ServerConfig.cpp:386-398 | the cell sought is free, in line with the server, and every cell in between is taken |
| `ServerConfigs.NoneFreeInLine` | src/gui/src/ServerConfig.cpp:386-398 | when there is none, the whole line to the edge is taken, in a list of any length |
| `ServerConfigs.LineOutcomes` | src/gui/src/ServerConfig.cpp:386-398 | for each of right, left, up and down, the cell found is free and lies that way in the row or column of the start, and any nearer is taken; all are if none is found |
| `ServerConfigs.AnswerOutcomes` | src/gui/src/ServerConfig.cpp:356-406 | each answer leads to the first free cell in the direction it names, or else to the first free cell of the list with the manual result |
| `ServerConfigs.AnswersMean` | src/gui/src/ServerConfig.cpp:341-384 | the step of each answer, and the server's cell: its own, or the eighth if that is free |
| `ServerConfigs.WalkIsRightIff` | src/gui/src/ServerConfig.cpp:367-398 | the walk finds the first free cell in line in every list if and only if it goes sideways or there are five columns |
| `ServerConfigs.WalkGoesAstray` | src/gui/src/ServerConfig.cpp:367-398 | for every other number of columns, a list in which it gives up beside a free cell or reads a cell outside the list |
| `ServerConfigs.ServerConfig.WalkToFree` | src/gui/src/ServerConfig.cpp:367-398 | the loop ends, for any number of columns, and sideways or with five columns at the first free cell in line |
| `ServerConfigs.ServerConfig.AutoAddScreen` | src/gui/src/ServerConfig.cpp:341-407 | each answer of the user has its outcome, for any number of columns, and at most the server's default cell and one free cell change |
| `ServerConfigs.ServerConfig.AddClient` | src/gui/src/ServerConfig.cpp:468-482 | the server is marked or put into its default cell first; the client goes where the list's own width puts it, which is the documented place in the grid of `numColumns` when the two numbers are the same |
| `ServerConfigs.NotLinkedToServer` | src/gui/src/ServerConfig.cpp:276-289 | with four columns, three rows and the width of five, no link joins the client and the server |
| `ServerConfigs.ServerConfig.FindScreenName` | src/gui/src/ServerConfig.cpp:494-506 | the first screen of that name |

## Left out

- Threads, mutexes, condition variables and signals: each locked section is one step, and reading and resetting the stopwatch in `hasTimerExpired` is one instant.
- Order among calls of `addEvent` that come while the loop moves parked events: it is not kept, as `OvertakesParked` says.
- The branch of `getEvent` for a buffer that has nothing after all, and the one for system events: the simple buffer has neither with one consumer. Other buffers appear only through `accepts`, their answer when an id is posted.
- Overflow of 32-bit ids and counts, strings of 4 GiB or more, and the rounding of floating-point times.
- Big-endian hosts: 16- and 32-bit units are stored low octet first.
- The registry of event types, `isEmpty`, `waitForReady` and the remaining accessors of the event queue: easy members.
- CountdownTally: counts are unbounded integers and clock readings are reals, so truncation of a count to 32 bits is not modelled.
- RunsReleaseOnce: requires that the caller hands each address over once; the code cannot tell when it does not.
- TextToUTF8: a wide string holds what a wchar_t can hold, and a 32-bit request where wchar_t has two octets has no result, because it reads past what was written; `RequestIsRightIff` counts it as wrong.
- SetOptions: no result where the scan steps past the end, which is undefined.
- OnConnected: beside a server, which takes encryption, it promises the handler table but not the invariant, which then does not hold.
- Stateful locale encodings, and wctomb or mbtowc writing anything when they fail.
- VFormat: `strtol` is that of an implementation that reports no error for an empty number.
- The other functions of String.cpp (search and replace, splitting, case, hexadecimal): one loop each.
- Version negotiation of the protocol: the outcome of the greeting is accept, not a greeting, or incompatible.
- The server proxy, sockets, encryption, address resolution, drag and drop and file transfer.
- Dialogs, settings, licensing, zeroconf, logging and scripts.
