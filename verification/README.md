# Funtrace in Dafny

Funtrace records function calls, returns and catches in per-thread cyclic buffers, snapshots the buffers
while threads run, writes the snapshots to a file of chunks, and turns the file back into a timeline of
calls. This project models that pipeline and proves what it promises, from the hooks that log an event to
the digits of a printed timestamp. It also covers funcount's page tables and symbol lookup with its caches.

`dafny verify dfyconfig.toml` checks everything.

## Modules

The decoder (`funtrace2viz/src/main.rs`):

- `Events` has trace entries and their flag bits. `Decoder` says what decoding is, over whole stacks: every
  pop loop closes frames down to the topmost one that stops it. `Converter` is the decoder as it is written,
  a class whose methods pop and emit one frame at a time, proved to compute `Decoder.Decode` of what it keeps.
  `WholeFile` runs it over all samples of a file, with the symbol cache that outlives a sample.
- `CallRuns` is the other side: a program run as a stack of traced and untraced frames, changed by calls,
  returns and unwinding to a catcher. Its theorems say when the decoder's stack is exactly the true one, and
  that the calls it then emits are exactly those that happened. `Windows` derives this from how a program was
  built and what it catches, for every window of a run. `Jumps` is about programs that drop frames without a trace
  of it, and when the decoder recovers.
- `Accounting` proves that no call is lost, `Nesting` and `Timeline` what the intervals look like, `Decimal`
  and `PrintedTimes` what is printed of them. `FileTimes` says all this of the calls of any file.

The runtime (`funtrace.cpp`, `funtrace_pg.S`):

- `Bits` and `Ring` are the buffer: masking an address, and a class that holds exactly the last events.
- `Search` and `Snapshot` are the binary search over a rotated range and the copy it serves.
- `PauseProtocol` interleaves writers with a snapshotter, step by step, up to tracing being on again. `PausedSnapshot` says what a snapshot from
  some time on makes of buffers whose position is read, last entry tested, range searched and entries copied at four
  different instants of such an interleaving. `Registry` is the set of thread traces with deferred garbage collection,
  `RegistrySnapshot` the snapshot of all of them. `Ftrace` and `Timestamps` are the ring of ftrace lines and both
  parsers of their timestamps.

The file: `Bytes` and `TraceFile` have the chunk format, its writer and its reader, `ReadingEnds` when reading ends, and
`CutFiles` what becomes of files that end too early.
`WholeBuffer` says when sorting recovers the order of a buffer that was written as it was in memory. `EndToEnd` joins it
all, from the runs of the threads through their rings, several snapshots and the file to the decoded calls.

The rest: `Histogram` and `PageTables` (`funcount.cpp`), `Symbols` and `SymbolCache`
(`procaddr2sym/src/lib.rs`).

## Conventions

- Machine words are integers below 2^64 (`Events.u64`). Bit tests and masks on them are written as division
  and remainder; the "and" of the buffer's wraparound is bitwise (`Bits.And`).
- Symbol lookup enters the decoder as a table from addresses to names (`Events.SymTab`), with the names
  demangled and stripped of clone suffixes.
- Decoded calls are (symbol, start, end, shift) records. A positive shift is in nanoseconds at the end, a
  negative one at the start.
- A run is defined by what its hooks log, and an unwinding is one step, at the catch.
- `PauseProtocol` assumes sequentially consistent memory. The C++ fields are plain, and the assembly is not
  fenced, so on real hardware this is an assumption and not a consequence. A writer's loads of its position and
  of its mask are one step, since only the writer changes its position.
- Clocks, allocation results, thread identities and the answers of library searches are parameters.
- Expensive proofs hide definitions they do not need with `hide`.

## What turned out

Where the code does something its comments or its intent do not suggest, the model follows the code. Lemmas say
when, as equivalences where not noted otherwise:

- An own-address return whose name is nowhere on a non-empty stack drains it, and the outermost frame is then
  emitted twice, the same to the nanosecond (`Timeline.DrainDuplicates`, `Timeline.DrainExample`).
- The made-up nanoseconds of frames still open at the end start over at one, so they collide with a catch or a
  mismatch that is the very last event (`Timeline.CollisionExample`). With events far enough apart, these two
  are the only ways to lose strict nesting (`Timeline.StrictExactly` is an equivalence).
- Addresses of thunks to be ignored are collected anew for each sample, while the symbol cache lives on until
  new memory maps arrive. So a thunk is decoded in a sample exactly if it was met in an earlier one under the same maps
  (`WholeFile.ThunkDecodedExactly`; `WholeFile.StaleThunkExample` is a file of two samples where it happens). The runtime
  writes its maps before every snapshot, so in its own files it never happens (`WholeFile.SnapshotsUncached`).
- The search order is made for late events at the beginning of a range. One at the end makes the search miss
  exactly the newest event, only if that is the only one wanted and only for some range lengths
  (`Search.LateLastFound` is an equation for all lengths and times, `Search.LateLastLoses` the least instance).
- Asking for a time after the pause copies everything retained instead of nothing (`Search.FutureFound`,
  `Snapshot.TailExact`).
- The comment in `rat2dec` says negative numbers should not happen. Orphan returns are moved back from the earliest cycle
  of their thread by a nanosecond each, so a timestamp has a minus sign exactly if more nanoseconds of orphan returns
  than of time lie between the time base and that cycle (`PrintedTimes.OrphanBeforeBase` over all of a thread's calls,
  `PrintedTimes.PrintTimes` for the string, `PrintedTimes.NegativeExample` an input).
- `rat2dec` asked for no digits would print a trailing point; `Decimal.Reads` allows for that.
- A snapshot resumes tracing unconditionally, so a global pause does not survive one (`Registry.TraceState.SnapshotPause`).
- `end[-1]` is read before anything is known of the buffer, so a snapshot from a time on works exactly if every registered
  trace has a buffer (`RegistrySnapshot.SnapshotAll`). A thread whose allocation failed or that asked for no buffer is
  registered all the same, and from then on there is none (`RegistrySnapshot.FailedAllocationBreaks`).
- The trace object of an exiting thread keeps its mask and its buffer if a copy takes these over in the registry. Pausing
  zeroes the mask of the copy, and what the thread still does is traced into the paused buffer, exactly then and if the
  thread had a mask and a buffer (`Registry.ExitedWrites`). Collection may give the buffer back under it
  (`Registry.CollectedUnderExited`).
- A buffer of less than one entry can be asked for; then its last entry, which is outside of it, is zeroed
  (`Ring.TraceData.Allocate`).
- A skipped chunk of 2^63 bytes or more is skipped backwards. Reading a file never ends exactly if it comes to a place
  twice (`ReadingEnds.EndlessExactly`, `ReadingEnds.CircleEndless` is a file of 16 bytes).
- A whole buffer is written with its newest events first, and the reader's stable sort puts them in order, except that
  events of the cycle at which the buffer wrapped around change places (`WholeBuffer.WholeExactly` is an equivalence,
  `WholeBuffer.TieExample` an instance).
- After a longjmp the next return pops the frames jumped over, if it does not find its name on one of them first
  (`Jumps.ReturnExact` is an equivalence).
- `allocate_range` goes up to and including the rounded-up end, one page more than the segment needs
  (`Histogram.EndPage`).
- A timestamp of 2^64 or more wraps around in the runtime, which stores the line under another time, and is
  dropped by the decoder (`Timestamps.ParsersAgree` is an equivalence, `Timestamps.OverflowDisagrees` the inputs).
- A threshold of zero makes an ftrace snapshot return an empty line for every slot never written
  (`Ftrace.RetainedFrom`).
- Lookup looks at one symbol only, one with the address as its base or else the last one before it. A label without a size
  inside a function hides the rest of the function, whichever equal element the library's search picks
  (`Symbols.SizelessHides`). `Symbols.FoundExactly` and `Symbols.ScanExactly` are the equivalences: when something is
  found, and when it is what a scan finds.
- Offsets are cached by the start of a map alone. Two overlapping maps that start together would share one
  (`SymbolCache.OverlapShows`). The cache never shows exactly if maps that are found and start together translate alike
  (`SymbolCache.ShowsExactly`), as all maps of a process do (`SymbolCache.DisjointInvisible`).
- Which of the headers that hold a file offset is found first decides the translation of an address
  (`Symbols.SegmentTranslates` is an equivalence).

## Model

| member | source | states |
|---|---|---|
| Events.WordRoundTrip | funtrace2viz/src/main.rs:334-337 | A word logged for a pointer and one of the four kinds of event decodes to that kind, that code address and that mark, whatever the pointer below bit 61. |
| Events.TopBits | funtrace_flags.h:4-20 | The flags are bits 63, 62 and 61 of a 64-bit word. |
| Decoder.Topmost | funtrace2viz/src/main.rs:376-394 | The frame a catch stops at is the topmost one with the catcher's name or marked as returning upon a throw; none above it stops the loop. |
| Decoder.CallerReturnStops | funtrace2viz/src/main.rs:451-469 | When a caller-address return recovers, exactly one frame below the returning one was called by the named caller, it is the last one closed, and the stack is never emptied. |
| Decoder.OwnReturnCloses | funtrace2viz/src/main.rs:430-449 | A mismatched own-address return closes the returning function's topmost frame and everything above it; with no such frame, everything, and the outermost frame once more. |
| Decoder.DrainsIff | funtrace2viz/src/main.rs:436-449 | The drain happens exactly when no frame on the stack has the returning function's name. |
| Decoder.MismatchExactly | funtrace2viz/src/main.rs:424-469 | A return is a mismatch if and only if decoding it emits more than one call. |
| Decoder.RunConcat | funtrace2viz/src/main.rs:330-473 | Decoding a log in two parts, the second from the state the first left, is decoding it whole. |
| Converter.TraceConverter.WriteFunctionCallEvent | funtrace2viz/src/main.rs:210-257 | Every emission is counted; it reaches the file unless the run is dry or a timestamp is zero. |
| Converter.TraceConverter.PopUnwound | funtrace2viz/src/main.rs:374-395 | The catch loop leaves the stack up to the topmost stopping frame and emits the rest, innermost first, one nanosecond after the other. |
| Converter.TraceConverter.PopUntilFound | funtrace2viz/src/main.rs:433-448 | The recovery loop for own-address returns pops to the returning function's frame, or everything, and leaves the last popped frame to be emitted. |
| Converter.TraceConverter.PopUntilCaller | funtrace2viz/src/main.rs:453-469 | The recovery loop for caller-address returns stops with the named caller on top. |
| Converter.TraceConverter.PopReturning | funtrace2viz/src/main.rs:419-450 | An own-address return changes the stack and emits calls as `Decoder.OwnReturnStep` says. |
| Converter.TraceConverter.PopReturningInto | funtrace2viz/src/main.rs:451-471 | A caller-address return does as `Decoder.CallerReturnStep` says. |
| Converter.TraceConverter.HandleReturn | funtrace2viz/src/main.rs:400-472 | Orphan returns are numbered, start at the earliest cycle, and are named after the returning function or, with caller addresses, the one expected. |
| Converter.TraceConverter.HandleEvent | funtrace2viz/src/main.rs:354-472 | One event takes the state of stack, expected function, orphan count and output to `Decoder.Step` of it. |
| Converter.TraceConverter.Admit | funtrace2viz/src/main.rs:339-352 | An event is ignored exactly if its symbol is a thunk first looked up in this sample; the cache stays equal to fresh lookups. |
| Converter.TraceConverter.CloseOpenFrames | funtrace2viz/src/main.rs:474-480 | Frames still open end at the latest cycle, the innermost one nanosecond after it, each enclosing frame one more. |
| Converter.TraceConverter.DecodeThread | funtrace2viz/src/main.rs:321-480 | The whole loop over a thread's entries emits exactly the decoding of the entries that are recent enough and not ignored. |
| Converter.TraceConverter.WriteSample | funtrace2viz/src/main.rs:315-488 | What a sample adds to the output are the calls of its selected threads, one after the other; they depend on what came before only through the addresses cached by then, to which the sample adds those it looks up. |
| Converter.TraceConverter.OldestEvent | funtrace2viz/src/main.rs:185-207 | The age limit comes from the greatest age, else the oldest time, else the earliest first event of selected threads and ftrace lines. |
| Converter.NoneTooOld | funtrace2viz/src/main.rs:185-205 | Without age limits no event of a selected thread is too old, whatever the ftrace lines. |
| Converter.AgeBeforeLatest | funtrace2viz/src/main.rs:191-199 | With a maximum age the limit is that age, modulo 2^64, before the latest cycle of any event of a selected thread and the last ftrace line. |
| Converter.LimitWithoutAge | funtrace2viz/src/main.rs:200-205 | With an oldest time the limit is that time; with neither it is the earliest cycle of any event of a selected thread and the first ftrace line. |
| Converter.ThreadsChosen | funtrace2viz/src/main.rs:315-320 | A thread that is not on a non-empty list of threads adds nothing to a sample's calls, any other thread exactly its own, and no list is for all. |
| Converter.WrittenExactly | funtrace2viz/src/main.rs:210-257 | A dry run writes no calls; else exactly those with a start or end of zero are left out. |
| Converter.ThunksSkippedExactly | funtrace2viz/src/main.rs:339-352 | No thunk of a thread's recent entries is kept if and only if none of them was in the symbol cache beforehand. |
| Converter.ThunkExactly | funtrace2viz/src/main.rs:345 | A symbol is a thunk if and only if "virtual override thunk" is part of its name. |
| WholeFile.WriteSamples | funtrace2viz/src/main.rs:550-655 | All samples of a file, each with its own age limit, the cache emptied where new maps came: the output grows by `WholeFile.FileSpans` of them. |
| WholeFile.CachedExactly | funtrace2viz/src/main.rs:607-614 | An address is cached when a sample begins if and only if an earlier sample since the last maps met it. |
| WholeFile.ThunkDecodedExactly | funtrace2viz/src/main.rs:339-352 | A sample decodes a thunk if and only if it meets one that an earlier sample under the same maps met. |
| WholeFile.CacheInvisible | funtrace2viz/src/main.rs:339-352 | If no sample meets a thunk again, a file is converted as if every symbol were looked up anew in every sample. |
| WholeFile.SnapshotsUncached | funtrace.cpp:654-663 | In a file of any written snapshots no thunk is ever decoded, and the symbol cache does not show. |
| WholeFile.StaleThunkExample | funtrace2viz/src/main.rs:339-352 | A file with one list of maps and two samples, each calling the same thunk: it is read without an error, and only the second call comes out. |
| CallRuns.CatchExact | funtrace2viz/src/main.rs:374-395 | A catch leaves the decoder with the true stack if and only if no unwound traced frame has the catcher's name and the surviving traced frame on top does, or is marked. |
| CallRuns.CallerReturnExact | funtrace2viz/src/main.rs:451-471 | A caller-address return leaves the decoder with the true stack if and only if the caller's name is on top of what remains or nowhere in it. |
| CallRuns.WindowSimulated | funtrace2viz/src/main.rs:330-473 | After every event of a decodable window the stack is exactly the traced frames entered in the window, and the output exactly the calls completed. |
| CallRuns.WindowMatches | funtrace2viz/src/main.rs:433-468 | Decoding a decodable window never takes a mismatch branch. |
| CallRuns.WindowDecoded | funtrace2viz/src/main.rs:330-480 | The decoder turns the log of a decodable window into its true calls: function, call cycle, and the cycle of the return or catch that removed it. |
| Windows.TracedCatchersDecodable | funtrace2viz/src/main.rs:355-393 | With own-address returns, a window is decodable if every catcher is traced and no traced frame it unwinds shares its name. |
| Windows.MarkedCatchesDecodable | funtrace2viz/src/main.rs:378-382 | With own-address returns, a window is decodable, whoever catches, if at every catch the traced calls still open in the window are marked as returning upon a throw. |
| Windows.AtOnceMarked | funtrace.cpp:845-894 | So they are in every run in which unmarked calls, like those of the exception runtime, return before anything else happens. |
| Windows.UntracedCatcherDecoded | funtrace.cpp:841-863 | A marked thrower caught by an untraced function, with the runtime's unmarked calls around: all traced calls are decoded right, and the catcher is just missing. |
| Windows.TracedByNameDecodable | funtrace2viz/src/main.rs:451-470 | Whatever mix of returns is logged, a window is decodable through untraced callers if being traced is a property of the function's name and catchers are traced and told apart from what they unwind. |
| Windows.CatchFreeDecodable | funtrace2viz/src/main.rs:451-470 | Without catches, being traced by name is enough. |
| Windows.ToldDecodable | funtrace2viz/src/main.rs:355-470 | All of these at once: returns that tell what returned or callers told by name, and catches of either kind, mixed. |
| Windows.WindowsDecodable | funtrace2viz/src/main.rs:330-480 | Then every window of the run is decodable too, wherever it begins. |
| Windows.OrphanNamed | funtrace2viz/src/main.rs:403-412 | In a fully traced program with caller addresses, an orphan return gets the name of the function that returned, the first event of the window "??". |
| Windows.OwnOrphanNamed | funtrace2viz/src/main.rs:403-408 | With own-address returns every orphan gets the name of the function that returned. |
| Windows.IntoCallerDecoded | funtrace2viz/src/main.rs:451-471 | A return logged with its caller's address is decoded to the call it ends, the caller's still open. |
| Windows.LogSuffixIsWindow | funtrace2viz/src/main.rs:330-480 | The last n events any run logged are what a later part of it logs from the stack at that point. |
| Jumps.StackMoves | funtrace2viz/src/main.rs:419-423 | Calls push a frame, returns pop one and jumps drop as many as they say from the frames that are alive. |
| Jumps.ReturnExact | funtrace2viz/src/main.rs:430-449 | The next own-address return of a live frame leaves exactly what is known below that frame if and only if no dead traced frame above has its name. |
| Jumps.KnownIsTrue | funtrace2viz/src/main.rs:419-450 | What the decoder knows is the true stack if and only if no traced frame it knows is dead. |
| Jumps.OutsideReturnExact | funtrace2viz/src/main.rs:433-448 | A return of a frame from before the window clears the dead frames if and only if none but the lowest has its name. |
| Jumps.CallerReturnAfterJump | funtrace2viz/src/main.rs:451-471 | A caller-address return leaves exactly what is known below the returning frame if and only if nothing is dead and the caller fits, or the caller is right below and its name is not on the frames popped, the topmost aside. |
| Jumps.JumpsSimulated | funtrace2viz/src/main.rs:330-473 | Over any run with jumps whose returns recover, the decoder's stack is exactly the frames of the window that were neither returned from nor popped with one below, and calls are emitted with their true cycles, those jumped over at the return that pops them. |
| Jumps.JumpExample | tests/longjmp.cpp:13-62 | A possible run that jumps back over two frames, whose returns recover, logs events that are decoded as the repository's own test expects. |
| Accounting.EmissionsAccounted | funtrace2viz/src/main.rs:323-480 | For any events, of every origin (symbol and start) exactly as many calls are emitted as were pushed, plus orphan returns and drained outermost frames of that origin. |
| Accounting.EmissionsCounted | funtrace2viz/src/main.rs:210-211 | The number of calls reported for a thread is pushed calls + orphan returns + drains. |
| Accounting.EmissionsOfOrigin | funtrace2viz/src/main.rs:210-211 | Counting an origin's emissions counts the emitted calls with that symbol and start, each once. |
| Nesting.StepKeeps | funtrace2viz/src/main.rs:354-472 | Every event keeps emitted calls pairwise nested or apart, in both readings, shifted and unshifted, and on good terms with what is open. |
| Timeline.Laminar | funtrace2viz/src/main.rs:323-480 | For any sorted events, however malformed, emitted calls are nested or have disjoint interiors, start no earlier than the earliest cycle and end no later than the latest. |
| Timeline.NeverCross | funtrace2viz/src/main.rs:475-480 | Nested or disjoint means that neither call begins within the other and ends after it. |
| Timeline.StrictExactly | funtrace2viz/src/main.rs:475-480 | With events further apart than they shift ends, all endpoints are distinct and all calls strictly nested or apart if and only if nothing drains and the last event makes up no ends while calls are open. |
| Timeline.DrainDuplicates | funtrace2viz/src/main.rs:437-471 | A drained stack's outermost frame is emitted twice in a row, shift and all. |
| Timeline.DrainExample | funtrace2viz/src/main.rs:437-471 | A call of f followed by a return of g yields the call of f twice. |
| Timeline.CollisionExample | funtrace2viz/src/main.rs:475-480 | A catch as last event gives the call it ends and the call left open the same end. |
| Decimal.Rat2Dec | funtrace2viz/src/main.rs:135-173 | Read back as a decimal, the string is the rational rounded half up in absolute value to the asked-for digits; it has a minus sign exactly for negative rationals. |
| Decimal.ReadsBack | funtrace2viz/src/main.rs:154-172 | A sign, digits, and perhaps a point with digits are read back as the number they denote. |
| Decimal.ReadExample | funtrace2viz/src/main.rs:135-173 | "-1.5" is read as minus fifteen thousand ten-thousandths. |
| PrintedTimes.PrintedNear | funtrace2viz/src/main.rs:142-143 | What is printed is within half a unit of the last place of the number. |
| PrintedTimes.PrintedMonotone | funtrace2viz/src/main.rs:135-173 | A larger rational never prints smaller. |
| PrintedTimes.PrintedApart | funtrace2viz/src/main.rs:135-173 | Rationals a unit of the last place apart print differently, in order. |
| PrintedTimes.CyclesPrintApart | funtrace2viz/src/main.rs:241-252 | Up to 10 GHz, calls that began at different cycles print different timestamps, in order. |
| PrintedTimes.PrintedEndNear | funtrace2viz/src/main.rs:250-254 | Printed timestamp plus printed duration is within 10^-4 microseconds of the exact end. |
| PrintedTimes.StaggeredEndsPrintApart | funtrace2viz/src/main.rs:389-391 | Ends a nanosecond or more apart keep their strict order in print. |
| PrintedTimes.PrintTimes | funtrace2viz/src/main.rs:231-254 | Read back, the two strings written for a call are its shifted start after the time base and its duration, rounded; the first has a minus sign if and only if the call was moved back by more than it began after the base, the second never. |
| PrintedTimes.StartsBeforeBase | funtrace2viz/src/main.rs:231-252 | A call starts before the base if and only if it was moved back by more than it began after it. |
| PrintedTimes.StartInMicroseconds | funtrace2viz/src/main.rs:231-252 | The printed start is, to half a unit of the last place, the cycles since the base divided by the frequency in megahertz, less a thousandth for each nanosecond of a negative shift. |
| PrintedTimes.DurationInMicroseconds | funtrace2viz/src/main.rs:236-253 | So is the printed duration, the shift's nanoseconds added on whichever side they are. |
| PrintedTimes.MicrosecondExample | funtrace2viz/src/main.rs:231-254 | A thousand cycles at 1 GHz print as one microsecond. |
| PrintedTimes.OrphanBeforeBase | funtrace2viz/src/main.rs:138 | Some call decoded of a thread starts before the time base if and only if its orphan returns take more nanoseconds than lie between the base and its earliest cycle. |
| PrintedTimes.NegativeExample | funtrace2viz/src/main.rs:138 | A thread whose only event is a return prints its call at -0.001 microseconds. |
| FileTimes.FileOrderly | funtrace2viz/src/main.rs:302-480 | Of any file that is read, the calls of each thread of each sample are nested or apart, and none starts before the time base or ends before it starts. |
| FileTimes.CallsPrintable | funtrace2viz/src/main.rs:250-254 | Every call of a file belongs to a sample whose time base can be subtracted from it, and its start from its end. |
| FileTimes.BaseExactly | funtrace2viz/src/main.rs:304-305 | Raw times have a base of zero; otherwise, without age limits, the base is the first event or ftrace line. |
| FileTimes.NegativeExactly | funtrace2viz/src/main.rs:138 | Of the entries of any thread some call prints a negative timestamp if and only if the orphan returns among those decoded reach back before the base. |
| Search.RotatedStrictWeak | funtrace.cpp:674-701 | The search order is irreflexive, transitive, and its incomparability is equality of cycles. |
| Search.AnyFirstFound | funtrace.cpp:675-681 | Whatever the first entry of a range is, half-written ones included, and whatever the time, the search finds the first of the others that is wanted, or takes in the first entry when it takes all others; for a time after the pause all others are wanted. |
| Search.LateFirstFound | funtrace.cpp:670-703 | On late events followed by sorted earlier ones, with a time up to the pause, the search finds the first earlier event at that time or later. |
| Search.FutureFound | funtrace.cpp:697-699 | Asked for a time after the pause, the search takes every earlier event for later. |
| Search.LateLastFound | funtrace.cpp:675-681 | With one late event at the end of a range, exactly what the search finds, for every length and every time, before or after the pause. |
| Search.LateLastLoses | funtrace.cpp:675-681 | Two entries, one late and last: the one wanted is missed. |
| Bits.AndNotBit | funtrace.cpp:109-121 | And-ing with a mask with one bit clear subtracts that bit if it is set. |
| Bits.AlignedWrap | funtrace.cpp:116-123 | With a buffer aligned to twice its power-of-two size, masking a position at most one past the end brings just that one back to the beginning. |
| Ring.Cells.PutValid | funtrace.cpp:171-199 | Writing at the position keeps the cells equal to the last events of the log. |
| Ring.Cells.Chronological | funtrace.cpp:723-724 | Reading from the position to the end and then from the beginning is reading the last min(n, N) events in order. |
| Ring.Cells.LastCell | funtrace.cpp:129-132 | The last cell's cycle is nonzero if and only if the buffer was filled. |
| Ring.TraceData.Masked | funtrace.cpp:171-176 | Position and mask and-ed are the address of the next slot, and zero exactly when paused or without a buffer. |
| Ring.NoRoom | funtrace.cpp:116-132 | A buffer is too small if and only if it is allocated with less than the sixteen bytes of an entry. |
| Ring.TraceData.Allocate | funtrace.cpp:111-139 | Allocation yields an empty ring, or no buffer and a zero mask if it fails or is not wanted; it writes outside the buffer if and only if that has no room for an entry. |
| Ring.TraceData.PauseTracing | funtrace.cpp:108 | Pausing zeroes the mask and nothing else. |
| Ring.TraceData.ResumeTracing | funtrace.cpp:109 | Resuming keeps a trace valid, also a freed or unallocated one, which stays inert. |
| Ring.TraceData.Free | funtrace.cpp:141-146 | A freed trace has no buffer and no log. |
| Ring.TraceData.Trace | funtrace.cpp:158-200 | An event is appended to the log exactly when tracing is on and there is a buffer; the memory stays the end of the log. |
| Snapshot.FindEarliestEventAfter | funtrace.cpp:670-703 | The search loop over memory returns where the lower bound is, or nothing at the end. |
| Snapshot.TailExact | funtrace.cpp:718-719 | A sorted range without late events contributes its events from the time on, or all of them for a future time. |
| Snapshot.RangesExact | funtrace.cpp:718-730 | The two parts, the older one only if the last cell was written, are together the filter of the retained events in order. |
| Snapshot.CopyOut | funtrace.cpp:716-731 | The two searches and copies, on any memory at all, yield what `Snapshot.Copied` says. |
| Snapshot.SnapshotStartingAt | funtrace.cpp:714-733 | The copy of any trace's buffer, None if and only if there is no buffer; with no event after the pause it is the chronological filter of the last min(n, N) events traced. |
| PauseProtocol.RunKeeps | funtrace_pg.S:18-41 | Every interleaving of writers, of both store orders, with pausing, copying and resuming keeps the invariant: memory is what was committed but for the slot in flight, paused writers commit at most one more entry, and copies are of what was committed. |
| PauseProtocol.AtMostOneCommit | funtrace.cpp:167-170 | While its buffer is paused a thread commits at most one more entry, and then is idle. |
| PauseProtocol.CopiesConsistent | funtrace.cpp:622-641 | Each copy equals what was committed when its mask was zeroed, but for the one slot due to be written next. |
| PauseProtocol.IdleIsCommitted | funtrace_pg.S:87-118 | When nothing is in flight a buffer's memory is exactly what was committed. |
| PauseProtocol.RunKeepsMasks | funtrace.cpp:368-382 | Over every run with any number of snapshots, masks are there except where zeroed and not yet restored. |
| PauseProtocol.PausedExactly | funtrace.cpp:368-382 | A writer's mask is gone if and only if its buffer is known to be paused. |
| PauseProtocol.TracingResumes | funtrace.cpp:376-382 | Whatever was paused, once a snapshot has restored all masks every thread traces again. |
| PauseProtocol.EventRecorded | funtrace_pg.S:18-41 | An event begun when no snapshot is being taken is recorded right after all recorded before, whatever other threads and snapshots do meanwhile. |
| PauseProtocol.ThreeStepsRecord | funtrace_pg.S:18-41 | Three steps of its own let a thread finish an event it has begun, paused or not. |
| PauseProtocol.FirstStore | funtrace_pg.S:87-118 | The hook for returns stores an entry's cycle first, the others its address. |
| PauseProtocol.SnapshotFinishes | funtrace.cpp:583-603 | From any point of a snapshot, whatever threads are in the middle of, the snapshotter alone can get to its end. |
| PausedSnapshot.BeforeCommit | funtrace.cpp:713-733 | With a position read before the entry in flight is committed, and its slot holding three different entries when the last one is tested, when the buffer is searched and when it is copied, the copy is all retained events but the oldest that are wanted, with at most what was copied from the slot in front. For any time. |
| PausedSnapshot.AfterCommit | funtrace.cpp:713-733 | With a position read after the commit, the copy has the new entry too if wanted; one dated after the pause may cost the newest earlier event, exactly when `Search.LateLastFound` says. For any time. |
| PausedSnapshot.AtMostOneLost | funtrace.cpp:713-733 | A late entry costs at most one event that was wanted. |
| PausedSnapshot.PausedCopy | funtrace.cpp:705-741 | However writers, pausing and copying interleave, and whatever happens between reading a paused buffer's position, testing its last entry, searching and copying, the copy is as `PausedSnapshot.BeforeCommit` or `PausedSnapshot.AfterCommit` says, for any time. |
| RegistrySnapshot.CopyAll | funtrace.cpp:713-734 | The loop over the registered traces copies every one, or fails if and only if some trace has no buffer. |
| RegistrySnapshot.SnapshotAll | funtrace.cpp:705-741 | Pausing, copying and resuming succeeds if and only if every registered trace had a buffer, then with one copy for each and tracing on. |
| RegistrySnapshot.FailedAllocationBreaks | funtrace.cpp:302-315 | Registering one more thread without a buffer, whatever was registered before, makes the snapshot fail. |
| Registry.TraceState.constructor | funtrace.cpp:262-282 | A fresh registry is empty, unpaused and consistent. |
| Registry.TraceState.PauseTracing | funtrace.cpp:368-374 | Every registered mask becomes zero, and nothing else changes. |
| Registry.TraceState.ResumeTracing | funtrace.cpp:376-382 | Every registered mask becomes the complement of its buffer size. |
| Registry.TraceState.SnapshotPause | funtrace.cpp:583-603 | After a snapshot tracing is on, also if it had been paused before. |
| Registry.TraceState.RegisterThisThread | funtrace.cpp:302-315 | Unless its buffer is too small for an entry, the thread's trace is added once, with a new buffer, paused if the registry is; all traces have buffers afterwards if and only if they had and this allocation succeeded. |
| Registry.TraceState.UnregisterThisThread | funtrace.cpp:318-339 | The trace is freed and removed, its object left without buffer and mask, or replaced in place by a copy of the same buffer with the time of death, the thread's own object left as it was; other entries stay. |
| Registry.TraceState.RemoveAt | funtrace.cpp:325-327 | The entry's buffer, and only it, is freed, its object is left without buffer and mask, and the last entry takes its place. |
| Registry.TraceState.HandOver | funtrace.cpp:331-334 | The new object has the buffer, position, mask and log of the old one, which stays as it was. |
| Registry.ExitedWrites | funtrace.cpp:318-339 | An event after the thread has exited and everything was paused is appended if and only if the thread was handed over with a mask and a buffer, then to a buffer registered as paused; a thread that was not handed over is left without a buffer. |
| Registry.CollectedUnderExited | funtrace.cpp:341-366 | Collection gives back the buffer of an exited thread if and only if it has been dead long enough or the program exits, and leaves the thread's own object as it was. |
| Registry.TraceState.CollectGarbage | funtrace.cpp:341-366 | The loop ends; every live thread's trace stays with its buffer, also when exiting, a finished one stays if and only if the program is not exiting and its age has not passed, and buffers are given back exactly with the traces that go. |
| Registry.BuffersRemove | funtrace.cpp:359-364 | Removing an entry takes away its buffer from those owned and no other. |
| Registry.CollectOne | funtrace.cpp:355-365 | Collecting one garbage entry does not change what is to be kept. |
| Registry.CollectedExactly | funtrace.cpp:350-364 | The same of what is kept: live traces stay, finished ones go exactly when exiting or old enough, and so do the buffers. |
| Registry.RemaskKeeps | funtrace.cpp:368-382 | Pausing and resuming keep that buffers have one owner each or were freed, and that masks follow the pause. |
| Bytes.Decode64Encoded | funtrace2viz/src/main.rs:570-572 | Lengths and frequencies survive being written as eight bytes and read. |
| Bytes.DecodeEntriesEncoded | funtrace2viz/src/main.rs:630-632 | Trace entries survive being written as memory and read. |
| Bytes.DecodeThreadIdEncoded | funtrace2viz/src/main.rs:615-622 | Thread ids survive being written as memory and read. |
| Bytes.Layout | funtrace2viz/src/main.rs:570-632 | Words have their least byte first, entries their address and thread ids their process before the rest. |
| TraceFile.ParseEncoded | funtrace2viz/src/main.rs:562-646 | Parsing the bytes of any well-formed chunks is consuming the chunks one by one. |
| TraceFile.ConsumeThreads | funtrace2viz/src/main.rs:615-637 | Thread id and buffer chunks add the non-empty threads, zero-filtered and sorted. |
| TraceFile.NonZeroExactly | funtrace2viz/src/main.rs:633 | Exactly the entries that are zero altogether are left out. |
| TraceFile.SnapshotConsumed | funtrace2viz/src/main.rs:574-646 | Reading one snapshot adds its sample, if it has any data, and leaves nothing behind for the next. |
| TraceFile.FileRoundTrip | funtrace2viz/src/main.rs:550-653 | Parsing the concatenation of any written snapshots recovers each non-empty one, in order, without an error. |
| TraceFile.UnknownChunksIgnored | funtrace2viz/src/main.rs:642-645 | Chunks of unknown kinds anywhere in a file change nothing. |
| TraceFile.SortSorts | funtrace2viz/src/main.rs:635 | The sort yields the same entries in the order of their cycles. |
| TraceFile.SortStable | funtrace2viz/src/main.rs:635 | Entries of the same cycle keep their order. |
| TraceFile.SortedUnchanged | funtrace2viz/src/main.rs:635 | Entries in order are not reordered. |
| WholeBuffer.SameSorted | funtrace2viz/src/main.rs:635 | Sorted entries are determined by what they have of each cycle, in order. |
| WholeBuffer.RotatedSorts | funtrace2viz/src/main.rs:635 | Sorting two parts of a sorted sequence in the wrong order recovers it if and only if the events of the cycle where they meet read the same either way. |
| WholeBuffer.TickTold | funtrace.cpp:593-600 | The wraparound can be told if the clock ticked at it. |
| WholeBuffer.WholeExactly | funtrace.cpp:593-600 | A whole buffer is read back as the last events traced into it if and only if its unwritten slots are zero, or it was filled and the wraparound can be told. |
| WholeBuffer.TieExample | funtrace.cpp:593-600 | Two events of one cycle around a wraparound come back in the other order. |
| TraceFile.ParseChunks | funtrace2viz/src/main.rs:562-652 | On any file on which reading ends, truncated, malformed or with backward skips, the loop computes `TraceFile.ParseFrom`. |
| TraceFile.ReadCoherent | funtrace2viz/src/main.rs:562-650 | After any number of turns of reading any file, the trace of every thread is sorted and not empty, and a sample without maps of its own has those of the sample before. |
| ReadingEnds.EndlessExactly | funtrace2viz/src/main.rs:562-646 | Reading a file never ends if and only if it comes to a place twice, and if and only if it has not ended after one turn more than the file has bytes. |
| ReadingEnds.ForwardEnds | funtrace2viz/src/main.rs:575-645 | It ends if no skipped length reads as negative. |
| ReadingEnds.CircleEndless | funtrace2viz/src/main.rs:642-645 | An unknown chunk whose length reads as -16 is read forever. |
| TraceFile.SnapshotsFresh | funtrace.cpp:654-663 | Every sample of a file of snapshots has its own maps. |
| TraceFile.TraceWriter.WriteChunk | funtrace.cpp:494-500 | Magic, length and content are appended. |
| TraceFile.TraceWriter.WriteTracebufs | funtrace.cpp:527-533 | Each thread is written as a thread id and a buffer. |
| TraceFile.TraceWriter.WriteFtrace | funtrace.cpp:538-552 | The size counted in the first loop is the length of what the second one writes; nothing is written for no lines. |
| TraceFile.TraceWriter.WriteSnapshot | funtrace.cpp:654-663 | The file grows by the snapshot's chunks. |
| TraceFile.TextLines | funtrace.cpp:546-549 | The text of ftrace lines splits at its newlines into the lines. |
| TraceFile.Magics | funtrace2viz/src/main.rs:574-638 | The kinds of chunks are spelled in ASCII. |
| TraceFile.SeekLimits | funtrace2viz/src/main.rs:575-577 | Skipping seeks by the length as a signed 64-bit number, to no place before the file or past the greatest such number. |
| CutFiles.UnclosedRead | funtrace2viz/src/main.rs:647-650 | A file of snapshots, all chunks but the last of one more, and up to seven bytes is read as the samples of all of them, without an error. |
| CutFiles.CutChunk | funtrace2viz/src/main.rs:562-572 | A chunk of a kind that is read, cut anywhere after its magic, is an error after what whole chunks came before. |
| CutFiles.CutSnapshot | funtrace2viz/src/main.rs:562-650 | A snapshot cut within any of its chunks is an error and leaves exactly the samples before it. |
| EndToEnd.RingShowsSnapped | funtrace.cpp:713-733 | What the two searches copy out of the ring a run was traced into is the wanted part of the last events of the run's log, for any time: those from it on, or all if it is after the pause. |
| EndToEnd.TakenReadBack | funtrace.cpp:593-600 | Whatever kind of snapshot, what reading makes of the copy is what the snapshot should have if and only if a whole buffer can be read back. |
| EndToEnd.ThreadDecoded | funtrace2viz/src/main.rs:321-480 | Decoding what a snapshot has of a thread gives the thread's true calls in that window. |
| EndToEnd.SmallRunDecoded | funtrace2viz/src/main.rs:321-480 | If the buffer holds all that a run logged, the snapshot's true calls are those of the whole run. |
| EndToEnd.TracedCallsDecoded | funtrace2viz/src/main.rs:550-653 | For any number of snapshots of any runs traced into rings, each of whole rings or searched and copied from its own time on: writing, parsing, sorting and decoding the file gives exactly the true calls of the last min(n, N) events, or of those from that time on if it is not after the pause. |
| EndToEnd.ReadAndDecode | funtrace2viz/src/main.rs:550-653 | The loops that read such a file and convert its samples write exactly these calls. |
| EndToEnd.BuiltTellable | funtrace2viz/src/main.rs:330-480 | What a snapshot has of a program whose returns and catches can be told is decodable, wherever it cuts the log. |
| EndToEnd.BuiltDecoded | funtrace2viz/src/main.rs:550-653 | For such programs the file is decoded to the true calls with no condition on the windows. |
| Histogram.RoutingInvisible | funcount.cpp:131-138 | However calls are routed to per-core tables, the tables have the pages and add up to the counts of a single one. |
| Histogram.CountsExact | funcount.cpp:82-117 | A bucket's count is the number of calls to it made since its page was allocated, modulo 2^64. |
| Histogram.UnknownExact | funcount.cpp:100-117 | The unknown count is the number of calls to pages not allocated at the time. |
| Histogram.CallsConserved | funcount.cpp:131-138 | All counts and the unknown one add up to the number of calls. |
| Histogram.CallsBelowExactly | funcount.cpp:100-117 | All calls are below a bucket if and only if their addresses are below eight times as much. |
| Histogram.SegmentPages | funcount.cpp:82-87 | The pages allocated for a segment are those that reach into it and one more at its end. |
| Histogram.SegmentCovered | funcount.cpp:82-117 | Every address of a segment is on an allocated page, in the bucket of its eight bytes. |
| PageTables.BitsOfPage | funcount.cpp:26-35 | The high and middle bits are the two indices of the page number, the low bits lead to its bucket. |
| PageTables.CountsPagesL2.AllocateRange | funcount.cpp:82-99 | The pages of the range are added to the table empty, and pages there already keep their counts. |
| PageTables.CountsPagesL2.Count | funcount.cpp:100-117 | Counting through the two levels counts in the bucket of the address, or as unknown. |
| PageTables.CountsPagesL2.Entries | funcount.cpp:170-197 | The triple loop lists exactly the nonzero buckets in the order of their addresses. |
| PageTables.CountsPagesL2.MergeInto | funcount.cpp:170-205 | A destroyed table's counts and unknown count are added to the last table's. |
| PageTables.EntriesMerge | funcount.cpp:184-187 | Adding a table's nonzero entries one by one is adding it up bucket by bucket. |
| PageTables.FinalReport | funcount.cpp:146-205 | Destroying the tables, the last first, reports what a single table would have counted, whatever the routing. |
| PageTables.EntriesOrdered | funcount.cpp:170-183 | Reported addresses strictly increase, so each bucket is reported once. |
| PageTables.LineExact | funcount.cpp:176-183 | A reported count is that of the calls to the bucket since its page was allocated. |
| PageTables.NonzeroReported | funcount.cpp:176-183 | Every bucket with a nonzero count is reported. |
| PageTables.ReportConserves | funcount.cpp:176-205 | Reported counts and unknown calls add up to all calls, modulo 2^64. |
| Symbols.MapSearchIsScan | procaddr2sym/src/lib.rs:21-33 | On disjoint maps in any order, sorting and halving finds the map a scan finds. |
| Symbols.FaithfulExist | procaddr2sym/src/lib.rs:75-94 | For every place there is a search that does what the library documents and picks the element there if it is an equal one. |
| Symbols.CandidateDecides | procaddr2sym/src/lib.rs:75-94 | Of any faithful search the answer is decided by one candidate: a symbol with the address as base, or, if there is none, the last one with a smaller base; without a candidate nothing is found. |
| Symbols.FoundExactly | procaddr2sym/src/lib.rs:75-94 | Every faithful search finds a symbol if and only if there is a candidate and all candidates contain the address. |
| Symbols.ScanExactly | procaddr2sym/src/lib.rs:75-94 | Every faithful search finds what a scan finds if and only if every candidate is the scan's answer, or contains the address as little as any symbol does. |
| Symbols.SymbolSearchIsScan | procaddr2sym/src/lib.rs:75-94 | On disjoint or identical symbols, halving finds what a scan finds, for every address and every faithful search. |
| Symbols.OneSymbolFound | procaddr2sym/src/lib.rs:75-94 | A symbol alone is found for as many addresses from its base on as it is long. |
| Symbols.SizelessHides | procaddr2sym/src/lib.rs:75-94 | A function and a label without a size inside it: every faithful search finds nothing behind the label, where a scan finds the function. |
| Symbols.CloneStripped | procaddr2sym/src/lib.rs:202-214 | A clone's name is stripped to the name of the function. |
| Symbols.StripCloneAgain | procaddr2sym/src/lib.rs:202-214 | A stripped name has nothing to strip. |
| Symbols.SymbolizeIsScan | procaddr2sym/src/lib.rs:245-310 | Symbolization with searches is symbolization with scans, for disjoint maps and disjoint or identical symbols. |
| Symbols.SegmentTranslates | funtrace.cpp:562-567 | An address in a segment written by the runtime becomes address minus load bias if and only if the first header holding its file offset agrees on address minus offset; it is unknown if and only if there is none. |
| Symbols.SegmentHolds | funtrace.cpp:562-567 | The map written for a segment holds exactly the addresses the segment takes up. |
| Symbols.SegmentNamed | procaddr2sym/src/lib.rs:286-310 | If all headers holding the offset agree, symbolization with searches gives an address of the segment the function the file's symbols have there. |
| Symbols.SegmentUnnamed | procaddr2sym/src/lib.rs:322-372 | An address of the segment in no symbol is given the function debug information has there, or "??", at the address itself and without a size. |
| Symbols.OneHeader | procaddr2sym/src/lib.rs:286-296 | A header alone translates as many file offsets as it has bytes, from its own offset on. |
| SymbolCache.ProcAddr2Sym.SetProcMaps | procaddr2sym/src/lib.rs:233-239 | New maps drop the cached offsets and keep the parsed files. |
| SymbolCache.ProcAddr2Sym.FindHeader | procaddr2sym/src/lib.rs:286-300 | The loop finds the first header that holds the offset. |
| SymbolCache.ProcAddr2Sym.Lookup | procaddr2sym/src/lib.rs:245-310 | For any maps, the answer is the one computed from scratch but for the offset, which is the one cached under the map's start if there is one; the offset that was used is cached. |
| SymbolCache.Serve | procaddr2sym/src/lib.rs:230-310 | Over any interleaving of new maps and lookups the answers are those computed with the offsets cached since the last maps; the caches of files never show. |
| SymbolCache.CachesInvisible | procaddr2sym/src/lib.rs:230-310 | If maps that are found and start together have the same offset, the answers over any interleaving are those computed from scratch. |
| SymbolCache.ShowsExactly | procaddr2sym/src/lib.rs:277-300 | Whatever was asked before, every question under given maps is answered with the offset it would get first, if and only if maps that are found and start together have the same offset. |
| SymbolCache.DisjointInvisible | procaddr2sym/src/lib.rs:230-310 | For disjoint maps, as those of a process are, that is always so. |
| SymbolCache.OverlapShows | procaddr2sym/src/lib.rs:277-300 | Two overlapping maps with the same start: asking in the longer one first changes the answer in the shorter one. |
| Timestamps.ParseTimestamp | funtrace.cpp:1120-1142 | The backward digit loop computes the number before ": " modulo 2^64, or zero if there is none. |
| Timestamps.StoredExactlyIf | funtrace.cpp:1120-1142 | A line has a time other than zero if and only if digits after a space, and then the first ": ", with no NUL before, give that number modulo 2^64. |
| Timestamps.StampStored | funtrace.cpp:1120-1142 | A line stamped with a number between zero and 2^64 is stored with that number. |
| Timestamps.KeptExactly | funtrace2viz/src/main.rs:104-129 | A line is kept if and only if between its last white space before the first ": ", of one byte, and there, there is a number of 64 bits; then with that timestamp and only the number rewritten. |
| Timestamps.NumberRead | funtrace2viz/src/main.rs:111 | Every number below 2^64 is read, with a plus or without, and none from there on. |
| Timestamps.WhitespaceExactly | funtrace2viz/src/main.rs:106 | The white space of one byte is tab, line feed, vertical tab, form feed, carriage return and space; nineteen other characters take more. |
| Timestamps.ParseFtraceLines | funtrace2viz/src/main.rs:99-133 | The loop keeps the outcome of every line in order. |
| Timestamps.ParsersAgree | funtrace2viz/src/main.rs:104-127 | A line the runtime stored is kept by the decoder if and only if its number is below 2^64, then with the same number and only its digits replaced. |
| Timestamps.OverflowDisagrees | funtrace.cpp:1130-1137 | For numbers from 2^64 on, the runtime stores another time and the decoder drops the line. |
| Timestamps.StoredLinesKept | funtrace2viz/src/main.rs:99-133 | Lines stored exactly come out one for one with the times stored. |
| Ftrace.FtraceHandler.ReadLine | funtrace.cpp:1239-1248 | A line with a timestamp is logged, others are not. |
| Ftrace.FtraceHandler.FindEarliestEventAfter | funtrace.cpp:1303-1309 | The search loop returns the lower bound of the time. |
| Ftrace.FtraceHandler.Copy | funtrace.cpp:1290-1297 | The copy loop appends the lines of a range. |
| Ftrace.FtraceHandler.EventsSnapshot | funtrace.cpp:1311-1334 | From any positive time on, the snapshot is, in order, the last N stored lines at that time or later. |
| Ftrace.RetainedFrom | funtrace.cpp:535-536 | A threshold of one leaves out slots never written; a threshold of zero gives an empty line for each. |
| Ftrace.CoreDumpSame | funtrace_gdb.py:56-67 | The scan of a core dump has the lines of a snapshot of everything. |

## Left out

- TSC frequency discovery, `cpuid`, `dmesg`, signals, `dlsym` interposition, the ftrace file system and its reader
  thread: operating-system plumbing.
- JSON text, source embedding, file lists, warnings and `self.samples`: output is the sequence of decoded calls and the
  numeric strings.
- ELF and DWARF parsing, demangling, path substitution, reading and sorting of symbol tables, parsing of PROCMAPS text
  (malformed maps abort): their results are inputs.
- Weak memory and torn reads beyond the one slot in flight.
- Reading memory that was never written: in the model it has some contents, and `WholeBuffer.WholeExactly` says which of
  them do no harm.
- Buffer sizes from 2^31 on, whose shift overflows, and negative ones.
- Tail calls and destructors called while unwinding: a run is what the hooks log.
- `update_name`, thread names, process ids, `funtrace_pause_and_get_snapshot_up_to_age`'s subtraction, and the wrappers and
  scripts around the compiler.
- Deleting page tables as they are destroyed: `PageTables` leaves a merged table as it was, which nothing reads again.
- Text encodings: command lines and ftrace chunks are bytes whose validity as UTF-8 is not modelled, and splitting
  ftrace text into lines (which drops a trailing carriage return) is not part of the model.
- TraceFile.ParseChunks: the loop has no meaning here on a file on which it does not end. Where a file system limits
  positions below 2^63, skipping past that limit is an error this does not have.
- TraceFile.UnknownChunksIgnored: unknown chunks longer than the rest of the file are modelled by the reader but are not
  well-formed chunks, so this theorem does not speak of them.
- Converter.TraceConverter.OldestEvent: the greatest age is subtracted with wraparound, as in a build without overflow checks.
- Converter.TraceConverter.WriteSample: one age limit and one symbol table for the sample; `WholeFile.WriteSamples` supplies
  them sample by sample.
- WholeFile.WriteSamples: parsing is finished before the first sample is written, which changes only what is left behind when
  a file turns out malformed; of a sample's ftrace text only the timestamps matter here, its lines are in `Timestamps`.
- PrintedTimes.PrintTimes: a frequency of zero, by which the source would divide, is excluded.
- Decimal.Rat2Dec: the rational is not reduced to lowest terms before the digits are produced, which does not change them.
- EndToEnd.TracedCallsDecoded: the snapshots are of quiescent threads (threads that still trace are in `PausedSnapshot`), no
  thunks are traced, and there is no age limit and no selection of threads.
- Jumps.JumpsSimulated: own-address returns only, and no catches; for caller-address returns there is the one step of
  `Jumps.CallerReturnAfterJump`.
- PauseProtocol.CopiesConsistent: full copies of the buffers; copies from a time on are in `PausedSnapshot`.
- PausedSnapshot.PausedCopy: each search sees one state of the memory, and so does the copy. Only the slot in flight changes
  meanwhile, and each search looks at it at most once.
- RegistrySnapshot.SnapshotAll: no thread traces meanwhile, and what is left behind by a failure is not described.
- SymbolCache.Serve: files do not change.
- Symbols.SymbolSearchIsScan: the library's binary search is known by its documentation only; which of several equal elements
  it finds is left open.
- Symbols.CloneStripped: names that themselves end in the beginning of a clone suffix are excluded.
- Timestamps.ParsersAgree: lines are sequences of characters, and what comes after a NUL is not seen by the runtime.
