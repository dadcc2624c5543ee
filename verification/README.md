# FlameCafe profiler core, modelled in Dafny

FlameCafe is a Wii U plugin that samples the main thread's call stack to build
flame graphs. Pressing a button combo arms a number of frames. The
`GX2SwapScanBuffers` hook then starts a periodic alarm. On each tick the alarm
walks the PowerPC back-chain from r1 into a 32-slot key and counts that key in
`captureMap`. When the armed frames have passed, the hook cancels the alarm and
writes the map as folded stacks to a file named after the calendar time. A
folded-stack line looks like `root;...;leaf count`. When the file opened, the hook
then clears the map.

The model has one module per piece of `source/main.cpp`:

- `Words`: the 32-slot key (`std::array<uint32_t, 32>`) and its zero-padding
  convention.
- `StackHash`: `StackTraceCaptureHash`. It works in `bv32`, because `size_t` is
  32 bits on the target and every step wraps.
- `StackWalker`: the back-chain walk of `CaptureCallback`. Memory and
  `OSIsAddressValid` are abstract functions. It holds the loop as written, with
  its off-by-one, and the corrected loop.
- `Aggregator`: `captureMap[callStack]++` with 32-bit wrapping counters, and the
  alarm callback.
- `Text`: printf's `%u` and `%0Nd`, joining with `;`, and the readers used to
  state round trips.
- `Exporter`: the line format, the file name and the effect of `DumpCaptures`
  on the map.
- `Capture`: the combo callback and the frame hook, as a state machine over
  `(isCapturing, pendingFrames, captureMap)` that emits a trace of events.
  The events are alarm start, alarm cancel, dump and forward.

The OS is abstracted as follows:

- **Calls into the OS become parameters.**
  - The main thread and its r1 are an `Option<bv32>`.
  - Memory is a `Machine` whose `word` is total.
  - `OSGetSymbolName` is a function from address to name.
  - `fopen` success is a boolean.
  - The calendar time is a value.
  - The unspecified iteration order of `unordered_map` is a sequence listing each
    key once.
- **Alarm ticks are inputs of a run.** The callback only runs while the alarm
  is set.

Two behaviours of the code worth noting:

- `DumpCaptures` returns before `captureMap.clear()` when `fopen` fails, so the
  map is kept (`Exporter.DumpCaptures`).
- From idle with N frames armed, the hook takes N+2 calls to return to idle. One
  call starts the alarm, N calls count down, and one call cancels and dumps
  (`Capture.Countdown`).

## Model

| member | source | states |
|---|---|---|
| Words.KeyEqualIffPrefixEqual | source/main.cpp:66 | Keys are compared on all 32 slots. Under zero padding, two keys are equal exactly when their non-zero prefixes are equal. |
| StackHash.HashIsFoldOfPrefix | source/main.cpp:51-63 | The hash with its early break equals the full fold of the slots before the first zero. |
| StackHash.HashFromIsFold | source/main.cpp:53-60 | Continuing the loop from a fold of p over s gives the fold of p followed by the non-zero prefix of s. |
| StackHash.HashDependsOnlyOnPrefix | source/main.cpp:51-63 | Two keys with the same slots up to and including their first zero hash equally. |
| StackHash.HashOfEmptyStack | source/main.cpp:52-57 | A key whose first slot is zero hashes to 0, and so does the all-zero key. |
| StackHash.HoleKeysCollide | source/main.cpp:53-66 | An example: the keys [7,0,8,0,...] and [7,0,9,0,...] are distinct map keys with the same hash. The general fact follows from `HashDependsOnlyOnPrefix`. |
| StackHash.ComputeHash | source/main.cpp:51-63 | The imperative loop with `break` computes the fold of the non-zero prefix. |
| StackWalker.AsWrittenIterations | source/main.cpp:124-141 | The loop as written ends within 33 iterations even on a cyclic chain, and iteration i stores into index i. |
| StackWalker.OverrunIffDeepChain | source/main.cpp:133-137 | The store at line 134 goes to index 32, past the array, exactly when the first 33 frames of the chain are non-terminal and valid. |
| StackWalker.SelfLinkedFrameOverruns | source/main.cpp:133-137 | A concrete input, a valid frame that links to itself, makes the loop as written store into `callStack[32]`. |
| StackWalker.AsWrittenAgrees | source/main.cpp:126-141 | In the model, where the stray store has no effect, the loop as written reaches the same outcome as the corrected walk. |
| StackWalker.WalkFollowsChain | source/main.cpp:121-141 | The walk is discarded exactly when a frame reached fails the validity oracle. Otherwise slot i holds word[f_i + 4] of the i-th frame of the back-chain f_0 = r1, f_(i+1) = word[f_i], deepest first, and the later slots are zero. |
| StackWalker.WalkIsZeroPadded | source/main.cpp:124-141 | When no saved LR on the chain is zero, the key has no holes and its first zero sits at min(chain length, 32). |
| StackWalker.CaptureStack | source/main.cpp:121-141 | The imperative loop, with the bound checked before the store, computes the corrected walk. |
| Aggregator.Record | source/main.cpp:144 | `operator[]` then `++`: the key's counter becomes old+1 (1 if absent) and wraps to 0 past 2^32-1. Other keys are untouched and the key set grows by exactly that key. |
| Aggregator.RecordAddsOne | source/main.cpp:144 | Unless the counter wraps, recording raises the sum of all counters by exactly one. |
| Aggregator.AbortedSampleRecordsNothing | source/main.cpp:115-131 | With no main thread, or with any frame of the chain failing the validity oracle, the callback leaves the map unchanged. |
| Aggregator.SampleCountsWalkedKey | source/main.cpp:112-145 | When the walked key's counter is below 2^32-1, a successful sample adds one to that key's count, changes no other count, and raises the total by one. |
| Aggregator.RecordAfterClear | source/main.cpp:109 | After the map is cleared, a recorded key starts again at count 1. |
| Text.Decimal | source/main.cpp:104 | `%u` text is non-empty, all digits, and has no leading zero. |
| Text.DecimalRoundTrip | source/main.cpp:104 | The `%u` text of n reads back as n. |
| Text.PadDecimalRoundTrip | source/main.cpp:76-77 | `%0Nd` text is all digits, exactly N wide when the number fits, and reads back as the number. |
| Text.SplitOfJoin | source/main.cpp:100-104 | Joining names with `;` and splitting again gives the names back, when none is empty or holds `;`. |
| Exporter.SampleIsTerminated | source/main.cpp:86-101 | The inner loop builds the names of the non-zero slots, last slot first, each followed by `;`. |
| Exporter.RenderLineFormat | source/main.cpp:85-104 | A line is the frame names, root first, joined by `;` with no trailing `;`, then a space, the decimal count and a newline. An all-zero key gives an empty frame list. |
| Exporter.LineRoundTrip | source/main.cpp:85-104 | Each line reads back as its frame names and its count. |
| Exporter.PaddedKeyNamesPrefixReversed | source/main.cpp:88-93 | For a zero-padded key, a line names the non-zero prefix in reverse order. |
| Exporter.ZeroSlotIsSkipped | source/main.cpp:89-93 | A zero slot between two frames is skipped (`continue`), not taken as the end of the stack. |
| Exporter.FoldedLinesExample | source/main.cpp:85-104 | Keys [A,B] with count 3 and [A] with count 1 give the lines `bar;foo 3` and `foo 1`. |
| Exporter.EmptyKeyLine | source/main.cpp:103-104 | The all-zero key gives the line ` count`, because `substr(0, npos)` of the empty sample is empty. |
| Exporter.FileNameRoundTrip | source/main.cpp:75-77 | Within printf's widths the file name is 23 characters and reads back as the calendar time, with the month printed from 1. |
| Exporter.DumpCaptures | source/main.cpp:70-110 | A file exists exactly when `fopen` succeeded. It sits at `TRACE_PATH/<name>` and has one line per map entry. After a successful dump the map is empty. After a failed `fopen` no file is written and the map is unchanged. |
| Exporter.DumpedLinesMatchEntries | source/main.cpp:85-105 | The file has one line per entry. Line i reads back as the frame names and count of the i-th key of the iteration order, so every entry of the map has a line that reads back as it. |
| Exporter.DumpOrderIrrelevant | source/main.cpp:85-105 | The multiset of written lines does not depend on the map's iteration order. |
| Capture.DefaultConfig | source/main.cpp:232-234 | The stored defaults lie within the config menu's ranges, and capture is enabled. |
| Capture.Combo | source/main.cpp:248-252 | When enabled, the combo sets pendingFrames to captureFrames. When disabled, it changes nothing. It never touches isCapturing or the map. |
| Capture.ComboIsReset | source/main.cpp:248-252 | The combo resets rather than adds: pressing it twice equals pressing it once. |
| Capture.SwapScanBuffers | source/main.cpp:273-293 | The hook's effects:<br>- Every call forwards exactly once, as its last effect.<br>- The alarm starts exactly when capture begins and is cancelled exactly when it ends.<br>- pendingFrames never grows or underflows.<br>- The map changes only on the dump.<br>- The hook dumps exactly on the frame that ends capture.<br>- An idle hook with nothing pending only forwards. |
| Capture.StepAlarm | source/main.cpp:273-293 | One step keeps the alarm running exactly when isCapturing holds, with no double start or stray cancel. |
| Capture.AlarmDiscipline | source/main.cpp:275-290 | Over any run of inputs, the alarm is never started twice or cancelled while stopped. At the end it runs exactly when the plugin is capturing. |
| Capture.Drain | source/main.cpp:275-290 | From capturing with n pending, n frames only count down and forward, and frame n+1 cancels, dumps and returns to idle. |
| Capture.Countdown | source/main.cpp:275-290 | From idle with N >= 1 pending, exactly N+2 frames return to idle with the events start, N+1 forwards, then cancel, dump and forward. Every shorter prefix is capturing. |
| Capture.ComboThenCountdown | source/main.cpp:248-293 | With a valid enabled config, the combo followed by captureFrames+2 frames samples for one window and dumps once. |
| Capture.RearmNeverStartsSecondAlarm | source/main.cpp:248-290 | Re-arming while capturing resets the countdown and starts no second alarm. |
| Capture.TicksKeepControlState | source/main.cpp:112-145 | Alarm ticks never change isCapturing or pendingFrames and emit no events. While idle they change nothing. |
| Capture.HookDumpIsDumpCaptures | source/main.cpp:275-282 | The hook's dump branch leaves the map as `DumpCaptures` does and reports whether the file was written. |
| Capture.IdleUntilCombo | source/main.cpp:46-48 | From the load-time state, frames without a combo only forward and change nothing. |

## Left out

- The config menu, storage and plugin init/deinit, including directory creation. The menu's ranges survive only as `Capture.ValidConfig`.
- Concurrency between the alarm callback and the frame hook: each is one atomic step of a run.
- The periodic alarm clock, `OSMicrosecondsToTicks` and real time.
- The internals of `std::hash<uint32_t>` and of `unordered_map`. The hash is taken as libstdc++'s identity on the value, and bucket layout is not modelled.
- `OSReport` and the actual file I/O: `fprintf`, `fclose` and the truncation of existing files.
- `snprintf`'s truncation at `PATH_MAX`: the path is exactly 54 characters when the fields fit.
- Negative calendar fields: `CalendarTime` holds naturals.
- Exporter.FitsBuffer: `OSGetSymbolName` writes into a 0x100-byte buffer, so names are assumed shorter than 256 characters. Name truncation itself is not modelled.
- Exporter.LineRoundTrip: holds only for names that are non-empty and free of `;`. The program does not escape names.
- StackWalker.AsWrittenAgrees: the store to `callStack[32]` is undefined behaviour in the program and overwrites whatever follows the array on the stack. The model gives it no effect, so the agreement holds only in the model.
- Aggregator.SampleCountsWalkedKey: requires the walked key's counter to be below 2^32-1. At that value the counter wraps to 0 and the total does not rise by one.
- Aggregator.RecordAddsOne: the sum of counters rises by one only while the counter is below 2^32-1. At that value the counter wraps to 0.
- Capture.Step: a tick while the alarm is not set has no effect. The real alarm cannot fire then, and a tick racing with the cancel is not modelled.
- Capture.Config: `captureFrames` and `pendingFrames` are naturals. Within the menu's range 1..255 no uint32_t wrap can occur.

## Findings

| source | as written | input that shows it | evidently intended | confidence | as-written member | corrected member |
|---|---|---|---|---|---|---|
| source/main.cpp:133-137 | `callStack[symbolCount] = stackFrame[1]` runs before `symbolCount++ >= MAX_STACK_TRACE_DEPTH`, so the 33rd valid frame is stored at index 32, one past the array | a valid frame whose back-chain link points to itself (memory word 0x1000 everywhere, every address valid, r1 = 0x1000) | test the bound before the store, so every index stored is below 32 | high; not executed | StackWalker.SelfLinkedFrameOverruns | StackWalker.WalkFollowsChain |
