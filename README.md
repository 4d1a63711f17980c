# Brainfuck interpreter engine, modelled in Dafny

This project models the execution core of a C# Brainfuck interpreter. The core has three parts:

- **The preprocessor** `BrainfuckInterpreterBase.Strip`. It scans the source once. It drops `;` line comments and every character other than the eight commands `><+-.,[]`. It returns the command string plus two dictionaries: output index → (line, column) of the source character, and line → trimmed comment text.
- **The optimized interpreter** `BrainfuckOptimizedInterpreter.Interpret`.
  - It runs the raw program text over a fixed tape of 10240 cells.
  - The cells are C# `char`, so they wrap modulo 65536.
  - The cursor has no bounds check.
  - It keeps a loop-start list with a top index and a write-once jump cache.
  - A forward depth-counting scan (`FindNextCommandAfterLoopPosition`) finds the end of a loop.
- **The debug interpreter** `BrainfuckDebugInterpreter.Interpret`.
  - It strips the source first.
  - Its tape starts as one cell and grows on demand. `<` at cell 0 is an explicit error.
  - It buffers the program's output until the end.
  - Per command it writes a trace record. When the source line changes it writes the comments of the lines passed, each with a tape dump.
  - At the end it makes one more comment flush and then writes the buffered output. That flush starts at the line of the last position the loop recorded (the last command executed, or the target of its jump) and stops before the line numbered by the largest mapped column, so comment lines after the last command may be skipped, and sometimes none are written.

Files:

- `base.dfy` (module `InterpreterBase`): the command constants, the 16-bit `Cell`, the exceptions as a `Fault` datatype, and the bracket-depth scan that both interpreters share, as a specification.
- `preprocessor.dfy` (module `Preprocessor`):
  - a declarative specification, indexed by the number of source characters consumed: `LineOf`, `ColumnOf`, `InComment`, `Kept`, `StrippedUpTo`, `PositionsUpTo`, `CommentsUpTo`;
  - the imperative `Strip` method, with its inner comment loop, proved equal to that specification;
  - the properties of the result.
- `optimized.dfy` (module `OptimizedInterpreter`):
  - `State`, `Step` (one pass of the dispatch loop) and `Run` (the loop, bounded by fuel);
  - the C# `Interpret` loop and the scan as methods proved equal to them;
  - a state invariant, per-command lemmas, and small programs.
- `debug.dfy` (module `DebugInterpreter`):
  - the same structure, with trace records, comment blocks and the output section as an abstract `Event` sequence;
  - `Loop` is the dispatch loop and `Run` adds the final report.
  - Each piece of the C# loop body appears twice. A function (`Execute`, `LoopStart`, `LoopEnd`, `CommentsBefore`, `TraceAt`, `Step`, `Finish`) is what the lemmas are about. A straight-line method (`ExecuteCommand`, `EnterLoop`, `LeaveLoop`, `WriteCommentsBefore`, `WriteDebug`, `Pass`, `WriteReport`) is the imperative code, proved equal to its function. The methods stay separate from `DispatchLoop` so that each proof covers one piece of the loop body, not all eight commands at once.
- `hello_world.dfy` (module `HelloWorldRun`): the Hello World program of the unit tests, run through the optimized specification `Run`.
  - `HelloWorldOutput` proves that on any input, with fuel for its 358 commands, the run completes and the output spells `Hello World!`.
  - The same program and assertion appear in `BrainfuckInterpreter.UnitTest/BrainfuckInterpreterTest.cs:17-26`.
  - The program is written as five concatenated pieces whose juxtaposition is the test's string.

Modelling choices:

- **Exceptions are `Fault` values.** `Step` returns `Result<State>`. The faults are:
  - `CellIndexOutOfRange`: a `List<char>` index outside the tape;
  - `LoopEndNotFound`: the forward scan indexes past the end of the code;
  - `LoopStartIndexOutOfRange`: the loop-start list indexed with the top index;
  - `NegativeCellIndex`: the debug interpreter's explicit check;
  - `UndefinedCommand`: the debug interpreter's default branch;
  - `PositionNotMapped`: a missing dictionary key.
- **Input is a sequence of `Cell`.** `(char)input.Read()` at end of input stores 65535. Output is an appended sequence.
- **Termination is bounded by fuel.** A run ends `Halted`, `Failed(fault, state)` or `OutOfFuel`.
- **The state of a failed optimized run is the state the failing command left.** Only `,` changes anything before it throws. `memoryCells[currentCell] = (char)input.Read();` reads the input before the tape setter rejects the index, so that input unit is gone (`Interrupted`, `FaultEffects`).

Where the code differs from the expectations its tests state in comments, or from the usual byte-cell Brainfuck, the model follows the code:

- A `]` with no open loop on a zero cell only advances, so `]` alone completes (`LoneLoopEndCompletes`). The test at BrainfuckOptimizedInterpreterTest.cs:135 expects `]` to fail.
- `<>` moves the cursor to -1 and back without touching a cell, so it completes (`LeftRightCompletes`). The test at BrainfuckOptimizedInterpreterTest.cs:95 expects it to run out of memory.
- No program length limit exists in the code. The test at BrainfuckOptimizedInterpreterTest.cs:115 expects a long program to be rejected.
- A `]` on a nonzero cell with no open loop indexes the list with -1.
- Cells are 16-bit `char`, not bytes.
- The optimized tape is a fixed 10240 cells with no bounds check on the cursor. The debug tape is unbounded.
- The loop-start list is popped only by an uncached backward jump, never when a loop exits on a zero cell, exactly as written. In `++[>+[-]<-]` the outer `]` therefore jumps into the inner loop's body (`NestedLoopReusesInnerStart`).
- The final comment flush of the debug interpreter uses the largest mapped **column** as its line bound. It is modelled as written (`Finish`, `HaltedReport`).
- An empty stripped program fails there, looking up position -1 (`RunFaults`).

## Model

| member | source | states |
|---|---|---|
| InterpreterBase.Increment | BrainfuckInterpreter/BrainfuckOptimizedInterpreter.cs:33-35 | `cell++` on a `char`: 65535 wraps to 0, otherwise one more |
| InterpreterBase.Decrement | BrainfuckInterpreter/BrainfuckOptimizedInterpreter.cs:36-38 | `cell--` on a `char`: 0 wraps to 65535, otherwise one less |
| InterpreterBase.MatchingLoopEnd | BrainfuckInterpreter/BrainfuckOptimizedInterpreter.cs:91-102 | a result q is the first index after the `[` where the depth count returns to 0, on a `]`; no result means the depth stays positive to the end of the code |
| InterpreterBase.ClosesAtUnique | BrainfuckInterpreter/BrainfuckOptimizedInterpreter.cs:95-100 | the closing `]` is unique, so any scan that stops where the depth first returns to 0 agrees with MatchingLoopEnd |
| Preprocessor.Strip | BrainfuckInterpreter/BrainfuckInterpreterBase.cs:47-78 | the loop with its line, column and position counters and its inner comment loop returns exactly the specified stripped text, position map and comment map |
| Preprocessor.ScanComment | BrainfuckInterpreter/BrainfuckInterpreterBase.cs:55-61 | a comment adds only its trimmed text under its own line, which has no entry yet, and changes neither the output nor the positions; the scan resumes after the newline on the next line at column 1 |
| Preprocessor.ScanChar | BrainfuckInterpreter/BrainfuckInterpreterBase.cs:62-75 | outside comments a command is appended and mapped to the current line and column under the next key, and anything else is dropped with no entry; a newline bumps the line and resets the column, any other character bumps the column by its number of UTF-16 code units |
| Preprocessor.NewlineStep | BrainfuckInterpreter/BrainfuckInterpreterBase.cs:69-72 | the newline that ends a comment is outside it, records nothing, and moves to the next line at column 1 |
| Preprocessor.KeptIndicesSpec | BrainfuckInterpreter/BrainfuckInterpreterBase.cs:62-66 | the copied source indices are exactly the command characters outside comments, in increasing order |
| Preprocessor.StrippedUpToSpec | BrainfuckInterpreter/BrainfuckInterpreterBase.cs:63-64 | output character i is the source character at the i-th copied index, and it is a command |
| Preprocessor.TrimSpec | BrainfuckInterpreter/BrainfuckInterpreterBase.cs:60 | `Trim` returns the slice of its argument between a white-space prefix and a white-space suffix, and the result neither starts nor ends with white space |
| Preprocessor.TrimStartSpec | BrainfuckInterpreter/BrainfuckInterpreterBase.cs:60 | the leading part removed is all white space and the rest does not start with white space |
| Preprocessor.TrimEndSpec | BrainfuckInterpreter/BrainfuckInterpreterBase.cs:60 | the trailing part removed is all white space and the rest does not end with white space |
| Preprocessor.OutputIsCommands | BrainfuckInterpreter/BrainfuckInterpreterBase.cs:22 | every output character is one of the eight commands; no `;` and no newline survive |
| Preprocessor.PositionKeys | BrainfuckInterpreter/BrainfuckInterpreterBase.cs:65 | the position map has exactly the keys 0 .. output length - 1 |
| Preprocessor.PositionOfOutput | BrainfuckInterpreter/BrainfuckInterpreterBase.cs:63-66 | key k holds the line and column of the source character, outside any comment, that was copied to output[k] |
| Preprocessor.PositionsFromOne | BrainfuckInterpreter/BrainfuckInterpreterBase.cs:50-51 | every mapped line and column is at least 1 |
| Preprocessor.LineMonotone | BrainfuckInterpreter/BrainfuckInterpreterBase.cs:69-72 | the line counter never decreases along the source |
| Preprocessor.SurrogatePairColumns | BrainfuckInterpreter/BrainfuckInterpreterBase.cs:54-75 | columns count UTF-16 code units, as the C# loop over `programCode.Length` does: in an emoji followed by `+`, the `+` is mapped to line 1, column 3 |
| Preprocessor.SourceOrder | BrainfuckInterpreter/BrainfuckInterpreterBase.cs:69-75 | a later source index is on a later line, or on the same line with a larger column |
| Preprocessor.PositionsInSourceOrder | BrainfuckInterpreter/BrainfuckInterpreterBase.cs:65 | mapped positions follow the output order: lines never decrease and, within a line, columns strictly increase |
| Preprocessor.CommentNeverOutput | BrainfuckInterpreter/BrainfuckInterpreterBase.cs:55-59 | no character from a `;` up to the next newline (or the end of the text) reaches the output |
| Preprocessor.CommentRecorded | BrainfuckInterpreter/BrainfuckInterpreterBase.cs:55-61 | every comment is recorded under the line of its `;`, with the text after the `;` up to the end of the line, trimmed |
| Preprocessor.CommentKeysFromStarts | BrainfuckInterpreter/BrainfuckInterpreterBase.cs:60 | every line in the comment map is the line of some comment-opening `;` |
| Preprocessor.CommentKeysBelowLine | BrainfuckInterpreter/BrainfuckInterpreterBase.cs:57-60 | when a comment starts, all recorded comments are on earlier lines, so the dictionary `Add` never meets a duplicate key |
| Preprocessor.CommentLinesIncrease | BrainfuckInterpreter/BrainfuckInterpreterBase.cs:57-60 | comment starts lie on strictly increasing lines: at most one comment per line |
| Preprocessor.StripOfCommands | BrainfuckInterpreter/BrainfuckInterpreterBase.cs:62-66 | a text of commands only strips to itself |
| Preprocessor.StripIdempotent | BrainfuckInterpreter/BrainfuckInterpreterBase.cs:39 | stripping a stripped program changes nothing |
| OptimizedInterpreter.Initial | BrainfuckInterpreter/BrainfuckOptimizedInterpreter.cs:18-24 | 10240 cells of 0, cursor 0, pc 0, empty loop-start list with top -1, empty cache |
| OptimizedInterpreter.InitialValid | BrainfuckInterpreter/BrainfuckOptimizedInterpreter.cs:18-24 | the initial state satisfies the invariant |
| OptimizedInterpreter.LoopStartPreservesValid | BrainfuckInterpreter/BrainfuckOptimizedInterpreter.cs:45-66 | `[` keeps the invariant; a new cache entry holds the index after the matching `]` |
| OptimizedInterpreter.LoopEndPreservesValid | BrainfuckInterpreter/BrainfuckOptimizedInterpreter.cs:67-79 | `]` keeps the invariant; a new cache entry holds the index after a `[` |
| OptimizedInterpreter.StepPreservesValid | BrainfuckInterpreter/BrainfuckOptimizedInterpreter.cs:25-81 | every successful command keeps the invariant: tape size 10240, top within the list or -1, the list holds `[` positions, cache targets are what the uncached path computes |
| OptimizedInterpreter.RunPreservesValid | BrainfuckInterpreter/BrainfuckOptimizedInterpreter.cs:23 | every state a run reaches is valid; in particular the tape stays exactly 10240 cells long |
| OptimizedInterpreter.CellArithmeticFrame | BrainfuckInterpreter/BrainfuckOptimizedInterpreter.cs:33-38 | `+`/`-` change the current cell by ±1 modulo 65536 and leave cursor, other cells, list, top, cache, input and output unchanged |
| OptimizedInterpreter.IncrementThenDecrement | BrainfuckInterpreter/BrainfuckOptimizedInterpreter.cs:33-38 | `+` followed by `-` restores the state apart from pc |
| OptimizedInterpreter.MovesOnlyShiftCursor | BrainfuckInterpreter/BrainfuckOptimizedInterpreter.cs:27-32 | `>`/`<` never fail and change only the cursor, with no bounds check |
| OptimizedInterpreter.CellFaultExactly | BrainfuckInterpreter/BrainfuckOptimizedInterpreter.cs:34-46 | a cell-index fault happens exactly when a cell command runs with the cursor outside 0..10239, and names that index |
| OptimizedInterpreter.NonCommandIsNoOp | BrainfuckInterpreter/BrainfuckOptimizedInterpreter.cs:80-81 | any other character only advances pc (the switch has no default) |
| OptimizedInterpreter.InputStoresNextOrMax | BrainfuckInterpreter/BrainfuckOptimizedInterpreter.cs:42-44 | `,` stores the next input code unit and consumes it, or 65535 at end of input |
| OptimizedInterpreter.OutputAppendsCell | BrainfuckInterpreter/BrainfuckOptimizedInterpreter.cs:39-41 | `.` appends the current cell to the output and changes nothing else |
| OptimizedInterpreter.LoopSkipTarget | BrainfuckInterpreter/BrainfuckOptimizedInterpreter.cs:45-55 | `[` on a zero cell continues right after its matching `]`, from the cache or the scan, without the pc++, caching that target; it fails exactly when no `]` matches |
| OptimizedInterpreter.LoopEnterPushes | BrainfuckInterpreter/BrainfuckOptimizedInterpreter.cs:57-65 | `[` on a nonzero cell increments top, appends or overwrites its own position at that slot, leaves the other slots, and advances |
| OptimizedInterpreter.LoopEndStack | BrainfuckInterpreter/BrainfuckOptimizedInterpreter.cs:67-79 | `]` on zero only advances (no pop); on nonzero it takes the cached target, or jumps to stored top + 1, pops and caches that target, or fails with index -1 on an empty list |
| OptimizedInterpreter.CacheWriteOnce | BrainfuckInterpreter/BrainfuckOptimizedInterpreter.cs:47-53 | cache entries are never changed or removed, and a command adds at most the entry for its own position |
| OptimizedInterpreter.StackFaultOnlyWhenEmpty | BrainfuckInterpreter/BrainfuckOptimizedInterpreter.cs:74 | in a valid state the list is indexed out of range only by an uncached `]` with top -1 |
| OptimizedInterpreter.ReachableFaults | BrainfuckInterpreter/BrainfuckOptimizedInterpreter.cs:25-82 | a run from a valid state can fail only with an out-of-range cell index, a missing `]`, or list index -1 |
| OptimizedInterpreter.FindNextCommandAfterLoopPosition | BrainfuckInterpreter/BrainfuckOptimizedInterpreter.cs:91-102 | the depth-counting scan returns the index after the matching `]`, and nothing exactly when no `]` matches |
| OptimizedInterpreter.Interpret | BrainfuckInterpreter/BrainfuckOptimizedInterpreter.cs:17-83 | the dispatch loop's outcome is the specified run from the initial state |
| OptimizedInterpreter.RunStep | BrainfuckInterpreter/BrainfuckOptimizedInterpreter.cs:81 | a successful command consumes one unit of fuel and the run continues from the new state |
| OptimizedInterpreter.LeftRightCompletes | BrainfuckInterpreter/BrainfuckOptimizedInterpreter.cs:27-32 | `<>` passes through cursor -1 and completes |
| OptimizedInterpreter.LoneLoopStartFails | BrainfuckInterpreter/BrainfuckOptimizedInterpreter.cs:98 | `[` alone fails: the scan runs past the end of the code |
| OptimizedInterpreter.FaultEffects | BrainfuckInterpreter/BrainfuckOptimizedInterpreter.cs:34-46 | a failing command ends the run with its fault. It leaves the state untouched, except that a failing `,` can only be a cell-index fault at the cursor, and it has consumed one input unit (none at end of input) |
| OptimizedInterpreter.FailedReadConsumesInput | BrainfuckInterpreter/BrainfuckOptimizedInterpreter.cs:42-44 | `<,` with input x followed by rest fails at cell -1 with rest as the remaining input: the read happens before the tape setter throws |
| OptimizedInterpreter.LoneLoopEndCompletes | BrainfuckInterpreter/BrainfuckOptimizedInterpreter.cs:67-79 | `]` alone on the zero cell completes |
| OptimizedInterpreter.NestedLoopReusesInnerStart | BrainfuckInterpreter/BrainfuckOptimizedInterpreter.cs:57-79 | in `++[>+[-]<-]` the inner loop exits without a pop, the outer `]` jumps into the inner body, and the run fails at cell -1 |
| HelloWorldRun.HelloWorldOutput | BrainfuckInterpreter.UnitTest/BrainfuckOptimizedInterpreterTest.cs:18-27 | on any input, with fuel for 358 commands, the Hello World run completes and its output spells `Hello World!` |
| HelloWorldRun.LoopRuns | BrainfuckInterpreter.UnitTest/BrainfuckOptimizedInterpreterTest.cs:20 | the program's loop runs n times from counter n, adding 7n, 10n and 3n to cells 1-3, in 28 commands per pass |
| HelloWorldRun.IncrementRun | BrainfuckInterpreter/BrainfuckOptimizedInterpreter.cs:33-35 | n consecutive `+` add n to the current cell in n commands, for a cell that does not wrap |
| HelloWorldRun.DecrementRun | BrainfuckInterpreter/BrainfuckOptimizedInterpreter.cs:36-38 | n consecutive `-` subtract n from the current cell in n commands, for a cell that does not wrap |
| HelloWorldRun.MoveRun | BrainfuckInterpreter/BrainfuckOptimizedInterpreter.cs:27-32 | n consecutive `>` (or `<`) move the cursor by n in n commands |
| DebugInterpreter.WriteComment | BrainfuckInterpreter/BrainfuckDebugInterpreter.cs:115-124 | the `for` loop writes the specified comment blocks for lines fromLn .. toLn - 1 |
| DebugInterpreter.CommentBlocksInRange | BrainfuckInterpreter/BrainfuckDebugInterpreter.cs:116-118 | every block written is the comment of a commented line within the range, with the current tape and cursor |
| DebugInterpreter.CommentBlocksAscending | BrainfuckInterpreter/BrainfuckDebugInterpreter.cs:116 | the blocks come in strictly ascending line order |
| DebugInterpreter.CommentBlocksComplete | BrainfuckInterpreter/BrainfuckDebugInterpreter.cs:116-118 | every commented line of the range is written |
| DebugInterpreter.NoCommentsForEmptyRange | BrainfuckInterpreter/BrainfuckDebugInterpreter.cs:116 | if toLn ≤ fromLn nothing is written |
| DebugInterpreter.TraceAt | BrainfuckInterpreter/BrainfuckDebugInterpreter.cs:111-113 | the trace record exists exactly when the position is mapped and the cursor is within the tape |
| DebugInterpreter.MaxColumn | BrainfuckInterpreter/BrainfuckDebugInterpreter.cs:90 | the largest column among the mapped positions: attained, and no smaller than any |
| DebugInterpreter.MaxColumnOfValues | BrainfuckInterpreter/BrainfuckDebugInterpreter.cs:90 | the maximum loop over the values returns that largest column |
| DebugInterpreter.FindEndOfLoopPosition | BrainfuckInterpreter/BrainfuckDebugInterpreter.cs:98-109 | the scan returns the matching `]` itself, and nothing when the scan would run past the end |
| DebugInterpreter.WriteCommentsBefore | BrainfuckInterpreter/BrainfuckDebugInterpreter.cs:19-20 | the line check, with C# short-circuit order and its dictionary faults, writes the specified blocks |
| DebugInterpreter.WriteDebug | BrainfuckInterpreter/BrainfuckDebugInterpreter.cs:111-113 | the trace record or the fault of its lookup |
| DebugInterpreter.ExecuteCommand | BrainfuckInterpreter/BrainfuckDebugInterpreter.cs:24-88 | the switch computes the specified effect, with the trace after the effect, or before the jump for brackets |
| DebugInterpreter.EnterLoop | BrainfuckInterpreter/BrainfuckDebugInterpreter.cs:47-67 | the `[` case after its trace computes the specified jump or push |
| DebugInterpreter.LeaveLoop | BrainfuckInterpreter/BrainfuckDebugInterpreter.cs:71-82 | the `]` case after its trace computes the specified jump, pop or advance |
| DebugInterpreter.Pass | BrainfuckInterpreter/BrainfuckDebugInterpreter.cs:19-88 | one loop pass is the specified step |
| DebugInterpreter.DispatchLoop | BrainfuckInterpreter/BrainfuckDebugInterpreter.cs:10-89 | the dispatch loop's exit is the specified loop outcome |
| DebugInterpreter.WriteReport | BrainfuckInterpreter/BrainfuckDebugInterpreter.cs:90-93 | the final comments and output section are the specified report, or the fault of the position lookup |
| DebugInterpreter.InterpretStripped | BrainfuckInterpreter/BrainfuckDebugInterpreter.cs:10-93 | the run on a stripped program is the specified run |
| DebugInterpreter.Interpret | BrainfuckInterpreter/BrainfuckDebugInterpreter.cs:7-94 | stripping then running is the specified run of the loaded program |
| DebugInterpreter.LoadWellFormed | BrainfuckInterpreter/BrainfuckDebugInterpreter.cs:9 | the stripped program maps exactly its own indices, holds only commands, and has lines from 1 |
| DebugInterpreter.InitialValid | BrainfuckInterpreter/BrainfuckDebugInterpreter.cs:10-17 | the initial state (one zero cell, cursor 0, previous -1) satisfies the loop invariant |
| DebugInterpreter.CommentsBeforeValid | BrainfuckInterpreter/BrainfuckDebugInterpreter.cs:19-20 | on a stripped program the line check never fails; it writes the comments from the previous command's line (0 before the first) up to the current line |
| DebugInterpreter.StepPreservesValid | BrainfuckInterpreter/BrainfuckDebugInterpreter.cs:18-89 | each successful pass keeps the invariant: cursor within the tape, previous = pc - 1, list and cache consistent, no output section yet |
| DebugInterpreter.StepFaults | BrainfuckInterpreter/BrainfuckDebugInterpreter.cs:29-32 | on a stripped program a pass fails exactly on `<` at cell 0, `[` on zero with no matching `]`, or uncached `]` on nonzero with an empty list, so the undefined-command branch is unreachable |
| DebugInterpreter.LoopKeepsValid | BrainfuckInterpreter/BrainfuckDebugInterpreter.cs:18-89 | the loop ends in a valid state, at the end of the code when it completes, and only with those three faults when it fails |
| DebugInterpreter.RunFaults | BrainfuckInterpreter/BrainfuckDebugInterpreter.cs:90 | a program with no command fails looking up position -1; otherwise a run fails only with the three faults |
| DebugInterpreter.HaltedReport | BrainfuckInterpreter/BrainfuckDebugInterpreter.cs:90-93 | a completed run writes, after the loop's events, the comments from the last command's line up to the largest column, then the buffered output, which is the only and last output section |
| DebugInterpreter.ConcludeReport | BrainfuckInterpreter/BrainfuckDebugInterpreter.cs:90-93 | the same report for any loop exit the invariant allows |
| DebugInterpreter.StepTrace | BrainfuckInterpreter/BrainfuckDebugInterpreter.cs:87 | each pass writes the comments of the lines crossed, then exactly one trace record with the mapped line and column, the command, the cursor and the cell |
| DebugInterpreter.StepMoves | BrainfuckInterpreter/BrainfuckDebugInterpreter.cs:25-32 | `>` appends exactly one zero cell when it passes the last cell; `<` only decrements; the tape never shrinks and grows by at most one cell |
| DebugInterpreter.StepCellEffects | BrainfuckInterpreter/BrainfuckDebugInterpreter.cs:33-44 | `+`/`-` wrap the current cell, `.` appends it to the buffer, `,` stores the next input or 65535; only `.` writes the buffer and only `,` reads input |
| DebugInterpreter.StepJumps | BrainfuckInterpreter/BrainfuckDebugInterpreter.cs:45-83 | `[` on zero continues after its matching `]` and caches that `]`; `[` otherwise pushes; `]` on nonzero continues after a loop start, popping when uncached; `]` on zero never pops; cache entries never change |

## Left out

- Stream mechanics are not modelled. Input is a sequence of `Cell`; `StreamReader` decoding and `StreamWriter` buffering are not part of this model. The optimized interpreter's `output.WriteAsync` (BrainfuckOptimizedInterpreter.cs:40) is modelled as an immediate append, without its fire-and-forget asynchrony.
- Text formatting is not modelled: the trace lines, the memory dumps, `ConvertToPrintable` (BrainfuckDebugInterpreter.cs:96) and the `Program output:` lines. Trace records, comment blocks and the output section are abstract `Event` values.
- `Program.cs` (argument parsing, file reading, console wiring) and `IBrainfuckInterpreter.cs` (an interface) are not part of this model. Neither holds interpreter logic.
- Debug directives that appear only as comment text in tests are not modelled. No shown code implements them.
- Runs that do not terminate are cut off by the `fuel` bound. `OutOfFuel` says nothing about what the C# program would do afterwards.
- Program text is a Dafny `string`, a sequence of Unicode scalar values, while a C# `string` is a sequence of UTF-16 code units. Columns are counted in code units (`Utf16Width`), so the position map agrees with the C# one. A character outside the Basic Multilingual Plane is still one source index in the model and two in C#. No observable result depends on that index, but the optimized interpreter takes one no-op pass over such a character instead of two, which changes only how much fuel a run uses. A C# string holding an unpaired surrogate has no Dafny `string` counterpart and is not modelled.
- The `int` counters of the C# code (`line`, `column`, `position`, `programPos`, `currentCell`, the top index) are unbounded integers. Their 32-bit overflow, reachable only on inputs of billions of characters, is not modelled.
- The debug interpreter's `position < 0` check (BrainfuckDebugInterpreter.cs:104) cannot fire for a non-negative start and is not modelled.
- The optimized interpreter's list capacities (BrainfuckOptimizedInterpreter.cs:10-11, 18, 20) are performance hints and are not modelled.
- DebugInterpreter.Loop: on a fault, `Failed` carries the state at the start of the failing pass. What that pass wrote before it failed is not in it: neither the comment blocks of the line check nor the trace record that a failing `[` or `]` writes before it throws (BrainfuckDebugInterpreter.cs:46, 70).
- The debug interpreter's Hello World test (BrainfuckDebugInterpreterTest.cs:20-31) is not replayed. Only the optimized run of that program is proved; the structure of the debug report is stated in general by `HaltedReport`.
- HelloWorldRun.IncrementRun and HelloWorldRun.DecrementRun: stated only for runs that stay within 0..65535, which is all the scenario needs. The wrap of a single command is stated by `Increment`, `Decrement` and `CellArithmeticFrame`.
- Both tapes are sequences, since the C# tapes are `List<char>`. Updates in place and aliasing of the list are not modelled.
