/** BrainfuckOptimizedInterpreter: runs the raw program text over a fixed
    tape of 10240 cells, with a loop-start stack (a list plus a top index)
    and a write-once jump cache keyed by bracket position.

    Step and Run are the specification: one command, and a run bounded by
    fuel. Interpret is the C# loop, with the List<char> tape as a sequence,
    proved equal to Run. */
module OptimizedInterpreter {
  import opened InterpreterBase

  const AvailableMemoryCellsCount := 10240

  /** Everything the C# Interpret loop updates: the program position, the
      cell index, the tape, the loop-start list with its top index, the
      jump cache, and the remaining input and the output written so far. */
  datatype State = State(
    pc: nat,
    cursor: int,
    tape: seq<Cell>,
    loopStarts: seq<nat>,
    top: int,
    cache: map<nat, nat>,
    input: seq<Cell>,
    output: seq<Cell>)

  function Initial(input: seq<Cell>): (st: State)
    ensures |st.tape| == AvailableMemoryCellsCount
    ensures forall i :: 0 <= i < |st.tape| ==> st.tape[i] == DefaultCellContent
    ensures st.pc == 0 && st.cursor == 0 && st.top == -1 && st.loopStarts == [] && st.cache == map[]
  {
    State(0, 0, seq(AvailableMemoryCellsCount, _ => DefaultCellContent), [], -1, map[], input, [])
  }

  /** Commands that read or write the current cell (and so index the tape). */
  predicate AccessesCell(c: char) {
    IsCommand(c) && c != GoRightCommand && c != GoLeftCommand
  }

  /** One pass of the dispatch loop at st.pc. */
  function Step(code: string, st: State): Result<State>
    requires st.pc < |code|
  {
    var c := code[st.pc];
    if c == GoRightCommand then Ok(st.(pc := st.pc + 1, cursor := st.cursor + 1))
    else if c == GoLeftCommand then Ok(st.(pc := st.pc + 1, cursor := st.cursor - 1))
    else if !IsCommand(c) then Ok(st.(pc := st.pc + 1))
    else if !(0 <= st.cursor < |st.tape|) then Err(CellIndexOutOfRange(st.cursor))
    else
      var v := st.tape[st.cursor];
      if c == IncrementCommand then Ok(st.(pc := st.pc + 1, tape := st.tape[st.cursor := Increment(v)]))
      else if c == DecrementCommand then Ok(st.(pc := st.pc + 1, tape := st.tape[st.cursor := Decrement(v)]))
      else if c == OutputCommand then Ok(st.(pc := st.pc + 1, output := st.output + [v]))
      else if c == InputCommand then
        var (x, rest) := ReadCell(st.input);
        Ok(st.(pc := st.pc + 1, tape := st.tape[st.cursor := x], input := rest))
      else if c == LoopStartCommand then LoopStart(code, st, v)
      else LoopEnd(st, v)
  }

  /** `[`: on a zero cell jump past the loop (cached target, or scan and
      cache), otherwise push this position and advance. */
  function LoopStart(code: string, st: State, v: Cell): Result<State>
    requires st.pc < |code|
  {
    if v == 0 then
      if st.pc in st.cache then Ok(st.(pc := st.cache[st.pc]))
      else
        match MatchingLoopEnd(code, st.pc)
        case None => Err(LoopEndNotFound(st.pc))
        case Some(q) => Ok(st.(pc := q + 1, cache := st.cache[st.pc := q + 1]))
    else
      var top := st.top + 1;
      if |st.loopStarts| <= top then
        Ok(st.(pc := st.pc + 1, top := top, loopStarts := st.loopStarts + [st.pc]))
      else if top < 0 then Err(LoopStartIndexOutOfRange(top))
      else Ok(st.(pc := st.pc + 1, top := top, loopStarts := st.loopStarts[top := st.pc]))
  }

  /** `]`: on a nonzero cell jump back (cached target, or the stored loop
      start + 1, popping and caching), otherwise advance. */
  function LoopEnd(st: State, v: Cell): Result<State> {
    if v != 0 then
      if st.pc in st.cache then Ok(st.(pc := st.cache[st.pc]))
      else if !(0 <= st.top < |st.loopStarts|) then Err(LoopStartIndexOutOfRange(st.top))
      else
        var target := st.loopStarts[st.top] + 1;
        Ok(st.(pc := target, top := st.top - 1, cache := st.cache[st.pc := target]))
    else Ok(st.(pc := st.pc + 1))
  }

  datatype Outcome =
    | Halted(final: State)               // pc reached the end of the code
    | Failed(fault: Fault, at: State)    // the command at at.pc raised, after Interrupted's effects
    | OutOfFuel(last: State)             // the fuel bound was reached first

  /** The dispatch loop, for at most fuel commands. */
  function Run(code: string, st: State, fuel: nat): Outcome
    decreases fuel
  {
    if st.pc >= |code| then Halted(st)
    else if fuel == 0 then OutOfFuel(st)
    else
      match Step(code, st)
      case Err(f) => Failed(f, Interrupted(code, st))
      case Ok(next) => Run(code, next, fuel - 1)
  }

  /** The state a failing command leaves behind. Every command reads the
      tape before it changes anything, except `,`: the C# assignment calls
      input.Read() before the tape setter throws, so that input unit is
      consumed even though the command fails. */
  function Interrupted(code: string, st: State): State
    requires st.pc < |code|
  {
    if code[st.pc] == InputCommand then st.(input := ReadCell(st.input).1) else st
  }

  function StateOf(o: Outcome): State {
    match o
    case Halted(s) => s
    case Failed(_, s) => s
    case OutOfFuel(s) => s
  }

  // ---------------------------------------------------------------------
  // The state invariant.

  /** Facts every reachable state satisfies: the tape keeps its size, the
      top index stays within the list or at -1, the list holds positions of
      `[`, and every cached target is what the uncached path would compute
      for a `[`, and one past a `[` for a `]`. */
  ghost predicate Valid(code: string, st: State) {
    && |st.tape| == AvailableMemoryCellsCount
    && st.pc <= |code|
    && -1 <= st.top < |st.loopStarts|
    && (forall i :: 0 <= i < |st.loopStarts| ==> st.loopStarts[i] < |code| && code[st.loopStarts[i]] == LoopStartCommand)
    && (forall k :: k in st.cache ==> CacheEntryOk(code, k, st.cache[k]))
  }

  ghost predicate CacheEntryOk(code: string, k: nat, target: nat) {
    && k < |code|
    && (code[k] == LoopStartCommand || code[k] == LoopEndCommand)
    && (code[k] == LoopStartCommand ==> MatchingLoopEnd(code, k) == Some(target - 1) && target >= 1)
    && (code[k] == LoopEndCommand ==> 1 <= target <= |code| && code[target - 1] == LoopStartCommand)
  }

  lemma InitialValid(code: string, input: seq<Cell>)
    ensures Valid(code, Initial(input))
  {
  }

  lemma LoopStartPreservesValid(code: string, st: State, v: Cell)
    requires st.pc < |code| && code[st.pc] == LoopStartCommand && Valid(code, st)
    requires LoopStart(code, st, v).Ok?
    ensures Valid(code, LoopStart(code, st, v).value)
  {
    var next := LoopStart(code, st, v).value;
    if v == 0 && st.pc !in st.cache {
      var q := MatchingLoopEnd(code, st.pc).value;
      forall k | k in next.cache
        ensures CacheEntryOk(code, k, next.cache[k])
      {
        if k != st.pc {
          assert k in st.cache;
        }
      }
    }
  }

  lemma LoopEndPreservesValid(code: string, st: State, v: Cell)
    requires st.pc < |code| && code[st.pc] == LoopEndCommand && Valid(code, st)
    requires LoopEnd(st, v).Ok?
    ensures Valid(code, LoopEnd(st, v).value)
  {
    var next := LoopEnd(st, v).value;
    if v != 0 && st.pc !in st.cache {
      forall k | k in next.cache
        ensures CacheEntryOk(code, k, next.cache[k])
      {
        if k != st.pc {
          assert k in st.cache;
        }
      }
    }
  }

  lemma StepPreservesValid(code: string, st: State)
    requires st.pc < |code| && Valid(code, st)
    requires Step(code, st).Ok?
    ensures Valid(code, Step(code, st).value)
  {
    var c := code[st.pc];
    if AccessesCell(c) {
      var v := st.tape[st.cursor];
      if c == LoopStartCommand {
        LoopStartPreservesValid(code, st, v);
      } else if c == LoopEndCommand {
        LoopEndPreservesValid(code, st, v);
      }
    }
  }

  /** Every state a run reaches is valid; in particular the tape is always
      exactly 10240 cells long. */
  lemma {:induction false} RunPreservesValid(code: string, st: State, fuel: nat)
    requires Valid(code, st)
    ensures Valid(code, StateOf(Run(code, st, fuel)))
    ensures |StateOf(Run(code, st, fuel)).tape| == AvailableMemoryCellsCount
    decreases fuel
  {
    if st.pc < |code| && fuel > 0 {
      if Step(code, st).Ok? {
        StepPreservesValid(code, st);
        RunPreservesValid(code, Step(code, st).value, fuel - 1);
      }
    }
  }

  // ---------------------------------------------------------------------
  // One command at a time.

  /** `+` and `-` change the current cell by one modulo 2^16 and nothing
      else but the program position. */
  lemma CellArithmeticFrame(code: string, st: State)
    requires st.pc < |code| && (code[st.pc] == IncrementCommand || code[st.pc] == DecrementCommand)
    requires 0 <= st.cursor < |st.tape|
    ensures Step(code, st).Ok?
    ensures var next := Step(code, st).value;
      && next.pc == st.pc + 1
      && |next.tape| == |st.tape|
      && (forall i :: 0 <= i < |st.tape| && i != st.cursor ==> next.tape[i] == st.tape[i])
      && (next.tape[st.cursor] as int - st.tape[st.cursor] as int) % 0x1_0000 == (if code[st.pc] == IncrementCommand then 1 else 0xFFFF)
      && next.cursor == st.cursor && next.loopStarts == st.loopStarts && next.top == st.top
      && next.cache == st.cache && next.input == st.input && next.output == st.output
  {
  }

  /** `+` followed by `-` restores the tape. */
  lemma IncrementThenDecrement(code: string, st: State)
    requires st.pc + 1 < |code| && code[st.pc] == IncrementCommand && code[st.pc + 1] == DecrementCommand
    requires 0 <= st.cursor < |st.tape|
    ensures Step(code, st).Ok? && Step(code, st).value.pc == st.pc + 1
    ensures Step(code, Step(code, st).value) == Ok(st.(pc := st.pc + 2))
  {
    var mid := Step(code, st).value;
    assert mid.tape[st.cursor := Decrement(mid.tape[st.cursor])] == st.tape;
  }

  /** `>` and `<` never fail and change only the cursor, with no bounds check. */
  lemma MovesOnlyShiftCursor(code: string, st: State)
    requires st.pc < |code| && (code[st.pc] == GoRightCommand || code[st.pc] == GoLeftCommand)
    ensures Step(code, st) == Ok(st.(pc := st.pc + 1, cursor := st.cursor + (if code[st.pc] == GoRightCommand then 1 else -1)))
  {
  }

  /** A cell-index fault happens exactly when a cell command runs with the
      cursor outside the tape. */
  lemma CellFaultExactly(code: string, st: State)
    requires st.pc < |code|
    ensures Step(code, st).Err? && Step(code, st).fault.CellIndexOutOfRange? <==>
            AccessesCell(code[st.pc]) && !(0 <= st.cursor < |st.tape|)
    ensures Step(code, st).Err? && Step(code, st).fault.CellIndexOutOfRange? ==> Step(code, st).fault.index == st.cursor
  {
  }

  /** Characters other than the eight commands only advance the program position. */
  lemma NonCommandIsNoOp(code: string, st: State)
    requires st.pc < |code| && !IsCommand(code[st.pc])
    ensures Step(code, st) == Ok(st.(pc := st.pc + 1))
  {
  }

  /** `,` at end of input stores 65535; otherwise it consumes one code unit. */
  lemma InputStoresNextOrMax(code: string, st: State)
    requires st.pc < |code| && code[st.pc] == InputCommand && 0 <= st.cursor < |st.tape|
    ensures Step(code, st).Ok?
    ensures st.input == [] ==> Step(code, st).value.tape == st.tape[st.cursor := 0xFFFF] && Step(code, st).value.input == []
    ensures st.input != [] ==> Step(code, st).value.tape == st.tape[st.cursor := st.input[0]] && Step(code, st).value.input == st.input[1..]
  {
  }

  /** `.` appends the current cell to the output. */
  lemma OutputAppendsCell(code: string, st: State)
    requires st.pc < |code| && code[st.pc] == OutputCommand && 0 <= st.cursor < |st.tape|
    ensures Step(code, st) == Ok(st.(pc := st.pc + 1, output := st.output + [st.tape[st.cursor]]))
  {
  }

  /** `[` on a zero cell continues right after the matching `]`, whether the
      target comes from the cache or from the scan; it fails exactly when
      no matching `]` exists and the position is not cached. */
  lemma LoopSkipTarget(code: string, st: State)
    requires st.pc < |code| && code[st.pc] == LoopStartCommand && Valid(code, st)
    requires 0 <= st.cursor < |st.tape| && st.tape[st.cursor] == 0
    ensures Step(code, st).Err? <==> MatchingLoopEnd(code, st.pc).None?
    ensures Step(code, st).Err? ==> Step(code, st).fault == LoopEndNotFound(st.pc)
    ensures Step(code, st).Ok? ==>
      var next := Step(code, st).value;
      && next.pc >= 1 && ClosesAt(code, st.pc, next.pc - 1)
      && next.tape == st.tape && next.cursor == st.cursor && next.top == st.top && next.loopStarts == st.loopStarts
      && st.pc in next.cache && next.cache[st.pc] == next.pc
  {
    if st.pc in st.cache {
      assert CacheEntryOk(code, st.pc, st.cache[st.pc]);
    }
  }

  /** `[` on a nonzero cell pushes its own position and advances. */
  lemma LoopEnterPushes(code: string, st: State)
    requires st.pc < |code| && code[st.pc] == LoopStartCommand && Valid(code, st)
    requires 0 <= st.cursor < |st.tape| && st.tape[st.cursor] != 0
    ensures Step(code, st).Ok?
    ensures var next := Step(code, st).value;
      && next.pc == st.pc + 1 && next.top == st.top + 1
      && |next.loopStarts| == (if st.top + 1 == |st.loopStarts| then |st.loopStarts| + 1 else |st.loopStarts|)
      && next.loopStarts[next.top] == st.pc
      && (forall i :: 0 <= i < |next.loopStarts| && i != next.top ==> next.loopStarts[i] == st.loopStarts[i])
      && next.cache == st.cache && next.tape == st.tape
  {
  }

  /** An uncached `]` on a nonzero cell jumps to the stored top + 1, pops
      and caches that target; on a zero cell `]` only advances (no pop). */
  lemma LoopEndStack(code: string, st: State)
    requires st.pc < |code| && code[st.pc] == LoopEndCommand && Valid(code, st)
    requires 0 <= st.cursor < |st.tape|
    ensures st.tape[st.cursor] == 0 ==> Step(code, st) == Ok(st.(pc := st.pc + 1))
    ensures st.tape[st.cursor] != 0 && st.pc in st.cache ==> Step(code, st) == Ok(st.(pc := st.cache[st.pc]))
    ensures st.tape[st.cursor] != 0 && st.pc !in st.cache && st.top >= 0 ==>
      Step(code, st) == Ok(st.(pc := st.loopStarts[st.top] + 1, top := st.top - 1,
                               cache := st.cache[st.pc := st.loopStarts[st.top] + 1]))
    ensures st.tape[st.cursor] != 0 && st.pc !in st.cache && st.top < 0 ==>
      Step(code, st) == Err(LoopStartIndexOutOfRange(-1))
  {
  }

  /** The cache is write-once: entries are never changed or removed, and a
      step adds at most the entry for its own position. */
  lemma CacheWriteOnce(code: string, st: State)
    requires st.pc < |code| && Step(code, st).Ok?
    ensures var next := Step(code, st).value;
      && (forall k :: k in st.cache ==> k in next.cache && next.cache[k] == st.cache[k])
      && (forall k :: k in next.cache && k !in st.cache ==> k == st.pc)
  {
  }

  /** In a valid state the loop-start list is indexed out of range only with
      top = -1 (a `]` with no open loop), never past the end. */
  lemma StackFaultOnlyWhenEmpty(code: string, st: State)
    requires st.pc < |code| && Valid(code, st)
    requires Step(code, st).Err? && Step(code, st).fault.LoopStartIndexOutOfRange?
    ensures Step(code, st).fault.index == -1 && code[st.pc] == LoopEndCommand && st.pc !in st.cache
  {
  }

  /** The only faults a run from a valid state can end in. */
  lemma {:induction false} ReachableFaults(code: string, st: State, fuel: nat)
    requires Valid(code, st)
    ensures var o := Run(code, st, fuel);
      o.Failed? ==> || o.fault.CellIndexOutOfRange?
                    || o.fault.LoopEndNotFound?
                    || o.fault == LoopStartIndexOutOfRange(-1)
    decreases fuel
  {
    if st.pc < |code| && fuel > 0 {
      if Step(code, st).Ok? {
        StepPreservesValid(code, st);
        ReachableFaults(code, Step(code, st).value, fuel - 1);
      } else if Step(code, st).fault.LoopStartIndexOutOfRange? {
        StackFaultOnlyWhenEmpty(code, st);
      }
    }
  }

  // ---------------------------------------------------------------------
  // The imperative code.

  /** FindNextCommandAfterLoopPosition: count brackets forward from the `[`
      at position until the depth returns to zero on a `]`, and return the
      index after it; None where the C# scan indexes past the end. */
  method FindNextCommandAfterLoopPosition(code: string, position: nat) returns (r: Option<nat>)
    requires position < |code|
    ensures r.Some? <==> MatchingLoopEnd(code, position).Some?
    ensures r.Some? ==> r.value >= 1 && ClosesAt(code, position, r.value - 1)
    ensures r.Some? ==> MatchingLoopEnd(code, position) == Some(r.value - 1)
  {
    var pos := position;
    var counter := 1;
    while true
      invariant position <= pos < |code|
      invariant counter == Depth(code, position, pos)
      invariant forall k :: position <= k <= pos ==> Depth(code, position, k) > 0
      invariant ScanFrom(code, position, pos + 1, counter) == MatchingLoopEnd(code, position)
      decreases |code| - pos
    {
      pos := pos + 1;
      if pos >= |code| {
        return None;
      }
      if code[pos] == LoopStartCommand {
        counter := counter + 1;
        continue;
      }
      if code[pos] == LoopEndCommand {
        counter := counter - 1;
      }
      if counter == 0 && code[pos] == LoopEndCommand {
        ClosesAtUnique(code, position, pos);
        return Some(pos + 1);
      }
    }
  }

  /** BrainfuckOptimizedInterpreter.Interpret, for at most fuel commands. */
  method Interpret(programCode: string, input: seq<Cell>, fuel: nat) returns (outcome: Outcome)
    ensures outcome == Run(programCode, Initial(input), fuel)
  {
    var encounteredLoopStarts: seq<nat> := [];
    var currentLoopStartPosition := -1;
    var goToPositionsCache: map<nat, nat> := map[];
    var programPos: nat := 0;
    var memoryCells := seq(AvailableMemoryCellsCount, _ => DefaultCellContent);
    var currentCell := 0;
    var rest, written := input, [];
    var steps := fuel;
    while programPos < |programCode| && steps > 0
      invariant Run(programCode, State(programPos, currentCell, memoryCells, encounteredLoopStarts,
                                       currentLoopStartPosition, goToPositionsCache, rest, written), steps)
                == Run(programCode, Initial(input), fuel)
      decreases steps
    {
      var st := State(programPos, currentCell, memoryCells, encounteredLoopStarts,
                            currentLoopStartPosition, goToPositionsCache, rest, written);
      var c := programCode[programPos];
      if AccessesCell(c) && c != InputCommand && !(0 <= currentCell < |memoryCells|) {
        RunFault(programCode, st, CellIndexOutOfRange(currentCell), steps);
        return Failed(CellIndexOutOfRange(currentCell), st);
      }
      if c == GoRightCommand {
        currentCell := currentCell + 1;
      } else if c == GoLeftCommand {
        currentCell := currentCell - 1;
      } else if c == IncrementCommand {
        memoryCells := memoryCells[currentCell := Increment(memoryCells[currentCell])];
      } else if c == DecrementCommand {
        memoryCells := memoryCells[currentCell := Decrement(memoryCells[currentCell])];
      } else if c == OutputCommand {
        written := written + [memoryCells[currentCell]];
      } else if c == InputCommand {
        var x;
        x, rest := ReadCell(rest).0, ReadCell(rest).1;
        if !(0 <= currentCell < |memoryCells|) {
          RunFault(programCode, st, CellIndexOutOfRange(currentCell), steps);
          return Failed(CellIndexOutOfRange(currentCell), st.(input := rest));
        }
        memoryCells := memoryCells[currentCell := x];
      } else if c == LoopStartCommand {
        if memoryCells[currentCell] == 0 {
          if programPos in goToPositionsCache {
            programPos := goToPositionsCache[programPos];
          } else {
            var oldPosition := programPos;
            var found := FindNextCommandAfterLoopPosition(programCode, programPos);
            if found.None? {
              RunFault(programCode, st, LoopEndNotFound(programPos), steps);
              return Failed(LoopEndNotFound(programPos), st);
            }
            programPos := found.value;
            goToPositionsCache := goToPositionsCache[oldPosition := programPos];
          }
          RunStep(programCode, st, State(programPos, currentCell, memoryCells, encounteredLoopStarts, currentLoopStartPosition, goToPositionsCache, rest, written), steps);
          steps := steps - 1;
          continue;
        } else {
          currentLoopStartPosition := currentLoopStartPosition + 1;
          if |encounteredLoopStarts| <= currentLoopStartPosition {
            encounteredLoopStarts := encounteredLoopStarts + [programPos];
          } else if currentLoopStartPosition < 0 {
            RunFault(programCode, st, LoopStartIndexOutOfRange(currentLoopStartPosition), steps);
            return Failed(LoopStartIndexOutOfRange(currentLoopStartPosition), st);
          } else {
            encounteredLoopStarts := encounteredLoopStarts[currentLoopStartPosition := programPos];
          }
        }
      } else if c == LoopEndCommand {
        if memoryCells[currentCell] != 0 {
          if programPos in goToPositionsCache {
            programPos := goToPositionsCache[programPos];
          } else {
            var oldPosition := programPos;
            if !(0 <= currentLoopStartPosition < |encounteredLoopStarts|) {
              RunFault(programCode, st, LoopStartIndexOutOfRange(currentLoopStartPosition), steps);
              return Failed(LoopStartIndexOutOfRange(currentLoopStartPosition), st);
            }
            programPos := encounteredLoopStarts[currentLoopStartPosition] + 1;
            currentLoopStartPosition := currentLoopStartPosition - 1;
            goToPositionsCache := goToPositionsCache[oldPosition := programPos];
          }
          RunStep(programCode, st, State(programPos, currentCell, memoryCells, encounteredLoopStarts, currentLoopStartPosition, goToPositionsCache, rest, written), steps);
          steps := steps - 1;
          continue;
        }
      }
      programPos := programPos + 1;
      RunStep(programCode, st, State(programPos, currentCell, memoryCells, encounteredLoopStarts, currentLoopStartPosition, goToPositionsCache, rest, written), steps);
      steps := steps - 1;
    }
    var final := State(programPos, currentCell, memoryCells, encounteredLoopStarts,
                       currentLoopStartPosition, goToPositionsCache, rest, written);
    outcome := if programPos >= |programCode| then Halted(final) else OutOfFuel(final);
  }

  /** One successful command consumes one unit of fuel. */
  lemma RunStep(code: string, st: State, next: State, fuel: nat)
    requires st.pc < |code| && fuel > 0 && Step(code, st) == Ok(next)
    ensures Run(code, st, fuel) == Run(code, next, fuel - 1)
  {
  }

  lemma RunFault(code: string, st: State, f: Fault, fuel: nat)
    requires st.pc < |code| && fuel > 0 && Step(code, st) == Err(f)
    ensures Run(code, st, fuel) == Failed(f, Interrupted(code, st))
  {
  }

  // ---------------------------------------------------------------------
  // Small programs.

  /** `<>` moves to index -1 and back without touching a cell, so it completes. */
  lemma LeftRightCompletes(input: seq<Cell>)
    ensures Run("<>", Initial(input), 2).Halted?
    ensures Run("<>", Initial(input), 2).final.cursor == 0
  {
    var s0 := Initial(input);
    assert Step("<>", s0) == Ok(s0.(pc := 1, cursor := -1));
    var s1 := s0.(pc := 1, cursor := -1);
    assert Step("<>", s1) == Ok(s1.(pc := 2, cursor := 0));
  }

  /** `[` alone: the forward scan runs off the end of the code. */
  lemma LoneLoopStartFails(input: seq<Cell>)
    ensures Run("[", Initial(input), 1) == Failed(LoopEndNotFound(0), Initial(input))
  {
    assert MatchingLoopEnd("[", 0) == None;
  }

  /** A failing command leaves the state as it was, except that a failing
      `,` (which can fail only off the tape) has consumed its input unit. */
  lemma FaultEffects(code: string, st: State, fuel: nat)
    requires st.pc < |code| && fuel > 0 && Step(code, st).Err?
    ensures Run(code, st, fuel).Failed? && Run(code, st, fuel).fault == Step(code, st).fault
    ensures code[st.pc] != InputCommand ==> Run(code, st, fuel).at == st
    ensures code[st.pc] == InputCommand ==>
      && Run(code, st, fuel).fault == CellIndexOutOfRange(st.cursor)
      && Run(code, st, fuel).at == st.(input := if st.input == [] then [] else st.input[1..])
  {
  }

  /** `,` off the tape consumes its input unit and then fails: in `<,` the
      failed state holds the input without its first unit. */
  lemma FailedReadConsumesInput(x: Cell, rest: seq<Cell>)
    ensures Run("<,", Initial([x] + rest), 2) == Failed(CellIndexOutOfRange(-1), Initial([x] + rest).(pc := 1, cursor := -1, input := rest))
  {
    var s0 := Initial([x] + rest);
    var s1 := s0.(pc := 1, cursor := -1);
    assert Step("<,", s0) == Ok(s1);
    assert Step("<,", s1) == Err(CellIndexOutOfRange(-1));
    assert ReadCell(s1.input).1 == rest;
  }

  /** `]` alone on the zero cell just advances, so it completes. */
  lemma LoneLoopEndCompletes(input: seq<Cell>)
    ensures Run("]", Initial(input), 1) == Halted(Initial(input).(pc := 1))
  {
  }

  /** One successful command, returning the next state. */
  lemma Advance(code: string, st: State, fuel: nat) returns (next: State)
    requires st.pc < |code| && fuel > 0 && Step(code, st).Ok?
    ensures next == Step(code, st).value
    ensures Run(code, st, fuel) == Run(code, next, fuel - 1)
  {
    next := Step(code, st).value;
  }

  const NestedLoopProgram := "++[>+[-]<-]"

  /** The parts of a state the nested-loop run depends on. */
  ghost predicate Snapshot(st: State, pc: nat, cursor: int, c0: Cell, c1: Cell, top: int, starts: seq<nat>, cache: map<nat, nat>) {
    && st.pc == pc && st.cursor == cursor && |st.tape| == AvailableMemoryCellsCount
    && st.tape[0] == c0 && st.tape[1] == c1
    && st.top == top && st.loopStarts == starts && st.cache == cache
  }

  lemma NestedLoopEnter(input: seq<Cell>) returns (st: State)
    ensures Snapshot(st, 4, 1, 2, 0, 0, [2], map[])
    ensures Run(NestedLoopProgram, Initial(input), 15) == Run(NestedLoopProgram, st, 11)
  {
    var code := NestedLoopProgram;
    var s1 := Advance(code, Initial(input), 15);
    var s2 := Advance(code, s1, 14);
    assert s2.tape[0] == 2;
    var s3 := Advance(code, s2, 13);
    st := Advance(code, s3, 12);
  }

  lemma NestedLoopInner(s4: State) returns (st: State)
    requires Snapshot(s4, 4, 1, 2, 0, 0, [2], map[])
    ensures Snapshot(st, 8, 1, 2, 0, 1, [2, 5], map[])
    ensures Run(NestedLoopProgram, s4, 11) == Run(NestedLoopProgram, st, 7)
  {
    var code := NestedLoopProgram;
    var s5 := Advance(code, s4, 11);
    assert s5.tape[1] == 1;
    var s6 := Advance(code, s5, 10);
    var s7 := Advance(code, s6, 9);
    assert s7.tape[1] == 0;
    st := Advance(code, s7, 8);
  }

  lemma NestedLoopOuterEnd(s8: State) returns (st: State)
    requires Snapshot(s8, 8, 1, 2, 0, 1, [2, 5], map[])
    ensures Snapshot(st, 6, 0, 1, 0, 0, [2, 5], map[10 := 6])
    ensures Run(NestedLoopProgram, s8, 7) == Run(NestedLoopProgram, st, 4)
  {
    var code := NestedLoopProgram;
    var s9 := Advance(code, s8, 7);
    var s10 := Advance(code, s9, 6);
    assert s10.tape[0] == 1;
    st := Advance(code, s10, 5);
  }

  lemma NestedLoopFault(s11: State)
    requires Snapshot(s11, 6, 0, 1, 0, 0, [2, 5], map[10 := 6])
    ensures Run(NestedLoopProgram, s11, 4).Failed?
    ensures Run(NestedLoopProgram, s11, 4).fault == CellIndexOutOfRange(-1)
  {
    var code := NestedLoopProgram;
    var s12 := Advance(code, s11, 4);
    assert s12.tape[0] == 0;
    var s13 := Advance(code, s12, 3);
    var s14 := Advance(code, s13, 2);
    assert s14.pc == 9 && s14.cursor == -1;
  }

  /** The loop-start list is popped only by an uncached backward jump: the
      inner loop `[-]` exits on a zero cell without popping, so the outer `]`
      jumps into the inner loop's body (index 6) instead of index 3, and the
      run then moves to index -1 and fails there. */
  lemma NestedLoopReusesInnerStart(input: seq<Cell>)
    ensures Run(NestedLoopProgram, Initial(input), 15).Failed?
    ensures Run(NestedLoopProgram, Initial(input), 15).fault == CellIndexOutOfRange(-1)
  {
    var s4 := NestedLoopEnter(input);
    var s8 := NestedLoopInner(s4);
    var s11 := NestedLoopOuterEnd(s8);
    NestedLoopFault(s11);
  }
}
