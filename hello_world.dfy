/** The Hello World program of the optimized interpreter's unit tests, run
    through the specification Run. Leads(code, st, k, next) says that k
    commands take st to next whatever the fuel; runs of one repeated command
    are handled by generic lemmas, the loop by induction on its counter cell,
    and the output part one printed character at a time. */
module HelloWorldRun {
  import opened InterpreterBase
  import opened OptimizedInterpreter

  /** The program of the Hello World unit tests, written as the counter, the
      loop, and the three groups of output commands. */
  const HelloWorld := "++++++++++" + "[>+++++++>++++++++++>+++<<<-]" + ">++.>+.+++++++..+++." + ">++.<<+++++++++++++++.>." + "+++.------.--------.>+."

  /** The cells, read as UTF-16 code units, spell the text s. */
  predicate Spells(cells: seq<Cell>, s: string) {
    |cells| == |s| && forall i :: 0 <= i < |s| ==> cells[i] as int == s[i] as int
  }

  // ---------------------------------------------------------------------
  // Runs of commands.

  /** k commands lead from st to next: for every fuel of at least k, the run
      from st is the run from next with k units of fuel fewer. */
  ghost predicate Leads(code: string, st: State, k: nat, next: State) {
    forall fuel: nat :: k <= fuel ==> Run(code, st, fuel) == Run(code, next, fuel - k)
  }

  lemma LeadsTrans(code: string, a: State, k1: nat, b: State, k2: nat, c: State)
    requires Leads(code, a, k1, b) && Leads(code, b, k2, c)
    ensures Leads(code, a, k1 + k2, c)
  {
    forall fuel: nat | k1 + k2 <= fuel
      ensures Run(code, a, fuel) == Run(code, c, fuel - (k1 + k2))
    {
      assert Run(code, a, fuel) == Run(code, b, fuel - k1);
      assert Run(code, b, fuel - k1) == Run(code, c, fuel - k1 - k2);
    }
  }

  /** One successful command leads to the state it produces. */
  lemma LeadsStep(code: string, st: State, next: State)
    requires st.pc < |code| && Step(code, st) == Ok(next)
    ensures Leads(code, st, 1, next)
  {
    forall fuel: nat | 1 <= fuel
      ensures Run(code, st, fuel) == Run(code, next, fuel - 1)
    {
      RunStep(code, st, next, fuel);
    }
  }

  /** Nothing leads from st to st. */
  lemma LeadsRefl(code: string, st: State)
    ensures Leads(code, st, 0, st)
  {
  }

  /** Command c at the n indices from index from on. */
  predicate Repeated(code: string, from: nat, n: nat, c: char) {
    from + n <= |code| && forall i :: from <= i < from + n ==> code[i] == c
  }

  /** n `>` move the cursor n cells right, n `<` move it n cells left. */
  lemma {:induction false} MoveRun(code: string, st: State, c: char, n: nat) returns (next: State)
    requires c == GoRightCommand || c == GoLeftCommand
    requires Repeated(code, st.pc, n, c)
    ensures next == st.(pc := st.pc + n, cursor := if c == GoRightCommand then st.cursor + n else st.cursor - n)
    ensures Leads(code, st, n, next)
    decreases n
  {
    if n == 0 {
      next := st;
      LeadsRefl(code, st);
    } else {
      var s1 := st.(pc := st.pc + 1, cursor := if c == GoRightCommand then st.cursor + 1 else st.cursor - 1);
      assert Step(code, st) == Ok(s1);
      LeadsStep(code, st, s1);
      next := MoveRun(code, s1, c, n - 1);
      LeadsTrans(code, st, 1, s1, n - 1, next);
    }
  }

  /** n `+` on a cell below 65536 - n add n to it (no wrap-around). */
  lemma {:induction false} IncrementRun(code: string, st: State, n: nat) returns (next: State)
    requires Repeated(code, st.pc, n, IncrementCommand)
    requires 0 <= st.cursor < |st.tape| && st.tape[st.cursor] as int + n < 0x1_0000
    ensures next == st.(pc := st.pc + n, tape := st.tape[st.cursor := (st.tape[st.cursor] as int + n) as Cell])
    ensures Leads(code, st, n, next)
    decreases n
  {
    if n == 0 {
      next := st;
      assert st.tape[st.cursor := st.tape[st.cursor]] == st.tape;
      LeadsRefl(code, st);
    } else {
      var s1 := st.(pc := st.pc + 1, tape := st.tape[st.cursor := (st.tape[st.cursor] as int + 1) as Cell]);
      assert Step(code, st) == Ok(s1);
      LeadsStep(code, st, s1);
      next := IncrementRun(code, s1, n - 1);
      LeadsTrans(code, st, 1, s1, n - 1, next);
      assert s1.tape[st.cursor := (st.tape[st.cursor] as int + n) as Cell] == st.tape[st.cursor := (st.tape[st.cursor] as int + n) as Cell];
    }
  }

  /** n `-` on a cell of at least n subtract n from it (no wrap-around). */
  lemma {:induction false} DecrementRun(code: string, st: State, n: nat) returns (next: State)
    requires Repeated(code, st.pc, n, DecrementCommand)
    requires 0 <= st.cursor < |st.tape| && st.tape[st.cursor] as int >= n
    ensures next == st.(pc := st.pc + n, tape := st.tape[st.cursor := (st.tape[st.cursor] as int - n) as Cell])
    ensures Leads(code, st, n, next)
    decreases n
  {
    if n == 0 {
      next := st;
      assert st.tape[st.cursor := st.tape[st.cursor]] == st.tape;
      LeadsRefl(code, st);
    } else {
      var s1 := st.(pc := st.pc + 1, tape := st.tape[st.cursor := (st.tape[st.cursor] as int - 1) as Cell]);
      assert Step(code, st) == Ok(s1);
      LeadsStep(code, st, s1);
      next := DecrementRun(code, s1, n - 1);
      LeadsTrans(code, st, 1, s1, n - 1, next);
      assert s1.tape[st.cursor := (st.tape[st.cursor] as int - n) as Cell] == st.tape[st.cursor := (st.tape[st.cursor] as int - n) as Cell];
    }
  }

  function Abs(x: int): nat {
    if x < 0 then -x else x
  }

  /** |move| cursor moves (right when positive), then |delta| increments or
      decrements (up when positive) of the cell reached. */
  lemma Adjust(code: string, st: State, move: int, delta: int) returns (next: State)
    requires Repeated(code, st.pc, Abs(move), if move >= 0 then GoRightCommand else GoLeftCommand)
    requires Repeated(code, st.pc + Abs(move), Abs(delta), if delta >= 0 then IncrementCommand else DecrementCommand)
    requires 0 <= st.cursor + move < |st.tape| && 0 <= st.tape[st.cursor + move] as int + delta < 0x1_0000
    ensures next == st.(pc := st.pc + Abs(move) + Abs(delta), cursor := st.cursor + move,
                        tape := st.tape[st.cursor + move := (st.tape[st.cursor + move] as int + delta) as Cell])
    ensures Leads(code, st, Abs(move) + Abs(delta), next)
  {
    var s1 := MoveRun(code, st, if move >= 0 then GoRightCommand else GoLeftCommand, Abs(move));
    if delta >= 0 {
      next := IncrementRun(code, s1, delta);
    } else {
      next := DecrementRun(code, s1, -delta);
    }
    LeadsTrans(code, st, Abs(move), s1, Abs(delta), next);
  }

  /** `.` appends the current cell to the output. */
  lemma Emit(code: string, st: State) returns (next: State)
    requires st.pc < |code| && code[st.pc] == OutputCommand
    requires 0 <= st.cursor < |st.tape|
    ensures next == st.(pc := st.pc + 1, output := st.output + [st.tape[st.cursor]])
    ensures Leads(code, st, 1, next)
  {
    next := st.(pc := st.pc + 1, output := st.output + [st.tape[st.cursor]]);
    LeadsStep(code, st, next);
  }

  /** Adjust, then `.`: one printed character. */
  lemma Print(code: string, st: State, move: int, delta: int) returns (next: State)
    requires Repeated(code, st.pc, Abs(move), if move >= 0 then GoRightCommand else GoLeftCommand)
    requires Repeated(code, st.pc + Abs(move), Abs(delta), if delta >= 0 then IncrementCommand else DecrementCommand)
    requires st.pc + Abs(move) + Abs(delta) < |code| && code[st.pc + Abs(move) + Abs(delta)] == OutputCommand
    requires 0 <= st.cursor + move < |st.tape| && 0 <= st.tape[st.cursor + move] as int + delta < 0x1_0000
    ensures var v := (st.tape[st.cursor + move] as int + delta) as Cell;
      next == st.(pc := st.pc + Abs(move) + Abs(delta) + 1, cursor := st.cursor + move,
                  tape := st.tape[st.cursor + move := v], output := st.output + [v])
    ensures Leads(code, st, Abs(move) + Abs(delta) + 1, next)
  {
    var s1 := Adjust(code, st, move, delta);
    next := Emit(code, s1);
    LeadsTrans(code, st, Abs(move) + Abs(delta), s1, 1, next);
  }

  // ---------------------------------------------------------------------
  // Where the commands are.

  lemma PrologueCode()
    ensures |HelloWorld| == 106
    ensures Repeated(HelloWorld, 0, 10, IncrementCommand) && HelloWorld[10] == LoopStartCommand
  {
  }

  lemma LoopCode()
    ensures Repeated(HelloWorld, 11, 1, GoRightCommand) && Repeated(HelloWorld, 12, 7, IncrementCommand)
    ensures Repeated(HelloWorld, 19, 1, GoRightCommand) && Repeated(HelloWorld, 20, 10, IncrementCommand)
    ensures Repeated(HelloWorld, 30, 1, GoRightCommand) && Repeated(HelloWorld, 31, 3, IncrementCommand)
    ensures Repeated(HelloWorld, 34, 3, GoLeftCommand) && Repeated(HelloWorld, 37, 1, DecrementCommand)
    ensures HelloWorld[38] == LoopEndCommand
  {
  }

  lemma HelloCode()
    ensures Repeated(HelloWorld, 39, 1, GoRightCommand) && Repeated(HelloWorld, 40, 2, IncrementCommand) && HelloWorld[42] == OutputCommand
    ensures Repeated(HelloWorld, 43, 1, GoRightCommand) && Repeated(HelloWorld, 44, 1, IncrementCommand) && HelloWorld[45] == OutputCommand
    ensures Repeated(HelloWorld, 46, 7, IncrementCommand) && HelloWorld[53] == OutputCommand
    ensures HelloWorld[54] == OutputCommand
    ensures Repeated(HelloWorld, 55, 3, IncrementCommand) && HelloWorld[58] == OutputCommand
  {
  }

  lemma SpaceCode()
    ensures Repeated(HelloWorld, 59, 1, GoRightCommand) && Repeated(HelloWorld, 60, 2, IncrementCommand) && HelloWorld[62] == OutputCommand
    ensures Repeated(HelloWorld, 63, 2, GoLeftCommand) && Repeated(HelloWorld, 65, 15, IncrementCommand) && HelloWorld[80] == OutputCommand
    ensures Repeated(HelloWorld, 81, 1, GoRightCommand) && HelloWorld[82] == OutputCommand
    ensures Repeated(HelloWorld, 83, 3, IncrementCommand) && HelloWorld[86] == OutputCommand
  {
  }

  lemma WorldCode()
    ensures |HelloWorld| == 106
    ensures Repeated(HelloWorld, 87, 6, DecrementCommand) && HelloWorld[93] == OutputCommand
    ensures Repeated(HelloWorld, 94, 8, DecrementCommand) && HelloWorld[102] == OutputCommand
    ensures Repeated(HelloWorld, 103, 1, GoRightCommand) && Repeated(HelloWorld, 104, 1, IncrementCommand)
    ensures HelloWorld[105] == OutputCommand
  {
  }

  // ---------------------------------------------------------------------
  // The run.

  /** The cursor and the cells 0 to 3, which are all the program uses. */
  ghost predicate Cells(st: State, cursor: int, c0: int, c1: int, c2: int, c3: int) {
    && |st.tape| == AvailableMemoryCellsCount && st.cursor == cursor
    && st.tape[0] as int == c0 && st.tape[1] as int == c1 && st.tape[2] as int == c2 && st.tape[3] as int == c3
  }

  /** The loop-start list, top index and cache before the first `]` (top 0,
      nothing cached) and after it (popped, the jump back cached). */
  ghost predicate LoopBookkeeping(st: State, first: bool) {
    && st.loopStarts == [10]
    && (if first then st.top == 0 && st.cache == map[] else st.top == -1 && st.cache == map[38 := 11])
  }

  /** Ten `+` on cell 0, then the `[` at 10 on a nonzero cell pushes 10. */
  lemma Prologue(input: seq<Cell>) returns (st: State)
    ensures st.pc == 11 && Cells(st, 0, 10, 0, 0, 0) && LoopBookkeeping(st, true)
    ensures st.output == [] && st.input == input
    ensures Leads(HelloWorld, Initial(input), 11, st)
  {
    PrologueCode();
    var s0 := Initial(input);
    var s10 := IncrementRun(HelloWorld, s0, 10);
    st := s10.(pc := 11, top := 0, loopStarts := [10]);
    assert s10.loopStarts + [s10.pc] == [10];
    assert LoopStart(HelloWorld, s10, 10) == Ok(s10.(pc := s10.pc + 1, top := s10.top + 1, loopStarts := s10.loopStarts + [s10.pc]));
    LeadsStep(HelloWorld, s10, st);
    LeadsTrans(HelloWorld, s0, 10, s10, 1, st);
  }

  /** The `]` at 38: on a nonzero cell it jumps back to 11, through the
      stored loop start the first time (pop and cache) and through the cache
      afterwards; on a zero cell it advances to 39. */
  lemma LoopEndAt38(st: State, first: bool) returns (next: State)
    requires st.pc == 38 && |st.tape| == AvailableMemoryCellsCount && st.cursor == 0 && LoopBookkeeping(st, first)
    ensures next == if st.tape[0] == 0 then st.(pc := 39) else st.(pc := 11, top := -1, cache := map[38 := 11])
    ensures Leads(HelloWorld, st, 1, next)
  {
    LoopCode();
    next := if st.tape[0] == 0 then st.(pc := 39) else st.(pc := 11, top := -1, cache := map[38 := 11]);
    if st.tape[0] != 0 && first {
      assert st.cache[st.pc := st.loopStarts[st.top] + 1] == map[38 := 11];
    }
    assert LoopEnd(st, st.tape[0]) == Ok(next);
    LeadsStep(HelloWorld, st, next);
  }

  /** The loop body `>+++++++>++++++++++>+++<<<-` up to the `]`: 7, 10 and 3
      are added to cells 1 to 3 and cell 0 counts down. */
  lemma LoopBody(st: State, n: int, a: int, b: int, c: int) returns (next: State)
    requires st.pc == 11 && Cells(st, 0, n, a, b, c)
    requires n > 0 && a + 7 < 0x1_0000 && b + 10 < 0x1_0000 && c + 3 < 0x1_0000
    ensures next == st.(pc := 38, tape := next.tape) && Cells(next, 0, n - 1, a + 7, b + 10, c + 3)
    ensures Leads(HelloWorld, st, 27, next)
  {
    LoopCode();
    var s19 := Adjust(HelloWorld, st, 1, 7);
    var s30 := Adjust(HelloWorld, s19, 1, 10);
    LeadsTrans(HelloWorld, st, 8, s19, 11, s30);
    var s34 := Adjust(HelloWorld, s30, 1, 3);
    LeadsTrans(HelloWorld, st, 19, s30, 4, s34);
    next := Adjust(HelloWorld, s34, -3, -1);
    LeadsTrans(HelloWorld, st, 23, s34, 4, next);
  }

  /** One pass of the loop: the body, then the `]` jumps back to 11 unless
      cell 0 is now 0 (leaving the loop-start list as it is when it was
      never popped). */
  lemma LoopPass(st: State, first: bool, n: int, a: int, b: int, c: int) returns (next: State)
    requires st.pc == 11 && Cells(st, 0, n, a, b, c) && LoopBookkeeping(st, first)
    requires n > 0 && a + 7 < 0x1_0000 && b + 10 < 0x1_0000 && c + 3 < 0x1_0000
    ensures next.pc == (if n == 1 then 39 else 11)
    ensures Cells(next, 0, n - 1, a + 7, b + 10, c + 3) && LoopBookkeeping(next, first && n == 1)
    ensures next.output == st.output && next.input == st.input
    ensures Leads(HelloWorld, st, 28, next)
  {
    var s38 := LoopBody(st, n, a, b, c);
    next := LoopEndAt38(s38, first);
    LeadsTrans(HelloWorld, st, 27, s38, 1, next);
  }

  /** The loop runs n times from cell 0 = n, adding 7n, 10n and 3n. */
  lemma {:induction false} LoopRuns(st: State, first: bool, n: nat, a: int, b: int, c: int) returns (next: State)
    requires st.pc == 11 && Cells(st, 0, n, a, b, c) && LoopBookkeeping(st, first)
    requires n > 0 && a + 7 * n < 0x1_0000 && b + 10 * n < 0x1_0000 && c + 3 * n < 0x1_0000
    ensures next.pc == 39 && Cells(next, 0, 0, a + 7 * n, b + 10 * n, c + 3 * n) && LoopBookkeeping(next, first && n == 1)
    ensures next.output == st.output && next.input == st.input
    ensures Leads(HelloWorld, st, 28 * n, next)
    decreases n
  {
    var s := LoopPass(st, first, n, a, b, c);
    if n == 1 {
      next := s;
    } else {
      assert 7 * n == 7 + 7 * (n - 1) && 10 * n == 10 + 10 * (n - 1);
      assert 3 * n == 3 + 3 * (n - 1) && 28 * n == 28 + 28 * (n - 1);
      next := LoopRuns(s, false, n - 1, a + 7, b + 10, c + 3);
      LeadsTrans(HelloWorld, st, 28, s, 28 * (n - 1), next);
    }
  }

  /** `>++.>+.+++++++.`: prints "Hel". */
  lemma PrintHel(st: State) returns (next: State)
    requires st.pc == 39 && Cells(st, 0, 0, 70, 100, 30)
    ensures next.pc == 54 && Cells(next, 2, 0, 72, 108, 30)
    ensures next.output == st.output + [72] + [101] + [108]
    ensures Leads(HelloWorld, st, 15, next)
  {
    HelloCode();
    var s1 := Print(HelloWorld, st, 1, 2);
    var s2 := Print(HelloWorld, s1, 1, 1);
    LeadsTrans(HelloWorld, st, 4, s1, 3, s2);
    next := Print(HelloWorld, s2, 0, 7);
    LeadsTrans(HelloWorld, st, 7, s2, 8, next);
  }

  /** `.+++.>++.`: prints "lo ". */
  lemma PrintLoSpace(st: State) returns (next: State)
    requires st.pc == 54 && Cells(st, 2, 0, 72, 108, 30)
    ensures next.pc == 63 && Cells(next, 3, 0, 72, 111, 32)
    ensures next.output == st.output + [108] + [111] + [32]
    ensures Leads(HelloWorld, st, 9, next)
  {
    HelloCode();
    SpaceCode();
    var s1 := Print(HelloWorld, st, 0, 0);
    var s2 := Print(HelloWorld, s1, 0, 3);
    LeadsTrans(HelloWorld, st, 1, s1, 4, s2);
    next := Print(HelloWorld, s2, 1, 2);
    LeadsTrans(HelloWorld, st, 5, s2, 4, next);
  }

  /** `<<+++++++++++++++.>.+++.`: prints "Wor". */
  lemma PrintWor(st: State) returns (next: State)
    requires st.pc == 63 && Cells(st, 3, 0, 72, 111, 32)
    ensures next.pc == 87 && Cells(next, 2, 0, 87, 114, 32)
    ensures next.output == st.output + [87] + [111] + [114]
    ensures Leads(HelloWorld, st, 24, next)
  {
    SpaceCode();
    var s1 := Print(HelloWorld, st, -2, 15);
    var s2 := Print(HelloWorld, s1, 1, 0);
    LeadsTrans(HelloWorld, st, 18, s1, 2, s2);
    next := Print(HelloWorld, s2, 0, 3);
    LeadsTrans(HelloWorld, st, 20, s2, 4, next);
  }

  /** `------.--------.>+.`: prints "ld!" and reaches the end of the code. */
  lemma PrintLdBang(st: State) returns (next: State)
    requires st.pc == 87 && Cells(st, 2, 0, 87, 114, 32)
    ensures next.pc == |HelloWorld| && Cells(next, 3, 0, 87, 100, 33)
    ensures next.output == st.output + [108] + [100] + [33]
    ensures Leads(HelloWorld, st, 19, next)
  {
    WorldCode();
    var s1 := Print(HelloWorld, st, 0, -6);
    var s2 := Print(HelloWorld, s1, 0, -8);
    LeadsTrans(HelloWorld, st, 7, s1, 9, s2);
    next := Print(HelloWorld, s2, 1, 1);
    LeadsTrans(HelloWorld, st, 16, s2, 3, next);
  }

  lemma HelloWorldSpelled()
    ensures Spells([] + [72] + [101] + [108] + [108] + [111] + [32] + [87] + [111] + [114] + [108] + [100] + [33], "Hello World!")
  {
    var cells: seq<Cell> := [72, 101, 108, 108, 111, 32, 87, 111, 114, 108, 100, 33];
    assert [] + [72] + [101] + [108] + [108] + [111] + [32] + [87] + [111] + [114] + [108] + [100] + [33] == cells;
  }

  /** The unit-test scenario: on any input, with fuel for its 358 commands,
      the program completes and its output is "Hello World!". */
  lemma HelloWorldOutput(input: seq<Cell>, fuel: nat)
    requires fuel >= 358
    ensures Run(HelloWorld, Initial(input), fuel).Halted?
    ensures Spells(Run(HelloWorld, Initial(input), fuel).final.output, "Hello World!")
  {
    var s0 := Initial(input);
    var s11 := Prologue(input);
    var s39 := LoopRuns(s11, true, 10, 0, 0, 0);
    LeadsTrans(HelloWorld, s0, 11, s11, 280, s39);
    var s54 := PrintHel(s39);
    LeadsTrans(HelloWorld, s0, 291, s39, 15, s54);
    var s63 := PrintLoSpace(s54);
    LeadsTrans(HelloWorld, s0, 306, s54, 9, s63);
    var s87 := PrintWor(s63);
    LeadsTrans(HelloWorld, s0, 315, s63, 24, s87);
    var s106 := PrintLdBang(s87);
    LeadsTrans(HelloWorld, s0, 339, s87, 19, s106);
    assert Run(HelloWorld, s0, fuel) == Run(HelloWorld, s106, fuel - 358);
    HelloWorldSpelled();
  }
}
