/** BrainfuckDebugInterpreter: strips the source first, then runs the
    stripped commands over a tape that starts with one cell and grows on
    demand, emitting a trace record per command and the comments of the
    source lines it passes, and buffering the program's output until the end.

    Trace lines, comment blocks and the final output section are abstract
    events. Step, Finish and Run are the specification; Interpret is the C#
    loop, proved equal to Run. */
module DebugInterpreter {
  import opened InterpreterBase
  import Preprocessor

  /** The stripped program with the two dictionaries Strip returns. */
  datatype Program = Program(code: string, positions: map<int, (int, int)>, comments: map<int, string>)

  function Load(src: string): Program {
    Program(Preprocessor.Stripped(src), Preprocessor.Positions(src), Preprocessor.Comments(src))
  }

  datatype Event =
    | Trace(line: int, column: int, command: char, cell: int, value: Cell)   // WriteDebug
    | CommentBlock(line: int, text: string, tape: seq<Cell>, cursor: int)    // one comment of WriteComment, with its tape dump
    | ProgramOutput(written: seq<Cell>)                                       // the "Program output:" section

  datatype State = State(
    pc: nat,
    previous: int,
    cursor: int,
    tape: seq<Cell>,
    loopStarts: seq<nat>,
    top: int,
    cache: map<nat, nat>,
    input: seq<Cell>,
    buffer: seq<Cell>,
    events: seq<Event>)

  function Initial(input: seq<Cell>): State {
    State(0, -1, 0, [DefaultCellContent], [], -1, map[], input, [], [])
  }

  // ---------------------------------------------------------------------
  // WriteComment.

  /** The comment blocks WriteComment writes for lines fromLn .. toLn - 1. */
  function CommentEvents(comments: map<int, string>, tape: seq<Cell>, cursor: int, fromLn: int, toLn: int): seq<Event>
    decreases toLn - fromLn
  {
    if toLn <= fromLn then []
    else
      (if fromLn in comments then [CommentBlock(fromLn, comments[fromLn], tape, cursor)] else [])
      + CommentEvents(comments, tape, cursor, fromLn + 1, toLn)
  }

  /** WriteComment: for each line of the range in ascending order, the
      comment recorded for it (if any) with a dump of the tape. */
  method WriteComment(commentsByLn: map<int, string>, memoryCells: seq<Cell>, currentCell: int, fromLn: int, toLn: int)
    returns (written: seq<Event>)
    ensures written == CommentEvents(commentsByLn, memoryCells, currentCell, fromLn, toLn)
  {
    written := [];
    var i := fromLn;
    while i < toLn
      invariant fromLn <= i && (i <= toLn || i == fromLn)
      invariant written + CommentEvents(commentsByLn, memoryCells, currentCell, i, toLn)
                == CommentEvents(commentsByLn, memoryCells, currentCell, fromLn, toLn)
      decreases toLn - i
    {
      if i in commentsByLn {
        written := written + [CommentBlock(i, commentsByLn[i], memoryCells, currentCell)];
      }
      i := i + 1;
    }
  }

  /** Every block written is the comment of a commented line of the range,
      shown with the current tape. */
  lemma {:induction false} CommentBlocksInRange(comments: map<int, string>, tape: seq<Cell>, cursor: int, fromLn: int, toLn: int)
    ensures var evs := CommentEvents(comments, tape, cursor, fromLn, toLn);
      forall e :: e in evs ==>
        e.CommentBlock? && fromLn <= e.line < toLn && e.line in comments
        && e == CommentBlock(e.line, comments[e.line], tape, cursor)
    decreases toLn - fromLn
  {
    if fromLn < toLn {
      CommentBlocksInRange(comments, tape, cursor, fromLn + 1, toLn);
    }
  }

  /** The blocks come in strictly ascending line order, so no line is written twice. */
  lemma {:induction false} CommentBlocksAscending(comments: map<int, string>, tape: seq<Cell>, cursor: int, fromLn: int, toLn: int)
    ensures var evs := CommentEvents(comments, tape, cursor, fromLn, toLn);
      forall i, j :: 0 <= i < j < |evs| ==> evs[i].CommentBlock? && evs[j].CommentBlock? && evs[i].line < evs[j].line
    decreases toLn - fromLn
  {
    if fromLn < toLn {
      CommentBlocksAscending(comments, tape, cursor, fromLn + 1, toLn);
      CommentBlocksInRange(comments, tape, cursor, fromLn + 1, toLn);
      var tail := CommentEvents(comments, tape, cursor, fromLn + 1, toLn);
      if fromLn in comments {
        var evs := [CommentBlock(fromLn, comments[fromLn], tape, cursor)] + tail;
        assert CommentEvents(comments, tape, cursor, fromLn, toLn) == evs;
        forall i, j | 0 <= i < j < |evs|
          ensures evs[i].CommentBlock? && evs[j].CommentBlock? && evs[i].line < evs[j].line
        {
          assert evs[j] == tail[j - 1] && evs[j] in tail;
          if i > 0 {
            assert evs[i] == tail[i - 1];
          }
        }
      }
    }
  }

  /** Every commented line of the range is written. */
  lemma {:induction false} CommentBlocksComplete(comments: map<int, string>, tape: seq<Cell>, cursor: int, fromLn: int, toLn: int)
    ensures forall l :: fromLn <= l < toLn && l in comments ==>
      CommentBlock(l, comments[l], tape, cursor) in CommentEvents(comments, tape, cursor, fromLn, toLn)
    decreases toLn - fromLn
  {
    if fromLn < toLn {
      CommentBlocksComplete(comments, tape, cursor, fromLn + 1, toLn);
    }
  }

  /** An empty or reversed range writes nothing. */
  lemma NoCommentsForEmptyRange(comments: map<int, string>, tape: seq<Cell>, cursor: int, fromLn: int, toLn: int)
    requires toLn <= fromLn
    ensures CommentEvents(comments, tape, cursor, fromLn, toLn) == []
  {
  }

  // ---------------------------------------------------------------------
  // One pass of the dispatch loop.

  /** The comment blocks written by the line check at the top of
      Interpret's loop, with the faults of its dictionary lookups in C# evaluation
      order: before the first command the range starts at line 0; later it
      runs from the previous command's line to the current one. */
  function CommentsBefore(p: Program, st: State): Result<seq<Event>> {
    if st.previous < 0 && st.pc !in p.positions then Err(PositionNotMapped(st.pc))
    else if st.previous < 0 && p.positions[st.pc].0 != 0 then
      Ok(CommentEvents(p.comments, st.tape, st.cursor, 0, p.positions[st.pc].0))
    else if st.previous !in p.positions then Err(PositionNotMapped(st.previous))
    else if st.pc !in p.positions then Err(PositionNotMapped(st.pc))
    else if p.positions[st.previous].0 != p.positions[st.pc].0 then
      Ok(CommentEvents(p.comments, st.tape, st.cursor,
                       if st.previous < 0 then 0 else p.positions[st.previous].0, p.positions[st.pc].0))
    else Ok([])
  }

  /** WriteDebug: the mapped line and column, the command, the cell index
      and the cell value. */
  function TraceAt(p: Program, pc: nat, cursor: int, tape: seq<Cell>): (r: Result<Event>)
    requires pc < |p.code|
    ensures r.Ok? <==> pc in p.positions && 0 <= cursor < |tape|
  {
    if pc !in p.positions then Err(PositionNotMapped(pc))
    else if !(0 <= cursor < |tape|) then Err(CellIndexOutOfRange(cursor))
    else Ok(Trace(p.positions[pc].0, p.positions[pc].1, p.code[pc], cursor, tape[cursor]))
  }

  /** The trace taken after a command's effect, then pc + 1. */
  function Traced(p: Program, st: State): Result<State>
    requires st.pc < |p.code|
  {
    match TraceAt(p, st.pc, st.cursor, st.tape)
    case Err(f) => Err(f)
    case Ok(e) => Ok(st.(events := st.events + [e], pc := st.pc + 1))
  }

  function Step(p: Program, st: State): Result<State>
    requires st.pc < |p.code|
  {
    match CommentsBefore(p, st)
    case Err(f) => Err(f)
    case Ok(block) => Execute(p, st.(previous := st.pc, events := st.events + block))
  }

  /** The switch on the current command. */
  function Execute(p: Program, st: State): Result<State>
    requires st.pc < |p.code|
  {
    var c := p.code[st.pc];
    if c == GoRightCommand then
      var cursor := st.cursor + 1;
      Traced(p, st.(cursor := cursor, tape := if |st.tape| < cursor + 1 then st.tape + [DefaultCellContent] else st.tape))
    else if c == GoLeftCommand then
      if st.cursor - 1 < 0 then Err(NegativeCellIndex(st.pc)) else Traced(p, st.(cursor := st.cursor - 1))
    else if c == LoopStartCommand || c == LoopEndCommand then
      match TraceAt(p, st.pc, st.cursor, st.tape)
      case Err(f) => Err(f)
      case Ok(e) =>
        var st' := st.(events := st.events + [e]);
        if c == LoopStartCommand then LoopStart(p, st', st.tape[st.cursor])
        else LoopEnd(st', st.tape[st.cursor])
    else if !IsCommand(c) then Err(UndefinedCommand(st.pc))
    else if !(0 <= st.cursor < |st.tape|) then Err(CellIndexOutOfRange(st.cursor))
    else
      var v := st.tape[st.cursor];
      if c == IncrementCommand then Traced(p, st.(tape := st.tape[st.cursor := Increment(v)]))
      else if c == DecrementCommand then Traced(p, st.(tape := st.tape[st.cursor := Decrement(v)]))
      else if c == OutputCommand then Traced(p, st.(buffer := st.buffer + [v]))
      else
        var (x, rest) := ReadCell(st.input);
        Traced(p, st.(tape := st.tape[st.cursor := x], input := rest))
  }

  /** `[` after its trace: on a zero cell continue after the matching `]`
      (cached, or found and cached as the `]` index itself), otherwise push. */
  function LoopStart(p: Program, st: State, v: Cell): Result<State>
    requires st.pc < |p.code|
  {
    if v == 0 then
      if st.pc in st.cache then
        var target := st.cache[st.pc];
        Ok(st.(previous := target, pc := target + 1))
      else
        match MatchingLoopEnd(p.code, st.pc)
        case None => Err(LoopEndNotFound(st.pc))
        case Some(q) => Ok(st.(cache := st.cache[st.pc := q], previous := q, pc := q + 1))
    else
      var top := st.top + 1;
      if |st.loopStarts| <= top then
        Ok(st.(pc := st.pc + 1, top := top, loopStarts := st.loopStarts + [st.pc]))
      else if top < 0 then Err(LoopStartIndexOutOfRange(top))
      else Ok(st.(pc := st.pc + 1, top := top, loopStarts := st.loopStarts[top := st.pc]))
  }

  /** `]` after its trace: on a nonzero cell continue after the loop start
      (cached, or the stored top, popped and cached), otherwise advance. */
  function LoopEnd(st: State, v: Cell): Result<State> {
    if v != 0 then
      if st.pc in st.cache then
        var target := st.cache[st.pc];
        Ok(st.(previous := target, pc := target + 1))
      else if !(0 <= st.top < |st.loopStarts|) then Err(LoopStartIndexOutOfRange(st.top))
      else
        var target := st.loopStarts[st.top];
        Ok(st.(top := st.top - 1, cache := st.cache[st.pc := target], previous := target, pc := target + 1))
    else Ok(st.(pc := st.pc + 1))
  }

  // ---------------------------------------------------------------------
  // After the loop.

  /** posToLnCol.Values.Max(x => x.Item2): the largest mapped column. */
  ghost function MaxColumn(m: map<int, (int, int)>): (r: int)
    requires m != map[]
    ensures exists k :: k in m && m[k].1 == r
    ensures forall k :: k in m ==> m[k].1 <= r
  {
    MaxColumnOf(m, m.Keys)
  }

  ghost function MaxColumnOf(m: map<int, (int, int)>, keys: set<int>): (r: int)
    requires keys != {} && keys <= m.Keys
    ensures exists k :: k in keys && m[k].1 == r
    ensures forall k :: k in keys ==> m[k].1 <= r
    decreases keys
  {
    HasElement(keys);
    var k :| k in keys;
    if keys == {k} then m[k].1
    else
      var r := MaxColumnOf(m, keys - {k});
      if m[k].1 > r then m[k].1 else r
  }

  lemma HasElement(s: set<int>)
    requires s != {}
    ensures exists k :: k in s
  {
    if forall k :: k !in s {
      assert false;
    }
  }

  /** The final WriteComment, from the line of the last command to the
      largest mapped column, then the buffered output. */
  ghost function Finish(p: Program, st: State): Result<seq<Event>> {
    if st.previous !in p.positions then Err(PositionNotMapped(st.previous))
    else
      var block := CommentEvents(p.comments, st.tape, st.cursor, p.positions[st.previous].0, MaxColumn(p.positions));
      Ok(st.events + block + [ProgramOutput(st.buffer)])
  }

  datatype Outcome =
    | Halted(final: State, events: seq<Event>)
    | Failed(fault: Fault, at: State)
    | OutOfFuel(last: State)

  /** The dispatch loop for at most fuel passes; Halted here means the loop
      was left with the events written so far. */
  ghost function Loop(p: Program, st: State, fuel: nat): Outcome
    decreases fuel
  {
    if st.pc >= |p.code| then Halted(st, st.events)
    else if fuel == 0 then OutOfFuel(st)
    else
      match Step(p, st)
      case Err(f) => Failed(f, st)
      case Ok(next) => Loop(p, next, fuel - 1)
  }

  /** The whole run: the loop, then the closing comments and output. */
  ghost function Run(p: Program, st: State, fuel: nat): Outcome {
    Conclude(p, Loop(p, st, fuel))
  }

  /** A loop that was left goes on to Finish; a fault or running out of fuel
      ends the run there. */
  ghost function Conclude(p: Program, exit: Outcome): Outcome {
    match exit
    case Halted(final, _) =>
      (match Finish(p, final)
       case Err(f) => Failed(f, final)
       case Ok(evs) => Halted(final, evs))
    case _ => exit
  }

  /** Loop from st with the given fuel ends in o. It is stated through a
      quantifier so that the dispatch loop's proof does not unfold Loop; LoopPass
      and LoopExit let that proof follow Loop one pass at a time. */
  ghost predicate LoopEndsIn(p: Program, st: State, fuel: nat, o: Outcome) {
    forall f: nat :: f == fuel ==> Loop(p, st, f) == o
  }

  lemma LoopPass(p: Program, st: State, r: Result<State>, fuel: nat, o: Outcome)
    requires st.pc < |p.code| && fuel > 0 && r == Step(p, st) && LoopEndsIn(p, st, fuel, o)
    ensures r.Err? ==> o == Failed(r.fault, st)
    ensures r.Ok? ==> LoopEndsIn(p, r.value, fuel - 1, o)
  {
    assert Loop(p, st, fuel) == o;
  }

  lemma LoopExit(p: Program, st: State, fuel: nat, o: Outcome)
    requires LoopEndsIn(p, st, fuel, o) && (st.pc >= |p.code| || fuel == 0)
    ensures o == if st.pc < |p.code| then OutOfFuel(st) else Halted(st, st.events)
  {
    assert Loop(p, st, fuel) == o;
  }

  // ---------------------------------------------------------------------
  // The C# methods.

  /** FindEndOfLoopPosition: the index of the `]` closing the loop at
      position; None where the C# scan indexes past the end of the code. */
  method FindEndOfLoopPosition(code: string, position: nat) returns (r: Option<nat>)
    requires position < |code|
    ensures r == MatchingLoopEnd(code, position)
    ensures r.Some? ==> ClosesAt(code, position, r.value)
  {
    var pos := position;
    var counter := 1;
    while true
      invariant position <= pos < |code|
      invariant counter == Depth(code, position, pos)
      invariant forall k :: position <= k <= pos ==> Depth(code, position, k) > 0
      invariant ScanFrom(code, position, pos + 1, counter) == MatchingLoopEnd(code, position)
      decreases |code| - pos
    {
      pos := pos + 1;
      if pos >= |code| {
        return None;
      }
      if code[pos] == LoopStartCommand {
        counter := counter + 1;
        continue;
      }
      if code[pos] == LoopEndCommand {
        counter := counter - 1;
      }
      if counter == 0 && code[pos] == LoopEndCommand {
        ClosesAtUnique(code, position, pos);
        return Some(pos);
      }
    }
  }

  /** posToLnCol.Values.Max(x => x.Item2), taking the values in any order. */
  method MaxColumnOfValues(m: map<int, (int, int)>) returns (r: int)
    requires m != map[]
    ensures r == MaxColumn(m)
  {
    HasElement(m.Keys);
    var k0 :| k0 in m;
    r := m[k0].1;
    var keys := m.Keys - {k0};
    while keys != {}
      invariant keys <= m.Keys
      invariant exists k :: k in m && m[k].1 == r
      invariant forall k :: k in m && k !in keys ==> m[k].1 <= r
      decreases keys
    {
      HasElement(keys);
      var k :| k in keys;
      if m[k].1 > r {
        r := m[k].1;
      }
      keys := keys - {k};
    }
    MaxColumnUnique(m, r);
  }

  lemma MaxColumnUnique(m: map<int, (int, int)>, r: int)
    requires m != map[]
    requires exists k :: k in m && m[k].1 == r
    requires forall k :: k in m ==> m[k].1 <= r
    ensures r == MaxColumn(m)
  {
    var k :| k in m && m[k].1 == r;
    var j :| j in m && m[j].1 == MaxColumn(m);
  }

  /** The line check at the top of Interpret's loop: the comment
      blocks of the lines between the previous command and this one. */
  method WriteCommentsBefore(p: Program, st: State) returns (r: Result<seq<Event>>)
    ensures r == CommentsBefore(p, st)
  {
    var posToLnCol, position, previousPosition := p.positions, st.pc, st.previous;
    if previousPosition < 0 && position !in posToLnCol {
      return Err(PositionNotMapped(position));
    }
    if previousPosition < 0 && posToLnCol[position].0 != 0 {
      var block := WriteComment(p.comments, st.tape, st.cursor, 0, posToLnCol[position].0);
      return Ok(block);
    }
    if previousPosition !in posToLnCol {
      return Err(PositionNotMapped(previousPosition));
    }
    if position !in posToLnCol {
      return Err(PositionNotMapped(position));
    }
    if posToLnCol[previousPosition].0 != posToLnCol[position].0 {
      var block := WriteComment(p.comments, st.tape, st.cursor,
                                if previousPosition < 0 then 0 else posToLnCol[previousPosition].0, posToLnCol[position].0);
      return Ok(block);
    }
    return Ok([]);
  }

  /** WriteDebug: a dictionary lookup and a list index, either of which can fail. */
  method WriteDebug(p: Program, position: nat, memoryCells: seq<Cell>, currentCell: int) returns (r: Result<Event>)
    requires position < |p.code|
    ensures r == TraceAt(p, position, currentCell, memoryCells)
  {
    if position !in p.positions {
      return Err(PositionNotMapped(position));
    }
    if !(0 <= currentCell < |memoryCells|) {
      return Err(CellIndexOutOfRange(currentCell));
    }
    var lnCol := p.positions[position];
    return Ok(Trace(lnCol.0, lnCol.1, p.code[position], currentCell, memoryCells[currentCell]));
  }

  /** The switch on the current command in Interpret's loop, with the trace written after
      the effect, or before the jump for the two brackets. */
  method ExecuteCommand(p: Program, st: State) returns (r: Result<State>)
    requires st.pc < |p.code|
    ensures r == Execute(p, st)
  {
    var position, currentCell, memoryCells := st.pc, st.cursor, st.tape;
    var c := p.code[position];
    var s := st;
    if c == LoopStartCommand || c == LoopEndCommand {
      var trace := WriteDebug(p, position, memoryCells, currentCell);
      if trace.Err? {
        return Err(trace.fault);
      }
      s := s.(events := s.events + [trace.value]);
      if c == LoopStartCommand {
        r := EnterLoop(p, s, memoryCells[currentCell]);
      } else {
        r := LeaveLoop(s, memoryCells[currentCell]);
      }
      return;
    }
    if c == GoRightCommand {
      currentCell := currentCell + 1;
      if |memoryCells| < currentCell + 1 {
        memoryCells := memoryCells + [DefaultCellContent];
      }
      s := s.(cursor := currentCell, tape := memoryCells);
    } else if c == GoLeftCommand {
      currentCell := currentCell - 1;
      if currentCell < 0 {
        return Err(NegativeCellIndex(position));
      }
      s := s.(cursor := currentCell);
    } else if !IsCommand(c) {
      return Err(UndefinedCommand(position));
    } else if !(0 <= currentCell < |memoryCells|) {
      return Err(CellIndexOutOfRange(currentCell));
    } else if c == IncrementCommand {
      s := s.(tape := memoryCells[currentCell := Increment(memoryCells[currentCell])]);
    } else if c == DecrementCommand {
      s := s.(tape := memoryCells[currentCell := Decrement(memoryCells[currentCell])]);
    } else if c == OutputCommand {
      s := s.(buffer := s.buffer + [memoryCells[currentCell]]);
    } else {
      var (x, rest) := ReadCell(s.input);
      s := s.(tape := memoryCells[currentCell := x], input := rest);
    }
    var trace := WriteDebug(p, position, s.tape, s.cursor);
    if trace.Err? {
      return Err(trace.fault);
    }
    return Ok(s.(events := s.events + [trace.value], pc := position + 1));
  }

  /** The `[` case after its trace. */
  method EnterLoop(p: Program, st: State, cell: Cell) returns (r: Result<State>)
    requires st.pc < |p.code|
    ensures r == LoopStart(p, st, cell)
  {
    var position := st.pc;
    if cell == 0 {
      var cache := st.cache;
      if position in cache {
        position := cache[position];
      } else {
        var oldPosition := position;
        var found := FindEndOfLoopPosition(p.code, position);
        if found.None? {
          return Err(LoopEndNotFound(position));
        }
        position := found.value;
        cache := cache[oldPosition := position];
      }
      return Ok(st.(cache := cache, previous := position, pc := position + 1));
    }
    var currentLoopStartPosition := st.top + 1;
    var starts := st.loopStarts;
    if |starts| <= currentLoopStartPosition {
      starts := starts + [position];
    } else if currentLoopStartPosition < 0 {
      return Err(LoopStartIndexOutOfRange(currentLoopStartPosition));
    } else {
      starts := starts[currentLoopStartPosition := position];
    }
    return Ok(st.(pc := position + 1, top := currentLoopStartPosition, loopStarts := starts));
  }

  /** The `]` case after its trace. */
  method LeaveLoop(st: State, cell: Cell) returns (r: Result<State>)
    ensures r == LoopEnd(st, cell)
  {
    var position := st.pc;
    if cell != 0 {
      var cache, top := st.cache, st.top;
      if position in cache {
        position := cache[position];
      } else {
        var oldPosition := position;
        if !(0 <= top < |st.loopStarts|) {
          return Err(LoopStartIndexOutOfRange(top));
        }
        position := st.loopStarts[top];
        top := top - 1;
        cache := cache[oldPosition := position];
      }
      return Ok(st.(top := top, cache := cache, previous := position, pc := position + 1));
    }
    return Ok(st.(pc := position + 1));
  }

  /** One pass of the loop body: the line check, then the command. */
  method Pass(p: Program, st: State) returns (r: Result<State>)
    requires st.pc < |p.code|
    ensures r == Step(p, st)
  {
    var block := WriteCommentsBefore(p, st);
    match block
    case Err(f) =>
      return Err(f);
    case Ok(written) =>
      r := ExecuteCommand(p, st.(previous := st.pc, events := st.events + written));
  }

  /** BrainfuckDebugInterpreter.Interpret, for at most fuel commands: Strip,
      the dispatch loop over the stripped code, then the closing comments and
      the buffered output. */
  method Interpret(programCode: string, input: seq<Cell>, fuel: nat) returns (outcome: Outcome)
    ensures outcome == Run(Load(programCode), Initial(input), fuel)
  {
    var code, posToLnCol, commentsByLn := Preprocessor.Strip(programCode);
    outcome := InterpretStripped(Program(code, posToLnCol, commentsByLn), input, fuel);
  }

  /** Interpret after its call to Strip: the set-up, the dispatch loop and
      the closing report, on the stripped program. */
  method InterpretStripped(p: Program, input: seq<Cell>, fuel: nat) returns (outcome: Outcome)
    ensures outcome == Run(p, Initial(input), fuel)
  {
    var exit := DispatchLoop(p, input, fuel);
    if !exit.Halted? {
      return exit;
    }
    var report := WriteReport(p, exit.final);
    match report
    case Err(f) => outcome := Failed(f, exit.final);
    case Ok(evs) => outcome := Halted(exit.final, evs);
  }

  /** The set-up of Interpret's state and its dispatch loop. */
  method DispatchLoop(p: Program, input: seq<Cell>, fuel: nat) returns (exit: Outcome)
    ensures exit == Loop(p, Initial(input), fuel)
  {
    ghost var target := Loop(p, Initial(input), fuel);
    var st := Initial(input);
    var steps := fuel;
    while st.pc < |p.code| && steps > 0
      invariant LoopEndsIn(p, st, steps, target)
      decreases steps
    {
      var next := Pass(p, st);
      LoopPass(p, st, next, steps, target);
      if next.Err? {
        return Failed(next.fault, st);
      }
      st := next.value;
      steps := steps - 1;
    }
    LoopExit(p, st, steps, target);
    if st.pc < |p.code| {
      return OutOfFuel(st);
    }
    return Halted(st, st.events);
  }

  /** The closing WriteComment call, from the line of the last recorded
      position up to the largest column, then the buffered output. */
  method WriteReport(p: Program, st: State) returns (r: Result<seq<Event>>)
    ensures r == Finish(p, st)
  {
    if st.previous !in p.positions {
      return Err(PositionNotMapped(st.previous));
    }
    var maxColumn := MaxColumnOfValues(p.positions);
    var block := WriteComment(p.comments, st.tape, st.cursor, p.positions[st.previous].0, maxColumn);
    return Ok(st.events + block + [ProgramOutput(st.buffer)]);
  }

  // ---------------------------------------------------------------------
  // Properties.

  /** What Strip guarantees of its results: every stripped index is mapped
      (and nothing else), the code holds only commands, and lines count from 1. */
  ghost predicate WellFormed(p: Program) {
    && (forall k :: k in p.positions <==> 0 <= k < |p.code|)
    && (forall k :: 0 <= k < |p.code| ==> IsCommand(p.code[k]))
    && (forall k :: k in p.positions ==> p.positions[k].0 >= 1)
  }

  lemma LoadWellFormed(src: string)
    ensures WellFormed(Load(src))
  {
    Preprocessor.PositionKeys(src);
    Preprocessor.OutputIsCommands(src);
    Preprocessor.PositionsFromOne(src);
  }

  /** A cache entry for a `[` holds its matching `]`; one for a `]` holds a loop start. */
  ghost predicate CacheEntryOk(code: string, k: nat, v: nat) {
    && k < |code|
    && (|| (code[k] == LoopStartCommand && MatchingLoopEnd(code, k) == Some(v))
        || (code[k] == LoopEndCommand && v < |code| && code[v] == LoopStartCommand))
  }

  /** The invariant of the dispatch loop. */
  ghost predicate Valid(p: Program, st: State) {
    && st.pc <= |p.code|
    && st.previous == st.pc - 1
    && 0 <= st.cursor < |st.tape|
    && -1 <= st.top < |st.loopStarts|
    && (forall i :: 0 <= i < |st.loopStarts| ==> st.loopStarts[i] < |p.code| && p.code[st.loopStarts[i]] == LoopStartCommand)
    && (forall k :: k in st.cache ==> CacheEntryOk(p.code, k, st.cache[k]))
    && (forall i :: 0 <= i < |st.events| ==> !st.events[i].ProgramOutput?)
  }

  lemma InitialValid(p: Program, input: seq<Cell>)
    ensures Valid(p, Initial(input))
  {
  }

  /** On a well-formed program the line check never fails: it writes the
      comments of the lines from the previous command's line (0 before the
      first command) up to, not including, the current command's line. */
  lemma CommentsBeforeValid(p: Program, st: State)
    requires WellFormed(p) && Valid(p, st) && st.pc < |p.code|
    ensures CommentsBefore(p, st)
            == Ok(CommentEvents(p.comments, st.tape, st.cursor,
                                if st.pc == 0 then 0 else p.positions[st.pc - 1].0, p.positions[st.pc].0))
  {
    if st.pc > 0 && p.positions[st.pc - 1].0 == p.positions[st.pc].0 {
      NoCommentsForEmptyRange(p.comments, st.tape, st.cursor, p.positions[st.pc - 1].0, p.positions[st.pc].0);
    }
  }

  /** The state after the line check. */
  function Checked(p: Program, st: State): State
    requires st.pc < |p.code| && CommentsBefore(p, st).Ok?
  {
    st.(previous := st.pc, events := st.events + CommentsBefore(p, st).value)
  }

  lemma CheckedValid(p: Program, st: State)
    requires WellFormed(p) && Valid(p, st) && st.pc < |p.code|
    ensures CommentsBefore(p, st).Ok?
    ensures var m := Checked(p, st);
      && m.previous == st.pc && 0 <= m.cursor < |m.tape| && -1 <= m.top < |m.loopStarts|
      && (forall i :: 0 <= i < |m.events| ==> !m.events[i].ProgramOutput?)
  {
    CommentsBeforeValid(p, st);
    var block := CommentsBefore(p, st).value;
    var from := if st.pc == 0 then 0 else p.positions[st.pc - 1].0;
    CommentBlocksInRange(p.comments, st.tape, st.cursor, from, p.positions[st.pc].0);
    var evs := st.events + block;
    forall i | 0 <= i < |evs| ensures !evs[i].ProgramOutput? {
      if i >= |st.events| {
        assert evs[i] == block[i - |st.events|] && block[i - |st.events|] in block;
      }
    }
  }

  /** Appending a trace keeps the events free of the output section. */
  lemma AppendTrace(evs: seq<Event>, e: Event)
    requires forall i :: 0 <= i < |evs| ==> !evs[i].ProgramOutput?
    requires e.Trace?
    ensures forall i :: 0 <= i < |evs + [e]| ==> !(evs + [e])[i].ProgramOutput?
  {
  }

  lemma LoopStartPreservesValid(p: Program, m: State, v: Cell)
    requires WellFormed(p) && m.pc < |p.code| && p.code[m.pc] == LoopStartCommand
    requires m.previous == m.pc && 0 <= m.cursor < |m.tape| && -1 <= m.top < |m.loopStarts|
    requires forall i :: 0 <= i < |m.loopStarts| ==> m.loopStarts[i] < |p.code| && p.code[m.loopStarts[i]] == LoopStartCommand
    requires forall k :: k in m.cache ==> CacheEntryOk(p.code, k, m.cache[k])
    requires forall i :: 0 <= i < |m.events| ==> !m.events[i].ProgramOutput?
    requires LoopStart(p, m, v).Ok?
    ensures Valid(p, LoopStart(p, m, v).value)
  {
    if v == 0 && m.pc !in m.cache {
      var q := MatchingLoopEnd(p.code, m.pc).value;
      assert CacheEntryOk(p.code, m.pc, q);
    } else if v == 0 {
      assert CacheEntryOk(p.code, m.pc, m.cache[m.pc]);
    }
  }

  lemma LoopEndPreservesValid(p: Program, m: State, v: Cell)
    requires WellFormed(p) && m.pc < |p.code| && p.code[m.pc] == LoopEndCommand
    requires m.previous == m.pc && 0 <= m.cursor < |m.tape| && -1 <= m.top < |m.loopStarts|
    requires forall i :: 0 <= i < |m.loopStarts| ==> m.loopStarts[i] < |p.code| && p.code[m.loopStarts[i]] == LoopStartCommand
    requires forall k :: k in m.cache ==> CacheEntryOk(p.code, k, m.cache[k])
    requires forall i :: 0 <= i < |m.events| ==> !m.events[i].ProgramOutput?
    requires LoopEnd(m, v).Ok?
    ensures Valid(p, LoopEnd(m, v).value)
  {
    if v != 0 && m.pc in m.cache {
      assert CacheEntryOk(p.code, m.pc, m.cache[m.pc]);
    }
  }

  /** Every successful pass keeps the invariant. */
  lemma StepPreservesValid(p: Program, st: State)
    requires WellFormed(p) && Valid(p, st) && st.pc < |p.code| && Step(p, st).Ok?
    ensures Valid(p, Step(p, st).value)
  {
    CheckedValid(p, st);
    var m := Checked(p, st);
    var c := p.code[st.pc];
    if c == LoopStartCommand || c == LoopEndCommand {
      var e := TraceAt(p, m.pc, m.cursor, m.tape).value;
      AppendTrace(m.events, e);
      var m' := m.(events := m.events + [e]);
      if c == LoopStartCommand {
        LoopStartPreservesValid(p, m', m.tape[m.cursor]);
      } else {
        LoopEndPreservesValid(p, m', m.tape[m.cursor]);
      }
    } else {
      CellCommandPreservesValid(p, m);
    }
  }

  lemma CellCommandPreservesValid(p: Program, m: State)
    requires WellFormed(p) && m.pc < |p.code|
    requires p.code[m.pc] != LoopStartCommand && p.code[m.pc] != LoopEndCommand
    requires m.previous == m.pc && 0 <= m.cursor < |m.tape| && -1 <= m.top < |m.loopStarts|
    requires forall i :: 0 <= i < |m.loopStarts| ==> m.loopStarts[i] < |p.code| && p.code[m.loopStarts[i]] == LoopStartCommand
    requires forall k :: k in m.cache ==> CacheEntryOk(p.code, k, m.cache[k])
    requires forall i :: 0 <= i < |m.events| ==> !m.events[i].ProgramOutput?
    requires Execute(p, m).Ok?
    ensures Valid(p, Execute(p, m).value)
  {
    var next := Execute(p, m).value;
    assert next.events == m.events + [next.events[|m.events|]] && next.events[|m.events|].Trace?;
    AppendTrace(m.events, next.events[|m.events|]);
  }

  /** On a well-formed program in a valid state exactly three things make a
      pass fail: `<` on cell 0, a `[` on a zero cell with no matching `]`,
      and a `]` on a nonzero cell with no cached target and an empty stack. */
  lemma StepFaults(p: Program, st: State)
    requires WellFormed(p) && Valid(p, st) && st.pc < |p.code|
    ensures var c, v := p.code[st.pc], st.tape[st.cursor];
      && (Step(p, st) == Err(NegativeCellIndex(st.pc)) <==> c == GoLeftCommand && st.cursor == 0)
      && (Step(p, st) == Err(LoopEndNotFound(st.pc))
          <==> c == LoopStartCommand && v == 0 && st.pc !in st.cache && MatchingLoopEnd(p.code, st.pc).None?)
      && (Step(p, st) == Err(LoopStartIndexOutOfRange(-1))
          <==> c == LoopEndCommand && v != 0 && st.pc !in st.cache && st.top == -1)
      && (Step(p, st).Err? ==> Step(p, st).fault in {NegativeCellIndex(st.pc), LoopEndNotFound(st.pc), LoopStartIndexOutOfRange(-1)})
  {
    CheckedValid(p, st);
  }

  ghost function StateOf(o: Outcome): State {
    match o
    case Halted(final, _) => final
    case Failed(_, at) => at
    case OutOfFuel(last) => last
  }

  /** How the loop can end from a valid state: in a valid state, with the
      events so far when the end of the code is reached, and with one of the
      three faults of StepFaults when it fails. */
  ghost predicate ExitOk(p: Program, o: Outcome) {
    && Valid(p, StateOf(o))
    && (o.Halted? ==> o.events == o.final.events && o.final.pc == |p.code|)
    && (o.Failed? ==> o.at.pc < |p.code|
                      && o.fault in {NegativeCellIndex(o.at.pc), LoopEndNotFound(o.at.pc), LoopStartIndexOutOfRange(-1)})
  }

  lemma LoopKeepsValid(p: Program, st: State, fuel: nat)
    requires WellFormed(p) && Valid(p, st)
    ensures ExitOk(p, Loop(p, st, fuel))
  {
    LoopEndsInLoop(p, st, fuel);
    LoopEndsValid(p, st, fuel, Loop(p, st, fuel));
  }

  lemma LoopEndsInLoop(p: Program, st: State, fuel: nat)
    ensures LoopEndsIn(p, st, fuel, Loop(p, st, fuel))
  {
  }

  lemma {:induction false} LoopEndsValid(p: Program, st: State, fuel: nat, o: Outcome)
    requires WellFormed(p) && Valid(p, st) && LoopEndsIn(p, st, fuel, o)
    ensures ExitOk(p, o)
    decreases fuel
  {
    if st.pc >= |p.code| || fuel == 0 {
      LoopExit(p, st, fuel, o);
    } else {
      var r := Step(p, st);
      StepFaults(p, st);
      LoopPass(p, st, r, fuel, o);
      if r.Ok? {
        StepPreservesValid(p, st);
        LoopEndsValid(p, r.value, fuel - 1, o);
      }
    }
  }

  /** A debug run fails only with one of the three faults of StepFaults,
      except on a program with no command, which fails in the final report
      looking up the line of position -1. */
  lemma RunFaults(p: Program, input: seq<Cell>, fuel: nat)
    requires WellFormed(p)
    ensures var o := Run(p, Initial(input), fuel);
      && (p.code == [] ==> o == Failed(PositionNotMapped(-1), Initial(input)))
      && (p.code != [] && o.Failed? ==>
            o.fault in {NegativeCellIndex(o.at.pc), LoopEndNotFound(o.at.pc), LoopStartIndexOutOfRange(-1)})
  {
    InitialValid(p, input);
    LoopKeepsValid(p, Initial(input), fuel);
    if p.code == [] {
      assert Loop(p, Initial(input), fuel) == Halted(Initial(input), []);
    }
  }

  /** A completed run writes, after the loop's events, the comments from the
      last command's line up to the largest column, then the buffered output,
      which is the only output section and the last event. */
  lemma HaltedReport(p: Program, input: seq<Cell>, fuel: nat)
    requires WellFormed(p)
    ensures var o := Run(p, Initial(input), fuel);
      o.Halted? ==>
        && |p.code| > 0 && o.final.pc == |p.code|
        && o.events == o.final.events
                       + CommentEvents(p.comments, o.final.tape, o.final.cursor, p.positions[|p.code| - 1].0, MaxColumn(p.positions))
                       + [ProgramOutput(o.final.buffer)]
        && (forall i :: 0 <= i < |o.events| - 1 ==> !o.events[i].ProgramOutput?)
  {
    InitialValid(p, input);
    LoopKeepsValid(p, Initial(input), fuel);
    ConcludeReport(p, Loop(p, Initial(input), fuel));
  }

  /** The report HaltedReport describes, for any loop exit ExitOk allows. */
  lemma ConcludeReport(p: Program, exit: Outcome)
    requires WellFormed(p) && ExitOk(p, exit)
    ensures var o := Conclude(p, exit);
      o.Halted? ==>
        && |p.code| > 0 && o.final.pc == |p.code|
        && o.events == o.final.events
                       + CommentEvents(p.comments, o.final.tape, o.final.cursor, p.positions[|p.code| - 1].0, MaxColumn(p.positions))
                       + [ProgramOutput(o.final.buffer)]
        && (forall i :: 0 <= i < |o.events| - 1 ==> !o.events[i].ProgramOutput?)
  {
    if exit.Halted? && exit.final.previous in p.positions {
      var final := exit.final;
      assert StateOf(exit) == final;
      var block := CommentEvents(p.comments, final.tape, final.cursor, p.positions[|p.code| - 1].0, MaxColumn(p.positions));
      CommentBlocksInRange(p.comments, final.tape, final.cursor, p.positions[|p.code| - 1].0, MaxColumn(p.positions));
      var evs := final.events + block;
      forall i | 0 <= i < |evs| ensures !evs[i].ProgramOutput? {
        if i >= |final.events| {
          var e := block[i - |final.events|];
          assert evs[i] == e && e in block;
          assert e.CommentBlock?;
        } else {
          assert evs[i] == final.events[i];
        }
      }
      assert Conclude(p, exit).events == evs + [ProgramOutput(final.buffer)];
    }
  }

  /** Each pass writes the comments of the lines it crosses and then exactly
      one trace record: the command's line and column, the command, and the
      current cell after the command (brackets leave the tape and the cursor
      alone, so for them it is also the cell they test). */
  lemma StepTrace(p: Program, st: State)
    requires WellFormed(p) && Valid(p, st) && st.pc < |p.code| && Step(p, st).Ok?
    ensures var next := Step(p, st).value;
      && 0 <= next.cursor < |next.tape|
      && next.events == st.events
           + CommentEvents(p.comments, st.tape, st.cursor, if st.pc == 0 then 0 else p.positions[st.pc - 1].0, p.positions[st.pc].0)
           + [Trace(p.positions[st.pc].0, p.positions[st.pc].1, p.code[st.pc], next.cursor, next.tape[next.cursor])]
  {
    CommentsBeforeValid(p, st);
    StepPreservesValid(p, st);
  }

  /** `>` moves right and appends a zero cell when it walks off the end; `<`
      moves left; neither touches a cell. The tape never shrinks and grows by
      at most one cell per pass. */
  lemma StepMoves(p: Program, st: State)
    requires WellFormed(p) && Valid(p, st) && st.pc < |p.code| && Step(p, st).Ok?
    ensures var next, c := Step(p, st).value, p.code[st.pc];
      && (c == GoRightCommand ==>
            next.cursor == st.cursor + 1
            && next.tape == (if st.cursor + 1 < |st.tape| then st.tape else st.tape + [DefaultCellContent]))
      && (c == GoLeftCommand ==> next.cursor == st.cursor - 1 && next.tape == st.tape)
      && |st.tape| <= |next.tape| <= |st.tape| + 1
      && (forall i :: 0 <= i < |st.tape| && i != st.cursor ==> next.tape[i] == st.tape[i])
  {
    CheckedValid(p, st);
  }

  /** The cell commands: `+` and `-` wrap the current cell, `.` appends it to
      the buffered output, `,` stores the next input code unit (65535 at end
      of input); only `.` writes to the buffer and only `,` reads input. */
  lemma StepCellEffects(p: Program, st: State)
    requires WellFormed(p) && Valid(p, st) && st.pc < |p.code| && Step(p, st).Ok?
    ensures var next, c, v := Step(p, st).value, p.code[st.pc], st.tape[st.cursor];
      && (c == IncrementCommand ==> next.tape == st.tape[st.cursor := Increment(v)] && next.cursor == st.cursor)
      && (c == DecrementCommand ==> next.tape == st.tape[st.cursor := Decrement(v)] && next.cursor == st.cursor)
      && (c == OutputCommand ==> next.buffer == st.buffer + [v] && next.tape == st.tape)
      && (c != OutputCommand ==> next.buffer == st.buffer)
      && (c == InputCommand ==> next.tape == st.tape[st.cursor := ReadCell(st.input).0] && next.input == ReadCell(st.input).1)
      && (c != InputCommand ==> next.input == st.input)
  {
    CheckedValid(p, st);
  }

  /** The brackets: `[` on zero continues after its matching `]` and caches
      that `]`; `[` otherwise pushes its position. `]` on nonzero continues
      after a loop start; `]` on zero moves on without popping the stack.
      Cache entries, once written, never change. */
  lemma StepJumps(p: Program, st: State)
    requires WellFormed(p) && Valid(p, st) && st.pc < |p.code| && Step(p, st).Ok?
    ensures var next, c, v := Step(p, st).value, p.code[st.pc], st.tape[st.cursor];
      && (c == LoopStartCommand && v == 0 ==>
            next.pc >= 1 && ClosesAt(p.code, st.pc, next.pc - 1) && st.pc in next.cache && next.cache[st.pc] == next.pc - 1)
      && (c == LoopStartCommand && v != 0 ==>
            next.pc == st.pc + 1 && next.top == st.top + 1 && next.loopStarts[next.top] == st.pc)
      && (c == LoopEndCommand && v != 0 ==>
            next.pc >= 1 && p.code[next.pc - 1] == LoopStartCommand && st.pc in next.cache && next.cache[st.pc] == next.pc - 1)
      && (c == LoopEndCommand && v != 0 && st.pc !in st.cache ==>
            next.pc - 1 == st.loopStarts[st.top] && next.top == st.top - 1)
      && (c == LoopEndCommand && v == 0 ==> next.pc == st.pc + 1 && next.top == st.top && next.loopStarts == st.loopStarts)
      && (c != LoopStartCommand && c != LoopEndCommand ==> next.pc == st.pc + 1)
      && (forall k :: k in st.cache ==> k in next.cache && next.cache[k] == st.cache[k])
  {
    CheckedValid(p, st);
    StepPreservesValid(p, st);
    var c := p.code[st.pc];
    if c == LoopStartCommand || c == LoopEndCommand {
      if st.pc in st.cache {
        assert CacheEntryOk(p.code, st.pc, st.cache[st.pc]);
      }
    }
  }
}
