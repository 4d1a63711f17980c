/** Definitions shared by both interpreters: the command alphabet, the 16-bit
    memory cell, the faults the C# code raises as exceptions, and the bracket
    depth count that both forward loop scans perform. */
module InterpreterBase {

  // The eight commands of the language and the two extension characters.
  const GoRightCommand := '>'
  const GoLeftCommand := '<'
  const IncrementCommand := '+'
  const DecrementCommand := '-'
  const OutputCommand := '.'
  const InputCommand := ','
  const LoopStartCommand := '['
  const LoopEndCommand := ']'
  const LineCommentStart := ';'
  const NewLineChar := '\n'

  const AllCommands: seq<char> :=
    [GoRightCommand, GoLeftCommand, IncrementCommand, DecrementCommand,
     OutputCommand, InputCommand, LoopStartCommand, LoopEndCommand]

  predicate IsCommand(c: char) {
    c in AllCommands
  }

  datatype Option<T> = None | Some(value: T)

  /** A memory cell holds a C# `char`, an unsigned 16-bit code unit. */
  newtype Cell = x: int | 0 <= x < 0x1_0000

  const DefaultCellContent: Cell := 0

  /** `cell++` on a C# `char`: unchecked, so it wraps modulo 2^16. */
  function Increment(v: Cell): (r: Cell)
    ensures r as int == if v == 0xFFFF then 0 else v as int + 1
  {
    ((v as int + 1) % 0x1_0000) as Cell
  }

  /** `cell--` on a C# `char`: 0 wraps to 65535. */
  function Decrement(v: Cell): (r: Cell)
    ensures r as int == if v == 0 then 0xFFFF else v as int - 1
  {
    ((v as int - 1) % 0x1_0000) as Cell
  }

  /** `(char)input.Read()`: the next code unit, or `(char)-1` = 65535 at end
      of input (which stays at end of input). */
  function ReadCell(input: seq<Cell>): (Cell, seq<Cell>) {
    if input == [] then (0xFFFF, []) else (input[0], input[1..])
  }

  /** Exceptions the interpreters can raise, as values. */
  datatype Fault =
    | CellIndexOutOfRange(index: int)        // List<char> indexer outside the tape
    | LoopEndNotFound(start: nat)            // forward bracket scan indexes past the end of the code
    | LoopStartIndexOutOfRange(index: int)   // loop-start list indexed with the top index (e.g. -1)
    | NegativeCellIndex(position: nat)       // the debug interpreter's explicit check on `<`
    | UndefinedCommand(position: nat)        // the debug interpreter's default branch
    | PositionNotMapped(key: int)            // key missing from the position dictionary

  datatype Result<T> = Ok(value: T) | Err(fault: Fault)

  // ---------------------------------------------------------------------
  // The forward bracket scan shared by both interpreters.

  function Delta(c: char): int {
    if c == LoopStartCommand then 1 else if c == LoopEndCommand then -1 else 0
  }

  /** Value of the scan's counter once it has looked at code[p+1..q]:
      1 for the `[` at p, plus one per `[`, minus one per `]`. */
  function Depth(code: string, p: nat, q: nat): int
    requires p <= q < |code|
    decreases q - p
  {
    if q == p then 1 else Depth(code, p, q - 1) + Delta(code[q])
  }

  /** q is the `]` that closes the loop opened at p: the first index after p
      where the depth drops back to zero. */
  ghost predicate ClosesAt(code: string, p: nat, q: nat) {
    && p < q < |code|
    && code[q] == LoopEndCommand
    && Depth(code, p, q) == 0
    && forall k :: p <= k < q ==> Depth(code, p, k) > 0
  }

  /** Scan from q on, the counter holding `depth` = Depth(code, p, q - 1). */
  function ScanFrom(code: string, p: nat, q: nat, depth: int): (r: Option<nat>)
    requires p < q <= |code| && depth == Depth(code, p, q - 1)
    requires forall k :: p <= k < q ==> Depth(code, p, k) > 0
    ensures r.Some? ==> ClosesAt(code, p, r.value)
    ensures r.None? ==> forall k :: p <= k < |code| ==> Depth(code, p, k) > 0
    decreases |code| - q
  {
    if q == |code| then None
    else
      var d := depth + Delta(code[q]);
      if d == 0 && code[q] == LoopEndCommand then Some(q)
      else ScanFrom(code, p, q + 1, d)
  }

  /** The `]` matching the `[` at p, or None when the depth never returns to
      zero before the end of the code (the C# scan then indexes past the end). */
  function MatchingLoopEnd(code: string, p: nat): (r: Option<nat>)
    requires p < |code|
    ensures r.Some? ==> ClosesAt(code, p, r.value)
    ensures r.None? ==> forall k :: p <= k < |code| ==> Depth(code, p, k) > 0
  {
    ScanFrom(code, p, p + 1, 1)
  }

  /** The closing position is unique, so any scan that stops where the depth
      first returns to zero agrees with MatchingLoopEnd. */
  lemma ClosesAtUnique(code: string, p: nat, q: nat)
    requires p < |code| && ClosesAt(code, p, q)
    ensures MatchingLoopEnd(code, p) == Some(q)
  {
  }
}
