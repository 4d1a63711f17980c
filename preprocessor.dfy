/** The preprocessing pass of BrainfuckInterpreterBase.Strip: drop `;` line
    comments and every non-command character, keep the commands, and record
    where each kept command came from and which comment each line carries.

    The specification works on source indices: LineOf and ColumnOf give the
    counters the scan holds when it reaches an index, InComment says whether
    the index lies in a comment, and the *UpTo functions give the three results
    after the first n source characters. The method Strip is the C# loop. */
module Preprocessor {
  import opened InterpreterBase

  // ---------------------------------------------------------------------
  // Line and column counters.

  /** Line of source index k: 1, plus one for every newline before k. */
  function LineOf(s: string, k: nat): (l: nat)
    requires k <= |s|
    ensures l >= 1
  {
    if k == 0 then 1 else LineOf(s, k - 1) + (if s[k - 1] == NewLineChar then 1 else 0)
  }

  /** Number of UTF-16 code units of c. A C# string holds a character outside
      the Basic Multilingual Plane as a surrogate pair, and the scan bumps the
      column once per code unit. */
  function Utf16Width(c: char): nat
  {
    if c as int < 0x1_0000 then 1 else 2
  }

  /** Column of source index k: 1 at the start of the text and right after a
      newline, otherwise the column of the previous index plus the number of
      UTF-16 code units of the previous character. */
  function ColumnOf(s: string, k: nat): (c: nat)
    requires k <= |s|
    ensures c >= 1
  {
    if k == 0 then 1 else if s[k - 1] == NewLineChar then 1 else ColumnOf(s, k - 1) + Utf16Width(s[k - 1])
  }

  // ---------------------------------------------------------------------
  // Comments and kept characters.

  /** Index k lies in a line comment: it is not a newline, and a `;` occurs at
      or before k on the same line. */
  predicate InComment(s: string, k: nat)
    requires k < |s|
  {
    s[k] != NewLineChar && (s[k] == LineCommentStart || (k > 0 && InComment(s, k - 1)))
  }

  /** Index k is copied to the output: a command character outside comments. */
  predicate Kept(s: string, k: nat)
    requires k < |s|
  {
    !InComment(s, k) && IsCommand(s[k])
  }

  /** The `;` at j opens a comment (it is not itself inside an earlier one). */
  predicate IsCommentStart(s: string, j: nat)
    requires j < |s|
  {
    s[j] == LineCommentStart && (j == 0 || !InComment(s, j - 1))
  }

  /** Source indices below n that reach the output, in increasing order. */
  function KeptIndices(s: string, n: nat): (ks: seq<nat>)
    requires n <= |s|
    ensures forall i :: 0 <= i < |ks| ==> ks[i] < n
  {
    if n == 0 then [] else KeptIndices(s, n - 1) + (if Kept(s, n - 1) then [n - 1] else [])
  }

  /** Output after the first n source characters. */
  function StrippedUpTo(s: string, n: nat): (r: string)
    requires n <= |s|
    ensures |r| == |KeptIndices(s, n)|
  {
    if n == 0 then [] else StrippedUpTo(s, n - 1) + (if Kept(s, n - 1) then [s[n - 1]] else [])
  }

  /** KeptIndices lists exactly the kept indices below n, in increasing order.
      Like the lemmas on Trim below, this is kept out of the functions'
      postconditions, which every proof mentioning them would otherwise carry. */
  lemma {:induction false} KeptIndicesSpec(s: string, n: nat)
    requires n <= |s|
    ensures forall i :: 0 <= i < |KeptIndices(s, n)| ==> Kept(s, KeptIndices(s, n)[i])
    ensures forall i, j :: 0 <= i < j < |KeptIndices(s, n)| ==> KeptIndices(s, n)[i] < KeptIndices(s, n)[j]
    ensures forall k :: 0 <= k < n && Kept(s, k) ==> k in KeptIndices(s, n)
    decreases n
  {
    if n > 0 {
      KeptIndicesSpec(s, n - 1);
    }
  }

  /** Output character i is the source character at the i-th kept index, and
      it is a command. */
  lemma {:induction false} StrippedUpToSpec(s: string, n: nat)
    requires n <= |s|
    ensures forall i :: 0 <= i < |StrippedUpTo(s, n)| ==> StrippedUpTo(s, n)[i] == s[KeptIndices(s, n)[i]]
    ensures forall i :: 0 <= i < |StrippedUpTo(s, n)| ==> IsCommand(StrippedUpTo(s, n)[i])
    decreases n
  {
    if n > 0 {
      StrippedUpToSpec(s, n - 1);
    }
  }

  /** Position map after the first n source characters: output index k maps
      to the line and column of the source character copied there. */
  function PositionsUpTo(s: string, n: nat): (m: map<int, (int, int)>)
    requires n <= |s|
  {
    PositionsOf(s, KeptIndices(s, n))
  }

  /** Key k maps to the line and column of source index ks[k]. */
  function PositionsOf(s: string, ks: seq<nat>): map<int, (int, int)>
    requires forall i :: 0 <= i < |ks| ==> ks[i] <= |s|
  {
    map k | 0 <= k < |ks| :: (LineOf(s, ks[k]), ColumnOf(s, ks[k]))
  }

  lemma KeptIndicesStep(s: string, n: nat)
    requires n < |s|
    ensures KeptIndices(s, n + 1) == KeptIndices(s, n) + (if Kept(s, n) then [n] else [])
  {
  }

  /** One more source index adds one entry under the next key. */
  lemma PositionsOfAppend(s: string, ks: seq<nat>, j: nat)
    requires forall i :: 0 <= i < |ks| ==> ks[i] <= |s|
    requires j <= |s|
    ensures PositionsOf(s, ks + [j]) == PositionsOf(s, ks)[|ks| := (LineOf(s, j), ColumnOf(s, j))]
  {
    var m1 := PositionsOf(s, ks + [j]);
    var m0 := PositionsOf(s, ks);
    forall k ensures k in m1 <==> k in m0 || k == |ks| {
    }
    forall k | k in m0 ensures m1[k] == m0[k] {
      assert (ks + [j])[k] == ks[k];
    }
    MapUpdateExt(m1, m0, |ks|, (LineOf(s, j), ColumnOf(s, j)));
  }

  /** Two maps are equal when one is the other with key updated to v. */
  lemma MapUpdateExt<K, V>(m1: map<K, V>, m0: map<K, V>, key: K, v: V)
    requires forall k :: k in m1 <==> k in m0 || k == key
    requires key in m1 && m1[key] == v
    requires forall k :: k in m0 && k != key ==> m1[k] == m0[k]
    ensures m1 == m0[key := v]
  {
  }

  /** A kept character adds exactly one entry to the position map. */
  lemma PositionsStepKept(s: string, n: nat)
    requires n < |s| && Kept(s, n)
    ensures PositionsUpTo(s, n + 1) == PositionsUpTo(s, n)[|KeptIndices(s, n)| := (LineOf(s, n), ColumnOf(s, n))]
  {
    KeptIndicesStep(s, n);
    PositionsOfAppend(s, KeptIndices(s, n), n);
  }

  /** Any other character leaves the position map as it is. */
  lemma PositionsStepSkipped(s: string, n: nat)
    requires n < |s| && !Kept(s, n)
    ensures PositionsUpTo(s, n + 1) == PositionsUpTo(s, n)
  {
    KeptIndicesStep(s, n);
  }

  /** First index at or after k that holds a newline, or |s|. */
  function CommentEnd(s: string, k: nat): (e: nat)
    requires k <= |s|
    ensures k <= e <= |s| && (e == |s| || s[e] == NewLineChar)
    ensures forall i :: k <= i < e ==> s[i] != NewLineChar
    decreases |s| - k
  {
    if k == |s| || s[k] == NewLineChar then k else CommentEnd(s, k + 1)
  }

  /** Text of the comment opened at j: after the `;`, up to the end of the line, trimmed. */
  function CommentText(s: string, j: nat): string
    requires j < |s|
  {
    Trim(s[j + 1 .. CommentEnd(s, j + 1)])
  }

  /** Comment dictionary after the first n source characters. */
  function CommentsUpTo(s: string, n: nat): (m: map<int, string>)
    requires n <= |s|
  {
    if n == 0 then map[]
    else
      var m := CommentsUpTo(s, n - 1);
      if IsCommentStart(s, n - 1) then m[LineOf(s, n - 1) := CommentText(s, n - 1)] else m
  }

  function Stripped(s: string): string {
    StrippedUpTo(s, |s|)
  }

  function Positions(s: string): map<int, (int, int)> {
    PositionsUpTo(s, |s|)
  }

  function Comments(s: string): map<int, string> {
    CommentsUpTo(s, |s|)
  }

  // ---------------------------------------------------------------------
  // String.Trim: .NET removes leading and trailing characters for which
  // char.IsWhiteSpace holds.

  predicate IsWhiteSpace(c: char) {
    var n := c as int;
    || (0x09 <= n <= 0x0D) || n == 0x20 || n == 0x85 || n == 0xA0 || n == 0x1680
    || (0x2000 <= n <= 0x200A) || n == 0x2028 || n == 0x2029 || n == 0x202F
    || n == 0x205F || n == 0x3000
  }

  function TrimStart(s: string): string {
    if s != [] && IsWhiteSpace(s[0]) then TrimStart(s[1..]) else s
  }

  function TrimEnd(s: string): string {
    if s != [] && IsWhiteSpace(s[|s| - 1]) then TrimEnd(s[..|s| - 1]) else s
  }

  function Trim(s: string): string {
    TrimEnd(TrimStart(s))
  }

  /** TrimStart drops exactly the leading white space. The properties of the
      Trim functions are lemmas rather than postconditions so that they stay
      out of every proof that mentions a comment's text. */
  lemma {:induction false} TrimStartSpec(s: string)
    ensures var r := TrimStart(s);
      && |r| <= |s| && r == s[|s| - |r|..]
      && (r == [] || !IsWhiteSpace(r[0]))
      && forall i :: 0 <= i < |s| - |r| ==> IsWhiteSpace(s[i])
    decreases |s|
  {
    if s != [] && IsWhiteSpace(s[0]) {
      TrimStartSpec(s[1..]);
      var r := TrimStart(s);
      forall i | 1 <= i < |s| - |r|
        ensures IsWhiteSpace(s[i])
      {
        assert s[i] == s[1..][i - 1];
      }
    }
  }

  /** TrimEnd drops exactly the trailing white space. */
  lemma {:induction false} TrimEndSpec(s: string)
    ensures var r := TrimEnd(s);
      && |r| <= |s| && r == s[..|r|]
      && (r == [] || !IsWhiteSpace(r[|r| - 1]))
      && forall i :: |r| <= i < |s| ==> IsWhiteSpace(s[i])
    decreases |s|
  {
    if s != [] && IsWhiteSpace(s[|s| - 1]) {
      TrimEndSpec(s[..|s| - 1]);
      var r := TrimEnd(s);
      forall i | |r| <= i < |s| - 1
        ensures IsWhiteSpace(s[i])
      {
        assert s[i] == s[..|s| - 1][i];
      }
    }
  }

  /** String.Trim: the result is the part of s between a white-space prefix
      and a white-space suffix, and it neither starts nor ends with white space. */
  lemma TrimSpec(s: string) returns (a: nat, b: nat)
    ensures a <= b <= |s| && Trim(s) == s[a..b]
    ensures forall i :: 0 <= i < a ==> IsWhiteSpace(s[i])
    ensures forall i :: b <= i < |s| ==> IsWhiteSpace(s[i])
    ensures Trim(s) == [] || (!IsWhiteSpace(Trim(s)[0]) && !IsWhiteSpace(Trim(s)[|Trim(s)| - 1]))
  {
    var t := TrimStart(s);
    TrimStartSpec(s);
    TrimEndSpec(t);
    var r := TrimEnd(t);
    a := |s| - |t|;
    b := a + |r|;
    forall i | b <= i < |s|
      ensures IsWhiteSpace(s[i])
    {
      assert s[i] == t[i - a];
    }
    if r != [] {
      assert r[0] == t[0];
    }
  }

  // ---------------------------------------------------------------------
  // The imperative scan.

  /** The three results agree with the specification after n source characters. */
  ghost predicate Scanned(s: string, n: nat, stripped: string, positions: map<int, (int, int)>, comments: map<int, string>)
    requires n <= |s|
  {
    // Stated for every m equal to n, so that the three specification terms
    // enter a proof only where one of them is already mentioned.
    forall m: nat :: m == n ==>
      && stripped == StrippedUpTo(s, m)
      && positions == PositionsUpTo(s, m)
      && comments == CommentsUpTo(s, m)
  }

  /** BrainfuckInterpreterBase.Strip: one left-to-right scan with line,
      column and output-position counters, filling the two dictionaries. */
  method Strip(programCode: string) returns (stripped: string, positions: map<int, (int, int)>, commentsByLn: map<int, string>)
    ensures stripped == Stripped(programCode)
    ensures positions == Positions(programCode)
    ensures commentsByLn == Comments(programCode)
  {
    positions := map[];
    commentsByLn := map[];
    var line, column, position := 1, 1, 0;
    stripped := "";
    var i := 0;
    // done counts the source characters fully processed; a comment that runs
    // to the end of the text leaves i one past the end.
    ghost var done := 0;
    while i < |programCode|
      invariant 0 <= i <= |programCode| + 1
      invariant done == if i <= |programCode| then i else |programCode|
      invariant i <= |programCode| ==> line == LineOf(programCode, i) && column == ColumnOf(programCode, i)
      invariant 0 < i <= |programCode| ==> !InComment(programCode, i - 1)
      invariant position == |stripped|
      invariant Scanned(programCode, done, stripped, positions, commentsByLn)
    {
      if programCode[i] == LineCommentStart {
        var commentStartPos := i;
        i := i + 1;
        while i < |programCode| && programCode[i] != NewLineChar
          invariant commentStartPos < i <= |programCode|
          invariant CommentEnd(programCode, i) == CommentEnd(programCode, commentStartPos + 1)
        {
          i := i + 1;
        }
        ScanComment(programCode, commentStartPos, i, stripped, positions, commentsByLn);
        commentsByLn := commentsByLn[line := Trim(programCode[commentStartPos + 1 .. i])];
        done := if i < |programCode| then i + 1 else i;
      } else {
        ScanChar(programCode, i, stripped, positions, commentsByLn);
        if IsCommand(programCode[i]) {
          stripped := stripped + [programCode[i]];
          positions := positions[position := (line, column)];
          position := position + 1;
        }
        done := i + 1;
      }

      if i < |programCode| && programCode[i] == NewLineChar {
        line := line + 1;
        column := 1;
      } else {
        column := column + if i < |programCode| then Utf16Width(programCode[i]) else 1;
      }
      i := i + 1;
    }
  }

  /** The comment opened at c runs to e = CommentEnd(s, c + 1): its line has
      no comment yet, and the scan resumes after the newline (if any) with
      the trimmed text recorded under that line and nothing else changed. */
  lemma ScanComment(s: string, c: nat, e: nat, stripped: string, positions: map<int, (int, int)>, comments: map<int, string>)
    requires c < e <= |s| && s[c] == LineCommentStart && (c == 0 || !InComment(s, c - 1))
    requires e == CommentEnd(s, c + 1)
    requires Scanned(s, c, stripped, positions, comments)
    ensures LineOf(s, c) !in comments
    ensures LineOf(s, e) == LineOf(s, c)
    ensures var n := if e < |s| then e + 1 else e;
      Scanned(s, n, stripped, positions, comments[LineOf(s, c) := Trim(s[c + 1 .. e])])
    ensures e < |s| ==> !InComment(s, e) && LineOf(s, e + 1) == LineOf(s, c) + 1 && ColumnOf(s, e + 1) == 1
  {
    CommentKeysBelowLine(s, c);
    CommentKeepsLine(s, c, e);
    CommentKeepsStripped(s, c, e);
    CommentKeepsPositions(s, c, e);
    CommentAddsText(s, c, e);
    if e < |s| {
      NewlineStep(s, e);
    }
  }

  /** A character strictly inside the comment opened at c is no newline, is
      not kept and opens no comment. */
  lemma CommentInterior(s: string, c: nat, k: nat)
    requires c < |s| && s[c] == LineCommentStart && c < k < CommentEnd(s, c + 1)
    ensures s[k] != NewLineChar && !Kept(s, k) && !IsCommentStart(s, k)
  {
    InCommentThroughLine(s, c, k);
    InCommentThroughLine(s, c, k - 1);
  }

  lemma {:induction false} CommentKeepsLine(s: string, c: nat, k: nat)
    requires c < |s| && s[c] == LineCommentStart && c < k <= CommentEnd(s, c + 1)
    ensures LineOf(s, k) == LineOf(s, c)
    decreases k
  {
    if k - 1 > c {
      CommentKeepsLine(s, c, k - 1);
      CommentInterior(s, c, k - 1);
    }
  }

  lemma {:induction false} CommentKeepsStripped(s: string, c: nat, k: nat)
    requires c < |s| && s[c] == LineCommentStart && c < k <= CommentEnd(s, c + 1)
    ensures StrippedUpTo(s, k) == StrippedUpTo(s, c)
    decreases k
  {
    if k - 1 > c {
      CommentKeepsStripped(s, c, k - 1);
      CommentInterior(s, c, k - 1);
    }
  }

  lemma {:induction false} CommentKeepsPositions(s: string, c: nat, k: nat)
    requires c < |s| && s[c] == LineCommentStart && c < k <= CommentEnd(s, c + 1)
    ensures PositionsUpTo(s, k) == PositionsUpTo(s, c)
    decreases k
  {
    if k - 1 > c {
      CommentKeepsPositions(s, c, k - 1);
      CommentInterior(s, c, k - 1);
    }
    PositionsStepSkipped(s, k - 1);
  }

  lemma {:induction false} CommentAddsText(s: string, c: nat, k: nat)
    requires c < |s| && s[c] == LineCommentStart && (c == 0 || !InComment(s, c - 1)) && c < k <= CommentEnd(s, c + 1)
    ensures CommentsUpTo(s, k) == CommentsUpTo(s, c)[LineOf(s, c) := CommentText(s, c)]
    decreases k
  {
    if k - 1 > c {
      CommentAddsText(s, c, k - 1);
      CommentInterior(s, c, k - 1);
    }
  }

  /** The newline that ends a comment: outside the comment, nothing recorded. */
  lemma NewlineStep(s: string, e: nat)
    requires e < |s| && s[e] == NewLineChar
    ensures !InComment(s, e)
    ensures LineOf(s, e + 1) == LineOf(s, e) + 1 && ColumnOf(s, e + 1) == 1
    ensures StrippedUpTo(s, e + 1) == StrippedUpTo(s, e)
    ensures PositionsUpTo(s, e + 1) == PositionsUpTo(s, e)
    ensures CommentsUpTo(s, e + 1) == CommentsUpTo(s, e)
  {
    PositionsStepSkipped(s, e);
  }

  /** A character outside comments that does not open one: a command is
      appended and mapped to its line and column, anything else is dropped. */
  lemma ScanChar(s: string, n: nat, stripped: string, positions: map<int, (int, int)>, comments: map<int, string>)
    requires n < |s| && s[n] != LineCommentStart && (n == 0 || !InComment(s, n - 1))
    requires Scanned(s, n, stripped, positions, comments)
    ensures !InComment(s, n)
    ensures LineOf(s, n + 1) == LineOf(s, n) + (if s[n] == NewLineChar then 1 else 0)
    ensures ColumnOf(s, n + 1) == if s[n] == NewLineChar then 1 else ColumnOf(s, n) + Utf16Width(s[n])
    ensures IsCommand(s[n]) ==>
      Scanned(s, n + 1, stripped + [s[n]], positions[|stripped| := (LineOf(s, n), ColumnOf(s, n))], comments)
    ensures !IsCommand(s[n]) ==> Scanned(s, n + 1, stripped, positions, comments)
  {
    if IsCommand(s[n]) {
      PositionsStepKept(s, n);
    } else {
      PositionsStepSkipped(s, n);
    }
  }

  // ---------------------------------------------------------------------
  // Lemmas.

  lemma {:induction false} LineMonotone(s: string, a: nat, b: nat)
    requires a <= b <= |s|
    ensures LineOf(s, a) <= LineOf(s, b)
    decreases b
  {
    if a < b {
      LineMonotone(s, a, b - 1);
    }
  }

  /** A comment that is over by index n - 1 was ended by a newline. */
  lemma {:induction false} NewlineAfterComment(s: string, j: nat, n: nat) returns (k: nat)
    requires j < n <= |s| && s[j] == LineCommentStart && !InComment(s, n - 1)
    ensures j <= k < n && s[k] == NewLineChar
    decreases n
  {
    if s[n - 1] == NewLineChar {
      k := n - 1;
    } else {
      k := NewlineAfterComment(s, j, n - 1);
    }
  }

  /** A `;` at j sits on an earlier line than any index n outside a comment. */
  lemma CommentLineBefore(s: string, j: nat, n: nat)
    requires j < n <= |s| && s[j] == LineCommentStart && !InComment(s, n - 1)
    ensures LineOf(s, j) < LineOf(s, n)
  {
    var k := NewlineAfterComment(s, j, n);
    LineMonotone(s, j, k);
    LineMonotone(s, k + 1, n);
  }

  /** Every key of the comment dictionary is the line of some comment start. */
  lemma {:induction false} CommentKeysFromStarts(s: string, n: nat, key: int) returns (j: nat)
    requires n <= |s| && key in CommentsUpTo(s, n)
    ensures j < n && IsCommentStart(s, j) && LineOf(s, j) == key
    decreases n
  {
    if IsCommentStart(s, n - 1) && LineOf(s, n - 1) == key {
      j := n - 1;
    } else {
      j := CommentKeysFromStarts(s, n - 1, key);
    }
  }

  /** At a comment start, every comment recorded so far is on an earlier
      line: the dictionary Add of the C# code never meets a duplicate key. */
  lemma CommentKeysBelowLine(s: string, n: nat)
    requires n < |s| && IsCommentStart(s, n)
    ensures forall key :: key in CommentsUpTo(s, n) ==> key < LineOf(s, n)
  {
    forall key | key in CommentsUpTo(s, n)
      ensures key < LineOf(s, n)
    {
      var j := CommentKeysFromStarts(s, n, key);
      CommentLineBefore(s, j, n);
    }
  }

  /** At most one comment per line: comment starts lie on strictly increasing lines. */
  lemma CommentLinesIncrease(s: string, j1: nat, j2: nat)
    requires j1 < j2 < |s| && IsCommentStart(s, j1) && IsCommentStart(s, j2)
    ensures LineOf(s, j1) < LineOf(s, j2)
  {
    CommentLineBefore(s, j1, j2);
  }

  lemma {:induction false} CommentKeptUpTo(s: string, j: nat, n: nat)
    requires j < n <= |s| && IsCommentStart(s, j)
    ensures LineOf(s, j) in CommentsUpTo(s, n)
    ensures CommentsUpTo(s, n)[LineOf(s, j)] == CommentText(s, j)
    decreases n
  {
    if n - 1 > j {
      CommentKeptUpTo(s, j, n - 1);
      CommentKeptStep(s, j, n);
    }
  }

  /** One more source character keeps an earlier comment's entry. */
  lemma CommentKeptStep(s: string, j: nat, n: nat)
    requires j < n - 1 && n <= |s| && IsCommentStart(s, j)
    requires LineOf(s, j) in CommentsUpTo(s, n - 1)
    requires CommentsUpTo(s, n - 1)[LineOf(s, j)] == CommentText(s, j)
    ensures LineOf(s, j) in CommentsUpTo(s, n)
    ensures CommentsUpTo(s, n)[LineOf(s, j)] == CommentText(s, j)
  {
    if IsCommentStart(s, n - 1) {
      CommentLinesIncrease(s, j, n - 1);
    }
  }

  /** Every comment of the source is recorded under the line of its `;`, with
      the trimmed text up to the end of that line. The converse, that every
      recorded line comes from such a comment, is CommentKeysFromStarts. */
  lemma CommentRecorded(s: string, j: nat)
    requires j < |s| && IsCommentStart(s, j)
    ensures LineOf(s, j) in Comments(s)
    ensures Comments(s)[LineOf(s, j)] == Trim(s[j + 1 .. CommentEnd(s, j + 1)])
  {
    CommentKeptUpTo(s, j, |s|);
  }

  lemma {:induction false} InCommentThroughLine(s: string, j: nat, k: nat)
    requires j < |s| && s[j] == LineCommentStart && j <= k < CommentEnd(s, j + 1)
    ensures InComment(s, k)
    decreases k
  {
    if k > j {
      InCommentThroughLine(s, j, k - 1);
    }
  }

  /** Characters from a `;` up to the next newline never reach the output. */
  lemma CommentNeverOutput(s: string, j: nat, k: nat)
    requires j < |s| && s[j] == LineCommentStart && j <= k < CommentEnd(s, j + 1)
    ensures k !in KeptIndices(s, |s|)
  {
    InCommentThroughLine(s, j, k);
    KeptIndicesSpec(s, |s|);
  }

  /** The position map has exactly the keys 0 .. |output| - 1. */
  lemma PositionKeys(s: string)
    ensures forall k :: k in Positions(s) <==> 0 <= k < |Stripped(s)|
  {
  }

  /** Key k holds the line and column of the source character copied to output[k]. */
  lemma PositionOfOutput(s: string, k: int)
    requires 0 <= k < |Stripped(s)|
    ensures var j := KeptIndices(s, |s|)[k];
      && j < |s| && !InComment(s, j) && Stripped(s)[k] == s[j]
      && k in Positions(s) && Positions(s)[k] == (LineOf(s, j), ColumnOf(s, j))
  {
    KeptIndicesSpec(s, |s|);
    StrippedUpToSpec(s, |s|);
  }

  /** Every output character is one of the eight commands, so in particular
      no `;` and no newline survive the pass. */
  lemma OutputIsCommands(s: string)
    ensures forall k :: 0 <= k < |Stripped(s)| ==> IsCommand(Stripped(s)[k])
    ensures LineCommentStart !in Stripped(s) && NewLineChar !in Stripped(s)
  {
    StrippedUpToSpec(s, |s|);
  }

  /** Lines and columns are counted from 1. */
  lemma PositionsFromOne(s: string)
    ensures forall k :: k in Positions(s) ==> Positions(s)[k].0 >= 1 && Positions(s)[k].1 >= 1
  {
  }

  /** Columns count UTF-16 code units: the two halves of a surrogate pair
      are two columns, so the `+` after an emoji sits in column 3. */
  lemma SurrogatePairColumns()
    ensures Positions("\U{1F600}+") == map[0 := (1, 3)]
  {
    var s := "\U{1F600}+";
    assert !Kept(s, 0) && Kept(s, 1);
    assert KeptIndices(s, 2) == [1];
    assert ColumnOf(s, 1) == 3;
    assert Positions(s) == PositionsOf(s, [1]);
  }

  lemma {:induction false} SourceOrder(s: string, a: nat, b: nat)
    requires a < b <= |s|
    ensures || LineOf(s, a) < LineOf(s, b)
            || (LineOf(s, a) == LineOf(s, b) && ColumnOf(s, a) < ColumnOf(s, b))
    decreases b
  {
    if a < b - 1 {
      SourceOrder(s, a, b - 1);
    }
  }

  /** Mapped positions follow the order of the output: lines never decrease,
      and within one line the columns strictly increase. */
  lemma PositionsInSourceOrder(s: string, k1: int, k2: int)
    requires 0 <= k1 < k2 < |Stripped(s)|
    ensures k1 in Positions(s) && k2 in Positions(s)
    ensures Positions(s)[k1].0 <= Positions(s)[k2].0
    ensures Positions(s)[k1].0 == Positions(s)[k2].0 ==> Positions(s)[k1].1 < Positions(s)[k2].1
  {
    var ks := KeptIndices(s, |s|);
    KeptIndicesSpec(s, |s|);
    SourceOrder(s, ks[k1], ks[k2]);
  }

  lemma {:induction false} NoSemicolonNoComment(t: string, k: nat)
    requires k < |t| && forall i :: 0 <= i < |t| ==> t[i] != LineCommentStart
    ensures !InComment(t, k)
    decreases k
  {
    if k > 0 {
      NoSemicolonNoComment(t, k - 1);
    }
  }

  lemma {:induction false} CommandsKept(t: string, n: nat)
    requires n <= |t| && forall i :: 0 <= i < |t| ==> IsCommand(t[i])
    ensures StrippedUpTo(t, n) == t[..n]
    decreases n
  {
    if n > 0 {
      CommandsKept(t, n - 1);
      NoSemicolonNoComment(t, n - 1);
      assert t[..n] == t[..n - 1] + [t[n - 1]];
    }
  }

  /** A string of commands strips to itself. */
  lemma StripOfCommands(t: string)
    requires forall i :: 0 <= i < |t| ==> IsCommand(t[i])
    ensures Stripped(t) == t
  {
    CommandsKept(t, |t|);
  }

  /** Stripping is idempotent. */
  lemma StripIdempotent(s: string)
    ensures Stripped(Stripped(s)) == Stripped(s)
  {
    StrippedUpToSpec(s, |s|);
    StripOfCommands(Stripped(s));
  }
}
