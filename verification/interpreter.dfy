/**
 * The command interpreter, `applyCommandsToText`: the text is cut into
 * lines at `\r?\n`, every command is applied to the whole line list in
 * order, and the lines are joined back with a single `\n`.
 *
 * `FIND_*` commands match a literal needle inside each line; `LINE_*`
 * commands address one line by a number resolved against the current line
 * count, so earlier commands shift what later ones address.
 */
module Interpreter {
  import opened Wrappers
  import opened JsStrings
  import opened Commands

  /**
   * `+cmd.a`, the numeric reading of a `LINE_*` argument. The conversion
   * itself is a parameter of the model; `None` stands for a number that is
   * not finite (`NaN`, `Infinity`), which `Number.isFinite` rejects.
   */
  type NumberConversion = string -> Option<int>

  // ---------------------------------------------------------------------------
  // Line-number resolvers
  // ---------------------------------------------------------------------------

  /**
   * `insertionPosAfterLine(n, len)`: the splice position for "after line n"
   * (1-indexed). 0 and the other non-positive numbers except -1 mean the
   * start, -1 and anything past the last line mean the end.
   */
  function InsertionPosAfterLine(n: Option<int>, len: nat): (pos: Option<nat>)
    ensures pos.None? <==> n.None?
    ensures pos.Some? ==> pos.value <= len
    ensures n.Some? && 0 < n.value < len ==> pos == Some(n.value)
    ensures n.Some? && (n.value == -1 || n.value >= len) ==> pos == Some(len)
    ensures n.Some? && n.value <= 0 && n.value != -1 ==> pos == Some(0)
  {
    match n
    case None => None
    case Some(k) =>
      if k == 0 then Some(0)
      else if k == -1 then Some(len)
      else if k <= 0 then Some(0)
      else if k >= len then Some(len)
      else Some(k)
  }

  /**
   * `lineIndex(n, len)`: the index of the line a replace or delete targets.
   * 0 is the first line, -1 the last, 1..len are 1-indexed lines; any other
   * number, or an empty list, targets nothing.
   */
  function LineIndex(n: Option<int>, len: nat): (idx: Option<nat>)
    ensures idx.Some? ==> idx.value < len
    ensures idx.Some? <==> n.Some? && len > 0 && -1 <= n.value <= len
    ensures n.Some? && 1 <= n.value <= len ==> idx == Some(n.value - 1)
    ensures n == Some(0) && len > 0 ==> idx == Some(0)
    ensures n == Some(-1) && len > 0 ==> idx == Some(len - 1)
  {
    match n
    case None => None
    case Some(k) =>
      if len == 0 then None
      else if k == 0 then Some(0)
      else if k == -1 then Some(len - 1)
      else if k < 1 || k > len then None
      else Some(k - 1)
  }

  // ---------------------------------------------------------------------------
  // One command
  // ---------------------------------------------------------------------------

  /** How many lines hold `needle`. */
  function MatchCount(lines: seq<string>, needle: string): nat
  {
    if lines == [] then 0
    else MatchCount(lines[..|lines| - 1], needle) + (if Contains(lines[|lines| - 1], needle) then 1 else 0)
  }

  /**
   * The `FIND_APPEND` / `FIND_BREAK` loop: every line is kept and `extra`
   * follows each line that holds `needle`.
   */
  function AfterEachMatch(lines: seq<string>, needle: string, extra: string): (out: seq<string>)
    ensures |out| == |lines| + MatchCount(lines, needle)
  {
    if lines == [] then []
    else
      var last := lines[|lines| - 1];
      AfterEachMatch(lines[..|lines| - 1], needle, extra) + [last] + (if Contains(last, needle) then [extra] else [])
  }

  /**
   * The `FIND_INSERT` mapping of one line: `ins` follows every occurrence of
   * `needle`. The `includes` guard makes no difference, since a line
   * without the needle comes out of the split-and-join unchanged.
   */
  function InsertAfterNeedle(line: string, needle: string, ins: string): (r: string)
    ensures r == ReplaceAll(line, needle, needle + ins)
    ensures !Contains(line, needle) ==> r == line
  {
    if Contains(line, needle) then ReplaceAll(line, needle, needle + ins)
    else
      EmptyNeedleOccurs(line);
      ReplaceAllWithoutMatch(line, needle, needle + ins);
      line
  }

  /** `lines.splice(pos, 0, x)` when the position resolved, otherwise nothing. */
  function SpliceIn(lines: seq<string>, pos: Option<nat>, x: string): (r: seq<string>)
    requires pos.Some? ==> pos.value <= |lines|
  {
    match pos
    case None => lines
    case Some(p) => lines[..p] + [x] + lines[p..]
  }

  /** The line list after one command; `toNumber` reads the `LINE_*` argument. */
  function Step(lines: seq<string>, cmd: Command, toNumber: NumberConversion): (r: seq<string>)
    ensures cmd.op.FindInsert? || cmd.op.FindReplace? || cmd.op.FindDelete? || cmd.op.LineReplace? ==> |r| == |lines|
    ensures cmd.op.FindAppend? || cmd.op.FindBreak? ==> |r| == |lines| + MatchCount(lines, cmd.a)
    ensures cmd.op.LineAppend? || cmd.op.LineBreak? ==>
      |r| == |lines| + (if toNumber(cmd.a).Some? then 1 else 0)
    ensures cmd.op.LineDelete? ==>
      |r| == |lines| - (if LineIndex(toNumber(cmd.a), |lines|).Some? then 1 else 0)
  {
    match cmd.op
    case FindAppend => AfterEachMatch(lines, cmd.a, cmd.b.GetOr(""))
    case FindBreak => AfterEachMatch(lines, cmd.a, "")
    case FindInsert =>
      seq(|lines|, j requires 0 <= j < |lines| => InsertAfterNeedle(lines[j], cmd.a, cmd.b.GetOr("")))
    case FindReplace =>
      seq(|lines|, j requires 0 <= j < |lines| => ReplaceAll(lines[j], cmd.a, cmd.b.GetOr("")))
    case FindDelete =>
      seq(|lines|, j requires 0 <= j < |lines| => ReplaceAll(lines[j], cmd.a, ""))
    case LineAppend => SpliceIn(lines, InsertionPosAfterLine(toNumber(cmd.a), |lines|), cmd.b.GetOr(""))
    case LineBreak => SpliceIn(lines, InsertionPosAfterLine(toNumber(cmd.a), |lines|), "")
    case LineReplace =>
      (match LineIndex(toNumber(cmd.a), |lines|)
       case None => lines
       case Some(i) => lines[i := cmd.b.GetOr("")])
    case LineDelete =>
      match LineIndex(toNumber(cmd.a), |lines|)
      case None => lines
      case Some(i) => lines[..i] + lines[i + 1..]
  }

  // ---------------------------------------------------------------------------
  // A whole script
  // ---------------------------------------------------------------------------

  /** The commands that rewrite lines in place and never add or remove one. */
  predicate KeepsLineCount(op: Op)
  {
    op.FindInsert? || op.FindReplace? || op.FindDelete? || op.LineReplace?
  }

  /** A script made only of in-place commands. */
  predicate InPlaceScript(cmds: seq<Command>)
  {
    forall i :: 0 <= i < |cmds| ==> KeepsLineCount(cmds[i].op)
  }

  /** The line list after every command of `cmds`, in order; a script of in-place commands keeps the line count. */
  function Run(lines: seq<string>, cmds: seq<Command>, toNumber: NumberConversion): (r: seq<string>)
    ensures InPlaceScript(cmds) ==> |r| == |lines|
    decreases |cmds|
  {
    if cmds == [] then lines
    else Step(Run(lines, cmds[..|cmds| - 1], toNumber), cmds[|cmds| - 1], toNumber)
  }

  /** What `applyCommandsToText(content, cmds)` returns. */
  function Edited(content: string, cmds: seq<Command>, toNumber: NumberConversion): string
  {
    Join(Run(SplitLines(content), cmds, toNumber), "\n")
  }

  /** The push loop of `FIND_APPEND` and `FIND_BREAK`. */
  method PushAfterMatches(lines: seq<string>, needle: string, extra: string) returns (out: seq<string>)
    ensures out == AfterEachMatch(lines, needle, extra)
  {
    out := [];
    for j := 0 to |lines|
      invariant out == AfterEachMatch(lines[..j], needle, extra)
    {
      var line := lines[j];
      out := out + [line];
      if Contains(line, needle) {
        out := out + [extra];
      }
      assert lines[..j + 1][..j] == lines[..j];
    }
    assert lines[..|lines|] == lines;
  }

  /** `applyCommandsToText(content, cmds)`: one pass per command over the current lines. */
  method ApplyCommandsToText(content: string, cmds: seq<Command>, toNumber: NumberConversion) returns (text: string)
    ensures text == Edited(content, cmds, toNumber)
  {
    var lines := SplitLines(content);
    for i := 0 to |cmds|
      invariant lines == Run(SplitLines(content), cmds[..i], toNumber)
    {
      assert cmds[..i + 1][..i] == cmds[..i];
      RunLast(SplitLines(content), cmds[..i + 1], toNumber);
      lines := ApplyCommand(lines, cmds[i], toNumber);
    }
    assert cmds[..|cmds|] == cmds;
    text := Join(lines, "\n");
  }

  /** One case of the `switch (cmd.op)` of `applyCommandsToText`, run on the current lines. */
  method ApplyCommand(lines: seq<string>, cmd: Command, toNumber: NumberConversion) returns (out: seq<string>)
    ensures out == Step(lines, cmd, toNumber)
  {
    out := lines;
    match cmd.op {
      case FindAppend =>
        out := PushAfterMatches(lines, cmd.a, cmd.b.GetOr(""));
      case FindBreak =>
        out := PushAfterMatches(lines, cmd.a, "");
      case FindInsert =>
        var needle, ins := cmd.a, cmd.b.GetOr("");
        out := seq(|lines|, j requires 0 <= j < |lines| => InsertAfterNeedle(lines[j], needle, ins));
      case FindReplace =>
        var needle, repl := cmd.a, cmd.b.GetOr("");
        out := seq(|lines|, j requires 0 <= j < |lines| => ReplaceAll(lines[j], needle, repl));
      case FindDelete =>
        var needle := cmd.a;
        out := seq(|lines|, j requires 0 <= j < |lines| => ReplaceAll(lines[j], needle, ""));
      case LineAppend =>
        var pos := InsertionPosAfterLine(toNumber(cmd.a), |lines|);
        if pos.Some? {
          out := lines[..pos.value] + [cmd.b.GetOr("")] + lines[pos.value..];
        }
      case LineBreak =>
        var pos := InsertionPosAfterLine(toNumber(cmd.a), |lines|);
        if pos.Some? {
          out := lines[..pos.value] + [""] + lines[pos.value..];
        }
      case LineReplace =>
        var idx := LineIndex(toNumber(cmd.a), |lines|);
        if idx.Some? {
          out := lines[idx.value := cmd.b.GetOr("")];
        }
      case LineDelete =>
        var idx := LineIndex(toNumber(cmd.a), |lines|);
        if idx.Some? {
          out := lines[..idx.value] + lines[idx.value + 1..];
        }
    }
  }

  // ---------------------------------------------------------------------------
  // LINE_* commands
  // ---------------------------------------------------------------------------

  /**
   * `LINE_APPEND|n|x` puts `x` right after line `n` when that line is not
   * the last; -1 or a number at or past the last line appends at the end,
   * and the other non-positive numbers put it first.
   */
  lemma LineAppendPlacement(lines: seq<string>, a: string, x: string, n: int, toNumber: NumberConversion)
    requires toNumber(a) == Some(n)
    ensures var r := Step(lines, Command(LineAppend, a, Some(x)), toNumber);
      && (0 < n < |lines| ==> r[..n] == lines[..n] && r[n] == x && r[n + 1..] == lines[n..])
      && (n == -1 || n >= |lines| ==> r == lines + [x])
      && (n <= 0 && n != -1 ==> r == [x] + lines)
  {
    var r := Step(lines, Command(LineAppend, a, Some(x)), toNumber);
    if 0 < n < |lines| {
      assert r == lines[..n] + [x] + lines[n..];
      assert r[n + 1..] == lines[n..];
    } else if n == -1 || n >= |lines| {
      assert lines[|lines|..] == [];
    } else {
      assert lines[..0] == [];
    }
  }

  /** `LINE_BREAK|n` is `LINE_APPEND|n|` with an empty text. */
  lemma LineBreakIsEmptyAppend(lines: seq<string>, a: string, b: Option<string>, toNumber: NumberConversion)
    ensures Step(lines, Command(LineBreak, a, b), toNumber) == Step(lines, Command(LineAppend, a, Some("")), toNumber)
  {
  }

  /**
   * `LINE_REPLACE|n|x` changes the resolved line to `x` and nothing else;
   * when nothing resolves the lines stay as they are.
   */
  lemma LineReplaceTarget(lines: seq<string>, a: string, x: string, toNumber: NumberConversion)
    ensures var r := Step(lines, Command(LineReplace, a, Some(x)), toNumber);
      match LineIndex(toNumber(a), |lines|)
      case None => r == lines
      case Some(i) => |r| == |lines| && r[i] == x && forall j :: 0 <= j < |lines| && j != i ==> r[j] == lines[j]
  {
  }

  /**
   * `LINE_DELETE|n` removes exactly the resolved line: the lines before it
   * keep their places and those after it move up by one.
   */
  lemma LineDeleteTarget(lines: seq<string>, a: string, toNumber: NumberConversion)
    ensures var r := Step(lines, Command(LineDelete, a, None), toNumber);
      match LineIndex(toNumber(a), |lines|)
      case None => r == lines
      case Some(i) => r[..i] == lines[..i] && r[i..] == lines[i + 1..]
  {
    var r := Step(lines, Command(LineDelete, a, None), toNumber);
    match LineIndex(toNumber(a), |lines|)
    case None =>
    case Some(i) =>
      assert r == lines[..i] + lines[i + 1..];
      assert r[i..] == lines[i + 1..];
  }

  /** A number outside -1..len, or an empty list, makes `LINE_DELETE` and `LINE_REPLACE` no-ops. */
  lemma OutOfRangeIsNoOp(lines: seq<string>, a: string, b: Option<string>, n: int, toNumber: NumberConversion)
    requires toNumber(a) == Some(n)
    requires n < -1 || n > |lines| || lines == []
    ensures Step(lines, Command(LineDelete, a, b), toNumber) == lines
    ensures Step(lines, Command(LineReplace, a, b), toNumber) == lines
  {
  }

  /** A line number that is not finite makes every `LINE_*` command a no-op. */
  lemma NotFiniteIsNoOp(lines: seq<string>, cmd: Command, toNumber: NumberConversion)
    requires cmd.op.LineAppend? || cmd.op.LineBreak? || cmd.op.LineReplace? || cmd.op.LineDelete?
    requires toNumber(cmd.a).None?
    ensures Step(lines, cmd, toNumber) == lines
  {
  }

  /**
   * Appending after line `n` and then deleting line `n + 1` gives the lines
   * back, for every `n` from 0 to the line count.
   */
  lemma AppendThenDelete(lines: seq<string>, a: string, x: string, d: string, n: int, toNumber: NumberConversion)
    requires toNumber(a) == Some(n) && toNumber(d) == Some(n + 1)
    requires 0 <= n <= |lines|
    ensures Step(Step(lines, Command(LineAppend, a, Some(x)), toNumber), Command(LineDelete, d, None), toNumber) == lines
  {
    var mid := Step(lines, Command(LineAppend, a, Some(x)), toNumber);
    assert InsertionPosAfterLine(Some(n), |lines|) == Some(n);
    assert mid == lines[..n] + [x] + lines[n..];
    assert LineIndex(Some(n + 1), |mid|) == Some(n);
    assert Step(mid, Command(LineDelete, d, None), toNumber) == mid[..n] + mid[n + 1..];
    assert mid[..n] == lines[..n] && mid[n + 1..] == lines[n..];
    assert lines[..n] + lines[n..] == lines;
  }

  /** Appending at the end (`-1`) and then deleting the last line (`-1`) gives the lines back. */
  lemma AppendLastThenDeleteLast(lines: seq<string>, a: string, x: string, toNumber: NumberConversion)
    requires toNumber(a) == Some(-1)
    ensures Step(Step(lines, Command(LineAppend, a, Some(x)), toNumber), Command(LineDelete, a, None), toNumber) == lines
  {
    var mid := Step(lines, Command(LineAppend, a, Some(x)), toNumber);
    assert mid == lines + [x];
    assert mid[..|lines|] == lines;
  }

  /** Replacing a line and then writing its old text back gives the lines back. */
  lemma ReplaceThenRestore(lines: seq<string>, a: string, x: string, i: nat, toNumber: NumberConversion)
    requires LineIndex(toNumber(a), |lines|) == Some(i)
    ensures Step(Step(lines, Command(LineReplace, a, Some(x)), toNumber), Command(LineReplace, a, Some(lines[i])), toNumber) == lines
  {
  }

  // ---------------------------------------------------------------------------
  // FIND_* commands
  // ---------------------------------------------------------------------------

  /** The empty needle occurs in every line. */
  lemma EmptyNeedleOccurs(line: string)
    ensures Contains(line, "")
  {
    assert OccursAt(line, "", 0);
  }

  /** A line that does not hold the needle is left alone by every in-line `FIND_*` command. */
  lemma FindLeavesOtherLines(lines: seq<string>, cmd: Command, toNumber: NumberConversion)
    requires cmd.op.FindInsert? || cmd.op.FindReplace? || cmd.op.FindDelete?
    ensures forall j :: 0 <= j < |lines| && !Contains(lines[j], cmd.a) ==> Step(lines, cmd, toNumber)[j] == lines[j]
  {
    var r := Step(lines, cmd, toNumber);
    forall j | 0 <= j < |lines| && !Contains(lines[j], cmd.a)
      ensures r[j] == lines[j]
    {
      EmptyNeedleOccurs(lines[j]);
      ReplaceAllWithoutMatch(lines[j], cmd.a, cmd.b.GetOr(""));
      ReplaceAllWithoutMatch(lines[j], cmd.a, "");
    }
  }

  /**
   * `FIND_INSERT|needle|ins` is `FIND_REPLACE|needle|needle+ins`: the guard
   * on `includes` changes nothing, since a line without the needle comes
   * out of the split-and-join unchanged.
   */
  lemma InsertIsReplace(lines: seq<string>, needle: string, ins: string, toNumber: NumberConversion)
    ensures Step(lines, Command(FindInsert, needle, Some(ins)), toNumber)
         == Step(lines, Command(FindReplace, needle, Some(needle + ins)), toNumber)
  {
  }

  /** Replacing a needle by itself changes nothing, the empty needle included. */
  lemma ReplaceBySelf(lines: seq<string>, needle: string, toNumber: NumberConversion)
    ensures Step(lines, Command(FindReplace, needle, Some(needle)), toNumber) == lines
  {
    var r := Step(lines, Command(FindReplace, needle, Some(needle)), toNumber);
    forall j | 0 <= j < |lines|
      ensures r[j] == lines[j]
    {
      JoinSplit(lines[j], needle);
    }
  }

  /**
   * `FIND_DELETE` with the empty needle changes nothing: each line is cut
   * into its characters and glued back without separator.
   */
  lemma DeleteEmptyNeedle(lines: seq<string>, toNumber: NumberConversion)
    ensures Step(lines, Command(FindDelete, "", None), toNumber) == lines
  {
    var r := Step(lines, Command(FindDelete, "", None), toNumber);
    forall j | 0 <= j < |lines|
      ensures r[j] == lines[j]
    {
      JoinChars(lines[j]);
    }
  }

  /** `FIND_DELETE` can leave a fresh occurrence: `aabb` without `ab` is `ab`, and deleting again gives the empty line. */
  lemma DeleteNotIdempotent(toNumber: NumberConversion)
    ensures Step(["aabb"], Command(FindDelete, "ab", None), toNumber) == ["ab"]
    ensures Step(["ab"], Command(FindDelete, "ab", None), toNumber) == [""]
  {
    DeleteInside();
    DeleteWhole();
  }

  lemma DeleteInside()
    ensures ReplaceAll("aabb", "ab", "") == "ab"
  {
    var s := "aabb";
    assert s[0..2][1] != "ab"[1];
    assert s[1..3] == "ab";
    IndexOfIsFirst(s, "ab", 1);
    assert s[..1] == "a" && s[3..] == "b";
    SplitOnFirst(s, "ab", 1);
    assert SplitOn("b", "ab") == ["b"];
    assert SplitOn(s, "ab") == ["a", "b"];
  }

  lemma DeleteWhole()
    ensures ReplaceAll("ab", "ab", "") == ""
  {
    var s := "ab";
    assert s[..2] == "ab" && s[..0] == "" && s[2..] == "";
    SplitOnFirst(s, "ab", 0);
    assert SplitOn("", "ab") == [""];
    assert SplitOn(s, "ab") == ["", ""];
  }

  /**
   * After `FIND_APPEND` / `FIND_BREAK`, line `j` sits `MatchCount` of the
   * lines before it further down, and `extra` follows it exactly when it
   * holds the needle.
   */
  lemma {:induction false} AfterEachMatchLayout(lines: seq<string>, needle: string, extra: string, j: nat)
    requires j < |lines|
    ensures var out := AfterEachMatch(lines, needle, extra);
      var at := j + MatchCount(lines[..j], needle);
      && at < |out| && out[at] == lines[j]
      && (Contains(lines[j], needle) ==> at + 1 < |out| && out[at + 1] == extra)
    decreases |lines|
  {
    var front := lines[..|lines| - 1];
    if j < |lines| - 1 {
      AfterEachMatchLayout(front, needle, extra, j);
      assert front[..j] == lines[..j];
    } else {
      assert lines[..j] == front;
    }
  }

  /** A needle no line holds makes `FIND_APPEND` and `FIND_BREAK` no-ops. */
  lemma {:induction false} AfterEachMatchWithoutMatch(lines: seq<string>, needle: string, extra: string)
    requires forall j :: 0 <= j < |lines| ==> !Contains(lines[j], needle)
    ensures AfterEachMatch(lines, needle, extra) == lines
    decreases |lines|
  {
    if lines != [] {
      var front := lines[..|lines| - 1];
      AfterEachMatchWithoutMatch(front, needle, extra);
      assert front + [lines[|lines| - 1]] == lines;
    }
  }

  // ---------------------------------------------------------------------------
  // Scripts
  // ---------------------------------------------------------------------------

  /** Running two scripts one after the other is running their concatenation. */
  lemma {:induction false} RunConcat(lines: seq<string>, first: seq<Command>, second: seq<Command>, toNumber: NumberConversion)
    ensures Run(lines, first + second, toNumber) == Run(Run(lines, first, toNumber), second, toNumber)
    decreases |second|
  {
    if second == [] {
      assert first + second == first;
    } else {
      var all := first + second;
      var init := second[..|second| - 1];
      var cmd := second[|second| - 1];
      assert all[..|all| - 1] == first + init;
      assert all[|all| - 1] == cmd;
      RunConcat(lines, first, init, toNumber);
      RunLast(lines, all, toNumber);
      RunLast(Run(lines, first, toNumber), second, toNumber);
    }
  }

  /** The last command of a script runs on the lines the others leave. */
  lemma RunLast(lines: seq<string>, cmds: seq<Command>, toNumber: NumberConversion)
    requires cmds != []
    ensures Run(lines, cmds, toNumber) == Step(Run(lines, cmds[..|cmds| - 1], toNumber), cmds[|cmds| - 1], toNumber)
  {
  }

  /**
   * The empty script normalises line endings: every `\r\n` becomes `\n`
   * and nothing else changes, so text without carriage returns comes back
   * as it is.
   */
  lemma EmptyScript(content: string, toNumber: NumberConversion)
    ensures Edited(content, [], toNumber) == ReplaceAll(content, "\r\n", "\n")
    ensures '\r' !in content ==> Edited(content, [], toNumber) == content
  {
    SplitLinesNormalises(content);
    if '\r' !in content {
      ReplaceAbsent(content, "\r\n", "\n");
    }
  }

  // ---------------------------------------------------------------------------
  // Worked examples
  // ---------------------------------------------------------------------------

  /** `LINE_DELETE|0` removes the first of three lines, `|-1` the last, and `|5` nothing. */
  lemma LineDeleteExamples(toNumber: NumberConversion)
    requires toNumber("0") == Some(0) && toNumber("-1") == Some(-1) && toNumber("5") == Some(5)
    ensures Step(["a", "b", "c"], Command(LineDelete, "0", None), toNumber) == ["b", "c"]
    ensures Step(["a", "b", "c"], Command(LineDelete, "-1", None), toNumber) == ["a", "b"]
    ensures Step(["a", "b", "c"], Command(LineDelete, "5", None), toNumber) == ["a", "b", "c"]
  {
    var lines := ["a", "b", "c"];
    assert lines[..0] + lines[1..] == ["b", "c"];
    assert lines[..2] + lines[3..] == ["a", "b"];
  }

  /** `LINE_APPEND|0|X` on `a`, `b` puts `X` first; `LINE_APPEND|-1|X` puts it last. */
  lemma LineAppendExamples(toNumber: NumberConversion)
    requires toNumber("0") == Some(0) && toNumber("-1") == Some(-1)
    ensures Step(["a", "b"], Command(LineAppend, "0", Some("X")), toNumber) == ["X", "a", "b"]
    ensures Step(["a", "b"], Command(LineAppend, "-1", Some("X")), toNumber) == ["a", "b", "X"]
  {
    var lines := ["a", "b"];
    assert lines[..0] + ["X"] + lines[0..] == ["X", "a", "b"];
    assert lines[..2] + ["X"] + lines[2..] == ["a", "b", "X"];
  }

  /** `foo foo` cut at `foo` is an empty piece, a space and an empty piece. */
  lemma SplitFooFoo()
    ensures Split("foo foo", "foo") == ["", " ", ""]
  {
    var s := "foo foo";
    assert s[..3] == "foo" && s[..0] == "" && s[3..] == " foo";
    SplitOnFirst(s, "foo", 0);
    SplitSpaceFoo();
  }

  lemma SplitSpaceFoo()
    ensures SplitOn(" foo", "foo") == [" ", ""]
  {
    var t := " foo";
    assert t[0..3][0] != "foo"[0];
    assert t[1..4] == "foo";
    IndexOfIsFirst(t, "foo", 1);
    assert t[..1] == " " && t[4..] == "";
    SplitOnFirst(t, "foo", 1);
    assert SplitOn("", "foo") == [""];
  }

  /** A text without line feeds is one line. */
  lemma OneLine(s: string)
    requires '\n' !in s
    ensures SplitLines(s) == [s]
  {
    AbsentLead(s, "\n");
    SplitWithoutMatch(s, "\n");
  }

  /** A one-command script on one line is that command's step, joined. */
  lemma SingleCommand(content: string, cmd: Command, toNumber: NumberConversion)
    requires '\n' !in content
    ensures Edited(content, [cmd], toNumber) == Join(Step([content], cmd, toNumber), "\n")
  {
    OneLine(content);
    assert [cmd][..0] == [];
    assert Run([content], [], toNumber) == [content];
    assert Run([content], [cmd], toNumber) == Step([content], cmd, toNumber);
  }

  /** On a single line, an in-line `FIND_*` command is one replacement. */
  lemma FindOnOneLine(line: string, cmd: Command, toNumber: NumberConversion)
    requires cmd.op.FindReplace? || cmd.op.FindDelete?
    ensures Step([line], cmd, toNumber) == [ReplaceAll(line, cmd.a, if cmd.op.FindReplace? then cmd.b.GetOr("") else "")]
  {
  }

  /** `FIND_REPLACE|foo|bar` on `foo foo` gives `bar bar`. */
  lemma FindReplaceExample(toNumber: NumberConversion)
    ensures Edited("foo foo", [Command(FindReplace, "foo", Some("bar"))], toNumber) == "bar bar"
  {
    var cmd := Command(FindReplace, "foo", Some("bar"));
    SingleCommand("foo foo", cmd, toNumber);
    FindOnOneLine("foo foo", cmd, toNumber);
    ReplaceFooFoo();
    assert Step(["foo foo"], cmd, toNumber) == ["bar bar"];
    assert Join(["bar bar"], "\n") == "bar bar";
  }

  lemma ReplaceFooFoo()
    ensures ReplaceAll("foo foo", "foo", "bar") == "bar bar"
  {
    SplitFooFoo();
    JoinThree("", " ", "", "bar");
    BarBar();
  }

  lemma BarBar()
    ensures "" + "bar" + " " + "bar" + "" == "bar bar"
  {
    var w := "" + "bar" + " " + "bar" + "";
    assert w[..3] == "bar" && w[3] == ' ' && w[4..] == "bar";
  }

  /** `FIND_DELETE|foo` on `foo foo` leaves a single space. */
  lemma FindDeleteExample(toNumber: NumberConversion)
    ensures Edited("foo foo", [Command(FindDelete, "foo", None)], toNumber) == " "
  {
    var cmd := Command(FindDelete, "foo", None);
    SingleCommand("foo foo", cmd, toNumber);
    FindOnOneLine("foo foo", cmd, toNumber);
    DeleteFooFoo();
    assert Step(["foo foo"], cmd, toNumber) == [" "];
    assert Join([" "], "\n") == " ";
  }

  lemma DeleteFooFoo()
    ensures ReplaceAll("foo foo", "foo", "") == " "
  {
    SplitFooFoo();
    JoinThree("", " ", "", "");
  }
}
