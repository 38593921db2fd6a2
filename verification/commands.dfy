/**
 * The command-script front end: `unescapeArg` and `parseCommands`.
 *
 * A script is one command per non-blank line, `OPERATOR|arg1|arg2`. The
 * operator is trimmed and upper-cased and must be one of nine names; it
 * fixes how many arguments the line must supply. Arguments are not trimmed;
 * each is unescaped by three replace-alls in a fixed order. One bad line
 * fails the whole script.
 */
module Commands {
  import opened Wrappers
  import opened JsStrings

  // ---------------------------------------------------------------------------
  // Operators
  // ---------------------------------------------------------------------------

  /** The nine operators of the command language. */
  datatype Op =
    | FindAppend | FindBreak | FindInsert | FindReplace | FindDelete
    | LineAppend | LineBreak | LineReplace | LineDelete

  /** The name of an operator in a script, in upper case. */
  function OpName(op: Op): string
  {
    match op
    case FindAppend => "FIND_APPEND"
    case FindBreak => "FIND_BREAK"
    case FindInsert => "FIND_INSERT"
    case FindReplace => "FIND_REPLACE"
    case FindDelete => "FIND_DELETE"
    case LineAppend => "LINE_APPEND"
    case LineBreak => "LINE_BREAK"
    case LineReplace => "LINE_REPLACE"
    case LineDelete => "LINE_DELETE"
  }

  /** The number of `|`-separated arguments an operator requires. */
  function RequiredArgs(op: Op): (need: nat)
    ensures need == 1 <==> op in {FindBreak, FindDelete, LineBreak, LineDelete}
    ensures 1 <= need <= 2
  {
    match op
    case FindAppend => 2
    case FindBreak => 1
    case FindInsert => 2
    case FindReplace => 2
    case FindDelete => 1
    case LineAppend => 2
    case LineBreak => 1
    case LineReplace => 2
    case LineDelete => 1
  }

  /** Names are made of capitals and `_`, so upper-casing and trimming leave them alone. */
  lemma OpNameShape(op: Op)
    ensures |OpName(op)| >= 2
    ensures forall i :: 0 <= i < |OpName(op)| ==> 'A' <= OpName(op)[i] <= 'Z' || OpName(op)[i] == '_'
  {
  }

  /**
   * The table lookup `{FIND_APPEND: 2, ...}[op]`: the operator with that
   * exact name, if there is one.
   */
  function LookupOp(name: string): (r: Option<Op>)
    ensures r.Some? ==> OpName(r.value) == name
    ensures r.None? ==> forall op :: OpName(op) != name
  {
    if name == "FIND_APPEND" then Some(FindAppend)
    else if name == "FIND_BREAK" then Some(FindBreak)
    else if name == "FIND_INSERT" then Some(FindInsert)
    else if name == "FIND_REPLACE" then Some(FindReplace)
    else if name == "FIND_DELETE" then Some(FindDelete)
    else if name == "LINE_APPEND" then Some(LineAppend)
    else if name == "LINE_BREAK" then Some(LineBreak)
    else if name == "LINE_REPLACE" then Some(LineReplace)
    else if name == "LINE_DELETE" then Some(LineDelete)
    else None
  }

  /** Every operator is found under its own name. */
  lemma LookupOpName(op: Op)
    ensures LookupOp(OpName(op)) == Some(op)
  {
  }

  // ---------------------------------------------------------------------------
  // Commands and errors
  // ---------------------------------------------------------------------------

  /** One parsed command; `b` is absent when the line has no second argument. */
  datatype Command = Command(op: Op, a: string, b: Option<string>)

  /** Why a script was refused; both carry the upper-cased operator text. */
  datatype ParseError =
    | UnknownCommand(name: string)
    | MissingArgs(name: string, need: nat)

  /** The text of the error the script runner reports. */
  function ErrorMessage(e: ParseError): string
  {
    match e
    case UnknownCommand(name) => "Unknown command: " + name
    case MissingArgs(name, need) =>
      "Command " + name + " expects " + (if need == 1 then "1" else "2") + " arg(s)"
  }

  /**
   * The message identifies the error: two errors with the same message are
   * the same error, as long as the argument count is one the table uses.
   */
  lemma ErrorMessageDistinct(e1: ParseError, e2: ParseError)
    requires e1.MissingArgs? ==> 1 <= e1.need <= 2
    requires e2.MissingArgs? ==> 1 <= e2.need <= 2
    requires ErrorMessage(e1) == ErrorMessage(e2)
    ensures e1 == e2
  {
    var m := ErrorMessage(e1);
    match e1
    case UnknownCommand(n1) =>
      assert m == "Unknown command: " + n1;
      assert m[0] == 'U';
      if e2.UnknownCommand? {
        assert m == "Unknown command: " + e2.name;
        assert m[17..] == n1 && m[17..] == e2.name;
      }
    case MissingArgs(n1, d1) =>
      var t1 := if d1 == 1 then "1" else "2";
      assert m == "Command " + n1 + " expects " + t1 + " arg(s)";
      assert m[0] == 'C';
      if e2.MissingArgs? {
        var n2, d2 := e2.name, e2.need;
        var t2 := if d2 == 1 then "1" else "2";
        assert m == "Command " + n2 + " expects " + t2 + " arg(s)";
        assert |n1| == |n2|;
        assert m[8..8 + |n1|] == n1 && m[8..8 + |n2|] == n2;
        assert m[|n1| + 17] == t1[0] && m[|n2| + 17] == t2[0];
      }
  }

  // ---------------------------------------------------------------------------
  // Unescaping
  // ---------------------------------------------------------------------------

  /**
   * `unescapeArg`: every backslash-n becomes a line feed, then every
   * backslash-t a tab, then every doubled backslash a single one. Each step
   * removes one character per replacement, so the result is never longer,
   * and text without a backslash is left as it is.
   */
  function UnescapeArg(s: string): (r: string)
    ensures |r| <= |s|
    ensures '\\' !in s ==> r == s
  {
    var s1 := ReplaceAll(s, "\\n", "\n");
    var s2 := ReplaceAll(s1, "\\t", "\t");
    ReplaceNotLonger(s, "\\n", "\n");
    ReplaceNotLonger(s1, "\\t", "\t");
    ReplaceNotLonger(s2, "\\\\", "\\");
    if '\\' in s then ReplaceAll(s2, "\\\\", "\\")
    else
      ReplaceAbsent(s, "\\n", "\n");
      ReplaceAbsent(s1, "\\t", "\t");
      ReplaceAbsent(s2, "\\\\", "\\");
      ReplaceAll(s2, "\\\\", "\\")
  }

  // ---------------------------------------------------------------------------
  // Parsing
  // ---------------------------------------------------------------------------

  /**
   * `lines.filter(Boolean)`: the non-empty strings, each as often as it
   * occurs, and no empty one; `NonEmptyConcat` adds that they keep their order.
   */
  function NonEmpty(lines: seq<string>): (r: seq<string>)
    ensures |r| <= |lines|
    ensures forall i :: 0 <= i < |r| ==> r[i] != [] && r[i] in lines
    ensures multiset(r) == multiset(lines)[[] := 0]
    ensures (forall i :: 0 <= i < |lines| ==> lines[i] != []) ==> r == lines
  {
    if lines == [] then []
    else
      assert lines == [lines[0]] + lines[1..];
      if lines[0] == [] then NonEmpty(lines[1..])
      else [lines[0]] + NonEmpty(lines[1..])
  }

  /**
   * Filtering works piece by piece, so the kept lines keep their order:
   * the filter of a concatenation is the concatenation of the filters, and
   * one line is kept exactly when it is not empty.
   */
  lemma {:induction false} NonEmptyConcat(a: seq<string>, b: seq<string>)
    ensures NonEmpty(a + b) == NonEmpty(a) + NonEmpty(b)
    ensures |a| == 1 ==> NonEmpty(a) == if a[0] == [] then [] else a
    decreases |a|
  {
    if a != [] {
      assert (a + b)[0] == a[0];
      assert (a + b)[1..] == a[1..] + b;
      NonEmptyConcat(a[1..], b);
    } else {
      assert a + b == b;
    }
  }

  /**
   * The trimmed lines of the script, one per line break, blank ones
   * dropped: a script on one line is that line trimmed, or nothing when it
   * is blank.
   */
  function ScriptLines(src: string): (lines: seq<string>)
    ensures |lines| <= |SplitLines(src)|
    ensures '\n' !in src ==> lines == if AllWhiteSpace(src) then [] else [Trim(src)]
  {
    var raw := SplitLines(src);
    var trimmed := seq(|raw|, i requires 0 <= i < |raw| => Trim(raw[i]));
    if '\n' in src then NonEmpty(trimmed)
    else
      AbsentLead(src, "\n");
      SplitWithoutMatch(src, "\n");
      assert trimmed == [Trim(src)];
      NonEmptyConcat([Trim(src)], []);
      NonEmpty(trimmed)
  }

  /** Every line handed to the parser is non-empty and already trimmed. */
  lemma ScriptLinesTrimmed(src: string)
    ensures forall i :: 0 <= i < |ScriptLines(src)| ==> ScriptLines(src)[i] != [] && Trim(ScriptLines(src)[i]) == ScriptLines(src)[i]
  {
    var lines := ScriptLines(src);
    forall i | 0 <= i < |lines|
      ensures lines[i] != [] && Trim(lines[i]) == lines[i]
    {
      TrimmedUnchanged(lines[i]);
    }
  }

  /**
   * The fields of one script line: the trimmed, upper-cased first field
   * must name an operator, there must be as many further fields as it
   * requires, and fields 1 and 2 are unescaped into its arguments; further
   * fields are ignored.
   */
  function ParseFields(parts: seq<string>): (r: Result<Command, ParseError>)
    requires |parts| >= 1
    ensures r.Ok? <==> LookupOp(ToUpper(Trim(parts[0]))).Some? && |parts| > RequiredArgs(LookupOp(ToUpper(Trim(parts[0]))).value)
    ensures r.Ok? ==> OpName(r.value.op) == ToUpper(Trim(parts[0]))
    ensures r.Ok? ==> r.value.a == UnescapeArg(parts[1])
    ensures r.Ok? ==> r.value.b == if |parts| >= 3 then Some(UnescapeArg(parts[2])) else None
    ensures r.Err? ==> r.error.name == ToUpper(Trim(parts[0]))
    ensures LookupOp(ToUpper(Trim(parts[0]))).None? ==> r == Err(UnknownCommand(ToUpper(Trim(parts[0]))))
    ensures LookupOp(ToUpper(Trim(parts[0]))).Some? && |parts| - 1 < RequiredArgs(LookupOp(ToUpper(Trim(parts[0]))).value)
      ==> r == Err(MissingArgs(ToUpper(Trim(parts[0])), RequiredArgs(LookupOp(ToUpper(Trim(parts[0]))).value)))
  {
    var name := ToUpper(Trim(parts[0]));
    match LookupOp(name)
    case None => Err(UnknownCommand(name))
    case Some(op) =>
      if |parts| - 1 < RequiredArgs(op) then Err(MissingArgs(name, RequiredArgs(op)))
      else
        var b := if |parts| >= 3 then Some(UnescapeArg(parts[2])) else None;
        Ok(Command(op, UnescapeArg(parts[1]), b))
  }

  /**
   * One script line, `line.split('|')` handed to `ParseFields`. Every
   * operator needs an argument, so a line without a `|` never parses.
   */
  function ParseLine(line: string): (r: Result<Command, ParseError>)
    ensures '|' !in line ==> r.Err?
  {
    var parts := SplitOn(line, "|");
    if '|' !in line then
      AbsentLead(line, "|");
      SplitWithoutMatch(line, "|");
      ParseFields(parts)
    else
      ParseFields(parts)
  }

  /** The result of parsing each line on its own. */
  function ParseEach(lines: seq<string>): (results: seq<Result<Command, ParseError>>)
    ensures |results| == |lines|
    ensures forall j :: 0 <= j < |lines| ==> results[j] == ParseLine(lines[j])
  {
    seq(|lines|, j requires 0 <= j < |lines| => ParseLine(lines[j]))
  }

  /** The commands of a run of per-line results, or the first error among them. */
  function Collect(results: seq<Result<Command, ParseError>>): Result<seq<Command>, ParseError>
  {
    if results == [] then Ok([])
    else
      match Collect(results[..|results| - 1])
      case Err(e) => Err(e)
      case Ok(cmds) =>
        match results[|results| - 1]
        case Err(e) => Err(e)
        case Ok(c) => Ok(cmds + [c])
  }

  /** The parse of a whole script given as its lines. */
  function ParseAll(lines: seq<string>): Result<seq<Command>, ParseError>
  {
    Collect(ParseEach(lines))
  }

  /** Once a prefix of the results holds an error, so does the whole run, and it is the same error. */
  lemma {:induction false} CollectStops(results: seq<Result<Command, ParseError>>, i: nat)
    requires i <= |results| && Collect(results[..i]).Err?
    ensures Collect(results) == Collect(results[..i])
    decreases |results|
  {
    if i < |results| {
      var init := results[..|results| - 1];
      assert init[..i] == results[..i];
      CollectStops(init, i);
    } else {
      assert results[..i] == results;
    }
  }

  /** Collecting one more result after a run of commands. */
  lemma CollectNext(results: seq<Result<Command, ParseError>>, i: nat, cmds: seq<Command>)
    requires i < |results| && Collect(results[..i]) == Ok(cmds)
    ensures Collect(results[..i + 1]) == match results[i] case Err(e) => Err(e) case Ok(c) => Ok(cmds + [c])
  {
    assert results[..i + 1][..i] == results[..i];
  }

  /** A run of results collects to commands exactly when none is an error, one command per result. */
  lemma {:induction false} CollectOk(results: seq<Result<Command, ParseError>>)
    ensures Collect(results).Ok? <==> forall j :: 0 <= j < |results| ==> results[j].Ok?
    ensures Collect(results).Ok? ==> |Collect(results).value| == |results|
    ensures Collect(results).Ok? ==> forall j :: 0 <= j < |results| ==> results[j] == Ok(Collect(results).value[j])
    decreases |results|
  {
    if results != [] {
      var init := results[..|results| - 1];
      CollectOk(init);
      assert forall j :: 0 <= j < |init| ==> init[j] == results[j];
    }
  }

  /** The first failing result. */
  predicate FirstError(results: seq<Result<Command, ParseError>>, j: int)
  {
    && 0 <= j < |results|
    && results[j].Err?
    && forall k :: 0 <= k < j ==> results[k].Ok?
  }

  /** A run that fails reports the error of its first failing result. */
  lemma {:induction false} CollectFirstError(results: seq<Result<Command, ParseError>>)
    requires Collect(results).Err?
    ensures exists j :: FirstError(results, j) && results[j] == Err(Collect(results).error)
    decreases |results|
  {
    var init := results[..|results| - 1];
    if Collect(init).Err? {
      CollectFirstError(init);
      var j :| FirstError(init, j) && init[j] == Err(Collect(init).error);
      assert FirstError(results, j);
    } else {
      CollectOk(init);
      assert FirstError(results, |results| - 1);
    }
  }

  /**
   * The loop of `parseCommands`: the command of each line is appended in
   * turn, and the first line that does not parse ends the parse.
   */
  method ParseLines(lines: seq<string>) returns (r: Result<seq<Command>, ParseError>)
    ensures r == ParseAll(lines)
  {
    ghost var results := ParseEach(lines);
    var cmds: seq<Command> := [];
    for i := 0 to |lines|
      invariant Collect(results[..i]) == Ok(cmds)
    {
      var c := ParseLine(lines[i]);
      CollectNext(results, i, cmds);
      assert results[i] == c;
      if c.Err? {
        CollectStops(results, i + 1);
        return Err(c.error);
      }
      cmds := cmds + [c.value];
    }
    assert results[..|lines|] == results;
    return Ok(cmds);
  }

  /**
   * `parseCommands(src)`: the script's non-blank trimmed lines, parsed one
   * after the other; the first bad line fails the whole script.
   */
  method ParseCommands(src: string) returns (r: Result<seq<Command>, ParseError>)
    ensures r == ParseAll(ScriptLines(src))
  {
    r := ParseLines(ScriptLines(src));
  }

  // ---------------------------------------------------------------------------
  // Properties of the parser
  // ---------------------------------------------------------------------------

  /** Splitting `x|y|z` when neither `x` nor `y` holds a `|`. */
  lemma SplitThree(x: string, y: string, z: string)
    requires '|' !in x && '|' !in y && '|' !in z
    ensures Split(x + "|" + y + "|" + z, "|") == [x, y, z]
  {
    SplitAtChar(x, '|', y + "|" + z);
    assert x + "|" + y + "|" + z == x + ['|'] + (y + "|" + z);
    SplitAtChar(y, '|', z);
    assert y + "|" + z == y + ['|'] + z;
    AbsentLead(z, "|");
  }

  /** The operator field of a line that names `op` exactly reads as that name. */
  lemma OperatorOfName(op: Op)
    ensures ToUpper(Trim(OpName(op))) == OpName(op)
  {
    OpNameShape(op);
    TrimmedUnchanged(OpName(op));
    UpperUnchanged(OpName(op));
  }

  /** No name holds a `|`. */
  lemma NoBarInName(op: Op)
    ensures '|' !in OpName(op)
  {
    OpNameShape(op);
  }

  /** A line whose operator field names `op` and that has enough fields parses to a command of `op`. */
  lemma ParseLineOk(line: string, op: Op, parts: seq<string>)
    requires SplitOn(line, "|") == parts && |parts| > RequiredArgs(op)
    requires ToUpper(Trim(parts[0])) == OpName(op)
    ensures ParseLine(line) == Ok(Command(op, UnescapeArg(parts[1]), if |parts| >= 3 then Some(UnescapeArg(parts[2])) else None))
  {
    LookupOpName(op);
  }

  /** Two lines parse alike when their operator fields read the same and their other fields agree. */
  lemma ParseLineSameFields(line1: string, line2: string)
    requires SplitOn(line1, "|")[1..] == SplitOn(line2, "|")[1..]
    requires ToUpper(Trim(SplitOn(line1, "|")[0])) == ToUpper(Trim(SplitOn(line2, "|")[0]))
    ensures ParseLine(line1) == ParseLine(line2)
  {
    var p1 := SplitOn(line1, "|");
    var p2 := SplitOn(line2, "|");
    assert |p1| == |p2|;
    assert |p1| >= 2 ==> p1[1] == p2[1];
    assert |p1| >= 3 ==> p1[2] == p2[2];
  }

  /**
   * A command written out as the single script line `NAME|a|b` parses back
   * to itself when its arguments hold no `|` (which would start a new field)
   * and no backslash (which would be read as an escape). This is the parse
   * of one line; the script-level split and trim are not applied.
   */
  lemma ParseRendered(op: Op, a: string, b: string)
    requires '|' !in a && '|' !in b && '\\' !in a && '\\' !in b
    ensures ParseLine(OpName(op) + "|" + a + "|" + b) == Ok(Command(op, a, Some(b)))
  {
    OperatorOfName(op);
    NoBarInName(op);
    SplitThree(OpName(op), a, b);
    ParseLineOk(OpName(op) + "|" + a + "|" + b, op, [OpName(op), a, b]);
  }

  /**
   * The operator is case-insensitive and may be padded with blanks: any
   * spelling whose letters match the name up to case, surrounded by white
   * space, parses like the name itself.
   */
  lemma OperatorSpelling(op: Op, spelling: string, pre: string, post: string, rest: string)
    requires |spelling| == |OpName(op)|
    requires forall i :: 0 <= i < |spelling| ==> spelling[i] == OpName(op)[i] || spelling[i] == LowerChar(OpName(op)[i])
    requires forall i :: 0 <= i < |pre| ==> pre[i] == ' '
    requires forall i :: 0 <= i < |post| ==> post[i] == ' '
    ensures ParseLine(pre + spelling + post + "|" + rest) == ParseLine(OpName(op) + "|" + rest)
  {
    var field := pre + spelling + post;
    OperatorOfName(op);
    NoBarInName(op);
    OpNameShape(op);
    SpellingHasNoBar(op, spelling, pre, post);
    SplitAtChar(field, '|', rest);
    assert field + "|" + rest == field + ['|'] + rest;
    SplitAtChar(OpName(op), '|', rest);
    assert OpName(op) + "|" + rest == OpName(op) + ['|'] + rest;
    SpelledOperator(op, spelling, pre, post);
    ParseLineSameFields(field + "|" + rest, OpName(op) + "|" + rest);
  }

  /** A padded spelling of an operator name holds no `|`. */
  lemma SpellingHasNoBar(op: Op, spelling: string, pre: string, post: string)
    requires |spelling| == |OpName(op)|
    requires forall i :: 0 <= i < |spelling| ==> spelling[i] == OpName(op)[i] || spelling[i] == LowerChar(OpName(op)[i])
    requires forall i :: 0 <= i < |pre| ==> pre[i] == ' '
    requires forall i :: 0 <= i < |post| ==> post[i] == ' '
    ensures '|' !in pre + spelling + post
  {
    var field := pre + spelling + post;
    OpNameShape(op);
    forall i | 0 <= i < |field|
      ensures field[i] != '|'
    {
      if i < |pre| {
        assert field[i] == pre[i];
      } else if i < |pre| + |spelling| {
        assert field[i] == spelling[i - |pre|];
      } else {
        assert field[i] == post[i - |pre| - |spelling|];
      }
    }
  }

  /** A padded spelling of an operator name reads as the name. */
  lemma SpelledOperator(op: Op, spelling: string, pre: string, post: string)
    requires |spelling| == |OpName(op)|
    requires forall i :: 0 <= i < |spelling| ==> spelling[i] == OpName(op)[i] || spelling[i] == LowerChar(OpName(op)[i])
    requires forall i :: 0 <= i < |pre| ==> pre[i] == ' '
    requires forall i :: 0 <= i < |post| ==> post[i] == ' '
    ensures ToUpper(Trim(pre + spelling + post)) == OpName(op)
  {
    OpNameShape(op);
    TrimPadded(pre, spelling, post);
    UpperIgnoresCase(spelling, OpName(op));
  }

  /** Trimming blanks around a word whose ends are not blank gives the word. */
  lemma TrimPadded(pre: string, word: string, post: string)
    requires word != [] && !IsWhiteSpace(word[0]) && !IsWhiteSpace(word[|word| - 1])
    requires forall i :: 0 <= i < |pre| ==> pre[i] == ' '
    requires forall i :: 0 <= i < |post| ==> post[i] == ' '
    ensures Trim(pre + word + post) == word
  {
    var s := pre + word + post;
    var lo, hi := |pre|, |pre| + |word|;
    var r := Trim(s);
    var a :| Surrounds(s, a, r);
    assert s[lo] == word[0] && s[hi - 1] == word[|word| - 1];
    NotAllWhiteSpace(s, lo);
    assert forall k :: 0 <= k < lo ==> IsWhiteSpace(s[k]);
    assert forall k :: hi <= k < |s| ==> IsWhiteSpace(s[k]);
    TrimBounds(s, a, r, lo, hi);
    assert s[lo..hi] == word;
  }

  /** The trimmed part is the stretch between the first and the last character that is not white space. */
  lemma TrimBounds(s: string, a: int, r: string, lo: int, hi: int)
    requires Surrounds(s, a, r) && r != [] && !IsWhiteSpace(r[0]) && !IsWhiteSpace(r[|r| - 1])
    requires 0 <= lo < hi <= |s| && !IsWhiteSpace(s[lo]) && !IsWhiteSpace(s[hi - 1])
    requires forall k :: 0 <= k < lo ==> IsWhiteSpace(s[k])
    requires forall k :: hi <= k < |s| ==> IsWhiteSpace(s[k])
    ensures a == lo && a + |r| == hi
  {
    var e := a + |r|;
    assert r[0] == s[a] && r[|r| - 1] == s[e - 1];
    WhitePrefixBound(s, a, lo);
    WhiteSuffixBound(s, e, hi - 1);
  }

  /** A character that is not white space lies after any all-white prefix. */
  lemma WhitePrefixBound(s: string, a: int, i: int)
    requires 0 <= a <= |s| && AllWhiteSpace(s[..a])
    requires 0 <= i < |s| && !IsWhiteSpace(s[i])
    ensures a <= i
  {
    AllWhiteSpaceAt(s[..a]);
  }

  /** A character that is not white space lies before any all-white suffix. */
  lemma WhiteSuffixBound(s: string, e: int, i: int)
    requires 0 <= e <= |s| && AllWhiteSpace(s[e..])
    requires 0 <= i < |s| && !IsWhiteSpace(s[i])
    ensures i < e
  {
    AllWhiteSpaceAt(s[e..]);
  }

  /** `APPEND_LINE` is none of the nine names. */
  lemma AppendLineUnknown()
    ensures LookupOp("APPEND_LINE") == None
  {
    var name := "APPEND_LINE";
    assert name[0] != 'F' && name[0] != 'L';
    assert forall op :: OpName(op)[0] == 'F' || OpName(op)[0] == 'L';
  }

  /** The `APPEND_LINE` spelling is not in the table, so a line using it is refused whatever follows. */
  lemma AppendLineRejected(rest: string)
    ensures ParseLine("APPEND_LINE|" + rest) == Err(UnknownCommand("APPEND_LINE"))
  {
    var line := "APPEND_LINE|" + rest;
    SplitAtChar("APPEND_LINE", '|', rest);
    assert line == "APPEND_LINE" + ['|'] + rest;
    AppendLineField();
    ParseLineUnknown(line);
  }

  /** The operator field `APPEND_LINE` reads as itself and names no operator. */
  lemma AppendLineField()
    ensures ToUpper(Trim("APPEND_LINE")) == "APPEND_LINE"
    ensures LookupOp("APPEND_LINE") == None
  {
    AppendLineUnknown();
    TrimmedUnchanged("APPEND_LINE");
    UpperUnchanged("APPEND_LINE");
  }

  /** A line whose operator field names no operator is refused with that field. */
  lemma ParseLineUnknown(line: string)
    requires LookupOp(ToUpper(Trim(SplitOn(line, "|")[0]))) == None
    ensures ParseLine(line) == Err(UnknownCommand(ToUpper(Trim(SplitOn(line, "|")[0]))))
  {
  }

  /**
   * The three replacements run in sequence, so a doubled backslash before
   * `n` does not protect it: the second backslash and the `n` are read as
   * an escape first.
   */
  lemma UnescapeDoubledBackslash()
    ensures UnescapeArg("\\\\n") == "\\\n"
  {
    var s := "\\\\n";
    assert s[..2][1] != "\\n"[1];
    assert IndexOf(s[1..], "\\n") == Some(0);
    assert IndexOf(s, "\\n") == Some(1);
    assert s[..1] == "\\" && s[3..] == "";
    assert SplitOn(s[3..], "\\n") == [""];
    assert Split(s, "\\n") == ["\\", ""];
    var s1 := "\\\n";
    assert ReplaceAll(s, "\\n", "\n") == s1;
    assert !OccursAt(s1, "\\t", 0) && !OccursAt(s1, "\\\\", 0);
    assert !Contains(s1, "\\t") && !Contains(s1, "\\\\");
    ReplaceAllWithoutMatch(s1, "\\t", "\t");
    ReplaceAllWithoutMatch(s1, "\\\\", "\\");
  }

}
