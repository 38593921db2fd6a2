/**
 * The JavaScript string primitives that the editing engine is built from:
 * `indexOf` / `includes`, `split` and `join` with a literal separator (and so
 * the split/join replace-all idiom), `trim`, `toUpperCase` / `toLowerCase`
 * as far as they matter here, and `split(/\r?\n/)`.
 *
 * A string is a sequence of characters; one character stands for one
 * UTF-16 code unit of the original.
 */
module JsStrings {
  import opened Wrappers

  // ---------------------------------------------------------------------------
  // Searching
  // ---------------------------------------------------------------------------

  /** `sub` occurs in `s` starting at index `k`. */
  predicate OccursAt(s: string, sub: string, k: int)
  {
    0 <= k && k + |sub| <= |s| && s[k..k + |sub|] == sub
  }

  /** An occurrence of `sub` at index k + 1 of `s` is one at index k of `s[1..]`. */
  lemma OccursAtTail(s: string, sub: string)
    requires s != []
    ensures forall k {:trigger OccursAt(s, sub, k)} :: 1 <= k ==>
              (OccursAt(s, sub, k) <==> OccursAt(s[1..], sub, k - 1))
  {
    forall k | 1 <= k
      ensures OccursAt(s, sub, k) <==> OccursAt(s[1..], sub, k - 1)
    {
      if k + |sub| <= |s| {
        SliceOfTail(s, k, k + |sub|);
      }
    }
  }

  /** A slice of `s[1..]` is the slice of `s` one further along. */
  lemma SliceOfTail(s: string, lo: nat, hi: nat)
    requires 1 <= lo <= hi <= |s|
    ensures s[1..][lo - 1..hi - 1] == s[lo..hi]
  {
    var a, b := s[1..][lo - 1..hi - 1], s[lo..hi];
    forall i | 0 <= i < |a|
      ensures a[i] == b[i]
    {
    }
  }

  /** `s.indexOf(sub)`: the leftmost occurrence of `sub` in `s`, if any. */
  function IndexOf(s: string, sub: string): (r: Option<nat>)
    ensures r.Some? ==> OccursAt(s, sub, r.value)
    ensures r.Some? ==> forall k :: 0 <= k < r.value ==> !OccursAt(s, sub, k)
    ensures r.None? ==> forall k :: !OccursAt(s, sub, k)
    decreases |s|
  {
    if |s| < |sub| then None
    else if s[..|sub|] == sub then Some(0)
    else
      OccursAtTail(s, sub);
      match IndexOf(s[1..], sub)
      case None => None
      case Some(k) => Some(k + 1)
  }

  /** `s.includes(sub)`. */
  function Contains(s: string, sub: string): (b: bool)
    ensures b <==> exists k :: OccursAt(s, sub, k)
  {
    IndexOf(s, sub).Some?
  }

  /** Occurrences in a prefix of `s` are occurrences in `s`, and those that fit in the prefix are in it. */
  lemma OccursInPrefix(s: string, sub: string, m: nat)
    requires m <= |s|
    ensures forall j :: OccursAt(s[..m], sub, j) <==> OccursAt(s, sub, j) && j + |sub| <= m
  {
    forall j
      ensures OccursAt(s[..m], sub, j) <==> OccursAt(s, sub, j) && j + |sub| <= m
    {
      if 0 <= j && j + |sub| <= m {
        assert s[..m][j..j + |sub|] == s[j..j + |sub|];
      }
    }
  }

  // ---------------------------------------------------------------------------
  // split and join
  // ---------------------------------------------------------------------------

  /** `s.split('')`: one string per character (nothing at all for ""). */
  function Chars(s: string): (parts: seq<string>)
    ensures |parts| == |s|
    ensures forall i :: 0 <= i < |s| ==> parts[i] == [s[i]]
  {
    seq(|s|, i requires 0 <= i < |s| => [s[i]])
  }

  /** `s.split(sep)` for a non-empty separator: cut at each leftmost, non-overlapping occurrence. */
  function SplitOn(s: string, sep: string): (parts: seq<string>)
    requires sep != []
    ensures |parts| >= 1
    decreases |s|
  {
    match IndexOf(s, sep)
    case None => [s]
    case Some(k) => [s[..k]] + SplitOn(s[k + |sep|..], sep)
  }

  /** A split by a non-empty separator has more than one piece exactly when the separator occurs. */
  lemma SplitOnCount(s: string, sep: string)
    requires sep != []
    ensures |SplitOn(s, sep)| == 1 <==> !Contains(s, sep)
  {
  }

  /** `s.split(sep)` with a string separator, the empty one included. */
  function Split(s: string, sep: string): seq<string>
  {
    if sep == [] then Chars(s) else SplitOn(s, sep)
  }

  /** `parts.join(sep)`. */
  function Join(parts: seq<string>, sep: string): string
  {
    if |parts| == 0 then ""
    else if |parts| == 1 then parts[0]
    else parts[0] + sep + Join(parts[1..], sep)
  }

  /** A join of two or more pieces ends with the separator and the last piece. */
  lemma {:induction false} JoinLast(parts: seq<string>, sep: string)
    requires |parts| >= 2
    ensures Join(parts, sep) == Join(parts[..|parts| - 1], sep) + sep + parts[|parts| - 1]
  {
    if |parts| > 2 {
      JoinLast(parts[1..], sep);
      assert parts[1..][..|parts| - 2] == parts[..|parts| - 1][1..];
    }
  }

  /** `s.split(pattern).join(replacement)`: every occurrence replaced, left to right. */
  function ReplaceAll(s: string, pattern: string, replacement: string): string
  {
    Join(Split(s, pattern), replacement)
  }

  /** Joining the pieces of a split with the same separator gives the string back. */
  lemma JoinSplit(s: string, sep: string)
    ensures Join(Split(s, sep), sep) == s
  {
    if sep == [] {
      JoinChars(s);
    } else {
      JoinSplitOn(s, sep);
    }
  }

  lemma {:induction false} JoinSplitOn(s: string, sep: string)
    requires sep != []
    ensures Join(SplitOn(s, sep), sep) == s
    decreases |s|
  {
    var r := IndexOf(s, sep);
    if r.Some? {
      var k := r.value;
      var rest := s[k + |sep|..];
      var tail := SplitOn(rest, sep);
      JoinSplitOn(rest, sep);
      assert SplitOn(s, sep) == [s[..k]] + tail;
      calc {
        Join(SplitOn(s, sep), sep);
        s[..k] + sep + Join(tail, sep);
        s[..k] + sep + rest;
        { assert s[k..k + |sep|] == sep; }
        s;
      }
    }
  }

  lemma {:induction false} JoinChars(s: string)
    ensures Join(Chars(s), []) == s
    decreases |s|
  {
    if |s| > 1 {
      assert Chars(s)[1..] == Chars(s[1..]);
      JoinChars(s[1..]);
      assert s == [s[0]] + s[1..];
    }
  }

  /** The first match of `sep` in `p + sep` is the one that was appended. */
  predicate FirstMatchAtEnd(p: string, sep: string)
  {
    IndexOf(p + sep, sep) == Some(|p|)
  }

  /**
   * The pieces of a split by a non-empty separator are exactly the text
   * between leftmost matches: each piece but the last is followed by the
   * first match of the rest of the string ...
   */
  lemma {:induction false} SplitOnPiece(s: string, sep: string, i: nat)
    requires sep != [] && i < |SplitOn(s, sep)| - 1
    ensures FirstMatchAtEnd(SplitOn(s, sep)[i], sep)
    decreases |s|
  {
    var k := IndexOf(s, sep).value;
    var rest := s[k + |sep|..];
    SplitOnFirst(s, sep, k);
    if i == 0 {
      FirstPieceAtEnd(s, sep, k);
    } else {
      SplitOnPiece(rest, sep, i - 1);
      assert SplitOn(s, sep)[i] == SplitOn(rest, sep)[i - 1];
    }
  }

  /** The text before the first match, followed by the separator, has its first match at the end. */
  lemma FirstPieceAtEnd(s: string, sep: string, k: nat)
    requires IndexOf(s, sep) == Some(k)
    ensures FirstMatchAtEnd(s[..k], sep)
  {
    var m := k + |sep|;
    assert s[k..m] == sep;
    assert s[..k] + sep == s[..m];
    OccursInPrefix(s, sep, m);
    assert OccursAt(s[..m], sep, k);
    assert forall i :: 0 <= i < k ==> !OccursAt(s, sep, i);
    IndexOfIsFirst(s[..m], sep, k);
  }

  /** ... and the last piece holds no match. */
  lemma {:induction false} SplitOnLast(s: string, sep: string)
    requires sep != []
    ensures !Contains(SplitOn(s, sep)[|SplitOn(s, sep)| - 1], sep)
    decreases |s|
  {
    match IndexOf(s, sep)
    case None =>
    case Some(k) =>
      var rest := s[k + |sep|..];
      assert SplitOn(s, sep) == [s[..k]] + SplitOn(rest, sep);
      SplitOnLast(rest, sep);
  }

  /** A non-empty separator that does not occur leaves the string in one piece. */
  lemma SplitWithoutMatch(s: string, sep: string)
    requires sep != [] && !Contains(s, sep)
    ensures Split(s, sep) == [s]
  {
  }

  /** A split cuts at the first match. */
  lemma SplitOnFirst(s: string, sep: string, k: nat)
    requires sep != [] && IndexOf(s, sep) == Some(k)
    ensures SplitOn(s, sep) == [s[..k]] + SplitOn(s[k + |sep|..], sep)
  {
  }

  /** An occurrence with none before it is the one `indexOf` finds. */
  lemma IndexOfIsFirst(s: string, sub: string, j: nat)
    requires OccursAt(s, sub, j)
    requires forall i :: 0 <= i < j ==> !OccursAt(s, sub, i)
    ensures IndexOf(s, sub) == Some(j)
  {
  }

  /** Three pieces joined. */
  lemma JoinThree(x: string, y: string, z: string, sep: string)
    ensures Join([x, y, z], sep) == x + sep + y + sep + z
  {
    assert [x, y, z][1..] == [y, z];
    assert [y, z][1..] == [z];
    assert Join([y, z], sep) == y + sep + z;
    assert x + sep + (y + sep + z) == x + sep + y + sep + z;
  }

  /** A pattern whose first character is absent from `s` does not occur in it. */
  lemma AbsentLead(s: string, pattern: string)
    requires pattern != [] && pattern[0] !in s
    ensures !Contains(s, pattern)
  {
    forall k | 0 <= k && k + |pattern| <= |s|
      ensures !OccursAt(s, pattern, k)
    {
      assert s[k..k + |pattern|][0] == s[k];
    }
  }

  /** Splitting on a one-character separator cuts at its first occurrence. */
  lemma SplitAtChar(x: string, c: char, y: string)
    requires c !in x
    ensures SplitOn(x + [c] + y, [c]) == [x] + SplitOn(y, [c])
  {
    var s := x + [c] + y;
    assert OccursAt(s, [c], |x|);
    forall k | 0 <= k < |x|
      ensures !OccursAt(s, [c], k)
    {
      assert s[k] == x[k];
    }
    assert IndexOf(s, [c]) == Some(|x|);
    assert s[..|x|] == x && s[|x| + 1..] == y;
    assert SplitOn(s, [c]) == [s[..|x|]] + SplitOn(s[|x| + 1..], [c]);
  }

  /** Total length of a list of strings. */
  function TotalLength(parts: seq<string>): nat
  {
    if parts == [] then 0 else |parts[0]| + TotalLength(parts[1..])
  }

  /** A join adds one separator between each pair of neighbouring pieces. */
  lemma {:induction false} JoinLength(parts: seq<string>, sep: string)
    requires |parts| > 0
    ensures |Join(parts, sep)| == TotalLength(parts) + (|parts| - 1) * |sep|
  {
    if |parts| > 1 {
      JoinLength(parts[1..], sep);
    }
  }

  /**
   * Replacing every occurrence of a non-empty pattern changes the length by
   * the difference of the two lengths once per occurrence; the number of
   * occurrences is the number of pieces less one.
   */
  lemma ReplaceAllLength(s: string, pattern: string, replacement: string)
    requires pattern != []
    ensures |ReplaceAll(s, pattern, replacement)|
         == |s| + (|Split(s, pattern)| - 1) * (|replacement| - |pattern|)
  {
    var parts := Split(s, pattern);
    var n := |parts| - 1;
    JoinSplit(s, pattern);
    JoinLength(parts, pattern);
    JoinLength(parts, replacement);
    assert n * (|replacement| - |pattern|) == n * |replacement| - n * |pattern|;
  }

  /** A pattern that does not occur leaves the string as it is. */
  lemma ReplaceAllWithoutMatch(s: string, pattern: string, replacement: string)
    requires pattern != [] && !Contains(s, pattern)
    ensures ReplaceAll(s, pattern, replacement) == s
  {
    SplitWithoutMatch(s, pattern);
  }

  /** Replacing a pattern by something no longer never makes the string longer. */
  lemma ReplaceNotLonger(s: string, pattern: string, replacement: string)
    requires pattern != [] && |replacement| <= |pattern|
    ensures |ReplaceAll(s, pattern, replacement)| <= |s|
  {
    ReplaceAllLength(s, pattern, replacement);
    var n := |SplitOn(s, pattern)| - 1;
    ScaleNonPositive(n, |replacement| - |pattern|);
  }

  lemma {:induction false} ScaleNonPositive(n: nat, d: int)
    requires d <= 0
    ensures n * d <= 0
  {
    if n > 0 {
      ScaleNonPositive(n - 1, d);
      assert n * d == (n - 1) * d + d;
    }
  }

  /** A pattern whose first character is absent leaves the string as it is. */
  lemma ReplaceAbsent(s: string, pattern: string, replacement: string)
    requires pattern != [] && pattern[0] !in s
    ensures ReplaceAll(s, pattern, replacement) == s
  {
    AbsentLead(s, pattern);
    ReplaceAllWithoutMatch(s, pattern, replacement);
  }

  /**
   * The empty pattern puts the replacement between every two characters:
   * the empty string and a single character come out unchanged, and a
   * longer string is its first character, the replacement, then the rest
   * treated alike.
   */
  lemma {:induction false} ReplaceEmptyPattern(s: string, replacement: string)
    ensures s == [] ==> ReplaceAll(s, "", replacement) == []
    ensures |s| == 1 ==> ReplaceAll(s, "", replacement) == s
    ensures |s| >= 2 ==> ReplaceAll(s, "", replacement) == [s[0]] + replacement + ReplaceAll(s[1..], "", replacement)
    ensures s != [] ==> |ReplaceAll(s, "", replacement)| == |s| + (|s| - 1) * |replacement|
  {
    assert Split(s, "") == Chars(s);
    if s != [] {
      JoinLength(Chars(s), replacement);
      TotalLengthChars(s);
    }
    if |s| == 1 {
      assert Chars(s) == [[s[0]]];
      assert [s[0]] == s;
    }
    if |s| > 1 {
      assert Chars(s)[1..] == Chars(s[1..]);
    }
  }

  lemma {:induction false} TotalLengthChars(s: string)
    ensures TotalLength(Chars(s)) == |s|
    decreases |s|
  {
    if s != [] {
      assert Chars(s)[1..] == Chars(s[1..]);
      TotalLengthChars(s[1..]);
    }
  }

  // ---------------------------------------------------------------------------
  // trim
  // ---------------------------------------------------------------------------

  /** The characters `String.prototype.trim` removes: ECMAScript WhiteSpace and LineTerminator. */
  predicate IsWhiteSpace(c: char)
  {
    || c == '\t' || c == '\n' || c == '\U{000B}' || c == '\U{000C}' || c == '\r' || c == ' '
    || c == '\U{00A0}' || c == '\U{1680}' || ('\U{2000}' <= c <= '\U{200A}')
    || c == '\U{2028}' || c == '\U{2029}' || c == '\U{202F}' || c == '\U{205F}'
    || c == '\U{3000}' || c == '\U{FEFF}'
  }

  /** Every character of `s` is white space. */
  predicate AllWhiteSpace(s: string)
  {
    s == [] || (IsWhiteSpace(s[0]) && AllWhiteSpace(s[1..]))
  }

  /** `AllWhiteSpace` character by character. */
  lemma {:induction false} AllWhiteSpaceAt(s: string)
    ensures AllWhiteSpace(s) <==> forall k :: 0 <= k < |s| ==> IsWhiteSpace(s[k])
  {
    if s != [] {
      AllWhiteSpaceAt(s[1..]);
      assert forall k :: 1 <= k < |s| ==> s[k] == s[1..][k - 1];
    }
  }

  /** The index of the first character at or after `i` that is not white space (or `|s|`). */
  function SkipSpace(s: string, i: nat): (j: nat)
    requires i <= |s|
    ensures i <= j <= |s|
    ensures AllWhiteSpace(s[i..j])
    ensures j < |s| ==> !IsWhiteSpace(s[j])
    decreases |s| - i
  {
    if i < |s| && IsWhiteSpace(s[i]) then
      var j := SkipSpace(s, i + 1);
      assert s[i..j][1..] == s[i + 1..j];
      j
    else i
  }

  /** The end of `s[lo..hi]` once its trailing white space is dropped. */
  function SkipSpaceBack(s: string, lo: nat, hi: nat): (j: nat)
    requires lo <= hi <= |s|
    ensures lo <= j <= hi
    ensures AllWhiteSpace(s[j..hi])
    ensures j > lo ==> !IsWhiteSpace(s[j - 1])
    decreases hi - lo
  {
    if lo < hi && IsWhiteSpace(s[hi - 1]) then
      var j := SkipSpaceBack(s, lo, hi - 1);
      WhiteSpaceSnoc(s[j..hi - 1], s[hi - 1]);
      assert s[j..hi] == s[j..hi - 1] + [s[hi - 1]];
      j
    else hi
  }

  /** White space followed by a white-space character is white space. */
  lemma {:induction false} WhiteSpaceSnoc(w: string, c: char)
    requires AllWhiteSpace(w) && IsWhiteSpace(c)
    ensures AllWhiteSpace(w + [c])
  {
    if w != [] {
      WhiteSpaceSnoc(w[1..], c);
      assert (w + [c])[1..] == w[1..] + [c];
    }
  }

  /** `s` is `r` with only white space before (`a` characters) and after it. */
  predicate Surrounds(s: string, a: int, r: string)
  {
    && 0 <= a <= |s| - |r| && r == s[a..a + |r|]
    && AllWhiteSpace(s[..a]) && AllWhiteSpace(s[a + |r|..])
  }

  /** `s.trim()`: the part of `s` between its leading and its trailing white space. */
  function Trim(s: string): (r: string)
    ensures exists a :: Surrounds(s, a, r)
    ensures r != [] ==> !IsWhiteSpace(r[0]) && !IsWhiteSpace(r[|r| - 1])
    ensures r == [] <==> AllWhiteSpace(s)
  {
    var a := SkipSpace(s, 0);
    var b := SkipSpaceBack(s, a, |s|);
    assert a < b ==> s[a..b][0] == s[a] && s[a..b][b - a - 1] == s[b - 1];
    assert s[..a] == s[0..a] && s[b..] == s[b..|s|];
    assert Surrounds(s, a, s[a..b]);
    if a == b then
      assert s == s[..a] + s[a..];
      WhiteSpaceConcat(s[..a], s[a..]);
      s[a..b]
    else
      NotAllWhiteSpace(s, a);
      s[a..b]
  }

  /** White space followed by white space is white space. */
  lemma {:induction false} WhiteSpaceConcat(x: string, y: string)
    requires AllWhiteSpace(x) && AllWhiteSpace(y)
    ensures AllWhiteSpace(x + y)
  {
    if x != [] {
      assert IsWhiteSpace(x[0]) && AllWhiteSpace(x[1..]);
      WhiteSpaceConcat(x[1..], y);
      assert (x + y)[0] == x[0];
      assert (x + y)[1..] == x[1..] + y;
    } else {
      assert x + y == y;
    }
  }

  /** A string with a character that is not white space is not all white space. */
  lemma {:induction false} NotAllWhiteSpace(s: string, i: nat)
    requires i < |s| && !IsWhiteSpace(s[i])
    ensures !AllWhiteSpace(s)
  {
    if i > 0 {
      NotAllWhiteSpace(s[1..], i - 1);
    }
  }

  /** A string without white space at either end is its own trim. */
  lemma TrimmedUnchanged(s: string)
    requires s != [] ==> !IsWhiteSpace(s[0]) && !IsWhiteSpace(s[|s| - 1])
    ensures Trim(s) == s
  {
    assert s[0..|s|] == s;
  }

  // ---------------------------------------------------------------------------
  // Case mapping
  // ---------------------------------------------------------------------------

  /**
   * `toUpperCase` of one character, as far as the result can be ASCII:
   * ASCII letters, the dotless i, the long s, the sharp s and the Latin
   * ligatures. Every other character is kept as it is.
   */
  function UpperChar(c: char): string
  {
    if 'a' <= c <= 'z' then [(c as int - 32) as char]
    else if c == '\U{0131}' then "I"
    else if c == '\U{017F}' then "S"
    else if c == '\U{00DF}' then "SS"
    else if c == '\U{FB00}' then "FF"
    else if c == '\U{FB01}' then "FI"
    else if c == '\U{FB02}' then "FL"
    else if c == '\U{FB03}' then "FFI"
    else if c == '\U{FB04}' then "FFL"
    else if c == '\U{FB05}' || c == '\U{FB06}' then "ST"
    else [c]
  }

  /** `s.toUpperCase()`: no lower-case ASCII letter is left. */
  function ToUpper(s: string): (r: string)
    ensures forall i :: 0 <= i < |r| ==> !('a' <= r[i] <= 'z')
  {
    if s == [] then [] else UpperChar(s[0]) + ToUpper(s[1..])
  }

  /** `toLowerCase` of one character, as far as the result can be ASCII: ASCII letters and the Kelvin sign. */
  function LowerChar(c: char): char
  {
    if 'A' <= c <= 'Z' then (c as int + 32) as char
    else if c == '\U{212A}' then 'k'
    else c
  }

  /**
   * `s.toLowerCase()`: one character for one, no upper-case ASCII letter is
   * left, a capital becomes its small letter, the Kelvin sign becomes `k`,
   * and nothing else changes.
   */
  function ToLower(s: string): (r: string)
    ensures |r| == |s|
    ensures forall i :: 0 <= i < |r| ==> !('A' <= r[i] <= 'Z')
    ensures forall i :: 0 <= i < |s| ==> r[i] == s[i] || 'A' <= s[i] <= 'Z' || s[i] == '\U{212A}'
    ensures forall i :: 0 <= i < |s| && 'A' <= s[i] <= 'Z' ==> r[i] as int == s[i] as int + 32
    ensures forall i :: 0 <= i < |s| && s[i] == '\U{212A}' ==> r[i] == 'k'
  {
    seq(|s|, i requires 0 <= i < |s| => LowerChar(s[i]))
  }

  /** Upper-casing leaves capitals, digits and `_` alone. */
  lemma {:induction false} UpperUnchanged(s: string)
    requires forall i :: 0 <= i < |s| ==> 'A' <= s[i] <= 'Z' || '0' <= s[i] <= '9' || s[i] == '_'
    ensures ToUpper(s) == s
  {
    if s != [] {
      UpperUnchanged(s[1..]);
    }
  }

  /** Upper-casing ignores the case of ASCII letters: any mix of cases of a capitalised word gives the word. */
  lemma {:induction false} UpperIgnoresCase(s: string, word: string)
    requires |s| == |word|
    requires forall i :: 0 <= i < |word| ==> 'A' <= word[i] <= 'Z' || word[i] == '_'
    requires forall i :: 0 <= i < |s| ==> s[i] == word[i] || s[i] == LowerChar(word[i])
    ensures ToUpper(s) == word
  {
    if s != [] {
      UpperIgnoresCase(s[1..], word[1..]);
      assert word == [word[0]] + word[1..];
    }
  }

  /** Lower-casing twice is lower-casing once. */
  lemma LowerIdempotent(s: string)
    ensures ToLower(ToLower(s)) == ToLower(s)
  {
  }

  // ---------------------------------------------------------------------------
  // Line splitting
  // ---------------------------------------------------------------------------

  /** `s` without one trailing carriage return. */
  function DropCR(s: string): string
  {
    if s != [] && s[|s| - 1] == '\r' then s[..|s| - 1] else s
  }

  /**
   * `s.split(/\r?\n/)`: cut at every line feed; a carriage return right
   * before a line feed belongs to the separator. A lone `\r` stays.
   */
  function SplitLines(s: string): (lines: seq<string>)
    ensures |lines| >= 1
  {
    LinesOf(SplitOn(s, "\n"))
  }

  /** The pieces of a split at `\n`, each but the last without its trailing carriage return. */
  function LinesOf(pieces: seq<string>): (lines: seq<string>)
    ensures |lines| == |pieces|
  {
    seq(|pieces|, i requires 0 <= i < |pieces| => if i < |pieces| - 1 then DropCR(pieces[i]) else pieces[i])
  }

  /** A piece followed by more pieces loses its carriage return. */
  lemma LinesOfCons(p: string, tail: seq<string>)
    requires |tail| >= 1
    ensures LinesOf([p] + tail) == [DropCR(p)] + LinesOf(tail)
  {
    var lines, want := LinesOf([p] + tail), [DropCR(p)] + LinesOf(tail);
    forall i | 0 <= i < |lines|
      ensures lines[i] == want[i]
    {
      if i > 0 {
        assert ([p] + tail)[i] == tail[i - 1];
      }
    }
  }

  /** No line of a split holds a line feed. */
  lemma SplitLinesNoLineFeed(s: string)
    ensures forall i :: 0 <= i < |SplitLines(s)| ==> '\n' !in SplitLines(s)[i]
  {
    var pieces, lines := SplitOn(s, "\n"), SplitLines(s);
    forall i | 0 <= i < |lines|
      ensures '\n' !in lines[i]
    {
      PieceNoLineFeed(s, i);
      var p := pieces[i];
      if i < |pieces| - 1 && p != [] && p[|p| - 1] == '\r' {
        assert lines[i] == p[..|p| - 1];
        assert forall c :: c in p[..|p| - 1] ==> c in p;
      }
    }
  }

  /** No piece of a split at `\n` holds a line feed. */
  lemma PieceNoLineFeed(s: string, i: nat)
    requires i < |SplitOn(s, "\n")|
    ensures '\n' !in SplitOn(s, "\n")[i]
  {
    var pieces := SplitOn(s, "\n");
    if '\n' in pieces[i] {
      var k :| 0 <= k < |pieces[i]| && pieces[i][k] == '\n';
      if i < |pieces| - 1 {
        SplitOnPiece(s, "\n", i);
        var q := pieces[i] + "\n";
        assert q[k..k + 1] == [q[k]] == "\n";
        assert OccursAt(q, "\n", k);
      } else {
        SplitOnLast(s, "\n");
        assert pieces[i][k..k + 1] == [pieces[i][k]] == "\n";
        assert OccursAt(pieces[i], "\n", k);
      }
    }
  }

  /** Text without carriage returns is rebuilt exactly by joining its lines with `\n`. */
  lemma SplitLinesJoin(s: string)
    requires '\r' !in s
    ensures Join(SplitLines(s), "\n") == s
  {
    var pieces := SplitOn(s, "\n");
    JoinSplit(s, "\n");
    forall i | 0 <= i < |pieces|
      ensures '\r' !in pieces[i]
    {
      JoinPieceIn(pieces, "\n", i);
    }
    assert SplitLines(s) == pieces;
  }

  /** Every character of a piece is a character of the join. */
  lemma {:induction false} JoinPieceIn(parts: seq<string>, sep: string, i: nat)
    requires i < |parts|
    ensures forall c :: c in parts[i] ==> c in Join(parts, sep)
  {
    if i > 0 {
      JoinPieceIn(parts[1..], sep, i - 1);
    }
  }
  /** A replacement at the first match: the text before it, the replacement, then the rest replaced. */
  lemma ReplaceAtFirst(s: string, pattern: string, replacement: string, k: nat)
    requires pattern != [] && IndexOf(s, pattern) == Some(k)
    ensures ReplaceAll(s, pattern, replacement)
         == s[..k] + replacement + ReplaceAll(s[k + |pattern|..], pattern, replacement)
  {
    var tail := SplitOn(s[k + |pattern|..], pattern);
    SplitOnFirst(s, pattern, k);
    assert ([s[..k]] + tail)[1..] == tail;
  }

  /** Text before the first match passes through a replacement unchanged. */
  lemma ReplaceAfterPrefix(x: string, y: string, pattern: string, replacement: string)
    requires pattern != []
    requires forall j :: 0 <= j < |x| ==> !OccursAt(x + y, pattern, j)
    ensures ReplaceAll(x + y, pattern, replacement) == x + ReplaceAll(y, pattern, replacement)
  {
    var s := x + y;
    var r := IndexOf(s, pattern);
    if r.None? {
      assert !Contains(y, pattern) by {
        OccursInSuffix(x, y, pattern);
        forall i | 0 <= i
          ensures !OccursAt(y, pattern, i)
        {
          assert !OccursAt(s, pattern, |x| + i);
        }
      }
      ReplaceAllWithoutMatch(s, pattern, replacement);
      ReplaceAllWithoutMatch(y, pattern, replacement);
    } else {
      var k := r.value;
      var i := k - |x|;
      assert i >= 0 && IndexOf(y, pattern) == Some(i) by {
        OccursInSuffix(x, y, pattern);
        assert |x| <= k;
        assert OccursAt(y, pattern, i);
        forall j | 0 <= j < i
          ensures !OccursAt(y, pattern, j)
        {
          assert !OccursAt(s, pattern, |x| + j);
        }
        IndexOfIsFirst(y, pattern, i);
      }
      ReplaceBothAtFirst(x, y, pattern, replacement, i);
    }
  }

  /** The step of `ReplaceAfterPrefix` when the first match of `x + y` is the first match of `y`. */
  lemma ReplaceBothAtFirst(x: string, y: string, pattern: string, replacement: string, i: nat)
    requires pattern != [] && IndexOf(x + y, pattern) == Some(|x| + i) && IndexOf(y, pattern) == Some(i)
    ensures ReplaceAll(x + y, pattern, replacement) == x + ReplaceAll(y, pattern, replacement)
  {
    var s, k := x + y, |x| + i;
    var tail := y[i + |pattern|..];
    ConcatSlices(x, y, i, i + |pattern|);
    assert s[..k] == x + y[..i] && s[k + |pattern|..] == tail;
    SameReplacedTail(s, y, pattern, replacement, k, i);
    ConcatAssoc(x, y[..i], replacement, ReplaceAll(tail, pattern, replacement));
  }

  /** Both replacements, each cut at its first match, share what follows the match. */
  lemma SameReplacedTail(s: string, y: string, pattern: string, replacement: string, k: nat, i: nat)
    requires pattern != [] && IndexOf(s, pattern) == Some(k) && IndexOf(y, pattern) == Some(i)
    requires s[k + |pattern|..] == y[i + |pattern|..]
    ensures ReplaceAll(s, pattern, replacement) == s[..k] + replacement + ReplaceAll(y[i + |pattern|..], pattern, replacement)
    ensures ReplaceAll(y, pattern, replacement) == y[..i] + replacement + ReplaceAll(y[i + |pattern|..], pattern, replacement)
  {
    ReplaceAtFirst(s, pattern, replacement, k);
    ReplaceAtFirst(y, pattern, replacement, i);
  }

  /** Concatenation regrouped. */
  lemma ConcatAssoc(a: string, b: string, c: string, d: string)
    ensures a + b + c + d == a + (b + c + d)
  {
  }

  /** Cutting `x + y` inside `y`. */
  lemma ConcatSlices(x: string, y: string, i: nat, j: nat)
    requires i <= j <= |y|
    ensures (x + y)[..|x| + i] == x + y[..i]
    ensures (x + y)[|x| + j..] == y[j..]
  {
    var s := x + y;
    var a, b := s[..|x| + i], x + y[..i];
    forall t | 0 <= t < |a|
      ensures a[t] == b[t]
    {
    }
    var c, d := s[|x| + j..], y[j..];
    forall t | 0 <= t < |c|
      ensures c[t] == d[t]
    {
    }
  }

  /** An occurrence in `y` at `i` is one in `x + y` at `|x| + i`. */
  lemma OccursInSuffix(x: string, y: string, sub: string)
    ensures forall i {:trigger OccursAt(y, sub, i)} :: 0 <= i ==> (OccursAt(y, sub, i) <==> OccursAt(x + y, sub, |x| + i))
  {
    forall i | 0 <= i
      ensures OccursAt(y, sub, i) <==> OccursAt(x + y, sub, |x| + i)
    {
      if i + |sub| <= |y| {
        SliceOfSuffix(x, y, i, i + |sub|);
      }
    }
  }

  /** A slice of `x + y` that lies in `y`. */
  lemma SliceOfSuffix(x: string, y: string, lo: nat, hi: nat)
    requires lo <= hi <= |y|
    ensures (x + y)[|x| + lo..|x| + hi] == y[lo..hi]
  {
    var a, b := (x + y)[|x| + lo..|x| + hi], y[lo..hi];
    forall i | 0 <= i < |a|
      ensures a[i] == b[i]
    {
    }
  }

  /** The lines of a text with a line feed at `k`: the first line, then the lines after it. */
  lemma SplitLinesFirst(s: string, k: nat)
    requires IndexOf(s, "\n") == Some(k)
    ensures SplitLines(s) == [DropCR(s[..k])] + SplitLines(s[k + 1..])
  {
    SplitOnFirst(s, "\n", k);
    LinesOfCons(s[..k], SplitOn(s[k + 1..], "\n"));
  }

  /** `\r\n` occurs in `s` at `j` exactly when a carriage return at `j` is followed by a line feed. */
  lemma OccursCRLF(s: string, j: int)
    ensures OccursAt(s, "\r\n", j) <==> 0 <= j && j + 1 < |s| && s[j] == '\r' && s[j + 1] == '\n'
  {
    if 0 <= j && j + 1 < |s| {
      assert s[j..j + 2][0] == s[j] && s[j..j + 2][1] == s[j + 1];
      if s[j] == '\r' && s[j + 1] == '\n' {
        assert s[j..j + 2] == "\r\n";
      }
    }
  }

  /** A line feed at `j` is an occurrence of `\n` there. */
  lemma OccursLF(s: string, j: int)
    requires 0 <= j < |s| && s[j] == '\n'
    ensures OccursAt(s, "\n", j)
  {
    assert s[j..j + 1] == "\n";
  }

  /**
   * Splitting at `\r?\n` and joining with `\n` replaces every `\r\n` by
   * `\n` and keeps everything else, a lone carriage return included.
   */
  lemma {:induction false} SplitLinesNormalises(s: string)
    ensures Join(SplitLines(s), "\n") == ReplaceAll(s, "\r\n", "\n")
    decreases |s|
  {
    match IndexOf(s, "\n")
    case None =>
      NormaliseWithoutLineFeed(s);
    case Some(k) =>
      var rest := s[k + 1..];
      SplitLinesFirst(s, k);
      SplitLinesNormalises(rest);
      JoinCons(DropCR(s[..k]), SplitLines(rest), "\n");
      NormaliseAtLineFeed(s, k);
  }

  /** Text without a line feed is one line, and holds no `\r\n` to replace. */
  lemma NormaliseWithoutLineFeed(s: string)
    requires IndexOf(s, "\n").None?
    ensures Join(SplitLines(s), "\n") == s
    ensures ReplaceAll(s, "\r\n", "\n") == s
  {
    forall j | 0 <= j
      ensures !OccursAt(s, "\r\n", j)
    {
      OccursCRLF(s, j);
      if j + 1 < |s| && s[j + 1] == '\n' {
        OccursLF(s, j + 1);
      }
    }
    ReplaceAllWithoutMatch(s, "\r\n", "\n");
  }

  /** Joining a first piece to at least one more. */
  lemma JoinCons(a: string, rest: seq<string>, sep: string)
    requires |rest| >= 1
    ensures Join([a] + rest, sep) == a + sep + Join(rest, sep)
  {
    assert ([a] + rest)[1..] == rest;
  }

  /** Up to the first line feed, `\r\n` normalisation drops one carriage return before it. */
  lemma NormaliseAtLineFeed(s: string, k: nat)
    requires IndexOf(s, "\n") == Some(k)
    ensures ReplaceAll(s, "\r\n", "\n") == DropCR(s[..k]) + "\n" + ReplaceAll(s[k + 1..], "\r\n", "\n")
  {
    assert s[k] == '\n' by { assert s[k..k + 1][0] == s[k]; }
    forall j | 0 <= j < k - 1
      ensures !OccursAt(s, "\r\n", j)
    {
      OccursCRLF(s, j);
      if s[j + 1] == '\n' {
        OccursLF(s, j + 1);
      }
    }
    if k > 0 && s[k - 1] == '\r' {
      NormaliseAtCRLF(s, k);
    } else {
      NormaliseAtLoneLF(s, k);
    }
  }

  /** A line ending `\r\n` whose carriage return starts the first match. */
  lemma NormaliseAtCRLF(s: string, k: nat)
    requires 0 < k < |s| && s[k - 1] == '\r' && s[k] == '\n'
    requires forall j :: 0 <= j < k - 1 ==> !OccursAt(s, "\r\n", j)
    ensures ReplaceAll(s, "\r\n", "\n") == DropCR(s[..k]) + "\n" + ReplaceAll(s[k + 1..], "\r\n", "\n")
  {
    OccursCRLF(s, k - 1);
    IndexOfIsFirst(s, "\r\n", k - 1);
    ReplaceAtFirst(s, "\r\n", "\n", k - 1);
    assert DropCR(s[..k]) == s[..k - 1];
  }

  /** A line ending `\n` without a carriage return before it: no match starts up to it. */
  lemma NormaliseAtLoneLF(s: string, k: nat)
    requires k < |s| && s[k] == '\n' && !(k > 0 && s[k - 1] == '\r')
    requires forall j :: 0 <= j < k - 1 ==> !OccursAt(s, "\r\n", j)
    ensures ReplaceAll(s, "\r\n", "\n") == DropCR(s[..k]) + "\n" + ReplaceAll(s[k + 1..], "\r\n", "\n")
  {
    var x, rest := s[..k + 1], s[k + 1..];
    assert x + rest == s;
    forall j | 0 <= j < |x|
      ensures !OccursAt(x + rest, "\r\n", j)
    {
      OccursCRLF(s, j);
    }
    ReplaceAfterPrefix(x, rest, "\r\n", "\n");
    assert x == DropCR(s[..k]) + "\n";
  }
}
