/**
 * The hex view's codec: `bufferToHexDump` renders bytes as lower-case
 * two-digit hex tokens separated by single spaces, together with an ASCII
 * rendering, and `hexDumpToBuffer` reads bytes back from any text by taking
 * its two-digit hex runs left to right.
 */
module HexCodec {
  import opened JsStrings

  /** An element of a `Uint8Array`. */
  type Byte = b: int | 0 <= b < 256

  /** A character of the class `[0-9a-fA-F]`. */
  predicate IsHexDigit(c: char)
  {
    '0' <= c <= '9' || 'a' <= c <= 'f' || 'A' <= c <= 'F'
  }

  /** The value of a hex digit, either case. */
  function DigitValue(c: char): (v: nat)
    requires IsHexDigit(c)
    ensures v < 16
  {
    if '0' <= c <= '9' then c as int - '0' as int
    else if 'a' <= c <= 'f' then c as int - 'a' as int + 10
    else c as int - 'A' as int + 10
  }

  /** The digit `Number.prototype.toString(16)` writes for `v`: lower case. */
  function LowerDigit(v: nat): (c: char)
    requires v < 16
    ensures IsHexDigit(c) && DigitValue(c) == v
    ensures '0' <= c <= '9' || 'a' <= c <= 'f'
  {
    if v < 10 then ('0' as int + v) as char else ('a' as int + v - 10) as char
  }

  /** `b.toString(16).padStart(2, '0')`: two lower-case digits that read back as `b`. */
  function ByteToHex(b: Byte): (t: string)
    ensures |t| == 2 && IsHexDigit(t[0]) && IsHexDigit(t[1])
    ensures 16 * DigitValue(t[0]) + DigitValue(t[1]) == b
    ensures forall c :: c in t ==> '0' <= c <= '9' || 'a' <= c <= 'f'
  {
    [LowerDigit(b / 16), LowerDigit(b % 16)]
  }

  /** `parseInt(t, 16)` for a token of two hex digits. */
  function ParseHexPair(t: string): Byte
    requires |t| == 2 && IsHexDigit(t[0]) && IsHexDigit(t[1])
  {
    16 * DigitValue(t[0]) + DigitValue(t[1])
  }

  /** The tokens `bufferToHexDump` joins: one per byte. */
  function HexTokens(bytes: seq<Byte>): (tokens: seq<string>)
    ensures |tokens| == |bytes|
  {
    seq(|bytes|, i requires 0 <= i < |bytes| => ByteToHex(bytes[i]))
  }

  /** The `hex` half of `bufferToHexDump(bytes)`. */
  function HexDump(bytes: seq<Byte>): string
  {
    Join(HexTokens(bytes), " ")
  }

  /** How `bufferToHexDump` shows one byte in its ASCII column. */
  function AsciiChar(b: Byte): char
  {
    if 32 <= b <= 126 then b as char else '.'
  }

  /** The `ascii` half of `bufferToHexDump(bytes)`. */
  function AsciiDump(bytes: seq<Byte>): (text: string)
    ensures |text| == |bytes|
  {
    seq(|bytes|, i requires 0 <= i < |bytes| => AsciiChar(bytes[i]))
  }

  /** `text.match(/[0-9a-fA-F]{2}/g) || []`: the two-digit runs, left to right, without overlap. */
  function HexMatches(s: string): (tokens: seq<string>)
    ensures forall i :: 0 <= i < |tokens| ==> |tokens[i]| == 2 && IsHexDigit(tokens[i][0]) && IsHexDigit(tokens[i][1])
    ensures 2 * |tokens| <= |s|
    decreases |s|
  {
    if |s| < 2 then []
    else if IsHexDigit(s[0]) && IsHexDigit(s[1]) then [s[..2]] + HexMatches(s[2..])
    else HexMatches(s[1..])
  }

  /** The bytes of `hexDumpToBuffer(s)`: one per match. */
  function DecodeHex(s: string): (bytes: seq<Byte>)
    ensures |bytes| == |HexMatches(s)|
  {
    var tokens := HexMatches(s);
    seq(|tokens|, i requires 0 <= i < |tokens| => ParseHexPair(tokens[i]))
  }

  // ---------------------------------------------------------------------------
  // The two operations as the source runs them
  // ---------------------------------------------------------------------------

  /** `bufferToHexDump`: one token and one ASCII character pushed per byte, then joined. */
  method BufferToHexDump(bytes: seq<Byte>) returns (hex: string, ascii: string)
    ensures hex == HexDump(bytes) && DecodeHex(hex) == bytes
    ensures |ascii| == |bytes|
    ensures forall i :: 0 <= i < |bytes| ==> ascii[i] == AsciiChar(bytes[i])
  {
    var hexParts: seq<string> := [];
    var asciiParts: string := [];
    for i := 0 to |bytes|
      invariant hexParts == HexTokens(bytes[..i])
      invariant |asciiParts| == i
      invariant forall k :: 0 <= k < i ==> asciiParts[k] == AsciiChar(bytes[k])
    {
      hexParts := hexParts + [ByteToHex(bytes[i])];
      var ch := bytes[i];
      asciiParts := asciiParts + [if 32 <= ch <= 126 then ch as char else '.'];
    }
    assert bytes[..|bytes|] == bytes;
    hex := Join(hexParts, " ");
    ascii := asciiParts;
    HexRoundTrip(bytes);
  }

  /** `hexDumpToBuffer`: the matches are parsed one by one into a fresh `Uint8Array`. */
  method HexDumpToBuffer(text: string) returns (bytes: seq<Byte>)
    ensures bytes == DecodeHex(text)
  {
    var tokens := HexMatches(text);
    var out := new Byte[|tokens|];
    for i := 0 to |tokens|
      invariant forall k :: 0 <= k < i ==> out[k] == ParseHexPair(tokens[k])
    {
      out[i] := ParseHexPair(tokens[i]);
    }
    bytes := out[..];
  }

  // ---------------------------------------------------------------------------
  // Properties
  // ---------------------------------------------------------------------------

  /** Decoding scans left to right: a leading pair of digits is one byte, anything else is skipped. */
  lemma DecodeStep(s: string)
    ensures DecodeHex(s) ==
      if |s| < 2 then []
      else if IsHexDigit(s[0]) && IsHexDigit(s[1]) then [16 * DigitValue(s[0]) + DigitValue(s[1])] + DecodeHex(s[2..])
      else DecodeHex(s[1..])
  {
    if |s| >= 2 && IsHexDigit(s[0]) && IsHexDigit(s[1]) {
      var m := HexMatches(s[2..]);
      assert HexMatches(s) == [s[..2]] + m;
      var d := DecodeHex(s);
      assert d[0] == 16 * DigitValue(s[0]) + DigitValue(s[1]);
      assert d[1..] == DecodeHex(s[2..]);
    }
  }

  /** Reading the dump of any bytes gives those bytes back. */
  lemma {:induction false} HexRoundTrip(bytes: seq<Byte>)
    ensures DecodeHex(HexDump(bytes)) == bytes
    decreases |bytes|
  {
    if bytes != [] {
      var t := ByteToHex(bytes[0]);
      var d := HexDump(bytes);
      if |bytes| == 1 {
        assert d == t;
        DecodeStep(d);
        DecodeStep(d[2..]);
      } else {
        var rest := HexDump(bytes[1..]);
        assert HexTokens(bytes)[1..] == HexTokens(bytes[1..]);
        assert d == t + ([' '] + rest);
        DecodeStep(d);
        assert d[2..] == [' '] + rest;
        DecodeStep(d[2..]);
        assert d[2..][1..] == rest;
        HexRoundTrip(bytes[1..]);
        assert bytes == [bytes[0]] + bytes[1..];
      }
    }
  }

  /**
   * Layout of the dump: `3n - 1` characters for `n > 0` bytes (none for
   * none), byte i written at 3i, 3i + 1 and a single space after each token
   * but the last.
   */
  lemma {:induction false} HexDumpLayout(bytes: seq<Byte>)
    ensures |HexDump(bytes)| == if bytes == [] then 0 else 3 * |bytes| - 1
    ensures forall i :: 0 <= i < |bytes| ==> HexDump(bytes)[3 * i..3 * i + 2] == ByteToHex(bytes[i])
    ensures forall i :: 0 <= i < |bytes| - 1 ==> HexDump(bytes)[3 * i + 2] == ' '
    decreases |bytes|
  {
    if |bytes| > 1 {
      var t := ByteToHex(bytes[0]);
      var rest := HexDump(bytes[1..]);
      assert HexTokens(bytes)[1..] == HexTokens(bytes[1..]);
      var d := HexDump(bytes);
      assert d == t + " " + rest;
      HexDumpLayout(bytes[1..]);
      forall i | 1 <= i < |bytes|
        ensures d[3 * i..3 * i + 2] == ByteToHex(bytes[i])
      {
        assert d[3 * i..3 * i + 2] == rest[3 * (i - 1)..3 * (i - 1) + 2];
        assert bytes[1..][i - 1] == bytes[i];
      }
      forall i | 1 <= i < |bytes| - 1
        ensures d[3 * i + 2] == ' '
      {
        assert d[3 * i + 2] == rest[3 * (i - 1) + 2];
      }
    }
  }

  /** A character that is not a hex digit separates: the text on either side of it is decoded on its own. */
  lemma {:induction false} DecodeAcrossSeparator(x: string, c: char, y: string)
    requires !IsHexDigit(c)
    ensures DecodeHex(x + [c] + y) == DecodeHex(x) + DecodeHex(y)
    decreases |x|
  {
    var z := x + [c] + y;
    if |x| == 0 {
      assert z == [c] + y;
      SkipNonHex(c, y);
    } else if |x| == 1 {
      assert z[1] == c && z[1..] == [c] + y;
      DecodeSkip(z);
      DecodeStep(x);
      SkipNonHex(c, y);
    } else if IsHexDigit(x[0]) && IsHexDigit(x[1]) {
      assert z[0] == x[0] && z[1] == x[1];
      assert z[2..] == x[2..] + [c] + y;
      DecodePair(z);
      DecodePair(x);
      DecodeAcrossSeparator(x[2..], c, y);
      Regroup([16 * DigitValue(x[0]) + DigitValue(x[1])], DecodeHex(x[2..]), DecodeHex(y));
    } else {
      assert z[0] == x[0] && z[1] == x[1];
      assert z[1..] == x[1..] + [c] + y;
      DecodeSkip(z);
      DecodeSkip(x);
      DecodeAcrossSeparator(x[1..], c, y);
    }
  }

  /** Byte sequences regrouped. */
  lemma Regroup(a: seq<Byte>, b: seq<Byte>, c: seq<Byte>)
    ensures a + (b + c) == a + b + c
  {
  }

  /** A leading pair of hex digits is the first byte. */
  lemma DecodePair(s: string)
    requires |s| >= 2 && IsHexDigit(s[0]) && IsHexDigit(s[1])
    ensures DecodeHex(s) == [16 * DigitValue(s[0]) + DigitValue(s[1])] + DecodeHex(s[2..])
  {
    DecodeStep(s);
  }

  /** A leading character that does not start a pair is skipped. */
  lemma DecodeSkip(s: string)
    requires |s| >= 2 && !(IsHexDigit(s[0]) && IsHexDigit(s[1]))
    ensures DecodeHex(s) == DecodeHex(s[1..])
  {
    DecodeStep(s);
  }

  /** A leading character that is not a hex digit is skipped. */
  lemma SkipNonHex(c: char, y: string)
    requires !IsHexDigit(c)
    ensures DecodeHex([c] + y) == DecodeHex(y)
  {
    DecodeStep([c] + y);
    assert ([c] + y)[1..] == y;
    if y == [] {
      DecodeStep(y);
    }
  }

  /** Within an unbroken run of hex digits, byte i is digits 2i and 2i + 1; an odd last digit is dropped. */
  lemma {:induction false} DecodeRun(r: string)
    requires forall k :: 0 <= k < |r| ==> IsHexDigit(r[k])
    ensures |DecodeHex(r)| == |r| / 2
    ensures forall i :: 0 <= i < |r| / 2 ==> DecodeHex(r)[i] == 16 * DigitValue(r[2 * i]) + DigitValue(r[2 * i + 1])
    decreases |r|
  {
    DecodeStep(r);
    if |r| >= 2 {
      DecodeRun(r[2..]);
      forall i | 1 <= i < |r| / 2
        ensures DecodeHex(r)[i] == 16 * DigitValue(r[2 * i]) + DigitValue(r[2 * i + 1])
      {
        assert r[2..][2 * (i - 1)] == r[2 * i] && r[2..][2 * (i - 1) + 1] == r[2 * i + 1];
      }
    }
  }

  /** Case does not matter when decoding. */
  lemma {:induction false} DecodeIgnoresCase(s: string)
    ensures DecodeHex(ToLower(s)) == DecodeHex(s)
    decreases |s|
  {
    var l := ToLower(s);
    if |s| < 2 {
      DecodeStep(s);
      DecodeStep(l);
    } else {
      LowerHex(s[0]);
      LowerHex(s[1]);
      assert l[0] == LowerChar(s[0]) && l[1] == LowerChar(s[1]);
      if IsHexDigit(s[0]) && IsHexDigit(s[1]) {
        DecodePair(s);
        DecodePair(l);
        assert l[2..] == ToLower(s[2..]);
        DecodeIgnoresCase(s[2..]);
      } else {
        DecodeSkip(s);
        DecodeSkip(l);
        assert l[1..] == ToLower(s[1..]);
        DecodeIgnoresCase(s[1..]);
      }
    }
  }

  /** Lower-casing keeps hex digits hex digits, with the same value, and adds none. */
  lemma LowerHex(c: char)
    ensures IsHexDigit(LowerChar(c)) <==> IsHexDigit(c)
    ensures IsHexDigit(c) ==> DigitValue(LowerChar(c)) == DigitValue(c)
  {
  }

  /**
   * The ASCII column shows a byte as itself exactly when it is printable
   * (32 to 126), and only printable characters appear in it.
   */
  lemma AsciiDumpFaithful(bytes: seq<Byte>)
    ensures forall i :: 0 <= i < |bytes| ==> (AsciiDump(bytes)[i] as int == bytes[i] <==> 32 <= bytes[i] <= 126)
    ensures forall i :: 0 <= i < |bytes| ==> 32 <= AsciiDump(bytes)[i] as int <= 126
  {
  }
}
