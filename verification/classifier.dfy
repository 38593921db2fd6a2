/**
 * The text classifier of the bulk run: a file is edited only when its
 * extension is on the text allowlist and its first 4096 bytes hold no zero
 * byte (`isLikelyText`); `isSupportedTextExt` is the extension half of that
 * gate, with a denylist of binary formats consulted first.
 */
module Classifier {
  import opened JsStrings
  import opened HexCodec

  /** The extensions `isLikelyText` accepts. */
  const TextExtensions: set<string> := {
    "txt", "md", "json", "js", "ts", "jsx", "tsx", "css", "scss", "html", "xml", "yml", "yaml",
    "csv", "ini", "conf", "py", "rb", "go", "rs", "c", "h", "cpp", "hpp", "java", "sh"
  }

  /** `skipByExt`: the extensions `isSupportedTextExt` rejects before anything else. */
  const SkippedExtensions: set<string> := {
    "doc", "docx", "pdf", "png", "jpg", "jpeg", "gif", "webp", "bmp", "tiff", "zip", "rar", "7z",
    "gz", "bz2", "xz", "tar", "iso", "mp3", "mp4", "mov", "avi", "mkv", "wav", "flac", "ogg",
    "woff", "woff2", "ttf", "eot"
  }

  /** `whitelist.has(ext)`. */
  predicate IsTextExtension(ext: string)
  {
    ext in TextExtensions
  }

  /** How many leading bytes the zero-byte scan looks at. */
  const ScanLimit: nat := 4096

  /**
   * `(name.split('.').pop() || '').toLowerCase()`: what follows the last
   * dot, lower-cased; a name without a dot is its own extension.
   */
  function Extension(name: string): (ext: string)
    ensures '.' !in name ==> ext == ToLower(name)
    ensures forall k :: 0 <= k < |name| && name[k] == '.' && '.' !in name[k + 1..] ==> ext == ToLower(name[k + 1..])
  {
    var parts := Split(name, ".");
    LastPieceAfterLastDot(name);
    ToLower(parts[|parts| - 1])
  }

  /** The last piece of a split on "." is the text after the last dot, or the whole name. */
  lemma LastPieceAfterLastDot(name: string)
    ensures var parts := Split(name, ".");
      && ('.' !in name ==> parts[|parts| - 1] == name)
      && forall k :: 0 <= k < |name| && name[k] == '.' && '.' !in name[k + 1..] ==> parts[|parts| - 1] == name[k + 1..]
  {
    var parts := SplitOn(name, ".");
    SplitOnLast(name, ".");
    JoinSplit(name, ".");
    if |parts| == 1 {
      NoDotInPiece(parts[0]);
    } else {
      JoinLast(parts, ".");
      var front := Join(parts[..|parts| - 1], ".");
      LastPieceAfterDot(name, front, parts[|parts| - 1]);
    }
  }

  lemma NoDotInPiece(piece: string)
    requires !Contains(piece, ".")
    ensures '.' !in piece
  {
    if '.' in piece {
      var k :| 0 <= k < |piece| && piece[k] == '.';
      assert OccursAt(piece, ".", k);
    }
  }

  lemma LastPieceAfterDot(name: string, front: string, last: string)
    requires name == front + "." + last && !Contains(last, ".")
    ensures forall k :: 0 <= k < |name| && name[k] == '.' && '.' !in name[k + 1..] ==> last == name[k + 1..]
  {
    assert name[|front| + 1..] == last;
    NoDotInPiece(last);
    forall k | 0 <= k < |name| && name[k] == '.' && '.' !in name[k + 1..]
      ensures name[k + 1..] == last
    {
      LastDotUnique(name, k, |front|);
    }
  }

  /** A string has at most one dot with no dot after it. */
  lemma LastDotUnique(s: string, i: int, j: int)
    requires 0 <= i < |s| && s[i] == '.' && '.' !in s[i + 1..]
    requires 0 <= j < |s| && s[j] == '.' && '.' !in s[j + 1..]
    ensures i == j
  {
  }

  /**
   * The extension ignores case: two names that lower-case alike, such as
   * `a.TXT` and `A.txt`, have the same extension.
   */
  lemma ExtensionIgnoresCase(a: string, b: string)
    requires ToLower(a) == ToLower(b)
    ensures Extension(a) == Extension(b)
  {
    var la := ToLower(a);
    assert forall i :: 0 <= i < |a| ==> (a[i] == '.' <==> la[i] == '.');
    assert forall i :: 0 <= i < |b| ==> (b[i] == '.' <==> la[i] == '.');
    if '.' in a {
      var k := LastDot(a);
      assert b[k] == '.';
      assert '.' !in b[k + 1..] by {
        forall j | k + 1 <= j < |b|
          ensures b[j] != '.'
        {
          assert a[j] == a[k + 1..][j - k - 1];
        }
      }
      LowerSuffix(a, k + 1);
      LowerSuffix(b, k + 1);
    } else {
      assert '.' !in b by {
        forall j | 0 <= j < |b|
          ensures b[j] != '.'
        {
          assert a[j] != '.';
        }
      }
    }
  }

  /** The index of the last dot of a name that holds one. */
  function LastDot(s: string): (k: nat)
    requires '.' in s
    ensures k < |s| && s[k] == '.' && '.' !in s[k + 1..]
  {
    if s[|s| - 1] == '.' then |s| - 1
    else
      var k := LastDot(s[..|s| - 1]);
      assert s[k + 1..] == s[..|s| - 1][k + 1..] + [s[|s| - 1]];
      k
  }

  /** Lower-casing commutes with taking a suffix. */
  lemma LowerSuffix(s: string, k: nat)
    requires k <= |s|
    ensures ToLower(s[k..]) == ToLower(s)[k..]
  {
  }

  /** Whether the name's extension is on the allowlist. */
  predicate HasTextExtension(name: string)
  {
    IsTextExtension(Extension(name))
  }

  /** The zero-byte heuristic: none of the first `ScanLimit` bytes is zero. */
  predicate NoZeroInHead(buf: seq<Byte>)
  {
    forall i :: 0 <= i < |buf| && i < ScanLimit ==> buf[i] != 0
  }

  /** `isLikelyText(name, buf)`: the extension check, then a scan of the first bytes that stops at a zero. */
  method IsLikelyText(name: string, buf: seq<Byte>) returns (likely: bool)
    ensures likely <==> IsTextExtension(Extension(name)) && NoZeroInHead(buf)
  {
    var isText := HasTextExtension(name);
    if !isText {
      return false;
    }
    likely := ScanHead(buf);
  }

  /** The scan of `isLikelyText`: look at the first bytes and stop at a zero. */
  method ScanHead(buf: seq<Byte>) returns (clean: bool)
    ensures clean <==> NoZeroInHead(buf)
  {
    var len := if |buf| < ScanLimit then |buf| else ScanLimit;
    for i := 0 to len
      invariant forall k :: 0 <= k < i ==> buf[k] != 0
    {
      if buf[i] == 0 {
        return false;
      }
    }
    return true;
  }

  /** No extension is on both lists. */
  lemma ListsDisjoint(ext: string)
    requires ext in SkippedExtensions
    ensures !IsTextExtension(ext)
  {
    if ext in {"doc", "docx", "pdf", "png", "jpg", "jpeg", "gif", "webp", "bmp", "tiff"} {
      ImagesAndDocumentsNotText(ext);
    } else if ext in {"zip", "rar", "7z", "gz", "bz2", "xz", "tar", "iso"} {
      ArchivesNotText(ext);
    } else {
      MediaAndFontsNotText(ext);
    }
  }

  lemma ImagesAndDocumentsNotText(ext: string)
    requires ext in {"doc", "docx", "pdf", "png", "jpg", "jpeg", "gif", "webp", "bmp", "tiff"}
    ensures !IsTextExtension(ext)
  {
  }

  lemma ArchivesNotText(ext: string)
    requires ext in {"zip", "rar", "7z", "gz", "bz2", "xz", "tar", "iso"}
    ensures !IsTextExtension(ext)
  {
  }

  lemma MediaAndFontsNotText(ext: string)
    requires ext in {"mp3", "mp4", "mov", "avi", "mkv", "wav", "flac", "ogg", "woff", "woff2", "ttf", "eot"}
    ensures !IsTextExtension(ext)
  {
  }

  /**
   * `isSupportedTextExt(name)`: denied extensions are refused, otherwise the
   * classifier is asked about a one-byte buffer holding `A`. Since the two
   * lists are disjoint this is exactly the allowlist.
   */
  method IsSupportedTextExt(name: string) returns (supported: bool)
    ensures supported <==> IsTextExtension(Extension(name))
  {
    var ext := Extension(name);
    if ext in SkippedExtensions {
      ListsDisjoint(ext);
      return false;
    }
    supported := IsLikelyText(name, [65]);
  }

  /**
   * The per-file gate of the bulk run, `!isSupportedTextExt(name) ||
   * !isLikelyText(name, buf)` negated: the extension pre-check adds nothing
   * to the classifier.
   */
  method IsEligible(name: string, buf: seq<Byte>) returns (eligible: bool)
    ensures eligible <==> IsTextExtension(Extension(name)) && NoZeroInHead(buf)
  {
    var supported := IsSupportedTextExt(name);
    if !supported {
      return false;
    }
    eligible := IsLikelyText(name, buf);
  }
}
