/** The magic-number classifier (`detect_file_signature`) and the signature
    verdict of `check_signature`: the declared extension of a path compared
    with the format the file's leading bytes reveal. */
module Signature {
  import opened Common

  /** The formats the classifier recognises; `None` stands for "unknown". */
  datatype Format = Jpg | Png | Gif | Bmp | Tiff

  /** The string the source returns for each format, which is compared
      verbatim with the declared extension. */
  function Extension(f: Format): (e: string)
    ensures '.' !in e && e != []
  {
    match f
    case Jpg => "jpg"
    case Png => "png"
    case Gif => "gif"
    case Bmp => "bmp"
    case Tiff => "tiff"
  }

  lemma ExtensionInjective(f: Format, g: Format)
    ensures Extension(f) == Extension(g) <==> f == g
  {
  }

  // The byte patterns of the source, in its order.
  const JpegMagic: seq<byte> := [0xFF, 0xD8, 0xFF]
  const PngMagic: seq<byte> := [0x89, 0x50, 0x4E, 0x47, 0x0D, 0x0A, 0x1A, 0x0A]
  const Gif87aMagic: seq<byte> := [0x47, 0x49, 0x46, 0x38, 0x37, 0x61]
  const Gif89aMagic: seq<byte> := [0x47, 0x49, 0x46, 0x38, 0x39, 0x61]
  const BmpMagic: seq<byte> := [0x42, 0x4D]
  const TiffLeMagic: seq<byte> := [0x49, 0x49, 0x2A, 0x00]
  const TiffBeMagic: seq<byte> := [0x4D, 0x4D, 0x00, 0x2A]

  /** How many bytes the source reads from the file before classifying. */
  const HeaderSize: nat := 10

  /** The patterns that identify each format. */
  function Magics(f: Format): seq<seq<byte>>
  {
    match f
    case Jpg => [JpegMagic]
    case Png => [PngMagic]
    case Gif => [Gif87aMagic, Gif89aMagic]
    case Bmp => [BmpMagic]
    case Tiff => [TiffLeMagic, TiffBeMagic]
  }

  /** Order-independent reference: the content starts with one of the
      patterns of format `f`. */
  predicate Matches(content: seq<byte>, f: Format)
  {
    exists i :: 0 <= i < |Magics(f)| && StartsWith(content, Magics(f)[i])
  }

  /** The source's chain of slice comparisons on the header, first match
      wins. */
  function ClassifyHeader(header: seq<byte>): (r: Option<Format>)
    ensures r == Some(Jpg) <==> StartsWith(header, JpegMagic)
    ensures r.Some? ==> |header| >= |BmpMagic|
  {
    TakeEqualsIffStartsWith(header, JpegMagic);
    if Take(header, 3) == JpegMagic then Some(Jpg)
    else if Take(header, 8) == PngMagic then Some(Png)
    else if Take(header, 6) in [Gif87aMagic, Gif89aMagic] then Some(Gif)
    else if Take(header, 2) == BmpMagic then Some(Bmp)
    else if Take(header, 4) in [TiffLeMagic, TiffBeMagic] then Some(Tiff)
    else None
  }

  /** The classifier: the first `HeaderSize` bytes, classified by the
      chain. The result is `Some(f)` exactly when the content starts with one
      of `f`'s patterns, so the order of the chain does not matter. */
  function DetectFileSignature(content: seq<byte>): (r: Option<Format>)
    ensures forall f :: r == Some(f) <==> Matches(content, f)
    ensures r == None <==> forall f :: !Matches(content, f)
  {
    ClassifierAgreesWithMatches(content);
    ClassifyHeader(Take(content, HeaderSize))
  }

  /** The header is long enough for every pattern, so testing it is the
      same as testing the whole content. */
  lemma HeaderStartsWith(content: seq<byte>, p: seq<byte>)
    requires |p| <= HeaderSize
    ensures StartsWith(Take(content, HeaderSize), p) <==> StartsWith(content, p)
  {
  }

  /** Helper for DetectFileSignature: the slice tests agree with Matches. */
  lemma ClassifierAgreesWithMatches(content: seq<byte>)
    ensures forall f :: ClassifyHeader(Take(content, HeaderSize)) == Some(f) <==> Matches(content, f)
    ensures ClassifyHeader(Take(content, HeaderSize)) == None <==> forall f :: !Matches(content, f)
  {
    var header := Take(content, HeaderSize);
    var all := [JpegMagic, PngMagic, Gif87aMagic, Gif89aMagic, BmpMagic, TiffLeMagic, TiffBeMagic];
    forall i | 0 <= i < |all|
      ensures Take(header, |all[i]|) == all[i] <==> StartsWith(content, all[i])
    {
      TakeEqualsIffStartsWith(header, all[i]);
      HeaderStartsWith(content, all[i]);
    }
    assert ClassifyHeader(header) ==
      if StartsWith(content, JpegMagic) then Some(Jpg)
      else if StartsWith(content, PngMagic) then Some(Png)
      else if StartsWith(content, Gif87aMagic) || StartsWith(content, Gif89aMagic) then Some(Gif)
      else if StartsWith(content, BmpMagic) then Some(Bmp)
      else if StartsWith(content, TiffLeMagic) || StartsWith(content, TiffBeMagic) then Some(Tiff)
      else None
    by {
      assert all[0] == JpegMagic && all[1] == PngMagic && all[2] == Gif87aMagic;
      assert all[3] == Gif89aMagic && all[4] == BmpMagic && all[5] == TiffLeMagic && all[6] == TiffBeMagic;
    }
    MatchesUnfold(content, Jpg);
    MatchesUnfold(content, Png);
    MatchesUnfold(content, Gif);
    MatchesUnfold(content, Bmp);
    MatchesUnfold(content, Tiff);
    forall f, g | Matches(content, f) && Matches(content, g)
      ensures f == g
    {
      MagicsExclusive(content, f, g);
    }
    forall f
      ensures ClassifyHeader(header) == Some(f) <==> Matches(content, f)
    {
      MatchesUnfold(content, f);
    }
  }

  lemma MatchesUnfold(content: seq<byte>, f: Format)
    ensures Matches(content, f) <==>
      match f
      case Jpg => StartsWith(content, JpegMagic)
      case Png => StartsWith(content, PngMagic)
      case Gif => StartsWith(content, Gif87aMagic) || StartsWith(content, Gif89aMagic)
      case Bmp => StartsWith(content, BmpMagic)
      case Tiff => StartsWith(content, TiffLeMagic) || StartsWith(content, TiffBeMagic)
  {
    var ms := Magics(f);
    if f.Gif? || f.Tiff? {
      assert |ms| == 2;
      if StartsWith(content, ms[0]) || StartsWith(content, ms[1]) {
        var i := if StartsWith(content, ms[0]) then 0 else 1;
        assert StartsWith(content, ms[i]);
      }
    } else {
      assert |ms| == 1;
      if StartsWith(content, ms[0]) {
        assert StartsWith(content, ms[0]);
      }
    }
  }

  /** The patterns of different formats begin with different bytes, so no
      content matches two formats. */
  lemma MagicsExclusive(content: seq<byte>, f: Format, g: Format)
    requires Matches(content, f) && Matches(content, g)
    ensures f == g
  {
    var i :| 0 <= i < |Magics(f)| && StartsWith(content, Magics(f)[i]);
    var j :| 0 <= j < |Magics(g)| && StartsWith(content, Magics(g)[j]);
    assert Magics(f)[i][0] == content[0] == Magics(g)[j][0];
  }

  /** The classifier reads no further than the first 8 bytes. */
  lemma DetectLooksAtEightBytes(a: seq<byte>, b: seq<byte>)
    requires Take(a, 8) == Take(b, 8)
    ensures DetectFileSignature(a) == DetectFileSignature(b)
  {
    forall f, p | p in Magics(f)
      ensures StartsWith(a, p) <==> StartsWith(b, p)
    {
      assert |p| <= 8;
      if |a| >= 8 { assert a[..|p|] == a[..8][..|p|]; }
      if |b| >= 8 { assert b[..|p|] == b[..8][..|p|]; }
    }
    forall f
      ensures Matches(a, f) <==> Matches(b, f)
    {
      if Matches(a, f) {
        var i :| 0 <= i < |Magics(f)| && StartsWith(a, Magics(f)[i]);
        assert Magics(f)[i] in Magics(f);
      }
      if Matches(b, f) {
        var i :| 0 <= i < |Magics(f)| && StartsWith(b, Magics(f)[i]);
        assert Magics(f)[i] in Magics(f);
      }
    }
  }

  /** An empty file is not recognised. */
  lemma EmptyFileIsUnknown()
    ensures DetectFileSignature([]) == None
  {
  }

  /** A single byte cannot complete any pattern: every pattern has at least
      two bytes. */
  lemma OneByteIsUnknown(b: byte)
    ensures DetectFileSignature([b]) == None
  {
  }

  // ---------------------------------------------------------------------
  // The declared extension: `path.split('.')[-1].lower()`

  /** Python's `s.split(sep)`: the pieces between occurrences of `sep`;
      always at least one piece, none containing `sep`. */
  function Split(s: string, sep: char): (parts: seq<string>)
    ensures |parts| >= 1
    ensures forall i :: 0 <= i < |parts| ==> sep !in parts[i]
    ensures |parts| == 1 <==> sep !in s
  {
    if s == [] then [[]]
    else
      var rest := Split(s[1..], sep);
      if s[0] == sep then [[]] + rest
      else [[s[0]] + rest[0]] + rest[1..]
  }

  /** Python's `sep.join(parts)`. */
  function Join(parts: seq<string>, sep: char): string
    requires |parts| >= 1
  {
    if |parts| == 1 then parts[0] else parts[0] + [sep] + Join(parts[1..], sep)
  }

  /** Splitting loses nothing: joining the pieces gives the string back. */
  lemma {:induction false} JoinSplit(s: string, sep: char)
    ensures Join(Split(s, sep), sep) == s
  {
    if s != [] {
      var rest := Split(s[1..], sep);
      JoinSplit(s[1..], sep);
      if s[0] == sep {
        assert Split(s, sep)[1..] == rest;
      } else {
        var parts := Split(s, sep);
        if |rest| == 1 {
          assert parts == [[s[0]] + rest[0]];
        } else {
          assert parts[1..] == rest[1..];
          assert Join(rest, sep) == rest[0] + [sep] + Join(rest[1..], sep);
        }
      }
    }
  }

  /** ASCII case mapping of one character, as `str.lower` does for A-Z. */
  function LowerChar(c: char): (d: char)
    ensures 'A' <= c <= 'Z' ==> 'a' <= d <= 'z'
    ensures 'A' <= c <= 'Z' ==> d as int == c as int - 'A' as int + 'a' as int
    ensures !('A' <= c <= 'Z') ==> d == c
  {
    if 'A' <= c <= 'Z' then (c as int - 'A' as int + 'a' as int) as char else c
  }

  /** `s.lower()` (ASCII letters only). */
  function Lower(s: string): (r: string)
    ensures |r| == |s|
    ensures forall i :: 0 <= i < |s| ==> r[i] == LowerChar(s[i])
  {
    if s == [] then [] else [LowerChar(s[0])] + Lower(s[1..])
  }

  /** Lowercasing neither adds nor removes dots. */
  lemma LowerKeepsDots(s: string)
    ensures '.' in Lower(s) <==> '.' in s
  {
    if '.' in Lower(s) {
      var i :| 0 <= i < |s| && Lower(s)[i] == '.';
      assert s[i] == '.';
    }
    if '.' in s {
      var i :| 0 <= i < |s| && s[i] == '.';
      assert Lower(s)[i] == '.';
    }
  }

  /** The declared extension of a path: the text after its last dot,
      lowercased. */
  function DeclaredExtension(path: string): (ext: string)
    ensures '.' !in ext
    ensures |ext| <= |path|
  {
    var parts := Split(path, '.');
    JoinSplit(path, '.');
    LastPartNoLonger(parts, '.');
    LowerKeepsDots(parts[|parts| - 1]);
    Lower(parts[|parts| - 1])
  }

  lemma {:induction false} LastPartNoLonger(parts: seq<string>, sep: char)
    requires |parts| >= 1
    ensures |parts[|parts| - 1]| <= |Join(parts, sep)|
  {
    if |parts| > 1 {
      LastPartNoLonger(parts[1..], sep);
    }
  }

  /** A path without a dot declares the whole path, lowercased. */
  lemma NoDotDeclaresWholePath(path: string)
    requires '.' !in path
    ensures DeclaredExtension(path) == Lower(path)
  {
  }

  /** For `stem + "." + ext` with no dot in `ext`, the declared extension is
      `ext` lowercased, whatever the stem holds (dots included). */
  lemma {:induction false} DeclaredExtensionOfSuffix(stem: string, ext: string)
    requires '.' !in ext
    ensures DeclaredExtension(stem + "." + ext) == Lower(ext)
  {
    LastPieceAfterDot(stem, ext);
  }

  lemma {:induction false} LastPieceAfterDot(stem: string, ext: string)
    requires '.' !in ext
    ensures var parts := Split(stem + "." + ext, '.'); parts[|parts| - 1] == ext
  {
    var s := stem + "." + ext;
    if stem == [] {
      assert s[1..] == ext;
      assert Split(ext, '.') == [ext] by { SplitWithoutSep(ext, '.'); }
    } else {
      assert s[1..] == stem[1..] + "." + ext;
      LastPieceAfterDot(stem[1..], ext);
      var rest := Split(s[1..], '.');
      assert '.' in s[1..] by { assert s[1..][|stem| - 1] == '.'; }
      assert |rest| > 1;
    }
  }

  lemma {:induction false} SplitWithoutSep(s: string, sep: char)
    requires sep !in s
    ensures Split(s, sep) == [s]
  {
    if s != [] {
      SplitWithoutSep(s[1..], sep);
      assert [s[0]] + s[1..] == s;
    }
  }

  // ---------------------------------------------------------------------
  // The verdict

  /** The three outcomes of the signature check. `Invalid` carries the
      detected format's string and the declared extension. */
  datatype Verdict = Valid | Invalid(expected: string, found: string) | UnknownFormat

  /** `check_signature` once an image is loaded: the declared extension is
      compared, verbatim, with the string of the detected format. There is no
      `jpeg`/`tif` normalisation. */
  function CheckSignature(path: string, content: seq<byte>): (v: Verdict)
    ensures v == Valid <==>
      DetectFileSignature(content).Some? &&
      Extension(DetectFileSignature(content).value) == DeclaredExtension(path)
    ensures v == UnknownFormat <==> DetectFileSignature(content) == None
    ensures v.Invalid? ==>
      v.expected == Extension(DetectFileSignature(content).value) &&
      v.found == DeclaredExtension(path) && v.expected != v.found
  {
    var ext := DeclaredExtension(path);
    match DetectFileSignature(content)
    case Some(f) =>
      if Extension(f) == ext then Valid else Invalid(Extension(f), ext)
    case None => UnknownFormat
  }

  /** The text shown for a verdict. */
  function VerdictMessage(v: Verdict): (msg: string)
    ensures v.Invalid? ==> msg == "Signature is invalid: expected ." + v.expected + " but found ." + v.found
  {
    match v
    case Valid => "Signature is valid."
    case Invalid(expected, found) =>
      "Signature is invalid: expected ." + expected + " but found ." + found
    case UnknownFormat => "Unknown file format or unsupported image type."
  }

  /** "Signature is valid." is shown for the valid verdict and no other. */
  lemma ValidMessageOnlyForValid(v: Verdict)
    ensures VerdictMessage(v) == "Signature is valid." <==> v == Valid
  {
  }

  /** The invalid message can be read back: since the detected format's
      string holds no dot, the message determines both strings it carries. */
  lemma InvalidMessageDeterminesStrings(e1: string, f1: string, e2: string, f2: string)
    requires '.' !in e1 && '.' !in e2
    requires VerdictMessage(Invalid(e1, f1)) == VerdictMessage(Invalid(e2, f2))
    ensures e1 == e2 && f1 == f2
  {
    var prefix := "Signature is invalid: expected .";
    var tail := " but found .";
    var x1, x2 := e1 + (tail + f1), e2 + (tail + f2);
    assert VerdictMessage(Invalid(e1, f1)) == prefix + x1;
    assert VerdictMessage(Invalid(e2, f2)) == prefix + x2;
    assert x1 == (prefix + x1)[|prefix|..];
    assert x2 == (prefix + x2)[|prefix|..];
    assert (tail + f1)[..|tail| - 1] == tail[..|tail| - 1];
    assert (tail + f2)[..|tail| - 1] == tail[..|tail| - 1];
    SplitAtFirstDot(e1, tail + f1, e2, tail + f2, |tail| - 1);
    assert f1 == (tail + f1)[|tail|..];
    assert f2 == (tail + f2)[|tail|..];
  }

  /** `a + x == b + y` with no dot in `a` or `b` and the first dot of both
      `x` and `y` at `k` splits the same way on both sides. */
  lemma SplitAtFirstDot(a: string, x: string, b: string, y: string, k: nat)
    requires '.' !in a && '.' !in b
    requires k < |x| && x[k] == '.' && '.' !in x[..k]
    requires k < |y| && y[k] == '.' && '.' !in y[..k]
    requires a + x == b + y
    ensures a == b && x == y
  {
    FirstDotAfter(a, x, k);
    FirstDotAfter(b, y, k);
    assert |a| == |b|;
    assert a == (a + x)[..|a|];
    assert b == (b + y)[..|b|];
    assert x == (a + x)[|a|..];
    assert y == (b + y)[|b|..];
  }

  /** In `a + x` with no dot in `a`, and the first dot of `x` at `k`, the
      first dot is at `|a| + k`. */
  lemma FirstDotAfter(a: string, x: string, k: nat)
    requires '.' !in a
    requires k < |x| && x[k] == '.' && '.' !in x[..k]
    ensures (a + x)[|a| + k] == '.'
    ensures forall i :: 0 <= i < |a| + k ==> (a + x)[i] != '.'
  {
    forall i | 0 <= i < |a| + k
      ensures (a + x)[i] != '.'
    {
      if i < |a| {
        assert (a + x)[i] == a[i];
      } else {
        assert (a + x)[i] == x[..k][i - |a|];
      }
    }
  }

  // Examples from the source's behaviour.

  lemma LowerExamples()
    ensures Lower("png") == "png" && Lower("PNG") == "png"
    ensures Lower("jpeg") == "jpeg" && Lower("tif") == "tif"
  {
    assert LowerChar('P') == 'p' && LowerChar('N') == 'n' && LowerChar('G') == 'g';
  }

  /** Content that starts with `f`'s first pattern is detected as `f`. */
  lemma DetectWithMagic(f: Format, rest: seq<byte>)
    ensures DetectFileSignature(Magics(f)[0] + rest) == Some(f)
  {
    var c := Magics(f)[0] + rest;
    assert c[..|Magics(f)[0]|] == Magics(f)[0];
    assert Matches(c, f);
  }

  /** A PNG file named `.png` is valid; named `.PNG` too. */
  lemma PngNamedPngIsValid(stem: string, rest: seq<byte>)
    ensures CheckSignature(stem + ".png", PngMagic + rest) == Valid
    ensures CheckSignature(stem + ".PNG", PngMagic + rest) == Valid
  {
    DeclaredExtensionOfSuffix(stem, "png");
    assert stem + ".png" == stem + "." + "png";
    DeclaredExtensionOfSuffix(stem, "PNG");
    assert stem + ".PNG" == stem + "." + "PNG";
    LowerExamples();
    DetectWithMagic(Png, rest);
  }

  /** A JPEG file named `.png` is invalid and names both strings. */
  lemma JpegNamedPngIsInvalid(stem: string, rest: seq<byte>)
    ensures CheckSignature(stem + ".png", JpegMagic + rest) == Invalid("jpg", "png")
  {
    DeclaredExtensionOfSuffix(stem, "png");
    assert stem + ".png" == stem + "." + "png";
    LowerExamples();
    DetectWithMagic(Jpg, rest);
  }

  /** No normalisation: a JPEG named `.jpeg` and a TIFF named `.tif` are
      reported invalid. */
  lemma JpegNamedJpegIsInvalid(stem: string, rest: seq<byte>)
    ensures CheckSignature(stem + ".jpeg", JpegMagic + rest) == Invalid("jpg", "jpeg")
    ensures CheckSignature(stem + ".tif", TiffLeMagic + rest) == Invalid("tiff", "tif")
  {
    DeclaredExtensionOfSuffix(stem, "jpeg");
    assert stem + ".jpeg" == stem + "." + "jpeg";
    DeclaredExtensionOfSuffix(stem, "tif");
    assert stem + ".tif" == stem + "." + "tif";
    LowerExamples();
    DetectWithMagic(Jpg, rest);
    DetectWithMagic(Tiff, rest);
  }

  /** Unrecognised content gives the unknown-format warning whatever the
      extension. */
  lemma UnknownIgnoresExtension(path: string, other: string, content: seq<byte>)
    requires DetectFileSignature(content) == None
    ensures CheckSignature(path, content) == CheckSignature(other, content) == UnknownFormat
  {
  }
}
