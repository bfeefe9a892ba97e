/** The report of `extract_exif`: the tag/value pairs the EXIF parser
    returns, in its iteration order, folded into one line each. The parser
    itself is foreign code; its output is the input here. */
module Exif {
  import opened Common

  /** The text shown when the file has no EXIF tags. */
  const NoExif: string := "No EXIF data found."

  /** One report line without its terminating newline. */
  function LineText(tag: string, value: string): (line: string)
    ensures StartsWith(line, tag + ": ") && line[|tag| + 2..] == value
    ensures '\n' !in tag && '\n' !in value ==> '\n' !in line
  {
    var line := tag + ": " + value;
    assert '\n' !in tag && '\n' !in value ==> '\n' !in line by {
      if '\n' !in tag && '\n' !in value {
        forall k | 0 <= k < |line| ensures line[k] != '\n' {
          if k < |tag| {
            assert line[k] == tag[k];
          } else if k >= |tag| + 2 {
            assert line[k] == value[k - |tag| - 2];
          }
        }
      }
    }
    assert line[..|tag| + 2] == tag + ": ";
    line
  }

  /** The report lines of a sequence of pairs, each ending in a newline. */
  function Lines(tags: seq<(string, string)>): (report: string)
    ensures report == [] <==> tags == []
    ensures tags != [] ==> report[|report| - 1] == '\n'
  {
    if tags == [] then "" else LineText(tags[0].0, tags[0].1) + "\n" + Lines(tags[1..])
  }

  /** Appending one pair appends its line: the loop's step. */
  lemma {:induction false} LinesSnoc(tags: seq<(string, string)>, t: (string, string))
    ensures Lines(tags + [t]) == Lines(tags) + LineText(t.0, t.1) + "\n"
  {
    if tags == [] {
      assert [] + [t] == [t];
    } else {
      assert (tags + [t])[1..] == tags[1..] + [t];
      LinesSnoc(tags[1..], t);
    }
  }

  /** `extract_exif`: append one line per pair; an empty result is replaced
      by the "no data" text. */
  method ExtractExif(tags: seq<(string, string)>) returns (report: string)
    ensures tags == [] ==> report == NoExif
    ensures tags != [] ==> report == Lines(tags)
  {
    var exif := "";
    for i := 0 to |tags|
      invariant exif == Lines(tags[..i])
    {
      var (tag, value) := tags[i];
      assert tags[..i + 1] == tags[..i] + [tags[i]];
      LinesSnoc(tags[..i], tags[i]);
      exif := exif + tag + ": " + value + "\n";
    }
    assert tags[..|tags|] == tags;
    if exif != "" {
      report := exif;
    } else {
      report := NoExif;
    }
  }

  /** The line texts of the pairs, in order. */
  function LineTexts(tags: seq<(string, string)>): (ls: seq<string>)
    ensures |ls| == |tags|
  {
    seq(|tags|, i requires 0 <= i < |tags| => LineText(tags[i].0, tags[i].1))
  }

  /** Reading one line: the text before the first newline and what follows
      it (all of `s` and nothing if there is no newline). */
  function TakeLine(s: string): (r: (string, string))
    ensures s != [] ==> |r.1| < |s|
  {
    if s == [] then ([], [])
    else if s[0] == '\n' then ([], s[1..])
    else
      var (line, rest) := TakeLine(s[1..]);
      ([s[0]] + line, rest)
  }

  /** Splitting a report back into its lines. */
  function SplitLines(s: string): seq<string>
    decreases |s|
  {
    if s == [] then [] else
      var (line, rest) := TakeLine(s);
      [line] + SplitLines(rest)
  }

  lemma {:induction false} TakeLineOf(line: string, rest: string)
    requires '\n' !in line
    ensures TakeLine(line + "\n" + rest) == (line, rest)
  {
    var s := line + "\n" + rest;
    if line == [] {
      assert s[0] == '\n' && s[1..] == rest;
    } else {
      assert s[0] == line[0] != '\n';
      assert s[1..] == line[1..] + "\n" + rest;
      TakeLineOf(line[1..], rest);
      assert [line[0]] + line[1..] == line;
    }
  }

  /** No tag or value contains a newline. */
  predicate SingleLine(tags: seq<(string, string)>)
  {
    forall i :: 0 <= i < |tags| ==> '\n' !in tags[i].0 && '\n' !in tags[i].1
  }

  /** The report holds exactly one line per pair, in order: when no tag or
      value contains a newline, splitting it at newlines gives back the line
      of each pair. */
  lemma {:induction false} ReportLinesArePairs(tags: seq<(string, string)>)
    requires SingleLine(tags)
    ensures SplitLines(Lines(tags)) == LineTexts(tags)
  {
    if tags != [] {
      var line := LineText(tags[0].0, tags[0].1);
      assert '\n' !in tags[0].0 && '\n' !in tags[0].1;
      TakeLineOf(line, Lines(tags[1..]));
      ReportLinesArePairs(tags[1..]);
      assert Lines(tags) != [];
      assert LineTexts(tags) == [line] + LineTexts(tags[1..]);
    }
  }

  /** The "no data" text is shown exactly when there are no tags: a
      non-empty report ends with a newline, the "no data" text does not. */
  lemma NoExifIffNoTags(tags: seq<(string, string)>)
    ensures (if tags == [] then NoExif else Lines(tags)) == NoExif <==> tags == []
  {
    if tags != [] {
      assert NoExif[|NoExif| - 1] == '.';
    }
  }
}
