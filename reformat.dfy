/**
  reformat.py: turns raw coded transcript lines, `Speaker: text,tag,tag,...`,
  into the `speaker =DELIM= text =DELIM= tag, tag, ` line format. The number
  of trailing tag columns is read off the header line.
 */
module Reformat {
  import opened PyStr
  import Util

  /** `sanitize`: its cleaning rules are all commented out, so it hands back its argument. */
  function Sanitize(txt: string): string {
    txt
  }

  // ---------------------------------------------------------------------------
  // add_line: parsing
  // ---------------------------------------------------------------------------

  /** The pieces `add_line` cuts one line into. */
  datatype Parsed = Parsed(tags: seq<string>, quote: string, speaker: string, utt: string)

  /** The comma fields of the stripped line. */
  function Fields(line: string): (fields: seq<string>)
    ensures |fields| >= 1
  {
    Split(Strip(line), ",")
  }

  /**
    `comma_split[-num_codes:]` and `comma_split[:-num_codes]`, with Python's
    slice rules (so `[-0:]` is the whole list), then the quote split at each
    `': '` into the speaker and the rest joined back with `':'`.
   */
  function ParseLine(line: string, numCodes: int): (p: Parsed)
    ensures |p.tags| <= |Fields(line)|
  {
    var fields := Fields(line);
    var m := SliceIndex(-numCodes, |fields|);
    var quote := Join(fields[..m], ",");
    var colonSplit := Split(quote, ": ");
    Parsed(fields[m..], quote, colonSplit[0], Sanitize(Join(colonSplit[1..], ":")))
  }

  /** For `1 <= num_codes <` the field count, the tags are the last `num_codes` fields and the quote and tags rejoin to the stripped line. */
  lemma ParseRejoin(line: string, numCodes: int)
    requires 1 <= numCodes < |Fields(line)|
    ensures var p := ParseLine(line, numCodes); var fields := Fields(line);
      && |p.tags| == numCodes
      && p.tags == fields[|fields| - numCodes..]
      && p.quote + "," + Join(p.tags, ",") == Strip(line)
  {
    var fields := Fields(line);
    var m := |fields| - numCodes;
    assert fields == fields[..m] + fields[m..];
    JoinConcat(fields[..m], fields[m..], ",");
    JoinSplit(Strip(line), ",");
  }

  /** With `num_codes` zero, or at least the field count, every field is a tag and the quote is empty. */
  lemma ParseAllTags(line: string, numCodes: int)
    requires numCodes == 0 || numCodes >= |Fields(line)|
    ensures var p := ParseLine(line, numCodes);
      p.tags == Fields(line) && p.quote == "" && p.speaker == "" && p.utt == ""
  {
    var fields := Fields(line);
    assert SliceIndex(-numCodes, |fields|) == 0;
    assert Find("", ": ") == None;
  }

  /** A negative `num_codes` (a header without commas gives -1) puts the first `-num_codes` fields in the quote. */
  lemma ParseNegative(line: string, numCodes: int)
    requires -|Fields(line)| <= numCodes < 0
    ensures var p := ParseLine(line, numCodes); var fields := Fields(line);
      p.tags == fields[-numCodes..] && p.quote == Join(fields[..-numCodes], ",")
  {
  }

  /**
    The speaker is the quote up to its first `': '` and the text is the rest
    with every further `': '` turned into `':'`; a quote without `': '` is all
    speaker and has no text.
   */
  lemma ParseSpeaker(line: string, numCodes: int)
    ensures var p := ParseLine(line, numCodes);
      match Find(p.quote, ": ")
      case None => p.speaker == p.quote && p.utt == ""
      case Some(i) =>
        && p.speaker == p.quote[..i]
        && p.utt == Join(Split(p.quote[i + 2..], ": "), ":")
  {
    var p := ParseLine(line, numCodes);
    match Find(p.quote, ": ")
    case None =>
    case Some(i) =>
      var colonSplit := Split(p.quote, ": ");
      assert colonSplit == [p.quote[..i]] + Split(p.quote[i + 2..], ": ");
      assert colonSplit[1..] == Split(p.quote[i + 2..], ": ");
  }

  // ---------------------------------------------------------------------------
  // add_line: the output line
  // ---------------------------------------------------------------------------

  const Delim: string := " =DELIM= "

  /** Each tag followed by `", "`. */
  function TagsText(tags: seq<string>): string {
    if tags == [] then "" else tags[0] + ", " + TagsText(tags[1..])
  }

  lemma {:induction false} TagsTextSnoc(tags: seq<string>, tag: string)
    ensures TagsText(tags + [tag]) == TagsText(tags) + tag + ", "
  {
    if tags == [] {
      assert [tag][1..] == [];
    } else {
      assert (tags + [tag])[1..] == tags[1..] + [tag];
      TagsTextSnoc(tags[1..], tag);
    }
  }

  /** For a non-empty tag list, the tag text is the tags joined by `", "` plus a trailing `", "`. */
  lemma {:induction false} TagsTextJoin(tags: seq<string>)
    requires tags != []
    ensures TagsText(tags) == Join(tags, ", ") + ", "
  {
    if |tags| > 1 {
      TagsTextJoin(tags[1..]);
    }
  }

  /** The line `add_line` writes for a speaker, a text and tags. */
  function Formatted(speaker: string, utt: string, tags: seq<string>): string {
    speaker + Delim + utt + Delim + TagsText(tags) + "\n"
  }

  /** The `'{} =DELIM= {} =DELIM= '.format(...)` start and the `outfile_line +=` loop over the tags. */
  method FormatLine(speaker: string, utt: string, tags: seq<string>) returns (line: string)
    ensures line + "\n" == Formatted(speaker, utt, tags)
  {
    line := speaker + Delim + utt + Delim;
    for i := 0 to |tags|
      invariant line == speaker + Delim + utt + Delim + TagsText(tags[..i])
    {
      assert tags[..i + 1] == tags[..i] + [tags[i]];
      TagsTextSnoc(tags[..i], tags[i]);
      line := line + tags[i] + ", ";
    }
    assert tags[..|tags|] == tags;
  }

  /** A speaker without `=` is recovered from a written line as the text before its first delimiter. */
  lemma DelimAfterSpeaker(speaker: string, utt: string, tags: seq<string>)
    requires '=' !in speaker
    ensures Find(Formatted(speaker, utt, tags), Delim) == Some(|speaker|)
  {
    var s := Formatted(speaker, utt, tags);
    assert s[..|speaker|] == speaker;
    assert s[|speaker|..|speaker| + |Delim|] == Delim;
    forall j: nat | j < |speaker|
      ensures !IsAt(s, Delim, j)
    {
      assert s[j + 1] != '=' by {
        if j + 1 < |speaker| {
          assert s[j + 1] == speaker[j + 1];
        }
      }
      assert j + |Delim| <= |s| ==> s[j..j + |Delim|][1] == s[j + 1];
    }
    assert IsAt(s, Delim, |speaker|);
    match Find(s, Delim)
    case None =>
    case Some(r) =>
      assert !(r < |speaker|) && !(r > |speaker|);
  }

  /** What `add_line` appends to the output file for one line: the formatted line when speaker and text are both non-empty, else nothing. */
  function LineText(line: string, numCodes: int): string {
    var p := ParseLine(line, numCodes);
    if p.speaker != "" && p.utt != "" then Formatted(p.speaker, p.utt, p.tags) else ""
  }

  /** `add_line` */
  method AddLine(line: string, numCodes: int) returns (written: string)
    ensures written == LineText(line, numCodes)
  {
    written := "";
    var p := ParseLine(line, numCodes);
    if p.speaker != "" && p.utt != "" {
      var outfileLine := FormatLine(p.speaker, p.utt, p.tags);
      written := outfileLine + "\n";
    }
  }

  /** A line whose quote is empty (as with zero tag columns) writes nothing. */
  lemma NoColumnsWritesNothing(line: string, numCodes: int)
    requires numCodes == 0 || numCodes >= |Fields(line)|
    ensures LineText(line, numCodes) == ""
  {
    ParseAllTags(line, numCodes);
  }

  /** A line is written only when its quote has a `': '` with text both before and after it. */
  lemma WrittenNeedsSpeakerAndText(line: string, numCodes: int)
    requires LineText(line, numCodes) != ""
    ensures var p := ParseLine(line, numCodes);
      && Find(p.quote, ": ").Some?
      && p.speaker != "" && p.utt != ""
      && LineText(line, numCodes) == Formatted(p.speaker, p.utt, p.tags)
  {
    ParseSpeaker(line, numCodes);
  }

  // ---------------------------------------------------------------------------
  // reformat: one input file
  // ---------------------------------------------------------------------------

  /** `line.replace(',', '').strip() == ''`: nothing but commas and whitespace. */
  predicate Blank(line: string) {
    Strip(Replace(line, ',', "")) == ""
  }

  /** `num_codes`: 0 unless line 0 is a header, then its comma fields after the first, less one. */
  function NumCodes(lines: seq<string>): int {
    if lines == [] || Blank(lines[0]) then 0 else |Split(lines[0], ",")[1..]| - 1
  }

  /** The header's `num_codes` is its number of commas less one. */
  lemma NumCodesCommas(lines: seq<string>)
    requires lines != [] && !Blank(lines[0])
    ensures NumCodes(lines) == Count(lines[0], ',') - 1
  {
    SplitCount(lines[0], ',');
  }

  /** A header with a single comma, such as `quote,tag`, also leaves `num_codes` at 0. */
  lemma OneCommaHeaderNoCodes(lines: seq<string>)
    requires lines != [] && !Blank(lines[0]) && Count(lines[0], ',') == 1
    ensures NumCodes(lines) == 0
  {
    NumCodesCommas(lines);
  }

  /** What the lines after the first write, at `numCodes` tag columns, skipping blank ones. */
  function Written(lines: seq<string>, numCodes: int): string {
    if lines == [] then ""
    else
      var last := lines[|lines| - 1];
      Written(lines[..|lines| - 1], numCodes) + (if Blank(last) then "" else LineText(last, numCodes))
  }

  /** The lines after the first: the header, if any, is line 0 only. */
  function Body(lines: seq<string>): seq<string> {
    if lines == [] then [] else lines[1..]
  }

  /**
    With `num_codes` at 0 no line is written at all. A blank first line gives 0,
    and so does a header with exactly one comma.
   */
  lemma {:induction false} BlankHeaderWritesNothing(lines: seq<string>, numCodes: int)
    requires numCodes == 0
    ensures Written(lines, numCodes) == ""
  {
    if lines != [] {
      BlankHeaderWritesNothing(lines[..|lines| - 1], numCodes);
      NoColumnsWritesNothing(lines[|lines| - 1], numCodes);
    }
  }

  /** Blank lines contribute nothing: writing is the same with them dropped. */
  lemma {:induction false} BlankLinesSkipped(a: seq<string>, blank: string, b: seq<string>, numCodes: int)
    requires Blank(blank)
    ensures Written(a + [blank] + b, numCodes) == Written(a + b, numCodes)
    decreases |b|
  {
    if b == [] {
      assert (a + [blank])[..|a|] == a;
      assert a + [blank] + b == a + [blank];
      assert a + b == a;
    } else {
      var b' := b[..|b| - 1];
      assert (a + [blank] + b)[..|a + [blank] + b| - 1] == a + [blank] + b';
      assert (a + b)[..|a + b| - 1] == a + b';
      BlankLinesSkipped(a, blank, b', numCodes);
    }
  }

  /**
    The line loop of `reformat` for one file: blank lines are skipped, a
    non-blank line 0 sets `num_codes`, and every other line goes to
    `add_line`. The result is what the (freshly emptied) output file holds.
   */
  method ReformatLines(lines: seq<string>) returns (content: string)
    ensures content == Written(Body(lines), NumCodes(lines))
  {
    var numCodes: int := 0;
    content := "";
    for i := 0 to |lines|
      invariant i == 0 ==> numCodes == 0 && content == ""
      invariant i > 0 ==> numCodes == NumCodes(lines) && content == Written(lines[1..i], numCodes)
    {
      var line := lines[i];
      if Blank(line) {
        if i > 0 {
          assert lines[1..i + 1][..i - 1] == lines[1..i];
        }
        continue;
      } else if i == 0 {
        numCodes := |Split(line, ",")[1..]| - 1;
      } else {
        assert lines[1..i + 1][..i - 1] == lines[1..i];
        var written := AddLine(line, numCodes);
        content := content + written;
      }
    }
    if lines != [] {
      assert lines[1..|lines|] == lines[1..];
    }
  }

  /** `urlSafe("{}.csv".format(filename[:-4]))`: the output file's name for an input file name. */
  function OutputName(filename: string): (r: string)
    ensures forall c :: c in r ==> !Util.UrlUnsafe(c)
  {
    Util.UrlSafe(filename[..SliceIndex(-4, |filename|)] + ".csv")
  }

  /** An input `name.csv` whose `name` is already URL-safe and starts with no whitespace gives `name.csv`. */
  lemma OutputNameKeepsSafeStem(stem: string)
    requires stem == [] || !IsSpace(stem[0])
    requires forall c :: c in stem ==> !Util.UrlUnsafe(c)
    ensures OutputName(stem + ".csv") == stem + ".csv"
  {
    var filename := stem + ".csv";
    assert filename[..SliceIndex(-4, |filename|)] == stem;
    var s := stem + ".csv";
    assert s[|s| - 1] == 'v';
    Util.UrlSafeFixedPoint(s);
  }
}
