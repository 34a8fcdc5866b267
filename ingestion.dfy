/**
  code-extract.py's `readOriginalCSVs`: raw transcripts, one `csv.reader` row
  per line (first cell the speech, the rest code cells), become interviews of
  numbered quotes, while the codebook-keyed speaker sets and the module-global
  correction cache fill up.

  The specification is a fold over the transcripts and their rows (`ReadRow`,
  `ReadRows`, `ReadAll`); the methods below carry out the source's loops and
  are proved equal to it.
 */
module Ingestion {
  import opened PyStr
  import Util
  import opened CodeExtract

  /** A transcript file: its path and the rows `csv.reader` yields for it. */
  datatype Transcript = Transcript(path: string, rows: seq<seq<string>>)

  // ---------------------------------------------------------------------------
  // Interview names: os.path.splitext(os.path.basename(path))[0]
  // ---------------------------------------------------------------------------

  /** `os.path.basename(p)`: what follows the last `/`. */
  function BaseName(p: string): string {
    match RFind(p, '/')
    case None => p
    case Some(i) => p[i + 1..]
  }

  /** `basename` leaves no `/`, and a path without one is its own base name. */
  lemma BaseNameSpec(p: string)
    ensures '/' !in BaseName(p)
    ensures '/' !in p ==> BaseName(p) == p
  {
    RFindSpec(p, '/');
  }

  /** Nothing but dots. */
  predicate AllDots(s: string) {
    s == [] || (s[0] == '.' && AllDots(s[1..]))
  }

  /**
    The first half of `os.path.splitext(p)`: `p` without the part from its
    last `.` on, unless that dot belongs to the directory part or only dots
    precede it in the file name (`.bashrc` has no extension).
   */
  function SplitExtRoot(p: string): (r: string)
    ensures |r| <= |p|
  {
    var sep: int := match RFind(p, '/') case None => -1 case Some(i) => i;
    match RFind(p, '.')
    case None => p
    case Some(d) =>
      if d > sep && !AllDots(p[sep + 1..d]) then p[..d] else p
  }

  /** The root is a prefix of the path. */
  lemma SplitExtRootPrefix(p: string)
    ensures SplitExtRoot(p) == p[..|SplitExtRoot(p)|]
  {
  }

  /** The name an interview gets from its transcript's path. */
  function Stem(path: string): string {
    SplitExtRoot(BaseName(path))
  }

  /** The last occurrence of `c` is at `i` when `s[i]` is `c` and no later character is. */
  lemma RFindAt(s: string, c: char, i: nat)
    requires i < |s| && s[i] == c && c !in s[i + 1..]
    ensures RFind(s, c) == Some(i)
  {
    RFindSpec(s, c);
    var r := RFind(s, c).value;
    forall k | i < k < |s|
      ensures s[k] != c
    {
      assert s[k] == s[i + 1..][k - i - 1];
    }
    forall k | r < k < |s|
      ensures s[k] != c
    {
      assert s[k] == s[r + 1..][k - r - 1];
    }
  }

  /** A directory prefix ending in `/` is dropped by `basename`. */
  lemma BaseNameAfterDir(dir: string, file: string)
    requires dir == [] || dir[|dir| - 1] == '/'
    requires '/' !in file
    ensures BaseName(dir + file) == file
  {
    var p := dir + file;
    if dir == [] {
      assert p == file;
      BaseNameSpec(file);
    } else {
      assert p[|dir| - 1] == '/' && p[|dir|..] == file;
      RFindAt(p, '/', |dir| - 1);
    }
  }

  /** `splitext` drops an extension that follows a dot-free name. */
  lemma RootOfNameExt(name: string, ext: string)
    requires name != [] && '/' !in name && '.' !in name
    requires '/' !in ext && '.' !in ext
    ensures SplitExtRoot(name + "." + ext) == name
  {
    var file := name + "." + ext;
    assert '/' !in file;
    RFindSpec(file, '/');
    assert file[|name|] == '.' && file[|name| + 1..] == ext;
    RFindAt(file, '.', |name|);
    assert file[0] == name[0] != '.';
    assert file[..|name|] == name;
    assert !AllDots(file[0..|name|]);
  }

  /**
    The directory and the extension are dropped: `dir/name.ext` and
    `name.ext` both give `name`.
   */
  lemma StemOfPath(dir: string, name: string, ext: string)
    requires dir == [] || dir[|dir| - 1] == '/'
    requires name != [] && '/' !in name && '.' !in name
    requires '/' !in ext && '.' !in ext
    ensures Stem(dir + name + "." + ext) == name
  {
    var file := name + "." + ext;
    assert '/' !in file;
    assert dir + name + "." + ext == dir + file;
    BaseNameAfterDir(dir, file);
    RootOfNameExt(name, ext);
  }

  // ---------------------------------------------------------------------------
  // One row
  // ---------------------------------------------------------------------------

  /**
    The speaker and the text of a stripped quote: split at the first `:` when
    there is one; otherwise the whole quote is text and the speaker is the
    previous quote's.
   */
  function SplitSpeaker(quote: string, lastPerson: string): (r: (string, string))
    ensures ':' in quote ==> ':' !in r.0 && r.0 + ":" + r.1 == quote
    ensures ':' !in quote ==> r == (lastPerson, quote)
  {
    FindChar(quote, ':');
    match Find(quote, ":")
    case Some(i) =>
      assert quote == quote[..i] + ":" + quote[i + 1..];
      (quote[..i], quote[i + 1..])
    case None => (lastPerson, quote)
  }

  /**
    One code cell: stripped; dropped when empty; kept when it is a codebook
    entry; otherwise replaced through `mergeCodes`, and dropped when that
    gives `''`.
   */
  ghost function ResolveCell(cell: string, codes: seq<string>, cache: map<string, string>): (Option<string>, map<string, string>) {
    var code := Util.StripQuotesSpace(cell);
    if code == "" then (None, cache)
    else if code in codes then (Some(code), cache)
    else
      var (corrected, cache') := Util.CorrectOrNearest(code, codes, cache);
      if corrected == "" then (None, cache') else (Some(corrected), cache')
  }

  /** The cache only grows: no entry is removed or changed. */
  ghost predicate Grows(cache: map<string, string>, cache': map<string, string>) {
    cache.Keys <= cache'.Keys && forall k :: k in cache ==> cache'[k] == cache[k]
  }

  /** The code cells of a row, in order: the kept codes and the cache afterwards. */
  ghost function ResolveCells(cells: seq<string>, codes: seq<string>, cache: map<string, string>): (r: (seq<string>, map<string, string>))
    ensures |r.0| <= |cells|
    ensures forall i :: 0 <= i < |r.0| ==> r.0[i] != ""
    ensures Grows(cache, r.1)
  {
    if cells == [] then ([], cache)
    else
      var n := |cells| - 1;
      var (kept, cache1) := ResolveCells(cells[..n], codes, cache);
      var (m, cache2) := ResolveCell(cells[n], codes, cache1);
      (if m.Some? then kept + [m.value] else kept, cache2)
  }

  /** With every cached correction a codebook entry, every kept code is one, and the cache stays so. */
  lemma {:induction false} ResolveCellsInCodes(cells: seq<string>, codes: seq<string>, cache: map<string, string>)
    requires Util.CacheInCodes(cache, codes)
    ensures forall c :: c in ResolveCells(cells, codes, cache).0 ==> c in codes
    ensures Util.CacheInCodes(ResolveCells(cells, codes, cache).1, codes)
  {
    if cells != [] {
      var n := |cells| - 1;
      ResolveCellsInCodes(cells[..n], codes, cache);
      var cache1 := ResolveCells(cells[..n], codes, cache).1;
      Util.CorrectOrNearestInCodes(Util.StripQuotesSpace(cells[n]), codes, cache1);
    }
  }

  /** Cells that already name codebook entries (or are blank) pass through stripped and leave the cache alone. */
  lemma {:induction false} ResolveCellsKnown(cells: seq<string>, codes: seq<string>, cache: map<string, string>)
    requires forall i :: 0 <= i < |cells| ==> Util.StripQuotesSpace(cells[i]) == "" || Util.StripQuotesSpace(cells[i]) in codes
    ensures ResolveCells(cells, codes, cache) == (NonBlank(cells), cache)
  {
    if cells != [] {
      var n := |cells| - 1;
      ResolveCellsKnown(cells[..n], codes, cache);
      var code := Util.StripQuotesSpace(cells[n]);
      assert ResolveCell(cells[n], codes, cache) == (if code == "" then None else Some(code), cache);
      assert NonBlank(cells) == NonBlank(cells[..n]) + (if code == "" then [] else [code]);
      assert ResolveCells(cells, codes, cache).1 == cache;
      assert ResolveCells(cells, codes, cache).0 == NonBlank(cells[..n]) + (if code == "" then [] else [code]);
    }
  }

  /** The stripped cells that are not blank, in order. */
  function NonBlank(cells: seq<string>): seq<string> {
    if cells == [] then []
    else
      var n := |cells| - 1;
      var code := Util.StripQuotesSpace(cells[n]);
      NonBlank(cells[..n]) + (if code == "" then [] else [code])
  }

  /** `codeCountsPerSpeaker[code].add(person)` for every kept code. */
  function AddPerson(counts: map<string, set<string>>, kept: seq<string>, person: string): (r: map<string, set<string>>)
    requires forall c :: c in kept ==> c in counts
    ensures r.Keys == counts.Keys
    ensures forall c :: c in counts ==> r[c] == counts[c] + (if c in kept then {person} else {})
  {
    if kept == [] then counts
    else
      var n := |kept| - 1;
      var prev := AddPerson(counts, kept[..n], person);
      assert kept == kept[..n] + [kept[n]];
      prev[kept[n] := prev[kept[n]] + {person}]
  }

  /**
    The state `readOriginalCSVs` carries from row to row (and from one
    transcript to the next, since neither counter is reset per file).
   */
  datatype Reading = Reading(numQuotes: nat, lastPerson: string, counts: map<string, set<string>>, cache: map<string, string>)

  /** What keeps `codeCountsPerSpeaker[code]` from raising: every code the cache or the codebook can yield is a key. */
  ghost predicate Ready(st: Reading, codes: seq<string>) {
    Util.CacheInCodes(st.cache, codes) && forall c :: c in codes ==> c in st.counts
  }

  /**
    One transcript row: a blank first cell is skipped; otherwise the quote
    gets the next number, its speaker and text, and the resolved codes, and
    the speaker joins the set of every code kept.
   */
  ghost function ReadRow(st: Reading, name: string, row: seq<string>, codes: seq<string>): (r: (Reading, Option<Quote>))
    requires |row| > 0 && Ready(st, codes)
    ensures Ready(r.0, codes)
  {
    var quote := Util.StripQuotesSpace(row[0]);
    if quote == "" then (st, None)
    else
      var number := st.numQuotes + 1;
      var (person, text) := SplitSpeaker(quote, st.lastPerson);
      var (kept, cache') := ResolveCells(row[1..], codes, st.cache);
      ResolveCellsInCodes(row[1..], codes, st.cache);
      var counts' := AddPerson(st.counts, kept, person);
      (Reading(number, person, counts', cache'), Some(Quote(name, Num(number), person, text, kept)))
  }

  /** What a row's quote is: present exactly when the first cell is not blank, with its speaker split off. */
  lemma ReadRowQuote(st: Reading, name: string, row: seq<string>, codes: seq<string>)
    requires |row| > 0 && Ready(st, codes)
    ensures var quote := Util.StripQuotesSpace(row[0]);
      var q := ReadRow(st, name, row, codes).1;
      && (q.None? <==> quote == "")
      && (q.Some? && ':' in quote ==> ':' !in q.value.speaker && q.value.speaker + ":" + q.value.text == quote)
      && (q.Some? && ':' !in quote ==> q.value.speaker == st.lastPerson && q.value.text == quote)
      && (q.Some? ==> q.value.codes == ResolveCells(row[1..], codes, st.cache).0)
  {
  }

  // ---------------------------------------------------------------------------
  // The invariant of the whole read
  // ---------------------------------------------------------------------------

  /** The speakers of the quotes that list `code`. */
  function Speakers(quotes: seq<Quote>, code: string): set<string> {
    if quotes == [] then {}
    else
      var n := |quotes| - 1;
      Speakers(quotes[..n], code) + (if code in quotes[n].codes then {quotes[n].speaker} else {})
  }

  lemma {:induction false} SpeakersConcat(a: seq<Quote>, b: seq<Quote>, code: string)
    ensures Speakers(a + b, code) == Speakers(a, code) + Speakers(b, code)
    decreases |b|
  {
    if b == [] {
      assert a + b == a;
    } else {
      var n := |b| - 1;
      assert (a + b)[..|a + b| - 1] == a + b[..n];
      SpeakersConcat(a, b[..n], code);
    }
  }

  /** Every code of the quote is a codebook entry. */
  ghost predicate Coded(q: Quote, codes: seq<string>) {
    forall c :: c in q.codes ==> c in codes
  }

  /**
    Reading `quotes` took the state from `st` to `st'`: the quotes are
    numbered on from `st.numQuotes` without gaps, carry only codebook codes,
    the last one's speaker is remembered, each code's speaker set gained
    exactly the speakers of the quotes listing it, and the cache only grew.
   */
  ghost predicate Follows(st: Reading, st': Reading, quotes: seq<Quote>, codes: seq<string>) {
    && Ready(st', codes)
    && st'.counts.Keys == st.counts.Keys
    && st'.numQuotes == st.numQuotes + |quotes|
    && (forall k :: 0 <= k < |quotes| ==> quotes[k].quoteID == Num(st.numQuotes + k + 1))
    && (forall k :: 0 <= k < |quotes| ==> Coded(quotes[k], codes))
    && st'.lastPerson == (if quotes == [] then st.lastPerson else quotes[|quotes| - 1].speaker)
    && (forall c :: c in st.counts ==> st'.counts[c] == st.counts[c] + Speakers(quotes, c))
    && Grows(st.cache, st'.cache)
  }

  lemma FollowsNothing(st: Reading, codes: seq<string>)
    requires Ready(st, codes)
    ensures Follows(st, st, [], codes)
  {
  }

  /** A single new quote that advances the state as `ReadRow` does keeps `Follows`. */
  lemma FollowsOne(st: Reading, st': Reading, q: Quote, codes: seq<string>)
    requires Ready(st', codes) && st'.counts.Keys == st.counts.Keys
    requires st'.numQuotes == st.numQuotes + 1 && q.quoteID == Num(st'.numQuotes)
    requires Coded(q, codes) && st'.lastPerson == q.speaker && Grows(st.cache, st'.cache)
    requires forall c :: c in st.counts ==> st'.counts[c] == st.counts[c] + (if c in q.codes then {q.speaker} else {})
    ensures Follows(st, st', [q], codes)
  {
    assert [q][..0] == [];
  }

  lemma FollowsRow(st: Reading, name: string, row: seq<string>, codes: seq<string>)
    requires |row| > 0 && Ready(st, codes)
    ensures var r := ReadRow(st, name, row, codes);
      Follows(st, r.0, if r.1.Some? then [r.1.value] else [], codes)
  {
    var quote := Util.StripQuotesSpace(row[0]);
    if quote == "" {
      FollowsNothing(st, codes);
    } else {
      var split := SplitSpeaker(quote, st.lastPerson);
      var cells := ResolveCells(row[1..], codes, st.cache);
      ResolveCellsInCodes(row[1..], codes, st.cache);
      var q := Quote(name, Num(st.numQuotes + 1), split.0, split.1, cells.0);
      var st' := Reading(st.numQuotes + 1, split.0, AddPerson(st.counts, cells.0, split.0), cells.1);
      assert ReadRow(st, name, row, codes) == (st', Some(q));
      FollowsOne(st, st', q, codes);
    }
  }

  lemma FollowsTrans(s1: Reading, s2: Reading, s3: Reading, q1: seq<Quote>, q2: seq<Quote>, codes: seq<string>)
    requires Follows(s1, s2, q1, codes) && Follows(s2, s3, q2, codes)
    ensures Follows(s1, s3, q1 + q2, codes)
  {
    var q := q1 + q2;
    forall k | 0 <= k < |q|
      ensures q[k].quoteID == Num(s1.numQuotes + k + 1) && Coded(q[k], codes)
    {
      if k >= |q1| {
        assert q[k] == q2[k - |q1|];
      }
    }
    forall c | c in s1.counts
      ensures s3.counts[c] == s1.counts[c] + Speakers(q, c)
    {
      SpeakersConcat(q1, q2, c);
    }
  }

  // ---------------------------------------------------------------------------
  // All rows, all transcripts
  // ---------------------------------------------------------------------------

  /** No row of the transcript is empty (an empty one makes `row[0]` raise). */
  predicate Complete(t: Transcript) {
    forall j :: 0 <= j < |t.rows| ==> |t.rows[j]| > 0
  }

  /** The rows of one transcript, in order: the state afterwards and the quotes kept. */
  ghost function ReadRows(st: Reading, name: string, rows: seq<seq<string>>, codes: seq<string>): (r: (Reading, seq<Quote>))
    requires Ready(st, codes)
    requires forall j :: 0 <= j < |rows| ==> |rows[j]| > 0
    ensures Ready(r.0, codes)
  {
    if rows == [] then (st, [])
    else
      var n := |rows| - 1;
      var prev := ReadRows(st, name, rows[..n], codes);
      var row := ReadRow(prev.0, name, rows[n], codes);
      (row.0, prev.1 + if row.1.Some? then [row.1.value] else [])
  }

  /** Every quote read from a transcript's rows is filed under the transcript's name. */
  lemma {:induction false} ReadRowsFiled(st: Reading, name: string, rows: seq<seq<string>>, codes: seq<string>)
    requires Ready(st, codes)
    requires forall j :: 0 <= j < |rows| ==> |rows[j]| > 0
    ensures forall q :: q in ReadRows(st, name, rows, codes).1 ==> q.interview == name
  {
    if rows != [] {
      var n := |rows| - 1;
      var prev := ReadRows(st, name, rows[..n], codes);
      ReadRowsFiled(st, name, rows[..n], codes);
      var row := ReadRow(prev.0, name, rows[n], codes);
      assert row.1.Some? ==> row.1.value.interview == name;
    }
  }

  /** Reading a transcript's rows numbers its quotes on and keeps `Follows`. */
  lemma {:induction false} ReadRowsFollows(st: Reading, name: string, rows: seq<seq<string>>, codes: seq<string>)
    requires Ready(st, codes)
    requires forall j :: 0 <= j < |rows| ==> |rows[j]| > 0
    ensures var r := ReadRows(st, name, rows, codes);
      Follows(st, r.0, r.1, codes)
  {
    if rows == [] {
      FollowsNothing(st, codes);
    } else {
      var n := |rows| - 1;
      var prev := ReadRows(st, name, rows[..n], codes);
      ReadRowsFollows(st, name, rows[..n], codes);
      var row := ReadRow(prev.0, name, rows[n], codes);
      FollowsRow(prev.0, name, rows[n], codes);
      var more := if row.1.Some? then [row.1.value] else [];
      FollowsTrans(st, prev.0, row.0, prev.1, more, codes);
    }
  }

  /**
    The transcripts in order: one interview per transcript, named after its
    path, holding that transcript's quotes; numbering and the last speaker
    carry over from one transcript to the next.
   */
  ghost function ReadAll(st: Reading, ts: seq<Transcript>, codes: seq<string>): (r: (Reading, seq<InterviewData>))
    requires Ready(st, codes)
    requires forall i :: 0 <= i < |ts| ==> Complete(ts[i])
    ensures Ready(r.0, codes) && |r.1| == |ts|
  {
    if ts == [] then (st, [])
    else
      var n := |ts| - 1;
      var prev := ReadAll(st, ts[..n], codes);
      var name := Stem(ts[n].path);
      assert Complete(ts[n]);
      var last := ReadRows(prev.0, name, ts[n].rows, codes);
      (last.0, prev.1 + [InterviewData(name, last.1)])
  }

  /** One interview per transcript, in order, each named after its path and holding only its own quotes. */
  lemma {:induction false} ReadAllNames(st: Reading, ts: seq<Transcript>, codes: seq<string>)
    requires Ready(st, codes)
    requires forall i :: 0 <= i < |ts| ==> Complete(ts[i])
    ensures var ivs := ReadAll(st, ts, codes).1;
      |ivs| == |ts| && (forall i :: 0 <= i < |ts| ==> ivs[i].name == Stem(ts[i].path)) && Filed(ivs)
  {
    if ts != [] {
      var n := |ts| - 1;
      var prev := ReadAll(st, ts[..n], codes);
      ReadAllNames(st, ts[..n], codes);
      var name := Stem(ts[n].path);
      assert Complete(ts[n]);
      ReadRowsFiled(prev.0, name, ts[n].rows, codes);
      var last := ReadRows(prev.0, name, ts[n].rows, codes);
      var ivs := prev.1 + [InterviewData(name, last.1)];
      assert ReadAll(st, ts, codes).1 == ivs;
      forall i | 0 <= i < |ts|
        ensures ivs[i].name == Stem(ts[i].path)
        ensures forall q :: q in ivs[i].quotes ==> q.interview == ivs[i].name
      {
        if i < n {
          assert ivs[i] == prev.1[i];
          assert prev.1[i].name == Stem(ts[..n][i].path);
          assert ts[..n][i] == ts[i];
        } else {
          assert i == n && |prev.1| == n;
          assert ivs[i] == InterviewData(name, last.1);
        }
      }
    }
  }

  /** `Follows` over all quotes of all interviews read. */
  lemma {:induction false} ReadAllFollows(st: Reading, ts: seq<Transcript>, codes: seq<string>)
    requires Ready(st, codes)
    requires forall i :: 0 <= i < |ts| ==> Complete(ts[i])
    ensures var r := ReadAll(st, ts, codes);
      Follows(st, r.0, AllQuotes(r.1), codes)
  {
    if ts == [] {
      FollowsNothing(st, codes);
    } else {
      var n := |ts| - 1;
      var prev := ReadAll(st, ts[..n], codes);
      ReadAllFollows(st, ts[..n], codes);
      var name := Stem(ts[n].path);
      assert Complete(ts[n]);
      var last := ReadRows(prev.0, name, ts[n].rows, codes);
      ReadRowsFollows(prev.0, name, ts[n].rows, codes);
      var ivs := prev.1 + [InterviewData(name, last.1)];
      assert ivs[..n] == prev.1;
      assert AllQuotes(ivs) == AllQuotes(prev.1) + last.1;
      FollowsTrans(st, prev.0, last.0, AllQuotes(prev.1), last.1, codes);
    }
  }

  /**
    The run `main` starts: numbering from 1, no previous speaker, an empty
    speaker set per code and an empty cache. Afterwards the quotes are
    numbered 1, 2, ... across all transcripts and each code's set holds
    exactly the speakers of the quotes coded with it.
   */
  lemma FreshRead(ts: seq<Transcript>, codes: seq<string>, counts: map<string, set<string>>)
    requires forall i :: 0 <= i < |ts| ==> Complete(ts[i])
    requires forall c :: c in counts <==> c in codes
    requires forall c :: c in counts ==> counts[c] == {}
    ensures var r := ReadAll(Reading(0, "", counts, map[]), ts, codes);
      var quotes := AllQuotes(r.1);
      && r.0.numQuotes == |quotes|
      && (forall k :: 0 <= k < |quotes| ==> quotes[k].quoteID == Num(k + 1) && Coded(quotes[k], codes))
      && r.0.counts.Keys == counts.Keys
      && (forall c :: c in counts ==> r.0.counts[c] == Speakers(quotes, c))
      && Util.CacheInCodes(r.0.cache, codes)
  {
    ReadAllFollows(Reading(0, "", counts, map[]), ts, codes);
  }

  // ---------------------------------------------------------------------------
  // The loops of readOriginalCSVs
  // ---------------------------------------------------------------------------

  /**
    The body of the loop over a row's code cells: strip the cell, skip it
    when blank, send a code the codebook lacks through `mergeCodes` (skipping
    it when that finds nothing), then append the code to the quote's list
    and credit the speaker with it.
   */
  method ReadCode(cell: string, codes: seq<string>, quoteCodes: seq<string>,
                  counts: map<string, set<string>>, counts': map<string, set<string>>, person: string, corr: Corrections)
    returns (quoteCodes': seq<string>, counts'': map<string, set<string>>)
    modifies corr
    requires Util.CacheInCodes(corr.cache, codes) && forall c :: c in codes ==> c in counts
    requires (forall c :: c in quoteCodes ==> c in codes) && counts' == AddPerson(counts, quoteCodes, person)
    ensures var step := ResolveCell(cell, codes, old(corr.cache));
      && quoteCodes' == (if step.0.Some? then quoteCodes + [step.0.value] else quoteCodes)
      && corr.cache == step.1
    ensures Util.CacheInCodes(corr.cache, codes) && forall c :: c in quoteCodes' ==> c in codes
    ensures counts'' == AddPerson(counts, quoteCodes', person)
  {
    quoteCodes', counts'' := quoteCodes, counts';
    var strippedCode := Util.StripQuotesSpace(cell);
    if strippedCode == "" {
      return;
    }
    if strippedCode !in codes {
      var correctedCode := corr.MergeCodes(strippedCode, codes);
      if correctedCode == "" {
        return;
      }
      strippedCode := correctedCode;
    }
    quoteCodes' := quoteCodes + [strippedCode];
    assert quoteCodes'[..|quoteCodes'| - 1] == quoteCodes;
    counts'' := counts'[strippedCode := counts'[strippedCode] + {person}];
  }

  /** The loop over a row's code cells: each kept code joins the quote's list and credits the speaker. */
  method ReadCodes(cells: seq<string>, codes: seq<string>, counts: map<string, set<string>>, person: string, corr: Corrections)
    returns (quoteCodes: seq<string>, counts': map<string, set<string>>)
    modifies corr
    requires Util.CacheInCodes(corr.cache, codes) && forall c :: c in codes ==> c in counts
    ensures (quoteCodes, corr.cache) == ResolveCells(cells, codes, old(corr.cache))
    ensures forall c :: c in quoteCodes ==> c in codes
    ensures counts' == AddPerson(counts, quoteCodes, person)
    ensures Util.CacheInCodes(corr.cache, codes)
  {
    ghost var cache0 := corr.cache;
    quoteCodes := [];
    counts' := counts;
    for j := 0 to |cells|
      invariant quoteCodes == ResolveCells(cells[..j], codes, cache0).0
      invariant corr.cache == ResolveCells(cells[..j], codes, cache0).1
      invariant Util.CacheInCodes(corr.cache, codes)
      invariant forall c :: c in quoteCodes ==> c in codes
      invariant counts' == AddPerson(counts, quoteCodes, person)
    {
      assert cells[..j + 1][..j] == cells[..j] && cells[..j + 1][j] == cells[j];
      ghost var step := ResolveCell(cells[j], codes, corr.cache);
      assert ResolveCells(cells[..j + 1], codes, cache0)
        == (if step.0.Some? then quoteCodes + [step.0.value] else quoteCodes, step.1);
      quoteCodes, counts' := ReadCode(cells[j], codes, quoteCodes, counts, counts', person, corr);
    }
    assert cells[..|cells|] == cells;
  }

  /** The body of the row loop: a blank first cell adds nothing; otherwise the numbered, coded quote joins `interview`. */
  method ReadOneRow(interview: Interview, row: seq<string>, codes: seq<string>,
                    numQuotes: nat, lastPerson: string, counts: map<string, set<string>>, corr: Corrections)
    returns (numQuotes': nat, lastPerson': string, counts': map<string, set<string>>)
    modifies interview, corr
    requires |row| > 0 && Ready(Reading(numQuotes, lastPerson, counts, corr.cache), codes)
    ensures var r := ReadRow(Reading(numQuotes, lastPerson, counts, old(corr.cache)), interview.name, row, codes);
      && Reading(numQuotes', lastPerson', counts', corr.cache) == r.0
      && interview.quotes == old(interview.quotes) + if r.1.Some? then [r.1.value] else []
  {
    numQuotes', lastPerson', counts' := numQuotes, lastPerson, counts;
    var text := Util.StripQuotesSpace(row[0]);
    if text == "" {
      return;
    }
    numQuotes' := numQuotes' + 1;
    var split := SplitSpeaker(text, lastPerson);
    var person := split.0;
    lastPerson' := person;
    var quoteCodes;
    quoteCodes, counts' := ReadCodes(row[1..], codes, counts, person, corr);
    interview.AddQuote(Quote(interview.name, Num(numQuotes'), person, split.1, quoteCodes));
  }

  /** The loop over one transcript's rows, appending each quote to `interview`. */
  method ReadTranscript(interview: Interview, rows: seq<seq<string>>, codes: seq<string>,
                        numQuotes: nat, lastPerson: string, counts: map<string, set<string>>, corr: Corrections)
    returns (numQuotes': nat, lastPerson': string, counts': map<string, set<string>>)
    modifies interview, corr
    requires Ready(Reading(numQuotes, lastPerson, counts, corr.cache), codes)
    requires forall j :: 0 <= j < |rows| ==> |rows[j]| > 0
    ensures var r := ReadRows(Reading(numQuotes, lastPerson, counts, old(corr.cache)), interview.name, rows, codes);
      Reading(numQuotes', lastPerson', counts', corr.cache) == r.0 && interview.quotes == old(interview.quotes) + r.1
  {
    ghost var st0 := Reading(numQuotes, lastPerson, counts, corr.cache);
    ghost var quotes0 := interview.quotes;
    numQuotes', lastPerson', counts' := numQuotes, lastPerson, counts;
    for i := 0 to |rows|
      invariant var r := ReadRows(st0, interview.name, rows[..i], codes);
        Reading(numQuotes', lastPerson', counts', corr.cache) == r.0 && interview.quotes == quotes0 + r.1
    {
      assert rows[..i + 1][..i] == rows[..i] && rows[..i + 1][i] == rows[i];
      numQuotes', lastPerson', counts' := ReadOneRow(interview, rows[i], codes, numQuotes', lastPerson', counts', corr);
    }
    assert rows[..|rows|] == rows;
  }

  /**
    The body of the transcript loop: a new interview named after the `i`th
    file, filled from its rows. The ghost `st0` is the state the whole run
    started from, so the result is stated as one more step of `ReadAll`.
   */
  method ReadInterview(ghost st0: Reading, transcripts: seq<Transcript>, i: nat, codes: seq<string>, interviews: seq<Interview>,
                       numQuotes: nat, lastPerson: string, counts: map<string, set<string>>, corr: Corrections)
    returns (interviews': seq<Interview>, numQuotes': nat, lastPerson': string, counts': map<string, set<string>>)
    modifies corr
    requires Ready(st0, codes) && i < |transcripts| && forall j :: 0 <= j < |transcripts| ==> Complete(transcripts[j])
    requires Reading(numQuotes, lastPerson, counts, corr.cache) == ReadAll(st0, transcripts[..i], codes).0
    requires Values(interviews) == ReadAll(st0, transcripts[..i], codes).1
    ensures |interviews'| == |interviews| + 1 && interviews'[..|interviews|] == interviews
    ensures fresh(interviews'[|interviews|])
    ensures Reading(numQuotes', lastPerson', counts', corr.cache) == ReadAll(st0, transcripts[..i + 1], codes).0
    ensures Values(interviews') == ReadAll(st0, transcripts[..i + 1], codes).1
  {
    assert transcripts[..i + 1][..i] == transcripts[..i] && transcripts[..i + 1][i] == transcripts[i];
    assert Complete(transcripts[i]);
    ghost var prev := ReadAll(st0, transcripts[..i], codes);
    ghost var last := ReadRows(prev.0, Stem(transcripts[i].path), transcripts[i].rows, codes);
    assert ReadAll(st0, transcripts[..i + 1], codes) == (last.0, prev.1 + [InterviewData(Stem(transcripts[i].path), last.1)]);
    var interview := new Interview(Stem(transcripts[i].path));
    assert interview.name == Stem(transcripts[i].path);
    assert Reading(numQuotes, lastPerson, counts, corr.cache) == prev.0;
    numQuotes', lastPerson', counts' := ReadTranscript(interview, transcripts[i].rows, codes, numQuotes, lastPerson, counts, corr);
    assert Reading(numQuotes', lastPerson', counts', corr.cache) == last.0;
    assert interview.quotes == [] + last.1;
    assert [] + last.1 == last.1;
    assert interview.Value() == InterviewData(Stem(transcripts[i].path), last.1);
    interviews' := interviews + [interview];
    assert interviews'[..|interviews'| - 1] == interviews;
  }

  /**
    `readOriginalCSVs`: one interview per transcript, in order. The quote
    counter and the last speaker run on across transcripts. An empty row
    makes `row[0]` raise and ends the run; `ok` is false exactly then, and
    the model then changes nothing.
   */
  method ReadOriginalCSVs(transcripts: seq<Transcript>, codes: seq<string>,
                          codeCountsPerSpeaker: map<string, set<string>>, corr: Corrections)
    returns (ok: bool, interviews: seq<Interview>, counts: map<string, set<string>>)
    modifies corr
    requires Ready(Reading(0, "", codeCountsPerSpeaker, corr.cache), codes)
    ensures ok <==> forall i :: 0 <= i < |transcripts| ==> Complete(transcripts[i])
    ensures !ok ==> interviews == [] && counts == codeCountsPerSpeaker && corr.cache == old(corr.cache)
    ensures ok ==> var r := ReadAll(Reading(0, "", codeCountsPerSpeaker, old(corr.cache)), transcripts, codes);
      Values(interviews) == r.1 && counts == r.0.counts && corr.cache == r.0.cache
  {
    interviews := [];
    counts := codeCountsPerSpeaker;
    ok := forall i :: 0 <= i < |transcripts| ==> Complete(transcripts[i]);
    if !ok {
      return;
    }
    ghost var st0 := Reading(0, "", codeCountsPerSpeaker, corr.cache);
    var numQuotes: nat := 0;
    var lastPerson := "";
    for i := 0 to |transcripts|
      invariant Reading(numQuotes, lastPerson, counts, corr.cache) == ReadAll(st0, transcripts[..i], codes).0
      invariant Values(interviews) == ReadAll(st0, transcripts[..i], codes).1
    {
      interviews, numQuotes, lastPerson, counts := ReadInterview(st0, transcripts, i, codes, interviews, numQuotes, lastPerson, counts, corr);
    }
    assert transcripts[..|transcripts|] == transcripts;
  }
}
