/**
  code-extract.py: the quote and interview records, its own `urlSafe`, the
  module-global correction cache used by its `mergeCodes`, the codebook load
  at the start of `main`, and the code-frequency count inside `genIndex`.
 */
module CodeExtract {
  import opened PyStr
  import Util

  // ---------------------------------------------------------------------------
  // Records
  // ---------------------------------------------------------------------------

  /**
    A quote id is the int counter when quotes come from raw transcripts and
    the CSV text when they are read back from a master file; `Absent` is the
    `None` a `csv.DictReader` gives for a row too short to have the field.
   */
  datatype QuoteId = Num(n: nat) | Text(s: string) | Absent

  /** One coded quote. `interview` is the name of the interview it belongs to. */
  datatype Quote = Quote(interview: string, quoteID: QuoteId, speaker: string, text: string, codes: seq<string>)

  /** The value of an `Interview` object at one moment. */
  datatype InterviewData = InterviewData(name: string, quotes: seq<Quote>)

  /** An interview: its name and the quotes appended to it. */
  class Interview {
    const name: string
    var quotes: seq<Quote>

    constructor (name: string)
      ensures this.name == name && quotes == []
    {
      this.name := name;
      quotes := [];
    }

    /** `addQuote` */
    method AddQuote(quote: Quote)
      modifies this
      ensures quotes == old(quotes) + [quote]
    {
      quotes := quotes + [quote];
    }

    function Value(): InterviewData
      reads this
    {
      InterviewData(name, quotes)
    }
  }

  /** Every quote is filed under its own interview's name. */
  predicate Filed(ivs: seq<InterviewData>) {
    forall i, q :: 0 <= i < |ivs| && q in ivs[i].quotes ==> q.interview == ivs[i].name
  }

  /** The values of a list of interview objects. */
  function Values(ivs: seq<Interview>): (vs: seq<InterviewData>)
    reads ivs
    ensures |vs| == |ivs|
    ensures forall i :: 0 <= i < |ivs| ==> vs[i] == ivs[i].Value()
  {
    if ivs == [] then [] else Values(ivs[..|ivs| - 1]) + [ivs[|ivs| - 1].Value()]
  }

  /** All quotes of all interviews, interview by interview. */
  function AllQuotes(ivs: seq<InterviewData>): seq<Quote> {
    if ivs == [] then [] else AllQuotes(ivs[..|ivs| - 1]) + ivs[|ivs| - 1].quotes
  }

  /** All quotes of a list of interview objects, interview by interview. */
  function QuotesOf(ivs: seq<Interview>): seq<Quote>
    reads ivs
  {
    if ivs == [] then [] else QuotesOf(ivs[..|ivs| - 1]) + ivs[|ivs| - 1].quotes
  }

  // ---------------------------------------------------------------------------
  // urlSafe (the code-extract.py version: no strip, three characters)
  // ---------------------------------------------------------------------------

  function UrlSafe(s: string): string {
    var a := Replace(s, '/', "_");
    var b := Replace(a, '?', "_");
    Replace(b, ' ', "_")
  }

  predicate UrlUnsafe(c: char) {
    c == '/' || c == '?' || c == ' '
  }

  /** Each `/`, `?` and space becomes `_`; every other character stays where it is. */
  lemma UrlSafePerPosition(s: string)
    ensures |UrlSafe(s)| == |s|
    ensures forall i :: 0 <= i < |s| ==> UrlSafe(s)[i] == if UrlUnsafe(s[i]) then '_' else s[i]
  {
    ReplaceOneChar(s, '/', '_');
    var a := Replace(s, '/', "_");
    ReplaceOneChar(a, '?', '_');
    var b := Replace(a, '?', "_");
    ReplaceOneChar(b, ' ', '_');
  }

  lemma UrlSafeClean(s: string)
    ensures forall c :: c in UrlSafe(s) ==> !UrlUnsafe(c)
  {
  }

  lemma UrlSafeFixedPoint(s: string)
    requires forall c :: c in s ==> !UrlUnsafe(c)
    ensures UrlSafe(s) == s
  {
    ReplaceAbsent(s, '/', "_");
    ReplaceAbsent(s, '?', "_");
    ReplaceAbsent(s, ' ', "_");
  }

  // ---------------------------------------------------------------------------
  // mergeCodes with the module-global cache `codeCorrections`
  // ---------------------------------------------------------------------------

  /** The module-level dict `codeCorrections`, which `mergeCodes` reads and extends. */
  class Corrections {
    var cache: map<string, string>

    constructor ()
      ensures cache == map[]
    {
      cache := map[];
    }

    /**
      `mergeCodes(code, codes)`: a cached correction wins; otherwise the last
      nearest codebook entry is returned and recorded; no codebook gives `''`.
     */
    method MergeCodes(code: string, codes: seq<string>) returns (r: string)
      modifies this
      ensures (r, cache) == Util.CorrectOrNearest(code, codes, old(cache))
      ensures old(cache).Keys <= cache.Keys && forall k :: k in old(cache) ==> cache[k] == old(cache)[k]
      ensures Util.CacheInCodes(old(cache), codes) ==> (r == "" || r in codes) && Util.CacheInCodes(cache, codes)
    {
      if Util.CacheInCodes(cache, codes) {
        Util.CorrectOrNearestInCodes(code, codes, cache);
      }
      if code in cache {
        return cache[code];
      }
      var nearest := Util.NearestCode(code, codes);
      if nearest.Some? {
        cache := cache[code := nearest.value];
        return nearest.value;
      }
      return "";
    }
  }

  // ---------------------------------------------------------------------------
  // Codebook load (main)
  // ---------------------------------------------------------------------------

  /** The codes a codebook's rows yield: the stripped first cell of every row where it is not empty. */
  function CodebookCodes(rows: seq<seq<string>>): (codes: seq<string>)
    requires forall i :: 0 <= i < |rows| ==> |rows[i]| > 0
    ensures forall i :: 0 <= i < |codes| ==> codes[i] != "" && !IsSpace(codes[i][0]) && !IsSpace(codes[i][|codes[i]| - 1])
    ensures |codes| <= |rows|
  {
    if rows == [] then []
    else
      var prev := CodebookCodes(rows[..|rows| - 1]);
      var code := Util.StripQuotesSpace(rows[|rows| - 1][0]);
      Util.StripQuotesSpaceTrimmed(rows[|rows| - 1][0]);
      if code != "" then prev + [code] else prev
  }

  /**
    `main`'s codebook loop: one code per row whose stripped first cell is not
    empty, in file order and with duplicates kept, and an empty speaker set
    for each. A row with no cells at all makes `row[0]` raise, which ends the
    run: `ok` is false exactly then.
   */
  method LoadCodebook(rows: seq<seq<string>>) returns (ok: bool, codes: seq<string>, codeCountsPerSpeaker: map<string, set<string>>)
    ensures ok <==> forall i :: 0 <= i < |rows| ==> |rows[i]| > 0
    ensures ok ==> codes == CodebookCodes(rows)
    ensures ok ==> forall c :: c in codeCountsPerSpeaker <==> c in codes
    ensures ok ==> forall c :: c in codeCountsPerSpeaker ==> codeCountsPerSpeaker[c] == {}
  {
    codes := [];
    codeCountsPerSpeaker := map[];
    // `row[0]` raises on the first empty row, and the run ends with nothing loaded.
    ok := forall i :: 0 <= i < |rows| ==> |rows[i]| > 0;
    if !ok {
      return;
    }
    for i := 0 to |rows|
      invariant codes == CodebookCodes(rows[..i])
      invariant forall c :: c in codeCountsPerSpeaker <==> c in codes
      invariant forall c :: c in codeCountsPerSpeaker ==> codeCountsPerSpeaker[c] == {}
    {
      ghost var prefix := rows[..i + 1];
      assert prefix[..i] == rows[..i] && prefix[i] == rows[i];
      var code := Util.StripQuotesSpace(rows[i][0]);
      if code != "" {
        codes := codes + [code];
        codeCountsPerSpeaker := codeCountsPerSpeaker[code := {}];
      }
    }
    assert rows[..|rows|] == rows;
  }

  // ---------------------------------------------------------------------------
  // The code histogram of genIndex
  // ---------------------------------------------------------------------------

  /** How many quotes list `code` among their codes. */
  function Uses(quotes: seq<Quote>, code: string): nat {
    if quotes == [] then 0
    else Uses(quotes[..|quotes| - 1], code) + (if code in quotes[|quotes| - 1].codes then 1 else 0)
  }

  /** How many times `code` appears in the codebook list. */
  function Occurrences(codes: seq<string>, code: string): nat {
    if codes == [] then 0
    else Occurrences(codes[..|codes| - 1], code) + (if codes[|codes| - 1] == code then 1 else 0)
  }

  lemma {:induction false} UsesConcat(a: seq<Quote>, b: seq<Quote>, code: string)
    ensures Uses(a + b, code) == Uses(a, code) + Uses(b, code)
    decreases |b|
  {
    if b == [] {
      assert a + b == a;
    } else {
      var n := |b| - 1;
      assert (a + b)[..|a + b| - 1] == a + b[..n];
      UsesConcat(a, b[..n], code);
    }
  }

  lemma {:induction false} OccurrencesPositive(codes: seq<string>, code: string)
    ensures Occurrences(codes, code) > 0 <==> code in codes
  {
    if codes != [] {
      var n := |codes| - 1;
      OccurrencesPositive(codes[..n], code);
      assert codes == codes[..n] + [codes[n]];
    }
  }

  /** Over a duplicate-free codebook every code is listed once. */
  lemma OccurrencesDistinct(codes: seq<string>, code: string)
    requires forall i, j :: 0 <= i < j < |codes| ==> codes[i] != codes[j]
    requires code in codes
    ensures Occurrences(codes, code) == 1
  {
    if codes != [] {
      var n := |codes| - 1;
      if codes[n] == code {
        assert code !in codes[..n];
        OccurrencesPositive(codes[..n], code);
      } else {
        assert code in codes[..n];
        OccurrencesDistinct(codes[..n], code);
      }
    }
  }

  function Get(h: map<string, nat>, code: string): nat {
    if code in h then h[code] else 0
  }

  lemma MulSucc(a: nat, b: nat)
    ensures (a + 1) * b == a * b + b
  {
  }

  /** `histogram` once `amount` more uses of `code` are counted. */
  function Bump(histogram: map<string, nat>, code: string, amount: nat): map<string, nat> {
    if amount == 0 then histogram else histogram[code := Get(histogram, code) + amount]
  }

  /** Counting in two steps is counting the sum. */
  lemma BumpBump(histogram: map<string, nat>, code: string, a: nat, b: nat)
    ensures Bump(Bump(histogram, code, a), code, b) == Bump(histogram, code, a + b)
  {
  }

  /**
    The innermost loop of the count: one more for `code` per quote that lists
    it, the key being created at its first use.
   */
  method CountQuotes(histogram: map<string, nat>, code: string, quotes: seq<Quote>) returns (h: map<string, nat>)
    ensures h == Bump(histogram, code, Uses(quotes, code))
  {
    h := histogram;
    for q := 0 to |quotes|
      invariant h == Bump(histogram, code, Uses(quotes[..q], code))
    {
      assert quotes[..q + 1][..q] == quotes[..q];
      if code in quotes[q].codes {
        if code in h {
          h := h[code := h[code] + 1];
        } else {
          h := h[code := 1];
        }
      }
    }
    assert quotes[..|quotes|] == quotes;
  }

  /** The middle loop of the count: the uses of one code over every interview. */
  method CountCode(histogram: map<string, nat>, code: string, interviews: seq<Interview>) returns (h: map<string, nat>)
    ensures h == Bump(histogram, code, Uses(QuotesOf(interviews), code))
  {
    h := histogram;
    for k := 0 to |interviews|
      invariant h == Bump(histogram, code, Uses(QuotesOf(interviews[..k]), code))
    {
      var quotes := interviews[k].quotes;
      assert interviews[..k + 1][..k] == interviews[..k];
      UsesConcat(QuotesOf(interviews[..k]), quotes, code);
      BumpBump(histogram, code, Uses(QuotesOf(interviews[..k]), code), Uses(quotes, code));
      h := CountQuotes(h, code, quotes);
    }
    assert interviews[..|interviews|] == interviews;
  }

  /** Counting one more codebook entry keeps the per-code product. */
  lemma HistogramStep(before: map<string, nat>, after: map<string, nat>, codes: seq<string>, i: nat, all: seq<Quote>)
    requires i < |codes|
    requires after == Bump(before, codes[i], Uses(all, codes[i]))
    requires forall c :: Get(before, c) == Occurrences(codes[..i], c) * Uses(all, c)
    ensures forall c :: Get(after, c) == Occurrences(codes[..i + 1], c) * Uses(all, c)
  {
    forall c
      ensures Get(after, c) == Occurrences(codes[..i + 1], c) * Uses(all, c)
    {
      assert codes[..i + 1][..i] == codes[..i];
      if c == codes[i] {
        MulSucc(Occurrences(codes[..i], c), Uses(all, c));
      }
    }
  }

  /** A positive count is a product of positive factors, and conversely. */
  lemma HistogramKeys(histogram: map<string, nat>, codes: seq<string>, all: seq<Quote>)
    requires forall c :: c in histogram ==> histogram[c] > 0
    requires forall c :: Get(histogram, c) == Occurrences(codes, c) * Uses(all, c)
    ensures forall c :: c in histogram <==> c in codes && Uses(all, c) > 0
  {
    forall c
      ensures c in histogram <==> c in codes && Uses(all, c) > 0
    {
      OccurrencesPositive(codes, c);
    }
  }

  /**
    The count at the start of `genIndex`: for every code in the codebook list
    and every quote of every interview, one more for that code when the
    quote lists it. A code is a key exactly when it is counted at least once,
    and its count is the number of quotes using it times the number of times
    the codebook lists it.
   */
  method Histogram(interviews: seq<Interview>, codes: seq<string>) returns (histogram: map<string, nat>)
    ensures forall c :: c in histogram <==> c in codes && Uses(QuotesOf(interviews), c) > 0
    ensures forall c :: c in histogram ==>
      histogram[c] == Occurrences(codes, c) * Uses(QuotesOf(interviews), c)
  {
    ghost var all := QuotesOf(interviews);
    histogram := map[];
    for i := 0 to |codes|
      invariant forall c :: c in histogram ==> histogram[c] > 0
      invariant forall c :: Get(histogram, c) == Occurrences(codes[..i], c) * Uses(all, c)
    {
      ghost var before := histogram;
      histogram := CountCode(histogram, codes[i], interviews);
      HistogramStep(before, histogram, codes, i, all);
    }
    assert codes[..|codes|] == codes;
    HistogramKeys(histogram, codes, all);
  }
}
