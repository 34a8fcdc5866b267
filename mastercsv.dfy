/**
  The master snapshot of code-extract.py: `genMasterCSV` writes every quote
  of every interview as one CSV row, `readMasterCSV` regroups such rows into
  interviews by name, and `readGeneratedCSVs` overwrites the quotes of a
  master snapshot from update files and returns the interviews sorted by
  name. CSV files are their rows, already split into fields.
 */
module MasterCsv {
  import opened PyStr
  import opened CodeExtract
  import Ingestion

  // ---------------------------------------------------------------------------
  // Rows as csv.DictReader sees them
  // ---------------------------------------------------------------------------

  /** The header `genMasterCSV` writes, and the field names both readers give their `DictReader`. */
  const Fields: seq<string> := ["interviewName", "quoteID", "speaker", "text"]

  /** The rows a `csv.DictReader` yields: it passes over rows with no fields at all. */
  function Records(rows: seq<seq<string>>): (rs: seq<seq<string>>)
    ensures |rs| <= |rows|
    ensures forall k :: 0 <= k < |rs| ==> rs[k] != []
  {
    if rows == [] then []
    else Records(rows[..|rows| - 1]) + (if rows[|rows| - 1] == [] then [] else [rows[|rows| - 1]])
  }

  /** Rows that all have fields are all records, in order. */
  lemma {:induction false} RecordsOfFull(rows: seq<seq<string>>)
    requires forall k :: 0 <= k < |rows| ==> rows[k] != []
    ensures Records(rows) == rows
  {
    if rows != [] {
      RecordsOfFull(rows[..|rows| - 1]);
      assert rows == rows[..|rows| - 1] + [rows[|rows| - 1]];
    }
  }

  /** A named field of a record: `None` in Python when the row is too short, modelled as `""`. */
  function Field(r: seq<string>, i: nat): string {
    if i < |r| then r[i] else ""
  }

  /** The `quoteID` field of a record, absent on a one-field row. */
  function RowId(r: seq<string>): QuoteId {
    if |r| > 1 then Text(r[1]) else Absent
  }

  /** The `codes` key (the `restkey`): present only on rows of more than four fields; `[]` otherwise. */
  function RowCodes(r: seq<string>): seq<string> {
    if |r| > 4 then r[4..] else []
  }

  /** The quote `readMasterCSV` builds from one record, filed under the record's interview name. */
  function ParseQuote(r: seq<string>): Quote
    requires r != []
  {
    Quote(r[0], RowId(r), Field(r, 2), Field(r, 3), RowCodes(r))
  }

  // ---------------------------------------------------------------------------
  // genMasterCSV
  // ---------------------------------------------------------------------------

  /** How `csv.writer` renders a quote id: an int in decimal, a string as it is, `None` as an empty field. */
  function IdCell(id: QuoteId): string {
    match id
    case Num(n) => Decimal(n)
    case Text(s) => s
    case Absent => ""
  }

  /** The master row of one quote: its interview name, id, speaker and text, then its codes. */
  function QuoteRow(q: Quote): seq<string> {
    [q.interview, IdCell(q.quoteID), q.speaker, q.text] + q.codes
  }

  /** One row per quote, in order. */
  function QuoteRows(quotes: seq<Quote>): (rows: seq<seq<string>>)
    ensures |rows| == |quotes|
    ensures forall k :: 0 <= k < |quotes| ==> rows[k] == QuoteRow(quotes[k])
  {
    if quotes == [] then [] else QuoteRows(quotes[..|quotes| - 1]) + [QuoteRow(quotes[|quotes| - 1])]
  }

  /** `genMasterCSV`: the header, then one row per quote, interview by interview. */
  function GenMasterCSV(interviews: seq<InterviewData>): seq<seq<string>> {
    [Fields] + QuoteRows(AllQuotes(interviews))
  }

  lemma QuoteRowsConcat(a: seq<Quote>, b: seq<Quote>)
    ensures QuoteRows(a + b) == QuoteRows(a) + QuoteRows(b)
  {
  }

  // ---------------------------------------------------------------------------
  // readMasterCSV
  // ---------------------------------------------------------------------------

  /** The quotes filed under `name` so far: none before its interview is created. */
  function Under(m: map<string, seq<Quote>>, name: string): seq<Quote> {
    if name in m then m[name] else []
  }

  /**
    The interviews the records after the header make: each record adds its
    quote to the interview its first field names, creating that interview
    at its first record.
   */
  function Group(records: seq<seq<string>>): map<string, seq<Quote>> {
    if records == [] then map[]
    else
      var n := |records| - 1;
      var m := Group(records[..n]);
      if records[n] == [] then m
      else
        var q := ParseQuote(records[n]);
        m[q.interview := Under(m, q.interview) + [q]]
  }

  /** Every quote is filed under its own interview name, and an interview exists only with a quote. */
  lemma {:induction false} GroupFiled(records: seq<seq<string>>)
    ensures forall n :: n in Group(records) ==> Group(records)[n] != []
    ensures forall n, q :: n in Group(records) && q in Group(records)[n] ==> q.interview == n
  {
    if records != [] {
      GroupFiled(records[..|records| - 1]);
    }
  }

  /**
    What `readMasterCSV` reads from a file: `next(reader)` drops the first
    record (the header) and raises on a file without one, which ends the run.
   */
  function ReadMaster(rows: seq<seq<string>>): Option<map<string, seq<Quote>>> {
    var rs := Records(rows);
    if rs == [] then None else Some(Group(rs[1..]))
  }

  // ---------------------------------------------------------------------------
  // The round trip
  // ---------------------------------------------------------------------------

  /** A quote as it is read back: its id becomes the text the writer gave it. */
  function Stamp(q: Quote): Quote {
    q.(quoteID := Text(IdCell(q.quoteID)))
  }

  /** The quotes as they are read back, in order. */
  function Stamps(quotes: seq<Quote>): (r: seq<Quote>)
    ensures |r| == |quotes|
  {
    if quotes == [] then [] else Stamps(quotes[..|quotes| - 1]) + [Stamp(quotes[|quotes| - 1])]
  }

  /** Reading a written row gives back the quote, its id as text. */
  lemma ParseQuoteRow(q: Quote)
    ensures QuoteRow(q) != [] && ParseQuote(QuoteRow(q)) == Stamp(q)
  {
    var r := QuoteRow(q);
    assert r[4..] == q.codes;
  }

  lemma AppendAssoc<T>(a: seq<T>, b: seq<T>, c: seq<T>)
    ensures a + b + c == a + (b + c)
  {
  }

  /** One more row adds its quote to the interview it names. */
  lemma GroupSnoc(records: seq<seq<string>>, r: seq<string>)
    requires r != []
    ensures var q := ParseQuote(r);
      Group(records + [r]) == Group(records)[q.interview := Under(Group(records), q.interview) + [q]]
  {
    assert (records + [r])[..|records|] == records;
  }

  /** The step of `GroupAppend`: the row of one more quote filed under `name`. */
  lemma GroupExtend(records: seq<seq<string>>, name: string, quotes: seq<Quote>, last: Quote)
    requires last.interview == name
    requires Group(records + QuoteRows(quotes)) == Group(records)[name := Under(Group(records), name) + Stamps(quotes)]
    ensures Group(records + QuoteRows(quotes + [last]))
      == Group(records)[name := Under(Group(records), name) + Stamps(quotes + [last])]
  {
    var front := records + QuoteRows(quotes);
    assert QuoteRows(quotes + [last]) == QuoteRows(quotes) + [QuoteRow(last)];
    assert records + QuoteRows(quotes + [last]) == front + [QuoteRow(last)];
    ParseQuoteRow(last);
    GroupSnoc(front, QuoteRow(last));
    assert (quotes + [last])[..|quotes|] == quotes;
    assert Stamps(quotes + [last]) == Stamps(quotes) + [Stamp(last)];
    AppendAssoc(Under(Group(records), name), Stamps(quotes), [Stamp(last)]);
  }

  /** Reading the rows of quotes filed under one name appends them, stamped, to that interview. */
  lemma {:induction false} GroupAppend(records: seq<seq<string>>, name: string, quotes: seq<Quote>)
    requires quotes != [] && forall q :: q in quotes ==> q.interview == name
    ensures Group(records + QuoteRows(quotes)) == Group(records)[name := Under(Group(records), name) + Stamps(quotes)]
    decreases |quotes|
  {
    var n := |quotes| - 1;
    assert quotes == quotes[..n] + [quotes[n]];
    assert quotes[n] in quotes;
    if n == 0 {
      ParseQuoteRow(quotes[0]);
      assert records + QuoteRows(quotes) == records + [QuoteRow(quotes[0])];
      GroupSnoc(records, QuoteRow(quotes[0]));
      assert Stamps(quotes) == [Stamp(quotes[0])];
    } else {
      GroupAppend(records, name, quotes[..n]);
      GroupExtend(records, name, quotes[..n], quotes[n]);
    }
  }

  /** Written rows are never empty, so the reader passes over none of them. */
  lemma QuoteRowsFull(quotes: seq<Quote>)
    ensures forall k :: 0 <= k < |QuoteRows(quotes)| ==> QuoteRows(quotes)[k] != []
  {
    forall k | 0 <= k < |quotes|
      ensures QuoteRows(quotes)[k] != []
    {
      ParseQuoteRow(quotes[k]);
    }
  }

  /** No two interviews share a name. */
  predicate DistinctNames(ivs: seq<InterviewData>) {
    forall i, j :: 0 <= i < j < |ivs| ==> ivs[i].name != ivs[j].name
  }

  /** The interviews a snapshot's rows should regroup into: those with quotes, under their names, stamped. */
  function Regrouped(ivs: seq<InterviewData>): map<string, seq<Quote>> {
    if ivs == [] then map[]
    else
      var n := |ivs| - 1;
      var m := Regrouped(ivs[..n]);
      if ivs[n].quotes == [] then m else m[ivs[n].name := Under(m, ivs[n].name) + Stamps(ivs[n].quotes)]
  }

  /** The rows of a snapshot whose quotes are filed under their interviews regroup as `Regrouped` says. */
  lemma {:induction false} GroupAllQuotes(ivs: seq<InterviewData>)
    requires Filed(ivs)
    ensures Group(QuoteRows(AllQuotes(ivs))) == Regrouped(ivs)
  {
    if ivs != [] {
      var n := |ivs| - 1;
      var prefix := ivs[..n];
      var last := ivs[n];
      assert Filed(prefix) by {
        forall i, q | 0 <= i < |prefix| && q in prefix[i].quotes
          ensures q.interview == prefix[i].name
        {
          assert prefix[i] == ivs[i];
        }
      }
      GroupAllQuotes(prefix);
      var before := QuoteRows(AllQuotes(prefix));
      QuoteRowsConcat(AllQuotes(prefix), last.quotes);
      assert QuoteRows(AllQuotes(ivs)) == before + QuoteRows(last.quotes);
      if last.quotes == [] {
        assert before + QuoteRows(last.quotes) == before;
      } else {
        assert forall q :: q in last.quotes ==> q.interview == last.name;
        GroupAppend(before, last.name, last.quotes);
      }
    }
  }

  /** Every interview `Regrouped` holds is one of the snapshot's that has quotes. */
  lemma {:induction false} RegroupedOnly(ivs: seq<InterviewData>)
    ensures forall nm :: nm in Regrouped(ivs) ==> exists i :: 0 <= i < |ivs| && ivs[i].name == nm && ivs[i].quotes != []
  {
    if ivs != [] {
      var n := |ivs| - 1;
      var prefix := ivs[..n];
      RegroupedOnly(prefix);
      forall nm | nm in Regrouped(ivs)
        ensures exists i :: 0 <= i < |ivs| && ivs[i].name == nm && ivs[i].quotes != []
      {
        if nm in Regrouped(prefix) {
          var i :| 0 <= i < |prefix| && prefix[i].name == nm && prefix[i].quotes != [];
          assert ivs[i] == prefix[i];
        } else {
          assert ivs[n].name == nm && ivs[n].quotes != [];
        }
      }
    }
  }

  /** With distinct names, `Regrouped` holds each interview that has quotes, under its name, stamped. */
  lemma {:induction false} RegroupedHas(ivs: seq<InterviewData>)
    requires DistinctNames(ivs)
    ensures forall i :: 0 <= i < |ivs| && ivs[i].quotes != [] ==>
      ivs[i].name in Regrouped(ivs) && Regrouped(ivs)[ivs[i].name] == Stamps(ivs[i].quotes)
  {
    if ivs != [] {
      var n := |ivs| - 1;
      var prefix := ivs[..n];
      assert DistinctNames(prefix) by {
        forall i, j | 0 <= i < j < |prefix|
          ensures prefix[i].name != prefix[j].name
        {
          assert prefix[i] == ivs[i] && prefix[j] == ivs[j];
        }
      }
      RegroupedHas(prefix);
      RegroupedOnly(prefix);
      var m0 := Regrouped(prefix);
      var m := Regrouped(ivs);
      if ivs[n].quotes != [] {
        assert ivs[n].name !in m0 by {
          if ivs[n].name in m0 {
            assert false;
          }
        }
        assert Under(m0, ivs[n].name) + Stamps(ivs[n].quotes) == Stamps(ivs[n].quotes);
      }
      forall i | 0 <= i < |ivs| && ivs[i].quotes != []
        ensures ivs[i].name in m && m[ivs[i].name] == Stamps(ivs[i].quotes)
      {
        if i < n {
          assert ivs[i] == prefix[i];
          assert ivs[i].name != ivs[n].name;
          assert m0[ivs[i].name] == Stamps(ivs[i].quotes);
          if ivs[n].quotes == [] {
            assert m == m0;
          } else {
            assert m[ivs[i].name] == m0[ivs[i].name];
          }
        }
      }
    }
  }

  /**
    Reading back what `genMasterCSV` wrote gives every interview that has
    quotes, under its name, with the same quotes in the same order (their
    ids now the text written for them), and no other interview.
   */
  lemma MasterRoundTrip(ivs: seq<InterviewData>)
    requires Filed(ivs) && DistinctNames(ivs)
    ensures var r := ReadMaster(GenMasterCSV(ivs));
      && r.Some?
      && (forall i :: 0 <= i < |ivs| && ivs[i].quotes != [] ==> ivs[i].name in r.value && r.value[ivs[i].name] == Stamps(ivs[i].quotes))
      && (forall n :: n in r.value ==> exists i :: 0 <= i < |ivs| && ivs[i].name == n && ivs[i].quotes != [])
  {
    var rows := GenMasterCSV(ivs);
    GroupAllQuotes(ivs);
    RegroupedHas(ivs);
    RegroupedOnly(ivs);
    QuoteRowsFull(AllQuotes(ivs));
    assert forall k :: 0 <= k < |rows| ==> rows[k] != [];
    RecordsOfFull(rows);
    assert rows[1..] == QuoteRows(AllQuotes(ivs));
  }

  /**
    What a run over raw transcripts with distinct file stems writes as its
    master snapshot reads back as the same interviews (those with quotes).
   */
  lemma RawRunRoundTrip(st: Ingestion.Reading, ts: seq<Ingestion.Transcript>, codes: seq<string>)
    requires Ingestion.Ready(st, codes)
    requires forall i :: 0 <= i < |ts| ==> Ingestion.Complete(ts[i])
    requires forall i, j :: 0 <= i < j < |ts| ==> Ingestion.Stem(ts[i].path) != Ingestion.Stem(ts[j].path)
    ensures var ivs := Ingestion.ReadAll(st, ts, codes).1; var r := ReadMaster(GenMasterCSV(ivs));
      && r.Some?
      && (forall i :: 0 <= i < |ivs| && ivs[i].quotes != [] ==> ivs[i].name in r.value && r.value[ivs[i].name] == Stamps(ivs[i].quotes))
      && (forall n :: n in r.value ==> exists i :: 0 <= i < |ivs| && ivs[i].name == n && ivs[i].quotes != [])
  {
    Ingestion.ReadAllNames(st, ts, codes);
    MasterRoundTrip(Ingestion.ReadAll(st, ts, codes).1);
  }

  // ---------------------------------------------------------------------------
  // readGeneratedCSVs
  // ---------------------------------------------------------------------------

  /** What an update record makes of a quote: speaker, text and codes replaced, `[]` when it has no codes. */
  function Updated(q: Quote, r: seq<string>): Quote {
    q.(speaker := Field(r, 2), text := Field(r, 3), codes := RowCodes(r))
  }

  /** Every quote whose id equals the record's is updated from it; the others stay as they are. */
  function UpdateQuotes(quotes: seq<Quote>, r: seq<string>): (qs: seq<Quote>)
    ensures |qs| == |quotes|
    ensures forall k :: 0 <= k < |quotes| ==>
      qs[k] == if quotes[k].quoteID == RowId(r) then Updated(quotes[k], r) else quotes[k]
  {
    if quotes == [] then []
    else
      var n := |quotes| - 1;
      UpdateQuotes(quotes[..n], r) + [if quotes[n].quoteID == RowId(r) then Updated(quotes[n], r) else quotes[n]]
  }

  /** One update record: an unknown interview name changes nothing. */
  function ApplyRow(m: map<string, seq<Quote>>, r: seq<string>): map<string, seq<Quote>> {
    if r != [] && r[0] in m then m[r[0] := UpdateQuotes(m[r[0]], r)] else m
  }

  /** The records of one update file after its header, in order. */
  function ApplyRecords(m: map<string, seq<Quote>>, records: seq<seq<string>>): map<string, seq<Quote>>
  {
    if records == [] then m
    else
      var n := |records| - 1;
      ApplyRow(ApplyRecords(m, records[..n]), records[n])
  }

  /** The update files in order. A file without a first record makes `next` raise, which ends the run. */
  function ApplyFiles(m: map<string, seq<Quote>>, files: seq<seq<seq<string>>>): Option<map<string, seq<Quote>>> {
    if files == [] then Some(m)
    else
      var n := |files| - 1;
      match ApplyFiles(m, files[..n])
      case None => None
      case Some(m') =>
        var rs := Records(files[n]);
        if rs == [] then None else Some(ApplyRecords(m', rs[1..]))
  }

  /** What `readGeneratedCSVs` computes, before sorting: the master's interviews with every update applied. */
  function ReadGenerated(master: seq<seq<string>>, files: seq<seq<seq<string>>>): Option<map<string, seq<Quote>>> {
    match ReadMaster(master)
    case None => None
    case Some(m) => ApplyFiles(m, files)
  }

  /** An update keeps every interview, and each keeps its quotes' number, ids and interview names. */
  predicate SameShape(m: map<string, seq<Quote>>, m': map<string, seq<Quote>>) {
    && m'.Keys == m.Keys
    && forall n :: n in m ==>
         && |m'[n]| == |m[n]|
         && forall k :: 0 <= k < |m[n]| ==> m'[n][k].quoteID == m[n][k].quoteID && m'[n][k].interview == m[n][k].interview
  }

  lemma {:induction false} ApplyRecordsShape(m: map<string, seq<Quote>>, records: seq<seq<string>>)
    ensures SameShape(m, ApplyRecords(m, records))
  {
    if records != [] {
      var n := |records| - 1;
      ApplyRecordsShape(m, records[..n]);
    }
  }

  /** An interview no record names is left exactly as it was. */
  lemma {:induction false} ApplyRecordsUntouched(m: map<string, seq<Quote>>, records: seq<seq<string>>, name: string)
    requires name in m && forall k :: 0 <= k < |records| ==> records[k] == [] || records[k][0] != name
    ensures name in ApplyRecords(m, records) && ApplyRecords(m, records)[name] == m[name]
  {
    if records != [] {
      var n := |records| - 1;
      ApplyRecordsUntouched(m, records[..n], name);
      ApplyRecordsShape(m, records[..n]);
    }
  }

  /** Applying the same record twice is applying it once. */
  lemma ApplyRowIdempotent(m: map<string, seq<Quote>>, r: seq<string>)
    ensures ApplyRow(ApplyRow(m, r), r) == ApplyRow(m, r)
  {
    if r != [] && r[0] in m {
      var once := UpdateQuotes(m[r[0]], r);
      var twice := UpdateQuotes(once, r);
      assert twice == once;
    }
  }

  /** With no update files, `readGeneratedCSVs` gives back the master snapshot's interviews. */
  lemma NoUpdates(ivs: seq<InterviewData>)
    requires Filed(ivs) && DistinctNames(ivs)
    ensures var r := ReadGenerated(GenMasterCSV(ivs), []);
      && r.Some?
      && (forall i :: 0 <= i < |ivs| && ivs[i].quotes != [] ==> ivs[i].name in r.value && r.value[ivs[i].name] == Stamps(ivs[i].quotes))
      && (forall n :: n in r.value ==> exists i :: 0 <= i < |ivs| && ivs[i].name == n && ivs[i].quotes != [])
  {
    MasterRoundTrip(ivs);
  }

  // ---------------------------------------------------------------------------
  // The interview objects
  // ---------------------------------------------------------------------------

  /** The `interviews` dict of both readers: every interview is stored under its own name. */
  predicate Named(interviews: map<string, Interview>) {
    forall n :: n in interviews ==> interviews[n].name == n
  }

  /** The quotes of every interview in the dict, by name. */
  ghost function Contents(interviews: map<string, Interview>): map<string, seq<Quote>>
    reads interviews.Values
  {
    map n | n in interviews :: interviews[n].quotes
  }

  /** The body of `readMasterCSV`'s loop: the interview named by the record, created if new, gets the record's quote. */
  method AddRecord(interviews: map<string, Interview>, r: seq<string>) returns (interviews': map<string, Interview>)
    modifies interviews.Values
    requires r != [] && Named(interviews)
    ensures Named(interviews')
    ensures forall n :: n in interviews' ==> (n in interviews && interviews'[n] == interviews[n]) || fresh(interviews'[n])
    ensures var m := old(Contents(interviews)); var q := ParseQuote(r);
      Contents(interviews') == m[q.interview := Under(m, q.interview) + [q]]
  {
    ghost var m := Contents(interviews);
    var interviewName := r[0];
    interviews' := interviews;
    if interviewName !in interviews' {
      var interview := new Interview(interviewName);
      interviews' := interviews'[interviewName := interview];
    }
    var quote := ParseQuote(r);
    interviews'[interviewName].AddQuote(quote);
    assert forall n :: n in interviews' && n != interviewName ==> interviews'[n] != interviews'[interviewName];
  }

  /**
    `readMasterCSV`: after the header record, each record's quote joins the
    interview its first field names, in file order. A file without records
    makes `next(reader)` raise, which ends the run: `ok` is false exactly then.
   */
  method ReadMasterCSV(rows: seq<seq<string>>) returns (ok: bool, interviews: map<string, Interview>)
    ensures ok <==> ReadMaster(rows).Some?
    ensures ok ==> Contents(interviews) == ReadMaster(rows).value
    ensures Named(interviews)
    ensures forall n :: n in interviews ==> fresh(interviews[n])
  {
    interviews := map[];
    var records := Records(rows);
    if records == [] {
      return false, interviews;
    }
    ok := true;
    var body := records[1..];
    for i := 0 to |body|
      invariant Named(interviews)
      invariant forall n :: n in interviews ==> fresh(interviews[n])
      invariant Contents(interviews) == Group(body[..i])
    {
      assert body[..i + 1][..i] == body[..i];
      interviews := AddRecord(interviews, body[i]);
    }
    assert body[..|body|] == body;
  }

  /**
    The loop over an interview's quotes for one update record: each quote
    with the record's id is updated from it; `found` says whether any was.
   */
  method UpdateInterview(interview: Interview, r: seq<string>) returns (found: bool)
    modifies interview
    ensures interview.quotes == UpdateQuotes(old(interview.quotes), r)
    ensures found <==> exists k :: 0 <= k < |old(interview.quotes)| && old(interview.quotes)[k].quoteID == RowId(r)
  {
    ghost var quotes := interview.quotes;
    found := false;
    for k := 0 to |interview.quotes|
      invariant |interview.quotes| == |quotes|
      invariant forall j :: 0 <= j < k ==>
        interview.quotes[j] == if quotes[j].quoteID == RowId(r) then Updated(quotes[j], r) else quotes[j]
      invariant forall j :: k <= j < |quotes| ==> interview.quotes[j] == quotes[j]
      invariant found <==> exists j :: 0 <= j < k && quotes[j].quoteID == RowId(r)
    {
      if interview.quotes[k].quoteID == RowId(r) {
        found := true;
        interview.quotes := interview.quotes[k := Updated(interview.quotes[k], r)];
      }
    }
  }

  /** The body of `readGeneratedCSVs`' record loop: an unknown interview name changes nothing. */
  method ApplyUpdate(interviews: map<string, Interview>, r: seq<string>)
    modifies interviews.Values
    requires r != [] && Named(interviews)
    ensures Contents(interviews) == ApplyRow(old(Contents(interviews)), r)
  {
    var interviewName := r[0];
    if interviewName in interviews {
      var found := UpdateInterview(interviews[interviewName], r);
      assert forall n :: n in interviews && n != interviewName ==> interviews[n] != interviews[interviewName];
    }
  }

  /** One update file: its records after the header, in order. A file without records makes `next` raise. */
  method ApplyFile(interviews: map<string, Interview>, rows: seq<seq<string>>) returns (ok: bool)
    modifies interviews.Values
    requires Named(interviews)
    ensures ok <==> Records(rows) != []
    ensures ok ==> Contents(interviews) == ApplyRecords(old(Contents(interviews)), Records(rows)[1..])
  {
    var records := Records(rows);
    if records == [] {
      return false;
    }
    ok := true;
    ghost var m := Contents(interviews);
    var body := records[1..];
    for i := 0 to |body|
      invariant Contents(interviews) == ApplyRecords(m, body[..i])
    {
      assert body[..i + 1][..i] == body[..i];
      ApplyUpdate(interviews, body[i]);
    }
    assert body[..|body|] == body;
  }

  /** Once a prefix of the update files ends the run, the whole run ends. */
  lemma {:induction false} ApplyFilesStops(m: map<string, seq<Quote>>, files: seq<seq<seq<string>>>, f: nat)
    requires f <= |files| && ApplyFiles(m, files[..f]) == None
    ensures ApplyFiles(m, files) == None
    decreases |files| - f
  {
    if f < |files| {
      assert files[..f + 1][..f] == files[..f];
      ApplyFilesStops(m, files, f + 1);
    } else {
      assert files[..f] == files;
    }
  }

  /** Interviews strictly ordered by name. */
  predicate SortedByName(list: seq<Interview>) {
    forall k, l :: 0 <= k < l < |list| ==> Less(list[k].name, list[l].name)
  }

  /** `list` with `interview` put in its place by name. */
  function InsertByName(list: seq<Interview>, interview: Interview): (r: seq<Interview>)
    requires SortedByName(list) && forall k :: 0 <= k < |list| ==> list[k].name != interview.name
    ensures SortedByName(r)
    ensures multiset(r) == multiset(list) + multiset{interview}
  {
    if list == [] then [interview]
    else if Less(interview.name, list[0].name) then
      InsertFront(list, interview);
      [interview] + list
    else
      LessTotal(interview.name, list[0].name);
      var rest := InsertByName(list[1..], interview);
      InsertAfter(list[0], rest, list[1..], interview);
      assert list == [list[0]] + list[1..];
      [list[0]] + rest
  }

  lemma InsertFront(list: seq<Interview>, interview: Interview)
    requires SortedByName(list) && list != [] && Less(interview.name, list[0].name)
    ensures SortedByName([interview] + list)
  {
    var r := [interview] + list;
    forall k, l | 0 <= k < l < |r|
      ensures Less(r[k].name, r[l].name)
    {
      if k == 0 && l > 1 {
        LessTransitive(interview.name, list[0].name, list[l - 1].name);
      } else if k > 0 {
        assert r[k] == list[k - 1] && r[l] == list[l - 1];
      }
    }
  }

  lemma InsertAfter(first: Interview, rest: seq<Interview>, list: seq<Interview>, interview: Interview)
    requires SortedByName([first] + list) && SortedByName(rest)
    requires Less(first.name, interview.name)
    requires multiset(rest) == multiset(list) + multiset{interview}
    ensures SortedByName([first] + rest)
  {
    var r := [first] + rest;
    forall k, l | 0 <= k < l < |r|
      ensures Less(r[k].name, r[l].name)
    {
      if k == 0 {
        var x := rest[l - 1];
        assert x in multiset(rest);
        if x != interview {
          assert x in multiset(list);
          var j :| 0 <= j < |list| && list[j] == x;
          assert ([first] + list)[0] == first && ([first] + list)[j + 1] == x;
        }
      } else {
        assert r[k] == rest[k - 1] && r[l] == rest[l - 1];
      }
    }
  }

  /** `sorted(interviews.values(), key=lambda x: x.name)`: every interview of the dict once, ordered by name. */
  method SortByName(interviews: map<string, Interview>) returns (list: seq<Interview>)
    requires Named(interviews)
    ensures SortedByName(list)
    ensures forall k :: 0 <= k < |list| ==> list[k].name in interviews && interviews[list[k].name] == list[k]
    ensures forall n :: n in interviews ==> interviews[n] in list
  {
    var remaining := interviews.Keys;
    list := [];
    while remaining != {}
      invariant remaining <= interviews.Keys
      invariant SortedByName(list)
      invariant forall k :: 0 <= k < |list| ==>
        list[k].name in interviews && interviews[list[k].name] == list[k] && list[k].name !in remaining
      invariant forall n :: n in interviews && n !in remaining ==> interviews[n] in list
      decreases |remaining|
    {
      var n :| n in remaining;
      ghost var before := list;
      list := InsertByName(list, interviews[n]);
      forall k | 0 <= k < |list|
        ensures list[k] in before || list[k] == interviews[n]
      {
        assert list[k] in multiset(list);
      }
      forall m | m in interviews && m !in remaining - {n}
        ensures interviews[m] in list
      {
        if m == n {
          assert interviews[m] in multiset(list);
        } else {
          assert interviews[m] in multiset(before);
        }
      }
      remaining := remaining - {n};
    }
  }

  /** The interview list `readGeneratedCSVs` returns holds the quotes of `m`, one interview per name, sorted by name. */
  ghost predicate Lists(list: seq<Interview>, m: map<string, seq<Quote>>)
    reads list
  {
    && SortedByName(list)
    && (forall k :: 0 <= k < |list| ==> list[k].name in m && list[k].quotes == m[list[k].name])
    && (forall n :: n in m ==> exists k :: 0 <= k < |list| && list[k].name == n)
  }

  /**
    `readGeneratedCSVs`: the master snapshot's interviews, each update file's
    records applied in order, returned sorted by name. `ok` is false exactly
    when the master file or an update file has no records.
   */
  method ReadGeneratedCSVs(master: seq<seq<string>>, files: seq<seq<seq<string>>>) returns (ok: bool, interviewList: seq<Interview>)
    ensures ok <==> ReadGenerated(master, files).Some?
    ensures ok ==> Lists(interviewList, ReadGenerated(master, files).value)
  {
    var interviews;
    ok, interviews := ReadMasterCSV(master);
    if !ok {
      return false, [];
    }
    ghost var m := Contents(interviews);
    for f := 0 to |files|
      invariant forall n :: n in interviews ==> fresh(interviews[n])
      invariant ApplyFiles(m, files[..f]) == Some(Contents(interviews))
    {
      assert files[..f + 1][..f] == files[..f];
      var fileOk := ApplyFile(interviews, files[f]);
      if !fileOk {
        ApplyFilesStops(m, files, f + 1);
        return false, [];
      }
    }
    assert files[..|files|] == files;
    interviewList := SortByName(interviews);
  }
}
