# qual-code-visualizer core in Dafny

This project models the data core of qual-code-visualizer. The tool reads coded interview transcripts, one CSV file per interview. Each row holds a `Speaker: text` quote followed by code cells. The tool then reconciles every code against a codebook. A code that is not in the codebook is corrected to the nearest codebook entry by edit distance, and the correction is remembered in a cache. The tool collects the quotes into interviews and counts, per code, which speakers used it. It writes all quotes to a master CSV snapshot. Later runs read that snapshot back and apply edits from update CSVs.

A companion script, `reformat.py`, turns raw coded lines into a `speaker =DELIM= text =DELIM= tags` line format. It reads the number of tag columns off a header line.

The Dafny modules follow the source files:

| module | file | models |
|---|---|---|
| `PyStr` | `pystr.dfy` | the Python 2 string built-ins the core uses: `strip`, `replace`, `lower`, `find`, `rfind`, `split`, `join`, `count`, slice bounds, `str(int)`, and string order |
| `EditDistance` | `editdistance.dfy` | Levenshtein distance, standing in for `editdistance.eval` |
| `Util` | `util.dfy` | `util.py`: `urlSafe`, `stripQuotesSpace`, and `mergeCodes` with an explicit correction cache |
| `CodeExtract` | `codeextract.dfy` | the `Quote` record and the `Interview` class of `code-extract.py`; its own `urlSafe`; the global `codeCorrections` cache as a `Corrections` object; the codebook load of `main`; the code histogram of `genIndex` |
| `Ingestion` | `ingestion.dfy` | `readOriginalCSVs`: a specification fold (`ReadAll`) and the imperative reader proved against it |
| `MasterCsv` | `mastercsv.dfy` | `genMasterCSV`, `readMasterCSV` and `readGeneratedCSVs`, with the write/read round trip |
| `Reformat` | `reformat.dfy` | `reformat.py`: `sanitize`, `add_line` and the header/blank-line loop of `reformat` |

CSV files are modelled as their rows, already split into fields by the `csv` module. File paths and line contents are plain strings.

Code that works by mutation is modelled with mutation:
- `Interview` objects, whose `quotes` list grows and whose quotes are overwritten;
- the `codeCorrections` cache;
- the loops of `mergeCodes`, `readOriginalCSVs`, `readMasterCSV`, `readGeneratedCSVs`, the histogram loop and the line loops of `reformat.py`.

Each of these methods is proved against a pure specification function. The properties of the method are then proved as lemmas about that function.

The model follows these behaviours of the code:
- The codebook keeps duplicate codes. The histogram counts a code once per occurrence in the codebook (`CodeExtract.Histogram`).
- On a tie in edit distance, `mergeCodes` picks the last codebook entry at the smallest distance. The reason is that each later entry overwrites `distances[d]`.
- `numQuotes` and `lastPerson` are not reset between transcripts. Quote ids run 1, 2, 3, … over the whole run. A row without a speaker can inherit the last speaker of the previous file.
- Update mode does not reconcile the codes of update rows against the codebook. It also does not recompute speaker sets. It only overwrites speaker, text and codes.
- The `stripQuotesSpace` of `code-extract.py` (lines 224-229) is the same as that of `util.py` (lines 14-19). Both are modelled by `Util.StripQuotesSpace`.
- The `urlSafe` of `code-extract.py` differs from that of `util.py`. It does not strip, and it replaces only `/`, `?` and space. Both versions are modelled (`CodeExtract.UrlSafe`, `Util.UrlSafe`).
- `sanitize` has all its cleaning rules commented out, so it returns its argument unchanged (`Reformat.Sanitize`); the text `add_line` writes is the `': '`-split remainder as it is.
- A line is written by `add_line` only when its quote contains `': '` with text on both sides. `num_codes` is 0 in two cases: when line 0 is blank, and when line 0 is a header with exactly one comma (such as `quote,tag`), since its comma fields after the first, less one, then number 0 (`Reformat.OneCommaHeaderNoCodes`). With a `num_codes` of 0, `[-0:]` makes every field a tag. Each quote is then empty, so nothing is written for the whole file.

## Model

| member | source | states |
|---|---|---|
| PyStr.TrimLeftSpec | util.py:4 | `lstrip` removes exactly the leading whitespace: the result is a suffix of the input, what was removed is all whitespace, and the result does not start with whitespace |
| PyStr.TrimRightSpec | util.py:4 | `rstrip` removes exactly the trailing whitespace: the result is a prefix of the input, what was removed is all whitespace, and the result does not end with whitespace |
| PyStr.Strip | util.py:4 | `strip` never lengthens a string |
| PyStr.StripSpec | util.py:4 | a stripped string has no whitespace at either end; a string without such whitespace is its own strip; the strip is empty exactly when the string is all whitespace |
| PyStr.Replace | util.py:5-11 | every character of `s.replace(c, rep)` comes from `rep`, or is a character of `s` other than `c` |
| PyStr.ReplaceConcat | util.py:5-11 | `replace` distributes over concatenation |
| PyStr.ReplaceOneChar | util.py:5-8 | replacing a character with one character keeps the length and changes exactly the positions holding it |
| PyStr.ReplaceAbsent | util.py:5-11 | replacing a character that does not occur changes nothing |
| PyStr.Lower | util.py:25 | `lower` keeps the length and lowers each ASCII capital, position by position |
| PyStr.FindFrom | reformat.py:32 | `find` from a start position yields the first occurrence at or after it, or none when there is none |
| PyStr.Find | reformat.py:32 | `find` yields an occurrence with none before it, or none when the separator never occurs |
| PyStr.FindChar | code-extract.py:516-517 | a one-character search succeeds exactly when the character is in the string, and yields its first position |
| PyStr.RFind | code-extract.py:503 | `rfind` yields a position inside the string |
| PyStr.RFindSpec | code-extract.py:503 | `rfind` fails exactly when the character is absent, and otherwise yields a position holding it with none after it |
| PyStr.Split | reformat.py:29 | `split` always yields at least one piece |
| PyStr.SplitSpec | reformat.py:29 | no piece of a split contains the separator, so with `JoinSplit` the pieces are exactly the text between successive occurrences |
| PyStr.JoinSplit | reformat.py:29-31 | joining the pieces of a split with the same separator gives back the string |
| PyStr.JoinConcat | reformat.py:31 | joining two non-empty lists equals joining each and putting the separator between them |
| PyStr.CountConcat | reformat.py:62 | occurrences of a character add up over a concatenation |
| PyStr.CountAbsent | reformat.py:62 | a character that does not occur is counted zero times |
| PyStr.SplitCount | reformat.py:62 | splitting on a character yields one more piece than the number of times it occurs |
| PyStr.SliceIndex | reformat.py:30-31 | a slice bound is normalised to lie within the list; a bound in range is kept; a negative bound counts from the end |
| PyStr.Decimal | code-extract.py:367-371 | the text the CSV writer gives an int id is non-empty and made only of digits |
| PyStr.LessIrreflexive | code-extract.py:489 | no name sorts before itself |
| PyStr.LessTransitive | code-extract.py:489 | the order of names is transitive |
| PyStr.LessTotal | code-extract.py:489 | any two different names are ordered one way or the other |
| PyStr.LessAsymmetric | code-extract.py:489 | two names are never ordered both ways |
| EditDistance.Min3 | util.py:41 | the minimum of three distances is one of them and no larger than any |
| EditDistance.Lev | util.py:41 | the Levenshtein distance: the fewest single-character insertions, deletions and substitutions turning one string into the other, defined by the usual recursion over the first characters |
| EditDistance.LevZero | util.py:41 | the edit distance is zero exactly between equal strings |
| EditDistance.LevBound | util.py:41 | the edit distance is at most the length of the longer string |
| Util.UrlSafe | util.py:3-12 | the result contains none of `/`, `?`, `:`, space, `%`, `"`, `'` |
| Util.Expand | util.py:5-11 | the replacement of a single character contains none of the seven unsafe characters |
| Util.SubstituteConcat | util.py:5-11 | the replacement chain distributes over concatenation |
| Util.ReplaceSingle | util.py:5-11 | `replace` on a one-character string gives the replacement exactly when it is that character |
| Util.SubstituteChar | util.py:5-11 | on one character the chain acts as the per-character table (`:` becomes `_-`, space becomes `_`) |
| Util.SubstituteIsExpandAll | util.py:5-11 | the chain of seven replacements equals rewriting character by character with that table |
| Util.UrlSafePerChar | util.py:3-12 | `urlSafe` strips, then rewrites each character on its own: `/`, `?` and space become `_`, `:` becomes `_-`, and `%`, `"`, `'` are dropped |
| Util.UrlSafeFixedPoint | util.py:3-12 | a string with no whitespace at its ends and none of the seven characters is returned unchanged |
| Util.StripQuotesSpace | util.py:14-19 | the result is never longer than the input |
| Util.StripQuotesSpaceTrimmed | util.py:14-19 | the result has no whitespace at either end |
| Util.StripQuotesSpaceFixedPoint | util.py:14-19 | a trimmed string not wrapped in a pair of double quotes is returned unchanged |
| Util.StripQuotesSpaceOnePair | util.py:17-18 | exactly one surrounding pair of double quotes is removed from a trimmed string |
| Util.LastMinIndex | util.py:40-43 | the position of the smallest distance, the last one on ties (later entries overwrite `distances[d]`) |
| Util.LastMinUnique | util.py:40-43 | that position is unique |
| Util.LastNearestIndex | util.py:39-43 | a codebook position at minimal edit distance from the code, with no later such position |
| Util.LastNearest | util.py:39-50 | the chosen correction is a codebook entry |
| Util.CorrectOrNearest | code-extract.py:58-81 | the cache lookup and the nearest-code search without special cases: a cached code gives its correction, an empty codebook gives `''`, and otherwise the last nearest entry is returned and recorded under the code |
| Util.SmallestKey | util.py:43 | the first key of `sorted(distances)` is a key and no larger than any key |
| Util.NearestCode | util.py:39-51 | the loop filling `distances` yields no correction exactly when the codebook is empty, and otherwise the last entry at minimal edit distance |
| Util.MergeCodes | util.py:21-53 | the method returns what the specification `Resolve` returns: result and cache |
| Util.Resolve | util.py:21-53 | util.py's `mergeCodes` as a function of code, codebook and cache: `na` (any case) gives `''`, `keylogger` (any case) gives `urlSafe('tracking keystrokes / keylogger')`, both leaving the cache; otherwise `CorrectOrNearest` |
| Util.LowerIsNa | util.py:25 | `code.lower() == 'na'` holds exactly for the four spellings of `na` |
| Util.ResolveCases | util.py:21-53 | `na` gives `''` and the cache unchanged, before any lookup; `keylogger` gives `urlSafe('tracking keystrokes / keylogger')` and the cache unchanged; a cache hit gives the cached value and the cache unchanged; a miss with a codebook gives the last nearest entry and adds exactly code → result; a miss without a codebook gives `''` and the cache unchanged |
| Util.ExactMatchResolvesToItself | util.py:39-51 | an uncached code that is a codebook entry is corrected to itself (distance 0) |
| Util.CorrectOrNearestGrows | util.py:33-51 | the lookup and correction only add cache entries and never change one |
| Util.ResolveGrows | util.py:21-53 | `mergeCodes` only adds cache entries and never changes one |
| Util.ResolveIdempotent | util.py:33-53 | a second call with the returned cache gives the same result and cache |
| Util.CorrectOrNearestInCodes | code-extract.py:56-81 | when every cached correction is a codebook entry, a non-empty result is a codebook entry and the returned cache keeps this property |
| CodeExtract.Interview.constructor | code-extract.py:142-149 | a new interview has the given name and no quotes |
| CodeExtract.Interview.AddQuote | code-extract.py:151-154 | `addQuote` appends the quote to the interview's quotes |
| CodeExtract.Values | code-extract.py:499-546 | a view, not a statement: the values of the interview objects `readOriginalCSVs` builds and appends, one per object and in order |
| CodeExtract.UrlSafe | code-extract.py:49-53 | code-extract.py's own `urlSafe`: `/`, `?` and space each replaced with `_`, in that order, without stripping |
| CodeExtract.UrlSafePerPosition | code-extract.py:49-53 | this `urlSafe` keeps the length and turns each `/`, `?` and space into `_`, leaving every other character |
| CodeExtract.UrlSafeClean | code-extract.py:49-53 | its result contains no `/`, `?` or space |
| CodeExtract.UrlSafeFixedPoint | code-extract.py:49-53 | a string without those three characters is returned unchanged |
| CodeExtract.Corrections.constructor | code-extract.py:56 | `codeCorrections` starts empty |
| CodeExtract.Corrections.MergeCodes | code-extract.py:58-81 | a cached correction is returned; otherwise the last nearest codebook entry is returned and recorded, or `''` without a codebook; no entry is removed or changed; when every cached correction is a codebook entry, a non-empty result is one and the cache keeps the property |
| CodeExtract.CodebookCodes | code-extract.py:578-583 | the codes taken from the codebook are non-empty and trimmed, at most one per row |
| CodeExtract.LoadCodebook | code-extract.py:573-583 | the codebook loop yields the stripped non-empty first cells in order with duplicates, and an empty speaker set for each code; it fails exactly when some row has no cells (`row[0]` raises) |
| CodeExtract.UsesConcat | code-extract.py:237-243 | the number of quotes using a code adds up over concatenated quote lists |
| CodeExtract.OccurrencesPositive | code-extract.py:236 | a code occurs in the codebook list a positive number of times exactly when it is in it |
| CodeExtract.OccurrencesDistinct | code-extract.py:236 | in a duplicate-free codebook each code occurs once |
| CodeExtract.BumpBump | code-extract.py:240-243 | counting `a` and then `b` more uses of a code is counting `a + b` |
| CodeExtract.CountQuotes | code-extract.py:238-243 | the loop over one interview's quotes adds to the code's count the number of quotes listing it; a zero-use code gains no entry |
| CodeExtract.CountCode | code-extract.py:237-243 | the loop over all interviews adds the number of quotes, over all interviews, that list the code |
| CodeExtract.HistogramStep | code-extract.py:236-243 | after one more codebook entry, each code's count is its occurrences so far times its uses |
| CodeExtract.HistogramKeys | code-extract.py:235-243 | a code has a histogram entry exactly when it is in the codebook and some quote uses it |
| CodeExtract.Histogram | code-extract.py:235-243 | the histogram maps exactly the used codebook codes, each to the number of quotes using it times its number of codebook occurrences (for a duplicate-free codebook, see `OccurrencesDistinct`, just the number of quotes using it) |
| Ingestion.BaseName | code-extract.py:503 | `os.path.basename`: what follows the last `/`, or the whole path when it has none |
| Ingestion.BaseNameSpec | code-extract.py:503 | `os.path.basename` has no `/` and leaves a path without `/` as it is |
| Ingestion.SplitExtRoot | code-extract.py:503 | the root `os.path.splitext` keeps is no longer than the name |
| Ingestion.SplitExtRootPrefix | code-extract.py:503 | that root is a prefix of the name |
| Ingestion.Stem | code-extract.py:503 | `os.path.splitext(os.path.basename(path))[0]`, the name of a transcript's interview |
| Ingestion.RFindAt | code-extract.py:503 | a character at a position with none of it after is what `rfind` finds |
| Ingestion.BaseNameAfterDir | code-extract.py:503 | the base name of `dir/file` is `file` |
| Ingestion.RootOfNameExt | code-extract.py:503 | the root of `name.ext` is `name` |
| Ingestion.StemOfPath | code-extract.py:503 | the interview of `dir/name.ext` is named `name` |
| Ingestion.SplitSpeaker | code-extract.py:516-523 | with a `:` the speaker is the text before the first `:` and the text the rest; without one the speaker is the last person and the text the whole quote |
| Ingestion.ResolveCell | code-extract.py:528-539 | one code cell: stripped; blank gives no code; a codebook entry is kept as it is; otherwise the result of `mergeCodes` with the global cache, dropped when it is `''` |
| Ingestion.ResolveCells | code-extract.py:527-539 | the codes kept for a row are no more than its code cells and are all non-empty; the cache only grows |
| Ingestion.ResolveCellsInCodes | code-extract.py:527-539 | with a cache whose corrections are codebook entries, every kept code is a codebook entry and the cache keeps that property, so `codeCountsPerSpeaker[strippedCode]` always has its key |
| Ingestion.ResolveCellsKnown | code-extract.py:527-539 | a row whose cells are all blank or codebook entries keeps its non-blank cells in order and leaves the cache unchanged |
| Ingestion.AddPerson | code-extract.py:540 | the speaker joins the set of every kept code and no other set; no key is added |
| Ingestion.ReadRow | code-extract.py:512-543 | reading a row keeps the lookup safe: the cache holds only codebook entries and every codebook entry has a speaker set |
| Ingestion.ReadRowQuote | code-extract.py:512-542 | a row yields a quote exactly when its stripped first cell is non-empty; speaker and text are split at the first `:`, or the last person speaks the whole quote; the codes are the row's resolved cells |
| Ingestion.SpeakersConcat | code-extract.py:540 | the speakers of the quotes listing a code add up over concatenated quote lists |
| Ingestion.FollowsNothing | code-extract.py:509-543 | reading no quotes changes nothing |
| Ingestion.FollowsOne | code-extract.py:512-543 | one quote numbered next, with codebook codes, whose speaker is added to its codes' sets, advances the reading state |
| Ingestion.FollowsRow | code-extract.py:512-543 | reading one row advances the state as the read invariant `Follows` says, by its quote or by nothing |
| Ingestion.FollowsTrans | code-extract.py:509-543 | two consecutive reads compose into one read of both quote lists |
| Ingestion.ReadRows | code-extract.py:509-543 | reading a transcript's rows keeps the lookup safe |
| Ingestion.ReadRowsFiled | code-extract.py:542 | every quote read from a transcript names that transcript's interview |
| Ingestion.ReadRowsFollows | code-extract.py:509-543 | a transcript's quotes are numbered on without gaps, carry only codebook codes, the last one's speaker is remembered, each code's speaker set gains exactly the speakers of the quotes listing it, and the cache only grows |
| Ingestion.ReadAll | code-extract.py:501-544 | one interview per transcript, with the lookup kept safe |
| Ingestion.ReadAllNames | code-extract.py:503-508 | the i-th interview is named after the i-th transcript's path stem, and every quote is filed under its interview |
| Ingestion.ReadAllFollows | code-extract.py:497-544 | over all transcripts the quotes, in order, satisfy the read invariant, with one counter across files |
| Ingestion.FreshRead | code-extract.py:497-546 | from a fresh start (ids at 0, no last person, empty speaker sets, empty cache) the quotes are numbered 1, 2, 3, … over the whole run with only codebook codes; each code's speaker set is exactly the speakers of the quotes listing it; the cache holds only codebook entries |
| Ingestion.ReadCode | code-extract.py:528-540 | one code cell: a blank cell is skipped; an unknown code is merged and dropped when that gives `''`; a kept code is appended and the speaker added to its set |
| Ingestion.ReadCodes | code-extract.py:527-540 | the loop over a row's code cells keeps the codes and leaves the cache as `ResolveCells` says, adding the speaker to each kept code's set |
| Ingestion.ReadOneRow | code-extract.py:512-543 | one row of the transcript loop: the new counter, last person, speaker sets and cache are those of `ReadRow`, and its quote is appended to the interview |
| Ingestion.ReadTranscript | code-extract.py:509-543 | the row loop leaves the state `ReadRows` gives and appends exactly its quotes |
| Ingestion.ReadInterview | code-extract.py:502-544 | one transcript: a new interview object holding its quotes is appended, and the state is `ReadAll` of one more transcript |
| Ingestion.ReadOriginalCSVs | code-extract.py:494-546 | fails exactly when some transcript row has no cells (`row[0]` raises), and then changes nothing; otherwise the interviews, speaker sets and cache are those of `ReadAll` |
| MasterCsv.Records | code-extract.py:380 | a `DictReader` yields no more rows than the file has, and none empty |
| MasterCsv.RecordsOfFull | code-extract.py:380 | a file without empty rows is its own records |
| MasterCsv.QuoteRows | code-extract.py:368-371 | one row per quote, in order, each `[name, quoteID, speaker, text] + codes` |
| MasterCsv.QuoteRowsConcat | code-extract.py:368-371 | the rows of concatenated quote lists are the concatenated rows |
| MasterCsv.GenMasterCSV | code-extract.py:360-371 | the rows `genMasterCSV` writes: the header `interviewName, quoteID, speaker, text`, then `[name, quoteID, speaker, text] + codes` for every quote of every interview, in order |
| MasterCsv.Group | code-extract.py:383-393 | the interviews `readMasterCSV` builds from its records: each record's quote goes to the end of the interview its first field names, which is created at its first record |
| MasterCsv.GroupFiled | code-extract.py:383-393 | regrouping files every quote under the interview it names, and no interview is left without a quote |
| MasterCsv.ReadMaster | code-extract.py:374-396 | what `readMasterCSV` returns: nothing when the file has no record (`next(reader)` raises), else `Group` of the records after the header |
| MasterCsv.Stamps | code-extract.py:388-391 | quotes read back come one for one |
| MasterCsv.ParseQuote | code-extract.py:389-392 | the quote `readMasterCSV` builds from a record: interview name, id, speaker and text fields, and its codes (`[]` without a codes column) |
| MasterCsv.ParseQuoteRow | code-extract.py:368-371 | reading back a written row gives the same quote, its id now the text written for it |
| MasterCsv.GroupSnoc | code-extract.py:383-393 | one more row puts its quote at the end of the interview it names, creating it if new |
| MasterCsv.GroupExtend | code-extract.py:383-393 | rows of quotes of one interview extend that interview's quotes in order |
| MasterCsv.GroupAppend | code-extract.py:383-393 | writing an interview's quotes after other rows adds them, read back, to the end of that interview only |
| MasterCsv.QuoteRowsFull | code-extract.py:368-371 | no written row is empty |
| MasterCsv.GroupAllQuotes | code-extract.py:360-393 | the rows of all interviews regroup into each interview with quotes, by name |
| MasterCsv.RegroupedOnly | code-extract.py:360-393 | only names of interviews with quotes appear after regrouping |
| MasterCsv.RegroupedHas | code-extract.py:360-393 | with distinct names, each interview with quotes regroups to exactly its quotes, read back |
| MasterCsv.MasterRoundTrip | code-extract.py:360-396 | reading back what `genMasterCSV` wrote gives each interview with quotes under its name, with the same quotes in the same order (ids as text), and no other interview |
| MasterCsv.RawRunRoundTrip | code-extract.py:494-546 | the interviews of a raw run over transcripts with distinct file stems read back from their master file as the same interviews |
| MasterCsv.Updated | code-extract.py:480-485 | the in-place overwrite of a matched quote: speaker and text from the record, codes from the record or `[]` |
| MasterCsv.UpdateQuotes | code-extract.py:477-486 | every quote whose id equals the update record's gets its speaker, text and codes from the record (codes `[]` when it has none); every other quote is unchanged |
| MasterCsv.ApplyRow | code-extract.py:472-488 | one update record: the named interview's quotes go through `UpdateQuotes`; a record naming an unknown interview changes nothing |
| MasterCsv.ApplyRecords | code-extract.py:470-488 | the records of one update file applied in file order |
| MasterCsv.ApplyFiles | code-extract.py:462-488 | the update files in order; the run ends with nothing when a file has no record (`next(transReader)` raises) |
| MasterCsv.ReadGenerated | code-extract.py:455-491 | what `readGeneratedCSVs` computes before sorting: the master snapshot with every update file applied, or nothing when the master file or an update file has no record |
| MasterCsv.ApplyRecordsShape | code-extract.py:471-488 | updates keep every interview, and in each the number of quotes, their ids and interview names |
| MasterCsv.ApplyRecordsUntouched | code-extract.py:473-475 | an interview no update record names is left exactly as it was (an unknown name changes nothing) |
| MasterCsv.ApplyRowIdempotent | code-extract.py:477-486 | applying an update record twice is applying it once |
| MasterCsv.NoUpdates | code-extract.py:455-491 | with no update files, `readGeneratedCSVs` gives back the master snapshot's interviews |
| MasterCsv.AddRecord | code-extract.py:384-393 | one master record: the interview it names, created if new, gets the record's quote at the end, and nothing else changes |
| MasterCsv.ReadMasterCSV | code-extract.py:374-396 | fails exactly when the file has no record (`next(reader)` raises); otherwise the interview objects, each stored under its own name, hold `Group` of the records after the header |
| MasterCsv.UpdateInterview | code-extract.py:477-486 | the quote loop updates every quote with the record's id and no other, and reports whether one was found |
| MasterCsv.ApplyUpdate | code-extract.py:470-488 | one update record changes the interviews as `ApplyRow` says: an unknown name changes nothing |
| MasterCsv.ApplyFile | code-extract.py:464-488 | one update file fails exactly when it has no record; otherwise its records after the header are applied in order |
| MasterCsv.ApplyFilesStops | code-extract.py:466 | once one update file ends the run, the whole run ends |
| MasterCsv.InsertByName | code-extract.py:489 | inserting an interview with a new name keeps the list strictly ordered by name and adds exactly that interview |
| MasterCsv.InsertFront | code-extract.py:489 | an interview named before the first one can go in front |
| MasterCsv.InsertAfter | code-extract.py:489 | an interview named after the first one is placed behind it |
| MasterCsv.SortByName | code-extract.py:489 | `sorted(interviews.values(), key=name)`: strictly ordered by name, holding only interviews of the dict and every one of them |
| MasterCsv.ReadGeneratedCSVs | code-extract.py:455-491 | fails exactly when the master file or an update file has no record; otherwise returns, sorted by name, one interview per name of `ReadGenerated`, holding its quotes |
| Reformat.Fields | reformat.py:29 | a stripped line has at least one comma field |
| Reformat.ParseLine | reformat.py:29-34 | the tags are no more than the line's fields |
| Reformat.ParseRejoin | reformat.py:29-31 | for `1 <= num_codes <` the field count, the tags are the last `num_codes` fields, and the quote, a comma and the joined tags give back the stripped line |
| Reformat.ParseAllTags | reformat.py:30-31 | with `num_codes` 0 (`[-0:]` is the whole list) or at least the field count, every field is a tag and quote, speaker and text are empty |
| Reformat.ParseNegative | reformat.py:30-31 | a negative `num_codes` puts the first `-num_codes` fields in the quote and the rest in the tags |
| Reformat.ParseSpeaker | reformat.py:32-34 | the speaker is the quote up to its first `': '` and the text the remaining pieces joined with `':'`; a quote without `': '` is all speaker with no text |
| Reformat.TagsTextSnoc | reformat.py:37-38 | one more tag appends it and `', '` |
| Reformat.TagsTextJoin | reformat.py:37-38 | the tag text is the tags joined by `', '` with one more `', '` |
| Reformat.FormatLine | reformat.py:36-39 | the `outfile_line` loop builds `speaker =DELIM= utt =DELIM= ` and each tag followed by `', '`, the newline added on writing |
| Reformat.DelimAfterSpeaker | reformat.py:36 | for a speaker without `=`, the first delimiter of a written line comes right after the speaker, so the line gives the speaker back |
| Reformat.AddLine | reformat.py:27-40 | `add_line` writes the formatted line when speaker and text are both non-empty, and nothing otherwise |
| Reformat.LineText | reformat.py:27-40 | the text `add_line` appends for one line: the formatted line when speaker and text are both non-empty, else nothing |
| Reformat.NoColumnsWritesNothing | reformat.py:30-35 | with no tag column split off, nothing is written |
| Reformat.WrittenNeedsSpeakerAndText | reformat.py:32-39 | a written line comes from a quote with `': '` and a non-empty speaker and text, and is their formatted line |
| Reformat.Blank | reformat.py:58 | a line counts as blank when, with its commas removed, it strips to nothing |
| Reformat.NumCodes | reformat.py:52-63 | `num_codes` after line 0: its comma fields after the first, minus one, when it is not blank; 0 otherwise |
| Reformat.Written | reformat.py:57-65 | what the given lines append to the output file at a fixed `num_codes`: each non-blank line's `add_line` text, in order |
| Reformat.NumCodesCommas | reformat.py:62 | the header's `num_codes` is its number of commas minus one |
| Reformat.OneCommaHeaderNoCodes | reformat.py:62 | a non-blank header with exactly one comma gives `num_codes` 0, like a blank line 0 |
| Reformat.BlankHeaderWritesNothing | reformat.py:52-65 | when `num_codes` is 0 (a blank line 0, or a header with exactly one comma), no line is written |
| Reformat.BlankLinesSkipped | reformat.py:58-59 | blank lines contribute nothing: the output is the same with them removed |
| Reformat.ReformatLines | reformat.py:51-65 | the line loop skips blank lines, takes `num_codes` from a non-blank line 0, and appends what `add_line` writes for every later line |
| Reformat.OutputName | reformat.py:44-53 | the output file name contains none of the seven characters `urlSafe` removes |
| Reformat.OutputNameKeepsSafeStem | reformat.py:44-53 | `name.csv` with an already URL-safe name, not starting with whitespace, keeps its name |

## Left out

- File I/O, `argparse`, `os.makedirs`, `Path.glob` directory expansion and `os.listdir` recursion. This includes the `.DS_Store` and directory tests of `reformat`. Files are given as their rows or lines.
- All `print` logging, including the error messages for unknown interviews and quotes in `readGeneratedCSVs`.
- The `csv` module's dialect and quoting. Rows are taken as already split. Only what `DictReader` adds matters here: it skips empty rows, and it puts extra fields under the restkey `codes`.
- HTML and CSV rendering: `Quote.printHTML`, `Interview.toHTML` and `toCSV`, `genHistograms`, `genCodeHTML`, `genCodeCSV`, `genCodePerTransHTML`, the page and `code_counts.csv` writing of `genIndex`, and all of `generators.py`. Only the histogram of `genIndex` is modelled.
- `editdistance.eval` is a foreign C library. It is modelled as Levenshtein distance.
- `Interview.outFileDir` and `outFileBase` only feed the left-out output code. A quote stores its interview's name rather than the object.
- `DictReader` gives `None` for a field that is missing from a short row. The model uses `""` for speaker and text, and `Absent` for the quote id.
- MasterCsv.UpdateInterview: does not model the `TypeError` that `print` raises when the unmatched id of a one-field update row is `None`. That row is treated as unmatched.
- Crashes are modelled as an `ok = false` result that stops the run. This covers `row[0]` on an empty CSV row, and `next(reader)` on a file with no rows.
- Ingestion.ReadOriginalCSVs: does not state that the interview objects it returns are new and distinct. Later code only reads them.
- MasterCsv.SortByName: it is proved to produce the sorted order of the distinct names. Python's sorting algorithm itself is left out.
- The shared mutable default `codes=[]` of `Quote.__init__` is left out. Every quote gets its own list.
- Python 2 strings are byte strings. Characters stand for bytes, and `lower` changes only `A`-`Z`.
