# scival_search retrieval core in Dafny

A model of how the `scival_search` package turns SciVal CSV exports into a
table. It covers four steps:

1. Build the export request for an API name, rejecting names the package does not know.
2. Cut each response at its first marker line, into intro lines (metadata) and table text.
3. Parse the intro into a metadata record:
   - search export: data set, year range, publication counts;
   - related-topics export: data set, entity, year range.
4. Assemble the table:
   - `RelatedPapers.fetch_papers` reads page 1 and pages 2 through `ceil(total / per page)`, drops the repeated header and the footer lines, and requires the announced number of rows;
   - `RelatedTopics.fetch_topics` reads one page and requires 50 rows.

The standalone `utils.py` at the repository root, a search-only counterpart
of the package's helpers, is modelled alongside.

Everything is a pure function. The export endpoint is a parameter
`Server = Request -> string` from the request parameters to the decoded body.
The CSV reader is a parameter `CsvRows = string -> Option<nat>`, the number
of data rows pandas reads, or `None` where it raises. Every Python exception
on these paths becomes a `Results.Error`:
- `ValueError` for an unknown API;
- `IndexError` from a regex with too few matches;
- `KeyError` for a missing metadata key;
- `ZeroDivisionError`;
- any exception `pd.read_csv` raises on the assembled table text (`UnreadableTable`);
- the row-count `AssertionError`.

The Python built-ins involved are written out in full:
- `str.splitlines`, with every line-boundary character and "\r\n" as one boundary;
- `"\n".join`, `str.startswith`, `str.split(",", 1)`, `str.strip('"')`;
- list slicing with negative bounds;
- the regular expressions `\d+`, `\d{4}`, `\d+ publications \(` and `<word>,?<delim>(.*)<delim>`, with Python's greedy and leftmost-match behaviour; `.` stops at "\n".

Modules, in dependency order: `Results`, `Text`, `Patterns`, `Content`,
`Splitter`, `SearchInfo`, `TopicsInfo`, `RelatedPapers`, `RelatedTopics`,
`LegacyUtils`.

A count line must contain the literal ` publications (` after its leading
number (scival_search/utils.py:75). A line such as `513 publications` sets
nothing (`SearchInfo.SmallExportLineIgnored`); an intro without any count line
leaves `total_publications` unset, and `fetch_papers` then fails with KeyError
(`RelatedPapers.PageCount`, `RelatedPapers.FetchPapersAccepts`).

## Model

| member | source | states |
|---|---|---|
| Results.Lookup | scival_search/related_papers.py:64-65 | `info[key]` succeeds exactly when the key is present and returns its value; otherwise a KeyError for that key |
| Text.Lines | scival_search/utils.py:52 | `splitlines()` yields lines free of line-boundary characters, and none exactly for the empty text |
| Text.JoinEnds | scival_search/related_papers.py:94 | `"\n".join(lines)` opens with the first line and ends with the last one, with no separator after it |
| Text.LinesOfJoin | scival_search/utils.py:60 | re-splitting `"\n".join(lines)` gives the lines back, except a last empty line |
| Text.JoinOfLines | scival_search/utils.py:52-60 | joining the lines of a text whose only boundaries are "\n", with no final "\n", rebuilds the text |
| Text.StripQuotes | scival_search/utils.py:70 | `strip('"')` returns a slice of the input with only quotes cut from both ends, and the result neither starts nor ends with a quote |
| Text.StripQuotedValue | scival_search/utils.py:70 | a value written between one pair of quotes comes back unchanged when it neither starts nor ends with a quote; quotes at its ends would be stripped too |
| Text.AfterFirst | scival_search/utils.py:70 | `split(",", 1)[1]` is the text after the first comma; the part before it holds no comma |
| Text.DecimalLeadingZero | scival_search/utils.py:73 | a leading zero does not change the value: `int("0042") == int("42")` |
| Text.DecimalValue | scival_search/utils.py:73 | `int()` of `k` ASCII digits is below `10^k`, and at least `10^(k-1)` when the first digit is not `0` |
| Text.DecimalRoundTrip | scival_search/utils.py:73 | `int(str(n)) == n` |
| Text.Slice | scival_search/related_papers.py:77 | Python slicing: length and elements from the normalised bounds, with negative bounds counted from the end |
| Text.DropLastSlice | scival_search/related_papers.py:77 | for `k > 0`, `lines[:-k]` is all but the last `k` lines, and empty for at most `k` lines (`lines[:-0]` would be empty) |
| Text.TrimBothSlice | scival_search/related_papers.py:89 | for `k > 0`, `lines[1:-k]` drops the first line and the last `k` lines, and is empty below `k + 2` lines |
| Patterns.DigitRuns | scival_search/utils.py:76 | `findall(r"\d+")` yields non-empty digit runs |
| Patterns.DigitRunsSkip | scival_search/utils.py:76 | digit-free text adds no run |
| Patterns.DigitRunsLead | scival_search/utils.py:76 | a maximal digit run at the front is the first run found |
| Patterns.FourDigitRuns | scival_search/utils.py:72 | `findall(r"\d{4}")` yields runs of exactly four digits |
| Patterns.FourDigitRunsShort | scival_search/utils.py:72 | a run of one to three digits that a non-digit or the end follows gives no match; the scan resumes at that non-digit |
| Patterns.FourDigitRunsLead | scival_search/utils.py:72 | four leading digits are the first run found, and the scan resumes after them |
| Patterns.IsPublicationsLineMeaning | scival_search/utils.py:75 | the one-pass scan `IsPublicationsLine` accepts a line exactly when some non-empty run of digits opens it and ` publications (` follows that run, which is what `re.match` tests |
| Patterns.LastOccurrence | scival_search/utils.py:87-91 | the greedy `(.*)` ends at the last occurrence of the closing delimiter that `.` can reach |
| Patterns.CaptureAtMeaning | scival_search/utils.py:87-91 | with the word at the position, a match exists exactly when the opening delimiter follows (after an optional comma) and a closing one occurs before the first "\n"; the group starts right after the opening delimiter and ends at the last closing delimiter `.` can reach |
| Patterns.CaptureAtFacts | scival_search/utils.py:87-91 | `<word>,?<delim>(.*)<delim>` tried at one position: no match unless the word is there; a captured value holds no "\n" and is followed by the closing delimiter, after the word and the opening delimiter |
| Patterns.FirstCapture | scival_search/utils.py:87-91 | `findall(...)[0]` exists exactly when some position matches, and is the capture of the leftmost match |
| Patterns.CaptureDelimited | scival_search/utils.py:87-89 | a value written between the delimiters after `word,` is captured whole, quotes inside included, unless it holds a "\n" |
| Patterns.CaptureRestAlways | scival_search/utils.py:90-91 | `Year range,?(.*)` matches every line that starts with `Year range,` |
| Content.Url | scival_search/utils.py:5-10 | `URLS.get`: a URL exactly for `search` and `related_topics`, each under the SciVal base URL |
| Content.GetContent | scival_search/utils.py:17-42 | an unknown API fails with ValueError and sends nothing; otherwise the result is the server's answer to the one request for that URL, `Topic/<id>`, csv and the page |
| Content.GetContentAsksOnce | scival_search/utils.py:38-42 | the result depends on the server only through that one request |
| Splitter.BreakKeyword | scival_search/utils.py:12-15 | a marker exactly for the two known APIs: `"Title` for search, `"Topics"` for related topics |
| Splitter.SplitAt | scival_search/utils.py:52-62 | the intro is the lines before the first line that starts with the marker; the table text joins that line and all after it; with no marker line the intro is empty and the table is the whole text |
| Splitter.TableLinesOf | scival_search/utils.py:60 | re-splitting the table text gives the table lines, less a last empty line |
| Splitter.SplitOfJoin | scival_search/utils.py:45-62 | splitting a response built from marker-free intro lines and a table headed by a marker line, whose last line is not empty, gives back the intro and the table text |
| Splitter.SplitLines | scival_search/utils.py:45-62 | as written: always succeeds; a known API is split at its marker and an unknown one at `"Title"` |
| Splitter.SplitLinesAcceptsUnknownApi | scival_search/utils.py:48-50 | the name `papers`, unknown to `URLS`, is accepted rather than rejected |
| Splitter.SplitLinesChecked | scival_search/utils.py:48-50 | corrected: fails with ValueError exactly for an API without a marker, and otherwise splits at the API's marker |
| Splitter.SplitLinesCheckedAgrees | scival_search/utils.py:45-62 | on the two known APIs the corrected split equals the original |
| SearchInfo.Classify | scival_search/utils.py:68-78 | a line takes the first branch whose test it passes; it fails exactly on a year-range line with fewer than two four-digit runs or a count line with fewer than two digit runs; a data-set value has no surrounding quotes |
| SearchInfo.Entries | scival_search/utils.py:68 | one entry per line, in order, each the line's classification |
| SearchInfo.ParseSearchInfo | scival_search/utils.py:65-79 | the loop fails exactly when some line is a year-range line with fewer than two four-digit runs or a count line with fewer than two numbers, and then with an IndexError |
| SearchInfo.FoldEntriesMeaning | scival_search/utils.py:67-79 | folding entries fails exactly when one is malformed, with an IndexError; otherwise each field is present exactly when some entry sets it and holds the last such entry's value |
| SearchInfo.ParseSearchInfoFolds | scival_search/utils.py:65-79 | the loop equals classifying every line first and folding the entries afterwards |
| SearchInfo.ParseSearchInfoMeaning | scival_search/utils.py:65-79 | `parse_search_info` fails exactly when some line is malformed; otherwise each key is present exactly when some line sets it, and holds what the last such line says |
| SearchInfo.DataSetLineRoundTrip | scival_search/utils.py:69-70 | `Data set,"<name>"` gives back the name when it neither starts nor ends with a quote; `strip('"')` would also remove such quotes |
| SearchInfo.YearRangeLineRoundTrip | scival_search/utils.py:71-74 | `Year range,<start>-<end>` with four-digit years gives back both years |
| SearchInfo.CountsLineMatches | scival_search/utils.py:75 | `<total> publications (first <retrieved> ...)` passes the `re.match` test |
| SearchInfo.CountsLineNumbers | scival_search/utils.py:76 | the digit runs of that line are exactly the two numbers |
| SearchInfo.CountsLineRoundTrip | scival_search/utils.py:75-78 | that line gives back the total and the retrieved count |
| SearchInfo.SmallExportLineIgnored | scival_search/utils.py:75 | `513 publications` is not a count line and sets nothing |
| TopicsInfo.ClassifyTopicsLine | scival_search/utils.py:86-91 | a line takes the first branch whose prefix it has; it fails exactly on a data-set or entity line whose regex finds nothing; year-range lines never fail |
| TopicsInfo.TopicsEntries | scival_search/utils.py:85 | one entry per line, in order, each the line's classification |
| TopicsInfo.ParseRelatedTopicsInfo | scival_search/utils.py:82-92 | the loop fails exactly when some data-set or entity line has no regex match, and then with an IndexError |
| TopicsInfo.FoldTopicsEntriesMeaning | scival_search/utils.py:84-92 | folding entries fails exactly when one is malformed; otherwise each key holds the last value set for it |
| TopicsInfo.ParseRelatedTopicsInfoFolds | scival_search/utils.py:82-92 | the loop equals classifying first and folding afterwards |
| TopicsInfo.ParseRelatedTopicsInfoMeaning | scival_search/utils.py:82-92 | `parse_related_topics_info` fails exactly when a data-set or entity line has no match; otherwise each key is present exactly when some line sets it, and holds what the last such line says |
| TopicsInfo.TopicsDataSetRoundTrip | scival_search/utils.py:86-87 | `Data set,""<name>""` gives back the name whole, quotes inside included |
| TopicsInfo.TopicsEntityRoundTrip | scival_search/utils.py:88-89 | `Entity,"<entity>"` gives back the entity whole |
| TopicsInfo.TopicsYearRangeRoundTrip | scival_search/utils.py:90-91 | `Year range,<text>` gives back the raw text |
| RelatedPapers.CeilDiv | scival_search/related_papers.py:66 | `ceil(n / d)`: enough pages of `d` for `n` publications, and one page fewer is not enough |
| RelatedPapers.CeilDivLeast | scival_search/related_papers.py:66 | no smaller page count holds all publications |
| RelatedPapers.PageCount | scival_search/related_papers.py:64-66 | KeyError for a missing `total_publications`, then for a missing `publications_retrieved`; ZeroDivisionError for zero per page; otherwise the ceiling page count |
| RelatedPapers.ExamplePageCount | scival_search/related_papers.py:64-66 | 3952 publications at 1000 per page take 4 pages |
| RelatedPapers.FirstPageRows | scival_search/related_papers.py:77 | page 1 keeps its table lines up to the last two, which are the footer; no lines at all when the page has at most two |
| RelatedPapers.LaterPageRows | scival_search/related_papers.py:85-89 | a later page keeps its table lines from the second up to the last two, dropping the repeated header and the footer; no lines when the page has at most three |
| RelatedPapers.ConcatLength | scival_search/related_papers.py:80-91 | the loop adds the pages' row counts |
| RelatedPapers.ConcatInOrder | scival_search/related_papers.py:80-91 | each page's rows sit after the earlier pages' rows and before the later pages' rows |
| RelatedPapers.ConcatReadsOnly | scival_search/related_papers.py:81 | only the pages in `range(2, num_pages + 1)` contribute |
| RelatedPapers.FetchPapers | scival_search/related_papers.py:56-99 | on success: the metadata is page 1's intro parsed; the page count exists; the row count is `total_publications`; pandas read that count from the assembled lines; those lines are page 1's rows followed by pages 2..num_pages in order, of the stated total length |
| RelatedPapers.FetchPapersAccepts | scival_search/related_papers.py:63-97 | a metadata or page-count error is the result; otherwise the retrieval succeeds exactly when pandas counts `total_publications` rows; text pandas cannot read is an error; any other count is a row-count mismatch naming both numbers |
| RelatedPapers.FetchPapersReadsOnlyItsPages | scival_search/related_papers.py:57-91 | servers that agree on pages 1..num_pages (page 1 only, when there are no more) give the same result |
| RelatedPapers.WellFormedPageRows | scival_search/related_papers.py:77-89 | on a page laid out as intro, header, rows and two footer lines, the last of them non-empty (`splitlines` drops a final empty line), page 1 gives header and rows and a later page gives the rows |
| RelatedTopics.TopicsTableLines | scival_search/related_topics.py:70 | `splitlines()[:-3]` is the table lines less the last three |
| RelatedTopics.FetchTopics | scival_search/related_topics.py:53-78 | on success: the metadata is the page's intro parsed; there are exactly 50 rows; pandas read them from the table lines less the footer |
| RelatedTopics.FetchTopicsAccepts | scival_search/related_topics.py:60-76 | a metadata error is the result; otherwise the retrieval succeeds exactly when pandas counts 50 rows; unreadable text is an error; any other count is a mismatch |
| RelatedTopics.FetchTopicsReadsOnePage | scival_search/related_topics.py:54 | only page 1 of the related-topics export is requested |
| RelatedTopics.WellFormedTopicsTable | scival_search/related_topics.py:57-70 | an export laid out as intro, header, rows and three footer lines, the last of them non-empty (`splitlines` drops a final empty line), yields header and rows |
| LegacyUtils.LegacyGetContent | utils.py:6-25 | the root module's fetch never fails and sends exactly the request the package sends for the search API |
| LegacyUtils.SplitLines | utils.py:28-40 | the cut at the first line that starts with `"Title"`, closing quote included, with the same partition guarantees as the package's split |
| LegacyUtils.ParseScivalInfo | utils.py:43-57 | fails exactly when some line is malformed; otherwise describes the lines, last line of each kind winning |
| LegacyUtils.PackageCutsNoLater | utils.py:28-40 | when some line starts with `"Title"`, the package, whose marker `"Title` is a prefix of it, cuts no later than the root module; the two cut at the same line when the package's first marker line opens with `"Title"` |

## Left out

- The HTTP transport is not modelled: headers, User-Agent, timeout, `raise_for_status`, the `Content-Disposition` attachment check and the `utf-8-sig` decoding. The server parameter returns the decoded body, and a transport failure is not a modelled outcome.
- `pd.read_csv` is the `CsvRows` parameter. Quoted CSV fields can span lines, so the model does not derive the row count from the lines.
- `show_progress`, `print` and `tqdm` are left out: they only write output.
- The class wrappers are left out: `__init__`, the `data`, `info` and `results` attributes, and `__repr__`. The retrieval functions return the record the attributes would hold.
- scival_search/__init__.py only re-exports the classes.
- Patterns.DigitRuns: only ASCII digits count as digits, because Python's `\d` and `int()` also accept other Unicode decimal digits and the model has no Unicode tables. The same holds for Patterns.FourDigitRuns, Patterns.IsPublicationsLine and Text.DecimalValue.
- RelatedPapers.CeilDiv: exact integer ceiling, because Python computes `ceil(n / retrieved)` in floating point, which differs only above 2^53 publications.
- Python `Literal` annotations are hints only and are not enforced, so the model accepts any API name.

## Findings

| source | as written | input that shows it | evidently intended | confidence | as-written member | corrected member |
|---|---|---|---|---|---|---|
| scival_search/utils.py:48-50 | the marker lookup has a non-empty default (`"Title"`), so the "Invalid API type" ValueError branch can never run, and an unknown API is split at `"Title"` | `split_lines(text, api="papers")` returns a split instead of raising | an API without a marker is rejected with ValueError, as `get_content` does for an API without a URL | not executed; high | Splitter.SplitLines, Splitter.SplitLinesAcceptsUnknownApi | Splitter.SplitLinesChecked |
