/** `RelatedPapers.fetch_papers` of scival_search/related_papers.py: page 1 of
    the search export gives the metadata and the page count; every page's
    table lines, trimmed of the repeated header and the summary footer, are
    concatenated in page order and the assembled table must hold exactly the
    announced number of publications. */
module RelatedPapers {
  import opened Results
  import opened Text
  import opened Content
  import opened Splitter
  import opened SearchInfo

  /** The summary lines that end every page of the export. */
  const FooterLines := 2

  /** The retrieved table: the metadata of page 1, the assembled table lines and
      the row count pandas found in them. */
  datatype Papers = Papers(info: SearchInfo, lines: seq<string>, rows: nat)

  function SearchRequest(topicId: string, cookie: string, page: int): Request {
    Request(Url(SearchApi).value, TopicUri(topicId), "csv", page, cookie)
  }

  /** `get_content(..., api="search", page=page)` followed by `split_lines(text, api="search")`;
      neither can fail for the search API. */
  function FetchSearchPage(topicId: string, cookie: string, server: Server, page: int): (sp: SplitResponse)
    ensures sp == SplitAt(server(SearchRequest(topicId, cookie, page)), SearchMarker)
  {
    var text := GetContent(topicId, SearchApi, cookie, page, server).value;
    SplitLinesChecked(text, SearchApi).value
  }

  /** `page_table_text.splitlines()` of one page. */
  function PageTableLines(topicId: string, cookie: string, server: Server, page: int): seq<string> {
    Lines(FetchSearchPage(topicId, cookie, server, page).tableText)
  }

  /** `ceil(n / d)` on integers. */
  function CeilDiv(n: nat, d: nat): (k: nat)
    requires d > 0
    ensures k * d >= n
    ensures k > 0 ==> (k - 1) * d < n
  {
    if n == 0 then 0 else if n <= d then 1 else 1 + CeilDiv(n - d, d)
  }

  /** The ceiling is the least page count whose pages can hold all publications. */
  lemma CeilDivLeast(n: nat, d: nat, j: nat)
    requires d > 0 && j * d >= n
    ensures CeilDiv(n, d) <= j
  {
    var k := CeilDiv(n, d);
    if k > 0 {
      FactorsOfLessProduct(k - 1, j, d);
    }
  }

  lemma FactorsOfLessProduct(a: nat, b: nat, d: nat)
    requires a * d < b * d
    ensures a < b
  {
  }

  /** `n = info['total_publications']`, `retrieved = info['publications_retrieved']`,
      `num_pages = ceil(n / retrieved)`: two KeyErrors and a ZeroDivisionError. */
  function PageCount(info: SearchInfo): (r: Result<nat>)
    ensures info.totalPublications.None? ==> r == Failure(MissingKey("total_publications"))
    ensures info.totalPublications.Some? && info.publicationsRetrieved.None?
            ==> r == Failure(MissingKey("publications_retrieved"))
    ensures info.totalPublications.Some? && info.publicationsRetrieved == Some(0) ==> r == Failure(DivisionByZero)
    ensures r.Success? <==> info.totalPublications.Some? && info.publicationsRetrieved.Some?
                            && info.publicationsRetrieved.value > 0
    ensures r.Success? ==> r.value * info.publicationsRetrieved.value >= info.totalPublications.value
    ensures r.Success? && r.value > 0
            ==> (r.value - 1) * info.publicationsRetrieved.value < info.totalPublications.value
  {
    var n :- Lookup(info.totalPublications, "total_publications");
    var retrieved :- Lookup(info.publicationsRetrieved, "publications_retrieved");
    if retrieved == 0 then Failure(DivisionByZero) else Success(CeilDiv(n, retrieved))
  }

  /** Page `page` after the first: its table lines without the repeated column
      header and the footer (`[1:-2]`), three lines fewer than the page has. */
  function LaterPageRows(topicId: string, cookie: string, server: Server, page: int): (rows: seq<string>)
    ensures var t := PageTableLines(topicId, cookie, server, page);
            rows == if |t| <= FooterLines + 1 then [] else t[1..|t| - FooterLines]
    ensures |rows| == Max0(|PageTableLines(topicId, cookie, server, page)| - (FooterLines + 1))
  {
    TrimBothSlice(PageTableLines(topicId, cookie, server, page), FooterLines);
    Slice(PageTableLines(topicId, cookie, server, page), 1, -FooterLines)
  }

  function LaterPageRowsOf(topicId: string, cookie: string, server: Server): int -> seq<string> {
    page => LaterPageRows(topicId, cookie, server, page)
  }

  /** Page 1: its table lines, column header included, without the footer (`[:-2]`). */
  function FirstPageRows(topicId: string, cookie: string, server: Server): (rows: seq<string>)
    ensures var t := PageTableLines(topicId, cookie, server, 1);
            rows == if |t| <= FooterLines then [] else t[..|t| - FooterLines]
    ensures |rows| == Max0(|PageTableLines(topicId, cookie, server, 1)| - FooterLines)
  {
    DropLastSlice(PageTableLines(topicId, cookie, server, 1), FooterLines);
    Slice(PageTableLines(topicId, cookie, server, 1), 0, -FooterLines)
  }

  /** The loop over `range(lo, hi + 1)`: page `p` contributes `rowsOf(p)`, appended to
      what the pages before it contributed. */
  function Concat(rowsOf: int -> seq<string>, lo: int, hi: int): seq<string>
    decreases hi - lo
  {
    if lo > hi then [] else rowsOf(lo) + Concat(rowsOf, lo + 1, hi)
  }

  /** Σ |rowsOf(p)| over the pages `lo..hi`. */
  function TotalRows(rowsOf: int -> seq<string>, lo: int, hi: int): nat
    decreases hi - lo
  {
    if lo > hi then 0 else |rowsOf(lo)| + TotalRows(rowsOf, lo + 1, hi)
  }

  lemma {:induction false} ConcatLength(rowsOf: int -> seq<string>, lo: int, hi: int)
    ensures |Concat(rowsOf, lo, hi)| == TotalRows(rowsOf, lo, hi)
    decreases hi - lo
  {
    if lo <= hi {
      ConcatLength(rowsOf, lo + 1, hi);
    }
  }

  /** Every page of the range contributes its rows at its place: after the pages before
      it and before the pages after it. */
  lemma {:induction false} ConcatInOrder(rowsOf: int -> seq<string>, lo: int, p: int, hi: int)
    requires lo <= p <= hi
    ensures Concat(rowsOf, lo, hi) == Concat(rowsOf, lo, p - 1) + rowsOf(p) + Concat(rowsOf, p + 1, hi)
    decreases p - lo
  {
    if p > lo {
      ConcatInOrder(rowsOf, lo + 1, p, hi);
      var head := rowsOf(lo);
      var a := Concat(rowsOf, lo + 1, p - 1);
      var c := Concat(rowsOf, p + 1, hi);
      assert Concat(rowsOf, lo, p - 1) == head + a;
      assert head + (a + rowsOf(p) + c) == (head + a) + rowsOf(p) + c;
    }
  }

  /** Only the contributions of the pages in the range matter. */
  lemma {:induction false} ConcatReadsOnly(f1: int -> seq<string>, f2: int -> seq<string>, lo: int, hi: int)
    requires forall p :: lo <= p <= hi ==> f1(p) == f2(p)
    ensures Concat(f1, lo, hi) == Concat(f2, lo, hi)
    decreases hi - lo
  {
    if lo <= hi {
      ConcatReadsOnly(f1, f2, lo + 1, hi);
    }
  }

  /** `all_table_lines` once the loop is done. */
  function AssembledLines(topicId: string, cookie: string, server: Server, numPages: nat): seq<string> {
    FirstPageRows(topicId, cookie, server) + Concat(LaterPageRowsOf(topicId, cookie, server), 2, numPages)
  }

  /** `fetch_papers()`. */
  function FetchPapers(topicId: string, cookie: string, server: Server, csvRows: CsvRows): (r: Result<Papers>)
    ensures r.Success? ==> ParseSearchInfo(FetchSearchPage(topicId, cookie, server, 1).intro) == Success(r.value.info)
    ensures r.Success? ==> PageCount(r.value.info).Success?
    ensures r.Success? ==> r.value.info.totalPublications == Some(r.value.rows)
    ensures r.Success? ==> csvRows(Join(r.value.lines)) == Some(r.value.rows)
    ensures r.Success? ==> r.value.lines == AssembledLines(topicId, cookie, server, PageCount(r.value.info).value)
    ensures r.Success? ==> |r.value.lines| == Max0(|PageTableLines(topicId, cookie, server, 1)| - FooterLines)
                                             + TotalRows(LaterPageRowsOf(topicId, cookie, server), 2,
                                                         PageCount(r.value.info).value)
  {
    var page1 := FetchSearchPage(topicId, cookie, server, 1);
    var info :- ParseSearchInfo(page1.intro);
    var numPages :- PageCount(info);
    var n := info.totalPublications.value;
    var lines := AssembledLines(topicId, cookie, server, numPages);
    ConcatLength(LaterPageRowsOf(topicId, cookie, server), 2, numPages);
    match csvRows(Join(lines))
    case None => Failure(UnreadableTable)
    case Some(rows) =>
      if rows != n then Failure(RowCountMismatch(n, rows)) else Success(Papers(info, lines, rows))
  }

  /** The table is accepted exactly when pandas counts the announced number of rows in
      the assembled lines; text pandas cannot read is an error, any other count is a
      row-count mismatch, and a metadata error stops the retrieval before the later
      pages are read. */
  lemma FetchPapersAccepts(topicId: string, cookie: string, server: Server, csvRows: CsvRows)
    ensures ParseSearchInfo(FetchSearchPage(topicId, cookie, server, 1).intro).Failure?
            ==> FetchPapers(topicId, cookie, server, csvRows)
                == Failure(ParseSearchInfo(FetchSearchPage(topicId, cookie, server, 1).intro).error)
    ensures var info := ParseSearchInfo(FetchSearchPage(topicId, cookie, server, 1).intro);
            info.Success? && PageCount(info.value).Failure?
            ==> FetchPapers(topicId, cookie, server, csvRows) == Failure(PageCount(info.value).error)
    ensures var info := ParseSearchInfo(FetchSearchPage(topicId, cookie, server, 1).intro);
            info.Success? && PageCount(info.value).Success?
            ==> var n := info.value.totalPublications.value;
                var lines := AssembledLines(topicId, cookie, server, PageCount(info.value).value);
                && (FetchPapers(topicId, cookie, server, csvRows).Success? <==> csvRows(Join(lines)) == Some(n))
                && (csvRows(Join(lines)).None? ==> FetchPapers(topicId, cookie, server, csvRows) == Failure(UnreadableTable))
                && (forall k: nat :: csvRows(Join(lines)) == Some(k) && k != n
                      ==> FetchPapers(topicId, cookie, server, csvRows) == Failure(RowCountMismatch(n, k)))
  {
  }

  /** The pages requested: page 1, and pages 2 through `num_pages` when there are more. */
  function PagesRead(topicId: string, cookie: string, server: Server): nat
  {
    match ParseSearchInfo(FetchSearchPage(topicId, cookie, server, 1).intro)
    case Failure(_) => 1
    case Success(info) =>
      match PageCount(info)
      case Failure(_) => 1
      case Success(numPages) => if numPages > 1 then numPages else 1
  }

  /** Only pages `1..PagesRead` are ever requested: two servers that answer those
      requests alike give the same outcome. */
  lemma FetchPapersReadsOnlyItsPages(topicId: string, cookie: string, s1: Server, s2: Server, csvRows: CsvRows)
    requires forall p :: 1 <= p <= PagesRead(topicId, cookie, s1)
                         ==> s1(SearchRequest(topicId, cookie, p)) == s2(SearchRequest(topicId, cookie, p))
    ensures FetchPapers(topicId, cookie, s1, csvRows) == FetchPapers(topicId, cookie, s2, csvRows)
  {
    assert s1(SearchRequest(topicId, cookie, 1)) == s2(SearchRequest(topicId, cookie, 1));
    PageAgrees(topicId, cookie, s1, s2, 1);
    var info := ParseSearchInfo(FetchSearchPage(topicId, cookie, s1, 1).intro);
    if info.Success? && PageCount(info.value).Success? {
      AssembledAgrees(topicId, cookie, s1, s2, PageCount(info.value).value);
    }
  }

  lemma AssembledAgrees(topicId: string, cookie: string, s1: Server, s2: Server, numPages: nat)
    requires forall p :: 1 <= p <= numPages
                         ==> s1(SearchRequest(topicId, cookie, p)) == s2(SearchRequest(topicId, cookie, p))
    requires s1(SearchRequest(topicId, cookie, 1)) == s2(SearchRequest(topicId, cookie, 1))
    ensures AssembledLines(topicId, cookie, s1, numPages) == AssembledLines(topicId, cookie, s2, numPages)
  {
    PageAgrees(topicId, cookie, s1, s2, 1);
    forall p | 2 <= p <= numPages
      ensures LaterPageRowsOf(topicId, cookie, s1)(p) == LaterPageRowsOf(topicId, cookie, s2)(p)
    {
      PageAgrees(topicId, cookie, s1, s2, p);
    }
    ConcatReadsOnly(LaterPageRowsOf(topicId, cookie, s1), LaterPageRowsOf(topicId, cookie, s2), 2, numPages);
  }

  lemma PageAgrees(topicId: string, cookie: string, s1: Server, s2: Server, p: int)
    requires s1(SearchRequest(topicId, cookie, p)) == s2(SearchRequest(topicId, cookie, p))
    ensures FetchSearchPage(topicId, cookie, s1, p) == FetchSearchPage(topicId, cookie, s2, p)
    ensures PageTableLines(topicId, cookie, s1, p) == PageTableLines(topicId, cookie, s2, p)
    ensures LaterPageRows(topicId, cookie, s1, p) == LaterPageRows(topicId, cookie, s2, p)
    ensures p == 1 ==> FirstPageRows(topicId, cookie, s1) == FirstPageRows(topicId, cookie, s2)
  {
  }

  /** A page as the export lays it out: intro lines, the column header (the marker
      line), the data rows and the two footer lines. Page 1 contributes header and
      rows, every later page its rows only. */
  lemma WellFormedPageRows(intro: seq<string>, header: string, rows: seq<string>, footer: seq<string>)
    requires AreLines(intro) && IsLine(header) && AreLines(rows) && AreLines(footer)
    requires forall k :: 0 <= k < |intro| ==> !StartsWith(intro[k], SearchMarker)
    requires StartsWith(header, SearchMarker)
    requires |footer| == FooterLines && footer[1] != ""
    ensures var table := Lines(SplitAt(Join(intro + ([header] + rows + footer)), SearchMarker).tableText);
            Slice(table, 0, -FooterLines) == [header] + rows && Slice(table, 1, -FooterLines) == rows
  {
    var table := [header] + rows + footer;
    AreLinesConcat([header], rows);
    AreLinesConcat([header] + rows, footer);
    assert table[0] == header && table[|table| - 1] == footer[1];
    SplitOfJoin(intro, table, SearchMarker);
    LinesOfJoin(table);
    DropLastSlice(table, FooterLines);
    TrimBothSlice(table, FooterLines);
    assert table[..|table| - 2] == [header] + rows;
    assert table[1..|table| - 2] == rows;
  }

  /** 3952 publications exported 1000 at a time take four pages. */
  lemma ExamplePageCount()
    ensures PageCount(SearchInfo(None, None, None, Some(3952), Some(1000))) == Success(4)
  {
  }
}
