/** `RelatedTopics.fetch_topics` of scival_search/related_topics.py: the
    related-topics export is a single page of 50 topics; its intro gives the
    metadata and its table lines, less a three-line footer, must hold exactly
    50 rows. */
module RelatedTopics {
  import opened Results
  import opened Text
  import opened Content
  import opened Splitter
  import opened TopicsInfo

  /** The related-topics export lists a fixed number of topics. */
  const ExpectedTopics: nat := 50
  /** The summary lines that end the export. */
  const TopicsFooterLines := 3

  datatype Topics = Topics(info: TopicsInfo, lines: seq<string>, rows: nat)

  /** The one request `fetch_topics` sends: page 1 of the related-topics export. */
  function TopicsRequest(topicId: string, cookie: string): Request {
    Request(Url(RelatedTopicsApi).value, TopicUri(topicId), "csv", 1, cookie)
  }

  /** `get_content(..., api="related_topics", page=1)` followed by `split_lines(text, api="related_topics")`. */
  function FetchTopicsPage(topicId: string, cookie: string, server: Server): (sp: SplitResponse)
    ensures sp == SplitAt(server(TopicsRequest(topicId, cookie)), TopicsMarker)
  {
    var text := GetContent(topicId, RelatedTopicsApi, cookie, 1, server).value;
    SplitLinesChecked(text, RelatedTopicsApi).value
  }

  /** `table_text.splitlines()[:-3]`: the table lines, the footer dropped. */
  function TopicsTableLines(topicId: string, cookie: string, server: Server): (lines: seq<string>)
    ensures var table := Lines(FetchTopicsPage(topicId, cookie, server).tableText);
            lines == if |table| <= TopicsFooterLines then [] else table[..|table| - TopicsFooterLines]
    ensures |lines| == Max0(|Lines(FetchTopicsPage(topicId, cookie, server).tableText)| - TopicsFooterLines)
  {
    var table := Lines(FetchTopicsPage(topicId, cookie, server).tableText);
    DropLastSlice(table, TopicsFooterLines);
    Slice(table, 0, -TopicsFooterLines)
  }

  /** `fetch_topics()`. */
  function FetchTopics(topicId: string, cookie: string, server: Server, csvRows: CsvRows): (r: Result<Topics>)
    ensures r.Success? ==> ParseRelatedTopicsInfo(FetchTopicsPage(topicId, cookie, server).intro) == Success(r.value.info)
    ensures r.Success? ==> r.value.rows == ExpectedTopics
    ensures r.Success? ==> csvRows(Join(r.value.lines)) == Some(ExpectedTopics)
    ensures r.Success? ==> r.value.lines == TopicsTableLines(topicId, cookie, server)
  {
    var info :- ParseRelatedTopicsInfo(FetchTopicsPage(topicId, cookie, server).intro);
    var lines := TopicsTableLines(topicId, cookie, server);
    match csvRows(Join(lines))
    case None => Failure(UnreadableTable)
    case Some(rows) =>
      if rows != ExpectedTopics then Failure(RowCountMismatch(ExpectedTopics, rows))
      else Success(Topics(info, lines, rows))
  }

  /** A metadata error stops the retrieval; otherwise the table is accepted exactly when
      pandas counts 50 rows, and any other count is a row-count mismatch. */
  lemma FetchTopicsAccepts(topicId: string, cookie: string, server: Server, csvRows: CsvRows)
    ensures var info := ParseRelatedTopicsInfo(FetchTopicsPage(topicId, cookie, server).intro);
            info.Failure? ==> FetchTopics(topicId, cookie, server, csvRows) == Failure(info.error)
    ensures var info := ParseRelatedTopicsInfo(FetchTopicsPage(topicId, cookie, server).intro);
            var count := csvRows(Join(TopicsTableLines(topicId, cookie, server)));
            info.Success?
            ==> && (FetchTopics(topicId, cookie, server, csvRows).Success? <==> count == Some(ExpectedTopics))
                && (count.None? ==> FetchTopics(topicId, cookie, server, csvRows) == Failure(UnreadableTable))
                && (forall k: nat :: count == Some(k) && k != ExpectedTopics
                      ==> FetchTopics(topicId, cookie, server, csvRows) == Failure(RowCountMismatch(ExpectedTopics, k)))
  {
  }

  /** Only page 1 is requested: two servers that answer that request alike give the
      same outcome. */
  lemma FetchTopicsReadsOnePage(topicId: string, cookie: string, s1: Server, s2: Server, csvRows: CsvRows)
    requires s1(TopicsRequest(topicId, cookie)) == s2(TopicsRequest(topicId, cookie))
    ensures FetchTopics(topicId, cookie, s1, csvRows) == FetchTopics(topicId, cookie, s2, csvRows)
  {
    assert FetchTopicsPage(topicId, cookie, s1) == FetchTopicsPage(topicId, cookie, s2);
  }

  /** An export laid out as intro lines, the column header (the marker line), the rows
      and the three footer lines yields exactly header and rows. */
  lemma WellFormedTopicsTable(intro: seq<string>, header: string, rows: seq<string>, footer: seq<string>)
    requires AreLines(intro) && IsLine(header) && AreLines(rows) && AreLines(footer)
    requires forall k :: 0 <= k < |intro| ==> !StartsWith(intro[k], TopicsMarker)
    requires StartsWith(header, TopicsMarker)
    requires |footer| == TopicsFooterLines && footer[2] != ""
    ensures var table := Lines(SplitAt(Join(intro + ([header] + rows + footer)), TopicsMarker).tableText);
            Slice(table, 0, -TopicsFooterLines) == [header] + rows
  {
    var table := [header] + rows + footer;
    AreLinesConcat([header], rows);
    AreLinesConcat([header] + rows, footer);
    assert table[0] == header && table[|table| - 1] == footer[2];
    SplitOfJoin(intro, table, TopicsMarker);
    LinesOfJoin(table);
    DropLastSlice(table, TopicsFooterLines);
    assert table[..|table| - 3] == [header] + rows;
  }
}
