/** The standalone utils.py at the repository root: a search-only
    counterpart of scival_search/utils.py. It fetches from the search export
    only, cuts a response at the first line starting with `"Title"` (closing
    quote included) and parses the intro with the same loop as
    `parse_search_info`. */
module LegacyUtils {
  import opened Results
  import opened Text
  import opened Content
  import opened Splitter
  import opened SearchInfo

  /** The root module's single endpoint. */
  const LegacyUrl := BaseUrl + "/search/export"
  /** The root module's marker: the whole first column header, quotes included. */
  const LegacyMarker := "\"Title\""

  /** `get_content(topic_id, cookie, page)` of the root module, without the transport.
      It never fails, and it sends the request the package sends for the search API. */
  function LegacyGetContent(topicId: string, cookie: string, page: int, server: Server): (text: string)
    ensures GetContent(topicId, SearchApi, cookie, page, server) == Success(text)
  {
    server(Request(LegacyUrl, TopicUri(topicId), "csv", page, cookie))
  }

  /** `split_lines(text)` of the root module: the intro is the lines before the first
      line starting with `"Title"`, the table text re-joins the rest. */
  function SplitLines(text: string): (r: SplitResponse)
    ensures |r.intro| <= |Lines(text)| && r.intro == Lines(text)[..|r.intro|]
    ensures r.tableText == Join(Lines(text)[|r.intro|..])
    ensures forall k :: 0 <= k < |r.intro| ==> !StartsWith(r.intro[k], LegacyMarker)
    ensures (exists k :: 0 <= k < |Lines(text)| && StartsWith(Lines(text)[k], LegacyMarker))
            ==> |r.intro| < |Lines(text)| && StartsWith(Lines(text)[|r.intro|], LegacyMarker)
    ensures (forall k :: 0 <= k < |Lines(text)| ==> !StartsWith(Lines(text)[k], LegacyMarker))
            ==> r.intro == [] && r.tableText == Join(Lines(text))
  {
    SplitAt(text, LegacyMarker)
  }

  /** `parse_scival_info(intro_lines)`: the loop of `parse_search_info`, line for line.
      It fails exactly when a year-range or counts line lacks its numbers, and
      otherwise holds what the last line of each kind says. */
  function ParseScivalInfo(lines: seq<string>): (r: Result<SearchInfo>)
    ensures r.Failure? <==> exists i :: 0 <= i < |lines| && Classify(lines[i]).Malformed?
    ensures r.Failure? ==> r.error == MissingMatch
    ensures r.Success? ==> Describes(lines, r.value)
  {
    ParseSearchInfoMeaning(lines);
    ParseSearchInfo(lines)
  }

  lemma LegacyMarkerExtends(line: string)
    requires StartsWith(line, LegacyMarker)
    ensures StartsWith(line, SearchMarker)
  {
    assert LegacyMarker[..|SearchMarker|] == SearchMarker;
    assert line[..|SearchMarker|] == line[..|LegacyMarker|][..|SearchMarker|];
  }

  /** The package's marker `"Title` is a prefix of the root's `"Title"`: wherever the root
      module finds its marker, the package cuts no later, and the two cut at the same line
      when the package's first marker line opens with the full `"Title"`. */
  lemma PackageCutsNoLater(text: string)
    ensures var lines := Lines(text);
            (exists k :: 0 <= k < |lines| && StartsWith(lines[k], LegacyMarker))
            ==> |SplitAt(text, SearchMarker).intro| <= |SplitLines(text).intro|
    ensures var lines := Lines(text);
            var pkg := SplitAt(text, SearchMarker);
            |pkg.intro| < |lines| && StartsWith(lines[|pkg.intro|], LegacyMarker)
            ==> pkg == SplitLines(text)
  {
    var lines := Lines(text);
    var pkg := SplitAt(text, SearchMarker);
    var root := SplitLines(text);
    if exists k :: 0 <= k < |lines| && StartsWith(lines[k], LegacyMarker) {
      var m := |root.intro|;
      LegacyMarkerExtends(lines[m]);
    }
    if |pkg.intro| < |lines| && StartsWith(lines[|pkg.intro|], LegacyMarker) {
      var k := |pkg.intro|;
      var m := |root.intro|;
      LegacyMarkerExtends(lines[m]);
      assert m == k;
    }
  }
}
