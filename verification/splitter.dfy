/** `split_lines` of scival_search/utils.py: a response is cut at the first
    line that starts with the API's marker into the intro (metadata lines) and
    the table text (that line and everything after it, re-joined with "\n"). */
module Splitter {
  import opened Results
  import opened Text
  import opened Content

  const SearchMarker := "\"Title"
  const TopicsMarker := "\"Topics\""
  /** The default of `BREAK_KEYWORD.get`. */
  const DefaultMarker := "\"Title\""

  /** `BREAK_KEYWORD[api]`, absent for an API the table does not list. */
  function BreakKeyword(api: string): (k: Option<string>)
    ensures k.Some? <==> KnownApi(api)
    ensures api == SearchApi ==> k == Some(SearchMarker)
    ensures api == RelatedTopicsApi ==> k == Some(TopicsMarker)
  {
    if api == SearchApi then Some(SearchMarker)
    else if api == RelatedTopicsApi then Some(TopicsMarker)
    else None
  }

  /** The first index from `i` on whose line starts with `marker`. */
  function FirstMarkerFrom(lines: seq<string>, marker: string, i: nat): (r: Option<nat>)
    requires i <= |lines|
    ensures r.Some? ==> i <= r.value < |lines| && StartsWith(lines[r.value], marker)
    ensures r.Some? ==> forall k :: i <= k < r.value ==> !StartsWith(lines[k], marker)
    ensures r.None? ==> forall k :: i <= k < |lines| ==> !StartsWith(lines[k], marker)
    decreases |lines| - i
  {
    if i == |lines| then None
    else if StartsWith(lines[i], marker) then Some(i)
    else FirstMarkerFrom(lines, marker, i + 1)
  }

  /** The value of `start` after the search loop: the first marker line, or 0. */
  function SplitIndex(lines: seq<string>, marker: string): nat
  {
    match FirstMarkerFrom(lines, marker, 0)
    case Some(i) => i
    case None => 0
  }

  datatype SplitResponse = SplitResponse(intro: seq<string>, tableText: string)

  /** The cut at `marker`: the intro is exactly the lines before the first line that
      starts with `marker`, and the table text re-joins that line and all after it. */
  function SplitAt(text: string, marker: string): (r: SplitResponse)
    ensures |r.intro| <= |Lines(text)|
    ensures r.intro == Lines(text)[..|r.intro|]
    ensures r.tableText == Join(Lines(text)[|r.intro|..])
    ensures forall k :: 0 <= k < |r.intro| ==> !StartsWith(r.intro[k], marker)
    ensures (exists k :: 0 <= k < |Lines(text)| && StartsWith(Lines(text)[k], marker))
            ==> |r.intro| < |Lines(text)| && StartsWith(Lines(text)[|r.intro|], marker)
    ensures (forall k :: 0 <= k < |Lines(text)| ==> !StartsWith(Lines(text)[k], marker))
            ==> r.intro == [] && r.tableText == Join(Lines(text))
  {
    var lines := Lines(text);
    var start := SplitIndex(lines, marker);
    SplitResponse(lines[..start], Join(lines[start..]))
  }

  /** The lines a caller gets back from `table_text.splitlines()`. */
  function TableLines(text: string, marker: string): seq<string>
  {
    Lines(SplitAt(text, marker).tableText)
  }

  /** Re-splitting the table text gives the table's lines, less a last empty line. */
  lemma TableLinesOf(text: string, marker: string)
    ensures TableLines(text, marker) == DropTrailingEmpty(Lines(text)[|SplitAt(text, marker).intro|..])
  {
    var lines := Lines(text);
    var start := |SplitAt(text, marker).intro|;
    assert AreLines(lines[start..]) by {
      forall i | 0 <= i < |lines[start..]|
        ensures IsLine(lines[start..][i])
      {
        assert lines[start..][i] == lines[start + i];
      }
    }
    LinesOfJoin(lines[start..]);
  }

  /** Split inverts the assembly of a response from an intro without marker lines and a
      table headed by a marker line (whose last line is not empty). */
  lemma SplitOfJoin(intro: seq<string>, table: seq<string>, marker: string)
    requires AreLines(intro) && AreLines(table)
    requires forall k :: 0 <= k < |intro| ==> !StartsWith(intro[k], marker)
    requires |table| > 0 && StartsWith(table[0], marker) && table[|table| - 1] != ""
    ensures SplitAt(Join(intro + table), marker) == SplitResponse(intro, Join(table))
  {
    var lines := intro + table;
    assert AreLines(lines) by {
      forall i | 0 <= i < |lines|
        ensures IsLine(lines[i])
      {
        if i < |intro| {
          assert lines[i] == intro[i];
        } else {
          assert lines[i] == table[i - |intro|];
        }
      }
    }
    LinesOfJoin(lines);
    assert lines[|lines| - 1] == table[|table| - 1];
    assert Lines(Join(lines)) == lines;
    assert lines[|intro|] == table[0];
    assert forall k :: 0 <= k < |intro| ==> lines[k] == intro[k];
    assert SplitIndex(lines, marker) == |intro|;
    assert lines[..|intro|] == intro && lines[|intro|..] == table;
  }

  /** `split_lines(text, api)` as written: `BREAK_KEYWORD.get(api, '"Title"')` is never
      empty, so the ValueError branch cannot be taken and an unknown API is split at
      the default marker. */
  function SplitLines(text: string, api: string): (r: Result<SplitResponse>)
    ensures r.Success?
    ensures KnownApi(api) ==> r.value == SplitAt(text, BreakKeyword(api).value)
    ensures !KnownApi(api) ==> r.value == SplitAt(text, DefaultMarker)
  {
    var keyword := match BreakKeyword(api) case Some(k) => k case None => DefaultMarker;
    if |keyword| == 0 then Failure(InvalidApi(api))
    else Success(SplitAt(text, keyword))
  }

  /** An API name `URLS` does not know is accepted by the code as written. */
  lemma SplitLinesAcceptsUnknownApi(text: string)
    ensures !KnownApi("papers") && SplitLines(text, "papers").Success?
  {
  }

  /** `split_lines` as its ValueError branch intends: an API without a marker is rejected. */
  function SplitLinesChecked(text: string, api: string): (r: Result<SplitResponse>)
    ensures r.Failure? <==> !KnownApi(api)
    ensures r.Failure? ==> r.error == InvalidApi(api)
    ensures r.Success? ==> r.value == SplitAt(text, BreakKeyword(api).value)
  {
    match BreakKeyword(api)
    case None => Failure(InvalidApi(api))
    case Some(keyword) => Success(SplitAt(text, keyword))
  }

  /** On the two APIs the code is called with, the corrected split agrees with the original. */
  lemma SplitLinesCheckedAgrees(text: string, api: string)
    requires KnownApi(api)
    ensures SplitLinesChecked(text, api) == SplitLines(text, api)
  {
  }
}
