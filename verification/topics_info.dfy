/** `parse_related_topics_info` of scival_search/utils.py: the intro of a
    related-topics export carries the data set (between doubled quotes), the
    entity (between quotes) and the year range (free text). */
module TopicsInfo {
  import opened Results
  import opened Text
  import opened Patterns

  const EntityWord := "Entity"
  const EntityPrefix := EntityWord + ","
  const DoubledQuote := "\"\""
  const Quote := "\""

  /** The keys `data_set`, `entity` and `year_range`. */
  datatype TopicsInfo = TopicsInfo(dataSet: Option<string>, entity: Option<string>, yearRange: Option<string>)

  const NoTopicsInfo := TopicsInfo(None, None, None)

  /** What one intro line does to the dictionary. */
  datatype TopicsEntry =
    | TopicsDataSet(name: string)
    | TopicsEntity(entity: string)
    | TopicsYearRange(range: string)
    | TopicsIgnored
    | TopicsMalformed   // `re.findall(...)[0]` on an empty match list

  /** `re.findall(r'Data set,?""(.*)""', line)[0]`, None where it raises. */
  function DataSetCapture(line: string): Option<string> {
    FirstCapture(line, 0, DataSetWord, DoubledQuote)
  }

  /** `re.findall(r'Entity,?"(.*)"', line)[0]`. */
  function EntityCapture(line: string): Option<string> {
    FirstCapture(line, 0, EntityWord, Quote)
  }

  /** `re.findall(r'Year range,?(.*)', line)[0]`. */
  function YearRangeCapture(line: string): Option<string> {
    FirstCapture(line, 0, YearRangeWord, "")
  }

  /** The branch of the loop body a line takes, and what that branch computes. */
  function ClassifyTopicsLine(line: string): (e: TopicsEntry)
    ensures e.TopicsDataSet? <==> StartsWith(line, DataSetPrefix) && DataSetCapture(line).Some?
    ensures e.TopicsEntity? <==> !StartsWith(line, DataSetPrefix) && StartsWith(line, EntityPrefix)
                                 && EntityCapture(line).Some?
    ensures e.TopicsYearRange? <==> !StartsWith(line, DataSetPrefix) && !StartsWith(line, EntityPrefix)
                                    && StartsWith(line, YearRangePrefix)
    ensures e.TopicsIgnored? <==> !StartsWith(line, DataSetPrefix) && !StartsWith(line, EntityPrefix)
                                  && !StartsWith(line, YearRangePrefix)
    ensures e.TopicsMalformed? <==> (StartsWith(line, DataSetPrefix) && DataSetCapture(line).None?)
                                    || (!StartsWith(line, DataSetPrefix) && StartsWith(line, EntityPrefix)
                                        && EntityCapture(line).None?)
  {
    if StartsWith(line, DataSetPrefix) then
      match DataSetCapture(line)
      case Some(name) => TopicsDataSet(name)
      case None => TopicsMalformed
    else if StartsWith(line, EntityPrefix) then
      match EntityCapture(line)
      case Some(entity) => TopicsEntity(entity)
      case None => TopicsMalformed
    else if StartsWith(line, YearRangePrefix) then
      CaptureRestAlways(line, YearRangeWord);
      TopicsYearRange(YearRangeCapture(line).value)
    else TopicsIgnored
  }

  function ApplyTopics(info: TopicsInfo, e: TopicsEntry): Result<TopicsInfo>
  {
    match e
    case TopicsDataSet(name) => Success(info.(dataSet := Some(name)))
    case TopicsEntity(entity) => Success(info.(entity := Some(entity)))
    case TopicsYearRange(range) => Success(info.(yearRange := Some(range)))
    case TopicsIgnored => Success(info)
    case TopicsMalformed => Failure(MissingMatch)
  }

  /** A data-set or entity line without a match among the lines: the entry of some
      line (`TopicsEntries(lines)[i]` is `ClassifyTopicsLine(lines[i])`) is malformed. */
  predicate HasUnmatchedLine(lines: seq<string>) {
    exists i :: 0 <= i < |lines| && TopicsEntries(lines)[i].TopicsMalformed?
  }

  lemma UnmatchedSnoc(lines: seq<string>)
    requires |lines| > 0
    ensures HasUnmatchedLine(lines)
            <==> HasUnmatchedLine(lines[..|lines| - 1]) || ClassifyTopicsLine(lines[|lines| - 1]).TopicsMalformed?
  {
    var prefix := lines[..|lines| - 1];
    var es := TopicsEntries(lines);
    assert es == TopicsEntries(prefix) + [ClassifyTopicsLine(lines[|lines| - 1])];
    assert forall i :: 0 <= i < |prefix| ==> es[i] == TopicsEntries(prefix)[i];
  }

  /** `parse_related_topics_info(intro_lines)`: the loop, as the state after each prefix.
      The loop stops with an IndexError at the first data-set or entity line without a match. */
  function ParseRelatedTopicsInfo(lines: seq<string>): (r: Result<TopicsInfo>)
    ensures r.Failure? <==> HasUnmatchedLine(lines)
    ensures r.Failure? ==> r.error == MissingMatch
  {
    if |lines| == 0 then Success(NoTopicsInfo)
    else
      var prefix := lines[..|lines| - 1];
      UnmatchedSnoc(lines);
      var info :- ParseRelatedTopicsInfo(prefix);
      ApplyTopics(info, ClassifyTopicsLine(lines[|lines| - 1]))
  }

  /** The entry of every line, in order. */
  function TopicsEntries(lines: seq<string>): (es: seq<TopicsEntry>)
    ensures |es| == |lines|
    ensures forall i :: 0 <= i < |lines| ==> es[i] == ClassifyTopicsLine(lines[i])
  {
    if |lines| == 0 then [] else TopicsEntries(lines[..|lines| - 1]) + [ClassifyTopicsLine(lines[|lines| - 1])]
  }

  /** The loop over already classified lines. */
  function FoldTopicsEntries(es: seq<TopicsEntry>): Result<TopicsInfo>
  {
    if |es| == 0 then Success(NoTopicsInfo)
    else
      var info :- FoldTopicsEntries(es[..|es| - 1]);
      ApplyTopics(info, es[|es| - 1])
  }

  datatype TopicsField = DataSetKey | EntityKey | YearRangeKey

  predicate SetsKey(e: TopicsEntry, f: TopicsField) {
    match f
    case DataSetKey => e.TopicsDataSet?
    case EntityKey => e.TopicsEntity?
    case YearRangeKey => e.TopicsYearRange?
  }

  /** The dictionary value a key-setting entry stores. */
  function StoredValue(e: TopicsEntry): string
  {
    match e
    case TopicsDataSet(name) => name
    case TopicsEntity(entity) => entity
    case TopicsYearRange(range) => range
    case _ => ""
  }

  function Get(info: TopicsInfo, f: TopicsField): Option<string>
  {
    match f
    case DataSetKey => info.dataSet
    case EntityKey => info.entity
    case YearRangeKey => info.yearRange
  }

  ghost predicate SomeSetsKey(es: seq<TopicsEntry>, f: TopicsField) {
    exists i :: 0 <= i < |es| && SetsKey(es[i], f)
  }

  ghost predicate LastToSetKey(es: seq<TopicsEntry>, f: TopicsField, i: int) {
    0 <= i < |es| && SetsKey(es[i], f)
    && forall j :: i < j < |es| ==> !SetsKey(es[j], f)
  }

  /** Each key is present exactly when some entry sets it, and holds what the last such entry says. */
  ghost predicate SummarizesTopics(es: seq<TopicsEntry>, info: TopicsInfo) {
    && (forall f :: Get(info, f).Some? <==> SomeSetsKey(es, f))
    && (forall f, i :: LastToSetKey(es, f, i) ==> Get(info, f) == Some(StoredValue(es[i])))
  }

  /** The dictionary the intro lines describe: the last line of each kind wins. */
  ghost predicate DescribesTopics(lines: seq<string>, info: TopicsInfo) {
    SummarizesTopics(TopicsEntries(lines), info)
  }

  lemma SomeSetsKeySnoc(init: seq<TopicsEntry>, e: TopicsEntry, f: TopicsField)
    ensures SomeSetsKey(init + [e], f) <==> SomeSetsKey(init, f) || SetsKey(e, f)
  {
    var es := init + [e];
    if SomeSetsKey(init, f) {
      var i :| 0 <= i < |init| && SetsKey(init[i], f);
      assert es[i] == init[i];
    }
    if SetsKey(e, f) {
      assert es[|init|] == e;
    }
    if SomeSetsKey(es, f) && !SetsKey(e, f) {
      var i :| 0 <= i < |es| && SetsKey(es[i], f);
      assert i < |init| && es[i] == init[i];
    }
  }

  lemma LastToSetKeySnoc(init: seq<TopicsEntry>, e: TopicsEntry, f: TopicsField, i: int)
    requires LastToSetKey(init + [e], f, i)
    ensures SetsKey(e, f) ==> i == |init|
    ensures !SetsKey(e, f) ==> LastToSetKey(init, f, i) && (init + [e])[i] == init[i]
  {
    var es := init + [e];
    assert es[|init|] == e;
    if !SetsKey(e, f) {
      assert forall j :: 0 <= j < |init| ==> es[j] == init[j];
    }
  }

  lemma SummarizesTopicsSnoc(init: seq<TopicsEntry>, e: TopicsEntry, info: TopicsInfo)
    requires SummarizesTopics(init, info)
    requires !e.TopicsMalformed?
    ensures ApplyTopics(info, e).Success?
    ensures SummarizesTopics(init + [e], ApplyTopics(info, e).value)
  {
    var es := init + [e];
    assert es[|init|] == e;
    forall f
      ensures SomeSetsKey(es, f) <==> SomeSetsKey(init, f) || SetsKey(e, f)
    {
      SomeSetsKeySnoc(init, e, f);
    }
    forall f, i | LastToSetKey(es, f, i)
      ensures SetsKey(e, f) ==> i == |init|
      ensures !SetsKey(e, f) ==> LastToSetKey(init, f, i) && es[i] == init[i]
    {
      LastToSetKeySnoc(init, e, f, i);
    }
  }

  lemma {:induction false} FoldTopicsEntriesMeaning(es: seq<TopicsEntry>)
    ensures FoldTopicsEntries(es).Failure? <==> exists i :: 0 <= i < |es| && es[i].TopicsMalformed?
    ensures FoldTopicsEntries(es).Failure? ==> FoldTopicsEntries(es).error == MissingMatch
    ensures FoldTopicsEntries(es).Success? ==> SummarizesTopics(es, FoldTopicsEntries(es).value)
    decreases |es|
  {
    if |es| == 0 {
      assert SummarizesTopics(es, NoTopicsInfo);
    } else {
      var n := |es| - 1;
      var init := es[..n];
      var e := es[n];
      assert es == init + [e];
      FoldTopicsEntriesMeaning(init);
      assert forall i :: 0 <= i < n ==> init[i] == es[i];
      if FoldTopicsEntries(init).Success? && !e.TopicsMalformed? {
        SummarizesTopicsSnoc(init, e, FoldTopicsEntries(init).value);
      }
      if FoldTopicsEntries(init).Failure? {
        var i :| 0 <= i < |init| && init[i].TopicsMalformed?;
        assert es[i].TopicsMalformed?;
      }
    }
  }

  /** Classifying every line first and folding afterwards is the loop. */
  lemma {:induction false} ParseRelatedTopicsInfoFolds(lines: seq<string>)
    ensures ParseRelatedTopicsInfo(lines) == FoldTopicsEntries(TopicsEntries(lines))
    decreases |lines|
  {
    if |lines| > 0 {
      var init := lines[..|lines| - 1];
      ParseRelatedTopicsInfoFolds(init);
      var es := TopicsEntries(lines);
      assert es[..|es| - 1] == TopicsEntries(init);
    }
  }

  /** The loop fails exactly when a data-set or entity line has no match, and otherwise
      yields the record the lines describe: the last line of each kind wins. */
  lemma ParseRelatedTopicsInfoMeaning(lines: seq<string>)
    ensures ParseRelatedTopicsInfo(lines).Failure?
            <==> exists i :: 0 <= i < |lines| && ClassifyTopicsLine(lines[i]).TopicsMalformed?
    ensures ParseRelatedTopicsInfo(lines).Failure? ==> ParseRelatedTopicsInfo(lines).error == MissingMatch
    ensures ParseRelatedTopicsInfo(lines).Success? ==> DescribesTopics(lines, ParseRelatedTopicsInfo(lines).value)
  {
    ParseRelatedTopicsInfoFolds(lines);
    var es := TopicsEntries(lines);
    FoldTopicsEntriesMeaning(es);
    if exists i :: 0 <= i < |lines| && ClassifyTopicsLine(lines[i]).TopicsMalformed? {
      var i :| 0 <= i < |lines| && ClassifyTopicsLine(lines[i]).TopicsMalformed?;
      assert es[i].TopicsMalformed?;
    }
  }

  /** The intro lines as the related-topics export writes them. */
  function TopicsDataSetLine(name: string): string {
    DataSetPrefix + (DoubledQuote + name + DoubledQuote)
  }

  function TopicsEntityLine(entity: string): string {
    EntityPrefix + (Quote + entity + Quote)
  }

  function TopicsYearRangeLine(range: string): string {
    YearRangePrefix + range
  }

  lemma ClassifiedAsDataSet(line: string, name: string)
    requires StartsWith(line, DataSetPrefix) && DataSetCapture(line) == Some(name)
    ensures ClassifyTopicsLine(line) == TopicsDataSet(name)
  {
  }

  lemma ClassifiedAsEntity(line: string, entity: string)
    requires !StartsWith(line, DataSetPrefix) && StartsWith(line, EntityPrefix)
    requires EntityCapture(line) == Some(entity)
    ensures ClassifyTopicsLine(line) == TopicsEntity(entity)
  {
  }

  lemma ClassifiedAsYearRange(line: string, range: string)
    requires !StartsWith(line, DataSetPrefix) && !StartsWith(line, EntityPrefix)
    requires StartsWith(line, YearRangePrefix) && YearRangeCapture(line) == Some(range)
    ensures ClassifyTopicsLine(line) == TopicsYearRange(range)
  {
  }

  lemma DataSetLineFacts(name: string)
    requires '\n' !in name
    ensures StartsWith(TopicsDataSetLine(name), DataSetPrefix)
    ensures DataSetCapture(TopicsDataSetLine(name)) == Some(name)
  {
    CaptureAfterPrefix(DataSetWord, DoubledQuote, name);
    StartsWithConcat(DataSetPrefix, DoubledQuote + name + DoubledQuote);
  }

  lemma EntityLineFacts(entity: string)
    requires '\n' !in entity
    ensures !StartsWith(TopicsEntityLine(entity), DataSetPrefix)
    ensures StartsWith(TopicsEntityLine(entity), EntityPrefix)
    ensures EntityCapture(TopicsEntityLine(entity)) == Some(entity)
  {
    var rest := Quote + entity + Quote;
    CaptureAfterPrefix(EntityWord, Quote, entity);
    StartsWithConcat(EntityPrefix, rest);
    assert (EntityPrefix + rest)[0] == EntityPrefix[0];
    FirstCharDiffers(EntityPrefix + rest, DataSetPrefix);
  }

  lemma YearRangeLineFacts(range: string)
    requires '\n' !in range
    ensures !StartsWith(TopicsYearRangeLine(range), DataSetPrefix)
    ensures !StartsWith(TopicsYearRangeLine(range), EntityPrefix)
    ensures StartsWith(TopicsYearRangeLine(range), YearRangePrefix)
    ensures YearRangeCapture(TopicsYearRangeLine(range)) == Some(range)
  {
    var rest := "" + range + "";
    assert rest == range;
    CaptureAfterPrefix(YearRangeWord, "", range);
    StartsWithConcat(YearRangePrefix, range);
    assert (YearRangePrefix + range)[0] == YearRangePrefix[0];
    FirstCharDiffers(YearRangePrefix + range, DataSetPrefix);
    FirstCharDiffers(YearRangePrefix + range, EntityPrefix);
  }

  /** The data set comes back whole, whatever quotes it holds: the capture is greedy. */
  lemma TopicsDataSetRoundTrip(name: string)
    requires '\n' !in name
    ensures ClassifyTopicsLine(TopicsDataSetLine(name)) == TopicsDataSet(name)
  {
    DataSetLineFacts(name);
    ClassifiedAsDataSet(TopicsDataSetLine(name), name);
  }

  /** The entity comes back whole, whatever quotes it holds. */
  lemma TopicsEntityRoundTrip(entity: string)
    requires '\n' !in entity
    ensures ClassifyTopicsLine(TopicsEntityLine(entity)) == TopicsEntity(entity)
  {
    EntityLineFacts(entity);
    ClassifiedAsEntity(TopicsEntityLine(entity), entity);
  }

  /** The year range comes back as the raw rest of the line. */
  lemma TopicsYearRangeRoundTrip(range: string)
    requires '\n' !in range
    ensures ClassifyTopicsLine(TopicsYearRangeLine(range)) == TopicsYearRange(range)
  {
    YearRangeLineFacts(range);
    ClassifiedAsYearRange(TopicsYearRangeLine(range), range);
  }
}
