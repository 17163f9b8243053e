/** `parse_search_info` of scival_search/utils.py: the intro lines of a search
    export become a record of optional fields. Each line is classified by the
    first branch that applies; the record is folded over the lines in order, so
    a later line of a kind overwrites an earlier one, and an IndexError on any
    line discards the record. */
module SearchInfo {
  import opened Results
  import opened Text
  import opened Patterns

  /** The keys `data_set`, `start_year`, `end_year`, `total_publications` and
      `publications_retrieved`; None is a key the dictionary never received. */
  datatype SearchInfo = SearchInfo(
    dataSet: Option<string>,
    startYear: Option<nat>,
    endYear: Option<nat>,
    totalPublications: Option<nat>,
    publicationsRetrieved: Option<nat>)

  const NoSearchInfo := SearchInfo(None, None, None, None, None)

  /** What one intro line does to the dictionary. */
  datatype Entry =
    | DataSet(name: string)
    | Years(start: nat, end: nat)
    | Counts(total: nat, retrieved: nat)
    | Ignored
    | Malformed   // a branch indexed past the end of its findall list

  predicate IsDataSetLine(line: string) {
    StartsWith(line, DataSetPrefix)
  }

  predicate IsYearRangeLine(line: string) {
    !IsDataSetLine(line) && StartsWith(line, YearRangePrefix)
  }

  predicate IsCountsLine(line: string) {
    !IsDataSetLine(line) && !StartsWith(line, YearRangePrefix) && IsPublicationsLine(line)
  }

  /** The branch of the loop body a line takes, and what that branch computes. */
  function Classify(line: string): (e: Entry)
    ensures e.DataSet? <==> IsDataSetLine(line)
    ensures e.Years? ==> IsYearRangeLine(line)
    ensures e.Counts? ==> IsCountsLine(line)
    ensures e.Ignored? <==> !IsDataSetLine(line) && !StartsWith(line, YearRangePrefix) && !IsPublicationsLine(line)
    ensures e.Malformed? <==> (IsYearRangeLine(line) && |FourDigitRuns(line)| < 2)
                              || (IsCountsLine(line) && |DigitRuns(line)| < 2)
    ensures e.DataSet? ==> |e.name| == 0 || (e.name[0] != '"' && e.name[|e.name| - 1] != '"')
  {
    if StartsWith(line, DataSetPrefix) then
      assert line[|DataSetWord|] == ',';
      DataSet(StripQuotes(AfterFirst(line, ',')))
    else if StartsWith(line, YearRangePrefix) then
      var years := FourDigitRuns(line);
      if |years| < 2 then Malformed
      else Years(DecimalValue(years[0]), DecimalValue(years[1]))
    else if IsPublicationsLine(line) then
      var numbers := DigitRuns(line);
      if |numbers| < 2 then Malformed
      else Counts(DecimalValue(numbers[0]), DecimalValue(numbers[1]))
    else Ignored
  }

  /** The dictionary after one more line. */
  function Apply(info: SearchInfo, e: Entry): Result<SearchInfo>
  {
    match e
    case DataSet(name) => Success(info.(dataSet := Some(name)))
    case Years(start, end) => Success(info.(startYear := Some(start), endYear := Some(end)))
    case Counts(total, retrieved) => Success(info.(totalPublications := Some(total), publicationsRetrieved := Some(retrieved)))
    case Ignored => Success(info)
    case Malformed => Failure(MissingMatch)
  }

  /** A year-range or counts line without its numbers among the lines. */
  predicate HasMalformedLine(lines: seq<string>) {
    exists i :: 0 <= i < |lines| && Classify(lines[i]).Malformed?
  }

  lemma MalformedSnoc(lines: seq<string>)
    requires |lines| > 0
    ensures HasMalformedLine(lines)
            <==> HasMalformedLine(lines[..|lines| - 1]) || Classify(lines[|lines| - 1]).Malformed?
  {
  }

  /** `parse_search_info(intro_lines)`: the loop, as the state after each prefix of the lines.
      The loop stops with an IndexError at the first malformed line. */
  function ParseSearchInfo(lines: seq<string>): (r: Result<SearchInfo>)
    ensures r.Failure? <==> HasMalformedLine(lines)
    ensures r.Failure? ==> r.error == MissingMatch
  {
    if |lines| == 0 then Success(NoSearchInfo)
    else
      MalformedSnoc(lines);
      var info :- ParseSearchInfo(lines[..|lines| - 1]);
      Apply(info, Classify(lines[|lines| - 1]))
  }

  /** The entry of every line, in order. */
  function Entries(lines: seq<string>): (es: seq<Entry>)
    ensures |es| == |lines|
    ensures forall i :: 0 <= i < |lines| ==> es[i] == Classify(lines[i])
  {
    if |lines| == 0 then [] else Entries(lines[..|lines| - 1]) + [Classify(lines[|lines| - 1])]
  }

  /** The loop over already classified lines. */
  function FoldEntries(es: seq<Entry>): Result<SearchInfo>
  {
    if |es| == 0 then Success(NoSearchInfo)
    else
      var info :- FoldEntries(es[..|es| - 1]);
      Apply(info, es[|es| - 1])
  }

  datatype Field = DataSetField | YearsField | CountsField

  predicate Sets(e: Entry, f: Field) {
    match f
    case DataSetField => e.DataSet?
    case YearsField => e.Years?
    case CountsField => e.Counts?
  }

  /** Some entry of `es` sets field `f`. */
  ghost predicate SomeSets(es: seq<Entry>, f: Field) {
    exists i :: 0 <= i < |es| && Sets(es[i], f)
  }

  /** Entry `i` is the last entry of `es` that sets field `f`. */
  ghost predicate LastToSet(es: seq<Entry>, f: Field, i: int) {
    0 <= i < |es| && Sets(es[i], f)
    && forall j :: i < j < |es| ==> !Sets(es[j], f)
  }

  /** The record the entries describe: each field is present exactly when some entry
      sets it, and then holds what the last such entry says. */
  ghost predicate Summarizes(es: seq<Entry>, info: SearchInfo) {
    && (info.dataSet.Some? <==> SomeSets(es, DataSetField))
    && (info.startYear.Some? <==> SomeSets(es, YearsField))
    && (info.endYear.Some? <==> SomeSets(es, YearsField))
    && (info.totalPublications.Some? <==> SomeSets(es, CountsField))
    && (info.publicationsRetrieved.Some? <==> SomeSets(es, CountsField))
    && (forall i :: LastToSet(es, DataSetField, i) ==> info.dataSet == Some(es[i].name))
    && (forall i :: LastToSet(es, YearsField, i) ==>
          info.startYear == Some(es[i].start) && info.endYear == Some(es[i].end))
    && (forall i :: LastToSet(es, CountsField, i) ==>
          info.totalPublications == Some(es[i].total) && info.publicationsRetrieved == Some(es[i].retrieved))
  }

  /** The record the intro lines describe: the last line of each kind wins. */
  ghost predicate Describes(lines: seq<string>, info: SearchInfo) {
    Summarizes(Entries(lines), info)
  }

  /** `f` is set by some entry of `init + [e]` exactly when it is set in `init` or by `e`. */
  lemma SomeSetsSnoc(init: seq<Entry>, e: Entry, f: Field)
    ensures SomeSets(init + [e], f) <==> SomeSets(init, f) || Sets(e, f)
  {
    var es := init + [e];
    if SomeSets(init, f) {
      var i :| 0 <= i < |init| && Sets(init[i], f);
      assert es[i] == init[i];
    }
    if Sets(e, f) {
      assert es[|init|] == e;
    }
    if SomeSets(es, f) && !Sets(e, f) {
      var i :| 0 <= i < |es| && Sets(es[i], f);
      assert i < |init| && es[i] == init[i];
    }
  }

  /** The last entry to set `f` in `init + [e]` is `e` if it sets `f`, and otherwise
      the last one in `init`. */
  lemma LastToSetSnoc(init: seq<Entry>, e: Entry, f: Field, i: int)
    requires LastToSet(init + [e], f, i)
    ensures Sets(e, f) ==> i == |init|
    ensures !Sets(e, f) ==> LastToSet(init, f, i) && (init + [e])[i] == init[i]
  {
    var es := init + [e];
    assert es[|init|] == e;
    if !Sets(e, f) {
      assert forall j :: 0 <= j < |init| ==> es[j] == init[j];
    }
  }

  /** One more entry keeps the record described. */
  lemma SummarizesSnoc(init: seq<Entry>, e: Entry, info: SearchInfo)
    requires Summarizes(init, info)
    requires !e.Malformed?
    ensures Apply(info, e).Success?
    ensures Summarizes(init + [e], Apply(info, e).value)
  {
    var es := init + [e];
    assert es[|init|] == e;
    forall f
      ensures SomeSets(es, f) <==> SomeSets(init, f) || Sets(e, f)
    {
      SomeSetsSnoc(init, e, f);
    }
    forall f, i | LastToSet(es, f, i)
      ensures Sets(e, f) ==> i == |init|
      ensures !Sets(e, f) ==> LastToSet(init, f, i) && es[i] == init[i]
    {
      LastToSetSnoc(init, e, f, i);
    }
  }

  /** The fold fails exactly when some entry is malformed, and otherwise yields the
      record the entries describe. */
  lemma {:induction false} FoldEntriesMeaning(es: seq<Entry>)
    ensures FoldEntries(es).Failure? <==> exists i :: 0 <= i < |es| && es[i].Malformed?
    ensures FoldEntries(es).Failure? ==> FoldEntries(es).error == MissingMatch
    ensures FoldEntries(es).Success? ==> Summarizes(es, FoldEntries(es).value)
    decreases |es|
  {
    if |es| == 0 {
      assert Summarizes(es, NoSearchInfo);
    } else {
      var n := |es| - 1;
      var init := es[..n];
      var e := es[n];
      assert es == init + [e];
      FoldEntriesMeaning(init);
      assert forall i :: 0 <= i < n ==> init[i] == es[i];
      if FoldEntries(init).Success? && !e.Malformed? {
        SummarizesSnoc(init, e, FoldEntries(init).value);
      }
      if FoldEntries(init).Failure? {
        var i :| 0 <= i < |init| && init[i].Malformed?;
        assert es[i].Malformed?;
      }
    }
  }

  /** Classifying every line first and folding afterwards is the loop. */
  lemma {:induction false} ParseSearchInfoFolds(lines: seq<string>)
    ensures ParseSearchInfo(lines) == FoldEntries(Entries(lines))
    decreases |lines|
  {
    if |lines| > 0 {
      var init := lines[..|lines| - 1];
      ParseSearchInfoFolds(init);
      var es := Entries(lines);
      assert es[..|es| - 1] == Entries(init);
    }
  }

  /** The loop fails exactly when some line is malformed, and otherwise yields the
      record the lines describe: unmatched lines add nothing and the last match wins. */
  lemma ParseSearchInfoMeaning(lines: seq<string>)
    ensures ParseSearchInfo(lines).Failure? <==> exists i :: 0 <= i < |lines| && Classify(lines[i]).Malformed?
    ensures ParseSearchInfo(lines).Failure? ==> ParseSearchInfo(lines).error == MissingMatch
    ensures ParseSearchInfo(lines).Success? ==> Describes(lines, ParseSearchInfo(lines).value)
  {
    ParseSearchInfoFolds(lines);
    var es := Entries(lines);
    FoldEntriesMeaning(es);
    if exists i :: 0 <= i < |lines| && Classify(lines[i]).Malformed? {
      var i :| 0 <= i < |lines| && Classify(lines[i]).Malformed?;
      assert es[i].Malformed?;
    }
  }

  /** The intro line that carries a data-set name. */
  function DataSetLine(name: string): string {
    DataSetPrefix + "\"" + name + "\""
  }

  /** The intro line that carries the year range, as in "Year range,2018-2023". */
  function YearRangeLine(start: nat, end: nat): string {
    YearRangePrefix + DecimalString(start) + "-" + DecimalString(end)
  }

  /** The intro line of an export that holds more publications than one page. */
  function CountsLine(total: nat, retrieved: nat): string {
    DecimalString(total) + " publications (first " + DecimalString(retrieved) + " publications exported)"
  }

  /** A quoted data-set name comes back unchanged. */
  lemma DataSetLineRoundTrip(name: string)
    requires |name| == 0 || (name[0] != '"' && name[|name| - 1] != '"')
    ensures Classify(DataSetLine(name)) == DataSet(name)
  {
    var line := DataSetLine(name);
    assert line == "Data set," + ("\"" + name + "\"");
    assert line[..|DataSetPrefix|] == DataSetPrefix;
    var after := AfterFirst(line, ',');
    assert ',' !in "Data set";
    assert after == "\"" + name + "\"";
    StripQuotedValue(name);
  }

  /** Two four-digit years come back as start and end year. */
  lemma YearRangeLineRoundTrip(start: nat, end: nat)
    requires 1000 <= start <= 9999 && 1000 <= end <= 9999
    ensures Classify(YearRangeLine(start, end)) == Years(start, end)
  {
    var a := DecimalString(start);
    var b := DecimalString(end);
    FourDigitYear(start);
    FourDigitYear(end);
    var line := YearRangeLine(start, end);
    assert line == YearRangePrefix + (a + ("-" + b));
    assert line[..|YearRangePrefix|] == YearRangePrefix;
    assert line[..|DataSetPrefix|] != DataSetPrefix by {
      assert line[0] == 'Y';
    }
    FourDigitRunsSkip(YearRangePrefix, a + ("-" + b));
    FourDigitRunsLead(a, "-" + b);
    FourDigitRunsSkip("-", b);
    assert b == b + "";
    FourDigitRunsLead(b, "");
    assert FourDigitRuns(line) == [a, b];
    DecimalRoundTrip(start);
    DecimalRoundTrip(end);
  }

  /** The count line opens with the total and is matched by the publications pattern. */
  lemma CountsLineMatches(total: nat, retrieved: nat)
    ensures IsCountsLine(CountsLine(total, retrieved))
  {
    var a := DecimalString(total);
    var rest := " publications (first " + DecimalString(retrieved) + " publications exported)";
    var line := CountsLine(total, retrieved);
    assert line == a + rest;
    assert line[0] == a[0];
    assert forall k :: 0 <= k < |a| ==> line[k] == a[k];
    assert line[|a|] == ' ';
    assert DigitRunEnd(line, 0) == |a|;
    assert line[|a|..] == rest;
    assert rest[..|PublicationsPattern|] == PublicationsPattern;
  }

  /** Two digit runs separated and followed by digit-free text are the line's runs. */
  lemma DigitRunsOfTwo(a: string, mid: string, b: string, tail: string)
    requires |a| > 0 && AllDigits(a) && |b| > 0 && AllDigits(b)
    requires |mid| > 0 && NoDigits(mid) && NoDigits(tail)
    ensures DigitRuns(a + (mid + (b + tail))) == [a, b]
  {
    assert (mid + (b + tail))[0] == mid[0];
    DigitRunsLead(a, mid + (b + tail));
    DigitRunsSkip(mid, b + tail);
    if |tail| > 0 {
      DigitRunsLead(b, tail);
    } else {
      assert b + tail == b + "";
      DigitRunsLead(b, "");
    }
    assert tail == tail + "";
    DigitRunsSkip(tail, "");
  }

  /** The digit runs of the count line are the two numbers. */
  lemma CountsLineNumbers(total: nat, retrieved: nat)
    ensures DigitRuns(CountsLine(total, retrieved)) == [DecimalString(total), DecimalString(retrieved)]
  {
    var mid := " publications (first ";
    var tail := " publications exported)";
    assert NoDigits(mid) && NoDigits(tail);
    assert CountsLine(total, retrieved) == DecimalString(total) + (mid + (DecimalString(retrieved) + tail));
    DigitRunsOfTwo(DecimalString(total), mid, DecimalString(retrieved), tail);
  }

  /** "3952 publications (first 1000 publications exported)" gives 3952 and 1000. */
  lemma CountsLineRoundTrip(total: nat, retrieved: nat)
    ensures Classify(CountsLine(total, retrieved)) == Counts(total, retrieved)
  {
    CountsLineMatches(total, retrieved);
    CountsLineNumbers(total, retrieved);
    DecimalRoundTrip(total);
    DecimalRoundTrip(retrieved);
  }

  /** A count line without the parenthesised clause is not matched and sets nothing. */
  lemma SmallExportLineIgnored()
    ensures Classify("513 publications") == Ignored
  {
    var line := "513 publications";
    assert line[0] == '5';
    assert !StartsWith(line, DataSetPrefix) && !StartsWith(line, YearRangePrefix);
    var k := DigitRunEnd(line, 0);
    assert k <= 3 by {
      assert !IsDigit(line[3]);
    }
    assert |line[k..]| < |PublicationsPattern|;
  }
}
