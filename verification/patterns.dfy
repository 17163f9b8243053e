/** The handful of regular expressions the metadata parsers use, written out
    as the scans Python's `re` engine performs for them: `\d+`, `\d{4}`,
    `^\d+ publications \(` and `<word>,?<delim>(.*)<delim>`. */
module Patterns {
  import opened Results
  import opened Text

  /** The field names the intro lines of both exports start with, and the
      `<word>,` prefixes the parsers test for. */
  const DataSetWord := "Data set"
  const YearRangeWord := "Year range"
  const DataSetPrefix := DataSetWord + ","
  const YearRangePrefix := YearRangeWord + ","

  /** Index just past the run of digits that starts at `i` (`i` itself when `s[i]` is no digit). */
  function DigitRunEnd(s: string, i: nat): (j: nat)
    requires i <= |s|
    ensures i <= j <= |s|
    ensures forall k :: i <= k < j ==> IsDigit(s[k])
    ensures j < |s| ==> !IsDigit(s[j])
    decreases |s| - i
  {
    if i == |s| || !IsDigit(s[i]) then i else DigitRunEnd(s, i + 1)
  }

  /** `re.findall(r"\d+", s)`: the maximal runs of digits, left to right. */
  function DigitRuns(s: string): (runs: seq<string>)
    ensures forall k :: 0 <= k < |runs| ==> |runs[k]| > 0 && AllDigits(runs[k])
    decreases |s|
  {
    if |s| == 0 then []
    else if !IsDigit(s[0]) then DigitRuns(s[1..])
    else
      var j := DigitRunEnd(s, 0);
      assert s[..j] == s[0..j];
      [s[..j]] + DigitRuns(s[j..])
  }

  /** Text without digits contributes no run. */
  lemma {:induction false} DigitRunsSkip(p: string, s: string)
    requires NoDigits(p)
    ensures DigitRuns(p + s) == DigitRuns(s)
    decreases |p|
  {
    if |p| == 0 {
      assert p + s == s;
    } else {
      var t := p + s;
      assert t[0] == p[0];
      assert t[1..] == p[1..] + s;
      DigitRunsSkip(p[1..], s);
    }
  }

  /** A run of digits that ends where a non-digit (or the text) begins is the next run. */
  lemma DigitRunsLead(d: string, s: string)
    requires |d| > 0 && AllDigits(d)
    requires |s| == 0 || !IsDigit(s[0])
    ensures DigitRuns(d + s) == [d] + DigitRuns(s)
  {
    var t := d + s;
    assert t[0] == d[0];
    assert forall k :: 0 <= k < |d| ==> t[k] == d[k];
    assert |s| > 0 ==> t[|d|] == s[0];
    assert DigitRunEnd(t, 0) == |d|;
    assert t[..|d|] == d && t[|d|..] == s;
  }

  /** `re.findall(r"\d{4}", s)`: non-overlapping runs of four digits, scanned left
      to right; a longer run yields its first four digits and the scan resumes after them. */
  function FourDigitRuns(s: string): (runs: seq<string>)
    ensures forall k :: 0 <= k < |runs| ==> |runs[k]| == 4 && AllDigits(runs[k])
    decreases |s|
  {
    if |s| < 4 then []
    else if AllDigits(s[..4]) then [s[..4]] + FourDigitRuns(s[4..])
    else FourDigitRuns(s[1..])
  }

  lemma {:induction false} FourDigitRunsSkip(p: string, s: string)
    requires NoDigits(p)
    ensures FourDigitRuns(p + s) == FourDigitRuns(s)
    decreases |p|
  {
    var t := p + s;
    if |p| == 0 {
      assert t == s;
    } else {
      if |t| >= 4 {
        assert t[..4][0] == p[0];
        assert !AllDigits(t[..4]);
      }
      assert t[1..] == p[1..] + s;
      FourDigitRunsSkip(p[1..], s);
    }
  }

  /** A run of one to three digits that ends where a non-digit (or the text) begins
      gives no match: the scan slides past it. */
  lemma {:induction false} FourDigitRunsShort(d: string, s: string)
    requires 0 < |d| < 4 && AllDigits(d)
    requires |s| == 0 || !IsDigit(s[0])
    ensures FourDigitRuns(d + s) == FourDigitRuns(s)
    decreases |d|
  {
    var t := d + s;
    if |t| >= 4 {
      assert t[..4][|d|] == s[0];
      assert !AllDigits(t[..4]);
    }
    assert t[1..] == d[1..] + s;
    if |d| > 1 {
      FourDigitRunsShort(d[1..], s);
    } else {
      assert d[1..] + s == s;
    }
  }

  lemma FourDigitRunsLead(d: string, s: string)
    requires |d| == 4 && AllDigits(d)
    ensures FourDigitRuns(d + s) == [d] + FourDigitRuns(s)
  {
    var t := d + s;
    assert t[..4] == d && t[4..] == s;
  }

  const PublicationsPattern := " publications ("

  /** `re.match(r"\d+ publications \(", line)`, scanned once: the literal must follow
      the whole leading run of digits, since after a shorter run comes a digit. */
  predicate IsPublicationsLine(line: string) {
    var k := DigitRunEnd(line, 0);
    k > 0 && StartsWith(line[k..], PublicationsPattern)
  }

  /** A run of digits followed by a non-digit ends there. */
  lemma RunEndAt(s: string, k: nat)
    requires k < |s| && AllDigits(s[..k]) && !IsDigit(s[k])
    ensures DigitRunEnd(s, 0) == k
  {
  }

  /** The scan accepts exactly the lines the pattern matches: some non-empty run of
      digits opens the line and the literal ` publications (` follows it. */
  lemma IsPublicationsLineMeaning(line: string)
    ensures IsPublicationsLine(line)
            <==> exists k :: 0 < k <= |line| && AllDigits(line[..k]) && StartsWith(line[k..], PublicationsPattern)
  {
    var e := DigitRunEnd(line, 0);
    if IsPublicationsLine(line) {
      assert AllDigits(line[..e]);
    }
    if exists k :: 0 < k <= |line| && AllDigits(line[..k]) && StartsWith(line[k..], PublicationsPattern) {
      var k :| 0 < k <= |line| && AllDigits(line[..k]) && StartsWith(line[k..], PublicationsPattern);
      assert line[k] == ' ' by { assert line[k..][0] == PublicationsPattern[0]; }
      RunEndAt(line, k);
    }
  }

  /** Index of the first "\n" at or after `i`, or `|s|`: how far `.` can reach. */
  function NewlineFrom(s: string, i: nat): (j: nat)
    requires i <= |s|
    ensures i <= j <= |s|
    ensures forall k :: i <= k < j ==> s[k] != '\n'
    ensures j < |s| ==> s[j] == '\n'
    decreases |s| - i
  {
    if i == |s| || s[i] == '\n' then i else NewlineFrom(s, i + 1)
  }

  /** `d` occurs in `s` at index `j`. */
  predicate OccursAt(s: string, d: string, j: nat) {
    j + |d| <= |s| && s[j..j + |d|] == d
  }

  /** The largest `j` in `lo..hi` at which `d` occurs. */
  function LastOccurrence(s: string, d: string, lo: nat, hi: nat): (r: Option<nat>)
    ensures r.Some? ==> lo <= r.value <= hi && OccursAt(s, d, r.value)
    ensures r.Some? ==> forall j :: r.value < j <= hi ==> !OccursAt(s, d, j)
    ensures r.None? ==> forall j :: lo <= j <= hi ==> !OccursAt(s, d, j)
    decreases hi
  {
    if hi < lo then None
    else if OccursAt(s, d, hi) then Some(hi)
    else if hi == lo then None
    else LastOccurrence(s, d, lo, hi - 1)
  }

  /** The group of `<word>,?<delim>(.*)<delim>` for a match starting at `p`, if one does.
      `,?` is greedy and, since `delim` cannot begin with a comma, never needs to
      give its comma back; `(.*)` is greedy and stops short of the first "\n", so
      the closing `delim` is its last occurrence that `.` can reach. */
  function CaptureAt(s: string, p: nat, word: string, delim: string): Option<string>
    requires p <= |s|
    requires |delim| == 0 || delim[0] != ','
  {
    if !StartsWith(s[p..], word) then None
    else
      var q := p + |word|;
      var open := if q < |s| && s[q] == ',' then q + 1 else q;
      if !StartsWith(s[open..], delim) then None
      else
        var start := open + |delim|;
        match LastOccurrence(s, delim, start, NewlineFrom(s, start))
        case None => None
        case Some(j) => Some(s[start..j])
  }

  /** A match at `p` needs the word there; its group holds no "\n" and is followed by
      the closing delimiter, after the word and the opening delimiter. */
  lemma CaptureAtFacts(s: string, p: nat, word: string, delim: string)
    requires p <= |s|
    requires |delim| == 0 || delim[0] != ','
    ensures !StartsWith(s[p..], word) ==> CaptureAt(s, p, word, delim).None?
    ensures var r := CaptureAt(s, p, word, delim);
            r.Some? ==> forall k :: 0 <= k < |r.value| ==> r.value[k] != '\n'
    ensures var r := CaptureAt(s, p, word, delim);
            r.Some? ==> exists j :: p + |word| + |delim| + |r.value| <= j && OccursAt(s, delim, j)
                                    && s[j - |r.value|..j] == r.value
  {
  }

  /** Where the word stands at `p`, a match exists exactly when the opening delimiter
      follows it (after an optional comma) and the closing delimiter occurs before the
      first "\n"; the group then starts right after the opening delimiter and ends at the
      last closing delimiter `.` can reach, as greedy `(.*)` does. */
  lemma CaptureAtMeaning(s: string, p: nat, word: string, delim: string)
    requires p <= |s|
    requires |delim| == 0 || delim[0] != ','
    requires StartsWith(s[p..], word)
    ensures var q := p + |word|;
            var open := if q < |s| && s[q] == ',' then q + 1 else q;
            var r := CaptureAt(s, p, word, delim);
            && (r.Some? <==> StartsWith(s[open..], delim)
                             && var start := open + |delim|;
                                exists j :: start <= j <= NewlineFrom(s, start) && OccursAt(s, delim, j))
            && (r.Some? ==> var start := open + |delim|;
                            exists j :: start <= j <= NewlineFrom(s, start) && OccursAt(s, delim, j)
                                        && r.value == s[start..j]
                                        && forall k :: j < k <= NewlineFrom(s, start) ==> !OccursAt(s, delim, k))
  {
  }

  /** `re.findall(<word>,?<delim>(.*)<delim>, s)[0]` searched from `p`: the group of
      the leftmost match, or None where indexing the empty match list raises IndexError. */
  function FirstCapture(s: string, p: nat, word: string, delim: string): (r: Option<string>)
    requires p <= |s|
    requires |delim| == 0 || delim[0] != ','
    ensures r.Some? <==> exists q :: p <= q <= |s| && CaptureAt(s, q, word, delim).Some?
    ensures r.Some? ==> exists q :: p <= q <= |s| && r == CaptureAt(s, q, word, delim)
                                 && forall q' :: p <= q' < q ==> CaptureAt(s, q', word, delim).None?
    decreases |s| - p
  {
    if CaptureAt(s, p, word, delim).Some? then CaptureAt(s, p, word, delim)
    else if p == |s| then None
    else FirstCapture(s, p + 1, word, delim)
  }

  /** The last occurrence of `d` up to the end of `s` is the one that ends `s`. */
  lemma LastOccurrenceAtEnd(s: string, d: string, lo: nat)
    requires lo + |d| <= |s| && s[|s| - |d|..] == d
    ensures LastOccurrence(s, d, lo, |s|) == Some(|s| - |d|)
  {
    assert OccursAt(s, d, |s| - |d|);
  }

  /** The capture of a match at 0 on a line laid out as `word`, ",", `delim`, `x`, `delim`. */
  lemma CaptureAtLayout(s: string, word: string, delim: string, x: string)
    requires |delim| == 0 || delim[0] != ','
    requires |s| == |word| + 1 + |delim| + |x| + |delim|
    requires s[..|word|] == word && s[|word|] == ','
    requires s[|word| + 1..|word| + 1 + |delim|] == delim
    requires s[|word| + 1 + |delim|..|s| - |delim|] == x
    requires s[|s| - |delim|..] == delim
    requires forall k :: |word| + 1 + |delim| <= k < |s| ==> s[k] != '\n'
    ensures CaptureAt(s, 0, word, delim) == Some(x)
  {
    assert s[0..] == s;
    var start := |word| + 1 + |delim|;
    assert s[|word| + 1..][..|delim|] == delim;
    assert NewlineFrom(s, start) == |s|;
    LastOccurrenceAtEnd(s, delim, start);
  }

  /** A match at the search start is the leftmost one. */
  lemma FirstCaptureAtStart(s: string, word: string, delim: string)
    requires |delim| == 0 || delim[0] != ','
    requires CaptureAt(s, 0, word, delim).Some?
    ensures FirstCapture(s, 0, word, delim) == CaptureAt(s, 0, word, delim)
  {
  }

  lemma NoNewlineInConcat(x: string, delim: string)
    requires '\n' !in x && '\n' !in delim
    ensures forall k :: 0 <= k < |x + delim| ==> (x + delim)[k] != '\n'
  {
    forall k | 0 <= k < |x + delim|
      ensures (x + delim)[k] != '\n'
    {
      if k < |x| {
        assert (x + delim)[k] == x[k];
      } else {
        assert (x + delim)[k] == delim[k - |x|];
      }
    }
  }

  /** The pieces of `word + "," + delim + x + delim`, as index ranges. */
  lemma DelimitedLayout(word: string, delim: string, x: string)
    requires '\n' !in x && '\n' !in delim
    ensures var s := word + "," + delim + x + delim;
            var start := |word| + 1 + |delim|;
            && |s| == |word| + 1 + |delim| + |x| + |delim|
            && s[..|word|] == word && s[|word|] == ','
            && s[|word| + 1..start] == delim
            && s[start..|s| - |delim|] == x
            && s[|s| - |delim|..] == delim
            && forall k :: start <= k < |s| ==> s[k] != '\n'
  {
    var tail := x + delim;
    var s := word + "," + delim + x + delim;
    var start := |word| + 1 + |delim|;
    assert s == word + "," + delim + tail;
    assert s[start..] == tail;
    assert tail[..|x|] == x && tail[|x|..] == delim;
    NoNewlineInConcat(x, delim);
    assert forall k :: start <= k < |s| ==> s[k] == tail[k - start];
  }

  /** A value written between the delimiters right after `word,` is captured whole,
      whatever it contains except a line feed. */
  lemma CaptureDelimited(word: string, delim: string, x: string)
    requires |delim| == 0 || delim[0] != ','
    requires '\n' !in x && '\n' !in delim
    ensures FirstCapture(word + "," + delim + x + delim, 0, word, delim) == Some(x)
  {
    var s := word + "," + delim + x + delim;
    DelimitedLayout(word, delim, x);
    CaptureAtLayout(s, word, delim, x);
    FirstCaptureAtStart(s, word, delim);
  }

  /** The same layout, with `word + ","` taken as the line's prefix. */
  lemma CaptureAfterPrefix(word: string, delim: string, x: string)
    requires |delim| == 0 || delim[0] != ','
    requires '\n' !in x && '\n' !in delim
    ensures FirstCapture((word + ",") + (delim + x + delim), 0, word, delim) == Some(x)
  {
    assert (word + ",") + (delim + x + delim) == word + "," + delim + x + delim;
    CaptureDelimited(word, delim, x);
  }

  /** `<word>,?(.*)`, the empty-delimiter case, matches every line that starts with `word,`. */
  lemma CaptureRestAlways(s: string, word: string)
    requires StartsWith(s, word + ",")
    ensures FirstCapture(s, 0, word, "").Some?
  {
    assert s[0..] == s;
    assert s[..|word|] == word;
    assert s[|word|] == ',';
    var start := |word| + 1;
    assert OccursAt(s, "", NewlineFrom(s, start));
    assert CaptureAt(s, 0, word, "").Some?;
  }
}
