/** The string and list built-ins the retrieval code leans on: `str.splitlines`,
    `"\n".join`, `str.startswith`, `str.split(c, 1)[1]`, `str.strip('"')`, `int()`
    on a digit run and list slicing with negative bounds. */
module Text {

  /** A character at which Python's `str.splitlines` ends a line. */
  predicate IsLineBreak(c: char) {
    || c == '\n' || c == '\r' || c == '\U{0B}' || c == '\U{0C}'
    || c == '\U{1C}' || c == '\U{1D}' || c == '\U{1E}'
    || c == '\U{85}' || c == '\U{2028}' || c == '\U{2029}'
  }

  /** A string holding no line boundary, as every element of `splitlines()` does. */
  predicate IsLine(s: string) {
    forall k :: 0 <= k < |s| ==> !IsLineBreak(s[k])
  }

  predicate AreLines(ls: seq<string>) {
    forall i :: 0 <= i < |ls| ==> IsLine(ls[i])
  }

  /** Index of the first line break at or after `i`, or `|s|` when there is none. */
  function LineBreakFrom(s: string, i: nat): (j: nat)
    requires i <= |s|
    ensures i <= j <= |s|
    ensures j < |s| ==> IsLineBreak(s[j])
    ensures forall k :: i <= k < j ==> !IsLineBreak(s[k])
    decreases |s| - i
  {
    if i == |s| || IsLineBreak(s[i]) then i else LineBreakFrom(s, i + 1)
  }

  /** Number of characters of the line boundary at `s[j]`: "\r\n" is one boundary. */
  function BreakWidth(s: string, j: nat): (w: nat)
    requires j < |s| && IsLineBreak(s[j])
    ensures 1 <= w <= 2 && j + w <= |s|
    ensures w == 2 <==> s[j] == '\r' && j + 1 < |s| && s[j + 1] == '\n'
  {
    if s[j] == '\r' && j + 1 < |s| && s[j + 1] == '\n' then 2 else 1
  }

  /** `s.splitlines()`: the lines of `s` without their terminators; a final
      terminator does not open an empty last line. */
  function Lines(s: string): (ls: seq<string>)
    ensures AreLines(ls)
    ensures |ls| == 0 <==> |s| == 0
    decreases |s|
  {
    if |s| == 0 then []
    else
      var j := LineBreakFrom(s, 0);
      if j == |s| then [s]
      else [s[..j]] + Lines(s[j + BreakWidth(s, j)..])
  }

  /** `"\n".join(ls)`. */
  function Join(ls: seq<string>): string
  {
    if |ls| == 0 then ""
    else if |ls| == 1 then ls[0]
    else ls[0] + "\n" + Join(ls[1..])
  }

  /** `ls` without its last element when that element is the empty line. */
  function DropTrailingEmpty(ls: seq<string>): seq<string>
  {
    if |ls| > 0 && ls[|ls| - 1] == "" then ls[..|ls| - 1] else ls
  }

  lemma LineHasNoBreak(s: string)
    requires IsLine(s)
    ensures LineBreakFrom(s, 0) == |s|
  {
  }

  /** A line followed by "\n" is the first line of the text. */
  lemma LinesOfCons(a: string, rest: string)
    requires IsLine(a)
    ensures Lines(a + "\n" + rest) == [a] + Lines(rest)
  {
    var s := a + "\n" + rest;
    assert s[|a|] == '\n';
    assert forall k :: 0 <= k < |a| ==> s[k] == a[k];
    var j := LineBreakFrom(s, 0);
    assert j == |a|;
    assert s[..j] == a;
    assert s[j + 1..] == rest;
  }

  lemma DropTrailingEmptyCons(a: string, t: seq<string>)
    requires |t| > 0
    ensures DropTrailingEmpty([a] + t) == [a] + DropTrailingEmpty(t)
  {
    var ls := [a] + t;
    assert ls[|ls| - 1] == t[|t| - 1];
    if t[|t| - 1] == "" {
      assert ls[..|ls| - 1] == [a] + t[..|t| - 1];
    }
  }

  lemma AreLinesTail(ls: seq<string>)
    requires |ls| > 0 && AreLines(ls)
    ensures IsLine(ls[0]) && AreLines(ls[1..])
  {
    assert forall i :: 0 <= i < |ls[1..]| ==> ls[1..][i] == ls[i + 1];
  }

  /** Splitting joined lines gives the lines back, except that a last empty
      line is lost: `"\n".join(ls).splitlines()` drops it. */
  lemma {:induction false} LinesOfJoin(ls: seq<string>)
    requires AreLines(ls)
    ensures Lines(Join(ls)) == DropTrailingEmpty(ls)
    decreases |ls|
  {
    if |ls| == 0 {
    } else if |ls| == 1 {
      LineHasNoBreak(ls[0]);
    } else {
      var a := ls[0];
      var t := ls[1..];
      AreLinesTail(ls);
      assert Join(ls) == a + "\n" + Join(t);
      LinesOfCons(a, Join(t));
      LinesOfJoin(t);
      assert ls == [a] + t;
      DropTrailingEmptyCons(a, t);
    }
  }

  lemma AreLinesConcat(a: seq<string>, b: seq<string>)
    requires AreLines(a) && AreLines(b)
    ensures AreLines(a + b)
  {
    forall i | 0 <= i < |a + b|
      ensures IsLine((a + b)[i])
    {
      if i >= |a| {
        assert (a + b)[i] == b[i - |a|];
      }
    }
  }

  lemma JoinCons(a: string, ls: seq<string>)
    requires |ls| > 0
    ensures Join([a] + ls) == a + "\n" + Join(ls)
  {
    assert ([a] + ls)[1..] == ls;
  }

  /** The first line opens the joined text and the last line closes it: `join` puts a
      separator only between lines, none after the last. */
  lemma {:induction false} JoinEnds(ls: seq<string>)
    requires |ls| > 0
    ensures StartsWith(Join(ls), ls[0])
    ensures |ls[|ls| - 1]| <= |Join(ls)| && Join(ls)[|Join(ls)| - |ls[|ls| - 1]|..] == ls[|ls| - 1]
    decreases |ls|
  {
    if |ls| > 1 {
      JoinEnds(ls[1..]);
      var rest := Join(ls[1..]);
      var last := ls[|ls| - 1];
      assert ls[1..][|ls| - 2] == last;
      var j := ls[0] + "\n" + rest;
      assert j[..|ls[0]|] == ls[0];
      assert j[|j| - |last|..] == rest[|rest| - |last|..];
    }
  }

  /** A text whose line break at `j` is a "\n" splits into the line before it and the lines after it. */
  lemma LinesAtNewline(s: string, j: nat)
    requires j < |s| && j == LineBreakFrom(s, 0) && s[j] == '\n'
    ensures Lines(s) == [s[..j]] + Lines(s[j + 1..])
  {
    assert BreakWidth(s, j) == 1;
  }

  /** The text after a "\n" that is not the last character keeps the hypotheses of `JoinOfLines`. */
  lemma AfterNewline(s: string, j: nat)
    requires j < |s| && s[j] == '\n'
    requires forall k :: 0 <= k < |s| && IsLineBreak(s[k]) ==> s[k] == '\n'
    requires |s| == 0 || s[|s| - 1] != '\n'
    ensures var rest := s[j + 1..];
            && (forall k :: 0 <= k < |rest| && IsLineBreak(rest[k]) ==> rest[k] == '\n')
            && (|rest| == 0 || rest[|rest| - 1] != '\n')
  {
    var rest := s[j + 1..];
    assert forall k :: 0 <= k < |rest| ==> rest[k] == s[j + 1 + k];
  }

  lemma AroundNewline(s: string, j: nat)
    requires j < |s| && s[j] == '\n'
    ensures s == s[..j] + "\n" + s[j + 1..]
  {
  }

  /** Joining the lines of a text that ends no line with anything but "\n" and
      has no final terminator gives the text back. */
  lemma {:induction false} JoinOfLines(s: string)
    requires forall k :: 0 <= k < |s| && IsLineBreak(s[k]) ==> s[k] == '\n'
    requires |s| == 0 || s[|s| - 1] != '\n'
    ensures Join(Lines(s)) == s
    decreases |s|
  {
    if |s| > 0 {
      var j := LineBreakFrom(s, 0);
      if j < |s| {
        assert s[j] == '\n';
        var rest := s[j + 1..];
        assert |rest| > 0;
        LinesAtNewline(s, j);
        AfterNewline(s, j);
        JoinOfLines(rest);
        JoinCons(s[..j], Lines(rest));
        AroundNewline(s, j);
      }
    }
  }

  /** `s.startswith(prefix)`. */
  predicate StartsWith(s: string, prefix: string) {
    |prefix| <= |s| && s[..|prefix|] == prefix
  }

  lemma StartsWithConcat(prefix: string, rest: string)
    ensures StartsWith(prefix + rest, prefix)
  {
    assert (prefix + rest)[..|prefix|] == prefix;
  }

  /** A text whose first character differs from the prefix's does not start with it. */
  lemma FirstCharDiffers(s: string, prefix: string)
    requires |s| > 0 && |prefix| > 0 && s[0] != prefix[0]
    ensures !StartsWith(s, prefix)
  {
    if |prefix| <= |s| {
      assert s[..|prefix|][0] == s[0];
    }
  }

  predicate IsDigit(c: char) {
    '0' <= c <= '9'
  }

  predicate AllDigits(s: string) {
    forall k :: 0 <= k < |s| ==> IsDigit(s[k])
  }

  predicate NoDigits(s: string) {
    forall k :: 0 <= k < |s| ==> !IsDigit(s[k])
  }

  function DigitValue(c: char): (d: nat)
    requires IsDigit(c)
    ensures d < 10
  {
    (c as int) - ('0' as int)
  }

  function DigitChar(d: nat): (c: char)
    requires d < 10
    ensures IsDigit(c) && DigitValue(c) == d
  {
    (('0' as int) + d) as char
  }

  /** `10^n`. */
  function Pow10(n: nat): (p: nat)
    ensures p > 0
  {
    if n == 0 then 1 else 10 * Pow10(n - 1)
  }

  /** `int(s)` for a run of ASCII decimal digits: `k` digits give a value below `10^k`,
      and at least `10^(k-1)` when the first digit is not `0`. */
  function DecimalValue(s: string): (v: nat)
    requires AllDigits(s)
    ensures v < Pow10(|s|)
    ensures |s| > 0 && s[0] != '0' ==> Pow10(|s| - 1) <= v
  {
    if |s| == 0 then 0 else 10 * DecimalValue(s[..|s| - 1]) + DigitValue(s[|s| - 1])
  }

  /** Leading zeros add nothing: `int("0042") == int("42")`. */
  lemma {:induction false} DecimalLeadingZero(d: string)
    requires AllDigits(d)
    ensures AllDigits("0" + d) && DecimalValue("0" + d) == DecimalValue(d)
    decreases |d|
  {
    var t := "0" + d;
    if |d| > 0 {
      assert t[..|t| - 1] == "0" + d[..|d| - 1];
      assert t[|t| - 1] == d[|d| - 1];
      DecimalLeadingZero(d[..|d| - 1]);
    } else {
      assert t[..0] == "";
    }
  }

  /** `str(n)`: decimal digits without leading zeros. */
  function DecimalString(n: nat): (s: string)
    ensures |s| > 0 && AllDigits(s)
  {
    if n < 10 then [DigitChar(n)] else DecimalString(n / 10) + [DigitChar(n % 10)]
  }

  /** `int(str(n)) == n`. */
  lemma {:induction false} DecimalRoundTrip(n: nat)
    ensures DecimalValue(DecimalString(n)) == n
  {
    if n >= 10 {
      var s := DecimalString(n);
      assert s[..|s| - 1] == DecimalString(n / 10);
      DecimalRoundTrip(n / 10);
    }
  }

  /** Years of four digits are written with exactly four characters. */
  lemma FourDigitYear(y: nat)
    requires 1000 <= y <= 9999
    ensures |DecimalString(y)| == 4
  {
    assert |DecimalString(y / 1000)| == 1;
    assert |DecimalString(y / 100)| == 2;
    assert |DecimalString(y / 10)| == 3;
  }

  /** Characters `c` only. */
  predicate AllAre(s: string, c: char) {
    forall k :: 0 <= k < |s| ==> s[k] == c
  }

  /** Index of the first character of `s` from `i` on that is not `c`, or `|s|`. */
  function SkipForward(s: string, i: nat, c: char): (j: nat)
    requires i <= |s|
    ensures i <= j <= |s|
    ensures forall k :: i <= k < j ==> s[k] == c
    ensures j < |s| ==> s[j] != c
    decreases |s| - i
  {
    if i == |s| || s[i] != c then i else SkipForward(s, i + 1, c)
  }

  /** Index just past the last character of `s[lo..hi]` that is not `c`, or `lo`. */
  function SkipBackward(s: string, lo: nat, hi: nat, c: char): (j: nat)
    requires lo <= hi <= |s|
    ensures lo <= j <= hi
    ensures forall k :: j <= k < hi ==> s[k] == c
    ensures j > lo ==> s[j - 1] != c
    decreases hi - lo
  {
    if hi == lo || s[hi - 1] != c then hi else SkipBackward(s, lo, hi - 1, c)
  }

  /** `s.strip('"')`: `s` without its leading and trailing double quotes. */
  function StripQuotes(s: string): (r: string)
    ensures exists i, j :: 0 <= i <= j <= |s| && r == s[i..j] && AllAre(s[..i], '"') && AllAre(s[j..], '"')
    ensures |r| > 0 ==> r[0] != '"' && r[|r| - 1] != '"'
  {
    var i := SkipForward(s, 0, '"');
    var j := SkipBackward(s, i, |s|, '"');
    assert AllAre(s[..i], '"') && AllAre(s[j..], '"');
    s[i..j]
  }

  /** Stripping quotes from a value written between one pair of quotes gives the value. */
  lemma StripQuotedValue(x: string)
    requires |x| == 0 || (x[0] != '"' && x[|x| - 1] != '"')
    ensures StripQuotes("\"" + x + "\"") == x
  {
    var s := "\"" + x + "\"";
    if |x| > 0 {
      assert s[1] == x[0] && s[|s| - 2] == x[|x| - 1];
      var i := SkipForward(s, 0, '"');
      assert i == 1;
      var j := SkipBackward(s, i, |s|, '"');
      assert j == |s| - 1;
      assert s[i..j] == x;
    }
  }

  /** Index of the first `c` in `s`. */
  function IndexOf(s: string, c: char): (i: nat)
    requires c in s
    ensures i < |s| && s[i] == c && c !in s[..i]
  {
    if s[0] == c then 0 else 1 + IndexOf(s[1..], c)
  }

  /** `s.split(c, 1)[1]`: everything after the first `c`. */
  function AfterFirst(s: string, c: char): (r: string)
    requires c in s
    ensures |r| < |s| && s == s[..|s| - |r| - 1] + [c] + r && c !in s[..|s| - |r| - 1]
  {
    s[IndexOf(s, c) + 1..]
  }

  function Max0(x: int): nat {
    if x < 0 then 0 else x
  }

  /** Where a slice bound `i` lands on a list of length `n`: negative bounds
      count from the end and both kinds are clamped to `0..n`. */
  function SliceBound(i: int, n: nat): (b: nat)
    ensures b <= n
    ensures 0 <= i <= n ==> b == i
    ensures -(n as int) <= i < 0 ==> b == n + i
  {
    if i < 0 then Max0(n + i) else if i > n then n else i
  }

  /** `s[start:stop]` with Python's negative indices and clamping. */
  function Slice<T>(s: seq<T>, start: int, stop: int): (r: seq<T>)
    ensures |r| == Max0(SliceBound(stop, |s|) - SliceBound(start, |s|))
    ensures forall k :: 0 <= k < |r| ==> r[k] == s[SliceBound(start, |s|) + k]
  {
    var lo := SliceBound(start, |s|);
    var hi := SliceBound(stop, |s|);
    if hi <= lo then [] else s[lo..hi]
  }

  /** `s[:-k]` keeps all but the last `k` elements, and nothing of a list of at most `k`. */
  lemma DropLastSlice<T>(s: seq<T>, k: nat)
    requires k > 0
    ensures Slice(s, 0, -(k as int)) == if |s| <= k then [] else s[..|s| - k]
    ensures |Slice(s, 0, -(k as int))| == Max0(|s| - k)
  {
  }

  /** `s[1:-k]` drops the first element and the last `k`, and is empty below `k + 2` elements. */
  lemma TrimBothSlice<T>(s: seq<T>, k: nat)
    requires k > 0
    ensures Slice(s, 1, -(k as int)) == if |s| <= k + 1 then [] else s[1..|s| - k]
    ensures |Slice(s, 1, -(k as int))| == Max0(|s| - k - 1)
  {
  }
}
