/** The output comparator of app/code_output_comparison.py: decides whether a
    program's printed output matches a reference output, trying an exact
    match after trimming, then a JSON match, then a line-by-line match that
    tolerates numeric formatting and small floating-point differences. */
module CodeOutputComparison {
  import opened Runtime
  import opened PyStr

  /** The marker `truncate_output` puts between the head and the tail it keeps. */
  const Marker: string := "...(truncated) ..."

  /** The default `length` of `truncate_output`, the one every message uses. */
  const DefaultLength: int := 300

  /** The comparator's answer: whether the outputs match, and why not. */
  datatype Verdict = Verdict(matched: bool, message: string)

  /** `truncate_output(s, length)`: a text no longer than `length` is kept;
      a longer one keeps its first `length // 2` and its last `ceil(length/2)`
      characters around the marker (Python reads `-length // 2` as
      `(-length) // 2`). With `length == 0` the slice `s[0:]` keeps all of `s`. */
  function TruncateOutput(s: string, length: int): (r: string)
    ensures |s| <= length ==> r == s
    ensures 1 <= length < |s| ==> r == s[..length / 2] + Marker + s[|s| - (length + 1) / 2..]
    ensures 1 <= length < |s| ==> |r| == length + |Marker|
    ensures 0 <= length ==> |r| <= if |s| <= length then |s| else |s| + |Marker|
    ensures length == 0 < |s| ==> r == Marker + s
  {
    if |s| <= length then s
    else SliceTo(s, length / 2) + Marker + SliceFrom(s, (-length) / 2)
  }

  /** A message shortened by `truncate_output` is shorter than the original
      only when the original exceeds the limit by more than the marker; just
      above the limit it grows. */
  lemma {:induction false} TruncateSize(s: string, length: int)
    requires length >= 1
    ensures |s| > length + |Marker| ==> |TruncateOutput(s, length)| < |s|
    ensures length < |s| < length + |Marker| ==> |TruncateOutput(s, length)| > |s|
    ensures |TruncateOutput(s, length)| <= length + |Marker|
  {
    if |s| > length {
      assert |TruncateOutput(s, length)| == length + |Marker|;
    }
  }

  /** Python's `Decimal(t)` applied to every token, left to right: all the
      values, or `None` as soon as one token is not a decimal literal. */
  function ParseDecimals<D>(decimal: string -> Option<D>, tokens: seq<string>): (r: Option<seq<D>>)
    ensures r.Some? <==> forall k :: 0 <= k < |tokens| ==> decimal(tokens[k]).Some?
    ensures r.Some? ==> |r.value| == |tokens|
    ensures r.Some? ==> forall k :: 0 <= k < |tokens| ==> decimal(tokens[k]) == Some(r.value[k])
  {
    if tokens == [] then Some([])
    else
      match decimal(tokens[0])
      case None => None
      case Some(d) =>
        match ParseDecimals(decimal, tokens[1..])
        case None => None
        case Some(ds) => Some([d] + ds)
  }

  /** Every whitespace-separated token of `line` is a decimal literal. */
  ghost predicate IsDecimalLine<D, J>(host: Host<D, J>, line: string) {
    forall k :: 0 <= k < |Words(host.isSpace, line)| ==> host.decimal(Words(host.isSpace, line)[k]).Some?
  }

  /** `convert_line_to_decimals(line)`: `(True, values)` with one decimal per
      token when every token parses, otherwise `(False, [])`. */
  function ConvertLineToDecimals<D, J>(host: Host<D, J>, line: string): (r: (bool, seq<D>))
    ensures r.0 <==> IsDecimalLine(host, line)
    ensures r.0 ==> |r.1| == |Words(host.isSpace, line)|
    ensures r.0 ==> forall k :: 0 <= k < |r.1| ==> host.decimal(Words(host.isSpace, line)[k]) == Some(r.1[k])
    ensures !r.0 ==> r.1 == []
  {
    match ParseDecimals(host.decimal, Words(host.isSpace, line))
    case Some(ds) => (true, ds)
    case None => (false, [])
  }

  /** An empty or blank line is a decimal line with no values. */
  lemma {:induction false} BlankLineHasNoDecimals<D, J>(host: Host<D, J>, line: string)
    requires AllSpace(host.isSpace, line)
    ensures ConvertLineToDecimals(host, line) == (true, [])
  {
    WordsBlank(host.isSpace, line);
  }

  /** `get_stripped_lines(val)`: the trimmed text split at every newline, each
      piece trimmed. Empty lines inside the text are kept as `""`. */
  function GetStrippedLines(isSpace: char -> bool, val: string): (r: seq<string>)
    ensures |r| == Count('\n', Strip(isSpace, val)) + 1
    ensures forall k :: 0 <= k < |r| ==> r[k] == Strip(isSpace, Split(Strip(isSpace, val), '\n')[k])
    ensures forall k :: 0 <= k < |r| ==> Trimmed(isSpace, r[k]) && '\n' !in r[k]
  {
    var parts := Split(Strip(isSpace, val), '\n');
    seq(|parts|, k requires 0 <= k < |parts| => Strip(isSpace, parts[k]))
  }

  /** Lines that are already trimmed, free of newlines and without blank
      lines at either end come back unchanged from `get_stripped_lines`
      after being joined with newlines. */
  lemma {:induction false} StrippedLinesOfJoin(isSpace: char -> bool, lines: seq<string>)
    requires |lines| >= 1
    requires forall k :: 0 <= k < |lines| ==> Trimmed(isSpace, lines[k]) && '\n' !in lines[k]
    requires |lines| > 1 ==> lines[0] != [] && lines[|lines| - 1] != []
    ensures GetStrippedLines(isSpace, Join(lines, '\n')) == lines
  {
    var text := Join(lines, '\n');
    JoinTrimmed(isSpace, lines);
    StripTrimmed(isSpace, text);
    SplitJoin(lines, '\n');
    assert Split(Strip(isSpace, text), '\n') == lines;
    var r := GetStrippedLines(isSpace, text);
    assert |r| == |lines|;
    forall k | 0 <= k < |lines| ensures r[k] == lines[k] {
      StripTrimmed(isSpace, lines[k]);
    }
  }

  lemma {:induction false} JoinTrimmed(isSpace: char -> bool, lines: seq<string>)
    requires |lines| >= 1
    requires forall k :: 0 <= k < |lines| ==> Trimmed(isSpace, lines[k])
    requires |lines| > 1 ==> lines[0] != [] && lines[|lines| - 1] != []
    ensures Trimmed(isSpace, Join(lines, '\n'))
  {
    if |lines| > 1 {
      var rest := lines[1..];
      var tail := Join(rest, '\n');
      JoinLast(rest);
      assert Join(lines, '\n') == lines[0] + ['\n'] + tail;
    }
  }

  lemma {:induction false} JoinLast(lines: seq<string>)
    requires |lines| >= 1 && lines[|lines| - 1] != []
    ensures Join(lines, '\n') != []
    ensures Join(lines, '\n')[|Join(lines, '\n')| - 1] == lines[|lines| - 1][|lines[|lines| - 1]| - 1]
  {
    if |lines| > 1 {
      JoinLast(lines[1..]);
    }
  }

  /** The values of a decimal line, one per token. */
  ghost function Values<D, J>(host: Host<D, J>, line: string): seq<D>
    requires IsDecimalLine(host, line)
  {
    var words := Words(host.isSpace, line);
    seq(|words|, k requires 0 <= k < |words| => host.decimal(words[k]).value)
  }

  /** Python's `==` on two lists of decimals: lists of different lengths
      are unequal without any element being compared; otherwise the
      elements are compared in order and the first pair that is unequal, or
      whose comparison raises, decides (`ListEqualityRaises`). */
  function DecimalListEq<D>(eq: (D, D) -> Equality, a: seq<D>, b: seq<D>): (r: Equality)
    ensures r == Equal(true) <==> |a| == |b| && forall k :: 0 <= k < |a| ==> eq(a[k], b[k]) == Equal(true)
    ensures |a| != |b| ==> r == Equal(false)
  {
    if |a| != |b| then Equal(false) else ElementsEqualFrom(eq, a, b, 0)
  }

  /** The element loop of list `==` from index `i` on. */
  function ElementsEqualFrom<D>(eq: (D, D) -> Equality, a: seq<D>, b: seq<D>, i: nat): (r: Equality)
    requires |a| == |b| && i <= |a|
    ensures r == Equal(true) <==> forall k :: i <= k < |a| ==> eq(a[k], b[k]) == Equal(true)
    decreases |a| - i
  {
    if i == |a| then Equal(true)
    else
      match eq(a[i], b[i])
      case Equal(same) => if same then ElementsEqualFrom(eq, a, b, i + 1) else Equal(false)
      case Signalled(error) => Signalled(error)
  }

  /** When list `==` raises, the exception is that of the first pair of
      elements that does not compare equal: every earlier pair is equal. */
  lemma {:induction false} ListEqualityRaises<D>(eq: (D, D) -> Equality, a: seq<D>, b: seq<D>)
    requires DecimalListEq(eq, a, b).Signalled?
    ensures |a| == |b|
    ensures exists k :: (0 <= k < |a| && k < |b| && eq(a[k], b[k]) == DecimalListEq(eq, a, b) &&
                         forall j :: 0 <= j < k ==> eq(a[j], b[j]) == Equal(true))
  {
    ElementsRaise(eq, a, b, 0);
  }

  lemma {:induction false} ElementsRaise<D>(eq: (D, D) -> Equality, a: seq<D>, b: seq<D>, i: nat)
    requires |a| == |b| && i <= |a|
    requires ElementsEqualFrom(eq, a, b, i).Signalled?
    ensures exists k :: (i <= k < |a| && eq(a[k], b[k]) == ElementsEqualFrom(eq, a, b, i) &&
                         forall j :: i <= j < k ==> eq(a[j], b[j]) == Equal(true))
    decreases |a| - i
  {
    if eq(a[i], b[i]).Equal? {
      ElementsRaise(eq, a, b, i + 1);
      var k :| i + 1 <= k < |a| && eq(a[k], b[k]) == ElementsEqualFrom(eq, a, b, i + 1) &&
        forall j :: i + 1 <= j < k ==> eq(a[j], b[j]) == Equal(true);
      assert forall j :: i <= j < k ==> eq(a[j], b[j]) == Equal(true);
    } else {
      assert eq(a[i], b[i]) == ElementsEqualFrom(eq, a, b, i);
    }
  }

  /** Conversely, the first element pair that is not equal decides the comparison:
      its exception if it raised one, `False` otherwise. */
  lemma {:induction false} ListEqualityFirst<D>(eq: (D, D) -> Equality, a: seq<D>, b: seq<D>, k: nat)
    requires |a| == |b| && k < |a|
    requires forall j :: 0 <= j < k ==> eq(a[j], b[j]) == Equal(true)
    requires eq(a[k], b[k]) != Equal(true)
    ensures DecimalListEq(eq, a, b) == (if eq(a[k], b[k]).Signalled? then eq(a[k], b[k]) else Equal(false))
  {
    ElementsFirst(eq, a, b, 0, k);
  }

  lemma {:induction false} ElementsFirst<D>(eq: (D, D) -> Equality, a: seq<D>, b: seq<D>, i: nat, k: nat)
    requires |a| == |b| && i <= k < |a|
    requires forall j :: i <= j < k ==> eq(a[j], b[j]) == Equal(true)
    requires eq(a[k], b[k]) != Equal(true)
    ensures ElementsEqualFrom(eq, a, b, i) == (if eq(a[k], b[k]).Signalled? then eq(a[k], b[k]) else Equal(false))
    decreases k - i
  {
    if i < k {
      ElementsFirst(eq, a, b, i + 1, k);
    }
  }

  /** The exact comparison of the values of two decimal lines. */
  ghost function ExactEquality<D, J>(host: Host<D, J>, p: string, e: string): Equality
    requires IsDecimalLine(host, p) && IsDecimalLine(host, e)
  {
    DecimalListEq(host.decimalEq, Values(host, p), Values(host, e))
  }

  /** When a pair of output lines is accepted: the texts are equal, or both
      are decimal lines whose values are equal or, with as many values on
      each side, close by `numpy.allclose`. */
  ghost predicate LinesAgree<D, J>(host: Host<D, J>, p: string, e: string) {
    p == e ||
    (IsDecimalLine(host, p) && IsDecimalLine(host, e) &&
     (ExactEquality(host, p, e) == Equal(true) ||
      (ExactEquality(host, p, e) == Equal(false) && |Values(host, p)| == |Values(host, e)| &&
       host.allClose(Values(host, p), Values(host, e)) == AllClose(true))))
  }

  /** When checking a pair of lines raises an exception that escapes the
      loop: on two unequal decimal lines, either the exact comparison of the
      values raises, or it answers no and the tolerance check on as many
      values each raises something other than `ValueError`/`ImportError`. */
  ghost predicate LinesRaise<D, J>(host: Host<D, J>, p: string, e: string) {
    p != e && IsDecimalLine(host, p) && IsDecimalLine(host, e) &&
    (ExactEquality(host, p, e).Signalled? ||
     (ExactEquality(host, p, e) == Equal(false) && |Values(host, p)| == |Values(host, e)| &&
      host.allClose(Values(host, p), Values(host, e)).Raised?))
  }

  /** The exception a raising pair of lines throws. */
  ghost function PairError<D, J>(host: Host<D, J>, p: string, e: string): Exception
    requires LinesRaise(host, p, e)
  {
    if ExactEquality(host, p, e).Signalled? then ExactEquality(host, p, e).error
    else host.allClose(Values(host, p), Values(host, e)).error
  }

  /** What one iteration of the line loop does with a pair of lines. */
  datatype LineOutcome = Pass | Mismatch | Escape(error: Exception)

  /** The body of the line loop for one pair: `continue` (Pass), the
      "Wrong answer at line" return (Mismatch), or an exception leaving the
      exact comparison or the tolerance check (Escape). */
  function CheckLinePair<D, J>(host: Host<D, J>, p: string, e: string): (r: LineOutcome)
    ensures p == e ==> r == Pass
    ensures r != Pass ==> p != e
    ensures r.Escape? ==> IsDecimalLine(host, p) && IsDecimalLine(host, e)
  {
    if p == e then Pass
    else
      var (okP, dp) := ConvertLineToDecimals(host, p);
      var (okE, de) := ConvertLineToDecimals(host, e);
      if okP && okE then
        match DecimalListEq(host.decimalEq, dp, de)
        case Signalled(error) => Escape(error)
        case Equal(same) =>
          if same then Pass
          else if |dp| != |de| then Mismatch
          else
            match host.allClose(dp, de)
            case AllClose(close) => if close then Pass else Mismatch
            case Unavailable => Mismatch
            case Raised(error) => Escape(error)
      else Mismatch
  }

  /** What the loop body does with a pair of lines: it passes exactly when
      the lines agree, and raises exactly when they raise, with the exception
      of whichever comparison raised. */
  lemma {:induction false} CheckLinePairMeaning<D, J>(host: Host<D, J>, p: string, e: string)
    ensures CheckLinePair(host, p, e) == Pass <==> LinesAgree(host, p, e)
    ensures CheckLinePair(host, p, e).Escape? <==> LinesRaise(host, p, e)
    ensures CheckLinePair(host, p, e).Escape? ==> CheckLinePair(host, p, e).error == PairError(host, p, e)
  {
    if p != e && IsDecimalLine(host, p) && IsDecimalLine(host, e) {
      ValuesOfDecimalLine(host, p);
      ValuesOfDecimalLine(host, e);
    }
  }

  lemma {:induction false} ValuesOfDecimalLine<D, J>(host: Host<D, J>, line: string)
    requires IsDecimalLine(host, line)
    ensures ConvertLineToDecimals(host, line) == (true, Values(host, line))
  {
    var r := ConvertLineToDecimals(host, line);
    assert r.1 == Values(host, line);
  }

  /** The loop completes exactly when every pair of lines agrees. */
  lemma {:induction false} ScanMeaning<D, J>(host: Host<D, J>, ps: seq<string>, es: seq<string>)
    requires |ps| == |es|
    ensures ScanFrom(host, ps, es, 0) == AllPassed <==> forall k :: 0 <= k < |ps| ==> LinesAgree(host, ps[k], es[k])
  {
    forall k | 0 <= k < |ps|
      ensures CheckLinePair(host, ps[k], es[k]) == Pass <==> LinesAgree(host, ps[k], es[k])
    {
      CheckLinePairMeaning(host, ps[k], es[k]);
    }
  }

  /** Where the line loop ends. */
  datatype Scan = AllPassed | FailedAt(index: nat) | EscapedAt(index: nat, error: Exception)

  /** The line loop from index `i` on: the first pair that does not pass
      decides, and if every pair passes the loop completes. */
  function ScanFrom<D, J>(host: Host<D, J>, ps: seq<string>, es: seq<string>, i: nat): (r: Scan)
    requires |ps| == |es| && i <= |ps|
    ensures r.AllPassed? <==> forall k :: i <= k < |ps| ==> CheckLinePair(host, ps[k], es[k]) == Pass
    ensures r.FailedAt? ==> i <= r.index < |ps| && CheckLinePair(host, ps[r.index], es[r.index]) == Mismatch
    ensures r.EscapedAt? ==> i <= r.index < |ps| && CheckLinePair(host, ps[r.index], es[r.index]) == Escape(r.error)
    ensures !r.AllPassed? ==> forall k :: i <= k < r.index ==> CheckLinePair(host, ps[k], es[k]) == Pass
    decreases |ps| - i
  {
    if i == |ps| then AllPassed
    else
      match CheckLinePair(host, ps[i], es[i])
      case Pass => ScanFrom(host, ps, es, i + 1)
      case Mismatch => FailedAt(i)
      case Escape(error) => EscapedAt(i, error)
  }

  /** The line loop as the source runs it: walk the pairs in order and stop
      at the first one that does not pass. */
  method ScanLines<D, J>(host: Host<D, J>, ps: seq<string>, es: seq<string>) returns (r: Scan)
    requires |ps| == |es|
    ensures r == ScanFrom(host, ps, es, 0)
    ensures r.AllPassed? <==> forall k :: 0 <= k < |ps| ==> CheckLinePair(host, ps[k], es[k]) == Pass
    ensures !r.AllPassed? ==> r.index < |ps| && CheckLinePair(host, ps[r.index], es[r.index]) != Pass
    ensures !r.AllPassed? ==> forall k :: 0 <= k < r.index ==> CheckLinePair(host, ps[k], es[k]) == Pass
  {
    var i := 0;
    while i < |ps|
      invariant 0 <= i <= |ps|
      invariant forall k :: 0 <= k < i ==> CheckLinePair(host, ps[k], es[k]) == Pass
      invariant ScanFrom(host, ps, es, i) == ScanFrom(host, ps, es, 0)
    {
      var outcome := CheckLinePair(host, ps[i], es[i]);
      match outcome {
        case Pass =>
        case Mismatch =>
          return FailedAt(i);
        case Escape(error) =>
          return EscapedAt(i, error);
      }
      i := i + 1;
    }
    return AllPassed;
  }

  const LineCountPrefix: string := "Wrong answer: mismatched output length. Expected "

  /** The message for outputs with different numbers of lines: it starts
      with the fixed prefix, ends with " lines", and (by
      `LineCountMessageNamesCounts`) the two counts can be read back from it. */
  function LineCountMessage(expected: nat, got: nat): (r: string)
    ensures |r| > |LineCountPrefix| + 6
    ensures r[..|LineCountPrefix|] == LineCountPrefix
    ensures r[|r| - 6..] == " lines"
  {
    LineCountPrefix + NatToString(expected) + " lines, got " + NatToString(got) + " lines"
  }

  /** Different pairs of line counts give different messages. */
  lemma {:induction false} LineCountMessageNamesCounts(expected1: nat, got1: nat, expected2: nat, got2: nat)
    requires LineCountMessage(expected1, got1) == LineCountMessage(expected2, got2)
    ensures expected1 == expected2 && got1 == got2
  {
    var middle, last := " lines, got ", " lines";
    LineCountMessageShape(expected1, got1);
    LineCountMessageShape(expected2, got2);
    var rest1 := middle + (NatToString(got1) + last);
    var rest2 := middle + (NatToString(got2) + last);
    DropPrefix(LineCountPrefix, NatToString(expected1) + rest1, NatToString(expected2) + rest2);
    NatToStringPrefix(expected1, expected2, rest1, rest2);
    DropPrefix(middle, NatToString(got1) + last, NatToString(got2) + last);
    NatToStringPrefix(got1, got2, last, last);
  }

  lemma {:induction false} LineCountMessageShape(expected: nat, got: nat)
    ensures LineCountMessage(expected, got) ==
      LineCountPrefix + (NatToString(expected) + (" lines, got " + (NatToString(got) + " lines")))
  {
  }

  const LineMismatchPrefix: string := "Wrong answer at line "

  /** The message for the first pair of lines that does not pass: it starts
      with the fixed prefix and ends with the truncated expected line, and
      (by `LineMismatchMessageNamesLine`) the line index can be read back
      from it. */
  function LineMismatchMessage(index: nat, p: string, e: string): (r: string)
    ensures |r| > |LineMismatchPrefix|
    ensures r[..|LineMismatchPrefix|] == LineMismatchPrefix
    ensures var t := TruncateOutput(e, DefaultLength); |r| >= |t| && r[|r| - |t|..] == t
  {
    LineMismatchPrefix + NatToString(index) + ": "
      + TruncateOutput(p, DefaultLength) + " != " + TruncateOutput(e, DefaultLength)
  }

  /** Mismatch messages for different lines are different. */
  lemma {:induction false} LineMismatchMessageNamesLine(index1: nat, p1: string, e1: string, index2: nat, p2: string, e2: string)
    requires LineMismatchMessage(index1, p1, e1) == LineMismatchMessage(index2, p2, e2)
    ensures index1 == index2
  {
    LineMismatchMessageShape(index1, p1, e1);
    LineMismatchMessageShape(index2, p2, e2);
    var rest1 := ": " + (TruncateOutput(p1, DefaultLength) + " != " + TruncateOutput(e1, DefaultLength));
    var rest2 := ": " + (TruncateOutput(p2, DefaultLength) + " != " + TruncateOutput(e2, DefaultLength));
    DropPrefix(LineMismatchPrefix, NatToString(index1) + rest1, NatToString(index2) + rest2);
    NatToStringPrefix(index1, index2, rest1, rest2);
  }

  lemma {:induction false} LineMismatchMessageShape(index: nat, p: string, e: string)
    ensures LineMismatchMessage(index, p, e) ==
      LineMismatchPrefix + (NatToString(index) +
        (": " + (TruncateOutput(p, DefaultLength) + " != " + TruncateOutput(e, DefaultLength))))
  {
  }

  /** The line-by-line strategy, the body of the `try` block: its verdict, or
      the exception that leaves it. */
  function LineByLine<D, J>(host: Host<D, J>, prediction: string, expected: string): (r: Result)
    ensures r.Done? ==> (r.verdict.matched <==> r.verdict.message == "")
    ensures var ps := GetStrippedLines(host.isSpace, prediction);
            var es := GetStrippedLines(host.isSpace, expected);
            r == Done(Verdict(true, "")) <==>
              |ps| == |es| && forall k :: 0 <= k < |ps| ==> LinesAgree(host, ps[k], es[k])
    ensures r.Thrown? ==> |GetStrippedLines(host.isSpace, prediction)| == |GetStrippedLines(host.isSpace, expected)|
  {
    var ps := GetStrippedLines(host.isSpace, prediction);
    var es := GetStrippedLines(host.isSpace, expected);
    if |ps| != |es| then Done(Verdict(false, LineCountMessage(|es|, |ps|)))
    else
      ScanMeaning(host, ps, es);
      match ScanFrom(host, ps, es, 0)
      case AllPassed => Done(Verdict(true, ""))
      case FailedAt(i) => Done(Verdict(false, LineMismatchMessage(i, ps[i], es[i])))
      case EscapedAt(_, error) => Thrown(error)
  }

  /** A verdict, or an exception caught by the `except Exception` clause. */
  datatype Result = Done(verdict: Verdict) | Thrown(error: Exception)

  /** `try_json_comparison`: parses both trimmed outputs as JSON and compares
      the values; an output that does not parse gives "Not valid JSON format". */
  function TryJsonComparison<D, J>(host: Host<D, J>, prediction: string, expected: string): (r: (bool, string))
    ensures r.0 <==> JsonMatches(host, prediction, expected)
    ensures r.0 <==> r.1 == ""
  {
    match host.jsonLoads(Strip(host.isSpace, prediction))
    case None => (false, "Not valid JSON format")
    case Some(p) =>
      match host.jsonLoads(Strip(host.isSpace, expected))
      case None => (false, "Not valid JSON format")
      case Some(e) =>
        if host.jsonEq(p, e) then (true, "")
        else (false, "JSON objects don't match: " + TruncateOutput(host.jsonStr(p), DefaultLength)
                       + " != " + TruncateOutput(host.jsonStr(e), DefaultLength))
  }

  /** Both trimmed outputs parse as JSON, to equal values. */
  ghost predicate JsonMatches<D, J>(host: Host<D, J>, prediction: string, expected: string) {
    var p := host.jsonLoads(Strip(host.isSpace, prediction));
    var e := host.jsonLoads(Strip(host.isSpace, expected));
    p.Some? && e.Some? && host.jsonEq(p.value, e.value)
  }

  /** The message of the exception fallback. */
  const FallbackPrefix: string := "Comparison failed: "

  /** `enhanced_output_comparison`: exact match after trimming, then JSON,
      then line by line; an exception in the line strategy falls back to the
      trimmed equality, which has already failed at that point. A match
      always comes with an empty message and a mismatch never does. */
  function EnhancedOutputComparison<D, J>(host: Host<D, J>, prediction: string, expected: string): (r: Verdict)
    ensures r.matched <==> r.message == ""
    ensures Strip(host.isSpace, prediction) == Strip(host.isSpace, expected) ==> r == Verdict(true, "")
    ensures JsonMatches(host, prediction, expected) ==> r == Verdict(true, "")
    ensures Strip(host.isSpace, prediction) != Strip(host.isSpace, expected) && !JsonMatches(host, prediction, expected) ==>
      r == match LineByLine(host, prediction, expected)
           case Done(verdict) => verdict
           case Thrown(error) => Verdict(false, FallbackPrefix + error.text)
  {
    var predictionSimple := Strip(host.isSpace, prediction);
    var expectedSimple := Strip(host.isSpace, expected);
    if predictionSimple == expectedSimple then Verdict(true, "")
    else
      var (jsonMatch, _) := TryJsonComparison(host, prediction, expected);
      if jsonMatch then Verdict(true, "")
      else
        match LineByLine(host, prediction, expected)
        case Done(verdict) => verdict
        case Thrown(error) =>
          Verdict(predictionSimple == expectedSimple,
                  if predictionSimple != expectedSimple then FallbackPrefix + error.text else "")
  }
}
