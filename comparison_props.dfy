/** What the comparator promises as a whole, proved from the definitions in
    `CodeOutputComparison`: it ignores whitespace around the outputs, a match
    means an empty message, and a line-by-line failure names the first pair
    of lines that does not pass. */
module ComparisonProperties {
  import opened Runtime
  import opened PyStr
  import opened CodeOutputComparison

  /** Two outputs that differ only by whitespace at their ends match: the
      same text `s`, padded on each side with any whitespace, compares equal
      with an empty message. With empty padding on one side this covers an
      output against its padded copy, and with empty padding on both sides
      every output matches itself. */
  lemma {:induction false} IgnoresSurroundingWhitespace<D, J>(host: Host<D, J>, s: string,
                                                             lead1: string, trail1: string, lead2: string, trail2: string)
    requires AllSpace(host.isSpace, lead1) && AllSpace(host.isSpace, trail1)
    requires AllSpace(host.isSpace, lead2) && AllSpace(host.isSpace, trail2)
    ensures EnhancedOutputComparison(host, lead1 + s + trail1, lead2 + s + trail2) == Verdict(true, "")
  {
    StripIgnoresPadding(host.isSpace, lead1, s, trail1);
    StripIgnoresPadding(host.isSpace, lead2, s, trail2);
  }

  /** The first pair of lines at which the line loop stops, if any. */
  lemma {:induction false} ScanStopsAt<D, J>(host: Host<D, J>, ps: seq<string>, es: seq<string>, i: nat)
    requires |ps| == |es| && i < |ps|
    requires forall k :: 0 <= k < i ==> CheckLinePair(host, ps[k], es[k]) == Pass
    requires CheckLinePair(host, ps[i], es[i]) != Pass
    ensures ScanFrom(host, ps, es, 0) ==
      match CheckLinePair(host, ps[i], es[i])
      case Escape(error) => EscapedAt(i, error)
      case _ => FailedAt(i)
  {
    var r := ScanFrom(host, ps, es, 0);
    assert !r.AllPassed?;
    assert r.index == i;
  }

  /** The comparison matches exactly when the trimmed outputs are equal, or
      they are equal JSON values, or they have as many lines and every pair
      of lines agrees. */
  lemma {:induction false} MatchedExactly<D, J>(host: Host<D, J>, prediction: string, expected: string)
    ensures var ps := GetStrippedLines(host.isSpace, prediction);
            var es := GetStrippedLines(host.isSpace, expected);
            EnhancedOutputComparison(host, prediction, expected).matched <==>
              Strip(host.isSpace, prediction) == Strip(host.isSpace, expected) ||
              JsonMatches(host, prediction, expected) ||
              (|ps| == |es| && forall k :: 0 <= k < |ps| ==> LinesAgree(host, ps[k], es[k]))
  {
    var ps := GetStrippedLines(host.isSpace, prediction);
    var es := GetStrippedLines(host.isSpace, expected);
    if |ps| == |es| {
      var r := ScanFrom(host, ps, es, 0);
      ScanMeaning(host, ps, es);
    }
  }

  /** Outputs that neither match exactly nor as JSON and have different
      numbers of lines fail with a message giving both line counts. */
  lemma {:induction false} LineCountMismatch<D, J>(host: Host<D, J>, prediction: string, expected: string)
    requires Strip(host.isSpace, prediction) != Strip(host.isSpace, expected)
    requires !JsonMatches(host, prediction, expected)
    requires |GetStrippedLines(host.isSpace, prediction)| != |GetStrippedLines(host.isSpace, expected)|
    ensures EnhancedOutputComparison(host, prediction, expected) ==
      Verdict(false, LineCountMessage(Count('\n', Strip(host.isSpace, expected)) + 1,
                                      Count('\n', Strip(host.isSpace, prediction)) + 1))
  {
  }

  /** When the line strategy is reached and pair `i` is the first that does
      not agree, the comparison fails with a message naming line `i` and
      both (truncated) lines; if checking that pair raised, the fallback
      reports the exception instead, and still does not match. */
  lemma {:induction false} FirstDisagreeingLine<D, J>(host: Host<D, J>, prediction: string, expected: string, i: nat)
    requires Strip(host.isSpace, prediction) != Strip(host.isSpace, expected)
    requires !JsonMatches(host, prediction, expected)
    requires |GetStrippedLines(host.isSpace, prediction)| == |GetStrippedLines(host.isSpace, expected)|
    requires i < |GetStrippedLines(host.isSpace, prediction)|
    requires forall k :: 0 <= k < i ==>
      LinesAgree(host, GetStrippedLines(host.isSpace, prediction)[k], GetStrippedLines(host.isSpace, expected)[k])
    requires !LinesAgree(host, GetStrippedLines(host.isSpace, prediction)[i], GetStrippedLines(host.isSpace, expected)[i])
    ensures var p := GetStrippedLines(host.isSpace, prediction)[i];
            var e := GetStrippedLines(host.isSpace, expected)[i];
            EnhancedOutputComparison(host, prediction, expected) ==
              if LinesRaise(host, p, e)
              then Verdict(false, FallbackPrefix + PairError(host, p, e).text)
              else Verdict(false, LineMismatchMessage(i, p, e))
  {
    var ps := GetStrippedLines(host.isSpace, prediction);
    var es := GetStrippedLines(host.isSpace, expected);
    forall k | 0 <= k <= i
      ensures CheckLinePair(host, ps[k], es[k]) == Pass <==> LinesAgree(host, ps[k], es[k])
    {
      CheckLinePairMeaning(host, ps[k], es[k]);
    }
    CheckLinePairMeaning(host, ps[i], es[i]);
    ScanStopsAt(host, ps, es, i);
  }

  /** The exception fallback never reports a match: the line strategy can
      only raise on outputs whose trimmed texts differ, so the trimmed
      equality the fallback re-checks is false there, and the verdict is a
      mismatch carrying the exception's text. */
  lemma {:induction false} FallbackNeverMatches<D, J>(host: Host<D, J>, prediction: string, expected: string)
    ensures LineByLine(host, prediction, expected).Thrown? ==>
      Strip(host.isSpace, prediction) != Strip(host.isSpace, expected)
    ensures LineByLine(host, prediction, expected).Thrown? && !JsonMatches(host, prediction, expected) ==>
      EnhancedOutputComparison(host, prediction, expected) ==
        Verdict(false, FallbackPrefix + LineByLine(host, prediction, expected).error.text)
  {
    if Strip(host.isSpace, prediction) == Strip(host.isSpace, expected) {
      ScanSelf(host, GetStrippedLines(host.isSpace, prediction));
    }
  }

  /** Every pair of equal lines passes, so an output scanned against itself
      completes the loop. */
  lemma {:induction false} ScanSelf<D, J>(host: Host<D, J>, lines: seq<string>)
    ensures ScanFrom(host, lines, lines, 0) == AllPassed
  {
    assert forall k :: 0 <= k < |lines| ==> CheckLinePair(host, lines[k], lines[k]) == Pass;
  }

  /** Empty lines inside an output are kept as empty lines. */
  lemma {:induction false} EmptyLinesKept(isSpace: char -> bool)
    requires isSpace('\n') && !isSpace('a') && !isSpace('b')
    ensures GetStrippedLines(isSpace, "a\n\nb") == ["a", "", "b"]
  {
    var lines := ["a", "", "b"];
    assert Join(lines, '\n') == "a\n\nb";
    StrippedLinesOfJoin(isSpace, lines);
  }

  /** Outputs of two and three lines fail on the line count. */
  lemma {:induction false} ExampleLineCount<D, J>(host: Host<D, J>)
    requires host.isSpace('\n') && !host.isSpace('a') && !host.isSpace('b') && !host.isSpace('c')
    requires host.jsonLoads("a\nb") == None
    ensures EnhancedOutputComparison(host, "a\nb", "a\nb\nc") ==
      Verdict(false, LineCountPrefix + "3 lines, got 2 lines")
  {
    var p, e := "a\nb", "a\nb\nc";
    TwoAndThreeLines(host.isSpace);
    assert !JsonMatches(host, p, e);
    assert Strip(host.isSpace, p) != Strip(host.isSpace, e);
    assert LineByLine(host, p, e) == Done(Verdict(false, LineCountMessage(3, 2)));
    LineCountMessageExample();
  }

  lemma {:induction false} TwoAndThreeLines(isSpace: char -> bool)
    requires isSpace('\n') && !isSpace('a') && !isSpace('b') && !isSpace('c')
    ensures Strip(isSpace, "a\nb") == "a\nb" && GetStrippedLines(isSpace, "a\nb") == ["a", "b"]
    ensures Strip(isSpace, "a\nb\nc") == "a\nb\nc" && GetStrippedLines(isSpace, "a\nb\nc") == ["a", "b", "c"]
  {
    assert Join(["a", "b"], '\n') == "a\nb";
    assert Join(["a", "b", "c"], '\n') == "a\nb\nc";
    StrippedLinesOfJoin(isSpace, ["a", "b"]);
    StrippedLinesOfJoin(isSpace, ["a", "b", "c"]);
    StripTrimmed(isSpace, "a\nb");
    StripTrimmed(isSpace, "a\nb\nc");
  }

  lemma {:induction false} LineCountMessageExample()
    ensures LineCountMessage(3, 2) == LineCountPrefix + "3 lines, got 2 lines"
  {
    LineCountMessageShape(3, 2);
    SmallNumbers();
    CountsText();
  }

  lemma {:induction false} CountsText()
    ensures "3" + (" lines, got " + ("2" + " lines")) == "3 lines, got 2 lines"
  {
  }

  lemma {:induction false} SmallNumbers()
    ensures NatToString(0) == "0" && NatToString(2) == "2" && NatToString(3) == "3"
  {
  }

  /** Two different words that are neither JSON nor decimals fail at line 0,
      with both lines shown in full. */
  lemma {:induction false} ExampleWrongWord<D, J>(host: Host<D, J>)
    requires !host.isSpace('a') && !host.isSpace('b') && !host.isSpace('c') && !host.isSpace('d')
    requires host.jsonLoads("abc") == None && host.decimal("abc") == None
    ensures EnhancedOutputComparison(host, "abc", "abd") == Verdict(false, "Wrong answer at line 0: abc != abd")
  {
    assert NoSpace(host.isSpace, "abc") && NoSpace(host.isSpace, "abd");
    WordPairMismatch(host, "abc", "abd");
    LineMismatchMessageExample();
  }

  /** Two different single-word outputs, the first neither JSON nor a
      decimal, fail at line 0. */
  lemma {:induction false} WordPairMismatch<D, J>(host: Host<D, J>, p: string, e: string)
    requires p != e
    requires p != [] && NoSpace(host.isSpace, p) && '\n' !in p
    requires e != [] && NoSpace(host.isSpace, e) && '\n' !in e
    requires host.jsonLoads(p) == None && host.decimal(p) == None
    ensures EnhancedOutputComparison(host, p, e) == Verdict(false, LineMismatchMessage(0, p, e))
  {
    SingleLine(host.isSpace, p);
    SingleLine(host.isSpace, e);
    assert !JsonMatches(host, p, e);
    NonDecimalPair(host, p, e);
    ScanStopsAt(host, [p], [e], 0);
  }

  /** A pair of different lines, one a single word that is not a decimal,
      is a mismatch. */
  lemma {:induction false} NonDecimalPair<D, J>(host: Host<D, J>, p: string, e: string)
    requires p != e
    requires p != [] && NoSpace(host.isSpace, p) && host.decimal(p) == None
    ensures CheckLinePair(host, p, e) == Mismatch
  {
    WordsOfWord(host.isSpace, p);
    assert Words(host.isSpace, p)[0] == p;
    assert !IsDecimalLine(host, p);
  }

  /** `snan` against `sNaN`: both parse as decimals (signalling NaNs), the
      lines differ, and `==` on the two values raises; the exception leaves
      the line strategy and the fallback reports a mismatch with its text. */
  lemma {:induction false} ExampleSignallingNaN<D, J>(host: Host<D, J>, dp: D, de: D, error: Exception)
    requires !host.isSpace('s') && !host.isSpace('n') && !host.isSpace('a') && !host.isSpace('N')
    requires host.jsonLoads("snan") == None
    requires host.decimal("snan") == Some(dp) && host.decimal("sNaN") == Some(de)
    requires host.decimalEq(dp, de) == Signalled(error)
    ensures EnhancedOutputComparison(host, "snan", "sNaN") == Verdict(false, FallbackPrefix + error.text)
  {
    assert NoSpace(host.isSpace, "snan") && NoSpace(host.isSpace, "sNaN");
    SignalledWordPair(host, "snan", "sNaN", dp, de, error);
  }

  /** Two different single-word outputs, the first not JSON, whose decimal
      values raise on `==` end in the fallback with that exception. */
  lemma {:induction false} SignalledWordPair<D, J>(host: Host<D, J>, p: string, e: string, dp: D, de: D, error: Exception)
    requires p != e
    requires p != [] && NoSpace(host.isSpace, p) && '\n' !in p && host.decimal(p) == Some(dp)
    requires e != [] && NoSpace(host.isSpace, e) && '\n' !in e && host.decimal(e) == Some(de)
    requires host.jsonLoads(p) == None
    requires host.decimalEq(dp, de) == Signalled(error)
    ensures EnhancedOutputComparison(host, p, e) == Verdict(false, FallbackPrefix + error.text)
  {
    SingleLine(host.isSpace, p);
    SingleLine(host.isSpace, e);
    assert !JsonMatches(host, p, e);
    SignalledPair(host, p, e, dp, de, error);
    ScanStopsAt(host, [p], [e], 0);
  }

  /** Two different single-token lines whose values raise on `==` make the
      loop body raise that exception. */
  lemma {:induction false} SignalledPair<D, J>(host: Host<D, J>, p: string, e: string, dp: D, de: D, error: Exception)
    requires p != e
    requires p != [] && NoSpace(host.isSpace, p) && host.decimal(p) == Some(dp)
    requires e != [] && NoSpace(host.isSpace, e) && host.decimal(e) == Some(de)
    requires host.decimalEq(dp, de) == Signalled(error)
    ensures CheckLinePair(host, p, e) == Escape(error)
  {
    SingleDecimal(host, p, dp);
    SingleDecimal(host, e, de);
    assert DecimalListEq(host.decimalEq, [dp], [de]) == Signalled(error);
  }

  /** A single token that parses is a decimal line with that one value. */
  lemma {:induction false} SingleDecimal<D, J>(host: Host<D, J>, w: string, d: D)
    requires w != [] && NoSpace(host.isSpace, w) && host.decimal(w) == Some(d)
    ensures ConvertLineToDecimals(host, w) == (true, [d])
  {
    WordsOfWord(host.isSpace, w);
    assert Words(host.isSpace, w)[0] == w;
    assert IsDecimalLine(host, w);
    var r := ConvertLineToDecimals(host, w);
    assert |r.1| == 1 && host.decimal(w) == Some(r.1[0]);
    assert r.1 == [d];
  }

  /** A single word is its own trimmed text and its only line. */
  lemma {:induction false} SingleLine(isSpace: char -> bool, w: string)
    requires w != [] && NoSpace(isSpace, w) && '\n' !in w
    ensures Strip(isSpace, w) == w
    ensures GetStrippedLines(isSpace, w) == [w]
  {
    StripTrimmed(isSpace, w);
    assert Join([w], '\n') == w;
    StrippedLinesOfJoin(isSpace, [w]);
  }

  lemma {:induction false} LineMismatchMessageExample()
    ensures LineMismatchMessage(0, "abc", "abd") == "Wrong answer at line 0: abc != abd"
  {
    LineMismatchMessageShape(0, "abc", "abd");
    SmallNumbers();
    assert TruncateOutput("abc", DefaultLength) == "abc";
    assert TruncateOutput("abd", DefaultLength) == "abd";
  }
}
