# Output comparator model

A Dafny model of the output comparator of the `code-judge` service
(`app/code_output_comparison.py`). The comparator decides whether the text a
program printed (the *prediction*) matches a reference output (the
*expected* text). It returns a pair `(matched, message)`, and it tries
three strategies in a fixed order:

1. **exact**: the two texts are equal after `strip()`;
2. **JSON**: both trimmed texts parse as JSON and the parsed values are
   equal; a failure here never decides anything;
3. **line by line**: both texts are trimmed and split at newlines, and each
   line is trimmed. If the line counts differ, the answer is a mismatch.
   Otherwise the lines are walked in order, and the walk stops at the first
   pair that does not pass. A pair passes when:
   - the two lines are equal as text, or
   - both are whitespace-separated decimal lines whose values are equal, or
   - both are decimal lines whose values are close by `numpy.allclose`.

   An exception that escapes this strategy is caught. The comparator then
   falls back to the trimmed equality, which has already failed at that
   point.

Files:

- `py_str.dfy` (module `PyStr`): the Python string operations the
  comparator uses. These are `strip()`, `split("\n")`, `split()`, slices
  with negative bounds, and `str(n)`. Each comes with its characterising
  lemmas.
- `runtime.dfy` (module `Runtime`): the foreign collaborators, gathered
  in one record `Host<D, J>` of functions. `D` is the type of `Decimal`
  values and `J` the type of parsed JSON values.
- `comparison.dfy` (module `CodeOutputComparison`): `truncate_output`,
  `convert_line_to_decimals`, `get_stripped_lines`, `try_json_comparison`
  and `enhanced_output_comparison`. The line loop is given twice: as the
  recursive function `ScanFrom`, and as the `while` loop method `ScanLines`,
  which is proved equal to it.
- `comparison_props.dfy` (module `ComparisonProperties`): what the
  comparator promises as a whole. This covers whitespace insensitivity,
  the exact condition for a match, the line-count message, the first
  failing line, the fallback, and a few worked examples.

Where the docstrings and the code disagree, the model follows the code:

- `truncate_output` keeps `ceil(length/2)` characters from the tail of a
  long text. Python parses `-length // 2` as `(-length) // 2`, so the tail
  slice starts `ceil(length/2)` characters before the end.
  - With the default length of 300 the head and the tail are both 150
    characters.
  - With `length == 0`, the slice `s[0:]` keeps the whole text.
  - A text of 301 to 317 characters comes out longer than it went in: the
    result is always `length + 18` characters once the text is over the
    limit (`CodeOutputComparison.TruncateSize`).
- The docstring of `get_stripped_lines` speaks of removing empty lines.
  The code keeps empty lines inside the text as `""`
  (`ComparisonProperties.EmptyLinesKept`).
- The exception fallback recomputes the trimmed equality. That equality
  is always false there, so the fallback never reports a match
  (`ComparisonProperties.FallbackNeverMatches`).

## Model

| member | source | states |
|---|---|---|
| `PyStr.Strip` | app/code_output_comparison.py:73-74 | `str.strip()`: the result neither starts nor ends with whitespace, is no longer than the input, and holds only characters of the input |
| `PyStr.StripDecompose` | app/code_output_comparison.py:73-74 | the input is whitespace, then the stripped text, then whitespace |
| `PyStr.StripPadded` | app/code_output_comparison.py:73-74 | a trimmed text with whitespace added on both sides strips back to exactly that text |
| `PyStr.StripIgnoresPadding` | app/code_output_comparison.py:73-76 | adding whitespace at either end does not change the stripped text |
| `PyStr.StripTrimmed` | app/code_output_comparison.py:26-27 | strip leaves a trimmed text unchanged, so it is idempotent |
| `PyStr.Split` | app/code_output_comparison.py:27 | `split("\n")` gives one more piece than there are separators, and no piece contains the separator |
| `PyStr.JoinSplit` | app/code_output_comparison.py:27 | joining the pieces of a split with the separator gives back the text |
| `PyStr.SplitJoin` | app/code_output_comparison.py:27 | splitting a join of separator-free pieces gives back the pieces |
| `PyStr.Words` | app/code_output_comparison.py:18 | `split()` with no argument: the text cut at every whitespace character with the empty pieces dropped, so every token is non-empty and free of whitespace |
| `PyStr.WordsCover` | app/code_output_comparison.py:18 | the tokens, concatenated, are exactly the non-whitespace characters of the line in order |
| `PyStr.WordsBlank` | app/code_output_comparison.py:18 | a line has no tokens exactly when it is empty or blank |
| `PyStr.WordsOfWord` | app/code_output_comparison.py:18 | a non-empty run without whitespace is a single token |
| `PyStr.WordsAtSpace` | app/code_output_comparison.py:18 | a whitespace character always ends a token: the tokens of `a + [c] + b` are those of `a` followed by those of `b` |
| `PyStr.NatToString` | app/code_output_comparison.py:91 | `str(n)` is a non-empty string of decimal digits without a leading zero |
| `PyStr.NatToStringValue` | app/code_output_comparison.py:91 | the digits `str(n)` prints denote `n` |
| `PyStr.NatToStringPrefix` | app/code_output_comparison.py:91 | the number `str(n)` prints can be read back from the front of any longer text in which a non-digit follows it |
| `PyStr.Clamp` | app/code_output_comparison.py:12 | a slice bound inside the string is kept, a negative one counts back from the end, and one outside the string moves to its nearer end |
| `PyStr.SliceTo` | app/code_output_comparison.py:12 | `s[:i]` is a prefix of `s`: `i` characters for `0 <= i <= len(s)`, `len(s) + i` for a negative `i` within the string, all or nothing outside |
| `PyStr.SliceFrom` | app/code_output_comparison.py:12 | `s[i:]` is a suffix of `s`: `len(s) - i` characters for `0 <= i <= len(s)`, `-i` for a negative `i` within the string, nothing or all outside |
| `PyStr.SliceSplit` | app/code_output_comparison.py:12 | `s[:i] + s[i:] == s` for every bound `i` |
| `CodeOutputComparison.TruncateOutput` | app/code_output_comparison.py:4-12 | a text within the limit is returned unchanged; a longer one is its first `length // 2` characters, the 18-character marker, and its last `ceil(length/2)` characters, so `length + 18` characters in all; with limit 0 the whole text follows the marker |
| `CodeOutputComparison.TruncateSize` | app/code_output_comparison.py:10-12 | for a positive limit the result has at most `length + 18` characters; it is shorter than the input only when the input exceeds the limit by more than 18, and longer just above the limit |
| `CodeOutputComparison.ParseDecimals` | app/code_output_comparison.py:17-20 | the list comprehension of `Decimal` calls succeeds exactly when every token parses, with one value per token in order |
| `CodeOutputComparison.ConvertLineToDecimals` | app/code_output_comparison.py:15-21 | `(True, values)` with one decimal per token exactly when every token is a decimal literal; otherwise `(False, [])` |
| `CodeOutputComparison.BlankLineHasNoDecimals` | app/code_output_comparison.py:15-21 | an empty or blank line gives `(True, [])` |
| `CodeOutputComparison.GetStrippedLines` | app/code_output_comparison.py:24-27 | always at least one line: one per newline of the trimmed text, plus one; line `k` is piece `k` of the trimmed text split at newlines, itself trimmed; every line is trimmed and free of newlines |
| `CodeOutputComparison.StrippedLinesOfJoin` | app/code_output_comparison.py:24-27 | trimmed, newline-free lines with no blank first or last line come back unchanged after being joined with newlines |
| `CodeOutputComparison.DecimalListEq` | app/code_output_comparison.py:105 | list `==` on decimals is true exactly when the lengths agree and every pair of values compares equal; lists of different lengths are unequal without any comparison (which pair decides otherwise: `ListEqualityRaises` and `ListEqualityFirst`) |
| `CodeOutputComparison.ListEqualityRaises` | app/code_output_comparison.py:105 | when list `==` raises, the lengths agree and the exception is that of the first pair of values that does not compare equal, every earlier pair being equal |
| `CodeOutputComparison.ListEqualityFirst` | app/code_output_comparison.py:105 | the converse: on lists of equal length, if pair `k` is the first that does not compare equal, list `==` raises that pair's exception when it raised one and is false otherwise |
| `CodeOutputComparison.ElementsFirst` | app/code_output_comparison.py:105 | the same for the element loop started at `i`, for a first non-equal pair at `k >= i` |
| `CodeOutputComparison.ElementsEqualFrom` | app/code_output_comparison.py:105 | the element loop of list `==`: true exactly when every pair from `i` on compares equal; when it raises, the exception is that of the first non-equal pair (`ElementsRaise`), and that pair decides it (`ElementsFirst`) |
| `CodeOutputComparison.ElementsRaise` | app/code_output_comparison.py:105 | when the element loop started at `i` raises, some pair `k >= i` raised that exception and every pair between `i` and `k` compared equal |
| `CodeOutputComparison.CheckLinePair` | app/code_output_comparison.py:95-122 | one iteration of the line loop: continue (Pass), the "Wrong answer at line" return (Mismatch), or an exception from line 105 or the tolerance check (Escape); equal lines always pass, and only two different decimal lines can raise; characterised fully by `CheckLinePairMeaning` |
| `CodeOutputComparison.CheckLinePairMeaning` | app/code_output_comparison.py:95-122 | a pair passes exactly when the lines are equal, or both are decimal lines whose values are equal, or whose values compare unequal but are as many and close; it raises exactly when, on two different decimal lines, `==` on the value lists raises, or it answers no and the tolerance check raises something other than `ValueError` or `ImportError`; the exception is the one from whichever of the two raised |
| `CodeOutputComparison.ScanMeaning` | app/code_output_comparison.py:94-125 | the loop runs to completion exactly when every pair of lines agrees |
| `CodeOutputComparison.ScanFrom` | app/code_output_comparison.py:94-122 | the loop completes exactly when every pair passes; otherwise it stops at an index whose pair fails or raises, and every earlier pair passed |
| `CodeOutputComparison.ScanLines` | app/code_output_comparison.py:94-125 | the `while` loop gives the same result as `ScanFrom`: all pairs pass, or it stops at the first pair that does not |
| `CodeOutputComparison.LineCountMessage` | app/code_output_comparison.py:91 | the line-count message starts with "Wrong answer: mismatched output length. Expected " and ends with " lines" |
| `CodeOutputComparison.LineCountMessageNamesCounts` | app/code_output_comparison.py:91 | equal line-count messages report the same expected and actual counts |
| `CodeOutputComparison.LineMismatchMessage` | app/code_output_comparison.py:119-122 | the mismatch message starts with "Wrong answer at line " and ends with the truncated expected line |
| `CodeOutputComparison.LineMismatchMessageNamesLine` | app/code_output_comparison.py:119-122 | equal mismatch messages name the same line index |
| `CodeOutputComparison.LineByLine` | app/code_output_comparison.py:85-125 | the line strategy matches exactly when the line counts agree and every pair passes; a match has an empty message and a mismatch does not; it raises only when the line counts agree |
| `CodeOutputComparison.TryJsonComparison` | app/code_output_comparison.py:30-58 | matches exactly when both trimmed texts parse and the values are equal; the message is empty exactly on a match |
| `CodeOutputComparison.EnhancedOutputComparison` | app/code_output_comparison.py:61-131 | equal trimmed texts match; so do equal JSON values; otherwise the line strategy decides, and an exception gives a mismatch carrying the exception's text; a match has an empty message and a mismatch never does |
| `ComparisonProperties.IgnoresSurroundingWhitespace` | app/code_output_comparison.py:73-77 | the same text with any whitespace added at either end of either output matches with an empty message; so every output matches itself and its padded copies |
| `ComparisonProperties.ScanStopsAt` | app/code_output_comparison.py:94-122 | if every pair before `i` passes and pair `i` does not, the loop stops at `i` |
| `ComparisonProperties.ScanSelf` | app/code_output_comparison.py:94-97 | a list of lines scanned against itself passes every pair |
| `ComparisonProperties.MatchedExactly` | app/code_output_comparison.py:72-125 | the comparison matches exactly when the trimmed texts are equal, or they are equal JSON values, or the line counts agree and every pair of lines passes |
| `ComparisonProperties.LineCountMismatch` | app/code_output_comparison.py:89-91 | without an exact or JSON match, different line counts give a mismatch whose message reports the expected and actual counts |
| `ComparisonProperties.FirstDisagreeingLine` | app/code_output_comparison.py:93-131 | when pair `i` is the first that does not pass, the message names line `i` and both truncated lines; if that pair raised, the fallback mismatch carrying that pair's exception is reported instead |
| `ComparisonProperties.FallbackNeverMatches` | app/code_output_comparison.py:127-131 | the line strategy raises only on outputs whose trimmed texts differ; so when it raises and there is no JSON match, the fallback reports a mismatch carrying the exception's text, never a match |
| `ComparisonProperties.EmptyLinesKept` | app/code_output_comparison.py:24-27 | `"a\n\nb"` gives the lines `a`, an empty line, and `b` |
| `ComparisonProperties.ExampleLineCount` | app/code_output_comparison.py:89-91 | two lines against three fail with "Expected 3 lines, got 2 lines" |
| `ComparisonProperties.LineCountMessageExample` | app/code_output_comparison.py:91 | the line-count message for 3 expected and 2 actual lines, spelled out |
| `ComparisonProperties.ExampleWrongWord` | app/code_output_comparison.py:119-122 | `abc` against `abd` fails at line 0, with both lines shown in full |
| `ComparisonProperties.WordPairMismatch` | app/code_output_comparison.py:93-122 | two different one-word outputs, the first neither JSON nor a decimal, fail at line 0 with the mismatch message for those two lines |
| `ComparisonProperties.LineMismatchMessageExample` | app/code_output_comparison.py:119 | the mismatch message for line 0 with `abc` and `abd`, spelled out |
| `ComparisonProperties.ExampleSignallingNaN` | app/code_output_comparison.py:103-131 | `snan` against `sNaN`: when `==` on the two decimal values raises, that exception leaves the line loop and the fallback reports a mismatch with its text |
| `ComparisonProperties.SignalledWordPair` | app/code_output_comparison.py:101-131 | two different one-word outputs, the first not JSON, whose decimal values raise on `==` give the fallback mismatch carrying that exception |
| `ComparisonProperties.SignalledPair` | app/code_output_comparison.py:101-105 | two different one-token decimal lines whose values raise on `==` make the loop body raise that exception |

## Left out

- The `logger.warning` call in the exception fallback is not modelled. It is a logging side effect, so the `logger` parameter is dropped.
- `json.loads`, Python's deep `==` on parsed values, and `str` of a parsed value are the functions `jsonLoads`, `jsonEq` and `jsonStr` of `Runtime.Host`. They are foreign code, and every property holds whatever they do.
- Exceptions from `json.loads` or the tuple conversion other than `ValueError`, such as `RecursionError` on deeply nested input, are not modelled. `try_json_comparison` is called outside the `try` block, so such an exception would leave `enhanced_output_comparison` altogether.
- The tuple-to-list conversion in `try_json_comparison` is not modelled. `json.loads` never returns tuples, so the conversion is the identity on the values it returns. Being recursive (lines 43-49), it can raise `RecursionError` on deeply nested input, which the previous line covers.
- The decimal literal grammar of `Decimal(...)` and `==` on two decimals are the functions `decimal` and `decimalEq` of `Runtime.Host`. `decimalEq` gives the answer or the exception raised, such as `InvalidOperation` for a signalling NaN. List `==` over them is modelled (`CodeOutputComparison.DecimalListEq`).
- `float(...)` conversion and `numpy.allclose` are the function `allClose` of `Runtime.Host`. Its result says whether the lists are close, whether `ValueError` or `ImportError` was raised, or whether some other exception was raised. The model consults it only when both lists have the same length, as the short-circuit at line 114 does. Conversion raising when the lengths differ gives the same verdict, a mismatch.
- The wording of a caught exception is the text carried by `Runtime.Exception`. Inside the line strategy, both `==` on the decimal lists (line 105) and the tolerance check can raise one.
- Python's Unicode whitespace class is the predicate `isSpace` of `Runtime.Host`. `strip()` and `split()` both use it.
- `truncate_output` converts a non-string argument with `str`. Every caller here passes a string (JSON values go through `jsonStr` first), so the model takes a string.
