/** The few operations of Python's `str` type that the comparator relies on:
    `strip()`, `split()`, `split(sep)`, slicing with possibly negative bounds,
    and `str(n)` for a natural number. What counts as whitespace is left to
    the caller as a character predicate `isSpace` (Python's `str.isspace`). */
module PyStr {

  /** Every character of `w` is whitespace. */
  predicate AllSpace(isSpace: char -> bool, w: string) {
    forall k :: 0 <= k < |w| ==> isSpace(w[k])
  }

  /** `t` neither starts nor ends with whitespace. */
  predicate Trimmed(isSpace: char -> bool, t: string) {
    t == [] || (!isSpace(t[0]) && !isSpace(t[|t| - 1]))
  }

  /** Number of whitespace characters at the head of `s`. */
  function LeadingSpaces(isSpace: char -> bool, s: string): (n: nat)
    ensures n <= |s|
    ensures forall k :: 0 <= k < n ==> isSpace(s[k])
    ensures n == |s| || !isSpace(s[n])
  {
    if s == [] || !isSpace(s[0]) then 0 else 1 + LeadingSpaces(isSpace, s[1..])
  }

  /** Number of whitespace characters at the tail of `s`. */
  function TrailingSpaces(isSpace: char -> bool, s: string): (n: nat)
    ensures n <= |s|
    ensures forall k :: |s| - n <= k < |s| ==> isSpace(s[k])
    ensures n == |s| || !isSpace(s[|s| - 1 - n])
  {
    if s == [] || !isSpace(s[|s| - 1]) then 0 else 1 + TrailingSpaces(isSpace, s[..|s| - 1])
  }

  /** Python's `s.strip()`: the text between the first and the last
      non-whitespace character. */
  function Strip(isSpace: char -> bool, s: string): (r: string)
    ensures Trimmed(isSpace, r)
    ensures |r| <= |s|
    ensures forall c :: c in r ==> c in s
  {
    var i := LeadingSpaces(isSpace, s);
    var j := |s| - TrailingSpaces(isSpace, s);
    if j <= i then [] else s[i..j]
  }

  /** `Strip` removes only whitespace, and only at the two ends. */
  lemma {:induction false} StripDecompose(isSpace: char -> bool, s: string) returns (lead: string, trail: string)
    ensures s == lead + Strip(isSpace, s) + trail
    ensures AllSpace(isSpace, lead) && AllSpace(isSpace, trail)
  {
    var i := LeadingSpaces(isSpace, s);
    var j := |s| - TrailingSpaces(isSpace, s);
    if j <= i {
      lead, trail := s, [];
      assert i == |s|;
      assert s + [] + [] == s;
    } else {
      lead, trail := s[..i], s[j..];
      assert s == s[..i] + s[i..j] + s[j..];
    }
  }

  /** A trimmed text padded with whitespace on both sides strips back to itself. */
  lemma {:induction false} StripPadded(isSpace: char -> bool, lead: string, t: string, trail: string)
    requires AllSpace(isSpace, lead) && AllSpace(isSpace, trail) && Trimmed(isSpace, t)
    ensures Strip(isSpace, lead + t + trail) == t
  {
    var s := lead + t + trail;
    LeadingPadded(isSpace, lead, t + trail);
    assert s == lead + (t + trail);
    if t == [] {
      assert s == lead + trail;
    } else {
      TrailingPadded(isSpace, lead + t, trail);
      assert s[|lead|..|s| - |trail|] == t;
    }
  }

  lemma {:induction false} LeadingPadded(isSpace: char -> bool, lead: string, u: string)
    requires AllSpace(isSpace, lead)
    ensures LeadingSpaces(isSpace, lead + u) == |lead| + LeadingSpaces(isSpace, u)
  {
    if lead != [] {
      assert (lead + u)[1..] == lead[1..] + u;
      LeadingPadded(isSpace, lead[1..], u);
    } else {
      assert lead + u == u;
    }
  }

  lemma {:induction false} TrailingPadded(isSpace: char -> bool, u: string, trail: string)
    requires AllSpace(isSpace, trail) && (u == [] || !isSpace(u[|u| - 1]))
    ensures TrailingSpaces(isSpace, u + trail) == |trail|
  {
    var s := u + trail;
    if trail != [] {
      assert s[..|s| - 1] == u + trail[..|trail| - 1];
      TrailingPadded(isSpace, u, trail[..|trail| - 1]);
    } else {
      assert s == u;
    }
  }

  /** `strip()` is insensitive to extra whitespace at either end. */
  lemma {:induction false} StripIgnoresPadding(isSpace: char -> bool, lead: string, s: string, trail: string)
    requires AllSpace(isSpace, lead) && AllSpace(isSpace, trail)
    ensures Strip(isSpace, lead + s + trail) == Strip(isSpace, s)
  {
    var l, r := StripDecompose(isSpace, s);
    var t := Strip(isSpace, s);
    Regroup(lead, l, t, r, trail);
    AllSpaceAppend(isSpace, lead, l);
    AllSpaceAppend(isSpace, r, trail);
    StripPadded(isSpace, lead + l, t, r + trail);
  }

  /** `strip()` leaves a trimmed text alone; in particular it is idempotent. */
  lemma {:induction false} StripTrimmed(isSpace: char -> bool, t: string)
    requires Trimmed(isSpace, t)
    ensures Strip(isSpace, t) == t
  {
    StripPadded(isSpace, [], t, []);
    assert [] + t + [] == t;
  }

  lemma {:induction false} Regroup(a: string, b: string, c: string, d: string, e: string)
    ensures a + (b + c + d) + e == (a + b) + c + (d + e)
  {
  }

  lemma {:induction false} AllSpaceAppend(isSpace: char -> bool, a: string, b: string)
    requires AllSpace(isSpace, a) && AllSpace(isSpace, b)
    ensures AllSpace(isSpace, a + b)
  {
  }

  /** Number of occurrences of `c` in `s`. */
  function Count(c: char, s: string): nat {
    if s == [] then 0 else (if s[0] == c then 1 else 0) + Count(c, s[1..])
  }

  /** Python's `s.split(c)` for a one-character separator: the pieces between
      separators, empty ones included, so there is always at least one. */
  function Split(s: string, c: char): (r: seq<string>)
    ensures |r| == Count(c, s) + 1
    ensures forall k :: 0 <= k < |r| ==> c !in r[k]
  {
    if s == [] then [""]
    else
      var rest := Split(s[1..], c);
      if s[0] == c then [""] + rest else [[s[0]] + rest[0]] + rest[1..]
  }

  /** Python's `c.join(parts)`, the inverse of `Split`. */
  function Join(parts: seq<string>, c: char): string
    requires |parts| >= 1
  {
    if |parts| == 1 then parts[0] else parts[0] + [c] + Join(parts[1..], c)
  }

  lemma {:induction false} JoinSplit(s: string, c: char)
    ensures Join(Split(s, c), c) == s
  {
    if s != [] {
      var rest := Split(s[1..], c);
      JoinSplit(s[1..], c);
      if s[0] == c {
        assert ([""] + rest)[1..] == rest;
      } else {
        var r := [[s[0]] + rest[0]] + rest[1..];
        if |rest| > 1 {
          assert r[1..] == rest[1..];
          assert Join(rest, c) == rest[0] + [c] + Join(rest[1..], c);
        }
      }
    }
  }

  lemma {:induction false} SplitJoin(parts: seq<string>, c: char)
    requires |parts| >= 1
    requires forall k :: 0 <= k < |parts| ==> c !in parts[k]
    ensures Split(Join(parts, c), c) == parts
  {
    if |parts| == 1 {
      SplitNoSeparator(parts[0], c);
    } else {
      SplitJoin(parts[1..], c);
      SplitAfter(parts[0], Join(parts[1..], c), c);
      assert [parts[0]] + parts[1..] == parts;
    }
  }

  lemma {:induction false} SplitNoSeparator(s: string, c: char)
    requires c !in s
    ensures Split(s, c) == [s]
  {
    if s != [] {
      assert c !in s[1..] by { assert forall k :: 0 <= k < |s| - 1 ==> s[1..][k] == s[k + 1]; }
      SplitNoSeparator(s[1..], c);
      assert [s[0]] + s[1..] == s;
    }
  }

  lemma {:induction false} SplitAfter(a: string, b: string, c: char)
    requires c !in a
    ensures Split(a + [c] + b, c) == [a] + Split(b, c)
  {
    if a == [] {
      assert (a + [c] + b)[1..] == b;
    } else {
      var s := a + [c] + b;
      assert s[1..] == a[1..] + [c] + b;
      assert c !in a[1..] by { assert forall k :: 0 <= k < |a| - 1 ==> a[1..][k] == a[k + 1]; }
      SplitAfter(a[1..], b, c);
      assert [a[0]] + a[1..] == a;
    }
  }

  /** No character of `w` is whitespace. */
  predicate NoSpace(isSpace: char -> bool, w: string) {
    forall k :: 0 <= k < |w| ==> !isSpace(w[k])
  }

  /** `s` cut at every whitespace character: the pieces between them, empty
      ones included, so there is always at least one. */
  function Fields(isSpace: char -> bool, s: string): (r: seq<string>)
    ensures |r| >= 1
    ensures forall k :: 0 <= k < |r| ==> NoSpace(isSpace, r[k])
  {
    if s == [] then [""]
    else
      var rest := Fields(isSpace, s[1..]);
      if isSpace(s[0]) then [""] + rest
      else
        var w := [s[0]] + rest[0];
        assert NoSpace(isSpace, w) by {
          assert forall j :: 1 <= j < |w| ==> w[j] == rest[0][j - 1];
        }
        [w] + rest[1..]
  }

  /** The non-empty strings of `ws`, in order. */
  function NonEmpty(ws: seq<string>): (r: seq<string>)
    ensures forall k :: 0 <= k < |r| ==> r[k] != [] && r[k] in ws
  {
    if ws == [] then []
    else (if ws[0] == [] then [] else [ws[0]]) + NonEmpty(ws[1..])
  }

  /** Python's `s.split()` with no argument: runs of whitespace separate the
      words and whitespace at either end yields none, which is `s` cut at
      every whitespace character with the empty pieces dropped. */
  function Words(isSpace: char -> bool, s: string): (r: seq<string>)
    ensures forall k :: 0 <= k < |r| ==> r[k] != [] && NoSpace(isSpace, r[k])
  {
    NonEmpty(Fields(isSpace, s))
  }

  /** `s` with every whitespace character removed. */
  function Squeeze(isSpace: char -> bool, s: string): string {
    if s == [] then [] else (if isSpace(s[0]) then [] else [s[0]]) + Squeeze(isSpace, s[1..])
  }

  /** Concatenation of a sequence of strings. */
  function Concat(ws: seq<string>): string {
    if ws == [] then [] else ws[0] + Concat(ws[1..])
  }

  /** The words of `s`, put together, are exactly its non-whitespace characters
      in order. */
  lemma {:induction false} WordsCover(isSpace: char -> bool, s: string)
    ensures Concat(Words(isSpace, s)) == Squeeze(isSpace, s)
  {
    ConcatNonEmpty(Fields(isSpace, s));
    FieldsCover(isSpace, s);
  }

  lemma {:induction false} FieldsCover(isSpace: char -> bool, s: string)
    ensures Concat(Fields(isSpace, s)) == Squeeze(isSpace, s)
  {
    if s != [] {
      var rest := Fields(isSpace, s[1..]);
      FieldsCover(isSpace, s[1..]);
      assert Concat(rest) == rest[0] + Concat(rest[1..]);
      if isSpace(s[0]) {
        assert ([""] + rest)[1..] == rest;
      } else {
        var r := [[s[0]] + rest[0]] + rest[1..];
        assert r[1..] == rest[1..];
        assert Concat(r) == [s[0]] + rest[0] + Concat(rest[1..]);
      }
    }
  }

  lemma {:induction false} ConcatNonEmpty(ws: seq<string>)
    ensures Concat(NonEmpty(ws)) == Concat(ws)
  {
    if ws != [] {
      ConcatNonEmpty(ws[1..]);
      if ws[0] != [] {
        assert ([ws[0]] + NonEmpty(ws[1..]))[1..] == NonEmpty(ws[1..]);
      } else {
        assert [] + NonEmpty(ws[1..]) == NonEmpty(ws[1..]);
      }
    }
  }

  /** A single run of non-whitespace characters is one word. */
  lemma {:induction false} WordsOfWord(isSpace: char -> bool, w: string)
    requires w != [] && NoSpace(isSpace, w)
    ensures Words(isSpace, w) == [w]
  {
    FieldsOfWord(isSpace, w);
    assert NonEmpty([w]) == [w] + NonEmpty([]);
  }

  lemma {:induction false} FieldsOfWord(isSpace: char -> bool, w: string)
    requires NoSpace(isSpace, w)
    ensures Fields(isSpace, w) == [w]
  {
    if w != [] {
      assert NoSpace(isSpace, w[1..]) by {
        assert forall k :: 0 <= k < |w| - 1 ==> w[1..][k] == w[k + 1];
      }
      FieldsOfWord(isSpace, w[1..]);
      assert [w[0]] + w[1..] == w;
    }
  }

  /** A whitespace character always separates words: the words of
      `a + [c] + b` are the words of `a` followed by the words of `b`. */
  lemma {:induction false} WordsAtSpace(isSpace: char -> bool, a: string, c: char, b: string)
    requires isSpace(c)
    ensures Words(isSpace, a + [c] + b) == Words(isSpace, a) + Words(isSpace, b)
  {
    FieldsAtSpace(isSpace, a, c, b);
    NonEmptyAppend(Fields(isSpace, a), Fields(isSpace, b));
  }

  lemma {:induction false} FieldsAtSpace(isSpace: char -> bool, a: string, c: char, b: string)
    requires isSpace(c)
    ensures Fields(isSpace, a + [c] + b) == Fields(isSpace, a) + Fields(isSpace, b)
  {
    var s := a + [c] + b;
    if a == [] {
      assert s[1..] == b;
    } else {
      assert s[1..] == a[1..] + [c] + b;
      FieldsAtSpace(isSpace, a[1..], c, b);
      var fa, fb := Fields(isSpace, a[1..]), Fields(isSpace, b);
      if isSpace(a[0]) {
        assert Fields(isSpace, s) == [""] + (fa + fb);
      } else {
        assert (fa + fb)[0] == fa[0];
        assert (fa + fb)[1..] == fa[1..] + fb;
      }
    }
  }

  lemma {:induction false} NonEmptyAppend(xs: seq<string>, ys: seq<string>)
    ensures NonEmpty(xs + ys) == NonEmpty(xs) + NonEmpty(ys)
  {
    if xs == [] {
      assert xs + ys == ys;
    } else {
      assert (xs + ys)[0] == xs[0];
      assert (xs + ys)[1..] == xs[1..] + ys;
      NonEmptyAppend(xs[1..], ys);
    }
  }

  /** A text has no words precisely when it is blank. */
  lemma {:induction false} WordsBlank(isSpace: char -> bool, s: string)
    ensures Words(isSpace, s) == [] <==> AllSpace(isSpace, s)
  {
    WordsCover(isSpace, s);
    if Words(isSpace, s) == [] {
      SqueezeBlank(isSpace, s);
    }
    if AllSpace(isSpace, s) {
      SqueezeSpace(isSpace, s);
      if Words(isSpace, s) != [] {
        assert false;
      }
    }
  }

  lemma {:induction false} SqueezeSpace(isSpace: char -> bool, w: string)
    requires AllSpace(isSpace, w)
    ensures Squeeze(isSpace, w) == []
  {
    if w != [] {
      SqueezeSpace(isSpace, w[1..]);
    }
  }

  lemma {:induction false} SqueezeBlank(isSpace: char -> bool, w: string)
    requires Squeeze(isSpace, w) == []
    ensures AllSpace(isSpace, w)
  {
    if w != [] {
      SqueezeBlank(isSpace, w[1..]);
      assert forall k :: 1 <= k < |w| ==> w[k] == w[1..][k - 1];
    }
  }

  /** Python's slice `s[:i]`: a negative bound counts from the end, and the
      bound is clamped to the string. The result is a prefix of `s`. */
  function SliceTo(s: string, i: int): (r: string)
    ensures |r| <= |s| && r == s[..|r|]
    ensures 0 <= i <= |s| ==> |r| == i
    ensures i < 0 <= |s| + i ==> |r| == |s| + i
    ensures i > |s| ==> r == s
    ensures |s| + i < 0 ==> r == []
  {
    s[..Clamp(|s|, i)]
  }

  /** Python's slice `s[i:]`, with the same reading of `i` as `SliceTo`. The
      result is a suffix of `s`. */
  function SliceFrom(s: string, i: int): (r: string)
    ensures |r| <= |s| && r == s[|s| - |r|..]
    ensures 0 <= i <= |s| ==> |r| == |s| - i
    ensures i < 0 <= |s| + i ==> |r| == -i
    ensures i > |s| ==> r == []
    ensures |s| + i < 0 ==> r == s
  {
    s[Clamp(|s|, i)..]
  }

  /** The two slices at the same bound split the string. */
  lemma {:induction false} SliceSplit(s: string, i: int)
    ensures SliceTo(s, i) + SliceFrom(s, i) == s
  {
    var k := Clamp(|s|, i);
    assert s[..k] + s[k..] == s;
  }

  /** Where Python places a slice bound `i` in a sequence of length `n`: a
      negative bound counts back from the end, and a bound outside the
      sequence is moved to its nearer end. */
  function Clamp(n: nat, i: int): (k: nat)
    ensures k <= n
    ensures 0 <= i <= n ==> k == i
    ensures i < 0 <= n + i ==> k == n + i
    ensures i > n ==> k == n
    ensures n + i < 0 ==> k == 0
  {
    if i < 0 then (if n + i < 0 then 0 else n + i) else if i > n then n else i
  }

  function Digit(d: nat): char
    requires d < 10
  {
    "0123456789"[d]
  }

  /** Python's `str(n)` for a natural number: its decimal digits, most
      significant first, without leading zeros. */
  function NatToString(n: nat): (r: string)
    ensures |r| >= 1 && (forall k :: 0 <= k < |r| ==> '0' <= r[k] <= '9')
    ensures |r| > 1 ==> r[0] != '0'
  {
    if n < 10 then [Digit(n)] else NatToString(n / 10) + [Digit(n % 10)]
  }

  /** The number a string of decimal digits denotes. */
  function DigitsValue(s: string): nat
    requires forall k :: 0 <= k < |s| ==> '0' <= s[k] <= '9'
  {
    if s == [] then 0 else 10 * DigitsValue(s[..|s| - 1]) + (s[|s| - 1] - '0') as nat
  }

  /** `NatToString` names the number it was given. */
  lemma {:induction false} NatToStringValue(n: nat)
    ensures DigitsValue(NatToString(n)) == n
  {
    var r := NatToString(n);
    if n < 10 {
      assert r == [Digit(n)];
      assert r[..0] == [];
      DigitValue(n);
    } else {
      var q := NatToString(n / 10);
      NatToStringValue(n / 10);
      assert r == q + [Digit(n % 10)];
      assert r[..|r| - 1] == q;
      assert r[|r| - 1] == Digit(n % 10);
      DigitValue(n % 10);
    }
  }

  /** `str(n)` is never followed by a digit in a longer text, so the number
      can be read back from the front of that text. */
  lemma {:induction false} NatToStringPrefix(m: nat, n: nat, t1: string, t2: string)
    requires t1 != [] && !('0' <= t1[0] <= '9')
    requires t2 != [] && !('0' <= t2[0] <= '9')
    requires NatToString(m) + t1 == NatToString(n) + t2
    ensures m == n && t1 == t2
  {
    var x, y := NatToString(m), NatToString(n);
    HeadAfter(x, t1);
    HeadAfter(y, t2);
    if |x| < |y| {
      assert false;
    }
    if |y| < |x| {
      assert false;
    }
    assert x == (x + t1)[..|x|] == (y + t2)[..|y|] == y;
    assert t1 == (x + t1)[|x|..] == (y + t2)[|y|..] == t2;
    NatToStringValue(m);
    NatToStringValue(n);
  }

  lemma {:induction false} DropPrefix(p: string, u: string, v: string)
    requires p + u == p + v
    ensures u == v
  {
    assert u == (p + u)[|p|..];
    assert v == (p + v)[|p|..];
  }

  lemma {:induction false} HeadAfter(x: string, t: string)
    ensures t != [] ==> (x + t)[|x|] == t[0]
  {
  }

  lemma {:induction false} DigitValue(d: nat)
    requires d < 10
    ensures (Digit(d) - '0') as nat == d
  {
  }
}
