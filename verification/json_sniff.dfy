/** The JSON heuristic of `readFromInputChannels` (lib/cli-shell.js:119-121).

    Three global regular-expression replacements run in turn, each modelled as
    a left-to-right scan that replaces non-overlapping matches and copies
    every other character:
      1. `/\\["\\\/bfnrtu]/g`      -> `@`   (`EscapePass`)
      2. `/"[^"\\\n\r]*"|true|false|null|-?\d+(?:\.\d*)?(?:[eE][+\-]?\d+)?/g`
                                   -> `]`   (`LiteralPass`)
      3. `/(?:^|:|,)(?:\s*\[)+/g`  -> ``    (`BracketPass`)
    and the text left over is tested against `/^[\],:{}\s]*$/`.

    No alternative of any pattern matches the empty string and the
    alternatives of each pattern begin with different characters, so the
    first successful alternative at a position is the only one. Greedy
    quantifiers never give characters back, because everything after them
    is optional; only `-?` and `[+\-]?` are retracted, when no digit follows. */
module JsonSniff {
  import opened Wrappers
  import opened Strings

  /** JavaScript `\d`: ASCII digits only. */
  predicate IsDigit(c: char) {
    '0' <= c <= '9'
  }

  /** The letters that may follow a backslash in pass 1. */
  predicate IsEscapeLetter(c: char) {
    c in "\"\\/bfnrtu"
  }

  // ---------------------------------------------------------------- pass 1

  /** Pass 1: every backslash followed by an escape letter becomes `@`. No
      escape sequence is left afterwards, and text without a backslash is
      untouched. */
  function EscapePass(s: string): (r: string)
    ensures |r| <= |s|
    ensures '\\' !in s ==> r == s
    ensures |s| > 0 ==> |r| > 0 && (r[0] == '@' || r[0] == s[0])
    ensures forall i :: 0 <= i < |r| - 1 ==> !(r[i] == '\\' && IsEscapeLetter(r[i + 1]))
  {
    if |s| == 0 then ""
    else if |s| >= 2 && s[0] == '\\' && IsEscapeLetter(s[1]) then "@" + EscapePass(s[2..])
    else
      assert '\\' !in s ==> '\\' !in s[1..] by {
        if '\\' !in s { assert forall i :: 0 <= i < |s[1..]| ==> s[1..][i] == s[i + 1]; }
      }
      [s[0]] + EscapePass(s[1..])
  }

  // ---------------------------------------------------------------- pass 2

  /** Number of leading `\d` characters. */
  function DigitRun(s: string): (n: nat)
    ensures n <= |s|
    ensures forall i :: 0 <= i < n ==> IsDigit(s[i])
    ensures n < |s| ==> !IsDigit(s[n])
  {
    if |s| == 0 || !IsDigit(s[0]) then 0 else 1 + DigitRun(s[1..])
  }

  /** Characters allowed inside a quoted literal: `[^"\\\n\r]`. */
  predicate IsQuotedChar(c: char) {
    c != '"' && c != '\\' && c != '\n' && c != '\r'
  }

  /** Number of leading characters allowed inside a quoted literal. */
  function QuotedRun(s: string): (n: nat)
    ensures n <= |s|
    ensures forall i :: 0 <= i < n ==> IsQuotedChar(s[i])
    ensures n < |s| ==> !IsQuotedChar(s[n])
  {
    if |s| == 0 || !IsQuotedChar(s[0]) then 0 else 1 + QuotedRun(s[1..])
  }

  /** `s[..j + 1]` is a quoted literal: a `"` at 0 and at `j`, and only
      characters of `[^"\\\n\r]` between them. */
  predicate ClosedQuoteAt(s: string, j: int) {
    0 < j < |s| && s[0] == '"' && s[j] == '"' && forall i :: 0 < i < j ==> IsQuotedChar(s[i])
  }

  /** Length of a match of `"[^"\\\n\r]*"` at the front of `s`, or 0: the
      match is a quoted literal, and a quoted literal at the front is
      matched. */
  function QuotedLength(s: string): (n: nat)
    ensures n <= |s|
    ensures n > 0 ==> ClosedQuoteAt(s, n - 1)
    ensures forall j :: ClosedQuoteAt(s, j) ==> n == j + 1
  {
    if |s| == 0 || s[0] != '"' then 0
    else
      var m := QuotedRun(s[1..]);
      var k := 1 + m;
      assert forall i :: 0 < i < k ==> IsQuotedChar(s[i]) by {
        assert forall i :: 0 < i < k ==> s[i] == s[1..][i - 1];
      }
      assert k < |s| ==> s[1..][m] == s[k];
      assert forall j :: ClosedQuoteAt(s, j) ==> j == k;
      if k < |s| && s[k] == '"' then k + 1 else 0
  }

  /** Length of a match of `(?:[eE][+\-]?\d+)` at the front of `s`, or 0:
      `e` or `E`, an optional sign, and every digit that follows; that is,
      the longest prefix the optional exponent accepts. */
  function ExponentLength(s: string): (n: nat)
    ensures n <= |s|
    ensures ExponentIn(s, 0, n)
    ensures forall k :: n < k <= |s| ==> !ExponentIn(s, 0, k)
    ensures n > 0 ==> n >= 2 && (s[0] == 'e' || s[0] == 'E') && IsDigit(s[n - 1])
    ensures n > 0 ==> IsDigit(s[1]) || ((s[1] == '+' || s[1] == '-') && n >= 3)
    ensures n > 0 ==> forall i :: 2 <= i < n ==> IsDigit(s[i])
    ensures n > 0 ==> n == |s| || !IsDigit(s[n])
    ensures |s| >= 2 && (s[0] == 'e' || s[0] == 'E') && IsDigit(s[1]) ==> n > 0
    ensures (|s| >= 3 && (s[0] == 'e' || s[0] == 'E') && (s[1] == '+' || s[1] == '-')
             && IsDigit(s[2])) ==> n > 0
  {
    if |s| == 0 || !(s[0] == 'e' || s[0] == 'E') then 0
    else if |s| > 1 && (s[1] == '+' || s[1] == '-') then
      var d := DigitRun(s[2..]);
      DigitRunAt(s, 2);
      if d > 0 then 2 + d else 0
    else
      var d := DigitRun(s[1..]);
      DigitRunAt(s, 1);
      if d > 0 then 1 + d else 0
  }

  /** The digit run of a suffix, stated in the positions of the whole text. */
  lemma DigitRunAt(s: string, k: nat)
    requires k <= |s|
    ensures var d := DigitRun(s[k..]);
      && k + d <= |s|
      && (forall i :: k <= i < k + d ==> IsDigit(s[i]))
      && (k + d < |s| ==> !IsDigit(s[k + d]))
  {
    var d := DigitRun(s[k..]);
    assert forall i :: k <= i < k + d ==> s[i] == s[k..][i - k];
    assert k + d < |s| ==> s[k + d] == s[k..][d];
  }

  // ------------------------------------------------------ the number grammar

  /** Every character of `s[i..j]` is a digit. */
  predicate DigitsIn(s: string, i: int, j: int) {
    0 <= i <= j <= |s| && forall m :: i <= m < j ==> IsDigit(s[m])
  }

  /** `(?:\.\d*)?` accepts `s[i..j]`: nothing, or a `.` and digits. */
  predicate FractionIn(s: string, i: int, j: int) {
    0 <= i <= j <= |s| && (i == j || (s[i] == '.' && DigitsIn(s, i + 1, j)))
  }

  /** `(?:[eE][+\-]?\d+)?` accepts `s[i..j]`: nothing, or `e` or `E`, an
      optional sign and at least one digit. */
  predicate ExponentIn(s: string, i: int, j: int) {
    && 0 <= i <= j <= |s|
    && (i == j || (&& i + 2 <= j
                   && (s[i] == 'e' || s[i] == 'E')
                   && DigitsIn(s, i + 2, j)
                   && (IsDigit(s[i + 1]) || ((s[i + 1] == '+' || s[i + 1] == '-') && i + 3 <= j))))
  }

  /** `\d+(?:\.\d*)?(?:[eE][+\-]?\d+)?` accepts `s[i..k]`: digits, then a
      fraction, then an exponent. */
  predicate UnsignedIn(s: string, i: int, k: int) {
    exists a, b :: i < a <= b <= k && DigitsIn(s, i, a) && FractionIn(s, a, b) && ExponentIn(s, b, k)
  }

  /** `-?\d+(?:\.\d*)?(?:[eE][+\-]?\d+)?` accepts the prefix `s[..k]`. */
  predicate NumberIn(s: string, k: int) {
    UnsignedIn(s, 0, k) || (|s| > 0 && s[0] == '-' && UnsignedIn(s, 1, k))
  }

  /** What the unsigned number accepts begins with a digit. */
  lemma UnsignedInStartsWithDigit(s: string, i: int, k: int)
    requires UnsignedIn(s, i, k)
    ensures 0 <= i < k <= |s| && IsDigit(s[i])
  {
    var a, b :| i < a <= b <= k && DigitsIn(s, i, a) && FractionIn(s, a, b) && ExponentIn(s, b, k);
  }

  /** No number is accepted at a position that does not hold a digit. */
  lemma NoUnsignedAt(s: string, i: int)
    requires 0 <= i && (i >= |s| || !IsDigit(s[i]))
    ensures forall k :: !UnsignedIn(s, i, k)
  {
    forall k | UnsignedIn(s, i, k)
      ensures false
    {
      UnsignedInStartsWithDigit(s, i, k);
    }
  }

  /** Digits in a suffix are digits at the shifted positions of the whole
      text. */
  lemma DigitsShift(s: string, c: nat, i: int, j: int)
    requires c <= |s| && 0 <= i
    ensures DigitsIn(s[c..], i, j) <==> DigitsIn(s, c + i, c + j)
  {
    if i <= j <= |s| - c {
      if DigitsIn(s[c..], i, j) {
        forall m | c + i <= m < c + j
          ensures IsDigit(s[m])
        {
          assert s[m] == s[c..][m - c];
        }
      }
      if DigitsIn(s, c + i, c + j) {
        forall m | i <= m < j
          ensures IsDigit(s[c..][m])
        {
          assert s[c..][m] == s[c + m];
        }
      }
    }
  }

  /** A fraction in a suffix is a fraction at the shifted positions. */
  lemma FractionShift(s: string, c: nat, i: int, j: int)
    requires c <= |s| && 0 <= i
    ensures FractionIn(s[c..], i, j) <==> FractionIn(s, c + i, c + j)
  {
    DigitsShift(s, c, i + 1, j);
    if i < j <= |s| - c {
      assert s[c..][i] == s[c + i];
    }
  }

  /** An exponent in a suffix is an exponent at the shifted positions. */
  lemma ExponentShift(s: string, c: nat, i: int, j: int)
    requires c <= |s| && 0 <= i
    ensures ExponentIn(s[c..], i, j) <==> ExponentIn(s, c + i, c + j)
  {
    DigitsShift(s, c, i + 2, j);
    if i + 2 <= j <= |s| - c {
      assert s[c..][i] == s[c + i];
      assert s[c..][i + 1] == s[c + i + 1];
    }
  }

  /** An unsigned number in a suffix is one at the shifted positions. */
  lemma UnsignedShift(s: string, c: nat, j: int)
    requires c <= |s|
    ensures UnsignedIn(s[c..], 0, j) <==> UnsignedIn(s, c, c + j)
  {
    if UnsignedIn(s[c..], 0, j) {
      var a, b :| 0 < a <= b <= j && DigitsIn(s[c..], 0, a) && FractionIn(s[c..], a, b)
                  && ExponentIn(s[c..], b, j);
      DigitsShift(s, c, 0, a);
      FractionShift(s, c, a, b);
      ExponentShift(s, c, b, j);
      assert DigitsIn(s, c, c + a) && FractionIn(s, c + a, c + b) && ExponentIn(s, c + b, c + j);
    }
    if UnsignedIn(s, c, c + j) {
      var a, b :| c < a <= b <= c + j && DigitsIn(s, c, a) && FractionIn(s, a, b)
                  && ExponentIn(s, b, c + j);
      DigitsShift(s, c, 0, a - c);
      FractionShift(s, c, a - c, b - c);
      ExponentShift(s, c, b - c, j);
      assert DigitsIn(s[c..], 0, a - c) && FractionIn(s[c..], a - c, b - c)
             && ExponentIn(s[c..], b - c, j);
    }
  }

  /** Length of a match of `(?:\.\d*)?` at the front of `s`: a `.` and every
      digit after it, or nothing; that is, the longest prefix the optional
      fraction accepts. */
  function FractionLength(s: string): (n: nat)
    ensures n <= |s|
    ensures FractionIn(s, 0, n)
    ensures forall k :: n < k <= |s| ==> !FractionIn(s, 0, k)
    ensures n > 0 <==> |s| > 0 && s[0] == '.'
    ensures n > 0 ==> IsDigit(s[n - 1]) || s[n - 1] == '.'
    ensures n > 0 ==> n == |s| || !IsDigit(s[n])
  {
    if |s| > 0 && s[0] == '.' then
      var d := DigitRun(s[1..]);
      assert d > 0 ==> s[1..][d - 1] == s[d];
      assert 1 + d < |s| ==> s[1..][d] == s[1 + d];
      1 + d
    else 0
  }

  /** Length of a match of `\d+(?:\.\d*)?(?:[eE][+\-]?\d+)?` at the front of
      `s`, or 0: a match starts exactly at a digit, is the longest prefix the
      pattern accepts, and ends in a digit or a `.`. */
  function UnsignedLength(s: string): (n: nat)
    ensures n <= |s|
    ensures n > 0 ==> UnsignedIn(s, 0, n)
    ensures forall k :: n < k <= |s| ==> !UnsignedIn(s, 0, k)
    ensures n > 0 <==> |s| > 0 && IsDigit(s[0])
    ensures n > 0 ==> IsDigit(s[n - 1]) || s[n - 1] == '.'
    ensures n > 0 ==> n == |s| || !IsDigit(s[n])
  {
    var a := DigitRun(s);
    if a == 0 then
      NoUnsignedAt(s, 0);
      0
    else
      var b := a + FractionLength(s[a..]);
      var n := b + ExponentLength(s[b..]);
      UnsignedEnds(s, a, b, n);
      n
  }

  /** The digit run, the fraction after it and the exponent after that
      together make the unsigned-number match. */
  lemma UnsignedEnds(s: string, a: nat, b: nat, n: nat)
    requires a == DigitRun(s) && a > 0
    requires b == a + FractionLength(s[a..]) && b <= |s|
    requires n == b + ExponentLength(s[b..])
    ensures n <= |s| && IsDigit(s[0])
    ensures UnsignedIn(s, 0, n)
    ensures forall k :: n < k <= |s| ==> !UnsignedIn(s, 0, k)
    ensures IsDigit(s[n - 1]) || s[n - 1] == '.'
    ensures n == |s| || !IsDigit(s[n])
  {
    FractionAt(s, a);
    ExponentAt(s, b);
    UnsignedMatch(s, a, b, n);
  }

  /** Length of a match of `-?\d+(?:\.\d*)?(?:[eE][+\-]?\d+)?` at the front
      of `s`, or 0: a digit, or `-` and a digit, starts a match; the match is
      the longest prefix the pattern accepts and ends in a digit or a `.`. */
  function NumberLength(s: string): (n: nat)
    ensures n <= |s|
    ensures n > 0 ==> NumberIn(s, n)
    ensures forall k :: n < k <= |s| ==> !NumberIn(s, k)
    ensures n > 0 ==> IsDigit(s[0]) || (s[0] == '-' && n >= 2 && IsDigit(s[1]))
    ensures |s| > 0 && IsDigit(s[0]) ==> n > 0
    ensures |s| > 1 && s[0] == '-' && IsDigit(s[1]) ==> n > 0
    ensures n > 0 ==> IsDigit(s[n - 1]) || s[n - 1] == '.'
    ensures n > 0 ==> n == |s| || !IsDigit(s[n])
  {
    if |s| > 0 && s[0] == '-' then
      var m := UnsignedLength(s[1..]);
      assert m > 0 ==> s[m] == s[1..][m - 1] && s[1] == s[1..][0];
      assert m > 0 && 1 + m < |s| ==> s[1 + m] == s[1..][m];
      NumberAfterMinus(s, m);
      if m > 0 then 1 + m else 0
    else UnsignedLength(s)
  }

  /** After a `-`, the number match is the `-` and the longest unsigned
      number after it, or nothing when no unsigned number follows. */
  lemma NumberAfterMinus(s: string, m: nat)
    requires |s| > 0 && s[0] == '-' && m == UnsignedLength(s[1..])
    ensures m > 0 ==> NumberIn(s, 1 + m)
    ensures forall k :: (if m > 0 then 1 + m else 0) < k <= |s| ==> !NumberIn(s, k)
  {
    NoUnsignedAt(s, 0);
    UnsignedShift(s, 1, m);
    forall k | (if m > 0 then 1 + m else 0) < k <= |s|
      ensures !UnsignedIn(s, 1, k)
    {
      UnsignedShift(s, 1, k - 1);
      if k - 1 == 0 {
        NoUnsignedAt(s[1..], 0);
      }
    }
  }

  /** The fraction match of a suffix, stated in the positions of the whole
      text. */
  lemma FractionAt(s: string, a: nat)
    requires a <= |s|
    ensures var f := FractionLength(s[a..]);
      && a + f <= |s|
      && (f > 0 ==> IsDigit(s[a + f - 1]) || s[a + f - 1] == '.')
      && (f > 0 ==> a + f == |s| || !IsDigit(s[a + f]))
      && FractionIn(s, a, a + f)
      && (forall k :: a + f < k <= |s| ==> !FractionIn(s, a, k))
  {
    var f := FractionLength(s[a..]);
    assert f > 0 ==> s[a + f - 1] == s[a..][f - 1];
    assert f > 0 && a + f < |s| ==> s[a + f] == s[a..][f];
    FractionShift(s, a, 0, f);
    forall k | a + f < k <= |s|
      ensures !FractionIn(s, a, k)
    {
      FractionShift(s, a, 0, k - a);
    }
  }

  /** The exponent match of a suffix, stated in the positions of the whole
      text. */
  lemma ExponentAt(s: string, b: nat)
    requires b <= |s|
    ensures var e := ExponentLength(s[b..]);
      && b + e <= |s|
      && (e > 0 ==> IsDigit(s[b + e - 1]))
      && (e > 0 ==> b + e == |s| || !IsDigit(s[b + e]))
      && ExponentIn(s, b, b + e)
      && (forall k :: b + e < k <= |s| ==> !ExponentIn(s, b, k))
  {
    var e := ExponentLength(s[b..]);
    assert e > 0 ==> s[b + e - 1] == s[b..][e - 1];
    assert e > 0 && b + e < |s| ==> s[b + e] == s[b..][e];
    ExponentShift(s, b, 0, e);
    forall k | b + e < k <= |s|
      ensures !ExponentIn(s, b, k)
    {
      ExponentShift(s, b, 0, k - b);
    }
  }

  /** Any split of an unsigned number starts its fraction where the digit
      run ends. */
  lemma DigitRunSplit(s: string, a: nat, k: int, a2: int, b2: int)
    requires 0 < a < k <= |s| && DigitsIn(s, 0, a) && !IsDigit(s[a])
    requires 0 < a2 <= b2 <= k && DigitsIn(s, 0, a2) && FractionIn(s, a2, b2) && ExponentIn(s, b2, k)
    ensures a2 == a
  {
  }

  /** Any split of an unsigned number, once its digit run is fixed, starts
      its exponent where the longest fraction ends. */
  lemma FractionSplit(s: string, a: nat, b: nat, k: int, b2: int)
    requires a <= b < k <= |s|
    requires FractionIn(s, a, b) && forall j :: b < j <= |s| ==> !FractionIn(s, a, j)
    requires a <= b2 <= k && FractionIn(s, a, b2) && ExponentIn(s, b2, k)
    ensures b2 == b
  {
  }

  /** The longest digit run, then the longest fraction, then the longest
      exponent is the longest prefix the unsigned number accepts. */
  lemma UnsignedMatch(s: string, a: nat, b: nat, n: nat)
    requires 0 < a <= b <= n <= |s|
    requires DigitsIn(s, 0, a) && (a == |s| || !IsDigit(s[a]))
    requires FractionIn(s, a, b) && forall k :: b < k <= |s| ==> !FractionIn(s, a, k)
    requires ExponentIn(s, b, n) && forall k :: n < k <= |s| ==> !ExponentIn(s, b, k)
    ensures UnsignedIn(s, 0, n)
    ensures forall k :: n < k <= |s| ==> !UnsignedIn(s, 0, k)
  {
    assert DigitsIn(s, 0, a) && FractionIn(s, a, b) && ExponentIn(s, b, n);
    forall k | n < k <= |s|
      ensures !UnsignedIn(s, 0, k)
    {
      if UnsignedIn(s, 0, k) {
        var a2, b2 :| 0 < a2 <= b2 <= k && DigitsIn(s, 0, a2) && FractionIn(s, a2, b2)
                      && ExponentIn(s, b2, k);
        DigitRunSplit(s, a, k, a2, b2);
        FractionSplit(s, a, b, k, b2);
      }
    }
  }

  /** A run of digits that no `.`, `e` or `E` follows is matched whole. */
  lemma IntegerLength(s: string, k: nat)
    requires 0 < k <= |s| && forall i :: 0 <= i < k ==> IsDigit(s[i])
    requires k == |s| || (!IsDigit(s[k]) && s[k] != '.' && s[k] != 'e' && s[k] != 'E')
    ensures NumberLength(s) == k
  {
    assert s[0..] == s;
    assert DigitRun(s) == k;
    assert k < |s| ==> s[k..][0] == s[k];
  }

  /** Characters at which some alternative of pass 2 can begin. */
  predicate IsTokenStart(c: char) {
    c == '"' || c == 't' || c == 'f' || c == 'n' || c == '-' || IsDigit(c)
  }

  /** Length of the pass-2 match at the front of `s`, or 0: a quoted literal,
      `true`, `false`, `null` or a number, whichever begins there. */
  function TokenLength(s: string): (n: nat)
    ensures n <= |s|
    ensures n > 0 ==> IsTokenStart(s[0])
    ensures |s| > 0 && s[0] == '"' ==> n == QuotedLength(s)
    ensures |s| >= 4 && s[..4] == "true" ==> n == 4
    ensures |s| >= 5 && s[..5] == "false" ==> n == 5
    ensures |s| >= 4 && s[..4] == "null" ==> n == 4
    ensures n > 0 && (s[0] == 't' || s[0] == 'f' || s[0] == 'n') ==>
      s[..n] == "true" || s[..n] == "false" || s[..n] == "null"
    ensures |s| > 0 && (s[0] == '-' || IsDigit(s[0])) ==> n == NumberLength(s)
  {
    if QuotedLength(s) > 0 then QuotedLength(s)
    else if |s| >= 4 && s[..4] == "true" then 4
    else if |s| >= 5 && s[..5] == "false" then 5
    else if |s| >= 4 && s[..4] == "null" then 4
    else NumberLength(s)
  }

  /** Pass 2: every quoted literal, keyword and number becomes `]`; text in
      which no literal can begin is untouched. */
  function LiteralPass(s: string): (r: string)
    ensures |r| <= |s|
    ensures (forall i :: 0 <= i < |s| ==> !IsTokenStart(s[i])) ==> r == s
    decreases |s|
  {
    if |s| == 0 then ""
    else
      var n := TokenLength(s);
      assert (forall i :: 0 <= i < |s| ==> !IsTokenStart(s[i])) ==>
             forall i :: 0 <= i < |s| - 1 ==> !IsTokenStart(s[1..][i]) by {
        assert forall i :: 0 <= i < |s| - 1 ==> s[1..][i] == s[i + 1];
      }
      if n > 0 then "]" + LiteralPass(s[n..]) else [s[0]] + LiteralPass(s[1..])
  }

  // ---------------------------------------------------------------- pass 3

  /** The characters a run of `(?:\s*\[)+` is made of. */
  predicate IsRunChar(c: char) {
    IsJsSpace(c) || c == '['
  }

  /** Whitespace, then `[`, at the front of `s`: where `\s*\[` matches. */
  predicate SpacesThenBracket(s: string) {
    LeadingSpaceCount(s) < |s| && s[LeadingSpaceCount(s)] == '['
  }

  /** Length of the greedy match of `(?:\s*\[)+` at the front of `s`, or 0:
      whitespace then `[` starts a match, and the match ends at a `[` that
      no further whitespace-then-`[` follows. */
  function OpenBracketsLength(s: string): (n: nat)
    ensures n <= |s|
    ensures n > 0 <==> SpacesThenBracket(s)
    ensures forall i :: 0 <= i < n ==> IsRunChar(s[i])
    ensures n > 0 ==> s[n - 1] == '[' && !SpacesThenBracket(s[n..])
    decreases |s|
  {
    var w := LeadingSpaceCount(s);
    if w < |s| && s[w] == '[' then
      var m := OpenBracketsLength(s[w + 1..]);
      var n := w + 1 + m;
      OpenBracketsEnd(s, w, m, n);
      OpenBracketsChars(s, w, s[w + 1..], m, n);
      n
    else 0
  }

  /** A match that continues with `m` more characters after the `[` at `w`
      still ends at a `[` with no whitespace-then-`[` after it. */
  lemma OpenBracketsEnd(s: string, w: nat, m: nat, n: nat)
    requires w < |s| && s[w] == '[' && n == w + 1 + m && n <= |s|
    requires m == 0 ==> !SpacesThenBracket(s[w + 1..])
    requires m > 0 ==> s[w + 1..][m - 1] == '[' && !SpacesThenBracket(s[w + 1..][m..])
    ensures s[n - 1] == '[' && !SpacesThenBracket(s[n..])
  {
    DropDrop(s, w + 1, m);
  }

  /** Whitespace, the `[` at `w`, and a run after it are all run
      characters. */
  lemma OpenBracketsChars(s: string, w: nat, rest: string, m: nat, n: nat)
    requires w < |s| && s[w] == '[' && rest == s[w + 1..] && n == w + 1 + m && n <= |s|
    requires AllSpace(s[..w])
    requires forall i :: 0 <= i < m ==> IsRunChar(rest[i])
    ensures forall i :: 0 <= i < n ==> IsRunChar(s[i])
  {
    forall i | 0 <= i < n
      ensures IsRunChar(s[i])
    {
      if i < w {
        assert s[i] == s[..w][i];
      } else if i > w {
        assert s[i] == rest[i - w - 1];
      }
    }
  }

  /** Length of the pass-3 match at the front of `s`, or 0; `atStart` says
      whether `s` begins at the start of the whole input, the only place `^`
      matches. A run of `\s*[` at the start, or after a colon or a comma, is
      matched. */
  function OpenerLength(s: string, atStart: bool): (n: nat)
    ensures n <= |s|
    ensures n > 0 && !atStart ==> s[0] == ':' || s[0] == ','
    ensures n > 0 ==> s[n - 1] == '[' && !SpacesThenBracket(s[n..])
    ensures atStart && SpacesThenBracket(s) ==> n > 0
    ensures |s| > 0 && (s[0] == ':' || s[0] == ',') && SpacesThenBracket(s[1..]) ==> n > 0
    ensures n > 0 ==> (atStart && SpacesThenBracket(s))
                      || ((s[0] == ':' || s[0] == ',') && SpacesThenBracket(s[1..]))
    ensures n > 0 ==> IsRunChar(s[0]) || s[0] == ':' || s[0] == ','
    ensures forall i :: 1 <= i < n ==> IsRunChar(s[i])
  {
    var a := OpenBracketsLength(s);
    if atStart && a > 0 then a
    else if |s| > 0 && (s[0] == ':' || s[0] == ',') then SeparatorOpenerLength(s)
    else 0
  }

  /** Length of the pass-3 match at a colon or a comma: the separator and
      the bracket run after it, or 0 when no run follows. */
  function SeparatorOpenerLength(s: string): (n: nat)
    requires |s| > 0 && (s[0] == ':' || s[0] == ',')
    ensures n <= |s|
    ensures n > 0 <==> SpacesThenBracket(s[1..])
    ensures n > 0 ==> s[n - 1] == '[' && !SpacesThenBracket(s[n..])
    ensures forall i :: 1 <= i < n ==> IsRunChar(s[i])
  {
    var m := OpenBracketsLength(s[1..]);
    OpenerAfterSeparator(s, m);
    if m > 0 then 1 + m else 0
  }

  /** After a colon or a comma, the match is that character and the bracket
      run after it, or nothing. */
  lemma OpenerAfterSeparator(s: string, m: nat)
    requires |s| > 0 && m == OpenBracketsLength(s[1..])
    ensures 1 + m <= |s|
    ensures m > 0 <==> SpacesThenBracket(s[1..])
    ensures m > 0 ==> s[m] == '[' && !SpacesThenBracket(s[1 + m..])
    ensures forall i :: 1 <= i < 1 + m ==> IsRunChar(s[i])
  {
    assert m > 0 ==> s[1 + m..] == s[1..][m..] && s[m] == s[1..][m - 1];
    RunCharsAfterFirst(s, s[1..], m);
  }

  /** Run characters of the text after its first character are run
      characters of the text. */
  lemma RunCharsAfterFirst(s: string, rest: string, m: nat)
    requires |s| > 0 && rest == s[1..] && m <= |rest|
    requires forall i :: 0 <= i < m ==> IsRunChar(rest[i])
    ensures forall i :: 1 <= i < 1 + m ==> IsRunChar(s[i])
  {
    assert forall i :: 1 <= i < 1 + m ==> s[i] == rest[i - 1];
  }

  /** Pass 3: every run of opening brackets after the start, a colon or a
      comma is deleted together with what introduced it; away from the start,
      text without a colon or a comma is untouched. */
  function BracketPass(s: string, atStart: bool): (r: string)
    ensures |r| <= |s|
    ensures !atStart && ':' !in s && ',' !in s ==> r == s
    decreases |s|
  {
    if |s| == 0 then ""
    else
      var n := OpenerLength(s, atStart);
      assert ':' !in s && ',' !in s ==> ':' !in s[1..] && ',' !in s[1..] by {
        assert forall i :: 0 <= i < |s| - 1 ==> s[1..][i] == s[i + 1];
      }
      if n > 0 then BracketPass(s[n..], false) else [s[0]] + BracketPass(s[1..], false)
  }

  // ---------------------------------------------------------------- the test

  /** The characters `/^[\],:{}\s]*$/` accepts. */
  predicate IsStructural(c: char) {
    c == ']' || c == ',' || c == ':' || c == '{' || c == '}' || IsJsSpace(c)
  }

  /** The text left over after the three passes; each pass only replaces
      a match by something no longer, so the text never grows. */
  function Sanitize(text: string): (r: string)
    ensures |r| <= |text|
  {
    BracketPass(LiteralPass(EscapePass(text)), true)
  }

  predicate AllStructural(s: string) {
    forall i :: 0 <= i < |s| ==> IsStructural(s[i])
  }

  /** The JSON heuristic: the sanitised text is structural characters only. */
  predicate JsonLike(text: string) {
    AllStructural(Sanitize(text))
  }

  // ---------------------------------------------------------------- lemmas

  /** Pass 1 copies the first character when no escape sequence starts
      there: any character but a backslash, and a backslash that no escape
      letter follows. */
  lemma EscapePassStep(p: string, t: string)
    requires |p| > 0 && !(p[0] == '\\' && |p + t| >= 2 && IsEscapeLetter((p + t)[1]))
    ensures EscapePass(p + t) == [p[0]] + EscapePass(p[1..] + t)
  {
    var s := p + t;
    assert s[0] == p[0];
    assert s[1..] == p[1..] + t;
    assert EscapePass(s) == [s[0]] + EscapePass(s[1..]);
  }

  /** Pass 1 copies a prefix that holds no backslash. */
  lemma {:induction false} EscapePassCopies(p: string, t: string)
    requires '\\' !in p
    ensures EscapePass(p + t) == p + EscapePass(t)
    decreases |p|
  {
    if |p| == 0 {
      assert p + t == t;
    } else {
      EscapePassStep(p, t);
      EscapePassCopies(p[1..], t);
      ConsHeadTail(p, EscapePass(t));
    }
  }

  /** Pass 2 copies the first character when no literal matches there:
      any character that cannot begin one, and also a `"` that no closing
      quote follows, a `t`, `f` or `n` that begins no keyword, and a `-`
      that no digit follows. */
  lemma LiteralPassStep(p: string, t: string)
    requires |p| > 0 && TokenLength(p + t) == 0
    ensures LiteralPass(p + t) == [p[0]] + LiteralPass(p[1..] + t)
  {
    var s := p + t;
    assert s[0] == p[0];
    assert s[1..] == p[1..] + t;
  }

  /** Pass 2 copies a prefix in which no literal can begin. */
  lemma {:induction false} LiteralPassCopies(p: string, t: string)
    requires forall i :: 0 <= i < |p| ==> !IsTokenStart(p[i])
    ensures LiteralPass(p + t) == p + LiteralPass(t)
    decreases |p|
  {
    if |p| == 0 {
      assert p + t == t;
    } else {
      assert (p + t)[0] == p[0];
      LiteralPassStep(p, t);
      LiteralPassCopies(p[1..], t);
      ConsHeadTail(p, LiteralPass(t));
    }
  }

  /** Away from the start, pass 3 copies the first character when no match
      begins there: any character but a colon or a comma, and a colon or a
      comma that no whitespace-then-`[` follows. */
  lemma BracketPassStep(p: string, t: string)
    requires |p| > 0 && OpenerLength(p + t, false) == 0
    ensures BracketPass(p + t, false) == [p[0]] + BracketPass(p[1..] + t, false)
  {
    var s := p + t;
    assert s[0] == p[0];
    assert s[1..] == p[1..] + t;
  }

  /** Away from the start, pass 3 copies a prefix holding no colon or comma. */
  lemma {:induction false} BracketPassCopies(p: string, t: string)
    requires ':' !in p && ',' !in p
    ensures BracketPass(p + t, false) == p + BracketPass(t, false)
    decreases |p|
  {
    if |p| == 0 {
      assert p + t == t;
    } else {
      assert (p + t)[0] == p[0];
      BracketPassStep(p, t);
      BracketPassCopies(p[1..], t);
      ConsHeadTail(p, BracketPass(t, false));
    }
  }

  /** Pass 1 turns an escape sequence into `@`. */
  lemma EscapePassReplaces(c: char, t: string)
    requires IsEscapeLetter(c)
    ensures EscapePass(['\\', c] + t) == "@" + EscapePass(t)
  {
    assert (['\\', c] + t)[2..] == t;
  }

  /** Pass 1 copies a backslash that no escape letter follows. */
  lemma BackslashKept(c: char, t: string)
    requires !IsEscapeLetter(c)
    ensures EscapePass(['\\', c] + t) == "\\" + EscapePass([c] + t)
  {
    EscapePassStep(['\\', c], t);
    assert ['\\', c][1..] == [c];
  }

  /** Pass 2 turns the literal matched at the front into a single `]`. */
  lemma LiteralPassReplaces(p: string, t: string)
    requires |p| > 0 && TokenLength(p + t) == |p|
    ensures LiteralPass(p + t) == "]" + LiteralPass(t)
  {
    assert (p + t)[|p|..] == t;
  }

  /** A closed quoted literal at the front becomes `]`, whatever follows. */
  lemma QuotedLiteralReplaced(q: string, t: string)
    requires ClosedQuoteAt(q, |q| - 1)
    ensures LiteralPass(q + t) == "]" + LiteralPass(t)
  {
    var s := q + t;
    assert forall i :: 0 <= i < |q| ==> s[i] == q[i];
    assert ClosedQuoteAt(s, |q| - 1);
    LiteralPassReplaces(q, t);
  }

  /** `true`, `false` and `null` at the front become `]`, whatever follows:
      the pattern has no word boundary. */
  lemma KeywordReplaced(k: string, t: string)
    requires k == "true" || k == "false" || k == "null"
    ensures LiteralPass(k + t) == "]" + LiteralPass(t)
  {
    var s := k + t;
    assert s[..|k|] == k;
    assert s[0] == k[0];
    LiteralPassReplaces(k, t);
  }

  /** Away from the start, a colon or a comma followed by whitespace and `[`
      is deleted, provided no further whitespace-then-`[` follows. */
  lemma SeparatorBracketDeleted(sep: char, ws: string, t: string)
    requires sep == ':' || sep == ','
    requires AllSpace(ws) && !SpacesThenBracket(t)
    ensures BracketPass([sep] + ws + "[" + t, false) == BracketPass(t, false)
  {
    var s := [sep] + ws + "[" + t;
    var u := ws + ("[" + t);
    assert s[1..] == u;
    assert u[..|ws|] == ws;
    LeadingSpaceCountIs(u, |ws|);
    assert u[|ws| + 1..] == t;
    assert OpenBracketsLength(u) == |ws| + 1;
    assert s[|ws| + 2..] == t;
  }

  /** Away from the start, a colon or a comma that no whitespace-then-`[`
      follows is copied: `{"a":1}` keeps its colon. */
  lemma SeparatorKept(sep: char, t: string)
    requires sep == ':' || sep == ','
    requires !SpacesThenBracket(t)
    ensures BracketPass([sep] + t, false) == [sep] + BracketPass(t, false)
  {
    var s := [sep] + t;
    assert s[1..] == t;
    BracketPassStep([sep], t);
    assert [sep][1..] + t == t;
  }

  /** A whole run of `(?:\s*\[)+`: run characters ending in `[`. */
  predicate BracketRun(r: string) {
    |r| > 0 && r[|r| - 1] == '[' && forall i :: 0 <= i < |r| ==> IsRunChar(r[i])
  }

  /** Text that opens with run characters ending in `[` opens with
      whitespace-then-`[`. */
  lemma RunPrefixStartsRun(u: string, j: nat)
    requires 0 < j <= |u| && u[j - 1] == '['
    requires forall i :: 0 <= i < j ==> IsRunChar(u[i])
    ensures SpacesThenBracket(u)
  {
    var w := LeadingSpaceCount(u);
    assert w < j;
  }

  /** A whole bracket run that no further whitespace-then-`[` follows is
      exactly the `(?:\s*\[)+` match. */
  lemma OpenBracketsRun(r: string, t: string)
    requires BracketRun(r) && !SpacesThenBracket(t)
    ensures OpenBracketsLength(r + t) == |r|
  {
    var n := OpenBracketsLength(r + t);
    RunSuffixStartsRun(r, t, 0);
    assert (r + t)[0..] == r + t;
    if n < |r| {
      RunSuffixStartsRun(r, t, n);
    } else if n > |r| {
      RunThenPrefix(r, t, n);
    }
  }

  /** What follows any position inside a whole bracket run opens with
      whitespace-then-`[`. */
  lemma RunSuffixStartsRun(r: string, t: string, n: nat)
    requires BracketRun(r) && n < |r|
    ensures SpacesThenBracket((r + t)[n..])
  {
    var u := (r + t)[n..];
    assert forall i :: 0 <= i < |r| - n ==> u[i] == r[n + i];
    RunPrefixStartsRun(u, |r| - n);
  }

  /** A run of run characters ending in `[` that reaches past a text `r`
      makes the text after `r` open with whitespace-then-`[`. */
  lemma RunThenPrefix(r: string, t: string, n: nat)
    requires |r| < n <= |r| + |t| && (r + t)[n - 1] == '['
    requires forall i :: 0 <= i < n ==> IsRunChar((r + t)[i])
    ensures SpacesThenBracket(t)
  {
    var s := r + t;
    assert forall i :: 0 <= i < n - |r| ==> t[i] == s[|r| + i];
    RunPrefixStartsRun(t, n - |r|);
  }

  /** At the start of the input, a whole bracket run that no further
      whitespace-then-`[` follows is deleted: the `^` alternative. */
  lemma StartRunDeleted(r: string, t: string)
    requires BracketRun(r) && !SpacesThenBracket(t)
    ensures BracketPass(r + t, true) == BracketPass(t, false)
  {
    var s := r + t;
    OpenBracketsRun(r, t);
    assert OpenerLength(s, true) == |r|;
    assert s[|r|..] == t;
  }

  /** Away from the start, a colon or a comma and the whole bracket run
      after it are deleted together, however many brackets the run holds. */
  lemma SeparatorRunDeleted(sep: char, r: string, t: string)
    requires sep == ':' || sep == ','
    requires BracketRun(r) && !SpacesThenBracket(t)
    ensures BracketPass([sep] + r + t, false) == BracketPass(t, false)
  {
    var s := [sep] + r + t;
    assert s[1..] == r + t;
    OpenBracketsRun(r, t);
    assert OpenerLength(s, false) == 1 + |r|;
    assert s[1 + |r|..] == t;
  }

  /** No pass-3 match begins at a character other than whitespace, `[`, a
      colon or a comma. */
  lemma NoOpenerAt(s: string, atStart: bool)
    requires |s| > 0 && !IsJsSpace(s[0]) && s[0] != '[' && s[0] != ':' && s[0] != ','
    ensures OpenerLength(s, atStart) == 0
  {
    LeadingSpaceCountIs(s, 0);
  }

  /** At the start, pass 3 copies the first character when no match begins
      there. */
  lemma BracketPassStartStep(s: string)
    requires |s| > 0 && OpenerLength(s, true) == 0
    ensures BracketPass(s, true) == [s[0]] + BracketPass(s[1..], false)
  {
  }

  /** Blank text survives pass 3. */
  lemma BracketPassBlank(ws: string)
    requires AllSpace(ws)
    ensures BracketPass(ws, true) == ws
  {
    if |ws| > 0 {
      assert OpenBracketsLength(ws) == 0;
      BracketPassStartStep(ws);
      assert ws[1..] + "" == ws[1..];
      BracketPassCopies(ws[1..], "");
    }
  }

  /** Blank text followed by `<`: the prefix up to the first non-whitespace
      character of text that the XML test accepts. */
  predicate SpacesThenAngle(p: string) {
    |p| > 0 && AllSpace(p[..|p| - 1]) && p[|p| - 1] == '<'
  }

  /** No pass-3 match begins in text whose first non-whitespace character
      is `<`. */
  lemma NoOpenerBeforeAngle(s: string, k: nat)
    requires k < |s| && AllSpace(s[..k]) && s[k] == '<'
    ensures OpenerLength(s, true) == 0
  {
    LeadingSpaceCountIs(s, k);
    assert s[0] != ':' && s[0] != ',' by {
      if k > 0 {
        assert s[..k][0] == s[0];
      }
    }
  }

  /** Blank text followed by `<` holds no colon or comma. */
  lemma SpacesThenAngleHasNoSeparator(p: string)
    requires SpacesThenAngle(p)
    ensures ':' !in p && ',' !in p
  {
    assert forall i :: 0 <= i < |p| ==> p[i] == '<' || IsJsSpace(p[i]);
  }

  /** At the start, pass 3 copies the first character of blank text followed
      by `<`. */
  lemma BracketPassAngleStep(p: string, l: string)
    requires SpacesThenAngle(p)
    ensures BracketPass(p + l, true) == [p[0]] + BracketPass(p[1..] + l, false)
  {
    var s := p + l;
    var k := |p| - 1;
    assert s[..k] == p[..k];
    NoOpenerBeforeAngle(s, k);
    BracketPassStartStep(s);
    assert s[1..] == p[1..] + l;
  }

  /** At the start, pass 3 copies blank text followed by `<`. */
  lemma BracketPassAngle(p: string, l: string)
    requires SpacesThenAngle(p)
    ensures BracketPass(p + l, true) == p + BracketPass(l, false)
  {
    BracketPassAngleStep(p, l);
    SpacesThenAngleHasNoSeparator(p);
    BracketPassCopies(p[1..], l);
    ConsHeadTail(p, BracketPass(l, false));
  }

  /** A text made of whitespace survives all three passes unchanged. */
  lemma SanitizeKeepsBlank(ws: string)
    requires AllSpace(ws)
    ensures Sanitize(ws) == ws
  {
    assert ws + "" == ws;
    EscapePassCopies(ws, "");
    LiteralPassCopies(ws, "");
    BracketPassBlank(ws);
  }

  /** Blank text followed by `<` survives all three passes unchanged. */
  lemma SanitizeKeepsAngle(p: string, rest: string)
    requires SpacesThenAngle(p)
    ensures Sanitize(p + rest) == p + BracketPass(LiteralPass(EscapePass(rest)), false)
  {
    assert forall i :: 0 <= i < |p| ==> p[i] == '<' || IsJsSpace(p[i]);
    EscapePassCopies(p, rest);
    LiteralPassCopies(p, EscapePass(rest));
    BracketPassAngle(p, LiteralPass(EscapePass(rest)));
  }

  /** A character no pass touches when it opens the text: no escape, no
      literal and no bracket run begins with it. */
  predicate IsInert(c: char) {
    c != '\\' && !IsTokenStart(c) && !IsJsSpace(c) && c != '[' && c != ':' && c != ','
  }

  /** An inert first character is still the first character after all three
      passes. */
  lemma SanitizeKeepsInertStart(c: char, rest: string)
    requires IsInert(c)
    ensures |Sanitize([c] + rest)| > 0 && Sanitize([c] + rest)[0] == c
  {
    InertFirstPasses(c, rest);
    KeptFirstSurvives([c] + rest, c, LiteralPass(EscapePass(rest)));
  }

  /** Passes 1 and 2 copy an inert first character. */
  lemma InertFirstPasses(c: char, rest: string)
    requires IsInert(c)
    ensures LiteralPass(EscapePass([c] + rest)) == [c] + LiteralPass(EscapePass(rest))
  {
    assert [c][1..] + rest == rest;
    EscapePassStep([c], rest);
    var e := EscapePass(rest);
    assert ([c] + e)[0] == c;
    LiteralPassStep([c], e);
  }

  /** When passes 1 and 2 leave `c` first and pass 3 cannot match there, `c`
      is the first character of the sanitised text. */
  lemma KeptFirstSurvives(text: string, c: char, x: string)
    requires LiteralPass(EscapePass(text)) == [c] + x
    requires !IsJsSpace(c) && c != '[' && c != ':' && c != ','
    ensures |Sanitize(text)| > 0 && Sanitize(text)[0] == c
  {
    FirstKeptByBrackets(c, x);
  }

  /** `c0` and `c1` are the first two letters of `true`, `false` or
      `null`. */
  predicate StartsKeyword(c0: char, c1: char) {
    (c0 == 't' && c1 == 'r') || (c0 == 'f' && c1 == 'a') || (c0 == 'n' && c1 == 'u')
  }

  /** No literal matches at a `t`, `f` or `n` that does not go on into a
      keyword. */
  lemma NoKeywordAt(s: string)
    requires |s| >= 2 && (s[0] == 't' || s[0] == 'f' || s[0] == 'n') && !StartsKeyword(s[0], s[1])
    ensures TokenLength(s) == 0
  {
  }

  /** A `t`, `f` or `n` that does not go on into a keyword stays the first
      character after all three passes: a word such as `foo` is not a
      literal. */
  lemma SanitizeKeepsWordStart(c0: char, c1: char, rest: string)
    requires (c0 == 't' || c0 == 'f' || c0 == 'n') && c1 != '\\' && !StartsKeyword(c0, c1)
    ensures |Sanitize([c0] + ([c1] + rest))| > 0 && Sanitize([c0] + ([c1] + rest))[0] == c0
  {
    assert !IsJsSpace(c0);
    WordFirstPasses(c0, c1, rest);
    KeptFirstSurvives([c0] + ([c1] + rest), c0, LiteralPass([c1] + EscapePass(rest)));
  }

  /** Passes 1 and 2 copy a `t`, `f` or `n` that does not go on into a
      keyword. */
  lemma WordFirstPasses(c0: char, c1: char, rest: string)
    requires (c0 == 't' || c0 == 'f' || c0 == 'n') && c1 != '\\' && !StartsKeyword(c0, c1)
    ensures LiteralPass(EscapePass([c0] + ([c1] + rest))) == [c0] + LiteralPass([c1] + EscapePass(rest))
  {
    EscapeKeepsTwo(c0, c1, rest);
    var tail := [c1] + EscapePass(rest);
    assert tail[0] == c1;
    WordLiteralStep(c0, tail);
  }

  /** Pass 1 copies two characters that are not backslashes. */
  lemma EscapeKeepsTwo(c0: char, c1: char, rest: string)
    requires c0 != '\\' && c1 != '\\'
    ensures EscapePass([c0] + ([c1] + rest)) == [c0] + ([c1] + EscapePass(rest))
  {
    EscapePassStep([c0], [c1] + rest);
    assert [c0][1..] + ([c1] + rest) == [c1] + rest;
    EscapePassStep([c1], rest);
    assert [c1][1..] + rest == rest;
  }

  /** Pass 2 copies a `t`, `f` or `n` that does not go on into a keyword. */
  lemma WordLiteralStep(c0: char, tail: string)
    requires |tail| > 0 && (c0 == 't' || c0 == 'f' || c0 == 'n') && !StartsKeyword(c0, tail[0])
    ensures LiteralPass([c0] + tail) == [c0] + LiteralPass(tail)
  {
    var e := [c0] + tail;
    assert e[0] == c0 && e[1] == tail[0];
    NoKeywordAt(e);
    LiteralPassStep([c0], tail);
    assert [c0][1..] + tail == tail;
  }

  /** At the start, pass 3 keeps a first character that is not whitespace,
      `[`, a colon or a comma. */
  lemma FirstKeptByBrackets(c0: char, x: string)
    requires !IsJsSpace(c0) && c0 != '[' && c0 != ':' && c0 != ','
    ensures BracketPass([c0] + x, true) == [c0] + BracketPass(x, false)
  {
    var l := [c0] + x;
    assert l[0] == c0 && l[1..] == x;
    NoOpenerAt(l, true);
    BracketPassStartStep(l);
  }

  /** Text that opens with a `t`, `f` or `n` that does not go on into a
      keyword fails the JSON test. */
  lemma WordStartIsNotJsonLike(text: string)
    requires |text| >= 2 && (text[0] == 't' || text[0] == 'f' || text[0] == 'n')
    requires text[1] != '\\' && !StartsKeyword(text[0], text[1])
    ensures !JsonLike(text)
  {
    assert !IsStructural(text[0]);
    assert text == [text[0]] + ([text[1]] + text[2..]);
    SanitizeKeepsWordStart(text[0], text[1], text[2..]);
  }

  /** Text that opens with an inert character other than a structural one
      fails the JSON test. */
  lemma InertStartIsNotJsonLike(text: string)
    requires |text| > 0 && IsInert(text[0]) && !IsStructural(text[0])
    ensures !JsonLike(text)
  {
    assert text == [text[0]] + text[1..];
    SanitizeKeepsInertStart(text[0], text[1..]);
  }

  /** Blank text passes the JSON test. */
  lemma BlankIsJsonLike(ws: string)
    requires AllSpace(ws)
    ensures JsonLike(ws)
  {
    SanitizeKeepsBlank(ws);
  }

  /** Text whose first non-whitespace character is `<` begins with blank
      text followed by that `<`. */
  lemma AngleSplit(text: string)
    requires FirstNonSpace(text) == Some('<')
    ensures LeadingSpaceCount(text) < |text|
    ensures SpacesThenAngle(text[..LeadingSpaceCount(text) + 1])
  {
    FirstNonSpaceAtLeadingCount(text);
    var k := LeadingSpaceCount(text);
    assert text[..k + 1][..k] == text[..k];
  }

  /** The first non-whitespace `<` keeps its place through all three
      passes. */
  lemma SanitizeKeepsFirstAngle(text: string)
    requires FirstNonSpace(text) == Some('<')
    ensures LeadingSpaceCount(text) < |Sanitize(text)|
    ensures Sanitize(text)[LeadingSpaceCount(text)] == '<'
  {
    AngleSplit(text);
    var k := LeadingSpaceCount(text);
    var p := text[..k + 1];
    var rest := text[k + 1..];
    assert text == p + rest;
    SanitizeKeepsAngle(p, rest);
    var x := BracketPass(LiteralPass(EscapePass(rest)), false);
    assert Sanitize(text) == p + x;
    assert (p + x)[k] == p[k];
  }

  /** Text whose first non-whitespace character is `<` fails the JSON test:
      no pass can consume a leading `<`, and `<` is not structural. */
  lemma AngleIsNotJsonLike(text: string)
    requires FirstNonSpace(text) == Some('<')
    ensures !JsonLike(text)
  {
    SanitizeKeepsFirstAngle(text);
    var k := LeadingSpaceCount(text);
    assert !IsStructural(Sanitize(text)[k]);
  }
}
