/** The JavaScript string primitives the shell relies on: whitespace as the
    regular-expression class `\s` and `String.prototype.trim` see it,
    `Array.prototype.join`, `String.prototype.split` on a one-character
    separator, and a character-for-character replacement.

    Strings are sequences of Unicode scalar values; JavaScript's UTF-16 code
    units differ only for characters outside the Basic Multilingual Plane,
    none of which is whitespace or a separator used here. */
module Strings {
  import opened Wrappers

  /** The WhiteSpace and LineTerminator code points of ECMAScript: exactly the
      characters `\s` matches and `trim` strips. */
  predicate IsJsSpace(c: char) {
    var n := c as int;
    n == 0x09 || n == 0x0A || n == 0x0B || n == 0x0C || n == 0x0D || n == 0x20
    || n == 0xA0 || n == 0x1680 || (0x2000 <= n <= 0x200A)
    || n == 0x2028 || n == 0x2029 || n == 0x202F || n == 0x205F || n == 0x3000
    || n == 0xFEFF
  }

  predicate AllSpace(s: string) {
    forall i :: 0 <= i < |s| ==> IsJsSpace(s[i])
  }

  /** Length of the longest all-whitespace prefix. */
  function LeadingSpaceCount(s: string): (n: nat)
    ensures n <= |s|
    ensures AllSpace(s[..n])
    ensures n < |s| ==> !IsJsSpace(s[n])
  {
    if |s| == 0 || !IsJsSpace(s[0]) then 0
    else
      var m := LeadingSpaceCount(s[1..]);
      assert s[..1 + m] == [s[0]] + s[1..][..m];
      1 + m
  }

  /** Dropping `k` elements and then `m` more drops `k + m`. */
  lemma DropDrop<T>(s: seq<T>, k: nat, m: nat)
    requires k + m <= |s|
    ensures s[k..][m..] == s[k + m..]
  {
  }

  /** Length of the longest all-whitespace suffix. */
  function TrailingSpaceCount(s: string): (n: nat)
    ensures n <= |s|
    ensures forall i :: |s| - n <= i < |s| ==> IsJsSpace(s[i])
    ensures n < |s| ==> !IsJsSpace(s[|s| - n - 1])
  {
    if |s| == 0 || !IsJsSpace(s[|s| - 1]) then 0
    else 1 + TrailingSpaceCount(s[..|s| - 1])
  }

  /** `String.prototype.trim`: the text between the leading and the trailing
      whitespace. */
  function Trim(s: string): (t: string)
    ensures LeadingSpaceCount(s) + |t| <= |s|
    ensures t == s[LeadingSpaceCount(s)..LeadingSpaceCount(s) + |t|]
    ensures AllSpace(s[LeadingSpaceCount(s) + |t|..])
    ensures |t| > 0 ==> !IsJsSpace(t[0]) && !IsJsSpace(t[|t| - 1])
  {
    var a := LeadingSpaceCount(s);
    var u := s[a..];
    var k := TrailingSpaceCount(u);
    assert s[a + (|u| - k)..] == u[|u| - k..];
    u[..|u| - k]
  }

  /** Only blank text trims to nothing. */
  lemma TrimEmptyIffBlank(s: string)
    ensures |Trim(s)| == 0 <==> AllSpace(s)
  {
    var a := LeadingSpaceCount(s);
    if |Trim(s)| == 0 {
      assert s == s[..a] + s[a..];
      assert s[a..] == s[a + |Trim(s)|..];
    }
  }

  /** The first character that is not whitespace, if any: a reference
      definition independent of `Trim`. */
  function FirstNonSpace(s: string): Option<char> {
    if |s| == 0 then None
    else if IsJsSpace(s[0]) then FirstNonSpace(s[1..])
    else Some(s[0])
  }

  lemma {:induction false} FirstNonSpaceAtLeadingCount(s: string)
    ensures FirstNonSpace(s)
         == if LeadingSpaceCount(s) < |s| then Some(s[LeadingSpaceCount(s)]) else None
    decreases |s|
  {
    if |s| > 0 && IsJsSpace(s[0]) {
      FirstNonSpaceAtLeadingCount(s[1..]);
    }
  }

  /** `s.trim()[0]` is the first non-whitespace character of `s`, and is
      `undefined` exactly when `s` is blank. */
  lemma TrimHeadIsFirstNonSpace(s: string)
    ensures |Trim(s)| == 0 <==> FirstNonSpace(s).None?
    ensures |Trim(s)| > 0 ==> FirstNonSpace(s) == Some(Trim(s)[0])
  {
    FirstNonSpaceAtLeadingCount(s);
  }

  /** The leading-space count is the position of the first non-whitespace
      character. */
  lemma {:induction false} LeadingSpaceCountIs(s: string, k: nat)
    requires k < |s| && AllSpace(s[..k]) && !IsJsSpace(s[k])
    ensures LeadingSpaceCount(s) == k
    decreases k
  {
    if k > 0 {
      assert s[1..][..k - 1] == s[1..k];
      assert s[1..][k - 1] == s[k];
      LeadingSpaceCountIs(s[1..], k - 1);
    }
  }

  /** A non-empty text is its first character followed by the rest. */
  lemma ConsHeadTail(p: string, x: string)
    requires |p| > 0
    ensures [p[0]] + (p[1..] + x) == p + x
  {
  }

  /** `Array.prototype.join`: the parts with `sep` between neighbours. */
  function Join(parts: seq<string>, sep: string): string {
    if |parts| == 0 then ""
    else if |parts| == 1 then parts[0]
    else parts[0] + sep + Join(parts[1..], sep)
  }

  lemma JoinCons(a: string, parts: seq<string>, sep: string)
    requires |parts| > 0
    ensures Join([a] + parts, sep) == a + sep + Join(parts, sep)
  {
    assert ([a] + parts)[1..] == parts;
  }

  /** Putting one more character in front of the first part puts it in
      front of the joined text. */
  lemma {:induction false} JoinHeadCons(x: char, q: string, rest: seq<string>, sep: string)
    ensures Join([[x] + q] + rest, sep) == [x] + Join([q] + rest, sep)
  {
    if |rest| > 0 {
      JoinCons([x] + q, rest, sep);
      JoinCons(q, rest, sep);
    }
  }

  /** `String.prototype.split` with a one-character separator: never empty,
      and no piece contains the separator. */
  function SplitOn(s: string, c: char): (parts: seq<string>)
    ensures |parts| >= 1
    ensures forall i :: 0 <= i < |parts| ==> c !in parts[i]
  {
    if |s| == 0 then [""]
    else
      var rest := SplitOn(s[1..], c);
      if s[0] == c then [""] + rest
      else [[s[0]] + rest[0]] + rest[1..]
  }

  /** Every occurrence of `c` replaced by `d`; a reference definition for
      split-then-join. */
  function ReplaceChar(s: string, c: char, d: char): (r: string)
    ensures |r| == |s|
    ensures forall i :: 0 <= i < |s| ==> r[i] == if s[i] == c then d else s[i]
  {
    if |s| == 0 then ""
    else [if s[0] == c then d else s[0]] + ReplaceChar(s[1..], c, d)
  }

  /** `s.split(c).join(d)` replaces every `c` by `d`. */
  lemma {:induction false} JoinSplitOn(s: string, c: char, d: char)
    ensures Join(SplitOn(s, c), [d]) == ReplaceChar(s, c, d)
    decreases |s|
  {
    if |s| > 0 {
      var rest := SplitOn(s[1..], c);
      JoinSplitOn(s[1..], c, d);
      if s[0] == c {
        JoinCons("", rest, [d]);
      } else {
        assert [rest[0]] + rest[1..] == rest;
        JoinHeadCons(s[0], rest[0], rest[1..], [d]);
      }
    }
  }

  /** Splitting text that starts with a separator-free piece: the piece is
      glued to the front of the first part. */
  lemma {:induction false} SplitOnPrefix(p: string, t: string, c: char)
    requires c !in p
    ensures SplitOn(p + t, c) == [p + SplitOn(t, c)[0]] + SplitOn(t, c)[1..]
    decreases |p|
  {
    if |p| == 0 {
      assert p + t == t;
      assert p + SplitOn(t, c)[0] == SplitOn(t, c)[0];
      assert [SplitOn(t, c)[0]] + SplitOn(t, c)[1..] == SplitOn(t, c);
    } else {
      assert (p + t)[1..] == p[1..] + t;
      SplitOnPrefix(p[1..], t, c);
      assert [p[0]] + (p[1..] + SplitOn(t, c)[0]) == p + SplitOn(t, c)[0];
    }
  }

  /** Split undoes join when no part contains the separator. */
  lemma {:induction false} SplitOnJoin(parts: seq<string>, c: char)
    requires |parts| >= 1
    requires forall i :: 0 <= i < |parts| ==> c !in parts[i]
    ensures SplitOn(Join(parts, [c]), c) == parts
    decreases |parts|
  {
    if |parts| == 1 {
      SplitOnPrefix(parts[0], "", c);
      assert parts[0] + "" == parts[0];
    } else {
      var tail := Join(parts[1..], [c]);
      SplitOnJoin(parts[1..], c);
      assert ([c] + tail)[1..] == tail;
      assert SplitOn([c] + tail, c) == [""] + parts[1..];
      assert parts[0] + [c] + tail == parts[0] + ([c] + tail);
      SplitOnPrefix(parts[0], [c] + tail, c);
      assert parts[0] + "" == parts[0];
      assert [parts[0]] + parts[1..] == parts;
    }
  }

  /** Splitting text that starts with a character other than the separator
      glues the character to the first part. */
  lemma SplitOnCons(x: char, s: string, c: char)
    requires x != c
    ensures SplitOn([x] + s, c) == [[x] + SplitOn(s, c)[0]] + SplitOn(s, c)[1..]
  {
    assert ([x] + s)[1..] == s;
  }

  /** A separator between two texts separates their parts. */
  lemma {:induction false} SplitOnSeparated(a: string, b: string, c: char)
    ensures SplitOn(a + [c] + b, c) == SplitOn(a, c) + SplitOn(b, c)
    decreases |a|
  {
    if |a| == 0 {
      assert a + [c] + b == [c] + b;
      assert ([c] + b)[1..] == b;
    } else {
      var x := a[0];
      var t := a[1..] + [c] + b;
      assert a + [c] + b == [x] + t;
      assert a == [x] + a[1..];
      SplitOnSeparated(a[1..], b, c);
      var ra := SplitOn(a[1..], c);
      var rb := SplitOn(b, c);
      if x != c {
        calc {
          SplitOn([x] + t, c);
          { SplitOnCons(x, t, c); }
          [[x] + (ra + rb)[0]] + (ra + rb)[1..];
          { ExtendFirstAppend([x], ra, rb); }
          [[x] + ra[0]] + ra[1..] + rb;
          { SplitOnCons(x, a[1..], c); }
          SplitOn(a, c) + rb;
        }
      } else {
        assert ([x] + t)[1..] == t;
      }
    }
  }

  /** Extending the first part of `ra + rb` extends the first part of `ra`. */
  lemma ExtendFirstAppend<T>(p: seq<T>, ra: seq<seq<T>>, rb: seq<seq<T>>)
    requires |ra| >= 1
    ensures [p + (ra + rb)[0]] + (ra + rb)[1..] == [p + ra[0]] + ra[1..] + rb
  {
    assert (ra + rb)[0] == ra[0];
    assert (ra + rb)[1..] == ra[1..] + rb;
  }

  /** Replacing `c` by a character `d` the text does not already hold keeps
      the pieces between separators. */
  lemma {:induction false} SplitOnReplace(s: string, c: char, d: char)
    requires d !in s
    ensures SplitOn(ReplaceChar(s, c, d), d) == SplitOn(s, c)
    decreases |s|
  {
    if |s| > 0 {
      var r := ReplaceChar(s, c, d);
      assert r[1..] == ReplaceChar(s[1..], c, d);
      SplitOnReplace(s[1..], c, d);
    }
  }
}
