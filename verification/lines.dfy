/** The plain-text branch of `readFromInputChannels` (lib/cli-shell.js:21,
    149-160): split on `reNewLine = /\r\n?|\n/`, then, when the caller gave a
    per-line callback, map it over the lines and keep the non-empty results. */
module LineSplit {
  import opened Wrappers
  import opened Strings

  predicate NoLineBreak(s: string) {
    '\r' !in s && '\n' !in s
  }

  /** Length of the `reNewLine` match at the front of `s`, or 0: CR LF as one
      terminator (`\n?` is greedy), a lone CR, or LF. */
  function TerminatorLength(s: string): (n: nat)
    ensures n <= |s|
    ensures n == 0 <==> |s| == 0 || (s[0] != '\r' && s[0] != '\n')
    ensures |s| >= 2 && s[0] == '\r' && s[1] == '\n' ==> n == 2
    ensures |s| > 0 && s[0] == '\r' && (|s| == 1 || s[1] != '\n') ==> n == 1
    ensures |s| > 0 && s[0] == '\n' ==> n == 1
  {
    if |s| == 0 then 0
    else if s[0] == '\r' then (if |s| >= 2 && s[1] == '\n' then 2 else 1)
    else if s[0] == '\n' then 1
    else 0
  }

  /** Number of line terminators in `s`, a CR LF pair counting once. */
  function TerminatorCount(s: string): nat {
    if |s| == 0 then 0
    else if s[0] == '\r' && |s| >= 2 && s[1] == '\n' then 1 + TerminatorCount(s[2..])
    else if s[0] == '\r' || s[0] == '\n' then 1 + TerminatorCount(s[1..])
    else TerminatorCount(s[1..])
  }

  /** `s.split(reNewLine)`: one line more than there are terminators, and no
      line holds a CR or an LF. The empty text is one empty line. */
  function SplitLines(s: string): (lines: seq<string>)
    ensures |lines| == TerminatorCount(s) + 1
    ensures forall i :: 0 <= i < |lines| ==> NoLineBreak(lines[i])
    decreases |s|
  {
    if |s| == 0 then [""]
    else
      var n := TerminatorLength(s);
      if n > 0 then [""] + SplitLines(s[n..])
      else
        var rest := SplitLines(s[1..]);
        [[s[0]] + rest[0]] + rest[1..]
  }

  /** `s` with every CR LF pair and every lone CR turned into LF: a reference
      definition for what splitting and re-joining with LF produces. */
  function NormalizeNewlines(s: string): (r: string)
    ensures '\r' !in r
  {
    if |s| == 0 then ""
    else if s[0] == '\r' then
      "\n" + NormalizeNewlines(if |s| >= 2 && s[1] == '\n' then s[2..] else s[1..])
    else [s[0]] + NormalizeNewlines(s[1..])
  }

  /** Joining the lines with LF gives the input with its line endings
      normalised to LF. */
  lemma {:induction false} JoinSplitLines(s: string)
    ensures Join(SplitLines(s), "\n") == NormalizeNewlines(s)
    decreases |s|
  {
    if |s| > 0 {
      var n := TerminatorLength(s);
      if n > 0 {
        JoinSplitLines(s[n..]);
        JoinCons("", SplitLines(s[n..]), "\n");
      } else {
        JoinSplitLines(s[1..]);
        var rest := SplitLines(s[1..]);
        assert [rest[0]] + rest[1..] == rest;
        JoinHeadCons(s[0], rest[0], rest[1..], "\n");
      }
    }
  }

  /** Splitting text that starts with a line-break-free piece glues the piece
      to the front of the first line. */
  lemma {:induction false} SplitLinesPrefix(p: string, t: string)
    requires NoLineBreak(p)
    ensures SplitLines(p + t) == [p + SplitLines(t)[0]] + SplitLines(t)[1..]
    decreases |p|
  {
    var r := SplitLines(t);
    if |p| == 0 {
      assert p + t == t;
      assert p + r[0] == r[0];
      assert [r[0]] + r[1..] == r;
    } else {
      var s := p + t;
      assert s[0] == p[0];
      assert s[1..] == p[1..] + t;
      assert TerminatorLength(s) == 0;
      SplitLinesPrefix(p[1..], t);
      assert [p[0]] + (p[1..] + r[0]) == p + r[0];
    }
  }

  /** Splitting undoes joining with LF when no line holds a line break. */
  lemma {:induction false} SplitJoinLines(lines: seq<string>)
    requires |lines| >= 1
    requires forall i :: 0 <= i < |lines| ==> NoLineBreak(lines[i])
    ensures SplitLines(Join(lines, "\n")) == lines
    decreases |lines|
  {
    if |lines| == 1 {
      SplitLinesPrefix(lines[0], "");
      assert lines[0] + "" == lines[0];
    } else {
      var tail := Join(lines[1..], "\n");
      SplitJoinLines(lines[1..]);
      var t := "\n" + tail;
      assert t[1..] == tail;
      assert TerminatorLength(t) == 1;
      assert SplitLines(t) == [""] + lines[1..];
      assert lines[0] + "\n" + tail == lines[0] + t;
      SplitLinesPrefix(lines[0], t);
      assert lines[0] + "" == lines[0];
      assert [lines[0]] + lines[1..] == lines;
    }
  }

  // ---------------------------------------------------------------- the callback

  /** The per-line callback. `Array.prototype.map` hands it the line, the
      line's index and the whole array of lines. */
  type LineParser = (string, nat, seq<string>) -> string

  /** `lines.map(parse)`. */
  function MapLines(lines: seq<string>, parse: LineParser): (r: seq<string>)
    ensures |r| == |lines|
    ensures forall i :: 0 <= i < |lines| ==> r[i] == parse(lines[i], i, lines)
  {
    seq(|lines|, i requires 0 <= i < |lines| => parse(lines[i], i, lines))
  }

  /** `a` is `b` with some elements left out, the rest in their order. */
  predicate IsSubsequence<T(==)>(a: seq<T>, b: seq<T>)
    decreases |b|
  {
    if |a| == 0 then true
    else if |b| == 0 then false
    else (a[0] == b[0] && IsSubsequence(a[1..], b[1..])) || IsSubsequence(a, b[1..])
  }

  /** `.filter(i => !isempty(i))` on strings: the empty results are dropped,
      every other one is kept once per occurrence, in source order. */
  function DropEmpty(xs: seq<string>): (r: seq<string>)
    ensures forall i :: 0 <= i < |r| ==> r[i] != ""
    ensures multiset(r) == multiset(xs)["" := 0]
    ensures IsSubsequence(r, xs)
    ensures |r| == 0 <==> forall i :: 0 <= i < |xs| ==> xs[i] == ""
  {
    if |xs| == 0 then []
    else
      var rest := DropEmpty(xs[1..]);
      assert xs == [xs[0]] + xs[1..];
      DropEmptyStep(xs[0], xs[1..], rest);
      if xs[0] == "" then rest else [xs[0]] + rest
  }

  /** One step of the filter keeps the multiset and the order. */
  lemma DropEmptyStep(x: string, xs: seq<string>, r: seq<string>)
    requires multiset(r) == multiset(xs)["" := 0] && IsSubsequence(r, xs)
    ensures x == "" ==>
      multiset(r) == multiset([x] + xs)["" := 0] && IsSubsequence(r, [x] + xs)
    ensures x != "" ==>
      multiset([x] + r) == multiset([x] + xs)["" := 0] && IsSubsequence([x] + r, [x] + xs)
  {
    assert ([x] + xs)[1..] == xs;
    assert ([x] + r)[1..] == r;
  }

  /** The filter decides the first element on its own. */
  lemma DropEmptyCons(x: string, rest: seq<string>)
    ensures DropEmpty([x] + rest) == (if x == "" then [] else [x]) + DropEmpty(rest)
  {
    assert ([x] + rest)[1..] == rest;
  }

  /** The plain-text result: the lines themselves without a callback, the
      non-empty callback results with one. */
  function ApplyLineParser(lines: seq<string>, parser: Option<LineParser>): (r: seq<string>)
    ensures parser.None? ==> r == lines
    ensures parser.Some? ==> forall i :: 0 <= i < |r| ==> r[i] != ""
    ensures parser.Some? ==> |r| <= |lines|
    ensures parser.Some? ==> IsSubsequence(r, MapLines(lines, parser.value))
    ensures parser.Some? ==>
      multiset(r) == multiset(MapLines(lines, parser.value))["" := 0]
  {
    match parser
    case None => lines
    case Some(parse) =>
      var r := DropEmpty(MapLines(lines, parse));
      assert |r| == |multiset(r)|;
      r
  }
}
