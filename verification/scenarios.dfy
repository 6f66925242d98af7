/** Worked inputs for the format sniffer: the documented plain-text
    behaviour, and texts the JSON heuristic accepts or rejects.

    Each worked input is an instance of a general lemma stated over
    variables. A small lemma per input (`MixedText`, `BlankLineText`, ...)
    takes the pieces of the literal as parameters fixed by its `requires`
    and states that their concatenation is the literal: the verifier then
    compares the literal once, as a whole, instead of character by
    character inside the general proof. */
module Scenarios {
  import opened Wrappers
  import opened Strings
  import opened JsonSniff
  import opened LineSplit
  import opened InputChannels

  /** Mixed line endings split into the same lines. */
  lemma MixedLineEndings()
    ensures Classify("a\nb\r\nc", None) == Lines(["a", "b", "c"])
  {
    InertStartIsPlain("a\nb\r\nc", None);
    SplitMixedLineEndings();
  }

  lemma SplitMixedLineEndings()
    ensures SplitLines("a\nb\r\nc") == ["a", "b", "c"]
  {
    MixedText("a", "b", "c");
    SplitMixedBreaks("a", "b", "c");
  }

  /** `"a\nb\r\nc"` is the three-line text of `SplitMixedBreaks`. */
  lemma MixedText(a: string, b: string, c: string)
    requires a == "a" && b == "b" && c == "c"
    ensures a + ("\n" + (b + ("\r\n" + c))) == "a\nb\r\nc"
    ensures NoLineBreak(a) && NoLineBreak(b) && NoLineBreak(c)
  {
  }

  /** Three lines ended by an LF and a CR LF split back into those lines. */
  lemma SplitMixedBreaks(a: string, b: string, c: string)
    requires NoLineBreak(a) && NoLineBreak(b) && NoLineBreak(c)
    ensures SplitLines(a + ("\n" + (b + ("\r\n" + c)))) == [a, b, c]
  {
    SplitLastLine(c);
    SplitAfterBreak("\r\n", c);
    SplitLinesPrefix(b, "\r\n" + c);
    assert b + "" == b;
    SplitAfterBreak("\n", b + ("\r\n" + c));
    SplitLinesPrefix(a, "\n" + (b + ("\r\n" + c)));
    assert a + "" == a;
  }

  lemma SplitLastLine(c: string)
    requires NoLineBreak(c)
    ensures SplitLines(c) == [c]
  {
    SplitLinesPrefix(c, "");
    assert c + "" == c;
  }

  /** An LF or a CR LF at the front ends an empty first line. */
  lemma SplitAfterBreak(brk: string, t: string)
    requires brk == "\n" || brk == "\r\n"
    ensures SplitLines(brk + t) == [""] + SplitLines(t)
  {
    var s := brk + t;
    assert s[0] == brk[0];
    assert |brk| == 2 ==> s[1] == brk[1];
    assert s[|brk|..] == t;
  }

  /** A word that begins like a literal but is none is plain text: `foo`
      is not `false`. */
  lemma WordLinesArePlain()
    ensures Classify("foo\nbar", None) == Lines(["foo", "bar"])
  {
    WordStartIsPlain("foo\nbar", None);
    WordText("foo", "bar");
    SplitTwoLines("foo", "bar");
  }

  /** `"foo\nbar"` is the two-line text of `SplitTwoLines`. */
  lemma WordText(a: string, b: string)
    requires a == "foo" && b == "bar"
    ensures a + ("\n" + b) == "foo\nbar"
    ensures NoLineBreak(a) && NoLineBreak(b)
  {
  }

  /** Two lines joined by an LF split back into those lines. */
  lemma SplitTwoLines(a: string, b: string)
    requires NoLineBreak(a) && NoLineBreak(b)
    ensures SplitLines(a + ("\n" + b)) == [a, b]
  {
    SplitLastLine(b);
    SplitAfterBreak("\n", b);
    SplitLinesPrefix(a, "\n" + b);
    assert a + "" == a;
  }

  function UpperChar(c: char): char {
    if 'a' <= c <= 'z' then (c as int - 32) as char else c
  }

  /** A caller's line callback: upper-cases the line, so a blank line stays
      empty. */
  function UpperLine(line: string, index: nat, all: seq<string>): (r: string)
    ensures |r| == |line|
  {
    if |line| == 0 then "" else [UpperChar(line[0])] + UpperLine(line[1..], index, all)
  }

  /** With a callback, the blank line's empty result is dropped. */
  lemma CallbackDropsBlankLine()
    ensures Classify("a\n\nb", Some(UpperLine)) == Lines(["A", "B"])
  {
    InertStartIsPlain("a\n\nb", Some(UpperLine));
    SplitBlankLine();
    UpperThenDrop();
  }

  lemma SplitBlankLine()
    ensures SplitLines("a\n\nb") == ["a", "", "b"]
  {
    BlankLineText("a", "b");
    SplitAroundBlank("a", "b");
  }

  /** `"a\n\nb"` is the text of `SplitAroundBlank`. */
  lemma BlankLineText(a: string, b: string)
    requires a == "a" && b == "b"
    ensures a + ("\n" + ("\n" + b)) == "a\n\nb"
    ensures NoLineBreak(a) && NoLineBreak(b)
  {
  }

  /** Two LFs in a row leave an empty line between their neighbours. */
  lemma SplitAroundBlank(a: string, b: string)
    requires NoLineBreak(a) && NoLineBreak(b)
    ensures SplitLines(a + ("\n" + ("\n" + b))) == [a, "", b]
  {
    SplitLastLine(b);
    SplitAfterBreak("\n", b);
    SplitAfterBreak("\n", "\n" + b);
    SplitLinesPrefix(a, "\n" + ("\n" + b));
    assert a + "" == a;
  }

  lemma UpperOneLetter(c: char, index: nat, all: seq<string>)
    ensures UpperLine([c], index, all) == [UpperChar(c)]
  {
  }

  lemma UpperThenDrop()
    ensures ApplyLineParser(["a", "", "b"], Some(UpperLine)) == ["A", "B"]
  {
    UpperExample();
    DropEmptyExample();
  }

  lemma UpperExample()
    ensures MapLines(["a", "", "b"], UpperLine) == ["A", "", "B"]
  {
    var lines := ["a", "", "b"];
    UpperOneLetter('a', 0, lines);
    UpperOneLetter('b', 2, lines);
  }

  lemma DropEmptyExample()
    ensures DropEmpty(["A", "", "B"]) == ["A", "B"]
  {
  }

  /** A lone digit followed by no digit, point or exponent is a one-character
      number literal. */
  lemma SingleDigitToken(d: char, rest: string)
    requires IsDigit(d)
    requires |rest| == 0 || !(IsDigit(rest[0]) || rest[0] == '.' || rest[0] == 'e' || rest[0] == 'E')
    ensures LiteralPass([d] + rest) == "]" + LiteralPass(rest)
  {
    var s := [d] + rest;
    assert s[0] == d;
    assert |rest| > 0 ==> s[1] == rest[0];
    IntegerLength(s, 1);
    LiteralPassReplaces([d], rest);
  }

  /** Numbers one per line pass the JSON test, so such a file is handed to
      the JSON parser rather than split into lines. */
  lemma NumberLinesAreJsonLike()
    ensures Sanitize("1\n2") == "]\n]"
    ensures JsonLike("1\n2")
  {
    NumberLinesText('1', '2');
    DigitLinesAreJsonLike('1', '2');
  }

  /** `"1\n2"` and `"]\n]"` are the texts of `DigitLinesAreJsonLike`. */
  lemma NumberLinesText(a: char, b: char)
    requires a == '1' && b == '2'
    ensures [a] + ("\n" + [b]) == "1\n2"
    ensures "]" + ("\n" + "]") == "]\n]"
  {
  }

  /** Two lines of one digit each: the digits become `]`, the line break
      stays, and only structural characters remain. */
  lemma DigitLinesAreJsonLike(a: char, b: char)
    requires IsDigit(a) && IsDigit(b)
    ensures Sanitize([a] + ("\n" + [b])) == "]" + ("\n" + "]")
    ensures JsonLike([a] + ("\n" + [b]))
  {
    DigitLinesPass1(a, b);
    DigitLinesPass2(a, b);
    DigitLinesPass3();
    BracketsAreStructural("]" + ("\n" + "]"));
  }

  /** `"]\n]"` holds structural characters only. */
  lemma BracketsAreStructural(r: string)
    requires r == "]" + ("\n" + "]")
    ensures AllStructural(r)
  {
  }

  lemma DigitLinesPass1(a: char, b: char)
    requires IsDigit(a) && IsDigit(b)
    ensures EscapePass([a] + ("\n" + [b])) == [a] + ("\n" + [b])
  {
    var s := [a] + ("\n" + [b]);
    assert s[0] == a && s[1] == '\n' && s[2] == b;
  }

  lemma DigitLinesPass2(a: char, b: char)
    requires IsDigit(a) && IsDigit(b)
    ensures LiteralPass([a] + ("\n" + [b])) == "]" + ("\n" + "]")
  {
    calc {
      LiteralPass([a] + ("\n" + [b]));
      { SingleDigitToken(a, "\n" + [b]); }
      "]" + LiteralPass("\n" + [b]);
      { LiteralPassCopies("\n", [b]); }
      "]" + ("\n" + LiteralPass([b]));
      { LoneDigit(b); }
      "]" + ("\n" + "]");
    }
  }

  lemma LoneDigit(d: char)
    requires IsDigit(d)
    ensures LiteralPass([d]) == "]"
  {
    SingleDigitToken(d, "");
    assert [d] + "" == [d];
  }

  lemma DigitLinesPass3()
    ensures BracketPass("]" + ("\n" + "]"), true) == "]" + ("\n" + "]")
  {
    var l := "]" + ("\n" + "]");
    assert l[0] == ']' && l[1..] == "\n" + "]";
    NoOpenerAt(l, true);
    BracketPassStartStep(l);
  }

  /** Closing brackets and braces only: what ends a nested JSON value. */
  predicate Closers(t: string) {
    |t| == 0 || ((t[0] == ']' || t[0] == '}') && Closers(t[1..]))
  }

  lemma {:induction false} ClosersAll(t: string)
    requires Closers(t)
    ensures forall i :: 0 <= i < |t| ==> t[i] == ']' || t[i] == '}'
  {
    if |t| > 0 {
      ClosersAll(t[1..]);
      assert forall i :: 1 <= i < |t| ==> t[i] == t[1..][i - 1];
    }
  }

  /** An object with one key whose value is an array opening with one
      digit passes the JSON test: the key and the digit become `]`, the
      colon and the bracket after it are deleted, and only `{`, `]` and the
      closers `t` remain. */
  lemma OneMemberObjectIsJsonLike(key: string, d: char, t: string)
    requires ClosedQuoteAt(key, |key| - 1) && IsDigit(d) && Closers(t)
    ensures Sanitize("{" + key + ":[" + [d] + t) == "{" + ("]" + ("]" + t))
    ensures JsonLike("{" + key + ":[" + [d] + t)
  {
    OneMemberObjectSanitized(key, d, t);
    ClosersAreStructural("{" + ("]" + ("]" + t)));
  }

  /** The three passes over the one-member object, one after the other. */
  lemma OneMemberObjectSanitized(key: string, d: char, t: string)
    requires ClosedQuoteAt(key, |key| - 1) && IsDigit(d) && Closers(t)
    ensures Sanitize("{" + key + ":[" + [d] + t) == "{" + ("]" + ("]" + t))
  {
    ObjectFirstPasses(key, d, t);
    assert ("]" + t)[1..] == t;
    ObjectBrackets("]" + t);
  }

  /** Passes 1 and 2 over the one-member object. */
  lemma ObjectFirstPasses(key: string, d: char, t: string)
    requires ClosedQuoteAt(key, |key| - 1) && IsDigit(d) && Closers(t)
    ensures LiteralPass(EscapePass("{" + key + ":[" + [d] + t))
         == "{" + ("]" + (":" + ("[" + ("]" + t))))
  {
    ObjectTextNested(key, d, t);
    ObjectEscapes(key, d, t);
    ObjectLiterals(key, d, t);
  }

  lemma ObjectTextNested(key: string, d: char, t: string)
    ensures "{" + key + ":[" + [d] + t == "{" + (key + (":" + ("[" + ([d] + t))))
  {
  }

  lemma ClosersAreStructural(r: string)
    requires |r| > 0 && r[0] == '{' && Closers(r[1..])
    ensures AllStructural(r)
  {
    ClosersAll(r[1..]);
    assert forall i :: 1 <= i < |r| ==> r[i] == r[1..][i - 1];
  }

  /** `{"a":[1]}` is handed to the JSON parser. */
  lemma ObjectIsJsonLike()
    ensures JsonLike("{\"a\":[1]}")
  {
    var key := "\"a\"";
    QuotedKey(key);
    OneMemberObjectIsJsonLike(key, '1', "]}");
    ObjectTextLiteral(key);
  }

  /** `"a"`, with its quotes, is a closed quoted literal. */
  lemma QuotedKey(key: string)
    requires key == "\"a\""
    ensures ClosedQuoteAt(key, |key| - 1)
  {
  }

  /** `{"a":[1]}` is the text of `OneMemberObjectIsJsonLike` for the key
      `"a"`, the digit `1` and the closers `]}`. */
  lemma ObjectTextLiteral(key: string)
    requires key == "\"a\""
    ensures "{" + key + ":[" + ['1'] + "]}" == "{\"a\":[1]}"
  {
  }

  /** Pass 1 leaves the object alone: it holds no backslash. */
  lemma ObjectEscapes(key: string, d: char, t: string)
    requires ClosedQuoteAt(key, |key| - 1) && IsDigit(d) && Closers(t)
    ensures var text := "{" + (key + (":" + ("[" + ([d] + t))));
      EscapePass(text) == text
  {
    var text := "{" + (key + (":" + ("[" + ([d] + t))));
    ClosersAll(t);
    forall i | 0 <= i < |text|
      ensures text[i] != '\\'
    {
      if 1 <= i < 1 + |key| {
        assert text[i] == key[i - 1];
      } else if i >= |key| + 4 {
        assert text[i] == t[i - |key| - 4];
      }
    }
  }

  /** Pass 2 turns the key and the digit into `]`. */
  lemma ObjectLiterals(key: string, d: char, t: string)
    requires ClosedQuoteAt(key, |key| - 1) && IsDigit(d) && Closers(t)
    ensures LiteralPass("{" + (key + (":" + ("[" + ([d] + t)))))
         == "{" + ("]" + (":" + ("[" + ("]" + t))))
  {
    ClosersSurviveLiterals(t);
    calc {
      LiteralPass("{" + (key + (":" + ("[" + ([d] + t)))));
      { LiteralPassCopies("{", key + (":" + ("[" + ([d] + t)))); }
      "{" + LiteralPass(key + (":" + ("[" + ([d] + t))));
      { QuotedLiteralReplaced(key, ":" + ("[" + ([d] + t))); }
      "{" + ("]" + LiteralPass(":" + ("[" + ([d] + t))));
      { LiteralPassCopies(":", "[" + ([d] + t)); }
      "{" + ("]" + (":" + LiteralPass("[" + ([d] + t))));
      { LiteralPassCopies("[", [d] + t); }
      "{" + ("]" + (":" + ("[" + LiteralPass([d] + t))));
      { SingleDigitToken(d, t); }
      "{" + ("]" + (":" + ("[" + ("]" + t))));
    }
  }

  lemma ClosersSurviveLiterals(t: string)
    requires Closers(t)
    ensures LiteralPass(t) == t
  {
    ClosersAll(t);
  }

  /** Pass 3 deletes the bracket after the colon, keeping everything else. */
  lemma ObjectBrackets(t: string)
    requires Closers(t)
    ensures BracketPass("{" + ("]" + (":" + ("[" + t))), true) == "{" + ("]" + t)
  {
    var s := "{" + ("]" + (":" + ("[" + t)));
    assert s[0] == '{';
    NoOpenerAt(s, true);
    BracketPassStartStep(s);
    assert s[1..] == "]" + (":" + ("[" + t));
    BracketsAfterKey(t);
  }

  lemma BracketsAfterKey(t: string)
    requires Closers(t)
    ensures BracketPass("]" + (":" + ("[" + t)), false) == "]" + t
  {
    BracketsAfterColon(t);
    BracketPassCopies("]", ":" + ("[" + t));
  }

  lemma BracketsAfterColon(t: string)
    requires Closers(t)
    ensures BracketPass(":" + ("[" + t), false) == t
  {
    ClosersStay(t);
    ColonBracketText(t);
    SeparatorBracketDeleted(':', "", t);
  }

  /** Closers open no bracket run and pass 3 leaves them alone. */
  lemma ClosersStay(t: string)
    requires Closers(t)
    ensures !SpacesThenBracket(t)
    ensures BracketPass(t, false) == t
  {
    ClosersAll(t);
    if |t| > 0 {
      LeadingSpaceCountIs(t, 0);
    }
  }

  /** The colon-and-bracket text as `SeparatorBracketDeleted` states it. */
  lemma ColonBracketText(t: string)
    ensures [':'] + "" + "[" + t == ":" + ("[" + t)
  {
  }
}
