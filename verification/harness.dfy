/** The two pure string computations of the CLI harness: the failure
    message logged when the caller's action fails (lib/cli-shell.js:192 for
    `cmd`, 225 for `cmdSync`), and the PATH value built for `--sandbox`
    (lib/cli-shell.js:72-76). */
module Harness {
  import opened Wrappers
  import opened Strings
  import opened LineSplit

  // ---------------------------------------------------------------- failure message

  /** A value that may be `undefined`, as `Array.prototype.join` renders
      it: `undefined` becomes the empty string. */
  function OrEmpty(v: Option<string>): string {
    match v
    case Some(s) => s
    case None => ""
  }

  /** `isempty` on a field of the caught error: `undefined` or `""`. */
  predicate IsBlank(field: Option<string>) {
    OrEmpty(field) == ""
  }

  /** The fields as text, `undefined` as the empty string. */
  function Texts(fields: seq<Option<string>>): (r: seq<string>)
    ensures |r| == |fields|
    ensures forall i :: 0 <= i < |fields| ==> r[i] == OrEmpty(fields[i])
  {
    seq(|fields|, i requires 0 <= i < |fields| => OrEmpty(fields[i]))
  }

  /** `[...].filter(i => !isempty(i))`: every non-blank field's text, once per
      occurrence and in source order, and nothing else. */
  function PresentFields(fields: seq<Option<string>>): (kept: seq<string>)
    ensures IsSubsequence(kept, Texts(fields))
    ensures multiset(kept) == multiset(Texts(fields))["" := 0]
    ensures forall i :: 0 <= i < |kept| ==> kept[i] != ""
    ensures forall s :: s in kept ==> Some(s) in fields
    ensures |kept| == 0 <==> forall j :: 0 <= j < |fields| ==> IsBlank(fields[j])
  {
    var texts := Texts(fields);
    var kept := DropEmpty(texts);
    assert forall s :: s in kept ==> Some(s) in fields by {
      forall s | s in kept
        ensures Some(s) in fields
      {
        assert multiset(kept)[s] > 0;
        var j :| 0 <= j < |texts| && texts[j] == s;
        assert fields[j] == Some(s);
      }
    }
    kept
  }

  /** The part a field contributes to the filtered list. */
  function Kept(field: Option<string>): seq<string> {
    if IsBlank(field) then [] else [field.value]
  }

  /** The filter decides the first field on its own. */
  lemma PresentFieldsCons(field: Option<string>, rest: seq<Option<string>>)
    ensures PresentFields([field] + rest) == Kept(field) + PresentFields(rest)
  {
    assert Texts([field] + rest) == [OrEmpty(field)] + Texts(rest);
    DropEmptyCons(OrEmpty(field), Texts(rest));
  }

  lemma PresentFieldsOfOne(field: Option<string>)
    ensures PresentFields([field]) == Kept(field)
  {
    PresentFieldsCons(field, []);
    assert [field] + [] == [field];
    assert Kept(field) + [] == Kept(field);
  }

  lemma PresentFieldsOfTwo(first: Option<string>, second: Option<string>)
    ensures PresentFields([first, second]) == Kept(first) + Kept(second)
  {
    PresentFieldsOfOne(second);
    PresentFieldsCons(first, [second]);
    assert [first] + [second] == [first, second];
  }

  /** The filter over the three fields of a caught error keeps each non-blank
      one, in the order message, stdout, stderr. */
  lemma PresentFieldsOfThree(message: Option<string>, stdout: Option<string>,
                             stderr: Option<string>)
    ensures PresentFields([message, stdout, stderr]) == Kept(message) + Kept(stdout) + Kept(stderr)
  {
    calc {
      PresentFields([message, stdout, stderr]);
      { assert [message, stdout, stderr] == [message] + [stdout, stderr]; }
      PresentFields([message] + [stdout, stderr]);
      { PresentFieldsCons(message, [stdout, stderr]); }
      Kept(message) + PresentFields([stdout, stderr]);
      { PresentFieldsOfTwo(stdout, stderr); }
      Kept(message) + (Kept(stdout) + Kept(stderr));
    }
  }

  /** A join of parts starts with the first part. */
  lemma {:induction false} JoinStartsWithFirst(parts: seq<string>, sep: string)
    ensures |parts| > 0 ==> parts[0] <= Join(parts, sep)
  {
    if |parts| > 1 {
      assert Join(parts, sep) == parts[0] + (sep + Join(parts[1..], sep));
    }
  }

  /** Three parts joined with a separator. */
  lemma JoinThree(a: string, b: string, c: string, sep: string)
    ensures Join([a, b, c], sep) == a + sep + b + sep + c
  {
    assert [a, b, c][1..] == [b, c];
    assert [b, c][1..] == [c];
    assert Join([c], sep) == c;
    assert Join([b, c], sep) == b + sep + c;
    assert Join([a, b, c], sep) == a + sep + (b + sep + c);
  }

  /** Two parts joined with a separator. */
  lemma JoinTwo(a: string, b: string, sep: string)
    ensures Join([a, b], sep) == a + sep + b
  {
    assert [a, b][1..] == [b];
  }

  /** The failure message of `cmd`: the error's message, standard output and
      standard error, blank ones left out, joined with commas. */
  function FailureMessage(message: Option<string>, stdout: Option<string>,
                          stderr: Option<string>): (r: string)
    ensures r == "" <==> IsBlank(message) && IsBlank(stdout) && IsBlank(stderr)
    ensures !IsBlank(message) ==> message.value <= r
    ensures !IsBlank(message) && !IsBlank(stdout) && !IsBlank(stderr) ==>
      r == message.value + "," + stdout.value + "," + stderr.value
  {
    var kept := PresentFields([message, stdout, stderr]);
    PresentFieldsOfThree(message, stdout, stderr);
    JoinOfKept(message, stdout, stderr);
    Join(kept, ",")
  }

  /** What the comma join of the kept fields looks like. */
  lemma JoinOfKept(message: Option<string>, stdout: Option<string>, stderr: Option<string>)
    ensures var r := Join(Kept(message) + Kept(stdout) + Kept(stderr), ",");
      && (r == "" <==> IsBlank(message) && IsBlank(stdout) && IsBlank(stderr))
      && (!IsBlank(message) ==> message.value <= r)
      && (!IsBlank(message) && !IsBlank(stdout) && !IsBlank(stderr) ==>
            r == message.value + "," + stdout.value + "," + stderr.value)
  {
    var parts := Kept(message) + Kept(stdout) + Kept(stderr);
    JoinStartsWithFirst(parts, ",");
    if !IsBlank(message) {
      assert parts[0] == message.value;
    } else if !IsBlank(stdout) {
      assert parts[0] == stdout.value;
    } else if !IsBlank(stderr) {
      assert parts[0] == stderr.value;
    } else {
      assert parts == [];
    }
    if !IsBlank(message) && !IsBlank(stdout) && !IsBlank(stderr) {
      assert parts == [message.value, stdout.value, stderr.value];
      JoinThree(message.value, stdout.value, stderr.value, ",");
    }
  }

  /** The failure message when some fields are blank: the remaining ones,
      in order, with a comma between two of them. */
  lemma FailureMessageCases(message: Option<string>, stdout: Option<string>,
                            stderr: Option<string>)
    ensures !IsBlank(message) && IsBlank(stdout) && IsBlank(stderr) ==>
      FailureMessage(message, stdout, stderr) == message.value
    ensures IsBlank(message) && !IsBlank(stdout) && IsBlank(stderr) ==>
      FailureMessage(message, stdout, stderr) == stdout.value
    ensures IsBlank(message) && IsBlank(stdout) && !IsBlank(stderr) ==>
      FailureMessage(message, stdout, stderr) == stderr.value
    ensures !IsBlank(message) && !IsBlank(stdout) && IsBlank(stderr) ==>
      FailureMessage(message, stdout, stderr) == message.value + "," + stdout.value
    ensures !IsBlank(message) && IsBlank(stdout) && !IsBlank(stderr) ==>
      FailureMessage(message, stdout, stderr) == message.value + "," + stderr.value
    ensures IsBlank(message) && !IsBlank(stdout) && !IsBlank(stderr) ==>
      FailureMessage(message, stdout, stderr) == stdout.value + "," + stderr.value
  {
    FailureMessageJoin(message, stdout, stderr);
    var m, o, e := OrEmpty(message), OrEmpty(stdout), OrEmpty(stderr);
    if !IsBlank(message) && IsBlank(stdout) && IsBlank(stderr) {
      assert Kept(message) + Kept(stdout) + Kept(stderr) == [m];
    } else if IsBlank(message) && !IsBlank(stdout) && IsBlank(stderr) {
      assert Kept(message) + Kept(stdout) + Kept(stderr) == [o];
    } else if IsBlank(message) && IsBlank(stdout) && !IsBlank(stderr) {
      assert Kept(message) + Kept(stdout) + Kept(stderr) == [e];
    } else if !IsBlank(message) && !IsBlank(stdout) && IsBlank(stderr) {
      assert Kept(message) + Kept(stdout) + Kept(stderr) == [m, o];
      JoinTwo(m, o, ",");
    } else if !IsBlank(message) && IsBlank(stdout) && !IsBlank(stderr) {
      assert Kept(message) + Kept(stdout) + Kept(stderr) == [m, e];
      JoinTwo(m, e, ",");
    } else if IsBlank(message) && !IsBlank(stdout) && !IsBlank(stderr) {
      assert Kept(message) + Kept(stdout) + Kept(stderr) == [o, e];
      JoinTwo(o, e, ",");
    }
  }

  /** The failure message is the comma join of the fields each non-blank
      field contributes. */
  lemma FailureMessageJoin(message: Option<string>, stdout: Option<string>,
                           stderr: Option<string>)
    ensures FailureMessage(message, stdout, stderr)
         == Join(Kept(message) + Kept(stdout) + Kept(stderr), ",")
  {
    PresentFieldsOfThree(message, stdout, stderr);
  }

  predicate HasNoComma(field: Option<string>) {
    field.None? || ',' !in field.value
  }

  /** When no field holds a comma, splitting a non-empty message on commas
      gives back exactly the non-blank fields, in order: the message has no
      empty segment. */
  lemma FailureMessageSegments(message: Option<string>, stdout: Option<string>,
                               stderr: Option<string>)
    requires HasNoComma(message) && HasNoComma(stdout) && HasNoComma(stderr)
    requires FailureMessage(message, stdout, stderr) != ""
    ensures SplitOn(FailureMessage(message, stdout, stderr), ',')
         == PresentFields([message, stdout, stderr])
    ensures forall i :: 0 <= i < |SplitOn(FailureMessage(message, stdout, stderr), ',')| ==>
      SplitOn(FailureMessage(message, stdout, stderr), ',')[i] != ""
  {
    var kept := Kept(message) + Kept(stdout) + Kept(stderr);
    PresentFieldsOfThree(message, stdout, stderr);
    FailureMessageJoin(message, stdout, stderr);
    KeptHasNoComma(message, stdout, stderr);
    SplitOnJoin(kept, ',');
  }

  /** No kept part holds a comma when no field does. */
  lemma KeptHasNoComma(message: Option<string>, stdout: Option<string>,
                       stderr: Option<string>)
    requires HasNoComma(message) && HasNoComma(stdout) && HasNoComma(stderr)
    ensures var kept := Kept(message) + Kept(stdout) + Kept(stderr);
      forall i :: 0 <= i < |kept| ==> ',' !in kept[i]
  {
    var kept := Kept(message) + Kept(stdout) + Kept(stderr);
    forall i | 0 <= i < |kept|
      ensures ',' !in kept[i]
    {
      if i < |Kept(message)| {
        assert kept[i] == message.value;
      } else if i < |Kept(message)| + |Kept(stdout)| {
        assert kept[i] == stdout.value;
      } else {
        assert kept[i] == stderr.value;
      }
    }
  }

  /** The values `+` meets in `cmdSync`: a string, `undefined`, or `NaN`. */
  datatype JsValue = Str(text: string) | Undefined | NaN

  function FieldValue(field: Option<string>): JsValue {
    match field
    case Some(s) => Str(s)
    case None => Undefined
  }

  /** JavaScript's `String(v)`. */
  function ToJsString(v: JsValue): string {
    match v
    case Str(s) => s
    case Undefined => "undefined"
    case NaN => "NaN"
  }

  /** JavaScript's `a + b`: concatenation when either side is a string,
      numeric addition (here always `NaN`) otherwise. */
  function Plus(a: JsValue, b: JsValue): (r: JsValue)
    ensures r.Str? <==> a.Str? || b.Str?
    ensures r.Str? ==> r.text == ToJsString(a) + ToJsString(b)
    ensures !a.Str? && !b.Str? ==> r == NaN
  {
    if a.Str? || b.Str? then Str(ToJsString(a) + ToJsString(b)) else NaN
  }

  /** The failure message of `cmdSync` as written:
      `e.message + e.stdout + e.stderr`. No separator, and an absent field
      shows up as `undefined`. */
  function SyncFailureMessage(message: Option<string>, stdout: Option<string>,
                              stderr: Option<string>): (r: string)
    ensures message.Some? && stdout.Some? && stderr.Some? ==>
      r == message.value + stdout.value + stderr.value
    ensures message.Some? && stdout.None? ==> message.value + "undefined" <= r
    ensures message.None? && stdout.None? && stderr.None? ==> r == "NaN"
  {
    ToJsString(Plus(Plus(FieldValue(message), FieldValue(stdout)), FieldValue(stderr)))
  }

  /** The synchronous entry point logs a different message from the
      asynchronous one for the same error: the separator is missing, and an
      error without captured output gains two `undefined`s. */
  lemma SyncMessageDiffers(message: string, stdout: string, stderr: string)
    requires message != "" && stdout != "" && stderr != ""
    ensures SyncFailureMessage(Some(message), None, None) == message + "undefinedundefined"
    ensures FailureMessage(Some(message), None, None) == message
    ensures SyncFailureMessage(Some(message), Some(stdout), Some(stderr))
         != FailureMessage(Some(message), Some(stdout), Some(stderr))
  {
    SyncWithoutOutput(message);
    FailureMessageCases(Some(message), None, None);
    SyncDropsSeparators(message, stdout, stderr);
  }

  /** An error with a message but no captured output. */
  lemma SyncWithoutOutput(message: string)
    ensures SyncFailureMessage(Some(message), None, None) == message + "undefinedundefined"
  {
    var u := ToJsString(Undefined);
    assert Plus(FieldValue(Some(message)), FieldValue(None)) == Str(message + u);
    assert message + u + u == message + "undefinedundefined";
  }

  /** With every field present, the synchronous message is two characters
      shorter than the asynchronous one. */
  lemma SyncDropsSeparators(message: string, stdout: string, stderr: string)
    requires message != "" && stdout != "" && stderr != ""
    ensures |SyncFailureMessage(Some(message), Some(stdout), Some(stderr))| + 2
         == |FailureMessage(Some(message), Some(stdout), Some(stderr))|
  {
    var a := SyncFailureMessage(Some(message), Some(stdout), Some(stderr));
    var b := FailureMessage(Some(message), Some(stdout), Some(stderr));
    assert a == message + stdout + stderr;
    assert b == message + "," + stdout + "," + stderr;
  }

  // ---------------------------------------------------------------- sandbox PATH

  /** `if (program.sandbox)`: the option was given and is not `""`. */
  predicate IsTruthy(option: Option<string>) {
    option.Some? && option.value != ""
  }

  /** The PATH value after `--sandbox`: unchanged without the option;
      otherwise `[PATH].concat(sandbox.split(',')).join(';')`, which is the
      old PATH, a `;`, and the list with every comma turned into `;`. */
  function SandboxedPath(path: Option<string>, sandbox: Option<string>): (r: Option<string>)
    ensures !IsTruthy(sandbox) ==> r == path
    ensures IsTruthy(sandbox) ==>
      r == Some(OrEmpty(path) + ";" + ReplaceChar(sandbox.value, ',', ';'))
    ensures IsTruthy(sandbox) ==> OrEmpty(path) + ";" <= r.value
  {
    if !IsTruthy(sandbox) then path
    else
      var entries := SplitOn(sandbox.value, ',');
      JoinCons(OrEmpty(path), entries, ";");
      JoinSplitOn(sandbox.value, ',', ';');
      Some(Join([OrEmpty(path)] + entries, ";"))
  }

  /** Splitting the new PATH on `;` lists the old entries followed by the
      sandbox entries, provided the sandbox list holds no `;` of its own. */
  lemma SandboxPathEntries(path: Option<string>, sandbox: string)
    requires sandbox != "" && ';' !in sandbox
    ensures SplitOn(SandboxedPath(path, Some(sandbox)).value, ';')
         == SplitOn(OrEmpty(path), ';') + SplitOn(sandbox, ',')
  {
    SplitOnSeparated(OrEmpty(path), ReplaceChar(sandbox, ',', ';'), ';');
    SplitOnReplace(sandbox, ',', ';');
  }
}
