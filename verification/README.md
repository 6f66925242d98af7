# cli-shell input sniffing, in Dafny

A model of the decision logic in the `cli-shell` command-line scaffold
(`lib/cli-shell.js`). It covers three things.

- `readFromInputChannels` picks its input. Non-empty standard input wins over
  the `--input` file.
- It then classifies the text as JSON, XML or plain text, using the
  sanitise-then-match JSON heuristic and the "trimmed text starts with `<`"
  XML test.
- Plain text is split on `reNewLine` (`/\r\n?|\n/`). If the caller gave a
  per-line callback, the callback runs on every line and empty results are
  dropped.

It also models two pure string computations of the harness:

- the failure message logged when the caller's action fails;
- the PATH value built from `--sandbox`.

Modules, one per component:

| file | module | what it holds |
|---|---|---|
| `wrappers.dfy` | `Wrappers` | `Option` (a JavaScript value that may be `undefined`) and `Result` (returns or throws) |
| `strings.dfy` | `Strings` | JavaScript `\s` whitespace, `trim`, `Array.prototype.join`, `split` on one character, and the lemmas that relate them |
| `json_sniff.dfy` | `JsonSniff` | the three global regex replacements, each written as a left-to-right scan, and the final `/^[\],:{}\s]*$/` test |
| `lines.dfy` | `LineSplit` | `split(reNewLine)`, the per-line callback map, and the `isempty` filter |
| `input_channels.dfy` | `InputChannels` | source choice, the sniffer, classification, and parsing through the foreign parsers |
| `harness.dfy` | `Harness` | the failure messages of `cmd` and `cmdSync`, and the sandbox PATH |
| `scenarios.dfy` | `Scenarios` | worked inputs: mixed line endings, a callback that yields a blank line, numbers one per line, a one-member JSON object, two lines of words |

Some things come in as parameters instead of being computed:

- the standard-input text;
- the file contents, as `None` when `fs.readFileSync` throws;
- `JSON.parse` and the xml2js parser, each a function that returns a value or
  the error it raises;
- the per-line callback, with the `(line, index, array)` arguments that
  `Array.prototype.map` passes to it.

Two behaviours of the code are easy to miss, and the model keeps them:

- Empty or blank input does not reach the plain-text branch. The JSON
  heuristic accepts blank text, so that text goes to `JSON.parse`
  (`JsonSniff.BlankIsJsonLike`, `InputChannels.Sniff`). Splitting would not
  give an empty list anyway: `"".split(reNewLine)` is `[""]`.
- `reNewLine` splits on CR LF, on LF, and also on a lone CR
  (`LineSplit.TerminatorLength`).

## Model

| member | source | states |
|---|---|---|
| `Strings.Trim` | lib/cli-shell.js:128 | `trim()` returns the slice starting at the first non-whitespace character, with whitespace only after it; a non-empty result starts and ends with non-whitespace |
| `Strings.TrimEmptyIffBlank` | lib/cli-shell.js:128 | the trimmed text is empty exactly when the text is all whitespace |
| `Strings.TrimHeadIsFirstNonSpace` | lib/cli-shell.js:128 | `trim()[0]` is the first non-whitespace character, and is undefined exactly for blank text |
| `Strings.SplitOn` | lib/cli-shell.js:75 | `split(',')` always gives at least one part, and no part holds the separator |
| `Strings.JoinCons` | lib/cli-shell.js:192 | `join(sep)` puts the separator between the first part and the join of the remaining parts |
| `Strings.JoinSplitOn` | lib/cli-shell.js:75 | `s.split(c).join(d)` is `s` with every `c` replaced by `d` |
| `Strings.SplitOnJoin` | lib/cli-shell.js:192 | splitting on a separator undoes joining with it, when no part contains the separator |
| `Strings.SplitOnSeparated` | lib/cli-shell.js:75 | splitting `a + c + b` on `c` gives the parts of `a` followed by the parts of `b` |
| `Strings.SplitOnReplace` | lib/cli-shell.js:75 | replacing `,` by `;` in text without `;` keeps the pieces between separators |
| `JsonSniff.EscapePass` | lib/cli-shell.js:119 | the escape pass never lengthens the text and leaves text without a backslash unchanged; non-empty text stays non-empty and starts with `@` or with its original first character; no backslash followed by one of `"\/bfnrtu` is left in the result |
| `JsonSniff.EscapePassStep` | lib/cli-shell.js:119 | a character where no escape sequence begins is copied, and the pass goes on after it |
| `JsonSniff.BackslashKept` | lib/cli-shell.js:119 | a backslash before a character that is not an escape letter is kept, and the pass goes on at that character |
| `JsonSniff.EscapePassCopies` | lib/cli-shell.js:119 | the escape pass leaves a backslash-free prefix unchanged and works on the rest alone |
| `JsonSniff.EscapePassReplaces` | lib/cli-shell.js:119 | a backslash and an escape letter at the front become one `@`, and the pass goes on after them |
| `JsonSniff.QuotedLength` | lib/cli-shell.js:120 | a quoted-literal match is a closed quoted literal: `"`, characters other than a quote, backslash, CR or LF, then `"`; whenever the text starts with such a literal, the match is exactly that literal |
| `JsonSniff.ExponentLength` | lib/cli-shell.js:120 | the match of `(?:[eE][+\-]?\d+)?` is the longest prefix of that form: `e` or `E`, an optional sign, then one or more digits, and no digit follows it; conversely `e`/`E` followed by a digit, or by a sign and a digit, always matches |
| `JsonSniff.FractionLength` | lib/cli-shell.js:120 | the match of `(?:\.\d*)?` is the longest prefix that is empty or `.` followed by digits only; it is non-empty exactly when the text starts with `.`, and no digit follows it |
| `JsonSniff.UnsignedLength` | lib/cli-shell.js:120 | the match of `\d+(?:\.\d*)?(?:[eE][+\-]?\d+)?` is the longest prefix made of a digit run, a fraction and an exponent in that order; it exists exactly when the text starts with a digit, ends in a digit or `.`, and no digit follows it |
| `JsonSniff.NumberLength` | lib/cli-shell.js:120 | the number match is the longest prefix that is an unsigned number, with or without one leading `-`; it starts with a digit or with `-` and a digit and ends in a digit or `.`; conversely a digit, or `-` and a digit, at the front always starts a match |
| `JsonSniff.UnsignedMatch` | lib/cli-shell.js:120 | a maximal digit run followed by the longest fraction and then the longest exponent is an unsigned number, and no longer prefix is one |
| `JsonSniff.NumberAfterMinus` | lib/cli-shell.js:120 | after a `-`, the number match is the `-` and the longest unsigned number after it, and no longer prefix is a number |
| `JsonSniff.IntegerLength` | lib/cli-shell.js:120 | a run of digits followed by no digit, `.`, `e` or `E` is a number match of exactly that length |
| `JsonSniff.TokenLength` | lib/cli-shell.js:120 | a literal match can begin only with `"`, `t`, `f`, `n`, `-` or a digit; at a `"` it is the quoted-literal match; a `true`, `false` or `null` prefix gives a match of length 4, 5 or 4, and a match at `t`, `f` or `n` is one of those keywords; at `-` or a digit it is the number match |
| `JsonSniff.LiteralPass` | lib/cli-shell.js:120 | the literal pass never lengthens the text, and leaves text in which no literal can begin unchanged |
| `JsonSniff.LiteralPassStep` | lib/cli-shell.js:120 | a character where no literal match begins (such as the `f` of `foo`, or `-` not followed by a digit) is copied, and the pass goes on after it |
| `JsonSniff.LiteralPassCopies` | lib/cli-shell.js:120 | the literal pass leaves unchanged a prefix in which no literal can begin |
| `JsonSniff.LiteralPassReplaces` | lib/cli-shell.js:120 | a literal match at the front is replaced by one `]`, and the pass goes on after it |
| `JsonSniff.QuotedLiteralReplaced` | lib/cli-shell.js:120 | a closed quoted literal at the front becomes `]`, whatever follows |
| `JsonSniff.KeywordReplaced` | lib/cli-shell.js:120 | `true`, `false` or `null` at the front becomes `]`, whatever follows: the pattern has no word boundary |
| `JsonSniff.OpenBracketsLength` | lib/cli-shell.js:121 | a `(?:\s*\[)+` match exists exactly when the text starts with whitespace and then `[`; it holds only whitespace and `[`, and ends at a `[` that no further whitespace-then-`[` follows |
| `JsonSniff.OpenBracketsRun` | lib/cli-shell.js:121 | a whole run of whitespace and `[` ending in `[`, with no further whitespace-then-`[` after it, is matched exactly |
| `JsonSniff.OpenerLength` | lib/cli-shell.js:121 | a match exists exactly when the text begins with whitespace-then-`[` at the start of the input, or begins with `:` or `,` followed by whitespace-then-`[`; away from the start it must begin with `:` or `,`; after its first character it holds only whitespace and `[`; it ends at a `[` with no further whitespace-then-`[` after it |
| `JsonSniff.BracketPass` | lib/cli-shell.js:121 | the bracket pass never lengthens the text; away from the start, text without `:` or `,` is unchanged |
| `JsonSniff.BracketPassStep` | lib/cli-shell.js:121 | away from the start, a character where no match begins is copied and the pass goes on after it |
| `JsonSniff.SeparatorKept` | lib/cli-shell.js:121 | a `:` or `,` not followed by whitespace-then-`[` is kept |
| `JsonSniff.StartRunDeleted` | lib/cli-shell.js:121 | at the start of the input a whole bracket run (several `[`, with whitespace between) is deleted |
| `JsonSniff.SeparatorRunDeleted` | lib/cli-shell.js:121 | away from the start, a `:` or `,` and the whole bracket run after it are deleted together |
| `JsonSniff.BracketPassCopies` | lib/cli-shell.js:121 | away from the start, the bracket pass leaves unchanged a prefix with no `:` or `,` |
| `JsonSniff.SeparatorBracketDeleted` | lib/cli-shell.js:121 | away from the start, a `:` or `,`, whitespace and `[` are deleted together when no further whitespace-then-`[` follows |
| `JsonSniff.BracketPassBlank` | lib/cli-shell.js:121 | blank text comes through the bracket pass unchanged |
| `JsonSniff.BracketPassAngle` | lib/cli-shell.js:121 | at the start, the bracket pass copies whitespace followed by `<` |
| `JsonSniff.Sanitize` | lib/cli-shell.js:119-121 | the three passes together never lengthen the text |
| `JsonSniff.SanitizeKeepsBlank` | lib/cli-shell.js:119-121 | all three passes leave blank text unchanged |
| `JsonSniff.SanitizeKeepsAngle` | lib/cli-shell.js:119-121 | all three passes keep leading whitespace and a following `<` in place |
| `JsonSniff.SanitizeKeepsFirstAngle` | lib/cli-shell.js:119-121 | when the first non-whitespace character is `<`, it is still at the same position after the three passes |
| `JsonSniff.SanitizeKeepsInertStart` | lib/cli-shell.js:119-121 | a first character that starts no escape, literal or bracket run stays first after the passes |
| `JsonSniff.SanitizeKeepsWordStart` | lib/cli-shell.js:119-121 | a `t`, `f` or `n` followed by a character other than a backslash that does not continue it into `tr`, `fa` or `nu` stays first after the passes |
| `JsonSniff.WordStartIsNotJsonLike` | lib/cli-shell.js:119-121 | text that opens with a word such as `foo` fails the JSON test |
| `JsonSniff.BlankIsJsonLike` | lib/cli-shell.js:119-121 | empty or blank text passes the JSON test |
| `JsonSniff.AngleIsNotJsonLike` | lib/cli-shell.js:119-128 | text whose first non-whitespace character is `<` never passes the JSON test |
| `JsonSniff.InertStartIsNotJsonLike` | lib/cli-shell.js:119-121 | text fails the JSON test when its first character is none of: a backslash, `[`, whitespace, a literal start (`"`, `t`, `f`, `n`, `-`, a digit), or one of `],:{}` |
| `LineSplit.TerminatorLength` | lib/cli-shell.js:21 | `reNewLine` matches at the front exactly when the text starts with CR or LF; CR LF is one two-character terminator (`\n?` is greedy), a lone CR and an LF are one character each |
| `LineSplit.SplitLines` | lib/cli-shell.js:153 | `split(reNewLine)` gives one line more than there are terminators, and no line holds CR or LF |
| `LineSplit.NormalizeNewlines` | lib/cli-shell.js:153 | normalising line endings leaves no CR behind |
| `LineSplit.JoinSplitLines` | lib/cli-shell.js:153 | joining the split lines with LF gives the input with every CR LF and lone CR turned into LF |
| `LineSplit.SplitJoinLines` | lib/cli-shell.js:153 | splitting undoes joining with LF when no line holds a line break |
| `LineSplit.MapLines` | lib/cli-shell.js:159 | `map` calls the callback on every line with its index and the whole array, one result per line, in order |
| `LineSplit.DropEmpty` | lib/cli-shell.js:159 | the `isempty` filter keeps only non-empty strings, each as often as it occurs, in source order; the result is empty exactly when every element is empty |
| `LineSplit.DropEmptyCons` | lib/cli-shell.js:159 | the filter decides the first element on its own: an empty one is dropped, any other is kept in front |
| `LineSplit.ApplyLineParser` | lib/cli-shell.js:157-159 | without a callback the lines are returned as split; with one, the result is the non-empty callback results, in order, at most one per line |
| `InputChannels.XmlLikeIffAngleFirst` | lib/cli-shell.js:128 | the XML test holds exactly when the first non-whitespace character is `<` |
| `InputChannels.Sniff` | lib/cli-shell.js:119-161 | exactly one format is chosen; XML is chosen exactly when the first non-whitespace character is `<`; blank text is JSON; plain text is what fails both tests |
| `InputChannels.Classify` | lib/cli-shell.js:117-161 | JSON and XML keep the text; plain text becomes the split lines with the callback applied. Without a callback there is one line more than there are terminators, no line holds a line break, and the LF-join of the lines is the normalised text. With a callback there are at most that many lines and none is empty |
| `InputChannels.InertStartIsPlain` | lib/cli-shell.js:149-160 | text that opens with an ordinary letter (not `t`, `f` or `n`) is split into lines |
| `InputChannels.WordStartIsPlain` | lib/cli-shell.js:149-160 | text that opens with `t`, `f` or `n` followed by a character other than a backslash that does not continue it into `tr`, `fa` or `nu` (a word such as `foo`) is split into lines |
| `InputChannels.ChooseInput` | lib/cli-shell.js:106-115 | non-empty stdin is the input; otherwise the file contents, and an unreadable file is an error |
| `InputChannels.ParseInput` | lib/cli-shell.js:117-163 | a JSON or XML parse error is raised, not returned as configuration; the plain-text branch never fails |
| `InputChannels.ReadFromInputChannels` | lib/cli-shell.js:102-164 | the result is the parse of stdin when stdin is non-empty, the parse of the file otherwise, and a read error when the file cannot be read |
| `InputChannels.StdinTrumpsFile` | lib/cli-shell.js:106-115 | with non-empty stdin the result is the same whatever the file holds, even when it cannot be read |
| `Scenarios.MixedLineEndings` | lib/cli-shell.js:153 | `"a\nb\r\nc"` is plain text with lines `a`, `b`, `c` |
| `Scenarios.SplitMixedBreaks` | lib/cli-shell.js:153 | any three lines without line breaks, ended by LF and by CR LF, split back into those three lines |
| `Scenarios.SplitAroundBlank` | lib/cli-shell.js:153 | two LFs in a row leave an empty line between their neighbours |
| `Scenarios.SplitTwoLines` | lib/cli-shell.js:153 | two lines without line breaks joined by LF split back into those two lines |
| `Scenarios.WordLinesArePlain` | lib/cli-shell.js:119-160 | `"foo\nbar"` is plain text with lines `foo`, `bar` |
| `Scenarios.CallbackDropsBlankLine` | lib/cli-shell.js:157-159 | with an upper-casing callback, `"a\n\nb"` gives `A`, `B`: the blank line is dropped |
| `Scenarios.DigitLinesAreJsonLike` | lib/cli-shell.js:119-121 | two lines of one digit each are reduced to `]`, LF, `]` and pass the JSON test |
| `Scenarios.NumberLinesAreJsonLike` | lib/cli-shell.js:119-121 | `"1\n2"`, numbers one per line, passes the JSON test and so goes to the JSON parser |
| `Scenarios.OneMemberObjectIsJsonLike` | lib/cli-shell.js:119-121 | `{`, a quoted key, `:[`, a digit and any closing brackets and braces are reduced to `{]]` and the closers, and pass the JSON test |
| `Scenarios.ObjectIsJsonLike` | lib/cli-shell.js:119-121 | `{"a":[1]}` passes the JSON test |
| `Harness.PresentFields` | lib/cli-shell.js:192 | the filter keeps exactly the non-blank field values: a subsequence of the fields' texts in source order, with the same multiplicities apart from blanks, none empty, each a field's value; it is empty exactly when all fields are blank |
| `Harness.PresentFieldsOfThree` | lib/cli-shell.js:192 | over the three fields of a caught error, the filter keeps each non-blank one in the order message, stdout, stderr |
| `Harness.FailureMessage` | lib/cli-shell.js:192 | the message is empty exactly when message, stdout and stderr are all blank; it starts with the error message; with all three present it is `message,stdout,stderr` |
| `Harness.FailureMessageCases` | lib/cli-shell.js:192 | with one non-blank field the message is that field; with two it is those two, in order, with a comma between |
| `Harness.FailureMessageSegments` | lib/cli-shell.js:192 | when no field holds a comma, splitting the message on commas gives back the non-blank fields in order, none of them empty |
| `Harness.Plus` | lib/cli-shell.js:225 | JavaScript `+` concatenates the two sides as strings when either side is a string, and gives `NaN` when neither is |
| `Harness.SyncFailureMessage` | lib/cli-shell.js:225 | the synchronous message concatenates the three fields with no separator; a missing stdout shows as `undefined`; no fields at all gives `NaN` |
| `Harness.SyncMessageDiffers` | lib/cli-shell.js:225 | the two entry points log different messages for an error with only a message (`m` against `mundefinedundefined`) and for every error whose three fields are all non-empty |
| `Harness.SandboxedPath` | lib/cli-shell.js:72-76 | without a truthy `--sandbox` PATH is unchanged; with one it is the old PATH, `;`, then the list with commas turned into `;` (so the old PATH is a prefix) |
| `Harness.SandboxPathEntries` | lib/cli-shell.js:75 | splitting the new PATH on `;` lists the old entries and then the sandbox entries |

## Left out

- `readStdin` (lib/cli-shell.js:24-48) is asynchronous stream and TTY I/O. Its
  result is the `stdin` parameter.
- `fs.readFileSync` is I/O. The file contents are a parameter, and `None`
  stands for a read that throws. The Buffer-to-UTF-8 decoding is not modelled:
  contents arrive as text.
- `JSON.parse` and the xml2js parser are foreign code. They are uninterpreted
  function parameters, and no JSON or XML grammar is modelled.
- The model assumes xml2js calls its callback before `parseString` returns.
  If it called back later, the code would return `undefined`, and that case is
  not modelled.
- The callback results are strings only. `isempty` on numbers, booleans,
  arrays and objects is not modelled. An absent error field is `None`, and
  other non-string field values are not modelled.
- Strings are sequences of Unicode scalar values, not UTF-16 code units.
  Nothing modelled here depends on characters outside the Basic Multilingual
  Plane.
- Commander option registration and parsing (lib/cli-shell.js:53-69), the
  SIGINT handler (78-80) and `process.env` mutation are library glue and
  global side effects. The new PATH is returned as a value, and its `;`
  separator is kept as written on every platform.
- `configureOutput`, `lib/cli-logger.js`, `moment`/`Date` timestamps, writing
  the output, `console.log`, `debug` and `process.exit` are logging
  configuration, clock-dependent or I/O.
- The promise and try/catch orchestration of `cmd` and `cmdSync` is not
  modelled. Only the failure-message strings are.
- A per-line callback that throws is not modelled. In the code the exception
  leaves `readFromInputChannels` at lib/cli-shell.js:159; here `LineParser`
  is a total function from the line, its index and the array to a string.

## Findings

| source | as written | input that shows it | evidently intended | confidence | as-written member | corrected member |
|---|---|---|---|---|---|---|
| lib/cli-shell.js:225 | `cmdSync` logs `e.message + e.stdout + e.stderr`: no separator, and an absent field becomes `undefined` (or the whole thing becomes `NaN`) | an `Error("boom")` with no captured output logs `boomundefinedundefined`; message `a`, stdout `b`, stderr `c` logs `abc` | the comma join of the non-blank fields that `cmd` uses at line 192 | medium, not executed | `Harness.SyncFailureMessage`, `Harness.SyncMessageDiffers` | `Harness.FailureMessage` |

The model takes `Harness.FailureMessage` as the failure message of both entry
points. `Harness.FailureMessageSegments` proves its intended property: no empty
segment, and the fields in order.
