/** `readFromInputChannels` (lib/cli-shell.js:102-164): choose between the
    text read from standard input and the contents of the `--input` file,
    classify the text as JSON, XML or plain text, and produce the parsed
    configuration.

    Reading standard input and the file happens outside: the stdin text and
    the file contents arrive as parameters, the file as `None` when
    `fs.readFileSync` throws. `JSON.parse` and the xml2js parser are foreign
    code and arrive as parameters too, each returning either a value or the
    error it raises. */
module InputChannels {
  import opened Wrappers
  import opened Strings
  import opened JsonSniff
  import opened LineSplit

  /** The XML test: `input.toString('utf8').trim()[0] === '<'`. */
  predicate XmlLike(text: string) {
    var t := Trim(text);
    |t| > 0 && t[0] == '<'
  }

  /** The XML test holds exactly when the first non-whitespace character is
      `<`. */
  lemma XmlLikeIffAngleFirst(text: string)
    ensures XmlLike(text) <==> FirstNonSpace(text) == Some('<')
  {
    TrimHeadIsFirstNonSpace(text);
  }

  /** Facts about the two tests that the classification relies on. */
  lemma TestFacts(text: string)
    ensures FirstNonSpace(text) == Some('<') ==> !JsonLike(text)
    ensures AllSpace(text) ==> JsonLike(text)
    ensures XmlLike(text) <==> FirstNonSpace(text) == Some('<')
  {
    if FirstNonSpace(text) == Some('<') {
      AngleIsNotJsonLike(text);
    }
    if AllSpace(text) {
      BlankIsJsonLike(text);
    }
    XmlLikeIffAngleFirst(text);
  }

  datatype Format = JsonFormat | XmlFormat | PlainFormat

  /** The format sniffer: the JSON test first, then the XML test, else plain
      text. The JSON test never pre-empts the XML test, so the XML branch is
      taken exactly for text whose first non-whitespace character is `<`;
      blank text, the empty text included, takes the JSON branch. */
  function Sniff(text: string): (f: Format)
    ensures f == JsonFormat <==> JsonLike(text)
    ensures f == XmlFormat <==> FirstNonSpace(text) == Some('<')
    ensures f == PlainFormat <==> !JsonLike(text) && FirstNonSpace(text) != Some('<')
    ensures AllSpace(text) ==> f == JsonFormat
  {
    TestFacts(text);
    if JsonLike(text) then JsonFormat
    else if XmlLike(text) then XmlFormat
    else PlainFormat
  }

  /** The classified input, before the foreign parsers run. */
  datatype Classified = JsonText(text: string) | XmlText(text: string) | Lines(lines: seq<string>)

  /** Classification of the input text: JSON and XML keep the text for their
      parsers; plain text is split into lines, and the optional callback is
      applied. */
  function Classify(text: string, parser: Option<LineParser>): (c: Classified)
    ensures c.JsonText? <==> JsonLike(text)
    ensures c.XmlText? <==> FirstNonSpace(text) == Some('<')
    ensures c.JsonText? || c.XmlText? ==> c.text == text
    ensures AllSpace(text) ==> c == JsonText(text)
    ensures c.Lines? ==> c.lines == ApplyLineParser(SplitLines(text), parser)
    ensures c.Lines? && parser.None? ==>
      && |c.lines| == TerminatorCount(text) + 1
      && (forall i :: 0 <= i < |c.lines| ==> NoLineBreak(c.lines[i]))
      && Join(c.lines, "\n") == NormalizeNewlines(text)
    ensures c.Lines? && parser.Some? ==>
      && |c.lines| <= TerminatorCount(text) + 1
      && (forall i :: 0 <= i < |c.lines| ==> c.lines[i] != "")
  {
    match Sniff(text)
    case JsonFormat => JsonText(text)
    case XmlFormat => XmlText(text)
    case PlainFormat =>
      JoinSplitLines(text);
      Lines(ApplyLineParser(SplitLines(text), parser))
  }

  /** Text that opens with an inert, non-structural character other than
      `<` (a letter other than `t`, `f` and `n`, say) is plain text. */
  lemma InertStartIsPlain(text: string, parser: Option<LineParser>)
    requires |text| > 0 && IsInert(text[0]) && !IsStructural(text[0]) && text[0] != '<'
    ensures Classify(text, parser) == Lines(ApplyLineParser(SplitLines(text), parser))
  {
    InertStartIsNotJsonLike(text);
  }

  /** Text that opens with a `t`, `f` or `n` that does not go on into
      `true`, `false` or `null` (a word such as `foo`) is plain text. */
  lemma WordStartIsPlain(text: string, parser: Option<LineParser>)
    requires |text| >= 2 && (text[0] == 't' || text[0] == 'f' || text[0] == 'n')
    requires text[1] != '\\' && !StartsKeyword(text[0], text[1])
    ensures Classify(text, parser) == Lines(ApplyLineParser(SplitLines(text), parser))
  {
    assert !IsJsSpace(text[0]) && FirstNonSpace(text) == Some(text[0]);
    WordStartIsNotJsonLike(text);
  }

  /** Why an invocation cannot produce a configuration: the input file could
      not be read, or a foreign parser raised `cause`. */
  datatype InputError<E> = FileUnreadable | JsonFailure(cause: E) | XmlFailure(cause: E)

  /** The parsed configuration stored on `program.inputData`. */
  datatype Config<J, X> = JsonConfig(json: J) | XmlConfig(xml: X) | LinesConfig(lines: seq<string>)

  /** Source choice: non-empty standard input wins; otherwise the file's
      contents, and a file that cannot be read is fatal. */
  function ChooseInput<E>(stdin: string, file: Option<string>): (r: Result<string, InputError<E>>)
    ensures stdin != "" ==> r == Ok(stdin)
    ensures stdin == "" ==> (r.Ok? <==> file.Some?)
    ensures stdin == "" && file.Some? ==> r == Ok(file.value)
    ensures r.Err? ==> r.error == FileUnreadable
  {
    if stdin != "" then Ok(stdin)
    else match file
      case Some(contents) => Ok(contents)
      case None => Err(FileUnreadable)
  }

  /** Parsing the chosen text. A JSON or XML parse error is raised to the
      caller; the plain-text branch cannot fail. */
  function ParseInput<J, X, E>(text: string, parser: Option<LineParser>,
                               parseJson: string -> Result<J, E>,
                               parseXml: string -> Result<X, E>): (r: Result<Config<J, X>, InputError<E>>)
    ensures r.Err? ==> !r.error.FileUnreadable?
    ensures FirstNonSpace(text) == Some('<') ==>
      && (r.Ok? <==> parseXml(text).Ok?)
      && (parseXml(text).Ok? ==> r == Ok(XmlConfig(parseXml(text).value)))
      && (parseXml(text).Err? ==> r == Err(XmlFailure(parseXml(text).error)))
    ensures JsonLike(text) ==>
      && (r.Ok? <==> parseJson(text).Ok?)
      && (parseJson(text).Ok? ==> r == Ok(JsonConfig(parseJson(text).value)))
      && (parseJson(text).Err? ==> r == Err(JsonFailure(parseJson(text).error)))
    ensures !JsonLike(text) && FirstNonSpace(text) != Some('<') ==>
      r == Ok(LinesConfig(ApplyLineParser(SplitLines(text), parser)))
  {
    match Classify(text, parser)
    case JsonText(t) =>
      (match parseJson(t)
       case Ok(v) => Ok(JsonConfig(v))
       case Err(e) => Err(JsonFailure(e)))
    case XmlText(t) =>
      (match parseXml(t)
       case Ok(v) => Ok(XmlConfig(v))
       case Err(e) => Err(XmlFailure(e)))
    case Lines(lines) => Ok(LinesConfig(lines))
  }

  /** `readFromInputChannels`: source choice, then classification and
      parsing of the chosen text. */
  function ReadFromInputChannels<J, X, E>(stdin: string, file: Option<string>,
                                          parser: Option<LineParser>,
                                          parseJson: string -> Result<J, E>,
                                          parseXml: string -> Result<X, E>): (r: Result<Config<J, X>, InputError<E>>)
    ensures stdin != "" ==> r == ParseInput(stdin, parser, parseJson, parseXml)
    ensures stdin == "" && file.None? ==> r == Err(FileUnreadable)
    ensures stdin == "" && file.Some? ==> r == ParseInput(file.value, parser, parseJson, parseXml)
  {
    match ChooseInput(stdin, file)
    case Ok(text) => ParseInput(text, parser, parseJson, parseXml)
    case Err(e) => Err(e)
  }

  /** With non-empty standard input the file is never consulted: whatever it
      holds, and whether or not it can be read, the result is the same. */
  lemma StdinTrumpsFile<J, X, E>(stdin: string, file1: Option<string>, file2: Option<string>,
                                 parser: Option<LineParser>,
                                 parseJson: string -> Result<J, E>,
                                 parseXml: string -> Result<X, E>)
    requires stdin != ""
    ensures ReadFromInputChannels(stdin, file1, parser, parseJson, parseXml)
         == ReadFromInputChannels(stdin, file2, parser, parseJson, parseXml)
  {
  }
}
