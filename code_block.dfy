/**
 * The self-contained logic of the markdown code-block renderer: the label
 * shown for a code block's language, the language taken from the block's
 * class name, the collapsed preview of SQL code, and the state machine that
 * classifies the streamed text of an `echarts` block as still loading, a
 * chart option, or an error.
 */
module CodeBlock {
  import opened Wrappers
  import opened JsString

  // ---------------------------------------------------------------------
  // Language label
  // ---------------------------------------------------------------------

  /** Languages whose label is not simply the name with a capital first letter. */
  const LanguageNames: map<string, string> := map[
    "sql" := "SQL",
    "javascript" := "JavaScript",
    "java" := "Java",
    "typescript" := "TypeScript",
    "vbscript" := "VBScript",
    "css" := "CSS",
    "html" := "HTML",
    "xml" := "XML",
    "php" := "PHP",
    "python" := "Python",
    "yaml" := "Yaml",
    "mermaid" := "Mermaid",
    "markdown" := "MarkDown",
    "makefile" := "MakeFile",
    "echarts" := "ECharts",
    "shell" := "Shell",
    "powershell" := "PowerShell",
    "json" := "JSON",
    "latex" := "Latex",
    "svg" := "SVG",
    "abc" := "ABC"
  ]

  predicate IsLowerAscii(c: char) {
    'a' <= c <= 'z'
  }

  /** `toUpperCase` on one character, for the ASCII letters. */
  function UpperCase(c: char): (u: char)
    ensures !IsLowerAscii(u)
    ensures IsLowerAscii(c) ==> u as int == c as int - 'a' as int + 'A' as int
    ensures !IsLowerAscii(c) ==> u == c
  {
    if IsLowerAscii(c) then (c as int - 'a' as int + 'A' as int) as char else c
  }

  /** The label shown in a code block's header for `language`. */
  function LanguageLabel(language: string): string
  {
    if language == "" then "Plain"
    else if language in LanguageNames then LanguageNames[language]
    else [UpperCase(language[0])] + language[1..]
  }

  /**
   * No language is labelled "Plain"; a known language gets its table entry;
   * any other name keeps its length and all but its first character, which
   * is upper-cased.
   */
  lemma LanguageLabelCases(language: string)
    ensures language == "" ==> LanguageLabel(language) == "Plain"
    ensures language in LanguageNames ==> LanguageLabel(language) == LanguageNames[language]
    ensures language != "" && language !in LanguageNames ==>
      var r := LanguageLabel(language);
      |r| == |language| && r[0] == UpperCase(language[0]) &&
      forall k :: 1 <= k < |language| ==> r[k] == language[k]
  {
  }

  /** Every key of the table starts with a lower-case ASCII letter. */
  lemma LanguageNameKeysAreLower(key: string)
    requires key in LanguageNames
    ensures |key| > 0 && IsLowerAscii(key[0])
  {
  }

  /** Every label in the table starts with a character that is not lower-case. */
  lemma LanguageNameValuesAreCapitalized(key: string)
    requires key in LanguageNames
    ensures LanguageNames[key] != "" && !IsLowerAscii(LanguageNames[key][0])
    ensures LanguageNames[key] !in LanguageNames
  {
  }

  /** A label is never empty and labelling a label changes nothing. */
  lemma {:induction false} LanguageLabelIsFixedPoint(language: string)
    ensures LanguageLabel(language) != ""
    ensures LanguageLabel(LanguageLabel(language)) == LanguageLabel(language)
  {
    var r := LanguageLabel(language);
    if language == "" {
      assert r == "Plain";
      assert "Plain" !in LanguageNames;
    } else if language in LanguageNames {
      LanguageNameValuesAreCapitalized(language);
    } else {
      assert r[0] == UpperCase(language[0]);
      if r in LanguageNames {
        LanguageNameKeysAreLower(r);
      }
      assert r !in LanguageNames;
      assert [UpperCase(r[0])] + r[1..] == r;
    }
  }

  // ---------------------------------------------------------------------
  // Language from the class name: /language-(\w+)/
  // ---------------------------------------------------------------------

  const LanguageMarker := "language-"

  /** `\w`: an ASCII letter, digit or underscore. */
  predicate IsWordChar(c: char) {
    ('a' <= c <= 'z') || ('A' <= c <= 'Z') || ('0' <= c <= '9') || c == '_'
  }

  /** The regular expression matches at position `i` of `s`. */
  predicate MatchesAt(s: string, i: nat)
    requires i <= |s|
  {
    LanguageMarker <= s[i..] && i + |LanguageMarker| < |s| && IsWordChar(s[i + |LanguageMarker|])
  }

  /** The leftmost match position at or after `from`, if any. */
  function FirstMatch(s: string, from: nat): (r: Option<nat>)
    requires from <= |s|
    ensures r.Some? ==> (from <= r.value <= |s| && MatchesAt(s, r.value) &&
      forall j :: from <= j < r.value ==> !MatchesAt(s, j))
    ensures r.None? ==> forall j :: from <= j <= |s| ==> !MatchesAt(s, j)
    decreases |s| - from
  {
    if MatchesAt(s, from) then Some(from)
    else if from == |s| then None
    else FirstMatch(s, from + 1)
  }

  /** The longest prefix of `s` made of word characters (the greedy `\w+`). */
  function WordRun(s: string): (r: string)
    ensures r <= s
    ensures forall k :: 0 <= k < |r| ==> IsWordChar(r[k])
    ensures |r| < |s| ==> !IsWordChar(s[|r|])
    decreases |s|
  {
    if s != [] && IsWordChar(s[0]) then [s[0]] + WordRun(s[1..]) else ""
  }

  /**
   * The captured group of `/language-(\w+)/.exec(className)`: the longest
   * run of word characters after the leftmost "language-" that is followed
   * by one; `None` when there is no such occurrence.
   */
  function LanguageOf(className: string): (r: Option<string>)
    ensures r.None? <==> forall j :: 0 <= j <= |className| ==> !MatchesAt(className, j)
    ensures r.Some? ==> |r.value| > 0 && forall k :: 0 <= k < |r.value| ==> IsWordChar(r.value[k])
    ensures r.Some? ==> exists i :: (0 <= i <= |className| && MatchesAt(className, i) &&
      (forall j :: 0 <= j < i ==> !MatchesAt(className, j)) &&
      r.value == WordRun(className[i + |LanguageMarker|..]))
  {
    match FirstMatch(className, 0)
    case None => None
    case Some(i) => Some(WordRun(className[i + |LanguageMarker|..]))
  }

  // ---------------------------------------------------------------------
  // Collapsed preview of SQL code
  // ---------------------------------------------------------------------

  const PreviewLines := 5

  /** `String(children).replace(/\n$/, '')`: drop one final line feed. */
  function StripTrailingNewline(s: string): (r: string)
    ensures s == r || s == r + "\n"
    ensures |s| > 0 && s[|s| - 1] == '\n' ==> r == s[..|s| - 1]
    ensures |s| > 0 && s[|s| - 1] != '\n' ==> r == s
  {
    if |s| > 0 && s[|s| - 1] == '\n' then s[..|s| - 1] else s
  }

  /** The preview is collapsed for `sql` and `mysql` blocks that the reader has not expanded. */
  predicate ShouldTruncate(language: Option<string>, isExpanded: bool) {
    (language == Some("sql") || language == Some("mysql")) && !isExpanded
  }

  /** The text handed to the highlighter: the first five lines and "\n..." when collapsed. */
  function TruncatedContent(display: string, shouldTruncate: bool): string
  {
    if shouldTruncate then
      var lines := Split(display, '\n');
      Join(lines[..Min(PreviewLines, |lines|)], "\n") + "\n..."
    else
      display
  }

  /**
   * A collapsed preview is the text up to (not including) its fifth line
   * feed, or all of it, followed by "\n..."; the marker is added even when
   * the text has five lines or fewer. An expanded preview is the text.
   */
  lemma TruncationKeepsLeadingLines(display: string)
    ensures var r := TruncatedContent(display, true);
      |r| >= 4 && r[|r| - 4..] == "\n..." &&
      var kept := r[..|r| - 4];
      |kept| <= |display| && kept == display[..|kept|] &&
      Count('\n', kept) == Min(PreviewLines - 1, Count('\n', display)) &&
      (|kept| < |display| ==> display[|kept|] == '\n')
    ensures Count('\n', display) < PreviewLines ==> TruncatedContent(display, true) == display + "\n..."
    ensures TruncatedContent(display, false) == display
  {
    var lines := Split(display, '\n');
    var k := Min(PreviewLines, |lines|);
    var kept := Join(lines[..k], "\n");
    var r := TruncatedContent(display, true);
    assert r == kept + "\n...";
    assert r[..|r| - 4] == kept;
    SplitLength(display, '\n');
    JoinSplitPrefix(display, '\n', k);
    if Count('\n', display) < PreviewLines {
      assert lines[..k] == lines;
      JoinSplit(display, '\n');
    }
  }

  /**
   * The text given to the highlighter: for a `sql` or `mysql` block that
   * has not been expanded, a shortened text ending in "\n..."; for an
   * expanded block, or one in any other highlighted language, the text
   * unchanged.
   */
  lemma PreviewOfBlock(language: Option<string>, isExpanded: bool, display: string)
    ensures (language == Some("sql") || language == Some("mysql")) && !isExpanded ==>
      var r := TruncatedContent(display, ShouldTruncate(language, isExpanded));
      |r| >= 4 && r[|r| - 4..] == "\n..."
    ensures isExpanded || (language != Some("sql") && language != Some("mysql")) ==>
      TruncatedContent(display, ShouldTruncate(language, isExpanded)) == display
  {
    TruncationKeepsLeadingLines(display);
  }

  // ---------------------------------------------------------------------
  // Results of the two parsers
  // ---------------------------------------------------------------------

  /** A JavaScript value, as far as the classifier tells values apart. */
  datatype JsValue =
    | Structured(id: nat)    // an object or an array
    | Null
    | Primitive(id: nat)     // a number, string, boolean, undefined, function, ...

  /** `typeof v === 'object'`, which holds for `null` too. */
  predicate TypeofIsObject(v: JsValue) {
    v.Structured? || v.Null?
  }

  /** `typeof v === 'object' && v !== null`: the guard on every accepted chart option. */
  predicate IsChartOption(v: JsValue) {
    TypeofIsObject(v) && v != Null
  }

  /** What calling a parser on a text does: it throws, or returns a value. */
  datatype Completion = Threw | Returned(value: JsValue)

  /**
   * A parser: `JSON.parse(t)` and `new Function("return " + t)()` are both
   * taken as functions of the text whose behaviour is otherwise unknown.
   */
  type Parser = string -> Completion

  /** The outcome of one strict-then-lenient parse attempt. */
  datatype Verdict = Resolved(option: JsValue) | Failed | Undecided

  /**
   * Try the strict parser; if it throws, try the lenient one. A structured
   * result resolves, a primitive one decides nothing, and two throws fail.
   */
  function Attempt(t: string, jsonParse: Parser, evaluate: Parser): (r: Verdict)
    ensures r.Resolved? ==> (IsChartOption(r.option) &&
      (jsonParse(t) == Returned(r.option) || (jsonParse(t) == Threw && evaluate(t) == Returned(r.option))))
    ensures r == Failed <==> jsonParse(t) == Threw && evaluate(t) == Threw
    ensures r == Undecided <==>
      (jsonParse(t).Returned? && !IsChartOption(jsonParse(t).value)) ||
      (jsonParse(t) == Threw && evaluate(t).Returned? && !IsChartOption(evaluate(t).value))
  {
    match jsonParse(t)
    case Returned(v) => if IsChartOption(v) then Resolved(v) else Undecided
    case Threw =>
      match evaluate(t)
      case Returned(v) => if IsChartOption(v) then Resolved(v) else Undecided
      case Threw => Failed
  }

  // ---------------------------------------------------------------------
  // The two classification predicates
  // ---------------------------------------------------------------------

  /** The text looks like one complete object or array (as the code tests it). */
  predicate IsCompleteJson(t: string) {
    (StartsWith(t, '{') && EndsWith(t, '}') && |Split(t, '{')| == |Split(t, '}')|) ||
    (StartsWith(t, '[') && EndsWith(t, ']') && |Split(t, '[')| == |Split(t, ']')|)
  }

  /**
   * The text looks unfinished: too short, an unclosed object, an array
   * whose `[` count differs from its `}` count (sic), an odd number of
   * double quotes, or `{"` without any `"}`.
   */
  predicate IsIncomplete(t: string) {
    |t| < 5 ||
    (StartsWith(t, '{') && (!EndsWith(t, '}') || |Split(t, '{')| != |Split(t, '}')|)) ||
    (StartsWith(t, '[') && (!EndsWith(t, ']') || |Split(t, '[')| != |Split(t, '}')|)) ||
    |Split(t, '"')| % 2 != 1 ||
    (Includes(t, "{\"") && !Includes(t, "\"}"))
  }

  /** Completeness in terms of counts: balanced braces, or balanced square brackets. */
  lemma CompleteJsonByCounts(t: string)
    ensures IsCompleteJson(t) <==>
      (StartsWith(t, '{') && EndsWith(t, '}') && Count('{', t) == Count('}', t)) ||
      (StartsWith(t, '[') && EndsWith(t, ']') && Count('[', t) == Count(']', t))
  {
    SplitLength(t, '{');
    SplitLength(t, '}');
    SplitLength(t, '[');
    SplitLength(t, ']');
  }

  /**
   * For a text in square brackets that passes the length, quote and `{"`
   * tests, the code counts it unfinished exactly when its `[` count differs
   * from its `}` count; the `]` count plays no part.
   */
  lemma ArrayIncompletenessCountsCurlyBraces(t: string)
    requires StartsWith(t, '[') && EndsWith(t, ']') && |t| >= 5
    requires Count('"', t) % 2 == 0
    requires !(Includes(t, "{\"") && !Includes(t, "\"}"))
    ensures IsIncomplete(t) <==> Count('[', t) != Count('}', t)
  {
    SplitLength(t, '[');
    SplitLength(t, '}');
    SplitLength(t, '"');
  }

  // ---------------------------------------------------------------------
  // The classifier's state and one step of it
  // ---------------------------------------------------------------------

  datatype ChartState = Loading | Success | Error

  /**
   * The classifier's state: the last content seen, whether this epoch is
   * decided, the state shown, and the chart option (null when `None`).
   */
  datatype ChartSession = ChartSession(content: string, processed: bool, state: ChartState, option: Option<JsValue>)

  const InitialSession := ChartSession("", false, Loading, None)

  /** A success always carries a chart option, and an epoch is decided exactly when it no longer loads. */
  predicate SessionInvariant(s: ChartSession) {
    (s.state == Success ==> s.option.Some? && IsChartOption(s.option.value)) &&
    (s.processed <==> s.state != Loading)
  }

  /** With no content recorded, a new epoch starts: loading and undecided. */
  function Reset(s: ChartSession): ChartSession {
    if s.content == "" then s.(state := Loading, processed := false) else s
  }

  /** Record the verdict of a parse attempt. */
  function Settle(s: ChartSession, v: Verdict): ChartSession {
    match v
    case Resolved(o) => s.(option := Some(o), state := Success, processed := true)
    case Failed => s.(state := Error, processed := true)
    case Undecided => s
  }

  // ---------------------------------------------------------------------
  // The two tests as evidently intended
  // ---------------------------------------------------------------------

  /**
   * The occurrences of `c` outside double-quoted string literals, reading
   * `s` from inside a literal (`inString`) or from outside one; inside a
   * literal a backslash escapes the character after it.
   */
  function CountOutsideStrings(c: char, s: string, inString: bool): nat
    decreases |s|
  {
    if s == [] then 0
    else if inString && s[0] == '\\' then
      if |s| == 1 then 0 else CountOutsideStrings(c, s[2..], true)
    else if s[0] == '"' then CountOutsideStrings(c, s[1..], !inString)
    else (if !inString && s[0] == c then 1 else 0) + CountOutsideStrings(c, s[1..], inString)
  }

  /** Reading `s` from `inString` ends inside a string literal. */
  predicate EndsInString(s: string, inString: bool)
    decreases |s|
  {
    if s == [] then inString
    else if inString && s[0] == '\\' then
      if |s| == 1 then true else EndsInString(s[2..], true)
    else if s[0] == '"' then EndsInString(s[1..], !inString)
    else EndsInString(s[1..], inString)
  }

  /** In a text without double quotes every occurrence is outside a literal, and no literal is open. */
  lemma {:induction false} NoQuoteScan(c: char, s: string)
    requires '"' !in s
    ensures CountOutsideStrings(c, s, false) == Count(c, s)
    ensures !EndsInString(s, false)
    decreases |s|
  {
    if s != [] {
      assert s[0] != '"';
      assert '"' !in s[1..];
      NoQuoteScan(c, s[1..]);
    }
  }

  /**
   * Completeness as evidently intended: no string literal is open, and the
   * braces (or square brackets) outside literals balance.
   */
  predicate IsCompleteJsonIntended(t: string) {
    !EndsInString(t, false) &&
    ((StartsWith(t, '{') && EndsWith(t, '}') && CountOutsideStrings('{', t, false) == CountOutsideStrings('}', t, false)) ||
     (StartsWith(t, '[') && EndsWith(t, ']') && CountOutsideStrings('[', t, false) == CountOutsideStrings(']', t, false)))
  }

  /**
   * Unfinished as evidently intended: too short, inside an open string
   * literal, an object or an array whose own brackets outside literals do
   * not balance, or `{"` without any `"}`.
   */
  predicate IsIncompleteIntended(t: string) {
    |t| < 5 || EndsInString(t, false) ||
    (StartsWith(t, '{') && (!EndsWith(t, '}') || CountOutsideStrings('{', t, false) != CountOutsideStrings('}', t, false))) ||
    (StartsWith(t, '[') && (!EndsWith(t, ']') || CountOutsideStrings('[', t, false) != CountOutsideStrings(']', t, false))) ||
    (Includes(t, "{\"") && !Includes(t, "\"}"))
  }

  /** Which pair of tests guards the two parse paths. */
  datatype Guards = AsWritten | Intended

  /** The completeness test of the first path, as written or as intended. */
  predicate LooksComplete(test: Guards, t: string) {
    match test
    case AsWritten => IsCompleteJson(t)
    case Intended => IsCompleteJsonIntended(t)
  }

  /** The incompleteness test of the fall-through path, as written or as intended. */
  predicate LooksUnfinished(test: Guards, t: string) {
    match test
    case AsWritten => IsIncomplete(t)
    case Intended => IsIncompleteIntended(t)
  }

  /** The state after the effect runs for `language` and new `children`, under `test`. */
  function NextBy(test: Guards, s: ChartSession, language: Option<string>, children: string, jsonParse: Parser, evaluate: Parser): ChartSession
  {
    if language != Some("echarts") then s
    else
      var s1 := Reset(s);
      var content := StripTrailingNewline(children);
      if s1.content == content then s1
      else
        var s2 := s1.(content := content);
        var t := Trim(content);
        if t == "" then s2
        else
          var first := if LooksComplete(test, t) && !s2.processed then Attempt(t, jsonParse, evaluate) else Undecided;
          if first != Undecided then Settle(s2, first)
          else if !LooksUnfinished(test, t) && !s2.processed then Settle(s2, Attempt(t, jsonParse, evaluate))
          else s2
  }

  /** The state after the effect, as the code is written, runs for `language` and new `children`. */
  function Next(s: ChartSession, language: Option<string>, children: string, jsonParse: Parser, evaluate: Parser): ChartSession
  {
    NextBy(AsWritten, s, language, children, jsonParse, evaluate)
  }

  /** One render of the block: its language and its text. */
  datatype Update = Update(language: Option<string>, children: string)

  /** The state after the effect runs once for each of `updates`, in order. */
  function Run(s: ChartSession, updates: seq<Update>, jsonParse: Parser, evaluate: Parser): ChartSession
    decreases |updates|
  {
    if updates == [] then s
    else Run(Next(s, updates[0].language, updates[0].children, jsonParse, evaluate), updates[1..], jsonParse, evaluate)
  }

  /** The streaming chart-option classifier of one code block. */
  class ChartOptionParser {
    var contentRef: string
    var processedRef: bool
    var chartState: ChartState
    var finalChartOption: Option<JsValue>

    function Session(): ChartSession
      reads this
    {
      ChartSession(contentRef, processedRef, chartState, finalChartOption)
    }

    predicate Valid()
      reads this
    {
      SessionInvariant(Session())
    }

    constructor ()
      ensures Session() == InitialSession && Valid()
    {
      contentRef := "";
      processedRef := false;
      chartState := Loading;
      finalChartOption := None;
    }

    /** The chart effect, run when `language` or `children` changes. */
    method Step(language: Option<string>, children: string, jsonParse: Parser, evaluate: Parser)
      requires Valid()
      modifies this
      ensures Session() == Next(old(Session()), language, children, jsonParse, evaluate)
      ensures Valid()
    {
      NextPreservesInvariant(Session(), language, children, jsonParse, evaluate);
      if language != Some("echarts") {
        return;
      }
      if contentRef == "" {
        chartState := Loading;
        processedRef := false;
      }

      var newContent := StripTrailingNewline(children);
      if contentRef == newContent {
        return;
      }
      contentRef := newContent;

      var trimmedContent := Trim(newContent);
      if trimmedContent == "" {
        return;
      }

      var isCompleteJson := IsCompleteJson(trimmedContent);
      if isCompleteJson && !processedRef {
        match jsonParse(trimmedContent) {
          case Returned(parsed) =>
            if IsChartOption(parsed) {
              finalChartOption := Some(parsed);
              chartState := Success;
              processedRef := true;
              return;
            }
          case Threw =>
            match evaluate(trimmedContent) {
              case Returned(result) =>
                if IsChartOption(result) {
                  finalChartOption := Some(result);
                  chartState := Success;
                  processedRef := true;
                  return;
                }
              case Threw =>
                chartState := Error;
                processedRef := true;
                return;
            }
        }
      }

      var isIncomplete := IsIncomplete(trimmedContent);
      if !isIncomplete && !processedRef {
        var isValidOption := false;
        match jsonParse(trimmedContent) {
          case Returned(parsed) =>
            if IsChartOption(parsed) {
              finalChartOption := Some(parsed);
              isValidOption := true;
            }
          case Threw =>
            match evaluate(trimmedContent) {
              case Returned(result) =>
                if IsChartOption(result) {
                  finalChartOption := Some(result);
                  isValidOption := true;
                }
              case Threw =>
                chartState := Error;
                processedRef := true;
            }
        }

        if isValidOption {
          chartState := Success;
          processedRef := true;
        }
      }
    }
  }

  // ---------------------------------------------------------------------
  // Properties of a step
  // ---------------------------------------------------------------------

  /** Every step keeps the session invariant. */
  lemma NextPreservesInvariant(s: ChartSession, language: Option<string>, children: string, jsonParse: Parser, evaluate: Parser)
    requires SessionInvariant(s)
    ensures SessionInvariant(Next(s, language, children, jsonParse, evaluate))
  {
  }

  /** Content that is unchanged once a trailing line feed is dropped leaves the state as the reset left it. */
  lemma NextUnchangedContent(s: ChartSession, children: string, jsonParse: Parser, evaluate: Parser)
    requires Reset(s).content == StripTrailingNewline(children)
    ensures Next(s, Some("echarts"), children, jsonParse, evaluate) == Reset(s)
    ensures s.content != "" ==> Next(s, Some("echarts"), children, jsonParse, evaluate) == s
  {
  }

  /** Any block that is not an `echarts` block leaves the classifier untouched. */
  lemma NextOtherLanguage(s: ChartSession, language: Option<string>, children: string, jsonParse: Parser, evaluate: Parser)
    requires language != Some("echarts")
    ensures Next(s, language, children, jsonParse, evaluate) == s
  {
  }

  /**
   * Running the effect twice on the same children is running it once,
   * unless the children strip to "" while content is recorded (see
   * IdempotenceNeedsContent).
   */
  lemma NextIdempotent(s: ChartSession, language: Option<string>, children: string, jsonParse: Parser, evaluate: Parser)
    requires StripTrailingNewline(children) != "" || s.content == ""
    ensures var n := Next(s, language, children, jsonParse, evaluate);
      Next(n, language, children, jsonParse, evaluate) == n
  {
  }

  /** Emptied children take two steps to reach the reset: the second run differs from the first. */
  lemma IdempotenceNeedsContent(jsonParse: Parser, evaluate: Parser)
    ensures var s := ChartSession("{}", true, Success, Some(Structured(0)));
      var once := Next(s, Some("echarts"), "", jsonParse, evaluate);
      once == ChartSession("", true, Success, Some(Structured(0))) &&
      Next(once, Some("echarts"), "", jsonParse, evaluate) == ChartSession("", false, Loading, Some(Structured(0)))
  {
  }

  /** New content that is whitespace only is recorded and changes nothing else. */
  lemma NextWhitespaceOnly(s: ChartSession, children: string, jsonParse: Parser, evaluate: Parser)
    requires Trim(StripTrailingNewline(children)) == ""
    ensures Next(s, Some("echarts"), children, jsonParse, evaluate) == Reset(s).(content := StripTrailingNewline(children))
  {
  }

  /**
   * Once an epoch is decided and content is recorded, a step keeps the
   * state and the option, and the epoch stays decided.
   */
  lemma NextFrozenOnceProcessed(s: ChartSession, language: Option<string>, children: string, jsonParse: Parser, evaluate: Parser)
    requires s.processed && s.content != ""
    ensures var n := Next(s, language, children, jsonParse, evaluate);
      n.processed && n.state == s.state && n.option == s.option &&
      (StripTrailingNewline(children) != "" ==> n.content != "")
  {
  }

  /**
   * A decided epoch stays decided, with the same state and option, through
   * any run of updates, in any languages, none of whose texts is empty.
   */
  lemma {:induction false} RunFrozenOnceProcessed(s: ChartSession, updates: seq<Update>, jsonParse: Parser, evaluate: Parser)
    requires s.processed && s.content != ""
    requires forall i :: 0 <= i < |updates| ==> StripTrailingNewline(updates[i].children) != ""
    ensures var n := Run(s, updates, jsonParse, evaluate);
      n.processed && n.state == s.state && n.option == s.option && n.content != ""
    decreases |updates|
  {
    if updates != [] {
      NextFrozenOnceProcessed(s, updates[0].language, updates[0].children, jsonParse, evaluate);
      RunFrozenOnceProcessed(Next(s, updates[0].language, updates[0].children, jsonParse, evaluate), updates[1..], jsonParse, evaluate);
    }
  }

  /** Text that is not complete but looks unfinished never moves the state. */
  lemma NextWaitsOnIncomplete(s: ChartSession, children: string, jsonParse: Parser, evaluate: Parser)
    requires var t := Trim(StripTrailingNewline(children)); !IsCompleteJson(t) && IsIncomplete(t)
    ensures var n := Next(s, Some("echarts"), children, jsonParse, evaluate);
      n.state == Reset(s).state && n.option == s.option && n.processed == Reset(s).processed
  {
  }

  /**
   * A new text that does not look complete but looks unfinished under
   * `test` is recorded, and nothing else changes.
   */
  lemma NextByWaits(test: Guards, s: ChartSession, children: string, jsonParse: Parser, evaluate: Parser)
    requires Reset(s).content != StripTrailingNewline(children)
    requires var t := Trim(StripTrailingNewline(children)); !LooksComplete(test, t) && LooksUnfinished(test, t)
    ensures NextBy(test, s, Some("echarts"), children, jsonParse, evaluate) == Reset(s).(content := StripTrailingNewline(children))
  {
  }

  /** A new text that looks complete in an undecided epoch, whose attempt resolves to `v`, shows `v`. */
  lemma NextByResolvesComplete(test: Guards, s: ChartSession, children: string, jsonParse: Parser, evaluate: Parser, v: JsValue)
    requires !Reset(s).processed && Reset(s).content != StripTrailingNewline(children)
    requires var t := Trim(StripTrailingNewline(children)); LooksComplete(test, t) && Attempt(t, jsonParse, evaluate) == Resolved(v)
    ensures NextBy(test, s, Some("echarts"), children, jsonParse, evaluate) ==
      Reset(s).(content := StripTrailingNewline(children), option := Some(v), state := Success, processed := true)
  {
    assert Trim(StripTrailingNewline(children)) != "";
  }

  /** A reachable parse attempt whose strict and lenient parsers both throw fails the epoch. */
  lemma NextFailsWhenBothThrow(s: ChartSession, children: string, jsonParse: Parser, evaluate: Parser)
    requires !Reset(s).processed && Reset(s).content != StripTrailingNewline(children)
    requires var t := Trim(StripTrailingNewline(children));
      t != "" && (IsCompleteJson(t) || !IsIncomplete(t)) && jsonParse(t) == Threw && evaluate(t) == Threw
    ensures var n := Next(s, Some("echarts"), children, jsonParse, evaluate);
      n.state == Error && n.processed && n.option == s.option && n.content == StripTrailingNewline(children)
  {
  }

  /** A reachable parse attempt whose first structured result is `v` shows `v`. */
  lemma NextResolves(s: ChartSession, children: string, jsonParse: Parser, evaluate: Parser, v: JsValue)
    requires !Reset(s).processed && Reset(s).content != StripTrailingNewline(children)
    requires var t := Trim(StripTrailingNewline(children));
      t != "" && (IsCompleteJson(t) || !IsIncomplete(t)) && Attempt(t, jsonParse, evaluate) == Resolved(v)
    ensures var n := Next(s, Some("echarts"), children, jsonParse, evaluate);
      n.state == Success && n.processed && n.option == Some(v) && IsChartOption(v) &&
      n.content == StripTrailingNewline(children)
  {
  }

  /** A primitive result, strict or lenient, decides nothing: the epoch stays open. */
  lemma NextIgnoresPrimitive(s: ChartSession, children: string, jsonParse: Parser, evaluate: Parser)
    requires var t := Trim(StripTrailingNewline(children));
      (jsonParse(t).Returned? && !IsChartOption(jsonParse(t).value)) ||
      (jsonParse(t) == Threw && evaluate(t).Returned? && !IsChartOption(evaluate(t).value))
    ensures var n := Next(s, Some("echarts"), children, jsonParse, evaluate);
      n.state == Reset(s).state && n.option == s.option && n.processed == Reset(s).processed
  {
  }

  // ---------------------------------------------------------------------
  // Worked streams
  // ---------------------------------------------------------------------

  /** "ab" is too short to judge: a fresh epoch stays loading. */
  lemma ShortTextWaits(jsonParse: Parser, evaluate: Parser)
    ensures Next(InitialSession, Some("echarts"), "ab", jsonParse, evaluate) == ChartSession("ab", false, Loading, None)
  {
    assert Trim("ab") == "ab";
    assert IsIncomplete("ab");
  }

  /** An odd number of double quotes means an open string literal: stay loading. */
  lemma OddQuotesWait(jsonParse: Parser, evaluate: Parser)
    ensures Next(InitialSession, Some("echarts"), "\"title", jsonParse, evaluate) == ChartSession("\"title", false, Loading, None)
  {
    assert Trim("\"title") == "\"title";
    assert |Split("\"title", '"')| == 2;
    assert IsIncomplete("\"title");
  }

  /** Prose before an object opening `{"` with no `"}` yet: stay loading. */
  lemma EmbeddedObjectWaits(jsonParse: Parser, evaluate: Parser)
    ensures Next(InitialSession, Some("echarts"), "x {\"a\":1", jsonParse, evaluate) == ChartSession("x {\"a\":1", false, Loading, None)
  {
    var t := "x {\"a\":1";
    assert Trim(t) == t;
    assert "{\"" <= t[2..];
    IncludesSpec(t, "{\"");
    assert '}' in "\"}" && '}' !in t;
    NotIncludedWithout(t, "\"}", '}');
    assert IsIncomplete(t);
    assert t[0] == 'x';
    NextByWaits(AsWritten, InitialSession, t, jsonParse, evaluate);
  }

  /** The text `{"x":1}` is complete. */
  lemma SmallObjectIsComplete()
    ensures Trim("{\"x\":1}") == "{\"x\":1}" && IsCompleteJson("{\"x\":1}")
  {
    assert |Split("{\"x\":1}", '{')| == 2;
    assert |Split("{\"x\":1}", '}')| == 2;
  }

  /**
   * The object stream "{", "{\"x\"", "{\"x\":1}" is loading, loading, and
   * then shows what the strict parser returns for the last text.
   */
  lemma StreamedObjectResolves(jsonParse: Parser, evaluate: Parser, v: JsValue)
    requires jsonParse("{\"x\":1}") == Returned(v) && IsChartOption(v)
    ensures var s1 := Next(InitialSession, Some("echarts"), "{", jsonParse, evaluate);
      var s2 := Next(s1, Some("echarts"), "{\"x\"", jsonParse, evaluate);
      var s3 := Next(s2, Some("echarts"), "{\"x\":1}", jsonParse, evaluate);
      s1.state == Loading && s2.state == Loading && s3.state == Success && s3.option == Some(v)
  {
    assert Trim("{") == "{";
    var s1 := Next(InitialSession, Some("echarts"), "{", jsonParse, evaluate);
    assert s1 == ChartSession("{", false, Loading, None);
    assert Trim("{\"x\"") == "{\"x\"";
    var s2 := Next(s1, Some("echarts"), "{\"x\"", jsonParse, evaluate);
    assert s2 == ChartSession("{\"x\"", false, Loading, None);
    SmallObjectIsComplete();
  }

  /** The balanced text `{"a":}` is complete. */
  lemma MalformedObjectIsComplete()
    ensures Trim("{\"a\":}") == "{\"a\":}" && IsCompleteJson("{\"a\":}")
  {
    assert |Split("{\"a\":}", '{')| == 2;
    assert |Split("{\"a\":}", '}')| == 2;
  }

  /** A balanced object that neither parser accepts fails the epoch: `{"a":}`. */
  lemma MalformedObjectFails(jsonParse: Parser, evaluate: Parser)
    requires jsonParse("{\"a\":}") == Threw && evaluate("{\"a\":}") == Threw
    ensures Next(InitialSession, Some("echarts"), "{\"a\":}", jsonParse, evaluate).state == Error
  {
    MalformedObjectIsComplete();
  }

  /** After a failure, emptied content starts a new epoch in which a valid option is shown. */
  lemma NewEpochAfterFailure(s: ChartSession, jsonParse: Parser, evaluate: Parser, v: JsValue)
    requires s.state == Error && s.processed
    requires jsonParse("{\"x\":1}") == Returned(v) && IsChartOption(v)
    ensures var n := Run(s, [Update(Some("echarts"), ""), Update(Some("echarts"), "{\"x\":1}")], jsonParse, evaluate);
      n.state == Success && n.option == Some(v) && n.processed
  {
    SmallObjectIsComplete();
    var s1 := Next(s, Some("echarts"), "", jsonParse, evaluate);
    assert s1.content == "";
    assert [Update(Some("echarts"), ""), Update(Some("echarts"), "{\"x\":1}")][1..] == [Update(Some("echarts"), "{\"x\":1}")];
  }

  // ---------------------------------------------------------------------
  // The square-bracket test compares `[` with `}`
  // ---------------------------------------------------------------------

  /** A prefix of the array text "[{},{},[]]" while it streams in. */
  const ArrayPrefix := "[{},{},[]"

  /** What the two tests see in the prefix. */
  lemma ArrayPrefixFacts()
    ensures Trim(ArrayPrefix) == ArrayPrefix
    ensures |Split(ArrayPrefix, '[')| == 3 && |Split(ArrayPrefix, ']')| == 2 && |Split(ArrayPrefix, '}')| == 3
    ensures |Split(ArrayPrefix, '"')| == 1
    ensures !Includes(ArrayPrefix, "{\"")
  {
    ArrayPrefixTrimmed();
    ArrayPrefixSplits();
    ArrayPrefixHasNoQuote();
  }

  lemma ArrayPrefixTrimmed()
    ensures Trim(ArrayPrefix) == ArrayPrefix
  {
  }

  lemma ArrayPrefixSplits()
    ensures |Split(ArrayPrefix, '[')| == 3 && |Split(ArrayPrefix, ']')| == 2 && |Split(ArrayPrefix, '}')| == 3
  {
  }

  lemma ArrayPrefixHasNoQuote()
    ensures |Split(ArrayPrefix, '"')| == 1
    ensures !Includes(ArrayPrefix, "{\"")
  {
    assert '"' in "{\"";
    assert '"' !in ArrayPrefix;
    NotIncludedWithout(ArrayPrefix, "{\"", '"');
  }

  /** As written, the prefix is neither complete nor unfinished, so it reaches the fall-through parse. */
  lemma ArrayPrefixFallsThrough()
    ensures !IsCompleteJson(ArrayPrefix) && !IsIncomplete(ArrayPrefix)
  {
    ArrayPrefixFacts();
  }

  /**
   * As written, with both parsers throwing on the prefix, the epoch fails
   * there, and whatever non-empty text follows (the complete array
   * included) is ignored.
   */
  lemma ArrayPrefixFailsEpoch(jsonParse: Parser, evaluate: Parser, later: string)
    requires jsonParse(ArrayPrefix) == Threw && evaluate(ArrayPrefix) == Threw
    requires StripTrailingNewline(later) != ""
    ensures var s1 := Next(InitialSession, Some("echarts"), ArrayPrefix, jsonParse, evaluate);
      s1.state == Error && s1.processed &&
      Next(s1, Some("echarts"), later, jsonParse, evaluate).state == Error
  {
    ArrayPrefixTrimmed();
    ArrayPrefixFallsThrough();
    assert StripTrailingNewline(ArrayPrefix) == ArrayPrefix;
    NextFailsWhenBothThrow(InitialSession, ArrayPrefix, jsonParse, evaluate);
    var s1 := Next(InitialSession, Some("echarts"), ArrayPrefix, jsonParse, evaluate);
    NextFrozenOnceProcessed(s1, Some("echarts"), later, jsonParse, evaluate);
  }

  /**
   * With the intended tests, every text that opens with `{` or `[` and is
   * not complete counts as unfinished, so it never reaches a parse attempt,
   * and a text inside an open string literal is never complete. On texts
   * without double quotes the intended tests differ from the written ones
   * only for texts that open with `[`.
   */
  lemma IntendedWaitsOnUnbalanced(t: string)
    ensures (StartsWith(t, '{') || StartsWith(t, '[')) && !IsCompleteJsonIntended(t) ==> IsIncompleteIntended(t)
    ensures EndsInString(t, false) ==> !IsCompleteJsonIntended(t) && IsIncompleteIntended(t)
    ensures '"' !in t ==> (IsCompleteJsonIntended(t) <==> IsCompleteJson(t))
    ensures '"' !in t && !StartsWith(t, '[') ==> (IsIncompleteIntended(t) <==> IsIncomplete(t))
  {
    if '"' !in t {
      NoQuoteAgreement(t);
    }
  }

  /** Without double quotes, the intended counts are the written ones and no `{"` occurs. */
  lemma NoQuoteAgreement(t: string)
    requires '"' !in t
    ensures IsCompleteJsonIntended(t) <==> IsCompleteJson(t)
    ensures !StartsWith(t, '[') ==> (IsIncompleteIntended(t) <==> IsIncomplete(t))
  {
    NoQuoteScan('{', t);
    NoQuoteScan('}', t);
    NoQuoteScan('[', t);
    NoQuoteScan(']', t);
    SplitLength(t, '{');
    SplitLength(t, '}');
    SplitLength(t, '[');
    SplitLength(t, ']');
    SplitLength(t, '"');
    CountAbsent('"', t);
    assert '"' in "{\"";
    NotIncludedWithout(t, "{\"", '"');
  }

  /**
   * A text that opens with `{` and has more `}` than `{` is never complete
   * and always looks unfinished, so it waits; under the intended tests the
   * same holds for more `}` than `{` outside string literals.
   */
  lemma ExcessClosingBracesWait(t: string)
    ensures StartsWith(t, '{') && Count('}', t) > Count('{', t) ==> !IsCompleteJson(t) && IsIncomplete(t)
    ensures StartsWith(t, '{') && CountOutsideStrings('}', t, false) > CountOutsideStrings('{', t, false) ==>
      !IsCompleteJsonIntended(t) && IsIncompleteIntended(t)
  {
    SplitLength(t, '{');
    SplitLength(t, '}');
  }

  /** The intended tests wait on the prefix, where the written ones do not. */
  lemma IntendedWaitsOnArrayPrefix()
    ensures IsIncompleteIntended(ArrayPrefix) && !IsCompleteJsonIntended(ArrayPrefix) && !IsIncomplete(ArrayPrefix)
  {
    ArrayPrefixSplits();
    ArrayPrefixFallsThrough();
    assert '"' !in ArrayPrefix;
    NoQuoteScan('[', ArrayPrefix);
    NoQuoteScan(']', ArrayPrefix);
    NoQuoteAgreement(ArrayPrefix);
    SplitLength(ArrayPrefix, '[');
    SplitLength(ArrayPrefix, ']');
  }

  /** The array text the prefix grows into. */
  const ArrayText := "[{},{},[]]"

  /** The array text is complete, as written and as intended. */
  lemma ArrayTextIsComplete()
    ensures Trim(ArrayText) == ArrayText && IsCompleteJson(ArrayText) && IsCompleteJsonIntended(ArrayText)
  {
    ArrayTextTrimmed();
    ArrayTextSplits();
    assert '"' !in ArrayText;
    NoQuoteAgreement(ArrayText);
  }

  lemma ArrayTextTrimmed()
    ensures Trim(ArrayText) == ArrayText
  {
  }

  lemma ArrayTextSplits()
    ensures |Split(ArrayText, '[')| == 3 && |Split(ArrayText, ']')| == 3
  {
  }

  /**
   * With the intended test, the array streams as it should: the prefix
   * leaves the epoch loading, whatever the parsers would say of it, and the
   * complete array then shows what the strict parser returns for it.
   */
  lemma IntendedArrayStreamResolves(jsonParse: Parser, evaluate: Parser, v: JsValue)
    requires jsonParse(ArrayText) == Returned(v) && IsChartOption(v)
    ensures var s1 := NextBy(Intended, InitialSession, Some("echarts"), ArrayPrefix, jsonParse, evaluate);
      var s2 := NextBy(Intended, s1, Some("echarts"), ArrayText, jsonParse, evaluate);
      s1 == ChartSession(ArrayPrefix, false, Loading, None) &&
      s2 == ChartSession(ArrayText, true, Success, Some(v))
  {
    IntendedWaitsOnArrayPrefix();
    ArrayPrefixFallsThrough();
    ArrayPrefixTrimmed();
    assert StripTrailingNewline(ArrayPrefix) == ArrayPrefix;
    NextByWaits(Intended, InitialSession, ArrayPrefix, jsonParse, evaluate);
    var s1 := ChartSession(ArrayPrefix, false, Loading, None);
    ArrayTextIsComplete();
    assert StripTrailingNewline(ArrayText) == ArrayText;
    assert ArrayPrefix != ArrayText;
    assert Attempt(ArrayText, jsonParse, evaluate) == Resolved(v);
    NextByResolvesComplete(Intended, s1, ArrayText, jsonParse, evaluate, v);
  }

  // ---------------------------------------------------------------------
  // Braces inside string literals are counted
  // ---------------------------------------------------------------------

  /** A prefix of the object text `{"a":"x}"}` while it streams in: the literal "x}" is still open. */
  const StringPrefix := "{\"a\":\"x}"

  /** The object text whose string value holds a closing brace. */
  const StringObject := "{\"a\":\"x}\"}"

  lemma StringPrefixTrimmed()
    ensures Trim(StringPrefix) == StringPrefix
  {
  }

  lemma StringPrefixSplits()
    ensures |Split(StringPrefix, '{')| == 2 && |Split(StringPrefix, '}')| == 2
  {
  }

  /** As written, the prefix is complete: it opens with `{`, closes with `}` and has one of each. */
  lemma StringPrefixLooksComplete()
    ensures IsCompleteJson(StringPrefix)
  {
    StringPrefixSplits();
  }

  /** As intended, the prefix ends inside the literal, so it is unfinished and not complete. */
  lemma IntendedWaitsOnStringPrefix()
    ensures EndsInString(StringPrefix, false)
    ensures !IsCompleteJsonIntended(StringPrefix) && IsIncompleteIntended(StringPrefix)
  {
    IntendedWaitsOnUnbalanced(StringPrefix);
  }

  lemma StringObjectTrimmed()
    ensures Trim(StringObject) == StringObject
  {
  }

  lemma StringObjectSplits()
    ensures |Split(StringObject, '{')| == 2 && |Split(StringObject, '}')| == 3
  {
  }

  /** As written, the object counts one `{` against two `}`: not complete, and unfinished. */
  lemma StringObjectLooksUnfinished()
    ensures !IsCompleteJson(StringObject) && IsIncomplete(StringObject)
  {
    StringObjectSplits();
  }

  /** As intended, the object is complete: outside its literals it has one `{` and one `}`. */
  lemma StringObjectIsCompleteIntended()
    ensures !EndsInString(StringObject, false)
    ensures CountOutsideStrings('{', StringObject, false) == 1 && CountOutsideStrings('}', StringObject, false) == 1
    ensures IsCompleteJsonIntended(StringObject)
  {
    StringObjectClosesLiterals();
    StringObjectOpenBraces();
    StringObjectCloseBraces();
  }

  lemma StringObjectClosesLiterals()
    ensures !EndsInString(StringObject, false)
  {
    assert !EndsInString("}", false);
    assert !EndsInString("\"}", true);
    assert !EndsInString("}\"}", true);
    assert !EndsInString("x}\"}", true);
    assert !EndsInString("\"x}\"}", false);
    assert !EndsInString(":\"x}\"}", false);
    assert !EndsInString("\":\"x}\"}", true);
    assert !EndsInString("a\":\"x}\"}", true);
    assert !EndsInString("\"a\":\"x}\"}", false);
  }

  lemma StringObjectOpenBraces()
    ensures CountOutsideStrings('{', StringObject, false) == 1
  {
    assert CountOutsideStrings('{', "}", false) == 0;
    assert CountOutsideStrings('{', "\"}", true) == 0;
    assert CountOutsideStrings('{', "}\"}", true) == 0;
    assert CountOutsideStrings('{', "x}\"}", true) == 0;
    assert CountOutsideStrings('{', "\"x}\"}", false) == 0;
    assert CountOutsideStrings('{', ":\"x}\"}", false) == 0;
    assert CountOutsideStrings('{', "\":\"x}\"}", true) == 0;
    assert CountOutsideStrings('{', "a\":\"x}\"}", true) == 0;
    assert CountOutsideStrings('{', "\"a\":\"x}\"}", false) == 0;
  }

  lemma StringObjectCloseBraces()
    ensures CountOutsideStrings('}', StringObject, false) == 1
  {
    assert CountOutsideStrings('}', "}", false) == 1;
    assert CountOutsideStrings('}', "\"}", true) == 1;
    assert CountOutsideStrings('}', "}\"}", true) == 1;
    assert CountOutsideStrings('}', "x}\"}", true) == 1;
    assert CountOutsideStrings('}', "\"x}\"}", false) == 1;
    assert CountOutsideStrings('}', ":\"x}\"}", false) == 1;
    assert CountOutsideStrings('}', "\":\"x}\"}", true) == 1;
    assert CountOutsideStrings('}', "a\":\"x}\"}", true) == 1;
    assert CountOutsideStrings('}', "\"a\":\"x}\"}", false) == 1;
  }

  /**
   * As written, the finished object never shows: from a fresh block it is
   * only recorded, whatever the parsers would return for it.
   */
  lemma StringObjectWaits(jsonParse: Parser, evaluate: Parser)
    ensures Next(InitialSession, Some("echarts"), StringObject, jsonParse, evaluate) == ChartSession(StringObject, false, Loading, None)
  {
    StringObjectTrimmed();
    StringObjectLooksUnfinished();
    assert StripTrailingNewline(StringObject) == StringObject;
    NextByWaits(AsWritten, InitialSession, StringObject, jsonParse, evaluate);
  }

  /**
   * As written, the prefix is parsed as if it were complete; with both
   * parsers throwing on it the epoch fails there, and whatever non-empty
   * text follows (the finished object included) is ignored.
   */
  lemma StringBraceFailsEpoch(jsonParse: Parser, evaluate: Parser, later: string)
    requires jsonParse(StringPrefix) == Threw && evaluate(StringPrefix) == Threw
    requires StripTrailingNewline(later) != ""
    ensures var s1 := Next(InitialSession, Some("echarts"), StringPrefix, jsonParse, evaluate);
      s1.state == Error && s1.processed &&
      Next(s1, Some("echarts"), later, jsonParse, evaluate).state == Error
  {
    StringPrefixTrimmed();
    StringPrefixLooksComplete();
    assert StripTrailingNewline(StringPrefix) == StringPrefix;
    NextFailsWhenBothThrow(InitialSession, StringPrefix, jsonParse, evaluate);
    var s1 := Next(InitialSession, Some("echarts"), StringPrefix, jsonParse, evaluate);
    NextFrozenOnceProcessed(s1, Some("echarts"), later, jsonParse, evaluate);
  }

  /**
   * With the intended tests, the object streams as it should: the prefix
   * leaves the block loading, whatever the parsers would say of it, and the
   * finished object then shows what the strict parser returns for it.
   */
  lemma IntendedStringStreamResolves(jsonParse: Parser, evaluate: Parser, v: JsValue)
    requires jsonParse(StringObject) == Returned(v) && IsChartOption(v)
    ensures var s1 := NextBy(Intended, InitialSession, Some("echarts"), StringPrefix, jsonParse, evaluate);
      var s2 := NextBy(Intended, s1, Some("echarts"), StringObject, jsonParse, evaluate);
      s1 == ChartSession(StringPrefix, false, Loading, None) &&
      s2 == ChartSession(StringObject, true, Success, Some(v))
  {
    StringPrefixTrimmed();
    IntendedWaitsOnStringPrefix();
    assert StripTrailingNewline(StringPrefix) == StringPrefix;
    NextByWaits(Intended, InitialSession, StringPrefix, jsonParse, evaluate);
    var s1 := ChartSession(StringPrefix, false, Loading, None);
    StringObjectTrimmed();
    StringObjectIsCompleteIntended();
    assert StripTrailingNewline(StringObject) == StringObject;
    assert StringPrefix != StringObject;
    assert Attempt(StringObject, jsonParse, evaluate) == Resolved(v);
    NextByResolvesComplete(Intended, s1, StringObject, jsonParse, evaluate, v);
  }
}
