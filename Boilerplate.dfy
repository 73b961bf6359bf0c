/**
  The boilerplate agent: enhance the user's prompt, ask the language model
  for a JSON object from file names to code, and turn its answer into a
  `files` value. The answer is stripped, the span matched by the DOTALL
  regular expression `\{.*\}` is parsed as JSON, and when there is no match
  or the parse fails, `files` becomes a single `error.txt` entry describing
  the failure.
*/
module Boilerplate {
  import opened Wrappers
  import opened PyStr
  import opened CharSearch

  /** A JSON value (RFC 8259); numbers keep their text, and the parser's
      working is left out. */
  datatype Json =
    | JObject(members: map<string, Json>)
    | JArray(items: seq<Json>)
    | JString(text: string)
    | JNumber(literal: string)
    | JBool(truth: bool)
    | JNull

  /** json.loads: the decoded value, or the message of the exception it raises. */
  type Parser = string -> Result<Json, string>

  /** Section 4 of RFC 8259: a JSON text that begins with '{' is an object. */
  ghost predicate ObjectsParseAsObjects(parse: Parser) {
    forall text :: |text| > 0 && text[0] == '{' && parse(text).Success? ==> parse(text).value.JObject?
  }

  // ---------------------------------------------------------------------------
  // re.search(r"\{.*\}", text, re.DOTALL)
  // ---------------------------------------------------------------------------

  /** text[start..end] matches `\{.*\}` with DOTALL: a '{', anything, a '}'. */
  predicate MatchesAt(text: string, start: nat, end: nat) {
    start + 2 <= end <= |text| && text[start] == '{' && text[end - 1] == '}'
  }

  /** Some '{' comes before some '}'. */
  ghost predicate HasBracePair(text: string) {
    exists i, j :: 0 <= i < j < |text| && text[i] == '{' && text[j] == '}'
  }

  /** The span re.search finds: the leftmost start at which the pattern
      matches, taken as far as it reaches. For this pattern that is the first
      '{' and the last '}', when the '}' comes after the '{'. */
  function BraceSpan(text: string): (r: Option<(nat, nat)>)
    ensures r.Some? ==> MatchesAt(text, r.value.0, r.value.1)
    ensures r.Some? ==> forall i: nat, j: nat :: MatchesAt(text, i, j) ==> r.value.0 <= i && j <= r.value.1
    ensures r.None? <==> !HasBracePair(text)
  {
    match (FirstIndexOf(text, '{'), LastIndexOf(text, '}'))
    case (Some(i), Some(j)) =>
      if i < j then Some((i, j + 1))
      else
        assert !HasBracePair(text) by {
          forall a, b | 0 <= a < b < |text| && text[a] == '{' ensures text[b] != '}' {
            assert i <= a;
          }
        }
        None
    case _ => None
  }

  /** match.group(): the matched text, when there is a match. */
  function Search(text: string): (r: Option<string>)
    ensures r.Some? ==> |r.value| >= 2 && r.value[0] == '{' && r.value[|r.value| - 1] == '}'
    ensures r.None? <==> !HasBracePair(text)
  {
    match BraceSpan(text)
    case None => None
    case Some((start, end)) => Some(text[start..end])
  }

  /** The match of a text that is one object literal is the whole text. */
  lemma WholeTextMatches(text: string)
    requires |text| >= 2 && text[0] == '{' && text[|text| - 1] == '}'
    ensures Search(text) == Some(text)
  {
    assert MatchesAt(text, 0, |text|);
    assert text[0..|text|] == text;
  }

  // ---------------------------------------------------------------------------
  // The fallback entry
  // ---------------------------------------------------------------------------

  const ErrorFileName := "error.txt"
  const NoJsonMessage := "No valid JSON found in LLM output."
  const ErrorHeader := "Failed to parse files from LLM output.\nError: "
  const RawHeader := "\n\nRaw output:\n"

  /** The text of error.txt for an exception message and the stripped answer. */
  function ErrorText(message: string, raw: string): string {
    ErrorHeader + message + RawHeader + raw
  }

  /** The files value written when no file can be extracted. */
  function ErrorFiles(message: string, raw: string): Json {
    JObject(map[ErrorFileName := JString(ErrorText(message, raw))])
  }

  /** `files` is a single error.txt entry whose text reports `message` and `raw`. */
  predicate IsErrorFiles(files: Json, message: string, raw: string) {
    && files.JObject?
    && files.members.Keys == {ErrorFileName}
    && files.members[ErrorFileName].JString?
    && var t := files.members[ErrorFileName].text;
       && |t| == |ErrorHeader| + |message| + |RawHeader + raw|
       && t[..|ErrorHeader|] == ErrorHeader
       && t[|ErrorHeader|..|ErrorHeader| + |message|] == message
       && t[|t| - |RawHeader + raw|..] == RawHeader + raw
  }

  /** The error text starts with the header, then the message, and ends with
      the raw-output trailer followed by the stripped answer. */
  lemma ErrorFilesShape(message: string, raw: string)
    ensures IsErrorFiles(ErrorFiles(message, raw), message, raw)
  {
    var t := ErrorText(message, raw);
    assert t == ErrorHeader + (message + (RawHeader + raw));
    assert t[|ErrorHeader|..] == message + (RawHeader + raw);
    assert t[|ErrorHeader|..][..|message|] == message;
    assert t[|t| - |RawHeader + raw|..] == RawHeader + raw;
  }

  // ---------------------------------------------------------------------------
  // From the answer to `files`
  // ---------------------------------------------------------------------------

  /** The try/except of boilerplate_node, on the stripped answer `raw`. */
  function ExtractFiles(raw: string, parse: Parser): Json {
    match Search(raw)
    case None => ErrorFiles(NoJsonMessage, raw)
    case Some(candidate) =>
      match parse(candidate)
      case Success(files) => files
      case Failure(message) => ErrorFiles(message, raw)
  }

  /** No '{' before a '}': files is the error entry reporting that no JSON was found. */
  lemma NoMatchGivesErrorFile(raw: string, parse: Parser)
    requires !HasBracePair(raw)
    ensures IsErrorFiles(ExtractFiles(raw, parse), NoJsonMessage, raw)
  {
    ErrorFilesShape(NoJsonMessage, raw);
  }

  /** A matched span the parser rejects: files is the error entry reporting the parser's message. */
  lemma ParseFailureGivesErrorFile(raw: string, parse: Parser)
    requires HasBracePair(raw)
    requires parse(Search(raw).value).Failure?
    ensures IsErrorFiles(ExtractFiles(raw, parse), parse(Search(raw).value).error, raw)
  {
    ErrorFilesShape(parse(Search(raw).value).error, raw);
  }

  /** A matched span the parser accepts: files is the parsed value, and it
      is the span from the first '{' to the last '}' that was parsed. */
  lemma ParsedSpanIsKept(raw: string, parse: Parser, i: nat, j: nat)
    requires i < j < |raw| && raw[i] == '{' && raw[j] == '}'
    requires forall k :: 0 <= k < i ==> raw[k] != '{'
    requires forall k :: j < k < |raw| ==> raw[k] != '}'
    requires parse(raw[i..j + 1]).Success?
    ensures ExtractFiles(raw, parse) == parse(raw[i..j + 1]).value
  {
    assert MatchesAt(raw, i, j + 1);
  }

  /** With a parser that follows RFC 8259, files is always a JSON object. */
  lemma FilesAlwaysObject(raw: string, parse: Parser)
    requires ObjectsParseAsObjects(parse)
    ensures ExtractFiles(raw, parse).JObject?
  {
    match Search(raw)
    case None =>
    case Some(candidate) =>
      assert |candidate| > 0 && candidate[0] == '{';
  }

  // ---------------------------------------------------------------------------
  // The graph
  // ---------------------------------------------------------------------------

  /** AgentState (total=False): every key may be absent. */
  datatype AgentState = AgentState(userInput: Option<string>, enhancedPrompt: Option<string>, files: Option<Json>)

  /** The values each node's prompt interpolates; the prompt text itself is left out. */
  datatype Prompt = EnhancePrompt(userInput: string) | GeneratePrompt(enhancedPrompt: string)

  /** The language model: the answer's `content` for each prompt. */
  type Llm = Prompt -> string

  /** enhance_prompt_node: reads user_input and returns the stripped enhancement. */
  function EnhancePromptNode(state: AgentState, llm: Llm): (r: Result<AgentState, string>)
    ensures r.Success? <==> state.userInput.Some?
    ensures r.Failure? ==> r.error == "user_input"
    ensures r.Success? ==> r.value.userInput.None? && r.value.files.None?
    ensures r.Success? ==> r.value.enhancedPrompt.Some?
    ensures r.Success? ==> IsStripOf(llm(EnhancePrompt(state.userInput.value)), r.value.enhancedPrompt.value)
  {
    match state.userInput
    case None => Failure("user_input")
    case Some(input) => Success(AgentState(None, Some(Strip(llm(EnhancePrompt(input)))), None))
  }

  /** boilerplate_node: reads enhanced_prompt and returns only `files`, built
      from the model's answer with surrounding whitespace stripped. */
  function BoilerplateNode(state: AgentState, llm: Llm, parse: Parser): (r: Result<AgentState, string>)
    ensures r.Success? <==> state.enhancedPrompt.Some?
    ensures r.Failure? ==> r.error == "enhanced_prompt"
    ensures r.Success? ==> r.value.userInput.None? && r.value.enhancedPrompt.None? && r.value.files.Some?
    ensures r.Success? ==>
      exists raw ::
        && IsStripOf(llm(GeneratePrompt(state.enhancedPrompt.value)), raw)
        && r.value.files.value == ExtractFiles(raw, parse)
  {
    match state.enhancedPrompt
    case None => Failure("enhanced_prompt")
    case Some(enhanced) =>
      var raw := Strip(llm(GeneratePrompt(enhanced)));
      Success(AgentState(None, None, Some(ExtractFiles(raw, parse))))
  }

  /** The graph's merge of a node's partial state. */
  function Merge(state: AgentState, update: AgentState): AgentState {
    AgentState(
      if update.userInput.Some? then update.userInput else state.userInput,
      if update.enhancedPrompt.Some? then update.enhancedPrompt else state.enhancedPrompt,
      if update.files.Some? then update.files else state.files)
  }

  /** The compiled graph's invoke: enhance_prompt, then generate_files. */
  function RunBoilerplate(input: AgentState, llm: Llm, parse: Parser): (r: Result<AgentState, string>)
    ensures r.Success? <==> input.userInput.Some?
    ensures r.Success? ==> r.value.userInput == input.userInput && r.value.files.Some?
  {
    match EnhancePromptNode(input, llm)
    case Failure(e) => Failure(e)
    case Success(enhanced) =>
      var afterEnhance := Merge(input, enhanced);
      match BoilerplateNode(afterEnhance, llm, parse)
      case Failure(e) => Failure(e)
      case Success(generated) => Success(Merge(afterEnhance, generated))
  }

  /** The files a request yields: what the stripped answer to the stripped
      enhancement of the user's input gives; with an RFC 8259 parser, an object. */
  lemma RunOutcome(input: AgentState, llm: Llm, parse: Parser)
    requires input.userInput.Some?
    ensures
      var enhanced := Strip(llm(EnhancePrompt(input.userInput.value)));
      var raw := Strip(llm(GeneratePrompt(enhanced)));
      && RunBoilerplate(input, llm, parse).value.enhancedPrompt == Some(enhanced)
      && RunBoilerplate(input, llm, parse).value.files == Some(ExtractFiles(raw, parse))
    ensures ObjectsParseAsObjects(parse) ==> RunBoilerplate(input, llm, parse).value.files.value.JObject?
  {
    var enhanced := Strip(llm(EnhancePrompt(input.userInput.value)));
    var raw := Strip(llm(GeneratePrompt(enhanced)));
    var s1 := input.(enhancedPrompt := Some(enhanced));
    assert Merge(input, EnhancePromptNode(input, llm).value) == s1;
    assert BoilerplateNode(s1, llm, parse).value.files == Some(ExtractFiles(raw, parse));
    if ObjectsParseAsObjects(parse) {
      FilesAlwaysObject(raw, parse);
    }
  }
}
