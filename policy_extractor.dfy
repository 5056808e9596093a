/**
  `extractPolicyData`: the first model call, which asks for a summary, the validation rules and a
  cleaned copy of a policy document as JSON, and the shaping of the reply into the extracted data.
  The text generator, the JSON parser, the system prompt and the clock reading are parameters.
*/
module PolicyExtractor {
  import opened Wrappers
  import opened Text
  import opened LlmResponse

  /**
    `ExtractedPolicyData` as the code builds it. The parsed reply is not checked against the
    declared types, so each of the three fields holds whatever the reply had under its key, and
    `None` (`undefined`) where it had nothing.
  */
  datatype ExtractedPolicyData = ExtractedPolicyData(
    content: Option<Json>,
    summary: Option<Json>,
    validationRules: Option<Json>,
    extractedAt: string,
    sourceDocument: string,
    tokenUsage: TokenUsage)

  /** The three fields with the types `ExtractedPolicyData` declares for them. */
  datatype PolicyData = PolicyData(summary: string, validationRules: seq<string>, content: string)

  const ExtractionMaxTokens: nat := 8192

  /** The summary the extracted data gets when the reply cannot be parsed. */
  const FallbackSummary: string := "Policy document analyzed"

  /** What the policy document is preceded by in the user message. */
  const ExtractionPreamble: string :=
    "Please analyze and extract key information from the following policy document:\n\n"

  /** The request `extractPolicyData` sends. */
  function ExtractionRequest(systemPrompt: string, policyDocument: string, sourceDocumentName: string): Request {
    Request(systemPrompt, ExtractionPreamble + policyDocument, ExtractionMaxTokens, sourceDocumentName)
  }

  /** The object the `catch` puts in place of a reply that does not parse. */
  function Fallback(content: string): Json {
    JObject(map[
      "summary" := JString(FallbackSummary),
      "validationRules" := JArray([]),
      "structuredContent" := JString(content)])
  }

  /** The value the `try` block leaves: the reply parsed after fence stripping, or the fallback. */
  function Parsed(parse: Parser, content: string): Json {
    match parse(StripFence(content))
    case Some(v) => v
    case None => Fallback(content)
  }

  /**
    `extractPolicyData`. A generator failure propagates. A reply that does not parse is never an
    error: it becomes the fallback, whose content is the reply as it came, untrimmed. A reply that
    parses to `null` fails on the first property read. Any other value gives its `structuredContent`,
    `summary` and `validationRules` members. The document name, the token usage and the timestamp
    are passed through.
  */
  function ExtractPolicyData(generate: Generator, parse: Parser, systemPrompt: string, policyDocument: string,
                             sourceDocumentName: string, extractedAt: string): (r: Result<ExtractedPolicyData, string>)
    ensures var reply := generate(ExtractionRequest(systemPrompt, policyDocument, sourceDocumentName));
      && (reply.Failure? ==> r == Failure(reply.error))
      && (reply.Success? && parse(StripFence(reply.value.content)).None? ==>
            && r.Success?
            && r.value.content == Some(JString(reply.value.content))
            && r.value.summary == Some(JString(FallbackSummary))
            && r.value.validationRules == Some(JArray([])))
      && (reply.Success? && parse(StripFence(reply.value.content)) == Some(JNull) ==>
            r == Failure(NullAccess("structuredContent")))
      && (reply.Success? && parse(StripFence(reply.value.content)).Some? && !parse(StripFence(reply.value.content)).value.JNull? ==>
            var v := parse(StripFence(reply.value.content)).value;
            && r.Success?
            && r.value.content == Get(v, "structuredContent")
            && r.value.summary == Get(v, "summary")
            && r.value.validationRules == Get(v, "validationRules"))
      && (r.Success? ==>
            && reply.Success?
            && r.value.sourceDocument == sourceDocumentName
            && r.value.tokenUsage == reply.value.tokenUsage
            && r.value.extractedAt == extractedAt)
  {
    match generate(ExtractionRequest(systemPrompt, policyDocument, sourceDocumentName))
    case Failure(e) => Failure(e)
    case Success(reply) =>
      var v := Parsed(parse, reply.content);
      if v.JNull? then Failure(NullAccess("structuredContent"))
      else
        Success(ExtractedPolicyData(
          Get(v, "structuredContent"), Get(v, "summary"), Get(v, "validationRules"),
          extractedAt, sourceDocumentName, reply.tokenUsage))
  }

  // ---------------------------------------------------------------------------------------------
  // The declared types

  /** Every element of a JSON array is a string. */
  predicate AllStrings(items: seq<Json>) {
    forall i :: 0 <= i < |items| ==> items[i].JString?
  }

  /** The strings of an array of strings. */
  function StringsOf(items: seq<Json>): (r: seq<string>)
    requires AllStrings(items)
    ensures |r| == |items| && forall i :: 0 <= i < |items| ==> items[i] == JString(r[i])
  {
    seq(|items|, i requires 0 <= i < |items| => items[i].s)
  }

  /** The JSON array of some strings. */
  function StringArray(ss: seq<string>): (r: Json)
    ensures r.JArray? && AllStrings(r.items) && StringsOf(r.items) == ss
  {
    JArray(seq(|ss|, i requires 0 <= i < |ss| => JString(ss[i])))
  }

  /**
    The extracted data read at its declared types: present exactly when the summary and the content
    are strings and the rules an array of strings.
  */
  function Declared(e: ExtractedPolicyData): (r: Option<PolicyData>)
    ensures r.Some? <==> && e.summary.Some? && e.summary.value.JString?
                         && e.content.Some? && e.content.value.JString?
                         && e.validationRules.Some? && e.validationRules.value.JArray?
                         && AllStrings(e.validationRules.value.items)
    ensures r.Some? ==> && e.summary == Some(JString(r.value.summary))
                        && e.content == Some(JString(r.value.content))
                        && e.validationRules == Some(StringArray(r.value.validationRules))
  {
    if && e.summary.Some? && e.summary.value.JString?
       && e.content.Some? && e.content.value.JString?
       && e.validationRules.Some? && e.validationRules.value.JArray?
       && AllStrings(e.validationRules.value.items)
    then
      var items := e.validationRules.value.items;
      assert StringArray(StringsOf(items)).items == items;
      Some(PolicyData(e.summary.value.s, StringsOf(items), e.content.value.s))
    else None
  }

  /** The reply object that holds `data`, as the system prompt asks the model to write it. */
  function ReplyObject(data: PolicyData): Json {
    JObject(map[
      "summary" := JString(data.summary),
      "validationRules" := StringArray(data.validationRules),
      "structuredContent" := JString(data.content)])
  }

  // ---------------------------------------------------------------------------------------------
  // Properties

  /**
    A reply that does not parse still gives data of the declared types: the fixed summary, no rules,
    and the whole reply, untrimmed and with its fences, as the content.
  */
  lemma UnparsedReplyDeclared(generate: Generator, parse: Parser, systemPrompt: string, policyDocument: string,
                              sourceDocumentName: string, extractedAt: string)
    requires generate(ExtractionRequest(systemPrompt, policyDocument, sourceDocumentName)).Success?
    requires parse(StripFence(generate(ExtractionRequest(systemPrompt, policyDocument, sourceDocumentName)).value.content)).None?
    ensures var r := ExtractPolicyData(generate, parse, systemPrompt, policyDocument, sourceDocumentName, extractedAt);
      var reply := generate(ExtractionRequest(systemPrompt, policyDocument, sourceDocumentName)).value;
      r.Success? && Declared(r.value) == Some(PolicyData(FallbackSummary, [], reply.content))
  {
    var r := ExtractPolicyData(generate, parse, systemPrompt, policyDocument, sourceDocumentName, extractedAt);
    assert r.value.validationRules.value.items == [];
  }

  /**
    A reply that is the JSON object of some data, fenced by "```json" or "```" or not fenced at
    all, gives back exactly that data, whenever the parser reads the object back from its text.
  */
  lemma ReplyRoundTrip(generate: Generator, parse: Parser, systemPrompt: string, policyDocument: string,
                       sourceDocumentName: string, extractedAt: string, head: string, body: string, data: PolicyData)
    requires head == JsonFence || head == Fence || head == []
    requires body == [] || (!IsSpace(body[0]) && !IsSpace(body[|body| - 1]))
    requires head == [] ==> !StartsWith(body, Fence) && !EndsWith(body, Fence)
    requires generate(ExtractionRequest(systemPrompt, policyDocument, sourceDocumentName)).Success?
    requires generate(ExtractionRequest(systemPrompt, policyDocument, sourceDocumentName)).value.content ==
      if head == [] then body else head + "\n" + body + "\n" + Fence
    requires parse(body) == Some(ReplyObject(data))
    ensures var r := ExtractPolicyData(generate, parse, systemPrompt, policyDocument, sourceDocumentName, extractedAt);
      r.Success? && Declared(r.value) == Some(data)
  {
    ReplyStripped(head, body);
    var r := ExtractPolicyData(generate, parse, systemPrompt, policyDocument, sourceDocumentName, extractedAt);
    ReplyObjectDeclared(data, r.value);
  }

  /** Stripping a reply of its fence and its surrounding white space leaves the body it fenced. */
  lemma ReplyStripped(head: string, body: string)
    requires head == JsonFence || head == Fence || head == []
    requires body == [] || (!IsSpace(body[0]) && !IsSpace(body[|body| - 1]))
    requires head == [] ==> !StartsWith(body, Fence) && !EndsWith(body, Fence)
    ensures StripFence(if head == [] then body else head + "\n" + body + "\n" + Fence) == body
  {
    if head == [] {
      TrimOfTrimmed(body);
      UnfencedReply(body);
    } else {
      FencedReply(head, body);
    }
  }

  /** Data read back from the members of its own reply object is that data. */
  lemma ReplyObjectDeclared(data: PolicyData, e: ExtractedPolicyData)
    requires e.content == Get(ReplyObject(data), "structuredContent")
    requires e.summary == Get(ReplyObject(data), "summary")
    requires e.validationRules == Get(ReplyObject(data), "validationRules")
    ensures Declared(e) == Some(data)
  {
    var items := StringArray(data.validationRules).items;
    assert StringsOf(items) == data.validationRules;
  }
}
