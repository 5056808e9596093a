/**
  What both model calls share: the reply of the text generator, the JSON values that `JSON.parse`
  produces (the parser itself is a parameter of the modules that use it), property access on such
  a value, and the stripping of a Markdown code fence around a JSON reply.
*/
module LlmResponse {
  import opened Wrappers
  import opened Text

  /** `TokenUsage`, passed through unchanged. */
  datatype TokenUsage = TokenUsage(inputTokens: int, outputTokens: int, totalTokens: int)

  /** `GenerateResult`: the text of the reply and the tokens it cost. */
  datatype Generated = Generated(content: string, tokenUsage: TokenUsage)

  /** `GenerateOptions`: what a call to the text generator is given. */
  datatype Request = Request(systemPrompt: string, userContent: string, maxTokens: nat, sourceDocument: string)

  /** `generateContent`: the reply to a request, or the message it throws with. */
  type Generator = Request -> Result<Generated, string>

  /** A JSON value; a number keeps its literal text, since no arithmetic is done on it. */
  datatype Json =
    | JNull
    | JBool(b: bool)
    | JNumber(literal: string)
    | JString(s: string)
    | JArray(items: seq<Json>)
    | JObject(fields: map<string, Json>)

  /** `JSON.parse`: the value a text denotes, or `None` when it throws. */
  type Parser = string -> Option<Json>

  /** `typeof v`. */
  function TypeOf(v: Json): string {
    match v
    case JNull => "object"
    case JBool(_) => "boolean"
    case JNumber(_) => "number"
    case JString(_) => "string"
    case JArray(_) => "object"
    case JObject(_) => "object"
  }

  /**
    `v[key]` on a value that is not `null`: the member of an object, and `undefined` (`None`)
    for a missing member or a value of another kind.
  */
  function Get(v: Json, key: string): (r: Option<Json>)
    requires !v.JNull?
    ensures r.Some? <==> v.JObject? && key in v.fields
  {
    if v.JObject? && key in v.fields then Some(v.fields[key]) else None
  }

  /** The message `v[key]` throws with when `v` is `null`. */
  function NullAccess(key: string): string {
    "Cannot read properties of null (reading '" + key + "')"
  }

  const Fence: string := "```"
  const JsonFence: string := "```json"

  /** A leading "```json", or else a leading "```", dropped. */
  function DropOpening(t: string): (r: string)
    ensures |r| <= |t| && r == t[|t| - |r|..]
  {
    if StartsWith(t, JsonFence) then t[7..] else if StartsWith(t, Fence) then t[3..] else t
  }

  /** A trailing "```" dropped. */
  function DropClosing(a: string): (r: string)
    ensures |r| <= |a| && r == a[..|r|]
  {
    if EndsWith(a, Fence) then a[..|a| - 3] else a
  }

  /**
    The fence stripping both callers apply to a reply before parsing it: trim, drop a leading
    "```json" or else a leading "```", drop a trailing "```", and trim again.
  */
  function StripFence(content: string): string {
    Trim(DropClosing(DropOpening(Trim(content))))
  }

  /** Trimming twice is trimming once. */
  lemma TrimIdempotent(s: string)
    ensures Trim(Trim(s)) == Trim(s)
  {
    TrimOfTrimmed(Trim(s));
  }

  /** A reply with no fence at either end is only trimmed. */
  lemma UnfencedReply(content: string)
    requires !StartsWith(Trim(content), Fence) && !EndsWith(Trim(content), Fence)
    ensures StripFence(content) == Trim(content)
  {
    NoFenceKept(Trim(content));
    TrimIdempotent(content);
  }

  /** A text that neither starts nor ends with a fence is kept by both drops. */
  lemma NoFenceKept(t: string)
    requires !StartsWith(t, Fence) && !EndsWith(t, Fence)
    ensures DropClosing(DropOpening(t)) == t
  {
  }

  lemma OpeningJson(rest: string)
    ensures DropOpening(JsonFence + rest) == rest
  {
    var t := JsonFence + rest;
    assert t[..7] == JsonFence;
    assert t[7..] == rest;
  }

  lemma OpeningBare(rest: string)
    requires !StartsWith(rest, "json")
    ensures DropOpening(Fence + rest) == rest
  {
    var t := Fence + rest;
    assert t[..3] == Fence;
    assert t[3..] == rest;
  }

  lemma Closing(rest: string)
    ensures DropClosing(rest + Fence) == rest
  {
    var a := rest + Fence;
    assert a[|a| - 3..] == Fence;
    assert a[..|a| - 3] == rest;
  }

  /** A text that starts and ends with a backtick is its own trim. */
  lemma FencedTrimmed(s: string)
    requires |s| > 0 && s[0] == '`' && s[|s| - 1] == '`'
    ensures Trim(s) == s
  {
    TrimOfTrimmed(s);
  }

  /** Both drops together remove the opening and the closing fence. */
  lemma DropsOf(head: string, inner: string)
    requires head == JsonFence || head == Fence
    requires inner != [] && inner[0] == '\n'
    ensures DropClosing(DropOpening(head + (inner + Fence))) == inner
  {
    if head == JsonFence {
      OpeningJson(inner + Fence);
    } else {
      assert (inner + Fence)[0] == '\n';
      OpeningBare(inner + Fence);
    }
    Closing(inner);
  }

  /** A text with no white space at its ends, on a line of its own, trims back to itself. */
  lemma TrimLine(body: string)
    requires body == [] || (!IsSpace(body[0]) && !IsSpace(body[|body| - 1]))
    ensures Trim("\n" + body + "\n") == body
  {
    assert AllSpace("\n");
    TrimPadded("\n", body, "\n");
    TrimOfTrimmed(body);
  }

  /**
    A JSON text with no white space at its ends, fenced by "```json" or a bare "```" and a closing
    "```" on lines of their own, comes back unchanged.
  */
  lemma FencedReply(head: string, body: string)
    requires head == JsonFence || head == Fence
    requires body == [] || (!IsSpace(body[0]) && !IsSpace(body[|body| - 1]))
    ensures StripFence(head + "\n" + body + "\n" + Fence) == body
  {
    var inner := "\n" + body + "\n";
    var s := head + "\n" + body + "\n" + Fence;
    assert s == head + (inner + Fence);
    assert s[0] == '`' && s[|s| - 1] == '`';
    FencedTrimmed(s);
    DropsOf(head, inner);
    TrimLine(body);
  }
}
