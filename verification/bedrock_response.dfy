/** How `AWSBedrockService` reads the model's reply: the response text and the
    token usage, each degrading to a fixed fallback instead of raising
    (app/services.py:88-115). */
module BedrockResponse {
  import opened Wrappers
  import opened JsonValues

  const NoResponse: string := "No response from model."
  const ExtractionError: string := "Error extracting response."

  /** Token counts as reported, under the names the service gives them
      (`input_tokens`, `output_tokens`, `total_tokens`). The values are passed
      through as the reply holds them. */
  datatype Usage = Usage(inputTokens: Json, outputTokens: Json, totalTokens: Json)

  // The shape the extraction walks, stated directly on the reply.

  /** `body.get("output", {})`, when `body` is a dict. */
  function OutputOf(body: Json): Json
    requires body.Obj?
  {
    FieldOr(body.fields, "output", Obj(map[]))
  }

  /** The reply is a dict, its output (if present) is a dict, and that output's
      message (if present) is a dict: the walk down to `content` cannot fail. */
  predicate ReachesContent(body: Json) {
    && body.Obj?
    && OutputOf(body).Obj?
    && FieldOr(OutputOf(body).fields, "message", Obj(map[])).Obj?
  }

  /** `message.get("content", [])` at the end of a walk that succeeds. */
  function ContentOf(body: Json): Json
    requires ReachesContent(body)
  {
    FieldOr(FieldOr(OutputOf(body).fields, "message", Obj(map[])).fields, "content", Arr([]))
  }

  /** The walk of `_extract_response_content`, with every step that can raise. */
  function ResponseContent(body: Json): Result<Json, string> {
    var output :- Get(body, "output", Obj(map[]));
    var message :- Get(output, "message", Obj(map[]));
    var content :- Get(message, "content", Arr([]));
    if Truthy(content) then
      var n :- Len(content);
      if n > 0 then
        var first :- First(content);
        Get(first, "text", Str(NoResponse))
      else Success(Str(NoResponse))
    else Success(Str(NoResponse))
  }

  /** `_extract_response_content`: the text of the first content block; the
      no-response text when the content is missing, empty or its first block has
      no text; the extraction-error text when the reply is not shaped as dicts
      where the walk expects them. */
  function ExtractResponseContent(body: Json): (r: Json)
    ensures !ReachesContent(body) ==> r == Str(ExtractionError)
    ensures ReachesContent(body) && !Truthy(ContentOf(body)) ==> r == Str(NoResponse)
    ensures ReachesContent(body) && Truthy(ContentOf(body)) && ContentOf(body).Arr? && ContentOf(body).items[0].Obj? ==>
      r == FieldOr(ContentOf(body).items[0].fields, "text", Str(NoResponse))
    ensures ReachesContent(body) && Truthy(ContentOf(body)) && !(ContentOf(body).Arr? && ContentOf(body).items[0].Obj?) ==>
      r == Str(ExtractionError)
  {
    match ResponseContent(body)
    case Success(text) => text
    case Failure(_) => Str(ExtractionError)
  }

  /** `_extract_usage_info`: the three counters, each 0 when missing, when the
      reply carries a non-empty usage dict; None otherwise, including when usage
      is absent (it is not zero-filled) and when the reply is not a dict. */
  function ExtractUsageInfo(body: Json): (r: Option<Usage>)
    ensures r.Some? <==> body.Obj? && "usage" in body.fields && body.fields["usage"].Obj? && |body.fields["usage"].fields| > 0
    ensures r.Some? ==>
      var u := body.fields["usage"].fields;
      r.value == Usage(FieldOr(u, "inputTokens", Int(0)), FieldOr(u, "outputTokens", Int(0)), FieldOr(u, "totalTokens", Int(0)))
  {
    match UsageInfo(body)
    case Success(usage) => usage
    case Failure(_) => None
  }

  /** The walk of `_extract_usage_info`, with every step that can raise. */
  function UsageInfo(body: Json): Result<Option<Usage>, string> {
    var usage :- Get(body, "usage", Null);
    if Truthy(usage) then
      var input :- Get(usage, "inputTokens", Int(0));
      var output :- Get(usage, "outputTokens", Int(0));
      var total :- Get(usage, "totalTokens", Int(0));
      Success(Some(Usage(input, output, total)))
    else Success(None)
  }

  /** `{"input_tokens": …, "output_tokens": …, "total_tokens": …}` */
  function UsageJson(u: Usage): Json {
    Obj(map["input_tokens" := u.inputTokens, "output_tokens" := u.outputTokens, "total_tokens" := u.totalTokens])
  }

  // The reply as the vendor writes it, to state the round trip.

  /** `{"output": {"message": {"content": [{"text": text}]}}}`, with
      `"usage": {"inputTokens": …, "outputTokens": …, "totalTokens": …}` when
      counts are given. */
  function VendorReply(text: string, counts: Option<(int, int, int)>): Json {
    var output := Obj(map["message" := Obj(map["content" := Arr([Obj(map["text" := Str(text)])])])]);
    match counts
    case None => Obj(map["output" := output])
    case Some((i, o, t)) =>
      Obj(map["output" := output,
              "usage" := Obj(map["inputTokens" := Int(i), "outputTokens" := Int(o), "totalTokens" := Int(t)])])
  }

  /** Reading a well-formed reply recovers its text and its counts; a reply
      without usage yields no usage at all. */
  lemma ReplyRoundTrip(text: string, counts: Option<(int, int, int)>)
    ensures ExtractResponseContent(VendorReply(text, counts)) == Str(text)
    ensures ExtractUsageInfo(VendorReply(text, counts))
      == match counts
         case None => None
         case Some((i, o, t)) => Some(Usage(Int(i), Int(o), Int(t)))
  {
    var reply := VendorReply(text, counts);
    assert ContentOf(reply) == Arr([Obj(map["text" := Str(text)])]);
  }
}
