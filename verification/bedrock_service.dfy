/** `AWSBedrockService.chat`: build the request, call the model, read the
    reply, and turn any failure into an ordinary result (app/services.py:32-86).
    The model call (`invoke_model` followed by reading and decoding the reply
    body) is a parameter: given the model id and the request body it yields
    the decoded reply, or the `str()` of the exception it raised. */
module BedrockService {
  import opened Wrappers
  import opened JsonValues
  import opened Models
  import opened BedrockRequest
  import opened BedrockResponse

  /** The model endpoint as the service sees it. */
  type Invoke = (string, Json) -> Result<Json, string>

  /** The result of one call: the reply's text and usage, or the error text. */
  datatype Envelope = Answered(response: Json, usage: Option<Usage>) | Failed(error: string)

  /** One call of `chat`. The only step that can raise is the model call: the
      request is always built, and reading the reply never raises. */
  function Chat(invoke: Invoke, modelId: string, messages: seq<Message>, temperature: real, maxTokens: int): (e: Envelope)
    ensures e.Failed? <==> invoke(modelId, RequestBody(messages, temperature, maxTokens)).Failure?
    ensures e.Failed? ==> e.error == invoke(modelId, RequestBody(messages, temperature, maxTokens)).error
    ensures e.Answered? ==>
      var reply := invoke(modelId, RequestBody(messages, temperature, maxTokens)).value;
      e.response == ExtractResponseContent(reply) && e.usage == ExtractUsageInfo(reply)
  {
    var request := RequestBody(messages, temperature, maxTokens);
    match invoke(modelId, request)
    case Success(reply) => Answered(ExtractResponseContent(reply), ExtractUsageInfo(reply))
    case Failure(error) => Failed(error)
  }

  /** The dict `chat` returns: `response`, `usage` and `success` on success; on
      failure also `error`, with `response` and `usage` set to None. */
  function EnvelopeJson(e: Envelope): (j: Json)
    ensures j.Obj? && "success" in j.fields && "response" in j.fields && "usage" in j.fields
    ensures j.fields["success"] == Bool(e.Answered?)
    ensures "error" in j.fields <==> e.Failed?
    ensures e.Failed? ==> j.fields["error"] == Str(e.error) && j.fields["response"] == Null && j.fields["usage"] == Null
  {
    match e
    case Answered(response, usage) =>
      Obj(map["response" := response,
              "usage" := (match usage case Some(u) => UsageJson(u) case None => Null),
              "success" := Bool(true)])
    case Failed(error) =>
      Obj(map["error" := Str(error), "response" := Null, "usage" := Null, "success" := Bool(false)])
  }

  /** Reads the dict back: the success flag picks the case, and the other keys
      give its fields. */
  function ParseEnvelope(j: Json): Option<Envelope> {
    if !(j.Obj? && "success" in j.fields && j.fields["success"].Bool?) then None
    else if j.fields["success"].b then
      if !("response" in j.fields && "usage" in j.fields && "error" !in j.fields) then None
      else
        var usage :- ParseUsage(j.fields["usage"]);
        Some(Answered(j.fields["response"], usage))
    else if "error" in j.fields && j.fields["error"].Str? then Some(Failed(j.fields["error"].s))
    else None
  }

  /** None for null, the three counters for a usage dict. */
  function ParseUsage(j: Json): Option<Option<Usage>> {
    if j.Null? then Some(None)
    else if j.Obj? && "input_tokens" in j.fields && "output_tokens" in j.fields && "total_tokens" in j.fields then
      Some(Some(Usage(j.fields["input_tokens"], j.fields["output_tokens"], j.fields["total_tokens"])))
    else None
  }

  /** The returned dict determines the result it was built from. */
  lemma EnvelopeRoundTrip(e: Envelope)
    ensures ParseEnvelope(EnvelopeJson(e)) == Some(e)
  {
  }

  /** A model that always answers with a well-formed reply: the caller gets its
      text and counts back whatever turns and parameters were sent. */
  lemma ChatRelaysReply(modelId: string, messages: seq<Message>, temperature: real, maxTokens: int, text: string, i: int, o: int, t: int)
    ensures Chat((_, _) => Success(VendorReply(text, Some((i, o, t)))), modelId, messages, temperature, maxTokens)
      == Answered(Str(text), Some(Usage(Int(i), Int(o), Int(t))))
  {
    BedrockResponse.ReplyRoundTrip(text, Some((i, o, t)));
  }
}
