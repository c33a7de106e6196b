/** The chat interface's conversation history: what it appends for the user's
    input and for the server's reply (streamlit_app.py:37-83);
    the HTTP call is a parameter. How each stored message is displayed is in
    module CodeBlocks. */
module ChatHistory {
  import opened Wrappers
  import opened Models
  import opened BedrockRequest

  /** A key of the decoded reply as `resp.get(key)` sees it: absent, present
      with null, or present with a text. */
  datatype Field = Absent | Null | Text(text: string)

  /** The decoded reply of the chat endpoint. `success` is the truthiness of
      `resp.get("success")`. */
  datatype Reply = Reply(success: bool, response: Field, error: Field)

  /** What posting the history to the server can come to. */
  datatype PostOutcome = Replied(reply: Reply) | TimedOut | PostFailed(reason: string)

  const TimeoutMessage: string := "Request timeout. Please try again."

  /** `resp.get('error', 'Unknown error')` formatted into the f-string: the
      default applies only when the key is absent; a null prints as "None". */
  function ErrorText(error: Field): string {
    match error
    case Absent => "Unknown error"
    case Null => "None"
    case Text(t) => t
  }

  /** The assistant turn recorded for the outcome of the post. */
  function AssistantContent(outcome: PostOutcome): (content: string)
    ensures outcome.Replied? && outcome.reply.success && outcome.reply.response.Text? && outcome.reply.response.text != ""
      ==> content == outcome.reply.response.text
    ensures outcome.Replied? && !(outcome.reply.success && outcome.reply.response.Text? && outcome.reply.response.text != "")
      ==> content == "Error: " + ErrorText(outcome.reply.error)
    ensures outcome.TimedOut? ==> content == TimeoutMessage
    ensures outcome.PostFailed? ==> content == "Failed to call API: " + outcome.reason
  {
    match outcome
    case Replied(reply) =>
      if reply.success && reply.response.Text? && reply.response.text != "" then reply.response.text
      else "Error: " + ErrorText(reply.error)
    case TimedOut => TimeoutMessage
    case PostFailed(reason) => "Failed to call API: " + reason
  }

  /** One round of the interface: a non-empty input is appended as a user
      turn, the whole history is posted, and exactly one assistant turn is
      appended for whatever came back. An empty input changes nothing. */
  function Submit(history: seq<Message>, input: string, post: seq<Message> -> PostOutcome): (next: seq<Message>)
    ensures input == "" ==> next == history
    ensures input != "" ==>
      && |next| == |history| + 2
      && next[..|history|] == history
      && next[|history|] == Message("user", input)
      && next[|history| + 1] == Message("assistant", AssistantContent(post(history + [Message("user", input)])))
  {
    if input == "" then history
    else
      var withUser := history + [Message("user", input)];
      withUser + [Message("assistant", AssistantContent(post(withUser)))]
  }

  /** Every stored turn is a user or an assistant turn. */
  predicate OnlyConversation(history: seq<Message>) {
    forall i :: 0 <= i < |history| ==> IsConversational(history[i])
  }

  /** The interface only ever stores user and assistant turns. */
  lemma SubmitKeepsRoles(history: seq<Message>, input: string, post: seq<Message> -> PostOutcome)
    requires OnlyConversation(history)
    ensures OnlyConversation(Submit(history, input, post))
  {
  }

  lemma {:induction false} ConversationOfConversational(history: seq<Message>)
    requires OnlyConversation(history)
    ensures Conversation(history) == history
    ensures LastSystem(history) == None
    decreases |history|
  {
    if |history| > 0 {
      ConversationOfConversational(history[1..]);
      ReferenceCons(history[0], history[1..]);
      assert history == [history[0]] + history[1..];
      LastSystemIsLast(history);
    }
  }

  /** What the interface posts is forwarded whole: the server's request carries
      every stored turn in order and, as the interface never stores a system
      turn, the default prompt. */
  lemma PostedHistoryForwardedWhole(history: seq<Message>, temperature: real, maxTokens: int)
    requires OnlyConversation(history)
    ensures ParseRequest(RequestBody(history, temperature, maxTokens))
      == Some(Request(DefaultSystemPrompt, history, temperature, maxTokens))
  {
    ConversationOfConversational(history);
    RequestRoundTrip(history, temperature, maxTokens);
  }
}
