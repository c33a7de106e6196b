/** How `AWSBedrockService.chat` turns a list of chat turns into the request
    body for the Amazon Nova "messages-v1" schema (app/services.py:39-61),
    with reference definitions of what that body must carry and a decoder
    that reads it back. */
module BedrockRequest {
  import opened Wrappers
  import opened JsonValues
  import opened Models

  const SchemaVersion: string := "messages-v1"

  /** The keyword defaults of `chat`; the HTTP route always uses them. */
  const DefaultTemperature: real := 1.0
  const DefaultMaxTokens: int := 1000

  /** A text that is not empty. */
  type NonEmptyString = s: string | |s| > 0 witness "?"

  /** The built-in code-generation prompt used when the caller gives none. Its
      wording is not modelled: it is a fixed text that is not empty. */
  const DefaultSystemPrompt: NonEmptyString

  /** The roles that are forwarded as conversation turns. */
  predicate IsConversational(m: Message) {
    m.role == "user" || m.role == "assistant"
  }

  /** `{"text": t}` */
  function TextBlock(t: string): Json {
    Obj(map["text" := Str(t)])
  }

  /** `{"role": role, "content": [{"text": content}]}` */
  function WireMessage(m: Message): Json {
    Obj(map["role" := Str(m.role), "content" := Arr([TextBlock(m.content)])])
  }

  function WireMessages(ms: seq<Message>): seq<Json>
    decreases |ms|
  {
    if |ms| == 0 then [] else [WireMessage(ms[0])] + WireMessages(ms[1..])
  }

  /** The two variables of the loop over the incoming turns: the system text
      captured so far and the conversation built so far. */
  datatype Scan = Scan(system: Option<string>, conversation: seq<Json>)

  /** One iteration: a system turn overwrites the captured text, a user or
      assistant turn is appended, any other role is skipped. */
  function ScanStep(acc: Scan, m: Message): Scan {
    if m.role == "system" then acc.(system := Some(m.content))
    else if IsConversational(m) then acc.(conversation := acc.conversation + [WireMessage(m)])
    else acc
  }

  /** The loop, run over `ms` from state `acc`. */
  function ScanFrom(acc: Scan, ms: seq<Message>): Scan
    decreases |ms|
  {
    if |ms| == 0 then acc else ScanFrom(ScanStep(acc, ms[0]), ms[1..])
  }

  /** `if not system_content`: no captured text, or an empty one, falls back to
      the default prompt. */
  function SystemOrDefault(captured: Option<string>): (r: string)
    ensures r != ""
    ensures captured.Some? && captured.value != "" ==> r == captured.value
    ensures captured.None? || captured.value == "" ==> r == DefaultSystemPrompt
  {
    match captured
    case Some(s) => if s != "" then s else DefaultSystemPrompt
    case None => DefaultSystemPrompt
  }

  /** The request body sent to the model. */
  function RequestBody(ms: seq<Message>, temperature: real, maxTokens: int): (body: Json)
    ensures body.Obj? && body.fields.Keys == {"schemaVersion", "messages", "system", "inferenceConfig"}
    ensures body.fields["schemaVersion"] == Str(SchemaVersion)
    ensures body.fields["system"].Arr? && |body.fields["system"].items| == 1
    ensures body.fields["inferenceConfig"] == Obj(map["temperature" := Float(temperature), "max_new_tokens" := Int(maxTokens)])
  {
    var scan := ScanFrom(Scan(None, []), ms);
    Obj(map[
      "schemaVersion" := Str(SchemaVersion),
      "messages" := Arr(scan.conversation),
      "system" := Arr([TextBlock(SystemOrDefault(scan.system))]),
      "inferenceConfig" := Obj(map["temperature" := Float(temperature), "max_new_tokens" := Int(maxTokens)])
    ])
  }

  // Reference definitions of what the loop computes.

  /** The content of the last turn whose role is "system", if any. */
  function LastSystem(ms: seq<Message>): Option<string>
    decreases |ms|
  {
    if |ms| == 0 then None
    else if ms[|ms| - 1].role == "system" then Some(ms[|ms| - 1].content)
    else LastSystem(ms[..|ms| - 1])
  }

  /** The user and assistant turns of `ms`, in their original order. */
  function Conversation(ms: seq<Message>): seq<Message>
    decreases |ms|
  {
    if |ms| == 0 then []
    else (if IsConversational(ms[0]) then [ms[0]] else []) + Conversation(ms[1..])
  }

  /** The system text the request carries. */
  function EffectiveSystem(ms: seq<Message>): string {
    SystemOrDefault(LastSystem(ms))
  }

  lemma {:induction false} WireMessagesAppend(a: seq<Message>, b: seq<Message>)
    ensures WireMessages(a + b) == WireMessages(a) + WireMessages(b)
    decreases |a|
  {
    if |a| > 0 {
      assert (a + b)[0] == a[0] && (a + b)[1..] == a[1..] + b;
      WireMessagesAppend(a[1..], b);
    } else {
      assert a + b == b;
    }
  }

  /** Filtering distributes over concatenation: the kept turns of `a + b` are
      the kept turns of `a` followed by those of `b`. */
  lemma {:induction false} ConversationAppend(a: seq<Message>, b: seq<Message>)
    ensures Conversation(a + b) == Conversation(a) + Conversation(b)
    decreases |a|
  {
    if |a| > 0 {
      assert (a + b)[0] == a[0] && (a + b)[1..] == a[1..] + b;
      ConversationAppend(a[1..], b);
    } else {
      assert a + b == b;
    }
  }

  /** A system turn in `b` hides every system turn of `a`. */
  lemma {:induction false} LastSystemAppend(a: seq<Message>, b: seq<Message>)
    ensures LastSystem(a + b) == if LastSystem(b).Some? then LastSystem(b) else LastSystem(a)
    decreases |b|
  {
    if |b| == 0 {
      assert a + b == a;
    } else {
      var ab := a + b;
      assert ab[|ab| - 1] == b[|b| - 1];
      assert ab[..|ab| - 1] == a + b[..|b| - 1];
      LastSystemAppend(a, b[..|b| - 1]);
    }
  }

  /** The reference system text is the content of the system turn with the
      greatest index, and there is one exactly when some turn has that role. */
  lemma {:induction false} LastSystemIsLast(ms: seq<Message>)
    ensures LastSystem(ms).None? <==> forall i :: 0 <= i < |ms| ==> ms[i].role != "system"
    ensures LastSystem(ms).Some? ==>
      exists i :: 0 <= i < |ms| && ms[i].role == "system" && ms[i].content == LastSystem(ms).value
        && forall j :: i < j < |ms| ==> ms[j].role != "system"
    decreases |ms|
  {
    if |ms| > 0 {
      var last := |ms| - 1;
      var init := ms[..last];
      LastSystemIsLast(init);
      if ms[last].role != "system" {
        assert forall i :: 0 <= i < last ==> ms[i] == init[i];
        if LastSystem(ms).Some? {
          var i :| 0 <= i < |init| && init[i].role == "system" && init[i].content == LastSystem(init).value
            && forall j :: i < j < |init| ==> init[j].role != "system";
          assert ms[i] == init[i];
        }
      }
    }
  }

  /** The loop computes the reference definitions: the conversation built from
      `acc` gains exactly the user and assistant turns of `ms`, and the captured
      system text is that of the last system turn of `ms`, if any. */
  lemma ScanFromComputes(acc: Scan, ms: seq<Message>)
    ensures ScanFrom(acc, ms).conversation == acc.conversation + WireMessages(Conversation(ms))
    ensures ScanFrom(acc, ms).system == if LastSystem(ms).Some? then LastSystem(ms) else acc.system
  {
    ScanFromConversation(acc, ms);
    ScanFromSystem(acc, ms);
  }

  lemma {:induction false} ScanFromConversation(acc: Scan, ms: seq<Message>)
    ensures ScanFrom(acc, ms).conversation == acc.conversation + WireMessages(Conversation(ms))
    decreases |ms|
  {
    if |ms| == 0 {
      assert acc.conversation + [] == acc.conversation;
    } else {
      var m := ms[0];
      var next := ScanStep(acc, m);
      assert ScanFrom(acc, ms) == ScanFrom(next, ms[1..]);
      ScanFromConversation(next, ms[1..]);
      ReferenceCons(m, ms[1..]);
      assert ms == [m] + ms[1..];
      if IsConversational(m) {
        assert next.conversation == acc.conversation + [WireMessage(m)];
      } else {
        assert next.conversation == acc.conversation;
      }
    }
  }

  lemma {:induction false} ScanFromSystem(acc: Scan, ms: seq<Message>)
    ensures ScanFrom(acc, ms).system == if LastSystem(ms).Some? then LastSystem(ms) else acc.system
    decreases |ms|
  {
    if |ms| > 0 {
      var m := ms[0];
      var next := ScanStep(acc, m);
      assert ScanFrom(acc, ms) == ScanFrom(next, ms[1..]);
      ScanFromSystem(next, ms[1..]);
      ReferenceCons(m, ms[1..]);
      assert ms == [m] + ms[1..];
    }
  }

  /** How the reference definitions see a first turn in front of `rest`. */
  lemma ReferenceCons(m: Message, rest: seq<Message>)
    ensures LastSystem([m] + rest) == if LastSystem(rest).Some? then LastSystem(rest) else if m.role == "system" then Some(m.content) else None
    ensures WireMessages(Conversation([m] + rest)) == (if IsConversational(m) then [WireMessage(m)] else []) + WireMessages(Conversation(rest))
  {
    LastSystemAppend([m], rest);
    assert [m][..0] == [];
    var kept := if IsConversational(m) then [m] else [];
    assert ([m] + rest)[1..] == rest;
    assert Conversation([m] + rest) == kept + Conversation(rest);
    WireMessagesAppend(kept, Conversation(rest));
    assert WireMessages(kept) == if IsConversational(m) then [WireMessage(m)] else [];
  }

  /** The body carries exactly the user and assistant turns, in order, and the
      system text of the last system turn or the default prompt. */
  lemma RequestBodyContents(ms: seq<Message>, temperature: real, maxTokens: int)
    ensures RequestBody(ms, temperature, maxTokens).fields["messages"] == Arr(WireMessages(Conversation(ms)))
    ensures RequestBody(ms, temperature, maxTokens).fields["system"] == Arr([TextBlock(EffectiveSystem(ms))])
  {
    ScanFromComputes(Scan(None, []), ms);
    assert [] + WireMessages(Conversation(ms)) == WireMessages(Conversation(ms));
  }

  /** A turn whose role is not "system", "user" or "assistant" is dropped
      without a trace: the body is the same as if it had never been sent. */
  lemma UnknownRoleIgnored(before: seq<Message>, m: Message, after: seq<Message>, temperature: real, maxTokens: int)
    requires m.role != "system" && !IsConversational(m)
    ensures RequestBody(before + [m] + after, temperature, maxTokens) == RequestBody(before + after, temperature, maxTokens)
  {
    var with := before + [m] + after;
    var without := before + after;
    RequestBodyContents(with, temperature, maxTokens);
    RequestBodyContents(without, temperature, maxTokens);
    ConversationAppend(before + [m], after);
    ConversationAppend(before, [m]);
    ConversationAppend(before, after);
    assert Conversation([m]) == [] by {
      assert [m][1..] == [];
    }
    assert Conversation(before + [m]) == Conversation(before);
    LastSystemAppend(before + [m], after);
    LastSystemAppend(before, [m]);
    LastSystemAppend(before, after);
    assert LastSystem([m]) == None by {
      assert [m][..0] == [];
    }
  }

  // Reading a request body back.

  /** What a request body says, in the system's own terms. */
  datatype Request = Request(system: string, turns: seq<Message>, temperature: real, maxTokens: int)

  function ParseTextBlock(j: Json): Option<string> {
    if j.Obj? && "text" in j.fields && j.fields["text"].Str? then Some(j.fields["text"].s) else None
  }

  function ParseMessage(j: Json): Option<Message> {
    if j.Obj? && "role" in j.fields && j.fields["role"].Str? && "content" in j.fields
      && j.fields["content"].Arr? && |j.fields["content"].items| == 1
    then
      var text :- ParseTextBlock(j.fields["content"].items[0]);
      Some(Message(j.fields["role"].s, text))
    else None
  }

  function ParseMessages(items: seq<Json>): Option<seq<Message>>
    decreases |items|
  {
    if |items| == 0 then Some([])
    else
      var m :- ParseMessage(items[0]);
      var rest :- ParseMessages(items[1..]);
      Some([m] + rest)
  }

  /** Decodes a body in the "messages-v1" schema; None for anything else. */
  function ParseRequest(body: Json): Option<Request> {
    if !body.Obj? then None
    else
      var f := body.fields;
      if !("schemaVersion" in f && f["schemaVersion"] == Str(SchemaVersion)) then None
      else if !("messages" in f && f["messages"].Arr?) then None
      else if !("system" in f && f["system"].Arr? && |f["system"].items| == 1) then None
      else if !("inferenceConfig" in f && f["inferenceConfig"].Obj?) then None
      else
        var config := f["inferenceConfig"].fields;
        if !("temperature" in config && config["temperature"].Float?) then None
        else if !("max_new_tokens" in config && config["max_new_tokens"].Int?) then None
        else
          var turns :- ParseMessages(f["messages"].items);
          var system :- ParseTextBlock(f["system"].items[0]);
          Some(Request(system, turns, config["temperature"].f, config["max_new_tokens"].i))
  }

  lemma {:induction false} ParseWireMessages(ms: seq<Message>)
    ensures ParseMessages(WireMessages(ms)) == Some(ms)
    decreases |ms|
  {
    if |ms| > 0 {
      var w := WireMessages(ms);
      assert w[0] == WireMessage(ms[0]) && w[1..] == WireMessages(ms[1..]);
      ParseWireMessages(ms[1..]);
      assert ParseMessage(WireMessage(ms[0])) == Some(ms[0]);
      assert [ms[0]] + ms[1..] == ms;
    }
  }

  /** Reading the body back recovers the effective system text, exactly the user
      and assistant turns in their original order, and the generation
      parameters unchanged. */
  lemma RequestRoundTrip(ms: seq<Message>, temperature: real, maxTokens: int)
    ensures ParseRequest(RequestBody(ms, temperature, maxTokens))
      == Some(Request(EffectiveSystem(ms), Conversation(ms), temperature, maxTokens))
  {
    var body := RequestBody(ms, temperature, maxTokens);
    RequestBodyContents(ms, temperature, maxTokens);
    ParseWireMessages(Conversation(ms));
    assert ParseTextBlock(body.fields["system"].items[0]) == Some(EffectiveSystem(ms));
  }

  /** A conversation of one user turn with the default parameters: the default
      prompt, that one turn, temperature 1.0 and 1000 new tokens. */
  lemma SingleUserTurn(content: string)
    ensures RequestBody([Message("user", content)], DefaultTemperature, DefaultMaxTokens) == Obj(map[
      "schemaVersion" := Str("messages-v1"),
      "messages" := Arr([Obj(map["role" := Str("user"), "content" := Arr([Obj(map["text" := Str(content)])])])]),
      "system" := Arr([Obj(map["text" := Str(DefaultSystemPrompt)])]),
      "inferenceConfig" := Obj(map["temperature" := Float(1.0), "max_new_tokens" := Int(1000)])
    ])
  {
    var ms := [Message("user", content)];
    RequestBodyContents(ms, DefaultTemperature, DefaultMaxTokens);
    assert ms[..0] == [] && ms[1..] == [];
    assert Conversation(ms) == ms;
    assert WireMessages(ms) == [WireMessage(ms[0])];
    assert LastSystem(ms) == None;
  }
}
