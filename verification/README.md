# Bedrock code-generation chatbot: request translation, reply normalisation, chat display

A model in Dafny of the two pieces of logic in the code-generation chatbot that do more than pass data along.

1. **`AWSBedrockService.chat`** (app/services.py). It turns a list of `{role, content}` chat turns into an Amazon Nova "messages-v1" request body. The system text is the last `system` turn, or the built-in prompt when that is missing or empty. `user` and `assistant` turns are kept in order, each wrapped as `{role, content: [{text}]}`. Turns with any other role are dropped. The function then calls the model and reads the reply: the text of the first content block and the token usage. Each read falls back to a fixed value instead of raising. Any failure of the call becomes a `success = false` result.
2. **The chat interface** (streamlit_app.py). A message is cut on triple backticks into narrative text and code blocks, and a code block's first line is taken as its language tag. The file also holds the rule for what goes into the conversation history on each round.

Everything is functional Dafny. A JSON datatype stands for decoded JSON (`JsonValues.Json`). Python exceptions become `Result` values, at the exact points where Python raises: `.get` on a non-dict, `len` of a number, `[0]` of a dict. Two things are parameters of the model: the model endpoint (`BedrockService.Invoke`) and the HTTP post of the interface (`ChatHistory.Submit`'s `post`).

Files:

| file | module | models |
|---|---|---|
| wrappers.dfy | Wrappers | `Option`, `Result` |
| json.dfy | JsonValues | decoded JSON; Python truthiness, `dict.get`, `len`, `x[0]` |
| pytext.dfy | PyText | `str.isspace`, `str.strip`, `in`, `str.split`, `str.count`, `split("\n", 1)` |
| models.dfy | Models | the `Message` turn (app/models.py) |
| bedrock_request.dfy | BedrockRequest | the turn loop and the request body, with reference definitions and a decoder |
| bedrock_response.dfy | BedrockResponse | response-text and usage extraction |
| bedrock_service.dfy | BedrockService | `chat` and the dict it returns |
| code_blocks.dfy | CodeBlocks | triple-backtick segmentation |
| chat_history.dfy | ChatHistory | the history-append rule of the interface |

Three behaviours of the code that are easy to misread, which the model keeps as written:

- The system text is the content of the **last** `system` turn, because each one overwrites the previous. A last system turn whose content is empty also falls back to the default prompt, because the test is `if not system_content`.
- The extracted response is whatever `content[0]["text"]` holds, which need not be a string. The usage counters are also passed through as the reply holds them. Neither is checked to be a non-negative integer.
- In the interface, `"Unknown error"` replaces the error only when the reply has **no** `error` key (`resp.get('error', 'Unknown error')`). A key that is present and null prints as `None`. `ChatHistory.Field` keeps these three states apart.

## Model

| member | source | states |
|---|---|---|
| BedrockRequest.ScanFromComputes | app/services.py:40-49 | The loop over the turns gains exactly the user and assistant turns, wrapped and in their original order. The system text it captures is that of the last system turn, if there is one. |
| BedrockRequest.LastSystemIsLast | app/services.py:44-45 | The captured system text is the content of the system turn with the greatest index. There is none exactly when no turn has role "system". |
| BedrockRequest.LastSystemAppend | app/services.py:44-45 | A system turn later in the list hides every earlier one. |
| BedrockRequest.ConversationAppend | app/services.py:46-49 | The kept turns of a concatenation are the kept turns of each half, in order. |
| BedrockRequest.UnknownRoleIgnored | app/services.py:43-49 | Inserting a turn whose role is not system, user or assistant leaves the request body unchanged. |
| BedrockRequest.SystemOrDefault | app/services.py:51-53 | A missing or empty captured text gives the default prompt. Any other captured text is kept. The result is never empty. |
| BedrockRequest.RequestBody | app/services.py:55-61 | The body has exactly the keys schemaVersion, messages, system and inferenceConfig. schemaVersion is "messages-v1", system is a one-element list, and inferenceConfig carries temperature and max_new_tokens unchanged. |
| BedrockRequest.RequestBodyContents | app/services.py:39-61 | The body's messages are exactly the wrapped user and assistant turns. Its system block holds the effective system text. |
| BedrockRequest.RequestRoundTrip | app/services.py:39-61 | Decoding the body gives back the effective system text, the user and assistant turns in order, and the temperature and token limit. |
| BedrockRequest.SingleUserTurn | app/services.py:32-61 | One user turn with the default parameters gives the default prompt, that one turn, temperature 1.0 and 1000 new tokens. |
| BedrockResponse.ExtractResponseContent | app/services.py:88-100 | Returns the first content block's text. Returns "No response from model." when the content is missing, empty or has no text. Returns "Error extracting response." when a node on the path is not a dict or the content is not a list of dicts. |
| BedrockResponse.ExtractUsageInfo | app/services.py:102-115 | Returns usage exactly when the reply is a dict holding a non-empty usage dict; None otherwise, so it is never zero-filled. Each counter defaults to 0. |
| BedrockResponse.ReplyRoundTrip | app/services.py:88-115 | Reading a well-formed vendor reply gives back its text and its three counts. A reply without usage gives no usage. |
| BedrockService.Chat | app/services.py:32-86 | The call fails exactly when the model call fails, and carries that failure's text. Otherwise it carries the extracted text and usage of the reply. |
| BedrockService.EnvelopeJson | app/services.py:73-86 | The returned dict always has response, usage and success. It has an error key exactly on failure, and then response and usage are None. |
| BedrockService.EnvelopeRoundTrip | app/services.py:73-86 | The returned dict determines the result it was built from. |
| BedrockService.ChatRelaysReply | app/services.py:63-77 | With a model that answers a well-formed reply, the caller gets its text and counts back, whatever was sent. |
| PyText.StripShape | streamlit_app.py:23 | `strip()` leaves the slice between whitespace-only ends, and the result neither starts nor ends with whitespace. |
| PyText.StripEmptyIffBlank | streamlit_app.py:22-24 | `part.strip()` is falsy exactly when the part is whitespace only. |
| PyText.ContainsIffOccurs | streamlit_app.py:19 | `"```" in content` holds exactly when the fence occurs at some position. |
| PyText.Split | streamlit_app.py:20 | Joining the parts with the separator gives back the original text, and no part contains the separator. Every cut is at the leftmost occurrence: no occurrence starts inside a part and runs on into the separator after it. |
| PyText.SplitUnique | streamlit_app.py:20 | Those three properties fix the split: any list of parts that rejoins to the text, has no separator in a part and cuts leftmost is the split. |
| PyText.SplitCount | streamlit_app.py:20 | The split has `count(sep) + 1` parts. |
| PyText.SplitIsTrivialIffAbsent | streamlit_app.py:19-20 | The split cuts the text exactly when the separator occurs in it. |
| PyText.SplitFirst | streamlit_app.py:26-27 | `split("\n", 1)` gives two parts exactly when there is a newline. The first part has no newline, and the parts rejoined with it give back the text. |
| CodeBlocks.CodeSegment | streamlit_app.py:26-31 | A code part with a newline gives the stripped first line as its language and the rest after the first newline as its code. A part without a newline is all code, with no language. |
| CodeBlocks.Segments | streamlit_app.py:19-33 | A message without a fence is one text segment, unchanged and even if blank. In a fenced message no text segment is whitespace only. |
| CodeBlocks.RenderCodes | streamlit_app.py:21-31 | The code segments come from exactly the parts at odd positions, in order. |
| CodeBlocks.RenderTexts | streamlit_app.py:21-24 | The text segments come from exactly the non-blank parts at even positions, unchanged and in order. |
| CodeBlocks.SegmentsCodes | streamlit_app.py:19-33 | The code blocks of any message are its odd-position parts, in order. |
| CodeBlocks.CodeBlockCount | streamlit_app.py:20-31 | The number of code blocks is the number of odd indices among the `count("```") + 1` parts. |
| CodeBlocks.SegmentsTexts | streamlit_app.py:20-24 | The text segments of a fenced message are its non-blank even-position parts, unchanged and in order. |
| CodeBlocks.SegmentsInterleave | streamlit_app.py:19-33 | In a fenced message the segments follow the order of the parts they come from. There is a strictly increasing list of positions, one per segment, holding every odd position and every even position whose part is not blank. The segment at each position is the part as text when the position is even and its code block when it is odd. |
| CodeBlocks.SegmentsFenceFree | streamlit_app.py:20-31 | No displayed text or code contains the fence. |
| ChatHistory.AssistantContent | streamlit_app.py:51-83 | A successful reply with a non-empty response is recorded as that response. Any other reply is recorded as "Error: " plus the error, where an absent error reads "Unknown error". A timeout and a failed call are recorded with their fixed messages. |
| ChatHistory.Submit | streamlit_app.py:36-83 | Empty input leaves the history unchanged. Otherwise the old history is kept as a prefix, then comes the user turn, then exactly one assistant turn for what the post of the extended history returned. |
| ChatHistory.SubmitKeepsRoles | streamlit_app.py:39-83 | The history only ever holds user and assistant turns. |
| ChatHistory.PostedHistoryForwardedWhole | streamlit_app.py:39-49 | A history the interface built reaches the model whole and in order, with the default prompt, because it holds no system turn. |

## Left out

- Creating the boto3 client and choosing credentials (app/services.py:13-30), and configuration loading (app/config.py): SDK and environment set-up. The model id is a parameter of `Chat`.
- `invoke_model`, reading the response body and `json.loads` (app/services.py:64-71): remote I/O. They are one parameter, `Invoke`, which returns a decoded reply or the failure's text. `json.dumps` of the request is not modelled either: the request is a JSON value, not bytes.
- Logging (app/services.py:37, 79-81, 85, 99, 114): side effects only.
- FastAPI routing, the response model, CORS and lifespan hooks (app/api.py, main.py): HTTP glue. The interface's view of the reply is the typed `ChatHistory.Reply`.
- Streamlit rendering (`st.write`, `st.code`, `st.error`, `st.rerun`, the spinner), `requests.post` and its timeout (streamlit_app.py:42-49, 85-86): UI and network code. The post is a parameter whose outcome is a reply, a timeout or a failure text.
- The texts of Python's own exception messages: they are only ever replaced by a fallback, so the model writes its own.
- BedrockRequest.DefaultSystemPrompt: the prompt's wording (app/services.py:119-149) is not modelled. It is an unspecified text that is not empty, which is all the request logic depends on.
- The temperature is a float in the source. It is modelled as a `real` that is passed through unchanged and never computed on.
- Dict key order and JSON number formatting: objects are maps.
- Replies to the interface whose `response` is not a string or null: the server's response model admits only those.
