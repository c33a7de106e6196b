/** The message shape shared by the HTTP API and the chat interface
    (`Message` in app/models.py). */
module Models {

  /** One chat turn: a role such as "system", "user" or "assistant", and its text. */
  datatype Message = Message(role: string, content: string)
}
