/** generate_response of local_qna_chatbot/src/rag/generator.py: the chat request built
    from the prompt and the context, and the sorting of the chat reply into an answer.
    The HTTP call (requests.post) is the parameter post. */
module Generator {
  import opened Outcomes
  import Text

  const ApiUrl := "http://localhost:11434/api/chat"
  const ModelName := "phi3"
  /** The temperature of generate_response when the caller gives none. */
  const DefaultTemperature: real := 0.1

  const SystemInstruction :=
    "You are a helpful assistant. Read the following context and answer the user's question directly and concisely. "
    + "Do not start with 'The context provided...' or similar phrases. Just state the answer based on the context. "
    + "Generate only 2-3 lines unless the user asked to explain it in detail."

  const EmptyOutputMessage := "I couldn't generate a response (empty output)."
  const UnexpectedFormatMessage := "Unexpected response format from Ollama."
  const ErrorPrefix := "I'm sorry, I encountered an error while generating a response: "

  /** One chat message {"role": role, "content": content}. */
  datatype Message = Message(role: string, content: string)

  /** The JSON body posted to the chat endpoint. */
  datatype ChatRequest = ChatRequest(url: string, model: string, messages: seq<Message>, stream: bool, temperature: real)

  /** What the chat call and the reading of its reply give back: Raised for any exception
      inside the try block of generate_response (connection error, HTTP error status,
      invalid JSON, and also a lookup or .strip() that raises on a malformed body, such as
      a non-dict "message" or a null or non-string "content"), or a JSON body without
      "message", with a "message" lacking "content", or with a string message.content. */
  datatype ChatReply = Raised(reason: string) | NoMessage | NoContent | Content(text: string)

  /** The user turn: the context passages separated by blank lines ahead of the question,
      or the bare prompt when the context is None or empty. */
  function UserContent(prompt: string, context: Option<seq<string>>): (u: string)
    ensures context.None? || context.value == [] ==> u == prompt
    ensures |prompt| <= |u| && u[|u| - |prompt|..] == prompt
    ensures context.Some? && context.value != [] ==>
      var tail := "\n\nQuestion: " + prompt;
      9 + |tail| <= |u| && u[..9] == "Context:\n" && u[|u| - |tail|..] == tail
  {
    if context.Some? && context.value != [] then
      "Context:\n" + Text.Join("\n\n", context.value) + "\n\nQuestion: " + prompt
    else prompt
  }

  function Messages(prompt: string, context: Option<seq<string>>): seq<Message> {
    [Message("system", SystemInstruction), Message("user", UserContent(prompt, context))]
  }

  function Request(prompt: string, context: Option<seq<string>>, temperature: real): ChatRequest {
    ChatRequest(ApiUrl, ModelName, Messages(prompt, context), false, temperature)
  }

  /** The answer for a reply: never an exception, always a non-empty string to display;
      for non-blank content it is stripped. */
  function Interpret(reply: ChatReply): (answer: string)
    ensures answer != []
    ensures reply.Content? && !Text.AllSpace(reply.text) ==>
      !Text.IsSpace(answer[0]) && !Text.IsSpace(answer[|answer| - 1])
    ensures !reply.Content? ==>
      answer == UnexpectedFormatMessage || (|ErrorPrefix| <= |answer| && answer[..|ErrorPrefix|] == ErrorPrefix)
  {
    match reply
    case Raised(reason) => ErrorPrefix + reason
    case NoMessage => UnexpectedFormatMessage
    case NoContent => UnexpectedFormatMessage
    case Content(text) =>
      var answer := Text.Strip(text);
      if answer != [] then answer else EmptyOutputMessage
  }

  /** generate_response(prompt, context, temperature): one chat call, its reply interpreted. */
  function GenerateResponse(prompt: string, context: Option<seq<string>> := None,
                            temperature: real := DefaultTemperature,
                            post: ChatRequest -> ChatReply): (answer: string)
    ensures answer != []
  {
    Interpret(post(Request(prompt, context, temperature)))
  }

  // ---------------------------------------------------------------------------
  // Lemmas
  // ---------------------------------------------------------------------------

  /** The request is one non-streaming call to the chat endpoint with the given temperature,
      carrying exactly two messages: the fixed system instruction, then the user turn. */
  lemma RequestShape(prompt: string, context: Option<seq<string>>, temperature: real)
    ensures var req := Request(prompt, context, temperature);
      && req.url == ApiUrl && req.model == ModelName && !req.stream && req.temperature == temperature
      && |req.messages| == 2
      && req.messages[0] == Message("system", SystemInstruction)
      && req.messages[1].role == "user" && req.messages[1].content == UserContent(prompt, context)
  {
  }

  /** Every context passage reaches the model verbatim, after the "Context:" header. */
  lemma PassagesInUserContent(prompt: string, context: seq<string>, k: nat)
    requires k < |context|
    ensures var u := UserContent(prompt, Some(context));
      u[..9] == "Context:\n" && exists at :: 9 <= at && Text.OccursAt(context[k], u, at)
  {
    var joined := Text.Join("\n\n", context);
    var u := UserContent(prompt, Some(context));
    Text.JoinContainsParts("\n\n", context, k);
    var at :| Text.OccursAt(context[k], joined, at);
    assert u == "Context:\n" + joined + ("\n\nQuestion: " + prompt);
    assert u[9..9 + |joined|] == joined;
    assert u[9 + at..9 + at + |context[k]|] == joined[at..at + |context[k]|];
    assert Text.OccursAt(context[k], u, 9 + at);
  }

  /** A reply with non-blank content gives that content stripped, which strip() then leaves
      alone; a blank content gives the empty-output message. */
  lemma ContentReply(text: string)
    ensures !Text.AllSpace(text) ==>
      var a := Interpret(Content(text));
      a == Text.Strip(text) && Text.Strip(a) == a && !Text.IsSpace(a[0]) && !Text.IsSpace(a[|a| - 1])
    ensures Text.AllSpace(text) ==> Interpret(Content(text)) == EmptyOutputMessage
  {
    var s := Text.Strip(text);
    assert Interpret(Content(text)) == if s != [] then s else EmptyOutputMessage;
    Text.StripIdempotent(text);
  }

  /** A reply without message.content gives the unexpected-format message; an exception
      gives the error prefix followed by the exception's text. */
  lemma OtherReplies(reason: string)
    ensures Interpret(NoMessage) == UnexpectedFormatMessage && Interpret(NoContent) == UnexpectedFormatMessage
    ensures var a := Interpret(Raised(reason));
      |ErrorPrefix| <= |a| && a[..|ErrorPrefix|] == ErrorPrefix && a[|ErrorPrefix|..] == reason
  {
  }
}
