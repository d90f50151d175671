/**
 * The prompt side of `generate_answer` in src/app.py: the branch taken when no
 * Groq client is configured, and the request (model, two role-tagged
 * messages, temperature) built otherwise. The completion call itself and the
 * handling of its response are not part of this model; a `Request` reply is
 * the call that would be made.
 */
module Generation {
  import opened Wrappers

  /** A configured Groq client, holding the API key it was built with. */
  datatype Client = Client(apiKey: string)

  datatype Role = System | User

  datatype Message = Message(role: Role, content: string)

  datatype ChatRequest = ChatRequest(model: string, messages: seq<Message>, temperature: real)

  /**
   * What `generate_answer` yields: the fixed unavailable-state text (paired
   * with `None` in the source, no model called), or the request to send.
   */
  datatype Reply = MissingKey(text: string) | Request(request: ChatRequest)

  const MissingKeyText: string := "❌ GROQ_API_KEY manquante dans src/.env"

  const Instructions: string :=
    "Tu es un assistant d'analyse de dialogues téléphoniques (hôtesse/client). " +
    "Tu dois répondre UNIQUEMENT en te basant sur le CONTEXTE fourni. " +
    "Si l'information n'est pas dans le contexte, dis-le clairement."

  const ContextHeading: string := "CONTEXTE:\n"

  const QuestionHeading: string := "\n\nQUESTION:\n"

  const Directions: string :=
    "\n\nCONSIGNE:\n" +
    "- Réponds en français.\n" +
    "- Donne une réponse structurée (points/étapes si possible).\n" +
    "- Termine par une mini-section: \"Sources utilisées\" (liste des fichiers/id)."

  const Temperature: real := 0.2

  /** `load_groq_client()`: no client when the key is unset or empty. */
  function LoadGroqClient(apiKey: Option<string>): (client: Option<Client>)
    ensures client.Some? <==> apiKey.Some? && apiKey.value != ""
    ensures client.Some? ==> client.value.apiKey == apiKey.value
  {
    if apiKey.None? || apiKey.value == "" then None else Some(Client(apiKey.value))
  }

  /** The user turn: the context, then the question, inside the fixed template. */
  function UserMessage(context: string, question: string): (msg: string)
    ensures |msg| == |ContextHeading| + |context| + |QuestionHeading| + |question| + |Directions|
  {
    ContextHeading + context + QuestionHeading + question + Directions
  }

  /**
   * `generate_answer(question, context)` up to the completion call: without a
   * client, the fixed unavailable text whatever the question and context;
   * with one, a request at temperature 0.2 holding the system instructions
   * followed by the user turn.
   */
  function GenerateAnswer(question: string, context: string, client: Option<Client>, model: string): (r: Reply)
    ensures r.MissingKey? <==> client.None?
    ensures r.MissingKey? ==> r.text == MissingKeyText
    ensures r.Request? ==>
              && r.request.model == model
              && r.request.temperature == Temperature
              && |r.request.messages| == 2
              && r.request.messages[0] == Message(System, Instructions)
              && r.request.messages[1] == Message(User, UserMessage(context, question))
  {
    match client
    case None => MissingKey(MissingKeyText)
    case Some(_) =>
      Request(ChatRequest(model, [Message(System, Instructions), Message(User, UserMessage(context, question))], Temperature))
  }

  /** Without a client the reply depends on nothing the caller passes. */
  lemma MissingKeyIgnoresInputs(q1: string, c1: string, m1: string, q2: string, c2: string, m2: string)
    ensures GenerateAnswer(q1, c1, None, m1) == GenerateAnswer(q2, c2, None, m2)
  {
  }

  /**
   * The user turn places the context verbatim right after `CONTEXTE:` and its
   * newline, then the question heading, then the question verbatim, then the
   * fixed directions that end the message.
   */
  lemma UserMessageLayout(context: string, question: string)
    ensures var msg := UserMessage(context, question);
            var q := |ContextHeading| + |context| + |QuestionHeading|;
            && |msg| == q + |question| + |Directions|
            && msg[..|ContextHeading|] == ContextHeading
            && msg[|ContextHeading|..|ContextHeading| + |context|] == context
            && msg[|ContextHeading| + |context|..q] == QuestionHeading
            && msg[q..q + |question|] == question
            && msg[q + |question|..] == Directions
  {
    var msg := UserMessage(context, question);
    var a := ContextHeading + context;
    var b := a + QuestionHeading;
    var c := b + question;
    assert msg == c + Directions;
    assert msg[..|c|] == c;
    assert c[..|b|] == b;
    assert b[..|a|] == a;
    assert msg[..|ContextHeading|] == a[..|ContextHeading|];
    assert msg[|ContextHeading|..|a|] == a[|ContextHeading|..];
    assert msg[|a|..|b|] == b[|a|..];
    assert msg[|b|..|c|] == c[|b|..];
  }

  /**
   * Given the length of the context, the user turn determines both the
   * context and the question.
   */
  lemma UserMessageDetermines(c1: string, q1: string, c2: string, q2: string)
    requires |c1| == |c2|
    requires UserMessage(c1, q1) == UserMessage(c2, q2)
    ensures c1 == c2 && q1 == q2
  {
    UserMessageLayout(c1, q1);
    UserMessageLayout(c2, q2);
  }
}
