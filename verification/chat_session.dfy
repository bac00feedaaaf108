/** The chat window's transcript (`ChatContainer` in
    src/components/ChatContainer.tsx): an ordered list of messages, the
    text box, and a loading flag. Sending is split into its two halves: the
    send step, which runs synchronously when the user presses Enter or the
    button, and the reply step, which runs when the backend's answer (or
    error) arrives. The backend's answer is an input to the reply step. */
module ChatSession {
  import opened Wrappers
  import opened Text
  import SessionIdentity

  datatype Role = User | Ai

  datatype Message = Message(role: Role, content: string)

  datatype ChatState = ChatState(messages: seq<Message>, input: string, isLoading: bool)

  const Greeting := "Hello! I'm your AI Recruiter Assistant. How can I help you find the perfect candidate today?"
  const Apology := "Sorry, I encountered an error processing your request. Please try again."

  /** The question sent to the backend and the session it is asked in. */
  datatype ChatRequest = ChatRequest(question: string, sessionId: string)

  /** What the backend's chat call produced. */
  datatype ChatReply = Answered(response: string) | ChatFailed

  /** The state after the send step, the session environment after the
      session id was looked up, and the request issued, if any. */
  datatype Sent = Sent(state: ChatState, env: SessionIdentity.Env, request: Option<ChatRequest>)

  /** The component's state when it is first rendered. */
  function InitialState(): ChatState {
    ChatState([Message(Ai, Greeting)], "", false)
  }

  /** The text box's change handler. */
  function Typed(s: ChatState, text: string): ChatState {
    s.(input := text)
  }

  /** The synchronous half of `handleSend`: nothing happens while a reply is
      pending or when the text box holds only white space; otherwise the
      trimmed text becomes a user message and the question, the text box is
      cleared, loading starts, and the session id is looked up. */
  function Send(s: ChatState, env: SessionIdentity.Env, freshId: string): (r: Sent)
    ensures r.request.None? <==> s.isLoading || AllWhiteSpace(s.input)
    ensures r.request.None? ==> r.state == s && r.env == env
    ensures r.request.Some? ==>
      var q := r.request.value.question;
      var lookup := SessionIdentity.GetOrCreateSessionId(env, freshId);
      && q == Trim(s.input)
      && q != [] && IsTrimmed(q)
      && IsInfix(q, s.input)
      && r.state == ChatState(s.messages + [Message(User, q)], "", true)
      && r.request.value.sessionId == lookup.id
      && r.env == SessionIdentity.Env(env.hasWindow, lookup.store)
  {
    var question := Trim(s.input);
    assert question == "" <==> AllWhiteSpace(s.input) by {
      TrimEmptyIff(s.input);
    }
    if question == "" || s.isLoading then Sent(s, env, None)
    else
      var lookup := SessionIdentity.GetOrCreateSessionId(env, freshId);
      Sent(ChatState(s.messages + [Message(User, question)], "", true),
           SessionIdentity.Env(env.hasWindow, lookup.store),
           Some(ChatRequest(question, lookup.id)))
  }

  /** The text of the AI message a reply produces. */
  function ReplyText(reply: ChatReply): string {
    match reply
    case Answered(response) => response
    case ChatFailed => Apology
  }

  /** The asynchronous half of `handleSend`: the answer, or the fixed
      apology when the call failed, is appended as an AI message, and
      loading stops either way. */
  function Reply(s: ChatState, reply: ChatReply): (r: ChatState)
    ensures !r.isLoading && r.input == s.input
    ensures s.messages <= r.messages && |r.messages| == |s.messages| + 1
    ensures r.messages[|s.messages|] == Message(Ai, ReplyText(reply))
  {
    ChatState(s.messages + [Message(Ai, ReplyText(reply))], s.input, false)
  }

  // ---------------------------------------------------------------- runs

  /** Everything that can happen to the component. */
  datatype Event = Edit(text: string) | Submit(freshId: string) | Resolve(reply: ChatReply)

  datatype Screen = Screen(chat: ChatState, env: SessionIdentity.Env)

  function Apply(sc: Screen, ev: Event): Screen {
    match ev
    case Edit(text) => Screen(Typed(sc.chat, text), sc.env)
    case Submit(freshId) =>
      var sent := Send(sc.chat, sc.env, freshId);
      Screen(sent.state, sent.env)
    case Resolve(reply) => Screen(Reply(sc.chat, reply), sc.env)
  }

  /** A reply only arrives for a request that is still pending. */
  predicate Allowed(sc: Screen, ev: Event) {
    ev.Resolve? ==> sc.chat.isLoading
  }

  predicate ValidRun(sc: Screen, evs: seq<Event>)
    decreases |evs|
  {
    |evs| == 0 || (Allowed(sc, evs[0]) && ValidRun(Apply(sc, evs[0]), evs[1..]))
  }

  function Run(sc: Screen, evs: seq<Event>): Screen
    decreases |evs|
  {
    if |evs| == 0 then sc else Run(Apply(sc, evs[0]), evs[1..])
  }

  // ---------------------------------------------------------------- invariant

  /** The shape of every transcript the component can show: the greeting
      first, then user and AI messages alternating, each user message
      non-empty and free of surrounding white space, and the loading flag
      set exactly when the last message is a user message awaiting its
      reply. */
  ghost predicate WellFormed(s: ChatState) {
    && |s.messages| >= 1
    && s.messages[0] == Message(Ai, Greeting)
    && (forall i :: 0 <= i < |s.messages| - 1 ==> s.messages[i].role != s.messages[i + 1].role)
    && (forall i :: 0 <= i < |s.messages| && s.messages[i].role == User ==>
          s.messages[i].content != [] && IsTrimmed(s.messages[i].content))
    && (s.isLoading <==> s.messages[|s.messages| - 1].role == User)
  }

  /** The transcript starts as exactly the greeting, not loading. */
  lemma InitialWellFormed()
    ensures WellFormed(InitialState())
    ensures InitialState().messages == [Message(Ai, Greeting)] && !InitialState().isLoading
  {
  }

  /** Appending a message of the other role than the last one keeps the
      transcript well formed, provided a user message is non-empty and
      trimmed and loading is on exactly when the new last message is the
      user's. */
  lemma AppendPreserves(s: ChatState, msg: Message, input: string, loading: bool)
    requires WellFormed(s)
    requires msg.role != s.messages[|s.messages| - 1].role
    requires msg.role == User ==> msg.content != [] && IsTrimmed(msg.content)
    requires loading <==> msg.role == User
    ensures WellFormed(ChatState(s.messages + [msg], input, loading))
  {
    var m, m' := s.messages, s.messages + [msg];
    forall i | 0 <= i < |m'|
      ensures m'[i].role == User ==> m'[i].content != [] && IsTrimmed(m'[i].content)
      ensures i < |m'| - 1 ==> m'[i].role != m'[i + 1].role
    {
      if i < |m| { assert m'[i] == m[i]; }
      if i + 1 < |m| { assert m'[i + 1] == m[i + 1]; }
    }
  }

  /** An accepted send appends a user message after an AI one and starts
      loading; a rejected one changes nothing. */
  lemma SendPreserves(s: ChatState, env: SessionIdentity.Env, freshId: string)
    requires WellFormed(s)
    ensures WellFormed(Send(s, env, freshId).state)
  {
    var sent := Send(s, env, freshId);
    if sent.request.Some? {
      AppendPreserves(s, Message(User, sent.request.value.question), "", true);
    }
  }

  /** A reply to a pending request appends an AI message after the user's
      and stops loading. */
  lemma ReplyPreserves(s: ChatState, reply: ChatReply)
    requires WellFormed(s) && s.isLoading
    ensures WellFormed(Reply(s, reply))
  {
    AppendPreserves(s, Message(Ai, ReplyText(reply)), s.input, false);
  }

  /** Every allowed event keeps the transcript well formed and only ever
      appends to it. */
  lemma ApplyPreserves(sc: Screen, ev: Event)
    requires WellFormed(sc.chat) && Allowed(sc, ev)
    ensures WellFormed(Apply(sc, ev).chat)
    ensures sc.chat.messages <= Apply(sc, ev).chat.messages
  {
    match ev
    case Edit(_) =>
    case Submit(freshId) => SendPreserves(sc.chat, sc.env, freshId);
    case Resolve(reply) => ReplyPreserves(sc.chat, reply);
  }

  /** Over any run of allowed events the transcript stays well formed and
      is append-only: no message is ever changed or removed. */
  lemma {:induction false} RunPreserves(sc: Screen, evs: seq<Event>)
    requires WellFormed(sc.chat) && ValidRun(sc, evs)
    ensures WellFormed(Run(sc, evs).chat)
    ensures sc.chat.messages <= Run(sc, evs).chat.messages
    decreases |evs|
  {
    if |evs| > 0 {
      ApplyPreserves(sc, evs[0]);
      RunPreserves(Apply(sc, evs[0]), evs[1..]);
    }
  }

  /** An accepted send followed by its reply grows the transcript by
      exactly two messages: the user's trimmed question, then the answer
      or the apology; loading is over and the text box is empty. */
  lemma SendThenReply(s: ChatState, env: SessionIdentity.Env, freshId: string, reply: ChatReply)
    requires !s.isLoading && !AllWhiteSpace(s.input)
    ensures var sent := Send(s, env, freshId);
            var after := Reply(sent.state, reply);
            && sent.request.Some?
            && after.messages == s.messages + [Message(User, Trim(s.input)), Message(Ai, ReplyText(reply))]
            && after.input == "" && !after.isLoading
  {
    var sent := Send(s, env, freshId);
    assert sent.request.value.question == Trim(s.input) by {
      TrimEmptyIff(s.input);
    }
    var m := s.messages + [Message(User, Trim(s.input))];
    assert sent.state.messages == m;
    assert m + [Message(Ai, ReplyText(reply))]
        == s.messages + [Message(User, Trim(s.input)), Message(Ai, ReplyText(reply))];
  }

  /** While a reply is pending, sending does nothing at all. */
  lemma NoSendWhileLoading(s: ChatState, env: SessionIdentity.Env, freshId: string)
    requires s.isLoading
    ensures Send(s, env, freshId) == Sent(s, env, None)
  {
  }

  /** A failed chat call leaves the user's question in the transcript,
      followed by the apology. */
  lemma FailureKeepsQuestion(s: ChatState, env: SessionIdentity.Env, freshId: string)
    requires !s.isLoading && !AllWhiteSpace(s.input)
    ensures var after := Reply(Send(s, env, freshId).state, ChatFailed);
            after.messages[|s.messages|..] == [Message(User, Trim(s.input)), Message(Ai, Apology)]
  {
    SendThenReply(s, env, freshId, ChatFailed);
  }
}
