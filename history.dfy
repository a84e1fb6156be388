/** Building the history the chat handler sends upstream: the caller's
    conversation, copied, with the tutoring system prompt put in front when no
    message of the conversation already has role "system". */
module History {
  import opened JsString
  import opened Wrappers

  datatype Message = Message(role: JsStr, content: JsStr)

  type Conversation = seq<Message>

  /** The tutoring persona prompt. Its text is not part of this model: it is
      an arbitrary, fixed code-unit sequence. */
  const SystemPrompt: JsStr

  /** The prompt is cut to this many code units before it is sent. */
  const PromptBudget: nat := 1500

  function SystemRole(): JsStr {
    Units("system")
  }

  /** The message prepended when the conversation has no system message. */
  function SystemMessage(): (m: Message)
    ensures m.role == SystemRole()
    ensures |m.content| == Min(PromptBudget, |SystemPrompt|) && m.content <= SystemPrompt
  {
    Message(SystemRole(), Prefix(SystemPrompt, PromptBudget))
  }

  predicate HasSystem(h: Conversation) {
    exists i :: 0 <= i < |h| && h[i].role == SystemRole()
  }

  /** Number of messages with role "system". */
  function SystemCount(h: Conversation): nat {
    if h == [] then 0 else (if h[0].role == SystemRole() then 1 else 0) + SystemCount(h[1..])
  }

  /** The history that goes upstream for a given conversation: at most one
      message is added, and every message of the conversation follows, in
      order. */
  function Injected(h: Conversation): (r: Conversation)
    ensures |r| == |h| + (if HasSystem(h) then 0 else 1)
    ensures r[|r| - |h|..] == h
  {
    if HasSystem(h) then h else [SystemMessage()] + h
  }

  /** The handler's view of the request field: `Some(c)` when
      `Array.isArray(conversation)` holds, `None` for anything else (missing,
      `null`, an object, a string). */
  function HistoryFor(conversation: Option<Conversation>): Conversation {
    Injected(if conversation.Some? then conversation.value else [])
  }

  // ---------------------------------------------------------------------
  // The imperative code

  /** `history.some(m => m.role === 'system')`. */
  method AnySystem(history: seq<Message>) returns (found: bool)
    ensures found <==> HasSystem(history)
  {
    found := false;
    var i := 0;
    while i < |history|
      invariant 0 <= i <= |history|
      invariant forall j :: 0 <= j < i ==> history[j].role != SystemRole()
    {
      if history[i].role == SystemRole() {
        found := true;
        return;
      }
      i := i + 1;
    }
  }

  /** `[...conversation]`: a fresh list holding the caller's messages in
      order. */
  method CopyConversation(conversation: array<Message>) returns (copy: seq<Message>)
    ensures copy == conversation[..]
  {
    copy := [];
    var i := 0;
    while i < conversation.Length
      invariant 0 <= i <= conversation.Length
      invariant copy == conversation[..i]
    {
      copy := copy + [conversation[i]];
      i := i + 1;
    }
  }

  /** Lines 63 to 71 of the handler: copy the caller's array (`null` stands for
      a value that is not an array), then `unshift` the system message onto the
      copy when none is present. The caller's array is only read. */
  method BuildHistory(conversation: array?<Message>) returns (history: seq<Message>)
    ensures history == HistoryFor(if conversation == null then None else Some(conversation[..]))
    ensures conversation != null ==> conversation[..] == old(conversation[..])
  {
    history := [];
    if conversation != null {
      history := CopyConversation(conversation);
    }
    var present := AnySystem(history);
    if !present {
      history := [SystemMessage()] + history;
    }
  }

  // ---------------------------------------------------------------------
  // Properties of injection

  /** A conversation that already has a system message goes upstream as it
      is; one that has none gets exactly the truncated prompt in front, and
      every original message follows in its original order. */
  lemma InjectedShape(h: Conversation)
    ensures HasSystem(h) ==> Injected(h) == h
    ensures !HasSystem(h) ==>
      |Injected(h)| == |h| + 1 && Injected(h)[0] == SystemMessage() && Injected(h)[1..] == h
  {
  }

  /** Whatever the caller sent, the history sent upstream has a system
      message. */
  lemma InjectedHasSystem(h: Conversation)
    ensures HasSystem(Injected(h))
  {
    if !HasSystem(h) {
      assert Injected(h)[0].role == SystemRole();
    }
  }

  /** Injecting twice is injecting once. */
  lemma InjectIdempotent(h: Conversation)
    ensures Injected(Injected(h)) == Injected(h)
  {
    InjectedHasSystem(h);
  }

  lemma {:induction false} SystemCountZero(h: Conversation)
    ensures SystemCount(h) == 0 <==> !HasSystem(h)
  {
    if h != [] {
      SystemCountZero(h[1..]);
      if HasSystem(h[1..]) {
        var i :| 0 <= i < |h[1..]| && h[1..][i].role == SystemRole();
        assert h[i + 1].role == SystemRole();
      }
      if HasSystem(h) && h[0].role != SystemRole() {
        var i :| 0 <= i < |h| && h[i].role == SystemRole();
        assert h[1..][i - 1].role == SystemRole();
      }
    }
  }

  /** The handler adds a system message only to a conversation that has none,
      so a conversation without one goes upstream with exactly one, and the
      number of system messages never grows otherwise. */
  lemma InjectedSystemCount(h: Conversation)
    ensures SystemCount(Injected(h)) == if HasSystem(h) then SystemCount(h) else 1
  {
    SystemCountZero(h);
    if !HasSystem(h) {
      assert ([SystemMessage()] + h)[1..] == h;
    }
  }

  /** What the handler sends upstream always holds a system message and ends
      with the caller's conversation, in order, with at most one message
      before it; a value that is not an array gives the system message
      alone. */
  lemma HistoryForShape(conversation: Option<Conversation>)
    ensures HasSystem(HistoryFor(conversation))
    ensures conversation.Some? ==>
      var r := HistoryFor(conversation);
      |conversation.value| <= |r| <= |conversation.value| + 1 && r[|r| - |conversation.value|..] == conversation.value
    ensures conversation.None? ==> HistoryFor(conversation) == [SystemMessage()]
  {
    InjectedHasSystem(if conversation.Some? then conversation.value else []);
    NonArrayConversation();
  }

  /** A value that is not an array yields a history holding the system
      message only. */
  lemma NonArrayConversation()
    ensures HistoryFor(None) == [SystemMessage()]
  {
    assert !HasSystem([]);
  }
}
