/** The per-chat conversation history of the bot as a pure state machine: the
    `history` entry of every chat's `chat_data`, what a text message does to it
    (bot.py:28-52), what `/clear` does to it (bot.py:55-57), and the
    `restricted` guard in front of both (bot.py:16-25). */
module Conversation {
  import opened Wrappers
  import Access

  type ChatId = int

  datatype Role = System | User | Assistant

  /** One `{"role": ..., "content": ...}` entry of a chat history. */
  datatype Msg = Msg(role: Role, content: string)

  /** The content of the system entry every new history starts with (bot.py:32). */
  const SystemPrompt: string := "You are a helpful assistant."

  /** The text `/clear` replies with (bot.py:57). */
  const ClearedNotice: string := "Chat history cleared."

  /** What the completion backend does with a message list: it answers with
      the content of its first choice, or the call raises. */
  datatype Completion = Reply(content: string) | Failed

  /** The stored histories: a chat is a key exactly when its `chat_data`
      holds a `'history'` entry. */
  type Histories = map<ChatId, seq<Msg>>

  /** The result of one handler: the histories afterwards and the text sent
      back to the user, if any. */
  datatype Outcome = Outcome(histories: Histories, sent: Option<string>)

  /** The one-element history a chat without a stored history starts from (bot.py:31-33). */
  function DefaultHistory(): (msgs: seq<Msg>)
  {
    [Msg(System, SystemPrompt)]
  }

  /** `context.chat_data.get('history', blank_chat_history)` (bot.py:36). */
  function HistoryOrDefault(h: Histories, chat: ChatId): (msgs: seq<Msg>)
  {
    if chat in h then h[chat] else DefaultHistory()
  }

  /** Every chat other than `chat` has the same history, or none, in both maps. */
  ghost predicate SameExcept(before: Histories, after: Histories, chat: ChatId)
  {
    forall c :: c != chat ==>
      (c in before <==> c in after) && (c in before ==> after[c] == before[c])
  }

  /** The message list the backend is asked to complete: the stored (or
      default) history with the user's turn appended (bot.py:36-43). */
  function Request(h: Histories, chat: ChatId, input: string): (asked: seq<Msg>)
  {
    HistoryOrDefault(h, chat) + [Msg(User, input)]
  }

  /** The body of the `message` handler (bot.py:28-52). The list the user turn
      is appended to IS the stored list when there is one, so when the backend
      call raises, that stored history keeps the user turn; a chat without a
      history stores nothing then. */
  function MessageStep(h: Histories, chat: ChatId, input: string, complete: seq<Msg> -> Completion): (r: Outcome)
    ensures SameExcept(h, r.histories, chat)
    ensures r.sent.Some? <==> complete(Request(h, chat, input)).Reply?
    // on an answer: all earlier entries kept, then exactly the user turn and the assistant turn
    ensures r.sent.Some? ==>
      var before := HistoryOrDefault(h, chat);
      chat in r.histories && |r.histories[chat]| == |before| + 2 &&
      r.histories[chat][..|before|] == before &&
      r.histories[chat][|before|] == Msg(User, input) &&
      r.histories[chat][|before| + 1] == Msg(Assistant, r.sent.value)
    // the text sent back is the content of the backend's reply
    ensures r.sent.Some? ==> r.sent.value == complete(Request(h, chat, input)).content
    // on a failure: only a stored history changes, by the user turn alone
    ensures r.sent == None ==>
      (chat in h ==> chat in r.histories && r.histories[chat] == h[chat] + [Msg(User, input)]) &&
      (chat !in h ==> r.histories == h)
  {
    var asked := Request(h, chat, input);
    match complete(asked)
    case Reply(text) => Outcome(h[chat := asked + [Msg(Assistant, text)]], Some(text))
    case Failed => Outcome(if chat in h then h[chat := asked] else h, None)
  }

  /** The body of the `clear` handler (bot.py:55-57): the chat's history entry
      becomes the empty list — the key stays. */
  function ClearStep(h: Histories, chat: ChatId): (r: Outcome)
    ensures chat in r.histories && r.histories[chat] == []
    ensures SameExcept(h, r.histories, chat)
    ensures r.sent == Some(ClearedNotice)
  {
    Outcome(h[chat := []], Some(ClearedNotice))
  }

  /** An update the bot handles: a text message or the `/clear` command, each
      from a user in a chat. */
  datatype Event =
    | TextMessage(sender: int, chat: ChatId, text: string)
    | ClearCommand(sender: int, chat: ChatId)

  /** A handler behind the `restricted` guard (bot.py:16-25): a denied update
      returns before the handler body runs. */
  function Handle(allow: seq<string>, h: Histories, ev: Event, complete: seq<Msg> -> Completion): (r: Outcome)
    ensures !Access.Authorized(allow, ev.sender) ==> r == Outcome(h, None)
    ensures SameExcept(h, r.histories, ev.chat)
    ensures h.Keys <= r.histories.Keys
  {
    if !Access.Authorized(allow, ev.sender) then Outcome(h, None)
    else match ev
      case TextMessage(_, chat, text) => MessageStep(h, chat, text, complete)
      case ClearCommand(_, chat) => ClearStep(h, chat)
  }

  /** The result of handling several updates: the final histories and every
      text sent back, in order. */
  datatype Trace = Trace(histories: Histories, sent: seq<string>)

  /** Updates handled one after another, as the polling loop delivers them. */
  function Run(allow: seq<string>, h: Histories, evs: seq<Event>, complete: seq<Msg> -> Completion): (r: Trace)
    // at most one reply per update, and no chat ever loses its history key
    ensures |r.sent| <= |evs|
    ensures h.Keys <= r.histories.Keys
    decreases |evs|
  {
    if evs == [] then Trace(h, [])
    else
      var first := Handle(allow, h, evs[0], complete);
      var rest := Run(allow, first.histories, evs[1..], complete);
      Trace(rest.histories, (if first.sent.Some? then [first.sent.value] else []) + rest.sent)
  }

  // ---------------------------------------------------------------------------
  // Single steps
  // ---------------------------------------------------------------------------

  /** An admitted update reaches the wrapped handler (bot.py:24). */
  lemma AdmittedReachesHandler(allow: seq<string>, h: Histories, ev: Event, complete: seq<Msg> -> Completion)
    requires Access.Authorized(allow, ev.sender)
    ensures ev.TextMessage? ==> Handle(allow, h, ev, complete) == MessageStep(h, ev.chat, ev.text, complete)
    ensures ev.ClearCommand? ==> Handle(allow, h, ev, complete) == ClearStep(h, ev.chat)
  {
  }

  /** A first message in a chat stores the system entry, the user turn and the
      assistant turn. */
  lemma FirstMessage(h: Histories, chat: ChatId, input: string, complete: seq<Msg> -> Completion)
    requires chat !in h
    requires complete([Msg(System, SystemPrompt), Msg(User, input)]).Reply?
    ensures var text := complete([Msg(System, SystemPrompt), Msg(User, input)]).content;
      MessageStep(h, chat, input, complete) ==
      Outcome(h[chat := [Msg(System, SystemPrompt), Msg(User, input), Msg(Assistant, text)]], Some(text))
  {
    var asked := [Msg(System, SystemPrompt), Msg(User, input)];
    assert Request(h, chat, input) == asked;
    var text := complete(asked).content;
    assert asked + [Msg(Assistant, text)] == [Msg(System, SystemPrompt), Msg(User, input), Msg(Assistant, text)];
  }

  /** After `/clear` the history key exists and holds `[]`, so the next message
      stores only the user and the assistant turn: the system entry is not put
      back. */
  lemma ClearThenMessage(h: Histories, chat: ChatId, input: string, complete: seq<Msg> -> Completion)
    requires complete([Msg(User, input)]).Reply?
    ensures var cleared := ClearStep(h, chat).histories;
      var text := complete([Msg(User, input)]).content;
      MessageStep(cleared, chat, input, complete).histories[chat] == [Msg(User, input), Msg(Assistant, text)]
  {
    assert Request(ClearStep(h, chat).histories, chat, input) == [Msg(User, input)];
  }

  /** Clearing twice is clearing once. */
  lemma ClearIdempotent(h: Histories, chat: ChatId)
    ensures ClearStep(ClearStep(h, chat).histories, chat) == ClearStep(h, chat)
  {
  }

  /** Updates in two different chats do not interfere: handling them in
      either order gives the same histories and the same two replies. */
  lemma DifferentChatsCommute(allow: seq<string>, h: Histories, e1: Event, e2: Event, complete: seq<Msg> -> Completion)
    requires e1.chat != e2.chat
    ensures Handle(allow, Handle(allow, h, e1, complete).histories, e2, complete).histories ==
            Handle(allow, Handle(allow, h, e2, complete).histories, e1, complete).histories
    ensures Handle(allow, Handle(allow, h, e1, complete).histories, e2, complete).sent ==
            Handle(allow, h, e2, complete).sent
    ensures Handle(allow, Handle(allow, h, e2, complete).histories, e1, complete).sent ==
            Handle(allow, h, e1, complete).sent
    // what holds for any backend: handling one update does not change the request of the other
    ensures e2.TextMessage? ==>
      Request(Handle(allow, h, e1, complete).histories, e2.chat, e2.text) == Request(h, e2.chat, e2.text)
    ensures e1.TextMessage? ==>
      Request(Handle(allow, h, e2, complete).histories, e1.chat, e1.text) == Request(h, e1.chat, e1.text)
  {
    var a := Handle(allow, h, e1, complete).histories;
    var b := Handle(allow, h, e2, complete).histories;
    assert HistoryOrDefault(a, e2.chat) == HistoryOrDefault(h, e2.chat);
    assert HistoryOrDefault(b, e1.chat) == HistoryOrDefault(h, e1.chat);
    var ab := Handle(allow, a, e2, complete).histories;
    var ba := Handle(allow, b, e1, complete).histories;
    forall c ensures (c in ab <==> c in ba) && (c in ab ==> ab[c] == ba[c]) {
    }
    assert ab == ba;
  }

  // ---------------------------------------------------------------------------
  // Shape of a history
  // ---------------------------------------------------------------------------

  /** A system entry can only be the first entry. */
  predicate SystemOnlyFirst(msgs: seq<Msg>)
  {
    forall i :: 0 < i < |msgs| ==> msgs[i].role != System
  }

  /** The entries after an optional leading system entry. */
  function Turns(msgs: seq<Msg>): seq<Msg>
  {
    if |msgs| > 0 && msgs[0].role == System then msgs[1..] else msgs
  }

  /** A history whose turns are complete exchanges: user, assistant, user,
      assistant, ... */
  predicate Dialogue(msgs: seq<Msg>)
  {
    var turns := Turns(msgs);
    SystemOnlyFirst(msgs) && |turns| % 2 == 0 &&
    forall k :: 0 <= k < |turns| ==> turns[k].role == (if k % 2 == 0 then User else Assistant)
  }

  predicate AllSystemOnlyFirst(h: Histories)
  {
    forall c :: c in h ==> SystemOnlyFirst(h[c])
  }

  predicate AllDialogues(h: Histories)
  {
    forall c :: c in h ==> Dialogue(h[c])
  }

  /** Appending turns that are not system entries keeps the system entry first. */
  lemma AppendKeepsSystemOnlyFirst(msgs: seq<Msg>, more: seq<Msg>)
    requires SystemOnlyFirst(msgs)
    requires forall i :: 0 <= i < |more| ==> more[i].role != System
    ensures SystemOnlyFirst(msgs + more)
  {
  }

  /** Every handled update keeps each system entry at the front of its history. */
  lemma HandleKeepsSystemOnlyFirst(allow: seq<string>, h: Histories, ev: Event, complete: seq<Msg> -> Completion)
    requires AllSystemOnlyFirst(h)
    ensures AllSystemOnlyFirst(Handle(allow, h, ev, complete).histories)
  {
  }

  /** An answered message turns a dialogue into a longer dialogue. */
  lemma ExchangeKeepsDialogue(msgs: seq<Msg>, input: string, answer: string)
    requires Dialogue(msgs)
    ensures Dialogue(msgs + [Msg(User, input), Msg(Assistant, answer)])
  {
    var more := [Msg(User, input), Msg(Assistant, answer)];
    var all := msgs + more;
    AppendKeepsSystemOnlyFirst(msgs, more);
    var turns := Turns(msgs);
    assert Turns(all) == turns + more;
    var t := Turns(all);
    forall k | 0 <= k < |t| ensures t[k].role == (if k % 2 == 0 then User else Assistant) {
      if k >= |turns| { assert t[k] == more[k - |turns|]; } else { assert t[k] == turns[k]; }
    }
  }

  /** With a backend that always answers, every handled update keeps every
      stored history a dialogue. */
  lemma HandleKeepsDialogues(allow: seq<string>, h: Histories, ev: Event, complete: seq<Msg> -> Completion)
    requires AllDialogues(h)
    requires forall msgs :: complete(msgs).Reply?
    ensures AllDialogues(Handle(allow, h, ev, complete).histories)
  {
    if Access.Authorized(allow, ev.sender) && ev.TextMessage? {
      var before := HistoryOrDefault(h, ev.chat);
      var answer := complete(Request(h, ev.chat, ev.text)).content;
      assert Dialogue(before) by {
        if ev.chat !in h {
          assert Turns(before) == [];
        }
      }
      ExchangeKeepsDialogue(before, ev.text, answer);
      assert Request(h, ev.chat, ev.text) + [Msg(Assistant, answer)] ==
             before + [Msg(User, ev.text), Msg(Assistant, answer)];
    }
  }

  /** A failed backend call after `/clear` leaves a lone user turn in the
      stored history: the history is no longer a dialogue. */
  lemma FailureLeavesUnansweredTurn(h: Histories, chat: ChatId, input: string, complete: seq<Msg> -> Completion)
    requires complete([Msg(User, input)]) == Failed
    ensures var after := MessageStep(ClearStep(h, chat).histories, chat, input, complete);
      after.sent == None && after.histories[chat] == [Msg(User, input)] &&
      !Dialogue(after.histories[chat])
  {
    assert Request(ClearStep(h, chat).histories, chat, input) == [Msg(User, input)];
  }

  // ---------------------------------------------------------------------------
  // Runs of updates
  // ---------------------------------------------------------------------------

  /** Updates from users the allow-list denies change nothing and get no reply. */
  lemma {:induction false} DeniedRunChangesNothing(allow: seq<string>, h: Histories, evs: seq<Event>, complete: seq<Msg> -> Completion)
    requires forall i :: 0 <= i < |evs| ==> !Access.Authorized(allow, evs[i].sender)
    ensures Run(allow, h, evs, complete) == Trace(h, [])
    decreases |evs|
  {
    if evs != [] {
      assert !Access.Authorized(allow, evs[0].sender);
      DeniedRunChangesNothing(allow, h, evs[1..], complete);
    }
  }

  /** Updates addressed to other chats never change a chat's history, nor
      whether it has one. */
  lemma {:induction false} OtherChatsUntouched(allow: seq<string>, h: Histories, evs: seq<Event>, complete: seq<Msg> -> Completion, chat: ChatId)
    requires forall i :: 0 <= i < |evs| ==> evs[i].chat != chat
    ensures var after := Run(allow, h, evs, complete).histories;
      (chat in after <==> chat in h) && (chat in h ==> after[chat] == h[chat])
    decreases |evs|
  {
    if evs != [] {
      assert evs[0].chat != chat;
      OtherChatsUntouched(allow, Handle(allow, h, evs[0], complete).histories, evs[1..], complete, chat);
    }
  }

  /** Without an allow-list and with a backend that always answers, every
      update gets exactly one reply. */
  lemma {:induction false} OpenRunAnswersEveryUpdate(h: Histories, evs: seq<Event>, complete: seq<Msg> -> Completion)
    requires forall msgs :: complete(msgs).Reply?
    ensures |Run([], h, evs, complete).sent| == |evs|
    decreases |evs|
  {
    if evs != [] {
      OpenRunAnswersEveryUpdate(Handle([], h, evs[0], complete).histories, evs[1..], complete);
    }
  }

  /** Whatever the updates and the backend, a system entry only ever stands first. */
  lemma {:induction false} RunKeepsSystemOnlyFirst(allow: seq<string>, h: Histories, evs: seq<Event>, complete: seq<Msg> -> Completion)
    requires AllSystemOnlyFirst(h)
    ensures AllSystemOnlyFirst(Run(allow, h, evs, complete).histories)
    decreases |evs|
  {
    if evs != [] {
      HandleKeepsSystemOnlyFirst(allow, h, evs[0], complete);
      RunKeepsSystemOnlyFirst(allow, Handle(allow, h, evs[0], complete).histories, evs[1..], complete);
    }
  }

  /** With a backend that always answers, every stored history stays a
      dialogue, starting from no histories at all. */
  lemma {:induction false} RunKeepsDialogues(allow: seq<string>, h: Histories, evs: seq<Event>, complete: seq<Msg> -> Completion)
    requires AllDialogues(h)
    requires forall msgs :: complete(msgs).Reply?
    ensures AllDialogues(Run(allow, h, evs, complete).histories)
    decreases |evs|
  {
    if evs != [] {
      HandleKeepsDialogues(allow, h, evs[0], complete);
      RunKeepsDialogues(allow, Handle(allow, h, evs[0], complete).histories, evs[1..], complete);
    }
  }
}
