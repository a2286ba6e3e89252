/** The bot's handlers over its mutable per-chat state. Each chat's history is
    a list object that the `message` handler appends to in place (bot.py:39,
    bot.py:47) and that the chat's `chat_data` refers to under `'history'`
    (bot.py:50, bot.py:56). */
module Bot {
  import opened Wrappers
  import Access
  import opened Conversation

  /** A Python list of history entries. */
  class HistoryList {
    var items: seq<Msg>

    constructor (initial: seq<Msg>)
      ensures items == initial
    {
      items := initial;
    }

    /** `list.append` */
    method Append(m: Msg)
      modifies this
      ensures items == old(items) + [m]
    {
      items := items + [m];
    }
  }

  /** The `'history'` entries of every chat's `chat_data`. */
  class ChatStore {
    var chatData: map<ChatId, HistoryList>

    /** No two chats share one list object, so appending to one chat's
        history never shows up in another's. */
    ghost predicate Valid()
      reads this
    {
      forall c, d :: c in chatData && d in chatData && c != d ==> chatData[c] != chatData[d]
    }

    /** The contents of every stored history. */
    ghost function Contents(): Histories
      reads this, chatData.Values
    {
      map c | c in chatData :: chatData[c].items
    }

    constructor ()
      ensures Valid() && Contents() == map[] && chatData == map[]
    {
      chatData := map[];
    }

    /** The `message` handler body (bot.py:28-52): take the stored list or a
        freshly built default one, append the user turn, ask the backend,
        append its answer, store the list and return the text to send. A
        backend failure ends the handler after the first append. */
    method Message(chat: ChatId, input: string, complete: seq<Msg> -> Completion) returns (reply: Option<string>)
      requires Valid()
      modifies this, chatData.Values
      ensures Valid()
      ensures Outcome(Contents(), reply) == MessageStep(old(Contents()), chat, input, complete)
      // a stored history is extended in place; other chats keep their list objects
      ensures forall c :: c in old(chatData) ==> c in chatData && chatData[c] == old(chatData[c])
      ensures chat !in old(chatData) && chat in chatData ==> fresh(chatData[chat])
      ensures fresh(chatData.Values - old(chatData.Values))
      ensures forall c :: c in old(chatData) && c != chat ==> unchanged(chatData[c])
    {
      var chatHistory: HistoryList;
      if chat in chatData {
        chatHistory := chatData[chat];
      } else {
        chatHistory := new HistoryList(DefaultHistory());
      }
      chatHistory.Append(Msg(User, input));
      assert chatHistory.items == Request(old(Contents()), chat, input);
      assert forall c :: c in chatData && c != chat ==> chatData[c] != chatHistory;
      assert forall c :: c in chatData && c != chat ==> chatData[c].items == old(chatData[c].items);
      var response := complete(chatHistory.items);
      if response.Failed? {
        reply := None;
        assert Contents() == if chat in old(chatData) then old(Contents())[chat := chatHistory.items] else old(Contents());
        return;
      }
      chatHistory.Append(Msg(Assistant, response.content));
      assert forall c :: c in chatData && c != chat ==> chatData[c].items == old(chatData[c].items);
      chatData := chatData[chat := chatHistory];
      reply := Some(response.content);
      assert Contents() == old(Contents())[chat := chatHistory.items];
    }

    /** The `clear` handler body (bot.py:55-57): the chat's `'history'` entry
        becomes a new empty list; no list object is modified. */
    method Clear(chat: ChatId) returns (notice: string)
      requires Valid()
      modifies this
      ensures Valid()
      ensures Outcome(Contents(), Some(notice)) == ClearStep(old(Contents()), chat)
      ensures forall c :: c in old(chatData) && c != chat ==> c in chatData && chatData[c] == old(chatData[c])
      ensures chat in chatData && fresh(chatData[chat])
      ensures fresh(chatData.Values - old(chatData.Values))
    {
      var emptied := new HistoryList([]);
      chatData := chatData[chat := emptied];
      notice := ClearedNotice;
      assert Contents() == old(Contents())[chat := []];
    }

    /** `message` behind the `restricted` guard (bot.py:16-25, bot.py:27-28):
        a denied user gets nothing and no state changes. */
    method HandleMessage(allow: seq<string>, sender: int, chat: ChatId, input: string,
                         complete: seq<Msg> -> Completion) returns (sent: Option<string>)
      requires Valid()
      modifies this, chatData.Values
      ensures Valid()
      ensures Outcome(Contents(), sent) == Handle(allow, old(Contents()), TextMessage(sender, chat, input), complete)
      ensures !Access.Authorized(allow, sender) ==>
        chatData == old(chatData) && forall c :: c in chatData ==> unchanged(chatData[c])
    {
      if !Access.Authorized(allow, sender) {
        sent := None;
        return;
      }
      sent := Message(chat, input, complete);
    }

    /** `clear` behind the `restricted` guard (bot.py:16-25, bot.py:54-55). */
    method HandleClear(allow: seq<string>, sender: int, chat: ChatId) returns (sent: Option<string>)
      requires Valid()
      modifies this
      ensures Valid()
      ensures Access.Authorized(allow, sender) ==> Outcome(Contents(), sent) == ClearStep(old(Contents()), chat)
      ensures !Access.Authorized(allow, sender) ==> chatData == old(chatData) && sent == None
    {
      if !Access.Authorized(allow, sender) {
        sent := None;
        return;
      }
      var notice := Clear(chat);
      sent := Some(notice);
    }
  }

  /** A chat's life on one store: a first message, `/clear`, another message.
      The second history has no system entry, and another chat's first
      message still gets one. */
  method ClearInTheMiddle(chat: ChatId, other: ChatId, first: string, second: string,
                          complete: seq<Msg> -> Completion) returns (afterClear: seq<Msg>, otherHistory: seq<Msg>)
    requires chat != other
    requires forall msgs :: complete(msgs).Reply?
    ensures afterClear == [Msg(User, second), Msg(Assistant, complete([Msg(User, second)]).content)]
    ensures otherHistory == [Msg(System, SystemPrompt), Msg(User, first),
                             Msg(Assistant, complete([Msg(System, SystemPrompt), Msg(User, first)]).content)]
  {
    var store := new ChatStore();
    var _ := store.Message(chat, first, complete);
    ClearThenMessage(store.Contents(), chat, second, complete);
    var _ := store.Clear(chat);
    var _ := store.Message(chat, second, complete);
    afterClear := store.chatData[chat].items;
    FirstMessage(store.Contents(), other, first, complete);
    var _ := store.Message(other, first, complete);
    otherHistory := store.chatData[other].items;
  }
}
