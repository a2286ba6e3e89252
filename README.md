# chatgpt-telegram bot: access control and conversation history

This project models, in Dafny, the logic inside the Telegram bot `bot.py`. The bot relays each
text message from a chat to the OpenAI chat-completion backend and sends back the answer. Two
pieces of it are modelled and proved:

* **Access control** (module `Access`, `access.dfy`). The `ALLOWED_USER_IDS` setting is split
  at commas into an allow-list. An unset or empty setting gives an empty list. The `restricted`
  decorator wrapped around every handler lets an update through when the list is empty, or when
  `str(user_id)` is one of its entries. Otherwise the handler body never runs. The model contains
  Python's `str.split`/`str.join` for one separator and `str()` of an int. It proves that
  splitting is the unique separator-free decomposition, that decimal numerals round-trip, and
  that id strings are injective. From these it follows that a one-entry list admits exactly that
  user, and that untrimmed entries such as `" 34"` admit nobody.
* **Per-chat conversation history.** Module `Conversation` (`conversation.dfy`) is a pure state
  machine over `map<ChatId, seq<Msg>>`. Module `Bot` (`bot.dfy`) is the same behaviour on mutable
  state: a `ChatStore` whose `chatData` maps each chat to a `HistoryList` object.
  * A text message takes the stored list, or a freshly built `[system]` list. It appends the user
    turn in place, asks the backend, appends the assistant turn in place, stores the list and
    returns the answer to send.
  * `/clear` stores a new empty list.
  * The methods are proved against the pure step functions (`MessageStep`, `ClearStep`,
    `Handle`), and the properties are proved about those functions and about `Run`, which handles
    a sequence of updates.

The completion backend is a parameter `complete: seq<Msg> -> Completion`. Its result is either
`Reply(content)` (the content of the first choice) or `Failed` (the call raised). The allow-list
setting is the parameter `setting: Option<string>` of `ParseAllowList`, where `None` means the
variable is unset. The text sent back through `reply_text` is the return value of each handler.

Two behaviours of the code are easy to misread:

* After `/clear` the chat's `'history'` key holds `[]`. So `chat_data.get('history', blank)`
  returns `[]` and the next message is stored as `[user, assistant]`, with no system entry
  (`ClearThenMessage`).
* Backend failure: the code appends the user turn to the stored list object before calling the
  backend. So when the call raises, a chat that already had a history keeps the extra user turn.
  A chat without a history stores nothing, because the fresh default list was never stored
  (`MessageStep`, `FailureLeavesUnansweredTurn`).

## Model

| member | source | states |
|---|---|---|
| `Access.Split` | bot.py:14 | `s.split(",")` always gives at least one piece (the empty string gives `[""]`). `SplitJoin` and `JoinSplit` pin down which pieces. |
| `Access.NatToString` | bot.py:19 | The numeral of a natural number is non-empty, all digits, and has no leading zero unless the number is 0. |
| `Access.IntToString` | bot.py:19 | The shape of `str(id)`: non-empty, `-` first exactly for negative ids, the rest digits, no leading zero and no `-0`. Its value is stated by `IdStringValue`. |
| `Access.Authorized` | bot.py:19-20 | The `restricted` test itself, as a predicate. What it admits in terms of user ids is proved by `ListedUsersAdmitted`, `SingleEntryAdmitsOnlyThatUser` and `UnrestrictedAdmitsEveryone`. |
| `Access.SplitJoin` | bot.py:14 | Joining the pieces of `s.split(",")` with commas gives back `s`, and no piece contains a comma. Nothing is trimmed or dropped, and the order is kept. |
| `Access.JoinSplit` | bot.py:14 | Splitting the comma-join of a non-empty list of comma-free pieces gives back exactly that list, so the split is the only such decomposition. |
| `Access.ParseAllowList` | bot.py:13-14 | An unset or empty setting gives `[]`. Any other value gives a non-empty list of comma-free entries whose comma-join is the value. |
| `Access.ParseAllowListUnique` | bot.py:13-14 | For a non-empty setting, a list of comma-free entries is what the parser returns iff its comma-join is the setting. |
| `Access.DecimalRoundTrip` | bot.py:19 | The decimal value of the numeral of a natural number `n` is `n`. |
| `Access.IdStringValue` | bot.py:19 | The id string of a non-negative id is the decimal numeral of the id. The id string of a negative id is a minus sign followed by the numeral of its absolute value. |
| `Access.IdStringInjective` | bot.py:19 | `str(a) == str(b)` only when `a == b`, negative ids included. |
| `Access.UnrestrictedAdmitsEveryone` | bot.py:13-20 | With `ALLOWED_USER_IDS` unset or empty, every user passes the guard. |
| `Access.RestrictedAdmitsListedOnly` | bot.py:19-20 | With a non-empty allow-list, a user passes iff some entry equals the user's id string. |
| `Access.SingleEntryAdmitsOnlyThatUser` | bot.py:19-20 | A list holding one user's id string admits that user and no other. |
| `Access.ListedUsersAdmitted` | bot.py:19-20 | An allow-list made of the id strings of some users admits a user iff that user is one of them. |
| `Access.ForeignCharacterEntriesAdmitNobody` | bot.py:14-20 | Entries are compared untrimmed: if every entry has a character that is neither a digit nor `-`, every user is denied. |
| `Access.BlankAfterCommaIsKept` | bot.py:14-20 | The setting `"12, 34"` parses to `["12", " 34"]`, which admits user 12 and denies user 34. |
| `Conversation.HistoryOrDefault` | bot.py:31-36 | `chat_data.get('history', blank_chat_history)`. Its effect is proved in three places. `MessageStep` keeps whatever it returns as the prefix. `FirstMessage` shows that a chat without a key starts from the system entry. `ClearThenMessage` shows that a key holding `[]` gives no system entry. |
| `Conversation.MessageStep` | bot.py:28-52 | The message handler. The backend is asked with the stored or default history plus the user turn. On an answer, all earlier entries are kept and exactly the user turn and then the assistant turn are appended. The text sent is the assistant entry's content. On failure, nothing is sent and only a stored history changes, by the user turn alone. Other chats are unchanged. |
| `Conversation.ClearStep` | bot.py:55-57 | `/clear` leaves the chat's key present with `[]`, changes no other chat and replies "Chat history cleared.". |
| `Conversation.Handle` | bot.py:16-25 | A denied update changes no history and sends nothing. Every update changes at most its own chat's history and removes no key. `AdmittedReachesHandler` states the admitted half. |
| `Conversation.AdmittedReachesHandler` | bot.py:20-24 | An admitted text message is exactly the message handler's step, and an admitted `/clear` is exactly the clear handler's step. |
| `Conversation.Run` | bot.py:64 | Updates handled one after another. Each update sends at most one reply, and no chat ever loses its history key. |
| `Conversation.FirstMessage` | bot.py:31-50 | A first answered message in a chat stores `[system "You are a helpful assistant.", user(input), assistant(reply)]` and sends the reply. |
| `Conversation.ClearThenMessage` | bot.py:36-56 | After `/clear`, the next answered message stores `[user, assistant]` without a system entry. |
| `Conversation.ClearIdempotent` | bot.py:55-56 | Clearing twice gives the same state and reply as clearing once. |
| `Conversation.DifferentChatsCommute` | bot.py:31-50 | Handling an update in one chat does not change the request the backend gets for an update in another chat, whatever the backend. Two updates to different chats give the same histories in either order. Each gives the same reply in either order, which relies on the backend being a function of the message list. |
| `Conversation.HandleKeepsSystemOnlyFirst` | bot.py:28-56 | Any handled update, failed backend calls included, keeps every system entry at the front of its history. |
| `Conversation.ExchangeKeepsDialogue` | bot.py:39-47 | Appending a user turn and then an assistant turn to a dialogue (system entry first, then user/assistant pairs) gives a dialogue. |
| `Conversation.HandleKeepsDialogues` | bot.py:28-56 | With a backend that always answers, any handled update keeps every stored history a dialogue. |
| `Conversation.FailureLeavesUnansweredTurn` | bot.py:39-44 | A failed backend call after `/clear` leaves the stored history `[user(input)]`, which is not a dialogue, and sends nothing. |
| `Conversation.DeniedRunChangesNothing` | bot.py:19-22 | Any sequence of updates from denied users leaves every history as it was and sends nothing. |
| `Conversation.OtherChatsUntouched` | bot.py:31-50 | Updates addressed to other chats never change a chat's history, nor whether it has one. |
| `Conversation.RunKeepsSystemOnlyFirst` | bot.py:28-56 | Over any sequence of updates and any backend, a system entry only ever stands first in a history. |
| `Conversation.RunKeepsDialogues` | bot.py:28-56 | Over any sequence of updates and a backend that always answers, every stored history stays a dialogue. |
| `Conversation.OpenRunAnswersEveryUpdate` | bot.py:13-52 | With no allow-list and a backend that always answers, a run of updates sends exactly one reply per update. |
| `Bot.HistoryList.constructor` | bot.py:31-33 | A list literal (the default `[system]` list, or the `[]` of bot.py:56) is a new list object holding exactly the given entries. |
| `Bot.HistoryList.Append` | bot.py:39 | `list.append` adds the entry at the end and keeps the rest. |
| `Bot.ChatStore.constructor` | bot.py:36 | A new store holds no history for any chat. |
| `Bot.ChatStore.Message` | bot.py:28-52 | The new histories and the reply are those of `MessageStep`. A stored list is extended in place (same object), a new chat gets a fresh list, other chats' list objects are untouched, and no two chats share a list. |
| `Bot.ChatStore.Clear` | bot.py:55-57 | The new histories and the reply are those of `ClearStep`. The chat gets a fresh empty list, and no list object is modified. |
| `Bot.ChatStore.HandleMessage` | bot.py:16-28 | The guarded message handler agrees with `Handle`. A denied user changes no field and no list object. |
| `Bot.ChatStore.HandleClear` | bot.py:54-57 | The guarded clear handler agrees with `ClearStep` when admitted. When denied it changes nothing and sends nothing. |
| `Bot.ClearInTheMiddle` | bot.py:31-56 | On one store: message, `/clear`, then a message gives `[user, assistant]`, while another chat's first message still gets the system entry. |

## Left out

- The OpenAI call `openai.ChatCompletion.create` (bot.py:41-44) is a network call. It is the `complete` parameter, a function of the message list whose only outcomes are an answer or a raised error. So within one `Run`, two calls with the same message list get the same outcome. The fixed model name `gpt-3.5-turbo` is not modelled, and a `None` message content is not modelled.
- `load_dotenv`/`os.getenv` (bot.py:9-13) read the environment. The raw setting is the parameter of `ParseAllowList`.
- Application building, handler registration and polling (bot.py:59-64) are transport plumbing. `Run` stands for handling updates one at a time, in order. The filter that routes only non-command text to `message` is not modelled.
- `reply_text` (bot.py:52, bot.py:57) is I/O. Its text is the handler's return value.
- `async`/`await` and the `print` of a denial (bot.py:18-24) are left out. Each handler body runs to completion before the next one starts.
- `update.effective_user` or `update.message` being absent is not modelled. Every update has a sender and a text.
- A raised backend error is modelled as ending the handler. What the bot framework then does with the exception is not modelled.
