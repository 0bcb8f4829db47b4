# Conversation history of the LINE FAQ bot, in Dafny

The bot (`line_faq_bot.py`) answers LINE text messages through a chat-completion
service. Between messages it keeps one piece of state: the process-wide table
`user_histories`, which maps a LINE user id to that user's most recent
`{role, content}` entries. The model covers that table and the code that uses it:

- `update_user_history` appends an entry for a user. When the list grows past 5,
  it keeps only the newest 5, so the oldest entry goes first. The result is
  written back under that user's key only.
- `get_recent_history` returns a user's list, or an empty list for a user the
  bot has never seen.
- `handle_message` records the user's message first. It then builds the prompt:
  one fixed system entry followed by the recent history. Last, it records the
  assistant's reply.

Module `ChatHistory` (`history.dfy`) holds the entries, the capacity of 5 and
the pure meaning of one update (`Appended` for one user's history, `Record` for
the table). It also defines updates performed in sequence (`Replay`,
`RecordAll`) and the lemmas about them. Module `FaqBot` (`bot.dfy`) holds the
system instruction and the prompt assembly `BuildMessages`. Its class
`HistoryStore` is the table that the methods update in place, and each method is
proved against the functions of `ChatHistory`.

When the prompt is built, the user's latest message is already the last entry
of the history: it is recorded at line 54, before lines 57-58.
`PromptEndsWithMessage` proves that the prompt ends with that message. The file
loads `faq_data.json` but never consults it, so no FAQ matcher is modelled.

## Model

| member | source | states |
|---|---|---|
| `ChatHistory.HistoryOf` | line_faq_bot.py:26-27 | a user with no entry in the table has the empty history |
| `ChatHistory.Appended` | line_faq_bot.py:29-34 | after an append the history holds at most 5 entries and ends with the new entry; below 5 it is the old history plus the entry (length grows by one); at 5 the oldest entry is dropped and the length stays 5 |
| `ChatHistory.AppendedKeepsNewest` | line_faq_bot.py:30-33 | an append keeps exactly the newest 5 entries of the old history followed by the new entry, in order |
| `ChatHistory.Record` | line_faq_bot.py:29-34 | recording for `u` changes only `u`'s history, adds `u` to the table, and keeps every history within the bound |
| `ChatHistory.Replay` | line_faq_bot.py:29-34 | after one or more appends the history is non-empty, holds at most 5 entries and ends with the last entry appended |
| `ChatHistory.RecordAll` | line_faq_bot.py:29-34 | any sequence of updates keeps every history within the bound and forgets no user |
| `ChatHistory.ReplayKeepsNewest` | line_faq_bot.py:29-34 | appending entries one by one to a history of at most 5 leaves the newest 5 of the old entries followed by the new ones, in chronological order |
| `ChatHistory.ReplayFromEmpty` | line_faq_bot.py:29-34 | from empty, N appends leave exactly the last min(N, 5) appended entries in the order they were appended |
| `ChatHistory.SixMessagesEvictFirst` | line_faq_bot.py:29-34 | user messages "m1" to "m6" leave "m2" to "m6": "m1" is evicted |
| `ChatHistory.RecordAllPerUser` | line_faq_bot.py:29-34 | however updates for different users interleave, a user's history is the newest 5 of their old history followed by the entries recorded for them, in order |
| `ChatHistory.OthersUntouched` | line_faq_bot.py:34 | updates that never name `u` leave `u`'s history unchanged |
| `FaqBot.BuildMessages` | line_faq_bot.py:57-58 | the prompt is the system entry followed by the history in its order, one entry longer than the history, so at most 6 entries for a history within the bound |
| `FaqBot.PromptEndsWithMessage` | line_faq_bot.py:54-58 | the prompt built right after the user's message is recorded starts with the system entry, ends with that message and has at most 6 entries |
| `FaqBot.ExchangeEndsHistory` | line_faq_bot.py:54-67 | after an exchange the history holds at most 5 entries and ends with the user's message followed by the assistant's reply |
| `FaqBot.HistoryStore.constructor` | line_faq_bot.py:24 | the table starts empty |
| `FaqBot.HistoryStore.Update` | line_faq_bot.py:29-34 | the table becomes `Record` of the old table: the user's history is the old one appended with `{role, content}` under the bound, other users' histories are unchanged, and all histories stay within 5 |
| `FaqBot.HistoryStore.RecentHistory` | line_faq_bot.py:26-27 | returns the stored history of the user, or the empty history for an unknown user, within the bound, and changes nothing |
| `FaqBot.HistoryStore.HandleMessage` | line_faq_bot.py:49-67 | records the user's message, sends the system entry plus the updated history to the completion service, then records the reply, in that order |

## Left out

- Flask routing and the `/callback` handler (lines 36-46): HTTP plumbing.
- Webhook signature validation (lines 42-44): it happens inside the LINE SDK, which is not part of this model.
- The chat-completion call and reply extraction (lines 60-64): an external network call. `HandleMessage` takes the service as a function parameter `complete` from the prompt to the reply text, which is already stripped. The model name is not modelled, and neither is a failure of the call. If the call raises, the user's message is already recorded (line 54) and line 67 never runs, so the history keeps the message without a reply; `HandleMessage` and `ExchangeEndsHistory` describe only exchanges whose call succeeds.
- Sending the reply with `reply_message` (lines 69-72): outbound network I/O.
- Loading environment variables and creating the clients (lines 11-17): configuration I/O.
- Reading `faq_data.json` (lines 20-21): file I/O. The data is never used in this file, so there is no FAQ matcher to model.
- Concurrent webhook deliveries racing on `user_histories`: the model is sequential.
- List identity and aliasing: the source appends in place to the list stored in the table (line 31) and stores a fresh slice when it trims (line 33). The model treats histories as values. A sequential caller cannot tell the difference, because the result is always written back under the same key (line 34) and the prompt copies the history (line 58).
- Roles are free strings, as in the source; the model does not restrict them to "user" and "assistant".
