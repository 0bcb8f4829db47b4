/** The bot's process-wide store of conversation histories and the part of
    the message handler that uses it: record the user's message, assemble
    the prompt from the system instruction and the recent history, and
    record the assistant's reply. */
module FaqBot {
  import opened ChatHistory

  /** The fixed system instruction put in front of every prompt. */
  const SystemPrompt: string := "你是 DentalCloud 的客服助理，請根據 FAQ 資料回覆用戶的問題，若資料不足請友善引導他們留下聯絡方式以安排醫師回覆。"

  const SystemEntry: Entry := Entry(SystemRole, SystemPrompt)

  /** The prompt sent to the completion service: the system entry, then the
      history, in its order. */
  function BuildMessages(history: seq<Entry>): (messages: seq<Entry>)
    ensures |messages| == |history| + 1
    ensures messages[0] == SystemEntry && messages[0].role == SystemRole
    ensures messages[1..] == history
    ensures |history| <= Capacity ==> |messages| <= Capacity + 1
  {
    [SystemEntry] + history
  }

  /** The prompt built right after the user's message is recorded starts with
      the system entry, ends with that message, and has at most
      `Capacity + 1` entries. */
  lemma PromptEndsWithMessage(h: seq<Entry>, text: string)
    ensures var messages := BuildMessages(Appended(h, Entry(UserRole, text)));
      && 2 <= |messages| <= Capacity + 1
      && messages[0] == SystemEntry
      && messages[|messages| - 1] == Entry(UserRole, text)
  {
    var asked := Appended(h, Entry(UserRole, text));
    assert BuildMessages(asked)[|asked|] == asked[|asked| - 1];
  }

  /** After one exchange the history holds at most `Capacity` entries and
      ends with the user's message followed by the assistant's reply. */
  lemma {:induction false} ExchangeEndsHistory(h: seq<Entry>, text: string, reply: string)
    ensures var r := Appended(Appended(h, Entry(UserRole, text)), Entry(AssistantRole, reply));
      && 2 <= |r| <= Capacity
      && r[|r| - 2] == Entry(UserRole, text)
      && r[|r| - 1] == Entry(AssistantRole, reply)
  {
    var asked := Appended(h, Entry(UserRole, text));
    AppendedKeepsNewest(asked, Entry(AssistantRole, reply));
    assert (asked + [Entry(AssistantRole, reply)])[|asked| - 1] == Entry(UserRole, text);
  }

  /** The table `user_histories`: user id to that user's recent entries. */
  class HistoryStore {
    var histories: Table

    /** Every history is within the capacity. */
    ghost predicate Valid()
      reads this
    {
      Bounded(histories)
    }

    constructor ()
      ensures Valid() && histories == map[]
    {
      histories := map[];
    }

    /** Appends `{role, content}` to the history of `user`, evicting the
        oldest entry once more than `Capacity` are held, and writes the
        result back under `user` only. */
    method Update(user: UserId, role: string, content: string)
      requires Valid()
      modifies this
      ensures Valid()
      ensures histories == Record(old(histories), user, Entry(role, content))
      ensures HistoryOf(histories, user) == Appended(HistoryOf(old(histories), user), Entry(role, content))
      ensures forall v :: v != user ==> HistoryOf(histories, v) == HistoryOf(old(histories), v)
    {
      var history := if user in histories then histories[user] else [];
      history := history + [Entry(role, content)];
      if |history| > Capacity {
        history := history[|history| - Capacity..];
      }
      histories := histories[user := history];
    }

    /** The recent history of `user`, empty for a user never seen; reading
        it changes nothing. */
    method RecentHistory(user: UserId) returns (history: seq<Entry>)
      requires Valid()
      ensures history == HistoryOf(histories, user)
      ensures user !in histories ==> history == []
      ensures |history| <= Capacity
    {
      history := if user in histories then histories[user] else [];
    }

    /** Handles one text message from `user`: records it, builds the prompt
        from the system entry and the recent history, obtains the reply from
        `complete`, and records the reply. */
    method HandleMessage(user: UserId, text: string, complete: seq<Entry> -> string)
      returns (messages: seq<Entry>, reply: string)
      requires Valid()
      modifies this
      ensures Valid()
      ensures messages == BuildMessages(Appended(HistoryOf(old(histories), user), Entry(UserRole, text)))
      ensures reply == complete(messages)
      ensures histories == Record(Record(old(histories), user, Entry(UserRole, text)), user, Entry(AssistantRole, reply))
    {
      Update(user, UserRole, text);
      var recent := RecentHistory(user);
      messages := BuildMessages(recent);
      reply := complete(messages);
      Update(user, AssistantRole, reply);
    }
  }
}
