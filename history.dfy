/** The per-user conversation history kept by the bot: what an entry is, how
    many entries a user keeps, and what recording one entry does to a user's
    history and to the whole table of histories. */
module ChatHistory {

  /** A messaging-platform user identifier. */
  type UserId = string

  /** One message of a conversation: who said it and what was said. */
  datatype Entry = Entry(role: string, content: string)

  const UserRole: string := "user"
  const AssistantRole: string := "assistant"
  const SystemRole: string := "system"

  /** A message sent by the user. */
  function Said(text: string): Entry { Entry(UserRole, text) }

  /** The number of entries kept per user. */
  const Capacity: nat := 5

  /** The table of all users' histories. */
  type Table = map<UserId, seq<Entry>>

  function Min(a: int, b: int): int { if a <= b then a else b }

  /** The newest `n` elements of `s` (all of `s` when it is shorter), in order. */
  function Newest<T>(s: seq<T>, n: nat): (r: seq<T>)
    ensures |r| == Min(|s|, n)
    ensures r == s[|s| - |r|..]
  {
    if |s| <= n then s else s[|s| - n..]
  }

  /** The history of `u`, or the empty history for a user never seen. */
  function HistoryOf(t: Table, u: UserId): (h: seq<Entry>)
    ensures u !in t ==> h == []
  {
    if u in t then t[u] else []
  }

  /** Every user's history is within the capacity. */
  ghost predicate Bounded(t: Table)
  {
    forall u :: u in t ==> |t[u]| <= Capacity
  }

  /** A user's history after `e` is appended to `h`: the entry goes on the
      end and, when that makes more than `Capacity`, only the newest
      `Capacity` entries are kept, so the oldest is evicted first. */
  function Appended(h: seq<Entry>, e: Entry): (r: seq<Entry>)
    ensures |r| <= Capacity
    ensures |r| > 0 && r[|r| - 1] == e
    ensures |h| < Capacity ==> r == h + [e] && |r| == |h| + 1
    ensures |h| == Capacity ==> r == h[1..] + [e] && |r| == Capacity
  {
    var grown := h + [e];
    if |grown| > Capacity then
      assert |h| == Capacity ==> grown[1..] == h[1..] + [e];
      grown[|grown| - Capacity..]
    else grown
  }

  /** Appending keeps exactly the newest `Capacity` entries of the old
      history followed by the new entry. */
  lemma AppendedKeepsNewest(h: seq<Entry>, e: Entry)
    ensures Appended(h, e) == Newest(h + [e], Capacity)
  {
  }

  /** The table after `e` is recorded for `u`: only the key `u` is written. */
  function Record(t: Table, u: UserId, e: Entry): (r: Table)
    ensures HistoryOf(r, u) == Appended(HistoryOf(t, u), e)
    ensures forall v :: v != u ==> HistoryOf(r, v) == HistoryOf(t, v)
    ensures r.Keys == t.Keys + {u}
    ensures Bounded(t) ==> Bounded(r)
  {
    t[u := Appended(HistoryOf(t, u), e)]
  }

  /** The history reached from `h` by appending `es` one by one, oldest first. */
  function Replay(h: seq<Entry>, es: seq<Entry>): (r: seq<Entry>)
    ensures es == [] ==> r == h
    ensures es != [] ==> 0 < |r| <= Capacity && r[|r| - 1] == es[|es| - 1]
    decreases |es|
  {
    if es == [] then h else Replay(Appended(h, es[0]), es[1..])
  }

  /** One call of the history update: who it is for and what is appended. */
  datatype HistoryCall = HistoryCall(user: UserId, entry: Entry)

  /** The table reached from `t` by performing `ups` in order. */
  function RecordAll(t: Table, ups: seq<HistoryCall>): (r: Table)
    ensures Bounded(t) ==> Bounded(r)
    ensures r.Keys >= t.Keys
    decreases |ups|
  {
    if ups == [] then t else RecordAll(Record(t, ups[0].user, ups[0].entry), ups[1..])
  }

  /** The entries that `ups` appends for `u`, in order. */
  function EntriesFor(ups: seq<HistoryCall>, u: UserId): (es: seq<Entry>)
    ensures forall i :: 0 <= i < |es| ==> HistoryCall(u, es[i]) in ups
    decreases |ups|
  {
    if ups == [] then []
    else (if ups[0].user == u then [ups[0].entry] else []) + EntriesFor(ups[1..], u)
  }

  /** Keeping the newest `n` and then adding more and keeping the newest `n`
      is the same as keeping the newest `n` of everything. */
  lemma NewestOfNewest<T>(s: seq<T>, t: seq<T>, n: nat)
    ensures Newest(Newest(s, n) + t, n) == Newest(s + t, n)
  {
    if |s| <= n {
      assert Newest(s, n) == s;
    } else if t == [] {
      assert Newest(s, n) + t == Newest(s, n);
      assert s + t == s;
    } else {
      var k := |s| - n;
      var kept := s[k..];
      assert Newest(s, n) == kept;
      assert kept + t == (s + t)[k..];
      assert Newest(kept + t, n) == (kept + t)[|t|..];
      assert Newest(s + t, n) == (s + t)[k + |t|..];
    }
  }

  /** Appending entries one by one to a history within the capacity leaves
      exactly the newest `Capacity` of the old entries followed by the new
      ones, in chronological order. */
  lemma {:induction false} ReplayKeepsNewest(h: seq<Entry>, es: seq<Entry>)
    requires |h| <= Capacity
    ensures Replay(h, es) == Newest(h + es, Capacity)
    decreases |es|
  {
    if es == [] {
      assert h + es == h;
    } else {
      calc {
        Replay(h, es);
        Replay(Appended(h, es[0]), es[1..]);
        { ReplayKeepsNewest(Appended(h, es[0]), es[1..]); }
        Newest(Appended(h, es[0]) + es[1..], Capacity);
        { RecordedThenNewest(h, es[0], es[1..]); }
        Newest(h + ([es[0]] + es[1..]), Capacity);
        { assert [es[0]] + es[1..] == es; }
        Newest(h + es, Capacity);
      }
    }
  }

  /** From an empty history, `N` appends leave the last `min(N, Capacity)`
      appended entries, in the order they were appended. */
  lemma {:induction false} ReplayFromEmpty(es: seq<Entry>)
    ensures Replay([], es) == Newest(es, Capacity)
    ensures |Replay([], es)| == Min(|es|, Capacity)
  {
    ReplayKeepsNewest([], es);
    assert [] + es == es;
  }

  /** Six user messages "m1" to "m6" leave "m2" to "m6": "m1" is evicted. */
  lemma SixMessagesEvictFirst()
    ensures Replay([], [Said("m1"), Said("m2"), Said("m3"), Said("m4"), Said("m5"), Said("m6")])
         == [Said("m2"), Said("m3"), Said("m4"), Said("m5"), Said("m6")]
  {
    var ms := [Said("m1"), Said("m2"), Said("m3"), Said("m4"), Said("m5"), Said("m6")];
    ReplayFromEmpty(ms);
    assert Newest(ms, Capacity) == ms[1..];
  }

  /** Whatever the interleaving of updates for different users, the history
      of `u` depends only on the entries recorded for `u`: it is the newest
      `Capacity` of its old history followed by those entries, in order. */
  lemma {:induction false} RecordAllPerUser(t: Table, ups: seq<HistoryCall>, u: UserId)
    requires |HistoryOf(t, u)| <= Capacity
    ensures HistoryOf(RecordAll(t, ups), u) == Newest(HistoryOf(t, u) + EntriesFor(ups, u), Capacity)
    decreases |ups|
  {
    var h := HistoryOf(t, u);
    if ups == [] {
      assert h + [] == h;
    } else {
      var t' := Record(t, ups[0].user, ups[0].entry);
      assert RecordAll(t, ups) == RecordAll(t', ups[1..]);
      RecordAllPerUser(t', ups[1..], u);
      var rest := EntriesFor(ups[1..], u);
      if ups[0].user == u {
        var e := ups[0].entry;
        assert HistoryOf(t', u) == Appended(h, e);
        assert EntriesFor(ups, u) == [e] + rest;
        RecordedThenNewest(h, e, rest);
      } else {
        assert HistoryOf(t', u) == h;
        assert EntriesFor(ups, u) == rest;
      }
    }
  }

  /** One step of RecordAllPerUser for an update that names the user. */
  lemma RecordedThenNewest(h: seq<Entry>, e: Entry, rest: seq<Entry>)
    ensures Newest(Appended(h, e) + rest, Capacity) == Newest(h + ([e] + rest), Capacity)
  {
    AppendedKeepsNewest(h, e);
    NewestOfNewest(h + [e], rest, Capacity);
    assert h + [e] + rest == h + ([e] + rest);
  }

  /** Updates that never name `u` leave the history of `u` as it was. */
  lemma {:induction false} OthersUntouched(t: Table, ups: seq<HistoryCall>, u: UserId)
    requires forall i :: 0 <= i < |ups| ==> ups[i].user != u
    ensures HistoryOf(RecordAll(t, ups), u) == HistoryOf(t, u)
    decreases |ups|
  {
    if ups != [] {
      OthersUntouched(Record(t, ups[0].user, ups[0].entry), ups[1..], u);
    }
  }
}
