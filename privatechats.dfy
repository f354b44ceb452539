/** Private conversations: the key of a two-party log (`helpers.getPrivateChatId`) and the list
    of a user's recent private chats that `set_nickname` recovers from those keys. */
module PrivateChats {
  import opened Wrappers
  import opened JsStrings
  import opened Messages

  const Separator := '_'

  /** The two names in the order of the default sort. */
  function Sorted2(a: string, b: string): seq<string>
  {
    if LexLe(a, b) then [a, b] else [b, a]
  }

  /** `getPrivateChatId(a, b)`: the two names in sorted order, joined by the separator. */
  function ChatKey(a: string, b: string): string
  {
    Join(Sorted2(a, b), Separator)
  }

  /** `getPrivateChatId(nickname, other)` when the caller may have no nickname: the sort moves
      `undefined` last and `join` prints it as the empty string. */
  function ChatKeyOf(me: Option<string>, other: string): string
  {
    match me
    case Some(a) => ChatKey(a, other)
    case None => Join([other, ""], Separator)
  }

  /** The key is the lexicographically smaller name, the separator, then the larger name. */
  lemma ChatKeyShape(a: string, b: string)
    ensures LexLe(a, b) ==> ChatKey(a, b) == a + [Separator] + b
    ensures !LexLe(a, b) ==> LexLe(b, a) && ChatKey(a, b) == b + [Separator] + a
  {
    var s := Sorted2(a, b);
    JoinCons(s[0], [s[1]], Separator);
    assert s == [s[0]] + [s[1]];
    LexLeTotal(a, b);
  }

  /** The key does not depend on the order of the two names. */
  lemma ChatKeySymmetric(a: string, b: string)
    ensures ChatKey(a, b) == ChatKey(b, a)
  {
    ChatKeyShape(a, b);
    ChatKeyShape(b, a);
    if LexLe(a, b) && LexLe(b, a) {
      LexLeAntisymmetric(a, b);
    }
  }

  lemma SeparatorSplitsUniquely(x: string, y: string, u: string, v: string)
    requires Separator !in x && Separator !in u
    requires x + [Separator] + y == u + [Separator] + v
    ensures x == u && y == v
  {
    SplitAtFirstSeparator(x, y, Separator);
    SplitAtFirstSeparator(u, v, Separator);
    var left, right := [x] + Split(y, Separator), [u] + Split(v, Separator);
    assert left == right;
    assert left[0] == x && right[0] == u;
    assert left[1..] == Split(y, Separator) && right[1..] == Split(v, Separator);
    SplitJoin(y, Separator);
    SplitJoin(v, Separator);
  }

  /** For nicknames without the separator, a key names one unordered pair. */
  lemma ChatKeyInjective(a: string, b: string, c: string, d: string)
    requires Separator !in a && Separator !in b && Separator !in c && Separator !in d
    requires ChatKey(a, b) == ChatKey(c, d)
    ensures (a == c && b == d) || (a == d && b == c)
  {
    ChatKeyShape(a, b);
    ChatKeyShape(c, d);
    var s1, s2 := Sorted2(a, b), Sorted2(c, d);
    SeparatorSplitsUniquely(s1[0], s1[1], s2[0], s2[1]);
  }

  /** With the separator inside a nickname two different pairs share a key. */
  lemma ChatKeyCollides()
    ensures ChatKey("a_b", "c") == ChatKey("a", "b_c") == "a_b_c"
  {
    assert LexLe("a_b", "c");
    assert LexLe("a", "b_c");
  }

  /** Splitting a key of two separator-free nicknames gives the sorted pair back. */
  lemma SplitChatKey(a: string, b: string)
    requires Separator !in a && Separator !in b
    ensures Split(ChatKey(a, b), Separator) == Sorted2(a, b)
  {
    JoinSplit(Sorted2(a, b), Separator);
  }

  /** One entry of the `privateChats` list sent with `nickname_set`. */
  datatype PrivateChat = PrivateChat(otherUser: Option<string>, messages: seq<Message>)

  /** The key, cut at the separator, has `nick` as its first or its second piece. */
  predicate Involves(chatId: string, nick: string)
  {
    var parts := Split(chatId, Separator);
    parts[0] == nick || (|parts| > 1 && parts[1] == nick)
  }

  /** The first piece that is not `nick`, if there is one. */
  function FirstOther(parts: seq<string>, nick: string): (r: Option<string>)
    ensures r.None? <==> forall i :: 0 <= i < |parts| ==> parts[i] == nick
    ensures r.Some? ==> exists i :: 0 <= i < |parts| && parts[i] == r.value && r.value != nick
                                   && forall j :: 0 <= j < i ==> parts[j] == nick
  {
    if parts == [] then None
    else if parts[0] != nick then Some(parts[0])
    else
      var r := FirstOther(parts[1..], nick);
      assert r.Some? ==> exists i :: 0 <= i < |parts| - 1 && parts[1..][i] == r.value && r.value != nick
                                     && forall j :: 0 <= j < i ==> parts[1..][j] == nick;
      r
  }

  /** The log holds a message stamped less than a day before `now`. */
  predicate HasRecent(log: seq<Message>, now: int)
  {
    exists i :: 0 <= i < |log| && now - log[i].timestamp < DayMs
  }

  /** The private chats `set_nickname` reports to `nick`, keyed by conversation key. */
  function ChatsFor(nick: string, logs: map<string, seq<Message>>, now: int): map<string, PrivateChat>
  {
    map k | k in logs && Involves(k, nick) && HasRecent(logs[k], now) :: PrivateChat(FirstOther(Split(k, Separator), nick), logs[k])
  }

  /** For two distinct separator-free nicknames with a recent message, the chat is reported to
      each of them, naming the other as partner. */
  lemma ChatsForNamesPartner(a: string, b: string, logs: map<string, seq<Message>>, now: int)
    requires Separator !in a && Separator !in b && a != b
    requires ChatKey(a, b) in logs && HasRecent(logs[ChatKey(a, b)], now)
    ensures var k := ChatKey(a, b);
            k in ChatsFor(a, logs, now) && ChatsFor(a, logs, now)[k] == PrivateChat(Some(b), logs[k])
  {
    SplitChatKey(a, b);
    var parts := Sorted2(a, b);
    assert parts[1..] == [parts[1]];
    if parts == [a, b] {
      assert FirstOther(parts, a) == FirstOther([b], a) == Some(b);
    } else {
      assert FirstOther(parts, a) == Some(b);
    }
  }

  /** With the separator inside a nickname the split misreads keys: a user named "a_b" is not
      told about a chat with "c", and "a", who never took part, is told of it with partner "b". */
  lemma ChatsForMisreadsSeparator(m: Message, now: int)
    requires now - m.timestamp < DayMs
    ensures var logs := map[ChatKey("a_b", "c") := [m]];
            && ChatKey("a_b", "c") !in ChatsFor("a_b", logs, now)
            && ChatKey("a_b", "c") in ChatsFor("a", logs, now)
            && ChatsFor("a", logs, now)[ChatKey("a_b", "c")].otherUser == Some("b")
  {
    ChatKeyCollides();
    assert [m][0] == m;
    assert Split("a_b_c", Separator) == ["a", "b", "c"] by {
      SplitAtFirstSeparator("a", "b_c", Separator);
      SplitAtFirstSeparator("b", "c", Separator);
      SplitNoSeparator("c", Separator);
      assert "a_b_c" == "a" + [Separator] + "b_c";
      assert "b_c" == "b" + [Separator] + "c";
    }
  }
}
