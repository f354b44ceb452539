/** The message store of `state.messages` and the helpers `addMessage`, `deleteMessage`
    and `cleanupMessages` as functions on one log. */
module Messages {
  import opened Wrappers
  import Seqs

  /** Largest number of entries a log keeps. */
  const MaxLog := 100
  /** One day in milliseconds, the retention window of the sweep. */
  const DayMs := 24 * 60 * 60 * 1000

  /** The two stores `state.messages.rooms` and `state.messages.private`. */
  datatype Kind = RoomKind | PrivateKind

  /** A stored message, as built in `message_to_server` and `private_message`.
      The sender is `undefined` when the socket has no nickname yet. */
  datatype Message =
    | RoomMsg(from: Option<string>, text: string, timestamp: int, messageId: string, replyTo: Option<string>)
    | PrivateMsg(from: Option<string>, to: string, text: string, timestamp: int, messageId: string, replyTo: Option<string>)

  ghost predicate LogsCapped(logs: map<string, seq<Message>>)
  {
    forall k :: k in logs ==> |logs[k]| <= MaxLog
  }

  /** The log after `addMessage`: `m` pushed at the end, then the first entry shifted out if the
      log grew past `MaxLog`. */
  function Pushed(log: seq<Message>, m: Message): (r: seq<Message>)
    ensures |log| <= MaxLog ==> |r| <= MaxLog
    ensures |r| >= 1 && r[|r| - 1] == m
  {
    var grown := log + [m];
    if |grown| > MaxLog then grown[1..] else grown
  }

  /** For a log within its cap: below the cap nothing is dropped; at the cap exactly the oldest
      entry goes and the others keep their order. */
  lemma PushedFifo(log: seq<Message>, m: Message)
    requires |log| <= MaxLog
    ensures |log| < MaxLog ==> Pushed(log, m) == log + [m]
    ensures |log| == MaxLog ==> Pushed(log, m) == log[1..] + [m] && |Pushed(log, m)| == MaxLog
  {
  }

  /** Pushing the messages of `ms` one after another. */
  function PushedAll(log: seq<Message>, ms: seq<Message>): seq<Message>
    decreases |ms|
  {
    if ms == [] then log else PushedAll(Pushed(log, ms[0]), ms[1..])
  }

  function Min(a: int, b: int): int
  {
    if a <= b then a else b
  }

  /** However many messages are pushed, the log holds the newest `MaxLog` of everything it saw. */
  lemma {:induction false} PushedAllKeepsNewest(log: seq<Message>, ms: seq<Message>)
    requires |log| <= MaxLog
    ensures var all := log + ms; PushedAll(log, ms) == all[|all| - Min(|all|, MaxLog)..]
    decreases |ms|
  {
    var all := log + ms;
    if ms == [] {
      assert all == log;
    } else {
      var next := Pushed(log, ms[0]);
      PushedFifo(log, ms[0]);
      PushedAllKeepsNewest(next, ms[1..]);
      var all' := next + ms[1..];
      if next == log + [ms[0]] {
        assert all' == all;
      } else {
        assert |log| == MaxLog && next == log[1..] + [ms[0]];
        assert all' == all[1..];
        assert all'[|all'| - MaxLog..] == all[|all| - MaxLog..];
      }
    }
  }

  /** Sending 101 messages to a fresh log leaves the last 100: the first one is gone. */
  lemma HundredAndFirstEvictsOldest(ms: seq<Message>)
    requires |ms| == MaxLog + 1
    ensures PushedAll([], ms) == ms[1..] && |PushedAll([], ms)| == MaxLog
  {
    PushedAllKeepsNewest([], ms);
    assert [] + ms == ms;
  }

  function Recent(now: int): Message -> bool
  {
    (m: Message) => m.timestamp > now - DayMs
  }

  function OtherId(messageId: string): Message -> bool
  {
    (m: Message) => m.messageId != messageId
  }

  /** The log after the sweep at time `now`: the messages stamped less than a day before `now`, in order. */
  function KeepRecent(log: seq<Message>, now: int): seq<Message>
  {
    Seqs.Filter(log, Recent(now))
  }

  /** The log after `deleteMessage`: the messages whose id is not `messageId`, in order. */
  function WithoutId(log: seq<Message>, messageId: string): seq<Message>
  {
    Seqs.Filter(log, OtherId(messageId))
  }

  /** The sweep keeps, in order and with their multiplicity, exactly the messages stamped after
      `now - DayMs`. */
  lemma KeepRecentSpec(log: seq<Message>, now: int)
    ensures |KeepRecent(log, now)| <= |log|
    ensures Seqs.IsSubsequence(KeepRecent(log, now), log)
    ensures forall m :: m in KeepRecent(log, now) ==> m.timestamp > now - DayMs
    ensures forall m :: multiset(KeepRecent(log, now))[m] == if m.timestamp > now - DayMs then multiset(log)[m] else 0
  {
    Seqs.FilterIsSubsequence(log, Recent(now));
    forall m ensures multiset(KeepRecent(log, now))[m] == if m.timestamp > now - DayMs then multiset(log)[m] else 0 {
      Seqs.FilterCount(log, Recent(now), m);
    }
  }

  /** Deleting by id removes every entry carrying that id and keeps all others, in order. */
  lemma WithoutIdSpec(log: seq<Message>, messageId: string)
    ensures Seqs.IsSubsequence(WithoutId(log, messageId), log)
    ensures forall m :: m in WithoutId(log, messageId) ==> m.messageId != messageId
    ensures forall m :: multiset(WithoutId(log, messageId))[m] == if m.messageId != messageId then multiset(log)[m] else 0
  {
    Seqs.FilterIsSubsequence(log, OtherId(messageId));
    forall m ensures multiset(WithoutId(log, messageId))[m] == if m.messageId != messageId then multiset(log)[m] else 0 {
      Seqs.FilterCount(log, OtherId(messageId), m);
    }
  }

  /** A second sweep at the same time changes nothing. */
  lemma KeepRecentIdempotent(log: seq<Message>, now: int)
    ensures KeepRecent(KeepRecent(log, now), now) == KeepRecent(log, now)
  {
    var once := KeepRecent(log, now);
    forall i | 0 <= i < |once| ensures Recent(now)(once[i]) {
      assert once[i] in once;
    }
    Seqs.FilterKeepsAll(once, Recent(now));
  }

  /** The first entry of the log whose id is `messageId`, if there is one. */
  function FindById(log: seq<Message>, messageId: string): (r: Option<Message>)
    ensures r.None? <==> forall i :: 0 <= i < |log| ==> log[i].messageId != messageId
    ensures r.Some? ==> exists i :: 0 <= i < |log| && log[i] == r.value && r.value.messageId == messageId
                                   && forall j :: 0 <= j < i ==> log[j].messageId != messageId
  {
    if log == [] then None
    else if log[0].messageId == messageId then Some(log[0])
    else
      var r := FindById(log[1..], messageId);
      assert r.Some? ==> exists i :: 0 <= i < |log| - 1 && log[1..][i] == r.value && r.value.messageId == messageId
                                     && forall j :: 0 <= j < i ==> log[1..][j].messageId != messageId;
      r
  }
}
