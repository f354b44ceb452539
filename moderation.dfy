/** The moderation ledger: kick records with expiry checked on read (`helpers.isUserKicked`),
    the kick fields of the user view, and the room-owner check shared by the handlers. */
module Moderation {
  import opened Wrappers
  import opened Rooms

  // Times are in milliseconds; a minute, `60 * 1000`, is written as the literal 60000 so that
  // the arithmetic on it stays linear.

  /** Longest kick `kick_user` accepts, in minutes (one day). */
  const MaxKickMinutes := 1440

  /** What `isUserKicked` returns: `false`, or the whole minutes of the kick still to run. */
  datatype KickCheck = NotKicked | KickedFor(minutes: int)

  /** The minutes left of `ms` milliseconds, rounded up to a whole minute. */
  function MinutesLeft(ms: int): (r: int)
    ensures (r - 1) * 60000 < ms <= r * 60000
  {
    -((-ms) / 60000)
  }

  lemma MinutesLeftPositive(ms: int)
    requires ms > 0
    ensures MinutesLeft(ms) >= 1
  {
  }

  /** The kick records of `room` hold an entry for the nickname; a missing nickname has none. */
  predicate HasKick(kicks: map<string, map<string, int>>, room: string, nick: Option<string>)
  {
    nick.Some? && room in kicks && nick.value in kicks[room]
  }

  /** The value `isUserKicked(nickname, room)` returns at time `now`. */
  function KickStatus(kicks: map<string, map<string, int>>, room: string, nick: Option<string>, now: int): (r: KickCheck)
    ensures r.KickedFor? <==> HasKick(kicks, room, nick) && now < kicks[room][nick.value]
    ensures r.KickedFor? ==> r.minutes >= 1
    ensures r.KickedFor? ==> (r.minutes - 1) * 60000 < kicks[room][nick.value] - now <= r.minutes * 60000
  {
    if !HasKick(kicks, room, nick) then NotKicked
    else
      var expiration := kicks[room][nick.value];
      if now >= expiration then NotKicked else KickedFor(MinutesLeft(expiration - now))
  }

  /** The kick records after `isUserKicked(nickname, room)` at time `now`: the checked record is
      deleted if it has expired, and nothing else changes. */
  function ExpireKick(kicks: map<string, map<string, int>>, room: string, nick: Option<string>, now: int): (r: map<string, map<string, int>>)
    ensures r.Keys == kicks.Keys
    ensures forall rm, n :: rm in kicks && n in kicks[rm] ==>
              (n in r[rm] <==> !(rm == room && nick == Some(n) && now >= kicks[rm][n]))
    ensures forall rm, n :: rm in r && n in r[rm] ==> n in kicks[rm] && r[rm][n] == kicks[rm][n]
  {
    if HasKick(kicks, room, nick) && now >= kicks[room][nick.value] then kicks[room := kicks[room] - {nick.value}]
    else kicks
  }

  /** The kick records of `room`, empty when it has none. */
  function KicksAt(kicks: map<string, map<string, int>>, room: string): map<string, int>
  {
    if room in kicks then kicks[room] else map[]
  }

  /** The records after `kick_user` stores `expiration` for `user` in `room`. */
  function WithKick(kicks: map<string, map<string, int>>, room: string, user: string, expiration: int): map<string, map<string, int>>
  {
    kicks[room := KicksAt(kicks, room)[user := expiration]]
  }

  /** A kick of `duration` minutes recorded at `now` keeps `user` out of `room` exactly until
      `now + duration` minutes, and reports at most `duration` minutes left while it lasts. */
  lemma KickLastsItsDuration(kicks: map<string, map<string, int>>, room: string, user: string, now: int, duration: int, later: int)
    requires 1 <= duration <= MaxKickMinutes && now <= later
    ensures var status := KickStatus(WithKick(kicks, room, user, now + duration * 60000), room, Some(user), later);
            && (status.KickedFor? <==> later < now + duration * 60000)
            && (status.KickedFor? ==> status.minutes <= duration)
  {
  }

  /** The `kickedUsers` of the user view: the records of `room`'s map that have not expired. */
  function ActiveKicks(roomKicks: map<string, int>, now: int): map<string, int>
  {
    map n | n in roomKicks && now < roomKicks[n] :: roomKicks[n]
  }

  /** The view lists a nickname as kicked exactly when `isUserKicked` would refuse it. */
  lemma ActiveKicksAgree(kicks: map<string, map<string, int>>, room: string, nick: string, now: int)
    ensures nick in ActiveKicks(KicksAt(kicks, room), now) <==> KickStatus(kicks, room, Some(nick), now).KickedFor?
  {
  }

  /** The creator recorded for `room`; no record reads as `undefined`. */
  function OwnerOf(creators: map<string, Option<string>>, room: string): Option<string>
  {
    if room in creators then creators[room] else None
  }

  /** The owner test exactly as the server writes it: strict equality of the recorded creator and
      the caller's nickname, where both sides may be `undefined`. */
  predicate IsOwnerAsWritten(creators: map<string, Option<string>>, room: string, nick: Option<string>)
  {
    OwnerOf(creators, room) == nick
  }

  /** As written, a connection that never set a nickname passes the owner test of every room
      without a creator record, "Lobby" first of all. */
  lemma NicklessPassesOwnerTestAsWritten(creators: map<string, Option<string>>)
    requires Lobby !in creators
    ensures IsOwnerAsWritten(creators, Lobby, None)
  {
  }

  /** The owner test as intended: the caller has a nickname and it is the recorded creator of
      `room`. It passes only where the test as written passes, and the two differ exactly when
      neither a nickname nor a creator is there to compare. */
  function IsOwner(creators: map<string, Option<string>>, room: string, nick: Option<string>): (r: bool)
    ensures r ==> IsOwnerAsWritten(creators, room, nick)
    ensures IsOwnerAsWritten(creators, room, nick) && !r <==> nick.None? && OwnerOf(creators, room).None?
  {
    nick.Some? && OwnerOf(creators, room) == nick
  }

  /** With the intended test nobody owns a room without a creator record, "Lobby" included. */
  lemma NoOwnerWithoutCreator(creators: map<string, Option<string>>, room: string, nick: Option<string>)
    requires room !in creators
    ensures !IsOwner(creators, room, nick)
  {
  }
}
