/** The room directory (`helpers.getRoomList`) and the pieces of the per-room user view that
    `updateRoomUsers` broadcasts. */
module Rooms {
  import opened Wrappers

  /** The room every server starts with (`rooms: ["Lobby"]`). */
  const Lobby := "Lobby"

  /** One entry of the `update_rooms` broadcast. */
  datatype RoomInfo = RoomInfo(name: string, hasPassword: bool, owner: Option<string>)

  /** The owner the directory shows for `r`: a missing creator, an `undefined` one and the empty
      nickname (falsy) all read as no owner. */
  function ListedOwner(creators: map<string, Option<string>>, r: string): (o: Option<string>)
    ensures o.Some? <==> r in creators && creators[r].Some? && creators[r].value != ""
    ensures o.Some? ==> o == creators[r]
  {
    if r in creators && creators[r].Some? && creators[r].value != "" then creators[r] else None
  }

  /** `helpers.getRoomList()`: one entry per room, in the order of `state.rooms`. */
  function RoomList(rooms: seq<string>, passwords: map<string, string>, creators: map<string, Option<string>>): (list: seq<RoomInfo>)
    ensures |list| == |rooms|
    ensures forall i :: 0 <= i < |rooms| ==> list[i].name == rooms[i]
    ensures forall i :: 0 <= i < |rooms| ==> (list[i].hasPassword <==> rooms[i] in passwords && passwords[rooms[i]] != "")
    ensures forall i :: 0 <= i < |rooms| ==> list[i].owner == ListedOwner(creators, rooms[i])
  {
    if rooms == [] then []
    else
      var r := rooms[0];
      [RoomInfo(r, r in passwords && passwords[r] != "", ListedOwner(creators, r))] + RoomList(rooms[1..], passwords, creators)
  }

  /** While "Lobby" is a room without password or creator, the directory lists it as an open,
      ownerless room. */
  lemma {:induction false} LobbyListed(rooms: seq<string>, passwords: map<string, string>, creators: map<string, Option<string>>)
    requires Lobby in rooms && Lobby !in passwords && Lobby !in creators
    ensures RoomInfo(Lobby, false, None) in RoomList(rooms, passwords, creators)
  {
    var i :| 0 <= i < |rooms| && rooms[i] == Lobby;
    assert RoomList(rooms, passwords, creators)[i] == RoomInfo(Lobby, false, None);
  }

  /** The `users` of the view: one entry per member, its nickname, or `undefined` for a member
      without nickname. */
  function MemberNicks(members: seq<string>, nicks: map<string, string>): (r: seq<Option<string>>)
    ensures |r| == |members|
    ensures forall i :: 0 <= i < |members| ==> r[i] == if members[i] in nicks then Some(nicks[members[i]]) else None
  {
    if members == [] then []
    else [if members[0] in nicks then Some(nicks[members[0]]) else None] + MemberNicks(members[1..], nicks)
  }

  /** The `bannedUsers` of the view: the nicknames of banned connections, skipping those whose
      nickname is missing or empty. */
  function BannedNicks(bans: seq<string>, nicks: map<string, string>): (r: seq<string>)
    ensures |r| <= |bans|
    ensures forall n :: n in r ==> n != ""
    ensures forall i :: 0 <= i < |bans| && bans[i] in nicks && nicks[bans[i]] != "" ==> nicks[bans[i]] in r
    ensures forall n :: n in r ==> exists i :: 0 <= i < |bans| && bans[i] in nicks && nicks[bans[i]] == n
  {
    if bans == [] then []
    else
      var rest := BannedNicks(bans[1..], nicks);
      assert forall n :: n in rest ==> exists i :: 0 <= i < |bans| && bans[i] in nicks && nicks[bans[i]] == n by {
        forall n | n in rest ensures exists i :: 0 <= i < |bans| && bans[i] in nicks && nicks[bans[i]] == n {
          var j :| 0 <= j < |bans| - 1 && bans[1..][j] in nicks && nicks[bans[1..][j]] == n;
          assert bans[j + 1] == bans[1..][j];
        }
      }
      assert forall i :: 1 <= i < |bans| && bans[i] in nicks && nicks[bans[i]] != "" ==> nicks[bans[i]] in rest by {
        forall i | 1 <= i < |bans| && bans[i] in nicks && nicks[bans[i]] != "" ensures nicks[bans[i]] in rest {
          assert bans[1..][i - 1] == bans[i];
        }
      }
      (if bans[0] in nicks && nicks[bans[0]] != "" then [nicks[bans[0]]] else []) + rest
  }
}
