/** The room and session state engine of the chat server: the `state` record, its helpers that
    change it, and one method per socket event handler. Every handler returns the notifications it
    emits, in emission order; the clock (`Date.now()`) is the parameter `now`. */
module ChatServer {
  import opened Wrappers
  import Seqs
  import opened JsStrings
  import opened Messages
  import opened Rooms
  import opened Moderation
  import opened PrivateChats
  import opened Events

  /** The member lists after `sid` is dropped from the list of `room`; a missing list stays missing. */
  function RemoveMember(members: map<string, seq<string>>, room: string, sid: string): map<string, seq<string>>
  {
    if room in members then members[room := Seqs.Filter(members[room], Seqs.Except(sid))] else members
  }

  /** Removing `sid` from the member list of `room` keeps every other member, in order, and
      leaves the other rooms' lists and the set of lists alone. */
  lemma RemoveMemberSpec(members: map<string, seq<string>>, room: string, sid: string)
    ensures RemoveMember(members, room, sid).Keys == members.Keys
    ensures forall r :: r in members && r != room ==> RemoveMember(members, room, sid)[r] == members[r]
    ensures room in members ==> forall id :: id in RemoveMember(members, room, sid)[room] <==> id in members[room] && id != sid
    ensures room in members ==> Seqs.IsSubsequence(RemoveMember(members, room, sid)[room], members[room])
  {
    if room in members {
      Seqs.ExceptMembership(members[room], sid);
      Seqs.FilterIsSubsequence(members[room], Seqs.Except(sid));
    }
  }

  /** The member lists after `sid` is appended to the list of `room`, created empty when missing. */
  function Joined(members: map<string, seq<string>>, room: string, sid: string): map<string, seq<string>>
  {
    members[room := Seqs.ListAt(members, room) + [sid]]
  }

  /** The join history of `room`, empty when the room has none yet. */
  function HistoryAt(history: map<string, set<Option<string>>>, room: string): set<Option<string>>
  {
    if room in history then history[room] else {}
  }

  /** The loop of `cleanupMessages` over the entries of one store. */
  method SweepLogs(logs: map<string, seq<Message>>, now: int) returns (swept: map<string, seq<Message>>)
    ensures swept.Keys == logs.Keys
    ensures forall k :: k in logs ==> swept[k] == KeepRecent(logs[k], now)
  {
    swept := logs;
    var pending := logs.Keys;
    while pending != {}
      invariant pending <= logs.Keys && swept.Keys == logs.Keys
      invariant forall k :: k in logs ==> swept[k] == if k in pending then logs[k] else KeepRecent(logs[k], now)
      decreases pending
    {
      var k :| k in pending;
      swept := swept[k := KeepRecent(swept[k], now)];
      pending := pending - {k};
    }
  }

  /** The room directory's invariant: "Lobby" is listed and has no creator, room names are
      unique, every creator record belongs to a listed room, and every stored password belongs to
      a room with a creator record and is not blank. */
  ghost predicate DirectoryValid(rooms: seq<string>, creators: map<string, Option<string>>, passwords: map<string, string>)
  {
    && Lobby in rooms
    && Seqs.Distinct(rooms)
    && Lobby !in creators
    && (forall r :: r in creators ==> r in rooms)
    && (forall r :: r in passwords ==> r in creators && Trim(passwords[r]) != "")
  }

  /** Deleting a room other than "Lobby" from the directory keeps it valid. */
  lemma DeletionKeepsDirectoryValid(rooms: seq<string>, creators: map<string, Option<string>>, passwords: map<string, string>,
                                    room: string)
    requires DirectoryValid(rooms, creators, passwords) && room != Lobby
    ensures DirectoryValid(Seqs.Filter(rooms, Seqs.Except(room)), creators - {room}, passwords - {room})
  {
    Seqs.ExceptMembership(rooms, room);
    Seqs.FilterDistinct(rooms, Seqs.Except(room));
    forall r | r in passwords - {room} ensures r in creators - {room} && Trim((passwords - {room})[r]) != "" {
      assert (passwords - {room})[r] == passwords[r];
    }
  }

  class Engine {
    // The fields of `state`.
    var rooms: seq<string>
    var usersByRoom: map<string, seq<string>>
    var socketsToNicks: map<string, string>
    var nicksToSockets: map<string, string>
    var roomPasswords: map<string, string>
    var roomCreators: map<string, Option<string>>
    var bannedUsers: map<string, seq<string>>
    var kickedUsers: map<string, map<string, int>>
    var userRoomHistory: map<string, set<Option<string>>>
    var roomMessages: map<string, seq<Message>>
    var privateMessages: map<string, seq<Message>>
    // What the server keeps on the socket objects: `socket.currentRoom` of each connection (absent
    // when undefined or null) and the connections that are open (`io.sockets.sockets`).
    var currentRoom: map<string, string>
    var connected: set<string>

    /** The invariant every handler keeps: "Lobby" exists and has no creator, room names are
        unique, every creator and password record belongs to a listed room, a stored password is
        never blank, and no log holds more than `MaxLog` messages. */
    ghost predicate Valid()
      reads this`rooms, this`roomCreators, this`roomPasswords, this`roomMessages, this`privateMessages
    {
      && DirectoryValid(rooms, roomCreators, roomPasswords)
      && LogsCapped(roomMessages)
      && LogsCapped(privateMessages)
    }

    constructor ()
      ensures Valid()
      ensures rooms == [Lobby] && usersByRoom == map[] && socketsToNicks == map[] && nicksToSockets == map[]
      ensures roomPasswords == map[] && roomCreators == map[] && bannedUsers == map[] && kickedUsers == map[]
      ensures userRoomHistory == map[] && roomMessages == map[] && privateMessages == map[]
      ensures currentRoom == map[] && connected == {}
    {
      rooms := [Lobby];
      usersByRoom, socketsToNicks, nicksToSockets := map[], map[], map[];
      roomPasswords, roomCreators, bannedUsers, kickedUsers := map[], map[], map[], map[];
      userRoomHistory, roomMessages, privateMessages := map[], map[], map[];
      currentRoom, connected := map[], {};
    }

    /** `getUserNickname()` for the connection `sid`. */
    function NickOf(sid: string): Option<string>
      reads this
    {
      if sid in socketsToNicks then Some(socketsToNicks[sid]) else None
    }

    /** The connection a nickname maps to, when the mapping exists and is not the empty string. */
    function SocketOf(userId: string): Option<string>
      reads this
    {
      if userId in nicksToSockets && nicksToSockets[userId] != "" then Some(nicksToSockets[userId]) else None
    }

    /** The connection is in a room whose name is not empty (a truthy current room). */
    predicate InRoom(sid: string)
      reads this
    {
      sid in currentRoom && currentRoom[sid] != ""
    }

    /** The store of messages of the given kind. */
    function Logs(kind: Kind): map<string, seq<Message>>
      reads this
    {
      if kind == RoomKind then roomMessages else privateMessages
    }

    /** The room directory broadcast to every connection (`emitRoomUpdate`). */
    function RoomUpdate(): Emit
      reads this
    {
      Emit(ToEveryone, UpdateRooms(RoomList(rooms, roomPasswords, roomCreators)))
    }

    /** `updateRoomUsers(room)` computed with the member lists `members`: nothing when the room
        has no member list, otherwise the room's view sent to the room. */
    function UsersUpdate(room: string, members: map<string, seq<string>>, now: int): seq<Emit>
      reads this
    {
      if room !in members then []
      else [Emit(ToRoom(room), UpdateUsers(MemberNicks(members[room], socketsToNicks), OwnerOf(roomCreators, room),
                                           BannedNicks(Seqs.ListAt(bannedUsers, room), socketsToNicks),
                                           ActiveKicks(KicksAt(kickedUsers, room), now)))]
    }

    /** The ban list of `room` holds the connection id `sid`. */
    predicate IsBanned(sid: string, room: string)
      reads this
    {
      sid in Seqs.ListAt(bannedUsers, room)
    }

    /** The password refusal of `join_room`: the caller does not own the room, the room has a stored
        password, and the password given (if any) is a different one. */
    predicate PasswordRefuses(sid: string, room: string, password: Option<string>)
      reads this
    {
      !IsOwner(roomCreators, room, NickOf(sid)) && room in roomPasswords && Some(roomPasswords[room]) != password
    }

    /** None of the three refusals of `join_room` applies at time `now`. */
    predicate JoinAdmitted(sid: string, room: string, password: Option<string>, now: int)
      reads this
    {
      !IsBanned(sid, room) && KickStatus(kickedUsers, room, NickOf(sid), now).NotKicked? && !PasswordRefuses(sid, room, password)
    }

    /** The target checks of `kick_user` and `ban_user`: the nickname maps to a connection and is
        not the room's owner. */
    predicate Removable(userId: string, room: string)
      reads this
    {
      SocketOf(userId).Some? && Some(userId) != OwnerOf(roomCreators, room)
    }

    /** Under the invariant an owner's room is a listed room other than "Lobby". */
    lemma OwnedRoomIsListed(room: string, nick: Option<string>)
      requires Valid() && IsOwner(roomCreators, room, nick)
      ensures room in rooms && room != Lobby
    {
    }

    /** Under the invariant nobody owns "Lobby", whatever nickname, if any, the caller has. */
    lemma LobbyHasNoOwner(nick: Option<string>)
      requires Valid()
      ensures !IsOwner(roomCreators, Lobby, nick)
    {
    }

    /** Under the invariant the directory shows "Lobby" without owner, and shows as a room's owner
        exactly the non-empty nicknames that pass the owner test for it. */
    lemma DirectoryShowsOwners(i: int)
      requires Valid() && 0 <= i < |rooms|
      ensures rooms[i] == Lobby ==> RoomList(rooms, roomPasswords, roomCreators)[i].owner.None?
      ensures forall n :: RoomList(rooms, roomPasswords, roomCreators)[i].owner == Some(n) <==> n != "" && IsOwner(roomCreators, rooms[i], Some(n))
    {
    }

    /** Under the invariant the directory's `hasPassword` is exactly "a password is stored". */
    lemma DirectoryShowsPasswords(i: int)
      requires Valid() && 0 <= i < |rooms|
      ensures RoomList(rooms, roomPasswords, roomCreators)[i].hasPassword <==> rooms[i] in roomPasswords
    {
    }

    // --- helpers ---

    /** `helpers.addMessage(type, id, message)` */
    method AddMessage(kind: Kind, key: string, m: Message)
      requires Valid()
      modifies this`roomMessages, this`privateMessages
      ensures Valid()
      ensures Logs(kind) == old(Logs(kind))[key := Pushed(Seqs.ListAt(old(Logs(kind)), key), m)]
      ensures kind == RoomKind ==> privateMessages == old(privateMessages)
      ensures kind == PrivateKind ==> roomMessages == old(roomMessages)
    {
      var logs := Logs(kind);
      if key !in logs {
        logs := logs[key := []];
      }
      var messages := logs[key];
      messages := messages + [m];
      if |messages| > MaxLog {
        messages := messages[1..];
      }
      assert messages == Pushed(Seqs.ListAt(Logs(kind), key), m);
      assert |messages| <= MaxLog;
      logs := logs[key := messages];
      assert LogsCapped(logs);
      if kind == RoomKind {
        roomMessages := logs;
      } else {
        privateMessages := logs;
      }
    }

    /** `helpers.isUserKicked(nickname, room)` at time `now`, deleting the record it finds expired. */
    method IsUserKicked(nick: Option<string>, room: string, now: int) returns (r: KickCheck)
      modifies this`kickedUsers
      ensures r == KickStatus(old(kickedUsers), room, nick, now)
      ensures kickedUsers == ExpireKick(old(kickedUsers), room, nick, now)
    {
      if nick.None? || room !in kickedUsers || nick.value !in kickedUsers[room] {
        return NotKicked;
      }
      var expiration := kickedUsers[room][nick.value];
      if now >= expiration {
        kickedUsers := kickedUsers[room := kickedUsers[room] - {nick.value}];
        return NotKicked;
      }
      return KickedFor(MinutesLeft(expiration - now));
    }

    /** `helpers.deleteMessage(type, id, messageId)` */
    method DeleteMessage(kind: Kind, key: string, messageId: string)
      requires Valid()
      modifies this`roomMessages, this`privateMessages
      ensures Valid()
      ensures Logs(kind) == if key in old(Logs(kind)) then old(Logs(kind))[key := WithoutId(old(Logs(kind))[key], messageId)] else old(Logs(kind))
      ensures kind == RoomKind ==> privateMessages == old(privateMessages)
      ensures kind == PrivateKind ==> roomMessages == old(roomMessages)
    {
      var logs := Logs(kind);
      if key in logs {
        logs := logs[key := WithoutId(logs[key], messageId)];
        if kind == RoomKind {
          roomMessages := logs;
        } else {
          privateMessages := logs;
        }
      }
    }

    /** `helpers.cleanupMessages()` run at time `now`: every log of both stores keeps only the
        messages of the last day. */
    method CleanupMessages(now: int)
      requires Valid()
      modifies this`roomMessages, this`privateMessages
      ensures Valid()
      ensures roomMessages.Keys == old(roomMessages).Keys && privateMessages.Keys == old(privateMessages).Keys
      ensures forall k :: k in roomMessages ==> roomMessages[k] == KeepRecent(old(roomMessages)[k], now)
      ensures forall k :: k in privateMessages ==> privateMessages[k] == KeepRecent(old(privateMessages)[k], now)
      ensures forall kind, k, m :: k in Logs(kind) && m in Logs(kind)[k] ==> m.timestamp > now - DayMs
      ensures forall k :: k in roomMessages ==> Seqs.IsSubsequence(roomMessages[k], old(roomMessages)[k])
      ensures forall k :: k in privateMessages ==> Seqs.IsSubsequence(privateMessages[k], old(privateMessages)[k])
    {
      roomMessages := SweepLogs(roomMessages, now);
      privateMessages := SweepLogs(privateMessages, now);
      forall k | k in old(roomMessages) ensures Seqs.IsSubsequence(roomMessages[k], old(roomMessages)[k]) {
        KeepRecentSpec(old(roomMessages)[k], now);
      }
      forall k | k in old(privateMessages) ensures Seqs.IsSubsequence(privateMessages[k], old(privateMessages)[k]) {
        KeepRecentSpec(old(privateMessages)[k], now);
      }
    }

    // --- event handlers; `sid` is the connection the event arrives on ---

    /** `io.sockets.on("connection")`: a new socket object (no current room) and the room
        directory sent to everyone. */
    method OnConnection(sid: string) returns (out: seq<Emit>)
      requires Valid()
      modifies this`connected, this`currentRoom
      ensures Valid()
      ensures connected == old(connected) + {sid} && currentRoom == old(currentRoom) - {sid}
      ensures out == [RoomUpdate()]
    {
      connected := connected + {sid};
      currentRoom := currentRoom - {sid};
      out := [RoomUpdate()];
    }

    /** `set_nickname`: records both directions of the nickname mapping (the last claim of a
        nickname wins) and reports the caller's recent private chats. */
    method OnSetNickname(sid: string, nickname: string, now: int) returns (out: seq<Emit>)
      requires Valid()
      modifies this`socketsToNicks, this`nicksToSockets
      ensures Valid()
      ensures socketsToNicks == old(socketsToNicks)[sid := nickname]
      ensures nicksToSockets == old(nicksToSockets)[nickname := sid]
      ensures NickOf(sid) == Some(nickname)
      ensures out == [Emit(ToSocket(sid), NicknameSet(ChatsFor(nickname, privateMessages, now)))]
    {
      socketsToNicks := socketsToNicks[sid := nickname];
      nicksToSockets := nicksToSockets[nickname := sid];
      out := [Emit(ToSocket(sid), NicknameSet(ChatsFor(nickname, privateMessages, now)))];
    }

    /** `message_to_server`: the message is appended to the room's log (whatever the room and
        whoever the sender) and relayed to the room. */
    method OnMessageToServer(sid: string, room: string, text: string, replyTo: Option<string>, messageId: string, now: int)
      returns (out: seq<Emit>)
      requires Valid()
      modifies this`roomMessages, this`privateMessages
      ensures Valid()
      ensures var m := RoomMsg(NickOf(sid), text, now, messageId, replyTo);
              roomMessages == old(roomMessages)[room := Pushed(Seqs.ListAt(old(roomMessages), room), m)]
      ensures privateMessages == old(privateMessages)
      ensures out == [Emit(ToRoom(room), MessageToClient(NickOf(sid), text, messageId, replyTo))]
    {
      var nickname := NickOf(sid);
      var m := RoomMsg(nickname, text, now, messageId, replyTo);
      AddMessage(RoomKind, room, m);
      out := [Emit(ToRoom(room), MessageToClient(nickname, text, messageId, replyTo))];
    }

    /** `create_room`: refused when the name is empty or taken; otherwise the room is listed last,
        the caller recorded as its creator and a non-blank password stored. */
    method OnCreateRoom(sid: string, room: string, password: Option<string>) returns (out: seq<Emit>)
      requires Valid()
      modifies this`rooms, this`roomPasswords, this`roomCreators
      ensures Valid()
      ensures room == "" || room in old(rooms) ==>
                && out == [Emit(ToSocket(sid), ErrorMessage(InvalidOrDuplicateRoomName))]
                && rooms == old(rooms) && roomPasswords == old(roomPasswords) && roomCreators == old(roomCreators)
      ensures room != "" && room !in old(rooms) ==>
                && rooms == old(rooms) + [room]
                && roomCreators == old(roomCreators)[room := NickOf(sid)]
                && roomPasswords == (if password.Some? && Trim(password.value) != "" then old(roomPasswords)[room := password.value]
                                     else old(roomPasswords))
                && out == [RoomUpdate()]
    {
      if room == "" || room in rooms {
        return [Emit(ToSocket(sid), ErrorMessage(InvalidOrDuplicateRoomName))];
      }
      var nickname := NickOf(sid);
      if password.Some? && Trim(password.value) != "" {
        roomPasswords := roomPasswords[room := password.value];
      }
      roomCreators := roomCreators[room := nickname];
      Seqs.AppendDistinct(rooms, room);
      rooms := rooms + [room];
      out := [RoomUpdate()];
    }

    /** `delete_room`: only the owner may delete, never "Lobby". The room leaves the directory
        with its member list, password, creator and ban list; its kick records, join history and
        messages stay. A refusal is silent. */
    method OnDeleteRoom(sid: string, room: string) returns (out: seq<Emit>)
      requires Valid()
      modifies this`rooms, this`usersByRoom, this`roomPasswords, this`roomCreators, this`bannedUsers
      ensures Valid()
      ensures room == Lobby || !old(IsOwner(roomCreators, room, NickOf(sid))) ==>
                && out == [] && rooms == old(rooms) && usersByRoom == old(usersByRoom) && roomPasswords == old(roomPasswords)
                && roomCreators == old(roomCreators) && bannedUsers == old(bannedUsers)
      ensures room != Lobby && old(IsOwner(roomCreators, room, NickOf(sid))) ==>
                && rooms == Seqs.Filter(old(rooms), Seqs.Except(room))
                && usersByRoom == old(usersByRoom) - {room}
                && roomPasswords == old(roomPasswords) - {room}
                && roomCreators == old(roomCreators) - {room}
                && bannedUsers == old(bannedUsers) - {room}
                && out == [Emit(ToRoom(room), RoomDeleted(room)), RoomUpdate()]
      ensures room != Lobby && old(IsOwner(roomCreators, room, NickOf(sid))) ==>
                forall r :: r in rooms <==> r in old(rooms) && r != room
    {
      if room != Lobby && IsOwner(roomCreators, room, NickOf(sid)) {
        DeletionKeepsDirectoryValid(rooms, roomCreators, roomPasswords, room);
        Seqs.ExceptMembership(rooms, room);
        rooms := Seqs.Filter(rooms, Seqs.Except(room));
        roomCreators := roomCreators - {room};
        roomPasswords := roomPasswords - {room};
        usersByRoom := usersByRoom - {room};
        bannedUsers := bannedUsers - {room};
        out := [Emit(ToRoom(room), RoomDeleted(room)), RoomUpdate()];
      } else {
        out := [];
      }
    }

    /** The three refusals of `join_room` in their order: the ban list, then `isUserKicked`
        (which deletes an expired record of the caller's nickname), then the password, which the
        room's owner need not give. */
    method AdmitJoin(sid: string, room: string, password: Option<string>, now: int) returns (admitted: bool)
      modifies this`kickedUsers
      ensures admitted == old(JoinAdmitted(sid, room, password, now))
      ensures kickedUsers == if IsBanned(sid, room) then old(kickedUsers) else ExpireKick(old(kickedUsers), room, NickOf(sid), now)
    {
      if IsBanned(sid, room) {
        return false;
      }
      var kicked := IsUserKicked(NickOf(sid), room, now);
      admitted := kicked.NotKicked? && !PasswordRefuses(sid, room, password);
    }

    /** The admitted part of `join_room`: the connection leaves the member list of the room it is
        in, is appended to `room`'s list, and its nickname is added to the room's join history;
        the room is greeted only on the nickname's first join. */
    method EnterRoom(sid: string, room: string, now: int) returns (out: seq<Emit>)
      modifies this`usersByRoom, this`currentRoom, this`userRoomHistory
      ensures var left := if old(InRoom(sid)) then RemoveMember(old(usersByRoom), old(currentRoom[sid]), sid) else old(usersByRoom);
              var firstJoin := NickOf(sid) !in HistoryAt(old(userRoomHistory), room);
              && usersByRoom == Joined(left, room, sid)
              && currentRoom == old(currentRoom)[sid := room]
              && userRoomHistory == old(userRoomHistory)[room := HistoryAt(old(userRoomHistory), room) + {NickOf(sid)}]
              && out == (if old(InRoom(sid)) then UsersUpdate(old(currentRoom[sid]), left, now) else [])
                        + [Emit(ToSocket(sid), JoinRoomSuccess(room, Seqs.ListAt(roomMessages, room)))]
                        + (if firstJoin then [Emit(ToRoom(room), SystemLine(UserJoined(NickOf(sid))))] else [])
                        + [RoomUpdate()] + UsersUpdate(room, usersByRoom, now)
      ensures usersByRoom[room][|usersByRoom[room]| - 1] == sid && NickOf(sid) in userRoomHistory[room]
      ensures forall r :: r in old(userRoomHistory) ==> r in userRoomHistory && old(userRoomHistory)[r] <= userRoomHistory[r]
    {
      var nickname := NickOf(sid);
      out := [];
      if InRoom(sid) {
        var previous := currentRoom[sid];
        usersByRoom := RemoveMember(usersByRoom, previous, sid);
        out := UsersUpdate(previous, usersByRoom, now);
      }
      currentRoom := currentRoom[sid := room];
      usersByRoom := Joined(usersByRoom, room, sid);
      var history := HistoryAt(userRoomHistory, room);
      var firstJoin := nickname !in history;
      userRoomHistory := userRoomHistory[room := history + {nickname}];
      out := out + [Emit(ToSocket(sid), JoinRoomSuccess(room, Seqs.ListAt(roomMessages, room)))];
      if firstJoin {
        out := out + [Emit(ToRoom(room), SystemLine(UserJoined(nickname)))];
      }
      out := out + [RoomUpdate()] + UsersUpdate(room, usersByRoom, now);
    }

    /** `join_room`: refused with "Cannot join room" unless admitted; then the room change. */
    method OnJoinRoom(sid: string, room: string, password: Option<string>, now: int) returns (out: seq<Emit>)
      requires Valid()
      modifies this`kickedUsers, this`usersByRoom, this`currentRoom, this`userRoomHistory
      ensures Valid()
      ensures kickedUsers == if IsBanned(sid, room) then old(kickedUsers) else ExpireKick(old(kickedUsers), room, NickOf(sid), now)
      ensures !old(JoinAdmitted(sid, room, password, now)) ==>
                && out == [Emit(ToSocket(sid), ErrorMessage(CannotJoinRoom))]
                && usersByRoom == old(usersByRoom) && currentRoom == old(currentRoom) && userRoomHistory == old(userRoomHistory)
      ensures old(JoinAdmitted(sid, room, password, now)) ==>
                var left := if old(InRoom(sid)) then RemoveMember(old(usersByRoom), old(currentRoom[sid]), sid) else old(usersByRoom);
                var firstJoin := NickOf(sid) !in HistoryAt(old(userRoomHistory), room);
                && usersByRoom == Joined(left, room, sid)
                && currentRoom == old(currentRoom)[sid := room]
                && userRoomHistory == old(userRoomHistory)[room := HistoryAt(old(userRoomHistory), room) + {NickOf(sid)}]
                && out == (if old(InRoom(sid)) then UsersUpdate(old(currentRoom[sid]), left, now) else [])
                          + [Emit(ToSocket(sid), JoinRoomSuccess(room, Seqs.ListAt(roomMessages, room)))]
                          + (if firstJoin then [Emit(ToRoom(room), SystemLine(UserJoined(NickOf(sid))))] else [])
                          + [RoomUpdate()] + UsersUpdate(room, usersByRoom, now)
                && usersByRoom[room][|usersByRoom[room]| - 1] == sid
                && NickOf(sid) in userRoomHistory[room]
      ensures forall r :: r in old(userRoomHistory) ==> r in userRoomHistory && old(userRoomHistory)[r] <= userRoomHistory[r]
    {
      var admitted := AdmitJoin(sid, room, password, now);
      if !admitted {
        return [Emit(ToSocket(sid), ErrorMessage(CannotJoinRoom))];
      }
      out := EnterRoom(sid, room, now);
    }

    /** `kick_user`: only the room's owner may kick, for 1 to 1440 minutes, a nickname that maps
        to a connection and is not the owner's. The kick record expires `duration` minutes from
        now; a live connection also loses its place in the room and is told. */
    method OnKickUser(sid: string, userId: string, room: string, duration: int, now: int) returns (out: seq<Emit>)
      requires Valid()
      modifies this`kickedUsers, this`usersByRoom, this`currentRoom
      ensures Valid()
      ensures !IsOwner(roomCreators, room, NickOf(sid)) || duration < 1 || duration > MaxKickMinutes ==>
                && out == [Emit(ToSocket(sid), ErrorMessage(InvalidKickRequest))]
                && kickedUsers == old(kickedUsers) && usersByRoom == old(usersByRoom) && currentRoom == old(currentRoom)
      ensures IsOwner(roomCreators, room, NickOf(sid)) && 1 <= duration <= MaxKickMinutes && !Removable(userId, room) ==>
                && out == [Emit(ToSocket(sid), ErrorMessage(CannotKickUser))]
                && kickedUsers == old(kickedUsers) && usersByRoom == old(usersByRoom) && currentRoom == old(currentRoom)
      ensures IsOwner(roomCreators, room, NickOf(sid)) && 1 <= duration <= MaxKickMinutes && Removable(userId, room) ==>
                var target := SocketOf(userId).value;
                var expiration := now + duration * 60000;
                && kickedUsers == WithKick(old(kickedUsers), room, userId, expiration)
                && KickStatus(kickedUsers, room, Some(userId), now).KickedFor?
                && (target !in connected ==> out == [] && usersByRoom == old(usersByRoom) && currentRoom == old(currentRoom))
                && (target in connected ==>
                      && usersByRoom == RemoveMember(old(usersByRoom), room, target)
                      && currentRoom == (if target in old(currentRoom) && old(currentRoom)[target] == room
                                         then old(currentRoom) - {target} else old(currentRoom))
                      && out == UsersUpdate(room, usersByRoom, now)
                                + [Emit(ToSocket(target), Kicked(room, duration, expiration)),
                                   Emit(ToRoom(room), SystemLine(UserKicked(userId, duration)))])
    {
      if !IsOwner(roomCreators, room, NickOf(sid)) || duration < 1 || duration > MaxKickMinutes {
        return [Emit(ToSocket(sid), ErrorMessage(InvalidKickRequest))];
      }
      if !Removable(userId, room) {
        return [Emit(ToSocket(sid), ErrorMessage(CannotKickUser))];
      }
      var target := SocketOf(userId).value;
      var expiration := now + duration * 60000;
      KickLastsItsDuration(kickedUsers, room, userId, now, duration, now);
      kickedUsers := WithKick(kickedUsers, room, userId, expiration);
      out := [];
      if target in connected {
        if target in currentRoom && currentRoom[target] == room {
          currentRoom := currentRoom - {target};
        }
        usersByRoom := RemoveMember(usersByRoom, room, target);
        out := UsersUpdate(room, usersByRoom, now)
               + [Emit(ToSocket(target), Kicked(room, duration, expiration)),
                  Emit(ToRoom(room), SystemLine(UserKicked(userId, duration)))];
      }
    }

    /** `ban_user`: only the room's owner may ban a nickname that maps to a connection and is not
        the owner's. The connection id goes on the room's ban list; a live connection also loses
        its place in the room and is sent to "Lobby". */
    method OnBanUser(sid: string, userId: string, room: string, now: int) returns (out: seq<Emit>)
      requires Valid()
      modifies this`bannedUsers, this`usersByRoom, this`currentRoom
      ensures Valid()
      ensures !IsOwner(roomCreators, room, NickOf(sid)) ==>
                && out == [Emit(ToSocket(sid), ErrorMessage(OnlyOwnerCanBan))]
                && bannedUsers == old(bannedUsers) && usersByRoom == old(usersByRoom) && currentRoom == old(currentRoom)
      ensures IsOwner(roomCreators, room, NickOf(sid)) && !Removable(userId, room) ==>
                && out == [Emit(ToSocket(sid), ErrorMessage(CannotBanUser))]
                && bannedUsers == old(bannedUsers) && usersByRoom == old(usersByRoom) && currentRoom == old(currentRoom)
      ensures IsOwner(roomCreators, room, NickOf(sid)) && Removable(userId, room) ==>
                var target := SocketOf(userId).value;
                var wasThere := target in old(currentRoom) && old(currentRoom)[target] == room;
                && bannedUsers == old(bannedUsers)[room := Seqs.ListAt(old(bannedUsers), room) + [target]]
                && IsBanned(target, room)
                && (target !in connected ==> out == [] && usersByRoom == old(usersByRoom) && currentRoom == old(currentRoom))
                && (target in connected ==>
                      && usersByRoom == RemoveMember(old(usersByRoom), room, target)
                      && currentRoom == (if wasThere then old(currentRoom) - {target} else old(currentRoom))
                      && out == (if wasThere then [Emit(ToSocket(target), Banned(room))] else [])
                                + UsersUpdate(room, usersByRoom, now)
                                + [Emit(ToRoom(room), SystemLine(UserBanned(userId))),
                                   Emit(ToSocket(target), JoinRoomRequest(Lobby))])
    {
      if !IsOwner(roomCreators, room, NickOf(sid)) {
        return [Emit(ToSocket(sid), ErrorMessage(OnlyOwnerCanBan))];
      }
      if !Removable(userId, room) {
        return [Emit(ToSocket(sid), ErrorMessage(CannotBanUser))];
      }
      var target := SocketOf(userId).value;
      bannedUsers := bannedUsers[room := Seqs.ListAt(bannedUsers, room) + [target]];
      out := [];
      if target in connected {
        if target in currentRoom && currentRoom[target] == room {
          currentRoom := currentRoom - {target};
          out := [Emit(ToSocket(target), Banned(room))];
        }
        usersByRoom := RemoveMember(usersByRoom, room, target);
        out := out + UsersUpdate(room, usersByRoom, now)
               + [Emit(ToRoom(room), SystemLine(UserBanned(userId))), Emit(ToSocket(target), JoinRoomRequest(Lobby))];
      }
    }

    /** `unban_user`: the owner of a room with a ban list takes the connection id the nickname
        maps to off that list. The id is looked up now, so a ban of an earlier connection of the
        same nickname stays. Anything else is silent. */
    method OnUnbanUser(sid: string, userId: string, room: string, now: int) returns (out: seq<Emit>)
      requires Valid()
      modifies this`bannedUsers
      ensures Valid()
      ensures !IsOwner(roomCreators, room, NickOf(sid)) || room !in old(bannedUsers) ==>
                out == [] && bannedUsers == old(bannedUsers)
      ensures IsOwner(roomCreators, room, NickOf(sid)) && room in old(bannedUsers) ==>
                && bannedUsers == old(bannedUsers)[room := if userId in nicksToSockets
                                                         then Seqs.Filter(old(bannedUsers)[room], Seqs.Except(nicksToSockets[userId]))
                                                         else old(bannedUsers)[room]]
                && (userId in nicksToSockets ==> !IsBanned(nicksToSockets[userId], room))
                && (forall id :: IsBanned(id, room) <==> old(IsBanned(id, room)) && (userId in nicksToSockets ==> id != nicksToSockets[userId]))
                && out == [Emit(ToRoom(room), SystemLine(UserUnbanned(userId)))] + UsersUpdate(room, usersByRoom, now)
    {
      out := [];
      if IsOwner(roomCreators, room, NickOf(sid)) && room in bannedUsers {
        var bannedList := bannedUsers[room];
        if userId in nicksToSockets {
          Seqs.ExceptMembership(bannedList, nicksToSockets[userId]);
          bannedUsers := bannedUsers[room := Seqs.Filter(bannedList, Seqs.Except(nicksToSockets[userId]))];
        }
        out := [Emit(ToRoom(room), SystemLine(UserUnbanned(userId)))] + UsersUpdate(room, usersByRoom, now);
      }
    }

    /** `unkick_user`: the owner of a room with kick records deletes the nickname's record, so
        the nickname may join again at once. Anything else is silent. */
    method OnUnkickUser(sid: string, userId: string, room: string, now: int) returns (out: seq<Emit>)
      requires Valid()
      modifies this`kickedUsers
      ensures Valid()
      ensures !IsOwner(roomCreators, room, NickOf(sid)) || room !in old(kickedUsers) ==>
                out == [] && kickedUsers == old(kickedUsers)
      ensures IsOwner(roomCreators, room, NickOf(sid)) && room in old(kickedUsers) ==>
                && kickedUsers == old(kickedUsers)[room := old(kickedUsers)[room] - {userId}]
                && KickStatus(kickedUsers, room, Some(userId), now).NotKicked?
                && out == [Emit(ToRoom(room), SystemLine(UserUnkicked(userId)))] + UsersUpdate(room, usersByRoom, now)
    {
      out := [];
      if IsOwner(roomCreators, room, NickOf(sid)) && room in kickedUsers {
        kickedUsers := kickedUsers[room := kickedUsers[room] - {userId}];
        out := [Emit(ToRoom(room), SystemLine(UserUnkicked(userId)))] + UsersUpdate(room, usersByRoom, now);
      }
    }

    /** `private_message`: refused when the recipient's nickname maps to no connection; otherwise
        the message is appended to the pair's chat log and sent to both connections. */
    method OnPrivateMessage(sid: string, to: string, text: string, replyTo: Option<string>, messageId: string, now: int)
      returns (out: seq<Emit>)
      requires Valid()
      modifies this`roomMessages, this`privateMessages
      ensures Valid()
      ensures roomMessages == old(roomMessages)
      ensures SocketOf(to).None? ==>
                out == [Emit(ToSocket(sid), ErrorMessage(UserNotFoundOrOffline))] && privateMessages == old(privateMessages)
      ensures SocketOf(to).Some? ==>
                var m := PrivateMsg(NickOf(sid), to, text, now, messageId, replyTo);
                var key := ChatKeyOf(NickOf(sid), to);
                && privateMessages == old(privateMessages)[key := Pushed(Seqs.ListAt(old(privateMessages), key), m)]
                && out == [Emit(ToSocket(SocketOf(to).value), PrivateMessage(m)), Emit(ToSocket(sid), PrivateMessage(m))]
      ensures SocketOf(to).Some? && NickOf(sid).Some? ==>
                var log := Seqs.ListAt(privateMessages, ChatKey(to, NickOf(sid).value));
                |log| >= 1 && log[|log| - 1] == PrivateMsg(NickOf(sid), to, text, now, messageId, replyTo)
    {
      var toSocket := SocketOf(to);
      if toSocket.None? {
        return [Emit(ToSocket(sid), ErrorMessage(UserNotFoundOrOffline))];
      }
      var fromNick := NickOf(sid);
      var key := ChatKeyOf(fromNick, to);
      var m := PrivateMsg(fromNick, to, text, now, messageId, replyTo);
      AddMessage(PrivateKind, key, m);
      if fromNick.Some? {
        ChatKeySymmetric(fromNick.value, to);
      }
      out := [Emit(ToSocket(toSocket.value), PrivateMessage(m)), Emit(ToSocket(sid), PrivateMessage(m))];
    }

    /** `delete_message`. Of a private message: only its sender, found in the log of the chat
        with `otherUser`, and both sides are told. Of a room message: its sender or the room's
        owner, and the room is told. */
    method OnDeleteMessage(sid: string, messageId: string, room: string, kind: Kind, otherUser: string)
      returns (out: seq<Emit>)
      requires Valid()
      modifies this`roomMessages, this`privateMessages
      ensures Valid()
      ensures kind == PrivateKind ==>
                var key := ChatKeyOf(NickOf(sid), otherUser);
                var found := FindById(Seqs.ListAt(old(privateMessages), key), messageId);
                var deleted := MessageDeleted(messageId, PrivateKind, Some(key));
                && roomMessages == old(roomMessages)
                && (found.Some? && found.value.from == NickOf(sid) ==>
                      && privateMessages == old(privateMessages)[key := WithoutId(old(privateMessages)[key], messageId)]
                      && out == (if otherUser in nicksToSockets then [Emit(ToSocket(nicksToSockets[otherUser]), deleted)] else [])
                                + [Emit(ToSocket(sid), deleted)])
                && (!(found.Some? && found.value.from == NickOf(sid)) ==>
                      && privateMessages == old(privateMessages)
                      && out == [Emit(ToSocket(sid), ErrorMessage(CanOnlyDeleteOwnMessages))])
      ensures kind == RoomKind ==>
                var found := FindById(Seqs.ListAt(old(roomMessages), room), messageId);
                var allowed := found.Some? && (found.value.from == NickOf(sid) || IsOwner(roomCreators, room, NickOf(sid)));
                && privateMessages == old(privateMessages)
                && (allowed ==>
                      && roomMessages == old(roomMessages)[room := WithoutId(old(roomMessages)[room], messageId)]
                      && out == [Emit(ToRoom(room), MessageDeleted(messageId, RoomKind, None))])
                && (!allowed ==>
                      && roomMessages == old(roomMessages)
                      && out == [Emit(ToSocket(sid), ErrorMessage(NoPermissionToDelete))])
    {
      var nickname := NickOf(sid);
      if kind == PrivateKind {
        var key := ChatKeyOf(nickname, otherUser);
        var found := FindById(Seqs.ListAt(privateMessages, key), messageId);
        if found.Some? && found.value.from == nickname {
          DeleteMessage(PrivateKind, key, messageId);
          var deleted := MessageDeleted(messageId, PrivateKind, Some(key));
          out := if otherUser in nicksToSockets then [Emit(ToSocket(nicksToSockets[otherUser]), deleted)] else [];
          out := out + [Emit(ToSocket(sid), deleted)];
        } else {
          out := [Emit(ToSocket(sid), ErrorMessage(CanOnlyDeleteOwnMessages))];
        }
      } else {
        var found := FindById(Seqs.ListAt(roomMessages, room), messageId);
        if found.Some? && (found.value.from == nickname || IsOwner(roomCreators, room, nickname)) {
          DeleteMessage(RoomKind, room, messageId);
          out := [Emit(ToRoom(room), MessageDeleted(messageId, RoomKind, None))];
        } else {
          out := [Emit(ToSocket(sid), ErrorMessage(NoPermissionToDelete))];
        }
      }
    }

    /** `open_private_chat`: the log of the caller's chat with `otherUser`, empty when none. For a
        caller with a nickname it is the log that `private_message` appends to when `otherUser`
        writes to that nickname. */
    function ChatHistory(sid: string, otherUser: string): (e: Emit)
      reads this
      ensures e.target == ToSocket(sid) && e.event.PrivateChatHistory? && e.event.otherUser == otherUser
      ensures NickOf(sid).Some? ==> e.event.messages == Seqs.ListAt(privateMessages, ChatKeyOf(Some(otherUser), NickOf(sid).value))
    {
      var log := Seqs.ListAt(privateMessages, ChatKeyOf(NickOf(sid), otherUser));
      match NickOf(sid)
      case None => Emit(ToSocket(sid), PrivateChatHistory(otherUser, log))
      case Some(me) =>
        ChatKeySymmetric(me, otherUser);
        Emit(ToSocket(sid), PrivateChatHistory(otherUser, log))
    }

    /** Two connections with nicknames `a` and `b` that open their chat with each other see the
        same log. */
    lemma ChatHistorySymmetric(sa: string, sb: string, a: string, b: string)
      requires NickOf(sa) == Some(a) && NickOf(sb) == Some(b)
      ensures ChatHistory(sa, b).event.messages == ChatHistory(sb, a).event.messages
    {
      ChatKeySymmetric(a, b);
    }

    /** `disconnect`: a connection with a nickname gives the nickname's mapping up (even when a
        later connection has claimed the nickname since) and leaves its current room's member
        list; every connection loses its own nickname record. */
    method OnDisconnect(sid: string, now: int) returns (out: seq<Emit>)
      requires Valid()
      modifies this`nicksToSockets, this`usersByRoom, this`socketsToNicks, this`connected, this`currentRoom
      ensures Valid()
      ensures socketsToNicks == old(socketsToNicks) - {sid}
      ensures connected == old(connected) - {sid} && currentRoom == old(currentRoom) - {sid}
      ensures sid !in socketsToNicks && NickOf(sid).None?
      ensures old(NickOf(sid)).None? || old(NickOf(sid)).value == "" ==>
                out == [] && nicksToSockets == old(nicksToSockets) && usersByRoom == old(usersByRoom)
      ensures old(NickOf(sid)).Some? && old(NickOf(sid)).value != "" ==>
                && nicksToSockets == old(nicksToSockets) - {old(NickOf(sid)).value}
                && (!old(InRoom(sid)) ==> out == [] && usersByRoom == old(usersByRoom))
                && (old(InRoom(sid)) ==>
                      && usersByRoom == RemoveMember(old(usersByRoom), old(currentRoom[sid]), sid)
                      && out == old(UsersUpdate(currentRoom[sid], RemoveMember(usersByRoom, currentRoom[sid], sid), now)))
    {
      var nickname := NickOf(sid);
      out := [];
      if nickname.Some? && nickname.value != "" {
        nicksToSockets := nicksToSockets - {nickname.value};
        if InRoom(sid) {
          var previous := currentRoom[sid];
          usersByRoom := RemoveMember(usersByRoom, previous, sid);
          out := UsersUpdate(previous, usersByRoom, now);
        }
      }
      socketsToNicks := socketsToNicks - {sid};
      connected := connected - {sid};
      currentRoom := currentRoom - {sid};
    }
  }
}
