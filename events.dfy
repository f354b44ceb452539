/** The notifications the server emits, as values. Display text (times formatted with
    `toLocaleTimeString`, the wording of system lines and errors) is abstracted to tags. */
module Events {
  import opened Wrappers
  import opened Messages
  import opened Rooms
  import opened PrivateChats

  /** `socket.emit` / `io.to(id)` (one connection), `io.sockets.in(room)` (the room's group),
      `io.sockets.emit` (every connection). */
  datatype Target = ToSocket(sid: string) | ToRoom(room: string) | ToEveryone

  /** The system lines posted to a room. */
  datatype Notice =
    | UserJoined(nick: Option<string>)
    | UserKicked(user: string, minutes: int)
    | UserBanned(user: string)
    | UserUnbanned(user: string)
    | UserUnkicked(user: string)

  /** The `error_message` texts. */
  datatype Failure =
    | InvalidOrDuplicateRoomName
    | CannotJoinRoom
    | InvalidKickRequest
    | CannotKickUser
    | OnlyOwnerCanBan
    | CannotBanUser
    | UserNotFoundOrOffline
    | CanOnlyDeleteOwnMessages
    | NoPermissionToDelete

  datatype Event =
    | NicknameSet(privateChats: map<string, PrivateChat>)
    | UpdateRooms(roomList: seq<RoomInfo>)
    | UpdateUsers(users: seq<Option<string>>, roomOwner: Option<string>, bannedUsers: seq<string>, kickedUsers: map<string, int>)
    | MessageToClient(from: Option<string>, text: string, messageId: string, replyTo: Option<string>)
    | SystemLine(notice: Notice)
    | JoinRoomSuccess(room: string, messageHistory: seq<Message>)
    | RoomDeleted(room: string)
    | Kicked(room: string, duration: int, expiration: int)
    | Banned(room: string)
    | JoinRoomRequest(room: string)
    | PrivateMessage(data: Message)
    | PrivateChatHistory(otherUser: string, messages: seq<Message>)
    | MessageDeleted(messageId: string, kind: Kind, chatId: Option<string>)
    | ErrorMessage(failure: Failure)

  datatype Emit = Emit(target: Target, event: Event)
}
