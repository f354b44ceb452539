# Chat server room and session state engine, in Dafny

The chat server keeps its whole world in one `state` record: the room directory (`rooms`,
`roomPasswords`, `roomCreators`), the member list of each room, the two directions of the
nickname mapping, per-room ban lists and kick records, each room's join history, and two
stores of message logs (one per room, one per private conversation). Each socket event's
handler reads and updates that record and emits notifications.

This project models that engine:

- `ChatServer.Engine` is a class with one field per entry of `state`. It has two more fields for
  what the server keeps on socket objects: `currentRoom`, one entry per connection that is in a
  room, and `connected`, the set of open connections.
- Every handler that changes state is a method `On…`. It changes the fields its `modifies`
  clause names, keeps the invariant `Valid()`, and returns the notifications it emits, in order,
  as `Emit` values. `open_private_chat` changes nothing and is the function
  `ChatServer.Engine.ChatHistory`.
- The helpers that only compute a value are functions in their own modules:
  - `Messages`: the capped logs and the day-long retention.
  - `Rooms`: the room directory and the user view.
  - `Moderation`: kick expiry and the owner test.
  - `PrivateChats`: the conversation key and the chat list sent on `set_nickname`.
  - `JsStrings`: the JavaScript string operations the server relies on: default `sort` order,
    `join`, `split` and `trim`.
- The clock is a parameter `now` (milliseconds).
- A nickname that may be `undefined` is an `Option<string>`.
- JavaScript truthiness is written out where the code relies on it: a non-empty string, or a
  present value.

The invariant `Valid()` says:
- "Lobby" is listed and has no creator record.
- Room names are unique.
- Every creator record belongs to a listed room.
- Every stored password belongs to a room with a creator record and is not blank.
- No log holds more than 100 messages.

All paths below are in `socketio-chat-app/chat-server.js`. The handlers apply the owner test as
the server evidently intends it, not as it is written (see "## Findings" and "## Left out").
Elsewhere, where the source and its description differ, the model follows the source:
- `delete_room` (237-255) does not reset the members' `currentRoom`, and it keeps the room's kick
  records, join history and messages.
- `disconnect` (480-492) leaves the room's member list alone when the connection never set a
  non-empty nickname.
- `disconnect` deletes the nickname's entry in `nicksToSockets` even after a later connection
  has claimed that nickname.
- Author tests in `delete_message` (442, 457) compare `message.from === nickname` as written,
  where both sides may be `undefined`.

## Model

| member | source | states |
|---|---|---|
| Seqs.Filter | socketio-chat-app/chat-server.js:200-201 | `filter` keeps only elements of the input that satisfy the predicate and never grows the list |
| Seqs.FilterIsSubsequence | socketio-chat-app/chat-server.js:75 | a filtered list is an order-preserving subsequence of the input |
| Seqs.ExceptMembership | socketio-chat-app/chat-server.js:200-201 | `filter(id => id !== x)` keeps exactly the members other than `x` |
| Seqs.FilterDistinct | socketio-chat-app/chat-server.js:240 | filtering a list without duplicates leaves it without duplicates |
| Seqs.AppendDistinct | socketio-chat-app/chat-server.js:174-181 | appending a name not yet present keeps the list free of duplicates |
| JsStrings.LexLeTotal | socketio-chat-app/chat-server.js:61 | the default string order of `sort` relates every two strings one way or the other |
| JsStrings.LexLeAntisymmetric | socketio-chat-app/chat-server.js:61 | two strings each ordered before the other are equal |
| JsStrings.Split | socketio-chat-app/chat-server.js:135 | `split` returns at least one part, and no part contains the separator |
| JsStrings.SplitJoin | socketio-chat-app/chat-server.js:135 | joining the parts of a split with the same separator returns the original string |
| JsStrings.JoinSplit | socketio-chat-app/chat-server.js:61 | splitting a join of separator-free parts returns those parts |
| JsStrings.TrimEmptyIffBlank | socketio-chat-app/chat-server.js:179 | `trim()` gives the empty string exactly when every character is JavaScript white space |
| Messages.Pushed | socketio-chat-app/chat-server.js:63-70 | after `addMessage` the log ends with the new message and stays within 100 entries |
| Messages.PushedFifo | socketio-chat-app/chat-server.js:63-70 | below 100 entries the message is appended; at 100 the oldest entry is dropped and the rest keep their order |
| Messages.PushedAllKeepsNewest | socketio-chat-app/chat-server.js:63-70 | any number of `addMessage` calls leave exactly the newest 100 messages of the whole history, in order |
| Messages.HundredAndFirstEvictsOldest | socketio-chat-app/chat-server.js:69 | on an empty log, the 101st message evicts the first one and 100 entries remain |
| Messages.KeepRecent | socketio-chat-app/chat-server.js:83 | one log after the sweep at time `now`; `KeepRecentSpec` and `KeepRecentIdempotent` state its properties |
| Messages.KeepRecentSpec | socketio-chat-app/chat-server.js:79-86 | the day-long sweep keeps an order-preserving subsequence whose messages are all newer than a day, each with its original multiplicity |
| Messages.KeepRecentIdempotent | socketio-chat-app/chat-server.js:79-86 | sweeping twice at the same time is the same as sweeping once |
| Messages.WithoutId | socketio-chat-app/chat-server.js:75 | one log after `deleteMessage`; `WithoutIdSpec` states its properties |
| Messages.WithoutIdSpec | socketio-chat-app/chat-server.js:72-77 | `deleteMessage` keeps, in order, exactly the messages with another id |
| Messages.FindById | socketio-chat-app/chat-server.js:440 | `find` returns the first message with the id, and nothing only when no message has it |
| Rooms.RoomList | socketio-chat-app/chat-server.js:43-47 | the directory has one entry per room, in order, with `hasPassword` exactly when a non-empty password is stored, and as owner the recorded creator unless it is missing, `undefined` or empty (`\|\| null`) |
| Rooms.LobbyListed | socketio-chat-app/chat-server.js:26 | the directory always lists "Lobby" as open and ownerless |
| Rooms.MemberNicks | socketio-chat-app/chat-server.js:120 | the view has one nickname, or `undefined`, per member, in order |
| Rooms.BannedNicks | socketio-chat-app/chat-server.js:101-107 | the view's ban list holds exactly the non-empty nicknames of the banned connections |
| Moderation.MinutesLeft | socketio-chat-app/chat-server.js:58 | `Math.ceil(ms / 60000)` is the whole number of minutes that covers `ms` |
| Moderation.MinutesLeftPositive | socketio-chat-app/chat-server.js:58 | a kick that has not expired reports at least one minute |
| Moderation.WithKick | socketio-chat-app/chat-server.js:280-284 | the kick records after `kick_user` stores an expiration, the room's map created when missing; `KickLastsItsDuration` states its effect |
| Moderation.ActiveKicks | socketio-chat-app/chat-server.js:110-117 | the `kickedUsers` of the user view, the unexpired records of the room; `ActiveKicksAgree` states what it shows |
| Moderation.KickStatus | socketio-chat-app/chat-server.js:49-59 | `isUserKicked` reports a kick exactly when a record exists and has not expired, with the minutes left, at least 1 |
| Moderation.ExpireKick | socketio-chat-app/chat-server.js:53-56 | the check deletes the record it looked at only if it expired, and no other record changes |
| Moderation.KickLastsItsDuration | socketio-chat-app/chat-server.js:280-284 | a kick of `duration` minutes refuses the nickname exactly until it expires and never reports more than `duration` minutes |
| Moderation.ActiveKicksAgree | socketio-chat-app/chat-server.js:110-117 | the user view lists a nickname as kicked exactly when `isUserKicked` would refuse it |
| Moderation.NicklessPassesOwnerTestAsWritten | socketio-chat-app/chat-server.js:239 | as written, a connection without a nickname passes the owner test of "Lobby" |
| Moderation.IsOwnerAsWritten | socketio-chat-app/chat-server.js:239 | the owner test as written: strict equality of the recorded creator and the caller's nickname, both possibly `undefined`; its behaviour is stated by `NicklessPassesOwnerTestAsWritten` and `IsOwner` |
| Moderation.IsOwner | socketio-chat-app/chat-server.js:239 | the corrected test passes only where the test as written passes, and the two differ exactly when the caller has no nickname and the room no creator |
| Moderation.NoOwnerWithoutCreator | socketio-chat-app/chat-server.js:239 | nobody owns a room without a creator record, "Lobby" included |
| PrivateChats.ChatKey | socketio-chat-app/chat-server.js:61 | `getPrivateChatId` of two nicknames; its shape, symmetry and injectivity are the lemmas below |
| PrivateChats.ChatKeyOf | socketio-chat-app/chat-server.js:413 | the key a caller who may lack a nickname gets: `ChatKey` with a nickname, the partner's name followed by `_` without one (also used at 438 and 470) |
| PrivateChats.ChatKeyShape | socketio-chat-app/chat-server.js:61 | the key is the smaller name, `_`, then the larger name |
| PrivateChats.ChatKeySymmetric | socketio-chat-app/chat-server.js:61 | `getPrivateChatId(a, b) == getPrivateChatId(b, a)` |
| PrivateChats.ChatKeyInjective | socketio-chat-app/chat-server.js:61 | for names without `_`, equal keys mean the same unordered pair |
| PrivateChats.ChatKeyCollides | socketio-chat-app/chat-server.js:61 | with `_` inside names, two different pairs share a key |
| PrivateChats.SplitChatKey | socketio-chat-app/chat-server.js:135 | splitting a key of names without `_` gives back the sorted pair |
| PrivateChats.FirstOther | socketio-chat-app/chat-server.js:140 | `find(u => u !== nickname)` returns the first part that differs, or nothing when all parts equal it |
| PrivateChats.ChatsFor | socketio-chat-app/chat-server.js:133-142 | the chats `set_nickname` reports: the logs whose key has the nickname as one of its first two pieces and which hold a message of the last day; `ChatsForNamesPartner` and `ChatsForMisreadsSeparator` state what it recovers |
| PrivateChats.ChatsForNamesPartner | socketio-chat-app/chat-server.js:133-142 | for names without `_`, a recent chat is reported to each party with the other as partner |
| PrivateChats.ChatsForMisreadsSeparator | socketio-chat-app/chat-server.js:133-142 | with `_` inside names, the list omits a participant's chat and reports it to a non-participant |
| ChatServer.RemoveMemberSpec | socketio-chat-app/chat-server.js:200-201 | removing a connection from a room's member list keeps every other member in order and no other list changes |
| ChatServer.SweepLogs | socketio-chat-app/chat-server.js:81-85 | the loop over a store's entries sweeps every log and adds or removes no key |
| ChatServer.DeletionKeepsDirectoryValid | socketio-chat-app/chat-server.js:237-243 | deleting a room other than "Lobby" keeps the directory invariant |
| ChatServer.Engine.constructor | socketio-chat-app/chat-server.js:25-39 | the initial state: "Lobby" alone and everything else empty; it satisfies the invariant |
| ChatServer.Engine.OwnedRoomIsListed | socketio-chat-app/chat-server.js:239 | under the invariant an owned room is listed and is not "Lobby" |
| ChatServer.Engine.NickOf | socketio-chat-app/chat-server.js:95 | `getUserNickname()`: the caller's nickname, `undefined` when it never set one |
| ChatServer.Engine.RoomUpdate | socketio-chat-app/chat-server.js:93 | `emitRoomUpdate()`: the directory `RoomList` of the current state, sent to everyone |
| ChatServer.Engine.UsersUpdate | socketio-chat-app/chat-server.js:97-125 | `updateRoomUsers(room)`: nothing without a member list, else the room's members, owner, banned nicknames and unexpired kicks, sent to the room |
| ChatServer.Engine.PasswordRefuses | socketio-chat-app/chat-server.js:193 | the password refusal of `join_room`: a non-owner gives a password other than the stored one |
| ChatServer.Engine.JoinAdmitted | socketio-chat-app/chat-server.js:191-193 | none of the three refusals of `join_room` applies; `AdmitJoin` is proved to decide exactly this |
| ChatServer.Engine.LobbyHasNoOwner | socketio-chat-app/chat-server.js:239 | under the invariant no caller, with or without nickname, passes the corrected owner test for "Lobby" |
| ChatServer.Engine.DirectoryShowsOwners | socketio-chat-app/chat-server.js:46 | under the invariant the directory shows "Lobby" without owner and, as a room's owner, exactly the non-empty nickname that passes the owner test |
| ChatServer.Engine.DirectoryShowsPasswords | socketio-chat-app/chat-server.js:45 | under the invariant `hasPassword` is exactly "a password is stored" |
| ChatServer.Engine.AddMessage | socketio-chat-app/chat-server.js:63-70 | step by step, with push and shift, the log becomes `Pushed` of its old value; the other store is unchanged |
| ChatServer.Engine.IsUserKicked | socketio-chat-app/chat-server.js:49-59 | returns `KickStatus` and leaves the records as `ExpireKick` says |
| ChatServer.Engine.DeleteMessage | socketio-chat-app/chat-server.js:72-77 | replaces the log with `WithoutId` of it when the key exists, and otherwise changes nothing |
| ChatServer.Engine.CleanupMessages | socketio-chat-app/chat-server.js:79-86 | keeps every key; every stored message is newer than a day; every log is a subsequence of its old value |
| ChatServer.Engine.OnConnection | socketio-chat-app/chat-server.js:92-93 | the connection is open with no current room, and the directory goes to everyone |
| ChatServer.Engine.OnSetNickname | socketio-chat-app/chat-server.js:128-145 | both directions of the nickname mapping are set and the caller receives its recent chats |
| ChatServer.Engine.OnMessageToServer | socketio-chat-app/chat-server.js:147-168 | the room's log gains the message by `addMessage`, and the room is sent it |
| ChatServer.Engine.OnCreateRoom | socketio-chat-app/chat-server.js:172-183 | an empty or duplicate name changes nothing; otherwise the room is appended, the caller recorded as creator and a non-blank password stored |
| ChatServer.Engine.OnDeleteRoom | socketio-chat-app/chat-server.js:237-255 | only the owner of a room other than "Lobby" deletes it; the room, its member list, password, creator and ban list go, and nothing else changes |
| ChatServer.Engine.AdmitJoin | socketio-chat-app/chat-server.js:190-194 | admits exactly when not banned, not kicked and no password refusal; only an expired kick record is deleted |
| ChatServer.Engine.EnterRoom | socketio-chat-app/chat-server.js:197-234 | the connection leaves its old member list and is appended to the new one; the history gains the nickname; no history set shrinks |
| ChatServer.Engine.OnJoinRoom | socketio-chat-app/chat-server.js:185-235 | a refusal changes nothing but expired kick records; an admitted join moves the connection and records the nickname in the history |
| ChatServer.Engine.OnKickUser | socketio-chat-app/chat-server.js:264-306 | only the owner may kick, for 1 to 1440 minutes, a connected nickname other than its own; the record lasts `duration` minutes; a live connection leaves the room |
| ChatServer.Engine.OnBanUser | socketio-chat-app/chat-server.js:308-357 | same checks as kick; the connection id always goes on the ban list; a live connection leaves the room and is sent to "Lobby" |
| ChatServer.Engine.OnUnbanUser | socketio-chat-app/chat-server.js:360-382 | the owner removes only the nickname's current connection id from the ban list |
| ChatServer.Engine.OnUnkickUser | socketio-chat-app/chat-server.js:384-401 | the owner deletes only the nickname's kick record, after which it is not kicked |
| ChatServer.Engine.OnPrivateMessage | socketio-chat-app/chat-server.js:404-430 | an unknown recipient is refused; otherwise the message ends the pair's log and goes to both connections |
| ChatServer.Engine.OnDeleteMessage | socketio-chat-app/chat-server.js:433-466 | a private message is deleted only by its sender; a room message by its sender or the room's owner; otherwise an error and no change |
| ChatServer.Engine.ChatHistory | socketio-chat-app/chat-server.js:468-477 | a caller with a nickname receives the log that `private_message` appends to when the other user writes to it, whichever order the two names sort in |
| ChatServer.Engine.ChatHistorySymmetric | socketio-chat-app/chat-server.js:468-477 | two users opening their chat with each other see the same log |
| ChatServer.Engine.OnDisconnect | socketio-chat-app/chat-server.js:480-492 | the nickname record goes; with a non-empty nickname, its mapping and its room membership go too |

## Left out

- The HTTP server for the static files and the socket.io setup (1-22) are transport, not state.
- `socket.join`/`socket.leave`: the transport's group bookkeeping is not modelled.
- The adapter walk in `delete_room` that makes the room's sockets leave (247-252) is not
  modelled either.
- `setInterval` (90) is not modelled: `CleanupMessages` takes `now` instead of being scheduled.
- `Date.now()` is the parameter `now`. A handler that reads the clock twice sees one instant.
- `toLocaleTimeString` and the display text of messages and system lines are left out. Messages
  carry their text; system lines are `Notice` values.
- Message ids (`${nickname}-${timestamp}`, 150 and 415) are given to the handlers as parameters.
- A notification sent with `io.to(undefined)` is left out. This happens in `delete_message` when
  `otherUser` has no connection.
- ChatServer.Engine.OnKickUser: `duration` is an integer. JavaScript numbers may be fractional,
  or strings that coerce, and those are not modelled.
- ChatServer.Engine.OnSetNickname: `privateChats` is a map keyed by conversation key. The Map
  insertion order of the list is not modelled.
- ChatServer.Engine.OnDeleteMessage and ChatServer.Engine.ChatHistory: `otherUser` is a string.
  An `undefined` partner is not modelled.
- `usersByRoom` is a plain object, so a room named like an `Object.prototype` member (for
  example `constructor`) reads as present. This is not modelled.
- JsStrings.LexLeTotal: strings are sequences of Unicode scalar values. JavaScript sorts by
  UTF-16 code units, and the two orders differ only for characters outside the Basic
  Multilingual Plane.
- Concurrency: every handler runs to completion, so nothing is interleaved.
- Owner test: ChatServer.Engine.OnDeleteRoom, ChatServer.Engine.OnKickUser, ChatServer.Engine.OnBanUser,
  ChatServer.Engine.OnUnbanUser, ChatServer.Engine.OnUnkickUser, ChatServer.Engine.OnDeleteMessage and
  ChatServer.Engine.PasswordRefuses (so `AdmitJoin` and `OnJoinRoom`) use the corrected
  `Moderation.IsOwner`. A caller without a nickname is therefore refused where the source, as
  written, lets it act as owner of "Lobby" or of a room created without a nickname. Examples are a
  kick in "Lobby" (266-284) and deleting its own room (239-244). The as-written test is only
  modelled by `Moderation.IsOwnerAsWritten`.

## Findings

| source | as written | input that shows it | evidently intended | confidence | as-written member | corrected member |
|---|---|---|---|---|---|---|
| socketio-chat-app/chat-server.js:239 | the owner test `state.roomCreators.get(room) === getUserNickname()`, also used at 188, 266-270, 310-314, 362, 386 and 457, is true when both sides are `undefined` | a connection that never sent `set_nickname` calls `unban_user` or `kick_user` for "Lobby", or for any room created by a connection without a nickname; `roomCreators.get` and `getUserNickname()` both return `undefined` | only a connection whose nickname is the recorded creator owns a room | not executed | Moderation.NicklessPassesOwnerTestAsWritten | Moderation.IsOwner |
