# Socket session and room manager — a Dafny model

This project models the real-time core of a chat server,
`server/socket/socketManager.js`. The server keeps two module-level
registries in memory:

- `users`: socket id ↦ `User`, the identity of one live connection;
- `activeRooms`: room id ↦ the room entry. An entry holds a set of socket
  ids, the last activity time and an ephemeral flag.

Each connection's event handlers update these registries in place and emit
events:

- `join_app` registers an identity. An anonymous user gets a random
  `Anonymous####` alias.
- `join_room` leaves the current room and enters the target room. A room
  created without an id is ephemeral.
- `send_message` checks the sender and the content, colours the message by
  its sentiment score, and fans it out. The sender gets the original; every
  other member gets a copy, translated when the member's language is not
  English.
- `toggle_anonymous` draws a new alias, or strips the alias and trims the
  name.
- `change_language` and `disconnect` update or drop the record.
- A periodic sweep deletes empty rooms. It expires ephemeral rooms idle for
  more than 30 minutes: it sends `room_expired` and clears the members'
  `currentRoom`.

The model has two layers:

- **Pure specification.** Modules `Mood`, `Alias`, `Rooms`, `Dispatch`,
  `Sweeper` and `Handlers` describe every handler as a function on a value
  `State(users, rooms, outbox)`. `outbox` is the ordered log of every
  emit. Lemmas state what each handler promises.
- **Imperative model.** Class `SocketManager.Manager` has the fields
  `users`, `activeRooms` and `outbox`. Its handler methods update them
  step by step, as the source does, including the fan-out loop and the
  sweep's nested loops. Each handler method (`JoinApp`, `JoinRoom`,
  `SendMessage`, `ToggleAnonymous`, `ChangeLanguage`, `Disconnect`,
  `Sweep`) is proved to establish exactly the state the matching
  `Handlers` function describes. Each handler method also keeps
  `Valid()`, the membership invariant: a user whose `currentRoom` is set
  is listed by that room, and that room exists. The helper methods
  (`RemoveUserFromRoom`, `EnterRoom`, `AnnounceJoin`, `Broadcast`,
  `FanOut`, `VisitRoom`, `ClearMembers`) are each proved against a
  function of `Rooms`, `Dispatch` or `Sweeper`, or against
  `Handlers.Visit`. They do not promise `Valid()`.

A room's JS `Set` is a sequence without duplicates, in insertion order.
`Common.Insert` and `Common.Delete` model `add` and `delete`. Timestamps
(`new Date()`, `toISOString()`) are integer milliseconds, passed in as
`now`.

Behaviour of the code worth noting:

- **Leaving a room.** A room that becomes empty when a member leaves is
  deleted only if it is ephemeral (`server/socket/socketManager.js:278`).
  A room created with an explicit id stays until the sweep removes it.
- **The invariant holds between handlers.** `removeUserFromRoom` on its
  own can delete the room the leaver's `currentRoom` still names (lines
  275-279). The caller repairs the record afterwards: `join_room`
  overwrites it at line 55, and `disconnect` drops it at line 243.
- **Two welcome messages.** `join_room` sends the welcome message twice,
  with `room_joined` between them (lines 78-104).
- **Activity time.** `send_message` does not refresh `lastActivity`. Only
  joining and leaving refresh it, so a busy ephemeral room can expire.
- **Order of checks.** In `send_message` the sender and room checks come
  before the content check. A message from a user who is in no room is
  dropped silently, whatever its content.
- **Translation fields.** A translated copy names the source language in
  the field `originalLanguage`, with value `'en'`.
- **Payload room id.** The payload's `roomId` is ignored. A message goes to
  the sender's `currentRoom` (`Dispatch.PayloadRoomIsIgnored`).
- **Rejoining your own ephemeral room.** If you are alone in an ephemeral
  room and rejoin it by its id, leaving deletes it and joining recreates it
  as a room with an explicit id. It is then no longer ephemeral
  (`Handlers.RejoinOwnEphemeralRoom`).

## Model

| member | source | states |
|---|---|---|
| Common.Insert | server/socket/socketManager.js:67 | `Set.add`: a new socket is appended at the end, after the others in their order; an existing member leaves the set as it was; no duplicates appear |
| Common.Delete | server/socket/socketManager.js:275 | `Set.delete`: exactly the socket is removed, a non-member leaves the set as it was, and the set stays free of duplicates |
| Common.DeleteCutsOut | server/socket/socketManager.js:275 | in a set without duplicates, `delete` cuts the one occurrence out: the others keep their order |
| Common.DeleteAt | server/socket/socketManager.js:275 | deleting an element that occurs only at index k gives the sequence without position k |
| Mood.MoodColor | server/socket/socketManager.js:131-135 | each score lands in exactly one of the five bands: >3, (1,3], (-1,1], (-3,-1], ≤-3, each band with its own colour |
| Mood.ClassifyMood | server/socket/socketManager.js:122-135 | a scorer that threw counts as score 0, which is the neutral colour; otherwise the colour is that score's band |
| Mood.MoodColorIsRankedPalette | server/socket/socketManager.js:131-135 | the chain of thresholds agrees with an independent description: the palette indexed by how many of the thresholds -3, -1, 1, 3 the score exceeds |
| Mood.MoodIsMonotone | server/socket/socketManager.js:131-135 | a higher score never gets a more negative colour |
| Alias.FourDigits | server/socket/socketManager.js:30 | `${n}` for a number in 1000..9999 is four ASCII digits that read back as n |
| Alias.AnonymousAlias | server/socket/socketManager.js:30 | the alias is 13 characters: `Anonymous` followed by four digits that read back as the drawn number |
| Alias.UserAlias | server/socket/socketManager.js:215 | the fallback name is `User` followed by four digits that read back as the drawn number |
| Alias.AnonymousAliasInjective | server/socket/socketManager.js:214 | two aliases are equal exactly when the drawn numbers are equal |
| Alias.Trim | server/socket/socketManager.js:215 | `trim()` leaves no space at either end, never lengthens, leaves a trimmed string alone, and gives "" exactly for an all-space string |
| Alias.TrimOfPadded | server/socket/socketManager.js:215 | spaces, then a trimmed middle, then spaces trim to the middle |
| Alias.RevertedName | server/socket/socketManager.js:215 | the name after switching anonymity off is never empty and has no spaces at either end |
| Alias.AliasRevertsToUserName | server/socket/socketManager.js:213-215 | switching off right after switching on always gives `User####`: the alias is stripped completely |
| Alias.PlainNameSurvivesRevert | server/socket/socketManager.js:215 | a name without an alias prefix keeps its trimmed text |
| Alias.RevertStripsOneAlias | server/socket/socketManager.js:215 | only one leading alias is stripped; the trimmed rest is kept |
| Rooms.RemoveUserFromRoom | server/socket/socketManager.js:271-281 | an absent room means no change; other rooms are untouched; the room is deleted exactly when it is ephemeral and the leaver was its only member; otherwise it loses exactly the leaver and its activity time is now |
| Rooms.EnterRoom | server/socket/socketManager.js:58-68 | the target exists afterwards, with the joiner added and activity time now; a new room's ephemeral flag is the given one, an existing room keeps its flag; other rooms are untouched |
| Rooms.LeaveKeepsOthers | server/socket/socketManager.js:271-281 | leaving keeps every other user's membership and keeps every room duplicate-free |
| Rooms.EnterKeepsOthers | server/socket/socketManager.js:58-68 | entering keeps every recorded membership and keeps every room duplicate-free |
| Rooms.RecordKeepsInvariant | server/socket/socketManager.js:55 | storing a record whose room lists the socket keeps the membership invariant |
| Dispatch.RecipientCopy | server/socket/socketManager.js:165-198 | an English reader gets the original; another reader gets the translation tagged `en` → its language; a failed translation falls back to the original, untagged; every copy shares the message's id, sender, time and colour and is marked as not the original |
| Dispatch.DeliveriesAddressees | server/socket/socketManager.js:159-199 | every delivery goes to a member other than the sender that has a user record, and carries that member's copy |
| Dispatch.DeliveriesPerRecipient | server/socket/socketManager.js:159-199 | each member other than the sender with a record gets exactly one copy; any other connection gets none |
| Dispatch.EchoThenDeliveriesShape | server/socket/socketManager.js:141-199 | every emit of a successful send is a chat message to the sender or a member, with the shared id, time and colour |
| Dispatch.EchoThenDeliveriesReceived | server/socket/socketManager.js:151-199 | the sender receives only its original; each other member with a record receives only its own copy |
| Dispatch.SendMessageOutcome | server/socket/socketManager.js:108-205 | nothing is emitted if the sender has no record or no existing room; a single `error` "Invalid message content" for empty or non-string content; otherwise the original goes first, to the sender, and each connection receives exactly the copy described above |
| Dispatch.TranslationIsPerRecipient | server/socket/socketManager.js:175-198 | a recipient's copy depends only on that recipient's translation outcome |
| Dispatch.PayloadRoomIsIgnored | server/socket/socketManager.js:111-114 | the payload's `roomId` has no effect on what is emitted |
| Dispatch.TranslatedScenario | server/socket/socketManager.js:141-198 | an English sender and a French reader, score 4: the sender sees its words in the strongly positive colour; the reader sees the translation with the same id and colour, or the original if translation fails |
| Dispatch.AsWrittenDropsEveryMessage | server/socket/socketManager.js:110 | as written, no call delivers a message to any connection; for a send that should echo "hi" to its sender, only the `error` emit goes out |
| Sweeper.SweptRooms | server/socket/socketManager.js:250-266 | after a sweep every empty room and every stale ephemeral room is gone; every occupied room that is not ephemeral, or not idle too long, stays unchanged |
| Sweeper.ClearRooms | server/socket/socketManager.js:260-263 | exactly the listed sockets that have a record lose their `currentRoom`; nothing else changes |
| Sweeper.ClearedByFullVisit | server/socket/socketManager.js:250-266 | visiting every room once, in any order, clears exactly the members of the expired rooms |
| Sweeper.ClearedAmongMembers | server/socket/socketManager.js:258-263 | a socket is cleared exactly when some visited, occupied, stale room lists it |
| Sweeper.ExpiryNoticesOnly | server/socket/socketManager.js:259 | the sweep emits nothing but `room_expired` notices, each addressed to the expired room it names |
| Sweeper.ExpiryNoticesCount | server/socket/socketManager.js:259 | each expired room gets exactly one notice; any other room gets none |
| Sweeper.NoNoticesWithoutExpiry | server/socket/socketManager.js:258-259 | with no expirable room, a sweep emits nothing |
| Sweeper.SweepStep | server/socket/socketManager.js:251-265 | one more visit removes the room exactly when it is evicted, and notifies it and clears its members exactly when it expires |
| Handlers.JoinAppRecord | server/socket/socketManager.js:26-40 | the stored record: a non-empty user id is kept, otherwise the fresh one is used; a missing or empty language is `en`; an anonymous user is named `Anonymous` followed by the drawn number, otherwise the given name; no room; `user_data` goes back; other records and rooms are unchanged |
| Handlers.JoinAppKeepsInvariant | server/socket/socketManager.js:26-40 | `join_app` keeps the membership invariant |
| Handlers.MembershipHasNoConverse | server/socket/socketManager.js:26-34 | the invariant has no converse: after a repeated `join_app` the room still lists the socket, but its record is in no room |
| Handlers.JoinRoomMembership | server/socket/socketManager.js:43-105 | an unknown socket changes nothing; otherwise the socket has left its old room, which is deleted exactly when it is ephemeral and the leaver was its only member and otherwise keeps its other members with activity time now; the target room (the supplied id, or a fresh one) lists exactly the socket and the members it listed before; a room that exists after the leave keeps its ephemeral flag, and a room created here, new or the user's own ephemeral room the leave deleted, is ephemeral exactly when no id was given; the record points there, its activity time is now, other rooms are untouched, and the four emits follow in order, `user_joined` first |
| Handlers.RejoinOwnEphemeralRoom | server/socket/socketManager.js:48-63 | rejoining, by id, the ephemeral room you are alone in recreates it as a room that is not ephemeral |
| Handlers.JoinRoomKeepsInvariant | server/socket/socketManager.js:43-68 | `join_room` keeps the membership invariant |
| Handlers.ToggleAnonymousEffect | server/socket/socketManager.js:208-221 | an unknown socket changes nothing; otherwise the flag is stored, switching on draws a new alias, switching off strips one alias and trims, falling back to `User####`; the reply carries the new name and flag; nothing else changes |
| Handlers.ToggleTwiceForgetsName | server/socket/socketManager.js:212-215 | going anonymous and back always ends in `User####`: the original name is not remembered |
| Handlers.ToggleAnonymousKeepsInvariant | server/socket/socketManager.js:208-221 | `toggle_anonymous` keeps the membership invariant |
| Handlers.ChangeLanguageEffect | server/socket/socketManager.js:224-230 | an unknown socket changes nothing; otherwise only the language changes and the reply echoes it |
| Handlers.ChangeLanguageKeepsInvariant | server/socket/socketManager.js:224-230 | `change_language` keeps the membership invariant |
| Handlers.DisconnectEffect | server/socket/socketManager.js:233-245 | the record is always dropped; a user who was in a room leaves it first, and `user_left` goes to that room; otherwise rooms and log are unchanged |
| Handlers.DisconnectKeepsInvariant | server/socket/socketManager.js:233-245 | `disconnect` keeps the membership invariant |
| Handlers.SweepKeepsInvariant | server/socket/socketManager.js:248-266 | the sweep keeps the membership invariant |
| Handlers.SweepNotices | server/socket/socketManager.js:258-259 | the sweep appends only notices: exactly one per expired room and none to any other room |
| Handlers.SweepClearsExpiredMembers | server/socket/socketManager.js:258-263 | every recorded socket listed by an expiring room loses its `currentRoom`, whatever room the record names; every other record is unchanged |
| Handlers.SweepClearsStaleListing | server/socket/socketManager.js:258-263 | for example: join the app, join an ephemeral room, join the app again, join "general", then sweep after the idle limit; the record is left with no room, although "general" survives and still lists the socket |
| Handlers.SweepIdempotent | server/socket/socketManager.js:248-266 | a second sweep at the same instant changes nothing and emits nothing |
| Handlers.SweepPrefixStep | server/socket/socketManager.js:250-265 | visiting one more unvisited room is one round of the loop body |
| Handlers.SweepPrefixComplete | server/socket/socketManager.js:250-266 | visiting every room once is the whole sweep |
| SocketManager.Manager.constructor | server/socket/socketManager.js:6-19 | both registries start empty and the invariant holds |
| SocketManager.Manager.JoinApp | server/socket/socketManager.js:26-40 | the new registry state is `Handlers.JoinApp` of the old one; the invariant is kept |
| SocketManager.Manager.RemoveUserFromRoom | server/socket/socketManager.js:271-281 | the room directory becomes `Rooms.RemoveUserFromRoom` of the old one |
| SocketManager.Manager.JoinRoom | server/socket/socketManager.js:43-105 | the new state is `Handlers.JoinRoom` of the old one; the invariant is kept |
| SocketManager.Manager.EnterRoom | server/socket/socketManager.js:58-68 | the room directory becomes `Rooms.EnterRoom` of the old one |
| SocketManager.Manager.AnnounceJoin | server/socket/socketManager.js:70-104 | appends `user_joined`, the welcome, `room_joined` and the welcome again, in that order |
| SocketManager.Manager.SendMessage | server/socket/socketManager.js:108-205 | only the log changes, by the emits `Dispatch.SendEmits` describes for the normalised payload; the invariant is kept |
| SocketManager.Manager.Broadcast | server/socket/socketManager.js:151-201 | appends the sender's original, then the deliveries to the room's members |
| SocketManager.Manager.FanOut | server/socket/socketManager.js:159-199 | the loop over the members appends exactly `Dispatch.Deliveries`, in the set's order |
| SocketManager.Manager.ToggleAnonymous | server/socket/socketManager.js:208-221 | the new state is `Handlers.ToggleAnonymous` of the old one; the invariant is kept |
| SocketManager.Manager.ChangeLanguage | server/socket/socketManager.js:224-230 | the new state is `Handlers.ChangeLanguage` of the old one; the invariant is kept |
| SocketManager.Manager.Disconnect | server/socket/socketManager.js:233-245 | the new state is `Handlers.Disconnect` of the old one; the invariant is kept |
| SocketManager.Manager.Sweep | server/socket/socketManager.js:248-267 | the loop over the rooms in the map's order ends in `Handlers.Sweep` of the old state; the invariant is kept |
| SocketManager.Manager.VisitRoom | server/socket/socketManager.js:251-265 | one loop round: an empty room is deleted; an occupied stale ephemeral room is notified, its members are cleared and it is deleted; any other room stays |
| SocketManager.Manager.ClearMembers | server/socket/socketManager.js:260-263 | the inner loop clears `currentRoom` for exactly the listed sockets that have a record |

## Left out

- I/O and transport are not modelled: `socket.join`, `socket.leave`, how
  Socket.IO routes `io.to(room)` and `socket.to(id)`, and `console.log`.
  An emit is recorded with its addressee. Delivery to a room's members is
  not traced further.
- `uuidv4()`, `new Date()`, `Math.random()`, the sentiment scorer and
  `translateMessage` are outside this model. Each is a parameter:
  - fresh ids and `now`. All the clock reads of one handler are taken as
    one instant: `join_room` reads the clock at lines 61, 68, 74, 83 and
    99, and `removeUserFromRoom` at line 276, all as the same `now`;
  - the alias number n, one of 1000..9999;
  - the score, where `None` means the scorer threw;
  - a per-recipient translation outcome, where `None` means the call
    failed.
- `send_message` awaits its translations in parallel (`Promise.all`). The
  model emits the copies in the set's order. Interleaving with other
  handlers while a translation is pending is not modelled.
- The sweep timer is not modelled. The model is one run of its body at a
  given `now`. Each connection starts its own interval, which only makes
  more runs of the same body. The iteration order of the `Map` is a
  parameter that lists each room once.
- Users and rooms are values in maps, not shared objects. The source
  mutates `room.users` and `user` through aliases. The model writes the
  updated value back under the same key, which has the same effect here.
  One case differs: during the sweep, the set being iterated is a snapshot.
  The source never changes that set inside the loop.
- Payload shapes are narrowed. `join_app`'s `username` and
  `change_language`'s `language` are strings. A supplied `userId` and
  `join_app`'s `language` are strings or absent. The source stores a
  missing or non-string name as given (line 29), and a later
  `toggle_anonymous(false)` then throws at line 215. `change_language`
  without a language stores `undefined`. A handler called with no payload
  object throws while destructuring it. None of this is modelled.
- `change_language` stores the value it is given, unchecked, as the source
  does.
- The payload normalisation `send_message` calls first is the parameter
  `sanitize`.
- `server/server.js`, `nuclearSanitize`, `server/utils/translation.js`,
  the client and any persistence are not part of this model.
- `Dispatch.PayloadRoomIsIgnored`, `Handlers.JoinAppKeepsInvariant`,
  `Handlers.ToggleAnonymousKeepsInvariant` and
  `Handlers.ChangeLanguageKeepsInvariant` follow from the definitions
  alone. They are stated for completeness.

## Findings

| source | as written | input that shows it | evidently intended | confidence | as-written member | corrected member |
|---|---|---|---|---|---|---|
| server/socket/socketManager.js:110 | `send_message` first calls `deepSanitize`, which is defined and imported nowhere in the file. The call throws a ReferenceError, and the handler's own `catch` turns it into `socket.emit('error', 'deepSanitize is not defined')`. No message is ever delivered. | a user "a", alone in room "general", sends `{ content: "hi" }` | the payload is normalised and the message is scored and delivered to the sender and the room | not executed | Dispatch.SendEmitsAsWritten, Dispatch.AsWrittenDropsEveryMessage | Dispatch.SendEmits, Dispatch.SendMessageOutcome, SocketManager.Manager.SendMessage |
