/** The entities of the session and room manager and the events it emits.

    Every `emit` of the manager is recorded as an `Emit`: its addressee (one
    connection, or every connection in a room) and the event with its
    payload. Timestamps, which the source renders with `toISOString()`, are
    kept as integer milliseconds. */
module Chat {
  import opened Common

  type SocketId = string
  type RoomId = string
  type UserId = string

  /** The identity attached to one live connection. `currentRoom == None`
      is the source's `null`. */
  datatype User = User(
    socketId: SocketId,
    userId: UserId,
    username: string,
    isAnonymous: bool,
    language: string,
    currentRoom: Option<RoomId>)

  /** An entry of `activeRooms`. `users` is the room's JS `Set` of socket
      ids, in insertion order and without duplicates. */
  datatype Room = Room(users: seq<SocketId>, lastActivity: int, isEphemeral: bool)

  /** The `translated` flag and, when it is set, the `originalLanguage` and
      `targetLanguage` fields of a delivered copy. */
  datatype Translation = Untranslated | Translated(originalLanguage: string, targetLanguage: string)

  /** The payload of a `receive_message` event: a user's message, or a
      system message (whose sender fields are the constants below). */
  datatype Message =
    | ChatMessage(
        id: string,
        content: string,
        userId: UserId,
        username: string,
        timestamp: int,
        moodColor: string,
        isAnonymous: bool,
        isOriginal: bool,
        translation: Translation)
    | SystemMessage(id: string, content: string, userId: UserId, username: string, timestamp: int,
                    moodColor: string)

  const SystemUserId := "system"
  const SystemUsername := "System"
  const SystemColor := "#6b7280"

  /** The welcome message a joining connection receives. */
  function Welcome(id: string, roomId: RoomId, now: int): Message
  {
    SystemMessage(id, "Welcome to " + roomId + "!", SystemUserId, SystemUsername, now, SystemColor)
  }

  datatype Event =
    | UserData(userId: UserId, username: string, isAnonymous: bool)
    | UserJoined(userId: UserId, username: string, timestamp: int)
    | ReceiveMessage(message: Message)
    | RoomJoined(roomId: RoomId)
    | Error(reason: string)
    | AnonymousToggled(username: string, isAnonymous: bool)
    | LanguageChanged(language: string)
    | UserLeft(userId: UserId, username: string, timestamp: int)
    | RoomExpired(roomId: RoomId)

  /** `socket.emit` and `socket.to(id).emit` address one connection;
      `io.to(room).emit` addresses a room. */
  datatype Target = ToSocket(socket: SocketId) | ToRoom(room: RoomId)

  datatype Emit = Emit(target: Target, event: Event)

  /** A JS value that should be a message text. */
  datatype JsValue = JsString(text: string) | JsNonString

  /** The `send_message` payload after normalisation. */
  datatype Payload = Payload(content: JsValue, roomId: Option<RoomId>)
}
