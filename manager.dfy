/** The socket manager's state and handlers. The source keeps two
    module-level maps, `users` (socket id to `User`) and `activeRooms`
    (room id to room entry), which every connection's handlers update in
    place; `outbox` records every emit in order. Each handler method is
    proved to produce the state its `Handlers` counterpart describes and to
    keep the membership invariant. */
module SocketManager {
  import opened Common
  import opened Chat
  import Alias
  import Mood
  import Rooms
  import Dispatch
  import Sweeper
  import Handlers

  class Manager {
    var users: map<SocketId, User>
    var activeRooms: map<RoomId, Room>
    var outbox: seq<Emit>

    function Snapshot(): Handlers.State
      reads this
    {
      Handlers.State(users, activeRooms, outbox)
    }

    ghost predicate Valid()
      reads this
    {
      Handlers.Inv(Snapshot())
    }

    constructor ()
      ensures Valid() && Snapshot() == Handlers.Initial
    {
      users := map[];
      activeRooms := map[];
      outbox := [];
    }

    /** `join_app { username, isAnonymous, userId, language }`; the fresh
        id stands for `uuidv4()` and `n` for the random alias number. */
    method JoinApp(s: SocketId, username: string, isAnonymous: bool, userId: Option<UserId>,
                   language: Option<string>, freshUserId: UserId, n: int)
      requires Valid() && Alias.IsAliasNumber(n)
      modifies this`users, this`outbox
      ensures Valid()
      ensures Snapshot() == Handlers.JoinApp(old(Snapshot()), s, username, isAnonymous, userId, language, freshUserId, n)
    {
      var name := if isAnonymous then Alias.AnonymousAlias(n) else username;
      var user := User(s, OrElse(userId, freshUserId), name, isAnonymous, OrElse(language, Dispatch.English), None);
      users := users[s := user];
      outbox := outbox + [Emit(ToSocket(s), UserData(user.userId, user.username, user.isAnonymous))];
      Handlers.JoinAppKeepsInvariant(old(Snapshot()), s, username, isAnonymous, userId, language, freshUserId, n);
    }

    /** `removeUserFromRoom(roomId, socketId)`. It may leave a user pointing
        at a deleted room, so it is called only where the caller then fixes
        that user's record. */
    method RemoveUserFromRoom(roomId: RoomId, s: SocketId, now: int)
      modifies this`activeRooms
      ensures activeRooms == Rooms.RemoveUserFromRoom(old(activeRooms), roomId, s, now)
    {
      if roomId !in activeRooms {
        return;
      }
      var room := activeRooms[roomId];
      room := room.(users := Delete(room.users, s));
      room := room.(lastActivity := now);
      activeRooms := activeRooms[roomId := room];
      if |room.users| == 0 && room.isEphemeral {
        activeRooms := activeRooms - {roomId};
      }
    }

    /** `join_room { roomId }`; the fresh ids stand for the `uuidv4()`
        calls: the room id used when none is supplied and the ids of the
        two welcome messages. */
    method JoinRoom(s: SocketId, roomId: Option<RoomId>, freshRoomId: RoomId, welcomeId: string,
                    secondWelcomeId: string, now: int)
      requires Valid()
      modifies this
      ensures Valid()
      ensures Snapshot() == Handlers.JoinRoom(old(Snapshot()), s, roomId, freshRoomId, welcomeId, secondWelcomeId, now)
    {
      if s !in users {
        return;
      }
      var user := users[s];
      if IsTruthy(user.currentRoom) {
        RemoveUserFromRoom(user.currentRoom.value, s, now);
      }
      ghost var left := activeRooms;
      var target := OrElse(roomId, freshRoomId);
      users := users[s := user.(currentRoom := Some(target))];
      EnterRoom(target, s, now, !IsTruthy(roomId));
      AnnounceJoin(user, s, target, welcomeId, secondWelcomeId, now);
      assert Handlers.JoinRoom(old(Snapshot()), s, roomId, freshRoomId, welcomeId, secondWelcomeId, now)
          == Handlers.State(users, Rooms.EnterRoom(left, target, s, now, !IsTruthy(roomId)), outbox);
      Handlers.JoinRoomKeepsInvariant(old(Snapshot()), s, roomId, freshRoomId, welcomeId, secondWelcomeId, now);
    }

    /** The room half of `join_room` after the old room is left: create
        the target room if absent, then add the socket and refresh the
        activity time. */
    method EnterRoom(target: RoomId, s: SocketId, now: int, ephemeral: bool)
      modifies this`activeRooms
      ensures activeRooms == Rooms.EnterRoom(old(activeRooms), target, s, now, ephemeral)
    {
      if target !in activeRooms {
        activeRooms := activeRooms[target := Room([], now, ephemeral)];
      }
      var room := activeRooms[target];
      room := room.(users := Insert(room.users, s));
      room := room.(lastActivity := now);
      activeRooms := activeRooms[target := room];
    }

    /** The four emits of a successful `join_room`: `user_joined` to the
        room, the first welcome, `room_joined`, and the second welcome. */
    method AnnounceJoin(user: User, s: SocketId, target: RoomId, welcomeId: string,
                        secondWelcomeId: string, now: int)
      modifies this`outbox
      ensures outbox == old(outbox) + Handlers.JoinEmits(user, s, target, welcomeId, secondWelcomeId, now)
    {
      var joined := Emit(ToRoom(target), UserJoined(user.userId, user.username, now));
      var welcome := Emit(ToSocket(s), ReceiveMessage(Welcome(welcomeId, target, now)));
      var confirmed := Emit(ToSocket(s), RoomJoined(target));
      var welcomeAgain := Emit(ToSocket(s), ReceiveMessage(Welcome(secondWelcomeId, target, now)));
      outbox := outbox + [joined];
      outbox := outbox + [welcome];
      outbox := outbox + [confirmed];
      outbox := outbox + [welcomeAgain];
      assert outbox == old(outbox) + [joined, welcome, confirmed, welcomeAgain];
    }

    /** `send_message`, with `sanitize` standing for the payload
        normalisation the handler applies first, `score` for the sentiment
        scorer's outcome and `translate` for each recipient's translation
        outcome. The fan-out over the room's members runs in set order. */
    method SendMessage(s: SocketId, raw: Payload, sanitize: Payload -> Payload, score: Option<int>,
                       messageId: string, now: int, translate: SocketId -> Option<string>)
      requires Valid()
      modifies this`outbox
      ensures Valid()
      ensures Snapshot() == Handlers.SendMessage(old(Snapshot()), s, sanitize(raw), score, messageId, now, translate)
    {
      var data := sanitize(raw);
      if s !in users {
        return;
      }
      var user := users[s];
      if !IsTruthy(user.currentRoom) {
        return;
      }
      if user.currentRoom.value !in activeRooms {
        return;
      }
      var room := activeRooms[user.currentRoom.value];
      if !(data.content.JsString? && data.content.text != "") {
        outbox := outbox + [Emit(ToSocket(s), Error(Dispatch.InvalidContent))];
        return;
      }
      var content := data.content.text;
      var moodColor := Mood.ClassifyMood(score);
      var base := Dispatch.Base(messageId, user.userId, user.username, now, moodColor, user.isAnonymous);
      Dispatch.SendEmitsDelivered(users, activeRooms, s, data, score, messageId, now, translate);
      Broadcast(s, base, room.users, content, translate);
    }

    /** The successful path of `send_message`: the original to the sender,
        then the fan-out to the others. */
    method Broadcast(s: SocketId, base: Dispatch.Base, members: seq<SocketId>, content: string,
                     translate: SocketId -> Option<string>)
      modifies this`outbox
      ensures outbox == old(outbox) + ([Emit(ToSocket(s), ReceiveMessage(Dispatch.SenderCopy(base, content)))]
                                       + Dispatch.Deliveries(members, s, users, base, content, translate))
    {
      outbox := outbox + [Emit(ToSocket(s), ReceiveMessage(
        ChatMessage(base.id, content, base.userId, base.username, base.timestamp, base.moodColor, base.isAnonymous,
                    true, Untranslated)))];
      FanOut(members, s, base, content, translate);
    }

    /** The loop over the room's members: every member other than the
        sender that has a user record gets its own copy, in set order. */
    method FanOut(members: seq<SocketId>, s: SocketId, base: Dispatch.Base, content: string,
                  translate: SocketId -> Option<string>)
      modifies this`outbox
      ensures outbox == old(outbox) + Dispatch.Deliveries(members, s, users, base, content, translate)
    {
      var i := 0;
      while i < |members|
        invariant 0 <= i <= |members|
        invariant outbox == old(outbox) + Dispatch.Deliveries(members[..i], s, users, base, content, translate)
      {
        var socketId := members[i];
        assert members[..i + 1][..i] == members[..i];
        if socketId != s && socketId in users {
          var recipient := users[socketId];
          var copy;
          if recipient.language != Dispatch.English {
            var outcome := translate(socketId);
            if outcome.Some? {
              copy := ChatMessage(base.id, outcome.value, base.userId, base.username, base.timestamp, base.moodColor,
                                  base.isAnonymous, false, Translated(Dispatch.English, recipient.language));
            } else {
              copy := ChatMessage(base.id, content, base.userId, base.username, base.timestamp, base.moodColor,
                                  base.isAnonymous, false, Untranslated);
            }
          } else {
            copy := ChatMessage(base.id, content, base.userId, base.username, base.timestamp, base.moodColor,
                                base.isAnonymous, false, Untranslated);
          }
          assert copy == Dispatch.RecipientCopy(base, content, recipient.language, translate(socketId));
          outbox := outbox + [Emit(ToSocket(socketId), ReceiveMessage(copy))];
        }
        i := i + 1;
      }
      assert members[..i] == members;
    }

    /** `toggle_anonymous { isAnonymous }`; `n` is the random number of
        the new alias or fallback name. */
    method ToggleAnonymous(s: SocketId, isAnonymous: bool, n: int)
      requires Valid() && Alias.IsAliasNumber(n)
      modifies this`users, this`outbox
      ensures Valid()
      ensures Snapshot() == Handlers.ToggleAnonymous(old(Snapshot()), s, isAnonymous, n)
    {
      if s !in users {
        return;
      }
      var user := users[s];
      var name;
      if isAnonymous {
        name := Alias.AnonymousAlias(n);
      } else {
        name := Alias.Trim(Alias.StripAliasPrefix(user.username));
        if name == "" {
          name := Alias.UserAlias(n);
        }
        assert name == Alias.RevertedName(user.username, n);
      }
      user := user.(isAnonymous := isAnonymous, username := name);
      users := users[s := user];
      outbox := outbox + [Emit(ToSocket(s), AnonymousToggled(name, isAnonymous))];
      Handlers.ToggleAnonymousKeepsInvariant(old(Snapshot()), s, isAnonymous, n);
    }

    /** `change_language { language }`. */
    method ChangeLanguage(s: SocketId, language: string)
      requires Valid()
      modifies this`users, this`outbox
      ensures Valid()
      ensures Snapshot() == Handlers.ChangeLanguage(old(Snapshot()), s, language)
    {
      if s in users {
        users := users[s := users[s].(language := language)];
        outbox := outbox + [Emit(ToSocket(s), LanguageChanged(language))];
      }
      Handlers.ChangeLanguageKeepsInvariant(old(Snapshot()), s, language);
    }

    /** `disconnect`. */
    method Disconnect(s: SocketId, now: int)
      requires Valid()
      modifies this
      ensures Valid()
      ensures Snapshot() == Handlers.Disconnect(old(Snapshot()), s, now)
    {
      if s in users && IsTruthy(users[s].currentRoom) {
        var user := users[s];
        RemoveUserFromRoom(user.currentRoom.value, s, now);
        outbox := outbox + [Emit(ToRoom(user.currentRoom.value), UserLeft(user.userId, user.username, now))];
      }
      users := users - {s};
      Handlers.DisconnectKeepsInvariant(old(Snapshot()), s, now);
    }

    /** The body of the cleanup interval at `now`; `order` is the iteration
        order of `activeRooms`. */
    method Sweep(order: seq<RoomId>, now: int)
      requires Valid() && Sweeper.IsListing(order, activeRooms)
      modifies this
      ensures Valid()
      ensures Snapshot() == Handlers.Sweep(old(Snapshot()), order, now)
    {
      ghost var st0 := Snapshot();
      Handlers.SweepPrefixEmpty(st0, now);
      var i := 0;
      while i < |order|
        invariant 0 <= i <= |order|
        invariant Snapshot() == Handlers.SweepPrefix(st0, order[..i], now)
      {
        var roomId := order[i];
        assert roomId !in order[..i];
        assert order[..i + 1] == order[..i] + [roomId];
        Handlers.SweepPrefixStep(st0, order[..i], roomId, now);
        VisitRoom(roomId, now);
        i := i + 1;
      }
      assert order[..i] == order;
      Handlers.SweepPrefixComplete(st0, order, now);
      Handlers.SweepKeepsInvariant(st0, order, now);
    }

    /** One round of the sweep's loop: an empty room is deleted; a stale
        occupied room is told `room_expired`, its members' `currentRoom` is
        cleared, and it is deleted; any other room is kept. */
    method VisitRoom(roomId: RoomId, now: int)
      requires roomId in activeRooms
      modifies this
      ensures Snapshot() == Handlers.Visit(old(Snapshot()), roomId, now)
    {
      var room := activeRooms[roomId];
      if |room.users| == 0 {
        activeRooms := activeRooms - {roomId};
      } else if room.isEphemeral && now - room.lastActivity > Sweeper.IdleLimit {
        outbox := outbox + [Emit(ToRoom(roomId), RoomExpired(roomId))];
        ClearMembers(room.users);
        activeRooms := activeRooms - {roomId};
      }
    }

    /** The inner loop of an expiry: every listed member that still has a
        user record gets its `currentRoom` set to null. */
    method ClearMembers(members: seq<SocketId>)
      modifies this`users
      ensures users == Sweeper.ClearRooms(old(users), Sweeper.Listed(members))
    {
      var j := 0;
      while j < |members|
        invariant 0 <= j <= |members|
        invariant users == Sweeper.ClearRooms(old(users), Sweeper.Listed(members[..j]))
      {
        var socketId := members[j];
        assert members[..j + 1] == members[..j] + [socketId];
        Sweeper.ClearOneMore(old(users), members[..j], socketId);
        if socketId in users {
          users := users[socketId := users[socketId].(currentRoom := None)];
        }
        j := j + 1;
      }
      assert members[..j] == members;
    }
  }
}
