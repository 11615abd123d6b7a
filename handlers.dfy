/** The handlers of one connection as transitions of the manager's state:
    the user registry, the room directory and the log of emitted events.
    Each function is the specification of the method of the same name in
    `SocketManager.Manager`; the lemmas state what the handlers promise and
    that each keeps the membership invariant. */
module Handlers {
  import opened Common
  import opened Chat
  import opened Rooms
  import opened Alias
  import opened Dispatch
  import opened Sweeper

  datatype State = State(users: map<SocketId, User>, rooms: map<RoomId, Room>, outbox: seq<Emit>)

  const Initial := State(map[], map[], [])

  /** Every set `currentRoom` names an existing room that lists the user,
      and no room lists a socket twice. */
  ghost predicate Inv(st: State)
  {
    MembershipInvariant(st.users, st.rooms) && RoomsWellFormed(st.rooms)
  }

  /** `join_app`: a new record for the connection, replacing any earlier
      one, and `user_data` back to the connection. */
  function JoinApp(st: State, s: SocketId, username: string, isAnonymous: bool, userId: Option<UserId>,
                   language: Option<string>, freshUserId: UserId, n: int): State
    requires IsAliasNumber(n)
  {
    var user := User(s, OrElse(userId, freshUserId), if isAnonymous then AnonymousAlias(n) else username,
                     isAnonymous, OrElse(language, English), None);
    State(st.users[s := user], st.rooms,
          st.outbox + [Emit(ToSocket(s), UserData(user.userId, user.username, user.isAnonymous))])
  }

  /** The four emits of a successful `join_room`, in the source's order: the
      room is told first, then the joiner gets the welcome message, the
      `room_joined` confirmation and the welcome message again. */
  function JoinEmits(user: User, s: SocketId, target: RoomId, welcomeId: string, secondWelcomeId: string,
                     now: int): seq<Emit>
  {
    [ Emit(ToRoom(target), UserJoined(user.userId, user.username, now)),
      Emit(ToSocket(s), ReceiveMessage(Welcome(welcomeId, target, now))),
      Emit(ToSocket(s), RoomJoined(target)),
      Emit(ToSocket(s), ReceiveMessage(Welcome(secondWelcomeId, target, now))) ]
  }

  /** The room `join_room` enters: the supplied id, or a fresh one. */
  function TargetRoom(roomId: Option<RoomId>, freshRoomId: RoomId): RoomId
  {
    OrElse(roomId, freshRoomId)
  }

  /** `join_room`: leave the current room, then enter the target room. */
  function JoinRoom(st: State, s: SocketId, roomId: Option<RoomId>, freshRoomId: RoomId, welcomeId: string,
                    secondWelcomeId: string, now: int): State
  {
    if s !in st.users then st
    else
      var user := st.users[s];
      var left := if IsTruthy(user.currentRoom) then RemoveUserFromRoom(st.rooms, user.currentRoom.value, s, now)
                  else st.rooms;
      var target := TargetRoom(roomId, freshRoomId);
      State(st.users[s := user.(currentRoom := Some(target))],
            EnterRoom(left, target, s, now, !IsTruthy(roomId)),
            st.outbox + JoinEmits(user, s, target, welcomeId, secondWelcomeId, now))
  }

  /** `send_message` with the normalised payload: only the log changes. */
  function SendMessage(st: State, s: SocketId, data: Payload, score: Option<int>, messageId: string, now: int,
                       translate: SocketId -> Option<string>): State
  {
    st.(outbox := st.outbox + SendEmits(st.users, st.rooms, s, data, score, messageId, now, translate))
  }

  /** `toggle_anonymous`. */
  function ToggleAnonymous(st: State, s: SocketId, isAnonymous: bool, n: int): State
    requires IsAliasNumber(n)
  {
    if s !in st.users then st
    else
      var user := st.users[s];
      var name := if isAnonymous then AnonymousAlias(n) else RevertedName(user.username, n);
      State(st.users[s := user.(isAnonymous := isAnonymous, username := name)], st.rooms,
            st.outbox + [Emit(ToSocket(s), AnonymousToggled(name, isAnonymous))])
  }

  /** `change_language`. */
  function ChangeLanguage(st: State, s: SocketId, language: string): State
  {
    if s !in st.users then st
    else
      State(st.users[s := st.users[s].(language := language)], st.rooms,
            st.outbox + [Emit(ToSocket(s), LanguageChanged(language))])
  }

  /** `disconnect`: leave the current room and tell it, then drop the
      record. */
  function Disconnect(st: State, s: SocketId, now: int): State
  {
    if s in st.users && IsTruthy(st.users[s].currentRoom) then
      var user := st.users[s];
      var r := user.currentRoom.value;
      State(st.users - {s}, RemoveUserFromRoom(st.rooms, r, s, now),
            st.outbox + [Emit(ToRoom(r), UserLeft(user.userId, user.username, now))])
    else
      State(st.users - {s}, st.rooms, st.outbox)
  }

  /** One run of the cleanup interval at `now`, visiting the rooms in the
      map's iteration order `order`. */
  function Sweep(st: State, order: seq<RoomId>, now: int): State
    requires IsListing(order, st.rooms)
  {
    State(ClearRooms(st.users, ExpiredMembers(st.rooms, now)), SweptRooms(st.rooms, now),
          st.outbox + ExpiryNotices(order, st.rooms, now))
  }

  /** The state once the sweep has visited the rooms in `visited`. */
  function SweepPrefix(st: State, visited: seq<RoomId>, now: int): State
  {
    State(ClearRooms(st.users, ClearedAmong(visited, st.rooms, now)), SweptAmong(visited, st.rooms, now),
          st.outbox + ExpiryNotices(visited, st.rooms, now))
  }

  /** One round of the sweep's loop on room `x`. */
  function Visit(st: State, x: RoomId, now: int): State
    requires x in st.rooms
  {
    var room := st.rooms[x];
    if |room.users| == 0 then st.(rooms := st.rooms - {x})
    else if IsStale(room, now) then
      State(ClearRooms(st.users, Listed(room.users)), st.rooms - {x}, st.outbox + [Emit(ToRoom(x), RoomExpired(x))])
    else st
  }

  lemma SweepPrefixEmpty(st: State, now: int)
    ensures SweepPrefix(st, [], now) == st
  {
    assert ClearRooms(st.users, {}) == st.users;
    assert SweptAmong([], st.rooms, now) == st.rooms;
  }

  /** Visiting one more unvisited room is one round of the loop. */
  lemma SweepPrefixStep(st: State, visited: seq<RoomId>, x: RoomId, now: int)
    requires x in st.rooms && x !in visited
    ensures x in SweepPrefix(st, visited, now).rooms
    ensures SweepPrefix(st, visited + [x], now) == Visit(SweepPrefix(st, visited, now), x, now)
  {
    UnvisitedSurvives(visited, x, st.rooms, now);
    SweepStep(visited, x, st.rooms, st.users, now);
  }

  /** A visit of every room once is the whole sweep. */
  lemma SweepPrefixComplete(st: State, order: seq<RoomId>, now: int)
    requires IsListing(order, st.rooms)
    ensures SweepPrefix(st, order, now) == Sweep(st, order, now)
  {
    ClearedByFullVisit(order, st.rooms, now);
    SweptByFullVisit(order, st.rooms, now);
  }

  // ---------------------------------------------------------------------
  // Identity handlers

  /** The record `join_app` stores: a supplied non-empty user id is kept,
      otherwise the fresh one is used; a missing or empty language becomes
      English; an anonymous user is named `Anonymous` and the drawn number; the user is in no
      room. Nothing else changes but the log. */
  lemma JoinAppRecord(st: State, s: SocketId, username: string, isAnonymous: bool, userId: Option<UserId>,
                      language: Option<string>, freshUserId: UserId, n: int)
    requires IsAliasNumber(n)
    ensures var r := JoinApp(st, s, username, isAnonymous, userId, language, freshUserId, n);
      && s in r.users && r.users.Keys == st.users.Keys + {s}
      && (forall x | x in st.users && x != s :: r.users[x] == st.users[x])
      && r.rooms == st.rooms
      && r.users[s].socketId == s
      && r.users[s].userId == (if userId.Some? && userId.value != "" then userId.value else freshUserId)
      && r.users[s].language == (if language.Some? && language.value != "" then language.value else English)
      && r.users[s].isAnonymous == isAnonymous
      && (isAnonymous ==> r.users[s].username == AnonymousAlias(n))
      && (isAnonymous ==> HasAliasPrefix(r.users[s].username) && |r.users[s].username| == 13)
      && (!isAnonymous ==> r.users[s].username == username)
      && r.users[s].currentRoom == None
      && r.outbox == st.outbox + [Emit(ToSocket(s), UserData(r.users[s].userId, r.users[s].username, isAnonymous))]
  {
  }

  /** `toggle_anonymous`: nothing for an unknown socket; otherwise the
      flag is stored, switching on draws a new alias, and switching off
      strips one alias, trims, and falls back to `User####` when nothing is
      left. The reply carries the new name and flag. */
  lemma ToggleAnonymousEffect(st: State, s: SocketId, isAnonymous: bool, n: int)
    requires IsAliasNumber(n)
    ensures var r := ToggleAnonymous(st, s, isAnonymous, n);
      && (s !in st.users ==> r == st)
      && (s in st.users ==>
            && r.rooms == st.rooms && r.users.Keys == st.users.Keys
            && (forall x | x in st.users && x != s :: r.users[x] == st.users[x])
            && r.users[s] == st.users[s].(isAnonymous := isAnonymous, username := r.users[s].username)
            && (isAnonymous ==> r.users[s].username == AnonymousAlias(n))
            && (!isAnonymous && Trim(StripAliasPrefix(st.users[s].username)) == [] ==>
                  r.users[s].username == UserAlias(n))
            && (!isAnonymous && Trim(StripAliasPrefix(st.users[s].username)) != [] ==>
                  r.users[s].username == Trim(StripAliasPrefix(st.users[s].username)))
            && r.outbox == st.outbox + [Emit(ToSocket(s), AnonymousToggled(r.users[s].username, isAnonymous))])
  {
  }

  /** Going anonymous and back with nothing else in between always ends in a
      `User####` name: the original name is not remembered. */
  lemma ToggleTwiceForgetsName(st: State, s: SocketId, m: int, n: int)
    requires IsAliasNumber(m) && IsAliasNumber(n)
    requires s in st.users
    ensures ToggleAnonymous(ToggleAnonymous(st, s, true, m), s, false, n).users[s].username == UserAlias(n)
  {
    AliasRevertsToUserName(m, n);
  }

  /** `change_language`: nothing for an unknown socket; otherwise only the
      language changes and the reply echoes it. */
  lemma ChangeLanguageEffect(st: State, s: SocketId, language: string)
    ensures var r := ChangeLanguage(st, s, language);
      && (s !in st.users ==> r == st)
      && (s in st.users ==>
            && r.rooms == st.rooms && r.users.Keys == st.users.Keys
            && (forall x | x in st.users && x != s :: r.users[x] == st.users[x])
            && r.users[s] == st.users[s].(language := language)
            && r.outbox == st.outbox + [Emit(ToSocket(s), LanguageChanged(language))])
  {
  }

  // ---------------------------------------------------------------------
  // Room membership

  /** `join_room`: nothing for an unknown socket. Otherwise the socket has
      left its previous room, which is deleted when it was ephemeral and
      the socket was its only member and otherwise loses just the socket and
      has its activity time refreshed; it is a member of the target room; a room that
      exists after the leave keeps its flag, and a room created here (new,
      or the user's own ephemeral room deleted by the leave) is ephemeral
      exactly when no id was supplied; the user's `currentRoom` is the target; the target's
      activity time is `now`; rooms other than the two involved are
      untouched; and `user_joined` goes to the target room, which already
      lists the joiner. */
  lemma JoinRoomMembership(st: State, s: SocketId, roomId: Option<RoomId>, freshRoomId: RoomId, welcomeId: string,
                           secondWelcomeId: string, now: int)
    ensures var r := JoinRoom(st, s, roomId, freshRoomId, welcomeId, secondWelcomeId, now);
            var target := TargetRoom(roomId, freshRoomId);
      && (s !in st.users ==> r == st)
      && (s in st.users ==>
            var user := st.users[s];
            var previous := user.currentRoom;
            && target == (if IsTruthy(roomId) then roomId.value else freshRoomId)
            && r.users == st.users[s := user.(currentRoom := Some(target))]
            && target in r.rooms && s in r.rooms[target].users && r.rooms[target].lastActivity == now
            && (forall y :: y in r.rooms[target].users <==>
                  y == s || (target in st.rooms && y in st.rooms[target].users))
            && r.rooms[target].isEphemeral ==
                 (if target in st.rooms && !(IsTruthy(previous) && previous.value == target &&
                                             st.rooms[target].isEphemeral &&
                                             forall y | y in st.rooms[target].users :: y == s)
                  then st.rooms[target].isEphemeral
                  else !IsTruthy(roomId))
            && (IsTruthy(previous) && previous.value != target && previous.value in r.rooms ==>
                  s !in r.rooms[previous.value].users)
            && (IsTruthy(previous) && previous.value != target && previous.value in st.rooms ==>
                  var c := previous.value;
                  && (c in r.rooms <==> !(st.rooms[c].isEphemeral && forall y | y in st.rooms[c].users :: y == s))
                  && (c in r.rooms ==> r.rooms[c] == Room(Delete(st.rooms[c].users, s), now, st.rooms[c].isEphemeral)))
            && (forall x | x in st.rooms && x != target && !(IsTruthy(previous) && x == previous.value) ::
                  x in r.rooms && r.rooms[x] == st.rooms[x])
            && r.rooms.Keys <= st.rooms.Keys + {target}
            && r.outbox == st.outbox + JoinEmits(user, s, target, welcomeId, secondWelcomeId, now)
            && r.outbox[|st.outbox|] == Emit(ToRoom(target), UserJoined(user.userId, user.username, now)))
  {
    if s in st.users {
      var user := st.users[s];
      var left := if IsTruthy(user.currentRoom) then RemoveUserFromRoom(st.rooms, user.currentRoom.value, s, now)
                  else st.rooms;
      var target := TargetRoom(roomId, freshRoomId);
      var r := JoinRoom(st, s, roomId, freshRoomId, welcomeId, secondWelcomeId, now);
      if IsTruthy(user.currentRoom) && user.currentRoom.value != target && user.currentRoom.value in r.rooms {
        var c := user.currentRoom.value;
        assert s !in left[c].users;
      }
    }
  }

  /** Rejoining, by its id, an ephemeral room one is alone in deletes it on
      the way out and recreates it as a room with an explicit id: it is no
      longer ephemeral. */
  lemma RejoinOwnEphemeralRoom(st: State, s: SocketId, r: RoomId, freshRoomId: RoomId, welcomeId: string,
                               secondWelcomeId: string, now: int)
    requires s in st.users && st.users[s].currentRoom == Some(r) && r != ""
    requires r in st.rooms && st.rooms[r] == Room([s], st.rooms[r].lastActivity, true)
    ensures var after := JoinRoom(st, s, Some(r), freshRoomId, welcomeId, secondWelcomeId, now);
      r in after.rooms && after.rooms[r] == Room([s], now, false)
  {
    var left := RemoveUserFromRoom(st.rooms, r, s, now);
    assert r !in left;
  }

  /** `join_room` keeps the membership invariant. */
  lemma JoinRoomKeepsInvariant(st: State, s: SocketId, roomId: Option<RoomId>, freshRoomId: RoomId,
                               welcomeId: string, secondWelcomeId: string, now: int)
    requires Inv(st)
    ensures Inv(JoinRoom(st, s, roomId, freshRoomId, welcomeId, secondWelcomeId, now))
  {
    if s in st.users {
      var user := st.users[s];
      var others := st.users - {s};
      var left := if IsTruthy(user.currentRoom) then RemoveUserFromRoom(st.rooms, user.currentRoom.value, s, now)
                  else st.rooms;
      if IsTruthy(user.currentRoom) {
        LeaveKeepsOthers(st.users, st.rooms, user.currentRoom.value, s, now);
      }
      assert MembershipInvariant(others, left) && RoomsWellFormed(left);
      var target := TargetRoom(roomId, freshRoomId);
      var entered := EnterRoom(left, target, s, now, !IsTruthy(roomId));
      var record := user.(currentRoom := Some(target));
      EnterKeepsOthers(others, left, target, s, now, !IsTruthy(roomId));
      RecordKeepsInvariant(st.users, entered, s, record);
      var r := JoinRoom(st, s, roomId, freshRoomId, welcomeId, secondWelcomeId, now);
      assert r.users == st.users[s := record] && r.rooms == entered;
    }
  }

  /** `disconnect` always drops the record; it tells the room `user_left`
      exactly when the user was in one, after leaving it. */
  lemma DisconnectEffect(st: State, s: SocketId, now: int)
    ensures var r := Disconnect(st, s, now);
      && s !in r.users && r.users == st.users - {s}
      && (s in st.users && IsTruthy(st.users[s].currentRoom) ==>
            var c := st.users[s].currentRoom.value;
            && r.rooms == RemoveUserFromRoom(st.rooms, c, s, now)
            && (c in r.rooms ==> s !in r.rooms[c].users)
            && r.outbox == st.outbox + [Emit(ToRoom(c), UserLeft(st.users[s].userId, st.users[s].username, now))])
      && (!(s in st.users && IsTruthy(st.users[s].currentRoom)) ==> r.rooms == st.rooms && r.outbox == st.outbox)
  {
  }

  /** `disconnect` keeps the membership invariant. */
  lemma DisconnectKeepsInvariant(st: State, s: SocketId, now: int)
    requires Inv(st)
    ensures Inv(Disconnect(st, s, now))
  {
    if s in st.users && IsTruthy(st.users[s].currentRoom) {
      LeaveKeepsOthers(st.users, st.rooms, st.users[s].currentRoom.value, s, now);
    }
  }

  /** `join_app` keeps the membership invariant: the new record is in no
      room, and earlier memberships are left as they are. */
  lemma JoinAppKeepsInvariant(st: State, s: SocketId, username: string, isAnonymous: bool, userId: Option<UserId>,
                              language: Option<string>, freshUserId: UserId, n: int)
    requires IsAliasNumber(n)
    requires Inv(st)
    ensures Inv(JoinApp(st, s, username, isAnonymous, userId, language, freshUserId, n))
  {
  }

  /** The invariant has no converse: after a repeated `join_app` the room
      still lists the socket while the new record is in no room. */
  lemma MembershipHasNoConverse()
    ensures var st1 := JoinApp(Initial, "s", "Ann", false, None, None, "u1", 1000);
            var st2 := JoinRoom(st1, "s", Some("general"), "r1", "w1", "w2", 0);
            var st3 := JoinApp(st2, "s", "Ann", false, None, None, "u2", 1000);
      && Inv(st3)
      && "general" in st3.rooms && "s" in st3.rooms["general"].users
      && st3.users["s"].currentRoom == None
  {
    var st1 := JoinApp(Initial, "s", "Ann", false, None, None, "u1", 1000);
    JoinAppKeepsInvariant(Initial, "s", "Ann", false, None, None, "u1", 1000);
    JoinRoomKeepsInvariant(st1, "s", Some("general"), "r1", "w1", "w2", 0);
    JoinRoomMembership(st1, "s", Some("general"), "r1", "w1", "w2", 0);
    var st2 := JoinRoom(st1, "s", Some("general"), "r1", "w1", "w2", 0);
    JoinAppKeepsInvariant(st2, "s", "Ann", false, None, None, "u2", 1000);
  }

  // ---------------------------------------------------------------------
  // Sweep

  /** The sweep keeps the membership invariant: a room it deletes is either
      empty, so no user points at it, or expired, and then every user that
      points at it is one of its members and has been cleared. */
  lemma SweepKeepsInvariant(st: State, order: seq<RoomId>, now: int)
    requires Inv(st) && IsListing(order, st.rooms)
    ensures Inv(Sweep(st, order, now))
  {
    var r := Sweep(st, order, now);
    forall u | u in r.users && r.users[u].currentRoom.Some?
      ensures r.users[u].currentRoom.value in r.rooms && u in r.rooms[r.users[u].currentRoom.value].users
    {
      var c := st.users[u].currentRoom.value;
      assert u !in ExpiredMembers(st.rooms, now);
      assert c in st.rooms && u in st.rooms[c].users;
      assert !IsExpired(st.rooms[c], now);
    }
  }

  /** The sweep notifies every room it expires once, and only those. */
  lemma SweepNotices(st: State, order: seq<RoomId>, now: int, x: RoomId)
    requires IsListing(order, st.rooms)
    ensures var r := Sweep(st, order, now);
            var notices := r.outbox[|st.outbox|..];
      && r.outbox == st.outbox + notices
      && multiset(notices)[Emit(ToRoom(x), RoomExpired(x))]
         == (if x in st.rooms && IsExpired(st.rooms[x], now) then 1 else 0)
      && (forall e | e in notices :: e.event.RoomExpired? && e.target == ToRoom(e.event.roomId) &&
                                     e.event.roomId in st.rooms && IsExpired(st.rooms[e.event.roomId], now))
  {
    var r := Sweep(st, order, now);
    assert r.outbox[|st.outbox|..] == ExpiryNotices(order, st.rooms, now);
    ExpiryNoticesOnly(order, st.rooms, now);
    ExpiryNoticesCount(order, st.rooms, now, x);
  }

  /** The sweep clears the `currentRoom` of every socket an expired room
      lists, whatever room the record names: a connection that re-announced
      itself while in an ephemeral room and then joined "general" is left
      with no current room when the old room expires, although "general"
      survives and still lists it. */
  lemma SweepClearsStaleListing()
    ensures var st1 := JoinApp(Initial, "s", "Ann", false, None, None, "u1", 1000);
            var st2 := JoinRoom(st1, "s", None, "eph", "w1", "w2", 0);
            var st3 := JoinApp(st2, "s", "Ann", false, None, None, "u1", 1000);
            var st4 := JoinRoom(st3, "s", Some("general"), "r1", "w3", "w4", 0);
            var swept := Sweep(st4, ["eph", "general"], IdleLimit + 1);
      && st4.users["s"].currentRoom == Some("general")
      && "eph" !in swept.rooms
      && "general" in swept.rooms && "s" in swept.rooms["general"].users
      && swept.users["s"].currentRoom == None
  {
    var st1 := JoinApp(Initial, "s", "Ann", false, None, None, "u1", 1000);
    var st2 := JoinRoom(st1, "s", None, "eph", "w1", "w2", 0);
    assert st1.users["s"].currentRoom == None && st1.rooms == map[];
    assert Insert([], "s") == ["s"];
    assert st2.rooms == EnterRoom(map[], "eph", "s", 0, true);
    assert st2.rooms == map["eph" := Room(["s"], 0, true)];
    var st3 := JoinApp(st2, "s", "Ann", false, None, None, "u1", 1000);
    var st4 := JoinRoom(st3, "s", Some("general"), "r1", "w3", "w4", 0);
    assert st4.rooms == map["eph" := Room(["s"], 0, true), "general" := Room(["s"], 0, false)];
    assert "s" in ExpiredMembers(st4.rooms, IdleLimit + 1);
  }

  /** Every recorded socket listed by an expiring room loses its current
      room, whatever room the record names; every other record keeps it. */
  lemma SweepClearsExpiredMembers(st: State, order: seq<RoomId>, now: int)
    requires IsListing(order, st.rooms)
    ensures var r := Sweep(st, order, now);
      && r.users.Keys == st.users.Keys
      && (forall u | u in st.users && u in ExpiredMembers(st.rooms, now) :: r.users[u].currentRoom == None)
      && (forall u | u in st.users && u !in ExpiredMembers(st.rooms, now) :: r.users[u] == st.users[u])
  {
  }

  /** A second sweep at the same instant changes nothing and says nothing. */
  lemma SweepIdempotent(st: State, order: seq<RoomId>, order2: seq<RoomId>, now: int)
    requires IsListing(order, st.rooms)
    requires IsListing(order2, Sweep(st, order, now).rooms)
    ensures Sweep(Sweep(st, order, now), order2, now) == Sweep(st, order, now)
  {
    var st2 := Sweep(st, order, now);
    assert forall x | x in st2.rooms :: !IsEvicted(st2.rooms[x], now);
    NoNoticesWithoutExpiry(order2, st2.rooms, now);
    assert ExpiredMembers(st2.rooms, now) == {};
    assert ClearRooms(st2.users, {}) == st2.users;
    assert SweptRooms(st2.rooms, now) == st2.rooms;
  }

  // ---------------------------------------------------------------------
  // Handlers that leave rooms and memberships alone

  lemma ToggleAnonymousKeepsInvariant(st: State, s: SocketId, isAnonymous: bool, n: int)
    requires IsAliasNumber(n)
    requires Inv(st)
    ensures Inv(ToggleAnonymous(st, s, isAnonymous, n))
  {
  }

  lemma ChangeLanguageKeepsInvariant(st: State, s: SocketId, language: string)
    requires Inv(st)
    ensures Inv(ChangeLanguage(st, s, language))
  {
  }
}
