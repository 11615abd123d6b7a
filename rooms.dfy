/** The room directory: leaving a room, entering one, and the invariant that
    ties each user's `currentRoom` to the room's membership set. */
module Rooms {
  import opened Common
  import opened Chat

  /** `removeUserFromRoom(roomId, socketId)`: nothing happens for an absent
      room; otherwise the socket leaves, the activity time is refreshed, and
      the room is deleted only when it is now empty AND ephemeral. An empty
      room that was created with an explicit id stays. */
  function RemoveUserFromRoom(rooms: map<RoomId, Room>, roomId: RoomId, s: SocketId, now: int): (r: map<RoomId, Room>)
    ensures roomId !in rooms ==> r == rooms
    ensures r.Keys <= rooms.Keys
    ensures forall x | x in rooms && x != roomId :: x in r && r[x] == rooms[x]
    ensures roomId in rooms ==>
      (roomId !in r <==> rooms[roomId].isEphemeral && forall y | y in rooms[roomId].users :: y == s)
    ensures roomId in r ==>
      r[roomId] == Room(Delete(rooms[roomId].users, s), now, rooms[roomId].isEphemeral)
  {
    if roomId !in rooms then rooms
    else
      var room := rooms[roomId].(users := Delete(rooms[roomId].users, s), lastActivity := now);
      assert |room.users| == 0 <==> forall y | y in rooms[roomId].users :: y == s by {
        if |room.users| > 0 { assert room.users[0] in room.users; }
      }
      if |room.users| == 0 && room.isEphemeral then rooms - {roomId}
      else rooms[roomId := room]
  }

  /** The room-directory half of `join_room` once the old room is left:
      create the target room if it is absent (with the given ephemeral
      flag), then add the socket and refresh the activity time. An existing
      room keeps its flag. */
  function EnterRoom(rooms: map<RoomId, Room>, target: RoomId, s: SocketId, now: int, ephemeral: bool): (r: map<RoomId, Room>)
    ensures r.Keys == rooms.Keys + {target}
    ensures forall x | x in rooms && x != target :: r[x] == rooms[x]
    ensures s in r[target].users && r[target].lastActivity == now
    ensures r[target].isEphemeral == if target in rooms then rooms[target].isEphemeral else ephemeral
    ensures forall y :: y in r[target].users <==> y == s || (target in rooms && y in rooms[target].users)
  {
    var rooms1 := if target in rooms then rooms else rooms[target := Room([], now, ephemeral)];
    var room := rooms1[target];
    rooms1[target := room.(users := Insert(room.users, s), lastActivity := now)]
  }

  /** Whenever a user's `currentRoom` is set, that room exists and counts
      the user's socket among its members. The converse is not promised. */
  ghost predicate MembershipInvariant(users: map<SocketId, User>, rooms: map<RoomId, Room>)
  {
    forall s | s in users && users[s].currentRoom.Some? ::
      users[s].currentRoom.value in rooms && s in rooms[users[s].currentRoom.value].users
  }

  /** Each membership set is a set: no socket listed twice. */
  ghost predicate RoomsWellFormed(rooms: map<RoomId, Room>)
  {
    forall x | x in rooms :: NoDup(rooms[x].users)
  }

  /** Leaving a room keeps every other user's membership: a room that
      still lists another user is not empty, so it is not deleted. */
  lemma LeaveKeepsOthers(users: map<SocketId, User>, rooms: map<RoomId, Room>, c: RoomId, s: SocketId, now: int)
    requires MembershipInvariant(users, rooms) && RoomsWellFormed(rooms)
    ensures MembershipInvariant(users - {s}, RemoveUserFromRoom(rooms, c, s, now))
    ensures RoomsWellFormed(RemoveUserFromRoom(rooms, c, s, now))
  {
    var r := RemoveUserFromRoom(rooms, c, s, now);
    forall u | u in users - {s} && users[u].currentRoom.Some?
      ensures users[u].currentRoom.value in r && u in r[users[u].currentRoom.value].users
    {
      var d := users[u].currentRoom.value;
      if d == c {
        assert u in Delete(rooms[c].users, s);
      }
    }
  }

  /** Entering a room keeps every membership already recorded. */
  lemma EnterKeepsOthers(users: map<SocketId, User>, rooms: map<RoomId, Room>, target: RoomId, s: SocketId,
                         now: int, ephemeral: bool)
    requires MembershipInvariant(users, rooms) && RoomsWellFormed(rooms)
    ensures MembershipInvariant(users, EnterRoom(rooms, target, s, now, ephemeral))
    ensures RoomsWellFormed(EnterRoom(rooms, target, s, now, ephemeral))
  {
    var r := EnterRoom(rooms, target, s, now, ephemeral);
    assert target in rooms ==> NoDup(rooms[target].users);
    assert NoDup(r[target].users);
  }

  /** Recording a user in a room that lists it keeps the invariant. */
  lemma RecordKeepsInvariant(users: map<SocketId, User>, rooms: map<RoomId, Room>, s: SocketId, u: User)
    requires MembershipInvariant(users - {s}, rooms)
    requires u.currentRoom.Some? ==> u.currentRoom.value in rooms && s in rooms[u.currentRoom.value].users
    ensures MembershipInvariant(users[s := u], rooms)
  {
    var after := users[s := u];
    forall x | x in after && after[x].currentRoom.Some?
      ensures after[x].currentRoom.value in rooms && x in rooms[after[x].currentRoom.value].users
    {
      if x != s {
        assert x in users - {s} && (users - {s})[x] == after[x];
      }
    }
  }
}
