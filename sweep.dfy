/** The body of the periodic cleanup: every empty room is removed, and every
    ephemeral room idle for more than 30 minutes is removed after a
    `room_expired` notice to it and after its members' `currentRoom` is
    cleared. The interval timer itself is not modelled; `now` is a
    parameter, in milliseconds. */
module Sweeper {
  import opened Common
  import opened Chat

  /** The idle budget of an ephemeral room, in milliseconds. */
  const IdleLimit := 30 * 60 * 1000

  /** Ephemeral and idle for strictly longer than the budget. */
  predicate IsStale(room: Room, now: int)
  {
    room.isEphemeral && now - room.lastActivity > IdleLimit
  }

  /** Deleted by the sweep: empty, or stale. */
  predicate IsEvicted(room: Room, now: int)
  {
    |room.users| == 0 || IsStale(room, now)
  }

  /** Deleted by the sweep with a notice: occupied and stale. */
  predicate IsExpired(room: Room, now: int)
  {
    |room.users| != 0 && IsStale(room, now)
  }

  /** The rooms that survive a sweep at `now`. */
  function SweptRooms(rooms: map<RoomId, Room>, now: int): (r: map<RoomId, Room>)
    ensures r.Keys <= rooms.Keys
    ensures forall x | x in r :: r[x] == rooms[x]
    ensures forall x | x in rooms && |rooms[x].users| == 0 :: x !in r
    ensures forall x | x in rooms && IsStale(rooms[x], now) :: x !in r
    ensures forall x | x in rooms && |rooms[x].users| != 0 && !rooms[x].isEphemeral :: x in r
    ensures forall x | x in rooms && |rooms[x].users| != 0 && now - rooms[x].lastActivity <= IdleLimit :: x in r
  {
    map x | x in rooms && !IsEvicted(rooms[x], now) :: rooms[x]
  }

  /** The rooms left once the rooms in `order` have been visited. */
  function SweptAmong(order: seq<RoomId>, rooms: map<RoomId, Room>, now: int): map<RoomId, Room>
  {
    map x | x in rooms && !(x in order && IsEvicted(rooms[x], now)) :: rooms[x]
  }

  /** Visiting one more room removes it exactly when it is evicted. */
  lemma SweptAmongStep(order: seq<RoomId>, x: RoomId, rooms: map<RoomId, Room>, now: int)
    requires x in rooms && x !in order
    ensures SweptAmong(order + [x], rooms, now)
         == if IsEvicted(rooms[x], now) then SweptAmong(order, rooms, now) - {x} else SweptAmong(order, rooms, now)
  {
    var a, b := SweptAmong(order + [x], rooms, now), SweptAmong(order, rooms, now);
    forall y ensures y in a <==> y in b && !(y == x && IsEvicted(rooms[x], now)) {
      assert y in order + [x] <==> y in order || y == x;
    }
  }

  /** A room not yet visited is still there, unchanged. */
  lemma UnvisitedSurvives(order: seq<RoomId>, x: RoomId, rooms: map<RoomId, Room>, now: int)
    requires x in rooms && x !in order
    ensures x in SweptAmong(order, rooms, now) && SweptAmong(order, rooms, now)[x] == rooms[x]
  {
  }

  /** Visiting every room once leaves exactly the rooms that survive. */
  lemma SweptByFullVisit(order: seq<RoomId>, rooms: map<RoomId, Room>, now: int)
    requires IsListing(order, rooms)
    ensures SweptAmong(order, rooms, now) == SweptRooms(rooms, now)
  {
  }

  /** The sockets a membership list names. */
  function Listed(members: seq<SocketId>): set<SocketId>
  {
    set s | s in members
  }

  /** The sockets listed in some room that expires at `now`. */
  function ExpiredMembers(rooms: map<RoomId, Room>, now: int): set<SocketId>
  {
    set x, s | x in rooms && IsExpired(rooms[x], now) && s in rooms[x].users :: s
  }

  /** The user records with `currentRoom` set to null for the given
      sockets; sockets without a record are skipped. */
  function ClearRooms(users: map<SocketId, User>, cleared: set<SocketId>): (u: map<SocketId, User>)
    ensures u.Keys == users.Keys
    ensures forall s | s in users && s !in cleared :: u[s] == users[s]
    ensures forall s | s in users && s in cleared :: u[s] == users[s].(currentRoom := None)
  {
    map s | s in users :: if s in cleared then users[s].(currentRoom := None) else users[s]
  }

  /** The `room_expired` notices of a sweep that visits the rooms in the
      given order. */
  function ExpiryNotices(order: seq<RoomId>, rooms: map<RoomId, Room>, now: int): seq<Emit>
  {
    if |order| == 0 then []
    else
      var x := order[|order| - 1];
      ExpiryNotices(order[..|order| - 1], rooms, now)
      + (if x in rooms && IsExpired(rooms[x], now) then [Emit(ToRoom(x), RoomExpired(x))] else [])
  }

  /** The members cleared by a sweep that has visited the rooms in `order`. */
  function ClearedAmong(order: seq<RoomId>, rooms: map<RoomId, Room>, now: int): set<SocketId>
  {
    if |order| == 0 then {}
    else
      var x := order[|order| - 1];
      ClearedAmong(order[..|order| - 1], rooms, now)
      + (if x in rooms && IsExpired(rooms[x], now) then Listed(rooms[x].users) else {})
  }

  /** Visiting one more room adds its notice, if it expires. */
  lemma ExpiryNoticesStep(order: seq<RoomId>, x: RoomId, rooms: map<RoomId, Room>, now: int)
    ensures ExpiryNotices(order + [x], rooms, now) == ExpiryNotices(order, rooms, now)
      + (if x in rooms && IsExpired(rooms[x], now) then [Emit(ToRoom(x), RoomExpired(x))] else [])
  {
    assert (order + [x])[..|order|] == order;
  }

  /** Visiting one more room adds its members, if it expires. */
  lemma ClearedAmongStep(order: seq<RoomId>, x: RoomId, rooms: map<RoomId, Room>, now: int)
    ensures ClearedAmong(order + [x], rooms, now) == ClearedAmong(order, rooms, now)
      + (if x in rooms && IsExpired(rooms[x], now) then Listed(rooms[x].users) else {})
  {
    assert (order + [x])[..|order|] == order;
  }

  /** Clearing two sets of sockets one after the other clears their union. */
  lemma ClearRoomsTwice(users: map<SocketId, User>, a: set<SocketId>, b: set<SocketId>)
    ensures ClearRooms(ClearRooms(users, a), b) == ClearRooms(users, a + b)
  {
  }

  /** One more visit, in the terms of the sweep's loop: the room is
      removed when evicted, and its notice and its members' clearing happen
      when it expires. */
  lemma SweepStep(order: seq<RoomId>, x: RoomId, rooms: map<RoomId, Room>, users: map<SocketId, User>, now: int)
    requires x in rooms && x !in order
    ensures SweptAmong(order + [x], rooms, now)
         == if IsEvicted(rooms[x], now) then SweptAmong(order, rooms, now) - {x} else SweptAmong(order, rooms, now)
    ensures ClearRooms(users, ClearedAmong(order + [x], rooms, now))
         == if IsExpired(rooms[x], now)
            then ClearRooms(ClearRooms(users, ClearedAmong(order, rooms, now)), Listed(rooms[x].users))
            else ClearRooms(users, ClearedAmong(order, rooms, now))
    ensures ExpiryNotices(order + [x], rooms, now) == ExpiryNotices(order, rooms, now)
      + (if IsExpired(rooms[x], now) then [Emit(ToRoom(x), RoomExpired(x))] else [])
  {
    SweptAmongStep(order, x, rooms, now);
    ExpiryNoticesStep(order, x, rooms, now);
    ClearedAmongStep(order, x, rooms, now);
    ClearRoomsTwice(users, ClearedAmong(order, rooms, now), Listed(rooms[x].users));
    if !IsExpired(rooms[x], now) {
      assert ClearedAmong(order + [x], rooms, now) == ClearedAmong(order, rooms, now);
    }
  }

  /** Clearing one more socket updates at most that socket's record. */
  lemma ClearOneMore(users: map<SocketId, User>, cleared: seq<SocketId>, x: SocketId)
    ensures var u := ClearRooms(users, Listed(cleared));
      ClearRooms(users, Listed(cleared + [x]))
        == if x in u then u[x := u[x].(currentRoom := None)] else u
  {
    assert Listed(cleared + [x]) == Listed(cleared) + {x};
  }

  /** `order` lists the keys of the map exactly once each: the iteration
      order of the JS `Map`. */
  predicate IsListing(order: seq<RoomId>, rooms: map<RoomId, Room>)
  {
    NoDup(order) && (forall x | x in order :: x in rooms) && (forall x | x in rooms :: x in order)
  }

  lemma {:induction false} ClearedAmongMembers(order: seq<RoomId>, rooms: map<RoomId, Room>, now: int, s: SocketId)
    ensures s in ClearedAmong(order, rooms, now) <==>
      exists x :: x in order && x in rooms && IsExpired(rooms[x], now) && s in rooms[x].users
  {
    if |order| > 0 {
      var init := order[..|order| - 1];
      ClearedAmongMembers(init, rooms, now, s);
      assert order == init + [order[|order| - 1]];
    }
  }

  /** Visiting every room once clears exactly the members of the expired
      rooms, whatever the order. */
  lemma ClearedByFullVisit(order: seq<RoomId>, rooms: map<RoomId, Room>, now: int)
    requires IsListing(order, rooms)
    ensures ClearedAmong(order, rooms, now) == ExpiredMembers(rooms, now)
  {
    forall s ensures s in ClearedAmong(order, rooms, now) <==> s in ExpiredMembers(rooms, now) {
      ClearedAmongMembers(order, rooms, now, s);
    }
  }

  /** The sweep emits nothing but notices to expired rooms it visited. */
  lemma {:induction false} ExpiryNoticesOnly(order: seq<RoomId>, rooms: map<RoomId, Room>, now: int)
    ensures forall e | e in ExpiryNotices(order, rooms, now) ::
      e.event.RoomExpired? && e.target == ToRoom(e.event.roomId) &&
      e.event.roomId in order && e.event.roomId in rooms && IsExpired(rooms[e.event.roomId], now)
  {
    if |order| > 0 {
      var init := order[..|order| - 1];
      ExpiryNoticesOnly(init, rooms, now);
      assert forall y | y in init :: y in order;
    }
  }

  /** One notice per expired room visited, none for any other room. */
  lemma {:induction false} ExpiryNoticesCount(order: seq<RoomId>, rooms: map<RoomId, Room>, now: int, x: RoomId)
    requires NoDup(order)
    ensures multiset(ExpiryNotices(order, rooms, now))[Emit(ToRoom(x), RoomExpired(x))]
         == if x in order && x in rooms && IsExpired(rooms[x], now) then 1 else 0
  {
    if |order| > 0 {
      var init := order[..|order| - 1];
      var y := order[|order| - 1];
      assert order == init + [y];
      assert NoDup(init) && y !in init by {
        forall i | 0 <= i < |init| ensures init[i] != y {
          assert init[i] == order[i];
        }
      }
      ExpiryNoticesCount(init, rooms, now, x);
    }
  }

  /** With no expired room left, a sweep emits nothing. */
  lemma {:induction false} NoNoticesWithoutExpiry(order: seq<RoomId>, rooms: map<RoomId, Room>, now: int)
    requires forall x | x in rooms :: !IsExpired(rooms[x], now)
    ensures ExpiryNotices(order, rooms, now) == []
  {
    if |order| > 0 {
      NoNoticesWithoutExpiry(order[..|order| - 1], rooms, now);
    }
  }
}
