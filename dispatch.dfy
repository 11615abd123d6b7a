/** `send_message`: the guards, the content check, mood enrichment, and the
    fan-out of one envelope to the sender and one to every other member of
    the sender's current room, translated per recipient.

    The translation service is an oracle `translate` giving, for each
    recipient socket, the translated text or `None` when the call failed.
    The sentiment scorer is its result: a score, or `None` when it threw. */
module Dispatch {
  import opened Common
  import opened Chat
  import opened Rooms
  import Mood

  const InvalidContent := "Invalid message content"
  const English := "en"

  /** `content` is truthy and a string. */
  predicate IsValidContent(v: JsValue)
  {
    v.JsString? && v.text != ""
  }

  /** The sender has a record whose `currentRoom` is set and names an
      existing room: otherwise the handler returns without emitting. */
  predicate CanSend(users: map<SocketId, User>, rooms: map<RoomId, Room>, s: SocketId)
  {
    s in users && IsTruthy(users[s].currentRoom) && users[s].currentRoom.value in rooms
  }

  /** The fields every copy of one message shares. */
  datatype Base = Base(id: string, userId: UserId, username: string, timestamp: int, moodColor: string, isAnonymous: bool)

  function BaseOf(sender: User, messageId: string, now: int, score: Option<int>): Base
  {
    Base(messageId, sender.userId, sender.username, now, Mood.ClassifyMood(score), sender.isAnonymous)
  }

  /** The copy echoed to the sender: original wording, not translated. */
  function SenderCopy(base: Base, content: string): Message
  {
    ChatMessage(base.id, content, base.userId, base.username, base.timestamp, base.moodColor,
                base.isAnonymous, true, Untranslated)
  }

  /** The copy for a recipient with the given language and translation
      outcome. English readers get the original; others get the translation
      when it succeeded and the original when it failed. */
  function RecipientCopy(base: Base, content: string, language: string, outcome: Option<string>): (m: Message)
    ensures m.ChatMessage? && !m.isOriginal
    ensures m.id == base.id && m.timestamp == base.timestamp && m.moodColor == base.moodColor
    ensures m.userId == base.userId && m.username == base.username && m.isAnonymous == base.isAnonymous
    ensures language == English ==> m.content == content && m.translation == Untranslated
    ensures language != English && outcome.Some? ==>
      m.content == outcome.value && m.translation == Translated(English, language)
    ensures outcome.None? ==> m.content == content && m.translation == Untranslated
  {
    if language != English && outcome.Some? then
      ChatMessage(base.id, outcome.value, base.userId, base.username, base.timestamp, base.moodColor,
                  base.isAnonymous, false, Translated(English, language))
    else
      ChatMessage(base.id, content, base.userId, base.username, base.timestamp, base.moodColor,
                  base.isAnonymous, false, Untranslated)
  }

  /** The recipient emits for the members, in the order of the room's set:
      every member other than the sender that has a user record. */
  function Deliveries(members: seq<SocketId>, sender: SocketId, users: map<SocketId, User>,
                      base: Base, content: string, translate: SocketId -> Option<string>): seq<Emit>
  {
    if |members| == 0 then []
    else
      var m := members[|members| - 1];
      Deliveries(members[..|members| - 1], sender, users, base, content, translate)
      + (if m != sender && m in users
         then [Emit(ToSocket(m), ReceiveMessage(RecipientCopy(base, content, users[m].language, translate(m))))]
         else [])
  }

  /** Everything `send_message` emits, given the normalised payload. */
  function SendEmits(users: map<SocketId, User>, rooms: map<RoomId, Room>, s: SocketId, data: Payload,
                     score: Option<int>, messageId: string, now: int,
                     translate: SocketId -> Option<string>): seq<Emit>
  {
    if !CanSend(users, rooms, s) then []
    else if !IsValidContent(data.content) then [Emit(ToSocket(s), Error(InvalidContent))]
    else
      var base := BaseOf(users[s], messageId, now, score);
      [Emit(ToSocket(s), ReceiveMessage(SenderCopy(base, data.content.text)))]
      + Deliveries(rooms[users[s].currentRoom.value].users, s, users, base, data.content.text, translate)
  }

  /** The emits of a send that passes every guard. */
  lemma SendEmitsDelivered(users: map<SocketId, User>, rooms: map<RoomId, Room>, s: SocketId, data: Payload,
                           score: Option<int>, messageId: string, now: int,
                           translate: SocketId -> Option<string>)
    requires CanSend(users, rooms, s) && IsValidContent(data.content)
    ensures var base := BaseOf(users[s], messageId, now, score);
      SendEmits(users, rooms, s, data, score, messageId, now, translate)
        == [Emit(ToSocket(s), ReceiveMessage(SenderCopy(base, data.content.text)))]
           + Deliveries(rooms[users[s].currentRoom.value].users, s, users, base, data.content.text, translate)
  {
  }

  /** The messages that reach connection `x` directly. */
  function ReceivedBy(emits: seq<Emit>, x: SocketId): seq<Message>
  {
    if |emits| == 0 then []
    else
      var e := emits[|emits| - 1];
      ReceivedBy(emits[..|emits| - 1], x)
      + (if e.target == ToSocket(x) && e.event.ReceiveMessage? then [e.event.message] else [])
  }

  lemma {:induction false} ReceivedByAppend(a: seq<Emit>, b: seq<Emit>, x: SocketId)
    ensures ReceivedBy(a + b, x) == ReceivedBy(a, x) + ReceivedBy(b, x)
  {
    if |b| > 0 {
      assert (a + b)[..|a + b| - 1] == a + b[..|b| - 1];
      ReceivedByAppend(a, b[..|b| - 1], x);
    } else {
      assert a + b == a;
    }
  }

  lemma ReceivedBySingle(e: Emit, x: SocketId)
    ensures ReceivedBy([e], x) == if e.target == ToSocket(x) && e.event.ReceiveMessage? then [e.event.message] else []
  {
    assert [e][..0] == [];
  }

  /** Each delivery goes to a member other than the sender that has a user
      record, and carries that member's copy of the message. */
  lemma {:induction false} DeliveriesAddressees(members: seq<SocketId>, sender: SocketId, users: map<SocketId, User>,
                                               base: Base, content: string, translate: SocketId -> Option<string>)
    ensures forall e | e in Deliveries(members, sender, users, base, content, translate) ::
      e.target.ToSocket? && e.target.socket in members && e.target.socket != sender && e.target.socket in users &&
      e.event == ReceiveMessage(RecipientCopy(base, content, users[e.target.socket].language, translate(e.target.socket)))
  {
    if |members| > 0 {
      var init := members[..|members| - 1];
      DeliveriesAddressees(init, sender, users, base, content, translate);
      assert forall m | m in init :: m in members;
    }
  }

  /** A member other than the sender that has a user record gets exactly
      one copy; every other connection gets none. */
  lemma {:induction false} DeliveriesPerRecipient(members: seq<SocketId>, sender: SocketId, users: map<SocketId, User>,
                                                 base: Base, content: string, translate: SocketId -> Option<string>,
                                                 x: SocketId)
    requires NoDup(members)
    ensures ReceivedBy(Deliveries(members, sender, users, base, content, translate), x)
         == if x in members && x != sender && x in users
            then [RecipientCopy(base, content, users[x].language, translate(x))]
            else []
  {
    if |members| > 0 {
      var init := members[..|members| - 1];
      var m := members[|members| - 1];
      assert members == init + [m];
      assert NoDup(init) && m !in init by {
        forall i | 0 <= i < |init| ensures init[i] != m {
          assert init[i] == members[i];
        }
      }
      DeliveriesPerRecipient(init, sender, users, base, content, translate, x);
      var last := if m != sender && m in users
                  then [Emit(ToSocket(m), ReceiveMessage(RecipientCopy(base, content, users[m].language, translate(m))))]
                  else [];
      ReceivedByAppend(Deliveries(init, sender, users, base, content, translate), last, x);
      if last != [] {
        ReceivedBySingle(last[0], x);
      }
    }
  }

  /** The sender's echo followed by the deliveries: every emit is a chat
      message to the sender or a member, carrying the shared fields. */
  lemma EchoThenDeliveriesShape(members: seq<SocketId>, s: SocketId, users: map<SocketId, User>,
                                base: Base, content: string, translate: SocketId -> Option<string>)
    ensures forall e | e in [Emit(ToSocket(s), ReceiveMessage(SenderCopy(base, content)))]
                            + Deliveries(members, s, users, base, content, translate) ::
      e.target.ToSocket? && (e.target.socket == s || e.target.socket in members) &&
      e.event.ReceiveMessage? && e.event.message.ChatMessage? &&
      e.event.message.id == base.id && e.event.message.timestamp == base.timestamp &&
      e.event.message.moodColor == base.moodColor
  {
    DeliveriesAddressees(members, s, users, base, content, translate);
  }

  /** The sender gets the original, and every other member with a user
      record gets exactly its own copy. */
  lemma EchoThenDeliveriesReceived(members: seq<SocketId>, s: SocketId, users: map<SocketId, User>,
                                   base: Base, content: string, translate: SocketId -> Option<string>,
                                   x: SocketId)
    requires NoDup(members)
    ensures ReceivedBy([Emit(ToSocket(s), ReceiveMessage(SenderCopy(base, content)))]
                       + Deliveries(members, s, users, base, content, translate), x)
         == if x == s then [SenderCopy(base, content)]
            else if x in members && x in users
            then [RecipientCopy(base, content, users[x].language, translate(x))]
            else []
  {
    var head := [Emit(ToSocket(s), ReceiveMessage(SenderCopy(base, content)))];
    var tail := Deliveries(members, s, users, base, content, translate);
    DeliveriesPerRecipient(members, s, users, base, content, translate, x);
    ReceivedByAppend(head, tail, x);
    ReceivedBySingle(head[0], x);
  }

  /** What each connection receives from one `send_message`, and what else
      is emitted: nothing when the sender or its room is gone, a single
      `error` to the sender for invalid content, otherwise one original to
      the sender and one copy to each other member that has a user record,
      all sharing id, timestamp and mood colour. */
  lemma SendMessageOutcome(users: map<SocketId, User>, rooms: map<RoomId, Room>, s: SocketId, data: Payload,
                           score: Option<int>, messageId: string, now: int,
                           translate: SocketId -> Option<string>, x: SocketId)
    requires RoomsWellFormed(rooms)
    ensures var out := SendEmits(users, rooms, s, data, score, messageId, now, translate);
      && (!CanSend(users, rooms, s) ==> out == [])
      && (CanSend(users, rooms, s) && !IsValidContent(data.content) ==> out == [Emit(ToSocket(s), Error(InvalidContent))])
      && (CanSend(users, rooms, s) && IsValidContent(data.content) ==>
            var base := BaseOf(users[s], messageId, now, score);
            var members := rooms[users[s].currentRoom.value].users;
            && |out| > 0
            && out[0] == Emit(ToSocket(s), ReceiveMessage(SenderCopy(base, data.content.text)))
            && (forall e | e in out ::
                  e.target.ToSocket? && (e.target.socket == s || e.target.socket in members) &&
                  e.event.ReceiveMessage? && e.event.message.ChatMessage? &&
                  e.event.message.id == messageId && e.event.message.timestamp == now &&
                  e.event.message.moodColor == Mood.ClassifyMood(score))
            && ReceivedBy(out, x) ==
                 if x == s then [SenderCopy(base, data.content.text)]
                 else if x in members && x in users
                 then [RecipientCopy(base, data.content.text, users[x].language, translate(x))]
                 else [])
  {
    if CanSend(users, rooms, s) && IsValidContent(data.content) {
      var base := BaseOf(users[s], messageId, now, score);
      var members := rooms[users[s].currentRoom.value].users;
      EchoThenDeliveriesShape(members, s, users, base, data.content.text, translate);
      EchoThenDeliveriesReceived(members, s, users, base, data.content.text, translate, x);
    }
  }

  /** A recipient's copy depends on the translation outcome for that
      recipient only: a failure elsewhere changes nothing for it. */
  lemma TranslationIsPerRecipient(users: map<SocketId, User>, rooms: map<RoomId, Room>, s: SocketId, data: Payload,
                                  score: Option<int>, messageId: string, now: int,
                                  t1: SocketId -> Option<string>, t2: SocketId -> Option<string>, x: SocketId)
    requires RoomsWellFormed(rooms)
    requires t1(x) == t2(x)
    ensures ReceivedBy(SendEmits(users, rooms, s, data, score, messageId, now, t1), x)
         == ReceivedBy(SendEmits(users, rooms, s, data, score, messageId, now, t2), x)
  {
    SendMessageOutcome(users, rooms, s, data, score, messageId, now, t1, x);
    SendMessageOutcome(users, rooms, s, data, score, messageId, now, t2, x);
  }

  /** The room a message goes to is the sender's `currentRoom`: the
      `roomId` in the payload plays no part. */
  lemma PayloadRoomIsIgnored(users: map<SocketId, User>, rooms: map<RoomId, Room>, s: SocketId, data: Payload,
                             other: Option<RoomId>, score: Option<int>, messageId: string, now: int,
                             translate: SocketId -> Option<string>)
    ensures SendEmits(users, rooms, s, data.(roomId := other), score, messageId, now, translate)
         == SendEmits(users, rooms, s, data, score, messageId, now, translate)
  {
  }

  /** The name the handler calls first, `deepSanitize`, is defined nowhere
      in its file, so the call throws a ReferenceError, which the handler's
      own `catch` turns into this one `error` emit, whatever the state. */
  const UndefinedSanitizer := "deepSanitize is not defined"

  /** `send_message` as written: every call ends in the `error` emit. */
  function SendEmitsAsWritten(s: SocketId): seq<Emit>
  {
    [Emit(ToSocket(s), Error(UndefinedSanitizer))]
  }

  /** Where the intended handler delivers a message, the handler as written
      delivers nothing: a user "a" alone in room "general" sending "hi".
      For every sender, no connection receives any message from it. */
  lemma AsWrittenDropsEveryMessage()
    ensures var users := map["a" := User("a", "u1", "Ann", false, English, Some("general"))];
            var rooms := map["general" := Room(["a"], 0, false)];
            var out := SendEmits(users, rooms, "a", Payload(JsString("hi"), None), Some(0), "m1", 5, _ => None);
            && ReceivedBy(out, "a") == [SenderCopy(BaseOf(users["a"], "m1", 5, Some(0)), "hi")]
            && ReceivedBy(SendEmitsAsWritten("a"), "a") == []
    ensures forall s, x :: ReceivedBy(SendEmitsAsWritten(s), x) == []
  {
    forall s, x ensures ReceivedBy(SendEmitsAsWritten(s), x) == [] {
      ReceivedBySingle(Emit(ToSocket(s), Error(UndefinedSanitizer)), x);
    }
    var users := map["a" := User("a", "u1", "Ann", false, English, Some("general"))];
    var rooms := map["general" := Room(["a"], 0, false)];
    SendMessageOutcome(users, rooms, "a", Payload(JsString("hi"), None), Some(0), "m1", 5, _ => None, "a");
    assert [Emit(ToSocket("a"), Error(UndefinedSanitizer))][..0] == [];
  }

  /** A sender in English and a French reader, message scored 4: the
      sender sees its own words in the strongly positive colour, the reader
      sees the translation with the same id and colour, and falls back to
      the original words when the translation fails. */
  lemma TranslatedScenario(translation: Option<string>)
    ensures var users := map["A" := User("A", "ua", "Alice", false, English, Some("general")),
                             "B" := User("B", "ub", "Bruno", false, "fr", Some("general"))];
            var rooms := map["general" := Room(["A", "B"], 0, false)];
            var out := SendEmits(users, rooms, "A", Payload(JsString("I love this"), Some("general")),
                                 Some(4), "m1", 7, x => if x == "B" then translation else None);
            && ReceivedBy(out, "A") == [ChatMessage("m1", "I love this", "ua", "Alice", 7, Mood.StronglyPositive,
                                                    false, true, Untranslated)]
            && ReceivedBy(out, "B") == [ChatMessage("m1", if translation.Some? then translation.value else "I love this",
                                                    "ua", "Alice", 7, Mood.StronglyPositive, false, false,
                                                    if translation.Some? then Translated(English, "fr") else Untranslated)]
  {
    var users := map["A" := User("A", "ua", "Alice", false, English, Some("general")),
                     "B" := User("B", "ub", "Bruno", false, "fr", Some("general"))];
    var rooms := map["general" := Room(["A", "B"], 0, false)];
    var data := Payload(JsString("I love this"), Some("general"));
    var t: SocketId -> Option<string> := x => if x == "B" then translation else None;
    assert NoDup(rooms["general"].users);
    assert RoomsWellFormed(rooms);
    SendMessageOutcome(users, rooms, "A", data, Some(4), "m1", 7, t, "A");
    SendMessageOutcome(users, rooms, "A", data, Some(4), "m1", 7, t, "B");
  }
}
