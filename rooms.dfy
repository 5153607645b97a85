/**
 * The live-classroom room table of server.js as values: a room, the events
 * the handlers emit, what the disconnect handler's scan does to the table,
 * and the `/api/active-rooms` projection. The class that owns the table and
 * runs the handlers is in module ClassroomServer.
 */
module Rooms {
  import opened Wrappers
  import opened Seqs
  import opened JsObject

  /** A Socket.IO connection id. Socket.IO never hands out an empty one. */
  type SocketId = s: string | s != "" witness "socket"

  /** A payload the server relays without looking inside (SDP, ICE candidate, chat text, emoji, task data). */
  type Payload = string

  /**
   * One entry of `activeRooms`. `students` maps a student id to the
   * connection that joined under it; `createdAt` is the creation time, an
   * opaque input here.
   */
  datatype Room = Room(
    courseId: string, teacherId: string, teacherSocket: SocketId,
    students: Dict<SocketId>, createdAt: int, status: string)

  /** What every stored room satisfies: `create-room` only stores rooms like this, and no handler breaks it. */
  ghost predicate RoomOk(room: Room) {
    room.students.Valid() && room.status == "active" && room.courseId != "" && room.teacherId != ""
  }

  /** The whole table: a well-formed object whose keys are non-empty room ids and whose rooms are well-formed. */
  ghost predicate TableOk(t: Dict<Room>) {
    t.Valid() && forall k :: k in t.entries ==> k != "" && RoomOk(t.entries[k])
  }

  /** Where an emit goes: `io.to(socketId)` or `socket.emit` reach one connection, `io.to(roomId)` the room's broadcast group. */
  datatype Target = ToSocket(socket: SocketId) | ToRoom(roomId: string)

  /** The server-to-client events of the classroom, with their payloads. */
  datatype Event =
    | RoomCreated(roomId: string, courseId: string, teacherId: string)
    | UserJoined(studentId: string)
    | WebrtcOffer(from: SocketId, sdp: Payload, roomId: string)
    | WebrtcAnswer(from: SocketId, sdp: Payload, roomId: string, studentId: string)
    | IceCandidate(from: SocketId, candidate: Payload, roomId: string, studentId: string)
    | NewMessage(userId: string, message: Payload)
    | ForceMute
    | ForceUnmute
    | ForceKick
    | UserLeft(studentId: string)
    | RoomEnded
    | ReceiveEmoji(sender: string, emoji: Payload)
    | StudentRaisedHand(studentId: string)
    | StudentLoweredHand(studentId: string)
    | ReceiveTask(task: Payload)
    | TaskSubmitted(studentId: string, submission: Payload)

  datatype Emit = Emit(target: Target, event: Event)

  /** `d[k]` as an optional value. */
  function Lookup<V>(d: Dict<V>, k: string): (r: Option<V>)
    ensures r.Some? <==> k in d.entries
    ensures r.Some? ==> r.value == d.entries[k]
  {
    if k in d.entries then Some(d.entries[k]) else None
  }

  // ---------------------------------------------------------------------
  // The disconnect handler, one room at a time

  /**
   * The inner `for (const studentId in room.students)` loop's stopping
   * point: the position, in enumeration order, of the first student whose
   * connection is `sid`, or the number of students when there is none.
   */
  function FirstStudentOn(students: Dict<SocketId>, sid: SocketId, from: nat := 0): (i: nat)
    requires students.Valid() && from <= |students.keys|
    ensures from <= i <= |students.keys|
    ensures i < |students.keys| ==> students.entries[students.keys[i]] == sid
    ensures forall j :: from <= j < i ==> students.entries[students.keys[j]] != sid
    decreases |students.keys| - from
  {
    if from == |students.keys| || students.entries[students.keys[from]] == sid then from
    else FirstStudentOn(students, sid, from + 1)
  }

  /** No two student ids of one room are on connection `sid`. */
  ghost predicate OneEntryOn(students: Dict<SocketId>, sid: SocketId) {
    forall s1, s2 ::
      (s1 in students.entries && s2 in students.entries
       && students.entries[s1] == sid && students.entries[s2] == sid) ==> s1 == s2
  }

  /** Some student id of the room is on connection `sid`. */
  ghost predicate HasEntryOn(students: Dict<SocketId>, sid: SocketId) {
    exists s :: s in students.entries && students.entries[s] == sid
  }

  /** The room after the scan has removed the first student entry on `sid`, if there is one. */
  function WithoutFirstOn(room: Room, sid: SocketId): (r: Room)
    requires RoomOk(room)
    ensures RoomOk(r) && r == room.(students := r.students)
    ensures !HasEntryOn(room.students, sid) ==> r == room
    ensures HasEntryOn(room.students, sid) ==>
      exists s :: s in room.students.entries && room.students.entries[s] == sid
                  && r.students.entries == room.students.entries - {s}
    ensures var i := FirstStudentOn(room.students, sid);
            i < |room.students.keys| ==> r.students == Delete(room.students, room.students.keys[i])
  {
    var i := FirstStudentOn(room.students, sid);
    if i < |room.students.keys| then
      var s := room.students.keys[i];
      room.(students := Delete(room.students, s))
    else
      assert !HasEntryOn(room.students, sid) by {
        forall s | s in room.students.entries ensures room.students.entries[s] != sid {
          var j :| 0 <= j < |room.students.keys| && room.students.keys[j] == s;
        }
      }
      room
  }

  /** With at most one entry on `sid`, removing the first one leaves none. */
  lemma WithoutOnlyEntryOn(room: Room, sid: SocketId)
    requires RoomOk(room) && OneEntryOn(room.students, sid)
    ensures !HasEntryOn(WithoutFirstOn(room, sid).students, sid)
  {
  }

  /**
   * What one visit of the scan makes of a room when connection `sid` drops:
   * `None` when the room is deleted. A room the connection taught is ended;
   * any other room loses the first student entry on `sid` and is then
   * deleted when no student is left in it, whoever the dropped connection was.
   */
  function Fate(room: Room, sid: SocketId): (r: Option<Room>)
    requires RoomOk(room)
    ensures r.Some? ==> RoomOk(r.value) && r.value.teacherSocket != sid && r.value.students.entries != map[]
    ensures r.Some? ==> r.value == WithoutFirstOn(room, sid)
    ensures r.None? <==> room.teacherSocket == sid || WithoutFirstOn(room, sid).students.entries == map[]
  {
    if room.teacherSocket == sid then None
    else
      var room' := WithoutFirstOn(room, sid);
      // the source re-tests `room.teacherSocket !== socket.id` here; it always holds at this point
      if Count(room'.students) == 0 && room'.teacherSocket != sid then None
      else Some(room')
  }

  /** The events one visit of the scan emits for room `roomId`. */
  function Notices(roomId: string, room: Room, sid: SocketId): (r: seq<Emit>)
    requires RoomOk(room)
    ensures |r| <= 1 && forall e :: e in r ==> e.target == ToRoom(roomId)
    ensures room.teacherSocket == sid ==> r == [Emit(ToRoom(roomId), RoomEnded)]
    ensures room.teacherSocket != sid && r != [] ==> exists s :: s in room.students.entries && room.students.entries[s] == sid
                                                                && r == [Emit(ToRoom(roomId), UserLeft(s))]
    ensures room.teacherSocket != sid && r == [] ==> !HasEntryOn(room.students, sid)
    ensures var i := FirstStudentOn(room.students, sid);
            room.teacherSocket != sid && i < |room.students.keys| ==>
              r == [Emit(ToRoom(roomId), UserLeft(room.students.keys[i]))]
  {
    if room.teacherSocket == sid then [Emit(ToRoom(roomId), RoomEnded)]
    else
      var i := FirstStudentOn(room.students, sid);
      if i < |room.students.keys| then [Emit(ToRoom(roomId), UserLeft(room.students.keys[i]))]
      else
        assert !HasEntryOn(room.students, sid) by {
          forall s | s in room.students.entries ensures room.students.entries[s] != sid {
            var j :| 0 <= j < |room.students.keys| && room.students.keys[j] == s;
          }
        }
        []
  }

  /** The student a visit announces as gone is the one whose entry the visit removed. */
  lemma LeftIsRemoved(roomId: string, room: Room, sid: SocketId)
    requires RoomOk(room) && room.teacherSocket != sid
    ensures Notices(roomId, room, sid) != [] ==>
      var s := Notices(roomId, room, sid)[0].event.studentId;
      && Notices(roomId, room, sid)[0].event.UserLeft?
      && s in room.students.entries && room.students.entries[s] == sid
      && WithoutFirstOn(room, sid).students.entries == room.students.entries - {s}
    ensures Notices(roomId, room, sid) == [] <==> WithoutFirstOn(room, sid) == room
  {
  }

  /** The state after the scan and what it emitted so far. */
  datatype Step = Step(rooms: Dict<Room>, emits: seq<Emit>)

  /**
   * One iteration of the outer `for (const roomId in activeRooms)` loop.
   * `for…in` skips a key deleted earlier in the same loop.
   */
  function Visit(t: Dict<Room>, roomId: string, sid: SocketId): (r: Step)
    requires TableOk(t)
    ensures TableOk(r.rooms)
    ensures forall k :: Lookup(r.rooms, k) == if k == roomId && k in t.entries then Fate(t.entries[k], sid) else Lookup(t, k)
    ensures r.emits == if roomId in t.entries then Notices(roomId, t.entries[roomId], sid) else []
    ensures r.rooms.keys == if roomId in t.entries && Fate(t.entries[roomId], sid).None? then Without(t.keys, roomId) else t.keys
  {
    if roomId !in t.entries then Step(t, [])
    else
      var room := t.entries[roomId];
      var emits := Notices(roomId, room, sid);
      match Fate(room, sid)
      case None => Step(Delete(t, roomId), emits)
      case Some(room') => Step(Put(t, roomId, room'), emits)
  }

  /** The outer loop run over the keys `ks`, in order. */
  function Sweep(t: Dict<Room>, ks: seq<string>, sid: SocketId): (r: Step)
    requires TableOk(t)
    ensures TableOk(r.rooms)
    ensures |r.emits| <= |ks|
    ensures forall k :: k in r.rooms.entries ==> k in t.entries
    decreases |ks|
  {
    if ks == [] then Step(t, [])
    else
      var before := Sweep(t, ks[..|ks| - 1], sid);
      var last := Visit(before.rooms, ks[|ks| - 1], sid);
      Step(last.rooms, before.emits + last.emits)
  }

  /** Scanning one more key of `ks` is one more visit. */
  lemma SweepPrefix(t: Dict<Room>, ks: seq<string>, n: nat, sid: SocketId)
    requires TableOk(t) && n < |ks|
    ensures var before := Sweep(t, ks[..n], sid);
            var last := Visit(before.rooms, ks[n], sid);
            Sweep(t, ks[..n + 1], sid) == Step(last.rooms, before.emits + last.emits)
  {
    assert ks[..n + 1][..n] == ks[..n];
  }

  /** The events of visiting `ks` in order, each room judged as it stood before the scan. */
  ghost function AllNotices(t: Dict<Room>, ks: seq<string>, sid: SocketId): seq<Emit>
    requires TableOk(t)
    decreases |ks|
  {
    if ks == [] then []
    else
      var k := ks[|ks| - 1];
      AllNotices(t, ks[..|ks| - 1], sid) + (if k in t.entries then Notices(k, t.entries[k], sid) else [])
  }

  /** The whole disconnect handler: the scan over every key of `activeRooms` in enumeration order. */
  function Disconnected(t: Dict<Room>, sid: SocketId): (r: Step)
    requires TableOk(t)
    ensures TableOk(r.rooms)
  {
    Sweep(t, t.keys, sid)
  }

  /**
   * Because each visit touches only its own key, a scan over distinct keys
   * leaves every visited room as its `Fate` says and every other room as it
   * was, and emits each visited room's notices in key order.
   */
  lemma {:induction false} SweepEffect(t: Dict<Room>, ks: seq<string>, sid: SocketId)
    requires TableOk(t) && Distinct(ks)
    ensures forall k :: Lookup(Sweep(t, ks, sid).rooms, k)
                     == if k in ks && k in t.entries then Fate(t.entries[k], sid) else Lookup(t, k)
    ensures Sweep(t, ks, sid).emits == AllNotices(t, ks, sid)
    decreases |ks|
  {
    if ks != [] {
      var n := |ks| - 1;
      var prefix, last := ks[..n], ks[n];
      assert ks == prefix + [last];
      DistinctPrefix(ks);
      SweepEffect(t, prefix, sid);
      var before := Sweep(t, prefix, sid);
      assert Lookup(before.rooms, last) == Lookup(t, last);
      forall k ensures Lookup(Sweep(t, ks, sid).rooms, k)
                    == if k in ks && k in t.entries then Fate(t.entries[k], sid) else Lookup(t, k) {
        assert Lookup(before.rooms, k) == if k in prefix && k in t.entries then Fate(t.entries[k], sid) else Lookup(t, k);
      }
    }
  }

  /** Dropping the last element of a duplicate-free sequence leaves one that does not hold it. */
  lemma DistinctPrefix(ks: seq<string>)
    requires Distinct(ks) && ks != []
    ensures Distinct(ks[..|ks| - 1]) && ks[|ks| - 1] !in ks[..|ks| - 1]
  {
    var n := |ks| - 1;
    forall i, j | 0 <= i < j < n ensures ks[..n][i] != ks[..n][j] {
      assert ks[..n][i] == ks[i] && ks[..n][j] == ks[j];
    }
    forall i | 0 <= i < n ensures ks[..n][i] != ks[n] {
      assert ks[..n][i] == ks[i];
    }
  }

  /** Visiting the keys `ks` deletes room `k`: it is one of them and its `Fate` is deletion. */
  predicate Dropped(t: Dict<Room>, ks: seq<string>, sid: SocketId, k: string)
    requires TableOk(t)
  {
    k in ks && k in t.entries && Fate(t.entries[k], sid).None?
  }

  /** The room ids `keys`, in their order, without the rooms that visiting `ks` deletes. */
  function Remaining(t: Dict<Room>, ks: seq<string>, sid: SocketId, keys: seq<string>): (r: seq<string>)
    requires TableOk(t)
    ensures forall k :: k in r <==> k in keys && !Dropped(t, ks, sid, k)
    ensures |r| <= |keys|
    decreases |keys|
  {
    if keys == [] then []
    else (if Dropped(t, ks, sid, keys[0]) then [] else [keys[0]]) + Remaining(t, ks, sid, keys[1..])
  }

  /** Visiting no room deletes none. */
  lemma {:induction false} RemainingNone(t: Dict<Room>, sid: SocketId, keys: seq<string>)
    requires TableOk(t)
    ensures Remaining(t, [], sid, keys) == keys
    decreases |keys|
  {
    if keys != [] {
      RemainingNone(t, sid, keys[1..]);
      assert keys == [keys[0]] + keys[1..];
    }
  }

  /** Visiting one more room removes its id from the remaining ones when the visit deletes it. */
  lemma {:induction false} RemainingSnoc(t: Dict<Room>, ks: seq<string>, last: string, sid: SocketId, keys: seq<string>)
    requires TableOk(t)
    ensures Remaining(t, ks + [last], sid, keys)
         == if last in t.entries && Fate(t.entries[last], sid).None? then Without(Remaining(t, ks, sid, keys), last)
            else Remaining(t, ks, sid, keys)
    decreases |keys|
  {
    if keys != [] {
      var head := if Dropped(t, ks, sid, keys[0]) then [] else [keys[0]];
      RemainingSnoc(t, ks, last, sid, keys[1..]);
      WithoutAppend(head, Remaining(t, ks, sid, keys[1..]), last);
    }
  }

  /** A scan over distinct keys keeps the surviving room ids in their enumeration order; it never moves a room. */
  lemma {:induction false} SweepOrder(t: Dict<Room>, ks: seq<string>, sid: SocketId)
    requires TableOk(t) && Distinct(ks)
    ensures Sweep(t, ks, sid).rooms.keys == Remaining(t, ks, sid, t.keys)
    decreases |ks|
  {
    if ks == [] {
      RemainingNone(t, sid, t.keys);
    } else {
      var n := |ks| - 1;
      var prefix, last := ks[..n], ks[n];
      assert ks == prefix + [last];
      DistinctPrefix(ks);
      SweepOrder(t, prefix, sid);
      SweepEffect(t, prefix, sid);
      assert Lookup(Sweep(t, prefix, sid).rooms, last) == Lookup(t, last);
      RemainingSnoc(t, prefix, last, sid, t.keys);
    }
  }

  /** After a disconnect, every room the connection taught is gone. */
  lemma DisconnectEndsTaughtRooms(t: Dict<Room>, sid: SocketId)
    requires TableOk(t)
    ensures forall k :: k in Disconnected(t, sid).rooms.entries ==> Disconnected(t, sid).rooms.entries[k].teacherSocket != sid
  {
    var after := Disconnected(t, sid).rooms;
    DisconnectedRooms(t, sid);
    forall k | k in after.entries ensures after.entries[k].teacherSocket != sid {
      assert Lookup(after, k) == Fate(t.entries[k], sid);
    }
  }

  /** After any disconnect no room without students remains, whichever connection dropped. */
  lemma DisconnectLeavesNoEmptyRoom(t: Dict<Room>, sid: SocketId)
    requires TableOk(t)
    ensures forall k :: k in Disconnected(t, sid).rooms.entries ==> Disconnected(t, sid).rooms.entries[k].students.entries != map[]
  {
    var after := Disconnected(t, sid).rooms;
    DisconnectedRooms(t, sid);
    forall k | k in after.entries ensures after.entries[k].students.entries != map[] {
      assert Lookup(after, k) == Fate(t.entries[k], sid);
    }
  }

  /** Every room that survives a disconnect was there before and has lost at most one student entry, one that was on the dropped connection. */
  lemma DisconnectRemovesAtMostOneEntry(t: Dict<Room>, sid: SocketId)
    requires TableOk(t)
    ensures forall k :: k in Disconnected(t, sid).rooms.entries ==> k in t.entries
    ensures forall k :: k in Disconnected(t, sid).rooms.entries && k in t.entries ==>
      var (old_, new_) := (t.entries[k], Disconnected(t, sid).rooms.entries[k]);
      && new_ == old_.(students := new_.students)
      && (new_.students.entries == old_.students.entries
          || exists s :: s in old_.students.entries && old_.students.entries[s] == sid
                         && new_.students.entries == old_.students.entries - {s})
      && (HasEntryOn(old_.students, sid) ==> new_.students.entries != old_.students.entries)
  {
    DisconnectedRooms(t, sid);
  }

  /** The table after a disconnect, room by room. */
  lemma DisconnectedRooms(t: Dict<Room>, sid: SocketId)
    requires TableOk(t)
    ensures forall k :: Lookup(Disconnected(t, sid).rooms, k) == if k in t.entries then Fate(t.entries[k], sid) else None
    ensures Disconnected(t, sid).rooms.keys == Remaining(t, t.keys, sid, t.keys)
  {
    SweepEffect(t, t.keys, sid);
    SweepOrder(t, t.keys, sid);
  }

  /** A disconnect announces `room-ended` to exactly the rooms the connection taught, and nothing else but `user-left` to a room it was a student of. */
  lemma DisconnectNotices(t: Dict<Room>, sid: SocketId, k: string)
    requires TableOk(t)
    ensures Emit(ToRoom(k), RoomEnded) in Disconnected(t, sid).emits <==> k in t.entries && t.entries[k].teacherSocket == sid
    ensures forall e :: e in Disconnected(t, sid).emits ==>
      exists r :: r in t.entries && e in Notices(r, t.entries[r], sid)
  {
    SweepEffect(t, t.keys, sid);
    NoticesFrom(t, t.keys, sid, k);
  }

  lemma {:induction false} NoticesFrom(t: Dict<Room>, ks: seq<string>, sid: SocketId, k: string)
    requires TableOk(t)
    ensures Emit(ToRoom(k), RoomEnded) in AllNotices(t, ks, sid) <==> k in ks && k in t.entries && t.entries[k].teacherSocket == sid
    ensures forall e :: e in AllNotices(t, ks, sid) ==> exists r :: r in t.entries && e in Notices(r, t.entries[r], sid)
    decreases |ks|
  {
    if ks != [] {
      var n := |ks| - 1;
      assert ks == ks[..n] + [ks[n]];
      NoticesFrom(t, ks[..n], sid, k);
    }
  }

  /**
   * A room holding only its teacher is deleted by the disconnect of any
   * other connection, and its teacher is not told.
   */
  lemma DisconnectCollectsIdleRoom(t: Dict<Room>, sid: SocketId, k: string)
    requires TableOk(t) && k in t.entries
    requires t.entries[k].students.entries == map[] && t.entries[k].teacherSocket != sid
    ensures k !in Disconnected(t, sid).rooms.entries
    ensures forall e :: e in Disconnected(t, sid).emits ==> e.target != ToRoom(k)
  {
    DisconnectedRooms(t, sid);
    assert Lookup(Disconnected(t, sid).rooms, k) == None;
    DisconnectNotices(t, sid, k);
    forall e | e in Disconnected(t, sid).emits ensures e.target != ToRoom(k) {
      var r :| r in t.entries && e in Notices(r, t.entries[r], sid);
    }
  }

  /** No room holds connection `sid` under two student ids. */
  ghost predicate OneEntryPerSocket(t: Dict<Room>, sid: SocketId) {
    forall k :: k in t.entries ==> OneEntryOn(t.entries[k].students, sid)
  }

  /** When each room holds the connection under at most one student id, a disconnect leaves no trace of it in the table. */
  lemma DisconnectForgetsSocket(t: Dict<Room>, sid: SocketId)
    requires TableOk(t) && OneEntryPerSocket(t, sid)
    ensures forall k :: k in Disconnected(t, sid).rooms.entries ==>
      Disconnected(t, sid).rooms.entries[k].teacherSocket != sid
      && !HasEntryOn(Disconnected(t, sid).rooms.entries[k].students, sid)
  {
    DisconnectedRooms(t, sid);
    forall k | k in Disconnected(t, sid).rooms.entries
      ensures !HasEntryOn(Disconnected(t, sid).rooms.entries[k].students, sid)
    {
      assert Lookup(Disconnected(t, sid).rooms, k) == Fate(t.entries[k], sid);
      WithoutOnlyEntryOn(t.entries[k], sid);
    }
  }

  /**
   * The scan stops at the first student entry on the dropped connection: in a
   * room with another student, only that entry goes, and every later entry,
   * including another one on the same connection, stays.
   */
  lemma DisconnectKeepsLaterEntries(t: Dict<Room>, k: string, sid: SocketId)
    requires TableOk(t) && k in t.entries && t.entries[k].teacherSocket != sid
    ensures var st := t.entries[k].students;
            var i := FirstStudentOn(st, sid);
            i < |st.keys| && |st.keys| > 1 ==>
              && k in Disconnected(t, sid).rooms.entries
              && Disconnected(t, sid).rooms.entries[k].students == Delete(st, st.keys[i])
              && forall j :: i < j < |st.keys| ==> st.keys[j] in Disconnected(t, sid).rooms.entries[k].students.entries
  {
    var st := t.entries[k].students;
    var i := FirstStudentOn(st, sid);
    if i < |st.keys| && |st.keys| > 1 {
      DisconnectedRooms(t, sid);
      KeyCount(st);
      var other := if i == 0 then st.keys[1] else st.keys[0];
      assert other in WithoutFirstOn(t.entries[k], sid).students.entries;
      assert Lookup(Disconnected(t, sid).rooms, k) == Fate(t.entries[k], sid);
      forall j | i < j < |st.keys| ensures st.keys[j] in Disconnected(t, sid).rooms.entries[k].students.entries {
        assert st.keys[j] != st.keys[i];
      }
    }
  }

  /**
   * The scan stops at the first student entry on the dropped connection, so a
   * connection that joined one room under two student ids leaves the second
   * entry behind, still pointing at the closed connection.
   */
  lemma DisconnectLeavesSecondEntry(t: Dict<Room>, k: string, sid: SocketId)
    requires TableOk(t) && k in t.entries && t.entries[k].teacherSocket != sid
    requires t.entries[k].students == Dict(["a", "b"], map["a" := sid, "b" := sid])
    ensures k in Disconnected(t, sid).rooms.entries
    ensures Disconnected(t, sid).rooms.entries[k].students == Dict(["b"], map["b" := sid])
  {
    var room := t.entries[k];
    assert Fate(room, sid) == Some(room.(students := Dict(["b"], map["b" := sid]))) by {
      TwoEntriesOneLeft(room, sid);
    }
    DisconnectedRooms(t, sid);
    assert Lookup(Disconnected(t, sid).rooms, k) == Fate(room, sid);
  }

  lemma TwoEntriesOneLeft(room: Room, sid: SocketId)
    requires RoomOk(room) && room.students == Dict(["a", "b"], map["a" := sid, "b" := sid])
    ensures WithoutFirstOn(room, sid) == room.(students := Dict(["b"], map["b" := sid]))
  {
    var students := room.students;
    assert FirstStudentOn(students, sid) == 0;
    assert Without(["a", "b"], "a") == ["b"];
    assert students.entries - {"a"} == map["b" := sid];
  }

  // ---------------------------------------------------------------------
  // GET /api/active-rooms

  /** One element of the `data` array of `/api/active-rooms`. */
  datatype Summary = Summary(roomId: string, courseId: string, teacherId: string, studentCount: nat, createdAt: int)

  function SummaryOf(roomId: string, room: Room): (r: Summary)
    requires RoomOk(room)
    ensures r.studentCount == |room.students.entries|
  {
    Summary(roomId, room.courseId, room.teacherId, Count(room.students), room.createdAt)
  }

  /** `Object.keys(activeRooms).map(roomId => …)` over the keys `ks`. */
  function Summaries(t: Dict<Room>, ks: seq<string>): (r: seq<Summary>)
    requires TableOk(t) && forall k :: k in ks ==> k in t.entries
    ensures |r| == |ks|
    ensures forall i :: 0 <= i < |ks| ==> r[i] == SummaryOf(ks[i], t.entries[ks[i]])
  {
    if ks == [] then [] else [SummaryOf(ks[0], t.entries[ks[0]])] + Summaries(t, ks[1..])
  }

  /** The `data` field of the `/api/active-rooms` response. */
  function ActiveRooms(t: Dict<Room>): (r: seq<Summary>)
    requires TableOk(t)
    ensures |r| == |t.keys| && forall i :: 0 <= i < |r| ==> r[i].roomId == t.keys[i]
  {
    Summaries(t, t.keys)
  }

  /**
   * The response lists every room exactly once, in key order, and each
   * summary carries that room's fields and its number of students.
   */
  lemma ActiveRoomsListsEachRoomOnce(t: Dict<Room>)
    requires TableOk(t)
    ensures forall id :: id in t.entries <==> exists i :: 0 <= i < |ActiveRooms(t)| && ActiveRooms(t)[i].roomId == id
    ensures forall i, j :: 0 <= i < j < |ActiveRooms(t)| ==> ActiveRooms(t)[i].roomId != ActiveRooms(t)[j].roomId
    ensures forall i :: 0 <= i < |ActiveRooms(t)| ==>
      var s := ActiveRooms(t)[i];
      var room := t.entries[s.roomId];
      s.courseId == room.courseId && s.teacherId == room.teacherId && s.createdAt == room.createdAt
      && s.studentCount == |room.students.entries|
  {
    var r := ActiveRooms(t);
    assert forall i :: 0 <= i < |r| ==> r[i].roomId == t.keys[i];
    forall id | id in t.entries ensures exists i :: 0 <= i < |r| && r[i].roomId == id {
      var i :| 0 <= i < |t.keys| && t.keys[i] == id;
      assert r[i].roomId == id;
    }
  }
}
