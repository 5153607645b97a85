/**
 * The live-classroom part of server.js: the `activeRooms` table and the
 * Socket.IO event handlers that read and change it, one method per handler.
 *
 * Each handler runs to completion before the next one starts, so a method is
 * one atomic step. Every `emit` is appended to `outbox` with its target; the
 * value a command hands to its callback is the method's result. `joined`
 * records the Socket.IO broadcast groups (`socket.join(roomId)`). None of the
 * classroom handlers leaves a group, so they are kept apart from the rooms'
 * `students` maps; only the `chat:leave` handler, which is not part of this
 * model, can take a socket out of one.
 */
module ClassroomServer {
  import opened Wrappers
  import opened Seqs
  import opened JsObject
  import opened Handshake
  import opened Rooms

  /** A connected client as a handler sees it: `socket.id` and the `socket.user` fixed at connection time. */
  datatype Conn = Conn(socketId: SocketId, user: Identity)

  /** What `create-room` and `join-room` pass to their callback. */
  datatype Ack = Success(roomId: string) | Failure(error: string)

  /** `socket.user?.id || data.studentId`: the id a `join-room` registers. */
  function JoiningId(user: Identity, dataStudentId: string): (id: string)
    ensures user.id != "" ==> id == user.id
    ensures user.id == "" ==> id == dataStudentId
  {
    if user.id != "" then user.id else dataStudentId
  }

  /** `socket.user?.id || 'anonymous'`: who an emoji is from. */
  function EmojiSender(user: Identity): (name: string)
    ensures name != ""
    ensures user.id != "" ==> name == user.id
  {
    if user.id != "" then user.id else "anonymous"
  }

  class Server {
    var activeRooms: Dict<Room>
    var outbox: seq<Emit>
    var joined: set<(string, SocketId)>

    ghost predicate Valid()
      reads this
    {
      TableOk(activeRooms)
    }

    constructor ()
      ensures Valid()
      ensures activeRooms == Empty() && outbox == [] && joined == {}
    {
      activeRooms := Empty();
      outbox := [];
      joined := {};
    }

    /** `create-room`: a new room taught by the sender, refused when a field is missing or the id is taken. */
    method CreateRoom(sender: Conn, roomId: string, courseId: string, now: int) returns (ack: Ack)
      requires Valid()
      modifies this
      ensures Valid()
      ensures roomId == "" || courseId == "" || sender.user.id == "" ==>
        ack == Failure("Missing required fields") && unchanged(this)
      ensures roomId != "" && courseId != "" && sender.user.id != "" && roomId in old(activeRooms.entries) ==>
        ack == Failure("Room already exists") && unchanged(this)
      ensures ack.Success? <==> roomId != "" && courseId != "" && sender.user.id != "" && roomId !in old(activeRooms.entries)
      ensures ack.Success? ==>
        && ack.roomId == roomId
        && activeRooms.keys == old(activeRooms.keys) + [roomId]
        && activeRooms.entries == old(activeRooms.entries)[roomId := Room(courseId, sender.user.id, sender.socketId, Empty(), now, "active")]
        && joined == old(joined) + {(roomId, sender.socketId)}
        && outbox == old(outbox) + [Emit(ToSocket(sender.socketId), RoomCreated(roomId, courseId, sender.user.id))]
    {
      var teacherId := sender.user.id;
      if roomId == "" || courseId == "" || teacherId == "" {
        return Failure("Missing required fields");
      }
      if roomId in activeRooms.entries {
        return Failure("Room already exists");
      }
      activeRooms := Put(activeRooms, roomId, Room(courseId, teacherId, sender.socketId, Empty(), now, "active"));
      joined := joined + {(roomId, sender.socketId)};
      ack := Success(roomId);
      outbox := outbox + [Emit(ToSocket(sender.socketId), RoomCreated(roomId, courseId, teacherId))];
    }

    /** `join-room`: the sender becomes a student of an existing room under `JoiningId`, unless that id is already in it. */
    method JoinRoom(sender: Conn, roomId: string, dataStudentId: string) returns (ack: Ack)
      requires Valid()
      modifies this
      ensures Valid()
      ensures roomId !in old(activeRooms.entries) ==>
        ack == Failure("Room does not exist or has ended") && unchanged(this)
      ensures roomId in old(activeRooms.entries) && JoiningId(sender.user, dataStudentId) in old(activeRooms.entries[roomId].students.entries) ==>
        ack == Failure("You are already in this room") && unchanged(this)
      ensures ack.Success? <==>
        roomId in old(activeRooms.entries) && JoiningId(sender.user, dataStudentId) !in old(activeRooms.entries[roomId].students.entries)
      ensures ack.Success? ==>
        var studentId := JoiningId(sender.user, dataStudentId);
        var room := old(activeRooms.entries[roomId]);
        && ack.roomId == roomId
        && activeRooms.keys == old(activeRooms.keys)
        && activeRooms.entries == old(activeRooms.entries)[roomId := room.(students := Put(room.students, studentId, sender.socketId))]
        && activeRooms.entries[roomId].students.entries == room.students.entries[studentId := sender.socketId]
        && joined == old(joined) + {(roomId, sender.socketId)}
        && outbox == old(outbox) + [Emit(ToRoom(roomId), UserJoined(studentId))]
    {
      var studentId := JoiningId(sender.user, dataStudentId);
      if roomId !in activeRooms.entries {
        return Failure("Room does not exist or has ended");
      }
      var room := activeRooms.entries[roomId];
      if studentId in room.students.entries {
        return Failure("You are already in this room");
      }
      joined := joined + {(roomId, sender.socketId)};
      activeRooms := Put(activeRooms, roomId, room.(students := Put(room.students, studentId, sender.socketId)));
      outbox := outbox + [Emit(ToRoom(roomId), UserJoined(studentId))];
      ack := Success(roomId);
    }

    /** `webrtc-offer`: relayed to the connection of the named student, and dropped when the room or the student is unknown. */
    method WebrtcOffer(sender: Conn, roomId: string, studentId: string, sdp: Payload)
      requires Valid()
      modifies this`outbox
      ensures Valid()
      ensures roomId in activeRooms.entries && studentId in activeRooms.entries[roomId].students.entries ==>
        outbox == old(outbox) + [Emit(ToSocket(activeRooms.entries[roomId].students.entries[studentId]),
                                      Event.WebrtcOffer(sender.socketId, sdp, roomId))]
      ensures !(roomId in activeRooms.entries && studentId in activeRooms.entries[roomId].students.entries) ==>
        outbox == old(outbox)
    {
      if roomId !in activeRooms.entries || studentId !in activeRooms.entries[roomId].students.entries {
        return;
      }
      var room := activeRooms.entries[roomId];
      outbox := outbox + [Emit(ToSocket(room.students.entries[studentId]), Event.WebrtcOffer(sender.socketId, sdp, roomId))];
    }

    /** `webrtc-answer`: relayed to the room's teacher connection, tagged with the sender's id. */
    method WebrtcAnswer(sender: Conn, roomId: string, sdp: Payload)
      requires Valid()
      modifies this`outbox
      ensures Valid()
      ensures roomId in activeRooms.entries ==>
        outbox == old(outbox) + [Emit(ToSocket(activeRooms.entries[roomId].teacherSocket),
                                      Event.WebrtcAnswer(sender.socketId, sdp, roomId, sender.user.id))]
      ensures roomId !in activeRooms.entries ==> outbox == old(outbox)
    {
      if roomId !in activeRooms.entries {
        return;
      }
      var room := activeRooms.entries[roomId];
      outbox := outbox + [Emit(ToSocket(room.teacherSocket), Event.WebrtcAnswer(sender.socketId, sdp, roomId, sender.user.id))];
    }

    /**
     * `ice-candidate`: with a `studentId` it goes to that student's
     * connection, without one to the teacher's; nothing is sent when the
     * room or the named student is unknown.
     */
    method IceCandidate(sender: Conn, roomId: string, candidate: Payload, studentId: string)
      requires Valid()
      modifies this`outbox
      ensures Valid()
      ensures roomId in activeRooms.entries && studentId != "" && studentId in activeRooms.entries[roomId].students.entries ==>
        outbox == old(outbox) + [Emit(ToSocket(activeRooms.entries[roomId].students.entries[studentId]),
                                      Event.IceCandidate(sender.socketId, candidate, roomId, studentId))]
      ensures roomId in activeRooms.entries && studentId == "" ==>
        outbox == old(outbox) + [Emit(ToSocket(activeRooms.entries[roomId].teacherSocket),
                                      Event.IceCandidate(sender.socketId, candidate, roomId, sender.user.id))]
      ensures roomId !in activeRooms.entries || (studentId != "" && studentId !in activeRooms.entries[roomId].students.entries) ==>
        outbox == old(outbox)
    {
      if roomId !in activeRooms.entries {
        return;
      }
      var room := activeRooms.entries[roomId];
      var target := Lookup(room.students, studentId);
      if studentId == "" {
        target := Some(room.teacherSocket);
      }
      if target.Some? {
        var tag := if studentId != "" then studentId else sender.user.id;
        outbox := outbox + [Emit(ToSocket(target.value), Event.IceCandidate(sender.socketId, candidate, roomId, tag))];
      }
    }

    /** `send-message`: the sender-supplied user id and text go to the whole room. */
    method SendMessage(roomId: string, userId: string, message: Payload)
      requires Valid()
      modifies this`outbox
      ensures Valid()
      ensures roomId in activeRooms.entries ==> outbox == old(outbox) + [Emit(ToRoom(roomId), NewMessage(userId, message))]
      ensures roomId !in activeRooms.entries ==> outbox == old(outbox)
    {
      if roomId in activeRooms.entries {
        outbox := outbox + [Emit(ToRoom(roomId), NewMessage(userId, message))];
      }
    }

    /** `teacher-mute-student`: only the room's teacher connection can mute or unmute, and only a student of the room. */
    method MuteStudent(sender: Conn, roomId: string, targetId: string, mute: bool)
      requires Valid()
      modifies this`outbox
      ensures Valid()
      ensures roomId in activeRooms.entries && activeRooms.entries[roomId].teacherSocket == sender.socketId
              && targetId in activeRooms.entries[roomId].students.entries ==>
        outbox == old(outbox) + [Emit(ToSocket(activeRooms.entries[roomId].students.entries[targetId]),
                                      if mute then ForceMute else ForceUnmute)]
      ensures !(roomId in activeRooms.entries && activeRooms.entries[roomId].teacherSocket == sender.socketId
                && targetId in activeRooms.entries[roomId].students.entries) ==>
        outbox == old(outbox)
    {
      if roomId !in activeRooms.entries || activeRooms.entries[roomId].teacherSocket != sender.socketId {
        return;
      }
      var room := activeRooms.entries[roomId];
      if targetId !in room.students.entries {
        return;
      }
      var studentSocket := room.students.entries[targetId];
      outbox := outbox + [Emit(ToSocket(studentSocket), if mute then ForceMute else ForceUnmute)];
    }

    /**
     * `teacher-kick-student`: only the room's teacher connection can kick,
     * and only a student of the room. The student is told first, then its
     * entry goes, then the room hears `user-left`; the kicked connection
     * stays in the room's broadcast group.
     */
    method KickStudent(sender: Conn, roomId: string, targetId: string)
      requires Valid()
      modifies this`activeRooms, this`outbox
      ensures Valid()
      ensures !(old(roomId in activeRooms.entries && activeRooms.entries[roomId].teacherSocket == sender.socketId
                    && targetId in activeRooms.entries[roomId].students.entries)) ==>
        unchanged(this)
      ensures old(roomId in activeRooms.entries && activeRooms.entries[roomId].teacherSocket == sender.socketId
                  && targetId in activeRooms.entries[roomId].students.entries) ==>
        var room := old(activeRooms.entries[roomId]);
        && activeRooms.keys == old(activeRooms.keys)
        && activeRooms.entries == old(activeRooms.entries)[roomId := room.(students := Delete(room.students, targetId))]
        && activeRooms.entries[roomId].students.entries == room.students.entries - {targetId}
        && outbox == old(outbox) + [Emit(ToSocket(room.students.entries[targetId]), ForceKick),
                                    Emit(ToRoom(roomId), UserLeft(targetId))]
        && joined == old(joined)
    {
      if roomId !in activeRooms.entries || activeRooms.entries[roomId].teacherSocket != sender.socketId {
        return;
      }
      var room := activeRooms.entries[roomId];
      if targetId !in room.students.entries {
        return;
      }
      var studentSocket := room.students.entries[targetId];
      outbox := outbox + [Emit(ToSocket(studentSocket), ForceKick)];
      activeRooms := Put(activeRooms, roomId, room.(students := Delete(room.students, targetId)));
      outbox := outbox + [Emit(ToRoom(roomId), UserLeft(targetId))];
    }

    /**
     * `leave-room`: a sender whose role is "teacher" and who holds the
     * room's teacher connection ends the room; anyone else removes its own
     * id from the room's students, if it is there. Neither leaves the
     * broadcast group.
     */
    method LeaveRoom(sender: Conn, roomId: string)
      requires Valid()
      modifies this`activeRooms, this`outbox
      ensures Valid()
      ensures roomId !in old(activeRooms.entries) ==> unchanged(this)
      ensures roomId in old(activeRooms.entries) && sender.user.role == "teacher"
              && old(activeRooms.entries[roomId].teacherSocket) == sender.socketId ==>
        && activeRooms == Delete(old(activeRooms), roomId)
        && roomId !in activeRooms.entries
        && outbox == old(outbox) + [Emit(ToRoom(roomId), RoomEnded)]
      ensures roomId in old(activeRooms.entries)
              && !(sender.user.role == "teacher" && old(activeRooms.entries[roomId].teacherSocket) == sender.socketId) ==>
        var room := old(activeRooms.entries[roomId]);
        var studentId := sender.user.id;
        if studentId != "" && studentId in room.students.entries then
          && activeRooms.keys == old(activeRooms.keys)
          && activeRooms.entries == old(activeRooms.entries)[roomId := room.(students := Delete(room.students, studentId))]
          && outbox == old(outbox) + [Emit(ToRoom(roomId), UserLeft(studentId))]
        else
          unchanged(this)
    {
      if roomId !in activeRooms.entries {
        return;
      }
      var room := activeRooms.entries[roomId];
      if sender.user.role == "teacher" && room.teacherSocket == sender.socketId {
        outbox := outbox + [Emit(ToRoom(roomId), RoomEnded)];
        activeRooms := Delete(activeRooms, roomId);
      } else {
        var studentId := sender.user.id;
        if studentId != "" && studentId in room.students.entries {
          activeRooms := Put(activeRooms, roomId, room.(students := Delete(room.students, studentId)));
          outbox := outbox + [Emit(ToRoom(roomId), UserLeft(studentId))];
        }
      }
    }

    /** `send-emoji`: the emoji goes to the whole room, from the sender's id or "anonymous". */
    method SendEmoji(sender: Conn, roomId: string, emoji: Payload)
      requires Valid()
      modifies this`outbox
      ensures Valid()
      ensures roomId in activeRooms.entries ==>
        outbox == old(outbox) + [Emit(ToRoom(roomId), ReceiveEmoji(EmojiSender(sender.user), emoji))]
      ensures roomId !in activeRooms.entries ==> outbox == old(outbox)
    {
      if roomId in activeRooms.entries {
        outbox := outbox + [Emit(ToRoom(roomId), ReceiveEmoji(EmojiSender(sender.user), emoji))];
      }
    }

    /** `raise-hand` (`raised`) and `lower-hand`: the sender's id goes to the teacher connection only; membership is not checked. */
    method Hand(sender: Conn, roomId: string, raised: bool)
      requires Valid()
      modifies this`outbox
      ensures Valid()
      ensures roomId in activeRooms.entries && sender.user.id != "" ==>
        outbox == old(outbox) + [Emit(ToSocket(activeRooms.entries[roomId].teacherSocket),
                                      if raised then StudentRaisedHand(sender.user.id) else StudentLoweredHand(sender.user.id))]
      ensures roomId !in activeRooms.entries || sender.user.id == "" ==> outbox == old(outbox)
    {
      if roomId in activeRooms.entries {
        var studentId := sender.user.id;
        if studentId != "" {
          var event := if raised then StudentRaisedHand(studentId) else StudentLoweredHand(studentId);
          outbox := outbox + [Emit(ToSocket(activeRooms.entries[roomId].teacherSocket), event)];
        }
      }
    }

    /** `send-task`: only the room's teacher connection can broadcast a task to the room. */
    method SendTask(sender: Conn, roomId: string, task: Payload)
      requires Valid()
      modifies this`outbox
      ensures Valid()
      ensures roomId in activeRooms.entries && sender.socketId == activeRooms.entries[roomId].teacherSocket ==>
        outbox == old(outbox) + [Emit(ToRoom(roomId), ReceiveTask(task))]
      ensures !(roomId in activeRooms.entries && sender.socketId == activeRooms.entries[roomId].teacherSocket) ==>
        outbox == old(outbox)
    {
      if roomId in activeRooms.entries && sender.socketId == activeRooms.entries[roomId].teacherSocket {
        outbox := outbox + [Emit(ToRoom(roomId), ReceiveTask(task))];
      }
    }

    /** `submit-task`: the submission and the sender's id go to the teacher connection only. */
    method SubmitTask(sender: Conn, roomId: string, submission: Payload)
      requires Valid()
      modifies this`outbox
      ensures Valid()
      ensures roomId in activeRooms.entries && sender.user.id != "" ==>
        outbox == old(outbox) + [Emit(ToSocket(activeRooms.entries[roomId].teacherSocket), TaskSubmitted(sender.user.id, submission))]
      ensures roomId !in activeRooms.entries || sender.user.id == "" ==> outbox == old(outbox)
    {
      if roomId in activeRooms.entries {
        var studentId := sender.user.id;
        if studentId != "" {
          outbox := outbox + [Emit(ToSocket(activeRooms.entries[roomId].teacherSocket), TaskSubmitted(studentId, submission))];
        }
      }
    }

    /**
     * `disconnect`: Socket.IO has already taken the connection out of every
     * broadcast group; the handler then visits every room in key order, as
     * `Disconnected` specifies.
     */
    method Disconnect(sid: SocketId)
      requires Valid()
      modifies this
      ensures Valid()
      ensures activeRooms == Disconnected(old(activeRooms), sid).rooms
      ensures outbox == old(outbox) + Disconnected(old(activeRooms), sid).emits
      ensures joined == set m | m in old(joined) && m.1 != sid
    {
      joined := set m | m in joined && m.1 != sid;
      VisitAll(sid);
    }

    /** The outer `for (const roomId in activeRooms)` loop of the disconnect handler. */
    method VisitAll(sid: SocketId)
      requires Valid()
      modifies this`activeRooms, this`outbox
      ensures Valid()
      ensures activeRooms == Disconnected(old(activeRooms), sid).rooms
      ensures outbox == old(outbox) + Disconnected(old(activeRooms), sid).emits
    {
      ghost var start, sent := activeRooms, outbox;
      var order := activeRooms.keys;
      var n := 0;
      while n < |order|
        invariant 0 <= n <= |order|
        invariant activeRooms == Sweep(start, order[..n], sid).rooms
        invariant outbox == sent + Sweep(start, order[..n], sid).emits
      {
        ghost var before := Sweep(start, order[..n], sid).emits;
        ghost var last := Visit(activeRooms, order[n], sid).emits;
        SweepPrefix(start, order, n, sid);
        VisitRoom(order[n], sid);
        AppendAssoc(sent, before, last);
        n := n + 1;
      }
      assert order[..n] == order;
    }

    /**
     * One pass of the disconnect handler's `for (const roomId in activeRooms)`
     * loop: a room the connection taught is ended; otherwise the first
     * student entry on the connection is removed, and the room is deleted if
     * no student is left.
     */
    method VisitRoom(roomId: string, sid: SocketId)
      requires Valid()
      modifies this`activeRooms, this`outbox
      ensures activeRooms == Visit(old(activeRooms), roomId, sid).rooms
      ensures outbox == old(outbox) + Visit(old(activeRooms), roomId, sid).emits
      ensures Valid()
    {
      if roomId !in activeRooms.entries {
        return;
      }
      var room := activeRooms.entries[roomId];
      if room.teacherSocket == sid {
        outbox := outbox + [Emit(ToRoom(roomId), RoomEnded)];
        activeRooms := Delete(activeRooms, roomId);
        return;
      }
      ghost var room0, before := room, activeRooms;
      room := DropFirstStudentOn(roomId, sid);
      if Count(room.students) == 0 && room.teacherSocket != sid {
        if room != room0 {
          DeleteAfterPut(before, roomId, room);
        }
        activeRooms := Delete(activeRooms, roomId);
      } else if room == room0 {
        PutSame(before, roomId);
      }
    }

    /**
     * The inner `for (const studentId in room.students)` loop of the
     * disconnect handler: removes the first student entry on `sid`, tells
     * the room, and stops.
     */
    method DropFirstStudentOn(roomId: string, sid: SocketId) returns (room: Room)
      requires Valid() && roomId in activeRooms.entries && activeRooms.entries[roomId].teacherSocket != sid
      modifies this`activeRooms, this`outbox
      ensures Valid()
      ensures room == WithoutFirstOn(old(activeRooms.entries[roomId]), sid)
      ensures activeRooms == if room == old(activeRooms.entries[roomId]) then old(activeRooms) else Put(old(activeRooms), roomId, room)
      ensures outbox == old(outbox) + Notices(roomId, old(activeRooms.entries[roomId]), sid)
    {
      room := activeRooms.entries[roomId];
      var keys := room.students.keys;
      var i := 0;
      while i < |keys|
        invariant 0 <= i <= |keys|
        invariant room == old(activeRooms.entries[roomId]) && activeRooms == old(activeRooms) && outbox == old(outbox)
        invariant forall j :: 0 <= j < i ==> room.students.entries[keys[j]] != sid
      {
        var studentId := keys[i];
        if room.students.entries[studentId] == sid {
          assert FirstStudentOn(room.students, sid) == i;
          room := room.(students := Delete(room.students, studentId));
          activeRooms := Put(activeRooms, roomId, room);
          outbox := outbox + [Emit(ToRoom(roomId), UserLeft(studentId))];
          break;
        }
        i := i + 1;
      }
    }

    /** `GET /api/active-rooms`: the `data` array of the response; the table is not touched. */
    method ActiveRoomsResponse() returns (data: seq<Summary>)
      requires Valid()
      ensures data == ActiveRooms(activeRooms)
    {
      data := ActiveRooms(activeRooms);
    }
  }
}
