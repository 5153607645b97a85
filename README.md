# Live classroom rooms and the Session model, in Dafny

This project models two parts of an online course-hosting platform's back end.

- **The live classroom of `server.js`.** It covers:
  - the in-memory `activeRooms` table;
  - the Socket.IO connection middleware, which decides who a connection is;
  - every classroom event handler that reads or changes the table: `create-room`, `join-room`, the WebRTC relays, `send-message`, the teacher's mute and kick, `leave-room`, emoji, hand raising, tasks and `disconnect`;
  - the `GET /api/active-rooms` projection.
- **The `Session` class** of `online-hosting-platform/backend/src/models/Session.js`. It holds a list of student ids with a duplicate-free add and a filtering remove. Its status only moves from `active` to `ended`.

Layout:

- `wrappers.dfy` (`Wrappers`): `Option`.
- `seqs.dfy` (`Seqs`): duplicate-freedom and `Array.prototype.filter(y => y !== x)` as `Without`.
- `js_object.dfy` (`JsObject`): a plain JavaScript object used as a dictionary. It holds the own properties and the order in which `for…in` and `Object.keys` enumerate them. A new property goes last, an updated one keeps its place, and `delete` drops it from both.
- `handshake.dfy` (`Handshake`): the `io.use` middleware as a function of the handshake, the `NODE_ENV` test and the token verifier.
- `rooms.dfy` (`Rooms`): rooms, the events and their targets, and the disconnect scan as a left fold over the table's keys (`Visit`, `Sweep`, `Disconnected`). It also holds the lemmas about the scan and the active-rooms projection.
- `classroom_server.dfy` (`ClassroomServer`): the class `Server`, which owns `activeRooms`, the `outbox` of emitted events and the broadcast groups. It has one method per handler. The disconnect handler keeps the source's nested loops: the outer loop over the room ids, and the inner loop over a room's students that stops at the first match. Its methods are proved against `Rooms.Disconnected`.
- `session.dfy` (`Sessions`): the class `Session` and the class `IdList`. `IdList` stands for the JavaScript array the session points to, so the sharing of a caller-supplied array is visible.

Conventions:

- A handler runs to completion before the next one starts, so each method is one atomic step.
- `io.to(x).emit(…)` and `socket.emit(…)` append an `Emit(target, event)` to `outbox`.
- A value handed to a callback is the method's result.
- Identifier strings use `""` for a missing or falsy field, following JavaScript truthiness.
- Socket ids are never empty, so "`room.students[id]` is truthy" is the same as "`id` is a key".

On every disconnect the code deletes every room whose `students` object is empty, whoever dropped, including a room that holds only its teacher (`server.js:463-468`). `Rooms.DisconnectCollectsIdleRoom` states this.

## Model

| member | source | states |
|---|---|---|
| Handshake.IndexOf | server.js:104 | The result is the first position at or after `from` where the pattern occurs, or -1 when it occurs nowhere from there on. |
| Handshake.RemoveFirst | server.js:104 | String `replace` cuts out the first occurrence of the pattern and nothing else. Without an occurrence the string is unchanged. |
| Handshake.FirstTruthy | server.js:111-112 | An `a \|\| b \|\| …` chain yields its first truthy operand, or its last operand when none is truthy. So `userId` wins over `adminId`, and so on down the chain. |
| Handshake.BearerToken | server.js:102-104 | `auth.token` wins, then the query token, then the `Authorization` header with its `Bearer ` prefix cut out. With neither, the token is the header after `replace('Bearer ', '')`: the first `Bearer ` cut out, a leading one giving the rest of the header, and a header without one used unchanged. The token is empty only when both earlier sources are empty (see also `BearerHeaderToken`). |
| Handshake.ClaimedId | server.js:111-113 | A present `id` claim is the id. Otherwise the first truthy of `userId`, `adminId`, `instructorId` and `_id`, in that order, is the id, and `_id` as it stands (or "") when none is truthy; a non-empty result is one of those four claims (see also `IdClaimOverridesUserId`). |
| Handshake.ClaimedRole | server.js:112-113 | A present `role` claim is the role. Otherwise a truthy `userRole` is the role, else a truthy `type`, else "user", so it is never empty (see also `RoleFallsBackToUser`). |
| Handshake.Authenticate | server.js:87-121 | Outside production a `teacherId` query gives a teacher identity, else a `studentId` query gives a student identity. Otherwise a token that verifies gives the identity from its claims. A missing token is refused with "Authentication required" and a token that fails verification with "Invalid token". |
| Handshake.DevTeacherIdFirst | server.js:90-94 | Outside production a `teacherId` query parameter yields that teacher identity, whatever else the handshake holds. |
| Handshake.ProductionIgnoresDevIds | server.js:90 | In production the development query ids have no effect on the outcome. |
| Handshake.BearerHeaderToken | server.js:102-104 | With no `auth.token` and no query token, an `Authorization: Bearer <t>` header yields `<t>`. |
| Handshake.IdClaimOverridesUserId | server.js:110-114 | The spread of the decoded claims comes last, so a present `id` claim beats a different `userId` claim. |
| Handshake.RoleFallsBackToUser | server.js:112 | A token with no `role`, `userRole` or `type` claim gets the role "user". |
| JsObject.Put | server.js:184 | Assigning a property keeps the object well formed and stores the value. A new name is enumerated last and an existing name keeps its place. |
| JsObject.Delete | server.js:306 | `delete` removes the name from the properties and from the enumeration order, keeping the order of the rest. Deleting an absent name changes nothing. |
| JsObject.Count | server.js:464 | `Object.keys(o).length` is the number of own properties. It is 0 exactly when the object is empty. |
| JsObject.KeyCount | server.js:464 | The enumeration order is as long as the set of own properties. |
| JsObject.PutSame | server.js:184 | Storing the value a property already holds leaves the object as it was. |
| JsObject.DeleteAfterPut | server.js:456 | Deleting a property forgets any value last stored under it. |
| JsObject.DeleteUndoesPut | server.js:184 | A name absent from the object, added by `join-room` and then deleted by `leave-room` or a kick, leaves the object exactly as before, order included. |
| Seqs.Without | online-hosting-platform/backend/src/models/Session.js:16 | `filter(id => id !== x)` keeps exactly the elements other than `x` and is never longer. |
| Seqs.WithoutAppend | online-hosting-platform/backend/src/models/Session.js:16 | Filtering distributes over concatenation, so the remaining ids keep their relative order. |
| Seqs.WithoutAbsent | online-hosting-platform/backend/src/models/Session.js:16 | Removing an id that is not in the list leaves the list unchanged. |
| Seqs.WithoutCounts | online-hosting-platform/backend/src/models/Session.js:16 | Exactly the occurrences of `x` go, and every other id keeps its number of occurrences. |
| Seqs.WithoutKeepsDistinct | online-hosting-platform/backend/src/models/Session.js:16 | Filtering a duplicate-free list leaves it duplicate-free. |
| Rooms.FirstStudentOn | server.js:454-455 | The inner `for…in` loop stops at the first student, in enumeration order, whose connection is the dropped one. No earlier student is on it. |
| Rooms.WithoutFirstOn | server.js:454-461 | The inner loop changes only `students`. It deletes the first student, in enumeration order, whose connection is the dropped one, and changes nothing when there is none. |
| Rooms.WithoutOnlyEntryOn | server.js:454-461 | When a room holds the connection under at most one student id, no entry on it is left after the inner loop. |
| Rooms.Fate | server.js:443-468 | A room is deleted exactly when the dropped connection taught it or no student is left after the inner loop. A surviving room is well formed, not taught by that connection, and has a student. |
| Rooms.Notices | server.js:446-458 | One visit emits at most one event, to the room's group. It is `room-ended` when the connection taught the room, otherwise `user-left` naming the first student on the connection, and nothing when there is none. |
| Rooms.LeftIsRemoved | server.js:454-459 | The student named in `user-left` is the one whose entry the inner loop deleted, and a visit announces nothing exactly when it leaves the room unchanged. |
| Rooms.Visit | server.js:443-468 | One outer iteration settles its own room and leaves every other room unchanged. It skips a room already deleted and emits that room's notices. The key order is kept: `delete` takes out only the deleted room's id, and an assignment to an existing key does not move it. |
| Rooms.Sweep | server.js:442-469 | A scan emits at most one event per visited key and never adds a room id to the table. |
| Rooms.Remaining | server.js:442-469 | The ids left after a scan, in the order they had: an id stays exactly when the scan did not visit it or its room survived its `Fate`. |
| Rooms.RemainingNone | server.js:442 | A scan that visits nothing removes no id. |
| Rooms.RemainingSnoc | server.js:443-468 | Visiting one more key takes at most that key's id out of the remaining ids, and only when its room is deleted. |
| Rooms.SweepOrder | server.js:442-469 | A scan over distinct keys leaves exactly the `Remaining` ids, in their original enumeration order. |
| Rooms.Disconnected | server.js:438-470 | The disconnect handler keeps the room table well formed. |
| Rooms.SweepEffect | server.js:442-469 | Because each visit touches only its own key, a scan over distinct keys leaves each visited room as `Fate` says and each other room as it was. It emits the visited rooms' notices in key order. The order of the ids left is stated by `SweepOrder`. |
| Rooms.DisconnectedRooms | server.js:442-469 | After a disconnect, each room is exactly its `Fate` as judged on the table before the disconnect, and the surviving ids keep their enumeration order (`Remaining`). |
| Rooms.DisconnectEndsTaughtRooms | server.js:446-451 | After a disconnect, no remaining room is taught by the dropped connection. |
| Rooms.DisconnectLeavesNoEmptyRoom | server.js:463-468 | After any disconnect, no room without students remains. |
| Rooms.DisconnectRemovesAtMostOneEntry | server.js:454-461 | No room is created. A surviving room differs only in `students`. It has lost at most one entry, one that was on the dropped connection, and always one when it held such an entry. |
| Rooms.DisconnectNotices | server.js:446-458 | `room-ended` goes to a room exactly when the dropped connection taught it, and every event emitted is one room's notice. |
| Rooms.DisconnectCollectsIdleRoom | server.js:463-468 | A room holding only its teacher is deleted when any other connection drops, and nothing is sent to it. |
| Rooms.DisconnectForgetsSocket | server.js:442-469 | When each room holds the connection under at most one student id, the dropped connection appears nowhere in the table afterwards. |
| Rooms.DisconnectKeepsLaterEntries | server.js:454-461 | For any room not taught by the dropped connection: when it has a student on that connection and more than one student, it survives with exactly that first entry deleted, and every student after it in enumeration order, on the dropped connection or not, is still there. |
| Rooms.DisconnectLeavesSecondEntry | server.js:454-461 | A concrete two-entry instance of the `break`: a connection joined under two student ids keeps the second entry after it drops. |
| Rooms.SummaryOf | server.js:508-512 | A summary's `studentCount` is the number of students in the room. |
| Rooms.Summaries | server.js:507 | The `map` yields one summary per key, in key order, each built from that key's room. |
| Rooms.ActiveRooms | server.js:507-513 | The `get-active-rooms` response has one summary per room id, in the table's key order, each carrying its key as `roomId`. |
| Rooms.ActiveRoomsListsEachRoomOnce | server.js:504-515 | The response lists every room exactly once, with no id repeated. Each entry carries that room's course, teacher, creation time and student count. |
| ClassroomServer.JoiningId | server.js:171 | The connection's identity id wins. The id sent with the command is used only when the identity has none. |
| ClassroomServer.EmojiSender | server.js:337 | An emoji is attributed to the sender's id, or to "anonymous" when there is none. It is never attributed to an empty name. |
| ClassroomServer.Server.constructor | server.js:124 | The table starts empty, with nothing sent and no groups. |
| ClassroomServer.Server.CreateRoom | server.js:133-165 | Missing room id, course id or teacher id is refused with "Missing required fields". A taken id is refused with "Room already exists". Otherwise there is a new last room taught by the sender with no students, the sender joins its group, the ack reports success, and `room-created` goes to the sender. A refusal changes nothing. |
| ClassroomServer.Server.JoinRoom | server.js:168-196 | An unknown room is refused with "Room does not exist or has ended". An id already in the room is refused with "You are already in this room". Otherwise the joining id maps to the sender's connection, the sender joins the group and `user-joined` goes to the room. |
| ClassroomServer.Server.WebrtcOffer | server.js:200-218 | The offer goes only to the named student's connection, and is dropped when the room or the student is unknown. |
| ClassroomServer.Server.WebrtcAnswer | server.js:221-240 | The answer goes only to the room's teacher connection, tagged with the sender's id. An unknown room drops it. |
| ClassroomServer.Server.IceCandidate | server.js:243-274 | A candidate naming a student goes to that student's connection, and one without a student goes to the teacher. An unknown room or student drops it. |
| ClassroomServer.Server.SendMessage | server.js:277-281 | A message goes to the room's group when the room exists, and nowhere otherwise. |
| ClassroomServer.Server.MuteStudent | server.js:284-293 | Only the room's teacher connection can mute or unmute, and only a student of the room. The student's connection alone is told. |
| ClassroomServer.Server.KickStudent | server.js:295-311 | Only the teacher connection can kick, and only a student of the room. The student is told first, then their entry goes, then the room hears `user-left`. Otherwise nothing changes. |
| ClassroomServer.Server.LeaveRoom | server.js:314-332 | A sender with role "teacher" on the room's teacher connection ends the room. Anyone else removes their own id if present and the room hears `user-left`. In every other case nothing changes. |
| ClassroomServer.Server.SendEmoji | server.js:335-340 | An emoji goes to the room's group under `EmojiSender` when the room exists. |
| ClassroomServer.Server.Hand | server.js:343-360 | A raised or lowered hand goes only to the teacher connection, and only from a sender with an id. |
| ClassroomServer.Server.SendTask | server.js:363-367 | Only the teacher connection can broadcast a task to the room. |
| ClassroomServer.Server.SubmitTask | server.js:370-380 | A submission goes only to the teacher connection, with the sender's id. |
| ClassroomServer.Server.Disconnect | server.js:438-470 | The dropped connection has left every group. The table and the events sent are exactly those of `Rooms.Disconnected` on the table before. |
| ClassroomServer.Server.VisitAll | server.js:442-469 | The outer loop over the room ids at its start, deleting as it goes, computes `Rooms.Disconnected`. |
| ClassroomServer.Server.VisitRoom | server.js:443-468 | One outer iteration updates the table and the outbox as `Rooms.Visit` says. |
| ClassroomServer.Server.DropFirstStudentOn | server.js:454-461 | The inner loop removes the first student entry on the connection, as `Rooms.WithoutFirstOn` says, and tells the room. |
| ClassroomServer.Server.ActiveRoomsResponse | server.js:504-515 | The response data is `Rooms.ActiveRooms` of the table, and the table is not changed. |
| Sessions.Added | online-hosting-platform/backend/src/models/Session.js:9-13 | Adding keeps every id, includes the new one, and appends at most one element at the end. It changes nothing when the id is present, and keeps a duplicate-free list duplicate-free. |
| Sessions.AddedIdempotent | online-hosting-platform/backend/src/models/Session.js:9-13 | Adding the same id twice is adding it once. |
| Sessions.RemoveUndoesAdd | online-hosting-platform/backend/src/models/Session.js:9-17 | Removing an id just added to a list without it restores the list. |
| Sessions.Session.constructor | online-hosting-platform/backend/src/models/Session.js:2-7 | The given ids are stored. An omitted list becomes a new empty array, and a given one is shared, not copied. An omitted status becomes "active". |
| Sessions.Session.AddStudent | online-hosting-platform/backend/src/models/Session.js:9-13 | The session's own array becomes `Added` of its old contents, in place. |
| Sessions.Session.RemoveStudent | online-hosting-platform/backend/src/models/Session.js:15-17 | The session points to a new array holding `Without` of the old contents. The old array and the other fields are untouched. |
| Sessions.Session.EndSession | online-hosting-platform/backend/src/models/Session.js:19-21 | The status becomes "ended" and nothing else changes. Ending an ended session changes nothing. |

## Left out

- The `chat:*` handlers (`server.js:383-435`) are not modelled. They work on database chat rooms, not on `activeRooms`. `chat:leave` (`server.js:395-398`) calls `socket.leave(roomId)` on whatever id it is given, a classroom room id included, so a group recorded in `joined` can also shrink through a handler the model leaves out.
- The HTTP routes other than `/api/active-rooms`, the database, file uploads and the rest of the application are not modelled.
- Signature checking of tokens is a function parameter `verify`. The JWT secret and the library are not part of this model.
- `new Date()` enters `CreateRoom` as the integer `now`.
- Logging is not modelled.
- Connection state recovery (`server.js:34-36`) is not modelled. Socket.IO hands a client that reconnects within 120 seconds its old socket id and its broadcast groups back; in the model `Server.Disconnect` removes the connection from `joined` for good and no handler restores it.
- Transport delivery is not modelled. An emit is recorded in `outbox`, and whether a client receives it is outside the model.
- Socket.IO keeps room names and socket ids in one namespace, and every socket is in a room named by its own id. A classroom `roomId` equal to some socket id would also reach that socket through `io.to(roomId)`. `ToSocket` and `ToRoom` keep the two apart, so this overlap is not modelled.
- Interleaving of concurrent handlers is not modelled. Each handler is atomic in the single-threaded event loop.
- The callback of `create-room` and `join-room` may be absent in the source. The model always returns the ack and does not model its order relative to `room-created`.
- Payloads whose shape makes a destructuring throw are not modelled. Examples are a missing `data` or a non-object argument. Such a handler catches the error or crashes before doing anything.
- A missing id (`undefined`) is treated like `""`. JavaScript would turn it into the property name "undefined" when used as a key.
- Property names inherited from `Object.prototype` are not modelled. Examples are `constructor` and `__proto__`, which make `activeRooms[roomId]` truthy for a room that does not exist.
- Enumeration order is pure insertion order. JavaScript lists integer-like property names first, in numeric order.
- The outer `try`/`catch` of the middleware (`server.js:118-120`) is not modelled. Its "Authentication error" branch cannot be reached on string handshake fields.
- Claims that are not strings are not modelled. Claims are optional strings.
- Rooms are values in the table, not shared objects. Nothing else holds a reference to a room, so aliasing does not arise.
- Sessions.AddStudent: student ids are strings compared by value. JavaScript's `includes` would compare object ids by reference.
