# project-management-tool: the board, task and real-time core in Dafny

The backend of this Trello-like tool keeps boards with members and columns,
tasks with checklists and labels, and labels with a validated colour. A
socket.io relay tells connected browsers about presence and board activity.
This project models five parts of that core:

- The board access middleware (`BoardAccess`).
- The board controller's guards and edits (`Boards`).
- The task controller's guards and edits (`Tasks`).
- The Label schema's validation rules (`Labels`).
- The socket handler's bookkeeping and fan-out (`SocketRelay`).

It then proves what these parts promise. Two small modules support them:

- `Results` holds the Option/Result types and the HTTP statuses.
- `JsText` models JavaScript's `String.prototype.trim` and its white-space set.

Each controller handler is a function. It receives the document it would
have loaded, as `Option<Board>` or `Option<Task>` where `None` means not
found. It returns either the document it would have saved or an error
status. The `forEach` in `updateTask` that copies the whitelisted fields
becomes a method with a loop.

The socket handler's module-level maps are the fields of the `Relay` class:
`activeUsers`, `socketToUser` and `boardRooms`. A fourth field,
`socketRooms`, maps each connected socket to the board rooms it has joined,
which stands for socket.io's own room table. Each handler is a method. It
returns the multiset of deliveries it emits, as pairs of socket and event,
and is proved equal to a pure description of who receives what. The
handlers that change no state are proved against `Fanout`.

Where the code and the design disagree, the model follows the code:
- `user:online` is broadcast on every connection, not only a user's first.
- Any closing socket removes its user from every board's user set, even
  when another tab of that user is still in the room.
- `socket.to(room)` spares only the sending socket, so the sender's other
  tabs receive its relays.
- Disconnect scans every board's set rather than consulting a reverse index.

## Model

| member | source | states |
|---|---|---|
| BoardAccess.CheckBoardAccess | backend/src/middleware/checkBoardAccess.js:3-44 | 404 exactly when the board is missing; every other refusal is 403 |
| BoardAccess.OwnerAlwaysAdmitted | backend/src/middleware/checkBoardAccess.js:13-16 | the owner passes whatever roles the route requires |
| BoardAccess.OutsiderForbidden | backend/src/middleware/checkBoardAccess.js:18-25 | someone who is neither owner nor member gets 403 |
| BoardAccess.RoleListDecides | backend/src/middleware/checkBoardAccess.js:27-36 | with a non-empty role list, a non-owner member passes iff the role of their first entry is listed |
| BoardAccess.UnrestrictedAdmitsMembers | backend/src/middleware/checkBoardAccess.js:27-38 | with the default empty list, or a value that is not an array, every member passes |
| BoardAccess.AccessMonotone | backend/src/middleware/checkBoardAccess.js:28-29 | enlarging a non-empty role list never turns an admitted caller away |
| Model.FirstIndex | backend/src/controllers/boardController.js:280 | the first index whose element satisfies the predicate, -1 iff none does; shared by every `find` and `findIndex` below |
| Model.FindMember | backend/src/controllers/boardController.js:280 | `members.find` as an index: -1 iff the user has no entry, otherwise the first entry of that user |
| Boards.AdminCount | backend/src/controllers/boardController.js:287 | the admin count is positive iff some entry is an admin, and never exceeds the number of entries |
| Boards.AdminCountConcat | backend/src/controllers/boardController.js:287 | the admin count of a concatenation is the sum of the two counts |
| Boards.AdminCountUpdate | backend/src/controllers/boardController.js:293-294 | changing one entry's role changes the admin count by that entry alone |
| Boards.WithoutUser | backend/src/controllers/boardController.js:333-335 | the members filter removes every entry of the user and keeps every other entry with its multiplicity; it never lengthens the list |
| Boards.WithoutUserConcat | backend/src/controllers/boardController.js:333-335 | filtering a concatenation filters each part and keeps their order |
| Boards.WithoutSoleEntry | backend/src/controllers/boardController.js:319-335 | with one entry per user, the filter drops exactly the entry `find` returned and keeps the rest in order |
| Boards.CreateBoard | backend/src/controllers/boardController.js:37-72 | the board has the given id, title, description, background and columns and is not archived; the creator owns it and is its only member, as admin; a falsy organization id selects a new organization |
| Boards.GetBoard | backend/src/controllers/boardController.js:81-99 | 404 without a board; otherwise access iff owner or member, else 403 |
| Boards.UpdateBoard | backend/src/controllers/boardController.js:109-129 | 404 iff no board, and a found board is always updated: title, description and background each take a non-empty new value or keep the old one; nothing else changes |
| Boards.ArchiveBoard | backend/src/controllers/boardController.js:164-182 | 404 iff no board, and a found board always has its archived flag flipped and nothing else changed |
| Boards.ArchiveTwiceRestores | backend/src/controllers/boardController.js:173 | archiving twice gives back the original board |
| Boards.InviteBoardMember | backend/src/controllers/boardController.js:230-261 | 404 without board or user; 400 iff the user already has an entry; accepted iff board and user exist and the user has no entry, with one entry appended, role defaulting to member |
| Boards.InviteKeepsInvariants | backend/src/controllers/boardController.js:244-253 | an accepted invitation keeps entries distinct and never lowers the admin count |
| Boards.UpdateBoardMemberRole | backend/src/controllers/boardController.js:270-302 | 404 iff no entry; 400 iff the first entry is an admin, the request does not ask for admin, and admins are at most one; accepted in every other case, where that entry alone changes and an admin remains |
| Boards.RoleChangeKeepsDistinct | backend/src/controllers/boardController.js:293-294 | a role change keeps user ids, hence distinctness |
| Boards.RemoveBoardMember | backend/src/controllers/boardController.js:310-343 | 404 iff no entry; 400 iff the first entry is an admin and admins are at most one; accepted in every other case, where every entry of the user is filtered out |
| Boards.RemovalKeepsAnAdmin | backend/src/controllers/boardController.js:324-335 | with distinct entries an accepted removal drops exactly one entry, keeps order and distinctness, and leaves at least one admin |
| Boards.RemovalGuardSeesFirstEntryOnly | backend/src/controllers/boardController.js:319-335 | with a duplicated user whose second entry is the only admin, the removal is accepted and no admin is left |
| Boards.FindColumn | backend/src/controllers/boardController.js:433-435 | `findIndex` on column ids: -1 iff no column has the id, otherwise the first match |
| Boards.AddColumn | backend/src/controllers/boardController.js:350-372 | position defaults to 0; 400 iff a column holds it; accepted iff the board exists and the position is free, with exactly one column appended |
| Boards.AddColumnKeepsPositionsDistinct | backend/src/controllers/boardController.js:358-364 | an accepted column addition keeps positions distinct |
| Boards.UpdateColumn | backend/src/controllers/boardController.js:379-415 | as written: 404 without board or column; 400 iff any column, the edited one included, sits at the requested position (default 0); accepted in every other case, with title by `||` and position when given |
| Boards.UpdateColumnRefusesOwnPosition | backend/src/controllers/boardController.js:397-401 | an update whose requested position (default 0) is the column's own is always refused |
| Boards.UpdateColumnIntended | backend/src/controllers/boardController.js:396-407 | corrected: 404 without board or column; 400 iff a position is given that another column holds; accepted in every other case, with title by `||` and position when given |
| Boards.IntendedUpdateColumnIsSound | backend/src/controllers/boardController.js:396-407 | corrected: a rename alone is always accepted, and accepted updates keep positions distinct |
| Boards.DeleteColumn | backend/src/controllers/boardController.js:422-449 | 404 iff no column has the id; accepted iff the board and the column exist, and exactly the first match is removed, the others kept in order |
| Boards.DeleteColumnKeepsPositionsDistinct | backend/src/controllers/boardController.js:440-441 | deleting a column keeps positions distinct |
| Boards.CreateTaskRefusal | backend/src/controllers/boardController.js:468-486 | the guards in order: 400 for a missing title or column before any lookup; 404 without board; 403 iff no entry or viewer; none refuses only a member who may edit |
| Boards.CreateTaskAsWritten | backend/src/controllers/boardController.js:454-539 | as written: never a task; a refusal keeps its status, and every request past the guards ends in 500, because `Task.getNextPosition` (line 489) is not defined and the catch answers 500 |
| Boards.CreateTaskNeverSucceeds | backend/src/controllers/boardController.js:489-537 | as written, no request creates a task: the handler answers 500 exactly where the corrected one succeeds, and agrees with it on every refusal |
| Boards.CreateTask | backend/src/controllers/boardController.js:454-539 | corrected: the same refusals; accepted iff title and column are given and the caller has a non-viewer entry; the task has the given id, title, description and column, the schema defaults, the next position handed in, and the caller as creator |
| Tasks.TaskAccess | backend/src/controllers/taskController.js:51-58 | passes iff the caller has an entry and, for a change, that entry is not a viewer; a missing board is a 500 |
| Tasks.ChangeAccessImpliesReadAccess | backend/src/controllers/taskController.js:22-29 | whoever may change a task may read it |
| Tasks.GetTaskById | backend/src/controllers/taskController.js:8-36 | 404 without a task; otherwise the task is returned iff the caller is a member of its board, 403 for a non-member, 500 when the board is gone |
| Tasks.CopyFieldStep | backend/src/controllers/taskController.js:70-74 | one step of the whitelist loop copies that field when defined and touches nothing else |
| Tasks.UpdateTask | backend/src/controllers/taskController.js:41-91 | 404, then the gate; then each of the six whitelisted fields is taken from the request when defined, and every other field is unchanged |
| Tasks.MoveTask | backend/src/controllers/taskController.js:121-153 | 404, then the gate; after it exactly the column and the position change; a missing `toColumnId` gives a freshly generated id |
| Tasks.FindItem | backend/src/controllers/taskController.js:272-274 | `checklist.find` as an index: -1 iff no item has the id, otherwise the first match |
| Tasks.UpdateChecklistItem | backend/src/controllers/taskController.js:252-294 | 404 for an unknown item; after the gate, accepted iff an item has the id, and then text and completed change where given, on the first match only |
| Tasks.ToggleChecklistItem | backend/src/controllers/taskController.js:334-368 | 404 for an unknown item; after the gate, accepted iff an item has the id, and then only the first match's completed flag is negated |
| Tasks.ToggleTwiceRestores | backend/src/controllers/taskController.js:353-360 | toggling the same item twice gives back the original task |
| Tasks.WithoutItem | backend/src/controllers/taskController.js:322-324 | the checklist filter removes every item with the id and keeps every other item with its multiplicity |
| Tasks.WithoutItemConcat | backend/src/controllers/taskController.js:322-324 | filtering a concatenation filters each part, so the surviving items keep their order |
| Tasks.WithoutItemKeepsOthers | backend/src/controllers/taskController.js:322-324 | the checklist filter shortens the list iff some item has the id, and keeps every item with another id |
| Tasks.DeleteChecklistItem | backend/src/controllers/taskController.js:296-332 | 404 for an unknown item; after the gate, accepted iff an item has the id, and then the checklist is the filter, every item with the id gone and the others kept in order with their multiplicity |
| Tasks.WithoutLabel | backend/src/controllers/taskController.js:429-431 | the label filter removes the id entirely and keeps every other label with its multiplicity |
| Tasks.WithoutLabelConcat | backend/src/controllers/taskController.js:429-431 | filtering a concatenation filters each part, so the surviving labels keep their order |
| Tasks.AddLabelToTask | backend/src/controllers/taskController.js:370-403 | 404 for a missing label; after the gate, accepted iff the label exists, and then it is appended, without deduplication |
| Tasks.RemoveLabelFromTask | backend/src/controllers/taskController.js:404-438 | 404 for a missing label; after the gate, accepted iff the label exists, and then the labels are the filter: all occurrences go and the others stay in order with their multiplicity |
| Tasks.RemoveUndoesAdd | backend/src/controllers/taskController.js:396-431 | removing a label right after adding it equals removing it from the original task |
| Tasks.AddCommentToTask | backend/src/controllers/taskController.js:461-499 | 400 iff the message is missing or all white space, before any lookup; then 404, and the gate's own status (403, or 500 for a missing board) when it refuses; accepted iff the gate passes, the comment keeping the message as sent |
| JsText.TrimEmptyIffBlank | backend/src/controllers/taskController.js:467 | a string trims to empty iff it is all white space |
| JsText.TrimIgnoresPadding | backend/src/models/Label.js:14-15 | surrounding white space does not change the trimmed string |
| JsText.TrimIdempotent | backend/src/models/Label.js:14 | trimming twice is trimming once |
| Labels.ColorShape | backend/src/models/Label.js:17-21 | a colour matches iff it is `#` followed by exactly 3 or 6 hex digits |
| Labels.OtherDigitCountsRejected | backend/src/models/Label.js:20 | strings of length 5, 6 or 8 and more, i.e. 4, 5 or 7+ digits, never match |
| Labels.MatchIgnoresCase | backend/src/models/Label.js:20 | upper- or lower-casing a colour never changes whether it matches |
| Labels.Errors | backend/src/models/Label.js:4-27 | each required path fails iff missing; the name fails iff blank after trimming or longer than 50 after trimming; the colour fails `match` iff non-empty and not matching |
| Labels.Validate | backend/src/models/Label.js:4-27 | valid iff no path fails; a valid label stores the trimmed name, 1 to 50 characters, and a matching colour |
| Labels.StoredLabelRevalidates | backend/src/models/Label.js:11-16 | a stored label passes validation again unchanged |
| Labels.PaddingDoesNotMatter | backend/src/models/Label.js:11-16 | white space around a name changes neither the verdict nor the stored label |
| SocketRelay.ToEach | backend/src/socket/socketHandler.js:461-467 | each target socket receives the event exactly once, nobody else anything |
| SocketRelay.AddSocket | backend/src/socket/socketHandler.js:44-47 | the user's socket set is created if absent and gains the socket; other users are unchanged |
| SocketRelay.RemoveSocket | backend/src/socket/socketHandler.js:423-427 | the socket leaves its user's set; the user is dropped iff that set is left empty; other users are unchanged |
| SocketRelay.RegistryAfterConnect | backend/src/socket/socketHandler.js:44-48 | connecting a fresh socket keeps the registry consistent with no empty set |
| SocketRelay.RegistryAfterDisconnect | backend/src/socket/socketHandler.js:423-437 | disconnecting keeps the registry consistent with no empty set |
| SocketRelay.OfflineExactlyWhenLast | backend/src/socket/socketHandler.js:423-434 | the user leaves the registry, and `user:offline` goes out, iff the socket was the user's last |
| SocketRelay.ToUsersCount | backend/src/socket/socketHandler.js:281-296 | a listed user's sockets receive one copy per mention of that user; an unknown user none |
| SocketRelay.JoinRoom | backend/src/socket/socketHandler.js:65-68 | the board's set is created if absent and gains the user; other boards unchanged |
| SocketRelay.JoinIdempotent | backend/src/socket/socketHandler.js:65-68 | joining twice is joining once |
| SocketRelay.LeaveRoom | backend/src/socket/socketHandler.js:96-101 | the user leaves the set; the entry is deleted iff the set is left empty; other boards unchanged |
| SocketRelay.LeaveUnjoined | backend/src/socket/socketHandler.js:96-101 | leaving a room one is not in changes nothing, except that an empty set left by a disconnect is deleted |
| SocketRelay.JoinThenLeave | backend/src/socket/socketHandler.js:60-110 | joining then leaving restores the rooms when the user was not there and the room was absent or non-empty |
| SocketRelay.LeavePreservesNoEmptyRoom | backend/src/socket/socketHandler.js:96-101 | leaving never leaves an empty set behind |
| SocketRelay.LeaveAllRooms | backend/src/socket/socketHandler.js:440-449 | the sweep keeps every board key, removes the user from all of them, and keeps all other users |
| SocketRelay.SweptRooms | backend/src/socket/socketHandler.js:440-442 | a map with the same boards, each without the user, is the swept map |
| SocketRelay.DeparturesOncePerRoom | backend/src/socket/socketHandler.js:440-449 | `board:user-left` reaches each socket of each room the user was in exactly once, and nothing else is emitted |
| SocketRelay.DeparturesStep | backend/src/socket/socketHandler.js:441-447 | sweeping one more room the user was in adds exactly that room's departures |
| SocketRelay.SecondTabKeepsRoomButLosesListing | backend/src/socket/socketHandler.js:419-449 | closing one of two tabs keeps the user online and the other tab in the room, yet drops the user from the board's active users |
| SocketRelay.JoinSnapshotToJoinerOnly | backend/src/socket/socketHandler.js:70-83 | only the joining socket receives the snapshot, once, and it does not hear its own join |
| SocketRelay.RoomRelayExcludesSender | backend/src/socket/socketHandler.js:132-141 | a room relay reaches every socket in the room but the sender's, once each |
| SocketRelay.BoardDeletedReachesSender | backend/src/socket/socketHandler.js:143-152 | `board:deleted` also reaches the sending socket |
| SocketRelay.NotificationOncePerSocket | backend/src/socket/socketHandler.js:339-347 | a notification reaches each of the recipient's sockets once and nobody else; nothing when the recipient is offline |
| SocketRelay.MentionsCounted | backend/src/socket/socketHandler.js:280-296 | each mention of a user yields one `comment:mentioned` per socket of that user |
| SocketRelay.Sweep | backend/src/socket/socketHandler.js:440-449 | the loop over the boards removes the user from every set, keeps every board key, and emits exactly one `board:user-left` per room the user was in and per socket in it |
| SocketRelay.Relay.ActiveUsersInBoard | backend/src/socket/socketHandler.js:469-472 | the users recorded for the board, none when it has no entry |
| SocketRelay.Relay.Connect | backend/src/socket/socketHandler.js:38-55 | the socket is registered under its user and `user:online` goes to every connected socket, itself included |
| SocketRelay.Relay.EmitToUser | backend/src/socket/socketHandler.js:461-467 | the loop delivers once to each socket of the user, and does nothing when the user has no entry |
| SocketRelay.Relay.EmitToUsers | backend/src/socket/socketHandler.js:116-128 | the loop over a user list delivers what `ToUsers` describes |
| SocketRelay.Relay.Handle | backend/src/socket/socketHandler.js:113-415 | every relay handler emits exactly `Fanout` of the event and changes no state |
| SocketRelay.Relay.Join | backend/src/socket/socketHandler.js:60-90 | the socket joins the room and the user the board's set; the others hear `board:user-joined`; the joiner alone gets the users, itself included |
| SocketRelay.Relay.Leave | backend/src/socket/socketHandler.js:93-110 | the socket leaves the room and the user the board's set; the rest of the room hears `board:user-left` |
| SocketRelay.Relay.Disconnect | backend/src/socket/socketHandler.js:419-450 | the socket is unregistered; `user:offline` goes out iff it was the last; the user is swept out of every board's set with one `board:user-left` per room |
| SocketRelay.Relay.SweepRooms | backend/src/socket/socketHandler.js:440-449 | `boardRooms` becomes the swept map, the departures are emitted, and the other fields are untouched |

## Left out

- Socket authentication and the HTTP `protect` middleware are left out. Both verify a JWT and load the user from the database. Here a connection arrives with its user id already established.
- Database access is left out: `findById`, `save`, `populate`, `deleteOne`, organization creation and `Comment.create`. Handlers take the loaded document as a parameter. Identifiers such as the new board, column, task and organization ids are parameters too.
- `getAllBoards`, `deleteBoard`, `listBoardMembers`, `getAllTasks`, `getAllLabels`, `getAllCommentsForTask` and `deleteTask` are left out. They are queries or deletions behind the same guards already modelled.
- `assignUserToTask` and `removeUserFromTask` are left out. They call `task.addAssignee` and `task.removeAssignee`, which the Task schema does not define, so every request past their guards ends in 500.
- Boards.CreateTask: the corrected handler takes the next position as a parameter, since `Task.getNextPosition` is not defined and its intended rule is not stated anywhere.
- `addChecklistItemToTask` is not modelled. After sending 404 it does not return, so a missing text or a missing task falls through into further code.
- Invalid role, priority or ObjectId strings are left out. They make Mongoose throw, which the handlers turn into 500. The model's enums admit only valid values.
- `null` is not distinguished from `undefined`. For example, `updateColumn` with `position: null` would store null. Text fields whose falsiness is tested treat the empty string as missing.
- Schema validation on save is left out, apart from the Label schema: the Board and Task required fields. Lengths are counted in characters, not UTF-16 code units.
- Payload bodies of socket events are left out. Events are identified by name, plus the user and board for presence events. Malformed payloads are left out too.
- Delivery order, concurrency between handlers and transport behaviour are left out. Deliveries form a multiset, and each handler runs as one atomic step.
- SocketRelay.Relay.Handle: states what each stateless handler emits as one multiset of deliveries, not the order of its sends, nor the payloads that `board:created`, `task:assigned`, `comment:mentioned` and the other events carry.
- Boards.AddColumn: the position is taken to be a JSON number. The conflict test compares the raw request value with `===` (backend/src/controllers/boardController.js:360), so a numeric string such as `"1"` gets past it. Mongoose then casts it to a number on `columns.push` (:364) and stores a duplicate position. AddColumnKeepsPositionsDistinct holds only for numeric positions.
- Boards.UpdateColumn: the same hole at backend/src/controllers/boardController.js:399 and :406. A numeric-string position passes the `===` test and is stored cast, which can duplicate another column's position.
- Tasks.GetTaskById: the model assumes every `populate` succeeds. The query populates `createdBy` (backend/src/controllers/taskController.js:15), which is not a path of the Task schema. Under Mongoose's `strictPopulate` (the default since version 6) that populate throws, and the catch-all would answer 500 for every existing task. The Mongoose version is not part of this model.
- Tasks.UpdateTask: the same assumption. After the save, `populate` of `createdBy` (backend/src/controllers/taskController.js:77-81) may throw under `strictPopulate`, giving 500 after the task has been stored.
- Boards.CreateTask: the corrected handler assumes the populate of `createdBy` at backend/src/controllers/boardController.js:509 succeeds, as for Tasks.GetTaskById. The `createdBy` it hands to `Task.create` is dropped by strict mode, since the Task schema has no such path; the model keeps it as the request's value.
- Tasks.AddCommentToTask: the `attachments` handed to `Comment.create` are dropped by strict mode, since the Comment schema has no such path; the model keeps them as the request's value.
- Tasks.MoveTask: a request without `toPosition` stores no position (undefined); the model takes a number, as the Task datatype holds one.
- Tasks.AddLabelToTask: the label document is reduced to its id, and whether it belongs to the task's board is not checked, as in the source.

## Findings

| source | as written | input that shows it | evidently intended | confidence | as-written member | corrected member |
|---|---|---|---|---|---|---|
| backend/src/controllers/boardController.js:397-401 | the position conflict check runs against every column, the edited one included, at `position ?? 0`, even when no position is given | any update without a position (a rename, say) gets 400 whenever any column sits at position 0; any update that repeats the column's own position gets 400 | check only when a position is given, and only against the other columns | high, not executed | Boards.UpdateColumnRefusesOwnPosition | Boards.IntendedUpdateColumnIsSound |
| backend/src/controllers/boardController.js:489 | `Task.getNextPosition` is called, but the Task model defines no such static, so the call throws and the catch answers 500 | a create request with a title and a column, by an admin or member of an existing board | compute the next position in the column and create the task | high, not executed | Boards.CreateTaskNeverSucceeds | Boards.CreateTask |
