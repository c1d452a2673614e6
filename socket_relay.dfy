/** The real-time relay: which users are online on which sockets, which
    users sit in which board rooms, and, for every event a socket sends, who
    receives what. Emitting is modelled as the multiset of deliveries a
    handler produces (socket, event); the order in which socket.io writes
    them out and the payload bodies are not modelled. */
module SocketRelay {

  type UserId = string
  type SocketId = string
  type BoardId = string

  /** What a socket receives. Relayed events are told apart by the name they
      are emitted under; presence events carry the user and board they
      announce. */
  datatype Event =
    | UserOnline(userId: UserId)
    | UserOffline(userId: UserId)
    | UserJoined(userId: UserId, boardId: BoardId)
    | UserLeft(userId: UserId, boardId: BoardId)
    | ActiveUsers(boardId: BoardId, users: set<UserId>)
    | Relayed(name: string)
    | ErrorMessage

  datatype Delivery = Delivery(to: SocketId, event: Event)

  // ---------------------------------------------------------------------
  // Target selection
  // ---------------------------------------------------------------------

  /** `io.to(t).emit(e)` for every socket `t` of a set: each of them receives
      `e` exactly once, and nobody else receives anything. */
  function ToEach(targets: set<SocketId>, e: Event): (r: multiset<Delivery>)
    ensures forall d: Delivery :: r[d] == if d.to in targets && d.event == e then 1 else 0
  {
    multiset(set t | t in targets :: Delivery(t, e))
  }

  lemma ToEachAdd(targets: set<SocketId>, t: SocketId, e: Event)
    requires t !in targets
    ensures ToEach(targets + {t}, e) == ToEach(targets, e) + multiset{Delivery(t, e)}
  {
    assert forall d :: ToEach(targets + {t}, e)[d] == (ToEach(targets, e) + multiset{Delivery(t, e)})[d];
  }

  /** `activeUsers.get(u)`, with no sockets for a user that has no entry. */
  function SocketsOf(active: map<UserId, set<SocketId>>, u: UserId): set<SocketId> {
    if u in active then active[u] else {}
  }

  /** The sockets that have joined the room `board:<b>`. */
  function RoomSockets(socketRooms: map<SocketId, set<BoardId>>, b: BoardId): (r: set<SocketId>)
    ensures forall t :: t in r <==> t in socketRooms && b in socketRooms[t]
  {
    set t | t in socketRooms && b in socketRooms[t]
  }

  /** The `forEach` over a list of user ids, each followed by a send to all
      of that user's sockets. */
  function ToUsers(active: map<UserId, set<SocketId>>, ids: seq<UserId>, e: Event): (r: multiset<Delivery>)
    ensures forall d: Delivery :: d.event != e ==> r[d] == 0
  {
    if ids == [] then multiset{}
    else ToUsers(active, ids[..|ids| - 1], e) + ToEach(SocketsOf(active, ids[|ids| - 1]), e)
  }

  // ---------------------------------------------------------------------
  // Who is online
  // ---------------------------------------------------------------------

  /** activeUsers and socketToUser agree: no user is kept with an empty set
      of sockets, every socket of a user maps back to that user, and every
      mapped socket is among its user's sockets. */
  predicate Registry(active: map<UserId, set<SocketId>>, owner: map<SocketId, UserId>) {
    && (forall u :: u in active ==> active[u] != {})
    && (forall u, t :: u in active && t in active[u] ==> t in owner && owner[t] == u)
    && (forall t :: t in owner ==> owner[t] in active && t in active[owner[t]])
  }

  /** The connect block: create u's set if absent, then add the socket. */
  function AddSocket(active: map<UserId, set<SocketId>>, u: UserId, s: SocketId): (r: map<UserId, set<SocketId>>)
    ensures r.Keys == active.Keys + {u}
    ensures SocketsOf(r, u) == SocketsOf(active, u) + {s}
    ensures forall v :: v != u ==> SocketsOf(r, v) == SocketsOf(active, v)
  {
    active[u := SocketsOf(active, u) + {s}]
  }

  /** The first half of disconnect: drop the socket from u's set and drop u
      once that set is empty. */
  function RemoveSocket(active: map<UserId, set<SocketId>>, u: UserId, s: SocketId): (r: map<UserId, set<SocketId>>)
    ensures SocketsOf(r, u) == SocketsOf(active, u) - {s}
    ensures forall v :: v != u ==> SocketsOf(r, v) == SocketsOf(active, v)
    ensures r.Keys <= active.Keys
    ensures u !in r <==> SocketsOf(active, u) <= {s}
  {
    if u in active then
      var rest := active[u] - {s};
      if rest == {} then active - {u} else active[u := rest]
    else active
  }

  lemma RegistryAfterConnect(active: map<UserId, set<SocketId>>, owner: map<SocketId, UserId>, s: SocketId, u: UserId)
    requires Registry(active, owner) && s !in owner
    ensures Registry(AddSocket(active, u, s), owner[s := u])
  {
    var a := AddSocket(active, u, s);
    var o := owner[s := u];
    forall v, t | v in a && t in a[v] ensures t in o && o[t] == v {
      assert t in SocketsOf(a, v);
      if t != s {
        assert t in SocketsOf(active, v);
      }
    }
    forall t | t in o ensures o[t] in a && t in a[o[t]] {
      if t != s {
        assert t in SocketsOf(active, owner[t]);
        assert t in SocketsOf(a, owner[t]);
      } else {
        assert s in SocketsOf(a, u);
      }
    }
  }

  lemma RegistryAfterDisconnect(active: map<UserId, set<SocketId>>, owner: map<SocketId, UserId>, s: SocketId)
    requires Registry(active, owner) && s in owner
    ensures Registry(RemoveSocket(active, owner[s], s), owner - {s})
  {
    var u := owner[s];
    var a := RemoveSocket(active, u, s);
    var o := owner - {s};
    forall v | v in a ensures a[v] != {} {
      if v == u {
        assert SocketsOf(a, u) == active[u] - {s};
      } else {
        assert SocketsOf(a, v) == SocketsOf(active, v);
      }
    }
    forall v, t | v in a && t in a[v] ensures t in o && o[t] == v {
      assert t in SocketsOf(a, v);
      assert t in SocketsOf(active, v);
    }
    forall t | t in o ensures o[t] in a && t in a[o[t]] {
      var v := owner[t];
      assert t in SocketsOf(active, v);
      assert t in SocketsOf(a, v);
    }
  }

  /** `user:offline` goes out exactly when the closing socket was its user's
      last one; otherwise the user stays registered with the other sockets. */
  lemma OfflineExactlyWhenLast(active: map<UserId, set<SocketId>>, owner: map<SocketId, UserId>, s: SocketId)
    requires Registry(active, owner) && s in owner
    ensures owner[s] !in RemoveSocket(active, owner[s], s) <==> active[owner[s]] == {s}
    ensures owner[s] in RemoveSocket(active, owner[s], s) ==>
              RemoveSocket(active, owner[s], s)[owner[s]] == active[owner[s]] - {s}
  {
    var u := owner[s];
    assert s in active[u];
    if active[u] <= {s} {
      assert active[u] == {s};
    }
    if u in RemoveSocket(active, u, s) {
      assert SocketsOf(RemoveSocket(active, u, s), u) == active[u] - {s};
    }
  }

  /** Under the registry, a socket is among a user's sockets exactly when
      it is mapped to that user. */
  lemma SocketOwnedBy(active: map<UserId, set<SocketId>>, owner: map<SocketId, UserId>, v: UserId, t: SocketId)
    requires Registry(active, owner)
    ensures t in SocketsOf(active, v) <==> t in owner && owner[t] == v
  {
  }

  lemma ToUsersLast(active: map<UserId, set<SocketId>>, ids: seq<UserId>, e: Event, t: SocketId)
    requires ids != []
    ensures ToUsers(active, ids, e)[Delivery(t, e)]
            == ToUsers(active, ids[..|ids| - 1], e)[Delivery(t, e)]
               + (if t in SocketsOf(active, ids[|ids| - 1]) then 1 else 0)
  {
  }

  /** A direct send reaches each socket of the target user exactly once,
      and a user mentioned k times receives k copies on each socket; a user
      with no entry receives nothing and raises no error. */
  lemma {:induction false} ToUsersCount(active: map<UserId, set<SocketId>>, owner: map<SocketId, UserId>,
                                        ids: seq<UserId>, e: Event, t: SocketId)
    requires Registry(active, owner)
    ensures ToUsers(active, ids, e)[Delivery(t, e)] == if t in owner then multiset(ids)[owner[t]] else 0
  {
    if ids != [] {
      var front := ids[..|ids| - 1];
      var v := ids[|ids| - 1];
      ToUsersCount(active, owner, front, e, t);
      ToUsersLast(active, ids, e, t);
      SocketOwnedBy(active, owner, v, t);
      assert ids == front + [v];
      assert multiset(ids) == multiset(front) + multiset{v};
    }
  }

  // ---------------------------------------------------------------------
  // Board rooms (boardRooms: board id -> user ids)
  // ---------------------------------------------------------------------

  function MembersOf(rooms: map<BoardId, set<UserId>>, b: BoardId): set<UserId> {
    if b in rooms then rooms[b] else {}
  }

  /** `board:join`: create the room's set if absent, then add the user. */
  function JoinRoom(rooms: map<BoardId, set<UserId>>, b: BoardId, u: UserId): (r: map<BoardId, set<UserId>>)
    ensures r.Keys == rooms.Keys + {b}
    ensures MembersOf(r, b) == MembersOf(rooms, b) + {u}
    ensures forall c :: c != b ==> MembersOf(r, c) == MembersOf(rooms, c)
  {
    rooms[b := MembersOf(rooms, b) + {u}]
  }

  /** `board:leave`: remove the user, and the room once it is empty. */
  function LeaveRoom(rooms: map<BoardId, set<UserId>>, b: BoardId, u: UserId): (r: map<BoardId, set<UserId>>)
    ensures MembersOf(r, b) == MembersOf(rooms, b) - {u}
    ensures forall c :: c != b ==> (c in r <==> c in rooms) && MembersOf(r, c) == MembersOf(rooms, c)
    ensures b in r <==> MembersOf(rooms, b) - {u} != {}
  {
    if b in rooms then
      var rest := rooms[b] - {u};
      if rest == {} then rooms - {b} else rooms[b := rest]
    else rooms
  }

  /** Joining a room twice is joining it once. */
  lemma JoinIdempotent(rooms: map<BoardId, set<UserId>>, b: BoardId, u: UserId)
    ensures JoinRoom(JoinRoom(rooms, b, u), b, u) == JoinRoom(rooms, b, u)
  {
    assert MembersOf(JoinRoom(rooms, b, u), b) + {u} == MembersOf(JoinRoom(rooms, b, u), b);
  }

  /** No room is kept with an empty set. Leaving maintains this; disconnect
      does not. */
  predicate NoEmptyRoom(rooms: map<BoardId, set<UserId>>) {
    forall b :: b in rooms ==> rooms[b] != {}
  }

  /** Leaving a room one never joined changes nothing, as long as that room
      is not an empty set left behind by a disconnect: such a room is
      deleted. */
  lemma LeaveUnjoined(rooms: map<BoardId, set<UserId>>, b: BoardId, u: UserId)
    requires u !in MembersOf(rooms, b)
    ensures LeaveRoom(rooms, b, u) == if b in rooms && rooms[b] == {} then rooms - {b} else rooms
    ensures NoEmptyRoom(rooms) ==> LeaveRoom(rooms, b, u) == rooms
  {
    if b in rooms && rooms[b] != {} {
      assert rooms[b] - {u} == rooms[b];
      assert rooms[b := rooms[b]] == rooms;
    }
  }

  /** Joining then leaving gives back the rooms as they were, for a user not
      yet in a room that is absent or non-empty. */
  lemma JoinThenLeave(rooms: map<BoardId, set<UserId>>, b: BoardId, u: UserId)
    requires u !in MembersOf(rooms, b)
    requires b in rooms ==> rooms[b] != {}
    ensures LeaveRoom(JoinRoom(rooms, b, u), b, u) == rooms
  {
    var j := JoinRoom(rooms, b, u);
    assert j[b] - {u} == MembersOf(rooms, b);
    if b in rooms {
      assert j[b := rooms[b]] == rooms;
    } else {
      assert j - {b} == rooms;
    }
  }

  lemma LeavePreservesNoEmptyRoom(rooms: map<BoardId, set<UserId>>, b: BoardId, u: UserId)
    requires NoEmptyRoom(rooms)
    ensures NoEmptyRoom(LeaveRoom(rooms, b, u))
  {
    var r := LeaveRoom(rooms, b, u);
    forall c | c in r ensures r[c] != {} {
      assert MembersOf(r, c) == r[c];
    }
  }

  /** The room sweep of disconnect: the user is taken out of every room,
      and every room, even one left empty, stays in the map. */
  function LeaveAllRooms(rooms: map<BoardId, set<UserId>>, u: UserId): (r: map<BoardId, set<UserId>>)
    ensures r.Keys == rooms.Keys
    ensures forall b :: u !in MembersOf(r, b)
    ensures forall b, v :: v != u ==> (v in MembersOf(r, b) <==> v in MembersOf(rooms, b))
  {
    map b | b in rooms :: rooms[b] - {u}
  }

  /** A map that holds the same boards, each without `u`, is the swept map. */
  lemma SweptRooms(swept: map<BoardId, set<UserId>>, rooms: map<BoardId, set<UserId>>, u: UserId)
    requires swept.Keys == rooms.Keys
    requires forall b :: b in rooms ==> swept[b] == rooms[b] - {u}
    ensures swept == LeaveAllRooms(rooms, u)
  {
  }

  /** The `board:user-left` deliveries of a disconnect, restricted to the
      rooms in `boards`: one per room the user was in and per socket still in
      that room. */
  function Departures(rooms: map<BoardId, set<UserId>>, socketRooms: map<SocketId, set<BoardId>>,
                      u: UserId, boards: set<BoardId>): set<Delivery>
  {
    set b, t | b in boards && b in rooms && u in rooms[b] && t in socketRooms && b in socketRooms[t]
      :: Delivery(t, UserLeft(u, b))
  }

  /** Each room the user was in announces the departure once to each of its
      sockets; no other delivery is made. */
  lemma DeparturesOncePerRoom(rooms: map<BoardId, set<UserId>>, socketRooms: map<SocketId, set<BoardId>>,
                              u: UserId, boards: set<BoardId>, d: Delivery)
    ensures multiset(Departures(rooms, socketRooms, u, boards))[d] ==
      if d.event.UserLeft? && d.event.userId == u && d.event.boardId in boards && d.event.boardId in rooms
         && u in rooms[d.event.boardId] && d.to in RoomSockets(socketRooms, d.event.boardId)
      then 1 else 0
  {
    if d.event.UserLeft? && d.event.userId == u && d.event.boardId in boards && d.event.boardId in rooms
       && u in rooms[d.event.boardId] && d.to in RoomSockets(socketRooms, d.event.boardId) {
      assert d == Delivery(d.to, UserLeft(u, d.event.boardId));
      assert d in Departures(rooms, socketRooms, u, boards);
    }
  }

  lemma DeparturesStep(rooms: map<BoardId, set<UserId>>, socketRooms: map<SocketId, set<BoardId>>,
                       u: UserId, done: set<BoardId>, b: BoardId)
    requires b !in done && b in rooms && u in rooms[b]
    ensures multiset(Departures(rooms, socketRooms, u, done + {b}))
         == multiset(Departures(rooms, socketRooms, u, done)) + ToEach(RoomSockets(socketRooms, b), UserLeft(u, b))
  {
    var before := Departures(rooms, socketRooms, u, done);
    var after := Departures(rooms, socketRooms, u, done + {b});
    var room := ToEach(RoomSockets(socketRooms, b), UserLeft(u, b));
    forall d ensures multiset(after)[d] == (multiset(before) + room)[d] {
      DeparturesOncePerRoom(rooms, socketRooms, u, done, d);
      DeparturesOncePerRoom(rooms, socketRooms, u, done + {b}, d);
    }
  }

  /** One board of the disconnect sweep: its departures are added once the
      user is found in it. */
  lemma SweepStep(rooms: map<BoardId, set<UserId>>, socketRooms: map<SocketId, set<BoardId>>,
                  u: UserId, done: set<BoardId>, b: BoardId)
    requires b in rooms && b !in done
    ensures multiset(Departures(rooms, socketRooms, u, done + {b}))
         == multiset(Departures(rooms, socketRooms, u, done))
            + (if u in rooms[b] then ToEach(RoomSockets(socketRooms, b), UserLeft(u, b)) else multiset{})
  {
    if u in rooms[b] {
      DeparturesStep(rooms, socketRooms, u, done, b);
    } else {
      DeparturesSkip(rooms, socketRooms, u, done, b);
    }
  }

  lemma DeparturesSkip(rooms: map<BoardId, set<UserId>>, socketRooms: map<SocketId, set<BoardId>>,
                       u: UserId, done: set<BoardId>, b: BoardId)
    requires b !in rooms || u !in rooms[b]
    ensures Departures(rooms, socketRooms, u, done + {b}) == Departures(rooms, socketRooms, u, done)
  {
  }

  /** A user with another tab open in a board's room closes one tab: the
      user stays online and the other tab stays in the room, so it still
      receives the board's relays, yet the sweep drops the user from the
      board's active users. */
  lemma SecondTabKeepsRoomButLosesListing(active: map<UserId, set<SocketId>>, owner: map<SocketId, UserId>,
                                          rooms: map<BoardId, set<UserId>>, socketRooms: map<SocketId, set<BoardId>>,
                                          closing: SocketId, other: SocketId, b: BoardId)
    requires Registry(active, owner)
    requires closing in owner && other in owner && closing != other && owner[other] == owner[closing]
    requires other in socketRooms && b in socketRooms[other]
    ensures owner[closing] in RemoveSocket(active, owner[closing], closing)
    ensures other in RoomSockets(socketRooms - {closing}, b)
    ensures owner[closing] !in MembersOf(LeaveAllRooms(rooms, owner[closing]), b)
  {
    var u := owner[closing];
    SocketOwnedBy(active, owner, u, other);
    assert other in SocketsOf(RemoveSocket(active, u, closing), u);
  }

  /** What `board:join` emits: the joining socket receives the snapshot of
      the board's users exactly once and does not hear its own
      `board:user-joined`; no other socket receives a snapshot. */
  lemma JoinSnapshotToJoinerOnly(socketRooms: map<SocketId, set<BoardId>>, s: SocketId, u: UserId,
                                 b: BoardId, users: set<UserId>, d: Delivery)
    ensures var out := ToRoomExcept(socketRooms, b, s, UserJoined(u, b)) + multiset{Delivery(s, ActiveUsers(b, users))};
      && out[Delivery(s, ActiveUsers(b, users))] == 1
      && out[Delivery(s, UserJoined(u, b))] == 0
      && (d.event.ActiveUsers? && out[d] > 0 ==> d == Delivery(s, ActiveUsers(b, users)))
  {
  }

  // ---------------------------------------------------------------------
  // Relays that change no state
  // ---------------------------------------------------------------------

  /** The handlers that only relay: `socket.to(room)` reaches the room
      without the sending socket. */
  datatype PeerKind =
    | BoardUpdated | TaskCreated | TaskUpdated | TaskMoved | TaskDeleted
    | TaskViewing | TaskStopViewing | CommentUpdated | CommentDeleted
    | TypingStart | TypingStop | AttachmentUploaded | AttachmentDeleted

  /** The name each room relay is emitted under. */
  function PeerEventName(k: PeerKind): string {
    match k
    case BoardUpdated => "board:updated"
    case TaskCreated => "task:created"
    case TaskUpdated => "task:updated"
    case TaskMoved => "task:moved"
    case TaskDeleted => "task:deleted"
    case TaskViewing => "task:viewer-joined"
    case TaskStopViewing => "task:viewer-left"
    case CommentUpdated => "comment:updated"
    case CommentDeleted => "comment:deleted"
    case TypingStart => "typing:start"
    case TypingStop => "typing:stop"
    case AttachmentUploaded => "attachment:uploaded"
    case AttachmentDeleted => "attachment:deleted"
  }

  /** A client event whose handler changes no state. */
  datatype Inbound =
    | Peer(kind: PeerKind, boardId: BoardId)
    | BoardCreated(memberIds: seq<UserId>)
    | BoardDeleted(boardId: BoardId)
    | TaskAssigned(boardId: BoardId, assigneeId: UserId)
    | TaskUnassigned(boardId: BoardId, assigneeId: UserId)
    | CommentAdded(boardId: BoardId, mentions: seq<UserId>)
    | NotificationSend(recipientId: UserId)
    | MemberAdded(boardId: BoardId, memberId: UserId)
    | MemberRemoved(boardId: BoardId, memberId: UserId)
    | ReportError

  /** `socket.to(board:<b>).emit(e)` from socket `s`. */
  function ToRoomExcept(socketRooms: map<SocketId, set<BoardId>>, b: BoardId, s: SocketId, e: Event): multiset<Delivery> {
    ToEach(RoomSockets(socketRooms, b) - {s}, e)
  }

  /** Everything the handler of `ev` on socket `s` emits. */
  function Fanout(active: map<UserId, set<SocketId>>, socketRooms: map<SocketId, set<BoardId>>,
                  s: SocketId, ev: Inbound): multiset<Delivery>
  {
    match ev
    case Peer(k, b) => ToRoomExcept(socketRooms, b, s, Relayed(PeerEventName(k)))
    case BoardCreated(ids) => ToUsers(active, ids, Relayed("board:created"))
    case BoardDeleted(b) => ToEach(RoomSockets(socketRooms, b), Relayed("board:deleted"))
    case TaskAssigned(b, a) =>
      ToEach(SocketsOf(active, a), Relayed("task:assigned"))
      + ToRoomExcept(socketRooms, b, s, Relayed("task:assignee-added"))
    case TaskUnassigned(b, a) =>
      ToEach(SocketsOf(active, a), Relayed("task:unassigned"))
      + ToRoomExcept(socketRooms, b, s, Relayed("task:assignee-removed"))
    case CommentAdded(b, mentions) =>
      ToRoomExcept(socketRooms, b, s, Relayed("comment:added"))
      + ToUsers(active, mentions, Relayed("comment:mentioned"))
    case NotificationSend(r) => ToEach(SocketsOf(active, r), Relayed("notification:received"))
    case MemberAdded(b, m) =>
      ToEach(SocketsOf(active, m), Relayed("board:member-added"))
      + ToRoomExcept(socketRooms, b, s, Relayed("board:member-joined"))
    case MemberRemoved(b, m) =>
      ToEach(SocketsOf(active, m), Relayed("board:member-removed"))
      + ToRoomExcept(socketRooms, b, s, Relayed("board:member-left"))
    case ReportError => multiset{Delivery(s, ErrorMessage)}
  }

  /** A room relay reaches every socket in the room except the sender's,
      once each, and nothing else; the sender's other sockets in the room
      are reached. */
  lemma RoomRelayExcludesSender(active: map<UserId, set<SocketId>>, socketRooms: map<SocketId, set<BoardId>>,
                                s: SocketId, k: PeerKind, b: BoardId, d: Delivery)
    ensures Fanout(active, socketRooms, s, Peer(k, b))[d] ==
      if d.to != s && d.to in socketRooms && b in socketRooms[d.to] && d.event == Relayed(PeerEventName(k)) then 1 else 0
  {
  }

  /** `board:deleted` goes through `io.to`, so the sender's socket, when in
      the room, receives it too. */
  lemma BoardDeletedReachesSender(active: map<UserId, set<SocketId>>, socketRooms: map<SocketId, set<BoardId>>,
                                  s: SocketId, b: BoardId)
    requires s in socketRooms && b in socketRooms[s]
    ensures Fanout(active, socketRooms, s, BoardDeleted(b))[Delivery(s, Relayed("board:deleted"))] == 1
  {
  }

  /** A notification reaches each socket of its recipient exactly once and
      no other socket; it reaches nobody when the recipient is offline. */
  lemma NotificationOncePerSocket(active: map<UserId, set<SocketId>>, owner: map<SocketId, UserId>,
                                  socketRooms: map<SocketId, set<BoardId>>, s: SocketId, r: UserId, t: SocketId)
    requires Registry(active, owner)
    ensures Fanout(active, socketRooms, s, NotificationSend(r))[Delivery(t, Relayed("notification:received"))]
            == if t in owner && owner[t] == r then 1 else 0
    ensures r !in active ==> Fanout(active, socketRooms, s, NotificationSend(r)) == multiset{}
  {
    assert t in SocketsOf(active, r) <==> t in owner && owner[t] == r;
  }

  /** A mentioned user's sockets each get `comment:mentioned` once per
      mention of that user. */
  lemma MentionsCounted(active: map<UserId, set<SocketId>>, owner: map<SocketId, UserId>,
                        socketRooms: map<SocketId, set<BoardId>>, s: SocketId, b: BoardId,
                        mentions: seq<UserId>, t: SocketId)
    requires Registry(active, owner)
    ensures Fanout(active, socketRooms, s, CommentAdded(b, mentions))[Delivery(t, Relayed("comment:mentioned"))]
            == if t in owner then multiset(mentions)[owner[t]] else 0
  {
    ToUsersCount(active, owner, mentions, Relayed("comment:mentioned"), t);
  }

  /** The loop of the disconnect sweep, board by board: a board whose set
      holds `u` loses it and announces the departure to the sockets still in
      its room; the others are passed over. */
  method Sweep(rooms: map<BoardId, set<UserId>>, sockets: map<SocketId, set<BoardId>>, u: UserId)
    returns (swept: map<BoardId, set<UserId>>, out: multiset<Delivery>)
    ensures swept == LeaveAllRooms(rooms, u)
    ensures out == multiset(Departures(rooms, sockets, u, rooms.Keys))
  {
    swept := rooms;
    ghost var done: set<BoardId> := {};
    out := multiset{};
    var todo := rooms.Keys;
    while todo != {}
      invariant todo <= rooms.Keys && done == rooms.Keys - todo
      invariant swept.Keys == rooms.Keys
      invariant forall c :: c in rooms ==> swept[c] == if c in done then rooms[c] - {u} else rooms[c]
      invariant out == multiset(Departures(rooms, sockets, u, done))
      decreases |todo|
    {
      var b :| b in todo;
      SweepStep(rooms, sockets, u, done, b);
      if u in swept[b] {
        swept := swept[b := swept[b] - {u}];
        out := out + ToEach(RoomSockets(sockets, b), UserLeft(u, b));
      } else {
        assert rooms[b] - {u} == rooms[b];
      }
      todo := todo - {b};
      done := done + {b};
    }
    assert done == rooms.Keys;
    SweptRooms(swept, rooms, u);
  }

  // ---------------------------------------------------------------------
  // The relay's state
  // ---------------------------------------------------------------------

  /** The three maps of the handler module, plus the socket.io namespace:
      `socketRooms` maps every connected socket to the board rooms it has
      joined. */
  class Relay {
    var activeUsers: map<UserId, set<SocketId>>
    var socketToUser: map<SocketId, UserId>
    var boardRooms: map<BoardId, set<UserId>>
    var socketRooms: map<SocketId, set<BoardId>>

    predicate Valid()
      reads this
    {
      Registry(activeUsers, socketToUser) && socketRooms.Keys == socketToUser.Keys
    }

    constructor ()
      ensures Valid()
      ensures activeUsers == map[] && socketToUser == map[] && boardRooms == map[] && socketRooms == map[]
    {
      activeUsers := map[];
      socketToUser := map[];
      boardRooms := map[];
      socketRooms := map[];
    }

    /** getActiveUsersInBoard: the users recorded in the board's room. */
    function ActiveUsersInBoard(b: BoardId): (r: set<UserId>)
      reads this
      ensures forall v :: v in r <==> b in boardRooms && v in boardRooms[b]
    {
      MembersOf(boardRooms, b)
    }

    /** A new authenticated socket `s` of user `u`: registered, then
        `user:online` to every connected socket, itself included, on every
        connection. */
    method Connect(s: SocketId, u: UserId) returns (out: multiset<Delivery>)
      requires Valid() && s !in socketToUser
      modifies this
      ensures Valid()
      ensures activeUsers == AddSocket(old(activeUsers), u, s)
      ensures socketToUser == old(socketToUser)[s := u]
      ensures socketRooms == old(socketRooms)[s := {}]
      ensures boardRooms == old(boardRooms)
      ensures out == ToEach(socketRooms.Keys, UserOnline(u))
    {
      RegistryAfterConnect(activeUsers, socketToUser, s, u);
      activeUsers := AddSocket(activeUsers, u, s);
      socketToUser := socketToUser[s := u];
      socketRooms := socketRooms[s := {}];
      out := ToEach(socketRooms.Keys, UserOnline(u));
    }

    /** emitToUser: one delivery to each of the user's sockets, nothing when
        the user has no entry. */
    method EmitToUser(u: UserId, e: Event) returns (out: multiset<Delivery>)
      ensures out == ToEach(SocketsOf(activeUsers, u), e)
    {
      out := multiset{};
      if u in activeUsers {
        var todo := activeUsers[u];
        while todo != {}
          invariant todo <= activeUsers[u]
          invariant out == ToEach(activeUsers[u] - todo, e)
          decreases |todo|
        {
          var t :| t in todo;
          ToEachAdd(activeUsers[u] - todo, t, e);
          assert (activeUsers[u] - todo) + {t} == activeUsers[u] - (todo - {t});
          out := out + multiset{Delivery(t, e)};
          todo := todo - {t};
        }
        assert activeUsers[u] - todo == activeUsers[u];
      }
    }

    /** The `forEach` over a list of user ids. */
    method EmitToUsers(ids: seq<UserId>, e: Event) returns (out: multiset<Delivery>)
      ensures out == ToUsers(activeUsers, ids, e)
    {
      out := multiset{};
      for i := 0 to |ids|
        invariant out == ToUsers(activeUsers, ids[..i], e)
      {
        var sent := EmitToUser(ids[i], e);
        assert ids[..i + 1][..i] == ids[..i];
        out := out + sent;
      }
      assert ids[..|ids|] == ids;
    }

    /** The handlers that change no state. */
    method Handle(s: SocketId, ev: Inbound) returns (out: multiset<Delivery>)
      requires s in socketRooms
      ensures out == Fanout(activeUsers, socketRooms, s, ev)
    {
      match ev
      case Peer(k, b) =>
        out := ToRoomExcept(socketRooms, b, s, Relayed(PeerEventName(k)));
      case BoardCreated(ids) =>
        out := EmitToUsers(ids, Relayed("board:created"));
      case BoardDeleted(b) =>
        out := ToEach(RoomSockets(socketRooms, b), Relayed("board:deleted"));
      case TaskAssigned(b, a) =>
        out := EmitToUser(a, Relayed("task:assigned"));
        out := out + ToRoomExcept(socketRooms, b, s, Relayed("task:assignee-added"));
      case TaskUnassigned(b, a) =>
        out := EmitToUser(a, Relayed("task:unassigned"));
        out := out + ToRoomExcept(socketRooms, b, s, Relayed("task:assignee-removed"));
      case CommentAdded(b, mentions) =>
        var mentioned := EmitToUsers(mentions, Relayed("comment:mentioned"));
        out := ToRoomExcept(socketRooms, b, s, Relayed("comment:added")) + mentioned;
      case NotificationSend(r) =>
        out := EmitToUser(r, Relayed("notification:received"));
      case MemberAdded(b, m) =>
        out := EmitToUser(m, Relayed("board:member-added"));
        out := out + ToRoomExcept(socketRooms, b, s, Relayed("board:member-joined"));
      case MemberRemoved(b, m) =>
        out := EmitToUser(m, Relayed("board:member-removed"));
        out := out + ToRoomExcept(socketRooms, b, s, Relayed("board:member-left"));
      case ReportError =>
        out := multiset{Delivery(s, ErrorMessage)};
    }

    /** `board:join`: the socket joins the room, the user is added to the
        board's set, the rest of the room hears `board:user-joined`, and the
        joining socket alone receives the users now in the board, itself
        among them. */
    method Join(s: SocketId, b: BoardId) returns (out: multiset<Delivery>)
      requires Valid() && s in socketToUser
      modifies this
      ensures Valid()
      ensures socketRooms == old(socketRooms)[s := old(socketRooms)[s] + {b}]
      ensures boardRooms == JoinRoom(old(boardRooms), b, socketToUser[s])
      ensures activeUsers == old(activeUsers) && socketToUser == old(socketToUser)
      ensures out == ToRoomExcept(socketRooms, b, s, UserJoined(socketToUser[s], b))
                     + multiset{Delivery(s, ActiveUsers(b, boardRooms[b]))}
      ensures socketToUser[s] in boardRooms[b]
    {
      var u := socketToUser[s];
      socketRooms := socketRooms[s := socketRooms[s] + {b}];
      boardRooms := JoinRoom(boardRooms, b, u);
      out := ToRoomExcept(socketRooms, b, s, UserJoined(u, b));
      out := out + multiset{Delivery(s, ActiveUsers(b, boardRooms[b]))};
    }

    /** `board:leave`: the socket leaves the room, the user leaves the
        board's set (the set goes once empty), and the rest of the room hears
        `board:user-left`, whether or not the user was in it. */
    method Leave(s: SocketId, b: BoardId) returns (out: multiset<Delivery>)
      requires Valid() && s in socketToUser
      modifies this
      ensures Valid()
      ensures socketRooms == old(socketRooms)[s := old(socketRooms)[s] - {b}]
      ensures boardRooms == LeaveRoom(old(boardRooms), b, socketToUser[s])
      ensures activeUsers == old(activeUsers) && socketToUser == old(socketToUser)
      ensures out == ToRoomExcept(socketRooms, b, s, UserLeft(socketToUser[s], b))
    {
      var u := socketToUser[s];
      socketRooms := socketRooms[s := socketRooms[s] - {b}];
      boardRooms := LeaveRoom(boardRooms, b, u);
      out := ToRoomExcept(socketRooms, b, s, UserLeft(u, b));
    }

    /** `disconnect`: socket.io has already taken the socket out of its rooms
        and the namespace. The socket leaves its user's set; `user:offline`
        goes to everyone still connected only when that was the user's last
        socket. Then the user is swept out of every board's set, even with
        other sockets still open, each room the user was in hearing
        `board:user-left`, and emptied sets stay in the map. */
    method Disconnect(s: SocketId) returns (out: multiset<Delivery>)
      requires Valid() && s in socketToUser
      modifies this
      ensures Valid()
      ensures socketRooms == old(socketRooms) - {s}
      ensures socketToUser == old(socketToUser) - {s}
      ensures activeUsers == RemoveSocket(old(activeUsers), old(socketToUser)[s], s)
      ensures boardRooms == LeaveAllRooms(old(boardRooms), old(socketToUser)[s])
      ensures out == (if old(socketToUser)[s] in activeUsers then multiset{}
                      else ToEach(socketRooms.Keys, UserOffline(old(socketToUser)[s])))
                     + multiset(Departures(old(boardRooms), socketRooms, old(socketToUser)[s], old(boardRooms).Keys))
    {
      var u := socketToUser[s];
      RegistryAfterDisconnect(activeUsers, socketToUser, s);
      socketRooms := socketRooms - {s};
      activeUsers := RemoveSocket(activeUsers, u, s);
      out := if u in activeUsers then multiset{} else ToEach(socketRooms.Keys, UserOffline(u));
      socketToUser := socketToUser - {s};
      assert out == if old(socketToUser)[s] in activeUsers then multiset{}
                    else ToEach(socketRooms.Keys, UserOffline(old(socketToUser)[s]));
      var departures := SweepRooms(u);
      out := out + departures;
    }

    /** The `boardRooms.forEach` of disconnect: every set that holds `u`
        loses it, and the sockets still in that board's room hear
        `board:user-left`. */
    method SweepRooms(u: UserId) returns (out: multiset<Delivery>)
      modifies this
      ensures boardRooms == LeaveAllRooms(old(boardRooms), u)
      ensures out == multiset(Departures(old(boardRooms), socketRooms, u, old(boardRooms).Keys))
      ensures activeUsers == old(activeUsers) && socketToUser == old(socketToUser) && socketRooms == old(socketRooms)
    {
      var swept;
      swept, out := Sweep(boardRooms, socketRooms, u);
      boardRooms := swept;
    }
  }
}
