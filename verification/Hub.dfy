/** The hub, which one goroutine runs, and the sockets it serves. */
module Hub {
  import opened Options
  import opened HubRooms

  datatype Event = Event(name: string, data: string)

  class Room {
    const name: string
    var sockets: map<Id, Socket>

    constructor (name: string)
      ensures this.name == name && sockets == map[]
    {
      this.name, sockets := name, map[];
    }
  }

  class Hub {
    var sockets: map<Id, Socket>
    var rooms: map<string, Room>
    var multihomeEnabled: bool
    var multihomeBackend: nat
    /** The messages handed to the backend, each by a goroutine of its own. */
    var toBackend: seq<Message>

    constructor ()
      ensures Valid() && CurrentView() == View({}, map[]) && !multihomeEnabled && toBackend == []
    {
      sockets, rooms := map[], map[];
      multihomeEnabled, multihomeBackend, toBackend := false, 0, [];
    }

    /** Every key is the ID or the name of what is stored under it. */
    ghost predicate Named()
      reads this`sockets, this`rooms, rooms.Values
    {
      && Keyed(sockets)
      && forall r :: r in rooms ==> rooms[r].name == r && Keyed(rooms[r].sockets)
    }

    ghost predicate Valid()
      reads this`sockets, this`rooms, rooms.Values
    {
      Named() && NoEmptyRoom(RoomSets())
    }

    ghost function RoomSets(): Rooms
      reads this`rooms, rooms.Values
    {
      map r | r in rooms :: rooms[r].sockets.Keys
    }

    ghost function CurrentView(): View
      reads this`sockets, this`rooms, rooms.Values
    {
      View(sockets.Keys, RoomSets())
    }

    method SetMultihomeBackend(b: nat)
      modifies this`multihomeEnabled, this`multihomeBackend
      ensures multihomeEnabled && multihomeBackend == if old(multihomeEnabled) then old(multihomeBackend) else b
    {
      if multihomeEnabled {
        return;
      }
      multihomeBackend := b;
      multihomeEnabled := true;
    }

    method Add(s: Socket)
      requires Valid()
      modifies this`sockets
      ensures Valid() && sockets == old(sockets)[s.id := s]
      ensures CurrentView() == old(CurrentView()).(sockets := old(sockets.Keys) + {s.id})
    {
      sockets := sockets[s.id := s];
    }

    method Delete(s: Socket)
      requires Valid()
      modifies this`sockets
      ensures Valid() && sockets == old(sockets) - {s.id}
      ensures CurrentView() == old(CurrentView()).(sockets := old(sockets.Keys) - {s.id})
    {
      sockets := sockets - {s.id};
    }

    method JoinRoom(roomName: string, s: Socket)
      requires Valid()
      modifies this`rooms, rooms.Values
      ensures Valid()
      ensures CurrentView() == old(CurrentView()).(rooms := JoinRooms(old(RoomSets()), roomName, s.id))
      ensures roomName in rooms && s.id in rooms[roomName].sockets && rooms[roomName].sockets[s.id] == s
    {
      ghost var before := RoomSets();
      JoinAddsOne(before, roomName, s.id);
      assert roomName in rooms <==> roomName in before;
      hide Named, RoomSets, JoinRooms;
      if roomName !in rooms {
        OpenRoom(roomName);
        JoinOpened(before, roomName, s.id);
      }
      AddMember(roomName, s);
    }

    method AddMember(roomName: string, s: Socket)
      requires Named() && roomName in rooms
      modifies rooms[roomName]
      ensures Named() && RoomSets() == JoinRooms(old(RoomSets()), roomName, s.id)
      ensures s.id in rooms[roomName].sockets && rooms[roomName].sockets[s.id] == s
    {
      var members := rooms[roomName].sockets[s.id := s];
      assert members.Keys == rooms[roomName].sockets.Keys + {s.id};
      assert RoomSets()[roomName] == rooms[roomName].sockets.Keys;
      SetMembers(roomName, members);
    }

    method RemoveMember(roomName: string, s: Socket)
      requires Named() && roomName in rooms
      modifies rooms[roomName]
      ensures Named() && RoomSets() == old(RoomSets())[roomName := old(RoomSets())[roomName] - {s.id}]
      ensures |rooms[roomName].sockets| == 0 <==> old(RoomSets())[roomName] - {s.id} == {}
    {
      var members := rooms[roomName].sockets - {s.id};
      assert RoomSets()[roomName] == rooms[roomName].sockets.Keys;
      assert members.Keys == rooms[roomName].sockets.Keys - {s.id};
      SetMembers(roomName, members);
    }

    method LeaveRoom(roomName: string, s: Socket)
      requires Valid()
      modifies this`rooms, rooms.Values
      ensures Valid()
      ensures CurrentView() == old(CurrentView()).(rooms := LeaveRooms(old(RoomSets()), roomName, s.id))
      ensures rooms.Values <= old(rooms.Values)
    {
      ghost var before := RoomSets();
      LeaveRemovesOne(before, roomName, s.id);
      assert roomName in rooms <==> roomName in before;
      hide Named, RoomSets, LeaveRooms;
      LeaveCases(before, roomName, s.id);
      if roomName in rooms {
        RemoveMember(roomName, s);
        if |rooms[roomName].sockets| == 0 {
          CloseRoom(roomName);
        }
      }
    }

    method OpenRoom(roomName: string)
      requires Named() && roomName !in rooms
      modifies this`rooms
      ensures Named() && RoomSets() == old(RoomSets())[roomName := {}]
      ensures roomName in rooms && fresh(rooms[roomName]) && rooms == old(rooms)[roomName := rooms[roomName]]
    {
      var room := new Room(roomName);
      assert room.sockets.Keys == {};
      rooms := rooms[roomName := room];
    }

    /** Writes one room's member map; the others keep theirs. */
    method SetMembers(roomName: string, members: map<Id, Socket>)
      requires Named() && roomName in rooms && Keyed(members)
      modifies rooms[roomName]
      ensures Named() && RoomSets() == old(RoomSets())[roomName := members.Keys]
      ensures rooms[roomName].sockets == members
    {
      var room := rooms[roomName];
      assert forall r :: r in rooms && r != roomName ==> rooms[r] != room;
      room.sockets := members;
    }

    method CloseRoom(roomName: string)
      requires Named()
      modifies this`rooms
      ensures Named() && RoomSets() == old(RoomSets()) - {roomName} && rooms == old(rooms) - {roomName}
    {
      rooms := rooms - {roomName};
    }

    /** The sockets that a message concerns, before `except` is looked at. */
    ghost function Addressed(room: Option<string>): map<Id, Socket>
      reads this`sockets, this`rooms, rooms.Values
    {
      match room
      case None => sockets
      case Some(r) => if r in rooms then rooms[r].sockets else map[]
    }

    /** A message from one of this hub's own sockets: delivered here, and handed to the backend. */
    method FromSocket(m: Message)
      requires Valid()
      modifies this`toBackend, Addressed(m.room).Values
      ensures Valid() && CurrentView() == old(CurrentView())
      ensures Emitted(old(Addressed(m.room)), Audience(CurrentView(), m.room), m)
      ensures Delivered(sockets, old(match m.room
                                     case None => sockets
                                     case Some(r) => if r in rooms then rooms[r].sockets else map[]), m)
      ensures toBackend == old(toBackend) + if multihomeEnabled then [m] else []
    {
      hide Emitted, Audience, Delivered;
      Dispatch(m);
      if multihomeEnabled {
        toBackend := toBackend + [m];
      }
    }

    /** A message from the backend is delivered here and never handed back. */
    method FromBackend(m: Message)
      requires Valid()
      modifies Addressed(m.room).Values
      ensures Valid() && CurrentView() == old(CurrentView())
      ensures Emitted(old(Addressed(m.room)), Audience(CurrentView(), m.room), m)
      ensures Delivered(sockets, old(match m.room
                                     case None => sockets
                                     case Some(r) => if r in rooms then rooms[r].sockets else map[]), m)
    {
      Dispatch(m);
    }

    method Dispatch(m: Message)
      requires Valid()
      modifies Addressed(m.room).Values
      ensures Valid() && CurrentView() == old(CurrentView())
      ensures Emitted(old(Addressed(m.room)), Audience(CurrentView(), m.room), m)
      ensures Delivered(sockets, old(match m.room
                                     case None => sockets
                                     case Some(r) => if r in rooms then rooms[r].sockets else map[]), m)
    {
      match m.room
      case None =>
        EmitAll(sockets, m);
      case Some(r) =>
        if r in rooms {
          EmitAll(rooms[r].sockets, m);
        }
    }
  }

  predicate Keyed(sockets: map<Id, Socket>) {
    forall id :: id in sockets ==> sockets[id].id == id
  }

  /** Each addressed socket got the event once, unless it is excepted, and then not at all. */
  twostate predicate Emitted(addressed: map<Id, Socket>, audience: set<Id>, m: Message)
    reads addressed.Values
  {
    && addressed.Keys == audience
    && forall id :: id in addressed ==>
         addressed[id].outbox == old(addressed[id].outbox)
                                 + if id in m.except then [] else [Event(m.event, m.data)]
  }

  /** Each of `members` got the event once, unless it is excepted; no other of `sockets` got anything. */
  twostate predicate Delivered(sockets: map<Id, Socket>, members: map<Id, Socket>, m: Message)
    reads sockets.Values, members.Values
  {
    && (forall id :: id in members ==>
          members[id].outbox == old(members[id].outbox)
                                + if id in m.except then [] else [Event(m.event, m.data)])
    && (forall id :: id in sockets && sockets[id] !in members.Values ==>
          sockets[id].outbox == old(sockets[id].outbox))
  }

  method EmitAll(members: map<Id, Socket>, m: Message)
    requires Keyed(members)
    modifies members.Values
    ensures Emitted(members, members.Keys, m)
    ensures forall id :: id in members ==> members[id].rooms == old(members[id].rooms)
                                           && members[id].closed == old(members[id].closed)
  {
    var todo := members.Keys;
    while todo != {}
      invariant todo <= members.Keys
      invariant forall id :: id in todo ==> members[id].outbox == old(members[id].outbox)
      invariant forall id :: id in members.Keys - todo ==>
                  members[id].outbox == old(members[id].outbox)
                                        + if id in m.except then [] else [Event(m.event, m.data)]
      invariant forall id :: id in members ==> members[id].rooms == old(members[id].rooms)
                                               && members[id].closed == old(members[id].closed)
    {
      var id :| id in todo;
      var s := members[id];
      if |m.except| > 0 {
        if s.id !in m.except {
          s.Emit(m.event, m.data);
        }
      } else {
        s.Emit(m.event, m.data);
      }
      todo := todo - {id};
    }
  }

  class Socket {
    const id: Id
    const hub: Hub
    var closed: bool
    var rooms: set<string>
    /** Everything sent to the client. */
    var outbox: seq<Event>

    constructor (id: Id, hub: Hub)
      requires hub.Valid()
      modifies hub`sockets
      ensures this.id == id && this.hub == hub && !closed && rooms == {} && outbox == []
      ensures hub.Valid() && hub.sockets == old(hub.sockets)[id := this]
    {
      this.id, this.hub, closed, rooms, outbox := id, hub, false, {}, [];
      new;
      hub.Add(this);
    }

    method Emit(name: string, data: string)
      modifies this`outbox
      ensures outbox == old(outbox) + [Event(name, data)]
    {
      outbox := outbox + [Event(name, data)];
    }

    predicate InRoom(room: string)
      reads this
    {
      room in rooms
    }

    /** The hub and the socket agree on the rooms the socket is in. */
    ghost predicate Agrees()
      reads this, hub, hub.rooms.Values
    {
      forall r :: InRoom(r) <==> id in Members(hub.RoomSets(), r)
    }

    method Join(roomName: string)
      requires hub.Valid()
      modifies this`rooms, hub`rooms, hub.rooms.Values
      ensures hub.Valid() && rooms == old(rooms) + {roomName}
      ensures hub.CurrentView() == old(hub.CurrentView()).(rooms := JoinRooms(old(hub.RoomSets()), roomName, id))
      ensures old(Agrees()) ==> Agrees()
    {
      hide Hub.Named, Hub.RoomSets, JoinRooms;
      hub.JoinRoom(roomName, this);
      rooms := rooms + {roomName};
      JoinAddsOne(old(hub.RoomSets()), roomName, id);
    }

    method Leave(roomName: string)
      requires hub.Valid()
      modifies this`rooms, hub`rooms, hub.rooms.Values
      ensures hub.Valid() && rooms == old(rooms) - {roomName}
      ensures hub.CurrentView() == old(hub.CurrentView()).(rooms := LeaveRooms(old(hub.RoomSets()), roomName, id))
      ensures hub.rooms.Values <= old(hub.rooms.Values)
      ensures old(Agrees()) ==> Agrees()
    {
      hub.LeaveRoom(roomName, this);
      rooms := rooms - {roomName};
      LeaveRemovesOne(old(hub.RoomSets()), roomName, id);
    }

    /** Leaves every room: the socket is in none, and nobody else's membership changes. */
    method LeaveAll()
      requires hub.Valid()
      modifies this`rooms, hub`rooms, hub.rooms.Values
      ensures hub.Valid() && rooms == {} && hub.CurrentView().sockets == old(hub.CurrentView().sockets)
      ensures hub.rooms.Values <= old(hub.rooms.Values)
      ensures old(Agrees()) ==> Agrees()
      ensures forall r, s :: s in Members(hub.RoomSets(), r)
                <==> s in Members(old(hub.RoomSets()), r) && !(s == id && r in old(rooms))
    {
      ghost var all, before := rooms, hub.CurrentView();
      while rooms != {}
        invariant rooms <= all && hub.Valid()
        invariant hub.rooms.Values <= old(hub.rooms.Values)
        invariant hub.CurrentView().sockets == before.sockets
        invariant old(Agrees()) ==> Agrees()
        invariant forall r, s :: s in Members(hub.RoomSets(), r)
                    <==> s in Members(before.rooms, r) && !(s == id && r in all - rooms)
        decreases rooms
      {
        var room :| room in rooms;
        LeaveRemovesOne(hub.RoomSets(), room, id);
        Leave(room);
      }
    }

    /**
     * Close, when neither the connection nor the disconnect handler fails: the socket is gone
     * from the hub and from every room, and nothing else changes. Closing again does nothing.
     */
    method Close()
      requires hub.Valid()
      modifies this`rooms, this`closed, hub`sockets, hub`rooms, hub.rooms.Values
      ensures hub.Valid() && closed
      ensures old(closed) ==> hub.CurrentView() == old(hub.CurrentView()) && rooms == old(rooms)
      ensures !old(closed) ==>
        && rooms == {} && hub.CurrentView().sockets == old(hub.CurrentView()).sockets - {id}
        && (forall r, s :: s in Members(hub.RoomSets(), r)
              <==> s in Members(old(hub.RoomSets()), r) && !(s == id && r in old(rooms)))
      ensures !old(closed) && old(Agrees()) ==> forall r :: id !in Members(hub.RoomSets(), r)
    {
      hide Hub.Named, Hub.RoomSets;
      var isAlreadyClosed := closed;
      closed := true;
      if isAlreadyClosed {
        return;
      }
      LeaveAll();
      hub.Delete(this);
      assert old(Agrees()) ==> forall r :: InRoom(r) <==> id in Members(hub.RoomSets(), r);
    }
  }
}
