/** Who is in which room, and who receives a message: the values behind the hub's maps. */
module HubRooms {
  import opened Options

  type Id = string

  type Rooms = map<string, set<Id>>

  function Members(rooms: Rooms, room: string): set<Id> {
    if room in rooms then rooms[room] else {}
  }

  /** A room exists exactly while somebody is in it. */
  predicate NoEmptyRoom(rooms: Rooms) {
    forall r :: r in rooms ==> rooms[r] != {}
  }

  function JoinRooms(rooms: Rooms, room: string, id: Id): Rooms {
    rooms[room := Members(rooms, room) + {id}]
  }

  function LeaveRooms(rooms: Rooms, room: string, id: Id): Rooms {
    if room !in rooms then rooms
    else if rooms[room] - {id} == {} then rooms - {room}
    else rooms[room := rooms[room] - {id}]
  }

  lemma JoinOpened(rooms: Rooms, room: string, id: Id)
    requires room !in rooms
    ensures JoinRooms(rooms[room := {}], room, id) == JoinRooms(rooms, room, id)
  {}

  /** Leaving in two steps: out of the room, and the room closed if that leaves it empty. */
  lemma LeaveCases(rooms: Rooms, room: string, id: Id)
    ensures room !in rooms ==> LeaveRooms(rooms, room, id) == rooms
    ensures room in rooms ==>
              var left := rooms[room := rooms[room] - {id}];
              LeaveRooms(rooms, room, id) == if rooms[room] - {id} == {} then left - {room} else left
  {}

  lemma JoinAddsOne(rooms: Rooms, room: string, id: Id)
    ensures forall r, s :: s in Members(JoinRooms(rooms, room, id), r)
                           <==> s in Members(rooms, r) || (r == room && s == id)
    ensures NoEmptyRoom(rooms) ==> NoEmptyRoom(JoinRooms(rooms, room, id))
  {}

  lemma LeaveRemovesOne(rooms: Rooms, room: string, id: Id)
    ensures forall r, s :: s in Members(LeaveRooms(rooms, room, id), r)
                           <==> s in Members(rooms, r) && !(r == room && s == id)
    ensures NoEmptyRoom(rooms) ==> NoEmptyRoom(LeaveRooms(rooms, room, id))
  {
    if room in rooms && rooms[room] - {id} == {} {
      assert forall s :: s in rooms[room] ==> s == id || s in rooms[room] - {id};
    }
  }

  /** A broadcast goes to every socket, a roomcast to one room; `except` is left out. */
  datatype Message = Message(room: Option<string>, except: seq<Id>, event: string, data: string)

  datatype View = View(sockets: set<Id>, rooms: Rooms)

  function Audience(view: View, room: Option<string>): set<Id> {
    match room
    case None => view.sockets
    case Some(r) => Members(view.rooms, r)
  }
}
