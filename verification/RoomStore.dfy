/** The in-memory store: one membership relation, indexed by room and by user. */
module RoomStore {
  import opened Options

  datatype RoomType = Public | Group | DM

  datatype StoredRoom = StoredRoom(id: string, roomType: RoomType, name: string)

  datatype Member = Member(roomID: string, userID: string, role: string)

  datatype Store = Store(
    rooms: map<string, StoredRoom>,
    roomMembers: map<string, map<string, Member>>,
    userRooms: map<string, set<string>>)
  {
    function MembersOf(r: string): map<string, Member> {
      if r in roomMembers then roomMembers[r] else map[]
    }

    function RoomsOf(u: string): set<string> {
      if u in userRooms then userRooms[u] else {}
    }

    predicate IsUserInRoom(r: string, u: string) {
      u in MembersOf(r)
    }

    /** The rooms GetUserRooms lists: those the user's index mentions and that exist. */
    function Listed(u: string): set<string> {
      set r | r in RoomsOf(u) && r in rooms
    }

    predicate Mentioned(r: string) {
      exists u :: u in userRooms && r in userRooms[u]
    }

    function CreateRoom(room: StoredRoom): Store {
      this.(rooms := rooms[room.id := room], roomMembers := roomMembers[room.id := map[]])
    }

    function DeleteRoom(r: string): Store {
      this.(rooms := rooms - {r}, roomMembers := roomMembers - {r})
    }

    function AddMember(m: Member): Store {
      this.(roomMembers := roomMembers[m.roomID := MembersOf(m.roomID)[m.userID := m]],
            userRooms := userRooms[m.userID := RoomsOf(m.userID) + {m.roomID}])
    }

    function RemoveMember(r: string, u: string): Store {
      this.(roomMembers := if r in roomMembers then roomMembers[r := roomMembers[r] - {u}] else roomMembers,
            userRooms := if u in userRooms then userRooms[u := userRooms[u] - {r}] else userRooms)
    }

    /** Everything is stored under its own ID. */
    ghost predicate Keyed() {
      && (forall r :: r in rooms ==> rooms[r].id == r)
      && (forall r, u :: u in MembersOf(r) ==> MembersOf(r)[u].roomID == r && MembersOf(r)[u].userID == u)
    }

    /** On every room that exists, the two indexes say the same. */
    ghost predicate Agree() {
      forall r, u :: r in rooms ==> (IsUserInRoom(r, u) <==> r in RoomsOf(u))
    }

    /** Whoever a room lists has the room in his own index. */
    ghost predicate Contained() {
      forall r, u :: IsUserInRoom(r, u) ==> r in RoomsOf(u)
    }
  }

  const EMPTY := Store(map[], map[], map[])

  lemma MentionedIsIndexed(st: Store, r: string)
    ensures st.Mentioned(r) <==> exists u :: r in st.RoomsOf(u)
  {
    if u :| r in st.RoomsOf(u) {
      assert u in st.userRooms;
    }
    if st.Mentioned(r) {
      var u :| u in st.userRooms && r in st.userRooms[u];
      assert r in st.RoomsOf(u);
    }
  }

  /** Creating a room keeps the indexes in agreement exactly when no user's index mentions it yet. */
  lemma CreateRoomAgrees(st: Store, room: StoredRoom)
    requires st.Agree()
    ensures st.CreateRoom(room).Agree() <==> !st.Mentioned(room.id)
  {
    MentionedIsIndexed(st, room.id);
    var st' := st.CreateRoom(room);
    assert forall u :: !st'.IsUserInRoom(room.id, u) && st'.RoomsOf(u) == st.RoomsOf(u);
    if u :| room.id in st.RoomsOf(u) {
      assert room.id in st'.rooms && !st'.IsUserInRoom(room.id, u) && room.id in st'.RoomsOf(u);
    } else {
      forall r, u | r in st'.rooms ensures st'.IsUserInRoom(r, u) <==> r in st'.RoomsOf(u) {
        assert r != room.id ==> (st.IsUserInRoom(r, u) <==> r in st.RoomsOf(u));
      }
    }
  }

  lemma AddChangesOne(st: Store, m: Member)
    ensures var st' := st.AddMember(m);
            && st'.MembersOf(m.roomID) == st.MembersOf(m.roomID)[m.userID := m]
            && (forall r :: r != m.roomID ==> st'.MembersOf(r) == st.MembersOf(r))
            && (forall r, u :: st'.IsUserInRoom(r, u) <==> st.IsUserInRoom(r, u) || (r == m.roomID && u == m.userID))
            && (forall r, u :: r in st'.RoomsOf(u) <==> r in st.RoomsOf(u) || (r == m.roomID && u == m.userID))
            && st'.rooms == st.rooms
  {}

  lemma RemoveChangesOne(st: Store, roomID: string, userID: string)
    ensures var st' := st.RemoveMember(roomID, userID);
            && (forall r, u :: st'.IsUserInRoom(r, u) <==> st.IsUserInRoom(r, u) && !(r == roomID && u == userID))
            && (forall r, u :: u in st'.MembersOf(r) ==> st'.MembersOf(r)[u] == st.MembersOf(r)[u])
            && (forall r, u :: r in st'.RoomsOf(u) <==> r in st.RoomsOf(u) && !(r == roomID && u == userID))
            && st'.rooms == st.rooms
  {}

  /** A deleted room has no members; its users' indexes still mention it. */
  lemma DeleteChangesOne(st: Store, roomID: string)
    ensures var st' := st.DeleteRoom(roomID);
            && (forall r, u :: st'.IsUserInRoom(r, u) <==> st.IsUserInRoom(r, u) && r != roomID)
            && (forall r, u :: r != roomID && u in st.MembersOf(r) ==> st'.MembersOf(r)[u] == st.MembersOf(r)[u])
            && (forall u :: st'.RoomsOf(u) == st.RoomsOf(u))
            && (forall r :: r in st'.rooms <==> r in st.rooms && r != roomID)
            && (forall r :: r in st'.rooms ==> st'.rooms[r] == st.rooms[r])
  {}

  /** A room that no index mentions is created without touching either index. */
  lemma CreateChangesRooms(st: Store, room: StoredRoom)
    requires st.Contained() && !st.Mentioned(room.id)
    ensures var st' := st.CreateRoom(room);
            && (forall r, u :: st'.IsUserInRoom(r, u) <==> st.IsUserInRoom(r, u))
            && (forall u :: st'.RoomsOf(u) == st.RoomsOf(u))
            && st'.rooms == st.rooms[room.id := room]
  {
    MentionedIsIndexed(st, room.id);
    forall u ensures !st.IsUserInRoom(room.id, u) {
      assert st.IsUserInRoom(room.id, u) ==> room.id in st.RoomsOf(u);
    }
  }

  // ---- Runs ----

  datatype Op =
    | Create(room: StoredRoom)
    | Delete(id: string)
    | Add(member: Member)
    | Remove(roomID: string, userID: string)
  {
    function On(st: Store): Store {
      match this
      case Create(room) => st.CreateRoom(room)
      case Delete(r) => st.DeleteRoom(r)
      case Add(m) => st.AddMember(m)
      case Remove(r, u) => st.RemoveMember(r, u)
    }

    /** The same operation on a plain set of (room, user) pairs, which knows nothing of rooms. */
    function OnPairs(pairs: set<(string, string)>): set<(string, string)> {
      match this
      case Create(_) => pairs
      case Delete(_) => pairs
      case Add(m) => pairs + {(m.roomID, m.userID)}
      case Remove(r, u) => pairs - {(r, u)}
    }
  }

  function After(ops: seq<Op>): Store {
    if ops == [] then EMPTY else ops[|ops| - 1].On(After(ops[..|ops| - 1]))
  }

  function Pairs(ops: seq<Op>): set<(string, string)> {
    if ops == [] then {} else ops[|ops| - 1].OnPairs(Pairs(ops[..|ops| - 1]))
  }

  /** The rooms created and not deleted since. */
  function Existing(ops: seq<Op>): set<string> {
    if ops == [] then {}
    else
      var before := Existing(ops[..|ops| - 1]);
      match ops[|ops| - 1]
      case Create(room) => before + {room.id}
      case Delete(r) => before - {r}
      case _ => before
  }

  /** No room is created while a user's index mentions its ID. */
  predicate FreshCreations(ops: seq<Op>) {
    ops == [] ||
    (var before, op := ops[..|ops| - 1], ops[|ops| - 1];
     FreshCreations(before) && (op.Create? ==> !After(before).Mentioned(op.room.id)))
  }

  predicate AddsPair(op: Op, r: string, u: string) {
    op.Add? && op.member.roomID == r && op.member.userID == u
  }

  /** An operation after which the room has no such member. */
  predicate EndsMembership(op: Op, r: string, u: string) {
    op == Remove(r, u) || op == Delete(r) || (op.Create? && op.room.id == r)
  }

  /** The last operation that adds the pair, if nothing has ended the membership since. */
  predicate LastAdd(ops: seq<Op>, r: string, u: string, i: nat) {
    && i < |ops| && AddsPair(ops[i], r, u)
    && forall j :: i < j < |ops| ==> !AddsPair(ops[j], r, u) && !EndsMembership(ops[j], r, u)
  }

  /** The last operation that creates the room, if it has not been deleted since. */
  predicate LastCreate(ops: seq<Op>, r: string, i: nat) {
    && i < |ops| && ops[i].Create? && ops[i].room.id == r
    && forall j :: i < j < |ops| ==> !(ops[j].Create? && ops[j].room.id == r) && ops[j] != Delete(r)
  }

  /** One operation changes a membership if it adds or ends it, and not otherwise. */
  lemma OpOnMembership(st: Store, op: Op, r: string, u: string)
    ensures var st' := op.On(st);
            if AddsPair(op, r, u) then st'.IsUserInRoom(r, u) && st'.MembersOf(r)[u] == op.member
            else if EndsMembership(op, r, u) then !st'.IsUserInRoom(r, u)
            else
              && (st'.IsUserInRoom(r, u) <==> st.IsUserInRoom(r, u))
              && (st.IsUserInRoom(r, u) ==> st'.MembersOf(r)[u] == st.MembersOf(r)[u])
  {}

  /**
   * In every run at all: a room has a member exactly while the last addition of the pair stands,
   * and the record is that addition's.
   */
  lemma {:induction false} MembersExactly(ops: seq<Op>, r: string, u: string)
    ensures After(ops).IsUserInRoom(r, u) <==> exists i: nat :: LastAdd(ops, r, u, i)
    ensures forall i: nat :: LastAdd(ops, r, u, i) ==>
              u in After(ops).MembersOf(r) && After(ops).MembersOf(r)[u] == ops[i].member
  {
    if ops != [] {
      var last := |ops| - 1;
      var before, op := ops[..last], ops[last];
      MembersExactly(before, r, u);
      OpOnMembership(After(before), op, r, u);
      hide Op.On, Store.IsUserInRoom, Store.MembersOf;
      if AddsPair(op, r, u) {
        assert LastAdd(ops, r, u, last);
      } else if EndsMembership(op, r, u) {
        assert forall i: nat :: i < last ==> !LastAdd(ops, r, u, i);
      } else {
        assert forall i: nat :: LastAdd(ops, r, u, i) <==> LastAdd(before, r, u, i);
      }
    }
  }

  /** In every run at all the stored rooms are those created and not deleted since, as created last. */
  lemma {:induction false} RoomsExactly(ops: seq<Op>, r: string)
    ensures r in After(ops).rooms <==> exists i: nat :: LastCreate(ops, r, i)
    ensures forall i: nat :: LastCreate(ops, r, i) ==> r in After(ops).rooms && After(ops).rooms[r] == ops[i].room
  {
    if ops != [] {
      var last := |ops| - 1;
      var before, op := ops[..last], ops[last];
      RoomsExactly(before, r);
      if op.Create? && op.room.id == r {
        assert LastCreate(ops, r, last);
      } else if op == Delete(r) {
        assert forall i: nat :: i < last ==> !LastCreate(ops, r, i);
      } else {
        assert forall i: nat :: LastCreate(ops, r, i) <==> LastCreate(before, r, i);
      }
    }
  }

  lemma OpKeepsContained(st: Store, op: Op)
    requires st.Contained() && st.Keyed()
    ensures op.On(st).Contained() && op.On(st).Keyed()
  {
    var st' := op.On(st);
    forall r, u ensures st'.IsUserInRoom(r, u) ==> r in st'.RoomsOf(u) {
      assert st.IsUserInRoom(r, u) ==> r in st.RoomsOf(u);
    }
    forall r, u | u in st'.MembersOf(r)
      ensures st'.MembersOf(r)[u].roomID == r && st'.MembersOf(r)[u].userID == u
    {
      assert u in st.MembersOf(r) ==> st.MembersOf(r)[u].roomID == r && st.MembersOf(r)[u].userID == u;
    }
  }

  lemma OpKeepsAgreement(st: Store, op: Op)
    requires st.Agree() && (op.Create? ==> !st.Mentioned(op.room.id))
    ensures op.On(st).Agree()
  {
    if op.Create? {
      CreateRoomAgrees(st, op.room);
    } else {
      var st' := op.On(st);
      forall r, u | r in st'.rooms ensures st'.IsUserInRoom(r, u) <==> r in st'.RoomsOf(u) {
        assert st.IsUserInRoom(r, u) <==> r in st.RoomsOf(u);
      }
    }
  }

  lemma OpKeepsPairs(st: Store, op: Op, pairs: set<(string, string)>)
    requires forall r, u :: r in st.RoomsOf(u) <==> (r, u) in pairs
    ensures forall r, u :: r in op.On(st).RoomsOf(u) <==> (r, u) in op.OnPairs(pairs)
  {}

  /**
   * Over every run that creates no room whose ID some index still mentions, an existing room has
   * a member exactly when the member's rooms list it, and both match a plain set of pairs. Over
   * every run at all, the room side stays within the user side, and is exactly the additions that
   * no removal, deletion or creation of the room has ended.
   */
  lemma {:induction false} IndexesAgree(ops: seq<Op>)
    ensures var st := After(ops);
            && st.Contained() && st.Keyed()
            && st.rooms.Keys == Existing(ops)
            && (forall r, u :: st.IsUserInRoom(r, u) <==> exists i: nat :: LastAdd(ops, r, u, i))
            && (forall r, u :: r in st.RoomsOf(u) <==> (r, u) in Pairs(ops))
            && (FreshCreations(ops) ==>
                  && st.Agree()
                  && forall r, u :: r in st.rooms ==>
                       && (st.IsUserInRoom(r, u) <==> (r, u) in Pairs(ops))
                       && (r in st.Listed(u) <==> (r, u) in Pairs(ops)))
  {
    forall r, u ensures After(ops).IsUserInRoom(r, u) <==> exists i: nat :: LastAdd(ops, r, u, i) {
      MembersExactly(ops, r, u);
    }
    if ops != [] {
      hide LastAdd;
      var before, op := ops[..|ops| - 1], ops[|ops| - 1];
      IndexesAgree(before);
      OpKeepsContained(After(before), op);
      OpKeepsPairs(After(before), op, Pairs(before));
      if FreshCreations(ops) {
        OpKeepsAgreement(After(before), op);
      }
    }
  }

  /** A room deleted while it has members, and created again, is where the indexes part. */
  lemma RecreatedRoomDisagrees(room: StoredRoom, m: Member)
    requires m.roomID == room.id
    ensures !After([Create(room), Add(m), Delete(room.id), Create(room)]).Agree()
  {
    var ops := [Create(room), Add(m), Delete(room.id), Create(room)];
    assert ops[..3][..2] == [Create(room), Add(m)] && ops[..3][..2][..1] == [Create(room)];
    var added := After(ops[..3][..2]);
    assert added == After([Create(room)]).AddMember(m);
    var st := After(ops[..3]).CreateRoom(room);
    assert After(ops) == st && After(ops[..3]) == added.DeleteRoom(room.id);
    assert room.id in st.rooms && !st.IsUserInRoom(room.id, m.userID) && room.id in st.RoomsOf(m.userID);
  }

  // ---- The store object ----

  class InMemoryDB {
    var rooms: map<string, StoredRoom>
    var roomMembers: map<string, map<string, Member>>
    var userRooms: map<string, set<string>>

    constructor ()
      ensures State() == EMPTY
    {
      rooms, roomMembers, userRooms := map[], map[], map[];
    }

    function State(): Store
      reads this
    {
      Store(rooms, roomMembers, userRooms)
    }

    method CreateRoom(room: StoredRoom)
      modifies this
      ensures State() == old(State()).CreateRoom(room)
    {
      rooms := rooms[room.id := room];
      roomMembers := roomMembers[room.id := map[]];
    }

    method GetRoom(roomID: string) returns (room: Option<StoredRoom>)
      ensures room.Some? <==> roomID in State().rooms
      ensures room.Some? ==> room.value == State().rooms[roomID]
    {
      if roomID in rooms {
        return Some(rooms[roomID]);
      }
      return None;
    }

    /** Every existing room in the user's index, once each. */
    method GetUserRooms(userID: string) returns (result: seq<StoredRoom>)
      requires State().Keyed()
      ensures forall room :: room in result <==>
                userID in userRooms && room.id in userRooms[userID] && room.id in rooms && room == rooms[room.id]
      ensures forall i, j :: 0 <= i < j < |result| ==> result[i].id != result[j].id
    {
      result := [];
      if userID in userRooms {
        var todo := userRooms[userID];
        while todo != {}
          invariant todo <= userRooms[userID]
          invariant forall room :: room in result <==>
                      room.id in userRooms[userID] - todo && room.id in rooms && room == rooms[room.id]
          invariant forall i, j :: 0 <= i < j < |result| ==> result[i].id != result[j].id
        {
          var roomID :| roomID in todo;
          if roomID in rooms {
            assert rooms[roomID].id == roomID;
            assert forall room :: room in result ==> room.id != roomID;
            result := result + [rooms[roomID]];
          }
          todo := todo - {roomID};
        }
      }
    }

    method DeleteRoom(roomID: string)
      modifies this
      ensures State() == old(State()).DeleteRoom(roomID)
    {
      rooms := rooms - {roomID};
      roomMembers := roomMembers - {roomID};
    }

    method AddRoomMember(member: Member)
      modifies this
      ensures State() == old(State()).AddMember(member)
    {
      if member.roomID !in roomMembers {
        roomMembers := roomMembers[member.roomID := map[]];
      }
      roomMembers := roomMembers[member.roomID := roomMembers[member.roomID][member.userID := member]];
      if member.userID !in userRooms {
        userRooms := userRooms[member.userID := {}];
      }
      userRooms := userRooms[member.userID := userRooms[member.userID] + {member.roomID}];
    }

    method RemoveRoomMember(roomID: string, userID: string)
      modifies this
      ensures State() == old(State()).RemoveMember(roomID, userID)
    {
      if roomID in roomMembers {
        roomMembers := roomMembers[roomID := roomMembers[roomID] - {userID}];
      }
      if userID in userRooms {
        userRooms := userRooms[userID := userRooms[userID] - {roomID}];
      }
    }

    /** Every member of the room, once each. */
    method GetRoomMembers(roomID: string) returns (result: seq<Member>)
      requires State().Keyed()
      ensures forall m :: m in result <==> State().IsUserInRoom(roomID, m.userID) && m == roomMembers[roomID][m.userID]
      ensures forall i, j :: 0 <= i < j < |result| ==> result[i].userID != result[j].userID
    {
      result := [];
      if roomID in roomMembers {
        var members := roomMembers[roomID];
        assert State().MembersOf(roomID) == members;
        var todo := members.Keys;
        while todo != {}
          invariant todo <= members.Keys
          invariant forall m :: m in result <==>
                      m.userID in members.Keys - todo && m == members[m.userID]
          invariant forall i, j :: 0 <= i < j < |result| ==> result[i].userID != result[j].userID
        {
          var userID :| userID in todo;
          assert members[userID].userID == userID;
          assert forall m :: m in result ==> m.userID != userID;
          result := result + [members[userID]];
          todo := todo - {userID};
        }
      }
    }

    method IsUserInRoom(roomID: string, userID: string) returns (b: bool)
      ensures b <==> State().IsUserInRoom(roomID, userID)
    {
      if roomID in roomMembers {
        return userID in roomMembers[roomID];
      }
      return false;
    }
  }
}
