/**
 * The chat server's state as a value, with each handler as one step: who is in which room on
 * both sides, who is typing on both sides, and the store underneath.
 */
module ChatState {
  import opened Options
  import opened RoomStore
  import opened DirectRooms

  /** Ten seconds, in nanoseconds. */
  const TYPING_TIMEOUT := 10_000_000_000

  datatype ClientView = ClientView(userID: string, rooms: set<string>, typing: set<string>)

  datatype RoomView = RoomView(roomType: RoomType, members: set<string>)

  type TypingTable = map<string, map<string, int>>

  datatype Chat = Chat(clients: map<string, ClientView>, rooms: map<string, RoomView>,
                       typing: TypingTable, store: Store)

  // ---- Rooms ----

  /** The room a client asks for, made if its ID allows it. */
  function GetOrCreateRoom(st: Chat, r: string): (Chat, bool) {
    if r in st.rooms then (st, true)
    else
      match TypeOf(r)
      case None => (st, false)
      case Some(t) =>
        if t == Public then (st.(rooms := st.rooms[r := RoomView(Public, {})]), true)
        else if r in st.store.rooms then
          (st.(rooms := st.rooms[r := RoomView(st.store.rooms[r].roomType, {})]), true)
        else if t == DM then
          (st.(store := st.store.CreateRoom(StoredRoom(r, DM, r)), rooms := st.rooms[r := RoomView(DM, {})]), true)
        else (st, false)
  }

  /** checkRoomPermission. */
  predicate Permitted(store: Store, userID: string, r: string) {
    if HasPrefix(r, PUBLIC_PREFIX) then true
    else if HasPrefix(r, DM_PREFIX) then Admits(r, userID)
    else store.IsUserInRoom(r, userID)
  }

  function AddToRoom(st: Chat, c: string, r: string): Chat
    requires c in st.clients && r in st.rooms
  {
    var client, room := st.clients[c], st.rooms[r];
    st.(rooms := st.rooms[r := room.(members := room.members + {c})],
        clients := st.clients[c := client.(rooms := client.rooms + {r})],
        store := if room.roomType == Public then st.store else st.store.AddMember(Member(r, client.userID, "member")))
  }

  function JoinRoom(st: Chat, c: string, r: string): Chat
    requires c in st.clients
  {
    var (st1, ok) := GetOrCreateRoom(st, r);
    if !ok || (st1.rooms[r].roomType != Public && !Permitted(st1.store, st.clients[c].userID, r)) then st1
    else AddToRoom(st1, c, r)
  }

  /** One room without one client; a private room that this empties is closed. */
  function Without(rooms: map<string, RoomView>, r: string, c: string): map<string, RoomView> {
    if r !in rooms then rooms
    else
      var room := rooms[r].(members := rooms[r].members - {c});
      if room.members == {} && room.roomType != Public then rooms - {r} else rooms[r := room]
  }

  function LeaveRoom(st: Chat, c: string, r: string): Chat
    requires c in st.clients
  {
    var client := st.clients[c];
    if r !in client.rooms then st
    else
      st.(rooms := Without(st.rooms, r, c),
          clients := st.clients[c := client.(rooms := client.rooms - {r})],
          store := if HasPrefix(r, PUBLIC_PREFIX) then st.store else st.store.RemoveMember(r, client.userID))
  }

  /** The rooms that are left after a client has gone from all of `leaving`. */
  function WithoutAll(rooms: map<string, RoomView>, leaving: set<string>, c: string): map<string, RoomView> {
    map r | r in rooms && (r !in leaving || rooms[r].roomType == Public || rooms[r].members - {c} != {}) ::
      if r in leaving then rooms[r].(members := rooms[r].members - {c}) else rooms[r]
  }

  function WithoutTyping(typing: TypingTable, c: string): TypingTable {
    map r | r in typing :: typing[r] - {c}
  }

  /** A client's disconnect, `leaving` being its own set of rooms, which outlives the connection. */
  function Disconnect(st: Chat, c: string, leaving: set<string>): Chat {
    st.(rooms := WithoutAll(st.rooms, leaving, c),
        typing := WithoutTyping(st.typing, c),
        clients := st.clients - {c})
  }

  // ---- Typing ----

  function EntriesOf(typing: TypingTable, r: string): map<string, int> {
    if r in typing then typing[r] else map[]
  }

  function SetTyping(st: Chat, c: string, r: string, on: bool, now: int): Chat
    requires c in st.clients
  {
    var client, entries := st.clients[c], EntriesOf(st.typing, r);
    if r !in client.rooms then st
    else if on then
      st.(typing := st.typing[r := entries[c := now]],
          clients := st.clients[c := client.(typing := client.typing + {r})])
    else
      st.(typing := st.typing[r := entries - {c}],
          clients := st.clients[c := client.(typing := client.typing - {r})])
  }

  predicate Stale(entry: int, now: int) {
    now - entry > TYPING_TIMEOUT
  }

  function Recent(entries: map<string, int>, now: int): map<string, int> {
    map c | c in entries && !Stale(entries[c], now) :: entries[c]
  }

  /** The rooms where a client's entry has gone stale. */
  function StaleRooms(typing: TypingTable, c: string, now: int): set<string> {
    set r | r in typing && c in typing[r] && Stale(typing[r][c], now)
  }

  function Cleanup(st: Chat, now: int): Chat {
    st.(typing := map r | r in st.typing && Recent(st.typing[r], now) != map[] :: Recent(st.typing[r], now),
        clients := map c | c in st.clients ::
                     st.clients[c].(typing := st.clients[c].typing - StaleRooms(st.typing, c, now)))
  }

  // ---- The store's rooms made from outside ----

  function CreateGroupRoom(st: Chat, r: string, name: string, creator: string): Chat {
    st.(store := st.store.CreateRoom(StoredRoom(r, Group, name)).AddMember(Member(r, creator, "owner")))
  }

  function CreateDMRoom(st: Chat, user1: string, user2: string): Chat {
    var r := DMRoomID(user1, user2);
    var (a, b) := Sorted(user1, user2);
    if r in st.store.rooms then st
    else st.(store := st.store.CreateRoom(StoredRoom(r, DM, "DM: " + a + ", " + b))
                        .AddMember(Member(r, a, "member")).AddMember(Member(r, b, "member")))
  }

  // ---- What every step keeps ----

  predicate IsMember(st: Chat, r: string, c: string) {
    r in st.rooms && c in st.rooms[r].members
  }

  /** A connected client is in a room exactly when the room is in the client's set; nobody else is in any. */
  ghost predicate MembershipAgrees(st: Chat) {
    && (forall c, r :: c in st.clients ==> (IsMember(st, r, c) <==> r in st.clients[c].rooms))
    && (forall c, r :: IsMember(st, r, c) ==> c in st.clients)
  }

  /** Every room has the type its ID spells, and every private room is also in the store. */
  ghost predicate TypesAgree(st: Chat) {
    && (forall r :: r in st.rooms ==> TypeOf(r) == Some(st.rooms[r].roomType))
    && (forall r :: r in st.store.rooms ==> TypeOf(r) == Some(st.store.rooms[r].roomType))
    && (forall r :: r in st.rooms && st.rooms[r].roomType != Public ==> r in st.store.rooms)
  }

  predicate HasEntry(st: Chat, r: string, c: string) {
    r in st.typing && c in st.typing[r]
  }

  /** A connected client's flag for a room is up exactly when the table has an entry; nobody else has one. */
  ghost predicate TypingAgrees(st: Chat) {
    && (forall c, r :: c in st.clients ==> (HasEntry(st, r, c) <==> r in st.clients[c].typing))
    && (forall c, r :: HasEntry(st, r, c) ==> c in st.clients)
  }

  /** The store's indexes agree, and no index mentions a room that does not exist. */
  ghost predicate StoreAgrees(store: Store) {
    && store.Agree() && store.Contained() && store.Keyed()
    && forall r, u :: r in store.RoomsOf(u) ==> r in store.rooms
  }

  ghost predicate Consistent(st: Chat) {
    MembershipAgrees(st) && TypesAgree(st) && TypingAgrees(st) && StoreAgrees(st.store)
  }

  /** In a consistent state the test on join and the test on leave take every room the same way. */
  lemma JoinAndLeaveTestsConcur(st: Chat, r: string)
    requires TypesAgree(st) && r in st.rooms
    ensures st.rooms[r].roomType != Public <==> !HasPrefix(r, PUBLIC_PREFIX)
  {
    PrefixesAreExclusive(r);
  }

  // ---- Store steps ----

  lemma IndexStaysWithin(store: Store, op: Op)
    requires StoreAgrees(store) && !op.Delete? && (op.Add? ==> op.member.roomID in store.rooms)
    ensures forall r, u :: r in op.On(store).RoomsOf(u) ==> r in op.On(store).rooms
  {
    var store' := op.On(store);
    forall r, u | r in store'.RoomsOf(u) ensures r in store'.rooms {
      assert r in store.RoomsOf(u) || (op.Add? && r == op.member.roomID);
    }
  }

  /** No index mentions a room that is not stored. */
  lemma MentionedMeansStored(store: Store)
    requires StoreAgrees(store)
    ensures forall r :: r !in store.rooms ==> !store.Mentioned(r)
  {
    forall r | r !in store.rooms ensures !store.Mentioned(r) {
      MentionedIsIndexed(store, r);
    }
  }

  lemma CreateKeepsStore(store: Store, room: StoredRoom)
    requires StoreAgrees(store) && room.id !in store.rooms
    ensures StoreAgrees(store.CreateRoom(room))
  {
    MentionedIsIndexed(store, room.id);
    OpKeepsAgreement(store, Create(room));
    OpKeepsContained(store, Create(room));
    IndexStaysWithin(store, Create(room));
  }

  lemma AddKeepsStore(store: Store, m: Member)
    requires StoreAgrees(store) && m.roomID in store.rooms
    ensures StoreAgrees(store.AddMember(m))
  {
    OpKeepsAgreement(store, Add(m));
    OpKeepsContained(store, Add(m));
    IndexStaysWithin(store, Add(m));
  }

  lemma RemoveKeepsStore(store: Store, r: string, u: string)
    requires StoreAgrees(store)
    ensures StoreAgrees(store.RemoveMember(r, u))
  {
    OpKeepsAgreement(store, Remove(r, u));
    OpKeepsContained(store, Remove(r, u));
    IndexStaysWithin(store, Remove(r, u));
  }

  // ---- Steps ----

  /** A step that only adds well-typed rooms to the store. */
  lemma StoreChangeKeeps(st: Chat, st': Chat)
    requires Consistent(st) && st' == st.(store := st'.store) && StoreAgrees(st'.store)
    requires forall r :: r in st'.store.rooms ==> TypeOf(r) == Some(st'.store.rooms[r].roomType)
    requires st.store.rooms.Keys <= st'.store.rooms.Keys
    ensures Consistent(st')
  {
    hide StoreAgrees, TypeOf;
    assert forall d, q :: IsMember(st', q, d) <==> IsMember(st, q, d);
    assert forall d, q :: HasEntry(st', q, d) <==> HasEntry(st, q, d);
  }

  /** A room opened with nobody in it. */
  lemma OpenRoomKeeps(st: Chat, r: string, t: RoomType)
    requires Consistent(st) && r !in st.rooms && TypeOf(r) == Some(t) && (t != Public ==> r in st.store.rooms)
    ensures Consistent(st.(rooms := st.rooms[r := RoomView(t, {})]))
  {
    hide StoreAgrees, TypeOf;
    var st' := st.(rooms := st.rooms[r := RoomView(t, {})]);
    assert forall c, q :: IsMember(st', q, c) <==> IsMember(st, q, c);
    assert forall c, q :: HasEntry(st', q, c) <==> HasEntry(st, q, c);
  }

  lemma GetOrCreateKeeps(st: Chat, r: string)
    requires Consistent(st)
    ensures Consistent(GetOrCreateRoom(st, r).0)
    ensures var (st', ok) := GetOrCreateRoom(st, r); ok ==> r in st'.rooms && st'.clients == st.clients
    ensures var store' := GetOrCreateRoom(st, r).0.store;
            forall q :: q in store'.rooms && q !in st.store.rooms ==> !st.store.Mentioned(q)
  {
    MentionedMeansStored(st.store);
    hide StoreAgrees, MembershipAgrees, TypingAgrees, TypeOf, Store.Mentioned;
    if r !in st.rooms && TypeOf(r).Some? {
      var t := TypeOf(r).value;
      if t == Public || r in st.store.rooms {
        OpenRoomKeeps(st, r, t);
      } else if t == DM {
        var st1 := st.(store := st.store.CreateRoom(StoredRoom(r, DM, r)));
        CreateKeepsStore(st.store, StoredRoom(r, DM, r));
        StoreChangeKeeps(st, st1);
        OpenRoomKeeps(st1, r, DM);
      }
    }
  }

  lemma EnterRoomMembers(st: Chat, c: string, r: string)
    requires MembershipAgrees(st) && c in st.clients && r in st.rooms
    ensures MembershipAgrees(AddToRoom(st, c, r).(store := st.store))
  {
    var st' := AddToRoom(st, c, r).(store := st.store);
    assert forall d, q :: IsMember(st', q, d) <==> IsMember(st, q, d) || (q == r && d == c);
  }

  /** Entering one room on both sides. */
  lemma EnterRoomKeeps(st: Chat, c: string, r: string)
    requires Consistent(st) && c in st.clients && r in st.rooms
    ensures Consistent(AddToRoom(st, c, r).(store := st.store))
  {
    hide StoreAgrees, TypeOf, MembershipAgrees;
    var st' := AddToRoom(st, c, r).(store := st.store);
    EnterRoomMembers(st, c, r);
    assert forall d, q :: HasEntry(st', q, d) <==> HasEntry(st, q, d);
  }

  lemma AddToRoomKeeps(st: Chat, c: string, r: string)
    requires Consistent(st) && c in st.clients && r in st.rooms
    ensures Consistent(AddToRoom(st, c, r))
  {
    hide StoreAgrees, MembershipAgrees, TypingAgrees, TypeOf;
    EnterRoomKeeps(st, c, r);
    if st.rooms[r].roomType != Public {
      AddKeepsStore(st.store, Member(r, st.clients[c].userID, "member"));
      StoreChangeKeeps(AddToRoom(st, c, r).(store := st.store), AddToRoom(st, c, r));
    }
  }

  lemma JoinRoomKeeps(st: Chat, c: string, r: string)
    requires Consistent(st) && c in st.clients
    ensures Consistent(JoinRoom(st, c, r))
  {
    hide Consistent, GetOrCreateRoom, AddToRoom;
    GetOrCreateKeeps(st, r);
    var (st1, ok) := GetOrCreateRoom(st, r);
    if ok {
      AddToRoomKeeps(st1, c, r);
    }
  }

  lemma ExitRoomMembers(st: Chat, c: string, r: string)
    requires MembershipAgrees(st) && c in st.clients
    ensures MembershipAgrees(LeaveRoom(st, c, r).(store := st.store))
  {
    var st' := LeaveRoom(st, c, r).(store := st.store);
    if r in st.clients[c].rooms {
      forall d, q ensures IsMember(st', q, d) <==> IsMember(st, q, d) && !(q == r && d == c) {
        assert IsMember(st, q, d) && q == r && d != c ==> d in st.rooms[r].members - {c};
      }
    }
  }

  /** Leaving one room on both sides. */
  lemma ExitRoomKeeps(st: Chat, c: string, r: string)
    requires Consistent(st) && c in st.clients
    ensures Consistent(LeaveRoom(st, c, r).(store := st.store))
  {
    hide StoreAgrees, TypeOf, MembershipAgrees;
    var st' := LeaveRoom(st, c, r).(store := st.store);
    ExitRoomMembers(st, c, r);
    if r in st.clients[c].rooms {
      assert forall d, q :: HasEntry(st', q, d) <==> HasEntry(st, q, d);
    }
  }

  lemma LeaveRoomKeeps(st: Chat, c: string, r: string)
    requires Consistent(st) && c in st.clients
    ensures Consistent(LeaveRoom(st, c, r))
  {
    hide StoreAgrees, MembershipAgrees, TypingAgrees, TypeOf;
    ExitRoomKeeps(st, c, r);
    if r in st.clients[c].rooms && !HasPrefix(r, PUBLIC_PREFIX) {
      RemoveKeepsStore(st.store, r, st.clients[c].userID);
      StoreChangeKeeps(LeaveRoom(st, c, r).(store := st.store), LeaveRoom(st, c, r));
    }
  }

  /** The rooms a client holds: exactly its own if it is connected, anything if it is not any more. */
  predicate Holds(st: Chat, c: string, leaving: set<string>) {
    c in st.clients ==> leaving == st.clients[c].rooms
  }

  lemma DisconnectKeeps(st: Chat, c: string, leaving: set<string>)
    requires Consistent(st) && Holds(st, c, leaving)
    ensures Consistent(Disconnect(st, c, leaving))
  {
    hide StoreAgrees, TypeOf;
    var st' := Disconnect(st, c, leaving);
    forall d, q ensures IsMember(st', q, d) <==> IsMember(st, q, d) && d != c {
      assert IsMember(st, q, d) && d != c ==> d in st.rooms[q].members - {c};
    }
    assert forall d, q :: HasEntry(st', q, d) <==> HasEntry(st, q, d) && d != c;
  }

  lemma SetTypingEntries(st: Chat, c: string, r: string, on: bool, now: int)
    requires TypingAgrees(st) && c in st.clients
    ensures TypingAgrees(SetTyping(st, c, r, on, now))
  {
    var st' := SetTyping(st, c, r, on, now);
    if r in st.clients[c].rooms {
      forall d, q ensures HasEntry(st', q, d) <==> (if q == r && d == c then on else HasEntry(st, q, d)) {
        assert q != r ==> (q in st'.typing <==> q in st.typing);
      }
    }
  }

  lemma SetTypingKeeps(st: Chat, c: string, r: string, on: bool, now: int)
    requires Consistent(st) && c in st.clients
    ensures Consistent(SetTyping(st, c, r, on, now))
  {
    hide StoreAgrees, TypeOf, TypingAgrees;
    var st' := SetTyping(st, c, r, on, now);
    SetTypingEntries(st, c, r, on, now);
    assert forall d, q :: IsMember(st', q, d) <==> IsMember(st, q, d);
  }

  lemma CleanupKeeps(st: Chat, now: int)
    requires Consistent(st)
    ensures Consistent(Cleanup(st, now))
  {
    hide StoreAgrees, TypeOf;
    var st' := Cleanup(st, now);
    CleanupExact(st, now);
    assert forall d, q :: IsMember(st', q, d) <==> IsMember(st, q, d);
  }

  /** One pass removes exactly the entries older than ten seconds, and leaves no empty room entry. */
  lemma CleanupExact(st: Chat, now: int)
    ensures var st' := Cleanup(st, now);
            && (forall r, c :: HasEntry(st', r, c) <==>
                  HasEntry(st, r, c) && now - st.typing[r][c] <= 10_000_000_000)
            && (forall r, c :: HasEntry(st', r, c) ==> st'.typing[r][c] == st.typing[r][c])
            && (forall r :: r in st'.typing ==> st'.typing[r] != map[])
            && st'.clients.Keys == st.clients.Keys && st'.rooms == st.rooms && st'.store == st.store
            && (forall c :: c in st.clients ==>
                  st'.clients[c].userID == st.clients[c].userID && st'.clients[c].rooms == st.clients[c].rooms)
  {
    var st' := Cleanup(st, now);
    forall r, c ensures HasEntry(st', r, c) <==> HasEntry(st, r, c) && now - st.typing[r][c] <= 10_000_000_000 {
      if HasEntry(st, r, c) && !Stale(st.typing[r][c], now) {
        assert c in Recent(st.typing[r], now);
      }
    }
  }

  lemma CreateGroupRoomKeeps(st: Chat, r: string, name: string, creator: string)
    requires Consistent(st) && r !in st.store.rooms && TypeOf(r) == Some(Group)
    ensures Consistent(CreateGroupRoom(st, r, name, creator))
  {
    hide StoreAgrees, TypeOf;
    var room := StoredRoom(r, Group, name);
    CreateKeepsStore(st.store, room);
    AddKeepsStore(st.store.CreateRoom(room), Member(r, creator, "owner"));
    StoreChangeKeeps(st, CreateGroupRoom(st, r, name, creator));
  }

  lemma CreateDMRoomKeeps(st: Chat, user1: string, user2: string)
    requires Consistent(st)
    ensures Consistent(CreateDMRoom(st, user1, user2))
  {
    hide StoreAgrees, DMRoomID, Sorted, TypeOf;
    var r := DMRoomID(user1, user2);
    var (a, b) := Sorted(user1, user2);
    DMRoomIDIsDM(user1, user2);
    if r !in st.store.rooms {
      var s1 := st.store.CreateRoom(StoredRoom(r, DM, "DM: " + a + ", " + b));
      CreateKeepsStore(st.store, StoredRoom(r, DM, "DM: " + a + ", " + b));
      AddKeepsStore(s1, Member(r, a, "member"));
      AddKeepsStore(s1.AddMember(Member(r, a, "member")), Member(r, b, "member"));
      StoreChangeKeeps(st, CreateDMRoom(st, user1, user2));
    }
  }

  // ---- Runs ----

  datatype Step =
    | Connecting(id: string, userID: string)
    | Joining(id: string, room: string)
    | Leaving(id: string, room: string)
    | Disconnecting(id: string)
    | DisconnectingAgain(id: string, rooms: set<string>)
    | Typing(id: string, room: string, on: bool, now: int)
    | CleaningUp(now: int)
    | MakingGroup(suffix: string, name: string, creator: string)
    | MakingDM(user1: string, user2: string)

  function GroupRoomID(suffix: string): string {
    GROUP_PREFIX + suffix
  }

  function Connect(st: Chat, id: string, userID: string): Chat {
    st.(clients := st.clients[id := ClientView(userID, {}, {})])
  }

  /** Messages come from connected clients; random client IDs and group suffixes do not repeat. */
  predicate Enabled(st: Chat, step: Step) {
    match step
    case Connecting(id, _) => id !in st.clients
    case Joining(id, _) => id in st.clients
    case Leaving(id, _) => id in st.clients
    case Disconnecting(id) => id in st.clients
    case DisconnectingAgain(id, _) => id !in st.clients
    case Typing(id, _, _, _) => id in st.clients
    case CleaningUp(_) => true
    case MakingGroup(suffix, _, _) => GroupRoomID(suffix) !in st.store.rooms
    case MakingDM(_, _) => true
  }

  function Next(st: Chat, step: Step): Chat
    requires Enabled(st, step)
  {
    match step
    case Connecting(id, userID) => Connect(st, id, userID)
    case Joining(id, r) => JoinRoom(st, id, r)
    case Leaving(id, r) => LeaveRoom(st, id, r)
    case Disconnecting(id) => Disconnect(st, id, st.clients[id].rooms)
    case DisconnectingAgain(id, rooms) => Disconnect(st, id, rooms)
    case Typing(id, r, on, now) => SetTyping(st, id, r, on, now)
    case CleaningUp(now) => Cleanup(st, now)
    case MakingGroup(suffix, name, creator) => CreateGroupRoom(st, GroupRoomID(suffix), name, creator)
    case MakingDM(user1, user2) => CreateDMRoom(st, user1, user2)
  }

  /** One of the default rooms, in memory and in the store. */
  function AddDefaultRoom(st: Chat, r: string, name: string): Chat {
    st.(rooms := st.rooms[r := RoomView(Public, {})], store := st.store.CreateRoom(StoredRoom(r, Public, name)))
  }

  /** A server with its three default rooms. */
  function Start(): Chat {
    var empty := Chat(map[], map[], map[], EMPTY);
    AddDefaultRoom(AddDefaultRoom(AddDefaultRoom(empty, "public:lobby", "General Lobby"),
                                  "public:random", "Random Chat"),
                   "public:help", "Help & Support")
  }

  lemma DefaultRoomKeeps(st: Chat, r: string, name: string)
    requires Consistent(st) && TypeOf(r) == Some(Public) && r !in st.rooms && r !in st.store.rooms
    ensures Consistent(AddDefaultRoom(st, r, name))
  {
    hide StoreAgrees, MembershipAgrees, TypingAgrees, TypeOf;
    var room := StoredRoom(r, Public, name);
    CreateKeepsStore(st.store, room);
    StoreChangeKeeps(st, st.(store := st.store.CreateRoom(room)));
    OpenRoomKeeps(st.(store := st.store.CreateRoom(room)), r, Public);
  }

  lemma EmptyIsConsistent()
    ensures Consistent(Chat(map[], map[], map[], EMPTY))
  {}

  lemma DefaultRoomIDs()
    ensures TypeOf("public:lobby") == TypeOf("public:random") == TypeOf("public:help") == Some(Public)
    ensures "public:lobby" != "public:random" && "public:lobby" != "public:help" && "public:random" != "public:help"
  {
    assert "public:lobby"[7] == 'l' && "public:random"[7] == 'r' && "public:help"[7] == 'h';
  }

  /** The server starts with three public rooms, in memory and in the store, and nobody in them. */
  lemma StartIsConsistent()
    ensures Consistent(Start())
    ensures Start().clients == map[] && Start().typing == map[]
    ensures Start().rooms == map["public:lobby" := RoomView(Public, {}), "public:random" := RoomView(Public, {}),
                                 "public:help" := RoomView(Public, {})]
    ensures Start().store.rooms == map["public:lobby" := StoredRoom("public:lobby", Public, "General Lobby"),
                                       "public:random" := StoredRoom("public:random", Public, "Random Chat"),
                                       "public:help" := StoredRoom("public:help", Public, "Help & Support")]
    ensures Start().store.userRooms == map[] && forall r :: Start().store.MembersOf(r) == map[]
  {
    StartIsEmpty();
    hide Consistent, TypeOf, Store.MembersOf;
    var empty := Chat(map[], map[], map[], EMPTY);
    EmptyIsConsistent();
    DefaultRoomIDs();
    var lobby := AddDefaultRoom(empty, "public:lobby", "General Lobby");
    DefaultRoomKeeps(empty, "public:lobby", "General Lobby");
    DefaultRoomKeeps(lobby, "public:random", "Random Chat");
    DefaultRoomKeeps(AddDefaultRoom(lobby, "public:random", "Random Chat"), "public:help", "Help & Support");
  }

  lemma StartIsEmpty()
    ensures Start().store.userRooms == map[]
    ensures forall r :: Start().store.MembersOf(r) == map[]
  {
    assert forall r :: r in Start().store.roomMembers ==> Start().store.roomMembers[r] == map[];
  }

  lemma ConnectKeeps(st: Chat, id: string, userID: string)
    requires Consistent(st) && id !in st.clients
    ensures Consistent(Connect(st, id, userID))
  {
    hide StoreAgrees, TypeOf;
    var st' := Connect(st, id, userID);
    assert forall d, q :: IsMember(st', q, d) <==> IsMember(st, q, d);
    assert forall d, q :: HasEntry(st', q, d) <==> HasEntry(st, q, d);
  }

  lemma StepKeeps(st: Chat, step: Step)
    requires Consistent(st) && Enabled(st, step)
    ensures Consistent(Next(st, step))
  {
    hide Consistent, JoinRoom, LeaveRoom, Disconnect, SetTyping, Cleanup, CreateGroupRoom, CreateDMRoom, Connect;
    match step
    case Connecting(id, userID) => ConnectKeeps(st, id, userID);
    case Joining(id, r) => JoinRoomKeeps(st, id, r);
    case Leaving(id, r) => LeaveRoomKeeps(st, id, r);
    case Disconnecting(id) => DisconnectKeeps(st, id, st.clients[id].rooms);
    case DisconnectingAgain(id, rooms) => DisconnectKeeps(st, id, rooms);
    case Typing(id, r, on, now) => SetTypingKeeps(st, id, r, on, now);
    case CleaningUp(now) => CleanupKeeps(st, now);
    case MakingGroup(suffix, name, creator) =>
      PrefixesAreExclusive(GroupRoomID(suffix));
      CreateGroupRoomKeeps(st, GroupRoomID(suffix), name, creator);
    case MakingDM(user1, user2) => CreateDMRoomKeeps(st, user1, user2);
  }

  function Run(steps: seq<Step>): Option<Chat> {
    if steps == [] then Some(Start())
    else
      match Run(steps[..|steps| - 1])
      case None => None
      case Some(st) =>
        var step := steps[|steps| - 1];
        if Enabled(st, step) then Some(Next(st, step)) else None
  }

  /**
   * In every state of every run: a connected client is in a room exactly when the room is in the
   * client's own set, and its typing flag is up exactly when the table has it; rooms have the type
   * their IDs spell; nobody who is not connected is left anywhere; and the store's indexes agree.
   */
  lemma {:induction false} EveryRunIsConsistent(steps: seq<Step>)
    requires Run(steps).Some?
    ensures Consistent(Run(steps).value)
  {
    hide Consistent, Enabled, Next, Start;
    if steps == [] {
      StartIsConsistent();
    } else {
      EveryRunIsConsistent(steps[..|steps| - 1]);
      StepKeeps(Run(steps[..|steps| - 1]).value, steps[|steps| - 1]);
    }
  }

  // ---- What each handler does ----

  /** Whether a user may enter a room at all: what its ID spells, and what the store says of him. */
  predicate MayEnter(st: Chat, userID: string, r: string) {
    match TypeOf(r)
    case None => false
    case Some(Public) => true
    case Some(Group) => r in st.store.RoomsOf(userID)
    case Some(DM) => Admits(r, userID)
  }

  /** Who may enter, in literal terms: anybody, the room's stored members, or the users its ID names. */
  lemma MayEnterExactly(st: Chat, userID: string, r: string)
    ensures MayEnter(st, userID, r) <==>
              || (|r| >= 7 && r[..7] == "public:")
              || (|r| >= 6 && r[..6] == "group:" && r in st.store.RoomsOf(userID))
              || (|r| >= 3 && r[..3] == "dm:" && IsPart(r[3..], userID))
  {
    hide IsPart, TypeOf;
    PrefixesAreExclusive(r);
    AdmitsExactly(r, userID);
  }

  /**
   * Opening a room, which a join does before it asks whether the client may enter: any public room,
   * any direct room, and a group that is stored; and a direct room is stored then if it was not.
   */
  lemma OpenOutcome(st: Chat, r: string)
    requires Consistent(st)
    ensures var (st', ok) := GetOrCreateRoom(st, r);
            var isDM := |r| >= 3 && r[..3] == "dm:";
            && (ok <==> || r in st.rooms || (|r| >= 7 && r[..7] == "public:") || isDM
                        || (|r| >= 6 && r[..6] == "group:" && r in st.store.rooms))
            && st'.rooms == (if ok && r !in st.rooms then st.rooms[r := RoomView(TypeOf(r).value, {})] else st.rooms)
            && st'.store == (if r !in st.rooms && isDM && r !in st.store.rooms then
                               st.store.CreateRoom(StoredRoom(r, DM, r))
                             else st.store)
            && st'.clients == st.clients && st'.typing == st.typing
  {
    hide MembershipAgrees, TypingAgrees, StoreAgrees;
    PrefixesAreExclusive(r);
  }

  /** What a join leaves of rooms and records, whether the client gets in or not. */
  lemma JoinRecords(st: Chat, c: string, r: string)
    requires Consistent(st) && c in st.clients
    ensures var st1 := GetOrCreateRoom(st, r).0;
            var st', u := JoinRoom(st, c, r), st.clients[c].userID;
            && st'.rooms.Keys == st1.rooms.Keys && st'.store.rooms == st1.store.rooms
            && (MayEnter(st, u, r) && !HasPrefix(r, PUBLIC_PREFIX) ==>
                  st'.store.MembersOf(r) == st1.store.MembersOf(r)[u := Member(r, u, "member")])
            && (!(MayEnter(st, u, r) && !HasPrefix(r, PUBLIC_PREFIX)) ==>
                  st'.store.MembersOf(r) == st1.store.MembersOf(r))
            && (forall q :: q != r ==> st'.store.MembersOf(q) == st1.store.MembersOf(q))
  {
    hide Admits, StoreAgrees, MayEnter, Permitted, GetOrCreateRoom, TypesAgree, TypingAgrees, MembershipAgrees,
         Store.AddMember, Store.MembersOf;
    JoinAndLeaveTests(st, r);
    GetOrCreateKeeps(st, r);
    JoinDecision(st, c, r);
    var (st1, ok) := GetOrCreateRoom(st, r);
    if ok {
      AddChangesOne(st1.store, Member(r, st.clients[c].userID, "member"));
    }
  }

  /**
   * Joining: a client gets into exactly the rooms it may enter, stays in those it is in already,
   * and nobody else's membership changes; in the store, entering a private room adds its user to
   * that room, and nothing else changes but that a direct room may be created.
   */
  lemma JoinOutcome(st: Chat, c: string, r: string)
    requires Consistent(st) && c in st.clients
    ensures var st', u := JoinRoom(st, c, r), st.clients[c].userID;
            var entered := IsMember(st, r, c) || MayEnter(st, u, r);
            var stored := MayEnter(st, u, r) && !HasPrefix(r, PUBLIC_PREFIX);
            && (forall q, d :: IsMember(st', q, d) <==> IsMember(st, q, d) || (q == r && d == c && entered))
            && st'.clients == st.clients[c := st.clients[c].(rooms := st'.clients[c].rooms)]
            && (forall q :: q in st.rooms ==> q in st'.rooms)
            && (forall q :: q in st'.rooms && q != r ==> q in st.rooms)
            && (forall q, v :: st'.store.IsUserInRoom(q, v)
                               <==> st.store.IsUserInRoom(q, v) || (q == r && v == u && stored))
            && (forall q, v :: q in st'.store.RoomsOf(v)
                               <==> q in st.store.RoomsOf(v) || (q == r && v == u && stored))
            && st'.store.rooms - {r} == st.store.rooms - {r}
            && st'.typing == st.typing
  {
    hide Admits, StoreAgrees, MayEnter, Permitted, GetOrCreateRoom, TypesAgree, TypingAgrees,
         Store.IsUserInRoom, Store.RoomsOf, Store.AddMember;
    JoinAndLeaveTests(st, r);
    GetOrCreateKeeps(st, r);
    GetOrCreateAdds(st, r);
    GetOrCreateStores(st, r);
    JoinDecision(st, c, r);
    var (st1, ok) := GetOrCreateRoom(st, r);
    if ok {
      var st2 := AddToRoom(st1, c, r);
      AddChangesOne(st1.store, Member(r, st.clients[c].userID, "member"));
      assert forall q, d :: IsMember(st2, q, d) <==> IsMember(st1, q, d) || (q == r && d == c);
    }
  }

  /** Opening a room may create it in the store, but changes neither index. */
  lemma GetOrCreateStores(st: Chat, r: string)
    requires Consistent(st)
    ensures var store' := GetOrCreateRoom(st, r).0.store;
            && (forall q, v :: store'.IsUserInRoom(q, v) <==> st.store.IsUserInRoom(q, v))
            && (forall v :: store'.RoomsOf(v) == st.store.RoomsOf(v))
            && store'.rooms - {r} == st.store.rooms - {r}
  {
    hide TypeOf, Store.IsUserInRoom, Store.Agree, Store.Keyed, MembershipAgrees, TypingAgrees, TypesAgree;
    if r !in st.store.rooms {
      MentionedIsIndexed(st.store, r);
      CreateChangesRooms(st.store, StoredRoom(r, DM, r));
    }
  }

  lemma JoinAndLeaveTests(st: Chat, r: string)
    requires Consistent(st)
    ensures var (st1, ok) := GetOrCreateRoom(st, r);
            ok ==> r in st1.rooms && (st1.rooms[r].roomType == Public <==> HasPrefix(r, PUBLIC_PREFIX))
  {
    GetOrCreateKeeps(st, r);
    PrefixesAreExclusive(r);
  }

  /** Opening a room admits nobody. */
  lemma GetOrCreateAdds(st: Chat, r: string)
    ensures var st1 := GetOrCreateRoom(st, r).0;
            && (forall q, d :: IsMember(st1, q, d) <==> IsMember(st, q, d))
            && (forall q :: q in st.rooms ==> q in st1.rooms)
            && (forall q :: q in st1.rooms && q != r ==> q in st.rooms)
            && st1.clients == st.clients && st1.typing == st.typing
  {}

  /** The code's tests on join come to `MayEnter`. */
  lemma JoinDecision(st: Chat, c: string, r: string)
    requires Consistent(st) && c in st.clients
    ensures var (st1, ok) := GetOrCreateRoom(st, r);
            var u := st.clients[c].userID;
            MayEnter(st, u, r) <==> ok && (st1.rooms[r].roomType == Public || Permitted(st1.store, u, r))
  {
    hide Admits;
    PrefixesAreExclusive(r);
    GetOrCreateKeeps(st, r);
    var u := st.clients[c].userID;
    assert r in st.store.rooms ==> (st.store.IsUserInRoom(r, u) <==> r in st.store.RoomsOf(u));
    assert st.store.IsUserInRoom(r, u) ==> r in st.store.RoomsOf(u);
  }

  /**
   * Leaving: one client is out of one room and nobody else is; the room closes if it is private
   * and the client was alone in it; in the store its user is out of that private room, and nothing
   * else changes.
   */
  lemma LeaveOutcome(st: Chat, c: string, r: string)
    requires Consistent(st) && c in st.clients
    ensures var st', u := LeaveRoom(st, c, r), st.clients[c].userID;
            var gone := IsMember(st, r, c) && !HasPrefix(r, PUBLIC_PREFIX);
            && (forall q, d :: IsMember(st', q, d) <==> IsMember(st, q, d) && !(q == r && d == c))
            && st'.clients == st.clients[c := st.clients[c].(rooms := st.clients[c].rooms - {r})]
            && st'.rooms.Keys == st.rooms.Keys - (if gone && st.rooms[r].members == {c} then {r} else {})
            && (forall q, v :: st'.store.IsUserInRoom(q, v)
                               <==> st.store.IsUserInRoom(q, v) && !(q == r && v == u && gone))
            && (forall q, v :: q in st'.store.RoomsOf(v)
                               <==> q in st.store.RoomsOf(v) && !(q == r && v == u && gone))
            && st'.store.rooms == st.store.rooms
            && st'.typing == st.typing
  {
    hide StoreAgrees, TypingAgrees, Store.IsUserInRoom, Store.RoomsOf, Store.RemoveMember;
    LeaveMembers(st, c, r);
    RemoveChangesOne(st.store, r, st.clients[c].userID);
    assert r !in st.clients[c].rooms ==> st.clients[c].rooms - {r} == st.clients[c].rooms;
  }

  /** Whose membership a leave ends, and whether the room closes. */
  lemma LeaveMembers(st: Chat, c: string, r: string)
    requires Consistent(st) && c in st.clients
    ensures var st' := LeaveRoom(st, c, r);
            && (IsMember(st, r, c) <==> r in st.clients[c].rooms)
            && (forall q, d :: IsMember(st', q, d) <==> IsMember(st, q, d) && !(q == r && d == c))
            && st'.rooms.Keys == st.rooms.Keys
                 - if IsMember(st, r, c) && !HasPrefix(r, PUBLIC_PREFIX) && st.rooms[r].members == {c} then {r} else {}
  {
    hide StoreAgrees, TypingAgrees;
    PrefixesAreExclusive(r);
    var st' := LeaveRoom(st, c, r);
    if IsMember(st, r, c) {
      assert st.rooms[r].members - {c} == {} <==> st.rooms[r].members == {c};
    }
    forall q, d ensures IsMember(st', q, d) <==> IsMember(st, q, d) && !(q == r && d == c) {
      assert IsMember(st, q, d) && q == r && d != c ==> d in st.rooms[r].members - {c};
    }
  }

  /**
   * Disconnecting, for the first time or again: the client is gone from every room and every
   * typing entry, and nobody else is; of the rooms it holds, the private ones that have nobody
   * else in them close.
   */
  lemma DisconnectOutcome(st: Chat, c: string, leaving: set<string>)
    requires Consistent(st) && Holds(st, c, leaving)
    ensures var st' := Disconnect(st, c, leaving);
            && (forall q, d :: IsMember(st', q, d) <==> IsMember(st, q, d) && d != c)
            && (forall q, d :: HasEntry(st', q, d) <==> HasEntry(st, q, d) && d != c)
            && (forall q :: q in st'.rooms <==>
                  q in st.rooms && !(q in leaving && st.rooms[q].roomType != Public && st.rooms[q].members <= {c}))
            && st'.clients == st.clients - {c} && st'.store == st.store
    ensures c !in st.clients ==>
              var st' := Disconnect(st, c, leaving);
              && st'.clients == st.clients && st'.typing == st.typing
              && forall q :: q in st'.rooms ==> st'.rooms[q] == st.rooms[q]
  {
    hide StoreAgrees, TypesAgree;
    var st' := Disconnect(st, c, leaving);
    forall q, d ensures IsMember(st', q, d) <==> IsMember(st, q, d) && d != c {
      assert IsMember(st, q, d) && d != c ==> d in st.rooms[q].members - {c};
    }
    forall q | q in st.rooms ensures st.rooms[q].members - {c} == {} <==> st.rooms[q].members <= {c} {}
    if c !in st.clients {
      AbsentClient(st, c);
    }
  }

  /** A client that is not connected is in no room and not typing. */
  lemma AbsentClient(st: Chat, c: string)
    requires MembershipAgrees(st) && TypingAgrees(st) && c !in st.clients
    ensures forall q :: q in st.rooms ==> st.rooms[q].members - {c} == st.rooms[q].members
    ensures forall q :: q in st.typing ==> st.typing[q] - {c} == st.typing[q]
  {
    forall q | q in st.rooms ensures st.rooms[q].members - {c} == st.rooms[q].members {
      assert !IsMember(st, q, c);
    }
    forall q | q in st.typing ensures st.typing[q] - {c} == st.typing[q] {
      assert !HasEntry(st, q, c);
    }
  }

  /** Typing: one entry of one member is set, to the present, or removed; a non-member's message does nothing. */
  lemma TypingOutcome(st: Chat, c: string, r: string, on: bool, now: int)
    requires Consistent(st) && c in st.clients
    ensures var st' := SetTyping(st, c, r, on, now);
            && (forall q, d :: HasEntry(st', q, d) <==>
                  if q == r && d == c && IsMember(st, r, c) then on else HasEntry(st, q, d))
            && (IsMember(st, r, c) && on ==> st'.typing[r][c] == now)
            && (forall q, d :: HasEntry(st, q, d) && !(q == r && d == c) ==> st'.typing[q][d] == st.typing[q][d])
            && st'.rooms == st.rooms && st'.store == st.store
            && st'.clients == st.clients[c := st.clients[c].(typing := st'.clients[c].typing)]
  {
    hide StoreAgrees, TypesAgree;
    var st' := SetTyping(st, c, r, on, now);
    assert IsMember(st, r, c) <==> r in st.clients[c].rooms;
    forall q, d ensures HasEntry(st', q, d) <==>
                          if q == r && d == c && IsMember(st, r, c) then on else HasEntry(st, q, d)
    {
      assert q != r ==> (q in st'.typing <==> q in st.typing);
    }
  }

  /** A new group may be entered by its creator and, until others are added, by nobody else. */
  lemma GroupRoomOutcome(st: Chat, r: string, name: string, creator: string)
    requires Consistent(st) && r !in st.store.rooms && TypeOf(r) == Some(Group)
    ensures var st' := CreateGroupRoom(st, r, name, creator);
            && st' == st.(store := st'.store)
            && st'.store.rooms == st.store.rooms[r := StoredRoom(r, Group, name)]
            && st'.store.MembersOf(r) == map[creator := Member(r, creator, "owner")]
            && (forall q :: q != r ==> st'.store.MembersOf(q) == st.store.MembersOf(q))
            && (forall q, v :: q in st'.store.RoomsOf(v) <==> q in st.store.RoomsOf(v) || (q == r && v == creator))
            && forall u :: MayEnter(st', u, r) <==> u == creator
  {
    hide MembershipAgrees, TypesAgree, TypingAgrees, TypeOf;
    var st' := CreateGroupRoom(st, r, name, creator);
    forall u ensures r in st'.store.RoomsOf(u) <==> u == creator {
      assert r !in st.store.RoomsOf(u);
    }
    assert forall u :: MayEnter(st', u, r) <==> r in st'.store.RoomsOf(u);
  }

  /** The records of a new direct room, and that nothing else changes. */
  lemma DMRoomRecords(st: Chat, user1: string, user2: string)
    requires Consistent(st) && DMRoomID(user1, user2) !in st.store.rooms
    ensures var st', r := CreateDMRoom(st, user1, user2), DMRoomID(user1, user2);
            && st' == st.(store := st'.store)
            && r in st'.store.rooms && st'.store.rooms - {r} == st.store.rooms
            && st'.store.rooms[r].id == r && st'.store.rooms[r].roomType == DM
            && st'.store.rooms[r].name in {"DM: " + user1 + ", " + user2, "DM: " + user2 + ", " + user1}
            && st'.store.MembersOf(r) == map[user1 := Member(r, user1, "member"), user2 := Member(r, user2, "member")]
            && (forall q :: q != r ==> st'.store.MembersOf(q) == st.store.MembersOf(q))
            && (forall q, v :: q in st'.store.RoomsOf(v)
                               <==> q in st.store.RoomsOf(v) || (q == r && (v == user1 || v == user2)))
  {
    hide Consistent, DMRoomID, Less;
    var r := DMRoomID(user1, user2);
    var (a, b) := Sorted(user1, user2);
    TwoMembers(st.store, StoredRoom(r, DM, "DM: " + a + ", " + b), a, b);
    hide Store.AddMember, Store.CreateRoom, Store.MembersOf, Store.RoomsOf;
    assert map[a := Member(r, a, "member"), b := Member(r, b, "member")]
           == map[user1 := Member(r, user1, "member"), user2 := Member(r, user2, "member")];
  }

  /** A new room with two members. */
  lemma TwoMembers(store: Store, room: StoredRoom, a: string, b: string)
    requires room.id !in store.rooms
    ensures var r := room.id;
            var store' := store.CreateRoom(room).AddMember(Member(r, a, "member")).AddMember(Member(r, b, "member"));
            && store'.rooms == store.rooms[r := room] && store'.rooms - {r} == store.rooms
            && store'.MembersOf(r) == map[a := Member(r, a, "member"), b := Member(r, b, "member")]
            && (forall q :: q != r ==> store'.MembersOf(q) == store.MembersOf(q))
            && (forall q, v :: q in store'.RoomsOf(v)
                               <==> q in store.RoomsOf(v) || (q == r && (v == a || v == b)))
  {
    var created := store.CreateRoom(room);
    assert created.MembersOf(room.id) == map[];
    assert forall q :: q != room.id ==> created.MembersOf(q) == store.MembersOf(q);
    assert forall v :: created.RoomsOf(v) == store.RoomsOf(v);
    hide Store.AddMember, Store.MembersOf, Store.RoomsOf;
    AddChangesOne(created, Member(room.id, a, "member"));
    AddChangesOne(created.AddMember(Member(room.id, a, "member")), Member(room.id, b, "member"));
  }

  /**
   * Making a direct room stores it; a new one has exactly its two users as stored members, and
   * if neither ID has an underscore exactly those two may enter it.
   */
  lemma DMRoomOutcome(st: Chat, user1: string, user2: string)
    requires Consistent(st)
    ensures var st', r := CreateDMRoom(st, user1, user2), DMRoomID(user1, user2);
            && r in st'.store.rooms
            && (r in st.store.rooms ==> st' == st)
            && (r !in st.store.rooms ==> forall v :: st'.store.IsUserInRoom(r, v) <==> v == user1 || v == user2)
            && ((forall v :: MayEnter(st', v, r) <==> v == user1 || v == user2)
                <==> NoUnderscore(user1) && NoUnderscore(user2))
  {
    hide Consistent, Admits, DMRoomID, TypeOf;
    var st', r := CreateDMRoom(st, user1, user2), DMRoomID(user1, user2);
    DMRoomIDIsDM(user1, user2);
    DMPermissionExact(user1, user2);
    assert forall v :: MayEnter(st', v, r) <==> Admits(r, v);
  }
}
