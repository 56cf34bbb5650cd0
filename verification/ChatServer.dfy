/** The chat server object, whose handlers change its maps and its clients in place. */
module ChatServer {
  import opened Options
  import opened RoomStore
  import opened DirectRooms
  import opened ChatState
  import opened RateLimiting

  class Client {
    const id: string
    const userID: string
    var rooms: set<string>
    var isTyping: map<string, bool>

    constructor (id: string, userID: string)
      ensures this.id == id && this.userID == userID && CurrentView() == ClientView(userID, {}, {})
    {
      this.id, this.userID, rooms, isTyping := id, userID, {}, map[];
    }

    function CurrentView(): ClientView
      reads this
    {
      ClientView(userID, rooms, set r | r in isTyping && isTyping[r])
    }

    method SetTypingFlag(r: string, on: bool)
      modifies this`isTyping
      ensures CurrentView() == old(CurrentView()).(
                typing := if on then old(CurrentView()).typing + {r} else old(CurrentView()).typing - {r})
    {
      isTyping := isTyping[r := on];
    }
  }

  datatype Room = Room(id: string, roomType: RoomType, clients: map<string, Client>)

  class Server {
    const db: InMemoryDB
    const requests: int
    const windowSize: int
    var clients: map<string, Client>
    var rooms: map<string, Room>
    var rateLimiters: map<string, RateLimit>
    var typingClients: TypingTable

    /** A server that has set up its default rooms. */
    constructor (requests: int, windowSize: int)
      ensures Valid() && CurrentView() == Start() && rateLimiters == map[] && fresh(db)
      ensures this.requests == requests && this.windowSize == windowSize
    {
      db := new InMemoryDB();
      this.requests, this.windowSize := requests, windowSize;
      clients, rooms, rateLimiters, typingClients := map[], map[], map[], map[];
      new;
      assert CurrentView() == Chat(map[], map[], map[], EMPTY);
      InitializeDefaultRoom("public:lobby", "General Lobby");
      InitializeDefaultRoom("public:random", "Random Chat");
      InitializeDefaultRoom("public:help", "Help & Support");
    }

    /** Every client is stored under its own ID, here and in the rooms. */
    ghost predicate Valid()
      reads this`clients, this`rooms
    {
      && (forall id :: id in clients ==> clients[id].id == id)
      && (forall r :: r in rooms ==> forall id :: id in rooms[r].clients ==> rooms[r].clients[id].id == id)
    }

    ghost function ClientViews(): map<string, ClientView>
      reads this`clients, clients.Values
    {
      map id | id in clients :: clients[id].CurrentView()
    }

    ghost function RoomViews(): map<string, RoomView>
      reads this`rooms
    {
      map r | r in rooms :: RoomView(rooms[r].roomType, rooms[r].clients.Keys)
    }

    ghost function CurrentView(): Chat
      reads this`clients, this`rooms, this`typingClients, clients.Values, db
    {
      Chat(ClientViews(), RoomViews(), typingClients, db.State())
    }

    /** When one client alone has changed, one view alone has. */
    twostate lemma OneClientChanged(c: Client)
      requires old(Valid()) && clients == old(clients) && c.id in clients && clients[c.id] == c
      requires forall id :: id in clients && id != c.id ==> unchanged(clients[id])
      ensures ClientViews() == old(ClientViews())[c.id := c.CurrentView()]
    {}

    lemma ViewOf(c: Client)
      requires c.id in clients && clients[c.id] == c
      ensures c.id in ClientViews() && ClientViews()[c.id] == c.CurrentView()
    {}

    // ---- Rooms ----

    method InitializeDefaultRoom(r: string, name: string)
      requires Valid()
      modifies this`rooms, db
      ensures Valid() && CurrentView() == AddDefaultRoom(old(CurrentView()), r, name)
    {
      db.CreateRoom(StoredRoom(r, Public, name));
      OpenRoom(r, r, Public);
    }

    method OpenRoom(r: string, id: string, roomType: RoomType)
      requires Valid()
      modifies this`rooms
      ensures Valid() && r in rooms
      ensures CurrentView() == old(CurrentView()).(rooms := old(CurrentView()).rooms[r := RoomView(roomType, {})])
    {
      var nobody: map<string, Client> := map[];
      assert nobody.Keys == {};
      PutRoom(r, Room(id, roomType, nobody));
    }

    method PutRoom(r: string, room: Room)
      requires Valid() && forall id :: id in room.clients ==> room.clients[id].id == id
      modifies this`rooms
      ensures Valid() && rooms == old(rooms)[r := room]
      ensures RoomViews() == old(RoomViews())[r := RoomView(room.roomType, room.clients.Keys)]
    {
      rooms := rooms[r := room];
    }

    method Connect(id: string, userID: string) returns (client: Client)
      requires Valid() && id !in clients
      modifies this`clients
      ensures Valid() && fresh(client) && clients == old(clients)[id := client]
      ensures CurrentView() == ChatState.Connect(old(CurrentView()), id, userID)
    {
      client := new Client(id, userID);
      clients := clients[id := client];
      assert ClientViews() == old(ClientViews())[id := ClientView(userID, {}, {})];
    }

    method GetOrCreateRoom(r: string) returns (ok: bool)
      requires Valid()
      modifies this`rooms, db
      ensures Valid() && (ok ==> r in rooms)
      ensures (CurrentView(), ok) == ChatState.GetOrCreateRoom(old(CurrentView()), r)
    {
      assert r in rooms <==> r in RoomViews();
      hide RoomViews, ClientViews, TypeOf;
      if r in rooms {
        return true;
      }
      var roomType := TypeOf(r);
      if roomType.None? {
        return false;
      }
      if roomType.value == Public {
        OpenRoom(r, r, Public);
        return true;
      }
      ok := OpenStoredRoom(r, roomType.value);
    }

    /** A private room comes from the store; a direct room is stored first if need be. */
    method OpenStoredRoom(r: string, roomType: RoomType) returns (ok: bool)
      requires Valid() && r !in rooms && TypeOf(r) == Some(roomType) && roomType != Public
      modifies this`rooms, db
      ensures Valid() && (ok ==> r in rooms)
      ensures (CurrentView(), ok) == ChatState.GetOrCreateRoom(old(CurrentView()), r)
    {
      hide TypeOf, ChatState.GetOrCreateRoom, ClientViews;
      StoredRoomCases(CurrentView(), r, roomType);
      var stored := db.GetRoom(r);
      if stored.None? {
        if roomType == DM {
          stored := Some(StoredRoom(r, DM, r));
          StoreRoom(stored.value);
        } else {
          return false;
        }
      }
      OpenRoom(r, stored.value.id, stored.value.roomType);
      return true;
    }

    method StoreRoom(room: StoredRoom)
      modifies db
      ensures CurrentView() == old(CurrentView()).(store := old(CurrentView()).store.CreateRoom(room))
    {
      db.CreateRoom(room);
    }

    method CheckRoomPermission(client: Client, r: string) returns (allowed: bool)
      ensures allowed <==> Permitted(db.State(), client.userID, r)
    {
      if HasPrefix(r, PUBLIC_PREFIX) {
        return true;
      }
      if HasPrefix(r, DM_PREFIX) {
        var userList := Split(r[|DM_PREFIX|..]);
        for i := 0 to |userList|
          invariant client.userID !in userList[..i]
        {
          if userList[i] == client.userID {
            return true;
          }
        }
        return false;
      }
      allowed := db.IsUserInRoom(r, client.userID);
    }

    method HandleJoinRoom(client: Client, r: string)
      requires Valid() && client.id in clients && clients[client.id] == client
      modifies this`rooms, client`rooms, db
      ensures Valid() && CurrentView() == JoinRoom(old(CurrentView()), client.id, r)
    {
      var ok := GetOrCreateRoom(r);
      if !ok {
        return;
      }
      if rooms[r].roomType != Public {
        var allowed := CheckRoomPermission(client, r);
        if !allowed {
          return;
        }
      }
      Admit(client, r);
    }

    /** The client enters the room on both sides, and a private room in the store. */
    method Admit(client: Client, r: string)
      requires Valid() && client.id in clients && clients[client.id] == client && r in rooms
      modifies this`rooms, client`rooms, db
      ensures Valid() && CurrentView() == AddToRoom(old(CurrentView()), client.id, r)
    {
      var room := rooms[r];
      PutRoom(r, room.(clients := room.clients[client.id := client]));
      client.rooms := client.rooms + {r};
      if room.roomType != Public {
        db.AddRoomMember(Member(r, client.userID, "member"));
      }
      OneClientChanged(client);
      assert room.clients[client.id := client].Keys == room.clients.Keys + {client.id};
    }

    method RemoveFromRoom(r: string, id: string)
      requires Valid()
      modifies this`rooms
      ensures Valid() && RoomViews() == Without(old(RoomViews()), r, id)
    {
      ghost var before := RoomViews();
      assert r in rooms <==> r in before;
      WithoutCases(before, r, id);
      if r in rooms {
        var room := rooms[r];
        var others := room.clients - {id};
        assert others.Keys == room.clients.Keys - {id} && before[r] == RoomView(room.roomType, room.clients.Keys);
        assert |others| == 0 <==> others.Keys == {};
        hide Without, RoomViews;
        PutRoom(r, room.(clients := others));
        if |rooms[r].clients| == 0 && rooms[r].roomType != Public {
          CloseRoom(r);
        }
      }
    }

    method CloseRoom(r: string)
      requires Valid()
      modifies this`rooms
      ensures Valid() && RoomViews() == old(RoomViews()) - {r}
    {
      rooms := rooms - {r};
    }

    method HandleLeaveRoom(client: Client, r: string)
      requires Valid() && client.id in clients && clients[client.id] == client
      modifies this`rooms, client`rooms, db
      ensures Valid() && CurrentView() == LeaveRoom(old(CurrentView()), client.id, r)
    {
      if r !in client.rooms {
        return;
      }
      RemoveFromRoom(r, client.id);
      client.rooms := client.rooms - {r};
      OneClientChanged(client);
      if !HasPrefix(r, PUBLIC_PREFIX) {
        db.RemoveRoomMember(r, client.userID);
      }
    }

    method HandleClientDisconnect(client: Client)
      requires Valid() && (client.id in clients ==> clients[client.id] == client)
      modifies this`rooms, this`typingClients, this`clients, this`rateLimiters
      ensures Valid() && CurrentView() == Disconnect(old(CurrentView()), client.id, client.rooms)
      ensures rateLimiters == old(rateLimiters) - {client.id}
    {
      hide WithoutAll, WithoutTyping, RoomViews, ClientViews;
      ghost var views, before := ClientViews(), RoomViews();
      LeaveRooms(client);
      StopTyping(client.id);
      assert ClientViews() == views;
      RemoveClient(client.id);
      assert RoomViews() == WithoutAll(before, client.rooms, client.id);
      rateLimiters := rateLimiters - {client.id};
    }

    method RemoveClient(id: string)
      requires Valid()
      modifies this`clients
      ensures Valid() && ClientViews() == old(ClientViews()) - {id} && clients == old(clients) - {id}
    {
      clients := clients - {id};
    }

    method LeaveRooms(client: Client)
      requires Valid()
      modifies this`rooms
      ensures Valid() && RoomViews() == WithoutAll(old(RoomViews()), client.rooms, client.id)
    {
      ghost var before := RoomViews();
      var todo := client.rooms;
      LeavingNothing(before, client.id);
      while todo != {}
        invariant Valid() && todo <= client.rooms
        invariant RoomViews() == WithoutAll(before, client.rooms - todo, client.id)
      {
        var r :| r in todo;
        LeavingOneMore(before, client.rooms - todo, r, client.id);
        assert client.rooms - (todo - {r}) == client.rooms - todo + {r};
        RemoveFromRoom(r, client.id);
        todo := todo - {r};
      }
      assert client.rooms - {} == client.rooms;
    }

    method StopTyping(id: string)
      modifies this`typingClients
      ensures typingClients == WithoutTyping(old(typingClients), id)
    {
      var todo := typingClients.Keys;
      while todo != {}
        invariant todo <= typingClients.Keys == old(typingClients.Keys)
        invariant forall r :: r in typingClients ==>
                    typingClients[r] == if r in todo then old(typingClients)[r] else old(typingClients)[r] - {id}
      {
        var r :| r in todo;
        typingClients := typingClients[r := typingClients[r] - {id}];
        todo := todo - {r};
      }
    }

    // ---- Typing ----

    method HandleTyping(client: Client, r: string, on: bool, now: int)
      requires Valid() && client.id in clients && clients[client.id] == client
      modifies this`typingClients, client`isTyping
      ensures Valid() && CurrentView() == SetTyping(old(CurrentView()), client.id, r, on, now)
    {
      if r !in client.rooms {
        return;
      }
      SetEntry(r, client.id, on, now);
      client.SetTypingFlag(r, on);
      OneClientChanged(client);
    }

    /** One pass over the typing table. */
    method CleanupTypingIndicators(now: int)
      requires Valid()
      modifies this`typingClients, clients.Values
      ensures Valid() && CurrentView() == Cleanup(old(CurrentView()), now)
    {
      hide ClientViews, CleanTable, CleanViews, CleanRoomViews, Recent, RoomViews;
      ghost var table, views := typingClients, ClientViews();
      var todo := typingClients.Keys;
      Untouched(views, table, now);
      while todo != {}
        invariant Valid() && todo <= table.Keys
        invariant typingClients == CleanTable(table, table.Keys - todo, now)
        invariant ClientViews() == CleanViews(views, table, table.Keys - todo, now)
        invariant rooms == old(rooms) && db.State() == old(db.State())
      {
        var r :| r in todo;
        TableOneMore(table, table.Keys - todo, r, now);
        ViewsOneMore(views, table, table.Keys - todo, r, now);
        assert table.Keys - (todo - {r}) == table.Keys - todo + {r};
        CleanupRoom(r, now);
        todo := todo - {r};
      }
      assert table.Keys - {} == table.Keys;
      CleanedAll(views, table, now);
    }

    /** The entries of one room: stale ones go, and their clients' flags with them. */
    method CleanupRoom(r: string, now: int)
      requires Valid() && r in typingClients
      modifies this`typingClients, clients.Values
      ensures typingClients == var recent := Recent(old(typingClients)[r], now);
                               if recent == map[] then old(typingClients) - {r} else old(typingClients)[r := recent]
      ensures var entries := old(typingClients)[r];
              ClientViews() == CleanRoomViews(old(ClientViews()), entries, entries.Keys, r, now)
    {
      hide ClientViews, CleanRoomViews, Recent;
      var left := CleanupEntries(typingClients[r], r, now);
      if |left| == 0 {
        typingClients := typingClients - {r};
      } else {
        typingClients := typingClients[r := left];
      }
    }

    method CleanupEntries(entries: map<string, int>, r: string, now: int) returns (left: map<string, int>)
      requires Valid()
      modifies clients.Values
      ensures left == Recent(entries, now)
      ensures ClientViews() == CleanRoomViews(old(ClientViews()), entries, entries.Keys, r, now)
    {
      hide ClientViews, CleanRoomViews, EntriesLeft, Recent, Lowered;
      ghost var views := ClientViews();
      var todo := entries.Keys;
      left := entries;
      CleaningNone(views, entries, r, now);
      while todo != {}
        invariant todo <= entries.Keys
        invariant left == EntriesLeft(entries, entries.Keys - todo, now)
        invariant ClientViews() == CleanRoomViews(views, entries, entries.Keys - todo, r, now)
      {
        var c :| c in todo;
        CleaningOneMore(views, entries, entries.Keys - todo, c, r, now);
        assert entries.Keys - (todo - {c}) == entries.Keys - todo + {c};
        if Stale(entries[c], now) {
          left := left - {c};
          LowerFlag(c, r);
        }
        todo := todo - {c};
      }
      assert entries.Keys - {} == entries.Keys;
      CleaningAll(entries, now);
    }

    /** Lowers a client's flag, if the client is still connected. */
    method LowerFlag(c: string, r: string)
      requires Valid()
      modifies clients.Values
      ensures ClientViews() == Lowered(old(ClientViews()), c, r)
    {
      if c in clients {
        ViewOf(clients[c]);
        clients[c].SetTypingFlag(r, false);
        OneClientChanged(clients[c]);
      }
    }

    method SetEntry(r: string, id: string, on: bool, now: int)
      modifies this`typingClients
      ensures var entries := EntriesOf(old(typingClients), r);
              typingClients == old(typingClients)[r := if on then entries[id := now] else entries - {id}]
    {
      if r !in typingClients {
        typingClients := typingClients[r := map[]];
      }
      if on {
        typingClients := typingClients[r := typingClients[r][id := now]];
      } else {
        typingClients := typingClients[r := typingClients[r] - {id}];
      }
    }

    // ---- Rooms made from outside ----

    method CreateGroupRoom(suffix: string, name: string, creator: string) returns (r: string)
      modifies db
      ensures r == GroupRoomID(suffix)
      ensures CurrentView() == ChatState.CreateGroupRoom(old(CurrentView()), r, name, creator)
    {
      r := GROUP_PREFIX + suffix;
      db.CreateRoom(StoredRoom(r, Group, name));
      db.AddRoomMember(Member(r, creator, "owner"));
    }

    method CreateDMRoom(user1: string, user2: string) returns (r: string)
      modifies db
      ensures r == DMRoomID(user1, user2)
      ensures CurrentView() == ChatState.CreateDMRoom(old(CurrentView()), user1, user2)
    {
      hide ClientViews, RoomViews, Sorted;
      var users := Sorted(user1, user2);
      r := DM_PREFIX + users.0 + "_" + users.1;
      var stored := db.GetRoom(r);
      if stored.Some? {
        return;
      }
      db.CreateRoom(StoredRoom(r, DM, "DM: " + users.0 + ", " + users.1));
      db.AddRoomMember(Member(r, users.0, "member"));
      db.AddRoomMember(Member(r, users.1, "member"));
    }

    // ---- Rate limiting ----

    method CheckRateLimit(id: string, at: Arrival) returns (ok: bool)
      modifies this`rateLimiters
      ensures var limiter := if id in old(rateLimiters) then Some(old(rateLimiters)[id]) else None;
              var (l, pass) := Check(limiter, requests, windowSize, at);
              ok == pass && rateLimiters == old(rateLimiters)[id := l]
    {
      if id !in rateLimiters {
        rateLimiters := rateLimiters[id := RateLimit(requests, windowSize, at.created, 0)];
      }
      var limiter := rateLimiters[id];
      if at.now - limiter.lastReset >= limiter.windowSize {
        limiter := limiter.(lastReset := at.now, currentUsed := 0);
        rateLimiters := rateLimiters[id := limiter];
      }
      if limiter.currentUsed >= limiter.requests {
        return false;
      }
      rateLimiters := rateLimiters[id := limiter.(currentUsed := limiter.currentUsed + 1)];
      return true;
    }
  }

  lemma StoredRoomCases(st: Chat, r: string, t: RoomType)
    requires r !in st.rooms && TypeOf(r) == Some(t) && t != Public
    ensures ChatState.GetOrCreateRoom(st, r)
            == if r in st.store.rooms then (st.(rooms := st.rooms[r := RoomView(st.store.rooms[r].roomType, {})]), true)
               else if t == DM then
                 (st.(rooms := st.rooms[r := RoomView(DM, {})],
                      store := st.store.CreateRoom(StoredRoom(r, DM, r))), true)
               else (st, false)
  {}

  // ---- A cleanup pass, room by room ----

  function Lowered(views: map<string, ClientView>, c: string, r: string): map<string, ClientView> {
    if c in views then views[c := views[c].(typing := views[c].typing - {r})] else views
  }

  /** The clients' views after the entries of `done` have been looked at. */
  function CleanRoomViews(views: map<string, ClientView>, entries: map<string, int>, done: set<string>, r: string,
                          now: int): map<string, ClientView>
  {
    map c | c in views ::
      if c in entries && c in done && Stale(entries[c], now) then views[c].(typing := views[c].typing - {r})
      else views[c]
  }

  function EntriesLeft(entries: map<string, int>, done: set<string>, now: int): map<string, int> {
    map c | c in entries && (c !in done || !Stale(entries[c], now)) :: entries[c]
  }

  lemma CleaningNone(views: map<string, ClientView>, entries: map<string, int>, r: string, now: int)
    ensures EntriesLeft(entries, entries.Keys - entries.Keys, now) == entries
    ensures CleanRoomViews(views, entries, entries.Keys - entries.Keys, r, now) == views
  {}

  lemma CleaningAll(entries: map<string, int>, now: int)
    ensures EntriesLeft(entries, entries.Keys, now) == Recent(entries, now)
  {}

  lemma CleaningOneMore(views: map<string, ClientView>, entries: map<string, int>, done: set<string>, c: string,
                        r: string, now: int)
    requires c in entries && c !in done
    ensures var left, clean := EntriesLeft(entries, done, now), CleanRoomViews(views, entries, done, r, now);
            var left' := EntriesLeft(entries, done + {c}, now);
            var clean' := CleanRoomViews(views, entries, done + {c}, r, now);
            if Stale(entries[c], now) then left' == left - {c} && clean' == Lowered(clean, c, r)
            else left' == left && clean' == clean
  {}

  /** The table after the rooms of `done` have been cleaned. */
  function CleanTable(table: TypingTable, done: set<string>, now: int): TypingTable {
    map r | r in table && (r !in done || Recent(table[r], now) != map[]) ::
      if r in done then Recent(table[r], now) else table[r]
  }

  function CleanViews(views: map<string, ClientView>, table: TypingTable, done: set<string>, now: int)
    : map<string, ClientView>
  {
    map c | c in views :: views[c].(typing := views[c].typing - (StaleRooms(table, c, now) * done))
  }

  lemma Untouched(views: map<string, ClientView>, table: TypingTable, now: int)
    ensures CleanTable(table, table.Keys - table.Keys, now) == table
    ensures CleanViews(views, table, table.Keys - table.Keys, now) == views
  {
    assert table.Keys - table.Keys == {};
    forall c | c in views ensures views[c].(typing := views[c].typing - (StaleRooms(table, c, now) * {})) == views[c] {
      assert views[c].typing - (StaleRooms(table, c, now) * {}) == views[c].typing;
    }
  }

  lemma CleanedAll(views: map<string, ClientView>, table: TypingTable, now: int)
    ensures CleanTable(table, table.Keys, now)
            == map r | r in table && Recent(table[r], now) != map[] :: Recent(table[r], now)
    ensures CleanViews(views, table, table.Keys, now)
            == map c | c in views :: views[c].(typing := views[c].typing - StaleRooms(table, c, now))
  {
    assert forall c :: StaleRooms(table, c, now) * table.Keys == StaleRooms(table, c, now);
  }

  lemma TableOneMore(table: TypingTable, done: set<string>, r: string, now: int)
    requires r in table && r !in done
    ensures var t := CleanTable(table, done, now);
            && r in t && t[r] == table[r]
            && CleanTable(table, done + {r}, now)
               == if Recent(table[r], now) == map[] then t - {r} else t[r := Recent(table[r], now)]
  {}

  lemma ViewsOneMore(views: map<string, ClientView>, table: TypingTable, done: set<string>, r: string, now: int)
    requires r in table && r !in done
    ensures CleanViews(views, table, done + {r}, now)
            == CleanRoomViews(CleanViews(views, table, done, now), table[r], table[r].Keys, r, now)
  {
    forall c | c in views
      ensures views[c].typing - StaleRooms(table, c, now) * (done + {r})
              == if c in table[r] && Stale(table[r][c], now)
                 then views[c].typing - StaleRooms(table, c, now) * done - {r}
                 else views[c].typing - StaleRooms(table, c, now) * done
    {
      assert StaleRooms(table, c, now) * (done + {r})
             == StaleRooms(table, c, now) * done + if c in table[r] && Stale(table[r][c], now) then {r} else {};
    }
  }

  // ---- A client going from its rooms, one by one ----

  /** Going in two steps: out of the room, and a private room closed if that leaves it empty. */
  lemma WithoutCases(rooms: map<string, RoomView>, r: string, c: string)
    ensures r !in rooms ==> Without(rooms, r, c) == rooms
    ensures r in rooms ==>
              var left := rooms[r := RoomView(rooms[r].roomType, rooms[r].members - {c})];
              Without(rooms, r, c)
              == if rooms[r].members - {c} == {} && rooms[r].roomType != Public then left - {r} else left
  {}

  lemma LeavingNothing(rooms: map<string, RoomView>, c: string)
    ensures WithoutAll(rooms, {}, c) == rooms
  {}

  lemma LeavingOneMore(rooms: map<string, RoomView>, left: set<string>, r: string, c: string)
    requires r !in left
    ensures WithoutAll(rooms, left + {r}, c) == Without(WithoutAll(rooms, left, c), r, c)
  {}
}
