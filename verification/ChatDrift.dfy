/**
 * Where the server's records part: private rooms in memory and in the store, and who is listed as
 * typing. For each, the one kind of step that parts them, what that means for whole runs, and a
 * run in which it happens.
 */
module ChatDrift {
  import opened Options
  import opened RoomStore
  import opened DirectRooms
  import opened ChatState

  // ---- From steps to runs ----

  /** The state that `steps` has reached after `n` of them is one of `good`. */
  ghost predicate GoodAfter(steps: seq<Step>, n: nat, good: Chat -> bool) {
    n <= |steps| && Run(steps[..n]).Some? && good(Run(steps[..n]).value)
  }

  /** Step `n` is one of `parting`, in the state it was taken in. */
  ghost predicate PartsAt(steps: seq<Step>, n: nat, parting: (Chat, Step) -> bool) {
    n < |steps| && Run(steps[..n]).Some? && parting(Run(steps[..n]).value, steps[n])
  }

  /**
   * If of all steps exactly the `parting` ones lead out of the `good` states, then exactly the
   * runs that take none of them pass through good states only.
   */
  lemma {:induction false} GoodThroughout(steps: seq<Step>, good: Chat -> bool, parting: (Chat, Step) -> bool)
    requires Run(steps).Some? && good(Start())
    requires forall st, step :: Consistent(st) && Enabled(st, step) && good(st) ==>
               (good(Next(st, step)) <==> !parting(st, step))
    ensures (forall n: nat :: n <= |steps| ==> GoodAfter(steps, n, good))
            <==> (forall n: nat :: !PartsAt(steps, n, parting))
  {
    hide Consistent, Enabled, Next, Start;
    if steps == [] {
      assert steps[..0] == [];
    } else {
      var before, last := steps[..|steps| - 1], |steps| - 1;
      GoodThroughout(before, good, parting);
      EveryRunIsConsistent(before);
      assert steps[..|steps|] == steps;
      forall n: nat | n <= last ensures GoodAfter(steps, n, good) <==> GoodAfter(before, n, good) {
        assert steps[..n] == before[..n];
      }
      forall n: nat | n < last ensures PartsAt(steps, n, parting) <==> PartsAt(before, n, parting) {
        assert steps[..n] == before[..n] && steps[n] == before[n];
      }
      var st, step := Run(before).value, steps[last];
      assert before[..last] == before == steps[..last];
      assert good(st) ==> (good(Next(st, step)) <==> !parting(st, step));
      assert GoodAfter(before, last, good) <==> good(st);
      assert GoodAfter(steps, last + 1, good) <==> good(Next(st, step));
      assert PartsAt(steps, last, parting) <==> parting(st, step);
    }
  }

  lemma Take(before: seq<Step>, step: Step) returns (steps: seq<Step>, st: Chat)
    requires Run(before).Some? && Enabled(Run(before).value, step)
    ensures steps == before + [step] && Run(steps) == Some(st) && st == Next(Run(before).value, step)
  {
    steps := before + [step];
    assert steps[..|steps| - 1] == before;
    st := Next(Run(before).value, step);
  }

  /** Steps that neither open nor close a room, nor let anybody in or out. */
  lemma RoomsStay(st: Chat, step: Step)
    requires Consistent(st) && Enabled(st, step)
    requires step.Connecting? || step.Typing? || step.CleaningUp? || step.MakingGroup? || step.MakingDM?
    ensures var st' := Next(st, step);
            && st'.rooms == st.rooms
            && (forall d :: d in st.clients ==> d in st'.clients && st'.clients[d].userID == st.clients[d].userID)
            && (forall q, d :: IsMember(st', q, d) <==> IsMember(st, q, d))
            && (forall q, d :: IsMember(st, q, d) ==> d in st.clients)
            && (step.MakingGroup? || step.MakingDM? || st'.store == st.store)
            && (step.Typing? || step.CleaningUp? || st'.typing == st.typing)
            && (step.Typing? || forall q, d :: HasEntry(st', q, d) ==> HasEntry(st, q, d))
  {
    hide StoreAgrees, TypesAgree, TypingAgrees;
    if step.CleaningUp? {
      CleanupExact(st, step.now);
    }
  }

  // ---- Members in memory and members in the store ----

  /** Whoever is in a private room is, through his user, a stored member of it. */
  ghost predicate PrivateMembersStored(st: Chat) {
    forall q, d :: IsMember(st, q, d) && d in st.clients && !HasPrefix(q, PUBLIC_PREFIX) ==>
      st.store.IsUserInRoom(q, st.clients[d].userID)
  }

  /** Another client of the same user is in the room. */
  ghost predicate HasTwin(st: Chat, c: string, r: string)
    requires c in st.clients
  {
    exists d :: d != c && d in st.clients && IsMember(st, r, d) && st.clients[d].userID == st.clients[c].userID
  }

  /**
   * Memory and store part exactly when a client leaves a private room in which another client of
   * the same user stays: the user's stored membership goes, and the other client does not.
   */
  lemma LeaveKeepsMembersStored(st: Chat, c: string, r: string)
    requires Consistent(st) && c in st.clients && PrivateMembersStored(st)
    ensures PrivateMembersStored(LeaveRoom(st, c, r))
            <==> HasPrefix(r, PUBLIC_PREFIX) || !IsMember(st, r, c) || !HasTwin(st, c, r)
  {
    hide StoreAgrees, TypingAgrees, TypesAgree, HasPrefix, LeaveRoom, Store.IsUserInRoom, Store.RoomsOf;
    var st' := LeaveRoom(st, c, r);
    LeaveOutcome(st, c, r);
    if d :| d != c && d in st.clients && IsMember(st, r, d) && st.clients[d].userID == st.clients[c].userID {
      assert IsMember(st', r, d);
    }
    forall q, d | IsMember(st', q, d) ensures IsMember(st, q, d) {}
  }

  /** A step that keeps every client's user, lets nobody in and takes nobody out of the store. */
  lemma NobodyEnters(st: Chat, st': Chat)
    requires PrivateMembersStored(st)
    requires forall d :: d in st'.clients && d in st.clients ==> st'.clients[d].userID == st.clients[d].userID
    requires forall q, d :: IsMember(st', q, d) ==> IsMember(st, q, d) && d in st.clients
    requires forall q, v :: st.store.IsUserInRoom(q, v) ==> st'.store.IsUserInRoom(q, v)
    ensures PrivateMembersStored(st')
  {
    hide Store.IsUserInRoom, HasPrefix;
    forall q, d | IsMember(st', q, d) && d in st'.clients && !HasPrefix(q, PUBLIC_PREFIX)
      ensures st'.store.IsUserInRoom(q, st'.clients[d].userID)
    {
      assert IsMember(st, q, d);
    }
  }

  lemma JoinKeepsMembersStored(st: Chat, c: string, r: string)
    requires Consistent(st) && c in st.clients && PrivateMembersStored(st)
    ensures PrivateMembersStored(JoinRoom(st, c, r))
  {
    hide StoreAgrees, TypingAgrees, TypesAgree, HasPrefix, MayEnter, JoinRoom, Store.IsUserInRoom, Store.RoomsOf;
    JoinOutcome(st, c, r);
    var st' := JoinRoom(st, c, r);
    forall q, d | IsMember(st', q, d) && d in st'.clients && !HasPrefix(q, PUBLIC_PREFIX)
      ensures st'.store.IsUserInRoom(q, st'.clients[d].userID)
    {
      assert IsMember(st, q, d) || (q == r && d == c && MayEnter(st, st.clients[c].userID, r));
    }
  }

  /** Making a room of either kind takes nobody out of the store. */
  lemma MakingKeepsMembers(store: Store, room: StoredRoom, a: Member, b: Member)
    requires StoreAgrees(store) && room.id !in store.rooms
    ensures var store1 := store.CreateRoom(room).AddMember(a);
            forall q, v :: store.IsUserInRoom(q, v) ==>
              store1.IsUserInRoom(q, v) && store1.AddMember(b).IsUserInRoom(q, v)
  {
    MentionedIsIndexed(store, room.id);
    CreateChangesRooms(store, room);
    AddChangesOne(store.CreateRoom(room), a);
    AddChangesOne(store.CreateRoom(room).AddMember(a), b);
  }

  /** A leave that parts memory and store. */
  ghost predicate LeavesTwin(st: Chat, step: Step) {
    && step.Leaving? && step.id in st.clients
    && !HasPrefix(step.room, PUBLIC_PREFIX) && IsMember(st, step.room, step.id) && HasTwin(st, step.id, step.room)
  }

  lemma MakingKeepsMembersStored(st: Chat, step: Step)
    requires Consistent(st) && Enabled(st, step) && (step.MakingGroup? || step.MakingDM?)
    ensures forall q, v :: st.store.IsUserInRoom(q, v) ==> Next(st, step).store.IsUserInRoom(q, v)
  {
    hide StoreAgrees, TypingAgrees, TypesAgree, MembershipAgrees, Store.IsUserInRoom, Store.AddMember, Sorted, DMRoomID;
    match step
    case MakingGroup(suffix, name, creator) =>
      var r := GroupRoomID(suffix);
      var owner := Member(r, creator, "owner");
      MakingKeepsMembers(st.store, StoredRoom(r, Group, name), owner, owner);
    case MakingDM(user1, user2) =>
      var (a, b) := Sorted(user1, user2);
      var r := DMRoomID(user1, user2);
      if r !in st.store.rooms {
        var room := StoredRoom(r, DM, "DM: " + a + ", " + b);
        MakingKeepsMembers(st.store, room, Member(r, a, "member"), Member(r, b, "member"));
      }
  }

  /** Of all steps only such a leave parts memory and store. */
  lemma StepKeepsMembersStored(st: Chat, step: Step)
    requires Consistent(st) && Enabled(st, step) && PrivateMembersStored(st)
    ensures PrivateMembersStored(Next(st, step)) <==> !LeavesTwin(st, step)
  {
    hide StoreAgrees, TypingAgrees, TypesAgree, PrivateMembersStored, HasTwin, HasPrefix, JoinRoom, LeaveRoom,
         Store.IsUserInRoom;
    var st' := Next(st, step);
    match step
    case Joining(id, r) => JoinKeepsMembersStored(st, id, r);
    case Leaving(id, r) => LeaveKeepsMembersStored(st, id, r);
    case Disconnecting(id) =>
      DisconnectOutcome(st, id, st.clients[id].rooms);
      NobodyEnters(st, st');
    case DisconnectingAgain(id, rooms) =>
      DisconnectOutcome(st, id, rooms);
      NobodyEnters(st, st');
    case MakingGroup(_, _, _) =>
      hide Next;
      MakingKeepsMembersStored(st, step);
      RoomsStay(st, step);
      NobodyEnters(st, st');
    case MakingDM(_, _) =>
      hide Next;
      MakingKeepsMembersStored(st, step);
      RoomsStay(st, step);
      NobodyEnters(st, st');
    case _ =>
      hide Next;
      RoomsStay(st, step);
      NobodyEnters(st, st');
  }

  lemma StartHasNobody()
    ensures Start().clients == map[] && Start().typing == map[]
    ensures forall q, c :: !IsMember(Start(), q, c)
    ensures forall r :: r in Start().store.rooms ==> TypeOf(r) == Some(Public)
  {
    DefaultRoomIDs();
  }

  ghost predicate MembersAlwaysStored(steps: seq<Step>) {
    forall n: nat :: n <= |steps| ==> GoodAfter(steps, n, PrivateMembersStored)
  }

  ghost predicate SomeTwinLeaves(steps: seq<Step>) {
    exists n: nat :: PartsAt(steps, n, LeavesTwin)
  }

  /**
   * Memory and store agree on the members of private rooms in every state of a run if and only if
   * no step of it is a leave of a private room in which another client of the same user stays.
   */
  lemma MembersStoredThroughout(steps: seq<Step>)
    requires Run(steps).Some?
    ensures MembersAlwaysStored(steps) <==> !SomeTwinLeaves(steps)
  {
    hide Start, PrivateMembersStored, LeavesTwin, Consistent, Enabled, Next;
    assert PrivateMembersStored(Start()) by {
      StartHasNoMembers();
    }
    forall st, step | Consistent(st) && Enabled(st, step) && PrivateMembersStored(st)
      ensures PrivateMembersStored(Next(st, step)) <==> !LeavesTwin(st, step)
    {
      StepKeepsMembersStored(st, step);
    }
    GoodThroughout(steps, PrivateMembersStored, LeavesTwin);
  }

  lemma StartHasNoMembers()
    ensures PrivateMembersStored(Start()) && TypistsPresent(Start())
  {
    StartHasNobody();
  }

  /** For every user with two clients a run in which memory and store part, at its last step. */
  lemma MembersStoredMayPart(a: string, b: string, userID: string, suffix: string, name: string)
    returns (steps: seq<Step>)
    requires a != b
    ensures |steps| > 0 && Run(steps).Some?
    ensures GoodAfter(steps, |steps| - 1, PrivateMembersStored) && !PrivateMembersStored(Run(steps).value)
  {
    hide Run, Consistent, Next, PrivateMembersStored;
    var r := GroupRoomID(suffix);
    var st;
    steps, st := TwinsInGroup(a, b, userID, suffix, name);
    MembersStoredThroughout(steps);
    assert steps[..|steps|] == steps && GoodAfter(steps, |steps|, PrivateMembersStored);
    EveryRunIsConsistent(steps);
    PrefixesAreExclusive(r);
    assert HasTwin(st, a, r);
    StepKeepsMembersStored(st, Leaving(a, r));
    ghost var before := steps;
    steps, st := Take(steps, Leaving(a, r));
    assert steps[..|steps| - 1] == before;
  }

  /** Two clients of one user in a group that this user has made, where nobody has left anything. */
  lemma TwinsInGroup(a: string, b: string, userID: string, suffix: string, name: string)
    returns (steps: seq<Step>, st: Chat)
    requires a != b
    ensures Run(steps) == Some(st) && (forall i :: 0 <= i < |steps| ==> !steps[i].Leaving?)
    ensures a in st.clients && b in st.clients && st.clients[a].userID == st.clients[b].userID == userID
    ensures IsMember(st, GroupRoomID(suffix), a) && IsMember(st, GroupRoomID(suffix), b)
  {
    hide Run, Consistent, JoinRoom;
    var r := GroupRoomID(suffix);
    steps, st := TwinsAndGroup(a, b, userID, suffix, name);
    EveryRunIsConsistent(steps);
    PrefixesAreExclusive(r);
    JoinOutcome(st, a, r);
    steps, st := Take(steps, Joining(a, r));
    EveryRunIsConsistent(steps);
    JoinOutcome(st, b, r);
    steps, st := Take(steps, Joining(b, r));
  }

  lemma TwinsAndGroup(a: string, b: string, userID: string, suffix: string, name: string)
    returns (steps: seq<Step>, st: Chat)
    requires a != b
    ensures Run(steps) == Some(st) && (forall i :: 0 <= i < |steps| ==> !steps[i].Leaving?)
    ensures a in st.clients && b in st.clients && st.clients[a].userID == st.clients[b].userID == userID
    ensures MayEnter(st, userID, GroupRoomID(suffix))
  {
    var r := GroupRoomID(suffix);
    steps, st := Twins(a, b, userID);
    hide Run, Consistent, Start, CreateGroupRoom, MayEnter, TypeOf;
    EveryRunIsConsistent(steps);
    PrefixesAreExclusive(r);
    assert TypeOf(r) == Some(Group) && r !in st.store.rooms;
    GroupRoomOutcome(st, r, name, userID);
    RoomsStay(st, MakingGroup(suffix, name, userID));
    steps, st := Take(steps, MakingGroup(suffix, name, userID));
  }

  lemma Twins(a: string, b: string, userID: string) returns (steps: seq<Step>, st: Chat)
    requires a != b
    ensures Run(steps) == Some(st) && (forall i :: 0 <= i < |steps| ==> !steps[i].Leaving?)
    ensures st == Start().(clients := map[a := ClientView(userID, {}, {}), b := ClientView(userID, {}, {})])
    ensures forall r :: r in st.store.rooms ==> TypeOf(r) == Some(Public)
  {
    assert Run([]) == Some(Start());
    StartHasNobody();
    hide Run, Start;
    steps, st := Take([], Connecting(a, userID));
    steps, st := Take(steps, Connecting(b, userID));
  }

  // ---- Who is listed as typing ----

  /** Whoever is listed as typing in a room is in it. */
  ghost predicate TypistsPresent(st: Chat) {
    forall q, d :: HasEntry(st, q, d) ==> IsMember(st, q, d)
  }

  /** A leave that keeps the client listed. */
  ghost predicate LeavesTyping(st: Chat, step: Step) {
    step.Leaving? && HasEntry(st, step.room, step.id)
  }

  /** Of all steps only the leave of a client that is typing in that room leaves it listed there. */
  lemma StepKeepsTypistsPresent(st: Chat, step: Step)
    requires Consistent(st) && Enabled(st, step) && TypistsPresent(st)
    ensures TypistsPresent(Next(st, step)) <==> !LeavesTyping(st, step)
  {
    hide Consistent, JoinRoom, LeaveRoom, Disconnect, SetTyping, Cleanup;
    match step
    case Joining(id, r) =>
      JoinOutcome(st, id, r);
    case Leaving(id, r) =>
      LeaveOutcome(st, id, r);
      assert HasEntry(st, r, id) <==> HasEntry(Next(st, step), r, id);
    case Disconnecting(id) =>
      DisconnectOutcome(st, id, st.clients[id].rooms);
    case DisconnectingAgain(id, rooms) =>
      DisconnectOutcome(st, id, rooms);
    case Typing(id, r, on, now) =>
      TypingOutcome(st, id, r, on, now);
    case _ =>
      hide Next;
      RoomsStay(st, step);
  }

  ghost predicate TypistsAlwaysPresent(steps: seq<Step>) {
    forall n: nat :: n <= |steps| ==> GoodAfter(steps, n, TypistsPresent)
  }

  ghost predicate SomeTypistLeaves(steps: seq<Step>) {
    exists n: nat :: PartsAt(steps, n, LeavesTyping)
  }

  /**
   * Everybody listed as typing in a room is in it in every state of a run if and only if no step
   * of it is the leave of a client that is typing there.
   */
  lemma TypistsPresentThroughout(steps: seq<Step>)
    requires Run(steps).Some?
    ensures TypistsAlwaysPresent(steps) <==> !SomeTypistLeaves(steps)
  {
    hide Start, TypistsPresent, LeavesTyping, Consistent, Enabled, Next;
    StartHasNoMembers();
    forall st, step | Consistent(st) && Enabled(st, step) && TypistsPresent(st)
      ensures TypistsPresent(Next(st, step)) <==> !LeavesTyping(st, step)
    {
      StepKeepsTypistsPresent(st, step);
    }
    GoodThroughout(steps, TypistsPresent, LeavesTyping);
  }

  /** For every client and every public room a run that leaves the client listed and not there. */
  lemma TypistMayBeAbsent(id: string, userID: string, r: string, now: int) returns (steps: seq<Step>)
    requires TypeOf(r) == Some(Public)
    ensures Run(steps).Some? && HasEntry(Run(steps).value, r, id) && !IsMember(Run(steps).value, r, id)
  {
    hide Run, Consistent, LeaveRoom;
    var st;
    steps, st := TypistInRoom(id, userID, r, now);
    EveryRunIsConsistent(steps);
    LeaveOutcome(st, id, r);
    steps, st := Take(steps, Leaving(id, r));
    assert HasEntry(st, r, id);
  }

  lemma TypistInRoom(id: string, userID: string, r: string, now: int) returns (steps: seq<Step>, st: Chat)
    requires TypeOf(r) == Some(Public)
    ensures Run(steps) == Some(st) && id in st.clients && HasEntry(st, r, id)
  {
    hide Run, Consistent, SetTyping;
    steps, st := ClientInRoom(id, userID, r);
    EveryRunIsConsistent(steps);
    TypingOutcome(st, id, r, true, now);
    TypingKeepsClients(st, id, r, true, now);
    steps, st := Take(steps, Typing(id, r, true, now));
  }

  lemma ClientInRoom(id: string, userID: string, r: string) returns (steps: seq<Step>, st: Chat)
    requires TypeOf(r) == Some(Public)
    ensures Run(steps) == Some(st) && id in st.clients && IsMember(st, r, id)
  {
    assert Run([]) == Some(Start());
    StartHasNobody();
    hide Run, Consistent, Start, JoinRoom;
    steps, st := Take([], Connecting(id, userID));
    EveryRunIsConsistent(steps);
    JoinOutcome(st, id, r);
    steps, st := Take(steps, Joining(id, r));
  }

  lemma TypingKeepsClients(st: Chat, c: string, r: string, on: bool, now: int)
    requires c in st.clients
    ensures c in SetTyping(st, c, r, on, now).clients
  {}
}
