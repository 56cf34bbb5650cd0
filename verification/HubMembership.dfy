/**
 * Joining, leaving and closing as a protocol between many sockets and one hub. A request is handed
 * over on an unbuffered channel; afterwards the hub applies it and the socket updates its own rooms,
 * in either order and with anything else in between. A socket that closes copies its own rooms,
 * leaves each of them and is then deleted, and requests of other callers may come in between.
 */
module HubMembership {
  import opened Options
  import opened HubRooms

  /** `Quit` is the leave that closing a socket asks for. */
  datatype Request = Join(room: string, id: Id) | Leave(room: string, id: Id) | Quit(room: string, id: Id) {
    function OnHub(rooms: Rooms): Rooms {
      if Join? then JoinRooms(rooms, room, id) else LeaveRooms(rooms, room, id)
    }

    function OnSocket(own: set<string>): set<string> {
      if Join? then own + {room} else own - {room}
    }
  }

  /**
   * `hand` is the request the hub has received and not applied; `pending` has, for each socket
   * that holds its room lock, the request it has handed over and not yet entered in its own set;
   * `closing` has, for each socket that closes or has closed, the copied rooms still to be quit.
   */
  datatype State = State(sockets: set<Id>, rooms: Rooms, hand: Option<Request>,
                         own: map<Id, set<string>>, pending: map<Id, Request>, closing: map<Id, set<string>>)

  const START := State({}, map[], None, map[], map[], map[])

  datatype Step =
    | Add(id: Id)
    | CopyRooms(id: Id)
    | Delete(id: Id)
    | HandOver(request: Request)
    | Apply
    | Update(id: Id)

  function Own(st: State, id: Id): set<string> {
    if id in st.own then st.own[id] else {}
  }

  /** A socket that was added; its ID is never given again. */
  predicate Known(st: State, id: Id) {
    id in st.sockets || id in st.closing
  }

  /** A socket that has closed. */
  predicate Deleted(st: State, id: Id) {
    id in st.closing && id !in st.sockets
  }

  /**
   * The hub receives only when it has nothing in hand; a socket sends, and its rooms are copied,
   * only when it has nothing pending. A socket closes once, and is deleted when it has quit all.
   */
  predicate Enabled(st: State, step: Step) {
    match step
    case Add(id) => st.hand == None && !Known(st, id)
    case CopyRooms(id) => id in st.sockets && id !in st.closing && id !in st.pending
    case Delete(id) => st.hand == None && id in st.sockets && id in st.closing && st.closing[id] == {}
    case HandOver(q) =>
      && st.hand == None && Known(st, q.id) && q.id !in st.pending
      && (q.Quit? ==> q.room in ToQuit(st, q.id))
    case Apply => st.hand.Some?
    case Update(id) => id in st.pending
  }

  function Next(st: State, step: Step): State
    requires Enabled(st, step)
  {
    match step
    case Add(id) => st.(sockets := st.sockets + {id})
    case CopyRooms(id) => st.(closing := st.closing[id := Own(st, id)])
    case Delete(id) => st.(sockets := st.sockets - {id})
    case HandOver(q) => st.(hand := Some(q), pending := st.pending[q.id := q])
    case Apply => st.(hand := None, rooms := st.hand.value.OnHub(st.rooms))
    case Update(id) =>
      var q := st.pending[id];
      st.(own := st.own[id := q.OnSocket(Own(st, id))], pending := st.pending - {id},
          closing := if q.Quit? then st.closing[id := ToQuit(st, id) - {q.room}] else st.closing)
  }

  function ToQuit(st: State, id: Id): set<string> {
    if id in st.closing then st.closing[id] else {}
  }

  /** The hub's rooms once the request in its hand is applied. */
  function RoomsToBe(st: State): Rooms {
    if st.hand.Some? then st.hand.value.OnHub(st.rooms) else st.rooms
  }

  /** A socket's rooms once its pending request is entered. */
  function OwnToBe(st: State, id: Id): set<string> {
    if id in st.pending then st.pending[id].OnSocket(Own(st, id)) else Own(st, id)
  }

  ghost predicate Agree(st: State) {
    forall r, s :: s in Members(RoomsToBe(st), r) <==> r in OwnToBe(st, s)
  }

  ghost predicate Invariant(st: State) {
    Agree(st) && NoEmptyRoom(st.rooms)
  }

  lemma OnHubMembers(q: Request, rooms: Rooms)
    ensures forall r, s :: s in Members(q.OnHub(rooms), r)
                           <==> (if r == q.room && s == q.id then q.Join? else s in Members(rooms, r))
    ensures NoEmptyRoom(rooms) ==> NoEmptyRoom(q.OnHub(rooms))
  {
    JoinAddsOne(rooms, q.room, q.id);
    LeaveRemovesOne(rooms, q.room, q.id);
  }

  lemma StepKeepsInvariant(st: State, step: Step)
    requires Invariant(st) && Enabled(st, step)
    ensures Invariant(Next(st, step))
  {
    var st' := Next(st, step);
    match step
    case HandOver(q) =>
      OnHubMembers(q, st.rooms);
      forall r, s ensures s in Members(RoomsToBe(st'), r) <==> r in OwnToBe(st', s) {
        assert s in Members(RoomsToBe(st), r) <==> r in OwnToBe(st, s);
      }
    case Apply =>
      OnHubMembers(st.hand.value, st.rooms);
      assert RoomsToBe(st') == RoomsToBe(st);
      assert forall s :: OwnToBe(st', s) == OwnToBe(st, s);
    case _ =>
      assert RoomsToBe(st') == RoomsToBe(st);
      assert forall s :: OwnToBe(st', s) == OwnToBe(st, s);
  }

  /** The state after a run, if every step of it was enabled when it was taken. */
  function Run(steps: seq<Step>): Option<State> {
    if steps == [] then Some(START)
    else
      match Run(steps[..|steps| - 1])
      case None => None
      case Some(st) =>
        var step := steps[|steps| - 1];
        if Enabled(st, step) then Some(Next(st, step)) else None
  }

  /**
   * In every state of every run, under every interleaving: with what is in hand and what is
   * pending counted in, a socket is in a room's map exactly when the room is in the socket's own
   * set. No room is ever empty, and once nothing is in hand or pending the two agree as they are.
   */
  lemma {:induction false} MembershipAgrees(steps: seq<Step>)
    requires Run(steps).Some?
    ensures var st := Run(steps).value;
            && Invariant(st)
            && (st.hand == None && st.pending == map[] ==>
                  forall r, s :: s in Members(st.rooms, r) <==> r in Own(st, s))
  {
    var st := Run(steps).value;
    if steps == [] {
      assert forall r, s :: s in Members(RoomsToBe(START), r) <==> r in OwnToBe(START, s);
    } else {
      MembershipAgrees(steps[..|steps| - 1]);
      StepKeepsInvariant(Run(steps[..|steps| - 1]).value, steps[|steps| - 1]);
    }
    if st.hand == None && st.pending == map[] {
      forall r, s ensures s in Members(st.rooms, r) <==> r in Own(st, s) {
        assert s in Members(RoomsToBe(st), r) <==> r in OwnToBe(st, s);
      }
    }
  }

  // ---- Closing ----

  /** A request for a socket to be out of a room. */
  predicate TakesOut(step: Step, id: Id, r: string) {
    step.HandOver? && !step.request.Join? && step.request.id == id && step.request.room == r
  }

  /** The rooms a socket was made to join since its rooms were copied, less those it left again. */
  function Rejoined(steps: seq<Step>, id: Id): set<string> {
    if steps == [] then {}
    else
      var before := Rejoined(steps[..|steps| - 1], id);
      match steps[|steps| - 1]
      case CopyRooms(c) => if c == id then {} else before
      case HandOver(q) => if q.id == id then q.OnSocket(before) else before
      case _ => before
  }

  /** Step `i` hands over a join that stands: the rooms were not copied, nor this one left, after it. */
  predicate JoinStands(steps: seq<Step>, id: Id, r: string, i: nat) {
    && i < |steps| && steps[i] == HandOver(Join(r, id))
    && forall j :: i < j < |steps| ==> steps[j] != CopyRooms(id) && !TakesOut(steps[j], id, r)
  }

  lemma {:induction false} RejoinedExactly(steps: seq<Step>, id: Id, r: string)
    ensures r in Rejoined(steps, id) <==> exists i: nat :: JoinStands(steps, id, r, i)
  {
    if steps != [] {
      var last := |steps| - 1;
      var before, step := steps[..last], steps[last];
      RejoinedExactly(before, id, r);
      if step == HandOver(Join(r, id)) {
        assert JoinStands(steps, id, r, last);
      } else if step == CopyRooms(id) || TakesOut(step, id, r) {
        assert forall i: nat :: i < last ==> !JoinStands(steps, id, r, i);
      } else {
        assert forall i: nat :: JoinStands(steps, id, r, i) <==> JoinStands(before, id, r, i);
      }
    }
  }

  /** While a socket closes it is in no rooms but those still to be quit and those joined since. */
  ghost predicate ClosingKnown(st: State, id: Id, rejoined: set<string>) {
    id in st.closing ==> rejoined <= OwnToBe(st, id) <= rejoined + ToQuit(st, id)
  }

  /** Requests are those of sockets that were added, a quit is of one that closes, and deletion ends all quits. */
  ghost predicate RequestsKnown(st: State) {
    && (forall id :: id in st.own ==> Known(st, id))
    && (forall id :: id in st.pending ==>
          Known(st, id) && st.pending[id].id == id && (st.pending[id].Quit? ==> st.pending[id].room in ToQuit(st, id)))
    && (forall id, r :: r in ToQuit(st, id) ==> id in st.sockets)
  }

  lemma StepKeepsRequests(st: State, step: Step)
    requires RequestsKnown(st) && Enabled(st, step)
    ensures RequestsKnown(Next(st, step))
  {
    var st' := Next(st, step);
    forall id, r | r in ToQuit(st', id) ensures id in st'.sockets {
      assert r in ToQuit(st, id) || step == CopyRooms(id);
    }
  }

  lemma StepKeepsClosing(st: State, step: Step, id: Id, rejoined: set<string>)
    requires RequestsKnown(st) && ClosingKnown(st, id, rejoined) && Enabled(st, step)
    ensures var rejoined' := match step
                             case CopyRooms(c) => if c == id then {} else rejoined
                             case HandOver(q) => if q.id == id then q.OnSocket(rejoined) else rejoined
                             case _ => rejoined;
            ClosingKnown(Next(st, step), id, rejoined')
  {}

  lemma {:induction false} RunKeepsClosing(steps: seq<Step>, id: Id)
    requires Run(steps).Some?
    ensures RequestsKnown(Run(steps).value) && ClosingKnown(Run(steps).value, id, Rejoined(steps, id))
  {
    if steps != [] {
      var before, step := steps[..|steps| - 1], steps[|steps| - 1];
      RunKeepsClosing(before, id);
      StepKeepsRequests(Run(before).value, step);
      StepKeepsClosing(Run(before).value, step, id, Rejoined(before, id));
    }
  }

  predicate CopiedAt(steps: seq<Step>, id: Id, n: nat) {
    n < |steps| && steps[n] == CopyRooms(id)
  }

  /** A socket that closes or has closed has had its rooms copied, and once. */
  lemma {:induction false} CopiedOnce(steps: seq<Step>, id: Id)
    requires Run(steps).Some?
    ensures id in Run(steps).value.closing <==> exists n: nat :: CopiedAt(steps, id, n)
    ensures forall m: nat, n: nat :: CopiedAt(steps, id, m) && CopiedAt(steps, id, n) ==> m == n
  {
    if steps != [] {
      var before, last := steps[..|steps| - 1], |steps| - 1;
      CopiedOnce(before, id);
      RunKeepsClosing(before, id);
      assert forall n: nat :: n < last ==> (CopiedAt(steps, id, n) <==> CopiedAt(before, id, n));
      if steps[last] == CopyRooms(id) {
        assert CopiedAt(steps, id, last);
      }
    }
  }

  /**
   * What closing achieves, under every interleaving: the socket's rooms were copied once, and from
   * its deletion on it is, with what the hub has in hand counted in, in exactly the rooms for which
   * a join was handed over after that and no leave since. So it is in no room if and only if there
   * was no such join.
   */
  lemma DeletedSocketRooms(steps: seq<Step>, id: Id) returns (n: nat)
    requires Run(steps).Some? && Deleted(Run(steps).value, id)
    ensures forall m: nat :: CopiedAt(steps, id, m) <==> m == n
    ensures var st := Run(steps).value;
            forall r :: id in Members(RoomsToBe(st), r) <==> exists i: nat :: i > n && JoinStands(steps, id, r, i)
  {
    MembershipAgrees(steps);
    RunKeepsClosing(steps, id);
    CopiedOnce(steps, id);
    n :| CopiedAt(steps, id, n);
    var st := Run(steps).value;
    forall r ensures id in Members(RoomsToBe(st), r) <==> exists i: nat :: i > n && JoinStands(steps, id, r, i) {
      assert id in Members(RoomsToBe(st), r) <==> r in OwnToBe(st, id);
      RejoinedExactly(steps, id, r);
    }
  }

  /** For every socket and room a run that deletes the socket and leaves it in the room. */
  lemma LateJoinStays(id: Id, r: string) returns (steps: seq<Step>)
    ensures Run(steps).Some?
    ensures var st := Run(steps).value;
            Deleted(st, id) && st.hand == None && st.pending == map[] && id in Members(st.rooms, r)
  {
    assert Run([]) == Some(START);
    hide Run;
    var st;
    steps, st := Take([], Add(id));
    steps, st := Take(steps, CopyRooms(id));
    steps, st := Take(steps, HandOver(Join(r, id)));
    steps, st := Take(steps, Apply);
    steps, st := Take(steps, Update(id));
    steps, st := Take(steps, Delete(id));
  }

  lemma Take(before: seq<Step>, step: Step) returns (steps: seq<Step>, st: State)
    requires Run(before).Some? && Enabled(Run(before).value, step)
    ensures steps == before + [step] && Run(steps) == Some(st) && st == Next(Run(before).value, step)
  {
    steps := before + [step];
    assert steps[..|steps| - 1] == before;
    st := Next(Run(before).value, step);
  }
}
