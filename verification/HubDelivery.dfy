/**
 * Broadcasts and roomcasts over several hubs that an adapter connects. Each hub takes one
 * message at a time; the adapter passes a message at most once to each other hub and never back
 * to its origin, in any order and at any time; sockets join and leave meanwhile.
 */
module HubDelivery {
  import opened Options
  import opened HubRooms

  type HubId = nat

  /** A message sent through `origin`; `except` names sockets to leave out. */
  datatype Sent = Sent(origin: HubId, room: Option<string>, except: set<Id>)

  /** Who was addressed when a hub handled a message, and whom the message it saw left out. */
  datatype Handling = Handling(audience: set<Id>, except: set<Id>)

  /** `toBackend` has the messages handed to the adapter, each with the hubs attached at that point. */
  datatype State = State(
    views: map<HubId, View>,
    backed: set<HubId>,
    sent: map<nat, Sent>,
    queued: set<nat>,
    toBackend: map<nat, set<HubId>>,
    passed: set<(nat, HubId)>,
    inFlight: map<(nat, HubId), set<Id>>,
    handled: map<(nat, HubId), Handling>,
    delivered: multiset<(nat, Id)>)

  datatype Step =
    | ChangeView(hub: HubId, view: View)
    | Attach(hub: HubId)
    | Send(key: nat, message: Sent)
    | FromSocket(key: nat)
    | Pass(key: nat, hub: HubId, except: set<Id>)
    | FromBackend(key: nat, hub: HubId)

  function ViewOf(st: State, h: HubId): View {
    if h in st.views then st.views[h] else View({}, map[])
  }

  /** The sockets of a view, connected or left over in a room. */
  predicate Local(view: View, h: HubId, home: Id -> HubId) {
    && (forall s :: s in view.sockets ==> home(s) == h)
    && (forall r :: r in view.rooms ==> forall s :: s in view.rooms[r] ==> home(s) == h)
  }

  /**
   * `home` says which hub a socket connected to. The adapter may pass a message's exceptions on
   * or leave them behind.
   */
  predicate Enabled(st: State, step: Step, home: Id -> HubId) {
    match step
    case ChangeView(h, view) => Local(view, h, home)
    case Attach(_) => true
    case Send(k, m) => k !in st.sent
    case FromSocket(k) => k in st.queued && k in st.sent
    case Pass(k, h, except) =>
      && k in st.toBackend && k in st.sent && h in st.backed && h != st.sent[k].origin && (k, h) !in st.passed
      && (except == st.sent[k].except || except == {})
    case FromBackend(k, h) => (k, h) in st.inFlight && k in st.sent
  }

  function Deliver(k: nat, ids: set<Id>): multiset<(nat, Id)> {
    multiset(set s | s in ids :: (k, s))
  }

  function Handle(st: State, k: nat, h: HubId, except: set<Id>): State
    requires k in st.sent
  {
    var audience := Audience(ViewOf(st, h), st.sent[k].room);
    st.(handled := st.handled[(k, h) := Handling(audience, except)],
        delivered := st.delivered + Deliver(k, audience - except))
  }

  function Next(st: State, step: Step, home: Id -> HubId): State
    requires Enabled(st, step, home)
  {
    match step
    case ChangeView(h, view) => st.(views := st.views[h := view])
    case Attach(h) => st.(backed := st.backed + {h})
    case Send(k, m) => st.(sent := st.sent[k := m], queued := st.queued + {k})
    case FromSocket(k) =>
      var h := st.sent[k].origin;
      Handle(st, k, h, st.sent[k].except)
        .(queued := st.queued - {k}, toBackend := if h in st.backed then st.toBackend[k := st.backed] else st.toBackend)
    case Pass(k, h, except) =>
      st.(passed := st.passed + {(k, h)}, inFlight := st.inFlight[(k, h) := except])
    case FromBackend(k, h) =>
      Handle(st, k, h, st.inFlight[(k, h)]).(inFlight := st.inFlight - {(k, h)})
  }

  const START := State(map[], {}, map[], {}, map[], {}, map[], map[], multiset{})

  function Run(steps: seq<Step>, home: Id -> HubId): Option<State> {
    if steps == [] then Some(START)
    else
      match Run(steps[..|steps| - 1], home)
      case None => None
      case Some(st) =>
        var step := steps[|steps| - 1];
        if Enabled(st, step, home) then Some(Next(st, step, home)) else None
  }

  /** At its origin a message is still queued or handled, and handed over only once it is handled. */
  ghost predicate RoutedAtOrigin(st: State) {
    && (forall k :: k in st.queued ==> k in st.sent && (k, st.sent[k].origin) !in st.handled && k !in st.toBackend)
    && (forall k :: k in st.sent && k !in st.queued ==> (k, st.sent[k].origin) in st.handled)
    && (forall k :: k in st.toBackend ==> k in st.sent)
  }

  /** At any other hub a message that was passed is in flight or handled, and no other is either. */
  ghost predicate RoutedElsewhere(st: State) {
    && (forall p :: p in st.passed ==> p.0 in st.sent && p.1 != st.sent[p.0].origin
                                       && (p in st.inFlight <==> p !in st.handled))
    && (forall p :: p in st.inFlight ==> p in st.passed)
    && (forall p :: p in st.handled ==> p.0 in st.sent && (p.1 == st.sent[p.0].origin || p in st.passed))
  }

  /** Each message is, at each hub, still on its way or handled, and never both. */
  ghost predicate Routed(st: State) {
    RoutedAtOrigin(st) && RoutedElsewhere(st)
  }

  /** What a hub saw of a message's exceptions. */
  ghost predicate ExceptionsCarried(st: State) {
    && (forall p :: p in st.inFlight ==> p.0 in st.sent
                                         && (st.inFlight[p] == st.sent[p.0].except || st.inFlight[p] == {}))
    && (forall p :: p in st.handled ==>
          && p.0 in st.sent
          && (st.handled[p].except == st.sent[p.0].except
              || (st.handled[p].except == {} && p.1 != st.sent[p.0].origin)))
  }

  ghost predicate AllLocal(st: State, home: Id -> HubId) {
    && (forall h :: h in st.views ==> Local(st.views[h], h, home))
    && (forall p :: p in st.handled ==> forall s :: s in st.handled[p].audience ==> home(s) == p.1)
  }

  /** A socket got a message as often as its own hub handled it for that socket. */
  ghost predicate Accounted(st: State, home: Id -> HubId) {
    forall k, s :: st.delivered[(k, s)] == Due(st, k, s, home)
  }

  function Due(st: State, k: nat, s: Id, home: Id -> HubId): nat {
    if (k, home(s)) in st.handled
       && s in st.handled[(k, home(s))].audience - st.handled[(k, home(s))].except then 1 else 0
  }

  ghost predicate Invariant(st: State, home: Id -> HubId) {
    Routed(st) && ExceptionsCarried(st) && AllLocal(st, home) && Accounted(st, home)
  }

  lemma DeliverCounts(k: nat, ids: set<Id>)
    ensures forall j, s :: Deliver(k, ids)[(j, s)] == if j == k && s in ids then 1 else 0
  {}

  lemma AudienceIsLocal(view: View, room: Option<string>, h: HubId, home: Id -> HubId)
    requires Local(view, h, home)
    ensures forall s :: s in Audience(view, room) ==> home(s) == h
  {}

  /** Handling a message that this hub has not handled delivers it to each of its sockets once. */
  lemma HandleAccounts(st: State, k: nat, h: HubId, except: set<Id>, home: Id -> HubId)
    requires k in st.sent && (k, h) !in st.handled
    requires AllLocal(st, home) && Accounted(st, home)
    ensures AllLocal(Handle(st, k, h, except), home) && Accounted(Handle(st, k, h, except), home)
  {
    var audience := Audience(ViewOf(st, h), st.sent[k].room);
    AudienceIsLocal(ViewOf(st, h), st.sent[k].room, h, home);
    DeliverCounts(k, audience - except);
    var st' := Handle(st, k, h, except);
    forall j, s ensures st'.delivered[(j, s)] == Due(st', j, s, home) {
      assert st.delivered[(j, s)] == Due(st, j, s, home);
    }
  }

  lemma StepKeepsRouted(st: State, step: Step, home: Id -> HubId)
    requires Routed(st) && Enabled(st, step, home)
    ensures Routed(Next(st, step, home))
  {
    hide RoutedAtOrigin, RoutedElsewhere, Enabled, Next;
    StepKeepsOrigin(st, step, home);
    StepKeepsElsewhere(st, step, home);
  }

  lemma StepKeepsOrigin(st: State, step: Step, home: Id -> HubId)
    requires Routed(st) && Enabled(st, step, home)
    ensures RoutedAtOrigin(Next(st, step, home))
  {
    hide Local, Audience, Deliver;
  }

  lemma StepKeepsElsewhere(st: State, step: Step, home: Id -> HubId)
    requires Routed(st) && Enabled(st, step, home)
    ensures RoutedElsewhere(Next(st, step, home))
  {
    if step.FromSocket? || step.FromBackend? {
      HandlingKeepsElsewhere(st, step, home);
    } else {
      hide Local;
    }
  }

  lemma HandlingKeepsElsewhere(st: State, step: Step, home: Id -> HubId)
    requires Routed(st) && Enabled(st, step, home) && (step.FromSocket? || step.FromBackend?)
    ensures RoutedElsewhere(Next(st, step, home))
  {
    hide Local, Audience, Deliver, ViewOf;
  }

  lemma StepKeepsExceptions(st: State, step: Step, home: Id -> HubId)
    requires Routed(st) && ExceptionsCarried(st) && Enabled(st, step, home)
    ensures ExceptionsCarried(Next(st, step, home))
  {}

  lemma StepKeepsAccounts(st: State, step: Step, home: Id -> HubId)
    requires Routed(st) && AllLocal(st, home) && Accounted(st, home) && Enabled(st, step, home)
    ensures AllLocal(Next(st, step, home), home) && Accounted(Next(st, step, home), home)
  {
    var st' := Next(st, step, home);
    match step
    case FromSocket(k) =>
      HandleAccounts(st, k, st.sent[k].origin, st.sent[k].except, home);
      SameAccounts(Handle(st, k, st.sent[k].origin, st.sent[k].except), st', home);
    case FromBackend(k, h) =>
      HandleAccounts(st, k, h, st.inFlight[(k, h)], home);
      SameAccounts(Handle(st, k, h, st.inFlight[(k, h)]), st', home);
    case _ =>
      SameAccounts(st, st', home);
  }

  lemma SameAccounts(st: State, st': State, home: Id -> HubId)
    requires Accounted(st, home) && st'.handled == st.handled && st'.delivered == st.delivered
    ensures Accounted(st', home)
  {
    forall k, s ensures st'.delivered[(k, s)] == Due(st', k, s, home) {
      assert st.delivered[(k, s)] == Due(st, k, s, home);
    }
  }

  lemma {:induction false} RunKeepsInvariant(steps: seq<Step>, home: Id -> HubId)
    requires Run(steps, home).Some?
    ensures Invariant(Run(steps, home).value, home)
  {
    if steps != [] {
      var st, step := Run(steps[..|steps| - 1], home).value, steps[|steps| - 1];
      RunKeepsInvariant(steps[..|steps| - 1], home);
      StepKeepsRouted(st, step, home);
      StepKeepsExceptions(st, step, home);
      StepKeepsAccounts(st, step, home);
    }
  }

  /** A step after which this hub has handled this message. */
  predicate Handles(st: State, step: Step, k: nat, h: HubId) {
    && k in st.sent
    && ((step == FromSocket(k) && h == st.sent[k].origin) || step == FromBackend(k, h))
  }

  lemma StepRecords(st: State, step: Step, home: Id -> HubId, k: nat, h: HubId)
    requires Invariant(st, home) && Enabled(st, step, home)
    ensures var st' := Next(st, step, home);
            if Handles(st, step, k, h) then
              (k, h) in st'.handled && st'.handled[(k, h)].audience == Audience(ViewOf(st, h), st.sent[k].room)
            else
              ((k, h) in st'.handled <==> (k, h) in st.handled)
              && ((k, h) in st.handled ==> st'.handled[(k, h)] == st.handled[(k, h)])
  {
    hide AllLocal, Accounted, ExceptionsCarried, Audience, ViewOf, Deliver;
  }

  /**
   * What is recorded as addressed is what was: there is a point of the run at which the hub
   * handled the message, and the audience is the hub's socket map or the room at that point.
   */
  lemma {:induction false} AudienceWasAddressed(steps: seq<Step>, home: Id -> HubId, k: nat, h: HubId) returns (n: nat)
    requires Run(steps, home).Some? && (k, h) in Run(steps, home).value.handled
    ensures n < |steps| && Run(steps[..n], home).Some?
    ensures var st := Run(steps[..n], home).value;
            && Handles(st, steps[n], k, h)
            && Run(steps, home).value.handled[(k, h)].audience
               == match st.sent[k].room
                  case None => ViewOf(st, h).sockets
                  case Some(r) => if r in ViewOf(st, h).rooms then ViewOf(st, h).rooms[r] else {}
  {
    hide Enabled, Next, Invariant, Handles;
    var last := |steps| - 1;
    var before := steps[..last];
    var st, step := Run(before, home).value, steps[last];
    RunKeepsInvariant(before, home);
    StepRecords(st, step, home, k, h);
    if Handles(st, step, k, h) {
      n := last;
    } else {
      n := AudienceWasAddressed(before, home, k, h);
      assert before[..n] == steps[..n] && before[n] == steps[n];
    }
  }

  /** A step that hands a message over to the adapter. */
  predicate HandsOver(st: State, step: Step, k: nat) {
    step == FromSocket(k) && k in st.sent && st.sent[k].origin in st.backed
  }

  lemma StepHandsOver(st: State, step: Step, home: Id -> HubId, k: nat)
    requires Enabled(st, step, home)
    ensures var st' := Next(st, step, home);
            if HandsOver(st, step, k) then
              k in st'.toBackend && st'.toBackend[k] == st.backed
            else
              (k in st'.toBackend <==> k in st.toBackend) && (k in st.toBackend ==> st'.toBackend[k] == st.toBackend[k])
  {}

  /** What is recorded as attached is what was, at the point of the run of the hand-over. */
  lemma {:induction false} AttachedAtHandOver(steps: seq<Step>, home: Id -> HubId, k: nat) returns (n: nat)
    requires Run(steps, home).Some? && k in Run(steps, home).value.toBackend
    ensures n < |steps| && Run(steps[..n], home).Some?
    ensures var st := Run(steps[..n], home).value;
            HandsOver(st, steps[n], k) && Run(steps, home).value.toBackend[k] == st.backed
  {
    hide Enabled, Next, HandsOver;
    var last := |steps| - 1;
    var before := steps[..last];
    var st, step := Run(before, home).value, steps[last];
    StepHandsOver(st, step, home, k);
    if HandsOver(st, step, k) {
      n := last;
    } else {
      n := AttachedAtHandOver(before, home, k);
      assert before[..n] == steps[..n] && before[n] == steps[n];
    }
  }

  /** Whatever was handled by a hub with a backend stays handed over. */
  lemma {:induction false} HandOverStays(steps: seq<Step>, home: Id -> HubId, k: nat, n: nat)
    requires Run(steps, home).Some? && n < |steps| && Run(steps[..n], home).Some?
    requires var st := Run(steps[..n], home).value;
             steps[n] == FromSocket(k) && k in st.sent && st.sent[k].origin in st.backed
    ensures k in Run(steps, home).value.toBackend
    decreases |steps|
  {
    hide Enabled, Next;
    var last := |steps| - 1;
    var before := steps[..last];
    StepHandsOver(Run(before, home).value, steps[last], home, k);
    if n < last {
      assert before[..n] == steps[..n] && before[n] == steps[n];
      HandOverStays(before, home, k, n);
    }
  }

  /** `except` names only sockets of the hub the message was sent through. */
  predicate ExceptsOwnSockets(m: Sent, home: Id -> HubId) {
    forall s :: s in m.except ==> home(s) == m.origin
  }

  /**
   * In every reachable state a socket has received a message at most once; and exactly once if
   * and only if its hub has handled the message, the socket was addressed when it did, and the
   * message does not except it.
   */
  lemma AtMostOnce(steps: seq<Step>, home: Id -> HubId, k: nat, s: Id)
    requires Run(steps, home).Some?
    ensures var st := Run(steps, home).value;
            && st.delivered[(k, s)] <= 1
            && (k in st.sent && ExceptsOwnSockets(st.sent[k], home) ==>
                  (st.delivered[(k, s)] == 1
                   <==> (k, home(s)) in st.handled && s in st.handled[(k, home(s))].audience - st.sent[k].except))
  {
    RunKeepsInvariant(steps, home);
    var st := Run(steps, home).value;
    assert st.delivered[(k, s)] == Due(st, k, s, home);
  }

  /** Nothing waits for a hub, and the adapter has passed all it was handed to all that were attached then. */
  ghost predicate Drained(st: State) {
    && st.queued == {} && st.inFlight == map[]
    && forall k, h :: k in st.toBackend && k in st.sent && h in st.toBackend[k] && h != st.sent[k].origin ==>
         (k, h) in st.passed
  }

  /**
   * Once the channels drain, every message has been handled by the hub it was sent through and, if
   * that hub had a backend when it handled the message, by every hub that had one then.
   */
  lemma DrainedMeansHandled(steps: seq<Step>, home: Id -> HubId, k: nat, h: HubId)
    requires Run(steps, home).Some? && Drained(Run(steps, home).value)
    ensures var st := Run(steps, home).value;
            k in st.sent && (h == st.sent[k].origin || (k in st.toBackend && h in st.toBackend[k])) ==>
              (k, h) in st.handled
  {
    RunKeepsInvariant(steps, home);
    var st := Run(steps, home).value;
    if k in st.sent && k in st.toBackend && h in st.toBackend[k] && h != st.sent[k].origin {
      assert (k, h) in st.passed;
    }
  }

  /** A handled message reached exactly those it addressed, less the exceptions, after draining. */
  lemma ExactlyOnceWhenDrained(steps: seq<Step>, home: Id -> HubId, k: nat, s: Id)
    requires Run(steps, home).Some? && Drained(Run(steps, home).value)
    requires var st := Run(steps, home).value;
             && k in st.sent && ExceptsOwnSockets(st.sent[k], home)
             && (home(s) == st.sent[k].origin || (k in st.toBackend && home(s) in st.toBackend[k]))
    ensures var st := Run(steps, home).value;
            && (k, home(s)) in st.handled
            && st.delivered[(k, s)]
               == if s in st.handled[(k, home(s))].audience && s !in st.sent[k].except then 1 else 0
  {
    DrainedMeansHandled(steps, home, k, home(s));
    AtMostOnce(steps, home, k, s);
  }

  // ---- The condition on exceptions is exact ----

  /** One socket, alone in whatever the message addresses. */
  function AloneIn(room: Option<string>, s: Id): View {
    View({s}, match room case None => map[] case Some(r) => map[r := {s}])
  }

  /**
   * Whatever message is sent, and whichever socket of another hub it excepts: an adapter that
   * leaves the exceptions behind delivers it to that socket.
   */
  lemma ForeignExceptionMayBeIgnored(m: Sent, s: Id, home: Id -> HubId) returns (steps: seq<Step>)
    requires s in m.except && home(s) != m.origin
    ensures Run(steps, home).Some?
    ensures var st := Run(steps, home).value;
            0 in st.sent && st.sent[0] == m && st.delivered[(0, s)] == 1
  {
    hide Run;
    var st;
    steps, st := Setup(m, s, home);
    steps, st := Take(steps, FromSocket(0), home);
    steps, st := Take(steps, Pass(0, home(s), {}), home);
    steps, st := Take(steps, FromBackend(0, home(s)), home);
    RunKeepsInvariant(steps, home);
    assert st.delivered[(0, s)] == Due(st, 0, s, home);
  }

  /** Two hubs with a backend, one socket on the second, and a message sent through the first. */
  lemma Setup(m: Sent, s: Id, home: Id -> HubId) returns (steps: seq<Step>, st: State)
    requires home(s) != m.origin
    ensures Run(steps, home) == Some(st)
    ensures st == TwoHubs(m, s, home).(sent := map[0 := m], queued := {0})
  {
    hide Run, Enabled, Next;
    steps, st := SetupHubs(m, s, home);
    SendNext(st, 0, m, home);
    steps, st := Take(steps, Send(0, m), home);
  }

  lemma SetupHubs(m: Sent, s: Id, home: Id -> HubId) returns (steps: seq<Step>, st: State)
    ensures Run(steps, home) == Some(st) && st == TwoHubs(m, s, home)
  {
    hide Run, Enabled, Next, AloneIn;
    steps, st := SetupView(m, s, home);
    AttachNext(st, m.origin, home);
    steps, st := Take(steps, Attach(m.origin), home);
    AttachNext(st, home(s), home);
    steps, st := Take(steps, Attach(home(s)), home);
  }

  lemma SetupView(m: Sent, s: Id, home: Id -> HubId) returns (steps: seq<Step>, st: State)
    ensures Run(steps, home) == Some(st) && st == START.(views := map[home(s) := AloneIn(m.room, s)])
  {
    assert Run([], home) == Some(START);
    hide Run, Enabled, Next, AloneIn, Local;
    AloneIsLocal(m.room, s, home);
    ViewNext(START, home(s), AloneIn(m.room, s), home);
    steps, st := Take([], ChangeView(home(s), AloneIn(m.room, s)), home);
  }

  lemma ViewNext(st: State, h: HubId, view: View, home: Id -> HubId)
    ensures Local(view, h, home) ==> Enabled(st, ChangeView(h, view), home)
                                     && Next(st, ChangeView(h, view), home) == st.(views := st.views[h := view])
  {}

  lemma AttachNext(st: State, h: HubId, home: Id -> HubId)
    ensures Enabled(st, Attach(h), home) && Next(st, Attach(h), home) == st.(backed := st.backed + {h})
  {}

  lemma SendNext(st: State, k: nat, m: Sent, home: Id -> HubId)
    requires k !in st.sent
    ensures Enabled(st, Send(k, m), home)
    ensures Next(st, Send(k, m), home) == st.(sent := st.sent[k := m], queued := st.queued + {k})
  {}

  function TwoHubs(m: Sent, s: Id, home: Id -> HubId): State {
    START.(views := map[home(s) := AloneIn(m.room, s)], backed := {m.origin, home(s)})
  }

  lemma AloneIsLocal(room: Option<string>, s: Id, home: Id -> HubId)
    ensures Local(AloneIn(room, s), home(s), home)
  {}

  lemma Take(before: seq<Step>, step: Step, home: Id -> HubId) returns (steps: seq<Step>, st: State)
    requires Run(before, home).Some? && Enabled(Run(before, home).value, step, home)
    ensures steps == before + [step] && Run(steps, home) == Some(st)
    ensures st == Next(Run(before, home).value, step, home)
  {
    steps := before + [step];
    assert steps[..|steps| - 1] == before;
    st := Next(Run(before, home).value, step, home);
  }

  /** In this state no socket has received a message that is `m` and excepts it. */
  ghost predicate ExceptionsKept(st: State, m: Sent) {
    forall k, s :: k in st.sent && st.sent[k] == m && s in m.except ==> st.delivered[(k, s)] == 0
  }

  /**
   * A message is never delivered to a socket it excepts, in any state of any run, if and only if
   * it excepts only sockets of the hub it is sent through.
   */
  lemma ExceptionsKeptExactly(m: Sent, home: Id -> HubId)
    ensures (forall steps :: Run(steps, home).Some? ==> ExceptionsKept(Run(steps, home).value, m))
            <==> ExceptsOwnSockets(m, home)
  {
    if ExceptsOwnSockets(m, home) {
      forall steps | Run(steps, home).Some? ensures ExceptionsKept(Run(steps, home).value, m) {
        var st := Run(steps, home).value;
        forall k, s | k in st.sent && st.sent[k] == m && s in m.except ensures st.delivered[(k, s)] == 0 {
          AtMostOnce(steps, home, k, s);
        }
      }
    } else {
      var s :| s in m.except && home(s) != m.origin;
      var steps := ForeignExceptionMayBeIgnored(m, s, home);
      assert !ExceptionsKept(Run(steps, home).value, m);
    }
  }
}
