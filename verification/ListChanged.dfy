/** Coalesced `list_changed` notifications as steps that interleave freely: calls
    that schedule a flush, flushes that sleep, clear their flag and publish, and
    subscribers that come and go. */
module ListChanged {
  import opened Wrappers

  datatype Kind = Tools | Resources | Prompts

  datatype RequestId = Number(n: int) | Text(s: string)

  /** A draft subscription: the connection and the id of its listen request. */
  datatype SubId = SubId(connection: string, request: RequestId)

  datatype Filter = Filter(tools: Option<bool>, resources: Option<bool>, prompts: Option<bool>)

  predicate Wants(k: Kind, f: Filter) {
    match k
    case Tools => f.tools == Some(true)
    case Resources => f.resources == Some(true)
    case Prompts => f.prompts == Some(true)
  }

  /** How far a flush has come: asleep with its flag set, flag cleared, sending to the
      subscriptions of its first snapshot, sending to the sessions of its second. */
  datatype Phase =
    | Sleeping
    | Cleared
    | ToDraft(subs: seq<SubId>)
    | ToLegacy(routes: seq<(string, string)>)

  datatype Flush = Flush(kind: Kind, phase: Phase)

  datatype Target = Subscription(id: SubId) | Session(session: string)

  /** One notification sent, and the flush that sent it. */
  datatype Note = Note(flush: nat, to: Target)

  /** `routes` maps legacy sessions to their pipe connection, or to "" without one;
      `writers` are the streams a message can be sent on. */
  datatype State = State(
    pending: set<Kind>,
    flushes: seq<Flush>,
    subs: map<SubId, Filter>,
    routes: map<string, string>,
    writers: set<string>,
    notes: seq<Note>)

  const INIT := State({}, [], map[], map[], {}, [])

  const MAX_LEGACY_ROUTES: nat := 4096

  /** The stream id of a session's GET stream. */
  function StreamId(session: string): string { "http-get-" + session }

  datatype Event =
    | Schedule(kind: Kind)
    | Wake(flush: nat)
    | SnapshotDraft(flush: nat, order: seq<SubId>)
    | SendDraft(flush: nat)
    | SnapshotLegacy(flush: nat, sessions: seq<string>)
    | SendLegacy(flush: nat)
    | Insert(id: SubId, filter: Filter)
    | Remove(id: SubId)
    | CloseAll
    | Touch(session: string, connection: Option<string>, victim: string)
    | DropRoute(session: string)
    | Connect(writer: string)
    | Disconnect(writer: string)

  ghost predicate Distinct<T(!new)>(xs: seq<T>) { forall i, j | 0 <= i < j < |xs| :: xs[i] != xs[j] }

  ghost predicate Enumerates<T(!new)>(xs: seq<T>, all: set<T>) {
    Distinct(xs) && forall x :: x in xs <==> x in all
  }

  ghost function Wanting(s: State, k: Kind): set<SubId> { set id | id in s.subs && Wants(k, s.subs[id]) }

  function WithPhase(s: State, f: nat, phase: Phase): State
    requires f < |s.flushes|
  {
    s.(flushes := s.flushes[f := s.flushes[f].(phase := phase)])
  }

  /** Whether a session can be reached on its GET stream or the given pipe. */
  predicate HasWriter(s: State, session: string, connection: string) {
    StreamId(session) in s.writers || (connection != "" && connection in s.writers)
  }

  function Routes(s: State, order: seq<string>): seq<(string, string)>
    requires forall x | x in order :: x in s.routes
  {
    seq(|order|, i requires 0 <= i < |order| => (order[i], s.routes[order[i]]))
  }

  function Touched(routes: map<string, string>, session: string, connection: Option<string>, victim: string): map<string, string> {
    var room := if session !in routes && |routes| >= MAX_LEGACY_ROUTES then routes - {victim} else routes;
    room[session := if connection.Some? then connection.value else if session in room then room[session] else ""]
  }

  predicate IsFlushStep(e: Event) {
    e.Wake? || e.SnapshotDraft? || e.SendDraft? || e.SnapshotLegacy? || e.SendLegacy?
  }

  /** A flush takes its next step. */
  ghost function FlushStep(s: State, e: Event): Option<State>
    requires IsFlushStep(e)
  {
    var f := e.flush;
    if f >= |s.flushes| then None
    else
      var kind, phase := s.flushes[f].kind, s.flushes[f].phase;
      match e
      // The sleep ends: the flag is cleared before anything is read.
      case Wake(_) =>
        if phase.Sleeping? then Some(WithPhase(s, f, Cleared).(pending := s.pending - {kind})) else None
      case SnapshotDraft(_, order) =>
        if phase.Cleared? && Enumerates(order, Wanting(s, kind)) then Some(WithPhase(s, f, ToDraft(order))) else None
      // A subscription whose connection is gone is pruned instead.
      case SendDraft(_) =>
        if !phase.ToDraft? || phase.subs == [] then None
        else
          var id := phase.subs[0];
          var s' := WithPhase(s, f, ToDraft(phase.subs[1..]));
          if id.connection in s.writers then Some(s'.(notes := s.notes + [Note(f, Subscription(id))]))
          else Some(s'.(subs := s.subs - {id}))
      case SnapshotLegacy(_, sessions) =>
        if phase.ToDraft? && phase.subs == [] && Enumerates(sessions, s.routes.Keys) then
          Some(WithPhase(s, f, ToLegacy(Routes(s, sessions))))
        else None
      // A session without a stream is skipped, and keeps its route.
      case SendLegacy(_) =>
        if !phase.ToLegacy? || phase.routes == [] then None
        else
          var (session, connection) := phase.routes[0];
          var s' := WithPhase(s, f, ToLegacy(phase.routes[1..]));
          if HasWriter(s, session, connection) then Some(s'.(notes := s.notes + [Note(f, Session(session))])) else Some(s')
  }

  ghost function Step(s: State, e: Event): Option<State> {
    match e
    case Schedule(k) =>
      if k in s.pending then Some(s)
      else Some(s.(pending := s.pending + {k}, flushes := s.flushes + [Flush(k, Sleeping)]))
    case Insert(id, filter) => Some(s.(subs := s.subs[id := filter]))
    case Remove(id) => Some(s.(subs := s.subs - {id}))
    case CloseAll => Some(s.(subs := map[]))
    case Touch(session, connection, victim) =>
      if victim in s.routes || |s.routes| < MAX_LEGACY_ROUTES || session in s.routes then
        Some(s.(routes := Touched(s.routes, session, connection, victim)))
      else None
    case DropRoute(session) => Some(s.(routes := s.routes - {session}))
    case Connect(w) => Some(s.(writers := s.writers + {w}))
    case Disconnect(w) => Some(s.(writers := s.writers - {w}))
    case _ => FlushStep(s, e)
  }

  /** A run: the states it passes through and the event between each two. */
  ghost predicate IsRun(states: seq<State>, events: seq<Event>) {
    && |states| == |events| + 1
    && states[0] == INIT
    && forall i | 0 <= i < |events| :: Step(states[i], events[i]) == Some(states[i + 1])
  }

  // ---- what the events say ----------------------------------------------------------------

  /** Whether a stream was last connected, not disconnected. */
  function IsOpen(events: seq<Event>, n: nat, w: string): bool
    requires n <= |events|
  {
    if n == 0 then false
    else if events[n - 1] == Connect(w) then true
    else if events[n - 1] == Disconnect(w) then false
    else IsOpen(events, n - 1, w)
  }

  /** A flush comes to a subscription and finds its connection gone. */
  predicate Prunes(s: State, e: Event, id: SubId, open: bool) {
    && e.SendDraft? && e.flush < |s.flushes|
    && var phase := s.flushes[e.flush].phase;
       phase.ToDraft? && phase.subs != [] && phase.subs[0] == id && !open
  }

  /** The filter a subscription was last inserted with, if it has not been removed or
      found gone since. */
  ghost function FilterAt(states: seq<State>, events: seq<Event>, n: nat, id: SubId): Option<Filter>
    requires |states| == |events| + 1 && n <= |events|
  {
    if n == 0 then None
    else
      var e := events[n - 1];
      if e.Insert? && e.id == id then Some(e.filter)
      else if e == Remove(id) || e.CloseAll? || Prunes(states[n - 1], e, id, IsOpen(events, n - 1, id.connection)) then None
      else FilterAt(states, events, n - 1, id)
  }

  /** The connection a session was last seen on, "" if it never had one, unless it was
      removed or made room for another since. */
  ghost function RouteAt(states: seq<State>, events: seq<Event>, n: nat, session: string): Option<string>
    requires |states| == |events| + 1 && n <= |events|
  {
    if n == 0 then None
    else
      var before, e := RouteAt(states, events, n - 1, session), events[n - 1];
      if e.Touch? && e.session == session then
        Some(if e.connection.Some? then e.connection.value else if before.Some? then before.value else "")
      else if e == DropRoute(session) then None
      else if e.Touch? && e.victim == session && RouteAt(states, events, n - 1, e.session).None? && |states[n - 1].routes| >= 4096
      then None
      else before
  }

  ghost predicate SubTells(states: seq<State>, events: seq<Event>, n: nat, id: SubId)
    requires |states| == |events| + 1 && n <= |events|
  {
    FilterAt(states, events, n, id) == if id in states[n].subs then Some(states[n].subs[id]) else None
  }

  ghost predicate RouteTells(states: seq<State>, events: seq<Event>, n: nat, session: string)
    requires |states| == |events| + 1 && n <= |events|
  {
    RouteAt(states, events, n, session) == if session in states[n].routes then Some(states[n].routes[session]) else None
  }

  ghost predicate StreamTells(states: seq<State>, events: seq<Event>, n: nat, w: string)
    requires |states| == |events| + 1 && n <= |events|
  {
    IsOpen(events, n, w) <==> w in states[n].writers
  }

  /** In every run the subscriptions, routes and streams are those that the events made
      and did not undo; and there are never more than 4096 routes. */
  lemma {:induction false} EventsAccountFor(states: seq<State>, events: seq<Event>, n: nat)
    requires IsRun(states, events) && n < |states|
    ensures forall id :: SubTells(states, events, n, id)
    ensures forall session :: RouteTells(states, events, n, session)
    ensures forall w :: StreamTells(states, events, n, w)
    ensures |states[n].routes| <= 4096
  {
    if n > 0 {
      var m: nat := n - 1;
      EventsAccountFor(states, events, m);
      var s, e, s' := states[m], events[m], states[n];
      assert Step(s, e) == Some(s');
      forall w ensures StreamTells(states, events, n, w) {
        assert StreamTells(states, events, m, w);
        WritersStep(s, e, s', w);
      }
      forall id ensures SubTells(states, events, n, id) {
        assert SubTells(states, events, m, id) && StreamTells(states, events, m, id.connection);
        SubsStep(s, e, s', id);
      }
      forall session ensures RouteTells(states, events, n, session) {
        assert RouteTells(states, events, m, session);
        if e.Touch? { assert RouteTells(states, events, m, e.session); }
        RoutesStep(s, e, s', session);
      }
      RoutesBound(s, e, s');
    }
  }

  lemma WritersStep(s: State, e: Event, s': State, w: string)
    requires Step(s, e) == Some(s')
    ensures w in s'.writers <==> e == Connect(w) || (w in s.writers && e != Disconnect(w))
  {
  }

  /** A step inserts, removes or keeps a subscription. */
  ghost predicate SubMoves(s: State, e: Event, s': State, id: SubId) {
    if e.Insert? && e.id == id then id in s'.subs && s'.subs[id] == e.filter
    else if e == Remove(id) || e.CloseAll? || Prunes(s, e, id, id.connection in s.writers) then id !in s'.subs
    else (id in s'.subs <==> id in s.subs) && (id in s.subs ==> s'.subs[id] == s.subs[id])
  }

  lemma SubsStep(s: State, e: Event, s': State, id: SubId)
    requires Step(s, e) == Some(s')
    ensures SubMoves(s, e, s', id)
  {
    if e.SendDraft? {
      SubsSent(s, e, s', id);
    } else if IsFlushStep(e) {
      FlushFrame(s, e, s');
    }
  }

  lemma FlushFrame(s: State, e: Event, s': State)
    requires IsFlushStep(e) && FlushStep(s, e) == Some(s')
    ensures s'.routes == s.routes && s'.writers == s.writers
    ensures !e.SendDraft? ==> s'.subs == s.subs
  {
  }

  lemma SubsSent(s: State, e: Event, s': State, id: SubId)
    requires e.SendDraft? && Step(s, e) == Some(s')
    ensures SubMoves(s, e, s', id)
  {
  }

  lemma RoutesStep(s: State, e: Event, s': State, session: string)
    requires Step(s, e) == Some(s')
    ensures if e.Touch? && e.session == session then
              && session in s'.routes
              && s'.routes[session] ==
                 if e.connection.Some? then e.connection.value else if session in s.routes then s.routes[session] else ""
            else if e == DropRoute(session) || (e.Touch? && e.victim == session && e.session !in s.routes && |s.routes| >= 4096)
            then session !in s'.routes
            else (session in s'.routes <==> session in s.routes) && (session in s.routes ==> s'.routes[session] == s.routes[session])
  {
  }

  lemma RoutesBound(s: State, e: Event, s': State)
    requires Step(s, e) == Some(s') && |s.routes| <= 4096
    ensures |s'.routes| <= 4096
  {
    if e.Touch? {
      TouchedBound(s.routes, e.session, e.connection, e.victim);
    } else if e.DropRoute? {
      SizeWithout(s.routes, e.session);
    } else if IsFlushStep(e) {
      FlushFrame(s, e, s');
    }
  }

  lemma TouchedBound(routes: map<string, string>, session: string, connection: Option<string>, victim: string)
    requires |routes| <= 4096
    requires victim in routes || |routes| < MAX_LEGACY_ROUTES || session in routes
    ensures |Touched(routes, session, connection, victim)| <= 4096
  {
    SizeWithout(routes, victim);
    var room := if session !in routes && |routes| >= MAX_LEGACY_ROUTES then routes - {victim} else routes;
    assert Touched(routes, session, connection, victim).Keys == room.Keys + {session};
    if session in routes { assert room.Keys + {session} == routes.Keys; }
  }

  lemma SizeWithout(routes: map<string, string>, session: string)
    ensures |routes - {session}| == if session in routes then |routes| - 1 else |routes|
  {
    assert (routes - {session}).Keys == routes.Keys - {session};
    if session !in routes { assert routes.Keys - {session} == routes.Keys; }
  }

  // ---- what every state keeps -----------------------------------------------------------

  ghost predicate IsSleeping(s: State, f: nat, k: Kind) {
    f < |s.flushes| && s.flushes[f] == Flush(k, Sleeping)
  }

  /** A flag is set exactly when one flush of its kind is still before its clear. */
  ghost predicate FlagsExact(s: State) {
    && (forall k | k in s.pending :: exists f: nat :: IsSleeping(s, f, k))
    && (forall f, k | IsSleeping(s, f, k) :: k in s.pending)
    && (forall f, g, k | IsSleeping(s, f, k) && IsSleeping(s, g, k) :: f == g)
  }

  /** Whom flush `f` still has to notify. */
  ghost predicate Awaits(s: State, f: nat, to: Target) {
    && f < |s.flushes|
    && match s.flushes[f].phase
       case Sleeping => true
       case Cleared => true
       case ToDraft(subs) => to.Subscription? ==> to.id in subs
       case ToLegacy(routes) => to.Session? && exists i | 0 <= i < |routes| :: routes[i].0 == to.session
  }

  ghost predicate PhaseOk(p: Phase) {
    match p
    case ToDraft(subs) => Distinct(subs)
    case ToLegacy(routes) => forall i, j | 0 <= i < j < |routes| :: routes[i].0 != routes[j].0
    case _ => true
  }

  /** Nobody who is still to be notified by a flush was notified by it, nor anybody
      twice. */
  ghost predicate NotesOk(s: State) {
    && Distinct(s.notes)
    && (forall i | 0 <= i < |s.notes| :: s.notes[i].flush < |s.flushes| && !Awaits(s, s.notes[i].flush, s.notes[i].to))
    && (forall f | 0 <= f < |s.flushes| :: PhaseOk(s.flushes[f].phase))
  }

  lemma FlagsSchedule(s: State, k: Kind, s': State)
    requires FlagsExact(s) && Step(s, Schedule(k)) == Some(s')
    ensures FlagsExact(s')
  {
    if k !in s.pending {
      assert forall g, l :: IsSleeping(s', g, l) <==> IsSleeping(s, g, l) || (g == |s.flushes| && l == k);
      forall l | l in s'.pending ensures exists f: nat :: IsSleeping(s', f, l) {
        if l == k {
          assert IsSleeping(s', |s.flushes|, k);
        } else {
          var f: nat :| IsSleeping(s, f, l);
          assert IsSleeping(s', f, l);
        }
      }
    }
  }

  lemma FlagsWake(s: State, f: nat, s': State)
    requires FlagsExact(s) && Step(s, Wake(f)) == Some(s')
    ensures FlagsExact(s')
  {
    assert IsSleeping(s, f, s.flushes[f].kind);
    assert forall g, l :: IsSleeping(s', g, l) <==> IsSleeping(s, g, l) && g != f;
    forall l | l in s'.pending ensures exists g: nat :: IsSleeping(s', g, l) {
      var g: nat :| IsSleeping(s, g, l);
      assert IsSleeping(s', g, l);
    }
  }

  lemma FlagsKept(s: State, s': State)
    requires FlagsExact(s) && s'.pending == s.pending
    requires forall g, l :: IsSleeping(s', g, l) <==> IsSleeping(s, g, l)
    ensures FlagsExact(s')
  {
    forall l | l in s'.pending ensures exists g: nat :: IsSleeping(s', g, l) {
      var g: nat :| IsSleeping(s, g, l);
      assert IsSleeping(s', g, l);
    }
  }

  /** A step of a flush that is past its clear. */
  lemma FlagsMoved(s: State, f: nat, s': State)
    requires FlagsExact(s) && f < |s.flushes| && !s.flushes[f].phase.Sleeping? && s'.pending == s.pending
    requires |s'.flushes| == |s.flushes| && !s'.flushes[f].phase.Sleeping?
    requires forall g | 0 <= g < |s.flushes| && g != f :: s'.flushes[g] == s.flushes[g]
    ensures FlagsExact(s')
  {
    FlagsKept(s, s');
  }

  lemma FlagsSame(s: State, s': State)
    requires FlagsExact(s) && s'.pending == s.pending && s'.flushes == s.flushes
    ensures FlagsExact(s')
  {
    FlagsKept(s, s');
  }

  lemma FlagsFlushStep(s: State, e: Event, s': State)
    requires FlagsExact(s) && Step(s, e) == Some(s')
    requires e.SnapshotDraft? || e.SendDraft? || e.SnapshotLegacy? || e.SendLegacy?
    ensures FlagsExact(s')
  {
    FlagsMoved(s, e.flush, s');
  }

  lemma FlagsStep(s: State, e: Event, s': State)
    requires FlagsExact(s) && Step(s, e) == Some(s')
    ensures FlagsExact(s')
  {
    match e
    case Schedule(k) => FlagsSchedule(s, k, s');
    case Wake(f) => FlagsWake(s, f, s');
    case SnapshotDraft(_, _) => FlagsFlushStep(s, e, s');
    case SendDraft(_) => FlagsFlushStep(s, e, s');
    case SnapshotLegacy(_, _) => FlagsFlushStep(s, e, s');
    case SendLegacy(_) => FlagsFlushStep(s, e, s');
    case _ => FlagsSame(s, s');
  }

  /** A flush that sends nothing and awaits nobody new. */
  lemma NotesMoved(s: State, f: nat, phase: Phase)
    requires NotesOk(s) && f < |s.flushes| && PhaseOk(phase)
    requires forall to | Awaits(WithPhase(s, f, phase), f, to) :: Awaits(s, f, to)
    ensures NotesOk(WithPhase(s, f, phase))
  {
    var s' := WithPhase(s, f, phase);
    forall i | 0 <= i < |s'.notes| ensures !Awaits(s', s'.notes[i].flush, s'.notes[i].to) {
      assert !Awaits(s, s.notes[i].flush, s.notes[i].to);
    }
  }

  lemma NotesKept(s: State, s': State)
    requires NotesOk(s) && s'.notes == s.notes && s'.flushes == s.flushes
    ensures NotesOk(s')
  {
    forall i | 0 <= i < |s'.notes| ensures !Awaits(s', s'.notes[i].flush, s'.notes[i].to) {
      assert !Awaits(s, s.notes[i].flush, s.notes[i].to);
    }
  }

  lemma NotesSchedule(s: State, k: Kind, s': State)
    requires NotesOk(s) && Step(s, Schedule(k)) == Some(s')
    ensures NotesOk(s')
  {
    forall i | 0 <= i < |s'.notes| ensures !Awaits(s', s'.notes[i].flush, s'.notes[i].to) {
      assert !Awaits(s, s.notes[i].flush, s.notes[i].to);
    }
  }

  lemma NotesStep(s: State, e: Event, s': State)
    requires NotesOk(s) && Step(s, e) == Some(s')
    ensures NotesOk(s')
  {
    match e
    case Schedule(k) => NotesSchedule(s, k, s');
    case Wake(f) =>
      NotesMoved(s, f, Cleared);
      NotesKept(WithPhase(s, f, Cleared), s');
    case SnapshotDraft(f, order) => NotesMoved(s, f, ToDraft(order));
    case SendDraft(f) => SendDraftNotes(s, f, s');
    case SnapshotLegacy(f, sessions) => NotesMoved(s, f, ToLegacy(Routes(s, sessions)));
    case SendLegacy(f) => SendLegacyNotes(s, f, s');
    case _ => NotesKept(s, s');
  }

  lemma SendDraftNotes(s: State, f: nat, s': State)
    requires NotesOk(s) && Step(s, SendDraft(f)) == Some(s')
    ensures NotesOk(s')
  {
    var id := s.flushes[f].phase.subs[0];
    assert Awaits(s, f, Subscription(id));
    forall i | 0 <= i < |s'.notes| ensures !Awaits(s', s'.notes[i].flush, s'.notes[i].to) {
      if i < |s.notes| {
        assert !Awaits(s, s.notes[i].flush, s.notes[i].to);
      }
    }
    forall i | 0 <= i < |s.notes| ensures s.notes[i] != Note(f, Subscription(id)) {
      assert !Awaits(s, s.notes[i].flush, s.notes[i].to);
    }
  }

  lemma SendLegacyNotes(s: State, f: nat, s': State)
    requires NotesOk(s) && Step(s, SendLegacy(f)) == Some(s')
    ensures NotesOk(s')
  {
    var routes := s.flushes[f].phase.routes;
    var session := routes[0].0;
    assert Awaits(s, f, Session(session));
    forall i | 0 <= i < |s'.notes| ensures !Awaits(s', s'.notes[i].flush, s'.notes[i].to) {
      if i < |s.notes| {
        assert !Awaits(s, s.notes[i].flush, s.notes[i].to);
      }
    }
    forall i | 0 <= i < |s.notes| ensures s.notes[i] != Note(f, Session(session)) {
      assert !Awaits(s, s.notes[i].flush, s.notes[i].to);
    }
  }

  ghost predicate Inv(s: State) { FlagsExact(s) && NotesOk(s) }

  lemma {:induction false} ReachableInv(states: seq<State>, events: seq<Event>, i: nat)
    requires IsRun(states, events) && i < |states|
    ensures Inv(states[i])
  {
    if i > 0 {
      ReachableInv(states, events, i - 1);
      FlagsStep(states[i - 1], events[i - 1], states[i]);
      NotesStep(states[i - 1], events[i - 1], states[i]);
    }
  }

  // ---- every call is followed by a publish ------------------------------------------------

  /** The flush has sent nothing yet. */
  ghost predicate Silent(s: State, f: nat) { forall note | note in s.notes :: note.flush != f }

  /** A call leaves its kind with a flush that has read nothing yet: its own, or the
      one already scheduled. */
  lemma CallLeavesFlush(s: State, k: Kind, s': State) returns (f: nat)
    requires Inv(s) && Step(s, Schedule(k)) == Some(s')
    ensures IsSleeping(s', f, k)
    ensures Silent(s', f)
    ensures |s'.flushes| == |s.flushes| + if k in s.pending then 0 else 1
  {
    FlagsStep(s, Schedule(k), s');
    NotesStep(s, Schedule(k), s');
    f :| IsSleeping(s', f, k);
    forall note | note in s'.notes ensures note.flush != f {
      var i :| 0 <= i < |s'.notes| && s'.notes[i] == note;
      assert !Awaits(s', note.flush, note.to);
    }
  }

  ghost predicate Noted(s: State, f: nat, to: Target) { Note(f, to) in s.notes }

  /** A subscription that wants the kind and is there before and after the step. */
  ghost predicate Subscribed(s: State, k: Kind, id: SubId) {
    && id in s.subs
    && (k == Tools ==> s.subs[id].tools == Some(true))
    && (k == Resources ==> s.subs[id].resources == Some(true))
    && (k == Prompts ==> s.subs[id].prompts == Some(true))
  }

  ghost predicate IsFlush(s: State, f: nat, k: Kind) { f < |s.flushes| && s.flushes[f].kind == k }

  lemma DraftStep(s: State, e: Event, s': State, f: nat, k: Kind, id: SubId)
    requires Step(s, e) == Some(s') && IsFlush(s, f, k) && Subscribed(s, k, id) && Subscribed(s', k, id)
    requires Awaits(s, f, Subscription(id)) || Noted(s, f, Subscription(id))
    ensures IsFlush(s', f, k)
    ensures Awaits(s', f, Subscription(id)) || Noted(s', f, Subscription(id))
  {
    if IsStepOf(e, f) {
      assert Step(s, e) == FlushStep(s, e);
      DraftOwnStep(s, e, s', k, id);
    } else {
      OthersStay(s, e, s', f);
      NotesGrow(s, e, s');
    }
  }

  lemma DraftOwnStep(s: State, e: Event, s': State, k: Kind, id: SubId)
    requires IsFlushStep(e)
    requires FlushStep(s, e) == Some(s') && IsFlush(s, e.flush, k) && Subscribed(s, k, id) && Subscribed(s', k, id)
    requires Awaits(s, e.flush, Subscription(id)) || Noted(s, e.flush, Subscription(id))
    ensures IsFlush(s', e.flush, k)
    ensures Awaits(s', e.flush, Subscription(id)) || Noted(s', e.flush, Subscription(id))
  {
  }

  lemma NotesGrow(s: State, e: Event, s': State)
    requires Step(s, e) == Some(s')
    ensures forall note | note in s.notes :: note in s'.notes
  {
  }

  /** A session with a route and a GET stream. */
  ghost predicate Streaming(s: State, session: string) { session in s.routes && "http-get-" + session in s.writers }

  lemma LegacyStep(s: State, e: Event, s': State, f: nat, k: Kind, session: string)
    requires Step(s, e) == Some(s') && IsFlush(s, f, k) && Streaming(s, session) && Streaming(s', session)
    requires Awaits(s, f, Session(session)) || Noted(s, f, Session(session))
    ensures IsFlush(s', f, k)
    ensures Awaits(s', f, Session(session)) || Noted(s', f, Session(session))
  {
    if e.SnapshotLegacy? && e.flush == f {
      var i :| 0 <= i < |e.sessions| && e.sessions[i] == session;
      assert Routes(s, e.sessions)[i].0 == session;
    } else if e.SendLegacy? && e.flush == f && Awaits(s, f, Session(session)) {
      var routes := s.flushes[f].phase.routes;
      var i :| 0 <= i < |routes| && routes[i].0 == session;
      if i > 0 { assert routes[1..][i - 1].0 == session; }
    }
  }

  /** A session on a fixed connection that can be reached there, or on a GET stream. */
  ghost predicate Routed(s: State, session: string, connection: string) {
    && session in s.routes && s.routes[session] == connection
    && ("http-get-" + session in s.writers || (connection != "" && connection in s.writers))
  }

  ghost predicate RoutedThroughout(states: seq<State>, i: int, n: int, session: string, connection: string)
    requires -1 <= i < n < |states|
  {
    forall j | i < j <= n :: Routed(states[j], session, connection)
  }

  /** `f` has yet to read the routes, or to send to the session on this connection. */
  ghost predicate AwaitsOn(s: State, f: nat, session: string, connection: string) {
    && f < |s.flushes|
    && (s.flushes[f].phase.ToLegacy? ==> (session, connection) in s.flushes[f].phase.routes)
  }

  lemma RoutedStep(s: State, e: Event, s': State, f: nat, k: Kind, session: string, connection: string)
    requires Step(s, e) == Some(s') && IsFlush(s, f, k)
    requires Routed(s, session, connection) && Routed(s', session, connection)
    requires AwaitsOn(s, f, session, connection) || Noted(s, f, Session(session))
    ensures IsFlush(s', f, k)
    ensures AwaitsOn(s', f, session, connection) || Noted(s', f, Session(session))
  {
    if e.SnapshotLegacy? && e.flush == f {
      var i :| 0 <= i < |e.sessions| && e.sessions[i] == session;
      assert Routes(s, e.sessions)[i] == (session, connection);
    }
  }

  lemma {:induction false} RoutedHeld(states: seq<State>, events: seq<Event>, i: nat, n: nat, f: nat, k: Kind,
                                      session: string, connection: string)
    requires IsRun(states, events) && i <= n < |states| && IsSleeping(states[i], f, k)
    requires forall j | i <= j <= n :: Routed(states[j], session, connection)
    ensures IsFlush(states[n], f, k)
    ensures AwaitsOn(states[n], f, session, connection) || Noted(states[n], f, Session(session))
    decreases n - i
  {
    if n > i {
      RoutedHeld(states, events, i, n - 1, f, k, session, connection);
      RoutedStep(states[n - 1], events[n - 1], states[n], f, k, session, connection);
    }
  }

  lemma {:induction false} DraftHeld(states: seq<State>, events: seq<Event>, i: nat, n: nat, f: nat, k: Kind, id: SubId)
    requires IsRun(states, events) && i <= n < |states| && IsSleeping(states[i], f, k)
    requires forall j | i <= j <= n :: Subscribed(states[j], k, id)
    ensures IsFlush(states[n], f, k)
    ensures Awaits(states[n], f, Subscription(id)) || Noted(states[n], f, Subscription(id))
    decreases n - i
  {
    if n > i {
      DraftHeld(states, events, i, n - 1, f, k, id);
      DraftStep(states[n - 1], events[n - 1], states[n], f, k, id);
    }
  }

  lemma {:induction false} LegacyHeld(states: seq<State>, events: seq<Event>, i: nat, n: nat, f: nat, k: Kind, session: string)
    requires IsRun(states, events) && i <= n < |states| && IsSleeping(states[i], f, k)
    requires forall j | i <= j <= n :: Streaming(states[j], session)
    ensures IsFlush(states[n], f, k)
    ensures Awaits(states[n], f, Session(session)) || Noted(states[n], f, Session(session))
    decreases n - i
  {
    if n > i {
      LegacyHeld(states, events, i, n - 1, f, k, session);
      LegacyStep(states[n - 1], events[n - 1], states[n], f, k, session);
    }
  }

  ghost predicate Finished(s: State, f: nat) {
    f < |s.flushes| && s.flushes[f].phase == ToLegacy([])
  }

  /** No change is lost. Whatever else happens, a call is followed by a flush of its
      kind that had sent nothing when the call returned; and once that flush is through,
      every subscription that was there all along has its notification, and so has every
      session that could be reached all along, on a GET stream or on a connection it did
      not change; exactly one of that flush. */
  lemma NoChangeLost(states: seq<State>, events: seq<Event>, i: nat, n: nat, k: Kind) returns (f: nat)
    requires IsRun(states, events) && i < n < |states| && events[i] == Schedule(k)
    ensures IsSleeping(states[i + 1], f, k) && Silent(states[i + 1], f)
    ensures Finished(states[n], f) ==>
              && (forall id | (forall j | i < j <= n :: Subscribed(states[j], k, id)) :: Noted(states[n], f, Subscription(id)))
              && (forall session | (forall j | i < j <= n :: Streaming(states[j], session)) :: Noted(states[n], f, Session(session)))
              && (forall session, connection | RoutedThroughout(states, i, n, session, connection) ::
                    Noted(states[n], f, Session(session)))
    ensures Distinct(states[n].notes)
  {
    ReachableInv(states, events, i);
    ReachableInv(states, events, n);
    f := CallLeavesFlush(states[i], k, states[i + 1]);
    if Finished(states[n], f) {
      forall id | (forall j | i < j <= n :: Subscribed(states[j], k, id)) ensures Noted(states[n], f, Subscription(id)) {
        DraftHeld(states, events, i + 1, n, f, k, id);
      }
      forall session | (forall j | i < j <= n :: Streaming(states[j], session)) ensures Noted(states[n], f, Session(session)) {
        LegacyHeld(states, events, i + 1, n, f, k, session);
      }
      forall session, connection | RoutedThroughout(states, i, n, session, connection)
        ensures Noted(states[n], f, Session(session))
      {
        RoutedHeld(states, events, i + 1, n, f, k, session, connection);
      }
    }
  }

  // ---- and nobody else is told -----------------------------------------------------------

  /** Flush `f` has cleared its flag and finds the subscription, wanting its kind. */
  ghost predicate ReadsSub(s: State, f: nat, k: Kind, id: SubId) {
    f < |s.flushes| && s.flushes[f] == Flush(k, Cleared) && Subscribed(s, k, id)
  }

  /** Flush `f` is through with the subscriptions and finds the session on this connection. */
  ghost predicate ReadsRoute(s: State, f: nat, session: string, connection: string) {
    && f < |s.flushes| && s.flushes[f].phase == ToDraft([])
    && session in s.routes && s.routes[session] == connection
  }

  ghost predicate HoldsSub(s: State, f: nat, k: Kind, id: SubId) {
    f < |s.flushes| && s.flushes[f].kind == k && s.flushes[f].phase.ToDraft? && id in s.flushes[f].phase.subs
  }

  ghost predicate HoldsRoute(s: State, f: nat, session: string, connection: string) {
    f < |s.flushes| && s.flushes[f].phase.ToLegacy? && (session, connection) in s.flushes[f].phase.routes
  }

  lemma HeldSubStep(s: State, e: Event, s': State, f: nat, k: Kind, id: SubId)
    requires Step(s, e) == Some(s') && HoldsSub(s', f, k, id)
    ensures HoldsSub(s, f, k, id) || ReadsSub(s, f, k, id)
  {
    if IsStepOf(e, f) {
      assert FlushStep(s, e) == Some(s');
    } else if f < |s.flushes| {
      OthersStay(s, e, s', f);
    }
  }

  lemma HeldRouteStep(s: State, e: Event, s': State, f: nat, session: string, connection: string)
    requires Step(s, e) == Some(s') && HoldsRoute(s', f, session, connection)
    ensures HoldsRoute(s, f, session, connection) || ReadsRoute(s, f, session, connection)
  {
    if IsStepOf(e, f) {
      assert FlushStep(s, e) == Some(s');
    } else if f < |s.flushes| {
      OthersStay(s, e, s', f);
    }
  }

  lemma {:induction false} HeldSubWasRead(states: seq<State>, events: seq<Event>, n: nat, f: nat, k: Kind, id: SubId) returns (m: nat)
    requires IsRun(states, events) && n < |states| && HoldsSub(states[n], f, k, id)
    ensures m < n && ReadsSub(states[m], f, k, id)
  {
    m := n - 1;
    HeldSubStep(states[m], events[m], states[n], f, k, id);
    if !ReadsSub(states[m], f, k, id) {
      m := HeldSubWasRead(states, events, m, f, k, id);
    }
  }

  lemma {:induction false} HeldRouteWasRead(states: seq<State>, events: seq<Event>, n: nat, f: nat,
                                            session: string, connection: string) returns (m: nat)
    requires IsRun(states, events) && n < |states| && HoldsRoute(states[n], f, session, connection)
    ensures m < n && ReadsRoute(states[m], f, session, connection)
  {
    m := n - 1;
    HeldRouteStep(states[m], events[m], states[n], f, session, connection);
    if !ReadsRoute(states[m], f, session, connection) {
      m := HeldRouteWasRead(states, events, m, f, session, connection);
    }
  }

  /** Nobody else is told. In every run, whoever a flush notifies could be reached at that
      moment, and was found by that flush after it cleared its flag: a subscription that
      wanted its kind, or a session with its connection. */
  lemma OnlyThoseThereAreNotified(states: seq<State>, events: seq<Event>, n: nat, note: Note) returns (m: nat, connection: string)
    requires IsRun(states, events) && n < |events| && states[n + 1].notes == states[n].notes + [note]
    ensures m < n
    ensures match note.to
            case Subscription(id) =>
              && id.connection in states[n].writers
              && exists k :: ReadsSub(states[m], note.flush, k, id)
            case Session(session) =>
              && ("http-get-" + session in states[n].writers || (connection != "" && connection in states[n].writers))
              && ReadsRoute(states[m], note.flush, session, connection)
  {
    var s, e, f := states[n], events[n], note.flush;
    NoteSent(s, e, states[n + 1], note);
    match note.to
    case Subscription(id) =>
      connection := "";
      m := HeldSubWasRead(states, events, n, f, s.flushes[f].kind, id);
    case Session(session) =>
      connection := s.flushes[f].phase.routes[0].1;
      assert s.flushes[f].phase.routes[0] == (session, connection);
      m := HeldRouteWasRead(states, events, n, f, session, connection);
  }

  lemma NoteSent(s: State, e: Event, s': State, note: Note)
    requires Step(s, e) == Some(s') && s'.notes == s.notes + [note]
    ensures note.flush < |s.flushes|
    ensures match note.to
            case Subscription(id) =>
              HoldsSub(s, note.flush, s.flushes[note.flush].kind, id) && id.connection in s.writers
            case Session(session) =>
              && s.flushes[note.flush].phase.ToLegacy? && s.flushes[note.flush].phase.routes != []
              && var route := s.flushes[note.flush].phase.routes[0];
                 && route.0 == session
                 && ("http-get-" + session in s.writers || (route.1 != "" && route.1 in s.writers))
  {
    assert note == s'.notes[|s.notes|];
  }

  lemma StartsNoOther(s: State, e: Event, s': State, f: nat, k: Kind)
    requires FlagsExact(s) && IsSleeping(s, f, k) && Step(s, e) == Some(s')
    ensures |s.flushes| <= |s'.flushes|
    ensures forall g | 0 <= g < |s.flushes| :: s'.flushes[g].kind == s.flushes[g].kind
    ensures forall g | |s.flushes| <= g < |s'.flushes| :: s'.flushes[g].kind != k
  {
    assert k in s.pending;
    forall g | 0 <= g < |s.flushes| ensures g < |s'.flushes| && s'.flushes[g].kind == s.flushes[g].kind {
      KindStays(s, e, s', g);
    }
  }

  lemma KindStays(s: State, e: Event, s': State, g: nat)
    requires Step(s, e) == Some(s') && g < |s.flushes|
    ensures |s.flushes| <= |s'.flushes| && s'.flushes[g].kind == s.flushes[g].kind
  {
  }

  /** Calls of a burst share one flush: while it sleeps, no other of its kind starts. */
  lemma {:induction false} BurstIsOneFlush(states: seq<State>, events: seq<Event>, i: nat, n: nat, f: nat, k: Kind)
    requires IsRun(states, events) && i <= n < |states|
    requires forall j | i <= j <= n :: IsSleeping(states[j], f, k)
    ensures forall g: nat | |states[i].flushes| <= g < |states[n].flushes| :: states[n].flushes[g].kind != k
    ensures |states[i].flushes| <= |states[n].flushes|
    decreases n - i
  {
    if n > i {
      BurstIsOneFlush(states, events, i, n - 1, f, k);
      ReachableInv(states, events, n - 1);
      StartsNoOther(states[n - 1], events[n - 1], states[n], f, k);
    }
  }

  // ---- and the flush does get through ---------------------------------------------------------

  /** What a flush still has to do, most significant first. */
  function PhaseRank(p: Phase): (nat, nat) {
    match p
    case Sleeping => (3, 0)
    case Cleared => (2, 0)
    case ToDraft(subs) => (1, |subs|)
    case ToLegacy(routes) => (0, |routes|)
  }

  predicate RankBelow(a: (nat, nat), b: (nat, nat)) { a.0 < b.0 || (a.0 == b.0 && a.1 < b.1) }

  lemma {:induction false} Enumeration<T(!new)>(all: set<T>) returns (xs: seq<T>)
    ensures Enumerates(xs, all)
    decreases all
  {
    if all == {} {
      xs := [];
    } else {
      var x :| x in all;
      var rest := Enumeration(all - {x});
      xs := [x] + rest;
    }
  }

  /** Until it has finished, a flush always has a step of its own, and every one brings
      it nearer. */
  lemma FlushAdvances(s: State, f: nat) returns (e: Event)
    requires f < |s.flushes| && !Finished(s, f)
    ensures IsStepOf(e, f) && Step(s, e).Some? && f < |Step(s, e).value.flushes|
    ensures RankBelow(PhaseRank(Step(s, e).value.flushes[f].phase), PhaseRank(s.flushes[f].phase))
  {
    match s.flushes[f].phase
    case Sleeping => e := Wake(f);
    case Cleared =>
      var order := Enumeration(Wanting(s, s.flushes[f].kind));
      e := SnapshotDraft(f, order);
    case ToDraft(subs) =>
      if subs != [] {
        e := SendDraft(f);
      } else {
        var sessions := Enumeration(s.routes.Keys);
        e := SnapshotLegacy(f, sessions);
      }
    case ToLegacy(_) => e := SendLegacy(f);
  }

  // ---- in how many steps ------------------------------------------------------------------------

  predicate IsStepOf(e: Event, f: nat) {
    IsFlushStep(e) && e.flush == f
  }

  /** The steps a run has given a flush. */
  ghost function OwnSteps(events: seq<Event>, f: nat): nat {
    if events == [] then 0
    else OwnSteps(events[..|events| - 1], f) + if IsStepOf(events[|events| - 1], f) then 1 else 0
  }

  function TargetsOf(e: Event, f: nat): nat {
    if e.SnapshotDraft? && e.flush == f then |e.order|
    else if e.SnapshotLegacy? && e.flush == f then |e.sessions|
    else 0
  }

  /** How many targets its snapshots found. */
  ghost function Targets(events: seq<Event>, f: nat): nat {
    if events == [] then 0 else Targets(events[..|events| - 1], f) + TargetsOf(events[|events| - 1], f)
  }

  /** Where a flush stands: a wake, two snapshots and its sends. */
  function StepsDone(p: Phase, targets: nat): int {
    match p
    case Sleeping => 0
    case Cleared => 1
    case ToDraft(subs) => 2 + targets - |subs|
    case ToLegacy(routes) => 3 + targets - |routes|
  }

  lemma {:induction false} NotYetStarted(states: seq<State>, events: seq<Event>, n: nat, f: nat)
    requires IsRun(states, events) && n < |states| && |states[n].flushes| <= f
    ensures OwnSteps(events[..n], f) == 0 && Targets(events[..n], f) == 0
  {
    if n > 0 {
      assert events[..n][..n - 1] == events[..n - 1];
      assert |states[n - 1].flushes| <= |states[n].flushes|;
      NotYetStarted(states, events, n - 1, f);
    }
  }

  /** A flush that has taken `own` steps and found `targets` is in this phase. */
  ghost predicate IsCounted(p: Phase, own: nat, targets: nat) {
    && own == StepsDone(p, targets)
    && match p
       case ToDraft(subs) => |subs| <= targets
       case ToLegacy(routes) => |routes| <= targets
       case _ => targets == 0
  }

  lemma CountOne(s: State, e: Event, s': State, f: nat, own: nat, targets: nat)
    requires Step(s, e) == Some(s') && f < |s.flushes| && IsCounted(s.flushes[f].phase, own, targets)
    ensures f < |s'.flushes|
    ensures IsCounted(s'.flushes[f].phase, own + if IsStepOf(e, f) then 1 else 0, targets + TargetsOf(e, f))
  {
    if IsStepOf(e, f) {
      assert Step(s, e) == FlushStep(s, e);
      CountOwn(s, e, s', own, targets);
    } else {
      OthersStay(s, e, s', f);
    }
  }

  lemma CountOwn(s: State, e: Event, s': State, own: nat, targets: nat)
    requires IsFlushStep(e)
    requires FlushStep(s, e) == Some(s') && IsCounted(s.flushes[e.flush].phase, own, targets)
    ensures |s'.flushes| == |s.flushes|
    ensures IsCounted(s'.flushes[e.flush].phase, own + 1, targets + TargetsOf(e, e.flush))
  {
  }

  lemma OthersStay(s: State, e: Event, s': State, f: nat)
    requires Step(s, e) == Some(s') && f < |s.flushes| && !IsStepOf(e, f)
    ensures f < |s'.flushes| && s'.flushes[f] == s.flushes[f] && TargetsOf(e, f) == 0
  {
  }

  lemma {:induction false} StepsCounted(states: seq<State>, events: seq<Event>, n: nat, f: nat)
    requires IsRun(states, events) && n < |states| && f < |states[n].flushes|
    ensures IsCounted(states[n].flushes[f].phase, OwnSteps(events[..n], f), Targets(events[..n], f))
  {
    if n > 0 {
      var m: nat := n - 1;
      var own, targets := OwnSteps(events[..m], f), Targets(events[..m], f);
      OneEventMore(events, m, n, f);
      if f < |states[m].flushes| {
        StepsCounted(states, events, m, f);
        CountOne(states[m], events[m], states[n], f, own, targets);
      } else {
        NotYetStarted(states, events, m, f);
        StartsAsleep(states[m], events[m], states[n], f);
      }
    }
  }

  lemma OneEventMore(events: seq<Event>, m: nat, n: nat, f: nat)
    requires n == m + 1 && n <= |events|
    ensures OwnSteps(events[..n], f) == OwnSteps(events[..m], f) + if IsStepOf(events[m], f) then 1 else 0
    ensures Targets(events[..n], f) == Targets(events[..m], f) + TargetsOf(events[m], f)
  {
    assert events[..n][..m] == events[..m] && events[..n][m] == events[m];
  }

  lemma StartsAsleep(s: State, e: Event, s': State, f: nat)
    requires Step(s, e) == Some(s') && |s.flushes| <= f < |s'.flushes|
    ensures s'.flushes[f].phase.Sleeping? && !IsStepOf(e, f) && TargetsOf(e, f) == 0
  {
  }

  /** In every run a flush has finished exactly when it has taken three steps and one for
      each target its snapshots found, and it never takes more; until then it can take
      its next. */
  lemma FlushEndsExactly(states: seq<State>, events: seq<Event>, n: nat, f: nat)
    requires IsRun(states, events) && n < |states| && f < |states[n].flushes|
    ensures OwnSteps(events[..n], f) <= 3 + Targets(events[..n], f)
    ensures Finished(states[n], f) <==> OwnSteps(events[..n], f) == 3 + Targets(events[..n], f)
    ensures !Finished(states[n], f) ==> exists e :: IsStepOf(e, f) && Step(states[n], e).Some?
  {
    StepsCounted(states, events, n, f);
    if !Finished(states[n], f) {
      var e := FlushAdvances(states[n], f);
    }
  }
}
