/** Request and response correlation in a client connection: any number of callers,
    the actor that owns the transport, a shared table of waiters, every interleaving. */
module Connection {
  import opened Wrappers
  import opened Json

  /** A response frame: the id it answers and its result or error object. */
  datatype Response = Response(id: nat, outcome: Result<Json, Json>)

  /** The one-shot channel a caller waits on. */
  datatype Slot = Empty | Filled(outcome: Result<Json, Json>) | Dropped

  datatype CallResult = Answered(outcome: Result<Json, Json>) | Closed | Timeout

  /** A `request` call: its id drawn, its waiter in the table, its frame queued; past its
      deadline or refused by the channel and about to leave the table; returned. */
  datatype CallPhase = Drawn | Registered | Queued | Expired | Refused | Returned(result: CallResult)

  /** The actor: looping, out of its loop, done clearing the table, its queue dropped. */
  datatype Actor = Looping | Stopping | Cleared | Gone
  {
    predicate IsDown() { Cleared? || Gone? }
  }

  /** `registeredAt` is how many responses had arrived when the waiter was entered. The
      last fields are history: where the actor was when the call registered, queued its
      frame, and passed its deadline. */
  datatype Call = Call(
    phase: CallPhase,
    slot: Slot,
    registeredAt: nat,
    registeredIn: Option<Actor>,
    queuedIn: Option<Actor>,
    expiredIn: Option<Actor>)

  /** Call `c` has id `c + 1`, ids being drawn from a counter that starts at 1. */
  datatype State = State(calls: seq<Call>, pending: map<nat, nat>, actor: Actor, received: seq<Response>)

  const INIT := State([], map[], Looping, [])

  datatype Event =
    | Draw
    | Register(call: nat)
    | Queue(call: nat)
    | Refuse(call: nat)
    | Expire(call: nat)
    | Forget(call: nat)
    | Return(call: nat)
    | Receive(response: Response)
    | Stop
    | Clear
    | DropQueue

  function Id(c: nat): nat { c + 1 }

  function With(s: State, c: nat, call: Call): State
    requires c < |s.calls|
  {
    s.(calls := s.calls[c := call])
  }

  /** A caller's step. */
  function CallStep(s: State, e: Event): Option<State>
    requires e.Register? || e.Queue? || e.Refuse? || e.Expire? || e.Forget? || e.Return?
  {
    var c := e.call;
    if c >= |s.calls| then None
    else
      var call := s.calls[c];
      match e
      case Register(_) =>
        if !call.phase.Drawn? then None
        else
          var call' := call.(phase := CallPhase.Registered, registeredAt := |s.received|, registeredIn := Some(s.actor));
          Some(With(s, c, call').(pending := s.pending[Id(c) := c]))
      // The queue takes the frame as long as the actor has not dropped it.
      case Queue(_) =>
        if call.phase.Registered? && !s.actor.Gone? then
          Some(With(s, c, call.(phase := Queued, queuedIn := Some(s.actor))))
        else None
      case Refuse(_) =>
        if call.phase.Registered? && s.actor.Gone? then Some(With(s, c, call.(phase := Refused))) else None
      case Expire(_) =>
        if call.phase.Queued? && call.slot.Empty? then
          Some(With(s, c, call.(phase := Expired, expiredIn := Some(s.actor))))
        else None
      case Forget(_) =>
        if call.phase.Expired? || call.phase.Refused? then
          var result := if call.phase.Expired? then Timeout else Closed;
          Some(With(s, c, call.(phase := Returned(result))).(pending := s.pending - {Id(c)}))
        else None
      case Return(_) =>
        if !call.phase.Queued? || call.slot.Empty? then None
        else
          var result := if call.slot.Filled? then Answered(call.slot.outcome) else Closed;
          Some(With(s, c, call.(phase := Returned(result))))
  }

  /** `complete_pending`: the waiter under the id, if any, is taken out and told. */
  function Complete(s: State, r: Response): State {
    if r.id in s.pending && s.pending[r.id] < |s.calls| then
      var c := s.pending[r.id];
      With(s, c, s.calls[c].(slot := Filled(r.outcome))).(pending := s.pending - {r.id})
    else s
  }

  /** Clearing the table drops every sender in it. */
  function ClearCalls(s: State): seq<Call> {
    seq(|s.calls|, c requires 0 <= c < |s.calls| =>
      if Id(c) in s.pending && s.pending[Id(c)] == c then s.calls[c].(slot := Dropped) else s.calls[c])
  }

  function Step(s: State, e: Event): Option<State> {
    match e
    case Draw => Some(s.(calls := s.calls + [Call(Drawn, Empty, 0, None, None, None)]))
    case Receive(r) =>
      if s.actor.Looping? then Some(Complete(s, r).(received := s.received + [r])) else None
    case Stop => if s.actor.Looping? then Some(s.(actor := Stopping)) else None
    case Clear =>
      if s.actor.Stopping? then Some(s.(actor := Cleared, calls := ClearCalls(s), pending := map[])) else None
    case DropQueue => if s.actor.Cleared? then Some(s.(actor := Gone)) else None
    case _ => CallStep(s, e)
  }

  function Run(s: State, es: seq<Event>): Option<State>
    decreases |es|
  {
    if es == [] then Some(s)
    else match Step(s, es[0])
      case None => None
      case Some(s') => Run(s', es[1..])
  }

  // ---- what every state keeps ------------------------------------------------------------

  /** `received[i]` is the first response to call `c` since it registered. */
  ghost predicate FirstFor(received: seq<Response>, c: nat, from: nat, i: int) {
    && from <= i < |received| && received[i].id == Id(c)
    && forall j | from <= j < i :: received[j].id != Id(c)
  }

  ghost predicate NoneFor(received: seq<Response>, c: nat, from: nat) {
    forall j | from <= j < |received| :: received[j].id != Id(c)
  }

  /** A waiter is in the table exactly while its caller may still be told something;
      what it was told is the first response to its own id. */
  ghost predicate CallOk(call: Call, c: nat, pending: map<nat, nat>, actor: Actor, received: seq<Response>) {
    && call.registeredAt <= |received|
    && (Id(c) in pending ==>
          && (call.phase.Registered? || call.phase.Queued? || call.phase.Expired? || call.phase.Refused?)
          && call.slot.Empty? && NoneFor(received, c, call.registeredAt))
    && ((call.phase.Registered? || call.phase.Queued?) && call.slot.Empty? ==> Id(c) in pending)
    && (call.phase.Drawn? ==> call.slot.Empty?)
    && (call.slot.Filled? ==> exists i :: Told(call, c, received, i))
    && (call.slot.Dropped? ==> NoneFor(received, c, call.registeredAt) && (actor.Cleared? || actor.Gone?))
    && ResultOk(call, actor)
    && (call.phase.Refused? ==> actor.Gone?)
  }

  ghost predicate Told(call: Call, c: nat, received: seq<Response>, i: int) {
    FirstFor(received, c, call.registeredAt, i) && call.slot == Filled(received[i].outcome)
  }

  ghost predicate ResultOk(call: Call, actor: Actor) {
    call.phase.Returned? ==>
      match call.phase.result
      case Answered(o) => call.slot == Filled(o)
      case Closed => actor.Cleared? || actor.Gone?
      case Timeout => true
  }

  ghost predicate Inv(s: State) {
    && (forall id | id in s.pending :: 1 <= id <= |s.calls| && s.pending[id] == id - 1)
    && (forall c | 0 <= c < |s.calls| :: CallOk(s.calls[c], c, s.pending, s.actor, s.received))
  }

  lemma StepInv(s: State, e: Event, s': State)
    requires Inv(s) && Step(s, e) == Some(s')
    ensures Inv(s')
  {
    match e
    case Receive(r) => ReceiveInv(s, r, s');
    case Clear => ClearInv(s, s');
    case Draw => OthersKept(s, s', |s.calls|);
    case Stop => OthersKept(s, s', |s.calls|);
    case DropQueue => OthersKept(s, s', |s.calls|);
    case _ =>
      OthersKept(s, s', e.call);
      OneKept(s, e, s');
  }

  /** A step of one caller does not touch the others. */
  lemma OthersKept(s: State, s': State, c: nat)
    requires Inv(s) && |s.calls| <= |s'.calls| && s'.received == s.received
    requires forall d | 0 <= d < |s.calls| && d != c :: s'.calls[d] == s.calls[d] && (Id(d) in s'.pending <==> Id(d) in s.pending)
    requires s'.actor == s.actor || s.actor.Looping? || (s.actor.Cleared? && s'.actor.Gone?)
    ensures forall d | 0 <= d < |s.calls| && d != c :: CallOk(s'.calls[d], d, s'.pending, s'.actor, s'.received)
  {
    forall d | 0 <= d < |s.calls| && d != c ensures CallOk(s'.calls[d], d, s'.pending, s'.actor, s'.received) {
      assert CallOk(s.calls[d], d, s.pending, s.actor, s.received);
    }
  }

  lemma OneKept(s: State, e: Event, s': State)
    requires Inv(s) && Step(s, e) == Some(s')
    requires e.Register? || e.Queue? || e.Refuse? || e.Expire? || e.Forget? || e.Return?
    ensures CallOk(s'.calls[e.call], e.call, s'.pending, s'.actor, s'.received)
  {
    var call := s.calls[e.call];
    assert CallOk(call, e.call, s.pending, s.actor, s.received);
    if call.slot.Filled? {
      var i :| Told(call, e.call, s.received, i);
      assert Told(s'.calls[e.call], e.call, s'.received, i);
    }
  }

  lemma ReceiveInv(s: State, r: Response, s': State)
    requires Inv(s) && Step(s, Receive(r)) == Some(s')
    ensures Inv(s')
  {
    forall c | 0 <= c < |s'.calls| ensures CallOk(s'.calls[c], c, s'.pending, s'.actor, s'.received) {
      var call := s.calls[c];
      assert CallOk(call, c, s.pending, s.actor, s.received);
      if r.id == Id(c) && r.id in s.pending {
        assert Told(s'.calls[c], c, s'.received, |s.received|);
      } else if call.slot.Filled? {
        var i :| Told(call, c, s.received, i);
        assert Told(s'.calls[c], c, s'.received, i);
      }
    }
  }

  lemma ClearInv(s: State, s': State)
    requires Inv(s) && Step(s, Clear) == Some(s')
    ensures Inv(s')
  {
    forall c | 0 <= c < |s'.calls| ensures CallOk(s'.calls[c], c, s'.pending, s'.actor, s'.received) {
      var call := s.calls[c];
      assert CallOk(call, c, s.pending, s.actor, s.received);
      if call.slot.Filled? {
        var i :| Told(call, c, s.received, i);
        assert Told(s'.calls[c], c, s'.received, i);
      }
    }
  }

  lemma {:induction false} RunInv(s: State, es: seq<Event>)
    requires Inv(s) && Run(s, es).Some?
    ensures Inv(Run(s, es).value)
    decreases |es|
  {
    if es != [] {
      StepInv(s, es[0], Step(s, es[0]).value);
      RunInv(Step(s, es[0]).value, es[1..]);
    }
  }

  // ---- the promises -----------------------------------------------------------------------------

  /** A caller gets the first response to its own id that arrived after it registered,
      and nothing else; and whoever has returned is out of the table. */
  lemma AnswersCorrelate(es: seq<Event>, c: nat)
    requires Run(INIT, es).Some? && c < |Run(INIT, es).value.calls|
    ensures var s := Run(INIT, es).value;
            var call := s.calls[c];
            && (forall o | call.phase == Returned(Answered(o)) ::
                  exists i :: FirstFor(s.received, c, call.registeredAt, i) && s.received[i].outcome == o)
            && (call.phase.Returned? ==> Id(c) !in s.pending)
  {
    RunInv(INIT, es);
    var s := Run(INIT, es).value;
    var call := s.calls[c];
    assert CallOk(call, c, s.pending, s.actor, s.received);
    if call.slot.Filled? {
      var i :| Told(call, c, s.received, i);
      assert FirstFor(s.received, c, call.registeredAt, i) && s.received[i].outcome == call.slot.outcome;
    }
  }

  // ---- how a call ends when the connection goes down ----------------------------------------------

  /** The history of a call is that of its phase. */
  ghost predicate HistoryOk(call: Call) {
    && (call.phase.Drawn? <==> call.registeredIn.None?)
    && (call.phase.Drawn? || call.phase.Registered? || call.phase.Refused? ==> call.queuedIn.None?)
    && (call.phase.Queued? || call.phase.Expired? ==> call.queuedIn.Some?)
    && (call.phase.Expired? ==> call.expiredIn.Some?)
    && (call.phase.Drawn? || call.phase.Registered? || call.phase.Queued? || call.phase.Refused? ==> call.expiredIn.None?)
    && (call.phase.Returned? ==>
          match call.phase.result
          case Answered(_) => call.queuedIn.Some? && call.expiredIn.None?
          case Timeout => call.queuedIn.Some? && call.expiredIn.Some?
          case Closed => call.expiredIn.None? && (call.queuedIn.Some? ==> call.slot.Dropped?))
  }

  /** Once the table is cleared, the open channels are those of calls that registered
      later; and theirs stay open. */
  ghost predicate OpenOk(call: Call, actor: Actor) {
    && (call.registeredIn.Some? && call.registeredIn.value.IsDown() ==> actor.IsDown() && call.slot.Empty?)
    && (actor.IsDown() && (call.phase.Registered? || call.phase.Queued?) && call.slot.Empty? ==>
          call.registeredIn.Some? && call.registeredIn.value.IsDown())
    && (call.expiredIn.Some? && call.expiredIn.value.IsDown() ==>
          call.registeredIn.Some? && call.registeredIn.value.IsDown())
  }

  /** The actor only moves on. */
  function Stage(a: Actor): nat {
    match a
    case Looping => 0
    case Stopping => 1
    case Cleared => 2
    case Gone => 3
  }

  ghost predicate QueuedOk(call: Call, actor: Actor) {
    && (call.registeredIn.Some? ==> Stage(call.registeredIn.value) <= Stage(actor))
    && (call.queuedIn.Some? ==>
          call.registeredIn.Some? && Stage(call.registeredIn.value) <= Stage(call.queuedIn.value) < Stage(Gone))
  }

  ghost predicate DownInv(s: State) {
    forall c | 0 <= c < |s.calls| ::
      HistoryOk(s.calls[c]) && OpenOk(s.calls[c], s.actor) && QueuedOk(s.calls[c], s.actor)
  }

  lemma QueuedStep(s: State, e: Event, s': State, c: nat)
    requires Step(s, e) == Some(s') && c < |s.calls| && HistoryOk(s.calls[c]) && QueuedOk(s.calls[c], s.actor)
    ensures c < |s'.calls| && QueuedOk(s'.calls[c], s'.actor)
  {
  }

  lemma DownStep(s: State, e: Event, s': State)
    requires Inv(s) && DownInv(s) && Step(s, e) == Some(s')
    ensures DownInv(s')
  {
    forall c | 0 <= c < |s'.calls|
      ensures HistoryOk(s'.calls[c]) && OpenOk(s'.calls[c], s'.actor) && QueuedOk(s'.calls[c], s'.actor)
    {
      if c < |s.calls| {
        assert CallOk(s.calls[c], c, s.pending, s.actor, s.received);
        QueuedStep(s, e, s', c);
        HistoryStep(s, e, s', c);
        OpenStep(s, e, s', c);
      }
    }
  }

  lemma HistoryStep(s: State, e: Event, s': State, c: nat)
    requires Step(s, e) == Some(s') && c < |s.calls| && HistoryOk(s.calls[c])
    requires CallOk(s.calls[c], c, s.pending, s.actor, s.received)
    requires forall id | id in s.pending :: s.pending[id] == id - 1
    ensures c < |s'.calls| && HistoryOk(s'.calls[c])
  {
  }

  lemma OpenStep(s: State, e: Event, s': State, c: nat)
    requires Step(s, e) == Some(s') && c < |s.calls| && OpenOk(s.calls[c], s.actor) && HistoryOk(s.calls[c])
    requires CallOk(s.calls[c], c, s.pending, s.actor, s.received)
    requires forall id | id in s.pending :: s.pending[id] == id - 1
    ensures c < |s'.calls| && OpenOk(s'.calls[c], s'.actor)
  {
  }

  lemma {:induction false} RunDownInv(s: State, es: seq<Event>)
    requires Inv(s) && DownInv(s) && Run(s, es).Some?
    ensures Inv(Run(s, es).value) && DownInv(Run(s, es).value)
    decreases |es|
  {
    if es != [] {
      var s1 := Step(s, es[0]).value;
      StepInv(s, es[0], s1);
      DownStep(s, es[0], s1);
      RunDownInv(s1, es[1..]);
    }
  }

  /** The deadline passed while the table still stood. */
  predicate ExpiredEarly(call: Call) { call.expiredIn in {Some(Looping), Some(Stopping)} }

  /** The call registered when the table was already cleared. */
  predicate RegisteredLate(call: Call) { call.registeredIn in {Some(Cleared), Some(Gone)} }

  /** In every run, a call whose deadline did not pass before the table was cleared times
      out exactly when it registered after that and its frame was still accepted; it has
      an answer exactly when it queued and was answered; and it is told `Closed` in all
      other cases. */
  lemma ResultExactly(es: seq<Event>, c: nat)
    requires Run(INIT, es).Some? && c < |Run(INIT, es).value.calls|
    requires var call := Run(INIT, es).value.calls[c]; call.phase.Returned? && !ExpiredEarly(call)
    ensures var call := Run(INIT, es).value.calls[c];
            && call.registeredIn.Some?
            && (call.phase.result.Timeout? <==> RegisteredLate(call) && call.queuedIn.Some?)
            && (call.phase.result.Answered? <==> call.queuedIn.Some? && call.slot.Filled?)
            && (call.phase.result.Answered? ==> call.phase.result.outcome == call.slot.outcome)
  {
    RunDownInv(INIT, es);
    var s := Run(INIT, es).value;
    assert HistoryOk(s.calls[c]) && OpenOk(s.calls[c], s.actor) && CallOk(s.calls[c], c, s.pending, s.actor, s.received);
  }

  /** So a call that had registered when the table was cleared, its frame queued or still
      waiting for room, never times out after that. */
  lemma WaitersAreToldClosed(es: seq<Event>, c: nat)
    requires Run(INIT, es).Some? && c < |Run(INIT, es).value.calls|
    requires var call := Run(INIT, es).value.calls[c];
             call.phase.Returned? && !ExpiredEarly(call) && call.registeredIn in {Some(Looping), Some(Stopping)}
    ensures var call := Run(INIT, es).value.calls[c];
            call.phase.result == if call.queuedIn.Some? && call.slot.Filled? then Answered(call.slot.outcome) else Closed
  {
    ResultExactly(es, c);
  }

  /** But one that registers later, and whose frame is accepted because the actor has not
      yet dropped its queue, can only time out: its frame is lost, nobody clears the
      table again, and it is never told `Closed` as documented. If the queue is dropped
      first, it is. */
  lemma LateCallsTimeOut(es: seq<Event>, c: nat)
    requires Run(INIT, es).Some? && c < |Run(INIT, es).value.calls|
    requires var call := Run(INIT, es).value.calls[c];
             call.phase.Returned? && RegisteredLate(call)
    ensures var call := Run(INIT, es).value.calls[c];
            && (call.queuedIn.Some? ==> call.queuedIn == Some(Cleared) && call.phase.result == Timeout)
            && (call.queuedIn.None? ==> call.phase.result == Closed)
  {
    RunDownInv(INIT, es);
    var s := Run(INIT, es).value;
    assert HistoryOk(s.calls[c]) && OpenOk(s.calls[c], s.actor) && QueuedOk(s.calls[c], s.actor);
    assert CallOk(s.calls[c], c, s.pending, s.actor, s.received);
  }

  lemma {:induction false} RunThrough(states: seq<State>, es: seq<Event>)
    requires |states| == |es| + 1 && forall i | 0 <= i < |es| :: Step(states[i], es[i]) == Some(states[i + 1])
    ensures Run(states[0], es) == Some(states[|es|])
    decreases |es|
  {
    if es != [] {
      RunThrough(states[1..], es[1..]);
    }
  }

  /** Once the table is cleared, both ends are possible. */
  lemma LateCallReturns(s: State, queued: bool) returns (es: seq<Event>)
    requires s.actor.Cleared?
    ensures Run(s, es).Some? && |s.calls| < |Run(s, es).value.calls|
    ensures Run(s, es).value.calls[|s.calls|].phase == Returned(if queued then Timeout else Closed)
  {
    var c := |s.calls|;
    var s1 := Step(s, Draw).value;
    assert s1.calls[c] == Call(Drawn, Empty, 0, None, None, None);
    var s2 := Step(s1, Register(c)).value;
    assert s2.calls[c].phase.Registered? && s2.calls[c].slot.Empty?;
    if queued {
      es := [Draw, Register(c), Queue(c), Expire(c), Forget(c)];
      var s3 := Step(s2, Queue(c)).value;
      var s4 := Step(s3, Expire(c)).value;
      var s5 := Step(s4, Forget(c)).value;
      RunThrough([s, s1, s2, s3, s4, s5], es);
    } else {
      es := [Draw, Register(c), DropQueue, Refuse(c), Forget(c)];
      var s3 := Step(s2, DropQueue).value;
      var s4 := Step(s3, Refuse(c)).value;
      var s5 := Step(s4, Forget(c)).value;
      RunThrough([s, s1, s2, s3, s4, s5], es);
    }
  }

  // ---- what the events say ---------------------------------------------------------------------

  /** How far the actor has come. */
  function ActorAfter(es: seq<Event>): Actor {
    if DropQueue in es then Gone else if Clear in es then Cleared else if Stop in es then Stopping else Looping
  }

  /** The responses that arrived, in order, and how many calls were begun. */
  function Arrived(es: seq<Event>): seq<Response> {
    if es == [] then []
    else
      var before, e := Arrived(es[..|es| - 1]), es[|es| - 1];
      if e.Receive? then before + [e.response] else before
  }

  function Begun(es: seq<Event>): nat {
    if es == [] then 0 else Begun(es[..|es| - 1]) + if es[|es| - 1].Draw? then 1 else 0
  }

  predicate IsOf(e: Event, c: nat) {
    (e.Register? || e.Queue? || e.Refuse? || e.Expire? || e.Forget? || e.Return?) && e.call == c
  }

  /** The last thing a call did. */
  function LastOf(es: seq<Event>, c: nat): Option<Event> {
    if es == [] then None else if IsOf(es[|es| - 1], c) then Some(es[|es| - 1]) else LastOf(es[..|es| - 1], c)
  }

  ghost predicate PhaseTells(es: seq<Event>, call: Call, c: nat) {
    match call.phase
    case Drawn => LastOf(es, c).None?
    case Registered => LastOf(es, c) == Some(Register(c))
    case Queued => LastOf(es, c) == Some(Queue(c))
    case Expired => LastOf(es, c) == Some(Expire(c))
    case Refused => LastOf(es, c) == Some(Refuse(c))
    case Returned(_) => LastOf(es, c) == Some(Forget(c)) || LastOf(es, c) == Some(Return(c))
  }

  ghost predicate Tells(es: seq<Event>, s: State) {
    && s.actor == ActorAfter(es) && s.received == Arrived(es) && |s.calls| == Begun(es)
    && (forall c | 0 <= c < |s.calls| :: PhaseTells(es, s.calls[c], c))
    && forall c | |s.calls| <= c :: LastOf(es, c).None?
  }

  lemma OneMore(es: seq<Event>, e: Event)
    ensures Arrived(es + [e]) == if e.Receive? then Arrived(es) + [e.response] else Arrived(es)
    ensures Begun(es + [e]) == Begun(es) + if e.Draw? then 1 else 0
    ensures forall c :: LastOf(es + [e], c) == if IsOf(e, c) then Some(e) else LastOf(es, c)
    ensures forall x :: x in es + [e] <==> x in es || x == e
  {
    assert (es + [e])[..|es|] == es;
  }

  lemma TellsStep(es: seq<Event>, s: State, e: Event, s': State)
    requires Tells(es, s) && Step(s, e) == Some(s')
    ensures Tells(es + [e], s')
  {
    OneMore(es, e);
    forall c | 0 <= c < |s'.calls| ensures PhaseTells(es + [e], s'.calls[c], c) {
      if c < |s.calls| { PhaseStep(es, s, e, s', c); }
    }
  }

  lemma PhaseStep(es: seq<Event>, s: State, e: Event, s': State, c: nat)
    requires Step(s, e) == Some(s') && c < |s.calls| && PhaseTells(es, s.calls[c], c)
    requires forall d :: LastOf(es + [e], d) == if IsOf(e, d) then Some(e) else LastOf(es, d)
    ensures c < |s'.calls| && PhaseTells(es + [e], s'.calls[c], c)
  {
  }

  lemma {:induction false} RunTells(past: seq<Event>, s: State, es: seq<Event>, s': State)
    requires Tells(past, s) && Run(s, es) == Some(s')
    ensures Tells(past + es, s')
    decreases |es|
  {
    if es == [] {
      assert past + es == past;
    } else {
      var mid := Step(s, es[0]).value;
      TellsStep(past, s, es[0], mid);
      RunTells(past + [es[0]], mid, es[1..], s');
      assert past + [es[0]] + es[1..] == past + es;
    }
  }

  /** In every run the actor stands where its last step took it, each call where its own
      did, and what was received is what arrived. */
  lemma EventsAccountFor(es: seq<Event>, s: State)
    requires Run(INIT, es) == Some(s)
    ensures Tells(es, s)
  {
    assert [] + es == es;
    RunTells([], INIT, es, s);
  }

  /** A call that waits and has been answered, or told that it is closed, can return just
      that; and one that waits and has not can time out. */
  lemma WaiterCanReturn(es: seq<Event>, s: State, c: nat)
    requires Run(INIT, es) == Some(s) && c < |s.calls| && LastOf(es, c) == Some(Queue(c))
    ensures match s.calls[c].slot
            case Filled(o) => Step(s, Return(c)).Some? && Step(s, Return(c)).value.calls[c].phase == Returned(Answered(o))
            case Dropped => Step(s, Return(c)).Some? && Step(s, Return(c)).value.calls[c].phase == Returned(Closed)
            case Empty => Step(s, Expire(c)).Some?
  {
    EventsAccountFor(es, s);
    assert PhaseTells(es, s.calls[c], c);
  }
}
