/**
 The transport-to-service driver loop of turbomcp-service: one reader, one
 writer, spawned handlers, a semaphore and a bounded outbound channel, all
 multiplexed by a single task.

 The driver is a machine over events. An event carries every choice the
 scheduler, the peer or a handler makes, so `Step` is a function and a run is
 the list of its events.
 */
module ServeDriver {
  import opened Wrappers

  type Body = string

  /** A frame on the outbound channel, with the handler that put it there. */
  datatype Outbound = FromHandler(handler: nat, body: Body) | FromElsewhere(body: Body)

  /** A spawned handler task. `todo` is what it will still put on the channel:
      any progress frames it pushes, then its reply if it has one. */
  datatype Handler = Running(todo: seq<Body>) | Finished | Joined | Aborted

  /** Where the driver task stands.
      - `Select`: at the top of the main loop, about to poll the arms in order;
      - `Polled`: this pass found the channel empty and is polling later arms;
      - `Parked`: inside the read arm, waiting for a permit;
      - `Readying`: permit held, driving the service to readiness;
      - `Draining`, `Flushing`: the two shutdown phases;
      - `Closed`: the transport is closed. */
  datatype Phase = Select | Polled | Parked | Readying | Draining | Flushing | Closed

  datatype State = State(
    phase: Phase,
    handlers: seq<Handler>,
    permits: nat,
    queue: seq<Outbound>,
    wire: seq<Outbound>,
    // History: all that was ever put on the channel, what each handler was
    // spawned to put there, and whether a write failed or handlers were aborted.
    enqueued: seq<Outbound>,
    produced: seq<seq<Body>>,
    writeFailed: bool,
    aborted: bool)

  /** `budget` bounds the frames one handler puts on the channel; `pushes` says
      whether other tasks also use the connection's registered writer. */
  datatype Config = Config(maxInFlight: nat, budget: nat, pushes: bool)
  {
    function Capacity(): (c: nat)
      ensures c >= 1
    {
      if maxInFlight == 0 then 1 else maxInFlight
    }
  }

  datatype Event =
    | Write | WriteFails | PollEmpty | Wake
    | Reap(i: nat) | Shutdown | Eof | RecvFails
    | Recv | Acquire | ReadyFails | Spawn(frames: seq<Body>)
    | Emit(i: nat) | Finish(i: nat) | Push(body: Body)
    | DrainWrite | DrainWriteFails | DrainReap(i: nat) | Deadline | DrainDone
    | Flush | FlushFails | Abort(i: nat) | Close

  function Init(cfg: Config): State {
    State(Select, [], cfg.Capacity(), [], [], [], [], false, false)
  }

  // ---- the machine ---------------------------------------------------------

  predicate IsRunning(s: State, i: nat) {
    i < |s.handlers| && s.handlers[i].Running?
  }

  predicate AllJoined(hs: seq<Handler>) {
    forall i | 0 <= i < |hs| :: hs[i].Joined?
  }

  predicate NoneRunning(hs: seq<Handler>) {
    forall i | 0 <= i < |hs| :: !hs[i].Running?
  }

  /** Move the oldest queued frame to the wire. */
  function WriteOne(s: State): State
    requires s.queue != []
  {
    s.(wire := s.wire + [s.queue[0]], queue := s.queue[1..])
  }

  /** Put one frame on the channel. */
  function Enqueue(s: State, out: Outbound): State {
    s.(queue := s.queue + [out], enqueued := s.enqueued + [out])
  }

  function When(guard: bool, s: State): Option<State> {
    if guard then Some(s) else None
  }

  function Step(cfg: Config, s: State, e: Event): Option<State> {
    match e
    // Main loop, arm 1.
    case Write =>
      if s.phase.Select? && s.queue != [] then Some(WriteOne(s)) else None
    case WriteFails =>
      if s.phase.Select? && s.queue != [] then
        Some(s.(queue := s.queue[1..], writeFailed := true, phase := Draining))
      else None
    case PollEmpty => When(s.phase.Select? && s.queue == [], s.(phase := Polled))
    // Main loop, arms 2 to 4, polled only after arm 1 found nothing.
    case Wake => When(s.phase.Polled?, s.(phase := Select))
    case Reap(i) =>
      if s.phase.Polled? && i < |s.handlers| && s.handlers[i].Finished? then
        Some(s.(handlers := s.handlers[i := Joined], phase := Select))
      else None
    case Shutdown => When(s.phase.Polled?, s.(phase := Draining))
    case Eof => When(s.phase.Polled?, s.(phase := Draining))
    case RecvFails => When(s.phase.Polled?, s.(phase := Draining))
    case Recv => When(s.phase.Polled?, s.(phase := Parked))
    // Inside the read arm.
    case Acquire =>
      if s.phase.Parked? && s.permits > 0 then
        Some(s.(permits := s.permits - 1, phase := Readying))
      else None
    case ReadyFails =>
      When(s.phase.Readying?, s.(permits := s.permits + 1, phase := Draining))
    case Spawn(frames) =>
      When(s.phase.Readying? && |frames| <= cfg.budget,
           s.(handlers := s.handlers + [Running(frames)],
              produced := s.produced + [frames],
              phase := Select))
    // The handlers, on their own tasks.
    case Emit(i) =>
      if IsRunning(s, i) && s.handlers[i].todo != [] && |s.queue| < cfg.Capacity() && !s.phase.Closed? then
        var todo := s.handlers[i].todo;
        Some(Enqueue(s.(handlers := s.handlers[i := Running(todo[1..])]), FromHandler(i, todo[0])))
      else None
    case Finish(i) =>
      if IsRunning(s, i) && s.handlers[i].todo == [] then
        Some(s.(handlers := s.handlers[i := Finished], permits := s.permits + 1))
      else None
    // Anyone else holding the registered writer.
    case Push(body) =>
      When(cfg.pushes && |s.queue| < cfg.Capacity() && !s.phase.Flushing? && !s.phase.Closed?,
           Enqueue(s, FromElsewhere(body)))
    // Drain, phase 1.
    case DrainWrite =>
      if s.phase.Draining? && !AllJoined(s.handlers) && s.queue != [] then Some(WriteOne(s)) else None
    case DrainWriteFails =>
      if s.phase.Draining? && !AllJoined(s.handlers) && s.queue != [] then
        Some(s.(queue := s.queue[1..], writeFailed := true, aborted := true, phase := Flushing))
      else None
    case DrainReap(i) =>
      if s.phase.Draining? && i < |s.handlers| && s.handlers[i].Finished? then
        Some(s.(handlers := s.handlers[i := Joined]))
      else None
    case Deadline =>
      When(s.phase.Draining? && !AllJoined(s.handlers), s.(aborted := true, phase := Flushing))
    case DrainDone => When(s.phase.Draining? && AllJoined(s.handlers), s.(phase := Flushing))
    // Drain, phase 2.
    case Flush =>
      if s.phase.Flushing? && s.queue != [] then Some(WriteOne(s)) else None
    case FlushFails =>
      if s.phase.Flushing? && s.queue != [] then
        Some(s.(queue := s.queue[1..], writeFailed := true, phase := Closed))
      else None
    case Abort(i) =>
      if s.phase.Flushing? && s.aborted && IsRunning(s, i) then
        Some(s.(handlers := s.handlers[i := Aborted], permits := s.permits + 1))
      else None
    case Close =>
      When(s.phase.Flushing? && s.queue == [] && NoneRunning(s.handlers), s.(phase := Closed))
  }

  /** The state a list of events leads to, or `None` when one is not enabled. */
  function Run(cfg: Config, s: State, es: seq<Event>): Option<State>
    decreases |es|
  {
    if es == [] then Some(s)
    else match Step(cfg, s, es[0])
      case None => None
      case Some(s') => Run(cfg, s', es[1..])
  }

  // ---- counting ------------------------------------------------------------

  function Total(hs: seq<Handler>, weight: Handler -> nat): nat {
    if hs == [] then 0 else Total(hs[..|hs| - 1], weight) + weight(hs[|hs| - 1])
  }

  /** Permits a handler holds. */
  function Held(h: Handler): nat { if h.Running? then 1 else 0 }

  /** Frames a handler has not yet put on the channel. */
  function Unsent(h: Handler): nat { if h.Running? then |h.todo| else 0 }

  /** Steps a handler can still take: one per frame and one to finish. */
  function StepsLeft(h: Handler): nat { if h.Running? then |h.todo| + 1 else 0 }

  lemma {:induction false} TotalAppend(hs: seq<Handler>, h: Handler, weight: Handler -> nat)
    ensures Total(hs + [h], weight) == Total(hs, weight) + weight(h)
  {
    assert (hs + [h])[..|hs|] == hs;
  }

  lemma {:induction false} TotalUpdate(hs: seq<Handler>, i: nat, h: Handler, weight: Handler -> nat)
    requires i < |hs|
    ensures Total(hs[i := h], weight) + weight(hs[i]) == Total(hs, weight) + weight(h)
    decreases |hs|
  {
    var n := |hs| - 1;
    if i == n {
      assert hs[i := h][..n] == hs[..n];
    } else {
      TotalUpdate(hs[..n], i, h, weight);
      assert hs[i := h][..n] == hs[..n][i := h];
    }
  }

  /** When some handler counts, the total does; when the total counts, some handler does. */
  lemma {:induction false} TotalPositive(hs: seq<Handler>, weight: Handler -> nat)
    ensures Total(hs, weight) > 0 <==> exists i | 0 <= i < |hs| :: weight(hs[i]) > 0
    decreases |hs|
  {
    if hs != [] {
      var n := |hs| - 1;
      TotalPositive(hs[..n], weight);
      if i :| 0 <= i < |hs| && weight(hs[i]) > 0 {
        if i < n { assert weight(hs[..n][i]) > 0; }
      }
      if Total(hs[..n], weight) > 0 {
        var i :| 0 <= i < n && weight(hs[..n][i]) > 0;
        assert weight(hs[i]) > 0;
      }
    }
  }

  /** Pointwise domination carries over to totals. */
  lemma {:induction false} TotalAtMost(hs: seq<Handler>, small: Handler -> nat, big: Handler -> nat, factor: nat)
    requires forall i | 0 <= i < |hs| :: small(hs[i]) <= factor * big(hs[i])
    ensures Total(hs, small) <= factor * Total(hs, big)
    decreases |hs|
  {
    if hs != [] {
      var n := |hs| - 1;
      assert forall i | 0 <= i < n :: small(hs[..n][i]) <= factor * big(hs[..n][i]);
      TotalAtMost(hs[..n], small, big, factor);
      assert small(hs[n]) <= factor * big(hs[n]);
    }
  }

  // ---- what every step keeps -------------------------------------------------

  /** The bodies handler `h` contributed to `frames`, in order. */
  function From(frames: seq<Outbound>, h: nat): seq<Body> {
    if frames == [] then []
    else
      var rest := From(frames[..|frames| - 1], h);
      var out := frames[|frames| - 1];
      if out.FromHandler? && out.handler == h then rest + [out.body] else rest
  }

  lemma FromAppend(frames: seq<Outbound>, out: Outbound, h: nat)
    ensures From(frames + [out], h) ==
            if out.FromHandler? && out.handler == h then From(frames, h) + [out.body] else From(frames, h)
  {
    assert (frames + [out])[..|frames|] == frames;
  }

  /** Permits are conserved and the channel respects its bound. */
  ghost predicate Accounted(cfg: Config, s: State) {
    && s.permits + Total(s.handlers, Held) + (if s.phase.Readying? then 1 else 0) == cfg.Capacity()
    && |s.queue| <= cfg.Capacity()
  }

  /** What handler `i` put on the channel, then what it still will, is what it was spawned to put. */
  ghost predicate Faithful(sent: seq<Body>, h: Handler, spawned: seq<Body>) {
    match h
    case Running(todo) => sent + todo == spawned
    case Aborted => sent <= spawned
    case _ => sent == spawned
  }

  ghost predicate Delivered(s: State) {
    && |s.handlers| == |s.produced|
    && (forall i | 0 <= i < |s.handlers| :: Faithful(From(s.enqueued, i), s.handlers[i], s.produced[i]))
    && (forall i | |s.handlers| <= i :: From(s.enqueued, i) == [])
  }

  /** No frame is lost, duplicated or reordered unless a write failed. */
  ghost predicate InOrder(s: State) {
    !s.writeFailed ==> s.wire + s.queue == s.enqueued
  }

  /** Where handlers may be aborted, and what each shutdown phase knows. */
  ghost predicate Phased(s: State) {
    && (!s.aborted ==> forall i | 0 <= i < |s.handlers| :: !s.handlers[i].Aborted?)
    && (s.aborted ==> s.phase.Flushing? || s.phase.Closed?)
    && (s.phase.Flushing? && !s.aborted ==> AllJoined(s.handlers))
    && (s.phase.Closed? && !s.writeFailed ==> s.queue == [] && NoneRunning(s.handlers))
  }

  ghost predicate Inv(cfg: Config, s: State) {
    Accounted(cfg, s) && Delivered(s) && InOrder(s) && Phased(s)
  }

  lemma AccountedStep(cfg: Config, s: State, e: Event, s': State)
    requires Accounted(cfg, s) && Step(cfg, s, e) == Some(s')
    ensures Accounted(cfg, s')
  {
    match e
    case Reap(i) => TotalUpdate(s.handlers, i, Joined, Held);
    case DrainReap(i) => TotalUpdate(s.handlers, i, Joined, Held);
    case Finish(i) => TotalUpdate(s.handlers, i, Finished, Held);
    case Abort(i) => TotalUpdate(s.handlers, i, Aborted, Held);
    case Emit(i) => TotalUpdate(s.handlers, i, Running(s.handlers[i].todo[1..]), Held);
    case Spawn(frames) => TotalAppend(s.handlers, Running(frames), Held);
    case _ => AccountedElsewhere(cfg, s, e, s');
  }

  lemma AccountedElsewhere(cfg: Config, s: State, e: Event, s': State)
    requires Accounted(cfg, s) && Step(cfg, s, e) == Some(s')
    requires !e.Reap? && !e.DrainReap? && !e.Finish? && !e.Abort? && !e.Emit? && !e.Spawn?
    ensures Accounted(cfg, s')
  {
  }

  lemma EnqueueDelivered(s: State, out: Outbound, s': State)
    requires Delivered(s) && s'.enqueued == s.enqueued + [out] && s'.produced == s.produced
    requires |s'.handlers| == |s.handlers|
    requires forall j | 0 <= j < |s.handlers| && out != FromHandler(j, out.body) :: s'.handlers[j] == s.handlers[j]
    requires out.FromHandler? ==>
               out.handler < |s.handlers| && s.handlers[out.handler].Running? && s'.handlers[out.handler].Running?
               && s.handlers[out.handler].todo == [out.body] + s'.handlers[out.handler].todo
    ensures Delivered(s')
  {
    forall j: nat ensures From(s'.enqueued, j) ==
                          if out.FromHandler? && out.handler == j then From(s.enqueued, j) + [out.body]
                          else From(s.enqueued, j)
    {
      FromAppend(s.enqueued, out, j);
    }
    forall j | 0 <= j < |s'.handlers| ensures Faithful(From(s'.enqueued, j), s'.handlers[j], s'.produced[j]) {
      assert Faithful(From(s.enqueued, j), s.handlers[j], s.produced[j]);
      if out.FromHandler? && out.handler == j {
        assert From(s.enqueued, j) + s.handlers[j].todo ==
               (From(s.enqueued, j) + [out.body]) + s'.handlers[j].todo;
      }
    }
  }

  lemma DeliveredStep(cfg: Config, s: State, e: Event, s': State)
    requires Delivered(s) && Step(cfg, s, e) == Some(s')
    ensures Delivered(s')
  {
    if e.Emit? {
      EnqueueDelivered(s, FromHandler(e.i, s.handlers[e.i].todo[0]), s');
    } else if e.Push? {
      EnqueueDelivered(s, FromElsewhere(e.body), s');
    } else {
      assert s'.enqueued == s.enqueued;
      forall j | 0 <= j < |s'.handlers| ensures Faithful(From(s'.enqueued, j), s'.handlers[j], s'.produced[j]) {
        if j < |s.handlers| {
          assert Faithful(From(s.enqueued, j), s.handlers[j], s.produced[j]);
        } else {
          assert From(s.enqueued, j) == [];
        }
      }
    }
  }

  lemma InOrderStep(cfg: Config, s: State, e: Event, s': State)
    requires InOrder(s) && Step(cfg, s, e) == Some(s')
    ensures InOrder(s')
  {
    if s.queue != [] {
      assert s.wire + s.queue == (s.wire + [s.queue[0]]) + s.queue[1..];
    }
  }

  lemma PhasedStep(cfg: Config, s: State, e: Event, s': State)
    requires Phased(s) && Step(cfg, s, e) == Some(s')
    ensures Phased(s')
  {
  }

  lemma InvStep(cfg: Config, s: State, e: Event, s': State)
    requires Inv(cfg, s) && Step(cfg, s, e) == Some(s')
    ensures Inv(cfg, s')
  {
    AccountedStep(cfg, s, e, s');
    DeliveredStep(cfg, s, e, s');
    InOrderStep(cfg, s, e, s');
    PhasedStep(cfg, s, e, s');
  }

  lemma {:induction false} InvRun(cfg: Config, s: State, es: seq<Event>, s': State)
    requires Inv(cfg, s) && Run(cfg, s, es) == Some(s')
    ensures Inv(cfg, s')
    decreases |es|
  {
    if es != [] {
      var mid := Step(cfg, s, es[0]).value;
      InvStep(cfg, s, es[0], mid);
      InvRun(cfg, mid, es[1..], s');
    }
  }

  // ---- what the events say ---------------------------------------------------

  /** What takes the driver out of its main loop: a failed read or write, the peer's
      end of stream, the shutdown signal, a service that fails to become ready. */
  predicate IsStop(e: Event) {
    e.Shutdown? || e.Eof? || e.RecvFails? || e.ReadyFails? || e.WriteFails?
  }

  /** Steps of the main loop. */
  predicate IsMainLoop(e: Event) {
    || e.Write? || e.PollEmpty? || e.Wake? || e.Reap? || e.Recv? || e.Acquire? || e.Spawn? || IsStop(e)
  }

  predicate IsShutdown(p: Phase) { p.Draining? || p.Flushing? || p.Closed? }

  predicate IsFailedWrite(e: Event) { e.WriteFails? || e.DrainWriteFails? || e.FlushFails? }

  predicate IsAborting(e: Event) { e.DrainWriteFails? || e.Deadline? }

  /** What ends the first phase of the drain, and the second. */
  predicate IsDrained(e: Event) { e.DrainDone? || e.DrainWriteFails? || e.Deadline? }

  predicate IsClosing(e: Event) { e.Close? || e.FlushFails? }

  /** What one pass of the main loop, having found the channel empty, can come to. */
  predicate EndsPoll(e: Event) { e.Wake? || e.Reap? || e.Shutdown? || e.Eof? || e.RecvFails? || e.Recv? }

  ghost predicate Happened(es: seq<Event>, what: Event -> bool) {
    exists i :: 0 <= i < |es| && what(es[i])
  }

  function Count(es: seq<Event>, what: Event -> bool): nat {
    if es == [] then 0 else Count(es[..|es| - 1], what) + if what(es[|es| - 1]) then 1 else 0
  }

  /** What the handlers of a run were to put on the channel, in order of their spawning. */
  function Spawned(es: seq<Event>): seq<seq<Body>> {
    if es == [] then []
    else
      var rest, e := Spawned(es[..|es| - 1]), es[|es| - 1];
      if e.Spawn? then rest + [e.frames] else rest
  }

  /** What others pushed in a run. */
  function Pushed(es: seq<Event>): seq<Body> {
    if es == [] then []
    else
      var rest, e := Pushed(es[..|es| - 1]), es[|es| - 1];
      if e.Push? then rest + [e.body] else rest
  }

  function Elsewhere(frames: seq<Outbound>): seq<Body> {
    if frames == [] then []
    else
      var rest, out := Elsewhere(frames[..|frames| - 1]), frames[|frames| - 1];
      if out.FromElsewhere? then rest + [out.body] else rest
  }

  function IsJoined(h: Handler): nat { if h.Joined? then 1 else 0 }

  /** The state of a run, in terms of its events: how many frames were received and
      what became of them, what was spawned, pushed and reaped, and what went wrong. */
  ghost predicate Tells(es: seq<Event>, s: State) {
    && s.produced == Spawned(es)
    && Elsewhere(s.enqueued) == Pushed(es)
    && Count(es, (e: Event) => e.Recv?) ==
       |s.handlers| + Count(es, (e: Event) => e.ReadyFails?) + (if s.phase.Parked? || s.phase.Readying? then 1 else 0)
    && Total(s.handlers, IsJoined) == Count(es, (e: Event) => e.Reap? || e.DrainReap?)
    && |s.enqueued| == |s.wire| + |s.queue| + Count(es, IsFailedWrite)
    && Count(es, (e: Event) => e.PollEmpty?) == Count(es, EndsPoll) + (if s.phase.Polled? then 1 else 0)
    && (IsShutdown(s.phase) <==> Happened(es, IsStop))
    && (s.phase.Flushing? || s.phase.Closed? <==> Happened(es, IsDrained))
    && (s.phase.Closed? <==> Happened(es, IsClosing))
    && (s.writeFailed <==> Happened(es, IsFailedWrite))
    && (s.aborted <==> Happened(es, IsAborting))
  }

  lemma CountOneMore(es: seq<Event>, e: Event, what: Event -> bool)
    ensures Count(es + [e], what) == Count(es, what) + if what(e) then 1 else 0
  {
    assert (es + [e])[..|es|] == es;
  }

  lemma HappenedOneMore(es: seq<Event>, e: Event, what: Event -> bool)
    ensures Happened(es + [e], what) <==> Happened(es, what) || what(e)
  {
    if i :| 0 <= i < |es| && what(es[i]) { assert what((es + [e])[i]); }
    if what(e) { assert what((es + [e])[|es|]); }
  }

  lemma ListsOneMore(es: seq<Event>, e: Event, frames: seq<Outbound>, out: Outbound)
    ensures Spawned(es + [e]) == if e.Spawn? then Spawned(es) + [e.frames] else Spawned(es)
    ensures Pushed(es + [e]) == if e.Push? then Pushed(es) + [e.body] else Pushed(es)
    ensures Elsewhere(frames + [out]) == if out.FromElsewhere? then Elsewhere(frames) + [out.body] else Elsewhere(frames)
  {
    assert (es + [e])[..|es|] == es && (frames + [out])[..|frames|] == frames;
  }

  lemma JoinedStep(cfg: Config, s: State, e: Event, s': State)
    requires Step(cfg, s, e) == Some(s')
    ensures Total(s'.handlers, IsJoined) == Total(s.handlers, IsJoined) + if e.Reap? || e.DrainReap? then 1 else 0
  {
    match e
    case Reap(i) => TotalUpdate(s.handlers, i, Joined, IsJoined);
    case DrainReap(i) => TotalUpdate(s.handlers, i, Joined, IsJoined);
    case Finish(i) => TotalUpdate(s.handlers, i, Finished, IsJoined);
    case Abort(i) => TotalUpdate(s.handlers, i, Aborted, IsJoined);
    case Emit(i) => TotalUpdate(s.handlers, i, Running(s.handlers[i].todo[1..]), IsJoined);
    case Spawn(frames) => TotalAppend(s.handlers, Running(frames), IsJoined);
    case _ =>
  }

  lemma HistoryStep(cfg: Config, s: State, e: Event, s': State) returns (out: Outbound)
    requires Step(cfg, s, e) == Some(s')
    ensures s'.produced == if e.Spawn? then s.produced + [e.frames] else s.produced
    ensures s'.enqueued == if e.Push? || e.Emit? then s.enqueued + [out] else s.enqueued
    ensures if e.Push? then out == FromElsewhere(e.body) else out.FromHandler?
  {
    match e
    case Push(body) => out := FromElsewhere(body);
    case Emit(i) => out := FromHandler(i, s.handlers[i].todo[0]);
    case _ => out := FromHandler(0, "");
  }

  lemma ListsStep(cfg: Config, es: seq<Event>, s: State, e: Event, s': State)
    requires s.produced == Spawned(es) && Elsewhere(s.enqueued) == Pushed(es) && Step(cfg, s, e) == Some(s')
    ensures s'.produced == Spawned(es + [e]) && Elsewhere(s'.enqueued) == Pushed(es + [e])
  {
    var out := HistoryStep(cfg, s, e, s');
    ListsOneMore(es, e, s.enqueued, out);
  }

  lemma FlagsStep(cfg: Config, s: State, e: Event, s': State)
    requires Step(cfg, s, e) == Some(s')
    ensures IsShutdown(s'.phase) <==> IsShutdown(s.phase) || IsStop(e)
    ensures s'.phase.Flushing? || s'.phase.Closed? <==> s.phase.Flushing? || s.phase.Closed? || IsDrained(e)
    ensures s'.phase.Closed? <==> s.phase.Closed? || IsClosing(e)
    ensures s'.writeFailed <==> s.writeFailed || IsFailedWrite(e)
    ensures s'.aborted <==> s.aborted || IsAborting(e)
  {
  }

  function InArm(p: Phase): nat { if p.Parked? || p.Readying? then 1 else 0 }

  lemma FramesStep(cfg: Config, s: State, e: Event, s': State)
    requires Step(cfg, s, e) == Some(s')
    ensures |s'.handlers| + (if e.ReadyFails? then 1 else 0) + InArm(s'.phase) ==
            |s.handlers| + InArm(s.phase) + if e.Recv? then 1 else 0
  {
  }

  lemma PassStep(cfg: Config, s: State, e: Event, s': State)
    requires Step(cfg, s, e) == Some(s')
    ensures |s'.enqueued| - |s'.wire| - |s'.queue| ==
            |s.enqueued| - |s.wire| - |s.queue| + if IsFailedWrite(e) then 1 else 0
    ensures (if e.PollEmpty? then 1 else 0) - (if EndsPoll(e) then 1 else 0) ==
            (if s'.phase.Polled? then 1 else 0) - (if s.phase.Polled? then 1 else 0)
  {
  }

  lemma TellsStep(cfg: Config, es: seq<Event>, s: State, e: Event, s': State)
    requires Tells(es, s) && Step(cfg, s, e) == Some(s')
    ensures Tells(es + [e], s')
  {
    CountOneMore(es, e, (x: Event) => x.Recv?);
    CountOneMore(es, e, (x: Event) => x.ReadyFails?);
    CountOneMore(es, e, (x: Event) => x.Reap? || x.DrainReap?);
    CountOneMore(es, e, IsFailedWrite);
    CountOneMore(es, e, (x: Event) => x.PollEmpty?);
    CountOneMore(es, e, EndsPoll);
    HappenedOneMore(es, e, IsDrained);
    HappenedOneMore(es, e, IsClosing);
    PassStep(cfg, s, e, s');
    HappenedOneMore(es, e, IsStop);
    HappenedOneMore(es, e, IsFailedWrite);
    HappenedOneMore(es, e, IsAborting);
    JoinedStep(cfg, s, e, s');
    ListsStep(cfg, es, s, e, s');
    FlagsStep(cfg, s, e, s');
    FramesStep(cfg, s, e, s');
  }

  lemma {:induction false} RunSplit(cfg: Config, s: State, es: seq<Event>, n: nat) returns (mid: State)
    requires n <= |es| && Run(cfg, s, es).Some?
    ensures Run(cfg, s, es[..n]) == Some(mid) && Run(cfg, mid, es[n..]) == Run(cfg, s, es)
    decreases |es|
  {
    if n == 0 {
      mid := s;
      assert es[..0] == [] && es[0..] == es;
    } else {
      var next := Step(cfg, s, es[0]).value;
      mid := RunSplit(cfg, next, es[1..], n - 1);
      assert es[..n][1..] == es[1..][..n - 1] && es[..n][0] == es[0] && es[1..][n - 1..] == es[n..];
    }
  }

  /** In every run: each frame received has one handler, or is the one in the read arm,
      or was given up when the service failed; every reap removed one finished handler;
      each frame put on the channel is on the wire, still queued, or the one that a failed
      write lost; every pass of the main loop that found the channel empty took one of the
      later arms once; and the failed writes, aborts and phases of the shutdown are those
      that happened. */
  lemma {:induction false} EventsAccountFor(cfg: Config, es: seq<Event>, s: State)
    requires Run(cfg, Init(cfg), es) == Some(s)
    ensures Tells(es, s)
  {
    if es != [] {
      var n := |es| - 1;
      var first, e := es[..n], es[n];
      var mid := RunSplit(cfg, Init(cfg), es, n);
      assert es[n..] == [e] && [e][1..] == [];
      EventsAccountFor(cfg, first, mid);
      TellsStep(cfg, first, mid, e, s);
      assert es == first + [e];
    }
  }

  // ---- conservation over whole runs ------------------------------------------

  /** In every run, whatever the handlers, the pushes and the shutdown path:
      running handlers never exceed the capacity; and with no failed write and
      no abort, a closed transport has carried exactly what was put on the
      channel, in channel order, each handler's frames once and in its order, and
      all that others pushed. */
  lemma EveryReplyWrittenOnce(cfg: Config, es: seq<Event>, s: State)
    requires Run(cfg, Init(cfg), es) == Some(s)
    ensures var cap := if cfg.maxInFlight == 0 then 1 else cfg.maxInFlight;
            Total(s.handlers, Held) <= cap && |s.queue| <= cap
    ensures !Happened(es, IsFailedWrite) ==> s.wire <= s.enqueued
    ensures s.phase.Closed? && !Happened(es, IsFailedWrite) ==> s.wire == s.enqueued && Elsewhere(s.wire) == Pushed(es)
    ensures s.phase.Closed? && !Happened(es, IsFailedWrite) && !Happened(es, IsAborting) ==>
              forall i | 0 <= i < |Spawned(es)| :: From(s.wire, i) == Spawned(es)[i]
  {
    InvRun(cfg, Init(cfg), es, s);
    EventsAccountFor(cfg, es, s);
    if s.phase.Closed? && !s.writeFailed && !s.aborted {
      forall i | 0 <= i < |s.produced| ensures From(s.wire, i) == s.produced[i] {
        assert Faithful(From(s.enqueued, i), s.handlers[i], s.produced[i]);
        assert s.wire == s.enqueued;
      }
    }
  }

  // ---- the shutdown ------------------------------------------------------------

  /** What is left of a handler: two steps for each frame, its end and its reaping. */
  function HandlerWork(h: Handler): nat {
    match h
    case Running(todo) => 2 * |todo| + 2
    case Finished => 1
    case _ => 0
  }

  function PhaseWork(p: Phase): nat { if p.Closed? then 0 else if p.Flushing? then 1 else 2 }

  /** What is left of a shutdown. */
  function Work(s: State): nat { |s.queue| + Total(s.handlers, HandlerWork) + PhaseWork(s.phase) }

  /** During the shutdown every step but a push from elsewhere leaves less to do. */
  lemma WorkStep(cfg: Config, s: State, e: Event, s': State)
    requires IsShutdown(s.phase) && Step(cfg, s, e) == Some(s')
    ensures IsShutdown(s'.phase) && !IsMainLoop(e)
    ensures if e.Push? then Work(s') == Work(s) + 1 else Work(s') < Work(s)
  {
    match e
    case DrainReap(i) => TotalUpdate(s.handlers, i, Joined, HandlerWork);
    case Finish(i) => TotalUpdate(s.handlers, i, Finished, HandlerWork);
    case Abort(i) => TotalUpdate(s.handlers, i, Aborted, HandlerWork);
    case Emit(i) => TotalUpdate(s.handlers, i, Running(s.handlers[i].todo[1..]), HandlerWork);
    case _ =>
  }

  lemma {:induction false} WorkRun(cfg: Config, s: State, es: seq<Event>, s': State)
    requires IsShutdown(s.phase) && Run(cfg, s, es) == Some(s')
    ensures IsShutdown(s'.phase) && forall i | 0 <= i < |es| :: !IsMainLoop(es[i])
    ensures |es| + Work(s') <= Work(s) + 2 * |Pushed(es)|
    decreases |es|
  {
    if es != [] {
      var mid := Step(cfg, s, es[0]).value;
      WorkStep(cfg, s, es[0], mid);
      WorkRun(cfg, mid, es[1..], s');
      PushedFirst(es);
    }
  }

  lemma {:induction false} PushedFirst(es: seq<Event>)
    requires es != []
    ensures |Pushed(es)| == |Pushed(es[1..])| + if es[0].Push? then 1 else 0
  {
    if |es| > 1 {
      var n := |es| - 1;
      PushedFirst(es[..n]);
      assert es[..n][1..] == es[1..][..n - 1] && es[1..][n - 1] == es[n];
    }
  }

  /** After the peer's end of stream, the shutdown signal or a failure, in every run, the
      driver never polls, reads or spawns again; its steps and its handlers' are bounded
      by what was left to do, and others' pushes; and as long as the transport is not
      closed there is another. So it closes. */
  lemma ShutdownCloses(cfg: Config, es: seq<Event>, i: nat, s: State) returns (mid: State)
    requires Run(cfg, Init(cfg), es) == Some(s) && i < |es| && IsStop(es[i])
    ensures Run(cfg, Init(cfg), es[..i + 1]) == Some(mid)
    ensures forall j | i < j < |es| :: !IsMainLoop(es[j])
    ensures |es| - (i + 1) + Work(s) <= Work(mid) + 2 * |Pushed(es[i + 1..])|
    ensures s.phase.Closed? || exists e :: IsProgress(e) && !IsMainLoop(e) && Step(cfg, s, e).Some?
  {
    var n := i + 1;
    mid := RunSplit(cfg, Init(cfg), es, n);
    EventsAccountFor(cfg, es[..n], mid);
    assert es[..n][i] == es[i];
    assert Happened(es[..n], IsStop);
    WorkRun(cfg, mid, es[n..], s);
    forall j | i < j < |es| ensures !IsMainLoop(es[j]) {
      assert es[n..][j - n] == es[j];
    }
    InvRun(cfg, Init(cfg), es, s);
    if !s.phase.Closed? {
      var e := NextStep(cfg, s);
      WorkStep(cfg, s, e, Step(cfg, s, e).value);
    }
  }

  lemma AfterClose(cfg: Config, s: State, e: Event)
    requires Step(cfg, s, e).Some?
    ensures s.phase.Flushing? || s.phase.Closed? ==> !e.Push?
    ensures s.phase.Closed? ==> e.Finish?
  {
  }

  /** Once the writer is unregistered nobody else pushes, and once the transport is closed
      nothing more is put on the channel or written; handlers only end. */
  lemma NothingAfterClose(cfg: Config, es: seq<Event>, i: nat, j: nat, s: State)
    requires Run(cfg, Init(cfg), es) == Some(s) && i < j < |es|
    ensures IsDrained(es[i]) ==> !es[j].Push?
    ensures IsClosing(es[i]) ==> es[j].Finish?
  {
    var mid := RunSplit(cfg, Init(cfg), es, j);
    EventsAccountFor(cfg, es[..j], mid);
    assert es[..j][i] == es[i];
    assert IsDrained(es[i]) ==> Happened(es[..j], IsDrained);
    assert IsClosing(es[i]) ==> Happened(es[..j], IsClosing);
    assert es[j..][0] == es[j];
    AfterClose(cfg, mid, es[j]);
  }

  lemma {:induction false} JoinedTotal(hs: seq<Handler>)
    ensures Total(hs, IsJoined) <= |hs|
    ensures Total(hs, IsJoined) == |hs| <==> AllJoined(hs)
  {
    if hs != [] {
      var n := |hs| - 1;
      JoinedTotal(hs[..n]);
      assert AllJoined(hs) <==> AllJoined(hs[..n]) && hs[n].Joined?;
    }
  }

  lemma DrainGuards(cfg: Config, s: State)
    ensures var left := Total(s.handlers, IsJoined) < |s.handlers|;
            && (Step(cfg, s, Deadline).Some? <==> s.phase.Draining? && left)
            && (Step(cfg, s, DrainDone).Some? <==> s.phase.Draining? && !left)
            && (Step(cfg, s, DrainWriteFails).Some? <==> s.phase.Draining? && left && |s.queue| > 0)
  {
    JoinedTotal(s.handlers);
  }

  lemma DrainTold(es: seq<Event>, s: State)
    requires Tells(es, s)
    ensures s.phase.Draining? <==> Happened(es, IsStop) && !Happened(es, IsDrained)
    ensures |s.produced| == |Spawned(es)| && Total(s.handlers, IsJoined) == Count(es, (e: Event) => e.Reap? || e.DrainReap?)
    ensures |s.enqueued| == |s.wire| + |s.queue| + Count(es, IsFailedWrite)
  {
  }

  /** How the drain can end, at any moment of any run: once told to stop, the deadline
      can strike exactly as long as a spawned handler is not reaped; a write can fail then
      if moreover a frame is queued; and otherwise the drain is over. */
  lemma DrainEndsExactly(cfg: Config, es: seq<Event>, s: State)
    requires Run(cfg, Init(cfg), es) == Some(s)
    ensures var draining := Happened(es, IsStop) && !Happened(es, IsDrained);
            var reaped := Count(es, (e: Event) => e.Reap? || e.DrainReap?);
            && (Step(cfg, s, Deadline).Some? <==> draining && reaped < |Spawned(es)|)
            && (Step(cfg, s, DrainDone).Some? <==> draining && reaped == |Spawned(es)|)
            && (Step(cfg, s, DrainWriteFails).Some? <==>
                draining && reaped < |Spawned(es)| && |s.wire| + Count(es, IsFailedWrite) < |s.enqueued|)
  {
    EventsAccountFor(cfg, es, s);
    DrainTold(es, s);
    InvRun(cfg, Init(cfg), es, s);
    DrainGuards(cfg, s);
    JoinedTotal(s.handlers);
  }

  /** And it does: from there some of those steps alone close the transport. */
  lemma {:induction false} ShutdownCanClose(cfg: Config, s: State) returns (es: seq<Event>, s': State)
    requires Inv(cfg, s) && IsShutdown(s.phase)
    ensures Run(cfg, s, es) == Some(s') && s'.phase.Closed?
    ensures forall j | 0 <= j < |es| :: IsProgress(es[j])
    decreases Work(s)
  {
    if s.phase.Closed? {
      es, s' := [], s;
    } else {
      var e := NextStep(cfg, s);
      var next := Step(cfg, s, e).value;
      InvStep(cfg, s, e, next);
      WorkStep(cfg, s, e, next);
      es, s' := ShutdownCanClose(cfg, next);
      es := [e] + es;
    }
  }

  // ---- deadlock --------------------------------------------------------------

  /** Steps the driver and its handlers take on their own, none of them a failure. */
  predicate IsProgress(e: Event) {
    || e.Write? || e.PollEmpty? || e.Acquire? || e.Spawn? || e.Emit? || e.Finish?
    || e.DrainWrite? || e.DrainReap? || e.DrainDone? || e.Flush? || e.Abort? || e.Close?
  }

  /** Nothing inside can move, although the driver is not waiting for its peer. */
  ghost predicate Stuck(cfg: Config, s: State) {
    && !s.phase.Polled? && !s.phase.Closed?
    && forall e | IsProgress(e) :: Step(cfg, s, e).None?
  }

  ghost predicate DeadlockFree(cfg: Config) {
    forall es :: var r := Run(cfg, Init(cfg), es); r.Some? ==> !Stuck(cfg, r.value)
  }

  /** Each handler has at most `cap` frames to go. */
  ghost predicate Frugal(s: State, cap: nat) {
    forall i | 0 <= i < |s.handlers| :: Unsent(s.handlers[i]) <= cap
  }

  predicate InReadArm(p: Phase) { p.Polled? || p.Parked? || p.Readying? }

  /** From the poll that found the channel empty until the read arm ends, the
      channel has room for all that running handlers have yet to send. */
  ghost predicate Roomy(cfg: Config, s: State) {
    InReadArm(s.phase) ==> |s.queue| + Total(s.handlers, Unsent) <= cfg.Capacity()
  }

  lemma FrugalStep(cfg: Config, cap: nat, s: State, e: Event, s': State)
    requires cfg.budget <= cap && Frugal(s, cap) && Step(cfg, s, e) == Some(s')
    ensures Frugal(s', cap)
  {
    if e.Emit? {
      assert Unsent(s'.handlers[e.i]) < Unsent(s.handlers[e.i]);
    }
  }

  /** The counting argument: with one reply per handler and no other pusher,
      room is established by the poll and only ever used by the frames counted. */
  lemma RoomyStep(cfg: Config, s: State, e: Event, s': State)
    requires cfg.budget <= 1 && !cfg.pushes
    requires Accounted(cfg, s) && Frugal(s, 1) && Roomy(cfg, s)
    requires Step(cfg, s, e) == Some(s')
    ensures Roomy(cfg, s')
  {
    match e
    case PollEmpty => TotalAtMost(s.handlers, Unsent, Held, 1);
    case Finish(i) => RoomyFinish(cfg, s, i, s');
    case Emit(i) => RoomyEmit(cfg, s, i, s');
    case _ => RoomyElsewhere(cfg, s, e, s');
  }

  lemma RoomyFinish(cfg: Config, s: State, i: nat, s': State)
    requires Roomy(cfg, s) && Step(cfg, s, Finish(i)) == Some(s')
    ensures Roomy(cfg, s')
  {
    TotalUpdate(s.handlers, i, Finished, Unsent);
  }

  lemma RoomyEmit(cfg: Config, s: State, i: nat, s': State)
    requires Roomy(cfg, s) && Step(cfg, s, Emit(i)) == Some(s')
    ensures Roomy(cfg, s')
  {
    TotalUpdate(s.handlers, i, Running(s.handlers[i].todo[1..]), Unsent);
  }

  lemma RoomyElsewhere(cfg: Config, s: State, e: Event, s': State)
    requires !cfg.pushes && Roomy(cfg, s) && Step(cfg, s, e) == Some(s')
    requires !e.PollEmpty? && !e.Finish? && !e.Emit?
    ensures Roomy(cfg, s')
  {
  }

  ghost predicate SafeInv(cfg: Config, s: State) {
    Inv(cfg, s) && Frugal(s, 1) && Roomy(cfg, s)
  }

  lemma SafeInvStep(cfg: Config, s: State, e: Event, s': State)
    requires cfg.budget <= 1 && !cfg.pushes
    requires SafeInv(cfg, s) && Step(cfg, s, e) == Some(s')
    ensures SafeInv(cfg, s')
  {
    InvStep(cfg, s, e, s');
    RoomyStep(cfg, s, e, s');
    FrugalStep(cfg, 1, s, e, s');
  }

  lemma {:induction false} SafeInvRun(cfg: Config, s: State, es: seq<Event>, s': State)
    requires cfg.budget <= 1 && !cfg.pushes
    requires SafeInv(cfg, s) && Run(cfg, s, es) == Some(s')
    ensures SafeInv(cfg, s')
    decreases |es|
  {
    if es != [] {
      SafeInvStep(cfg, s, es[0], Step(cfg, s, es[0]).value);
      SafeInvRun(cfg, Step(cfg, s, es[0]).value, es[1..], s');
    }
  }

  lemma RunningWitness(hs: seq<Handler>) returns (i: nat)
    requires Total(hs, Held) > 0
    ensures i < |hs| && hs[i].Running?
  {
    TotalPositive(hs, Held);
    i :| 0 <= i < |hs| && Held(hs[i]) > 0;
  }

  predicate WaitsForPermit(s: State) { s.phase.Parked? && s.permits == 0 }

  /** Outside the wait for a permit the driver always has a next step, under any load. */
  lemma NextStep(cfg: Config, s: State) returns (e: Event)
    requires Inv(cfg, s) && !s.phase.Polled? && !s.phase.Closed? && !WaitsForPermit(s)
    ensures IsProgress(e) && Step(cfg, s, e).Some?
  {
    match s.phase
    case Select => e := if s.queue == [] then PollEmpty else Write;
    case Parked => e := Acquire;
    case Readying => e := Spawn([]);
    case Draining =>
      e := NextDrainStep(cfg, s);
    case Flushing =>
      e := NextFlushStep(cfg, s);
  }

  lemma NextDrainStep(cfg: Config, s: State) returns (e: Event)
    requires Inv(cfg, s) && s.phase.Draining?
    ensures IsProgress(e) && Step(cfg, s, e).Some?
  {
    if AllJoined(s.handlers) {
      e := DrainDone;
    } else if s.queue != [] {
      e := DrainWrite;
    } else {
      var i :| 0 <= i < |s.handlers| && !s.handlers[i].Joined?;
      e := if s.handlers[i].Finished? then DrainReap(i)
           else if s.handlers[i].todo == [] then Finish(i) else Emit(i);
    }
  }

  lemma NextFlushStep(cfg: Config, s: State) returns (e: Event)
    requires Inv(cfg, s) && s.phase.Flushing?
    ensures IsProgress(e) && Step(cfg, s, e).Some?
  {
    if s.queue != [] {
      e := Flush;
    } else if i :| 0 <= i < |s.handlers| && s.handlers[i].Running? {
      e := Abort(i);
    } else {
      e := Close;
    }
  }

  /** A parked reader with no permit left always has a handler that can move. */
  lemma ParkedCanMove(cfg: Config, s: State) returns (e: Event)
    requires SafeInv(cfg, s) && WaitsForPermit(s)
    ensures (e.Emit? || e.Finish?) && Step(cfg, s, e).Some?
  {
    var i := RunningWitness(s.handlers);
    if s.handlers[i].todo == [] {
      e := Finish(i);
    } else {
      assert Unsent(s.handlers[i]) > 0;
      TotalPositive(s.handlers, Unsent);
      e := Emit(i);
    }
  }

  lemma OneReplyNeverDeadlocks(cfg: Config, es: seq<Event>, s: State)
    requires cfg.budget <= 1 && !cfg.pushes
    requires Run(cfg, Init(cfg), es) == Some(s)
    ensures !Stuck(cfg, s)
  {
    SafeInvRun(cfg, Init(cfg), es, s);
    if WaitsForPermit(s) {
      var e := ParkedCanMove(cfg, s);
    } else if !s.phase.Polled? && !s.phase.Closed? {
      var e := NextStep(cfg, s);
    }
  }

  /** A handler with nothing to send always finishes, so even a full channel frees the reader. */
  lemma SilentNeverDeadlocks(cfg: Config, es: seq<Event>, s: State)
    requires cfg.budget == 0
    requires Run(cfg, Init(cfg), es) == Some(s)
    ensures !Stuck(cfg, s)
  {
    InvRun(cfg, Init(cfg), es, s);
    FrugalRun(cfg, Init(cfg), es, s);
    if WaitsForPermit(s) {
      var i := RunningWitness(s.handlers);
      assert Unsent(s.handlers[i]) == 0;
      assert IsProgress(Finish(i)) && Step(cfg, s, Finish(i)).Some?;
    } else if !s.phase.Polled? && !s.phase.Closed? {
      var e := NextStep(cfg, s);
    }
  }

  lemma {:induction false} FrugalRun(cfg: Config, s: State, es: seq<Event>, s': State)
    requires Frugal(s, cfg.budget) && Run(cfg, s, es) == Some(s')
    ensures Frugal(s', cfg.budget)
    decreases |es|
  {
    if es != [] {
      FrugalStep(cfg, cfg.budget, s, es[0], Step(cfg, s, es[0]).value);
      FrugalRun(cfg, Step(cfg, s, es[0]).value, es[1..], s');
    }
  }

  // ---- a permit is always freed ----------------------------------------------

  ghost predicate HandlerSteps(es: seq<Event>) {
    forall k | 0 <= k < |es| :: es[k].Emit? || es[k].Finish?
  }

  lemma {:induction false} PermitIsFreed(cfg: Config, s: State, es: seq<Event>, s': State)
    requires cfg.budget <= 1 && !cfg.pushes
    requires SafeInv(cfg, s) && s.phase.Parked?
    requires HandlerSteps(es) && Run(cfg, s, es) == Some(s')
    ensures |es| + Total(s'.handlers, StepsLeft) == Total(s.handlers, StepsLeft) <= 2 * cfg.Capacity()
    ensures s'.phase.Parked?
    ensures s'.permits > 0 || exists e: Event :: (e.Emit? || e.Finish?) && Step(cfg, s', e).Some?
    decreases |es|
  {
    assert forall i | 0 <= i < |s.handlers| :: Unsent(s.handlers[i]) <= 1;
    TotalAtMost(s.handlers, StepsLeft, Held, 2);
    if es == [] {
      if s.permits == 0 {
        var e := ParkedCanMove(cfg, s);
      }
    } else {
      var mid := Step(cfg, s, es[0]).value;
      var i := es[0].i;
      TotalUpdate(s.handlers, i, mid.handlers[i], StepsLeft);
      assert mid.handlers == s.handlers[i := mid.handlers[i]];
      SafeInvStep(cfg, s, es[0], mid);
      PermitIsFreed(cfg, mid, es[1..], s');
    }
  }

  /** From any state a run can reach with the reader parked, the handlers alone
      run for at most two steps per permit, and as long as no permit is free one
      of them can step again: however they are scheduled, a permit is freed. */
  lemma ParkedReaderIsServed(cfg: Config, past: seq<Event>, s: State, es: seq<Event>, s': State)
    requires cfg.budget <= 1 && !cfg.pushes
    requires Run(cfg, Init(cfg), past) == Some(s) && s.phase.Parked?
    requires HandlerSteps(es) && Run(cfg, s, es) == Some(s')
    ensures |es| <= 2 * cfg.Capacity() && s'.phase.Parked?
    ensures s'.permits > 0 || exists e: Event :: (e.Emit? || e.Finish?) && Step(cfg, s', e).Some?
  {
    SafeInvRun(cfg, Init(cfg), past, s);
    PermitIsFreed(cfg, s, es, s');
  }

  // ---- and exactly when the driver can deadlock --------------------------------

  lemma {:induction false} RunExtend(cfg: Config, s: State, es: seq<Event>, mid: State, e: Event, s': State)
    requires Run(cfg, s, es) == Some(mid) && Step(cfg, mid, e) == Some(s')
    ensures Run(cfg, s, es + [e]) == Some(s')
    decreases |es|
  {
    if es == [] {
      assert [e][1..] == [];
    } else {
      assert (es + [e])[0] == es[0] && (es + [e])[1..] == es[1..] + [e];
      RunExtend(cfg, Step(cfg, s, es[0]).value, es[1..], mid, e, s');
    }
  }

  ghost predicate Crowded(cfg: Config, s: State, k: nat, frames: seq<Body>) {
    && s.phase.Select? && s.queue == [] && |s.handlers| == k && s.permits + k == cfg.Capacity()
    && forall i | 0 <= i < k :: s.handlers[i] == Running(frames)
  }

  /** Any number of handlers up to the capacity can be running with nothing sent yet. */
  lemma {:induction false} Crowd(cfg: Config, k: nat, frames: seq<Body>) returns (es: seq<Event>, s: State)
    requires k <= cfg.Capacity() && |frames| <= cfg.budget
    ensures Run(cfg, Init(cfg), es) == Some(s) && Crowded(cfg, s, k, frames)
  {
    if k == 0 {
      es, s := [], Init(cfg);
    } else {
      es, s := Crowd(cfg, k - 1, frames);
      es, s := Take(cfg, es, s, PollEmpty);
      es, s := Take(cfg, es, s, Recv);
      es, s := Take(cfg, es, s, Acquire);
      es, s := Take(cfg, es, s, Spawn(frames));
    }
  }

  /** One more event at the end of a run from the start. */
  lemma Take(cfg: Config, es: seq<Event>, s: State, e: Event) returns (es': seq<Event>, s': State)
    requires Run(cfg, Init(cfg), es) == Some(s) && Step(cfg, s, e).Some?
    ensures es' == es + [e] && Some(s') == Step(cfg, s, e)
    ensures Run(cfg, Init(cfg), es') == Some(s')
  {
    es', s' := es + [e], Step(cfg, s, e).value;
    RunExtend(cfg, Init(cfg), es, s, e, s');
  }

  /** The reader parked with every permit taken, `k` frames queued since the poll,
      and every handler with something left to send. */
  ghost predicate Jammed(cfg: Config, s: State, k: nat) {
    && s.phase.Parked? && s.permits == 0 && |s.queue| == k
    && forall i | 0 <= i < |s.handlers| :: s.handlers[i].Running? && s.handlers[i].todo != []
  }

  lemma ParkAllBusy(cfg: Config, frames: seq<Body>) returns (es: seq<Event>, s: State)
    requires frames != [] && |frames| <= cfg.budget
    ensures Run(cfg, Init(cfg), es) == Some(s) && Jammed(cfg, s, 0)
    ensures |s.handlers| == cfg.Capacity() && forall i | 0 <= i < |s.handlers| :: s.handlers[i] == Running(frames)
  {
    es, s := Crowd(cfg, cfg.Capacity(), frames);
    es, s := Take(cfg, es, s, PollEmpty);
    es, s := Take(cfg, es, s, Recv);
  }

  /** Handlers with two frames each fill the channel with their first. */
  lemma {:induction false} JamByProgress(cfg: Config, k: nat) returns (es: seq<Event>, s: State)
    requires cfg.budget >= 2 && k <= cfg.Capacity()
    ensures Run(cfg, Init(cfg), es) == Some(s) && Jammed(cfg, s, k) && |s.handlers| == cfg.Capacity()
    ensures forall i | k <= i < |s.handlers| :: s.handlers[i] == Running(["progress", "reply"])
  {
    if k == 0 {
      es, s := ParkAllBusy(cfg, ["progress", "reply"]);
    } else {
      es, s := JamByProgress(cfg, k - 1);
      es, s := Take(cfg, es, s, Emit(k - 1));
    }
  }

  /** Pushes from elsewhere fill the channel while every handler still owes its reply. */
  lemma {:induction false} JamByPushes(cfg: Config, k: nat) returns (es: seq<Event>, s: State)
    requires cfg.budget >= 1 && cfg.pushes && k <= cfg.Capacity()
    ensures Run(cfg, Init(cfg), es) == Some(s) && Jammed(cfg, s, k)
  {
    if k == 0 {
      es, s := ParkAllBusy(cfg, ["reply"]);
    } else {
      es, s := JamByPushes(cfg, k - 1);
      es, s := Take(cfg, es, s, Push("update"));
    }
  }

  lemma JammedIsStuck(cfg: Config, s: State)
    requires Jammed(cfg, s, cfg.Capacity())
    ensures Stuck(cfg, s)
  {
  }

  /** Whatever the capacity, the driver is free of deadlock exactly when handlers
      never write to the channel, or write at most their one reply and nobody
      else holds the registered writer. */
  lemma DeadlockFreeExactly(cfg: Config)
    ensures DeadlockFree(cfg) <==> cfg.budget == 0 || (cfg.budget == 1 && !cfg.pushes)
  {
    if cfg.budget == 0 || (cfg.budget == 1 && !cfg.pushes) {
      forall es | Run(cfg, Init(cfg), es).Some? ensures !Stuck(cfg, Run(cfg, Init(cfg), es).value) {
        var s := Run(cfg, Init(cfg), es).value;
        if cfg.budget == 0 {
          SilentNeverDeadlocks(cfg, es, s);
        } else {
          OneReplyNeverDeadlocks(cfg, es, s);
        }
      }
    } else {
      var es, s;
      if cfg.budget >= 2 {
        es, s := JamByProgress(cfg, cfg.Capacity());
      } else {
        es, s := JamByPushes(cfg, cfg.Capacity());
      }
      JammedIsStuck(cfg, s);
    }
  }
}
