/** Clients blocked in `wait_result`, interleaved with everything else that
    happens to the registry: no wakeup is lost, and what a waiter returns is the
    outcome of the task's first terminal transition. */
module TaskWaiting {
  import opened Wrappers
  import opened Json
  import opened TaskStore

  /** A caller of `wait_result`: about to take the lock, waiting for the watch
      channel to move past the version it subscribed at, or returned. */
  datatype Place = AtLock | Parked(seen: nat) | Returned(result: Result<Outcome, TaskError>)

  datatype Waiter = Waiter(session: string, id: string, place: Place)

  /** `owners` and `firsts` are history: who created each task ever, and the
      outcome its first terminal transition recorded. */
  datatype State = State(
    entries: Table,
    waiters: seq<Waiter>,
    owners: map<string, string>,
    firsts: map<string, Outcome>)

  datatype Event =
    | Create(session: string, id: string, requested: Option<int>, token: nat, now: nat)
    | Complete(id: string, outcome: Outcome)
    | Cancel(id: string)
    | Purge(now: nat)
    | Call(session: string, id: string)
    | TakeLock(i: nat, now: nat)
    | Wake(i: nat, closedFirst: bool)

  function Init(): State { State(map[], [], map[], map[]) }

  /** Record the outcome of a transition to a terminal status. */
  function Note(s: State, id: string, e': Entry): State
    requires id in s.entries
  {
    if !s.entries[id].status.IsTerminal() && e'.outcome.Some? then
      s.(entries := s.entries[id := e'], firsts := s.firsts[id := e'.outcome.value])
    else s.(entries := s.entries[id := e'])
  }

  function Move(s: State, i: nat, place: Place): State
    requires i < |s.waiters|
  {
    s.(waiters := s.waiters[i := s.waiters[i].(place := place)])
  }

  /** A parked waiter can run once the version moved or the sender is gone; when
      both happened either may be reported. */
  predicate CanWake(s: State, i: nat)
    requires i < |s.waiters| && s.waiters[i].place.Parked?
  {
    var w := s.waiters[i];
    w.id !in s.entries || s.entries[w.id].version != w.place.seen
  }

  function Step(s: State, e: Event): Option<State> {
    match e
    case Create(session, id, requested, token, now) =>
      if id in s.owners then None
      else Some(s.(entries := s.entries[id := NewEntry(session, requested, token, now)],
                   owners := s.owners[id := session]))
    case Complete(id, outcome) =>
      if id in s.entries then Some(Note(s, id, CompleteEntry(s.entries[id], outcome))) else None
    case Cancel(id) =>
      if id in s.entries then Some(Note(s, id, CancelEntry(s.entries[id]))) else None
    case Purge(now) => Some(s.(entries := Purged(s.entries, now)))
    case Call(session, id) => Some(s.(waiters := s.waiters + [Waiter(session, id, AtLock)]))
    case TakeLock(i, now) =>
      if i < |s.waiters| && s.waiters[i].place.AtLock? then
        var w := s.waiters[i];
        var s' := s.(entries := Purged(s.entries, now));
        match WaitPass(s'.entries, w.session, w.id)
        case Answer(result) => Some(Move(s', i, Returned(result)))
        case Park(version) => Some(Move(s', i, Parked(version)))
      else None
    case Wake(i, closedFirst) =>
      if i < |s.waiters| && s.waiters[i].place.Parked? && CanWake(s, i) then
        if closedFirst && s.waiters[i].id !in s.entries then Some(Move(s, i, Returned(Err(NotFound))))
        else Some(Move(s, i, AtLock))
      else None
  }

  function Run(s: State, es: seq<Event>): Option<State>
    decreases |es|
  {
    if es == [] then Some(s)
    else match Step(s, es[0])
      case None => None
      case Some(s') => Run(s', es[1..])
  }

  // ---- what every interleaving keeps -----------------------------------------------------

  ghost predicate TableOk(s: State) {
    forall id | id in s.entries ::
      var e := s.entries[id];
      && EntryOk(e)
      && id in s.owners && s.owners[id] == e.session
      && (e.status.IsTerminal() ==> id in s.firsts && e.outcome == Some(s.firsts[id]))
      && (!e.status.IsTerminal() ==> id !in s.firsts)
  }

  /** A waiter parked on a live entry saw it before it was terminal, at a version
      not ahead of the present one; and ids being fresh, it waits on that very task. */
  ghost predicate WaiterOk(s: State, w: Waiter) {
    match w.place
    case AtLock => true
    case Parked(seen) =>
      && w.id in s.owners
      && (w.id in s.entries ==>
            && seen <= s.entries[w.id].version
            && (s.entries[w.id].status.IsTerminal() ==> seen < s.entries[w.id].version))
    case Returned(Ok(outcome)) =>
      && w.id in s.owners && s.owners[w.id] == w.session
      && w.id in s.firsts && s.firsts[w.id] == outcome
    case Returned(Err(error)) => error.NotFound?
  }

  ghost predicate Inv(s: State) {
    && TableOk(s)
    && s.firsts.Keys <= s.owners.Keys
    && forall i | 0 <= i < |s.waiters| :: WaiterOk(s, s.waiters[i])
  }

  /** What the table does to waiters that do not move. */
  ghost predicate TableAdvances(s: State, s': State) {
    && (forall id | id in s.owners :: id in s'.owners && s'.owners[id] == s.owners[id])
    && (forall id | id in s.firsts :: id in s'.firsts && s'.firsts[id] == s.firsts[id])
    && (forall id | id in s.owners && id in s'.entries ::
          && id in s.entries
          && s.entries[id].version <= s'.entries[id].version
          && (s'.entries[id].status.IsTerminal() && !s.entries[id].status.IsTerminal() ==>
                s.entries[id].version < s'.entries[id].version))
  }

  lemma AdvanceKeepsWaiter(s: State, s': State, w: Waiter)
    requires TableAdvances(s, s') && WaiterOk(s, w)
    ensures WaiterOk(s', w)
  {
  }

  lemma NoteAdvances(s: State, id: string, e': Entry)
    requires Inv(s) && id in s.entries
    requires EntryOk(e') && e'.session == s.entries[id].session
    requires if s.entries[id].status.IsTerminal() then e' == s.entries[id] else e'.version > s.entries[id].version
    ensures TableAdvances(s, Note(s, id, e')) && TableOk(Note(s, id, e'))
    ensures Note(s, id, e').firsts.Keys <= s.owners.Keys
  {
  }

  lemma PurgeAdvances(s: State, now: nat)
    requires Inv(s)
    ensures var s' := s.(entries := Purged(s.entries, now)); TableAdvances(s, s') && TableOk(s')
  {
  }

  lemma StepAdvances(s: State, e: Event, s': State)
    requires Inv(s) && Step(s, e) == Some(s')
    ensures TableAdvances(s, s') && TableOk(s')
    ensures s'.firsts.Keys <= s'.owners.Keys
  {
    match e
    case Complete(id, outcome) => NoteAdvances(s, id, CompleteEntry(s.entries[id], outcome));
    case Cancel(id) => NoteAdvances(s, id, CancelEntry(s.entries[id]));
    case Purge(now) => PurgeAdvances(s, now);
    case TakeLock(_, now) => PurgeAdvances(s, now);
    case _ => OtherAdvances(s, e, s');
  }

  lemma OtherAdvances(s: State, e: Event, s': State)
    requires Inv(s) && Step(s, e) == Some(s')
    requires !e.Complete? && !e.Cancel? && !e.Purge? && !e.TakeLock?
    ensures TableAdvances(s, s') && TableOk(s') && s'.firsts.Keys <= s'.owners.Keys
  {
  }

  lemma InvStep(s: State, e: Event, s': State)
    requires Inv(s) && Step(s, e) == Some(s')
    ensures Inv(s')
  {
    StepAdvances(s, e, s');
    forall i | 0 <= i < |s'.waiters| ensures WaiterOk(s', s'.waiters[i]) {
      WaiterStep(s, e, s', i);
    }
  }

  lemma WaiterStep(s: State, e: Event, s': State, i: nat)
    requires Inv(s) && Step(s, e) == Some(s') && TableAdvances(s, s') && i < |s'.waiters|
    ensures WaiterOk(s', s'.waiters[i])
  {
    if i < |s.waiters| && s'.waiters[i] == s.waiters[i] {
      AdvanceKeepsWaiter(s, s', s.waiters[i]);
    }
  }

  lemma {:induction false} InvRun(s: State, es: seq<Event>, s': State)
    requires Inv(s) && Run(s, es) == Some(s')
    ensures Inv(s')
    decreases |es|
  {
    if es != [] {
      InvStep(s, es[0], Step(s, es[0]).value);
      InvRun(Step(s, es[0]).value, es[1..], s');
    }
  }

  // ---- what the events say ------------------------------------------------------------------

  /** Who created a task. */
  function Owner(es: seq<Event>, id: string): Option<string> {
    if es == [] then None
    else
      var e := es[|es| - 1];
      if e.Create? && e.id == id then Some(e.session) else Owner(es[..|es| - 1], id)
  }

  /** The first completion or cancellation of a task. */
  function FirstEnd(es: seq<Event>, id: string): Option<Outcome> {
    if es == [] then None
    else
      var before, e := FirstEnd(es[..|es| - 1], id), es[|es| - 1];
      if before.Some? then before
      else if e.Complete? && e.id == id then Some(e.outcome)
      else if e.Cancel? && e.id == id then Some(Err(RpcError(-32010, "task cancelled")))
      else None
  }

  /** How long a task lives, in nanoseconds: what was asked for, within an hour. */
  function Lifetime(requested: Option<int>): nat {
    var ms := if requested.None? then 300_000 else requested.value;
    1_000_000 * if ms < 0 then 0 else if ms > 3_600_000 then 3_600_000 else ms
  }

  /** Until when a task lives, if no operation that purges has come later than that. */
  function Deadline(es: seq<Event>, id: string): Option<nat> {
    if es == [] then None
    else
      var before, e := Deadline(es[..|es| - 1], id), es[|es| - 1];
      if e.Create? && e.id == id then Some(e.now + Lifetime(e.requested))
      else if (e.Purge? || e.TakeLock?) && before.Some? && e.now > before.value then None
      else before
  }

  /** Who called, and for what. */
  function Calls(es: seq<Event>): seq<(string, string)> {
    if es == [] then []
    else
      var before, e := Calls(es[..|es| - 1]), es[|es| - 1];
      if e.Call? then before + [(e.session, e.id)] else before
  }

  ghost predicate TellsOf(es: seq<Event>, s: State, id: string) {
    && Owner(es, id) == (if id in s.owners then Some(s.owners[id]) else None)
    && FirstEnd(es, id) == (if id in s.firsts then Some(s.firsts[id]) else None)
    && (id in s.entries <==> Deadline(es, id).Some?)
    && (id in s.entries ==>
          && s.entries[id].created + s.entries[id].ttlMs * 1_000_000 == Deadline(es, id).value
          && (s.entries[id].status.IsTerminal() <==> FirstEnd(es, id).Some?))
  }

  ghost predicate Tells(es: seq<Event>, s: State) {
    && (forall id :: TellsOf(es, s, id))
    && |s.waiters| == |Calls(es)|
    && forall i | 0 <= i < |s.waiters| :: (s.waiters[i].session, s.waiters[i].id) == Calls(es)[i]
  }

  lemma OneMore(es: seq<Event>, e: Event, id: string)
    ensures Owner(es + [e], id) == if e.Create? && e.id == id then Some(e.session) else Owner(es, id)
    ensures FirstEnd(es + [e], id) ==
            if FirstEnd(es, id).Some? then FirstEnd(es, id)
            else if e.Complete? && e.id == id then Some(e.outcome)
            else if e.Cancel? && e.id == id then Some(Err(RpcError(-32010, "task cancelled")))
            else None
    ensures Deadline(es + [e], id) ==
            if e.Create? && e.id == id then Some(e.now + Lifetime(e.requested))
            else if (e.Purge? || e.TakeLock?) && Deadline(es, id).Some? && e.now > Deadline(es, id).value then None
            else Deadline(es, id)
    ensures Calls(es + [e]) == if e.Call? then Calls(es) + [(e.session, e.id)] else Calls(es)
  {
    assert (es + [e])[..|es|] == es;
  }

  lemma TableTells(es: seq<Event>, s: State, e: Event, s': State, id: string)
    requires Inv(s) && TellsOf(es, s, id) && Step(s, e) == Some(s')
    ensures TellsOf(es + [e], s', id)
  {
    match e
    case Create(session, _, requested, token, now) =>
      OneMore(es, e, id);
      LifetimeExactly(session, requested, token, now);
    case Complete(_, _) => NoteTells(es, s, e, s', id);
    case Cancel(_) => NoteTells(es, s, e, s', id);
    case Purge(now) => PurgeTells(es, s, e, s', id);
    case TakeLock(_, now) => PurgeTells(es, s, e, s', id);
    case _ => OneMore(es, e, id);
  }

  lemma NoteTells(es: seq<Event>, s: State, e: Event, s': State, id: string)
    requires Inv(s) && TellsOf(es, s, id) && Step(s, e) == Some(s') && (e.Complete? || e.Cancel?)
    ensures TellsOf(es + [e], s', id)
  {
    OneMore(es, e, id);
  }

  lemma PurgeTells(es: seq<Event>, s: State, e: Event, s': State, id: string)
    requires TellsOf(es, s, id) && Step(s, e) == Some(s') && (e.Purge? || e.TakeLock?)
    ensures TellsOf(es + [e], s', id)
  {
    OneMore(es, e, id);
    PurgeExactly(s.entries, e.now);
    assert s'.entries == Purged(s.entries, e.now) && s'.owners == s.owners && s'.firsts == s.firsts;
  }

  lemma WaitersTell(es: seq<Event>, s: State, e: Event, s': State)
    requires Tells(es, s) && Step(s, e) == Some(s')
    ensures |s'.waiters| == |Calls(es + [e])|
    ensures forall i | 0 <= i < |s'.waiters| :: (s'.waiters[i].session, s'.waiters[i].id) == Calls(es + [e])[i]
  {
    OneMore(es, e, "");
  }

  lemma {:induction false} RunTells(past: seq<Event>, s: State, es: seq<Event>, s': State)
    requires Inv(s) && Tells(past, s) && Run(s, es) == Some(s')
    ensures Tells(past + es, s')
    decreases |es|
  {
    if es == [] {
      assert past + es == past;
    } else {
      var mid := Step(s, es[0]).value;
      InvStep(s, es[0], mid);
      WaitersTell(past, s, es[0], mid);
      forall id ensures TellsOf(past + [es[0]], mid, id) {
        TableTells(past, s, es[0], mid, id);
      }
      RunTells(past + [es[0]], mid, es[1..], s');
      assert past + [es[0]] + es[1..] == past + es;
    }
  }

  /** In every run the registry holds exactly the tasks created that nothing has purged
      after their lifetimes; each is terminal exactly once something completed or
      cancelled it; and each caller waits for the task it asked for. */
  lemma EventsAccountFor(es: seq<Event>, s: State)
    requires Run(Init(), es) == Some(s)
    ensures Tells(es, s)
  {
    assert [] + es == es;
    RunTells([], Init(), es, s);
  }

  // ---- the promises ------------------------------------------------------------------------

  /** In every interleaving a waiter parked on a task that is terminal or gone can
      run; and when it next takes the lock it returns. */
  lemma NoLostWakeup(es: seq<Event>, s: State, i: nat, now: nat)
    requires Run(Init(), es) == Some(s)
    requires i < |s.waiters| && s.waiters[i].place.Parked?
    requires s.waiters[i].id !in s.entries || s.entries[s.waiters[i].id].status.IsTerminal()
    ensures CanWake(s, i)
    ensures var woken := Step(s, Wake(i, false));
            && woken.Some? && woken.value.waiters[i].place.AtLock?
            && var answered := Step(woken.value, TakeLock(i, now));
               answered.Some? && answered.value.waiters[i].place.Returned?
  {
    InvRun(Init(), es, s);
    assert WaiterOk(s, s.waiters[i]);
  }

  /** A waiter that returns a result returns the outcome of the first terminal
      transition, of a task its own session created; any other return is "not found". */
  lemma ReturnsFirstOutcome(es: seq<Event>, s: State, i: nat)
    requires Run(Init(), es) == Some(s)
    requires i < |s.waiters| && s.waiters[i].place.Returned?
    ensures match s.waiters[i].place.result
            case Ok(outcome) =>
              && FirstEnd(es, s.waiters[i].id) == Some(outcome)
              && Owner(es, s.waiters[i].id) == Some(s.waiters[i].session)
            case Err(error) => error == NotFound
  {
    InvRun(Init(), es, s);
    EventsAccountFor(es, s);
    assert WaiterOk(s, s.waiters[i]) && TellsOf(es, s, s.waiters[i].id);
  }

  /** And "not found" is returned only for a task that is not there, or not the caller's. */
  lemma NotFoundMeansGone(s: State, e: Event, s': State, i: nat)
    requires Step(s, e) == Some(s') && i < |s.waiters| && !s.waiters[i].place.Returned?
    requires s'.waiters[i].place == Returned(Err(NotFound))
    ensures s.waiters[i].id !in s'.entries || s'.entries[s.waiters[i].id].session != s.waiters[i].session
  {
  }

  /** The fallback for a task finished without an outcome is never taken. */
  lemma NeverWithoutOutcome(es: seq<Event>, s: State, id: string)
    requires Run(Init(), es) == Some(s)
    requires id in s.entries && s.entries[id].status.IsTerminal()
    ensures s.entries[id].outcome.Some? && id in s.firsts && s.entries[id].outcome.value == s.firsts[id]
  {
    InvRun(Init(), es, s);
  }

  /** First outcomes never change, whatever happens later. */
  lemma {:induction false} FirstOutcomeIsFinal(s: State, es: seq<Event>, s': State)
    requires Inv(s) && Run(s, es) == Some(s')
    ensures forall id | id in s.firsts :: id in s'.firsts && s'.firsts[id] == s.firsts[id]
    decreases |es|
  {
    if es != [] {
      var mid := Step(s, es[0]).value;
      StepAdvances(s, es[0], mid);
      InvStep(s, es[0], mid);
      FirstOutcomeIsFinal(mid, es[1..], s');
    }
  }
}
