/**
 The two halves of the draft Tasks protocol composed: one task in the registry,
 the handlers publishing input requests on it, and the client that polls it,
 answers what it sees and sends the answers back.

 Events interleave freely; the registry's part of each is the function the
 registry class is proved against.
 */
module TaskPolling {
  import opened Wrappers
  import opened Json
  import opened DraftTaskStore

  /** One `publish_input` call: the wire key it was given and what it asked. */
  datatype Request = Request(key: string, body: Json)

  /** One answer of the client's handler: the request it was shown and its reply. */
  datatype Answer = Answer(request: Json, value: Json)

  datatype Terminal = Finished(outcome: Outcome) | CancelledByRequest

  datatype Ending =
    | Returned(value: Json)
    | RpcFailed(error: RpcError)
    | TaskCancelled
    | NoResult
    | GaveUp

  /** Where the polling loop stands: about to poll, answering the requests of
      one poll, sending the answers, or over. */
  datatype Client =
    | Polling
    | Viewing(todo: map<string, Json>, responses: map<string, Json>)
    | Updating(responses: map<string, Json>)
    | Ended(ending: Ending)

  /** `entry` is `None` once purged. The channel of the n-th published request
      is number n. The last two fields are history. */
  datatype State = State(
    entry: Option<Entry>,
    issued: seq<Request>,
    mailbox: map<nat, Json>,
    client: Client,
    answered: set<string>,
    answers: map<string, Answer>,
    first: Option<Terminal>)

  datatype Event =
    | Publish(key: string, unique: string, body: Json)
    | Complete(outcome: Outcome)
    | Cancel
    | Expire
    | Poll
    | AnswerOne(key: string, value: Json)
    | EndOfView
    | Update
    | GiveUp

  function Init(ttlMs: Option<int>, token: nat, now: nat): State {
    State(Some(NewEntry(ttlMs, token, now)), [], map[], Polling, {}, map[], None)
  }

  /** What one poll of `tasks/get` makes the loop do. */
  function OnView(view: DetailedTask, answered: set<string>): Client {
    match view.status
    case Completed => Ended(if view.result.Some? then Returned(view.result.value) else NoResult)
    case Failed => Ended(if view.error.Some? then RpcFailed(view.error.value) else NoResult)
    case Cancelled => Ended(TaskCancelled)
    case InputRequired =>
      if view.inputRequests.Some? then Viewing(view.inputRequests.value - answered, map[]) else Viewing(map[], map[])
    case Working => Polling
  }

  ghost function Step(s: State, e: Event): Option<State> {
    match e
    // The registry's side.
    case Publish(key, unique, body) =>
      if s.entry.Some? && !s.entry.value.status.IsTerminal() && IsUniqueVariant(s.entry.value.used, key, unique) then
        Some(s.(entry := Some(PublishEntry(s.entry.value, unique, body, |s.issued|)),
                issued := s.issued + [Request(unique, body)]))
      else None
    case Complete(outcome) =>
      if s.entry.Some? then
        Some(s.(entry := Some(CompleteEntry(s.entry.value, outcome)),
                first := if s.first.None? then Some(Finished(outcome)) else s.first))
      else None
    case Cancel =>
      if s.entry.Some? then
        Some(s.(entry := Some(CancelEntry(s.entry.value)),
                first := if s.first.None? then Some(CancelledByRequest) else s.first))
      else None
    case Expire => if s.entry.Some? then Some(s.(entry := None)) else None
    // The client's side.
    case Poll =>
      if !s.client.Polling? then None
      else if s.entry.None? then Some(s.(client := Ended(GaveUp)))
      else Some(s.(client := OnView(Detailed(s.entry.value), s.answered)))
    case AnswerOne(key, value) =>
      if s.client.Viewing? && key in s.client.todo then
        Some(s.(client := Viewing(s.client.todo - {key}, s.client.responses[key := value]),
                answered := s.answered + {key},
                answers := s.answers[key := Answer(s.client.todo[key], value)]))
      else None
    case EndOfView =>
      if s.client.Viewing? && s.client.todo == map[] then
        Some(s.(client := if s.client.responses == map[] then Polling else Updating(s.client.responses)))
      else None
    case Update =>
      if !s.client.Updating? then None
      else if s.entry.None? then Some(s.(client := Ended(GaveUp)))
      else if Injective(s.entry.value.waiters) then
        Some(s.(entry := Some(DeliverEntry(s.entry.value, s.client.responses)),
                mailbox := s.mailbox + Mail(s.entry.value, s.client.responses),
                client := Polling))
      else None
    // A failed call, a failed input handler or the ttl backstop.
    case GiveUp => if s.client.Ended? then None else Some(s.(client := Ended(GaveUp)))
  }

  ghost function Run(s: State, es: seq<Event>): Option<State>
    decreases |es|
  {
    if es == [] then Some(s)
    else match Step(s, es[0])
      case None => None
      case Some(s') => Run(s', es[1..])
  }

  // ---- what every interleaving keeps -------------------------------------------

  ghost predicate KeysDistinct(issued: seq<Request>) {
    forall i, j | 0 <= i < j < |issued| :: issued[i].key != issued[j].key
  }

  ghost predicate WasIssued(issued: seq<Request>, key: string, body: Json) {
    exists c | 0 <= c < |issued| :: issued[c] == Request(key, body)
  }

  ghost predicate KeyIssued(issued: seq<Request>, key: string) {
    exists c | 0 <= c < |issued| :: issued[c].key == key
  }

  /** The task's tables agree with what was published. */
  ghost predicate EntryMatches(e: Entry, issued: seq<Request>, mailbox: map<nat, Json>) {
    && EntryOk(e)
    && (forall c | 0 <= c < |issued| :: issued[c].key in e.used)
    && (forall k | k in e.used :: KeyIssued(issued, k))
    && (forall k | k in e.waiters ::
          var c := e.waiters[k];
          c < |issued| && issued[c] == Request(k, e.outstanding[k]) && c !in mailbox)
  }

  ghost predicate TaskOk(entry: Option<Entry>, issued: seq<Request>, mailbox: map<nat, Json>) {
    KeysDistinct(issued) && (entry.Some? ==> EntryMatches(entry.value, issued, mailbox))
  }

  /** Every answer was given to a published request, and every delivered value is that answer. */
  ghost predicate AnswersOk(issued: seq<Request>, mailbox: map<nat, Json>, answers: map<string, Answer>) {
    && (forall k | k in answers :: WasIssued(issued, k, answers[k].request))
    && (forall c | c in mailbox ::
          && c < |issued|
          && issued[c].key in answers
          && answers[issued[c].key] == Answer(issued[c].body, mailbox[c]))
  }

  /** Outstanding keys already answered are exactly on their way back. */
  ghost predicate InFlight(entry: Option<Entry>, answers: map<string, Answer>, responses: map<string, Json>) {
    && (forall k | k in responses :: k in answers && responses[k] == answers[k].value)
    && (entry.Some? ==> forall k | k in entry.value.outstanding && k in answers :: k in responses)
  }

  ghost predicate ClientOk(client: Client, entry: Option<Entry>, issued: seq<Request>, answers: map<string, Answer>) {
    match client
    case Polling => InFlight(entry, answers, map[])
    case Viewing(todo, responses) =>
      InFlight(entry, answers, responses) && forall k | k in todo :: k !in answers && WasIssued(issued, k, todo[k])
    case Updating(responses) => InFlight(entry, answers, responses)
    case Ended(_) => true
  }

  ghost predicate FirstOk(s: State) {
    && (s.entry.Some? ==>
        var e := s.entry.value;
        && (e.status.IsTerminal() <==> s.first.Some?)
        && (e.status.Cancelled? <==> s.first == Some(CancelledByRequest))
        && (e.outcome.Some? ==> s.first == Some(Finished(e.outcome.value))))
    && (s.client.Ended? ==>
        match s.client.ending
        case Returned(v) => s.first == Some(Finished(CompletedWith(v)))
        case RpcFailed(error) => s.first == Some(Finished(FailedWith(error)))
        case TaskCancelled => s.first == Some(CancelledByRequest)
        case NoResult => false
        case GaveUp => true)
  }

  ghost predicate Inv(s: State) {
    && TaskOk(s.entry, s.issued, s.mailbox)
    && s.answered == s.answers.Keys
    && AnswersOk(s.issued, s.mailbox, s.answers)
    && ClientOk(s.client, s.entry, s.issued, s.answers)
    && FirstOk(s)
  }

  lemma WasIssuedGrows(issued: seq<Request>, r: Request)
    ensures forall k, b | WasIssued(issued, k, b) :: WasIssued(issued + [r], k, b)
  {
    forall k, b | WasIssued(issued, k, b) ensures WasIssued(issued + [r], k, b) {
      var c :| 0 <= c < |issued| && issued[c] == Request(k, b);
      assert (issued + [r])[c] == Request(k, b);
    }
  }

  /** Keys being unique, what was issued under a key is one request. */
  lemma IssuedOnce(issued: seq<Request>, c: nat, body: Json)
    requires KeysDistinct(issued) && c < |issued| && WasIssued(issued, issued[c].key, body)
    ensures issued[c].body == body
  {
    var d :| 0 <= d < |issued| && issued[d] == Request(issued[c].key, body);
    assert c == d;
  }

  lemma KeyIssuedGrows(issued: seq<Request>, r: Request)
    ensures KeyIssued(issued + [r], r.key)
    ensures forall k | KeyIssued(issued, k) :: KeyIssued(issued + [r], k)
  {
    assert (issued + [r])[|issued|] == r;
    forall k | KeyIssued(issued, k) ensures KeyIssued(issued + [r], k) {
      var c :| 0 <= c < |issued| && issued[c].key == k;
      assert (issued + [r])[c].key == k;
    }
  }

  lemma PublishMatches(t: Entry, issued: seq<Request>, mailbox: map<nat, Json>, unique: string, body: Json)
    requires EntryMatches(t, issued, mailbox) && unique !in t.used && !t.status.IsTerminal()
    requires forall c | c in mailbox :: c < |issued|
    ensures EntryMatches(PublishEntry(t, unique, body, |issued|), issued + [Request(unique, body)], mailbox)
  {
    assert |issued| !in t.waiters.Values;
    PublishKeepsOk(t, unique, body, |issued|);
    KeyIssuedGrows(issued, Request(unique, body));
  }

  lemma PublishKeepsTask(s: State, e: Event, s': State)
    requires TaskOk(s.entry, s.issued, s.mailbox) && e.Publish? && Step(s, e) == Some(s')
    requires forall c | c in s.mailbox :: c < |s.issued|
    ensures TaskOk(s'.entry, s'.issued, s'.mailbox)
  {
    PublishMatches(s.entry.value, s.issued, s.mailbox, e.unique, e.body);
  }

  lemma PublishStep(s: State, e: Event, s': State)
    requires Inv(s) && e.Publish? && Step(s, e) == Some(s')
    ensures Inv(s')
  {
    PublishKeepsTask(s, e, s');
    PublishKeepsAnswers(s.issued, s.mailbox, s.answers, Request(e.unique, e.body));
    AnsweredIsUsed(s);
    PublishKeepsClient(s, e, s');
  }

  lemma PublishKeepsAnswers(issued: seq<Request>, mailbox: map<nat, Json>, answers: map<string, Answer>, r: Request)
    requires AnswersOk(issued, mailbox, answers)
    ensures AnswersOk(issued + [r], mailbox, answers)
  {
    WasIssuedGrows(issued, r);
  }

  lemma AnsweredIsUsed(s: State)
    requires TaskOk(s.entry, s.issued, s.mailbox) && AnswersOk(s.issued, s.mailbox, s.answers) && s.entry.Some?
    ensures forall k | k in s.answers :: k in s.entry.value.used
  {
    forall k | k in s.answers ensures k in s.entry.value.used {
      assert WasIssued(s.issued, k, s.answers[k].request);
    }
  }

  lemma PublishKeepsClient(s: State, e: Event, s': State)
    requires e.Publish? && Step(s, e) == Some(s') && ClientOk(s.client, s.entry, s.issued, s.answers)
    requires forall k | k in s.answers :: k in s.entry.value.used
    ensures ClientOk(s'.client, s'.entry, s'.issued, s'.answers)
  {
    WasIssuedGrows(s.issued, Request(e.unique, e.body));
  }

  /** The channels a delivery fills, and what for. */
  lemma MailChannels(s: State, responses: map<string, Json>)
    requires TaskOk(s.entry, s.issued, s.mailbox) && s.entry.Some?
    ensures forall c | c in Mail(s.entry.value, responses) ::
              && c < |s.issued| && c !in s.mailbox
              && s.issued[c].key in Resolved(s.entry.value, responses)
              && Mail(s.entry.value, responses)[c] == responses[s.issued[c].key]
  {
    var t := s.entry.value;
    forall c | c in Mail(t, responses)
      ensures c < |s.issued| && c !in s.mailbox && s.issued[c].key in Resolved(t, responses)
      ensures Mail(t, responses)[c] == responses[s.issued[c].key]
    {
      var k :| k in Resolved(t, responses) && t.waiters[k] == c;
    }
  }

  lemma UpdateKeepsTask(s: State, s': State)
    requires TaskOk(s.entry, s.issued, s.mailbox) && s.entry.Some? && Step(s, Update) == Some(s')
    ensures TaskOk(s'.entry, s'.issued, s'.mailbox)
  {
    var t, responses := s.entry.value, s.client.responses;
    DeliverKeepsOk(t, responses);
    MailChannels(s, responses);
    var t' := s'.entry.value;
    forall k | k in t'.waiters ensures t'.waiters[k] !in s'.mailbox {
      assert k !in Resolved(t, responses) && s.issued[t.waiters[k]].key == k;
    }
  }

  lemma UpdateKeepsAnswers(s: State, responses: map<string, Json>)
    requires TaskOk(s.entry, s.issued, s.mailbox) && s.entry.Some?
    requires AnswersOk(s.issued, s.mailbox, s.answers) && InFlight(s.entry, s.answers, responses)
    ensures AnswersOk(s.issued, s.mailbox + Mail(s.entry.value, responses), s.answers)
  {
    var sent := Mail(s.entry.value, responses);
    MailChannels(s, responses);
    forall c | c in sent
      ensures c < |s.issued| && s.issued[c].key in s.answers
      ensures s.answers[s.issued[c].key] == Answer(s.issued[c].body, sent[c])
    {
      var k := s.issued[c].key;
      assert k in responses;
      IssuedOnce(s.issued, c, s.answers[k].request);
    }
  }

  lemma UpdateStep(s: State, s': State)
    requires Inv(s) && Step(s, Update) == Some(s')
    ensures Inv(s')
  {
    if s.entry.Some? {
      UpdateKeepsTask(s, s');
      UpdateKeepsAnswers(s, s.client.responses);
      DeliverKeepsOk(s.entry.value, s.client.responses);
    }
  }

  /** What a task still asks for was published. */
  lemma OutstandingWasIssued(e: Entry, issued: seq<Request>, mailbox: map<nat, Json>, k: string)
    requires EntryMatches(e, issued, mailbox) && k in e.waiters
    ensures k in e.outstanding && WasIssued(issued, k, e.outstanding[k])
  {
    assert issued[e.waiters[k]] == Request(k, e.outstanding[k]);
  }

  lemma PollStep(s: State, s': State)
    requires Inv(s) && Step(s, Poll) == Some(s')
    ensures Inv(s')
  {
    PollKeepsClient(s, s');
  }

  lemma PollKeepsClient(s: State, s': State)
    requires TaskOk(s.entry, s.issued, s.mailbox) && s.answered == s.answers.Keys && Step(s, Poll) == Some(s')
    requires ClientOk(s.client, s.entry, s.issued, s.answers)
    ensures ClientOk(s'.client, s'.entry, s'.issued, s'.answers)
  {
    if s'.client.Viewing? {
      var t := s.entry.value;
      forall k | k in s'.client.todo ensures k !in s.answers && WasIssued(s.issued, k, s'.client.todo[k]) {
        OutstandingWasIssued(t, s.issued, s.mailbox, k);
      }
      assert InFlight(s'.entry, s'.answers, map[]);
    }
  }

  lemma AnswerStep(s: State, e: Event, s': State)
    requires Inv(s) && e.AnswerOne? && Step(s, e) == Some(s')
    ensures Inv(s')
  {
    AnswerKeepsAnswers(s, e, s');
  }

  lemma AnswerKeepsAnswers(s: State, e: Event, s': State)
    requires s.answered == s.answers.Keys && e.AnswerOne? && Step(s, e) == Some(s')
    requires AnswersOk(s.issued, s.mailbox, s.answers) && ClientOk(s.client, s.entry, s.issued, s.answers)
    ensures AnswersOk(s'.issued, s'.mailbox, s'.answers) && ClientOk(s'.client, s'.entry, s'.issued, s'.answers)
  {
    forall c | c in s.mailbox ensures s.issued[c].key != e.key {
      assert s.issued[c].key in s.answered;
    }
  }

  lemma TerminalStep(s: State, e: Event, s': State)
    requires Inv(s) && (e.Complete? || e.Cancel?) && Step(s, e) == Some(s')
    ensures Inv(s')
  {
    if e.Complete? {
      CompleteKeepsOk(s.entry.value, e.outcome);
    } else {
      CancelKeepsOk(s.entry.value);
    }
  }

  lemma InvStep(s: State, e: Event, s': State)
    requires Inv(s) && Step(s, e) == Some(s')
    ensures Inv(s')
  {
    match e
    case Publish(_, _, _) => PublishStep(s, e, s');
    case Complete(_) => TerminalStep(s, e, s');
    case Cancel => TerminalStep(s, e, s');
    case Update => UpdateStep(s, s');
    case Poll => PollStep(s, s');
    case AnswerOne(_, _) => AnswerStep(s, e, s');
    case _ =>
  }

  lemma {:induction false} InvRun(s: State, es: seq<Event>, s': State)
    requires Inv(s) && Run(s, es) == Some(s')
    ensures Inv(s')
    decreases |es|
  {
    if es != [] {
      InvStep(s, es[0], Step(s, es[0]).value);
      InvRun(Step(s, es[0]).value, es[1..], s');
    }
  }

  // ---- the protocol's promises ---------------------------------------------------

  /** In every interleaving: wire keys are issued once; what a handler receives
      is what the client answered when shown the very request that handler
      published; and a live request is never one the client will skip. */
  lemma AnswersReachTheirRequests(ttlMs: Option<int>, token: nat, now: nat, es: seq<Event>, s: State)
    requires Run(Init(ttlMs, token, now), es) == Some(s)
    ensures KeysDistinct(s.issued)
    ensures forall c | c in s.mailbox ::
              && c < |s.issued| && s.issued[c].key in s.answers
              && s.answers[s.issued[c].key] == Answer(s.issued[c].body, s.mailbox[c])
    ensures s.client.Polling? && s.entry.Some? ==> s.entry.value.outstanding.Keys !! s.answered
  {
    InvRun(Init(ttlMs, token, now), es, s);
  }

  /** So each poll of a task that requires input leaves nothing outstanding unseen. */
  lemma PollSeesEveryLiveRequest(ttlMs: Option<int>, token: nat, now: nat, es: seq<Event>, s: State)
    requires Run(Init(ttlMs, token, now), es) == Some(s)
    requires s.client.Polling? && s.entry.Some? && s.entry.value.outstanding != map[]
    ensures !s.entry.value.status.IsTerminal() ==>
              Step(s, Poll) == Some(s.(client := Viewing(s.entry.value.outstanding, map[])))
  {
    InvRun(Init(ttlMs, token, now), es, s);
    var t := s.entry.value;
    assert t.outstanding - s.answered == t.outstanding;
  }

  lemma MailIsFinalStep(s: State, e: Event, s': State)
    requires Inv(s) && Step(s, e) == Some(s')
    ensures forall c | c in s.mailbox :: c in s'.mailbox && s'.mailbox[c] == s.mailbox[c]
  {
    if e.Update? && s.entry.Some? {
      var sent := Mail(s.entry.value, s.client.responses);
      forall c | c in sent ensures c !in s.mailbox {
        var k :| k in Resolved(s.entry.value, s.client.responses) && s.entry.value.waiters[k] == c;
      }
    }
  }

  /** A handler receives at most one value: what is in its channel stays there. */
  lemma {:induction false} MailIsFinal(s: State, es: seq<Event>, s': State)
    requires Inv(s) && Run(s, es) == Some(s')
    ensures forall c | c in s.mailbox :: c in s'.mailbox && s'.mailbox[c] == s.mailbox[c]
    decreases |es|
  {
    if es != [] {
      var mid := Step(s, es[0]).value;
      InvStep(s, es[0], mid);
      MailIsFinalStep(s, es[0], mid);
      MailIsFinal(mid, es[1..], s');
    }
  }

  lemma AtMostOneValue(ttlMs: Option<int>, token: nat, now: nat, past: seq<Event>, s: State, es: seq<Event>, s': State)
    requires Run(Init(ttlMs, token, now), past) == Some(s) && Run(s, es) == Some(s')
    ensures forall c | c in s.mailbox :: c in s'.mailbox && s'.mailbox[c] == s.mailbox[c]
  {
    InvRun(Init(ttlMs, token, now), past, s);
    MailIsFinal(s, es, s');
  }

  /** What the loop reports is the task's first terminal transition, and a
      completed task always carries its result. */
  lemma ClientReportsFirstOutcome(ttlMs: Option<int>, token: nat, now: nat, es: seq<Event>, s: State)
    requires Run(Init(ttlMs, token, now), es) == Some(s) && s.client.Ended?
    ensures match s.client.ending
            case Returned(v) => s.first == Some(Finished(CompletedWith(v)))
            case RpcFailed(error) => s.first == Some(Finished(FailedWith(error)))
            case TaskCancelled => s.first == Some(CancelledByRequest)
            case NoResult => false
            case GaveUp => true
  {
    InvRun(Init(ttlMs, token, now), es, s);
  }

  /** The first terminal event of a task, if there was one before it expired. */
  function FirstTerminal(es: seq<Event>): Option<Terminal>
    decreases |es|
  {
    if es == [] then None
    else match es[0]
      case Complete(outcome) => Some(Finished(outcome))
      case Cancel => Some(CancelledByRequest)
      case Expire => None
      case _ => FirstTerminal(es[1..])
  }

  predicate HasExpired(es: seq<Event>) { exists i | 0 <= i < |es| :: es[i].Expire? }

  lemma {:induction false} FirstIsFirstEvent(s: State, es: seq<Event>)
    requires Run(s, es).Some?
    ensures Run(s, es).value.first ==
            if s.first.Some? || s.entry.None? then s.first else FirstTerminal(es)
    ensures Run(s, es).value.entry.None? <==> s.entry.None? || HasExpired(es)
    decreases |es|
  {
    if es != [] {
      var mid := Step(s, es[0]).value;
      FirstIsFirstEvent(mid, es[1..]);
      assert es == [es[0]] + es[1..];
      assert HasExpired(es) <==> es[0].Expire? || HasExpired(es[1..]);
    }
  }

  /** And the converse: in every run, a poll of a task that is still there ends the loop
      with that task's first terminal event, a result with the result, a failure with its
      error; while there was none it does not end; and of a task that is gone it gives up. */
  lemma PollEndsExactly(ttlMs: Option<int>, token: nat, now: nat, es: seq<Event>, s: State)
    requires Run(Init(ttlMs, token, now), es) == Some(s) && s.client.Polling?
    ensures Step(s, Poll).Some?
    ensures var client := Step(s, Poll).value.client;
            if HasExpired(es) then client == Ended(GaveUp)
            else
              match FirstTerminal(es)
              case None => !client.Ended?
              case Some(CancelledByRequest) => client == Ended(TaskCancelled)
              case Some(Finished(CompletedWith(v))) => client == Ended(Returned(v))
              case Some(Finished(FailedWith(e))) => client == Ended(RpcFailed(e))
  {
    InvRun(Init(ttlMs, token, now), es, s);
    FirstIsFirstEvent(Init(ttlMs, token, now), es);
  }

  /** Until it ends, the loop always has a next step, whatever the answers. */
  lemma ClientCanStep(ttlMs: Option<int>, token: nat, now: nat, es: seq<Event>, s: State, value: Json) returns (e: Event)
    requires Run(Init(ttlMs, token, now), es) == Some(s) && !s.client.Ended?
    ensures e.Poll? || (e.AnswerOne? && e.value == value) || e.EndOfView? || e.Update?
    ensures Step(s, e).Some?
    ensures e.AnswerOne? ==> Step(s, e).value.client.todo == s.client.todo - {e.key} && e.key in s.client.todo
    ensures e.EndOfView? ==> !Step(s, e).value.client.Viewing?
    ensures e.Update? ==> Step(s, e).value.client == if s.entry.Some? then Polling else Ended(GaveUp)
  {
    InvRun(Init(ttlMs, token, now), es, s);
    match s.client
    case Polling => e := Poll;
    case Viewing(_, _) => e := ViewingCanStep(s, value);
    case Updating(_) => e := Update;
  }

  lemma ViewingCanStep(s: State, value: Json) returns (e: Event)
    requires s.client.Viewing?
    ensures (e.AnswerOne? && e.value == value) || e.EndOfView?
    ensures Step(s, e).Some?
    ensures e.AnswerOne? ==> Step(s, e).value.client.todo == s.client.todo - {e.key} && e.key in s.client.todo
    ensures e.EndOfView? ==> !Step(s, e).value.client.Viewing?
  {
    var todo := s.client.todo;
    if todo == map[] {
      e := EndOfView;
    } else {
      var key :| key in todo;
      e := AnswerOne(key, value);
    }
  }

  /** The task can end, be cancelled or expire whenever it is there, and the client can give
      up whenever it has not ended; then it has. */
  lemma AlwaysPossible(s: State, outcome: Outcome)
    ensures Step(s, Complete(outcome)).Some? <==> s.entry.Some?
    ensures Step(s, Cancel).Some? <==> s.entry.Some?
    ensures Step(s, Expire).Some? <==> s.entry.Some?
    ensures Step(s, GiveUp).Some? <==> !s.client.Ended?
    ensures !s.client.Ended? ==> Step(s, GiveUp).value.client == Ended(GaveUp)
  {
  }

  /** Sending back answers resolves every handler they were meant for that is
      still waiting, and a task with nothing else outstanding resumes working. */
  lemma UpdateResumes(ttlMs: Option<int>, token: nat, now: nat, es: seq<Event>, s: State)
    requires Run(Init(ttlMs, token, now), es) == Some(s)
    requires s.client.Updating? && s.entry.Some? && !s.entry.value.status.IsTerminal()
    ensures var s' := Step(s, Update);
            var t, responses := s.entry.value, s.client.responses;
            && s'.Some? && s'.value.entry.Some?
            && (forall k | k in t.waiters && k in responses ::
                  t.waiters[k] in s'.value.mailbox && s'.value.mailbox[t.waiters[k]] == responses[k])
            && (s'.value.entry.value.status.Working? <==> t.outstanding.Keys <= responses.Keys)
  {
    InvRun(Init(ttlMs, token, now), es, s);
    var t, responses := s.entry.value, s.client.responses;
    DeliverKeepsOk(t, responses);
    var rest := t.outstanding - Resolved(t, responses);
    assert rest == map[] <==> t.outstanding.Keys <= responses.Keys by {
      if rest == map[] {
        forall k | k in t.outstanding ensures k in responses {
          assert k !in rest;
        }
      }
    }
  }
}
