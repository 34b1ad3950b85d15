/** Multi-round-trip requests: a handler that needs input aborts, the client answers
    and re-issues the call, and the handler runs again from the start with the
    answers cached. Compared with asking inline. */
module Mrtr {
  import opened Wrappers
  import opened Json
  import opened Elicitation

  const MAX_ROUNDS: nat := 16

  /** One question of a batch, under its stable key. */
  datatype Question = Question(key: string, params: Params)

  type Batch = seq<Question>

  type Responses = map<string, Json>

  /** The outcomes of the batches asked so far, in order. */
  type History = seq<seq<Outcome>>

  /** What a handler does next: ask a batch, after storing resume state or not, or
      return. */
  datatype Decision<S, R> = Ask(batch: Batch, store: Option<S>) | Return(result: R)

  /** A deterministic handler: its next step follows from the resume state it loaded
      and the outcomes it has received. It passes an abort on to its caller. */
  type Handler<!S(!new), !R> = (Option<S>, History) -> Decision<S, R>

  /** Every run of the handler ends, within `n` batches. */
  ghost predicate Bounded<S(!new), R>(h: Handler<S, R>, n: nat) {
    forall state, hist: History | |hist| >= n :: h(state, hist).Return?
  }

  // ---- one execution on the server -------------------------------------------------------

  /** What one request brings: whether the client declared the capability, the strict
      key policy, the answers to the last requests, and the resume state. */
  datatype Env<S> = Env(declared: bool, strict: bool, responses: Responses, state: Option<S>)

  datatype Elicited =
    | Answered(outcomes: seq<Outcome>)
    | Abort(requests: map<string, Json>)
    | Failed(error: RpcError)

  function Keys(batch: Batch): set<string> { set q | q in batch :: q.key }

  /** Recording the questions without an answer; a key reused with a different request
      keeps the later one, or fails under strict keys. */
  function RecordAll(collected: map<string, Json>, batch: Batch, responses: Responses, strict: bool): Option<map<string, Json>> {
    if batch == [] then Some(collected)
    else match RecordAll(collected, batch[..|batch| - 1], responses, strict)
      case None => None
      case Some(m) =>
        var q := batch[|batch| - 1];
        if q.key in responses then Some(m)
        else if strict && q.key in m && m[q.key] != RequestValue(q.params) then None
        else Some(m[q.key := RequestValue(q.params)])
  }

  /** The cached answers, in request order. */
  function ParseAll(batch: Batch, responses: Responses): Result<seq<Outcome>, RpcError>
    requires Keys(batch) <= responses.Keys
  {
    if batch == [] then Ok([])
    else
      assert batch[|batch| - 1].key in Keys(batch);
      assert Keys(batch[..|batch| - 1]) <= Keys(batch);
      match ParseAll(batch[..|batch| - 1], responses)
      case Err(e) => Err(e)
      case Ok(before) =>
        match ParseOutcome(responses[batch[|batch| - 1].key])
        case Err(e) => Err(e)
        case Ok(o) => Ok(before + [o])
  }

  function Elicit(declared: bool, strict: bool, responses: Responses, batch: Batch): Elicited {
    if !declared then Failed(InvalidParams)
    else if Keys(batch) <= responses.Keys then
      match ParseAll(batch, responses)
      case Ok(outcomes) => Answered(outcomes)
      case Err(e) => Failed(e)
    else
      match RecordAll(map[], batch, responses, strict)
      case Some(requests) => Abort(requests)
      case None => Failed(InvalidParams)
  }

  /** The handle a handler asks through, in its re-execution mode. */
  class ClientHandle {
    const declared: bool
    const strict: bool
    const responses: Responses
    var collected: map<string, Json>

    constructor (declared: bool, strict: bool, responses: Responses)
      ensures this.declared == declared && this.strict == strict && this.responses == responses && collected == map[]
    {
      this.declared, this.strict, this.responses, collected := declared, strict, responses, map[];
    }

    method Record(key: string, request: Json) returns (ok: bool)
      modifies this
      ensures ok <==> !(strict && key in old(collected) && old(collected)[key] != request)
      ensures collected == if ok then old(collected)[key := request] else old(collected)
    {
      if key in collected && collected[key] != request && strict { return false; }
      collected := collected[key := request];
      ok := true;
    }

    method AllCached(batch: Batch) returns (cached: bool)
      ensures cached <==> Keys(batch) <= responses.Keys
    {
      for i := 0 to |batch|
        invariant Keys(batch[..i]) <= responses.Keys
      {
        KeysGrow(batch, i);
        if batch[i].key !in responses {
          assert batch[i].key in Keys(batch);
          return false;
        }
      }
      assert batch[..|batch|] == batch;
      cached := true;
    }

    method ParseCached(batch: Batch) returns (r: Result<seq<Outcome>, RpcError>)
      requires Keys(batch) <= responses.Keys
      ensures r == ParseAll(batch, responses)
    {
      var outcomes: seq<Outcome> := [];
      for i := 0 to |batch|
        invariant Keys(batch[..i]) <= responses.Keys && ParseAll(batch[..i], responses) == Ok(outcomes)
      {
        assert batch[i].key in Keys(batch);
        KeysGrow(batch, i);
        assert batch[..i + 1][..i] == batch[..i];
        var o := ParseOutcome(responses[batch[i].key]);
        if o.Err? {
          ParsePrefixFails(batch, i + 1, responses, o.error);
          return Err(o.error);
        }
        outcomes := outcomes + [o.value];
      }
      assert batch[..|batch|] == batch;
      r := Ok(outcomes);
    }

    method RecordMissing(batch: Batch) returns (ok: bool)
      modifies this
      ensures RecordAll(old(collected), batch, responses, strict) == if ok then Some(collected) else None
    {
      for i := 0 to |batch|
        invariant RecordAll(old(collected), batch[..i], responses, strict) == Some(collected)
      {
        assert batch[..i + 1][..i] == batch[..i];
        if batch[i].key !in responses {
          ok := Record(batch[i].key, RequestValue(batch[i].params));
          if !ok {
            RecordPrefixFails(old(collected), batch, i + 1, responses, strict);
            return;
          }
        }
      }
      assert batch[..|batch|] == batch;
      ok := true;
    }

    /** `elicit_all`: either every answer is cached, or the missing questions are
        recorded and the execution aborts. */
    method ElicitAll(batch: Batch) returns (r: Elicited)
      requires collected == map[]
      modifies this
      ensures r == Elicit(declared, strict, responses, batch)
      ensures r.Abort? ==> collected == r.requests
      ensures r.Answered? ==> collected == map[]
    {
      if !declared { return Failed(InvalidParams); }
      var cached := AllCached(batch);
      if cached {
        var outcomes := ParseCached(batch);
        return match outcomes case Ok(os) => Answered(os) case Err(e) => Failed(e);
      }
      var ok := RecordMissing(batch);
      r := if ok then Abort(collected) else Failed(InvalidParams);
    }
  }

  lemma KeysGrow(batch: Batch, i: nat)
    requires i < |batch|
    ensures Keys(batch[..i + 1]) == Keys(batch[..i]) + {batch[i].key}
  {
    assert batch[..i + 1] == batch[..i] + [batch[i]];
  }

  lemma {:induction false} ParsePrefixFails(batch: Batch, i: nat, responses: Responses, e: RpcError)
    requires i <= |batch| && Keys(batch) <= responses.Keys
    requires Keys(batch[..i]) <= responses.Keys && ParseAll(batch[..i], responses) == Err(e)
    ensures ParseAll(batch, responses) == Err(e)
    decreases |batch|
  {
    if i == |batch| {
      assert batch[..i] == batch;
    } else {
      var n := |batch| - 1;
      assert Keys(batch[..n]) <= Keys(batch);
      assert batch[..n][..i] == batch[..i];
      ParsePrefixFails(batch[..n], i, responses, e);
    }
  }

  lemma {:induction false} RecordPrefixFails(collected: map<string, Json>, batch: Batch, i: nat, responses: Responses, strict: bool)
    requires i <= |batch| && RecordAll(collected, batch[..i], responses, strict).None?
    ensures RecordAll(collected, batch, responses, strict).None?
    decreases |batch|
  {
    if i == |batch| {
      assert batch[..i] == batch;
    } else {
      assert batch[..|batch| - 1][..i] == batch[..i];
      RecordPrefixFails(collected, batch[..|batch| - 1], i, responses, strict);
    }
  }

  datatype Reply<S, R> =
    | Final(result: R)
    | InputRequired(requests: map<string, Json>, state: Option<S>)
    | RpcFailed(error: RpcError)

  /** `finish_mrtr` on an abort: an answer must ask for something or carry state. */
  function Finish<S, R>(requests: map<string, Json>, stored: Option<S>): Reply<S, R> {
    if requests == map[] && stored.None? then RpcFailed(Internal("MRTR abort recorded no input requests"))
    else InputRequired(requests, stored)
  }

  /** The handler's run from `hist` on, to its reply. */
  ghost function Run<S(!new), R>(h: Handler<S, R>, n: nat, hist: History, stored: Option<S>, env: Env<S>): Reply<S, R>
    requires Bounded(h, n)
    decreases n - |hist|
  {
    match h(env.state, hist)
    case Return(r) => Final(r)
    case Ask(batch, store) =>
      var stored' := if store.Some? then store else stored;
      match Elicit(env.declared, env.strict, env.responses, batch)
      case Answered(outcomes) => Run(h, n, hist + [outcomes], stored', env)
      case Abort(requests) => Finish(requests, stored')
      case Failed(e) => RpcFailed(e)
  }

  /** The same, as the server executes it: a fresh handle, asked batch by batch. */
  method Execute<S(!new), R>(h: Handler<S, R>, ghost n: nat, env: Env<S>) returns (reply: Reply<S, R>)
    requires Bounded(h, n)
    ensures reply == Run(h, n, [], None, env)
  {
    var handle := new ClientHandle(env.declared, env.strict, env.responses);
    var hist: History := [];
    var stored: Option<S> := None;
    while true
      invariant fresh(handle) && handle.collected == map[]
      invariant handle.declared == env.declared && handle.strict == env.strict && handle.responses == env.responses
      invariant Run(h, n, hist, stored, env) == Run(h, n, [], None, env)
      decreases n - |hist|
    {
      match h(env.state, hist) {
        case Return(r) => return Final(r);
        case Ask(batch, store) =>
          if store.Some? { stored := store; }
          var e := handle.ElicitAll(batch);
          match e {
            case Answered(outcomes) => hist := hist + [outcomes];
            case Abort(requests) => return Finish(requests, stored);
            case Failed(error) => return RpcFailed(error);
          }
      }
    }
  }

  // ---- the client's loop ----------------------------------------------------------------------

  datatype CallResult<R> = Returned(result: R) | ServerError(error: RpcError) | InputFailed | NoConvergence

  /** How a call ended and how often the handler ran. */
  datatype Call<R> = Call(result: CallResult<R>, executions: nat)

  ghost predicate AllAnswered(client: ClientHandler, requests: map<string, Json>) {
    forall k | k in requests :: Dispatch(client, requests[k]).Ok?
  }

  ghost function Answers(client: ClientHandler, requests: map<string, Json>): Responses
    requires AllAnswered(client, requests)
  {
    map k | k in requests :: Dispatch(client, requests[k]).value
  }

  /** `mrtr_request` with `rounds` left: each round's answers replace the last's, and
      resume state is carried until the server sends other state. */
  ghost function Drive<S(!new), R>(h: Handler<S, R>, n: nat, client: ClientHandler, rounds: nat, env: Env<S>): Call<R>
    requires Bounded(h, n)
    decreases rounds
  {
    if rounds == 0 then Call(NoConvergence, 0)
    else match Run(h, n, [], None, env)
      case Final(r) => Call(Returned(r), 1)
      case RpcFailed(e) => Call(ServerError(e), 1)
      case InputRequired(requests, state) =>
        if !AllAnswered(client, requests) then Call(InputFailed, 1)
        else
          var rest := Drive(h, n, client, rounds - 1, Next(env, Answers(client, requests), state));
          rest.(executions := rest.executions + 1)
  }

  function Next<S>(env: Env<S>, responses: Responses, state: Option<S>): Env<S> {
    env.(responses := responses, state := if state.Some? then state else env.state)
  }

  ghost function CallOf<S(!new), R>(h: Handler<S, R>, n: nat, client: ClientHandler, declared: bool, strict: bool): Call<R>
    requires Bounded(h, n)
  {
    Drive(h, n, client, MAX_ROUNDS, Env(declared, strict, map[], None))
  }

  method AnswerRequests(client: ClientHandler, requests: map<string, Json>) returns (r: Option<Responses>)
    ensures r.Some? <==> AllAnswered(client, requests)
    ensures r.Some? ==> r.value == Answers(client, requests)
  {
    var responses: Responses := map[];
    var keys := requests.Keys;
    while keys != {}
      invariant keys <= requests.Keys && responses.Keys == requests.Keys - keys
      invariant forall k | k in responses :: Dispatch(client, requests[k]) == Ok(responses[k])
      decreases keys
    {
      var k :| k in keys;
      var answer := Dispatch(client, requests[k]);
      if answer.Err? { return None; }
      responses := responses[k := answer.value];
      keys := keys - {k};
    }
    r := Some(responses);
  }

  method MrtrRequest<S(!new), R>(h: Handler<S, R>, ghost n: nat, client: ClientHandler, declared: bool, strict: bool)
    returns (call: Call<R>)
    requires Bounded(h, n)
    ensures call == CallOf(h, n, client, declared, strict)
  {
    var env: Env<S> := Env(declared, strict, map[], None);
    for round := 0 to MAX_ROUNDS
      invariant var rest := Drive(h, n, client, MAX_ROUNDS - round, env);
                CallOf(h, n, client, declared, strict) == rest.(executions := rest.executions + round)
    {
      var reply := Execute(h, n, env);
      match reply {
        case Final(r) => return Call(Returned(r), round + 1);
        case RpcFailed(e) => return Call(ServerError(e), round + 1);
        case InputRequired(requests, state) =>
          var responses := AnswerRequests(client, requests);
          if responses.None? { return Call(InputFailed, round + 1); }
          env := Next(env, responses.value, state);
      }
    }
    call := Call(NoConvergence, MAX_ROUNDS);
  }
}
