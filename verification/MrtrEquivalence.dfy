/** Re-execution against inline delivery: when a retried handler ends with the very
    outcomes inline requests would have given it, and when it never ends. */
module MrtrEquivalence {
  import opened Wrappers
  import opened Json
  import opened Elicitation
  import opened Mrtr

  // ---- inline delivery --------------------------------------------------------------------

  /** The outcome of one request sent and awaited. */
  function InlineOutcome(client: ClientHandler, p: Params): Result<Outcome, RpcError> {
    match Dispatch(client, RequestValue(p))
    case Err(e) => Err(e)
    case Ok(v) => ParseOutcome(v)
  }

  /** A batch asked one request after the other. */
  function InlineBatch(client: ClientHandler, batch: Batch): Result<seq<Outcome>, RpcError> {
    if batch == [] then Ok([])
    else match InlineBatch(client, batch[..|batch| - 1])
      case Err(e) => Err(e)
      case Ok(before) =>
        match InlineOutcome(client, batch[|batch| - 1].params)
        case Err(e) => Err(e)
        case Ok(o) => Ok(before + [o])
  }

  /** The handler's one and only execution when requests are delivered inline; there
      is no resume state. */
  ghost function Inline<S(!new), R>(h: Handler<S, R>, n: nat, hist: History, client: ClientHandler): Result<R, RpcError>
    requires Bounded(h, n)
    decreases n - |hist|
  {
    match h(None, hist)
    case Return(r) => Ok(r)
    case Ask(batch, _) =>
      match InlineBatch(client, batch)
      case Err(e) => Err(e)
      case Ok(outcomes) => Inline(h, n, hist + [outcomes], client)
  }

  function Told(client: ClientHandler, p: Params): Outcome { Normalize(client.elicit(p)) }

  /** What the user answers to a batch. */
  function Outcomes(client: ClientHandler, batch: Batch): seq<Outcome> {
    seq(|batch|, i requires 0 <= i < |batch| => Told(client, batch[i].params))
  }

  lemma InlineOneMore(client: ClientHandler, before: Batch, last: Question)
    requires InlineBatch(client, before) == Ok(Outcomes(client, before))
    ensures InlineBatch(client, before + [last]) == Ok(Outcomes(client, before + [last]))
  {
    AskRoundTrip(client, last.params);
    assert (before + [last])[..|before|] == before;
    assert Outcomes(client, before + [last]) == Outcomes(client, before) + [Told(client, last.params)];
  }

  lemma {:induction false} InlineBatchIs(client: ClientHandler, batch: Batch)
    ensures InlineBatch(client, batch) == Ok(Outcomes(client, batch))
  {
    if batch != [] {
      var before, last := batch[..|batch| - 1], batch[|batch| - 1];
      InlineBatchIs(client, before);
      InlineOneMore(client, before, last);
      assert batch == before + [last];
    } else {
      assert Outcomes(client, batch) == [];
    }
  }

  // ---- what a batch records, and what its answers are -----------------------------------------

  /** The question recorded under `key`: the last one. */
  function LastQuestion(batch: Batch, key: string): Params
    requires key in Keys(batch)
  {
    if batch[|batch| - 1].key == key then batch[|batch| - 1].params
    else assert key in Keys(batch[..|batch| - 1]) by { LastKey(batch, key); } LastQuestion(batch[..|batch| - 1], key)
  }

  lemma LastKey(batch: Batch, key: string)
    requires key in Keys(batch) && batch[|batch| - 1].key != key
    ensures key in Keys(batch[..|batch| - 1])
  {
    var q :| q in batch && q.key == key;
    var i :| 0 <= i < |batch| && batch[i] == q;
    assert batch[..|batch| - 1][i] == q;
  }

  /** One key, one question. */
  ghost predicate Consistent(batch: Batch) {
    forall i, j | 0 <= i < |batch| && 0 <= j < |batch| && batch[i].key == batch[j].key :: batch[i].params == batch[j].params
  }

  /** The recorded requests: one for each key without an answer, the last asked. */
  ghost predicate Records(requests: map<string, Json>, batch: Batch, responses: Responses) {
    && requests.Keys == Keys(batch) - responses.Keys
    && forall k | k in requests :: requests[k] == RequestValue(LastQuestion(batch, k))
  }

  lemma KeysSplit(batch: Batch)
    requires batch != []
    ensures Keys(batch) == Keys(batch[..|batch| - 1]) + {batch[|batch| - 1].key}
  {
    KeysGrow(batch, |batch| - 1);
    assert batch[..|batch|] == batch;
  }

  lemma LastQuestionOf(batch: Batch, key: string)
    requires batch != [] && key in Keys(batch[..|batch| - 1]) && key != batch[|batch| - 1].key
    ensures key in Keys(batch) && LastQuestion(batch, key) == LastQuestion(batch[..|batch| - 1], key)
  {
    KeysSplit(batch);
  }

  lemma RecordsOneMore(m: map<string, Json>, batch: Batch, responses: Responses)
    requires batch != [] && Records(m, batch[..|batch| - 1], responses)
    ensures var q := batch[|batch| - 1];
            Records(if q.key in responses then m else m[q.key := RequestValue(q.params)], batch, responses)
  {
    KeysSplit(batch);
    forall k | k in m && k != batch[|batch| - 1].key ensures LastQuestion(batch, k) == LastQuestion(batch[..|batch| - 1], k) {
      LastQuestionOf(batch, k);
    }
  }

  lemma NoConflict(m: map<string, Json>, batch: Batch, responses: Responses)
    requires batch != [] && Consistent(batch) && Records(m, batch[..|batch| - 1], responses)
    ensures var q := batch[|batch| - 1]; q.key in m ==> m[q.key] == RequestValue(q.params)
  {
    var n := |batch| - 1;
    if batch[n].key in m {
      LastIsAsked(batch[..n], batch[n].key);
      var i :| 0 <= i < n && batch[..n][i] == Question(batch[n].key, LastQuestion(batch[..n], batch[n].key));
      assert batch[i].key == batch[n].key;
    }
  }

  lemma {:induction false} Recorded(batch: Batch, responses: Responses, strict: bool)
    ensures var m := RecordAll(map[], batch, responses, strict);
            && (m.Some? ==> Records(m.value, batch, responses))
            && (!strict || Consistent(batch) ==> m.Some?)
  {
    if batch != [] {
      var n := |batch| - 1;
      Recorded(batch[..n], responses, strict);
      var m := RecordAll(map[], batch[..n], responses, strict);
      if m.Some? {
        RecordsOneMore(m.value, batch, responses);
        if Consistent(batch) { NoConflict(m.value, batch, responses); }
      }
      assert Consistent(batch) ==> Consistent(batch[..n]);
    }
  }

  lemma {:induction false} LastIsAsked(batch: Batch, key: string)
    requires key in Keys(batch)
    ensures exists i | 0 <= i < |batch| :: batch[i] == Question(key, LastQuestion(batch, key))
  {
    var n := |batch| - 1;
    if batch[n].key == key {
      assert batch[n] == Question(key, LastQuestion(batch, key));
    } else {
      LastKey(batch, key);
      LastIsAsked(batch[..n], key);
      var i :| 0 <= i < n && batch[..n][i] == Question(key, LastQuestion(batch[..n], key));
      assert batch[i] == Question(key, LastQuestion(batch, key));
    }
  }

  /** The cached answers are the user's answers to the questions of `asked`. */
  ghost predicate AnswersTo(client: ClientHandler, asked: Batch, responses: Responses) {
    && responses.Keys <= Keys(asked)
    && forall k | k in responses :: responses[k] == OutcomeValue(client.elicit(LastQuestion(asked, k)))
  }

  lemma RecordedAnswers(client: ClientHandler, batch: Batch, responses: Responses, requests: map<string, Json>)
    requires Records(requests, batch, responses)
    ensures AllAnswered(client, requests)
    ensures Answers(client, requests).Keys == requests.Keys && AnswersTo(client, batch, Answers(client, requests))
  {
    forall k | k in requests ensures Dispatch(client, requests[k]) == Ok(OutcomeValue(client.elicit(LastQuestion(batch, k)))) {
      AskRoundTrip(client, LastQuestion(batch, k));
    }
  }

  /** A batch answered from the cache of another. */
  function Cached(client: ClientHandler, asked: Batch, batch: Batch): seq<Outcome>
    requires Keys(batch) <= Keys(asked)
  {
    seq(|batch|, i requires 0 <= i < |batch| =>
      assert batch[i].key in Keys(batch); Told(client, LastQuestion(asked, batch[i].key)))
  }

  lemma ParsesToTold(client: ClientHandler, asked: Batch, responses: Responses, key: string)
    requires AnswersTo(client, asked, responses) && key in responses
    ensures ParseOutcome(responses[key]) == Ok(Told(client, LastQuestion(asked, key)))
  {
    AskRoundTrip(client, LastQuestion(asked, key));
  }

  lemma ParsesOneMore(client: ClientHandler, asked: Batch, responses: Responses, before: Batch, last: Question)
    requires AnswersTo(client, asked, responses) && Keys(before + [last]) <= responses.Keys && Keys(before) <= responses.Keys
    requires ParseAll(before, responses) == Ok(Cached(client, asked, before))
    ensures ParseAll(before + [last], responses) == Ok(Cached(client, asked, before + [last]))
  {
    var batch := before + [last];
    assert batch[..|before|] == before && batch[|before|].key in Keys(batch);
    ParsesToTold(client, asked, responses, last.key);
    assert Cached(client, asked, batch) == Cached(client, asked, before) + [Told(client, LastQuestion(asked, last.key))];
  }

  lemma {:induction false} ParsesToCached(client: ClientHandler, asked: Batch, responses: Responses, batch: Batch)
    requires AnswersTo(client, asked, responses) && Keys(batch) <= responses.Keys
    ensures ParseAll(batch, responses) == Ok(Cached(client, asked, batch))
  {
    if batch != [] {
      var n := |batch| - 1;
      KeysSplit(batch);
      var before, key := batch[..n], batch[n].key;
      ParsesToCached(client, asked, responses, before);
      assert key in Keys(batch);
      ParsesOneMore(client, asked, responses, before, batch[n]);
      assert batch == before + [batch[n]];
    } else {
      assert Cached(client, asked, batch) == [];
    }
  }

  // ---- a handler without resume state either ends at once or cycles for ever ---------------------

  ghost predicate Stateless<S(!new), R>(h: Handler<S, R>) {
    forall state, hist: History :: h(state, hist) == h(None, hist) && (h(None, hist).Ask? ==> h(None, hist).store.None?)
  }

  /** The first batch that asks anything, empty ones being answered at once. */
  ghost function FirstBatch<S(!new), R>(h: Handler<S, R>, n: nat, hist: History): Batch
    requires Bounded(h, n)
    decreases n - |hist|
  {
    match h(None, hist)
    case Return(_) => []
    case Ask(batch, _) => if batch == [] then FirstBatch(h, n, hist + [[]]) else batch
  }

  lemma NonEmptyKeys(batch: Batch)
    ensures Keys(batch) == {} <==> batch == []
  {
    if batch != [] { assert batch[0].key in Keys(batch); }
  }

  /** An execution with no answer to any question of the first batch aborts there,
      whatever other answers it has. */
  lemma {:induction false} AbortsAtFirst<S(!new), R>(h: Handler<S, R>, n: nat, hist: History, env: Env<S>)
    requires Bounded(h, n) && Stateless(h) && env.declared
    requires Keys(FirstBatch(h, n, hist)) !! env.responses.Keys && FirstBatch(h, n, hist) != []
    ensures var batch := FirstBatch(h, n, hist);
            Run(h, n, hist, None, env) ==
            match RecordAll(map[], batch, env.responses, env.strict)
            case Some(requests) => Finish(requests, None)
            case None => RpcFailed(InvalidParams)
    decreases n - |hist|
  {
    assert h(env.state, hist) == h(None, hist);
    var batch := h(None, hist).batch;
    if batch == [] {
      AbortsAtFirst(h, n, hist + [[]], env);
    } else {
      NonEmptyKeys(batch);
      assert batch[0].key in Keys(batch);
    }
  }

  /** What any execution asks for is new: no key it was given an answer to. */
  lemma {:induction false} AsksOnlyMissing<S(!new), R>(h: Handler<S, R>, n: nat, hist: History, env: Env<S>) returns (asked: Batch)
    requires Bounded(h, n) && Stateless(h) && Run(h, n, hist, None, env).InputRequired?
    ensures env.declared && Run(h, n, hist, None, env).state == None
    ensures Records(Run(h, n, hist, None, env).requests, asked, env.responses)
    decreases n - |hist|
  {
    assert h(env.state, hist) == h(None, hist);
    var batch := h(None, hist).batch;
    match Elicit(env.declared, env.strict, env.responses, batch) {
      case Answered(outcomes) => asked := AsksOnlyMissing(h, n, hist + [outcomes], env);
      case Abort(requests) =>
        asked := batch;
        Recorded(batch, env.responses, env.strict);
    }
  }

  lemma {:induction false} RecordIgnoresOthers(batch: Batch, responses: Responses, strict: bool)
    requires Keys(batch) !! responses.Keys
    ensures RecordAll(map[], batch, responses, strict) == RecordAll(map[], batch, map[], strict)
  {
    if batch != [] {
      KeysSplit(batch);
      RecordIgnoresOthers(batch[..|batch| - 1], responses, strict);
    }
  }

  lemma {:induction false} ReturnsIfNothingAsked<S(!new), R>(h: Handler<S, R>, n: nat, hist: History, env: Env<S>)
    requires Bounded(h, n) && Stateless(h) && env.declared && FirstBatch(h, n, hist) == []
    ensures Run(h, n, hist, None, env).Final?
    decreases n - |hist|
  {
    assert h(env.state, hist) == h(None, hist);
    if h(None, hist).Ask? {
      NonEmptyKeys([]);
      ReturnsIfNothingAsked(h, n, hist + [[]], env);
    }
  }

  ghost function Fresh<S>(strict: bool, responses: Responses): Env<S> { Env(true, strict, responses, None) }

  /** Two requests, each of which is answered by the other. */
  ghost predicate Alternate<S(!new), R>(h: Handler<S, R>, n: nat, client: ClientHandler, env1: Env<S>, env2: Env<S>)
    requires Bounded(h, n)
  {
    var reply := Run(h, n, [], None, env1);
    && reply.InputRequired?
    && AllAnswered(client, reply.requests)
    && Next(env1, Answers(client, reply.requests), reply.state) == env2
  }

  lemma DriveOn<S(!new), R>(h: Handler<S, R>, n: nat, client: ClientHandler, left: nat, rounds: nat, env: Env<S>, next: Env<S>)
    requires Bounded(h, n) && rounds == left + 1 && Alternate(h, n, client, env, next)
    ensures var rest := Drive(h, n, client, left, next);
            Drive(h, n, client, rounds, env) == rest.(executions := rest.executions + 1)
  {
  }

  lemma {:induction false} DriveCycles<S(!new), R>(h: Handler<S, R>, n: nat, client: ClientHandler, rounds: nat,
                                                    env1: Env<S>, env2: Env<S>)
    requires Bounded(h, n) && Alternate(h, n, client, env1, env2) && Alternate(h, n, client, env2, env1)
    ensures Drive(h, n, client, rounds, env1) == Call(NoConvergence, rounds)
    ensures Drive(h, n, client, rounds, env2) == Call(NoConvergence, rounds)
    decreases rounds
  {
    if rounds > 0 {
      var left: nat := rounds - 1;
      DriveOn(h, n, client, left, rounds, env1, env2);
      DriveOn(h, n, client, left, rounds, env2, env1);
      DriveCycles(h, n, client, left, env1, env2);
    }
  }

  /** How the call of a handler without resume state ends. It runs once if it asks
      nothing; a second run, with the answers to its first batch, may end it; and if
      the second run asks for anything more, the third is the first again, for the
      answers are replaced and not added, and the client gives up after 16 rounds. */
  ghost function Ending<S(!new), R>(h: Handler<S, R>, n: nat, client: ClientHandler, strict: bool): Call<R>
    requires Bounded(h, n) && Stateless(h)
  {
    var first := FirstBatch(h, n, []);
    var requests := RecordAll(map[], first, map[], strict);
    if first == [] then
      ReturnsIfNothingAsked(h, n, [], Fresh(strict, map[]));
      Call(Returned(Run(h, n, [], None, Fresh(strict, map[])).result), 1)
    else if requests.None? then Call(ServerError(InvalidParams), 1)
    else if !AllAnswered(client, requests.value) then Call(InputFailed, 1)
    else
      match Run(h, n, [], None, Fresh(strict, Answers(client, requests.value)))
      case Final(r) => Call(Returned(r), 2)
      case RpcFailed(e) => Call(ServerError(e), 2)
      case InputRequired(_, _) => Call(NoConvergence, 16)
  }

  lemma StatelessEnds<S(!new), R>(h: Handler<S, R>, n: nat, client: ClientHandler, strict: bool)
    requires Bounded(h, n) && Stateless(h)
    ensures CallOf(h, n, client, true, strict) == Ending(h, n, client, strict)
  {
    var first := FirstBatch(h, n, []);
    var env0: Env<S> := Fresh(strict, map[]);
    if first == [] {
      ReturnsIfNothingAsked(h, n, [], env0);
    } else {
      AbortsAtFirst(h, n, [], env0);
      Recorded(first, map[], strict);
      NonEmptyKeys(first);
      var recorded := RecordAll(map[], first, map[], strict);
      if recorded.Some? {
        RecordedAnswers(client, first, map[], recorded.value);
        SecondRound(h, n, client, strict, recorded.value);
      }
    }
  }

  lemma SecondRound<S(!new), R>(h: Handler<S, R>, n: nat, client: ClientHandler, strict: bool, m1: map<string, Json>)
    requires Bounded(h, n) && Stateless(h) && AllAnswered(client, m1)
    requires FirstBatch(h, n, []) != [] && RecordAll(map[], FirstBatch(h, n, []), map[], strict) == Some(m1)
    ensures Drive(h, n, client, 15, Fresh(strict, Answers(client, m1))) ==
            Ending(h, n, client, strict).(executions := Ending(h, n, client, strict).executions - 1)
  {
    var first := FirstBatch(h, n, []);
    var env1: Env<S> := Fresh(strict, Answers(client, m1));
    var second := Run(h, n, [], None, env1);
    Recorded(first, map[], strict);
    NonEmptyKeys(first);
    if second.InputRequired? {
      var asked := AsksOnlyMissing(h, n, [], env1);
      var m2 := second.requests;
      RecordedAnswers(client, asked, env1.responses, m2);
      var env2: Env<S> := Fresh(strict, Answers(client, m2));
      assert Keys(first) !! env2.responses.Keys;
      AbortsAtFirst(h, n, [], env2);
      RecordIgnoresOthers(first, env2.responses, strict);
      DriveCycles(h, n, client, 15, env1, env2);
    }
  }

  // ---- handlers that ask a fixed list of batches ---------------------------------------------------

  function PlanNext(batches: seq<Batch>, hist: History): Decision<(), History> {
    if |hist| < |batches| then Ask(batches[|hist|], None) else Return(hist)
  }

  /** A handler that asks one batch after the other and returns what it was told. */
  function Plan(batches: seq<Batch>): (h: Handler<(), History>)
    ensures forall state, hist: History :: h(state, hist) == PlanNext(batches, hist)
  {
    (state: Option<()>, hist: History) => PlanNext(batches, hist)
  }

  lemma PlanOk(batches: seq<Batch>)
    ensures Bounded(Plan(batches), |batches|) && Stateless(Plan(batches))
  {
  }

  ghost function PlanCall(batches: seq<Batch>, client: ClientHandler, strict: bool): Call<History>
  {
    PlanOk(batches);
    CallOf(Plan(batches), |batches|, client, true, strict)
  }

  /** The outcomes of all batches, asked inline. */
  function Truth(client: ClientHandler, batches: seq<Batch>): History {
    seq(|batches|, j requires 0 <= j < |batches| => Outcomes(client, batches[j]))
  }

  lemma {:induction false} InlineIsTruth(batches: seq<Batch>, client: ClientHandler, j: nat)
    requires j <= |batches| && Bounded(Plan(batches), |batches|)
    ensures Inline(Plan(batches), |batches|, Truth(client, batches)[..j], client) == Ok(Truth(client, batches))
    decreases |batches| - j
  {
    var truth := Truth(client, batches);
    if j == |batches| {
      assert truth[..j] == truth;
    } else {
      InlineBatchIs(client, batches[j]);
      assert truth[..j] + [Outcomes(client, batches[j])] == truth[..j + 1];
      InlineIsTruth(batches, client, j + 1);
    }
  }

  function First(batches: seq<Batch>): Batch {
    if batches == [] then [] else if batches[0] == [] then First(batches[1..]) else batches[0]
  }

  /** Every batch asks only under keys of the first. */
  ghost predicate Covered(batches: seq<Batch>) {
    forall j | 0 <= j < |batches| :: Keys(batches[j]) <= Keys(First(batches))
  }

  /** Wherever a key is used, it asks the same question. */
  ghost predicate OneQuestionPerKey(batches: seq<Batch>) {
    forall j, i, l, k | 0 <= j < |batches| && 0 <= i < |batches[j]| && 0 <= l < |batches| && 0 <= k < |batches[l]| ::
      batches[j][i].key == batches[l][k].key ==> batches[j][i].params == batches[l][k].params
  }

  lemma {:induction false} FirstIsBatch(batches: seq<Batch>)
    ensures First(batches) != [] ==> First(batches) in batches
    ensures First(batches) == [] ==> forall j | 0 <= j < |batches| :: batches[j] == []
  {
    if batches != [] {
      FirstIsBatch(batches[1..]);
      assert forall j | 1 <= j < |batches| :: batches[j] == batches[1..][j - 1];
    }
  }

  lemma {:induction false} FirstBatchOfPlan(batches: seq<Batch>, hist: History)
    requires |hist| <= |batches| && Bounded(Plan(batches), |batches|)
    ensures FirstBatch(Plan(batches), |batches|, hist) == First(batches[|hist|..])
    decreases |batches| - |hist|
  {
    var j := |hist|;
    if j < |batches| {
      assert batches[j..][0] == batches[j] && batches[j..][1..] == batches[j + 1..];
      if batches[j] == [] {
        FirstBatchOfPlan(batches, hist + [[]]);
      }
    }
  }

  /** All batches answered from the cache of one. */
  function CachedAll(client: ClientHandler, asked: Batch, batches: seq<Batch>): History
    requires forall j | 0 <= j < |batches| :: Keys(batches[j]) <= Keys(asked)
  {
    seq(|batches|, j requires 0 <= j < |batches| => Cached(client, asked, batches[j]))
  }

  lemma {:induction false} PlanRunsFromCache(batches: seq<Batch>, client: ClientHandler, asked: Batch, env: Env<()>, j: nat)
    requires j <= |batches| && Bounded(Plan(batches), |batches|) && env.declared
    requires forall j | 0 <= j < |batches| :: Keys(batches[j]) <= Keys(asked)
    requires AnswersTo(client, asked, env.responses) && env.responses.Keys == Keys(asked)
    ensures Run(Plan(batches), |batches|, CachedAll(client, asked, batches)[..j], None, env) ==
            Final(CachedAll(client, asked, batches))
    decreases |batches| - j
  {
    var all := CachedAll(client, asked, batches);
    if j == |batches| {
      assert all[..j] == all;
    } else {
      ParsesToCached(client, asked, env.responses, batches[j]);
      assert all[..j] + [Cached(client, asked, batches[j])] == all[..j + 1];
      PlanRunsFromCache(batches, client, asked, env, j + 1);
    }
  }

  lemma {:induction false} FinalMeansCached(batches: seq<Batch>, env: Env<()>, hist: History)
    requires |hist| <= |batches| && Bounded(Plan(batches), |batches|)
    requires Run(Plan(batches), |batches|, hist, None, env).Final?
    ensures forall j | |hist| <= j < |batches| :: Keys(batches[j]) <= env.responses.Keys
    decreases |batches| - |hist|
  {
    if |hist| < |batches| {
      var e := Elicit(env.declared, env.strict, env.responses, batches[|hist|]);
      FinalMeansCached(batches, env, hist + [e.outcomes]);
    }
  }

  /** The first batch gets past the key policy. */
  ghost predicate Recordable(batches: seq<Batch>, strict: bool) {
    RecordAll(map[], First(batches), map[], strict).Some?
  }

  /** How the call of a plan ends: with the answers to its first batch, given for
      every batch, if that covers the rest; otherwise never with a result. */
  lemma PlanEnds(batches: seq<Batch>, client: ClientHandler, strict: bool)
    requires Recordable(batches, strict)
    ensures Covered(batches) ==>
              var call := PlanCall(batches, client, strict);
              call.executions <= 2 && call.result == Returned(CachedAll(client, First(batches), batches))
    ensures !Covered(batches) ==> !PlanCall(batches, client, strict).result.Returned?
  {
    PlanOk(batches);
    var h, n, first := Plan(batches), |batches|, First(batches);
    StatelessEnds(h, n, client, strict);
    FirstBatchOfPlan(batches, []);
    assert batches[0..] == batches;
    FirstIsBatch(batches);
    Recorded(first, map[], strict);
    if first == [] {
      PlanRunsFromCache(batches, client, [], Fresh(strict, map[]), 0);
      assert CachedAll(client, [], batches)[..0] == [];
    } else {
      var requests := RecordAll(map[], first, map[], strict).value;
      RecordedAnswers(client, first, map[], requests);
      PlanSecondRun(batches, client, Fresh(strict, Answers(client, requests)));
    }
  }

  /** The execution that has the answers to the first batch. */
  lemma PlanSecondRun(batches: seq<Batch>, client: ClientHandler, env: Env<()>)
    requires Bounded(Plan(batches), |batches|) && env.declared
    requires AnswersTo(client, First(batches), env.responses) && env.responses.Keys == Keys(First(batches))
    ensures Covered(batches) ==>
              Run(Plan(batches), |batches|, [], None, env) == Final(CachedAll(client, First(batches), batches))
    ensures !Covered(batches) ==> !Run(Plan(batches), |batches|, [], None, env).Final?
  {
    if Covered(batches) {
      PlanRunsFromCache(batches, client, First(batches), env, 0);
      assert CachedAll(client, First(batches), batches)[..0] == [];
    } else if Run(Plan(batches), |batches|, [], None, env).Final? {
      FinalMeansCached(batches, env, []);
    }
  }

  lemma StrictConflictFails(batches: seq<Batch>, client: ClientHandler, strict: bool)
    requires !Recordable(batches, strict)
    ensures PlanCall(batches, client, strict).result == ServerError(InvalidParams)
  {
    PlanOk(batches);
    StatelessEnds(Plan(batches), |batches|, client, strict);
    FirstBatchOfPlan(batches, []);
    assert batches[0..] == batches;
  }

  lemma FirstConsistent(batches: seq<Batch>)
    requires OneQuestionPerKey(batches)
    ensures Consistent(First(batches))
  {
    FirstIsBatch(batches);
  }

  lemma CachedIsTruth(batches: seq<Batch>, client: ClientHandler)
    requires Covered(batches) && OneQuestionPerKey(batches)
    ensures CachedAll(client, First(batches), batches) == Truth(client, batches)
  {
    var first := First(batches);
    FirstIsBatch(batches);
    forall j | 0 <= j < |batches| ensures Cached(client, first, batches[j]) == Outcomes(client, batches[j]) {
      forall i | 0 <= i < |batches[j]| ensures LastQuestion(first, batches[j][i].key) == batches[j][i].params {
        assert batches[j][i].key in Keys(batches[j]);
        LastIsAsked(first, batches[j][i].key);
      }
    }
  }

  /** Re-execution equals inline delivery, in at most two executions, for a handler
      that asks under one key always the same question and nothing after its first
      batch that was not asked there. One `elicit_all` with distinct keys is such a
      handler. */
  lemma SameAsInline(batches: seq<Batch>, client: ClientHandler, strict: bool)
    requires Covered(batches) && OneQuestionPerKey(batches)
    ensures var call := PlanCall(batches, client, strict);
            && call.executions <= 2
            && call.result == Returned(Truth(client, batches))
            && Bounded(Plan(batches), |batches|)
            && Inline(Plan(batches), |batches|, [], client) == Ok(Truth(client, batches))
  {
    FirstIsBatch(batches);
    FirstConsistent(batches);
    Recorded(First(batches), map[], strict);
    PlanEnds(batches, client, strict);
    CachedIsTruth(batches, client);
    PlanOk(batches);
    InlineIsTruth(batches, client, 0);
    assert Truth(client, batches)[..0] == [];
  }

  lemma OneBatchIsCovered(batch: Batch)
    requires Consistent(batch)
    ensures Covered([batch]) && OneQuestionPerKey([batch])
  {
    assert First([]) == [];
  }

  /** And no other handler is: some client tells it apart from inline delivery. */
  lemma OtherwiseDiffers(batches: seq<Batch>, strict: bool) returns (client: ClientHandler)
    requires !(Covered(batches) && OneQuestionPerKey(batches))
    ensures PlanCall(batches, client, strict).result != Returned(Truth(client, batches))
  {
    client := ClientHandler(p => Outcome(Decline, map[]), v => Err(""), Err(""));
    if !Recordable(batches, strict) {
      StrictConflictFails(batches, client, strict);
    } else if !Covered(batches) {
      PlanEnds(batches, client, strict);
    } else {
      var j, i, l, k :| 0 <= j < |batches| && 0 <= i < |batches[j]| && 0 <= l < |batches| && 0 <= k < |batches[l]|
        && batches[j][i].key == batches[l][k].key && batches[j][i].params != batches[l][k].params;
      var p := batches[j][i].params;
      client := ClientHandler(q => Outcome(if q == p then Accept else Decline, map[]), v => Err(""), Err(""));
      PlanEnds(batches, client, strict);
      SameKeySameTold(batches, client, j, i, l, k);
      assert Truth(client, batches)[j][i].action == Accept && Truth(client, batches)[l][k].action == Decline;
    }
  }

  lemma SameKeySameTold(batches: seq<Batch>, client: ClientHandler, j: nat, i: nat, l: nat, k: nat)
    requires Covered(batches) && j < |batches| && i < |batches[j]| && l < |batches| && k < |batches[l]|
    requires batches[j][i].key == batches[l][k].key
    ensures var told := CachedAll(client, First(batches), batches);
            |told| == |batches| && |told[j]| == |batches[j]| && |told[l]| == |batches[l]| && told[j][i] == told[l][k]
  {
    assert batches[j][i].key in Keys(batches[j]) && batches[l][k].key in Keys(batches[l]);
  }
}
