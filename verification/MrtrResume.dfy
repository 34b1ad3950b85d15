/** Handlers that ask several batches by stashing what they were told as resume
    state: how their calls end, and which of them get what inline requests would
    have told them. */
module MrtrResume {
  import opened Wrappers
  import opened Json
  import opened Elicitation
  import opened Mrtr
  import opened MrtrEquivalence

  /** Where a handler stands: what it loaded, then what this execution told it. */
  function Known(state: Option<History>, hist: History): History {
    (if state.Some? then state.value else []) + hist
  }

  function ResumingNext(batches: seq<Batch>, state: Option<History>, hist: History): Decision<History, History> {
    var known := Known(state, hist);
    if |known| < |batches| then Ask(batches[|known|], Some(known)) else Return(known)
  }

  /** A handler that loads its state, stores it again before every batch, and goes on
      from where it was. */
  function Resuming(batches: seq<Batch>): (h: Handler<History, History>)
    ensures forall state, hist: History :: h(state, hist) == ResumingNext(batches, state, hist)
  {
    (state: Option<History>, hist: History) => ResumingNext(batches, state, hist)
  }

  lemma ResumingBounded(batches: seq<Batch>)
    ensures Bounded(Resuming(batches), |batches|)
  {
  }

  function OneMore<R>(call: Call<R>): Call<R> { call.(executions := call.executions + 1) }

  // ---- how such a call goes -------------------------------------------------------------------

  /** What a batch is recorded as while the answers to `keys` are cached. */
  function Recording(batch: Batch, keys: set<string>, strict: bool): Option<map<string, Json>> {
    RecordAll(map[], batch, map k | k in keys :: Null, strict)
  }

  /** The history after all batches in turn that the answers to `asked` cover: asked again
      or not, they are told what was answered under their keys. */
  ghost function Reached(batches: seq<Batch>, client: ClientHandler, asked: Batch, known: History): (r: History)
    requires |known| <= |batches|
    ensures known <= r && |r| <= |batches|
    ensures |r| < |batches| ==> !(Keys(batches[|r|]) <= Keys(asked))
    decreases |batches| - |known|
  {
    if |known| < |batches| && Keys(batches[|known|]) <= Keys(asked) then
      Reached(batches, client, asked, known + [Cached(client, asked, batches[|known|])])
    else known
  }

  /** A batch that shares some but not all of its keys with the answers the request
      brought: each round brings the answers the last one lacked, and only those. */
  function Stalled<R>(batch: Batch, asked: Batch, strict: bool, left: nat): Call<R> {
    if left == 0 then Call(NoConvergence, 0)
    else if Recording(batch, Keys(batch) - Keys(asked), strict).None? then Call(ServerError(InvalidParams), 1)
    else Call(NoConvergence, left)
  }

  /** The call from a request on that brings `known` as resume state and the answers to
      `asked`, with `left` rounds left. */
  ghost function Course(batches: seq<Batch>, client: ClientHandler, strict: bool, asked: Batch, known: History, left: nat): Call<History>
    requires |known| <= |batches|
    decreases left
  {
    if left == 0 then Call(NoConvergence, 0)
    else
      var r := Reached(batches, client, asked, known);
      if |r| == |batches| then Call(Returned(r), 1)
      else
        var batch := batches[|r|];
        if Recording(batch, Keys(asked), strict).None? then Call(ServerError(InvalidParams), 1)
        else if Keys(batch) !! Keys(asked) then OneMore(Course(batches, client, strict, batch, r, left - 1))
        else OneMore(Stalled(batch, asked, strict, left - 1))
  }

  lemma CourseReturns(batches: seq<Batch>, client: ClientHandler, strict: bool, asked: Batch, known: History, r: History, left: nat)
    requires |known| <= |batches| && left > 0 && r == Reached(batches, client, asked, known) && |r| == |batches|
    ensures Course(batches, client, strict, asked, known, left) == Call(Returned(r), 1)
  {
  }

  lemma CourseGoesOn(batches: seq<Batch>, client: ClientHandler, strict: bool, asked: Batch, known: History, r: History,
                     below: nat, left: nat)
    requires |known| <= |batches| && left == below + 1 && r == Reached(batches, client, asked, known) && |r| < |batches|
    requires Recording(batches[|r|], Keys(asked), strict).Some?
    ensures Course(batches, client, strict, asked, known, left) ==
            OneMore(if Keys(batches[|r|]) !! Keys(asked) then Course(batches, client, strict, batches[|r|], r, below)
                    else Stalled(batches[|r|], asked, strict, below))
  {
  }

  // ---- one execution ----------------------------------------------------------------------------

  lemma {:induction false} RecordingIs(batch: Batch, responses: Responses, keys: set<string>, strict: bool)
    requires Keys(batch) * responses.Keys == Keys(batch) * keys
    ensures RecordAll(map[], batch, responses, strict) == Recording(batch, keys, strict)
  {
    if batch != [] {
      var first, last := batch[..|batch| - 1], batch[|batch| - 1];
      KeysSplit(batch);
      forall k | k in Keys(batch) ensures k in responses <==> k in keys {
        assert k in Keys(batch) * responses.Keys <==> k in Keys(batch) * keys;
      }
      RecordingIs(first, responses, keys, strict);
    }
  }

  /** The answers to all of `asked`, and `known` so far. */
  ghost predicate Brings(env: Env<History>, client: ClientHandler, asked: Batch) {
    env.declared && AnswersTo(client, asked, env.responses) && env.responses.Keys == Keys(asked)
  }

  ghost function ReplyAt(batches: seq<Batch>, keys: set<string>, strict: bool, r: History): Reply<History, History>
    requires |r| <= |batches|
  {
    if |r| == |batches| then Final(r)
    else match Recording(batches[|r|], keys, strict)
      case None => RpcFailed(InvalidParams)
      case Some(requests) => InputRequired(requests, Some(r))
  }

  lemma ElicitCovered(client: ClientHandler, asked: Batch, env: Env<History>, batch: Batch)
    requires Brings(env, client, asked) && Keys(batch) <= Keys(asked)
    ensures Elicit(true, env.strict, env.responses, batch) == Answered(Cached(client, asked, batch))
  {
    ParsesToCached(client, asked, env.responses, batch);
  }

  lemma ElicitMissing(env: Env<History>, batch: Batch, keys: set<string>)
    requires !(Keys(batch) <= env.responses.Keys) && Keys(batch) * env.responses.Keys == Keys(batch) * keys
    ensures Elicit(true, env.strict, env.responses, batch) ==
            match Recording(batch, keys, env.strict) case None => Failed(InvalidParams) case Some(m) => Abort(m)
  {
    RecordingIs(batch, env.responses, keys, env.strict);
  }

  /** An execution at a batch that is not covered. */
  lemma RunAborts(batches: seq<Batch>, env: Env<History>, hist: History, stored: Option<History>, known: History, keys: set<string>)
    requires Bounded(Resuming(batches), |batches|) && env.declared && known == Known(env.state, hist)
    requires |known| < |batches| && !(Keys(batches[|known|]) <= env.responses.Keys)
    requires Keys(batches[|known|]) * env.responses.Keys == Keys(batches[|known|]) * keys
    ensures Run(Resuming(batches), |batches|, hist, stored, env) == ReplyAt(batches, keys, env.strict, known)
  {
    assert Resuming(batches)(env.state, hist) == ResumingNext(batches, env.state, hist);
    ElicitMissing(env, batches[|known|], keys);
  }

  lemma RunReturns(batches: seq<Batch>, env: Env<History>, hist: History, stored: Option<History>, known: History)
    requires Bounded(Resuming(batches), |batches|) && known == Known(env.state, hist) && |known| == |batches|
    ensures Run(Resuming(batches), |batches|, hist, stored, env) == Final(known)
  {
    assert Resuming(batches)(env.state, hist) == ResumingNext(batches, env.state, hist);
  }

  lemma RunAnswered(batches: seq<Batch>, client: ClientHandler, asked: Batch, env: Env<History>, hist: History, stored: Option<History>,
                    known: History, told: seq<Outcome>)
    requires Bounded(Resuming(batches), |batches|) && Brings(env, client, asked) && known == Known(env.state, hist)
    requires |known| < |batches| && Keys(batches[|known|]) <= Keys(asked) && told == Cached(client, asked, batches[|known|])
    ensures Run(Resuming(batches), |batches|, hist, stored, env) ==
            Run(Resuming(batches), |batches|, hist + [told], Some(known), env)
    ensures known + [told] == Known(env.state, hist + [told])
  {
    assert Resuming(batches)(env.state, hist) == ResumingNext(batches, env.state, hist);
    ElicitCovered(client, asked, env, batches[|known|]);
  }

  /** An execution gets as far as the answers it brought reach. */
  lemma {:induction false} RunReaches(batches: seq<Batch>, client: ClientHandler, asked: Batch, env: Env<History>, hist: History,
                                      stored: Option<History>, known: History)
    requires Bounded(Resuming(batches), |batches|) && Brings(env, client, asked)
    requires known == Known(env.state, hist) && |known| <= |batches|
    ensures Run(Resuming(batches), |batches|, hist, stored, env) ==
            ReplyAt(batches, Keys(asked), env.strict, Reached(batches, client, asked, known))
    decreases |batches| - |known|
  {
    if |known| == |batches| {
      RunReturns(batches, env, hist, stored, known);
    } else if Keys(batches[|known|]) <= Keys(asked) {
      var told := Cached(client, asked, batches[|known|]);
      RunAnswered(batches, client, asked, env, hist, stored, known, told);
      RunReaches(batches, client, asked, env, hist + [told], Some(known), known + [told]);
    } else {
      RunAborts(batches, env, hist, stored, known, Keys(asked));
    }
  }

  // ---- the whole call --------------------------------------------------------------------------------

  /** The request that follows: answers to what was asked, and the state stored. */
  lemma NextBrings(client: ClientHandler, batch: Batch, keys: set<string>, strict: bool, env: Env<History>, r: History)
    returns (next: Env<History>)
    requires Recording(batch, keys, strict).Some? && env.declared && env.strict == strict
    ensures var requests := Recording(batch, keys, strict).value;
            && AllAnswered(client, requests)
            && next == Next(env, Answers(client, requests), Some(r))
            && next.declared && next.strict == strict && next.state == Some(r)
            && next.responses.Keys == Keys(batch) - keys && AnswersTo(client, batch, next.responses)
  {
    var responses: Responses := map k | k in keys :: Null;
    Recorded(batch, responses, strict);
    var requests := Recording(batch, keys, strict).value;
    RecordedAnswers(client, batch, responses, requests);
    next := Next(env, Answers(client, requests), Some(r));
  }

  lemma DriveEnds(batches: seq<Batch>, client: ClientHandler, env: Env<History>, rounds: nat)
    requires Bounded(Resuming(batches), |batches|) && rounds > 0
    ensures var reply := Run(Resuming(batches), |batches|, [], None, env);
            && (reply.Final? ==> Drive(Resuming(batches), |batches|, client, rounds, env) == Call(Returned(reply.result), 1))
            && (reply.RpcFailed? ==> Drive(Resuming(batches), |batches|, client, rounds, env) == Call(ServerError(reply.error), 1))
  {
  }

  /** Stopped at a batch with the answers to some of its keys, the handler asks for the others. */
  lemma RunStalls(batches: seq<Batch>, env: Env<History>, r: History, keys: set<string>)
    requires Bounded(Resuming(batches), |batches|) && env.declared && env.state == Some(r) && |r| < |batches|
    requires !(Keys(batches[|r|]) <= env.responses.Keys)
    requires Keys(batches[|r|]) * env.responses.Keys == Keys(batches[|r|]) * keys
    ensures Run(Resuming(batches), |batches|, [], None, env) == ReplyAt(batches, keys, env.strict, r)
  {
    assert Known(env.state, []) == r;
    RunAborts(batches, env, [], None, r, keys);
  }

  /** The requests that bring the one part of the answers lack the other. */
  lemma StalledAlternates(batches: seq<Batch>, client: ClientHandler, asked: Batch, env: Env<History>, r: History) returns (other: Env<History>)
    requires Bounded(Resuming(batches), |batches|) && env.declared && env.state == Some(r) && |r| < |batches|
    requires var batch := batches[|r|];
             && env.responses.Keys == Keys(batch) - Keys(asked)
             && !(Keys(batch) <= Keys(asked)) && !(Keys(batch) !! Keys(asked))
             && Recording(batch, Keys(asked), env.strict).Some?
             && Recording(batch, Keys(batch) - Keys(asked), env.strict).Some?
             && AllAnswered(client, Recording(batch, Keys(asked), env.strict).value)
             && env.responses == Answers(client, Recording(batch, Keys(asked), env.strict).value)
    ensures Alternate(Resuming(batches), |batches|, client, env, other)
    ensures Alternate(Resuming(batches), |batches|, client, other, env)
  {
    var batch := batches[|r|];
    var rest := Keys(batch) - Keys(asked);
    RunStalls(batches, env, r, rest);
    other := NextBrings(client, batch, rest, env.strict, env, r);
    assert other.responses.Keys == Keys(batch) * Keys(asked);
    RunStalls(batches, other, r, Keys(asked));
    assert Next(other, env.responses, Some(r)) == env;
  }

  lemma StalledIs(batches: seq<Batch>, client: ClientHandler, asked: Batch, env: Env<History>, r: History, left: nat)
    requires Bounded(Resuming(batches), |batches|) && env.declared && env.state == Some(r) && |r| < |batches|
    requires var batch := batches[|r|];
             && env.responses.Keys == Keys(batch) - Keys(asked)
             && !(Keys(batch) <= Keys(asked)) && !(Keys(batch) !! Keys(asked))
             && Recording(batch, Keys(asked), env.strict).Some?
             && AllAnswered(client, Recording(batch, Keys(asked), env.strict).value)
             && env.responses == Answers(client, Recording(batch, Keys(asked), env.strict).value)
    ensures Drive(Resuming(batches), |batches|, client, left, env) == Stalled(batches[|r|], asked, env.strict, left)
  {
    var batch := batches[|r|];
    if left > 0 {
      if Recording(batch, Keys(batch) - Keys(asked), env.strict).None? {
        RunStalls(batches, env, r, Keys(batch) - Keys(asked));
        DriveEnds(batches, client, env, left);
      } else {
        var other := StalledAlternates(batches, client, asked, env, r);
        DriveCycles(Resuming(batches), |batches|, client, left, env, other);
      }
    }
  }

  lemma {:induction false} CourseIs(batches: seq<Batch>, client: ClientHandler, asked: Batch, env: Env<History>, known: History, left: nat)
    requires Bounded(Resuming(batches), |batches|) && Brings(env, client, asked)
    requires known == Known(env.state, []) && |known| <= |batches|
    ensures Drive(Resuming(batches), |batches|, client, left, env) == Course(batches, client, env.strict, asked, known, left)
    decreases left
  {
    if left > 0 {
      var r := Reached(batches, client, asked, known);
      RunReaches(batches, client, asked, env, [], None, known);
      if |r| == |batches| || Recording(batches[|r|], Keys(asked), env.strict).None? {
        DriveEnds(batches, client, env, left);
      } else {
        var batch, below: nat := batches[|r|], left - 1;
        var next := NextBrings(client, batch, Keys(asked), env.strict, env, r);
        DriveOn(Resuming(batches), |batches|, client, below, left, env, next);
        CourseGoesOn(batches, client, env.strict, asked, known, r, below, left);
        if Keys(batch) !! Keys(asked) {
          assert Known(next.state, []) == r && Keys(batch) - Keys(asked) == Keys(batch);
          CourseIs(batches, client, batch, next, r, below);
        } else {
          StalledIs(batches, client, asked, next, r, below);
        }
      }
    }
  }

  /** How the call of a handler with its history as resume state ends, whatever it asks
      and under whatever keys. Batches covered by the answers at hand are told those. A
      batch with none of its keys among them takes another round. One with some of its
      keys among them never gets the rest together. */
  lemma ResumingEnds(batches: seq<Batch>, client: ClientHandler, strict: bool)
    ensures Bounded(Resuming(batches), |batches|)
    ensures CallOf(Resuming(batches), |batches|, client, true, strict) == Course(batches, client, strict, [], [], 16)
  {
    ResumingBounded(batches);
    var env: Env<History> := Env(true, strict, map[], None);
    assert Known(env.state, []) == [];
    CourseIs(batches, client, [], env, [], 16);
  }

  // ---- exactly when it is like asking inline ------------------------------------------------------------

  ghost predicate SameQuestions(asked: Batch, batch: Batch)
    requires Keys(batch) <= Keys(asked)
  {
    forall i | 0 <= i < |batch| :: assert batch[i].key in Keys(batch); LastQuestion(asked, batch[i].key) == batch[i].params
  }

  /** From batch `k` on, with the answers to `asked`: each batch asks what those already
      answered, or only under other keys, and at most `left` requests are made. */
  ghost predicate Follows(batches: seq<Batch>, asked: Batch, k: nat, left: nat)
    requires k <= |batches|
    decreases left, |batches| - k
  {
    left > 0 &&
    (k == |batches| ||
     if Keys(batches[k]) <= Keys(asked) then SameQuestions(asked, batches[k]) && Follows(batches, asked, k + 1, left)
     else Keys(batches[k]) !! Keys(asked) && Follows(batches, batches[k], k, left - 1))
  }

  lemma SameIsCached(client: ClientHandler, asked: Batch, batch: Batch)
    requires Keys(batch) <= Keys(asked) && SameQuestions(asked, batch)
    ensures Cached(client, asked, batch) == Outcomes(client, batch)
  {
    forall i | 0 <= i < |batch| ensures Told(client, LastQuestion(asked, batch[i].key)) == Told(client, batch[i].params) {
      assert batch[i].key in Keys(batch);
    }
  }

  lemma SameAsItself(batch: Batch)
    requires SameQuestions(batch, batch)
    ensures Consistent(batch)
  {
    forall i, j | 0 <= i < |batch| && 0 <= j < |batch| && batch[i].key == batch[j].key ensures batch[i].params == batch[j].params {
      assert LastQuestion(batch, batch[i].key) == batch[i].params && LastQuestion(batch, batch[j].key) == batch[j].params;
    }
  }

  lemma CoveredStep(batches: seq<Batch>, client: ClientHandler, strict: bool, asked: Batch, known: History, left: nat, more: History)
    requires |known| < |batches| && Keys(batches[|known|]) <= Keys(asked)
    requires more == known + [Cached(client, asked, batches[|known|])]
    ensures Course(batches, client, strict, asked, known, left) == Course(batches, client, strict, asked, more, left)
  {
  }

  lemma FreshStep(batches: seq<Batch>, client: ClientHandler, strict: bool, asked: Batch, known: History, below: nat, left: nat)
    requires |known| < |batches| && !(Keys(batches[|known|]) <= Keys(asked)) && Keys(batches[|known|]) !! Keys(asked)
    requires Recording(batches[|known|], Keys(asked), strict).Some? && left == below + 1
    ensures Course(batches, client, strict, asked, known, left) ==
            OneMore(Course(batches, client, strict, batches[|known|], known, below))
  {
  }

  lemma ConsistentIsRecorded(batch: Batch, keys: set<string>, strict: bool)
    requires Consistent(batch)
    ensures Recording(batch, keys, strict).Some?
  {
    Recorded(batch, map k | k in keys :: Null, strict);
  }

  lemma TruthNext(client: ClientHandler, batches: seq<Batch>, k: nat)
    requires k < |batches|
    ensures Truth(client, batches)[..k + 1] == Truth(client, batches)[..k] + [Outcomes(client, batches[k])]
  {
  }

  lemma {:induction false} FollowingIsInline(batches: seq<Batch>, client: ClientHandler, strict: bool, asked: Batch, k: nat, left: nat)
    requires k <= |batches| && Follows(batches, asked, k, left)
    ensures Course(batches, client, strict, asked, Truth(client, batches)[..k], left).result == Returned(Truth(client, batches))
    decreases left, |batches| - k
  {
    var truth := Truth(client, batches);
    if k == |batches| {
      assert truth[..k] == truth;
    } else {
      var known, batch := truth[..k], batches[k];
      if Keys(batch) <= Keys(asked) {
        var next := k + 1;
        SameIsCached(client, asked, batch);
        TruthNext(client, batches, k);
        CoveredStep(batches, client, strict, asked, known, left, truth[..next]);
        FollowingIsInline(batches, client, strict, asked, next, left);
      } else {
        var below: nat := left - 1;
        SameAsItself(batch);
        ConsistentIsRecorded(batch, Keys(asked), strict);
        FreshStep(batches, client, strict, asked, known, below, left);
        FollowingIsInline(batches, client, strict, batch, k, below);
      }
    }
  }

  lemma {:induction false} CourseExtends(batches: seq<Batch>, client: ClientHandler, strict: bool, asked: Batch, known: History, left: nat)
    requires |known| <= |batches| && Course(batches, client, strict, asked, known, left).result.Returned?
    ensures known <= Course(batches, client, strict, asked, known, left).result.result
    decreases left
  {
    if left > 0 {
      var r := Reached(batches, client, asked, known);
      if |r| < |batches| && Keys(batches[|r|]) !! Keys(asked) && Recording(batches[|r|], Keys(asked), strict).Some? {
        var below: nat := left - 1;
        CourseExtends(batches, client, strict, batches[|r|], r, below);
      }
    }
  }

  /** A client that accepts one question and declines all others. */
  function Accepting(p: Params): ClientHandler {
    ClientHandler(q => Outcome(if q == p then Accept else Decline, map[]), v => Err(""), Err(""))
  }

  /** A batch told the answer to another question notices. */
  lemma OtherQuestionTells(batches: seq<Batch>, strict: bool, asked: Batch, k: nat, left: nat) returns (client: ClientHandler)
    requires k < |batches| && Keys(batches[k]) <= Keys(asked) && !SameQuestions(asked, batches[k])
    ensures Course(batches, client, strict, asked, Truth(client, batches)[..k], left).result != Returned(Truth(client, batches))
  {
    var batch := batches[k];
    var i :| 0 <= i < |batch| && (assert batch[i].key in Keys(batch); LastQuestion(asked, batch[i].key) != batch[i].params);
    client := Accepting(batch[i].params);
    var known, told := Truth(client, batches)[..k], Cached(client, asked, batch);
    CoveredStep(batches, client, strict, asked, known, left, known + [told]);
    assert told[i].action == Decline && Outcomes(client, batch)[i].action == Accept;
    if Course(batches, client, strict, asked, known + [told], left).result.Returned? {
      CourseExtends(batches, client, strict, asked, known + [told], left);
      assert (known + [told])[k] == told && Truth(client, batches)[k] == Outcomes(client, batch);
    }
  }

  lemma {:induction false} NotFollowingTells(batches: seq<Batch>, strict: bool, asked: Batch, k: nat, left: nat) returns (client: ClientHandler)
    requires k <= |batches| && !Follows(batches, asked, k, left)
    ensures Course(batches, client, strict, asked, Truth(client, batches)[..k], left).result != Returned(Truth(client, batches))
    decreases left, |batches| - k
  {
    if left == 0 {
      client := ClientHandler(p => Outcome(Decline, map[]), v => Err(""), Err(""));
    } else if Keys(batches[k]) <= Keys(asked) {
      if SameQuestions(asked, batches[k]) {
        var next := k + 1;
        client := NotFollowingTells(batches, strict, asked, next, left);
        SameIsCached(client, asked, batches[k]);
        TruthNext(client, batches, k);
        CoveredStep(batches, client, strict, asked, Truth(client, batches)[..k], left, Truth(client, batches)[..next]);
      } else {
        client := OtherQuestionTells(batches, strict, asked, k, left);
      }
    } else if Keys(batches[k]) !! Keys(asked) && Recording(batches[k], Keys(asked), strict).Some? {
      var below: nat := left - 1;
      client := NotFollowingTells(batches, strict, batches[k], k, below);
      FreshStep(batches, client, strict, asked, Truth(client, batches)[..k], below, left);
    } else {
      client := ClientHandler(p => Outcome(Decline, map[]), v => Err(""), Err(""));
      StalledNeverReturns(batches, client, strict, asked, Truth(client, batches)[..k], left);
    }
  }

  lemma StalledNeverReturns(batches: seq<Batch>, client: ClientHandler, strict: bool, asked: Batch, known: History, left: nat)
    requires |known| < |batches| && !(Keys(batches[|known|]) <= Keys(asked))
    requires !(Keys(batches[|known|]) !! Keys(asked)) || Recording(batches[|known|], Keys(asked), strict).None?
    ensures !Course(batches, client, strict, asked, known, left).result.Returned?
  {
  }

  /** A handler that carries its history as resume state is told, by every client, what
      inline requests would have told it, exactly if each batch asks questions the last
      request answered, or only under keys that it did not; and it needs at most 16
      executions. */
  lemma ResumingIsInlineExactly(batches: seq<Batch>, strict: bool)
    ensures Bounded(Resuming(batches), |batches|)
    ensures Follows(batches, [], 0, 16) <==>
            forall client :: CallOf(Resuming(batches), |batches|, client, true, strict).result == Returned(Truth(client, batches))
  {
    ResumingBounded(batches);
    if Follows(batches, [], 0, 16) {
      forall client ensures CallOf(Resuming(batches), |batches|, client, true, strict).result == Returned(Truth(client, batches)) {
        ResumingEnds(batches, client, strict);
        FollowingIsInline(batches, client, strict, [], 0, 16);
        assert Truth(client, batches)[..0] == [];
      }
    } else {
      var client := NotFollowingTells(batches, strict, [], 0, 16);
      ResumingEnds(batches, client, strict);
      assert Truth(client, batches)[..0] == [];
    }
  }

  // ---- fresh keys for every batch --------------------------------------------------------------------------

  /** The next batch from `j` on that asks anything. */
  function NextAsk(batches: seq<Batch>, j: nat): (k: nat)
    requires j <= |batches|
    ensures j <= k <= |batches|
    ensures k < |batches| ==> batches[k] != []
    decreases |batches| - j
  {
    if j == |batches| || batches[j] != [] then j else NextAsk(batches, j + 1)
  }

  /** How many batches from `j` on ask anything. */
  function Asks(batches: seq<Batch>, j: nat): nat
    requires j <= |batches|
    decreases |batches| - j
  {
    if j == |batches| then 0 else (if batches[j] != [] then 1 else 0) + Asks(batches, j + 1)
  }

  lemma {:induction false} AsksAtNext(batches: seq<Batch>, j: nat)
    requires j <= |batches|
    ensures var k := NextAsk(batches, j); Asks(batches, j) == if k == |batches| then 0 else 1 + Asks(batches, k + 1)
    decreases |batches| - j
  {
    if j < |batches| && batches[j] == [] { AsksAtNext(batches, j + 1); }
  }

  /** Each batch asks one question per key, and no key of the batch before it. */
  ghost predicate Disjoint(batches: seq<Batch>) {
    && (forall j | 0 <= j < |batches| :: Consistent(batches[j]))
    && (forall j: nat | j < |batches| :: SharesNothingWithNext(batches, j))
  }

  ghost predicate SharesNothingWithNext(batches: seq<Batch>, j: nat)
    requires j < |batches|
  {
    var k := NextAsk(batches, j + 1);
    k < |batches| ==> Keys(batches[j]) !! Keys(batches[k])
  }

  /** With nothing of the next question answered, an execution passes over empty batches only. */
  lemma {:induction false} ReachesNextAsk(batches: seq<Batch>, client: ClientHandler, asked: Batch, k: nat)
    requires k <= |batches|
    requires NextAsk(batches, k) < |batches| ==> Keys(batches[NextAsk(batches, k)]) !! Keys(asked)
    ensures Reached(batches, client, asked, Truth(client, batches)[..k]) == Truth(client, batches)[..NextAsk(batches, k)]
    decreases |batches| - k
  {
    if k < |batches| {
      if batches[k] == [] {
        var next := k + 1;
        TruthNext(client, batches, k);
        assert Outcomes(client, batches[k]) == Cached(client, asked, batches[k]);
        ReachesNextAsk(batches, client, asked, next);
      } else {
        NonEmptyKeys(batches[k]);
      }
    }
  }

  /** The answers to a batch reach to the next that asks anything. */
  lemma ReachesPastOwn(batches: seq<Batch>, client: ClientHandler, j: nat)
    requires Disjoint(batches) && j < |batches|
    ensures Reached(batches, client, batches[j], Truth(client, batches)[..j]) ==
            Truth(client, batches)[..NextAsk(batches, j + 1)]
  {
    var batch, next := batches[j], j + 1;
    assert SharesNothingWithNext(batches, j);
    forall i | 0 <= i < |batch| ensures LastQuestion(batch, batch[i].key) == batch[i].params {
      assert batch[i].key in Keys(batch);
      LastIsAsked(batch, batch[i].key);
    }
    SameIsCached(client, batch, batch);
    TruthNext(client, batches, j);
    ReachesNextAsk(batches, client, batch, next);
  }

  lemma {:induction false} CourseOfDisjoint(batches: seq<Batch>, client: ClientHandler, strict: bool, j: nat, left: nat)
    requires Disjoint(batches) && j < |batches|
    ensures Course(batches, client, strict, batches[j], Truth(client, batches)[..j], left) ==
            if Asks(batches, j + 1) < left then Call(Returned(Truth(client, batches)), 1 + Asks(batches, j + 1))
            else Call(NoConvergence, left)
    decreases left
  {
    if left > 0 {
      var next, below: nat := j + 1, left - 1;
      var k := NextAsk(batches, next);
      var truth := Truth(client, batches);
      var known := truth[..j];
      ReachesPastOwn(batches, client, j);
      AsksAtNext(batches, next);
      if k < |batches| {
        assert SharesNothingWithNext(batches, j);
        ConsistentIsRecorded(batches[k], Keys(batches[j]), strict);
        CourseGoesOn(batches, client, strict, batches[j], known, truth[..k], below, left);
        CourseOfDisjoint(batches, client, strict, k, below);
      } else {
        assert truth[..k] == truth;
        CourseReturns(batches, client, strict, batches[j], known, truth, left);
      }
    }
  }

  /** One question per key, and no key of the batch before: one execution more than the
      handler asks batches, as long as those are at most 15. */
  lemma ResumingSucceedsExactly(batches: seq<Batch>, client: ClientHandler, strict: bool)
    requires Disjoint(batches)
    ensures Bounded(Resuming(batches), |batches|)
    ensures CallOf(Resuming(batches), |batches|, client, true, strict) ==
            if Asks(batches, 0) <= 15 then Call(Returned(Truth(client, batches)), 1 + Asks(batches, 0))
            else Call(NoConvergence, 16)
  {
    ResumingEnds(batches, client, strict);
    AsksAtNext(batches, 0);
    var k := NextAsk(batches, 0);
    var truth := Truth(client, batches);
    assert truth[..0] == [];
    ReachesNextAsk(batches, client, [], 0);
    if k < |batches| {
      ConsistentIsRecorded(batches[k], Keys([]), strict);
      CourseGoesOn(batches, client, strict, [], [], truth[..k], 15, 16);
      CourseOfDisjoint(batches, client, strict, k, 15);
    } else {
      assert truth[..k] == truth;
      CourseReturns(batches, client, strict, [], [], truth, 16);
    }
  }
}
