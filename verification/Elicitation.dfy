/** Input requests on the wire: what the server asks, how the client's handler
    answers, and how the server reads the answer. Shared by inline requests and by
    multi-round-trip retries. */
module Elicitation {
  import opened Wrappers
  import opened Json

  datatype Action = Accept | Decline | Cancel

  datatype Outcome = Outcome(action: Action, content: Object)

  /** A form-mode elicitation. */
  datatype Params = Params(message: string, schema: Json)

  datatype RpcError = MethodNotFound | InvalidParams | Internal(message: string)

  /** The user-supplied side of the client, assumed deterministic. */
  datatype ClientHandler = ClientHandler(
    elicit: Params -> Outcome,
    createMessage: Json -> Result<Json, string>,
    listRoots: Result<Json, string>)

  // ---- the server's side ----------------------------------------------------------

  function RequestValue(p: Params): Json {
    Obj(map["method" := Str("elicitation/create"),
            "params" := Obj(map["mode" := Str("form"), "message" := Str(p.message), "requestedSchema" := p.schema])])
  }

  function ParseAction(name: string): Option<Action> {
    if name == "accept" then Some(Accept)
    else if name == "decline" then Some(Decline)
    else if name == "cancel" then Some(Cancel)
    else None
  }

  /** `parse_elicit_outcome`: only an accepted form has content. */
  function ParseOutcome(raw: Json): Result<Outcome, RpcError> {
    var name := AsStr(Get(raw, "action"));
    var content := Get(raw, "content");
    if name.None? || (content.Some? && !content.value.Obj?) then Err(InvalidParams)
    else match ParseAction(name.value)
      case None => Err(InvalidParams)
      case Some(action) =>
        Ok(Outcome(action, if action == Accept && content.Some? then content.value.fields else map[]))
  }

  // ---- the client's side ------------------------------------------------------------

  function ParseParams(params: Option<Json>): Result<Params, RpcError> {
    match params
    case None => Err(InvalidParams)
    case Some(v) =>
      var message := AsStr(Get(v, "message"));
      var schema := Get(v, "requestedSchema");
      Ok(Params(if message.Some? then message.value else "", if schema.Some? then schema.value else Obj(map[])))
  }

  function ActionName(a: Action): string {
    match a
    case Accept => "accept"
    case Decline => "decline"
    case Cancel => "cancel"
  }

  function OutcomeValue(o: Outcome): Json {
    var action := map["action" := Str(ActionName(o.action))];
    Obj(if o.action == Accept then action["content" := Obj(o.content)] else action)
  }

  function FromHandler(r: Result<Json, string>): Result<Json, RpcError> {
    match r
    case Ok(v) => Ok(v)
    case Err(message) => Err(Internal(message))
  }

  /** `dispatch_server_request`, which both delivery models answer through. */
  function Dispatch(client: ClientHandler, request: Json): Result<Json, RpcError> {
    var method_ := AsStr(Get(request, "method"));
    var params := Get(request, "params");
    if method_ == Some("elicitation/create") then
      match ParseParams(params)
      case Err(e) => Err(e)
      case Ok(p) => Ok(OutcomeValue(client.elicit(p)))
    else if method_ == Some("sampling/createMessage") then
      FromHandler(client.createMessage(if params.Some? then params.value else Null))
    else if method_ == Some("roots/list") then FromHandler(client.listRoots)
    else Err(MethodNotFound)
  }

  // ---- both ------------------------------------------------------------------------------

  /** What of the user's answer reaches the server's handler. */
  function Normalize(o: Outcome): Outcome {
    if o.action == Accept then o else o.(content := map[])
  }

  lemma OutcomeRoundTrip(o: Outcome)
    ensures ParseOutcome(OutcomeValue(o)) == Ok(Normalize(o))
  {
    var v := OutcomeValue(o);
    assert Get(v, "action") == Some(Str(ActionName(o.action)));
    assert ParseAction(ActionName(o.action)) == Some(o.action) by {
      assert "accept"[0] != "decline"[0] && "decline"[0] != "cancel"[0] && "accept"[0] != "cancel"[0];
    }
    assert Get(v, "content") == if o.action == Accept then Some(Obj(o.content)) else None;
  }

  /** The client's handler sees the very question that was asked, and the server's
      handler the very answer, without the content of a refusal. */
  lemma AskRoundTrip(client: ClientHandler, p: Params)
    ensures Dispatch(client, RequestValue(p)) == Ok(OutcomeValue(client.elicit(p)))
    ensures ParseOutcome(OutcomeValue(client.elicit(p))) == Ok(Normalize(client.elicit(p)))
  {
    var request := RequestValue(p);
    assert Get(request, "method") == Some(Str("elicitation/create"));
    var params := Get(request, "params").value;
    assert Get(params, "message") == Some(Str(p.message));
    assert Get(params, "requestedSchema") == Some(p.schema);
    OutcomeRoundTrip(client.elicit(p));
  }

  lemma RequestInjective(p: Params, q: Params)
    requires RequestValue(p) == RequestValue(q)
    ensures p == q
  {
    var a, b := RequestValue(p).fields["params"], RequestValue(q).fields["params"];
    assert a.fields["message"] == b.fields["message"] && a.fields["requestedSchema"] == b.fields["requestedSchema"];
  }

  // ---- the wire, in the protocol's own words -------------------------------------------------

  function At(v: Json, path: seq<string>): Option<Json>
    decreases |path|
  {
    if path == [] then Some(v)
    else match Get(v, path[0])
      case None => None
      case Some(child) => At(child, path[1..])
  }

  /** A question is a form-mode `elicitation/create` request, an answer its action by name
      and, if accepted, its content. */
  lemma WireForm(p: Params, o: Outcome)
    ensures At(RequestValue(p), ["method"]) == Some(Str("elicitation/create"))
    ensures At(RequestValue(p), ["params", "mode"]) == Some(Str("form"))
    ensures At(RequestValue(p), ["params", "message"]) == Some(Str(p.message))
    ensures At(RequestValue(p), ["params", "requestedSchema"]) == Some(p.schema)
    ensures At(OutcomeValue(o), ["action"]) ==
            Some(Str(match o.action case Accept => "accept" case Decline => "decline" case Cancel => "cancel"))
    ensures At(OutcomeValue(o), ["content"]) == if o.action == Accept then Some(Obj(o.content)) else None
  {
    var r := RequestValue(p);
    assert ["params", "mode"][1..] == ["mode"] && ["params", "message"][1..] == ["message"];
    assert ["params", "requestedSchema"][1..] == ["requestedSchema"];
    assert ["method"][1..] == [] && ["mode"][1..] == [] && ["message"][1..] == [] && ["requestedSchema"][1..] == [];
    assert ["action"][1..] == [] && ["content"][1..] == [];
    assert Get(r, "params").value.Obj?;
  }

  /** How the client answers any request of the server: by its method, an unknown one with
      an error; a form without parameters is invalid, one without a message or a schema is
      asked with none. */
  lemma DispatchExactly(client: ClientHandler, name: string, params: Json)
    ensures var request := Obj(map["method" := Str(name), "params" := params]);
            Dispatch(client, request) ==
            match name
            case "elicitation/create" =>
              var message, schema := AsStr(Get(params, "message")), Get(params, "requestedSchema");
              Ok(OutcomeValue(client.elicit(Params(
                if message.Some? then message.value else "", if schema.Some? then schema.value else Obj(map[])))))
            case "sampling/createMessage" =>
              (match client.createMessage(params) case Ok(v) => Ok(v) case Err(text) => Err(Internal(text)))
            case "roots/list" =>
              (match client.listRoots case Ok(v) => Ok(v) case Err(text) => Err(Internal(text)))
            case _ => Err(MethodNotFound)
    ensures Dispatch(client, Obj(map["method" := Str("elicitation/create")])) == Err(InvalidParams)
    ensures !params.Str? ==> Dispatch(client, Obj(map["method" := params])) == Err(MethodNotFound)
  {
    var request := Obj(map["method" := Str(name), "params" := params]);
    assert Get(request, "method") == Some(Str(name)) && Get(request, "params") == Some(params);
    var bare := Obj(map["method" := Str("elicitation/create")]);
    assert Get(bare, "method") == Some(Str("elicitation/create")) && Get(bare, "params").None?;
    assert Get(Obj(map["method" := params]), "method") == Some(params);
  }
}
