/** Mirroring tool arguments into `Mcp-Param-*` headers: the client's call, the
    HTTP client lifting the mirrors out of the body, and the HTTP server comparing
    them with it again. */
module HeaderMirrors {
  import opened Wrappers
  import opened Json
  import opened HeaderCodec
  import opened HeaderScan

  const META_KEY: string := "io.turbomcp.internal/headerParams"
  const PARAM_PREFIX: string := "mcp-param-"

  type Mirrors = map<string, string>

  // ---- the client's call --------------------------------------------------------------

  /** The argument at a `properties` path. */
  function ArgumentAt(args: Object, path: seq<string>): Option<Json>
    decreases |path|
  {
    if path == [] then None
    else if |path| == 1 then Member(args, path[0])
    else match ArgumentAt(args, path[..|path| - 1])
      case None => None
      case Some(v) => Get(v, path[|path| - 1])
  }

  function Rendered(p: HeaderParam, args: Object): Option<string> {
    match ArgumentAt(args, p.path)
    case None => None
    case Some(v) => RenderArgument(v)
  }

  function MirrorsOf(ps: seq<HeaderParam>, args: Object): Mirrors {
    if ps == [] then map[]
    else
      var p := ps[|ps| - 1];
      var before := MirrorsOf(ps[..|ps| - 1], args);
      if Rendered(p, args).Some? then before[p.header := EncodeValue(Rendered(p, args).value)] else before
  }

  function AsJson(m: Mirrors): Object { map n | n in m :: Str(m[n]) }

  function CallParams(name: string, args: Object, mirrors: Mirrors): Object {
    var plain := map["name" := Str(name), "arguments" := Obj(args)];
    if mirrors == map[] then plain else plain["_meta" := Obj(map[META_KEY := Obj(AsJson(mirrors))])]
  }

  /** `tool_call_params`, given what the scan of the tool's schema left in the cache. */
  method ToolCallParams(cached: Option<seq<HeaderParam>>, name: string, args: Object) returns (params: Object)
    ensures params == CallParams(name, args, if cached.Some? then MirrorsOf(cached.value, args) else map[])
  {
    var mirrors: Mirrors := map[];
    if cached.Some? {
      var ps := cached.value;
      for n := 0 to |ps|
        invariant mirrors == MirrorsOf(ps[..n], args)
      {
        var value: Option<Json> := None;
        var path := ps[n].path;
        for i := 0 to |path|
          invariant value == ArgumentAt(args, path[..i])
        {
          assert path[..i + 1][..i] == path[..i];
          value := if i == 0 then Member(args, path[i]) else if value.Some? then Get(value.value, path[i]) else None;
        }
        assert path[..|path|] == path && ps[..n + 1][..n] == ps[..n];
        var rendered := if value.Some? then RenderArgument(value.value) else None;
        if rendered.Some? {
          mirrors := mirrors[ps[n].header := EncodeValue(rendered.value)];
        }
      }
      assert ps[..|ps|] == ps;
    }
    params := CallParams(name, args, mirrors);
  }

  /** A parameter is mirrored exactly when its argument is there and renders, and
      the mirror then decodes to that rendering and is legal header text. */
  ghost predicate Faithful(p: HeaderParam, args: Object, mirrors: Mirrors) {
    && (p.header in mirrors <==> Rendered(p, args).Some?)
    && (p.header in mirrors ==>
          DecodeValue(mirrors[p.header]) == Rendered(p, args) && LegalHeaderText(mirrors[p.header]))
  }

  ghost predicate HeaderAmong(ps: seq<HeaderParam>, n: string) {
    exists i | 0 <= i < |ps| :: ps[i].header == n
  }

  lemma LastFaithful(ps: seq<HeaderParam>, first: seq<HeaderParam>, args: Object)
    requires NamesDistinct(ps) && ps != [] && first == ps[..|ps| - 1]
    requires forall n | n in MirrorsOf(first, args) :: HeaderAmong(first, n)
    ensures Faithful(ps[|ps| - 1], args, MirrorsOf(ps, args))
  {
    var k := |ps| - 1;
    var p := ps[k];
    if Rendered(p, args).Some? {
      Lossless(Rendered(p, args).value);
      EncodedIsLegal(Rendered(p, args).value);
    }
    forall n | n in MirrorsOf(first, args) ensures n != p.header {
      assert HeaderAmong(first, n);
      var i :| 0 <= i < k && first[i].header == n;
      assert ps[i].header == n;
    }
  }

  lemma {:induction false} MirrorsFaithful(ps: seq<HeaderParam>, args: Object)
    requires NamesDistinct(ps)
    ensures forall i | 0 <= i < |ps| :: Faithful(ps[i], args, MirrorsOf(ps, args))
    ensures forall n | n in MirrorsOf(ps, args) :: HeaderAmong(ps, n)
  {
    if ps != [] {
      var k := |ps| - 1;
      var first, p := ps[..k], ps[k];
      MirrorsFaithful(first, args);
      LastFaithful(ps, first, args);
      forall i | 0 <= i < k ensures Faithful(ps[i], args, MirrorsOf(ps, args)) {
        assert first[i] == ps[i];
        assert ps[i].header != p.header;
      }
      forall n | n in MirrorsOf(ps, args) ensures HeaderAmong(ps, n) {
        if n in MirrorsOf(first, args) {
          var i :| 0 <= i < k && first[i].header == n;
          assert ps[i].header == n;
        } else {
          assert ps[k].header == n;
        }
      }
    }
  }

  // ---- out of the body, onto the wire ---------------------------------------------------

  function Strings(m: Object): Mirrors { map n | n in m && m[n].Str? :: m[n].s }

  /** The mirrors a request body carries. */
  function Signal(params: Object): Mirrors {
    var meta := Member(params, "_meta");
    var signal := if meta.Some? then Get(meta.value, META_KEY) else None;
    if signal.Some? && signal.value.Obj? then Strings(signal.value.fields) else map[]
  }

  /** The body without them. */
  function Stripped(params: Object): Object {
    var meta := Member(params, "_meta");
    if meta.Some? && meta.value.Obj? then params["_meta" := Obj(meta.value.fields - {META_KEY})] else params
  }

  /** A request on its way out of the HTTP client. */
  class Outgoing {
    var params: Object

    constructor (params: Object)
      ensures this.params == params
    {
      this.params := params;
    }

    /** `extract_header_params`: lift the mirrors out of the body. */
    method LiftMirrors() returns (mirrors: Mirrors)
      modifies this
      ensures mirrors == Signal(old(params)) && params == Stripped(old(params))
    {
      if "_meta" !in params || !params["_meta"].Obj? { return map[]; }
      var meta := params["_meta"].fields;
      var signal := Member(meta, META_KEY);
      params := params["_meta" := Obj(meta - {META_KEY})];
      mirrors := if signal.Some? && signal.value.Obj? then Strings(signal.value.fields) else map[];
    }
  }

  /** Lifting undoes attaching: the headers are the mirrors, and no trace of them
      stays in the body. */
  lemma LiftOfCall(name: string, args: Object, mirrors: Mirrors)
    ensures Signal(CallParams(name, args, mirrors)) == mirrors
    ensures var body := Stripped(CallParams(name, args, mirrors));
            && Member(body, "name") == Some(Str(name)) && Member(body, "arguments") == Some(Obj(args))
            && ("_meta" in body ==> body["_meta"] == Obj(map[]))
  {
    assert Strings(AsJson(mirrors)) == mirrors;
    var params := CallParams(name, args, mirrors);
    if mirrors != map[] {
      assert Member(params, "_meta") == Some(Obj(map[META_KEY := Obj(AsJson(mirrors))]));
      assert map[META_KEY := Obj(AsJson(mirrors))] - {META_KEY} == map[];
    }
  }

  function WireName(header: string): string { PARAM_PREFIX + Lower(header) }

  /** The `Mcp-Param-*` headers of a request are exactly the mirrors; HTTP lowers
      header names. */
  ghost predicate Carries(headers: map<string, string>, mirrors: Mirrors) {
    && (forall n | n in mirrors :: WireName(n) in headers && headers[WireName(n)] == mirrors[n])
    && (forall h | h in headers && PARAM_PREFIX <= h :: IsWireName(h, mirrors))
  }

  ghost predicate IsWireName(h: string, mirrors: Mirrors) {
    exists n :: n in mirrors && h == WireName(n)
  }

  // ---- the server's comparison -------------------------------------------------------------

  datatype Mismatch = InvalidCharacters | MalformedSentinel | NonPrimitive | Different

  predicate IsVisible(raw: string) { forall i | 0 <= i < |raw| :: 0x20 <= raw[i] as int < 0x7f || raw[i] == '\t' }

  /** What is wrong with a header that mirrors `v`. */
  function Compare(raw: string, v: Json): Option<Mismatch> {
    if !IsVisible(raw) then Some(InvalidCharacters)
    else if DecodeValue(raw).None? then Some(MalformedSentinel)
    else if RenderArgument(v).None? then Some(NonPrimitive)
    else if DecodeValue(raw) != RenderArgument(v) then Some(Different)
    else None
  }

  /** Header `h` names the argument `k`, ignoring ASCII case. */
  predicate Names(h: string, k: string) {
    PARAM_PREFIX <= h && Lower(k) == Lower(h[|PARAM_PREFIX|..])
  }

  ghost predicate Accepted(headers: map<string, string>, args: Object) {
    forall h, k | h in headers && k in args && Names(h, k) :: Compare(headers[h], args[k]).None?
  }

  ghost predicate CaseDistinct(args: Object) {
    forall k, l | k in args && l in args && Lower(k) == Lower(l) :: k == l
  }

  /** The argument a header names, if any: the first found. */
  method FindArgument(h: string, args: Object) returns (found: Option<string>)
    ensures found.Some? ==> found.value in args && Names(h, found.value)
    ensures found.None? ==> forall k | k in args :: !Names(h, k)
  {
    var keys := args.Keys;
    while keys != {}
      invariant keys <= args.Keys && forall k | k in args && k !in keys :: !Names(h, k)
      decreases keys
    {
      var k :| k in keys;
      if Names(h, k) { return Some(k); }
      keys := keys - {k};
    }
    found := None;
  }

  /** The loop of `validate_request_headers` over the headers of a `tools/call`.
      Where no two arguments differ only in case, it refuses exactly the requests
      in which a header disagrees with the argument it names. */
  method ValidateParamHeaders(headers: map<string, string>, args: Object) returns (r: Option<Mismatch>)
    ensures CaseDistinct(args) ==> (r.None? <==> Accepted(headers, args))
    ensures r.Some? ==> exists h, k :: h in headers && k in args && Names(h, k) && Compare(headers[h], args[k]) == r
    ensures r.None? ==> forall h, k | h in headers && k in args && Names(h, k) ::
                          exists l :: l in args && Names(h, l) && Compare(headers[h], args[l]).None?
  {
    var names := headers.Keys;
    while names != {}
      invariant names <= headers.Keys
      invariant forall h, k | h in headers && h !in names && k in args && Names(h, k) ::
                  exists l :: l in args && Names(h, l) && Compare(headers[h], args[l]).None?
      decreases names
    {
      var h :| h in names;
      names := names - {h};
      if PARAM_PREFIX <= h {
        var k := FindArgument(h, args);
        if k.Some? {
          r := Compare(headers[h], args[k.value]);
          if r.Some? { return; }
        }
      }
    }
    r := None;
  }

  // ---- does a well-behaved call pass? ----------------------------------------------------------

  /** Every annotation is named for its own top-level parameter. */
  ghost predicate SelfNamed(ps: seq<HeaderParam>) {
    forall i | 0 <= i < |ps| :: |ps[i].path| == 1 && Lower(ps[i].path[0]) == Lower(ps[i].header)
  }

  lemma {:induction false} LowerIdempotent(s: string)
    ensures Lower(Lower(s)) == Lower(s)
  {
    if s != "" {
      LowerIdempotent(s[1..]);
      assert Lower(s)[1..] == Lower(s[1..]);
    }
  }

  lemma NamesWireName(header: string, k: string)
    ensures Names(WireName(header), k) <==> Lower(k) == Lower(header)
  {
    LowerIdempotent(header);
    assert WireName(header)[|PARAM_PREFIX|..] == Lower(header);
  }

  /** A faithful mirror passes the comparison with a value exactly when the value
      renders like the argument it mirrors. */
  lemma CompareFaithful(p: HeaderParam, args: Object, mirrors: Mirrors, v: Json)
    requires Faithful(p, args, mirrors) && p.header in mirrors
    ensures Compare(mirrors[p.header], v).None? <==> RenderArgument(v) == Rendered(p, args)
  {
    assert IsVisible(mirrors[p.header]);
  }

  lemma WireNameInjective(m: string, n: string)
    requires WireName(m) == WireName(n)
    ensures Lower(m) == Lower(n)
  {
    assert WireName(m)[|PARAM_PREFIX|..] == Lower(m) && WireName(n)[|PARAM_PREFIX|..] == Lower(n);
  }

  /** Such a tool's calls always pass. */
  lemma SelfNamedPasses(ps: seq<HeaderParam>, args: Object, headers: map<string, string>)
    requires NamesDistinct(ps) && SelfNamed(ps) && CaseDistinct(args) && Carries(headers, MirrorsOf(ps, args))
    ensures Accepted(headers, args)
  {
    var mirrors := MirrorsOf(ps, args);
    MirrorsFaithful(ps, args);
    forall h, k | h in headers && k in args && Names(h, k) ensures Compare(headers[h], args[k]).None? {
      assert IsWireName(h, mirrors);
      var n :| n in mirrors && h == WireName(n);
      assert HeaderAmong(ps, n);
      var i :| 0 <= i < |ps| && ps[i].header == n;
      SelfNamedPair(ps[i], args, mirrors, k);
    }
  }

  lemma SelfNamedPair(p: HeaderParam, args: Object, mirrors: Mirrors, k: string)
    requires Faithful(p, args, mirrors) && p.header in mirrors && CaseDistinct(args)
    requires |p.path| == 1 && Lower(p.path[0]) == Lower(p.header)
    requires k in args && Names(WireName(p.header), k)
    ensures Compare(mirrors[p.header], args[k]).None?
  {
    NamesWireName(p.header, k);
    assert k == p.path[0];
    CompareFaithful(p, args, mirrors, args[k]);
  }

  /** The value `v` under nested objects. */
  function Nest(path: seq<string>, v: Json): Json {
    if path == [] then v else Obj(map[path[0] := Nest(path[1..], v)])
  }

  lemma {:induction false} ArgumentOfNest(args: Object, path: seq<string>, n: nat, v: Json)
    requires 1 <= n <= |path| && path[0] in args && args[path[0]] == Nest(path[1..], v)
    ensures ArgumentAt(args, path[..n]) == Some(Nest(path[n..], v))
    decreases n
  {
    if n > 1 {
      ArgumentOfNest(args, path, n - 1, v);
      assert path[..n][..n - 1] == path[..n - 1];
      assert path[n - 1..][0] == path[n - 1] && path[n - 1..][1..] == path[n..];
    }
  }

  /** One header that disagrees with the argument it names is enough. */
  lemma DisagreementRefused(ps: seq<HeaderParam>, i: nat, args: Object, k: string)
    requires NamesDistinct(ps) && i < |ps| && Rendered(ps[i], args).Some?
    requires k in args && Lower(k) == Lower(ps[i].header) && RenderArgument(args[k]) != Rendered(ps[i], args)
    ensures NeverPasses(ps, args)
  {
    var p, mirrors := ps[i], MirrorsOf(ps, args);
    MirrorsFaithful(ps, args);
    assert Faithful(p, args, mirrors);
    NamesWireName(p.header, k);
    CompareFaithful(p, args, mirrors, args[k]);
    forall headers | Carries(headers, mirrors) ensures !Accepted(headers, args) {
      var h := WireName(p.header);
      assert h in headers && Names(h, k) && Compare(headers[h], args[k]).Some?;
    }
  }

  ghost predicate AlwaysPasses(ps: seq<HeaderParam>, args: Object) {
    forall headers | Carries(headers, MirrorsOf(ps, args)) :: Accepted(headers, args)
  }

  ghost predicate NeverPasses(ps: seq<HeaderParam>, args: Object) {
    forall headers | Carries(headers, MirrorsOf(ps, args)) :: !Accepted(headers, args)
  }

  /** Any other tool has a call that its own server refuses: give the annotated
      parameter the value `v`, and the top-level argument the header happens to name
      another value `w`. */
  lemma OtherwiseRefused(ps: seq<HeaderParam>, i: nat, v: Json, w: Json) returns (args: Object)
    requires NamesDistinct(ps) && i < |ps| && ps[i].path != []
    requires |ps[i].path| != 1 || Lower(ps[i].path[0]) != Lower(ps[i].header)
    requires RenderArgument(v).Some? && RenderArgument(w) != RenderArgument(v)
    ensures CaseDistinct(args) && ArgumentAt(args, ps[i].path) == Some(v) && NeverPasses(ps, args)
  {
    var p := ps[i];
    var top := p.path[0];
    args := map[top := Nest(p.path[1..], v)];
    if Lower(top) != Lower(p.header) {
      args := args[p.header := w];
    }
    ArgumentOfNest(args, p.path, |p.path|, v);
    assert p.path[..|p.path|] == p.path;
    DisagreementRefused(ps, i, args, if Lower(top) != Lower(p.header) then p.header else top);
  }

  // ---- calls that give only what the tool declares ---------------------------------------------

  /** The header names no declared argument but, perhaps, the parameter itself. */
  ghost predicate IsHarmless(p: HeaderParam, declared: set<string>) {
    || (|p.path| == 1 && Lower(p.path[0]) == Lower(p.header))
    || forall k | k in declared :: Lower(k) != Lower(p.header)
  }

  lemma HarmlessPair(p: HeaderParam, args: Object, mirrors: Mirrors, k: string, declared: set<string>)
    requires Faithful(p, args, mirrors) && p.header in mirrors && CaseDistinct(args) && args.Keys <= declared
    requires IsHarmless(p, declared) && k in args && Names(WireName(p.header), k)
    ensures Compare(mirrors[p.header], args[k]).None?
  {
    NamesWireName(p.header, k);
    SelfNamedPair(p, args, mirrors, k);
  }

  lemma HarmlessPasses(ps: seq<HeaderParam>, declared: set<string>, args: Object, headers: map<string, string>)
    requires NamesDistinct(ps) && CaseDistinct(args) && args.Keys <= declared && Carries(headers, MirrorsOf(ps, args))
    requires forall i | 0 <= i < |ps| :: IsHarmless(ps[i], declared)
    ensures Accepted(headers, args)
  {
    var mirrors := MirrorsOf(ps, args);
    MirrorsFaithful(ps, args);
    forall h, k | h in headers && k in args && Names(h, k) ensures Compare(headers[h], args[k]).None? {
      assert IsWireName(h, mirrors);
      var n :| n in mirrors && h == WireName(n);
      assert HeaderAmong(ps, n);
      var i :| 0 <= i < |ps| && ps[i].header == n;
      HarmlessPair(ps[i], args, mirrors, k, declared);
    }
  }

  /** The refused call, with declared arguments only. */
  lemma HarmfulRefused(ps: seq<HeaderParam>, i: nat, declared: set<string>, v: Json, w: Json) returns (args: Object)
    requires NamesDistinct(ps) && i < |ps| && ps[i].path != [] && ps[i].path[0] in declared
    requires !IsHarmless(ps[i], declared) && RenderArgument(v).Some? && RenderArgument(w) != RenderArgument(v)
    ensures CaseDistinct(args) && args.Keys <= declared && ArgumentAt(args, ps[i].path) == Some(v) && NeverPasses(ps, args)
  {
    var p := ps[i];
    var top := p.path[0];
    var k :| k in declared && Lower(k) == Lower(p.header);
    args := map[top := Nest(p.path[1..], v)];
    if Lower(top) != Lower(p.header) {
      args := args[k := w];
    }
    ArgumentOfNest(args, p.path, |p.path|, v);
    assert p.path[..|p.path|] == p.path;
    DisagreementRefused(ps, i, args, if Lower(top) != Lower(p.header) then k else top);
  }

  /** Among calls with declared arguments only, all pass exactly when each annotation
      either is named for its own top-level parameter or names no declared one at all. */
  lemma DeclaredCallsPassExactly(ps: seq<HeaderParam>, declared: set<string>)
    requires NamesDistinct(ps) && forall i | 0 <= i < |ps| :: ps[i].path != [] && ps[i].path[0] in declared
    ensures (forall i | 0 <= i < |ps| :: IsHarmless(ps[i], declared)) <==>
            forall args | CaseDistinct(args) && args.Keys <= declared :: AlwaysPasses(ps, args)
  {
    if forall i | 0 <= i < |ps| :: IsHarmless(ps[i], declared) {
      forall args, headers | CaseDistinct(args) && args.Keys <= declared && Carries(headers, MirrorsOf(ps, args))
        ensures Accepted(headers, args)
      {
        HarmlessPasses(ps, declared, args, headers);
      }
    } else {
      var i: nat :| i < |ps| && !IsHarmless(ps[i], declared);
      var args := HarmfulRefused(ps, i, declared, Bool(true), Null);
      SentCarries(ps, args);
      assert !Accepted(Sent(ps, args), args);
    }
  }

  /** The headers sent for the mirrors of `ps`. */
  function Sent(ps: seq<HeaderParam>, args: Object): map<string, string> {
    if ps == [] then map[]
    else
      var p := ps[|ps| - 1];
      var before := Sent(ps[..|ps| - 1], args);
      if Rendered(p, args).Some? then before[WireName(p.header) := EncodeValue(Rendered(p, args).value)] else before
  }

  lemma {:induction false} SentCarries(ps: seq<HeaderParam>, args: Object)
    requires NamesDistinct(ps)
    ensures Carries(Sent(ps, args), MirrorsOf(ps, args))
  {
    if ps != [] {
      var k := |ps| - 1;
      SentCarries(ps[..k], args);
      MirrorsFaithful(ps[..k], args);
      if Rendered(ps[k], args).Some? {
        var before := MirrorsOf(ps[..k], args);
        forall n | n in before ensures WireName(n) != WireName(ps[k].header) {
          assert HeaderAmong(ps[..k], n);
          var j :| 0 <= j < k && ps[..k][j].header == n;
          assert ps[j].header == n;
          if WireName(n) == WireName(ps[k].header) { WireNameInjective(n, ps[k].header); }
        }
        CarriesOneMore(Sent(ps[..k], args), before, ps[k].header, EncodeValue(Rendered(ps[k], args).value));
      }
    }
  }

  lemma CarriesOneMore(headers: map<string, string>, mirrors: Mirrors, n: string, value: string)
    requires Carries(headers, mirrors) && forall m | m in mirrors :: WireName(m) != WireName(n)
    ensures Carries(headers[WireName(n) := value], mirrors[n := value])
  {
    var headers', mirrors' := headers[WireName(n) := value], mirrors[n := value];
    forall h | h in headers' && PARAM_PREFIX <= h ensures IsWireName(h, mirrors') {
      if h == WireName(n) {
        assert n in mirrors';
      } else {
        assert IsWireName(h, mirrors);
        var m :| m in mirrors && h == WireName(m);
        assert m in mirrors';
      }
    }
  }

  /** Two packages of one repository do not agree: the client lets a header be named
      after anything, the server expects it to be named after a top-level argument.
      Every call of a tool passes exactly when each of its annotations is. */
  lemma EveryCallPassesExactly(ps: seq<HeaderParam>)
    requires NamesDistinct(ps) && forall i | 0 <= i < |ps| :: ps[i].path != []
    ensures SelfNamed(ps) <==> forall args | CaseDistinct(args) :: AlwaysPasses(ps, args)
  {
    if SelfNamed(ps) {
      forall args | CaseDistinct(args) ensures AlwaysPasses(ps, args) {
        forall headers | Carries(headers, MirrorsOf(ps, args)) ensures Accepted(headers, args) {
          SelfNamedPasses(ps, args, headers);
        }
      }
    } else {
      var i: nat :| i < |ps| && (|ps[i].path| != 1 || Lower(ps[i].path[0]) != Lower(ps[i].header));
      var args := OtherwiseRefused(ps, i, Bool(true), Null);
      SentCarries(ps, args);
      assert !Accepted(Sent(ps, args), args);
    }
  }

  // ---- on the wire ------------------------------------------------------------------------

  /** A mirror rides in the header `Mcp-Param-` and its name, in whatever case, and until
      then in the request's metadata under the client's own key. */
  lemma WireForm(name: string, args: Object, mirrors: Mirrors, n: string)
    ensures |WireName(n)| == 10 + |n| && WireName(n)[..10] == "mcp-param-" && WireName(n)[10..] == Lower(n)
    ensures var params := CallParams(name, args, mirrors);
            && params["name"] == Str(name) && params["arguments"] == Obj(args)
            && (mirrors == map[] ==> params.Keys == {"name", "arguments"})
            && (mirrors != map[] ==>
                  && params.Keys == {"name", "arguments", "_meta"}
                  && params["_meta"] == Obj(map["io.turbomcp.internal/headerParams" := Obj(AsJson(mirrors))]))
  {
  }

  /** The server finds a header to agree with an argument exactly if it is printable ASCII
      and tabs, decodes, and decodes to the argument's rendering. */
  lemma CompareExactly(raw: string, v: Json)
    ensures Compare(raw, v).None? <==>
            && (forall i | 0 <= i < |raw| :: 32 <= raw[i] as int <= 126 || raw[i] as int == 9)
            && DecodeValue(raw).Some? && RenderArgument(v) == DecodeValue(raw)
  {
  }
}
