/** How the client reads the `x-mcp-header` annotations of a tool's input schema:
    which parameters are mirrored into headers, and which schemas are refused. */
module HeaderScan {
  import opened Wrappers
  import opened Json
  import opened HeaderCodec

  const ANNOTATION: string := "x-mcp-header"

  /** The name portion of an `Mcp-Param-*` header and the `properties` path of the
      argument it mirrors. */
  datatype HeaderParam = HeaderParam(header: string, path: seq<string>)

  datatype Fault = Unreachable | BadAnnotation | BadName | NotPrimitive

  datatype ScanError = AtPath(fault: Fault, path: seq<string>) | Duplicate(header: string)

  // ---- what the transports specification asks ------------------------------------------

  predicate Annotated(v: Json) { v.Obj? && ANNOTATION in v.fields }

  /** The properties a schema node declares. */
  function Props(v: Json): Object {
    if v.Obj? && "properties" in v.fields && v.fields["properties"].Obj? then v.fields["properties"].fields else map[]
  }

  /** The node at the end of a chain of `properties` steps. */
  function NodeAt(v: Json, path: seq<string>): Option<Json>
    decreases |path|
  {
    if path == [] then Some(v)
    else if path[0] in Props(v) then NodeAt(Props(v)[path[0]], path[1..])
    else None
  }

  /** No annotation on any object inside `v`. */
  ghost predicate Clean(v: Json) {
    match v
    case Arr(items) => forall i | 0 <= i < |items| :: Clean(items[i])
    case Obj(m) => ANNOTATION !in m && forall k | k in m :: Clean(m[k])
    case _ => true
  }

  /** No annotation beside the property chains that lead on from `v`. */
  ghost predicate SideClean(v: Json) {
    match v
    case Arr(items) => forall i | 0 <= i < |items| :: Clean(items[i])
    case Obj(m) => forall k | k in m && k != "properties" && k != ANNOTATION :: Clean(m[k])
    case _ => true
  }

  /** The header an annotation asks for: its text, or, in the obsolete boolean
      form, the property's own name. */
  function HeaderOf(v: Json, path: seq<string>): Option<string>
    requires Annotated(v) && path != []
  {
    match v.fields[ANNOTATION]
    case Str(s) => Some(s)
    case Bool(b) => if b then Some(path[|path| - 1]) else None
    case _ => None
  }

  predicate IsPrimitive(v: Json) {
    AsStr(Get(v, "type")) in {Some("string"), Some("integer"), Some("boolean")}
  }

  /** A node reached by `properties` breaks a rule. */
  ghost predicate Breaks(v: Json, path: seq<string>, fault: Fault) {
    match fault
    case Unreachable => (Annotated(v) && path == []) || !SideClean(v)
    case BadAnnotation => Annotated(v) && path != [] && HeaderOf(v, path).None?
    case BadName => Annotated(v) && path != [] && HeaderOf(v, path).Some? && !IsValidHeaderName(HeaderOf(v, path).value)
    case NotPrimitive => Annotated(v) && path != [] && !IsPrimitive(v)
  }

  /** Every node below `v`, itself reached by `prefix`, keeps the rules. */
  ghost predicate Accepts(v: Json, prefix: seq<string>) {
    forall rest, fault | NodeAt(v, rest).Some? :: !Breaks(NodeAt(v, rest).value, prefix + rest, fault)
  }

  /** `p` is an annotated node at or below `v`, which `prefix` reaches. */
  ghost predicate IsParam(v: Json, prefix: seq<string>, p: HeaderParam) {
    && prefix <= p.path
    && p.path != []
    && var node := NodeAt(v, p.path[|prefix|..]);
       node.Some? && Annotated(node.value) && HeaderOf(node.value, p.path) == Some(p.header)
  }

  /** The error names a real violation below `v`. */
  ghost predicate Explains(v: Json, prefix: seq<string>, e: ScanError) {
    && e.AtPath?
    && prefix <= e.path
    && var node := NodeAt(v, e.path[|prefix|..]);
       node.Some? && Breaks(node.value, e.path, e.fault)
  }

  lemma ExplainedIsRefused(v: Json, prefix: seq<string>, e: ScanError)
    requires Explains(v, prefix, e)
    ensures !Accepts(v, prefix)
  {
    assert prefix + e.path[|prefix|..] == e.path;
  }

  // ---- one property chain at a time -------------------------------------------------------

  /** The same, for the properties named in `done`. */
  ghost predicate IsParamUnder(props: Object, done: set<string>, prefix: seq<string>, p: HeaderParam) {
    && prefix < p.path
    && p.path[|prefix|] in done * props.Keys
    && IsParam(props[p.path[|prefix|]], prefix + [p.path[|prefix|]], p)
  }

  ghost predicate AcceptsUnder(props: Object, done: set<string>, prefix: seq<string>) {
    forall k | k in props && k in done :: Accepts(props[k], prefix + [k])
  }

  lemma StepDown(v: Json, prefix: seq<string>, path: seq<string>)
    requires prefix < path
    ensures var k := path[|prefix|];
            NodeAt(v, path[|prefix|..]) == if k in Props(v) then NodeAt(Props(v)[k], path[|prefix + [k]|..]) else None
  {
    assert path[|prefix|..][1..] == path[|prefix| + 1..];
  }

  lemma ParamSplit(v: Json, prefix: seq<string>, p: HeaderParam)
    ensures IsParam(v, prefix, p) <==>
            || (p.path == prefix && prefix != [] && Annotated(v) && HeaderOf(v, prefix) == Some(p.header))
            || IsParamUnder(Props(v), Props(v).Keys, prefix, p)
  {
    if prefix < p.path {
      StepDown(v, prefix, p.path);
    } else if p.path == prefix {
      assert p.path[|prefix|..] == [];
    }
  }

  lemma AcceptsSplit(v: Json, prefix: seq<string>)
    requires forall fault :: !Breaks(v, prefix, fault)
    requires AcceptsUnder(Props(v), Props(v).Keys, prefix)
    ensures Accepts(v, prefix)
  {
    forall rest, fault | NodeAt(v, rest).Some? ensures !Breaks(NodeAt(v, rest).value, prefix + rest, fault) {
      if rest == [] {
        assert prefix + rest == prefix;
      } else {
        assert prefix + rest == (prefix + [rest[0]]) + rest[1..];
      }
    }
  }

  lemma ExplainsBelow(v: Json, prefix: seq<string>, k: string, e: ScanError)
    requires k in Props(v) && Explains(Props(v)[k], prefix + [k], e)
    ensures Explains(v, prefix, e)
  {
    assert e.path[|prefix|] == (prefix + [k])[|prefix|];
    StepDown(v, prefix, e.path);
  }

  // ---- the scan ------------------------------------------------------------------------------

  /** What a scan adds to the list: each annotated node once. */
  ghost predicate Lists(added: seq<HeaderParam>, v: Json, prefix: seq<string>) {
    && (forall p :: p in added <==> IsParam(v, prefix, p))
    && PathsDistinct(added)
  }

  ghost predicate PathsDistinct(ps: seq<HeaderParam>) {
    forall i, j | 0 <= i < j < |ps| :: ps[i].path != ps[j].path
  }

  ghost predicate ListsUnder(added: seq<HeaderParam>, props: Object, done: set<string>, prefix: seq<string>) {
    && (forall p :: p in added <==> IsParamUnder(props, done, prefix, p))
    && PathsDistinct(added)
  }

  lemma ListOneMore(added: seq<HeaderParam>, more: seq<HeaderParam>, props: Object, done: set<string>, k: string,
                    prefix: seq<string>)
    requires ListsUnder(added, props, done, prefix) && k in props && k !in done
    requires Lists(more, props[k], prefix + [k])
    ensures ListsUnder(added + more, props, done + {k}, prefix)
  {
    var all := added + more;
    forall p | p in more ensures prefix < p.path && p.path[|prefix|] == k {
      assert p.path[|prefix|] == (prefix + [k])[|prefix|];
    }
    forall p ensures p in all <==> IsParamUnder(props, done + {k}, prefix, p) {
      assert p in all <==> p in added || p in more;
    }
    forall i, j | 0 <= i < j < |all| ensures all[i].path != all[j].path {
      if i < |added| && |added| <= j {
        assert all[i] in added && all[j] in more;
        assert IsParamUnder(props, done, prefix, all[i]);
      }
    }
  }

  lemma ListWithOwn(own: seq<HeaderParam>, under: seq<HeaderParam>, v: Json, prefix: seq<string>)
    requires ListsUnder(under, Props(v), Props(v).Keys, prefix)
    requires Annotated(v) ==> prefix != [] && HeaderOf(v, prefix).Some?
    requires own == if Annotated(v) then [HeaderParam(HeaderOf(v, prefix).value, prefix)] else []
    ensures Lists(own + under, v, prefix)
  {
    forall p ensures p in own + under <==> IsParam(v, prefix, p) {
      ParamSplit(v, prefix, p);
      assert p in own + under <==> p in own || p in under;
    }
    forall i, j | 0 <= i < j < |own + under| ensures (own + under)[i].path != (own + under)[j].path {
      if i < |own| {
        assert (own + under)[j] == under[j - |own|] && under[j - |own|] in under;
      }
    }
  }

  /** The shared state of the recursive walk: the path to the current node and the
      parameters found so far. */
  class Scanner {
    var path: seq<string>
    var found: seq<HeaderParam>

    constructor ()
      ensures path == [] && found == []
    {
      path, found := [], [];
    }

    /** Below a node that no property chain reaches. */
    method ScanUnreachable(v: Json) returns (r: Result<(), ScanError>)
      modifies this
      ensures path == old(path) && found == old(found)
      ensures r == if Clean(v) then Ok(()) else Err(AtPath(Unreachable, path))
      decreases v, 0
    {
      if v.Arr? {
        for i := 0 to |v.items|
          invariant path == old(path) && found == old(found)
          invariant forall j | 0 <= j < i :: Clean(v.items[j])
        {
          r := ScanUnreachable(v.items[i]);
          if r.Err? { return; }
        }
      } else if v.Obj? {
        if ANNOTATION in v.fields { return Err(AtPath(Unreachable, path)); }
        var keys := v.fields.Keys;
        while keys != {}
          invariant path == old(path) && found == old(found)
          invariant keys <= v.fields.Keys
          invariant forall k | k in v.fields && k !in keys :: Clean(v.fields[k])
          decreases keys
        {
          var k :| k in keys;
          r := ScanUnreachable(v.fields[k]);
          if r.Err? { return; }
          keys := keys - {k};
        }
      }
      r := Ok(());
    }

    /** The annotation of a reachable node. */
    method Annotation(v: Json) returns (r: Result<(), ScanError>)
      requires Annotated(v)
      modifies this`found
      ensures r.Ok? ==>
                && path != [] && HeaderOf(v, path).Some?
                && (forall fault | fault != Unreachable :: !Breaks(v, path, fault))
                && found == old(found) + [HeaderParam(HeaderOf(v, path).value, path)]
      ensures r.Err? ==> r.error.AtPath? && r.error.path == path && Breaks(v, path, r.error.fault)
    {
      if path == [] { return Err(AtPath(Unreachable, path)); }
      var header := HeaderOf(v, path);
      if header.None? { return Err(AtPath(BadAnnotation, path)); }
      if !IsValidHeaderName(header.value) { return Err(AtPath(BadName, path)); }
      if !IsPrimitive(v) { return Err(AtPath(NotPrimitive, path)); }
      found := found + [HeaderParam(header.value, path)];
      r := Ok(());
    }

    /** Every member of a reachable object that is neither its properties nor its
        annotation, or every item of a reachable array. */
    method ScanSides(v: Json) returns (r: Result<(), ScanError>)
      modifies this
      ensures path == old(path) && found == old(found)
      ensures r == if SideClean(v) then Ok(()) else Err(AtPath(Unreachable, path))
    {
      if v.Arr? {
        for i := 0 to |v.items|
          invariant path == old(path) && found == old(found)
          invariant forall j | 0 <= j < i :: Clean(v.items[j])
        {
          r := ScanUnreachable(v.items[i]);
          if r.Err? { return; }
        }
      } else if v.Obj? {
        var keys := v.fields.Keys - {"properties", ANNOTATION};
        while keys != {}
          invariant path == old(path) && found == old(found)
          invariant keys <= v.fields.Keys - {"properties", ANNOTATION}
          invariant forall k | k in v.fields && k != "properties" && k != ANNOTATION && k !in keys :: Clean(v.fields[k])
          decreases keys
        {
          var k :| k in keys;
          r := ScanUnreachable(v.fields[k]);
          if r.Err? { return; }
          keys := keys - {k};
        }
      }
      r := Ok(());
    }

    /** A node reached by the property chain in `path`. */
    method Scan(v: Json) returns (r: Result<(), ScanError>, ghost added: seq<HeaderParam>)
      modifies this
      ensures r.Ok? ==> path == old(path) && Accepts(v, path)
      ensures r.Ok? ==> found == old(found) + added && Lists(added, v, path)
      ensures r.Err? ==> Explains(v, old(path), r.error)
      decreases v, 1
    {
      assert path[|path|..] == [];
      added := [];
      if Annotated(v) {
        r := Annotation(v);
        if r.Err? { return; }
      }
      ghost var own := found[|old(found)|..];
      r := ScanSides(v);
      if r.Err? { return; }
      assert forall fault :: !Breaks(v, path, fault);
      ghost var under;
      r, under := ScanProps(v);
      if r.Err? { return; }
      AcceptsSplit(v, path);
      ListWithOwn(own, under, v, path);
      added := own + under;
    }

    /** The properties of a reachable node, one pushed onto the path at a time. */
    method ScanProps(v: Json) returns (r: Result<(), ScanError>, ghost added: seq<HeaderParam>)
      modifies this
      ensures r.Ok? ==> path == old(path) && AcceptsUnder(Props(v), Props(v).Keys, path)
      ensures r.Ok? ==> found == old(found) + added && ListsUnder(added, Props(v), Props(v).Keys, path)
      ensures r.Err? ==> Explains(v, old(path), r.error)
      decreases v, 0
    {
      var props := Props(v);
      var keys := props.Keys;
      added := [];
      while keys != {}
        invariant keys <= props.Keys
        invariant path == old(path) && found == old(found) + added
        invariant AcceptsUnder(props, props.Keys - keys, path)
        invariant ListsUnder(added, props, props.Keys - keys, path)
        decreases keys
      {
        var k :| k in keys;
        path := path + [k];
        ghost var more;
        r, more := Scan(props[k]);
        if r.Err? {
          ExplainsBelow(v, old(path), k, r.error);
          return;
        }
        path := path[..|path| - 1];
        ListOneMore(added, more, props, props.Keys - keys, k, path);
        added := added + more;
        assert props.Keys - keys + {k} == props.Keys - (keys - {k});
        keys := keys - {k};
      }
      r := Ok(());
    }
  }

  // ---- the whole schema ------------------------------------------------------------------------

  function LowerChar(c: char): char { if 'A' <= c <= 'Z' then c + 32 as char else c }

  /** `to_ascii_lowercase`. */
  function Lower(s: string): (t: string)
    ensures |t| == |s|
  {
    if s == "" then "" else [LowerChar(s[0])] + Lower(s[1..])
  }

  ghost predicate NamesDistinct(ps: seq<HeaderParam>) {
    forall i, j | 0 <= i < j < |ps| :: Lower(ps[i].header) != Lower(ps[j].header)
  }

  /** No two annotated parameters share a header name, ignoring ASCII case. */
  ghost predicate NamesUnique(schema: Json) {
    forall p, q | IsParam(schema, [], p) && IsParam(schema, [], q) && Lower(p.header) == Lower(q.header) :: p == q
  }

  /** Two parameters ask for `header`, ignoring ASCII case. */
  ghost predicate Shared(schema: Json, header: string) {
    exists p, q :: IsParam(schema, [], p) && IsParam(schema, [], q) && p != q
                   && Lower(p.header) == Lower(q.header) && q.header == header
  }

  lemma NamesAgree(found: seq<HeaderParam>, schema: Json)
    requires Lists(found, schema, [])
    ensures NamesDistinct(found) <==> NamesUnique(schema)
  {
    if NamesUnique(schema) {
      forall i, j | 0 <= i < j < |found| ensures Lower(found[i].header) != Lower(found[j].header) {
        assert found[i] in found && found[j] in found;
      }
    }
    if NamesDistinct(found) {
      forall p, q | IsParam(schema, [], p) && IsParam(schema, [], q) && Lower(p.header) == Lower(q.header) ensures p == q {
        assert p in found && q in found;
      }
    }
  }

  /** The index of a header name already seen, ignoring case. */
  method FindDuplicate(found: seq<HeaderParam>) returns (at: Option<nat>)
    ensures at.None? <==> NamesDistinct(found)
    ensures at.Some? ==> at.value < |found| &&
                         exists j | 0 <= j < at.value :: Lower(found[j].header) == Lower(found[at.value].header)
  {
    var seen: set<string> := {};
    for i := 0 to |found|
      invariant forall j | 0 <= j < i :: Lower(found[j].header) in seen
      invariant forall n | n in seen :: exists j | 0 <= j < i :: Lower(found[j].header) == n
      invariant forall j, k | 0 <= j < k < i :: Lower(found[j].header) != Lower(found[k].header)
    {
      if Lower(found[i].header) in seen { return Some(i); }
      seen := seen + {Lower(found[i].header)};
    }
    at := None;
  }

  lemma FromTheRoot(found: seq<HeaderParam>, added: seq<HeaderParam>, schema: Json, path: seq<string>)
    requires path == [] && found == [] + added && Accepts(schema, path) && Lists(added, schema, path)
    ensures Accepts(schema, []) && Lists(found, schema, [])
  {
    assert found == added;
  }

  lemma DuplicateShared(found: seq<HeaderParam>, schema: Json, i: nat)
    requires Lists(found, schema, []) && i < |found|
    requires exists j | 0 <= j < i :: Lower(found[j].header) == Lower(found[i].header)
    ensures Shared(schema, found[i].header)
  {
    var j :| 0 <= j < i && Lower(found[j].header) == Lower(found[i].header);
    SharedFound(found, schema, j, i);
  }

  lemma SharedFound(found: seq<HeaderParam>, schema: Json, j: nat, i: nat)
    requires Lists(found, schema, []) && j < i < |found| && Lower(found[j].header) == Lower(found[i].header)
    ensures Shared(schema, found[i].header)
  {
    assert found[i] in found && found[j] in found;
  }

  /** The scan is exact. It succeeds precisely on the schemas that keep every rule,
      and then lists each annotated parameter once, with its true path. */
  method HeaderParamsFromSchema(schema: Json) returns (r: Result<seq<HeaderParam>, ScanError>)
    ensures r.Ok? <==> Accepts(schema, []) && NamesUnique(schema)
    ensures r.Ok? ==> Lists(r.value, schema, []) && NamesDistinct(r.value)
    ensures r.Err? && r.error.AtPath? ==> Explains(schema, [], r.error)
    ensures r.Err? && r.error.Duplicate? ==> Shared(schema, r.error.header)
  {
    var scanner := new Scanner();
    ghost var added;
    var scanned;
    scanned, added := scanner.Scan(schema);
    if scanned.Err? {
      ExplainedIsRefused(schema, [], scanned.error);
      return Err(scanned.error);
    }
    var found := scanner.found;
    FromTheRoot(found, added, schema, scanner.path);
    NamesAgree(found, schema);
    var at := FindDuplicate(found);
    if at.Some? {
      DuplicateShared(found, schema, at.value);
      return Err(Duplicate(found[at.value].header));
    }
    r := Ok(found);
  }

  // ---- in the specification's own words ---------------------------------------------------

  /** Two names are the same header exactly if they differ at most in the case of ASCII letters. */
  lemma {:induction false} SameHeaderExactly(a: string, b: string)
    ensures Lower(a) == Lower(b) <==> |a| == |b| && forall i | 0 <= i < |a| :: SameButCase(a[i], b[i])
  {
    if a != "" && b != "" {
      SameCharExactly(a[0], b[0]);
      SameHeaderExactly(a[1..], b[1..]);
      assert Lower(a) == [LowerChar(a[0])] + Lower(a[1..]) && Lower(b) == [LowerChar(b[0])] + Lower(b[1..]);
      FirstAndRest(Lower(a), Lower(b));
      AllSplit(a, b);
    }
  }

  lemma SameCharExactly(c: char, d: char)
    ensures LowerChar(c) == LowerChar(d) <==> SameButCase(c, d)
  {
  }

  lemma FirstAndRest(s: string, t: string)
    requires s != "" && t != ""
    ensures s == t <==> s[0] == t[0] && s[1..] == t[1..]
  {
    assert s == [s[0]] + s[1..] && t == [t[0]] + t[1..];
  }

  lemma AllSplit(a: string, b: string)
    requires a != "" && b != ""
    ensures (|a| == |b| && forall i | 0 <= i < |a| :: SameButCase(a[i], b[i])) <==>
            SameButCase(a[0], b[0]) &&
            (|a[1..]| == |b[1..]| && forall i | 0 <= i < |a[1..]| :: SameButCase(a[1..][i], b[1..][i]))
  {
    if |a| == |b| && SameButCase(a[0], b[0]) && forall i | 0 <= i < |a[1..]| :: SameButCase(a[1..][i], b[1..][i]) {
      forall i | 0 <= i < |a| ensures SameButCase(a[i], b[i]) {
        if i > 0 { assert SameButCase(a[1..][i - 1], b[1..][i - 1]); }
      }
    }
  }

  predicate SameButCase(c: char, d: char) {
    || c == d
    || (65 <= c as int <= 90 && d as int == c as int + 32)
    || (65 <= d as int <= 90 && c as int == d as int + 32)
  }

  /** A tool with one annotated parameter, spelled out: it is accepted exactly if the
      parameter is a string, an integer or a boolean and the annotation is a header name,
      or `true` and the parameter's name is one; and that is the header it asks for. */
  lemma OneParameterExactly(name: string, type_: Json, annotation: Json)
    ensures var schema := Obj(map["properties" := Obj(map[name := Obj(map["type" := type_, "x-mcp-header" := annotation])])]);
            && (Accepts(schema, []) <==>
                && type_ in {Str("string"), Str("integer"), Str("boolean")}
                && match annotation
                   case Str(h) => IsValidHeaderName(h)
                   case Bool(b) => b && IsValidHeaderName(name)
                   case _ => false)
            && forall h :: IsParam(schema, [], HeaderParam(h, [name])) <==>
                 annotation == Str(h) || (annotation == Bool(true) && h == name)
  {
    var node := Obj(map["type" := type_, "x-mcp-header" := annotation]);
    var schema := Obj(map["properties" := Obj(map[name := node])]);
    OneParameterNodes(schema, name, node);
    var root: seq<string> := [];
    assert [name][|root|..] == [name] && root + [name] == [name];
    assert Annotated(node) && node.fields["x-mcp-header"] == annotation && Get(node, "type") == Some(type_);
    LeafRules(node, name, type_, annotation);
    if Accepts(schema, []) {
      forall fault ensures !Breaks(node, [name], fault) {
        assert !Breaks(NodeAt(schema, [name]).value, root + [name], fault);
      }
    } else {
      var rest, fault :| NodeAt(schema, rest).Some? && Breaks(NodeAt(schema, rest).value, root + rest, fault);
      assert root + rest == rest;
      RootRules(schema, fault);
    }
  }

  lemma OneParameterNodes(schema: Json, name: string, node: Json)
    requires schema == Obj(map["properties" := Obj(map[name := node])]) && Props(node) == map[]
    ensures NodeAt(schema, [name]) == Some(node)
    ensures forall rest | NodeAt(schema, rest).Some? :: rest == [] || rest == [name]
  {
    assert Props(schema) == map[name := node] && [name][1..] == [];
    forall rest | NodeAt(schema, rest).Some? ensures rest == [] || rest == [name] {
      if rest != [] {
        assert rest[0] in Props(schema) && NodeAt(node, rest[1..]).Some?;
        assert rest[1..] == [];
        assert rest == [rest[0]];
      }
    }
  }

  lemma LeafRules(node: Json, name: string, type_: Json, annotation: Json)
    requires node == Obj(map["type" := type_, "x-mcp-header" := annotation])
    ensures (forall fault :: !Breaks(node, [name], fault)) <==>
            && type_ in {Str("string"), Str("integer"), Str("boolean")}
            && match annotation
               case Str(h) => IsValidHeaderName(h)
               case Bool(b) => b && IsValidHeaderName(name)
               case _ => false
  {
    assert Get(node, "type") == Some(type_);
    assert IsPrimitive(node) <==> type_ in {Str("string"), Str("integer"), Str("boolean")};
    if (forall fault :: !Breaks(node, [name], fault)) {
      assert !Breaks(node, [name], Unreachable) && !Breaks(node, [name], BadAnnotation);
      assert !Breaks(node, [name], BadName) && !Breaks(node, [name], NotPrimitive);
    }
    if type_ in {Str("string"), Str("integer"), Str("boolean")} {
      forall k | k in node.fields && k != "properties" && k != ANNOTATION ensures Clean(node.fields[k]) {
        assert k == "type";
      }
    }
  }

  lemma RootRules(schema: Json, fault: Fault)
    requires schema.Obj? && schema.fields.Keys == {"properties"}
    ensures !Breaks(schema, [], fault)
  {
  }
}
