/** Which schemas the annotation scan refuses although, read as JSON Schema, they break
    no rule: it takes every object it comes to for a schema, where some are maps from
    names to schemas and some are plain data. */
module HeaderKeywords {
  import opened Wrappers
  import opened Json
  import opened HeaderScan

  /** Keywords whose members are names and not keywords. */
  const NAME_MAPS: set<string> :=
    {"properties", "patternProperties", "$defs", "definitions", "dependentSchemas", "dependentRequired", "dependencies"}

  /** Keywords whose values are data. */
  const DATA: set<string> := {"default", "const", "enum", "examples"}

  // ---- annotations, keyword by keyword --------------------------------------------------

  /** No schema inside `v` is annotated. */
  ghost predicate SchemaClean(v: Json)
    decreases v, 0
  {
    match v
    case Arr(items) => forall i | 0 <= i < |items| :: SchemaClean(items[i])
    case Obj(m) => ANNOTATION !in m && forall k | k in m :: MemberClean(k, m[k])
    case _ => true
  }

  ghost predicate MemberClean(key: string, v: Json)
    decreases v, 1
  {
    if key in DATA then true
    else if key in NAME_MAPS && v.Obj? then forall name | name in v.fields :: SchemaClean(v.fields[name])
    else SchemaClean(v)
  }

  /** Somewhere inside `v` a name, or a member of a datum, is `x-mcp-header`. */
  ghost predicate Stray(v: Json)
    decreases v, 0
  {
    match v
    case Arr(items) => exists i | 0 <= i < |items| :: Stray(items[i])
    case Obj(m) => exists k | k in m :: StrayMember(k, m[k])
    case _ => false
  }

  ghost predicate StrayMember(key: string, v: Json)
    decreases v, 1
  {
    if key in DATA then !Clean(v)
    else if key in NAME_MAPS && v.Obj? then
      ANNOTATION in v.fields || exists name | name in v.fields :: Stray(v.fields[name])
    else Stray(v)
  }

  /** What the scan asks for is that and no stray. */
  lemma {:induction false} CleanExactly(v: Json)
    ensures Clean(v) <==> SchemaClean(v) && !Stray(v)
    decreases v, 0
  {
    match v
    case Arr(items) =>
      forall i | 0 <= i < |items| ensures Clean(items[i]) <==> SchemaClean(items[i]) && !Stray(items[i]) {
        CleanExactly(items[i]);
      }
    case Obj(m) =>
      forall k | k in m ensures Clean(m[k]) <==> MemberClean(k, m[k]) && !StrayMember(k, m[k]) {
        MemberExactly(k, m[k]);
      }
    case _ =>
  }

  lemma {:induction false} MemberExactly(key: string, v: Json)
    ensures Clean(v) <==> MemberClean(key, v) && !StrayMember(key, v)
    decreases v, 1
  {
    if key in DATA {
    } else if key in NAME_MAPS && v.Obj? {
      forall name | name in v.fields
        ensures Clean(v.fields[name]) <==> SchemaClean(v.fields[name]) && !Stray(v.fields[name])
      {
        CleanExactly(v.fields[name]);
      }
    } else {
      CleanExactly(v);
    }
  }

  // ---- the same beside the property chains ------------------------------------------------

  ghost predicate SideSchemaClean(v: Json) {
    match v
    case Arr(items) => forall i | 0 <= i < |items| :: SchemaClean(items[i])
    case Obj(m) => forall k | k in m && k != "properties" && k != ANNOTATION :: MemberClean(k, m[k])
    case _ => true
  }

  ghost predicate SideStray(v: Json) {
    match v
    case Arr(items) => exists i | 0 <= i < |items| :: Stray(items[i])
    case Obj(m) => exists k | k in m && k != "properties" && k != ANNOTATION :: StrayMember(k, m[k])
    case _ => false
  }

  lemma SideExactly(v: Json)
    ensures SideClean(v) <==> SideSchemaClean(v) && !SideStray(v)
  {
    match v
    case Arr(items) =>
      forall i | 0 <= i < |items| ensures Clean(items[i]) <==> SchemaClean(items[i]) && !Stray(items[i]) {
        CleanExactly(items[i]);
      }
    case Obj(m) =>
      forall k | k in m ensures Clean(m[k]) <==> MemberClean(k, m[k]) && !StrayMember(k, m[k]) {
        MemberExactly(k, m[k]);
      }
    case _ =>
  }

  /** The rules, read keyword by keyword. */
  ghost predicate TrulyBreaks(v: Json, path: seq<string>, fault: Fault) {
    if fault.Unreachable? then (Annotated(v) && path == []) || !SideSchemaClean(v) else Breaks(v, path, fault)
  }

  ghost predicate TrulyAccepts(v: Json, prefix: seq<string>) {
    forall rest, fault | NodeAt(v, rest).Some? :: !TrulyBreaks(NodeAt(v, rest).value, prefix + rest, fault)
  }

  /** A stray beside a property chain. */
  ghost predicate HasStray(v: Json) {
    exists rest :: NodeAt(v, rest).Some? && SideStray(NodeAt(v, rest).value)
  }

  lemma AcceptsExactly(v: Json, prefix: seq<string>)
    ensures Accepts(v, prefix) <==> TrulyAccepts(v, prefix) && !HasStray(v)
  {
    forall rest | NodeAt(v, rest).Some?
      ensures SideClean(NodeAt(v, rest).value) <==>
              SideSchemaClean(NodeAt(v, rest).value) && !SideStray(NodeAt(v, rest).value)
    {
      SideExactly(NodeAt(v, rest).value);
    }
    if Accepts(v, prefix) {
      forall rest, fault | NodeAt(v, rest).Some? ensures !TrulyBreaks(NodeAt(v, rest).value, prefix + rest, fault) {
        assert !Breaks(NodeAt(v, rest).value, prefix + rest, fault);
      }
      forall rest | NodeAt(v, rest).Some? ensures !SideStray(NodeAt(v, rest).value) {
        assert !Breaks(NodeAt(v, rest).value, prefix + rest, Unreachable);
      }
    }
    if TrulyAccepts(v, prefix) && !HasStray(v) {
      forall rest, fault | NodeAt(v, rest).Some? ensures !Breaks(NodeAt(v, rest).value, prefix + rest, fault) {
        assert !TrulyBreaks(NodeAt(v, rest).value, prefix + rest, fault);
      }
    }
  }

  /** The scan never accepts a schema that breaks a rule, and refuses one that breaks
      none exactly when a name or a member of a datum in it is `x-mcp-header`. */
  lemma WronglyRefusedExactly(schema: Json)
    ensures Accepts(schema, []) ==> TrulyAccepts(schema, [])
    ensures TrulyAccepts(schema, []) && !Accepts(schema, []) <==> TrulyAccepts(schema, []) && HasStray(schema)
  {
    AcceptsExactly(schema, []);
  }

  /** A property called `x-mcp-header`, declared inside an array's items, is enough. */
  lemma NestedPropertyNameIsRefused(declared: Json)
    ensures var items := Obj(map["properties" := Obj(map[ANNOTATION := declared])]);
            var schema := Obj(map["items" := items]);
            !Accepts(schema, []) && (SchemaClean(declared) ==> TrulyAccepts(schema, []))
  {
    var names := Obj(map[ANNOTATION := declared]);
    var items := Obj(map["properties" := names]);
    var schema := Obj(map["items" := items]);
    assert "properties" in items.fields && items.fields["properties"] == names;
    assert StrayMember("properties", names) && Stray(items);
    assert SchemaClean(declared) ==> MemberClean("properties", names) && SchemaClean(items);
    assert "items" in schema.fields && schema.fields["items"] == items;
    assert StrayMember("items", items) && SideStray(schema) && (SchemaClean(declared) ==> SideSchemaClean(schema));
    assert NodeAt(schema, []) == Some(schema);
    AcceptsExactly(schema, []);
    forall rest, fault | SchemaClean(declared) && NodeAt(schema, rest).Some?
      ensures !TrulyBreaks(NodeAt(schema, rest).value, [] + rest, fault) {
      assert rest == [];
    }
  }
}
