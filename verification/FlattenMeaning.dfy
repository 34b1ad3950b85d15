/** What flattening means: exactly when an instance is valid against a flattened node
    if and only if it is valid against everything the node intersects, as `allOf` and
    `$ref` demand (JSON Schema Core 2020-12, sections 10.2.1.1 and 8.2.3.1). */
module FlattenMeaning {
  import opened Wrappers
  import opened Json
  import opened FlattenAllOf
  import opened PlainSchemas

  // ---- references, as the standard reads them ---------------------------------------------

  /** A name that a JSON pointer and a URI fragment spell as it is. */
  predicate IsPlainName(name: string) { '/' !in name && '~' !in name && '%' !in name }

  predicate PointsInto(container: string, reference: string) {
    var prefix := "#/" + container + "/";
    prefix <= reference && IsPlainName(reference[|prefix|..])
  }

  function NameIn(container: string, reference: string): string
    requires PointsInto(container, reference)
  {
    reference[|"#/" + container + "/"|..]
  }

  function EntryOf(root: Json, container: string, name: string): Option<Json> {
    match Get(root, container)
    case None => None
    case Some(entries) => Get(entries, name)
  }

  /** The definition a local reference names. */
  function Target(root: Json, reference: string): Option<Json> {
    if PointsInto("$defs", reference) then EntryOf(root, "$defs", NameIn("$defs", reference))
    else if PointsInto("definitions", reference) then EntryOf(root, "definitions", NameIn("definitions", reference))
    else None
  }

  /** The container the rewrite resolves against. */
  function Container(root: Json): string { if Get(root, "$defs").Some? then "$defs" else "definitions" }

  /** A reference that names a definition in that container. */
  predicate IsLocal(root: Json, reference: string) {
    PointsInto(Container(root), reference) && Target(root, reference).Some?
  }

  lemma {:induction false} RefNameOf(prefix: string, name: string)
    requires prefix != "" && prefix[|prefix| - 1] == '/' && '/' !in name
    ensures RefName(prefix + name) == name
    decreases |name|
  {
    if name == "" {
      assert prefix + name == prefix;
    } else {
      var n := |name| - 1;
      assert (prefix + name)[..|prefix + name| - 1] == prefix + name[..n];
      assert name[n] in name;
      RefNameOf(prefix, name[..n]);
      assert name == name[..n] + [name[n]];
    }
  }

  /** On such references the rewrite's own resolution, by what follows the last slash,
      is the standard's. */
  lemma ResolveAgrees(root: Json, reference: string)
    requires IsLocal(root, reference)
    ensures Resolve(Definitions(root), reference) == Target(root, reference)
    ensures RefName(reference) == NameIn(Container(root), reference)
  {
    var container := Container(root);
    var prefix := "#/" + container + "/";
    assert reference == prefix + reference[|prefix|..];
    RefNameOf(prefix, reference[|prefix|..]);
    if container == "definitions" {
      assert Get(root, "$defs").None?;
    }
  }

  // ---- the schemas considered ----------------------------------------------------------------

  const IGNORED_KEYS: set<string> := METADATA_KEYS + {"$defs", "definitions", "$schema", "$comment"}

  /** A node of plain keywords, intersections and references. */
  ghost predicate InGrammar(m: Object) {
    && m.Keys <= {"type", "required", "properties", "additionalProperties", "allOf", "$ref"} + IGNORED_KEYS
    && Shaped(m)
    && ("allOf" in m ==> m["allOf"].Arr?)
    && ("$ref" in m ==> m["$ref"].Str?)
  }

  ghost predicate IsStructural(v: Json) { v.Obj? && InGrammar(v.fields) }

  ghost predicate RefOk(root: Json, m: Object) {
    "$ref" in m ==> m["$ref"].Str? && IsLocal(root, m["$ref"].s) && IsStructural(Target(root, m["$ref"].s).value)
  }

  /** A schema of the fragment, all the way down. Schemas with other keywords are
      atoms: they mean anything, and contain no intersection. */
  ghost predicate IsSchema(root: Json, v: Json)
    decreases v, 0
  {
    if IsStructural(v) then
      && ("properties" in v.fields ==>
            forall p | p in v.fields["properties"].fields :: IsSchema(root, v.fields["properties"].fields[p]))
      && ("allOf" in v.fields ==>
            forall i | 0 <= i < |v.fields["allOf"].items| :: IsMember(root, v.fields["allOf"].items[i]))
    else !v.Arr? && IntersectionFree(v)
  }

  ghost predicate IsMember(root: Json, v: Json)
    decreases v, 1
  {
    IsStructural(v) && RefOk(root, v.fields) && IsSchema(root, v)
  }

  /** A document whose definitions are such schemas. */
  ghost predicate IsDocument(root: Json) {
    Definitions(root).Obj? ==>
      forall name | name in Definitions(root).fields ::
        IsDefinition(root, Definitions(root).fields[name])
  }

  ghost predicate IsDefinition(root: Json, v: Json) {
    IsSchema(root, v) && (IsStructural(v) ==> RefOk(root, v.fields))
  }

  lemma TargetIsMember(root: Json, m: Object)
    requires IsDocument(root) && RefOk(root, m) && "$ref" in m
    ensures IsMember(root, Target(root, m["$ref"].s).value)
    ensures Resolve(Definitions(root), m["$ref"].s) == Target(root, m["$ref"].s)
  {
    ResolveAgrees(root, m["$ref"].s);
    var name := RefName(m["$ref"].s);
    assert IsDefinition(root, Definitions(root).fields[name]);
  }

  lemma ReferredMember(root: Json, m: Object) returns (t: Json)
    requires IsDocument(root) && RefOk(root, m) && "$ref" in m
    ensures m["$ref"].Str? && Target(root, m["$ref"].s) == Some(t) && IsMember(root, t)
  {
    TargetIsMember(root, m);
    t := Target(root, m["$ref"].s).value;
  }

  // ---- what a node asks for in place ------------------------------------------------------------

  /** The plain schemas a node is the intersection of: itself and what its members ask
      for, `k` references and intersections deep. */
  ghost function NodePieces(root: Json, m: Object, k: nat): seq<Object>
    decreases k, 1, 0
  {
    [m] + BelowPieces(root, m, k)
  }

  ghost function BelowPieces(root: Json, m: Object, k: nat): seq<Object>
    decreases k, 0, 1
  {
    if Members(m).Some? && k > 0 then AllPieces(root, Members(m).value, k - 1) else []
  }

  ghost function AllPieces(root: Json, members: seq<Json>, k: nat): seq<Object>
    decreases k, 3, |members|
  {
    if members == [] then []
    else AllPieces(root, members[..|members| - 1], k) + MemberPieces(root, members[|members| - 1], k)
  }

  /** A member asks for what it says itself, and for the definition it refers to. */
  ghost function MemberPieces(root: Json, v: Json, k: nat): seq<Object>
    decreases k, 2, 0
  {
    if !v.Obj? then [] else NodePieces(root, v.fields, k) + RefPieces(root, v.fields, k)
  }

  ghost function RefPieces(root: Json, m: Object, k: nat): seq<Object>
    decreases k, 0, 0
  {
    if k > 0 && "$ref" in m && m["$ref"].Str? && Target(root, m["$ref"].s).Some? then
      MemberPieces(root, Target(root, m["$ref"].s).value, k - 1)
    else []
  }

  /** What pieces are collected of: a node, what is below it, members, one member, and
      what a member refers to. */
  datatype Part = Node(m: Object) | Below(m: Object) | Every(members: seq<Json>) | One(v: Json) | Referred(m: Object)

  ghost predicate ArePieces(root: Json, part: Part, k: nat, ls: seq<Object>) {
    match part
    case Node(m) => ls == NodePieces(root, m, k)
    case Below(m) => ls == BelowPieces(root, m, k)
    case Every(members) => ls == AllPieces(root, members, k)
    case One(v) => ls == MemberPieces(root, v, k)
    case Referred(m) => ls == RefPieces(root, m, k)
  }

  lemma NodeUnfolds(root: Json, m: Object, k: nat, below: seq<Object>)
    requires ArePieces(root, Below(m), k, below)
    ensures ArePieces(root, Node(m), k, [m] + below)
  {
  }

  lemma BelowUnfolds(root: Json, m: Object, j: nat, k: nat, ls: seq<Object>)
    requires Members(m).Some? && k == j + 1 && ArePieces(root, Every(Members(m).value), j, ls)
    ensures ArePieces(root, Below(m), k, ls)
  {
  }

  lemma EveryUnfolds(root: Json, members: seq<Json>, k: nat, before: seq<Object>, last: seq<Object>)
    requires members != [] && ArePieces(root, Every(members[..|members| - 1]), k, before)
    requires ArePieces(root, One(members[|members| - 1]), k, last)
    ensures ArePieces(root, Every(members), k, before + last)
  {
  }

  lemma OneUnfolds(root: Json, v: Json, k: nat, own: seq<Object>, referred: seq<Object>)
    requires v.Obj? && ArePieces(root, Node(v.fields), k, own) && ArePieces(root, Referred(v.fields), k, referred)
    ensures ArePieces(root, One(v), k, own + referred)
  {
  }

  lemma ReferredUnfolds(root: Json, m: Object, t: Json, j: nat, k: nat, ls: seq<Object>)
    requires "$ref" in m && m["$ref"].Str? && Target(root, m["$ref"].s) == Some(t)
    requires k == j + 1 && ArePieces(root, One(t), j, ls)
    ensures ArePieces(root, Referred(m), k, ls)
  {
  }

  lemma NothingBelow(root: Json, m: Object, k: nat)
    ensures Members(m).None? || k == 0 ==> ArePieces(root, Below(m), k, [])
    ensures "$ref" !in m || k == 0 ==> ArePieces(root, Referred(m), k, [])
    ensures ArePieces(root, Every([]), k, [])
  {
  }

  ghost predicate AllShaped(ls: seq<Object>) { forall o | o in ls :: Shaped(o) }

  lemma {:induction false} NodePiecesShaped(root: Json, m: Object, k: nat) returns (ls: seq<Object>)
    requires IsDocument(root) && IsStructural(Obj(m)) && IsSchema(root, Obj(m))
    ensures ArePieces(root, Node(m), k, ls) && AllShaped(ls)
    decreases k, 1, 0
  {
    NothingBelow(root, m, k);
    var below := [];
    if Members(m).Some? && k > 0 {
      MembersOf(root, m);
      var j: nat := k - 1;
      below := AllPiecesShaped(root, Members(m).value, j);
      BelowUnfolds(root, m, j, k, below);
    }
    NodeUnfolds(root, m, k, below);
    ls := [m] + below;
  }

  lemma {:induction false} AllPiecesShaped(root: Json, members: seq<Json>, k: nat) returns (ls: seq<Object>)
    requires IsDocument(root) && forall i | 0 <= i < |members| :: IsMember(root, members[i])
    ensures ArePieces(root, Every(members), k, ls) && AllShaped(ls)
    decreases k, 3, |members|
  {
    if members == [] {
      NothingBelow(root, map[], k);
      ls := [];
    } else {
      var first, v := members[..|members| - 1], members[|members| - 1];
      var before := AllPiecesShaped(root, first, k);
      var last := MemberPiecesShaped(root, v, k);
      EveryUnfolds(root, members, k, before, last);
      ls := before + last;
    }
  }

  lemma {:induction false} MemberPiecesShaped(root: Json, v: Json, k: nat) returns (ls: seq<Object>)
    requires IsDocument(root) && IsMember(root, v)
    ensures ArePieces(root, One(v), k, ls) && AllShaped(ls)
    decreases k, 2, 0
  {
    var own := NodePiecesShaped(root, v.fields, k);
    var referred := RefPiecesShaped(root, v.fields, k);
    OneUnfolds(root, v, k, own, referred);
    ls := own + referred;
  }

  lemma {:induction false} RefPiecesShaped(root: Json, m: Object, k: nat) returns (ls: seq<Object>)
    requires IsDocument(root) && RefOk(root, m)
    ensures ArePieces(root, Referred(m), k, ls) && AllShaped(ls)
    decreases k, 0, 0
  {
    if k > 0 && "$ref" in m {
      var t := ReferredMember(root, m);
      var j: nat := k - 1;
      ls := MemberPiecesShaped(root, t, j);
      ReferredUnfolds(root, m, t, j, k, ls);
    } else {
      NothingBelow(root, m, k);
      ls := [];
    }
  }

  // ---- a flattened node says nothing of its own ---------------------------------------------------

  lemma FromMore(o: Object, ls: seq<Object>, more: seq<Object>)
    requires From(o, ls) && forall q | q in ls :: q in more
    ensures From(o, more)
  {
    if "type" in o {
      var q :| q in ls && "type" in q && q["type"] == o["type"];
      assert q in more;
    }
    forall r | r in Required(o) ensures SaysRequired(more, r) {
      assert SaysRequired(ls, r);
      var q :| q in ls && r in Required(q);
      assert q in more;
    }
    forall p | p in Props(o) ensures SaysProperty(more, p, Props(o)[p]) {
      assert SaysProperty(ls, p, Props(o)[p]);
      var q :| q in ls && p in Props(q) && Props(q)[p] == Props(o)[p];
      assert q in more;
    }
  }

  lemma MergeFrom(t: Object, o: Object, ls: seq<Object>)
    requires Shaped(t) && Shaped(o) && From(t, ls) && From(o, ls)
    ensures From(Merge(t, o - METADATA_KEYS), ls)
  {
    MergeFields(t, o);
    var m := Merge(t, o - METADATA_KEYS);
    assert "type" in m ==> Member(m, "type") == Some(m["type"]);
    forall r | r in Required(m) ensures SaysRequired(ls, r) {
      assert r in Required(t) ==> SaysRequired(ls, r);
      assert r in Required(o) ==> SaysRequired(ls, r);
    }
    forall p | p in Props(m) ensures SaysProperty(ls, p, Props(m)[p]) {
      assert p in Props(o) ==> SaysProperty(ls, p, Props(o)[p]);
      assert p in Props(t) ==> SaysProperty(ls, p, Props(t)[p]);
    }
  }

  lemma OwnFrom(merged: Object, own: Object, ls: seq<Object>)
    requires Shaped(merged) && Shaped(own) && From(merged, ls) && own in ls
    ensures From(merged + (own - {"allOf"}), ls)
  {
    var rest := own - {"allOf"};
    OwnKeysFields(merged, rest);
    var flat := merged + rest;
    assert Props(rest) == Props(own) && Required(rest) == Required(own);
    if "type" in flat && "type" in own { assert SaysType(ls, own["type"]); }
    forall r | r in Required(flat) ensures SaysRequired(ls, r) {
      assert r in Required(own) ==> SaysRequired(ls, r);
      assert r in Required(merged) ==> SaysRequired(ls, r);
    }
    forall p | p in Props(flat) ensures SaysProperty(ls, p, Props(flat)[p]) {
      assert p in Props(own) ==> SaysProperty(ls, p, Props(own)[p]);
      assert p in Props(merged) ==> SaysProperty(ls, p, Props(merged)[p]);
    }
  }

  const PLAIN_KEYS: set<string> := {"type", "required", "properties", "additionalProperties"}

  lemma MergeKeys(t: Object, o: Object)
    requires t.Keys <= PLAIN_KEYS && InGrammar(o)
    ensures Merge(t, o - METADATA_KEYS).Keys <= PLAIN_KEYS
  {
  }

  lemma SelfFrom(o: Object, ls: seq<Object>)
    requires o in ls
    ensures From(o, ls)
  {
    assert "type" in o ==> SaysType(ls, o["type"]);
    forall r | r in Required(o) ensures SaysRequired(ls, r) {
    }
    forall p | p in Props(o) ensures SaysProperty(ls, p, Props(o)[p]) {
    }
  }

  lemma MembersOf(root: Json, node: Object)
    requires IsStructural(Obj(node)) && IsSchema(root, Obj(node)) && Members(node).Some?
    ensures forall i | 0 <= i < |Members(node).value| :: IsMember(root, Members(node).value[i])
  {
  }

  lemma FlatFromMerged(node: Object, merged: Object, ls: seq<Object>)
    requires InGrammar(node) && Shaped(merged) && merged.Keys <= PLAIN_KEYS && From(merged, ls) && node in ls
    ensures var flat := merged + (node - {"allOf"}); InGrammar(flat) && Members(flat).None? && From(flat, ls)
  {
    OwnKeysFields(merged, node - {"allOf"});
    OwnFrom(merged, node, ls);
  }

  lemma PiecesFrom(root: Json, node: Object, members: seq<Json>, j: nat, k: nat, merged: Object)
    requires Members(node) == Some(members) && k == j + 1 && From(merged, AllPieces(root, members, j))
    ensures From(merged, NodePieces(root, node, k)) && node in NodePieces(root, node, k)
  {
    var ls := NodePieces(root, node, k);
    assert BelowPieces(root, node, k) == AllPieces(root, members, j);
    FromMore(merged, AllPieces(root, members, j), ls);
  }

  /** Every constraint of a flattened node comes from what the node asks for. */
  lemma {:induction false} FlatFrom(root: Json, node: Object, depth: nat, k: nat)
    requires IsDocument(root) && IsStructural(Obj(node)) && IsSchema(root, Obj(node)) && k >= 2 * depth
    requires Flattened(node, Definitions(root), depth).Some?
    ensures var flat := Flattened(node, Definitions(root), depth).value;
            InGrammar(flat) && Members(flat).None? && From(flat, NodePieces(root, node, k))
    decreases depth, 1, 0
  {
    var ls := NodePieces(root, node, k);
    if Members(node).Some? {
      var members := Members(node).value;
      var d, j: nat := depth - 1, k - 1;
      MembersOf(root, node);
      MergedFrom(root, members, d, j);
      var merged := MergedMembers(members, Definitions(root), d).value;
      PiecesFrom(root, node, members, j, k, merged);
      FlatFromMerged(node, merged, ls);
    } else {
      assert ls[0] == node;
      SelfFrom(node, ls);
    }
  }

  lemma MergeStepFrom(t: Object, o: Object, ls: seq<Object>, more: seq<Object>)
    requires Shaped(t) && t.Keys <= PLAIN_KEYS && InGrammar(o) && From(t, ls) && From(o, more)
    ensures var m := Merge(t, o - METADATA_KEYS); Shaped(m) && m.Keys <= PLAIN_KEYS && From(m, ls + more)
  {
    FromMore(t, ls, ls + more);
    FromMore(o, more, ls + more);
    MergeFields(t, o);
    MergeKeys(t, o);
    MergeFrom(t, o, ls + more);
  }

  lemma {:induction false} MergedFrom(root: Json, members: seq<Json>, depth: nat, k: nat)
    requires IsDocument(root) && k >= 2 * depth + 1
    requires forall i | 0 <= i < |members| :: IsMember(root, members[i])
    requires MergedMembers(members, Definitions(root), depth).Some?
    ensures var merged := MergedMembers(members, Definitions(root), depth).value;
            Shaped(merged) && merged.Keys <= PLAIN_KEYS && From(merged, AllPieces(root, members, k))
    decreases depth, 3, |members|
  {
    if members != [] {
      var n := |members| - 1;
      var defs := Definitions(root);
      MergedFrom(root, members[..n], depth, k);
      var r := ResolvedMember(root, members[n]);
      MemberFrom(root, members[n], r, depth, k);
      MergeStepFrom(MergedMembers(members[..n], defs, depth).value, Flattened(r.fields, defs, depth).value,
                    AllPieces(root, members[..n], k), MemberPieces(root, members[n], k));
    }
  }

  /** What the rewrite takes a member for: the definition it refers to, or itself. */
  lemma ResolvedMember(root: Json, v: Json) returns (r: Json)
    requires IsDocument(root) && IsMember(root, v)
    ensures r == ResolveMember(Definitions(root), v) && IsMember(root, r)
    ensures r == if "$ref" in v.fields then Target(root, v.fields["$ref"].s).value else v
  {
    r := ResolveMember(Definitions(root), v);
    if "$ref" in v.fields { TargetIsMember(root, v.fields); }
  }

  lemma NodeWithinMember(root: Json, v: Json, r: Json, k: nat)
    requires IsMember(root, v) && IsMember(root, r) && k > 0
    requires r == if "$ref" in v.fields then Target(root, v.fields["$ref"].s).value else v
    ensures forall q | q in NodePieces(root, r.fields, if "$ref" in v.fields then k - 1 else k) :: q in MemberPieces(root, v, k)
  {
    if "$ref" in v.fields {
      assert RefPieces(root, v.fields, k) == MemberPieces(root, r, k - 1);
    }
  }

  lemma {:induction false} MemberFrom(root: Json, v: Json, r: Json, depth: nat, k: nat)
    requires IsDocument(root) && IsMember(root, v) && k >= 2 * depth + 1 && IsMember(root, r)
    requires r == if "$ref" in v.fields then Target(root, v.fields["$ref"].s).value else v
    requires Flattened(r.fields, Definitions(root), depth).Some?
    ensures var o := Flattened(r.fields, Definitions(root), depth).value;
            InGrammar(o) && From(o, MemberPieces(root, v, k))
    decreases depth, 2, 0
  {
    var k' := if "$ref" in v.fields then k - 1 else k;
    FlatFrom(root, r.fields, depth, k');
    NodeWithinMember(root, v, r, k);
    FromMore(Flattened(r.fields, Definitions(root), depth).value, NodePieces(root, r.fields, k'), MemberPieces(root, v, k));
  }

  // ---- what comes through ------------------------------------------------------------------------

  /** What a schema may ask for in place: a type, a required name, or something of the
      property of a name. */
  datatype Constraint = OfType | OfRequired(name: Json) | OfProperty(key: string)

  ghost predicate Says(o: Object, c: Constraint) {
    match c
    case OfType => "type" in o
    case OfRequired(r) => r in Required(o)
    case OfProperty(p) => p in Props(o)
  }

  /** A keyword of the node's own replaces what is merged into it under that keyword. */
  predicate Overrides(m: Object, c: Constraint) {
    match c
    case OfType => "type" in m
    case OfRequired(_) => "required" in m
    case OfProperty(_) => "properties" in m
  }

  /** What the rewrite takes a member for: the definition it refers to, or itself. */
  function StandsFor(root: Json, v: Json): Json {
    var reference := AsStr(Get(v, "$ref"));
    if reference.Some? && Target(root, reference.value).Some? then Target(root, reference.value).value else v
  }

  /** A constraint surfaces at a node that says it, and at one that does not override it
      when it surfaces at what some member stands for, `k` intersections deep. */
  ghost predicate Surfaces(root: Json, m: Object, c: Constraint, k: nat)
    decreases k, 0
  {
    || Says(m, c)
    || (!Overrides(m, c) && Members(m).Some? && k > 0 && AnySurfaces(root, Members(m).value, c, k - 1))
  }

  ghost predicate AnySurfaces(root: Json, members: seq<Json>, c: Constraint, k: nat)
    decreases k, 2
  {
    exists i | 0 <= i < |members| :: SurfacesIn(root, members[i], c, k)
  }

  ghost predicate SurfacesIn(root: Json, v: Json, c: Constraint, k: nat)
    decreases k, 1
  {
    StandsFor(root, v).Obj? && Surfaces(root, StandsFor(root, v).fields, c, k)
  }

  /** What a member is merged as, if it is merged at all. */
  ghost function Resolved(root: Json, v: Json, depth: nat): Option<Object> {
    var r := ResolveMember(Definitions(root), v);
    if r.Obj? then Flattened(r.fields, Definitions(root), depth) else None
  }

  /** The two objects merged last. */
  lemma LastMerge(root: Json, members: seq<Json>, depth: nat) returns (t: Object, o: Object)
    requires IsDocument(root) && members != [] && forall j | 0 <= j < |members| :: IsMember(root, members[j])
    requires MergedMembers(members, Definitions(root), depth).Some?
    ensures MergedMembers(members[..|members| - 1], Definitions(root), depth) == Some(t) && Shaped(t)
    ensures Resolved(root, members[|members| - 1], depth) == Some(o) && Shaped(o)
    ensures MergedMembers(members, Definitions(root), depth) == Some(Merge(t, o - METADATA_KEYS))
  {
    var n := |members| - 1;
    var r := ResolvedMember(root, members[n]);
    t := MergedMembers(members[..n], Definitions(root), depth).value;
    o := Flattened(r.fields, Definitions(root), depth).value;
    var k := 2 * depth + 1;
    var first, v := members[..n], members[n];
    MergedFrom(root, first, depth, k);
    MemberFrom(root, v, r, depth, k);
  }

  /** Every member of a merge that ends was merged. */
  lemma {:induction false} MemberResolved(root: Json, members: seq<Json>, depth: nat, i: nat)
    requires IsDocument(root) && i < |members| && forall j | 0 <= j < |members| :: IsMember(root, members[j])
    requires MergedMembers(members, Definitions(root), depth).Some?
    ensures Resolved(root, members[i], depth).Some?
    decreases |members|
  {
    var n := |members| - 1;
    var t, o := LastMerge(root, members, depth);
    if i < n {
      var first := members[..n];
      assert first[i] == members[i];
      MemberResolved(root, first, depth, i);
    }
  }

  lemma MergeSays(t: Object, o: Object, c: Constraint)
    requires Shaped(t) && Shaped(o)
    ensures Says(Merge(t, o - METADATA_KEYS), c) <==> Says(t, c) || Says(o, c)
  {
    MergeFields(t, o);
  }

  lemma FlatFields(merged: Object, node: Object)
    requires InGrammar(node) && Shaped(merged)
    ensures var flat := merged + (node - {"allOf"});
            && Props(flat) == (if "properties" in node then Props(node) else Props(merged))
            && Required(flat) == (if "required" in node then Required(node) else Required(merged))
            && Member(flat, "type") == (if "type" in node then Member(node, "type") else Member(merged, "type"))
  {
  }

  lemma OverSays(merged: Object, node: Object, c: Constraint)
    requires InGrammar(node) && Shaped(merged)
    ensures Says(merged + (node - {"allOf"}), c) <==> Says(node, c) || (!Overrides(node, c) && Says(merged, c))
  {
    FlatFields(merged, node);
  }

  lemma AnySurfacesSplit(root: Json, members: seq<Json>, c: Constraint, k: nat)
    requires members != []
    ensures var n := |members| - 1;
            AnySurfaces(root, members, c, k) <==>
            AnySurfaces(root, members[..n], c, k) || SurfacesIn(root, members[n], c, k)
  {
    var n := |members| - 1;
    if i :| 0 <= i < |members| && SurfacesIn(root, members[i], c, k) {
      assert i < n ==> SurfacesIn(root, members[..n][i], c, k);
    }
    if i :| 0 <= i < n && SurfacesIn(root, members[..n][i], c, k) {
      assert SurfacesIn(root, members[i], c, k);
    }
  }

  lemma StandsForResolved(root: Json, v: Json)
    requires IsDocument(root) && IsMember(root, v)
    ensures StandsFor(root, v) == ResolveMember(Definitions(root), v) && IsMember(root, StandsFor(root, v))
  {
    var r := ResolvedMember(root, v);
  }

  lemma MergedShaped(root: Json, members: seq<Json>, depth: nat) returns (merged: Object)
    requires IsDocument(root) && forall i | 0 <= i < |members| :: IsMember(root, members[i])
    requires MergedMembers(members, Definitions(root), depth).Some?
    ensures MergedMembers(members, Definitions(root), depth) == Some(merged) && Shaped(merged)
  {
    var k := 2 * depth + 1;
    MergedFrom(root, members, depth, k);
    merged := MergedMembers(members, Definitions(root), depth).value;
  }

  lemma SurfacesBelow(root: Json, m: Object, c: Constraint, j: nat, k: nat)
    requires Members(m).Some? && k == j + 1
    ensures Surfaces(root, m, c, k) <==>
            Says(m, c) || (!Overrides(m, c) && AnySurfaces(root, Members(m).value, c, j))
  {
  }

  /** A flattened node says just what surfaces at the node. */
  lemma {:induction false} FlatSays(root: Json, node: Object, depth: nat, k: nat, c: Constraint)
    requires IsDocument(root) && IsStructural(Obj(node)) && IsSchema(root, Obj(node)) && k >= depth
    requires Flattened(node, Definitions(root), depth).Some?
    ensures Says(Flattened(node, Definitions(root), depth).value, c) <==> Surfaces(root, node, c, k)
    decreases depth, 0, 0
  {
    if Members(node).Some? {
      var members := Members(node).value;
      var d, j: nat := depth - 1, k - 1;
      MembersOf(root, node);
      var merged := MergedShaped(root, members, d);
      MergedSays(root, members, d, j, c);
      OverSays(merged, node, c);
      SurfacesBelow(root, node, c, j, k);
    }
  }

  lemma {:induction false} MergedSays(root: Json, members: seq<Json>, depth: nat, k: nat, c: Constraint)
    requires IsDocument(root) && k >= depth && forall i | 0 <= i < |members| :: IsMember(root, members[i])
    requires MergedMembers(members, Definitions(root), depth).Some?
    ensures Says(MergedMembers(members, Definitions(root), depth).value, c) <==> AnySurfaces(root, members, c, k)
    decreases depth, 1, |members|
  {
    if members != [] {
      var n := |members| - 1;
      var first, v := members[..n], members[n];
      var t, o := LastMerge(root, members, depth);
      MergedSays(root, first, depth, k, c);
      StandsForResolved(root, v);
      FlatSays(root, StandsFor(root, v).fields, depth, k, c);
      MergeSays(t, o, c);
      AnySurfacesSplit(root, members, c, k);
    }
  }

  // ---- exactly when meaning is preserved --------------------------------------------------------------

  ghost predicate AllAgree(ls: seq<Object>) { forall o, q | o in ls && q in ls :: Agree(o, q) }

  /** Every constraint of every piece surfaces at the node. */
  ghost predicate AllSurface(root: Json, node: Object, ls: seq<Object>, k: nat) {
    forall o, c | o in ls && Says(o, c) :: Surfaces(root, node, c, k)
  }

  /** No two of the schemas a node intersects disagree on a type or a property, and nothing that one
      of them says is overridden, or dropped beside a reference, without being said again
      on the way up. */
  ghost predicate Guarded(root: Json, node: Object, k: nat) {
    AllAgree(NodePieces(root, node, k)) && AllSurface(root, node, NodePieces(root, node, k), k)
  }

  lemma KeepsExactly(flat: Object, ls: seq<Object>)
    requires From(flat, ls)
    ensures KeepsAll(flat, ls) <==> AllAgree(ls) && forall o, c | o in ls && Says(o, c) :: Says(flat, c)
  {
    if KeepsAll(flat, ls) {
      forall o, q | o in ls && q in ls ensures Agree(o, q) {
        assert Keeps(flat, o) && Keeps(flat, q);
      }
      forall o, c | o in ls && Says(o, c) ensures Says(flat, c) {
        assert Keeps(flat, o);
      }
    } else if AllAgree(ls) && forall o, c | o in ls && Says(o, c) :: Says(flat, c) {
      forall o | o in ls ensures Keeps(flat, o) {
        SaidIsKept(flat, ls, o);
      }
    }
  }

  lemma SaidIsKept(flat: Object, ls: seq<Object>, o: Object)
    requires From(flat, ls) && AllAgree(ls) && o in ls && forall c | Says(o, c) :: Says(flat, c)
    ensures Keeps(flat, o)
  {
    if "type" in o {
      assert Says(o, OfType);
      var q :| q in ls && "type" in q && q["type"] == flat["type"];
      assert Agree(o, q);
    }
    forall r | r in Required(o) ensures r in Required(flat) {
      assert Says(o, OfRequired(r));
    }
    forall p | p in Props(o) ensures p in Props(flat) && Props(flat)[p] == Props(o)[p] {
      assert Says(o, OfProperty(p));
      assert SaysProperty(ls, p, Props(flat)[p]);
      var q :| q in ls && p in Props(q) && Props(q)[p] == Props(flat)[p];
      assert Agree(o, q);
    }
  }

  /** A flattened node means what the node did, on every instance and whatever the
      property schemas mean, exactly under the guard: own keys, members, siblings of
      references and referred definitions alike, through any number of references and
      nested intersections. */
  lemma FlatteningPreservesMeaning(root: Json, node: Object, depth: nat, k: nat)
    requires IsDocument(root) && IsStructural(Obj(node)) && IsSchema(root, Obj(node)) && k >= 2 * depth
    requires Flattened(node, Definitions(root), depth).Some?
    ensures MeansAll(Flattened(node, Definitions(root), depth).value, NodePieces(root, node, k)) <==>
            Guarded(root, node, k)
  {
    FlatFrom(root, node, depth, k);
    var ls := NodePiecesShaped(root, node, k);
    KeptExactly(Flattened(node, Definitions(root), depth).value, ls);
    GuardDecides(root, node, depth, k);
  }

  /** The guard is read off the node and the definitions; this is what it says of the result. */
  lemma GuardDecides(root: Json, node: Object, depth: nat, k: nat)
    requires IsDocument(root) && IsStructural(Obj(node)) && IsSchema(root, Obj(node)) && k >= 2 * depth
    requires Flattened(node, Definitions(root), depth).Some?
    ensures KeepsAll(Flattened(node, Definitions(root), depth).value, NodePieces(root, node, k)) <==>
            Guarded(root, node, k)
  {
    var flat, ls := Flattened(node, Definitions(root), depth).value, NodePieces(root, node, k);
    FlatFrom(root, node, depth, k);
    KeepsExactly(flat, ls);
    forall c ensures Says(flat, c) <==> Surfaces(root, node, c, k) {
      FlatSays(root, node, depth, k, c);
    }
  }

  // ---- shallow intersections ---------------------------------------------------------------------------

  /** A member that stands for a schema without intersections. */
  predicate IsShallow(root: Json, v: Json) {
    var r := StandsFor(root, v);
    r.Obj? && "allOf" !in r.fields
  }

  /** The guard of an intersection of such members: of all that the node, its members and
      their definitions say, nothing is lost unless the node or what a member stands for
      says it, and the node does not override it. */
  ghost predicate ShallowGuard(root: Json, node: Object, members: seq<Json>, ls: seq<Object>) {
    && AllAgree(ls)
    && forall o, c | o in ls && Says(o, c) ::
         Says(node, c) || (!Overrides(node, c) && AnySays(root, members, c))
  }

  ghost predicate AnySays(root: Json, members: seq<Json>, c: Constraint) {
    exists i | 0 <= i < |members| :: StandsForSays(root, members[i], c)
  }

  ghost predicate StandsForSays(root: Json, v: Json, c: Constraint) {
    StandsFor(root, v).Obj? && Says(StandsFor(root, v).fields, c)
  }

  /** Such intersections end, whether of references, of schemas in place or of both, and
      keep their meaning exactly under that guard. */
  lemma ShallowMembersExactly(root: Json, node: Object, depth: nat, k: nat)
    requires IsDocument(root) && IsStructural(Obj(node)) && IsSchema(root, Obj(node)) && 0 < depth && k >= 2 * depth
    requires Members(node).Some? && forall v | v in Members(node).value :: IsShallow(root, v)
    ensures Flattened(node, Definitions(root), depth).Some?
    ensures MeansAll(Flattened(node, Definitions(root), depth).value, NodePieces(root, node, k)) <==>
            ShallowGuard(root, node, Members(node).value, NodePieces(root, node, k))
  {
    var members := Members(node).value;
    var d, j: nat := depth - 1, k - 1;
    MembersOf(root, node);
    ShallowMembersFlatten(root, members, d);
    FlatteningPreservesMeaning(root, node, depth, k);
    ShallowGuards(root, node, members, NodePieces(root, node, k), j, k);
  }

  lemma ShallowGuards(root: Json, node: Object, members: seq<Json>, ls: seq<Object>, j: nat, k: nat)
    requires Members(node) == Some(members) && (forall v | v in members :: IsShallow(root, v)) && k == j + 1
    ensures AllAgree(ls) && AllSurface(root, node, ls, k) <==> ShallowGuard(root, node, members, ls)
  {
    forall c ensures Surfaces(root, node, c, k) <==> Says(node, c) || (!Overrides(node, c) && AnySays(root, members, c)) {
      SurfacesBelow(root, node, c, j, k);
      ShallowSurfaces(root, members, c, j);
    }
  }

  lemma ShallowSurfaces(root: Json, members: seq<Json>, c: Constraint, k: nat)
    requires forall v | v in members :: IsShallow(root, v)
    ensures AnySurfaces(root, members, c, k) <==> AnySays(root, members, c)
  {
    forall i | 0 <= i < |members| ensures SurfacesIn(root, members[i], c, k) <==> StandsForSays(root, members[i], c) {
      assert members[i] in members;
      assert IsShallow(root, members[i]);
    }
  }

  lemma {:induction false} ShallowMembersFlatten(root: Json, members: seq<Json>, depth: nat)
    requires IsDocument(root)
    requires forall v | v in members :: IsMember(root, v) && IsShallow(root, v)
    ensures MergedMembers(members, Definitions(root), depth).Some?
    decreases |members|
  {
    if members != [] {
      var n := |members| - 1;
      ShallowMembersFlatten(root, members[..n], depth);
      StandsForResolved(root, members[n]);
      var r := StandsFor(root, members[n]).fields;
      assert IsShallow(root, members[n]);
      assert Flattened(r, Definitions(root), depth) == Some(r);
    }
  }

  /** For members in place that guard speaks of the node's own keywords alone: its
      `type`, `properties` and `required` repeat what they replace, and where it has none,
      all agree. */
  ghost predicate OwnKeysGuard(own: Object, ls: seq<Object>) {
    && (forall o, q | o in ls && q in ls && "type" in o && "type" in q :: o["type"] == q["type"])
    && (if "properties" in own then
          forall o, p | o in ls && p in Props(o) :: p in Props(own) && Props(own)[p] == Props(o)[p]
        else AllAgree(ls))
    && ("required" in own ==> forall o, r | o in ls && r in Required(o) :: r in Required(own))
  }

  lemma PlainMembersExactly(root: Json, node: Object, depth: nat, k: nat)
    requires IsDocument(root) && IsStructural(Obj(node)) && IsSchema(root, Obj(node)) && 0 < depth && k >= 2 * depth
    requires Members(node).Some?
    requires forall v | v in Members(node).value :: v.Obj? && "allOf" !in v.fields && "$ref" !in v.fields
    ensures Flattened(node, Definitions(root), depth).Some?
    ensures MeansAll(Flattened(node, Definitions(root), depth).value, NodePieces(root, node, k)) <==>
            OwnKeysGuard(node, NodePieces(root, node, k))
  {
    var members := Members(node).value;
    ShallowMembersExactly(root, node, depth, k);
    var ls := PlainNodePieces(root, node, k);
    OwnKeysDecide(root, node, members, ls);
  }

  lemma OwnKeysDecide(root: Json, node: Object, members: seq<Json>, ls: seq<Object>)
    requires InGrammar(node) && |ls| == |members| + 1 && ls[0] == node
    requires forall i | 0 <= i < |members| :: members[i] == Obj(ls[i + 1]) && "$ref" !in ls[i + 1]
    ensures ShallowGuard(root, node, members, ls) <==> OwnKeysGuard(node, ls)
  {
    if OwnKeysGuard(node, ls) {
      OwnKeysSuffice(root, node, members, ls);
    } else if ShallowGuard(root, node, members, ls) {
      OwnKeysNeeded(root, node, members, ls);
    }
  }

  lemma PlainNodePieces(root: Json, node: Object, k: nat) returns (ls: seq<Object>)
    requires Members(node).Some? && k > 0
    requires forall v | v in Members(node).value :: v.Obj? && "allOf" !in v.fields && "$ref" !in v.fields
    ensures ls == NodePieces(root, node, k) && |ls| == |Members(node).value| + 1 && ls[0] == node
    ensures forall i | 0 <= i < |Members(node).value| :: Members(node).value[i] == Obj(ls[i + 1]) && "$ref" !in ls[i + 1]
  {
    var pieces := PlainPieces(root, Members(node).value, k - 1);
    assert BelowPieces(root, node, k) == pieces;
    ls := [node] + pieces;
    forall i | 0 <= i < |pieces| ensures Members(node).value[i] == Obj(ls[i + 1]) && "$ref" !in ls[i + 1] {
      assert Members(node).value[i] in Members(node).value;
    }
  }

  lemma {:induction false} PlainPieces(root: Json, members: seq<Json>, k: nat) returns (ls: seq<Object>)
    requires forall v | v in members :: v.Obj? && "allOf" !in v.fields && "$ref" !in v.fields
    ensures ls == AllPieces(root, members, k)
    ensures |ls| == |members| && forall i | 0 <= i < |members| :: members[i] == Obj(ls[i])
    decreases |members|
  {
    if members == [] {
      ls := [];
    } else {
      var n := |members| - 1;
      var before := PlainPieces(root, members[..n], k);
      var m := members[n].fields;
      assert members[n] in members;
      assert BelowPieces(root, m, k) == [] && RefPieces(root, m, k) == [];
      assert MemberPieces(root, members[n], k) == [m];
      ls := before + [m];
    }
  }

  lemma OwnKeysSuffice(root: Json, node: Object, members: seq<Json>, ls: seq<Object>)
    requires InGrammar(node) && |ls| == |members| + 1 && ls[0] == node
    requires forall i | 0 <= i < |members| :: members[i] == Obj(ls[i + 1]) && "$ref" !in ls[i + 1]
    requires OwnKeysGuard(node, ls)
    ensures ShallowGuard(root, node, members, ls)
  {
    forall o, q | o in ls && q in ls ensures Agree(o, q) {
      if "properties" in node {
        forall p | p in Props(o) && p in Props(q) ensures Props(o)[p] == Props(q)[p] {
          assert Props(node)[p] == Props(o)[p];
          assert Props(node)[p] == Props(q)[p];
        }
      }
    }
    forall o, c | o in ls && Says(o, c)
      ensures Says(node, c) || (!Overrides(node, c) && AnySays(root, members, c))
    {
      var j :| 0 <= j < |ls| && ls[j] == o;
      assert j > 0 ==> StandsForSays(root, members[j - 1], c);
    }
  }

  lemma OwnKeysNeeded(root: Json, node: Object, members: seq<Json>, ls: seq<Object>)
    requires InGrammar(node) && ls != [] && ls[0] == node && ShallowGuard(root, node, members, ls)
    ensures OwnKeysGuard(node, ls)
  {
    forall o, p | "properties" in node && o in ls && p in Props(o) ensures p in Props(node) && Props(node)[p] == Props(o)[p] {
      assert Says(o, OfProperty(p)) && Overrides(node, OfProperty(p)) && Agree(node, o);
    }
    forall o, r | "required" in node && o in ls && r in Required(o) ensures r in Required(node) {
      assert Says(o, OfRequired(r)) && Overrides(node, OfRequired(r));
    }
  }

  /** What stands beside a single reference is harmless exactly when the definition it
      refers to says all of it anyway. */
  lemma ReferenceSiblingsExactly(root: Json, m: Object, target: Object)
    requires IsDocument(root) && IsMember(root, Obj(m)) && "$ref" in m && "allOf" !in m
    requires Target(root, m["$ref"].s) == Some(Obj(target)) && "allOf" !in target && "$ref" !in target
    ensures var node := map["allOf" := Arr([Obj(m)])];
            && Flattened(node, Definitions(root), 1).Some?
            && (MeansAll(Flattened(node, Definitions(root), 1).value, NodePieces(root, node, 2)) <==> Keeps(target, m))
  {
    var node: Object := map["allOf" := Arr([Obj(m)])];
    SiblingPieces(root, m, target);
    assert StandsFor(root, Obj(m)) == Obj(target);
    assert IsStructural(Obj(node)) && IsSchema(root, Obj(node));
    ShallowMembersExactly(root, node, 1, 2);
    SiblingGuard(root, node, m, target);
  }

  lemma SiblingGuard(root: Json, node: Object, m: Object, target: Object)
    requires node.Keys == {"allOf"} && StandsFor(root, Obj(m)) == Obj(target)
    ensures ShallowGuard(root, node, [Obj(m)], [node, m, target]) <==> Keeps(target, m)
  {
    var members, ls := [Obj(m)], [node, m, target];
    assert m in ls && target in ls;
    assert forall c :: !Says(node, c) && !Overrides(node, c);
    forall c ensures AnySays(root, members, c) <==> Says(target, c) {
      assert StandsForSays(root, members[0], c) <==> Says(target, c);
    }
    if ShallowGuard(root, node, members, ls) {
      SaidByBoth(m, target);
    }
    if Keeps(target, m) {
      assert forall c | Says(m, c) :: Says(target, c);
      assert Agree(m, target);
    }
  }

  lemma SaidByBoth(m: Object, target: Object)
    requires Agree(m, target) && forall c | Says(m, c) :: Says(target, c)
    ensures Keeps(target, m)
  {
    assert Says(m, OfType) ==> Says(target, OfType);
    forall r | r in Required(m) ensures r in Required(target) {
      assert Says(m, OfRequired(r));
    }
    forall p | p in Props(m) ensures p in Props(target) {
      assert Says(m, OfProperty(p));
    }
  }

  lemma SiblingPieces(root: Json, m: Object, target: Object)
    requires "$ref" in m && m["$ref"].Str? && "allOf" !in m
    requires Target(root, m["$ref"].s) == Some(Obj(target)) && "allOf" !in target && "$ref" !in target
    ensures var node := map["allOf" := Arr([Obj(m)])]; NodePieces(root, node, 2) == [node, m, target]
  {
    var node: Object := map["allOf" := Arr([Obj(m)])];
    assert [Obj(m)][..0] == [];
    assert NodePieces(root, m, 1) == [m] && NodePieces(root, target, 0) == [target];
    assert RefPieces(root, m, 1) == MemberPieces(root, Obj(target), 0) == [target];
    assert AllPieces(root, [Obj(m)], 1) == AllPieces(root, [], 1) + MemberPieces(root, Obj(m), 1);
  }

  // ---- inputs whose meaning changes -----------------------------------------------------------------

  /** Beside an `allOf`, a `properties` of the node's own, even an empty one, discards
      what its member says of a property. */
  lemma OwnPropertiesShadowMembers(schema: Json)
    ensures var member := map["properties" := Obj(map["a" := schema])];
            var node := map["allOf" := Arr([Obj(member)]), "properties" := Obj(map[])];
            Flattened(node, Null, 1).Some? && !MeansAll(Flattened(node, Null, 1).value, [node, member])
  {
    var member: Object := map["properties" := Obj(map["a" := schema])];
    var node: Object := map["allOf" := Arr([Obj(member)]), "properties" := Obj(map[])];
    OneMemberFlattens(node, member);
    var flat := Flattened(node, Null, 1).value;
    assert Props(flat) == map[] && "a" in Props(member);
    assert member in [node, member] && !Keeps(flat, member);
    var inst, sub := LostIsMissed(flat, member);
  }

  lemma OneMemberFlattens(node: Object, member: Object)
    requires node.Keys <= {"allOf", "properties"} && "allOf" in node && node["allOf"] == Arr([Obj(member)])
    requires Shaped(node) && Shaped(member) && "allOf" !in member && "$ref" !in member
    ensures Flattened(node, Null, 1) == Some(Merge(map[], member - METADATA_KEYS) + (node - {"allOf"}))
    ensures var flat := Flattened(node, Null, 1).value;
            && Props(flat) == (if "properties" in node then Props(node) else Props(member)) && Shaped(flat)
  {
    assert [Obj(member)][..0] == [];
    assert MergedMembers([], Null, 0) == Some(map[]);
    assert MergedOne(map[], Obj(member), Null, 0) == Some(Merge(map[], member - METADATA_KEYS));
    MergeFields(map[], member);
    OwnKeysFields(Merge(map[], member - METADATA_KEYS), node - {"allOf"});
  }

  /** Of two members that disagree on a property, the later one wins. */
  lemma DisagreeingMembers(s: Json, t: Json)
    requires s != t
    ensures var first, second := map["properties" := Obj(map["a" := s])], map["properties" := Obj(map["a" := t])];
            var node := map["allOf" := Arr([Obj(first), Obj(second)])];
            Flattened(node, Null, 1).Some? && !MeansAll(Flattened(node, Null, 1).value, [node, first, second])
  {
    var first: Object := map["properties" := Obj(map["a" := s])];
    var second: Object := map["properties" := Obj(map["a" := t])];
    var members := [Obj(first), Obj(second)];
    var node: Object := map["allOf" := Arr(members)];
    assert members[..1] == [Obj(first)] && [Obj(first)][..0] == [];
    assert MergedMembers([], Null, 0) == Some(map[]);
    var one := Merge(map[], first - METADATA_KEYS);
    assert MergedMembers([Obj(first)], Null, 0) == Some(one);
    var two := Merge(one, second - METADATA_KEYS);
    assert MergedMembers(members, Null, 0) == Some(two);
    MergeFields(map[], first);
    MergeFields(one, second);
    OwnKeysFields(two, node - {"allOf"});
    var flat := Flattened(node, Null, 1).value;
    assert Props(flat) == Props(first) + Props(second);
    LostMeaning(flat, [node, first, second], first, "a");
  }

  lemma LostMeaning(flat: Object, ls: seq<Object>, o: Object, p: string)
    requires Shaped(flat) && Shaped(o) && o in ls
    requires p in Props(o) && !(p in Props(flat) && Props(flat)[p] == Props(o)[p])
    ensures !MeansAll(flat, ls)
  {
    assert !Keeps(flat, o);
    var inst, sub := LostIsMissed(flat, o);
  }

  /** A member that refers to a definition and requires `x` beside the reference no
      longer requires it. */
  lemma DroppedSibling()
    ensures var root := Obj(map["$defs" := Obj(map["A" := Obj(map["type" := Str("object")])])]);
            var node := map["allOf" := Arr([Obj(map["$ref" := Str("#/$defs/A"), "required" := Arr([Str("x")])])])];
            && Flattened(node, Definitions(root), 1).Some?
            && !MeansAll(Flattened(node, Definitions(root), 1).value, NodePieces(root, node, 2))
  {
    var a: Object := map["type" := Str("object")];
    var root := Obj(map["$defs" := Obj(map["A" := Obj(a)])]);
    var m: Object := map["$ref" := Str("#/$defs/A"), "required" := Arr([Str("x")])];
    OneDefinition(root, "A", Obj(a));
    assert "#/$defs/" + "A" == "#/$defs/A";
    assert IsStructural(Obj(a)) && IsStructural(Obj(m));
    assert Required(m) == [Str("x")] && Str("x") in Required(m) && Required(a) == [];
    ReferenceSiblingsExactly(root, m, a);
  }

  /** A document of one definition, and the reference to it. */
  lemma OneDefinition(root: Json, name: string, v: Json)
    requires root == Obj(map["$defs" := Obj(map[name := v])]) && IsPlainName(name)
    ensures Definitions(root) == Obj(map[name := v])
    ensures Target(root, "#/$defs/" + name) == Some(v) && IsLocal(root, "#/$defs/" + name)
  {
    var defs := Obj(map[name := v]);
    assert Get(root, "$defs") == Some(defs) && Get(defs, name) == Some(v);
    var reference := "#/$defs/" + name;
    assert reference[..8] == "#/" + "$defs" + "/" && reference[8..] == name;
  }
}
