/**
 The schema normalization of turbomcp-codegen: every `allOf` intersection is
 replaced, in place, by one object with the members' fields.

 The rewrite recurses into what it has just merged, which includes content
 cloned from the definitions, so it need not stop. The functions take the depth
 of recursion they may use and answer `None` when it does not suffice; the
 methods loop as the rewrite does and are proved to compute those functions.
 */
module FlattenAllOf {
  import opened Wrappers
  import opened Json

  const METADATA_KEYS: set<string> := {"description", "title", "default"}

  // ---- resolving references ----------------------------------------------------------------

  /** What follows the last slash. */
  function RefName(reference: string): string {
    if reference == "" then ""
    else if reference[|reference| - 1] == '/' then ""
    else RefName(reference[..|reference| - 1]) + [reference[|reference| - 1]]
  }

  /** The name is the whole reference, or all that follows its last slash. */
  lemma {:induction false} RefNameExactly(reference: string) returns (before: string)
    ensures '/' !in RefName(reference)
    ensures reference == before + RefName(reference)
    ensures before == "" || before[|before| - 1] == '/'
    decreases |reference|
  {
    if reference == "" || reference[|reference| - 1] == '/' {
      before := reference;
      assert before + "" == reference;
    } else {
      var first, last := reference[..|reference| - 1], reference[|reference| - 1];
      before := RefNameExactly(first);
      assert reference == before + RefName(first) + [last] == before + (RefName(first) + [last]);
    }
  }

  function Resolve(defs: Json, reference: string): Option<Json> { Get(defs, RefName(reference)) }

  /** The definition a member refers to, if it refers to one. */
  function RefTarget(defs: Json, member: Json): Option<Json> {
    var reference := AsStr(Get(member, "$ref"));
    if reference.Some? then Resolve(defs, reference.value) else None
  }

  function ResolveMember(defs: Json, member: Json): Json {
    var target := RefTarget(defs, member);
    if target.Some? then target.value else member
  }

  /** The members of an object's `allOf`, when it is an array. */
  function Members(node: Object): Option<seq<Json>> {
    if "allOf" in node && node["allOf"].Arr? then Some(node["allOf"].items) else None
  }

  // ---- merging ------------------------------------------------------------------------------

  function FieldsOr(m: Object, key: string): Json {
    if key in m then m[key] else Obj(map[])
  }

  function ItemsOr(m: Object, key: string): Json {
    if key in m then m[key] else Arr([])
  }

  /** `extra` appended to `items`, skipping what is there already. */
  function AppendMissing(items: seq<Json>, extra: seq<Json>): seq<Json>
    decreases |extra|
  {
    if extra == [] then items
    else AppendMissing(if extra[0] in items then items else items + [extra[0]], extra[1..])
  }

  function MergeProperties(target: Object, src: Object): Object {
    if "properties" in src && src["properties"].Obj? then
      var entry := FieldsOr(target, "properties");
      target["properties" := if entry.Obj? then Obj(entry.fields + src["properties"].fields) else entry]
    else target
  }

  function MergeRequired(target: Object, src: Object): Object {
    if "required" in src && src["required"].Arr? then
      var entry := ItemsOr(target, "required");
      target["required" := if entry.Arr? then Arr(AppendMissing(entry.items, src["required"].items)) else entry]
    else target
  }

  function MergeType(target: Object, src: Object): Object {
    if "type" in src then target["type" := src["type"]] else target
  }

  function MergeAdditional(target: Object, src: Object): Object {
    if "additionalProperties" in src && "additionalProperties" !in target then
      target["additionalProperties" := src["additionalProperties"]]
    else target
  }

  /** `merge_object_into`. */
  function Merge(target: Object, src: Object): Object {
    MergeAdditional(MergeType(MergeRequired(MergeProperties(target, src), src), src), src)
  }

  // ---- the rewrite ----------------------------------------------------------------------------

  /** `flatten_node`: the members merged in order, the node's own keys winning. */
  function Flattened(node: Object, defs: Json, depth: nat): Option<Object>
    decreases depth, 1, 0
  {
    match Members(node)
    case None => Some(node)
    case Some(members) =>
      if depth == 0 then None
      else match MergedMembers(members, defs, depth - 1)
        case None => None
        case Some(merged) => Some(merged + (node - {"allOf"}))
  }

  function MergedMembers(members: seq<Json>, defs: Json, depth: nat): Option<Object>
    decreases depth, 2, |members|
  {
    if members == [] then Some(map[])
    else match MergedMembers(members[..|members| - 1], defs, depth)
      case None => None
      case Some(target) => MergedOne(target, members[|members| - 1], defs, depth)
  }

  /** One member merged into what the earlier ones gave; members that are not objects are skipped. */
  function MergedOne(target: Object, member: Json, defs: Json, depth: nat): Option<Object>
    decreases depth, 2, 0
  {
    var resolved := ResolveMember(defs, member);
    if !resolved.Obj? then Some(target)
    else match Flattened(resolved.fields, defs, depth)
      case None => None
      case Some(fields) => Some(Merge(target, fields - METADATA_KEYS))
  }

  /** `walk`. */
  function Walked(v: Json, defs: Json, depth: nat): Option<Json>
    decreases depth, 0
  {
    match v
    case Arr(items) =>
      if depth > 0 && WalkedItems(items, defs, depth - 1).Some? then Some(Arr(WalkedItems(items, defs, depth - 1).value))
      else None
    case Obj(m) =>
      (match Flattened(m, defs, depth)
       case None => None
       case Some(flat) =>
         if depth > 0 && WalkedFields(flat, defs, depth - 1).Some? then Some(Obj(WalkedFields(flat, defs, depth - 1).value))
         else None)
    case _ => Some(v)
  }

  function WalkedItems(items: seq<Json>, defs: Json, depth: nat): (r: Option<seq<Json>>)
    ensures r.Some? <==> forall i | 0 <= i < |items| :: Walked(items[i], defs, depth).Some?
    ensures r.Some? ==> |r.value| == |items|
    ensures r.Some? ==> forall i | 0 <= i < |items| :: r.value[i] == Walked(items[i], defs, depth).value
    decreases depth, 1
  {
    if forall i | 0 <= i < |items| :: Walked(items[i], defs, depth).Some? then
      Some(seq(|items|, i requires 0 <= i < |items| => Walked(items[i], defs, depth).value))
    else None
  }

  function WalkedFields(m: Object, defs: Json, depth: nat): (r: Option<Object>)
    ensures r.Some? <==> forall k | k in m :: Walked(m[k], defs, depth).Some?
    ensures r.Some? ==> r.value.Keys == m.Keys && forall k | k in m :: r.value[k] == Walked(m[k], defs, depth).value
    decreases depth, 1
  {
    if forall k | k in m :: Walked(m[k], defs, depth).Some? then Some(map k | k in m :: Walked(m[k], defs, depth).value)
    else None
  }

  /** The snapshot `flatten_all_of` resolves against. */
  function Definitions(schema: Json): Json {
    if Get(schema, "$defs").Some? then Get(schema, "$defs").value
    else if Get(schema, "definitions").Some? then Get(schema, "definitions").value
    else Null
  }

  function FlattenedAllOf(schema: Json, depth: nat): Option<Json> {
    Walked(schema, Definitions(schema), depth)
  }

  // ---- the rewrite as it loops -----------------------------------------------------------------

  method MergeObjectInto(target0: Object, src: Object) returns (target: Object)
    ensures target == Merge(target0, src)
  {
    target := target0;
    if "properties" in src && src["properties"].Obj? {
      var entry := FieldsOr(target, "properties");
      if entry.Obj? {
        var props := src["properties"].fields;
        var merged := entry.fields;
        var keys := props.Keys;
        while keys != {}
          invariant keys <= props.Keys
          invariant merged == entry.fields + (props - keys)
          decreases keys
        {
          var key :| key in keys;
          merged := merged[key := props[key]];
          keys := keys - {key};
        }
        assert props - {} == props;
        entry := Obj(merged);
      }
      target := target["properties" := entry];
    }
    assert target == MergeProperties(target0, src);
    if "required" in src && src["required"].Arr? {
      var entry := ItemsOr(target, "required");
      if entry.Arr? {
        var required := src["required"].items;
        var items := entry.items;
        for i := 0 to |required|
          invariant AppendMissing(items, required[i..]) == AppendMissing(entry.items, required)
        {
          assert required[i..][1..] == required[i + 1..];
          if required[i] !in items {
            items := items + [required[i]];
          }
        }
        assert required[|required|..] == [];
        entry := Arr(items);
      }
      target := target["required" := entry];
    }
    if "type" in src {
      target := target["type" := src["type"]];
    }
    if "additionalProperties" in src && "additionalProperties" !in target {
      target := target["additionalProperties" := src["additionalProperties"]];
    }
  }

  method FlattenNode(node: Object, defs: Json, depth: nat) returns (r: Option<Object>)
    ensures r == Flattened(node, defs, depth)
    decreases depth
  {
    if Members(node).None? { return Some(node); }
    if depth == 0 { return None; }
    var members := Members(node).value;
    var merged: Object := map[];
    var below: nat := depth - 1;
    for i := 0 to |members|
      invariant MergedMembers(members[..i], defs, below) == Some(merged)
    {
      MergedNext(members, i, defs, below);
      var resolved := ResolveMember(defs, members[i]);
      if resolved.Obj? {
        var fields := FlattenNode(resolved.fields, defs, below);
        if fields.None? {
          PrefixFails(members, i + 1, defs, below);
          return None;
        }
        merged := MergeObjectInto(merged, fields.value - METADATA_KEYS);
      }
    }
    assert members[..|members|] == members;
    r := Some(merged + (node - {"allOf"}));
  }

  method Walk(v: Json, defs: Json, depth: nat) returns (r: Option<Json>)
    ensures r == Walked(v, defs, depth)
    decreases depth, 0
  {
    if v.Obj? {
      var flat := FlattenNode(v.fields, defs, depth);
      if flat.None? || depth == 0 { return None; }
      var done := WalkFields(flat.value, defs, depth - 1);
      r := if done.Some? then Some(Obj(done.value)) else None;
    } else if v.Arr? {
      if depth == 0 { return None; }
      var done := WalkItems(v.items, defs, depth - 1);
      r := if done.Some? then Some(Arr(done.value)) else None;
    } else {
      r := Some(v);
    }
  }

  method WalkFields(children: Object, defs: Json, depth: nat) returns (r: Option<Object>)
    ensures r == WalkedFields(children, defs, depth)
    decreases depth, 1
  {
    var done: Object := map[];
    var keys := children.Keys;
    while keys != {}
      invariant keys <= children.Keys && done.Keys == children.Keys - keys
      invariant forall k | k in done :: Walked(children[k], defs, depth) == Some(done[k])
      decreases keys
    {
      var key :| key in keys;
      var child := Walk(children[key], defs, depth);
      if child.None? { return None; }
      done := done[key := child.value];
      keys := keys - {key};
    }
    assert done == WalkedFields(children, defs, depth).value;
    r := Some(done);
  }

  method WalkItems(items: seq<Json>, defs: Json, depth: nat) returns (r: Option<seq<Json>>)
    ensures r == WalkedItems(items, defs, depth)
    decreases depth, 1
  {
    var done: seq<Json> := [];
    for i := 0 to |items|
      invariant |done| == i
      invariant forall j | 0 <= j < i :: Walked(items[j], defs, depth) == Some(done[j])
    {
      var child := Walk(items[i], defs, depth);
      if child.None? { return None; }
      done := done + [child.value];
    }
    assert done == WalkedItems(items, defs, depth).value;
    r := Some(done);
  }

  lemma MergedNext(members: seq<Json>, i: nat, defs: Json, depth: nat)
    requires i < |members| && MergedMembers(members[..i], defs, depth).Some?
    ensures MergedMembers(members[..i + 1], defs, depth) ==
            MergedOne(MergedMembers(members[..i], defs, depth).value, members[i], defs, depth)
  {
    assert members[..i + 1][..i] == members[..i];
  }

  /** A member that cannot be merged stops the node. */
  lemma {:induction false} PrefixFails(members: seq<Json>, i: nat, defs: Json, depth: nat)
    requires i <= |members| && MergedMembers(members[..i], defs, depth).None?
    ensures MergedMembers(members, defs, depth).None?
    decreases |members|
  {
    if i == |members| {
      assert members[..i] == members;
    } else {
      assert members[..|members| - 1][..i] == members[..i];
      PrefixFails(members[..|members| - 1], i, defs, depth);
    }
  }

  // ---- no intersection is left -------------------------------------------------------------------

  /** No object at any depth has an array-valued `allOf`. */
  ghost predicate IntersectionFree(v: Json) {
    match v
    case Arr(items) => forall i | 0 <= i < |items| :: IntersectionFree(items[i])
    case Obj(m) => Members(m).None? && forall k | k in m :: IntersectionFree(m[k])
    case _ => true
  }

  const MERGED_KEYS: set<string> := {"properties", "required", "type", "additionalProperties"}

  lemma {:induction false} MergedKeys(members: seq<Json>, defs: Json, depth: nat)
    requires MergedMembers(members, defs, depth).Some?
    ensures MergedMembers(members, defs, depth).value.Keys <= MERGED_KEYS
    decreases |members|
  {
    if members != [] {
      MergedKeys(members[..|members| - 1], defs, depth);
    }
  }

  // ---- whose keyword it is ------------------------------------------------------------------------

  /** The `type` of the last member that has one, its reference resolved and itself flattened. */
  function LastType(members: seq<Json>, defs: Json, depth: nat): Option<Json> {
    if members == [] then None
    else
      var first, resolved := members[..|members| - 1], ResolveMember(defs, members[|members| - 1]);
      if !resolved.Obj? then LastType(first, defs, depth)
      else
        match Flattened(resolved.fields, defs, depth)
        case Some(fields) => if "type" in fields then Some(fields["type"]) else LastType(first, defs, depth)
        case None => None
  }

  /** The `additionalProperties` of the first member that has one. */
  function FirstAdditional(members: seq<Json>, defs: Json, depth: nat): Option<Json>
    decreases |members|
  {
    if members == [] then None
    else
      var resolved := ResolveMember(defs, members[0]);
      if !resolved.Obj? then FirstAdditional(members[1..], defs, depth)
      else
        match Flattened(resolved.fields, defs, depth)
        case Some(fields) =>
          if "additionalProperties" in fields then Some(fields["additionalProperties"])
          else FirstAdditional(members[1..], defs, depth)
        case None => None
  }

  lemma MergeKeepsType(t: Object, src: Object)
    ensures Member(Merge(t, src - METADATA_KEYS), "type") == if "type" in src then Member(src, "type") else Member(t, "type")
    ensures Member(Merge(t, src - METADATA_KEYS), "additionalProperties") ==
            if "additionalProperties" in t then Member(t, "additionalProperties") else Member(src, "additionalProperties")
  {
  }

  lemma {:induction false} MergedType(members: seq<Json>, defs: Json, depth: nat)
    requires MergedMembers(members, defs, depth).Some?
    ensures Member(MergedMembers(members, defs, depth).value, "type") == LastType(members, defs, depth)
    decreases |members|
  {
    if members != [] {
      var first, resolved := members[..|members| - 1], ResolveMember(defs, members[|members| - 1]);
      MergedType(first, defs, depth);
      if resolved.Obj? {
        MergeKeepsType(MergedMembers(first, defs, depth).value, Flattened(resolved.fields, defs, depth).value);
      }
    }
  }

  lemma {:induction false} FirstOfMore(first: seq<Json>, last: Json, defs: Json, depth: nat)
    requires MergedMembers(first, defs, depth).Some?
    ensures FirstAdditional(first + [last], defs, depth) ==
            if FirstAdditional(first, defs, depth).Some? then FirstAdditional(first, defs, depth)
            else FirstAdditional([last], defs, depth)
    decreases |first|
  {
    if first == [] {
      assert first + [last] == [last];
    } else {
      MemberOfMerge(first, 0, defs, depth);
      assert (first + [last])[0] == first[0] && (first + [last])[1..] == first[1..] + [last];
      MergedTail(first, defs, depth);
      FirstOfMore(first[1..], last, defs, depth);
    }
  }

  /** A merge that ends merged each member on its own. */
  lemma {:induction false} MemberOfMerge(members: seq<Json>, i: nat, defs: Json, depth: nat)
    requires i < |members| && MergedMembers(members, defs, depth).Some?
    ensures var r := ResolveMember(defs, members[i]); r.Obj? ==> Flattened(r.fields, defs, depth).Some?
    decreases |members|
  {
    var n := |members| - 1;
    if i < n {
      var first := members[..n];
      assert first[i] == members[i];
      MemberOfMerge(first, i, defs, depth);
    }
  }

  lemma {:induction false} MergedTail(members: seq<Json>, defs: Json, depth: nat)
    requires members != [] && MergedMembers(members, defs, depth).Some?
    ensures MergedMembers(members[1..], defs, depth).Some?
    decreases |members|
  {
    var n := |members| - 1;
    if n > 0 {
      var first := members[..n];
      MergedTail(first, defs, depth);
      assert members[1..][..n - 1] == first[1..] && members[1..][n - 1] == members[n];
      MemberOfMerge(members, n, defs, depth);
    }
  }

  lemma {:induction false} MergedAdditional(members: seq<Json>, defs: Json, depth: nat)
    requires MergedMembers(members, defs, depth).Some?
    ensures Member(MergedMembers(members, defs, depth).value, "additionalProperties") == FirstAdditional(members, defs, depth)
    decreases |members|
  {
    if members != [] {
      var n := |members| - 1;
      var first, resolved := members[..n], ResolveMember(defs, members[n]);
      MergedAdditional(first, defs, depth);
      FirstOfMore(first, members[n], defs, depth);
      assert members == first + [members[n]] && [members[n]][1..] == [];
      if resolved.Obj? {
        MergeKeepsType(MergedMembers(first, defs, depth).value, Flattened(resolved.fields, defs, depth).value);
      }
    }
  }

  /** Of any node: its own keys come through as they are, and of others only the four that
      are merged. Its type, if it has none of its own, is that of the last member that has
      one; its `additionalProperties` that of the first. */
  lemma FlattenedKeywords(node: Object, members: seq<Json>, defs: Json, depth: nat)
    requires Members(node) == Some(members) && Flattened(node, defs, depth + 1).Some?
    ensures var flat := Flattened(node, defs, depth + 1).value;
            && (forall key | key in node && key != "allOf" :: key in flat && flat[key] == node[key])
            && (forall key | key in flat && key !in node ::
                  key in {"type", "required", "properties", "additionalProperties"})
            && "allOf" !in flat
            && ("type" !in node ==> Member(flat, "type") == LastType(members, defs, depth))
            && ("additionalProperties" !in node ==>
                  Member(flat, "additionalProperties") == FirstAdditional(members, defs, depth))
  {
    MergedKeys(members, defs, depth);
    MergedType(members, defs, depth);
    MergedAdditional(members, defs, depth);
  }

  /** No name is required twice that was not before. */
  lemma {:induction false} NoneRequiredTwice(items: seq<Json>, extra: seq<Json>)
    requires forall i, j | 0 <= i < j < |items| :: items[i] != items[j]
    ensures items <= AppendMissing(items, extra)
    ensures var all := AppendMissing(items, extra); forall i, j | 0 <= i < j < |all| :: all[i] != all[j]
    decreases |extra|
  {
    if extra != [] {
      NoneRequiredTwice(if extra[0] in items then items else items + [extra[0]], extra[1..]);
    }
  }

  lemma FlattenedHasNoMembers(node: Object, defs: Json, depth: nat)
    requires Flattened(node, defs, depth).Some?
    ensures Members(Flattened(node, defs, depth).value).None?
  {
    if Members(node).Some? {
      MergedKeys(Members(node).value, defs, depth - 1);
    }
  }

  /** Whatever the schema, and however deep content cloned from the definitions
      was re-entered: when the rewrite ends, no intersection is left anywhere. */
  lemma {:induction false} NoIntersectionLeft(v: Json, defs: Json, depth: nat)
    requires Walked(v, defs, depth).Some?
    ensures IntersectionFree(Walked(v, defs, depth).value)
    ensures Walked(v, defs, depth).value.Arr? <==> v.Arr?
    decreases depth
  {
    match v
    case Arr(items) =>
      forall i | 0 <= i < |items| ensures IntersectionFree(Walked(items[i], defs, depth - 1).value) {
        NoIntersectionLeft(items[i], defs, depth - 1);
      }
    case Obj(m) =>
      FlattenedHasNoMembers(m, defs, depth);
      var flat := Flattened(m, defs, depth).value;
      forall k | k in flat
        ensures IntersectionFree(Walked(flat[k], defs, depth - 1).value)
        ensures Walked(flat[k], defs, depth - 1).value.Arr? <==> flat[k].Arr?
      {
        NoIntersectionLeft(flat[k], defs, depth - 1);
      }
    case _ =>
  }

  // ---- when the rewrite ends ------------------------------------------------------------------------

  /** Every `$ref` found in an `allOf` anywhere in `v` names a definition of rank below `n`. */
  ghost predicate RefsBelow(v: Json, defs: Json, rank: map<string, nat>, n: nat) {
    match v
    case Arr(items) => forall i | 0 <= i < |items| :: RefsBelow(items[i], defs, rank, n)
    case Obj(m) =>
      && (forall k | k in m :: RefsBelow(m[k], defs, rank, n))
      && (Members(m).Some? ==>
            forall i | 0 <= i < |Members(m).value| :: RefBelow(Members(m).value[i], defs, rank, n))
    case _ => true
  }

  ghost predicate RefBelow(member: Json, defs: Json, rank: map<string, nat>, n: nat) {
    RefTarget(defs, member).Some? ==>
      var name := RefName(AsStr(Get(member, "$ref")).value);
      name in rank && rank[name] < n
  }

  /** The rank of a definition exceeds that of all it intersects with, at any depth inside it. */
  ghost predicate WellRanked(defs: Json, rank: map<string, nat>) {
    defs.Obj? ==>
      forall name | name in defs.fields :: name in rank && RefsBelow(defs.fields[name], defs, rank, rank[name])
  }

  /** The depth of `v` once every reference in an `allOf` is followed is at most `h`. */
  ghost predicate Fits(v: Json, defs: Json, h: nat)
    decreases h
  {
    match v
    case Arr(items) => h > 0 && forall i | 0 <= i < |items| :: Fits(items[i], defs, h - 1)
    case Obj(m) =>
      && h > 0
      && (forall k | k in m :: Fits(m[k], defs, h - 1))
      && (Members(m).Some? ==>
            forall i | 0 <= i < |Members(m).value| ::
              RefTarget(defs, Members(m).value[i]).Some? ==> Fits(RefTarget(defs, Members(m).value[i]).value, defs, h - 1))
    case _ => true
  }

  lemma {:induction false} FitsMore(v: Json, defs: Json, h: nat, h': nat)
    requires Fits(v, defs, h) && h <= h'
    ensures Fits(v, defs, h')
    decreases h
  {
    match v
    case Arr(items) =>
      forall i | 0 <= i < |items| ensures Fits(items[i], defs, h' - 1) {
        FitsMore(items[i], defs, h - 1, h' - 1);
      }
    case Obj(m) =>
      forall k | k in m ensures Fits(m[k], defs, h' - 1) {
        FitsMore(m[k], defs, h - 1, h' - 1);
      }
      if Members(m).Some? {
        var members := Members(m).value;
        forall i | 0 <= i < |members| && RefTarget(defs, members[i]).Some?
          ensures Fits(RefTarget(defs, members[i]).value, defs, h' - 1)
        {
          FitsMore(RefTarget(defs, members[i]).value, defs, h - 1, h' - 1);
        }
      }
    case _ =>
  }

  function Max(a: nat, b: nat): nat { if a < b then b else a }

  /** Under a ranking every value has such a depth. */
  lemma {:induction false} RankedFits(v: Json, defs: Json, rank: map<string, nat>, n: nat) returns (h: nat)
    requires WellRanked(defs, rank) && RefsBelow(v, defs, rank, n)
    ensures Fits(v, defs, h)
    decreases n, v, 2, 0
  {
    match v
    case Arr(items) =>
      var h0 := RankedItemsFit(v, items, defs, rank, n);
      h := h0 + 1;
    case Obj(m) =>
      var h1 := RankedFieldsFit(v, m, m.Keys, defs, rank, n);
      var h2 := 0;
      if Members(m).Some? {
        h2 := RankedTargetsFit(v, Members(m).value, defs, rank, n);
        var members := Members(m).value;
        forall i | 0 <= i < |members| && RefTarget(defs, members[i]).Some?
          ensures Fits(RefTarget(defs, members[i]).value, defs, Max(h1, h2))
        {
          FitsMore(RefTarget(defs, members[i]).value, defs, h2, Max(h1, h2));
        }
      }
      h := Max(h1, h2) + 1;
      forall k | k in m ensures Fits(m[k], defs, h - 1) {
        FitsMore(m[k], defs, h1, h - 1);
      }
    case _ => h := 0;
  }

  lemma {:induction false} RankedItemsFit(v: Json, items: seq<Json>, defs: Json, rank: map<string, nat>, n: nat) returns (h: nat)
    requires WellRanked(defs, rank)
    requires forall i | 0 <= i < |items| :: items[i] < v && RefsBelow(items[i], defs, rank, n)
    ensures forall i | 0 <= i < |items| :: Fits(items[i], defs, h)
    decreases n, v, 1, |items|
  {
    h := 0;
    if items != [] {
      var h1 := RankedItemsFit(v, items[1..], defs, rank, n);
      var h2 := RankedFits(items[0], defs, rank, n);
      h := Max(h1, h2);
      forall i | 0 <= i < |items| ensures Fits(items[i], defs, h) {
        if i > 0 { assert items[i] == items[1..][i - 1]; }
        FitsMore(items[i], defs, if i == 0 then h2 else h1, h);
      }
    }
  }

  lemma {:induction false} RankedFieldsFit(v: Json, m: Object, keys: set<string>, defs: Json, rank: map<string, nat>, n: nat)
    returns (h: nat)
    requires WellRanked(defs, rank) && keys <= m.Keys
    requires forall k | k in m :: m[k] < v && RefsBelow(m[k], defs, rank, n)
    ensures forall k | k in keys :: Fits(m[k], defs, h)
    decreases n, v, 1, |keys|
  {
    h := 0;
    if keys != {} {
      var key :| key in keys;
      var h1 := RankedFieldsFit(v, m, keys - {key}, defs, rank, n);
      var h2 := RankedFits(m[key], defs, rank, n);
      h := Max(h1, h2);
      forall k | k in keys ensures Fits(m[k], defs, h) {
        FitsMore(m[k], defs, if k == key then h2 else h1, h);
      }
    }
  }

  lemma {:induction false} RankedTargetsFit(v: Json, members: seq<Json>, defs: Json, rank: map<string, nat>, n: nat)
    returns (h: nat)
    requires WellRanked(defs, rank)
    requires forall i | 0 <= i < |members| :: RefBelow(members[i], defs, rank, n)
    ensures forall i | 0 <= i < |members| && RefTarget(defs, members[i]).Some? ::
              Fits(RefTarget(defs, members[i]).value, defs, h)
    decreases n, v, 1, |members|
  {
    h := 0;
    if members != [] {
      var h1 := RankedTargetsFit(v, members[1..], defs, rank, n);
      var h2 := 0;
      var target := RefTarget(defs, members[0]);
      if target.Some? {
        var name := RefName(AsStr(Get(members[0], "$ref")).value);
        h2 := RankedFits(target.value, defs, rank, rank[name]);
      }
      h := Max(h1, h2);
      forall i | 0 <= i < |members| && RefTarget(defs, members[i]).Some?
        ensures Fits(RefTarget(defs, members[i]).value, defs, h)
      {
        if i > 0 { assert members[i] == members[1..][i - 1]; }
        FitsMore(RefTarget(defs, members[i]).value, defs, if i == 0 then h2 else h1, h);
      }
    }
  }

  ghost predicate FieldsFit(m: Object, defs: Json, h: nat) {
    forall k | k in m :: Fits(m[k], defs, h)
  }

  lemma FieldsFitMore(m: Object, defs: Json, h: nat, h': nat)
    requires FieldsFit(m, defs, h) && h <= h'
    ensures FieldsFit(m, defs, h')
  {
    forall k | k in m ensures Fits(m[k], defs, h') {
      FitsMore(m[k], defs, h, h');
    }
  }

  lemma {:induction false} AppendFits(items: seq<Json>, extra: seq<Json>, defs: Json, h: nat)
    requires Fits(Arr(items), defs, h) && Fits(Arr(extra), defs, h)
    ensures Fits(Arr(AppendMissing(items, extra)), defs, h)
    decreases |extra|
  {
    if extra != [] {
      var items' := if extra[0] in items then items else items + [extra[0]];
      assert Fits(Arr(items'), defs, h);
      AppendFits(items', extra[1..], defs, h);
    }
  }

  lemma MergePropertiesFits(target: Object, src: Object, defs: Json, h: nat)
    requires FieldsFit(target, defs, h) && FieldsFit(src, defs, h) && h > 0
    ensures FieldsFit(MergeProperties(target, src), defs, h)
  {
    if "properties" in src && src["properties"].Obj? && FieldsOr(target, "properties").Obj? {
      var a, b := FieldsOr(target, "properties").fields, src["properties"].fields;
      assert Fits(Obj(a), defs, h) && Fits(Obj(b), defs, h);
      assert Fits(Obj(a + b), defs, h) by {
        assert Members(a + b).Some? ==> Members(a + b) == Members(if "allOf" in b then b else a);
      }
    }
  }

  lemma MergeRequiredFits(target: Object, src: Object, defs: Json, h: nat)
    requires FieldsFit(target, defs, h) && FieldsFit(src, defs, h) && h > 0
    ensures FieldsFit(MergeRequired(target, src), defs, h)
  {
    if "required" in src && src["required"].Arr? && ItemsOr(target, "required").Arr? {
      AppendFits(ItemsOr(target, "required").items, src["required"].items, defs, h);
    }
  }

  lemma MergeFits(target: Object, src: Object, defs: Json, h: nat)
    requires FieldsFit(target, defs, h) && FieldsFit(src, defs, h) && h > 0
    ensures FieldsFit(Merge(target, src), defs, h)
  {
    var t1 := MergeProperties(target, src);
    MergePropertiesFits(target, src, defs, h);
    MergeRequiredFits(t1, src, defs, h);
    var t2 := MergeRequired(t1, src);
    assert FieldsFit(MergeType(t2, src), defs, h);
  }

  /** Flattening a node never makes what is left to walk deeper than the node was. */
  lemma {:induction false} FlattenFits(node: Object, defs: Json, h: nat)
    requires Fits(Obj(node), defs, h)
    ensures Flattened(node, defs, h).Some? && FieldsFit(Flattened(node, defs, h).value, defs, h - 1)
    decreases h, 1, 0
  {
    if Members(node).Some? {
      var members := Members(node).value;
      assert Fits(node["allOf"], defs, h - 1);
      forall i | 0 <= i < |members| ensures Fits(ResolveMember(defs, members[i]), defs, h - 1) {
        FitsMore(members[i], defs, h - 2, h - 1);
      }
      MergedFits(members, defs, h - 1);
    }
  }

  lemma {:induction false} MergedFits(members: seq<Json>, defs: Json, h: nat)
    requires forall i | 0 <= i < |members| :: Fits(ResolveMember(defs, members[i]), defs, h)
    ensures MergedMembers(members, defs, h).Some? && FieldsFit(MergedMembers(members, defs, h).value, defs, h)
    decreases h, 2, |members|
  {
    if members != [] {
      var n := |members| - 1;
      MergedFits(members[..n], defs, h);
      var resolved := ResolveMember(defs, members[n]);
      if resolved.Obj? {
        FlattenFits(resolved.fields, defs, h);
        var fields := Flattened(resolved.fields, defs, h).value;
        FieldsFitMore(fields, defs, h - 1, h);
        MergeFits(MergedMembers(members[..n], defs, h).value, fields - METADATA_KEYS, defs, h);
      }
    }
  }

  lemma {:induction false} WalkEnds(v: Json, defs: Json, h: nat)
    requires Fits(v, defs, h)
    ensures Walked(v, defs, h).Some?
    decreases h
  {
    match v
    case Arr(items) =>
      forall i | 0 <= i < |items| ensures Walked(items[i], defs, h - 1).Some? {
        WalkEnds(items[i], defs, h - 1);
      }
    case Obj(m) =>
      FlattenFits(m, defs, h);
      var flat := Flattened(m, defs, h).value;
      forall k | k in flat ensures Walked(flat[k], defs, h - 1).Some? {
        WalkEnds(flat[k], defs, h - 1);
      }
    case _ =>
  }

  lemma {:induction false} RankBound(rank: map<string, nat>) returns (n: nat)
    ensures forall name | name in rank :: rank[name] < n
    decreases |rank|
  {
    n := 0;
    if rank != map[] {
      var name :| name in rank;
      var rest := rank - {name};
      assert rest.Keys == rank.Keys - {name};
      var n0 := RankBound(rest);
      n := Max(n0, rank[name] + 1);
      forall k | k in rank ensures rank[k] < n {
        if k != name { assert rest[k] == rank[k]; }
      }
    }
  }

  lemma {:induction false} RefsBelowTop(v: Json, defs: Json, rank: map<string, nat>, n: nat)
    requires WellRanked(defs, rank) && forall name | name in rank :: rank[name] < n
    ensures RefsBelow(v, defs, rank, n)
  {
    match v
    case Arr(items) =>
      forall i | 0 <= i < |items| ensures RefsBelow(items[i], defs, rank, n) {
        RefsBelowTop(items[i], defs, rank, n);
      }
    case Obj(m) =>
      forall k | k in m ensures RefsBelow(m[k], defs, rank, n) {
        RefsBelowTop(m[k], defs, rank, n);
      }
    case _ =>
  }

  /** Although it re-enters what it clones, the rewrite ends on every schema whose
      definitions can be ranked so that references in intersections only go down. */
  lemma RankedSchemasEnd(schema: Json, rank: map<string, nat>)
    requires WellRanked(Definitions(schema), rank)
    ensures exists depth :: FlattenedAllOf(schema, depth).Some?
  {
    var defs := Definitions(schema);
    var n := RankBound(rank);
    RefsBelowTop(schema, defs, rank, n);
    var h := RankedFits(schema, defs, rank, n);
    WalkEnds(schema, defs, h);
    assert FlattenedAllOf(schema, h).Some?;
  }

  // ---- the depth allowed does not show in the result ---------------------------------------------------

  lemma {:induction false} FlattenedMore(node: Object, defs: Json, depth: nat, depth': nat)
    requires depth <= depth' && Flattened(node, defs, depth).Some?
    ensures Flattened(node, defs, depth') == Flattened(node, defs, depth)
    decreases depth, 1, 0
  {
    if Members(node).Some? {
      MergedMore(Members(node).value, defs, depth - 1, depth' - 1);
    }
  }

  lemma {:induction false} MergedMore(members: seq<Json>, defs: Json, depth: nat, depth': nat)
    requires depth <= depth' && MergedMembers(members, defs, depth).Some?
    ensures MergedMembers(members, defs, depth') == MergedMembers(members, defs, depth)
    decreases depth, 2, |members|
  {
    if members != [] {
      var n := |members| - 1;
      MergedMore(members[..n], defs, depth, depth');
      var resolved := ResolveMember(defs, members[n]);
      if resolved.Obj? {
        FlattenedMore(resolved.fields, defs, depth, depth');
      }
    }
  }

  /** A deeper recursion allowance never changes the result once there is one. */
  lemma {:induction false} WalkedMore(v: Json, defs: Json, depth: nat, depth': nat)
    requires depth <= depth' && Walked(v, defs, depth).Some?
    ensures Walked(v, defs, depth') == Walked(v, defs, depth)
    decreases depth, 1
  {
    match v
    case Arr(items) =>
      var d, d': nat := depth - 1, depth' - 1;
      ItemsMore(items, defs, d, d');
      ArrayUnfolds(items, defs, d, depth);
      ArrayUnfolds(items, defs, d', depth');
    case Obj(m) =>
      var flat := Flattened(m, defs, depth).value;
      var d, d': nat := depth - 1, depth' - 1;
      FlattenedMore(m, defs, depth, depth');
      FieldsMore(flat, defs, d, d');
      ObjectUnfolds(m, flat, defs, d, depth);
      ObjectUnfolds(m, flat, defs, d', depth');
    case _ =>
  }

  lemma ArrayUnfolds(items: seq<Json>, defs: Json, d: nat, depth: nat)
    requires depth == d + 1
    ensures Walked(Arr(items), defs, depth) ==
            match WalkedItems(items, defs, d) case None => None case Some(done) => Some(Arr(done))
  {
  }

  lemma ObjectUnfolds(m: Object, flat: Object, defs: Json, d: nat, depth: nat)
    requires depth == d + 1 && Flattened(m, defs, depth) == Some(flat)
    ensures Walked(Obj(m), defs, depth) ==
            match WalkedFields(flat, defs, d) case None => None case Some(done) => Some(Obj(done))
  {
  }

  lemma {:induction false} ItemsMore(items: seq<Json>, defs: Json, depth: nat, depth': nat)
    requires depth <= depth' && WalkedItems(items, defs, depth).Some?
    ensures WalkedItems(items, defs, depth') == WalkedItems(items, defs, depth)
    decreases depth, 2
  {
    forall i | 0 <= i < |items| ensures Walked(items[i], defs, depth') == Walked(items[i], defs, depth) {
      WalkedMore(items[i], defs, depth, depth');
    }
    assert WalkedItems(items, defs, depth').value == WalkedItems(items, defs, depth).value;
  }

  lemma {:induction false} FieldsMore(m: Object, defs: Json, depth: nat, depth': nat)
    requires depth <= depth' && WalkedFields(m, defs, depth).Some?
    ensures WalkedFields(m, defs, depth') == WalkedFields(m, defs, depth)
    decreases depth, 2
  {
    forall k | k in m ensures Walked(m[k], defs, depth') == Walked(m[k], defs, depth) {
      WalkedMore(m[k], defs, depth, depth');
    }
    assert WalkedFields(m, defs, depth').value == WalkedFields(m, defs, depth).value;
  }

  // ---- and when it does not end -----------------------------------------------------------------------

  /** Definition `name` intersects with some definition in `cycle`. */
  ghost predicate LeadsInto(defs: Json, name: string, cycle: set<string>)
    requires defs.Obj? && name in defs.fields
  {
    && defs.fields[name].Obj?
    && Members(defs.fields[name].fields).Some?
    && exists i | 0 <= i < |Members(defs.fields[name].fields).value| ::
         RefersInto(Members(defs.fields[name].fields).value[i], cycle)
  }

  ghost predicate IntersectionCycle(defs: Json, cycle: set<string>) {
    && defs.Obj? && cycle <= defs.fields.Keys
    && forall name {:trigger LeadsInto(defs, name, cycle)} | name in cycle :: LeadsInto(defs, name, cycle)
  }

  ghost predicate RefersInto(member: Json, cycle: set<string>) {
    AsStr(Get(member, "$ref")).Some? && RefName(AsStr(Get(member, "$ref")).value) in cycle
  }

  lemma MemberStops(members: seq<Json>, i: nat, defs: Json, depth: nat)
    requires i < |members|
    requires var r := ResolveMember(defs, members[i]); r.Obj? && Flattened(r.fields, defs, depth).None?
    ensures MergedMembers(members, defs, depth).None?
  {
    assert members[..i + 1][..i] == members[..i];
    PrefixFails(members, i + 1, defs, depth);
  }

  /** A member of a definition in the cycle that leads back into it. */
  lemma CycleStep(defs: Json, cycle: set<string>, name: string) returns (i: nat, next: string)
    requires IntersectionCycle(defs, cycle) && name in cycle
    ensures defs.Obj? && name in defs.fields && defs.fields[name].Obj? && Members(defs.fields[name].fields).Some?
    ensures i < |Members(defs.fields[name].fields).value|
    ensures next in cycle && next in defs.fields && defs.fields[next].Obj?
    ensures ResolveMember(defs, Members(defs.fields[name].fields).value[i]) == defs.fields[next]
  {
    assert LeadsInto(defs, name, cycle);
    var members := Members(defs.fields[name].fields).value;
    i :| 0 <= i < |members| && RefersInto(members[i], cycle);
    next := RefName(AsStr(Get(members[i], "$ref")).value);
    assert LeadsInto(defs, next, cycle);
  }

  lemma {:induction false} CycleDiverges(defs: Json, cycle: set<string>, name: string, depth: nat)
    requires IntersectionCycle(defs, cycle) && name in cycle
    ensures defs.fields[name].Obj? && Flattened(defs.fields[name].fields, defs, depth).None?
    decreases depth
  {
    var i, next := CycleStep(defs, cycle, name);
    if depth > 0 {
      CycleDiverges(defs, cycle, next, depth - 1);
      MemberStops(Members(defs.fields[name].fields).value, i, defs, depth - 1);
    }
  }
}
