/** When the rewrite ends. What it clones it walks again, so a schema that leads back
    to itself through anything the rewrite keeps sends it round for ever. */
module FlattenTermination {
  import opened Wrappers
  import opened Json
  import opened FlattenAllOf
  import opened PlainSchemas
  import opened FlattenMeaning
  import opened FlattenDocument

  // ---- circles the rewrite cannot leave, in any schema ---------------------------------------

  /** The walk of a flattened node comes to `u`. */
  ghost predicate Carries(flat: Object, u: Json) {
    || (exists key :: key in flat && flat[key] == u)
    || (Members(Props(flat)).None? && exists p :: p in Props(flat) && Props(flat)[p] == u)
  }

  /** Whenever `v` flattens at all, what the walk comes to next includes `u`. */
  ghost predicate Feeds(defs: Json, v: Json, u: Json) {
    v.Obj? && forall depth: nat | Flattened(v.fields, defs, depth).Some? :: Carries(Flattened(v.fields, defs, depth).value, u)
  }

  ghost predicate IsFeedingCircle(defs: Json, circle: set<Json>) {
    forall v | v in circle :: FeedsInto(defs, v, circle)
  }

  ghost predicate FeedsInto(defs: Json, v: Json, circle: set<Json>) {
    exists u :: u in circle && Feeds(defs, v, u)
  }

  lemma ChildIsWalked(m: Object, defs: Json, depth: nat, key: string)
    requires Walked(Obj(m), defs, depth).Some? && Flattened(m, defs, depth).Some? && key in Flattened(m, defs, depth).value
    ensures depth > 0 && Walked(Flattened(m, defs, depth).value[key], defs, depth - 1).Some?
  {
  }

  lemma PropertyIsWalked(m: Object, defs: Json, depth: nat, flat: Object, p: string)
    requires Walked(Obj(m), defs, depth).Some? && Flattened(m, defs, depth) == Some(flat)
    requires Members(Props(flat)).None? && p in Props(flat)
    ensures depth >= 2 && Walked(Props(flat)[p], defs, depth - 2).Some?
  {
    ChildIsWalked(m, defs, depth, "properties");
    WalkOfProps(flat, defs, depth - 1);
  }

  /** What a finished walk came to, it finished too. */
  lemma CarriedIsWalked(m: Object, defs: Json, depth: nat, flat: Object, u: Json) returns (d: nat)
    requires Walked(Obj(m), defs, depth).Some? && Flattened(m, defs, depth) == Some(flat) && Carries(flat, u)
    ensures d < depth && Walked(u, defs, d).Some?
  {
    if key :| key in flat && flat[key] == u {
      ChildIsWalked(m, defs, depth, key);
      d := depth - 1;
    } else {
      var p :| p in Props(flat) && Props(flat)[p] == u;
      PropertyIsWalked(m, defs, depth, flat, p);
      d := depth - 2;
    }
  }

  lemma WalkedFlattens(m: Object, defs: Json, depth: nat) returns (flat: Object)
    requires Walked(Obj(m), defs, depth).Some?
    ensures Flattened(m, defs, depth) == Some(flat)
  {
    flat := Flattened(m, defs, depth).value;
  }

  lemma FedIsWalked(defs: Json, v: Json, u: Json, depth: nat) returns (d: nat)
    requires Feeds(defs, v, u) && Walked(v, defs, depth).Some?
    ensures d < depth && Walked(u, defs, d).Some?
  {
    var flat := WalkedFlattens(v.fields, defs, depth);
    assert Carries(Flattened(v.fields, defs, depth).value, u);
    d := CarriedIsWalked(v.fields, defs, depth, flat, u);
  }

  lemma NextInCircle(defs: Json, circle: set<Json>, v: Json) returns (u: Json)
    requires IsFeedingCircle(defs, circle) && v in circle
    ensures u in circle && Feeds(defs, v, u)
  {
    assert FeedsInto(defs, v, circle);
    u :| u in circle && Feeds(defs, v, u);
  }

  lemma {:induction false} CircleDiverges(defs: Json, circle: set<Json>, v: Json, depth: nat)
    requires IsFeedingCircle(defs, circle) && v in circle
    ensures Walked(v, defs, depth).None?
    decreases depth
  {
    if Walked(v, defs, depth).Some? {
      var u := NextInCircle(defs, circle, v);
      var d := FedIsWalked(defs, v, u, depth);
      CircleDiverges(defs, circle, u, d);
    }
  }

  /** So a document with a definition in such a circle never ends. */
  lemma CircularDocumentsNeverEnd(schema: Json, container: string, name: string, circle: set<Json>, depth: nat)
    requires container in {"$defs", "definitions"} && EntryOf(schema, container, name).Some?
    requires Members(Get(schema, container).value.fields).None?
    requires IsFeedingCircle(Definitions(schema), circle) && EntryOf(schema, container, name).value in circle
    ensures FlattenedAllOf(schema, depth).None?
  {
    if FlattenedAllOf(schema, depth).Some? {
      EntryIsWalked(schema, container, name, depth);
      var v := EntryOf(schema, container, name).value;
      var v' := EntryOf(FlattenedAllOf(schema, depth).value, container, name).value;
      var d: nat :| Walked(v, Definitions(schema), d) == Some(v');
      CircleDiverges(Definitions(schema), circle, v, d);
    }
  }

  /** Definitions that intersect with one another in a circle, under either container. */
  lemma CyclicSchemasNeverEnd(schema: Json, cycle: set<string>, depth: nat)
    requires IntersectionCycle(Definitions(schema), cycle) && cycle != {} && Members(Definitions(schema).fields).None?
    ensures FlattenedAllOf(schema, depth).None?
  {
    var defs := Definitions(schema);
    var name :| name in cycle;
    var v := defs.fields[name];
    assert LeadsInto(defs, name, cycle);
    forall d: nat ensures Flattened(v.fields, defs, d).None? {
      CycleDiverges(defs, cycle, name, d);
    }
    assert Feeds(defs, v, v) && v in {v};
    assert FeedsInto(defs, v, {v});
    CircularDocumentsNeverEnd(schema, Container(schema), name, {v}, depth);
  }

  /** The ordinary recursive type: a property that is an intersection with the very
      definition it belongs to. */
  lemma RecursivePropertyNeverEnds(schema: Json, name: string, a: Object, p: string, m: Object, depth: nat)
    requires Definitions(schema).Obj? && Members(Definitions(schema).fields).None?
    requires EntryOf(schema, Container(schema), name) == Some(Obj(a)) && Shaped(a) && Members(a).None? && Members(Props(a)).None?
    requires RefTarget(Definitions(schema), Obj(m)) == Some(Obj(a))
    requires p in Props(a) && Props(a)[p] == Obj(map["allOf" := Arr([Obj(m)])])
    ensures FlattenedAllOf(schema, depth).None?
  {
    var defs := Definitions(schema);
    var node: Object := map["allOf" := Arr([Obj(m)])];
    var circle := {Obj(node), Obj(a)};
    forall d: nat | Flattened(node, defs, d).Some? ensures Carries(Flattened(node, defs, d).value, Obj(node)) {
      var flat := Flattened(node, defs, d).value;
      assert [Obj(m)][..0] == [];
      assert MergedMembers([], defs, d - 1) == Some(map[]);
      assert ResolveMember(defs, Obj(m)) == Obj(a) && Flattened(a, defs, d - 1) == Some(a);
      assert MergedOne(map[], Obj(m), defs, d - 1) == Some(Merge(map[], a - METADATA_KEYS));
      assert MergedMembers([Obj(m)], defs, d - 1) == Some(Merge(map[], a - METADATA_KEYS));
      MergeFields(map[], a);
      assert flat == Merge(map[], a - METADATA_KEYS) + (node - {"allOf"});
      assert Props(flat) == Props(a);
    }
    assert Feeds(defs, Obj(node), Obj(node)) && FeedsInto(defs, Obj(node), circle);
    forall d: nat | Flattened(a, defs, d).Some? ensures Carries(Flattened(a, defs, d).value, Obj(node)) {
    }
    assert Feeds(defs, Obj(a), Obj(node)) && FeedsInto(defs, Obj(a), circle);
    CircularDocumentsNeverEnd(schema, Container(schema), name, circle, depth);
  }

  // ---- documents in which nothing is dropped ----------------------------------------------------

  /** Schemas whose intersections lose nothing: every node is guarded, references stand
      alone, and other keywords hold no intersections. */
  ghost predicate IsWhole(root: Json, v: Json)
    decreases v, 0
  {
    if IsStructural(v) then
      && (forall key | key in v.fields && key != "properties" && key != "allOf" :: IntersectionFree(v.fields[key]))
      && ("properties" in v.fields ==>
            forall p | p in v.fields["properties"].fields :: IsWhole(root, v.fields["properties"].fields[p]))
      && ("allOf" in v.fields ==>
            forall i | 0 <= i < |v.fields["allOf"].items| :: IsWholeMember(root, v.fields["allOf"].items[i]))
      && AlwaysGuarded(root, v.fields)
    else !v.Arr? && IntersectionFree(v)
  }

  /** However far its references are followed, the node is guarded. */
  ghost predicate AlwaysGuarded(root: Json, m: Object) {
    forall k: nat :: Guarded(root, m, k)
  }

  ghost predicate IsWholeMember(root: Json, v: Json)
    decreases v, 1
  {
    && IsStructural(v) && IsWhole(root, v)
    && ("$ref" in v.fields ==>
          && v.fields.Keys <= {"$ref"} + METADATA_KEYS
          && RefOk(root, v.fields)
          && "$ref" !in Target(root, v.fields["$ref"].s).value.fields)
  }

  ghost predicate IsWholeDocument(root: Json) {
    && IsDocument(root)
    && (Definitions(root).Obj? ==>
          forall name | name in Definitions(root).fields :: IsWhole(root, Definitions(root).fields[name]))
    && forall reference :: Target(root, reference).Some? ==>
         IsSchema(root, Target(root, reference).value) && IsWhole(root, Target(root, reference).value)
  }

  lemma WholeMembers(root: Json, m: Object)
    requires IsStructural(Obj(m)) && IsSchema(root, Obj(m)) && IsWhole(root, Obj(m)) && Members(m).Some?
    ensures forall i | 0 <= i < |Members(m).value| ::
              IsMember(root, Members(m).value[i]) && IsWholeMember(root, Members(m).value[i])
  {
    MembersOf(root, m);
  }

  lemma WholeKeeps(root: Json, m: Object, depth: nat, k: nat)
    requires IsWholeDocument(root) && IsStructural(Obj(m)) && IsSchema(root, Obj(m)) && IsWhole(root, Obj(m))
    requires k >= 2 * depth && Flattened(m, Definitions(root), depth).Some?
    ensures KeepsAll(Flattened(m, Definitions(root), depth).value, NodePieces(root, m, k))
  {
    GuardDecides(root, m, depth, k);
  }

  lemma {:induction false} WholeIsLossless(root: Json, v: Json)
    requires IsWholeDocument(root) && IsSchema(root, v) && IsWhole(root, v)
    ensures IsLossless(root, v)
    decreases v
  {
    if IsStructural(v) {
      WholeBelow(root, v);
    }
  }

  lemma {:induction false} WholeBelow(root: Json, v: Json)
    requires IsWholeDocument(root) && IsSchema(root, v) && IsWhole(root, v)
    ensures LosslessBelow(root, v)
    decreases v, 0
  {
    if IsStructural(v) {
      if "properties" in v.fields {
        forall p | p in v.fields["properties"].fields ensures IsLossless(root, v.fields["properties"].fields[p]) {
          WholeIsLossless(root, v.fields["properties"].fields[p]);
        }
      }
      if "allOf" in v.fields {
        forall i | 0 <= i < |v.fields["allOf"].items| ensures LosslessBelow(root, v.fields["allOf"].items[i]) {
          assert IsMember(root, v.fields["allOf"].items[i]) && IsWholeMember(root, v.fields["allOf"].items[i]);
          WholeBelow(root, v.fields["allOf"].items[i]);
        }
      }
    }
  }

  /** A document in which nothing is dropped loses no constraint. */
  lemma WholeDocumentIsLossless(root: Json)
    requires IsWholeDocument(root)
    ensures IsLosslessDocument(root)
  {
    forall reference | Target(root, reference).Some? ensures IsLossless(root, Target(root, reference).value) {
      WholeIsLossless(root, Target(root, reference).value);
    }
  }

  /** So where the rewrite of such a document ends, every definition keeps its verdicts. */
  lemma WholeDocumentsPreserved(schema: Json, depth: nat, reference: string, inst: Json, n: nat, atom: Judge)
    requires IsWholeDocument(schema) && FlattenedAllOf(schema, depth).Some? && Target(schema, reference).Some?
    ensures var schema' := FlattenedAllOf(schema, depth).value;
            && Target(schema', reference).Some?
            && SameVerdict(schema, Target(schema, reference).value, schema', Target(schema', reference).value, inst, n, atom)
  {
    WholeDocumentIsLossless(schema);
    DocumentPreserved(schema, depth, reference, inst, n, atom);
  }

  // ---- the rank a finished rewrite gives ---------------------------------------------------------

  /** What matters of a finished walk: the node flattened, and the properties walked. */
  ghost predicate Ends(defs: Json, v: Json, depth: nat) {
    IsStructural(v) ==>
      && Flattened(v.fields, defs, depth).Some?
      && forall p | p in Props(Flattened(v.fields, defs, depth).value) ::
           depth >= 2 && Walked(Props(Flattened(v.fields, defs, depth).value)[p], defs, depth - 2).Some?
  }

  ghost predicate FlatEnds(defs: Json, v: Json, depth: nat) { v.Obj? ==> Flattened(v.fields, defs, depth).Some? }

  lemma PiecesSchemas(root: Json, m: Object, k: nat)
    requires IsWholeDocument(root) && IsStructural(Obj(m)) && IsSchema(root, Obj(m)) && IsWhole(root, Obj(m))
    ensures PropsOk(root, NodePieces(root, m, k))
  {
    WholeDocumentIsLossless(root);
    WholeBelow(root, Obj(m));
    var ls := NodePropsOk(root, Obj(m), k);
  }

  lemma WalkedEnds(root: Json, v: Json, depth: nat)
    requires IsWholeDocument(root) && IsSchema(root, v) && IsWhole(root, v) && Walked(v, Definitions(root), depth).Some?
    ensures Ends(Definitions(root), v, depth)
  {
    if IsStructural(v) {
      var defs := Definitions(root);
      var flat := Flattened(v.fields, defs, depth).value;
      FlatFrom(root, v.fields, depth, 2 * depth);
      PiecesSchemas(root, v.fields, 2 * depth);
      FlatProps(root, flat, NodePieces(root, v.fields, 2 * depth), Null, (s, i) => true);
      PropsNotAllOf(root, flat);
      WalkOfMerged(v.fields, flat, defs, depth);
      WalkOfFlat(flat, defs, depth);
    }
  }

  lemma MergedMember(root: Json, m: Object, i: nat, depth: nat) returns (r: Json)
    requires IsDocument(root) && IsStructural(Obj(m)) && IsSchema(root, Obj(m))
    requires Members(m).Some? && i < |Members(m).value| && Flattened(m, Definitions(root), depth).Some?
    ensures depth > 0 && r == ResolveMember(Definitions(root), Members(m).value[i]) && IsMember(root, r)
    ensures Flattened(r.fields, Definitions(root), depth - 1).Some?
    ensures From(Flattened(r.fields, Definitions(root), depth - 1).value, MemberPieces(root, Members(m).value[i], 2 * depth - 1))
  {
    MembersOf(root, m);
    r := ResolvedMember(root, Members(m).value[i]);
    var d, k: nat := depth - 1, 2 * depth - 1;
    var members := Members(m).value;
    MemberResolved(root, members, d, i);
    MemberFrom(root, members[i], r, d, k);
  }

  /** What a member is merged as has no properties but those of the flattened node. */
  lemma MemberWithinFlat(root: Json, m: Object, i: nat, depth: nat, flat: Object) returns (r: Json)
    requires IsWholeDocument(root) && IsStructural(Obj(m)) && IsSchema(root, Obj(m)) && IsWhole(root, Obj(m))
    requires Members(m).Some? && i < |Members(m).value| && Flattened(m, Definitions(root), depth) == Some(flat)
    ensures depth > 0 && r == ResolveMember(Definitions(root), Members(m).value[i]) && IsStructural(r)
    ensures Flattened(r.fields, Definitions(root), depth - 1).Some?
    ensures PropsAmong(Flattened(r.fields, Definitions(root), depth - 1).value, flat)
  {
    r := MergedMember(root, m, i, depth);
    WholeKeeps(root, m, depth, 2 * depth);
    MemberWithinAll(root, Members(m).value, i, 2 * depth - 1);
    AllWithinNode(root, m, 2 * depth);
    PropsWithin(flat, Flattened(r.fields, Definitions(root), depth - 1).value,
                MemberPieces(root, Members(m).value[i], 2 * depth - 1), NodePieces(root, m, 2 * depth));
  }

  ghost predicate PropsAmong(f: Object, flat: Object) {
    forall p | p in Props(f) :: p in Props(flat) && Props(flat)[p] == Props(f)[p]
  }

  lemma AllWithinNode(root: Json, m: Object, k: nat)
    requires Members(m).Some? && k > 0
    ensures forall o | o in AllPieces(root, Members(m).value, k - 1) :: o in NodePieces(root, m, k)
  {
    assert BelowPieces(root, m, k) == AllPieces(root, Members(m).value, k - 1);
  }

  /** What a node refers to or contains in place ends as early. */
  lemma MemberEnds(root: Json, m: Object, i: nat, depth: nat) returns (r: Json)
    requires IsWholeDocument(root) && IsStructural(Obj(m)) && IsSchema(root, Obj(m)) && IsWhole(root, Obj(m))
    requires Members(m).Some? && i < |Members(m).value| && Ends(Definitions(root), Obj(m), depth)
    ensures depth > 0 && r == ResolveMember(Definitions(root), Members(m).value[i]) && IsStructural(r)
    ensures Ends(Definitions(root), r, depth)
  {
    r := MemberWithinFlat(root, m, i, depth, Flattened(m, Definitions(root), depth).value);
    FlattenedMore(r.fields, Definitions(root), depth - 1, depth);
  }

  lemma {:induction false} MemberWithinAll(root: Json, members: seq<Json>, i: nat, k: nat)
    requires i < |members|
    ensures forall o | o in MemberPieces(root, members[i], k) :: o in AllPieces(root, members, k)
    decreases |members|
  {
    var n := |members| - 1;
    if i < n {
      MemberWithinAll(root, members[..n], i, k);
    }
  }

  lemma PropsWithin(flat: Object, f: Object, ls: seq<Object>, more: seq<Object>)
    requires From(f, ls) && KeepsAll(flat, more) && forall o | o in ls :: o in more
    ensures PropsAmong(f, flat)
  {
    forall p | p in Props(f) ensures p in Props(flat) && Props(flat)[p] == Props(f)[p] {
      assert SaysProperty(ls, p, Props(f)[p]);
      var o :| o in ls && p in Props(o) && Props(o)[p] == Props(f)[p];
      assert Keeps(flat, o);
    }
  }

  /** A node's own properties end earlier. */
  lemma PropertyEnds(root: Json, m: Object, p: string, depth: nat)
    requires IsWholeDocument(root) && IsStructural(Obj(m)) && IsSchema(root, Obj(m)) && IsWhole(root, Obj(m))
    requires p in Props(m) && Ends(Definitions(root), Obj(m), depth)
    ensures depth >= 2 && Ends(Definitions(root), Props(m)[p], depth - 2)
  {
    WholeKeeps(root, m, depth, 2 * depth);
    var flat := Flattened(m, Definitions(root), depth).value;
    assert m in NodePieces(root, m, 2 * depth);
    assert Keeps(flat, m);
    WalkedEnds(root, Props(m)[p], depth - 2);
  }

  /** The least number up to `top` with a property that `top` has. */
  ghost function Least(has: nat -> bool, from: nat, top: nat): (r: nat)
    requires from <= top && has(top)
    ensures from <= r <= top && has(r)
    ensures forall j | from <= j < r :: !has(j)
    decreases top - from
  {
    if has(from) then from else Least(has, from + 1, top)
  }

  ghost predicate AllEnd(defs: Json, top: nat) {
    defs.Obj? ==>
      forall name | name in defs.fields :: Ends(defs, defs.fields[name], top) && FlatEnds(defs, defs.fields[name], top)
  }

  /** How deep a walk a definition needs, and how deep a flattening. */
  ghost function WalkDepth(defs: Json, v: Json, top: nat): (r: nat)
    requires Ends(defs, v, top)
    ensures r <= top && Ends(defs, v, r)
    ensures forall d: nat | d <= top && Ends(defs, v, d) :: r <= d
  {
    var has := (d: nat) => Ends(defs, v, d);
    var r := Least(has, 0, top);
    assert forall d: nat | Ends(defs, v, d) :: has(d);
    r
  }

  ghost function FlatDepth(defs: Json, v: Json, top: nat): (r: nat)
    requires FlatEnds(defs, v, top)
    ensures r <= top && FlatEnds(defs, v, r)
    ensures forall d: nat | d <= top && FlatEnds(defs, v, d) :: r <= d
  {
    var has := (d: nat) => FlatEnds(defs, v, d);
    var r := Least(has, 0, top);
    assert forall d: nat | FlatEnds(defs, v, d) :: has(d);
    r
  }

  /** First by the depth of the walk, then by that of the flattening. */
  ghost function RankAt(walk: nat, flat: nat, top: nat): nat { walk * (top + 1) + flat }

  ghost function RankOf(defs: Json, top: nat): map<string, nat>
    requires defs.Obj? && AllEnd(defs, top)
  {
    map name | name in defs.fields ::
      RankAt(WalkDepth(defs, defs.fields[name], top), FlatDepth(defs, defs.fields[name], top), top)
  }

  lemma RankRises(walk: nat, flat: nat, walk': nat, flat': nat, top: nat)
    requires walk <= walk' && flat < flat' && flat <= top
    ensures RankAt(walk, flat, top) < RankAt(walk', flat', top)
  {
    assert walk * (top + 1) <= walk' * (top + 1);
  }

  lemma RankDrops(walk: nat, flat: nat, top: nat)
    requires 2 <= walk <= top
    ensures RankAt(walk - 2, walk - 2, top) <= RankAt(walk, flat, top)
  {
    assert walk * (top + 1) == (walk - 2) * (top + 1) + 2 * (top + 1);
  }

  lemma {:induction false} NoneBelow(v: Json, defs: Json, rank: map<string, nat>, n: nat)
    requires IntersectionFree(v)
    ensures RefsBelow(v, defs, rank, n)
  {
    match v
    case Arr(items) =>
      forall i | 0 <= i < |items| ensures RefsBelow(items[i], defs, rank, n) {
        NoneBelow(items[i], defs, rank, n);
      }
    case Obj(m) =>
      forall k | k in m ensures RefsBelow(m[k], defs, rank, n) {
        NoneBelow(m[k], defs, rank, n);
      }
    case _ =>
  }

  /** A schema that ends at `depth`, its flattening at `flat`, refers in its intersections
      only to definitions of lower rank. */
  lemma {:induction false} RefsAreBelow(root: Json, v: Json, top: nat, depth: nat, flat: nat, n: nat)
    requires IsWholeDocument(root) && IsSchema(root, v) && IsWhole(root, v)
    requires Definitions(root).Obj? && AllEnd(Definitions(root), top)
    requires Ends(Definitions(root), v, depth) && FlatEnds(Definitions(root), v, flat) && depth <= top && flat <= top
    requires RankAt(depth, flat, top) <= n
    ensures RefsBelow(v, Definitions(root), RankOf(Definitions(root), top), n)
    decreases v, 1
  {
    var defs := Definitions(root);
    var rank := RankOf(defs, top);
    if IsStructural(v) {
      var m := v.fields;
      if "properties" in m { PropertiesAreBelow(root, v, top, depth, flat, n); }
      if "allOf" in m { MembersAreBelow(root, v, top, depth, flat, n); }
      forall key | key in m && key != "properties" && key != "allOf" ensures RefsBelow(m[key], defs, rank, n) {
        NoneBelow(m[key], defs, rank, n);
      }
    } else {
      NoneBelow(v, defs, rank, n);
    }
  }

  lemma ObjectIsBelow(m: Object, defs: Json, rank: map<string, nat>, n: nat)
    requires Members(m).None? && forall key | key in m :: RefsBelow(m[key], defs, rank, n)
    ensures RefsBelow(Obj(m), defs, rank, n)
  {
  }

  lemma NoPropertyIntersects(root: Json, v: Json)
    requires IsStructural(v) && IsSchema(root, v) && "properties" in v.fields
    ensures Members(v.fields["properties"].fields).None?
  {
  }

  lemma {:induction false} PropertiesAreBelow(root: Json, v: Json, top: nat, depth: nat, flat: nat, n: nat)
    requires IsWholeDocument(root) && IsStructural(v) && IsSchema(root, v) && IsWhole(root, v) && "properties" in v.fields
    requires Definitions(root).Obj? && AllEnd(Definitions(root), top)
    requires Ends(Definitions(root), v, depth) && depth <= top && RankAt(depth, flat, top) <= n
    ensures RefsBelow(v.fields["properties"], Definitions(root), RankOf(Definitions(root), top), n)
    decreases v, 0
  {
    var ps := v.fields["properties"].fields;
    var defs := Definitions(root);
    var rank := RankOf(defs, top);
    forall p | p in ps ensures RefsBelow(ps[p], defs, rank, n) {
      var d := OnePropertyEnds(root, v, p, top, depth, flat, n);
      RefsAreBelow(root, ps[p], top, d, d, n);
    }
    NoPropertyIntersects(root, v);
    ObjectIsBelow(ps, defs, rank, n);
  }

  lemma OnePropertyEnds(root: Json, v: Json, p: string, top: nat, depth: nat, flat: nat, n: nat) returns (d: nat)
    requires IsWholeDocument(root) && IsStructural(v) && IsSchema(root, v) && IsWhole(root, v)
    requires "properties" in v.fields && p in v.fields["properties"].fields
    requires Ends(Definitions(root), v, depth) && depth <= top && RankAt(depth, flat, top) <= n
    ensures d <= top && d + 2 == depth && RankAt(d, d, top) <= n
    ensures var s := v.fields["properties"].fields[p];
            && IsSchema(root, s) && IsWhole(root, s)
            && Ends(Definitions(root), s, d) && FlatEnds(Definitions(root), s, d)
  {
    PropertyEnds(root, v.fields, p, depth);
    d := depth - 2;
    EndsIsFlat(Definitions(root), root, v.fields["properties"].fields[p], d);
    RankDrops(depth, flat, top);
  }

  lemma EndsIsFlat(defs: Json, root: Json, v: Json, depth: nat)
    requires IsSchema(root, v) && Ends(defs, v, depth)
    ensures FlatEnds(defs, v, depth)
  {
    if v.Obj? && !IsStructural(v) {
      assert Members(v.fields).None?;
    }
  }

  lemma {:induction false} MembersAreBelow(root: Json, v: Json, top: nat, depth: nat, flat: nat, n: nat)
    requires IsWholeDocument(root) && IsStructural(v) && IsSchema(root, v) && IsWhole(root, v) && "allOf" in v.fields
    requires Definitions(root).Obj? && AllEnd(Definitions(root), top)
    requires Ends(Definitions(root), v, depth) && FlatEnds(Definitions(root), v, flat) && depth <= top && flat <= top
    requires RankAt(depth, flat, top) <= n
    ensures RefsBelow(v.fields["allOf"], Definitions(root), RankOf(Definitions(root), top), n)
    ensures forall i | 0 <= i < |v.fields["allOf"].items| ::
              RefBelow(v.fields["allOf"].items[i], Definitions(root), RankOf(Definitions(root), top), n)
    decreases v, 0
  {
    var defs, items := Definitions(root), v.fields["allOf"].items;
    var rank := RankOf(defs, top);
    WholeMembers(root, v.fields);
    forall i | 0 <= i < |items| ensures RefsBelow(items[i], defs, rank, n) && RefBelow(items[i], defs, rank, n) {
      var u := items[i];
      var below := MemberDepths(root, v.fields, i, u, depth, flat);
      if "$ref" in u.fields {
        ReferenceIsBelow(root, u, top, depth, below, flat, n);
      } else {
        RankRises(depth, below, depth, flat, top);
        assert RefTarget(defs, u).None?;
        RefsAreBelow(root, u, top, depth, below, n);
      }
    }
  }

  /** How deep what a member stands for ends. */
  lemma MemberDepths(root: Json, m: Object, i: nat, u: Json, depth: nat, flat: nat) returns (below: nat)
    requires IsWholeDocument(root) && IsStructural(Obj(m)) && IsSchema(root, Obj(m)) && IsWhole(root, Obj(m))
    requires Members(m).Some? && i < |Members(m).value| && u == Members(m).value[i]
    requires Ends(Definitions(root), Obj(m), depth) && FlatEnds(Definitions(root), Obj(m), flat)
    ensures flat == below + 1
    ensures Ends(Definitions(root), ResolveMember(Definitions(root), u), depth)
    ensures FlatEnds(Definitions(root), ResolveMember(Definitions(root), u), below)
  {
    var r := MemberEnds(root, m, i, depth);
    var r' := MemberWithinFlat(root, m, i, flat, Flattened(m, Definitions(root), flat).value);
    below := flat - 1;
  }

  lemma ReferenceNames(root: Json, u: Json) returns (name: string)
    requires IsDocument(root) && IsMember(root, u) && "$ref" in u.fields && Definitions(root).Obj?
    ensures name == RefName(AsStr(Get(u, "$ref")).value) && name in Definitions(root).fields
    ensures RefTarget(Definitions(root), u) == Some(Definitions(root).fields[name])
    ensures ResolveMember(Definitions(root), u) == Definitions(root).fields[name]
  {
    TargetIsMember(root, u.fields);
    name := RefName(u.fields["$ref"].s);
  }

  lemma BareReferenceIsFree(root: Json, u: Json)
    requires IsWholeMember(root, u) && "$ref" in u.fields
    ensures IntersectionFree(u)
  {
  }

  lemma ReferenceIsBelow(root: Json, u: Json, top: nat, depth: nat, below: nat, flat: nat, n: nat)
    requires IsDocument(root) && IsMember(root, u) && IsWholeMember(root, u) && "$ref" in u.fields
    requires Definitions(root).Obj? && AllEnd(Definitions(root), top) && flat == below + 1 && flat <= top && depth <= top
    requires RankAt(depth, flat, top) <= n
    requires Ends(Definitions(root), ResolveMember(Definitions(root), u), depth)
    requires FlatEnds(Definitions(root), ResolveMember(Definitions(root), u), below)
    ensures RefsBelow(u, Definitions(root), RankOf(Definitions(root), top), n)
    ensures RefBelow(u, Definitions(root), RankOf(Definitions(root), top), n)
  {
    var defs := Definitions(root);
    var name := ReferenceNames(root, u);
    RankRises(WalkDepth(defs, defs.fields[name], top), FlatDepth(defs, defs.fields[name], top), depth, flat, top);
    BareReferenceIsFree(root, u);
    NoneBelow(u, defs, RankOf(defs, top), n);
  }

  lemma EntriesWalked(defs: Json, depth: nat) returns (top: nat)
    requires defs.Obj? && Members(defs.fields).None? && Walked(defs, defs, depth).Some?
    ensures forall name | name in defs.fields :: Walked(defs.fields[name], defs, top).Some?
  {
    top := depth - 1;
  }

  lemma DefinitionsEnd(schema: Json, depth: nat) returns (top: nat)
    requires IsWholeDocument(schema) && Definitions(schema).Obj? && FlattenedAllOf(schema, depth).Some?
    ensures AllEnd(Definitions(schema), top)
  {
    var defs := Definitions(schema);
    WholeDocumentIsLossless(schema);
    NoneNamedAllOf(schema, Container(schema));
    RootKeeps(schema, Container(schema), depth);
    top := EntriesWalked(defs, depth - 1);
    forall name | name in defs.fields ensures Ends(defs, defs.fields[name], top) && FlatEnds(defs, defs.fields[name], top) {
      var v := defs.fields[name];
      assert IsDefinition(schema, v);
      WalkedEnds(schema, v, top);
      EndsIsFlat(defs, schema, v, top);
    }
  }

  /** Where nothing is dropped, the rewrite ends exactly on the documents whose definitions
      can be ranked so that references in intersections, at any depth, only go down. */
  lemma EndsExactlyIfRanked(schema: Json)
    requires IsWholeDocument(schema)
    ensures (exists depth :: FlattenedAllOf(schema, depth).Some?) <==>
            (exists rank :: WellRanked(Definitions(schema), rank))
  {
    var defs := Definitions(schema);
    if depth :| FlattenedAllOf(schema, depth).Some? {
      if defs.Obj? {
        var top := DefinitionsEnd(schema, depth);
        RankIsGood(schema, top);
      } else {
        assert WellRanked(defs, map[]);
      }
    }
    if rank :| WellRanked(defs, rank) {
      RankedSchemasEnd(schema, rank);
    }
  }

  lemma RankIsGood(schema: Json, top: nat)
    requires IsWholeDocument(schema) && Definitions(schema).Obj? && AllEnd(Definitions(schema), top)
    ensures WellRanked(Definitions(schema), RankOf(Definitions(schema), top))
  {
    var defs := Definitions(schema);
    forall name | name in defs.fields
      ensures RefsBelow(defs.fields[name], defs, RankOf(defs, top), RankOf(defs, top)[name])
    {
      var v := defs.fields[name];
      assert IsDefinition(schema, v);
      RefsAreBelow(schema, v, top, WalkDepth(defs, v, top), FlatDepth(defs, v, top), RankOf(defs, top)[name]);
    }
  }

  // ---- circles at any depth -----------------------------------------------------------------------

  /** Some intersection at any depth in `v` refers to the definition `name`. */
  ghost predicate RefersDeep(v: Json, defs: Json, name: string) {
    match v
    case Arr(items) => exists i | 0 <= i < |items| :: RefersDeep(items[i], defs, name)
    case Obj(m) =>
      || (exists k | k in m :: RefersDeep(m[k], defs, name))
      || (Members(m).Some? && exists i | 0 <= i < |Members(m).value| :: IsReferenceTo(Members(m).value[i], defs, name))
    case _ => false
  }

  ghost predicate IsReferenceTo(member: Json, defs: Json, name: string) {
    RefTarget(defs, member).Some? && RefName(AsStr(Get(member, "$ref")).value) == name
  }

  lemma {:induction false} DeepIsBelow(v: Json, defs: Json, name: string, rank: map<string, nat>, n: nat)
    requires RefsBelow(v, defs, rank, n) && RefersDeep(v, defs, name)
    ensures name in rank && rank[name] < n
  {
    match v
    case Arr(items) =>
      var i :| 0 <= i < |items| && RefersDeep(items[i], defs, name);
      DeepIsBelow(items[i], defs, name, rank, n);
    case Obj(m) =>
      if k :| k in m && RefersDeep(m[k], defs, name) {
        DeepIsBelow(m[k], defs, name, rank, n);
      } else {
        var i :| 0 <= i < |Members(m).value| && IsReferenceTo(Members(m).value[i], defs, name);
        assert RefBelow(Members(m).value[i], defs, rank, n);
      }
  }

  ghost predicate DeepCycle(defs: Json, cycle: set<string>) {
    && defs.Obj? && cycle <= defs.fields.Keys && cycle != {}
    && forall name | name in cycle :: LeadsDeep(defs, name, cycle)
  }

  ghost predicate LeadsDeep(defs: Json, name: string, cycle: set<string>)
    requires defs.Obj?
  {
    name in defs.fields && exists next :: next in cycle && RefersDeep(defs.fields[name], defs, next)
  }

  lemma {:induction false} CycleHasNoRank(defs: Json, cycle: set<string>, rank: map<string, nat>, name: string)
    requires DeepCycle(defs, cycle) && WellRanked(defs, rank) && name in cycle
    ensures false
    decreases if name in rank then rank[name] else 0
  {
    assert LeadsDeep(defs, name, cycle);
    var next :| next in cycle && RefersDeep(defs.fields[name], defs, next);
    DeepIsBelow(defs.fields[name], defs, next, rank, rank[name]);
    CycleHasNoRank(defs, cycle, rank, next);
  }

  /** So definitions that refer to one another in a circle, from intersections at any depth,
      keep the rewrite of such a document going for ever. */
  lemma DeepCyclesNeverEnd(schema: Json, cycle: set<string>, depth: nat)
    requires IsWholeDocument(schema) && DeepCycle(Definitions(schema), cycle)
    ensures FlattenedAllOf(schema, depth).None?
  {
    if FlattenedAllOf(schema, depth).Some? {
      EndsExactlyIfRanked(schema);
      var rank :| WellRanked(Definitions(schema), rank);
      var name :| name in cycle;
      CycleHasNoRank(Definitions(schema), cycle, rank, name);
    }
  }
}
