/** Plain schemas: `type`, `required` and `properties`. When one of them says exactly
    what several say together. */
module PlainSchemas {
  import opened Wrappers
  import opened Json
  import opened FlattenAllOf

  /** An `additionalProperties` that forbids nothing. */
  predicate IsOpen(v: Json) { v == Bool(true) || v == Obj(map[]) }

  /** A value of `type`: a name, or a list of names. */
  predicate IsKind(v: Json) { v.Str? || (v.Arr? && forall k | k in v.items :: k.Str?) }

  /** The keyword `type` with this value, under a name that is no schema: what it demands
      of an instance is left open, like what schemas demand. */
  function Kind(v: Json): Json { Arr([Str("type"), v]) }

  /** The keywords of a plain schema have the values they should. Others are ignored. */
  ghost predicate Shaped(o: Object) {
    && ("additionalProperties" in o ==> IsOpen(o["additionalProperties"]))
    && ("type" in o ==> IsKind(o["type"]))
    && ("required" in o ==> o["required"].Arr? && forall r | r in o["required"].items :: r.Str?)
    && ("properties" in o ==> o["properties"].Obj?)
  }

  function Props(o: Object): Object {
    if "properties" in o && o["properties"].Obj? then o["properties"].fields else map[]
  }

  function Required(o: Object): seq<Json> {
    if "required" in o && o["required"].Arr? then o["required"].items else []
  }

  /** Validity of an instance against a plain schema. `sub` is the meaning of the
      property schemas, whatever they contain, and of the values of `type`. */
  ghost predicate Holds(o: Object, inst: Json, sub: (Json, Json) -> bool) {
    && ("type" in o ==> sub(Kind(o["type"]), inst))
    && (inst.Obj? ==>
          && (forall r | r in Required(o) :: r.Str? ==> r.s in inst.fields)
          && (forall p | p in Props(o) && p in inst.fields :: sub(Props(o)[p], inst.fields[p])))
  }

  ghost predicate AllHold(ls: seq<Object>, inst: Json, sub: (Json, Json) -> bool) {
    forall o | o in ls :: Holds(o, inst, sub)
  }

  /** `flat` says what the schemas of `ls` say together, on every instance and whatever
      types and property schemas mean. */
  ghost predicate MeansAll(flat: Object, ls: seq<Object>) {
    forall inst, sub :: Holds(flat, inst, sub) <==> AllHold(ls, inst, sub)
  }

  // ---- constraint by constraint ------------------------------------------------------

  /** Every constraint of `o` is one of `flat`. */
  ghost predicate Keeps(flat: Object, o: Object) {
    && ("type" in o ==> "type" in flat && flat["type"] == o["type"])
    && (forall r | r in Required(o) :: r in Required(flat))
    && (forall p | p in Props(o) :: p in Props(flat) && Props(flat)[p] == Props(o)[p])
  }

  ghost predicate KeepsAll(flat: Object, ls: seq<Object>) {
    forall o | o in ls :: Keeps(flat, o)
  }

  ghost predicate SaysType(ls: seq<Object>, v: Json) { exists o :: o in ls && "type" in o && o["type"] == v }

  ghost predicate SaysRequired(ls: seq<Object>, r: Json) { exists o :: o in ls && r in Required(o) }

  ghost predicate SaysProperty(ls: seq<Object>, p: string, v: Json) {
    exists o :: o in ls && p in Props(o) && Props(o)[p] == v
  }

  /** Every constraint of `flat` is one of some schema of `ls`. */
  ghost predicate From(flat: Object, ls: seq<Object>) {
    && ("type" in flat ==> SaysType(ls, flat["type"]))
    && (forall r | r in Required(flat) :: SaysRequired(ls, r))
    && (forall p | p in Props(flat) :: SaysProperty(ls, p, Props(flat)[p]))
  }

  lemma KeptImplies(flat: Object, o: Object, inst: Json, sub: (Json, Json) -> bool)
    requires Keeps(flat, o) && Holds(flat, inst, sub)
    ensures Holds(o, inst, sub)
  {
  }

  lemma FromImplied(flat: Object, ls: seq<Object>, inst: Json, sub: (Json, Json) -> bool)
    requires From(flat, ls) && AllHold(ls, inst, sub)
    ensures Holds(flat, inst, sub)
  {
    if "type" in flat {
      var o :| o in ls && "type" in o && o["type"] == flat["type"];
      assert Holds(o, inst, sub);
    }
    if inst.Obj? {
      forall r | r in Required(flat) && r.Str? ensures r.s in inst.fields {
        assert SaysRequired(ls, r);
        var o :| o in ls && r in Required(o);
        assert Holds(o, inst, sub);
      }
      forall p | p in Props(flat) && p in inst.fields ensures sub(Props(flat)[p], inst.fields[p]) {
        assert SaysProperty(ls, p, Props(flat)[p]);
        var o :| o in ls && p in Props(o) && Props(o)[p] == Props(flat)[p];
        assert Holds(o, inst, sub);
      }
    }
  }

  /** The smallest object with all that `o` requires. */
  ghost function Minimal(o: Object): Object {
    map i | 0 <= i < |Required(o)| && Required(o)[i].Str? :: Required(o)[i].s := Null
  }

  lemma MinimalHas(o: Object)
    ensures forall s :: s in Minimal(o) <==> Str(s) in Required(o)
  {
    forall s | Str(s) in Required(o) ensures s in Minimal(o) {
      var i :| 0 <= i < |Required(o)| && Required(o)[i] == Str(s);
      assert Required(o)[i].s == s;
    }
  }

  /** A constraint that is lost makes a difference: some instance passes without it. */
  lemma LostIsMissed(flat: Object, o: Object) returns (inst: Json, sub: (Json, Json) -> bool)
    requires Shaped(flat) && Shaped(o) && !Keeps(flat, o)
    ensures Holds(flat, inst, sub) && !Holds(o, inst, sub)
  {
    MinimalHas(flat);
    sub := (s, v) => true;
    if "type" in o && !("type" in flat && flat["type"] == o["type"]) {
      inst := Null;
      var lost := Kind(o["type"]);
      sub := (s, v) => s != lost;
    } else if r :| r in Required(o) && r !in Required(flat) {
      inst := Obj(Minimal(flat));
    } else {
      var p :| p in Props(o) && !(p in Props(flat) && Props(flat)[p] == Props(o)[p]);
      var lost := Props(o)[p];
      inst := Obj(Minimal(flat)[p := Int(1)]);
      sub := (s, v) => !(s == lost && v == Int(1));
    }
  }

  /** Of schemas whose constraints it takes all its own from, `flat` says exactly what
      they say together if and only if it has kept each of theirs. */
  lemma KeptExactly(flat: Object, ls: seq<Object>)
    requires Shaped(flat) && From(flat, ls) && forall o | o in ls :: Shaped(o)
    ensures MeansAll(flat, ls) <==> KeepsAll(flat, ls)
  {
    if KeepsAll(flat, ls) {
      forall inst, sub ensures Holds(flat, inst, sub) <==> AllHold(ls, inst, sub) {
        if AllHold(ls, inst, sub) {
          FromImplied(flat, ls, inst, sub);
        } else if Holds(flat, inst, sub) {
          var o :| o in ls && !Holds(o, inst, sub);
          KeptImplies(flat, o, inst, sub);
        }
      }
    } else {
      var o :| o in ls && !Keeps(flat, o);
      var inst, sub := LostIsMissed(flat, o);
      assert !(Holds(flat, inst, sub) <==> AllHold(ls, inst, sub));
    }
  }

  // ---- merging and own keys -------------------------------------------------------------

  ghost predicate TypesAgree(t: Object, o: Object) { "type" in t && "type" in o ==> t["type"] == o["type"] }

  ghost predicate PropsAgree(t: Object, o: Object) {
    forall p | p in Props(t) && p in Props(o) :: Props(t)[p] == Props(o)[p]
  }

  /** Where two schemas have a type, or constrain the same property, they say the same. */
  ghost predicate Agree(t: Object, o: Object) { TypesAgree(t, o) && PropsAgree(t, o) }

  lemma {:induction false} AppendMembers(items: seq<Json>, extra: seq<Json>)
    ensures forall v :: v in AppendMissing(items, extra) <==> v in items || v in extra
    decreases |extra|
  {
    if extra != [] {
      AppendMembers(if extra[0] in items then items else items + [extra[0]], extra[1..]);
    }
  }

  lemma MergeRequiredFields(t: Object, o: Object)
    requires Shaped(t) && Shaped(o)
    ensures Shaped(MergeRequired(t, o)) && Props(MergeRequired(t, o)) == Props(t)
    ensures forall v :: v in Required(MergeRequired(t, o)) <==> v in Required(t) || v in Required(o)
    ensures Member(MergeRequired(t, o), "type") == Member(t, "type")
  {
    AppendMembers(Required(t), Required(o));
  }

  lemma MergePropertiesFields(t: Object, o: Object)
    requires Shaped(t) && Shaped(o)
    ensures Shaped(MergeProperties(t, o)) && Props(MergeProperties(t, o)) == Props(t) + Props(o)
    ensures Required(MergeProperties(t, o)) == Required(t)
    ensures Member(MergeProperties(t, o), "type") == Member(t, "type")
  {
  }

  lemma MergeTypeFields(t: Object, o: Object)
    requires Shaped(t) && Shaped(o)
    ensures Shaped(MergeType(t, o)) && Props(MergeType(t, o)) == Props(t) && Required(MergeType(t, o)) == Required(t)
    ensures Member(MergeType(t, o), "type") == if "type" in o then Member(o, "type") else Member(t, "type")
  {
  }

  lemma MergeAdditionalFields(t: Object, o: Object)
    requires Shaped(t) && Shaped(o)
    ensures var m := MergeAdditional(t, o);
            Shaped(m) && Props(m) == Props(t) && Required(m) == Required(t) && Member(m, "type") == Member(t, "type")
  {
  }

  lemma WithoutMetadata(o: Object)
    requires Shaped(o)
    ensures var src := o - METADATA_KEYS;
            Shaped(src) && Props(src) == Props(o) && Required(src) == Required(o) && Member(src, "type") == Member(o, "type")
  {
  }

  /** What merging makes of the three keywords. */
  lemma MergeFields(t: Object, o: Object)
    requires Shaped(t) && Shaped(o)
    ensures Shaped(Merge(t, o - METADATA_KEYS))
    ensures Props(Merge(t, o - METADATA_KEYS)) == Props(t) + Props(o)
    ensures forall v :: v in Required(Merge(t, o - METADATA_KEYS)) <==> v in Required(t) || v in Required(o)
    ensures Member(Merge(t, o - METADATA_KEYS), "type") == if "type" in o then Member(o, "type") else Member(t, "type")
  {
    var src := o - METADATA_KEYS;
    WithoutMetadata(o);
    MergePropertiesFields(t, src);
    var m := MergeProperties(t, src);
    MergeRequiredFields(m, src);
    m := MergeRequired(m, src);
    MergeTypeFields(m, src);
    MergeAdditionalFields(MergeType(m, src), src);
  }

  /** Merging two plain schemas is conjunction exactly when they agree on their types
      and on the properties they have in common. */
  lemma MergeIsConjunctionExactly(t: Object, o: Object)
    requires Shaped(t) && Shaped(o)
    ensures MeansAll(Merge(t, o - METADATA_KEYS), [t, o]) <==> Agree(t, o)
  {
    var m, ls := Merge(t, o - METADATA_KEYS), [t, o];
    MergeFields(t, o);
    MergedIsFrom(t, o, m);
    KeptExactly(m, ls);
    assert t in ls && o in ls;
    assert Keeps(m, o);
    assert Keeps(m, t) <==> Agree(t, o);
  }

  lemma MergedIsFrom(t: Object, o: Object, m: Object)
    requires Props(m) == Props(t) + Props(o)
    requires Member(m, "type") == if "type" in o then Member(o, "type") else Member(t, "type")
    requires forall v :: v in Required(m) <==> v in Required(t) || v in Required(o)
    ensures From(m, [t, o])
  {
    var ls := [t, o];
    assert t in ls && o in ls;
    assert "type" in m ==> Member(m, "type") == Some(m["type"]);
    forall r | r in Required(m) ensures SaysRequired(ls, r) {
      assert r in Required(if r in Required(t) then t else o);
    }
    forall p | p in Props(m) ensures SaysProperty(ls, p, Props(m)[p]) {
      assert p in Props(if p in Props(o) then o else t);
    }
  }

  /** What a node's own keys leave of the merged ones: its own `type`, `properties` and
      `required` replace theirs. */
  ghost predicate OwnKeysHarmless(own: Object, o: Object) {
    && ("type" in own && "type" in o ==> own["type"] == o["type"])
    && ("properties" in own ==> forall p | p in Props(o) :: p in Props(own) && Props(own)[p] == Props(o)[p])
    && ("required" in own ==> forall r | r in Required(o) :: r in Required(own))
  }

  lemma OwnKeysFields(merged: Object, own: Object)
    requires Shaped(merged) && Shaped(own)
    ensures Shaped(merged + own)
    ensures Props(merged + own) == if "properties" in own then Props(own) else Props(merged)
    ensures Required(merged + own) == if "required" in own then Required(own) else Required(merged)
    ensures Member(merged + own, "type") == if "type" in own then Member(own, "type") else Member(merged, "type")
  {
  }

  /** Putting own keys over merged ones is conjunction exactly when the own ones repeat
      what they replace. */
  lemma OwnKeysExactly(merged: Object, own: Object)
    requires Shaped(merged) && Shaped(own)
    ensures MeansAll(merged + own, [merged, own]) <==> OwnKeysHarmless(own, merged)
  {
    var flat, ls := merged + own, [merged, own];
    OwnKeysFields(merged, own);
    assert merged in ls && own in ls;
    assert From(flat, ls) by {
      forall r | r in Required(flat) ensures SaysRequired(ls, r) {
        assert r in Required(if "required" in own then own else merged);
      }
      forall p | p in Props(flat) ensures SaysProperty(ls, p, Props(flat)[p]) {
        assert p in Props(if "properties" in own then own else merged);
      }
    }
    KeptExactly(flat, ls);
    assert Keeps(flat, own);
    assert Keeps(flat, merged) <==> OwnKeysHarmless(own, merged);
  }
}
