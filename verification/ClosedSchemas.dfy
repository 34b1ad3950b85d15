/** Plain schemas with an `additionalProperties` of any value: when one of them
    says what several say together, and when merging two is conjunction. */
module ClosedSchemas {
  import opened Wrappers
  import opened Json
  import opened FlattenAllOf
  import opened PlainSchemas

  /** What a schema asks of the property of a name. */
  datatype Demand = Anything | Refuses | Asks(schema: Json)

  const REST: set<string> := {"additionalProperties"}

  ghost predicate Formed(o: Object) { Shaped(o - REST) }

  /** What it asks of properties it does not name. */
  function RestDemand(o: Object): Demand {
    if "additionalProperties" !in o || IsOpen(o["additionalProperties"]) then Anything
    else if o["additionalProperties"] == Bool(false) then Refuses
    else Asks(o["additionalProperties"])
  }

  function DemandAt(o: Object, p: string): Demand {
    if p in Props(o) then Asks(Props(o)[p]) else RestDemand(o)
  }

  ghost predicate Meets(d: Demand, v: Json, sub: (Json, Json) -> bool) {
    match d
    case Anything => true
    case Refuses => false
    case Asks(s) => sub(s, v)
  }

  /** Validity, with `sub` for the meaning of property schemas as before. */
  ghost predicate Admits(o: Object, inst: Json, sub: (Json, Json) -> bool) {
    && ("type" in o ==> sub(Kind(o["type"]), inst))
    && (inst.Obj? ==>
          && (forall r | r in Required(o) :: r.Str? ==> r.s in inst.fields)
          && (forall p | p in inst.fields :: Meets(DemandAt(o, p), inst.fields[p], sub)))
  }

  ghost predicate AllAdmit(ls: seq<Object>, inst: Json, sub: (Json, Json) -> bool) {
    forall o | o in ls :: Admits(o, inst, sub)
  }

  ghost predicate SaysTheSame(flat: Object, ls: seq<Object>) {
    forall inst, sub :: Admits(flat, inst, sub) <==> AllAdmit(ls, inst, sub)
  }

  /** Where `additionalProperties` forbids nothing, this is what plain schemas mean. */
  lemma OpenIsPlain(o: Object, inst: Json, sub: (Json, Json) -> bool)
    requires Shaped(o)
    ensures Admits(o, inst, sub) <==> Holds(o, inst, sub)
  {
    assert RestDemand(o) == Anything;
    if inst.Obj? {
      forall p | p in inst.fields
        ensures Meets(DemandAt(o, p), inst.fields[p], sub) <==> (p in Props(o) ==> sub(Props(o)[p], inst.fields[p]))
      {
      }
    }
  }

  // ---- name by name --------------------------------------------------------------------

  ghost predicate SomeRefuses(ls: seq<Object>, p: string) { exists o :: o in ls && DemandAt(o, p).Refuses? }

  ghost predicate SomeAsks(ls: seq<Object>, p: string, s: Json) { exists o :: o in ls && DemandAt(o, p) == Asks(s) }

  /** `d` asks of the property what the schemas ask together. */
  ghost predicate Together(d: Demand, ls: seq<Object>, p: string) {
    if SomeRefuses(ls, p) then d.Refuses?
    else !d.Refuses? && forall s :: d == Asks(s) <==> SomeAsks(ls, p, s)
  }

  /** Some name is required and refused: no object is valid. */
  ghost predicate IsDead(ls: seq<Object>) { exists p :: SaysRequired(ls, Str(p)) && SomeRefuses(ls, p) }

  ghost predicate SameType(flat: Object, ls: seq<Object>) {
    forall v :: "type" in flat && flat["type"] == v <==> SaysType(ls, v)
  }

  ghost predicate SameRequired(flat: Object, ls: seq<Object>) {
    forall p :: Str(p) in Required(flat) <==> SaysRequired(ls, Str(p))
  }

  ghost predicate SameDemands(flat: Object, ls: seq<Object>) { forall p :: Together(DemandAt(flat, p), ls, p) }

  lemma DeadAdmitsNoObject(ls: seq<Object>, inst: Json, sub: (Json, Json) -> bool)
    requires IsDead(ls) && inst.Obj?
    ensures !AllAdmit(ls, inst, sub)
  {
    var p :| SaysRequired(ls, Str(p)) && SomeRefuses(ls, p);
    var o :| o in ls && Str(p) in Required(o);
    var q :| q in ls && DemandAt(q, p).Refuses?;
    assert Admits(o, inst, sub) ==> p in inst.fields;
    assert Admits(q, inst, sub) ==> p !in inst.fields;
  }

  ghost predicate TypesHold(ls: seq<Object>, inst: Json, sub: (Json, Json) -> bool) {
    forall o | o in ls && "type" in o :: sub(Kind(o["type"]), inst)
  }

  lemma TypesTogether(flat: Object, ls: seq<Object>, inst: Json, sub: (Json, Json) -> bool)
    requires SameType(flat, ls)
    ensures ("type" in flat ==> sub(Kind(flat["type"]), inst)) <==> TypesHold(ls, inst, sub)
  {
    if "type" in flat {
      assert SaysType(ls, flat["type"]);
      var o :| o in ls && "type" in o && o["type"] == flat["type"];
    }
    forall o | o in ls && "type" in o ensures "type" in flat && flat["type"] == o["type"] {
      assert SaysType(ls, o["type"]);
    }
  }

  lemma SameOnOthers(flat: Object, ls: seq<Object>, inst: Json, sub: (Json, Json) -> bool)
    requires !inst.Obj? && SameType(flat, ls)
    ensures Admits(flat, inst, sub) <==> AllAdmit(ls, inst, sub)
  {
    TypesTogether(flat, ls, inst, sub);
  }

  lemma SameOnObjects(flat: Object, ls: seq<Object>, inst: Json, sub: (Json, Json) -> bool)
    requires inst.Obj? && SameType(flat, ls) && SameRequired(flat, ls) && SameDemands(flat, ls)
    ensures Admits(flat, inst, sub) <==> AllAdmit(ls, inst, sub)
  {
    TypesTogether(flat, ls, inst, sub);
    if AllAdmit(ls, inst, sub) { TogetherAdmit(flat, ls, inst, sub); }
    if Admits(flat, inst, sub) {
      forall o | o in ls ensures Admits(o, inst, sub) { AdmitsEach(flat, ls, inst, sub, o); }
    }
  }

  lemma TogetherAdmit(flat: Object, ls: seq<Object>, inst: Json, sub: (Json, Json) -> bool)
    requires inst.Obj? && SameRequired(flat, ls) && SameDemands(flat, ls) && AllAdmit(ls, inst, sub)
    requires "type" in flat ==> sub(Kind(flat["type"]), inst)
    ensures Admits(flat, inst, sub)
  {
    forall r | r in Required(flat) && r.Str? ensures r.s in inst.fields {
      assert SaysRequired(ls, Str(r.s));
      var o :| o in ls && r in Required(o);
      assert Admits(o, inst, sub);
    }
    forall p | p in inst.fields ensures Meets(DemandAt(flat, p), inst.fields[p], sub) {
      TogetherMeets(DemandAt(flat, p), ls, inst, sub, p);
    }
  }

  lemma RefusedIsNotAdmitted(ls: seq<Object>, inst: Json, sub: (Json, Json) -> bool, p: string)
    requires inst.Obj? && p in inst.fields && SomeRefuses(ls, p)
    ensures !AllAdmit(ls, inst, sub)
  {
    var o :| o in ls && DemandAt(o, p).Refuses?;
    assert !Admits(o, inst, sub);
  }

  lemma TogetherMeets(d: Demand, ls: seq<Object>, inst: Json, sub: (Json, Json) -> bool, p: string)
    requires inst.Obj? && p in inst.fields && AllAdmit(ls, inst, sub) && Together(d, ls, p)
    ensures Meets(d, inst.fields[p], sub)
  {
    if SomeRefuses(ls, p) {
      RefusedIsNotAdmitted(ls, inst, sub, p);
    } else if d.Asks? {
      assert SomeAsks(ls, p, d.schema);
      var o :| o in ls && DemandAt(o, p) == d;
      assert Admits(o, inst, sub);
    }
  }

  lemma AdmitsEach(flat: Object, ls: seq<Object>, inst: Json, sub: (Json, Json) -> bool, o: Object)
    requires inst.Obj? && SameRequired(flat, ls) && SameDemands(flat, ls) && Admits(flat, inst, sub) && o in ls
    requires "type" in o ==> sub(Kind(o["type"]), inst)
    ensures Admits(o, inst, sub)
  {
    forall r | r in Required(o) && r.Str? ensures r.s in inst.fields {
      assert SaysRequired(ls, Str(r.s));
    }
    forall p | p in inst.fields ensures Meets(DemandAt(o, p), inst.fields[p], sub) {
      assert Together(DemandAt(flat, p), ls, p) && Meets(DemandAt(flat, p), inst.fields[p], sub);
      assert DemandAt(o, p).Refuses? ==> SomeRefuses(ls, p);
      assert DemandAt(o, p).Asks? ==> SomeAsks(ls, p, DemandAt(o, p).schema);
    }
  }

  // ---- a difference is noticed -------------------------------------------------------------

  /** The smallest object with all that is required. */
  ghost function AllMinimal(ls: seq<Object>): Object {
    map j, i | 0 <= j < |ls| && 0 <= i < |Required(ls[j])| && Required(ls[j])[i].Str? :: Required(ls[j])[i].s := Null
  }

  lemma AllMinimalHas(ls: seq<Object>)
    ensures forall p :: p in AllMinimal(ls) <==> SaysRequired(ls, Str(p))
  {
    forall p | SaysRequired(ls, Str(p)) ensures p in AllMinimal(ls) {
      var o :| o in ls && Str(p) in Required(o);
      var j :| 0 <= j < |ls| && ls[j] == o;
      var i :| 0 <= i < |Required(ls[j])| && Required(ls[j])[i] == Str(p);
      assert Required(ls[j])[i].s == p;
    }
    forall p | p in AllMinimal(ls) ensures SaysRequired(ls, Str(p)) {
      var j, i :| 0 <= j < |ls| && 0 <= i < |Required(ls[j])| && Required(ls[j])[i].Str? && Required(ls[j])[i].s == p;
      assert ls[j] in ls && Str(p) in Required(ls[j]);
    }
  }

  /** With one more property, it is valid where no name is required and refused and
      nothing is asked of that property that it does not meet. */
  lemma MinimalAdmitted(ls: seq<Object>, p: string, v: Json, sub: (Json, Json) -> bool)
    requires !IsDead(ls) && !SomeRefuses(ls, p)
    requires forall s, inst: Json | inst != v :: sub(s, inst)
    requires !v.Obj? && forall s :: sub(s, Null)
    requires forall o | o in ls :: Meets(DemandAt(o, p), v, sub)
    ensures AllAdmit(ls, Obj(AllMinimal(ls)[p := v]), sub)
  {
    AllMinimalHas(ls);
    var inst := Obj(AllMinimal(ls)[p := v]);
    forall o | o in ls ensures Admits(o, inst, sub) {
      forall q | q in inst.fields ensures Meets(DemandAt(o, q), inst.fields[q], sub) {
        if q != p { NullMeets(ls, o, q, sub); }
      }
      AdmittedByMost(ls, o, inst, sub);
    }
  }

  lemma NullMeets(ls: seq<Object>, o: Object, q: string, sub: (Json, Json) -> bool)
    requires !IsDead(ls) && SaysRequired(ls, Str(q)) && o in ls && forall s :: sub(s, Null)
    ensures Meets(DemandAt(o, q), Null, sub)
  {
    assert !SomeRefuses(ls, q);
  }

  lemma AdmittedByMost(ls: seq<Object>, o: Object, inst: Json, sub: (Json, Json) -> bool)
    requires o in ls && inst.Obj? && (forall s :: sub(s, inst)) && forall q | SaysRequired(ls, Str(q)) :: q in inst.fields
    requires forall q | q in inst.fields :: Meets(DemandAt(o, q), inst.fields[q], sub)
    ensures Admits(o, inst, sub)
  {
    forall r | r in Required(o) && r.Str? ensures r.s in inst.fields {
      assert SaysRequired(ls, Str(r.s));
    }
  }

  lemma MinimalAlone(ls: seq<Object>, sub: (Json, Json) -> bool)
    requires !IsDead(ls) && forall s, v :: sub(s, v)
    ensures AllAdmit(ls, Obj(AllMinimal(ls)), sub)
  {
    AllMinimalHas(ls);
    var inst := Obj(AllMinimal(ls));
    forall o | o in ls ensures Admits(o, inst, sub) {
      forall q | q in inst.fields ensures Meets(DemandAt(o, q), inst.fields[q], sub) {
        NullMeets(ls, o, q, sub);
      }
      AdmittedByMost(ls, o, inst, sub);
    }
  }

  /** What `more` asks and `ls` does not, some instance misses. */
  lemma AskIsMissed(ls: seq<Object>, more: seq<Object>, p: string, s: Json) returns (inst: Json, sub: (Json, Json) -> bool)
    requires !IsDead(ls) && !SomeRefuses(ls, p) && !SomeAsks(ls, p, s) && SomeAsks(more, p, s)
    ensures AllAdmit(ls, inst, sub) && !AllAdmit(more, inst, sub)
  {
    sub := (t, v) => !(t == s && v == Int(1));
    inst := Obj(AllMinimal(ls)[p := Int(1)]);
    MinimalAdmitted(ls, p, Int(1), sub);
    var o :| o in more && DemandAt(o, p) == Asks(s);
    assert !Meets(DemandAt(o, p), inst.fields[p], sub);
  }

  lemma RefusalIsMissed(ls: seq<Object>, more: seq<Object>, p: string) returns (inst: Json, sub: (Json, Json) -> bool)
    requires !IsDead(ls) && !SomeRefuses(ls, p) && SomeRefuses(more, p)
    ensures AllAdmit(ls, inst, sub) && !AllAdmit(more, inst, sub)
  {
    sub := (t, v) => true;
    inst := Obj(AllMinimal(ls)[p := Null]);
    MinimalAdmitted(ls, p, Null, sub);
    var o :| o in more && DemandAt(o, p).Refuses?;
    assert !Meets(DemandAt(o, p), inst.fields[p], sub);
  }

  lemma RequiredIsMissed(ls: seq<Object>, more: seq<Object>, p: string) returns (inst: Json, sub: (Json, Json) -> bool)
    requires !IsDead(ls) && !SaysRequired(ls, Str(p)) && SaysRequired(more, Str(p))
    ensures AllAdmit(ls, inst, sub) && !AllAdmit(more, inst, sub)
  {
    sub := (t, v) => true;
    inst := Obj(AllMinimal(ls));
    AllMinimalHas(ls);
    MinimalAlone(ls, sub);
    var o :| o in more && Str(p) in Required(o);
    assert !Admits(o, inst, sub);
  }

  lemma DeathIsMissed(ls: seq<Object>, more: seq<Object>) returns (inst: Json, sub: (Json, Json) -> bool)
    requires !IsDead(ls) && IsDead(more)
    ensures AllAdmit(ls, inst, sub) && !AllAdmit(more, inst, sub)
  {
    sub := (t, v) => true;
    inst := Obj(AllMinimal(ls));
    MinimalAlone(ls, sub);
    DeadAdmitsNoObject(more, inst, sub);
  }

  // ---- exactly -----------------------------------------------------------------------------------

  /** What two lists ask, they ask alike. */
  ghost predicate AskAlike(ls: seq<Object>, more: seq<Object>) {
    && (forall p :: SaysRequired(ls, Str(p)) <==> SaysRequired(more, Str(p)))
    && (forall p :: SomeRefuses(ls, p) <==> SomeRefuses(more, p))
    && (forall p, s | !SomeRefuses(ls, p) :: SomeAsks(ls, p, s) <==> SomeAsks(more, p, s))
  }

  lemma UnlikeDiffers(ls: seq<Object>, more: seq<Object>) returns (inst: Json, sub: (Json, Json) -> bool)
    requires !IsDead(ls) && !IsDead(more) && !AskAlike(ls, more)
    ensures AllAdmit(ls, inst, sub) != AllAdmit(more, inst, sub)
  {
    if p :| SaysRequired(ls, Str(p)) != SaysRequired(more, Str(p)) {
      if SaysRequired(ls, Str(p)) { inst, sub := RequiredIsMissed(more, ls, p); } else { inst, sub := RequiredIsMissed(ls, more, p); }
    } else if p :| SomeRefuses(ls, p) != SomeRefuses(more, p) {
      if SomeRefuses(ls, p) { inst, sub := RefusalIsMissed(more, ls, p); } else { inst, sub := RefusalIsMissed(ls, more, p); }
    } else {
      var p, s :| !SomeRefuses(ls, p) && SomeAsks(ls, p, s) != SomeAsks(more, p, s);
      if SomeAsks(ls, p, s) { inst, sub := AskIsMissed(more, ls, p, s); } else { inst, sub := AskIsMissed(ls, more, p, s); }
    }
  }

  lemma OneObject(flat: Object, inst: Json, sub: (Json, Json) -> bool)
    ensures AllAdmit([flat], inst, sub) <==> Admits(flat, inst, sub)
  {
    assert flat in [flat];
  }

  lemma OneAsks(flat: Object, ls: seq<Object>)
    ensures AskAlike([flat], ls) <==> SameRequired(flat, ls) && SameDemands(flat, ls)
  {
    assert flat in [flat];
    forall p
      ensures SaysRequired([flat], Str(p)) <==> Str(p) in Required(flat)
      ensures SomeRefuses([flat], p) <==> DemandAt(flat, p).Refuses?
      ensures forall s :: SomeAsks([flat], p, s) <==> DemandAt(flat, p) == Asks(s)
    {
    }
    if AskAlike([flat], ls) {
      forall p ensures Together(DemandAt(flat, p), ls, p) {
        assert SomeRefuses([flat], p) <==> SomeRefuses(ls, p);
        forall s | !SomeRefuses([flat], p) ensures DemandAt(flat, p) == Asks(s) <==> SomeAsks(ls, p, s) {
          assert SomeAsks([flat], p, s) <==> SomeAsks(ls, p, s);
        }
      }
    }
    if SameRequired(flat, ls) && SameDemands(flat, ls) {
      forall p ensures SomeRefuses([flat], p) <==> SomeRefuses(ls, p) {
        assert Together(DemandAt(flat, p), ls, p);
      }
      forall p, s | !SomeRefuses([flat], p) ensures SomeAsks([flat], p, s) <==> SomeAsks(ls, p, s) {
        assert Together(DemandAt(flat, p), ls, p);
      }
    }
  }

  /** `flat` says what the schemas of `ls` say together, on every instance and whatever
      property schemas mean, exactly if it has their type, and either neither side
      admits any object or they require the same names and ask the same of every name. */
  lemma SameExactly(flat: Object, ls: seq<Object>)
    ensures SaysTheSame(flat, ls) <==>
            SameType(flat, ls) &&
            ((IsDead([flat]) && IsDead(ls)) || (SameRequired(flat, ls) && SameDemands(flat, ls)))
  {
    OneAsks(flat, ls);
    if SameType(flat, ls) && ((IsDead([flat]) && IsDead(ls)) || (SameRequired(flat, ls) && SameDemands(flat, ls))) {
      forall inst, sub ensures Admits(flat, inst, sub) <==> AllAdmit(ls, inst, sub) {
        SameWhere(flat, ls, inst, sub);
      }
    } else {
      var inst, sub := Differ(flat, ls);
      assert !(Admits(flat, inst, sub) <==> AllAdmit(ls, inst, sub));
    }
  }

  lemma SameWhere(flat: Object, ls: seq<Object>, inst: Json, sub: (Json, Json) -> bool)
    requires SameType(flat, ls)
    requires (IsDead([flat]) && IsDead(ls)) || (SameRequired(flat, ls) && SameDemands(flat, ls))
    ensures Admits(flat, inst, sub) <==> AllAdmit(ls, inst, sub)
  {
    if !inst.Obj? {
      SameOnOthers(flat, ls, inst, sub);
    } else if IsDead([flat]) && IsDead(ls) {
      OneObject(flat, inst, sub);
      DeadAdmitsNoObject([flat], inst, sub);
      DeadAdmitsNoObject(ls, inst, sub);
    } else {
      SameOnObjects(flat, ls, inst, sub);
    }
  }

  lemma Differ(flat: Object, ls: seq<Object>) returns (inst: Json, sub: (Json, Json) -> bool)
    requires !SameType(flat, ls) ||
             (!(IsDead([flat]) && IsDead(ls)) && !AskAlike([flat], ls))
    ensures Admits(flat, inst, sub) != AllAdmit(ls, inst, sub)
  {
    if !SameType(flat, ls) {
      inst, sub := TypeTells(flat, ls);
    } else if IsDead(ls) {
      inst, sub := DeathIsMissed([flat], ls);
    } else if IsDead([flat]) {
      inst, sub := DeathIsMissed(ls, [flat]);
    } else {
      inst, sub := UnlikeDiffers([flat], ls);
    }
    OneObject(flat, inst, sub);
  }

  /** A type that one side has and the other has not is noticed, by what is no object. */
  lemma TypeTells(flat: Object, ls: seq<Object>) returns (inst: Json, sub: (Json, Json) -> bool)
    requires !SameType(flat, ls)
    ensures Admits(flat, inst, sub) != AllAdmit(ls, inst, sub)
  {
    var v :| ("type" in flat && flat["type"] == v) != SaysType(ls, v);
    inst, sub := Null, (s, i) => s != Kind(v);
    assert Admits(flat, Null, sub) <==> !("type" in flat && flat["type"] == v);
    if SaysType(ls, v) {
      var o :| o in ls && "type" in o && o["type"] == v;
      assert !Admits(o, Null, sub);
    } else {
      forall o | o in ls ensures Admits(o, Null, sub) {
      }
    }
  }

  // ---- merging two ----------------------------------------------------------------------------------

  /** What the merged schema asks of properties that neither names: the first
      `additionalProperties` wins. */
  function MergedRest(t: Object, o: Object): Demand {
    if "additionalProperties" in t then RestDemand(t) else RestDemand(o)
  }

  /** Nothing of `o`'s rest bears on the properties of `t`. */
  ghost predicate RestSpares(o: Object, t: Object) {
    forall p | p in Props(t) && p !in Props(o) :: RestDemand(o) == Anything || RestDemand(o) == Asks(Props(t)[p])
  }

  /** The two rests come to the one that wins. */
  ghost predicate RestsCombine(t: Object, o: Object) {
    if RestDemand(t).Refuses? || RestDemand(o).Refuses? then MergedRest(t, o).Refuses?
    else (RestDemand(t).Asks? ==> MergedRest(t, o) == RestDemand(t)) && (RestDemand(o).Asks? ==> MergedRest(t, o) == RestDemand(o))
  }

  /** A name is required that neither names and the winning rest refuses. */
  ghost predicate RequiresRefused(t: Object, o: Object) {
    MergedRest(t, o).Refuses? &&
    exists p :: (Str(p) in Required(t) || Str(p) in Required(o)) && p !in Props(t) && p !in Props(o)
  }

  lemma FormedParts(t: Object)
    requires Formed(t)
    ensures Shaped(t - REST)
    ensures Props(t - REST) == Props(t) && Required(t - REST) == Required(t)
    ensures Member(t - REST, "type") == Member(t, "type")
  {
  }

  ghost predicate IsMerge(t: Object, o: Object, m: Object) {
    && Props(m) == Props(t) + Props(o) && RestDemand(m) == MergedRest(t, o)
    && (forall v :: v in Required(m) <==> v in Required(t) || v in Required(o))
    && Member(m, "type") == (if "type" in o then Member(o, "type") else Member(t, "type"))
  }

  lemma PropertiesApart(t: Object, o: Object)
    ensures MergeProperties(t, o) - REST == MergeProperties(t - REST, o - REST)
  {
  }

  lemma RequiredApart(t: Object, o: Object)
    ensures MergeRequired(t, o) - REST == MergeRequired(t - REST, o - REST)
  {
  }

  lemma TypeApart(t: Object, o: Object)
    ensures MergeType(t, o) - REST == MergeType(t - REST, o - REST)
    ensures MergeAdditional(t, o) - REST == t - REST == MergeAdditional(t - REST, o - REST)
  {
  }

  /** Merging leaves `additionalProperties` apart from the other keywords. */
  lemma MergeApart(t: Object, o: Object)
    ensures Merge(t, o) - REST == Merge(t - REST, o - REST)
  {
    var m1 := MergeProperties(t, o);
    var m2 := MergeRequired(m1, o);
    PropertiesApart(t, o);
    RequiredApart(m1, o);
    TypeApart(m2, o);
    TypeApart(MergeType(m2, o), o);
  }

  lemma MergeRest(t: Object, o: Object)
    ensures RestDemand(Merge(t, o)) == MergedRest(t, o)
  {
    var m := MergeType(MergeRequired(MergeProperties(t, o), o), o);
    assert "additionalProperties" in m <==> "additionalProperties" in t;
    assert "additionalProperties" in t ==> m["additionalProperties"] == t["additionalProperties"];
  }

  /** What merging makes of the four keywords. */
  lemma MergeClosedFields(t: Object, o: Object)
    requires Formed(t) && Formed(o)
    ensures IsMerge(t, o, Merge(t, o - METADATA_KEYS))
  {
    var t', o' := t - REST, o - REST;
    FormedParts(t);
    FormedParts(o);
    MergeApart(t, o - METADATA_KEYS);
    MergeRest(t, o - METADATA_KEYS);
    assert (o - METADATA_KEYS) - REST == o' - METADATA_KEYS;
    MergeFields(t', o');
    assert MergedRest(t, o - METADATA_KEYS) == MergedRest(t, o);
  }

  /** Merging two such schemas is conjunction exactly when they agree on the properties
      they share, neither's `additionalProperties` bears on a property only the other
      names, and the two come to the first; or when the merged schema admits no object. */
  lemma MergeClosedExactly(t: Object, o: Object)
    requires Formed(t) && Formed(o)
    ensures SaysTheSame(Merge(t, o - METADATA_KEYS), [t, o]) <==>
            TypesAgree(t, o) &&
            (RequiresRefused(t, o) || (PropsAgree(t, o) && RestSpares(t, o) && RestSpares(o, t) && RestsCombine(t, o)))
  {
    var m, ls := Merge(t, o - METADATA_KEYS), [t, o];
    MergeClosedFields(t, o);
    assert t in ls && o in ls;
    SameExactly(m, ls);
    MergedRequires(t, o, m);
    MergedDead(t, o, m);
    MergedDemands(t, o, m);
  }

  lemma MergedRequires(t: Object, o: Object, m: Object)
    requires IsMerge(t, o, m)
    ensures (SameType(m, [t, o]) <==> TypesAgree(t, o)) && SameRequired(m, [t, o])
    ensures forall p :: SaysRequired([t, o], Str(p)) <==> Str(p) in Required(t) || Str(p) in Required(o)
  {
    assert t in [t, o] && o in [t, o];
    forall v ensures SaysType([t, o], v) <==> Member(t, "type") == Some(v) || Member(o, "type") == Some(v) {
    }
    assert forall v :: "type" in m && m["type"] == v <==> Member(m, "type") == Some(v);
    if SameType(m, [t, o]) && "type" in t && "type" in o {
      assert SaysType([t, o], t["type"]);
    }
  }

  lemma PairDemands(t: Object, o: Object, p: string)
    ensures SomeRefuses([t, o], p) <==> DemandAt(t, p).Refuses? || DemandAt(o, p).Refuses?
    ensures forall s :: SomeAsks([t, o], p, s) <==> DemandAt(t, p) == Asks(s) || DemandAt(o, p) == Asks(s)
  {
    assert t in [t, o] && o in [t, o];
  }

  lemma MergedDead(t: Object, o: Object, m: Object)
    requires IsMerge(t, o, m)
    ensures IsDead([m]) && IsDead([t, o]) <==> RequiresRefused(t, o)
  {
    assert m in [m];
    MergedRequires(t, o, m);
    if IsDead([m]) {
      var p :| SaysRequired([m], Str(p)) && SomeRefuses([m], p);
      assert p !in Props(m);
    }
    if RequiresRefused(t, o) {
      var p :| (Str(p) in Required(t) || Str(p) in Required(o)) && p !in Props(t) && p !in Props(o);
      PairDemands(t, o, p);
      assert SaysRequired([m], Str(p)) && SomeRefuses([m], p);
      assert SaysRequired([t, o], Str(p)) && SomeRefuses([t, o], p);
    }
  }

  /** A name neither schema has. */
  lemma FreshName(t: Object, o: Object) returns (p: string)
    ensures p !in Props(t) && p !in Props(o)
  {
    p := LongerThanAll(Props(t).Keys + Props(o).Keys);
  }

  lemma {:induction false} LongerThanAll(names: set<string>) returns (p: string)
    ensures forall q | q in names :: |q| < |p|
  {
    if names == {} {
      p := "";
    } else {
      var q :| q in names;
      var p' := LongerThanAll(names - {q});
      p := (if |q| < |p'| then p' else q) + "x";
    }
  }

  lemma MergedDemands(t: Object, o: Object, m: Object)
    requires IsMerge(t, o, m)
    ensures SameDemands(m, [t, o]) <==> PropsAgree(t, o) && RestSpares(t, o) && RestSpares(o, t) && RestsCombine(t, o)
  {
    forall p ensures Together(DemandAt(m, p), [t, o], p) <==> CombinesAt(t, o, p) {
      TogetherExactly(t, o, m, p);
    }
    if SameDemands(m, [t, o]) {
      forall p ensures CombinesAt(t, o, p) {
        assert Together(DemandAt(m, p), [t, o], p);
      }
      CombinesMeans(t, o);
    } else {
      var p :| !Together(DemandAt(m, p), [t, o], p);
      assert !CombinesAt(t, o, p);
    }
  }

  /** The guard at one name. */
  ghost predicate CombinesAt(t: Object, o: Object, p: string) {
    if p in Props(t) && p in Props(o) then Props(t)[p] == Props(o)[p]
    else if p in Props(t) then RestDemand(o) == Anything || RestDemand(o) == Asks(Props(t)[p])
    else if p in Props(o) then RestDemand(t) == Anything || RestDemand(t) == Asks(Props(o)[p])
    else RestsCombine(t, o)
  }

  lemma TogetherExactly(t: Object, o: Object, m: Object, p: string)
    requires IsMerge(t, o, m)
    ensures Together(DemandAt(m, p), [t, o], p) <==> CombinesAt(t, o, p)
  {
    PairDemands(t, o, p);
    var d := DemandAt(m, p);
    if Together(d, [t, o], p) && !SomeRefuses([t, o], p) {
      assert DemandAt(t, p).Asks? ==> SomeAsks([t, o], p, DemandAt(t, p).schema);
      assert DemandAt(o, p).Asks? ==> SomeAsks([t, o], p, DemandAt(o, p).schema);
    }
  }

  lemma CombinesMeans(t: Object, o: Object)
    requires forall p :: CombinesAt(t, o, p)
    ensures PropsAgree(t, o) && RestSpares(t, o) && RestSpares(o, t) && RestsCombine(t, o)
  {
    forall p | p in Props(t) && p in Props(o) ensures Props(t)[p] == Props(o)[p] {
      assert CombinesAt(t, o, p);
    }
    forall p | p in Props(o) && p !in Props(t) ensures RestDemand(t) == Anything || RestDemand(t) == Asks(Props(o)[p]) {
      assert CombinesAt(t, o, p);
    }
    forall p | p in Props(t) && p !in Props(o) ensures RestDemand(o) == Anything || RestDemand(o) == Asks(Props(t)[p]) {
      assert CombinesAt(t, o, p);
    }
    var p := FreshName(t, o);
    assert CombinesAt(t, o, p);
  }

  /** A closed schema merged with one that names another property: the merged schema
      admits objects that the first refuses. */
  lemma ClosedMemberOpens(s: Json, u: Json)
    ensures var closed := map["properties" := Obj(map["a" := s]), "additionalProperties" := Bool(false)];
            var other := map["properties" := Obj(map["b" := u])];
            !SaysTheSame(Merge(closed, other - METADATA_KEYS), [closed, other])
  {
    var closed: Object := map["properties" := Obj(map["a" := s]), "additionalProperties" := Bool(false)];
    var other: Object := map["properties" := Obj(map["b" := u])];
    assert Props(closed) == map["a" := s] && Props(other) == map["b" := u];
    assert Required(closed) == [] && Required(other) == [];
    MergeClosedExactly(closed, other);
    assert "b" in Props(other) && "b" !in Props(closed) && RestDemand(closed) == Refuses;
    assert !RestSpares(closed, other);
  }
}
