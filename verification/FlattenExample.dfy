/** A document that the theorems about lossless rewriting apply to. */
module FlattenExample {
  import opened Wrappers
  import opened Json
  import opened FlattenAllOf
  import opened PlainSchemas
  import opened FlattenMeaning
  import opened FlattenDocument
  import opened FlattenTermination

  const NAMED: Object := map["type" := Str("object"), "required" := Arr([Str("name")])]
  const REFERENCE: Object := map["$ref" := Str("#/$defs/Named")]
  const AGED: Object := map["properties" := Obj(map["age" := Obj(map["type" := Str("integer")])])]

  /** An intersection of a reference and a schema in place, and two that a property
      intersects. */
  const PERSON: Object := map["allOf" := Arr([Obj(REFERENCE), Obj(AGED)])]
  const EXAMPLE: Json := Obj(map["$defs" := Obj(map["Named" := Obj(NAMED), "Person" := Obj(PERSON)])])

  lemma DefinitionsOfExample(name: string)
    ensures Definitions(EXAMPLE) == Obj(map["Named" := Obj(NAMED), "Person" := Obj(PERSON)])
    ensures EntryOf(EXAMPLE, "$defs", name) ==
            if name == "Named" then Some(Obj(NAMED)) else if name == "Person" then Some(Obj(PERSON)) else None
    ensures EntryOf(EXAMPLE, "definitions", name).None?
  {
    assert Get(EXAMPLE, "$defs").Some?;
  }

  lemma ReferenceOfExample()
    ensures IsLocal(EXAMPLE, "#/$defs/Named") && Target(EXAMPLE, "#/$defs/Named") == Some(Obj(NAMED))
  {
    var reference := "#/$defs/Named";
    var prefix := "#/" + "$defs" + "/";
    assert reference[..8] == prefix && reference[8..] == "Named";
    DefinitionsOfExample("Named");
  }

  lemma MembersStandFor()
    ensures StandsFor(EXAMPLE, Obj(REFERENCE)) == Obj(NAMED) && StandsFor(EXAMPLE, Obj(AGED)) == Obj(AGED)
  {
    ReferenceOfExample();
  }

  lemma NamedIsSchema()
    ensures IsMember(EXAMPLE, Obj(NAMED))
  {
    assert IsStructural(Obj(NAMED));
  }

  lemma ReferenceIsSchema()
    ensures IsMember(EXAMPLE, Obj(REFERENCE))
  {
    ReferenceOfExample();
    assert IsStructural(Obj(NAMED)) && IsStructural(Obj(REFERENCE));
  }

  lemma AgedIsSchema()
    ensures IsMember(EXAMPLE, Obj(AGED))
  {
    var age: Object := map["type" := Str("integer")];
    assert AGED["properties"].fields == map["age" := Obj(age)];
    assert IntersectionFree(Obj(age));
    assert IsSchema(EXAMPLE, Obj(age));
    assert IsStructural(Obj(AGED));
  }

  lemma IntersectionIsSchema(root: Json, m: Object, members: seq<Json>)
    requires m == map["allOf" := Arr(members)] && forall i | 0 <= i < |members| :: IsMember(root, members[i])
    ensures IsMember(root, Obj(m)) && Members(m) == Some(members)
  {
    assert IsStructural(Obj(m));
  }

  lemma ExampleIsSchema()
    ensures IsMember(EXAMPLE, Obj(NAMED)) && IsMember(EXAMPLE, Obj(REFERENCE)) && IsMember(EXAMPLE, Obj(AGED))
    ensures IsMember(EXAMPLE, Obj(PERSON)) && Members(PERSON) == Some([Obj(REFERENCE), Obj(AGED)])
  {
    NamedIsSchema();
    ReferenceIsSchema();
    AgedIsSchema();
    IntersectionIsSchema(EXAMPLE, PERSON, [Obj(REFERENCE), Obj(AGED)]);
  }

  /** A node without an intersection is guarded. */
  lemma NoMembersGuarded(root: Json, m: Object)
    requires Members(m).None?
    ensures AlwaysGuarded(root, m)
  {
    forall k: nat ensures Guarded(root, m, k) {
      assert BelowPieces(root, m, k) == [];
      assert NodePieces(root, m, k) == [m];
    }
  }

  lemma PiecesOfPerson(k: nat) returns (ls: seq<Object>)
    ensures ls == NodePieces(EXAMPLE, PERSON, k) && PERSON in ls
    ensures forall o | o in ls :: o == PERSON || (k > 0 && (o == REFERENCE || o == NAMED || o == AGED))
  {
    ExampleIsSchema();
    ls := [PERSON];
    if k > 0 {
      var j: nat := k - 1;
      var members := [Obj(REFERENCE), Obj(AGED)];
      PlainMemberPieces(EXAMPLE, AGED, j);
      var named := PiecesOfReference(j);
      assert members[..1] == [Obj(REFERENCE)] && [Obj(REFERENCE)][..0] == [];
      assert AllPieces(EXAMPLE, [], j) == [];
      assert AllPieces(EXAMPLE, [Obj(REFERENCE)], j) == [] + named;
      assert AllPieces(EXAMPLE, members, j) == ([] + named) + [AGED];
      assert BelowPieces(EXAMPLE, PERSON, k) == AllPieces(EXAMPLE, members, j);
      ls := [PERSON] + (([] + named) + [AGED]);
    }
  }

  lemma PlainMemberPieces(root: Json, m: Object, k: nat)
    requires "allOf" !in m && "$ref" !in m
    ensures MemberPieces(root, Obj(m), k) == [m]
  {
    assert BelowPieces(root, m, k) == [] && RefPieces(root, m, k) == [];
  }

  lemma PiecesOfReference(k: nat) returns (ls: seq<Object>)
    ensures ls == MemberPieces(EXAMPLE, Obj(REFERENCE), k)
    ensures forall o | o in ls :: o == REFERENCE || o == NAMED
  {
    ReferenceOfExample();
    assert NodePieces(EXAMPLE, REFERENCE, k) == [REFERENCE];
    ls := [REFERENCE];
    if k > 0 {
      var j: nat := k - 1;
      PlainMemberPieces(EXAMPLE, NAMED, j);
      assert RefPieces(EXAMPLE, REFERENCE, k) == [NAMED];
      ls := [REFERENCE] + [NAMED];
    }
  }

  lemma PersonGuarded()
    ensures AlwaysGuarded(EXAMPLE, PERSON)
  {
    forall k: nat ensures Guarded(EXAMPLE, PERSON, k) {
      var ls := PiecesOfPerson(k);
      assert Props(PERSON) == map[] && Props(REFERENCE) == map[] && Props(NAMED) == map[];
      forall o, c | o in ls && Says(o, c) ensures Surfaces(EXAMPLE, PERSON, c, k) {
        SaidByPerson(o, c, k);
      }
    }
  }

  lemma SaidByPerson(o: Object, c: Constraint, k: nat)
    requires o == PERSON || (k > 0 && (o == REFERENCE || o == NAMED || o == AGED))
    requires Says(o, c)
    ensures Surfaces(EXAMPLE, PERSON, c, k)
  {
    ExampleIsSchema();
    MembersStandFor();
    assert !Says(PERSON, c) && !Says(REFERENCE, c) && !Overrides(PERSON, c);
    var j: nat := k - 1;
    var members := [Obj(REFERENCE), Obj(AGED)];
    assert SurfacesIn(EXAMPLE, members[if o == NAMED then 0 else 1], c, j);
    SurfacesBelow(EXAMPLE, PERSON, c, j, k);
  }

  /** A schema without intersections is whole. */
  lemma {:induction false} FreeIsWhole(root: Json, v: Json)
    requires IsSchema(root, v) && IntersectionFree(v)
    ensures IsWhole(root, v)
  {
    if IsStructural(v) {
      NoMembersGuarded(root, v.fields);
      if "properties" in v.fields {
        var ps := v.fields["properties"].fields;
        forall p | p in ps ensures IsWhole(root, ps[p]) {
          assert IntersectionFree(v.fields["properties"]);
          FreeIsWhole(root, ps[p]);
        }
      }
    }
  }

  lemma PartsAreFree()
    ensures IntersectionFree(Obj(NAMED)) && IntersectionFree(Obj(REFERENCE)) && IntersectionFree(Obj(AGED))
  {
    assert IntersectionFree(NAMED["required"]);
    assert IntersectionFree(Obj(map["type" := Str("integer")]));
    assert IntersectionFree(AGED["properties"]);
  }

  lemma IntersectionIsWhole(root: Json, m: Object, members: seq<Json>)
    requires m == map["allOf" := Arr(members)] && forall i | 0 <= i < |members| :: IsWholeMember(root, members[i])
    requires AlwaysGuarded(root, m)
    ensures IsWhole(root, Obj(m))
  {
    assert IsStructural(Obj(m));
  }

  lemma PersonIsWhole()
    ensures IsWhole(EXAMPLE, Obj(PERSON))
  {
    PersonGuarded();
    BareReferenceIsWhole();
    AgedIsWhole();
    IntersectionIsWhole(EXAMPLE, PERSON, [Obj(REFERENCE), Obj(AGED)]);
  }

  lemma AgedIsWhole()
    ensures IsWholeMember(EXAMPLE, Obj(AGED))
  {
    AgedIsSchema();
    PartsAreFree();
    FreeIsWhole(EXAMPLE, Obj(AGED));
  }

  lemma BareReferenceIsWhole()
    ensures IsWholeMember(EXAMPLE, Obj(REFERENCE))
  {
    ExampleIsSchema();
    ReferenceOfExample();
    PartsAreFree();
    FreeIsWhole(EXAMPLE, Obj(REFERENCE));
  }

  lemma TargetsOfExample(reference: string)
    requires Target(EXAMPLE, reference).Some?
    ensures Target(EXAMPLE, reference).value in {Obj(NAMED), Obj(PERSON)}
  {
    if PointsInto("$defs", reference) {
      DefinitionsOfExample(NameIn("$defs", reference));
    } else {
      DefinitionsOfExample(NameIn("definitions", reference));
    }
  }

  lemma NamedIsWhole()
    ensures IsWhole(EXAMPLE, Obj(NAMED))
  {
    NamedIsSchema();
    PartsAreFree();
    FreeIsWhole(EXAMPLE, Obj(NAMED));
  }

  lemma TwoDefinitions(root: Json, named: Json, person: Json)
    requires Definitions(root) == Obj(map["Named" := named, "Person" := person])
    requires IsMember(root, named) && IsMember(root, person) && IsWhole(root, named) && IsWhole(root, person)
    requires forall reference :: Target(root, reference).Some? ==> Target(root, reference).value in {named, person}
    ensures IsWholeDocument(root)
  {
    assert IsDefinition(root, named) && IsDefinition(root, person);
  }

  lemma ExampleIsDocument()
    ensures IsWholeDocument(EXAMPLE)
  {
    ExampleIsSchema();
    NamedIsWhole();
    PersonIsWhole();
    DefinitionsOfExample("Named");
    forall reference | Target(EXAMPLE, reference).Some? ensures Target(EXAMPLE, reference).value in {Obj(NAMED), Obj(PERSON)} {
      TargetsOfExample(reference);
    }
    TwoDefinitions(EXAMPLE, Obj(NAMED), Obj(PERSON));
  }

  lemma ReferenceBelowPerson(rank: map<string, nat>)
    requires rank == map["Named" := 0, "Person" := 1]
    ensures RefBelow(Obj(REFERENCE), Definitions(EXAMPLE), rank, 1)
  {
    ReferenceOfExample();
    DefinitionsOfExample("Named");
    ResolveAgrees(EXAMPLE, "#/$defs/Named");
    var prefix := "#/" + "$defs" + "/";
    assert "#/$defs/Named"[|prefix|..] == "Named";
  }

  lemma TwoRanked(defs: Json, named: Json, person: Json, rank: map<string, nat>)
    requires defs == Obj(map["Named" := named, "Person" := person]) && rank == map["Named" := 0, "Person" := 1]
    requires RefsBelow(named, defs, rank, 0) && RefsBelow(person, defs, rank, 1)
    ensures WellRanked(defs, rank)
  {
  }

  lemma ExampleIsRanked()
    ensures WellRanked(Definitions(EXAMPLE), map["Named" := 0, "Person" := 1])
  {
    var rank: map<string, nat> := map["Named" := 0, "Person" := 1];
    var defs := Definitions(EXAMPLE);
    DefinitionsOfExample("Named");
    PartsAreFree();
    ReferenceBelowPerson(rank);
    NoneBelow(Obj(NAMED), defs, rank, 0);
    NoneBelow(Obj(REFERENCE), defs, rank, 1);
    NoneBelow(Obj(AGED), defs, rank, 1);
    assert RefTarget(defs, Obj(AGED)).None?;
    IntersectionIsBelow(PERSON, [Obj(REFERENCE), Obj(AGED)], defs, rank, 1);
    TwoRanked(defs, Obj(NAMED), Obj(PERSON), rank);
  }

  lemma IntersectionIsBelow(m: Object, members: seq<Json>, defs: Json, rank: map<string, nat>, n: nat)
    requires m == map["allOf" := Arr(members)]
    requires forall i | 0 <= i < |members| :: RefsBelow(members[i], defs, rank, n) && RefBelow(members[i], defs, rank, n)
    ensures RefsBelow(Obj(m), defs, rank, n)
  {
    assert RefsBelow(Arr(members), defs, rank, n);
    assert Members(m) == Some(members);
  }

  /** A document with an intersection of a reference and a schema in place, in which
      nothing is dropped; and its rewrite ends. */
  lemma ExampleIsWhole()
    ensures IsWholeDocument(EXAMPLE) && IsLosslessDocument(EXAMPLE)
    ensures exists depth :: FlattenedAllOf(EXAMPLE, depth).Some?
  {
    ExampleIsDocument();
    WholeDocumentIsLossless(EXAMPLE);
    ExampleIsRanked();
    RankedSchemasEnd(EXAMPLE, map["Named" := 0, "Person" := 1]);
  }
}
