/** What the rewrite does to a whole document: references are followed into rewritten
    definitions, and every definition keeps its meaning. */
module FlattenDocument {
  import opened Wrappers
  import opened Json
  import opened FlattenAllOf
  import opened PlainSchemas
  import opened FlattenMeaning

  // ---- validity, references followed ---------------------------------------------------

  type Judge = (Json, Json) -> bool

  ghost predicate AllJudged(members: seq<Json>, inst: Json, judge: Judge) {
    forall v | v in members :: judge(v, inst)
  }

  /** Every member of a node's `allOf`. */
  ghost predicate MembersHold(m: Object, inst: Json, judge: Judge) {
    Members(m).Some? ==> AllJudged(Members(m).value, inst, judge)
  }

  /** What a node's `$ref` refers to. */
  ghost predicate RefHolds(root: Json, m: Object, inst: Json, judge: Judge) {
    "$ref" in m ==> m["$ref"].Str? && Target(root, m["$ref"].s).Some? && judge(Target(root, m["$ref"].s).value, inst)
  }

  /** What a schema demands of an instance, given what its parts do: its keywords, every
      member, and its reference. Atoms mean whatever `atom` says. */
  ghost predicate Demands(root: Json, v: Json, inst: Json, judge: Judge, atom: Judge) {
    if IsStructural(v) then
      Holds(v.fields, inst, judge) && MembersHold(v.fields, inst, judge) && RefHolds(root, v.fields, inst, judge)
    else atom(v, inst)
  }

  /** Validity, to a depth of evaluation. */
  ghost predicate Valid(root: Json, v: Json, inst: Json, n: nat, atom: Judge)
    decreases n
  {
    n > 0 && Demands(root, v, inst, (s, i) => Valid(root, s, i, n - 1, atom), atom)
  }

  ghost predicate PartsReach(m: Object, inst: Json, ends: Judge) {
    && ("type" in m ==> ends(Kind(m["type"]), inst))
    && (inst.Obj? ==> forall p | p in Props(m) && p in inst.fields :: ends(Props(m)[p], inst.fields[p]))
  }

  /** The evaluation of a schema ends if that of each part does. */
  ghost predicate Reaches(root: Json, v: Json, inst: Json, ends: Judge) {
    IsStructural(v) ==>
      PartsReach(v.fields, inst, ends) && MembersHold(v.fields, inst, ends) && RefHolds(root, v.fields, inst, ends)
  }

  /** The evaluation ends within depth `n`: no reference is unresolved or goes in circles. */
  ghost predicate Defined(root: Json, v: Json, inst: Json, n: nat)
    decreases n
  {
    n > 0 && Reaches(root, v, inst, (s, i) => Defined(root, s, i, n - 1))
  }

  /** The verdict on an instance, where there is one. */
  ghost predicate Verdict(root: Json, v: Json, inst: Json, atom: Judge) {
    exists n: nat :: Defined(root, v, inst, n) && Valid(root, v, inst, n, atom)
  }

  /** More depth ends no fewer evaluations, and changes no verdict. */
  lemma PartsAgree(root: Json, v: Json, inst: Json, ends: Judge, ends': Judge, judge: Judge, judge': Judge, atom: Judge)
    requires forall s, i | ends(s, i) :: ends'(s, i) && (judge'(s, i) <==> judge(s, i))
    requires Reaches(root, v, inst, ends)
    ensures Reaches(root, v, inst, ends') && (Demands(root, v, inst, judge', atom) <==> Demands(root, v, inst, judge, atom))
  {
  }

  lemma {:induction false} DefinedMore(root: Json, v: Json, inst: Json, n: nat, n': nat, atom: Judge)
    requires Defined(root, v, inst, n) && n <= n'
    ensures Defined(root, v, inst, n') && (Valid(root, v, inst, n', atom) <==> Valid(root, v, inst, n, atom))
    decreases n, 0
  {
    var m, m': nat := n - 1, n' - 1;
    var ends, ends' := (s, i) => Defined(root, s, i, m), (s, i) => Defined(root, s, i, m');
    var judge, judge' := (s, i) => Valid(root, s, i, m, atom), (s, i) => Valid(root, s, i, m', atom);
    EvaluationUnfolds(root, v, inst, m, n, atom, ends, judge);
    EvaluationUnfolds(root, v, inst, m', n', atom, ends', judge');
    BelowMore(root, m, m', atom, ends, ends', judge, judge');
    PartsAgree(root, v, inst, ends, ends', judge, judge', atom);
  }

  /** Evaluation at a depth, in terms of what the parts do at the depth below. */
  lemma EvaluationUnfolds(root: Json, v: Json, inst: Json, m: nat, n: nat, atom: Judge, ends: Judge, judge: Judge)
    requires n == m + 1
    requires forall s, i :: (ends(s, i) <==> Defined(root, s, i, m)) && (judge(s, i) <==> Valid(root, s, i, m, atom))
    ensures Defined(root, v, inst, n) <==> Reaches(root, v, inst, ends)
    ensures Valid(root, v, inst, n, atom) <==> Demands(root, v, inst, judge, atom)
  {
    var below := (s, i) => Defined(root, s, i, n - 1);
    var valid := (s, i) => Valid(root, s, i, n - 1, atom);
    SameParts(root, v, inst, ends, below, judge, valid, atom);
  }

  lemma SameParts(root: Json, v: Json, inst: Json, ends: Judge, ends': Judge, judge: Judge, judge': Judge, atom: Judge)
    requires forall s, i :: (ends(s, i) <==> ends'(s, i)) && (judge(s, i) <==> judge'(s, i))
    ensures Reaches(root, v, inst, ends) <==> Reaches(root, v, inst, ends')
    ensures Demands(root, v, inst, judge, atom) <==> Demands(root, v, inst, judge', atom)
  {
  }

  lemma {:induction false} BelowMore(root: Json, n: nat, n': nat, atom: Judge, ends: Judge, ends': Judge, judge: Judge, judge': Judge)
    requires n <= n'
    requires forall s, i :: (ends(s, i) <==> Defined(root, s, i, n)) && (ends'(s, i) <==> Defined(root, s, i, n'))
    requires forall s, i :: (judge(s, i) <==> Valid(root, s, i, n, atom)) && (judge'(s, i) <==> Valid(root, s, i, n', atom))
    ensures forall s, i | ends(s, i) :: ends'(s, i) && (judge'(s, i) <==> judge(s, i))
    decreases n, 1
  {
    forall s, i | ends(s, i) ensures ends'(s, i) && (judge'(s, i) <==> judge(s, i)) {
      DefinedMore(root, s, i, n, n', atom);
    }
  }

  lemma SameAtAnyDepth(root: Json, v: Json, inst: Json, m: nat, n: nat, atom: Judge)
    requires Defined(root, v, inst, m) && Defined(root, v, inst, n)
    ensures Valid(root, v, inst, m, atom) <==> Valid(root, v, inst, n, atom)
  {
    if m <= n { DefinedMore(root, v, inst, m, n, atom); } else { DefinedMore(root, v, inst, n, m, atom); }
  }

  lemma VerdictWitness(root: Json, v: Json, inst: Json, atom: Judge) returns (m: nat)
    requires Verdict(root, v, inst, atom)
    ensures Defined(root, v, inst, m) && Valid(root, v, inst, m, atom)
  {
    m :| Defined(root, v, inst, m) && Valid(root, v, inst, m, atom);
  }

  lemma VerdictIsValid(root: Json, v: Json, inst: Json, n: nat, atom: Judge)
    requires Defined(root, v, inst, n)
    ensures Verdict(root, v, inst, atom) <==> Valid(root, v, inst, n, atom)
  {
    if Verdict(root, v, inst, atom) {
      var m := VerdictWitness(root, v, inst, atom);
      SameAtAnyDepth(root, v, inst, m, n, atom);
    }
  }

  /** `judge` gives the verdicts of the document. */
  ghost predicate IsVerdict(root: Json, judge: Judge, atom: Judge) {
    forall v, inst :: judge(v, inst) <==> Verdict(root, v, inst, atom)
  }

  /** A verdict is what the schema demands, given the verdicts on its parts. */
  lemma VerdictDemands(root: Json, v: Json, inst: Json, n: nat, judge: Judge, atom: Judge)
    requires Defined(root, v, inst, n) && IsVerdict(root, judge, atom)
    ensures judge(v, inst) <==> Demands(root, v, inst, judge, atom)
  {
    var ends := (s, i) => Defined(root, s, i, n - 1);
    var below := (s, i) => Valid(root, s, i, n - 1, atom);
    VerdictIsValid(root, v, inst, n, atom);
    forall s, i | ends(s, i) ensures judge(s, i) <==> below(s, i) {
      VerdictIsValid(root, s, i, n - 1, atom);
    }
    PartsAgree(root, v, inst, ends, ends, below, judge, atom);
  }

  /** `judge` obeys the keywords wherever the evaluation ends. */
  ghost predicate IsMeaning(root: Json, judge: Judge, atom: Judge) {
    forall v, inst, n: nat :: IsMeaningAt(root, v, inst, n, judge, atom)
  }

  ghost predicate IsMeaningAt(root: Json, v: Json, inst: Json, n: nat, judge: Judge, atom: Judge) {
    Defined(root, v, inst, n) ==> (judge(v, inst) <==> Demands(root, v, inst, judge, atom))
  }

  lemma VerdictIsMeaning(root: Json, judge: Judge, atom: Judge)
    requires IsVerdict(root, judge, atom)
    ensures IsMeaning(root, judge, atom)
  {
    forall v, inst, n: nat ensures IsMeaningAt(root, v, inst, n, judge, atom) {
      if Defined(root, v, inst, n) { VerdictDemands(root, v, inst, n, judge, atom); }
    }
  }

  // ---- validity, piece by piece ------------------------------------------------------------

  ghost predicate AllReach(ls: seq<Object>, inst: Json, ends: Judge) {
    forall o | o in ls :: PartsReach(o, inst, ends)
  }

  lemma AllHoldMore(ls: seq<Object>, more: seq<Object>, inst: Json, judge: Judge)
    ensures AllHold(ls + more, inst, judge) <==> AllHold(ls, inst, judge) && AllHold(more, inst, judge)
    ensures AllReach(ls + more, inst, judge) <==> AllReach(ls, inst, judge) && AllReach(more, inst, judge)
  {
    assert forall o :: o in ls + more <==> o in ls || o in more;
  }

  /** `ends` covers evaluations to depth `n` and less. */
  ghost predicate Covers(root: Json, n: nat, ends: Judge) {
    forall s, i, k: nat | k <= n :: CoversAt(root, s, i, k, ends)
  }

  ghost predicate CoversAt(root: Json, s: Json, i: Json, k: nat, ends: Judge) { Defined(root, s, i, k) ==> ends(s, i) }

  lemma ReachesBelow(root: Json, v: Json, inst: Json, n: nat, ends: Judge)
    requires Defined(root, v, inst, n) && Covers(root, n - 1, ends)
    ensures Reaches(root, v, inst, ends)
  {
    var below := (s, i) => Defined(root, s, i, n - 1);
    forall s, i | below(s, i) ensures ends(s, i) {
      assert CoversAt(root, s, i, n - 1, ends);
    }
    PartsAgree(root, v, inst, below, ends, below, below, below);
  }

  /** The evaluations a node's own depends on end. */
  ghost predicate MembersDefined(root: Json, m: Object, inst: Json, n: nat) {
    Members(m).Some? ==> AllDefined(root, Members(m).value, inst, n)
  }

  ghost predicate AllDefined(root: Json, members: seq<Json>, inst: Json, n: nat) {
    forall u | u in members :: Defined(root, u, inst, n)
  }

  ghost predicate RefDefined(root: Json, m: Object, inst: Json, n: nat) {
    "$ref" in m ==>
      && m["$ref"].Str? && Target(root, m["$ref"].s).Some?
      && Defined(root, Target(root, m["$ref"].s).value, inst, n)
  }

  lemma DefinedParts(root: Json, v: Json, inst: Json, below: nat, n: nat, ends: Judge)
    requires n == below + 1 && Defined(root, v, inst, n) && IsStructural(v) && Covers(root, below, ends)
    ensures PartsReach(v.fields, inst, ends)
    ensures MembersDefined(root, v.fields, inst, below) && RefDefined(root, v.fields, inst, below)
  {
    ReachesBelow(root, v, inst, n, ends);
  }

  ghost predicate MembersOk(root: Json, m: Object) {
    Members(m).Some? ==> forall i | 0 <= i < |Members(m).value| :: IsMember(root, Members(m).value[i])
  }

  lemma SchemaMembersOk(root: Json, m: Object)
    requires IsStructural(Obj(m)) && IsSchema(root, Obj(m))
    ensures MembersOk(root, m)
  {
  }

  lemma OneMorePiece(m: Object, more: seq<Object>, inst: Json, ends: Judge, judge: Judge)
    requires PartsReach(m, inst, ends) && AllReach(more, inst, ends)
    ensures AllHold([m] + more, inst, judge) <==> Holds(m, inst, judge) && AllHold(more, inst, judge)
    ensures AllReach([m] + more, inst, ends)
  {
    assert ([m] + more)[0] == m;
    AllHoldMore([m], more, inst, judge);
    AllHoldMore([m], more, inst, ends);
  }

  /** What follows goes down the pieces with the evaluation: `ls` are the pieces of what
      the lemma is about, the instance satisfies it exactly when it satisfies each of
      them, and the evaluations of their properties end. */
  lemma {:induction false} BelowIsPieces(root: Json, m: Object, inst: Json, n: nat, k: nat, ends: Judge, judge: Judge, atom: Judge)
    returns (ls: seq<Object>)
    requires IsDocument(root) && MembersOk(root, m) && n < k
    requires MembersDefined(root, m, inst, n) && Covers(root, n, ends) && IsMeaning(root, judge, atom)
    ensures ArePieces(root, Below(m), k, ls)
    ensures (MembersHold(m, inst, judge) <==> AllHold(ls, inst, judge)) && AllReach(ls, inst, ends)
    decreases n, 4, 0
  {
    if Members(m).Some? {
      var j: nat := k - 1;
      ls := MembersArePieces(root, Members(m).value, inst, n, j, ends, judge, atom);
      BelowUnfolds(root, m, j, k, ls);
    } else {
      NothingBelow(root, m, k);
      ls := [];
    }
  }

  lemma {:induction false} NodeIsPieces(root: Json, m: Object, inst: Json, n: nat, k: nat, ends: Judge, judge: Judge, atom: Judge)
    returns (ls: seq<Object>)
    requires IsDocument(root) && MembersOk(root, m) && n < k && PartsReach(m, inst, ends)
    requires MembersDefined(root, m, inst, n) && Covers(root, n, ends) && IsMeaning(root, judge, atom)
    ensures ArePieces(root, Node(m), k, ls)
    ensures (Holds(m, inst, judge) && MembersHold(m, inst, judge) <==> AllHold(ls, inst, judge)) && AllReach(ls, inst, ends)
    decreases n, 5, 0
  {
    var below := BelowIsPieces(root, m, inst, n, k, ends, judge, atom);
    OneMorePiece(m, below, inst, ends, judge);
    NodeUnfolds(root, m, k, below);
    ls := [m] + below;
  }

  lemma {:induction false} MembersArePieces(root: Json, members: seq<Json>, inst: Json, n: nat, k: nat,
                                            ends: Judge, judge: Judge, atom: Judge)
    returns (ls: seq<Object>)
    requires IsDocument(root) && (forall i | 0 <= i < |members| :: IsMember(root, members[i])) && n <= k
    requires AllDefined(root, members, inst, n) && Covers(root, n, ends) && IsMeaning(root, judge, atom)
    ensures ArePieces(root, Every(members), k, ls)
    ensures (AllJudged(members, inst, judge) <==> AllHold(ls, inst, judge)) && AllReach(ls, inst, ends)
    decreases n, 3, |members|
  {
    if members == [] {
      NothingBelow(root, map[], k);
      ls := [];
    } else {
      var l := |members| - 1;
      var first, v := members[..l], members[l];
      assert members == first + [v];
      var before := MembersArePieces(root, first, inst, n, k, ends, judge, atom);
      var last := MemberIsPieces(root, v, inst, n, k, ends, judge, atom);
      AllHoldMore(before, last, inst, judge);
      AllHoldMore(before, last, inst, ends);
      EveryUnfolds(root, members, k, before, last);
      ls := before + last;
    }
  }

  lemma {:induction false} MemberIsPieces(root: Json, v: Json, inst: Json, n: nat, k: nat,
                                          ends: Judge, judge: Judge, atom: Judge)
    returns (ls: seq<Object>)
    requires IsDocument(root) && IsMember(root, v) && n <= k
    requires Defined(root, v, inst, n) && Covers(root, n, ends) && IsMeaning(root, judge, atom)
    ensures ArePieces(root, One(v), k, ls)
    ensures (judge(v, inst) <==> AllHold(ls, inst, judge)) && AllReach(ls, inst, ends)
    decreases n, 2, 0
  {
    var m := v.fields;
    assert IsMeaningAt(root, v, inst, n, judge, atom);
    var below: nat := n - 1;
    assert Covers(root, below, ends);
    DefinedParts(root, v, inst, below, n, ends);
    SchemaMembersOk(root, m);
    var own := NodeIsPieces(root, m, inst, below, k, ends, judge, atom);
    var referred := RefIsPieces(root, m, inst, below, k, ends, judge, atom);
    AllHoldMore(own, referred, inst, judge);
    AllHoldMore(own, referred, inst, ends);
    OneUnfolds(root, v, k, own, referred);
    ls := own + referred;
  }

  lemma RefUnfolds(root: Json, m: Object, t: Json, inst: Json, judge: Judge)
    requires "$ref" in m && m["$ref"].Str? && Target(root, m["$ref"].s) == Some(t)
    ensures RefHolds(root, m, inst, judge) <==> judge(t, inst)
  {
  }

  lemma {:induction false} RefIsPieces(root: Json, m: Object, inst: Json, n: nat, k: nat,
                                       ends: Judge, judge: Judge, atom: Judge)
    returns (ls: seq<Object>)
    requires IsDocument(root) && RefOk(root, m) && n < k
    requires RefDefined(root, m, inst, n) && Covers(root, n, ends) && IsMeaning(root, judge, atom)
    ensures ArePieces(root, Referred(m), k, ls)
    ensures (RefHolds(root, m, inst, judge) <==> AllHold(ls, inst, judge)) && AllReach(ls, inst, ends)
    decreases n, 3, 0
  {
    if "$ref" in m {
      var t := ReferredMember(root, m);
      var j: nat := k - 1;
      ls := MemberIsPieces(root, t, inst, n, j, ends, judge, atom);
      ReferredUnfolds(root, m, t, j, k, ls);
      RefUnfolds(root, m, t, inst, judge);
    } else {
      NothingBelow(root, m, k);
      ls := [];
    }
  }

  // ---- documents whose nodes all keep their meaning ------------------------------------------

  /** The node is guarded, if it can be flattened at all. */
  ghost predicate NodeKept(root: Json, m: Object) {
    forall depth: nat, k: nat | k >= 2 * depth && Flattened(m, Definitions(root), depth).Some? :: Guarded(root, m, k)
  }

  /** So do all nodes the rewrite comes to below `v`. */
  ghost predicate IsLossless(root: Json, v: Json)
    decreases v, 1
  {
    IsStructural(v) ==> NodeKept(root, v.fields) && LosslessBelow(root, v)
  }

  ghost predicate LosslessBelow(root: Json, v: Json)
    decreases v, 0
  {
    IsStructural(v) ==>
      && ("properties" in v.fields ==>
            forall p | p in v.fields["properties"].fields :: IsLossless(root, v.fields["properties"].fields[p]))
      && ("allOf" in v.fields ==>
            forall i | 0 <= i < |v.fields["allOf"].items| :: LosslessBelow(root, v.fields["allOf"].items[i]))
  }

  /** A document of the fragment with such definitions. */
  ghost predicate IsLosslessDocument(root: Json) {
    && IsDocument(root)
    && forall reference :: Target(root, reference).Some? ==>
         IsSchema(root, Target(root, reference).value) && IsLossless(root, Target(root, reference).value)
  }

  ghost predicate PropsOk(root: Json, ls: seq<Object>) {
    forall o, p | o in ls && p in Props(o) :: IsSchema(root, Props(o)[p]) && IsLossless(root, Props(o)[p])
  }

  lemma LosslessParts(root: Json, v: Json)
    requires IsStructural(v) && IsSchema(root, v) && LosslessBelow(root, v)
    ensures PropsOk(root, [v.fields])
    ensures Members(v.fields).Some? ==>
              forall i | 0 <= i < |Members(v.fields).value| ::
                IsMember(root, Members(v.fields).value[i]) && LosslessBelow(root, Members(v.fields).value[i])
  {
  }

  lemma TargetLossless(root: Json, m: Object)
    requires IsLosslessDocument(root) && RefOk(root, m) && "$ref" in m
    ensures IsMember(root, Target(root, m["$ref"].s).value) && LosslessBelow(root, Target(root, m["$ref"].s).value)
  {
    TargetIsMember(root, m);
    assert IsLossless(root, Target(root, m["$ref"].s).value);
  }

  lemma PropsOkMore(root: Json, ls: seq<Object>, more: seq<Object>)
    requires PropsOk(root, ls) && PropsOk(root, more)
    ensures PropsOk(root, ls + more)
  {
  }

  lemma {:induction false} NodePropsOk(root: Json, v: Json, k: nat) returns (ls: seq<Object>)
    requires IsLosslessDocument(root) && IsStructural(v) && IsSchema(root, v) && LosslessBelow(root, v)
    ensures ArePieces(root, Node(v.fields), k, ls) && PropsOk(root, ls)
    decreases k, 1, 0
  {
    LosslessParts(root, v);
    NothingBelow(root, v.fields, k);
    var below := [];
    if Members(v.fields).Some? && k > 0 {
      var j: nat := k - 1;
      below := AllPropsOk(root, Members(v.fields).value, j);
      BelowUnfolds(root, v.fields, j, k, below);
    }
    PropsOkMore(root, [v.fields], below);
    NodeUnfolds(root, v.fields, k, below);
    ls := [v.fields] + below;
  }

  lemma {:induction false} AllPropsOk(root: Json, members: seq<Json>, k: nat) returns (ls: seq<Object>)
    requires IsLosslessDocument(root)
    requires forall i | 0 <= i < |members| :: IsMember(root, members[i]) && LosslessBelow(root, members[i])
    ensures ArePieces(root, Every(members), k, ls) && PropsOk(root, ls)
    decreases k, 3, |members|
  {
    if members == [] {
      NothingBelow(root, map[], k);
      ls := [];
    } else {
      var first, v := members[..|members| - 1], members[|members| - 1];
      var before := AllPropsOk(root, first, k);
      var last := MemberPropsOk(root, v, k);
      PropsOkMore(root, before, last);
      EveryUnfolds(root, members, k, before, last);
      ls := before + last;
    }
  }

  lemma {:induction false} MemberPropsOk(root: Json, v: Json, k: nat) returns (ls: seq<Object>)
    requires IsLosslessDocument(root) && IsMember(root, v) && LosslessBelow(root, v)
    ensures ArePieces(root, One(v), k, ls) && PropsOk(root, ls)
    decreases k, 2, 0
  {
    var own := NodePropsOk(root, v, k);
    var referred := RefPropsOk(root, v.fields, k);
    PropsOkMore(root, own, referred);
    OneUnfolds(root, v, k, own, referred);
    ls := own + referred;
  }

  lemma {:induction false} RefPropsOk(root: Json, m: Object, k: nat) returns (ls: seq<Object>)
    requires IsLosslessDocument(root) && RefOk(root, m)
    ensures ArePieces(root, Referred(m), k, ls) && PropsOk(root, ls)
    decreases k, 0, 0
  {
    if k > 0 && "$ref" in m {
      TargetLossless(root, m);
      var t := ReferredMember(root, m);
      var j: nat := k - 1;
      ls := MemberPropsOk(root, t, j);
      ReferredUnfolds(root, m, t, j, k, ls);
    } else {
      NothingBelow(root, m, k);
      ls := [];
    }
  }

  // ---- the rewritten node -----------------------------------------------------------------------

  /** Walking changes nothing where there is no intersection. */
  lemma {:induction false} WalkKeepsIntersectionFree(v: Json, defs: Json, depth: nat)
    requires IntersectionFree(v) && Walked(v, defs, depth).Some?
    ensures Walked(v, defs, depth).value == v
    decreases depth
  {
    match v
    case Arr(items) =>
      forall i | 0 <= i < |items| ensures Walked(items[i], defs, depth - 1).value == items[i] {
        WalkKeepsIntersectionFree(items[i], defs, depth - 1);
      }
      assert WalkedItems(items, defs, depth - 1).value == items;
    case Obj(m) =>
      forall k | k in m ensures Walked(m[k], defs, depth - 1).value == m[k] {
        WalkKeepsIntersectionFree(m[k], defs, depth - 1);
      }
      assert WalkedFields(m, defs, depth - 1).value == m;
    case _ =>
  }

  /** `w` is `flat` with each property schema walked. */
  ghost predicate IsWalk(flat: Object, w: Object, defs: Json, depth: nat) {
    && w.Keys == flat.Keys && InGrammar(w) && Members(w).None?
    && Required(w) == Required(flat) && Member(w, "type") == Member(flat, "type")
    && ("$ref" in flat ==> w["$ref"] == flat["$ref"])
    && Props(w).Keys == Props(flat).Keys
    && forall p | p in Props(flat) :: depth >= 2 && Walked(Props(flat)[p], defs, depth - 2) == Some(Props(w)[p])
  }

  /** The keywords that walking leaves alone. */
  const LEFT_ALONE: set<string> := {"type", "required", "additionalProperties", "$ref"}

  lemma LeftAloneIsFree(m: Object, key: string)
    requires InGrammar(m) && key in LEFT_ALONE && key in m
    ensures IntersectionFree(m[key])
  {
    if key in {"required", "type"} && m[key].Arr? {
      var items := m[key].items;
      forall i | 0 <= i < |items| ensures IntersectionFree(items[i]) {
        assert items[i] in items;
      }
    }
  }

  lemma WalkLeavesAlone(flat: Object, w: Object, defs: Json, depth: nat, key: string)
    requires InGrammar(flat) && Members(flat).None? && Walked(Obj(flat), defs, depth) == Some(Obj(w))
    requires key in LEFT_ALONE && key in flat
    ensures key in w && w[key] == flat[key]
  {
    LeftAloneIsFree(flat, key);
    WalkOfField(flat, defs, depth, key);
    WalkKeepsIntersectionFree(flat[key], defs, depth - 1);
  }

  lemma WalkOfField(flat: Object, defs: Json, depth: nat, key: string)
    requires Members(flat).None? && Walked(Obj(flat), defs, depth).Some? && key in flat
    ensures depth > 0 && Walked(Obj(flat), defs, depth).value.Obj?
    ensures Walked(Obj(flat), defs, depth).value.fields.Keys == flat.Keys
    ensures Walked(flat[key], defs, depth - 1) == Some(Walked(Obj(flat), defs, depth).value.fields[key])
  {
  }

  lemma WalkOfProps(flat: Object, defs: Json, depth: nat)
    requires "properties" in flat && flat["properties"].Obj? && Members(Props(flat)).None?
    requires Walked(flat["properties"], defs, depth).Some?
    ensures depth > 0
    ensures var ps := Walked(flat["properties"], defs, depth).value;
            && ps.Obj? && ps.fields.Keys == Props(flat).Keys
            && forall p | p in Props(flat) :: Walked(Props(flat)[p], defs, depth - 1) == Some(ps.fields[p])
  {
  }

  lemma WalkOfFlat(flat: Object, defs: Json, depth: nat)
    requires InGrammar(flat) && Members(flat).None? && Members(Props(flat)).None? && Walked(Obj(flat), defs, depth).Some?
    ensures var w := Walked(Obj(flat), defs, depth).value; w.Obj? && IsWalk(flat, w.fields, defs, depth)
  {
    var w := Walked(Obj(flat), defs, depth).value.fields;
    forall key | key in LEFT_ALONE && key in flat ensures key in w && w[key] == flat[key] {
      WalkLeavesAlone(flat, w, defs, depth, key);
    }
    if "properties" in flat {
      WalkOfField(flat, defs, depth, "properties");
      WalkOfProps(flat, defs, depth - 1);
    }
    SameKeys(flat, w, defs, depth);
    SameGrammar(flat, w);
  }

  lemma SameKeys(flat: Object, w: Object, defs: Json, depth: nat)
    requires Members(flat).None? && Walked(Obj(flat), defs, depth) == Some(Obj(w))
    ensures w.Keys == flat.Keys
  {
  }

  lemma SameGrammar(flat: Object, w: Object)
    requires InGrammar(flat) && Members(flat).None? && w.Keys == flat.Keys
    requires forall key | key in LEFT_ALONE && key in flat :: key in w && w[key] == flat[key]
    requires "properties" in flat ==> w["properties"].Obj?
    ensures InGrammar(w) && Members(w).None? && Required(w) == Required(flat)
    ensures Member(w, "type") == Member(flat, "type")
    ensures "$ref" in flat ==> w["$ref"] == flat["$ref"]
  {
    assert "allOf" !in flat;
    assert forall key | key in LEFT_ALONE && key in w :: w[key] == flat[key];
    assert "type" in LEFT_ALONE && "required" in LEFT_ALONE && "additionalProperties" in LEFT_ALONE && "$ref" in LEFT_ALONE;
  }

  // ---- the rewrite preserves meaning ---------------------------------------------------------------

  /** Each definition of `root'` is that of `root`, rewritten. */
  ghost predicate IsRewrite(root: Json, root': Json) {
    forall reference :: Target(root, reference).Some? ==>
      Target(root', reference).Some? && IsWalkOf(root, Target(root, reference).value, Target(root', reference).value)
  }

  ghost predicate IsWalkOf(root: Json, v: Json, w: Json) {
    exists depth: nat :: Walked(v, Definitions(root), depth) == Some(w)
  }

  /** Evaluated against the rewritten document, `w` gets the verdict that `v` had. */
  ghost predicate SameVerdict(root: Json, v: Json, root': Json, w: Json, inst: Json, n: nat, atom: Judge) {
    Defined(root, v, inst, n) ==>
      Defined(root', w, inst, n) && (Verdict(root', w, inst, atom) <==> Verdict(root, v, inst, atom))
  }

  lemma FlatHoldsExactly(flat: Object, ls: seq<Object>, inst: Json, judge: Judge)
    requires KeepsAll(flat, ls) && From(flat, ls)
    ensures Holds(flat, inst, judge) <==> AllHold(ls, inst, judge)
  {
    if Holds(flat, inst, judge) {
      forall o | o in ls ensures Holds(o, inst, judge) {
        KeptImplies(flat, o, inst, judge);
      }
    }
    if AllHold(ls, inst, judge) {
      FromImplied(flat, ls, inst, judge);
    }
  }

  lemma FlatProps(root: Json, flat: Object, ls: seq<Object>, inst: Json, ends: Judge)
    requires From(flat, ls) && PropsOk(root, ls) && AllReach(ls, inst, ends)
    ensures PropsOk(root, [flat]) && PartsReach(flat, inst, ends)
  {
    if "type" in flat {
      var q :| q in ls && "type" in q && q["type"] == flat["type"];
      assert PartsReach(q, inst, ends);
    }
    forall p | p in Props(flat)
      ensures IsSchema(root, Props(flat)[p]) && IsLossless(root, Props(flat)[p])
      ensures inst.Obj? && p in inst.fields ==> ends(Props(flat)[p], inst.fields[p])
    {
      assert SaysProperty(ls, p, Props(flat)[p]);
      var o :| o in ls && p in Props(o) && Props(o)[p] == Props(flat)[p];
      assert PartsReach(o, inst, ends);
    }
  }

  /** What the pieces of a node give its flattened form. */
  lemma FlatVerdict(root: Json, m: Object, flat: Object, depth: nat, inst: Json, n: nat, ends: Judge, judge: Judge, atom: Judge)
    requires IsLosslessDocument(root) && IsStructural(Obj(m)) && IsSchema(root, Obj(m)) && IsLossless(root, Obj(m))
    requires MembersDefined(root, m, inst, n) && PartsReach(m, inst, ends) && Covers(root, n, ends)
    requires IsMeaning(root, judge, atom) && Flattened(m, Definitions(root), depth) == Some(flat)
    ensures InGrammar(flat) && Members(flat).None?
    ensures Holds(m, inst, judge) && MembersHold(m, inst, judge) <==> Holds(flat, inst, judge)
    ensures PropsOk(root, [flat]) && PartsReach(flat, inst, ends)
  {
    var k := n + 1 + 2 * depth;
    FlatFrom(root, m, depth, k);
    SchemaMembersOk(root, m);
    var ls := NodeIsPieces(root, m, inst, n, k, ends, judge, atom);
    var same := NodePropsOk(root, Obj(m), k);
    GuardDecides(root, m, depth, k);
    FlatHoldsExactly(flat, ls, inst, judge);
    FlatProps(root, flat, ls, inst, ends);
  }

  lemma PropsNotAllOf(root: Json, flat: Object)
    requires PropsOk(root, [flat])
    ensures Members(Props(flat)).None?
  {
    if "allOf" in Props(flat) {
      assert flat in [flat];
      assert IsSchema(root, Props(flat)["allOf"]);
    }
  }

  /** Verdicts on the type and the properties of a node carry over to their walked forms. */
  ghost predicate PartsCarry(flat: Object, w: Object, inst: Json, judge: Judge, ends': Judge, judge': Judge) {
    && ("type" in flat && "type" in w ==>
          && ends'(Kind(w["type"]), inst)
          && (judge'(Kind(w["type"]), inst) <==> judge(Kind(flat["type"]), inst)))
    && (inst.Obj? ==>
      forall p | p in Props(flat) && p in Props(w) && p in inst.fields ::
        && ends'(Props(w)[p], inst.fields[p])
        && (judge'(Props(w)[p], inst.fields[p]) <==> judge(Props(flat)[p], inst.fields[p])))
  }

  lemma WalkHolds(flat: Object, w: Object, defs: Json, depth: nat, inst: Json, judge: Judge, ends': Judge, judge': Judge)
    requires IsWalk(flat, w, defs, depth) && PartsCarry(flat, w, inst, judge, ends', judge')
    ensures PartsReach(w, inst, ends') && (Holds(w, inst, judge') <==> Holds(flat, inst, judge))
  {
    assert "type" in w <==> "type" in flat;
    assert "type" in w ==> Member(w, "type") == Some(w["type"]);
  }

  lemma CoversBelow(root: Json, n: nat, ends: Judge)
    requires forall s, i :: ends(s, i) <==> Defined(root, s, i, n)
    ensures Covers(root, n, ends)
  {
    forall s, i, k: nat | k <= n ensures CoversAt(root, s, i, k, ends) {
      if Defined(root, s, i, k) { DefinedMore(root, s, i, k, n, ends); }
    }
  }

  lemma VerdictFromDemands(root: Json, v: Json, inst: Json, n: nat, ends: Judge, judge: Judge, atom: Judge)
    requires (forall s, i :: ends(s, i) <==> Defined(root, s, i, n)) && Reaches(root, v, inst, ends)
    requires IsVerdict(root, judge, atom)
    ensures Defined(root, v, inst, n + 1)
    ensures judge(v, inst) <==> Demands(root, v, inst, judge, atom)
  {
    var below := (s, i) => Defined(root, s, i, n + 1 - 1);
    PartsAgree(root, v, inst, ends, below, ends, ends, atom);
    VerdictDemands(root, v, inst, n + 1, judge, atom);
  }

  /** A schema of a document rewritten with it keeps its verdict on every instance on
      which it has one, whatever the atoms mean. */
  lemma {:induction false} RewritePreservesMeaning(root: Json, root': Json, v: Json, depth: nat, inst: Json, n: nat, atom: Judge)
    requires IsLosslessDocument(root) && IsRewrite(root, root') && IsSchema(root, v) && IsLossless(root, v)
    requires Walked(v, Definitions(root), depth).Some?
    ensures SameVerdict(root, v, root', Walked(v, Definitions(root), depth).value, inst, n, atom)
    decreases n, 2, 0
  {
    if Defined(root, v, inst, n) {
      if IsStructural(v) {
        var below: nat := n - 1;
        StructuralPreserved(root, root', v.fields, depth, inst, below, n, atom);
      } else {
        AtomPreserved(root, root', v, depth, inst, n, atom);
      }
    }
  }

  lemma AtomPreserved(root: Json, root': Json, v: Json, depth: nat, inst: Json, n: nat, atom: Judge)
    requires IsSchema(root, v) && !IsStructural(v) && Walked(v, Definitions(root), depth).Some? && n > 0
    ensures SameVerdict(root, v, root', Walked(v, Definitions(root), depth).value, inst, n, atom)
  {
    WalkKeepsIntersectionFree(v, Definitions(root), depth);
    var judge := (s, i) => Verdict(root, s, i, atom);
    var judge' := (s, i) => Verdict(root', s, i, atom);
    VerdictDemands(root, v, inst, n, judge, atom);
    VerdictDemands(root', v, inst, n, judge', atom);
  }

  /** A type's verdict is its own in every document. */
  lemma KindVerdict(root: Json, v: Json, inst: Json, n: nat, atom: Judge)
    requires n > 0
    ensures Defined(root, Kind(v), inst, n) && (Verdict(root, Kind(v), inst, atom) <==> atom(Kind(v), inst))
  {
    var judge := (s, i) => Verdict(root, s, i, atom);
    VerdictDemands(root, Kind(v), inst, n, judge, atom);
  }

  /** The flattened node walked, and the verdicts on its parts carried over. */
  lemma {:induction false} StructuralPreserved(root: Json, root': Json, m: Object, depth: nat, inst: Json, n: nat, above: nat,
                                               atom: Judge)
    requires IsLosslessDocument(root) && IsRewrite(root, root') && IsSchema(root, Obj(m)) && IsLossless(root, Obj(m))
    requires Walked(Obj(m), Definitions(root), depth).Some? && IsStructural(Obj(m))
    requires above == n + 1 && Defined(root, Obj(m), inst, above)
    ensures SameVerdict(root, Obj(m), root', Walked(Obj(m), Definitions(root), depth).value, inst, above, atom)
    decreases n, 4, 1
  {
    var ends, ends': Judge := (s, i) => Defined(root, s, i, n), (s, i) => Defined(root', s, i, n);
    var judge, judge': Judge := (s, i) => Verdict(root, s, i, atom), (s, i) => Verdict(root', s, i, atom);
    var w := JudgedAlike(root, root', m, depth, inst, n, above, atom, ends, ends', judge, judge');
  }

  lemma {:induction false} JudgedAlike(root: Json, root': Json, m: Object, depth: nat, inst: Json, n: nat, above: nat, atom: Judge,
                                       ends: Judge, ends': Judge, judge: Judge, judge': Judge)
    returns (w: Object)
    requires IsLosslessDocument(root) && IsRewrite(root, root') && IsSchema(root, Obj(m)) && IsLossless(root, Obj(m))
    requires Walked(Obj(m), Definitions(root), depth).Some? && IsStructural(Obj(m))
    requires above == n + 1 && Defined(root, Obj(m), inst, above)
    requires forall s, i :: (ends(s, i) <==> Defined(root, s, i, n)) && (ends'(s, i) <==> Defined(root', s, i, n))
    requires IsVerdict(root, judge, atom) && IsVerdict(root', judge', atom)
    ensures Walked(Obj(m), Definitions(root), depth) == Some(Obj(w))
    ensures Defined(root', Obj(w), inst, above) && (judge'(Obj(w), inst) <==> judge(Obj(m), inst))
    decreases n, 4, 0
  {
    VerdictDemands(root, Obj(m), inst, above, judge, atom);
    VerdictIsMeaning(root, judge, atom);
    var flat;
    flat, w := WalkedLayers(root, m, depth, inst, n, above, atom, ends, judge);
    PropsPreserved(root, root', flat, w, depth, inst, n, atom, ends, judge, ends', judge');
    WalkHolds(flat, w, Definitions(root), depth, inst, judge, ends', judge');
    RefPreserved(root, root', m, w, inst, n, atom, judge, ends', judge');
    WalkedVerdict(root', w, inst, n, above, atom, ends', judge');
  }

  lemma WalkedVerdict(root': Json, w: Object, inst: Json, n: nat, above: nat, atom: Judge, ends': Judge, judge': Judge)
    requires InGrammar(w) && Members(w).None? && PartsReach(w, inst, ends') && RefHolds(root', w, inst, ends')
    requires (forall s, i :: ends'(s, i) <==> Defined(root', s, i, n)) && IsVerdict(root', judge', atom) && above == n + 1
    ensures Defined(root', Obj(w), inst, above)
    ensures judge'(Obj(w), inst) <==> Holds(w, inst, judge') && RefHolds(root', w, inst, judge')
  {
    VerdictFromDemands(root', Obj(w), inst, n, ends', judge', atom);
  }

  lemma WalkedLayers(root: Json, m: Object, depth: nat, inst: Json, n: nat, above: nat, atom: Judge, ends: Judge, judge: Judge)
    returns (flat: Object, w: Object)
    requires IsLosslessDocument(root) && IsSchema(root, Obj(m)) && IsLossless(root, Obj(m))
    requires Walked(Obj(m), Definitions(root), depth).Some? && IsStructural(Obj(m))
    requires above == n + 1 && Defined(root, Obj(m), inst, above)
    requires (forall s, i :: ends(s, i) <==> Defined(root, s, i, n)) && IsMeaning(root, judge, atom)
    ensures Walked(Obj(m), Definitions(root), depth) == Some(Obj(w)) && IsWalk(flat, w, Definitions(root), depth)
    ensures Holds(m, inst, judge) && MembersHold(m, inst, judge) <==> Holds(flat, inst, judge)
    ensures PropsOk(root, [flat]) && PartsReach(flat, inst, ends) && RefDefined(root, m, inst, n)
    ensures "$ref" in w <==> "$ref" in m
    ensures "$ref" in m ==> w["$ref"] == m["$ref"]
  {
    var defs := Definitions(root);
    flat := Flattened(m, defs, depth).value;
    w := Walked(Obj(m), defs, depth).value.fields;
    CoversBelow(root, n, ends);
    DefinedParts(root, Obj(m), inst, n, above, ends);
    FlatVerdict(root, m, flat, depth, inst, n, ends, judge, atom);
    PropsNotAllOf(root, flat);
    WalkOfMerged(m, flat, defs, depth);
    WalkOfFlat(flat, defs, depth);
    FlatKeepsRef(root, m, flat, depth);
  }

  lemma WalkOfMerged(m: Object, flat: Object, defs: Json, depth: nat)
    requires Flattened(m, defs, depth) == Some(flat) && Members(flat).None?
    ensures Walked(Obj(flat), defs, depth) == Walked(Obj(m), defs, depth)
  {
  }

  lemma {:induction false} PropsPreserved(root: Json, root': Json, flat: Object, w: Object, depth: nat, inst: Json, n: nat, atom: Judge,
                                          ends: Judge, judge: Judge, ends': Judge, judge': Judge)
    requires IsLosslessDocument(root) && IsRewrite(root, root') && PropsOk(root, [flat])
    requires IsWalk(flat, w, Definitions(root), depth) && PartsReach(flat, inst, ends)
    requires forall s, i :: (ends(s, i) <==> Defined(root, s, i, n)) && (ends'(s, i) <==> Defined(root', s, i, n))
    requires IsVerdict(root, judge, atom) && IsVerdict(root', judge', atom)
    ensures PartsCarry(flat, w, inst, judge, ends', judge')
    decreases n, 3
  {
    if "type" in flat {
      assert ends(Kind(flat["type"]), inst) && Member(w, "type") == Some(flat["type"]);
      KindVerdict(root, flat["type"], inst, n, atom);
      KindVerdict(root', flat["type"], inst, n, atom);
    }
    if inst.Obj? {
      forall p | p in Props(flat) && p in inst.fields
        ensures ends'(Props(w)[p], inst.fields[p])
        ensures judge'(Props(w)[p], inst.fields[p]) <==> judge(Props(flat)[p], inst.fields[p])
      {
        assert flat in [flat] && ends(Props(flat)[p], inst.fields[p]);
        var d: nat := depth - 2;
        PropPreserved(root, root', Props(flat)[p], Props(w)[p], d, inst.fields[p], n, atom);
      }
    }
  }

  lemma {:induction false} PropPreserved(root: Json, root': Json, v: Json, v': Json, depth: nat, inst: Json, n: nat, atom: Judge)
    requires IsLosslessDocument(root) && IsRewrite(root, root') && IsSchema(root, v) && IsLossless(root, v)
    requires Walked(v, Definitions(root), depth) == Some(v') && Defined(root, v, inst, n)
    ensures Defined(root', v', inst, n) && (Verdict(root', v', inst, atom) <==> Verdict(root, v, inst, atom))
    decreases n, 2, 1
  {
    RewritePreservesMeaning(root, root', v, depth, inst, n, atom);
  }

  lemma {:induction false} RefPreserved(root: Json, root': Json, m: Object, w: Object, inst: Json, n: nat, atom: Judge,
                                        judge: Judge, ends': Judge, judge': Judge)
    requires IsLosslessDocument(root) && IsRewrite(root, root')
    requires RefDefined(root, m, inst, n)
    requires "$ref" in w <==> "$ref" in m
    requires "$ref" in m ==> w["$ref"] == m["$ref"]
    requires forall s, i :: ends'(s, i) <==> Defined(root', s, i, n)
    requires IsVerdict(root, judge, atom) && IsVerdict(root', judge', atom)
    ensures RefHolds(root', w, inst, ends')
    ensures RefHolds(root', w, inst, judge') <==> RefHolds(root, m, inst, judge)
    decreases n, 3
  {
    if "$ref" in m {
      var t := Target(root, m["$ref"].s).value;
      var t' := Target(root', m["$ref"].s).value;
      assert IsWalkOf(root, t, t');
      var d: nat :| Walked(t, Definitions(root), d) == Some(t');
      RewritePreservesMeaning(root, root', t, d, inst, n, atom);
    }
  }

  lemma FlatKeepsRef(root: Json, m: Object, flat: Object, depth: nat)
    requires IsDocument(root) && IsStructural(Obj(m)) && IsSchema(root, Obj(m))
    requires Flattened(m, Definitions(root), depth) == Some(flat)
    ensures "$ref" in flat <==> "$ref" in m
    ensures "$ref" in m ==> flat["$ref"] == m["$ref"]
  {
    if Members(m).Some? {
      MergedKeys(Members(m).value, Definitions(root), depth - 1);
    }
  }

  // ---- the document itself ------------------------------------------------------------------------------

  lemma RootKeeps(schema: Json, key: string, depth: nat)
    requires FlattenedAllOf(schema, depth).Some? && schema.Obj? && key in schema.fields && key !in MERGED_KEYS + {"allOf"}
    ensures var schema' := FlattenedAllOf(schema, depth).value;
            && schema'.Obj? && key in schema'.fields && depth > 0
            && Walked(schema.fields[key], Definitions(schema), depth - 1) == Some(schema'.fields[key])
  {
    var flat := Flattened(schema.fields, Definitions(schema), depth).value;
    assert key in flat && flat[key] == schema.fields[key];
  }

  lemma EntryIsWalked(schema: Json, container: string, name: string, depth: nat)
    requires FlattenedAllOf(schema, depth).Some? && container in {"$defs", "definitions"}
    requires EntryOf(schema, container, name).Some? && Members(Get(schema, container).value.fields).None?
    ensures EntryOf(FlattenedAllOf(schema, depth).value, container, name).Some?
    ensures IsWalkOf(schema, EntryOf(schema, container, name).value, EntryOf(FlattenedAllOf(schema, depth).value, container, name).value)
  {
    RootKeeps(schema, container, depth);
    var entries := Get(schema, container).value.fields;
    assert Walked(Obj(entries), Definitions(schema), depth - 1).Some?;
    assert Walked(entries[name], Definitions(schema), depth - 2).Some?;
  }

  lemma FlattenedIsRewrite(schema: Json, depth: nat)
    requires IsLosslessDocument(schema) && FlattenedAllOf(schema, depth).Some?
    ensures IsRewrite(schema, FlattenedAllOf(schema, depth).value)
  {
    var schema' := FlattenedAllOf(schema, depth).value;
    forall reference | Target(schema, reference).Some?
      ensures Target(schema', reference).Some?
      ensures IsWalkOf(schema, Target(schema, reference).value, Target(schema', reference).value)
    {
      var container := if PointsInto("$defs", reference) then "$defs" else "definitions";
      NoneNamedAllOf(schema, container);
      EntryIsWalked(schema, container, NameIn(container, reference), depth);
    }
  }

  lemma NoneNamedAllOf(schema: Json, container: string)
    requires IsLosslessDocument(schema) && container in {"$defs", "definitions"} && Get(schema, container).Some?
    requires Get(schema, container).value.Obj?
    ensures Members(Get(schema, container).value.fields).None?
  {
    var entries := Get(schema, container).value.fields;
    if "allOf" in entries {
      var reference := "#/" + container + "/" + "allOf";
      var prefix := "#/" + container + "/";
      assert reference[|prefix|..] == "allOf" && reference[..|prefix|] == prefix;
      if container == "definitions" {
        assert reference[2] == 'd' && "#/$defs/"[2] == '$';
        assert !("#/" + "$defs" + "/" <= reference);
      }
      assert Target(schema, reference) == Some(entries["allOf"]);
      assert IsSchema(schema, entries["allOf"]);
    }
  }

  /** Flattening a document of the fragment that loses no constraint keeps the meaning
      of every definition: whatever the atoms mean, an instance is valid against it in
      the rewritten document, its references followed there, exactly when it was in
      the original. */
  lemma DocumentPreserved(schema: Json, depth: nat, reference: string, inst: Json, n: nat, atom: Judge)
    requires IsLosslessDocument(schema) && FlattenedAllOf(schema, depth).Some? && Target(schema, reference).Some?
    ensures var schema' := FlattenedAllOf(schema, depth).value;
            && Target(schema', reference).Some?
            && SameVerdict(schema, Target(schema, reference).value, schema', Target(schema', reference).value, inst, n, atom)
  {
    var schema' := FlattenedAllOf(schema, depth).value;
    FlattenedIsRewrite(schema, depth);
    var t, t' := Target(schema, reference).value, Target(schema', reference).value;
    assert IsWalkOf(schema, t, t');
    var d: nat :| Walked(t, Definitions(schema), d) == Some(t');
    RewritePreservesMeaning(schema, schema', t, d, inst, n, atom);
  }

  /** And of the document's own schema. */
  lemma RootPreserved(schema: Json, depth: nat, inst: Json, n: nat, atom: Judge)
    requires IsLosslessDocument(schema) && IsSchema(schema, schema) && IsLossless(schema, schema)
    requires FlattenedAllOf(schema, depth).Some?
    ensures SameVerdict(schema, schema, FlattenedAllOf(schema, depth).value, FlattenedAllOf(schema, depth).value, inst, n, atom)
  {
    FlattenedIsRewrite(schema, depth);
    RewritePreservesMeaning(schema, FlattenedAllOf(schema, depth).value, schema, depth, inst, n, atom);
  }
}
