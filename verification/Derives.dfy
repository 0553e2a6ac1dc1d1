// Derive eligibility: the guarded traversal of the type graph that decides which
// declarations may derive `Copy` and `Eq`.
module Derives {
  import opened Common
  import opened TypeModel
  import opened GuardedTraversal

  datatype Eligibility = Eligibility(copy: bool, eq: bool)
  {
    function Meet(other: Eligibility): Eligibility {
      Eligibility(copy && other.copy, eq && other.eq)
    }
  }

  const NONE := Eligibility(false, false)
  const ALL := Eligibility(true, true)
  const COPY_ONLY := Eligibility(true, false)
  const EQ_ONLY := Eligibility(false, true)

  function ScalarEligibility(b: Backing): Eligibility {
    match b
    case FloatBacking => COPY_ONLY
    case IntegerBacking | BooleanBacking => ALL
    case StringBacking | BytesBacking => EQ_ONLY
  }

  function PrimitiveEligibility(p: Primitive): Eligibility {
    match p
    case Float => COPY_ONLY
    case Integer | Boolean => ALL
    case String | Bytes => EQ_ONLY
    case Unspecified => NONE
  }

  // -------------------------------------------------------------------
  // What the traversal computes, as a function of the path set.
  // -------------------------------------------------------------------

  function DeclEligibility(m: Model, i: nat, path: set<string>): Eligibility
    requires i < |m.decls|
    decreases |m.Names() - path|, 0, 0
  {
    var d := m.decls[i];
    if d.name in path then NONE else
    EnteringShrinks(m.Names(), path, d.name);
    var inside := path + {d.name};
    match d.kind
    case ScalarDecl(b) => ScalarEligibility(b)
    case EnumDecl(_, _) | EnumSetDecl => ALL
    case StructDecl(slots) => SlotsEligibility(m, slots, inside)
    case UnionDecl(arms) => ArmsEligibility(m, arms, inside)
    case ConstantDecl | UnsetDecl => NONE
  }

  function SlotsEligibility(m: Model, slots: seq<Slot>, path: set<string>): Eligibility
    decreases |m.Names() - path|, 2, slots
  {
    if slots == [] then ALL
    else
      var first := match slots[0]
        case FieldSlot(f) => PositionEligibility(m, f.typ, path)
        case VacantSlot => ALL;
      first.Meet(SlotsEligibility(m, slots[1..], path))
  }

  function ArmsEligibility(m: Model, arms: seq<Arm>, path: set<string>): Eligibility
    decreases |m.Names() - path|, 2, arms
  {
    if arms == [] then ALL
    else
      var first := match arms[0].reference
        case Some(r) => RefEligibility(m, r, path)
        case None => NONE;
      first.Meet(ArmsEligibility(m, arms[1..], path))
  }

  function TupleEligibility(m: Model, fields: seq<TupleField>, path: set<string>): Eligibility
    decreases |m.Names() - path|, 1, fields
  {
    if fields == [] then ALL
    else PositionEligibility(m, fields[0].typ, path).Meet(TupleEligibility(m, fields[1..], path))
  }

  function PositionEligibility(m: Model, t: Option<Type>, path: set<string>): Eligibility
    decreases |m.Names() - path|, 1, t
  {
    match t
    case None => NONE
    case Some(t) =>
      match t.kind
      case Named(r) => RefEligibility(m, r, path)
      case PrimitiveKind(p) => PrimitiveEligibility(p)
      case Inline(b) => ScalarEligibility(b)
      case TupleKind(None) => NONE
      case TupleKind(Some(tuple)) => TupleEligibility(m, tuple.fields, path)
      case ArrayKind(element, _, _) => Eligibility(false, PositionEligibility(m, element, path).eq)
      case MapKind(key, val, _, _) =>
        Eligibility(false, PositionEligibility(m, key, path).eq && PositionEligibility(m, val, path).eq)
      case StreamKind | UnsetKind => NONE
  }

  function RefEligibility(m: Model, r: TypeRef, path: set<string>): Eligibility
    decreases |m.Names() - path|, 0, 1
  {
    match m.Lookup(r)
    case Some(i) => DeclEligibility(m, i, path)
    case None => NONE
  }

  // -------------------------------------------------------------------
  // The traversal as it runs: one path set, entered and left around each
  // declaration, and found as it was left.
  // -------------------------------------------------------------------

  method WalkDecl(m: Model, i: nat, seen: PathSet) returns (r: Eligibility)
    requires i < |m.decls|
    modifies seen
    ensures r == DeclEligibility(m, i, old(seen.names))
    ensures seen.names == old(seen.names)
    decreases |m.Names() - seen.names|, 0, 0
  {
    var d := m.decls[i];
    var inserted := seen.Insert(d.name);
    if !inserted {
      return NONE;
    }
    EnteringShrinks(m.Names(), old(seen.names), m.decls[i].name);
    match d.kind {
      case ScalarDecl(b) => r := ScalarEligibility(b);
      case EnumDecl(_, _) => r := ALL;
      case EnumSetDecl => r := ALL;
      case StructDecl(slots) => r := WalkSlots(m, slots, seen);
      case UnionDecl(arms) => r := WalkArms(m, arms, seen);
      case ConstantDecl => r := NONE;
      case UnsetDecl => r := NONE;
    }
    seen.Remove(d.name);
  }

  method WalkSlots(m: Model, slots: seq<Slot>, seen: PathSet) returns (r: Eligibility)
    modifies seen
    ensures r == SlotsEligibility(m, slots, old(seen.names))
    ensures seen.names == old(seen.names)
    decreases |m.Names() - seen.names|, 2, slots
  {
    r := ALL;
    if slots != [] {
      var first := ALL;
      if slots[0].FieldSlot? {
        first := WalkPosition(m, slots[0].field.typ, seen);
      }
      var rest := WalkSlots(m, slots[1..], seen);
      r := first.Meet(rest);
    }
  }

  method WalkArms(m: Model, arms: seq<Arm>, seen: PathSet) returns (r: Eligibility)
    modifies seen
    ensures r == ArmsEligibility(m, arms, old(seen.names))
    ensures seen.names == old(seen.names)
    decreases |m.Names() - seen.names|, 2, arms
  {
    r := ALL;
    if arms != [] {
      var first := NONE;
      if arms[0].reference.Some? {
        first := WalkRef(m, arms[0].reference.value, seen);
      }
      var rest := WalkArms(m, arms[1..], seen);
      r := first.Meet(rest);
    }
  }

  method WalkTuple(m: Model, fields: seq<TupleField>, seen: PathSet) returns (r: Eligibility)
    modifies seen
    ensures r == TupleEligibility(m, fields, old(seen.names))
    ensures seen.names == old(seen.names)
    decreases |m.Names() - seen.names|, 1, fields
  {
    r := ALL;
    if fields != [] {
      var first := WalkPosition(m, fields[0].typ, seen);
      var rest := WalkTuple(m, fields[1..], seen);
      r := first.Meet(rest);
    }
  }

  method WalkPosition(m: Model, t: Option<Type>, seen: PathSet) returns (r: Eligibility)
    modifies seen
    ensures r == PositionEligibility(m, t, old(seen.names))
    ensures seen.names == old(seen.names)
    decreases |m.Names() - seen.names|, 1, t
  {
    if t.None? {
      return NONE;
    }
    match t.value.kind {
      case Named(reference) => r := WalkRef(m, reference, seen);
      case PrimitiveKind(p) => r := PrimitiveEligibility(p);
      case Inline(b) => r := ScalarEligibility(b);
      case TupleKind(tuple) =>
        r := NONE;
        if tuple.Some? {
          r := WalkTuple(m, tuple.value.fields, seen);
        }
      case ArrayKind(element, _, _) =>
        var inner := WalkPosition(m, element, seen);
        r := Eligibility(false, inner.eq);
      case MapKind(key, val, _, _) =>
        var k := WalkPosition(m, key, seen);
        var v := WalkPosition(m, val, seen);
        r := Eligibility(false, k.eq && v.eq);
      case StreamKind => r := NONE;
      case UnsetKind => r := NONE;
    }
  }

  method WalkRef(m: Model, reference: TypeRef, seen: PathSet) returns (r: Eligibility)
    modifies seen
    ensures r == RefEligibility(m, reference, old(seen.names))
    ensures seen.names == old(seen.names)
    decreases |m.Names() - seen.names|, 0, 1
  {
    r := NONE;
    var found := m.Lookup(reference);
    if found.Some? {
      r := WalkDecl(m, found.value, seen);
    }
  }

  // -------------------------------------------------------------------
  // The rules the documentation states, one step at a time: what a position
  // needs, given which declarations already qualify.
  // -------------------------------------------------------------------

  // The two conditional derives; `Hash` follows `Eq`.
  datatype Conditional = CopyTrait | EqTrait

  predicate Has(e: Eligibility, c: Conditional) {
    match c
    case CopyTrait => e.copy
    case EqTrait => e.eq
  }

  // `Copy` wants an `f64`, `i64` or `bool` leaf; `Eq` wants no `f64`.
  predicate LeafHas(b: Backing, c: Conditional) {
    match c
    case CopyTrait => b in {FloatBacking, IntegerBacking, BooleanBacking}
    case EqTrait => b != FloatBacking
  }

  predicate PrimitiveHas(p: Primitive, c: Conditional) {
    match c
    case CopyTrait => p in {Float, Integer, Boolean}
    case EqTrait => p != Float && p != Unspecified
  }

  predicate PositionHas(m: Model, t: Option<Type>, c: Conditional, S: set<nat>)
    decreases t
  {
    t.Some? &&
    match t.value.kind
    case Named(r) => RefHas(m, r, S)
    case PrimitiveKind(p) => PrimitiveHas(p, c)
    case Inline(b) => LeafHas(b, c)
    case TupleKind(tuple) => tuple.Some? && TupleHas(m, tuple.value.fields, c, S)
    case ArrayKind(element, _, _) => c.EqTrait? && PositionHas(m, element, c, S)
    case MapKind(key, val, _, _) => c.EqTrait? && PositionHas(m, key, c, S) && PositionHas(m, val, c, S)
    case StreamKind | UnsetKind => false
  }

  predicate TupleHas(m: Model, fields: seq<TupleField>, c: Conditional, S: set<nat>)
    decreases fields
  {
    forall k :: 0 <= k < |fields| ==> PositionHas(m, fields[k].typ, c, S)
  }

  predicate RefHas(m: Model, r: TypeRef, S: set<nat>) {
    r.Local? && r.index < |m.decls| && r.index in S
  }

  predicate DeclHas(m: Model, i: nat, c: Conditional, S: set<nat>)
    requires i < |m.decls|
  {
    match m.decls[i].kind
    case ScalarDecl(b) => LeafHas(b, c)
    case EnumDecl(_, _) | EnumSetDecl => true
    case StructDecl(slots) =>
      forall k :: 0 <= k < |slots| && slots[k].FieldSlot? ==> PositionHas(m, slots[k].field.typ, c, S)
    case UnionDecl(arms) =>
      forall k :: 0 <= k < |arms| ==> arms[k].reference.Some? && RefHas(m, arms[k].reference.value, S)
    case ConstantDecl | UnsetDecl => false
  }

  // The rules as one operator on sets of declarations.
  ghost function Rule(m: Model, c: Conditional): (nat, set<nat>) -> bool {
    (i: nat, S: set<nat>) => i < |m.decls| && DeclHas(m, i, c, S)
  }

  // The declarations with a finite derivation under the rules.
  ghost function Qualified(m: Model, c: Conditional): set<nat> {
    Derivable(|m.decls|, Rule(m, c), |m.Names()|)
  }

  // The declarations the traversal answers yes for, from a given path.
  ghost function Eligible(m: Model, c: Conditional, path: set<string>): set<nat> {
    set i: nat | i < |m.decls| && Has(DeclEligibility(m, i, path), c)
  }

  // -------------------------------------------------------------------
  // One level of the traversal is one step of the rules.
  // -------------------------------------------------------------------

  lemma {:induction false} PositionAgrees(m: Model, t: Option<Type>, c: Conditional, path: set<string>)
    ensures Has(PositionEligibility(m, t, path), c) == PositionHas(m, t, c, Eligible(m, c, path))
    decreases t
  {
    if t.Some? {
      match t.value.kind {
        case TupleKind(tuple) => if tuple.Some? { TupleAgrees(m, tuple.value.fields, c, path); }
        case ArrayKind(element, _, _) => PositionAgrees(m, element, c, path);
        case MapKind(key, val, _, _) =>
          PositionAgrees(m, key, c, path);
          PositionAgrees(m, val, c, path);
        case _ =>
      }
    }
  }

  lemma {:induction false} TupleAgrees(m: Model, fields: seq<TupleField>, c: Conditional, path: set<string>)
    ensures Has(TupleEligibility(m, fields, path), c) == TupleHas(m, fields, c, Eligible(m, c, path))
    decreases fields
  {
    if fields != [] {
      PositionAgrees(m, fields[0].typ, c, path);
      TupleAgrees(m, fields[1..], c, path);
      var S := Eligible(m, c, path);
      assert TupleHas(m, fields, c, S) == (PositionHas(m, fields[0].typ, c, S) && TupleHas(m, fields[1..], c, S)) by {
        assert forall k :: 1 <= k < |fields| ==> fields[k] == fields[1..][k - 1];
      }
    }
  }

  lemma {:induction false} SlotsAgree(m: Model, slots: seq<Slot>, c: Conditional, path: set<string>)
    ensures Has(SlotsEligibility(m, slots, path), c) <==>
            forall k :: 0 <= k < |slots| && slots[k].FieldSlot? ==>
              PositionHas(m, slots[k].field.typ, c, Eligible(m, c, path))
  {
    if slots != [] {
      if slots[0].FieldSlot? { PositionAgrees(m, slots[0].field.typ, c, path); }
      SlotsAgree(m, slots[1..], c, path);
      assert forall k :: 1 <= k < |slots| ==> slots[k] == slots[1..][k - 1];
    }
  }

  lemma {:induction false} ArmsAgree(m: Model, arms: seq<Arm>, c: Conditional, path: set<string>)
    ensures Has(ArmsEligibility(m, arms, path), c) <==>
            forall k :: 0 <= k < |arms| ==>
              arms[k].reference.Some? && RefHas(m, arms[k].reference.value, Eligible(m, c, path))
  {
    if arms != [] {
      ArmsAgree(m, arms[1..], c, path);
      assert forall k :: 1 <= k < |arms| ==> arms[k] == arms[1..][k - 1];
    }
  }

  lemma {:induction false} DeclAgrees(m: Model, i: nat, c: Conditional, path: set<string>)
    ensures i in Eligible(m, c, path) <==>
            && i < |m.decls|
            && m.decls[i].name !in path
            && DeclHas(m, i, c, Eligible(m, c, path + {m.decls[i].name}))
  {
    if i >= |m.decls| { return; }
    var inside := path + {m.decls[i].name};
    match m.decls[i].kind {
      case StructDecl(slots) => SlotsAgree(m, slots, c, inside);
      case UnionDecl(arms) => ArmsAgree(m, arms, c, inside);
      case _ =>
    }
  }

  // -------------------------------------------------------------------
  // The least fixed point.
  // -------------------------------------------------------------------

  lemma {:induction false} PositionMonotone(m: Model, t: Option<Type>, c: Conditional, S: set<nat>, T: set<nat>)
    requires S <= T && PositionHas(m, t, c, S)
    ensures PositionHas(m, t, c, T)
    decreases t
  {
    match t.value.kind {
      case TupleKind(tuple) => TupleMonotone(m, tuple.value.fields, c, S, T);
      case ArrayKind(element, _, _) => PositionMonotone(m, element, c, S, T);
      case MapKind(key, val, _, _) =>
        PositionMonotone(m, key, c, S, T);
        PositionMonotone(m, val, c, S, T);
      case _ =>
    }
  }

  lemma {:induction false} TupleMonotone(m: Model, fields: seq<TupleField>, c: Conditional, S: set<nat>, T: set<nat>)
    requires S <= T && TupleHas(m, fields, c, S)
    ensures TupleHas(m, fields, c, T)
    decreases fields
  {
    forall k | 0 <= k < |fields| ensures PositionHas(m, fields[k].typ, c, T) {
      PositionMonotone(m, fields[k].typ, c, S, T);
    }
  }

  lemma {:induction false} RuleIsMonotone(m: Model, c: Conditional)
    ensures Monotone(Rule(m, c))
  {
    var rule := Rule(m, c);
    forall i: nat, S, T | S <= T && rule(i, S) ensures rule(i, T) {
      if m.decls[i].kind.StructDecl? {
        var slots := m.decls[i].kind.slots;
        forall k | 0 <= k < |slots| && slots[k].FieldSlot?
          ensures PositionHas(m, slots[k].field.typ, c, T)
        {
          PositionMonotone(m, slots[k].field.typ, c, S, T);
        }
      }
    }
  }

  ghost function Answer(m: Model, c: Conditional): set<string> -> set<nat> {
    path => Eligible(m, c, path)
  }

  lemma {:induction false} EligibilityTraverses(m: Model, c: Conditional)
    ensures Traverses(m.NameList(), Rule(m, c), Answer(m, c))
  {
    forall path, i ensures Level(m.NameList(), Rule(m, c), Answer(m, c), path, i) {
      DeclAgrees(m, i, c, path);
    }
  }

  // The guarded depth-first traversal, started from the empty path, computes
  // the least fixed point of the rules: the declarations it accepts are those
  // with a finite derivation, and they lie in every set closed under the
  // rules. Cyclic packages included.
  lemma {:induction false} EligibilityIsLeastFixedPoint(m: Model, c: Conditional)
    requires m.UniqueNames()
    ensures Eligible(m, c, {}) == Qualified(m, c)
    ensures Step(|m.decls|, Rule(m, c), Eligible(m, c, {})) == Eligible(m, c, {})
    ensures forall S :: Step(|m.decls|, Rule(m, c), S) <= S ==> Eligible(m, c, {}) <= S
  {
    RuleIsMonotone(m, c);
    EligibilityTraverses(m, c);
    NamesAgree(m);
    AnswerIsLeastFixedPoint(m.NameList(), Rule(m, c), Answer(m, c));
  }

  // -------------------------------------------------------------------
  // Cycles.
  // -------------------------------------------------------------------

  // A live position names declaration `j`, at any depth.
  predicate Mentions(m: Model, t: Option<Type>, j: nat)
    decreases t
  {
    t.Some? &&
    match t.value.kind
    case Named(r) => r == Local(j) && j < |m.decls|
    case TupleKind(tuple) =>
      tuple.Some? && exists k :: 0 <= k < |tuple.value.fields| && Mentions(m, tuple.value.fields[k].typ, j)
    case ArrayKind(element, _, _) => Mentions(m, element, j)
    case MapKind(key, val, _, _) => Mentions(m, key, j) || Mentions(m, val, j)
    case _ => false
  }

  predicate DeclMentions(m: Model, i: nat, j: nat) {
    i < |m.decls| &&
    match m.decls[i].kind
    case StructDecl(slots) => exists k :: 0 <= k < |slots| && slots[k].FieldSlot? && Mentions(m, slots[k].field.typ, j)
    case UnionDecl(arms) =>
      j < |m.decls| && exists k :: 0 <= k < |arms| && arms[k].reference == Some(Local(j))
    case _ => false
  }

  lemma {:induction false} MentionedQualifies(m: Model, t: Option<Type>, c: Conditional, S: set<nat>, j: nat)
    requires PositionHas(m, t, c, S) && Mentions(m, t, j)
    ensures j in S
    decreases t
  {
    match t.value.kind {
      case TupleKind(tuple) =>
        var k :| 0 <= k < |tuple.value.fields| && Mentions(m, tuple.value.fields[k].typ, j);
        assert tuple.value.fields[k] in tuple.value.fields;
        MentionedQualifies(m, tuple.value.fields[k].typ, c, S, j);
      case ArrayKind(element, _, _) => MentionedQualifies(m, element, c, S, j);
      case MapKind(key, val, _, _) =>
        if Mentions(m, key, j) { MentionedQualifies(m, key, c, S, j); }
        else { MentionedQualifies(m, val, c, S, j); }
      case _ =>
    }
  }

  ghost function MentionEdge(m: Model): (nat, nat) -> bool {
    (i: nat, j: nat) => DeclMentions(m, i, j)
  }

  lemma {:induction false} RuleDrawsOnMentions(m: Model, c: Conditional)
    ensures Draws(Rule(m, c), MentionEdge(m))
  {
    var rule := Rule(m, c);
    forall i: nat, j: nat, S | rule(i, S) && DeclMentions(m, i, j) ensures j in S {
      if m.decls[i].kind.StructDecl? {
        var slots := m.decls[i].kind.slots;
        var at :| 0 <= at < |slots| && slots[at].FieldSlot? && Mentions(m, slots[at].field.typ, j);
        MentionedQualifies(m, slots[at].field.typ, c, S, j);
      }
    }
  }

  // A declaration from which the live positions lead round to a repeat, at
  // whatever distance, keeps neither conditional derive.
  lemma {:induction false} WhatReachesACycleIsRefused(m: Model, c: Conditional, p: seq<nat>, a: nat, b: nat)
    requires m.UniqueNames()
    requires forall k :: 0 <= k < |p| - 1 ==> DeclMentions(m, p[k], p[k + 1])
    requires a < b < |p| && p[a] == p[b] && p[0] < |m.decls|
    ensures !Has(DeclEligibility(m, p[0], {}), c)
  {
    RuleDrawsOnMentions(m, c);
    EligibilityIsLeastFixedPoint(m, c);
    ReachingALoopRefuses(|m.decls|, Rule(m, c), MentionEdge(m), p, a, b, |m.Names()|);
    assert p[0] !in Eligible(m, c, {});
  }
}
