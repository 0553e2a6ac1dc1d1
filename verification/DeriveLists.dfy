// The derive lists the eligibility justifies, against the trait rules of the
// Rust types the same pass writes.
module DeriveLists {
  import opened Common
  import opened TypeModel
  import opened GuardedTraversal
  import opened Derives

  datatype RustTrait = DebugT | CloneT | CopyT | PartialEqT | EqT | HashT | PartialOrdT | OrdT

  // When a trait belongs in a list, trait by trait.
  predicate Justified(t: RustTrait, e: Eligibility, ordered: bool) {
    match t
    case DebugT | CloneT | PartialEqT => true
    case CopyT => e.copy
    case EqT | HashT => e.eq
    case PartialOrdT => ordered
    case OrdT => ordered && e.eq
  }

  // The place of a trait in the order attributes are conventionally written in.
  function Rank(t: RustTrait): nat {
    match t
    case DebugT => 0
    case CloneT => 1
    case CopyT => 2
    case PartialEqT => 3
    case EqT => 4
    case HashT => 5
    case PartialOrdT => 6
    case OrdT => 7
  }

  ghost predicate Conventional(traits: seq<RustTrait>) {
    forall a, b :: 0 <= a < b < |traits| ==> Rank(traits[a]) < Rank(traits[b])
  }

  // The attribute is assembled by pushing; what comes out is exactly the
  // justified traits, each once, in the conventional order.
  method Attr(e: Eligibility, ordered: bool) returns (traits: seq<RustTrait>)
    ensures forall t :: t in traits <==> Justified(t, e, ordered)
    ensures Conventional(traits)
  {
    traits := [DebugT, CloneT];
    if e.copy {
      traits := traits + [CopyT];
    }
    traits := traits + [PartialEqT];
    if e.eq {
      traits := traits + [EqT];
      traits := traits + [HashT];
    }
    if ordered {
      traits := traits + [PartialOrdT];
      if e.eq {
        traits := traits + [OrdT];
      }
    }
  }

  // An ordering is derived for a named scalar over a number, and nothing else.
  predicate NumericNamedScalar(d: Decl) {
    d.kind.ScalarDecl? && d.kind.scalar in {FloatBacking, IntegerBacking}
  }

  predicate DeclDerives(m: Model, i: nat, t: RustTrait)
    requires i < |m.decls|
  {
    Justified(t, DeclEligibility(m, i, {}), NumericNamedScalar(m.decls[i]))
  }

  predicate TupleDerives(m: Model, fields: seq<TupleField>, t: RustTrait) {
    Justified(t, TupleEligibility(m, fields, {}), false)
  }

  method DeriveAttr(m: Model, i: nat) returns (traits: seq<RustTrait>)
    requires i < |m.decls|
    ensures forall t :: t in traits <==> DeclDerives(m, i, t)
    ensures Conventional(traits)
    ensures DebugT in traits && CloneT in traits && PartialEqT in traits
    ensures m.UniqueNames() ==>
              && (CopyT in traits <==> i in Qualified(m, CopyTrait))
              && (EqT in traits <==> i in Qualified(m, EqTrait)) && (HashT in traits <==> i in Qualified(m, EqTrait))
    ensures PartialOrdT in traits <==> m.decls[i].kind in {ScalarDecl(FloatBacking), ScalarDecl(IntegerBacking)}
    ensures OrdT in traits <==> m.decls[i].kind == ScalarDecl(IntegerBacking)
  {
    if m.UniqueNames() {
      EligibilityIsLeastFixedPoint(m, CopyTrait);
      EligibilityIsLeastFixedPoint(m, EqTrait);
    }
    var seen := new PathSet();
    var e := WalkDecl(m, i, seen);
    traits := Attr(e, NumericNamedScalar(m.decls[i]));
  }

  method TupleDeriveAttr(m: Model, fields: seq<TupleField>) returns (traits: seq<RustTrait>)
    ensures forall t :: t in traits <==> TupleDerives(m, fields, t)
    ensures Conventional(traits)
    ensures DebugT in traits && CloneT in traits && PartialEqT in traits && PartialOrdT !in traits && OrdT !in traits
    ensures m.UniqueNames() ==>
              && (CopyT in traits <==> TupleHas(m, fields, CopyTrait, Qualified(m, CopyTrait)))
              && (EqT in traits <==> TupleHas(m, fields, EqTrait, Qualified(m, EqTrait)))
              && (HashT in traits <==> EqT in traits)
  {
    TupleAgrees(m, fields, CopyTrait, {});
    TupleAgrees(m, fields, EqTrait, {});
    if m.UniqueNames() {
      EligibilityIsLeastFixedPoint(m, CopyTrait);
      EligibilityIsLeastFixedPoint(m, EqTrait);
    }
    var seen := new PathSet();
    var e := WalkTuple(m, fields, seen);
    traits := Attr(e, false);
  }

  // -------------------------------------------------------------------
  // The Rust type each position is written as, and the traits the language
  // gives it.
  // -------------------------------------------------------------------

  datatype RustType =
    | F64
    | I64
    | Bool
    | Byte
    | Str
    | Unit
    | Vec(element: RustType)
    | FixedArray(element: RustType, length: nat)
    | Pair(first: RustType, second: RustType)
    | OptionOf(inner: RustType)
    | DeclType(index: nat)
    | TupleStruct(fields: seq<TupleField>)
    | PathTo(text: string)

  function BackingType(b: Backing): RustType {
    match b
    case FloatBacking => F64
    case IntegerBacking => I64
    case BooleanBacking => Bool
    case StringBacking => Str
    case BytesBacking => Vec(Byte)
  }

  function PrimitiveRustType(p: Primitive): RustType {
    match p
    case Boolean => Bool
    case Integer => I64
    case Float => F64
    case String => Str
    case Bytes => Vec(Byte)
    case Unspecified => Unit
  }

  function RefType(m: Model, r: TypeRef): RustType {
    match m.Lookup(r)
    case Some(i) => DeclType(i)
    case None => if r.Foreign? then PathTo(r.path) else PathTo("")
  }

  function PositionType(m: Model, t: Option<Type>): RustType
    decreases t
  {
    match t
    case None => Unit
    case Some(t) =>
      var inner := match t.kind
        case Named(r) => RefType(m, r)
        case PrimitiveKind(p) => PrimitiveRustType(p)
        case Inline(b) => BackingType(b)
        case TupleKind(None) => PathTo("")
        case TupleKind(Some(tuple)) => TupleStruct(tuple.fields)
        case ArrayKind(element, amin, amax) =>
          if amin == amax then FixedArray(PositionType(m, element), amin) else Vec(PositionType(m, element))
        case MapKind(key, val, _, _) => Vec(Pair(PositionType(m, key), PositionType(m, val)))
        case StreamKind | UnsetKind => Unit;
      if t.optional then OptionOf(inner) else inner
  }

  // The language's own rules for the library types; for a generated type, the
  // list this pass writes for it; for a path into another package, the three
  // every generated type has.
  predicate Implements(m: Model, ty: RustType, t: RustTrait)
    decreases ty
  {
    match ty
    case F64 => t !in {EqT, HashT, OrdT}
    case I64 | Bool | Byte | Unit => true
    case Str => t != CopyT
    case Vec(e) => t != CopyT && Implements(m, e, t)
    case FixedArray(e, _) => Implements(m, e, t)
    case Pair(a, b) => Implements(m, a, t) && Implements(m, b, t)
    case OptionOf(inner) => Implements(m, inner, t)
    case DeclType(i) => i < |m.decls| && DeclDerives(m, i, t)
    case TupleStruct(fields) => TupleDerives(m, fields, t)
    case PathTo(_) => t in {DebugT, CloneT, PartialEqT}
  }

  // -------------------------------------------------------------------
  // Every list compiles.
  // -------------------------------------------------------------------

  lemma {:induction false} UnconditionalEverywhere(m: Model, t: Option<Type>, tr: RustTrait)
    requires tr in {DebugT, CloneT, PartialEqT}
    ensures Implements(m, PositionType(m, t), tr)
    decreases t
  {
    if t.Some? {
      match t.value.kind {
        case ArrayKind(element, _, _) => UnconditionalEverywhere(m, element, tr);
        case MapKind(key, val, _, _) =>
          UnconditionalEverywhere(m, key, tr);
          UnconditionalEverywhere(m, val, tr);
        case _ =>
      }
    }
  }

  // The trait condition behind `Copy`, `Eq` and `Hash`.
  function ConditionOf(tr: RustTrait): Conditional {
    if tr == CopyT then CopyTrait else EqTrait
  }

  function ArmType(m: Model, arm: Arm): RustType {
    match arm.reference
    case Some(r) => RefType(m, r)
    case None => PathTo("")
  }

  // The types a generated item holds by value.
  predicate Holds(m: Model, i: nat, ty: RustType) {
    i < |m.decls| &&
    match m.decls[i].kind
    case ScalarDecl(b) => ty == BackingType(b)
    case StructDecl(slots) =>
      exists k :: 0 <= k < |slots| && slots[k].FieldSlot? && ty == PositionType(m, slots[k].field.typ)
    case UnionDecl(arms) =>
      exists k :: 0 <= k < |arms| && ty == ArmType(m, arms[k])
    case _ => false
  }

  // A type the rules see through: nothing is missing in it, and for `Copy`
  // nothing repeated, since a fixed array is refused whatever it holds.
  predicate SeenThrough(ty: RustType, tr: RustTrait)
    decreases ty
  {
    match ty
    case Unit => false
    case Vec(e) => SeenThrough(e, tr)
    case FixedArray(e, _) => tr != CopyT && SeenThrough(e, tr)
    case Pair(a, b) => SeenThrough(a, tr) && SeenThrough(b, tr)
    case OptionOf(inner) => SeenThrough(inner, tr)
    case _ => true
  }

  // The language gives a type the trait, and the rules see it.
  predicate Grants(m: Model, ty: RustType, tr: RustTrait) {
    Implements(m, ty, tr) && SeenThrough(ty, tr)
  }

  lemma {:induction false} PositionHasIff(m: Model, t: Option<Type>, tr: RustTrait)
    requires tr in {CopyT, EqT, HashT}
    ensures PositionHas(m, t, ConditionOf(tr), Eligible(m, ConditionOf(tr), {})) <==> Grants(m, PositionType(m, t), tr)
    decreases t, 1
  {
    if t.Some? { KindHasIff(m, t, Type(false, t.value.kind), tr); }
  }

  // The position itself, and its kind where it is optional.
  lemma {:induction false} KindHasIff(m: Model, t: Option<Type>, plain: Type, tr: RustTrait)
    requires t.Some? && plain == Type(false, t.value.kind) && tr in {CopyT, EqT, HashT}
    ensures PositionHas(m, t, ConditionOf(tr), Eligible(m, ConditionOf(tr), {})) <==> Grants(m, PositionType(m, t), tr)
    decreases t, 0
  {
    var inner := PositionType(m, Some(plain));
    assert PositionType(m, t) == if t.value.optional then OptionOf(inner) else inner;
    assert Grants(m, OptionOf(inner), tr) <==> Grants(m, inner, tr);
    match t.value.kind {
      case ArrayKind(element, amin, _) =>
        PositionHasIff(m, element, tr);
        RepeatedGrants(m, PositionType(m, element), amin, tr);
      case MapKind(key, val, _, _) =>
        PositionHasIff(m, key, tr);
        PositionHasIff(m, val, tr);
        EntriesGrant(m, PositionType(m, key), PositionType(m, val), tr);
      case TupleKind(tuple) =>
        if tuple.Some? { TupleAgrees(m, tuple.value.fields, ConditionOf(tr), {}); }
      case _ =>
    }
  }

  lemma {:induction false} RepeatedGrants(m: Model, e: RustType, n: nat, tr: RustTrait)
    ensures Grants(m, Vec(e), tr) <==> tr != CopyT && Grants(m, e, tr)
    ensures Grants(m, FixedArray(e, n), tr) <==> tr != CopyT && Grants(m, e, tr)
  {
  }

  lemma {:induction false} EntriesGrant(m: Model, a: RustType, b: RustType, tr: RustTrait)
    ensures Grants(m, Vec(Pair(a, b)), tr) <==> tr != CopyT && Grants(m, a, tr) && Grants(m, b, tr)
  {
    var pair := Pair(a, b);
    assert Grants(m, pair, tr) <==> Grants(m, a, tr) && Grants(m, b, tr);
    RepeatedGrants(m, pair, 0, tr);
  }

  // `Copy`, `Eq` and `Hash` are derived wherever the language would let them be:
  // exactly when every type held has them, under the lists of the same pass, and
  // is seen through.
  lemma {:induction false} DerivedWherePossible(m: Model, i: nat, tr: RustTrait)
    requires m.UniqueNames() && i < |m.decls| && tr in {CopyT, EqT, HashT}
    requires !m.decls[i].kind.ConstantDecl? && !m.decls[i].kind.UnsetDecl?
    ensures DeclDerives(m, i, tr) <==> forall ty :: Holds(m, i, ty) ==> Grants(m, ty, tr)
  {
    var c := ConditionOf(tr);
    EligibilityIsLeastFixedPoint(m, c);
    assert DeclDerives(m, i, tr) <==> i in Step(|m.decls|, Rule(m, c), Eligible(m, c, {}));
    DeclHasIff(m, i, tr);
  }

  lemma {:induction false} DeclHasIff(m: Model, i: nat, tr: RustTrait)
    requires i < |m.decls| && tr in {CopyT, EqT, HashT}
    requires !m.decls[i].kind.ConstantDecl? && !m.decls[i].kind.UnsetDecl?
    ensures DeclHas(m, i, ConditionOf(tr), Eligible(m, ConditionOf(tr), {})) <==>
              forall ty :: Holds(m, i, ty) ==> Grants(m, ty, tr)
  {
    match m.decls[i].kind {
      case StructDecl(slots) => SlotsGrant(m, i, tr);
      case UnionDecl(arms) =>
        forall k | 0 <= k < |arms| ensures Holds(m, i, ArmType(m, arms[k])) {
        }
      case ScalarDecl(b) => assert Holds(m, i, BackingType(b));
      case _ =>
    }
  }

  lemma {:induction false} SlotsGrant(m: Model, i: nat, tr: RustTrait)
    requires i < |m.decls| && tr in {CopyT, EqT, HashT} && m.decls[i].kind.StructDecl?
    ensures DeclHas(m, i, ConditionOf(tr), Eligible(m, ConditionOf(tr), {})) <==>
              forall ty :: Holds(m, i, ty) ==> Grants(m, ty, tr)
  {
    var slots := m.decls[i].kind.slots;
    forall k | 0 <= k < |slots| && slots[k].FieldSlot?
      ensures Holds(m, i, PositionType(m, slots[k].field.typ))
      ensures PositionHas(m, slots[k].field.typ, ConditionOf(tr), Eligible(m, ConditionOf(tr), {})) <==>
                Grants(m, PositionType(m, slots[k].field.typ), tr)
    {
      PositionHasIff(m, slots[k].field.typ, tr);
    }
  }

  predicate Supertrait(s: RustTrait, t: RustTrait) {
    match t
    case CopyT => s == CloneT
    case EqT => s == PartialEqT
    case PartialOrdT => s == PartialEqT
    case OrdT => s == EqT || s == PartialOrdT
    case _ => false
  }

  // A trait in the list of a declaration holds of every type the declaration
  // is made of, under the lists the same pass writes for those types, and the
  // list carries its supertraits: the derive of the one compiles against the
  // derives of the others.
  lemma {:induction false} DeclarationDerivesCompile(m: Model, i: nat, tr: RustTrait, ty: RustType)
    requires m.UniqueNames()
    requires i < |m.decls| && DeclDerives(m, i, tr) && Holds(m, i, ty)
    ensures Implements(m, ty, tr)
    ensures forall s :: Supertrait(s, tr) ==> DeclDerives(m, i, s)
  {
    var d := m.decls[i];
    if tr in {CopyT, EqT, HashT} {
      DerivedWherePossible(m, i, tr);
    } else if d.kind.StructDecl? {
      var slots := d.kind.slots;
      var k :| 0 <= k < |slots| && slots[k].FieldSlot? && ty == PositionType(m, slots[k].field.typ);
      UnconditionalEverywhere(m, slots[k].field.typ, tr);
    }
  }

  lemma {:induction false} TupleDerivesCompile(m: Model, fields: seq<TupleField>, tr: RustTrait, k: nat)
    requires TupleDerives(m, fields, tr) && k < |fields|
    ensures Implements(m, PositionType(m, fields[k].typ), tr)
  {
    if tr in {CopyT, EqT, HashT} {
      TupleAgrees(m, fields, ConditionOf(tr), {});
      PositionHasIff(m, fields[k].typ, tr);
    } else {
      UnconditionalEverywhere(m, fields[k].typ, tr);
    }
  }

  // -------------------------------------------------------------------
  // The event enum of an interface.
  // -------------------------------------------------------------------

  lemma {:induction false} PayloadHas(m: Model, r: TypeRef, c: Conditional)
    ensures Has(RefEligibility(m, r, {}), c) <==> Implements(m, RefType(m, r), if c.CopyTrait? then CopyT else EqT)
    ensures m.UniqueNames() ==> (Has(RefEligibility(m, r, {}), c) <==> RefHas(m, r, Qualified(m, c)))
  {
    if m.UniqueNames() { EligibilityIsLeastFixedPoint(m, c); }
  }

  method MeetPayloads(m: Model, payloads: seq<TypeRef>) returns (e: Eligibility)
    ensures e.copy <==> forall k :: 0 <= k < |payloads| ==> Has(RefEligibility(m, payloads[k], {}), CopyTrait)
    ensures e.eq <==> forall k :: 0 <= k < |payloads| ==> Has(RefEligibility(m, payloads[k], {}), EqTrait)
  {
    e := ALL;
    for k := 0 to |payloads|
      invariant e.copy <==> forall j :: 0 <= j < k ==> Has(RefEligibility(m, payloads[j], {}), CopyTrait)
      invariant e.eq <==> forall j :: 0 <= j < k ==> Has(RefEligibility(m, payloads[j], {}), EqTrait)
    {
      var seen := new PathSet();
      var one := WalkRef(m, payloads[k], seen);
      e := e.Meet(one);
    }
  }

  method EventDeriveAttr(m: Model, payloads: seq<TypeRef>) returns (traits: seq<RustTrait>)
    ensures forall t :: t in traits <==>
              t in {DebugT, CloneT, PartialEqT} ||
              (t in {CopyT, EqT} && forall k :: 0 <= k < |payloads| ==> Implements(m, RefType(m, payloads[k]), t))
    ensures Conventional(traits)
    ensures m.UniqueNames() ==>
              && (CopyT in traits <==> forall k :: 0 <= k < |payloads| ==>
                    RefHas(m, payloads[k], Qualified(m, CopyTrait)))
              && (EqT in traits <==> forall k :: 0 <= k < |payloads| ==> RefHas(m, payloads[k], Qualified(m, EqTrait)))
  {
    var e := MeetPayloads(m, payloads);
    forall k | 0 <= k < |payloads|
      ensures Has(RefEligibility(m, payloads[k], {}), CopyTrait) <==> Implements(m, RefType(m, payloads[k]), CopyT)
      ensures Has(RefEligibility(m, payloads[k], {}), EqTrait) <==> Implements(m, RefType(m, payloads[k]), EqT)
      ensures m.UniqueNames() ==>
                && (Has(RefEligibility(m, payloads[k], {}), CopyTrait) <==>
                     RefHas(m, payloads[k], Qualified(m, CopyTrait)))
                && (Has(RefEligibility(m, payloads[k], {}), EqTrait) <==> RefHas(m, payloads[k], Qualified(m, EqTrait)))
    {
      PayloadHas(m, payloads[k], CopyTrait);
      PayloadHas(m, payloads[k], EqTrait);
    }
    traits := [DebugT, CloneT];
    if e.copy {
      traits := traits + [CopyT];
    }
    traits := traits + [PartialEqT];
    if e.eq {
      traits := traits + [EqT];
    }
  }
}
