// What an emitted `Default` evaluates to. Evaluation is stuck where a body
// calls a `Default` that is not emitted, calls one that may lead back to it,
// or does not fit the type it initializes; no emitted default gets stuck.
module DefaultValues {
  import opened Common
  import opened TypeModel
  import opened GuardedTraversal
  import opened Defaults

  datatype Value =
    | Absent
    | Present(inner: Value)
    | ScalarV(backing: Backing, text: string)
    | NewtypeV(decl: nat, backing: Backing, text: string)
    | EnumV(decl: nat, number: int)
    | BitsV(decl: nat, bits: nat)
    | StructV(decl: nat, fields: seq<NamedValue>)
    | TupleV(fields: seq<NamedValue>)
    | ArmV(decl: nat, arm: nat, payload: Value)
    | ListV(items: seq<Value>)
    | MapV(entries: seq<Entry>)
    | ForeignV(path: string)
    | Stuck

  datatype NamedValue = NamedValue(name: string, value: Value)

  datatype Entry = Entry(key: Value, val: Value)

  function LiveFields(slots: seq<Slot>): seq<Field> {
    if slots == [] then []
    else (if slots[0].FieldSlot? then [slots[0].field] else []) + LiveFields(slots[1..])
  }

  // -------------------------------------------------------------------
  // Evaluation of a body against the type it initializes.
  // -------------------------------------------------------------------

  // How deep the calls below an emitted default go.
  ghost function Rank(m: Model, i: nat): nat
    requires m.UniqueNames() && i in Emitted(m)
  {
    EmittedIsDerivable(m);
    if m.decls[i].kind.ScalarDecl? then 0 else Height(|m.decls|, Rule(m), |m.Names()|, i)
  }

  ghost function EvalDecl(m: Model, i: nat): Value
    requires m.UniqueNames() && i in Emitted(m)
    decreases Rank(m, i), 2
  {
    var d := m.decls[i];
    match DeclDefault(m, i, {}).value
    case Newtype(j, b, text) => if j == i && d.kind == ScalarDecl(b) then NewtypeV(i, b, text) else Stuck
    case Variant(j, member) =>
      if j == i && d.kind.EnumDecl? && member in d.kind.members then EnumV(i, member.number) else Stuck
    case EmptyBits(j) => if j == i && d.kind.EnumSetDecl? then BitsV(i, 0) else Stuck
    case StructInit(inits) =>
      if d.kind.StructDecl? && |inits| == |LiveFields(d.kind.slots)| then
        var live := LiveFields(d.kind.slots);
        StructV(i, seq(|live|, k requires 0 <= k < |live| =>
          NamedValue(inits[k].name, EvalPosition(m, inits[k].init, live[k].typ, Rank(m, i)))))
      else Stuck
    case FirstArm(j, inner) =>
      if j == i && d.kind.UnionDecl? && |d.kind.arms| > 0 && d.kind.arms[0].reference.Some? then
        ArmV(i, 0, EvalKind(m, inner, Named(d.kind.arms[0].reference.value), Rank(m, i)))
      else Stuck
    case _ => Stuck
  }

  // `rank` bounds the calls that may still be made.
  ghost function EvalPosition(m: Model, e: Expr, t: Option<Type>, rank: nat): Value
    requires m.UniqueNames()
    decreases rank, 1, t
  {
    if t.None? then Stuck
    else if t.value.optional then
      match e
      case NoneOf => Absent
      case SomeOf(inner) => Present(EvalKind(m, inner, t.value.kind, rank))
      case _ => Stuck
    else EvalKind(m, e, t.value.kind, rank)
  }

  ghost function EvalKind(m: Model, e: Expr, kind: Kind, rank: nat): Value
    requires m.UniqueNames()
    decreases rank, 1, kind
  {
    match kind
    case Named(r) =>
      (match e
       case Newtype(j, b, text) =>
         if m.Lookup(r) == Some(j) && m.decls[j].kind == ScalarDecl(b) then NewtypeV(j, b, text) else Stuck
       case Variant(j, member) =>
         if m.Lookup(r) == Some(j) && m.decls[j].kind.EnumDecl? && member in m.decls[j].kind.members
         then EnumV(j, member.number) else Stuck
       case Call(ToDecl(j)) =>
         if m.Lookup(r) == Some(j) && j in Emitted(m) && Rank(m, j) < rank then EvalDecl(m, j) else Stuck
       case Call(ToForeign(path)) => if r == Foreign(path) then ForeignV(path) else Stuck
       case _ => Stuck)
    case PrimitiveKind(_) | Inline(_) => if e.Lit? then ScalarV(e.backing, e.text) else Stuck
    case TupleKind(tuple) =>
      if tuple.Some? && e == Call(ToTuple(tuple.value)) && TupleDefault(m, tuple.value.fields, {}).Some? then
        EvalTuple(m, TupleDefault(m, tuple.value.fields, {}).value, tuple.value.fields, rank)
      else Stuck
    case ArrayKind(element, amin, amax) =>
      if amin == amax then
        match e
        case EmptyFixed => if amax == 0 then ListV([]) else Stuck
        case FromFn(x) => var one := EvalPosition(m, x, element, rank); ListV(seq(amax, _ => one))
        case _ => Stuck
      else
        (match e
         case EmptyVec => ListV([])
         case Collect(count, x) => var one := EvalPosition(m, x, element, rank); ListV(seq(count, _ => one))
         case _ => Stuck)
    case MapKind(key, val, _, _) =>
      (match e
       case EmptyVec => MapV([])
       case CollectEntries(count, ke, ve) =>
         var one := Entry(EvalPosition(m, ke, key, rank), EvalPosition(m, ve, val, rank));
         MapV(seq(count, _ => one))
       case _ => Stuck)
    case StreamKind | UnsetKind => Stuck
  }

  ghost function EvalTuple(m: Model, inits: seq<FieldInit>, fields: seq<TupleField>, rank: nat): Value
    requires m.UniqueNames()
    decreases rank, 1, fields
  {
    if |inits| != |fields| then Stuck
    else
      TupleV(seq(|fields|, k requires 0 <= k < |fields| =>
        NamedValue(inits[k].name, EvalPosition(m, inits[k].init, fields[k].typ, rank))))
  }

  // -------------------------------------------------------------------
  // The values of a declared shape.
  // -------------------------------------------------------------------

  ghost predicate HasShape(m: Model, v: Value, t: Option<Type>)
    decreases v, 2
  {
    t.Some? &&
    if t.value.optional then v.Absent? || (v.Present? && KindShape(m, v.inner, t.value.kind))
    else KindShape(m, v, t.value.kind)
  }

  ghost predicate KindShape(m: Model, v: Value, kind: Kind)
    decreases v, 1
  {
    match kind
    case Named(r) =>
      if r.Foreign? then v == ForeignV(r.path)
      else m.Lookup(r).Some? && DeclShape(m, v, m.Lookup(r).value)
    case PrimitiveKind(p) => v.ScalarV? && v.backing == PrimitiveBacking(p) && p != Unspecified
    case Inline(b) => v.ScalarV? && v.backing == b
    case TupleKind(tuple) =>
      tuple.Some? && v.TupleV? && |v.fields| == |tuple.value.fields| &&
      forall k :: 0 <= k < |v.fields| ==>
        v.fields[k].name == tuple.value.fields[k].name && HasShape(m, v.fields[k].value, tuple.value.fields[k].typ)
    case ArrayKind(element, amin, amax) =>
      v.ListV? && amin <= |v.items| && (amin <= amax ==> |v.items| <= amax) &&
      forall k :: 0 <= k < |v.items| ==> HasShape(m, v.items[k], element)
    case MapKind(key, val, mmin, mmax) =>
      v.MapV? && mmin <= |v.entries| && (mmin <= mmax ==> |v.entries| <= mmax) &&
      (forall k :: 0 <= k < |v.entries| ==> HasShape(m, v.entries[k].key, key) && HasShape(m, v.entries[k].val, val)) &&
      (forall a, b :: 0 <= a < b < |v.entries| ==> v.entries[a].key != v.entries[b].key)
    case StreamKind | UnsetKind => false
  }

  function PrimitiveBacking(p: Primitive): Backing {
    match p
    case Integer => IntegerBacking
    case Boolean => BooleanBacking
    case String => StringBacking
    case Bytes => BytesBacking
    case Float | Unspecified => FloatBacking
  }

  ghost predicate DeclShape(m: Model, v: Value, i: nat)
    requires i < |m.decls|
    decreases v, 0
  {
    match m.decls[i].kind
    case ScalarDecl(b) => v.NewtypeV? && v.decl == i && v.backing == b
    case EnumDecl(members, _) =>
      v.EnumV? && v.decl == i && exists k :: 0 <= k < |members| && members[k].number == v.number
    case EnumSetDecl => v.BitsV? && v.decl == i
    case StructDecl(slots) =>
      var live := LiveFields(slots);
      v.StructV? && v.decl == i && |v.fields| == |live| &&
      forall k :: 0 <= k < |live| ==>
        v.fields[k].name == live[k].name && HasShape(m, v.fields[k].value, live[k].typ)
    case UnionDecl(arms) =>
      v.ArmV? && v.decl == i && v.arm < |arms| && arms[v.arm].reference.Some? &&
      KindShape(m, v.payload, Named(arms[v.arm].reference.value))
    case ConstantDecl | UnsetDecl => false
  }

  // -------------------------------------------------------------------
  // The value a default has to have.
  // -------------------------------------------------------------------

  // The value of a position that is given the text of an init and a declared
  // init, or neither. An optional position without a declared init is absent.
  ghost predicate Takes(
    m: Model, v: Value, t: Option<Type>, text: Option<string>, declared: Option<DeclaredInit>)
    requires m.UniqueNames()
    decreases t
  {
    t.Some? &&
    if t.value.optional && declared.None? then v == Absent
    else if t.value.optional then v.Present? && KindTakes(m, v.inner, t.value.kind, text, declared)
    else KindTakes(m, v, t.value.kind, text, declared)
  }

  // A number or a boolean takes the text given, or its zero; a bare string is
  // empty. The parts of a tuple, an array or a map are given nothing, and there
  // are as few of them as the type allows.
  ghost predicate KindTakes(m: Model, v: Value, kind: Kind, text: Option<string>, declared: Option<DeclaredInit>)
    requires m.UniqueNames()
    decreases kind
  {
    match kind
    case Named(r) => NamedTakes(m, v, r, declared)
    case PrimitiveKind(Integer) => v == ScalarV(IntegerBacking, if text == None then "0" else text.value)
    case PrimitiveKind(Float) => v == ScalarV(FloatBacking, if text == None then "0" else text.value)
    case PrimitiveKind(Boolean) => v == ScalarV(BooleanBacking, if text == None then "false" else text.value)
    case PrimitiveKind(String) => v == ScalarV(StringBacking, "")
    case PrimitiveKind(Bytes) => v == ScalarV(BytesBacking, "")
    case PrimitiveKind(Unspecified) => false
    case Inline(b) => v.ScalarV? && v.backing == b && ScalarTakes(v.text, b, text)
    case TupleKind(tuple) =>
      tuple.Some? && v.TupleV? && |v.fields| == |tuple.value.fields| &&
      forall k :: 0 <= k < |v.fields| ==>
        && v.fields[k].name == tuple.value.fields[k].name
        && Takes(m, v.fields[k].value, tuple.value.fields[k].typ, None, None)
    case ArrayKind(element, amin, _) =>
      v.ListV? && |v.items| == amin && forall k :: 0 <= k < |v.items| ==> Takes(m, v.items[k], element, None, None)
    case MapKind(key, val, mmin, _) =>
      v.MapV? && |v.entries| == mmin && forall k :: 0 <= k < |v.entries| ==>
        Takes(m, v.entries[k].key, key, None, None) && Takes(m, v.entries[k].val, val, None, None)
    case StreamKind | UnsetKind => false
  }

  // The text of a scalar's value: the one given, and without one `false`, or
  // nothing for a string; a number is always given one.
  predicate ScalarTakes(value: string, b: Backing, text: Option<string>) {
    match text
    case Some(given) => value == given
    case None => (b == BooleanBacking && value == "false") || (b in {StringBacking, BytesBacking} && value == "")
  }

  // A declared init decides a scalar or an enum; anything else has the value of
  // the type's own default.
  ghost predicate NamedTakes(m: Model, v: Value, r: TypeRef, declared: Option<DeclaredInit>)
    requires m.UniqueNames()
  {
    if r.Foreign? then declared.None? && v == ForeignV(r.path)
    else
      r.Local? && r.index < |m.decls| &&
      var j := r.index;
      if declared.Some? && m.decls[j].kind.ScalarDecl?
         then v == NewtypeV(j, m.decls[j].kind.scalar, declared.value.text)
      else if declared.Some? && m.decls[j].kind.EnumDecl? then
        declared.value.asInteger.Some? && v == EnumV(j, declared.value.asInteger.value)
      else j in Emitted(m) && v == EvalDecl(m, j)
  }

  // The value of a declaration's own default: the init of a scalar, the init
  // member of an enum, no bits, each live field of a struct in slot order under
  // its own init, and the first arm of a union with the default of its type.
  ghost predicate DeclTakes(m: Model, v: Value, i: nat)
    requires m.UniqueNames() && i < |m.decls|
  {
    var d := m.decls[i];
    match d.kind
    case ScalarDecl(b) =>
      d.init.Some? && v.NewtypeV? && v.decl == i && v.backing == b && ScalarTakes(v.text, b, d.init.value.text)
    case EnumDecl(members, initMember) =>
      initMember.Some? && initMember.value < |members| && v == EnumV(i, members[initMember.value].number)
    case EnumSetDecl => v == BitsV(i, 0)
    case StructDecl(slots) =>
      var live := LiveFields(slots);
      v.StructV? && v.decl == i && |v.fields| == |live| &&
      forall k :: 0 <= k < |live| ==> v.fields[k].name == live[k].name && FieldTakes(m, v.fields[k].value, live[k])
    case UnionDecl(arms) =>
      |arms| > 0 && arms[0].reference.Some? && v.ArmV? && v.decl == i && v.arm == 0 &&
      NamedTakes(m, v.payload, arms[0].reference.value, None)
    case ConstantDecl | UnsetDecl => false
  }

  ghost predicate FieldTakes(m: Model, v: Value, f: Field)
    requires m.UniqueNames()
  {
    match f.init
    case Some(init) => Takes(m, v, f.typ, init.text, f.declaredInit)
    case None => Takes(m, v, f.typ, None, f.declaredInit)
  }

  // -------------------------------------------------------------------
  // No emitted default gets stuck.
  // -------------------------------------------------------------------

  // Every default that may still be called evaluates to its shape.
  ghost predicate CallsAreSound(m: Model, S: set<nat>, rank: nat)
    requires m.UniqueNames()
  {
    && S <= Emitted(m)
    && (forall j :: j in Emitted(m) && (j in S || m.decls[j].kind.ScalarDecl?) ==>
          Rank(m, j) < rank && DeclShape(m, EvalDecl(m, j), j))
  }

  lemma {:induction false} PositionEvaluates(
    m: Model, t: Option<Type>, k: Known, stack: set<string>, S: set<nat>, rank: nat)
    requires m.UniqueNames() && CallsAreSound(m, S, rank)
    requires PositionDefault(m, t, k, stack).Some? && PositionOk(m, t, k, S)
    ensures HasShape(m, EvalPosition(m, PositionDefault(m, t, k, stack).value, t, rank), t)
    ensures Takes(m, EvalPosition(m, PositionDefault(m, t, k, stack).value, t, rank), t, k.text, k.declared)
    decreases t
  {
    if !(t.value.optional && k.declared.None?) { KindEvaluates(m, t.value.kind, k, stack, S, rank); }
  }

  lemma {:induction false} KindEvaluates(m: Model, kind: Kind, k: Known, stack: set<string>, S: set<nat>, rank: nat)
    requires m.UniqueNames() && CallsAreSound(m, S, rank)
    requires KindDefault(m, kind, k, stack).Some? && KindOk(m, kind, k, S)
    ensures KindShape(m, EvalKind(m, KindDefault(m, kind, k, stack).value, kind, rank), kind)
    ensures KindTakes(m, EvalKind(m, KindDefault(m, kind, k, stack).value, kind, rank), kind, k.text, k.declared)
    decreases kind
  {
    match kind {
      case TupleKind(tuple) =>
        TupleIsEmitted(m, tuple.value.fields, S);
        TupleEvaluates(m, tuple.value.fields, S, rank);
      case ArrayKind(element, amin, _) =>
        if amin != 0 { PositionEvaluates(m, element, ElementKnown(k), stack, S, rank); }
      case MapKind(key, val, mmin, _) =>
        if mmin != 0 {
          PositionEvaluates(m, key, ElementKnown(k), stack, S, rank);
          PositionEvaluates(m, val, ElementKnown(k), stack, S, rank);
        }
      case Named(r) => NamedEvaluates(m, r, k, stack, S, rank);
      case _ =>
    }
  }

  lemma {:induction false} NamedEvaluates(m: Model, r: TypeRef, k: Known, stack: set<string>, S: set<nat>, rank: nat)
    requires m.UniqueNames() && CallsAreSound(m, S, rank)
    requires NamedDefault(m, r, k, stack).Some? && NamedOk(m, r, k, S)
    ensures KindShape(m, EvalKind(m, NamedDefault(m, r, k, stack).value, Named(r), rank), Named(r))
    ensures NamedTakes(m, EvalKind(m, NamedDefault(m, r, k, stack).value, Named(r), rank), r, k.declared)
  {
    if !r.Foreign? {
      var j := m.Lookup(r).value;
      if NamedDefault(m, r, k, stack).value.Call? {
        assert j in Emitted(m);
      }
    }
  }

  lemma {:induction false} TupleIsEmitted(m: Model, fields: seq<TupleField>, S: set<nat>)
    requires m.UniqueNames() && S <= Emitted(m) && TupleOk(m, fields, S)
    ensures TupleDefault(m, fields, {}).Some?
  {
    DefaultIsLeastFixedPoint(m);
    forall j | 0 <= j < |fields| ensures PositionOk(m, fields[j].typ, UNKNOWN, Emitted(m)) {
      PositionMonotone(m, fields[j].typ, UNKNOWN, S, Emitted(m));
    }
    TupleAgrees(m, fields, {});
  }

  lemma {:induction false} TupleInits(m: Model, fields: seq<TupleField>, stack: set<string>, j: nat)
    requires TupleDefault(m, fields, stack).Some? && j < |fields|
    ensures |TupleDefault(m, fields, stack).value| == |fields|
    ensures PositionDefault(m, fields[j].typ, UNKNOWN, stack).Some?
    ensures TupleDefault(m, fields, stack).value[j] ==
            FieldInit(fields[j].name, PositionDefault(m, fields[j].typ, UNKNOWN, stack).value)
    decreases |fields|
  {
    if |fields| > 1 { TupleInits(m, fields[1..], stack, if j == 0 then 0 else j - 1); }
  }

  lemma {:induction false} TupleEvaluates(m: Model, fields: seq<TupleField>, S: set<nat>, rank: nat)
    requires m.UniqueNames() && CallsAreSound(m, S, rank)
    requires TupleDefault(m, fields, {}).Some? && TupleOk(m, fields, S)
    ensures
      var v := EvalTuple(m, TupleDefault(m, fields, {}).value, fields, rank);
      && v.TupleV? && |v.fields| == |fields|
      && forall j :: 0 <= j < |fields| ==>
           && v.fields[j].name == fields[j].name && HasShape(m, v.fields[j].value, fields[j].typ)
           && Takes(m, v.fields[j].value, fields[j].typ, None, None)
    decreases fields
  {
    if fields != [] { TupleInits(m, fields, {}, 0); }
    var v := EvalTuple(m, TupleDefault(m, fields, {}).value, fields, rank);
    forall j | 0 <= j < |fields|
      ensures v.fields[j].name == fields[j].name && HasShape(m, v.fields[j].value, fields[j].typ)
      ensures Takes(m, v.fields[j].value, fields[j].typ, None, None)
    {
      TupleInits(m, fields, {}, j);
      PositionEvaluates(m, fields[j].typ, UNKNOWN, {}, S, rank);
    }
  }

  lemma {:induction false} SlotInits(m: Model, slots: seq<Slot>, stack: set<string>, j: nat)
    requires SlotsDefault(m, slots, stack).Some? && j < |LiveFields(slots)|
    ensures
      var f := LiveFields(slots)[j];
      && |SlotsDefault(m, slots, stack).value| == |LiveFields(slots)|
      && PositionDefault(m, f.typ, FieldKnown(f), stack).Some?
      && SlotsDefault(m, slots, stack).value[j] ==
         FieldInit(f.name, PositionDefault(m, f.typ, FieldKnown(f), stack).value)
      && exists k :: 0 <= k < |slots| && slots[k] == FieldSlot(f)
    decreases |slots|
  {
    var rest := slots[1..];
    var skip := if slots[0].FieldSlot? then 1 else 0;
    if LiveFields(rest) == [] {
      NoLiveFieldNoInit(m, rest, stack);
    }
    if j >= skip {
      SlotInits(m, rest, stack, j - skip);
      var k :| 0 <= k < |rest| && rest[k] == FieldSlot(LiveFields(rest)[j - skip]);
      assert slots[k + 1] == rest[k];
    } else {
      assert slots[0] == FieldSlot(LiveFields(slots)[j]);
      if LiveFields(rest) != [] { SlotInits(m, rest, stack, 0); }
    }
  }

  lemma {:induction false} NoLiveFieldNoInit(m: Model, slots: seq<Slot>, stack: set<string>)
    requires LiveFields(slots) == []
    ensures SlotsDefault(m, slots, stack) == Some([])
  {
    if slots != [] { NoLiveFieldNoInit(m, slots[1..], stack); }
  }

  // A declaration that qualifies one step below `i` is emitted and ranks lower.
  lemma {:induction false} BelowHasLowerRank(m: Model, i: nat, j: nat)
    requires m.UniqueNames() && i in Emitted(m) && !m.decls[i].kind.ScalarDecl?
    requires j in Derivable(|m.decls|, Rule(m), Rank(m, i) - 1)
    ensures j in Emitted(m) && Rank(m, j) < Rank(m, i)
  {
    RuleIsMonotone(m);
    EmittedIsDerivable(m);
    var count, rule, bound := |m.decls|, Rule(m), |m.Names()|;
    DerivableGrows(count, rule, Rank(m, i) - 1, bound);
    HeightIsLeast(count, rule, bound, j, Rank(m, i) - 1);
  }

  // What qualifies one step below `i` is enough for `i`.
  lemma {:induction false} QualifiesFromBelow(m: Model, i: nat)
    requires m.UniqueNames() && i in Emitted(m) && !m.decls[i].kind.ScalarDecl?
    ensures Rank(m, i) > 0 && DeclOk(m, i, Derivable(|m.decls|, Rule(m), Rank(m, i) - 1))
  {
    EmittedIsDerivable(m);
    var h := Height(|m.decls|, Rule(m), |m.Names()|, i);
    assert i in Step(|m.decls|, Rule(m), Derivable(|m.decls|, Rule(m), h - 1));
  }

  // Every emitted default terminates, calls only defaults that are emitted
  // too, and gives the value the declaration and its inits call for, of the
  // declared shape: array lengths within their bounds, map keys distinct.
  lemma {:induction false} EmittedDefaultHasDeclaredShape(m: Model, i: nat)
    requires m.UniqueNames() && i in Emitted(m)
    ensures DeclShape(m, EvalDecl(m, i), i)
    ensures DeclTakes(m, EvalDecl(m, i), i)
    decreases Rank(m, i)
  {
    if m.decls[i].kind.StructDecl? || m.decls[i].kind.UnionDecl? {
      QualifiesFromBelow(m, i);
      var S := Derivable(|m.decls|, Rule(m), Rank(m, i) - 1);
      CallsBelowAreSound(m, i, S);
      if m.decls[i].kind.StructDecl? {
        StructEvaluates(m, i, S);
      } else {
        UnionEvaluates(m, i, S);
      }
    }
  }

  lemma {:induction false} CallsBelowAreSound(m: Model, i: nat, S: set<nat>)
    requires m.UniqueNames() && i in Emitted(m) && !m.decls[i].kind.ScalarDecl?
    requires S == Derivable(|m.decls|, Rule(m), Rank(m, i) - 1)
    ensures CallsAreSound(m, S, Rank(m, i))
    decreases Rank(m, i), 0
  {
    QualifiesFromBelow(m, i);
    forall j | j in S ensures j in Emitted(m) {
      BelowHasLowerRank(m, i, j);
    }
    forall j | j in Emitted(m) && (j in S || m.decls[j].kind.ScalarDecl?)
      ensures Rank(m, j) < Rank(m, i) && DeclShape(m, EvalDecl(m, j), j)
    {
      if j in S { BelowHasLowerRank(m, i, j); }
      EmittedDefaultHasDeclaredShape(m, j);
    }
  }

  lemma {:induction false} UnionEvaluates(m: Model, i: nat, S: set<nat>)
    requires m.UniqueNames() && i in Emitted(m) && m.decls[i].kind.UnionDecl?
    requires DeclOk(m, i, S) && CallsAreSound(m, S, Rank(m, i))
    ensures DeclShape(m, EvalDecl(m, i), i) && DeclTakes(m, EvalDecl(m, i), i)
  {
    var r := m.decls[i].kind.arms[0].reference.value;
    var j := m.Lookup(r).value;
    assert j in S && j in Emitted(m);
    assert DeclDefault(m, i, {}).value == FirstArm(i, Call(ToDecl(j)));
    assert EvalDecl(m, i) == ArmV(i, 0, EvalDecl(m, j));
    assert DeclShape(m, EvalDecl(m, j), j);
  }

  lemma {:induction false} StructEvaluates(m: Model, i: nat, S: set<nat>)
    requires m.UniqueNames() && i in Emitted(m) && m.decls[i].kind.StructDecl?
    requires DeclOk(m, i, S) && CallsAreSound(m, S, Rank(m, i))
    ensures DeclShape(m, EvalDecl(m, i), i) && DeclTakes(m, EvalDecl(m, i), i)
  {
    var slots := m.decls[i].kind.slots;
    var live := LiveFields(slots);
    if live == [] { NoLiveFieldNoInit(m, slots, {}); } else { SlotInits(m, slots, {}, 0); }
    var v := EvalDecl(m, i);
    forall j | 0 <= j < |live|
      ensures v.fields[j].name == live[j].name && HasShape(m, v.fields[j].value, live[j].typ)
      ensures FieldTakes(m, v.fields[j].value, live[j])
    {
      SlotInits(m, slots, {}, j);
      var k :| 0 <= k < |slots| && slots[k] == FieldSlot(live[j]);
      assert FieldOk(m, slots[k].field, S);
      PositionEvaluates(m, live[j].typ, FieldKnown(live[j]), {}, S, Rank(m, i));
    }
  }
}
