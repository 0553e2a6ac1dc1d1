// The value of an emitted default against the Rust type its field is written as.
module DefaultTypes {
  import opened Common
  import opened TypeModel
  import opened Defaults
  import opened DefaultValues
  import opened DeriveLists

  // The values of a Rust type.
  ghost predicate Inhabits(m: Model, v: Value, ty: RustType)
    decreases v, ty
  {
    match ty
    case F64 => v.ScalarV? && v.backing == FloatBacking
    case I64 => v.ScalarV? && v.backing == IntegerBacking
    case Bool => v.ScalarV? && v.backing == BooleanBacking
    case Str => v.ScalarV? && v.backing == StringBacking
    case Byte | Unit => false
    case Vec(Byte) => v.ScalarV? && v.backing == BytesBacking
    case Vec(Pair(a, b)) =>
      v.MapV? && forall k :: 0 <= k < |v.entries| ==>
        Inhabits(m, v.entries[k].key, a) && Inhabits(m, v.entries[k].val, b)
    case Vec(e) => v.ListV? && forall k :: 0 <= k < |v.items| ==> Inhabits(m, v.items[k], e)
    case FixedArray(e, n) => v.ListV? && |v.items| == n && forall k :: 0 <= k < n ==> Inhabits(m, v.items[k], e)
    case Pair(_, _) => false
    case OptionOf(inner) => v.Absent? || (v.Present? && Inhabits(m, v.inner, inner))
    case DeclType(i) => i < |m.decls| && DeclShape(m, v, i)
    case TupleStruct(fields) =>
      v.TupleV? && |v.fields| == |fields| && forall k :: 0 <= k < |fields| ==>
        v.fields[k].name == fields[k].name && Inhabits(m, v.fields[k].value, PositionType(m, fields[k].typ))
    case PathTo(path) => v == ForeignV(path)
  }

  // A value of the shape declared is one of the type written.
  lemma {:induction false} ShapeIsTyped(m: Model, v: Value, t: Option<Type>)
    requires HasShape(m, v, t)
    ensures Inhabits(m, v, PositionType(m, t))
    decreases v, 1
  {
    if !t.value.optional {
      KindIsTyped(m, v, t);
    } else if v.Present? {
      KindIsTyped(m, v.inner, Some(Type(false, t.value.kind)));
    }
  }

  lemma {:induction false} KindIsTyped(m: Model, v: Value, t: Option<Type>)
    requires t.Some? && !t.value.optional && KindShape(m, v, t.value.kind)
    ensures Inhabits(m, v, PositionType(m, t))
    decreases v, 0
  {
    match t.value.kind {
      case TupleKind(Some(tuple)) =>
        forall k | 0 <= k < |v.fields| ensures Inhabits(m, v.fields[k].value, PositionType(m, tuple.fields[k].typ)) {
          ShapeIsTyped(m, v.fields[k].value, tuple.fields[k].typ);
        }
      case ArrayKind(element, amin, amax) =>
        forall k | 0 <= k < |v.items| ensures Inhabits(m, v.items[k], PositionType(m, element)) {
          ShapeIsTyped(m, v.items[k], element);
        }
      case MapKind(key, val, _, _) =>
        forall k | 0 <= k < |v.entries|
          ensures Inhabits(m, v.entries[k].key, PositionType(m, key))
          ensures Inhabits(m, v.entries[k].val, PositionType(m, val))
        {
          ShapeIsTyped(m, v.entries[k].key, key);
          ShapeIsTyped(m, v.entries[k].val, val);
        }
      case _ =>
    }
  }

  // Every field of an emitted struct default is initialized with a value of the
  // type the same pass writes for the field.
  lemma {:induction false} EmittedDefaultIsTyped(m: Model, i: nat, k: nat)
    requires m.UniqueNames() && i in Emitted(m) && m.decls[i].kind.StructDecl?
    requires k < |LiveFields(m.decls[i].kind.slots)|
    ensures var v, f := EvalDecl(m, i), LiveFields(m.decls[i].kind.slots)[k];
            && v.StructV? && k < |v.fields| && v.fields[k].name == f.name
            && Inhabits(m, v.fields[k].value, PositionType(m, f.typ))
  {
    EmittedDefaultHasDeclaredShape(m, i);
    ShapeIsTyped(m, EvalDecl(m, i).fields[k].value, LiveFields(m.decls[i].kind.slots)[k].typ);
  }
}
