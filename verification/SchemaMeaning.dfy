// What a generated schema says of the package: for each declaration the table,
// enum or union that stands for it, with a row for each part that has the part's
// own type, through every table induced on the way; and, read off the
// declarations, which packages can be said at all.
module SchemaMeaning {
  import opened Common
  import opened Text
  import opened FlatBuffersSchema

  // -------------------------------------------------------------------
  // References.
  // -------------------------------------------------------------------

  // The first declaration of a name.
  ghost predicate IsFirst(decls: seq<Decl>, name: string, decl: Decl) {
    exists i :: 0 <= i < |decls| && decls[i] == decl && decl.name == name
                && forall j :: 0 <= j < i ==> decls[j].name != name
  }

  ghost predicate IsFirstPackage(packages: seq<Package>, name: string, package: Package) {
    exists i :: 0 <= i < |packages| && packages[i] == package && package.name == name
                && forall j :: 0 <= j < i ==> packages[j].name != name
  }

  // A plain name refers into the package, a dotted one into the package before
  // the last dot.
  ghost predicate Refers(env: Env, reference: string, decl: Decl, crossed: Option<string>) {
    match crossed
    case None => '.' !in reference && IsFirst(env.package.decls, reference, decl)
    case Some(package) =>
      exists name, p ::
        && '.' !in name && reference == package + "." + name
        && IsFirstPackage(env.others, package, p) && IsFirst(p.decls, name, decl)
  }

  lemma {:induction false} FindDeclIsFirst(decls: seq<Decl>, name: string, decl: Decl)
    ensures FindDecl(decls, name) == Some(decl) <==> IsFirst(decls, name, decl)
  {
    if decls != [] {
      FindDeclIsFirst(decls[1..], name, decl);
      if FindDecl(decls, name) == Some(decl) {
        if decls[0].name == name {
          assert decls[0] == decl;
        } else {
          var i :| 0 <= i < |decls[1..]| && decls[1..][i] == decl && decl.name == name
                   && forall j :: 0 <= j < i ==> decls[1..][j].name != name;
          assert decls[i + 1] == decl;
          forall j | 0 <= j < i + 1 ensures decls[j].name != name {
            if j > 0 { assert decls[j] == decls[1..][j - 1]; }
          }
        }
      }
      if i :| 0 <= i < |decls| && decls[i] == decl && decl.name == name
              && forall j :: 0 <= j < i ==> decls[j].name != name {
        if i > 0 {
          assert decls[0].name != name;
          assert decls[1..][i - 1] == decl;
          assert forall j :: 0 <= j < i - 1 ==> decls[1..][j] == decls[j + 1];
        }
      }
    }
  }

  lemma {:induction false} FindPackageIsFirst(packages: seq<Package>, name: string, package: Package)
    ensures FindPackage(packages, name) == Some(package) <==> IsFirstPackage(packages, name, package)
  {
    if packages != [] {
      FindPackageIsFirst(packages[1..], name, package);
      if FindPackage(packages, name) == Some(package) {
        if packages[0].name == name {
          assert packages[0] == package;
        } else {
          var i :| 0 <= i < |packages[1..]| && packages[1..][i] == package && package.name == name
                   && forall j :: 0 <= j < i ==> packages[1..][j].name != name;
          assert packages[i + 1] == package;
          forall j | 0 <= j < i + 1 ensures packages[j].name != name {
            if j > 0 { assert packages[j] == packages[1..][j - 1]; }
          }
        }
      }
      if i :| 0 <= i < |packages| && packages[i] == package && package.name == name
              && forall j :: 0 <= j < i ==> packages[j].name != name {
        if i > 0 {
          assert packages[0].name != name;
          assert packages[1..][i - 1] == package;
          assert forall j :: 0 <= j < i - 1 ==> packages[1..][j] == packages[j + 1];
        }
      }
    }
  }

  lemma {:induction false} ResolveRefers(env: Env, reference: string, decl: Decl, crossed: Option<string>)
    ensures Resolve(env, reference) == Some(Resolved(decl, crossed)) <==> Refers(env, reference, decl, crossed)
  {
    LastSplit(reference, '.');
    match crossed
    case None =>
      FindDeclIsFirst(env.package.decls, reference, decl);
    case Some(package) =>
      if Refers(env, reference, decl, crossed) {
        var name, p :| '.' !in name && reference == package + "." + name
                       && IsFirstPackage(env.others, package, p) && IsFirst(p.decls, name, decl);
        SplitLastAt(package, '.', name);
        FindPackageIsFirst(env.others, package, p);
        FindDeclIsFirst(p.decls, name, decl);
      }
      if Resolve(env, reference) == Some(Resolved(decl, crossed)) {
        var halves := SplitLast(reference, '.').value;
        var p := FindPackage(env.others, halves.before).value;
        FindPackageIsFirst(env.others, halves.before, p);
        FindDeclIsFirst(p.decls, halves.after, decl);
        assert reference == package + "." + halves.after;
      }
  }

  lemma {:induction false} LastSplit(s: string, c: char)
    ensures SplitLast(s, c).None? <==> c !in s
    ensures SplitLast(s, c).Some? ==>
              var h := SplitLast(s, c).value;
              s == h.before + [c] + h.after && c !in h.after
  {
    if s != "" {
      var front, last := s[..|s| - 1], s[|s| - 1];
      assert s == front + [last];
      if last != c {
        LastSplit(front, c);
        if SplitLast(front, c).Some? {
          var h := SplitLast(front, c).value;
          assert front + [last] == h.before + [c] + (h.after + [last]);
        }
      }
    }
  }

  // -------------------------------------------------------------------
  // The type a part has in the schema.
  // -------------------------------------------------------------------

  predicate IsWidth(ty: Type, w: Width) {
    ty == match w
      case U8 => Builtin("ubyte")
      case I8 => Builtin("byte")
      case U16 => Builtin("ushort")
      case I16 => Builtin("short")
      case U32 => Builtin("uint")
      case I32 => Builtin("int")
      case U64 => Builtin("ulong")
      case I64 => Builtin("long")
      case F32 => Builtin("float")
      case F64 => Builtin("double")
  }

  // A scalar without a width is a boolean, bytes or else a string.
  predicate IsScalar(ty: Type, s: Scalar) {
    if s.width.Some? then IsWidth(ty, s.width.value)
    else if s.backing == Some(Boolean) then ty == Builtin("bool")
    else if s.backing == Some(Bytes) then ty == UBytes
    else ty == Builtin("string")
  }

  predicate IsPrimitive(ty: Type, p: Primitive) {
    match p
    case Boolean => ty == Builtin("bool")
    case Integer => ty == Builtin("long")
    case Float => ty == Builtin("double")
    case String => ty == Builtin("string")
    case Bytes => ty == UBytes
  }

  // The name of a declaration, from this package or across.
  predicate IsName(ty: Type, decl: Decl, crossed: Option<string>) {
    ty == if crossed.Some? then Foreign(crossed.value, decl.name) else Local(decl.name)
  }

  // A named scalar or enum set stands inline and is kept in a comment; anything
  // else is named.
  predicate IsReference(ty: Type, comment: Comment, reference: string, decl: Decl, crossed: Option<string>) {
    match decl.kind
    case TypeDef(s) => IsScalar(ty, s) && comment == Constraint(reference, s.form)
    case EnumSetDef(w, lines) => IsWidth(ty, w) && comment == if lines == "" then NoComment else BitLines(lines)
    case OtherDecl => false
    case _ => IsName(ty, decl, crossed) && comment == NoComment
  }

  // `ty` stands in the schema for a part of kind `kind` reached by the path
  // `hint`: a vector of what the element is, a vector of a table of two rows for
  // the entries of a map, a table of positional rows for a tuple.
  ghost predicate Carries(env: Env, out: seq<Emitted>, hint: string, kind: TypeKind, ty: Type, comment: Comment)
    decreases kind
  {
    match kind
    case Simple(p) => IsPrimitive(ty, p) && comment == NoComment
    case Inline(s) => IsScalar(ty, s) && comment == NoComment
    case Named(reference) =>
      exists decl, crossed :: Refers(env, reference, decl, crossed) &&
          IsReference(ty, comment, reference, decl, crossed)
    case Array(element, _) =>
      element.Some? && ty.Vector? && Carries(env, out, hint + "Element", element.value.kind, ty.element, comment)
    case Map(key, value, _) =>
      ty == Vector(Local(hint + "Entry")) && comment == NoComment &&
      exists rows: seq<Field> ::
        && Table(hint + "Entry", rows) in out && |rows| == 2
        && rows[0].name == "key" && rows[0].id == 0 && RowCarries(env, out, hint + "Entry" + "Key", key, rows[0])
        && rows[1].name == "value" && rows[1].id == 1 && RowCarries(env, out, hint + "Entry" + "Value", value, rows[1])
    case Tuple(fields) =>
      ty == Local(hint) && comment == NoComment &&
      exists rows: seq<Field> ::
        && Table(hint, rows) in out && |rows| == |fields|
        && forall k :: 0 <= k < |fields| ==>
             && rows[k].name == "field_" + Print(k + 1) && rows[k].id == k
             && RowCarries(env, out, hint + "Field" + Print(k + 1), fields[k].ty, rows[k])
    case OtherType => false
  }

  // A live row with the type of a part, and `= null` where its zero is not to
  // be had.
  ghost predicate RowCarries(env: Env, out: seq<Emitted>, hint: string, ty: Option<FieldType>, row: Field)
    decreases ty
  {
    ty.Some? && !row.deprecated && Carries(env, out, hint, ty.value.kind, row.ty, row.comment)
    && (row.isNull <==> NullAt(env, ty.value))
  }

  // An enum with no zero, and an optional number, boolean, enum or enum set.
  ghost predicate NullAt(env: Env, ty: FieldType) {
    || (ty.kind.Named? && exists decl, crossed ::
          Refers(env, ty.kind.reference, decl, crossed) && ZerolessEnum(decl))
    || (ty.optional && HasNumber(env, ty.kind))
  }

  predicate ZerolessEnum(decl: Decl) {
    decl.kind.EnumDef? && forall k :: 0 <= k < |decl.kind.values| ==> decl.kind.values[k].value != 0
  }

  predicate IsNumber(s: Scalar) {
    s.width.Some? || s.backing == Some(Boolean)
  }

  ghost predicate HasNumber(env: Env, kind: TypeKind) {
    match kind
    case Simple(p) => p in {Boolean, Integer, Float}
    case Inline(s) => IsNumber(s)
    case Named(reference) =>
      exists decl, crossed :: Refers(env, reference, decl, crossed) && NumberDecl(decl)
    case _ => false
  }

  predicate NumberDecl(decl: Decl) {
    decl.kind.EnumDef? || decl.kind.EnumSetDef? || (decl.kind.TypeDef? && IsNumber(decl.kind.scalar))
  }

  // -------------------------------------------------------------------
  // What each declaration has in the schema.
  // -------------------------------------------------------------------

  // The row of a struct's member: a live one at its ordinal less one with its
  // type, a retired one held by a deprecated byte.
  ghost predicate MemberCarries(env: Env, out: seq<Emitted>, name: string, m: Member, row: Field) {
    m.ordinal > 0 && row.id == m.ordinal - 1 &&
    match m
    case Live(source, _, ty) =>
      row.name == env.snake(source) && RowCarries(env, out, name + env.camel(source), ty, row)
    case Retired(ordinal) =>
      row.name == "reserved_" + Print(ordinal) && row.deprecated && row.ty == Builtin("ubyte")
      && !row.isNull && row.comment == NoComment
  }

  // A union's member for an arm: the table of a struct or union, and of anything
  // else a box with one row of its type.
  ghost predicate ArmCarries(env: Env, out: seq<Emitted>, name: string, arm: Arm, m: UnionMember) {
    m.name == env.snake(arm.name) &&
    exists decl, crossed ::
      Refers(env, arm.reference, decl, crossed) &&
      if decl.kind.StructDef? || decl.kind.UnionDef? then IsName(m.ty, decl, crossed)
      else m.ty == Local(name + env.camel(arm.name) + "Box")
           && HasBox(env, out, name + env.camel(arm.name) + "Box", arm.reference)
  }

  // A table of one row, of the type a reference has.
  ghost predicate HasBox(env: Env, out: seq<Emitted>, name: string, reference: string) {
    exists row: Field ::
      && Table(name, [row]) in out && row.name == "value" && row.id == 0
      && RowCarries(env, out, name, Some(FieldType(Named(reference), false)), row)
  }

  // The table of a struct, a row for each member in order.
  ghost predicate HasStruct(env: Env, out: seq<Emitted>, name: string, members: seq<Member>) {
    exists rows: seq<Field> ::
      && Table(name, rows) in out && |rows| == |members|
      && forall k :: 0 <= k < |members| ==> MemberCarries(env, out, name, members[k], rows[k])
  }

  // The table of a struct that stands for a tuple: a positional row for each
  // live member.
  ghost predicate HasPositional(env: Env, out: seq<Emitted>, name: string, members: seq<Member>) {
    exists rows: seq<Field>, live: seq<Option<FieldType>> ::
      && Table(name, rows) in out && AreLive(members, live) && |rows| == |live|
      && forall k :: 0 <= k < |live| ==>
           && rows[k].name == "field_" + Print(k + 1) && rows[k].id == k
           && RowCarries(env, out, name + "Field" + Print(k + 1), live[k], rows[k])
  }

  // A union with a member for each arm, and the table that holds it.
  ghost predicate HasUnion(env: Env, out: seq<Emitted>, name: string, arms: seq<Arm>) {
    && Table(name, [Field("value", Local(name + "Union"), false, NoComment, 1, false)]) in out
    && exists rows: seq<UnionMember> ::
         && Union(name + "Union", rows) in out && |rows| == |arms|
         && forall k :: 0 <= k < |arms| ==> ArmCarries(env, out, name, arms[k], rows[k])
  }

  ghost predicate DeclMeans(env: Env, out: seq<Emitted>, index: nat, decl: Decl) {
    match decl.kind
    case StructDef(members) =>
      if index < env.originals then HasStruct(env, out, decl.name, members)
      else HasPositional(env, out, decl.name, members)
    case EnumDef(values) => Enum(decl.name, values) in out && HasBox(env, out, decl.name + "Box", decl.name)
    case UnionDef(arms) => HasUnion(env, out, decl.name, arms)
    case TypeDef(_) => HasBox(env, out, decl.name + "Box", decl.name)
    case EnumSetDef(_, _) => HasBox(env, out, decl.name + "Box", decl.name)
    case OtherDecl => true
  }

  // The types of the live members, in order.
  ghost predicate AreLive(members: seq<Member>, live: seq<Option<FieldType>>)
    decreases members
  {
    if members == [] then live == []
    else if members[0].Retired? then AreLive(members[1..], live)
    else live != [] && live[0] == members[0].ty && AreLive(members[1..], live[1..])
  }

  // An interface's enum: its live interactions at their ordinals, and no other.
  ghost predicate IdentityMeans(env: Env, out: seq<Emitted>, interface: Interface) {
    exists values: seq<EnumValue> ::
      && Enum(env.camel(interface.name) + "Ordinal", values) in out
      && forall v :: v in values <==>
           exists x :: x in interface.interactions && x.Interaction? && v == EnumValue(env.screaming(x.name), x.ordinal)
  }

  ghost predicate Means(env: Env, out: seq<Emitted>) {
    && (forall i: nat :: i < |env.package.decls| ==> DeclMeans(env, out, i, env.package.decls[i]))
    && (forall k :: 0 <= k < |env.interfaces| ==> IdentityMeans(env, out, env.interfaces[k]))
  }

  // -------------------------------------------------------------------
  // The generated schema means the package.
  // -------------------------------------------------------------------

  // Everything induced is written.
  ghost predicate Closed(env: Env, roots: seq<Induced>, out: seq<Emitted>) {
    forall item :: IsInduced(env, roots, item) ==>
      InducedFields(env, item).Some? && Table(item.name, InducedFields(env, item).value.value) in out
  }

  ghost predicate AllInduced(env: Env, roots: seq<Induced>, items: seq<Induced>) {
    forall item :: item in items ==> IsInduced(env, roots, item)
  }

  lemma {:induction false} ChildrenInduced(env: Env, roots: seq<Induced>, item: Induced)
    requires IsInduced(env, roots, item) && InducedFields(env, item).Some?
    ensures AllInduced(env, roots, InducedFields(env, item).value.induced)
  {
    var steps: nat :| InducedFrom(env, roots, item, steps);
    forall child | child in InducedFields(env, item).value.induced ensures IsInduced(env, roots, child) {
      assert InducesOne(env, item, child);
      assert InducedFrom(env, roots, child, steps + 1);
    }
  }

  lemma {:induction false} ScalarCarries(s: Scalar)
    ensures IsScalar(FbsScalar(s), s) && (IsFbsScalar(FbsScalar(s)) <==> IsNumber(s))
  {
  }

  lemma {:induction false} NamedCarries(env: Env, reference: string)
    requires NamedField(env, reference).Some?
    ensures var shape, r := NamedField(env, reference).value.value, Resolve(env, reference).value;
            && Refers(env, reference, r.decl, r.crossed)
            && IsReference(shape.ty, shape.comment, reference, r.decl, r.crossed)
            && (shape.isNull <==> ZerolessEnum(r.decl)) && (HoldsDefault(r.decl) <==> NumberDecl(r.decl))
  {
    var r := Resolve(env, reference).value;
    ResolveRefers(env, reference, r.decl, r.crossed);
    if r.decl.kind.TypeDef? { ScalarCarries(r.decl.kind.scalar); }
  }

  // A reference is to one declaration.
  lemma {:induction false} OneReferent(env: Env, reference: string, decl: Decl, crossed: Option<string>)
    requires Refers(env, reference, decl, crossed)
    ensures Resolve(env, reference) == Some(Resolved(decl, crossed))
  {
    ResolveRefers(env, reference, decl, crossed);
  }

  lemma {:induction false} NullIsAt(env: Env, hint: string, ty: FieldType)
    requires FieldOf(env, hint, ty).Some?
    ensures FieldOf(env, hint, ty).value.value.isNull <==> NullAt(env, ty)
  {
    match ty.kind
    case Inline(s) => ScalarCarries(s);
    case Named(reference) =>
      NamedCarries(env, reference);
      forall decl, crossed | Refers(env, reference, decl, crossed)
        ensures Resolve(env, reference) == Some(Resolved(decl, crossed))
      {
        OneReferent(env, reference, decl, crossed);
      }
    case _ =>
  }

  lemma {:induction false} PositionCarries(
    env: Env, roots: seq<Induced>, out: seq<Emitted>, hint: string, kind: TypeKind)
    requires PositionOf(env, hint, kind).Some? && Closed(env, roots, out)
    requires AllInduced(env, roots, PositionOf(env, hint, kind).value.induced)
    ensures var shape := PositionOf(env, hint, kind).value.value.shape;
            Carries(env, out, hint, kind, shape.ty, shape.comment)
    decreases kind, 1
  {
    match kind
    case Simple(_) =>
    case Inline(s) => ScalarCarries(s);
    case Named(reference) => NamedCarries(env, reference);
    case Array(element, _) => PositionCarries(env, roots, out, hint + "Element", element.value.kind);
    case Map(key, value, bounds) => EntryCarries(env, roots, out, hint + "Entry", key, value, bounds);
    case Tuple(fields) => TupleCarries(env, roots, out, hint, fields);
  }

  lemma {:induction false} TypedCarries(
    env: Env, roots: seq<Induced>, out: seq<Emitted>, hint: string, ty: Option<FieldType>, row: Field)
    requires Typed(env, hint, ty).Some? && Closed(env, roots, out)
    requires AllInduced(env, roots, Typed(env, hint, ty).value.induced)
    requires row == AsField(row.name, Typed(env, hint, ty).value.value, row.id)
    ensures RowCarries(env, out, hint, ty, row)
    decreases ty
  {
    PositionCarries(env, roots, out, hint, ty.value.kind);
    NullIsAt(env, hint, ty.value);
  }

  lemma {:induction false} EntryCarries(
    env: Env, roots: seq<Induced>, out: seq<Emitted>, name: string, key: Option<FieldType>, value: Option<FieldType>,
    bounds: Bounds)
    requires Closed(env, roots, out) && IsInduced(env, roots, Induced(name, EntryTable(key, value, bounds)))
    ensures exists rows: seq<Field> ::
              && Table(name, rows) in out && |rows| == 2
              && rows[0].name == "key" && rows[0].id == 0 && RowCarries(env, out, name + "Key", key, rows[0])
              && rows[1].name == "value" && rows[1].id == 1 && RowCarries(env, out, name + "Value", value, rows[1])
    decreases Map(key, value, bounds), 0
  {
    var item := Induced(name, EntryTable(key, value, bounds));
    var rows := InducedFields(env, item).value.value;
    ChildrenInduced(env, roots, item);
    var k, v := Typed(env, name + "Key", key).value, Typed(env, name + "Value", value).value;
    assert forall x :: x in k.induced || x in v.induced ==> x in InducedFields(env, item).value.induced;
    TypedCarries(env, roots, out, name + "Key", key, rows[0]);
    TypedCarries(env, roots, out, name + "Value", value, rows[1]);
  }

  // The row of one part of a tuple, and what it induces.
  lemma {:induction false} TupleRow(env: Env, name: string, fields: seq<TupleField>, k: nat)
    requires TupleFields(env, name, fields).Some? && k < |fields|
    ensures var e, hint := TupleFields(env, name, fields).value, name + "Field" + Print(k + 1);
            && |e.value| == |fields| && Typed(env, hint, fields[k].ty).Some?
            && e.value[k] == AsField("field_" + Print(k + 1), Typed(env, hint, fields[k].ty).value.value, k)
            && forall x :: x in Typed(env, hint, fields[k].ty).value.induced ==> x in e.induced
    decreases |fields|
  {
    var n := |fields| - 1;
    TidyTuple(env, name, fields);
    if k < n { TupleRow(env, name, fields[..n], k); }
  }

  lemma {:induction false} TupleCarries(
    env: Env, roots: seq<Induced>, out: seq<Emitted>, name: string, fields: seq<TupleField>)
    requires Closed(env, roots, out) && IsInduced(env, roots, Induced(name, TupleTable(fields)))
    ensures exists rows: seq<Field> ::
              && Table(name, rows) in out && |rows| == |fields|
              && forall k :: 0 <= k < |fields| ==>
                   && rows[k].name == "field_" + Print(k + 1) && rows[k].id == k
                   && RowCarries(env, out, name + "Field" + Print(k + 1), fields[k].ty, rows[k])
    decreases fields
  {
    var item := Induced(name, TupleTable(fields));
    var rows := InducedFields(env, item).value.value;
    ChildrenInduced(env, roots, item);
    TidyTuple(env, name, fields);
    forall k | 0 <= k < |fields|
      ensures rows[k].name == "field_" + Print(k + 1) && rows[k].id == k
      ensures RowCarries(env, out, name + "Field" + Print(k + 1), fields[k].ty, rows[k])
    {
      TupleRow(env, name, fields, k);
      assert fields[k] in fields;
      TypedCarries(env, roots, out, name + "Field" + Print(k + 1), fields[k].ty, rows[k]);
    }
  }

  lemma {:induction false} BoxCarries(env: Env, roots: seq<Induced>, out: seq<Emitted>, name: string, reference: string)
    requires NamedField(env, reference).Some? && Closed(env, roots, out)
    requires IsInduced(env, roots, Induced(name, BoxTable(NamedField(env, reference).value.value)))
    ensures HasBox(env, out, name, reference)
  {
    var shape := NamedField(env, reference).value.value;
    var row := AsField("value", shape, 0);
    assert InducedFields(env, Induced(name, BoxTable(shape))).value.value == [row];
    NamedCarries(env, reference);
    NullIsAt(env, name, FieldType(Named(reference), false));
    assert Table(name, [row]) in out && RowCarries(env, out, name, Some(FieldType(Named(reference), false)), row);
  }

  // The row of one member, and what it induces.
  ghost predicate IsRowOf(env: Env, name: string, m: Member, e: Effect<seq<Field>>, k: nat) {
    && k < |e.value| && MemberField(env, name, e.value[..k], m).Some?
    && e.value[k] == MemberField(env, name, e.value[..k], m).value.value
    && forall x :: x in MemberField(env, name, e.value[..k], m).value.induced ==> x in e.induced
  }

  lemma {:induction false} RowsOneMore(env: Env, name: string, members: seq<Member>)
    requires members != [] && StructFields(env, name, members).Some?
    ensures var n := |members| - 1;
            && StructFields(env, name, members[..n]).Some?
            && var b := StructFields(env, name, members[..n]).value;
            && MemberField(env, name, b.value, members[n]).Some?
            && var f := MemberField(env, name, b.value, members[n]).value;
            StructFields(env, name, members) ==
            Some(Effect(b.value + [f.value], b.induced + f.induced, b.includes + f.includes))
  {
  }

  lemma {:induction false} MemberRowOf(env: Env, name: string, members: seq<Member>, k: nat)
    requires StructFields(env, name, members).Some? && k < |members|
    ensures |StructFields(env, name, members).value.value| == |members|
    ensures IsRowOf(env, name, members[k], StructFields(env, name, members).value, k)
    decreases |members|
  {
    var n := |members| - 1;
    RowsOneMore(env, name, members);
    var b := StructFields(env, name, members[..n]).value;
    if n > 0 {
      MemberRowOf(env, name, members[..n], if k < n then k else 0);
    } else {
      assert members[..n] == [];
    }
    RowStays(env, name, members[k], k, b, MemberField(env, name, b.value, members[n]).value, members[n]);
  }

  lemma {:induction false} RowStays(
    env: Env, name: string, m: Member, k: nat, b: Effect<seq<Field>>, f: Effect<Field>, last: Member)
    requires MemberField(env, name, b.value, last) == Some(f)
    requires if k < |b.value| then IsRowOf(env, name, m, b, k) else k == |b.value| && m == last
    ensures IsRowOf(env, name, m,
                    Effect(b.value + [f.value], b.induced + f.induced, b.includes + f.includes), k)
  {
    assert (b.value + [f.value])[..k] == b.value[..k];
    if k == |b.value| { assert b.value[..k] == b.value; }
  }

  lemma {:induction false} StructMeans(
    env: Env, roots: seq<Induced>, out: seq<Emitted>, name: string, members: seq<Member>)
    requires StructFields(env, name, members).Some? && Closed(env, roots, out)
    requires AllInduced(env, roots, StructFields(env, name, members).value.induced)
    ensures var rows := StructFields(env, name, members).value.value;
            |rows| == |members| && forall k :: 0 <= k < |members| ==> MemberCarries(env, out, name, members[k], rows[k])
  {
    var rows := StructFields(env, name, members).value.value;
    if members != [] { MemberRowOf(env, name, members, 0); }
    forall k | 0 <= k < |members| ensures MemberCarries(env, out, name, members[k], rows[k]) {
      MemberRowOf(env, name, members, k);
      var m := members[k];
      if m.Live? { TypedCarries(env, roots, out, name + env.camel(m.name), m.ty, rows[k]); }
    }
  }

  // The rows of a tuple that stands for a struct.
  lemma {:induction false} PositionalMeans(
    env: Env, roots: seq<Induced>, out: seq<Emitted>, name: string, fields: seq<TupleField>)
    requires TupleFields(env, name, fields).Some? && Closed(env, roots, out)
    requires AllInduced(env, roots, TupleFields(env, name, fields).value.induced)
    ensures var rows := TupleFields(env, name, fields).value.value;
            |rows| == |fields| && forall k :: 0 <= k < |fields| ==>
              && rows[k].name == "field_" + Print(k + 1) && rows[k].id == k
              && RowCarries(env, out, name + "Field" + Print(k + 1), fields[k].ty, rows[k])
  {
    TidyTuple(env, name, fields);
    var rows := TupleFields(env, name, fields).value.value;
    forall k | 0 <= k < |fields|
      ensures rows[k].name == "field_" + Print(k + 1) && rows[k].id == k
      ensures RowCarries(env, out, name + "Field" + Print(k + 1), fields[k].ty, rows[k])
    {
      TupleRow(env, name, fields, k);
      TypedCarries(env, roots, out, name + "Field" + Print(k + 1), fields[k].ty, rows[k]);
    }
  }

  function TypesOf(fields: seq<TupleField>): (r: seq<Option<FieldType>>)
    ensures |r| == |fields| && forall k :: 0 <= k < |r| ==> r[k] == fields[k].ty
  {
    seq(|fields|, k requires 0 <= k < |fields| => fields[k].ty)
  }

  lemma {:induction false} LiveFieldsAreLive(members: seq<Member>)
    ensures AreLive(members, TypesOf(LiveFields(members)))
  {
    if members != [] {
      var front, last := members[..|members| - 1], members[|members| - 1];
      LiveFieldsAreLive(front);
      AreLiveOneMore(front, TypesOf(LiveFields(front)), last);
      assert members == front + [last];
      assert TypesOf(LiveFields(members)) == TypesOf(LiveFields(front)) + if last.Live? then [last.ty] else [];
    }
  }

  lemma {:induction false} AreLiveOneMore(members: seq<Member>, live: seq<Option<FieldType>>, m: Member)
    requires AreLive(members, live)
    ensures AreLive(members + [m], live + if m.Live? then [m.ty] else [])
  {
    var more := if m.Live? then [m.ty] else [];
    if members == [] {
      assert members + [m] == [m] && live + more == more && [m][1..] == [];
      if m.Live? { assert more[1..] == []; }
    } else {
      assert (members + [m])[0] == members[0] && (members + [m])[1..] == members[1..] + [m];
      if members[0].Live? {
        AreLiveOneMore(members[1..], live[1..], m);
        assert (live + more)[0] == live[0] && (live + more)[1..] == live[1..] + more;
      } else {
        AreLiveOneMore(members[1..], live, m);
      }
    }
  }

  // The member of one arm, and what it induces.
  lemma {:induction false} ArmRow(env: Env, name: string, arms: seq<Arm>, k: nat)
    requires UnionMembers(env, name, arms).Some? && k < |arms|
    ensures var e := UnionMembers(env, name, arms).value;
            && |e.value| == |arms| && ArmType(env, name, arms[k]).Some?
            && e.value[k] == UnionMember(env.snake(arms[k].name), ArmType(env, name, arms[k]).value.value)
            && forall x :: x in ArmType(env, name, arms[k]).value.induced ==> x in e.induced
    decreases |arms|
  {
    var n := |arms| - 1;
    if n > 0 { ArmRow(env, name, arms[..n], if k < n then k else 0); }
  }

  lemma {:induction false} ArmMeans(env: Env, roots: seq<Induced>, out: seq<Emitted>, name: string, arm: Arm)
    requires ArmType(env, name, arm).Some? && Closed(env, roots, out)
    requires AllInduced(env, roots, ArmType(env, name, arm).value.induced)
    ensures ArmCarries(env, out, name, arm, UnionMember(env.snake(arm.name), ArmType(env, name, arm).value.value))
  {
    var r := Resolve(env, arm.reference).value;
    ResolveRefers(env, arm.reference, r.decl, r.crossed);
    if !r.decl.kind.StructDef? && !r.decl.kind.UnionDef? {
      var e := ArmType(env, name, arm).value;
      var box := Induced(name + env.camel(arm.name) + "Box", BoxTable(NamedField(env, arm.reference).value.value));
      assert box in e.induced;
      BoxCarries(env, roots, out, name + env.camel(arm.name) + "Box", arm.reference);
    }
  }

  lemma {:induction false} UnionMeans(
    env: Env, roots: seq<Induced>, out: seq<Emitted>, name: string, arms: seq<Arm>)
    requires UnionMembers(env, name, arms).Some? && Closed(env, roots, out)
    requires AllInduced(env, roots, UnionMembers(env, name, arms).value.induced)
    requires Union(name + "Union", UnionMembers(env, name, arms).value.value) in out && WrapperOf(name) in out
    ensures HasUnion(env, out, name, arms)
  {
    var rows := UnionMembers(env, name, arms).value.value;
    if arms != [] { ArmRow(env, name, arms, 0); }
    forall k | 0 <= k < |arms| ensures ArmCarries(env, out, name, arms[k], rows[k]) {
      ArmRow(env, name, arms, k);
      ArmMeans(env, roots, out, name, arms[k]);
    }
  }

  lemma {:induction false} BoxIsMeant(env: Env, roots: seq<Induced>, out: seq<Emitted>, decl: Decl)
    requires RootedInBox(decl) && RootBox(env, decl).Some? && Closed(env, roots, out)
    requires AllInduced(env, roots, RootBox(env, decl).value.induced)
    ensures HasBox(env, out, decl.name + "Box", decl.name)
  {
    var box := Induced(decl.name + "Box", BoxTable(NamedField(env, decl.name).value.value));
    assert box in RootBox(env, decl).value.induced;
    BoxCarries(env, roots, out, decl.name + "Box", decl.name);
  }

  lemma {:induction false} StructIsMeant(
    env: Env, roots: seq<Induced>, out: seq<Emitted>, index: nat, name: string, members: seq<Member>)
    requires var fields := if index < env.originals then StructFields(env, name, members)
                           else TupleFields(env, name, LiveFields(members));
             && fields.Some? && AllInduced(env, roots, fields.value.induced) && Table(name, fields.value.value) in out
    requires Closed(env, roots, out)
    ensures if index < env.originals then HasStruct(env, out, name, members)
            else HasPositional(env, out, name, members)
  {
    if index < env.originals {
      StructMeans(env, roots, out, name, members);
    } else {
      PositionalMeans(env, roots, out, name, LiveFields(members));
      LiveFieldsAreLive(members);
      assert |TypesOf(LiveFields(members))| == |LiveFields(members)|;
    }
  }

  lemma {:induction false} DeclIsMeant(env: Env, roots: seq<Induced>, out: seq<Emitted>, index: nat, decl: Decl)
    requires Declared(env, index, decl).Some? && RootBox(env, decl).Some? && Closed(env, roots, out)
    requires AllInduced(env, roots, Declared(env, index, decl).value.induced)
    requires AllInduced(env, roots, RootBox(env, decl).value.induced)
    requires forall x :: x in Declared(env, index, decl).value.value ==> x in out
    ensures DeclMeans(env, out, index, decl)
  {
    if RootedInBox(decl) { BoxIsMeant(env, roots, out, decl); }
    var e := Declared(env, index, decl).value;
    match decl.kind
    case StructDef(members) =>
      assert e.value[0] in e.value;
      StructIsMeant(env, roots, out, index, decl.name, members);
    case UnionDef(arms) =>
      assert e.value[0] in e.value && e.value[1] in e.value;
      UnionMeans(env, roots, out, decl.name, arms);
    case EnumDef(values) => assert e.value[0] == Enum(decl.name, values);
    case _ =>
  }

  // What one declaration writes and induces is among what all do.
  lemma {:induction false} WalkedHas(env: Env, k: nat, i: nat)
    requires i < k <= |env.package.decls| && Walked(env, k).Some?
    ensures var decl := env.package.decls[i];
            && Declared(env, i, decl).Some? && RootBox(env, decl).Some?
            && (forall x :: x in Declared(env, i, decl).value.value ==> x in Walked(env, k).value.value)
            && (forall x :: x in Declared(env, i, decl).value.induced ==> x in Walked(env, k).value.induced)
            && (forall x :: x in RootBox(env, decl).value.induced ==> x in Walked(env, k).value.induced)
  {
    if i < k - 1 { WalkedHas(env, k - 1, i); }
  }

  lemma {:induction false} IdentityIsMeant(env: Env, out: seq<Emitted>, k: nat)
    requires k < |env.interfaces| && forall e :: e in Identities(env, env.interfaces) ==> e in out
    ensures IdentityMeans(env, out, env.interfaces[k])
  {
    var interface := env.interfaces[k];
    var values := IdentityValues(env, interface.interactions);
    assert Identities(env, env.interfaces)[k] in Identities(env, env.interfaces);
    forall v ensures v in values <==>
                     exists x :: x in interface.interactions && x.Interaction?
                                 && v == EnumValue(env.screaming(x.name), x.ordinal)
    {
      IdentityValuesAre(env, interface.interactions, v);
    }
  }

  lemma {:induction false} IdentityValuesAre(env: Env, xs: seq<Interaction>, v: EnumValue)
    ensures v in IdentityValues(env, xs) <==>
            exists x :: x in xs && x.Interaction? && v == EnumValue(env.screaming(x.name), x.ordinal)
  {
    if xs != [] {
      IdentityValuesAre(env, xs[..|xs| - 1], v);
      assert xs == xs[..|xs| - 1] + [xs[|xs| - 1]];
    }
  }

  // A schema that is complete says all there is to say of the package.
  lemma {:induction false} CompleteMeans(env: Env, out: seq<Emitted>)
    requires Walked(env, |env.package.decls|).Some? && Complete(env, out)
    requires forall e :: e in Identities(env, env.interfaces) ==> e in out
    ensures Means(env, out)
  {
    var decls := env.package.decls;
    var roots := Walked(env, |decls|).value.induced;
    forall item | item in roots ensures IsInduced(env, roots, item) {
      assert InducedFrom(env, roots, item, 0);
    }
    forall i: nat | i < |decls| ensures DeclMeans(env, out, i, decls[i]) {
      WalkedHas(env, |decls|, i);
      DeclIsMeant(env, roots, out, i, decls[i]);
    }
    forall k | 0 <= k < |env.interfaces| ensures IdentityMeans(env, out, env.interfaces[k]) {
      IdentityIsMeant(env, out, k);
    }
  }

  // -------------------------------------------------------------------
  // Which packages can be said.
  // -------------------------------------------------------------------

  // A reference to anything but a constant or a service.
  ghost predicate Nameable(env: Env, reference: string) {
    exists decl, crossed :: Refers(env, reference, decl, crossed) && !decl.kind.OtherDecl?
  }

  predicate BytesScalar(s: Scalar) {
    s.width.None? && s.backing == Some(Bytes)
  }

  // A vector of bytes in the schema.
  ghost predicate IsBytes(env: Env, kind: TypeKind) {
    match kind
    case Simple(p) => p.Bytes?
    case Inline(s) => BytesScalar(s)
    case Named(reference) =>
      exists decl, crossed ::
        Refers(env, reference, decl, crossed) && decl.kind.TypeDef? && BytesScalar(decl.kind.scalar)
    case _ => false
  }

  // A part whose type can be written: its references are good, and no array
  // holds an array, a map or bytes, which would be a vector of vectors.
  ghost predicate Expressible(env: Env, ty: Option<FieldType>)
    decreases ty
  {
    ty.Some? && KindExpressible(env, ty.value.kind)
  }

  ghost predicate KindExpressible(env: Env, kind: TypeKind)
    decreases kind
  {
    match kind
    case Simple(_) => true
    case Inline(_) => true
    case Named(reference) => Nameable(env, reference)
    case Array(element, _) =>
      && element.Some? && !element.value.kind.Array? && !element.value.kind.Map? && !IsBytes(env, element.value.kind)
      && KindExpressible(env, element.value.kind)
    case Map(key, value, _) => Expressible(env, key) && Expressible(env, value)
    case Tuple(fields) => FieldsExpressible(env, fields)
    case OtherType => false
  }

  ghost predicate FieldsExpressible(env: Env, fields: seq<TupleField>)
    decreases fields
  {
    forall k :: 0 <= k < |fields| ==> Expressible(env, fields[k].ty)
  }

  ghost predicate LiveExpressible(env: Env, members: seq<Member>) {
    forall k :: 0 <= k < |members| && members[k].Live? ==> Expressible(env, members[k].ty)
  }

  function Label(env: Env, m: Member): string {
    match m
    case Live(name, _, _) => env.snake(name)
    case Retired(ordinal) => "reserved_" + Print(ordinal)
  }

  // A struct whose live members' types can be written, at ordinals from one, no
  // two members with one name or one ordinal.
  ghost predicate StructExpressible(env: Env, members: seq<Member>) {
    && (forall k :: 0 <= k < |members| ==>
          members[k].ordinal > 0 && (members[k].Live? ==> Expressible(env, members[k].ty)))
    && (forall j, k :: 0 <= j < k < |members| ==>
          Label(env, members[j]) != Label(env, members[k]) && members[j].ordinal != members[k].ordinal)
  }

  ghost predicate UnionExpressible(env: Env, arms: seq<Arm>) {
    && (forall k :: 0 <= k < |arms| ==> Nameable(env, arms[k].reference))
    && (forall j, k :: 0 <= j < k < |arms| ==> env.snake(arms[j].name) != env.snake(arms[k].name))
  }

  ghost predicate DeclExpressible(env: Env, index: nat, decl: Decl) {
    match decl.kind
    case StructDef(members) =>
      if index < env.originals then StructExpressible(env, members) else LiveExpressible(env, members)
    case EnumDef(values) =>
      Nameable(env, decl.name) && forall j, k :: 0 <= j < k < |values| ==> values[j].name != values[k].name
    case UnionDef(arms) => UnionExpressible(env, arms)
    case TypeDef(_) => Nameable(env, decl.name)
    case EnumSetDef(_, _) => Nameable(env, decl.name)
    case OtherDecl => true
  }

  ghost predicate PackageExpressible(env: Env) {
    forall i: nat :: i < |env.package.decls| ==> DeclExpressible(env, i, env.package.decls[i])
  }

  lemma {:induction false} NamedIffNameable(env: Env, reference: string)
    ensures NamedField(env, reference).Some? <==> Nameable(env, reference)
  {
    if Nameable(env, reference) {
      var decl, crossed :| Refers(env, reference, decl, crossed) && !decl.kind.OtherDecl?;
      ResolveRefers(env, reference, decl, crossed);
    }
    if NamedField(env, reference).Some? {
      var r := Resolve(env, reference).value;
      ResolveRefers(env, reference, r.decl, r.crossed);
    }
  }

  lemma {:induction false} NamedIsBytes(env: Env, reference: string)
    requires NamedField(env, reference).Some?
    ensures NamedField(env, reference).value.value.ty.UBytes? <==> IsBytes(env, Named(reference))
  {
    var r := Resolve(env, reference).value;
    ResolveRefers(env, reference, r.decl, r.crossed);
    forall decl, crossed | Refers(env, reference, decl, crossed) ensures decl == r.decl {
      ResolveRefers(env, reference, decl, crossed);
    }
  }

  lemma {:induction false} VectorsOnly(env: Env, hint: string, kind: TypeKind)
    requires PositionOf(env, hint, kind).Some?
    ensures var ty := PositionOf(env, hint, kind).value.value.shape.ty;
            (ty.UBytes? <==> IsBytes(env, kind)) && (ty.Vector? <==> kind.Array? || kind.Map?)
  {
    if kind.Named? { NamedIsBytes(env, kind.reference); }
  }

  // What an induced item is written from can be written.
  ghost predicate ItemExpressible(env: Env, item: Induced) {
    match item.kind
    case TupleTable(fields) => FieldsExpressible(env, fields)
    case EntryTable(key, value, _) => Expressible(env, key) && Expressible(env, value)
    case BoxTable(_) => true
  }

  ghost predicate AllExpressible(env: Env, items: seq<Induced>) {
    forall item :: item in items ==> ItemExpressible(env, item)
  }

  lemma {:induction false} KindResolves(env: Env, hint: string, kind: TypeKind)
    requires KindExpressible(env, kind)
    ensures PositionOf(env, hint, kind).Some? && AllExpressible(env, PositionOf(env, hint, kind).value.induced)
    decreases kind
  {
    match kind
    case Named(reference) => NamedIffNameable(env, reference);
    case Array(element, _) =>
      KindResolves(env, hint + "Element", element.value.kind);
      VectorsOnly(env, hint + "Element", element.value.kind);
    case _ =>
  }

  lemma {:induction false} TupleResolves(env: Env, name: string, fields: seq<TupleField>)
    requires FieldsExpressible(env, fields)
    ensures TupleFields(env, name, fields).Some? && AllExpressible(env, TupleFields(env, name, fields).value.induced)
  {
    if fields != [] {
      var k := |fields| - 1;
      TupleResolves(env, name, fields[..k]);
      KindResolves(env, name + "Field" + Print(k + 1), fields[k].ty.value.kind);
    }
  }

  lemma {:induction false} ItemResolves(env: Env, item: Induced)
    requires ItemExpressible(env, item)
    ensures InducedFields(env, item).Some? && AllExpressible(env, InducedFields(env, item).value.induced)
  {
    match item.kind
    case TupleTable(fields) => TupleResolves(env, item.name, fields);
    case EntryTable(key, value, _) =>
      KindResolves(env, item.name + "Key", key.value.kind);
      KindResolves(env, item.name + "Value", value.value.kind);
    case BoxTable(_) =>
  }

  lemma {:induction false} InducedIsExpressible(env: Env, roots: seq<Induced>, item: Induced, steps: nat)
    requires AllExpressible(env, roots) && InducedFrom(env, roots, item, steps)
    ensures ItemExpressible(env, item)
    decreases steps
  {
    if steps > 0 {
      var parent := HasParent(env, roots, item, steps);
      InducedIsExpressible(env, roots, parent, steps - 1);
      ItemResolves(env, parent);
    }
  }

  lemma {:induction false} StructResolves(env: Env, name: string, members: seq<Member>)
    requires StructExpressible(env, members)
    ensures StructFields(env, name, members).Some?
    ensures AllExpressible(env, StructFields(env, name, members).value.induced)
  {
    if members != [] {
      var n := |members| - 1;
      StructResolves(env, name, members[..n]);
      var b, m := StructFields(env, name, members[..n]).value, members[n];
      MemberResolves(env, name, members, b.value);
      var f := MemberField(env, name, b.value, m).value;
      ExpressibleAppend(env, b.induced, f.induced);
      assert members[..n + 1] == members;
      MemberAppends(env, name, members, n, b.value);
    }
  }

  // The last member's name and ordinal are free.
  lemma {:induction false} MemberResolves(env: Env, name: string, members: seq<Member>, done: seq<Field>)
    requires members != [] && StructExpressible(env, members)
    requires StructFields(env, name, members[..|members| - 1]).Some?
    requires done == StructFields(env, name, members[..|members| - 1]).value.value
    ensures MemberField(env, name, done, members[|members| - 1]).Some?
    ensures AllExpressible(env, MemberField(env, name, done, members[|members| - 1]).value.induced)
  {
    var n := |members| - 1;
    var m, front := members[n], members[..n];
    forall f | f in done ensures f.name != MemberName(env, m) && f.id != m.ordinal - 1 {
      var k :| 0 <= k < |done| && done[k] == f;
      if front != [] { MemberRowOf(env, name, front, 0); }
      MemberRowOf(env, name, front, k);
      assert Label(env, members[k]) != Label(env, members[n]) && members[k].ordinal != members[n].ordinal;
    }
    if m.Live? { KindResolves(env, name + env.camel(m.name), m.ty.value.kind); }
  }

  lemma {:induction false} ArmResolves(env: Env, name: string, arm: Arm)
    requires Nameable(env, arm.reference)
    ensures ArmType(env, name, arm).Some? && AllExpressible(env, ArmType(env, name, arm).value.induced)
  {
    NamedIffNameable(env, arm.reference);
  }

  lemma {:induction false} ArmAppends(
    env: Env, name: string, arms: seq<Arm>, b: Effect<seq<UnionMember>>, t: Effect<Type>)
    requires arms != [] && UnionMembers(env, name, arms[..|arms| - 1]) == Some(b)
    requires ArmType(env, name, arms[|arms| - 1]) == Some(t)
    requires FreeMember(b.value, env.snake(arms[|arms| - 1].name))
    ensures UnionMembers(env, name, arms).Some?
    ensures UnionMembers(env, name, arms).value.induced == b.induced + t.induced
  {
  }

  lemma {:induction false} UnionResolves(env: Env, name: string, arms: seq<Arm>)
    requires UnionExpressible(env, arms)
    ensures UnionMembers(env, name, arms).Some? && AllExpressible(env, UnionMembers(env, name, arms).value.induced)
  {
    if arms != [] {
      var front, last := arms[..|arms| - 1], arms[|arms| - 1];
      UnionResolves(env, name, front);
      ArmResolves(env, name, last);
      RowNames(env, name, front);
      var b, t := UnionMembers(env, name, front).value, ArmType(env, name, last).value;
      NameIsFree(env, arms, b.value);
      ExpressibleAppend(env, b.induced, t.induced);
      ArmAppends(env, name, arms, b, t);
    }
  }

  lemma {:induction false} RowNames(env: Env, name: string, arms: seq<Arm>)
    requires UnionMembers(env, name, arms).Some?
    ensures var rows := UnionMembers(env, name, arms).value.value;
            |rows| == |arms| && forall k :: 0 <= k < |arms| ==> rows[k].name == env.snake(arms[k].name)
  {
    if arms != [] { ArmRow(env, name, arms, 0); }
    forall k | 0 <= k < |arms| ensures UnionMembers(env, name, arms).value.value[k].name == env.snake(arms[k].name) {
      ArmRow(env, name, arms, k);
    }
  }

  lemma {:induction false} NameIsFree(env: Env, arms: seq<Arm>, done: seq<UnionMember>)
    requires arms != [] && UnionExpressible(env, arms) && |done| == |arms| - 1
    requires forall k :: 0 <= k < |done| ==> done[k].name == env.snake(arms[k].name)
    ensures FreeMember(done, env.snake(arms[|arms| - 1].name))
  {
    forall m | m in done ensures m.name != env.snake(arms[|arms| - 1].name) {
      var k :| 0 <= k < |done| && done[k] == m;
      assert env.snake(arms[k].name) != env.snake(arms[|arms| - 1].name);
    }
  }

  lemma {:induction false} LiveFieldsExpressible(env: Env, members: seq<Member>)
    ensures LiveExpressible(env, members) <==> FieldsExpressible(env, LiveFields(members))
  {
    if members != [] {
      var front, last := members[..|members| - 1], members[|members| - 1];
      LiveFieldsExpressible(env, front);
      var live, more := LiveFields(members), if last.Live? then [TupleField(last.name, last.ty)] else [];
      assert live == LiveFields(front) + more && members == front + [last];
      FieldsExpressibleAppend(env, LiveFields(front), more);
      assert FieldsExpressible(env, more) <==> (last.Live? ==> Expressible(env, last.ty)) by {
        if last.Live? { assert more[0].ty == last.ty; }
      }
      LiveExpressibleSnoc(env, front, last);
    }
  }

  lemma {:induction false} LiveExpressibleSnoc(env: Env, front: seq<Member>, last: Member)
    ensures LiveExpressible(env, front + [last]) <==>
            LiveExpressible(env, front) && (last.Live? ==> Expressible(env, last.ty))
  {
    var all := front + [last];
    assert all[|front|] == last && forall k :: 0 <= k < |front| ==> all[k] == front[k];
    if LiveExpressible(env, all) {
      forall k | 0 <= k < |front| && front[k].Live? ensures Expressible(env, front[k].ty) { assert all[k] == front[k]; }
    }
  }

  lemma {:induction false} FieldsExpressibleAppend(env: Env, a: seq<TupleField>, b: seq<TupleField>)
    ensures FieldsExpressible(env, a + b) <==> FieldsExpressible(env, a) && FieldsExpressible(env, b)
  {
    if FieldsExpressible(env, a + b) {
      forall k | 0 <= k < |a| ensures Expressible(env, a[k].ty) { assert (a + b)[k] == a[k]; }
      forall k | 0 <= k < |b| ensures Expressible(env, b[k].ty) { assert (a + b)[|a| + k] == b[k]; }
    }
  }

  lemma {:induction false} DeclResolves(env: Env, index: nat, decl: Decl)
    requires DeclExpressible(env, index, decl)
    ensures Declared(env, index, decl).Some? && AllExpressible(env, Declared(env, index, decl).value.induced)
    ensures RootBox(env, decl).Some? && AllExpressible(env, RootBox(env, decl).value.induced)
  {
    if RootedInBox(decl) {
      NamedIffNameable(env, decl.name);
      assert NamedField(env, decl.name).value.induced == [];
    }
    match decl.kind
    case StructDef(members) =>
      if index < env.originals {
        StructResolves(env, decl.name, members);
      } else {
        LiveFieldsExpressible(env, members);
        TupleResolves(env, decl.name, LiveFields(members));
      }
    case UnionDef(arms) => UnionResolves(env, decl.name, arms);
    case _ =>
  }

  lemma {:induction false} PackageResolves(env: Env, k: nat)
    requires k <= |env.package.decls| && forall i: nat :: i < k ==> DeclExpressible(env, i, env.package.decls[i])
    ensures Walked(env, k).Some? && AllExpressible(env, Walked(env, k).value.induced)
  {
    if k > 0 {
      var decl := env.package.decls[k - 1];
      PackageResolves(env, k - 1);
      DeclResolves(env, k - 1, decl);
      var a, b, c := Walked(env, k - 1).value, Declared(env, k - 1, decl).value, RootBox(env, decl).value;
      assert Walked(env, k).value.induced == a.induced + b.induced + c.induced;
      ExpressibleAppend(env, a.induced, b.induced);
      ExpressibleAppend(env, a.induced + b.induced, c.induced);
    }
  }

  lemma {:induction false} ExpressibleAppend(env: Env, a: seq<Induced>, b: seq<Induced>)
    requires AllExpressible(env, a) && AllExpressible(env, b)
    ensures AllExpressible(env, a + b)
  {
  }

  // The other way: what resolves, with all it induces, can be written.
  ghost predicate AllResolve(env: Env, roots: seq<Induced>) {
    forall item :: IsInduced(env, roots, item) ==> InducedFields(env, item).Some?
  }

  lemma {:induction false} KindMustBe(env: Env, roots: seq<Induced>, hint: string, kind: TypeKind)
    requires PositionOf(env, hint, kind).Some? && AllResolve(env, roots)
    requires AllInduced(env, roots, PositionOf(env, hint, kind).value.induced)
    ensures KindExpressible(env, kind)
    decreases kind, 1
  {
    match kind
    case Named(reference) => NamedIffNameable(env, reference);
    case Array(element, _) =>
      KindMustBe(env, roots, hint + "Element", element.value.kind);
      VectorsOnly(env, hint + "Element", element.value.kind);
    case Map(key, value, bounds) => EntryMustBe(env, roots, hint + "Entry", key, value, bounds);
    case Tuple(fields) => TupleMustBe(env, roots, hint, fields);
    case _ =>
  }

  lemma {:induction false} EntryMustBe(
    env: Env, roots: seq<Induced>, name: string, key: Option<FieldType>, value: Option<FieldType>, bounds: Bounds)
    requires AllResolve(env, roots) && IsInduced(env, roots, Induced(name, EntryTable(key, value, bounds)))
    ensures Expressible(env, key) && Expressible(env, value)
    decreases Map(key, value, bounds), 0
  {
    var item := Induced(name, EntryTable(key, value, bounds));
    ChildrenInduced(env, roots, item);
    var k, v := Typed(env, name + "Key", key).value, Typed(env, name + "Value", value).value;
    assert forall x :: x in k.induced || x in v.induced ==> x in InducedFields(env, item).value.induced;
    KindMustBe(env, roots, name + "Key", key.value.kind);
    KindMustBe(env, roots, name + "Value", value.value.kind);
  }

  lemma {:induction false} TupleMustBe(env: Env, roots: seq<Induced>, name: string, fields: seq<TupleField>)
    requires AllResolve(env, roots) && IsInduced(env, roots, Induced(name, TupleTable(fields)))
    ensures FieldsExpressible(env, fields)
    decreases fields
  {
    ChildrenInduced(env, roots, Induced(name, TupleTable(fields)));
    forall k | 0 <= k < |fields| ensures Expressible(env, fields[k].ty) {
      TupleRow(env, name, fields, k);
      assert fields[k] in fields;
      KindMustBe(env, roots, name + "Field" + Print(k + 1), fields[k].ty.value.kind);
    }
  }

  lemma {:induction false} StructMustBe(env: Env, roots: seq<Induced>, name: string, members: seq<Member>)
    requires StructFields(env, name, members).Some? && AllResolve(env, roots)
    requires AllInduced(env, roots, StructFields(env, name, members).value.induced)
    ensures StructExpressible(env, members)
  {
    var rows := StructFields(env, name, members).value.value;
    TidyStruct(env, name, members);
    if members != [] { MemberRowOf(env, name, members, 0); }
    forall k | 0 <= k < |members|
      ensures members[k].ordinal > 0 && (members[k].Live? ==> Expressible(env, members[k].ty))
      ensures rows[k].name == Label(env, members[k]) && rows[k].id == members[k].ordinal - 1
    {
      MemberRowOf(env, name, members, k);
      var m := members[k];
      if m.Live? { KindMustBe(env, roots, name + env.camel(m.name), m.ty.value.kind); }
    }
    forall j, k | 0 <= j < k < |members|
      ensures Label(env, members[j]) != Label(env, members[k]) && members[j].ordinal != members[k].ordinal
    {
      assert rows[j].name != rows[k].name && rows[j].id != rows[k].id;
    }
  }

  lemma {:induction false} UnionMustBe(env: Env, name: string, arms: seq<Arm>)
    requires UnionMembers(env, name, arms).Some?
    ensures UnionExpressible(env, arms)
  {
    var rows := UnionMembers(env, name, arms).value.value;
    TidyUnion(env, name, arms);
    if arms != [] { ArmRow(env, name, arms, 0); }
    forall k | 0 <= k < |arms|
      ensures Nameable(env, arms[k].reference) && rows[k].name == env.snake(arms[k].name)
    {
      ArmRow(env, name, arms, k);
      var r := Resolve(env, arms[k].reference).value;
      ResolveRefers(env, arms[k].reference, r.decl, r.crossed);
    }
  }

  lemma {:induction false} DeclMustBe(env: Env, roots: seq<Induced>, index: nat, decl: Decl)
    requires Declared(env, index, decl).Some? && RootBox(env, decl).Some? && AllResolve(env, roots)
    requires AllInduced(env, roots, Declared(env, index, decl).value.induced)
    ensures DeclExpressible(env, index, decl)
  {
    if RootedInBox(decl) { NamedIffNameable(env, decl.name); }
    match decl.kind
    case StructDef(members) =>
      if index < env.originals {
        StructMustBe(env, roots, decl.name, members);
      } else {
        LiveFieldsExpressible(env, members);
        var fields := LiveFields(members);
        forall k | 0 <= k < |fields| ensures Expressible(env, fields[k].ty) {
          TupleRow(env, decl.name, fields, k);
          KindMustBe(env, roots, decl.name + "Field" + Print(k + 1), fields[k].ty.value.kind);
        }
      }
    case UnionDef(arms) => UnionMustBe(env, decl.name, arms);
    case _ =>
  }

  // Everything declared and everything it induces resolves exactly when the
  // declarations can be written.
  lemma {:induction false} ResolvesIff(env: Env)
    ensures (Walked(env, |env.package.decls|).Some? && AllResolve(env, Walked(env, |env.package.decls|).value.induced))
            <==> PackageExpressible(env)
  {
    var n := |env.package.decls|;
    if PackageExpressible(env) {
      PackageResolves(env, n);
      var roots := Walked(env, n).value.induced;
      forall item | IsInduced(env, roots, item) ensures InducedFields(env, item).Some? {
        var steps: nat :| InducedFrom(env, roots, item, steps);
        InducedIsExpressible(env, roots, item, steps);
        ItemResolves(env, item);
      }
    }
    if Walked(env, n).Some? && AllResolve(env, Walked(env, n).value.induced) {
      var roots := Walked(env, n).value.induced;
      forall item | item in roots ensures IsInduced(env, roots, item) {
        assert InducedFrom(env, roots, item, 0);
      }
      forall i: nat | i < n ensures DeclExpressible(env, i, env.package.decls[i]) {
        WalkedHas(env, n, i);
        DeclMustBe(env, roots, i, env.package.decls[i]);
      }
    }
  }

  // -------------------------------------------------------------------
  // The generator, against what it means.
  // -------------------------------------------------------------------

  // The names of a package that can be written: no two declared ones meet, no
  // induced one meets a declared one, those induced under one name are one
  // thing, and the identity enums share no name with any of it nor have two
  // members of one.
  ghost predicate NamesApart(env: Env)
    requires Walked(env, |env.package.decls|).Some?
  {
    var roots, taken := Walked(env, |env.package.decls|).value.induced, Taken(env, |env.package.decls|);
    && Once(taken)
    && (forall item :: IsInduced(env, roots, item) ==> item.name !in taken)
    && (forall a, b :: IsInduced(env, roots, a) && IsInduced(env, roots, b) && a.name == b.name ==> a.kind == b.kind)
    && IdentitiesApart(env, roots, taken, Identities(env, env.interfaces))
    && forall e :: e in Identities(env, env.interfaces) ==> Tidy(e)
  }

  // A schema is written exactly for a package whose declarations can be written
  // and whose names are apart; it means the package, and everything in it is
  // distinct and bound.
  method GenerateSchema(env: Env) returns (ok: bool, out: seq<Emitted>, includes: set<string>)
    ensures ok <==> PackageExpressible(env) && Walked(env, |env.package.decls|).Some? && NamesApart(env)
    ensures PackageExpressible(env) ==> Walked(env, |env.package.decls|).Some?
    ensures ok ==> Means(env, out) && WellFormed(env, out, includes)
  {
    var schema := new Schema();
    ok := schema.Generate(env);
    out, includes := schema.out, schema.includes;
    ResolvesIff(env);
    if ok { CompleteMeans(env, out); }
  }
}
