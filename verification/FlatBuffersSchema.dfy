// The FlatBuffers schema of a package: the tables its declarations become, the
// tables its containers and boxes induce, and the names that bind them.
module FlatBuffersSchema {
  import opened Common
  import opened Text

  // -------------------------------------------------------------------
  // The package.
  // -------------------------------------------------------------------

  datatype Primitive = Boolean | Integer | Float | String | Bytes

  datatype Width = U8 | U16 | U32 | U64 | I8 | I16 | I32 | I64 | F32 | F64

  // A named or inline scalar: its width or else its backing, and the rendered
  // form of its constraint.
  datatype Scalar = Scalar(width: Option<Width>, backing: Option<Primitive>, form: string)

  datatype Bounds = Bounds(min: nat, max: nat)

  datatype FieldType = FieldType(kind: TypeKind, optional: bool)

  datatype TypeKind =
    | Simple(primitive: Primitive)
    | Inline(scalar: Scalar)
    | Named(reference: string)
    | Array(element: Option<FieldType>, bounds: Bounds)
    | Map(key: Option<FieldType>, value: Option<FieldType>, bounds: Bounds)
    | Tuple(fields: seq<TupleField>)
    | OtherType

  datatype TupleField = TupleField(name: string, ty: Option<FieldType>)

  datatype Member =
    | Live(name: string, ordinal: nat, ty: Option<FieldType>)
    | Retired(ordinal: nat)

  datatype EnumValue = EnumValue(name: string, value: int)

  datatype Arm = Arm(name: string, reference: string)

  datatype DeclKind =
    | StructDef(members: seq<Member>)
    | EnumDef(values: seq<EnumValue>)
    | EnumSetDef(width: Width, lines: string)
    | UnionDef(arms: seq<Arm>)
    | TypeDef(scalar: Scalar)
    | OtherDecl

  datatype Decl = Decl(name: string, kind: DeclKind)

  datatype Package = Package(name: string, decls: seq<Decl>)

  // An interface: its interactions and the ordinals they have had.
  datatype Interaction = Interaction(name: string, ordinal: nat) | RetiredOrdinal(ordinal: nat)

  datatype Interface = Interface(name: string, interactions: seq<Interaction>)

  // The package generated, with the structs standing for interaction tuples
  // from `originals` on; its interfaces; the packages it may refer to; the case
  // transforms.
  datatype Env = Env(
    package: Package, originals: nat, interfaces: seq<Interface>, others: seq<Package>,
    snake: string -> string, camel: string -> string, screaming: string -> string)

  // -------------------------------------------------------------------
  // The schema.
  // -------------------------------------------------------------------

  datatype Type =
    | Builtin(name: string)
    | UBytes
    | Local(name: string)
    | Foreign(package: string, name: string)
    | Vector(element: Type)

  datatype Comment = NoComment | Constraint(declared: string, form: string) | BitLines(lines: string)

  datatype Field = Field(name: string, ty: Type, isNull: bool, comment: Comment, id: nat, deprecated: bool)

  datatype UnionMember = UnionMember(name: string, ty: Type)

  datatype Emitted =
    | Table(name: string, fields: seq<Field>)
    | Enum(name: string, values: seq<EnumValue>)
    | Union(name: string, members: seq<UnionMember>)

  // A table still to be written, and what it is written from.
  datatype Induced = Induced(name: string, kind: InducedKind)

  datatype InducedKind =
    | TupleTable(fields: seq<TupleField>)
    | EntryTable(key: Option<FieldType>, value: Option<FieldType>, bounds: Bounds)
    | BoxTable(shape: Shape)

  datatype Shape = Shape(ty: Type, isNull: bool, comment: Comment)

  // What a step computes, the tables it induces and the packages it includes.
  datatype Effect<T> = Effect(value: T, induced: seq<Induced>, includes: set<string>)

  // -------------------------------------------------------------------
  // Resolving a type position.
  // -------------------------------------------------------------------

  function FbsPrimitive(p: Primitive): Type {
    match p
    case Boolean => Builtin("bool")
    case Integer => Builtin("long")
    case Float => Builtin("double")
    case Bytes => UBytes
    case String => Builtin("string")
  }

  function FbsWidth(w: Width): Type {
    match w
    case U8 => Builtin("ubyte")
    case U16 => Builtin("ushort")
    case U32 => Builtin("uint")
    case U64 => Builtin("ulong")
    case I8 => Builtin("byte")
    case I16 => Builtin("short")
    case I32 => Builtin("int")
    case I64 => Builtin("long")
    case F32 => Builtin("float")
    case F64 => Builtin("double")
  }

  function FbsScalar(s: Scalar): Type {
    match s.width
    case Some(w) => FbsWidth(w)
    case None =>
      match s.backing
      case Some(Boolean) => Builtin("bool")
      case Some(Bytes) => UBytes
      case _ => Builtin("string")
  }

  predicate IsFbsScalar(ty: Type) {
    ty != Builtin("string") && ty != UBytes
  }

  function FindDecl(decls: seq<Decl>, name: string): (r: Option<Decl>)
    ensures r.Some? ==> r.value in decls && r.value.name == name
  {
    if decls == [] then None else if decls[0].name == name then Some(decls[0]) else FindDecl(decls[1..], name)
  }

  function FindPackage(packages: seq<Package>, name: string): (r: Option<Package>)
    ensures r.Some? ==> r.value in packages && r.value.name == name
  {
    if packages == [] then None
    else if packages[0].name == name then Some(packages[0])
    else FindPackage(packages[1..], name)
  }

  datatype Resolved = Resolved(decl: Decl, crossed: Option<string>)

  function Resolve(env: Env, reference: string): Option<Resolved> {
    match SplitLast(reference, '.')
    case Some(Halves(package, name)) =>
      (match FindPackage(env.others, package)
       case None => None
       case Some(found) =>
         match FindDecl(found.decls, name)
         case None => None
         case Some(decl) => Some(Resolved(decl, Some(package))))
    case None =>
      match FindDecl(env.package.decls, reference)
      case None => None
      case Some(decl) => Some(Resolved(decl, None))
  }

  function Qualified(r: Resolved): Type {
    match r.crossed
    case Some(package) => Foreign(package, r.decl.name)
    case None => Local(r.decl.name)
  }

  function Crossed(r: Resolved): set<string> {
    if r.crossed.Some? then {r.crossed.value} else {}
  }

  predicate HasZero(values: seq<EnumValue>) {
    exists k :: 0 <= k < |values| && values[k].value == 0
  }

  function NamedShape(r: Resolved, reference: string): Option<Effect<Shape>> {
    match r.decl.kind
    case TypeDef(s) => Some(Effect(Shape(FbsScalar(s), false, Constraint(reference, s.form)), [], {}))
    case StructDef(_) => Some(Effect(Shape(Qualified(r), false, NoComment), [], Crossed(r)))
    case EnumDef(values) => Some(Effect(Shape(Qualified(r), !HasZero(values), NoComment), [], Crossed(r)))
    case EnumSetDef(w, lines) =>
      Some(Effect(Shape(FbsWidth(w), false, if lines == "" then NoComment else BitLines(lines)), [], {}))
    case UnionDef(_) => Some(Effect(Shape(Qualified(r), false, NoComment), [], Crossed(r)))
    case OtherDecl => None
  }

  function NamedField(env: Env, reference: string): Option<Effect<Shape>> {
    match Resolve(env, reference)
    case None => None
    case Some(r) => NamedShape(r, reference)
  }

  // A position before the optional rule: its shape, and whether it holds a
  // value that a default can stand for.
  datatype Position = Position(shape: Shape, holdsDefault: bool)

  function HoldsDefault(decl: Decl): bool {
    match decl.kind
    case TypeDef(s) => IsFbsScalar(FbsScalar(s))
    case EnumDef(_) => true
    case EnumSetDef(_, _) => true
    case _ => false
  }

  function Bare(ty: Type): Effect<Position> {
    Effect(Position(Shape(ty, false, NoComment), IsFbsScalar(ty)), [], {})
  }

  function PositionOf(env: Env, hint: string, kind: TypeKind): Option<Effect<Position>>
    decreases kind
  {
    match kind
    case Simple(p) => Some(Bare(FbsPrimitive(p)))
    case Inline(s) => Some(Bare(FbsScalar(s)))
    case Named(reference) =>
      (match Resolve(env, reference)
       case None => None
       case Some(r) =>
         match NamedShape(r, reference)
         case None => None
         case Some(e) => Some(Effect(Position(e.value, HoldsDefault(r.decl)), e.induced, e.includes)))
    case Array(element, _) =>
      if element.None? || element.value.kind.Array? || element.value.kind.Map? then None
      else
        (match PositionOf(env, hint + "Element", element.value.kind)
         case None => None
         case Some(e) =>
           var ty := e.value.shape.ty;
           if ty.UBytes? || ty.Vector? then None
           else Some(Effect(Position(Shape(Vector(ty), false, e.value.shape.comment), false), e.induced, e.includes)))
    case Map(key, value, bounds) =>
      var name := hint + "Entry";
      Some(Effect(Position(Shape(Vector(Local(name)), false, NoComment), false),
                  [Induced(name, EntryTable(key, value, bounds))], {}))
    case Tuple(fields) =>
      Some(Effect(Position(Shape(Local(hint), false, NoComment), false), [Induced(hint, TupleTable(fields))], {}))
    case OtherType => None
  }

  function FieldOf(env: Env, hint: string, ty: FieldType): Option<Effect<Shape>> {
    match PositionOf(env, hint, ty.kind)
    case None => None
    case Some(e) =>
      var p := e.value;
      Some(Effect(p.shape.(isNull := p.shape.isNull || (ty.optional && p.holdsDefault)), e.induced, e.includes))
  }

  // -------------------------------------------------------------------
  // The fields of each table.
  // -------------------------------------------------------------------

  function AsField(name: string, shape: Shape, id: nat): Field {
    Field(name, shape.ty, shape.isNull, shape.comment, id, false)
  }

  // One field after those already written.
  function Then(
    before: Option<Effect<seq<Field>>>, name: string, id: nat, shape: Option<Effect<Shape>>)
    : Option<Effect<seq<Field>>>
  {
    if before.None? || shape.None? then None
    else
      var b, s := before.value, shape.value;
      Some(Effect(b.value + [AsField(name, s.value, id)], b.induced + s.induced, b.includes + s.includes))
  }

  function Typed(env: Env, hint: string, ty: Option<FieldType>): Option<Effect<Shape>> {
    if ty.None? then None else FieldOf(env, hint, ty.value)
  }

  const NOTHING: Option<Effect<seq<Field>>> := Some(Effect([], [], {}))

  // The tuple's fields up to its last, named for their positions from one.
  function TupleFields(env: Env, name: string, fields: seq<TupleField>): Option<Effect<seq<Field>>> {
    if fields == [] then NOTHING
    else
      var k := |fields| - 1;
      Then(TupleFields(env, name, fields[..k]), "field_" + Print(k + 1), k,
           Typed(env, name + "Field" + Print(k + 1), fields[k].ty))
  }

  function EntryFields(
    env: Env, name: string, key: Option<FieldType>, value: Option<FieldType>): Option<Effect<seq<Field>>> {
    Then(Then(NOTHING, "key", 0, Typed(env, name + "Key", key)), "value", 1, Typed(env, name + "Value", value))
  }

  function Placeholder(ordinal: nat): string {
    "reserved_" + Print(ordinal)
  }

  function MemberName(env: Env, m: Member): string {
    match m
    case Live(name, _, _) => env.snake(name)
    case Retired(ordinal) => Placeholder(ordinal)
  }

  // A member at its ordinal less one; a name or an ordinal used before is
  // refused.
  function MemberField(env: Env, name: string, done: seq<Field>, m: Member): Option<Effect<Field>> {
    if m.ordinal == 0 || !RowIsFree(done, MemberName(env, m), m.ordinal - 1) then None
    else
      match m
      case Live(source, ordinal, ty) =>
        (match Typed(env, name + env.camel(source), ty)
         case None => None
         case Some(s) => Some(Effect(AsField(env.snake(source), s.value, ordinal - 1), s.induced, s.includes)))
      case Retired(ordinal) =>
        Some(Effect(Field(Placeholder(ordinal), Builtin("ubyte"), false, NoComment, ordinal - 1, true), [], {}))
  }

  function StructFields(env: Env, name: string, members: seq<Member>): Option<Effect<seq<Field>>> {
    if members == [] then NOTHING
    else
      match StructFields(env, name, members[..|members| - 1])
      case None => None
      case Some(b) =>
        match MemberField(env, name, b.value, members[|members| - 1])
        case None => None
        case Some(f) => Some(Effect(b.value + [f.value], b.induced + f.induced, b.includes + f.includes))
  }

  predicate RowIsFree(fields: seq<Field>, name: string, id: nat) {
    forall f :: f in fields ==> f.name != name && f.id != id
  }

  // A union's arm: a table it names, or a box around what is not a table.
  function ArmType(env: Env, name: string, arm: Arm): Option<Effect<Type>> {
    match Resolve(env, arm.reference)
    case None => None
    case Some(r) =>
      match r.decl.kind
      case StructDef(_) => Some(Effect(Qualified(r), [], Crossed(r)))
      case UnionDef(_) => Some(Effect(Qualified(r), [], Crossed(r)))
      case OtherDecl => None
      case _ =>
        match NamedField(env, arm.reference)
        case None => None
        case Some(e) =>
          var box := name + env.camel(arm.name) + "Box";
          Some(Effect(Local(box), e.induced + [Induced(box, BoxTable(e.value))], e.includes))
  }

  function UnionMembers(env: Env, name: string, arms: seq<Arm>): Option<Effect<seq<UnionMember>>> {
    if arms == [] then Some(Effect([], [], {}))
    else
      var before := UnionMembers(env, name, arms[..|arms| - 1]);
      var arm := arms[|arms| - 1];
      var ty := ArmType(env, name, arm);
      if before.None? || ty.None? || !FreeMember(before.value.value, env.snake(arm.name)) then None
      else
        var b, t := before.value, ty.value;
        Some(Effect(b.value + [UnionMember(env.snake(arm.name), t.value)],
                    b.induced + t.induced, b.includes + t.includes))
  }

  predicate FreeMember(members: seq<UnionMember>, name: string) {
    forall m :: m in members ==> m.name != name
  }

  function InducedFields(env: Env, item: Induced): Option<Effect<seq<Field>>> {
    match item.kind
    case TupleTable(fields) => TupleFields(env, item.name, fields)
    case EntryTable(key, value, _) => EntryFields(env, item.name, key, value)
    case BoxTable(shape) => Some(Effect([AsField("value", shape, 0)], [], {}))
  }

  // -------------------------------------------------------------------
  // Sizes: what a table induces is smaller than what it is written from.
  // -------------------------------------------------------------------

  function KindSize(kind: TypeKind): (n: nat)
    ensures n >= 1
    decreases kind
  {
    match kind
    case Array(element, _) => 1 + TypeSize(element)
    case Map(key, value, _) => 1 + TypeSize(key) + TypeSize(value)
    case Tuple(fields) => 1 + TupleSize(fields)
    case _ => 1
  }

  function TypeSize(ty: Option<FieldType>): nat {
    match ty
    case None => 0
    case Some(t) => KindSize(t.kind)
  }

  function TupleSize(fields: seq<TupleField>): nat {
    if fields == [] then 0 else TupleSize(fields[..|fields| - 1]) + TypeSize(fields[|fields| - 1].ty)
  }

  function ItemSize(item: Induced): (n: nat)
    ensures n >= 1
  {
    match item.kind
    case TupleTable(fields) => 1 + TupleSize(fields)
    case EntryTable(key, value, _) => 1 + TypeSize(key) + TypeSize(value)
    case BoxTable(_) => 1
  }

  function Sizes(items: seq<Induced>): nat {
    if items == [] then 0 else ItemSize(items[0]) + Sizes(items[1..])
  }

  lemma {:induction false} SizesAppend(a: seq<Induced>, b: seq<Induced>)
    ensures Sizes(a + b) == Sizes(a) + Sizes(b)
  {
    if a == [] {
      assert a + b == b;
    } else {
      SizesAppend(a[1..], b);
      assert (a + b)[1..] == a[1..] + b;
    }
  }

  lemma {:induction false} PositionInduces(env: Env, hint: string, kind: TypeKind)
    requires PositionOf(env, hint, kind).Some?
    ensures Sizes(PositionOf(env, hint, kind).value.induced) <= KindSize(kind)
    decreases kind
  {
    match kind
    case Array(element, _) => PositionInduces(env, hint + "Element", element.value.kind);
    case Map(key, value, bounds) => OneSize(Induced(hint + "Entry", EntryTable(key, value, bounds)));
    case Tuple(fields) => OneSize(Induced(hint, TupleTable(fields)));
    case _ =>
  }

  lemma {:induction false} OneSize(item: Induced)
    ensures Sizes([item]) == ItemSize(item)
  {
    assert [item][1..] == [];
  }

  lemma {:induction false} TypedInduces(env: Env, hint: string, ty: Option<FieldType>)
    requires Typed(env, hint, ty).Some?
    ensures Sizes(Typed(env, hint, ty).value.induced) <= TypeSize(ty)
  {
    PositionInduces(env, hint, ty.value.kind);
  }

  lemma {:induction false} TupleInduces(env: Env, name: string, fields: seq<TupleField>)
    requires TupleFields(env, name, fields).Some?
    ensures Sizes(TupleFields(env, name, fields).value.induced) <= TupleSize(fields)
  {
    if fields != [] {
      var k := |fields| - 1;
      var hint := name + "Field" + Print(k + 1);
      TupleInduces(env, name, fields[..k]);
      TypedInduces(env, hint, fields[k].ty);
      SizesAppend(TupleFields(env, name, fields[..k]).value.induced, Typed(env, hint, fields[k].ty).value.induced);
    }
  }

  lemma {:induction false} ItemInduces(env: Env, item: Induced)
    requires InducedFields(env, item).Some?
    ensures Sizes(InducedFields(env, item).value.induced) < ItemSize(item)
  {
    match item.kind
    case TupleTable(fields) => TupleInduces(env, item.name, fields);
    case EntryTable(key, value, _) =>
      var k, v := Typed(env, item.name + "Key", key), Typed(env, item.name + "Value", value);
      TypedInduces(env, item.name + "Key", key);
      TypedInduces(env, item.name + "Value", value);
      SizesAppend([] + k.value.induced, v.value.induced);
      assert [] + k.value.induced == k.value.induced;
    case BoxTable(_) =>
  }

  // -------------------------------------------------------------------
  // What each declaration becomes.
  // -------------------------------------------------------------------

  function LiveFields(members: seq<Member>): seq<TupleField> {
    if members == [] then []
    else
      var m := members[|members| - 1];
      LiveFields(members[..|members| - 1]) + if m.Live? then [TupleField(m.name, m.ty)] else []
  }

  predicate DistinctValues(values: seq<EnumValue>) {
    forall i, j :: 0 <= i < j < |values| ==> values[i].name != values[j].name
  }

  function UnionName(name: string): string {
    name + "Union"
  }

  function WrapperOf(name: string): Emitted {
    Table(name, [AsField("value", Shape(Local(UnionName(name)), false, NoComment), 1)])
  }

  function TableOf(name: string, fields: Option<Effect<seq<Field>>>): Option<Effect<seq<Emitted>>> {
    match fields
    case None => None
    case Some(e) => Some(Effect([Table(name, e.value)], e.induced, e.includes))
  }

  function Declared(env: Env, index: nat, decl: Decl): Option<Effect<seq<Emitted>>> {
    match decl.kind
    case StructDef(members) =>
      TableOf(decl.name, if index < env.originals then StructFields(env, decl.name, members)
                         else TupleFields(env, decl.name, LiveFields(members)))
    case EnumDef(values) =>
      if DistinctValues(values) then Some(Effect([Enum(decl.name, values)], [], {})) else None
    case UnionDef(arms) =>
      (match UnionMembers(env, decl.name, arms)
       case None => None
       case Some(e) =>
         Some(Effect([Union(UnionName(decl.name), e.value), WrapperOf(decl.name)], e.induced, e.includes)))
    case _ => Some(Effect([], [], {}))
  }

  predicate RootedInBox(decl: Decl) {
    decl.kind.TypeDef? || decl.kind.EnumDef? || decl.kind.EnumSetDef?
  }

  function RootBox(env: Env, decl: Decl): Option<Effect<seq<Emitted>>> {
    if !RootedInBox(decl) then Some(Effect([], [], {}))
    else
      match NamedField(env, decl.name)
      case None => None
      case Some(e) => Some(Effect([], e.induced + [Induced(decl.name + "Box", BoxTable(e.value))], e.includes))
  }

  function Both<T>(a: Option<Effect<seq<T>>>, b: Option<Effect<seq<T>>>): Option<Effect<seq<T>>> {
    if a.None? || b.None? then None
    else
      Some(Effect(a.value.value + b.value.value,
                  a.value.induced + b.value.induced, a.value.includes + b.value.includes))
  }

  // The first `k` declarations.
  function Walked(env: Env, k: nat): Option<Effect<seq<Emitted>>>
    requires k <= |env.package.decls|
  {
    if k == 0 then Some(Effect([], [], {}))
    else
      var decl := env.package.decls[k - 1];
      Both(Both(Walked(env, k - 1), Declared(env, k - 1, decl)), RootBox(env, decl))
  }

  // -------------------------------------------------------------------
  // Names.
  // -------------------------------------------------------------------

  predicate OwnsName(decl: Decl) {
    decl.kind.StructDef? || decl.kind.EnumDef? || decl.kind.UnionDef?
  }

  function DeclaredNames(decls: seq<Decl>): multiset<string> {
    if decls == [] then multiset{}
    else
      var d := decls[|decls| - 1];
      DeclaredNames(decls[..|decls| - 1]) + if OwnsName(d) then multiset{d.name} else multiset{}
  }

  function UnionNames(decls: seq<Decl>): multiset<string> {
    if decls == [] then multiset{}
    else
      var d := decls[|decls| - 1];
      UnionNames(decls[..|decls| - 1]) + if d.kind.UnionDef? then multiset{UnionName(d.name)} else multiset{}
  }

  function NameList(out: seq<Emitted>): (r: seq<string>)
    ensures |r| == |out| && forall k :: 0 <= k < |r| ==> r[k] == out[k].name
  {
    seq(|out|, k requires 0 <= k < |out| => out[k].name)
  }

  function Names(out: seq<Emitted>): multiset<string> {
    multiset(NameList(out))
  }

  lemma {:induction false} NamesAppend(a: seq<Emitted>, b: seq<Emitted>)
    ensures Names(a + b) == Names(a) + Names(b)
  {
    assert NameList(a + b) == NameList(a) + NameList(b);
  }

  lemma {:induction false} OneName(e: Emitted)
    ensures Names([e]) == multiset{e.name}
  {
    assert NameList([e]) == [e.name];
  }

  // A declaration writes what it is named for, and a union its union besides.
  lemma {:induction false} DeclaredWrites(env: Env, index: nat, decl: Decl)
    requires Declared(env, index, decl).Some?
    ensures Names(Declared(env, index, decl).value.value) ==
              (if OwnsName(decl) then multiset{decl.name} else multiset{}) +
              (if decl.kind.UnionDef? then multiset{UnionName(decl.name)} else multiset{})
  {
    var out := Declared(env, index, decl).value.value;
    if decl.kind.UnionDef? {
      TwoNames(out[0], out[1]);
      assert out == [out[0], out[1]];
    } else if OwnsName(decl) {
      OneName(out[0]);
      assert out == [out[0]];
    } else {
      assert NameList(out) == [];
    }
  }

  lemma {:induction false} TwoNames(a: Emitted, b: Emitted)
    ensures Names([a, b]) == multiset{b.name} + multiset{a.name}
  {
    assert NameList([a, b]) == [a.name, b.name] == [a.name] + [b.name];
  }

  lemma {:induction false} WalkedNames(env: Env, k: nat)
    requires k <= |env.package.decls| && Walked(env, k).Some?
    ensures Names(Walked(env, k).value.value) ==
            DeclaredNames(env.package.decls[..k]) + UnionNames(env.package.decls[..k])
  {
    if k == 0 {
      assert NameList([]) == [];
      assert env.package.decls[..0] == [];
    } else {
      var decls, d := env.package.decls, env.package.decls[k - 1];
      WalkedNames(env, k - 1);
      WalkedOneMore(env, k);
      NamesOneMore(decls, k);
      Regroups(DeclaredNames(decls[..k - 1]), UnionNames(decls[..k - 1]),
               if OwnsName(d) then multiset{d.name} else multiset{},
               if d.kind.UnionDef? then multiset{UnionName(d.name)} else multiset{});
    }
  }

  lemma {:induction false} Regroups(a: multiset<string>, b: multiset<string>, c: multiset<string>, d: multiset<string>)
    ensures (a + b) + (c + d) == (a + c) + (b + d)
  {
  }

  lemma {:induction false} WalkedOneMore(env: Env, k: nat)
    requires 0 < k <= |env.package.decls| && Walked(env, k).Some?
    ensures var d := env.package.decls[k - 1];
            && Walked(env, k - 1).Some?
            && Names(Walked(env, k).value.value) ==
               Names(Walked(env, k - 1).value.value) +
               ((if OwnsName(d) then multiset{d.name} else multiset{}) +
                (if d.kind.UnionDef? then multiset{UnionName(d.name)} else multiset{}))
  {
    var d := env.package.decls[k - 1];
    var before, own := Walked(env, k - 1).value.value, Declared(env, k - 1, d).value.value;
    DeclaredWrites(env, k - 1, d);
    NamesAppend(before, own);
    assert Walked(env, k).value.value == before + own + [] == before + own;
  }

  lemma {:induction false} NamesOneMore(decls: seq<Decl>, k: nat)
    requires 0 < k <= |decls|
    ensures var d := decls[k - 1];
            && DeclaredNames(decls[..k]) == DeclaredNames(decls[..k - 1]) +
               (if OwnsName(d) then multiset{d.name} else multiset{})
            && UnionNames(decls[..k]) ==
               UnionNames(decls[..k - 1]) + (if d.kind.UnionDef? then multiset{UnionName(d.name)} else multiset{})
  {
    assert decls[..k][..k - 1] == decls[..k - 1];
  }

  // -------------------------------------------------------------------
  // Which packages are accepted.
  // -------------------------------------------------------------------

  // An item among the roots, or one induced by such an item.
  ghost predicate InducedFrom(env: Env, roots: seq<Induced>, item: Induced, steps: nat)
    decreases steps
  {
    if steps == 0 then item in roots
    else exists parent :: InducedFrom(env, roots, parent, steps - 1) && InducesOne(env, parent, item)
  }

  predicate InducesOne(env: Env, parent: Induced, item: Induced) {
    var fields := InducedFields(env, parent);
    fields.Some? && item in fields.value.induced
  }

  // What the roots induce, they included.
  ghost predicate IsInduced(env: Env, roots: seq<Induced>, item: Induced) {
    exists steps: nat :: InducedFrom(env, roots, item, steps)
  }

  // The names declarations take.
  function Taken(env: Env, k: nat): multiset<string>
    requires k <= |env.package.decls|
  {
    DeclaredNames(env.package.decls) + UnionNames(env.package.decls[..k])
  }

  ghost predicate Once(names: multiset<string>) {
    forall n :: names[n] <= 1
  }

  // What is induced resolves, takes no declared name, and under one name is one
  // thing.
  ghost predicate InducedAcceptable(env: Env, roots: seq<Induced>, taken: multiset<string>) {
    && (forall item :: IsInduced(env, roots, item) ==> InducedFields(env, item).Some? && item.name !in taken)
    && (forall a, b :: IsInduced(env, roots, a) && IsInduced(env, roots, b) && a.name == b.name ==> a.kind == b.kind)
  }

  // -------------------------------------------------------------------
  // What a type may name.
  // -------------------------------------------------------------------

  ghost predicate Declares(decls: seq<Decl>, name: string) {
    exists d :: d in decls && d.name == name && OwnsName(d)
  }

  ghost predicate DeclaresAbroad(env: Env, package: string, name: string) {
    exists p :: p in env.others && p.name == package && Declares(p.decls, name)
  }

  ghost predicate NamesUnion(decls: seq<Decl>, name: string) {
    exists d :: d in decls && d.kind.UnionDef? && name == UnionName(d.name)
  }

  ghost predicate HasItem(induced: seq<Induced>, name: string) {
    exists item :: item in induced && item.name == name
  }

  // A builtin, a type of the package, one induced, one of a package included, or
  // a vector of one of these; never a vector of vectors.
  ghost predicate Known(env: Env, induced: seq<Induced>, includes: set<string>, ty: Type) {
    match ty
    case Builtin(_) => true
    case UBytes => true
    case Local(n) => Declares(env.package.decls, n) || NamesUnion(env.package.decls, n) || HasItem(induced, n)
    case Foreign(p, n) => p in includes && DeclaresAbroad(env, p, n)
    case Vector(element) => !element.UBytes? && !element.Vector? && Known(env, induced, includes, element)
  }

  ghost predicate FieldsKnown(env: Env, induced: seq<Induced>, includes: set<string>, fields: seq<Field>) {
    forall f :: f in fields ==> Known(env, induced, includes, f.ty)
  }

  // Nothing in one table, enum or union is named twice, nor has an id twice.
  predicate Tidy(e: Emitted) {
    match e
    case Table(_, fields) => TidyFields(fields)
    case Enum(_, values) => DistinctValues(values)
    case Union(_, members) => forall i, j :: 0 <= i < j < |members| ==> members[i].name != members[j].name
  }

  predicate TidyFields(fields: seq<Field>) {
    forall i, j :: 0 <= i < j < |fields| ==> fields[i].name != fields[j].name && fields[i].id != fields[j].id
  }

  ghost predicate EmittedKnown(env: Env, induced: seq<Induced>, includes: set<string>, e: Emitted) {
    && Tidy(e)
    && match e
       case Table(_, fields) => FieldsKnown(env, induced, includes, fields)
       case Enum(_, _) => true
       case Union(_, members) => forall m :: m in members ==> Known(env, induced, includes, m.ty)
  }

  lemma {:induction false} TidyStruct(env: Env, name: string, members: seq<Member>)
    requires StructFields(env, name, members).Some?
    ensures TidyFields(StructFields(env, name, members).value.value)
  {
    if members != [] {
      TidyStruct(env, name, members[..|members| - 1]);
      var b := StructFields(env, name, members[..|members| - 1]).value.value;
      var f := MemberField(env, name, b, members[|members| - 1]).value.value;
      assert forall k :: 0 <= k < |b| ==> b[k] in b;
    }
  }

  // Positions name the fields, and no two positions print alike.
  lemma {:induction false} TidyTuple(env: Env, name: string, fields: seq<TupleField>)
    requires TupleFields(env, name, fields).Some?
    ensures TidyFields(TupleFields(env, name, fields).value.value)
    ensures var rows := TupleFields(env, name, fields).value.value;
            |rows| == |fields| && forall k :: 0 <= k < |rows| ==>
                rows[k].id == k && rows[k].name == "field_" + Print(k + 1)
  {
    if fields != [] {
      var n := |fields| - 1;
      TidyTuple(env, name, fields[..n]);
      var rows := TupleFields(env, name, fields[..n]).value.value;
      forall k | 0 <= k < n ensures rows[k].name != "field_" + Print(n + 1) {
        PositionsPrintApart(k + 1, n + 1);
      }
    }
  }

  lemma {:induction false} PositionsPrintApart(a: nat, b: nat)
    requires a != b
    ensures "field_" + Print(a) != "field_" + Print(b)
  {
    ValueOfPrint(a);
    ValueOfPrint(b);
    assert ("field_" + Print(a))[6..] == Print(a) && ("field_" + Print(b))[6..] == Print(b);
  }

  lemma {:induction false} TidyItem(env: Env, item: Induced)
    requires InducedFields(env, item).Some?
    ensures TidyFields(InducedFields(env, item).value.value)
  {
    match item.kind
    case TupleTable(fields) => TidyTuple(env, item.name, fields);
    case EntryTable(key, value, _) =>
      var rows := EntryFields(env, item.name, key, value).value.value;
      assert |rows| == 2 && rows[0].name == "key" && rows[1].name == "value";
      assert "key"[0] != "value"[0];
    case BoxTable(_) =>
  }

  lemma {:induction false} TidyUnion(env: Env, name: string, arms: seq<Arm>)
    requires UnionMembers(env, name, arms).Some?
    ensures var members := UnionMembers(env, name, arms).value.value;
            forall i, j :: 0 <= i < j < |members| ==> members[i].name != members[j].name
  {
    if arms != [] {
      TidyUnion(env, name, arms[..|arms| - 1]);
      var b := UnionMembers(env, name, arms[..|arms| - 1]).value.value;
      assert forall k :: 0 <= k < |b| ==> b[k] in b;
    }
  }

  // A box carries a type resolved before it was queued.
  ghost predicate BoxesKnown(env: Env, includes: set<string>, induced: seq<Induced>) {
    forall item :: item in induced && item.kind.BoxTable? ==> Known(env, [], includes, item.kind.shape.ty)
  }

  ghost predicate AllKnown(env: Env, e: Effect<seq<Emitted>>) {
    (forall x :: x in e.value ==> EmittedKnown(env, e.induced, e.includes, x)) && BoxesKnown(env, e.includes, e.induced)
  }

  ghost predicate RowsKnown(env: Env, e: Effect<seq<Field>>) {
    FieldsKnown(env, e.induced, e.includes, e.value) && BoxesKnown(env, e.includes, e.induced)
  }

  lemma {:induction false} KnownGrows(
    env: Env, a: seq<Induced>, s: set<string>, b: seq<Induced>, t: set<string>, ty: Type)
    requires Known(env, a, s, ty) && s <= t && forall item :: item in a ==> item in b
    ensures Known(env, b, t, ty)
  {
    match ty
    case Vector(element) => KnownGrows(env, a, s, b, t, element);
    case Local(n) =>
      if HasItem(a, n) {
        var item :| item in a && item.name == n;
        assert item in b;
      }
    case _ =>
  }

  lemma {:induction false} FieldsKnownGrow(
    env: Env, a: seq<Induced>, s: set<string>, b: seq<Induced>, t: set<string>, fields: seq<Field>)
    requires FieldsKnown(env, a, s, fields) && s <= t && forall item :: item in a ==> item in b
    ensures FieldsKnown(env, b, t, fields)
  {
    forall f | f in fields ensures Known(env, b, t, f.ty) {
      KnownGrows(env, a, s, b, t, f.ty);
    }
  }

  lemma {:induction false} EmittedKnownGrows(
    env: Env, a: seq<Induced>, s: set<string>, b: seq<Induced>, t: set<string>, e: Emitted)
    requires EmittedKnown(env, a, s, e) && s <= t && forall item :: item in a ==> item in b
    ensures EmittedKnown(env, b, t, e)
  {
    match e
    case Table(_, fields) => FieldsKnownGrow(env, a, s, b, t, fields);
    case Enum(_, _) =>
    case Union(_, members) =>
      forall m | m in members ensures Known(env, b, t, m.ty) {
        KnownGrows(env, a, s, b, t, m.ty);
      }
  }

  lemma {:induction false} BoxesKnownGrow(env: Env, s: set<string>, t: set<string>, induced: seq<Induced>)
    requires BoxesKnown(env, s, induced) && s <= t
    ensures BoxesKnown(env, t, induced)
  {
    forall item | item in induced && item.kind.BoxTable? ensures Known(env, [], t, item.kind.shape.ty) {
      KnownGrows(env, [], s, [], t, item.kind.shape.ty);
    }
  }

  lemma {:induction false} QualifiedKnown(env: Env, reference: string)
    requires Resolve(env, reference).Some? && OwnsName(Resolve(env, reference).value.decl)
    ensures var r := Resolve(env, reference).value;
            Known(env, [], Crossed(r), Qualified(r))
  {
    var r := Resolve(env, reference).value;
    match r.crossed
    case None => assert r.decl in env.package.decls;
    case Some(package) =>
      var found := FindPackage(env.others, package).value;
      assert r.decl in found.decls && found in env.others;
      assert Declares(found.decls, r.decl.name);
  }

  lemma {:induction false} NamedKnown(env: Env, reference: string)
    requires NamedField(env, reference).Some?
    ensures var e := NamedField(env, reference).value;
            e.induced == [] && Known(env, [], e.includes, e.value.ty)
  {
    var r := Resolve(env, reference).value;
    if OwnsName(r.decl) { QualifiedKnown(env, reference); }
  }

  lemma {:induction false} PositionKnown(env: Env, hint: string, kind: TypeKind)
    requires PositionOf(env, hint, kind).Some?
    ensures var e := PositionOf(env, hint, kind).value;
            Known(env, e.induced, e.includes, e.value.shape.ty) && BoxesKnown(env, e.includes, e.induced)
    decreases kind
  {
    match kind
    case Named(reference) => NamedKnown(env, reference);
    case Array(element, _) => PositionKnown(env, hint + "Element", element.value.kind);
    case Map(key, value, bounds) =>
      assert HasItem(PositionOf(env, hint, kind).value.induced, hint + "Entry") by {
        assert Induced(hint + "Entry", EntryTable(key, value, bounds)) in PositionOf(env, hint, kind).value.induced;
      }
    case Tuple(fields) =>
      assert HasItem(PositionOf(env, hint, kind).value.induced, hint) by {
        assert Induced(hint, TupleTable(fields)) in PositionOf(env, hint, kind).value.induced;
      }
    case _ =>
  }

  lemma {:induction false} ThenKnown(
    env: Env, before: Option<Effect<seq<Field>>>, name: string, id: nat, hint: string, ty: Option<FieldType>)
    requires before.Some? && RowsKnown(env, before.value) && Typed(env, hint, ty).Some?
    ensures RowsKnown(env, Then(before, name, id, Typed(env, hint, ty)).value)
  {
    var b, s, all := before.value, Typed(env, hint, ty).value, Then(before, name, id, Typed(env, hint, ty)).value;
    PositionKnown(env, hint, ty.value.kind);
    BoxesKnownGrow(env, b.includes, all.includes, b.induced);
    BoxesKnownGrow(env, s.includes, all.includes, s.induced);
    FieldsKnownGrow(env, b.induced, b.includes, all.induced, all.includes, b.value);
    KnownGrows(env, s.induced, s.includes, all.induced, all.includes, s.value.ty);
  }

  lemma {:induction false} TupleKnown(env: Env, name: string, fields: seq<TupleField>)
    requires TupleFields(env, name, fields).Some?
    ensures RowsKnown(env, TupleFields(env, name, fields).value)
  {
    if fields != [] {
      var k := |fields| - 1;
      TupleKnown(env, name, fields[..k]);
      ThenKnown(env, TupleFields(env, name, fields[..k]), "field_" + Print(k + 1), k,
                name + "Field" + Print(k + 1), fields[k].ty);
    }
  }

  lemma {:induction false} StructKnown(env: Env, name: string, members: seq<Member>)
    requires StructFields(env, name, members).Some?
    ensures RowsKnown(env, StructFields(env, name, members).value)
  {
    if members != [] {
      var m := members[|members| - 1];
      var b := StructFields(env, name, members[..|members| - 1]).value;
      StructKnown(env, name, members[..|members| - 1]);
      if m.Live? {
        ThenKnown(env, Some(b), env.snake(m.name), m.ordinal - 1, name + env.camel(m.name), m.ty);
      } else {
        assert b.induced + [] == b.induced && b.includes + {} == b.includes;
      }
    }
  }

  lemma {:induction false} ItemKnown(env: Env, item: Induced, includes: set<string>)
    requires InducedFields(env, item).Some?
    requires item.kind.BoxTable? ==> Known(env, [], includes, item.kind.shape.ty)
    ensures var e := InducedFields(env, item).value;
            FieldsKnown(env, e.induced, includes + e.includes, e.value) &&
                BoxesKnown(env, includes + e.includes, e.induced)
  {
    var e := InducedFields(env, item).value;
    match item.kind
    case TupleTable(fields) =>
      TupleKnown(env, item.name, fields);
      RowsKnownGrow(env, e, includes);
    case EntryTable(key, value, _) =>
      ThenKnown(env, NOTHING, "key", 0, item.name + "Key", key);
      ThenKnown(env, Then(NOTHING, "key", 0, Typed(env, item.name + "Key", key)), "value", 1,
                item.name + "Value", value);
      RowsKnownGrow(env, e, includes);
    case BoxTable(shape) =>
      KnownGrows(env, [], includes, [], includes + e.includes, shape.ty);
  }

  lemma {:induction false} RowsKnownGrow(env: Env, e: Effect<seq<Field>>, includes: set<string>)
    requires RowsKnown(env, e)
    ensures FieldsKnown(env, e.induced, includes + e.includes, e.value) &&
            BoxesKnown(env, includes + e.includes, e.induced)
  {
    FieldsKnownGrow(env, e.induced, e.includes, e.induced, includes + e.includes, e.value);
    BoxesKnownGrow(env, e.includes, includes + e.includes, e.induced);
  }

  lemma {:induction false} ArmKnown(env: Env, name: string, arm: Arm)
    requires ArmType(env, name, arm).Some?
    ensures var e := ArmType(env, name, arm).value;
            Known(env, e.induced, e.includes, e.value) && BoxesKnown(env, e.includes, e.induced)
  {
    var r := Resolve(env, arm.reference).value;
    if r.decl.kind.StructDef? || r.decl.kind.UnionDef? {
      QualifiedKnown(env, arm.reference);
    } else {
      NamedKnown(env, arm.reference);
      var e := ArmType(env, name, arm).value;
      assert e.induced[|e.induced| - 1] in e.induced;
    }
  }

  lemma {:induction false} UnionKnown(env: Env, name: string, arms: seq<Arm>)
    requires UnionMembers(env, name, arms).Some?
    ensures var e := UnionMembers(env, name, arms).value;
            (forall m :: m in e.value ==> Known(env, e.induced, e.includes, m.ty)) &&
                BoxesKnown(env, e.includes, e.induced)
  {
    if arms != [] {
      var k := |arms| - 1;
      var b, t, all := UnionMembers(env, name, arms[..k]).value, ArmType(env, name, arms[k]).value,
          UnionMembers(env, name, arms).value;
      UnionKnown(env, name, arms[..k]);
      ArmKnown(env, name, arms[k]);
      BoxesKnownGrow(env, b.includes, all.includes, b.induced);
      BoxesKnownGrow(env, t.includes, all.includes, t.induced);
      forall m | m in b.value ensures Known(env, all.induced, all.includes, m.ty) {
        KnownGrows(env, b.induced, b.includes, all.induced, all.includes, m.ty);
      }
      KnownGrows(env, t.induced, t.includes, all.induced, all.includes, t.value);
    }
  }

  lemma {:induction false} DeclaredKnown(env: Env, index: nat)
    requires index < |env.package.decls| && Declared(env, index, env.package.decls[index]).Some?
    ensures AllKnown(env, Declared(env, index, env.package.decls[index]).value)
  {
    var decl := env.package.decls[index];
    match decl.kind
    case StructDef(members) =>
      if index < env.originals {
        StructKnown(env, decl.name, members);
        TidyStruct(env, decl.name, members);
      } else {
        TupleKnown(env, decl.name, LiveFields(members));
        TidyTuple(env, decl.name, LiveFields(members));
      }
    case UnionDef(arms) =>
      UnionKnown(env, decl.name, arms);
      TidyUnion(env, decl.name, arms);
      assert decl in env.package.decls && NamesUnion(env.package.decls, UnionName(decl.name));
    case _ =>
  }

  lemma {:induction false} BothKnown(env: Env, a: Effect<seq<Emitted>>, b: Effect<seq<Emitted>>)
    requires AllKnown(env, a) && AllKnown(env, b)
    ensures AllKnown(env, Both(Some(a), Some(b)).value)
  {
    var all := Both(Some(a), Some(b)).value;
    forall x | x in all.value ensures EmittedKnown(env, all.induced, all.includes, x) {
      if x in a.value {
        EmittedKnownGrows(env, a.induced, a.includes, all.induced, all.includes, x);
      } else {
        EmittedKnownGrows(env, b.induced, b.includes, all.induced, all.includes, x);
      }
    }
    BoxesKnownGrow(env, a.includes, all.includes, a.induced);
    BoxesKnownGrow(env, b.includes, all.includes, b.induced);
  }

  lemma {:induction false} WalkedKnown(env: Env, k: nat)
    requires k <= |env.package.decls| && Walked(env, k).Some?
    ensures AllKnown(env, Walked(env, k).value)
  {
    if k > 0 {
      WalkedKnown(env, k - 1);
      OneMoreKnown(env, k, Walked(env, k - 1).value);
    }
  }

  lemma {:induction false} OneMoreKnown(env: Env, k: nat, w: Effect<seq<Emitted>>)
    requires 0 < k <= |env.package.decls| && AllKnown(env, w)
    requires Declared(env, k - 1, env.package.decls[k - 1]).Some? && RootBox(env, env.package.decls[k - 1]).Some?
    ensures var d := env.package.decls[k - 1];
            AllKnown(env, Both(Both(Some(w), Declared(env, k - 1, d)), RootBox(env, d)).value)
  {
    DeclaredKnown(env, k - 1);
    RootBoxKnown(env, env.package.decls[k - 1]);
    AllThreeKnown(env, w, Declared(env, k - 1, env.package.decls[k - 1]).value,
                  RootBox(env, env.package.decls[k - 1]).value);
  }

  lemma {:induction false} AllThreeKnown(
    env: Env, a: Effect<seq<Emitted>>, b: Effect<seq<Emitted>>, c: Effect<seq<Emitted>>)
    requires AllKnown(env, a) && AllKnown(env, b) && AllKnown(env, c)
    ensures AllKnown(env, Both(Both(Some(a), Some(b)), Some(c)).value)
  {
    BothKnown(env, a, b);
    BothKnown(env, Both(Some(a), Some(b)).value, c);
  }

  lemma {:induction false} RootBoxKnown(env: Env, d: Decl)
    requires RootBox(env, d).Some?
    ensures AllKnown(env, RootBox(env, d).value)
  {
    if RootedInBox(d) { NamedKnown(env, d.name); }
  }

  // -------------------------------------------------------------------
  // Nothing is included for nothing.
  // -------------------------------------------------------------------

  predicate Uses(ty: Type, package: string) {
    match ty
    case Foreign(p, _) => p == package
    case Vector(element) => Uses(element, package)
    case _ => false
  }

  ghost predicate RowsUse(rows: seq<Field>, package: string) {
    exists f :: f in rows && Uses(f.ty, package)
  }

  ghost predicate UsedIn(e: Emitted, package: string) {
    match e
    case Table(_, fields) => RowsUse(fields, package)
    case Enum(_, _) => false
    case Union(_, members) => exists m :: m in members && Uses(m.ty, package)
  }

  // A package is named in what is written, or in a box still to be written.
  ghost predicate IsNeeded(out: seq<Emitted>, induced: seq<Induced>, package: string) {
    || (exists e :: e in out && UsedIn(e, package))
    || (exists item :: item in induced && item.kind.BoxTable? && Uses(item.kind.shape.ty, package))
  }

  ghost predicate AllNeeded(e: Effect<seq<Emitted>>) {
    forall package :: package in e.includes ==> IsNeeded(e.value, e.induced, package)
  }

  lemma {:induction false} NeededGrows(
    a: seq<Emitted>, b: seq<Induced>, c: seq<Emitted>, d: seq<Induced>, package: string)
    requires IsNeeded(a, b, package) && (forall e :: e in a ==> e in c) && (forall item :: item in b ==> item in d)
    ensures IsNeeded(c, d, package)
  {
  }

  lemma {:induction false} PositionUses(env: Env, hint: string, kind: TypeKind)
    requires PositionOf(env, hint, kind).Some?
    ensures var e := PositionOf(env, hint, kind).value;
            forall package :: package in e.includes ==> Uses(e.value.shape.ty, package)
    decreases kind
  {
    if kind.Array? { PositionUses(env, hint + "Element", kind.element.value.kind); }
  }

  lemma {:induction false} ThenUses(
    env: Env, before: Option<Effect<seq<Field>>>, name: string, id: nat, hint: string, ty: Option<FieldType>)
    requires before.Some? && Typed(env, hint, ty).Some?
    requires forall package :: package in before.value.includes ==> RowsUse(before.value.value, package)
    ensures var e := Then(before, name, id, Typed(env, hint, ty)).value;
            forall package :: package in e.includes ==> RowsUse(e.value, package)
  {
    var b, e := before.value, Then(before, name, id, Typed(env, hint, ty)).value;
    PositionUses(env, hint, ty.value.kind);
    forall package | package in e.includes ensures RowsUse(e.value, package) {
      if package in b.includes {
        var f :| f in b.value && Uses(f.ty, package);
        assert f in e.value;
      } else {
        assert Uses(e.value[|b.value|].ty, package);
      }
    }
  }

  lemma {:induction false} TupleUses(env: Env, name: string, fields: seq<TupleField>)
    requires TupleFields(env, name, fields).Some?
    ensures var e := TupleFields(env, name, fields).value;
            forall package :: package in e.includes ==> RowsUse(e.value, package)
  {
    if fields != [] {
      var k := |fields| - 1;
      TupleUses(env, name, fields[..k]);
      ThenUses(env, TupleFields(env, name, fields[..k]), "field_" + Print(k + 1), k,
               name + "Field" + Print(k + 1), fields[k].ty);
    }
  }

  lemma {:induction false} StructUses(env: Env, name: string, members: seq<Member>)
    requires StructFields(env, name, members).Some?
    ensures var e := StructFields(env, name, members).value;
            forall package :: package in e.includes ==> RowsUse(e.value, package)
  {
    if members != [] {
      var n := |members| - 1;
      var b := StructFields(env, name, members[..n]).value;
      StructUses(env, name, members[..n]);
      assert members[..n + 1] == members;
      MemberAppends(env, name, members, n, b.value);
      MemberUses(env, name, b, members[n], MemberField(env, name, b.value, members[n]).value);
    }
  }

  lemma {:induction false} MemberUses(env: Env, name: string, b: Effect<seq<Field>>, m: Member, f: Effect<Field>)
    requires MemberField(env, name, b.value, m) == Some(f)
    requires forall package :: package in b.includes ==> RowsUse(b.value, package)
    ensures forall package :: package in b.includes + f.includes ==> RowsUse(b.value + [f.value], package)
  {
    if m.Live? { PositionUses(env, name + env.camel(m.name), m.ty.value.kind); }
    var rows := b.value + [f.value];
    forall package | package in b.includes + f.includes ensures RowsUse(rows, package) {
      if package in b.includes {
        var g :| g in b.value && Uses(g.ty, package);
        assert g in rows;
      } else {
        assert rows[|b.value|] in rows && Uses(f.value.ty, package);
      }
    }
  }

  lemma {:induction false} ItemUses(env: Env, item: Induced)
    requires InducedFields(env, item).Some?
    ensures var e := InducedFields(env, item).value;
            forall package :: package in e.includes ==> RowsUse(e.value, package)
  {
    match item.kind
    case TupleTable(fields) => TupleUses(env, item.name, fields);
    case EntryTable(key, value, _) =>
      ThenUses(env, NOTHING, "key", 0, item.name + "Key", key);
      ThenUses(env, Then(NOTHING, "key", 0, Typed(env, item.name + "Key", key)), "value", 1,
               item.name + "Value", value);
    case BoxTable(_) =>
  }

  ghost predicate MembersNeeded(e: Effect<seq<UnionMember>>) {
    forall package :: package in e.includes ==>
      || (exists m :: m in e.value && Uses(m.ty, package))
      || (exists item :: item in e.induced && item.kind.BoxTable? && Uses(item.kind.shape.ty, package))
  }

  lemma {:induction false} UnionUses(env: Env, name: string, arms: seq<Arm>)
    requires UnionMembers(env, name, arms).Some?
    ensures MembersNeeded(UnionMembers(env, name, arms).value)
  {
    if arms != [] {
      var k := |arms| - 1;
      var b, t := UnionMembers(env, name, arms[..k]).value, ArmType(env, name, arms[k]).value;
      UnionUses(env, name, arms[..k]);
      ArmUses(env, name, arms[k]);
      MembersNeededNext(b, env.snake(arms[k].name), t);
    }
  }

  lemma {:induction false} ArmUses(env: Env, name: string, arm: Arm)
    requires ArmType(env, name, arm).Some?
    ensures var t := ArmType(env, name, arm).value;
            forall package :: package in t.includes ==>
              Uses(t.value, package) ||
              (t.induced != [] && t.induced[|t.induced| - 1].kind.BoxTable?
               && Uses(t.induced[|t.induced| - 1].kind.shape.ty, package))
  {
  }

  lemma {:induction false} MembersNeededNext(b: Effect<seq<UnionMember>>, name: string, t: Effect<Type>)
    requires MembersNeeded(b)
    requires forall package :: package in t.includes ==>
               Uses(t.value, package) ||
               (t.induced != [] && t.induced[|t.induced| - 1].kind.BoxTable?
                && Uses(t.induced[|t.induced| - 1].kind.shape.ty, package))
    ensures MembersNeeded(
              Effect(b.value + [UnionMember(name, t.value)], b.induced + t.induced, b.includes + t.includes))
  {
    var e := Effect(b.value + [UnionMember(name, t.value)], b.induced + t.induced, b.includes + t.includes);
    forall package | package in e.includes
      ensures || (exists m :: m in e.value && Uses(m.ty, package))
              || (exists item :: item in e.induced && item.kind.BoxTable? && Uses(item.kind.shape.ty, package))
    {
      if package in t.includes {
        if Uses(t.value, package) {
          assert e.value[|b.value|].ty == t.value && e.value[|b.value|] in e.value;
        } else {
          assert t.induced[|t.induced| - 1] in e.induced;
        }
      } else if m :| m in b.value && Uses(m.ty, package) {
        assert m in e.value;
      } else {
        var item :| item in b.induced && item.kind.BoxTable? && Uses(item.kind.shape.ty, package);
        assert item in e.induced;
      }
    }
  }

  lemma {:induction false} DeclaredNeeds(env: Env, index: nat, decl: Decl)
    requires Declared(env, index, decl).Some?
    ensures AllNeeded(Declared(env, index, decl).value)
  {
    var e := Declared(env, index, decl).value;
    match decl.kind
    case StructDef(members) =>
      if index < env.originals {
        StructUses(env, decl.name, members);
      } else {
        TupleUses(env, decl.name, LiveFields(members));
      }
      assert e.value[0] in e.value;
    case UnionDef(arms) =>
      UnionUses(env, decl.name, arms);
      assert e.value[0] in e.value;
    case _ =>
  }

  lemma {:induction false} RootBoxNeeds(env: Env, decl: Decl)
    requires RootBox(env, decl).Some?
    ensures AllNeeded(RootBox(env, decl).value)
  {
    var e := RootBox(env, decl).value;
    if RootedInBox(decl) { assert e.induced[|e.induced| - 1] in e.induced; }
  }

  lemma {:induction false} BothNeed(a: Effect<seq<Emitted>>, b: Effect<seq<Emitted>>)
    requires AllNeeded(a) && AllNeeded(b)
    ensures AllNeeded(Both(Some(a), Some(b)).value)
  {
    var all := Both(Some(a), Some(b)).value;
    forall package | package in all.includes ensures IsNeeded(all.value, all.induced, package) {
      if package in a.includes {
        NeededGrows(a.value, a.induced, all.value, all.induced, package);
      } else {
        NeededGrows(b.value, b.induced, all.value, all.induced, package);
      }
    }
  }

  lemma {:induction false} WalkedNeeds(env: Env, k: nat)
    requires k <= |env.package.decls| && Walked(env, k).Some?
    ensures AllNeeded(Walked(env, k).value)
  {
    if k > 0 {
      var decl := env.package.decls[k - 1];
      WalkedNeeds(env, k - 1);
      DeclaredNeeds(env, k - 1, decl);
      RootBoxNeeds(env, decl);
      var w, d, b := Walked(env, k - 1).value, Declared(env, k - 1, decl).value, RootBox(env, decl).value;
      BothNeed(w, d);
      BothNeed(Both(Some(w), Some(d)).value, b);
    }
  }

  lemma {:induction false} NeededOneMore(env: Env, e: Effect<seq<Emitted>>, item: Induced)
    requires AllNeeded(e) && InducedFields(env, item).Some?
    ensures AllNeeded(Wrote(e, item.name, InducedFields(env, item).value))
  {
    var rows := InducedFields(env, item).value;
    var f := Wrote(e, item.name, rows);
    ItemUses(env, item);
    forall package | package in f.includes ensures IsNeeded(f.value, f.induced, package) {
      if package in e.includes {
        NeededGrows(e.value, e.induced, f.value, f.induced, package);
      } else {
        assert f.value[|e.value|] in f.value && UsedIn(f.value[|e.value|], package);
      }
    }
  }

  // Once every box is written, what is included is named in what is written.
  lemma {:induction false} IncludesAreUsed(env: Env, w: Effect<seq<Emitted>>, e: Effect<seq<Emitted>>, package: string)
    requires AllNeeded(e) && Drained(env, w, e) && package in e.includes
    ensures exists x :: x in e.value && UsedIn(x, package)
  {
    if item :| item in e.induced && item.kind.BoxTable? && Uses(item.kind.shape.ty, package) {
      assert Handled(env, item, e);
      var row := AsField("value", item.kind.shape, 0);
      assert InducedFields(env, item).value.value == [row] && row in [row];
      assert UsedIn(Table(item.name, [row]), package);
    }
  }

  // -------------------------------------------------------------------
  // Prefixes that are refused.
  // -------------------------------------------------------------------

  lemma {:induction false} TupleRefused(env: Env, name: string, fields: seq<TupleField>, k: nat)
    requires k <= |fields| && TupleFields(env, name, fields[..k]).None?
    ensures TupleFields(env, name, fields).None?
    decreases |fields| - k
  {
    if k < |fields| {
      assert fields[..k + 1][..k] == fields[..k];
      TupleRefused(env, name, fields, k + 1);
    } else {
      assert fields[..k] == fields;
    }
  }

  lemma {:induction false} StructRefused(env: Env, name: string, members: seq<Member>, k: nat)
    requires k <= |members| && StructFields(env, name, members[..k]).None?
    ensures StructFields(env, name, members).None?
    decreases |members| - k
  {
    if k < |members| {
      assert members[..k + 1][..k] == members[..k];
      StructRefused(env, name, members, k + 1);
    } else {
      assert members[..k] == members;
    }
  }

  lemma {:induction false} UnionRefused(env: Env, name: string, arms: seq<Arm>, k: nat)
    requires k <= |arms| && UnionMembers(env, name, arms[..k]).None?
    ensures UnionMembers(env, name, arms).None?
    decreases |arms| - k
  {
    if k < |arms| {
      assert arms[..k + 1][..k] == arms[..k];
      UnionRefused(env, name, arms, k + 1);
    } else {
      assert arms[..k] == arms;
    }
  }

  lemma {:induction false} WalkRefused(env: Env, k: nat)
    requires k <= |env.package.decls| && Walked(env, k).None?
    ensures Walked(env, |env.package.decls|).None?
    decreases |env.package.decls| - k
  {
    if k < |env.package.decls| { WalkRefused(env, k + 1); }
  }

  lemma {:induction false} MoreNames(decls: seq<Decl>, k: nat)
    requires k <= |decls|
    ensures DeclaredNames(decls[..k]) <= DeclaredNames(decls)
    ensures UnionNames(decls[..k]) <= UnionNames(decls)
    decreases |decls| - k
  {
    if k < |decls| {
      assert decls[..k + 1][..k] == decls[..k];
      MoreNames(decls, k + 1);
      NamesOneMore(decls, k + 1);
    } else {
      assert decls[..k] == decls;
    }
  }

  ghost predicate StandsWith(env: Env, k: nat, e: Effect<seq<Emitted>>, claimed: set<string>)
    requires k <= |env.package.decls|
  {
    Once(Taken(env, k)) && (forall n :: n in claimed <==> n in Taken(env, k)) && Walked(env, k) == Some(e)
  }

  function Followed(
    e: Effect<seq<Emitted>>, own: Effect<seq<Emitted>>, box: Effect<seq<Emitted>>): Effect<seq<Emitted>>
  {
    Effect(e.value + own.value, e.induced + own.induced + box.induced, e.includes + own.includes + box.includes)
  }

  lemma {:induction false} StandsNext(env: Env, k: nat, e: Effect<seq<Emitted>>, claimed: set<string>)
    requires k < |env.package.decls| && StandsWith(env, k, e, claimed)
    requires var d := env.package.decls[k];
             && (d.kind.UnionDef? ==> UnionName(d.name) !in claimed)
             && Declared(env, k, d).Some? && RootBox(env, d).Some?
    ensures var d := env.package.decls[k];
            StandsWith(env, k + 1, Followed(e, Declared(env, k, d).value, RootBox(env, d).value),
                       claimed + if d.kind.UnionDef? then {UnionName(d.name)} else {})
  {
    TakenOneMore(env, k);
    WroteOneMore(env, k);
  }

  lemma {:induction false} StandsRefused(env: Env, k: nat, e: Effect<seq<Emitted>>, claimed: set<string>)
    requires k < |env.package.decls| && StandsWith(env, k, e, claimed)
    requires var d := env.package.decls[k];
             || (d.kind.UnionDef? && UnionName(d.name) in claimed)
             || Declared(env, k, d).None? || RootBox(env, d).None?
    ensures !Once(Taken(env, |env.package.decls|)) || Walked(env, |env.package.decls|).None?
  {
    TakenOneMore(env, k);
    if !Clashes(env, k) { WalkRefused(env, k + 1); }
  }

  // Whether declaration `k` is a union whose generated name is taken.
  predicate Clashes(env: Env, k: nat)
    requires k < |env.package.decls|
  {
    env.package.decls[k].kind.UnionDef? && UnionName(env.package.decls[k].name) in Taken(env, k)
  }

  lemma {:induction false} TakenOneMore(env: Env, k: nat)
    requires k < |env.package.decls| && Once(Taken(env, k))
    ensures Clashes(env, k) ==> !Once(Taken(env, |env.package.decls|))
    ensures !Clashes(env, k) ==> Once(Taken(env, k + 1))
    ensures var d := env.package.decls[k];
            forall n :: n in Taken(env, k + 1) <==> n in Taken(env, k) || (d.kind.UnionDef? && n == UnionName(d.name))
  {
    TakenGrows(env, k);
    if Clashes(env, k) {
      assert Taken(env, k + 1)[UnionName(env.package.decls[k].name)] >= 2;
    }
  }

  lemma {:induction false} TakenGrows(env: Env, k: nat)
    requires k < |env.package.decls|
    ensures var d := env.package.decls[k];
            Taken(env, k + 1) == Taken(env, k) + if d.kind.UnionDef? then multiset{UnionName(d.name)} else multiset{}
    ensures Taken(env, k + 1) <= Taken(env, |env.package.decls|)
  {
    var decls := env.package.decls;
    NamesOneMore(decls, k + 1);
    MoreNames(decls, k + 1);
    assert decls[..|decls|] == decls;
  }

  lemma {:induction false} WroteOneMore(env: Env, k: nat)
    requires k < |env.package.decls| && Walked(env, k).Some?
    requires Declared(env, k, env.package.decls[k]).Some? && RootBox(env, env.package.decls[k]).Some?
    ensures var w, decl := Walked(env, k).value, env.package.decls[k];
            var e, b := Declared(env, k, decl).value, RootBox(env, decl).value;
            Walked(env, k + 1) == Some(Effect(w.value + e.value, w.induced + e.induced + b.induced,
                                              w.includes + e.includes + b.includes))
  {
    var w, e := Walked(env, k).value, Declared(env, k, env.package.decls[k]).value;
    assert w.value + e.value + [] == w.value + e.value;
  }

  // -------------------------------------------------------------------
  // What holds while the worklist drains.
  // -------------------------------------------------------------------

  // The worklist holds what the declarations induce, and nothing that is not
  // induced.
  ghost predicate Queued(env: Env, roots: seq<Induced>, induced: seq<Induced>) {
    && (forall item :: item in induced ==> IsInduced(env, roots, item))
    && (forall item :: item in roots ==> item in induced)
  }

  // The item's table is written and what it induces is queued.
  ghost predicate Handled(env: Env, item: Induced, e: Effect<seq<Emitted>>) {
    var rows := InducedFields(env, item);
    && rows.Some? && Table(item.name, rows.value.value) in e.value
    && forall child :: child in rows.value.induced ==> child in e.induced
  }

  // What has been seen is handled, under its one kind.
  ghost predicate Seen(env: Env, e: Effect<seq<Emitted>>, index: nat, seen: map<string, InducedKind>) {
    && index <= |e.induced|
    && (forall i :: 0 <= i < index ==> e.induced[i].name in seen && seen[e.induced[i].name] == e.induced[i].kind)
    && (forall n :: n in seen ==> Induced(n, seen[n]) in e.induced && Handled(env, Induced(n, seen[n]), e))
  }

  // Every claimed name is written once, and no other.
  ghost predicate Booked(
    taken: multiset<string>, out: seq<Emitted>, claimed: set<string>, seen: map<string, InducedKind>)
  {
    && (forall n :: n in claimed <==> n in taken || n in seen)
    && (forall n :: n in seen ==> n !in taken)
    && OnceEach(out, claimed)
  }

  ghost predicate OnceEach(out: seq<Emitted>, claimed: set<string>) {
    forall n :: Names(out)[n] == if n in claimed then 1 else 0
  }

  lemma {:induction false} HandledGrows(env: Env, item: Induced, e: Effect<seq<Emitted>>, f: Effect<seq<Emitted>>)
    requires Handled(env, item, e) && (forall x :: x in e.value ==> x in f.value) &&
             (forall i :: i in e.induced ==> i in f.induced)
    ensures Handled(env, item, f)
  {
  }

  // The state after `item`'s table.
  function Wrote(e: Effect<seq<Emitted>>, name: string, rows: Effect<seq<Field>>): Effect<seq<Emitted>> {
    Effect(e.value + [Table(name, rows.value)], e.induced + rows.induced, e.includes + rows.includes)
  }

  lemma {:induction false} SeenOneMore(env: Env, e: Effect<seq<Emitted>>, index: nat, seen: map<string, InducedKind>)
    requires Seen(env, e, index, seen) && index < |e.induced|
    requires e.induced[index].name !in seen && InducedFields(env, e.induced[index]).Some?
    ensures var item := e.induced[index];
            Seen(env, Wrote(e, item.name, InducedFields(env, item).value), index + 1, seen[item.name := item.kind])
  {
    var item := e.induced[index];
    var f := Wrote(e, item.name, InducedFields(env, item).value);
    var now := seen[item.name := item.kind];
    forall n | n in now ensures Induced(n, now[n]) in f.induced && Handled(env, Induced(n, now[n]), f) {
      if n in seen && n != item.name {
        HandledGrows(env, Induced(n, seen[n]), e, f);
      } else {
        assert Induced(n, now[n]) == item;
        assert f.value[|e.value|] == Table(item.name, InducedFields(env, item).value.value);
      }
    }
  }

  lemma {:induction false} QueuedOneMore(env: Env, roots: seq<Induced>, induced: seq<Induced>, item: Induced)
    requires Queued(env, roots, induced)
    requires item in induced && InducedFields(env, item).Some?
    ensures Queued(env, roots, induced + InducedFields(env, item).value.induced)
  {
    var steps: nat :| InducedFrom(env, roots, item, steps);
    forall child | child in InducedFields(env, item).value.induced ensures IsInduced(env, roots, child) {
      assert InducesOne(env, item, child);
      assert InducedFrom(env, roots, child, steps + 1);
    }
  }

  lemma {:induction false} BookedOneMore(
    taken: multiset<string>, out: seq<Emitted>, claimed: set<string>, seen: map<string, InducedKind>,
    table: Emitted, kind: InducedKind)
    requires Booked(taken, out, claimed, seen) && table.name !in claimed
    ensures Booked(taken, out + [table], claimed + {table.name}, seen[table.name := kind])
  {
    NamesAppend(out, [table]);
    OneName(table);
  }

  lemma {:induction false} KnownOneMore(env: Env, e: Effect<seq<Emitted>>, item: Induced)
    requires AllKnown(env, e) && item in e.induced && InducedFields(env, item).Some?
    ensures AllKnown(env, Wrote(e, item.name, InducedFields(env, item).value))
  {
    var rows := InducedFields(env, item).value;
    var f := Wrote(e, item.name, rows);
    ItemKnown(env, item, e.includes);
    TidyItem(env, item);
    forall x | x in f.value ensures EmittedKnown(env, f.induced, f.includes, x) {
      if x in e.value {
        EmittedKnownGrows(env, e.induced, e.includes, f.induced, f.includes, x);
      } else {
        FieldsKnownGrow(env, rows.induced, f.includes, f.induced, f.includes, rows.value);
      }
    }
    BoxesKnownGrow(env, e.includes, f.includes, e.induced);
  }

  lemma {:induction false} RootsQueued(env: Env, roots: seq<Induced>)
    ensures Queued(env, roots, roots)
  {
    forall item | item in roots ensures IsInduced(env, roots, item) {
      assert InducedFrom(env, roots, item, 0);
    }
  }

  // Everything induced is written, and all the declarations before it.
  ghost predicate Drained(env: Env, w: Effect<seq<Emitted>>, e: Effect<seq<Emitted>>) {
    && (forall item :: IsInduced(env, w.induced, item) <==> item in e.induced)
    && (forall item :: item in e.induced ==> Handled(env, item, e))
    && w.value <= e.value
  }

  lemma {:induction false} DrainEnds(
    env: Env, w: Effect<seq<Emitted>>, taken: multiset<string>, e: Effect<seq<Emitted>>, claimed: set<string>,
    seen: map<string, InducedKind>)
    requires Queued(env, w.induced, e.induced) && Seen(env, e, |e.induced|, seen)
    requires Booked(taken, e.value, claimed, seen) && w.value <= e.value
    ensures Drained(env, w, e) && InducedAcceptable(env, w.induced, taken)
    ensures Claimed(taken, e)
  {
    forall item | item in e.induced
      ensures item.name in seen && seen[item.name] == item.kind && Handled(env, item, e)
    {
      QueuedIsHandled(env, e, seen, item);
    }
    forall n ensures n in seen <==> HasItem(e.induced, n) {
      if n in seen { assert Induced(n, seen[n]) in e.induced; }
    }
    forall item | IsInduced(env, w.induced, item) ensures item in e.induced {
      var steps: nat :| InducedFrom(env, w.induced, item, steps);
      DrainedHasAll(env, e, w.induced, item, steps);
    }
  }

  lemma {:induction false} SizesStep(queue: seq<Induced>, index: nat, more: seq<Induced>)
    requires index < |queue| && Sizes(more) < ItemSize(queue[index])
    ensures Sizes((queue + more)[index + 1..]) < Sizes(queue[index..])
  {
    assert queue[index..][0] == queue[index] && queue[index..][1..] == queue[index + 1..];
    assert (queue + more)[index + 1..] == queue[index + 1..] + more;
    SizesAppend(queue[index + 1..], more);
  }

  lemma {:induction false} SizesSkip(queue: seq<Induced>, index: nat)
    requires index < |queue|
    ensures Sizes(queue[index + 1..]) < Sizes(queue[index..])
  {
    assert queue[index..][0] == queue[index] && queue[index..][1..] == queue[index + 1..];
  }

  lemma {:induction false} HasParent(env: Env, roots: seq<Induced>, item: Induced, steps: nat) returns (parent: Induced)
    requires steps > 0 && InducedFrom(env, roots, item, steps)
    ensures InducedFrom(env, roots, parent, steps - 1) && InducesOne(env, parent, item)
  {
    parent :| InducedFrom(env, roots, parent, steps - 1) && InducesOne(env, parent, item);
  }

  lemma {:induction false} QueuedIsHandled(
    env: Env, e: Effect<seq<Emitted>>, seen: map<string, InducedKind>, item: Induced)
    requires Seen(env, e, |e.induced|, seen) && item in e.induced
    ensures item.name in seen && seen[item.name] == item.kind && Handled(env, item, e)
  {
    var i :| 0 <= i < |e.induced| && e.induced[i] == item;
    assert Induced(item.name, seen[item.name]) == item;
  }

  ghost predicate AllHandled(env: Env, e: Effect<seq<Emitted>>) {
    forall item :: item in e.induced ==> Handled(env, item, e)
  }

  lemma {:induction false} ChildQueued(env: Env, e: Effect<seq<Emitted>>, parent: Induced, item: Induced)
    requires AllHandled(env, e) && parent in e.induced && InducesOne(env, parent, item)
    ensures item in e.induced
  {
    assert Handled(env, parent, e);
  }

  // A drained worklist holds everything induced.
  lemma {:induction false} DrainedHasAll(
    env: Env, e: Effect<seq<Emitted>>, roots: seq<Induced>, item: Induced, steps: nat)
    requires AllHandled(env, e) && (forall root :: root in roots ==> root in e.induced)
    requires InducedFrom(env, roots, item, steps)
    ensures item in e.induced
    decreases steps
  {
    if steps > 0 {
      var parent := HasParent(env, roots, item, steps);
      DrainedHasAll(env, e, roots, parent, steps - 1);
      ChildQueued(env, e, parent, item);
    }
  }

  // What holds after `index` items.
  ghost predicate Draining(
    env: Env, w: Effect<seq<Emitted>>, taken: multiset<string>, e: Effect<seq<Emitted>>, claimed: set<string>,
    index: nat, seen: map<string, InducedKind>)
  {
    && Queued(env, w.induced, e.induced) && Seen(env, e, index, seen)
    && Booked(taken, e.value, claimed, seen) && AllKnown(env, e) && AllNeeded(e)
    && w.value <= e.value
  }

  lemma {:induction false} DrainStep(
    env: Env, w: Effect<seq<Emitted>>, taken: multiset<string>, e: Effect<seq<Emitted>>, claimed: set<string>,
    index: nat, seen: map<string, InducedKind>)
    requires Draining(env, w, taken, e, claimed, index, seen) && index < |e.induced|
    requires e.induced[index].name !in claimed && InducedFields(env, e.induced[index]).Some?
    ensures var item := e.induced[index];
            var f := Wrote(e, item.name, InducedFields(env, item).value);
            && Draining(env, w, taken, f, claimed + {item.name}, index + 1, seen[item.name := item.kind])
            && Sizes(f.induced[index + 1..]) < Sizes(e.induced[index..])
  {
    var item := e.induced[index];
    ItemInduces(env, item);
    SizesStep(e.induced, index, InducedFields(env, item).value.induced);
    SeenOneMore(env, e, index, seen);
    QueuedOneMore(env, w.induced, e.induced, item);
    KnownOneMore(env, e, item);
    NeededOneMore(env, e, item);
    BookedOneMore(taken, e.value, claimed, seen, Table(item.name, InducedFields(env, item).value.value), item.kind);
  }

  lemma {:induction false} DrainSkip(
    env: Env, w: Effect<seq<Emitted>>, taken: multiset<string>, e: Effect<seq<Emitted>>, claimed: set<string>,
    index: nat, seen: map<string, InducedKind>)
    requires Draining(env, w, taken, e, claimed, index, seen) && index < |e.induced|
    requires e.induced[index].name in seen
    ensures seen[e.induced[index].name] == e.induced[index].kind ==>
              Draining(env, w, taken, e, claimed, index + 1, seen) &&
                  Sizes(e.induced[index + 1..]) < Sizes(e.induced[index..])
    ensures seen[e.induced[index].name] != e.induced[index].kind ==> !InducedAcceptable(env, w.induced, taken)
  {
    var item := e.induced[index];
    SizesSkip(e.induced, index);
    if seen[item.name] != item.kind {
      assert IsInduced(env, w.induced, Induced(item.name, seen[item.name])) && IsInduced(env, w.induced, item);
    }
  }

  lemma {:induction false} DrainRefuses(
    env: Env, w: Effect<seq<Emitted>>, taken: multiset<string>, e: Effect<seq<Emitted>>, claimed: set<string>,
    index: nat, seen: map<string, InducedKind>)
    requires Draining(env, w, taken, e, claimed, index, seen) && index < |e.induced|
    requires e.induced[index].name !in seen
    requires e.induced[index].name in claimed || InducedFields(env, e.induced[index]).None?
    ensures !InducedAcceptable(env, w.induced, taken)
  {
    assert IsInduced(env, w.induced, e.induced[index]);
  }

  // -------------------------------------------------------------------
  // The generator.
  // -------------------------------------------------------------------

  // A step answers what its specification computes, and adds to the worklist
  // and the includes what that says it does.
  ghost predicate Took<T>(spec: Option<Effect<T>>, r: Option<T>,
                          was: seq<Induced>, now: seq<Induced>, had: set<string>, has: set<string>) {
    && (r.Some? <==> spec.Some?)
    && (r.Some? ==> r.value == spec.value.value && now == was + spec.value.induced && has == had + spec.value.includes)
  }

  lemma {:induction false} MemberNext(
    env: Env, name: string, members: seq<Member>, k: nat, done: seq<Field>, row: Option<Field>,
    was: seq<Induced>, mid: seq<Induced>, now: seq<Induced>, had: set<string>, held: set<string>, has: set<string>)
    requires k < |members| && Took(StructFields(env, name, members[..k]), Some(done), was, mid, had, held)
    requires Took(MemberField(env, name, done, members[k]), row, mid, now, held, has)
    ensures row.Some? ==> Took(StructFields(env, name, members[..k + 1]), Some(done + [row.value]), was, now, had, has)
    ensures row.None? ==> StructFields(env, name, members).None?
  {
    MemberAppends(env, name, members, k, done);
    TookNext(StructFields(env, name, members[..k]), MemberField(env, name, done, members[k]),
             StructFields(env, name, members[..k + 1]), done, row, was, mid, now, had, held, has);
    if row.None? { StructRefused(env, name, members, k + 1); }
  }

  lemma {:induction false} TookNext(
    spec: Option<Effect<seq<Field>>>, f: Option<Effect<Field>>, next: Option<Effect<seq<Field>>>,
    done: seq<Field>, row: Option<Field>,
    was: seq<Induced>, mid: seq<Induced>, now: seq<Induced>, had: set<string>, held: set<string>, has: set<string>)
    requires Took(spec, Some(done), was, mid, had, held) && Took(f, row, mid, now, held, has)
    requires next == if f.None? then None
                     else Some(Effect(done + [f.value.value], spec.value.induced + f.value.induced,
                                       spec.value.includes + f.value.includes))
    ensures row.Some? ==> Took(next, Some(done + [row.value]), was, now, had, has)
    ensures row.None? ==> next.None?
  {
  }

  lemma {:induction false} MemberAppends(env: Env, name: string, members: seq<Member>, k: nat, done: seq<Field>)
    requires k < |members| && StructFields(env, name, members[..k]).Some?
    requires done == StructFields(env, name, members[..k]).value.value
    ensures var b, f := StructFields(env, name, members[..k]).value, MemberField(env, name, done, members[k]);
            StructFields(env, name, members[..k + 1]) ==
            if f.None? then None
            else Some(Effect(b.value + [f.value.value], b.induced + f.value.induced, b.includes + f.value.includes))
  {
    assert members[..k + 1][..k] == members[..k];
  }

  class Schema {
    var out: seq<Emitted>
    var induced: seq<Induced>
    var includes: set<string>
    var claimed: set<string>

    constructor ()
      ensures out == [] && induced == [] && includes == {} && claimed == {}
    {
      out, induced, includes, claimed := [], [], {}, {};
    }

    method Claim(name: string) returns (ok: bool)
      modifies this`claimed
      ensures ok <==> name !in old(claimed)
      ensures claimed == old(claimed) + {name}
    {
      ok := name !in claimed;
      claimed := claimed + {name};
    }

    method NamedType(r: Resolved, reference: string) returns (shape: Option<Shape>)
      modifies this`includes
      ensures Took(NamedShape(r, reference), shape, induced, induced, old(includes), includes)
    {
      match r.decl.kind
      case TypeDef(s) =>
        shape := Some(Shape(FbsScalar(s), false, Constraint(reference, s.form)));
      case StructDef(_) =>
        var ty := QualifiedName(r);
        shape := Some(Shape(ty, false, NoComment));
      case EnumDef(values) =>
        var ty := QualifiedName(r);
        shape := Some(Shape(ty, !HasZero(values), NoComment));
      case EnumSetDef(w, lines) =>
        shape := Some(Shape(FbsWidth(w), false, if lines == "" then NoComment else BitLines(lines)));
      case UnionDef(_) =>
        var ty := QualifiedName(r);
        shape := Some(Shape(ty, false, NoComment));
      case OtherDecl =>
        shape := None;
    }

    method QualifiedName(r: Resolved) returns (ty: Type)
      modifies this`includes
      ensures ty == Qualified(r) && includes == old(includes) + Crossed(r)
    {
      if r.crossed.Some? {
        includes := includes + {r.crossed.value};
        ty := Foreign(r.crossed.value, r.decl.name);
      } else {
        ty := Local(r.decl.name);
      }
    }

    method ResolvePosition(env: Env, hint: string, kind: TypeKind) returns (p: Option<Position>)
      modifies this`induced, this`includes
      ensures Took(PositionOf(env, hint, kind), p, old(induced), induced, old(includes), includes)
      decreases kind
    {
      match kind
      case Simple(primitive) => p := Some(Bare(FbsPrimitive(primitive)).value);
      case Inline(s) => p := Some(Bare(FbsScalar(s)).value);
      case Named(reference) =>
        var r := Resolve(env, reference);
        if r.None? {
          return None;
        }
        var shape := NamedType(r.value, reference);
        p := if shape.None? then None else Some(Position(shape.value, HoldsDefault(r.value.decl)));
      case Array(element, _) =>
        if element.None? || element.value.kind.Array? || element.value.kind.Map? {
          return None;
        }
        var inner := ResolvePosition(env, hint + "Element", element.value.kind);
        if inner.None? || inner.value.shape.ty.UBytes? || inner.value.shape.ty.Vector? {
          return None;
        }
        p := Some(Position(Shape(Vector(inner.value.shape.ty), false, inner.value.shape.comment), false));
      case Map(key, value, bounds) =>
        var name := hint + "Entry";
        induced := induced + [Induced(name, EntryTable(key, value, bounds))];
        p := Some(Position(Shape(Vector(Local(name)), false, NoComment), false));
      case Tuple(fields) =>
        induced := induced + [Induced(hint, TupleTable(fields))];
        p := Some(Position(Shape(Local(hint), false, NoComment), false));
      case OtherType => p := None;
    }

    method ResolveField(env: Env, hint: string, ty: Option<FieldType>) returns (shape: Option<Shape>)
      modifies this`induced, this`includes
      ensures Took(Typed(env, hint, ty), shape, old(induced), induced, old(includes), includes)
    {
      if ty.None? {
        return None;
      }
      var p := ResolvePosition(env, hint, ty.value.kind);
      if p.None? {
        return None;
      }
      var s := p.value.shape;
      shape := Some(s.(isNull := s.isNull || (ty.value.optional && p.value.holdsDefault)));
    }

    method TupleRows(env: Env, name: string, fields: seq<TupleField>) returns (rows: Option<seq<Field>>)
      modifies this`induced, this`includes
      ensures Took(TupleFields(env, name, fields), rows, old(induced), induced, old(includes), includes)
    {
      var done: seq<Field> := [];
      for k := 0 to |fields|
        invariant Took(TupleFields(env, name, fields[..k]), Some(done), old(induced), induced, old(includes), includes)
      {
        assert fields[..k + 1][..k] == fields[..k];
        var shape := ResolveField(env, name + "Field" + Print(k + 1), fields[k].ty);
        if shape.None? {
          TupleRefused(env, name, fields, k + 1);
          return None;
        }
        done := done + [AsField("field_" + Print(k + 1), shape.value, k)];
      }
      assert fields[..|fields|] == fields;
      rows := Some(done);
    }

    method EntryRows(
      env: Env, name: string, key: Option<FieldType>, value: Option<FieldType>)
      returns (rows: Option<seq<Field>>)
      modifies this`induced, this`includes
      ensures Took(EntryFields(env, name, key, value), rows, old(induced), induced, old(includes), includes)
    {
      var k := ResolveField(env, name + "Key", key);
      if k.None? {
        return None;
      }
      var v := ResolveField(env, name + "Value", value);
      if v.None? {
        return None;
      }
      assert [] + Typed(env, name + "Key", key).value.induced == Typed(env, name + "Key", key).value.induced;
      var first, second := AsField("key", k.value, 0), AsField("value", v.value, 1);
      assert ([] + [first]) + [second] == [first, second];
      rows := Some([first, second]);
    }

    method MemberRow(env: Env, name: string, done: seq<Field>, m: Member) returns (row: Option<Field>)
      modifies this`induced, this`includes
      ensures Took(MemberField(env, name, done, m), row, old(induced), induced, old(includes), includes)
    {
      if m.ordinal == 0 || !RowIsFree(done, MemberName(env, m), m.ordinal - 1) {
        return None;
      }
      match m
      case Live(source, ordinal, ty) =>
        var shape := ResolveField(env, name + env.camel(source), ty);
        row := if shape.None? then None else Some(AsField(env.snake(source), shape.value, ordinal - 1));
      case Retired(ordinal) =>
        row := Some(Field(Placeholder(ordinal), Builtin("ubyte"), false, NoComment, ordinal - 1, true));
    }

    method StructRows(env: Env, name: string, members: seq<Member>) returns (rows: Option<seq<Field>>)
      modifies this`induced, this`includes
      ensures Took(StructFields(env, name, members), rows, old(induced), induced, old(includes), includes)
    {
      var done: seq<Field> := [];
      for k := 0 to |members|
        invariant Took(StructFields(env, name, members[..k]), Some(done),
                       old(induced), induced, old(includes), includes)
      {
        ghost var mid, had := induced, includes;
        var row := MemberRow(env, name, done, members[k]);
        MemberNext(env, name, members, k, done, row, old(induced), mid, induced, old(includes), had, includes);
        if row.None? {
          return None;
        }
        done := done + [row.value];
      }
      assert members[..|members|] == members;
      rows := Some(done);
    }

    method ResolveArm(env: Env, name: string, arm: Arm) returns (ty: Option<Type>)
      modifies this`induced, this`includes
      ensures Took(ArmType(env, name, arm), ty, old(induced), induced, old(includes), includes)
    {
      var r := Resolve(env, arm.reference);
      if r.None? || r.value.decl.kind.OtherDecl? {
        return None;
      }
      if r.value.decl.kind.StructDef? || r.value.decl.kind.UnionDef? {
        var named := QualifiedName(r.value);
        return Some(named);
      }
      var shape := NamedType(r.value, arm.reference);
      if shape.None? {
        return None;
      }
      var box := name + env.camel(arm.name) + "Box";
      induced := induced + [Induced(box, BoxTable(shape.value))];
      ty := Some(Local(box));
    }

    method UnionRows(env: Env, name: string, arms: seq<Arm>) returns (rows: Option<seq<UnionMember>>)
      modifies this`induced, this`includes
      ensures Took(UnionMembers(env, name, arms), rows, old(induced), induced, old(includes), includes)
    {
      var done: seq<UnionMember> := [];
      for k := 0 to |arms|
        invariant Took(UnionMembers(env, name, arms[..k]), Some(done), old(induced), induced, old(includes), includes)
      {
        assert arms[..k + 1][..k] == arms[..k];
        var ty := ResolveArm(env, name, arms[k]);
        if ty.None? || !FreeMember(done, env.snake(arms[k].name)) {
          UnionRefused(env, name, arms, k + 1);
          return None;
        }
        done := done + [UnionMember(env.snake(arms[k].name), ty.value)];
      }
      assert arms[..|arms|] == arms;
      rows := Some(done);
    }

    // The names declarations take come first.
    method ClaimDeclared(decls: seq<Decl>) returns (ok: bool)
      requires claimed == {}
      modifies this`claimed
      ensures ok <==> Once(DeclaredNames(decls))
      ensures ok ==> forall n :: n in claimed <==> n in DeclaredNames(decls)
    {
      for k := 0 to |decls|
        invariant Once(DeclaredNames(decls[..k])) && forall n :: n in claimed <==> n in DeclaredNames(decls[..k])
      {
        assert decls[..k + 1][..k] == decls[..k];
        if OwnsName(decls[k]) {
          ok := Claim(decls[k].name);
          if !ok {
            assert DeclaredNames(decls[..k + 1])[decls[k].name] >= 2;
            MoreNames(decls, k + 1);
            return;
          }
        }
      }
      assert decls[..|decls|] == decls;
      ok := true;
    }

    method EmitKind(env: Env, index: nat, decl: Decl) returns (ok: bool)
      modifies this
      ensures claimed == old(claimed) + if decl.kind.UnionDef? then {UnionName(decl.name)} else {}
      ensures ok <==>
                && (decl.kind.UnionDef? ==> UnionName(decl.name) !in old(claimed))
                && Declared(env, index, decl).Some?
      ensures ok ==>
                var e := Declared(env, index, decl).value;
                out == old(out) + e.value && induced == old(induced) + e.induced &&
                    includes == old(includes) + e.includes
    {
      match decl.kind
      case StructDef(members) =>
        var rows;
        if index < env.originals {
          rows := StructRows(env, decl.name, members);
        } else {
          rows := TupleRows(env, decl.name, LiveFields(members));
        }
        if rows.None? {
          return false;
        }
        out := out + [Table(decl.name, rows.value)];
        ok := true;
      case EnumDef(values) =>
        ok := DistinctValues(values);
        if ok {
          out := out + [Enum(decl.name, values)];
        }
      case UnionDef(arms) =>
        ok := Claim(UnionName(decl.name));
        if !ok {
          return;
        }
        var rows := UnionRows(env, decl.name, arms);
        if rows.None? {
          return false;
        }
        out := out + [Union(UnionName(decl.name), rows.value), WrapperOf(decl.name)];
      case _ => ok := true;
    }

    method EmitRootBox(env: Env, decl: Decl) returns (ok: bool)
      modifies this`induced, this`includes
      ensures ok <==> RootBox(env, decl).Some?
      ensures ok ==>
                var e := RootBox(env, decl).value;
                induced == old(induced) + e.induced && includes == old(includes) + e.includes && e.value == []
    {
      if !RootedInBox(decl) {
        return true;
      }
      var r := Resolve(env, decl.name);
      if r.None? {
        return false;
      }
      var shape := NamedType(r.value, decl.name);
      if shape.None? {
        return false;
      }
      induced := induced + [Induced(decl.name + "Box", BoxTable(shape.value))];
      ok := true;
    }

    // The declarations in order, each with the box it is rooted in.
    method Walk(env: Env) returns (ok: bool)
      requires out == [] && induced == [] && includes == {}
      requires Once(DeclaredNames(env.package.decls))
      requires forall n :: n in claimed <==> n in DeclaredNames(env.package.decls)
      modifies this
      ensures ok <==> Once(Taken(env, |env.package.decls|)) && Walked(env, |env.package.decls|).Some?
      ensures ok ==> Stands(env, |env.package.decls|)
    {
      var decls := env.package.decls;
      for k := 0 to |decls|
        invariant Stands(env, k)
      {
        ok := WalkOne(env, k);
        if !ok {
          return;
        }
      }
      ok := true;
    }

    method WalkOne(env: Env, k: nat) returns (ok: bool)
      requires k < |env.package.decls| && Stands(env, k)
      modifies this
      ensures ok ==> Stands(env, k + 1)
      ensures !ok ==> !Once(Taken(env, |env.package.decls|)) || Walked(env, |env.package.decls|).None?
    {
      var decl := env.package.decls[k];
      ghost var before, held := State(), claimed;
      ok := EmitKind(env, k, decl);
      if !ok {
        StandsRefused(env, k, before, held);
        return;
      }
      ok := EmitRootBox(env, decl);
      if !ok {
        StandsRefused(env, k, before, held);
        return;
      }
      StandsNext(env, k, before, held);
      assert State() == Followed(before, Declared(env, k, decl).value, RootBox(env, decl).value);
    }

    // The first `k` declarations are written and their names claimed.
    ghost predicate Stands(env: Env, k: nat)
      requires k <= |env.package.decls|
      reads this
    {
      StandsWith(env, k, State(), claimed)
    }

    ghost function State(): Effect<seq<Emitted>>
      reads this
    {
      Effect(out, induced, includes)
    }

    // The worklist grows while it is drained; a name met again with the same
    // contents is passed over.
    method Drain(env: Env, ghost w: Effect<seq<Emitted>>, ghost taken: multiset<string>) returns (ok: bool)
      requires State() == w && AllKnown(env, w) && AllNeeded(w) && Booked(taken, out, claimed, map[])
      modifies this
      ensures ok <==> InducedAcceptable(env, w.induced, taken)
      ensures ok ==> Drained(env, w, State()) && AllKnown(env, State()) && AllNeeded(State())
      ensures ok ==> Claimed(taken, State()) && OnceEach(out, claimed)
    {
      var seen: map<string, InducedKind> := map[];
      var index := 0;
      RootsQueued(env, induced);
      while index < |induced|
        invariant Draining(env, w, taken, State(), claimed, index, seen) && index <= |induced|
        decreases Sizes(induced[index..])
      {
        ok, seen := DrainNext(env, w, taken, index, seen);
        if !ok {
          return;
        }
        index := index + 1;
      }
      DrainEnds(env, w, taken, State(), claimed, seen);
      ok := true;
    }

    method DrainNext(
      env: Env, ghost w: Effect<seq<Emitted>>, ghost taken: multiset<string>, index: nat,
      seen: map<string, InducedKind>)
      returns (ok: bool, now: map<string, InducedKind>)
      requires index < |induced| && Draining(env, w, taken, State(), claimed, index, seen)
      modifies this
      ensures !ok ==> !InducedAcceptable(env, w.induced, taken)
      ensures ok ==> Draining(env, w, taken, State(), claimed, index + 1, now)
      ensures ok ==> index < |induced| && Sizes(induced[index + 1..]) < Sizes(old(induced)[index..])
    {
      var item := induced[index];
      if item.name in seen {
        DrainSkip(env, w, taken, State(), claimed, index, seen);
        return seen[item.name] == item.kind, seen;
      }
      ok := DrainItem(env, w, taken, index, seen);
      now := seen[item.name := item.kind];
    }

    method DrainItem(
      env: Env, ghost w: Effect<seq<Emitted>>, ghost taken: multiset<string>, index: nat,
      ghost seen: map<string, InducedKind>)
      returns (ok: bool)
      requires index < |induced|
      requires Draining(env, w, taken, State(), claimed, index, seen) && induced[index].name !in seen
      modifies this
      ensures !ok ==> !InducedAcceptable(env, w.induced, taken)
      ensures ok ==> var item := old(induced[index]);
                     && Draining(env, w, taken, State(), claimed, index + 1, seen[item.name := item.kind])
                     && index < |induced| && Sizes(induced[index + 1..]) < Sizes(old(induced)[index..])
    {
      var item := induced[index];
      ghost var before, held := State(), claimed;
      ok := Claim(item.name);
      if !ok {
        DrainRefuses(env, w, taken, before, held, index, seen);
        return;
      }
      var rows := ItemRows(env, item);
      if rows.None? {
        DrainRefuses(env, w, taken, before, held, index, seen);
        return false;
      }
      DrainStep(env, w, taken, before, held, index, seen);
      out := out + [Table(item.name, rows.value)];
    }

    method ItemRows(env: Env, item: Induced) returns (rows: Option<seq<Field>>)
      modifies this`induced, this`includes
      ensures Took(InducedFields(env, item), rows, old(induced), induced, old(includes), includes)
    {
      match item.kind
      case TupleTable(fields) => rows := TupleRows(env, item.name, fields);
      case EntryTable(key, value, _) => rows := EntryRows(env, item.name, key, value);
      case BoxTable(shape) => rows := Some([AsField("value", shape, 0)]);
    }

    // The whole schema; the enums of the identity tables come last.
    method Generate(env: Env) returns (ok: bool)
      requires out == [] && induced == [] && includes == {} && claimed == {}
      modifies this
      ensures ok <==> Acceptable(env)
      ensures ok ==> WellFormed(env, out, includes)
      ensures ok ==> Complete(env, out) && forall e :: e in Identities(env, env.interfaces) ==> e in out
    {
      var decls := env.package.decls;
      ok := ClaimDeclared(decls);
      assert decls[..|decls|] == decls;
      if !ok {
        TooManyDeclared(env);
        return;
      }
      ok := Walk(env);
      if !ok {
        return;
      }
      ghost var w, taken := State(), Taken(env, |decls|);
      WalkedKnown(env, |decls|);
      WalkedNeeds(env, |decls|);
      WalkedIsBooked(env, claimed);
      ok := Drain(env, w, taken);
      if !ok {
        return;
      }
      ghost var e := State();
      ok := EmitIdentities(env);
      IdentitiesFit(env, w, taken, e, Identities(env, env.interfaces));
      if ok {
        ClosedWith(env, w, e, Identities(env, env.interfaces));
      }
    }

    // One enum for each interface.
    method EmitIdentities(env: Env) returns (ok: bool)
      requires OnceEach(out, claimed)
      modifies this`out, this`claimed
      ensures ok <==>
                && Once(Names(old(out)) + Names(Identities(env, env.interfaces)))
                && forall e :: e in Identities(env, env.interfaces) ==> Tidy(e)
      ensures ok ==> out == old(out) + Identities(env, env.interfaces)
    {
      ghost var identities := Identities(env, env.interfaces);
      for k := 0 to |env.interfaces|
        invariant out == old(out) + identities[..k] && Fitted(old(out), identities, k, claimed)
      {
        var interface := env.interfaces[k];
        IdentityFits(old(out), identities, k, claimed);
        ok := Claim(IdentityName(env, interface));
        if !ok {
          return;
        }
        var values := IdentityRows(env, interface);
        if values.None? {
          return false;
        }
        out := out + [Enum(IdentityName(env, interface), values.value)];
      }
      AllFitted(old(out), identities, claimed);
      ok := true;
    }

    // The members of an identity enum, refused when two of them meet.
    method IdentityRows(env: Env, interface: Interface) returns (values: Option<seq<EnumValue>>)
      ensures values.Some? <==> DistinctValues(IdentityValues(env, interface.interactions))
      ensures values.Some? ==> values.value == IdentityValues(env, interface.interactions)
    {
      var xs := interface.interactions;
      var done: seq<EnumValue> := [];
      for k := 0 to |xs|
        invariant done == IdentityValues(env, xs[..k]) && DistinctValues(done)
      {
        assert xs[..k + 1][..k] == xs[..k];
        match xs[k] {
          case RetiredOrdinal(_) => assert done + [] == done;
          case Interaction(name, ordinal) =>
            var member := env.screaming(name);
            if exists v :: v in done && v.name == member {
              RepeatedIdentity(env, xs, k);
              return None;
            }
            assert forall i :: 0 <= i < |done| ==> done[i] in done;
            done := done + [EnumValue(member, ordinal)];
        }
      }
      assert xs[..|xs|] == xs;
      values := Some(done);
    }
  }

  // The name and the members of an interface's identity enum.
  function IdentityName(env: Env, interface: Interface): string {
    env.camel(interface.name) + "Ordinal"
  }

  function IdentityValues(env: Env, interactions: seq<Interaction>): seq<EnumValue> {
    if interactions == [] then []
    else
      IdentityValues(env, interactions[..|interactions| - 1]) +
      match interactions[|interactions| - 1]
      case Interaction(name, ordinal) => [EnumValue(env.screaming(name), ordinal)]
      case RetiredOrdinal(_) => []
  }

  function Identities(env: Env, interfaces: seq<Interface>): (r: seq<Emitted>)
    ensures |r| == |interfaces|
    ensures forall k :: 0 <= k < |r| ==>
              r[k] == Enum(IdentityName(env, interfaces[k]), IdentityValues(env, interfaces[k].interactions))
  {
    seq(|interfaces|, k requires 0 <= k < |interfaces| =>
      Enum(IdentityName(env, interfaces[k]), IdentityValues(env, interfaces[k].interactions)))
  }

  lemma {:induction false} IdentityPrefix(env: Env, xs: seq<Interaction>, k: nat)
    requires k <= |xs|
    ensures IdentityValues(env, xs[..k]) <= IdentityValues(env, xs)
    decreases |xs| - k
  {
    if k < |xs| {
      assert xs[..k + 1][..k] == xs[..k];
      IdentityPrefix(env, xs, k + 1);
    } else {
      assert xs[..k] == xs;
    }
  }

  lemma {:induction false} RepeatedIdentity(env: Env, xs: seq<Interaction>, k: nat)
    requires k < |xs| && xs[k].Interaction?
    requires exists v :: v in IdentityValues(env, xs[..k]) && v.name == env.screaming(xs[k].name)
    ensures !DistinctValues(IdentityValues(env, xs))
  {
    var before, all := IdentityValues(env, xs[..k]), IdentityValues(env, xs);
    var v :| v in before && v.name == env.screaming(xs[k].name);
    var i :| 0 <= i < |before| && before[i] == v;
    assert xs[..k + 1][..k] == xs[..k];
    IdentityPrefix(env, xs, k + 1);
    assert all[i].name == all[|before|].name;
  }

  // -------------------------------------------------------------------
  // What a generated schema promises.
  // -------------------------------------------------------------------

  // The package is accepted: its names are distinct, its references resolve,
  // what it induces is consistent, and the identity enums share no name with
  // any of it.
  ghost predicate Acceptable(env: Env) {
    && Once(Taken(env, |env.package.decls|))
    && Walked(env, |env.package.decls|).Some?
    && InducedAcceptable(env, Walked(env, |env.package.decls|).value.induced, Taken(env, |env.package.decls|))
    && IdentitiesApart(env, Walked(env, |env.package.decls|).value.induced, Taken(env, |env.package.decls|),
                       Identities(env, env.interfaces))
    && forall e :: e in Identities(env, env.interfaces) ==> Tidy(e)
  }

  ghost predicate IdentitiesApart(env: Env, roots: seq<Induced>, taken: multiset<string>, identities: seq<Emitted>) {
    && (forall n :: Names(identities)[n] <= 1)
    && (forall n :: n in Names(identities) ==> n !in taken)
    && (forall item :: IsInduced(env, roots, item) ==> item.name !in Names(identities))
  }

  // A type that stands for something: a builtin, a type written exactly once in
  // this schema, or a declared type of an included package.
  ghost predicate Bound(env: Env, names: multiset<string>, includes: set<string>, ty: Type) {
    match ty
    case Builtin(_) => true
    case UBytes => true
    case Local(n) => names[n] == 1
    case Foreign(p, n) => p in includes && DeclaresAbroad(env, p, n)
    case Vector(element) => !element.UBytes? && !element.Vector? && Bound(env, names, includes, element)
  }

  ghost predicate BoundIn(env: Env, names: multiset<string>, includes: set<string>, e: Emitted) {
    match e
    case Table(_, fields) => forall f :: f in fields ==> Bound(env, names, includes, f.ty)
    case Enum(_, _) => true
    case Union(_, members) => forall m :: m in members ==> Bound(env, names, includes, m.ty)
  }

  // No name is written twice, in the namespace or within one declaration, no id
  // twice within one table, every type stands for something, and every package
  // included is named.
  ghost predicate WellFormed(env: Env, out: seq<Emitted>, includes: set<string>) {
    && Once(Names(out)) && (forall e :: e in out ==> Tidy(e) && BoundIn(env, Names(out), includes, e))
    && (forall package :: package in includes ==> exists e :: e in out && UsedIn(e, package))
  }

  // Every declaration is written, and the table of everything induced.
  ghost predicate Complete(env: Env, out: seq<Emitted>)
    requires Walked(env, |env.package.decls|).Some?
  {
    && Walked(env, |env.package.decls|).value.value <= out
    && forall item :: IsInduced(env, Walked(env, |env.package.decls|).value.induced, item) ==>
         InducedFields(env, item).Some? && Table(item.name, InducedFields(env, item).value.value) in out
  }

  lemma {:induction false} TooManyDeclared(env: Env)
    requires !Once(DeclaredNames(env.package.decls))
    ensures !Once(Taken(env, |env.package.decls|))
  {
    var n :| DeclaredNames(env.package.decls)[n] > 1;
    assert Taken(env, |env.package.decls|)[n] > 1;
  }

  lemma {:induction false} DeclaredHas(decls: seq<Decl>, d: Decl)
    requires d in decls
    ensures OwnsName(d) ==> d.name in DeclaredNames(decls)
    ensures d.kind.UnionDef? ==> UnionName(d.name) in UnionNames(decls)
  {
    if decls[|decls| - 1] != d {
      assert decls == decls[..|decls| - 1] + [decls[|decls| - 1]];
      DeclaredHas(decls[..|decls| - 1], d);
    }
  }

  // What is known is bound, once every name that can be named is written.
  lemma {:induction false} KnownIsBound(env: Env, e: Effect<seq<Emitted>>, names: multiset<string>, ty: Type)
    requires Known(env, e.induced, e.includes, ty)
    requires forall n :: n in Taken(env, |env.package.decls|) || HasItem(e.induced, n) ==> names[n] == 1
    ensures Bound(env, names, e.includes, ty)
  {
    match ty
    case Vector(element) => KnownIsBound(env, e, names, element);
    case Local(n) =>
      var decls := env.package.decls;
      assert decls[..|decls|] == decls;
      if Declares(decls, n) {
        var d :| d in decls && d.name == n && OwnsName(d);
        DeclaredHas(decls, d);
      }
      if NamesUnion(decls, n) {
        var d :| d in decls && d.kind.UnionDef? && n == UnionName(d.name);
        DeclaredHas(decls, d);
      }
    case _ =>
  }

  lemma {:induction false} KnownIsBoundIn(env: Env, e: Effect<seq<Emitted>>, names: multiset<string>, x: Emitted)
    requires EmittedKnown(env, e.induced, e.includes, x)
    requires forall n :: n in Taken(env, |env.package.decls|) || HasItem(e.induced, n) ==> names[n] == 1
    ensures BoundIn(env, names, e.includes, x)
  {
    match x
    case Table(_, fields) =>
      forall f | f in fields ensures Bound(env, names, e.includes, f.ty) {
        KnownIsBound(env, e, names, f.ty);
      }
    case Enum(_, _) =>
    case Union(_, members) =>
      forall m | m in members ensures Bound(env, names, e.includes, m.ty) {
        KnownIsBound(env, e, names, m.ty);
      }
  }

  // The names written are the claimed ones, each once.
  ghost predicate Claimed(taken: multiset<string>, e: Effect<seq<Emitted>>) {
    forall n :: Names(e.value)[n] == if n in taken || HasItem(e.induced, n) then 1 else 0
  }

  lemma {:induction false} WalkedIsBooked(env: Env, claimed: set<string>)
    requires Walked(env, |env.package.decls|).Some? && Once(Taken(env, |env.package.decls|))
    requires forall n :: n in claimed <==> n in Taken(env, |env.package.decls|)
    ensures Booked(Taken(env, |env.package.decls|), Walked(env, |env.package.decls|).value.value, claimed, map[])
  {
    WalkedNames(env, |env.package.decls|);
    assert env.package.decls[..|env.package.decls|] == env.package.decls;
  }

  lemma {:induction false} ClosedWith(
    env: Env, w: Effect<seq<Emitted>>, e: Effect<seq<Emitted>>, identities: seq<Emitted>)
    requires AllNeeded(e) && Drained(env, w, e) && AllKnown(env, e) && Claimed(Taken(env, |env.package.decls|), e)
    requires Once(Names(e.value) + Names(identities)) && forall x :: x in identities ==> x.Enum? && Tidy(x)
    ensures WellFormed(env, e.value + identities, e.includes)
  {
    var out := e.value + identities;
    NamesAppend(e.value, identities);
    forall n | n in Taken(env, |env.package.decls|) || HasItem(e.induced, n) ensures Names(out)[n] == 1 {
      assert (Names(e.value) + Names(identities))[n] <= 1;
    }
    forall x | x in out ensures BoundIn(env, Names(out), e.includes, x) {
      if x in e.value { KnownIsBoundIn(env, e, Names(out), x); }
    }
    forall package | package in e.includes ensures exists x :: x in out && UsedIn(x, package) {
      IncludesAreUsed(env, w, e, package);
      var x :| x in e.value && UsedIn(x, package);
      assert x in out;
    }
  }

  // Whether the identity enums fit says whether the package is accepted.
  lemma {:induction false} IdentitiesFit(
    env: Env, w: Effect<seq<Emitted>>, taken: multiset<string>, e: Effect<seq<Emitted>>, identities: seq<Emitted>)
    requires Drained(env, w, e) && Claimed(taken, e)
    ensures Once(Names(e.value) + Names(identities)) <==> IdentitiesApart(env, w.induced, taken, identities)
  {
    if Once(Names(e.value) + Names(identities)) {
      forall n ensures Names(identities)[n] <= 1 && (n in Names(identities) ==> n !in taken && !HasItem(e.induced, n)) {
        assert (Names(e.value) + Names(identities))[n] <= 1;
      }
      forall item | IsInduced(env, w.induced, item) ensures item.name !in Names(identities) {
        assert HasItem(e.induced, item.name);
      }
    }
    if IdentitiesApart(env, w.induced, taken, identities) {
      forall n ensures (Names(e.value) + Names(identities))[n] <= 1 {
        if HasItem(e.induced, n) {
          var item :| item in e.induced && item.name == n;
          assert IsInduced(env, w.induced, item);
        }
      }
    }
  }

  // `= null` stands exactly where a default cannot: at an enum with no zero,
  // and at an optional scalar or enum.
  lemma {:induction false} NullExactly(env: Env, hint: string, ty: FieldType)
    requires FieldOf(env, hint, ty).Some?
    ensures var shape := FieldOf(env, hint, ty).value.value;
            shape.isNull <==>
              || (NamesEnum(env, ty.kind) && !HasZero(EnumNamed(env, ty.kind)))
              || (ty.optional && (NamesEnum(env, ty.kind) || (shape.ty.Builtin? && shape.ty.name != "string")))
  {
    if ty.kind.Named? {
      var decl := Resolve(env, ty.kind.reference).value.decl;
      if decl.kind.TypeDef? { assert FbsScalar(decl.kind.scalar).Builtin? || FbsScalar(decl.kind.scalar).UBytes?; }
    }
  }

  predicate NamesEnum(env: Env, kind: TypeKind) {
    kind.Named? && Resolve(env, kind.reference).Some? && Resolve(env, kind.reference).value.decl.kind.EnumDef?
  }

  function EnumNamed(env: Env, kind: TypeKind): seq<EnumValue>
    requires NamesEnum(env, kind)
  {
    Resolve(env, kind.reference).value.decl.kind.values
  }

  // The first `k` identity enums are written and their names claimed.
  ghost predicate Fitted(out: seq<Emitted>, identities: seq<Emitted>, k: nat, claimed: set<string>) {
    k <= |identities| && OnceEach(out + identities[..k], claimed) && forall i :: 0 <= i < k ==> Tidy(identities[i])
  }

  lemma {:induction false} AllFitted(out: seq<Emitted>, identities: seq<Emitted>, claimed: set<string>)
    requires Fitted(out, identities, |identities|, claimed)
    ensures out + identities[..|identities|] == out + identities
    ensures Once(Names(out) + Names(identities)) && forall e :: e in identities ==> Tidy(e)
  {
    assert identities[..|identities|] == identities;
    NamesAppend(out, identities);
  }

  lemma {:induction false} IdentityFits(out: seq<Emitted>, identities: seq<Emitted>, k: nat, claimed: set<string>)
    requires k < |identities| && Fitted(out, identities, k, claimed)
    ensures out + identities[..k + 1] == out + identities[..k] + [identities[k]]
    ensures var name := identities[k].name;
            && (name in claimed ==> !Once(Names(out) + Names(identities)))
            && (name !in claimed && Tidy(identities[k]) ==> Fitted(out, identities, k + 1, claimed + {name}))
    ensures identities[k] in identities
  {
    var before, one := identities[..k], [identities[k]];
    NamesAppend(out, before);
    NamesAppend(out + before, one);
    OneName(identities[k]);
    assert identities == before + one + identities[k + 1..];
    NamesAppend(before + one, identities[k + 1..]);
    NamesAppend(before, one);
    if identities[k].name in claimed {
      assert (Names(out) + Names(identities))[identities[k].name] >= 2;
    }
  }
}
