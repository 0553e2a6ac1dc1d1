// Which declarations get a `Default`, and the body each one gets.
module Defaults {
  import opened Common
  import opened TypeModel
  import opened GuardedTraversal

  // What a `Default` body is built from. A call names the type whose own
  // `Default` it reaches.
  datatype Target = ToDecl(index: nat) | ToTuple(tuple: Tuple) | ToForeign(path: string)

  datatype Expr =
    | NoneOf
    | SomeOf(inner: Expr)
    | Lit(backing: Backing, text: string)
    | Newtype(decl: nat, backing: Backing, text: string)
    | Variant(decl: nat, member: Member)
    | EmptyBits(decl: nat)
    | StructInit(fields: seq<FieldInit>)
    | FirstArm(decl: nat, inner: Expr)
    | Call(target: Target)
    | EmptyFixed
    | EmptyVec
    | FromFn(element: Expr)
    | Collect(count: nat, element: Expr)
    | CollectEntries(count: nat, key: Expr, val: Expr)

  datatype FieldInit = FieldInit(name: string, init: Expr)

  // What is known about the slot a value fills. A struct field records the
  // front end's one-level flag; a tuple field or an element has none.
  datatype Known = Known(text: Option<string>, declared: Option<DeclaredInit>, flag: Option<bool>)

  const UNKNOWN := Known(None, None, None)

  function FieldKnown(f: Field): Known {
    Known(
      if f.init.Some? then f.init.value.text else None,
      f.declaredInit,
      Some(f.init.Some? && f.init.value.oneLevel))
  }

  function ElementKnown(k: Known): Known {
    Known(None, None, k.flag)
  }

  // -------------------------------------------------------------------
  // The body, as a function of the declarations being expanded.
  // -------------------------------------------------------------------

  function OrEmpty(text: Option<string>, empty: string): string {
    if text.Some? then text.value else empty
  }

  // The text of a scalar's init: a number must have one.
  function ScalarText(b: Backing, text: Option<string>): Option<string> {
    match b
    case FloatBacking | IntegerBacking => text
    case BooleanBacking => Some(OrEmpty(text, "false"))
    case StringBacking | BytesBacking => Some(OrEmpty(text, ""))
  }

  function ScalarDeclText(d: Decl): Option<string>
    requires d.kind.ScalarDecl?
  {
    if d.init.Some? && d.init.value.derivable then ScalarText(d.kind.scalar, d.init.value.text) else None
  }

  function DeclDefault(m: Model, i: nat, stack: set<string>): Option<Expr>
    requires i < |m.decls|
    decreases |m.Names() - stack|, 3
  {
    var d := m.decls[i];
    match d.kind
    case ScalarDecl(b) =>
      (match ScalarDeclText(d)
       case Some(text) => Some(Newtype(i, b, text))
       case None => None)
    case StructDecl(slots) =>
      (match SlotsDefault(m, slots, stack)
       case Some(fields) => Some(StructInit(fields))
       case None => None)
    case EnumDecl(members, initMember) =>
      if initMember.Some? && initMember.value < |members| then Some(Variant(i, members[initMember.value])) else None
    case EnumSetDecl => Some(EmptyBits(i))
    case UnionDecl(arms) =>
      if |arms| > 0 && arms[0].reference.Some? && !arms[0].reference.value.Foreign? then
        match SamePackageDefault(m, arms[0].reference.value, stack)
        case Some(e) => Some(FirstArm(i, e))
        case None => None
      else None
    case ConstantDecl | UnsetDecl => None
  }

  function SlotsDefault(m: Model, slots: seq<Slot>, stack: set<string>): Option<seq<FieldInit>>
    decreases |m.Names() - stack|, 2, slots
  {
    if slots == [] then Some([])
    else
      match slots[0]
      case VacantSlot => SlotsDefault(m, slots[1..], stack)
      case FieldSlot(f) =>
        var first := PositionDefault(m, f.typ, FieldKnown(f), stack);
        var rest := SlotsDefault(m, slots[1..], stack);
        if first.Some? && rest.Some? then Some([FieldInit(f.name, first.value)] + rest.value) else None
  }

  function TupleDefault(m: Model, fields: seq<TupleField>, stack: set<string>): Option<seq<FieldInit>>
    decreases |m.Names() - stack|, 1, fields
  {
    if fields == [] then Some([])
    else
      var first := PositionDefault(m, fields[0].typ, UNKNOWN, stack);
      var rest := TupleDefault(m, fields[1..], stack);
      if first.Some? && rest.Some? then Some([FieldInit(fields[0].name, first.value)] + rest.value) else None
  }

  function PositionDefault(m: Model, t: Option<Type>, k: Known, stack: set<string>): Option<Expr>
    decreases |m.Names() - stack|, 1, t
  {
    if t.None? then None
    else if t.value.optional then
      if k.declared.None? then Some(NoneOf)
      else
        match KindDefault(m, t.value.kind, k, stack)
        case Some(e) => Some(SomeOf(e))
        case None => None
    else KindDefault(m, t.value.kind, k, stack)
  }

  function KindDefault(m: Model, kind: Kind, k: Known, stack: set<string>): Option<Expr>
    decreases |m.Names() - stack|, 1, kind
  {
    match kind
    case Named(r) => NamedDefault(m, r, k, stack)
    case PrimitiveKind(p) => PrimitiveDefault(p, k)
    case Inline(b) =>
      if k.flag == Some(false) then None
      else
        (match ScalarText(b, k.text)
         case Some(text) => Some(Lit(b, text))
         case None => None)
    case TupleKind(None) => None
    case TupleKind(Some(tuple)) =>
      if TupleDefault(m, tuple.fields, stack).Some? then Some(Call(ToTuple(tuple))) else None
    case ArrayKind(element, amin, amax) =>
      if element.None? then None
      else if amin == amax then
        if amax == 0 then Some(EmptyFixed)
        else
          match PositionDefault(m, element, ElementKnown(k), stack)
          case Some(e) => Some(FromFn(e))
          case None => None
      else if amin == 0 then Some(EmptyVec)
      else
        (match PositionDefault(m, element, ElementKnown(k), stack)
         case Some(e) => Some(Collect(amin, e))
         case None => None)
    case MapKind(key, val, mmin, _) =>
      if mmin > 1 then None
      else if mmin == 0 then Some(EmptyVec)
      else
        var ke := PositionDefault(m, key, ElementKnown(k), stack);
        var ve := PositionDefault(m, val, ElementKnown(k), stack);
        if ke.Some? && ve.Some? then Some(CollectEntries(mmin, ke.value, ve.value)) else None
    case StreamKind | UnsetKind => None
  }

  function PrimitiveDefault(p: Primitive, k: Known): Option<Expr> {
    match p
    case Integer => Some(Lit(IntegerBacking, OrEmpty(k.text, "0")))
    case Float => Some(Lit(FloatBacking, OrEmpty(k.text, "0")))
    case Boolean => Some(Lit(BooleanBacking, OrEmpty(k.text, "false")))
    case String => if k.flag != Some(false) then Some(Lit(StringBacking, "")) else None
    case Bytes => if k.flag != Some(false) then Some(Lit(BytesBacking, "")) else None
    case Unspecified => None
  }

  function FindMember(members: seq<Member>, number: int): (r: Option<nat>)
    ensures r.Some? ==> r.value < |members| && members[r.value].number == number
    ensures r.None? ==> forall k :: 0 <= k < |members| ==> members[k].number != number
  {
    if members == [] then None
    else if members[0].number == number then Some(0)
    else
      match FindMember(members[1..], number)
      case Some(k) => Some(k + 1)
      case None => assert forall k :: 1 <= k < |members| ==> members[k] == members[1..][k - 1]; None
  }

  function NamedDefault(m: Model, r: TypeRef, k: Known, stack: set<string>): Option<Expr>
    decreases |m.Names() - stack|, 0, 1
  {
    if r.Foreign? then
      // The remote backing is not known here: a declared init cannot be
      // wrapped, and without one the recorded flag is all there is.
      if k.declared.Some? then None
      else if k.flag == Some(true) then Some(Call(ToForeign(r.path)))
      else None
    else
      match m.Lookup(r)
      case None => None
      case Some(j) =>
        var d := m.decls[j];
        match d.kind
        case ScalarDecl(b) =>
          if k.declared.Some? then
            (match ScalarText(b, Some(k.declared.value.text))
             case Some(text) => Some(Newtype(j, b, text))
             case None => None)
          else if ScalarDeclText(d).Some? then Some(Call(ToDecl(j)))
          else None
        case EnumDecl(members, _) =>
          if k.declared.Some? then
            if k.declared.value.asInteger.None? then None
            else
              match FindMember(members, k.declared.value.asInteger.value)
              case Some(at) => Some(Variant(j, members[at]))
              case None => None
          else SamePackageDefault(m, r, stack)
        case _ => SamePackageDefault(m, r, stack)
  }

  function SamePackageDefault(m: Model, r: TypeRef, stack: set<string>): Option<Expr>
    decreases |m.Names() - stack|, 0, 0
  {
    match m.Lookup(r)
    case None => None
    case Some(j) =>
      var name := m.decls[j].name;
      if name in stack then None else
      EnteringShrinks(m.Names(), stack, name);
      if DeclDefault(m, j, stack + {name}).Some? then Some(Call(ToDecl(j))) else None
  }

  // -------------------------------------------------------------------
  // The derivation as it runs: the stack of declarations being expanded is
  // entered and left around each one.
  // -------------------------------------------------------------------

  method BuildDecl(m: Model, i: nat, visiting: PathSet) returns (r: Option<Expr>)
    requires i < |m.decls|
    modifies visiting
    ensures r == DeclDefault(m, i, old(visiting.names))
    ensures visiting.names == old(visiting.names)
    decreases |m.Names() - visiting.names|, 3
  {
    var d := m.decls[i];
    r := None;
    match d.kind {
      case ScalarDecl(b) =>
        var text := ScalarDeclText(d);
        if text.Some? { r := Some(Newtype(i, b, text.value)); }
      case StructDecl(slots) =>
        var fields := BuildSlots(m, slots, visiting);
        if fields.Some? { r := Some(StructInit(fields.value)); }
      case EnumDecl(members, initMember) =>
        if initMember.Some? && initMember.value < |members| { r := Some(Variant(i, members[initMember.value])); }
      case EnumSetDecl => r := Some(EmptyBits(i));
      case UnionDecl(arms) =>
        if |arms| > 0 && arms[0].reference.Some? && !arms[0].reference.value.Foreign? {
          var e := BuildSamePackage(m, arms[0].reference.value, visiting);
          if e.Some? { r := Some(FirstArm(i, e.value)); }
        }
      case ConstantDecl =>
      case UnsetDecl =>
    }
  }

  // The inits built so far, before those of the slots that remain.
  function Continue(inits: seq<FieldInit>, rest: Option<seq<FieldInit>>): Option<seq<FieldInit>> {
    if rest.Some? then Some(inits + rest.value) else None
  }

  lemma {:induction false} ContinueFromNothing(rest: Option<seq<FieldInit>>)
    ensures Continue([], rest) == rest
  {
    if rest.Some? { assert [] + rest.value == rest.value; }
  }

  method BuildSlots(m: Model, slots: seq<Slot>, visiting: PathSet) returns (r: Option<seq<FieldInit>>)
    modifies visiting
    ensures r == SlotsDefault(m, slots, old(visiting.names))
    ensures visiting.names == old(visiting.names)
    decreases |m.Names() - visiting.names|, 2, slots
  {
    ghost var stack := visiting.names;
    var inits: seq<FieldInit> := [];
    ContinueFromNothing(SlotsDefault(m, slots, stack));
    assert slots[0..] == slots;
    for k := 0 to |slots|
      invariant visiting.names == stack
      invariant SlotsDefault(m, slots, stack) == Continue(inits, SlotsDefault(m, slots[k..], stack))
    {
      assert slots[k..][0] == slots[k] && slots[k..][1..] == slots[k + 1..];
      if slots[k].FieldSlot? {
        var f := slots[k].field;
        var e := BuildPosition(m, f.typ, FieldKnown(f), visiting);
        if e.None? {
          return None;
        }
        ghost var rest := SlotsDefault(m, slots[k + 1..], stack);
        if rest.Some? {
          assert inits + ([FieldInit(f.name, e.value)] + rest.value) ==
                 inits + [FieldInit(f.name, e.value)] + rest.value;
        }
        inits := inits + [FieldInit(f.name, e.value)];
      }
    }
    assert inits + [] == inits;
    r := Some(inits);
  }

  method BuildTuple(m: Model, fields: seq<TupleField>, visiting: PathSet) returns (r: Option<seq<FieldInit>>)
    modifies visiting
    ensures r == TupleDefault(m, fields, old(visiting.names))
    ensures visiting.names == old(visiting.names)
    decreases |m.Names() - visiting.names|, 1, fields
  {
    ghost var stack := visiting.names;
    var inits: seq<FieldInit> := [];
    ContinueFromNothing(TupleDefault(m, fields, stack));
    assert fields[0..] == fields;
    for k := 0 to |fields|
      invariant visiting.names == stack
      invariant TupleDefault(m, fields, stack) == Continue(inits, TupleDefault(m, fields[k..], stack))
    {
      assert fields[k..][0] == fields[k] && fields[k..][1..] == fields[k + 1..];
      var e := BuildPosition(m, fields[k].typ, UNKNOWN, visiting);
      if e.None? {
        return None;
      }
      ghost var rest := TupleDefault(m, fields[k + 1..], stack);
      var init := FieldInit(fields[k].name, e.value);
      if rest.Some? {
        assert inits + ([init] + rest.value) == inits + [init] + rest.value;
      }
      inits := inits + [init];
    }
    assert inits + [] == inits;
    r := Some(inits);
  }

  method BuildPosition(m: Model, t: Option<Type>, k: Known, visiting: PathSet) returns (r: Option<Expr>)
    modifies visiting
    ensures r == PositionDefault(m, t, k, old(visiting.names))
    ensures visiting.names == old(visiting.names)
    decreases |m.Names() - visiting.names|, 1, t
  {
    if t.None? {
      return None;
    }
    if t.value.optional {
      if k.declared.None? {
        return Some(NoneOf);
      }
      var e := BuildKind(m, t.value.kind, k, visiting);
      return if e.Some? then Some(SomeOf(e.value)) else None;
    }
    r := BuildKind(m, t.value.kind, k, visiting);
  }

  method BuildKind(m: Model, kind: Kind, k: Known, visiting: PathSet) returns (r: Option<Expr>)
    modifies visiting
    ensures r == KindDefault(m, kind, k, old(visiting.names))
    ensures visiting.names == old(visiting.names)
    decreases |m.Names() - visiting.names|, 1, kind
  {
    r := None;
    match kind {
      case Named(reference) => r := BuildNamed(m, reference, k, visiting);
      case PrimitiveKind(p) => r := PrimitiveDefault(p, k);
      case Inline(b) =>
        var text := ScalarText(b, k.text);
        if k.flag != Some(false) && text.Some? { r := Some(Lit(b, text.value)); }
      case TupleKind(tuple) =>
        if tuple.Some? {
          var fields := BuildTuple(m, tuple.value.fields, visiting);
          if fields.Some? { r := Some(Call(ToTuple(tuple.value))); }
        }
      case ArrayKind(element, amin, amax) =>
        if element.None? { return None; }
        if amin == amax && amax == 0 { return Some(EmptyFixed); }
        if amin != amax && amin == 0 { return Some(EmptyVec); }
        var e := BuildPosition(m, element, ElementKnown(k), visiting);
        if e.Some? { r := Some(if amin == amax then FromFn(e.value) else Collect(amin, e.value)); }
      case MapKind(key, val, mmin, _) =>
        if mmin > 1 { return None; }
        if mmin == 0 { return Some(EmptyVec); }
        var ke := BuildPosition(m, key, ElementKnown(k), visiting);
        if ke.None? { return None; }
        var ve := BuildPosition(m, val, ElementKnown(k), visiting);
        if ve.Some? { r := Some(CollectEntries(mmin, ke.value, ve.value)); }
      case StreamKind =>
      case UnsetKind =>
    }
  }

  method BuildNamed(m: Model, reference: TypeRef, k: Known, visiting: PathSet) returns (r: Option<Expr>)
    modifies visiting
    ensures r == NamedDefault(m, reference, k, old(visiting.names))
    ensures visiting.names == old(visiting.names)
    decreases |m.Names() - visiting.names|, 0, 1
  {
    r := None;
    if reference.Foreign? {
      if k.declared.None? && k.flag == Some(true) { r := Some(Call(ToForeign(reference.path))); }
      return;
    }
    var found := m.Lookup(reference);
    if found.None? {
      return;
    }
    var j := found.value;
    var d := m.decls[j];
    if d.kind.ScalarDecl? {
      if k.declared.Some? {
        var text := ScalarText(d.kind.scalar, Some(k.declared.value.text));
        if text.Some? { r := Some(Newtype(j, d.kind.scalar, text.value)); }
      } else if ScalarDeclText(d).Some? {
        r := Some(Call(ToDecl(j)));
      }
    } else if d.kind.EnumDecl? && k.declared.Some? {
      if k.declared.value.asInteger.Some? {
        var at := FindMember(d.kind.members, k.declared.value.asInteger.value);
        if at.Some? { r := Some(Variant(j, d.kind.members[at.value])); }
      }
    } else {
      r := BuildSamePackage(m, reference, visiting);
    }
  }

  method BuildSamePackage(m: Model, reference: TypeRef, visiting: PathSet) returns (r: Option<Expr>)
    modifies visiting
    ensures r == SamePackageDefault(m, reference, old(visiting.names))
    ensures visiting.names == old(visiting.names)
    decreases |m.Names() - visiting.names|, 0, 0
  {
    r := None;
    var found := m.Lookup(reference);
    if found.None? {
      return;
    }
    var j := found.value;
    var name := m.decls[j].name;
    var entered := visiting.Insert(name);
    if !entered {
      return;
    }
    EnteringShrinks(m.Names(), old(visiting.names), name);
    var body := BuildDecl(m, j, visiting);
    visiting.Remove(name);
    if body.Some? { r := Some(Call(ToDecl(j))); }
  }

  // -------------------------------------------------------------------
  // The leaf-recursion rule, one step at a time.
  // -------------------------------------------------------------------

  predicate PositionOk(m: Model, t: Option<Type>, k: Known, S: set<nat>)
    decreases t
  {
    t.Some? && ((t.value.optional && k.declared.None?) || KindOk(m, t.value.kind, k, S))
  }

  predicate KindOk(m: Model, kind: Kind, k: Known, S: set<nat>)
    decreases kind
  {
    match kind
    case Named(r) => NamedOk(m, r, k, S)
    case PrimitiveKind(p) =>
      p in {Integer, Float, Boolean} || (p in {String, Bytes} && k.flag != Some(false))
    case Inline(b) => k.flag != Some(false) && (b in {FloatBacking, IntegerBacking} ==> k.text.Some?)
    case TupleKind(tuple) => tuple.Some? && TupleOk(m, tuple.value.fields, S)
    case ArrayKind(element, amin, _) =>
      element.Some? && (amin == 0 || PositionOk(m, element, Known(None, None, k.flag), S))
    case MapKind(key, val, mmin, _) =>
      mmin == 0 ||
      (mmin == 1 && PositionOk(m, key, Known(None, None, k.flag), S) &&
          PositionOk(m, val, Known(None, None, k.flag), S))
    case StreamKind | UnsetKind => false
  }

  predicate TupleOk(m: Model, fields: seq<TupleField>, S: set<nat>)
    decreases fields
  {
    forall j :: 0 <= j < |fields| ==> PositionOk(m, fields[j].typ, Known(None, None, None), S)
  }

  predicate NamedOk(m: Model, r: TypeRef, k: Known, S: set<nat>) {
    if r.Foreign? then k.declared.None? && k.flag == Some(true)
    else
      r.Local? && r.index < |m.decls| &&
      var j := r.index;
      match m.decls[j].kind
      case ScalarDecl(_) => k.declared.Some? || ScalarOk(m.decls[j])
      case EnumDecl(members, _) =>
        if k.declared.Some? then
          k.declared.value.asInteger.Some? &&
          exists a :: 0 <= a < |members| && members[a].number == k.declared.value.asInteger.value
        else j in S
      case _ => j in S
  }

  // The init of a scalar is derivable, and a number's has a text.
  predicate ScalarOk(d: Decl)
    requires d.kind.ScalarDecl?
  {
    d.init.Some? && d.init.value.derivable &&
    (d.kind.scalar in {FloatBacking, IntegerBacking} ==> d.init.value.text.Some?)
  }

  // A field's position, given the text and the flag of its init, an absent init
  // having the flag down, and the declared init.
  predicate FieldOk(m: Model, f: Field, S: set<nat>) {
    match f.init
    case Some(init) => PositionOk(m, f.typ, Known(init.text, f.declaredInit, Some(init.oneLevel)), S)
    case None => PositionOk(m, f.typ, Known(None, f.declaredInit, Some(false)), S)
  }

  predicate DeclOk(m: Model, i: nat, S: set<nat>)
    requires i < |m.decls|
  {
    match m.decls[i].kind
    case ScalarDecl(_) => ScalarOk(m.decls[i])
    case StructDecl(slots) => forall k :: 0 <= k < |slots| && slots[k].FieldSlot? ==> FieldOk(m, slots[k].field, S)
    case EnumDecl(members, initMember) => initMember.Some? && initMember.value < |members|
    case EnumSetDecl => true
    case UnionDecl(arms) =>
      |arms| > 0 && arms[0].reference.Some? &&
      var r := arms[0].reference.value;
      r.Local? && r.index < |m.decls| && r.index in S
    case ConstantDecl | UnsetDecl => false
  }

  ghost function Rule(m: Model): (nat, set<nat>) -> bool {
    (i: nat, S: set<nat>) => i < |m.decls| && DeclOk(m, i, S)
  }

  // The declarations a reference may reach from a given stack.
  ghost function Reachable(m: Model, stack: set<string>): set<nat> {
    set i: nat | i < |m.decls| && SamePackageDefault(m, Local(i), stack).Some?
  }

  ghost function Answer(m: Model): set<string> -> set<nat> {
    stack => Reachable(m, stack)
  }

  // The declarations the backend writes a `Default` for.
  ghost function Emitted(m: Model): set<nat> {
    set i: nat | i < |m.decls| && DeclDefault(m, i, {}).Some?
  }

  lemma {:induction false} PositionAgrees(m: Model, t: Option<Type>, k: Known, stack: set<string>)
    ensures PositionDefault(m, t, k, stack).Some? == PositionOk(m, t, k, Reachable(m, stack))
    decreases t
  {
    if t.Some? { KindAgrees(m, t.value.kind, k, stack); }
  }

  lemma {:induction false} KindAgrees(m: Model, kind: Kind, k: Known, stack: set<string>)
    ensures KindDefault(m, kind, k, stack).Some? == KindOk(m, kind, k, Reachable(m, stack))
    decreases kind
  {
    match kind {
      case TupleKind(tuple) => if tuple.Some? { TupleAgrees(m, tuple.value.fields, stack); }
      case ArrayKind(element, _, _) => PositionAgrees(m, element, ElementKnown(k), stack);
      case MapKind(key, val, _, _) =>
        PositionAgrees(m, key, ElementKnown(k), stack);
        PositionAgrees(m, val, ElementKnown(k), stack);
      case _ =>
    }
  }

  lemma {:induction false} TupleAgrees(m: Model, fields: seq<TupleField>, stack: set<string>)
    ensures TupleDefault(m, fields, stack).Some? == TupleOk(m, fields, Reachable(m, stack))
    decreases fields
  {
    if fields != [] {
      PositionAgrees(m, fields[0].typ, UNKNOWN, stack);
      TupleAgrees(m, fields[1..], stack);
      assert forall j :: 1 <= j < |fields| ==> fields[j] == fields[1..][j - 1];
    }
  }

  lemma {:induction false} SlotsAgree(m: Model, slots: seq<Slot>, stack: set<string>)
    ensures SlotsDefault(m, slots, stack).Some? <==>
            forall k :: 0 <= k < |slots| && slots[k].FieldSlot? ==>
              FieldOk(m, slots[k].field, Reachable(m, stack))
  {
    if slots != [] {
      if slots[0].FieldSlot? { PositionAgrees(m, slots[0].field.typ, FieldKnown(slots[0].field), stack); }
      SlotsAgree(m, slots[1..], stack);
      assert forall j :: 1 <= j < |slots| ==> slots[j] == slots[1..][j - 1];
    }
  }

  lemma {:induction false} DeclAgrees(m: Model, i: nat, stack: set<string>)
    requires i < |m.decls|
    ensures DeclDefault(m, i, stack).Some? == DeclOk(m, i, Reachable(m, stack))
  {
    if m.decls[i].kind.StructDecl? { SlotsAgree(m, m.decls[i].kind.slots, stack); }
  }

  lemma {:induction false} PositionMonotone(m: Model, t: Option<Type>, k: Known, S: set<nat>, T: set<nat>)
    requires S <= T && PositionOk(m, t, k, S)
    ensures PositionOk(m, t, k, T)
    decreases t
  {
    if KindOk(m, t.value.kind, k, S) { KindMonotone(m, t.value.kind, k, S, T); }
  }

  lemma {:induction false} KindMonotone(m: Model, kind: Kind, k: Known, S: set<nat>, T: set<nat>)
    requires S <= T && KindOk(m, kind, k, S)
    ensures KindOk(m, kind, k, T)
    decreases kind
  {
    match kind {
      case TupleKind(tuple) =>
        var fields := tuple.value.fields;
        forall j | 0 <= j < |fields| ensures PositionOk(m, fields[j].typ, UNKNOWN, T) {
          PositionMonotone(m, fields[j].typ, UNKNOWN, S, T);
        }
      case ArrayKind(element, amin, _) => if amin != 0 { PositionMonotone(m, element, ElementKnown(k), S, T); }
      case MapKind(key, val, mmin, _) =>
        if mmin != 0 {
          PositionMonotone(m, key, ElementKnown(k), S, T);
          PositionMonotone(m, val, ElementKnown(k), S, T);
        }
      case _ =>
    }
  }

  lemma {:induction false} RuleIsMonotone(m: Model)
    ensures Monotone(Rule(m))
  {
    var rule := Rule(m);
    forall i: nat, S, T | S <= T && rule(i, S) ensures rule(i, T) {
      if m.decls[i].kind.StructDecl? {
        var slots := m.decls[i].kind.slots;
        forall k | 0 <= k < |slots| && slots[k].FieldSlot?
          ensures FieldOk(m, slots[k].field, T)
        {
          PositionMonotone(m, slots[k].field.typ, FieldKnown(slots[k].field), S, T);
        }
      }
    }
  }

  lemma {:induction false} DefaultsTraverse(m: Model)
    ensures Traverses(m.NameList(), Rule(m), Answer(m))
  {
    forall stack, i: nat ensures Level(m.NameList(), Rule(m), Answer(m), stack, i) {
      if i < |m.decls| && m.decls[i].name !in stack {
        DeclAgrees(m, i, stack + {m.decls[i].name});
      }
    }
  }

  lemma {:induction false} EmittedIsDerivable(m: Model)
    requires m.UniqueNames()
    ensures Emitted(m) == Derivable(|m.decls|, Rule(m), |m.Names()|)
  {
    DefaultIsLeastFixedPoint(m);
  }

  // A declaration gets a `Default` exactly when it is in the least fixed point
  // of the leaf-recursion rule.
  lemma {:induction false} DefaultIsLeastFixedPoint(m: Model)
    requires m.UniqueNames()
    ensures Emitted(m) == Derivable(|m.decls|, Rule(m), |m.Names()|)
    ensures Emitted(m) == Reachable(m, {})
    ensures Step(|m.decls|, Rule(m), Emitted(m)) == Emitted(m)
    ensures forall S :: Step(|m.decls|, Rule(m), S) <= S ==> Emitted(m) <= S
  {
    RuleIsMonotone(m);
    DefaultsTraverse(m);
    NamesAgree(m);
    AnswerIsLeastFixedPoint(m.NameList(), Rule(m), Answer(m));
    var R := Reachable(m, {});
    assert Answer(m)({}) == R;
    forall i: nat | i < |m.decls| ensures i in Emitted(m) <==> i in R {
      DeclAgrees(m, i, {});
      assert i in Step(|m.decls|, Rule(m), R) <==> DeclOk(m, i, R);
    }
  }
}
