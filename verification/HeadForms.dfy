// The forms of a head's fields: the size and alignment the layout gives each,
// and the C declaration the header gives it.
module HeadForms {
  import opened Common
  import opened HeadLayout
  import opened CStruct

  datatype Tail = TextTail | BytesTail | ArmsTail | ArrayTail | MapTail

  // An inline head is one of the package's, of some size; a descriptor refers to
  // something in the tail.
  datatype Form =
    | BoolForm
    | IntForm(bytes: nat, signed: bool)
    | FloatForm(bytes: nat)
    | EnumForm(bytes: nat, signed: bool)
    | EnumSetForm(bytes: nat)
    | Inline(head: nat, size: nat)
    | InlineArray(element: Form, count: nat)
    | Descriptor(tail: Tail)

  predicate IsForm(f: Form) {
    match f
    case BoolForm => true
    case IntForm(bytes, _) => bytes in {1, 2, 4, 8}
    case FloatForm(bytes) => bytes in {4, 8}
    case EnumForm(bytes, _) => bytes in {1, 2, 4, 8}
    case EnumSetForm(bytes) => bytes in {1, 2, 4, 8}
    case Inline(_, size) => size % HEAD_ALIGN == 0
    case InlineArray(element, _) => IsForm(element)
    case Descriptor(_) => true
  }

  // -------------------------------------------------------------------
  // The layout's side.
  // -------------------------------------------------------------------

  function Saturated(n: nat): nat {
    if n > U32_MAX then U32_MAX else n
  }

  function ElemSize(f: Form): nat {
    match f
    case BoolForm => 1
    case IntForm(bytes, _) => bytes
    case FloatForm(bytes) => bytes
    case EnumForm(bytes, _) => bytes
    case EnumSetForm(bytes) => bytes
    case Inline(_, size) => size
    case InlineArray(element, count) => Saturated(ElemSize(element) * count)
    case Descriptor(_) => 8
  }

  function AlignOfForm(f: Form): nat {
    match f
    case Inline(_, _) => HEAD_ALIGN
    case InlineArray(element, _) => AlignOfForm(element)
    case Descriptor(_) => 4
    case _ => ElemSize(f)
  }

  // -------------------------------------------------------------------
  // The header's side.
  // -------------------------------------------------------------------

  // A fixed-width integer or float, the struct of a head, or one of the two
  // descriptors of the preamble.
  datatype CType =
    | Integer(bytes: nat, signed: bool)
    | Floating(bytes: nat)
    | Struct(head: nat, size: nat)
    | TextDescriptor
    | ArrayDescriptor

  function SizeOfType(t: CType): nat {
    match t
    case Integer(bytes, _) => bytes
    case Floating(bytes) => bytes
    case Struct(_, size) => size
    case TextDescriptor => 8
    case ArrayDescriptor => 8
  }

  // A scalar as large as it is, a struct of the head's own alignment, and the
  // two 32-bit words of a descriptor.
  function NaturalAlign(t: CType): nat {
    match t
    case Integer(bytes, _) => bytes
    case Floating(bytes) => bytes
    case Struct(_, _) => 8
    case TextDescriptor => 4
    case ArrayDescriptor => 4
  }

  // A declaration's base type and array bounds, the outermost first.
  datatype Declaration = Declaration(base: CType, dims: seq<nat>)

  function Product(dims: seq<nat>): nat {
    if dims == [] then 1 else dims[0] * Product(dims[1..])
  }

  function SizeOf(d: Declaration): nat {
    SizeOfType(d.base) * Product(d.dims)
  }

  // A head of no byte has no struct to name.
  function BaseType(f: Form): Option<CType> {
    match f
    case BoolForm => Some(Integer(1, false))
    case IntForm(bytes, signed) => Some(Integer(bytes, signed))
    case FloatForm(bytes) => Some(Floating(bytes))
    case EnumForm(bytes, signed) => Some(Integer(bytes, signed))
    case EnumSetForm(bytes) => Some(Integer(bytes, false))
    case Inline(head, size) => if size == 0 then None else Some(Struct(head, size))
    case InlineArray(element, _) => BaseType(element)
    case Descriptor(tail) => Some(if tail.ArrayTail? || tail.MapTail? then ArrayDescriptor else TextDescriptor)
  }

  function Dimensions(f: Form): seq<nat> {
    if f.InlineArray? then [f.count] + Dimensions(f.element) else []
  }

  function Declared(f: Form): Option<Declaration> {
    match BaseType(f)
    case None => None
    case Some(base) => Some(Declaration(base, Dimensions(f)))
  }

  function Element(f: Form): (r: Form)
    ensures !r.InlineArray? && BaseType(r) == BaseType(f)
  {
    if f.InlineArray? then Element(f.element) else f
  }

  // The bounds are collected from the outermost form inwards.
  method DeclareMember(f: Form) returns (member: Option<Declaration>)
    ensures member == Declared(f)
  {
    var dims: seq<nat> := [];
    var current := f;
    while current.InlineArray?
      invariant dims + Dimensions(current) == Dimensions(f) && BaseType(current) == BaseType(f)
      decreases current
    {
      dims := dims + [current.count];
      current := current.element;
    }
    assert dims + [] == dims;
    var base := BaseType(current);
    member := if base.None? then None else Some(Declaration(base.value, dims));
  }

  // -------------------------------------------------------------------
  // The two sides agree.
  // -------------------------------------------------------------------

  // A field with no member takes no byte, and a member is as large as the
  // layout has it, up to where the layout's size saturates.
  lemma {:induction false} DeclaredSize(f: Form)
    requires IsForm(f)
    ensures Declared(f).None? ==> ElemSize(f) == 0
    ensures Declared(f).Some? && !f.InlineArray? ==> SizeOf(Declared(f).value) == ElemSize(f)
    ensures Declared(f).Some? && f.InlineArray? ==> Saturated(SizeOf(Declared(f).value)) == ElemSize(f)
  {
    if f.InlineArray? {
      DeclaredSize(f.element);
      if Declared(f).Some? {
        var inner, whole := Declared(f.element).value, Declared(f).value;
        assert whole.dims[0] == f.count && whole.dims[1..] == inner.dims;
        Regroup(SizeOfType(whole.base), f.count, Product(inner.dims));
        assert SizeOf(whole) == SizeOf(inner) * f.count;
        if f.element.InlineArray? { SaturatedTwice(SizeOf(inner), f.count); }
      }
    } else {
      assert Product([]) == 1;
    }
  }

  lemma {:induction false} Regroup(a: nat, b: nat, c: nat)
    ensures a * (b * c) == a * c * b
  {
  }

  lemma {:induction false} SaturatedTwice(n: nat, count: nat)
    ensures Saturated(Saturated(n) * count) == Saturated(n * count)
  {
    if n > U32_MAX && count > 0 {
      assert n * count >= n;
      assert U32_MAX * count >= U32_MAX;
    }
  }

  lemma {:induction false} AlignOfFormIsCAlign(f: Form)
    requires IsForm(f)
    ensures AlignOfForm(f) in {1, 2, 4, 8}
    ensures Declared(f).Some? ==> AlignOfForm(f) == NaturalAlign(Declared(f).value.base)
  {
    if f.InlineArray? { AlignOfFormIsCAlign(f.element); }
  }

  // -------------------------------------------------------------------
  // Element by element.
  // -------------------------------------------------------------------

  // An object of the type holds a value of the form, which is no array: an
  // unsigned byte a boolean, an integer of its width and sign an integer or an
  // enum, an unsigned one an enum set, the head's struct a head of any byte, and
  // the descriptors what they refer to.
  predicate Represents(t: CType, f: Form) {
    match t
    case Integer(bytes, signed) =>
      f == IntForm(bytes, signed) || f == EnumForm(bytes, signed)
      || (!signed && (f == EnumSetForm(bytes) || (f == BoolForm && bytes == 1)))
    case Floating(bytes) => f == FloatForm(bytes)
    case Struct(head, size) => f == Inline(head, size) && size > 0
    case TextDescriptor => f in {Descriptor(TextTail), Descriptor(BytesTail), Descriptor(ArmsTail)}
    case ArrayDescriptor => f in {Descriptor(ArrayTail), Descriptor(MapTail)}
  }

  // The path names an element of the form, itself no array.
  predicate IsElement(f: Form, path: seq<nat>) {
    if path == [] then !f.InlineArray?
    else f.InlineArray? && path[0] < f.count && IsElement(f.element, path[1..])
  }

  function ElementAt(f: Form, path: seq<nat>): Form
    requires IsElement(f, path)
  {
    if path == [] then f else ElementAt(f.element, path[1..])
  }

  // Where the layout has an element, one element after the other.
  function PlaceInForm(f: Form, path: seq<nat>): nat
    requires IsElement(f, path)
  {
    if path == [] then 0 else path[0] * ElemSize(f.element) + PlaceInForm(f.element, path[1..])
  }

  // Where a compiler has an element of an array, the last index moving fastest.
  function PlaceInC(d: Declaration, path: seq<nat>): nat
    requires |path| == |d.dims|
    decreases |path|
  {
    if path == [] then 0
    else
      var row := Declaration(d.base, d.dims[1..]);
      path[0] * SizeOf(row) + PlaceInC(row, path[1..])
  }

  // Each element of a declared member has an index of as many places as the
  // declaration has bounds, each below its bound, and the type represents it.
  lemma {:induction false} ElementsAreDeclared(f: Form, path: seq<nat>)
    requires IsElement(f, path) && Declared(f).Some?
    ensures var d := Declared(f).value;
            && |path| == |d.dims| && (forall k :: 0 <= k < |path| ==> path[k] < d.dims[k])
            && Represents(d.base, ElementAt(f, path))
  {
    if f.InlineArray? {
      ElementsAreDeclared(f.element, path[1..]);
      var dims := Declared(f).value.dims;
      assert dims == [f.count] + Declared(f.element).value.dims;
      forall k | 0 <= k < |path| ensures path[k] < dims[k] {
        if k > 0 { assert path[k] == path[1..][k - 1] && dims[k] == dims[1..][k - 1]; }
      }
    }
  }

  // Both sides have it at one offset, unless the layout saturates.
  lemma {:induction false} ElementsAgree(f: Form, path: seq<nat>)
    requires IsForm(f) && IsElement(f, path) && Declared(f).Some?
    requires SizeOf(Declared(f).value) <= U32_MAX
    ensures |path| == |Declared(f).value.dims| && PlaceInForm(f, path) == PlaceInC(Declared(f).value, path)
  {
    ElementsAreDeclared(f, path);
    if f.InlineArray? {
      var inner, whole := Declared(f.element).value, Declared(f).value;
      assert whole.dims == [f.count] + inner.dims;
      assert whole.dims[1..] == inner.dims;
      RowSize(whole.base, f.count, inner.dims);
      ElementsAgree(f.element, path[1..]);
      DeclaredSize(f.element);
    }
  }

  lemma {:induction false} RowSize(base: CType, count: nat, dims: seq<nat>)
    ensures SizeOf(Declaration(base, [count] + dims)) == count * SizeOf(Declaration(base, dims))
    ensures count > 0 ==> SizeOf(Declaration(base, dims)) <= SizeOf(Declaration(base, [count] + dims))
  {
    assert ([count] + dims)[1..] == dims;
    Regroup(SizeOfType(base), count, Product(dims));
    var row := SizeOf(Declaration(base, dims));
    assert row * count == count * row;
    if count > 0 { assert row <= row * count; }
  }

  // What is not declared has no element, or elements of no byte.
  lemma {:induction false} UndeclaredIsEmpty(f: Form, path: seq<nat>)
    requires IsElement(f, path)
    ensures Declared(f).None? <==> ElementAt(f, path).Inline? && ElementAt(f, path).size == 0
  {
    if f.InlineArray? { UndeclaredIsEmpty(f.element, path[1..]); }
  }

  function ItemOf(f: Form): Item {
    Item(ElemSize(f), AlignOfForm(f), Declared(f).Some?)
  }

  function ItemsOf(forms: seq<Form>): (r: seq<Item>)
    ensures |r| == |forms| && forall k :: 0 <= k < |r| ==> r[k] == ItemOf(forms[k])
  {
    seq(|forms|, k requires 0 <= k < |forms| => ItemOf(forms[k]))
  }

  // Every assertion of a header: the offsets, the size and the alignment of the
  // struct, and the size of each member.
  ghost predicate HeaderHolds(forms: seq<Form>, h: Head, calign: nat -> CAlign) {
    && AssertionsHold(Members(h), calign, h.size)
    && forall k :: 0 <= k < |forms| && Declared(forms[k]).Some? ==>
       SizeOf(Declared(forms[k]).value) == ElemSize(forms[k])
  }

  // For any fields of a laid-out head, all that the header asserts holds
  // exactly when empty members come first; a member's size always does.
  lemma {:induction false} HeaderHoldsIff(forms: seq<Form>, offsets: seq<nat>, h: Head, calign: nat -> CAlign)
    requires forall k :: 0 <= k < |forms| ==> IsForm(forms[k])
    requires FirstFit(ItemsOf(forms), offsets) && IsHeadOf(ItemsOf(forms), offsets, h)
    requires CompilerChoice(ItemsOf(forms), calign)
    ensures WellFormed(ItemsOf(forms))
    ensures HeaderHolds(forms, h, calign) <==> EmptyMembersFirst(ItemsOf(forms))
  {
    var items := ItemsOf(forms);
    forall k | 0 <= k < |forms|
      ensures items[k].align in {1, 2, 4, 8} && (!items[k].emitted ==> items[k].size == 0)
      ensures Declared(forms[k]).Some? ==> SizeOf(Declared(forms[k]).value) == ElemSize(forms[k])
    {
      AlignOfFormIsCAlign(forms[k]);
      DeclaredSize(forms[k]);
      assert offsets[k] + items[k].size <= h.size;
    }
    CompilerReproducesLayout(items, offsets, h, calign);
  }
}
