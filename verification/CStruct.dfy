// The C struct a header writes for a head, laid out by the struct rules of the
// C standard (section 6.7.2.1 of ISO/IEC 9899:2018): each member at the next
// multiple of its alignment, the whole rounded up to the struct's. The standard
// has no member of no byte, an array bound being greater than zero; such a
// member is placed as compilers that allow it place it, by the same rule.
module CStruct {
  import opened Common
  import opened StableSort
  import opened HeadLayout

  datatype Member = FieldMember(placement: Placement) | PadMember(pad: Pad)
  {
    function Offset(): nat { if FieldMember? then placement.offset else pad.offset }

    function Size(): nat { if FieldMember? then placement.size else pad.size }
  }

  const BY_MEMBER_OFFSET: (Member, Member) -> bool := (m: Member, n: Member) => m.Offset() < n.Offset()

  type CAlign = n: nat | n in {1, 2, 4, 8} witness 1

  // The alignment a compiler gives each field, by its place in the
  // declaration: any divisor of the natural alignment will do. A pad is an
  // array of bytes.
  ghost predicate CompilerChoice(items: seq<Item>, calign: nat -> CAlign) {
    forall k :: 0 <= k < |items| ==> items[k].align % calign(k) == 0
  }

  function AlignOf(m: Member, calign: nat -> CAlign): CAlign {
    if m.FieldMember? then calign(m.placement.index) else 1
  }

  // -------------------------------------------------------------------
  // The members a header writes: the fields that take a byte and the pads,
  // sorted by offset.
  // -------------------------------------------------------------------

  function FieldMembers(fields: seq<Placement>): seq<Member> {
    if fields == [] then []
    else FieldItself(fields[0]) + FieldMembers(fields[1..])
  }

  function FieldItself(f: Placement): seq<Member> {
    if f.emitted then [FieldMember(f)] else []
  }

  function PadMembers(pads: seq<Pad>): seq<Member> {
    if pads == [] then [] else [PadMember(pads[0])] + PadMembers(pads[1..])
  }

  function Members(h: Head): seq<Member> {
    Sort(BY_MEMBER_OFFSET, FieldMembers(h.fields) + PadMembers(h.pads))
  }

  method RenderMembers(h: Head) returns (members: seq<Member>)
    ensures members == Members(h)
  {
    members := [];
    for k := 0 to |h.fields|
      invariant members + FieldMembers(h.fields[k..]) == FieldMembers(h.fields)
    {
      assert h.fields[k..][0] == h.fields[k] && h.fields[k..][1..] == h.fields[k + 1..];
      if h.fields[k].emitted {
        assert members + ([FieldMember(h.fields[k])] + FieldMembers(h.fields[k + 1..])) ==
               members + [FieldMember(h.fields[k])] + FieldMembers(h.fields[k + 1..]);
        members := members + [FieldMember(h.fields[k])];
      } else {
        assert [] + FieldMembers(h.fields[k + 1..]) == FieldMembers(h.fields[k + 1..]);
      }
    }
    assert members + [] == members;
    ghost var fields := members;
    for k := 0 to |h.pads|
      invariant members + PadMembers(h.pads[k..]) == fields + PadMembers(h.pads)
    {
      assert h.pads[k..][0] == h.pads[k] && h.pads[k..][1..] == h.pads[k + 1..];
      assert members + ([PadMember(h.pads[k])] + PadMembers(h.pads[k + 1..])) ==
             members + [PadMember(h.pads[k])] + PadMembers(h.pads[k + 1..]);
      members := members + [PadMember(h.pads[k])];
    }
    assert members + [] == members;
    members := Sort(BY_MEMBER_OFFSET, members);
  }

  // -------------------------------------------------------------------
  // The compiler's layout against the offsets the header asserts.
  // -------------------------------------------------------------------

  // The first multiple of an alignment at or after `x`.
  function AlignUp(x: nat, align: CAlign): nat {
    if align == 1 then x
    else if align == 2 then x + x % 2
    else if align == 4 then x + (4 - x % 4) % 4
    else x + (8 - x % 8) % 8
  }

  // Every member lands on its recorded offset.
  ghost predicate OffsetsAgree(members: seq<Member>, calign: nat -> CAlign, cursor: nat) {
    members == [] ||
    (AlignUp(cursor, AlignOf(members[0], calign)) == members[0].Offset() &&
     OffsetsAgree(members[1..], calign, members[0].Offset() + members[0].Size()))
  }

  // Where the last member ends, the members being at their recorded offsets.
  ghost function EndOf(members: seq<Member>, cursor: nat): nat {
    if members == [] then cursor else EndOf(members[1..], members[0].Offset() + members[0].Size())
  }

  // The struct's alignment: its strictest member's, `_Alignas(8)` standing on
  // the first.
  function StructAlign(members: seq<Member>, calign: nat -> CAlign): CAlign {
    if members == [] then 1 else Stricter(HEAD_ALIGN, Strictest(members, calign))
  }

  function Strictest(members: seq<Member>, calign: nat -> CAlign): CAlign {
    if members == [] then 1 else Stricter(AlignOf(members[0], calign), Strictest(members[1..], calign))
  }

  function Stricter(a: CAlign, b: CAlign): CAlign {
    if a < b then b else a
  }

  // `offsetof`, `sizeof` and `_Alignof` as the header asserts them. A head of no
  // byte has no struct and no assertion.
  ghost predicate AssertionsHold(members: seq<Member>, calign: nat -> CAlign, size: nat) {
    size == 0 ||
    (members != [] && OffsetsAgree(members, calign, 0) && StructAlign(members, calign) == HEAD_ALIGN
     && AlignUp(EndOf(members, 0), StructAlign(members, calign)) == size)
  }

  // The fields with the gaps filled in as they are met.
  ghost function Tiled(fields: seq<Placement>, cursor: nat, size: nat): seq<Member> {
    if fields == [] then (if size > cursor then [PadMember(Pad(cursor, size - cursor))] else [])
    else
      PadMembers(Gap(fields[0], cursor)) +
      (FieldItself(fields[0]) + Tiled(fields[1..], Max(cursor, fields[0].offset + fields[0].size), size))
  }

  lemma {:induction false} PadMembersConcat(a: seq<Pad>, b: seq<Pad>)
    ensures PadMembers(a + b) == PadMembers(a) + PadMembers(b)
  {
    if a == [] {
      assert a + b == b;
    } else {
      PadMembersConcat(a[1..], b);
      assert (a + b)[0] == a[0] && (a + b)[1..] == a[1..] + b;
      Associates([PadMember(a[0])], PadMembers(a[1..]), PadMembers(b));
    }
  }

  // Sorting the fields with the pads behind them puts each pad in its gap.
  // `before` holds the pads of the gaps already passed.
  lemma {:induction false} SortTiles(fields: seq<Placement>, cursor: nat, size: nat, before: seq<Member>)
    requires Sorted(BY_OFFSET, fields) && PadsPassed(before, fields, cursor)
    ensures Sort(BY_MEMBER_OFFSET, FieldMembers(fields) + (before + PadMembers(PadsFrom(fields, cursor, size)))) ==
            before + Tiled(fields, cursor, size)
    decreases |fields|
  {
    if fields == [] {
      SortTrailing(cursor, size, before);
    } else {
      var next := Max(cursor, fields[0].offset + fields[0].size);
      var gap := Gap(fields[0], cursor);
      var passed := before + PadMembers(gap);
      GapIsPassed(fields, cursor, before);
      SortTiles(fields[1..], next, size, passed);
      var tail := FieldMembers(fields[1..]) + (passed + PadMembers(PadsFrom(fields[1..], next, size)));
      InputSplits(fields, cursor, size, before);
      SortHead(fields, next, size, passed, tail);
      Associates(before, PadMembers(gap), FieldItself(fields[0]) + Tiled(fields[1..], next, size));
    }
  }

  lemma {:induction false} SortTrailing(cursor: nat, size: nat, before: seq<Member>)
    requires PadsPassed(before, [], cursor)
    ensures Sort(BY_MEMBER_OFFSET, FieldMembers([]) + (before + PadMembers(PadsFrom([], cursor, size)))) ==
            before + Tiled([], cursor, size)
  {
    var tail := Tiled([], cursor, size);
    assert PadMembers(PadsFrom([], cursor, size)) == tail by {
      if size > cursor { assert PadsFrom([], cursor, size)[1..] == []; }
    }
    assert FieldMembers([]) + (before + tail) == before + tail;
    if size > cursor {
      SortedThen(BY_MEMBER_OFFSET, before, PadMember(Pad(cursor, size - cursor)));
    } else {
      assert before + tail == before;
    }
    SortedIsUnchanged(BY_MEMBER_OFFSET, before + tail);
  }

  lemma {:induction false} SortHead(
    fields: seq<Placement>, next: nat, size: nat, passed: seq<Member>, tail: seq<Member>)
    requires fields != [] && Sorted(BY_OFFSET, fields) && next >= fields[0].offset
    requires forall k :: 0 <= k < |passed| ==> passed[k].Offset() < fields[0].offset
    requires Sort(BY_MEMBER_OFFSET, tail) == passed + Tiled(fields[1..], next, size)
    ensures Sort(BY_MEMBER_OFFSET, FieldItself(fields[0]) + tail) ==
            passed + (FieldItself(fields[0]) + Tiled(fields[1..], next, size))
  {
    var tiles := Tiled(fields[1..], next, size);
    if fields[0].emitted {
      var all := FieldItself(fields[0]) + tail;
      assert all[0] == FieldMember(fields[0]) && all[1..] == tail;
      InsertPast(BY_MEMBER_OFFSET, FieldMember(fields[0]), passed, tiles);
      FieldGoesFirst(fields, next, size);
    } else {
      assert FieldItself(fields[0]) + tail == tail;
      assert FieldItself(fields[0]) + tiles == tiles;
    }
  }

  ghost predicate PadsPassed(before: seq<Member>, fields: seq<Placement>, cursor: nat) {
    && Sorted(BY_MEMBER_OFFSET, before)
    && (forall k :: 0 <= k < |before| ==> before[k].Offset() < cursor)
    && (forall k, j :: 0 <= k < |before| && 0 <= j < |fields| ==> before[k].Offset() < fields[j].offset)
  }

  lemma {:induction false} GapIsPassed(fields: seq<Placement>, cursor: nat, before: seq<Member>)
    requires fields != [] && Sorted(BY_OFFSET, fields) && PadsPassed(before, fields, cursor)
    ensures PadsPassed(before + PadMembers(Gap(fields[0], cursor)), fields[1..],
            Max(cursor, fields[0].offset + fields[0].size))
    ensures forall k :: 0 <= k < |before + PadMembers(Gap(fields[0], cursor))| ==>
              (before + PadMembers(Gap(fields[0], cursor)))[k].Offset() < fields[0].offset
  {
    assert forall j :: 0 < j < |fields| ==> !BY_OFFSET(fields[j], fields[0]);
  }

  lemma {:induction false} InputSplits(fields: seq<Placement>, cursor: nat, size: nat, before: seq<Member>)
    requires fields != []
    ensures
      var next := Max(cursor, fields[0].offset + fields[0].size);
      FieldMembers(fields) + (before + PadMembers(PadsFrom(fields, cursor, size))) ==
      FieldItself(fields[0]) +
      (FieldMembers(fields[1..]) +
       (before + PadMembers(Gap(fields[0], cursor)) + PadMembers(PadsFrom(fields[1..], next, size))))
  {
    var next := Max(cursor, fields[0].offset + fields[0].size);
    var gap, rest := Gap(fields[0], cursor), PadsFrom(fields[1..], next, size);
    PadMembersConcat(gap, rest);
    Associates(before, PadMembers(gap), PadMembers(rest));
    Associates(FieldItself(fields[0]), FieldMembers(fields[1..]), before + PadMembers(gap) + PadMembers(rest));
  }

  lemma {:induction false} FieldGoesFirst(fields: seq<Placement>, next: nat, size: nat)
    requires fields != [] && Sorted(BY_OFFSET, fields) && next >= fields[0].offset
    ensures Insert(BY_MEMBER_OFFSET, FieldMember(fields[0]), Tiled(fields[1..], next, size)) ==
            [FieldMember(fields[0])] + Tiled(fields[1..], next, size)
  {
    var t := Tiled(fields[1..], next, size);
    if t != [] {
      FirstTileOffset(fields[1..], next, size, fields[0].offset);
    }
  }

  lemma {:induction false} FirstTileOffset(fields: seq<Placement>, next: nat, size: nat, low: nat)
    requires low <= next && forall k :: 0 <= k < |fields| ==> low <= fields[k].offset
    requires Tiled(fields, next, size) != []
    ensures low <= Tiled(fields, next, size)[0].Offset()
    decreases |fields|
  {
    if fields != [] && fields[0].offset <= next && !fields[0].emitted {
      var rest := Tiled(fields[1..], Max(next, fields[0].offset + fields[0].size), size);
      assert Tiled(fields, next, size) == [] + [] + rest == rest;
      FirstTileOffset(fields[1..], Max(next, fields[0].offset + fields[0].size), size, low);
    }
  }

  // -------------------------------------------------------------------
  // The sorted placements of a first-fit layout.
  // -------------------------------------------------------------------

  // `x` goes before `y`: by offset, then as declared, and clear of it.
  predicate Before(x: Placement, y: Placement) {
    && (x.offset < y.offset || (x.offset == y.offset && x.index < y.index))
    && (x.size > 0 && y.size > 0 ==> x.offset + x.size <= y.offset)
  }

  const BEFORE: (Placement, Placement) -> bool := (x: Placement, y: Placement) => Before(x, y)

  lemma {:induction false} SortedPlacements(items: seq<Item>, offsets: seq<nat>, k: nat)
    requires FirstFit(items, offsets) && k <= |items|
    ensures
      var s := Sort(BY_OFFSET, Placements(items, offsets)[k..]);
      && Ordered(s, BEFORE) && Sorted(BY_OFFSET, s)
      && forall y :: y in s ==> k <= y.index < |items| && y == Placements(items, offsets)[y.index]
    decreases |items| - k
  {
    var ps := Placements(items, offsets);
    if k < |items| {
      SortedPlacements(items, offsets, k + 1);
      assert ps[k..][0] == ps[k] && ps[k..][1..] == ps[k + 1..];
      var s := Sort(BY_OFFSET, ps[k + 1..]);
      forall y | y in s ensures BEFORE(ps[k], y) || ps[k].offset > y.offset
        ensures BEFORE(y, ps[k]) || ps[k].offset <= y.offset
      {
        assert Lowest(items, offsets, y.index);
        assert !Meets(items, offsets, k, offsets[y.index], items[y.index].size);
      }
      InsertOrders(BY_OFFSET, ps[k], s, BEFORE);
      forall y | y in Sort(BY_OFFSET, ps[k..]) ensures k <= y.index < |items| && y == ps[y.index] {
        InsertMembers(BY_OFFSET, ps[k], s, y);
      }
    }
  }

  // A field of no byte is at offset 0, and so is the first field of any.
  lemma {:induction false} OffsetZero(items: seq<Item>, offsets: seq<nat>, k: nat)
    requires FirstFit(items, offsets) && k < |items|
    requires items[k].size == 0 || forall j :: 0 <= j < k ==> items[j].size == 0
    ensures offsets[k] == 0
  {
    if items[k].size != 0 {
      forall j | 0 <= j < k ensures offsets[j] == 0 {
        OffsetZero(items, offsets, j);
      }
    }
    assert Clear(items, offsets, k, 0, items[k].size);
    assert Lowest(items, offsets, k);
  }

  lemma {:induction false} AlignmentDivides(x: nat, align: nat, choice: CAlign)
    requires align in {1, 2, 4, 8} && x % align == 0 && align % choice == 0
    ensures AlignUp(x, choice) == x
  {
    assert x % 8 == 0 ==> x % 4 == 0;
    assert x % 4 == 0 ==> x % 2 == 0;
    if choice == 8 {
      assert 1 % 8 == 1 && 2 % 8 == 2 && 4 % 8 == 4;
    } else if choice == 4 {
      assert 1 % 4 == 1 && 2 % 4 == 2;
    } else if choice == 2 {
      assert 1 % 2 == 1;
    }
  }

  // -------------------------------------------------------------------
  // The compiler reproduces the layout.
  // -------------------------------------------------------------------

  // No member of no byte comes after a byte has been laid out.
  ghost predicate NoLateEmpty(fields: seq<Placement>, cursor: nat) {
    fields == [] ||
    ((fields[0].emitted && fields[0].size == 0 ==> cursor == 0) &&
     NoLateEmpty(fields[1..], Max(cursor, fields[0].offset + fields[0].size)))
  }

  ghost predicate Placeable(f: Placement, calign: nat -> CAlign, size: nat) {
    && AlignUp(f.offset, calign(f.index)) == f.offset
    && f.offset + f.size <= size
    && (f.size == 0 ==> f.offset == 0)
    && (!f.emitted ==> f.size == 0)
  }

  lemma {:induction false} FirstMember(m: Member, rest: seq<Member>, calign: nat -> CAlign, cursor: nat)
    ensures OffsetsAgree([m] + rest, calign, cursor) <==>
            AlignUp(cursor, AlignOf(m, calign)) == m.Offset() && OffsetsAgree(rest, calign, m.Offset() + m.Size())
    ensures EndOf([m] + rest, cursor) == EndOf(rest, m.Offset() + m.Size())
  {
    var all := [m] + rest;
    assert all[0] == m && all[1..] == rest;
  }

  lemma {:induction false} TilesAgree(fields: seq<Placement>, calign: nat -> CAlign, cursor: nat, size: nat)
    requires Ordered(fields, BEFORE) && cursor <= size
    requires forall f :: f in fields ==> Placeable(f, calign, size) && (f.size > 0 ==> cursor <= f.offset)
    ensures OffsetsAgree(Tiled(fields, cursor, size), calign, cursor) <==> NoLateEmpty(fields, cursor)
    ensures OffsetsAgree(Tiled(fields, cursor, size), calign, cursor) ==>
            EndOf(Tiled(fields, cursor, size), cursor) == size
    decreases |fields|
  {
    if fields == [] {
      TrailingAgrees(calign, cursor, size);
    } else {
      var next := Max(cursor, fields[0].offset + fields[0].size);
      assert fields[0] in fields;
      RestIsLater(fields, calign, cursor, size);
      TilesAgree(fields[1..], calign, next, size);
      StepAgrees(fields, Tiled(fields[1..], next, size), calign, cursor, size);
    }
  }

  // A field and the gap before it, ahead of members that agree.
  lemma {:induction false} StepAgrees(
    fields: seq<Placement>, rest: seq<Member>, calign: nat -> CAlign, cursor: nat, size: nat)
    requires fields != [] && Placeable(fields[0], calign, size) && (fields[0].size > 0 ==> cursor <= fields[0].offset)
    requires var next := Max(cursor, fields[0].offset + fields[0].size);
             && (OffsetsAgree(rest, calign, next) <==> NoLateEmpty(fields[1..], next))
             && (OffsetsAgree(rest, calign, next) ==> EndOf(rest, next) == size)
    ensures var all := PadMembers(Gap(fields[0], cursor)) + (FieldItself(fields[0]) + rest);
            && (OffsetsAgree(all, calign, cursor) <==> NoLateEmpty(fields, cursor))
            && (OffsetsAgree(all, calign, cursor) ==> EndOf(all, cursor) == size)
  {
    var f := fields[0];
    FieldAgrees(f, rest, calign, Max(cursor, f.offset), fields[1..]);
    GapAgrees(f, FieldItself(f) + rest, calign, cursor);
  }

  lemma {:induction false} TrailingAgrees(calign: nat -> CAlign, cursor: nat, size: nat)
    requires cursor <= size
    ensures OffsetsAgree(Tiled([], cursor, size), calign, cursor) && EndOf(Tiled([], cursor, size), cursor) == size
  {
    if size > cursor {
      var pad := PadMember(Pad(cursor, size - cursor));
      FirstMember(pad, [], calign, cursor);
      assert [pad] + [] == [pad];
    }
  }

  // The pad before a field, if any, ends where the field starts.
  lemma {:induction false} GapAgrees(f: Placement, tail: seq<Member>, calign: nat -> CAlign, cursor: nat)
    ensures var all, at := PadMembers(Gap(f, cursor)) + tail, Max(cursor, f.offset);
            && (OffsetsAgree(all, calign, cursor) <==> OffsetsAgree(tail, calign, at))
            && EndOf(all, cursor) == EndOf(tail, at)
  {
    if f.offset > cursor {
      var pad := PadMember(Pad(cursor, f.offset - cursor));
      assert PadMembers(Gap(f, cursor)) == [pad] by { assert Gap(f, cursor)[1..] == []; }
      FirstMember(pad, tail, calign, cursor);
    } else {
      assert PadMembers(Gap(f, cursor)) + tail == tail;
    }
  }

  lemma {:induction false} RestIsLater(fields: seq<Placement>, calign: nat -> CAlign, cursor: nat, size: nat)
    requires fields != [] && Ordered(fields, BEFORE) && cursor <= size
    requires forall f :: f in fields ==> Placeable(f, calign, size) && (f.size > 0 ==> cursor <= f.offset)
    ensures var next := Max(cursor, fields[0].offset + fields[0].size);
            && next <= size && Ordered(fields[1..], BEFORE)
            && forall f :: f in fields[1..] ==> Placeable(f, calign, size) && (f.size > 0 ==> next <= f.offset)
  {
    assert fields[0] in fields;
    forall f | f in fields[1..]
      ensures f in fields && BEFORE(fields[0], f)
    {
      var k :| 0 <= k < |fields[1..]| && fields[1..][k] == f;
      assert fields[k + 1] == f;
    }
  }

  lemma {:induction false} FieldAgrees(
    f: Placement, rest: seq<Member>, calign: nat -> CAlign, at: nat, later: seq<Placement>)
    requires AlignUp(f.offset, calign(f.index)) == f.offset && f.offset <= at
    requires f.size > 0 ==> f.emitted && at == f.offset
    requires f.size == 0 ==> f.offset == 0
    requires OffsetsAgree(rest, calign, Max(at, f.offset + f.size)) <==> NoLateEmpty(later, Max(at, f.offset + f.size))
    ensures OffsetsAgree(FieldItself(f) + rest, calign, at) <==>
            (f.emitted && f.size == 0 ==> at == 0) && NoLateEmpty(later, Max(at, f.offset + f.size))
    ensures OffsetsAgree(FieldItself(f) + rest, calign, at) ==>
            EndOf(FieldItself(f) + rest, at) == EndOf(rest, Max(at, f.offset + f.size))
  {
    if f.emitted {
      FirstMember(FieldMember(f), rest, calign, at);
    } else {
      assert FieldItself(f) + rest == rest;
    }
  }

  // Among sorted fields, a member of no byte is late exactly when a field that
  // takes bytes was declared before it.
  lemma {:induction false} LateEmptySorted(fields: seq<Placement>, cursor: nat)
    requires forall f :: f in fields && f.size == 0 ==> f.offset == 0
    ensures NoLateEmpty(fields, cursor) <==>
            forall k :: 0 <= k < |fields| && fields[k].emitted && fields[k].size == 0 ==>
              cursor == 0 && forall j :: 0 <= j < k ==> fields[j].size == 0
    decreases |fields|
  {
    if fields != [] {
      LateEmptySorted(fields[1..], Max(cursor, fields[0].offset + fields[0].size));
      assert fields[0] in fields;
      assert forall k :: 1 <= k < |fields| ==> fields[k] == fields[1..][k - 1];
    }
  }

  // The guard a caller can check: no member of no byte is declared after a
  // field that takes bytes.
  predicate EmptyMembersFirst(items: seq<Item>) {
    forall j, k :: 0 <= j < k < |items| && items[k].emitted && items[k].size == 0 ==> items[j].size == 0
  }

  // Every offset, the size and the alignment a header asserts are what the
  // compiler computes, whatever alignments dividing the natural ones it uses,
  // exactly when no member of no byte follows a field that takes bytes.
  lemma {:induction false} CompilerReproducesLayout(items: seq<Item>, offsets: seq<nat>, h: Head, calign: nat -> CAlign)
    requires WellFormed(items) && FirstFit(items, offsets) && IsHeadOf(items, offsets, h)
    requires CompilerChoice(items, calign)
    ensures AssertionsHold(Members(h), calign, h.size) <==> EmptyMembersFirst(items)
  {
    var fields := h.fields;
    MembersTile(items, offsets, h);
    AllPlaceable(items, offsets, h, calign);
    TilesHold(fields, calign, h.size);
    LateEmptyDeclared(items, offsets, fields);
  }

  // No member of no byte follows a field that takes bytes, as they are laid out.
  ghost predicate NoneLate(fields: seq<Placement>) {
    forall j, k :: 0 <= j < k < |fields| && fields[k].emitted && fields[k].size == 0 ==> fields[j].size == 0
  }

  lemma {:induction false} TilesHold(fields: seq<Placement>, calign: nat -> CAlign, size: nat)
    requires Ordered(fields, BEFORE) && size % 8 == 0
    requires forall f :: f in fields ==> Placeable(f, calign, size)
    ensures AssertionsHold(Tiled(fields, 0, size), calign, size) <==> NoneLate(fields)
  {
    TilesAgree(fields, calign, 0, size);
    LateEmptySorted(fields, 0);
    if size == 0 {
      forall f | f in fields ensures f.size == 0 {
        assert Placeable(f, calign, size);
      }
    }
  }

  // Two items, a byte and an array of no element: the array is recorded at the
  // front, where a compiler cannot put it.
  const BYTE_THEN_NOTHING := [Item(1, 1, true), Item(0, 1, true)]

  lemma {:induction false} NothingAfterAByteFails(h: Head, calign: nat -> CAlign)
    requires IsHeadOf(BYTE_THEN_NOTHING, [0, 0], h) && CompilerChoice(BYTE_THEN_NOTHING, calign)
    ensures WellFormed(BYTE_THEN_NOTHING) && FirstFit(BYTE_THEN_NOTHING, [0, 0])
    ensures !AssertionsHold(Members(h), calign, h.size)
  {
    assert Lowest(BYTE_THEN_NOTHING, [0, 0], 0) && Lowest(BYTE_THEN_NOTHING, [0, 0], 1);
    assert !EmptyMembersFirst(BYTE_THEN_NOTHING) by {
      assert BYTE_THEN_NOTHING[1].size == 0 && BYTE_THEN_NOTHING[0].size != 0;
    }
    CompilerReproducesLayout(BYTE_THEN_NOTHING, [0, 0], h, calign);
  }

  lemma {:induction false} MembersTile(items: seq<Item>, offsets: seq<nat>, h: Head)
    requires WellFormed(items) && FirstFit(items, offsets) && IsHeadOf(items, offsets, h)
    ensures Members(h) == Tiled(h.fields, 0, h.size) && Ordered(h.fields, BEFORE)
  {
    var ps := Placements(items, offsets);
    SortedPlacements(items, offsets, 0);
    assert ps[0..] == ps;
    SortTiles(h.fields, 0, h.size, []);
    assert [] + PadMembers(h.pads) == PadMembers(h.pads);
    assert [] + Tiled(h.fields, 0, h.size) == Tiled(h.fields, 0, h.size);
  }

  lemma {:induction false} AllPlaceable(items: seq<Item>, offsets: seq<nat>, h: Head, calign: nat -> CAlign)
    requires WellFormed(items) && FirstFit(items, offsets) && IsHeadOf(items, offsets, h)
    requires CompilerChoice(items, calign)
    ensures h.size % 8 == 0 && forall f :: f in h.fields ==> Placeable(f, calign, h.size)
  {
    var ps := Placements(items, offsets);
    SortedPlacements(items, offsets, 0);
    assert ps[0..] == ps;
    forall f | f in h.fields ensures Placeable(f, calign, h.size) {
      assert Lowest(items, offsets, f.index);
      AlignmentDivides(f.offset, f.align, calign(f.index));
      if f.size == 0 { OffsetZero(items, offsets, f.index); }
    }
  }

  lemma {:induction false} LateEmptyDeclared(items: seq<Item>, offsets: seq<nat>, fields: seq<Placement>)
    requires FirstFit(items, offsets) && fields == Sort(BY_OFFSET, Placements(items, offsets))
    ensures EmptyMembersFirst(items) <==> NoneLate(fields)
  {
    var ps := Placements(items, offsets);
    SortedPlacements(items, offsets, 0);
    assert ps[0..] == ps;
    if EmptyMembersFirst(items) {
      forall j, k | 0 <= j < k < |fields| && fields[k].emitted && fields[k].size == 0 ensures fields[j].size == 0 {
        assert fields[k] in fields && fields[j] in fields;
        OffsetZero(items, offsets, fields[k].index);
        assert BEFORE(fields[j], fields[k]);
      }
    } else {
      LateIsLate(items, offsets, fields);
    }
  }

  // Of two items at offset zero, the one declared first is laid out first.
  lemma {:induction false} LateIsLate(items: seq<Item>, offsets: seq<nat>, fields: seq<Placement>)
    requires FirstFit(items, offsets) && fields == Sort(BY_OFFSET, Placements(items, offsets))
    requires !EmptyMembersFirst(items)
    ensures !NoneLate(fields)
  {
    var ps := Placements(items, offsets);
    SortedPlacements(items, offsets, 0);
    assert ps[0..] == ps;
    var j, k :| 0 <= j < k < |items| && items[k].emitted && items[k].size == 0 && items[j].size != 0;
    var first := FirstWithBytes(items, j);
    OffsetZero(items, offsets, first);
    OffsetZero(items, offsets, k);
    SortMembers(BY_OFFSET, ps, ps[first]);
    SortMembers(BY_OFFSET, ps, ps[k]);
    var a :| 0 <= a < |fields| && fields[a] == ps[first];
    var b :| 0 <= b < |fields| && fields[b] == ps[k];
    FirstStaysFirst(fields, a, b);
    assert a < b && fields[b].emitted && fields[b].size == 0 && fields[a].size != 0;
  }

  lemma {:induction false} FirstStaysFirst(fields: seq<Placement>, a: nat, b: nat)
    requires Ordered(fields, BEFORE) && a < |fields| && b < |fields|
    requires fields[a].offset == fields[b].offset && fields[a].index < fields[b].index
    ensures a < b
  {
  }

  lemma {:induction false} FirstWithBytes(items: seq<Item>, j: nat) returns (first: nat)
    requires j < |items| && items[j].size != 0
    ensures first <= j && items[first].size != 0 && forall i :: 0 <= i < first ==> items[i].size == 0
  {
    if i :| 0 <= i < j && items[i].size != 0 {
      first := FirstWithBytes(items, i);
    } else {
      first := j;
    }
  }
}
