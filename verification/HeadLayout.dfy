// The podbuf layout law: where the fields of a head go, which byte runs are
// pads, and in which order a header writes the members.
module HeadLayout {
  import opened Division
  import opened StableSort

  datatype Result<+T> = Ok(value: T) | Refused

  // A field before placement. `emitted` is false for a field that takes no
  // byte and gets no member: an inline head with no field.
  datatype Item = Item(size: nat, align: nat, emitted: bool)

  datatype Placement = Placement(index: nat, offset: nat, size: nat, align: nat, emitted: bool)

  datatype Pad = Pad(offset: nat, size: nat)

  datatype Head = Head(size: nat, fields: seq<Placement>, pads: seq<Pad>)

  const HEAD_ALIGN: nat := 8
  const U32_MAX: nat := 0xFFFF_FFFF

  // `align` divides the head alignment, and an item with no member has no byte.
  predicate WellFormed(items: seq<Item>) {
    forall k :: 0 <= k < |items| ==>
      items[k].align in {1, 2, 4, 8} && (!items[k].emitted ==> items[k].size == 0)
  }

  // -------------------------------------------------------------------
  // First fit.
  // -------------------------------------------------------------------

  // Rounding up to a multiple, by the ceiling division the source uses.
  function RoundUp(x: nat, align: nat): (r: nat)
    requires align > 0
    ensures x <= r < x + align && r % align == 0
  {
    var q := (x + align - 1) / align;
    MultiplesDivide(q, align);
    q * align
  }

  lemma {:induction false} MultiplesDivide(q: nat, align: nat)
    requires align > 0
    ensures q * align % align == 0
  {
    var x := q * align;
    var p, r := x / align, x % align;
    assert x == p * align + r;
    if p < q { MultiplesGrow(p + 1, q, align); }
    if q < p { MultiplesGrow(q + 1, p, align); }
  }

  // No multiple lies between a number and its rounding.
  lemma {:induction false} RoundUpIsLeast(x: nat, align: nat, y: nat)
    requires align > 0 && x <= y && y % align == 0
    ensures RoundUp(x, align) <= y
  {
    var q, p := (x + align - 1) / align, y / align;
    assert y == p * align;
    if p < q {
      MultiplesGrow(p + 1, q, align);
    } else {
      MultiplesGrow(q, p, align);
    }
  }

  // Whether `size` bytes at `off` meet the item placed at `k`.
  predicate Meets(items: seq<Item>, offsets: seq<nat>, k: nat, off: nat, size: nat)
    requires k < |items| && k < |offsets|
  {
    off < offsets[k] + items[k].size && offsets[k] < off + size
  }

  predicate Clear(items: seq<Item>, offsets: seq<nat>, upTo: nat, off: nat, size: nat)
    requires upTo <= |items| && upTo <= |offsets|
  {
    forall k :: 0 <= k < upTo ==> !Meets(items, offsets, k, off, size)
  }

  // Item `k` is at the lowest aligned offset clear of the items before it.
  ghost predicate Lowest(items: seq<Item>, offsets: seq<nat>, k: nat)
    requires k < |items| && k < |offsets| && items[k].align > 0
  {
    && offsets[k] % items[k].align == 0
    && Clear(items, offsets, k, offsets[k], items[k].size)
    && forall off: nat :: off < offsets[k] && off % items[k].align == 0 ==>
       !Clear(items, offsets, k, off, items[k].size)
  }

  ghost predicate FirstFit(items: seq<Item>, offsets: seq<nat>) {
    && |offsets| == |items|
    && (forall k :: 0 <= k < |items| ==> items[k].align > 0)
    && (forall k :: 0 <= k < |items| ==> Lowest(items, offsets, k))
  }

  method Place(items: seq<Item>) returns (offsets: seq<nat>)
    requires forall k :: 0 <= k < |items| ==> items[k].align > 0
    ensures FirstFit(items, offsets)
  {
    offsets := [];
    for i := 0 to |items|
      invariant |offsets| == i
      invariant forall k :: 0 <= k < i ==> Lowest(items, offsets, k)
    {
      var off := LowestClear(items, offsets, i);
      ghost var before := offsets;
      offsets := offsets + [off];
      forall k | 0 <= k < i + 1 ensures Lowest(items, offsets, k) {
        if k < i {
          assert Lowest(items, before, k);
          SamePrefix(items, before, offsets, k);
        } else {
          assert forall o: nat, j :: 0 <= j < i ==>
            Meets(items, before, j, o, items[i].size) == Meets(items, offsets, j, o, items[i].size);
          assert forall o: nat ::
            Clear(items, before, i, o, items[i].size) == Clear(items, offsets, i, o, items[i].size);
        }
      }
    }
  }

  // What makes an item lowest reads only the offsets up to its own.
  lemma {:induction false} SamePrefix(items: seq<Item>, a: seq<nat>, b: seq<nat>, k: nat)
    requires k < |items| && k < |a| && a <= b && items[k].align > 0 && Lowest(items, a, k)
    ensures Lowest(items, b, k)
  {
    forall off: nat ensures Clear(items, a, k, off, items[k].size) == Clear(items, b, k, off, items[k].size) {
      assert forall j :: 0 <= j < k ==>
          Meets(items, a, j, off, items[k].size) == Meets(items, b, j, off, items[k].size);
    }
  }

  // The end of the last item placed.
  function MaxEnd(items: seq<Item>, offsets: seq<nat>, upTo: nat): (r: nat)
    requires upTo <= |items| && upTo <= |offsets|
    ensures forall k :: 0 <= k < upTo ==> offsets[k] + items[k].size <= r
    ensures r == 0 || exists k :: 0 <= k < upTo && offsets[k] + items[k].size == r
  {
    if upTo == 0 then 0
    else
      var rest := MaxEnd(items, offsets, upTo - 1);
      if rest < offsets[upTo - 1] + items[upTo - 1].size then offsets[upTo - 1] + items[upTo - 1].size else rest
  }

  method LowestClear(items: seq<Item>, offsets: seq<nat>, i: nat) returns (off: nat)
    requires i < |items| && |offsets| == i && items[i].align > 0
    ensures off % items[i].align == 0 && Clear(items, offsets, i, off, items[i].size)
    ensures forall o: nat :: o < off && o % items[i].align == 0 ==> !Clear(items, offsets, i, o, items[i].size)
  {
    var size, align := items[i].size, items[i].align;
    off := 0;
    while true
      invariant forall o: nat :: o < off && o % align == 0 ==> !Clear(items, offsets, i, o, size)
      decreases MaxEnd(items, offsets, i) - off
    {
      ghost var start := off;
      off := RoundUp(off, align);
      forall o: nat | o < off && o % align == 0 ensures !Clear(items, offsets, i, o, size) {
        if start <= o { RoundUpIsLeast(start, align, o); }
      }
      var k := FindMeeting(items, offsets, i, off, size);
      if k == i {
        return;
      }
      // Every offset up to the end of what is met meets it as well.
      ghost var rounded := off;
      off := offsets[k] + items[k].size;
      forall o: nat | rounded <= o < off ensures !Clear(items, offsets, i, o, size) {
        assert Meets(items, offsets, k, o, size);
      }
    }
  }

  // The first item placed that the run meets, or `i` when it is clear.
  method FindMeeting(items: seq<Item>, offsets: seq<nat>, i: nat, off: nat, size: nat) returns (k: nat)
    requires i <= |items| && i <= |offsets|
    ensures k <= i
    ensures k < i ==> Meets(items, offsets, k, off, size)
    ensures k == i ==> Clear(items, offsets, i, off, size)
  {
    k := 0;
    while k < i
      invariant k <= i && Clear(items, offsets, k, off, size)
    {
      if Meets(items, offsets, k, off, size) {
        return;
      }
      k := k + 1;
    }
  }

  predicate IsByteOf(b: nat, off: nat, size: nat) {
    off <= b < off + size
  }

  // A byte of the run at `off` is a byte of the item placed at `k`.
  ghost predicate SharesByte(items: seq<Item>, offsets: seq<nat>, k: nat, off: nat, size: nat)
    requires k < |items| && k < |offsets|
  {
    exists b :: IsByteOf(b, off, size) && IsByteOf(b, offsets[k], items[k].size)
  }

  // Runs of some bytes meet where they share one.
  lemma {:induction false} MeetingShares(items: seq<Item>, offsets: seq<nat>, k: nat, off: nat, size: nat)
    requires k < |items| && k < |offsets| && size > 0 && items[k].size > 0
    ensures Meets(items, offsets, k, off, size) <==> SharesByte(items, offsets, k, off, size)
  {
    if Meets(items, offsets, k, off, size) {
      var b := if off < offsets[k] then offsets[k] else off;
      assert IsByteOf(b, off, size) && IsByteOf(b, offsets[k], items[k].size);
    }
  }

  // What the law says of bytes, every item having one: no item has a byte of
  // another, and at any lower aligned offset it would have.
  lemma {:induction false} FirstFitIsOfBytes(items: seq<Item>, offsets: seq<nat>, k: nat)
    requires FirstFit(items, offsets) && k < |items| && forall j :: 0 <= j < |items| ==> items[j].size > 0
    ensures offsets[k] % items[k].align == 0
    ensures forall j :: 0 <= j < k ==> !SharesByte(items, offsets, j, offsets[k], items[k].size)
    ensures forall off: nat :: off < offsets[k] && off % items[k].align == 0 ==>
              exists j :: 0 <= j < k && SharesByte(items, offsets, j, off, items[k].size)
  {
    assert Lowest(items, offsets, k);
    forall j | 0 <= j < k ensures !SharesByte(items, offsets, j, offsets[k], items[k].size) {
      MeetingShares(items, offsets, j, offsets[k], items[k].size);
      assert !Meets(items, offsets, j, offsets[k], items[k].size);
    }
    forall off: nat | off < offsets[k] && off % items[k].align == 0
      ensures exists j :: 0 <= j < k && SharesByte(items, offsets, j, off, items[k].size)
    {
      assert !Clear(items, offsets, k, off, items[k].size);
      var j :| 0 <= j < k && Meets(items, offsets, j, off, items[k].size);
      MeetingShares(items, offsets, j, off, items[k].size);
    }
  }

  // The law leaves no choice, and an appended item never moves an existing one.
  lemma {:induction false} AppendedItemsMoveNothing(items: seq<Item>, more: seq<Item>, a: seq<nat>, b: seq<nat>, k: nat)
    requires FirstFit(items, a) && FirstFit(items + more, b) && k <= |items|
    ensures a[..k] == b[..k]
  {
    if k > 0 {
      AppendedItemsMoveNothing(items, more, a, b, k - 1);
      var i := k - 1;
      var all := items + more;
      assert all[i] == items[i];
      forall off: nat ensures Clear(items, a, i, off, items[i].size) == Clear(all, b, i, off, items[i].size) {
        forall j | 0 <= j < i ensures Meets(items, a, j, off, items[i].size) == Meets(all, b, j, off, items[i].size) {
          assert a[j] == a[..i][j] && b[j] == b[..i][j];
        }
      }
      assert Lowest(items, a, i) && Lowest(all, b, i);
      assert a[i] == b[i];
      assert a[..k] == a[..i] + [a[i]] && b[..k] == b[..i] + [b[i]];
    }
  }

  // -------------------------------------------------------------------
  // The head: fields sorted by offset, the gaps as pads.
  // -------------------------------------------------------------------

  function Placements(items: seq<Item>, offsets: seq<nat>): (r: seq<Placement>)
    requires |offsets| == |items|
    ensures |r| == |items|
    ensures forall k :: 0 <= k < |items| ==>
              r[k] == Placement(k, offsets[k], items[k].size, items[k].align, items[k].emitted)
  {
    seq(|items|, k requires 0 <= k < |items| =>
      Placement(k, offsets[k], items[k].size, items[k].align, items[k].emitted))
  }

  const BY_OFFSET: (Placement, Placement) -> bool := (p: Placement, q: Placement) => p.offset < q.offset

  // The pads of fields sorted by offset, from `cursor` on.
  function PadsFrom(fields: seq<Placement>, cursor: nat, size: nat): seq<Pad> {
    if fields == [] then (if size > cursor then [Pad(cursor, size - cursor)] else [])
    else
      Gap(fields[0], cursor) + PadsFrom(fields[1..], Max(cursor, fields[0].offset + fields[0].size), size)
  }

  // The pad before a field, if there is a gap.
  function Gap(f: Placement, cursor: nat): seq<Pad> {
    if f.offset > cursor then [Pad(cursor, f.offset - cursor)] else []
  }

  function Max(a: nat, b: nat): nat {
    if a < b then b else a
  }

  method CollectPads(fields: seq<Placement>, size: nat) returns (pads: seq<Pad>)
    ensures pads == PadsFrom(fields, 0, size)
  {
    pads := [];
    var cursor := 0;
    for k := 0 to |fields|
      invariant pads + PadsFrom(fields[k..], cursor, size) == PadsFrom(fields, 0, size)
    {
      assert fields[k..][0] == fields[k] && fields[k..][1..] == fields[k + 1..];
      ghost var rest := PadsFrom(fields[k + 1..], Max(cursor, fields[k].offset + fields[k].size), size);
      if fields[k].offset > cursor {
        assert pads + ([Pad(cursor, fields[k].offset - cursor)] + rest) ==
               pads + [Pad(cursor, fields[k].offset - cursor)] + rest;
        pads := pads + [Pad(cursor, fields[k].offset - cursor)];
      } else {
        assert [] + rest == rest;
      }
      cursor := Max(cursor, fields[k].offset + fields[k].size);
    }
    if size > cursor {
      pads := pads + [Pad(cursor, size - cursor)];
    } else {
      assert pads + [] == pads;
    }
  }

  // The head the law gives, refused when a 32-bit offset cannot address it.
  method LayOut(items: seq<Item>) returns (r: Result<Head>)
    requires WellFormed(items)
    ensures r.Refused? <==>
              forall offsets :: FirstFit(items, offsets) ==>
                RoundUp(MaxEnd(items, offsets, |items|), HEAD_ALIGN) > U32_MAX
    ensures r.Ok? ==> exists offsets :: FirstFit(items, offsets) && IsHeadOf(items, offsets, r.value)
  {
    var offsets := Place(items);
    var size := RoundUp(MaxEnd(items, offsets, |items|), HEAD_ALIGN);
    if size > U32_MAX {
      forall other | FirstFit(items, other) ensures other == offsets {
        FirstFitIsUnique(items, offsets, other);
      }
      return Refused;
    }
    var fields := Sort(BY_OFFSET, Placements(items, offsets));
    var pads := CollectPads(fields, size);
    r := Ok(Head(size, fields, pads));
  }

  ghost predicate IsHeadOf(items: seq<Item>, offsets: seq<nat>, h: Head) {
    && |offsets| == |items|
    && h.size == RoundUp(MaxEnd(items, offsets, |items|), HEAD_ALIGN) <= U32_MAX
    && h.fields == Sort(BY_OFFSET, Placements(items, offsets))
    && h.pads == PadsFrom(h.fields, 0, h.size)
  }

  lemma {:induction false} FirstFitIsUnique(items: seq<Item>, a: seq<nat>, b: seq<nat>)
    requires FirstFit(items, a) && FirstFit(items, b)
    ensures a == b
  {
    assert items + [] == items;
    AppendedItemsMoveNothing(items, [], a, b, |items|);
    assert a == a[..|items|] && b == b[..|items|];
  }
}
