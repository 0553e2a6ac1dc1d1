// The loads a C reader makes from a head, and what a reader built from one
// version of a type gets from the head another version wrote.
module HeadLoads {
  import opened Common
  import opened Division
  import opened HeadLayout

  type Byte = x: nat | x < 0x100

  const U64: nat := 0x1_0000_0000_0000_0000

  // -------------------------------------------------------------------
  // Little-endian loads.
  // -------------------------------------------------------------------

  function LittleEndian(s: seq<Byte>): nat {
    if s == [] then 0 else s[0] + 0x100 * LittleEndian(s[1..])
  }

  // The two tests and the loop are in the unsigned widths of C.
  predicate Fits(sz: nat, off: nat, n: nat) {
    off + n <= sz
  }

  function LoadAt(head: seq<Byte>, sz: nat, off: nat, n: nat): nat
    requires sz <= |head|
  {
    if Fits(sz, off, n) then LittleEndian(head[off..off + n]) % U64 else 0
  }

  method Load(h: array<Byte>, sz: nat, off: nat, n: nat) returns (value: nat)
    requires sz <= h.Length && sz <= U32_MAX && off <= U32_MAX && n <= U32_MAX
    ensures value == LoadAt(h[..], sz, off, n)
  {
    value := 0;
    if !Fits(sz, off, n) {
      return;
    }
    ghost var head := h[..];
    assert head[off + n..off + n] == [];
    var i := n;
    while i > 0
      invariant 0 <= i <= n
      invariant value == LittleEndian(head[off + i..off + n]) % U64
    {
      ghost var s := head[off + i - 1..off + n];
      assert s[0] == h[off + i - 1] && s[1..] == head[off + i..off + n];
      ShiftWraps(LittleEndian(head[off + i..off + n]), h[off + i - 1]);
      // The shift leaves the low byte clear, so the `or` is a sum.
      value := value * 0x100 % U64 + h[off + i - 1];
      i := i - 1;
    }
  }

  lemma {:induction false} ShiftWraps(x: nat, b: Byte)
    ensures (b + 0x100 * x) % U64 == x % U64 * 0x100 % U64 + b
  {
    var r := x % U64;
    var t := r * 0x100 % U64;
    var p := r * 0x100 / U64;
    assert t == 0x100 * (r - p * 0x100_0000_0000_0000);
    assert t + b < U64;
  }

  // The `k`th byte is the digit of weight 256 to the `k`, and above the last
  // there is nothing.
  lemma {:induction false} ByteWeights(s: seq<Byte>, k: nat)
    ensures LittleEndian(s) / Weight(k) % 0x100 == if k < |s| then s[k] else 0
    decreases k
  {
    if s == [] {
      assert 0 / Weight(k) == 0;
    } else {
      var rest := LittleEndian(s[1..]);
      assert (s[0] + 0x100 * rest) / 0x100 == rest;
      if k > 0 {
        ByteWeights(s[1..], k - 1);
        DivideTwice(LittleEndian(s), 0x100, Weight(k - 1));
      }
    }
  }

  function Weight(k: nat): (w: nat)
    ensures w > 0
  {
    if k == 0 then 1 else 0x100 * Weight(k - 1)
  }

  // Eight bytes or fewer lose nothing to the width.
  lemma {:induction false} ShortLoadIsExact(s: seq<Byte>)
    requires |s| <= 8
    ensures LittleEndian(s) < U64
  {
    var w := [1, 0x100, 0x1_0000, 0x100_0000, 0x1_0000_0000, 0x100_0000_0000, 0x1_0000_0000_0000,
        0x100_0000_0000_0000, U64];
    LittleEndianBound(s, w);
  }

  lemma {:induction false} LittleEndianBound(s: seq<Byte>, w: seq<nat>)
    requires |s| < |w| && w[0] == 1 && forall k :: 0 <= k < |w| - 1 ==> w[k + 1] == 0x100 * w[k]
    ensures LittleEndian(s) < w[|s|]
  {
    if s != [] { LittleEndianBound(s[1..], w); }
  }

  lemma {:induction false} ZerosLoadZero(s: seq<Byte>)
    requires forall k :: 0 <= k < |s| ==> s[k] == 0
    ensures LittleEndian(s) == 0
  {
    if s != [] { ZerosLoadZero(s[1..]); }
  }

  // -------------------------------------------------------------------
  // The members of a head, as they are collected.
  // -------------------------------------------------------------------

  datatype FieldSpec = FieldSpec(item: Item, optional: bool)

  datatype FlagBit = FlagBit(flags: nat, bit: nat)

  datatype Source = FieldAt(n: nat) | FlagsAt(k: nat)

  datatype Entry = Entry(item: Item, source: Source, presence: Option<FlagBit>)

  const FLAGS_ITEM := Item(1, 1, true)

  // Flags field `k` comes just before optional field number `8k + 1`.
  function Collect(fields: seq<FieldSpec>, at: nat, optionals: nat): seq<Entry> {
    if fields == [] then []
    else if fields[0].optional then
      (if optionals % 8 == 0 then [Entry(FLAGS_ITEM, FlagsAt(optionals / 8), None)] else []) +
      ([Entry(fields[0].item, FieldAt(at), Some(FlagBit(optionals / 8, optionals % 8)))] +
       Collect(fields[1..], at + 1, optionals + 1))
    else [Entry(fields[0].item, FieldAt(at), None)] + Collect(fields[1..], at + 1, optionals)
  }

  class Members {
    var items: seq<Entry>
    var optionals: nat

    constructor ()
      ensures items == [] && optionals == 0
    {
      items, optionals := [], 0;
    }

    method Push(at: nat, field: FieldSpec)
      modifies this
      ensures items == old(items) + Collect([field], at, old(optionals))
      ensures optionals == old(optionals) + (if field.optional then 1 else 0)
    {
      var presence: Option<FlagBit> := None;
      if field.optional {
        var n := optionals;
        if n % 8 == 0 {
          items := items + [Entry(FLAGS_ITEM, FlagsAt(n / 8), None)];
        }
        optionals := n + 1;
        presence := Some(FlagBit(n / 8, n % 8));
      }
      items := items + [Entry(field.item, FieldAt(at), presence)];
    }
  }

  method CollectMembers(fields: seq<FieldSpec>) returns (entries: seq<Entry>)
    ensures entries == Collect(fields, 0, 0)
  {
    var members := new Members();
    for k := 0 to |fields|
      invariant members.items == Collect(fields[..k], 0, 0)
      invariant members.optionals == Optionals(fields[..k])
      invariant fresh(members)
    {
      assert fields[..k + 1] == fields[..k] + [fields[k]];
      CollectAppends(fields[..k], [fields[k]], 0, 0);
      OptionalsAppend(fields[..k], [fields[k]]);
      members.Push(k, fields[k]);
    }
    assert fields[..|fields|] == fields;
    entries := members.items;
  }

  function Optionals(fields: seq<FieldSpec>): nat {
    if fields == [] then 0 else (if fields[0].optional then 1 else 0) + Optionals(fields[1..])
  }

  lemma {:induction false} OptionalsAppend(a: seq<FieldSpec>, b: seq<FieldSpec>)
    ensures Optionals(a + b) == Optionals(a) + Optionals(b)
  {
    if a == [] { assert a + b == b; } else {
      OptionalsAppend(a[1..], b);
      assert (a + b)[1..] == a[1..] + b;
    }
  }

  // An append leaves the members collected so far as they were.
  lemma {:induction false} CollectAppends(a: seq<FieldSpec>, b: seq<FieldSpec>, at: nat, optionals: nat)
    ensures Collect(a + b, at, optionals) ==
            Collect(a, at, optionals) + Collect(b, at + |a|, optionals + Optionals(a))
  {
    if a == [] {
      assert a + b == b;
    } else {
      assert (a + b)[1..] == a[1..] + b;
      CollectAppends(a[1..], b, at + 1, optionals + (if a[0].optional then 1 else 0));
    }
  }

  // Where a field's member is: its own item, and for an optional the bit of its
  // number among the optionals, eight to a flags field.
  ghost predicate IsEntryOf(e: Entry, f: FieldSpec, at: nat, optionals: nat) {
    && e.item == f.item && e.source == FieldAt(at)
    && (if f.optional then
          e.presence.Some? && e.presence.value.bit < 8 && 8 * e.presence.value.flags + e.presence.value.bit == optionals
        else e.presence.None?)
  }

  lemma {:induction false} FieldIsCollected(fields: seq<FieldSpec>, at: nat, optionals: nat, k: nat)
    returns (i: nat)
    requires k < |fields|
    ensures i < |Collect(fields, at, optionals)|
    ensures IsEntryOf(Collect(fields, at, optionals)[i], fields[k], at + k, optionals + Optionals(fields[..k]))
    ensures fields[k].optional && (optionals + Optionals(fields[..k])) % 8 == 0 ==>
              i > 0 && Collect(fields, at, optionals)[i - 1] ==
                       Entry(FLAGS_ITEM, FlagsAt((optionals + Optionals(fields[..k])) / 8), None)
  {
    var lead := if fields[0].optional && optionals % 8 == 0 then 1 else 0;
    if k == 0 {
      i := lead;
      assert fields[..0] == [];
    } else {
      i := FieldIsCollected(fields[1..], at + 1, optionals + (if fields[0].optional then 1 else 0), k - 1);
      i := i + lead + 1;
      assert fields[..k][0] == fields[0] && fields[..k][1..] == fields[1..][..k - 1];
    }
  }

  // The flags field that holds an optional's bit.
  lemma {:induction false} FlagsAreCollected(fields: seq<FieldSpec>, at: nat, optionals: nat, j: nat) returns (i: nat)
    requires optionals <= 8 * j < optionals + Optionals(fields)
    ensures i < |Collect(fields, at, optionals)| &&
            Collect(fields, at, optionals)[i] == Entry(FLAGS_ITEM, FlagsAt(j), None)
  {
    if fields[0].optional && optionals == 8 * j {
      i := 0;
    } else {
      var lead := if fields[0].optional && optionals % 8 == 0 then 1 else 0;
      i := FlagsAreCollected(fields[1..], at + 1, optionals + (if fields[0].optional then 1 else 0), j);
      i := i + lead + 1;
    }
  }

  // There are as many members as fields and flags fields, eight optionals or
  // part of eight to each.
  lemma {:induction false} MemberCount(fields: seq<FieldSpec>, at: nat, optionals: nat)
    ensures |Collect(fields, at, optionals)| ==
            |fields| + (optionals + Optionals(fields) + 7) / 8 - (optionals + 7) / 8
  {
    if fields != [] {
      MemberCount(fields[1..], at + 1, optionals + (if fields[0].optional then 1 else 0));
    }
  }

  function ItemsOf(entries: seq<Entry>): (r: seq<Item>)
    ensures |r| == |entries| && forall k :: 0 <= k < |r| ==> r[k] == entries[k].item
  {
    seq(|entries|, k requires 0 <= k < |entries| => entries[k].item)
  }

  // -------------------------------------------------------------------
  // What a producer writes.
  // -------------------------------------------------------------------

  function Power2(b: nat): nat {
    if b == 0 then 1 else 2 * Power2(b - 1)
  }

  // Bit `b` of flags field `k` says that optional field number `8k + b` is
  // present; the bits of no field are clear.
  function FlagsFrom(present: seq<bool>, first: nat, count: nat): nat {
    if count == 0 then 0
    else FlagsFrom(present, first, count - 1) +
         (if first + count - 1 < |present| && present[first + count - 1] then Power2(count - 1) else 0)
  }

  lemma {:induction false} FlagsBound(present: seq<bool>, first: nat, count: nat)
    ensures FlagsFrom(present, first, count) < Power2(count)
  {
    if count > 0 { FlagsBound(present, first, count - 1); }
  }

  function FlagsByte(present: seq<bool>, k: nat): Byte {
    FlagsBound(present, 8 * k, 8);
    assert Power2(8) == 0x100;
    FlagsFrom(present, 8 * k, 8)
  }

  // The value of each live field as bytes, and which optionals are present.
  datatype Payload = Payload(values: seq<seq<Byte>>, present: seq<bool>)

  predicate PayloadOf(p: Payload, fields: seq<FieldSpec>) {
    && |p.values| == |fields|
    && (forall k :: 0 <= k < |fields| ==> |p.values[k]| == fields[k].item.size)
    && |p.present| == Optionals(fields)
  }

  // The optional field of a bit is present.
  predicate IsPresent(p: Payload, bit: FlagBit) {
    8 * bit.flags + bit.bit < |p.present| && p.present[8 * bit.flags + bit.bit]
  }

  function Zeros(n: nat): (r: seq<Byte>)
    ensures |r| == n && forall k :: 0 <= k < n ==> r[k] == 0
  {
    seq(n, _ => 0)
  }

  // Every byte of an absent optional is zero, whatever its value would be.
  function EntryBytes(p: Payload, e: Entry): seq<Byte> {
    match e.source
    case FieldAt(n) =>
      if e.presence.Some? && !IsPresent(p, e.presence.value) then Zeros(e.item.size)
      else if n < |p.values| then p.values[n]
      else []
    case FlagsAt(k) => [FlagsByte(p.present, k)]
  }

  // The head a producer writes: each member's bytes at its offset, and zero in
  // every byte no member covers.
  ghost predicate IsEncoding(entries: seq<Entry>, offsets: seq<nat>, p: Payload, head: seq<Byte>)
    requires |offsets| == |entries|
  {
    && |head| == RoundUp(MaxEnd(ItemsOf(entries), offsets, |entries|), HEAD_ALIGN)
    && (forall i, j :: 0 <= i < |entries| && 0 <= j < |EntryBytes(p, entries[i])| && offsets[i] + j < |head| ==>
          head[offsets[i] + j] == EntryBytes(p, entries[i])[j])
    && (forall b :: 0 <= b < |head| && Uncovered(ItemsOf(entries), offsets, b) ==> head[b] == 0)
  }

  predicate Uncovered(items: seq<Item>, offsets: seq<nat>, b: nat)
    requires |offsets| == |items|
  {
    forall i :: 0 <= i < |items| ==> !(offsets[i] <= b < offsets[i] + items[i].size)
  }

  predicate BytesMatch(entries: seq<Entry>, p: Payload) {
    forall i :: 0 <= i < |entries| ==> |EntryBytes(p, entries[i])| == entries[i].item.size
  }

  lemma {:induction false} CollectedBytesMatch(fields: seq<FieldSpec>, at: nat, optionals: nat, p: Payload)
    requires at + |fields| == |p.values|
    requires forall k :: 0 <= k < |fields| ==> |p.values[at + k]| == fields[k].item.size
    ensures BytesMatch(Collect(fields, at, optionals), p)
  {
    if fields != [] {
      assert |p.values[at + 0]| == fields[0].item.size;
      forall k | 0 <= k < |fields[1..]| ensures |p.values[at + 1 + k]| == fields[1..][k].item.size {
        assert |p.values[at + (k + 1)]| == fields[k + 1].item.size;
      }
      CollectedBytesMatch(fields[1..], at + 1, optionals + (if fields[0].optional then 1 else 0), p);
    }
  }

  // The writer zeroes the head it reserves and stores each member in it. Two
  // members never share a byte, so no store undoes another.
  method EncodeHead(entries: seq<Entry>, offsets: seq<nat>, p: Payload) returns (head: seq<Byte>)
    requires FirstFit(ItemsOf(entries), offsets) && BytesMatch(entries, p)
    ensures IsEncoding(entries, offsets, p, head)
  {
    ghost var items := ItemsOf(entries);
    var size := RoundUp(MaxEnd(ItemsOf(entries), offsets, |entries|), HEAD_ALIGN);
    head := seq(size, _ => 0);
    for i := 0 to |entries|
      invariant |head| == size
      invariant forall a, j :: 0 <= a < i && 0 <= j < items[a].size ==>
                head[offsets[a] + j] == EntryBytes(p, entries[a])[j]
      invariant forall b :: 0 <= b < size && Uncovered(items, offsets, b) ==> head[b] == 0
    {
      var bytes := EntryBytes(p, entries[i]);
      ghost var before := head;
      head := head[..offsets[i]] + bytes + head[offsets[i] + |bytes|..];
      forall a, j | 0 <= a < i + 1 && 0 <= j < items[a].size
        ensures head[offsets[a] + j] == EntryBytes(p, entries[a])[j]
      {
        if a < i {
          assert Lowest(items, offsets, i);
          assert !Meets(items, offsets, a, offsets[i], items[i].size);
          assert head[offsets[a] + j] == before[offsets[a] + j];
        }
      }
    }
  }

  // -------------------------------------------------------------------
  // Reading a head another version of the type wrote.
  // -------------------------------------------------------------------

  // What an accessor sees: the bytes of a member that lies inside the head.
  function Read(head: seq<Byte>, off: nat, n: nat): Option<seq<Byte>> {
    if Fits(|head|, off, n) then Some(head[off..off + n]) else None
  }

  // A version of a type: its members and where the law puts them.
  ghost predicate IsVersion(fields: seq<FieldSpec>, entries: seq<Entry>, offsets: seq<nat>) {
    entries == Collect(fields, 0, 0) && FirstFit(ItemsOf(entries), offsets)
  }

  // The members two versions share are the older version's, at its offsets.
  lemma {:induction false} SharedMembers(
    fields: seq<FieldSpec>, more: seq<FieldSpec>, es: seq<Entry>, os: seq<nat>, es': seq<Entry>, os': seq<nat>)
    requires IsVersion(fields, es, os) && IsVersion(fields + more, es', os')
    ensures |es| <= |es'| && es'[..|es|] == es && os'[..|es|] == os
  {
    CollectAppends(fields, more, 0, 0);
    var tail := ItemsOf(es')[|es|..];
    assert ItemsOf(es') == ItemsOf(es) + tail by {
      forall k | 0 <= k < |es| ensures ItemsOf(es')[k] == ItemsOf(es)[k] { assert es'[k] == es[k]; }
    }
    AppendedItemsMoveNothing(ItemsOf(es), tail, os, os', |es|);
    assert os[..|es|] == os;
  }

  // Every member of the type a head was written for reads back as it was
  // written, at the offset either version of the type gives it.
  lemma {:induction false} OwnMembersReadBack(
    entries: seq<Entry>, offsets: seq<nat>, p: Payload, head: seq<Byte>, i: nat)
    requires FirstFit(ItemsOf(entries), offsets) && BytesMatch(entries, p) && IsEncoding(entries, offsets, p, head)
    requires i < |entries|
    ensures Read(head, offsets[i], entries[i].item.size) == Some(EntryBytes(p, entries[i]))
  {
    var size := entries[i].item.size;
    assert offsets[i] + size <= |head| by { assert ItemsOf(entries)[i].size == size; }
    assert head[offsets[i]..offsets[i] + size] == EntryBytes(p, entries[i]);
  }

  // A reader built from a longer type reads, from an older producer's head,
  // every member the two share as it was written; every appended member reads
  // as zero, or lies past the head, wherever first fit put it, pads included.
  lemma {:induction false} NewerReaderOlderHead(
    fields: seq<FieldSpec>, more: seq<FieldSpec>, es: seq<Entry>, os: seq<nat>, es': seq<Entry>, os': seq<nat>,
    p: Payload, head: seq<Byte>, i: nat)
    requires IsVersion(fields, es, os) && IsVersion(fields + more, es', os')
    requires PayloadOf(p, fields) && IsEncoding(es, os, p, head)
    requires i < |es'|
    ensures i < |es| ==>
              es'[i] == es[i] && Read(head, os'[i], es'[i].item.size) == Some(EntryBytes(p, es[i]))
    ensures i >= |es| ==> ReadsAsZero(head, os'[i], es'[i].item.size)
  {
    SharedMembers(fields, more, es, os, es', os');
    if i < |es| {
      assert es'[i] == es'[..|es|][i] && os'[i] == os'[..|es|][i];
      CollectedBytesMatch(fields, 0, 0, p);
      OwnMembersReadBack(es, os, p, head, i);
    } else {
      forall b | os'[i] <= b < os'[i] + es'[i].item.size && b < |head| ensures head[b] == 0 {
        AppendedBytesAreUncovered(es, os, es', os', i, b);
      }
      forall off: nat, n: nat | os'[i] <= off && off + n <= os'[i] + es'[i].item.size
        ensures LoadAt(head, |head|, off, n) == 0 && NothingToRead(head, off, n)
      {
        ZeroBytesReadZero(head, off, n);
      }
    }
  }

  // Whatever part of a member is loaded, it is past the head or zero.
  ghost predicate ReadsAsZero(head: seq<Byte>, at: nat, size: nat) {
    forall off: nat, n: nat :: at <= off && off + n <= at + size ==>
      LoadAt(head, |head|, off, n) == 0 && NothingToRead(head, off, n)
  }

  // The member is past the head, or all its bytes are zero.
  ghost predicate NothingToRead(head: seq<Byte>, off: nat, n: nat) {
    match Read(head, off, n)
    case None => true
    case Some(bytes) => forall j :: 0 <= j < n ==> bytes[j] == 0
  }

  lemma {:induction false} ZeroBytesReadZero(head: seq<Byte>, off: nat, n: nat)
    requires forall b :: off <= b < off + n && b < |head| ==> head[b] == 0
    ensures LoadAt(head, |head|, off, n) == 0 && NothingToRead(head, off, n)
  {
    if Fits(|head|, off, n) {
      ZerosLoadZero(head[off..off + n]);
    }
  }

  lemma {:induction false} AppendedBytesAreUncovered(
    es: seq<Entry>, os: seq<nat>, es': seq<Entry>, os': seq<nat>, i: nat, b: nat)
    requires |os| == |es| && FirstFit(ItemsOf(es'), os')
    requires |es| <= i < |es'| && es'[..|es|] == es && os'[..|es|] == os
    requires os'[i] <= b < os'[i] + es'[i].item.size
    ensures Uncovered(ItemsOf(es), os, b)
  {
    assert Lowest(ItemsOf(es'), os', i);
    forall a | 0 <= a < |es| ensures !(os[a] <= b < os[a] + es[a].item.size) {
      assert es'[a] == es'[..|es|][a] && os'[a] == os'[..|es|][a];
      assert !Meets(ItemsOf(es'), os', a, os'[i], es'[i].item.size);
    }
  }

  // A reader built from a shorter type reads the members it knows from the
  // head of a newer producer unchanged.
  lemma {:induction false} OlderReaderNewerHead(
    fields: seq<FieldSpec>, more: seq<FieldSpec>, es: seq<Entry>, os: seq<nat>, es': seq<Entry>, os': seq<nat>,
    p: Payload, head: seq<Byte>, i: nat)
    requires IsVersion(fields, es, os) && IsVersion(fields + more, es', os')
    requires PayloadOf(p, fields + more) && IsEncoding(es', os', p, head)
    requires i < |es|
    ensures Read(head, os[i], es[i].item.size) == Some(EntryBytes(p, es[i]))
  {
    SharedMembers(fields, more, es, os, es', os');
    assert es'[i] == es'[..|es|][i] && os'[i] == os'[..|es|][i];
    CollectedBytesMatch(fields + more, 0, 0, p);
    OwnMembersReadBack(es', os', p, head, i);
  }

  lemma {:induction false} ZeroMemberReadsAsZero(head: seq<Byte>, at: nat, size: nat)
    requires Read(head, at, size) == Some(Zeros(size))
    ensures ReadsAsZero(head, at, size)
  {
    forall b | at <= b < at + size && b < |head| ensures head[b] == 0 {
      assert head[b] == head[at..at + size][b - at];
    }
    forall off: nat, n: nat | at <= off && off + n <= at + size
      ensures LoadAt(head, |head|, off, n) == 0 && NothingToRead(head, off, n)
    {
      ZeroBytesReadZero(head, off, n);
    }
  }

  // The accessor of an optional field the producer left absent, or does not
  // have, reads zero: as a number 0, as a descriptor one of nothing.
  lemma {:induction false} AbsentReadsAsZero(
    fields: seq<FieldSpec>, more: seq<FieldSpec>, es: seq<Entry>, os: seq<nat>, es': seq<Entry>, os': seq<nat>,
    p: Payload, head: seq<Byte>, i: nat)
    requires IsVersion(fields, es, os) && IsVersion(fields + more, es', os')
    requires PayloadOf(p, fields) && IsEncoding(es, os, p, head)
    requires i < |es'| && es'[i].source.FieldAt? && es'[i].presence.Some? && !IsPresent(p, es'[i].presence.value)
    ensures ReadsAsZero(head, os'[i], es'[i].item.size)
  {
    NewerReaderOlderHead(fields, more, es, os, es', os', p, head, i);
    if i < |es| { ZeroMemberReadsAsZero(head, os'[i], es'[i].item.size); }
  }

  lemma {:induction false} AbsentForOlderReader(
    fields: seq<FieldSpec>, more: seq<FieldSpec>, es: seq<Entry>, os: seq<nat>, es': seq<Entry>, os': seq<nat>,
    p: Payload, head: seq<Byte>, i: nat)
    requires IsVersion(fields, es, os) && IsVersion(fields + more, es', os')
    requires PayloadOf(p, fields + more) && IsEncoding(es', os', p, head)
    requires i < |es| && es[i].source.FieldAt? && es[i].presence.Some? && !IsPresent(p, es[i].presence.value)
    ensures ReadsAsZero(head, os[i], es[i].item.size)
  {
    OlderReaderNewerHead(fields, more, es, os, es', os', p, head, i);
    ZeroMemberReadsAsZero(head, os[i], es[i].item.size);
  }

  // -------------------------------------------------------------------
  // Presence.
  // -------------------------------------------------------------------

  // The test of an accessor: the flags byte shifted down, its lowest bit.
  function TestBit(value: nat, bit: nat): bool {
    PowerPositive(bit);
    value / Power2(bit) % 2 == 1
  }

  lemma {:induction false} PowerPositive(b: nat)
    ensures Power2(b) > 0
  {
    if b > 0 { PowerPositive(b - 1); }
  }

  lemma {:induction false} FlagsTest(present: seq<bool>, first: nat, count: nat, bit: nat)
    requires bit < count
    ensures TestBit(FlagsFrom(present, first, count), bit) == (first + bit < |present| && present[first + bit])
    decreases count
  {
    var low := FlagsFrom(present, first, count - 1);
    var isSet := first + count - 1 < |present| && present[first + count - 1];
    assert FlagsFrom(present, first, count) == low + (if isSet then Power2(count - 1) else 0);
    if bit == count - 1 {
      FlagsBound(present, first, bit);
      TopFlag(low, bit, isSet);
    } else {
      FlagsTest(present, first, count - 1, bit);
      HighBitIsEven(low, bit, count - 1);
    }
  }

  lemma {:induction false} TopFlag(low: nat, bit: nat, isSet: bool)
    requires low < Power2(bit)
    ensures TestBit(low + (if isSet then Power2(bit) else 0), bit) == isSet
  {
    TopBit(low, Power2(bit));
  }

  lemma {:induction false} TopBit(low: nat, p: nat)
    requires low < p
    ensures low / p == 0 && (low + p) / p == 1
  {
    DivisionIsUnique(low + p, p, 1, low);
  }

  // Adding a higher power of two does not change a lower bit.
  lemma {:induction false} HighBitIsEven(x: nat, bit: nat, high: nat)
    requires bit < high
    ensures TestBit(x + Power2(high), bit) == TestBit(x, bit)
    decreases bit
  {
    PowerPositive(bit);
    var half := Power2(high - 1);
    if bit == 0 {
      assert x + Power2(high) == x + 2 * half;
    } else {
      HighBitIsEven(x / 2, bit - 1, high - 1);
      DivideTwice(x, 2, Power2(bit - 1));
      DivideTwice(x + Power2(high), 2, Power2(bit - 1));
      assert (x + Power2(high)) / 2 == x / 2 + half;
    }
  }

  lemma {:induction false} FlagsByteTest(p: Payload, k: nat, bit: nat)
    requires bit < 8
    ensures TestBit(FlagsByte(p.present, k), bit) <==> 8 * k + bit < |p.present| && p.present[8 * k + bit]
  {
    FlagsTest(p.present, 8 * k, 8, bit);
  }

  // A flags field opened by an append holds only appended optionals.
  lemma {:induction false} AppendedFlags(more: seq<FieldSpec>, at: nat, optionals: nat, i: nat)
    requires i < |Collect(more, at, optionals)| && Collect(more, at, optionals)[i].source.FlagsAt?
    ensures optionals <= 8 * Collect(more, at, optionals)[i].source.k
    ensures Collect(more, at, optionals)[i].item == FLAGS_ITEM
  {
    var lead := if more[0].optional && optionals % 8 == 0 then 2 else 1;
    if i >= lead {
      AppendedFlags(more[1..], at + 1, optionals + (if more[0].optional then 1 else 0), i - lead);
    }
  }

  // The presence test of the reader's optional field `8k + bit`, on the flags
  // field of a head that an older version's producer wrote, is true exactly
  // when the producer has that field and wrote it: an appended field reads as
  // absent, whether its bit went into an existing flags field or a new one.
  lemma {:induction false} PresenceAcrossVersions(
    fields: seq<FieldSpec>, more: seq<FieldSpec>, es: seq<Entry>, os: seq<nat>, es': seq<Entry>, os': seq<nat>,
    p: Payload, head: seq<Byte>, i: nat, bit: nat)
    requires IsVersion(fields, es, os) && IsVersion(fields + more, es', os')
    requires PayloadOf(p, fields) && IsEncoding(es, os, p, head)
    requires i < |es'| && es'[i].source.FlagsAt? && bit < 8
    ensures var n := 8 * es'[i].source.k + bit;
            TestBit(LoadAt(head, |head|, os'[i], 1), bit) <==> n < |p.present| && p.present[n]
  {
    AppendedFlags(fields + more, 0, 0, i);
    NewerReaderOlderHead(fields, more, es, os, es', os', p, head, i);
    if i < |es| {
      LoadOfOneByte(head, os'[i], FlagsByte(p.present, es[i].source.k));
      FlagsByteTest(p, es[i].source.k, bit);
    } else {
      ZeroHasNoBit(bit);
      AppendedFlagsAreUnknown(fields, more, i);
    }
  }

  // The other way about: on the head of a newer producer, the presence test of
  // an older reader's optional field is true exactly when the producer wrote
  // that field, whatever bits appended fields have put beside it.
  lemma {:induction false} PresenceForOlderReader(
    fields: seq<FieldSpec>, more: seq<FieldSpec>, es: seq<Entry>, os: seq<nat>, es': seq<Entry>, os': seq<nat>,
    p: Payload, head: seq<Byte>, i: nat, bit: nat)
    requires IsVersion(fields, es, os) && IsVersion(fields + more, es', os')
    requires PayloadOf(p, fields + more) && IsEncoding(es', os', p, head)
    requires i < |es| && es[i].source.FlagsAt? && bit < 8
    ensures var n := 8 * es[i].source.k + bit;
            TestBit(LoadAt(head, |head|, os[i], 1), bit) <==> n < |p.present| && p.present[n]
  {
    AppendedFlags(fields, 0, 0, i);
    OlderReaderNewerHead(fields, more, es, os, es', os', p, head, i);
    LoadOfOneByte(head, os[i], FlagsByte(p.present, es[i].source.k));
    FlagsByteTest(p, es[i].source.k, bit);
  }

  // Of an optional field of the reader's type: the bit its member names, in the
  // flags field its member names, says whether the producer wrote the field of
  // its number among the optionals.
  lemma {:induction false} PresenceOfField(
    fields: seq<FieldSpec>, more: seq<FieldSpec>, es: seq<Entry>, os: seq<nat>, es': seq<Entry>, os': seq<nat>,
    p: Payload, head: seq<Byte>, k: nat) returns (e: nat, g: nat)
    requires IsVersion(fields, es, os) && IsVersion(fields + more, es', os')
    requires PayloadOf(p, fields) && IsEncoding(es, os, p, head)
    requires k < |fields + more| && (fields + more)[k].optional
    ensures e < |es'| && es'[e].source == FieldAt(k) && es'[e].item == (fields + more)[k].item && es'[e].presence.Some?
    ensures g < |es'| && es'[g].source == FlagsAt(es'[e].presence.value.flags)
    ensures var number := Optionals((fields + more)[..k]);
            TestBit(LoadAt(head, |head|, os'[g], 1), es'[e].presence.value.bit) <==>
            number < |p.present| && p.present[number]
  {
    var all := fields + more;
    e := FieldIsCollected(all, 0, 0, k);
    assert all == all[..k] + all[k..];
    OptionalsAppend(all[..k], all[k..]);
    g := FlagsAreCollected(all, 0, 0, es'[e].presence.value.flags);
    PresenceAcrossVersions(fields, more, es, os, es', os', p, head, g, es'[e].presence.value.bit);
  }

  lemma {:induction false} LoadOfOneByte(head: seq<Byte>, off: nat, b: Byte)
    requires Read(head, off, 1) == Some([b])
    ensures LoadAt(head, |head|, off, 1) == b
  {
    assert head[off..off + 1] == [b];
    assert LittleEndian([b]) == b + 0x100 * LittleEndian([b][1..]);
  }

  lemma {:induction false} ZeroHasNoBit(bit: nat)
    ensures !TestBit(0, bit)
  {
    PowerPositive(bit);
    DivisionIsUnique(0, Power2(bit), 0, 0);
  }

  lemma {:induction false} AppendedFlagsAreUnknown(fields: seq<FieldSpec>, more: seq<FieldSpec>, i: nat)
    requires |Collect(fields, 0, 0)| <= i < |Collect(fields + more, 0, 0)|
    requires Collect(fields + more, 0, 0)[i].source.FlagsAt?
    ensures Optionals(fields) <= 8 * Collect(fields + more, 0, 0)[i].source.k
  {
    CollectAppends(fields, more, 0, 0);
    AppendedFlags(more, |fields|, Optionals(fields), i - |Collect(fields, 0, 0)|);
  }
}
