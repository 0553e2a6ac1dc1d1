// Typed accessors over a syntax node's children: when the generator may find a
// child by its position among the children of its type, and what such an
// accessor returns over every tree its grammar rule derives.
module PositionalAccessors {
  import opened Common

  type Tag = Option<string>

  datatype Rule =
    | Labeled(tag: string, rule: Rule)
    | Node(name: string)
    | Token(name: string)
    | Seq(rules: seq<Rule>)
    | Alt(rules: seq<Rule>)
    | Opt(rule: Rule)
    | Rep(rule: Rule)

  datatype Target = ToNode(name: string) | ToToken(name: string)

  datatype Entry = Entry(tag: Tag, target: Target, repeated: bool, optional: bool)

  // -------------------------------------------------------------------
  // The references of a rule body.
  // -------------------------------------------------------------------

  function Entries(rule: Rule, tag: Tag, repeated: bool, optional: bool): seq<Entry>
    decreases rule, 0
  {
    match rule
    case Labeled(name, inner) => Entries(inner, Some(name), repeated, optional)
    case Node(name) => [Entry(tag, ToNode(name), repeated, optional)]
    case Token(name) => [Entry(tag, ToToken(name), repeated, optional)]
    case Seq(rules) => EntriesOf(rules, repeated, optional)
    case Alt(rules) => EntriesOf(rules, repeated, true)
    case Opt(inner) => Entries(inner, tag, repeated, true)
    case Rep(inner) => Entries(inner, tag, true, optional)
  }

  function EntriesOf(rules: seq<Rule>, repeated: bool, optional: bool): seq<Entry>
    decreases rules
  {
    if rules == [] then []
    else Entries(rules[0], None, repeated, optional) + EntriesOf(rules[1..], repeated, optional)
  }

  // Appends the references of `rule` to those collected before it.
  method Collect(rule: Rule, tag: Tag, repeated: bool, optional: bool, out: seq<Entry>) returns (grown: seq<Entry>)
    ensures grown == out + Entries(rule, tag, repeated, optional)
    decreases rule
  {
    match rule
    case Labeled(name, inner) =>
      grown := Collect(inner, Some(name), repeated, optional, out);
    case Node(name) =>
      grown := out + [Entry(tag, ToNode(name), repeated, optional)];
    case Token(name) =>
      grown := out + [Entry(tag, ToToken(name), repeated, optional)];
    case Seq(rules) =>
      grown := CollectEach(rule, rules, repeated, optional, out);
    case Alt(rules) =>
      grown := CollectEach(rule, rules, repeated, true, out);
    case Opt(inner) =>
      grown := Collect(inner, tag, repeated, true, out);
    case Rep(inner) =>
      grown := Collect(inner, tag, true, optional, out);
  }

  method CollectEach(ghost whole: Rule, rules: seq<Rule>, repeated: bool, optional: bool, out: seq<Entry>)
    returns (grown: seq<Entry>)
    requires whole == Seq(rules) || whole == Alt(rules)
    ensures grown == out + EntriesOf(rules, repeated, optional)
    decreases whole, 0
  {
    grown := out;
    assert rules[0..] == rules;
    for k := 0 to |rules|
      invariant grown + EntriesOf(rules[k..], repeated, optional) == out + EntriesOf(rules, repeated, optional)
    {
      assert rules[k..][0] == rules[k] && rules[k..][1..] == rules[k + 1..];
      ghost var before := grown;
      grown := Collect(rules[k], None, repeated, optional, grown);
      assert grown + EntriesOf(rules[k + 1..], repeated, optional) ==
             before + EntriesOf(rules[k..], repeated, optional);
    }
  }

  // -------------------------------------------------------------------
  // Merging the references of one label and type.
  // -------------------------------------------------------------------

  predicate SameKey(a: Entry, b: Entry) {
    a.tag == b.tag && a.target == b.target
  }

  function AnyRepeated(entries: seq<Entry>, e: Entry): bool {
    exists k :: 0 <= k < |entries| && SameKey(entries[k], e) && entries[k].repeated
  }

  function AllOptional(entries: seq<Entry>, e: Entry): bool {
    forall k :: 0 <= k < |entries| && SameKey(entries[k], e) ==> entries[k].optional
  }

  function Without(entries: seq<Entry>, e: Entry): (r: seq<Entry>)
    ensures |r| <= |entries|
  {
    if entries == [] then []
    else if SameKey(entries[0], e) then Without(entries[1..], e)
    else [entries[0]] + Without(entries[1..], e)
  }

  // One entry for each label and type, in order of first mention: repeated if
  // any of its mentions is, optional if all are.
  function Merged(entries: seq<Entry>): seq<Entry>
    decreases |entries|
  {
    if entries == [] then []
    else
      [Mention(entries, entries[0])] + Merged(Without(entries[1..], entries[0]))
  }

  function Mention(entries: seq<Entry>, e: Entry): Entry {
    Entry(e.tag, e.target, AnyRepeated(entries, e), AllOptional(entries, e))
  }

  // The first of `merged` with the key of `e`, its length when there is none.
  function Where(merged: seq<Entry>, e: Entry): (i: nat)
    ensures i <= |merged|
    ensures i < |merged| ==> SameKey(merged[i], e)
    ensures forall k :: 0 <= k < i ==> !SameKey(merged[k], e)
  {
    if merged == [] || SameKey(merged[0], e) then 0 else 1 + Where(merged[1..], e)
  }

  function Absorb(merged: seq<Entry>, e: Entry): seq<Entry> {
    var i := Where(merged, e);
    if i < |merged| then
      merged[i := Both(merged[i], e)]
    else merged + [e]
  }

  method Merge(entries: seq<Entry>) returns (merged: seq<Entry>)
    ensures merged == Merged(entries)
  {
    merged := [];
    for k := 0 to |entries|
      invariant merged == Merged(entries[..k])
    {
      var entry := entries[k];
      assert entries[..k + 1] == entries[..k] + [entry];
      MergedOneMore(entries[..k], entry);
      var i := Where(merged, entry);
      if i < |merged| {
        var existing := merged[i];
        merged := merged[i := existing.(repeated := existing.repeated || entry.repeated,
                                        optional := existing.optional && entry.optional)];
      } else {
        merged := merged + [entry];
      }
    }
    assert entries[..|entries|] == entries;
  }

  function Both(a: Entry, e: Entry): Entry {
    a.(repeated := a.repeated || e.repeated, optional := a.optional && e.optional)
  }

  lemma {:induction false} AbsorbHead(h: Entry, tail: seq<Entry>, e: Entry)
    ensures Absorb([h] + tail, e) == if SameKey(h, e) then [Both(h, e)] + tail else [h] + Absorb(tail, e)
  {
    assert ([h] + tail)[1..] == tail;
  }

  lemma {:induction false} MergedOneMore(entries: seq<Entry>, e: Entry)
    ensures Merged(entries + [e]) == Absorb(Merged(entries), e)
    decreases |entries|
  {
    var all := entries + [e];
    if entries == [] {
      assert all == [e];
      FlagsOneMore([], e, e);
      assert Without(all[1..], e) == [];
      assert Mention(all, e) == e;
    } else {
      var f, rest := entries[0], entries[1..];
      assert all[0] == f && all[1..] == rest + [e];
      WithoutOneMore(rest, e, f);
      FlagsOneMore(entries, e, f);
      AbsorbHead(Mention(entries, f), Merged(Without(rest, f)), e);
      if !SameKey(e, f) { MergedOneMore(Without(rest, f), e); }
    }
  }

  lemma {:induction false} WithoutOneMore(entries: seq<Entry>, e: Entry, f: Entry)
    ensures Without(entries + [e], f) == if SameKey(e, f) then Without(entries, f) else Without(entries, f) + [e]
  {
    if entries == [] {
      assert entries + [e] == [e];
    } else {
      assert (entries + [e])[1..] == entries[1..] + [e];
      WithoutOneMore(entries[1..], e, f);
    }
  }

  lemma {:induction false} FlagsOneMore(entries: seq<Entry>, e: Entry, f: Entry)
    ensures AnyRepeated(entries + [e], f) == (AnyRepeated(entries, f) || (SameKey(e, f) && e.repeated))
    ensures AllOptional(entries + [e], f) == (AllOptional(entries, f) && (SameKey(e, f) ==> e.optional))
  {
    var all := entries + [e];
    assert all[|entries|] == e && forall k :: 0 <= k < |entries| ==> all[k] == entries[k];
  }

  // -------------------------------------------------------------------
  // The references to one type.
  // -------------------------------------------------------------------

  function Nodes(entries: seq<Entry>): seq<Entry> {
    if entries == [] then []
    else if entries[0].target.ToNode? then [entries[0]] + Nodes(entries[1..])
    else Nodes(entries[1..])
  }

  function Naming(entries: seq<Entry>, ty: string): (r: seq<Entry>)
    ensures forall k :: 0 <= k < |r| ==> r[k].target == ToNode(ty)
  {
    if entries == [] then []
    else if entries[0].target == ToNode(ty) then [entries[0]] + Naming(entries[1..], ty)
    else Naming(entries[1..], ty)
  }

  // The references to one type, merged.
  function Group(body: Rule, ty: string): seq<Entry> {
    Naming(Merged(Nodes(Entries(body, None, false, false))), ty)
  }

  // Every occurrence but the last is mandatory, and none is repeated.
  predicate PositionalIsSound(group: seq<Entry>)
    requires group != []
  {
    && (forall k :: 0 <= k < |group| ==> !group[k].repeated)
    && (forall k :: 0 <= k < |group| - 1 ==> !group[k].optional)
  }

  // -------------------------------------------------------------------
  // Merging and grouping commute.
  // -------------------------------------------------------------------

  lemma {:induction false} NamingOfNodes(entries: seq<Entry>, ty: string)
    ensures Naming(Nodes(entries), ty) == Naming(entries, ty)
  {
    if entries != [] { NamingOfNodes(entries[1..], ty); }
  }

  lemma {:induction false} NamingWithout(entries: seq<Entry>, e: Entry, ty: string)
    ensures Naming(Without(entries, e), ty) ==
            if e.target == ToNode(ty) then Without(Naming(entries, ty), e) else Naming(entries, ty)
  {
    if entries != [] { NamingWithout(entries[1..], e, ty); }
  }

  lemma {:induction false} FlagsOfNaming(entries: seq<Entry>, e: Entry, ty: string)
    requires e.target == ToNode(ty)
    ensures AnyRepeated(Naming(entries, ty), e) == AnyRepeated(entries, e)
    ensures AllOptional(Naming(entries, ty), e) == AllOptional(entries, e)
  {
    if entries != [] {
      FlagsOfNaming(entries[1..], e, ty);
      FlagsFirst(entries, e);
      if entries[0].target == ToNode(ty) {
        assert Naming(entries, ty)[1..] == Naming(entries[1..], ty);
        FlagsFirst(Naming(entries, ty), e);
      }
    }
  }

  lemma {:induction false} FlagsFirst(entries: seq<Entry>, e: Entry)
    requires entries != []
    ensures AnyRepeated(entries, e) == ((SameKey(entries[0], e) && entries[0].repeated) || AnyRepeated(entries[1..], e))
    ensures AllOptional(entries, e) ==
            ((SameKey(entries[0], e) ==> entries[0].optional) && AllOptional(entries[1..], e))
  {
    assert entries == [entries[0]] + entries[1..];
  }

  lemma {:induction false} MergedNaming(entries: seq<Entry>, ty: string)
    ensures Naming(Merged(entries), ty) == Merged(Naming(entries, ty))
    decreases |entries|
  {
    if entries != [] {
      var e := entries[0];
      var rest := Without(entries[1..], e);
      MergedNaming(rest, ty);
      NamingWithout(entries[1..], e, ty);
      assert Merged(entries)[1..] == Merged(rest);
      if e.target == ToNode(ty) {
        assert Naming(entries, ty)[1..] == Naming(entries[1..], ty);
        FlagsOfNaming(entries, e, ty);
      }
    }
  }

  // -------------------------------------------------------------------
  // What a rule derives.
  // -------------------------------------------------------------------

  // The kinds of node a type accepts: its own, or the alternatives of a pure
  // alternation.
  type Kinds = string -> set<string>

  datatype Derivation =
    | One(kind: string)
    | Parts(parts: seq<Derivation>)
    | Branch(index: nat, taken: Derivation)
    | Missing
    | Present(inner: Derivation)

  predicate Fits(kinds: Kinds, rule: Rule, d: Derivation)
    decreases d, rule
  {
    match rule
    case Labeled(_, inner) => Fits(kinds, inner, d)
    case Node(name) => d.One? && d.kind in kinds(name)
    case Token(_) => d.One?
    case Seq(rules) =>
      d.Parts? && |d.parts| == |rules| && forall k :: 0 <= k < |rules| ==> Fits(kinds, rules[k], d.parts[k])
    case Alt(rules) => d.Branch? && d.index < |rules| && Fits(kinds, rules[d.index], d.taken)
    case Opt(inner) => d.Missing? || (d.Present? && Fits(kinds, inner, d.inner))
    case Rep(inner) => d.Parts? && forall k :: 0 <= k < |d.parts| ==> Fits(kinds, inner, d.parts[k])
  }

  // A child node: the label and type of the reference it stands for, and the
  // kind it has.
  datatype Kid = Kid(tag: Tag, ty: string, kind: string)

  // The child nodes of a derivation, in source order.
  function Kids(rule: Rule, tag: Tag, d: Derivation): seq<Kid>
    decreases d, rule, 0
  {
    match rule
    case Labeled(name, inner) => Kids(inner, Some(name), d)
    case Node(name) => if d.One? then [Kid(tag, name, d.kind)] else []
    case Token(_) => []
    case Seq(rules) => if d.Parts? && |d.parts| == |rules| then KidsOf(rules, d.parts) else []
    case Alt(rules) => if d.Branch? && d.index < |rules| then Kids(rules[d.index], None, d.taken) else []
    case Opt(inner) => if d.Present? then Kids(inner, tag, d.inner) else []
    case Rep(inner) => if d.Parts? then KidsEach(inner, tag, d.parts) else []
  }

  function KidsOf(rules: seq<Rule>, parts: seq<Derivation>): seq<Kid>
    requires |parts| == |rules|
    decreases parts
  {
    if rules == [] then [] else Kids(rules[0], None, parts[0]) + KidsOf(rules[1..], parts[1..])
  }

  function KidsEach(rule: Rule, tag: Tag, parts: seq<Derivation>): seq<Kid>
    decreases parts
  {
    if parts == [] then [] else Kids(rule, tag, parts[0]) + KidsEach(rule, tag, parts[1..])
  }

  // The children that cast to a type.
  function Cast(kinds: Kinds, kids: seq<Kid>, ty: string): seq<Kid> {
    if kids == [] then []
    else if kids[0].kind in kinds(ty) then [kids[0]] + Cast(kinds, kids[1..], ty)
    else Cast(kinds, kids[1..], ty)
  }

  // The child an accessor returns.
  function Nth(kinds: Kinds, kids: seq<Kid>, ty: string, index: nat): Option<Kid> {
    var cast := Cast(kinds, kids, ty);
    if index < |cast| then Some(cast[index]) else None
  }

  // -------------------------------------------------------------------
  // The children of a type are picked, in order, from the references to it.
  // -------------------------------------------------------------------

  function OfType(kids: seq<Kid>, ty: string): seq<Kid> {
    if kids == [] then []
    else if kids[0].ty == ty then [kids[0]] + OfType(kids[1..], ty)
    else OfType(kids[1..], ty)
  }

  predicate Selected(entries: seq<Entry>, kids: seq<Kid>) {
    if entries == [] then kids == []
    else
      || (kids != [] && kids[0].tag == entries[0].tag && Selected(entries[1..], kids[1..]))
      || (entries[0].optional && Selected(entries[1..], kids))
  }

  predicate Unrepeated(entries: seq<Entry>) {
    forall k :: 0 <= k < |entries| ==> !entries[k].repeated
  }

  lemma {:induction false} OfTypeAppend(a: seq<Kid>, b: seq<Kid>, ty: string)
    ensures OfType(a + b, ty) == OfType(a, ty) + OfType(b, ty)
  {
    if a == [] {
      assert a + b == b;
    } else {
      OfTypeAppend(a[1..], b, ty);
      assert (a + b)[1..] == a[1..] + b;
    }
  }

  lemma {:induction false} NamingAppend(a: seq<Entry>, b: seq<Entry>, ty: string)
    ensures Naming(a + b, ty) == Naming(a, ty) + Naming(b, ty)
  {
    if a == [] {
      assert a + b == b;
    } else {
      NamingAppend(a[1..], b, ty);
      assert (a + b)[1..] == a[1..] + b;
    }
  }

  lemma {:induction false} SelectedAppend(a: seq<Entry>, s: seq<Kid>, b: seq<Entry>, t: seq<Kid>)
    requires Selected(a, s) && Selected(b, t)
    ensures Selected(a + b, s + t)
  {
    if a == [] {
      assert a + b == b && s + t == t;
    } else {
      assert (a + b)[0] == a[0] && (a + b)[1..] == a[1..] + b;
      if s != [] && s[0].tag == a[0].tag && Selected(a[1..], s[1..]) {
        SelectedAppend(a[1..], s[1..], b, t);
        assert (s + t)[0] == s[0] && (s + t)[1..] == s[1..] + t;
      } else {
        SelectedAppend(a[1..], s, b, t);
      }
    }
  }

  lemma {:induction false} NoneSelected(entries: seq<Entry>)
    requires forall k :: 0 <= k < |entries| ==> entries[k].optional
    ensures Selected(entries, [])
  {
    if entries != [] { NoneSelected(entries[1..]); }
  }

  // What stands under an alternation or an option is optional.
  lemma {:induction false} UnderOption(rule: Rule, tag: Tag, repeated: bool)
    ensures forall e :: e in Entries(rule, tag, repeated, true) ==> e.optional
    decreases rule, 0
  {
    match rule
    case Labeled(name, inner) => UnderOption(inner, Some(name), repeated);
    case Node(_) =>
    case Token(_) =>
    case Seq(rules) => AllUnderOption(rules, repeated);
    case Alt(rules) => AllUnderOption(rules, repeated);
    case Opt(inner) => UnderOption(inner, tag, repeated);
    case Rep(inner) => UnderOption(inner, tag, true);
  }

  lemma {:induction false} AllUnderOption(rules: seq<Rule>, repeated: bool)
    ensures forall e :: e in EntriesOf(rules, repeated, true) ==> e.optional
    decreases rules
  {
    if rules != [] {
      UnderOption(rules[0], None, repeated);
      AllUnderOption(rules[1..], repeated);
    }
  }

  // What stands under a repetition is repeated.
  lemma {:induction false} UnderRepetition(rule: Rule, tag: Tag, optional: bool)
    ensures forall e :: e in Entries(rule, tag, true, optional) ==> e.repeated
    decreases rule, 0
  {
    match rule
    case Labeled(name, inner) => UnderRepetition(inner, Some(name), optional);
    case Node(_) =>
    case Token(_) =>
    case Seq(rules) => AllUnderRepetition(rules, optional);
    case Alt(rules) => AllUnderRepetition(rules, true);
    case Opt(inner) => UnderRepetition(inner, tag, true);
    case Rep(inner) => UnderRepetition(inner, tag, optional);
  }

  lemma {:induction false} AllUnderRepetition(rules: seq<Rule>, optional: bool)
    ensures forall e :: e in EntriesOf(rules, true, optional) ==> e.repeated
    decreases rules
  {
    if rules != [] {
      UnderRepetition(rules[0], None, optional);
      AllUnderRepetition(rules[1..], optional);
    }
  }

  lemma {:induction false} NamingMembers(entries: seq<Entry>, ty: string)
    ensures forall e :: e in Naming(entries, ty) ==> e in entries
  {
    if entries != [] { NamingMembers(entries[1..], ty); }
  }

  // A type a rule does not reference has no child.
  lemma {:induction false} NoReferenceNoKid(
    rule: Rule, tag: Tag, repeated: bool, optional: bool, d: Derivation, ty: string)
    requires Naming(Entries(rule, tag, repeated, optional), ty) == []
    ensures OfType(Kids(rule, tag, d), ty) == []
    decreases d, rule, 0
  {
    match rule
    case Labeled(name, inner) => NoReferenceNoKid(inner, Some(name), repeated, optional, d, ty);
    case Node(_) =>
    case Token(_) =>
    case Seq(rules) =>
      if d.Parts? && |d.parts| == |rules| { NoReferenceNoKids(rules, repeated, optional, d.parts, ty); }
    case Alt(rules) =>
      if d.Branch? && d.index < |rules| {
        BranchUnreferenced(rules, repeated, true, d.index, ty);
        NoReferenceNoKid(rules[d.index], None, repeated, true, d.taken, ty);
      }
    case Opt(inner) =>
      if d.Present? { NoReferenceNoKid(inner, tag, repeated, true, d.inner, ty); }
    case Rep(inner) =>
      if d.Parts? { NoReferenceNoRound(inner, tag, optional, d.parts, ty); }
  }

  lemma {:induction false} NoReferenceNoKids(
    rules: seq<Rule>, repeated: bool, optional: bool, parts: seq<Derivation>, ty: string)
    requires |parts| == |rules| && Naming(EntriesOf(rules, repeated, optional), ty) == []
    ensures OfType(KidsOf(rules, parts), ty) == []
    decreases parts
  {
    if rules != [] {
      NamingAppend(Entries(rules[0], None, repeated, optional), EntriesOf(rules[1..], repeated, optional), ty);
      NoReferenceNoKid(rules[0], None, repeated, optional, parts[0], ty);
      NoReferenceNoKids(rules[1..], repeated, optional, parts[1..], ty);
      OfTypeAppend(Kids(rules[0], None, parts[0]), KidsOf(rules[1..], parts[1..]), ty);
    }
  }

  lemma {:induction false} NoReferenceNoRound(rule: Rule, tag: Tag, optional: bool, parts: seq<Derivation>, ty: string)
    requires Naming(Entries(rule, tag, true, optional), ty) == []
    ensures OfType(KidsEach(rule, tag, parts), ty) == []
    decreases parts
  {
    if parts != [] {
      NoReferenceNoKid(rule, tag, true, optional, parts[0], ty);
      NoReferenceNoRound(rule, tag, optional, parts[1..], ty);
      OfTypeAppend(Kids(rule, tag, parts[0]), KidsEach(rule, tag, parts[1..]), ty);
    }
  }

  lemma {:induction false} BranchUnreferenced(rules: seq<Rule>, repeated: bool, optional: bool, index: nat, ty: string)
    requires index < |rules| && Naming(EntriesOf(rules, repeated, optional), ty) == []
    ensures Naming(Entries(rules[index], None, repeated, optional), ty) == []
  {
    NamingAppend(Entries(rules[0], None, repeated, optional), EntriesOf(rules[1..], repeated, optional), ty);
    if index > 0 { BranchUnreferenced(rules[1..], repeated, optional, index - 1, ty); }
  }

  lemma {:induction false} FirstMember(entries: seq<Entry>)
    ensures entries == [] || entries[0] in entries
  {
  }

  // The selection a derivation makes of the references that do not repeat.
  lemma {:induction false} KidsAreSelected(
    kinds: Kinds, rule: Rule, tag: Tag, optional: bool, d: Derivation, ty: string)
    requires Fits(kinds, rule, d) && Unrepeated(Naming(Entries(rule, tag, false, optional), ty))
    ensures Selected(Naming(Entries(rule, tag, false, optional), ty), OfType(Kids(rule, tag, d), ty))
    decreases d, rule, 0
  {
    match rule
    case Labeled(name, inner) => KidsAreSelected(kinds, inner, Some(name), optional, d, ty);
    case Node(_) =>
    case Token(_) =>
    case Seq(rules) => PartsAreSelected(kinds, rules, optional, d.parts, ty);
    case Alt(rules) => BranchIsSelected(kinds, rules, d, d.index, ty);
    case Opt(inner) =>
      if d.Present? {
        KidsAreSelected(kinds, inner, tag, true, d.inner, ty);
      } else {
        UnderOption(inner, tag, false);
        NamingMembers(Entries(inner, tag, false, true), ty);
        NoneSelected(Naming(Entries(inner, tag, false, true), ty));
      }
    case Rep(inner) =>
      UnderRepetition(inner, tag, optional);
      NamingMembers(Entries(inner, tag, true, optional), ty);
      var named := Naming(Entries(inner, tag, true, optional), ty);
      FirstMember(named);
      assert named == [];
      NoReferenceNoRound(inner, tag, optional, d.parts, ty);
  }

  lemma {:induction false} PartsAreSelected(
    kinds: Kinds, rules: seq<Rule>, optional: bool, parts: seq<Derivation>, ty: string)
    requires |parts| == |rules| && forall k :: 0 <= k < |rules| ==> Fits(kinds, rules[k], parts[k])
    requires Unrepeated(Naming(EntriesOf(rules, false, optional), ty))
    ensures Selected(Naming(EntriesOf(rules, false, optional), ty), OfType(KidsOf(rules, parts), ty))
    decreases parts
  {
    if rules != [] {
      var a, b := Entries(rules[0], None, false, optional), EntriesOf(rules[1..], false, optional);
      NamingAppend(a, b, ty);
      UnrepeatedParts(Naming(a, ty), Naming(b, ty));
      KidsAreSelected(kinds, rules[0], None, optional, parts[0], ty);
      PartsAreSelected(kinds, rules[1..], optional, parts[1..], ty);
      var s, t := Kids(rules[0], None, parts[0]), KidsOf(rules[1..], parts[1..]);
      OfTypeAppend(s, t, ty);
      SelectedAppend(Naming(a, ty), OfType(s, ty), Naming(b, ty), OfType(t, ty));
    }
  }

  lemma {:induction false} UnrepeatedParts(a: seq<Entry>, b: seq<Entry>)
    requires Unrepeated(a + b)
    ensures Unrepeated(a) && Unrepeated(b)
  {
    assert forall k :: 0 <= k < |a| ==> (a + b)[k] == a[k];
    assert forall k :: 0 <= k < |b| ==> (a + b)[|a| + k] == b[k];
  }

  // The alternatives not taken are optional and give nothing.
  lemma {:induction false} BranchIsSelected(kinds: Kinds, rules: seq<Rule>, d: Derivation, index: nat, ty: string)
    requires d.Branch? && index < |rules| && Fits(kinds, rules[index], d.taken)
    requires Unrepeated(Naming(EntriesOf(rules, false, true), ty))
    ensures Selected(Naming(EntriesOf(rules, false, true), ty), OfType(Kids(rules[index], None, d.taken), ty))
    decreases d, rules
  {
    var a, b := Entries(rules[0], None, false, true), EntriesOf(rules[1..], false, true);
    var kids := OfType(Kids(rules[index], None, d.taken), ty);
    NamingAppend(a, b, ty);
    UnrepeatedParts(Naming(a, ty), Naming(b, ty));
    if index == 0 {
      KidsAreSelected(kinds, rules[0], None, true, d.taken, ty);
      AllUnderOption(rules[1..], false);
      NamingMembers(b, ty);
      NoneSelected(Naming(b, ty));
      SelectedAppend(Naming(a, ty), kids, Naming(b, ty), []);
      assert kids + [] == kids;
    } else {
      BranchIsSelected(kinds, rules[1..], d, index - 1, ty);
      UnderOption(rules[0], None, false);
      NamingMembers(a, ty);
      NoneSelected(Naming(a, ty));
      SelectedAppend(Naming(a, ty), [], Naming(b, ty), kids);
      assert [] + kids == kids;
    }
  }

  // -------------------------------------------------------------------
  // How many children can carry one label.
  // -------------------------------------------------------------------

  function Count(kids: seq<Kid>, ty: string, tag: Tag): nat {
    if kids == [] then 0
    else (if kids[0].ty == ty && kids[0].tag == tag then 1 else 0) + Count(kids[1..], ty, tag)
  }

  // The most children of type `ty` labelled `sought`, two standing for any
  // number under a repetition.
  function Most(rule: Rule, tag: Tag, ty: string, sought: Tag): nat
    decreases rule, 0
  {
    match rule
    case Labeled(name, inner) => Most(inner, Some(name), ty, sought)
    case Node(name) => if name == ty && tag == sought then 1 else 0
    case Token(_) => 0
    case Seq(rules) => Total(rules, ty, sought)
    case Alt(rules) => Highest(rules, ty, sought)
    case Opt(inner) => Most(inner, tag, ty, sought)
    case Rep(inner) => if Most(inner, tag, ty, sought) == 0 then 0 else 2
  }

  function Total(rules: seq<Rule>, ty: string, sought: Tag): nat
    decreases rules
  {
    if rules == [] then 0 else Most(rules[0], None, ty, sought) + Total(rules[1..], ty, sought)
  }

  function Highest(rules: seq<Rule>, ty: string, sought: Tag): nat
    decreases rules
  {
    if rules == [] then 0
    else
      var first, rest := Most(rules[0], None, ty, sought), Highest(rules[1..], ty, sought);
      if first >= rest then first else rest
  }

  lemma {:induction false} CountAppend(a: seq<Kid>, b: seq<Kid>, ty: string, tag: Tag)
    ensures Count(a + b, ty, tag) == Count(a, ty, tag) + Count(b, ty, tag)
  {
    if a == [] {
      assert a + b == b;
    } else {
      CountAppend(a[1..], b, ty, tag);
      assert (a + b)[1..] == a[1..] + b;
    }
  }

  lemma {:induction false} CountOfType(kids: seq<Kid>, ty: string, tag: Tag)
    ensures Count(OfType(kids, ty), ty, tag) == Count(kids, ty, tag)
  {
    if kids != [] { CountOfType(kids[1..], ty, tag); }
  }

  // No derivation exceeds a bound of one.
  lemma {:induction false} AtMost(rule: Rule, tag: Tag, d: Derivation, ty: string, sought: Tag)
    requires Most(rule, tag, ty, sought) <= 1
    ensures Count(Kids(rule, tag, d), ty, sought) <= Most(rule, tag, ty, sought)
    decreases d, rule, 0
  {
    match rule
    case Labeled(name, inner) => AtMost(inner, Some(name), d, ty, sought);
    case Node(_) =>
    case Token(_) =>
    case Seq(rules) =>
      if d.Parts? && |d.parts| == |rules| { AtMostInParts(rules, d.parts, ty, sought); }
    case Alt(rules) =>
      if d.Branch? && d.index < |rules| {
        NoneHigher(rules, d.index, ty, sought);
        AtMost(rules[d.index], None, d.taken, ty, sought);
      }
    case Opt(inner) =>
      if d.Present? { AtMost(inner, tag, d.inner, ty, sought); }
    case Rep(inner) =>
      if d.Parts? { NoneInRounds(inner, tag, d.parts, ty, sought); }
  }

  lemma {:induction false} AtMostInParts(rules: seq<Rule>, parts: seq<Derivation>, ty: string, sought: Tag)
    requires |parts| == |rules| && Total(rules, ty, sought) <= 1
    ensures Count(KidsOf(rules, parts), ty, sought) <= Total(rules, ty, sought)
    decreases parts
  {
    if rules != [] {
      AtMost(rules[0], None, parts[0], ty, sought);
      AtMostInParts(rules[1..], parts[1..], ty, sought);
      CountAppend(Kids(rules[0], None, parts[0]), KidsOf(rules[1..], parts[1..]), ty, sought);
    }
  }

  lemma {:induction false} NoneInRounds(rule: Rule, tag: Tag, parts: seq<Derivation>, ty: string, sought: Tag)
    requires Most(rule, tag, ty, sought) == 0
    ensures Count(KidsEach(rule, tag, parts), ty, sought) == 0
    decreases parts
  {
    if parts != [] {
      AtMost(rule, tag, parts[0], ty, sought);
      NoneInRounds(rule, tag, parts[1..], ty, sought);
      CountAppend(Kids(rule, tag, parts[0]), KidsEach(rule, tag, parts[1..]), ty, sought);
    }
  }

  lemma {:induction false} NoneHigher(rules: seq<Rule>, index: nat, ty: string, sought: Tag)
    requires index < |rules|
    ensures Most(rules[index], None, ty, sought) <= Highest(rules, ty, sought)
  {
    if index > 0 { NoneHigher(rules[1..], index - 1, ty, sought); }
  }

  // Every alternation offers something, every type has a kind.
  predicate Usable(kinds: Kinds, rule: Rule) {
    match rule
    case Labeled(_, inner) => Usable(kinds, inner)
    case Node(name) => kinds(name) != {}
    case Token(_) => true
    case Seq(rules) => forall k :: 0 <= k < |rules| ==> Usable(kinds, rules[k])
    case Alt(rules) => rules != [] && forall k :: 0 <= k < |rules| ==> Usable(kinds, rules[k])
    case Opt(inner) => Usable(kinds, inner)
    case Rep(inner) => Usable(kinds, inner)
  }

  // Some derivation reaches the bound.
  lemma {:induction false} MostReached(
    kinds: Kinds, rule: Rule, tag: Tag, ty: string, sought: Tag)
    returns (d: Derivation)
    requires Usable(kinds, rule)
    ensures Fits(kinds, rule, d) && Count(Kids(rule, tag, d), ty, sought) >= Most(rule, tag, ty, sought)
    decreases rule, 0
  {
    match rule
    case Labeled(name, inner) => d := MostReached(kinds, inner, Some(name), ty, sought);
    case Node(name) =>
      var kind :| kind in kinds(name);
      d := One(kind);
    case Token(_) => d := One("");
    case Seq(rules) =>
      var parts := TotalReached(kinds, rules, ty, sought);
      d := Parts(parts);
    case Alt(rules) =>
      var index := HighestAt(rules, ty, sought);
      d := MostReached(kinds, rules[index], None, ty, sought);
      d := Branch(index, d);
    case Opt(inner) =>
      d := MostReached(kinds, inner, tag, ty, sought);
      d := Present(d);
    case Rep(inner) =>
      var round := MostReached(kinds, inner, tag, ty, sought);
      d := Parts([round, round]);
      TwoRounds(inner, tag, round, ty, sought);
  }

  lemma {:induction false} TwoRounds(rule: Rule, tag: Tag, round: Derivation, ty: string, sought: Tag)
    ensures Count(KidsEach(rule, tag, [round, round]), ty, sought) == 2 * Count(Kids(rule, tag, round), ty, sought)
  {
    var kids := Kids(rule, tag, round);
    assert [round, round][1..] == [round] && [round][1..] == [];
    assert KidsEach(rule, tag, [round]) == kids + KidsEach(rule, tag, []) == kids;
    CountAppend(kids, kids, ty, sought);
  }

  lemma {:induction false} HighestAt(rules: seq<Rule>, ty: string, sought: Tag) returns (index: nat)
    requires rules != []
    ensures index < |rules| && Most(rules[index], None, ty, sought) == Highest(rules, ty, sought)
  {
    if |rules| == 1 || Most(rules[0], None, ty, sought) >= Highest(rules[1..], ty, sought) {
      index := 0;
    } else {
      index := HighestAt(rules[1..], ty, sought);
      index := index + 1;
    }
  }

  lemma {:induction false} TotalReached(
    kinds: Kinds, rules: seq<Rule>, ty: string, sought: Tag)
    returns (parts: seq<Derivation>)
    requires forall k :: 0 <= k < |rules| ==> Usable(kinds, rules[k])
    ensures |parts| == |rules| && forall k :: 0 <= k < |rules| ==> Fits(kinds, rules[k], parts[k])
    ensures Count(KidsOf(rules, parts), ty, sought) >= Total(rules, ty, sought)
    decreases rules
  {
    parts := [];
    if rules != [] {
      var first := MostReached(kinds, rules[0], None, ty, sought);
      var rest := TotalReached(kinds, rules[1..], ty, sought);
      parts := [first] + rest;
      assert parts[1..] == rest;
      CountAppend(Kids(rules[0], None, first), KidsOf(rules[1..], rest), ty, sought);
    }
  }

  // -------------------------------------------------------------------
  // A reference that cannot be dropped, and any other with its label, can
  // appear together.
  // -------------------------------------------------------------------

  function Mandatory(entries: seq<Entry>, sought: Tag): nat {
    if entries == [] then 0
    else (if entries[0].tag == sought && !entries[0].optional then 1 else 0) + Mandatory(entries[1..], sought)
  }

  predicate SomeOptional(entries: seq<Entry>, sought: Tag) {
    exists k :: 0 <= k < |entries| && entries[k].tag == sought && entries[k].optional
  }

  function Weight(entries: seq<Entry>, sought: Tag): nat {
    Mandatory(entries, sought) + if SomeOptional(entries, sought) then 1 else 0
  }

  lemma {:induction false} WeightFirst(entries: seq<Entry>, sought: Tag)
    requires entries != []
    ensures SomeOptional(entries, sought) <==>
              (entries[0].tag == sought && entries[0].optional) || SomeOptional(entries[1..], sought)
  {
    assert entries == [entries[0]] + entries[1..];
  }

  lemma {:induction false} WeightAppend(a: seq<Entry>, b: seq<Entry>, sought: Tag)
    ensures Mandatory(a + b, sought) == Mandatory(a, sought) + Mandatory(b, sought)
    ensures SomeOptional(a + b, sought) <==> SomeOptional(a, sought) || SomeOptional(b, sought)
  {
    if a == [] {
      assert a + b == b;
    } else {
      WeightAppend(a[1..], b, sought);
      assert (a + b)[0] == a[0] && (a + b)[1..] == a[1..] + b;
      WeightFirst(a, sought);
      WeightFirst(a + b, sought);
    }
  }

  lemma {:induction false} NothingMandatory(entries: seq<Entry>, sought: Tag)
    requires forall k :: 0 <= k < |entries| ==> entries[k].optional
    ensures Mandatory(entries, sought) == 0
  {
    if entries != [] { NothingMandatory(entries[1..], sought); }
  }

  lemma {:induction false} WeightWithinMost(rule: Rule, tag: Tag, optional: bool, ty: string, sought: Tag)
    requires Unrepeated(Naming(Entries(rule, tag, false, optional), ty))
    ensures Weight(Naming(Entries(rule, tag, false, optional), ty), sought) <= Most(rule, tag, ty, sought)
    decreases rule, 0
  {
    match rule
    case Labeled(name, inner) => WeightWithinMost(inner, Some(name), optional, ty, sought);
    case Node(name) =>
      WeightOfOne(Entry(tag, ToNode(name), false, optional), sought);
    case Token(_) =>
    case Seq(rules) => WeightWithinTotal(rules, optional, ty, sought);
    case Alt(rules) => WeightWithinHighest(rules, ty, sought);
    case Opt(inner) => WeightWithinMost(inner, tag, true, ty, sought);
    case Rep(inner) =>
      UnderRepetition(inner, tag, optional);
      NamingMembers(Entries(inner, tag, true, optional), ty);
      FirstMember(Naming(Entries(inner, tag, true, optional), ty));
      assert Naming(Entries(inner, tag, true, optional), ty) == [];
  }

  lemma {:induction false} WeightOfOne(e: Entry, sought: Tag)
    ensures Weight([e], sought) == if e.tag == sought then 1 else 0
  {
    assert [e][0] == e && [e][1..] == [];
    assert Mandatory([e][1..], sought) == 0 && !SomeOptional([e][1..], sought);
    WeightFirst([e], sought);
  }

  lemma {:induction false} WeightWithinTotal(rules: seq<Rule>, optional: bool, ty: string, sought: Tag)
    requires Unrepeated(Naming(EntriesOf(rules, false, optional), ty))
    ensures Weight(Naming(EntriesOf(rules, false, optional), ty), sought) <= Total(rules, ty, sought)
    decreases rules
  {
    if rules != [] {
      var a, b := Entries(rules[0], None, false, optional), EntriesOf(rules[1..], false, optional);
      NamingAppend(a, b, ty);
      UnrepeatedParts(Naming(a, ty), Naming(b, ty));
      WeightWithinMost(rules[0], None, optional, ty, sought);
      WeightWithinTotal(rules[1..], optional, ty, sought);
      WeightAppend(Naming(a, ty), Naming(b, ty), sought);
    }
  }

  lemma {:induction false} WeightWithinHighest(rules: seq<Rule>, ty: string, sought: Tag)
    requires Unrepeated(Naming(EntriesOf(rules, false, true), ty))
    ensures Weight(Naming(EntriesOf(rules, false, true), ty), sought) <= Highest(rules, ty, sought)
    ensures Mandatory(Naming(EntriesOf(rules, false, true), ty), sought) == 0
    decreases rules
  {
    if rules != [] {
      var a, b := Entries(rules[0], None, false, true), EntriesOf(rules[1..], false, true);
      NamingAppend(a, b, ty);
      UnrepeatedParts(Naming(a, ty), Naming(b, ty));
      WeightWithinMost(rules[0], None, true, ty, sought);
      WeightWithinHighest(rules[1..], ty, sought);
      UnderOption(rules[0], None, false);
      NamingMembers(a, ty);
      NothingMandatory(Naming(a, ty), sought);
      WeightAppend(Naming(a, ty), Naming(b, ty), sought);
    }
  }

  // -------------------------------------------------------------------
  // What a positional accessor returns.
  // -------------------------------------------------------------------

  predicate Mentions(entries: seq<Entry>, sought: Tag) {
    exists k :: 0 <= k < |entries| && entries[k].tag == sought
  }

  lemma {:induction false} MandatorySelected(entries: seq<Entry>, kids: seq<Kid>, ty: string, sought: Tag)
    requires Selected(entries, kids) && forall k :: 0 <= k < |kids| ==> kids[k].ty == ty
    ensures Mandatory(entries, sought) <= Count(kids, ty, sought)
    ensures !Mentions(entries, sought) ==> Count(kids, ty, sought) == 0
  {
    if entries != [] {
      if kids != [] && kids[0].tag == entries[0].tag && Selected(entries[1..], kids[1..]) {
        MandatorySelected(entries[1..], kids[1..], ty, sought);
      } else {
        MandatorySelected(entries[1..], kids, ty, sought);
      }
    }
  }

  lemma {:induction false} WeightMentions(entries: seq<Entry>, sought: Tag)
    ensures Weight(entries, sought) >= 1 <==> Mentions(entries, sought)
  {
    if entries != [] {
      WeightMentions(entries[1..], sought);
      WeightFirst(entries, sought);
    }
  }

  ghost predicate OneType(entries: seq<Entry>, ty: string) {
    forall k :: 0 <= k < |entries| ==> entries[k].target == ToNode(ty)
  }

  lemma {:induction false} UnmentionedKept(entries: seq<Entry>, e: Entry)
    requires !Mentions(entries, e.tag)
    ensures Without(entries, e) == entries
  {
    if entries != [] {
      assert entries[0].tag != e.tag;
      UnmentionedKept(entries[1..], e);
    }
  }

  lemma {:induction false} AllDropped(entries: seq<Entry>, e: Entry)
    requires Without(entries, e) == []
    ensures forall k :: 0 <= k < |entries| ==> entries[k].tag == e.tag
  {
    if entries != [] { AllDropped(entries[1..], e); }
  }

  // A mention that is not optional is counted.
  lemma {:induction false} NotAllOptional(entries: seq<Entry>, e: Entry)
    requires !AllOptional(entries, e)
    ensures Mandatory(entries, e.tag) >= 1
  {
    if SameKey(entries[0], e) && !entries[0].optional {
    } else {
      FlagsFirst(entries, e);
      NotAllOptional(entries[1..], e);
    }
  }

  // The children are the group's occurrences in order, all of them but perhaps
  // the last.
  ghost predicate Picks(group: seq<Entry>, kids: seq<Kid>, ty: string) {
    forall i :: 0 <= i < |group| ==> PicksAt(group, kids, ty, i)
  }

  ghost predicate PicksAt(group: seq<Entry>, kids: seq<Kid>, ty: string, i: nat)
    requires i < |group|
  {
    && (i < |kids| ==> kids[i].tag == group[i].tag)
    && (i >= |kids| ==> Count(kids, ty, group[i].tag) == 0)
    && (i < |group| - 1 || !group[i].optional ==> i < |kids|)
  }

  lemma {:induction false} GroupPicks(entries: seq<Entry>, kids: seq<Kid>, ty: string)
    requires Selected(entries, kids) && OneType(entries, ty) && forall k :: 0 <= k < |kids| ==> kids[k].ty == ty
    requires entries != [] && PositionalIsSound(Merged(entries))
    requires forall tag :: Weight(entries, tag) <= 1 && Count(kids, ty, tag) <= 1
    ensures Picks(Merged(entries), kids, ty)
    decreases |entries|
  {
    var e, rest := entries[0], entries[1..];
    var group := Merged(entries);
    if Without(rest, e) == [] {
      AllDropped(rest, e);
      OneLabelPicks(entries, kids, ty);
    } else {
      var tail := Merged(Without(rest, e));
      assert group == [Mention(entries, e)] + tail;
      assert !group[0].optional;
      NotAllOptional(entries, e);
      FirstIsOnly(entries);
      UnmentionedKept(rest, e);
      FirstOf(entries, kids, ty);
      FewerWeights(entries, kids, ty);
      SoundTail(group);
      assert group[1..] == tail;
      MergedMentions(rest, e.tag);
      assert forall k :: 0 <= k < |tail| ==> tail[k].tag != e.tag;
      GroupPicks(rest, kids[1..], ty);
      PicksOneMore(group, kids, ty);
    }
  }

  lemma {:induction false} MentionsFirst(entries: seq<Entry>, sought: Tag)
    requires entries != []
    ensures Mentions(entries, sought) <==> entries[0].tag == sought || Mentions(entries[1..], sought)
  {
    assert entries == [entries[0]] + entries[1..];
  }

  lemma {:induction false} WithoutMentions(entries: seq<Entry>, e: Entry, sought: Tag)
    ensures Mentions(Without(entries, e), sought) ==> Mentions(entries, sought)
    ensures Mentions(entries, sought) && sought != e.tag ==> Mentions(Without(entries, e), sought)
  {
    if entries != [] {
      WithoutMentions(entries[1..], e, sought);
      MentionsFirst(entries, sought);
      if !SameKey(entries[0], e) { MentionsFirst(Without(entries, e), sought); }
    }
  }

  // Merging keeps the labels.
  lemma {:induction false} MergedMentions(entries: seq<Entry>, sought: Tag)
    ensures Mentions(Merged(entries), sought) <==> Mentions(entries, sought)
    decreases |entries|
  {
    if entries != [] {
      MergedMentions(Without(entries[1..], entries[0]), sought);
      WithoutMentions(entries[1..], entries[0], sought);
      MentionsFirst(entries, sought);
      MentionsFirst(Merged(entries), sought);
    }
  }

  lemma {:induction false} SoundTail(group: seq<Entry>)
    requires |group| > 1 && PositionalIsSound(group)
    ensures PositionalIsSound(group[1..])
  {
  }

  lemma {:induction false} OneLabelPicks(entries: seq<Entry>, kids: seq<Kid>, ty: string)
    requires Selected(entries, kids) && OneType(entries, ty) && forall k :: 0 <= k < |kids| ==> kids[k].ty == ty
    requires entries != [] && Without(entries[1..], entries[0]) == []
    requires forall k :: 0 <= k < |entries| ==> entries[k].tag == entries[0].tag
    requires Count(kids, ty, entries[0].tag) <= 1
    ensures Picks(Merged(entries), kids, ty)
  {
    var e := entries[0];
    assert Merged(entries) == [Mention(entries, e)];
    CountAll(entries, kids, ty, e.tag);
    MandatorySelected(entries, kids, ty, e.tag);
    if !AllOptional(entries, e) { NotAllOptional(entries, e); }
    assert PicksAt(Merged(entries), kids, ty, 0);
  }

  lemma {:induction false} CountAll(entries: seq<Entry>, kids: seq<Kid>, ty: string, tag: Tag)
    requires Selected(entries, kids) && forall k :: 0 <= k < |kids| ==> kids[k].ty == ty
    requires forall k :: 0 <= k < |entries| ==> entries[k].tag == tag
    ensures Count(kids, ty, tag) == |kids| && forall k :: 0 <= k < |kids| ==> kids[k].tag == tag
  {
    if entries != [] {
      if kids != [] && kids[0].tag == entries[0].tag && Selected(entries[1..], kids[1..]) {
        CountAll(entries[1..], kids[1..], ty, tag);
      } else {
        CountAll(entries[1..], kids, ty, tag);
      }
    }
  }

  // A label with one mandatory mention has no other.
  lemma {:induction false} FirstIsOnly(entries: seq<Entry>)
    requires entries != [] && Mandatory(entries, entries[0].tag) >= 1 && Weight(entries, entries[0].tag) <= 1
    ensures !entries[0].optional && !Mentions(entries[1..], entries[0].tag)
  {
    WeightFirst(entries, entries[0].tag);
    WeightMentions(entries[1..], entries[0].tag);
  }

  lemma {:induction false} FirstOf(entries: seq<Entry>, kids: seq<Kid>, ty: string)
    requires Selected(entries, kids) && entries != [] && !entries[0].optional
    ensures kids != [] && kids[0].tag == entries[0].tag && Selected(entries[1..], kids[1..])
  {
  }

  lemma {:induction false} FewerWeights(entries: seq<Entry>, kids: seq<Kid>, ty: string)
    requires entries != [] && kids != []
    requires forall tag :: Weight(entries, tag) <= 1 && Count(kids, ty, tag) <= 1
    ensures forall tag :: Weight(entries[1..], tag) <= 1 && Count(kids[1..], ty, tag) <= 1
  {
    forall tag ensures Weight(entries[1..], tag) <= 1 && Count(kids[1..], ty, tag) <= 1 {
      assert Weight(entries, tag) <= 1 && Count(kids, ty, tag) <= 1;
      WeightFirst(entries, tag);
    }
  }

  lemma {:induction false} PicksOneMore(group: seq<Entry>, kids: seq<Kid>, ty: string)
    requires group != [] && kids != [] && Picks(group[1..], kids[1..], ty)
    requires kids[0].tag == group[0].tag && forall k :: 1 <= k < |group| ==> group[k].tag != group[0].tag
    ensures Picks(group, kids, ty)
  {
    forall i | 0 <= i < |group| ensures PicksAt(group, kids, ty, i) {
      if i > 0 { assert PicksAt(group[1..], kids[1..], ty, i - 1); }
    }
  }

  lemma {:induction false} KindsFit(kinds: Kinds, rule: Rule, tag: Tag, d: Derivation)
    requires Fits(kinds, rule, d)
    ensures forall kid :: kid in Kids(rule, tag, d) ==> kid.kind in kinds(kid.ty)
    decreases d, rule, 0
  {
    match rule
    case Labeled(name, inner) => KindsFit(kinds, inner, Some(name), d);
    case Node(_) =>
    case Token(_) =>
    case Seq(rules) => KindsFitParts(kinds, rules, d.parts);
    case Alt(rules) => KindsFit(kinds, rules[d.index], None, d.taken);
    case Opt(inner) => if d.Present? { KindsFit(kinds, inner, tag, d.inner); }
    case Rep(inner) => KindsFitRounds(kinds, inner, tag, d.parts);
  }

  lemma {:induction false} KindsFitParts(kinds: Kinds, rules: seq<Rule>, parts: seq<Derivation>)
    requires |parts| == |rules| && forall k :: 0 <= k < |rules| ==> Fits(kinds, rules[k], parts[k])
    ensures forall kid :: kid in KidsOf(rules, parts) ==> kid.kind in kinds(kid.ty)
    decreases parts
  {
    if rules != [] {
      KindsFit(kinds, rules[0], None, parts[0]);
      KindsFitParts(kinds, rules[1..], parts[1..]);
    }
  }

  lemma {:induction false} KindsFitRounds(kinds: Kinds, rule: Rule, tag: Tag, parts: seq<Derivation>)
    requires forall k :: 0 <= k < |parts| ==> Fits(kinds, rule, parts[k])
    ensures forall kid :: kid in KidsEach(rule, tag, parts) ==> kid.kind in kinds(kid.ty)
    decreases parts
  {
    if parts != [] {
      KindsFit(kinds, rule, tag, parts[0]);
      KindsFitRounds(kinds, rule, tag, parts[1..]);
    }
  }

  lemma {:induction false} OfTypeMembers(kids: seq<Kid>, kid: Kid)
    requires kid in kids
    ensures kid in OfType(kids, kid.ty)
  {
    if kids[0] != kid { OfTypeMembers(kids[1..], kid); }
  }

  lemma {:induction false} OnlyOfType(kids: seq<Kid>, ty: string)
    ensures forall k :: 0 <= k < |OfType(kids, ty)| ==> OfType(kids, ty)[k].ty == ty
  {
    if kids != [] { OnlyOfType(kids[1..], ty); }
  }

  lemma {:induction false} CastByType(kinds: Kinds, kids: seq<Kid>, ty: string)
    requires forall kid :: kid in kids ==> (kid.kind in kinds(ty) <==> kid.ty == ty)
    ensures Cast(kinds, kids, ty) == OfType(kids, ty)
  {
    if kids != [] {
      assert kids[0] in kids;
      CastByType(kinds, kids[1..], ty);
    }
  }

  // What an accessor for the child labelled `tag` has to return.
  predicate IsTheChild(kids: seq<Kid>, ty: string, tag: Tag, found: Option<Kid>) {
    match found
    case Some(kid) => kid in kids && kid.ty == ty && kid.tag == tag && Count(kids, ty, tag) == 1
    case None => Count(kids, ty, tag) == 0
  }

  ghost predicate Exact(kinds: Kinds, body: Rule, ty: string) {
    forall d, i: nat :: Fits(kinds, body, d) && i < |Group(body, ty)| ==>
      IsTheChild(Kids(body, None, d), ty, Group(body, ty)[i].tag, Nth(kinds, Kids(body, None, d), ty, i))
  }

  // No label of the type can appear twice.
  ghost predicate LabelsAppearOnce(body: Rule, ty: string) {
    forall i: nat :: i < |Group(body, ty)| ==> Most(body, None, ty, Group(body, ty)[i].tag) <= 1
  }

  lemma {:induction false} GroupIsMergedNaming(body: Rule, ty: string)
    ensures Group(body, ty) == Merged(Naming(Entries(body, None, false, false), ty))
  {
    var entries := Entries(body, None, false, false);
    MergedNaming(Nodes(entries), ty);
    NamingOfNodes(entries, ty);
  }

  lemma {:induction false} UnrepeatedGroup(entries: seq<Entry>, ty: string)
    requires OneType(entries, ty) && Unrepeated(Merged(entries))
    ensures Unrepeated(entries)
    decreases |entries|
  {
    if entries != [] {
      var e := entries[0];
      var rest := Without(entries[1..], e);
      var group := Merged(entries);
      assert !group[0].repeated && group[1..] == Merged(rest);
      WithoutOneType(entries[1..], e, ty);
      assert Unrepeated(group[1..]);
      UnrepeatedGroup(rest, ty);
      forall k | 0 <= k < |entries| ensures !entries[k].repeated {
        if !SameKey(entries[k], e) { KeptByWithout(entries[1..], e, k - 1); }
      }
    }
  }

  lemma {:induction false} WithoutOneType(entries: seq<Entry>, e: Entry, ty: string)
    requires OneType(entries, ty)
    ensures OneType(Without(entries, e), ty)
  {
    if entries != [] { WithoutOneType(entries[1..], e, ty); }
  }

  lemma {:induction false} KeptByWithout(entries: seq<Entry>, e: Entry, k: nat)
    requires k < |entries| && !SameKey(entries[k], e)
    ensures entries[k] in Without(entries, e)
  {
    if k > 0 { KeptByWithout(entries[1..], e, k - 1); }
  }

  lemma {:induction false} DerivationPicks(kinds: Kinds, body: Rule, ty: string, d: Derivation)
    requires Fits(kinds, body, d)
    requires Group(body, ty) != [] && PositionalIsSound(Group(body, ty)) && LabelsAppearOnce(body, ty)
    ensures Picks(Group(body, ty), OfType(Kids(body, None, d), ty), ty)
  {
    var entries := Naming(Entries(body, None, false, false), ty);
    var kids := Kids(body, None, d);
    var cast := OfType(kids, ty);
    GroupIsMergedNaming(body, ty);
    UnrepeatedGroup(entries, ty);
    KidsAreSelected(kinds, body, None, false, d, ty);
    OnlyOfType(kids, ty);
    forall tag ensures Weight(entries, tag) <= 1 && Count(cast, ty, tag) <= 1 {
      WeightMentions(entries, tag);
      MergedMentions(entries, tag);
      if Mentions(entries, tag) {
        WeightWithinMost(body, None, false, ty, tag);
        AtMost(body, None, d, ty, tag);
        CountOfType(kids, ty, tag);
      } else {
        MandatorySelected(entries, cast, ty, tag);
      }
    }
    GroupPicks(entries, cast, ty);
  }

  lemma {:induction false} OfTypeWithin(kids: seq<Kid>, ty: string, i: nat)
    requires i < |OfType(kids, ty)|
    ensures OfType(kids, ty)[i] in kids && OfType(kids, ty)[i].ty == ty
  {
    if kids[0].ty != ty {
      OfTypeWithin(kids[1..], ty, i);
    } else if i > 0 {
      OfTypeWithin(kids[1..], ty, i - 1);
    }
  }

  lemma {:induction false} CountOfMember(kids: seq<Kid>, i: nat)
    requires i < |kids|
    ensures Count(kids, kids[i].ty, kids[i].tag) >= 1
  {
    if i > 0 { CountOfMember(kids[1..], i - 1); }
  }

  // The type's own children, taken by position.
  lemma {:induction false} PickedIsLabelled(kinds: Kinds, body: Rule, ty: string, d: Derivation, i: nat)
    requires Fits(kinds, body, d) && Cast(kinds, Kids(body, None, d), ty) == OfType(Kids(body, None, d), ty)
    requires Group(body, ty) != [] && PositionalIsSound(Group(body, ty)) && LabelsAppearOnce(body, ty)
    requires i < |Group(body, ty)|
    ensures IsTheChild(Kids(body, None, d), ty, Group(body, ty)[i].tag, Nth(kinds, Kids(body, None, d), ty, i))
  {
    var kids := Kids(body, None, d);
    var cast := OfType(kids, ty);
    var tag := Group(body, ty)[i].tag;
    DerivationPicks(kinds, body, ty, d);
    assert PicksAt(Group(body, ty), cast, ty, i);
    CountOfType(kids, ty, tag);
    if i < |cast| {
      OfTypeWithin(kids, ty, i);
      CountOfMember(cast, i);
      assert Most(body, None, ty, tag) <= 1;
      AtMost(body, None, d, ty, tag);
    }
  }

  // -------------------------------------------------------------------
  // What the soundness test does not see, and what it refuses in vain.
  // -------------------------------------------------------------------

  function X(name: string): Rule {
    Labeled(name, Node("X"))
  }

  // `a:X a:X? b:X`: the second `a` takes the place of `b`.
  const REPEATED_LABEL := Seq([X("a"), Opt(X("a")), X("b")])

  // `(a:X b:X)?`: both or neither.
  const BOTH_OR_NEITHER := Opt(Seq([X("a"), X("b")]))

  function XEntry(name: string, optional: bool): Entry {
    Entry(Some(name), ToNode("X"), false, optional)
  }

  lemma {:induction false} OfX(kinds: Kinds, name: string, optional: bool, d: Derivation)
    ensures Entries(X(name), None, false, optional) == [XEntry(name, optional)]
    ensures Fits(kinds, X(name), d) <==> d.One? && d.kind in kinds("X")
    ensures d.One? ==> Kids(X(name), None, d) == [Kid(Some(name), "X", d.kind)]
  {
    var r := X(name);
    assert Entries(r, None, false, optional) == Entries(r.rule, Some(name), false, optional);
    assert Fits(kinds, r, d) == Fits(kinds, r.rule, d);
    assert Kids(r, None, d) == Kids(r.rule, Some(name), d);
  }

  lemma {:induction false} FirstEntries(rules: seq<Rule>, r: Rule, optional: bool)
    ensures EntriesOf([r] + rules, false, optional) ==
            Entries(r, None, false, optional) + EntriesOf(rules, false, optional)
  {
    assert ([r] + rules)[1..] == rules;
  }

  lemma {:induction false} FirstKids(rules: seq<Rule>, parts: seq<Derivation>, r: Rule, d: Derivation)
    requires |rules| == |parts|
    ensures KidsOf([r] + rules, [d] + parts) == Kids(r, None, d) + KidsOf(rules, parts)
  {
    assert ([r] + rules)[1..] == rules && ([d] + parts)[1..] == parts;
  }

  lemma {:induction false} FirstNamed(entries: seq<Entry>, name: string, optional: bool)
    ensures Naming([XEntry(name, optional)] + entries, "X") == [XEntry(name, optional)] + Naming(entries, "X")
  {
    assert ([XEntry(name, optional)] + entries)[1..] == entries;
  }

  lemma {:induction false} FirstCounted(kinds: Kinds, kids: seq<Kid>, kid: Kid, tag: Tag)
    requires kid.ty == "X" && kid.kind in kinds("X")
    ensures Count([kid] + kids, "X", tag) == (if kid.tag == tag then 1 else 0) + Count(kids, "X", tag)
    ensures Cast(kinds, [kid] + kids, "X") == [kid] + Cast(kinds, kids, "X")
  {
    assert ([kid] + kids)[1..] == kids;
  }

  lemma {:induction false} GroupOfRepeatedLabel()
    ensures Group(REPEATED_LABEL, "X") == [XEntry("a", false), XEntry("b", false)]
  {
    var kinds := _ => {};
    var e, ee, f := XEntry("a", false), XEntry("a", true), XEntry("b", false);
    OfX(kinds, "a", false, Missing);
    OfX(kinds, "a", true, Missing);
    OfX(kinds, "b", false, Missing);
    assert Entries(Opt(X("a")), None, false, false) == [ee];
    FirstEntries([], X("b"), false);
    FirstEntries([X("b")], Opt(X("a")), false);
    FirstEntries([Opt(X("a")), X("b")], X("a"), false);
    assert [X("b")] + [] == [X("b")] && [Opt(X("a"))] + [X("b")] == [Opt(X("a")), X("b")];
    assert [X("a")] + [Opt(X("a")), X("b")] == [X("a"), Opt(X("a")), X("b")];
    var entries := Entries(REPEATED_LABEL, None, false, false);
    assert entries == [e] + ([ee] + ([f] + []));
    FirstNamed([], "b", false);
    FirstNamed([f], "a", true);
    FirstNamed([ee, f], "a", false);
    assert [ee] + [f] == [ee, f] && [f] + [] == [f] && entries == [e] + [ee, f];
    assert Naming(entries, "X") == [e, ee, f];
    GroupIsMergedNaming(REPEATED_LABEL, "X");
    MergedThree(e, ee, f);
  }

  lemma {:induction false} MergedThree(a: Entry, b: Entry, c: Entry)
    requires SameKey(a, b) && !SameKey(a, c) && Both(a, b) == a
    ensures Merged([a, b, c]) == [a, c]
  {
    MergedOneMore([], a);
    MergedOneMore([a], b);
    MergedOneMore([a, b], c);
    AbsorbHead(a, [], b);
    AbsorbHead(a, [], c);
    assert [] + [a] == [a] && [a] + [] == [a] && [a] + [b] == [a, b] && [a, b] + [c] == [a, b, c] &&
           [a] + [c] == [a, c];
  }

  // A repeated label makes the test accept accessors that are wrong.
  lemma {:induction false} RepeatedLabelIsAccepted(kinds: Kinds)
    requires kinds("X") != {}
    ensures Group(REPEATED_LABEL, "X") != [] && PositionalIsSound(Group(REPEATED_LABEL, "X"))
    ensures !Exact(kinds, REPEATED_LABEL, "X")
  {
    GroupOfRepeatedLabel();
    var kind :| kind in kinds("X");
    var one := One(kind);
    var k, l := Kid(Some("a"), "X", kind), Kid(Some("b"), "X", kind);
    OfX(kinds, "a", false, one);
    OfX(kinds, "b", false, one);
    var d := Parts([one, Present(one), one]);
    TwoOfA(kind);
    assert Fits(kinds, Opt(X("a")), Present(one));
    assert Fits(kinds, REPEATED_LABEL, d);
    var kids := Kids(REPEATED_LABEL, None, d);
    FirstCounted(kinds, [], l, Some("a"));
    FirstCounted(kinds, [l] + [], k, Some("a"));
    FirstCounted(kinds, [k] + ([l] + []), k, Some("a"));
    assert kids == [k] + ([k] + ([l] + [])) && Count(kids, "X", Some("a")) == 2;
    var first: nat := 0;
    assert !IsTheChild(kids, "X", Group(REPEATED_LABEL, "X")[first].tag, Nth(kinds, kids, "X", first));
  }

  lemma {:induction false} TwoOfA(kind: string)
    ensures var one, k, l := One(kind), Kid(Some("a"), "X", kind), Kid(Some("b"), "X", kind);
            Kids(REPEATED_LABEL, None, Parts([one, Present(one), one])) == [k] + ([k] + ([l] + []))
  {
    var one, k := One(kind), Kid(Some("a"), "X", kind);
    var parts := [one, Present(one), one];
    var rules := [X("a"), Opt(X("a")), X("b")];
    OfX(_ => {}, "a", false, one);
    OfX(_ => {}, "b", false, one);
    FirstKids([], [], X("b"), one);
    FirstKids([X("b")], [one], Opt(X("a")), Present(one));
    FirstKids([Opt(X("a")), X("b")], [Present(one), one], X("a"), one);
    assert [X("b")] + [] == [X("b")] && [Opt(X("a"))] + [X("b")] == [Opt(X("a")), X("b")] &&
           [X("a")] + [Opt(X("a")), X("b")] == rules;
    assert [one] + [] == [one] && [Present(one)] + [one] == [Present(one), one] && [one] + [Present(one), one] == parts;
    assert Kids(Opt(X("a")), None, Present(one)) == [k];
  }

  // The test is not complete: both occurrences here are optional, and yet
  // positional accessors would be exact.
  lemma {:induction false} BothOrNeitherIsRefused(kinds: Kinds)
    ensures Group(BOTH_OR_NEITHER, "X") != [] && !PositionalIsSound(Group(BOTH_OR_NEITHER, "X"))
    ensures Exact(kinds, BOTH_OR_NEITHER, "X")
  {
    GroupOfBothOrNeither();
    forall d, i: nat | Fits(kinds, BOTH_OR_NEITHER, d) && i < 2
      ensures IsTheChild(Kids(BOTH_OR_NEITHER, None, d), "X", Group(BOTH_OR_NEITHER, "X")[i].tag,
                         Nth(kinds, Kids(BOTH_OR_NEITHER, None, d), "X", i))
    {
      if d.Present? {
        assert Fits(kinds, Seq([X("a"), X("b")]), d.inner);
        BothPresent(kinds, d, d.inner.parts);
      }
    }
  }

  lemma {:induction false} GroupOfBothOrNeither()
    ensures Group(BOTH_OR_NEITHER, "X") == [XEntry("a", true), XEntry("b", true)]
  {
    var kinds := _ => {};
    var e, f := XEntry("a", true), XEntry("b", true);
    OfX(kinds, "a", true, Missing);
    OfX(kinds, "b", true, Missing);
    FirstEntries([], X("b"), true);
    FirstEntries([X("b")], X("a"), true);
    assert [X("b")] + [] == [X("b")] && [X("a")] + [X("b")] == [X("a"), X("b")];
    var entries := Entries(BOTH_OR_NEITHER, None, false, false);
    assert entries == Entries(BOTH_OR_NEITHER.rule, None, false, true) == [e] + ([f] + []);
    FirstNamed([], "b", true);
    FirstNamed([f], "a", true);
    assert [f] + [] == [f] && [e] + [f] == [e, f] && entries == [e, f];
    assert Naming(entries, "X") == [e, f];
    GroupIsMergedNaming(BOTH_OR_NEITHER, "X");
    MergedOneMore([], e);
    MergedOneMore([e], f);
    AbsorbHead(e, [], f);
    assert [] + [e] == [e] && [e] + [] == [e];
  }

  lemma {:induction false} BothPresent(kinds: Kinds, d: Derivation, parts: seq<Derivation>)
    requires d == Present(Parts(parts)) && |parts| == 2
    requires Fits(kinds, X("a"), parts[0]) && Fits(kinds, X("b"), parts[1])
    ensures var kids := Kids(BOTH_OR_NEITHER, None, d);
            && IsTheChild(kids, "X", Some("a"), Nth(kinds, kids, "X", 0))
            && IsTheChild(kids, "X", Some("b"), Nth(kinds, kids, "X", 1))
  {
    OfX(kinds, "a", true, parts[0]);
    OfX(kinds, "b", true, parts[1]);
    var k, l := Kid(Some("a"), "X", parts[0].kind), Kid(Some("b"), "X", parts[1].kind);
    FirstKids([], [], X("b"), parts[1]);
    FirstKids([X("b")], [parts[1]], X("a"), parts[0]);
    assert [X("b")] + [] == [X("b")] && [X("a")] + [X("b")] == [X("a"), X("b")];
    assert [parts[1]] + [] == [parts[1]] && [parts[0]] + [parts[1]] == parts;
    var kids := Kids(BOTH_OR_NEITHER, None, d);
    assert kids == Kids(BOTH_OR_NEITHER.rule, None, d.inner) == [k] + ([l] + []);
    FirstCounted(kinds, [], l, Some("a"));
    FirstCounted(kinds, [], l, Some("b"));
    FirstCounted(kinds, [l] + [], k, Some("a"));
    FirstCounted(kinds, [l] + [], k, Some("b"));
    assert Cast(kinds, kids, "X") == [k] + ([l] + []);
  }
}
