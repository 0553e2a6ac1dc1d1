// The accessors generated for a rule, and what each of them returns over every
// tree the rule derives.
module Accessors {
  import opened Common
  import opened PositionalAccessors
  import opened AccessorExactness

  datatype Accessor =
    | Children(tag: Tag, ty: string)
    | Child(tag: Tag, ty: string)
    | NthChild(tag: Tag, ty: string, index: nat)

  // What an accessor returns: all the children that cast to its type, the first
  // of them, or the one at its index.
  function Answer(kinds: Kinds, kids: seq<Kid>, a: Accessor): seq<Kid> {
    var cast := Cast(kinds, kids, a.ty);
    match a
    case Children(_, _) => cast
    case Child(_, _) => if cast == [] then [] else [cast[0]]
    case NthChild(_, _, n) => if n < |cast| then [cast[n]] else []
  }

  // The one child of a type with a label, or none where there is none.
  predicate IsTheOne(kids: seq<Kid>, r: Ref, answer: seq<Kid>) {
    match |answer|
    case 0 => Count(kids, r.ty, r.tag) == 0
    case 1 => answer[0] in kids && RefOf(answer[0]) == r && Count(kids, r.ty, r.tag) == 1
    case _ => false
  }

  // No child of another type that the cast takes for one of this, anywhere.
  ghost predicate NoOthers(kinds: Kinds, body: Rule, ty: string) {
    forall r :: Overlaps(kinds, r, ty) ==> Most(body, None, r.ty, r.tag) == 0
  }

  // An accessor for one child returns, over every tree, the one child of its
  // type and label, or nothing when there is none, where no label of the type
  // can appear twice and nothing else can stand in. One for all of them returns
  // all and only the children of its type, in order, and they have its label,
  // where nothing else casts to the type.
  ghost predicate Answers(body: Rule, a: Accessor) {
    forall kinds, d :: Usable(kinds, body) && Fits(kinds, body, d) ==> AnswersOver(kinds, body, a, d)
  }

  ghost predicate AnswersOver(kinds: Kinds, body: Rule, a: Accessor, d: Derivation) {
    var kids := Kids(body, None, d);
    if a.Children? then
      NoOthers(kinds, body, a.ty) ==>
        && Answer(kinds, kids, a) == OfType(kids, a.ty)
        && forall kid :: kid in kids && kid.ty == a.ty ==> kid.tag == a.tag
    else
      LabelsAppearOnce(body, a.ty) && OthersBehind(kinds, body, a.ty) ==>
        IsTheOne(kids, Ref(a.ty, a.tag), Answer(kinds, kids, a))
  }

  // -------------------------------------------------------------------
  // One accessor of a type.
  // -------------------------------------------------------------------

  // The references to a type, as the rule mentions them.
  function MentionsOf(body: Rule, ty: string): seq<Entry> {
    Naming(Entries(body, None, false, false), ty)
  }

  // A reference to the type with the label is mentioned in the rule.
  ghost predicate Mentioned(body: Rule, ty: string, tag: Tag) {
    exists k :: 0 <= k < |MentionsOf(body, ty)| && MentionsOf(body, ty)[k].tag == tag
  }

  // Some mention with the label is under a repetition.
  ghost predicate Repeats(body: Rule, ty: string, tag: Tag) {
    SomeRepeats(MentionsOf(body, ty), tag)
  }

  ghost predicate SomeRepeats(entries: seq<Entry>, tag: Tag) {
    exists k :: 0 <= k < |entries| && entries[k].tag == tag && entries[k].repeated
  }

  // Every mention with the label is optional.
  ghost predicate MayLack(body: Rule, ty: string, tag: Tag) {
    AllMayLack(MentionsOf(body, ty), tag)
  }

  ghost predicate AllMayLack(entries: seq<Entry>, tag: Tag) {
    forall k :: 0 <= k < |entries| && entries[k].tag == tag ==> entries[k].optional
  }

  // A type mentioned with one label only, or with several, none of them
  // repeated and all but the last mandatory.
  ghost predicate HasAccessors(body: Rule, ty: string) {
    var group := Group(body, ty);
    |group| == 1 ||
    (|group| > 1 && (forall k :: 0 <= k < |group| ==> !Repeats(body, ty, group[k].tag))
     && (forall k :: 0 <= k < |group| - 1 ==> !MayLack(body, ty, group[k].tag)))
  }

  lemma {:induction false} MergedFlags(entries: seq<Entry>, ty: string, k: nat)
    requires OneType(entries, ty) && k < |Merged(entries)|
    ensures var e := Merged(entries)[k];
            (e.repeated <==> SomeRepeats(entries, e.tag)) && (e.optional <==> AllMayLack(entries, e.tag))
    decreases |entries|
  {
    var first := entries[0];
    if k > 0 {
      var rest := Without(entries[1..], first);
      WithoutOneType(entries[1..], first, ty);
      MergedFlags(rest, ty, k - 1);
      var tag := Merged(rest)[k - 1].tag;
      MergedMentions(rest, tag);
      Unmentioned(entries[1..], first, ty);
      assert tag != first.tag;
      WithoutOthers(entries[1..], first, tag);
      FirstFlags(entries, tag);
    }
  }

  lemma {:induction false} WithoutOthers(entries: seq<Entry>, e: Entry, tag: Tag)
    requires tag != e.tag
    ensures SomeRepeats(Without(entries, e), tag) <==> SomeRepeats(entries, tag)
    ensures AllMayLack(Without(entries, e), tag) <==> AllMayLack(entries, tag)
  {
    if entries != [] {
      WithoutOthers(entries[1..], e, tag);
      FirstFlags(entries, tag);
      if !SameKey(entries[0], e) { FirstFlags(Without(entries, e), tag); }
    }
  }

  lemma {:induction false} FirstFlags(entries: seq<Entry>, tag: Tag)
    requires entries != []
    ensures SomeRepeats(entries, tag) <==>
            (entries[0].tag == tag && entries[0].repeated) || SomeRepeats(entries[1..], tag)
    ensures AllMayLack(entries, tag) <==>
            (entries[0].tag == tag ==> entries[0].optional) && AllMayLack(entries[1..], tag)
  {
    assert entries == [entries[0]] + entries[1..];
  }

  lemma {:induction false} GroupFlags(body: Rule, ty: string)
    ensures forall k :: 0 <= k < |Group(body, ty)| ==>
              && (Group(body, ty)[k].repeated <==> Repeats(body, ty, Group(body, ty)[k].tag))
              && (Group(body, ty)[k].optional <==> MayLack(body, ty, Group(body, ty)[k].tag))
  {
    GroupIsMergedNaming(body, ty);
    forall k | 0 <= k < |Group(body, ty)|
      ensures Group(body, ty)[k].repeated <==> Repeats(body, ty, Group(body, ty)[k].tag)
      ensures Group(body, ty)[k].optional <==> MayLack(body, ty, Group(body, ty)[k].tag)
    {
      MergedFlags(MentionsOf(body, ty), ty, k);
    }
  }

  // What the generator writes for an entry of a group.
  ghost predicate IsFor(body: Rule, a: Accessor, k: nat) {
    var group := Group(body, a.ty);
    && HasAccessors(body, a.ty) && k < |group| && a.tag == group[k].tag
    && (a.Children? <==> |group| == 1 && Repeats(body, a.ty, a.tag))
    && (a.Child? <==> |group| == 1 && !Repeats(body, a.ty, a.tag))
    && (a.NthChild? ==> a.index == k)
  }

  lemma {:induction false} EveryOwnChildHasTheLabel(body: Rule, ty: string, d: Derivation, kid: Kid)
    requires |Group(body, ty)| == 1 && kid in Kids(body, None, d) && kid.ty == ty
    ensures kid.tag == Group(body, ty)[0].tag
  {
    var kids := Kids(body, None, d);
    var k :| 0 <= k < |kids| && kids[k] == kid;
    CountOfMember(kids, k);
    OwnTag(body, ty, d, kid.tag);
  }

  // Where no other child casts to the type, the cast picks the type's own
  // children; and only there.
  lemma {:induction false} NoOthersInCast(kinds: Kinds, body: Rule, ty: string, d: Derivation)
    requires Fits(kinds, body, d) && NoOthers(kinds, body, ty)
    ensures Cast(kinds, Kids(body, None, d), ty) == OfType(Kids(body, None, d), ty)
  {
    var kids := Kids(body, None, d);
    KindsFit(kinds, body, None, d);
    forall kid | kid in kids ensures kid.kind in kinds(ty) <==> kid.ty == ty {
      if kid.kind in kinds(ty) && kid.ty != ty {
        var k :| 0 <= k < |kids| && kids[k] == kid;
        CountOfMember(kids, k);
        assert kid.kind in kinds(kid.ty) * kinds(ty);
        assert Overlaps(kinds, RefOf(kid), ty);
        AtMost(body, None, d, kid.ty, kid.tag);
      }
    }
    CastByType(kinds, kids, ty);
  }

  lemma {:induction false} ChildrenAreExactIff(kinds: Kinds, body: Rule, ty: string)
    requires Usable(kinds, body)
    ensures (forall d :: Fits(kinds, body, d) ==>
               Cast(kinds, Kids(body, None, d), ty) == OfType(Kids(body, None, d), ty)) <==>
            NoOthers(kinds, body, ty)
  {
    if NoOthers(kinds, body, ty) {
      forall d | Fits(kinds, body, d)
        ensures Cast(kinds, Kids(body, None, d), ty) == OfType(Kids(body, None, d), ty)
      {
        NoOthersInCast(kinds, body, ty, d);
      }
    } else {
      var r :| Overlaps(kinds, r, ty) && Most(body, None, r.ty, r.tag) > 0;
      var narrow := Narrowed(kinds, r, ty);
      NarrowedIsUsable(kinds, body, r, ty);
      var d := MostReached(narrow, body, None, r.ty, r.tag);
      NarrowedFits(kinds, body, d, r, ty);
      KindsFit(narrow, body, None, d);
      var kids := Kids(body, None, d);
      var q := CountedAt(kids, r);
      CastMembers(kinds, kids, ty, kids[q]);
      OnlyOfType(kids, ty);
      assert kids[q] in Cast(kinds, kids, ty) && kids[q] !in OfType(kids, ty);
    }
  }

  lemma {:induction false} AccessorAnswers(body: Rule, a: Accessor, k: nat)
    requires IsFor(body, a, k)
    ensures Answers(body, a)
  {
    forall kinds, d | Usable(kinds, body) && Fits(kinds, body, d) ensures AnswersOver(kinds, body, a, d) {
      if a.Children? {
        if NoOthers(kinds, body, a.ty) {
          NoOthersInCast(kinds, body, a.ty, d);
          forall kid | kid in Kids(body, None, d) && kid.ty == a.ty ensures kid.tag == a.tag {
            EveryOwnChildHasTheLabel(body, a.ty, d, kid);
          }
        }
      } else if LabelsAppearOnce(body, a.ty) && OthersBehind(kinds, body, a.ty) {
        GroupFlags(body, a.ty);
        assert PositionalIsSound(Group(body, a.ty));
        PickedIsTheChild(kinds, body, a.ty, d, k);
        assert a.Child? ==> k == 0;
      }
    }
  }

  // -------------------------------------------------------------------
  // The generator.
  // -------------------------------------------------------------------

  ghost predicate Has(accessors: seq<Accessor>, ty: string, tag: Tag) {
    exists i :: 0 <= i < |accessors| && accessors[i].ty == ty && accessors[i].tag == tag
  }

  // No two for one type and label.
  ghost predicate OneEach(accessors: seq<Accessor>) {
    forall i, j :: 0 <= i < j < |accessors| ==>
      accessors[i].ty != accessors[j].ty || accessors[i].tag != accessors[j].tag
  }

  // Written for an entry of one of the types.
  ghost predicate IsOneOf(body: Rule, types: seq<string>, a: Accessor) {
    a.ty in types && exists k :: IsFor(body, a, k)
  }

  // The accessors of the types done so far.
  ghost predicate Generated(body: Rule, types: seq<string>, accessors: seq<Accessor>) {
    && OneEach(accessors)
    && (forall i :: 0 <= i < |accessors| ==> IsOneOf(body, types, accessors[i]))
    && (forall ty, k: nat :: ty in types && HasAccessors(body, ty) && k < |Group(body, ty)| ==>
          Has(accessors, ty, Group(body, ty)[k].tag))
  }

  lemma {:induction false} EntryIsFor(body: Rule, a: Accessor, k: nat)
    requires HasAccessors(body, a.ty) && k < |Group(body, a.ty)|
    requires var group := Group(body, a.ty);
             a == if |group| > 1 then NthChild(group[k].tag, a.ty, k)
                  else if group[0].repeated then Children(group[0].tag, a.ty)
                  else Child(group[0].tag, a.ty)
    ensures IsFor(body, a, k)
  {
    GroupFlags(body, a.ty);
    assert a.tag == Group(body, a.ty)[k].tag;
  }

  lemma {:induction false} SoundHasAccessors(body: Rule, ty: string)
    requires Group(body, ty) != []
    ensures HasAccessors(body, ty) <==> |Group(body, ty)| == 1 || PositionalIsSound(Group(body, ty))
  {
    GroupFlags(body, ty);
  }

  // The accessors of one type, in the order of its group.
  method ForGroup(body: Rule, ty: string, group: seq<Entry>) returns (accessors: seq<Accessor>)
    requires group == Group(body, ty) && group != []
    ensures |accessors| == if HasAccessors(body, ty) then |group| else 0
    ensures forall k :: 0 <= k < |accessors| ==> accessors[k].ty == ty && IsFor(body, accessors[k], k)
  {
    SoundHasAccessors(body, ty);
    if |group| == 1 {
      var entry := group[0];
      accessors := [if entry.repeated then Children(entry.tag, ty) else Child(entry.tag, ty)];
      EntryIsFor(body, accessors[0], 0);
    } else if PositionalIsSound(group) {
      accessors := seq(|group|, k requires 0 <= k < |group| => NthChild(group[k].tag, ty, k));
      forall k | 0 <= k < |group| ensures IsFor(body, accessors[k], k) {
        EntryIsFor(body, accessors[k], k);
      }
    } else {
      accessors := [];
    }
  }

  lemma {:induction false} GeneratedOneMore(
    body: Rule, types: seq<string>, accessors: seq<Accessor>, ty: string, more: seq<Accessor>)
    requires Generated(body, types, accessors) && ty !in types && Group(body, ty) != []
    requires |more| == if HasAccessors(body, ty) then |Group(body, ty)| else 0
    requires forall k :: 0 <= k < |more| ==> more[k].ty == ty && IsFor(body, more[k], k)
    ensures Generated(body, types + [ty], accessors + more)
  {
    var all := accessors + more;
    forall i, j | 0 <= i < j < |all| ensures all[i].ty != all[j].ty || all[i].tag != all[j].tag {
      GroupTags(body, ty);
      if i >= |accessors| {
        assert Tags(Group(body, ty))[i - |accessors|] != Tags(Group(body, ty))[j - |accessors|];
      }
    }
    forall i | 0 <= i < |all| ensures IsOneOf(body, types + [ty], all[i]) {
      if i < |accessors| {
        assert IsOneOf(body, types, accessors[i]) && all[i] == accessors[i];
      } else {
        assert IsFor(body, all[i], i - |accessors|);
      }
    }
    forall other, k: nat | other in types + [ty] && HasAccessors(body, other) && k < |Group(body, other)|
      ensures Has(all, other, Group(body, other)[k].tag)
    {
      if other == ty {
        assert all[|accessors| + k] == more[k];
      } else {
        HasStays(accessors, more, other, Group(body, other)[k].tag);
      }
    }
  }

  lemma {:induction false} HasStays(accessors: seq<Accessor>, more: seq<Accessor>, ty: string, tag: Tag)
    ensures Has(accessors, ty, tag) ==> Has(accessors + more, ty, tag)
  {
    if i :| 0 <= i < |accessors| && accessors[i].ty == ty && accessors[i].tag == tag {
      assert (accessors + more)[i] == accessors[i];
    }
  }

  method NodeTypes(merged: seq<Entry>) returns (seen: seq<string>)
    ensures forall ty :: ty in seen <==> exists k :: 0 <= k < |merged| && merged[k].target == ToNode(ty)
    ensures Distinct(seen)
  {
    seen := [];
    for n := 0 to |merged|
      invariant forall ty :: ty in seen <==> exists k :: 0 <= k < n && merged[k].target == ToNode(ty)
      invariant Distinct(seen)
    {
      var target := merged[n].target;
      if target.ToNode? && target.name !in seen {
        seen := seen + [target.name];
      }
    }
  }

  lemma {:induction false} NamingMentions(entries: seq<Entry>, ty: string)
    ensures Naming(entries, ty) != [] <==> exists k :: 0 <= k < |entries| && entries[k].target == ToNode(ty)
  {
    if entries != [] {
      NamingMentions(entries[1..], ty);
      if k :| 0 <= k < |entries[1..]| && entries[1..][k].target == ToNode(ty) {
        assert entries[k + 1].target == ToNode(ty);
      }
      if k :| 0 <= k < |entries| && entries[k].target == ToNode(ty) {
        if k > 0 { assert entries[1..][k - 1].target == ToNode(ty); }
      }
    }
  }

  // What is generated for a rule: each accessor returns what its label names,
  // no type has two for one label, and a label has one exactly when its type is
  // mentioned with no other label, or passes the soundness test. A type with one
  // label gets all its children when the entry is repeated, the first otherwise.
  method Generate(body: Rule) returns (accessors: seq<Accessor>)
    ensures forall i :: 0 <= i < |accessors| ==> Answers(body, accessors[i])
    ensures OneEach(accessors)
    ensures forall ty, tag :: Has(accessors, ty, tag) <==> Mentioned(body, ty, tag) && HasAccessors(body, ty)
    ensures forall i :: 0 <= i < |accessors| ==>
              var a, group := accessors[i], Group(body, accessors[i].ty);
              && (a.Children? <==> |group| == 1 && Repeats(body, a.ty, a.tag))
              && (a.Child? <==> |group| == 1 && !Repeats(body, a.ty, a.tag))
  {
    var entries := Collect(body, None, false, false, []);
    assert entries == Entries(body, None, false, false);
    var merged := Merge(Nodes(entries));
    var types := NodeTypes(merged);
    accessors := [];
    for k := 0 to |types|
      invariant Generated(body, types[..k], accessors)
    {
      var ty := types[k];
      assert types[..k + 1] == types[..k] + [ty] && ty in types;
      NamingMentions(merged, ty);
      var more := ForGroup(body, ty, Naming(merged, ty));
      GeneratedOneMore(body, types[..k], accessors, ty, more);
      accessors := accessors + more;
    }
    assert types[..|types|] == types;
    forall i | 0 <= i < |accessors| ensures Answers(body, accessors[i]) {
      assert IsOneOf(body, types, accessors[i]);
      var k :| IsFor(body, accessors[i], k);
      AccessorAnswers(body, accessors[i], k);
    }
    forall ty, tag ensures Has(accessors, ty, tag) <==> Mentioned(body, ty, tag) && HasAccessors(body, ty) {
      NamingMentions(merged, ty);
      LabelsAreMentioned(body, ty, tag);
      if Mentioned(body, ty, tag) && HasAccessors(body, ty) {
        var k :| 0 <= k < |Group(body, ty)| && Group(body, ty)[k].tag == tag;
      }
    }
  }

  // The labels of a group are those mentioned.
  lemma {:induction false} LabelsAreMentioned(body: Rule, ty: string, tag: Tag)
    ensures Mentioned(body, ty, tag) <==> exists k :: 0 <= k < |Group(body, ty)| && Group(body, ty)[k].tag == tag
  {
    GroupIsMergedNaming(body, ty);
    MergedMentions(MentionsOf(body, ty), tag);
  }
}
