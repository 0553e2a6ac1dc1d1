// When accessors by position return the child they are named for, whatever the
// soundness test says: the exact condition, read off the rule.
module AccessorExactness {
  import opened Common
  import opened PositionalAccessors

  // -------------------------------------------------------------------
  // What a derivation can hold.
  // -------------------------------------------------------------------

  // What a child stands for: a type and a label.
  datatype Ref = Ref(ty: string, tag: Tag)

  function RefOf(kid: Kid): Ref {
    Ref(kid.ty, kid.tag)
  }

  // Some derivation has no child that stands for `lack`.
  predicate CanLack(rule: Rule, tag: Tag, lack: Ref)
    decreases rule, 0
  {
    match rule
    case Labeled(name, inner) => CanLack(inner, Some(name), lack)
    case Node(name) => Ref(name, tag) != lack
    case Token(_) => true
    case Seq(rules) => AllCanLack(rules, lack)
    case Alt(rules) => SomeCanLack(rules, lack)
    case Opt(_) => true
    case Rep(_) => true
  }

  predicate AllCanLack(rules: seq<Rule>, lack: Ref)
    decreases rules
  {
    rules == [] || (CanLack(rules[0], None, lack) && AllCanLack(rules[1..], lack))
  }

  predicate SomeCanLack(rules: seq<Rule>, lack: Ref)
    decreases rules
  {
    rules != [] && (CanLack(rules[0], None, lack) || SomeCanLack(rules[1..], lack))
  }

  // Some derivation has a child that stands for `have` and none for `lack`.
  predicate CanHaveWithout(rule: Rule, tag: Tag, have: Ref, lack: Ref)
    decreases rule, 0
  {
    match rule
    case Labeled(name, inner) => CanHaveWithout(inner, Some(name), have, lack)
    case Node(name) => Ref(name, tag) == have && have != lack
    case Token(_) => false
    case Seq(rules) => OneCanHaveWithout(rules, have, lack)
    case Alt(rules) => SomeCanHaveWithout(rules, have, lack)
    case Opt(inner) => CanHaveWithout(inner, tag, have, lack)
    case Rep(inner) => CanHaveWithout(inner, tag, have, lack)
  }

  // One part has it, and all can do without the other.
  predicate OneCanHaveWithout(rules: seq<Rule>, have: Ref, lack: Ref)
    decreases rules
  {
    rules != [] &&
    ((CanHaveWithout(rules[0], None, have, lack) && AllCanLack(rules[1..], lack)) ||
     (CanLack(rules[0], None, lack) && OneCanHaveWithout(rules[1..], have, lack)))
  }

  predicate SomeCanHaveWithout(rules: seq<Rule>, have: Ref, lack: Ref)
    decreases rules
  {
    rules != [] && (CanHaveWithout(rules[0], None, have, lack) || SomeCanHaveWithout(rules[1..], have, lack))
  }

  // Some derivation has a child for `first` before one for `second`.
  predicate CanPrecede(rule: Rule, tag: Tag, first: Ref, second: Ref)
    decreases rule, 0
  {
    match rule
    case Labeled(name, inner) => CanPrecede(inner, Some(name), first, second)
    case Node(_) => false
    case Token(_) => false
    case Seq(rules) => PartsCanPrecede(rules, first, second)
    case Alt(rules) => SomeCanPrecede(rules, first, second)
    case Opt(inner) => CanPrecede(inner, tag, first, second)
    case Rep(inner) => Most(inner, tag, first.ty, first.tag) > 0 && Most(inner, tag, second.ty, second.tag) > 0
  }

  // Within one part, or across two.
  predicate PartsCanPrecede(rules: seq<Rule>, first: Ref, second: Ref)
    decreases rules
  {
    rules != [] &&
    (CanPrecede(rules[0], None, first, second) || PartsCanPrecede(rules[1..], first, second) ||
     (Most(rules[0], None, first.ty, first.tag) > 0 && Total(rules[1..], second.ty, second.tag) > 0))
  }

  predicate SomeCanPrecede(rules: seq<Rule>, first: Ref, second: Ref)
    decreases rules
  {
    rules != [] && (CanPrecede(rules[0], None, first, second) || SomeCanPrecede(rules[1..], first, second))
  }

  // A child for `first` stands before one for `second`.
  predicate Precedes(kids: seq<Kid>, first: Ref, second: Ref) {
    kids != [] &&
    ((RefOf(kids[0]) == first && Count(kids[1..], second.ty, second.tag) > 0) ||
     Precedes(kids[1..], first, second))
  }

  lemma {:induction false} PrecedesAppend(a: seq<Kid>, b: seq<Kid>, first: Ref, second: Ref)
    ensures Precedes(a + b, first, second) <==>
            || Precedes(a, first, second) || Precedes(b, first, second)
            || (Count(a, first.ty, first.tag) > 0 && Count(b, second.ty, second.tag) > 0)
  {
    if a == [] {
      assert a + b == b;
    } else {
      PrecedesAppend(a[1..], b, first, second);
      assert (a + b)[0] == a[0] && (a + b)[1..] == a[1..] + b;
      CountAppend(a[1..], b, second.ty, second.tag);
    }
  }

  // -------------------------------------------------------------------
  // Whatever a derivation holds, the rule says it can.
  // -------------------------------------------------------------------

  lemma {:induction false} LackIsFound(rule: Rule, tag: Tag, d: Derivation, kinds: Kinds, lack: Ref)
    requires Fits(kinds, rule, d) && Count(Kids(rule, tag, d), lack.ty, lack.tag) == 0
    ensures CanLack(rule, tag, lack)
    decreases d, rule, 0
  {
    match rule
    case Labeled(name, inner) => LackIsFound(inner, Some(name), d, kinds, lack);
    case Node(_) =>
    case Token(_) =>
    case Seq(rules) => LackIsFoundInParts(rules, d.parts, kinds, lack);
    case Alt(rules) =>
      LackIsFound(rules[d.index], None, d.taken, kinds, lack);
      LackInBranch(rules, d.index, lack);
    case Opt(_) =>
    case Rep(_) =>
  }

  lemma {:induction false} LackIsFoundInParts(rules: seq<Rule>, parts: seq<Derivation>, kinds: Kinds, lack: Ref)
    requires |parts| == |rules| && forall k :: 0 <= k < |rules| ==> Fits(kinds, rules[k], parts[k])
    requires Count(KidsOf(rules, parts), lack.ty, lack.tag) == 0
    ensures AllCanLack(rules, lack)
    decreases parts
  {
    if rules != [] {
      CountAppend(Kids(rules[0], None, parts[0]), KidsOf(rules[1..], parts[1..]), lack.ty, lack.tag);
      LackIsFound(rules[0], None, parts[0], kinds, lack);
      LackIsFoundInParts(rules[1..], parts[1..], kinds, lack);
    }
  }

  lemma {:induction false} LackInBranch(rules: seq<Rule>, index: nat, lack: Ref)
    requires index < |rules| && CanLack(rules[index], None, lack)
    ensures SomeCanLack(rules, lack)
  {
    if index > 0 { LackInBranch(rules[1..], index - 1, lack); }
  }

  lemma {:induction false} OneCounted(kid: Kid, r: Ref)
    ensures Count([kid], r.ty, r.tag) == if RefOf(kid) == r then 1 else 0
  {
    assert [kid][1..] == [];
    assert Count([], r.ty, r.tag) == 0;
  }

  ghost predicate HasWithout(kids: seq<Kid>, have: Ref, lack: Ref) {
    Count(kids, have.ty, have.tag) > 0 && Count(kids, lack.ty, lack.tag) == 0
  }

  lemma {:induction false} WithoutIsFound(rule: Rule, tag: Tag, d: Derivation, kinds: Kinds, have: Ref, lack: Ref)
    requires Fits(kinds, rule, d) && HasWithout(Kids(rule, tag, d), have, lack)
    ensures CanHaveWithout(rule, tag, have, lack)
    decreases d, rule, 0
  {
    match rule
    case Labeled(name, inner) => WithoutIsFound(inner, Some(name), d, kinds, have, lack);
    case Node(name) =>
      OneCounted(Kid(tag, name, d.kind), have);
      OneCounted(Kid(tag, name, d.kind), lack);
    case Token(_) =>
    case Seq(rules) => WithoutIsFoundInParts(rules, d.parts, kinds, have, lack);
    case Alt(rules) =>
      WithoutIsFound(rules[d.index], None, d.taken, kinds, have, lack);
      WithoutInBranch(rules, d.index, have, lack);
    case Opt(inner) => WithoutIsFound(inner, tag, d.inner, kinds, have, lack);
    case Rep(inner) => WithoutIsFoundInRounds(inner, tag, d.parts, kinds, have, lack);
  }

  lemma {:induction false} WithoutIsFoundInParts(
    rules: seq<Rule>, parts: seq<Derivation>, kinds: Kinds, have: Ref, lack: Ref)
    requires |parts| == |rules| && forall k :: 0 <= k < |rules| ==> Fits(kinds, rules[k], parts[k])
    requires HasWithout(KidsOf(rules, parts), have, lack)
    ensures OneCanHaveWithout(rules, have, lack)
    decreases parts
  {
    var a, b := Kids(rules[0], None, parts[0]), KidsOf(rules[1..], parts[1..]);
    CountAppend(a, b, have.ty, have.tag);
    CountAppend(a, b, lack.ty, lack.tag);
    if Count(a, have.ty, have.tag) > 0 {
      WithoutIsFound(rules[0], None, parts[0], kinds, have, lack);
      LackIsFoundInParts(rules[1..], parts[1..], kinds, lack);
    } else {
      LackIsFound(rules[0], None, parts[0], kinds, lack);
      WithoutIsFoundInParts(rules[1..], parts[1..], kinds, have, lack);
    }
  }

  lemma {:induction false} WithoutIsFoundInRounds(
    rule: Rule, tag: Tag, parts: seq<Derivation>, kinds: Kinds, have: Ref, lack: Ref)
    requires forall k :: 0 <= k < |parts| ==> Fits(kinds, rule, parts[k])
    requires HasWithout(KidsEach(rule, tag, parts), have, lack)
    ensures CanHaveWithout(rule, tag, have, lack)
    decreases parts
  {
    var a, b := Kids(rule, tag, parts[0]), KidsEach(rule, tag, parts[1..]);
    CountAppend(a, b, have.ty, have.tag);
    CountAppend(a, b, lack.ty, lack.tag);
    if Count(a, have.ty, have.tag) > 0 {
      WithoutIsFound(rule, tag, parts[0], kinds, have, lack);
    } else {
      WithoutIsFoundInRounds(rule, tag, parts[1..], kinds, have, lack);
    }
  }

  lemma {:induction false} WithoutInBranch(rules: seq<Rule>, index: nat, have: Ref, lack: Ref)
    requires index < |rules| && CanHaveWithout(rules[index], None, have, lack)
    ensures SomeCanHaveWithout(rules, have, lack)
  {
    if index > 0 { WithoutInBranch(rules[1..], index - 1, have, lack); }
  }

  lemma {:induction false} PrecedenceIsFound(rule: Rule, tag: Tag, d: Derivation, kinds: Kinds, first: Ref, second: Ref)
    requires Fits(kinds, rule, d) && Precedes(Kids(rule, tag, d), first, second)
    ensures CanPrecede(rule, tag, first, second)
    decreases d, rule, 0
  {
    match rule
    case Labeled(name, inner) => PrecedenceIsFound(inner, Some(name), d, kinds, first, second);
    case Node(_) =>
    case Token(_) =>
    case Seq(rules) => PrecedenceIsFoundInParts(rules, d.parts, kinds, first, second);
    case Alt(rules) =>
      PrecedenceIsFound(rules[d.index], None, d.taken, kinds, first, second);
      PrecedenceInBranch(rules, d.index, first, second);
    case Opt(inner) => PrecedenceIsFound(inner, tag, d.inner, kinds, first, second);
    case Rep(inner) =>
      PrecedenceCounts(KidsEach(inner, tag, d.parts), first, second);
      if Most(inner, tag, first.ty, first.tag) == 0 { NoneInRounds(inner, tag, d.parts, first.ty, first.tag); }
      if Most(inner, tag, second.ty, second.tag) == 0 { NoneInRounds(inner, tag, d.parts, second.ty, second.tag); }
  }

  // What stands in an order is there.
  lemma {:induction false} PrecedenceCounts(kids: seq<Kid>, first: Ref, second: Ref)
    requires Precedes(kids, first, second)
    ensures Count(kids, first.ty, first.tag) > 0 && Count(kids, second.ty, second.tag) > 0
  {
    if !(RefOf(kids[0]) == first && Count(kids[1..], second.ty, second.tag) > 0) {
      PrecedenceCounts(kids[1..], first, second);
    }
  }

  lemma {:induction false} PrecedenceIsFoundInParts(
    rules: seq<Rule>, parts: seq<Derivation>, kinds: Kinds, first: Ref, second: Ref)
    requires |parts| == |rules| && forall k :: 0 <= k < |rules| ==> Fits(kinds, rules[k], parts[k])
    requires Precedes(KidsOf(rules, parts), first, second)
    ensures PartsCanPrecede(rules, first, second)
    decreases parts
  {
    var a, b := Kids(rules[0], None, parts[0]), KidsOf(rules[1..], parts[1..]);
    PrecedesAppend(a, b, first, second);
    if Precedes(a, first, second) {
      PrecedenceIsFound(rules[0], None, parts[0], kinds, first, second);
    } else if Precedes(b, first, second) {
      PrecedenceIsFoundInParts(rules[1..], parts[1..], kinds, first, second);
    } else {
      if Most(rules[0], None, first.ty, first.tag) == 0 { AtMost(rules[0], None, parts[0], first.ty, first.tag); }
      if Total(rules[1..], second.ty, second.tag) == 0 { AtMostInParts(rules[1..], parts[1..], second.ty, second.tag); }
    }
  }

  lemma {:induction false} PrecedenceInBranch(rules: seq<Rule>, index: nat, first: Ref, second: Ref)
    requires index < |rules| && CanPrecede(rules[index], None, first, second)
    ensures SomeCanPrecede(rules, first, second)
  {
    if index > 0 { PrecedenceInBranch(rules[1..], index - 1, first, second); }
  }

  // -------------------------------------------------------------------
  // Whatever the rule says it can hold, some derivation does.
  // -------------------------------------------------------------------

  lemma {:induction false} LackReached(kinds: Kinds, rule: Rule, tag: Tag, lack: Ref) returns (d: Derivation)
    requires Usable(kinds, rule) && CanLack(rule, tag, lack)
    ensures Fits(kinds, rule, d) && Count(Kids(rule, tag, d), lack.ty, lack.tag) == 0
    decreases rule, 0
  {
    match rule
    case Labeled(name, inner) => d := LackReached(kinds, inner, Some(name), lack);
    case Node(name) =>
      var kind :| kind in kinds(name);
      d := One(kind);
    case Token(_) => d := One("");
    case Seq(rules) =>
      var parts := LackReachedInParts(kinds, rules, lack);
      d := Parts(parts);
    case Alt(rules) =>
      var index := LackingBranch(rules, lack);
      d := LackReached(kinds, rules[index], None, lack);
      d := Branch(index, d);
    case Opt(_) => d := Missing;
    case Rep(_) => d := Parts([]);
  }

  lemma {:induction false} LackReachedInParts(kinds: Kinds, rules: seq<Rule>, lack: Ref)
    returns (parts: seq<Derivation>)
    requires (forall k :: 0 <= k < |rules| ==> Usable(kinds, rules[k])) && AllCanLack(rules, lack)
    ensures |parts| == |rules| && forall k :: 0 <= k < |rules| ==> Fits(kinds, rules[k], parts[k])
    ensures Count(KidsOf(rules, parts), lack.ty, lack.tag) == 0
    decreases rules
  {
    parts := [];
    if rules != [] {
      var first := LackReached(kinds, rules[0], None, lack);
      var rest := LackReachedInParts(kinds, rules[1..], lack);
      parts := [first] + rest;
      assert parts[1..] == rest;
      CountAppend(Kids(rules[0], None, first), KidsOf(rules[1..], rest), lack.ty, lack.tag);
    }
  }

  lemma {:induction false} LackingBranch(rules: seq<Rule>, lack: Ref) returns (index: nat)
    requires SomeCanLack(rules, lack)
    ensures index < |rules| && CanLack(rules[index], None, lack)
  {
    index := 0;
    if !CanLack(rules[0], None, lack) {
      index := LackingBranch(rules[1..], lack);
      index := index + 1;
    }
  }

  lemma {:induction false} WithoutReached(kinds: Kinds, rule: Rule, tag: Tag, have: Ref, lack: Ref)
    returns (d: Derivation)
    requires Usable(kinds, rule) && CanHaveWithout(rule, tag, have, lack)
    ensures Fits(kinds, rule, d) && HasWithout(Kids(rule, tag, d), have, lack)
    decreases rule, 0
  {
    match rule
    case Labeled(name, inner) => d := WithoutReached(kinds, inner, Some(name), have, lack);
    case Node(name) =>
      var kind :| kind in kinds(name);
      d := One(kind);
    case Seq(rules) =>
      var parts := WithoutReachedInParts(kinds, rules, have, lack);
      d := Parts(parts);
    case Alt(rules) =>
      var index := BranchWithout(rules, have, lack);
      d := WithoutReached(kinds, rules[index], None, have, lack);
      d := Branch(index, d);
    case Opt(inner) =>
      d := WithoutReached(kinds, inner, tag, have, lack);
      d := Present(d);
    case Rep(inner) =>
      d := WithoutReached(kinds, inner, tag, have, lack);
      OneRound(inner, tag, d);
      d := Parts([d]);
  }

  lemma {:induction false} OneRound(rule: Rule, tag: Tag, round: Derivation)
    ensures KidsEach(rule, tag, [round]) == Kids(rule, tag, round)
  {
    assert [round][1..] == [];
    assert Kids(rule, tag, round) + [] == Kids(rule, tag, round);
  }

  lemma {:induction false} WithoutReachedInParts(kinds: Kinds, rules: seq<Rule>, have: Ref, lack: Ref)
    returns (parts: seq<Derivation>)
    requires (forall k :: 0 <= k < |rules| ==> Usable(kinds, rules[k])) && OneCanHaveWithout(rules, have, lack)
    ensures |parts| == |rules| && forall k :: 0 <= k < |rules| ==> Fits(kinds, rules[k], parts[k])
    ensures HasWithout(KidsOf(rules, parts), have, lack)
    decreases rules
  {
    var first: Derivation;
    var rest: seq<Derivation>;
    if CanHaveWithout(rules[0], None, have, lack) && AllCanLack(rules[1..], lack) {
      first := WithoutReached(kinds, rules[0], None, have, lack);
      rest := LackReachedInParts(kinds, rules[1..], lack);
    } else {
      first := LackReached(kinds, rules[0], None, lack);
      rest := WithoutReachedInParts(kinds, rules[1..], have, lack);
    }
    parts := [first] + rest;
    assert parts[1..] == rest;
    CountAppend(Kids(rules[0], None, first), KidsOf(rules[1..], rest), have.ty, have.tag);
    CountAppend(Kids(rules[0], None, first), KidsOf(rules[1..], rest), lack.ty, lack.tag);
  }

  lemma {:induction false} BranchWithout(rules: seq<Rule>, have: Ref, lack: Ref) returns (index: nat)
    requires SomeCanHaveWithout(rules, have, lack)
    ensures index < |rules| && CanHaveWithout(rules[index], None, have, lack)
  {
    index := 0;
    if !CanHaveWithout(rules[0], None, have, lack) {
      index := BranchWithout(rules[1..], have, lack);
      index := index + 1;
    }
  }

  lemma {:induction false} PrecedenceReached(kinds: Kinds, rule: Rule, tag: Tag, first: Ref, second: Ref)
    returns (d: Derivation)
    requires Usable(kinds, rule) && CanPrecede(rule, tag, first, second)
    ensures Fits(kinds, rule, d) && Precedes(Kids(rule, tag, d), first, second)
    decreases rule, 0
  {
    match rule
    case Labeled(name, inner) => d := PrecedenceReached(kinds, inner, Some(name), first, second);
    case Seq(rules) =>
      var parts := PrecedenceReachedInParts(kinds, rules, first, second);
      d := Parts(parts);
    case Alt(rules) =>
      var index := BranchInOrder(rules, first, second);
      d := PrecedenceReached(kinds, rules[index], None, first, second);
      d := Branch(index, d);
    case Opt(inner) =>
      d := PrecedenceReached(kinds, inner, tag, first, second);
      d := Present(d);
    case Rep(inner) =>
      var a := MostReached(kinds, inner, tag, first.ty, first.tag);
      var b := MostReached(kinds, inner, tag, second.ty, second.tag);
      d := Parts([a, b]);
      assert [a, b][1..] == [b];
      OneRound(inner, tag, b);
      PrecedesAppend(Kids(inner, tag, a), Kids(inner, tag, b), first, second);
  }

  lemma {:induction false} PrecedenceReachedInParts(kinds: Kinds, rules: seq<Rule>, first: Ref, second: Ref)
    returns (parts: seq<Derivation>)
    requires (forall k :: 0 <= k < |rules| ==> Usable(kinds, rules[k])) && PartsCanPrecede(rules, first, second)
    ensures |parts| == |rules| && forall k :: 0 <= k < |rules| ==> Fits(kinds, rules[k], parts[k])
    ensures Precedes(KidsOf(rules, parts), first, second)
    decreases rules
  {
    var head: Derivation;
    var rest: seq<Derivation>;
    if CanPrecede(rules[0], None, first, second) {
      head := PrecedenceReached(kinds, rules[0], None, first, second);
      rest := TotalReached(kinds, rules[1..], second.ty, second.tag);
    } else if PartsCanPrecede(rules[1..], first, second) {
      head := MostReached(kinds, rules[0], None, first.ty, first.tag);
      rest := PrecedenceReachedInParts(kinds, rules[1..], first, second);
    } else {
      head := MostReached(kinds, rules[0], None, first.ty, first.tag);
      rest := TotalReached(kinds, rules[1..], second.ty, second.tag);
    }
    parts := [head] + rest;
    assert parts[1..] == rest;
    PrecedesAppend(Kids(rules[0], None, head), KidsOf(rules[1..], rest), first, second);
  }

  lemma {:induction false} BranchInOrder(rules: seq<Rule>, first: Ref, second: Ref) returns (index: nat)
    requires SomeCanPrecede(rules, first, second)
    ensures index < |rules| && CanPrecede(rules[index], None, first, second)
  {
    index := 0;
    if !CanPrecede(rules[0], None, first, second) {
      index := BranchInOrder(rules[1..], first, second);
      index := index + 1;
    }
  }

  // -------------------------------------------------------------------
  // Every child's label is one of the group's, and the group's differ.
  // -------------------------------------------------------------------

  lemma {:induction false} MentionsAppend(a: seq<Entry>, b: seq<Entry>, sought: Tag)
    ensures Mentions(a + b, sought) <==> Mentions(a, sought) || Mentions(b, sought)
  {
    assert forall k :: 0 <= k < |a| ==> (a + b)[k] == a[k];
    assert forall k :: 0 <= k < |b| ==> (a + b)[|a| + k] == b[k];
    if k :| 0 <= k < |a + b| && (a + b)[k].tag == sought {
      if k >= |a| { assert b[k - |a|].tag == sought; }
    }
    if k :| 0 <= k < |b| && b[k].tag == sought { assert (a + b)[|a| + k].tag == sought; }
  }

  lemma {:induction false} MostMentions(rule: Rule, tag: Tag, repeated: bool, optional: bool, ty: string, sought: Tag)
    requires Most(rule, tag, ty, sought) > 0
    ensures Mentions(Naming(Entries(rule, tag, repeated, optional), ty), sought)
    decreases rule, 0
  {
    match rule
    case Labeled(name, inner) => MostMentions(inner, Some(name), repeated, optional, ty, sought);
    case Node(name) => assert Naming(Entries(rule, tag, repeated, optional), ty)[0].tag == sought;
    case Token(_) =>
    case Seq(rules) => TotalMentions(rules, repeated, optional, ty, sought);
    case Alt(rules) => HighestMentions(rules, repeated, ty, sought);
    case Opt(inner) => MostMentions(inner, tag, repeated, true, ty, sought);
    case Rep(inner) => MostMentions(inner, tag, true, optional, ty, sought);
  }

  lemma {:induction false} TotalMentions(rules: seq<Rule>, repeated: bool, optional: bool, ty: string, sought: Tag)
    requires Total(rules, ty, sought) > 0
    ensures Mentions(Naming(EntriesOf(rules, repeated, optional), ty), sought)
    decreases rules
  {
    var a, b := Entries(rules[0], None, repeated, optional), EntriesOf(rules[1..], repeated, optional);
    NamingAppend(a, b, ty);
    MentionsAppend(Naming(a, ty), Naming(b, ty), sought);
    if Most(rules[0], None, ty, sought) > 0 {
      MostMentions(rules[0], None, repeated, optional, ty, sought);
    } else {
      TotalMentions(rules[1..], repeated, optional, ty, sought);
    }
  }

  lemma {:induction false} HighestMentions(rules: seq<Rule>, repeated: bool, ty: string, sought: Tag)
    requires Highest(rules, ty, sought) > 0
    ensures Mentions(Naming(EntriesOf(rules, repeated, true), ty), sought)
    decreases rules
  {
    var a, b := Entries(rules[0], None, repeated, true), EntriesOf(rules[1..], repeated, true);
    NamingAppend(a, b, ty);
    MentionsAppend(Naming(a, ty), Naming(b, ty), sought);
    if Most(rules[0], None, ty, sought) > 0 {
      MostMentions(rules[0], None, repeated, true, ty, sought);
    } else {
      HighestMentions(rules[1..], repeated, ty, sought);
    }
  }

  lemma {:induction false} MergedTagsDiffer(entries: seq<Entry>, ty: string)
    requires OneType(entries, ty)
    ensures forall i, j :: 0 <= i < j < |Merged(entries)| ==> Merged(entries)[i].tag != Merged(entries)[j].tag
    decreases |entries|
  {
    if entries != [] {
      var e := entries[0];
      var rest := Without(entries[1..], e);
      WithoutOneType(entries[1..], e, ty);
      MergedTagsDiffer(rest, ty);
      MergedMentions(rest, e.tag);
      Unmentioned(entries[1..], e, ty);
      assert forall k :: 0 <= k < |Merged(rest)| ==> Merged(rest)[k].tag != e.tag;
    }
  }

  lemma {:induction false} Unmentioned(entries: seq<Entry>, e: Entry, ty: string)
    requires OneType(entries, ty) && e.target == ToNode(ty)
    ensures !Mentions(Without(entries, e), e.tag)
  {
    if entries != [] {
      Unmentioned(entries[1..], e, ty);
      if !SameKey(entries[0], e) { MentionsFirst(Without(entries, e), e.tag); }
    }
  }

  // -------------------------------------------------------------------
  // Children in the group's order, none skipped.
  // -------------------------------------------------------------------

  ghost predicate TagIn(tags: seq<Tag>, tag: Tag) {
    exists i :: 0 <= i < |tags| && tags[i] == tag
  }

  // Each label at most once, no later one without an earlier or before it.
  ghost predicate InOrder(kids: seq<Kid>, ty: string, tags: seq<Tag>) {
    && (forall i :: 0 <= i < |tags| ==> Count(kids, ty, tags[i]) <= 1)
    && (forall i, j :: 0 <= i < j < |tags| ==>
          && !HasWithout(kids, Ref(ty, tags[j]), Ref(ty, tags[i]))
          && !Precedes(kids, Ref(ty, tags[j]), Ref(ty, tags[i])))
  }

  lemma {:induction false} OrderedPicks(kids: seq<Kid>, ty: string, tags: seq<Tag>, i: nat)
    requires Distinct(tags) && InOrder(kids, ty, tags) && i < |tags|
    requires forall k :: 0 <= k < |kids| ==> kids[k].ty == ty && TagIn(tags, kids[k].tag)
    ensures i < |kids| ==> kids[i].tag == tags[i]
    ensures i >= |kids| ==> Count(kids, ty, tags[i]) == 0
  {
    if kids != [] {
      FirstIsFirst(kids, ty, tags);
      if i > 0 {
        RestInOrder(kids, ty, tags);
        OrderedPicks(kids[1..], ty, tags[1..], i - 1);
      }
    }
  }

  lemma {:induction false} FirstIsFirst(kids: seq<Kid>, ty: string, tags: seq<Tag>)
    requires Distinct(tags) && InOrder(kids, ty, tags) && kids != []
    requires forall k :: 0 <= k < |kids| ==> kids[k].ty == ty && TagIn(tags, kids[k].tag)
    ensures tags != [] && kids[0].tag == tags[0]
  {
    assert TagIn(tags, kids[0].tag);
    var j :| 0 <= j < |tags| && tags[j] == kids[0].tag;
    CountOfMember(kids, 0);
    if j > 0 {
      var late, early := Ref(ty, tags[j]), Ref(ty, tags[0]);
      assert !HasWithout(kids, late, early) && !Precedes(kids, late, early);
    }
  }

  lemma {:induction false} RestInOrder(kids: seq<Kid>, ty: string, tags: seq<Tag>)
    requires Distinct(tags) && InOrder(kids, ty, tags) && kids != [] && tags != [] && kids[0].tag == tags[0]
    requires forall k :: 0 <= k < |kids| ==> kids[k].ty == ty && TagIn(tags, kids[k].tag)
    ensures Distinct(tags[1..]) && InOrder(kids[1..], ty, tags[1..])
    ensures forall k :: 0 <= k < |kids[1..]| ==> TagIn(tags[1..], kids[1..][k].tag)
  {
    assert Count(kids, ty, tags[0]) <= 1;
    forall i | 0 <= i < |tags[1..]| ensures Count(kids[1..], ty, tags[1..][i]) == Count(kids, ty, tags[i + 1]) {
      assert tags[i + 1] != tags[0];
    }
    forall i, j | 0 <= i < j < |tags[1..]|
      ensures !HasWithout(kids[1..], Ref(ty, tags[1..][j]), Ref(ty, tags[1..][i]))
      ensures !Precedes(kids[1..], Ref(ty, tags[1..][j]), Ref(ty, tags[1..][i]))
    {
      var late, early := Ref(ty, tags[j + 1]), Ref(ty, tags[i + 1]);
      assert !HasWithout(kids, late, early) && !Precedes(kids, late, early);
    }
    forall k | 0 <= k < |kids[1..]| ensures TagIn(tags[1..], kids[1..][k].tag) {
      CountOfMember(kids[1..], k);
      assert TagIn(tags, kids[k + 1].tag);
      var i :| 0 <= i < |tags| && tags[i] == kids[k + 1].tag;
      assert i > 0 && tags[1..][i - 1] == kids[1..][k].tag;
    }
  }

  lemma {:induction false} PrecedesOfType(kids: seq<Kid>, ty: string, first: Tag, second: Tag)
    ensures Precedes(OfType(kids, ty), Ref(ty, first), Ref(ty, second)) <==>
            Precedes(kids, Ref(ty, first), Ref(ty, second))
  {
    if kids != [] {
      PrecedesOfType(kids[1..], ty, first, second);
      CountOfType(kids[1..], ty, second);
    }
  }

  lemma {:induction false} PrecedesAt(kids: seq<Kid>, first: Ref, second: Ref) returns (p: nat, q: nat)
    requires Precedes(kids, first, second)
    ensures p < q < |kids| && RefOf(kids[p]) == first && RefOf(kids[q]) == second
  {
    if RefOf(kids[0]) == first && Count(kids[1..], second.ty, second.tag) > 0 {
      q := CountedAt(kids[1..], second);
      p, q := 0, q + 1;
    } else {
      p, q := PrecedesAt(kids[1..], first, second);
      p, q := p + 1, q + 1;
    }
  }

  lemma {:induction false} CountedAt(kids: seq<Kid>, sought: Ref) returns (q: nat)
    requires Count(kids, sought.ty, sought.tag) > 0
    ensures q < |kids| && RefOf(kids[q]) == sought
  {
    q := 0;
    if RefOf(kids[0]) != sought {
      q := CountedAt(kids[1..], sought);
      q := q + 1;
    }
  }

  lemma {:induction false} CountedTwice(kids: seq<Kid>, p: nat, q: nat)
    requires p < q < |kids| && RefOf(kids[p]) == RefOf(kids[q])
    ensures Count(kids, kids[p].ty, kids[p].tag) >= 2
  {
    if p == 0 {
      CountOfMember(kids[1..], q - 1);
    } else {
      CountedTwice(kids[1..], p - 1, q - 1);
    }
  }

  lemma {:induction false} OnlyPlace(kids: seq<Kid>, p: nat, q: nat)
    requires p < |kids| && q < |kids| && RefOf(kids[p]) == RefOf(kids[q])
    requires Count(kids, kids[p].ty, kids[p].tag) == 1
    ensures p == q
  {
    if p < q { CountedTwice(kids, p, q); }
    if q < p { CountedTwice(kids, q, p); }
  }

  // -------------------------------------------------------------------
  // What a cast picks: a type's own children, and others of a kind it accepts.
  // -------------------------------------------------------------------

  predicate Castable(kinds: Kinds, kid: Kid, ty: string) {
    kid.kind in kinds(ty)
  }

  // A reference to another type that has a kind in common with `ty`.
  predicate Overlaps(kinds: Kinds, r: Ref, ty: string) {
    r.ty != ty && kinds(r.ty) * kinds(ty) != {}
  }

  lemma {:induction false} CountOfCast(kinds: Kinds, kids: seq<Kid>, ty: string, r: Ref)
    requires forall kid :: kid in kids && RefOf(kid) == r ==> Castable(kinds, kid, ty)
    ensures Count(Cast(kinds, kids, ty), r.ty, r.tag) == Count(kids, r.ty, r.tag)
  {
    if kids != [] {
      assert kids[0] in kids;
      CountOfCast(kinds, kids[1..], ty, r);
    }
  }

  lemma {:induction false} PrecedesOfCast(kinds: Kinds, kids: seq<Kid>, ty: string, first: Ref, second: Ref)
    requires forall kid :: kid in kids && (RefOf(kid) == first || RefOf(kid) == second) ==> Castable(kinds, kid, ty)
    ensures Precedes(Cast(kinds, kids, ty), first, second) <==> Precedes(kids, first, second)
  {
    if kids != [] {
      assert kids[0] in kids;
      PrecedesOfCast(kinds, kids[1..], ty, first, second);
      CountOfCast(kinds, kids[1..], ty, second);
    }
  }

  lemma {:induction false} CastMembers(kinds: Kinds, kids: seq<Kid>, ty: string, kid: Kid)
    ensures kid in Cast(kinds, kids, ty) <==> kid in kids && Castable(kinds, kid, ty)
  {
    if kids != [] { CastMembers(kinds, kids[1..], ty, kid); }
  }

  // Where no other castable child stands before one of the type's own, the cast
  // picks the type's own children first.
  lemma {:induction false} OwnComeFirst(kinds: Kinds, kids: seq<Kid>, ty: string)
    requires forall kid :: kid in kids ==> kid.kind in kinds(kid.ty)
    requires forall r, tag :: Overlaps(kinds, r, ty) ==> !Precedes(kids, r, Ref(ty, tag))
    ensures OfType(kids, ty) <= Cast(kinds, kids, ty)
    ensures forall k :: |OfType(kids, ty)| <= k < |Cast(kinds, kids, ty)| ==> Cast(kinds, kids, ty)[k].ty != ty
  {
    if kids != [] {
      var first, rest := kids[0], kids[1..];
      assert first in kids && first.kind in kinds(first.ty);
      forall r, tag | Overlaps(kinds, r, ty) ensures !Precedes(rest, r, Ref(ty, tag)) {
        assert !Precedes(kids, r, Ref(ty, tag));
      }
      OwnComeFirst(kinds, rest, ty);
      if Castable(kinds, first, ty) && first.ty != ty {
        assert first.kind in kinds(first.ty) * kinds(ty);
        if OfType(rest, ty) != [] {
          OfTypeWithin(rest, ty, 0);
          var own := OfType(rest, ty)[0];
          var k :| 0 <= k < |rest| && rest[k] == own;
          CountOfMember(rest, k);
          assert Overlaps(kinds, RefOf(first), ty) && Precedes(kids, RefOf(first), Ref(ty, own.tag));
        }
      }
    }
  }

  // -------------------------------------------------------------------
  // The exact condition.
  // -------------------------------------------------------------------

  // No later label of the group without an earlier one, nor before it.
  ghost predicate LabelsInOrder(body: Rule, ty: string) {
    forall i: nat, j: nat :: i < j < |Group(body, ty)| ==>
      && !CanHaveWithout(body, None, OwnRef(body, ty, j), OwnRef(body, ty, i))
      && !CanPrecede(body, None, OwnRef(body, ty, j), OwnRef(body, ty, i))
  }

  // No child of another type that the cast takes for one of this, without each
  // label of the group or before it.
  ghost predicate OthersBehind(kinds: Kinds, body: Rule, ty: string) {
    forall r, j: nat :: Overlaps(kinds, r, ty) && j < |Group(body, ty)| ==>
      !CanHaveWithout(body, None, r, OwnRef(body, ty, j)) && !CanPrecede(body, None, r, OwnRef(body, ty, j))
  }

  function OwnRef(body: Rule, ty: string, j: nat): Ref
    requires j < |Group(body, ty)|
  {
    Ref(ty, Group(body, ty)[j].tag)
  }

  function Tags(group: seq<Entry>): (r: seq<Tag>)
    ensures |r| == |group| && forall k :: 0 <= k < |r| ==> r[k] == group[k].tag
  {
    seq(|group|, k requires 0 <= k < |group| => group[k].tag)
  }

  lemma {:induction false} GroupTags(body: Rule, ty: string)
    ensures Distinct(Tags(Group(body, ty)))
    ensures forall sought :: Most(body, None, ty, sought) > 0 ==> TagIn(Tags(Group(body, ty)), sought)
  {
    var entries := Naming(Entries(body, None, false, false), ty);
    var tags := Tags(Group(body, ty));
    GroupIsMergedNaming(body, ty);
    MergedTagsDiffer(entries, ty);
    forall sought | Most(body, None, ty, sought) > 0 ensures TagIn(tags, sought) {
      MostMentions(body, None, false, false, ty, sought);
      MergedMentions(entries, sought);
      var k :| 0 <= k < |Merged(entries)| && Merged(entries)[k].tag == sought;
      assert tags[k] == sought;
    }
  }

  lemma {:induction false} OwnTag(body: Rule, ty: string, d: Derivation, tag: Tag)
    requires Count(Kids(body, None, d), ty, tag) > 0
    ensures TagIn(Tags(Group(body, ty)), tag)
  {
    GroupTags(body, ty);
    if Most(body, None, ty, tag) == 0 { AtMost(body, None, d, ty, tag); }
  }

  // The children of one derivation, when the rule keeps its labels in order.
  lemma {:induction false} DerivationInOrder(kinds: Kinds, body: Rule, ty: string, d: Derivation)
    requires Fits(kinds, body, d) && LabelsAppearOnce(body, ty) && LabelsInOrder(body, ty)
    ensures var kids, tags := OfType(Kids(body, None, d), ty), Tags(Group(body, ty));
            InOrder(kids, ty, tags) && forall k :: 0 <= k < |kids| ==> kids[k].ty == ty && TagIn(tags, kids[k].tag)
  {
    var all := Kids(body, None, d);
    var kids, group := OfType(all, ty), Group(body, ty);
    var tags := Tags(group);
    forall i: nat | i < |tags| ensures Count(kids, ty, tags[i]) <= 1 {
      assert Most(body, None, ty, group[i].tag) <= 1;
      AtMost(body, None, d, ty, tags[i]);
      CountOfType(all, ty, tags[i]);
    }
    forall i: nat, j: nat | i < j < |tags|
      ensures !HasWithout(kids, Ref(ty, tags[j]), Ref(ty, tags[i]))
      ensures !Precedes(kids, Ref(ty, tags[j]), Ref(ty, tags[i]))
    {
      var late, early := Ref(ty, tags[j]), Ref(ty, tags[i]);
      CountOfType(all, ty, tags[i]);
      CountOfType(all, ty, tags[j]);
      PrecedesOfType(all, ty, tags[j], tags[i]);
      assert !CanHaveWithout(body, None, OwnRef(body, ty, j), OwnRef(body, ty, i));
      if HasWithout(all, late, early) { WithoutIsFound(body, None, d, kinds, late, early); }
      if Precedes(all, late, early) { PrecedenceIsFound(body, None, d, kinds, late, early); }
    }
    OnlyOfType(all, ty);
    forall k | 0 <= k < |kids| ensures TagIn(tags, kids[k].tag) {
      CountOfMember(kids, k);
      CountOfType(all, ty, kids[k].tag);
      OwnTag(body, ty, d, kids[k].tag);
    }
  }

  // A derivation's own children come first in the cast, all labels among them
  // where anything follows.
  lemma {:induction false} CastOfDerivation(kinds: Kinds, body: Rule, ty: string, d: Derivation)
    requires Fits(kinds, body, d) && OthersBehind(kinds, body, ty)
    ensures var all := Kids(body, None, d);
            var own, cast := OfType(all, ty), Cast(kinds, all, ty);
            && own <= cast
            && (|own| < |cast| ==>
                  forall j: nat :: j < |Group(body, ty)| ==> Count(own, ty, Group(body, ty)[j].tag) > 0)
  {
    var all := Kids(body, None, d);
    var own, cast := OfType(all, ty), Cast(kinds, all, ty);
    KindsFit(kinds, body, None, d);
    forall r, tag | Overlaps(kinds, r, ty) ensures !Precedes(all, r, Ref(ty, tag)) {
      if Precedes(all, r, Ref(ty, tag)) {
        PrecedenceCounts(all, r, Ref(ty, tag));
        OwnTag(body, ty, d, tag);
        var j: nat :| j < |Group(body, ty)| && Tags(Group(body, ty))[j] == tag;
        PrecedenceIsFound(body, None, d, kinds, r, OwnRef(body, ty, j));
      }
    }
    OwnComeFirst(kinds, all, ty);
    if |own| < |cast| {
      var other := cast[|own|];
      CastMembers(kinds, all, ty, other);
      var k :| 0 <= k < |all| && all[k] == other;
      CountOfMember(all, k);
      assert other.kind in kinds(other.ty) * kinds(ty);
      forall j: nat | j < |Group(body, ty)| ensures Count(own, ty, Group(body, ty)[j].tag) > 0 {
        var r, sought := RefOf(other), OwnRef(body, ty, j);
        CountOfType(all, ty, sought.tag);
        assert Overlaps(kinds, r, ty);
        if Count(all, ty, sought.tag) == 0 { WithoutIsFound(body, None, d, kinds, r, sought); }
      }
    }
  }

  lemma {:induction false} InOrderIsTheChild(kinds: Kinds, body: Rule, ty: string, d: Derivation, i: nat)
    requires Fits(kinds, body, d) && i < |Group(body, ty)|
    requires LabelsAppearOnce(body, ty) && LabelsInOrder(body, ty) && OthersBehind(kinds, body, ty)
    ensures IsTheChild(Kids(body, None, d), ty, Group(body, ty)[i].tag, Nth(kinds, Kids(body, None, d), ty, i))
  {
    var all, tags := Kids(body, None, d), Tags(Group(body, ty));
    var kids := OfType(all, ty);
    GroupTags(body, ty);
    CastOfDerivation(kinds, body, ty, d);
    DerivationInOrder(kinds, body, ty, d);
    OrderedPicks(kids, ty, tags, i);
    CountOfType(all, ty, tags[i]);
    assert Group(body, ty)[i].tag == tags[i];
    if i < |kids| {
      OfTypeWithin(all, ty, i);
      CountOfMember(kids, i);
      assert Count(kids, ty, tags[i]) <= 1;
    }
  }

  // What exact accessors say of the places in a cast.
  lemma {:induction false} ExactPlace(kinds: Kinds, body: Rule, ty: string, d: Derivation, i: nat)
    requires Exact(kinds, body, ty) && Fits(kinds, body, d) && i < |Group(body, ty)|
    ensures var all, tag := Kids(body, None, d), Group(body, ty)[i].tag;
            var cast := Cast(kinds, all, ty);
            && Count(cast, ty, tag) == Count(all, ty, tag)
            && (Count(cast, ty, tag) > 0 <==> i < |cast|)
            && (i < |cast| ==> RefOf(cast[i]) == Ref(ty, tag) && Count(cast, ty, tag) == 1)
  {
    var all, r := Kids(body, None, d), OwnRef(body, ty, i);
    KindsFit(kinds, body, None, d);
    CountOfCast(kinds, all, ty, r);
    assert IsTheChild(all, ty, r.tag, Nth(kinds, all, ty, i));
  }

  lemma {:induction false} ExactIsInOrder(kinds: Kinds, body: Rule, ty: string, i: nat, j: nat)
    requires Usable(kinds, body) && Exact(kinds, body, ty) && i < j < |Group(body, ty)|
    ensures !CanHaveWithout(body, None, OwnRef(body, ty, j), OwnRef(body, ty, i))
    ensures !CanPrecede(body, None, OwnRef(body, ty, j), OwnRef(body, ty, i))
  {
    var early, late := OwnRef(body, ty, i), OwnRef(body, ty, j);
    if CanHaveWithout(body, None, late, early) {
      var d := WithoutReached(kinds, body, None, late, early);
      ExactPlace(kinds, body, ty, d, i);
      ExactPlace(kinds, body, ty, d, j);
    }
    if CanPrecede(body, None, late, early) {
      var d := PrecedenceReached(kinds, body, None, late, early);
      KindsFit(kinds, body, None, d);
      PlacesInOrder(kinds, body, ty, d, late, early, j, i);
    }
  }

  // Exactness lets no castable child stand before one of the group's, unless it
  // is an earlier one of the group's.
  lemma {:induction false} PlacesInOrder(
    kinds: Kinds, body: Rule, ty: string, d: Derivation, first: Ref, second: Ref, j: nat, i: nat)
    requires Exact(kinds, body, ty) && Fits(kinds, body, d) && i < |Group(body, ty)| && second == OwnRef(body, ty, i)
    requires forall kid :: kid in Kids(body, None, d) && RefOf(kid) == first ==> Castable(kinds, kid, ty)
    requires first.ty == ty ==> i < j < |Group(body, ty)| && first == OwnRef(body, ty, j)
    ensures !Precedes(Kids(body, None, d), first, second)
  {
    var all := Kids(body, None, d);
    var cast := Cast(kinds, all, ty);
    KindsFit(kinds, body, None, d);
    PrecedesOfCast(kinds, all, ty, first, second);
    if Precedes(cast, first, second) {
      var p, q := PrecedesAt(cast, first, second);
      CountOfMember(cast, q);
      ExactPlace(kinds, body, ty, d, i);
      OnlyPlace(cast, q, i);
      if first.ty == ty {
        CountOfMember(cast, p);
        ExactPlace(kinds, body, ty, d, j);
        OnlyPlace(cast, p, j);
      } else {
        ExactPlace(kinds, body, ty, d, p);
      }
    }
  }

  // The kinds of `r` narrowed to those `ty` accepts as well.
  function Narrowed(kinds: Kinds, r: Ref, ty: string): Kinds {
    name => if name == r.ty then kinds(r.ty) * kinds(ty) else kinds(name)
  }

  lemma {:induction false} NarrowedIsUsable(kinds: Kinds, rule: Rule, r: Ref, ty: string)
    requires Usable(kinds, rule) && Overlaps(kinds, r, ty)
    ensures Usable(Narrowed(kinds, r, ty), rule)
  {
    match rule
    case Labeled(_, inner) => NarrowedIsUsable(kinds, inner, r, ty);
    case Node(_) =>
    case Token(_) =>
    case Seq(rules) => forall k | 0 <= k < |rules| { NarrowedIsUsable(kinds, rules[k], r, ty); }
    case Alt(rules) => forall k | 0 <= k < |rules| { NarrowedIsUsable(kinds, rules[k], r, ty); }
    case Opt(inner) => NarrowedIsUsable(kinds, inner, r, ty);
    case Rep(inner) => NarrowedIsUsable(kinds, inner, r, ty);
  }

  lemma {:induction false} NarrowedFits(kinds: Kinds, rule: Rule, d: Derivation, r: Ref, ty: string)
    requires Fits(Narrowed(kinds, r, ty), rule, d)
    ensures Fits(kinds, rule, d)
    decreases d, rule
  {
    match rule
    case Labeled(_, inner) => NarrowedFits(kinds, inner, d, r, ty);
    case Node(_) =>
    case Token(_) =>
    case Seq(rules) => forall k | 0 <= k < |rules| { NarrowedFits(kinds, rules[k], d.parts[k], r, ty); }
    case Alt(rules) => NarrowedFits(kinds, rules[d.index], d.taken, r, ty);
    case Opt(inner) => if d.Present? { NarrowedFits(kinds, inner, d.inner, r, ty); }
    case Rep(inner) => forall k | 0 <= k < |d.parts| { NarrowedFits(kinds, inner, d.parts[k], r, ty); }
  }

  lemma {:induction false} ExactKeepsOthersBehind(kinds: Kinds, body: Rule, ty: string, r: Ref, j: nat)
    requires Usable(kinds, body) && Exact(kinds, body, ty) && Overlaps(kinds, r, ty) && j < |Group(body, ty)|
    ensures !CanHaveWithout(body, None, r, OwnRef(body, ty, j)) && !CanPrecede(body, None, r, OwnRef(body, ty, j))
  {
    var narrow, own := Narrowed(kinds, r, ty), OwnRef(body, ty, j);
    NarrowedIsUsable(kinds, body, r, ty);
    if CanHaveWithout(body, None, r, own) {
      var d := WithoutReached(narrow, body, None, r, own);
      NarrowedFits(kinds, body, d, r, ty);
      KindsFit(narrow, body, None, d);
      var all := Kids(body, None, d);
      CountOfCast(kinds, all, ty, r);
      var p := CountedAt(Cast(kinds, all, ty), r);
      ExactPlace(kinds, body, ty, d, j);
      ExactPlace(kinds, body, ty, d, p);
    }
    if CanPrecede(body, None, r, own) {
      var d := PrecedenceReached(narrow, body, None, r, own);
      NarrowedFits(kinds, body, d, r, ty);
      KindsFit(narrow, body, None, d);
      PlacesInOrder(kinds, body, ty, d, r, own, 0, j);
    }
  }

  // Accessors by position are exact for a type exactly when, in no derivation,
  // a label of its group appears twice, appears without one before it in the
  // group, or stands ahead of one, and nothing else the cast takes for the type
  // does so either. The test plays no part.
  lemma {:induction false} PositionalIsExactIff(kinds: Kinds, body: Rule, ty: string)
    requires Usable(kinds, body)
    ensures Exact(kinds, body, ty) <==>
              LabelsAppearOnce(body, ty) && LabelsInOrder(body, ty) && OthersBehind(kinds, body, ty)
  {
    var group := Group(body, ty);
    if LabelsAppearOnce(body, ty) && LabelsInOrder(body, ty) && OthersBehind(kinds, body, ty) {
      forall d, i: nat | Fits(kinds, body, d) && i < |group|
        ensures IsTheChild(Kids(body, None, d), ty, group[i].tag, Nth(kinds, Kids(body, None, d), ty, i))
      {
        InOrderIsTheChild(kinds, body, ty, d, i);
      }
    }
    if Exact(kinds, body, ty) {
      forall i: nat | i < |group| ensures Most(body, None, ty, group[i].tag) <= 1 {
        var d := MostReached(kinds, body, None, ty, group[i].tag);
        assert IsTheChild(Kids(body, None, d), ty, group[i].tag, Nth(kinds, Kids(body, None, d), ty, i));
      }
      forall i: nat, j: nat | i < j < |group|
        ensures !CanHaveWithout(body, None, OwnRef(body, ty, j), OwnRef(body, ty, i))
        ensures !CanPrecede(body, None, OwnRef(body, ty, j), OwnRef(body, ty, i))
      {
        ExactIsInOrder(kinds, body, ty, i, j);
      }
      forall r, j: nat | Overlaps(kinds, r, ty) && j < |group|
        ensures !CanHaveWithout(body, None, r, OwnRef(body, ty, j)) && !CanPrecede(body, None, r, OwnRef(body, ty, j))
      {
        ExactKeepsOthersBehind(kinds, body, ty, r, j);
      }
    }
  }

  // -------------------------------------------------------------------
  // The soundness test against the exact condition.
  // -------------------------------------------------------------------

  // Every type a kind of its own.
  const OWN_KINDS: Kinds := name => {name}

  lemma {:induction false} OwnKindsAreUsable(kinds: Kinds, rule: Rule)
    requires Usable(kinds, rule)
    ensures Usable(OWN_KINDS, rule)
  {
    match rule
    case Labeled(_, inner) => OwnKindsAreUsable(kinds, inner);
    case Node(_) =>
    case Token(_) =>
    case Seq(rules) => forall k | 0 <= k < |rules| { OwnKindsAreUsable(kinds, rules[k]); }
    case Alt(rules) => forall k | 0 <= k < |rules| { OwnKindsAreUsable(kinds, rules[k]); }
    case Opt(inner) => OwnKindsAreUsable(kinds, inner);
    case Rep(inner) => OwnKindsAreUsable(kinds, inner);
  }

  // A group the test accepts has its labels in order, when none can repeat.
  lemma {:induction false} AcceptedIsInOrder(kinds: Kinds, body: Rule, ty: string)
    requires Usable(kinds, body) && LabelsAppearOnce(body, ty)
    requires Group(body, ty) != [] && PositionalIsSound(Group(body, ty))
    ensures LabelsInOrder(body, ty)
  {
    OwnKindsAreUsable(kinds, body);
    forall d, i: nat | Fits(OWN_KINDS, body, d) && i < |Group(body, ty)|
      ensures IsTheChild(Kids(body, None, d), ty, Group(body, ty)[i].tag, Nth(OWN_KINDS, Kids(body, None, d), ty, i))
    {
      OwnKindsCast(body, ty, d);
      PickedIsLabelled(OWN_KINDS, body, ty, d, i);
    }
    PositionalIsExactIff(OWN_KINDS, body, ty);
  }

  lemma {:induction false} OwnKindsCast(body: Rule, ty: string, d: Derivation)
    requires Fits(OWN_KINDS, body, d)
    ensures Cast(OWN_KINDS, Kids(body, None, d), ty) == OfType(Kids(body, None, d), ty)
  {
    var kids := Kids(body, None, d);
    KindsFit(OWN_KINDS, body, None, d);
    CastByType(OWN_KINDS, kids, ty);
  }

  // Of a group that passes the soundness test, every positional accessor
  // returns, over every tree the body derives, the one child with its label, or
  // nothing when there is none, exactly when no label of the group can appear
  // twice in a tree and nothing the cast takes for the type can stand in.
  lemma {:induction false} AcceptedAccessorsAreExactIff(kinds: Kinds, body: Rule, ty: string)
    requires Usable(kinds, body)
    requires Group(body, ty) != [] && PositionalIsSound(Group(body, ty))
    ensures Exact(kinds, body, ty) <==> LabelsAppearOnce(body, ty) && OthersBehind(kinds, body, ty)
  {
    PositionalIsExactIff(kinds, body, ty);
    if LabelsAppearOnce(body, ty) { AcceptedIsInOrder(kinds, body, ty); }
  }

  // Only the last occurrence can be absent, and only when it is optional.
  lemma {:induction false} PickedIsTheChild(kinds: Kinds, body: Rule, ty: string, d: Derivation, i: nat)
    requires Usable(kinds, body) && Fits(kinds, body, d)
    requires Group(body, ty) != [] && PositionalIsSound(Group(body, ty))
    requires LabelsAppearOnce(body, ty) && OthersBehind(kinds, body, ty)
    requires i < |Group(body, ty)|
    ensures var found := Nth(kinds, Kids(body, None, d), ty, i);
            && IsTheChild(Kids(body, None, d), ty, Group(body, ty)[i].tag, found)
            && (found.None? ==> i == |Group(body, ty)| - 1 && Group(body, ty)[i].optional)
  {
    var own := OfType(Kids(body, None, d), ty);
    AcceptedIsInOrder(kinds, body, ty);
    InOrderIsTheChild(kinds, body, ty, d, i);
    CastOfDerivation(kinds, body, ty, d);
    DerivationPicks(kinds, body, ty, d);
    assert PicksAt(Group(body, ty), own, ty, i);
  }

  // Where the soundness test errs: it accepts in error exactly the groups with
  // a label that can appear twice or another child that can stand in, and
  // refuses in vain exactly those whose labels appear once and in order, with
  // all others behind them, all the same.
  lemma {:induction false} WhereTheTestErrs(kinds: Kinds, body: Rule, ty: string)
    requires Usable(kinds, body) && Group(body, ty) != []
    ensures PositionalIsSound(Group(body, ty)) ==>
              (!Exact(kinds, body, ty) <==> !LabelsAppearOnce(body, ty) || !OthersBehind(kinds, body, ty))
    ensures !PositionalIsSound(Group(body, ty)) ==>
              (Exact(kinds, body, ty) <==>
               LabelsAppearOnce(body, ty) && LabelsInOrder(body, ty) && OthersBehind(kinds, body, ty))
  {
    PositionalIsExactIff(kinds, body, ty);
    if PositionalIsSound(Group(body, ty)) { AcceptedAccessorsAreExactIff(kinds, body, ty); }
  }

  // `Z a:X b:X`, where a node of type `Z` can be of a kind that `X` accepts.
  const OTHER_AHEAD := Seq([Node("Z"), X("a"), X("b")])

  // The test accepts it, and the first accessor returns the `Z`.
  lemma {:induction false} OtherAheadIsAccepted(kinds: Kinds)
    requires kinds("Z") * kinds("X") != {}
    ensures Group(OTHER_AHEAD, "X") != [] && PositionalIsSound(Group(OTHER_AHEAD, "X"))
    ensures !Exact(kinds, OTHER_AHEAD, "X")
  {
    GroupOfOtherAhead();
    var kind :| kind in kinds("Z") * kinds("X");
    var d := Parts([One(kind), One(kind), One(kind)]);
    OtherAheadDerives(kinds, kind);
    var kids := Kids(OTHER_AHEAD, None, d);
    assert Cast(kinds, kids, "X")[0] == kids[0];
    var first: nat := 0;
    assert !IsTheChild(kids, "X", Group(OTHER_AHEAD, "X")[first].tag, Nth(kinds, kids, "X", first));
  }

  lemma {:induction false} OtherAheadDerives(kinds: Kinds, kind: string)
    requires kind in kinds("Z") * kinds("X")
    ensures var d := Parts([One(kind), One(kind), One(kind)]);
            && Fits(kinds, OTHER_AHEAD, d)
            && Kids(OTHER_AHEAD, None, d) != [] && Kids(OTHER_AHEAD, None, d)[0] == Kid(None, "Z", kind)
  {
    var one := One(kind);
    var d := Parts([one, one, one]);
    OfX(kinds, "a", false, one);
    OfX(kinds, "b", false, one);
    assert Fits(kinds, Node("Z"), one);
    FirstKids([X("a"), X("b")], [one, one], Node("Z"), one);
    assert [Node("Z")] + [X("a"), X("b")] == OTHER_AHEAD.rules && [one] + [one, one] == d.parts;
  }

  lemma {:induction false} GroupOfOtherAhead()
    ensures Group(OTHER_AHEAD, "X") == [XEntry("a", false), XEntry("b", false)]
  {
    var e, f := XEntry("a", false), XEntry("b", false);
    OfX(OWN_KINDS, "a", false, Missing);
    OfX(OWN_KINDS, "b", false, Missing);
    FirstEntries([], X("b"), false);
    FirstEntries([X("b")], X("a"), false);
    FirstEntries([X("a"), X("b")], Node("Z"), false);
    assert [X("b")] + [] == [X("b")] && [X("a")] + [X("b")] == [X("a"), X("b")];
    assert [Node("Z")] + [X("a"), X("b")] == OTHER_AHEAD.rules;
    var z := Entry(None, ToNode("Z"), false, false);
    var entries := Entries(OTHER_AHEAD, None, false, false);
    assert entries == [z] + ([e] + ([f] + []));
    FirstNamed([], "b", false);
    FirstNamed([f], "a", false);
    assert [f] + [] == [f] && [e] + [f] == [e, f];
    assert entries[1..] == [e, f];
    assert Naming(entries, "X") == [e, f];
    GroupIsMergedNaming(OTHER_AHEAD, "X");
    MergedOneMore([], e);
    MergedOneMore([e], f);
    AbsorbHead(e, [], f);
    assert [] + [e] == [e] && [e] + [] == [e];
  }

  // No node has a kind that two of the body's types accept.
  ghost predicate ReferencesApart(kinds: Kinds, body: Rule) {
    forall a, b, kind :: References(body, a) && References(body, b) && kind in kinds(a) && kind in kinds(b) ==> a == b
  }

  ghost predicate References(body: Rule, ty: string) {
    Naming(Entries(body, None, false, false), ty) != []
  }

  // Where the types of a rule share no kind, nothing stands in for another.
  lemma {:induction false} ApartKeepsBehind(kinds: Kinds, body: Rule, ty: string)
    requires Usable(kinds, body) && ReferencesApart(kinds, body) && References(body, ty)
    ensures OthersBehind(kinds, body, ty)
  {
    forall r, j: nat | Overlaps(kinds, r, ty) && j < |Group(body, ty)|
      ensures !CanHaveWithout(body, None, r, OwnRef(body, ty, j)) && !CanPrecede(body, None, r, OwnRef(body, ty, j))
    {
      var kind :| kind in kinds(r.ty) * kinds(ty);
      assert !References(body, r.ty);
      if CanHaveWithout(body, None, r, OwnRef(body, ty, j)) {
        var d := WithoutReached(kinds, body, None, r, OwnRef(body, ty, j));
        NoReferenceNoKid(body, None, false, false, d, r.ty);
        CountOfType(Kids(body, None, d), r.ty, r.tag);
      }
      if CanPrecede(body, None, r, OwnRef(body, ty, j)) {
        var d := PrecedenceReached(kinds, body, None, r, OwnRef(body, ty, j));
        PrecedenceCounts(Kids(body, None, d), r, OwnRef(body, ty, j));
        NoReferenceNoKid(body, None, false, false, d, r.ty);
        CountOfType(Kids(body, None, d), r.ty, r.tag);
      }
    }
  }
}
