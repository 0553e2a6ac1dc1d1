// The message of the cohesion lint: how it is printed, and the metric read
// back out of it.
module CohesionMessage {
  import opened Common
  import opened Text

  datatype Metric = Cohesion(groups: nat, minGroupSize: nat)

  const SPLITS := " splits into "
  const GROUPS := " groups of members that share no type: "

  // What may stand in an identifier: a word character, none of the characters
  // the message punctuates with.
  ghost predicate WordClass(word: char -> bool) {
    !word(',') && !word(' ') && !word('[') && !word(']') && !word('`')
  }

  predicate IsWord(word: char -> bool, s: string) {
    s != "" && forall k :: 0 <= k < |s| ==> word(s[k])
  }

  // -------------------------------------------------------------------
  // Printing.
  // -------------------------------------------------------------------

  function PrintGroup(group: seq<string>): string
    requires group != []
  {
    Join(group, ", ") + "]"
  }

  function PrintedGroups(groups: seq<seq<string>>): seq<string>
    requires forall k :: 0 <= k < |groups| ==> groups[k] != []
  {
    if groups == [] then [] else [PrintGroup(groups[0])] + PrintedGroups(groups[1..])
  }

  // `[a, b], [c]`
  function PrintList(groups: seq<seq<string>>): string
    requires groups != [] && forall k :: 0 <= k < |groups| ==> groups[k] != []
  {
    "[" + Join(PrintedGroups(groups), ", [")
  }

  function PrintMessage(name: string, groups: seq<seq<string>>): string
    requires groups != [] && forall k :: 0 <= k < |groups| ==> groups[k] != []
  {
    "interface `" + name + "` splits into " +
    (Print(|groups|) + " groups of members that share no type: " + PrintList(groups))
  }

  function Flat(groups: seq<seq<string>>): seq<string> {
    if groups == [] then [] else groups[0] + Flat(groups[1..])
  }

  predicate WordGroup(word: char -> bool, group: seq<string>) {
    group != [] && forall k :: 0 <= k < |group| ==> IsWord(word, group[k])
  }

  // A nonempty list of nonempty groups of words, no word twice.
  predicate WordGroups(word: char -> bool, groups: seq<seq<string>>) {
    groups != [] && (forall k :: 0 <= k < |groups| ==> WordGroup(word, groups[k])) && Distinct(Flat(groups))
  }

  function Least(sizes: seq<nat>): (r: nat)
    requires sizes != []
    ensures r in sizes && forall s :: s in sizes ==> r <= s
  {
    if |sizes| == 1 then sizes[0]
    else
      var rest := Least(sizes[1..]);
      assert forall s :: s in sizes <==> s == sizes[0] || s in sizes[1..];
      if sizes[0] <= rest then sizes[0] else rest
  }

  function Sizes(groups: seq<seq<string>>): (r: seq<nat>)
    ensures |r| == |groups| && forall k :: 0 <= k < |r| ==> r[k] == |groups[k]|
  {
    seq(|groups|, k requires 0 <= k < |groups| => |groups[k]|)
  }

  // -------------------------------------------------------------------
  // Reading.
  // -------------------------------------------------------------------

  // The groups a list spells, whatever they hold; none when a bracket is
  // missing.
  function ReadPieces(pieces: seq<string>): Option<seq<seq<string>>> {
    if pieces == [] then Some([])
    else
      var p, rest := pieces[0], ReadPieces(pieces[1..]);
      if p != "" && p[|p| - 1] == ']' && rest.Some? then Some([Split(p[..|p| - 1], ", ")] + rest.value) else None
  }

  function ReadList(listed: string): Option<seq<seq<string>>> {
    if listed == "" || listed[0] != '[' then None else ReadPieces(Split(listed[1..], ", ["))
  }

  // The group count and the smallest size, of a list of word groups as long as
  // the count says.
  method ReadGroups(word: char -> bool, count: string, listed: string) returns (metric: Option<Metric>)
    ensures metric.Some? <==>
              && Positive(count).Some? && ReadList(listed).Some?
              && WordGroups(word, ReadList(listed).value) && |ReadList(listed).value| == Positive(count).value
    ensures metric.Some? ==>
              var groups := ReadList(listed).value;
              metric.value == Cohesion(|groups|, Least(Sizes(groups)))
  {
    metric := None;
    var groups := Positive(count);
    if groups.None? || listed == "" || listed[0] != '[' {
      return;
    }
    var pieces := Split(listed[1..], ", [");
    var sizes: seq<nat> := [];
    var members: set<string> := {};
    ghost var read: seq<seq<string>> := [];
    PrependNothing(ReadPieces(pieces));
    assert pieces[0..] == pieces;
    for k := 0 to |pieces|
      invariant ReadPieces(pieces) == Prepend(read, ReadPieces(pieces[k..]))
      invariant |read| == k && sizes == Sizes(read)
      invariant forall j :: 0 <= j < k ==> WordGroup(word, read[j])
      invariant Distinct(Flat(read)) && forall m :: m in members <==> m in Flat(read)
    {
      var p := pieces[k];
      assert pieces[k..][0] == p && pieces[k..][1..] == pieces[k + 1..];
      if p == "" || p[|p| - 1] != ']' {
        return;
      }
      var parts := Split(p[..|p| - 1], ", ");
      var rest := ReadPieces(pieces[k + 1..]);
      PrependOne(read, parts, rest);
      var accepted, size, grown := ReadMembers(word, Flat(read), parts, members);
      if !accepted {
        RefusedGroup(word, read, parts, rest);
        return;
      }
      FlatSnoc(read, parts);
      members := grown;
      sizes := sizes + [size];
      read := read + [parts];
    }
    assert pieces[|pieces|..] == [];
    assert read + [] == read;
    if |sizes| != groups.value {
      return;
    }
    metric := Some(Cohesion(groups.value, Least(sizes)));
  }

  function Prepend(front: seq<seq<string>>, rest: Option<seq<seq<string>>>): Option<seq<seq<string>>> {
    if rest.Some? then Some(front + rest.value) else None
  }

  lemma {:induction false} PrependNothing(rest: Option<seq<seq<string>>>)
    ensures Prepend([], rest) == rest
  {
    if rest.Some? { assert [] + rest.value == rest.value; }
  }

  lemma {:induction false} PrependOne(front: seq<seq<string>>, one: seq<string>, rest: Option<seq<seq<string>>>)
    ensures rest.Some? ==> Prepend(front, Some([one] + rest.value)) == Prepend(front + [one], rest)
  {
    if rest.Some? { assert front + ([one] + rest.value) == front + [one] + rest.value; }
  }

  lemma {:induction false} FlatAppend(a: seq<seq<string>>, b: seq<seq<string>>)
    ensures Flat(a + b) == Flat(a) + Flat(b)
  {
    if a == [] {
      assert a + b == b;
    } else {
      FlatAppend(a[1..], b);
      assert (a + b)[1..] == a[1..] + b;
    }
  }

  lemma {:induction false} FlatSnoc(read: seq<seq<string>>, parts: seq<string>)
    ensures Flat(read + [parts]) == Flat(read) + parts
  {
    FlatAppend(read, [parts]);
    assert Flat([parts]) == parts + Flat([]) == parts;
  }

  // One group's members, entered among those read before it.
  method ReadMembers(word: char -> bool, ghost before: seq<string>, parts: seq<string>, members: set<string>)
    returns (accepted: bool, size: nat, grown: set<string>)
    requires Distinct(before) && forall m :: m in members <==> m in before
    ensures accepted <==> (forall i :: 0 <= i < |parts| ==> IsWord(word, parts[i])) && Distinct(before + parts)
    ensures accepted ==> size == |parts| && forall m :: m in grown <==> m in before + parts
  {
    accepted, size, grown := true, 0, members;
    assert before + parts[..0] == before;
    for j := 0 to |parts|
      invariant accepted && size == j
      invariant forall i :: 0 <= i < j ==> IsWord(word, parts[i])
      invariant Distinct(before + parts[..j])
      invariant forall m :: m in grown <==> m in before + parts[..j]
    {
      assert before + parts[..j + 1] == before + parts[..j] + [parts[j]];
      if !IsWord(word, parts[j]) || parts[j] in grown {
        RepeatStays(before, parts, j);
        accepted := false;
        return;
      }
      grown := grown + {parts[j]};
      size := size + 1;
    }
    assert parts[..|parts|] == parts;
  }

  lemma {:induction false} RepeatStays(before: seq<string>, parts: seq<string>, j: nat)
    requires j < |parts|
    ensures parts[j] in before + parts[..j] ==> !Distinct(before + parts)
  {
    var all, front := before + parts, before + parts[..j];
    assert all[..|front|] == front && all[|front|] == parts[j];
    if parts[j] in front {
      var i :| 0 <= i < |front| && front[i] == parts[j];
      assert all[i] == front[i];
    }
  }

  // A group with a member that is not a word, or repeats an earlier one,
  // refuses the list.
  lemma {:induction false} RefusedGroup(
    word: char -> bool, read: seq<seq<string>>, parts: seq<string>, rest: Option<seq<seq<string>>>)
    requires !((forall i :: 0 <= i < |parts| ==> IsWord(word, parts[i])) && Distinct(Flat(read) + parts))
    ensures rest.Some? ==> !WordGroups(word, read + [parts] + rest.value)
  {
    if rest.Some? {
      var all := read + [parts] + rest.value;
      assert all[|read|] == parts;
      FlatAppend(read + [parts], rest.value);
      FlatSnoc(read, parts);
      var front := Flat(read) + parts;
      if !Distinct(front) {
        var i, j :| 0 <= i < j < |front| && front[i] == front[j];
        assert Flat(all)[i] == front[i] && Flat(all)[j] == front[j];
      }
    }
  }

  method ReadMessage(word: char -> bool, message: string) returns (metric: Option<Metric>)
    ensures metric == Reading(word, message)
  {
    metric := None;
    var first := SplitOnce(message, SPLITS);
    if first.None? || !Quoted(first.value.before) {
      return;
    }
    var second := SplitOnce(first.value.after, GROUPS);
    if second.None? {
      return;
    }
    metric := ReadGroups(word, second.value.before, second.value.after);
  }

  predicate Quoted(name: string) {
    "interface `" <= name && name[|name| - 1] == '`'
  }

  // A name between backquotes, or the lead-in alone.
  lemma {:induction false} QuotedMeans(lead: string)
    ensures Quoted(lead) <==> lead == "interface `" || exists name :: lead == "interface `" + name + "`"
  {
    var open := "interface `";
    if Quoted(lead) && lead != open {
      var name := lead[|open|..|lead| - 1];
      assert lead == lead[..|open|] + name + [lead[|lead| - 1]];
      assert lead == open + name + "`";
    }
    assert open <= open && open[|open| - 1] == '`';
    if name :| lead == open + name + "`" {
      assert lead[..|open|] == open && lead[|lead| - 1] == '`';
    }
  }

  // What reading a message answers.
  function Reading(word: char -> bool, message: string): Option<Metric> {
    match SplitOnce(message, SPLITS)
    case None => None
    case Some(first) =>
      match SplitOnce(first.after, GROUPS)
      case None => None
      case Some(second) =>
        var groups := ReadList(second.after);
        if Quoted(first.before) && Positive(second.before).Some? && groups.Some? &&
           WordGroups(word, groups.value) && |groups.value| == Positive(second.before).value
        then Some(Cohesion(|groups.value|, Least(Sizes(groups.value))))
        else None
  }

  // -------------------------------------------------------------------
  // Reading inverts printing, and accepts nothing else.
  // -------------------------------------------------------------------

  lemma {:induction false} NotInJoin(parts: seq<string>, sep: string, c: char)
    requires parts != [] && c !in sep && forall k :: 0 <= k < |parts| ==> c !in parts[k]
    ensures c !in Join(parts, sep)
  {
    if |parts| > 1 { NotInJoin(parts[1..], sep, c); }
  }

  lemma {:induction false} GroupReadsBack(word: char -> bool, group: seq<string>)
    requires WordClass(word) && WordGroup(word, group)
    ensures Split(PrintGroup(group)[..|PrintGroup(group)| - 1], ", ") == group
    ensures '[' !in PrintGroup(group)
  {
    assert PrintGroup(group)[..|PrintGroup(group)| - 1] == Join(group, ", ");
    forall k | 0 <= k < |group| ensures ',' !in group[k] && '[' !in group[k] {
      assert IsWord(word, group[k]);
    }
    SplitOfJoin(group, ", ", 0);
    NotInJoin(group, ", ", '[');
  }

  lemma {:induction false} PiecesReadBack(word: char -> bool, groups: seq<seq<string>>)
    requires WordClass(word)
    requires forall k :: 0 <= k < |groups| ==> WordGroup(word, groups[k]) && groups[k] != []
    ensures ReadPieces(PrintedGroups(groups)) == Some(groups)
    ensures |PrintedGroups(groups)| == |groups|
    ensures forall k :: 0 <= k < |groups| ==> '[' !in PrintedGroups(groups)[k]
  {
    if groups != [] {
      GroupReadsBack(word, groups[0]);
      PiecesReadBack(word, groups[1..]);
      var pieces := PrintedGroups(groups);
      assert pieces[0] == PrintGroup(groups[0]) && pieces[1..] == PrintedGroups(groups[1..]);
      assert groups == [groups[0]] + groups[1..];
    }
  }

  lemma {:induction false} ListReadsBack(word: char -> bool, groups: seq<seq<string>>)
    requires WordClass(word) && WordGroups(word, groups)
    ensures ReadList(PrintList(groups)) == Some(groups)
  {
    PiecesReadBack(word, groups);
    assert PrintList(groups)[1..] == Join(PrintedGroups(groups), ", [");
    SplitOfJoin(PrintedGroups(groups), ", [", 2);
  }

  // The metric of a printed message is the number of groups and the size of
  // the smallest.
  lemma {:induction false} PrintedMessageReadsBack(word: char -> bool, name: string, groups: seq<seq<string>>)
    requires WordClass(word) && WordGroups(word, groups) && |groups| < MAX && IsWord(word, name)
    ensures Reading(word, PrintMessage(name, groups)) == Some(Cohesion(|groups|, Least(Sizes(groups))))
  {
    QuotedNameHasNoSplit(word, name, Print(|groups|) + GROUPS + PrintList(groups));
    CountHasNoSplit(|groups|, PrintList(groups));
    NumberOfPrint(|groups|);
    ListReadsBack(word, groups);
    MessageIsSplit(name, Print(|groups|) + GROUPS + PrintList(groups));
    ReadingOf(word, PrintMessage(name, groups), "interface `" + name + "`", Print(|groups|), PrintList(groups), groups);
  }

  lemma {:induction false} MessageIsSplit(name: string, rest: string)
    ensures "interface `" + name + "` splits into " + rest == "interface `" + name + "`" + SPLITS + rest
  {
    assert "` splits into " == "`" + SPLITS;
    Associates("interface `" + name, "`", SPLITS);
  }

  lemma {:induction false} ReadingOf(
    word: char -> bool, message: string, lead: string, count: string, listed: string, groups: seq<seq<string>>)
    requires SplitOnce(message, SPLITS) == Some(Halves(lead, count + GROUPS + listed)) && Quoted(lead)
    requires SplitOnce(count + GROUPS + listed, GROUPS) == Some(Halves(count, listed))
    requires Positive(count) == Some(|groups|) && ReadList(listed) == Some(groups) && WordGroups(word, groups)
    ensures Reading(word, message) == Some(Cohesion(|groups|, Least(Sizes(groups))))
  {
  }

  lemma {:induction false} CountHasNoSplit(count: nat, listed: string)
    ensures SplitOnce(Print(count) + GROUPS + listed, GROUPS) == Some(Halves(Print(count), listed))
  {
    assert forall k :: 0 <= k < |Print(count)| ==> IsDigit(Print(count)[k]);
    SplitOnceAt(Print(count), GROUPS, listed, 0);
  }

  lemma {:induction false} QuotedNameHasNoSplit(word: char -> bool, name: string, rest: string)
    requires WordClass(word) && IsWord(word, name)
    ensures SplitOnce("interface `" + name + "`" + SPLITS + rest, SPLITS) ==
            Some(Halves("interface `" + name + "`", rest))
  {
    var quoted := "interface `" + name + "`";
    var s := quoted + SPLITS + rest;
    forall i: nat | i < |quoted| ensures !At(s, SPLITS, i) {
      OccurrenceAt(s, SPLITS, i, 0);
      OccurrenceAt(s, SPLITS, i, 1);
      assert i == |quoted| - 1 ==> s[i] == '`';
      assert 11 <= i < |quoted| - 1 ==> s[i] == name[i - 11];
      assert i < 11 ==> s[i] == "interface `"[i];
      assert s[10] == '`';
    }
    NoEarlierOccurrence(quoted, SPLITS, rest);
  }

  lemma {:induction false} PiecesPrintBack(pieces: seq<string>)
    requires ReadPieces(pieces).Some?
    ensures var groups := ReadPieces(pieces).value;
            (forall k :: 0 <= k < |groups| ==> groups[k] != []) && PrintedGroups(groups) == pieces
  {
    if pieces != [] {
      PiecesPrintBack(pieces[1..]);
      var p, groups := pieces[0], ReadPieces(pieces).value;
      JoinOfSplit(p[..|p| - 1], ", ");
      assert p == p[..|p| - 1] + "]";
      assert groups[1..] == ReadPieces(pieces[1..]).value;
    }
  }

  // Every list that reads is the printed form of the groups it reads as, and
  // so of no other: a bracket out of place, a repeat or an empty name is
  // refused.
  lemma {:induction false} AcceptedListIsPrinted(listed: string)
    requires ReadList(listed).Some?
    ensures var groups := ReadList(listed).value;
            groups != [] && (forall k :: 0 <= k < |groups| ==> groups[k] != []) && PrintList(groups) == listed
  {
    var pieces := Split(listed[1..], ", [");
    PiecesPrintBack(pieces);
    JoinOfSplit(listed[1..], ", [");
    assert listed == "[" + listed[1..];
  }

  lemma {:induction false} MessageJoined(message: string, lead: string, count: string, listed: string)
    requires message == lead + SPLITS + (count + GROUPS + listed)
    ensures message == lead + " splits into " + (count + " groups of members that share no type: " + listed)
  {
  }

  // An accepted message is the lead-in followed by the printed count and the
  // printed list, the count with no leading zero, of exactly one list of word
  // groups.
  lemma {:induction false} AcceptedMessageIsPrinted(
    word: char -> bool, message: string)
    returns (lead: string, groups: seq<seq<string>>)
    requires WordClass(word) && Reading(word, message).Some?
    ensures lead == "interface `" || exists name :: lead == "interface `" + name + "`"
    ensures WordGroups(word, groups) && 0 < |groups| < MAX
    ensures message == lead + " splits into " +
                       (Print(|groups|) + " groups of members that share no type: " + PrintList(groups))
    ensures Reading(word, message) == Some(Cohesion(|groups|, Least(Sizes(groups))))
    ensures forall other :: WordGroups(word, other) && PrintList(other) == PrintList(groups) ==> other == groups
  {
    var first := SplitOnce(message, SPLITS).value;
    var second := SplitOnce(first.after, GROUPS).value;
    lead, groups := first.before, ReadList(second.after).value;
    AcceptedListIsPrinted(second.after);
    PrintOfNumber(second.before);
    QuotedMeans(lead);
    MessageJoined(message, lead, second.before, second.after);
    forall other | WordGroups(word, other) && PrintList(other) == PrintList(groups) ensures other == groups {
      ListReadsBack(word, other);
    }
  }
}
