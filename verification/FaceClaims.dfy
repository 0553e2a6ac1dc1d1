// The names a face module spells from its members, against the descriptors the
// package's tables have accepted.
module FaceClaims {
  import opened Common
  import opened Text

  predicate PathWord(stem: string) {
    stem in {"crate", "self", "Self", "super"}
  }

  // A name as an identifier, without the raw prefix: what two names are
  // compared by.
  function Key(name: string): string {
    if PathWord(Trimmed(name)) || name == "_" then name + "_"
    else if name == "" then "_"
    else name
  }

  // What is left of a name is an identifier and no word of a path, and a name
  // that was one already is left alone.
  lemma {:induction false} KeyIsUsable(name: string)
    ensures Key(name) != "" && Key(name) !in {"crate", "self", "Self", "super"}
    ensures Key(name) == "_" <==> name == ""
    ensures Key(name) != name <==>
              name in {"", "_"} || exists k: nat :: EndsInUnderscores(name, k) && PathWord(name[..k])
    ensures Key(name) != name && name != "" ==> Key(name) == name + "_"
  {
    TrimmedMeans(name);
    TrimmedEscape(name);
    assert Trimmed("crate") == "crate" && Trimmed("self") == "self";
    assert Trimmed("Self") == "Self" && Trimmed("super") == "super";
    assert EndsInUnderscores(name, |Trimmed(name)|) && name[..|Trimmed(name)|] == Trimmed(name);
    if k: nat :| EndsInUnderscores(name, k) && PathWord(name[..k]) {
      var word := name[..k];
      assert k > 0 && word[|word| - 1] != '_';
      TrimmedIs(name, k);
    }
  }

  // All that follows the first `k` characters is underscores.
  predicate EndsInUnderscores(name: string, k: nat) {
    k <= |name| && forall i :: k <= i < |name| ==> name[i] == '_'
  }

  lemma {:induction false} TrimmedIs(name: string, k: nat)
    requires k <= |name| && (k > 0 ==> name[k - 1] != '_') && forall i :: k <= i < |name| ==> name[i] == '_'
    ensures Trimmed(name) == name[..k]
  {
    if k < |name| {
      TrimmedIs(name[..|name| - 1], k);
    } else {
      assert name[..k] == name;
    }
  }

  predicate SameIdentifier(a: string, b: string) {
    a == b || (a == "_" && b == "__") || (a == "__" && b == "_")
  }

  // Two names are one identifier only when they are one name, or a single and a
  // double underscore.
  lemma {:induction false} KeysMeet(a: string, b: string)
    ensures Key(a) == Key(b) <==> SameIdentifier(a, b)
  {
    TrimmedEscape(a);
    TrimmedEscape(b);
    KeyKeepsTrimmed(a, b);
    KeyKeepsTrimmed(b, a);
    if a + "_" == b + "_" {
      assert (a + "_")[..|a|] == (b + "_")[..|b|];
    }
    assert Trimmed("__") == Trimmed("_") == Trimmed("") by { assert "__"[..1] == "_" && "_"[..0] == ""; }
  }

  // No escaped name is another name left alone, but for the underscores.
  lemma {:induction false} KeyKeepsTrimmed(a: string, b: string)
    ensures Key(a) == a + "_" && Key(b) == b && Key(a) == Key(b) ==> a == "_" && b == "__"
  {
    TrimmedEscape(a);
    assert "_" + "_" == "__";
  }

  // -------------------------------------------------------------------
  // Members.
  // -------------------------------------------------------------------

  // What a call streams: whether anything, whether as one of the three forms a
  // face carries, and whether a reply.
  datatype Streams = Streams(any: bool, command: bool, query: bool, reply: bool, hasReply: bool)

  datatype Shape = Call(streams: Streams) | Event | OtherShape

  datatype Member = Member(camel: string, snake: string, shape: Shape)

  function Suffixes(streams: Streams): seq<string> {
    ["Call", "Phase", "Correlation"]
    + (if streams.command || streams.query then ["Sink"] else if streams.reply then ["Stream"] else [])
    + (if streams.query && streams.hasReply then ["Stream"] else [])
  }

  const CALL_TYPES := {"Call", "Phase", "Correlation", "Sink", "Stream"}

  // The types a face has for a call: three for every one, a sink for an upload,
  // and a stream for a streamed reply, on its own or beside a query's upload.
  predicate Emits(streams: Streams, suffix: string) {
    match suffix
    case "Sink" => streams.command || streams.query
    case "Stream" =>
      (streams.query && streams.hasReply) || (!streams.command && !streams.query && streams.reply)
    case _ => suffix in {"Call", "Phase", "Correlation"}
  }

  lemma {:induction false} SuffixesAreEmitted(streams: Streams)
    ensures forall s :: s in Suffixes(streams) <==> s in CALL_TYPES && Emits(streams, s)
    ensures Distinct(Suffixes(streams))
  {
    var three := ["Call", "Phase", "Correlation"];
    var upload := if streams.command || streams.query then ["Sink"] else if streams.reply then ["Stream"] else [];
    var reply := if streams.query && streams.hasReply then ["Stream"] else [];
    assert Suffixes(streams) == three + upload + reply;
    assert "Call"[0] != "Phase"[0] && "Call"[1] != "Correlation"[1] && "Sink"[1] != "Stream"[1];
  }

  function Descriptor(iface: string, m: Member): string {
    Key(Key(iface) + m.camel)
  }

  function Descriptors(iface: string, members: seq<Member>): (r: seq<string>)
    ensures |r| == |members| && forall k :: 0 <= k < |r| ==> r[k] == Descriptor(iface, members[k])
  {
    seq(|members|, k requires 0 <= k < |members| => Descriptor(iface, members[k]))
  }

  // The package's tables accept an interface's descriptors.
  ghost predicate DescriptorsDiffer(iface: string, members: seq<Member>) {
    forall i, j :: 0 <= i < j < |members| ==> Descriptor(iface, members[i]) != Descriptor(iface, members[j])
  }

  // An event before member `k` has this name.
  ghost predicate EventNamed(members: seq<Member>, k: nat, camel: string) {
    exists i :: 0 <= i < k && i < |members| && members[i].shape.Event? && members[i].camel == camel
  }

  // A pair of events named by underscores alone.
  ghost predicate UnderscoreEvents(members: seq<Member>, k: nat) {
    EventNamed(members, k, "_") && EventNamed(members, k, "__")
  }

  predicate IsSuffix(s: string) {
    s in {"Call", "Phase", "Correlation", "Sink", "Stream"}
  }

  // No suffix ends with another.
  lemma {:induction false} SuffixesApart(a: string, s: string, b: string, t: string)
    requires IsSuffix(s) && IsSuffix(t) && a + s == b + t
    ensures a == b && s == t
  {
    var whole := a + s;
    assert whole[|whole| - 1] == s[|s| - 1] == t[|t| - 1];
    assert whole[|whole| - 2] == s[|s| - 2] == t[|t| - 2];
    assert s == t;
    assert whole[..|a|] == a && whole[..|b|] == b;
  }

  // A call's type is never escaped.
  lemma {:induction false} CallTypeKey(camel: string, suffix: string)
    requires IsSuffix(suffix)
    ensures Key(camel + suffix) == camel + suffix
  {
    var whole := camel + suffix;
    assert whole[|whole| - 1] == suffix[|suffix| - 1];
    assert whole[|whole| - 2] == suffix[|suffix| - 2];
    assert Trimmed(whole) == whole;
  }

  // -------------------------------------------------------------------
  // The tables.
  // -------------------------------------------------------------------

  class Table {
    var claimed: set<string>

    constructor ()
      ensures claimed == {}
    {
      claimed := {};
    }

    method Claim(name: string) returns (ok: bool)
      modifies this
      ensures ok <==> Key(name) !in old(claimed)
      ensures claimed == old(claimed) + {Key(name)}
    {
      ok := Key(name) !in claimed;
      claimed := claimed + {Key(name)};
    }

    // The descriptors of an interface's members.
    method ClaimDescriptors(iface: string, members: seq<Member>) returns (ok: bool)
      modifies this
      ensures ok <==> Free(old(claimed), Descriptors(iface, members))
      ensures ok ==> DescriptorsDiffer(iface, members)
    {
      ghost var names := Descriptors(iface, members);
      for k := 0 to |members|
        invariant Entered(old(claimed), claimed, names[..k])
      {
        EnterAt(old(claimed), claimed, names, k);
        ok := Claim(Key(iface) + members[k].camel);
        if !ok {
          return;
        }
      }
      assert names[..|names|] == names;
      ok := true;
    }
  }

  // The name of a call type of a member before `k`.
  ghost predicate CallType(members: seq<Member>, k: nat, n: string) {
    exists i :: 0 <= i < k && i < |members| && TypeOf(members[i], n)
  }

  ghost predicate TypeOf(m: Member, n: string) {
    m.shape.Call? && exists s :: s in Suffixes(m.shape.streams) && n == m.camel + s
  }

  ghost predicate Variant(members: seq<Member>, k: nat, n: string) {
    exists camel :: EventNamed(members, k, camel) && n == Key(camel)
  }

  // The tables of types and of event variants of one face module. Over
  // descriptors the package accepts, they refuse nothing but a pair of events
  // named by underscores alone.
  method SpelledNames(iface: string, members: seq<Member>) returns (ok: bool)
    requires DescriptorsDiffer(iface, members)
    ensures ok <==> !UnderscoreEvents(members, |members|)
  {
    var types := new Table();
    var variants := new Table();
    for k := 0 to |members|
      invariant types != variants && fresh(types) && fresh(variants)
      invariant forall n :: n in types.claimed ==> CallType(members, k, n)
      invariant forall n :: n in variants.claimed <==> Variant(members, k, n)
      invariant !UnderscoreEvents(members, k)
    {
      var m := members[k];
      assert forall n :: CallType(members, k, n) ==> CallType(members, k + 1, n);
      NamedOneMore(members, k);
      match m.shape {
        case Call(streams) =>
          ClaimCall(types, iface, members, k, streams);
        case Event =>
          VariantMeets(iface, members, k);
          ok := variants.Claim(m.camel);
          if !ok {
            return;
          }
        case OtherShape =>
      }
    }
    ok := true;
  }

  // One call's types never meet those of another member, or one another.
  method ClaimCall(types: Table, iface: string, members: seq<Member>, k: nat, streams: Streams)
    requires DescriptorsDiffer(iface, members) && k < |members| && members[k].shape == Call(streams)
    requires forall n :: n in types.claimed ==> CallType(members, k, n)
    modifies types
    ensures forall n :: n in types.claimed ==> CallType(members, k + 1, n)
    ensures forall n :: n in types.claimed <==>
              n in old(types.claimed) || exists s :: s in CALL_TYPES && Emits(streams, s) && n == members[k].camel + s
  {
    SuffixesAreEmitted(streams);
    var suffixes := Suffixes(streams);
    var camel := members[k].camel;
    for i := 0 to |suffixes|
      invariant forall n :: n in types.claimed <==>
                  n in old(types.claimed) || exists j :: 0 <= j < i && n == camel + suffixes[j]
    {
      CallTypeKey(camel, suffixes[i]);
      CallTypesDiffer(iface, members, k, streams, i);
      var ok := types.Claim(camel + suffixes[i]);
      assert ok;
    }
    forall n | n in types.claimed ensures CallType(members, k + 1, n) {
      if !CallType(members, k, n) { assert TypeOf(members[k], n); }
    }
  }

  lemma {:induction false} SuffixesAreSuffixes(streams: Streams)
    ensures forall k :: 0 <= k < |Suffixes(streams)| ==> IsSuffix(Suffixes(streams)[k])
    ensures forall i, j :: 0 <= i < j < |Suffixes(streams)| ==> Suffixes(streams)[i] != Suffixes(streams)[j]
  {
  }

  lemma {:induction false} CallTypesDiffer(iface: string, members: seq<Member>, k: nat, streams: Streams, i: nat)
    requires DescriptorsDiffer(iface, members) && k < |members| && members[k].shape == Call(streams)
    requires i < |Suffixes(streams)|
    ensures !CallType(members, k, members[k].camel + Suffixes(streams)[i])
    ensures forall j :: 0 <= j < i ==>
              members[k].camel + Suffixes(streams)[j] != members[k].camel + Suffixes(streams)[i]
  {
    var camel, suffixes := members[k].camel, Suffixes(streams);
    SuffixesAreSuffixes(streams);
    forall h | 0 <= h < k ensures !TypeOf(members[h], camel + suffixes[i]) {
      OtherMember(members[h], members[k], suffixes[i]);
      assert Descriptor(iface, members[h]) != Descriptor(iface, members[k]);
    }
    forall j | 0 <= j < i ensures camel + suffixes[j] != camel + suffixes[i] {
      if camel + suffixes[j] == camel + suffixes[i] { SuffixesApart(camel, suffixes[j], camel, suffixes[i]); }
    }
  }

  lemma {:induction false} OtherMember(m: Member, own: Member, suffix: string)
    requires IsSuffix(suffix)
    ensures TypeOf(m, own.camel + suffix) ==> m.camel == own.camel
  {
    if TypeOf(m, own.camel + suffix) {
      var s :| s in Suffixes(m.shape.streams) && own.camel + suffix == m.camel + s;
      SuffixesAreSuffixes(m.shape.streams);
      SuffixesApart(own.camel, suffix, m.camel, s);
    }
  }

  lemma {:induction false} NamedOneMore(members: seq<Member>, k: nat)
    requires k < |members|
    ensures forall c :: EventNamed(members, k + 1, c) <==>
              EventNamed(members, k, c) || (members[k].shape.Event? && c == members[k].camel)
    ensures forall n :: Variant(members, k + 1, n) <==>
              Variant(members, k, n) || (members[k].shape.Event? && n == Key(members[k].camel))
  {
    if members[k].shape.Event? {
      assert EventNamed(members, k + 1, members[k].camel);
      assert Variant(members, k + 1, Key(members[k].camel));
    }
    forall n | Variant(members, k, n) ensures Variant(members, k + 1, n) {
      var c :| EventNamed(members, k, c) && n == Key(c);
      assert EventNamed(members, k + 1, c);
    }
  }

  // An event's variant is taken exactly when it completes a pair of
  // underscores.
  lemma {:induction false} VariantMeets(iface: string, members: seq<Member>, k: nat)
    requires DescriptorsDiffer(iface, members) && k < |members| && members[k].shape.Event?
    requires !UnderscoreEvents(members, k)
    ensures Variant(members, k, Key(members[k].camel)) <==> UnderscoreEvents(members, k + 1)
    ensures UnderscoreEvents(members, k + 1) ==> UnderscoreEvents(members, |members|)
  {
    var camel := members[k].camel;
    NamedOneMore(members, k);
    KeysMeet("_", "__");
    if Variant(members, k, Key(camel)) {
      var c :| EventNamed(members, k, c) && Key(camel) == Key(c);
      var i :| 0 <= i < k && members[i].shape.Event? && members[i].camel == c;
      assert Descriptor(iface, members[i]) != Descriptor(iface, members[k]);
      KeysMeet(camel, c);
    }
  }

  // -------------------------------------------------------------------
  // The table of a provider's methods.
  // -------------------------------------------------------------------

  // A call the face carries has a provider method.
  predicate Provided(m: Member) {
    && m.shape.Call?
    && var s := m.shape.streams;
    !s.any || s.command || s.query || s.reply
  }

  // A query with an upload and a plain reply has a second one.
  predicate Replies(m: Member) {
    Provided(m) && m.shape.streams.query && !m.shape.streams.hasReply
  }

  // Two calls spell one method: their own names meet, or one is named as the
  // other's reply is.
  predicate ProvidersMeet(a: Member, b: Member) {
    && Provided(a) && Provided(b)
    && (SameIdentifier(a.snake, b.snake)
        || (Replies(a) && b.snake == a.snake + "_reply") || (Replies(b) && a.snake == b.snake + "_reply"))
  }

  predicate SomeProvidersMeet(members: seq<Member>, n: nat) {
    exists i, j :: 0 <= i < j < n && j < |members| && ProvidersMeet(members[i], members[j])
  }

  function ProviderNames(m: Member): seq<string> {
    if !Provided(m) then [] else [m.snake] + if Replies(m) then [m.snake + "_reply"] else []
  }

  // A provider method of a member before `k` has this identifier.
  ghost predicate Method(members: seq<Member>, k: nat, n: string) {
    exists i :: 0 <= i < k && i < |members| && MethodOf(members[i], n)
  }

  ghost predicate MethodOf(m: Member, n: string) {
    exists name :: name in ProviderNames(m) && n == Key(name)
  }

  lemma {:induction false} ProviderNamesAre(m: Member, name: string)
    ensures name in ProviderNames(m) <==>
              Provided(m) && (name == m.snake || (Replies(m) && name == m.snake + "_reply"))
  {
  }

  lemma {:induction false} NamesMeet(a: Member, b: Member, name: string)
    requires name in ProviderNames(b)
    ensures MethodOf(a, Key(name)) ==> ProvidersMeet(a, b)
  {
    if MethodOf(a, Key(name)) {
      var other :| other in ProviderNames(a) && Key(name) == Key(other);
      ProviderNamesAre(a, other);
      ProviderNamesAre(b, name);
      TwoNamesMeet(a, b, name, other);
    }
  }

  lemma {:induction false} TwoNamesMeet(a: Member, b: Member, name: string, other: string)
    requires Provided(a) && (other == a.snake || (Replies(a) && other == a.snake + "_reply"))
    requires Provided(b) && (name == b.snake || (Replies(b) && name == b.snake + "_reply"))
    requires Key(name) == Key(other)
    ensures ProvidersMeet(a, b)
  {
    if name == b.snake && other == a.snake {
      KeysMeet(name, other);
    } else if name == b.snake {
      ReplyKey(name, a.snake);
    } else if other == a.snake {
      ReplyKey(other, b.snake);
    } else {
      RepliesMeet(a.snake, b.snake);
    }
  }

  // The name of a reply is an identifier of its own.
  lemma {:induction false} ReplyKey(name: string, call: string)
    ensures Key(name) == Key(call + "_reply") ==> name == call + "_reply"
  {
    ReplyIsLong(call);
    KeysMeet(name, call + "_reply");
  }

  lemma {:induction false} RepliesMeet(a: string, b: string)
    ensures Key(a + "_reply") == Key(b + "_reply") ==> a == b
  {
    ReplyKey(a + "_reply", b);
    if a + "_reply" == b + "_reply" {
      assert (a + "_reply")[..|a|] == a && (b + "_reply")[..|b|] == b;
    }
  }

  lemma {:induction false} ReplyIsLong(name: string)
    ensures name + "_reply" != "_" && name + "_reply" != "__" && name + "_reply" != name
  {
    assert |name + "_reply"| == |name| + 6;
  }

  lemma {:induction false} MeetingIsFound(a: Member, b: Member) returns (name: string)
    requires ProvidersMeet(a, b)
    ensures name in ProviderNames(b) && MethodOf(a, Key(name))
  {
    if SameIdentifier(a.snake, b.snake) {
      name := b.snake;
      KeysMeet(a.snake, b.snake);
      assert a.snake in ProviderNames(a);
    } else if Replies(a) && b.snake == a.snake + "_reply" {
      name := b.snake;
      assert a.snake + "_reply" in ProviderNames(a);
    } else {
      name := b.snake + "_reply";
      assert a.snake in ProviderNames(a);
    }
  }

  // A member's methods are free of those before exactly when it meets none of
  // their calls.
  lemma {:induction false} MethodsMeet(members: seq<Member>, k: nat)
    requires k < |members|
    ensures (exists name :: name in ProviderNames(members[k]) && Method(members, k, Key(name))) <==>
            exists i :: 0 <= i < k && ProvidersMeet(members[i], members[k])
  {
    if name :| name in ProviderNames(members[k]) && Method(members, k, Key(name)) {
      var i :| 0 <= i < k && MethodOf(members[i], Key(name));
      NamesMeet(members[i], members[k], name);
    }
    if i :| 0 <= i < k && ProvidersMeet(members[i], members[k]) {
      var name := MeetingIsFound(members[i], members[k]);
      assert Method(members, k, Key(name));
    }
  }

  lemma {:induction false} OneMoreMember(members: seq<Member>, k: nat)
    requires k < |members|
    ensures forall n :: Method(members, k + 1, n) <==> Method(members, k, n) || MethodOf(members[k], n)
    ensures SomeProvidersMeet(members, k + 1) <==>
              SomeProvidersMeet(members, k) || exists i :: 0 <= i < k && ProvidersMeet(members[i], members[k])
    ensures SomeProvidersMeet(members, k + 1) ==> SomeProvidersMeet(members, |members|)
  {
  }

  // One member's methods, which never meet each other.
  method ClaimMethods(methods: Table, m: Member) returns (ok: bool)
    modifies methods
    ensures ok <==> forall name :: name in ProviderNames(m) ==> Key(name) !in old(methods.claimed)
    ensures ok ==> forall n :: n in methods.claimed <==> n in old(methods.claimed) || MethodOf(m, n)
  {
    ok := true;
    if !m.shape.Call? {
      return;
    }
    var Streams(any, command, query, reply, hasReply) := m.shape.streams;
    if any && !command && !query && !reply {
      return;
    }
    assert m.snake in ProviderNames(m);
    ok := methods.Claim(m.snake);
    if !ok || !query || hasReply {
      return;
    }
    assert m.snake + "_reply" in ProviderNames(m);
    ReplyIsLong(m.snake);
    KeysMeet(m.snake, m.snake + "_reply");
    ok := methods.Claim(m.snake + "_reply");
  }

  method ProviderMethods(members: seq<Member>) returns (ok: bool)
    ensures ok <==> !SomeProvidersMeet(members, |members|)
  {
    var methods := new Table();
    for k := 0 to |members|
      invariant fresh(methods) && !SomeProvidersMeet(members, k)
      invariant forall n :: n in methods.claimed <==> Method(members, k, n)
    {
      MethodsMeet(members, k);
      OneMoreMember(members, k);
      ok := ClaimMethods(methods, members[k]);
      if !ok {
        return;
      }
    }
    ok := true;
  }

  // The three tables of one face module.
  method FaceModule(iface: string, members: seq<Member>) returns (ok: bool)
    requires DescriptorsDiffer(iface, members)
    ensures ok <==> !UnderscoreEvents(members, |members|) && !SomeProvidersMeet(members, |members|)
  {
    ok := SpelledNames(iface, members);
    if ok {
      ok := ProviderMethods(members);
    }
  }

  // -------------------------------------------------------------------
  // Members as the lowering spells them.
  // -------------------------------------------------------------------

  // The CamelCase transform: the segments between underscores, the empty ones
  // dropped, each with its first character in upper case.
  function Camel(upper: char -> string, name: string): string {
    Capitalized(upper, Split(name, "_"))
  }

  function Capitalized(upper: char -> string, segments: seq<string>): string {
    if segments == [] then ""
    else (if segments[0] == "" then "" else upper(segments[0][0]) + segments[0][1..]) +
         Capitalized(upper, segments[1..])
  }

  // What each character becomes: an underscore nothing, the first of the name or
  // after an underscore its upper case, any other itself.
  function Spelled(upper: char -> string, name: string): string {
    if name == "" then ""
    else
      var k := |name| - 1;
      Spelled(upper, name[..k]) + SpelledAt(upper, name, k)
  }

  function SpelledAt(upper: char -> string, name: string, k: nat): string
    requires k < |name|
  {
    if name[k] == '_' then "" else if k == 0 || name[k - 1] == '_' then upper(name[k]) else [name[k]]
  }

  lemma {:induction false} CamelIsSpelled(upper: char -> string, name: string)
    ensures Camel(upper, name) == Spelled(upper, name)
    decreases |name|
  {
    var found := SplitOnce(name, "_");
    if found.None? {
      forall k: nat | k < |name| ensures name[k] != '_' {
        OneCharacterAt(name, '_', k);
      }
      SegmentIsSpelled(upper, name);
      assert Capitalized(upper, [name][1..]) == "";
    } else {
      var Halves(before, after) := found.value;
      forall k: nat | k < |before| ensures before[k] != '_' {
        OneCharacterAt(name, '_', k);
      }
      SegmentIsSpelled(upper, before);
      CamelIsSpelled(upper, after);
      SpelledApart(upper, before, after);
      assert ([before] + Split(after, "_"))[1..] == Split(after, "_");
    }
  }

  lemma {:induction false} SegmentIsSpelled(upper: char -> string, segment: string)
    requires '_' !in segment
    ensures Spelled(upper, segment) == if segment == "" then "" else upper(segment[0]) + segment[1..]
  {
    if |segment| == 1 {
      assert Spelled(upper, segment[..0]) == "";
    } else if segment != "" {
      var front := segment[..|segment| - 1];
      SegmentIsSpelled(upper, front);
      assert upper(segment[0]) + front[1..] + [segment[|segment| - 1]] == upper(segment[0]) + segment[1..];
    }
  }

  lemma {:induction false} SpelledApart(upper: char -> string, a: string, b: string)
    ensures Spelled(upper, a + "_" + b) == Spelled(upper, a) + Spelled(upper, b)
  {
    if b == "" {
      SpelledNext(upper, a, '_');
      assert Spelled(upper, a + "_") == Spelled(upper, a);
      assert a + "_" + b == a + "_";
    } else {
      var front, last := b[..|b| - 1], b[|b| - 1];
      SpelledApart(upper, a, front);
      SpelledOn(upper, a, front, last);
      assert front + [last] == b;
      Associates(a + "_", front, [last]);
    }
  }

  lemma {:induction false} SpelledOn(upper: char -> string, a: string, b: string, c: char)
    requires Spelled(upper, a + "_" + b) == Spelled(upper, a) + Spelled(upper, b)
    ensures Spelled(upper, a + "_" + b + [c]) == Spelled(upper, a) + Spelled(upper, b + [c])
  {
    SpelledNext(upper, a + "_" + b, c);
    SpelledNext(upper, b, c);
    assert b != "" ==> (a + "_" + b)[|a + "_" + b| - 1] == b[|b| - 1];
    Associates(Spelled(upper, a), Spelled(upper, b), SpelledAt(upper, b + [c], |b|));
  }

  lemma {:induction false} SpelledNext(upper: char -> string, s: string, c: char)
    ensures Spelled(upper, s + [c]) == Spelled(upper, s) + SpelledAt(upper, s + [c], |s|)
  {
    assert (s + [c])[..|s|] == s;
  }

  // Upper case makes no underscore.
  ghost predicate CaseOnly(upper: char -> string) {
    forall c :: c != '_' ==> '_' !in upper(c)
  }

  lemma {:induction false} CamelHoldsNoUnderscore(upper: char -> string, name: string)
    requires CaseOnly(upper)
    ensures '_' !in Camel(upper, name)
  {
    PartsHoldNoSeparator(name, '_');
    CapitalizedHoldsNoUnderscore(upper, Split(name, "_"));
  }

  lemma {:induction false} CapitalizedHoldsNoUnderscore(upper: char -> string, segments: seq<string>)
    requires CaseOnly(upper) && forall k :: 0 <= k < |segments| ==> '_' !in segments[k]
    ensures '_' !in Capitalized(upper, segments)
  {
    if segments != [] {
      CapitalizedHoldsNoUnderscore(upper, segments[1..]);
      if segments[0] != "" { assert segments[0][0] in segments[0]; }
    }
  }

  datatype Interaction = Interaction(name: string, shape: Shape)

  function Lowered(upper: char -> string, snake: string -> string, interactions: seq<Interaction>): (r: seq<Member>)
    ensures |r| == |interactions|
    ensures forall k :: 0 <= k < |r| ==>
              r[k] == Member(Camel(upper, interactions[k].name), snake(interactions[k].name), interactions[k].shape)
  {
    seq(|interactions|, k requires 0 <= k < |interactions| =>
      Member(Camel(upper, interactions[k].name), snake(interactions[k].name), interactions[k].shape))
  }

  // Over descriptors the package accepts, the tables of types and variants of a
  // lowered interface never refuse, whatever its members are called; only its
  // provider methods can meet.
  method LoweredFaceModule(
    upper: char -> string, snake: string -> string, iface: string, interactions: seq<Interaction>)
    returns (ok: bool)
    requires CaseOnly(upper) && DescriptorsDiffer(iface, Lowered(upper, snake, interactions))
    ensures var members := Lowered(upper, snake, interactions);
            ok <==> !SomeProvidersMeet(members, |members|)
  {
    var members := Lowered(upper, snake, interactions);
    ok := FaceModule(iface, members);
    forall i | 0 <= i < |members| ensures members[i].camel != "_" {
      CamelHoldsNoUnderscore(upper, interactions[i].name);
      assert "_"[0] == '_';
    }
  }

  // The name check of the front end keeps the members of an interface apart
  // under the snake transform, and no name is underscores alone. What is left is
  // a call named as the reply of a query is.
  lemma {:induction false} CheckedProvidersMeet(members: seq<Member>)
    requires forall i, j :: 0 <= i < j < |members| ==> members[i].snake != members[j].snake
    requires forall i :: 0 <= i < |members| ==> members[i].snake != "_"
    ensures SomeProvidersMeet(members, |members|) <==>
            exists i, j :: 0 <= i < |members| && 0 <= j < |members| && NamedAsReply(members[i], members[j])
  {
    if i, j :| 0 <= i < |members| && 0 <= j < |members| && NamedAsReply(members[i], members[j]) {
      ReplyIsLong(members[i].snake);
      if i < j {
        assert ProvidersMeet(members[i], members[j]);
      } else {
        assert i != j && ProvidersMeet(members[j], members[i]);
      }
    }
    if i, j :| 0 <= i < j < |members| && ProvidersMeet(members[i], members[j]) {
      assert NamedAsReply(members[i], members[j]) || NamedAsReply(members[j], members[i]);
    }
  }

  predicate NamedAsReply(query: Member, call: Member) {
    Replies(query) && Provided(call) && call.snake == query.snake + "_reply"
  }
}
