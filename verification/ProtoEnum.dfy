// The proto3 enum an enum declaration becomes, and the scope all of a
// package's names share.
module ProtoEnum {
  import opened Common

  datatype Value = Value(name: string, number: int)

  // A tombstone: a retired number, or a retired name.
  datatype Retired = Retired(number: Option<int>, name: Option<string>)

  datatype EnumDef = EnumDef(name: string, values: seq<Value>, retired: seq<Retired>)

  // The SCREAMING_SNAKE transform.
  type Case = string -> string

  datatype Reservation = ReservedNumber(number: int) | ReservedName(name: string)

  // An emitted enum: its values, and what it reserves.
  datatype Body = Body(live: seq<Value>, reserved: seq<Reservation>)

  predicate Int32(n: int) {
    -0x8000_0000 <= n < 0x8000_0000
  }

  predicate HasZero(values: seq<Value>) {
    exists k :: 0 <= k < |values| && values[k].number == 0
  }

  function Zeros(values: seq<Value>): seq<Value> {
    if values == [] then []
    else if values[0].number == 0 then [values[0]] + Zeros(values[1..])
    else Zeros(values[1..])
  }

  function Others(values: seq<Value>): seq<Value> {
    if values == [] then []
    else if values[0].number != 0 then [values[0]] + Others(values[1..])
    else Others(values[1..])
  }

  function Projected(screaming: Case, def: EnumDef, name: string): string {
    screaming(def.name) + "_" + screaming(name)
  }

  function Unspecified(screaming: Case, def: EnumDef): string {
    screaming(def.name) + "_UNSPECIFIED"
  }

  function ValueLine(screaming: Case, def: EnumDef, v: Value): Value {
    Value(Projected(screaming, def, v.name), v.number)
  }

  function ValueLines(screaming: Case, def: EnumDef, values: seq<Value>): (r: seq<Value>)
    ensures |r| == |values| && forall k :: 0 <= k < |r| ==> r[k] == ValueLine(screaming, def, values[k])
  {
    seq(|values|, k requires 0 <= k < |values| => ValueLine(screaming, def, values[k]))
  }

  function ValueNames(screaming: Case, def: EnumDef, values: seq<Value>): (r: seq<string>)
    ensures |r| == |values| && forall k :: 0 <= k < |r| ==> r[k] == Projected(screaming, def, values[k].name)
  {
    seq(|values|, k requires 0 <= k < |values| => Projected(screaming, def, values[k].name))
  }

  // A zero leads: the declared one, or one made up.
  function Made(screaming: Case, def: EnumDef): seq<Value> {
    if HasZero(def.values) then [] else [Value(Unspecified(screaming, def), 0)]
  }

  function MadeNames(screaming: Case, def: EnumDef): seq<string> {
    if HasZero(def.values) then [] else [Unspecified(screaming, def)]
  }

  // Zeros first, the rest as declared.
  function Ordered(values: seq<Value>): seq<Value> {
    Zeros(values) + Others(values)
  }

  function LiveLines(screaming: Case, def: EnumDef): seq<Value> {
    Made(screaming, def) + ValueLines(screaming, def, Ordered(def.values))
  }

  function LiveNames(screaming: Case, def: EnumDef): seq<string> {
    MadeNames(screaming, def) + ValueNames(screaming, def, Ordered(def.values))
  }

  // A retired zero whose slot the made-up zero fills is not reserved.
  predicate Filled(def: EnumDef, r: Retired) {
    r.number == Some(0) && !HasZero(def.values)
  }

  function ReservedLine(screaming: Case, def: EnumDef, r: Retired): seq<Reservation> {
    if Filled(def, r) then []
    else if r.number.Some? then [ReservedNumber(r.number.value)]
    else if r.name.Some? then [ReservedName(Projected(screaming, def, r.name.value))]
    else []
  }

  function ReservedLines(screaming: Case, def: EnumDef, retired: seq<Retired>): seq<Reservation> {
    if retired == [] then []
    else ReservedLines(screaming, def, retired[..|retired| - 1]) + ReservedLine(screaming, def, retired[|retired| - 1])
  }

  // What an enum claims: its own name and each of its values', which are its
  // siblings.
  function Claims(screaming: Case, def: EnumDef): seq<string> {
    [def.name] + LiveNames(screaming, def)
  }

  // What refuses an enum whatever else its package holds.
  predicate RetiredFits(screaming: Case, def: EnumDef, r: Retired) {
    || Filled(def, r)
    || (r.number.Some? && -2147483648 <= r.number.value <= 2147483647)
    || (r.number.None? && r.name.Some? && Projected(screaming, def, r.name.value) !in LiveNames(screaming, def))
  }

  predicate InRange(values: seq<Value>) {
    forall k :: 0 <= k < |values| ==> -2147483648 <= values[k].number <= 2147483647
  }

  predicate Fits(screaming: Case, def: EnumDef) {
    && InRange(def.values)
    && (forall k :: 0 <= k < |def.retired| ==> RetiredFits(screaming, def, def.retired[k]))
  }

  lemma {:induction false} OrderedMember(values: seq<Value>, v: Value)
    ensures v in values <==> v in Ordered(values)
    ensures v in Zeros(values) <==> v in values && v.number == 0
  {
    if values != [] { OrderedMember(values[1..], v); }
  }

  lemma {:induction false} ZeroLeads(values: seq<Value>)
    ensures HasZero(values) <==> Zeros(values) != []
    ensures HasZero(values) ==> Ordered(values)[0].number == 0
  {
    if values != [] {
      ZeroLeads(values[1..]);
      assert values == [values[0]] + values[1..];
    }
  }

  lemma {:induction false} OneLonger<T>(s: seq<T>, k: nat)
    requires k < |s|
    ensures s[..k + 1] == s[..k] + [s[k]]
  {
  }

  lemma {:induction false} OrderedInRange(values: seq<Value>)
    ensures InRange(Ordered(values)) <==> InRange(values)
  {
    if InRange(Ordered(values)) {
      forall k | 0 <= k < |values| ensures -2147483648 <= values[k].number <= 2147483647 {
        OrderedMember(values, values[k]);
      }
    }
    if InRange(values) {
      forall k | 0 <= k < |Ordered(values)| ensures -2147483648 <= Ordered(values)[k].number <= 2147483647 {
        OrderedMember(values, Ordered(values)[k]);
      }
    }
  }

  // -------------------------------------------------------------------
  // What an emitted enum says.
  // -------------------------------------------------------------------

  // A line is of a declared value: its name behind the enum's, its number.
  ghost predicate IsOf(screaming: Case, def: EnumDef, line: Value, v: Value) {
    line.number == v.number && line.name == screaming(def.name) + "_" + screaming(v.name)
  }

  // A reservation is of a tombstone: its number, or its name behind the enum's.
  ghost predicate Reserves(screaming: Case, def: EnumDef, line: Reservation, r: Retired) {
    match r.number
    case Some(n) => line == ReservedNumber(n)
    case None => r.name.Some? && line == ReservedName(screaming(def.name) + "_" + screaming(r.name.value))
  }

  // Every declared value has a line and every line is of one, but for a zero made
  // up where none is declared; every tombstone has a reservation and every
  // reservation is of one, but for a retired zero where the made-up one stands.
  ghost predicate Says(screaming: Case, def: EnumDef, body: Body) {
    var zero := exists v :: v in def.values && v.number == 0;
    var made := Value(screaming(def.name) + "_UNSPECIFIED", 0);
    && |body.live| == |def.values| + (if zero then 0 else 1)
    && (forall v :: v in def.values ==> exists line :: line in body.live && IsOf(screaming, def, line, v))
    && (forall line :: line in body.live ==>
          (!zero && line == made) || exists v :: v in def.values && IsOf(screaming, def, line, v))
    && (!zero ==> made in body.live)
    && (forall r :: r in def.retired && (zero || r.number != Some(0)) ==>
          exists line :: line in body.reserved && Reserves(screaming, def, line, r))
    && (forall line :: line in body.reserved ==>
          exists r :: r in def.retired && (zero || r.number != Some(0)) && Reserves(screaming, def, line, r))
  }

  lemma {:induction false} OrderedLength(values: seq<Value>)
    ensures |Ordered(values)| == |values|
  {
    if values != [] { OrderedLength(values[1..]); }
  }

  lemma {:induction false} ZeroIsMember(values: seq<Value>)
    ensures HasZero(values) <==> exists v :: v in values && v.number == 0
  {
    if HasZero(values) {
      var k :| 0 <= k < |values| && values[k].number == 0;
      assert values[k] in values;
    }
  }

  lemma {:induction false} LiveSays(screaming: Case, def: EnumDef, line: Value)
    ensures line in LiveLines(screaming, def) <==>
            || (!HasZero(def.values) && line == Value(screaming(def.name) + "_UNSPECIFIED", 0))
            || exists v :: v in def.values && IsOf(screaming, def, line, v)
  {
    var ordered := Ordered(def.values);
    var lines := ValueLines(screaming, def, ordered);
    if line in lines {
      var k :| 0 <= k < |lines| && lines[k] == line;
      OrderedMember(def.values, ordered[k]);
      assert IsOf(screaming, def, line, ordered[k]);
    }
    if v :| v in def.values && IsOf(screaming, def, line, v) {
      OrderedMember(def.values, v);
      var k :| 0 <= k < |ordered| && ordered[k] == v;
      assert lines[k] == line;
    }
  }

  lemma {:induction false} EmittedEnumSays(screaming: Case, def: EnumDef)
    requires Fits(screaming, def)
    ensures Says(screaming, def, Body(LiveLines(screaming, def), ReservedLines(screaming, def, def.retired)))
  {
    var live, reserved := LiveLines(screaming, def), ReservedLines(screaming, def, def.retired);
    ZeroIsMember(def.values);
    OrderedLength(def.values);
    forall line { LiveSays(screaming, def, line); }
    forall v | v in def.values ensures exists line :: line in live && IsOf(screaming, def, line, v) {
      assert IsOf(screaming, def, ValueLine(screaming, def, v), v);
    }
    forall r | r in def.retired && !Filled(def, r)
      ensures exists line :: line in reserved && Reserves(screaming, def, line, r)
    {
      var k :| 0 <= k < |def.retired| && def.retired[k] == r;
      assert RetiredFits(screaming, def, r);
      var line := ReservedLine(screaming, def, r)[0];
      ReservedMembers(screaming, def, def.retired, line);
      assert line in ReservedLine(screaming, def, def.retired[k]) && Reserves(screaming, def, line, r);
    }
    forall line | line in reserved
      ensures exists r :: r in def.retired && !Filled(def, r) && Reserves(screaming, def, line, r)
    {
      ReservedMembers(screaming, def, def.retired, line);
      var k :| 0 <= k < |def.retired| && line in ReservedLine(screaming, def, def.retired[k]);
      assert Reserves(screaming, def, line, def.retired[k]);
    }
  }

  lemma {:induction false} ClaimsAreNames(screaming: Case, def: EnumDef)
    ensures forall n :: n in Claims(screaming, def) <==>
              n == def.name || exists v :: v in LiveLines(screaming, def) && v.name == n
  {
    LiveNumbers(screaming, def);
    var live := LiveLines(screaming, def);
    forall n ensures n in Names(live) <==> exists v :: v in live && v.name == n {
      if n in Names(live) {
        var k :| 0 <= k < |live| && Names(live)[k] == n;
        assert live[k] in live;
      }
      if v :| v in live && v.name == n {
        var k :| 0 <= k < |live| && live[k] == v;
        assert Names(live)[k] == n;
      }
    }
  }

  // -------------------------------------------------------------------
  // The emitter.
  // -------------------------------------------------------------------

  class SymbolScope {
    var claimed: set<string>

    constructor ()
      ensures claimed == {}
    {
      claimed := {};
    }

    method Claim(name: string) returns (ok: bool)
      modifies this
      ensures ok <==> name !in old(claimed)
      ensures claimed == old(claimed) + {name}
    {
      ok := name !in claimed;
      claimed := claimed + {name};
    }

    method EmitEnum(screaming: Case, def: EnumDef) returns (body: Option<Body>)
      modifies this
      ensures body.Some? <==> Fits(screaming, def) && Free(old(claimed), Claims(screaming, def))
      ensures body.Some? ==> body.value == Body(LiveLines(screaming, def), ReservedLines(screaming, def, def.retired))
      ensures body.Some? ==> Entered(old(claimed), claimed, Claims(screaming, def))
      ensures body.Some? ==> Says(screaming, def, body.value)
      ensures body.Some? ==>
                forall n :: n in claimed <==>
                  n in old(claimed) || n == def.name || exists v :: v in body.value.live && v.name == n
    {
      ghost var before, made, names := claimed, MadeNames(screaming, def),
          ValueNames(screaming, def, Ordered(def.values));
      assert Claims(screaming, def) == [def.name] + made + names;
      OrderedInRange(def.values);
      EnterOne(before, claimed, [], def.name, made + names);
      assert [] + [def.name] == [def.name] && [def.name] + (made + names) == [def.name] + made + names;
      var ok := Claim(def.name);
      if !ok {
        return None;
      }
      var written: seq<Value> := [];
      if !HasZero(def.values) {
        EnterOne(before, claimed, [def.name], Unspecified(screaming, def), names);
        ok := Claim(Unspecified(screaming, def));
        if !ok {
          return None;
        }
        written := [Value(Unspecified(screaming, def), 0)];
      }
      assert [def.name] + [] == [def.name];
      ghost var mid := claimed;
      assert Entered(before, mid, [def.name] + made) && written == Made(screaming, def);
      NotFree(before, mid, [def.name] + made, names, []);
      assert [def.name] + made + names + [] == [def.name] + made + names;
      var live := EmitValues(screaming, def, Ordered(def.values));
      if live.None? {
        return None;
      }
      EnterMany(before, mid, claimed, [def.name] + made, names);
      var reserved := EmitReserved(screaming, def);
      if reserved.None? {
        return None;
      }
      body := Some(Body(written + live.value, reserved.value));
      EmittedEnumSays(screaming, def);
      ClaimsAreNames(screaming, def);
    }

    // The declared values, in the order given.
    method EmitValues(screaming: Case, def: EnumDef, ordered: seq<Value>) returns (live: Option<seq<Value>>)
      modifies this
      ensures live.Some? <==> InRange(ordered) && Free(old(claimed), ValueNames(screaming, def, ordered))
      ensures live.Some? ==> live.value == ValueLines(screaming, def, ordered)
      ensures live.Some? ==> Entered(old(claimed), claimed, ValueNames(screaming, def, ordered))
    {
      ghost var names, written := ValueNames(screaming, def, ordered), ValueLines(screaming, def, ordered);
      var done: seq<Value> := [];
      for k := 0 to |ordered|
        invariant done == written[..k] && Entered(old(claimed), claimed, names[..k])
        invariant forall i :: 0 <= i < k ==> Int32(ordered[i].number)
      {
        var v := ordered[k];
        if !Int32(v.number) {
          return None;
        }
        var member := Projected(screaming, def, v.name);
        EnterAt(old(claimed), claimed, names, k);
        OneLonger(written, k);
        var ok := Claim(member);
        if !ok {
          return None;
        }
        done := done + [Value(member, v.number)];
      }
      assert names[..|ordered|] == names && written[..|ordered|] == written;
      live := Some(done);
    }

    method EmitReserved(screaming: Case, def: EnumDef) returns (reserved: Option<seq<Reservation>>)
      ensures reserved.Some? <==> forall k :: 0 <= k < |def.retired| ==> RetiredFits(screaming, def, def.retired[k])
      ensures reserved.Some? ==> reserved.value == ReservedLines(screaming, def, def.retired)
    {
      var zeroDeclared := HasZero(def.values);
      var done: seq<Reservation> := [];
      for k := 0 to |def.retired|
        invariant done == ReservedLines(screaming, def, def.retired[..k])
        invariant forall i :: 0 <= i < k ==> RetiredFits(screaming, def, def.retired[i])
      {
        var r := def.retired[k];
        assert def.retired[..k + 1][..k] == def.retired[..k];
        assert done + [] == done;
        match r.number
        case Some(retired) =>
          if retired == 0 && !zeroDeclared {
            continue;
          }
          if !Int32(retired) {
            return None;
          }
          done := done + [ReservedNumber(retired)];
        case None =>
          if r.name.None? {
            return None;
          }
          var projected := Projected(screaming, def, r.name.value);
          if projected in LiveNames(screaming, def) {
            return None;
          }
          done := done + [ReservedName(projected)];
      }
      assert def.retired[..|def.retired|] == def.retired;
      reserved := Some(done);
    }
  }

  // -------------------------------------------------------------------
  // What proto3 asks of an enum.
  // -------------------------------------------------------------------

  function Numbers(values: seq<Value>): (r: seq<int>)
    ensures |r| == |values| && forall k :: 0 <= k < |r| ==> r[k] == values[k].number
  {
    seq(|values|, k requires 0 <= k < |values| => values[k].number)
  }

  function Names(values: seq<Value>): (r: seq<string>)
    ensures |r| == |values| && forall k :: 0 <= k < |r| ==> r[k] == values[k].name
  {
    seq(|values|, k requires 0 <= k < |values| => values[k].name)
  }

  // The rules of the section 'Enumerations' of the Protocol Buffers Language
  // Guide, proto 3: zero first and only there, values and names distinct and in
  // range, and nothing reserved that is live or reserved twice.
  ghost predicate ValidBody(body: Body) {
    && body.live != [] && body.live[0].number == 0 && InRange(body.live)
    && Distinct(Numbers(body.live)) && Distinct(Names(body.live))
    && Distinct(body.reserved) && AllReservationsValid(body)
  }

  ghost predicate ValidReservation(live: seq<Value>, r: Reservation) {
    match r
    case ReservedNumber(n) => -2147483648 <= n <= 2147483647 && n !in Numbers(live)
    case ReservedName(n) => n !in Names(live)
  }

  ghost predicate AllReservationsValid(body: Body) {
    forall r :: r in body.reserved ==> ValidReservation(body.live, r)
  }

  // What the representation has to promise for the rules to hold: no number
  // declared twice, none declared and retired.
  ghost predicate DistinctNumbers(def: EnumDef) {
    Distinct(Numbers(def.values))
  }

  ghost predicate RetiredApart(def: EnumDef) {
    forall j :: 0 <= j < |def.retired| && def.retired[j].number.Some? ==>
        def.retired[j].number.value !in Numbers(def.values)
  }

  // Two tombstones that are both written say different things.
  ghost predicate TombstonesDiffer(screaming: Case, def: EnumDef) {
    forall i, j :: 0 <= i < j < |def.retired| && !Filled(def, def.retired[i]) && !Filled(def, def.retired[j]) ==>
      ReservedLine(screaming, def, def.retired[i]) != ReservedLine(screaming, def, def.retired[j])
  }

  ghost predicate AtMostOnce<T(!new)>(bag: multiset<T>) {
    forall x :: bag[x] <= 1
  }

  lemma {:induction false} DistinctIffOnce<T(!new)>(s: seq<T>)
    ensures Distinct(s) <==> AtMostOnce(multiset(s))
  {
    if s != [] {
      var front, last := s[..|s| - 1], s[|s| - 1];
      DistinctIffOnce(front);
      assert s == front + [last];
      assert multiset(s) == multiset(front) + multiset{last};
      DistinctSnoc(front, last);
      assert last in front <==> last in multiset(front);
      if AtMostOnce(multiset(s)) {
        assert multiset(s)[last] <= 1;
        forall x ensures multiset(front)[x] <= 1 {
          assert multiset(s)[x] <= 1;
        }
      }
    }
  }

  lemma {:induction false} NumbersAppend(a: seq<Value>, b: seq<Value>)
    ensures Numbers(a + b) == Numbers(a) + Numbers(b)
  {
  }

  // Ordering loses no number and adds none.
  lemma {:induction false} NumbersOrdered(values: seq<Value>)
    ensures multiset(Numbers(Ordered(values))) == multiset(Numbers(values))
  {
    NumbersPartition(values);
    NumbersAppend(Zeros(values), Others(values));
  }

  lemma {:induction false} NumbersPartition(values: seq<Value>)
    ensures multiset(Numbers(Zeros(values))) + multiset(Numbers(Others(values))) == multiset(Numbers(values))
  {
    if values != [] {
      var v, rest := values[0], values[1..];
      NumbersPartition(rest);
      assert values == [v] + rest;
      NumbersAppend([v], rest);
      NumbersAppend([v], Zeros(rest));
      NumbersAppend([v], Others(rest));
      assert Numbers([v]) == [v.number];
    }
  }

  lemma {:induction false} DistinctCons<T>(x: T, s: seq<T>)
    ensures Distinct([x] + s) <==> Distinct(s) && x !in s
  {
    var all := [x] + s;
    assert forall k :: 0 <= k < |s| ==> all[k + 1] == s[k];
    if x in s {
      var k :| 0 <= k < |s| && s[k] == x;
      assert all[0] == all[k + 1];
    }
    if Distinct(all) {
      forall i, j | 0 <= i < j < |s| ensures s[i] != s[j] {
        assert all[i + 1] != all[j + 1];
      }
    }
  }

  lemma {:induction false} ProjectionKeeps(screaming: Case, def: EnumDef, values: seq<Value>)
    ensures Numbers(ValueLines(screaming, def, values)) == Numbers(values)
    ensures Names(ValueLines(screaming, def, values)) == ValueNames(screaming, def, values)
    ensures InRange(ValueLines(screaming, def, values)) <==> InRange(values)
  {
    assert forall k :: 0 <= k < |values| ==> ValueLines(screaming, def, values)[k].number == values[k].number;
  }

  // The live numbers are the declared ones, with the zero made up if none is
  // zero; the live names are those claimed.
  lemma {:induction false} LiveNumbers(screaming: Case, def: EnumDef)
    ensures multiset(Numbers(LiveLines(screaming, def))) ==
            multiset(Numbers(def.values)) + if HasZero(def.values) then multiset{} else multiset{0}
    ensures Names(LiveLines(screaming, def)) == LiveNames(screaming, def)
  {
    NumbersOrdered(def.values);
    LiveOf(screaming, def, Ordered(def.values));
  }

  lemma {:induction false} LiveOf(screaming: Case, def: EnumDef, ordered: seq<Value>)
    ensures multiset(Numbers(Made(screaming, def) + ValueLines(screaming, def, ordered))) ==
            multiset(Numbers(ordered)) + if HasZero(def.values) then multiset{} else multiset{0}
    ensures Names(Made(screaming, def) + ValueLines(screaming, def, ordered)) ==
            MadeNames(screaming, def) + ValueNames(screaming, def, ordered)
  {
    var made, rest := Made(screaming, def), ValueLines(screaming, def, ordered);
    ProjectionKeeps(screaming, def, ordered);
    NumbersAppend(made, rest);
    assert Names(made + rest) == Names(made) + Names(rest);
    assert Names(made) == MadeNames(screaming, def);
    assert Numbers(made) == if HasZero(def.values) then [] else [0];
  }

  lemma {:induction false} LiveDistinct(screaming: Case, def: EnumDef)
    ensures Distinct(Numbers(LiveLines(screaming, def))) <==> DistinctNumbers(def)
  {
    LiveNumbers(screaming, def);
    var declared, live := multiset(Numbers(def.values)), multiset(Numbers(LiveLines(screaming, def)));
    DistinctIffOnce(Numbers(def.values));
    DistinctIffOnce(Numbers(LiveLines(screaming, def)));
    ZeroIsDeclared(def.values);
    if AtMostOnce(declared) {
      forall n ensures live[n] <= 1 {
        assert declared[n] <= 1;
      }
    }
    if AtMostOnce(live) {
      forall n ensures declared[n] <= 1 {
        assert live[n] <= 1;
      }
    }
  }

  lemma {:induction false} ZeroIsDeclared(values: seq<Value>)
    ensures HasZero(values) <==> 0 in Numbers(values)
  {
    if HasZero(values) {
      var k :| 0 <= k < |values| && values[k].number == 0;
      assert Numbers(values)[k] == 0;
    }
  }

  lemma {:induction false} ReservedMembers(screaming: Case, def: EnumDef, retired: seq<Retired>, x: Reservation)
    ensures x in ReservedLines(screaming, def, retired) <==>
              exists k :: 0 <= k < |retired| && x in ReservedLine(screaming, def, retired[k])
  {
    if retired != [] {
      var front, last := retired[..|retired| - 1], retired[|retired| - 1];
      ReservedMembers(screaming, def, front, x);
      if x in ReservedLines(screaming, def, front) {
        var k :| 0 <= k < |front| && x in ReservedLine(screaming, def, front[k]);
        assert retired[k] == front[k];
      }
      if k :| 0 <= k < |retired| && x in ReservedLine(screaming, def, retired[k]) {
        if k < |front| { assert retired[k] == front[k]; }
      }
    }
  }

  // A tombstone that is written reserves what is not live, when its number is
  // not a declared one.
  lemma {:induction false} ReservationValid(screaming: Case, def: EnumDef, r: Retired)
    requires RetiredFits(screaming, def, r) && !Filled(def, r)
    ensures var line := ReservedLine(screaming, def, r);
            && |line| == 1
            && (ValidReservation(LiveLines(screaming, def), line[0]) <==>
                  (r.number.Some? ==> r.number.value !in Numbers(def.values)))
  {
    LiveNumbers(screaming, def);
    var live := Numbers(LiveLines(screaming, def));
    if r.number.Some? {
      var n := r.number.value;
      assert n in live <==> n in multiset(live);
      assert n in Numbers(def.values) <==> n in multiset(Numbers(def.values));
    }
  }

  lemma {:induction false} ReservedDistinct(screaming: Case, def: EnumDef, retired: seq<Retired>)
    requires forall k :: 0 <= k < |retired| && !Filled(def, retired[k]) ==>
             |ReservedLine(screaming, def, retired[k])| == 1
    ensures Distinct(ReservedLines(screaming, def, retired)) <==>
            forall i, j :: 0 <= i < j < |retired| && !Filled(def, retired[i]) && !Filled(def, retired[j]) ==>
              ReservedLine(screaming, def, retired[i]) != ReservedLine(screaming, def, retired[j])
  {
    if retired != [] {
      var n := |retired| - 1;
      var front, last := retired[..n], retired[n];
      var lines, line := ReservedLines(screaming, def, front), ReservedLine(screaming, def, last);
      ReservedDistinct(screaming, def, front);
      if Filled(def, last) {
        assert lines + line == lines;
      } else {
        ReservedMembers(screaming, def, front, line[0]);
        DistinctSnoc(lines, line[0]);
        assert line == [line[0]];
        if line[0] in lines {
          var k :| 0 <= k < n && line[0] in ReservedLine(screaming, def, front[k]);
          assert front[k] == retired[k];
        }
        forall k | 0 <= k < n && !Filled(def, retired[k]) && ReservedLine(screaming, def, retired[k]) == line
          ensures line[0] in lines
        {
          assert front[k] == retired[k];
        }
      }
    }
  }

  // An enum that is emitted obeys proto3's rules exactly when its declared
  // numbers are distinct, none is retired, and its tombstones differ once
  // projected.
  lemma {:induction false} EmittedEnumIsValidIff(screaming: Case, def: EnumDef)
    requires Fits(screaming, def) && Distinct(Claims(screaming, def))
    ensures ValidBody(Body(LiveLines(screaming, def), ReservedLines(screaming, def, def.retired))) <==>
            DistinctNumbers(def) && RetiredApart(def) && TombstonesDiffer(screaming, def)
  {
    ZeroFirst(screaming, def);
    LiveInRange(screaming, def);
    LiveDistinct(screaming, def);
    LiveNumbers(screaming, def);
    DistinctCons(def.name, LiveNames(screaming, def));
    forall k | 0 <= k < |def.retired| && !Filled(def, def.retired[k])
      ensures |ReservedLine(screaming, def, def.retired[k])| == 1
    {
      ReservationValid(screaming, def, def.retired[k]);
    }
    ReservedDistinct(screaming, def, def.retired);
    ReservationsValid(screaming, def);
  }

  // Retiring one number twice is written twice, which proto3 refuses.
  lemma {:induction false} EqualTombstonesAreRefused(screaming: Case)
    ensures var def := EnumDef("E", [Value("a", 0)], [Retired(Some(3), None), Retired(Some(3), None)]);
            && Fits(screaming, def) && Distinct(Claims(screaming, def))
            && !ValidBody(Body(LiveLines(screaming, def), ReservedLines(screaming, def, def.retired)))
  {
    var def := EnumDef("E", [Value("a", 0)], [Retired(Some(3), None), Retired(Some(3), None)]);
    assert def.values[0].number == 0;
    var member := Projected(screaming, def, "a");
    assert Zeros(def.values) == [def.values[0]] + Zeros(def.values[1..]) && Zeros([]) == [] && def.values[1..] == [];
    assert Others(def.values) == Others(def.values[1..]) == [];
    assert Claims(screaming, def) == ["E", member];
    assert member[|screaming("E")|] == '_';
    assert member != "E" by { assert |member| == 1 ==> member == "_"; }
    EmittedEnumIsValidIff(screaming, def);
    assert !TombstonesDiffer(screaming, def) by {
      assert ReservedLine(screaming, def, def.retired[0]) == ReservedLine(screaming, def, def.retired[1]);
    }
  }

  lemma {:induction false} ReservationsValid(screaming: Case, def: EnumDef)
    requires Fits(screaming, def)
    ensures AllReservationsValid(Body(LiveLines(screaming, def), ReservedLines(screaming, def, def.retired))) <==>
            RetiredApart(def)
  {
    var body := Body(LiveLines(screaming, def), ReservedLines(screaming, def, def.retired));
    if RetiredApart(def) {
      forall r | r in body.reserved ensures ValidReservation(body.live, r) {
        ReservedMembers(screaming, def, def.retired, r);
        var i :| 0 <= i < |def.retired| && r in ReservedLine(screaming, def, def.retired[i]);
        ReservationValid(screaming, def, def.retired[i]);
      }
    }
    if AllReservationsValid(body) {
      forall j | 0 <= j < |def.retired| && def.retired[j].number.Some?
        ensures def.retired[j].number.value !in Numbers(def.values)
      {
        ZeroIsDeclared(def.values);
        if !Filled(def, def.retired[j]) {
          ReservationValid(screaming, def, def.retired[j]);
          var line := ReservedLine(screaming, def, def.retired[j])[0];
          ReservedMembers(screaming, def, def.retired, line);
          assert line in ReservedLine(screaming, def, def.retired[j]);
        }
      }
    }
  }

  lemma {:induction false} ZeroFirst(screaming: Case, def: EnumDef)
    ensures LiveLines(screaming, def) != [] && LiveLines(screaming, def)[0].number == 0
  {
    ZeroLeads(def.values);
  }

  lemma {:induction false} LiveInRange(screaming: Case, def: EnumDef)
    requires InRange(def.values)
    ensures InRange(LiveLines(screaming, def))
  {
    OrderedInRange(def.values);
    ProjectionKeeps(screaming, def, Ordered(def.values));
    InRangeBoth(Made(screaming, def), ValueLines(screaming, def, Ordered(def.values)));
  }

  lemma {:induction false} InRangeBoth(a: seq<Value>, b: seq<Value>)
    requires InRange(a) && InRange(b)
    ensures InRange(a + b)
  {
  }

  // Each nonzero value is kept where it is declared among the others.
  lemma {:induction false} OthersKeepPlace(before: seq<Value>, v: Value, after: seq<Value>)
    requires v.number != 0
    ensures Others(before + [v] + after) == Others(before) + [v] + Others(after)
  {
    OthersAppend(before + [v], after);
    OthersAppend(before, [v]);
    assert [v][1..] == [];
  }

  lemma {:induction false} OthersAppend(a: seq<Value>, b: seq<Value>)
    ensures Others(a + b) == Others(a) + Others(b)
  {
    if a == [] {
      assert a + b == b;
    } else {
      OthersAppend(a[1..], b);
      assert (a + b)[0] == a[0] && (a + b)[1..] == a[1..] + b;
    }
  }

  // -------------------------------------------------------------------
  // A package's names.
  // -------------------------------------------------------------------

  // An enum, a message of its own, or a scalar or enum set that has none.
  datatype Decl = EnumDecl(def: EnumDef) | Message(name: string) | Inlined(name: string)

  // What a package has at its top: enums, whose values are in its scope as well,
  // and messages.
  datatype Item = EnumItem(name: string, body: Body) | MessageItem(name: string)

  function ItemNames(item: Item): seq<string> {
    match item
    case EnumItem(name, body) => [name] + Names(body.live)
    case MessageItem(name) => [name]
  }

  function ScopeOf(items: seq<Item>): seq<string> {
    if items == [] then [] else ScopeOf(items[..|items| - 1]) + ItemNames(items[|items| - 1])
  }

  lemma {:induction false} ScopeAppend(a: seq<Item>, b: seq<Item>)
    ensures ScopeOf(a + b) == ScopeOf(a) + ScopeOf(b)
  {
    if b == [] {
      assert a + b == a;
    } else {
      var front, last := b[..|b| - 1], b[|b| - 1];
      ScopeAppend(a, front);
      calc {
        ScopeOf(a + b);
        { assert (a + b)[..|a + b| - 1] == a + front && (a + b)[|a + b| - 1] == last; }
        ScopeOf(a + front) + ItemNames(last);
        ScopeOf(a) + ScopeOf(front) + ItemNames(last);
        ScopeOf(a) + (ScopeOf(front) + ItemNames(last));
        ScopeOf(a) + ScopeOf(b);
      }
    }
  }

  lemma {:induction false} ScopeOne(item: Item)
    ensures ScopeOf([item]) == ItemNames(item)
  {
    assert ScopeOf([item][..0]) == [];
    assert [] + ItemNames(item) == ItemNames(item);
  }

  // The item of a declaration, none for what is inlined.
  ghost predicate IsItemOf(screaming: Case, decl: Decl, item: Item) {
    match decl
    case EnumDecl(def) => item.EnumItem? && item.name == def.name && Says(screaming, def, item.body)
    case Message(name) => item == MessageItem(name)
    case Inlined(_) => false
  }

  // Every declaration has its item, and what has no message of its own a box;
  // every induced tuple has a message, every interface a table.
  ghost predicate PackageSays(
    screaming: Case, decls: seq<Decl>, tuples: seq<string>, tables: seq<Table>, items: seq<Item>)
  {
    && (forall decl :: decl in decls && !decl.Inlined? ==>
          exists item :: item in items && IsItemOf(screaming, decl, item))
    && (forall decl :: decl in decls && decl.EnumDecl? ==> MessageItem(decl.def.name + "Box") in items)
    && (forall decl :: decl in decls && decl.Inlined? ==> MessageItem(decl.name + "Box") in items)
    && (forall n :: n in tuples ==> MessageItem(n) in items)
    && (forall t :: t in tables ==> exists item :: item in items && IsTableOf(screaming, t, item))
  }

  ghost predicate IsTableOf(screaming: Case, t: Table, item: Item) {
    item.EnumItem? && item.name == t.name && TableSays(screaming, t, item.body)
  }

  function OwnItems(screaming: Case, decl: Decl): seq<Item> {
    match decl
    case EnumDecl(def) =>
      [EnumItem(def.name, Body(LiveLines(screaming, def), ReservedLines(screaming, def, def.retired)))]
    case Message(name) => [MessageItem(name)]
    case Inlined(_) => []
  }

  function AllOwnItems(screaming: Case, decls: seq<Decl>): seq<Item> {
    if decls == [] then []
    else AllOwnItems(screaming, decls[..|decls| - 1]) + OwnItems(screaming, decls[|decls| - 1])
  }

  function AllTableItems(screaming: Case, tables: seq<Table>): seq<Item> {
    if tables == [] then []
    else
      var t := tables[|tables| - 1];
      AllTableItems(screaming, tables[..|tables| - 1]) + [EnumItem(t.name, TableBody(screaming, t))]
  }

  function Messages(names: seq<string>): seq<Item> {
    if names == [] then [] else Messages(names[..|names| - 1]) + [MessageItem(names[|names| - 1])]
  }

  function PackageItems(screaming: Case, decls: seq<Decl>, tuples: seq<string>, tables: seq<Table>): seq<Item> {
    AllOwnItems(screaming, decls) + Messages(AllBoxes(decls)) + Messages(tuples) + AllTableItems(screaming, tables)
  }

  lemma {:induction false} OwnAreSaid(screaming: Case, decls: seq<Decl>)
    requires AllFit(screaming, decls)
    ensures forall decl :: decl in decls && !decl.Inlined? ==>
              exists item :: item in AllOwnItems(screaming, decls) && IsItemOf(screaming, decl, item)
    ensures ScopeOf(AllOwnItems(screaming, decls)) == AllOwn(screaming, decls)
  {
    if decls != [] {
      var front, last := decls[..|decls| - 1], decls[|decls| - 1];
      OwnAreSaid(screaming, front);
      OwnIsSaid(screaming, last);
      ScopeAppend(AllOwnItems(screaming, front), OwnItems(screaming, last));
      forall decl | decl in decls && !decl.Inlined?
        ensures exists item :: item in AllOwnItems(screaming, decls) && IsItemOf(screaming, decl, item)
      {
        if decl == last {
          assert OwnItems(screaming, last)[0] in AllOwnItems(screaming, decls);
        } else {
          assert decl in front;
          var item :| item in AllOwnItems(screaming, front) && IsItemOf(screaming, decl, item);
          assert item in AllOwnItems(screaming, decls);
        }
      }
    }
  }

  lemma {:induction false} OwnIsSaid(screaming: Case, decl: Decl)
    requires DeclFits(screaming, decl)
    ensures !decl.Inlined? ==>
              OwnItems(screaming, decl) != [] && IsItemOf(screaming, decl, OwnItems(screaming, decl)[0])
    ensures ScopeOf(OwnItems(screaming, decl)) == OwnNames(screaming, decl)
  {
    if !decl.Inlined? {
      ScopeOne(OwnItems(screaming, decl)[0]);
    }
    if decl.EnumDecl? {
      EmittedEnumSays(screaming, decl.def);
      LiveNumbers(screaming, decl.def);
    }
  }

  lemma {:induction false} TablesAreSaid(screaming: Case, tables: seq<Table>)
    ensures forall t :: t in tables ==>
              exists item :: item in AllTableItems(screaming, tables) && IsTableOf(screaming, t, item)
    ensures ScopeOf(AllTableItems(screaming, tables)) == AllTables(screaming, tables)
  {
    if tables != [] {
      var front, last := tables[..|tables| - 1], tables[|tables| - 1];
      var made := EnumItem(last.name, TableBody(screaming, last));
      TablesAreSaid(screaming, front);
      TableIsSaid(screaming, last);
      ScopeAppend(AllTableItems(screaming, front), [made]);
      ScopeOne(made);
      forall t | t in tables
        ensures exists item :: item in AllTableItems(screaming, tables) && IsTableOf(screaming, t, item)
      {
        if t == last {
          assert made in AllTableItems(screaming, tables) && IsTableOf(screaming, t, made);
        } else {
          assert t in front;
          var item :| item in AllTableItems(screaming, front) && IsTableOf(screaming, t, item);
          assert item in AllTableItems(screaming, tables);
        }
      }
    }
  }

  lemma {:induction false} MessagesAreSaid(names: seq<string>)
    ensures ScopeOf(Messages(names)) == names
    ensures forall n :: n in names ==> MessageItem(n) in Messages(names)
  {
    if names != [] {
      var front, last := names[..|names| - 1], names[|names| - 1];
      MessagesAreSaid(front);
      calc {
        ScopeOf(Messages(names));
        { ScopeAppend(Messages(front), [MessageItem(last)]); ScopeOne(MessageItem(last)); }
        front + [last];
        names;
      }
      forall n | n in names ensures MessageItem(n) in Messages(names) {
        assert n == last || n in front;
      }
    }
  }

  lemma {:induction false} BoxesAreNamed(decls: seq<Decl>)
    ensures forall decl :: decl in decls && decl.EnumDecl? ==> decl.def.name + "Box" in AllBoxes(decls)
    ensures forall decl :: decl in decls && decl.Inlined? ==> decl.name + "Box" in AllBoxes(decls)
  {
    if decls != [] {
      var front, last := decls[..|decls| - 1], decls[|decls| - 1];
      BoxesAreNamed(front);
      assert decls == front + [last];
    }
  }

  lemma {:induction false} PackageIsSaid(screaming: Case, decls: seq<Decl>, tuples: seq<string>, tables: seq<Table>)
    requires AllFit(screaming, decls)
    ensures PackageSays(screaming, decls, tuples, tables, PackageItems(screaming, decls, tuples, tables))
    ensures ScopeOf(PackageItems(screaming, decls, tuples, tables)) == PackageNames(screaming, decls, tuples, tables)
  {
    var own, boxes := AllOwnItems(screaming, decls), Messages(AllBoxes(decls));
    var induced, said := Messages(tuples), AllTableItems(screaming, tables);
    OwnAreSaid(screaming, decls);
    BoxesAreNamed(decls);
    MessagesAreSaid(AllBoxes(decls));
    MessagesAreSaid(tuples);
    TablesAreSaid(screaming, tables);
    ScopeAppend(own, boxes);
    ScopeAppend(own + boxes, induced);
    ScopeAppend(own + boxes + induced, said);
    var all := own + boxes + induced + said;
    assert forall item :: item in own || item in boxes || item in induced || item in said ==> item in all;
  }

  function OwnNames(screaming: Case, decl: Decl): seq<string> {
    match decl
    case EnumDecl(def) => Claims(screaming, def)
    case Message(name) => [name]
    case Inlined(_) => []
  }

  function BoxNames(decl: Decl): seq<string> {
    match decl
    case EnumDecl(def) => [def.name + "Box"]
    case Message(_) => []
    case Inlined(name) => [name + "Box"]
  }

  function AllOwn(screaming: Case, decls: seq<Decl>): seq<string> {
    if decls == [] then [] else AllOwn(screaming, decls[..|decls| - 1]) + OwnNames(screaming, decls[|decls| - 1])
  }

  function AllBoxes(decls: seq<Decl>): seq<string> {
    if decls == [] then [] else AllBoxes(decls[..|decls| - 1]) + BoxNames(decls[|decls| - 1])
  }

  // An interface's identity table: an enum of its interactions, each at its
  // ordinal, with a made-up zero.
  datatype Slot = Interaction(name: string, ordinal: nat) | RetiredSlot(ordinal: nat)

  datatype Table = Table(name: string, slots: seq<Slot>)

  function TableNames(screaming: Case, t: Table): seq<string> {
    [t.name, screaming(t.name) + "_UNSPECIFIED"] + SlotNames(screaming, t.name, t.slots)
  }

  function SlotNames(screaming: Case, table: string, slots: seq<Slot>): seq<string> {
    if slots == [] then []
    else
      SlotNames(screaming, table, slots[..|slots| - 1]) +
      match slots[|slots| - 1]
      case Interaction(name, _) => [screaming(table) + "_" + screaming(name)]
      case RetiredSlot(_) => []
  }

  // The lines of the members, and the ordinals that are retired.
  function SlotLines(screaming: Case, table: string, slots: seq<Slot>): seq<Value> {
    if slots == [] then []
    else
      SlotLines(screaming, table, slots[..|slots| - 1]) +
      match slots[|slots| - 1]
      case Interaction(name, ordinal) => [Value(screaming(table) + "_" + screaming(name), ordinal)]
      case RetiredSlot(_) => []
  }

  function SlotReserved(slots: seq<Slot>): seq<Reservation> {
    if slots == [] then []
    else
      SlotReserved(slots[..|slots| - 1]) +
      match slots[|slots| - 1]
      case Interaction(_, _) => []
      case RetiredSlot(ordinal) => [ReservedNumber(ordinal)]
  }

  function TableBody(screaming: Case, t: Table): Body {
    Body([Value(screaming(t.name) + "_UNSPECIFIED", 0)] + SlotLines(screaming, t.name, t.slots), SlotReserved(t.slots))
  }

  // A zero first, then a line for each live interaction, of its name and ordinal
  // and no other; the retired ordinals reserved, and no other.
  ghost predicate TableSays(screaming: Case, t: Table, body: Body) {
    && body.live != [] && body.live[0] == Value(screaming(t.name) + "_UNSPECIFIED", 0)
    && (forall line :: line in body.live[1..] <==>
          exists x :: x in t.slots && x.Interaction?
                      && line == Value(screaming(t.name) + "_" + screaming(x.name), x.ordinal))
    && (forall line :: line in body.reserved <==>
          exists x :: x in t.slots && x.RetiredSlot? && line == ReservedNumber(x.ordinal))
  }

  lemma {:induction false} SlotLinesAre(screaming: Case, table: string, slots: seq<Slot>, line: Value)
    ensures line in SlotLines(screaming, table, slots) <==>
            exists x :: x in slots && x.Interaction?
                        && line == Value(screaming(table) + "_" + screaming(x.name), x.ordinal)
    ensures Names(SlotLines(screaming, table, slots)) == SlotNames(screaming, table, slots)
  {
    if slots != [] {
      SlotLinesAre(screaming, table, slots[..|slots| - 1], line);
      assert slots == slots[..|slots| - 1] + [slots[|slots| - 1]];
    }
  }

  lemma {:induction false} SlotReservedAre(slots: seq<Slot>, line: Reservation)
    ensures line in SlotReserved(slots) <==>
            exists x :: x in slots && x.RetiredSlot? && line == ReservedNumber(x.ordinal)
  {
    if slots != [] {
      SlotReservedAre(slots[..|slots| - 1], line);
      assert slots == slots[..|slots| - 1] + [slots[|slots| - 1]];
    }
  }

  lemma {:induction false} TableIsSaid(screaming: Case, t: Table)
    ensures TableSays(screaming, t, TableBody(screaming, t))
    ensures ItemNames(EnumItem(t.name, TableBody(screaming, t))) == TableNames(screaming, t)
  {
    var body := TableBody(screaming, t);
    assert body.live[1..] == SlotLines(screaming, t.name, t.slots);
    forall line { SlotLinesAre(screaming, t.name, t.slots, line); }
    forall line { SlotReservedAre(t.slots, line); }
    assert Names(body.live) == [screaming(t.name) + "_UNSPECIFIED"] + Names(SlotLines(screaming, t.name, t.slots));
    assert [t.name] + Names(body.live) == TableNames(screaming, t) by {
      SlotLinesAre(screaming, t.name, t.slots, body.live[0]);
    }
  }

  // The field numbers proto can carry.
  predicate FieldNumber(n: nat) {
    !(19_000 <= n <= 19_999) && n <= 0x1FFF_FFFF
  }

  predicate SlotsFit(slots: seq<Slot>) {
    forall k :: 0 <= k < |slots| && slots[k].Interaction? ==>
      slots[k].ordinal < 19_000 || 20_000 <= slots[k].ordinal <= 536_870_911
  }

  function AllTables(screaming: Case, tables: seq<Table>): seq<string> {
    if tables == [] then []
    else AllTables(screaming, tables[..|tables| - 1]) + TableNames(screaming, tables[|tables| - 1])
  }

  predicate TablesFit(tables: seq<Table>) {
    forall k :: 0 <= k < |tables| ==> SlotsFit(tables[k].slots)
  }

  // Everything one package declares in its scope: the enums with their values,
  // the messages, the boxes, the messages its tuples induce, the identity
  // tables with their members.
  function PackageNames(screaming: Case, decls: seq<Decl>, tuples: seq<string>, tables: seq<Table>): seq<string> {
    AllOwn(screaming, decls) + AllBoxes(decls) + tuples + AllTables(screaming, tables)
  }

  predicate DeclFits(screaming: Case, decl: Decl) {
    decl.EnumDecl? ==> Fits(screaming, decl.def)
  }

  predicate AllFit(screaming: Case, decls: seq<Decl>) {
    decls == [] || (AllFit(screaming, decls[..|decls| - 1]) && DeclFits(screaming, decls[|decls| - 1]))
  }

  lemma {:induction false} FitPrefix(screaming: Case, decls: seq<Decl>, k: nat)
    requires k <= |decls|
    ensures AllFit(screaming, decls) ==> AllFit(screaming, decls[..k])
    decreases |decls| - k
  {
    if k < |decls| {
      FitPrefix(screaming, decls, k + 1);
      assert decls[..k + 1][..k] == decls[..k];
    } else {
      assert decls[..k] == decls;
    }
  }

  lemma {:induction false} OwnPrefix(screaming: Case, decls: seq<Decl>, k: nat) returns (rest: seq<string>)
    requires k <= |decls|
    ensures AllOwn(screaming, decls) == AllOwn(screaming, decls[..k]) + rest
    decreases |decls| - k
  {
    if k < |decls| {
      rest := OwnPrefix(screaming, decls, k + 1);
      assert decls[..k + 1][..k] == decls[..k];
      rest := OwnNames(screaming, decls[k]) + rest;
    } else {
      assert decls[..k] == decls;
      rest := [];
    }
  }

  lemma {:induction false} BoxPrefix(decls: seq<Decl>, k: nat) returns (rest: seq<string>)
    requires k <= |decls|
    ensures AllBoxes(decls) == AllBoxes(decls[..k]) + rest
    decreases |decls| - k
  {
    if k < |decls| {
      rest := BoxPrefix(decls, k + 1);
      assert decls[..k + 1][..k] == decls[..k];
      rest := BoxNames(decls[k]) + rest;
    } else {
      assert decls[..k] == decls;
      rest := [];
    }
  }

  method ClaimEach(scope: SymbolScope, names: seq<string>) returns (ok: bool)
    modifies scope
    ensures ok <==> Free(old(scope.claimed), names)
    ensures ok ==> Entered(old(scope.claimed), scope.claimed, names)
  {
    for k := 0 to |names|
      invariant Entered(old(scope.claimed), scope.claimed, names[..k])
    {
      EnterAt(old(scope.claimed), scope.claimed, names, k);
      ok := scope.Claim(names[k]);
      if !ok {
        return;
      }
    }
    assert names[..|names|] == names;
    ok := true;
  }

  method EmitOne(scope: SymbolScope, screaming: Case, decl: Decl) returns (ok: bool, items: seq<Item>)
    modifies scope
    ensures ok <==> DeclFits(screaming, decl) && Free(old(scope.claimed), OwnNames(screaming, decl))
    ensures ok ==> Entered(old(scope.claimed), scope.claimed, OwnNames(screaming, decl))
    ensures ok ==> items == OwnItems(screaming, decl)
  {
    items := [];
    match decl
    case EnumDecl(def) =>
      var body := scope.EmitEnum(screaming, def);
      ok := body.Some?;
      if ok {
        items := [EnumItem(def.name, body.value)];
      }
    case Message(name) =>
      ok := ClaimEach(scope, [name]);
      items := [MessageItem(name)];
    case Inlined(_) => ok := true;
  }

  method EmitOwn(scope: SymbolScope, screaming: Case, decls: seq<Decl>) returns (ok: bool, items: seq<Item>)
    modifies scope
    ensures ok <==> AllFit(screaming, decls) && Free(old(scope.claimed), AllOwn(screaming, decls))
    ensures ok ==> Entered(old(scope.claimed), scope.claimed, AllOwn(screaming, decls))
    ensures ok ==> items == AllOwnItems(screaming, decls)
  {
    items := [];
    for k := 0 to |decls|
      invariant AllFit(screaming, decls[..k])
      invariant Entered(old(scope.claimed), scope.claimed, AllOwn(screaming, decls[..k]))
      invariant items == AllOwnItems(screaming, decls[..k])
    {
      ghost var mid, own := scope.claimed, OwnNames(screaming, decls[k]);
      assert decls[..k + 1][..k] == decls[..k];
      var more;
      ok, more := EmitOne(scope, screaming, decls[k]);
      if !ok {
        ghost var rest := OwnPrefix(screaming, decls, k + 1);
        FitPrefix(screaming, decls, k + 1);
        NotFree(old(scope.claimed), mid, AllOwn(screaming, decls[..k]), own, rest);
        return;
      }
      EnterMany(old(scope.claimed), mid, scope.claimed, AllOwn(screaming, decls[..k]), own);
      items := items + more;
    }
    assert decls[..|decls|] == decls;
    ok := true;
  }

  // Messages and enums first, then the boxes, the induced messages, and the
  // identity tables.
  method EmitPackage(screaming: Case, decls: seq<Decl>, tuples: seq<string>, tables: seq<Table>)
    returns (ok: bool, items: seq<Item>)
    ensures ok <==>
              && AllFit(screaming, decls) && TablesFit(tables)
              && Distinct(PackageNames(screaming, decls, tuples, tables))
    ensures ok ==> PackageSays(screaming, decls, tuples, tables, items)
    ensures ok ==> ScopeOf(items) == PackageNames(screaming, decls, tuples, tables)
  {
    var scope := new SymbolScope();
    ghost var messages, last := AllOwn(screaming, decls) + AllBoxes(decls) + tuples, AllTables(screaming, tables);
    assert PackageNames(screaming, decls, tuples, tables) == messages + last;
    if Free({}, messages + last) { FreePrefix({}, messages, last); }
    ok, items := EmitMessages(scope, screaming, decls, tuples);
    if !ok {
      return;
    }
    ghost var mid := scope.claimed;
    NotFree({}, mid, messages, last, []);
    assert messages + last + [] == messages + last;
    var more;
    ok, more := EmitTables(scope, screaming, tables);
    EnterMany({}, mid, scope.claimed, messages, last);
    if ok {
      PackageIsSaid(screaming, decls, tuples, tables);
      items := items + more;
    }
  }

  lemma {:induction false} TablesPrefix(screaming: Case, tables: seq<Table>, k: nat) returns (rest: seq<string>)
    requires k <= |tables|
    ensures AllTables(screaming, tables) == AllTables(screaming, tables[..k]) + rest
    decreases |tables| - k
  {
    if k < |tables| {
      rest := TablesPrefix(screaming, tables, k + 1);
      assert tables[..k + 1][..k] == tables[..k];
      rest := TableNames(screaming, tables[k]) + rest;
    } else {
      assert tables[..k] == tables;
      rest := [];
    }
  }

  method EmitTables(scope: SymbolScope, screaming: Case, tables: seq<Table>) returns (ok: bool, items: seq<Item>)
    modifies scope
    ensures ok <==> TablesFit(tables) && Free(old(scope.claimed), AllTables(screaming, tables))
    ensures ok ==> Entered(old(scope.claimed), scope.claimed, AllTables(screaming, tables))
    ensures ok ==> items == AllTableItems(screaming, tables)
  {
    items := [];
    for k := 0 to |tables|
      invariant forall i :: 0 <= i < k ==> SlotsFit(tables[i].slots)
      invariant Entered(old(scope.claimed), scope.claimed, AllTables(screaming, tables[..k]))
      invariant items == AllTableItems(screaming, tables[..k])
    {
      ghost var mid := scope.claimed;
      assert tables[..k + 1][..k] == tables[..k];
      var body;
      ok, body := EmitTable(scope, screaming, tables[k]);
      if !ok {
        ghost var rest := TablesPrefix(screaming, tables, k + 1);
        NotFree(old(scope.claimed), mid, AllTables(screaming, tables[..k]), TableNames(screaming, tables[k]), rest);
        return;
      }
      EnterMany(old(scope.claimed), mid, scope.claimed,
                AllTables(screaming, tables[..k]), TableNames(screaming, tables[k]));
      items := items + [EnumItem(tables[k].name, body)];
    }
    assert tables[..|tables|] == tables;
    ok := true;
  }

  // The table's own name, its made-up zero, then its members.
  method EmitTable(scope: SymbolScope, screaming: Case, t: Table) returns (ok: bool, body: Body)
    modifies scope
    ensures ok <==> SlotsFit(t.slots) && Free(old(scope.claimed), TableNames(screaming, t))
    ensures ok ==> Entered(old(scope.claimed), scope.claimed, TableNames(screaming, t))
    ensures ok ==> body == TableBody(screaming, t)
  {
    ghost var before, lead := scope.claimed, [t.name, screaming(t.name) + "_UNSPECIFIED"];
    if Free(before, TableNames(screaming, t)) { FreePrefix(before, lead, SlotNames(screaming, t.name, t.slots)); }
    body := Body([Value(screaming(t.name) + "_UNSPECIFIED", 0)], []);
    ok := ClaimEach(scope, [t.name, screaming(t.name) + "_UNSPECIFIED"]);
    if !ok {
      return;
    }
    ghost var mid := scope.claimed;
    NotFree(before, mid, lead, SlotNames(screaming, t.name, t.slots), []);
    assert lead + SlotNames(screaming, t.name, t.slots) + [] == TableNames(screaming, t);
    var members;
    ok, members := EmitSlots(scope, screaming, t);
    EnterMany(before, mid, scope.claimed, lead, SlotNames(screaming, t.name, t.slots));
    body := Body(body.live + members.live, members.reserved);
  }

  method EmitSlots(scope: SymbolScope, screaming: Case, t: Table) returns (ok: bool, body: Body)
    modifies scope
    ensures ok <==> SlotsFit(t.slots) && Free(old(scope.claimed), SlotNames(screaming, t.name, t.slots))
    ensures ok ==> Entered(old(scope.claimed), scope.claimed, SlotNames(screaming, t.name, t.slots))
    ensures ok ==> body == Body(SlotLines(screaming, t.name, t.slots), SlotReserved(t.slots))
  {
    body := Body([], []);
    for k := 0 to |t.slots|
      invariant SlotsFit(t.slots[..k])
      invariant Entered(old(scope.claimed), scope.claimed, SlotNames(screaming, t.name, t.slots[..k]))
      invariant body == Body(SlotLines(screaming, t.name, t.slots[..k]), SlotReserved(t.slots[..k]))
    {
      assert t.slots[..k + 1][..k] == t.slots[..k];
      match t.slots[k] {
        case RetiredSlot(ordinal) =>
          assert SlotNames(screaming, t.name, t.slots[..k]) + [] == SlotNames(screaming, t.name, t.slots[..k]);
          assert body.live + [] == body.live;
          assert SlotLines(screaming, t.name, t.slots[..k + 1]) == body.live;
          body := Body(body.live, body.reserved + [ReservedNumber(ordinal)]);
        case Interaction(name, ordinal) =>
          if !FieldNumber(ordinal) {
            return false, body;
          }
          ghost var rest := SlotsPrefix(screaming, t.name, t.slots, k + 1);
          EnterOne(old(scope.claimed), scope.claimed, SlotNames(screaming, t.name, t.slots[..k]),
                   screaming(t.name) + "_" + screaming(name), rest);
          ok := scope.Claim(screaming(t.name) + "_" + screaming(name));
          if !ok {
            return;
          }
          assert SlotReserved(t.slots[..k + 1]) == body.reserved;
          body := Body(body.live + [Value(screaming(t.name) + "_" + screaming(name), ordinal)], body.reserved);
      }
    }
    assert t.slots[..|t.slots|] == t.slots;
    ok := true;
  }

  lemma {:induction false} SlotsPrefix(screaming: Case, table: string, slots: seq<Slot>, k: nat)
    returns (rest: seq<string>)
    requires k <= |slots|
    ensures SlotNames(screaming, table, slots) == SlotNames(screaming, table, slots[..k]) + rest
    decreases |slots| - k
  {
    if k < |slots| {
      rest := SlotsPrefix(screaming, table, slots, k + 1);
      assert slots[..k + 1][..k] == slots[..k];
      rest := (if slots[k].Interaction? then [screaming(table) + "_" + screaming(slots[k].name)] else []) + rest;
    } else {
      assert slots[..k] == slots;
      rest := [];
    }
  }

  method EmitMessages(scope: SymbolScope, screaming: Case, decls: seq<Decl>, tuples: seq<string>)
    returns (ok: bool, items: seq<Item>)
    requires scope.claimed == {}
    modifies scope
    ensures ok <==> AllFit(screaming, decls) && Distinct(AllOwn(screaming, decls) + AllBoxes(decls) + tuples)
    ensures ok ==> Entered({}, scope.claimed, AllOwn(screaming, decls) + AllBoxes(decls) + tuples)
    ensures ok ==> items == AllOwnItems(screaming, decls) + Messages(AllBoxes(decls)) + Messages(tuples)
  {
    ghost var own, boxes := AllOwn(screaming, decls), AllBoxes(decls);
    if Free({}, own + boxes + tuples) {
      FreePrefix({}, own + boxes, tuples);
      FreePrefix({}, own, boxes);
    }
    ok, items := EmitOwn(scope, screaming, decls);
    if !ok {
      return;
    }
    ghost var mid := scope.claimed;
    NotFree({}, mid, own, boxes, tuples);
    var boxed;
    ok, boxed := EmitBoxes(scope, decls);
    if !ok {
      return;
    }
    EnterMany({}, mid, scope.claimed, own, boxes);
    ghost var late := scope.claimed;
    NotFree({}, late, own + boxes, tuples, []);
    assert own + boxes + tuples + [] == own + boxes + tuples;
    ok := ClaimEach(scope, tuples);
    EnterMany({}, late, scope.claimed, own + boxes, tuples);
    var induced := WriteMessages(tuples);
    items := items + boxed + induced;
  }

  method WriteMessages(names: seq<string>) returns (items: seq<Item>)
    ensures items == Messages(names)
  {
    items := [];
    for k := 0 to |names|
      invariant items == Messages(names[..k])
    {
      assert names[..k + 1][..k] == names[..k];
      items := items + [MessageItem(names[k])];
    }
    assert names[..|names|] == names;
  }

  method EmitBoxes(scope: SymbolScope, decls: seq<Decl>) returns (ok: bool, items: seq<Item>)
    modifies scope
    ensures ok <==> Free(old(scope.claimed), AllBoxes(decls))
    ensures ok ==> Entered(old(scope.claimed), scope.claimed, AllBoxes(decls))
    ensures ok ==> items == Messages(AllBoxes(decls))
  {
    items := [];
    for k := 0 to |decls|
      invariant Entered(old(scope.claimed), scope.claimed, AllBoxes(decls[..k]))
      invariant items == Messages(AllBoxes(decls[..k]))
    {
      ghost var mid := scope.claimed;
      assert decls[..k + 1][..k] == decls[..k];
      if decls[k].Message? {
        assert AllBoxes(decls[..k + 1]) == AllBoxes(decls[..k]) + [] == AllBoxes(decls[..k]);
        continue;
      }
      var name := (if decls[k].EnumDecl? then decls[k].def.name else decls[k].name) + "Box";
      ok := ClaimEach(scope, [name]);
      if !ok {
        ghost var rest := BoxPrefix(decls, k + 1);
        NotFree(old(scope.claimed), mid, AllBoxes(decls[..k]), BoxNames(decls[k]), rest);
        return;
      }
      EnterMany(old(scope.claimed), mid, scope.claimed, AllBoxes(decls[..k]), BoxNames(decls[k]));
      assert (AllBoxes(decls[..k]) + [name])[..|AllBoxes(decls[..k])|] == AllBoxes(decls[..k]);
      items := items + [MessageItem(name)];
    }
    assert decls[..|decls|] == decls;
    ok := true;
  }
}
