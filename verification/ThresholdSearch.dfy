// The search for a check's threshold: a finite set of candidates stands for
// every threshold at or above the start of the search.
module ThresholdSearch {
  import opened Common

  datatype Check = InconsistentUnit | InconsistentAbbreviation | DuplicateShape | LowCohesion | PackageFanOut

  datatype Metric = StructM(count: nat) | EnumM(count: nat) | CohesionM(groups: nat, minSize: nat) | FanOutM(count: nat)

  datatype Threshold =
    | Always
    | Shape(fields: nat, variants: nat)
    | Cohesion(groups: nat, size: nat)
    | FanOut(limit: nat)

  datatype Finding = Finding(metric: Option<Metric>, accepted: bool)

  datatype Level = Dropped | Info | Warning

  datatype Candidate = Candidate(threshold: Threshold, findings: nat, accepted: nat, level: Level)

  function Rank(l: Level): nat {
    match l
    case Dropped => 0
    case Info => 1
    case Warning => 2
  }

  predicate Retained(t: Threshold, f: Finding) {
    match (t, f.metric)
    case (Always, None) => true
    case (Shape(fields, _), Some(StructM(count))) => count >= fields
    case (Shape(_, variants), Some(EnumM(count))) => count >= variants
    case (Cohesion(g, s), Some(CohesionM(groups, minSize))) => groups >= g && minSize >= s
    case (FanOut(limit), Some(FanOutM(count))) => count > limit
    case _ => false
  }

  // The metric validation demands of a finding: the kind the check measures,
  // at or above the start of the search.
  predicate Validated(check: Check, f: Finding) {
    match check
    case InconsistentUnit | InconsistentAbbreviation => f.metric.None?
    case DuplicateShape =>
      f.metric.Some? && (f.metric.value.StructM? || f.metric.value.EnumM?) && f.metric.value.count >= 2
    case LowCohesion =>
      f.metric.Some? && f.metric.value.CohesionM? && f.metric.value.groups >= 2 && f.metric.value.minSize >= 1
    case PackageFanOut => f.metric.Some? && f.metric.value.FanOutM? && f.metric.value.count > 3
  }

  // The thresholds at or above the start of the search.
  predicate InScope(check: Check, t: Threshold) {
    match check
    case InconsistentUnit | InconsistentAbbreviation => t.Always?
    case DuplicateShape => t.Shape? && t.fields >= 2 && t.variants >= 2
    case LowCohesion => t.Cohesion? && t.groups >= 2 && t.size >= 1
    case PackageFanOut => t.FanOut? && t.limit >= 3
  }

  // -------------------------------------------------------------------
  // The row of one threshold.
  // -------------------------------------------------------------------

  function RetainedCount(t: Threshold, findings: seq<Finding>): nat {
    if findings == [] then 0
    else
      RetainedCount(t, findings[..|findings| - 1]) + if Retained(t, findings[|findings| - 1]) then 1 else 0
  }

  function AcceptedCount(t: Threshold, findings: seq<Finding>): nat {
    if findings == [] then 0
    else
      var last := findings[|findings| - 1];
      AcceptedCount(t, findings[..|findings| - 1]) + if Retained(t, last) && last.accepted then 1 else 0
  }

  function LevelOf(findings: nat, accepted: nat): Level {
    if findings == 0 || accepted * 100 < findings * 50 then Dropped
    else if findings >= 10 && accepted * 100 >= findings * 80 then Warning
    else Info
  }

  function Row(t: Threshold, findings: seq<Finding>): Candidate {
    var n, a := RetainedCount(t, findings), AcceptedCount(t, findings);
    Candidate(t, n, a, LevelOf(n, a))
  }

  // Thresholds that retain the same findings have the same row but for their
  // own value.
  lemma {:induction false} SameRetainedSameRow(s: Threshold, t: Threshold, findings: seq<Finding>)
    requires forall k :: 0 <= k < |findings| ==> Retained(s, findings[k]) == Retained(t, findings[k])
    ensures Row(s, findings) == Row(t, findings).(threshold := s)
  {
    if findings != [] {
      SameRetainedSameRow(s, t, findings[..|findings| - 1]);
    }
  }

  // -------------------------------------------------------------------
  // What a row has to say, without the functions that compute it.
  // -------------------------------------------------------------------

  // The lint at a threshold still reports what the metric measured: each
  // coordinate is reached, and a fan-out's limit is passed.
  predicate Reports(t: Threshold, metric: Option<Metric>) {
    match metric
    case None => t.Always?
    case Some(StructM(count)) => t.Shape? && t.fields <= count
    case Some(EnumM(count)) => t.Shape? && t.variants <= count
    case Some(CohesionM(groups, minSize)) => t.Cohesion? && t.groups <= groups && t.size <= minSize
    case Some(FanOutM(count)) => t.FanOut? && t.limit < count
  }

  ghost function Reported(t: Threshold, findings: seq<Finding>): set<nat> {
    set k: nat | k < |findings| && Reports(t, findings[k].metric)
  }

  ghost function ReportedAccepted(t: Threshold, findings: seq<Finding>): set<nat> {
    set k: nat | k < |findings| && Reports(t, findings[k].metric) && findings[k].accepted
  }

  // Nothing is reported, or less than half of it is accepted.
  ghost predicate Drops(t: Threshold, findings: seq<Finding>) {
    |Reported(t, findings)| == 0 || |ReportedAccepted(t, findings)| * 100 < |Reported(t, findings)| * 50
  }

  // Ten findings or more, four in five of them accepted.
  ghost predicate Warns(t: Threshold, findings: seq<Finding>) {
    |Reported(t, findings)| >= 10 && |ReportedAccepted(t, findings)| * 100 >= |Reported(t, findings)| * 80
  }

  function Coordinates(t: Threshold): seq<nat> {
    match t
    case Always => []
    case Shape(fields, variants) => [fields, variants]
    case Cohesion(groups, size) => [groups, size]
    case FanOut(limit) => [limit]
  }

  // The first coordinate that differs decides.
  predicate NoLater(a: seq<nat>, b: seq<nat>) {
    a == [] || (b != [] && (a[0] < b[0] || (a[0] == b[0] && NoLater(a[1..], b[1..]))))
  }

  lemma {:induction false} RetainedIsReported(t: Threshold, f: Finding)
    ensures Retained(t, f) <==> Reports(t, f.metric)
  {
  }

  lemma {:induction false} OneMoreReported(t: Threshold, front: seq<Finding>, last: Finding)
    ensures var now := if Retained(t, last) then {|front|} else {};
            && Reported(t, front + [last]) == Reported(t, front) + now
            && ReportedAccepted(t, front + [last]) == ReportedAccepted(t, front) + if last.accepted then now else {}
  {
    var all := front + [last];
    assert all[|front|] == last && forall k :: 0 <= k < |front| ==> all[k] == front[k];
    RetainedIsReported(t, last);
  }

  // A row holds the number of findings the threshold reports, the number of
  // those accepted, and the level the two give.
  lemma {:induction false} RowCounts(t: Threshold, findings: seq<Finding>)
    ensures Row(t, findings).findings == |Reported(t, findings)|
    ensures Row(t, findings).accepted == |ReportedAccepted(t, findings)|
    ensures Row(t, findings).level.Dropped? <==> Drops(t, findings)
    ensures Row(t, findings).level.Warning? <==> Warns(t, findings)
  {
    Counts(t, findings);
  }

  lemma {:induction false} Counts(t: Threshold, findings: seq<Finding>)
    ensures RetainedCount(t, findings) == |Reported(t, findings)|
    ensures AcceptedCount(t, findings) == |ReportedAccepted(t, findings)|
  {
    if findings != [] {
      var front, last := findings[..|findings| - 1], findings[|findings| - 1];
      assert findings == front + [last];
      Counts(t, front);
      OneMoreReported(t, front, last);
    }
  }

  // Within one check, thresholds are declared in the order of their coordinates.
  lemma {:induction false} AtMostIsNoLater(check: Check, s: Threshold, t: Threshold)
    requires InScope(check, s) && InScope(check, t)
    ensures AtMost(s, t) <==> NoLater(Coordinates(s), Coordinates(t))
  {
    var a, b := Coordinates(s), Coordinates(t);
    if a != [] {
      assert NoLater(a[1..], b[1..]) <==> |a| == 1 || a[1] <= b[1] by {
        if |a| == 2 { assert a[1..][1..] == [] && a[1..][0] == a[1] && b[1..][0] == b[1]; }
      }
    }
  }

  // -------------------------------------------------------------------
  // Ordered sets of coordinates.
  // -------------------------------------------------------------------

  ghost predicate Ascending(s: seq<nat>) {
    forall i, j :: 0 <= i < j < |s| ==> s[i] < s[j]
  }

  function InsertInto(s: seq<nat>, x: nat): (r: seq<nat>)
    requires Ascending(s)
    ensures Ascending(r) && forall y :: y in r <==> y == x || y in s
  {
    if s == [] || x < s[0] then [x] + s
    else if x == s[0] then s
    else
      var rest := InsertInto(s[1..], x);
      assert forall y :: y in s <==> y == s[0] || y in s[1..];
      assert forall j :: 0 <= j < |rest| ==> rest[j] in rest;
      [s[0]] + rest
  }

  // The greatest coordinate at most `x`.
  lemma {:induction false} Floor(s: seq<nat>, x: nat) returns (y: nat)
    requires exists z :: z in s && z <= x
    ensures y in s && y <= x && forall z :: z in s && z <= x ==> z <= y
  {
    var first :| first in s && first <= x;
    y := first;
    if z :| z in s && y < z <= x {
      y := FloorFrom(s, x, z);
    }
  }

  lemma {:induction false} FloorFrom(s: seq<nat>, x: nat, start: nat) returns (y: nat)
    requires start in s && start <= x
    ensures y in s && start <= y <= x && forall z :: z in s && z <= x ==> z <= y
    decreases x - start
  {
    y := start;
    if z :| z in s && start < z <= x {
      y := FloorFrom(s, x, z);
    }
  }

  // -------------------------------------------------------------------
  // The candidates.
  // -------------------------------------------------------------------

  // The coordinates the findings give each axis, with the start of the search.
  ghost predicate AxisOf(axis: seq<nat>, start: nat, boundary: Finding -> Option<nat>, findings: seq<Finding>) {
    && Ascending(axis)
    && (forall x :: x in axis <==> x == start || Observed(boundary, findings, x))
  }

  ghost predicate Observed(boundary: Finding -> Option<nat>, findings: seq<Finding>, x: nat) {
    exists f :: f in findings && boundary(f) == Some(x)
  }

  // The first value past an observed coordinate, on the axis it belongs to.
  const FIELDS: Finding -> Option<nat> := (f: Finding) =>
    if f.metric.Some? && f.metric.value.StructM? then Some(f.metric.value.count + 1) else None
  const VARIANTS: Finding -> Option<nat> := (f: Finding) =>
    if f.metric.Some? && f.metric.value.EnumM? then Some(f.metric.value.count + 1) else None
  const GROUPS: Finding -> Option<nat> := (f: Finding) =>
    if f.metric.Some? && f.metric.value.CohesionM? then Some(f.metric.value.groups + 1) else None
  const SIZES: Finding -> Option<nat> := (f: Finding) =>
    if f.metric.Some? && f.metric.value.CohesionM? then Some(f.metric.value.minSize + 1) else None
  const LIMITS: Finding -> Option<nat> := (f: Finding) =>
    if f.metric.Some? && f.metric.value.FanOutM? then Some(f.metric.value.count) else None

  method Axis(start: nat, boundary: Finding -> Option<nat>, findings: seq<Finding>) returns (axis: seq<nat>)
    ensures AxisOf(axis, start, boundary, findings)
  {
    axis := [start];
    for k := 0 to |findings|
      invariant AxisOf(axis, start, boundary, findings[..k])
    {
      assert findings[..k + 1] == findings[..k] + [findings[k]];
      if boundary(findings[k]).Some? {
        axis := InsertInto(axis, boundary(findings[k]).value);
      }
      assert forall f :: f in findings[..k + 1] <==> f == findings[k] || f in findings[..k];
    }
    assert findings[..|findings|] == findings;
  }

  // Every pair of coordinates, as thresholds.
  ghost predicate IsGrid(grid: seq<Threshold>, first: seq<nat>, second: seq<nat>, make: (nat, nat) -> Threshold) {
    forall t :: t in grid <==> exists x, y :: x in first && y in second && t == make(x, y)
  }

  method Grid(first: seq<nat>, second: seq<nat>, make: (nat, nat) -> Threshold) returns (grid: seq<Threshold>)
    ensures IsGrid(grid, first, second, make)
  {
    grid := [];
    for i := 0 to |first|
      invariant forall t :: t in grid <==> exists x, y :: x in first[..i] && y in second && t == make(x, y)
    {
      ghost var above := grid;
      for j := 0 to |second|
        invariant forall t :: t in grid <==> t in above || exists y :: y in second[..j] && t == make(first[i], y)
      {
        assert second[..j + 1] == second[..j] + [second[j]];
        grid := grid + [make(first[i], second[j])];
      }
      assert second[..|second|] == second;
      assert first[..i + 1] == first[..i] + [first[i]];
      forall t ensures t in grid <==> exists x, y :: x in first[..i + 1] && y in second && t == make(x, y) {
        if y :| y in second && t == make(first[i], y) {
          assert first[i] in first[..i + 1];
        }
        if x, y :| x in first[..i] && y in second && t == make(x, y) {
          assert x in first[..i + 1];
        }
      }
    }
    assert first[..|first|] == first;
  }

  const SHAPE: (nat, nat) -> Threshold := (f: nat, v: nat) => Shape(f, v)
  const COHESION: (nat, nat) -> Threshold := (g: nat, s: nat) => Cohesion(g, s)

  // What the thresholds of a check are made of.
  ghost predicate Boundaries(check: Check, findings: seq<Finding>, thresholds: seq<Threshold>) {
    match check
    case InconsistentUnit | InconsistentAbbreviation => thresholds == [Always]
    case DuplicateShape =>
      exists fields, variants ::
        AxisOf(fields, 2, FIELDS, findings) && AxisOf(variants, 2, VARIANTS, findings) &&
        IsGrid(thresholds, fields, variants, SHAPE)
    case LowCohesion =>
      exists groups, sizes ::
        AxisOf(groups, 2, GROUPS, findings) && AxisOf(sizes, 1, SIZES, findings) &&
        IsGrid(thresholds, groups, sizes, COHESION)
    case PackageFanOut =>
      exists limits ::
        AxisOf(limits, 3, LIMITS, findings) && forall t :: t in thresholds <==> t.FanOut? && t.limit in limits
  }

  method Thresholds(check: Check, findings: seq<Finding>) returns (thresholds: seq<Threshold>)
    ensures Boundaries(check, findings, thresholds)
  {
    match check {
      case DuplicateShape =>
        var fields := Axis(2, FIELDS, findings);
        var variants := Axis(2, VARIANTS, findings);
        thresholds := Grid(fields, variants, SHAPE);
      case LowCohesion =>
        var groups := Axis(2, GROUPS, findings);
        var sizes := Axis(1, SIZES, findings);
        thresholds := Grid(groups, sizes, COHESION);
      case PackageFanOut =>
        var limits := Axis(3, LIMITS, findings);
        thresholds := [];
        for k := 0 to |limits|
          invariant forall t :: t in thresholds <==> t.FanOut? && t.limit in limits[..k]
        {
          assert limits[..k + 1] == limits[..k] + [limits[k]];
          thresholds := thresholds + [FanOut(limits[k])];
        }
        assert limits[..|limits|] == limits;
      case InconsistentUnit => thresholds := [Always];
      case InconsistentAbbreviation => thresholds := [Always];
    }
  }

  method Candidates(check: Check, findings: seq<Finding>) returns (rows: seq<Candidate>)
    ensures exists thresholds :: Boundaries(check, findings, thresholds) && RowsOf(rows, thresholds, findings)
  {
    var thresholds := Thresholds(check, findings);
    rows := [];
    for k := 0 to |thresholds|
      invariant RowsOf(rows, thresholds[..k], findings)
    {
      rows := rows + [Row(thresholds[k], findings)];
    }
    assert thresholds[..|thresholds|] == thresholds;
  }

  ghost predicate RowsOf(rows: seq<Candidate>, thresholds: seq<Threshold>, findings: seq<Finding>) {
    |rows| == |thresholds| && forall k :: 0 <= k < |rows| ==> rows[k] == Row(thresholds[k], findings)
  }

  // -------------------------------------------------------------------
  // The choice.
  // -------------------------------------------------------------------

  // Thresholds in their declared order, field by field.
  predicate AtMost(s: Threshold, t: Threshold) {
    match (s, t)
    case (Shape(a, b), Shape(c, d)) => a < c || (a == c && b <= d)
    case (Cohesion(a, b), Cohesion(c, d)) => a < c || (a == c && b <= d)
    case (FanOut(a), FanOut(b)) => a <= b
    case (Always, _) => true
    case (Shape(_, _), Cohesion(_, _)) => true
    case (_, FanOut(_)) => true
    case _ => false
  }

  // More retained findings first, then the lesser threshold.
  predicate Preferred(a: Candidate, b: Candidate) {
    a.findings > b.findings || (a.findings == b.findings && AtMost(a.threshold, b.threshold))
  }

  method Choose(rows: seq<Candidate>) returns (best: Option<Candidate>)
    ensures best.None? <==> forall k :: 0 <= k < |rows| ==> rows[k].level.Dropped?
    ensures best.Some? ==>
              && best.value in rows
              && forall k :: 0 <= k < |rows| ==>
                   Rank(rows[k].level) < Rank(best.value.level) ||
                   (rows[k].level == best.value.level && Preferred(best.value, rows[k]))
  {
    var level := Dropped;
    for k := 0 to |rows|
      invariant forall j :: 0 <= j < k ==> Rank(rows[j].level) <= Rank(level)
      invariant level.Dropped? || exists j :: 0 <= j < k && rows[j].level == level
    {
      if Rank(level) < Rank(rows[k].level) {
        level := rows[k].level;
      }
    }
    best := None;
    if level.Dropped? {
      return;
    }
    for k := 0 to |rows|
      invariant best.None? ==> forall j :: 0 <= j < k ==> rows[j].level != level
      invariant best.Some? ==>
        && best.value in rows && best.value.level == level
        && forall j :: 0 <= j < k && rows[j].level == level ==> Preferred(best.value, rows[j])
    {
      if rows[k].level == level && (best.None? || !Preferred(best.value, rows[k])) {
        best := Some(rows[k]);
      }
    }
  }

  // -------------------------------------------------------------------
  // The candidates are enough.
  // -------------------------------------------------------------------

  // A threshold between two candidate coordinates retains what the lower one
  // does, the boundary being one past what was observed.
  lemma {:induction false} SameSide(
    axis: seq<nat>, boundary: Finding -> Option<nat>, start: nat, findings: seq<Finding>,
    x: nat, y: nat, k: nat, count: nat)
    requires AxisOf(axis, start, boundary, findings) && k < |findings| && boundary(findings[k]) == Some(count + 1)
    requires y <= x && forall z :: z in axis && z <= x ==> z <= y
    ensures count >= x <==> count >= y
  {
    assert Observed(boundary, findings, count + 1);
    assert count + 1 in axis;
  }

  lemma {:induction false} SameSideOfLimit(
    axis: seq<nat>, start: nat, findings: seq<Finding>, x: nat, y: nat, k: nat, count: nat)
    requires AxisOf(axis, start, LIMITS, findings) && k < |findings| && LIMITS(findings[k]) == Some(count)
    requires y <= x && forall z :: z in axis && z <= x ==> z <= y
    ensures count > x <==> count > y
  {
    assert Observed(LIMITS, findings, count);
    assert count in axis;
  }

  // Every threshold in scope comes down to a candidate that retains the same
  // findings.
  lemma {:induction false} ShapeMapsDown(findings: seq<Finding>, fields: seq<nat>, variants: seq<nat>, t: Threshold)
    returns (f: nat, v: nat)
    requires AxisOf(fields, 2, FIELDS, findings) && AxisOf(variants, 2, VARIANTS, findings) &&
             InScope(DuplicateShape, t)
    requires forall k :: 0 <= k < |findings| ==> Validated(DuplicateShape, findings[k])
    ensures f in fields && v in variants && f <= t.fields && v <= t.variants
    ensures forall k :: 0 <= k < |findings| ==> Retained(Shape(f, v), findings[k]) == Retained(t, findings[k])
  {
    assert 2 in fields && 2 in variants;
    f := Floor(fields, t.fields);
    v := Floor(variants, t.variants);
    forall k | 0 <= k < |findings| ensures Retained(Shape(f, v), findings[k]) == Retained(t, findings[k]) {
      assert Validated(DuplicateShape, findings[k]);
      var count := findings[k].metric.value.count;
      if findings[k].metric.value.StructM? {
        StructSide(findings, fields, t, f, v, k);
      } else {
        EnumSide(findings, variants, t, f, v, k);
      }
    }
  }

  lemma {:induction false} StructSide(findings: seq<Finding>, fields: seq<nat>, t: Threshold, f: nat, v: nat, k: nat)
    requires AxisOf(fields, 2, FIELDS, findings) && t.Shape? && k < |findings|
    requires findings[k].metric.Some? && findings[k].metric.value.StructM?
    requires f <= t.fields && forall z :: z in fields && z <= t.fields ==> z <= f
    ensures Retained(Shape(f, v), findings[k]) == Retained(t, findings[k])
  {
    SameSide(fields, FIELDS, 2, findings, t.fields, f, k, findings[k].metric.value.count);
  }

  lemma {:induction false} EnumSide(findings: seq<Finding>, variants: seq<nat>, t: Threshold, f: nat, v: nat, k: nat)
    requires AxisOf(variants, 2, VARIANTS, findings) && t.Shape? && k < |findings|
    requires findings[k].metric.Some? && findings[k].metric.value.EnumM?
    requires v <= t.variants && forall z :: z in variants && z <= t.variants ==> z <= v
    ensures Retained(Shape(f, v), findings[k]) == Retained(t, findings[k])
  {
    SameSide(variants, VARIANTS, 2, findings, t.variants, v, k, findings[k].metric.value.count);
  }

  lemma {:induction false} CohesionMapsDown(findings: seq<Finding>, groups: seq<nat>, sizes: seq<nat>, t: Threshold)
    returns (g: nat, z: nat)
    requires AxisOf(groups, 2, GROUPS, findings) && AxisOf(sizes, 1, SIZES, findings) && InScope(LowCohesion, t)
    requires forall k :: 0 <= k < |findings| ==> Validated(LowCohesion, findings[k])
    ensures g in groups && z in sizes && g <= t.groups && z <= t.size
    ensures forall k :: 0 <= k < |findings| ==> Retained(Cohesion(g, z), findings[k]) == Retained(t, findings[k])
  {
    assert 2 in groups && 1 in sizes;
    g := Floor(groups, t.groups);
    z := Floor(sizes, t.size);
    forall k | 0 <= k < |findings| ensures Retained(Cohesion(g, z), findings[k]) == Retained(t, findings[k]) {
      CohesionSide(findings, groups, sizes, t, g, z, k);
    }
  }

  lemma {:induction false} CohesionSide(
    findings: seq<Finding>, groups: seq<nat>, sizes: seq<nat>, t: Threshold, g: nat, z: nat, k: nat)
    requires AxisOf(groups, 2, GROUPS, findings) && AxisOf(sizes, 1, SIZES, findings) && t.Cohesion? && k < |findings|
    requires Validated(LowCohesion, findings[k])
    requires g <= t.groups && forall x :: x in groups && x <= t.groups ==> x <= g
    requires z <= t.size && forall x :: x in sizes && x <= t.size ==> x <= z
    ensures Retained(Cohesion(g, z), findings[k]) == Retained(t, findings[k])
  {
    var m := findings[k].metric.value;
    SameSide(groups, GROUPS, 2, findings, t.groups, g, k, m.groups);
    SameSide(sizes, SIZES, 1, findings, t.size, z, k, m.minSize);
  }

  lemma {:induction false} FanOutMapsDown(findings: seq<Finding>, limits: seq<nat>, t: Threshold) returns (x: nat)
    requires AxisOf(limits, 3, LIMITS, findings) && InScope(PackageFanOut, t)
    requires forall k :: 0 <= k < |findings| ==> Validated(PackageFanOut, findings[k])
    ensures x in limits && x <= t.limit
    ensures forall k :: 0 <= k < |findings| ==> Retained(FanOut(x), findings[k]) == Retained(t, findings[k])
  {
    assert 3 in limits;
    x := Floor(limits, t.limit);
    forall k | 0 <= k < |findings| ensures Retained(FanOut(x), findings[k]) == Retained(t, findings[k]) {
      SameSideOfLimit(limits, 3, findings, t.limit, x, k, findings[k].metric.value.count);
    }
  }

  lemma {:induction false} MapsDown(check: Check, findings: seq<Finding>, thresholds: seq<Threshold>, t: Threshold)
    returns (s: Threshold)
    requires Boundaries(check, findings, thresholds) && InScope(check, t)
    requires forall k :: 0 <= k < |findings| ==> Validated(check, findings[k])
    ensures s in thresholds && AtMost(s, t)
    ensures forall k :: 0 <= k < |findings| ==> Retained(s, findings[k]) == Retained(t, findings[k])
  {
    match check {
      case DuplicateShape =>
        var fields, variants :|
          AxisOf(fields, 2, FIELDS, findings) && AxisOf(variants, 2, VARIANTS, findings) &&
          IsGrid(thresholds, fields, variants, SHAPE);
        var f, v := ShapeMapsDown(findings, fields, variants, t);
        s := SHAPE(f, v);
      case LowCohesion =>
        var groups, sizes :|
          AxisOf(groups, 2, GROUPS, findings) && AxisOf(sizes, 1, SIZES, findings) &&
          IsGrid(thresholds, groups, sizes, COHESION);
        var g, z := CohesionMapsDown(findings, groups, sizes, t);
        s := COHESION(g, z);
      case PackageFanOut =>
        var limits :|
          AxisOf(limits, 3, LIMITS, findings) && forall t :: t in thresholds <==> t.FanOut? && t.limit in limits;
        var x := FanOutMapsDown(findings, limits, t);
        s := FanOut(x);
      case InconsistentUnit => s := Always;
      case InconsistentAbbreviation => s := Always;
    }
  }

  // An axis holds nothing below where the search starts.
  lemma {:induction false} AxisFromStart(
    axis: seq<nat>, start: nat, boundary: Finding -> Option<nat>, findings: seq<Finding>)
    requires AxisOf(axis, start, boundary, findings)
    requires forall f, x :: f in findings && boundary(f) == Some(x) ==> start <= x
    ensures forall x :: x in axis ==> start <= x
  {
  }

  lemma {:induction false} CandidatesInScope(
    check: Check, findings: seq<Finding>, thresholds: seq<Threshold>, t: Threshold)
    requires Boundaries(check, findings, thresholds) && t in thresholds
    requires forall k :: 0 <= k < |findings| ==> Validated(check, findings[k])
    ensures InScope(check, t)
  {
    assert forall f :: f in findings ==> Validated(check, f);
    match check {
      case DuplicateShape =>
        var fields, variants :|
          AxisOf(fields, 2, FIELDS, findings) && AxisOf(variants, 2, VARIANTS, findings) &&
          IsGrid(thresholds, fields, variants, SHAPE);
        AxisFromStart(fields, 2, FIELDS, findings);
        AxisFromStart(variants, 2, VARIANTS, findings);
      case LowCohesion =>
        var groups, sizes :|
          AxisOf(groups, 2, GROUPS, findings) && AxisOf(sizes, 1, SIZES, findings) &&
          IsGrid(thresholds, groups, sizes, COHESION);
        AxisFromStart(groups, 2, GROUPS, findings);
        AxisFromStart(sizes, 1, SIZES, findings);
      case PackageFanOut =>
        var limits :|
          AxisOf(limits, 3, LIMITS, findings) && forall t :: t in thresholds <==> t.FanOut? && t.limit in limits;
        AxisFromStart(limits, 3, LIMITS, findings);
      case _ =>
    }
  }

  // The choice over the candidates, against every threshold in scope.
  method SearchRows(check: Check, findings: seq<Finding>) returns (best: Option<Candidate>)
    requires forall k :: 0 <= k < |findings| ==> Validated(check, findings[k])
    ensures best.None? <==> forall t :: InScope(check, t) ==> Row(t, findings).level.Dropped?
    ensures best.Some? ==>
              && InScope(check, best.value.threshold) && best.value == Row(best.value.threshold, findings)
              && !best.value.level.Dropped?
              && forall t :: InScope(check, t) ==> Outranks(best.value, Row(t, findings))
  {
    var rows := Candidates(check, findings);
    best := Choose(rows);
    ghost var thresholds :| Boundaries(check, findings, thresholds) && RowsOf(rows, thresholds, findings);
    forall t | InScope(check, t)
      ensures best.None? ==> Row(t, findings).level.Dropped?
      ensures best.Some? ==> Outranks(best.value, Row(t, findings))
    {
      var s := MapsDown(check, findings, thresholds, t);
      SameRetainedSameRow(s, t, findings);
      var k :| 0 <= k < |thresholds| && thresholds[k] == s;
      assert rows[k] == Row(s, findings);
      if best.Some? && rows[k].level == best.value.level {
        var j :| 0 <= j < |rows| && rows[j] == best.value;
        CandidatesInScope(check, findings, thresholds, thresholds[j]);
      }
    }
    if best.Some? {
      var j :| 0 <= j < |rows| && rows[j] == best.value;
      CandidatesInScope(check, findings, thresholds, thresholds[j]);
    }
  }

  predicate Outranks(a: Candidate, b: Candidate) {
    Rank(b.level) < Rank(a.level) || (b.level == a.level && Preferred(a, b))
  }

  // `t` is a better threshold than `u`, or as good: a warning before none, then
  // the more reported, then the first in order.
  ghost predicate Better(t: Threshold, u: Threshold, findings: seq<Finding>) {
    var n, m := |Reported(t, findings)|, |Reported(u, findings)|;
    if Warns(t, findings) != Warns(u, findings) then Warns(t, findings)
    else m < n || (m == n && NoLater(Coordinates(t), Coordinates(u)))
  }

  // The selected row, or its absence, is what searching every threshold at or
  // above the start would give: the highest level, then the most reported
  // findings, then the least threshold.
  method Search(check: Check, findings: seq<Finding>) returns (best: Option<Candidate>)
    requires forall k :: 0 <= k < |findings| ==> Validated(check, findings[k])
    ensures best.None? <==> forall t :: InScope(check, t) ==> Drops(t, findings)
    ensures best.Some? ==>
              && var t := best.value.threshold;
              && InScope(check, t) && !Drops(t, findings)
              && best.value.findings == |Reported(t, findings)| &&
                 best.value.accepted == |ReportedAccepted(t, findings)|
              && best.value.level == (if Warns(t, findings) then Warning else Info)
              && forall u :: InScope(check, u) && !Drops(u, findings) ==> Better(t, u, findings)
  {
    best := SearchRows(check, findings);
    if best.Some? { RowCounts(best.value.threshold, findings); }
    forall u | InScope(check, u)
      ensures Row(u, findings).level.Dropped? <==> Drops(u, findings)
      ensures best.Some? && !Drops(u, findings) ==> Better(best.value.threshold, u, findings)
    {
      RowCounts(u, findings);
      if best.Some? {
        assert Outranks(best.value, Row(u, findings));
        AtMostIsNoLater(check, best.value.threshold, u);
      }
    }
  }
}
