// The order in which a C header defines its heads: a depth-first walk over
// what each head lays out inline.
module EmissionOrder {
  import opened Common

  // A field's form, as far as the order reads it: a head inline, an array of
  // forms inline, or something that needs no other head defined before it.
  datatype Form = InlineHead(index: nat) | InlineArray(element: Option<Form>) | SelfContained

  // `local` says that the head belongs to the package the header is for.
  datatype Head = Head(local: bool, fields: seq<Option<Form>>)

  // Every head a form lays out inline, through arrays.
  function InlineHeads(form: Option<Form>): seq<nat>
    decreases form
  {
    match form
    case None => []
    case Some(InlineHead(index)) => [index]
    case Some(InlineArray(element)) => InlineHeads(element)
    case Some(SelfContained) => []
  }

  function DependenciesOf(fields: seq<Option<Form>>): seq<nat> {
    if fields == [] then [] else InlineHeads(fields[0]) + DependenciesOf(fields[1..])
  }

  // A form with `n` arrays taken off, nothing when it has fewer.
  function Peeled(form: Option<Form>, n: nat): Option<Form>
    decreases n
  {
    if n == 0 then form
    else
      match form
      case Some(InlineArray(element)) => Peeled(element, n - 1)
      case _ => None
  }

  // A form holds head `v` itself, or arrays of it to some depth.
  ghost predicate LaysOut(form: Option<Form>, v: nat) {
    exists n: nat :: Peeled(form, n) == Some(InlineHead(v))
  }

  ghost predicate SomeFieldLaysOut(fields: seq<Option<Form>>, v: nat) {
    exists k :: 0 <= k < |fields| && LaysOut(fields[k], v)
  }

  // Head `u` holds head `v` inline, in some field. An index that names no head
  // is no dependency.
  ghost predicate Edge(heads: seq<Head>, u: nat, v: nat) {
    u < |heads| && v < |heads| && SomeFieldLaysOut(heads[u].fields, v)
  }

  lemma {:induction false} InlineHeadsAreLaidOut(form: Option<Form>, v: nat)
    ensures v in InlineHeads(form) <==> LaysOut(form, v)
    decreases form
  {
    if form.Some? && form.value.InlineArray? {
      var element := form.value.element;
      InlineHeadsAreLaidOut(element, v);
      if n: nat :| Peeled(element, n) == Some(InlineHead(v)) {
        assert Peeled(form, n + 1) == Some(InlineHead(v));
      }
      if n: nat :| Peeled(form, n) == Some(InlineHead(v)) {
        assert n > 0 && Peeled(element, n - 1) == Some(InlineHead(v));
      }
    } else {
      var none: nat := 0;
      assert Peeled(form, none) == form;
    }
  }

  // The collected dependencies are exactly the heads laid out inline.
  lemma {:induction false} DependenciesAreLaidOut(fields: seq<Option<Form>>, v: nat)
    ensures v in DependenciesOf(fields) <==> SomeFieldLaysOut(fields, v)
  {
    if fields != [] {
      InlineHeadsAreLaidOut(fields[0], v);
      DependenciesAreLaidOut(fields[1..], v);
      if k :| 0 <= k < |fields[1..]| && LaysOut(fields[1..][k], v) {
        assert LaysOut(fields[k + 1], v);
      }
      if k :| 0 <= k < |fields| && LaysOut(fields[k], v) {
        if k > 0 { assert LaysOut(fields[1..][k - 1], v); }
      }
    }
  }

  ghost predicate ReachesIn(heads: seq<Head>, u: nat, v: nat, steps: nat)
    decreases steps
  {
    if steps == 0 then u == v && u < |heads|
    else exists w :: Edge(heads, u, w) && ReachesIn(heads, w, v, steps - 1)
  }

  ghost predicate Reaches(heads: seq<Head>, u: nat, v: nat) {
    exists steps: nat :: ReachesIn(heads, u, v, steps)
  }

  lemma {:induction false} ReachesItself(heads: seq<Head>, u: nat)
    requires u < |heads|
    ensures Reaches(heads, u, u)
  {
    assert ReachesIn(heads, u, u, 0);
  }

  lemma {:induction false} ReachesOnward(heads: seq<Head>, u: nat, v: nat, w: nat)
    requires Edge(heads, u, v) && Reaches(heads, v, w)
    ensures Reaches(heads, u, w)
  {
    var steps: nat :| ReachesIn(heads, v, w, steps);
    assert ReachesIn(heads, u, w, steps + 1);
  }

  lemma {:induction false} ReachesThrough(heads: seq<Head>, u: nat, v: nat, w: nat, steps: nat)
    requires ReachesIn(heads, u, v, steps) && Edge(heads, v, w)
    ensures Reaches(heads, u, w)
    decreases steps
  {
    if steps == 0 {
      ReachesItself(heads, w);
      ReachesOnward(heads, u, w, w);
    } else {
      var x :| Edge(heads, u, x) && ReachesIn(heads, x, v, steps - 1);
      ReachesThrough(heads, x, v, w, steps - 1);
      ReachesOnward(heads, u, x, w);
    }
  }

  // -------------------------------------------------------------------
  // The walk.
  // -------------------------------------------------------------------

  // The dependencies of the head at position `p` come before it, except those
  // that lead back to it.
  ghost predicate DependenciesFirst(heads: seq<Head>, out: seq<nat>, p: nat)
    requires p < |out|
  {
    forall v :: Edge(heads, out[p], v) ==> v in out[..p] || Reaches(heads, v, out[p])
  }

  // What is seen and not yet listed is exactly the path being visited, and
  // everything a listed head needs has been seen.
  ghost predicate Consistent(heads: seq<Head>, seen: set<nat>, out: seq<nat>, path: seq<nat>) {
    && (forall v :: v in seen <==> v in out || v in path)
    && (forall v :: v in path ==> v !in out)
    && (forall v :: v in seen ==> v < |heads|)
    && Distinct(out)
    && (forall u, v :: u in out && Edge(heads, u, v) ==> v in seen)
    && (forall p :: 0 <= p < |out| ==> DependenciesFirst(heads, out, p))
  }

  lemma {:induction false} EnterKeepsConsistent(
    heads: seq<Head>, seen: set<nat>, out: seq<nat>, path: seq<nat>, at: nat)
    requires Consistent(heads, seen, out, path) && at < |heads| && at !in seen
    ensures Consistent(heads, seen + {at}, out, path + [at])
  {
  }

  lemma {:induction false} LeaveKeepsConsistent(
    heads: seq<Head>, seen: set<nat>, out: seq<nat>, path: seq<nat>, at: nat)
    requires Consistent(heads, seen, out, path + [at]) && at !in path
    requires forall v :: v in path ==> Reaches(heads, v, at)
    requires at < |heads| && InRange(DependenciesOf(heads[at].fields), |heads|) <= seen
    ensures Consistent(heads, seen, out + [at], path)
  {
    forall v { DependenciesAreLaidOut(heads[at].fields, v); }
    assert forall v :: v in path + [at] <==> v in path || v == at;
    ReachesItself(heads, at);
    assert forall v :: v in out + [at] <==> v in out || v == at;
    forall p | 0 <= p < |out + [at]| ensures DependenciesFirst(heads, out + [at], p) {
      if p < |out| {
        assert DependenciesFirst(heads, out, p);
        assert (out + [at])[..p] == out[..p];
      } else {
        assert (out + [at])[..p] == out;
      }
    }
  }

  class Walk {
    var seen: set<nat>
    var out: seq<nat>

    constructor ()
      ensures seen == {} && out == []
    {
      seen, out := {}, [];
    }

    method Visit(heads: seq<Head>, at: nat, ghost path: seq<nat>)
      requires at < |heads| && Consistent(heads, seen, out, path)
      requires forall v :: v in path ==> Reaches(heads, v, at)
      modifies this
      ensures Consistent(heads, seen, out, path)
      ensures at in seen && old(seen) <= seen && old(out) <= out
      ensures AddsOnlyReachable(heads, at, old(out), out)
      decreases |Below(|heads|) - seen|
    {
      if at in seen {
        return;
      }
      ghost var inside := path + [at];
      EnterKeepsConsistent(heads, seen, out, path, at);
      EnteringShrinks(Below(|heads|), seen, at);
      seen := seen + {at};
      ReachesItself(heads, at);
      var dependencies := DependenciesOf(heads[at].fields);
      for k := 0 to |dependencies|
        invariant Consistent(heads, seen, out, inside)
        invariant old(seen) + {at} <= seen && old(out) <= out
        invariant InRange(dependencies[..k], |heads|) <= seen
        invariant AddsOnlyReachable(heads, at, old(out), out)
      {
        var dependency := dependencies[k];
        InRangeGrows(dependencies, k, |heads|);
        if dependency < |heads| {
          DependenciesAreLaidOut(heads[at].fields, dependency);
          PathReachesDependency(heads, path, at, dependency);
          SubsetSize(Below(|heads|) - seen, Below(|heads|) - (old(seen) + {at}));
          ghost var listed := out;
          Visit(heads, dependency, inside);
          AdditionsReachable(heads, at, dependency, old(out), listed, out);
        }
      }
      assert dependencies[..|dependencies|] == dependencies;
      LeaveKeepsConsistent(heads, seen, out, path, at);
      out := out + [at];
    }
  }

  // The indices of a list that name one of `n` heads.
  function InRange(s: seq<nat>, n: nat): set<nat> {
    set v | v in s && v < n
  }

  lemma {:induction false} InRangeGrows(s: seq<nat>, k: nat, n: nat)
    requires k < |s|
    ensures InRange(s[..k + 1], n) == InRange(s[..k], n) + (if s[k] < n then {s[k]} else {})
  {
    assert s[..k + 1] == s[..k] + [s[k]];
  }

  ghost predicate AddsOnlyReachable(heads: seq<Head>, at: nat, before: seq<nat>, after: seq<nat>) {
    forall v :: v in after && v !in before ==> Reaches(heads, at, v)
  }

  lemma {:induction false} PathReachesDependency(heads: seq<Head>, path: seq<nat>, at: nat, dependency: nat)
    requires Edge(heads, at, dependency) && forall v :: v in path ==> Reaches(heads, v, at)
    ensures forall v :: v in path + [at] ==> Reaches(heads, v, dependency)
  {
    ReachesItself(heads, at);
    forall v | v in path + [at] ensures Reaches(heads, v, dependency) {
      var steps: nat :| ReachesIn(heads, v, at, steps);
      ReachesThrough(heads, v, at, dependency, steps);
    }
  }

  lemma {:induction false} AdditionsReachable(
    heads: seq<Head>, at: nat, dependency: nat, first: seq<nat>, second: seq<nat>, third: seq<nat>)
    requires Edge(heads, at, dependency)
    requires AddsOnlyReachable(heads, at, first, second) && AddsOnlyReachable(heads, dependency, second, third)
    ensures AddsOnlyReachable(heads, at, first, third)
  {
    forall v | v in third && v !in first ensures Reaches(heads, at, v) {
      if v !in second {
        ReachesOnward(heads, at, dependency, v);
      }
    }
  }

  // The heads to define, each once: those a head of this package reaches, and
  // no other. What a head lays out inline comes before it, unless that in turn
  // lays out the head itself.
  method Order(heads: seq<Head>) returns (out: seq<nat>)
    ensures Distinct(out)
    ensures forall v :: v in out <==> exists u: nat :: u < |heads| && heads[u].local && Reaches(heads, u, v)
    ensures forall p :: 0 <= p < |out| ==> DependenciesFirst(heads, out, p)
  {
    var walk := new Walk();
    for at := 0 to |heads|
      invariant Consistent(heads, walk.seen, walk.out, [])
      invariant forall u :: 0 <= u < at && heads[u].local ==> u in walk.out
      invariant forall v :: v in walk.out ==> exists u: nat :: u < |heads| && heads[u].local && Reaches(heads, u, v)
      invariant fresh(walk)
    {
      if heads[at].local {
        walk.Visit(heads, at, []);
      }
    }
    out := walk.out;
    forall u: nat, v | u < |heads| && heads[u].local && Reaches(heads, u, v) ensures v in out {
      var steps: nat :| ReachesIn(heads, u, v, steps);
      ClosedUnderReach(heads, out, u, v, steps);
    }
  }

  lemma {:induction false} ClosedUnderReach(heads: seq<Head>, out: seq<nat>, u: nat, v: nat, steps: nat)
    requires ReachesIn(heads, u, v, steps) && u in out
    requires forall x, y :: x in out && Edge(heads, x, y) ==> y in out
    ensures v in out
    decreases steps
  {
    if steps > 0 {
      var w :| Edge(heads, u, w) && ReachesIn(heads, w, v, steps - 1);
      ClosedUnderReach(heads, out, w, v, steps - 1);
    }
  }

  // -------------------------------------------------------------------
  // When the order is one a C compiler accepts.
  // -------------------------------------------------------------------

  ghost predicate CompilerAccepts(heads: seq<Head>, out: seq<nat>) {
    forall p, v :: 0 <= p < |out| && Edge(heads, out[p], v) ==> v in out[..p]
  }

  ghost predicate LaysItselfOut(heads: seq<Head>, u: nat) {
    exists v :: Edge(heads, u, v) && Reaches(heads, v, u)
  }

  // The order defines every head before it is used exactly when no listed head
  // lays itself out inline; no order does better.
  lemma {:induction false} OrderIsTopologicalIffAcyclic(heads: seq<Head>, out: seq<nat>)
    requires Distinct(out) && forall p :: 0 <= p < |out| ==> DependenciesFirst(heads, out, p)
    ensures CompilerAccepts(heads, out) <==> forall u :: u in out ==> !LaysItselfOut(heads, u)
  {
    if forall u :: u in out ==> !LaysItselfOut(heads, u) {
      forall p, v | 0 <= p < |out| && Edge(heads, out[p], v) ensures v in out[..p] {
        assert DependenciesFirst(heads, out, p);
        assert !LaysItselfOut(heads, out[p]);
      }
    }
    if CompilerAccepts(heads, out) {
      forall u | u in out ensures !LaysItselfOut(heads, u) {
        if LaysItselfOut(heads, u) {
          var v :| Edge(heads, u, v) && Reaches(heads, v, u);
          var a :| 0 <= a < |out| && out[a] == u;
          assert v in out[..a];
          var b :| 0 <= b < a && out[b] == v;
          var steps: nat :| ReachesIn(heads, v, u, steps);
          PositionsFall(heads, out, v, u, steps, b);
        }
      }
    }
  }

  // In an order the compiler accepts, what a head reaches stands no later.
  lemma {:induction false} PositionsFall(heads: seq<Head>, out: seq<nat>, u: nat, v: nat, steps: nat, b: nat)
    requires CompilerAccepts(heads, out) && ReachesIn(heads, u, v, steps)
    requires b < |out| && out[b] == u
    ensures v in out[..b + 1]
    decreases steps
  {
    if steps > 0 {
      var w :| Edge(heads, u, w) && ReachesIn(heads, w, v, steps - 1);
      assert w in out[..b];
      var c :| 0 <= c < b && out[c] == w;
      PositionsFall(heads, out, w, v, steps - 1, c);
    }
  }
}
