// Why a depth-first traversal that refuses a repeat visit on its current path
// computes a least fixed point. `rule(i, S)` says that item `i` qualifies when
// the items of `S` do; `answer(path)` is the set of items the traversal says
// yes to while the items named in `path` are being visited.
module GuardedTraversal {
  import opened Common

  ghost predicate Monotone(rule: (nat, set<nat>) -> bool) {
    forall i, S, T :: S <= T && rule(i, S) ==> rule(i, T)
  }

  // The items that qualify when those of `S` do.
  ghost function Step(count: nat, rule: (nat, set<nat>) -> bool, S: set<nat>): set<nat> {
    set i: nat | i < count && rule(i, S)
  }

  // One level of the traversal at item `i`: refuse an item on the path, and
  // otherwise apply the rule to the answers given one level further down.
  ghost predicate Level(
    names: seq<string>, rule: (nat, set<nat>) -> bool, answer: set<string> -> set<nat>, path: set<string>, i: nat)
  {
    i in answer(path) <==> i < |names| && names[i] !in path && rule(i, answer(path + {names[i]}))
  }

  ghost predicate Traverses(names: seq<string>, rule: (nat, set<nat>) -> bool, answer: set<string> -> set<nat>) {
    forall path, i :: Level(names, rule, answer, path, i)
  }

  // The items with a derivation of height at most `n`.
  ghost function Derivable(count: nat, rule: (nat, set<nat>) -> bool, n: nat): set<nat> {
    if n == 0 then {} else Step(count, rule, Derivable(count, rule, n - 1))
  }

  function ToSet(names: seq<string>): set<string> {
    set k | 0 <= k < |names| :: names[k]
  }

  lemma {:induction false} DerivableGrows(count: nat, rule: (nat, set<nat>) -> bool, a: nat, b: nat)
    requires Monotone(rule) && a <= b
    ensures Derivable(count, rule, a) <= Derivable(count, rule, b)
  {
    if a > 0 {
      DerivableGrows(count, rule, a - 1, b - 1);
    }
  }

  // A yes from any path is a derivation no higher than the names still free.
  lemma {:induction false} AnswerIsDerivable(
    names: seq<string>, rule: (nat, set<nat>) -> bool, answer: set<string> -> set<nat>, i: nat, path: set<string>)
    requires Monotone(rule) && Traverses(names, rule, answer) && i in answer(path)
    ensures i in Derivable(|names|, rule, |ToSet(names) - path|)
    decreases |ToSet(names) - path|
  {
    assert Level(names, rule, answer, path, i);
    EnteringShrinks(ToSet(names), path, names[i]);
    var inside := path + {names[i]};
    var n := |ToSet(names) - path|;
    forall j | j in answer(inside) ensures j in Derivable(|names|, rule, n - 1) {
      AnswerIsDerivable(names, rule, answer, j, inside);
      DerivableGrows(|names|, rule, |ToSet(names) - inside|, n - 1);
    }
    assert rule(i, Derivable(|names|, rule, n - 1));
  }

  // A derivation is found from any path none of whose items has one as short:
  // heights fall along the traversal, so the guard never meets a repeat.
  lemma {:induction false} DerivableIsAnswered(
    names: seq<string>, rule: (nat, set<nat>) -> bool, answer: set<string> -> set<nat>, i: nat, n: nat,
        path: set<string>)
    requires Distinct(names) && Monotone(rule) && Traverses(names, rule, answer)
    requires i in Derivable(|names|, rule, n)
    requires forall j :: j in Derivable(|names|, rule, n) ==> names[j] !in path
    ensures i in answer(path)
    decreases n
  {
    DerivableGrows(|names|, rule, n - 1, n);
    var below := Derivable(|names|, rule, n - 1);
    if i in below {
      DerivableIsAnswered(names, rule, answer, i, n - 1, path);
    } else {
      var inside := path + {names[i]};
      forall j | j in below ensures j in answer(inside) {
        DerivableIsAnswered(names, rule, answer, j, n - 1, inside);
      }
      assert rule(i, below) && below <= answer(inside);
      assert Level(names, rule, answer, path, i);
    }
  }

  lemma {:induction false} DerivableInEveryClosedSet(count: nat, rule: (nat, set<nat>) -> bool, n: nat, S: set<nat>)
    requires Monotone(rule) && Step(count, rule, S) <= S
    ensures Derivable(count, rule, n) <= S
  {
    if n > 0 {
      DerivableInEveryClosedSet(count, rule, n - 1, S);
      forall i | i in Derivable(count, rule, n) ensures i in S {
        assert rule(i, S);
        assert i in Step(count, rule, S);
      }
    }
  }

  // Started from the empty path, the traversal answers yes for exactly the
  // items with a derivation: its answer satisfies the rule and lies inside
  // every set closed under it.
  lemma {:induction false} AnswerIsLeastFixedPoint(
    names: seq<string>, rule: (nat, set<nat>) -> bool, answer: set<string> -> set<nat>)
    requires Distinct(names) && Monotone(rule) && Traverses(names, rule, answer)
    ensures answer({}) == Derivable(|names|, rule, |ToSet(names)|)
    ensures Step(|names|, rule, answer({})) == answer({})
    ensures forall S :: Step(|names|, rule, S) <= S ==> answer({}) <= S
  {
    var n := |ToSet(names)|;
    assert ToSet(names) - {} == ToSet(names);
    forall k, i | i in Derivable(|names|, rule, k) ensures i in answer({}) {
      DerivableIsAnswered(names, rule, answer, i, k, {});
    }
    forall i | i in answer({}) ensures i in Derivable(|names|, rule, n) {
      AnswerIsDerivable(names, rule, answer, i, {});
    }
    DerivableGrows(|names|, rule, n, n + 1);
    assert Derivable(|names|, rule, n + 1) == Step(|names|, rule, Derivable(|names|, rule, n));
    forall S | Step(|names|, rule, S) <= S ensures answer({}) <= S {
      DerivableInEveryClosedSet(|names|, rule, n, S);
    }
  }

  // -------------------------------------------------------------------
  // Heights.
  // -------------------------------------------------------------------

  // The height of the lowest derivation of `i`.
  ghost function Height(count: nat, rule: (nat, set<nat>) -> bool, bound: nat, i: nat): (h: nat)
    requires i in Derivable(count, rule, bound)
    ensures 0 < h <= bound && i in Derivable(count, rule, h) && i !in Derivable(count, rule, h - 1)
  {
    if i in Derivable(count, rule, bound - 1) then Height(count, rule, bound - 1, i) else bound
  }

  lemma {:induction false} HeightIsLeast(count: nat, rule: (nat, set<nat>) -> bool, bound: nat, i: nat, n: nat)
    requires Monotone(rule) && i in Derivable(count, rule, bound) && i in Derivable(count, rule, n)
    ensures Height(count, rule, bound, i) <= n
  {
    var h := Height(count, rule, bound, i);
    if n < h {
      DerivableGrows(count, rule, n, h - 1);
    }
  }

  // What an item with a derivation draws on has a lower one.
  ghost predicate Draws(rule: (nat, set<nat>) -> bool, edge: (nat, nat) -> bool) {
    forall i, j, S :: rule(i, S) && edge(i, j) ==> j in S
  }

  ghost predicate Chain(edge: (nat, nat) -> bool, p: seq<nat>) {
    forall k :: 0 <= k < |p| - 1 ==> edge(p[k], p[k + 1])
  }

  lemma {:induction false} HeightsFallAlongChains(
    count: nat, rule: (nat, set<nat>) -> bool, edge: (nat, nat) -> bool, p: seq<nat>, n: nat, k: nat)
    requires Draws(rule, edge) && Chain(edge, p) && k < |p| && p[0] in Derivable(count, rule, n)
    ensures k <= n && p[k] in Derivable(count, rule, n - k)
    decreases k
  {
    if k > 0 {
      HeightsFallAlongChains(count, rule, edge, p, n, k - 1);
      assert edge(p[k - 1], p[k]);
      assert rule(p[k - 1], Derivable(count, rule, n - k));
    }
  }

  lemma {:induction false} LoopHasNoDerivation(
    count: nat, rule: (nat, set<nat>) -> bool, edge: (nat, nat) -> bool, loop: seq<nat>, n: nat)
    requires Draws(rule, edge) && Chain(edge, loop) && |loop| > 1 && loop[0] == loop[|loop| - 1]
    ensures loop[0] !in Derivable(count, rule, n)
    decreases n
  {
    if loop[0] in Derivable(count, rule, n) {
      HeightsFallAlongChains(count, rule, edge, loop, n, |loop| - 1);
      LoopHasNoDerivation(count, rule, edge, loop, n - (|loop| - 1));
    }
  }

  // Nothing that leads to a repeat has a derivation, however far away it is.
  lemma {:induction false} ReachingALoopRefuses(
    count: nat, rule: (nat, set<nat>) -> bool, edge: (nat, nat) -> bool, p: seq<nat>, a: nat, b: nat, n: nat)
    requires Draws(rule, edge) && Chain(edge, p) && a < b < |p| && p[a] == p[b]
    ensures p[0] !in Derivable(count, rule, n)
  {
    if p[0] in Derivable(count, rule, n) {
      HeightsFallAlongChains(count, rule, edge, p, n, a);
      LoopHasNoDerivation(count, rule, edge, p[a..b + 1], n - a);
    }
  }
}
