// Division of naturals: what a quotient is fixed by, and dividing twice.
module Division {
  lemma {:induction false} MultiplesGrow(p: nat, q: nat, d: nat)
    requires p <= q
    ensures p * d <= q * d
  {
  }

  lemma {:induction false} DivisionIsUnique(x: nat, d: nat, q: nat, r: nat)
    requires d > 0 && x == q * d + r && r < d
    ensures x / d == q
  {
    var q' := x / d;
    assert q' * d <= x < q' * d + d;
    if q' < q { MultiplesGrow(q' + 1, q, d); }
    if q < q' { MultiplesGrow(q + 1, q', d); }
  }

  lemma {:induction false} DivideTwice(x: nat, a: nat, b: nat)
    requires a > 0 && b > 0
    ensures a * b > 0 && x / (a * b) == x / a / b
  {
    var q := x / a;
    NestedQuotient(x, a, b, q, x % a, q / b, q % b);
  }

  lemma {:induction false} NestedQuotient(x: nat, a: nat, b: nat, q: nat, r: nat, p: nat, t: nat)
    requires x == a * q + r && r < a && q == b * p + t && t < b
    ensures a * b > 0 && x / (a * b) == p
  {
    Nested(a, b, p, t, r);
    DivisionIsUnique(x, a * b, p, a * t + r);
  }

  lemma {:induction false} Nested(a: nat, b: nat, p: nat, t: nat, r: nat)
    requires t < b && r < a
    ensures a * (b * p + t) + r == p * (a * b) + (a * t + r) && a * t + r < a * b && a * b > 0
  {
    assert a * (b * p + t) == a * (b * p) + a * t;
    assert a * (b * p) == p * (a * b);
    assert a * (t + 1) <= a * b;
    assert a * (t + 1) == a * t + a;
  }
}
