// What several modules share: optional values, sequences without repeats, the
// sizes of sets, names claimed in a scope, the order of strings, the trimming of
// trailing underscores.
module Common {

  datatype Option<+T> = None | Some(value: T)

  predicate Distinct<T(==)>(s: seq<T>) {
    forall i, j :: 0 <= i < j < |s| ==> s[i] != s[j]
  }

  lemma {:induction false} Associates<T>(a: seq<T>, b: seq<T>, c: seq<T>)
    ensures a + (b + c) == (a + b) + c
  {
  }

  lemma {:induction false} SubsetSize<T>(a: set<T>, b: set<T>)
    requires a <= b
    ensures |a| <= |b|
  {
    assert b == a + (b - a);
  }

  lemma {:induction false} SameSize<T>(a: set<T>, b: set<T>)
    requires a <= b && |a| == |b|
    ensures a == b
  {
    assert b == a + (b - a);
  }

  // Entering what is not on the path leaves fewer to enter.
  lemma {:induction false} EnteringShrinks<T>(all: set<T>, path: set<T>, x: T)
    requires x in all && x !in path
    ensures |all - (path + {x})| < |all - path|
  {
    assert all - (path + {x}) == all - path - {x};
  }

  ghost function Below(n: nat): (r: set<nat>)
    ensures |r| == n && forall m: nat :: m in r <==> m < n
  {
    if n == 0 then {} else Below(n - 1) + {n - 1}
  }

  // Names that can be claimed in a scope, and have been.
  ghost predicate Free(before: set<string>, names: seq<string>) {
    Distinct(names) && forall n :: n in names ==> n !in before
  }

  ghost predicate Entered(before: set<string>, now: set<string>, names: seq<string>) {
    Free(before, names) && forall n :: n in now <==> n in before || n in names
  }

  lemma {:induction false} EnterOne(
    before: set<string>, now: set<string>, names: seq<string>, name: string, rest: seq<string>)
    requires Entered(before, now, names)
    ensures name !in now ==> Entered(before, now + {name}, names + [name])
    ensures name in now ==> !Free(before, names + [name] + rest)
  {
    var all := names + [name] + rest;
    assert all[|names|] == name;
    if name in names {
      var k :| 0 <= k < |names| && names[k] == name;
      assert all[k] == name;
    }
  }

  lemma {:induction false} EnterAt(before: set<string>, now: set<string>, names: seq<string>, at: nat)
    requires at < |names| && Entered(before, now, names[..at])
    ensures names[at] !in now ==> Entered(before, now + {names[at]}, names[..at + 1])
    ensures names[at] in now ==> !Free(before, names)
  {
    assert names[..at + 1] == names[..at] + [names[at]];
    assert names == names[..at] + [names[at]] + names[at + 1..];
    EnterOne(before, now, names[..at], names[at], names[at + 1..]);
  }

  lemma {:induction false} EnterMany(
    before: set<string>, mid: set<string>, now: set<string>, a: seq<string>, b: seq<string>)
    requires Entered(before, mid, a)
    ensures Entered(mid, now, b) ==> Entered(before, now, a + b)
    ensures Free(before, a + b) ==> Free(mid, b)
  {
    if Entered(mid, now, b) { DistinctBoth(a, b); }
    if Free(before, a + b) {
      DistinctBoth(a, b);
      forall n | n in b ensures n !in mid {
        assert n in a + b;
      }
    }
  }

  lemma {:induction false} DistinctBoth(a: seq<string>, b: seq<string>)
    ensures Distinct(a + b) <==> Distinct(a) && Distinct(b) && forall n :: n in a ==> n !in b
  {
    if b == [] {
      assert a + b == a;
    } else {
      var front, last := b[..|b| - 1], b[|b| - 1];
      DistinctBoth(a, front);
      DistinctSnoc(a + front, last);
      DistinctSnoc(front, last);
      assert a + b == a + front + [last] && b == front + [last];
    }
  }

  lemma {:induction false} DistinctSnoc<T>(s: seq<T>, x: T)
    ensures Distinct(s + [x]) <==> Distinct(s) && x !in s
  {
    var all := s + [x];
    assert all[|s|] == x && forall k :: 0 <= k < |s| ==> all[k] == s[k];
    if x in s {
      var k :| 0 <= k < |s| && s[k] == x;
      assert all[k] == all[|s|];
    }
    if Distinct(all) {
      forall i, j | 0 <= i < j < |s| ensures s[i] != s[j] {
        assert all[i] != all[j];
      }
    }
  }

  lemma {:induction false} FreePrefix(before: set<string>, a: seq<string>, b: seq<string>)
    requires Free(before, a + b)
    ensures Free(before, a)
  {
    DistinctBoth(a, b);
    forall n | n in a ensures n !in before {
      assert n in a + b;
    }
  }

  lemma {:induction false} NotFree(
    before: set<string>, mid: set<string>, a: seq<string>, b: seq<string>, rest: seq<string>)
    requires Entered(before, mid, a)
    ensures !Free(mid, b) ==> !Free(before, a + b + rest)
  {
    if Free(before, a + b + rest) {
      FreePrefix(before, a + b, rest);
      EnterMany(before, mid, mid, a, b);
    }
  }

  // A name without its trailing underscores.
  function Trimmed(s: string): string {
    if s != "" && s[|s| - 1] == '_' then Trimmed(s[..|s| - 1]) else s
  }

  lemma {:induction false} TrimmedEscape(s: string)
    ensures Trimmed(s + "_") == Trimmed(s)
  {
    assert (s + "_")[..|s|] == s;
  }

  // Nothing but underscores is taken, and every one of them.
  lemma {:induction false} TrimmedMeans(s: string)
    ensures Trimmed(s) <= s && forall k :: |Trimmed(s)| <= k < |s| ==> s[k] == '_'
    ensures Trimmed(s) == "" || Trimmed(s)[|Trimmed(s)| - 1] != '_'
  {
    if s != "" && s[|s| - 1] == '_' { TrimmedMeans(s[..|s| - 1]); }
  }

  // The order of strings: the first differing character decides.
  predicate Less(a: string, b: string) {
    b != "" && (a == "" || a[0] < b[0] || (a[0] == b[0] && Less(a[1..], b[1..])))
  }

  lemma {:induction false} LessMeans(a: string, b: string)
    ensures Less(a, b) <==>
            exists k: nat :: k <= |a| && k < |b| && a[..k] == b[..k] && (k == |a| || a[k] < b[k])
  {
    if Less(a, b) {
      if a == "" || a[0] < b[0] {
        var k: nat := 0;
        assert a[..k] == b[..k];
      } else {
        LessMeans(a[1..], b[1..]);
        var k: nat :| k <= |a[1..]| && k < |b[1..]| && a[1..][..k] == b[1..][..k] &&
            (k == |a[1..]| || a[1..][k] < b[1..][k]);
        assert a[..k + 1] == [a[0]] + a[1..][..k] && b[..k + 1] == [b[0]] + b[1..][..k];
      }
    }
    if k: nat :| k <= |a| && k < |b| && a[..k] == b[..k] && (k == |a| || a[k] < b[k]) {
      if k > 0 {
        assert a[0] == a[..k][0] == b[..k][0] == b[0];
        LessMeans(a[1..], b[1..]);
        assert a[1..][..k - 1] == a[..k][1..] && b[1..][..k - 1] == b[..k][1..];
      }
    }
  }

  lemma {:induction false} LessTotal(a: string, b: string)
    ensures a == b || Less(a, b) || Less(b, a)
  {
    if a != "" && b != "" && a[0] == b[0] {
      LessTotal(a[1..], b[1..]);
      assert a == [a[0]] + a[1..] && b == [b[0]] + b[1..];
    }
  }

  lemma {:induction false} LessTransitive(a: string, b: string, c: string)
    requires Less(a, b) && Less(b, c)
    ensures Less(a, c)
  {
    if a != "" && a[0] == b[0] == c[0] { LessTransitive(a[1..], b[1..], c[1..]); }
  }
}
