// A stable sort: elements neither of which goes before the other keep their
// order.
module StableSort {

  function Insert<T>(less: (T, T) -> bool, x: T, s: seq<T>): seq<T> {
    if s == [] || !less(s[0], x) then [x] + s else [s[0]] + Insert(less, x, s[1..])
  }

  function Sort<T>(less: (T, T) -> bool, s: seq<T>): seq<T> {
    if s == [] then [] else Insert(less, s[0], Sort(less, s[1..]))
  }

  // No two elements each before the other, and what is not before something is
  // not before what that is not before.
  ghost predicate Orders<T(!new)>(less: (T, T) -> bool) {
    && (forall a, b :: less(a, b) ==> !less(b, a))
    && (forall a, b, c :: !less(a, b) && !less(b, c) ==> !less(a, c))
  }

  ghost predicate Sorted<T>(less: (T, T) -> bool, s: seq<T>) {
    forall i, j :: 0 <= i < j < |s| ==> !less(s[j], s[i])
  }

  lemma {:induction false} InsertMembers<T>(less: (T, T) -> bool, x: T, s: seq<T>, y: T)
    ensures y in Insert(less, x, s) <==> y == x || y in s
    ensures |Insert(less, x, s)| == |s| + 1
  {
    if s != [] && less(s[0], x) {
      InsertMembers(less, x, s[1..], y);
      assert s == [s[0]] + s[1..];
    }
  }

  lemma {:induction false} InsertAdds<T>(less: (T, T) -> bool, x: T, s: seq<T>)
    ensures multiset(Insert(less, x, s)) == multiset(s)[x := multiset(s)[x] + 1]
  {
    if s != [] {
      InsertAdds(less, x, s[1..]);
      assert s == [s[0]] + s[1..];
    }
  }

  lemma {:induction false} SortPermutes<T>(less: (T, T) -> bool, s: seq<T>)
    ensures multiset(Sort(less, s)) == multiset(s)
  {
    if s != [] {
      SortPermutes(less, s[1..]);
      InsertAdds(less, s[0], Sort(less, s[1..]));
      assert s == [s[0]] + s[1..];
    }
  }

  lemma {:induction false} SortMembers<T>(less: (T, T) -> bool, s: seq<T>, y: T)
    ensures y in Sort(less, s) <==> y in s
    ensures |Sort(less, s)| == |s|
  {
    if s != [] {
      SortMembers(less, s[1..], y);
      InsertMembers(less, s[0], Sort(less, s[1..]), y);
      assert s == [s[0]] + s[1..];
    }
  }

  // A relation every pair keeps: it holds of the pairs of the sorted list when
  // it holds of the pairs of the list, in order and, where the sort forces the
  // order, against it.
  ghost predicate Ordered<T>(s: seq<T>, r: (T, T) -> bool) {
    forall i, j :: 0 <= i < j < |s| ==> r(s[i], s[j])
  }

  lemma {:induction false} InsertOrders<T(!new)>(less: (T, T) -> bool, x: T, s: seq<T>, r: (T, T) -> bool)
    requires Orders(less) && Ordered(s, r) && Sorted(less, s)
    requires forall y :: y in s && !less(y, x) ==> r(x, y)
    requires forall y :: y in s && less(y, x) ==> r(y, x)
    ensures Ordered(Insert(less, x, s), r) && Sorted(less, Insert(less, x, s))
  {
    if s != [] && less(s[0], x) {
      InsertOrders(less, x, s[1..], r);
      var t := Insert(less, x, s[1..]);
      forall j | 0 <= j < |t| ensures r(s[0], t[j]) && !less(t[j], s[0]) {
        InsertMembers(less, x, s[1..], t[j]);
        assert t[j] in t;
        if t[j] != x {
          var k :| 0 <= k < |s[1..]| && s[1..][k] == t[j];
          assert s[k + 1] == t[j];
        }
      }
    } else if s != [] {
      forall j | 0 <= j < |s| ensures !less(s[j], x) && r(x, s[j]) {
        assert s[j] in s && !less(s[0], x) && (j > 0 ==> !less(s[j], s[0]));
      }
    }
  }

  lemma {:induction false} SortIsSorted<T(!new)>(less: (T, T) -> bool, s: seq<T>)
    requires Orders(less)
    ensures Sorted(less, Sort(less, s))
  {
    if s != [] {
      SortIsSorted(less, s[1..]);
      InsertOrders(less, s[0], Sort(less, s[1..]), (_, _) => true);
    }
  }

  // The elements that go neither before `x` nor after it.
  function Alike<T>(less: (T, T) -> bool, s: seq<T>, x: T): seq<T> {
    if s == [] then []
    else (if !less(s[0], x) && !less(x, s[0]) then [s[0]] else []) + Alike(less, s[1..], x)
  }

  lemma {:induction false} InsertKeeps<T(!new)>(less: (T, T) -> bool, x: T, s: seq<T>, y: T)
    requires Orders(less)
    ensures Alike(less, Insert(less, x, s), y) == Alike(less, [x] + s, y)
  {
    assert ([x] + s)[1..] == s;
    if s != [] && less(s[0], x) {
      var t := Insert(less, x, s[1..]);
      InsertKeeps(less, x, s[1..], y);
      assert ([x] + s[1..])[1..] == s[1..];
      assert Insert(less, x, s)[1..] == t;
      assert less(s[0], y) || less(y, s[0]) || less(x, y) || less(y, x);
    }
  }

  // Nothing is lost, added or exchanged among elements that are alike.
  lemma {:induction false} SortKeeps<T(!new)>(less: (T, T) -> bool, s: seq<T>, y: T)
    requires Orders(less)
    ensures Alike(less, Sort(less, s), y) == Alike(less, s, y)
  {
    if s != [] {
      SortKeeps(less, s[1..], y);
      InsertKeeps(less, s[0], Sort(less, s[1..]), y);
      assert ([s[0]] + Sort(less, s[1..]))[1..] == Sort(less, s[1..]);
    }
  }

  // An element that goes after all of a prefix goes past it.
  lemma {:induction false} InsertPast<T>(less: (T, T) -> bool, x: T, prefix: seq<T>, s: seq<T>)
    requires forall k :: 0 <= k < |prefix| ==> less(prefix[k], x)
    ensures Insert(less, x, prefix + s) == prefix + Insert(less, x, s)
  {
    if prefix == [] {
      assert prefix + s == s;
    } else {
      var t, rest := prefix + s, prefix[1..];
      assert t[0] == prefix[0] && t[1..] == rest + s;
      InsertPast(less, x, rest, s);
      assert Insert(less, x, t) == [prefix[0]] + (rest + Insert(less, x, s));
      assert [prefix[0]] + (rest + Insert(less, x, s)) == prefix + Insert(less, x, s);
    }
  }

  lemma {:induction false} SortedIsUnchanged<T>(less: (T, T) -> bool, s: seq<T>)
    requires Sorted(less, s)
    ensures Sort(less, s) == s
  {
    if s != [] {
      SortedIsUnchanged(less, s[1..]);
      assert s == [s[0]] + s[1..];
      if |s| > 1 { assert !less(s[1], s[0]); }
    }
  }

  lemma {:induction false} SortedThen<T>(less: (T, T) -> bool, s: seq<T>, x: T)
    requires Sorted(less, s) && forall i :: 0 <= i < |s| ==> !less(x, s[i])
    ensures Sorted(less, s + [x])
  {
  }
}
