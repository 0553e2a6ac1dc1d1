// String splitting as the standard library defines it, and canonical decimals.
module Text {
  import opened Common
  import opened Division

  // Whether `sep` occurs in `s` at `i`.
  predicate At(s: string, sep: string, i: nat) {
    i + |sep| <= |s| && s[i..i + |sep|] == sep
  }

  // The first occurrence at or after `i`.
  function Find(s: string, sep: string, i: nat): (r: Option<nat>)
    requires i <= |s|
    ensures r.Some? ==> i <= r.value && At(s, sep, r.value) && forall k :: i <= k < r.value ==> !At(s, sep, k)
    ensures r.None? ==> forall k :: i <= k <= |s| ==> !At(s, sep, k)
    decreases |s| - i
  {
    if At(s, sep, i) then Some(i) else if i == |s| then None else Find(s, sep, i + 1)
  }

  datatype Halves = Halves(before: string, after: string)

  function SplitOnce(s: string, sep: string): (r: Option<Halves>)
    ensures r.Some? ==> s == r.value.before + sep + r.value.after
  {
    match Find(s, sep, 0)
    case None => None
    case Some(i) => Some(Halves(s[..i], s[i + |sep|..]))
  }

  function Split(s: string, sep: string): (r: seq<string>)
    requires sep != ""
    ensures |r| >= 1
    decreases |s|
  {
    match SplitOnce(s, sep)
    case None => [s]
    case Some(h) => [h.before] + Split(h.after, sep)
  }

  function Join(parts: seq<string>, sep: string): string
    requires parts != []
  {
    if |parts| == 1 then parts[0] else parts[0] + sep + Join(parts[1..], sep)
  }

  lemma {:induction false} JoinOneMore(parts: seq<string>, sep: string, last: string)
    requires parts != []
    ensures Join(parts + [last], sep) == Join(parts, sep) + sep + last
  {
    if |parts| == 1 {
      assert (parts + [last])[1..] == [last];
    } else {
      assert (parts + [last])[1..] == parts[1..] + [last];
      JoinOneMore(parts[1..], sep, last);
    }
  }

  // Splitting keeps every character.
  lemma {:induction false} JoinOfSplit(s: string, sep: string)
    requires sep != ""
    ensures Join(Split(s, sep), sep) == s
    decreases |s|
  {
    var found := SplitOnce(s, sep);
    if found.Some? {
      JoinOfSplit(found.value.after, sep);
      var rest := Split(found.value.after, sep);
      assert ([found.value.before] + rest)[1..] == rest;
    }
  }

  lemma {:induction false} OccurrenceAt(s: string, sep: string, i: nat, j: nat)
    requires j < |sep|
    ensures At(s, sep, i) ==> i + j < |s| && s[i + j] == sep[j]
  {
    if At(s, sep, i) {
      assert s[i..i + |sep|][j] == sep[j];
    }
  }

  // No occurrence begins inside `p` when a character of the separator, the
  // first of its kind there, is not in `p`.
  lemma {:induction false} SplitOnceAt(p: string, sep: string, rest: string, j: nat)
    requires j < |sep| && sep[j] !in p && sep[j] !in sep[..j]
    ensures SplitOnce(p + sep + rest, sep) == Some(Halves(p, rest))
  {
    var s := p + sep + rest;
    forall i: nat | i < |p| ensures !At(s, sep, i) {
      OccurrenceAt(s, sep, i, j);
    }
    NoEarlierOccurrence(p, sep, rest);
  }

  lemma {:induction false} NoEarlierOccurrence(p: string, sep: string, rest: string)
    requires forall i: nat :: i < |p| ==> !At(p + sep + rest, sep, i)
    ensures SplitOnce(p + sep + rest, sep) == Some(Halves(p, rest))
  {
    var s := p + sep + rest;
    assert s[|p|..|p| + |sep|] == sep;
    assert At(s, sep, |p|);
    var i := Find(s, sep, 0).value;
    assert i == |p|;
    assert s[..i] == p && s[i + |sep|..] == rest;
  }

  lemma {:induction false} NothingToSplit(p: string, sep: string, j: nat)
    requires j < |sep| && sep[j] !in p
    ensures SplitOnce(p, sep) == None
  {
    forall i: nat | i <= |p| ensures !At(p, sep, i) {
      OccurrenceAt(p, sep, i, j);
    }
  }

  // Parts without the separator's distinguishing character come back.
  lemma {:induction false} SplitOfJoin(parts: seq<string>, sep: string, j: nat)
    requires parts != [] && j < |sep| && sep[j] !in sep[..j]
    requires forall k :: 0 <= k < |parts| ==> sep[j] !in parts[k]
    ensures Split(Join(parts, sep), sep) == parts
  {
    if |parts| == 1 {
      NothingToSplit(parts[0], sep, j);
    } else {
      var rest := parts[1..];
      SplitOnceAt(parts[0], sep, Join(rest, sep), j);
      SplitOfJoin(rest, sep, j);
      SplitStep(parts[0], sep, Join(rest, sep));
      assert parts == [parts[0]] + rest;
    }
  }

  lemma {:induction false} SplitStep(p: string, sep: string, rest: string)
    requires sep != "" && SplitOnce(p + sep + rest, sep) == Some(Halves(p, rest))
    ensures Split(p + sep + rest, sep) == [p] + Split(rest, sep)
  {
  }

  lemma {:induction false} OneCharacterAt(s: string, c: char, k: nat)
    requires k < |s|
    ensures At(s, [c], k) <==> s[k] == c
  {
    assert s[k..k + 1] == [s[k]];
  }

  // No part holds a one-character separator.
  lemma {:induction false} PartsHoldNoSeparator(s: string, c: char)
    ensures forall k :: 0 <= k < |Split(s, [c])| ==> c !in Split(s, [c])[k]
    decreases |s|
  {
    var found := SplitOnce(s, [c]);
    if found.Some? {
      PartsHoldNoSeparator(found.value.after, c);
      var i := Find(s, [c], 0).value;
      forall k: nat | k < i ensures s[k] != c {
        OneCharacterAt(s, c, k);
      }
      assert found.value.before == s[..i];
    } else {
      forall k: nat | k < |s| ensures s[k] != c {
        OneCharacterAt(s, c, k);
      }
    }
  }

  // Splitting at the last occurrence of a character.
  function SplitLast(s: string, c: char): (r: Option<Halves>)
    ensures r.Some? ==> s == r.value.before + [c] + r.value.after && c !in r.value.after
    ensures r.None? ==> c !in s
  {
    if s == "" then None
    else if s[|s| - 1] == c then Some(Halves(s[..|s| - 1], ""))
    else
      match SplitLast(s[..|s| - 1], c)
      case None => None
      case Some(h) => Some(Halves(h.before, h.after + [s[|s| - 1]]))
  }

  lemma {:induction false} SplitLastAt(p: string, c: char, rest: string)
    requires c !in rest
    ensures SplitLast(p + [c] + rest, c) == Some(Halves(p, rest))
  {
    var s := p + [c] + rest;
    if rest == "" {
      assert s == p + [c];
    } else {
      SplitLastAt(p, c, rest[..|rest| - 1]);
      assert s[..|s| - 1] == p + [c] + rest[..|rest| - 1];
      assert rest == rest[..|rest| - 1] + [rest[|rest| - 1]];
    }
  }

  // -------------------------------------------------------------------
  // Canonical unsigned decimals.
  // -------------------------------------------------------------------

  const MAX: nat := 0xFFFF_FFFF_FFFF_FFFF

  predicate IsDigit(c: char) {
    '0' <= c <= '9'
  }

  function Digit(d: nat): char
    requires d < 10
  {
    '0' + d as char
  }

  function Print(n: nat): (s: string)
    ensures s != "" && forall k :: 0 <= k < |s| ==> IsDigit(s[k])
  {
    if n < 10 then [Digit(n)] else Print(n / 10) + [Digit(n % 10)]
  }

  function ValueOf(s: string): nat
    requires forall k :: 0 <= k < |s| ==> IsDigit(s[k])
  {
    if s == "" then 0
    else
      assert IsDigit(s[|s| - 1]);
      10 * ValueOf(s[..|s| - 1]) + (s[|s| - 1] as int - '0' as int)
  }

  // An unsigned integer: digits only, no leading zero, within the word.
  function Number(s: string): Option<nat> {
    if s == "" || (|s| > 1 && s[0] == '0') || exists k :: 0 <= k < |s| && !IsDigit(s[k]) then None
    else if ValueOf(s) > MAX then None
    else Some(ValueOf(s))
  }

  // A coordinate: not zero, and with a next value.
  function Positive(s: string): Option<nat> {
    match Number(s)
    case Some(n) => if n == 0 || n == MAX then None else Some(n)
    case None => None
  }

  lemma {:induction false} ValueOfPrint(n: nat)
    ensures ValueOf(Print(n)) == n && (n > 0 ==> Print(n)[0] != '0') && (n < 10 <==> |Print(n)| == 1)
  {
    if n >= 10 {
      ValueOfPrint(n / 10);
      var s := Print(n);
      assert s[..|s| - 1] == Print(n / 10);
    } else {
      assert Print(n)[..0] == "";
    }
  }

  // The `k`th digit from the end is that of ten to the `k`.
  lemma {:induction false} DigitWeights(n: nat, k: nat)
    requires k < |Print(n)|
    ensures Print(n)[|Print(n)| - 1 - k] == '0' + (n / Tens(k) % 10) as char
    decreases k
  {
    if k > 0 {
      DigitWeights(n / 10, k - 1);
      DivideTwice(n, 10, Tens(k - 1));
    }
  }

  function Tens(k: nat): (w: nat)
    ensures w > 0
  {
    if k == 0 then 1 else 10 * Tens(k - 1)
  }

  lemma {:induction false} PrintOfValue(s: string)
    requires s != "" && (forall k :: 0 <= k < |s| ==> IsDigit(s[k])) && (|s| > 1 ==> s[0] != '0')
    ensures Print(ValueOf(s)) == s
    decreases |s|
  {
    var last := (s[|s| - 1] as int - '0' as int);
    var front := s[..|s| - 1];
    if |s| == 1 {
      assert front == "";
      assert ValueOf(s) == last;
    } else {
      PrintOfValue(front);
      assert ValueOf(s) / 10 == ValueOf(front) && ValueOf(s) % 10 == last;
      assert s == front + [s[|s| - 1]];
    }
  }

  // Reading and printing are inverse: every number in the word reads back, and
  // a text that reads is the printed form of what it reads as.
  lemma {:induction false} NumberOfPrint(n: nat)
    requires n <= MAX
    ensures Number(Print(n)) == Some(n)
  {
    ValueOfPrint(n);
  }

  lemma {:induction false} PrintOfNumber(s: string)
    requires Number(s).Some?
    ensures Print(Number(s).value) == s
  {
    PrintOfValue(s);
  }
}
