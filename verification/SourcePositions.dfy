// Source coordinates: one-based lines and character columns on one side, byte
// offsets into the UTF-8 encoding (section 3 of RFC 3629) on the other.
module SourcePositions {
  import opened Common
  import opened Text

  type Byte = b: nat | b < 256

  datatype Position = Position(line: nat, column: nat)

  // -------------------------------------------------------------------
  // The encoding.
  // -------------------------------------------------------------------

  predicate IsContinuation(b: Byte) {
    0x80 <= b < 0xC0
  }

  function Continuation(v: nat): (b: Byte)
    ensures IsContinuation(b)
  {
    0x80 + v % 64
  }

  function EncodeChar(c: char): (r: seq<Byte>)
    ensures 1 <= |r| <= 4 && !IsContinuation(r[0])
    ensures forall k :: 1 <= k < |r| ==> IsContinuation(r[k])
    ensures r[0] == 0x0A <==> c == '\n'
  {
    var v := c as nat;
    if v < 0x80 then [v]
    else if v < 0x800 then [0xC0 + v / 64, Continuation(v)]
    else if v < 0x1_0000 then [0xE0 + v / 0x1000, Continuation(v / 64), Continuation(v)]
    else [0xF0 + v / 0x4_0000, Continuation(v / 0x1000), Continuation(v / 64), Continuation(v)]
  }

  // The number a sequence of bytes stands for by the table of RFC 3629: the bits
  // after each byte's prefix, in a sequence no longer than the number needs, and
  // no number of a surrogate or past the last character.
  function Decoded(b: seq<Byte>): Option<nat> {
    match |b|
    case 1 => if b[0] < 0x80 then Some(b[0]) else None
    case 2 => if 0xC0 <= b[0] < 0xE0 && IsContinuation(b[1]) then InRange(Two(b), 0x80) else None
    case 3 =>
      if 0xE0 <= b[0] < 0xF0 && IsContinuation(b[1]) && IsContinuation(b[2]) then InRange(Three(b), 0x800) else None
    case 4 =>
      if 0xF0 <= b[0] < 0xF8 && IsContinuation(b[1]) && IsContinuation(b[2]) && IsContinuation(b[3])
      then InRange(Four(b), 0x1_0000) else None
    case _ => None
  }

  function Two(b: seq<Byte>): nat
    requires |b| == 2
  {
    More(b[0] % 0x20, b[1])
  }

  function Three(b: seq<Byte>): nat
    requires |b| == 3
  {
    More(More(b[0] % 0x10, b[1]), b[2])
  }

  function Four(b: seq<Byte>): nat
    requires |b| == 4
  {
    More(More(More(b[0] % 0x08, b[1]), b[2]), b[3])
  }

  // Six more bits.
  function More(bits: nat, b: Byte): nat {
    bits * 0x40 + b % 0x40
  }

  function InRange(v: nat, least: nat): Option<nat> {
    if least <= v < 0x11_0000 && !(0xD800 <= v < 0xE000) then Some(v) else None
  }

  lemma {:induction false} MoreOfContinuation(v: nat)
    ensures More(v / 64, Continuation(v)) == v
  {
  }

  lemma {:induction false} ContinuationOfMore(bits: nat, b: Byte)
    requires IsContinuation(b)
    ensures More(bits, b) / 64 == bits && Continuation(More(bits, b)) == b
  {
  }

  lemma {:induction false} LeadBits(v: nat)
    ensures v / 0x1000 == v / 64 / 64 && v / 0x4_0000 == v / 64 / 64 / 64
    ensures v < 0x800 ==> (0xC0 + v / 64) % 0x20 == v / 64
    ensures v < 0x1_0000 ==> (0xE0 + v / 64 / 64) % 0x10 == v / 64 / 64
    ensures v < 0x11_0000 ==> (0xF0 + v / 64 / 64 / 64) % 0x08 == v / 64 / 64 / 64
  {
  }

  // A character's bytes stand for it.
  lemma {:induction false} EncodingIsDecoded(c: char)
    ensures Decoded(EncodeChar(c)) == Some(c as nat)
  {
    var v, b := c as nat, EncodeChar(c);
    LeadBits(v);
    MoreOfContinuation(v);
    MoreOfContinuation(v / 64);
    MoreOfContinuation(v / 64 / 64);
    if |b| == 2 {
      assert Two(b) == v;
    } else if |b| == 3 {
      assert Three(b) == v;
    } else if |b| == 4 {
      assert Four(b) == v;
    }
  }

  lemma {:induction false} MoreIsInjective(x: nat, b: Byte, y: nat, d: Byte)
    requires IsContinuation(b) && IsContinuation(d) && More(x, b) == More(y, d)
    ensures x == y && b == d
  {
    ContinuationOfMore(x, b);
    ContinuationOfMore(y, d);
  }

  lemma {:induction false} MoreIsBelow(x: nat, b: Byte, n: nat)
    requires x < n
    ensures More(x, b) < 0x40 * n
  {
  }

  // The number decides the length.
  lemma {:induction false} LengthIsDecided(b: seq<Byte>, v: nat)
    requires Decoded(b) == Some(v)
    ensures |b| == if v < 0x80 then 1 else if v < 0x800 then 2 else if v < 0x1_0000 then 3 else 4
  {
    if |b| == 2 {
      MoreIsBelow(b[0] % 0x20, b[1], 0x20);
    } else if |b| == 3 {
      MoreIsBelow(b[0] % 0x10, b[1], 0x10);
      MoreIsBelow(More(b[0] % 0x10, b[1]), b[2], 0x400);
    }
  }

  lemma {:induction false} LeadIsDecided(a: Byte, b: Byte)
    ensures 0xC0 <= a < 0xE0 && 0xC0 <= b < 0xE0 && a % 0x20 == b % 0x20 ==> a == b
    ensures 0xE0 <= a < 0xF0 && 0xE0 <= b < 0xF0 && a % 0x10 == b % 0x10 ==> a == b
    ensures 0xF0 <= a < 0xF8 && 0xF0 <= b < 0xF8 && a % 0x08 == b % 0x08 ==> a == b
  {
  }

  // And no other sequence does.
  lemma {:induction false} EncodingIsTheOnlyOne(c: char, b: seq<Byte>)
    requires Decoded(b) == Some(c as nat)
    ensures b == EncodeChar(c)
  {
    EncodingIsDecoded(c);
    var e := EncodeChar(c);
    LengthIsDecided(b, c as nat);
    LengthIsDecided(e, c as nat);
    if |b| == 2 {
      MoreIsInjective(b[0] % 0x20, b[1], e[0] % 0x20, e[1]);
      LeadIsDecided(b[0], e[0]);
    } else if |b| == 3 {
      MoreIsInjective(More(b[0] % 0x10, b[1]), b[2], More(e[0] % 0x10, e[1]), e[2]);
      MoreIsInjective(b[0] % 0x10, b[1], e[0] % 0x10, e[1]);
      LeadIsDecided(b[0], e[0]);
    } else if |b| == 4 {
      MoreIsInjective(More(More(b[0] % 0x08, b[1]), b[2]), b[3], More(More(e[0] % 0x08, e[1]), e[2]), e[3]);
      MoreIsInjective(More(b[0] % 0x08, b[1]), b[2], More(e[0] % 0x08, e[1]), e[2]);
      MoreIsInjective(b[0] % 0x08, b[1], e[0] % 0x08, e[1]);
      LeadIsDecided(b[0], e[0]);
    }
  }

  function Encode(text: string): seq<Byte> {
    if text == "" then [] else EncodeChar(text[0]) + Encode(text[1..])
  }

  // Where the `k`th character begins.
  function Offset(text: string, k: nat): nat
    requires k <= |text|
  {
    |Encode(text[..k])|
  }

  // Whether a slice of the bytes may begin or end at `o`.
  predicate IsCharBoundary(bytes: seq<Byte>, o: nat) {
    o == |bytes| || (o < |bytes| && !IsContinuation(bytes[o]))
  }

  function Newlines(bytes: seq<Byte>): nat {
    if bytes == [] then 0 else Newlines(bytes[1..]) + if bytes[0] == 0x0A then 1 else 0
  }

  // -------------------------------------------------------------------
  // Positions.
  // -------------------------------------------------------------------

  // The position reached after `k` characters.
  function PositionOf(text: string, k: nat): (p: Position)
    requires k <= |text|
    ensures p.line >= 1 && p.column >= 1
  {
    if k == 0 then Position(1, 1)
    else
      var p := PositionOf(text, k - 1);
      if text[k - 1] == '\n' then Position(p.line + 1, 1) else Position(p.line, p.column + 1)
  }

  predicate Before(a: Position, b: Position) {
    a.line < b.line || (a.line == b.line && a.column < b.column)
  }

  predicate IsAt(text: string, k: nat, p: Position) {
    k <= |text| && PositionOf(text, k) == p
  }

  ghost predicate Within(text: string, p: Position) {
    exists k: nat :: IsAt(text, k, p)
  }

  lemma {:induction false} PositionsAscend(text: string, j: nat, k: nat)
    requires j < k <= |text|
    ensures Before(PositionOf(text, j), PositionOf(text, k))
  {
    if j < k - 1 { PositionsAscend(text, j, k - 1); }
  }

  // A stretch without a newline keeps the line and advances the column.
  lemma {:induction false} AlongLine(text: string, k: nat, n: nat)
    requires k + n <= |text| && '\n' !in text[k..k + n]
    ensures PositionOf(text, k + n) == Position(PositionOf(text, k).line, PositionOf(text, k).column + n)
  {
    if n > 0 {
      assert text[k..k + n] == text[k..k + n - 1] + [text[k + n - 1]];
      AlongLine(text, k, n - 1);
    }
  }

  lemma {:induction false} EncodeAppend(a: string, b: string)
    ensures Encode(a + b) == Encode(a) + Encode(b)
  {
    if a == "" {
      assert a + b == b;
    } else {
      EncodeAppend(a[1..], b);
      assert (a + b)[1..] == a[1..] + b && (a + b)[0] == a[0];
      Associates(EncodeChar(a[0]), Encode(a[1..]), Encode(b));
    }
  }

  // -------------------------------------------------------------------
  // From a position to its byte offset.
  // -------------------------------------------------------------------

  // What a position's offset has to be: none for a position outside the text,
  // and the offset of its character otherwise.
  ghost predicate Locates(text: string, position: Position, offset: Option<nat>) {
    && (offset.Some? <==> Within(text, position))
    && (forall k: nat :: IsAt(text, k, position) ==> offset == Some(Offset(text, k)))
  }

  method ByteOffset(text: string, position: Position) returns (offset: Option<nat>)
    ensures Locates(text, position, offset)
  {
    if position.line == 0 || position.column == 0 {
      NotOneBased(text, position);
      return None;
    }
    var lines := Lines(text);
    var base := 0;
    ghost var read := "";
    for index := 0 to |lines|
      invariant 0 <= index <= |lines|
      invariant base == |Encode(read)|
      invariant StandsAt(text, read, lines, index)
      invariant index < position.line
    {
      var line := lines[index];
      if index + 1 == position.line {
        offset := InColumn(base, line, position.column - 1);
        FoundOnLine(text, read, lines, index, position);
        return;
      }
      StepPastLine(text, read, lines, index);
      base := base + |Encode(line)| + 1;
      read := read + line + "\n";
    }
    PastTheEnd(text, read, lines, position);
    return None;
  }

  lemma {:induction false} NotOneBased(text: string, position: Position)
    requires position.line == 0 || position.column == 0
    ensures Locates(text, position, None)
  {
  }

  function InLine(base: nat, line: string, column: nat): Option<nat> {
    if column <= |line| then Some(base + |Encode(line[..column])|) else None
  }

  method InColumn(base: nat, line: string, column: nat) returns (offset: Option<nat>)
    ensures offset == InLine(base, line, column)
  {
    if column == |line| {
      assert line[..column] == line;
      return Some(base + |Encode(line)|);
    }
    return if column < |line| then Some(base + |Encode(line[..column])|) else None;
  }

  // `read` is what stands before line `index`; past the last line, the whole
  // text has been read.
  ghost predicate StandsAt(text: string, read: string, lines: seq<string>, index: nat) {
    && index <= |lines| && (forall k :: 0 <= k < |lines| ==> '\n' !in lines[k])
    && (index < |lines| ==>
          text == read + Join(lines[index..], "\n") && PositionOf(text, |read|) == Position(index + 1, 1))
    && (index == |lines| ==> PositionOf(text, |text|).line == index)
  }

  method Lines(text: string) returns (lines: seq<string>)
    ensures StandsAt(text, "", lines, 0) && |lines| > 0
  {
    lines := Split(text, "\n");
    PartsHoldNoSeparator(text, '\n');
    JoinOfSplit(text, "\n");
    assert lines[0..] == lines;
    assert text == "" + text;
  }

  lemma {:induction false} StepPastLine(text: string, read: string, lines: seq<string>, index: nat)
    requires StandsAt(text, read, lines, index) && index < |lines|
    ensures StandsAt(text, read + lines[index] + "\n", lines, index + 1)
    ensures |Encode(read + lines[index] + "\n")| == |Encode(read)| + |Encode(lines[index])| + 1
  {
    LineEnds(text, read, lines, index);
    EncodeAppend(read, lines[index]);
    EncodeAppend(read + lines[index], "\n");
    assert Encode("\n") == EncodeChar('\n') + Encode("") == EncodeChar('\n');
  }

  lemma {:induction false} FoundOnLine(text: string, read: string, lines: seq<string>, index: nat, position: Position)
    requires StandsAt(text, read, lines, index) && index < |lines|
    requires position.line == index + 1 && position.column >= 1
    ensures Locates(text, position, InLine(|Encode(read)|, lines[index], position.column - 1))
  {
    LineEnds(text, read, lines, index);
    FoundInLine(text, read, lines[index], position);
  }

  lemma {:induction false} FoundInLine(text: string, read: string, line: string, position: Position)
    requires |read| + |line| <= |text| && text[..|read|] == read && text[|read|..|read| + |line|] == line
    requires '\n' !in line && (|read| + |line| < |text| ==> text[|read| + |line|] == '\n')
    requires PositionOf(text, |read|) == Position(position.line, 1) && position.column >= 1
    ensures Locates(text, position, InLine(|Encode(read)|, line, position.column - 1))
  {
    var column := position.column - 1;
    OnLine(text, |read|, |line|, position);
    if column <= |line| {
      OffsetOnLine(text, read, line, column);
      LocatedAt(text, |read| + column, position);
    } else {
      LocatedNowhere(text, position);
    }
  }

  lemma {:induction false} LocatedNowhere(text: string, position: Position)
    requires !Within(text, position)
    ensures Locates(text, position, None)
  {
  }

  lemma {:induction false} LocatedAt(text: string, k: nat, position: Position)
    requires IsAt(text, k, position)
    ensures Locates(text, position, Some(Offset(text, k)))
  {
    OnlyAt(text, k);
  }

  lemma {:induction false} OffsetOnLine(text: string, read: string, line: string, column: nat)
    requires |read| + |line| <= |text| && text[..|read|] == read && text[|read|..|read| + |line|] == line
    requires column <= |line|
    ensures InLine(|Encode(read)|, line, column) == Some(Offset(text, |read| + column))
  {
    assert text[..|read| + column] == read + line[..column];
    EncodeAppend(read, line[..column]);
  }

  // A line is followed by the end of the text, or by a newline and the rest.
  lemma {:induction false} LineEnds(text: string, read: string, lines: seq<string>, index: nat)
    requires StandsAt(text, read, lines, index) && index < |lines|
    ensures text[..|read|] == read && '\n' !in lines[index]
    ensures var end := |read| + |lines[index]|;
            && end <= |text| && text[|read|..end] == lines[index]
            && PositionOf(text, end).line == PositionOf(text, |read|).line
            && (index + 1 == |lines| ==> end == |text|)
            && (index + 1 < |lines| ==>
                  && end < |text| && text[end] == '\n'
                  && text == read + lines[index] + "\n" + Join(lines[index + 1..], "\n"))
  {
    var line := lines[index];
    var end := |read| + |line|;
    assert lines[index..][0] == line && lines[index..][1..] == lines[index + 1..];
    assert text[|read|..end] == line;
    AlongLine(text, |read|, |line|);
    if index + 1 < |lines| {
      assert text == read + (line + "\n" + Join(lines[index + 1..], "\n"));
      assert text == read + line + "\n" + Join(lines[index + 1..], "\n");
    }
  }

  // The positions of a line are exactly those of its characters and its end.
  lemma {:induction false} OnLine(text: string, start: nat, n: nat, position: Position)
    requires start + n <= |text| && '\n' !in text[start..start + n]
    requires start + n < |text| ==> text[start + n] == '\n'
    requires PositionOf(text, start) == Position(position.line, 1) && position.column >= 1
    ensures position.column - 1 <= n ==> PositionOf(text, start + (position.column - 1)) == position
    ensures position.column - 1 > n ==> !Within(text, position)
  {
    var column := position.column - 1;
    if column <= n {
      assert text[start..start + n][..column] == text[start..start + column];
      AlongLine(text, start, column);
    } else {
      forall k: nat | k <= |text| ensures !IsAt(text, k, position) {
        OffLine(text, start, n, position, k);
      }
    }
  }

  lemma {:induction false} OffLine(text: string, start: nat, n: nat, position: Position, k: nat)
    requires start + n <= |text| && '\n' !in text[start..start + n]
    requires start + n < |text| ==> text[start + n] == '\n'
    requires PositionOf(text, start) == Position(position.line, 1) && position.column - 1 > n && k <= |text|
    ensures PositionOf(text, k) != position
  {
    if k < start {
      PositionsAscend(text, k, start);
    } else if k <= start + n {
      assert text[start..start + n][..k - start] == text[start..k];
      AlongLine(text, start, k - start);
    } else {
      AlongLine(text, start, n);
      if start + n + 1 < k { PositionsAscend(text, start + n + 1, k); }
    }
  }

  lemma {:induction false} OnlyAt(text: string, k: nat)
    requires k <= |text|
    ensures IsAt(text, k, PositionOf(text, k))
    ensures forall j: nat :: IsAt(text, j, PositionOf(text, k)) ==> j == k
  {
    forall j: nat | j <= |text| && j != k ensures !IsAt(text, j, PositionOf(text, k)) {
      if j < k { PositionsAscend(text, j, k); } else { PositionsAscend(text, k, j); }
    }
  }

  lemma {:induction false} PastTheEnd(text: string, read: string, lines: seq<string>, position: Position)
    requires StandsAt(text, read, lines, |lines|) && position.line > |lines|
    ensures Locates(text, position, None)
  {
    forall k: nat | k <= |text| ensures !IsAt(text, k, position) {
      if k < |text| { PositionsAscend(text, k, |text|); }
    }
  }

  // -------------------------------------------------------------------
  // The offsets of positions are the character boundaries, in order.
  // -------------------------------------------------------------------

  lemma {:induction false} OffsetsAscend(text: string, j: nat, k: nat)
    requires j <= k <= |text|
    ensures Offset(text, j) <= Offset(text, k) <= |Encode(text)|
    ensures j < k ==> Offset(text, j) < Offset(text, k)
  {
    assert text[..k] == text[..j] + text[j..k];
    EncodeAppend(text[..j], text[j..k]);
    assert text == text[..k] + text[k..];
    EncodeAppend(text[..k], text[k..]);
  }

  // A later position has the greater offset, and conversely.
  lemma {:induction false} OffsetsFollowPositions(text: string, j: nat, k: nat)
    requires j <= |text| && k <= |text|
    ensures Before(PositionOf(text, j), PositionOf(text, k)) <==> Offset(text, j) < Offset(text, k)
    ensures PositionOf(text, j) == PositionOf(text, k) <==> Offset(text, j) == Offset(text, k)
  {
    if j < k {
      PositionsAscend(text, j, k);
      OffsetsAscend(text, j, k);
    } else if k < j {
      PositionsAscend(text, k, j);
      OffsetsAscend(text, k, j);
    }
  }

  lemma {:induction false} OffsetBeginsCharacter(text: string, k: nat)
    requires k <= |text|
    ensures IsCharBoundary(Encode(text), Offset(text, k))
  {
    assert text == text[..k] + text[k..];
    EncodeAppend(text[..k], text[k..]);
    if k < |text| {
      assert Encode(text)[Offset(text, k)] == Encode(text[k..])[0] == EncodeChar(text[k])[0];
    }
  }

  // Every boundary is the offset of a position.
  lemma {:induction false} BoundaryIsOffset(text: string, o: nat) returns (k: nat)
    requires IsCharBoundary(Encode(text), o)
    ensures k <= |text| && Offset(text, k) == o
  {
    if o == 0 {
      k := 0;
    } else {
      var first := EncodeChar(text[0]);
      assert forall i :: 1 <= i < |first| ==> IsContinuation(Encode(text)[i]);
      assert o < |Encode(text)| ==> Encode(text)[o] == Encode(text[1..])[o - |first|];
      k := BoundaryIsOffset(text[1..], o - |first|);
      k := k + 1;
      assert text[..k][0] == text[0] && text[..k][1..] == text[1..][..k - 1];
    }
  }

  lemma {:induction false} NewlinesAppend(a: seq<Byte>, b: seq<Byte>)
    ensures Newlines(a + b) == Newlines(a) + Newlines(b)
  {
    if a == [] {
      assert a + b == b;
    } else {
      NewlinesAppend(a[1..], b);
      assert (a + b)[1..] == a[1..] + b;
    }
  }

  lemma {:induction false} NoNewlineInContinuations(bytes: seq<Byte>)
    requires forall k :: 0 <= k < |bytes| ==> IsContinuation(bytes[k])
    ensures Newlines(bytes) == 0
  {
    if bytes != [] { NoNewlineInContinuations(bytes[1..]); }
  }

  // The line is one more than the newline bytes before the offset.
  lemma {:induction false} LineCountsNewlines(text: string, k: nat)
    requires k <= |text|
    ensures Offset(text, k) <= |Encode(text)|
    ensures PositionOf(text, k).line == 1 + Newlines(Encode(text)[..Offset(text, k)])
  {
    OffsetsAscend(text, k, k);
    assert text == text[..k] + text[k..];
    EncodeAppend(text[..k], text[k..]);
    assert Encode(text)[..Offset(text, k)] == Encode(text[..k]);
    if k > 0 {
      LineCountsNewlines(text, k - 1);
      assert text == text[..k - 1] + text[k - 1..];
      EncodeAppend(text[..k - 1], text[k - 1..]);
      assert Encode(text)[..Offset(text, k - 1)] == Encode(text[..k - 1]);
      var c := text[k - 1];
      assert text[..k] == text[..k - 1] + [c];
      EncodeAppend(text[..k - 1], [c]);
      assert Encode([c]) == EncodeChar(c) + Encode("") == EncodeChar(c);
      NewlinesAppend(Encode(text[..k - 1]), EncodeChar(c));
      NoNewlineInContinuations(EncodeChar(c)[1..]);
    }
  }
}
