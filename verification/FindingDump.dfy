// The dump of a corpus: which diagnostics it refuses, the order and the records
// it gives the rest, and that all of them pass their checks when they come back.
module FindingDump {
  import opened Common
  import opened Text
  import opened SourcePositions
  import opened StableSort
  import opened FindingIds

  // The path is as reported, with the workspace's own directory taken off; so
  // are the paths in the message.
  datatype Diagnostic = Diagnostic(
    severity: string, code: Option<string>, lint: Option<string>, message: string,
    path: string, start: Position, end: Position)

  // A workspace's directory name, whether its manifest has a lints table
  // already, whether its check fails, what that reported, and its files.
  datatype Workspace = Workspace(
    name: string, hasLints: bool, checkFails: bool, diagnostics: seq<Diagnostic>, texts: map<string, string>)

  // -------------------------------------------------------------------
  // Reading one workspace's diagnostics.
  // -------------------------------------------------------------------

  // A diagnostic no corpus may draw.
  predicate Fatal(d: Diagnostic) {
    d.severity == "error" || d.code == Some("MANI-010")
  }

  predicate OfLints(d: Diagnostic, checks: seq<string>) {
    d.lint.Some? && d.lint.value in checks
  }

  // The diagnostics of the checks that are calibrated.
  function Calibrated(diagnostics: seq<Diagnostic>, checks: seq<string>): seq<Diagnostic> {
    if diagnostics == [] then []
    else
      var d := diagnostics[|diagnostics| - 1];
      Calibrated(diagnostics[..|diagnostics| - 1], checks) + if OfLints(d, checks) then [d] else []
  }

  // A span of the text, as a diagnostic gives it.
  ghost predicate Spans(text: string, d: Diagnostic, j: nat, k: nat) {
    IsAt(text, j, d.start) && IsAt(text, k, d.end) && j <= k
  }

  // Its path stays in the workspace, holds no delimiter and becomes that of a
  // file, its span lies in the text and ends no earlier than it starts, and its
  // message has the metric of its check.
  ghost predicate Readable(d: Diagnostic, read: Reader, texts: map<string, string>) {
    && d.lint.Some? && RelativePath(d.path).Some? && RelativePath(d.path).value in texts
    && (exists j: nat, k: nat :: Spans(texts[RelativePath(d.path).value], d, j, k))
    && read(d.lint.value, d.message).Some?
  }

  ghost predicate RawOf(d: Diagnostic, read: Reader, texts: map<string, string>, raw: Raw) {
    && d.lint == Some(raw.key.check) && RelativePath(d.path) == Some(raw.key.path) && raw.key.path in texts
    && raw.line == d.start.line && raw.message == d.message && read(raw.key.check, d.message) == Some(raw.metric)
    && exists j: nat, k: nat :: Spans(texts[raw.key.path], d, j, k)
         && raw.key.start == Offset(texts[raw.key.path], j) && raw.key.end == Offset(texts[raw.key.path], k)
  }

  ghost predicate RawsOf(diagnostics: seq<Diagnostic>, read: Reader, texts: map<string, string>, raws: seq<Raw>) {
    && |raws| == |diagnostics|
    && forall k: nat :: k < |raws| ==>
         Readable(diagnostics[k], read, texts) && RawOf(diagnostics[k], read, texts, raws[k])
  }

  // The diagnostics of a workspace can all be read.
  ghost predicate AllReadable(
    diagnostics: seq<Diagnostic>, checks: seq<string>, read: Reader, texts: map<string, string>) {
    && (forall d :: d in diagnostics ==> !Fatal(d))
    && (forall d :: d in Calibrated(diagnostics, checks) ==> Readable(d, read, texts))
  }

  method ReadOne(check: string, d: Diagnostic, read: Reader, texts: map<string, string>) returns (raw: Option<Raw>)
    requires d.lint == Some(check)
    ensures raw.Some? <==> Readable(d, read, texts)
    ensures raw.Some? ==> RawOf(d, read, texts, raw.value)
  {
    var path := RelativePath(d.path);
    if path.None? || path.value !in texts {
      return None;
    }
    var text := texts[path.value];
    var start := ByteOffset(text, d.start);
    var end := ByteOffset(text, d.end);
    if start.None? || end.None? {
      return None;
    }
    ghost var j: nat :| IsAt(text, j, d.start);
    ghost var k: nat :| IsAt(text, k, d.end);
    SpanIsOrdered(text, d, j, k);
    if start.value > end.value {
      return None;
    }
    var metric := read(check, d.message);
    if metric.None? {
      return None;
    }
    raw := Some(Raw(Key(check, path.value, start.value, end.value), d.start.line, d.message, metric.value));
  }

  // The offsets decide whether a span is reversed.
  lemma {:induction false} SpanIsOrdered(text: string, d: Diagnostic, j: nat, k: nat)
    requires IsAt(text, j, d.start) && IsAt(text, k, d.end)
    ensures (exists j': nat, k': nat :: Spans(text, d, j', k')) <==> Offset(text, j) <= Offset(text, k)
    ensures Offset(text, j) <= Offset(text, k) ==> Spans(text, d, j, k)
  {
    OnlyAt(text, j);
    OnlyAt(text, k);
    assert forall j', k' :: Spans(text, d, j', k') ==> j' == j && k' == k;
    if j <= k {
      OffsetsAscend(text, j, k);
      assert Spans(text, d, j, k);
    } else {
      OffsetsAscend(text, k, j);
    }
  }

  method ReadDiagnostics(
    diagnostics: seq<Diagnostic>, checks: seq<string>, read: Reader, texts: map<string, string>)
    returns (raws: Option<seq<Raw>>)
    ensures raws.Some? <==> AllReadable(diagnostics, checks, read, texts)
    ensures raws.Some? ==> RawsOf(Calibrated(diagnostics, checks), read, texts, raws.value)
  {
    var done: seq<Raw> := [];
    for k := 0 to |diagnostics|
      invariant forall d :: d in diagnostics[..k] ==> !Fatal(d)
      invariant RawsOf(Calibrated(diagnostics[..k], checks), read, texts, done)
    {
      assert diagnostics[..k + 1][..k] == diagnostics[..k];
      var d := diagnostics[k];
      if d.severity == "error" || d.code == Some("MANI-010") {
        assert d in diagnostics && Fatal(d);
        return None;
      }
      if d.lint.Some? && d.lint.value in checks {
        var raw := ReadOne(d.lint.value, d, read, texts);
        if raw.None? {
          CalibratedPrefix(diagnostics, checks, k + 1, d);
          return None;
        }
        done := done + [raw.value];
      } else {
        assert Calibrated(diagnostics[..k], checks) + [] == Calibrated(diagnostics[..k], checks);
      }
    }
    assert diagnostics[..|diagnostics|] == diagnostics;
    forall d | d in Calibrated(diagnostics, checks) ensures Readable(d, read, texts) {
      var k :| 0 <= k < |done| && Calibrated(diagnostics, checks)[k] == d;
    }
    raws := Some(done);
  }

  lemma {:induction false} CalibratedPrefix(diagnostics: seq<Diagnostic>, checks: seq<string>, k: nat, d: Diagnostic)
    requires k <= |diagnostics| && d in Calibrated(diagnostics[..k], checks)
    ensures d in Calibrated(diagnostics, checks)
    decreases |diagnostics| - k
  {
    if k < |diagnostics| {
      assert diagnostics[..k + 1][..k] == diagnostics[..k];
      CalibratedPrefix(diagnostics, checks, k + 1, d);
    } else {
      assert diagnostics[..k] == diagnostics;
    }
  }

  // -------------------------------------------------------------------
  // The order of the records.
  // -------------------------------------------------------------------

  // By check, path, start and end.
  predicate KeyLess(a: Key, b: Key) {
    Less(a.check, b.check) ||
    (a.check == b.check &&
     (Less(a.path, b.path) ||
      (a.path == b.path && (a.start < b.start || (a.start == b.start && a.end < b.end)))))
  }

  const BY_KEY: (Raw, Raw) -> bool := (a: Raw, b: Raw) => KeyLess(a.key, b.key)

  function SortRaws(raws: seq<Raw>): seq<Raw> {
    Sort(BY_KEY, raws)
  }

  // The records of one key, in order.
  function OfKey(raws: seq<Raw>, key: Key): seq<Raw> {
    if raws == [] then []
    else (if raws[0].key == key then [raws[0]] else []) + OfKey(raws[1..], key)
  }

  lemma {:induction false} KeyLessTotal(a: Key, b: Key)
    ensures a == b || KeyLess(a, b) || KeyLess(b, a)
  {
    LessTotal(a.check, b.check);
    LessTotal(a.path, b.path);
  }

  lemma {:induction false} LessIrreflexive(a: string)
    ensures !Less(a, a)
  {
    if a != "" { LessIrreflexive(a[1..]); }
  }

  lemma {:induction false} LessAsymmetric(a: string, b: string)
    ensures !(Less(a, b) && Less(b, a))
  {
    LessIrreflexive(a);
    if Less(a, b) && Less(b, a) { LessTransitive(a, b, a); }
  }

  lemma {:induction false} KeyLessTransitive(a: Key, b: Key, c: Key)
    requires KeyLess(a, b) && KeyLess(b, c)
    ensures KeyLess(a, c)
  {
    if Less(a.check, b.check) && Less(b.check, c.check) { LessTransitive(a.check, b.check, c.check); }
    if Less(a.path, b.path) && Less(b.path, c.path) { LessTransitive(a.path, b.path, c.path); }
  }

  lemma {:induction false} KeyLessAsymmetric(a: Key, b: Key)
    requires KeyLess(a, b)
    ensures !KeyLess(b, a) && a != b
  {
    LessAsymmetric(a.check, b.check);
    LessAsymmetric(a.path, b.path);
    LessIrreflexive(a.check);
    LessIrreflexive(a.path);
  }

  lemma {:induction false} KeysAreOrdered()
    ensures Orders(BY_KEY)
  {
    forall a, b | BY_KEY(a, b) ensures !BY_KEY(b, a) {
      KeyLessAsymmetric(a.key, b.key);
    }
    forall a, b, c | !BY_KEY(a, b) && !BY_KEY(b, c) ensures !BY_KEY(a, c) {
      KeyLessTotal(b.key, a.key);
      KeyLessTotal(c.key, b.key);
      if BY_KEY(b, a) && BY_KEY(c, b) { KeyLessTransitive(c.key, b.key, a.key); }
      if BY_KEY(a, c) { KeyLessAsymmetric(a.key, c.key); }
    }
  }

  lemma {:induction false} OfKeyIsAlike(raws: seq<Raw>, raw: Raw)
    ensures Alike(BY_KEY, raws, raw) == OfKey(raws, raw.key)
  {
    if raws != [] {
      OfKeyIsAlike(raws[1..], raw);
      KeyLessTotal(raws[0].key, raw.key);
      if BY_KEY(raws[0], raw) { KeyLessAsymmetric(raws[0].key, raw.key); }
      if BY_KEY(raw, raws[0]) { KeyLessAsymmetric(raw.key, raws[0].key); }
    }
  }

  // No check after its own, within a check no path after its own, within a path
  // no start after its own, and within a start no end.
  predicate InOrder(a: Key, b: Key) {
    && !Less(b.check, a.check)
    && (a.check == b.check ==> !Less(b.path, a.path))
    && (a.check == b.check && a.path == b.path ==> a.start <= b.start)
    && (a.check == b.check && a.path == b.path && a.start == b.start ==> a.end <= b.end)
  }

  lemma {:induction false} SortedPair(raws: seq<Raw>, i: nat, j: nat)
    requires i < j < |SortRaws(raws)|
    ensures InOrder(SortRaws(raws)[i].key, SortRaws(raws)[j].key)
  {
    KeysAreOrdered();
    SortIsSorted(BY_KEY, raws);
    var a, b := SortRaws(raws)[i], SortRaws(raws)[j];
    assert !BY_KEY(b, a);
  }

  // The records come in the order of their keys, and those of one key in the
  // order the diagnostics had: nothing is lost, added or exchanged.
  lemma {:induction false} SortIsStable(raws: seq<Raw>, key: Key)
    ensures OfKey(SortRaws(raws), key) == OfKey(raws, key)
    ensures forall i, j :: 0 <= i < j < |SortRaws(raws)| ==> InOrder(SortRaws(raws)[i].key, SortRaws(raws)[j].key)
  {
    forall i, j | 0 <= i < j < |SortRaws(raws)| ensures InOrder(SortRaws(raws)[i].key, SortRaws(raws)[j].key) {
      SortedPair(raws, i, j);
    }
    var raw := Raw(key, 0, "", None);
    KeysAreOrdered();
    SortIsSorted(BY_KEY, raws);
    SortKeeps(BY_KEY, raws, raw);
    OfKeyIsAlike(raws, raw);
    OfKeyIsAlike(SortRaws(raws), raw);
  }

  // -------------------------------------------------------------------
  // The dump.
  // -------------------------------------------------------------------

  // One workspace's records: read, sorted, numbered and filed.
  method RecordsFromJson(w: Workspace, checks: seq<string>, read: Reader)
    returns (records: Option<map<string, seq<Finding>>>, ghost raws: seq<Raw>)
    ensures records.Some? <==> AllReadable(w.diagnostics, checks, read, w.texts)
    ensures records.Some? ==> RawsOf(Calibrated(w.diagnostics, checks), read, w.texts, raws)
    ensures records.Some? ==> Filed(w.name, SortRaws(raws), checks, records.value)
  {
    raws := [];
    var done := ReadDiagnostics(w.diagnostics, checks, read, w.texts);
    if done.None? {
      return None, [];
    }
    raws := done.value;
    var sorted := SortRaws(done.value);
    forall k | 0 <= k < |sorted| ensures sorted[k].key.check in checks {
      SortMembers(BY_KEY, raws, sorted[k]);
      var i :| 0 <= i < |raws| && raws[i] == sorted[k];
      CalibratedMember(w.diagnostics, checks, Calibrated(w.diagnostics, checks)[i]);
    }
    var filed := FileRecords(w.name, sorted, checks);
    records := Some(filed);
  }

  lemma {:induction false} CalibratedMember(diagnostics: seq<Diagnostic>, checks: seq<string>, d: Diagnostic)
    requires d in Calibrated(diagnostics, checks)
    ensures d in diagnostics && OfLints(d, checks)
  {
    var front, last := diagnostics[..|diagnostics| - 1], diagnostics[|diagnostics| - 1];
    if d in Calibrated(front, checks) { CalibratedMember(front, checks, d); }
  }

  function BatchesFor(workspaces: seq<Workspace>, read: seq<seq<Raw>>, check: string): (r: seq<Batch>)
    requires |read| == |workspaces|
    ensures |r| == |workspaces|
    ensures forall i: nat :: i < |r| ==> r[i] == Batch(workspaces[i].name, OfCheck(SortRaws(read[i]), check))
  {
    seq(|workspaces|, i requires 0 <= i < |workspaces| => Batch(workspaces[i].name, OfCheck(SortRaws(read[i]), check)))
  }

  // A workspace whose name holds no delimiter, whose manifest leaves the lints
  // to the dump, and whose check passes with diagnostics that can be read.
  ghost predicate Dumpable(w: Workspace, checks: seq<string>, read: Reader) {
    ':' !in w.name && !w.hasLints && !w.checkFails && AllReadable(w.diagnostics, checks, read, w.texts)
  }

  // What a dump holds of the workspaces and of the diagnostics read from them.
  ghost predicate IsDump(
    workspaces: seq<Workspace>, checks: seq<string>, read: Reader, raws: seq<seq<Raw>>, all: map<string, seq<Finding>>)
  {
    && |raws| == |workspaces| && (forall i: nat :: i < |workspaces| ==> Dumpable(workspaces[i], checks, read))
    && (forall i: nat :: i < |raws| ==>
          RawsOf(Calibrated(workspaces[i].diagnostics, checks), read, workspaces[i].texts, raws[i]))
    && (forall c :: c in checks <==> c in all)
    && (forall c :: c in checks ==> all[c] == Dumped(BatchesFor(workspaces, raws, c)))
  }

  method DumpCorpus(workspaces: seq<Workspace>, checks: seq<string>, read: Reader)
    returns (all: Option<map<string, seq<Finding>>>, ghost raws: seq<seq<Raw>>)
    ensures all.Some? <==>
              workspaces != [] && forall i: nat :: i < |workspaces| ==> Dumpable(workspaces[i], checks, read)
    ensures all.Some? ==> IsDump(workspaces, checks, read, raws, all.value)
  {
    raws := [];
    if workspaces == [] {
      return None, [];
    }
    var filed: map<string, seq<Finding>> := map c | c in checks :: [];
    for i := 0 to |workspaces|
      invariant 0 <= i <= |workspaces|
      invariant IsDump(workspaces[..i], checks, read, raws, filed)
    {
      var w := workspaces[i];
      if ':' in w.name || w.hasLints || w.checkFails {
        return None, [];
      }
      ghost var done;
      var records;
      records, done := RecordsFromJson(w, checks, read);
      if records.None? {
        return None, [];
      }
      DumpOneMore(workspaces, checks, read, raws, filed, i, done, records.value);
      filed := map c | c in checks :: filed[c] + records.value[c];
      raws := raws + [done];
    }
    assert workspaces[..|workspaces|] == workspaces;
    all := Some(filed);
  }

  lemma {:induction false} DumpedSnoc(batches: seq<Batch>, b: Batch)
    ensures Dumped(batches + [b]) == Dumped(batches) + Records(b.workspace, b.raws)
  {
    if batches == [] {
      assert [] + [b] == [b] && [b][1..] == [];
      assert Dumped([b]) == Records(b.workspace, b.raws) + Dumped([]);
    } else {
      assert (batches + [b])[0] == batches[0] && (batches + [b])[1..] == batches[1..] + [b];
      DumpedSnoc(batches[1..], b);
    }
  }

  lemma {:induction false} DumpOneMore(
    workspaces: seq<Workspace>, checks: seq<string>, read: Reader, raws: seq<seq<Raw>>,
    filed: map<string, seq<Finding>>, i: nat, done: seq<Raw>, records: map<string, seq<Finding>>)
    requires i < |workspaces| && IsDump(workspaces[..i], checks, read, raws, filed)
    requires Dumpable(workspaces[i], checks, read)
    requires RawsOf(Calibrated(workspaces[i].diagnostics, checks), read, workspaces[i].texts, done)
    requires Filed(workspaces[i].name, SortRaws(done), checks, records)
    ensures IsDump(workspaces[..i + 1], checks, read, raws + [done], map c | c in checks :: filed[c] + records[c])
  {
    var front, next := workspaces[..i], workspaces[..i + 1];
    assert next == front + [workspaces[i]];
    forall c | c in checks ensures filed[c] + records[c] == Dumped(BatchesFor(next, raws + [done], c)) {
      BatchesOneMore(front, raws, workspaces[i], done, c);
    }
  }

  lemma {:induction false} BatchesOneMore(
    workspaces: seq<Workspace>, raws: seq<seq<Raw>>, w: Workspace, done: seq<Raw>, check: string)
    requires |raws| == |workspaces|
    ensures Dumped(BatchesFor(workspaces + [w], raws + [done], check)) ==
            Dumped(BatchesFor(workspaces, raws, check)) + Records(w.name, OfCheck(SortRaws(done), check))
  {
    var before, b := BatchesFor(workspaces, raws, check), Batch(w.name, OfCheck(SortRaws(done), check));
    assert BatchesFor(workspaces + [w], raws + [done], check) == before + [b];
    DumpedSnoc(before, b);
  }

  // -------------------------------------------------------------------
  // What is dumped, when it comes back.
  // -------------------------------------------------------------------

  // The sizes that machine integers bound.
  ghost predicate WithinWord(w: Workspace) {
    |w.diagnostics| <= MAX && forall path :: path in w.texts ==> |Encode(w.texts[path])| <= MAX
  }

  // The file a finding's ID names.
  function FileOf(f: Finding): Option<string> {
    var parts := Split(f.id, ":");
    if |parts| == 5 then RelativePath(parts[2]) else None
  }

  predicate ValidatesIn(check: string, f: Finding, read: Reader, w: Workspace) {
    && f.workspace == w.name && FileOf(f).Some? && FileOf(f).value in w.texts
    && Validates(check, f, read, w.texts[FileOf(f).value])
  }

  lemma {:induction false} CalibratedLength(diagnostics: seq<Diagnostic>, checks: seq<string>)
    ensures |Calibrated(diagnostics, checks)| <= |diagnostics|
  {
    if diagnostics != [] { CalibratedLength(diagnostics[..|diagnostics| - 1], checks); }
  }

  lemma {:induction false} OfCheckMember(raws: seq<Raw>, check: string, raw: Raw)
    requires raw in OfCheck(raws, check)
    ensures raw in raws && raw.key.check == check
  {
    var front, last := raws[..|raws| - 1], raws[|raws| - 1];
    if raw in OfCheck(front, check) { OfCheckMember(front, check, raw); }
  }

  lemma {:induction false} OfCheckLength(raws: seq<Raw>, check: string)
    ensures |OfCheck(raws, check)| <= |raws|
  {
    if raws != [] { OfCheckLength(raws[..|raws| - 1], check); }
  }

  // A record comes from a diagnostic of its check, read from a file.
  lemma {:induction false} RecordIsRead(
    w: Workspace, checks: seq<string>, read: Reader, raws: seq<Raw>, check: string, raw: Raw)
    returns (d: Diagnostic)
    requires RawsOf(Calibrated(w.diagnostics, checks), read, w.texts, raws) && raw in OfCheck(SortRaws(raws), check)
    ensures d in w.diagnostics && RawOf(d, read, w.texts, raw) && raw.key.check == check
  {
    OfCheckMember(SortRaws(raws), check, raw);
    SortMembers(BY_KEY, raws, raw);
    var i: nat :| i < |raws| && raws[i] == raw;
    d := Calibrated(w.diagnostics, checks)[i];
    CalibratedMember(w.diagnostics, checks, d);
  }

  // What a diagnostic needs of itself and of its workspace for its record to
  // pass: no backslash in the workspace's name, a path that with slashes for
  // backslashes is still inside the workspace, a message that says something
  // and a metric the search can reach. The dump checks none of them.
  predicate ComesBack(w: Workspace, d: Diagnostic, read: Reader) {
    && '\\' !in w.name && Inside(Slashed(d.path)) && !Blank(d.message)
    && (d.lint.Some? && read(d.lint.value, d.message).Some? ==> Searchable(read(d.lint.value, d.message).value))
  }

  lemma {:induction false} ReadRecordValidates(w: Workspace, d: Diagnostic, read: Reader, raw: Raw, occurrence: nat)
    requires RawOf(d, read, w.texts, raw) && WithinWord(w) && occurrence <= MAX
    requires IsName(w.name) && ':' !in w.name && ':' !in raw.key.check
    ensures ValidatesIn(raw.key.check, Record(w.name, raw, occurrence), read, w) <==> ComesBack(w, d, read)
  {
    var text, path := w.texts[raw.key.path], raw.key.path;
    var j: nat, k: nat :| Spans(text, d, j, k) && raw.key.start == Offset(text, j) && raw.key.end == Offset(text, k);
    DumpedFindingValidates(w.name, raw.key.check, d.path, text, j, k, d.message, occurrence, read);
    PathStandsForItself(d.path);
    IdReadsBack(w.name, raw.key, occurrence);
    assert raw == Raw(Key(raw.key.check, path, Offset(text, j), Offset(text, k)), PositionOf(text, j).line,
                      d.message, read(raw.key.check, d.message).value);
  }

  // A finding of a dump is made of a diagnostic of its workspace, and passes the
  // checks made of it when it comes back exactly when that diagnostic does.
  lemma {:induction false} DumpedFindingComesBackIff(
    workspaces: seq<Workspace>, checks: seq<string>, read: Reader, raws: seq<seq<Raw>>, all: map<string, seq<Finding>>,
    check: string, p: nat) returns (i: nat, d: Diagnostic)
    requires IsDump(workspaces, checks, read, raws, all) && check in checks && p < |all[check]| && ':' !in check
    requires forall w :: w in workspaces ==> IsName(w.name) && WithinWord(w)
    ensures i < |workspaces| && all[check][p].workspace == workspaces[i].name
    ensures d in workspaces[i].diagnostics && d.lint == Some(check) && d.message == all[check][p].message
    ensures ValidatesIn(check, all[check][p], read, workspaces[i]) <==> ComesBack(workspaces[i], d, read)
  {
    var batches := BatchesFor(workspaces, raws, check);
    var k;
    i, k := DumpedFrom(batches, p);
    var w, made := workspaces[i], batches[i].raws;
    assert w in workspaces && made[k] in made;
    d := RecordIsRead(w, checks, read, raws[i], check, made[k]);
    CalibratedLength(w.diagnostics, checks);
    OfCheckLength(SortRaws(raws[i]), check);
    SortMembers(BY_KEY, raws[i], made[k]);
    ReadRecordValidates(w, d, read, made[k], Occurrence(made[..k], made[k].key));
  }

  // Where no name or path of a corpus holds a backslash, no message is blank and
  // no metric below the start of the search, every finding of a dump passes.
  lemma {:induction false} EveryDumpedFindingValidates(
    workspaces: seq<Workspace>, checks: seq<string>, read: Reader, raws: seq<seq<Raw>>, all: map<string, seq<Finding>>,
    check: string, p: nat) returns (i: nat)
    requires IsDump(workspaces, checks, read, raws, all) && check in checks && p < |all[check]| && ':' !in check
    requires forall w :: w in workspaces ==> IsName(w.name) && WithinWord(w)
    requires forall w, d :: w in workspaces && d in w.diagnostics ==> ComesBack(w, d, read)
    ensures i < |workspaces| && ValidatesIn(check, all[check][p], read, workspaces[i])
  {
    var d;
    i, d := DumpedFindingComesBackIff(workspaces, checks, read, raws, all, check, p);
    assert workspaces[i] in workspaces;
  }

  // A workspace named `a\b` and a diagnostic at the start of its one file.
  const BACKSLASH_NAMED := Workspace("a\\b", false, false, [AT_START], map["p" := ""])

  const AT_START := Diagnostic("warning", None, Some("c"), "m", "p", Position(1, 1), Position(1, 1))

  // It is dumped, and none of its findings passes.
  lemma {:induction false} BackslashNameFails(occurrence: nat, read: Reader)
    requires read("c", "m") == Some(None) && occurrence <= MAX
    ensures IsName(BACKSLASH_NAMED.name) && Dumpable(BACKSLASH_NAMED, ["c"], read)
    ensures forall raw :: RawOf(AT_START, read, BACKSLASH_NAMED.texts, raw) ==>
              !ValidatesIn("c", Record("a\\b", raw, occurrence), read, BACKSLASH_NAMED)
  {
    var w := BACKSLASH_NAMED;
    NothingToSplit("p", "/", 0);
    assert Split("p", "/") == ["p"];
    SlashedIsSame("p");
    assert Calibrated(w.diagnostics[..0], ["c"]) == [];
    assert Calibrated(w.diagnostics, ["c"]) == [AT_START];
    assert w.name[0] != '/' && w.name[1] != '/' && w.name[2] != '/' && w.name[1] == '\\';
    var zero: nat := 0;
    assert Spans("", AT_START, zero, zero);
    assert Readable(AT_START, read, w.texts);
    assert Encode("") == [];
    forall raw | RawOf(AT_START, read, w.texts, raw)
      ensures !ValidatesIn("c", Record("a\\b", raw, occurrence), read, w)
    {
      ReadRecordValidates(w, AT_START, read, raw, occurrence);
    }
  }

  // And the IDs of each check are distinct, their occurrences contiguous.
  lemma {:induction false} DumpedChecksAreAcceptable(
    workspaces: seq<Workspace>, checks: seq<string>, read: Reader, raws: seq<seq<Raw>>, all: map<string, seq<Finding>>,
    check: string)
    requires IsDump(workspaces, checks, read, raws, all) && check in checks && ':' !in check
    requires forall w :: w in workspaces ==> WithinWord(w)
    requires forall i: nat, j: nat :: i < j < |workspaces| ==> workspaces[i].name != workspaces[j].name
    ensures Acceptable(Ids(all[check]))
  {
    var batches := BatchesFor(workspaces, raws, check);
    forall i: nat | i < |batches| ensures CleanBatch(batches[i]) {
      var w, made := workspaces[i], batches[i].raws;
      assert w in workspaces && Dumpable(w, checks, read);
      forall k: nat | k < |made| ensures ':' !in made[k].key.check && ':' !in made[k].key.path {
        assert made[k] in made;
        var d := RecordIsRead(w, checks, read, raws[i], check, made[k]);
        PathStandsForItself(d.path);
      }
      CalibratedLength(w.diagnostics, checks);
      OfCheckLength(SortRaws(raws[i]), check);
      if raws[i] != [] { SortMembers(BY_KEY, raws[i], raws[i][0]); }
    }
    DumpedIdsAreAcceptable(batches);
  }
}
