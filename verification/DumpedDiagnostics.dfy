// That a dump loses nothing: each diagnostic of a check that is calibrated has
// its finding, and a check has as many findings as it had diagnostics.
module DumpedDiagnostics {
  import opened Common
  import opened Text
  import opened SourcePositions
  import opened StableSort
  import opened FindingIds
  import opened FindingDump

  // The diagnostics of a check, by their places.
  function Drawn(diagnostics: seq<Diagnostic>, check: string): set<nat> {
    set n: nat | n < |diagnostics| && diagnostics[n].lint == Some(check)
  }

  function DrawnInAll(workspaces: seq<Workspace>, check: string): nat {
    if workspaces == [] then 0
    else |Drawn(workspaces[0].diagnostics, check)| + DrawnInAll(workspaces[1..], check)
  }

  lemma {:induction false} DrawnOneMore(diagnostics: seq<Diagnostic>, d: Diagnostic, check: string)
    ensures |Drawn(diagnostics + [d], check)| == |Drawn(diagnostics, check)| + if d.lint == Some(check) then 1 else 0
  {
    var n := |diagnostics|;
    assert Drawn(diagnostics + [d], check) == Drawn(diagnostics, check) + if d.lint == Some(check) then {n} else {};
  }

  // Reading only the calibrated checks loses none of their diagnostics, and
  // keeps no other.
  lemma {:induction false} CalibratedKeeps(diagnostics: seq<Diagnostic>, checks: seq<string>)
    ensures forall check :: check in checks ==>
              |Drawn(Calibrated(diagnostics, checks), check)| == |Drawn(diagnostics, check)|
    ensures forall d :: d in Calibrated(diagnostics, checks) <==>
              d in diagnostics && d.lint.Some? && d.lint.value in checks
  {
    if diagnostics != [] {
      var front, last := diagnostics[..|diagnostics| - 1], diagnostics[|diagnostics| - 1];
      CalibratedKeeps(front, checks);
      assert diagnostics == front + [last];
      var kept := Calibrated(front, checks);
      forall check | check in checks
        ensures |Drawn(Calibrated(diagnostics, checks), check)| == |Drawn(diagnostics, check)|
      {
        DrawnOneMore(front, last, check);
        DrawnOneMore(kept, last, check);
        assert kept + [] == kept;
      }
    }
  }

  lemma {:induction false} CheckedCount(diagnostics: seq<Diagnostic>, raws: seq<Raw>, check: string)
    requires |raws| == |diagnostics|
    requires forall k :: 0 <= k < |raws| ==> diagnostics[k].lint == Some(raws[k].key.check)
    ensures |OfCheck(raws, check)| == |Drawn(diagnostics, check)|
  {
    if raws != [] {
      var n := |raws| - 1;
      CheckedCount(diagnostics[..n], raws[..n], check);
      DrawnOneMore(diagnostics[..n], diagnostics[n], check);
      assert diagnostics == diagnostics[..n] + [diagnostics[n]];
    }
  }

  // The records read of a check are as many as its diagnostics.
  lemma {:induction false} ReadCount(
    diagnostics: seq<Diagnostic>, read: Reader, texts: map<string, string>, raws: seq<Raw>, check: string)
    requires RawsOf(diagnostics, read, texts, raws)
    ensures |OfCheck(raws, check)| == |Drawn(diagnostics, check)|
  {
    CheckedCount(diagnostics, raws, check);
  }

  // Sorting moves records and loses none.
  lemma {:induction false} SortedCount(raws: seq<Raw>, check: string)
    ensures multiset(OfCheck(SortRaws(raws), check)) == multiset(OfCheck(raws, check))
    ensures |OfCheck(SortRaws(raws), check)| == |OfCheck(raws, check)|
  {
    SortPermutes(BY_KEY, raws);
    forall raw: Raw ensures multiset(OfCheck(SortRaws(raws), check))[raw] == multiset(OfCheck(raws, check))[raw] {
      OfCheckKeeps(raws, check, raw);
      OfCheckKeeps(SortRaws(raws), check, raw);
    }
    assert multiset(OfCheck(SortRaws(raws), check)) == multiset(OfCheck(raws, check));
    assert |multiset(OfCheck(SortRaws(raws), check))| == |multiset(OfCheck(raws, check))|;
  }

  lemma {:induction false} FiledCount(w: Workspace, checks: seq<string>, read: Reader, raws: seq<Raw>, check: string)
    requires RawsOf(Calibrated(w.diagnostics, checks), read, w.texts, raws) && check in checks
    ensures |OfCheck(SortRaws(raws), check)| == |Drawn(w.diagnostics, check)|
  {
    SortedCount(raws, check);
    ReadCount(Calibrated(w.diagnostics, checks), read, w.texts, raws, check);
    CalibratedKeeps(w.diagnostics, checks);
  }

  lemma {:induction false} DumpedLength(workspaces: seq<Workspace>, batches: seq<Batch>, check: string)
    requires |batches| == |workspaces|
    requires forall i: nat :: i < |batches| ==> |batches[i].raws| == |Drawn(workspaces[i].diagnostics, check)|
    ensures |Dumped(batches)| == DrawnInAll(workspaces, check)
  {
    if batches != [] { DumpedLength(workspaces[1..], batches[1..], check); }
  }

  // A check has as many findings in a dump as diagnostics in the corpus.
  lemma {:induction false} AsManyAsDrawn(
    workspaces: seq<Workspace>, checks: seq<string>, read: Reader, raws: seq<seq<Raw>>, all: map<string, seq<Finding>>,
    check: string)
    requires IsDump(workspaces, checks, read, raws, all) && check in checks
    ensures |all[check]| == DrawnInAll(workspaces, check)
  {
    var batches := BatchesFor(workspaces, raws, check);
    forall i: nat | i < |batches| ensures |batches[i].raws| == |Drawn(workspaces[i].diagnostics, check)| {
      FiledCount(workspaces[i], checks, read, raws[i], check);
    }
    DumpedLength(workspaces, batches, check);
  }

  // The finding of a diagnostic: of its workspace, path and line, with its
  // message and its metric, and an ID of its check and span.
  ghost predicate IsFindingOf(f: Finding, w: Workspace, d: Diagnostic, read: Reader) {
    && d.lint.Some? && RelativePath(d.path).Some? && RelativePath(d.path).value in w.texts
    && f.workspace == w.name && f.message == d.message && read(d.lint.value, d.message) == Some(f.metric)
    && f.location == RelativePath(d.path).value + ":" + Print(d.start.line)
    && exists j: nat, k: nat, n: nat ::
         var text := w.texts[RelativePath(d.path).value];
         Spans(text, d, j, k) &&
         f.id == d.lint.value + ":" + w.name + ":" + RelativePath(d.path).value + ":" +
                 Print(Offset(text, j)) + "-" + Print(Offset(text, k)) + ":" + Print(n)
  }

  // Every diagnostic of a calibrated check has its finding in the dump.
  lemma {:induction false} EveryDiagnosticIsDumped(
    workspaces: seq<Workspace>, checks: seq<string>, read: Reader, raws: seq<seq<Raw>>, all: map<string, seq<Finding>>,
    check: string, i: nat, d: Diagnostic) returns (p: nat)
    requires IsDump(workspaces, checks, read, raws, all) && check in checks
    requires i < |workspaces| && d in workspaces[i].diagnostics && d.lint == Some(check)
    ensures p < |all[check]| && IsFindingOf(all[check][p], workspaces[i], d, read)
  {
    var w, batches := workspaces[i], BatchesFor(workspaces, raws, check);
    CalibratedKeeps(w.diagnostics, checks);
    var n: nat :| n < |Calibrated(w.diagnostics, checks)| && Calibrated(w.diagnostics, checks)[n] == d;
    var raw := raws[i][n];
    assert RawOf(d, read, w.texts, raw);
    var k := RecordIsFiled(raws[i], check, raw);
    p := DumpedHas(batches, i, k);
    MadeIsFinding(w, d, read, raw, Occurrence(batches[i].raws[..k], raw.key));
  }

  lemma {:induction false} RecordIsFiled(raws: seq<Raw>, check: string, raw: Raw) returns (k: nat)
    requires raw in raws && raw.key.check == check
    ensures k < |OfCheck(SortRaws(raws), check)| && OfCheck(SortRaws(raws), check)[k] == raw
  {
    SortMembers(BY_KEY, raws, raw);
    OfCheckKeeps(SortRaws(raws), check, raw);
    assert raw in multiset(OfCheck(SortRaws(raws), check));
    k :| k < |OfCheck(SortRaws(raws), check)| && OfCheck(SortRaws(raws), check)[k] == raw;
  }

  lemma {:induction false} MadeIsFinding(w: Workspace, d: Diagnostic, read: Reader, raw: Raw, occurrence: nat)
    requires RawOf(d, read, w.texts, raw)
    ensures IsFindingOf(Record(w.name, raw, occurrence), w, d, read)
  {
    var text := w.texts[raw.key.path];
    var j: nat, k: nat :| Spans(text, d, j, k) && raw.key.start == Offset(text, j) && raw.key.end == Offset(text, k);
    assert Range(raw.key) == Print(Offset(text, j)) + "-" + Print(Offset(text, k));
    IdIsSpelled(w.name, raw.key, occurrence);
  }

  lemma {:induction false} IdIsSpelled(workspace: string, key: Key, occurrence: nat)
    ensures Id(workspace, key, occurrence) ==
            key.check + ":" + workspace + ":" + key.path + ":" + Print(key.start) + "-" + Print(key.end) + ":" +
            Print(occurrence)
  {
    var lead := key.check + ":" + workspace + ":" + key.path + ":";
    Associates(lead, Print(key.start) + "-", Print(key.end));
    Associates(lead, Print(key.start), "-");
  }
}
