// The identity of a dumped finding, and the checks a label file's findings
// have to pass before anything is derived from them.
module FindingIds {
  import opened Common
  import opened Text
  import opened SourcePositions
  import ThresholdSearch

  // What a diagnostic's record is keyed by.
  datatype Key = Key(check: string, path: string, start: nat, end: nat)

  // The metric of a message, absent for a check that has none.
  type Metric = Option<ThresholdSearch.Metric>

  datatype Raw = Raw(key: Key, line: nat, message: string, metric: Metric)

  datatype Finding = Finding(id: string, workspace: string, location: string, message: string, metric: Metric)

  function Range(key: Key): string {
    Print(key.start) + "-" + Print(key.end)
  }

  function Prefix(workspace: string, key: Key): string {
    key.check + ":" + workspace + ":" + key.path + ":" + Range(key)
  }

  function Id(workspace: string, key: Key, occurrence: nat): string {
    Prefix(workspace, key) + ":" + Print(occurrence)
  }

  function Record(workspace: string, raw: Raw, occurrence: nat): Finding {
    var location := raw.key.path + ":" + Print(raw.line);
    Finding(Id(workspace, raw.key, occurrence), workspace, location, raw.message, raw.metric)
  }

  // How many records before `k` share its key.
  function Occurrence(raws: seq<Raw>, key: Key): (n: nat)
    ensures n <= |raws|
  {
    if raws == [] then 0
    else if raws[|raws| - 1].key == key then Occurrence(raws[..|raws| - 1], key) + 1
    else Occurrence(raws[..|raws| - 1], key)
  }

  function Records(workspace: string, raws: seq<Raw>): (r: seq<Finding>)
    ensures |r| == |raws|
    ensures forall k: nat :: k < |r| ==> r[k] == Record(workspace, raws[k], Occurrence(raws[..k], raws[k].key))
  {
    seq(|raws|, k requires 0 <= k < |raws| => Record(workspace, raws[k], Occurrence(raws[..k], raws[k].key)))
  }

  function OfCheck(raws: seq<Raw>, check: string): seq<Raw> {
    if raws == [] then []
    else if raws[|raws| - 1].key.check == check then OfCheck(raws[..|raws| - 1], check) + [raws[|raws| - 1]]
    else OfCheck(raws[..|raws| - 1], check)
  }

  lemma {:induction false} OneMoreOccurrence(raws: seq<Raw>, raw: Raw, key: Key)
    ensures Occurrence(raws + [raw], key) == Occurrence(raws, key) + if raw.key == key then 1 else 0
  {
    assert (raws + [raw])[..|raws|] == raws;
  }

  lemma {:induction false} OneMoreOfCheck(raws: seq<Raw>, raw: Raw, check: string)
    ensures OfCheck(raws + [raw], check) ==
            if raw.key.check == check then OfCheck(raws, check) + [raw] else OfCheck(raws, check)
  {
    assert (raws + [raw])[..|raws|] == raws;
  }

  lemma {:induction false} OccurrenceCounts(raws: seq<Raw>, key: Key)
    ensures Occurrence(raws, key) == |set k: nat | k < |raws| && raws[k].key == key|
  {
    var all := set k: nat | k < |raws| && raws[k].key == key;
    if raws == [] {
      assert all == {};
    } else {
      var n := |raws| - 1;
      var before := set k: nat | k < |raws[..n]| && raws[..n][k].key == key;
      OccurrenceCounts(raws[..n], key);
      if raws[n].key == key {
        assert all == before + {n};
      } else {
        assert all == before;
      }
    }
  }

  // Filing under a check drops the records of other checks and nothing else.
  lemma {:induction false} OfCheckKeeps(raws: seq<Raw>, check: string, raw: Raw)
    ensures multiset(OfCheck(raws, check))[raw] == if raw.key.check == check then multiset(raws)[raw] else 0
  {
    if raws != [] {
      var n := |raws| - 1;
      OfCheckKeeps(raws[..n], check, raw);
      assert raws == raws[..n] + [raws[n]];
    }
  }

  lemma {:induction false} OccurrenceWithinCheck(raws: seq<Raw>, key: Key)
    ensures Occurrence(OfCheck(raws, key.check), key) == Occurrence(raws, key)
  {
    if raws != [] {
      var front, last := raws[..|raws| - 1], raws[|raws| - 1];
      assert raws == front + [last];
      OccurrenceWithinCheck(front, key);
      OneMoreOccurrence(front, last, key);
      OneMoreOfCheck(front, last, key.check);
      OneMoreOccurrence(OfCheck(front, key.check), last, key);
    }
  }

  // Each check's records, numbered among themselves.
  ghost predicate Filed(workspace: string, raws: seq<Raw>, checks: seq<string>, records: map<string, seq<Finding>>) {
    && (forall c :: c in checks <==> c in records)
    && (forall c :: c in records ==> records[c] == Records(workspace, OfCheck(raws, c)))
  }

  ghost predicate Counted(raws: seq<Raw>, occurrences: map<Key, nat>) {
    forall key: Key :: Occurrence(raws, key) == if key in occurrences then occurrences[key] else 0
  }

  lemma {:induction false} CountOne(raws: seq<Raw>, occurrences: map<Key, nat>, raw: Raw)
    requires Counted(raws, occurrences)
    ensures var occurrence := if raw.key in occurrences then occurrences[raw.key] else 0;
            && occurrence == Occurrence(raws, raw.key)
            && Counted(raws + [raw], occurrences[raw.key := occurrence + 1])
  {
    forall key { OneMoreOccurrence(raws, raw, key); }
  }

  lemma {:induction false} FileOne(
    workspace: string, raws: seq<Raw>, checks: seq<string>, records: map<string, seq<Finding>>, raw: Raw)
    requires Filed(workspace, raws, checks, records) && raw.key.check in checks
    ensures var check, record := raw.key.check, Record(workspace, raw, Occurrence(raws, raw.key));
            Filed(workspace, raws + [raw], checks, records[check := records[check] + [record]])
  {
    var check, record := raw.key.check, Record(workspace, raw, Occurrence(raws, raw.key));
    OccurrenceWithinCheck(raws, raw.key);
    RecordsGrow(workspace, OfCheck(raws, check), raw);
    var filed := records[check := records[check] + [record]];
    forall c | c in filed ensures filed[c] == Records(workspace, OfCheck(raws + [raw], c)) {
      OneMoreOfCheck(raws, raw, c);
      if c == check {
        assert OfCheck(raws + [raw], c) == OfCheck(raws, c) + [raw];
      } else {
        assert OfCheck(raws + [raw], c) == OfCheck(raws, c);
      }
    }
  }

  lemma {:induction false} FileNext(
    workspace: string, raws: seq<Raw>, checks: seq<string>, records: map<string, seq<Finding>>,
    occurrences: map<Key, nat>, k: nat)
    requires k < |raws| && raws[k].key.check in checks
    requires Filed(workspace, raws[..k], checks, records) && Counted(raws[..k], occurrences)
    ensures var raw := raws[k];
            var occurrence := if raw.key in occurrences then occurrences[raw.key] else 0;
            var check := raw.key.check;
            && Counted(raws[..k + 1], occurrences[raw.key := occurrence + 1])
            && check in records
            && Filed(workspace, raws[..k + 1], checks,
                     records[check := records[check] + [Record(workspace, raw, occurrence)]])
  {
    assert raws[..k + 1] == raws[..k] + [raws[k]];
    CountOne(raws[..k], occurrences, raws[k]);
    FileOne(workspace, raws[..k], checks, records, raws[k]);
  }

  // Numbering the diagnostics of a workspace, key by key, and filing them under
  // their checks.
  method FileRecords(workspace: string, raws: seq<Raw>, checks: seq<string>)
    returns (records: map<string, seq<Finding>>)
    requires forall k :: 0 <= k < |raws| ==> raws[k].key.check in checks
    ensures Filed(workspace, raws, checks, records)
  {
    records := map c | c in checks :: [];
    var occurrences: map<Key, nat> := map[];
    for k := 0 to |raws|
      invariant Filed(workspace, raws[..k], checks, records)
      invariant Counted(raws[..k], occurrences)
    {
      var raw := raws[k];
      FileNext(workspace, raws, checks, records, occurrences, k);
      var occurrence := if raw.key in occurrences then occurrences[raw.key] else 0;
      occurrences := occurrences[raw.key := occurrence + 1];
      records := records[raw.key.check := records[raw.key.check] + [Record(workspace, raw, occurrence)]];
    }
    assert raws[..|raws|] == raws;
  }

  lemma {:induction false} RecordsGrow(workspace: string, raws: seq<Raw>, raw: Raw)
    ensures Records(workspace, raws + [raw]) ==
            Records(workspace, raws) + [Record(workspace, raw, Occurrence(raws, raw.key))]
  {
    var more := raws + [raw];
    var grown := Records(workspace, raws) + [Record(workspace, raw, Occurrence(raws, raw.key))];
    forall k: nat | k < |more| ensures Records(workspace, more)[k] == grown[k] {
      assert more[..k] == raws[..k];
      if k == |raws| { assert raws[..k] == raws; }
    }
  }

  // -------------------------------------------------------------------
  // What deriving checks of one finding.
  // -------------------------------------------------------------------

  // How a check reads the metric off a message, nothing for a malformed one.
  type Reader = (string, string) -> Option<Metric>

  // The ID names the check, a workspace, a file of it, a range of its text and
  // an occurrence; the location is the file and line of the range; the message
  // has the metric recorded, which a search for a threshold can reach.
  predicate Validates(check: string, finding: Finding, read: Reader, text: string) {
    var parts := Split(finding.id, ":");
    && |parts| == 5 && parts[0] == check && parts[1] == finding.workspace && finding.workspace != ""
    && RelativePath(finding.workspace) == Some(finding.workspace)
    && RelativePath(parts[2]).Some? && ReadSpan(parts[3]).Some? && Number(parts[4]).Some?
    && var span := ReadSpan(parts[3]).value;
    && InText(span, Encode(text))
    && finding.location == RelativePath(parts[2]).value + ":" + Print(1 + Newlines(Encode(text)[..span.start]))
    && !Blank(finding.message) && read(check, finding.message) == Some(finding.metric) && Searchable(finding.metric)
  }

  // The coordinates of a metric are at or above the start of the search.
  predicate Searchable(metric: Metric) {
    match metric
    case None => true
    case Some(StructM(count)) => count >= 2
    case Some(EnumM(count)) => count >= 2
    case Some(CohesionM(groups, minSize)) => groups >= 2 && minSize != 0
    case Some(FanOutM(count)) => count > 3
  }

  // White space by the Unicode property.
  predicate IsWhite(c: char) {
    || '\U{9}' <= c <= '\U{D}' || c in {' ', '\U{85}', '\U{A0}', '\U{1680}'}
    || '\U{2000}' <= c <= '\U{200A}' || c in {'\U{2028}', '\U{2029}', '\U{202F}', '\U{205F}', '\U{3000}'}
  }

  predicate Blank(s: string) {
    forall k :: 0 <= k < |s| ==> IsWhite(s[k])
  }

  // -------------------------------------------------------------------
  // Paths within a directory.
  // -------------------------------------------------------------------

  function Slashed(path: string): (r: string)
    ensures |r| == |path|
    ensures forall k :: 0 <= k < |r| ==> r[k] == if path[k] == '\\' then '/' else path[k]
  {
    seq(|path|, k requires 0 <= k < |path| => if path[k] == '\\' then '/' else path[k])
  }

  // Neither empty nor absolute, no step to the directory itself first, and none
  // to a parent.
  predicate Inside(path: string) {
    path != "" && path[0] != '/' && Split(path, "/")[0] != "." && ".." !in Split(path, "/")
  }

  // The directory a path leads to from one, none above the root.
  function Resolved(dir: seq<string>, parts: seq<string>): Option<seq<string>>
    decreases |parts|
  {
    if parts == [] then Some(dir)
    else if parts[0] in {"", "."} then Resolved(dir, parts[1..])
    else if parts[0] != ".." then Resolved(dir + [parts[0]], parts[1..])
    else if dir == [] then None
    else Resolved(dir[..|dir| - 1], parts[1..])
  }

  // From any directory, a path that stays inside leads below it, as does every
  // part of the way.
  lemma {:induction false} InsideDescends(dir: seq<string>, path: string, k: nat)
    requires Inside(path) && k <= |Split(path, "/")|
    ensures var parts := Split(path, "/");
            && Resolved(dir, parts[..k]).Some? && dir <= Resolved(dir, parts[..k]).value
  {
    NoParentDescends(dir, Split(path, "/")[..k]);
  }

  lemma {:induction false} NoParentDescends(dir: seq<string>, parts: seq<string>)
    requires ".." !in parts
    ensures Resolved(dir, parts).Some? && dir <= Resolved(dir, parts).value
    decreases |parts|
  {
    if parts != [] { NoParentDescends(if parts[0] in {"", "."} then dir else dir + [parts[0]], parts[1..]); }
  }

  // A path as text, with slashes, when it stays inside and holds no delimiter.
  function RelativePath(path: string): Option<string> {
    if Inside(path) && ':' !in Slashed(path) then Some(Slashed(path)) else None
  }

  // A name a directory can hold.
  predicate IsName(name: string) {
    name != "" && '/' !in name && name != "." && name != ".."
  }

  lemma {:induction false} SlashedIsSame(path: string)
    ensures Slashed(path) == path <==> '\\' !in path
    ensures ':' in Slashed(path) <==> ':' in path
    ensures Slashed(Slashed(path)) == Slashed(path)
  {
    if k :| 0 <= k < |path| && path[k] == '\\' { assert Slashed(path)[k] != path[k]; }
    if k :| 0 <= k < |path| && path[k] == ':' { assert Slashed(path)[k] == ':'; }
  }

  lemma {:induction false} NameIsInside(name: string)
    requires IsName(name)
    ensures Inside(name)
  {
    NothingToSplit(name, "/", 0);
    assert Split(name, "/") == [name];
  }

  // A name stands for itself unless it holds a delimiter or a backslash.
  lemma {:induction false} NameStandsForItself(name: string)
    requires IsName(name)
    ensures RelativePath(name) == Some(name) <==> ':' !in name && '\\' !in name
  {
    NameIsInside(name);
    SlashedIsSame(name);
  }

  // What a path has become stands for itself when it is still inside, as it is
  // when the path had no backslash.
  lemma {:induction false} PathStandsForItself(path: string)
    requires RelativePath(path).Some?
    ensures var relative := RelativePath(path).value;
            && ':' !in relative && (RelativePath(relative) == Some(relative) <==> Inside(relative))
    ensures '\\' !in path ==> Inside(RelativePath(path).value)
  {
    SlashedIsSame(path);
  }

  // -------------------------------------------------------------------
  // Ranges.
  // -------------------------------------------------------------------

  // A range of bytes.
  datatype Span = Span(start: nat, end: nat)

  function ReadSpan(range: string): Option<Span> {
    match SplitOnce(range, "-")
    case None => None
    case Some(ends) =>
      if Number(ends.before).None? || Number(ends.after).None? then None
      else Some(Span(Number(ends.before).value, Number(ends.after).value))
  }

  predicate InText(span: Span, source: seq<Byte>) {
    span.start <= span.end <= |source| && IsCharBoundary(source, span.start) && IsCharBoundary(source, span.end)
  }

  lemma {:induction false} NoColonIn(s: string)
    requires forall k :: 0 <= k < |s| ==> IsDigit(s[k])
    ensures ':' !in s && '-' !in s
  {
  }

  lemma {:induction false} RangeReadsBack(key: Key)
    ensures ':' !in Range(key) && SplitOnce(Range(key), "-") == Some(Halves(Print(key.start), Print(key.end)))
    ensures key.start <= MAX && key.end <= MAX ==> ReadSpan(Range(key)) == Some(Span(key.start, key.end))
  {
    NoColonIn(Print(key.start));
    NoColonIn(Print(key.end));
    SplitOnceAt(Print(key.start), "-", Print(key.end), 0);
    if key.start <= MAX && key.end <= MAX {
      NumberOfPrint(key.start);
      NumberOfPrint(key.end);
    }
  }

  lemma {:induction false} FiveJoined(a: string, b: string, c: string, d: string, e: string)
    ensures Join([a, b, c, d, e], ":") == a + ":" + b + ":" + c + ":" + d + ":" + e
  {
    assert [a, b, c, d, e] == [a] + [b] + [c] + [d] + [e];
    JoinOneMore([a] + [b] + [c] + [d], ":", e);
    JoinOneMore([a] + [b] + [c], ":", d);
    JoinOneMore([a] + [b], ":", c);
    JoinOneMore([a], ":", b);
  }

  lemma {:induction false} IdReadsBack(workspace: string, key: Key, occurrence: nat)
    requires ':' !in key.check && ':' !in workspace && ':' !in key.path
    ensures Split(Id(workspace, key, occurrence), ":") ==
            [key.check, workspace, key.path, Range(key), Print(occurrence)]
  {
    RangeReadsBack(key);
    NoColonIn(Print(occurrence));
    FiveJoined(key.check, workspace, key.path, Range(key), Print(occurrence));
    SplitOfJoin([key.check, workspace, key.path, Range(key), Print(occurrence)], ":", 0);
  }

  // The checks of a record's fields that its text has to answer.
  predicate Sound(raw: Raw, text: string) {
    && InText(Span(raw.key.start, raw.key.end), Encode(text))
    && raw.line == 1 + Newlines(Encode(text)[..raw.key.start])
  }

  // What a record adds to its span.
  predicate Presentable(raw: Raw, read: Reader) {
    read(raw.key.check, raw.message) == Some(raw.metric) && !Blank(raw.message) && Searchable(raw.metric)
  }

  lemma {:induction false} SoundRecordValidates(
    workspace: string, raw: Raw, occurrence: nat, read: Reader, text: string)
    requires ':' !in raw.key.check && ':' !in raw.key.path && ':' !in workspace && workspace != ""
    requires |Encode(text)| <= MAX && occurrence <= MAX && Sound(raw, text)
    ensures Validates(raw.key.check, Record(workspace, raw, occurrence), read, text) <==>
              && RelativePath(workspace) == Some(workspace) && RelativePath(raw.key.path) == Some(raw.key.path)
              && Presentable(raw, read)
  {
    IdReadsBack(workspace, raw.key, occurrence);
    RangeReadsBack(raw.key);
    NumberOfPrint(occurrence);
    var finding := Record(workspace, raw, occurrence);
    ReadPartsValidate(finding, read, text, raw, Split(finding.id, ":"));
  }

  lemma {:induction false} ReadPartsValidate(
    finding: Finding, read: Reader, text: string, raw: Raw, parts: seq<string>)
    requires parts == Split(finding.id, ":") && |parts| == 5 && parts[0] == raw.key.check
    requires parts[1] == finding.workspace != "" && parts[2] == raw.key.path
    requires ReadSpan(parts[3]) == Some(Span(raw.key.start, raw.key.end)) && Number(parts[4]).Some?
    requires Sound(raw, text) && finding.location == raw.key.path + ":" + Print(raw.line)
    requires finding.message == raw.message && finding.metric == raw.metric
    ensures Validates(raw.key.check, finding, read, text) <==>
              && RelativePath(finding.workspace) == Some(finding.workspace)
              && RelativePath(raw.key.path) == Some(raw.key.path) && Presentable(raw, read)
  {
    if RelativePath(parts[2]).Some? {
      var relative := RelativePath(parts[2]).value;
      SameBefore(relative + ":", parts[2] + ":", Print(raw.line));
      SameBefore(relative, parts[2], ":");
    }
  }

  lemma {:induction false} SameBefore(a: string, b: string, rest: string)
    ensures a + rest == b + rest ==> a == b
  {
    if a + rest == b + rest {
      assert (a + rest)[..|a|] == a && (b + rest)[..|b|] == b;
    }
  }

  // A finding dumped from a diagnostic whose span lies in the text and ends no
  // earlier than it starts passes every check made of it when its labels come
  // back, exactly when its workspace's name holds neither delimiter nor
  // backslash, what its path became is still a path inside the workspace, its
  // message is not blank and its metric not below the start of the search.
  lemma {:induction false} DumpedFindingValidates(
    workspace: string, check: string, path: string, text: string, j: nat, k: nat, message: string, occurrence: nat,
    read: Reader)
    requires IsName(workspace) && ':' !in check && RelativePath(path).Some? && read(check, message).Some?
    requires j <= k <= |text| && |Encode(text)| <= MAX && occurrence <= MAX
    ensures var key := Key(check, RelativePath(path).value, Offset(text, j), Offset(text, k));
            var raw := Raw(key, PositionOf(text, j).line, message, read(check, message).value);
            Validates(check, Record(workspace, raw, occurrence), read, text) <==>
              && ':' !in workspace && '\\' !in workspace && Inside(key.path)
              && !Blank(message) && Searchable(raw.metric)
  {
    var key := Key(check, RelativePath(path).value, Offset(text, j), Offset(text, k));
    var raw := Raw(key, PositionOf(text, j).line, message, read(check, message).value);
    if ':' in workspace {
      PartsHoldNoSeparator(Id(workspace, raw.key, occurrence), ':');
    } else {
      NameStandsForItself(workspace);
      PathStandsForItself(path);
      SpanIsSound(raw, text, j, k);
      SoundRecordValidates(workspace, raw, occurrence, read, text);
    }
  }

  lemma {:induction false} SpanIsSound(raw: Raw, text: string, j: nat, k: nat)
    requires j <= k <= |text| && raw.line == PositionOf(text, j).line
    requires raw.key.start == Offset(text, j) && raw.key.end == Offset(text, k)
    ensures Sound(raw, text)
  {
    OffsetsAscend(text, j, k);
    OffsetBeginsCharacter(text, j);
    OffsetBeginsCharacter(text, k);
    LineCountsNewlines(text, j);
  }

  // A finding that validates is of one span of the text: two of its positions,
  // the first of them on the line its location names. It is the record of that
  // span, unless its ID writes the path with backslashes.
  lemma {:induction false} ValidFindingNamesASpan(check: string, finding: Finding, read: Reader, text: string)
    returns (path: string, j: nat, k: nat, occurrence: nat)
    requires Validates(check, finding, read, text)
    ensures j <= k <= |text|
    ensures var key, line := Key(check, path, Offset(text, j), Offset(text, k)), PositionOf(text, j).line;
            && finding.id == Id(finding.workspace, key, occurrence)
            && RelativePath(path).Some? && finding.location == RelativePath(path).value + ":" + Print(line)
            && ('\\' !in path ==>
                  finding == Record(finding.workspace, Raw(key, line, finding.message, finding.metric), occurrence))
  {
    var parts := Split(finding.id, ":");
    var ends := SplitOnce(parts[3], "-").value;
    var span := ReadSpan(parts[3]).value;
    JoinOfSplit(finding.id, ":");
    PrintOfNumber(ends.before);
    PrintOfNumber(ends.after);
    PrintOfNumber(parts[4]);
    j := BoundaryIsOffset(text, span.start);
    k := BoundaryIsOffset(text, span.end);
    if k < j { OffsetsAscend(text, k, j); }
    LineCountsNewlines(text, j);
    path, occurrence := parts[2], Number(parts[4]).value;
    FiveParts(parts);
    SlashedIsSame(path);
  }

  // What a check measures.
  predicate Measures(check: ThresholdSearch.Check, metric: Metric) {
    match check
    case InconsistentUnit => metric.None?
    case InconsistentAbbreviation => metric.None?
    case DuplicateShape => metric.Some? && (metric.value.StructM? || metric.value.EnumM?)
    case LowCohesion => metric.Some? && metric.value.CohesionM?
    case PackageFanOut => metric.Some? && metric.value.FanOutM?
  }

  // Of a metric of its kind, a check's search asks what validation does.
  lemma {:induction false} SearchableIffValidated(searched: ThresholdSearch.Check, metric: Metric, accepted: bool)
    requires Measures(searched, metric)
    ensures Searchable(metric) <==> ThresholdSearch.Validated(searched, ThresholdSearch.Finding(metric, accepted))
  {
  }

  // What validation lets through is what the threshold search takes.
  lemma {:induction false} ValidFindingIsSearched(
    check: string, finding: Finding, read: Reader, text: string, searched: ThresholdSearch.Check, accepted: bool)
    requires Validates(check, finding, read, text)
    requires forall m :: read(check, finding.message) == Some(m) ==> Measures(searched, m)
    ensures ThresholdSearch.Validated(searched, ThresholdSearch.Finding(finding.metric, accepted))
  {
    SearchableIffValidated(searched, finding.metric, accepted);
  }

  lemma {:induction false} FiveParts(parts: seq<string>)
    requires |parts| == 5
    ensures Join(parts, ":") == parts[0] + ":" + parts[1] + ":" + parts[2] + ":" + parts[3] + ":" + parts[4]
  {
    FiveJoined(parts[0], parts[1], parts[2], parts[3], parts[4]);
    assert parts == [parts[0], parts[1], parts[2], parts[3], parts[4]];
  }

  // -------------------------------------------------------------------
  // What deriving checks across the findings of a check.
  // -------------------------------------------------------------------

  // The prefix and the index an ID ends in.
  datatype Numbered = Numbered(prefix: string, index: nat)

  function Tail(id: string): Option<Numbered> {
    match SplitLast(id, ':')
    case None => None
    case Some(h) => if Number(h.after).None? then None else Some(Numbered(h.before, Number(h.after).value))
  }

  ghost predicate HasIndex(ids: seq<string>, prefix: string, n: nat) {
    exists k: nat :: k < |ids| && Tail(ids[k]) == Some(Numbered(prefix, n))
  }

  // Under every prefix, no index without the ones below it.
  ghost predicate Contiguous(ids: seq<string>) {
    forall prefix: string, n: nat, m: nat :: HasIndex(ids, prefix, n) && m < n ==> HasIndex(ids, prefix, m)
  }

  ghost predicate Acceptable(ids: seq<string>) {
    && Distinct(ids) && (forall k: nat :: k < |ids| ==> Tail(ids[k]).Some?)
    && Contiguous(ids)
  }

  predicate FromZero(indices: set<nat>) {
    forall n: nat :: n < |indices| ==> n in indices
  }

  lemma {:induction false} FromZeroIffDownwardClosed(indices: set<nat>)
    ensures FromZero(indices) <==> forall n: nat, m: nat :: n in indices && m < n ==> m in indices
  {
    var below := Below(|indices|);
    if FromZero(indices) {
      assert below <= indices;
      SameSize(below, indices);
    }
    if forall n: nat, m: nat :: n in indices && m < n ==> m in indices {
      forall n: nat | n < |indices| ensures n in indices {
        if n !in indices {
          var fewer := Below(n);
          assert indices <= fewer;
          SubsetSize(indices, fewer);
        }
      }
    }
  }

  // The findings of one check, after those of the checks before it.
  method CheckOccurrences(ids: seq<string>, before: set<string>) returns (ok: bool, all: set<string>)
    ensures ok <==> Acceptable(ids) && forall k: nat :: k < |ids| ==> ids[k] !in before
    ensures ok ==> forall id :: id in all <==> id in before || id in ids
  {
    all := before;
    var occurrences: map<string, set<nat>> := map[];
    for k := 0 to |ids|
      invariant Listed(ids[..k], before, all) && Gathers(occurrences, ids[..k])
    {
      ListOne(ids, k, before, all);
      assert ids[..k + 1] == ids[..k] + [ids[k]];
      var tail := Tail(ids[k]);
      if ids[k] in all || tail.None? {
        return false, all;
      }
      var Numbered(p, index) := tail.value;
      HasIndexGrows(occurrences, ids[..k], ids[k], p, index);
      occurrences := occurrences[p := (if p in occurrences then occurrences[p] else {}) + {index}];
      all := all + {ids[k]};
    }
    assert ids[..|ids|] == ids;
    ok := forall prefix :: prefix in occurrences ==> FromZero(occurrences[prefix]);
    GatheredContiguous(occurrences, ids);
  }

  ghost predicate New(ids: seq<string>, before: set<string>) {
    Distinct(ids) && forall k: nat :: k < |ids| ==> Tail(ids[k]).Some? && ids[k] !in before
  }

  ghost predicate Listed(ids: seq<string>, before: set<string>, all: set<string>) {
    New(ids, before) && forall id :: id in all <==> id in before || id in ids
  }

  lemma {:induction false} ListOne(ids: seq<string>, k: nat, before: set<string>, all: set<string>)
    requires k < |ids| && Listed(ids[..k], before, all)
    ensures ids[k] in all || Tail(ids[k]).None? ==> !New(ids, before)
    ensures ids[k] !in all && Tail(ids[k]).Some? ==> Listed(ids[..k + 1], before, all + {ids[k]})
  {
    assert ids[..k + 1] == ids[..k] + [ids[k]];
  }

  // The indices found under each prefix.
  ghost predicate Gathers(occurrences: map<string, set<nat>>, ids: seq<string>) {
    && (forall prefix: string, n: nat :: HasIndex(ids, prefix, n) ==> prefix in occurrences && n in occurrences[prefix])
    && (forall prefix, n: nat :: prefix in occurrences && n in occurrences[prefix] ==> HasIndex(ids, prefix, n))
  }

  lemma {:induction false} GatheredContiguous(occurrences: map<string, set<nat>>, ids: seq<string>)
    requires Gathers(occurrences, ids)
    ensures Contiguous(ids) <==> forall prefix :: prefix in occurrences ==> FromZero(occurrences[prefix])
  {
    forall prefix | prefix in occurrences
      ensures FromZero(occurrences[prefix]) <==>
              forall n: nat, m: nat :: n in occurrences[prefix] && m < n ==> m in occurrences[prefix]
    {
      FromZeroIffDownwardClosed(occurrences[prefix]);
    }
  }

  lemma {:induction false} HasIndexGrows(
    occurrences: map<string, set<nat>>, ids: seq<string>, id: string, p: string, index: nat)
    requires Gathers(occurrences, ids) && Tail(id) == Some(Numbered(p, index))
    ensures Gathers(occurrences[p := (if p in occurrences then occurrences[p] else {}) + {index}], ids + [id])
  {
    var gathered := occurrences[p := (if p in occurrences then occurrences[p] else {}) + {index}];
    forall prefix: string, n: nat
      ensures HasIndex(ids + [id], prefix, n) <==> prefix in gathered && n in gathered[prefix]
    {
      OneMoreIndex(ids, id, prefix, n);
      assert HasIndex(ids, prefix, n) <==> prefix in occurrences && n in occurrences[prefix];
    }
  }

  lemma {:induction false} OneMoreIndex(ids: seq<string>, id: string, prefix: string, n: nat)
    ensures HasIndex(ids + [id], prefix, n) <==> HasIndex(ids, prefix, n) || Tail(id) == Some(Numbered(prefix, n))
  {
    var more := ids + [id];
    if HasIndex(ids, prefix, n) {
      var k: nat :| k < |ids| && Tail(ids[k]) == Some(Numbered(prefix, n));
      assert Tail(more[k]) == Some(Numbered(prefix, n));
    }
    if Tail(id) == Some(Numbered(prefix, n)) {
      assert Tail(more[|ids|]) == Some(Numbered(prefix, n));
    }
  }

  // -------------------------------------------------------------------
  // What is dumped, over any number of workspaces, is acceptable.
  // -------------------------------------------------------------------

  datatype Batch = Batch(workspace: string, raws: seq<Raw>)

  function Dumped(batches: seq<Batch>): seq<Finding> {
    if batches == [] then [] else Records(batches[0].workspace, batches[0].raws) + Dumped(batches[1..])
  }

  ghost predicate Clean(batches: seq<Batch>) {
    && (forall i: nat, j: nat :: i < j < |batches| ==> batches[i].workspace != batches[j].workspace)
    && (forall i: nat :: i < |batches| ==> CleanBatch(batches[i]))
  }

  function Ids(findings: seq<Finding>): (r: seq<string>)
    ensures |r| == |findings| && forall k: nat :: k < |r| ==> r[k] == findings[k].id
  {
    seq(|findings|, k requires 0 <= k < |findings| => findings[k].id)
  }

  // The finding that record `k` of a batch becomes.
  function Made(b: Batch, k: nat): Finding
    requires k < |b.raws|
  {
    Record(b.workspace, b.raws[k], Occurrence(b.raws[..k], b.raws[k].key))
  }

  // Where a batch's findings start.
  function Start(batches: seq<Batch>, i: nat): nat
    requires i <= |batches|
  {
    if i == 0 then 0 else |batches[0].raws| + Start(batches[1..], i - 1)
  }

  lemma {:induction false} DumpedFrom(batches: seq<Batch>, p: nat) returns (i: nat, k: nat)
    requires p < |Dumped(batches)|
    ensures i < |batches| && k < |batches[i].raws| && Dumped(batches)[p] == Made(batches[i], k)
    ensures p == Start(batches, i) + k
  {
    var n := |batches[0].raws|;
    if p < n {
      i, k := 0, p;
    } else {
      i, k := DumpedFrom(batches[1..], p - n);
      i := i + 1;
    }
  }

  lemma {:induction false} DumpedHas(batches: seq<Batch>, i: nat, k: nat) returns (p: nat)
    requires i < |batches| && k < |batches[i].raws|
    ensures p < |Dumped(batches)| && Dumped(batches)[p] == Made(batches[i], k)
  {
    if i == 0 {
      p := k;
    } else {
      p := DumpedHas(batches[1..], i - 1, k);
      p := p + |batches[0].raws|;
    }
  }

  lemma {:induction false} TailOfId(workspace: string, key: Key, occurrence: nat)
    requires occurrence <= MAX
    ensures Tail(Id(workspace, key, occurrence)) == Some(Numbered(Prefix(workspace, key), occurrence))
  {
    var e := Print(occurrence);
    NoColonIn(e);
    SplitLastAt(Prefix(workspace, key), ':', e);
    NumberOfPrint(occurrence);
  }

  lemma {:induction false} IdsDiffer(v: string, a: Key, m: nat, w: string, b: Key, n: nat)
    requires ':' !in v && ':' !in a.check && ':' !in a.path
    requires ':' !in w && ':' !in b.check && ':' !in b.path
    ensures Id(v, a, m) == Id(w, b, n) ==> v == w && a == b && m == n
  {
    if Id(v, a, m) == Id(w, b, n) {
      IdReadsBack(v, a, m);
      IdReadsBack(w, b, n);
      var p, q := Split(Id(v, a, m), ":"), Split(Id(w, b, n), ":");
      assert p[0] == q[0] && p[1] == q[1] && p[2] == q[2] && p[3] == q[3] && p[4] == q[4];
      RangeReadsBack(a);
      RangeReadsBack(b);
      ValueOfPrint(a.start);
      ValueOfPrint(b.start);
      ValueOfPrint(a.end);
      ValueOfPrint(b.end);
      ValueOfPrint(m);
      ValueOfPrint(n);
    }
  }

  // Counts grow along the records, and so tell two records of a key apart.
  lemma {:induction false} OccurrencesAscend(raws: seq<Raw>, j: nat, k: nat)
    requires j < k < |raws| && raws[j].key == raws[k].key
    ensures Occurrence(raws[..j], raws[j].key) < Occurrence(raws[..k], raws[k].key)
  {
    CountsGrow(raws, j, j + 1, raws[j].key);
    CountsGrow(raws, j + 1, k, raws[j].key);
    assert raws[..j + 1] == raws[..j] + [raws[j]];
    OneMoreOccurrence(raws[..j], raws[j], raws[j].key);
  }

  lemma {:induction false} CountsGrow(raws: seq<Raw>, j: nat, k: nat, key: Key)
    requires j <= k <= |raws|
    ensures Occurrence(raws[..j], key) <= Occurrence(raws[..k], key)
  {
    if j < k {
      CountsGrow(raws, j, k - 1, key);
      assert raws[..k] == raws[..k - 1] + [raws[k - 1]];
      OneMoreOccurrence(raws[..k - 1], raws[k - 1], key);
    }
  }

  // Every lower count belongs to an earlier record of the key.
  lemma {:induction false} EarlierOccurrence(raws: seq<Raw>, k: nat, key: Key, m: nat) returns (j: nat)
    requires k <= |raws| && m < Occurrence(raws[..k], key)
    ensures j < k && raws[j].key == key && Occurrence(raws[..j], key) == m
  {
    assert raws[..k] == raws[..k - 1] + [raws[k - 1]];
    OneMoreOccurrence(raws[..k - 1], raws[k - 1], key);
    if raws[k - 1].key == key && m == Occurrence(raws[..k - 1], key) {
      j := k - 1;
    } else {
      j := EarlierOccurrence(raws, k - 1, key, m);
    }
  }

  ghost predicate CleanBatch(b: Batch) {
    && ':' !in b.workspace && |b.raws| <= MAX
    && forall k: nat :: k < |b.raws| ==> ':' !in b.raws[k].key.check && ':' !in b.raws[k].key.path
  }

  lemma {:induction false} MadeTwice(b: Batch, k: nat, l: nat)
    requires CleanBatch(b) && k < l < |b.raws|
    ensures Made(b, k).id != Made(b, l).id
  {
    var m, n := Occurrence(b.raws[..k], b.raws[k].key), Occurrence(b.raws[..l], b.raws[l].key);
    IdsDiffer(b.workspace, b.raws[k].key, m, b.workspace, b.raws[l].key, n);
    if b.raws[k].key == b.raws[l].key { OccurrencesAscend(b.raws, k, l); }
  }

  lemma {:induction false} MadeApart(b: Batch, k: nat, c: Batch, l: nat)
    requires CleanBatch(b) && CleanBatch(c) && b.workspace != c.workspace
    requires k < |b.raws| && l < |c.raws|
    ensures Made(b, k).id != Made(c, l).id
  {
    var m, n := Occurrence(b.raws[..k], b.raws[k].key), Occurrence(c.raws[..l], c.raws[l].key);
    IdsDiffer(b.workspace, b.raws[k].key, m, c.workspace, c.raws[l].key, n);
  }

  lemma {:induction false} DumpedDistinct(batches: seq<Batch>)
    requires Clean(batches)
    ensures Distinct(Ids(Dumped(batches)))
  {
    var ids := Ids(Dumped(batches));
    forall p: nat, q: nat | p < q < |ids| ensures ids[p] != ids[q] {
      DifferentPlaces(batches, p, q);
    }
  }

  lemma {:induction false} DifferentPlaces(batches: seq<Batch>, p: nat, q: nat)
    requires Clean(batches) && p < q < |Dumped(batches)|
    ensures Dumped(batches)[p].id != Dumped(batches)[q].id
  {
    var i, k := DumpedFrom(batches, p);
    var j, l := DumpedFrom(batches, q);
    if i == j {
      MadeTwice(batches[i], k, l);
    } else {
      MadeApart(batches[i], k, batches[j], l);
    }
  }

  // Whatever the workspaces hold, the IDs dumped of them are distinct and their
  // occurrences contiguous.
  lemma {:induction false} DumpedIdsAreAcceptable(batches: seq<Batch>)
    requires Clean(batches)
    ensures Acceptable(Ids(Dumped(batches)))
  {
    var ids := Ids(Dumped(batches));
    DumpedDistinct(batches);
    forall p: nat | p < |ids| ensures Tail(ids[p]).Some? {
      var i, k := DumpedFrom(batches, p);
      TailOfMade(batches, i, k);
    }
    forall prefix: string, n: nat, m: nat | HasIndex(ids, prefix, n) && m < n ensures HasIndex(ids, prefix, m) {
      var p: nat :| p < |ids| && Tail(ids[p]) == Some(Numbered(prefix, n));
      var i, k := DumpedFrom(batches, p);
      TailOfMade(batches, i, k);
      var j := EarlierOccurrence(batches[i].raws, k, batches[i].raws[k].key, m);
      TailOfMade(batches, i, j);
      var q := DumpedHas(batches, i, j);
      assert Tail(ids[q]) == Some(Numbered(prefix, m));
    }
  }

  lemma {:induction false} TailOfMade(batches: seq<Batch>, i: nat, k: nat)
    requires Clean(batches) && i < |batches| && k < |batches[i].raws|
    ensures var b := batches[i];
            Tail(Made(b, k).id) ==
            Some(Numbered(Prefix(b.workspace, b.raws[k].key), Occurrence(b.raws[..k], b.raws[k].key)))
  {
    var b := batches[i];
    TailOfId(b.workspace, b.raws[k].key, Occurrence(b.raws[..k], b.raws[k].key));
  }

  // Findings of two checks share no ID.
  lemma {:induction false} ChecksShareNoId(a: Batch, k: nat, b: Batch, l: nat)
    requires CleanBatch(a) && CleanBatch(b) && k < |a.raws| && l < |b.raws|
    requires a.raws[k].key.check != b.raws[l].key.check
    ensures Made(a, k).id != Made(b, l).id
  {
    var m, n := Occurrence(a.raws[..k], a.raws[k].key), Occurrence(b.raws[..l], b.raws[l].key);
    IdsDiffer(a.workspace, a.raws[k].key, m, b.workspace, b.raws[l].key, n);
  }
}
