/**
 * The per-file loop shared by the claims and reverts loaders: each JSON file
 * is read, a top-level object is wrapped into a one-element list, every
 * record is classified by a record step, and the file's accepted records are
 * kept only if the file raised nothing and produced at least one.
 */
module Batches {
  import opened Options
  import opened Values
  import opened Sequences
  import opened Timestamps

  /** A file's content as `json.load` leaves it; `Unreadable` when opening or parsing raised. */
  datatype Source = Unreadable | Parsed(doc: Value)

  datatype JsonFile = JsonFile(name: string, source: Source)

  /** What the loop does with one record: keep it (converted), log it as invalid, or raise out of the file. */
  datatype Step = Accepted(record: Value) | Rejected(id: Value) | Raised

  /** An entry of `invalid_files`: a file with no valid record, or a file that raised. */
  datatype FileFlag = NoValidRecords(name: string) | Errored(name: string)

  /** An entry of `invalid_records`: the record's `id` (or "Unknown") and its file. */
  datatype Rejection = Rejection(id: Value, file: string)

  datatype Report = Report(valid: seq<Value>, invalidFiles: seq<FileFlag>, invalidRecords: seq<Rejection>, total: nat)

  /**
   * The sequence `for record in records` walks once a dict has been wrapped
   * into a list; a string walks its one-character strings; `None` when
   * `len(records)` raises.
   */
  function RecordsOf(doc: Value): (r: Option<seq<Value>>)
    ensures r.Some? <==> doc.JObj? || doc.JArr? || doc.JStr?
    ensures doc.JObj? ==> r.Some? && |r.value| == 1
    ensures doc.JStr? ==> r.Some? && |r.value| == |doc.s|
  {
    match doc
    case JObj(_) => Some([doc])
    case JArr(items) => Some(items)
    case JStr(s) => Some(seq(|s|, i requires 0 <= i < |s| => JStr([s[i]])))
    case _ => None
  }

  /** The state of one file's inner loop: records kept, rejections logged, and whether it raised. */
  datatype Scan = Scan(kept: seq<Value>, rejected: seq<Rejection>, raised: bool)

  /**
   * The inner loop over `rs`; nothing is looked at after a record raises.
   * Every record is kept or rejected when none raises, one raising record
   * leaves at least itself unaccounted for, and every rejection names the file.
   */
  function ScanRecords(rs: seq<Value>, step: Value -> Step, name: string): (s: Scan)
    ensures if s.raised then |s.kept| + |s.rejected| < |rs| else |s.kept| + |s.rejected| == |rs|
    ensures forall i | 0 <= i < |s.rejected| :: s.rejected[i].file == name
  {
    if rs == [] then Scan([], [], false)
    else
      var s := ScanRecords(rs[..|rs| - 1], step, name);
      if s.raised then s
      else match step(rs[|rs| - 1])
        case Accepted(v) => Scan(s.kept + [v], s.rejected, false)
        case Rejected(id) => Scan(s.kept, s.rejected + [Rejection(id, name)], false)
        case Raised => Scan(s.kept, s.rejected, true)
  }

  /** One file's contribution to the report. */
  datatype FileResult = FileResult(kept: seq<Value>, flag: Option<FileFlag>, rejected: seq<Rejection>, counted: nat)

  /** A file contributes records exactly when it is not flagged, and a flag names the file. */
  function LoadFile(f: JsonFile, step: Value -> Step): (fr: FileResult)
    ensures fr.flag.None? <==> fr.kept != []
    ensures fr.flag.Some? ==> fr.flag.value.name == f.name
  {
    match f.source
    case Unreadable => FileResult([], Some(Errored(f.name)), [], 0)
    case Parsed(doc) =>
      match RecordsOf(doc)
      case None => FileResult([], Some(Errored(f.name)), [], 0)
      case Some(rs) =>
        var s := ScanRecords(rs, step, f.name);
        if s.raised then FileResult([], Some(Errored(f.name)), s.rejected, |rs|)
        else if s.kept == [] then FileResult([], Some(NoValidRecords(f.name)), s.rejected, |rs|)
        else FileResult(s.kept, None, s.rejected, |rs|)
  }

  function Absorb(r: Report, fr: FileResult): Report {
    Report(r.valid + fr.kept,
           r.invalidFiles + (if fr.flag.Some? then [fr.flag.value] else []),
           r.invalidRecords + fr.rejected,
           r.total + fr.counted)
  }

  /**
   * The report after the outer loop has processed `files` in order. Every
   * file either contributes records or is flagged, never both, so nothing is
   * loaded exactly when every file is flagged.
   */
  function Load(files: seq<JsonFile>, step: Value -> Step): (r: Report)
    ensures |r.invalidFiles| <= |files|
    ensures r.valid == [] <==> |r.invalidFiles| == |files|
  {
    if files == [] then Report([], [], [], 0)
    else
      Absorb(Load(files[..|files| - 1], step), LoadFile(files[|files| - 1], step))
  }

  /** A loader's result: `ValueError` when the folder holds no JSON file, else the report. */
  datatype Outcome = NoJsonFiles | Loaded(report: Report)

  /** `record.get('id', 'Unknown')` on a dict record. */
  function RecordId(fields: map<string, Value>): Value {
    if "id" in fields then fields["id"] else JStr("Unknown")
  }

  /**
   * `record['timestamp'] = datetime.fromisoformat(record['timestamp'])`
   * followed by keeping the record; raises when the field is missing, not a
   * string, or not an ISO date-time. A kept record is its input with the
   * timestamp replaced by the parsed time, which renders back to the
   * original text.
   */
  function ConvertTimestamp(record: Value): (s: Step)
    ensures !s.Rejected?
    ensures s.Accepted? ==>
              && record.JObj? && s.record.JObj?
              && "timestamp" in record.fields && record.fields["timestamp"].JStr?
              && s.record.fields.Keys == record.fields.Keys
              && (forall k | k in record.fields && k != "timestamp" :: s.record.fields[k] == record.fields[k])
              && s.record.fields["timestamp"].JTime?
              && ValidDateTime(s.record.fields["timestamp"].t)
              && FormatIso(s.record.fields["timestamp"].t) == record.fields["timestamp"].s
  {
    if record.JObj? && "timestamp" in record.fields && record.fields["timestamp"].JStr?
       && ParseIso(record.fields["timestamp"].s).Some?
    then
      var ts := record.fields["timestamp"].s;
      FormatParseIso(ts, ParseIso(ts).value);
      Accepted(JObj(record.fields["timestamp" := JTime(ParseIso(ts).value)]))
    else Raised
  }

  // ---------------------------------------------------------------------
  // The loops
  // ---------------------------------------------------------------------

  /** Once a prefix of the records has raised, the rest of the file is not looked at. */
  lemma {:induction false} RaisedIsFinal(rs: seq<Value>, j: nat, step: Value -> Step, name: string)
    requires j <= |rs| && ScanRecords(rs[..j], step, name).raised
    ensures ScanRecords(rs, step, name) == ScanRecords(rs[..j], step, name)
    decreases |rs| - j
  {
    if j < |rs| {
      var init := rs[..|rs| - 1];
      assert init[..j] == rs[..j];
      RaisedIsFinal(init, j, step, name);
    } else {
      assert rs[..j] == rs;
    }
  }

  /** The inner `for record in records` loop of one file. */
  method ScanFile(rs: seq<Value>, step: Value -> Step, name: string) returns (kept: seq<Value>, rejected: seq<Rejection>, raised: bool)
    ensures Scan(kept, rejected, raised) == ScanRecords(rs, step, name)
  {
    kept, rejected, raised := [], [], false;
    var j := 0;
    while j < |rs|
      invariant 0 <= j <= |rs|
      invariant Scan(kept, rejected, false) == ScanRecords(rs[..j], step, name)
    {
      assert rs[..j + 1][..j] == rs[..j];
      match step(rs[j]) {
        case Accepted(v) =>
          kept := kept + [v];
        case Rejected(id) =>
          rejected := rejected + [Rejection(id, name)];
        case Raised =>
          raised := true;
          RaisedIsFinal(rs, j + 1, step, name);
          return;
      }
      j := j + 1;
    }
    assert rs[..j] == rs;
  }

  /**
   * The body of the file loop's `try`: a file that cannot be read or whose
   * content has no length is flagged as errored; otherwise its records are
   * counted and scanned, and the file contributes its kept records, or is
   * flagged when it raised or kept nothing.
   */
  method ReadFile(file: JsonFile, step: Value -> Step) returns (fr: FileResult)
    ensures fr == LoadFile(file, step)
  {
    match file.source {
      case Unreadable =>
        fr := FileResult([], Some(Errored(file.name)), [], 0);
      case Parsed(doc) =>
        var records := RecordsOf(doc);
        if records.None? {
          fr := FileResult([], Some(Errored(file.name)), [], 0);
        } else {
          var rs := records.value;
          var validRecords, rejected, raised := ScanFile(rs, step, file.name);
          if raised {
            fr := FileResult([], Some(Errored(file.name)), rejected, |rs|);
          } else if validRecords != [] {
            fr := FileResult(validRecords, None, rejected, |rs|);
          } else {
            fr := FileResult([], Some(NoValidRecords(file.name)), rejected, |rs|);
          }
        }
    }
  }

  /** The outer loop over the files of a folder. */
  method LoadBatches(files: seq<JsonFile>, step: Value -> Step) returns (report: Report)
    ensures report == Load(files, step)
  {
    var valid: seq<Value> := [];
    var invalidFiles: seq<FileFlag> := [];
    var invalidRecords: seq<Rejection> := [];
    var total: nat := 0;
    for k := 0 to |files|
      invariant Report(valid, invalidFiles, invalidRecords, total) == Load(files[..k], step)
    {
      var fr := ReadFile(files[k], step);
      LoadStep(files, k, step);
      valid := valid + fr.kept;
      if fr.flag.Some? {
        invalidFiles := invalidFiles + [fr.flag.value];
      }
      invalidRecords := invalidRecords + fr.rejected;
      total := total + fr.counted;
    }
    assert files[..|files|] == files;
    report := Report(valid, invalidFiles, invalidRecords, total);
  }

  /** One more file extends the report by that file's result. */
  lemma LoadStep(files: seq<JsonFile>, k: nat, step: Value -> Step)
    requires k < |files|
    ensures Load(files[..k + 1], step) == Absorb(Load(files[..k], step), LoadFile(files[k], step))
  {
    assert files[..k + 1][..k] == files[..k];
  }

  // ---------------------------------------------------------------------
  // Properties of one file
  // ---------------------------------------------------------------------

  /** A file's inner loop raises exactly when one of its records raises. */
  lemma {:induction false} ScanRaisedIff(rs: seq<Value>, step: Value -> Step, name: string)
    ensures ScanRecords(rs, step, name).raised <==> exists i | 0 <= i < |rs| :: step(rs[i]).Raised?
  {
    if rs != [] {
      var init := rs[..|rs| - 1];
      ScanRaisedIff(init, step, name);
      if exists i | 0 <= i < |init| :: step(init[i]).Raised? {
        var i :| 0 <= i < |init| && step(init[i]).Raised?;
        assert rs[i] == init[i];
      }
      if exists i | 0 <= i < |rs| :: step(rs[i]).Raised? {
        var i :| 0 <= i < |rs| && step(rs[i]).Raised?;
        if i < |init| {
          assert init[i] == rs[i];
        }
      }
    }
  }

  /** Whatever holds of every record the step accepts holds of every record a file keeps. */
  lemma {:induction false} ScanKeepsAccepted(rs: seq<Value>, step: Value -> Step, name: string, ok: Value -> bool)
    requires forall r :: step(r).Accepted? ==> ok(step(r).record)
    ensures forall i | 0 <= i < |ScanRecords(rs, step, name).kept| :: ok(ScanRecords(rs, step, name).kept[i])
  {
    if rs != [] {
      ScanKeepsAccepted(rs[..|rs| - 1], step, name, ok);
    }
  }

  /** A record that raises discards every record its file had kept, and flags the file as errored. */
  lemma RaiseDiscardsFile(f: JsonFile, step: Value -> Step, i: nat)
    requires f.source.Parsed? && RecordsOf(f.source.doc).Some?
    requires i < |RecordsOf(f.source.doc).value| && step(RecordsOf(f.source.doc).value[i]).Raised?
    ensures LoadFile(f, step).kept == [] && LoadFile(f, step).flag == Some(Errored(f.name))
    ensures LoadFile(f, step).counted == |RecordsOf(f.source.doc).value|
  {
    ScanRaisedIff(RecordsOf(f.source.doc).value, step, f.name);
  }

  /** A top-level object is processed as the one-element list holding it; an empty string has no records. */
  lemma DocumentShapes(name: string, fields: map<string, Value>, step: Value -> Step)
    ensures LoadFile(JsonFile(name, Parsed(JObj(fields))), step) == LoadFile(JsonFile(name, Parsed(JArr([JObj(fields)]))), step)
    ensures LoadFile(JsonFile(name, Parsed(JStr(""))), step) == FileResult([], Some(NoValidRecords(name)), [], 0)
    ensures LoadFile(JsonFile(name, Parsed(JInt(0))), step) == FileResult([], Some(Errored(name)), [], 0)
  {
  }

  // ---------------------------------------------------------------------
  // Properties of the whole batch
  // ---------------------------------------------------------------------

  /** Two reports of consecutive batches, joined. */
  function Join(a: Report, b: Report): Report {
    Report(a.valid + b.valid, a.invalidFiles + b.invalidFiles, a.invalidRecords + b.invalidRecords, a.total + b.total)
  }

  lemma JoinAbsorb(x: Report, y: Report, fr: FileResult)
    ensures Absorb(Join(x, y), fr) == Join(x, Absorb(y, fr))
  {
    var extra := if fr.flag.Some? then [fr.flag.value] else [];
    assert (x.valid + y.valid) + fr.kept == x.valid + (y.valid + fr.kept);
    assert (x.invalidFiles + y.invalidFiles) + extra == x.invalidFiles + (y.invalidFiles + extra);
    assert (x.invalidRecords + y.invalidRecords) + fr.rejected == x.invalidRecords + (y.invalidRecords + fr.rejected);
  }

  /** Files are processed independently: loading two batches in turn is loading each and joining the reports. */
  lemma {:induction false} LoadAppend(a: seq<JsonFile>, b: seq<JsonFile>, step: Value -> Step)
    ensures Load(a + b, step) == Join(Load(a, step), Load(b, step))
    decreases |b|
  {
    if b == [] {
      assert a + b == a;
    } else {
      var bInit := b[..|b| - 1];
      assert (a + b)[..|a + b| - 1] == a + bInit;
      assert (a + b)[|a + b| - 1] == b[|b| - 1];
      LoadAppend(a, bInit, step);
      JoinAbsorb(Load(a, step), Load(bInit, step), LoadFile(b[|b| - 1], step));
    }
  }

  /** Whatever holds of every record the step accepts holds of every record the batch returns. */
  lemma {:induction false} LoadKeepsAccepted(files: seq<JsonFile>, step: Value -> Step, ok: Value -> bool)
    requires forall r :: step(r).Accepted? ==> ok(step(r).record)
    ensures forall i | 0 <= i < |Load(files, step).valid| :: ok(Load(files, step).valid[i])
  {
    if files != [] {
      var init := files[..|files| - 1];
      var f := files[|files| - 1];
      LoadKeepsAccepted(init, step, ok);
      if f.source.Parsed? && RecordsOf(f.source.doc).Some? {
        ScanKeepsAccepted(RecordsOf(f.source.doc).value, step, f.name, ok);
      }
      var r := Load(files, step);
      forall i | 0 <= i < |r.valid|
        ensures ok(r.valid[i])
      {
        var prev := Load(init, step).valid;
        if i >= |prev| {
          assert r.valid[i] == LoadFile(f, step).kept[i - |prev|];
        }
      }
    }
  }

  /** A file none of whose records raises. */
  predicate RaisesNothing(f: JsonFile, step: Value -> Step) {
    f.source.Parsed? && RecordsOf(f.source.doc).Some? ==>
      forall i | 0 <= i < |RecordsOf(f.source.doc).value| :: !step(RecordsOf(f.source.doc).value[i]).Raised?
  }

  /**
   * The counted total bounds the records kept plus those logged invalid, and
   * equals it when no record raises anywhere in the batch.
   */
  lemma {:induction false} LoadAccounting(files: seq<JsonFile>, step: Value -> Step)
    ensures |Load(files, step).valid| + |Load(files, step).invalidRecords| <= Load(files, step).total
    ensures (forall k | 0 <= k < |files| :: RaisesNothing(files[k], step)) ==>
              |Load(files, step).valid| + |Load(files, step).invalidRecords| == Load(files, step).total
  {
    if files != [] {
      var init := files[..|files| - 1];
      var f := files[|files| - 1];
      LoadAccounting(init, step);
      if f.source.Parsed? && RecordsOf(f.source.doc).Some? {
        ScanRaisedIff(RecordsOf(f.source.doc).value, step, f.name);
      }
      if forall k | 0 <= k < |files| :: RaisesNothing(files[k], step) {
        assert forall k | 0 <= k < |init| :: init[k] == files[k];
        assert RaisesNothing(files[|files| - 1], step);
      }
    }
  }

}
