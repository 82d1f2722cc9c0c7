/**
 * `validate_revert_record` and the reverts loader of
 * `src/load_and_clean_reverts.py`. The checks run inside a `try` whose
 * handler turns any exception into `False`, so validation itself never
 * raises; the loader's own `record.get` still raises on a non-dict record.
 */
module Reverts {
  import opened Options
  import opened Timestamps
  import opened Values
  import opened Batches
  import opened Records
  import opened Utils

  /** The guarded checks before the outer handler: `True`, `False`, or an exception. */
  datatype Verdict = Pass | Fail | Raise

  /** `p in s` on strings: `p` occurs somewhere in `s`. */
  predicate IsSubstring(p: string, s: string) {
    exists i: nat | i + |p| <= |s| :: MatchesAt(s, p, i)
  }

  /**
   * `field in record` on the shapes `json.load` produces; `None` when `in`
   * raises `TypeError`, which it does for every scalar. On a string it is a
   * substring test: a string holds itself, and nothing longer than itself.
   */
  function Contains(record: Value, field: string): (r: Option<bool>)
    ensures r.None? <==> !(record.JObj? || record.JArr? || record.JStr?)
    ensures record.JStr? && field == record.s ==> r == Some(true)
    ensures record.JStr? && |field| > |record.s| ==> r == Some(false)
  {
    match record
    case JObj(fields) => Some(field in fields)
    case JArr(items) => Some(JStr(field) in items)
    case JStr(s) =>
      assert field == s ==> MatchesAt(s, field, 0);
      Some(IsSubstring(field, s))
    case _ => None
  }

  predicate NonEmptyString(v: Value) {
    v.JStr? && v.s != []
  }

  /**
   * The body of the `try`: the three required fields must be present; then
   * indexing needs a dict, `id` and `claim_id` must be non-empty strings, and
   * the timestamp must be a string `fromisoformat` accepts (a non-string raises
   * `TypeError`, which the inner `except ValueError` lets through).
   *
   * So the checks raise exactly on a scalar record, on a list or string that
   * passes the membership test, and on a dict with valid ids whose timestamp
   * is not a string; the outer handler is needed for each.
   */
  function RevertChecks(record: Value): (v: Verdict)
    ensures v == Raise <==>
              || (!record.JObj? && !record.JArr? && !record.JStr?)
              || (!record.JObj? && Contains(record, "id") == Some(true) && Contains(record, "claim_id") == Some(true)
                  && Contains(record, "timestamp") == Some(true))
              || (&& record.JObj?
                  && "id" in record.fields && NonEmptyString(record.fields["id"])
                  && "claim_id" in record.fields && NonEmptyString(record.fields["claim_id"])
                  && "timestamp" in record.fields && !record.fields["timestamp"].JStr?)
  {
    var present := [Contains(record, "id"), Contains(record, "claim_id"), Contains(record, "timestamp")];
    if None in present then Raise
    else if Some(false) in present then Fail
    else if !record.JObj? then Raise
    else
      var fields := record.fields;
      if !NonEmptyString(fields["id"]) then Fail
      else if !NonEmptyString(fields["claim_id"]) then Fail
      else if !fields["timestamp"].JStr? then Raise
      else if ParseIso(fields["timestamp"].s).None? then Fail
      else Pass
  }

  /**
   * `validate_revert_record`: the outer `except Exception` answers `False` for
   * a raise. A revert record is valid exactly when it is a dict with non-empty
   * string ids and an ISO timestamp string.
   */
  predicate ValidateRevertRecord(record: Value): (ok: bool)
    ensures ok <==>
              && record.JObj?
              && "id" in record.fields && NonEmptyString(record.fields["id"])
              && "claim_id" in record.fields && NonEmptyString(record.fields["claim_id"])
              && "timestamp" in record.fields && record.fields["timestamp"].JStr?
              && ParseIso(record.fields["timestamp"].s).Some?
  {
    RevertChecks(record) == Pass
  }

  /** The record a list of the three field names would be: it passes the membership test and then raises inside. */
  lemma ListOfFieldNamesRaisesInside()
    ensures RevertChecks(JArr([JStr("id"), JStr("claim_id"), JStr("timestamp")])) == Raise
    ensures !ValidateRevertRecord(JArr([JStr("id"), JStr("claim_id"), JStr("timestamp")]))
  {
    var items := [JStr("id"), JStr("claim_id"), JStr("timestamp")];
    assert items[0] == JStr("id") && items[1] == JStr("claim_id") && items[2] == JStr("timestamp");
  }

  /**
   * One iteration of the record loop: keep a valid record with its timestamp
   * parsed, log an invalid dict's id, raise on a non-dict. It accepts exactly
   * the valid records, each then a clean revert, and raises exactly on the
   * non-dict ones.
   */
  function RevertStep(record: Value): (s: Step)
    ensures s.Accepted? <==> ValidateRevertRecord(record)
    ensures s.Raised? <==> !record.JObj?
    ensures s.Accepted? ==> IsCleanRevert(s.record)
  {
    if ValidateRevertRecord(record) then
      ConvertTimestamp(record)
    else if record.JObj? then Rejected(RecordId(record.fields))
    else Raised
  }

  /** The shape of every revert the loader keeps. */
  predicate IsCleanRevert(v: Value) {
    && v.JObj?
    && "id" in v.fields && NonEmptyString(v.fields["id"])
    && "claim_id" in v.fields && NonEmptyString(v.fields["claim_id"])
    && "timestamp" in v.fields && v.fields["timestamp"].JTime? && ValidDateTime(v.fields["timestamp"].t)
  }

  /** `load_and_validate_revert_json_data` over the files of a folder, already read and parsed. */
  method LoadAndValidateRevertJsonData(files: seq<JsonFile>) returns (out: Outcome)
    ensures files == [] ==> out == NoJsonFiles
    ensures files != [] ==> out == Loaded(Load(files, RevertStep))
  {
    if files == [] {
      return NoJsonFiles;
    }
    var report := LoadBatches(files, RevertStep);
    return Loaded(report);
  }

  /** Every revert the loader returns has the clean shape. */
  lemma LoadedRevertsAreClean(files: seq<JsonFile>)
    ensures forall i | 0 <= i < |Load(files, RevertStep).valid| :: IsCleanRevert(Load(files, RevertStep).valid[i])
  {
    LoadKeepsAccepted(files, RevertStep, IsCleanRevert);
  }

  /** A file whose document is a dict or a list of dicts. */
  predicate DictRecordsOnly(f: JsonFile) {
    f.source.Parsed? && RecordsOf(f.source.doc).Some? ==>
      forall i | 0 <= i < |RecordsOf(f.source.doc).value| :: RecordsOf(f.source.doc).value[i].JObj?
  }

  /** When every record is a dict, each counted record is either returned or logged invalid. */
  lemma RevertAccounting(files: seq<JsonFile>)
    requires forall k | 0 <= k < |files| :: DictRecordsOnly(files[k])
    ensures |Load(files, RevertStep).valid| + |Load(files, RevertStep).invalidRecords| == Load(files, RevertStep).total
  {
    forall k | 0 <= k < |files|
      ensures RaisesNothing(files[k], RevertStep)
    {
      var f := files[k];
      if f.source.Parsed? && RecordsOf(f.source.doc).Some? {
        assert forall i | 0 <= i < |RecordsOf(f.source.doc).value| ::
          !RevertStep(RecordsOf(f.source.doc).value[i]).Raised?;
      }
    }
    LoadAccounting(files, RevertStep);
  }

  /** The typed revert a clean record denotes. */
  function ToRevert(v: Value): (r: Revert)
    requires IsCleanRevert(v)
    ensures r.id == v.fields["id"].s && r.claimId == v.fields["claim_id"].s && r.timestamp == v.fields["timestamp"].t
    ensures r.id != [] && r.claimId != [] && ValidDateTime(r.timestamp)
  {
    Revert(v.fields["id"].s, v.fields["claim_id"].s, v.fields["timestamp"].t)
  }

}
