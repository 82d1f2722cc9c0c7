/**
 * `validate_claim_record` and the claims loader of
 * `src/load_and_clean_claims.py`: a record is checked against the schema
 * table key by key, and each file's records are accepted, rejected, or raise
 * out of the file.
 */
module Claims {
  import opened Options
  import opened Timestamps
  import opened Values
  import opened Batches
  import opened Records
  import Utils

  /** The expected types of the schema table: `str`, `int`, `float` and the `'timestamp'` marker. */
  datatype Kind = KStr | KInt | KFloat | KTimestamp

  /** `validate_claim_record`'s result: `True`, `False`, or an exception escaping it. */
  datatype Verdict = Pass | Fail | Raise

  /** `claims_schema`, in its key order. */
  const ClaimsSchema: seq<(string, Kind)> :=
    [("id", KStr), ("ndc", KStr), ("npi", KStr), ("quantity", KInt), ("price", KFloat), ("timestamp", KTimestamp)]

  /**
   * One pass of the schema loop. A missing key fails. A timestamp must be a
   * string `fromisoformat` accepts; a non-string makes it raise `TypeError`,
   * which the loop's `except ValueError` does not catch. An `int` key takes an
   * `int` (a `bool` included) or an integral `float`; `str` and `float` keys take
   * exactly that type. So a field passes exactly when its key is present and
   * its value conforms to the kind, and only a present non-string timestamp
   * raises.
   */
  function FieldCheck(fields: map<string, Value>, entry: (string, Kind)): (v: Verdict)
    ensures v == Pass <==> entry.0 in fields && Conforms(fields[entry.0], entry.1)
    ensures v == Raise <==> entry.1 == KTimestamp && entry.0 in fields && !fields[entry.0].JStr?
  {
    var (key, kind) := entry;
    if key !in fields then Fail
    else
      var v := fields[key];
      match kind
      case KTimestamp => if !v.JStr? then Raise else if ParseIso(v.s).Some? then Pass else Fail
      case KInt => if v.JInt? || v.JBool? || (v.JFloat? && IsIntegral(v.f)) then Pass else Fail
      case KStr => if v.JStr? then Pass else Fail
      case KFloat => if v.JFloat? then Pass else Fail
  }

  /** The loop over the schema entries in order; the first entry that does not pass decides. */
  function CheckFields(fields: map<string, Value>, schema: seq<(string, Kind)>): (v: Verdict)
    ensures v == Pass <==> forall i | 0 <= i < |schema| :: FieldCheck(fields, schema[i]) == Pass
  {
    if schema == [] then Pass
    else
      var v := FieldCheck(fields, schema[0]);
      assert forall i | 1 <= i < |schema| :: schema[i] == schema[1..][i - 1];
      if v != Pass then v else CheckFields(fields, schema[1..])
  }

  /**
   * `validate_claim_record(data, claims_schema)`; `data.get` raises on anything
   * but a dict. A claim record passes exactly when it is a dict holding every
   * schema key with a conforming value; keys outside the schema are not looked at.
   */
  function ValidateClaimRecord(data: Value): (v: Verdict)
    ensures v == Pass <==>
              data.JObj? && forall i | 0 <= i < |ClaimsSchema| ::
                ClaimsSchema[i].0 in data.fields && Conforms(data.fields[ClaimsSchema[i].0], ClaimsSchema[i].1)
  {
    if !data.JObj? then Raise
    else
      SchemaFieldsMeaning(data.fields);
      CheckFields(data.fields, ClaimsSchema)
  }

  /** What a value of each kind must be, stated on its own: the reference the field check is proved against. */
  predicate Conforms(v: Value, kind: Kind) {
    match kind
    case KStr => v.JStr?
    case KInt => Utils.AsNumber(v).Some? && IsIntegral(Utils.AsNumber(v).value)
    case KFloat => v.JFloat?
    case KTimestamp => v.JStr? && ParseIso(v.s).Some?
  }

  /** A verdict other than `Pass` is that of the first entry that does not pass. */
  lemma {:induction false} CheckFieldsOutcome(fields: map<string, Value>, schema: seq<(string, Kind)>)
    ensures CheckFields(fields, schema) != Pass ==>
              exists i | 0 <= i < |schema| :: (forall j | 0 <= j < i :: FieldCheck(fields, schema[j]) == Pass)
                                               && CheckFields(fields, schema) == FieldCheck(fields, schema[i])
  {
    if schema != [] {
      CheckFieldsOutcome(fields, schema[1..]);
      assert forall i | 1 <= i < |schema| :: schema[i] == schema[1..][i - 1];
      if CheckFields(fields, schema) != Pass && FieldCheck(fields, schema[0]) == Pass {
        var i :| 0 <= i < |schema[1..]| && (forall j | 0 <= j < i :: FieldCheck(fields, schema[1..][j]) == Pass)
                 && CheckFields(fields, schema[1..]) == FieldCheck(fields, schema[1..][i]);
        assert forall j | 0 <= j < i + 1 :: FieldCheck(fields, schema[j]) == Pass by {
          forall j | 0 <= j < i + 1
            ensures FieldCheck(fields, schema[j]) == Pass
          {
            if j > 0 {
              assert schema[j] == schema[1..][j - 1];
            }
          }
        }
        assert CheckFields(fields, schema) == FieldCheck(fields, schema[i + 1]);
      }
    }
  }

  /** When every entry before `i` passes and entry `i` does not, entry `i` decides. */
  lemma {:induction false} FirstFailureDecides(fields: map<string, Value>, schema: seq<(string, Kind)>, i: nat)
    requires i < |schema| && FieldCheck(fields, schema[i]) != Pass
    requires forall j | 0 <= j < i :: FieldCheck(fields, schema[j]) == Pass
    ensures CheckFields(fields, schema) == FieldCheck(fields, schema[i])
  {
    if i > 0 {
      assert forall j | 0 <= j < i - 1 :: schema[1..][j] == schema[j + 1];
      FirstFailureDecides(fields, schema[1..], i - 1);
    }
  }

  /** Entries of the schema table other than the timestamp cannot raise. */
  lemma OnlyTimestampRaises(fields: map<string, Value>, i: nat)
    requires i < |ClaimsSchema| && FieldCheck(fields, ClaimsSchema[i]) == Raise
    ensures i == 5
  {
  }

  lemma SchemaFieldsMeaning(fields: map<string, Value>)
    ensures forall i | 0 <= i < |ClaimsSchema| ::
              FieldCheck(fields, ClaimsSchema[i]) == Pass <==>
                ClaimsSchema[i].0 in fields && Conforms(fields[ClaimsSchema[i].0], ClaimsSchema[i].1)
  {
    forall i | 0 <= i < |ClaimsSchema|
      ensures FieldCheck(fields, ClaimsSchema[i]) == Pass <==>
                ClaimsSchema[i].0 in fields && Conforms(fields[ClaimsSchema[i].0], ClaimsSchema[i].1)
    {
      var entry := ClaimsSchema[i];
      assert FieldCheck(fields, entry) == Pass <==> entry.0 in fields && Conforms(fields[entry.0], entry.1);
    }
  }

  /**
   * Validation raises exactly for a non-dict, or for a dict whose first five
   * schema entries pass and whose timestamp is present but not a string.
   */
  lemma ValidateClaimRaiseIff(data: Value)
    ensures ValidateClaimRecord(data) == Raise <==>
              || !data.JObj?
              || ((forall i | 0 <= i < 5 :: FieldCheck(data.fields, ClaimsSchema[i]) == Pass)
                  && "timestamp" in data.fields && !data.fields["timestamp"].JStr?)
  {
    if data.JObj? {
      var fields := data.fields;
      CheckFieldsOutcome(fields, ClaimsSchema);
      if CheckFields(fields, ClaimsSchema) == Raise {
        var i :| 0 <= i < |ClaimsSchema| && (forall j | 0 <= j < i :: FieldCheck(fields, ClaimsSchema[j]) == Pass)
                 && CheckFields(fields, ClaimsSchema) == FieldCheck(fields, ClaimsSchema[i]);
        OnlyTimestampRaises(fields, i);
      }
      if (forall i | 0 <= i < 5 :: FieldCheck(fields, ClaimsSchema[i]) == Pass)
         && "timestamp" in fields && !fields["timestamp"].JStr? {
        FirstFailureDecides(fields, ClaimsSchema, 5);
      }
    }
  }

  /** A dict missing any schema key is rejected (not raised on). */
  lemma MissingKeyRejects(fields: map<string, Value>, k: nat)
    requires k < |ClaimsSchema| && ClaimsSchema[k].0 !in fields
    ensures ValidateClaimRecord(JObj(fields)) == Fail
  {
    CheckFieldsOutcome(fields, ClaimsSchema);
    assert FieldCheck(fields, ClaimsSchema[k]) == Fail;
    var i :| 0 <= i < |ClaimsSchema| && (forall j | 0 <= j < i :: FieldCheck(fields, ClaimsSchema[j]) == Pass)
             && CheckFields(fields, ClaimsSchema) == FieldCheck(fields, ClaimsSchema[i]);
    assert i <= k;
    if CheckFields(fields, ClaimsSchema) == Raise {
      OnlyTimestampRaises(fields, i);
    }
  }

  /**
   * Only the type of the quantity and the price is checked: a passing record
   * still passes with any integer quantity (zero and negatives included) and
   * any float price, while an integer price is rejected.
   */
  lemma NoRangeChecks(fields: map<string, Value>, q: int, p: real, n: int)
    requires ValidateClaimRecord(JObj(fields)) == Pass
    ensures ValidateClaimRecord(JObj(fields["quantity" := JInt(q)])) == Pass
    ensures ValidateClaimRecord(JObj(fields["price" := JFloat(p)])) == Pass
    ensures ValidateClaimRecord(JObj(fields["price" := JInt(n)])) == Fail
  {
    var f2 := fields["price" := JInt(n)];
    assert forall j | 0 <= j < 4 :: FieldCheck(f2, ClaimsSchema[j]) == FieldCheck(fields, ClaimsSchema[j]) == Pass;
    FirstFailureDecides(f2, ClaimsSchema, 4);
  }

  /**
   * One iteration of the record loop: keep the record with its timestamp
   * parsed, or log its id, or raise. It accepts exactly the records that pass
   * validation, each then a clean claim, and raises exactly when validation does.
   */
  function ClaimStep(record: Value): (s: Step)
    ensures s.Accepted? <==> ValidateClaimRecord(record) == Pass
    ensures s.Raised? <==> ValidateClaimRecord(record) == Raise
    ensures s.Accepted? ==> IsCleanClaim(s.record)
  {
    match ValidateClaimRecord(record)
    case Pass => ConvertedClaimIsClean(record); ConvertTimestamp(record)
    case Fail => Rejected(if record.JObj? then RecordId(record.fields) else JStr("Unknown"))
    case Raise => Raised
  }

  /** The shape of every claim the loader keeps. */
  predicate IsCleanClaim(v: Value) {
    && v.JObj?
    && "id" in v.fields && v.fields["id"].JStr?
    && "ndc" in v.fields && v.fields["ndc"].JStr?
    && "npi" in v.fields && v.fields["npi"].JStr?
    && "quantity" in v.fields && Conforms(v.fields["quantity"], KInt)
    && "price" in v.fields && v.fields["price"].JFloat?
    && "timestamp" in v.fields && v.fields["timestamp"].JTime? && ValidDateTime(v.fields["timestamp"].t)
  }

  /** A record that passes validation is kept, with only its timestamp changed, as a clean claim. */
  lemma ConvertedClaimIsClean(record: Value)
    requires ValidateClaimRecord(record) == Pass
    ensures ConvertTimestamp(record).Accepted? && IsCleanClaim(ConvertTimestamp(record).record)
  {
    assert ClaimsSchema[5] == ("timestamp", KTimestamp);
    assert record.fields["timestamp"].JStr? && ParseIso(record.fields["timestamp"].s).Some?;
    assert ClaimsSchema[0] == ("id", KStr) && ClaimsSchema[1] == ("ndc", KStr) && ClaimsSchema[2] == ("npi", KStr);
    assert ClaimsSchema[3] == ("quantity", KInt) && ClaimsSchema[4] == ("price", KFloat);
  }

  /** `load_and_validate_json_data` over the files of a folder, already read and parsed. */
  method LoadAndValidateJsonData(files: seq<JsonFile>) returns (out: Outcome)
    ensures files == [] ==> out == NoJsonFiles
    ensures files != [] ==> out == Loaded(Load(files, ClaimStep))
  {
    if files == [] {
      return NoJsonFiles;
    }
    var report := LoadBatches(files, ClaimStep);
    return Loaded(report);
  }

  /** Every claim the loader returns has the clean shape: string ids and codes, integral quantity, float price, parsed timestamp. */
  lemma LoadedClaimsAreClean(files: seq<JsonFile>)
    ensures forall i | 0 <= i < |Load(files, ClaimStep).valid| :: IsCleanClaim(Load(files, ClaimStep).valid[i])
  {
    LoadKeepsAccepted(files, ClaimStep, IsCleanClaim);
  }

  /** The typed claim a clean record denotes. */
  function ToClaim(v: Value): (c: Claim)
    requires IsCleanClaim(v)
    ensures c.id == v.fields["id"].s && c.ndc == v.fields["ndc"].s && c.npi == v.fields["npi"].s
    ensures c.quantity as real == Utils.AsNumber(v.fields["quantity"]).value
    ensures c.price == v.fields["price"].f && c.timestamp == v.fields["timestamp"].t
  {
    Claim(v.fields["id"].s, v.fields["ndc"].s, v.fields["npi"].s,
          Utils.AsNumber(v.fields["quantity"]).value.Floor, v.fields["price"].f, v.fields["timestamp"].t)
  }

  /** The schema check and `is_valid_quantity` disagree: every valid quantity passes the schema, but so does zero. */
  lemma QuantityCheckIsLooser(v: Value)
    ensures Utils.IsValidQuantity(v) ==> Conforms(v, KInt)
    ensures Conforms(JInt(0), KInt) && !Utils.IsValidQuantity(JInt(0))
  {
  }

}
