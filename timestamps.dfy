/**
 * Date-times and the two timestamp parsers of the pipeline: the loaders'
 * `datetime.fromisoformat` (narrowed here to the `YYYY-MM-DDTHH:MM:SS` form)
 * and `datetime.strptime(s, "%Y-%m-%dT%H:%M:%S")` used by the field
 * validators, whose directives also accept one-digit fields.
 */
module Timestamps {
  import opened Options
  import opened Digits

  datatype DateTime = DateTime(year: int, month: int, day: int, hour: int, minute: int, second: int)

  predicate IsLeapYear(y: int) {
    y % 4 == 0 && (y % 100 != 0 || y % 400 == 0)
  }

  function DaysInMonth(year: int, month: int): (n: int)
    requires 1 <= month <= 12
    ensures 28 <= n <= 31
  {
    if month == 2 then (if IsLeapYear(year) then 29 else 28)
    else if month == 4 || month == 6 || month == 9 || month == 11 then 30
    else 31
  }

  /** What Python's `datetime` constructor accepts (MINYEAR 1 to MAXYEAR 9999, no leap seconds). */
  predicate ValidDateTime(d: DateTime) {
    && 1 <= d.year <= 9999
    && 1 <= d.month <= 12
    && 1 <= d.day <= DaysInMonth(d.year, d.month)
    && 0 <= d.hour < 24
    && 0 <= d.minute < 60
    && 0 <= d.second < 60
  }

  // ---------------------------------------------------------------------
  // ISO form: exactly YYYY-MM-DDTHH:MM:SS
  // ---------------------------------------------------------------------

  predicate IsoLayout(s: string) {
    && |s| == 19
    && s[4] == '-' && s[7] == '-' && s[10] == 'T' && s[13] == ':' && s[16] == ':'
    && AllDigits(s[0..4]) && AllDigits(s[5..7]) && AllDigits(s[8..10])
    && AllDigits(s[11..13]) && AllDigits(s[14..16]) && AllDigits(s[17..19])
  }

  function IsoFields(s: string): DateTime
    requires IsoLayout(s)
  {
    DateTime(Value(s[0..4]), Value(s[5..7]), Value(s[8..10]),
             Value(s[11..13]), Value(s[14..16]), Value(s[17..19]))
  }

  /** `datetime.fromisoformat`, on the fixed-width form only; None stands for ValueError. */
  function ParseIso(s: string): (r: Option<DateTime>)
    ensures r.Some? ==> ValidDateTime(r.value) && IsoLayout(s)
  {
    if IsoLayout(s) && ValidDateTime(IsoFields(s)) then Some(IsoFields(s)) else None
  }

  /** `datetime.isoformat()` of a date-time without fractional seconds. */
  function FormatIso(d: DateTime): (s: string)
    requires ValidDateTime(d)
    ensures |s| == 19
  {
    Pad(d.year, 4) + "-" + Pad(d.month, 2) + "-" + Pad(d.day, 2) + "T"
      + Pad(d.hour, 2) + ":" + Pad(d.minute, 2) + ":" + Pad(d.second, 2)
  }

  lemma FormatIsoSlices(d: DateTime)
    requires ValidDateTime(d)
    ensures var s := FormatIso(d);
      && s[0..4] == Pad(d.year, 4) && s[5..7] == Pad(d.month, 2) && s[8..10] == Pad(d.day, 2)
      && s[11..13] == Pad(d.hour, 2) && s[14..16] == Pad(d.minute, 2) && s[17..19] == Pad(d.second, 2)
      && s[4] == '-' && s[7] == '-' && s[10] == 'T' && s[13] == ':' && s[16] == ':'
  {
  }

  /** Every valid date-time is read back from its ISO rendering. */
  lemma {:induction false} ParseFormatIso(d: DateTime)
    requires ValidDateTime(d)
    ensures ParseIso(FormatIso(d)) == Some(d)
  {
    var s := FormatIso(d);
    FormatIsoSlices(d);
    assert Pow10(4) == 10000 && Pow10(2) == 100;
    ValueOfPad(d.year, 4);
    ValueOfPad(d.month, 2);
    ValueOfPad(d.day, 2);
    ValueOfPad(d.hour, 2);
    ValueOfPad(d.minute, 2);
    ValueOfPad(d.second, 2);
    assert IsoLayout(s);
    assert IsoFields(s) == d;
  }

  /** Two strings of the ISO layout's length that agree field by field and separator by separator are equal. */
  lemma IsoPiecesEqual(s: string, t: string)
    requires |s| == 19 && |t| == 19
    requires s[0..4] == t[0..4] && s[5..7] == t[5..7] && s[8..10] == t[8..10]
    requires s[11..13] == t[11..13] && s[14..16] == t[14..16] && s[17..19] == t[17..19]
    requires s[4] == t[4] && s[7] == t[7] && s[10] == t[10] && s[13] == t[13] && s[16] == t[16]
    ensures s == t
  {
    forall i | 0 <= i < 19
      ensures s[i] == t[i]
    {
      if i < 4 { assert s[i] == s[0..4][i] && t[i] == t[0..4][i]; }
      else if 5 <= i < 7 { assert s[i] == s[5..7][i - 5] && t[i] == t[5..7][i - 5]; }
      else if 8 <= i < 10 { assert s[i] == s[8..10][i - 8] && t[i] == t[8..10][i - 8]; }
      else if 11 <= i < 13 { assert s[i] == s[11..13][i - 11] && t[i] == t[11..13][i - 11]; }
      else if 14 <= i < 16 { assert s[i] == s[14..16][i - 14] && t[i] == t[14..16][i - 14]; }
      else if 17 <= i < 19 { assert s[i] == s[17..19][i - 17] && t[i] == t[17..19][i - 17]; }
    }
  }

  /** Every string the ISO parser accepts is the rendering of what it returns. */
  lemma {:induction false} FormatParseIso(s: string, d: DateTime)
    requires ParseIso(s) == Some(d)
    ensures FormatIso(d) == s
  {
    var t := FormatIso(d);
    assert t[0..4] == s[0..4] && t[5..7] == s[5..7] && t[8..10] == s[8..10] by {
      FormatIsoSlices(d);
      PadOfValue(s[0..4]);
      PadOfValue(s[5..7]);
      PadOfValue(s[8..10]);
    }
    assert t[11..13] == s[11..13] && t[14..16] == s[14..16] && t[17..19] == s[17..19] by {
      FormatIsoSlices(d);
      PadOfValue(s[11..13]);
      PadOfValue(s[14..16]);
      PadOfValue(s[17..19]);
    }
    assert t[4] == s[4] && t[7] == s[7] && t[10] == s[10] && t[13] == s[13] && t[16] == s[16] by {
      FormatIsoSlices(d);
    }
    IsoPiecesEqual(s, t);
  }

  // ---------------------------------------------------------------------
  // strptime with "%Y-%m-%dT%H:%M:%S"
  // ---------------------------------------------------------------------

  /** Splits `s` at its first character from `seps`. */
  function SplitAt(s: string, seps: set<char>): (r: Option<(string, string)>)
    ensures r.Some? ==> |r.value.0| < |s| && s == r.value.0 + [s[|r.value.0|]] + r.value.1
                        && s[|r.value.0|] in seps
                        && forall i | 0 <= i < |r.value.0| :: s[i] !in seps
    ensures r.None? ==> forall i | 0 <= i < |s| :: s[i] !in seps
  {
    if s == [] then None
    else if s[0] in seps then Some(([], s[1..]))
    else match SplitAt(s[1..], seps)
      case None => None
      case Some(p) => Some(([s[0]] + p.0, p.1))
  }

  lemma SplitAtNone(s: string, seps: set<char>)
    requires forall i | 0 <= i < |s| :: s[i] !in seps
    ensures SplitAt(s, seps).None?
  {
  }

  lemma {:induction false} SplitAtFirst(s: string, seps: set<char>, k: nat)
    requires k < |s| && s[k] in seps
    requires forall i | 0 <= i < k :: s[i] !in seps
    ensures SplitAt(s, seps) == Some((s[..k], s[k + 1..]))
  {
    var r := SplitAt(s, seps);
    assert r.Some?;
    var j := |r.value.0|;
    assert j == k;
    assert r.value.0 == s[..k];
  }

  /** A one- or two-digit field no greater than `hi` (directives %H, %M, %S, and %m below 13). */
  predicate NumField(f: string, hi: nat) {
    1 <= |f| <= 2 && AllDigits(f) && Value(f) <= hi
  }

  /** The %d directive: 1 to 31 in one or two digits, or a space before a digit 1 to 9. */
  predicate DayField(f: string) {
    || (NumField(f, 31) && Value(f) >= 1)
    || (|f| == 2 && f[0] == ' ' && IsDigit(f[1]) && f[1] != '0')
  }

  /** One or two digits, the widths `%m`, `%H`, `%M` and `%S` match. */
  predicate ShortDigits(f: string) {
    1 <= |f| <= 2 && AllDigits(f)
  }

  /** The shapes `%d` matches: one or two digits, or a space before a digit. */
  predicate DayShape(f: string) {
    ShortDigits(f) || (|f| == 2 && f[0] == ' ' && IsDigit(f[1]))
  }

  function DayValue(f: string): int
    requires DayShape(f)
  {
    if f[0] == ' ' then DigitValue(f[1]) else Value(f)
  }

  /** The `T` of the pattern, which strptime matches without regard to case. */
  const TSeparators: set<char> := {'T', 't'}

  /** The six fields of a strptime input, split at the literal separators. */
  datatype RawFields = RawFields(year: string, month: string, day: string,
                                 hour: string, minute: string, second: string)

  /**
   * Splits `s` as the pattern "%Y-%m-%dT%H:%M:%S" does: four characters of
   * year and a '-', then the month up to the next '-', the day up to the next
   * `T` (matched without regard to case), the hour and the minute up to a
   * ':', and the seconds to the end of the string.
   */
  function SplitFields(s: string): (r: Option<RawFields>)
    ensures r.Some? ==> |r.value.year| == 4
  {
    if |s| < 5 || s[4] != '-' then None
    else
      var p1 := SplitAt(s[5..], {'-'});
      if p1.None? then None else
      var p2 := SplitAt(p1.value.1, TSeparators);
      if p2.None? then None else
      var p3 := SplitAt(p2.value.1, {':'});
      if p3.None? then None else
      var p4 := SplitAt(p3.value.1, {':'});
      if p4.None? then None else
      Some(RawFields(s[..4], p1.value.0, p2.value.0, p3.value.0, p4.value.0, p4.value.1))
  }

  /** The text of six fields joined by the pattern's literals, `t` standing for its `T`. */
  function JoinFields(f: RawFields, t: char): string {
    f.year + "-" + f.month + "-" + f.day + [t] + f.hour + ":" + f.minute + ":" + f.second
  }

  /** A successful split reads back its input: the fields joined by the literals, with `T` or `t`. */
  lemma SplitFieldsJoins(s: string)
    ensures SplitFields(s).Some? ==> exists t: char | t in TSeparators :: s == JoinFields(SplitFields(s).value, t)
  {
    if SplitFields(s).Some? {
      var p1 := SplitAt(s[5..], {'-'}).value;
      var p2 := SplitAt(p1.1, TSeparators).value;
      var p3 := SplitAt(p2.1, {':'}).value;
      var p4 := SplitAt(p3.1, {':'}).value;
      var f := RawFields(s[..4], p1.0, p2.0, p3.0, p4.0, p4.1);
      assert SplitFields(s) == Some(f);
      var t := p1.1[|p2.0|];
      assert p3.1 == p4.0 + ":" + p4.1;
      assert p2.1 == p3.0 + ":" + p3.1;
      assert p1.1 == p2.0 + [t] + p2.1;
      assert s[5..] == p1.0 + "-" + p1.1;
      assert s == s[..4] + "-" + s[5..];
      JoinAssociates(f, t, p1.1, p2.1, p3.1);
    }
  }

  lemma JoinAssociates(f: RawFields, t: char, r1: string, r2: string, r3: string)
    requires r3 == f.minute + ":" + f.second && r2 == f.hour + ":" + r3 && r1 == f.day + [t] + r2
    ensures JoinFields(f, t) == f.year + "-" + (f.month + "-" + r1)
  {
  }

  /** The directives' widths and ranges on each field, then the date-time constructor. */
  function FromFields(f: RawFields): (r: Option<DateTime>)
    ensures r.Some? <==> && |f.year| == 4 && AllDigits(f.year) && ShortDigits(f.month) && DayShape(f.day)
                         && ShortDigits(f.hour) && ShortDigits(f.minute) && ShortDigits(f.second)
                         && ValidDateTime(DateTime(Value(f.year), Value(f.month), DayValue(f.day),
                                                   Value(f.hour), Value(f.minute), Value(f.second)))
    ensures r.Some? ==> && ValidDateTime(r.value)
                        && r.value.year == Value(f.year) && r.value.month == Value(f.month)
                        && r.value.day == DayValue(f.day) && r.value.hour == Value(f.hour)
                        && r.value.minute == Value(f.minute) && r.value.second == Value(f.second)
  {
    if |f.year| == 4 && AllDigits(f.year) && NumField(f.month, 12) && Value(f.month) >= 1
       && DayField(f.day) && NumField(f.hour, 23) && NumField(f.minute, 59) && NumField(f.second, 61)
    then
      var d := DateTime(Value(f.year), Value(f.month), DayValue(f.day),
                        Value(f.hour), Value(f.minute), Value(f.second));
      if ValidDateTime(d) then Some(d) else None
    else None
  }

  /**
   * `datetime.strptime(s, "%Y-%m-%dT%H:%M:%S")`: a four-digit year, then
   * month, day, hour, minute and second in the widths the directives allow,
   * nothing after the seconds, and a date-time the constructor accepts.
   * None stands for ValueError.
   */
  function Strptime(s: string): (r: Option<DateTime>)
    ensures r.Some? ==> ValidDateTime(r.value)
    ensures r.Some? ==> exists f: RawFields, t: char | t in TSeparators :: s == JoinFields(f, t) && FromFields(f) == r
  {
    SplitFieldsJoins(s);
    match SplitFields(s)
    case None => None
    case Some(f) => FromFields(f)
  }

  lemma {:induction false} SplitAtConcat(pre: string, sep: char, post: string, seps: set<char>)
    requires sep in seps
    requires forall i | 0 <= i < |pre| :: pre[i] !in seps
    ensures SplitAt(pre + [sep] + post, seps) == Some((pre, post))
  {
    var s := pre + [sep] + post;
    SplitAtFirst(s, seps, |pre|);
    assert s[..|pre|] == pre && s[|pre| + 1..] == post;
  }

  predicate FreeOf(f: string, seps: set<char>) {
    forall i | 0 <= i < |f| :: f[i] !in seps
  }

  /** Fields free of the separators that follow them are split back out unchanged. */
  lemma {:induction false} SplitJoinedFields(f: RawFields, t: char)
    requires |f.year| == 4 && t in TSeparators
    requires FreeOf(f.month, {'-'}) && FreeOf(f.day, TSeparators)
    requires FreeOf(f.hour, {':'}) && FreeOf(f.minute, {':'})
    ensures SplitFields(JoinFields(f, t)) == Some(f)
  {
    var s := JoinFields(f, t);
    var r3 := f.minute + ":" + f.second;
    var r2 := f.hour + ":" + r3;
    var r1 := f.day + [t] + r2;
    var r0 := f.month + "-" + r1;
    JoinAssociates(f, t, r1, r2, r3);
    assert s[5..] == r0 && s[..4] == f.year && s[4] == '-';
    SplitAtConcat(f.month, '-', r1, {'-'});
    SplitAtConcat(f.day, t, r2, TSeparators);
    SplitAtConcat(f.hour, ':', r3, {':'});
    SplitAtConcat(f.minute, ':', f.second, {':'});
  }

  lemma {:induction false} SplitIsoFields(s: string)
    requires IsoLayout(s)
    ensures SplitFields(s) == Some(RawFields(s[0..4], s[5..7], s[8..10], s[11..13], s[14..16], s[17..19]))
  {
    var f := RawFields(s[0..4], s[5..7], s[8..10], s[11..13], s[14..16], s[17..19]);
    assert s == JoinFields(f, 'T');
    SplitJoinedFields(f, 'T');
  }

  /** Without a `T` or `t` after the day the pattern does not split the text. */
  lemma {:induction false} SplitFieldsNeedsT(year: string, month: string, rest: string)
    requires |year| == 4 && FreeOf(month, {'-'}) && FreeOf(rest, TSeparators)
    ensures SplitFields(year + "-" + month + "-" + rest).None?
  {
    var s := year + "-" + month + "-" + rest;
    assert s[4] == '-' && s[5..] == month + "-" + rest;
    SplitAtConcat(month, '-', rest, {'-'});
    SplitAtNone(rest, TSeparators);
  }

  /** strptime accepts the join of any fields that the directives and the date-time constructor accept. */
  lemma {:induction false} StrptimeAcceptsJoins(f: RawFields, t: char)
    requires t in TSeparators && FromFields(f).Some?
    ensures Strptime(JoinFields(f, t)) == FromFields(f)
  {
    SplitJoinedFields(f, t);
  }

  /** strptime succeeds exactly on the joins of fields that the directives and the constructor accept. */
  lemma StrptimeJoins(s: string)
    ensures Strptime(s).Some? <==> exists f: RawFields, t: char | t in TSeparators :: s == JoinFields(f, t) && FromFields(f).Some?
  {
    forall f: RawFields, t: char | t in TSeparators && s == JoinFields(f, t) && FromFields(f).Some?
      ensures Strptime(s).Some?
    {
      StrptimeAcceptsJoins(f, t);
    }
  }

  /** strptime accepts every fixed-width ISO timestamp and reads the same date-time from it. */
  lemma {:induction false} IsoAcceptedByStrptime(s: string, d: DateTime)
    requires ParseIso(s) == Some(d)
    ensures Strptime(s) == Some(d)
  {
    SplitIsoFields(s);
  }

  lemma SplitShortFields()
    ensures SplitFields("2024-1-5t9:05:07") == Some(RawFields("2024", "1", "5", "9", "05", "07"))
  {
    var f := RawFields("2024", "1", "5", "9", "05", "07");
    assert "2024-1-5t9:05:07" == JoinFields(f, 't');
    SplitJoinedFields(f, 't');
  }

  lemma ShortDigitValues()
    ensures Value("2024") == 2024 && Value("05") == 5 && Value("07") == 7
    ensures Value("1") == 1 && Value("5") == 5 && Value("9") == 9
  {
    assert Value("2024") == 2024 by { assert "2024"[..3] == "202" && "202"[..2] == "20" && "20"[..1] == "2"; }
    assert Value("05") == 5 by { assert "05"[..1] == "0"; }
    assert Value("07") == 7 by { assert "07"[..1] == "0"; }
  }

  lemma ShortFieldValues()
    ensures FromFields(RawFields("2024", "1", "5", "9", "05", "07")) == Some(DateTime(2024, 1, 5, 9, 5, 7))
  {
    ShortDigitValues();
    assert DayField("5") && DayValue("5") == 5;
  }

  /**
   * strptime takes one-digit fields, which the fixed-layout ISO parse (and
   * Python's `fromisoformat`, which needs two-digit months) rejects.
   */
  lemma StrptimeAcceptsShortFields()
    ensures Strptime("2024-1-5t9:05:07") == Some(DateTime(2024, 1, 5, 9, 5, 7))
    ensures ParseIso("2024-1-5t9:05:07") == None
  {
    SplitShortFields();
    ShortFieldValues();
  }

}
