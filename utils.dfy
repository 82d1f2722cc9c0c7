/**
 * The field validators and cross-reference filters of `src/utils.py`:
 * format predicates for drug codes, provider identifiers, quantities,
 * timestamps and UUID tokens, and the two membership filters.
 */
module Utils {
  import opened Options
  import opened Digits
  import opened Timestamps
  import opened Values
  import opened Sequences
  import opened Records

  // ---------------------------------------------------------------------
  // Fixed-width digit codes
  // ---------------------------------------------------------------------

  /** `str.isdigit()` on ASCII text: at least one character, all of them digits. */
  predicate IsDigitString(s: string) {
    |s| > 0 && AllDigits(s)
  }

  /** `is_valid_ndc`: exactly the eleven-digit codes, zero-padded; any other value is rejected. */
  predicate IsValidNdc(v: Value): (ok: bool)
    ensures ok <==> exists n: nat :: n < Pow10(11) && v == JStr(Pad(n, 11))
  {
    v.JStr? && (FixedWidthCodes(v.s, 11); IsDigitString(v.s) && |v.s| == 11)
  }

  /** `is_valid_npi`: exactly the ten-digit identifiers, zero-padded; any other value is rejected. */
  predicate IsValidNpi(v: Value): (ok: bool)
    ensures ok <==> exists n: nat :: n < Pow10(10) && v == JStr(Pad(n, 10))
  {
    v.JStr? && (FixedWidthCodes(v.s, 10); IsDigitString(v.s) && |v.s| == 10)
  }

  /** The digit strings of a given width are exactly the zero-padded renderings of the numbers below 10^width. */
  lemma {:induction false} FixedWidthCodes(s: string, width: nat)
    requires width > 0
    ensures IsDigitString(s) && |s| == width <==> exists n: nat :: n < Pow10(width) && s == Pad(n, width)
  {
    if IsDigitString(s) && |s| == width {
      ValueBound(s);
      PadOfValue(s);
      assert Digits.Value(s) < Pow10(width) && s == Pad(Digits.Value(s), width);
    }
  }

  // ---------------------------------------------------------------------
  // Quantities
  // ---------------------------------------------------------------------

  /** The number an `int`, `float` or `bool` stands for in arithmetic (`True` is 1). */
  function AsNumber(v: Value): Option<real> {
    match v
    case JBool(b) => Some(if b then 1.0 else 0.0)
    case JInt(i) => Some(i as real)
    case JFloat(f) => Some(f)
    case _ => None
  }

  /**
   * `is_valid_quantity`: an `int` or `float` (a `bool` is an `int` in Python)
   * whose `int()` truncation equals it, and that is greater than zero.
   */
  predicate IsValidQuantity(v: Value): (ok: bool)
    ensures ok <==> AsNumber(v).Some? && IsIntegral(AsNumber(v).value) && AsNumber(v).value >= 1.0
  {
    match v
    case JBool(b) => b
    case JInt(i) => i > 0
    case JFloat(f) => f.Floor as real == f && f > 0.0
    case _ => false
  }

  // ---------------------------------------------------------------------
  // Timestamps
  // ---------------------------------------------------------------------

  /** `is_valid_timestamp`: `datetime.strptime(s, "%Y-%m-%dT%H:%M:%S")` succeeds. */
  predicate IsValidTimestamp(s: string): (ok: bool)
    ensures ok <==> exists f: RawFields, t: char | t in TSeparators :: s == JoinFields(f, t) && FromFields(f).Some?
    ensures ParseIso(s).Some? ==> ok
  {
    StrptimeJoins(s);
    IsoParsesUnderStrptime(s);
    Strptime(s).Some?
  }

  lemma IsoParsesUnderStrptime(s: string)
    ensures ParseIso(s).Some? ==> Strptime(s).Some?
  {
    if ParseIso(s).Some? {
      IsoAcceptedByStrptime(s, ParseIso(s).value);
    }
  }

  /** The validator accepts a timestamp with one-digit fields that the loaders' parse rejects. */
  lemma TimestampValidatorDisagrees()
    ensures IsValidTimestamp("2024-1-5t9:05:07") && ParseIso("2024-1-5t9:05:07").None?
  {
    StrptimeAcceptsShortFields();
  }

  /** A space in place of the `T` is rejected. */
  lemma TimestampValidatorRejectsSpace()
    ensures !IsValidTimestamp("2024-01-05 09:05:07")
  {
    SpacedSplitFails();
  }

  lemma SpacedSplitFails()
    ensures SplitFields("2024-01-05 09:05:07").None?
  {
    assert "2024-01-05 09:05:07" == "2024" + "-" + "01" + "-" + "05 09:05:07";
    SplitFieldsNeedsT("2024", "01", "05 09:05:07");
  }

  /** A time-zone designator after the seconds is rejected. */
  lemma TimestampValidatorRejectsZone()
    ensures !IsValidTimestamp("2024-01-05T09:05:07Z")
  {
    var zoned := "2024-01-05T09:05:07Z";
    var f := RawFields("2024", "01", "05", "09", "05", "07Z");
    assert zoned == JoinFields(f, 'T');
    SplitJoinedFields(f, 'T');
    assert Strptime(zoned).None?;
  }

  // ---------------------------------------------------------------------
  // UUID tokens
  // ---------------------------------------------------------------------

  predicate IsHexDigit(c: char) {
    '0' <= c <= '9' || 'a' <= c <= 'f' || 'A' <= c <= 'F'
  }

  predicate AllHex(s: string) {
    forall i | 0 <= i < |s| :: IsHexDigit(s[i])
  }

  /** `s.replace(pat, '')`: removes the non-overlapping occurrences of `pat`, scanning left to right. */
  function RemoveAll(s: string, pat: string): string
    requires |pat| > 0
    decreases |s|
  {
    if |s| < |pat| then s
    else if s[..|pat|] == pat then RemoveAll(s[|pat|..], pat)
    else [s[0]] + RemoveAll(s[1..], pat)
  }

  function StripLeading(s: string, cs: set<char>): string {
    if s != [] && s[0] in cs then StripLeading(s[1..], cs) else s
  }

  function StripTrailing(s: string, cs: set<char>): string {
    if s != [] && s[|s| - 1] in cs then StripTrailing(s[..|s| - 1], cs) else s
  }

  /** `s.strip(chars)` */
  function Strip(s: string, cs: set<char>): string {
    StripTrailing(StripLeading(s, cs), cs)
  }

  /**
   * The hex text `uuid.UUID` keeps of its argument: prefixes, surrounding
   * braces and hyphens removed. No hyphen survives, and a string with no
   * `u`, no hyphen and no brace at either end is kept as it is.
   */
  function UuidHex(s: string): (h: string)
    ensures Lacks(h, '-')
    ensures PlainToken(s) ==> h == s
  {
    var t := Strip(RemoveAll(RemoveAll(s, "urn:"), "uuid:"), {'{', '}'});
    RemoveCharLacks(t, '-');
    PlainTokenKept(s);
    RemoveAll(t, "-")
  }

  /** Nothing for the cleaning to remove: no `u` to start a prefix, no hyphen, no brace at either end. */
  predicate PlainToken(s: string) {
    && Lacks(s, 'u') && Lacks(s, '-')
    && (s != [] ==> s[0] !in {'{', '}'} && s[|s| - 1] !in {'{', '}'})
  }

  lemma PlainTokenKept(s: string)
    ensures PlainToken(s) ==> RemoveAll(Strip(RemoveAll(RemoveAll(s, "urn:"), "uuid:"), {'{', '}'}), "-") == s
  {
    if PlainToken(s) {
      RemoveAllAbsent(s, "urn:");
      RemoveAllAbsent(s, "uuid:");
      if s != [] {
        StripUntouched(s, {'{', '}'});
      }
      RemoveAllAbsent(s, "-");
    }
  }

  /** Removing a one-character pattern removes every occurrence of that character. */
  lemma {:induction false} RemoveCharLacks(s: string, c: char)
    ensures Lacks(RemoveAll(s, [c]), c)
    decreases |s|
  {
    if |s| >= 1 {
      RemoveCharLacks(s[1..], c);
    }
  }

  /** The ASCII characters `str.isspace` accepts. */
  predicate IsPyWhitespace(c: char) {
    c == ' ' || 9 <= c as int <= 13 || 28 <= c as int <= 31
  }

  function TrimWhitespace(s: string): string
    decreases |s|
  {
    if s != [] && IsPyWhitespace(s[0]) then TrimWhitespace(s[1..])
    else if s != [] && IsPyWhitespace(s[|s| - 1]) then TrimWhitespace(s[..|s| - 1])
    else s
  }

  /** Hex digits, with single underscores allowed between two digits. */
  predicate HexDigitGroups(b: string) {
    && |b| > 0 && IsHexDigit(b[0]) && IsHexDigit(b[|b| - 1])
    && (forall i | 0 <= i < |b| :: IsHexDigit(b[i]) || b[i] == '_')
    && (forall i | 0 <= i < |b| - 1 :: !(b[i] == '_' && b[i + 1] == '_'))
  }

  /** The characters `int(t, 16)` can accept: hex digits, whitespace, a sign, the `x` of `0x`, and `_`. */
  predicate HexLiteralChar(c: char) {
    IsHexDigit(c) || IsPyWhitespace(c) || c in {'+', '-', 'x', 'X', '_'}
  }

  predicate AllLiteral(s: string) {
    forall i | 0 <= i < |s| :: HexLiteralChar(s[i])
  }

  /**
   * The text `int(t, 16)` accepts: surrounding whitespace, an optional sign,
   * an optional `0x` prefix (which may be followed by one underscore), then
   * hex digits in underscore-separated groups.
   */
  predicate IsHexIntLiteral(text: string) {
    HexCore(Unsigned(TrimWhitespace(text)))
  }

  /** `int(…, 16)` accepts every non-empty run of hex digits, and nothing with a character outside `HexLiteralChar`. */
  lemma HexIntLiteralChars(text: string)
    ensures IsHexIntLiteral(text) ==> AllLiteral(text)
    ensures |text| > 0 && AllHex(text) ==> IsHexIntLiteral(text)
  {
    if IsHexIntLiteral(text) {
      SignedLiteral(TrimWhitespace(text));
      TrimmedLiteral(text);
    }
    if |text| > 0 && AllHex(text) {
      WhitespaceUntouched(text);
    }
  }

  /** The text after an optional leading sign. */
  function Unsigned(u: string): string {
    if |u| > 0 && (u[0] == '+' || u[0] == '-') then u[1..] else u
  }

  /** The unsigned part: hex digit groups, after an optional `0x` prefix that one `_` may follow. */
  predicate HexCore(v: string) {
    || HexDigitGroups(v)
    || (|v| >= 2 && v[0] == '0' && (v[1] == 'x' || v[1] == 'X')
        && (HexDigitGroups(v[2..]) || (|v| >= 3 && v[2] == '_' && HexDigitGroups(v[3..]))))
  }

  lemma CoreLiteral(v: string)
    requires HexCore(v)
    ensures AllLiteral(v)
  {
    if !HexDigitGroups(v) {
      var k := if HexDigitGroups(v[2..]) then 2 else 3;
      assert forall i | k <= i < |v| :: v[i] == v[k..][i - k];
    }
  }

  /** A sign before an accepted core is literal text too. */
  lemma SignedLiteral(u: string)
    requires HexCore(Unsigned(u))
    ensures AllLiteral(u)
  {
    var v := Unsigned(u);
    CoreLiteral(v);
    if v != u {
      assert forall j | 1 <= j < |u| :: u[j] == v[j - 1];
    }
  }

  /** Trimming removes only whitespace, which is itself literal text. */
  lemma {:induction false} TrimmedLiteral(t: string)
    requires AllLiteral(TrimWhitespace(t))
    ensures AllLiteral(t)
    decreases |t|
  {
    if t != [] && IsPyWhitespace(t[0]) {
      TrimmedLiteral(t[1..]);
      assert forall i | 1 <= i < |t| :: t[i] == t[1..][i - 1];
    } else if t != [] && IsPyWhitespace(t[|t| - 1]) {
      TrimmedLiteral(t[..|t| - 1]);
      assert forall i | 0 <= i < |t| - 1 :: t[i] == t[..|t| - 1][i];
    }
  }

  /**
   * `is_valid_uuid`: `uuid.UUID(s)` raises no ValueError. The cleaned text
   * must have 32 characters that `int(…, 16)` reads; 32 hex digits always pass.
   */
  predicate IsValidUuid(s: string): (ok: bool)
    ensures ok ==> |UuidHex(s)| == 32 && forall i | 0 <= i < 32 :: HexLiteralChar(UuidHex(s)[i]) && UuidHex(s)[i] != '-'
    ensures AllHex(UuidHex(s)) ==> (ok <==> |UuidHex(s)| == 32)
  {
    HexIntLiteralChars(UuidHex(s));
    |UuidHex(s)| == 32 && IsHexIntLiteral(UuidHex(s))
  }

  /** `n` copies of `c`. */
  function Repeat(c: char, n: nat): (r: string)
    ensures |r| == n && forall i | 0 <= i < n :: r[i] == c
  {
    seq(n, _ => c)
  }

  /** `int(hex, 16)` lets a sign through, so `+` and 31 zeros is a UUID. */
  lemma UuidSignAccepted()
    ensures IsValidUuid("+" + Repeat('0', 31)) && !AllHex(UuidHex("+" + Repeat('0', 31)))
  {
    var s := "+" + Repeat('0', 31);
    assert PlainToken(s) && UuidHex(s) == s;
    WhitespaceUntouched(s);
    assert s[1..] == Repeat('0', 31);
    assert HexDigitGroups(s[1..]);
  }

  /** 32 characters that are no hex digits are not a UUID. */
  lemma UuidLettersRejected()
    ensures !IsValidUuid(Repeat('g', 32))
  {
    var g := Repeat('g', 32);
    assert PlainToken(g) && UuidHex(g) == g;
    assert !HexLiteralChar(g[0]);
    HexIntLiteralChars(g);
  }

  predicate MatchesAt(s: string, pat: string, i: nat)
    requires i + |pat| <= |s|
  {
    s[i..i + |pat|] == pat
  }

  /** `pat` occurs nowhere in `s`. */
  predicate NoOccurrence(s: string, pat: string) {
    forall i: nat | i + |pat| <= |s| :: !MatchesAt(s, pat, i)
  }

  lemma {:induction false} RemoveAllNoMatch(s: string, pat: string)
    requires |pat| > 0 && NoOccurrence(s, pat)
    ensures RemoveAll(s, pat) == s
    decreases |s|
  {
    if |s| >= |pat| {
      assert !MatchesAt(s, pat, 0);
      forall i: nat | i + |pat| <= |s| - 1
        ensures !MatchesAt(s[1..], pat, i)
      {
        assert s[1..][i..i + |pat|] == s[i + 1..i + 1 + |pat|];
        assert !MatchesAt(s, pat, i + 1);
      }
      RemoveAllNoMatch(s[1..], pat);
      assert s == [s[0]] + s[1..];
    }
  }

  lemma RemoveAllAbsent(s: string, pat: string)
    requires |pat| > 0 && forall i | 0 <= i < |s| :: s[i] != pat[0]
    ensures RemoveAll(s, pat) == s
  {
    forall i: nat | i + |pat| <= |s|
      ensures !MatchesAt(s, pat, i)
    {
      assert s[i..i + |pat|][0] == s[i];
    }
    RemoveAllNoMatch(s, pat);
  }

  lemma {:induction false} RemoveCharConcat(a: string, b: string, c: char)
    ensures RemoveAll(a + b, [c]) == RemoveAll(a, [c]) + RemoveAll(b, [c])
    decreases |a|
  {
    if a == [] {
      assert a + b == b;
    } else {
      assert (a + b)[1..] == a[1..] + b;
      assert (a + b)[..1] == a[..1];
      RemoveCharConcat(a[1..], b, c);
      if |a| == 1 {
        assert a[1..] == [];
        assert RemoveAll(a[1..], [c]) == [];
      }
    }
  }

  lemma StripUntouched(s: string, cs: set<char>)
    requires s != [] && s[0] !in cs && s[|s| - 1] !in cs
    ensures Strip(s, cs) == s
  {
  }

  lemma WhitespaceUntouched(s: string)
    requires s != [] && !IsPyWhitespace(s[0]) && !IsPyWhitespace(s[|s| - 1])
    ensures TrimWhitespace(s) == s
  {
  }

  /** The canonical hyphenated form 8-4-4-4-12 of 32 hex digits, as `str(uuid)` renders it. */
  function Hyphenated(h: string): string
    requires |h| == 32
  {
    h[..8] + "-" + h[8..12] + "-" + h[12..16] + "-" + h[16..20] + "-" + h[20..]
  }

  lemma HyphenJoin(a: string, b: string)
    requires forall i | 0 <= i < |b| :: b[i] != '-'
    ensures RemoveAll(a + "-" + b, "-") == RemoveAll(a, "-") + b
  {
    assert RemoveAll(a + "-", "-") == RemoveAll(a, "-") by {
      RemoveCharConcat(a, "-", '-');
      assert RemoveAll("-", "-") == [];
    }
    assert RemoveAll(b, "-") == b by {
      RemoveAllAbsent(b, "-");
    }
    RemoveCharConcat(a + "-", b, '-');
  }

  lemma DropHyphens(h: string)
    requires |h| == 32 && AllHex(h)
    ensures RemoveAll(Hyphenated(h), "-") == h
  {
    var x1 := h[..8];
    RemoveAllAbsent(x1, "-");
    var x2 := x1 + "-" + h[8..12];
    HyphenJoin(x1, h[8..12]);
    var x3 := x2 + "-" + h[12..16];
    HyphenJoin(x2, h[12..16]);
    var x4 := x3 + "-" + h[16..20];
    HyphenJoin(x3, h[16..20]);
    var x5 := x4 + "-" + h[20..];
    HyphenJoin(x4, h[20..]);
    assert x5 == Hyphenated(h);
    assert h[..8] + h[8..12] + h[12..16] + h[16..20] + h[20..] == h;
  }

  lemma HyphenatedChars(h: string)
    requires |h| == 32 && AllHex(h)
    ensures var x := Hyphenated(h); Lacks(x, 'u') && x != [] && x[0] !in {'{', '}'} && x[|x| - 1] !in {'{', '}'}
  {
    var x := Hyphenated(h);
    assert forall i | 0 <= i < |x| :: IsHexDigit(x[i]) || x[i] == '-';
  }

  lemma BareCleaning(x: string)
    requires Lacks(x, 'u') && x != [] && x[0] !in {'{', '}'} && x[|x| - 1] !in {'{', '}'}
    ensures UuidHex(x) == RemoveAll(x, "-")
  {
    RemoveAllAbsent(x, "urn:");
    RemoveAllAbsent(x, "uuid:");
    StripUntouched(x, {'{', '}'});
  }

  lemma RemovePrefix(pat: string, rest: string)
    requires |pat| > 0
    ensures RemoveAll(pat + rest, pat) == RemoveAll(rest, pat)
  {
    assert (pat + rest)[..|pat|] == pat;
    assert (pat + rest)[|pat|..] == rest;
  }

  lemma KeepFirst(s: string, pat: string)
    requires |s| >= |pat| > 0 && s[..|pat|] != pat
    ensures RemoveAll(s, pat) == [s[0]] + RemoveAll(s[1..], pat)
  {
  }

  predicate Lacks(s: string, c: char) {
    forall i | 0 <= i < |s| :: s[i] != c
  }

  lemma LacksConcat(a: string, b: string, c: char)
    requires Lacks(a, c) && Lacks(b, c)
    ensures Lacks(a + b, c)
  {
    forall i | 0 <= i < |a + b|
      ensures (a + b)[i] != c
    {
      if i >= |a| {
        assert (a + b)[i] == b[i - |a|];
      }
    }
  }

  lemma UrnStep(x: string)
    ensures RemoveAll("urn:uuid:" + x, "urn:") == RemoveAll("uuid:" + x, "urn:")
  {
    assert "urn:uuid:" + x == "urn:" + ("uuid:" + x);
    RemovePrefix("urn:", "uuid:" + x);
  }

  /** A first character that does not start `pat` is kept, ahead of what is kept of the rest. */
  lemma KeepPrepended(c: char, y: string, pat: string)
    requires |pat| > 0 && |y| + 1 >= |pat| && ([c] + y)[..|pat|] != pat
    requires RemoveAll(y, pat) == y
    ensures RemoveAll([c] + y, pat) == [c] + y
  {
    KeepFirst([c] + y, pat);
    assert ([c] + y)[1..] == y;
  }

  lemma UuidStep(x: string)
    requires Lacks(x, 'u')
    ensures RemoveAll("uuid:" + x, "urn:") == "uuid:" + x
  {
    var y := "id:" + x;
    assert RemoveAll(y, "urn:") == y by {
      LacksConcat("id:", x, 'u');
      RemoveAllAbsent(y, "urn:");
    }
    assert RemoveAll(['u'] + y, "urn:") == ['u'] + y by {
      assert (['u'] + y)[..4][1] == 'i';
      KeepPrepended('u', y, "urn:");
    }
    assert RemoveAll(['u'] + (['u'] + y), "urn:") == ['u'] + (['u'] + y) by {
      assert (['u'] + (['u'] + y))[..4][1] == 'u';
      KeepPrepended('u', ['u'] + y, "urn:");
    }
    assert ['u'] + (['u'] + y) == "uuid:" + x;
  }

  lemma BracedStrip(x: string)
    requires x != [] && x[0] !in {'{', '}'} && x[|x| - 1] !in {'{', '}'}
    ensures Strip("{" + x + "}", {'{', '}'}) == x
  {
    var b := "{" + x + "}";
    assert b[1..] == x + "}" && (x + "}")[0] == x[0];
    assert StripLeading(b, {'{', '}'}) == x + "}";
    assert (x + "}")[..|x|] == x;
    assert StripTrailing(x + "}", {'{', '}'}) == StripTrailing(x, {'{', '}'});
  }

  lemma BracedCleaning(x: string)
    requires Lacks(x, 'u') && x != [] && x[0] !in {'{', '}'} && x[|x| - 1] !in {'{', '}'}
    ensures UuidHex("{" + x + "}") == RemoveAll(x, "-")
  {
    LacksConcat("{", x, 'u');
    LacksConcat("{" + x, "}", 'u');
    RemoveAllAbsent("{" + x + "}", "urn:");
    RemoveAllAbsent("{" + x + "}", "uuid:");
    BracedStrip(x);
  }

  lemma UrnCleaning(x: string)
    requires Lacks(x, 'u') && x != [] && x[0] !in {'{', '}'} && x[|x| - 1] !in {'{', '}'}
    ensures UuidHex("urn:uuid:" + x) == RemoveAll(x, "-")
  {
    var u := "urn:uuid:" + x;
    var w := "uuid:" + x;
    assert RemoveAll(u, "urn:") == w by {
      UrnStep(x);
      UuidStep(x);
    }
    assert RemoveAll(w, "uuid:") == x by {
      RemovePrefix("uuid:", x);
      RemoveAllAbsent(x, "uuid:");
    }
    StripUntouched(x, {'{', '}'});
  }

  /** Every canonical rendering of 32 hex digits is a valid UUID, bare, in braces or as a URN, and denotes those digits. */
  lemma CanonicalUuidAccepted(h: string)
    requires |h| == 32 && AllHex(h)
    ensures UuidHex(Hyphenated(h)) == h && IsValidUuid(Hyphenated(h))
    ensures UuidHex("{" + Hyphenated(h) + "}") == h && IsValidUuid("{" + Hyphenated(h) + "}")
    ensures UuidHex("urn:uuid:" + Hyphenated(h)) == h && IsValidUuid("urn:uuid:" + Hyphenated(h))
  {
    HyphenatedChars(h);
    DropHyphens(h);
    BareCleaning(Hyphenated(h));
    BracedCleaning(Hyphenated(h));
    UrnCleaning(Hyphenated(h));
    WhitespaceUntouched(h);
    assert HexDigitGroups(h);
  }

  // ---------------------------------------------------------------------
  // Cross-reference filters
  // ---------------------------------------------------------------------

  function ValidNpis(pharmacies: seq<Pharmacy>): set<string> {
    set p | p in pharmacies :: p.npi
  }

  /**
   * `filter_claims_by_pharmacies`: the claims whose `npi` is some pharmacy's
   * `npi`, in their original order and with their multiplicities.
   */
  function FilterClaimsByPharmacies(claims: seq<Claim>, pharmacies: seq<Pharmacy>): (kept: seq<Claim>)
    ensures IsSubseq(kept, claims)
    ensures forall c: Claim :: Count(kept, c) == if c.npi in ValidNpis(pharmacies) then Count(claims, c) else 0
    ensures forall i | 0 <= i < |kept| :: kept[i].npi in ValidNpis(pharmacies)
  {
    var npis := ValidNpis(pharmacies);
    var p := (c: Claim) => c.npi in npis;
    KeepSubseq(claims, p);
    KeepElements(claims, p);
    assert forall c: Claim :: Count(Keep(claims, p), c) == if p(c) then Count(claims, c) else 0 by {
      forall c: Claim { KeepCount(claims, p, c); }
    }
    Keep(claims, p)
  }

  function ValidClaimIds(claims: seq<Claim>): set<string> {
    set c | c in claims :: c.id
  }

  /**
   * `filter_reverts_by_claims`: the reverts whose `claim_id` is some claim's
   * `id`, in their original order and with their multiplicities.
   */
  function FilterRevertsByClaims(reverts: seq<Revert>, claims: seq<Claim>): (kept: seq<Revert>)
    ensures IsSubseq(kept, reverts)
    ensures forall r: Revert :: Count(kept, r) == if r.claimId in ValidClaimIds(claims) then Count(reverts, r) else 0
    ensures forall i | 0 <= i < |kept| :: kept[i].claimId in ValidClaimIds(claims)
  {
    var ids := ValidClaimIds(claims);
    var p := (r: Revert) => r.claimId in ids;
    KeepSubseq(reverts, p);
    KeepElements(reverts, p);
    assert forall r: Revert :: Count(Keep(reverts, p), r) == if p(r) then Count(reverts, r) else 0 by {
      forall r: Revert { KeepCount(reverts, p, r); }
    }
    Keep(reverts, p)
  }

  /** Filtering the filtered claims again against the same pharmacies changes nothing. */
  lemma FilterClaimsIdempotent(claims: seq<Claim>, pharmacies: seq<Pharmacy>)
    ensures FilterClaimsByPharmacies(FilterClaimsByPharmacies(claims, pharmacies), pharmacies)
            == FilterClaimsByPharmacies(claims, pharmacies)
  {
    var npis := ValidNpis(pharmacies);
    KeepIdempotent(claims, (c: Claim) => c.npi in npis);
  }

  /** Filtering the filtered reverts again against the same claims changes nothing. */
  lemma FilterRevertsIdempotent(reverts: seq<Revert>, claims: seq<Claim>)
    ensures FilterRevertsByClaims(FilterRevertsByClaims(reverts, claims), claims)
            == FilterRevertsByClaims(reverts, claims)
  {
    var ids := ValidClaimIds(claims);
    KeepIdempotent(reverts, (r: Revert) => r.claimId in ids);
  }

}
