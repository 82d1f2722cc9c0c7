# Pharmacy claims pipeline — a verified model

This project models the core of a pharmacy-claims pipeline. The pipeline has three parts:

- **Loaders.** Directories of JSON claim files, JSON revert files and CSV pharmacy files are loaded, record by record. Claims are checked against a six-field schema. Reverts are checked by hand-written field checks. Pharmacy rows are de-duplicated in first-seen order.
- **Utilities.** `src/utils.py` holds field validators for NDC codes, NPI identifiers, quantities, timestamps and UUID tokens. It also holds two cross-reference filters: claims whose pharmacy is known, and reverts whose claim is known.
- **Reports.** Three reports are computed from the cleaned data:
  - per (npi, ndc) metrics: fills, reverted fills, average unit price, total price;
  - the two cheapest pharmacy chains of each drug;
  - the five most frequent quantities of each drug.

The Dafny modules follow the source files:

| module | models |
|---|---|
| `Options`, `Values`, `Records` | `Option`, parsed JSON values (`JObj`, `JArr`, `JStr`, `JInt`, `JFloat`, …) and the claim, revert and pharmacy records |
| `Digits`, `Timestamps` | digit strings; `datetime.fromisoformat` narrowed to the `YYYY-MM-DDTHH:MM:SS` layout, and `strptime('%Y-%m-%dT%H:%M:%S')` |
| `Utils` | `src/utils.py`: validators and filters |
| `Batches` | the per-file record loop shared by both JSON loaders, with its counters and flagged files; it is a `method` proved equal to the function `Load` |
| `Claims`, `Reverts` | `validate_claim_record`, `validate_revert_record` and their record steps |
| `Pharmacies` | the `seen`-set de-duplication loop, as methods proved equal to `Dedup` of the rows read |
| `Prices`, `Ranking`, `Sequences` | mean and Python's half-to-even `round`; a "lowest n by score" selection (sort, then `head(n)`); `Count`, `Dedup`, `Keep` and their laws |
| `Analytics` | `calculate_metrics` as a loop-and-map `method` proved against `Metrics`; `get_chain_recommendations` and `analyze_quantities` as functions, since they are pandas pipelines without loops |

Prices are exact reals. Claims and reverts are records after validation.

`main.py` passes the list of revert records to `calculate_metrics`. A claim id is never equal to a dict, so no claim is ever counted as reverted. The model proves this as written (see Findings). Its metrics are stated for a set of reverted claim ids.

Where the source's own promises and its code differ, the model follows the code:

- The docstring of `is_valid_quantity` promises a positive integer (`src/utils.py:39`, `src/utils.py:45`). The claims loader does not call it: its quantity check at `src/load_and_clean_claims.py:38-42` tests only that the value is an integer, with no sign test. So a zero or negative quantity passes the loader, and so does a negative price (`Claims.NoRangeChecks`, `Claims.QuantityCheckIsLooser`).
- `is_valid_timestamp` parses with `strptime` (`src/utils.py:18`), which accepts non-padded fields. The loaders parse with `fromisoformat` (`src/load_and_clean_claims.py:34`), which needs two-digit fields. The two disagree on such strings (`Timestamps.StrptimeAcceptsShortFields`, `Utils.TimestampValidatorDisagrees`).

## Model

| member | source | states |
|---|---|---|
| Timestamps.ParseIso | src/load_and_clean_claims.py:31-37 | a timestamp that parses is a valid calendar date-time and has the fixed `YYYY-MM-DDTHH:MM:SS` layout |
| Timestamps.ParseFormatIso | src/load_and_clean_claims.py:103 | formatting a valid date-time and parsing it back gives the same date-time |
| Timestamps.FormatParseIso | src/load_and_clean_claims.py:103 | a string that parses is exactly the formatting of its parse, so the conversion loses nothing |
| Timestamps.DaysInMonth | src/utils.py:18 | every month of the calendar has between 28 and 31 days |
| Timestamps.FromFields | src/utils.py:18 | the fields are accepted iff the year has four digits, month, hour, minute and second one or two digits, the day one or two digits or a space and a digit, and their values form a valid date-time; the result carries those values |
| Timestamps.Strptime | src/utils.py:18 | an accepted string is a valid calendar date-time, and is six fields that `FromFields` accepts joined by `-`, `-`, `T` or `t`, `:`, `:`, with nothing after the seconds |
| Timestamps.SplitFieldsJoins | src/utils.py:18 | a string that splits is the join of its fields with `T` or `t` |
| Timestamps.SplitJoinedFields | src/utils.py:18 | the six fields joined by `-`, `-`, `T`/`t`, `:`, `:` split back into the same fields |
| Timestamps.SplitFieldsNeedsT | src/utils.py:18 | text with no `T` or `t` after the day is not split, so `strptime` rejects it |
| Timestamps.StrptimeAcceptsJoins | src/utils.py:18 | the join of any fields `FromFields` accepts, with `T` or `t`, is accepted with their value |
| Timestamps.StrptimeJoins | src/utils.py:18 | `strptime` succeeds iff the string is such a join of accepted fields |
| Timestamps.IsoAcceptedByStrptime | src/utils.py:15-21 | every valid `T`-separated fixed-layout timestamp is also accepted by `strptime`, with the same value |
| Timestamps.StrptimeAcceptsShortFields | src/utils.py:15-21 | `2024-1-5t9:05:07` is accepted by `strptime` and rejected by the loaders' ISO parse |
| Digits.ValueOfPad | src/utils.py:23-35 | reading back a zero-padded number gives the number |
| Digits.PadOfValue | src/utils.py:23-35 | a digit string is the zero-padding of its own value |
| Utils.FixedWidthCodes | src/utils.py:23-35 | a string of `width` digits is exactly the zero-padded form of some number below 10^width |
| Utils.IsValidNdc | src/utils.py:23-28 | an NDC is valid iff it is a string that is the eleven-digit zero-padded form of some number below 10^11 |
| Utils.IsValidNpi | src/utils.py:30-35 | an NPI is valid iff it is a string that is the ten-digit zero-padded form of some number below 10^10 |
| Utils.IsValidQuantity | src/utils.py:37-52 | a quantity is valid iff it is an int, bool or float whose value is whole and at least 1 |
| Utils.IsValidTimestamp | src/utils.py:15-21 | a timestamp is valid iff it is six fields that `FromFields` accepts joined by `-`, `-`, `T` or `t`, `:`, `:` with nothing trailing; every valid `T`-separated fixed-layout timestamp passes |
| Utils.IsoParsesUnderStrptime | src/utils.py:18 | every valid `T`-separated fixed-layout timestamp is also parsed by `strptime` |
| Utils.TimestampValidatorRejectsSpace | src/utils.py:15-21 | `2024-01-05 09:05:07`, with a space for the `T`, fails the validator |
| Utils.SpacedSplitFails | src/utils.py:18 | `2024-01-05 09:05:07` has no `T` or `t` after the day, so the pattern does not split it |
| Utils.TimestampValidatorRejectsZone | src/utils.py:15-21 | `2024-01-05T09:05:07Z`, with a zone designator after the seconds, fails the validator |
| Utils.TimestampValidatorDisagrees | src/utils.py:15-21 | `2024-1-5t9:05:07` passes the validator although the loaders' ISO parse rejects it |
| Utils.IsValidUuid | src/utils.py:5-11 | a valid token cleans to exactly 32 characters, none a hyphen and each one `int(…, 16)` can read; a token whose cleaned form has only hex digits is valid iff it has exactly 32 of them |
| Utils.HexIntLiteralChars | src/utils.py:8 | the text `int(…, 16)` inside `UUID` accepts (`Utils.IsHexIntLiteral`) holds only hex digits, whitespace, signs, `x`/`X` and `_`, and every non-empty run of hex digits is accepted |
| Utils.CoreLiteral | src/utils.py:8 | the unsigned part `int(…, 16)` accepts holds only hex digits, `_` and the `x` of `0x` |
| Utils.SignedLiteral | src/utils.py:8 | a leading `+` or `-` before an accepted unsigned part keeps the text literal |
| Utils.TrimmedLiteral | src/utils.py:8 | stripping whitespace removes only characters that are themselves allowed in the literal |
| Utils.UuidSignAccepted | src/utils.py:5-11 | `+` followed by 31 zeros is a valid UUID although it is not all hex |
| Utils.UuidLettersRejected | src/utils.py:5-11 | 32 `g`s is not a valid UUID |
| Utils.DropHyphens | src/utils.py:8 | removing the hyphens of the 8-4-4-4-12 form gives back the 32 hex digits |
| Utils.BracedCleaning | src/utils.py:8 | the braces around a canonical UUID are stripped before the hex is read |
| Utils.UrnCleaning | src/utils.py:8 | the `urn:uuid:` prefix of a canonical UUID is removed before the hex is read |
| Utils.UuidHex | src/utils.py:8 | the cleaned text holds no hyphen, and a token with no `u`, no hyphen and no brace at either end is kept unchanged |
| Utils.PlainTokenKept | src/utils.py:8 | a token with nothing to remove passes through the prefix, brace and hyphen removal unchanged |
| Utils.RemoveCharLacks | src/utils.py:8 | removing a one-character pattern leaves no occurrence of that character |
| Utils.CanonicalUuidAccepted | src/utils.py:5-11 | the hyphenated, braced and `urn:uuid:` forms of 32 hex digits are all valid and carry the same hex |
| Utils.FilterClaimsByPharmacies | src/utils.py:54-71 | the kept claims are a subsequence of the input; each claim keeps its multiplicity iff its npi belongs to a valid pharmacy, and is dropped otherwise |
| Utils.FilterRevertsByClaims | src/utils.py:73-90 | the kept reverts are a subsequence; each keeps its multiplicity iff its claim id is the id of a valid claim, and is dropped otherwise |
| Utils.FilterClaimsIdempotent | src/utils.py:66-69 | filtering claims a second time changes nothing |
| Utils.FilterRevertsIdempotent | src/utils.py:85-88 | filtering reverts a second time changes nothing |
| Batches.RecordsOf | src/load_and_clean_claims.py:94-97 | a dict, a list and a string have records and any other value makes `len` raise; a dict is one record, and a string has one record per character |
| Batches.ConvertTimestamp | src/load_and_clean_claims.py:103 | the conversion never rejects; an accepted record keeps its keys and every other field, and its timestamp string becomes a valid date-time that formats back to the original string |
| Batches.ScanFile | src/load_and_clean_claims.py:99-106 | the record loop's kept records, rejections and raise flag equal the function `ScanRecords` |
| Batches.ReadFile | src/load_and_clean_claims.py:87-115 | one pass of the file loop's body yields the file's kept records, flag, rejections and record count as the function `LoadFile` gives them |
| Batches.LoadBatches | src/load_and_clean_claims.py:86-115 | the file loop's valid records, invalid records, flagged files and total equal the function `Load` |
| Batches.RaisedIsFinal | src/load_and_clean_claims.py:113-115 | once a record raises, the later records of the file do not change the scan |
| Batches.ScanRaisedIff | src/load_and_clean_claims.py:99-115 | a file's scan raises iff some record's step raises |
| Batches.ScanKeepsAccepted | src/load_and_clean_claims.py:99-104 | every kept record is one the step accepted |
| Batches.ScanRecords | src/load_and_clean_claims.py:99-106 | kept plus rejected records equal the file's record count iff nothing raised, and are fewer otherwise; every rejection names the file it came from |
| Batches.LoadFile | src/load_and_clean_claims.py:87-115 | a file is flagged iff it contributes no valid record, and the flag names that file |
| Batches.RaiseDiscardsFile | src/load_and_clean_claims.py:113-115 | a raising record discards all of the file's valid records and flags it, yet the file's records were already counted in the total |
| Batches.DocumentShapes | src/load_and_clean_claims.py:94-97 | a top-level object counts as a one-record list; an empty string holds no records, so the file is flagged; a number raises on `len` |
| Batches.LoadAppend | src/load_and_clean_claims.py:86-115 | loading two batches of files in turn is the join of loading each |
| Batches.Load | src/load_and_clean_claims.py:86-115 | at most one flag per file, and nothing is loaded iff every file is flagged |
| Batches.LoadStep | src/load_and_clean_claims.py:86 | one more file extends the report by exactly that file's result |
| Batches.LoadKeepsAccepted | src/load_and_clean_claims.py:104 | every loaded record was accepted by the record step |
| Batches.LoadAccounting | src/load_and_clean_claims.py:97-106 | valid plus invalid records never exceed the total, and equal it when no file raises |
| Claims.FieldCheck | src/load_and_clean_claims.py:25-45 | a field passes iff it is present and of its schema type; it raises iff it is a present, non-string timestamp |
| Claims.CheckFields | src/load_and_clean_claims.py:25-47 | a record passes iff every schema field passes |
| Claims.CheckFieldsOutcome | src/load_and_clean_claims.py:25-47 | an outcome other than passing is that of the first failing field |
| Claims.FirstFailureDecides | src/load_and_clean_claims.py:25-47 | the first failing field decides the outcome |
| Claims.OnlyTimestampRaises | src/load_and_clean_claims.py:31-37 | only the timestamp check can raise |
| Claims.ValidateClaimRecord | src/load_and_clean_claims.py:11-47 | a claim passes iff it is an object whose six schema fields are all present and well-typed |
| Claims.SchemaFieldsMeaning | src/load_and_clean_claims.py:25-45 | each schema field's check passes iff the key is present and its value conforms to the field's type |
| Claims.ValidateClaimRaiseIff | src/load_and_clean_claims.py:23-37 | validation raises iff the record is not an object, or its first five fields pass and its timestamp is not a string |
| Claims.MissingKeyRejects | src/load_and_clean_claims.py:26-28 | an object missing any schema key is rejected |
| Claims.NoRangeChecks | src/load_and_clean_claims.py:38-45 | any integer quantity and any float price pass; an integer price fails |
| Claims.ClaimStep | src/load_and_clean_claims.py:100-106 | a record is accepted iff it validates, raises iff validation raises, and an accepted record is a clean claim |
| Claims.ConvertedClaimIsClean | src/load_and_clean_claims.py:101-104 | a record that validates converts its timestamp without error and becomes a clean claim |
| Claims.LoadAndValidateJsonData | src/load_and_clean_claims.py:76-115 | no files gives the "no JSON files" outcome; otherwise the report is the batch load with the claim step |
| Claims.LoadedClaimsAreClean | src/load_and_clean_claims.py:99-109 | every loaded claim is clean |
| Claims.ToClaim | src/load_and_clean_claims.py:67-74 | the claim record carries the record's id, ndc, npi, quantity, price and parsed timestamp |
| Claims.QuantityCheckIsLooser | src/load_and_clean_claims.py:38-42 | each quantity valid for `is_valid_quantity` passes the loader; an integer 0 passes the loader but is not a valid quantity |
| Reverts.ValidateRevertRecord | src/load_and_clean_reverts.py:11-42 | a revert is valid iff it is an object with non-empty string `id` and `claim_id` and an ISO timestamp string |
| Reverts.Contains | src/load_and_clean_reverts.py:24 | `in` raises exactly on a scalar record; on a string it is a substring test, true of the string itself and false of anything longer |
| Reverts.RevertChecks | src/load_and_clean_reverts.py:21-39 | the checks raise exactly on a scalar record, on a list or string that passes the membership test, and on a dict with valid ids whose timestamp is not a string |
| Reverts.ListOfFieldNamesRaisesInside | src/load_and_clean_reverts.py:21-42 | a list of the three field names passes the key test, raises on indexing, and is reported invalid |
| Reverts.RevertStep | src/load_and_clean_reverts.py:83-89 | a record is accepted iff it validates, escapes the file iff it is not an object, and an accepted record is a clean revert |
| Reverts.LoadAndValidateRevertJsonData | src/load_and_clean_reverts.py:57-98 | no files gives the "no JSON files" outcome; otherwise the report is the batch load with the revert step |
| Reverts.LoadedRevertsAreClean | src/load_and_clean_reverts.py:82-92 | every loaded revert is clean |
| Reverts.RevertAccounting | src/load_and_clean_reverts.py:80-89 | when every record is an object, valid plus invalid reverts equal the total |
| Reverts.ToRevert | src/load_and_clean_reverts.py:28-37 | the revert carries the record's `id`, `claim_id` and parsed timestamp; its ids are non-empty and its timestamp is a valid date-time |
| Pharmacies.Lookup | src/utils.py:66 | a column's value is found iff the row has that column, and it is the value paired with it |
| Pharmacies.PharmacyOf | src/analytics.py:40-48 | a row yields a pharmacy for the merge and the `(ndc, chain)` groups iff both its `npi` and `chain` columns are present with a value other than `None`; the pharmacy carries those two values, and its npi is what `Lookup` reads |
| Pharmacies.NpiReadWithoutChain | src/utils.py:66 | the filter reads the npi of a row whose chain is `None`, which yields no pharmacy, and finds nothing to read in a row without an `npi` column |
| Pharmacies.MissingDiffersFromEmpty | src/load_and_clean_pharmacies.py:35-38 | a column filled with `None` and the same column left empty are kept as two rows, and only the second yields a pharmacy |
| Pharmacies.HaltsPrefix | src/load_and_clean_pharmacies.py:39-42 | the first raising file stops the loop |
| Pharmacies.HaltIsFinal | src/load_and_clean_pharmacies.py:30-42 | after the loop stops, later files add no rows |
| Pharmacies.EmittedSnoc | src/load_and_clean_pharmacies.py:36-38 | the `seen` set grows by exactly the row emitted |
| Pharmacies.DedupSnoc | src/load_and_clean_pharmacies.py:36-38 | a row is appended iff it was not seen before |
| Pharmacies.KeepNewRows | src/load_and_clean_pharmacies.py:33-38 | one file's rows extend the output to the first-seen de-duplication of all rows so far, and `seen` stays the set of emitted rows |
| Pharmacies.LoadAndCleanPharmacies | src/load_and_clean_pharmacies.py:21-44 | the result is the first-seen de-duplication of the rows read before any error |
| Pharmacies.RowsRead | src/load_and_clean_pharmacies.py:30-42 | when no file raises, the rows read are all files' rows, file after file, in order |
| Pharmacies.DropLastFile | src/load_and_clean_pharmacies.py:30 | a batch without an error has a prefix without an error, and the prefix's rows are the batch's rows without the last file |
| Pharmacies.CleanPharmaciesProperties | src/load_and_clean_pharmacies.py:34-38 | the result has no duplicates, holds exactly the rows read, and keeps their first-occurrence order |
| Pharmacies.CleanPharmaciesIdempotent | src/load_and_clean_pharmacies.py:34-38 | cleaning the cleaned rows again changes nothing |
| Prices.MeanBounds | src/analytics.py:32 | the mean lies between any lower and upper bound of its values |
| Prices.MeanOfConstant | src/analytics.py:32 | the mean of equal values is that value |
| Prices.RoundHalfEvenNearest | src/analytics.py:32-33 | rounding moves a value by at most one half, and an exact tie goes to the even integer |
| Prices.RoundHalfEvenMonotone | src/analytics.py:32-33 | rounding preserves order |
| Prices.Round2 | src/analytics.py:32-33 | rounding to cents moves a price by at most half a cent |
| Prices.Round2Properties | src/analytics.py:32-33 | rounding to cents preserves order and fixes whole-cent amounts |
| Prices.Round2WholeCents | src/analytics.py:32-33 | rounding to cents twice equals rounding once |
| Ranking.Lowest | src/analytics.py:51-53 | the selection has `n` items, or all candidates when there are fewer |
| Ranking.LowestSpec | src/analytics.py:51-53 | the selection is duplicate-free, drawn from the candidates, ascending by score, and no left-out candidate scores below a selected one |
| Ranking.LowestGreedy | src/analytics.py:51-53 | each selected item scores no higher than every candidate not selected before it |
| Ranking.ChoiceOfThree | src/analytics.py:51-53 | with distinct scores, the only such selection of three is the sorted order |
| Ranking.ChoiceTwoOfThree | src/analytics.py:51-53 | with distinct scores, the only such selection of two of three is the two lowest in order |
| Analytics.UnitPrice | src/analytics.py:19 | the unit price times the quantity is the claim's price |
| Analytics.GroupTally | src/analytics.py:15-22 | a key's entry has one fill and one unit price per claim of that key, and no more reverted fills than fills |
| Analytics.Format | src/analytics.py:27-34 | a result dict carries its key and counts, and its total and average prices lie within half a cent of the exact sum and mean |
| Analytics.KeyAbsent | src/analytics.py:7-12 | a key with no claim has the empty default tally |
| Analytics.GroupTallyStep | src/analytics.py:15-22 | one more claim updates only its own key's tally |
| Analytics.KeysStep | src/analytics.py:16 | a new key is appended in first-seen order, and a known key keeps its place |
| Analytics.TalliedStep | src/analytics.py:15-22 | one loop step keeps the invariant: the map holds exactly the keys seen so far, in first-seen order, each with the tally of its claims |
| Analytics.TalliedOrder | src/analytics.py:15-22 | after one more claim the dict's key order is the first-seen order of all keys so far |
| Analytics.TalliedEntries | src/analytics.py:15-22 | after one more claim every dict entry is the group-wise tally of its key |
| Analytics.CalculateMetrics | src/analytics.py:5-36 | it fails iff some quantity is zero; otherwise the result is one metric per key in first-seen order, each from the tally of that key's claims |
| Analytics.FillsAreCounts | src/analytics.py:17 | a key's fills are the number of its claims |
| Analytics.Metrics | src/analytics.py:5-36 | one metric per distinct (npi, ndc) of the claims and no other, with no key twice |
| Analytics.MetricsPerKey | src/analytics.py:15-34 | each metric's fills count that key's claims, are at least 1, and bound the reverted fills |
| Analytics.FillsAddUp | src/analytics.py:15-17 | the fills of all metrics add up to the number of claims |
| Analytics.MetricPrices | src/analytics.py:18-19 | total price is the rounded sum of the group's prices; average price is the rounded mean of its unit prices; both are whole cents |
| Analytics.AveragePriceBounds | src/analytics.py:32 | the average lies within the rounded bounds of the group's unit prices |
| Analytics.NoRevertsNoneReverted | src/analytics.py:21-22 | with no reverts, no fill is reverted |
| Analytics.MetricsExample | src/analytics.py:5-36 | two claims of one key, one of them reverted, give fills 2, reverted 1, average 5.0 and total 30.0 |
| Analytics.WiredRevertsMatchNothing | src/main.py:69 | when revert records are passed as written, the reverted ids are empty and no metric counts a reverted fill |
| Analytics.WiredRevertsCounterexample | src/main.py:69 | a claim with a matching revert shows reverted 0 as wired, and 1 with the claim ids of the reverts |
| Analytics.RevertedIffReferenced | src/analytics.py:21-22 | with claim ids as reverts, a metric counts a reverted fill iff some revert names a claim of that key |
| Analytics.MatchesOf | src/analytics.py:40 | every merged row of a claim pairs that claim with the chain of a pharmacy row of its npi |
| Analytics.Joined | src/analytics.py:40 | every merged row pairs a claim of the input with the chain of a pharmacy row of the same npi |
| Analytics.MatchesOfMember | src/analytics.py:40 | a claim joins exactly the pharmacy rows with its npi |
| Analytics.JoinedRows | src/analytics.py:40 | the merge holds exactly the (claim, chain) pairs of a claim and a pharmacy row with the same npi |
| Analytics.JoinedDivisible | src/analytics.py:43 | no merged row divides by zero when no claim does |
| Analytics.ChainsOf | src/analytics.py:46-48 | a drug's chains are listed without repetition |
| Analytics.GroupMean | src/analytics.py:46-48 | the group mean times the group's size is the group's total unit price |
| Analytics.ChainsOfMember | src/analytics.py:46-48 | a drug's chains are exactly those with a merged row for that drug, and each has a non-empty price group |
| Analytics.Cheapest | src/analytics.py:51-53 | two chains are chosen, or all of the drug's chains when it has fewer |
| Analytics.CheapestSpec | src/analytics.py:51-53 | the chosen chains are the lowest by mean unit price among the drug's chains |
| Analytics.ChainRecommendations | src/analytics.py:38-62 | no result iff there are no claims or no pharmacies; otherwise a drug is reported iff some claim for it joins some pharmacy, with one or two entries that are that drug's recommendation |
| Analytics.JoinedNdcs | src/analytics.py:40 | the merged rows' drugs are exactly those of a claim whose npi is a pharmacy's |
| Analytics.RecommendationSizes | src/analytics.py:51-57 | every drug of the merged rows gets one or two recommended chains |
| Analytics.SomeChain | src/analytics.py:46-48 | a drug with a merged row has at least one chain |
| Analytics.Recommendation | src/analytics.py:54-57 | one entry per chosen chain, in order, each with the chain's mean unit price rounded to within half a cent |
| Analytics.RecommendationEntries | src/analytics.py:51-57 | there are min(2, chains) entries, at least one; each names a chain of the drug with its rounded mean unit price |
| Analytics.RecommendationOrder | src/analytics.py:51-57 | entries name distinct chains in ascending average price |
| Analytics.RecommendationCheapest | src/analytics.py:51-53 | no chain left out has a lower mean unit price than a recommended one |
| Analytics.LowestTwoOfThree | src/analytics.py:51-53 | of three chains with distinct means, the two cheapest are picked in order |
| Analytics.CheapestTwoExample | src/analytics.py:51-53 | chains A, B, C with means 3, 2, 5 give B then A |
| Analytics.QuantitiesOf | src/analytics.py:66 | at most one quantity per claim, and none for a drug without claims |
| Analytics.QuantitiesOfMember | src/analytics.py:66 | a drug's quantities are exactly those of its claims |
| Analytics.MostFrequent | src/analytics.py:66-69 | `n` distinct quantities are listed, or all of them when there are fewer |
| Analytics.MostFrequentProperties | src/analytics.py:66-69 | at most n distinct quantities, each from the drug's claims, in non-increasing count, and none left out is more frequent than one kept |
| Analytics.MostFrequentGreedy | src/analytics.py:66-69 | each kept quantity is at least as frequent as every quantity not kept before it |
| Analytics.MostFrequentOfThree | src/analytics.py:66-69 | three quantities with distinct counts are listed by falling count |
| Analytics.MostFrequentExample | src/analytics.py:64-76 | quantities 30, 30, 30, 60, 60, 90 give [30, 60, 90] |
| Analytics.DrugQuantities | src/analytics.py:66-75 | each drug of the claims gets one to five distinct quantities, each the quantity of one of its claims |
| Analytics.AnalyzeQuantities | src/analytics.py:64-76 | no result iff there are no claims; otherwise exactly the drugs of the claims are reported, each with one to five distinct quantities, its most frequent ones |
| Analytics.ClaimNdcsMember | src/analytics.py:66 | the drugs grouped are exactly the drugs of the claims |
| Analytics.AllDrugQuantities | src/analytics.py:66-70 | every drug of the claims has one to five distinct most frequent quantities |

## Left out

- File system, `glob`, JSON and CSV parsing and logging are left out. A file is given as its parse result or its parse error, and a CSV file as its rows plus whether reading it raises.
- The `ValueError` for a missing input directory is not modelled. It is raised at `src/load_and_clean_claims.py:62-64` and `src/load_and_clean_reverts.py:57-58` before any record is read.
- Floats are exact reals. Binary rounding of `price / quantity`, of the sums and of `round` on a binary fraction is not modelled, so a tie such as 2.675 rounds half-to-even on the real value.
- Pandas tie order is not fixed. Chains with equal mean price, and quantities with equal counts, may come out in a different order than pandas' sort gives. The model proves only the ordering and the "no better one left out" properties.
- The reports' outer order is not modelled. The per-drug output of `get_chain_recommendations` and `analyze_quantities` is a map keyed by ndc, so the ndc order of the record lists is not captured.
- Analytics.ChainRecommendations: requires every claim quantity to be non-zero. Pandas would give an infinite unit price instead of raising. This holds in the pipeline because `src/main.py:69` runs `calculate_metrics`, which raises on a zero quantity, before `src/main.py:76`.
- An empty claims or pharmacies frame makes pandas raise `KeyError` on the missing column. This is modelled as `None`, not as the exception.
- `fromisoformat` is narrowed to the `YYYY-MM-DDTHH:MM:SS` layout with the separator `T`. Python also accepts any other single separator character (a lower-case `t`, a space), a date alone, fractional seconds and time zones; none of these is modelled. The inclusion of the loaders' parse in `is_valid_timestamp` (`Timestamps.IsoAcceptedByStrptime`, `Utils.IsValidTimestamp`) holds for this narrowed parse only: in the program neither accepts a superset of the other, since `strptime` rejects `2024-01-05 09:05:07`, which `fromisoformat` accepts. `strptime` is modelled for `%Y-%m-%dT%H:%M:%S` with one- or two-digit fields.
- NaN and infinite floats are not modelled. Python's `json.load` accepts `NaN` and `Infinity`, a NaN price passes the float check at `src/load_and_clean_claims.py:43-45`, and it would make the group's `total_price` NaN; prices here are finite reals.
- Pharmacies.PharmacyOf: the filter `Utils.FilterClaimsByPharmacies` takes `Pharmacy` values, as the chain grouping does. At `src/utils.py:66` the source reads only `pharmacy['npi']`. So a row whose chain is `None` still adds its npi to the valid set, which the modelled filter does not do, and a row with no `npi` column raises `KeyError`, which the model does not raise. `Pharmacies.Lookup(row, "npi")` gives what that line reads (`Pharmacies.NpiReadWithoutChain`).
- Utils.IsValidTimestamp and Utils.IsValidUuid take a string. Given a non-string, Python's `strptime` raises `TypeError` and `UUID` raises `AttributeError` or `TypeError`, which escape the validators since only `ValueError` is caught (`src/utils.py:7-11`, `src/utils.py:17-21`); that escape is not modelled.
- The file loop of `Batches.LoadBatches` runs its body as the method `Batches.ReadFile`, whose result is then added to the report. The source appends a file's invalid records while it scans. The report comes out the same either way; the order of the intermediate appends is not modelled.
- Extra fields on a long CSV line, which `csv.DictReader` collects under the key `None`, are not modelled: a row's columns are its header's.
- Unicode digits and whitespace are out: `isdigit`, `int()` and `strip` are modelled on ASCII only.
- `remove_duplicate_claims` and `save_output` are imported at `src/main.py:9-10` but defined nowhere. They are not part of this model.
- The orchestration in `src/main.py` (argument parsing, output files) is not modelled beyond the call wiring that the Findings row concerns.
- The validators of `src/utils.py` are modelled on their own terms. The loaders do not call them; the claims loader uses its own type checks.
- `src/logging_config.py` is not part of this model.

## Findings

| source | as written | input that shows it | evidently intended | confidence | as-written member | corrected member |
|---|---|---|---|---|---|---|
| src/main.py:69 | `calculate_metrics(unique_claims, reverts_data)` passes the list of revert dicts, so `claim['id'] in reverts` compares a string with dicts and never holds | a claim with id `a` and a valid revert whose `claim_id` is `a`: the metric reports reverted 0 | pass the set of the reverts' `claim_id` values, giving reverted 1 | not executed | Analytics.WiredRevertsCounterexample | Analytics.RevertedIffReferenced |
