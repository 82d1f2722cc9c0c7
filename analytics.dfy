/**
 * The three reports of `analytics.py` over the cleaned, filtered claims:
 * per-(npi, ndc) metrics, the cheapest chains of each drug and the most
 * frequent quantities of each drug. Prices are exact reals.
 */
module Analytics {
  import opened Options
  import opened Sequences
  import opened Values
  import opened Timestamps
  import opened Records
  import opened Prices
  import opened Ranking
  import Reverts

  // ---------------------------------------------------------------------
  // Unit prices
  // ---------------------------------------------------------------------

  /** Every claim can be divided by its quantity: `price / quantity` raises ZeroDivisionError on a zero. */
  predicate Divisible(claims: seq<Claim>) {
    forall i | 0 <= i < |claims| :: claims[i].quantity != 0
  }

  /** `price / quantity`: the price of one unit, so the quantity's units cost the price. */
  function UnitPrice(c: Claim): (u: real)
    requires c.quantity != 0
    ensures u * c.quantity as real == c.price
  {
    c.price / c.quantity as real
  }

  function PricesOf(cs: seq<Claim>): seq<real> {
    seq(|cs|, i requires 0 <= i < |cs| => cs[i].price)
  }

  function UnitPrices(cs: seq<Claim>): seq<real>
    requires Divisible(cs)
  {
    seq(|cs|, i requires 0 <= i < |cs| => UnitPrice(cs[i]))
  }

  /** The claims of `xs` that satisfy `p` can be divided when `xs` can. */
  lemma KeepDivisible(xs: seq<Claim>, p: Claim -> bool)
    requires Divisible(xs)
    ensures Divisible(Keep(xs, p))
  {
    KeepElements(xs, p);
    forall i | 0 <= i < |Keep(xs, p)|
      ensures Keep(xs, p)[i].quantity != 0
    {
      var j :| 0 <= j < |xs| && xs[j] == Keep(xs, p)[i];
    }
  }

  // ---------------------------------------------------------------------
  // calculate_metrics
  // ---------------------------------------------------------------------

  /** The grouping key `(claim['npi'], claim['ndc'])`. */
  type Key = (string, string)

  function KeyOf(c: Claim): Key {
    (c.npi, c.ndc)
  }

  function KeysOf(cs: seq<Claim>): seq<Key> {
    seq(|cs|, i requires 0 <= i < |cs| => KeyOf(cs[i]))
  }

  function HasKey(key: Key): Claim -> bool {
    (c: Claim) => KeyOf(c) == key
  }

  function InReverts(reverts: set<string>): Claim -> bool {
    (c: Claim) => c.id in reverts
  }

  /** The claims of one (npi, ndc) pair, in input order. */
  function ClaimsFor(claims: seq<Claim>, key: Key): seq<Claim> {
    Keep(claims, HasKey(key))
  }

  /** One value of the `defaultdict`: fill count, reverted count, running total and unit-price list. */
  datatype Tally = Tally(fills: nat, reverted: nat, total: real, prices: seq<real>)

  /** The `defaultdict` factory's fresh value. */
  const NoFills := Tally(0, 0, 0.0, [])

  /** One claim's contribution to its key's entry. */
  function Add(t: Tally, c: Claim, reverts: set<string>): Tally
    requires c.quantity != 0
  {
    Tally(t.fills + 1, t.reverted + (if c.id in reverts then 1 else 0), t.total + c.price, t.prices + [UnitPrice(c)])
  }

  /**
   * What the entry for `key` holds once the loop has seen `claims`, defined
   * from that key's claims as a whole rather than claim by claim: one fill
   * and one unit price per claim of the key, and no more reverted fills than
   * fills.
   */
  function GroupTally(claims: seq<Claim>, key: Key, reverts: set<string>): (t: Tally)
    requires Divisible(claims)
    ensures t.fills == Count(KeysOf(claims), key)
    ensures |t.prices| == t.fills && t.reverted <= t.fills
  {
    var g := ClaimsFor(claims, key);
    KeepDivisible(claims, HasKey(key));
    FillsAreCounts(claims, key);
    KeepLength(g, InReverts(reverts));
    Tally(|g|, |Keep(g, InReverts(reverts))|, Sum(PricesOf(g)), UnitPrices(g))
  }

  /** An output dict of `calculate_metrics`. */
  datatype Metric = Metric(npi: string, ndc: string, fills: nat, reverted: nat, avgPrice: real, totalPrice: real)

  /** One result dict: the key and counts as tallied, and both prices within half a cent of the exact ones. */
  function Format(key: Key, t: Tally): (m: Metric)
    ensures MetricKey(m) == key && m.fills == t.fills && m.reverted == t.reverted
    ensures -0.005 <= m.totalPrice - t.total <= 0.005
    ensures t.prices != [] ==> -0.005 <= m.avgPrice - Mean(t.prices) <= 0.005
  {
    Metric(key.0, key.1, t.fills, t.reverted,
           if t.prices == [] then 0.0 else Round2(Mean(t.prices)),
           Round2(t.total))
  }

  /**
   * The result list: one metric per distinct key, in the order keys first
   * occur. No key has two metrics, and the keys reported are exactly the
   * (npi, ndc) pairs of the claims.
   */
  function Metrics(claims: seq<Claim>, reverts: set<string>): (ms: seq<Metric>)
    requires Divisible(claims)
    ensures NoDup(MetricKeys(ms))
    ensures forall k :: k in MetricKeys(ms) <==> k in KeysOf(claims)
  {
    var ks := Dedup(KeysOf(claims));
    var ms := seq(|ks|, i requires 0 <= i < |ks| => Format(ks[i], GroupTally(claims, ks[i], reverts)));
    DedupNoDup(KeysOf(claims));
    DedupMembers(KeysOf(claims));
    assert MetricKeys(ms) == ks;
    ms
  }

  function MetricKey(m: Metric): Key {
    (m.npi, m.ndc)
  }

  function MetricKeys(ms: seq<Metric>): seq<Key> {
    seq(|ms|, i requires 0 <= i < |ms| => MetricKey(ms[i]))
  }

  lemma KeyAbsent(claims: seq<Claim>, key: Key, reverts: set<string>)
    requires Divisible(claims) && key !in KeysOf(claims)
    ensures GroupTally(claims, key, reverts) == NoFills
  {
    assert forall i | 0 <= i < |claims| :: KeysOf(claims)[i] == KeyOf(claims[i]);
    KeepNone(claims, HasKey(key));
  }

  /** Appending a claim changes only its own key's entry, and that one as `Add` does. */
  lemma GroupTallyStep(claims: seq<Claim>, c: Claim, key: Key, reverts: set<string>)
    requires Divisible(claims) && c.quantity != 0
    ensures Divisible(claims + [c])
    ensures GroupTally(claims + [c], key, reverts) ==
      if KeyOf(c) == key then Add(GroupTally(claims, key, reverts), c, reverts) else GroupTally(claims, key, reverts)
  {
    var xs := claims + [c];
    assert xs[..|xs| - 1] == claims;
    var g := ClaimsFor(claims, key);
    KeepDivisible(claims, HasKey(key));
    if KeyOf(c) == key {
      var g' := g + [c];
      assert ClaimsFor(xs, key) == g';
      assert g'[..|g'| - 1] == g;
      var ps := PricesOf(g);
      assert PricesOf(g') == ps + [c.price];
      assert (ps + [c.price])[..|ps|] == ps;
      assert UnitPrices(g') == UnitPrices(g) + [UnitPrice(c)];
    } else {
      assert ClaimsFor(xs, key) == g;
    }
  }

  /** How the distinct keys grow when a claim is appended. */
  lemma KeysStep(claims: seq<Claim>, c: Claim)
    ensures KeysOf(claims + [c]) == KeysOf(claims) + [KeyOf(c)]
    ensures Dedup(KeysOf(claims + [c])) ==
      if KeyOf(c) in KeysOf(claims) then Dedup(KeysOf(claims)) else Dedup(KeysOf(claims)) + [KeyOf(c)]
  {
    var ks := KeysOf(claims + [c]);
    assert ks == KeysOf(claims) + [KeyOf(c)];
    assert ks[..|ks| - 1] == KeysOf(claims);
  }

  /** What the loop's dict and its key order hold once it has seen `claims`. */
  ghost predicate Tallied(claims: seq<Claim>, reverts: set<string>, metrics: map<Key, Tally>, order: seq<Key>)
    requires Divisible(claims)
  {
    && order == Dedup(KeysOf(claims))
    && (forall k :: k in metrics <==> k in order)
    && (forall k | k in metrics :: metrics[k] == GroupTally(claims, k, reverts))
  }

  /** One iteration of the loop: touching the claim's key, then adding the claim to it. */
  lemma TalliedStep(claims: seq<Claim>, c: Claim, reverts: set<string>, metrics: map<Key, Tally>, order: seq<Key>)
    requires Divisible(claims) && c.quantity != 0 && Tallied(claims, reverts, metrics, order)
    ensures Divisible(claims + [c])
    ensures var key := KeyOf(c);
            var touched := if key in metrics then metrics else metrics[key := NoFills];
            Tallied(claims + [c], reverts, touched[key := Add(touched[key], c, reverts)],
                    if key in metrics then order else order + [key])
  {
    var key := KeyOf(c);
    var touched := if key in metrics then metrics else metrics[key := NoFills];
    var after := touched[key := Add(touched[key], c, reverts)];
    var keys := if key in metrics then order else order + [key];
    TalliedOrder(claims, c, reverts, metrics, order);
    TalliedEntries(claims, c, reverts, metrics, order);
    assert forall k :: k in after <==> k in keys;
  }

  /** After one iteration the key order is the first-seen order of the keys so far. */
  lemma TalliedOrder(claims: seq<Claim>, c: Claim, reverts: set<string>, metrics: map<Key, Tally>, order: seq<Key>)
    requires Divisible(claims) && Tallied(claims, reverts, metrics, order)
    ensures (if KeyOf(c) in metrics then order else order + [KeyOf(c)]) == Dedup(KeysOf(claims + [c]))
  {
    DedupMember(KeysOf(claims), KeyOf(c));
    KeysStep(claims, c);
  }

  /** After one iteration every entry of the dict is the group-wise tally of its key. */
  lemma TalliedEntries(claims: seq<Claim>, c: Claim, reverts: set<string>, metrics: map<Key, Tally>, order: seq<Key>)
    requires Divisible(claims) && c.quantity != 0 && Tallied(claims, reverts, metrics, order)
    ensures Divisible(claims + [c])
    ensures var key := KeyOf(c);
            var touched := if key in metrics then metrics else metrics[key := NoFills];
            var after := touched[key := Add(touched[key], c, reverts)];
            forall k | k in after :: after[k] == GroupTally(claims + [c], k, reverts)
  {
    var key := KeyOf(c);
    var touched := if key in metrics then metrics else metrics[key := NoFills];
    var after := touched[key := Add(touched[key], c, reverts)];
    GroupTallyStep(claims, c, key, reverts);
    assert touched[key] == GroupTally(claims, key, reverts) by {
      if key !in metrics {
        DedupMember(KeysOf(claims), key);
        KeyAbsent(claims, key, reverts);
      }
    }
    forall k | k in after
      ensures after[k] == GroupTally(claims + [c], k, reverts)
    {
      GroupTallyStep(claims, c, k, reverts);
      if k != key {
        assert after[k] == metrics[k];
      }
    }
  }

  /**
   * `calculate_metrics(claims, reverts)` with `reverts` the set of reverted
   * claim ids: a `defaultdict` keyed by (npi, ndc) filled in one pass, then
   * formatted in its insertion order. `None` when a zero quantity raises
   * ZeroDivisionError.
   */
  method CalculateMetrics(claims: seq<Claim>, reverts: set<string>) returns (results: Option<seq<Metric>>)
    ensures results.None? <==> !Divisible(claims)
    ensures results.Some? ==> Divisible(claims) && results.value == Metrics(claims, reverts)
  {
    var metrics: map<Key, Tally> := map[];
    var order: seq<Key> := [];
    for i := 0 to |claims|
      invariant Divisible(claims[..i])
      invariant Tallied(claims[..i], reverts, metrics, order)
    {
      var claim := claims[i];
      var key := KeyOf(claim);
      ghost var before, keys := metrics, order;
      if key !in metrics {
        metrics := metrics[key := NoFills];
        order := order + [key];
      }
      if claim.quantity == 0 {
        return None;
      }
      metrics := metrics[key := Add(metrics[key], claim, reverts)];
      TalliedStep(claims[..i], claim, reverts, before, keys);
      assert claims[..i + 1] == claims[..i] + [claim];
    }
    assert claims[..|claims|] == claims;
    ghost var expected := Metrics(claims, reverts);
    var out: seq<Metric> := [];
    for j := 0 to |order|
      invariant |out| == j
      invariant forall m | 0 <= m < j :: out[m] == expected[m]
    {
      out := out + [Format(order[j], metrics[order[j]])];
    }
    return Some(out);
  }

  lemma {:induction false} FillsAreCounts(claims: seq<Claim>, key: Key)
    ensures |ClaimsFor(claims, key)| == Count(KeysOf(claims), key)
  {
    if claims != [] {
      var init := claims[..|claims| - 1];
      FillsAreCounts(init, key);
      assert KeysOf(claims)[..|claims| - 1] == KeysOf(init);
    }
  }

  /** Each metric counts its key's claims, at least one, and at most that many reverted. */
  lemma MetricsPerKey(claims: seq<Claim>, reverts: set<string>)
    requires Divisible(claims)
    ensures var ms := Metrics(claims, reverts);
      forall i | 0 <= i < |ms| ::
           && ms[i].fills == Count(KeysOf(claims), MetricKey(ms[i]))
           && 1 <= ms[i].fills
           && ms[i].reverted <= ms[i].fills
  {
    var ms := Metrics(claims, reverts);
    var ks := Dedup(KeysOf(claims));
    forall i | 0 <= i < |ms|
      ensures ms[i].fills == Count(KeysOf(claims), MetricKey(ms[i]))
      ensures 1 <= ms[i].fills && ms[i].reverted <= ms[i].fills
    {
      var g := ClaimsFor(claims, ks[i]);
      FillsAreCounts(claims, ks[i]);
      DedupElement(KeysOf(claims), i);
      CountMember(KeysOf(claims), ks[i]);
      KeepLength(g, InReverts(reverts));
    }
  }

  function TotalFills(ms: seq<Metric>): nat {
    if ms == [] then 0 else TotalFills(ms[..|ms| - 1]) + ms[|ms| - 1].fills
  }

  lemma {:induction false} TotalFillsPrefix(claims: seq<Claim>, reverts: set<string>, j: nat)
    requires Divisible(claims) && j <= |Dedup(KeysOf(claims))|
    ensures TotalFills(Metrics(claims, reverts)[..j]) == SumCounts(KeysOf(claims), Dedup(KeysOf(claims))[..j])
  {
    if j > 0 {
      var ms, ks := Metrics(claims, reverts), Dedup(KeysOf(claims));
      TotalFillsPrefix(claims, reverts, j - 1);
      assert ms[..j][..j - 1] == ms[..j - 1];
      assert ks[..j][..j - 1] == ks[..j - 1];
      FillsAreCounts(claims, ks[j - 1]);
    }
  }

  /** Every claim is a fill of exactly one metric: the fills add up to the number of claims. */
  lemma FillsAddUp(claims: seq<Claim>, reverts: set<string>)
    requires Divisible(claims)
    ensures TotalFills(Metrics(claims, reverts)) == |claims|
  {
    var ms, ks := Metrics(claims, reverts), Dedup(KeysOf(claims));
    TotalFillsPrefix(claims, reverts, |ks|);
    assert ms[..|ks|] == ms;
    assert ks[..|ks|] == ks;
    SumCountsOfDedup(KeysOf(claims));
  }

  /**
   * A metric's prices: the total is its key's prices summed and rounded to
   * cents, the average is the rounded mean unit price (the key has claims,
   * so the 0 fallback is never taken), and both have at most two decimals.
   */
  lemma MetricPrices(claims: seq<Claim>, reverts: set<string>, i: nat)
    requires Divisible(claims) && i < |Metrics(claims, reverts)|
    ensures var m := Metrics(claims, reverts)[i];
            var g := ClaimsFor(claims, MetricKey(m));
            && g != [] && Divisible(g)
            && m.totalPrice == Round2(Sum(PricesOf(g)))
            && m.avgPrice == Round2(Mean(UnitPrices(g)))
            && Round2(m.avgPrice) == m.avgPrice
            && Round2(m.totalPrice) == m.totalPrice
  {
    var m := Metrics(claims, reverts)[i];
    var g := ClaimsFor(claims, MetricKey(m));
    MetricsPerKey(claims, reverts);
    KeepDivisible(claims, HasKey(MetricKey(m)));
    FillsAreCounts(claims, MetricKey(m));
    Round2WholeCents(Mean(UnitPrices(g)));
    Round2WholeCents(Sum(PricesOf(g)));
  }

  /** The average lies between the key's cheapest and dearest unit price, each rounded to cents. */
  lemma AveragePriceBounds(claims: seq<Claim>, reverts: set<string>, i: nat, lo: real, hi: real)
    requires Divisible(claims) && i < |Metrics(claims, reverts)|
    requires forall c | c in ClaimsFor(claims, MetricKey(Metrics(claims, reverts)[i])) ::
               c.quantity != 0 && lo <= UnitPrice(c) <= hi
    ensures Round2(lo) <= Metrics(claims, reverts)[i].avgPrice <= Round2(hi)
  {
    var m := Metrics(claims, reverts)[i];
    var g := ClaimsFor(claims, MetricKey(m));
    MetricPrices(claims, reverts, i);
    var ps := UnitPrices(g);
    assert forall k | 0 <= k < |ps| :: g[k] in g;
    MeanBounds(ps, lo, hi);
    Round2Properties(lo, Mean(ps), 0);
    Round2Properties(Mean(ps), hi, 0);
  }

  /** With no reverted claim id, no metric counts a revert. */
  lemma NoRevertsNoneReverted(claims: seq<Claim>)
    requires Divisible(claims)
    ensures forall i | 0 <= i < |Metrics(claims, {})| :: Metrics(claims, {})[i].reverted == 0
  {
    var ks := Dedup(KeysOf(claims));
    forall i | 0 <= i < |ks|
      ensures GroupTally(claims, ks[i], {}).reverted == 0
    {
      KeepNone(ClaimsFor(claims, ks[i]), InReverts({}));
    }
  }

  lemma ExampleKeys(c1: Claim, c2: Claim)
    requires KeyOf(c1) == KeyOf(c2)
    ensures Dedup(KeysOf([c1, c2])) == [KeyOf(c1)]
  {
    var k := KeyOf(c1);
    assert KeysOf([c1, c2]) == [k, k];
    assert [k, k][..1] == [k] && [k][..0] == [];
    assert Dedup([k]) == [k];
  }

  lemma ExampleTally(c1: Claim, c2: Claim, reverts: set<string>)
    requires c1 == Claim("c1", "D1", "P1", 2, 10.0, c1.timestamp)
    requires c2 == Claim("c2", "D1", "P1", 4, 20.0, c2.timestamp)
    requires reverts == {"c1"}
    ensures GroupTally([c1, c2], ("P1", "D1"), reverts) == Tally(2, 1, 30.0, [5.0, 5.0])
  {
    var claims := [c1, c2];
    assert claims[..1] == [c1];
    KeepAll(claims, HasKey(("P1", "D1")));
    assert ClaimsFor(claims, ("P1", "D1")) == claims;
    assert Keep(claims, InReverts(reverts)) == [c1] by {
      assert [c1][..0] == [];
      assert InReverts(reverts)(c1) && !InReverts(reverts)(c2);
      assert Keep([c1], InReverts(reverts)) == [c1];
    }
    assert Sum(PricesOf(claims)) == 30.0 by {
      assert PricesOf(claims) == [10.0, 20.0];
      assert [10.0, 20.0][..1] == [10.0];
    }
    assert UnitPrices(claims) == [5.0, 5.0];
  }

  /** The example of two fills of one pair, 10.00 for 2 and 20.00 for 4, the first reverted. */
  lemma MetricsExample(t: DateTime)
    ensures Metrics([Claim("c1", "D1", "P1", 2, 10.0, t), Claim("c2", "D1", "P1", 4, 20.0, t)], {"c1"})
            == [Metric("P1", "D1", 2, 1, 5.0, 30.0)]
  {
    var c1, c2 := Claim("c1", "D1", "P1", 2, 10.0, t), Claim("c2", "D1", "P1", 4, 20.0, t);
    ExampleKeys(c1, c2);
    ExampleTally(c1, c2, {"c1"});
    assert Format(("P1", "D1"), Tally(2, 1, 30.0, [5.0, 5.0])) == Metric("P1", "D1", 2, 1, 5.0, 30.0) by {
      MeanOfConstant([5.0, 5.0], 5.0);
      Round2Properties(5.0, 5.0, 500);
      Round2Properties(30.0, 30.0, 3000);
    }
  }

  // ---------------------------------------------------------------------
  // The reverts handed to calculate_metrics
  // ---------------------------------------------------------------------

  /**
   * The claim ids that `claim['id'] in reverts` can match when `reverts` is
   * the list of revert records itself: only the strings in that list.
   */
  function WiredRevertIds(records: seq<Value>): set<string> {
    set i | 0 <= i < |records| && records[i].JStr? :: records[i].s
  }

  /** The claim ids the revert records refer to: the set a claim's id is meant to be looked up in. */
  function RevertedClaimIds(records: seq<Value>): set<string> {
    set i | 0 <= i < |records| && records[i].JObj? && "claim_id" in records[i].fields && records[i].fields["claim_id"].JStr?
      :: records[i].fields["claim_id"].s
  }

  /** Handed the revert dicts themselves, no claim ever counts as reverted. */
  lemma WiredRevertsMatchNothing(claims: seq<Claim>, records: seq<Value>)
    requires Divisible(claims) && forall i | 0 <= i < |records| :: records[i].JObj?
    ensures WiredRevertIds(records) == {}
    ensures forall i | 0 <= i < |Metrics(claims, WiredRevertIds(records))| ::
      Metrics(claims, WiredRevertIds(records))[i].reverted == 0
  {
    NoRevertsNoneReverted(claims);
  }

  /** A claim with a revert against it: the wired call counts 0 reverted, the claim-id set counts 1. */
  lemma WiredRevertsCounterexample(t: DateTime)
    ensures var claims := [Claim("a", "D1", "P1", 1, 1.0, t)];
            var records := [JObj(map["id" := JStr("r"), "claim_id" := JStr("a"), "timestamp" := JTime(t)])];
            && Metrics(claims, WiredRevertIds(records))[0].reverted == 0
            && Metrics(claims, RevertedClaimIds(records))[0].reverted == 1
  {
    var c := Claim("a", "D1", "P1", 1, 1.0, t);
    var records := [JObj(map["id" := JStr("r"), "claim_id" := JStr("a"), "timestamp" := JTime(t)])];
    assert WiredRevertIds(records) == {};
    assert RevertedClaimIds(records) == {"a"} by {
      assert records[0].fields["claim_id"].s == "a";
    }
    assert Dedup(KeysOf([c])) == [KeyOf(c)];
    KeepAll([c], HasKey(KeyOf(c)));
    assert Keep([c], InReverts({})) == [];
    assert Keep([c], InReverts({"a"})) == [c];
  }

  /**
   * With the claim-id set, a metric counts a revert exactly when one of its
   * claims is the claim of some loaded revert.
   */
  lemma RevertedIffReferenced(claims: seq<Claim>, records: seq<Value>, i: nat)
    requires Divisible(claims) && i < |Metrics(claims, RevertedClaimIds(records))|
    requires forall j | 0 <= j < |records| :: Reverts.IsCleanRevert(records[j])
    ensures var m := Metrics(claims, RevertedClaimIds(records))[i];
            m.reverted > 0 <==>
              exists c, j | c in ClaimsFor(claims, MetricKey(m)) && 0 <= j < |records| ::
                Reverts.ToRevert(records[j]).claimId == c.id
  {
    var ids := RevertedClaimIds(records);
    var m := Metrics(claims, ids)[i];
    var g := ClaimsFor(claims, MetricKey(m));
    var kept := Keep(g, InReverts(ids));
    KeepMembers(g, InReverts(ids));
    if kept != [] {
      var c := kept[0];
      assert c in kept;
      var j :| 0 <= j < |records| && records[j].JObj? && "claim_id" in records[j].fields
               && records[j].fields["claim_id"].JStr? && records[j].fields["claim_id"].s == c.id;
      assert Reverts.ToRevert(records[j]).claimId == c.id;
    }
    if exists c, j | c in g && 0 <= j < |records| :: Reverts.ToRevert(records[j]).claimId == c.id {
      var c, j :| c in g && 0 <= j < |records| && Reverts.ToRevert(records[j]).claimId == c.id;
      assert c.id in ids;
      assert c in kept;
    }
  }

  // ---------------------------------------------------------------------
  // get_chain_recommendations
  // ---------------------------------------------------------------------

  /** A row of the merge of claims with pharmacies on `npi`: a claim and one matching pharmacy's chain. */
  datatype JoinedRow = JoinedRow(claim: Claim, chain: string)

  function SameNpi(c: Claim): Pharmacy -> bool {
    (p: Pharmacy) => p.npi == c.npi
  }

  /** The merged rows of one claim, one per pharmacy row with its npi. */
  function MatchesOf(c: Claim, pharmacies: seq<Pharmacy>): (m: seq<JoinedRow>)
    ensures forall i | 0 <= i < |m| :: m[i].claim == c && Pharmacy(c.npi, m[i].chain) in pharmacies
  {
    var ps := Keep(pharmacies, SameNpi(c));
    KeepElements(pharmacies, SameNpi(c));
    seq(|ps|, i requires 0 <= i < |ps| => JoinedRow(c, ps[i].chain))
  }

  /**
   * `claims_df.merge(pharmacies_df, left_on='npi', right_on='npi')`, an inner
   * join: every merged row pairs a claim with the chain of a pharmacy row of
   * the same npi.
   */
  function Joined(claims: seq<Claim>, pharmacies: seq<Pharmacy>): (rows: seq<JoinedRow>)
    ensures forall i | 0 <= i < |rows| :: rows[i].claim in claims && Pharmacy(rows[i].claim.npi, rows[i].chain) in pharmacies
  {
    if claims == [] then []
    else Joined(claims[..|claims| - 1], pharmacies) + MatchesOf(claims[|claims| - 1], pharmacies)
  }

  lemma MatchesOfMember(c: Claim, pharmacies: seq<Pharmacy>, r: JoinedRow)
    ensures r in MatchesOf(c, pharmacies) <==> r.claim == c && Pharmacy(c.npi, r.chain) in pharmacies
  {
    var ps := Keep(pharmacies, SameNpi(c));
    KeepMembers(pharmacies, SameNpi(c));
    if r.claim == c && Pharmacy(c.npi, r.chain) in pharmacies {
      var k :| 0 <= k < |ps| && ps[k] == Pharmacy(c.npi, r.chain);
      assert MatchesOf(c, pharmacies)[k] == r;
    }
    if r in MatchesOf(c, pharmacies) {
      var k :| 0 <= k < |ps| && MatchesOf(c, pharmacies)[k] == r;
      assert ps[k] in ps;
    }
  }

  lemma {:induction false} JoinedMember(claims: seq<Claim>, pharmacies: seq<Pharmacy>, r: JoinedRow)
    ensures r in Joined(claims, pharmacies) <==> r.claim in claims && Pharmacy(r.claim.npi, r.chain) in pharmacies
  {
    if claims != [] {
      var init, last := claims[..|claims| - 1], claims[|claims| - 1];
      JoinedMember(init, pharmacies, r);
      MatchesOfMember(last, pharmacies, r);
      assert claims == init + [last];
    }
  }

  /** A merged row pairs a claim with the chain of a pharmacy row of the same npi, and every such pair is merged. */
  lemma JoinedRows(claims: seq<Claim>, pharmacies: seq<Pharmacy>)
    ensures forall r :: r in Joined(claims, pharmacies) <==> r.claim in claims && Pharmacy(r.claim.npi, r.chain) in pharmacies
  {
    forall r
      ensures r in Joined(claims, pharmacies) <==> r.claim in claims && Pharmacy(r.claim.npi, r.chain) in pharmacies
    {
      JoinedMember(claims, pharmacies, r);
    }
  }

  predicate RowsDivisible(rows: seq<JoinedRow>) {
    forall i | 0 <= i < |rows| :: rows[i].claim.quantity != 0
  }

  lemma JoinedDivisible(claims: seq<Claim>, pharmacies: seq<Pharmacy>)
    requires Divisible(claims)
    ensures RowsDivisible(Joined(claims, pharmacies))
  {
    var rows := Joined(claims, pharmacies);
    forall i | 0 <= i < |rows|
      ensures rows[i].claim.quantity != 0
    {
      JoinedMember(claims, pharmacies, rows[i]);
    }
  }

  lemma KeepRowsDivisible(rows: seq<JoinedRow>, p: JoinedRow -> bool)
    requires RowsDivisible(rows)
    ensures RowsDivisible(Keep(rows, p))
  {
    KeepElements(rows, p);
    forall i | 0 <= i < |Keep(rows, p)|
      ensures Keep(rows, p)[i].claim.quantity != 0
    {
      var j :| 0 <= j < |rows| && rows[j] == Keep(rows, p)[i];
    }
  }

  function HasNdc(ndc: string): JoinedRow -> bool {
    (r: JoinedRow) => r.claim.ndc == ndc
  }

  function InGroup(ndc: string, chain: string): JoinedRow -> bool {
    (r: JoinedRow) => r.claim.ndc == ndc && r.chain == chain
  }

  /** The chains of the merged rows of one drug, each once. */
  function ChainsOf(rows: seq<JoinedRow>, ndc: string): (cs: seq<string>)
    ensures NoDup(cs)
  {
    var g := Keep(rows, HasNdc(ndc));
    DedupNoDup(seq(|g|, i requires 0 <= i < |g| => g[i].chain));
    Dedup(seq(|g|, i requires 0 <= i < |g| => g[i].chain))
  }

  /** The `unit_price` column of one (ndc, chain) group. */
  function GroupPrices(rows: seq<JoinedRow>, ndc: string, chain: string): seq<real>
    requires RowsDivisible(rows)
  {
    var g := Keep(rows, InGroup(ndc, chain));
    KeepRowsDivisible(rows, InGroup(ndc, chain));
    seq(|g|, i requires 0 <= i < |g| => UnitPrice(g[i].claim))
  }

  /** `groupby(['ndc', 'chain'])['unit_price'].mean()`: times the group's size it gives the group's total; groups that exist are never empty. */
  function GroupMean(rows: seq<JoinedRow>, ndc: string, chain: string): (m: real)
    requires RowsDivisible(rows)
    ensures GroupPrices(rows, ndc, chain) != [] ==>
              m * |GroupPrices(rows, ndc, chain)| as real == Sum(GroupPrices(rows, ndc, chain))
  {
    var ps := GroupPrices(rows, ndc, chain);
    if ps == [] then 0.0 else Mean(ps)
  }

  lemma ChainsOfMember(rows: seq<JoinedRow>, ndc: string, chain: string)
    requires RowsDivisible(rows)
    ensures chain in ChainsOf(rows, ndc) <==> exists r | r in rows :: r.claim.ndc == ndc && r.chain == chain
    ensures chain in ChainsOf(rows, ndc) ==> GroupPrices(rows, ndc, chain) != []
  {
    var g := Keep(rows, HasNdc(ndc));
    var names := seq(|g|, i requires 0 <= i < |g| => g[i].chain);
    DedupMember(names, chain);
    KeepMembers(rows, HasNdc(ndc));
    KeepMembers(rows, InGroup(ndc, chain));
    if chain in names {
      var i :| 0 <= i < |g| && names[i] == chain;
      assert g[i] in g;
      assert g[i] in Keep(rows, InGroup(ndc, chain));
    }
    if exists r | r in rows :: r.claim.ndc == ndc && r.chain == chain {
      var r :| r in rows && r.claim.ndc == ndc && r.chain == chain;
      assert r in g;
      var i :| 0 <= i < |g| && g[i] == r;
      assert names[i] == chain;
    }
  }

  /** A chain's mean unit price for one drug, as the score the sort orders chains by. */
  function MeanOf(rows: seq<JoinedRow>, ndc: string): string -> real
    requires RowsDivisible(rows)
  {
    (chain: string) => GroupMean(rows, ndc, chain)
  }

  /**
   * The chains of one drug sorted by mean unit price, first two: the two
   * cheapest, cheapest first (ties in an order not fixed here).
   */
  function Cheapest(rows: seq<JoinedRow>, ndc: string): (r: seq<string>)
    requires RowsDivisible(rows)
    ensures |r| == if 2 < |ChainsOf(rows, ndc)| then 2 else |ChainsOf(rows, ndc)|
  {
    Lowest(ChainsOf(rows, ndc), MeanOf(rows, ndc), 2)
  }

  lemma CheapestSpec(rows: seq<JoinedRow>, ndc: string)
    requires RowsDivisible(rows)
    ensures IsLowest(ChainsOf(rows, ndc), MeanOf(rows, ndc), Cheapest(rows, ndc))
  {
    var g := Keep(rows, HasNdc(ndc));
    DedupNoDup(seq(|g|, i requires 0 <= i < |g| => g[i].chain));
    LowestSpec(ChainsOf(rows, ndc), MeanOf(rows, ndc), 2);
  }

  /** An entry `{'name': chain, 'avg_price': round(unit_price, 2)}`. */
  datatype ChainPrice = ChainPrice(name: string, avgPrice: real)

  /** The entries of one drug: the cheapest chains in order, each with its mean unit price rounded to within half a cent. */
  function Recommendation(rows: seq<JoinedRow>, ndc: string): (r: seq<ChainPrice>)
    requires RowsDivisible(rows)
    ensures |r| == |Cheapest(rows, ndc)|
    ensures forall i | 0 <= i < |r| ::
              r[i].name == Cheapest(rows, ndc)[i] && -0.005 <= r[i].avgPrice - GroupMean(rows, ndc, r[i].name) <= 0.005
  {
    var names := Cheapest(rows, ndc);
    seq(|names|, i requires 0 <= i < |names| => ChainPrice(names[i], Round2(GroupMean(rows, ndc, names[i]))))
  }

  function RowNdcs(rows: seq<JoinedRow>): set<string> {
    set i | 0 <= i < |rows| :: rows[i].claim.ndc
  }

  /**
   * `get_chain_recommendations(claims_df, pharmacies_df)`, keyed by drug.
   * `None` when either frame is built from an empty list: it has no `npi`
   * column and the merge raises KeyError. A drug is reported exactly when one
   * of its claims has a pharmacy row with the same npi; its entry lists one or
   * two chains and is the recommendation over the merged rows.
   */
  function ChainRecommendations(claims: seq<Claim>, pharmacies: seq<Pharmacy>): (r: Option<map<string, seq<ChainPrice>>>)
    requires Divisible(claims)
    ensures r.None? <==> claims == [] || pharmacies == []
    ensures r.Some? ==> forall ndc :: ndc in r.value <==>
      exists c, p | c in claims && p in pharmacies :: c.ndc == ndc && p.npi == c.npi
    ensures r.Some? ==> forall ndc | ndc in r.value :: 1 <= |r.value[ndc]| <= 2
    ensures r.Some? ==> RowsDivisible(Joined(claims, pharmacies))
    ensures r.Some? ==> forall ndc | ndc in r.value :: r.value[ndc] == Recommendation(Joined(claims, pharmacies), ndc)
  {
    if claims == [] || pharmacies == [] then None
    else
      var rows := Joined(claims, pharmacies);
      JoinedDivisible(claims, pharmacies);
      JoinedNdcs(claims, pharmacies);
      RecommendationSizes(rows);
      Some(map ndc | ndc in RowNdcs(rows) :: Recommendation(rows, ndc))
  }

  /** The drugs of the merged rows are those with a claim whose npi has a pharmacy row. */
  lemma JoinedNdcs(claims: seq<Claim>, pharmacies: seq<Pharmacy>)
    ensures forall ndc :: ndc in RowNdcs(Joined(claims, pharmacies)) <==>
      exists c, p | c in claims && p in pharmacies :: c.ndc == ndc && p.npi == c.npi
  {
    var rows := Joined(claims, pharmacies);
    forall ndc
      ensures ndc in RowNdcs(rows) <==> exists c, p | c in claims && p in pharmacies :: c.ndc == ndc && p.npi == c.npi
    {
      if ndc in RowNdcs(rows) {
        var i :| 0 <= i < |rows| && rows[i].claim.ndc == ndc;
        assert rows[i] in rows;
        JoinedMember(claims, pharmacies, rows[i]);
        assert Pharmacy(rows[i].claim.npi, rows[i].chain) in pharmacies;
      }
      if exists c, p | c in claims && p in pharmacies :: c.ndc == ndc && p.npi == c.npi {
        var c, p :| c in claims && p in pharmacies && c.ndc == ndc && p.npi == c.npi;
        JoinedMember(claims, pharmacies, JoinedRow(c, p.chain));
        var i :| 0 <= i < |rows| && rows[i] == JoinedRow(c, p.chain);
      }
    }
  }

  lemma RecommendationSizes(rows: seq<JoinedRow>)
    requires RowsDivisible(rows)
    ensures forall ndc | ndc in RowNdcs(rows) :: 1 <= |Recommendation(rows, ndc)| <= 2
  {
    forall ndc | ndc in RowNdcs(rows)
      ensures 1 <= |Recommendation(rows, ndc)| <= 2
    {
      RecommendationEntries(rows, ndc);
    }
  }

  lemma SomeChain(rows: seq<JoinedRow>, ndc: string)
    requires RowsDivisible(rows) && ndc in RowNdcs(rows)
    ensures ChainsOf(rows, ndc) != []
  {
    var r :| 0 <= r < |rows| && rows[r].claim.ndc == ndc;
    ChainsOfMember(rows, ndc, rows[r].chain);
    assert rows[r] in rows;
  }

  /**
   * A drug's recommendation lists one or two of its chains, as many as it
   * has up to two, each with its group's mean unit price rounded to cents.
   */
  lemma RecommendationEntries(rows: seq<JoinedRow>, ndc: string)
    requires RowsDivisible(rows) && ndc in RowNdcs(rows)
    ensures var rec := Recommendation(rows, ndc);
            var chains := ChainsOf(rows, ndc);
            && 1 <= |rec| == (if |chains| < 2 then |chains| else 2)
            && forall i | 0 <= i < |rec| ::
                 && rec[i].name in chains
                 && GroupPrices(rows, ndc, rec[i].name) != []
                 && rec[i].avgPrice == Round2(Mean(GroupPrices(rows, ndc, rec[i].name)))
  {
    var rec := Recommendation(rows, ndc);
    var names := Cheapest(rows, ndc);
    SomeChain(rows, ndc);
    CheapestSpec(rows, ndc);
    forall i | 0 <= i < |rec|
      ensures rec[i].name in ChainsOf(rows, ndc) && GroupPrices(rows, ndc, rec[i].name) != []
    {
      ChainsOfMember(rows, ndc, names[i]);
    }
  }

  /** The listed chains are distinct and their rounded prices do not decrease. */
  lemma RecommendationOrder(rows: seq<JoinedRow>, ndc: string)
    requires RowsDivisible(rows)
    ensures var rec := Recommendation(rows, ndc);
            forall i, j | 0 <= i < j < |rec| :: rec[i].name != rec[j].name && rec[i].avgPrice <= rec[j].avgPrice
  {
    var rec := Recommendation(rows, ndc);
    var names := Cheapest(rows, ndc);
    var score := MeanOf(rows, ndc);
    CheapestSpec(rows, ndc);
    forall i, j | 0 <= i < j < |rec|
      ensures rec[i].name != rec[j].name && rec[i].avgPrice <= rec[j].avgPrice
    {
      assert score(names[i]) <= score(names[j]);
      Round2Properties(score(names[i]), score(names[j]), 0);
    }
  }

  /** No chain of the drug left out has a lower mean unit price than a listed one. */
  lemma RecommendationCheapest(rows: seq<JoinedRow>, ndc: string, chain: string)
    requires RowsDivisible(rows) && chain in ChainsOf(rows, ndc)
    requires forall i | 0 <= i < |Recommendation(rows, ndc)| :: Recommendation(rows, ndc)[i].name != chain
    ensures forall i | 0 <= i < |Recommendation(rows, ndc)| ::
              GroupMean(rows, ndc, Recommendation(rows, ndc)[i].name) <= GroupMean(rows, ndc, chain)
  {
    var rec := Recommendation(rows, ndc);
    var names := Cheapest(rows, ndc);
    var score := MeanOf(rows, ndc);
    CheapestSpec(rows, ndc);
    assert forall i | 0 <= i < |names| :: names[i] == rec[i].name;
    assert chain !in names;
    assert forall i | 0 <= i < |names| :: score(names[i]) <= score(chain);
  }

  /** Of three distinct candidates scored b < a < c, the two lowest are b then a. */
  lemma LowestTwoOfThree<T>(a: T, b: T, c: T, score: T -> real)
    requires a != b && b != c && a != c
    requires score(b) < score(a) < score(c)
    ensures Lowest([a, b, c], score, 2) == [b, a]
  {
    LowestSpec([a, b, c], score, 2);
    ChoiceTwoOfThree(a, b, c, score, Lowest([a, b, c], score, 2));
  }

  /** The selection step on the example of chains A, B and C at unit prices 3.00, 2.00 and 5.00. */
  lemma CheapestTwoExample()
    ensures Lowest(["A", "B", "C"], (ch: string) => if ch == "A" then 3.0 else if ch == "B" then 2.0 else 5.0, 2) == ["B", "A"]
  {
    var score := (ch: string) => if ch == "A" then 3.0 else if ch == "B" then 2.0 else 5.0;
    assert "A" != "B" && "B" != "C" && "A" != "C" by {
      assert "A"[0] != "B"[0] && "B"[0] != "C"[0] && "A"[0] != "C"[0];
    }
    LowestTwoOfThree("A", "B", "C", score);
  }

  // ---------------------------------------------------------------------
  // analyze_quantities
  // ---------------------------------------------------------------------

  function ClaimHasNdc(ndc: string): Claim -> bool {
    (c: Claim) => c.ndc == ndc
  }

  /** The `quantity` column of one drug's claims, in order: at most one per claim, and none for a drug without claims. */
  function QuantitiesOf(claims: seq<Claim>, ndc: string): (qs: seq<int>)
    ensures |qs| <= |claims|
    ensures (forall i | 0 <= i < |claims| :: claims[i].ndc != ndc) ==> qs == []
  {
    var g := Keep(claims, ClaimHasNdc(ndc));
    KeepLength(claims, ClaimHasNdc(ndc));
    assert (forall i | 0 <= i < |claims| :: claims[i].ndc != ndc) ==> g == [] by {
      if forall i | 0 <= i < |claims| :: claims[i].ndc != ndc {
        KeepNone(claims, ClaimHasNdc(ndc));
      }
    }
    seq(|g|, i requires 0 <= i < |g| => g[i].quantity)
  }

  lemma QuantitiesOfMember(claims: seq<Claim>, ndc: string, q: int)
    ensures q in QuantitiesOf(claims, ndc) <==> exists c | c in claims :: c.ndc == ndc && c.quantity == q
  {
    var g := Keep(claims, ClaimHasNdc(ndc));
    var qs := QuantitiesOf(claims, ndc);
    KeepMembers(claims, ClaimHasNdc(ndc));
    if q in qs {
      var j :| 0 <= j < |qs| && qs[j] == q;
      assert g[j] in g;
    }
    if exists c | c in claims :: c.ndc == ndc && c.quantity == q {
      var c :| c in claims && c.ndc == ndc && c.quantity == q;
      assert c in g;
      var j :| 0 <= j < |g| && g[j] == c;
      assert qs[j] == q;
    }
  }

  /** Higher for the values that occur more often in `qs`: the order `value_counts` sorts by, negated. */
  function Frequency(qs: seq<int>): int -> real {
    (q: int) => -(Count(qs, q) as real)
  }

  /**
   * `value_counts().head(n)`: up to `n` distinct values of `qs` in order of
   * decreasing frequency (ties in an order not fixed here): `n` of them, or
   * all distinct values when there are fewer.
   */
  function MostFrequent(qs: seq<int>, n: nat): (r: seq<int>)
    ensures |r| == if n < |Dedup(qs)| then n else |Dedup(qs)|
  {
    DedupNoDup(qs);
    Lowest(Dedup(qs), Frequency(qs), n)
  }

  /**
   * The distinct values of `qs`, as many as there are up to `n`, each
   * occurring in `qs`, in non-increasing frequency; no value left out
   * occurs more often than one listed.
   */
  lemma MostFrequentProperties(qs: seq<int>, n: nat)
    ensures var r := MostFrequent(qs, n);
            && |r| == (if n < |Dedup(qs)| then n else |Dedup(qs)|)
            && NoDup(r)
            && (forall i | 0 <= i < |r| :: r[i] in qs)
            && (forall i, j | 0 <= i < j < |r| :: Count(qs, r[i]) >= Count(qs, r[j]))
            && (forall q | q in qs && q !in r :: forall i | 0 <= i < |r| :: Count(qs, q) <= Count(qs, r[i]))
  {
    var r := MostFrequent(qs, n);
    var score := Frequency(qs);
    DedupNoDup(qs);
    LowestSpec(Dedup(qs), score, n);
    forall i | 0 <= i < |r|
      ensures r[i] in qs
    {
      DedupMember(qs, r[i]);
    }
    forall i, j | 0 <= i < j < |r|
      ensures Count(qs, r[i]) >= Count(qs, r[j])
    {
      assert score(r[i]) <= score(r[j]);
    }
    forall q | q in qs && q !in r
      ensures forall i | 0 <= i < |r| :: Count(qs, q) <= Count(qs, r[i])
    {
      DedupMember(qs, q);
      assert forall i | 0 <= i < |r| :: score(r[i]) <= score(q);
    }
  }

  /** Read as a sort: each listed value is at least as frequent as every value not listed before it. */
  lemma MostFrequentGreedy(qs: seq<int>, n: nat, k: nat)
    requires k < |MostFrequent(qs, n)|
    ensures var r := MostFrequent(qs, n);
            forall q | q in qs && q !in r[..k] :: Count(qs, q) <= Count(qs, r[k])
  {
    var r := MostFrequent(qs, n);
    DedupNoDup(qs);
    LowestGreedy(Dedup(qs), Frequency(qs), n, k);
    forall q | q in qs && q !in r[..k]
      ensures Count(qs, q) <= Count(qs, r[k])
    {
      DedupMember(qs, q);
      assert Frequency(qs)(r[k]) <= Frequency(qs)(q);
    }
  }

  /** Three distinct values of strictly decreasing frequency are listed in that order. */
  lemma MostFrequentOfThree(qs: seq<int>, a: int, b: int, c: int)
    requires Dedup(qs) == [a, b, c]
    requires Count(qs, a) > Count(qs, b) > Count(qs, c)
    ensures MostFrequent(qs, 5) == [a, b, c]
  {
    assert a != b && b != c && a != c;
    DedupNoDup(qs);
    LowestSpec(Dedup(qs), Frequency(qs), 5);
    ChoiceOfThree(a, b, c, Frequency(qs), MostFrequent(qs, 5));
  }

  /** The example of quantities 30, 30, 30, 60, 60, 90: listed 30, then 60, then 90. */
  lemma MostFrequentExample()
    ensures MostFrequent([30, 30, 30, 60, 60, 90], 5) == [30, 60, 90]
  {
    var s1, s2, s3 := [30], [30, 30], [30, 30, 30];
    var s4, s5 := s3 + [60], s3 + [60, 60];
    var qs := s5 + [90];
    assert qs == [30, 30, 30, 60, 60, 90];
    assert qs[..5] == s5 && s5[..4] == s4 && s4[..3] == s3 && s3[..2] == s2 && s2[..1] == s1 && s1[..0] == [];
    assert Count(s3, 30) == 3 && Count(s3, 60) == 0 && Count(s3, 90) == 0;
    assert Count(s4, 30) == 3 && Count(s4, 60) == 1 && Count(s4, 90) == 0;
    assert Count(s5, 30) == 3 && Count(s5, 60) == 2 && Count(s5, 90) == 0;
    assert Count(qs, 30) == 3 && Count(qs, 60) == 2 && Count(qs, 90) == 1;
    assert Dedup(s1) == [30] && Dedup(s2) == [30] && Dedup(s3) == [30];
    assert Dedup(s4) == [30, 60] && Dedup(s5) == [30, 60];
    assert Dedup(qs) == [30, 60, 90];
    MostFrequentOfThree(qs, 30, 60, 90);
  }

  function ClaimNdcs(claims: seq<Claim>): set<string> {
    set i | 0 <= i < |claims| :: claims[i].ndc
  }

  /**
   * `analyze_quantities(claims_df)`, keyed by drug: the five most frequent
   * quantities of each drug. `None` when the frame is built from an empty
   * list and has no `ndc` column to group by.
   */
  function AnalyzeQuantities(claims: seq<Claim>): (r: Option<map<string, seq<int>>>)
    ensures r.None? <==> claims == []
    ensures r.Some? ==> forall ndc :: ndc in r.value <==> exists c | c in claims :: c.ndc == ndc
    ensures r.Some? ==> forall ndc | ndc in r.value :: 1 <= |r.value[ndc]| <= 5 && NoDup(r.value[ndc])
    ensures r.Some? ==> forall ndc | ndc in r.value :: r.value[ndc] == MostFrequent(QuantitiesOf(claims, ndc), 5)
  {
    if claims == [] then None
    else
      ClaimNdcsMember(claims);
      AllDrugQuantities(claims);
      Some(map ndc | ndc in ClaimNdcs(claims) :: MostFrequent(QuantitiesOf(claims, ndc), 5))
  }

  lemma ClaimNdcsMember(claims: seq<Claim>)
    ensures forall ndc :: ndc in ClaimNdcs(claims) <==> exists c | c in claims :: c.ndc == ndc
  {
    forall ndc
      ensures ndc in ClaimNdcs(claims) <==> exists c | c in claims :: c.ndc == ndc
    {
      if exists c | c in claims :: c.ndc == ndc {
        var c :| c in claims && c.ndc == ndc;
        var i :| 0 <= i < |claims| && claims[i] == c;
        assert ndc in ClaimNdcs(claims);
      }
      if ndc in ClaimNdcs(claims) {
        var i :| 0 <= i < |claims| && claims[i].ndc == ndc;
        assert claims[i] in claims;
      }
    }
  }

  lemma AllDrugQuantities(claims: seq<Claim>)
    ensures forall ndc | ndc in ClaimNdcs(claims) ::
      var r := MostFrequent(QuantitiesOf(claims, ndc), 5); 1 <= |r| <= 5 && NoDup(r)
  {
    forall ndc | ndc in ClaimNdcs(claims)
      ensures var r := MostFrequent(QuantitiesOf(claims, ndc), 5); 1 <= |r| <= 5 && NoDup(r)
    {
      var i :| 0 <= i < |claims| && claims[i].ndc == ndc;
      assert claims[i] in claims;
      DrugQuantities(claims, ndc);
    }
  }

  /**
   * A drug's list holds one to five distinct quantities, each the quantity
   * of one of that drug's claims (`MostFrequentProperties` gives their order).
   */
  lemma DrugQuantities(claims: seq<Claim>, ndc: string)
    requires exists c | c in claims :: c.ndc == ndc
    ensures var r := MostFrequent(QuantitiesOf(claims, ndc), 5);
            && 1 <= |r| <= 5
            && NoDup(r)
            && forall i | 0 <= i < |r| :: exists c | c in claims :: c.ndc == ndc && c.quantity == r[i]
  {
    var qs := QuantitiesOf(claims, ndc);
    var r := MostFrequent(qs, 5);
    assert |r| <= 5 && NoDup(r) && forall i | 0 <= i < |r| :: r[i] in qs by {
      MostFrequentProperties(qs, 5);
    }
    assert 1 <= |r| by {
      var c :| c in claims && c.ndc == ndc;
      QuantitiesOfMember(claims, ndc, c.quantity);
      DedupMember(qs, c.quantity);
    }
    forall i | 0 <= i < |r|
      ensures exists c | c in claims :: c.ndc == ndc && c.quantity == r[i]
    {
      QuantitiesOfMember(claims, ndc, r[i]);
    }
  }

}
