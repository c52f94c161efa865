/** Scoring: re-weighting, rounding and the ranked lead set. */
module Scoring {
  import opened Basics
  import opened Sorting
  import Evaluator

  datatype MissingPolicy = ZERO | NEUTRAL | REWEIGHT

  /** What a component's raw score is computed from. */
  datatype Measure =
    | BusinessFit(outcome: Evaluator.Outcome)
    | OfficeDistribution(count: real, target: real, crossRegion: bool)
    | CompanyScale(large: bool, employees: real)
    | Preference(met: bool)
    | EvidenceConfidence(coverage: real, average: real, conflictRate: real)
    | ContactCompleteness(phone: Quality, website: Quality, address: Quality)
    | Unrecognised

  datatype Quality = VERIFIED | PARTIAL | CONFLICTING | UNVERIFIED | MISSING

  function Worth(q: Quality): real {
    match q
    case VERIFIED => 1.0
    case PARTIAL => 0.7
    case CONFLICTING => 0.3
    case UNVERIFIED => 0.2
    case MISSING => 0.0
  }

  function OfficeShare(m: Measure): real
    requires m.OfficeDistribution?
  {
    m.count / MaxReal(1.0, m.target)
  }

  /** calculate_component. */
  function RawScore(m: Measure): real {
    match m
    case BusinessFit(outcome) => (match outcome case MATCH => 1.0 case UNKNOWN => 0.5 case NO_MATCH => 0.0)
    case OfficeDistribution(_, _, crossRegion) =>
      var raw := MinReal(1.0, OfficeShare(m));
      if crossRegion then MinReal(1.0, raw + 0.2) else raw
    case CompanyScale(large, employees) =>
      if large || employees >= 100.0 then 1.0 else if employees > 0.0 then 0.4 else 0.0
    case Preference(met) => if met then 1.0 else 0.0
    case EvidenceConfidence(coverage, average, conflictRate) =>
      MaxReal(0.0, MinReal(1.0, 0.6 * coverage + 0.4 * average - 0.3 * conflictRate))
    case ContactCompleteness(phone, website, address) => (Worth(phone) + Worth(website) + Worth(address)) / 3.0
    case Unrecognised => 0.0
  }

  predicate InUnit(x: real) { 0.0 <= x <= 1.0 }

  /** Raw scores lie in [0,1], but for negative office counts. */
  lemma RawScoreInUnitIff(m: Measure)
    ensures InUnit(RawScore(m))
            <==> (m.OfficeDistribution? ==> OfficeShare(m) >= if m.crossRegion then -0.2 else 0.0)
  {
  }

  /** What makes a raw score full, and what makes it nothing. */
  lemma RawScoreExtremes(m: Measure)
    ensures m.BusinessFit? ==>
              (RawScore(m) == 1.0 <==> m.outcome.MATCH?) && (RawScore(m) == 0.0 <==> m.outcome.NO_MATCH?)
    ensures m.OfficeDistribution? ==>
              (RawScore(m) == 1.0 <==> m.count >= (if m.crossRegion then 0.8 else 1.0) * MaxReal(1.0, m.target))
    ensures m.CompanyScale? ==>
              (RawScore(m) == 1.0 <==> m.large || m.employees >= 100.0)
              && (RawScore(m) == 0.0 <==> !m.large && m.employees <= 0.0)
    ensures m.Preference? ==> (RawScore(m) == 1.0 <==> m.met) && (RawScore(m) == 0.0 <==> !m.met)
    ensures m.EvidenceConfidence? ==>
              (RawScore(m) == 1.0 <==> 6.0 * m.coverage + 4.0 * m.average >= 10.0 + 3.0 * m.conflictRate)
              && (RawScore(m) == 0.0 <==> 6.0 * m.coverage + 4.0 * m.average <= 3.0 * m.conflictRate)
    ensures m.ContactCompleteness? ==>
              (RawScore(m) == 1.0 <==> m.phone == m.website == m.address == VERIFIED)
              && (RawScore(m) == 0.0 <==> m.phone == m.website == m.address == MISSING)
    ensures m.Unrecognised? ==> RawScore(m) == 0.0
  {
    if m.OfficeDistribution? {
      ShareAtLeast(m.count, MaxReal(1.0, m.target), 1.0);
      ShareAtLeast(m.count, MaxReal(1.0, m.target), 0.8);
    }
  }

  lemma ShareAtLeast(count: real, target: real, x: real)
    requires target > 0.0
    ensures count / target >= x <==> count >= x * target
  {
    var share := count / target;
    assert share * target == count;
    if share < x {
      TimesPositive(x - share, target);
    } else {
      TimesNonNegative(share - x, target);
    }
  }

  /** In between: presence in several regions is worth another 0.2 of an office share, up to the full score. */
  lemma OfficeScore(count: real, target: real)
    ensures RawScore(OfficeDistribution(count, target, true)) == MinReal(1.0, RawScore(OfficeDistribution(count, target, false)) + 0.2)
    ensures count <= MaxReal(1.0, target) ==> RawScore(OfficeDistribution(count, target, false)) * MaxReal(1.0, target) == count
  {
    ShareAtLeast(count, MaxReal(1.0, target), 1.0);
    assert count / MaxReal(1.0, target) * MaxReal(1.0, target) == count;
  }

  /** More evidence, more confidence and fewer conflicts never lower the score; between its ends a step of the three
      counts six, four and minus three tenths. */
  lemma EvidenceScore(c: real, a: real, r: real, c': real, a': real, r': real)
    requires c <= c' && a <= a' && r >= r'
    ensures var before, after := RawScore(EvidenceConfidence(c, a, r)), RawScore(EvidenceConfidence(c', a', r'));
            && before <= after
            && (0.0 < before && after < 1.0 ==> after - before == 0.6 * (c' - c) + 0.4 * (a' - a) + 0.3 * (r - r'))
  {
  }

  /** Company scale and unknown fit have one middle value; contact fields count one by one, better qualities for more. */
  lemma MiddleScores(employees: real, phone: Quality, website: Quality, address: Quality)
    ensures 0.0 < employees < 100.0 ==> RawScore(CompanyScale(false, employees)) == 0.4
    ensures RawScore(BusinessFit(Evaluator.UNKNOWN)) == 0.5
    ensures RawScore(ContactCompleteness(phone, website, address)) == RawScore(ContactCompleteness(website, address, phone))
    ensures 1.0 == Worth(VERIFIED) > Worth(PARTIAL) > Worth(CONFLICTING) > Worth(UNVERIFIED) > Worth(MISSING) == 0.0
    ensures RawScore(ContactCompleteness(VERIFIED, PARTIAL, CONFLICTING)) == 2.0 / 3.0
    ensures RawScore(ContactCompleteness(PARTIAL, UNVERIFIED, MISSING)) == 0.3
    ensures RawScore(ContactCompleteness(UNVERIFIED, UNVERIFIED, UNVERIFIED)) == 0.2
  {
  }

  /** A further hard constraint never raises the business fit. */
  lemma {:induction false} FitNeverRises(e: Evaluator.Enterprise, cs: seq<Evaluator.Constraint>, c: Evaluator.Constraint)
    requires Evaluator.Evaluated(e, cs).Some? && Evaluator.Evaluated(e, cs + [c]).Some?
    ensures RawScore(BusinessFit(Evaluator.Evaluated(e, cs + [c]).value)) <= RawScore(BusinessFit(Evaluator.Evaluated(e, cs).value))
  {
    if cs != [] {
      assert (cs + [c])[1..] == cs[1..] + [c] && (cs + [c])[0] == cs[0];
      if Evaluator.Judge(e, cs[0]).Passes? || Evaluator.Judge(e, cs[0]).Unknown? {
        FitNeverRises(e, cs[1..], c);
      }
    }
  }

  /** What the engine reads off a verified profile. */
  datatype Profile = Profile(fields: map<Id, Quality>, coverage: real, conflicting: bool)

  predicate Absent(p: Profile, field: Id) {
    field !in p.fields || p.fields[field].MISSING? || p.fields[field].UNVERIFIED?
  }

  /** is_missing: there are required fields, and none of them is there. */
  predicate IsMissing(p: Profile, required: seq<Id>) {
    required != [] && forall f <- required :: Absent(p, f)
  }

  /** A field is absent exactly when its quality is worth less than a conflicting one; required fields are missing only
      together. */
  lemma AbsentIff(p: Profile, field: Id, required: seq<Id>)
    ensures Absent(p, field) <==> (field in p.fields ==> Worth(p.fields[field]) < Worth(CONFLICTING))
    ensures field in required && !Absent(p, field) ==> !IsMissing(p, required)
    ensures IsMissing(p, [field]) <==> Absent(p, field)
    ensures !IsMissing(p, [])
    ensures IsMissing(p, required) ==> IsMissing(p, required + [field]) == Absent(p, field)
  {
    assert forall f <- required :: f in required + [field];
    assert field in [field] && field in required + [field];
  }

  datatype Config = Config(weight: real, unwanted: bool, required: seq<Id>, policy: MissingPolicy, measure: Measure)

  /** A configured component as a profile shows it; unwanted is an industry preference without a soft industry constraint. */
  datatype Component = Component(weight: real, unwanted: bool, missing: bool, policy: MissingPolicy, measure: Measure)

  function Seen(p: Profile, configs: seq<Config>): seq<Component> {
    seq(|configs|, i requires 0 <= i < |configs| =>
      var c := configs[i]; Component(c.weight, c.unwanted, IsMissing(p, c.required), c.policy, c.measure))
  }

  // ---------------------------------------------------------------------------------------------
  // Rounding, half to even

  function RoundEven(x: real): int {
    var f := x.Floor;
    if x - f as real < 0.5 || (x - f as real == 0.5 && f % 2 == 0) then f else f + 1
  }

  function Round2(x: real): real { RoundEven(x * 100.0) as real / 100.0 }
  function Round4(x: real): real { RoundEven(x * 10000.0) as real / 10000.0 }
  function Round6(x: real): real { RoundEven(x * 1000000.0) as real / 1000000.0 }

  lemma RoundMonotone(x: real, y: real)
    requires x <= y
    ensures RoundEven(x) <= RoundEven(y)
  {
  }

  /** The nearest whole number, and of two nearest ones the even one. */
  lemma RoundNearest(x: real, n: int)
    ensures RoundEven(x) == n <==>
            -0.5 < x - n as real < 0.5 || ((x - n as real == 0.5 || x - n as real == -0.5) && n % 2 == 0)
  {
    var f := x.Floor;
    assert f as real <= x < f as real + 1.0;
  }

  lemma RoundWhole(n: int)
    ensures RoundEven(n as real) == n
  {
    assert (n as real).Floor == n;
  }

  // ---------------------------------------------------------------------------------------------
  // The engine

  predicate Active(c: Component) {
    !c.unwanted && !(c.missing && c.policy == REWEIGHT)
  }

  function ActiveOf(cs: seq<Component>): seq<Component> {
    if cs == [] then []
    else
      var n := |cs| - 1;
      ActiveOf(cs[..n]) + (if Active(cs[n]) then [cs[n]] else [])
  }

  function RemovedWeight(cs: seq<Component>): real {
    if cs == [] then 0.0
    else
      var n := |cs| - 1;
      RemovedWeight(cs[..n]) + if Active(cs[n]) then 0.0 else cs[n].weight
  }

  function Sum(xs: seq<real>): real {
    if xs == [] then 0.0 else Sum(xs[..|xs| - 1]) + xs[|xs| - 1]
  }

  function Weights(cs: seq<Component>): seq<real> {
    seq(|cs|, i requires 0 <= i < |cs| => cs[i].weight)
  }

  function Factor(removed: real): real {
    if removed < 100.0 then 100.0 / (100.0 - removed) else 0.0
  }

  function RawOf(c: Component): real {
    if c.missing && c.policy == ZERO then 0.0 else if c.missing && c.policy == NEUTRAL then 0.5 else RawScore(c.measure)
  }

  datatype ComponentScore = ComponentScore(raw: real, weighted: real, weight: real)

  function Effective(c: Component, factor: real): real {
    c.weight * factor
  }

  function Contribution(c: Component, factor: real): real {
    RawOf(c) * Effective(c, factor)
  }

  function ScoreOf(c: Component, factor: real): ComponentScore {
    ComponentScore(Round6(RawOf(c)), Round4(Contribution(c, factor)), Round4(Effective(c, factor)))
  }

  /** The bounds a component result is validated against. */
  predicate ValidScore(s: ComponentScore) {
    InUnit(s.raw) && 0.0 <= s.weighted <= 100.0
  }

  datatype RankStatus = SCORED | PARTIAL_SCORE | NOT_SCORABLE

  datatype LeadScore = LeadScore(enterprise: Id, status: RankStatus, total: Option<real>)

  function ScoresOf(cs: seq<Component>, factor: real): seq<ComponentScore> {
    seq(|cs|, i requires 0 <= i < |cs| => ScoreOf(cs[i], factor))
  }

  function Weighted(scores: seq<ComponentScore>): seq<real> {
    seq(|scores|, i requires 0 <= i < |scores| => scores[i].weighted)
  }

  function Total(cs: seq<Component>): real {
    Round2(Sum(Weighted(ScoresOf(ActiveOf(cs), Factor(RemovedWeight(cs))))))
  }

  ghost predicate AllValid(cs: seq<Component>) {
    forall c <- ActiveOf(cs) :: ValidScore(ScoreOf(c, Factor(RemovedWeight(cs))))
  }

  /** The loops of score; None where a result fails its validation. */
  method ScoreComponents(cs: seq<Component>) returns (total: Option<real>, scores: seq<ComponentScore>)
    ensures total == if AllValid(cs) && 0.0 <= Total(cs) <= 100.0 then Some(Total(cs)) else None
    ensures total.Some? ==> scores == ScoresOf(ActiveOf(cs), Factor(RemovedWeight(cs)))
  {
    scores := [];
    var active, removed := [], 0.0;
    for i := 0 to |cs|
      invariant active == ActiveOf(cs[..i]) && removed == RemovedWeight(cs[..i])
    {
      assert cs[..i + 1][..i] == cs[..i];
      if cs[i].unwanted {
        removed := removed + cs[i].weight;
        continue;
      }
      if cs[i].missing && cs[i].policy == REWEIGHT {
        removed := removed + cs[i].weight;
        continue;
      }
      active := active + [cs[i]];
    }
    assert cs[..|cs|] == cs;
    var factor := if removed < 100.0 then 100.0 / (100.0 - removed) else 0.0;
    assert factor == Factor(RemovedWeight(cs)) && active == ActiveOf(cs);
    var sum := 0.0;
    for i := 0 to |active|
      invariant Scored(active[..i], factor, scores, sum)
    {
      assert active[..i + 1] == active[..i] + [active[i]] && active[i] in active;
      hide *;
      var s := ScoreOf(active[i], factor);
      if !ValidScore(s) {
        Rejected(cs, active[i]);
        return None, scores;
      }
      ScoredSnoc(active[..i], factor, scores, sum, active[i]);
      scores, sum := scores + [s], sum + s.weighted;
    }
    assert active[..|active|] == active;
    hide ScoreOf, ValidScore, Factor, ActiveOf, RemovedWeight;
    var rounded := Round2(sum);
    return if 0.0 <= rounded <= 100.0 then Some(rounded) else None, scores;
  }

  /** score. */
  method Score(enterprise: Id, profile: Profile, configs: seq<Config>, hardRequired: seq<Id>, minCoverage: real)
    returns (r: Option<LeadScore>, scores: seq<ComponentScore>)
    ensures
      var cs, unscorable := Seen(profile, configs), exists f <- hardRequired :: Absent(profile, f);
      var status := if profile.coverage >= minCoverage && !profile.conflicting then SCORED else PARTIAL_SCORE;
      && r == (if unscorable then Some(LeadScore(enterprise, NOT_SCORABLE, None))
               else if AllValid(cs) && 0.0 <= Total(cs) <= 100.0 then Some(LeadScore(enterprise, status, Some(Total(cs))))
               else None)
      && (r.Some? ==> scores == if unscorable then [] else ScoresOf(ActiveOf(cs), Factor(RemovedWeight(cs))))
  {
    if exists f <- hardRequired :: Absent(profile, f) {
      return Some(LeadScore(enterprise, NOT_SCORABLE, None)), [];
    }
    var total, componentScores := ScoreComponents(Seen(profile, configs));
    if total.None? {
      return None, componentScores;
    }
    var settled := profile.coverage >= minCoverage && !profile.conflicting;
    return Some(LeadScore(enterprise, if settled then SCORED else PARTIAL_SCORE, total)), componentScores;
  }

  ghost predicate Scored(cs: seq<Component>, factor: real, scores: seq<ComponentScore>, sum: real) {
    && scores == ScoresOf(cs, factor) && sum == Sum(Weighted(scores))
    && forall c <- cs :: ValidScore(ScoreOf(c, factor))
  }

  lemma ScoredSnoc(cs: seq<Component>, factor: real, scores: seq<ComponentScore>, sum: real, c: Component)
    requires Scored(cs, factor, scores, sum) && ValidScore(ScoreOf(c, factor))
    ensures Scored(cs + [c], factor, scores + [ScoreOf(c, factor)], sum + ScoreOf(c, factor).weighted)
  {
    hide ScoreOf, ValidScore;
    var after := Weighted(scores + [ScoreOf(c, factor)]);
    assert after[..|after| - 1] == Weighted(scores);
  }

  lemma Rejected(cs: seq<Component>, c: Component)
    requires c in ActiveOf(cs) && !ValidScore(ScoreOf(c, Factor(RemovedWeight(cs))))
    ensures !AllValid(cs)
  {
  }

  /** Figures are given to six, four and four digits, and the total to two, each the nearest such number. */
  lemma FiguresAreNearest(c: Component, factor: real, cs: seq<Component>)
    ensures var s := ScoreOf(c, factor);
            && Nearest(s.raw, RawOf(c), 1000000.0)
            && Nearest(s.weighted, Contribution(c, factor), 10000.0)
            && Nearest(s.weight, Effective(c, factor), 10000.0)
    ensures Nearest(Total(cs), Sum(Weighted(ScoresOf(ActiveOf(cs), Factor(RemovedWeight(cs))))), 100.0)
  {
    Round6Near(RawOf(c));
    Round4Near(Contribution(c, factor));
    Round4Near(Effective(c, factor));
    Round2Near(Sum(Weighted(ScoresOf(ActiveOf(cs), Factor(RemovedWeight(cs))))));
    hide Round2, Round4, Round6, Nearest, RawOf, Contribution, Effective, ActiveOf, RemovedWeight, Factor, ScoresOf, Weighted, Sum;
  }

  lemma Round2Near(x: real)
    ensures Nearest(Round2(x), x, 100.0)
  {
    RoundNear(x, 100.0);
  }

  lemma Round4Near(x: real)
    ensures Nearest(Round4(x), x, 10000.0)
  {
    RoundNear(x, 10000.0);
  }

  lemma Round6Near(x: real)
    ensures Nearest(Round6(x), x, 1000000.0)
  {
    RoundNear(x, 1000000.0);
  }

  /** A whole number of units, at most half a unit away. */
  ghost predicate Nearest(rounded: real, x: real, units: real)
    requires units > 0.0
  {
    var n := rounded * units;
    n == n.Floor as real && -0.5 <= n - x * units <= 0.5
  }

  lemma RoundNear(x: real, units: real)
    requires units > 0.0
    ensures Nearest(RoundEven(x * units) as real / units, x, units)
  {
    var n := RoundEven(x * units);
    RoundNearest(x * units, n);
    assert n as real / units * units == n as real;
  }

  /** A missing component that stays counts nothing under ZERO and half its weight under NEUTRAL; a present one counts
      its measure's share. Under REWEIGHT a missing one does not stay, nor does an unwanted one. */
  lemma MissingCounts(c: Component, factor: real)
    ensures c.missing && c.policy == ZERO ==> Contribution(c, factor) == 0.0
    ensures c.missing && c.policy == NEUTRAL ==> 2.0 * Contribution(c, factor) == c.weight * factor
    ensures !c.missing ==> Contribution(c, factor) == RawScore(c.measure) * c.weight * factor
    ensures ActiveOf([c]) == [] <==> c.unwanted || (c.missing && c.policy == REWEIGHT)
  {
    var effective := c.weight * factor;
    assert RawOf(c) * effective == RawOf(c) * c.weight * factor;
    assert [c][..0] == [];
  }

  // ---------------------------------------------------------------------------------------------
  // Re-weighting

  /** The configured bounds on weights. */
  ghost predicate Positive(cs: seq<Component>) {
    forall c <- cs :: 0.0 < c.weight <= 100.0
  }

  /** The profile's own check: the weights total 100 to six digits. */
  ghost predicate ValidProfile(cs: seq<Component>) {
    Positive(cs) && Round6(Sum(Weights(cs))) == 100.0
  }

  function EffectiveWeights(cs: seq<Component>): seq<real> {
    var active, factor := ActiveOf(cs), Factor(RemovedWeight(cs));
    seq(|active|, i requires 0 <= i < |active| => Effective(active[i], factor))
  }

  lemma {:induction false} ActiveMember(cs: seq<Component>, c: Component)
    ensures c in ActiveOf(cs) <==> c in cs && Active(c)
  {
    if cs != [] {
      var n := |cs| - 1;
      ActiveMember(cs[..n], c);
      assert cs == cs[..n] + [cs[n]];
    }
  }

  /** Weight is conserved: what is removed and what stays add up to the profile. */
  lemma {:induction false} WeightSplits(cs: seq<Component>)
    ensures Sum(Weights(ActiveOf(cs))) + RemovedWeight(cs) == Sum(Weights(cs))
  {
    if cs != [] {
      var n := |cs| - 1;
      WeightSplits(cs[..n]);
      assert Weights(cs)[..n] == Weights(cs[..n]);
      var before := ActiveOf(cs[..n]);
      if Active(cs[n]) {
        assert Weights(before + [cs[n]]) == Weights(before) + [cs[n].weight];
        assert Weights(before + [cs[n]])[..|before|] == Weights(before);
      } else {
        assert ActiveOf(cs) == before;
      }
    }
  }

  lemma {:induction false} SumScaled(xs: seq<real>, ys: seq<real>, factor: real)
    requires |xs| == |ys| && forall i :: 0 <= i < |xs| ==> ys[i] == xs[i] * factor
    ensures Sum(ys) == Sum(xs) * factor
  {
    if xs != [] {
      var n := |xs| - 1;
      SumScaled(xs[..n], ys[..n], factor);
    }
  }

  lemma {:induction false} SumPositive(xs: seq<real>)
    requires forall i :: 0 <= i < |xs| ==> xs[i] > 0.0
    ensures xs != [] ==> Sum(xs) > 0.0
  {
    if xs != [] {
      var n := |xs| - 1;
      SumPositive(xs[..n]);
    }
  }

  /** When any component stays, the effective weights total exactly 100 if and only if the profile's weights do. */
  lemma EffectiveTotalIff(cs: seq<Component>)
    requires Positive(cs) && ActiveOf(cs) != []
    ensures Sum(EffectiveWeights(cs)) == 100.0 <==> Sum(Weights(cs)) == 100.0
    ensures Sum(Weights(cs)) <= 100.0 ==> Sum(EffectiveWeights(cs)) <= 100.0
  {
    hide Factor, RemovedWeight, ActiveOf, Rescaled;
    var active := ActiveOf(cs);
    WeightSplits(cs);
    forall i | 0 <= i < |active| ensures Weights(active)[i] > 0.0 {
      ActiveMember(cs, active[i]);
    }
    SumPositive(Weights(active));
    EffectiveTotal(cs);
    RescaledIff(Sum(Weights(active)), RemovedWeight(cs));
  }

  ghost function Rescaled(stays: real, removed: real): real {
    stays * Factor(removed)
  }

  lemma EffectiveTotal(cs: seq<Component>)
    ensures Sum(EffectiveWeights(cs)) == Rescaled(Sum(Weights(ActiveOf(cs))), RemovedWeight(cs))
  {
    hide Factor, RemovedWeight, ActiveOf, Sum;
    SumScaled(Weights(ActiveOf(cs)), EffectiveWeights(cs), Factor(RemovedWeight(cs)));
  }

  lemma RescaledIff(stays: real, removed: real)
    requires stays > 0.0
    ensures Rescaled(stays, removed) == 100.0 <==> stays + removed == 100.0
    ensures stays + removed <= 100.0 ==> Rescaled(stays, removed) <= 100.0
  {
    if removed < 100.0 {
      ScaledToHundred(stays, 100.0 - removed);
    }
  }

  lemma ScaledToHundred(x: real, y: real)
    requires y > 0.0
    ensures x * (100.0 / y) == 100.0 <==> x == y
    ensures x <= y ==> x * (100.0 / y) <= 100.0
  {
    assert x * (100.0 / y) == x / y * 100.0;
    assert x / y * y == x;
    AtMostOne(x / y, y);
  }

  lemma AtMostOne(q: real, y: real)
    requires y > 0.0
    ensures q * y <= y ==> q <= 1.0
  {
    if q > 1.0 {
      TimesPositive(q - 1.0, y);
    }
  }

  lemma TimesPositive(x: real, y: real)
    requires x > 0.0 && y > 0.0
    ensures x * y > 0.0
  {
  }

  // ---------------------------------------------------------------------------------------------
  // The score stays in bounds

  /** The total of the rounded components, in units of their fourth digit. */
  function Units(xs: seq<real>): int {
    if xs == [] then 0 else Units(xs[..|xs| - 1]) + RoundEven(xs[|xs| - 1])
  }

  /** Rounding gains at most half a unit for each number; when every one gains that much, each rounded to an even
      number, so the total is even. */
  lemma {:induction false} RoundingGain(xs: seq<real>)
    ensures Units(xs) as real <= Sum(xs) + |xs| as real / 2.0
    ensures Units(xs) as real == Sum(xs) + |xs| as real / 2.0 ==> Units(xs) % 2 == 0
  {
    if xs != [] {
      var n := |xs| - 1;
      RoundingGain(xs[..n]);
      var x := xs[n];
      assert RoundEven(x) as real <= x + 0.5;
      assert RoundEven(x) as real == x + 0.5 ==> RoundEven(x) % 2 == 0;
      assert (|xs| as real) / 2.0 == (n as real) / 2.0 + 0.5;
    }
  }

  lemma {:induction false} UnitsNonNegative(xs: seq<real>)
    requires forall i :: 0 <= i < |xs| ==> xs[i] >= 0.0
    ensures Units(xs) >= 0
  {
    if xs != [] {
      UnitsNonNegative(xs[..|xs| - 1]);
    }
  }

  /** What the components are rounded from, in units of their fourth digit. */
  function Scaled(cs: seq<Component>, factor: real): seq<real> {
    seq(|cs|, i requires 0 <= i < |cs| => Contribution(cs[i], factor) * 10000.0)
  }

  lemma {:induction false} WeightedInUnits(cs: seq<Component>, factor: real)
    ensures Sum(Weighted(ScoresOf(cs, factor))) == Units(Scaled(cs, factor)) as real / 10000.0
  {
    hide Contribution, RoundEven;
    if cs != [] {
      var n := |cs| - 1;
      WeightedInUnits(cs[..n], factor);
      assert Weighted(ScoresOf(cs, factor))[..n] == Weighted(ScoresOf(cs[..n], factor));
      assert Scaled(cs, factor)[..n] == Scaled(cs[..n], factor);
    }
  }

  lemma {:induction false} SumBelow(xs: seq<real>, ys: seq<real>)
    requires |xs| == |ys| && forall i :: 0 <= i < |xs| ==> 0.0 <= xs[i] <= ys[i]
    ensures 0.0 <= Sum(xs) <= Sum(ys)
    ensures forall i :: 0 <= i < |xs| ==> xs[i] <= Sum(ys)
  {
    if xs != [] {
      var n := |xs| - 1;
      SumBelow(xs[..n], ys[..n]);
      forall i | 0 <= i < |xs| ensures xs[i] <= Sum(ys) {
        if i < n {
          assert xs[i] == xs[..n][i];
        }
      }
    }
  }

  ghost predicate RawsInUnit(cs: seq<Component>) {
    forall c <- cs :: InUnit(RawOf(c))
  }

  lemma FactorNonNegative(removed: real)
    ensures Factor(removed) >= 0.0
  {
  }

  lemma ContributionFits(c: Component, factor: real)
    requires c.weight > 0.0 && factor >= 0.0 && InUnit(RawOf(c))
    ensures 0.0 <= Contribution(c, factor) <= Effective(c, factor)
  {
    hide RawOf;
    var raw, effective := RawOf(c), c.weight * factor;
    TimesNonNegative(c.weight, factor);
    TimesNonNegative(raw, effective);
    TimesNonNegative(1.0 - raw, effective);
    assert (1.0 - raw) * effective == effective - raw * effective;
  }

  lemma TimesNonNegative(x: real, y: real)
    requires x >= 0.0 && y >= 0.0
    ensures x * y >= 0.0
  {
  }

  /** Every component contributes between nothing and its effective weight. */
  lemma ContributionBounds(cs: seq<Component>)
    requires Positive(cs) && RawsInUnit(cs) && ActiveOf(cs) != [] && Sum(Weights(cs)) <= 100.0
    ensures
      var active, factor := ActiveOf(cs), Factor(RemovedWeight(cs));
      && 0.0 <= Sum(Scaled(active, factor)) <= 1000000.0
      && forall i :: 0 <= i < |active| ==> 0.0 <= Contribution(active[i], factor) <= 100.0
  {
    hide Factor, RemovedWeight, ActiveOf, Sum, RawOf, RoundEven, Contribution, Effective;
    var active, factor, effective := ActiveOf(cs), Factor(RemovedWeight(cs)), EffectiveWeights(cs);
    var xs, ys := Scaled(active, factor), seq(|active|, i requires 0 <= i < |active| => effective[i] * 10000.0);
    FactorNonNegative(RemovedWeight(cs));
    forall i | 0 <= i < |active| ensures 0.0 <= xs[i] <= ys[i] {
      ActiveMember(cs, active[i]);
      ContributionFits(active[i], factor);
    }
    EffectiveTotalIff(cs);
    SumScaled(effective, ys, 10000.0);
    SumBelow(xs, ys);
    forall i | 0 <= i < |active| ensures 0.0 <= Contribution(active[i], factor) <= 100.0 {
      assert xs[i] <= Sum(ys);
    }
  }

  /** With weights of at most 100 in total and at most 102 scored components, every result and the total pass their validation. */
  lemma ScoreInBounds(cs: seq<Component>)
    requires Positive(cs) && RawsInUnit(cs) && Sum(Weights(cs)) <= 100.0
    requires |ActiveOf(cs)| <= 102
    ensures AllValid(cs) && 0.0 <= Total(cs) <= 100.0
  {
    hide Factor, RemovedWeight, ActiveOf, Sum, RawOf, RoundEven, Units, Contribution, Effective;
    var active, factor := ActiveOf(cs), Factor(RemovedWeight(cs));
    var xs := Scaled(active, factor);
    WeightedInUnits(active, factor);
    if active == [] {
      NothingScored(cs);
    } else {
      ContributionBounds(cs);
      RoundingGain(xs);
      UnitsNonNegative(xs);
      TotalFromUnits(Units(xs));
      forall i | 0 <= i < |active| ensures ValidScore(ScoreOf(active[i], factor)) {
        ActiveMember(cs, active[i]);
        RoundBetween(RawOf(active[i]) * 1000000.0, 1000000);
        RoundBetween(Contribution(active[i], factor) * 10000.0, 1000000);
      }
      forall c <- active ensures ValidScore(ScoreOf(c, factor)) {
        var i :| 0 <= i < |active| && active[i] == c;
      }
    }
  }

  lemma NothingScored(cs: seq<Component>)
    requires ActiveOf(cs) == []
    ensures AllValid(cs) && Total(cs) == 0.0
  {
  }

  lemma RoundBetween(x: real, n: int)
    requires 0.0 <= x <= n as real
    ensures 0 <= RoundEven(x) <= n
  {
    RoundWhole(0);
    RoundWhole(n);
    RoundMonotone(0.0, x);
    RoundMonotone(x, n as real);
  }

  /** The second rounding is half to even as well: 1000050 units still make 100. */
  lemma TotalFromUnits(units: int)
    ensures 0.0 <= Round2(units as real / 10000.0) <= 100.0 <==> -50 <= units <= 1000050
  {
    var x := units as real / 10000.0 * 100.0;
    assert (units / 100) as real <= x < (units / 100 + 1) as real;
    assert x.Floor == units / 100;
    assert x - x.Floor as real == (units % 100) as real / 100.0;
  }

  // ---------------------------------------------------------------------------------------------
  // Where the bound ends

  /** One of 102 components of weight 0.00015 that are fully met, or an unmet one of weight t after them. */
  function CrowdMember(i: nat, t: real): Component {
    Component(if i < 102 then 0.00015 else t, false, false, ZERO, Preference(i < 102))
  }

  function Crowd(k: nat, t: real): seq<Component> {
    if k == 0 then [] else Crowd(k - 1, t) + [CrowdMember(k - 1, t)]
  }

  function Times(k: nat, t: real): real {
    if k == 0 then 0.0 else Times(k - 1, t) + t
  }

  lemma {:induction false} TimesIs(k: nat, t: real)
    ensures Times(k, t) == k as real * t
  {
    if k > 0 {
      TimesIs(k - 1, t);
      assert k as real * t == (k - 1) as real * t + t;
    }
  }

  lemma CrowdMemberFacts(i: nat, t: real)
    requires 0.0 < t <= 1.0
    ensures
      var c := CrowdMember(i, t);
      && 0.0 < c.weight <= 100.0 && InUnit(RawOf(c)) && Active(c)
      && RoundEven(Contribution(c, 1.0) * 10000.0) == if i < 102 then 2 else 0
  {
    var c := CrowdMember(i, t);
    assert Contribution(c, 1.0) * 10000.0 == if i < 102 then 1.5 else 0.0;
  }

  ghost predicate Crowded(k: nat, t: real, cs: seq<Component>) {
    && |cs| == k && ActiveOf(cs) == cs && RemovedWeight(cs) == 0.0 && Positive(cs) && RawsInUnit(cs)
    && Units(Scaled(cs, 1.0)) == (if k <= 102 then 2 * k else 204)
    && Sum(Weights(cs)) == if k <= 102 then 0.00015 * k as real else 0.0153 + Times(k - 102, t)
  }

  lemma CrowdGrows(k: nat, t: real, cs: seq<Component>)
    requires 0.0 < t <= 1.0 && Crowded(k, t, cs)
    ensures Crowded(k + 1, t, cs + [CrowdMember(k, t)])
  {
    hide ActiveOf, RemovedWeight, Sum, Weights, Units, Scaled, Contribution, RoundEven, RawOf, Active;
    var c := CrowdMember(k, t);
    Appended(cs, c);
    CrowdMemberFacts(k, t);
    if k < 102 {
      assert c.weight == 0.00015;
      assert 0.00015 * (k + 1) as real == 0.00015 * k as real + 0.00015;
    } else {
      assert Times(k + 1 - 102, t) == Times(k - 102, t) + t && c.weight == t;
    }
    AppendedFits(cs, c);
  }

  lemma NobodyCrowds(t: real)
    ensures Crowded(0, t, [])
  {
  }

  lemma {:induction false} CrowdFacts(k: nat, t: real)
    requires 0.0 < t <= 1.0
    ensures Crowded(k, t, Crowd(k, t))
  {
    hide Crowded;
    if k == 0 {
      NobodyCrowds(t);
    } else {
      CrowdFacts(k - 1, t);
      CrowdGrows(k - 1, t, Crowd(k - 1, t));
    }
  }

  lemma Appended(cs: seq<Component>, c: Component)
    ensures ActiveOf(cs + [c]) == ActiveOf(cs) + (if Active(c) then [c] else [])
    ensures RemovedWeight(cs + [c]) == RemovedWeight(cs) + if Active(c) then 0.0 else c.weight
    ensures Sum(Weights(cs + [c])) == Sum(Weights(cs)) + c.weight
    ensures Units(Scaled(cs + [c], 1.0)) == Units(Scaled(cs, 1.0)) + RoundEven(Contribution(c, 1.0) * 10000.0)
  {
    hide Contribution, RoundEven, Active;
    var all := cs + [c];
    assert all[..|cs|] == cs;
    assert Weights(all)[..|cs|] == Weights(cs);
    assert Scaled(all, 1.0)[..|cs|] == Scaled(cs, 1.0);
  }

  lemma AppendedFits(cs: seq<Component>, c: Component)
    requires Positive(cs) && RawsInUnit(cs) && 0.0 < c.weight <= 100.0 && InUnit(RawOf(c))
    ensures Positive(cs + [c]) && RawsInUnit(cs + [c])
  {
    hide RawOf;
    forall d <- cs + [c] ensures 0.0 < d.weight <= 100.0 && InUnit(RawOf(d)) {
      assert d in cs || d == c;
    }
  }

  lemma LastRounds(weight: real)
    requires 99.98468 <= weight <= 99.9847
    ensures
      var c := Component(weight, false, false, ZERO, Preference(true));
      Active(c) && RawOf(c) == 1.0 && RoundEven(Contribution(c, 1.0) * 10000.0) == 999847
  {
    var x := weight * 10000.0;
    assert Contribution(Component(weight, false, false, ZERO, Preference(true)), 1.0) * 10000.0 == x;
    assert x.Floor == if x == 999847.0 then 999847 else 999846;
  }

  /** The crowd with one component that takes the rest of the weight. */
  lemma CrowdOverflows(n: nat, total: real) returns (cs: seq<Component>)
    requires n >= 103 && 99.9999995 <= total <= 100.0
    ensures Positive(cs) && RawsInUnit(cs) && Sum(Weights(cs)) == total && |ActiveOf(cs)| == n
    ensures Total(cs) > 100.0
  {
    var t := TinyWeight(n);
    CrowdFacts(n - 1, t);
    var crowd := Crowd(n - 1, t);
    hide *;
    CrowdIs(n - 1, t, crowd);
    var weight := total - Sum(Weights(crowd));
    var last := Component(weight, false, false, ZERO, Preference(true));
    LastRounds(weight);
    Appended(crowd, last);
    UnitRaw(last);
    AppendedFits(crowd, last);
    cs := crowd + [last];
    OverInUnits(cs);
  }

  lemma UnitRaw(c: Component)
    requires RawOf(c) == 1.0
    ensures InUnit(RawOf(c))
  {
  }

  lemma CrowdIs(k: nat, t: real, cs: seq<Component>)
    requires Crowded(k, t, cs) && k >= 102 && 0.0 <= Times(k - 102, t) <= 0.00001
    ensures |cs| == k && ActiveOf(cs) == cs && RemovedWeight(cs) == 0.0 && Positive(cs) && RawsInUnit(cs)
    ensures Units(Scaled(cs, 1.0)) == 204 && 0.0153 <= Sum(Weights(cs)) <= 0.01531
  {
  }

  lemma OverInUnits(cs: seq<Component>)
    requires ActiveOf(cs) == cs && RemovedWeight(cs) == 0.0 && Units(Scaled(cs, 1.0)) == 1000051
    ensures Total(cs) > 100.0
  {
    assert Factor(0.0) == 1.0;
    hide ActiveOf, RemovedWeight, Units, Scaled;
    WeightedInUnits(cs, 1.0);
    TotalFromUnits(1000051);
    TotalIsLarge(1000051);
  }

  lemma TotalIsLarge(units: int)
    requires units >= 0
    ensures Round2(units as real / 10000.0) >= 0.0
  {
  }

  /** A weight so small that even n of them round away. */
  lemma TinyWeight(n: nat) returns (t: real)
    requires n >= 103
    ensures 0.0 < t <= 1.0 && 0.0 <= Times(n - 103, t) <= 0.00001
  {
    t := 0.00001 / n as real;
    assert t * n as real == 0.00001;
    TimesIs(n - 103, t);
    TimesNonNegative((n - 103) as real, t);
    TimesNonNegative(103.0, t);
    assert (n - 103) as real * t == n as real * t - 103.0 * t;
  }

  /** How many components may be scored: any profile of weights up to 100 stays within bounds up to 102, and for every
      larger number there is one whose rounded total exceeds 100 and is refused. */
  lemma BoundHoldsIff(n: nat)
    ensures (forall cs :: Positive(cs) && RawsInUnit(cs) && Sum(Weights(cs)) <= 100.0 && |ActiveOf(cs)| == n ==>
              AllValid(cs) && 0.0 <= Total(cs) <= 100.0)
            <==> n <= 102
  {
    if n <= 102 {
      forall cs | Positive(cs) && RawsInUnit(cs) && Sum(Weights(cs)) <= 100.0 && |ActiveOf(cs)| == n
        ensures AllValid(cs) && 0.0 <= Total(cs) <= 100.0
      {
        ScoreInBounds(cs);
      }
    } else {
      var cs := CrowdOverflows(n, 100.0);
    }
  }

  /** The profile's check rounds the total weight, so a profile it accepts can be re-weighted past 100. */
  lemma RoundedTotalOverflows()
    ensures exists cs :: ValidProfile(cs) && RawsInUnit(cs) && |ActiveOf(cs)| == 1 && !AllValid(cs)
  {
    RoundedDown();
    var cs := ExcessOverflows(1, 0.0000004);
    assert ValidProfile(cs);
  }

  lemma RoundedDown()
    ensures Round6(100.0000004) == 100.0
  {
    assert 100.0000004 * 1000000.0 == 100000000.4;
    assert (100000000.4).Floor == 100000000;
  }

  /** A component that re-weighting drops with all but x of the 100, and k unmet ones. */
  function Excess(k: nat, x: real, t: real): seq<Component> {
    if k == 0 then [] + [Component(100.0 - x, false, true, REWEIGHT, Preference(true))]
    else Excess(k - 1, x, t) + [Component(t, false, false, ZERO, Preference(false))]
  }

  ghost predicate Exceeds(k: nat, x: real, t: real, cs: seq<Component>) {
    && |ActiveOf(cs)| == k && RemovedWeight(cs) == 100.0 - x && Positive(cs) && RawsInUnit(cs)
    && Sum(Weights(cs)) == 100.0 - x + Times(k, t)
  }

  lemma DroppedExceeds(x: real, t: real)
    requires 0.0 < x <= 1.0
    ensures Exceeds(0, x, t, [] + [Component(100.0 - x, false, true, REWEIGHT, Preference(true))])
  {
    var dropped := Component(100.0 - x, false, true, REWEIGHT, Preference(true));
    NobodyCrowds(1.0);
    assert !Active(dropped) && InUnit(RawOf(dropped)) && Times(0, t) == 0.0;
    hide ActiveOf, RemovedWeight, Sum, Weights, Units, Scaled, Times, Active, RawOf;
    Appended([], dropped);
  }

  lemma ExcessGrows(k: nat, x: real, t: real, cs: seq<Component>)
    requires 0.0 < t <= 1.0 && Exceeds(k, x, t, cs)
    ensures Exceeds(k + 1, x, t, cs + [Component(t, false, false, ZERO, Preference(false))])
  {
    var unmet := Component(t, false, false, ZERO, Preference(false));
    assert Active(unmet) && InUnit(RawOf(unmet)) && Times(k + 1, t) == Times(k, t) + t;
    hide ActiveOf, RemovedWeight, Sum, Weights, Units, Scaled, Times, Active, RawOf;
    Appended(cs, unmet);
    AppendedFits(cs, unmet);
  }

  lemma {:induction false} ExcessFacts(k: nat, x: real, t: real)
    requires 0.0 < x <= 1.0 && 0.0 < t <= 1.0
    ensures Exceeds(k, x, t, Excess(k, x, t))
  {
    hide Exceeds;
    if k == 0 {
      DroppedExceeds(x, t);
    } else {
      ExcessFacts(k - 1, x, t);
      ExcessGrows(k - 1, x, t, Excess(k - 1, x, t));
    }
  }

  /** Beyond 100 by any amount x, the kept weight of nearly 2x is scaled up by 100 / x. */
  lemma ExcessOverflows(n: nat, x: real) returns (cs: seq<Component>)
    requires n >= 1 && 0.0 < x <= 0.0000005
    ensures Positive(cs) && RawsInUnit(cs) && Sum(Weights(cs)) == 100.0 + x && |ActiveOf(cs)| == n && !AllValid(cs)
  {
    var t := ShareOf(n, x);
    var before := Excess(n - 1, x, t);
    var kept := Component(2.0 * x - Times(n - 1, t), false, false, ZERO, Preference(true));
    ExcessFacts(n - 1, x, t);
    assert Active(kept) && InUnit(RawOf(kept));
    hide *;
    ExcessIs(n - 1, x, t, before);
    Appended(before, kept);
    AppendedFits(before, kept);
    KeptOverflows(kept, x);
    cs := before + [kept];
    assert kept in ActiveOf(before) + [kept];
    Rejected(cs, kept);
  }

  lemma ExcessIs(k: nat, x: real, t: real, cs: seq<Component>)
    requires Exceeds(k, x, t, cs)
    ensures |ActiveOf(cs)| == k && RemovedWeight(cs) == 100.0 - x && Positive(cs) && RawsInUnit(cs)
    ensures Sum(Weights(cs)) == 100.0 - x + Times(k, t)
  {
  }

  lemma ShareOf(n: nat, x: real) returns (t: real)
    requires n >= 1 && 0.0 < x <= 1.0
    ensures 0.0 < t <= 1.0 && 0.0 <= Times(n - 1, t) <= x / 2.0
  {
    t := x / 2.0 / n as real;
    assert t * n as real == x / 2.0;
    TimesIs(n - 1, t);
    TimesNonNegative((n - 1) as real, t);
    assert (n - 1) as real * t == n as real * t - t;
  }

  lemma KeptOverflows(c: Component, x: real)
    requires c == Component(c.weight, false, false, ZERO, Preference(true)) && 0.0 < x <= 1.0 && c.weight >= 1.5 * x
    ensures !ValidScore(ScoreOf(c, Factor(100.0 - x)))
  {
    var factor := Factor(100.0 - x);
    assert factor * x == 100.0;
    TimesNonNegative(c.weight - 1.5 * x, factor);
    assert c.weight * factor == (c.weight - 1.5 * x) * factor + 1.5 * (factor * x);
    assert Contribution(c, factor) >= 150.0;
    RoundWhole(1500000);
    RoundMonotone(1500000.0, Contribution(c, factor) * 10000.0);
  }

  lemma RoundedToHundred(total: real)
    requires Round6(total) == 100.0
    ensures 99.9999995 <= total <= 100.0000005
  {
    var x := total * 1000000.0;
    assert RoundEven(x) == 100000000;
    assert x.Floor as real <= x < x.Floor as real + 1.0;
  }

  /** For which totals an accepted profile stays in bounds: every profile of this total with n scored components does
      exactly when the total is at most 100 and n at most 102, or nothing is scored. */
  lemma AcceptedBoundIff(n: nat, total: real)
    requires Round6(total) == 100.0
    ensures (forall cs :: Positive(cs) && RawsInUnit(cs) && Sum(Weights(cs)) == total && |ActiveOf(cs)| == n ==>
              AllValid(cs) && 0.0 <= Total(cs) <= 100.0)
            <==> n == 0 || (total <= 100.0 && n <= 102)
  {
    hide Positive, RawsInUnit, Sum, Weights, ActiveOf, AllValid, Total;
    RoundedToHundred(total);
    if n == 0 || (total <= 100.0 && n <= 102) {
      forall cs | Positive(cs) && RawsInUnit(cs) && Sum(Weights(cs)) == total && |ActiveOf(cs)| == n
        ensures AllValid(cs) && 0.0 <= Total(cs) <= 100.0
      {
        if n == 0 {
          NothingScored(cs);
        } else {
          ScoreInBounds(cs);
        }
      }
    } else if total <= 100.0 {
      var cs := CrowdOverflows(n, total);
    } else {
      var cs := ExcessOverflows(n, total - 100.0);
    }
  }

  // ---------------------------------------------------------------------------------------------
  // The lead set

  function Rank(s: RankStatus): int {
    match s case SCORED => 0 case PARTIAL_SCORE => 1 case NOT_SCORABLE => 2
  }

  /** The sort key: status, then higher totals, then the enterprise id. */
  predicate Ahead(a: LeadScore, b: LeadScore) {
    var x, y := a.total.GetOr(0.0), b.total.GetOr(0.0);
    Rank(a.status) < Rank(b.status)
    || (Rank(a.status) == Rank(b.status) && (x > y || (x == y && a.enterprise < b.enterprise)))
  }

  function Scorable(ranked: seq<LeadScore>): seq<LeadScore> {
    if ranked == [] then []
    else (if ranked[0].status != NOT_SCORABLE then [ranked[0]] else []) + Scorable(ranked[1..])
  }

  function Leads(scores: seq<LeadScore>, topN: nat): seq<LeadScore> {
    var ranked := Scorable(SortedBy(Ahead, scores));
    if |ranked| <= topN then ranked else ranked[..topN]
  }

  /** build_lead_set. */
  function LeadSet(scores: seq<LeadScore>, topN: nat): seq<Id> {
    var leads := Leads(scores, topN);
    seq(|leads|, i requires 0 <= i < |leads| => leads[i].enterprise)
  }

  ghost predicate DistinctEnterprises(scores: seq<LeadScore>) {
    forall i, j :: 0 <= i < j < |scores| ==> scores[i].enterprise != scores[j].enterprise
  }

  ghost predicate InOrder(scores: seq<LeadScore>) {
    forall i, j :: 0 <= i < j < |scores| ==> Ahead(scores[i], scores[j])
  }

  lemma AheadTransitive(a: LeadScore, b: LeadScore, c: LeadScore)
    requires Ahead(a, b) && Ahead(b, c)
    ensures Ahead(a, c)
  {
  }

  lemma ConsInOrder(s: LeadScore, scores: seq<LeadScore>)
    requires InOrder(scores) && forall t <- scores :: Ahead(s, t)
    ensures InOrder([s] + scores)
  {
    hide Ahead;
  }

  lemma InsertMember(s: LeadScore, scores: seq<LeadScore>, t: LeadScore)
    requires t in Insert(Ahead, s, scores)
    ensures t == s || t in scores
  {
    hide *;
    InsertPermutes(Ahead, s, scores);
    assert t in multiset(Insert(Ahead, s, scores));
    assert t in [s] + scores;
  }

  lemma {:induction false} InsertInOrder(s: LeadScore, scores: seq<LeadScore>)
    requires InOrder(scores) && forall t <- scores :: t.enterprise != s.enterprise
    ensures InOrder(Insert(Ahead, s, scores))
  {
    if scores != [] {
      var head, tail := scores[0], scores[1..];
      assert scores == [head] + tail && head in scores && forall t <- tail :: t in scores && Ahead(head, t);
      assert Ahead(s, head) || Ahead(head, s);
      RestInOrder(scores);
      hide Ahead, InOrder;
      if Ahead(s, head) {
        forall t <- scores ensures Ahead(s, t) {
          if t != head {
            AheadTransitive(s, head, t);
          }
        }
        ConsInOrder(s, scores);
      } else {
        InsertInOrder(s, tail);
        forall t <- Insert(Ahead, s, tail) ensures Ahead(head, t) {
          InsertMember(s, tail, t);
        }
        ConsInOrder(head, Insert(Ahead, s, tail));
      }
    }
  }

  lemma {:induction false} SortInOrder(scores: seq<LeadScore>)
    requires DistinctEnterprises(scores)
    ensures InOrder(SortedBy(Ahead, scores))
  {
    if scores != [] {
      SortInOrder(scores[1..]);
      SortMembers(Ahead, scores[1..]);
      InsertInOrder(scores[0], SortedBy(Ahead, scores[1..]));
    }
  }

  /** Two ordered lists of the same scores are the same list. */
  lemma {:induction false} OrderIsUnique(xs: seq<LeadScore>, ys: seq<LeadScore>)
    requires InOrder(xs) && InOrder(ys) && multiset(xs) == multiset(ys)
    ensures xs == ys
  {
    hide *;
    assert |xs| == |multiset(xs)| == |multiset(ys)| == |ys|;
    if xs != [] {
      SameFirst(xs, ys);
      assert xs == [xs[0]] + xs[1..] && ys == [ys[0]] + ys[1..];
      assert multiset(xs[1..]) == multiset(xs) - multiset{xs[0]} == multiset(ys[1..]);
      RestInOrder(xs);
      RestInOrder(ys);
      OrderIsUnique(xs[1..], ys[1..]);
    }
  }

  lemma RestInOrder(xs: seq<LeadScore>)
    requires InOrder(xs) && xs != []
    ensures InOrder(xs[1..])
  {
  }

  lemma SameFirst(xs: seq<LeadScore>, ys: seq<LeadScore>)
    requires InOrder(xs) && InOrder(ys) && multiset(xs) == multiset(ys) && xs != [] && ys != []
    ensures xs[0] == ys[0]
  {
    assert xs[0] in multiset(ys) && ys[0] in multiset(xs);
    var i :| 0 <= i < |xs| && xs[i] == ys[0];
    var j :| 0 <= j < |ys| && ys[j] == xs[0];
  }

  lemma DistinctPermuted(xs: seq<LeadScore>, ys: seq<LeadScore>)
    requires DistinctEnterprises(xs) && multiset(xs) == multiset(ys)
    ensures DistinctEnterprises(ys)
  {
    forall i, j | 0 <= i < j < |ys| ensures ys[i].enterprise != ys[j].enterprise {
      assert ys[i] in multiset(xs) && ys[j] in multiset(xs);
      if ys[i] == ys[j] {
        OccursTwice(ys, i, j);
        OnceEach(xs, ys[i]);
      }
    }
  }

  lemma OccursTwice(ys: seq<LeadScore>, i: nat, j: nat)
    requires i < j < |ys| && ys[i] == ys[j]
    ensures multiset(ys)[ys[i]] >= 2
  {
    assert ys == ys[..j] + ys[j..];
    assert ys[..j][i] in multiset(ys[..j]) && ys[j..][0] in multiset(ys[j..]);
  }

  lemma {:induction false} OnceEach(xs: seq<LeadScore>, s: LeadScore)
    requires DistinctEnterprises(xs)
    ensures multiset(xs)[s] <= 1
  {
    if xs != [] {
      OnceEach(xs[1..], s);
      assert xs == [xs[0]] + xs[1..];
      if xs[0] == s {
        assert s !in xs[1..];
      }
    }
  }

  /** The lead set does not depend on the order in which the scores arrive. */
  lemma LeadSetIgnoresOrder(xs: seq<LeadScore>, ys: seq<LeadScore>, topN: nat)
    requires DistinctEnterprises(xs) && multiset(xs) == multiset(ys)
    ensures LeadSet(xs, topN) == LeadSet(ys, topN)
  {
    DistinctPermuted(xs, ys);
    SortInOrder(xs);
    SortInOrder(ys);
    SortPermutes(Ahead, xs);
    SortPermutes(Ahead, ys);
    OrderIsUnique(SortedBy(Ahead, xs), SortedBy(Ahead, ys));
  }

  lemma {:induction false} ScorableInOrder(ranked: seq<LeadScore>)
    requires InOrder(ranked)
    ensures InOrder(Scorable(ranked))
    ensures forall s :: s in Scorable(ranked) <==> s in ranked && s.status != NOT_SCORABLE
  {
    if ranked != [] {
      ScorableInOrder(ranked[1..]);
      assert ranked == [ranked[0]] + ranked[1..];
      var rest := Scorable(ranked[1..]);
      forall j | 0 <= j < |rest| ensures Ahead(ranked[0], rest[j]) {
        assert rest[j] in rest;
      }
    }
  }

  /** The leads are ranked, all scorable, and nobody left out for lack of room was ahead of one of them. */
  lemma LeadsAreBest(scores: seq<LeadScore>, topN: nat)
    requires DistinctEnterprises(scores)
    ensures InOrder(Leads(scores, topN)) && |Leads(scores, topN)| <= topN
    ensures forall s <- Leads(scores, topN) :: s in scores && s.status != NOT_SCORABLE
    ensures forall s <- scores :: s.status != NOT_SCORABLE && s !in Leads(scores, topN) ==>
              |Leads(scores, topN)| == topN && forall t <- Leads(scores, topN) :: Ahead(t, s)
  {
    SortInOrder(scores);
    SortMembers(Ahead, scores);
    ScorableInOrder(SortedBy(Ahead, scores));
    var ranked, leads := Scorable(SortedBy(Ahead, scores)), Leads(scores, topN);
    assert forall k :: 0 <= k < |leads| ==> ranked[k] == leads[k] && leads[k] in leads;
    forall s <- scores | s.status != NOT_SCORABLE && s !in leads
      ensures |leads| == topN && forall t <- leads :: Ahead(t, s)
    {
      var i :| 0 <= i < |ranked| && ranked[i] == s;
    }
  }

  /** The lead set in the scores' own terms: a scorable enterprise comes before every lead of its status with a lower
      total, or with the same total and a larger id, and a SCORED one before every PARTIAL_SCORE one; none of them is
      left out for such a lead. */
  lemma BetterLeadsFirst(scores: seq<LeadScore>, topN: nat, s: LeadScore, t: LeadScore, j: nat)
    requires DistinctEnterprises(scores) && s in scores && t in scores && s.status != NOT_SCORABLE
    requires j < |LeadSet(scores, topN)| && LeadSet(scores, topN)[j] == t.enterprise
    requires var x, y := s.total.GetOr(0.0), t.total.GetOr(0.0);
             || (s.status == SCORED && t.status == PARTIAL_SCORE)
             || (s.status == t.status && (x > y || (x == y && s.enterprise < t.enterprise)))
    ensures exists i :: 0 <= i < j && LeadSet(scores, topN)[i] == s.enterprise
  {
    var leads := Leads(scores, topN);
    LeadsAreBest(scores, topN);
    assert Ahead(s, t) && !Ahead(t, s) && leads[j] in leads;
    hide Leads, Ahead;
    SameEnterprise(scores, leads[j], t);
    assert t in leads;
    assert s in leads;
    var i :| 0 <= i < |leads| && leads[i] == s;
    assert i != j;
    assert LeadSet(scores, topN)[i] == s.enterprise;
  }

  lemma SameEnterprise(scores: seq<LeadScore>, s: LeadScore, t: LeadScore)
    requires DistinctEnterprises(scores) && s in scores && t in scores && s.enterprise == t.enterprise
    ensures s == t
  {
  }

  /** The leads are scorable enterprises, all of them while there is room, and at most topN. */
  lemma LeadSetFills(scores: seq<LeadScore>, topN: nat)
    requires DistinctEnterprises(scores)
    ensures |LeadSet(scores, topN)| <= topN
    ensures forall e <- LeadSet(scores, topN) :: exists s <- scores :: s.enterprise == e && s.status != NOT_SCORABLE
    ensures |LeadSet(scores, topN)| < topN ==>
              forall s <- scores :: s.status != NOT_SCORABLE ==> s.enterprise in LeadSet(scores, topN)
  {
    var leads := Leads(scores, topN);
    LeadsAreBest(scores, topN);
    hide Leads;
    forall e <- LeadSet(scores, topN) ensures exists s <- scores :: s.enterprise == e && s.status != NOT_SCORABLE {
      var i :| 0 <= i < |leads| && LeadSet(scores, topN)[i] == e;
      assert leads[i] in leads;
    }
    if |leads| < topN {
      forall s <- scores | s.status != NOT_SCORABLE ensures s.enterprise in LeadSet(scores, topN) {
        var i :| 0 <= i < |leads| && leads[i] == s;
        assert LeadSet(scores, topN)[i] == s.enterprise;
      }
    }
  }

  /** The largest effective weight a fully met component may have: with 100.00005 it still rounds to 100. */
  lemma LargestWeight(weight: real)
    requires weight >= 0.0
    ensures ValidScore(ScoreOf(Component(weight, false, false, ZERO, Preference(true)), 1.0)) <==> weight <= 100.00005
  {
    var x := weight * 10000.0;
    assert Contribution(Component(weight, false, false, ZERO, Preference(true)), 1.0) == weight;
    RoundWhole(1000000);
    RoundNearest(1000000.5, 1000000);
    RoundNearest(0.0, 0);
    RoundMonotone(0.0, x);
    if x <= 1000000.5 {
      RoundMonotone(x, 1000000.5);
    } else {
      RoundNearest(x, 1000000);
      RoundMonotone(1000000.5, x);
    }
  }
}
