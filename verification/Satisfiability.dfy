/** Why checking pairs of rules is enough, and what the criteria validator can still find afterwards. */
module Satisfiability {
  import opened Basics
  import opened Values
  import opened Rules
  import opened Evaluator
  import opened Compiler

  /** A comparison with a number, or equality with one: a rule that describes an interval of the line. */
  predicate OnTheLine(r: Rule) {
    IsRange(r.operator) && IsNumber(r.value)
  }

  /** The evaluator accepts the number under the rule. */
  predicate Meets(x: real, r: Rule) {
    Matches(Float(x), r.operator, r.value) == Some(true)
  }

  /** The number an interval rule compares with. */
  function End(r: Rule): real {
    if IsNumber(r.value) then AsReal(r.value) else 0.0
  }

  predicate HasLower(r: Rule) { IsLower(r.operator) || r.operator.EQ? }

  predicate HasUpper(r: Rule) { IsUpper(r.operator) || r.operator.EQ? }

  lemma MeetsIff(x: real, r: Rule)
    requires OnTheLine(r)
    ensures var b := End(r);
            Meets(x, r) <==> (match r.operator
                              case GT => x > b case GTE => x >= b case LT => x < b case LTE => x <= b case _ => x == b)
  {
  }

  /** The range check of conflicts.py on two interval rules. */
  predicate Reported(l: Rule, r: Rule)
    requires OnTheLine(l) && OnTheLine(r)
  {
    NoCommonRange(IntervalOf(_ => None, l).value, IntervalOf(_ => None, r).value)
  }

  /** An equality strictly inside a strict bound: no contradiction, but the check demands closed ends. */
  predicate FalseAlarm(l: Rule, r: Rule)
    requires OnTheLine(l) && OnTheLine(r)
  {
    var a, b := End(l), End(r);
    || (l.operator.EQ? && ((r.operator.GT? && a > b) || (r.operator.LT? && a < b)))
    || (r.operator.EQ? && ((l.operator.GT? && b > a) || (l.operator.LT? && b < a)))
  }

  /** A real value that meets both rules, when there is one. */
  function CommonValue(l: Rule, r: Rule): real
    requires OnTheLine(l) && OnTheLine(r)
  {
    var a, b := End(l), End(r);
    if l.operator.EQ? then a
    else if r.operator.EQ? then b
    else if HasLower(l) && HasLower(r) then (if a < b then b else a) + 1.0
    else if HasUpper(l) && HasUpper(r) then (if a < b then a else b) - 1.0
    else (a + b) / 2.0
  }

  /** Some real value meets both rules. */
  ghost predicate Compatible(l: Rule, r: Rule) {
    exists x :: Meets(x, l) && Meets(x, r)
  }

  /** The check reports a pair exactly when no real value meets both rules, or when it is over-cautious. */
  lemma ReportedIff(l: Rule, r: Rule)
    requires OnTheLine(l) && OnTheLine(r)
    ensures Reported(l, r) <==> !Compatible(l, r) || FalseAlarm(l, r)
  {
    forall x ensures Meets(x, l) && Meets(x, r) && Reported(l, r) ==> FalseAlarm(l, r) {
      MeetsIff(x, l);
      MeetsIff(x, r);
    }
    var x := CommonValue(l, r);
    MeetsIff(x, l);
    MeetsIff(x, r);
    assert !Reported(l, r) ==> Meets(x, l) && Meets(x, r);
    if FalseAlarm(l, r) {
      assert Reported(l, r);
    }
  }

  // ---------------------------------------------------------------------------------------------
  // Helly's theorem on the line

  ghost predicate AnyEnd(rs: seq<Rule>, upper: bool) {
    exists r <- rs :: if upper then HasUpper(r) else HasLower(r)
  }

  /** The largest lower end, or the smallest upper end, and a rule it comes from. */
  lemma {:induction false} ExtremeRule(rs: seq<Rule>, upper: bool) returns (k: nat)
    requires forall r <- rs :: OnTheLine(r)
    requires AnyEnd(rs, upper)
    ensures k < |rs| && (if upper then HasUpper(rs[k]) else HasLower(rs[k]))
    ensures forall r <- rs :: if upper then HasUpper(r) ==> End(rs[k]) <= End(r)
                              else HasLower(r) ==> End(r) <= End(rs[k])
  {
    var n := |rs| - 1;
    var front, last := rs[..n], rs[n];
    assert rs == front + [last];
    if AnyEnd(front, upper) {
      k := ExtremeRule(front, upper);
      if (if upper then HasUpper(last) && End(last) < End(front[k])
          else HasLower(last) && End(last) > End(front[k])) {
        k := n;
      }
    } else {
      k := n;
    }
  }

  ghost predicate PairwiseCompatible(rs: seq<Rule>) {
    (forall r <- rs :: OnTheLine(r)) && forall i, j :: 0 <= i < j < |rs| ==> Compatible(rs[i], rs[j])
  }

  /** A lower end of l and an upper end of r do not cross, and touch only when closed. */
  predicate Ordered(l: Rule, r: Rule) {
    HasLower(l) && HasUpper(r) ==>
      End(l) <= End(r) && (End(l) == End(r) ==> !l.operator.GT? && !r.operator.LT?)
  }

  lemma CompatibleEnds(rs: seq<Rule>, i: nat, j: nat)
    requires PairwiseCompatible(rs) && i < |rs| && j < |rs|
    ensures Ordered(rs[i], rs[j])
  {
    assert rs[i] in rs && rs[j] in rs;
    if i != j {
      assert i < j ==> Compatible(rs[i], rs[j]);
      assert j < i ==> Compatible(rs[j], rs[i]);
      var x :| Meets(x, rs[i]) && Meets(x, rs[j]);
      MeetsIff(x, rs[i]);
      MeetsIff(x, rs[j]);
    }
  }

  /** Midway between the largest lower end and the smallest upper end. */
  lemma BetweenTheEnds(low: Rule, high: Rule, r: Rule)
    requires OnTheLine(r) && HasLower(low) && HasUpper(high)
    requires Ordered(low, high) && Ordered(r, high) && Ordered(low, r)
    requires HasLower(r) ==> End(r) <= End(low)
    requires HasUpper(r) ==> End(high) <= End(r)
    ensures Meets((End(low) + End(high)) / 2.0, r)
  {
    MeetsIff((End(low) + End(high)) / 2.0, r);
  }

  /** Only lower ends, or only upper ends: go beyond the extreme one. */
  lemma OneSided(rs: seq<Rule>, upper: bool) returns (x: real)
    requires (forall r <- rs :: OnTheLine(r)) && !AnyEnd(rs, !upper)
    ensures forall k :: 0 <= k < |rs| ==> Meets(x, rs[k])
  {
    x := 0.0;
    if rs != [] {
      assert rs[0] in rs;
      var k := ExtremeRule(rs, upper);
      x := if upper then End(rs[k]) - 1.0 else End(rs[k]) + 1.0;
    }
    forall k | 0 <= k < |rs| ensures Meets(x, rs[k]) {
      assert rs[k] in rs;
      MeetsIff(x, rs[k]);
    }
  }

  lemma TwoSided(rs: seq<Rule>) returns (x: real)
    requires (forall r <- rs :: OnTheLine(r)) && AnyEnd(rs, false) && AnyEnd(rs, true)
    requires forall l <- rs, r <- rs :: Ordered(l, r)
    ensures forall k :: 0 <= k < |rs| ==> Meets(x, rs[k])
  {
    var i := ExtremeRule(rs, false);
    var j := ExtremeRule(rs, true);
    x := (End(rs[i]) + End(rs[j])) / 2.0;
    forall k | 0 <= k < |rs| ensures Meets(x, rs[k]) {
      BetweenTheEnds(rs[i], rs[j], rs[k]);
    }
  }

  /** Helly on the line: intervals that share a real value two by two all share one. */
  lemma PairwiseIsEnough(rs: seq<Rule>) returns (x: real)
    requires PairwiseCompatible(rs)
    ensures forall k :: 0 <= k < |rs| ==> Meets(x, rs[k])
  {
    if AnyEnd(rs, false) && AnyEnd(rs, true) {
      forall l <- rs, r <- rs ensures Ordered(l, r) {
        var i, j :| 0 <= i < |rs| && 0 <= j < |rs| && rs[i] == l && rs[j] == r;
        CompatibleEnds(rs, i, j);
      }
      x := TwoSided(rs);
    } else {
      x := OneSided(rs, AnyEnd(rs, true));
    }
  }

  // ---------------------------------------------------------------------------------------------
  // What a report without blocking conflicts guarantees

  ghost predicate NoBlocking(conflicts: seq<Conflict>) {
    forall c <- conflicts :: !c.blocking
  }

  /** The first reason to file a pair as a duplicate. */
  predicate SharedKey(l: Rule, r: Rule) {
    l.sourceKey.Some? && l.sourceKey == r.sourceKey
  }

  /** Neither a contradiction of inclusion, of equality, nor of ranges. */
  predicate Agree(l: Rule, r: Rule) {
    && !IncludeAgainstExclude(l, r)
    && !(l.operator == r.operator == EQ && !Equal(l.value, r.value))
    && (OnTheLine(l) && OnTheLine(r) ==> !Reported(l, r))
  }

  lemma AgreeSymmetric(l: Rule, r: Rule)
    ensures Agree(l, r) == Agree(r, l)
  {
    EqualIsSymmetric(l.value, r.value);
  }

  /** An unreported pair of hard rules on one field agrees, unless a shared source key hid it. */
  lemma UnreportedPairAgrees(parse: Parser, l: Rule, r: Rule)
    requires BothHard(l, r) && l.field == r.field && !SharedKey(l, r)
    requires PairConflict(parse, l, r).Success?
    requires PairConflict(parse, l, r).value.Some? ==> !PairConflict(parse, l, r).value.value.blocking
    ensures Agree(l, r)
  {
  }

  lemma HardPairAgrees(parse: Parser, rules: seq<Rule>, i: nat, j: nat)
    requires Detected(parse, rules).Success? && NoBlocking(Detected(parse, rules).value)
    requires i < |rules| && j < |rules| && i != j && BothHard(rules[i], rules[j]) && rules[i].field == rules[j].field
    requires !SharedKey(rules[i], rules[j])
    ensures Agree(rules[i], rules[j])
  {
    var a, b := if i < j then i else j, if i < j then j else i;
    DetectedExact(parse, rules);
    var c := PairConflict(parse, rules[a], rules[b]);
    if c.value.Some? {
      assert c == Success(Some(c.value.value));
    }
    UnreportedPairAgrees(parse, rules[a], rules[b]);
    AgreeSymmetric(rules[a], rules[b]);
  }

  /** A hard pair of intervals is reported as blocking exactly when it fails the range check under different keys. */
  lemma BlockingIff(parse: Parser, l: Rule, r: Rule)
    requires BothHard(l, r) && l.field == r.field && OnTheLine(l) && OnTheLine(r)
    ensures PairConflict(parse, l, r).Success?
    ensures (PairConflict(parse, l, r).value.Some? && PairConflict(parse, l, r).value.value.blocking) <==>
            !SharedKey(l, r) && Reported(l, r)
  {
  }

  predicate HardInterval(r: Rule, f: Field) {
    r.kind.HARD? && r.field == f && OnTheLine(r)
  }

  /** The hard interval rules of a field, in order. */
  function HardOnLine(rules: seq<Rule>, f: Field): seq<Rule> {
    if rules == [] then []
    else (if HardInterval(rules[0], f) then [rules[0]] else []) + HardOnLine(rules[1..], f)
  }

  lemma {:induction false} HardOnLineMember(rules: seq<Rule>, f: Field, r: Rule)
    ensures r in HardOnLine(rules, f) <==> r in rules && HardInterval(r, f)
  {
    if rules != [] {
      HardOnLineMember(rules[1..], f, r);
    }
  }

  lemma CompatibleCons(r: Rule, rest: seq<Rule>)
    requires PairwiseCompatible(rest) && OnTheLine(r) && forall q <- rest :: Compatible(r, q)
    ensures PairwiseCompatible([r] + rest)
  {
    var all := [r] + rest;
    forall i, j | 0 <= i < j < |all| ensures Compatible(all[i], all[j]) {
      assert all[j] == rest[j - 1] && all[j] in all;
    }
  }

  lemma {:induction false} HardOnLineCompatible(rules: seq<Rule>, f: Field)
    requires forall i, j :: 0 <= i < j < |rules| && HardInterval(rules[i], f) && HardInterval(rules[j], f) ==>
               Compatible(rules[i], rules[j])
    ensures PairwiseCompatible(HardOnLine(rules, f))
  {
    if rules != [] {
      var rest := HardOnLine(rules[1..], f);
      HardOnLineCompatible(rules[1..], f);
      forall q <- rest | HardInterval(rules[0], f) ensures Compatible(rules[0], q) {
        HardOnLineMember(rules[1..], f, q);
        var k :| 0 <= k < |rules[1..]| && rules[1..][k] == q;
        assert rules[k + 1] == q;
      }
      if HardInterval(rules[0], f) {
        CompatibleCons(rules[0], rest);
      } else {
        assert HardOnLine(rules, f) == rest;
      }
    }
  }

  /** One real value meets every hard interval rule of the field at once. */
  ghost predicate Satisfiable(rules: seq<Rule>, f: Field) {
    exists x :: MeetsAll(x, rules, f)
  }

  ghost predicate MeetsAll(x: real, rules: seq<Rule>, f: Field) {
    forall i :: 0 <= i < |rules| && HardInterval(rules[i], f) ==> Meets(x, rules[i])
  }

  /** Checking pairs is enough for the hard interval rules of a field. */
  lemma PairsSuffice(rules: seq<Rule>, f: Field)
    requires forall i, j :: 0 <= i < j < |rules| && HardInterval(rules[i], f) && HardInterval(rules[j], f) ==>
               Compatible(rules[i], rules[j])
    ensures Satisfiable(rules, f)
  {
    HardOnLineCompatible(rules, f);
    var x := PairwiseIsEnough(HardOnLine(rules, f));
    forall i | 0 <= i < |rules| && HardInterval(rules[i], f) ensures Meets(x, rules[i]) {
      HardOnLineMember(rules, f, rules[i]);
    }
    assert MeetsAll(x, rules, f);
  }

  /** The pairs a shared source key exempts from comparison happen to be compatible. */
  ghost predicate SharedKeysCompatible(rules: seq<Rule>, f: Field) {
    forall i, j :: 0 <= i < j < |rules| && HardInterval(rules[i], f) && HardInterval(rules[j], f) ==>
      (SharedKey(rules[i], rules[j]) ==> Compatible(rules[i], rules[j]))
  }

  /** No blocking conflict reported, although only pairs were looked at: on each field one real value meets all hard
      interval rules exactly when the pairs exempted by a shared source key are compatible. */
  lemma IntervalsSatisfiableIff(parse: Parser, rules: seq<Rule>, f: Field)
    requires Detected(parse, rules).Success? && NoBlocking(Detected(parse, rules).value)
    ensures Satisfiable(rules, f) <==> SharedKeysCompatible(rules, f)
  {
    if SharedKeysCompatible(rules, f) {
      forall i, j | 0 <= i < j < |rules| && HardInterval(rules[i], f) && HardInterval(rules[j], f)
        ensures Compatible(rules[i], rules[j])
      {
        if !SharedKey(rules[i], rules[j]) {
          HardPairAgrees(parse, rules, i, j);
          ReportedIff(rules[i], rules[j]);
        }
      }
      PairsSuffice(rules, f);
    }
    if Satisfiable(rules, f) {
      var x :| MeetsAll(x, rules, f);
      forall i, j | 0 <= i < j < |rules| && HardInterval(rules[i], f) && HardInterval(rules[j], f)
        ensures Compatible(rules[i], rules[j])
      {
        assert Meets(x, rules[i]) && Meets(x, rules[j]);
      }
    }
  }

  /** With a shared source key the promise fails: the pair is filed as a duplicate and not compared. */
  lemma SharedKeyHidesContradiction(parse: Parser)
    ensures var above := Rule.Rule(1, Named(0), GT, Int(5), USER_REQUIREMENT, HARD, None, Some(7), ACTIVE, INCLUDED);
            var below := Rule.Rule(2, Named(0), LT, Int(3), USER_REQUIREMENT, HARD, None, Some(7), ACTIVE, INCLUDED);
            Detected(parse, [above, below]).Success? && NoBlocking(Detected(parse, [above, below]).value)
            && forall x :: !(Meets(x, above) && Meets(x, below))
  {
    var above := Rule.Rule(1, Named(0), GT, Int(5), USER_REQUIREMENT, HARD, None, Some(7), ACTIVE, INCLUDED);
    var below := Rule.Rule(2, Named(0), LT, Int(3), USER_REQUIREMENT, HARD, None, Some(7), ACTIVE, INCLUDED);
    var pairs := Combinations([above, below]);
    assert [above, below][1..] == [below] && Combinations([below][1..]) == [] && Combinations([below]) == [];
    assert pairs == [(above, below)];
    assert pairs[..0] == [];
    assert PairConflicts(parse, pairs[..0]) == Success([]);
    forall x ensures !(Meets(x, above) && Meets(x, below)) {
      MeetsIff(x, above);
      MeetsIff(x, below);
    }
  }

  // ---------------------------------------------------------------------------------------------
  // The validator's pairwise check

  /** next(item for item in (left, right) if ...). */
  function FirstWith(l: Constraint, r: Constraint, upper: bool): Option<Constraint> {
    if (if upper then IsUpper(l.operator) else IsLower(l.operator)) then Some(l)
    else if (if upper then IsUpper(r.operator) else IsLower(r.operator)) then Some(r)
    else None
  }

  predicate Incompatible(l: Constraint, r: Constraint) {
    if l.field != r.field then false
    else if l.operator == r.operator == EQ then !Equal(l.value, r.value)
    else if (l.operator.IN? && r.operator.NOT_IN?) || (l.operator.NOT_IN? && r.operator.IN?) then Equal(l.value, r.value)
    else
      var lower, upper := FirstWith(l, r, false), FirstWith(l, r, true);
      lower.Some? && upper.Some? && IsNumber(lower.value.value) && IsNumber(upper.value.value)
      && (AsReal(lower.value.value) > AsReal(upper.value.value)
          || (AsReal(lower.value.value) == AsReal(upper.value.value)
              && (lower.value.operator.GT? || upper.value.operator.LT?)))
  }

  /** The rule a compiled constraint takes its operator and value from. */
  lemma WinnerOf(rules: seq<Rule>, p: Pick) returns (r: Rule)
    requires Select(rules, p) != []
    ensures r in rules && Picks(p, r)
    ensures var c := ConstraintOf(rules, p); c.field == r.field && c.operator == r.operator && c.value == r.value
  {
    var group := Select(rules, p);
    SelectNumeric(rules, p);
    match p {
      case Lowers(_) => r := Tightest(group, false);
      case Uppers(_) => r := Tightest(group, true);
      case Exactly(_, _, _) => r := group[0];
    }
    SelectMember(rules, p, r);
  }

  /** Agreement of the winners is compatibility of the constraints. */
  lemma AgreeMeansCompatible(l: Rule, r: Rule, c: Constraint, d: Constraint)
    requires Agree(l, r) && l.field == r.field
    requires c.field == l.field && c.operator == l.operator && c.value == l.value
    requires d.field == r.field && d.operator == r.operator && d.value == r.value
    ensures !Incompatible(c, d)
  {
  }

  lemma HardActiveMember(rules: seq<Rule>, r: Rule)
    ensures r in HardActive(rules) <==> r in rules && r.kind.HARD? && r.status.ACTIVE?
  {
  }

  lemma IncompatibleSymmetric(c: Constraint, d: Constraint)
    ensures Incompatible(c, d) == Incompatible(d, c)
  {
    EqualIsSymmetric(c.value, d.value);
  }

  /** A bound on the rule's side, at least as tight. */
  predicate AsTight(c: Constraint, r: Rule)
    requires IsNumber(r.value)
  {
    IsNumber(c.value)
    && var x, b := AsReal(c.value), AsReal(r.value);
       if IsLower(r.operator) then IsLower(c.operator) && (x > b || (x == b && (r.operator.GT? ==> c.operator.GT?)))
       else IsUpper(c.operator) && (x < b || (x == b && (r.operator.LT? ==> c.operator.LT?)))
  }

  predicate StandsFor(c: Constraint, r: Rule) {
    c.field == r.field && if Numeric(r) then AsTight(c, r) else c.operator == r.operator && c.value == r.value
  }

  /** The winner of a rule's group bounds at least as tightly as the rule. */
  lemma WinnerBounds(rules: seq<Rule>, r: Rule)
    requires r in rules
    ensures Select(rules, PickOf(r)) != [] && StandsFor(ConstraintOf(rules, PickOf(r)), r)
  {
    var p := PickOf(r);
    SelectMember(rules, p, r);
    SelectNumeric(rules, p);
    var w := WinnerOf(rules, p);
    var group := Select(rules, p);
    if !p.Exactly? {
      TightestWins(group, p.Uppers?);
      var t := Tightest(group, p.Uppers?);
      SelectMember(rules, p, t);
    }
  }

  lemma StandingIncompatible(l: Rule, r: Rule, c: Constraint, d: Constraint)
    requires Incompatible(Raw(l), Raw(r)) && StandsFor(c, l) && StandsFor(d, r)
    ensures Incompatible(c, d)
  {
    hide Equal;
  }

  lemma OnePickCompatible(l: Rule, r: Rule)
    requires PickOf(l) == PickOf(r)
    ensures !Incompatible(Raw(l), Raw(r))
  {
    EqualIsReflexive(l.value);
  }

  /** Two incompatible rules have incompatible winners, in different groups. */
  lemma WinnersIncompatible(rules: seq<Rule>, l: Rule, r: Rule)
    requires l in rules && r in rules && Incompatible(Raw(l), Raw(r))
    ensures PickOf(l) != PickOf(r) && Select(rules, PickOf(l)) != [] && Select(rules, PickOf(r)) != []
    ensures Incompatible(ConstraintOf(rules, PickOf(l)), ConstraintOf(rules, PickOf(r)))
  {
    hide *;
    WinnerBounds(rules, l);
    WinnerBounds(rules, r);
    StandingIncompatible(l, r, ConstraintOf(rules, PickOf(l)), ConstraintOf(rules, PickOf(r)));
    if PickOf(l) == PickOf(r) {
      OnePickCompatible(l, r);
    }
  }

  /** Pairs a shared source key exempts from comparison pass the validator's check as they stand. */
  ghost predicate ExemptPairsPass(rules: seq<Rule>) {
    forall l <- rules, r <- rules :: SharedKey(l, r) ==> !Incompatible(Raw(l), Raw(r))
  }

  ghost predicate PassesPairwise(compiled: seq<Constraint>) {
    forall i, j :: 0 <= i < j < |compiled| ==> !Incompatible(compiled[i], compiled[j])
  }

  lemma WinnersPass(parse: Parser, rules: seq<Rule>, p: Pick, q: Pick)
    requires Detected(parse, rules).Success? && NoBlocking(Detected(parse, rules).value) && ExemptPairsPass(HardActive(rules))
    requires p != q && Select(HardActive(rules), p) != [] && Select(HardActive(rules), q) != []
    ensures !Incompatible(ConstraintOf(HardActive(rules), p), ConstraintOf(HardActive(rules), q))
  {
    var l := WinnerOf(HardActive(rules), p);
    var r := WinnerOf(HardActive(rules), q);
    HardActiveMember(rules, l);
    HardActiveMember(rules, r);
    hide ConstraintOf, Select, HardActive, Incompatible;
    if l.field == r.field && !SharedKey(l, r) {
      var a :| 0 <= a < |rules| && rules[a] == l;
      var b :| 0 <= b < |rules| && rules[b] == r;
      DifferentPicks(p, q, l);
      HardPairAgrees(parse, rules, a, b);
      AgreeMeansCompatible(l, r, ConstraintOf(HardActive(rules), p), ConstraintOf(HardActive(rules), q));
    } else {
      SameIncompatible(Raw(l), Raw(r), ConstraintOf(HardActive(rules), p), ConstraintOf(HardActive(rules), q));
      DifferentFields(Raw(l), Raw(r));
    }
  }

  lemma DifferentFields(c: Constraint, d: Constraint)
    ensures c.field != d.field ==> !Incompatible(c, d)
  {
  }

  /** The check looks at field, operator and value alone. */
  lemma SameIncompatible(c: Constraint, d: Constraint, c': Constraint, d': Constraint)
    requires c.field == c'.field && c.operator == c'.operator && c.value == c'.value
    requires d.field == d'.field && d.operator == d'.operator && d.value == d'.value
    ensures Incompatible(c, d) == Incompatible(c', d')
  {
  }

  /** Criteria compiled from rules without a blocking report pass the validator's pairwise check exactly when the pairs
      exempted by a shared source key would. */
  lemma CompiledPassesValidationIff(parse: Parser, rules: seq<Rule>, picks: seq<Pick>, compiled: seq<Constraint>)
    requires Detected(parse, rules).Success? && NoBlocking(Detected(parse, rules).value)
    requires CompiledBy(HardActive(rules), picks, compiled)
    ensures PassesPairwise(compiled) <==> ExemptPairsPass(HardActive(rules))
  {
    hide Incompatible, ConstraintOf, Select, HardActive, Detected, Equal;
    var hard := HardActive(rules);
    if ExemptPairsPass(hard) {
      forall i, j | 0 <= i < j < |compiled| ensures !Incompatible(compiled[i], compiled[j]) {
        assert picks[i] != picks[j];
        WinnersPass(parse, rules, picks[i], picks[j]);
      }
    }
    if PassesPairwise(compiled) {
      forall l <- hard, r <- hard | SharedKey(l, r) ensures !Incompatible(Raw(l), Raw(r)) {
        var i :| 0 <= i < |picks| && picks[i] == PickOf(l);
        var j :| 0 <= j < |picks| && picks[j] == PickOf(r);
        IncompatibleSymmetric(compiled[i], compiled[j]);
        if Incompatible(Raw(l), Raw(r)) {
          WinnersIncompatible(hard, l, r);
        }
      }
    }
  }

  lemma DifferentPicks(p: Pick, q: Pick, r: Rule)
    requires p != q && Picks(p, r)
    ensures !Picks(q, r)
  {
  }

  // ---------------------------------------------------------------------------------------------
  // What the validator refuses

  /** The pairs the validator refuses, kind by kind: two different values demanded, the same values included and
      excluded, a numeric lower bound and a numeric upper one that no number meets. */
  lemma IncompatibleIff(l: Constraint, r: Constraint)
    requires l.field == r.field
    ensures l.operator == r.operator == EQ ==> (Incompatible(l, r) <==> !Equal(l.value, r.value))
    ensures (l.operator.IN? && r.operator.NOT_IN?) || (l.operator.NOT_IN? && r.operator.IN?) ==>
              (Incompatible(l, r) <==> Equal(l.value, r.value))
    ensures IsLower(l.operator) && IsUpper(r.operator) && IsNumber(l.value) && IsNumber(r.value) ==>
              (Incompatible(l, r) <==> !exists x: real :: Between(x, l, r))
  {
    if IsLower(l.operator) && IsUpper(r.operator) && IsNumber(l.value) && IsNumber(r.value) {
      var x, y := AsReal(l.value), AsReal(r.value);
      assert !Incompatible(l, r) ==> Between(x, l, r) || Between((x + y) / 2.0, l, r);
    }
  }

  /** The evaluator accepts the number under both constraints. */
  predicate Between(x: real, l: Constraint, r: Constraint) {
    Matches(Float(x), l.operator, l.value) == Some(true) && Matches(Float(x), r.operator, r.value) == Some(true)
  }

  /** The validator refuses no pair that an enterprise with a number in the field could meet: on such values, what it
      refuses cannot be met together. */
  lemma IncompatibleCannotBothPass(e: Enterprise, l: Constraint, r: Constraint)
    requires Incompatible(l, r) && IsNumber(FieldValue(e, l.field))
    ensures !(Judge(e, l) == Passes && Judge(e, r) == Passes)
  {
    var v := FieldValue(e, l.field);
    if l.operator == r.operator == EQ {
      EqualitiesContradict(e, l.field, l.value, r.value);
    } else if l.operator.IN? && r.operator.NOT_IN? {
      IncludeExcludeContradict(e, l.field, l.value, r.value);
    } else if l.operator.NOT_IN? && r.operator.IN? {
      EqualIsSymmetric(l.value, r.value);
      IncludeExcludeContradict(e, l.field, r.value, l.value);
    }
  }
}
