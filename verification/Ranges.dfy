/** Hard range rules over every kind of value: what the pairwise range check promises beyond numbers. */
module Ranges {
  import opened Basics
  import opened Values
  import opened Rules
  import opened Evaluator
  import opened Satisfiability

  predicate HardRange(r: Rule, f: Field) {
    r.kind.HARD? && r.field == f && IsRange(r.operator)
  }

  /** The evaluator lets the value pass under the rule; an unknown value never passes. */
  predicate Satisfies(v: Value, r: Rule) {
    !v.Null? && Matches(v, r.operator, r.value) == Some(true)
  }

  ghost predicate Alone(r: Rule) {
    exists v :: Satisfies(v, r)
  }

  ghost predicate Together(l: Rule, r: Rule) {
    exists v :: Satisfies(v, l) && Satisfies(v, r)
  }

  ghost predicate SatisfiesAll(v: Value, rules: seq<Rule>, f: Field) {
    forall i :: 0 <= i < |rules| && HardRange(rules[i], f) ==> Satisfies(v, rules[i])
  }

  /** One value passes every hard range rule of the field. */
  ghost predicate AllTogether(rules: seq<Rule>, f: Field) {
    exists v: Value :: SatisfiesAll(v, rules, f)
  }

  /** The pairs the check truly compares: under different source keys, two numbers or two equalities. */
  predicate Compared(l: Rule, r: Rule) {
    !SharedKey(l, r) && ((IsNumber(l.value) && IsNumber(r.value)) || (l.operator.EQ? && r.operator.EQ?))
  }

  /** Every rule can be met, and every pair the check does not compare can be met together. */
  ghost predicate UncomparedAgree(rules: seq<Rule>, f: Field) {
    && (forall i :: 0 <= i < |rules| && HardRange(rules[i], f) ==> Alone(rules[i]))
    && (forall i, j :: 0 <= i < j < |rules| && HardRange(rules[i], f) && HardRange(rules[j], f) && !Compared(rules[i], rules[j]) ==>
          Together(rules[i], rules[j]))
  }

  /** A bound that is a list: float() refuses it, so the check only gets past it between duplicates. */
  predicate ListBound(r: Rule) {
    !r.operator.EQ? && r.value.List?
  }

  ghost predicate SatisfiesGroup(v: Value, rules: seq<Rule>, f: Field, i: nat)
    requires i < |rules|
  {
    forall j :: 0 <= j < |rules| && HardRange(rules[j], f) && (j == i || SharedKey(rules[i], rules[j])) ==>
      Satisfies(v, rules[j])
  }

  /** A list bound and all rules that share its source key can be met together. */
  ghost predicate ListGroupsAgree(rules: seq<Rule>, f: Field) {
    forall i :: 0 <= i < |rules| && HardRange(rules[i], f) && ListBound(rules[i]) ==>
      exists v: Value :: SatisfiesGroup(v, rules, f, i)
  }

  // ---------------------------------------------------------------------------------------------
  // Values that are equal, or numbers, meet the same rules

  lemma EqualSatisfies(v: Value, w: Value, r: Rule)
    requires Equal(v, w) && IsRange(r.operator)
    ensures Satisfies(v, r) == Satisfies(w, r)
  {
    EqualIsCongruent(v, w, r.value);
    EqualIsSymmetric(r.value, v);
    EqualIsSymmetric(r.value, w);
  }

  /** Two bounds of one kind with equal values are met by the same values. */
  lemma EqualRules(v: Value, l: Rule, r: Rule)
    requires l.operator == r.operator && IsRange(l.operator) && Equal(l.value, r.value)
    ensures Satisfies(v, l) == Satisfies(v, r)
  {
    EqualIsCongruent(l.value, r.value, v);
    EqualIsSymmetric(l.value, v);
    EqualIsSymmetric(r.value, v);
  }

  lemma MeetsSatisfies(x: real, r: Rule)
    ensures Meets(x, r) <==> Satisfies(Float(x), r)
  {
  }

  /** What a number compares with is a number; what a text compares with is a text. */
  lemma SatisfiesKind(v: Value, r: Rule)
    requires IsRange(r.operator) && Satisfies(v, r)
    ensures !r.value.Null?
    ensures IsNumber(r.value) <==> IsNumber(v)
    ensures r.value.Text? <==> v.Text?
    ensures r.value.List? <==> v.List?
  {
  }

  // ---------------------------------------------------------------------------------------------
  // Pairs

  lemma ComparedTogether(parse: Parser, rules: seq<Rule>, f: Field, i: nat, j: nat)
    requires Detected(parse, rules).Success? && NoBlocking(Detected(parse, rules).value)
    requires i < |rules| && j < |rules| && i != j && HardRange(rules[i], f) && HardRange(rules[j], f)
    requires Compared(rules[i], rules[j]) && Alone(rules[i])
    ensures Together(rules[i], rules[j])
  {
    var l, r := rules[i], rules[j];
    HardPairAgrees(parse, rules, i, j);
    if IsNumber(l.value) && IsNumber(r.value) {
      ReportedIff(l, r);
      var x :| Meets(x, l) && Meets(x, r);
      MeetsSatisfies(x, l);
      MeetsSatisfies(x, r);
      assert Satisfies(Float(x), l) && Satisfies(Float(x), r);
    } else {
      var v :| Satisfies(v, l);
      EqualRules(v, l, r);
    }
  }

  lemma PairTogether(parse: Parser, rules: seq<Rule>, f: Field, i: nat, j: nat)
    requires Detected(parse, rules).Success? && NoBlocking(Detected(parse, rules).value) && UncomparedAgree(rules, f)
    requires i < |rules| && j < |rules| && HardRange(rules[i], f) && HardRange(rules[j], f)
    ensures Together(rules[i], rules[j])
  {
    hide Satisfies;
    if i == j {
      var v :| Satisfies(v, rules[i]);
    } else if Compared(rules[i], rules[j]) {
      ComparedTogether(parse, rules, f, i, j);
    } else {
      var a, b := if i < j then i else j, if i < j then j else i;
      assert !Compared(rules[a], rules[b]);
      assert Together(rules[a], rules[b]);
    }
  }

  /** With an equality among them, its value is the only candidate, and it passes. */
  lemma EqualityDecides(parse: Parser, rules: seq<Rule>, f: Field, k: nat)
    requires Detected(parse, rules).Success? && NoBlocking(Detected(parse, rules).value) && UncomparedAgree(rules, f)
    requires k < |rules| && HardRange(rules[k], f) && rules[k].operator.EQ?
    ensures SatisfiesAll(rules[k].value, rules, f)
  {
    forall j | 0 <= j < |rules| && HardRange(rules[j], f) ensures Satisfies(rules[k].value, rules[j]) {
      PairTogether(parse, rules, f, k, j);
      var v :| Satisfies(v, rules[k]) && Satisfies(v, rules[j]);
      EqualSatisfies(v, rules[k].value, rules[j]);
    }
  }

  // ---------------------------------------------------------------------------------------------
  // A list bound passes the check only between duplicates

  lemma ListBoundDuplicates(parse: Parser, rules: seq<Rule>, f: Field, i: nat, j: nat)
    requires Detected(parse, rules).Success? && i < |rules| && j < |rules| && i != j
    requires HardRange(rules[i], f) && HardRange(rules[j], f) && ListBound(rules[i])
    ensures SharedKey(rules[i], rules[j])
            || (rules[i].operator == rules[j].operator && Equal(rules[i].value, rules[j].value))
  {
    var a, b := if i < j then i else j, if i < j then j else i;
    DetectedExact(parse, rules);
    assert PairConflict(parse, rules[a], rules[b]).Success?;
    EqualIsSymmetric(rules[i].value, rules[j].value);
  }

  lemma ListGroupDecides(parse: Parser, rules: seq<Rule>, f: Field, i: nat, v: Value)
    requires Detected(parse, rules).Success? && i < |rules| && HardRange(rules[i], f) && ListBound(rules[i])
    requires SatisfiesGroup(v, rules, f, i)
    ensures SatisfiesAll(v, rules, f)
  {
    forall j | 0 <= j < |rules| && HardRange(rules[j], f) ensures Satisfies(v, rules[j]) {
      if j != i && !SharedKey(rules[i], rules[j]) {
        ListBoundDuplicates(parse, rules, f, i, j);
        EqualRules(v, rules[i], rules[j]);
      }
    }
  }

  // ---------------------------------------------------------------------------------------------
  // Bounds that are texts

  predicate TextBound(r: Rule, f: Field) {
    HardRange(r, f) && !r.operator.EQ? && r.value.Text?
  }

  predicate OnSide(r: Rule, upper: bool) {
    if upper then IsUpper(r.operator) else IsLower(r.operator)
  }

  /** r implies nothing l does not: on one side, l is at least as tight. */
  predicate TextTighter(l: Rule, r: Rule, upper: bool)
    requires l.value.Text? && r.value.Text?
  {
    var s, t := l.value.s, r.value.s;
    if upper then TextLess(s, t) || (s == t && (r.operator.LT? ==> l.operator.LT?))
    else TextLess(t, s) || (s == t && (r.operator.GT? ==> l.operator.GT?))
  }

  lemma TighterTransitive(a: Rule, b: Rule, c: Rule, upper: bool)
    requires a.value.Text? && b.value.Text? && c.value.Text?
    requires TextTighter(a, b, upper) && TextTighter(b, c, upper)
    ensures TextTighter(a, c, upper)
  {
    var s, t, u := a.value.s, b.value.s, c.value.s;
    if upper && TextLess(s, t) && TextLess(t, u) {
      TextLessTransitive(s, t, u);
    }
    if !upper && TextLess(t, s) && TextLess(u, t) {
      TextLessTransitive(u, t, s);
    }
  }

  lemma TighterTotal(a: Rule, b: Rule, upper: bool)
    requires a.value.Text? && b.value.Text?
    ensures TextTighter(a, b, upper) || TextTighter(b, a, upper)
  {
    TextLessTotal(a.value.s, b.value.s);
  }

  /** Whatever passes the tighter bound passes the other. */
  lemma TighterDecides(v: Value, l: Rule, r: Rule, upper: bool)
    requires l.value.Text? && r.value.Text? && OnSide(l, upper) && OnSide(r, upper)
    requires TextTighter(l, r, upper) && Satisfies(v, l)
    ensures Satisfies(v, r)
  {
    var s, t, w := l.value.s, r.value.s, v.s;
    if upper && TextLess(w, s) && TextLess(s, t) {
      TextLessTransitive(w, s, t);
    }
    if !upper && TextLess(s, w) && TextLess(t, s) {
      TextLessTransitive(t, s, w);
    }
  }

  ghost predicate AnyOnSide(rules: seq<Rule>, f: Field, upper: bool) {
    exists i :: 0 <= i < |rules| && HardRange(rules[i], f) && OnSide(rules[i], upper)
  }

  ghost predicate TextsOnly(rules: seq<Rule>, f: Field) {
    forall i :: 0 <= i < |rules| && HardRange(rules[i], f) ==> TextBound(rules[i], f)
  }

  /** The tightest text bound on a side. */
  lemma {:induction false} TightestText(rules: seq<Rule>, f: Field, upper: bool) returns (k: nat)
    requires TextsOnly(rules, f) && AnyOnSide(rules, f, upper)
    ensures k < |rules| && HardRange(rules[k], f) && OnSide(rules[k], upper)
    ensures forall i :: 0 <= i < |rules| && HardRange(rules[i], f) && OnSide(rules[i], upper) ==>
              TextTighter(rules[k], rules[i], upper)
  {
    hide TextTighter;
    var n := |rules| - 1;
    assert forall i :: 0 <= i < n ==> rules[..n][i] == rules[i];
    if AnyOnSide(rules[..n], f, upper) {
      k := TightestText(rules[..n], f, upper);
      if HardRange(rules[n], f) && OnSide(rules[n], upper) {
        TighterTotal(rules[n], rules[k], upper);
        TighterTotal(rules[n], rules[n], upper);
        if !TextTighter(rules[k], rules[n], upper) {
          forall i | 0 <= i < n && HardRange(rules[i], f) && OnSide(rules[i], upper)
            ensures TextTighter(rules[n], rules[i], upper)
          {
            assert rules[..n][i] == rules[i];
            TighterTransitive(rules[n], rules[k], rules[i], upper);
          }
          k := n;
        } else {
          forall i | 0 <= i < n && HardRange(rules[i], f) && OnSide(rules[i], upper)
            ensures TextTighter(rules[k], rules[i], upper)
          {
            assert rules[..n][i] == rules[i];
          }
        }
      }
    } else {
      k :| 0 <= k < |rules| && HardRange(rules[k], f) && OnSide(rules[k], upper);
      TighterTotal(rules[n], rules[n], upper);
    }
  }

  /** What passes the tightest bound of each side passes all of them. */
  lemma TextsTogether(rules: seq<Rule>, f: Field)
    requires TextsOnly(rules, f)
    requires forall i, j :: 0 <= i < |rules| && 0 <= j < |rules| && HardRange(rules[i], f) && HardRange(rules[j], f) ==>
               Together(rules[i], rules[j])
    ensures AllTogether(rules, f)
  {
    hide Satisfies, TextTighter;
    var low, high := AnyOnSide(rules, f, false), AnyOnSide(rules, f, true);
    var a, b: nat := 0, 0;
    if low {
      a := TightestText(rules, f, false);
    }
    if high {
      b := TightestText(rules, f, true);
    }
    if !low && !high {
      assert SatisfiesAll(Null, rules, f);
    } else {
      var i, j := if low then a else b, if high then b else a;
      assert Together(rules[i], rules[j]);
      var v :| Satisfies(v, rules[i]) && Satisfies(v, rules[j]);
      forall k | 0 <= k < |rules| && HardRange(rules[k], f) ensures Satisfies(v, rules[k]) {
        var upper := IsUpper(rules[k].operator);
        assert OnSide(rules[k], upper);
        TighterDecides(v, if upper then rules[b] else rules[a], rules[k], upper);
      }
      assert SatisfiesAll(v, rules, f);
    }
  }

  // ---------------------------------------------------------------------------------------------
  // The promise

  /** Bounds that are numbers or texts: either all are one kind, or some pair is not compared and cannot be met. */
  lemma BoundsTogether(parse: Parser, rules: seq<Rule>, f: Field)
    requires Detected(parse, rules).Success? && NoBlocking(Detected(parse, rules).value) && UncomparedAgree(rules, f)
    requires forall i :: 0 <= i < |rules| && HardRange(rules[i], f) ==> !rules[i].operator.EQ? && !rules[i].value.List?
    ensures AllTogether(rules, f)
  {
    forall i, j | 0 <= i < |rules| && 0 <= j < |rules| && HardRange(rules[i], f) && HardRange(rules[j], f)
      ensures Together(rules[i], rules[j])
      ensures (IsNumber(rules[i].value) && IsNumber(rules[j].value)) || (rules[i].value.Text? && rules[j].value.Text?)
    {
      PairTogether(parse, rules, f, i, j);
      var v :| Satisfies(v, rules[i]) && Satisfies(v, rules[j]);
      SatisfiesKind(v, rules[i]);
      SatisfiesKind(v, rules[j]);
    }
    hide Satisfies;
    if k :| 0 <= k < |rules| && HardRange(rules[k], f) && IsNumber(rules[k].value) {
      NumbersTogether(rules, f);
    } else {
      TextsTogether(rules, f);
    }
  }

  lemma NumbersTogether(rules: seq<Rule>, f: Field)
    requires forall i :: 0 <= i < |rules| && HardRange(rules[i], f) ==> HardInterval(rules[i], f)
    requires forall i, j :: 0 <= i < |rules| && 0 <= j < |rules| && HardRange(rules[i], f) && HardRange(rules[j], f) ==>
               Together(rules[i], rules[j])
    ensures AllTogether(rules, f)
  {
    forall i, j | 0 <= i < j < |rules| && HardInterval(rules[i], f) && HardInterval(rules[j], f)
      ensures Compatible(rules[i], rules[j])
    {
      var v :| Satisfies(v, rules[i]) && Satisfies(v, rules[j]);
      SatisfiesKind(v, rules[i]);
      var x := AsReal(v);
      EqualSatisfies(v, Float(x), rules[i]);
      EqualSatisfies(v, Float(x), rules[j]);
      MeetsSatisfies(x, rules[i]);
      MeetsSatisfies(x, rules[j]);
    }
    PairsSuffice(rules, f);
    var x :| MeetsAll(x, rules, f);
    forall i | 0 <= i < |rules| && HardRange(rules[i], f) ensures Satisfies(Float(x), rules[i]) {
      MeetsSatisfies(x, rules[i]);
    }
    assert SatisfiesAll(Float(x), rules, f);
  }

  /** No blocking conflict reported, over all kinds of values: one value passes every hard range rule of a field exactly
      when each rule can be met, each pair the check does not truly compare can be met, and so can each group that a
      list bound shares a source key with. */
  lemma NoReportMeansSatisfiable(parse: Parser, rules: seq<Rule>, f: Field)
    requires Detected(parse, rules).Success? && NoBlocking(Detected(parse, rules).value)
    ensures AllTogether(rules, f) <==> UncomparedAgree(rules, f) && ListGroupsAgree(rules, f)
  {
    hide Satisfies;
    if AllTogether(rules, f) {
      var v: Value :| SatisfiesAll(v, rules, f);
      forall i | 0 <= i < |rules| && HardRange(rules[i], f) ensures SatisfiesGroup(v, rules, f, i) && Alone(rules[i]) {
        assert Satisfies(v, rules[i]);
      }
      forall i, j | 0 <= i < |rules| && 0 <= j < |rules| && HardRange(rules[i], f) && HardRange(rules[j], f)
        ensures Together(rules[i], rules[j])
      {
        assert Satisfies(v, rules[i]) && Satisfies(v, rules[j]);
      }
    }
    if UncomparedAgree(rules, f) && ListGroupsAgree(rules, f) {
      if i :| 0 <= i < |rules| && HardRange(rules[i], f) && ListBound(rules[i]) {
        var v: Value :| SatisfiesGroup(v, rules, f, i);
        ListGroupDecides(parse, rules, f, i, v);
      } else if k :| 0 <= k < |rules| && HardRange(rules[k], f) && rules[k].operator.EQ? {
        EqualityDecides(parse, rules, f, k);
      } else {
        BoundsTogether(parse, rules, f);
      }
    }
  }

  /** No two hard rules of a field come from one source key. */
  ghost predicate OwnSourceKeys(rules: seq<Rule>) {
    forall i, j :: 0 <= i < j < |rules| && BothHard(rules[i], rules[j]) && rules[i].field == rules[j].field ==>
      !SharedKey(rules[i], rules[j])
  }

  /** In particular: with distinct source keys and numbers as values, no blocking report means satisfiable. */
  lemma NoReportUnderOwnKeys(parse: Parser, rules: seq<Rule>, f: Field)
    requires Detected(parse, rules).Success? && NoBlocking(Detected(parse, rules).value) && OwnSourceKeys(rules)
    requires forall i :: 0 <= i < |rules| && HardRange(rules[i], f) ==> IsNumber(rules[i].value)
    ensures AllTogether(rules, f)
  {
    forall i | 0 <= i < |rules| && HardRange(rules[i], f) ensures Alone(rules[i]) {
      var x := CommonValue(rules[i], rules[i]);
      MeetsIff(x, rules[i]);
      MeetsSatisfies(x, rules[i]);
    }
    NoReportMeansSatisfiable(parse, rules, f);
  }

  // ---------------------------------------------------------------------------------------------
  // Inputs that slip through

  /** Two rules make one pair. */
  lemma TwoRules(parse: Parser, l: Rule, r: Rule)
    requires PairConflict(parse, l, r).Success?
    ensures var c := PairConflict(parse, l, r).value;
            Detected(parse, [l, r]) == Success(if c.Some? then [c.value] else [])
  {
    hide PairConflict;
    assert [l, r][1..] == [r] && Combinations([r][1..]) == [] && Combinations([r]) == [];
    assert Combinations([l, r]) == [(l, r)];
    var pairs, c := [(l, r)], PairConflict(parse, l, r).value;
    var found := if c.Some? then [c.value] else [];
    assert pairs[0] == (l, r) && pairs[..0] == [] && PairConflicts(parse, pairs[..0]) == Success([]);
    assert PairConflicts(parse, pairs) == Success([] + found) && [] + found == found;
  }

  function HardRule(id: Id, op: Operator, v: Value, key: Option<Id>): Rule {
    Rule.Rule(id, Named(0), op, v, USER_REQUIREMENT, HARD, None, key, ACTIVE, INCLUDED)
  }

  /** Reported without a blocking conflict, and met by no value. */
  ghost predicate Unseen(parse: Parser, l: Rule, r: Rule) {
    && Detected(parse, [l, r]).Success? && NoBlocking(Detected(parse, [l, r]).value)
    && !Together(l, r)
  }

  ghost predicate NotBlocked(parse: Parser, l: Rule, r: Rule) {
    PairConflict(parse, l, r).Success?
    && (PairConflict(parse, l, r).value.Some? ==> !PairConflict(parse, l, r).value.value.blocking)
  }

  /** Equality with a text against a number; texts that spell numbers in order but sort the other way; a number against
      a text that spells one: none of these pairs can be met, and none is reported as blocking. */
  lemma TextBoundsGoUnseen(parse: Parser)
    requires parse("9") == Some(9.0) && parse("10") == Some(10.0)
    ensures Unseen(parse, HardRule(1, EQ, Text("a"), None), HardRule(2, GT, Int(5), None))
    ensures Unseen(parse, HardRule(1, GT, Text("9"), None), HardRule(2, LT, Text("10"), None))
    ensures Unseen(parse, HardRule(1, GT, Int(3), None), HardRule(2, LT, Text("9"), None))
  {
    var a, b := HardRule(1, EQ, Text("a"), None), HardRule(2, GT, Int(5), None);
    assert NotBlocked(parse, a, b);
    KindsGoUnseen(parse, a, b);
    var c, d := HardRule(1, GT, Text("9"), None), HardRule(2, LT, Text("10"), None);
    assert NotBlocked(parse, c, d);
    TextsGoUnseen(parse, c, d);
    var e, g := HardRule(1, GT, Int(3), None), HardRule(2, LT, Text("9"), None);
    assert NotBlocked(parse, e, g);
    KindsGoUnseen(parse, e, g);
  }

  lemma KindsGoUnseen(parse: Parser, l: Rule, r: Rule)
    requires NotBlocked(parse, l, r) && IsRange(l.operator) && IsRange(r.operator) && IsNumber(l.value) != IsNumber(r.value)
    ensures Unseen(parse, l, r)
  {
    forall v ensures !(Satisfies(v, l) && Satisfies(v, r)) {
      if Satisfies(v, l) && Satisfies(v, r) {
        SatisfiesKind(v, l);
        SatisfiesKind(v, r);
      }
    }
    PairGoesUnseen(parse, l, r);
  }

  lemma TextsGoUnseen(parse: Parser, l: Rule, r: Rule)
    requires NotBlocked(parse, l, r) && l.operator.GT? && r.operator.LT? && l.value.Text? && r.value.Text?
    requires TextLess(r.value.s, l.value.s)
    ensures Unseen(parse, l, r)
  {
    TextsOutOfOrder(l, r);
    PairGoesUnseen(parse, l, r);
  }

  lemma TextsOutOfOrder(l: Rule, r: Rule)
    requires l.operator.GT? && r.operator.LT? && l.value.Text? && r.value.Text? && TextLess(r.value.s, l.value.s)
    ensures forall v :: !(Satisfies(v, l) && Satisfies(v, r))
  {
    forall v ensures !(Satisfies(v, l) && Satisfies(v, r)) {
      if Satisfies(v, l) && Satisfies(v, r) {
        TextLessTransitive(l.value.s, v.s, r.value.s);
        TextLessTransitive(l.value.s, r.value.s, l.value.s);
        TextLessTotal(l.value.s, l.value.s);
      }
    }
  }

  lemma PairGoesUnseen(parse: Parser, l: Rule, r: Rule)
    requires NotBlocked(parse, l, r)
    requires forall v :: !(Satisfies(v, l) && Satisfies(v, r))
    ensures Unseen(parse, l, r)
  {
    TwoRules(parse, l, r);
  }

  /** With list bounds pairs are not enough, which is why their whole group counts: under one source key, three rules
      that can be met two by two and not all at once. */
  lemma ListBoundsNeedTheGroup(parse: Parser)
    ensures var a := HardRule(1, GT, List([]), Some(7));
            var b, c := HardRule(2, LT, List([Text("a")]), Some(7)), HardRule(3, LT, List([Int(5)]), Some(7));
            Detected(parse, [a, b, c]).Success? && NoBlocking(Detected(parse, [a, b, c]).value)
            && Together(a, b) && Together(a, c) && Together(b, c) && !AllTogether([a, b, c], Named(0))
  {
    var a := HardRule(1, GT, List([]), Some(7));
    var b, c := HardRule(2, LT, List([Text("a")]), Some(7)), HardRule(3, LT, List([Int(5)]), Some(7));
    var rules := [a, b, c];
    DuplicatesGoThrough(parse, rules);
    assert Satisfies(List([Text("")]), a) && Satisfies(List([Text("")]), b);
    assert Satisfies(List([Int(4)]), a) && Satisfies(List([Int(4)]), c);
    assert Satisfies(List([]), b) && Satisfies(List([]), c);
    forall v: Value ensures !SatisfiesAll(v, rules, Named(0)) {
      assert rules[0] == a && rules[1] == b && rules[2] == c;
      if SatisfiesAll(v, rules, Named(0)) {
        assert Satisfies(v, rules[0]) && Satisfies(v, rules[1]) && Satisfies(v, rules[2]);
        NoListStartsBoth(v, a, b, c);
      }
    }
  }

  lemma NoListStartsBoth(v: Value, a: Rule, b: Rule, c: Rule)
    requires a.operator.GT? && a.value == List([]) && b.operator.LT? && b.value == List([Text("a")])
    requires c.operator.LT? && c.value == List([Int(5)])
    ensures !(Satisfies(v, a) && Satisfies(v, b) && Satisfies(v, c))
  {
    if Satisfies(v, a) && Satisfies(v, b) && Satisfies(v, c) {
      assert v.List? && v.items != [];
      BelowOneElement(v, Text("a"));
      BelowOneElement(v, Int(5));
    }
  }

  lemma BelowOneElement(v: Value, e: Value)
    requires v.List? && v.items != []
    ensures Less(v, List([e])) == if Equal(v.items[0], e) then Some(false) else Less(v.items[0], e)
  {
    var vs, ws := v.items, [e];
    assert ws[1..] == [] && LessList(vs[1..], ws[1..]) == Some(false);
    assert LessList(vs, ws) == if Equal(vs[0], ws[0]) then LessList(vs[1..], ws[1..]) else Less(vs[0], ws[0]);
  }

  /** Rules of one source key are never compared. */
  lemma DuplicatesGoThrough(parse: Parser, rules: seq<Rule>)
    requires forall i, j :: 0 <= i < j < |rules| ==> SharedKey(rules[i], rules[j]) && rules[i].field == rules[j].field
    ensures Detected(parse, rules).Success? && NoBlocking(Detected(parse, rules).value)
  {
    forall p <- Combinations(rules) ensures PairConflict(parse, p.0, p.1).Success? {
      CombinationsMember(rules, p.0, p.1);
    }
    PairConflictsSucceed(parse, Combinations(rules));
    DetectedExact(parse, rules);
    forall c <- Detected(parse, rules).value ensures !c.blocking {
      var i, j :| 0 <= i < j < |rules| && PairConflict(parse, rules[i], rules[j]) == Success(Some(c));
      assert SharedKey(rules[i], rules[j]);
    }
  }
}
