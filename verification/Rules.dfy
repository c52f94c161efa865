/** Business rules: pairwise conflict detection and the suppression of competing soft rules. */
module Rules {
  import opened Basics
  import opened Values

  datatype Source = OFFICIAL_REQUIREMENT | MARKETING_RULE | USER_REQUIREMENT | MODEL_SUGGESTION

  datatype Kind = HARD | SOFT | INFO

  datatype Status = DRAFT | ACTIVE | DISABLED | EXPIRED

  datatype ResolutionStatus = INCLUDED | SUPPRESSED | CONFLICT | INVALID

  datatype Rule = Rule(
    id: Id, field: Field, operator: Operator, value: Value, source: Source, kind: Kind, weight: Option<real>,
    sourceKey: Option<Id>, status: Status, resolution: ResolutionStatus)

  datatype ConflictType = DUPLICATE | NARROWER | DIRECT_CONFLICT | OFFICIAL_USER_CONFLICT | SOFT_CONFLICT

  datatype Conflict = Conflict(kind: ConflictType, left: Id, right: Id, field: Field, blocking: bool)

  /** What float(...) and next(...) raise. */
  datatype Error = NotAFloat | NoSuchRule

  /** float(text): the number the text spells, if it spells one. */
  type Parser = string -> Option<real>

  function ToFloat(parse: Parser, v: Value): Option<real> {
    if IsNumber(v) then Some(AsReal(v)) else if v.Text? then parse(v.s) else None
  }

  // ---------------------------------------------------------------------------------------------
  // Intervals

  predicate IsLower(op: Operator) { op.GT? || op.GTE? }

  predicate IsUpper(op: Operator) { op.LT? || op.LTE? }

  /** The operators the range check looks at. */
  predicate IsRange(op: Operator) { IsLower(op) || IsUpper(op) || op.EQ? }

  datatype Interval = Interval(lower: Option<real>, lowerIncluded: bool, upper: Option<real>, upperIncluded: bool)

  function IntervalOf(parse: Parser, r: Rule): Result<Interval, Error> {
    if IsLower(r.operator) then
      var x := ToFloat(parse, r.value);
      if x.Some? then Success(Interval(x, r.operator.GTE?, None, true)) else Failure(NotAFloat)
    else if IsUpper(r.operator) then
      var x := ToFloat(parse, r.value);
      if x.Some? then Success(Interval(None, true, x, r.operator.LTE?)) else Failure(NotAFloat)
    else if r.operator.EQ? && IsNumber(r.value) then
      Success(Interval(Some(AsReal(r.value)), true, Some(AsReal(r.value)), true))
    else Success(Interval(None, true, None, true))
  }

  function Larger(x: Option<real>, y: Option<real>): Option<real> {
    if x.None? then y else if y.None? || y.value <= x.value then x else y
  }

  function Smaller(x: Option<real>, y: Option<real>): Option<real> {
    if x.None? then y else if y.None? || x.value <= y.value then x else y
  }

  /** The range check of a pair. At a single common point it demands every end of both intervals closed. */
  predicate NoCommonRange(i: Interval, j: Interval) {
    var low, high := Larger(i.lower, j.lower), Smaller(i.upper, j.upper);
    low.Some? && high.Some?
    && (low.value > high.value
        || (low.value == high.value
            && !(i.lowerIncluded && j.lowerIncluded && i.upperIncluded && j.upperIncluded)))
  }

  // ---------------------------------------------------------------------------------------------
  // Detection

  predicate BothHard(l: Rule, r: Rule) { l.kind == r.kind == HARD }

  predicate OfficialAgainstUser(l: Rule, r: Rule) {
    {l.source, r.source} == {OFFICIAL_REQUIREMENT, USER_REQUIREMENT}
  }

  function DirectConflict(l: Rule, r: Rule): Conflict {
    Conflict(if BothHard(l, r) && OfficialAgainstUser(l, r) then OFFICIAL_USER_CONFLICT else DIRECT_CONFLICT,
             l.id, r.id, l.field, BothHard(l, r))
  }

  predicate Duplicates(l: Rule, r: Rule) {
    (l.sourceKey.Some? && l.sourceKey == r.sourceKey) || (l.operator == r.operator && Equal(l.value, r.value))
  }

  predicate IncludeAgainstExclude(l: Rule, r: Rule) {
    l.operator in {IN, NOT_IN} && r.operator in {IN, NOT_IN} && Equal(l.value, r.value) && l.operator != r.operator
  }

  /** What one pair contributes to the report. */
  function PairConflict(parse: Parser, l: Rule, r: Rule): Result<Option<Conflict>, Error> {
    if l.field != r.field then Success(None)
    else if Duplicates(l, r) then Success(Some(Conflict(DUPLICATE, l.id, r.id, l.field, false)))
    else if IncludeAgainstExclude(l, r) then Success(Some(DirectConflict(l, r)))
    else if l.operator == r.operator == EQ && !Equal(l.value, r.value) then Success(Some(DirectConflict(l, r)))
    else if IsRange(l.operator) && IsRange(r.operator) then
      var i, j := IntervalOf(parse, l), IntervalOf(parse, r);
      if i.Failure? || j.Failure? then Failure(NotAFloat)
      else if NoCommonRange(i.value, j.value) then Success(Some(DirectConflict(l, r)))
      else if BothHard(l, r) then Success(Some(Conflict(NARROWER, l.id, r.id, l.field, false)))
      else Success(None)
    else if l.kind == r.kind == SOFT && !Equal(l.value, r.value) then
      Success(Some(Conflict(SOFT_CONFLICT, l.id, r.id, l.field, false)))
    else Success(None)
  }

  /** The report on a list of pairs, in order; the first pair that raises ends it. */
  function PairConflicts(parse: Parser, pairs: seq<(Rule, Rule)>): Result<seq<Conflict>, Error> {
    if pairs == [] then Success([])
    else
      var n := |pairs| - 1;
      var before := PairConflicts(parse, pairs[..n]);
      if before.Failure? then before
      else
        var c := PairConflict(parse, pairs[n].0, pairs[n].1);
        if c.Failure? then Failure(c.error)
        else Success(before.value + (if c.value.Some? then [c.value.value] else []))
  }

  function Detected(parse: Parser, rules: seq<Rule>): Result<seq<Conflict>, Error> {
    PairConflicts(parse, Combinations(rules))
  }

  method Detect(parse: Parser, rules: seq<Rule>) returns (report: Result<seq<Conflict>, Error>)
    ensures report == Detected(parse, rules)
  {
    var conflicts := [];
    var pairs := Combinations(rules);
    for n := 0 to |pairs|
      invariant PairConflicts(parse, pairs[..n]) == Success(conflicts)
    {
      var (l, r) := pairs[n];
      assert pairs[..n + 1][..n] == pairs[..n];
      PairConflictsFail(parse, pairs, n + 1);
      assert conflicts + [] == conflicts;
      if l.field != r.field {
        continue;
      }
      if Duplicates(l, r) {
        conflicts := conflicts + [Conflict(DUPLICATE, l.id, r.id, l.field, false)];
        continue;
      }
      if IncludeAgainstExclude(l, r) || (l.operator == EQ && r.operator == EQ && !Equal(l.value, r.value)) {
        conflicts := conflicts + [DirectConflict(l, r)];
        continue;
      }
      if IsRange(l.operator) && IsRange(r.operator) {
        var i, j := IntervalOf(parse, l), IntervalOf(parse, r);
        if i.Failure? || j.Failure? {
          return Failure(NotAFloat);
        }
        if NoCommonRange(i.value, j.value) {
          conflicts := conflicts + [DirectConflict(l, r)];
        } else if l.kind == HARD && r.kind == HARD {
          conflicts := conflicts + [Conflict(NARROWER, l.id, r.id, l.field, false)];
        }
      } else if l.kind == SOFT && r.kind == SOFT && !Equal(l.value, r.value) {
        conflicts := conflicts + [Conflict(SOFT_CONFLICT, l.id, r.id, l.field, false)];
      }
    }
    assert pairs[..|pairs|] == pairs;
    return Success(conflicts);
  }

  /** A raising prefix makes the whole report raise. */
  lemma {:induction false} PairConflictsFail(parse: Parser, pairs: seq<(Rule, Rule)>, n: nat)
    requires n <= |pairs|
    ensures PairConflicts(parse, pairs[..n]).Failure? ==> PairConflicts(parse, pairs) == PairConflicts(parse, pairs[..n])
  {
    if n == |pairs| {
      assert pairs[..n] == pairs;
    } else {
      var front := pairs[..|pairs| - 1];
      assert front[..n] == pairs[..n];
      PairConflictsFail(parse, front, n);
    }
  }

  lemma {:induction false} PairConflictsExact(parse: Parser, pairs: seq<(Rule, Rule)>)
    requires PairConflicts(parse, pairs).Success?
    ensures forall p <- pairs :: PairConflict(parse, p.0, p.1).Success?
    ensures forall c :: c in PairConflicts(parse, pairs).value <==>
                        exists p <- pairs :: PairConflict(parse, p.0, p.1) == Success(Some(c))
  {
    hide PairConflict;
    if pairs != [] {
      var n := |pairs| - 1;
      var front, last := pairs[..n], PairConflict(parse, pairs[n].0, pairs[n].1);
      PairConflictsExact(parse, front);
      assert pairs == front + [pairs[n]];
      var before := PairConflicts(parse, front).value;
      assert PairConflicts(parse, pairs).value == before + if last.value.Some? then [last.value.value] else [];
      hide PairConflicts;
      forall c ensures c in before + (if last.value.Some? then [last.value.value] else []) <==>
                       exists p <- pairs :: PairConflict(parse, p.0, p.1) == Success(Some(c))
      {
        if p :| p in pairs && PairConflict(parse, p.0, p.1) == Success(Some(c)) {
          assert p in front || p == pairs[n];
        }
      }
    }
  }

  /** The report lists precisely what its pairs contribute. */
  lemma DetectedExact(parse: Parser, rules: seq<Rule>)
    requires Detected(parse, rules).Success?
    ensures forall i, j :: 0 <= i < j < |rules| ==> PairConflict(parse, rules[i], rules[j]).Success?
    ensures forall c :: c in Detected(parse, rules).value <==>
                        exists i, j :: 0 <= i < j < |rules| && PairConflict(parse, rules[i], rules[j]) == Success(Some(c))
  {
    var pairs := Combinations(rules);
    PairConflictsExact(parse, pairs);
    forall i, j | 0 <= i < j < |rules| ensures (rules[i], rules[j]) in pairs {
      CombinationsMember(rules, rules[i], rules[j]);
    }
    forall c ensures c in Detected(parse, rules).value <==>
                     exists i, j :: 0 <= i < j < |rules| && PairConflict(parse, rules[i], rules[j]) == Success(Some(c))
    {
      if c in Detected(parse, rules).value {
        var p :| p in pairs && PairConflict(parse, p.0, p.1) == Success(Some(c));
        CombinationsMember(rules, p.0, p.1);
      }
    }
  }

  // ---------------------------------------------------------------------------------------------
  // Suppression

  /** min(..., key=(is a user rule, weight or 0)) of two rules: the first of the smaller ones. */
  function Weaker(l: Rule, r: Rule): Rule {
    var lu, ru := l.source.USER_REQUIREMENT?, r.source.USER_REQUIREMENT?;
    var lw, rw := l.weight.GetOr(0.0), r.weight.GetOr(0.0);
    if lu == ru then (if rw < lw then r else l) else if ru then l else r
  }

  function FindRule(rules: seq<Rule>, id: Id): Option<Rule> {
    if rules == [] then None
    else if rules[0].id == id then Some(rules[0])
    else FindRule(rules[1..], id)
  }

  /** The rule id one conflict suppresses, if any. A NARROWER conflict only looks for its loser and keeps it. */
  function SuppressedBy(parse: Parser, rules: seq<Rule>, c: Conflict): Result<Option<Id>, Error> {
    if c.kind.DUPLICATE? || (c.blocking && (c.kind.OFFICIAL_USER_CONFLICT? || c.kind.DIRECT_CONFLICT?)) then Success(None)
    else if c.kind.OFFICIAL_USER_CONFLICT? then Success(None)
    else
      var l, r := FindRule(rules, c.left), FindRule(rules, c.right);
      if l.None? || r.None? then Failure(NoSuchRule)
      else if c.kind.DIRECT_CONFLICT? then
        if l.value.kind.SOFT? && r.value.kind.SOFT? then Success(Some(Weaker(l.value, r.value).id))
        else if l.value.kind.SOFT? then Success(Some(l.value.id))
        else if r.value.kind.SOFT? then Success(Some(r.value.id))
        else Success(None)
      else if c.kind.SOFT_CONFLICT? then Success(Some(Weaker(l.value, r.value).id))
      else if (IsLower(l.value.operator) && IsLower(r.value.operator)) || (IsUpper(l.value.operator) && IsUpper(r.value.operator)) then
        if ToFloat(parse, l.value.value).None? || ToFloat(parse, r.value.value).None? then Failure(NotAFloat) else Success(None)
      else Success(None)
  }

  function SuppressedIds(parse: Parser, rules: seq<Rule>, conflicts: seq<Conflict>): Result<set<Id>, Error> {
    if conflicts == [] then Success({})
    else
      var n := |conflicts| - 1;
      var before := SuppressedIds(parse, rules, conflicts[..n]);
      if before.Failure? then before
      else
        var s := SuppressedBy(parse, rules, conflicts[n]);
        if s.Failure? then Failure(s.error)
        else Success(before.value + (if s.value.Some? then {s.value.value} else {}))
  }

  function Included(rules: seq<Rule>, suppressed: set<Id>): seq<Rule> {
    if rules == [] then []
    else (if rules[0].id in suppressed then [] else [rules[0].(resolution := INCLUDED)]) + Included(rules[1..], suppressed)
  }

  function Suppressed(rules: seq<Rule>, suppressed: set<Id>): seq<Rule> {
    if rules == [] then []
    else (if rules[0].id in suppressed then [rules[0].(resolution := SUPPRESSED)] else []) + Suppressed(rules[1..], suppressed)
  }

  /** (included, suppressed), as resolve returns them. */
  function Resolved(parse: Parser, rules: seq<Rule>, conflicts: seq<Conflict>): Result<(seq<Rule>, seq<Rule>), Error> {
    var ids := SuppressedIds(parse, rules, conflicts);
    if ids.Failure? then Failure(ids.error)
    else Success((Included(rules, ids.value), Suppressed(rules, ids.value)))
  }

  lemma {:induction false} SuppressedIdsFail(parse: Parser, rules: seq<Rule>, conflicts: seq<Conflict>, n: nat)
    requires n <= |conflicts| && SuppressedIds(parse, rules, conflicts[..n]).Failure?
    ensures SuppressedIds(parse, rules, conflicts) == SuppressedIds(parse, rules, conflicts[..n])
  {
    if n == |conflicts| {
      assert conflicts[..n] == conflicts;
    } else {
      var front := conflicts[..|conflicts| - 1];
      assert front[..n] == conflicts[..n];
      SuppressedIdsFail(parse, rules, front, n);
    }
  }

  lemma {:induction false} SplitAppend(rules: seq<Rule>, r: Rule, ids: set<Id>)
    ensures Included(rules + [r], ids) == Included(rules, ids) + Included([r], ids)
    ensures Suppressed(rules + [r], ids) == Suppressed(rules, ids) + Suppressed([r], ids)
  {
    if rules == [] {
      assert rules + [r] == [r];
    } else {
      assert (rules + [r])[1..] == rules[1..] + [r];
      SplitAppend(rules[1..], r, ids);
    }
  }

  method Resolve(parse: Parser, rules: seq<Rule>, conflicts: seq<Conflict>)
    returns (res: Result<(seq<Rule>, seq<Rule>), Error>)
    ensures res == Resolved(parse, rules, conflicts)
  {
    var suppressed: set<Id> := {};
    for n := 0 to |conflicts|
      invariant SuppressedIds(parse, rules, conflicts[..n]) == Success(suppressed)
    {
      assert conflicts[..n + 1][..n] == conflicts[..n];
      var loser := SuppressedBy(parse, rules, conflicts[n]);
      if loser.Failure? {
        SuppressedIdsFail(parse, rules, conflicts, n + 1);
        return Failure(loser.error);
      }
      assert suppressed + {} == suppressed;
      if loser.value.Some? {
        suppressed := suppressed + {loser.value.value};
      }
    }
    assert conflicts[..|conflicts|] == conflicts;
    var included, suppressedRules := [], [];
    for n := 0 to |rules|
      invariant included == Included(rules[..n], suppressed) && suppressedRules == Suppressed(rules[..n], suppressed)
    {
      assert rules[..n + 1] == rules[..n] + [rules[n]];
      SplitAppend(rules[..n], rules[n], suppressed);
      if rules[n].id in suppressed {
        suppressedRules := suppressedRules + [rules[n].(resolution := SUPPRESSED)];
      } else {
        included := included + [rules[n].(resolution := INCLUDED)];
      }
    }
    assert rules[..|rules|] == rules;
    return Success((included, suppressedRules));
  }

  // ---------------------------------------------------------------------------------------------
  // What resolving conserves

  ghost predicate DistinctIds(rules: seq<Rule>) {
    forall i, j :: 0 <= i < j < |rules| ==> rules[i].id != rules[j].id
  }

  lemma {:induction false} FindRuleAt(rules: seq<Rule>, i: nat)
    requires DistinctIds(rules) && i < |rules|
    ensures FindRule(rules, rules[i].id) == Some(rules[i])
  {
    if i > 0 {
      FindRuleAt(rules[1..], i - 1);
    }
  }

  /** The rules, their resolution status aside. */
  function Unmarked(rules: seq<Rule>): multiset<Rule> {
    if rules == [] then multiset{} else multiset{rules[0].(resolution := INCLUDED)} + Unmarked(rules[1..])
  }

  /** Included and suppressed rules together are the input: nothing lost, nothing doubled, only the status rewritten. */
  lemma {:induction false} ResolvePartitions(rules: seq<Rule>, ids: set<Id>)
    ensures Unmarked(Included(rules, ids)) + Unmarked(Suppressed(rules, ids)) == Unmarked(rules)
  {
    if rules == [] {
      assert Unmarked(Included(rules, ids)) == multiset{} && Unmarked(Suppressed(rules, ids)) == multiset{};
    } else {
      hide *;
      var rest, first := rules[1..], rules[0];
      ResolvePartitions(rest, ids);
      UnmarkedCons(first, rest);
      assert rules == [first] + rest;
      SplitFirst(rules, ids);
      Regroup(Unmarked(Included(rest, ids)), Unmarked(Suppressed(rest, ids)), first.(resolution := INCLUDED));
      if first.id in ids {
        UnmarkedCons(first.(resolution := SUPPRESSED), Suppressed(rest, ids));
      } else {
        UnmarkedCons(first.(resolution := INCLUDED), Included(rest, ids));
      }
    }
  }

  lemma Regroup<T>(xs: multiset<T>, ys: multiset<T>, x: T)
    ensures multiset{x} + (xs + ys) == (multiset{x} + xs) + ys == xs + (multiset{x} + ys)
  {
  }

  lemma SplitFirst(rules: seq<Rule>, ids: set<Id>)
    requires rules != []
    ensures var rest, first := rules[1..], rules[0];
            if first.id in ids then
              Suppressed(rules, ids) == [first.(resolution := SUPPRESSED)] + Suppressed(rest, ids)
              && Included(rules, ids) == Included(rest, ids)
            else
              Included(rules, ids) == [first.(resolution := INCLUDED)] + Included(rest, ids)
              && Suppressed(rules, ids) == Suppressed(rest, ids)
  {
  }

  lemma UnmarkedCons(r: Rule, rules: seq<Rule>)
    ensures Unmarked([r] + rules) == multiset{r.(resolution := INCLUDED)} + Unmarked(rules)
  {
    assert ([r] + rules)[1..] == rules;
  }

  /** A pair's own conflict, resolved against the list the pair comes from, suppresses only a soft member of the pair;
      and it does suppress one when both compete softly or a soft rule meets a contradiction. */
  lemma PairSuppression(parse: Parser, rules: seq<Rule>, i: nat, j: nat, c: Conflict)
    requires DistinctIds(rules) && i < j < |rules| && PairConflict(parse, rules[i], rules[j]) == Success(Some(c))
    ensures SuppressedBy(parse, rules, c).Success?
    ensures var s := SuppressedBy(parse, rules, c).value;
            var l, r := rules[i], rules[j];
            (s.Some? ==> (s.value == l.id && l.kind.SOFT?) || (s.value == r.id && r.kind.SOFT?))
            && (c.kind.SOFT_CONFLICT? || (c.kind.DIRECT_CONFLICT? && (l.kind.SOFT? || r.kind.SOFT?)) ==> s.Some?)
  {
    FindRuleAt(rules, i);
    FindRuleAt(rules, j);
  }

  lemma {:induction false} SuppressedIdsExact(parse: Parser, rules: seq<Rule>, conflicts: seq<Conflict>)
    requires forall c <- conflicts :: SuppressedBy(parse, rules, c).Success?
    ensures SuppressedIds(parse, rules, conflicts).Success?
    ensures forall id :: id in SuppressedIds(parse, rules, conflicts).value <==>
                         exists c <- conflicts :: SuppressedBy(parse, rules, c) == Success(Some(id))
  {
    if conflicts != [] {
      var n := |conflicts| - 1;
      SuppressedIdsExact(parse, rules, conflicts[..n]);
      assert conflicts == conflicts[..n] + [conflicts[n]];
    }
  }

  /** Every reported conflict is a pair's, and resolving it succeeds without touching anything but a soft rule of it. */
  lemma ConflictOrigin(parse: Parser, rules: seq<Rule>, c: Conflict) returns (i: nat, j: nat)
    requires DistinctIds(rules) && Detected(parse, rules).Success? && c in Detected(parse, rules).value
    ensures i < j < |rules| && PairConflict(parse, rules[i], rules[j]) == Success(Some(c))
    ensures SuppressedBy(parse, rules, c).Success?
    ensures var s := SuppressedBy(parse, rules, c).value;
            s.Some? ==> (s.value == rules[i].id && rules[i].kind.SOFT?) || (s.value == rules[j].id && rules[j].kind.SOFT?)
  {
    DetectedExact(parse, rules);
    i, j :| 0 <= i < j < |rules| && PairConflict(parse, rules[i], rules[j]) == Success(Some(c));
    PairSuppression(parse, rules, i, j, c);
  }

  /** Resolving the reported conflicts never raises, and what it suppresses are soft rules. */
  lemma OnlySoftSuppressed(parse: Parser, rules: seq<Rule>)
    requires DistinctIds(rules) && Detected(parse, rules).Success?
    ensures var ids := SuppressedIds(parse, rules, Detected(parse, rules).value);
            ids.Success? && forall k :: 0 <= k < |rules| && rules[k].id in ids.value ==> rules[k].kind.SOFT?
  {
    hide Detected, SuppressedBy, SuppressedIds, PairConflict;
    var conflicts := Detected(parse, rules).value;
    forall c <- conflicts ensures SuppressedBy(parse, rules, c).Success? {
      var _, _ := ConflictOrigin(parse, rules, c);
    }
    SuppressedIdsExact(parse, rules, conflicts);
    forall k | 0 <= k < |rules| && rules[k].id in SuppressedIds(parse, rules, conflicts).value ensures rules[k].kind.SOFT? {
      var c :| c in conflicts && SuppressedBy(parse, rules, c) == Success(Some(rules[k].id));
      var i, j := ConflictOrigin(parse, rules, c);
    }
  }

  lemma {:induction false} SuppressedAre(rules: seq<Rule>, ids: set<Id>, kind: Kind)
    requires forall k :: 0 <= k < |rules| && rules[k].id in ids ==> rules[k].kind == kind
    ensures forall r <- Suppressed(rules, ids) :: r.kind == kind && r.resolution == SUPPRESSED
  {
    if rules != [] {
      SuppressedAre(rules[1..], ids, kind);
    }
  }

  /** No hard rule is ever suppressed. */
  lemma HardRulesSurvive(parse: Parser, rules: seq<Rule>)
    requires DistinctIds(rules) && Detected(parse, rules).Success?
    ensures var res := Resolved(parse, rules, Detected(parse, rules).value);
            res.Success? && forall r <- res.value.1 :: r.kind.SOFT?
  {
    OnlySoftSuppressed(parse, rules);
    SuppressedAre(rules, SuppressedIds(parse, rules, Detected(parse, rules).value).value, SOFT);
  }

  /** The rule an included one comes from was not suppressed. */
  lemma {:induction false} IncludedAt(rules: seq<Rule>, ids: set<Id>, a: nat) returns (i: nat)
    requires a < |Included(rules, ids)|
    ensures i < |rules| && Included(rules, ids)[a] == rules[i].(resolution := INCLUDED) && rules[i].id !in ids
  {
    if rules[0].id !in ids && a == 0 {
      i := 0;
    } else {
      var j := IncludedAt(rules[1..], ids, if rules[0].id in ids then a else a - 1);
      i := j + 1;
    }
  }

  /** Two included rules stood in the same order among all rules, and were not suppressed. */
  lemma {:induction false} IncludedPair(rules: seq<Rule>, ids: set<Id>, a: nat, b: nat) returns (i: nat, j: nat)
    requires a < b < |Included(rules, ids)|
    ensures i < j < |rules|
    ensures Included(rules, ids)[a] == rules[i].(resolution := INCLUDED) && rules[i].id !in ids
    ensures Included(rules, ids)[b] == rules[j].(resolution := INCLUDED) && rules[j].id !in ids
  {
    if rules[0].id !in ids && a == 0 {
      j := IncludedAt(rules[1..], ids, b - 1);
      i, j := 0, j + 1;
    } else {
      var n := if rules[0].id in ids then 0 else 1;
      i, j := IncludedPair(rules[1..], ids, a - n, b - n);
      i, j := i + 1, j + 1;
    }
  }

  /** Detection does not look at the resolution status. */
  lemma StatusIgnored(parse: Parser, l: Rule, r: Rule)
    ensures PairConflict(parse, l.(resolution := INCLUDED), r.(resolution := INCLUDED)) == PairConflict(parse, l, r)
  {
    hide Equal, NoCommonRange, ToFloat;
    assert IntervalOf(parse, l.(resolution := INCLUDED)) == IntervalOf(parse, l);
    assert IntervalOf(parse, r.(resolution := INCLUDED)) == IntervalOf(parse, r);
  }

  /** A soft competition, or a contradiction with a soft member. */
  predicate Unsettled(l: Rule, r: Rule, c: Conflict) {
    c.kind.SOFT_CONFLICT? || (c.kind.DIRECT_CONFLICT? && (l.kind.SOFT? || r.kind.SOFT?))
  }

  /** Nothing is left that resolving would settle. */
  ghost predicate Settled(parse: Parser, rules: seq<Rule>) {
    forall a, b, c: Conflict :: 0 <= a < b < |rules| && PairConflict(parse, rules[a], rules[b]) == Success(Some(c)) ==>
      !Unsettled(rules[a], rules[b], c)
  }

  lemma {:induction false} PairConflictsSucceed(parse: Parser, pairs: seq<(Rule, Rule)>)
    requires forall p <- pairs :: PairConflict(parse, p.0, p.1).Success?
    ensures PairConflicts(parse, pairs).Success?
  {
    if pairs != [] {
      PairConflictsSucceed(parse, pairs[..|pairs| - 1]);
      assert pairs[|pairs| - 1] in pairs;
    }
  }

  /** One round settles everything it can: detecting again on the included rules reports no soft competition, and no
      contradiction with a soft member. */
  lemma ResolveSettles(parse: Parser, rules: seq<Rule>)
    requires DistinctIds(rules) && Detected(parse, rules).Success?
    ensures var res := Resolved(parse, rules, Detected(parse, rules).value);
            res.Success? && Detected(parse, res.value.0).Success? && Settled(parse, res.value.0)
  {
    OnlySoftSuppressed(parse, rules);
    var conflicts := Detected(parse, rules).value;
    var ids := SuppressedIds(parse, rules, conflicts).value;
    var included := Included(rules, ids);
    forall a, b, c: Conflict | 0 <= a < b < |included| && PairConflict(parse, included[a], included[b]) == Success(Some(c))
      ensures !Unsettled(included[a], included[b], c)
    {
      var i, j := IncludedIndices(parse, rules, ids, a, b);
      PairSuppression(parse, rules, i, j, c);
      DetectedExact(parse, rules);
      SuppressedIdsMember(parse, rules, conflicts, c);
    }
    forall p <- Combinations(included) ensures PairConflict(parse, p.0, p.1).Success? {
      CombinationsMember(included, p.0, p.1);
      var a, b :| 0 <= a < b < |included| && included[a] == p.0 && included[b] == p.1;
      var i, j := IncludedIndices(parse, rules, ids, a, b);
      DetectedExact(parse, rules);
    }
    PairConflictsSucceed(parse, Combinations(included));
  }

  lemma IncludedIndices(parse: Parser, rules: seq<Rule>, ids: set<Id>, a: nat, b: nat) returns (i: nat, j: nat)
    requires a < b < |Included(rules, ids)|
    ensures i < j < |rules| && rules[i].id !in ids && rules[j].id !in ids
    ensures Included(rules, ids)[a].kind == rules[i].kind && Included(rules, ids)[b].kind == rules[j].kind
    ensures PairConflict(parse, Included(rules, ids)[a], Included(rules, ids)[b]) == PairConflict(parse, rules[i], rules[j])
  {
    i, j := IncludedPair(rules, ids, a, b);
    StatusIgnored(parse, rules[i], rules[j]);
  }

  lemma {:induction false} SuppressedIdsMember(parse: Parser, rules: seq<Rule>, conflicts: seq<Conflict>, c: Conflict)
    requires SuppressedIds(parse, rules, conflicts).Success? && c in conflicts
    ensures SuppressedBy(parse, rules, c).Success?
    ensures SuppressedBy(parse, rules, c).value.Some? ==>
              SuppressedBy(parse, rules, c).value.value in SuppressedIds(parse, rules, conflicts).value
  {
    var n := |conflicts| - 1;
    if c != conflicts[n] {
      assert c in conflicts[..n];
      SuppressedIdsMember(parse, rules, conflicts[..n], c);
    }
  }

  // ---------------------------------------------------------------------------------------------
  // What is reported and who loses, read off the rules

  /** Two rules on one field, not filed as duplicates, that cannot both hold: the same values included and excluded, two
      different values demanded, or two ranges without a common value. */
  predicate Contradict(parse: Parser, l: Rule, r: Rule) {
    && l.field == r.field && !Duplicates(l, r)
    && (|| (((l.operator.IN? && r.operator.NOT_IN?) || (l.operator.NOT_IN? && r.operator.IN?)) && Equal(l.value, r.value))
        || (l.operator.EQ? && r.operator.EQ? && !Equal(l.value, r.value))
        || (IsRange(l.operator) && IsRange(r.operator) && Apart(parse, l, r)))
  }

  predicate Apart(parse: Parser, l: Rule, r: Rule) {
    var i, j := IntervalOf(parse, l), IntervalOf(parse, r);
    i.Success? && j.Success? && NoCommonRange(i.value, j.value)
  }

  /** Two soft rules on one field that want different values and are not both ranges. */
  predicate Compete(l: Rule, r: Rule) {
    && l.field == r.field && !Duplicates(l, r) && l.kind.SOFT? && r.kind.SOFT?
    && !Equal(l.value, r.value) && !(IsRange(l.operator) && IsRange(r.operator))
  }

  /** A pair is reported as at most one conflict, naming its rules in order and their field. */
  lemma ReportedAs(parse: Parser, l: Rule, r: Rule)
    requires PairConflict(parse, l, r).Success?
    ensures var c := PairConflict(parse, l, r).value;
            var official := (l.source.OFFICIAL_REQUIREMENT? && r.source.USER_REQUIREMENT?)
                            || (l.source.USER_REQUIREMENT? && r.source.OFFICIAL_REQUIREMENT?);
            var bothHard := l.kind.HARD? && r.kind.HARD?;
            && (c.Some? ==> c.value.left == l.id && c.value.right == r.id && c.value.field == l.field == r.field)
            && (c.Some? && c.value.kind.DUPLICATE? <==> l.field == r.field && Duplicates(l, r))
            && (c.Some? && (c.value.kind.DIRECT_CONFLICT? || c.value.kind.OFFICIAL_USER_CONFLICT?) <==> Contradict(parse, l, r))
            && (c.Some? && c.value.kind.OFFICIAL_USER_CONFLICT? <==> Contradict(parse, l, r) && bothHard && official)
            && (c.Some? && c.value.blocking <==> Contradict(parse, l, r) && bothHard)
            && (c.Some? && c.value.kind.SOFT_CONFLICT? <==> Compete(l, r) && !Contradict(parse, l, r))
            && (c.Some? && c.value.kind.NARROWER? <==>
                  l.field == r.field && !Duplicates(l, r) && bothHard && IsRange(l.operator) && IsRange(r.operator)
                  && !Contradict(parse, l, r))
  {
    hide Equal, NoCommonRange;
    assert Equal(l.value, r.value) == Equal(l.value, r.value);
    OfficialEitherWay(l, r);
  }

  lemma OfficialEitherWay(l: Rule, r: Rule)
    ensures OfficialAgainstUser(l, r) <==>
            (l.source.OFFICIAL_REQUIREMENT? && r.source.USER_REQUIREMENT?)
            || (l.source.USER_REQUIREMENT? && r.source.OFFICIAL_REQUIREMENT?)
  {
    if OfficialAgainstUser(l, r) {
      assert l.source in {OFFICIAL_REQUIREMENT, USER_REQUIREMENT} && r.source in {OFFICIAL_REQUIREMENT, USER_REQUIREMENT};
      assert OFFICIAL_REQUIREMENT in {l.source, r.source} && USER_REQUIREMENT in {l.source, r.source};
    }
  }

  /** The k-th rule loses to the o-th: it is soft, and the other is not, or is the user's while it is not, or has the
      same kind of source and more weight, or as much and a later place. */
  predicate Loses(rules: seq<Rule>, k: nat, o: nat)
    requires k < |rules| && o < |rules|
  {
    var a, b := rules[k], rules[o];
    && a.kind.SOFT?
    && (|| !b.kind.SOFT?
        || (b.source.USER_REQUIREMENT? && !a.source.USER_REQUIREMENT?)
        || (b.source.USER_REQUIREMENT? == a.source.USER_REQUIREMENT?
            && (a.weight.GetOr(0.0) < b.weight.GetOr(0.0) || (a.weight.GetOr(0.0) == b.weight.GetOr(0.0) && k < o))))
  }

  /** Which two rules resolving chooses between. */
  predicate AtOdds(parse: Parser, rules: seq<Rule>, i: nat, j: nat)
    requires i < |rules| && j < |rules|
  {
    var l, r := if i < j then rules[i] else rules[j], if i < j then rules[j] else rules[i];
    i != j && (Contradict(parse, l, r) || Compete(l, r))
  }

  /** Resolving one pair's conflict suppresses the loser of the two, if they are at odds and one of them is soft. */
  lemma LoserIsSuppressed(parse: Parser, rules: seq<Rule>, i: nat, j: nat, c: Conflict)
    requires DistinctIds(rules) && i < j < |rules| && PairConflict(parse, rules[i], rules[j]) == Success(Some(c))
    ensures SuppressedBy(parse, rules, c).Success?
    ensures var s := SuppressedBy(parse, rules, c).value;
            && (s == Some(rules[i].id) <==> AtOdds(parse, rules, i, j) && Loses(rules, i, j))
            && (s == Some(rules[j].id) <==> AtOdds(parse, rules, i, j) && Loses(rules, j, i))
            && (s.Some? ==> s.value == rules[i].id || s.value == rules[j].id)
  {
    FindRuleAt(rules, i);
    FindRuleAt(rules, j);
    PairSuppression(parse, rules, i, j, c);
    ReportedAs(parse, rules[i], rules[j]);
    hide PairConflict, Contradict, Compete, FindRule, ToFloat;
  }

  lemma AtOddsIsReported(parse: Parser, rules: seq<Rule>, i: nat, j: nat)
    requires i < j < |rules| && PairConflict(parse, rules[i], rules[j]).Success? && AtOdds(parse, rules, i, j)
    ensures PairConflict(parse, rules[i], rules[j]).value.Some?
  {
    ReportedAs(parse, rules[i], rules[j]);
    hide PairConflict, Contradict, Compete;
  }

  /** Exactly the rules that lose to some rule they are at odds with are suppressed. */
  lemma SuppressedIff(parse: Parser, rules: seq<Rule>, k: nat)
    requires DistinctIds(rules) && Detected(parse, rules).Success? && k < |rules|
    ensures var ids := SuppressedIds(parse, rules, Detected(parse, rules).value);
            ids.Success?
            && (rules[k].id in ids.value <==> exists o :: 0 <= o < |rules| && AtOdds(parse, rules, k, o) && Loses(rules, k, o))
  {
    hide Detected, SuppressedBy, SuppressedIds, PairConflict, AtOdds, Loses;
    var conflicts := Detected(parse, rules).value;
    DetectedExact(parse, rules);
    forall c <- conflicts ensures SuppressedBy(parse, rules, c).Success? {
      var _, _ := ConflictOrigin(parse, rules, c);
    }
    SuppressedIdsExact(parse, rules, conflicts);
    var ids := SuppressedIds(parse, rules, conflicts).value;
    if rules[k].id in ids {
      var c :| c in conflicts && SuppressedBy(parse, rules, c) == Success(Some(rules[k].id));
      var i, j := ConflictOrigin(parse, rules, c);
      LoserIsSuppressed(parse, rules, i, j, c);
      AtOddsEitherWay(parse, rules, i, j);
      assert k == i || k == j;
    }
    if o :| 0 <= o < |rules| && AtOdds(parse, rules, k, o) && Loses(rules, k, o) {
      AtOddsEitherWay(parse, rules, k, o);
      var i, j := if k < o then k else o, if k < o then o else k;
      assert PairConflict(parse, rules[i], rules[j]).Success?;
      AtOddsIsReported(parse, rules, i, j);
      var c := PairConflict(parse, rules[i], rules[j]).value.value;
      LoserIsSuppressed(parse, rules, i, j, c);
      assert c in conflicts;
    }
  }

  lemma AtOddsEitherWay(parse: Parser, rules: seq<Rule>, i: nat, j: nat)
    requires i < |rules| && j < |rules|
    ensures AtOdds(parse, rules, i, j) == AtOdds(parse, rules, j, i)
    ensures AtOdds(parse, rules, i, j) ==> i != j
  {
    hide Contradict, Compete;
  }

  /** Of two rules at odds, one of them soft, exactly one loses; so never are both included. */
  lemma OneLoses(parse: Parser, rules: seq<Rule>, i: nat, j: nat)
    requires DistinctIds(rules) && Detected(parse, rules).Success? && i < |rules| && j < |rules|
    requires AtOdds(parse, rules, i, j) && (rules[i].kind.SOFT? || rules[j].kind.SOFT?)
    ensures Loses(rules, i, j) != Loses(rules, j, i)
    ensures var ids := SuppressedIds(parse, rules, Detected(parse, rules).value);
            ids.Success? && (rules[i].id in ids.value || rules[j].id in ids.value)
  {
    hide AtOdds, Detected, SuppressedIds, DistinctIds;
    AtOddsEitherWay(parse, rules, i, j);
    LoserIsOne(rules, i, j);
    hide Loses;
    SuppressedIff(parse, rules, i);
    SuppressedIff(parse, rules, j);
  }

  lemma LoserIsOne(rules: seq<Rule>, i: nat, j: nat)
    requires i < |rules| && j < |rules| && i != j && (rules[i].kind.SOFT? || rules[j].kind.SOFT?)
    ensures Loses(rules, i, j) != Loses(rules, j, i)
  {
  }

  /** The report of a longer list of pairs goes on where the shorter one ended. */
  lemma {:induction false} ReportInPairOrder(parse: Parser, ps: seq<(Rule, Rule)>, qs: seq<(Rule, Rule)>)
    requires PairConflicts(parse, ps).Success? && PairConflicts(parse, qs).Success?
    ensures PairConflicts(parse, ps + qs) == Success(PairConflicts(parse, ps).value + PairConflicts(parse, qs).value)
  {
    hide PairConflict;
    if qs == [] {
      var before := PairConflicts(parse, ps).value;
      assert ps + qs == ps && before + [] == before;
    } else {
      var n := |qs| - 1;
      assert (ps + qs)[..|ps + qs| - 1] == ps + qs[..n] && (ps + qs)[|ps + qs| - 1] == qs[n];
      ReportInPairOrder(parse, ps, qs[..n]);
      var before, last := PairConflicts(parse, ps).value, PairConflict(parse, qs[n].0, qs[n].1).value;
      var c := if last.Some? then [last.value] else [];
      assert before + (PairConflicts(parse, qs[..n]).value + c) == (before + PairConflicts(parse, qs[..n]).value) + c;
    }
  }

  /** Whatever the list of conflicts, a duplicate, a blocking contradiction, an official one and two narrowing ranges
      suppress nothing; resolving raises exactly for a rule it cannot find where it looks the pair up, or for two narrowing
      bounds of one side with a value that is no number. */
  lemma ResolvingOne(parse: Parser, rules: seq<Rule>, c: Conflict)
    ensures
      var s := SuppressedBy(parse, rules, c);
      var skipped := c.kind.DUPLICATE? || c.kind.OFFICIAL_USER_CONFLICT? || (c.kind.DIRECT_CONFLICT? && c.blocking);
      var l, r := FindRule(rules, c.left), FindRule(rules, c.right);
      && (skipped ==> s == Success(None))
      && (c.kind.NARROWER? ==> s.Failure? || s == Success(None))
      && (s == Failure(NoSuchRule) <==> !skipped && (l.None? || r.None?))
      && (s == Failure(NotAFloat) <==>
            c.kind.NARROWER? && l.Some? && r.Some?
            && ((IsLower(l.value.operator) && IsLower(r.value.operator)) || (IsUpper(l.value.operator) && IsUpper(r.value.operator)))
            && (ToFloat(parse, l.value.value).None? || ToFloat(parse, r.value.value).None?))
  {
    hide FindRule, ToFloat;
  }

  lemma {:induction false} FindRuleIff(rules: seq<Rule>, id: Id)
    ensures FindRule(rules, id).None? <==> forall r <- rules :: r.id != id
    ensures FindRule(rules, id).Some? ==> FindRule(rules, id).value in rules && FindRule(rules, id).value.id == id
  {
    if rules != [] {
      FindRuleIff(rules[1..], id);
      assert rules == [rules[0]] + rules[1..];
    }
  }
}
