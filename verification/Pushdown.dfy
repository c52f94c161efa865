/** Predicate pushdown: splitting hard constraints between the provider and the filter after it. */
module Pushdown {
  import opened Basics
  import opened Values
  import opened Evaluator

  datatype Capabilities = Capabilities(fields: set<Field>, operators: map<Field, set<Operator>>)
  {
    predicate Supports(f: Field, op: Operator) {
      f in fields && f in operators && op in operators[f]
    }
  }

  /** One entry of the provider's filter dictionary. */
  datatype Pushed = Pushed(operator: Operator, value: Value)

  datatype Plan = Plan(providerFilters: map<Field, Pushed>, postFilters: seq<Constraint>, enrichment: seq<Field>)

  /** The pushed dictionary keeps the last supported constraint of each field. */
  function LastSupported(cs: seq<Constraint>, cap: Capabilities, f: Field): Option<Pushed> {
    if cs == [] then None
    else
      var c := cs[|cs| - 1];
      if c.field == f && cap.Supports(f, c.operator) then Some(Pushed(c.operator, c.value))
      else LastSupported(cs[..|cs| - 1], cap, f)
  }

  function Unsupported(cs: seq<Constraint>, cap: Capabilities): seq<Constraint> {
    if cs == [] then []
    else
      var n := |cs| - 1;
      Unsupported(cs[..n], cap) + (if cap.Supports(cs[n].field, cs[n].operator) then [] else [cs[n]])
  }

  /** list(dict.fromkeys(...)): the first occurrences. */
  function FirstFields(cs: seq<Constraint>): seq<Field> {
    if cs == [] then []
    else
      var n := |cs| - 1;
      FirstFields(cs[..n]) + (if cs[n].field in FirstFields(cs[..n]) then [] else [cs[n].field])
  }

  ghost predicate PlannedFor(cs: seq<Constraint>, cap: Capabilities, plan: Plan) {
    && (forall f :: Get(plan.providerFilters, f) == LastSupported(cs, cap, f))
    && plan.postFilters == Unsupported(cs, cap)
    && plan.enrichment == FirstFields(plan.postFilters)
  }

  /** CriteriaPushdownPlanner.plan. */
  method PlanPushdown(cs: seq<Constraint>, cap: Capabilities) returns (plan: Plan)
    ensures PlannedFor(cs, cap, plan)
  {
    plan := Plan(map[], [], []);
    for i := 0 to |cs|
      invariant PlannedFor(cs[..i], cap, plan)
    {
      var c := cs[i];
      assert cs[..i + 1][..i] == cs[..i];
      if cap.Supports(c.field, c.operator) {
        ghost var before := plan.providerFilters;
        plan := plan.(providerFilters := plan.providerFilters[c.field := Pushed(c.operator, c.value)]);
        assert forall f :: f != c.field ==> Get(plan.providerFilters, f) == Get(before, f);
      } else {
        var post := plan.postFilters + [c];
        assert post[..|post| - 1] == plan.postFilters;
        plan := plan.(postFilters := post,
                      enrichment := plan.enrichment + (if c.field in plan.enrichment then [] else [c.field]));
      }
    }
    assert cs[..|cs|] == cs;
  }

  lemma {:induction false} PushedIsConstraint(cs: seq<Constraint>, cap: Capabilities, f: Field)
    ensures LastSupported(cs, cap, f).Some? ==>
              exists c <- cs :: c.field == f && LastSupported(cs, cap, f) == Some(Pushed(c.operator, c.value))
  {
    if cs != [] {
      var n := |cs| - 1;
      PushedIsConstraint(cs[..n], cap, f);
      assert cs == cs[..n] + [cs[n]];
    }
  }

  /** Nothing falls between the two halves: a constraint left for the post filter, or a pushed entry on its field. */
  lemma {:induction false} EveryConstraintCovered(cs: seq<Constraint>, cap: Capabilities, c: Constraint)
    requires c in cs
    ensures c in Unsupported(cs, cap) <==> !cap.Supports(c.field, c.operator)
    ensures c in Unsupported(cs, cap) || LastSupported(cs, cap, c.field).Some?
  {
    var n := |cs| - 1;
    assert cs == cs[..n] + [cs[n]];
    if c in cs[..n] {
      EveryConstraintCovered(cs[..n], cap, c);
    } else {
      UnsupportedMember(cs[..n], cap, c);
    }
  }

  lemma {:induction false} UnsupportedMember(cs: seq<Constraint>, cap: Capabilities, c: Constraint)
    ensures c in Unsupported(cs, cap) ==> c in cs && !cap.Supports(c.field, c.operator)
  {
    if cs != [] {
      UnsupportedMember(cs[..|cs| - 1], cap, c);
      assert cs[|cs| - 1] in cs;
    }
  }

  // ---------------------------------------------------------------------------------------------
  // The hard filter

  /** The rows that are not ruled out, None when an evaluation raises. */
  function HardFilter(rows: seq<Enterprise>, cs: seq<Constraint>): Option<seq<Enterprise>> {
    if rows == [] then Some([])
    else
      var n := |rows| - 1;
      var before, last := HardFilter(rows[..n], cs), Evaluated(rows[n], cs);
      if before.None? || last.None? then None
      else Some(before.value + (if last.value.NO_MATCH? then [] else [rows[n]]))
  }

  lemma {:induction false} HardFilterRaises(rows: seq<Enterprise>, cs: seq<Constraint>, n: nat)
    requires n <= |rows| && HardFilter(rows[..n], cs).None?
    ensures HardFilter(rows, cs).None?
  {
    if n == |rows| {
      assert rows[..n] == rows;
    } else {
      assert rows[..|rows| - 1][..n] == rows[..n];
      HardFilterRaises(rows[..|rows| - 1], cs, n);
    }
  }

  /** apply_hard_filters: unknown outcomes are kept, NO_MATCH candidates are marked filtered out. */
  method ApplyHardFilters(rows: seq<Enterprise>, cs: seq<Constraint>)
    returns (selected: Option<seq<Enterprise>>, filteredOut: seq<bool>)
    ensures selected == HardFilter(rows, cs)
    ensures selected.Some? ==> |filteredOut| == |rows|
    ensures selected.Some? ==>
              forall i :: 0 <= i < |rows| ==> (filteredOut[i] <==> Evaluated(rows[i], cs) == Some(NO_MATCH))
  {
    var kept := [];
    filteredOut := [];
    for i := 0 to |rows|
      invariant HardFilter(rows[..i], cs) == Some(kept) && |filteredOut| == i
      invariant forall k :: 0 <= k < i ==> (filteredOut[k] <==> Evaluated(rows[k], cs) == Some(NO_MATCH))
    {
      assert rows[..i + 1][..i] == rows[..i];
      var outcome := Evaluate(rows[i], cs);
      if outcome.None? {
        HardFilterRaises(rows, cs, i + 1);
        return None, filteredOut;
      }
      assert kept + [] == kept;
      filteredOut := filteredOut + [outcome.value == NO_MATCH];
      if outcome.value != NO_MATCH {
        kept := kept + [rows[i]];
      }
    }
    assert rows[..|rows|] == rows;
    return Some(kept), filteredOut;
  }

  // ---------------------------------------------------------------------------------------------
  // Pushdown loses nothing

  /** The value a constraint on the field looks at is known: not null, and for offices a non-empty location list. */
  predicate Known(e: Enterprise, f: Field) {
    if f.HasOfficeIn? || f.Locations? then Truthy(Read(e, Locations)) else !Read(e, f).Null?
  }

  /** Later enrichment only fills what was unknown. */
  ghost predicate Enriched(e: Enterprise, later: Enterprise) {
    forall f: Field :: f != HasOfficeIn && Known(e, f) ==> Read(later, f) == Read(e, f)
  }

  ghost predicate FailsFilter(e: Enterprise, f: Field, p: Pushed) {
    Known(e, f) && Judge(e, Constraint(f, p.operator, p.value, [])) == Fails
  }

  /** The provider may drop this row: its known value fails a pushed filter. */
  ghost predicate KnownFailure(e: Enterprise, filters: map<Field, Pushed>) {
    exists f: Field :: f in filters && FailsFilter(e, f, filters[f])
  }

  function Kept<T>(rows: seq<T>, keep: seq<bool>): seq<T>
    requires |keep| == |rows|
  {
    if rows == [] then []
    else
      var n := |rows| - 1;
      Kept(rows[..n], keep[..n]) + (if keep[n] then [rows[n]] else [])
  }

  /** A known failure stays one, whatever enrichment fills in later. */
  lemma FailureIsStable(e: Enterprise, later: Enterprise, c: Constraint)
    requires Enriched(e, later) && Judge(e, c) == Fails && Known(e, c.field)
    ensures Judge(later, c) == Fails
  {
    var f := if c.field.HasOfficeIn? then Locations else c.field;
    assert Known(e, f) && Read(later, f) == Read(e, f);
  }

  /** For an office filter the condition is exact: judged on the address alone, a failure can be undone by locations
      that arrive later. */
  lemma OfficeFailureStableIff(e: Enterprise, place: Value)
    requires Judge(e, Constraint(HasOfficeIn, CONTAINS, place, [])) == Fails
    ensures (forall later :: Enriched(e, later) ==> Judge(later, Constraint(HasOfficeIn, CONTAINS, place, [])) == Fails)
            <==> Truthy(Read(e, Locations))
  {
    var c := Constraint(HasOfficeIn, CONTAINS, place, []);
    if Truthy(Read(e, Locations)) {
      forall later | Enriched(e, later) ensures Judge(later, c) == Fails {
        FailureIsStable(e, later, c);
      }
    } else {
      var later := e[Locations := List([place])];
      EqualIsReflexive(place);
      assert List([place]).items[0] == place;
      assert Enriched(e, later);
      assert Judge(later, c) != Fails;
    }
  }

  /** A constraint that fails is never outvoted: the row is ruled out, or an earlier comparison raised. */
  lemma {:induction false} FailureDecides(e: Enterprise, cs: seq<Constraint>, c: Constraint)
    requires c in cs && Judge(e, c) == Fails
    ensures Evaluated(e, cs).Some? ==> Evaluated(e, cs) == Some(NO_MATCH)
  {
    if Judge(e, cs[0]) != Fails && Judge(e, cs[0]) != Raises {
      assert c in cs[1..];
      FailureDecides(e, cs[1..], c);
    }
  }

  /** Some row on the kept or the dropped side makes the evaluation raise. */
  ghost predicate RowRaises(rows: seq<Enterprise>, keep: seq<bool>, cs: seq<Constraint>, kept: bool)
    requires |keep| == |rows|
  {
    exists i :: 0 <= i < |rows| && keep[i] == kept && Evaluated(rows[i], cs).None?
  }

  lemma {:induction false} HardFilterRaisesIff(rows: seq<Enterprise>, keep: seq<bool>, cs: seq<Constraint>)
    requires |keep| == |rows|
    ensures HardFilter(rows, cs).None? <==> RowRaises(rows, keep, cs, true) || RowRaises(rows, keep, cs, false)
    ensures HardFilter(Kept(rows, keep), cs).None? <==> RowRaises(rows, keep, cs, true)
  {
    if rows != [] {
      var n := |rows| - 1;
      HardFilterRaisesIff(rows[..n], keep[..n], cs);
      RowRaisesSnoc(rows, keep, cs, true);
      RowRaisesSnoc(rows, keep, cs, false);
      var kept := Kept(rows[..n], keep[..n]);
      if keep[n] {
        assert (kept + [rows[n]])[..|kept|] == kept;
      } else {
        assert Kept(rows, keep) == kept;
      }
    }
  }

  lemma RowRaisesSnoc(rows: seq<Enterprise>, keep: seq<bool>, cs: seq<Constraint>, kept: bool)
    requires |keep| == |rows| > 0
    ensures var n := |rows| - 1;
            RowRaises(rows, keep, cs, kept)
            <==> RowRaises(rows[..n], keep[..n], cs, kept) || (keep[n] == kept && Evaluated(rows[n], cs).None?)
  {
    var n := |rows| - 1;
    if RowRaises(rows[..n], keep[..n], cs, kept) {
      var i :| 0 <= i < n && keep[..n][i] == kept && Evaluated(rows[..n][i], cs).None?;
      assert keep[i] == kept && Evaluated(rows[i], cs).None?;
    }
    if RowRaises(rows, keep, cs, kept) {
      var i :| 0 <= i < |rows| && keep[i] == kept && Evaluated(rows[i], cs).None?;
      assert i < n ==> keep[..n][i] == kept && rows[..n][i] == rows[i];
    }
  }

  /** A known failure of a pushed filter leaves nothing to keep, whatever enrichment fills in. */
  lemma DroppedRowFails(cs: seq<Constraint>, cap: Capabilities, plan: Plan, row: Enterprise, later: Enterprise)
    requires PlannedFor(cs, cap, plan) && Enriched(row, later) && KnownFailure(row, plan.providerFilters)
    ensures Evaluated(later, cs).Some? ==> Evaluated(later, cs) == Some(NO_MATCH)
  {
    var f :| f in plan.providerFilters && FailsFilter(row, f, plan.providerFilters[f]);
    assert Get(plan.providerFilters, f) == LastSupported(cs, cap, f);
    PushedIsConstraint(cs, cap, f);
    var c :| c in cs && c.field == f && plan.providerFilters[f] == Pushed(c.operator, c.value);
    assert Judge(row, c) == Fails;
    FailureIsStable(row, later, c);
    FailureDecides(later, cs, c);
  }

  /** While no row raises, hard-filtering the kept rows is hard-filtering all of them. */
  lemma {:induction false} KeptRowsSuffice(rows: seq<Enterprise>, keep: seq<bool>, cs: seq<Constraint>)
    requires |keep| == |rows| && HardFilter(rows, cs).Some?
    requires forall i :: 0 <= i < |rows| && !keep[i] && Evaluated(rows[i], cs).Some? ==> Evaluated(rows[i], cs) == Some(NO_MATCH)
    ensures HardFilter(Kept(rows, keep), cs) == HardFilter(rows, cs)
  {
    if rows != [] {
      var n := |rows| - 1;
      KeptRowsSuffice(rows[..n], keep[..n], cs);
      var kept := Kept(rows[..n], keep[..n]);
      if keep[n] {
        assert (kept + [rows[n]])[..|kept|] == kept;
      } else {
        assert Kept(rows, keep) == kept;
        assert HardFilter(rows, cs).value == HardFilter(rows[..n], cs).value;
      }
    }
  }

  /** Pushing filters down loses nothing: when the provider drops only rows whose known values fail a pushed filter,
      hard-filtering what it returns is hard-filtering the whole universe, even after enrichment filled unknown fields
      and even though two constraints on one field overwrite each other in the pushed dictionary. The one thing that can
      show is an exception of a dropped row, when no kept row raises as well. */
  lemma PushdownLosesNothing(cs: seq<Constraint>, cap: Capabilities, plan: Plan,
                             universe: seq<Enterprise>, keep: seq<bool>, enriched: seq<Enterprise>)
    requires PlannedFor(cs, cap, plan) && |keep| == |universe| == |enriched|
    requires forall i :: 0 <= i < |universe| ==> Enriched(universe[i], enriched[i])
    requires forall i :: 0 <= i < |universe| && !keep[i] ==> KnownFailure(universe[i], plan.providerFilters)
    ensures HardFilter(Kept(enriched, keep), cs) == HardFilter(enriched, cs)
            <==> (RowRaises(enriched, keep, cs, false) ==> RowRaises(enriched, keep, cs, true))
  {
    HardFilterRaisesIff(enriched, keep, cs);
    if HardFilter(enriched, cs).Some? {
      forall i | 0 <= i < |universe| && !keep[i] && Evaluated(enriched[i], cs).Some?
        ensures Evaluated(enriched[i], cs) == Some(NO_MATCH)
      {
        DroppedRowFails(cs, cap, plan, universe[i], enriched[i]);
      }
      KeptRowsSuffice(enriched, keep, cs);
    }
  }

  // ---------------------------------------------------------------------------------------------
  // Inputs at the edge

  /** A bound given as text cannot be compared with the row's number, while another field is known to fail a pushed
      filter: filtering the row raises, and without it nothing does. */
  lemma DroppedRowHidesException()
    ensures var row: Enterprise := map[Named(1) := Int(3), Named(2) := Int(3)];
            var cs := [Constraint(Named(1), GT, Text("7"), [1]), Constraint(Named(2), EQ, Int(5), [2])];
            KnownFailure(row, map[Named(2) := Pushed(EQ, Int(5))])
            && HardFilter([row], cs) == None && HardFilter(Kept([row], [false]), cs) == Some([])
  {
    var row: Enterprise := map[Named(1) := Int(3), Named(2) := Int(3)];
    var cs := [Constraint(Named(1), GT, Text("7"), [1]), Constraint(Named(2), EQ, Int(5), [2])];
    var filters := map[Named(2) := Pushed(EQ, Int(5))];
    assert Named(2) in filters && FailsFilter(row, Named(2), filters[Named(2)]);
    assert Judge(row, cs[0]) == Raises;
    assert [row][..0] == [] && [false][..0] == [];
  }

  /** An enterprise known by an address elsewhere fails an office filter, until a location arrives that meets it. */
  lemma OfficeFailureUndone()
    ensures var c := Constraint(HasOfficeIn, CONTAINS, Text("S"), []);
            var e: Enterprise := map[Address := Text("B")];
            var later: Enterprise := map[Address := Text("B"), Locations := List([Text("S")])];
            Judge(e, c) == Fails && Enriched(e, later) && Judge(later, c) == Passes
  {
    var c := Constraint(HasOfficeIn, CONTAINS, Text("S"), []);
    var e: Enterprise := map[Address := Text("B")];
    var later: Enterprise := map[Address := Text("B"), Locations := List([Text("S")])];
    assert FieldValue(e, HasOfficeIn) == List([Text("B")]);
    assert List([Text("S")]).items[0] == Text("S");
    assert Equal(Text("S"), List([Text("S")]).items[0]);
  }

  // ---------------------------------------------------------------------------------------------
  // What is pushed, what is left, what is enriched

  /** A field's pushed entry is exactly its last constraint that the provider supports. */
  lemma {:induction false} PushedIff(cs: seq<Constraint>, cap: Capabilities, f: Field, entry: Pushed)
    ensures LastSupported(cs, cap, f) == Some(entry) <==>
            exists i :: 0 <= i < |cs| && IsLastSupported(cs, cap, f, i) && entry == Pushed(cs[i].operator, cs[i].value)
  {
    if cs != [] {
      var n := |cs| - 1;
      PushedIff(cs[..n], cap, f, entry);
      if cs[n].field == f && cap.Supports(f, cs[n].operator) {
        assert IsLastSupported(cs, cap, f, n);
      } else {
        forall i | 0 <= i < n ensures IsLastSupported(cs, cap, f, i) <==> IsLastSupported(cs[..n], cap, f, i) {
          LastOfFewer(cs, cap, f, i);
        }
      }
    }
  }

  /** Supported: one of the provider's fields, with an operator the provider lists for it. */
  ghost predicate IsLastSupported(cs: seq<Constraint>, cap: Capabilities, f: Field, i: int)
    requires 0 <= i < |cs|
  {
    && OnSupportedField(cs[i], cap, f)
    && forall j :: i < j < |cs| ==> !OnSupportedField(cs[j], cap, f)
  }

  predicate OnSupportedField(c: Constraint, cap: Capabilities, f: Field) {
    c.field == f && f in cap.fields && f in cap.operators && c.operator in cap.operators[f]
  }

  lemma LastOfFewer(cs: seq<Constraint>, cap: Capabilities, f: Field, i: nat)
    requires i < |cs| - 1 && !OnSupportedField(cs[|cs| - 1], cap, f)
    ensures IsLastSupported(cs, cap, f, i) <==> IsLastSupported(cs[..|cs| - 1], cap, f, i)
  {
    var front := cs[..|cs| - 1];
    if IsLastSupported(cs, cap, f, i) {
      forall j | i < j < |front| ensures !OnSupportedField(front[j], cap, f) {
        assert front[j] == cs[j];
      }
    }
    if IsLastSupported(front, cap, f, i) {
      forall j | i < j < |cs| ensures !OnSupportedField(cs[j], cap, f) {
        assert j < |front| ==> front[j] == cs[j];
      }
    }
  }

  /** What is left for the post filter keeps its order. */
  lemma {:induction false} UnsupportedAppend(cs: seq<Constraint>, ds: seq<Constraint>, cap: Capabilities)
    ensures Unsupported(cs + ds, cap) == Unsupported(cs, cap) + Unsupported(ds, cap)
  {
    if ds == [] {
      assert cs + ds == cs && Unsupported(cs, cap) + [] == Unsupported(cs, cap);
    } else {
      var n := |ds| - 1;
      assert (cs + ds)[..|cs + ds| - 1] == cs + ds[..n];
      UnsupportedAppend(cs, ds[..n], cap);
    }
  }

  /** Enrichment is asked for exactly the fields of the constraints that are left, each once. */
  lemma {:induction false} EnrichmentListsEachOnce(cs: seq<Constraint>)
    ensures forall f :: f in FirstFields(cs) <==> exists c <- cs :: c.field == f
    ensures forall i, j :: 0 <= i < j < |FirstFields(cs)| ==> FirstFields(cs)[i] != FirstFields(cs)[j]
  {
    if cs != [] {
      var n := |cs| - 1;
      EnrichmentListsEachOnce(cs[..n]);
      assert cs == cs[..n] + [cs[n]];
    }
  }

  /** And in the order of their first constraints. */
  lemma {:induction false} EnrichmentInOrder(cs: seq<Constraint>, n: nat)
    requires n <= |cs|
    ensures FirstFields(cs[..n]) <= FirstFields(cs)
  {
    if n == |cs| {
      assert cs[..n] == cs;
    } else {
      assert cs[..|cs| - 1][..n] == cs[..n];
      EnrichmentInOrder(cs[..|cs| - 1], n);
    }
  }

  /** The hard filter keeps exactly the rows that are not ruled out, each in its place. */
  lemma {:induction false} HardFilterPlaces(rows: seq<Enterprise>, cs: seq<Constraint>) returns (places: seq<nat>)
    requires HardFilter(rows, cs).Some?
    ensures forall k, l :: 0 <= k < l < |places| ==> places[k] < places[l]
    ensures forall k :: 0 <= k < |places| ==> places[k] < |rows|
    ensures forall n :: 0 <= n < |rows| ==> (n in places <==> Evaluated(rows[n], cs) != Some(NO_MATCH))
    ensures |places| == |HardFilter(rows, cs).value|
    ensures forall k :: 0 <= k < |places| ==> HardFilter(rows, cs).value[k] == rows[places[k]]
  {
    hide Evaluated;
    places := [];
    if rows != [] {
      var n := |rows| - 1;
      places := HardFilterPlaces(rows[..n], cs);
      assert forall m <- places :: m < n;
      assert forall m :: 0 <= m < n ==> rows[..n][m] == rows[m];
      if Evaluated(rows[n], cs) != Some(NO_MATCH) {
        places := places + [n];
      }
    }
  }
}
