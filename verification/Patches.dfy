/** Task patches: applying one, previewing it, and telling when it has no effect. */
module Patches {
  import opened Basics
  import opened Values

  datatype Kind = HARD | SOFT | INFO

  /** One entry of a task's constraint list; absent dictionary keys are None. */
  datatype Constraint = Constraint(field: Id, operator: Option<Operator>, value: Option<Value>, kind: Option<Kind>)

  datatype Operation = ADD | UPDATE | REMOVE | CLEAR

  datatype ConstraintPatch = ConstraintPatch(operation: Operation, item: Constraint)
  {
    predicate Removes() { operation.REMOVE? || operation.CLEAR? }
  }

  datatype Patch = Patch(
    business: Option<Id>, region: Option<Id>, targetCount: Option<int>, constraints: seq<ConstraintPatch>,
    requiredFields: Option<seq<Id>>, exportFields: Option<seq<Id>>)

  /** What a patch can change in a task, and what every task version records. */
  datatype Content = Content(
    business: Option<Id>, region: Option<Id>, targetCount: Option<int>, constraints: seq<Constraint>,
    requiredFields: seq<Id>, exportFields: seq<Id>)

  /** A scalar the patch leaves out keeps its value. */
  function Or<T>(patch: Option<T>, current: Option<T>): Option<T> {
    if patch.Some? then patch else current
  }

  // ---------------------------------------------------------------------------------------------
  // What a patch means

  function Without(cs: seq<Constraint>, fields: set<Id>): seq<Constraint> {
    if cs == [] then []
    else (if cs[0].field in fields then [] else [cs[0]]) + Without(cs[1..], fields)
  }

  function Touched(ops: seq<ConstraintPatch>): set<Id> {
    if ops == [] then {} else {ops[0].item.field} + Touched(ops[1..])
  }

  /** The constraints written by operations that no later operation on the same field follows. */
  function LastWrites(ops: seq<ConstraintPatch>): seq<Constraint> {
    if ops == [] then []
    else
      (if ops[0].Removes() || ops[0].item.field in Touched(ops[1..]) then [] else [ops[0].item]) + LastWrites(ops[1..])
  }

  /** Untouched constraints keep their place; after them, each touched field's last write in patch order. */
  function PatchedConstraints(cs: seq<Constraint>, ops: seq<ConstraintPatch>): seq<Constraint> {
    Without(cs, Touched(ops)) + LastWrites(ops)
  }

  function Patched(c: Content, p: Patch): Content {
    Content(Or(p.business, c.business), Or(p.region, c.region), Or(p.targetCount, c.targetCount),
            PatchedConstraints(c.constraints, p.constraints),
            p.requiredFields.GetOr(c.requiredFields), p.exportFields.GetOr(c.exportFields))
  }

  // ---------------------------------------------------------------------------------------------
  // Applying a patch

  lemma {:induction false} WithoutMember(cs: seq<Constraint>, fields: set<Id>, c: Constraint)
    ensures c in Without(cs, fields) <==> c in cs && c.field !in fields
  {
    if cs != [] {
      WithoutMember(cs[1..], fields, c);
    }
  }

  lemma {:induction false} WithoutTwice(cs: seq<Constraint>, a: set<Id>, b: set<Id>)
    ensures Without(Without(cs, a), b) == Without(cs, a + b)
  {
    if cs != [] {
      WithoutTwice(cs[1..], a, b);
      var head := if cs[0].field in a then [] else [cs[0]];
      WithoutAppend(head, Without(cs[1..], a), b);
    }
  }

  lemma {:induction false} WithoutAppend(cs: seq<Constraint>, ds: seq<Constraint>, fields: set<Id>)
    ensures Without(cs + ds, fields) == Without(cs, fields) + Without(ds, fields)
  {
    if cs == [] {
      assert cs + ds == ds;
    } else {
      assert (cs + ds)[1..] == cs[1..] + ds;
      WithoutAppend(cs[1..], ds, fields);
    }
  }

  lemma {:induction false} WithoutDisjoint(cs: seq<Constraint>, fields: set<Id>)
    requires forall c <- cs :: c.field !in fields
    ensures Without(cs, fields) == cs
  {
    if cs != [] {
      WithoutDisjoint(cs[1..], fields);
      assert cs == [cs[0]] + cs[1..];
    }
  }

  lemma NothingTouched(cs: seq<Constraint>)
    ensures PatchedConstraints(cs, []) == cs
  {
    WithoutDisjoint(cs, {});
  }

  lemma {:induction false} WithoutAll(cs: seq<Constraint>, fields: set<Id>)
    requires forall c <- cs :: c.field in fields
    ensures Without(cs, fields) == []
  {
    if cs != [] {
      WithoutAll(cs[1..], fields);
    }
  }

  lemma {:induction false} TouchedAppend(ops: seq<ConstraintPatch>, more: seq<ConstraintPatch>)
    ensures Touched(ops + more) == Touched(ops) + Touched(more)
  {
    if ops == [] {
      assert ops + more == more;
    } else {
      assert (ops + more)[1..] == ops[1..] + more;
      TouchedAppend(ops[1..], more);
    }
  }

  lemma {:induction false} LastWritesTouch(ops: seq<ConstraintPatch>)
    ensures forall c <- LastWrites(ops) :: c.field in Touched(ops)
  {
    if ops != [] {
      LastWritesTouch(ops[1..]);
    }
  }

  /** One more operation drops its field's earlier write and appends its own. */
  lemma {:induction false} LastWritesSnoc(ops: seq<ConstraintPatch>, op: ConstraintPatch)
    ensures LastWrites(ops + [op]) == Without(LastWrites(ops), {op.item.field}) + (if op.Removes() then [] else [op.item])
  {
    if ops == [] {
      assert ops + [op] == [op];
      assert LastWrites([op][1..]) == [];
    } else {
      var rest := ops[1..];
      assert (ops + [op])[1..] == rest + [op] && (ops + [op])[0] == ops[0];
      LastWritesSnoc(rest, op);
      TouchedAppend(rest, [op]);
      assert Touched([op]) == {op.item.field};
      var field := ops[0].item.field;
      var head := if ops[0].Removes() || field in Touched(rest) then [] else [ops[0].item];
      WithoutAppend(head, LastWrites(rest), {op.item.field});
      assert Without(head, {op.item.field}) == if field == op.item.field then [] else head;
    }
  }

  /** One operation after others: filter its field out of the list so far, then append what it writes. */
  lemma PatchedSnoc(cs: seq<Constraint>, ops: seq<ConstraintPatch>, op: ConstraintPatch)
    ensures PatchedConstraints(cs, ops + [op]) ==
            Without(PatchedConstraints(cs, ops), {op.item.field}) + (if op.Removes() then [] else [op.item])
  {
    TouchedAppend(ops, [op]);
    assert Touched([op]) == {op.item.field};
    LastWritesSnoc(ops, op);
    WithoutTwice(cs, Touched(ops), {op.item.field});
    WithoutAppend(Without(cs, Touched(ops)), LastWrites(ops), {op.item.field});
  }

  method DropField(cs: seq<Constraint>, field: Id) returns (existing: seq<Constraint>)
    ensures existing == Without(cs, {field})
  {
    existing := [];
    for j := 0 to |cs|
      invariant existing == Without(cs[..j], {field})
    {
      assert cs[..j + 1] == cs[..j] + [cs[j]];
      WithoutAppend(cs[..j], [cs[j]], {field});
      if cs[j].field != field {
        existing := existing + [cs[j]];
      }
    }
    assert cs[..|cs|] == cs;
  }

  /** The list rewriting of apply_patch_pure. */
  method ApplyConstraints(cs: seq<Constraint>, ops: seq<ConstraintPatch>) returns (current: seq<Constraint>)
    ensures current == PatchedConstraints(cs, ops)
  {
    current := cs;
    NothingTouched(cs);
    for i := 0 to |ops|
      invariant current == PatchedConstraints(cs, ops[..i])
    {
      assert ops[..i + 1] == ops[..i] + [ops[i]];
      PatchedSnoc(cs, ops[..i], ops[i]);
      current := DropField(current, ops[i].item.field);
      if !ops[i].Removes() {
        current := current + [ops[i].item];
      }
    }
    assert ops[..|ops|] == ops;
  }

  method ApplyPatchPure(c: Content, p: Patch) returns (r: Content)
    ensures r == Patched(c, p)
    ensures r.business == (if p.business.Some? then p.business else c.business)
    ensures r.region == (if p.region.Some? then p.region else c.region)
    ensures r.targetCount == (if p.targetCount.Some? then p.targetCount else c.targetCount)
    ensures r.requiredFields == (if p.requiredFields.Some? then p.requiredFields.value else c.requiredFields)
    ensures r.exportFields == (if p.exportFields.Some? then p.exportFields.value else c.exportFields)
  {
    r := c;
    if p.business.Some? {
      r := r.(business := p.business);
    }
    if p.region.Some? {
      r := r.(region := p.region);
    }
    if p.targetCount.Some? {
      r := r.(targetCount := p.targetCount);
    }
    if p.requiredFields.Some? {
      r := r.(requiredFields := p.requiredFields.value);
    }
    if p.exportFields.Some? {
      r := r.(exportFields := p.exportFields.value);
    }
    var constraints := ApplyConstraints(c.constraints, p.constraints);
    r := r.(constraints := constraints);
  }

  lemma ConstraintsIdempotent(cs: seq<Constraint>, ops: seq<ConstraintPatch>)
    ensures PatchedConstraints(PatchedConstraints(cs, ops), ops) == PatchedConstraints(cs, ops)
  {
    hide Touched, Without, LastWrites;
    var fields := Touched(ops);
    var kept, written := Without(cs, fields), LastWrites(ops);
    WithoutAppend(kept, written, fields);
    WithoutTwice(cs, fields, fields);
    LastWritesTouch(ops);
    WithoutAll(written, fields);
    assert fields + fields == fields && kept + [] == kept;
  }

  /** Applying the same patch twice is applying it once, order of the list included. */
  lemma PatchIsIdempotent(c: Content, p: Patch)
    ensures Patched(Patched(c, p), p) == Patched(c, p)
  {
    ConstraintsIdempotent(c.constraints, p.constraints);
  }

  // ---------------------------------------------------------------------------------------------
  // One constraint per field

  /** {item["field"]: item for item in constraints}: a later entry replaces an earlier one. */
  function ByField(cs: seq<Constraint>): map<Id, Constraint> {
    if cs == [] then map[]
    else ByField(cs[..|cs| - 1])[cs[|cs| - 1].field := cs[|cs| - 1]]
  }

  ghost predicate UniqueFields(cs: seq<Constraint>) {
    forall i, j :: 0 <= i < j < |cs| ==> cs[i].field != cs[j].field
  }

  lemma {:induction false} LastWritesUnique(ops: seq<ConstraintPatch>)
    ensures UniqueFields(LastWrites(ops))
  {
    if ops != [] {
      LastWritesUnique(ops[1..]);
      LastWritesTouch(ops[1..]);
    }
  }

  lemma {:induction false} WithoutUnique(cs: seq<Constraint>, fields: set<Id>)
    requires UniqueFields(cs)
    ensures UniqueFields(Without(cs, fields))
  {
    if cs != [] {
      WithoutUnique(cs[1..], fields);
      forall c <- Without(cs[1..], fields) ensures c.field != cs[0].field {
        WithoutMember(cs[1..], fields, c);
        var i :| 0 <= i < |cs[1..]| && cs[1..][i] == c;
        assert cs[i + 1] == c;
      }
    }
  }

  /** A list with at most one constraint per field stays that way. */
  lemma PatchKeepsUniqueFields(cs: seq<Constraint>, ops: seq<ConstraintPatch>)
    requires UniqueFields(cs)
    ensures UniqueFields(PatchedConstraints(cs, ops))
  {
    WithoutUnique(cs, Touched(ops));
    LastWritesUnique(ops);
    LastWritesTouch(ops);
    forall c <- Without(cs, Touched(ops)) ensures c.field !in Touched(ops) {
      WithoutMember(cs, Touched(ops), c);
    }
  }

  /** In a list without repeated fields, looking a field up finds exactly the constraint on it. */
  lemma {:induction false} UniqueLookup(cs: seq<Constraint>, f: Id, c: Constraint)
    requires UniqueFields(cs)
    ensures Get(ByField(cs), f) == Some(c) <==> c in cs && c.field == f
  {
    if cs != [] {
      var n := |cs| - 1;
      assert cs == cs[..n] + [cs[n]];
      UniqueLookup(cs[..n], f, c);
    }
  }

  /** The last operation on a field, if any. */
  function LastOp(ops: seq<ConstraintPatch>, f: Id): Option<ConstraintPatch> {
    if ops == [] then None
    else if ops[|ops| - 1].item.field == f then Some(ops[|ops| - 1])
    else LastOp(ops[..|ops| - 1], f)
  }

  lemma {:induction false} ByFieldAppend(cs: seq<Constraint>, ds: seq<Constraint>)
    ensures ByField(cs + ds) == ByField(cs) + ByField(ds)
  {
    if ds == [] {
      assert cs + ds == cs;
    } else {
      var n := |ds| - 1;
      assert (cs + ds)[..|cs + ds| - 1] == cs + ds[..n];
      ByFieldAppend(cs, ds[..n]);
    }
  }

  lemma ByFieldOne(c: Constraint)
    ensures ByField([c]) == map[c.field := c]
  {
    assert [c][..0] == [];
  }

  lemma {:induction false} ByFieldWithout(cs: seq<Constraint>, fields: set<Id>)
    ensures ByField(Without(cs, fields)) == ByField(cs) - fields
  {
    if cs != [] {
      var n := |cs| - 1;
      assert cs == cs[..n] + [cs[n]];
      WithoutAppend(cs[..n], [cs[n]], fields);
      ByFieldWithout(cs[..n], fields);
      if cs[n].field in fields {
        assert Without([cs[n]], fields) == [];
        assert Without(cs, fields) == Without(cs[..n], fields);
        assert ByField(cs) - fields == ByField(cs[..n]) - fields;
      } else {
        assert Without([cs[n]], fields) == [cs[n]];
        ByFieldAppend(Without(cs[..n], fields), [cs[n]]);
        ByFieldOne(cs[n]);
      }
    }
  }

  /** Last writer wins: the field maps to its last operation's item, is gone if that removes it, and otherwise keeps
      its constraint. */
  lemma {:induction false} LastWriterWins(cs: seq<Constraint>, ops: seq<ConstraintPatch>, f: Id)
    ensures Get(ByField(PatchedConstraints(cs, ops)), f) ==
            (match LastOp(ops, f)
             case None => Get(ByField(cs), f)
             case Some(op) => if op.Removes() then None else Some(op.item))
  {
    if ops == [] {
      NothingTouched(cs);
    } else {
      var n := |ops| - 1;
      var front, op := ops[..n], ops[n];
      assert ops == front + [op];
      LastWriterWins(cs, front, f);
      PatchedSnoc(cs, front, op);
      var before := PatchedConstraints(cs, front);
      var written := if op.Removes() then [] else [op.item];
      ByFieldAppend(Without(before, {op.item.field}), written);
      ByFieldWithout(before, {op.item.field});
      ByFieldOne(op.item);
    }
  }

  // ---------------------------------------------------------------------------------------------
  // What the mutation service compares to decide that a patch has no effect (scope NONE)

  datatype TaskDiff = TaskDiff(
    business: bool, region: bool, targetCount: bool, requiredFields: bool, exportFields: bool,
    constraintFields: set<Id>, hardConstraints: bool, softConstraints: bool)
  {
    predicate IsEmpty() {
      !business && !region && !targetCount && !requiredFields && !exportFields
      && constraintFields == {} && !hardConstraints && !softConstraints
    }
  }

  /** Equality of two dictionary entries, values compared as Python compares them: 2 equals 2.0. */
  predicate SameConstraint(c: Constraint, d: Constraint) {
    c.(value := None) == d.(value := None)
    && (c.value.Some? <==> d.value.Some?) && (c.value.Some? ==> Equal(c.value.value, d.value.value))
  }

  predicate SameEntry(c: Option<Constraint>, d: Option<Constraint>) {
    if c.Some? && d.Some? then SameConstraint(c.value, d.value) else c == d
  }

  /** The entry calculate_task_diff inspects for a changed field: the old one if there was one. */
  function ChangedValue(before: map<Id, Constraint>, after: map<Id, Constraint>, f: Id): Option<Constraint> {
    if f in before then Some(before[f]) else Get(after, f)
  }

  function ChangedFields(was: map<Id, Constraint>, now: map<Id, Constraint>): set<Id> {
    set f | f in was.Keys + now.Keys && !SameEntry(Get(was, f), Get(now, f))
  }

  function CalculateTaskDiff(before: Content, after: Content): TaskDiff {
    var was, now := ByField(before.constraints), ByField(after.constraints);
    var changed := ChangedFields(was, now);
    TaskDiff(
      before.business != after.business, before.region != after.region, before.targetCount != after.targetCount,
      before.requiredFields != after.requiredFields, before.exportFields != after.exportFields, changed,
      exists f <- changed :: ChangedValue(was, now, f).Some? && ChangedValue(was, now, f).value.kind.GetOr(HARD) == HARD,
      exists f <- changed :: ChangedValue(was, now, f).Some? && ChangedValue(was, now, f).value.kind == Some(SOFT))
  }

  /** One hard constraint or ranking preference as the criteria diff identifies it. */
  datatype CriteriaKey = CriteriaKey(field: Id, operator: Operator, value: Value)

  predicate HasValue(c: Constraint) {
    c.value.Some? && !c.value.value.Null?
  }

  /** criteria_from_task: entries without a value are skipped, SOFT ones become preferences, the rest hard. */
  function CriteriaKeys(cs: seq<Constraint>, soft: bool): set<CriteriaKey> {
    set c | c in cs && HasValue(c) && (c.kind == Some(SOFT)) == soft
      :: CriteriaKey(c.field, c.operator.GetOr(EQ), c.value.value)
  }

  function OnField(keys: set<CriteriaKey>, f: Id): set<CriteriaKey> {
    set k | k in keys && k.field == f
  }

  function FieldsOf(keys: set<CriteriaKey>): set<Id> {
    set k | k in keys :: k.field
  }

  /** _split_changes: the fields whose groups were added, removed or changed. */
  function SplitChanges(was: set<CriteriaKey>, now: set<CriteriaKey>): (set<Id>, set<Id>, set<Id>) {
    var fields := FieldsOf(was) + FieldsOf(now);
    (set f | f in fields && OnField(was, f) == {},
     set f | f in fields && OnField(was, f) != {} && OnField(now, f) == {},
     set f | f in fields && OnField(was, f) != {} && OnField(now, f) != {} && OnField(was, f) != OnField(now, f))
  }

  /** Task scalars as criteria_from_task reads them; business codes go through an alias table. */
  function Target(c: Content): int {
    if c.targetCount.GetOr(0) == 0 then 1 else c.targetCount.value
  }

  predicate CriteriaDiffIsEmpty(before: Content, after: Content, code: Option<Id> -> Id) {
    SplitChanges(CriteriaKeys(before.constraints, false), CriteriaKeys(after.constraints, false)) == ({}, {}, {})
    && SplitChanges(CriteriaKeys(before.constraints, true), CriteriaKeys(after.constraints, true)) == ({}, {}, {})
    && code(before.business) == code(after.business) && before.region == after.region && Target(before) == Target(after)
  }

  /** The first branch of classify_invalidation. */
  predicate ScopeIsNone(before: Content, after: Content, code: Option<Id> -> Id) {
    CalculateTaskDiff(before, after).IsEmpty() && CriteriaDiffIsEmpty(before, after, code)
  }

  /** Same scalars and field lists. */
  predicate SameScalars(c: Content, d: Content) {
    c.business == d.business && c.region == d.region && c.targetCount == d.targetCount
    && c.requiredFields == d.requiredFields && c.exportFields == d.exportFields
  }

  /** Nothing a reader of the task can tell apart: the very same constraint on every field. */
  predicate SameEffect(c: Content, d: Content) {
    SameScalars(c, d) && ByField(c.constraints) == ByField(d.constraints)
  }

  lemma SameConstraintReflexive(c: Constraint)
    ensures SameConstraint(c, c)
  {
    if c.value.Some? {
      EqualIsReflexive(c.value.value);
    }
  }

  ghost predicate SameByField(was: map<Id, Constraint>, now: map<Id, Constraint>) {
    forall f: Id :: SameEntry(Get(was, f), Get(now, f))
  }

  /** The task diff compares with Python's equality, field by field. */
  lemma TaskDiffEmptyIff(before: Content, after: Content)
    ensures CalculateTaskDiff(before, after).IsEmpty()
            <==> SameScalars(before, after) && SameByField(ByField(before.constraints), ByField(after.constraints))
  {
    var was, now := ByField(before.constraints), ByField(after.constraints);
    var diff, changed := CalculateTaskDiff(before, after), ChangedFields(was, now);
    assert diff.constraintFields == changed;
    if changed == {} {
      forall f: Id ensures SameEntry(Get(was, f), Get(now, f)) {
        assert f !in changed;
      }
    } else {
      assert (forall f :: f !in changed) ==> changed == {};
      var f :| f in changed;
      assert !SameEntry(Get(was, f), Get(now, f));
    }
  }

  lemma SplitChangesEmptyIff(was: set<CriteriaKey>, now: set<CriteriaKey>)
    ensures SplitChanges(was, now) == ({}, {}, {}) <==> was == now
  {
    if was == now {
      forall f | f in FieldsOf(was) ensures OnField(was, f) != {} {
        var k :| k in was && k.field == f;
        assert k in OnField(was, f);
      }
      var (added, removed, changed) := SplitChanges(was, now);
      assert added == {} && removed == {} && changed == {};
    } else {
      var k :| k in was + now && (k in was) != (k in now);
      var f := k.field;
      assert f in FieldsOf(was) + FieldsOf(now);
      assert (k in OnField(was, f)) != (k in OnField(now, f));
      var (added, removed, changed) := SplitChanges(was, now);
      assert f in added || f in removed || f in changed;
    }
  }

  /** Two lists without repeated fields hold the same constraints exactly when their field maps agree. */
  lemma UniqueSameMap(cs: seq<Constraint>, ds: seq<Constraint>)
    requires UniqueFields(cs) && UniqueFields(ds) && ByField(cs) == ByField(ds)
    ensures forall c :: c in cs <==> c in ds
  {
    forall c ensures c in cs <==> c in ds {
      UniqueLookup(cs, c.field, c);
      UniqueLookup(ds, c.field, c);
    }
  }

  lemma {:induction false} ByFieldMember(cs: seq<Constraint>, f: Id)
    ensures f in ByField(cs) ==> ByField(cs)[f] in cs && ByField(cs)[f].field == f
  {
    if cs != [] {
      ByFieldMember(cs[..|cs| - 1], f);
      assert cs == cs[..|cs| - 1] + [cs[|cs| - 1]];
    }
  }

  /** In a patched list a touched field occurs at most once. */
  lemma TouchedOccursOnce(cs: seq<Constraint>, ops: seq<ConstraintPatch>, c: Constraint, d: Constraint)
    requires c in PatchedConstraints(cs, ops) && d in PatchedConstraints(cs, ops)
    requires c.field == d.field && c.field in Touched(ops)
    ensures c == d
  {
    WithoutMember(cs, Touched(ops), c);
    WithoutMember(cs, Touched(ops), d);
    LastWritesUnique(ops);
    assert c in LastWrites(ops) && d in LastWrites(ops);
  }

  /** The constraint lists name the same keys on each side, hard and soft. */
  predicate SameKeys(cs: seq<Constraint>, ds: seq<Constraint>) {
    CriteriaKeys(cs, false) == CriteriaKeys(ds, false) && CriteriaKeys(cs, true) == CriteriaKeys(ds, true)
  }

  /** Equal in Python's sense and with the same keys, a touched field holds the very same constraint. */
  lemma TouchedIsSame(cs: seq<Constraint>, ops: seq<ConstraintPatch>, f: Id)
    requires SameKeys(cs, PatchedConstraints(cs, ops)) && f in Touched(ops)
    requires SameEntry(Get(ByField(cs), f), Get(ByField(PatchedConstraints(cs, ops)), f))
    ensures Get(ByField(cs), f) == Get(ByField(PatchedConstraints(cs, ops)), f)
  {
    var ds := PatchedConstraints(cs, ops);
    if f in ByField(cs) {
      var c, d := ByField(cs)[f], ByField(ds)[f];
      ByFieldMember(cs, f);
      ByFieldMember(ds, f);
      if HasValue(c) {
        var key, soft := CriteriaKey(f, c.operator.GetOr(EQ), c.value.value), c.kind == Some(SOFT);
        assert key in CriteriaKeys(cs, soft);
        assert key in CriteriaKeys(ds, soft);
        var e :| e in ds && HasValue(e) && key == CriteriaKey(e.field, e.operator.GetOr(EQ), e.value.value);
        TouchedOccursOnce(cs, ops, d, e);
      }
    }
  }

  lemma {:induction false} UntouchedHasNoLastOp(ops: seq<ConstraintPatch>, f: Id)
    ensures LastOp(ops, f).None? <==> f !in Touched(ops)
  {
    if ops != [] {
      var n := |ops| - 1;
      UntouchedHasNoLastOp(ops[..n], f);
      TouchedAppend(ops[..n], [ops[n]]);
      assert ops == ops[..n] + [ops[n]] && Touched([ops[n]]) == {ops[n].item.field};
    }
  }

  lemma ScopeIsNoneIff(before: Content, after: Content, code: Option<Id> -> Id)
    ensures ScopeIsNone(before, after, code)
            <==> CalculateTaskDiff(before, after).IsEmpty() && SameKeys(before.constraints, after.constraints)
  {
    SplitChangesEmptyIff(CriteriaKeys(before.constraints, false), CriteriaKeys(after.constraints, false));
    SplitChangesEmptyIff(CriteriaKeys(before.constraints, true), CriteriaKeys(after.constraints, true));
    TaskDiffEmptyIff(before, after);
  }

  /** Scope NONE never hides an effect: the version it skips would have had the very same content, although the task
      diff alone would overlook a 2 replaced by 2.0. */
  lemma NoneMeansNoEffect(before: Content, p: Patch, code: Option<Id> -> Id)
    requires ScopeIsNone(before, Patched(before, p), code)
    ensures SameEffect(before, Patched(before, p))
  {
    var cs, ds := before.constraints, Patched(before, p).constraints;
    ScopeIsNoneIff(before, Patched(before, p), code);
    TaskDiffEmptyIff(before, Patched(before, p));
    forall f ensures Get(ByField(cs), f) == Get(ByField(ds), f) {
      assert SameEntry(Get(ByField(cs), f), Get(ByField(ds), f));
      LastWriterWins(cs, p.constraints, f);
      UntouchedHasNoLastOp(p.constraints, f);
      if f in Touched(p.constraints) {
        TouchedIsSame(cs, p.constraints, f);
      }
    }
    SameEntries(ByField(cs), ByField(ds));
  }

  lemma SameEntries(m: map<Id, Constraint>, n: map<Id, Constraint>)
    requires forall f :: Get(m, f) == Get(n, f)
    ensures m == n
  {
    forall f ensures f in m <==> f in n {
      assert Get(m, f) == Get(n, f);
    }
    forall f | f in m ensures m[f] == n[f] {
      assert Get(m, f) == Get(n, f);
    }
  }

  /** With at most one constraint per field, a patch is classified NONE exactly when it has no effect. */
  lemma NoneIffNoEffect(before: Content, p: Patch, code: Option<Id> -> Id)
    requires UniqueFields(before.constraints)
    ensures ScopeIsNone(before, Patched(before, p), code) <==> SameEffect(before, Patched(before, p))
  {
    var after := Patched(before, p);
    if ScopeIsNone(before, after, code) {
      NoneMeansNoEffect(before, p, code);
    }
    if SameEffect(before, after) {
      PatchKeepsUniqueFields(before.constraints, p.constraints);
      UniqueSameMap(before.constraints, after.constraints);
      assert SameKeys(before.constraints, after.constraints);
      forall f: Id ensures SameEntry(Get(ByField(before.constraints), f), Get(ByField(after.constraints), f)) {
        if f in ByField(before.constraints) {
          SameConstraintReflexive(ByField(before.constraints)[f]);
        }
      }
      TaskDiffEmptyIff(before, after);
      ScopeIsNoneIff(before, after, code);
    }
  }

  // ---------------------------------------------------------------------------------------------
  // Scope NONE, read off the patch itself

  /** No later operation is on the same field. */
  ghost predicate LastOnField(ops: seq<ConstraintPatch>, i: nat)
    requires i < |ops|
  {
    forall j :: i < j < |ops| ==> ops[j].item.field != ops[i].item.field
  }

  /** Every constraint operation that no later one overrides asks for what is there already. */
  ghost predicate OpsAreIdle(cs: seq<Constraint>, ops: seq<ConstraintPatch>) {
    forall i :: 0 <= i < |ops| && LastOnField(ops, i) ==>
      if ops[i].Removes() then forall c <- cs :: c.field != ops[i].item.field else ops[i].item in cs
  }

  /** Whatever the patch sets, the task has already. */
  ghost predicate AsksForNothing(c: Content, p: Patch) {
    && (p.business.Some? ==> p.business == c.business)
    && (p.region.Some? ==> p.region == c.region)
    && (p.targetCount.Some? ==> p.targetCount == c.targetCount)
    && (p.requiredFields.Some? ==> p.requiredFields.value == c.requiredFields)
    && (p.exportFields.Some? ==> p.exportFields.value == c.exportFields)
    && OpsAreIdle(c.constraints, p.constraints)
  }

  lemma {:induction false} LastOpIs(ops: seq<ConstraintPatch>, f: Id)
    ensures forall i :: 0 <= i < |ops| && LastOnField(ops, i) && ops[i].item.field == f ==> LastOp(ops, f) == Some(ops[i])
    ensures LastOp(ops, f).Some? ==>
              exists i :: 0 <= i < |ops| && LastOnField(ops, i) && ops[i] == LastOp(ops, f).value && ops[i].item.field == f
  {
    if ops != [] {
      var n := |ops| - 1;
      var front := ops[..n];
      LastOpIs(front, f);
      if ops[n].item.field == f {
        assert LastOnField(ops, n);
      } else {
        forall i | 0 <= i < n && ops[i].item.field == f ensures LastOnField(ops, i) <==> LastOnField(front, i) {
        }
        if LastOp(front, f).Some? {
          var i :| 0 <= i < n && LastOnField(front, i) && front[i] == LastOp(front, f).value && front[i].item.field == f;
          assert LastOnField(ops, i) && ops[i] == front[i];
        }
      }
    }
  }

  lemma {:induction false} NoEntryIff(cs: seq<Constraint>, f: Id)
    ensures Get(ByField(cs), f).None? <==> forall c <- cs :: c.field != f
  {
    if cs != [] {
      var n := |cs| - 1;
      NoEntryIff(cs[..n], f);
      assert cs == cs[..n] + [cs[n]];
    }
  }

  lemma IdleOpsKeep(cs: seq<Constraint>, ops: seq<ConstraintPatch>, f: Id)
    requires UniqueFields(cs) && OpsAreIdle(cs, ops)
    ensures Get(ByField(PatchedConstraints(cs, ops)), f) == Get(ByField(cs), f)
  {
    hide ByField, PatchedConstraints;
    LastWriterWins(cs, ops, f);
    LastOpIs(ops, f);
    if LastOp(ops, f).Some? {
      var i :| 0 <= i < |ops| && LastOnField(ops, i) && ops[i] == LastOp(ops, f).value && ops[i].item.field == f;
      NoEntryIff(cs, f);
      UniqueLookup(cs, f, ops[i].item);
    }
  }

  /** A patch classified NONE asks for nothing new, repeated fields in the task included. */
  lemma NoneAsksForNothing(c: Content, p: Patch, code: Option<Id> -> Id)
    requires ScopeIsNone(c, Patched(c, p), code)
    ensures AsksForNothing(c, p)
  {
    NoneMeansNoEffect(c, p, code);
    var cs, ops := c.constraints, p.constraints;
    assert ByField(cs) == ByField(PatchedConstraints(cs, ops));
    hide ScopeIsNone, ByField, PatchedConstraints;
    forall i | 0 <= i < |ops| && LastOnField(ops, i)
      ensures if ops[i].Removes() then forall d <- cs :: d.field != ops[i].item.field else ops[i].item in cs
    {
      var f := ops[i].item.field;
      LastWriterWins(cs, ops, f);
      LastOpIs(ops, f);
      NoEntryIff(cs, f);
      ByFieldMember(cs, f);
    }
  }

  /** With at most one constraint per field, a patch is classified NONE exactly when it asks for nothing new. */
  lemma NoneIffAsksForNothing(c: Content, p: Patch, code: Option<Id> -> Id)
    requires UniqueFields(c.constraints)
    ensures ScopeIsNone(c, Patched(c, p), code) <==> AsksForNothing(c, p)
  {
    if ScopeIsNone(c, Patched(c, p), code) {
      NoneAsksForNothing(c, p, code);
    }
    if AsksForNothing(c, p) {
      forall f ensures Get(ByField(c.constraints), f) == Get(ByField(Patched(c, p).constraints), f) {
        IdleOpsKeep(c.constraints, p.constraints, f);
      }
      SameEntries(ByField(c.constraints), ByField(Patched(c, p).constraints));
      NoneIffNoEffect(c, p, code);
    }
  }

  // ---------------------------------------------------------------------------------------------
  // Operations, and what the previews show

  /** REMOVE and CLEAR take the field's constraint away, ADD and UPDATE put theirs in its place. */
  lemma LastOperationDecides(cs: seq<Constraint>, ops: seq<ConstraintPatch>, op: ConstraintPatch)
    ensures var after := Get(ByField(PatchedConstraints(cs, ops + [op])), op.item.field);
            match op.operation
            case REMOVE => after == None
            case CLEAR => after == None
            case ADD => after == Some(op.item)
            case UPDATE => after == Some(op.item)
  {
    LastWriterWins(cs, ops + [op], op.item.field);
    hide PatchedConstraints, ByField;
  }

  /** The preview calls a change hard when the entry before it, or the new one where there was none, is of kind HARD or
      of none, and soft when it is of kind SOFT. */
  lemma HardAndSoftChanges(before: Content, after: Content)
    ensures
      var was, now, diff := ByField(before.constraints), ByField(after.constraints), CalculateTaskDiff(before, after);
      && (diff.hardConstraints <==> exists f <- diff.constraintFields :: Shows(was, now, f, None) || Shows(was, now, f, Some(HARD)))
      && (diff.softConstraints <==> exists f <- diff.constraintFields :: Shows(was, now, f, Some(SOFT)))
  {
    var was, now, diff := ByField(before.constraints), ByField(after.constraints), CalculateTaskDiff(before, after);
    forall f, kind ensures Shows(was, now, f, kind) <==>
                           ChangedValue(was, now, f).Some? && ChangedValue(was, now, f).value.kind == kind
    {
    }
    hide Shows, ChangedFields;
  }

  /** The entry the preview shows for a field has this kind. */
  predicate Shows(was: map<Id, Constraint>, now: map<Id, Constraint>, f: Id, kind: Option<Kind>) {
    if f in was then was[f].kind == kind else f in now && now[f].kind == kind
  }

  /** The task diff does not report a number rewritten as an equal one of another kind; the criteria diff does. */
  lemma NumberKindsInDiffs(f: Id, n: int)
    ensures
      var content := (v: Value) => Content(None, None, None, [Constraint(f, None, Some(v), None)], [], []);
      var two, float := content(Int(n)), content(Float(n as real));
      CalculateTaskDiff(two, float).IsEmpty() && !SameKeys(two.constraints, float.constraints)
  {
    var c, d := Constraint(f, None, Some(Int(n)), None), Constraint(f, None, Some(Float(n as real)), None);
    ByFieldOne(c);
    ByFieldOne(d);
    assert SameConstraint(c, d);
    assert c in [c];
    assert CriteriaKey(f, EQ, Int(n)) in CriteriaKeys([c], false);
    assert forall e <- [d] :: e == d;
    assert CriteriaKey(f, EQ, Int(n)) !in CriteriaKeys([d], false);
  }

  /** A further constraint adds its key to the soft criteria if it is SOFT and to the hard ones otherwise, the operator
      EQ where it has none; one without a value adds nothing. */
  lemma CriteriaKeysSnoc(cs: seq<Constraint>, c: Constraint, soft: bool)
    ensures CriteriaKeys(cs + [c], soft)
            == CriteriaKeys(cs, soft)
               + if c.value in {None, Some(Null)} || (soft && c.kind != Some(SOFT)) || (!soft && c.kind == Some(SOFT)) then {}
                 else {CriteriaKey(c.field, if c.operator.Some? then c.operator.value else EQ, c.value.value)}
  {
    var added := if HasValue(c) && (c.kind == Some(SOFT)) == soft
                 then {CriteriaKey(c.field, c.operator.GetOr(EQ), c.value.value)} else {};
    assert forall d :: d in cs + [c] <==> d in cs || d == c;
    forall k ensures k in CriteriaKeys(cs + [c], soft) <==> k in CriteriaKeys(cs, soft) + added {
      if k in CriteriaKeys(cs + [c], soft) {
        var d :| d in cs + [c] && HasValue(d) && (d.kind == Some(SOFT)) == soft
                 && k == CriteriaKey(d.field, d.operator.GetOr(EQ), d.value.value);
        assert d in cs || d == c;
      }
    }
    assert CriteriaKeys(cs + [c], soft) == CriteriaKeys(cs, soft) + added;
  }
}
