/** Compiling the active hard rules into one bound per side and deduplicated exact constraints. */
module Compiler {
  import opened Basics
  import opened Values
  import opened Rules
  import opened Evaluator
  import opened Sorting

  /** The rules merged into bounds: a comparison with a number. */
  predicate Numeric(r: Rule) {
    (IsLower(r.operator) || IsUpper(r.operator)) && IsNumber(r.value)
  }

  /** What one compiled constraint stands for: all lower bounds of a field, all its upper bounds, or all its other rules
      with one operator and one value. */
  datatype Pick = Lowers(field: Field) | Uppers(field: Field) | Exactly(field: Field, operator: Operator, value: Value)

  predicate Picks(p: Pick, r: Rule) {
    r.field == p.field
    && match p
       case Lowers(_) => Numeric(r) && IsLower(r.operator)
       case Uppers(_) => Numeric(r) && IsUpper(r.operator)
       case Exactly(_, op, v) => !Numeric(r) && r.operator == op && r.value == v
  }

  function PickOf(r: Rule): (p: Pick)
    ensures Picks(p, r)
  {
    if !Numeric(r) then Exactly(r.field, r.operator, r.value)
    else if IsLower(r.operator) then Lowers(r.field) else Uppers(r.field)
  }

  function Select(rules: seq<Rule>, p: Pick): seq<Rule> {
    if rules == [] then []
    else
      var n := |rules| - 1;
      Select(rules[..n], p) + (if Picks(p, rules[n]) then [rules[n]] else [])
  }

  lemma {:induction false} SelectMember(rules: seq<Rule>, p: Pick, r: Rule)
    ensures r in Select(rules, p) <==> r in rules && Picks(p, r)
  {
    if rules != [] {
      var n := |rules| - 1;
      SelectMember(rules[..n], p, r);
      assert rules == rules[..n] + [rules[n]];
    }
  }

  /** The key order of max over (value, is GT): the tighter lower bound is larger. */
  predicate TighterLower(a: Rule, b: Rule)
    requires IsNumber(a.value) && IsNumber(b.value)
  {
    AsReal(a.value) > AsReal(b.value) || (AsReal(a.value) == AsReal(b.value) && a.operator.GT? && !b.operator.GT?)
  }

  /** The key order of min over (value, is LTE): the tighter upper bound is smaller. */
  predicate TighterUpper(a: Rule, b: Rule)
    requires IsNumber(a.value) && IsNumber(b.value)
  {
    AsReal(a.value) < AsReal(b.value) || (AsReal(a.value) == AsReal(b.value) && !a.operator.LTE? && b.operator.LTE?)
  }

  /** max(lowers, key=...): the first of the tightest. */
  function Tightest(rs: seq<Rule>, upper: bool): (w: Rule)
    requires rs != [] && forall r <- rs :: IsNumber(r.value)
    ensures w in rs && IsNumber(w.value)
  {
    if |rs| == 1 then rs[0]
    else
      var n := |rs| - 1;
      assert rs[n] in rs;
      var best := Tightest(rs[..n], upper);
      if (if upper then TighterUpper(rs[n], best) else TighterLower(rs[n], best)) then rs[n] else best
  }

  lemma {:induction false} TightestWins(rs: seq<Rule>, upper: bool)
    requires rs != [] && forall r <- rs :: IsNumber(r.value)
    ensures forall r <- rs :: !(if upper then TighterUpper(r, Tightest(rs, upper)) else TighterLower(r, Tightest(rs, upper)))
  {
    if |rs| > 1 {
      var n := |rs| - 1;
      TightestWins(rs[..n], upper);
      assert rs == rs[..n] + [rs[n]];
    }
  }

  function IdsOf(rs: seq<Rule>): set<Id> {
    set r | r in rs :: r.id
  }

  function Merged(group: seq<Rule>, winner: Rule): Constraint {
    Constraint(winner.field, winner.operator, winner.value, Sorted(IdsOf(group)))
  }

  lemma SelectNumeric(rules: seq<Rule>, p: Pick)
    ensures !p.Exactly? ==> forall r <- Select(rules, p) :: IsNumber(r.value)
  {
    forall r <- Select(rules, p) ensures !p.Exactly? ==> IsNumber(r.value) {
      SelectMember(rules, p, r);
    }
  }

  function ConstraintOf(rules: seq<Rule>, p: Pick): Constraint
    requires Select(rules, p) != []
  {
    var group := Select(rules, p);
    SelectNumeric(rules, p);
    match p
    case Lowers(_) => Merged(group, Tightest(group, false))
    case Uppers(_) => Merged(group, Tightest(group, true))
    case Exactly(_, _, _) => Merged(group, group[0])
  }

  /** One constraint for each of these distinct, non-empty picks. */
  ghost predicate Aligned(rules: seq<Rule>, picks: seq<Pick>, compiled: seq<Constraint>) {
    && |picks| == |compiled| && Unique(picks)
    && forall i :: 0 <= i < |picks| ==> Select(rules, picks[i]) != [] && compiled[i] == ConstraintOf(rules, picks[i])
  }

  /** The compiled list holds one constraint for every non-empty pick, and nothing else; `picks` names them. */
  ghost predicate CompiledBy(rules: seq<Rule>, picks: seq<Pick>, compiled: seq<Constraint>) {
    Aligned(rules, picks, compiled) && forall r <- rules :: PickOf(r) in picks
  }

  lemma AlignedSnoc(rules: seq<Rule>, picks: seq<Pick>, compiled: seq<Constraint>, p: Pick)
    requires Aligned(rules, picks, compiled) && p !in picks && Select(rules, p) != []
    ensures Aligned(rules, picks + [p], compiled + [ConstraintOf(rules, p)])
  {
  }

  // ---------------------------------------------------------------------------------------------
  // The compiler's loops

  datatype ExactKey = ExactKey(operator: Operator, value: Value)

  function PickKey(f: Field, k: ExactKey): Pick { Exactly(f, k.operator, k.value) }

  function OnField(rules: seq<Rule>, f: Field): seq<Rule> {
    if rules == [] then []
    else
      var n := |rules| - 1;
      OnField(rules[..n], f) + (if rules[n].field == f then [rules[n]] else [])
  }

  lemma {:induction false} OnFieldMember(rules: seq<Rule>, f: Field, r: Rule)
    ensures r in OnField(rules, f) <==> r in rules && r.field == f
  {
    if rules != [] {
      var n := |rules| - 1;
      OnFieldMember(rules[..n], f, r);
      assert rules == rules[..n] + [rules[n]];
    }
  }

  lemma {:induction false} OnFieldDistinct(rules: seq<Rule>, f: Field)
    requires DistinctIds(rules)
    ensures DistinctIds(OnField(rules, f))
  {
    if rules != [] {
      var n := |rules| - 1;
      OnFieldDistinct(rules[..n], f);
      forall r <- OnField(rules[..n], f) ensures r.id != rules[n].id {
        OnFieldMember(rules[..n], f, r);
      }
    }
  }

  lemma {:induction false} SelectOnField(rules: seq<Rule>, f: Field, p: Pick)
    requires p.field == f
    ensures Select(OnField(rules, f), p) == Select(rules, p)
  {
    if rules != [] {
      var n := |rules| - 1;
      SelectOnField(rules[..n], f, p);
      var on := OnField(rules[..n], f);
      if rules[n].field == f {
        assert (on + [rules[n]])[..|on|] == on;
      } else {
        assert OnField(rules, f) == on;
      }
    }
  }

  function ListAt<K, V>(m: map<K, seq<V>>, k: K): seq<V> {
    if k in m then m[k] else []
  }

  /** A dictionary of lists and its keys in insertion order. */
  ghost predicate Keyed<K, V>(m: map<K, seq<V>>, keys: seq<K>) {
    Unique(keys) && (forall k <- keys :: k in m) && forall k <- m :: k in keys && m[k] != []
  }

  lemma KeyedAppend<K, V>(m: map<K, seq<V>>, keys: seq<K>, k: K, v: V)
    requires Keyed(m, keys)
    ensures Keyed(m[k := ListAt(m, k) + [v]], if k in m then keys else keys + [k])
  {
    if k !in m {
      assert k !in keys;
    }
  }

  ghost predicate FieldLists(rules: seq<Rule>, byField: map<Field, seq<Rule>>) {
    forall f :: ListAt(byField, f) == OnField(rules, f)
  }

  lemma FieldListsSnoc(rules: seq<Rule>, byField: map<Field, seq<Rule>>, r: Rule)
    requires FieldLists(rules, byField)
    ensures FieldLists(rules + [r], byField[r.field := ListAt(byField, r.field) + [r]])
  {
    var after := byField[r.field := ListAt(byField, r.field) + [r]];
    assert (rules + [r])[..|rules|] == rules;
    forall f ensures ListAt(after, f) == OnField(rules + [r], f) {
      assert f != r.field ==> ListAt(after, f) == ListAt(byField, f);
    }
  }

  /** The fields in order of first occurrence. */
  function FieldsOf(rules: seq<Rule>): seq<Field> {
    if rules == [] then []
    else
      var n := |rules| - 1;
      FieldsOf(rules[..n]) + (if rules[n].field in FieldsOf(rules[..n]) then [] else [rules[n].field])
  }

  lemma FieldsSnoc(rules: seq<Rule>, r: Rule)
    ensures FieldsOf(rules + [r]) == FieldsOf(rules) + (if r.field in FieldsOf(rules) then [] else [r.field])
  {
    assert (rules + [r])[..|rules|] == rules;
  }

  /** by_field, with its keys in insertion order. */
  method GroupByField(rules: seq<Rule>) returns (byField: map<Field, seq<Rule>>, fields: seq<Field>)
    ensures Keyed(byField, fields) && FieldLists(rules, byField) && fields == FieldsOf(rules)
  {
    byField, fields := map[], [];
    for i := 0 to |rules|
      invariant Keyed(byField, fields) && FieldLists(rules[..i], byField) && fields == FieldsOf(rules[..i])
    {
      assert rules[..i + 1] == rules[..i] + [rules[i]];
      var f := rules[i].field;
      assert f in byField <==> f in fields;
      hide Keyed, FieldLists, FieldsOf;
      FieldsSnoc(rules[..i], rules[i]);
      FieldListsSnoc(rules[..i], byField, rules[i]);
      KeyedAppend(byField, fields, f, rules[i]);
      if f !in byField {
        fields := fields + [f];
      }
      byField := byField[f := ListAt(byField, f) + [rules[i]]];
    }
    assert rules[..|rules|] == rules;
  }

  /** The lists hold the exact rules of the field by operator and value. */
  ghost predicate ExactLists(rules: seq<Rule>, f: Field, exact: map<ExactKey, seq<Rule>>) {
    forall k :: ListAt(exact, k) == Select(rules, PickKey(f, k))
  }

  lemma ExactListsSnoc(rules: seq<Rule>, f: Field, exact: map<ExactKey, seq<Rule>>, r: Rule)
    requires ExactLists(rules, f, exact) && r.field == f
    ensures var k := ExactKey(r.operator, r.value);
            ExactLists(rules + [r], f, if Numeric(r) then exact else exact[k := ListAt(exact, k) + [r]])
  {
    var key := ExactKey(r.operator, r.value);
    var after := if Numeric(r) then exact else exact[key := ListAt(exact, key) + [r]];
    assert (rules + [r])[..|rules|] == rules;
    forall k ensures ListAt(after, k) == Select(rules + [r], PickKey(f, k)) {
      assert k != key ==> ListAt(after, k) == ListAt(exact, k);
    }
  }

  /** The exact keys of a field in order of first occurrence. */
  function KeysOf(rules: seq<Rule>, f: Field): seq<ExactKey> {
    if rules == [] then []
    else
      var n := |rules| - 1;
      var before, key := KeysOf(rules[..n], f), ExactKey(rules[n].operator, rules[n].value);
      before + (if rules[n].field != f || Numeric(rules[n]) || key in before then [] else [key])
  }

  lemma KeysSnoc(rules: seq<Rule>, f: Field, r: Rule)
    ensures
      var before, key := KeysOf(rules, f), ExactKey(r.operator, r.value);
      KeysOf(rules + [r], f) == if r.field != f || Numeric(r) || key in before then before else before + [key]
  {
    assert (rules + [r])[..|rules|] == rules;
  }

  lemma {:induction false} KeysOnField(rules: seq<Rule>, f: Field)
    ensures KeysOf(OnField(rules, f), f) == KeysOf(rules, f)
  {
    if rules != [] {
      var n := |rules| - 1;
      KeysOnField(rules[..n], f);
      var on := OnField(rules[..n], f);
      assert (on + [rules[n]])[..|on|] == on;
      assert OnField(rules, f) == if rules[n].field == f then on + [rules[n]] else on;
    }
  }

  /** The dictionary of exact rules, keyed by operator and canonical value. */
  method GroupExact(rules: seq<Rule>, f: Field, consumed: set<Id>) returns (exact: map<ExactKey, seq<Rule>>, keys: seq<ExactKey>)
    requires forall r <- rules :: r.field == f && (r.id in consumed <==> Numeric(r))
    ensures Keyed(exact, keys) && ExactLists(rules, f, exact) && keys == KeysOf(rules, f)
  {
    exact, keys := map[], [];
    for i := 0 to |rules|
      invariant Keyed(exact, keys) && ExactLists(rules[..i], f, exact) && keys == KeysOf(rules[..i], f)
    {
      assert rules[..i + 1] == rules[..i] + [rules[i]];
      assert rules[i] in rules;
      var key := ExactKey(rules[i].operator, rules[i].value);
      assert key in exact <==> key in keys;
      hide ExactLists, Keyed, KeysOf;
      KeysSnoc(rules[..i], f, rules[i]);
      ExactListsSnoc(rules[..i], f, exact, rules[i]);
      if rules[i].id in consumed {
        continue;
      }
      KeyedAppend(exact, keys, key, rules[i]);
      if key !in exact {
        keys := keys + [key];
      }
      exact := exact[key := ListAt(exact, key) + [rules[i]]];
    }
    assert rules[..|rules|] == rules;
  }

  function BoundPicks(rules: seq<Rule>, f: Field): seq<Pick> {
    (if Select(rules, Lowers(f)) != [] then [Lowers(f)] else []) + (if Select(rules, Uppers(f)) != [] then [Uppers(f)] else [])
  }

  /** The two bounds of a field. */
  method CompileBounds(rules: seq<Rule>, f: Field) returns (compiled: seq<Constraint>, consumed: set<Id>)
    ensures Aligned(rules, BoundPicks(rules, f), compiled)
    ensures consumed == IdsOf(Select(rules, Lowers(f))) + IdsOf(Select(rules, Uppers(f)))
  {
    compiled := [];
    var lowers, uppers := Select(rules, Lowers(f)), Select(rules, Uppers(f));
    SelectNumeric(rules, Lowers(f));
    SelectNumeric(rules, Uppers(f));
    consumed := IdsOf(lowers) + IdsOf(uppers);
    if lowers != [] {
      AlignedSnoc(rules, [], compiled, Lowers(f));
      assert [] + [Lowers(f)] == [Lowers(f)];
      compiled := compiled + [Merged(lowers, Tightest(lowers, false))];
    }
    if uppers != [] {
      AlignedSnoc(rules, if lowers != [] then [Lowers(f)] else [], compiled, Uppers(f));
      compiled := compiled + [Merged(uppers, Tightest(uppers, true))];
    }
  }

  /** One constraint per exact key, in key order. */
  method CompileExact(rules: seq<Rule>, f: Field, exact: map<ExactKey, seq<Rule>>, keys: seq<ExactKey>)
    returns (compiled: seq<Constraint>)
    requires Unique(keys) && (forall k <- keys :: k in exact && exact[k] != []) && ExactLists(rules, f, exact)
    ensures Aligned(rules, KeyPicks(f, keys), compiled)
  {
    compiled := [];
    for i := 0 to |keys|
      invariant Aligned(rules, KeyPicks(f, keys[..i]), compiled)
    {
      assert keys[i] in keys;
      var group := exact[keys[i]];
      assert group == ListAt(exact, keys[i]) == Select(rules, PickKey(f, keys[i]));
      KeyPicksSnoc(f, keys, i);
      AlignedSnoc(rules, KeyPicks(f, keys[..i]), compiled, PickKey(f, keys[i]));
      compiled := compiled + [Merged(group, group[0])];
    }
    assert keys[..|keys|] == keys;
  }

  /** A field's picks: its lower bound, its upper bound, then its exact constraints in key order. */
  function FieldPicks(rules: seq<Rule>, f: Field, keyOrder: (ExactKey, ExactKey) -> bool): seq<Pick> {
    BoundPicks(rules, f) + KeyPicks(f, SortedBy(keyOrder, KeysOf(rules, f)))
  }

  method CompileField(rules: seq<Rule>, f: Field, keyOrder: (ExactKey, ExactKey) -> bool) returns (compiled: seq<Constraint>)
    requires DistinctIds(rules) && forall r <- rules :: r.field == f
    ensures CompiledBy(rules, FieldPicks(rules, f, keyOrder), compiled)
  {
    var bounds, consumed := CompileBounds(rules, f);
    ConsumedIffNumeric(rules, f);
    var exact, keys := GroupExact(rules, f, consumed);
    var sorted := SortedBy(keyOrder, keys);
    SortUnique(keyOrder, keys);
    SortMembers(keyOrder, keys);
    var rest := CompileExact(rules, f, exact, sorted);
    AlignedAppend(rules, BoundPicks(rules, f), bounds, KeyPicks(f, sorted), rest);
    compiled := bounds + rest;
    forall r <- rules ensures PickOf(r) in FieldPicks(rules, f, keyOrder) {
      SelectMember(rules, PickOf(r), r);
      if !Numeric(r) {
        var k := ExactKey(r.operator, r.value);
        assert ListAt(exact, k) == Select(rules, PickKey(f, k));
        KeyPicksMember(f, sorted, k);
      }
    }
  }

  function KeyPicks(f: Field, keys: seq<ExactKey>): seq<Pick> {
    seq(|keys|, i requires 0 <= i < |keys| => PickKey(f, keys[i]))
  }

  lemma KeyPicksSnoc(f: Field, keys: seq<ExactKey>, i: nat)
    requires i < |keys|
    ensures KeyPicks(f, keys[..i + 1]) == KeyPicks(f, keys[..i]) + [PickKey(f, keys[i])]
  {
  }

  lemma KeyPicksMember(f: Field, keys: seq<ExactKey>, k: ExactKey)
    requires k in keys
    ensures PickKey(f, k) in KeyPicks(f, keys)
  {
    var i :| 0 <= i < |keys| && keys[i] == k;
    assert KeyPicks(f, keys)[i] == PickKey(f, k);
  }

  /** With distinct ids, the consumed ids are the numeric rules' own. */
  lemma ConsumedIffNumeric(rules: seq<Rule>, f: Field)
    requires DistinctIds(rules) && forall r <- rules :: r.field == f
    ensures forall r <- rules :: r.id in IdsOf(Select(rules, Lowers(f))) + IdsOf(Select(rules, Uppers(f))) <==> Numeric(r)
  {
    forall r <- rules
      ensures r.id in IdsOf(Select(rules, Lowers(f))) + IdsOf(Select(rules, Uppers(f))) <==> Numeric(r)
    {
      SelectMember(rules, PickOf(r), r);
      if r.id in IdsOf(Select(rules, Lowers(f))) + IdsOf(Select(rules, Uppers(f))) {
        var q :| q in Select(rules, Lowers(f)) + Select(rules, Uppers(f)) && q.id == r.id;
        SelectMember(rules, Lowers(f), q);
        SelectMember(rules, Uppers(f), q);
        assert q == r;
      }
    }
  }

  /** The picks of the fields, one field after the other. */
  function PicksInOrder(rules: seq<Rule>, fields: seq<Field>, keyOrder: (ExactKey, ExactKey) -> bool): seq<Pick> {
    if fields == [] then []
    else
      var n := |fields| - 1;
      PicksInOrder(rules, fields[..n], keyOrder) + FieldPicks(rules, fields[n], keyOrder)
  }

  lemma PicksSnoc(rules: seq<Rule>, fields: seq<Field>, f: Field, keyOrder: (ExactKey, ExactKey) -> bool)
    ensures PicksInOrder(rules, fields + [f], keyOrder)
            == PicksInOrder(rules, fields, keyOrder) + FieldPicks(rules, f, keyOrder)
  {
    assert (fields + [f])[..|fields|] == fields;
  }

  lemma FieldPicksLocal(rules: seq<Rule>, f: Field, keyOrder: (ExactKey, ExactKey) -> bool)
    ensures FieldPicks(OnField(rules, f), f, keyOrder) == FieldPicks(rules, f, keyOrder)
    ensures forall p <- FieldPicks(rules, f, keyOrder) :: p.field == f
  {
    SelectOnField(rules, f, Lowers(f));
    SelectOnField(rules, f, Uppers(f));
    KeysOnField(rules, f);
    hide Select, KeysOf, OnField, SortedBy;
  }

  lemma {:induction false} PicksOnFields(rules: seq<Rule>, fields: seq<Field>, keyOrder: (ExactKey, ExactKey) -> bool)
    ensures forall p <- PicksInOrder(rules, fields, keyOrder) :: p.field in fields
  {
    hide FieldPicks;
    if fields != [] {
      var n := |fields| - 1;
      PicksOnFields(rules, fields[..n], keyOrder);
      FieldPicksLocal(rules, fields[n], keyOrder);
      assert fields == fields[..n] + [fields[n]];
    }
  }

  /** _compile_hard, for any order sorted() may give fields and keys: field by field, one constraint per pick. */
  method CompileHard(rules: seq<Rule>, fieldOrder: (Field, Field) -> bool, keyOrder: (ExactKey, ExactKey) -> bool)
    returns (compiled: seq<Constraint>)
    requires DistinctIds(rules)
    ensures CompiledBy(rules, PicksInOrder(rules, SortedBy(fieldOrder, FieldsOf(rules)), keyOrder), compiled)
  {
    hide *;
    compiled := [];
    var byField, keys := GroupByField(rules);
    var fields := SortedBy(fieldOrder, keys);
    assert fields[..0] == [];
    NothingCompiled(rules, keyOrder);
    for i := 0 to |fields|
      invariant FieldsCompiled(rules, fields[..i], keyOrder, compiled)
    {
      var f := fields[i];
      FieldReady(rules, byField, keys, fieldOrder, i);
      var more := CompileField(byField[f], f, keyOrder);
      FieldStep(rules, fields[..i], f, keyOrder, compiled, more);
      compiled := compiled + more;
    }
    assert fields[..|fields|] == fields;
    EveryFieldListed(rules, byField, keys, fieldOrder);
    AllCompiled(rules, fields, keyOrder, compiled);
  }

  lemma NothingCompiled(rules: seq<Rule>, keyOrder: (ExactKey, ExactKey) -> bool)
    ensures FieldsCompiled(rules, [], keyOrder, [])
  {
  }

  lemma FieldReady(rules: seq<Rule>, byField: map<Field, seq<Rule>>, keys: seq<Field>,
                   fieldOrder: (Field, Field) -> bool, i: nat)
    requires DistinctIds(rules) && Keyed(byField, keys) && FieldLists(rules, byField)
    requires i < |SortedBy(fieldOrder, keys)|
    ensures
      var fields, f := SortedBy(fieldOrder, keys), SortedBy(fieldOrder, keys)[i];
      && fields[..i + 1] == fields[..i] + [f] && f !in fields[..i]
      && f in byField && byField[f] == OnField(rules, f) && DistinctIds(byField[f]) && forall r <- byField[f] :: r.field == f
  {
    hide SortedBy;
    var f := SortedBy(fieldOrder, keys)[i];
    SortUnique(fieldOrder, keys);
    SortMembers(fieldOrder, keys);
    assert f in SortedBy(fieldOrder, keys);
    assert ListAt(byField, f) == OnField(rules, f);
    OnFieldDistinct(rules, f);
    forall r <- OnField(rules, f) ensures r.field == f {
      OnFieldMember(rules, f, r);
    }
  }

  lemma EveryFieldListed(rules: seq<Rule>, byField: map<Field, seq<Rule>>, keys: seq<Field>, fieldOrder: (Field, Field) -> bool)
    requires Keyed(byField, keys) && FieldLists(rules, byField)
    ensures forall r <- rules :: r.field in SortedBy(fieldOrder, keys)
  {
    hide SortedBy;
    SortMembers(fieldOrder, keys);
    forall r <- rules ensures r.field in keys {
      OnFieldMember(rules, r.field, r);
      assert ListAt(byField, r.field) != [];
    }
  }

  lemma AllCompiled(rules: seq<Rule>, fields: seq<Field>, keyOrder: (ExactKey, ExactKey) -> bool, compiled: seq<Constraint>)
    requires FieldsCompiled(rules, fields, keyOrder, compiled) && forall r <- rules :: r.field in fields
    ensures CompiledBy(rules, PicksInOrder(rules, fields, keyOrder), compiled)
  {
  }

  ghost predicate FieldsCompiled(rules: seq<Rule>, fields: seq<Field>, keyOrder: (ExactKey, ExactKey) -> bool,
                                 compiled: seq<Constraint>)
  {
    var picks := PicksInOrder(rules, fields, keyOrder);
    Aligned(rules, picks, compiled) && forall r <- rules :: r.field in fields ==> PickOf(r) in picks
  }

  lemma FieldStep(rules: seq<Rule>, fields: seq<Field>, f: Field, keyOrder: (ExactKey, ExactKey) -> bool,
                  compiled: seq<Constraint>, more: seq<Constraint>)
    requires FieldsCompiled(rules, fields, keyOrder, compiled) && f !in fields
    requires CompiledBy(OnField(rules, f), FieldPicks(OnField(rules, f), f, keyOrder), more)
    ensures FieldsCompiled(rules, fields + [f], keyOrder, compiled + more)
  {
    hide FieldPicks, Aligned, PicksInOrder, OnField;
    PicksSnoc(rules, fields, f, keyOrder);
    FieldPicksLocal(rules, f, keyOrder);
    FieldAligned(rules, f, FieldPicks(rules, f, keyOrder), more);
    PicksOnFields(rules, fields, keyOrder);
    AlignedAppend(rules, PicksInOrder(rules, fields, keyOrder), compiled, FieldPicks(rules, f, keyOrder), more);
  }

  lemma FieldAligned(rules: seq<Rule>, f: Field, picks: seq<Pick>, compiled: seq<Constraint>)
    requires CompiledBy(OnField(rules, f), picks, compiled) && forall p <- picks :: p.field == f
    ensures Aligned(rules, picks, compiled)
    ensures forall r <- rules :: r.field == f ==> PickOf(r) in picks
  {
    forall i | 0 <= i < |picks| ensures Select(rules, picks[i]) != [] && compiled[i] == ConstraintOf(rules, picks[i]) {
      assert picks[i] in picks;
      SelectOnField(rules, f, picks[i]);
    }
    forall r <- rules | r.field == f ensures PickOf(r) in picks {
      OnFieldMember(rules, f, r);
    }
  }

  lemma AlignedAppend(rules: seq<Rule>, picks: seq<Pick>, compiled: seq<Constraint>, more: seq<Pick>, cs: seq<Constraint>)
    requires Aligned(rules, picks, compiled) && Aligned(rules, more, cs)
    requires forall p <- picks, q <- more :: p != q
    ensures Aligned(rules, picks + more, compiled + cs)
  {
    var all, both := picks + more, compiled + cs;
    forall i, j | 0 <= i < j < |all| ensures all[i] != all[j] {
      if i < |picks| && j >= |picks| {
        assert all[i] in picks && all[j] in more;
      }
    }
    forall i | 0 <= i < |all| ensures Select(rules, all[i]) != [] && both[i] == ConstraintOf(rules, all[i]) {
      if i < |picks| {
        assert all[i] == picks[i] && both[i] == compiled[i];
      } else {
        assert all[i] == more[i - |picks|] && both[i] == cs[i - |picks|];
      }
    }
  }

  // ---------------------------------------------------------------------------------------------
  // Compiling preserves meaning

  /** A raw rule read as a constraint of its own. */
  function Raw(r: Rule): Constraint {
    Constraint(r.field, r.operator, r.value, [r.id])
  }

  ghost predicate AnyRule(e: Enterprise, rules: seq<Rule>, v: Verdict) {
    exists r <- rules :: Judge(e, Raw(r)) == v
  }

  /** Where a bound meets a known value: a number passes or fails by comparison, anything else raises. */
  lemma BoundVerdict(e: Enterprise, r: Rule)
    requires Numeric(r)
    ensures var v := FieldValue(e, r.field);
            Judge(e, Raw(r)) ==
            if v.Null? then Unknown
            else if !IsNumber(v) then Raises
            else
              var x, b := AsReal(v), AsReal(r.value);
              if (match r.operator case GT => x > b case GTE => x >= b case LT => x < b case _ => x <= b) then Passes else Fails
  {
  }

  /** The tightest bound speaks for all bounds on its side. */
  lemma TightestSpeaks(e: Enterprise, rs: seq<Rule>, upper: bool, f: Field)
    requires rs != [] && forall r <- rs :: IsNumber(r.value)
    requires forall r <- rs :: Numeric(r) && r.field == f && (if upper then IsUpper(r.operator) else IsLower(r.operator))
    ensures var w := Judge(e, Raw(Tightest(rs, upper)));
            (w == Raises <==> AnyRule(e, rs, Raises)) && (w == Unknown <==> AnyRule(e, rs, Unknown))
            && (w == Fails <==> AnyRule(e, rs, Fails))
  {
    var w := Tightest(rs, upper);
    TightestWins(rs, upper);
    BoundVerdict(e, w);
    forall r <- rs
      ensures Judge(e, Raw(r)) == Raises <==> Judge(e, Raw(w)) == Raises
      ensures Judge(e, Raw(r)) == Unknown <==> Judge(e, Raw(w)) == Unknown
      ensures Judge(e, Raw(r)) == Fails ==> Judge(e, Raw(w)) == Fails
    {
      BoundVerdict(e, r);
    }
  }

  /** A compiled constraint gives the verdict its merged rules give together. */
  lemma PickVerdict(e: Enterprise, rules: seq<Rule>, p: Pick, v: Verdict)
    requires Select(rules, p) != [] && v != Passes
    ensures Judge(e, ConstraintOf(rules, p)) == v <==> AnyRule(e, Select(rules, p), v)
  {
    var group := Select(rules, p);
    SelectNumeric(rules, p);
    forall r <- group ensures Picks(p, r) {
      SelectMember(rules, p, r);
    }
    hide Judge, Select, Tightest;
    match p
    case Lowers(f) =>
      TightestSpeaks(e, group, false, f);
      assert Judge(e, ConstraintOf(rules, p)) == Judge(e, Raw(Tightest(group, false)));
    case Uppers(f) =>
      TightestSpeaks(e, group, true, f);
      assert Judge(e, ConstraintOf(rules, p)) == Judge(e, Raw(Tightest(group, true)));
    case Exactly(f, op, value) =>
      assert group[0] in group;
      assert forall r <- group :: Judge(e, Raw(r)) == Judge(e, ConstraintOf(rules, p));
  }

  /** The compiled list has a failing, unknown or raising member exactly when the rules have one. */
  lemma SameVerdicts(e: Enterprise, rules: seq<Rule>, picks: seq<Pick>, compiled: seq<Constraint>, v: Verdict)
    requires CompiledBy(rules, picks, compiled) && v != Passes
    ensures AnyVerdict(e, compiled, v) <==> AnyRule(e, rules, v)
  {
    if AnyVerdict(e, compiled, v) {
      var c :| c in compiled && Judge(e, c) == v;
      var i :| 0 <= i < |compiled| && compiled[i] == c;
      PickVerdict(e, rules, picks[i], v);
      var r :| r in Select(rules, picks[i]) && Judge(e, Raw(r)) == v;
      SelectMember(rules, picks[i], r);
    }
    if AnyRule(e, rules, v) {
      var r :| r in rules && Judge(e, Raw(r)) == v;
      var i :| 0 <= i < |picks| && picks[i] == PickOf(r);
      SelectMember(rules, picks[i], r);
      PickVerdict(e, rules, picks[i], v);
      assert compiled[i] in compiled;
    }
  }

  /** A list of raw constraints for exactly these rules, in any order. */
  ghost predicate Lists(raws: seq<Constraint>, rules: seq<Rule>) {
    forall c :: c in raws <==> exists r <- rules :: c == Raw(r)
  }

  lemma ListsVerdicts(e: Enterprise, rules: seq<Rule>, raws: seq<Constraint>, v: Verdict)
    requires Lists(raws, rules)
    ensures AnyVerdict(e, raws, v) <==> AnyRule(e, rules, v)
  {
    if AnyRule(e, rules, v) {
      var r :| r in rules && Judge(e, Raw(r)) == v;
      assert Raw(r) in raws;
    }
  }

  /** While not both a comparison raises and a rule fails, the compiled constraints and the rules in any order give one
      outcome: MATCH, NO_MATCH, UNKNOWN, or the exception. */
  lemma CompilePreservesMeaning(e: Enterprise, rules: seq<Rule>, picks: seq<Pick>, compiled: seq<Constraint>, raws: seq<Constraint>)
    requires CompiledBy(rules, picks, compiled) && Lists(raws, rules)
    requires !(AnyRule(e, rules, Raises) && AnyRule(e, rules, Fails))
    ensures Evaluated(e, compiled) == Evaluated(e, raws)
    ensures Evaluated(e, raws) == None <==> AnyRule(e, rules, Raises)
  {
    forall v: Verdict | v != Passes ensures AnyVerdict(e, compiled, v) <==> AnyVerdict(e, raws, v) {
      SameVerdicts(e, rules, picks, compiled, v);
      ListsVerdicts(e, rules, raws, v);
    }
    ListsVerdicts(e, rules, raws, Raises);
    ListsVerdicts(e, rules, raws, Fails);
    if AnyRule(e, rules, Raises) {
      RaiseDecides(e, raws);
      RaiseDecides(e, compiled);
    } else {
      EvaluatedMeaning(e, raws);
      EvaluatedMeaning(e, compiled);
    }
  }

  function Raws(rules: seq<Rule>): seq<Constraint> {
    seq(|rules|, i requires 0 <= i < |rules| => Raw(rules[i]))
  }

  lemma ListedFirst(r: Rule, rules: seq<Rule>)
    requires r in rules
    ensures Lists([Raw(r)] + Raws(rules), rules)
  {
    var raws := [Raw(r)] + Raws(rules);
    forall c ensures c in raws <==> exists q <- rules :: c == Raw(q) {
      if q :| q in rules && c == Raw(q) {
        var i :| 0 <= i < |rules| && rules[i] == q;
        assert raws[i + 1] == c;
      }
    }
  }

  lemma FirstDecides(e: Enterprise, c: Constraint, cs: seq<Constraint>)
    ensures Judge(e, c) == Raises ==> Evaluated(e, [c] + cs) == None
    ensures Judge(e, c) == Fails ==> Evaluated(e, [c] + cs) == Some(NO_MATCH)
  {
  }

  /** Compiling preserves meaning for every order of the rules exactly when not both a comparison raises and a rule
      fails: then the order decides whether the failure or the exception comes first. */
  lemma CompilePreservesMeaningIff(e: Enterprise, rules: seq<Rule>, picks: seq<Pick>, compiled: seq<Constraint>)
    requires CompiledBy(rules, picks, compiled)
    ensures (forall raws :: Lists(raws, rules) ==> Evaluated(e, compiled) == Evaluated(e, raws))
            <==> !(AnyRule(e, rules, Raises) && AnyRule(e, rules, Fails))
  {
    hide Lists, Evaluated, Judge, CompiledBy, Raws, Raw;
    if AnyRule(e, rules, Raises) && AnyRule(e, rules, Fails) {
      var x :| x in rules && Judge(e, Raw(x)) == Raises;
      var f :| f in rules && Judge(e, Raw(f)) == Fails;
      ListedFirst(x, rules);
      ListedFirst(f, rules);
      FirstDecides(e, Raw(x), Raws(rules));
      FirstDecides(e, Raw(f), Raws(rules));
    } else {
      forall raws | Lists(raws, rules) ensures Evaluated(e, compiled) == Evaluated(e, raws) {
        CompilePreservesMeaning(e, rules, picks, compiled, raws);
      }
    }
  }

  lemma SelectNothing(p: Pick)
    ensures Select([], p) == []
  {
  }

  lemma SelectSnoc(rules: seq<Rule>, r: Rule, p: Pick)
    ensures Select(rules + [r], p) == Select(rules, p) + (if Picks(p, r) then [r] else [])
  {
    assert (rules + [r])[..|rules|] == rules;
  }

  /** Employees more than 7, and scale equal to 5. */
  const EMPLOYEES := Rule.Rule(2, Named(1), GT, Int(7), USER_REQUIREMENT, HARD, None, None, ACTIVE, INCLUDED)
  const SCALE := Rule.Rule(1, Named(2), EQ, Int(5), USER_REQUIREMENT, HARD, None, None, ACTIVE, INCLUDED)
  const TEXT_EMPLOYEES: Enterprise := map[Named(1) := Text("many"), Named(2) := Int(3)]

  lemma EmployeesFirst() returns (compiled: seq<Constraint>)
    ensures CompiledBy([SCALE, EMPLOYEES], [Lowers(Named(1)), Exactly(Named(2), EQ, Int(5))], compiled)
    ensures |compiled| == 2 && compiled[0].field == Named(1) && compiled[0].operator == GT && compiled[0].value == Int(7)
  {
    var rules := [SCALE, EMPLOYEES];
    var lowers, exact := Lowers(Named(1)), Exactly(Named(2), EQ, Int(5));
    assert [] + [SCALE] == [SCALE] && [SCALE] + [EMPLOYEES] == rules;
    SelectSnoc([], SCALE, lowers);
    SelectSnoc([SCALE], EMPLOYEES, lowers);
    SelectSnoc([], SCALE, exact);
    SelectSnoc([SCALE], EMPLOYEES, exact);
    SelectNothing(lowers);
    SelectNothing(exact);
    hide Select, IdsOf, Sorted;
    compiled := [ConstraintOf(rules, lowers), ConstraintOf(rules, exact)];
    assert PickOf(SCALE) == exact && PickOf(EMPLOYEES) == lowers;
  }

  /** An input where the order decides: on an enterprise whose employees field holds a text, the scale rule listed first
      rules the enterprise out; compiled with the employees first, the comparison raises. */
  lemma OrderDecides()
    ensures Evaluated(TEXT_EMPLOYEES, [Raw(SCALE), Raw(EMPLOYEES)]) == Some(NO_MATCH)
    ensures exists compiled ::
              CompiledBy([SCALE, EMPLOYEES], [Lowers(Named(1)), Exactly(Named(2), EQ, Int(5))], compiled)
              && Evaluated(TEXT_EMPLOYEES, compiled) == None
  {
    hide CompiledBy;
    var compiled := EmployeesFirst();
    assert Judge(TEXT_EMPLOYEES, compiled[0]) == Raises;
  }

  /** No rule is lost on the way: its id is among the sources of a constraint on its field; and every source id is a
      rule's. */
  lemma ProvenanceKept(rules: seq<Rule>, picks: seq<Pick>, compiled: seq<Constraint>)
    requires CompiledBy(rules, picks, compiled)
    ensures forall r <- rules :: exists c <- compiled :: c.field == r.field && r.id in c.sourceRuleIds
    ensures forall c <- compiled :: c.sourceRuleIds != [] && forall id <- c.sourceRuleIds ::
              exists r <- rules :: r.id == id && r.field == c.field
  {
    forall r <- rules ensures exists c <- compiled :: c.field == r.field && r.id in c.sourceRuleIds {
      var i :| 0 <= i < |picks| && picks[i] == PickOf(r);
      SelectMember(rules, picks[i], r);
      SourcesOf(rules, picks[i]);
      assert compiled[i] in compiled;
    }
    forall c <- compiled
      ensures c.sourceRuleIds != [] && forall id <- c.sourceRuleIds :: exists r <- rules :: r.id == id && r.field == c.field
    {
      var i :| 0 <= i < |compiled| && compiled[i] == c;
      SourcesOf(rules, picks[i]);
      assert Select(rules, picks[i])[0] in Select(rules, picks[i]);
    }
  }

  lemma SourcesOf(rules: seq<Rule>, p: Pick)
    requires Select(rules, p) != []
    ensures ConstraintOf(rules, p).field == p.field
    ensures forall r <- Select(rules, p) :: r.id in ConstraintOf(rules, p).sourceRuleIds
    ensures forall id <- ConstraintOf(rules, p).sourceRuleIds :: exists r <- rules :: r.id == id && r.field == p.field
  {
    var group := Select(rules, p);
    SelectNumeric(rules, p);
    SortedFacts(IdsOf(group));
    forall r <- group ensures r in rules && r.field == p.field {
      SelectMember(rules, p, r);
    }
    assert group[0] in group;
  }

  /** The hard rules compile() passes on. */
  function HardActive(rules: seq<Rule>): seq<Rule> {
    if rules == [] then []
    else (if rules[0].kind.HARD? && rules[0].status.ACTIVE? then [rules[0]] else []) + HardActive(rules[1..])
  }

  function MarkedIncluded(rules: seq<Rule>): seq<Rule> {
    seq(|rules|, i requires 0 <= i < |rules| => rules[i].(resolution := INCLUDED))
  }

  /** Resolving conflicts first changes nothing here: the same hard rules are compiled, marked as included. */
  lemma {:induction false} ResolveKeepsHardRules(rules: seq<Rule>, ids: set<Id>)
    requires forall k :: 0 <= k < |rules| && rules[k].id in ids ==> rules[k].kind.SOFT?
    ensures HardActive(Included(rules, ids)) == MarkedIncluded(HardActive(rules))
  {
    if rules != [] {
      var rest := Included(rules[1..], ids);
      ResolveKeepsHardRules(rules[1..], ids);
      MarkedCons(rules[0], HardActive(rules[1..]));
      if rules[0].id in ids {
        assert rules[0].kind.SOFT?;
        assert Included(rules, ids) == rest && HardActive(rules) == HardActive(rules[1..]);
      } else {
        HardActiveCons(rules[0].(resolution := INCLUDED), rest);
        assert Included(rules, ids) == [rules[0].(resolution := INCLUDED)] + rest;
      }
      assert HardActive(rules) == if rules[0].kind.HARD? && rules[0].status.ACTIVE? then [rules[0]] + HardActive(rules[1..])
                                  else HardActive(rules[1..]);
    }
  }

  lemma HardActiveCons(r: Rule, rest: seq<Rule>)
    ensures HardActive([r] + rest) == (if r.kind.HARD? && r.status.ACTIVE? then [r] else []) + HardActive(rest)
  {
    assert ([r] + rest)[1..] == rest;
  }

  lemma MarkedCons(r: Rule, rest: seq<Rule>)
    ensures MarkedIncluded([r] + rest) == [r.(resolution := INCLUDED)] + MarkedIncluded(rest)
  {
  }

  // ---------------------------------------------------------------------------------------------
  // The compiled constraints, read off the rules

  /** The rules that are compiled into one constraint: numeric lower bounds of a field, its numeric upper bounds, or its
      other rules with one operator and one value. */
  predicate SameGroup(r: Rule, q: Rule) {
    r.field == q.field
    && if Numeric(r) then Numeric(q) && IsLower(r.operator) == IsLower(q.operator)
       else !Numeric(q) && r.operator == q.operator && r.value == q.value
  }

  /** No lower bound of the group is higher and no upper bound lower, and none at the same number is strict if this one
      is not. */
  predicate AsTightAs(w: Rule, q: Rule)
    requires IsNumber(w.value) && IsNumber(q.value)
  {
    var x, y := AsReal(w.value), AsReal(q.value);
    (if IsLower(w.operator) then y <= x else x <= y)
    && (x == y && (q.operator.GT? || q.operator.LT?) ==> w.operator.GT? || w.operator.LT?)
  }

  lemma PickOfGroup(r: Rule, q: Rule)
    ensures Picks(PickOf(r), q) <==> SameGroup(r, q)
    ensures PickOf(r) == PickOf(q) <==> SameGroup(r, q)
  {
  }

  lemma PickedAlike(p: Pick, r: Rule)
    requires Picks(p, r)
    ensures PickOf(r) == p
  {
  }

  /** The winner of a pick, with the ids of all it stands for. */
  lemma WinnerOf(rules: seq<Rule>, p: Pick) returns (w: Rule)
    requires Select(rules, p) != []
    ensures w in rules && PickOf(w) == p
    ensures var c := ConstraintOf(rules, p);
            && c.field == w.field && c.operator == w.operator && c.value == w.value && Ascending(c.sourceRuleIds)
            && (forall id :: id in c.sourceRuleIds <==> exists q <- rules :: SameGroup(w, q) && q.id == id)
            && (Numeric(w) ==> forall q <- rules :: SameGroup(w, q) ==> AsTightAs(w, q))
  {
    var group := Select(rules, p);
    SelectNumeric(rules, p);
    w := if p.Exactly? then group[0] else Tightest(group, p.Uppers?);
    SelectMember(rules, p, w);
    PickedAlike(p, w);
    SortedFacts(IdsOf(group));
    forall q ensures q in group <==> q in rules && SameGroup(w, q) {
      SelectMember(rules, p, q);
      PickOfGroup(w, q);
    }
    if !p.Exactly? {
      TightestWins(group, p.Uppers?);
    }
    hide Select, Tightest, Sorted, PickOf;
  }

  /** Each compiled constraint is a rule's, the tightest of its group where that is one of bounds, and names exactly the
      rules of the group, in order. */
  lemma EachConstraint(rules: seq<Rule>, picks: seq<Pick>, compiled: seq<Constraint>, c: Constraint)
    requires CompiledBy(rules, picks, compiled) && c in compiled
    ensures exists w <- rules ::
              && c.field == w.field && c.operator == w.operator && c.value == w.value && Ascending(c.sourceRuleIds)
              && (forall id :: id in c.sourceRuleIds <==> exists q <- rules :: SameGroup(w, q) && q.id == id)
              && (Numeric(w) ==> forall q <- rules :: SameGroup(w, q) ==> AsTightAs(w, q))
  {
    var i :| 0 <= i < |compiled| && compiled[i] == c;
    hide ConstraintOf, Select, SameGroup, AsTightAs;
    var w := WinnerOf(rules, picks[i]);
  }

  /** Each group has exactly one constraint. */
  lemma OneConstraintPerGroup(rules: seq<Rule>, picks: seq<Pick>, compiled: seq<Constraint>, r: Rule)
    requires CompiledBy(rules, picks, compiled) && r in rules
    ensures exists i :: 0 <= i < |compiled| && picks[i] == PickOf(r)
    ensures forall i, j :: 0 <= i < |compiled| && 0 <= j < |compiled| && picks[i] == PickOf(r) == picks[j] ==> i == j
    ensures |compiled| == |picks|
  {
  }

  /** Of equally tight bounds the first one wins. */
  lemma {:induction false} TightestIsFirst(rs: seq<Rule>, upper: bool) returns (k: nat)
    requires rs != [] && forall r <- rs :: IsNumber(r.value)
    ensures k < |rs| && rs[k] == Tightest(rs, upper)
    ensures forall j :: 0 <= j < k ==> if upper then TighterUpper(rs[k], rs[j]) else TighterLower(rs[k], rs[j])
  {
    k := 0;
    if |rs| > 1 {
      var n := |rs| - 1;
      k := TightestIsFirst(rs[..n], upper);
      TightestWins(rs[..n], upper);
      assert forall j :: 0 <= j < n ==> rs[j] in rs[..n];
      if if upper then TighterUpper(rs[n], rs[k]) else TighterLower(rs[n], rs[k]) {
        k := n;
      }
    }
  }

  /** No enterprise passes both rules of a pair that is reported for different values demanded, or for the same values
      included and excluded. */
  lemma ContradictionsCannotBothPass(parse: Parser, l: Rule, r: Rule, e: Enterprise)
    requires Contradict(parse, l, r) && (!IsRange(l.operator) || (l.operator.EQ? && r.operator.EQ?))
    ensures !(Judge(e, Raw(l)) == Passes && Judge(e, Raw(r)) == Passes)
  {
    if l.operator.EQ? {
      EqualitiesContradict(e, l.field, l.value, r.value);
    } else if l.operator.IN? {
      IncludeExcludeContradict(e, l.field, l.value, r.value);
    } else {
      EqualIsSymmetric(l.value, r.value);
      IncludeExcludeContradict(e, l.field, r.value, l.value);
    }
    JudgeIgnoresSources(e, l);
    JudgeIgnoresSources(e, r);
    hide Judge, Contradict;
  }

  lemma JudgeIgnoresSources(e: Enterprise, r: Rule)
    ensures Judge(e, Raw(r)) == Judge(e, Constraint(r.field, r.operator, r.value, []))
  {
  }

  // ---------------------------------------------------------------------------------------------
  // The order of the compiled constraints

  /** Field by field; in a field the lower bound, then the upper bound, then the exact constraints by their keys. */
  predicate ComesBefore(fieldOrder: (Field, Field) -> bool, keyOrder: (ExactKey, ExactKey) -> bool, p: Pick, q: Pick) {
    if p.field != q.field then fieldOrder(p.field, q.field)
    else
      match (p, q)
      case (Lowers(_), Uppers(_)) => true
      case (Lowers(_), Exactly(_, _, _)) => true
      case (Uppers(_), Exactly(_, _, _)) => true
      case (Exactly(_, op, v), Exactly(_, op', v')) => keyOrder(ExactKey(op, v), ExactKey(op', v'))
      case _ => false
  }

  ghost predicate InPickOrder(fieldOrder: (Field, Field) -> bool, keyOrder: (ExactKey, ExactKey) -> bool, picks: seq<Pick>) {
    forall i, j :: 0 <= i < j < |picks| ==> ComesBefore(fieldOrder, keyOrder, picks[i], picks[j])
  }

  lemma {:induction false} KeysUnique(rules: seq<Rule>, f: Field)
    ensures Unique(KeysOf(rules, f))
  {
    if rules != [] {
      KeysUnique(rules[..|rules| - 1], f);
    }
  }

  lemma FieldPicksInOrder(rules: seq<Rule>, f: Field, fieldOrder: (Field, Field) -> bool, keyOrder: (ExactKey, ExactKey) -> bool)
    requires StrictTotal(keyOrder)
    ensures InPickOrder(fieldOrder, keyOrder, FieldPicks(rules, f, keyOrder))
  {
    KeysUnique(rules, f);
    SortOrders(keyOrder, KeysOf(rules, f));
    var keys, bounds := SortedBy(keyOrder, KeysOf(rules, f)), BoundPicks(rules, f);
    hide SortedBy, KeysOf, Select;
    forall i, j | 0 <= i < j < |bounds + KeyPicks(f, keys)|
      ensures ComesBefore(fieldOrder, keyOrder, (bounds + KeyPicks(f, keys))[i], (bounds + KeyPicks(f, keys))[j])
    {
      if i >= |bounds| {
        assert keyOrder(keys[i - |bounds|], keys[j - |bounds|]);
      }
    }
  }

  lemma {:induction false} PicksFollowFields(rules: seq<Rule>, fields: seq<Field>, fieldOrder: (Field, Field) -> bool,
                                             keyOrder: (ExactKey, ExactKey) -> bool)
    requires StrictTotal(fieldOrder) && StrictTotal(keyOrder) && Sorting.Ordered(fieldOrder, fields)
    ensures InPickOrder(fieldOrder, keyOrder, PicksInOrder(rules, fields, keyOrder))
  {
    hide FieldPicks, StrictTotal;
    if fields != [] {
      var n := |fields| - 1;
      PicksFollowFields(rules, fields[..n], fieldOrder, keyOrder);
      PicksOnFields(rules, fields[..n], keyOrder);
      FieldPicksLocal(rules, fields[n], keyOrder);
      FieldPicksInOrder(rules, fields[n], fieldOrder, keyOrder);
      var before, last := PicksInOrder(rules, fields[..n], keyOrder), FieldPicks(rules, fields[n], keyOrder);
      forall i, j | 0 <= i < |before| && 0 <= j < |last| ensures ComesBefore(fieldOrder, keyOrder, before[i], last[j]) {
        assert before[i] in before && last[j] in last;
        var k :| 0 <= k < n && fields[..n][k] == before[i].field;
        assert fieldOrder(fields[k], fields[n]);
        OrderIsStrict(fieldOrder, fields[k], fields[n]);
      }
    }
  }

  lemma OrderIsStrict(fieldOrder: (Field, Field) -> bool, f: Field, g: Field)
    requires StrictTotal(fieldOrder) && fieldOrder(f, g)
    ensures f != g
  {
  }

  /** The compiled constraints come in the order of their fields, and in a field bounds first. */
  lemma CompiledInOrder(rules: seq<Rule>, fieldOrder: (Field, Field) -> bool, keyOrder: (ExactKey, ExactKey) -> bool)
    requires StrictTotal(fieldOrder) && StrictTotal(keyOrder)
    ensures InPickOrder(fieldOrder, keyOrder, PicksInOrder(rules, SortedBy(fieldOrder, FieldsOf(rules)), keyOrder))
  {
    FieldsUnique(rules);
    SortOrders(fieldOrder, FieldsOf(rules));
    hide FieldsOf, SortedBy, PicksInOrder;
    PicksFollowFields(rules, SortedBy(fieldOrder, FieldsOf(rules)), fieldOrder, keyOrder);
  }

  lemma {:induction false} FieldsUnique(rules: seq<Rule>)
    ensures Unique(FieldsOf(rules))
  {
    if rules != [] {
      FieldsUnique(rules[..|rules| - 1]);
    }
  }
}
