/** The three-valued evaluator of hard constraints. */
module Evaluator {
  import opened Basics
  import opened Values

  datatype Constraint = Constraint(field: Field, operator: Operator, value: Value, sourceRuleIds: seq<Id>)

  /** A candidate's fields; a missing one reads as Null. */
  type Enterprise = map<Field, Value>

  datatype Outcome = MATCH | NO_MATCH | UNKNOWN

  /** Python's v >= w, or v <= w with the arguments swapped. */
  function AtLeast(v: Value, w: Value): Option<bool> {
    match Less(w, v)
    case None => None
    case Some(less) => Some(less || Equal(v, w))
  }

  function Not(b: Option<bool>): Option<bool> {
    if b.Some? then Some(!b.value) else None
  }

  /** _matches; None where the comparison raises TypeError. */
  function Matches(value: Value, operator: Operator, expected: Value): Option<bool> {
    match operator
    case EQ => Some(Equal(value, expected))
    case NE => Some(!Equal(value, expected))
    case GT => if value.Null? then Some(false) else Less(expected, value)
    case GTE => if value.Null? then Some(false) else AtLeast(value, expected)
    case LT => if value.Null? then Some(false) else Less(value, expected)
    case LTE => if value.Null? then Some(false) else AtLeast(expected, value)
    case IN => Contained(value, expected)
    case NOT_IN => Not(Contained(value, expected))
    case CONTAINS => if value.Null? then Some(false) else Contained(expected, value)
    case EXISTS => Some(!value.Null?)
    case NOT_EXISTS => Some(value.Null?)
  }

  function Read(e: Enterprise, f: Field): Value {
    if f in e then e[f] else Null
  }

  /** The value a constraint on the field looks at: office locations fall back to the address. */
  function FieldValue(e: Enterprise, f: Field): Value {
    if f.HasOfficeIn? then
      if Truthy(Read(e, Locations)) then Read(e, Locations)
      else if Truthy(Read(e, Address)) then List([Read(e, Address)])
      else Null
    else Read(e, f)
  }

  datatype Verdict = Passes | Fails | Unknown | Raises

  function Judge(e: Enterprise, c: Constraint): Verdict {
    var v := FieldValue(e, c.field);
    if v.Null? then Unknown
    else
      match Matches(v, c.operator, c.value)
      case None => Raises
      case Some(m) => if m then Passes else Fails
  }

  /** In order: the first failure or exception decides, an unknown value only spoils a match. */
  function Evaluated(e: Enterprise, cs: seq<Constraint>): Option<Outcome> {
    if cs == [] then Some(MATCH)
    else
      match Judge(e, cs[0])
      case Fails => Some(NO_MATCH)
      case Raises => None
      case Passes => Evaluated(e, cs[1..])
      case Unknown => if Evaluated(e, cs[1..]) == Some(MATCH) then Some(UNKNOWN) else Evaluated(e, cs[1..])
  }

  method Evaluate(e: Enterprise, cs: seq<Constraint>) returns (r: Option<Outcome>)
    ensures r == Evaluated(e, cs)
  {
    var unknown := false;
    for i := 0 to |cs|
      invariant Evaluated(e, cs) ==
                if unknown && Evaluated(e, cs[i..]) == Some(MATCH) then Some(UNKNOWN) else Evaluated(e, cs[i..])
    {
      assert cs[i..][1..] == cs[i + 1..];
      var v := FieldValue(e, cs[i].field);
      if v.Null? {
        unknown := true;
        continue;
      }
      var m := Matches(v, cs[i].operator, cs[i].value);
      if m.None? {
        return None;
      }
      if !m.value {
        return Some(NO_MATCH);
      }
    }
    return Some(if unknown then UNKNOWN else MATCH);
  }

  ghost predicate AnyVerdict(e: Enterprise, cs: seq<Constraint>, v: Verdict) {
    exists c <- cs :: Judge(e, c) == v
  }

  /** Order does not matter while no comparison raises: one failure makes NO_MATCH, else one unknown makes UNKNOWN. */
  lemma {:induction false} EvaluatedMeaning(e: Enterprise, cs: seq<Constraint>)
    requires !AnyVerdict(e, cs, Raises)
    ensures Evaluated(e, cs) ==
            Some(if AnyVerdict(e, cs, Fails) then NO_MATCH else if AnyVerdict(e, cs, Unknown) then UNKNOWN else MATCH)
  {
    if cs != [] {
      assert cs == [cs[0]] + cs[1..];
      assert forall c <- cs[1..] :: c in cs;
      EvaluatedMeaning(e, cs[1..]);
      assert forall c <- cs :: c == cs[0] || c in cs[1..];
    }
  }

  /** A comparison that raises decides when nothing fails, wherever it stands. */
  lemma {:induction false} RaiseDecides(e: Enterprise, cs: seq<Constraint>)
    requires AnyVerdict(e, cs, Raises) && !AnyVerdict(e, cs, Fails)
    ensures Evaluated(e, cs) == None
  {
    assert cs == [cs[0]] + cs[1..];
    assert cs[0] in cs && forall c <- cs[1..] :: c in cs;
    if Judge(e, cs[0]) != Raises {
      assert AnyVerdict(e, cs[1..], Raises);
      RaiseDecides(e, cs[1..]);
    }
  }

  // ---------------------------------------------------------------------------------------------
  // Laws between the operators

  /** The outcome of a single constraint. */
  function Alone(e: Enterprise, f: Field, op: Operator, expected: Value): (r: Option<Outcome>)
    ensures r == match Judge(e, Constraint(f, op, expected, []))
                 case Passes => Some(MATCH)
                 case Fails => Some(NO_MATCH)
                 case Unknown => Some(UNKNOWN)
                 case Raises => None
  {
    var c := Constraint(f, op, expected, []);
    assert [c][1..] == [] && Evaluated(e, [c][1..]) == Some(MATCH);
    Evaluated(e, [c])
  }

  /** An unknown value leaves every constraint open, EXISTS and NOT_EXISTS included. */
  lemma UnknownStaysOpen(e: Enterprise, f: Field, op: Operator, expected: Value)
    requires FieldValue(e, f).Null?
    ensures Alone(e, f, op, expected) == Some(UNKNOWN)
  {
  }

  /** The two outcomes of a known value. */
  predicate Opposite(r: Option<Outcome>, s: Option<Outcome>) {
    (r == None && s == None) || (r == Some(MATCH) && s == Some(NO_MATCH)) || (r == Some(NO_MATCH) && s == Some(MATCH))
  }

  /** A known value meets exactly one of EQ and NE, of IN and NOT_IN, of EXISTS and NOT_EXISTS, unless the comparison
      raises, and then it raises for both. EXISTS is the one it meets. */
  lemma OppositeOperators(e: Enterprise, f: Field, expected: Value)
    requires !FieldValue(e, f).Null?
    ensures Opposite(Alone(e, f, EQ, expected), Alone(e, f, NE, expected))
    ensures Opposite(Alone(e, f, IN, expected), Alone(e, f, NOT_IN, expected))
    ensures Opposite(Alone(e, f, EXISTS, expected), Alone(e, f, NOT_EXISTS, expected))
    ensures Alone(e, f, EXISTS, expected) == Some(MATCH)
    ensures Alone(e, f, EQ, expected).Some?
  {
  }

  /** Over numbers and over texts each bound is the opposite of the reverse one. */
  lemma OppositeBounds(e: Enterprise, f: Field, expected: Value)
    requires var v := FieldValue(e, f); (IsNumber(v) && IsNumber(expected)) || (v.Text? && expected.Text?)
    ensures Alone(e, f, GT, expected).Some? && Alone(e, f, LT, expected).Some?
    ensures Opposite(Alone(e, f, GT, expected), Alone(e, f, LTE, expected))
    ensures Opposite(Alone(e, f, LT, expected), Alone(e, f, GTE, expected))
    ensures Alone(e, f, GTE, expected) == Some(MATCH) && Alone(e, f, LTE, expected) == Some(MATCH)
            <==> Alone(e, f, EQ, expected) == Some(MATCH)
  {
    var v := FieldValue(e, f);
    OneOfThree(v, expected);
    hide Less, Equal, FieldValue, IsNumber;
  }

  /** Two numbers, or two texts, are equal or one is less, and just one of these. */
  lemma OneOfThree(v: Value, w: Value)
    requires (IsNumber(v) && IsNumber(w)) || (v.Text? && w.Text?)
    ensures Less(v, w).Some? && Less(w, v).Some? && !(Less(v, w).value && Less(w, v).value)
    ensures Equal(v, w) <==> !Less(v, w).value && !Less(w, v).value
  {
    if v.Text? {
      TextLessTotal(v.s, w.s);
      if TextLess(v.s, w.s) && TextLess(w.s, v.s) {
        TextLessTransitive(v.s, w.s, v.s);
        TextLessTotal(v.s, v.s);
      }
    }
  }

  lemma ItemOrIndex(items: seq<Value>, v: Value)
    ensures (exists i | 0 <= i < |items| :: Equal(v, items[i])) <==> exists item <- items :: Equal(v, item)
  {
    if item :| item in items && Equal(v, item) {
      var i :| 0 <= i < |items| && items[i] == item;
    }
    if i :| 0 <= i < |items| && Equal(v, items[i]) {
      assert items[i] in items;
    }
  }

  /** On a list IN asks for an equal item; on a text it asks for a part, and raises for anything but a text. */
  lemma InMeansMember(e: Enterprise, f: Field, expected: Value)
    requires !FieldValue(e, f).Null?
    ensures var v := FieldValue(e, f);
            && (expected.List? ==>
                  Alone(e, f, IN, expected)
                  == Some(if exists item <- expected.items :: Equal(v, item) then MATCH else NO_MATCH))
            && (expected.Text? && v.Text? ==>
                  Alone(e, f, IN, expected)
                  == Some(if exists before, after :: expected.s == before + v.s + after then MATCH else NO_MATCH))
            && (!expected.List? && !(expected.Text? && v.Text?) ==> Alone(e, f, IN, expected) == None)
  {
    var v := FieldValue(e, f);
    if expected.List? {
      ItemOrIndex(expected.items, v);
    } else if expected.Text? && v.Text? {
      PartOf(v.s, expected.s);
    }
  }

  lemma PartOf(s: string, t: string)
    ensures (exists i | 0 <= i <= |t| :: OccursAt(s, t, i)) <==> exists before, after :: t == before + s + after
  {
    if i :| 0 <= i <= |t| && OccursAt(s, t, i) {
      assert t == t[..i] + s + t[i + |s|..];
    }
    if before, after :| t == before + s + after {
      assert t[|before|..|before| + |s|] == s;
      assert OccursAt(s, t, |before|);
    }
  }

  /** CONTAINS is IN with the sides exchanged. */
  lemma ContainsMirrorsIn(e: Enterprise, f: Field, d: Enterprise, g: Field)
    requires !FieldValue(e, f).Null? && !FieldValue(d, g).Null?
    ensures Alone(e, f, CONTAINS, FieldValue(d, g)) == Alone(d, g, IN, FieldValue(e, f))
  {
  }

  /** Equal lists contain the same values. */
  lemma EqualListsContain(v: Value, w: Value, u: Value)
    requires Equal(w, u)
    ensures Contained(v, w) == Contained(v, u)
  {
    if w.List? && u.List? {
      forall i | 0 <= i < |w.items| ensures Equal(v, w.items[i]) == Equal(v, u.items[i]) {
        EqualIsCongruent(w.items[i], u.items[i], v);
        EqualIsSymmetric(v, w.items[i]);
        EqualIsSymmetric(v, u.items[i]);
      }
    }
  }

  /** No value meets IN and NOT_IN against equal values: a true contradiction. */
  lemma IncludeExcludeContradict(e: Enterprise, f: Field, w: Value, u: Value)
    requires Equal(w, u)
    ensures !(Alone(e, f, IN, w) == Some(MATCH) && Alone(e, f, NOT_IN, u) == Some(MATCH))
  {
    EqualListsContain(FieldValue(e, f), w, u);
    hide Contained, Equal;
  }

  /** Nor does one equal two different values. */
  lemma EqualitiesContradict(e: Enterprise, f: Field, w: Value, u: Value)
    requires !Equal(w, u)
    ensures !(Alone(e, f, EQ, w) == Some(MATCH) && Alone(e, f, EQ, u) == Some(MATCH))
  {
    var v := FieldValue(e, f);
    if Equal(v, w) {
      EqualIsCongruent(v, w, u);
    }
    hide Equal;
  }

  /** What an office filter looks at: the locations if there are any, else the address alone; it stays open exactly while
      neither is known. */
  lemma OfficesAreLocations(e: Enterprise, place: string)
    ensures var known := (f: Field) => f in e && e[f] != Null && e[f] != Text("") && e[f] != List([]) && !IsNumber(e[f]);
            && (known(Locations) && e[Locations].List? ==>
                  Alone(e, HasOfficeIn, CONTAINS, Text(place))
                  == Some(if exists item <- e[Locations].items :: Equal(Text(place), item) then MATCH else NO_MATCH))
            && (Locations !in e && known(Address) ==>
                  Alone(e, HasOfficeIn, CONTAINS, Text(place)) == Some(if e[Address] == Text(place) then MATCH else NO_MATCH))
            && (Locations !in e && Address !in e ==> Alone(e, HasOfficeIn, CONTAINS, Text(place)) == Some(UNKNOWN))
  {
    if Locations in e && Truthy(e[Locations]) && e[Locations].List? {
      ItemOrIndex(e[Locations].items, Text(place));
    } else if Locations !in e && Address in e {
      assert List([e[Address]]).items[0] == e[Address];
    }
  }

  /** Compared directly, as preferences are, a missing value passes no bound, contains nothing and does not exist; it
      equals only None. */
  lemma MissingPasses(op: Operator, expected: Value)
    ensures op in {GT, GTE, LT, LTE, CONTAINS, EXISTS} ==> Matches(Null, op, expected) == Some(false)
    ensures Matches(Null, NOT_EXISTS, expected) == Some(true)
    ensures Matches(Null, EQ, expected) == Some(expected == Null) && Matches(Null, NE, expected) == Some(expected != Null)
  {
  }
}
