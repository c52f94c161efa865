/** The dynamic values rules and enterprises carry, with Python's equality, ordering and containment. */
module Values {
  import opened Basics

  datatype Value =
    | Null
    | Bool(b: bool)
    | Int(n: int)
    | Float(x: real)
    | Text(s: string)
    | List(items: seq<Value>)

  datatype Operator = EQ | NE | GT | GTE | LT | LTE | IN | NOT_IN | CONTAINS | EXISTS | NOT_EXISTS

  /** Fields the code treats by name, and all others. */
  datatype Field = HasOfficeIn | Locations | Address | Named(id: Id)

  /** isinstance(v, (int, float)): booleans are integers in Python. */
  predicate IsNumber(v: Value) {
    v.Bool? || v.Int? || v.Float?
  }

  function AsReal(v: Value): real
    requires IsNumber(v)
  {
    match v
    case Bool(b) => if b then 1.0 else 0.0
    case Int(n) => n as real
    case Float(x) => x
  }

  predicate Truthy(v: Value) {
    match v
    case Null => false
    case Bool(b) => b
    case Int(n) => n != 0
    case Float(x) => x != 0.0
    case Text(s) => s != ""
    case List(items) => items != []
  }

  /** Python's ==: numbers compare by value across types, lists element by element. */
  predicate Equal(v: Value, w: Value) {
    if IsNumber(v) && IsNumber(w) then AsReal(v) == AsReal(w)
    else if v.List? && w.List? then
      |v.items| == |w.items| && forall i | 0 <= i < |v.items| :: Equal(v.items[i], w.items[i])
    else v == w
  }

  predicate TextLess(s: string, t: string) {
    if t == "" then false
    else if s == "" then true
    else s[0] < t[0] || (s[0] == t[0] && TextLess(s[1..], t[1..]))
  }

  /** Python's <; None where it raises TypeError. Lists compare at the first unequal position. */
  function Less(v: Value, w: Value): Option<bool> {
    if IsNumber(v) && IsNumber(w) then Some(AsReal(v) < AsReal(w))
    else if v.Text? && w.Text? then Some(TextLess(v.s, w.s))
    else if v.List? && w.List? then LessList(v.items, w.items)
    else None
  }

  function LessList(vs: seq<Value>, ws: seq<Value>): Option<bool> {
    if ws == [] then Some(false)
    else if vs == [] then Some(true)
    else if Equal(vs[0], ws[0]) then LessList(vs[1..], ws[1..])
    else Less(vs[0], ws[0])
  }

  predicate OccursAt(s: string, t: string, i: nat) {
    i + |s| <= |t| && t[i..i + |s|] == s
  }

  /** Python's v in w; None where it raises TypeError. */
  function Contained(v: Value, w: Value): Option<bool> {
    match w
    case List(items) => Some(exists i | 0 <= i < |items| :: Equal(v, items[i]))
    case Text(t) =>
      if v.Text? then Some(exists i | 0 <= i <= |t| :: OccursAt(v.s, t, i)) else None
    case _ => None
  }

  lemma {:induction false} EqualIsReflexive(v: Value)
    ensures Equal(v, v)
  {
    if v.List? {
      forall i | 0 <= i < |v.items| ensures Equal(v.items[i], v.items[i]) {
        EqualIsReflexive(v.items[i]);
      }
    }
  }

  lemma {:induction false} EqualIsSymmetric(v: Value, w: Value)
    ensures Equal(v, w) == Equal(w, v)
  {
    if v.List? && w.List? && |v.items| == |w.items| {
      forall i | 0 <= i < |v.items| ensures Equal(v.items[i], w.items[i]) == Equal(w.items[i], v.items[i]) {
        EqualIsSymmetric(v.items[i], w.items[i]);
      }
    }
  }

  /** Equal values are interchangeable in every comparison. */
  lemma {:induction false} EqualIsCongruent(v: Value, w: Value, u: Value)
    requires Equal(v, w)
    ensures Equal(v, u) == Equal(w, u)
    ensures Less(v, u) == Less(w, u) && Less(u, v) == Less(u, w)
    decreases v, 1
  {
    if v.List? && u.List? {
      if |v.items| == |u.items| {
        forall i | 0 <= i < |v.items| ensures Equal(v.items[i], u.items[i]) == Equal(w.items[i], u.items[i]) {
          EqualIsCongruent(v.items[i], w.items[i], u.items[i]);
        }
      }
      EqualListsCompare(v.items, w.items, u.items);
    }
  }

  lemma {:induction false} EqualListsCompare(vs: seq<Value>, ws: seq<Value>, us: seq<Value>)
    requires |vs| == |ws| && forall i :: 0 <= i < |vs| ==> Equal(vs[i], ws[i])
    ensures LessList(vs, us) == LessList(ws, us) && LessList(us, vs) == LessList(us, ws)
    decreases vs, 0
  {
    if vs != [] && us != [] {
      EqualIsCongruent(vs[0], ws[0], us[0]);
      EqualIsSymmetric(vs[0], us[0]);
      EqualIsSymmetric(ws[0], us[0]);
      EqualListsCompare(vs[1..], ws[1..], us[1..]);
    }
  }

  // ---------------------------------------------------------------------------------------------
  // Texts are totally ordered

  lemma {:induction false} TextLessTransitive(s: string, t: string, u: string)
    requires TextLess(s, t) && TextLess(t, u)
    ensures TextLess(s, u)
  {
    if s != "" && s[0] == t[0] == u[0] {
      TextLessTransitive(s[1..], t[1..], u[1..]);
    }
  }

  lemma {:induction false} TextLessTotal(s: string, t: string)
    ensures s == t || TextLess(s, t) || TextLess(t, s)
    ensures !(s == t && TextLess(s, t))
  {
    if s != "" && t != "" && s[0] == t[0] {
      TextLessTotal(s[1..], t[1..]);
      assert s == [s[0]] + s[1..] && t == [t[0]] + t[1..];
    }
  }

  // ---------------------------------------------------------------------------------------------
  // Python's rules in examples and laws

  /** Numbers of all three kinds are compared by value, inside lists too, and equal no text, list or None. */
  lemma NumbersCompareByValue(b: bool, n: int, x: real, v: Value)
    ensures Equal(Bool(b), Int(if b then 1 else 0)) && Equal(Int(n), Float(n as real))
    ensures Equal(List([Int(n)]), List([Float(n as real)])) && !Equal(List([Int(n)]), List([Int(n + 1)]))
    ensures Equal(Int(n), Float(x)) <==> n as real == x
    ensures !IsNumber(v) ==> !Equal(v, Int(n)) && Less(v, Int(n)).None? && Less(Int(n), v).None?
    ensures Less(Int(n), Float(x)) == Some(n as real < x) && Less(Bool(false), Bool(true)) == Some(true)
  {
    assert List([Int(n)]).items[0] == Int(n) && List([Int(n + 1)]).items[0] == Int(n + 1);
    assert !Equal(Int(n), Int(n + 1));
  }

  /** Falsy are None, zero of any kind, and the empty text and list. */
  lemma TruthyIff(v: Value)
    ensures IsNumber(v) ==> (Truthy(v) <==> !Equal(v, Int(0)))
    ensures !IsNumber(v) ==> (Truthy(v) <==> v != Null && v != Text("") && v != List([]))
  {
  }

  /** Texts are ordered by their first difference, a beginning before the whole. */
  lemma {:induction false} TextsByFirstDifference(common: string, a: char, b: char, s: string, t: string)
    ensures t != "" ==> TextLess(common, common + t)
    ensures a < b ==> TextLess(common + [a] + s, common + [b] + t)
    ensures a > b ==> !TextLess(common + [a] + s, common + [b] + t)
  {
    var l, r := common + [a] + s, common + [b] + t;
    if common != "" {
      assert l[1..] == common[1..] + [a] + s && r[1..] == common[1..] + [b] + t && (common + t)[1..] == common[1..] + t;
      TextsByFirstDifference(common[1..], a, b, s, t);
    }
  }

  /** Lists are ordered by their first unequal items, a beginning before the whole. */
  lemma {:induction false} ListsByFirstDifference(common: seq<Value>, v: Value, w: Value, vs: seq<Value>, ws: seq<Value>)
    requires !Equal(v, w)
    ensures vs != [] ==> Less(List(common), List(common + vs)) == Some(true)
    ensures Less(List(common + [v] + vs), List(common + [w] + ws)) == Less(v, w)
  {
    var l, r := common + [v] + vs, common + [w] + ws;
    if common != [] {
      assert l[1..] == common[1..] + [v] + vs && r[1..] == common[1..] + [w] + ws && (common + vs)[1..] == common[1..] + vs;
      EqualIsReflexive(common[0]);
      ListsByFirstDifference(common[1..], v, w, vs, ws);
    }
  }
}
