/** Small datatypes and sequence vocabulary shared by every module of the model. */
module Basics {

  /** Identifiers (uuids, request, thread and workspace ids) are only compared, so a number stands for each.
      Canonical uuid strings sort as the numbers they spell. */
  type Id = int

  datatype Option<+T> = None | Some(value: T)
  {
    function GetOr(default: T): T {
      if Some? then value else default
    }
  }

  datatype Result<+T, +E> = Success(value: T) | Failure(error: E)

  /** Value stored under a key, as Python's dict.get returns it. */
  function Get<K, V>(m: map<K, V>, k: K): Option<V> {
    if k in m then Some(m[k]) else None
  }

  function MaxReal(x: real, y: real): real {
    if x < y then y else x
  }

  function MinReal(x: real, y: real): real {
    if y < x then y else x
  }

  /** itertools.combinations(xs, 2): every pair, left element first, in index order. */
  function Combinations<T>(xs: seq<T>): (r: seq<(T, T)>) {
    if xs == [] then []
    else seq(|xs| - 1, k requires 0 <= k < |xs| - 1 => (xs[0], xs[k + 1])) + Combinations(xs[1..])
  }

  /** Exactly the index-ordered pairs of elements are combined. */
  lemma {:induction false} CombinationsMember<T>(xs: seq<T>, a: T, b: T)
    ensures (a, b) in Combinations(xs) <==> exists i, j :: 0 <= i < j < |xs| && xs[i] == a && xs[j] == b
  {
    if xs != [] {
      CombinationsMember(xs[1..], a, b);
      var head := seq(|xs| - 1, k requires 0 <= k < |xs| - 1 => (xs[0], xs[k + 1]));
      assert Combinations(xs) == head + Combinations(xs[1..]);
      if exists i, j :: 0 <= i < j < |xs| && xs[i] == a && xs[j] == b {
        var i, j :| 0 <= i < j < |xs| && xs[i] == a && xs[j] == b;
        if i == 0 {
          assert head[j - 1] == (a, b);
        } else {
          assert xs[1..][i - 1] == a && xs[1..][j - 1] == b;
        }
      }
      if (a, b) in head {
        var k :| 0 <= k < |head| && head[k] == (a, b);
        assert xs[0] == a && xs[k + 1] == b;
      } else if (a, b) in Combinations(xs[1..]) {
        var i, j :| 0 <= i < j < |xs[1..]| && xs[1..][i] == a && xs[1..][j] == b;
        assert xs[i + 1] == a && xs[j + 1] == b;
      }
    }
  }

  lemma {:induction false} MinExists(s: set<Id>)
    requires s != {}
    ensures exists m :: m in s && forall y <- s :: m <= y
  {
    assert (forall x :: x !in s) ==> s == {};
    var x :| x in s;
    if s != {x} {
      var rest := s - {x};
      MinExists(rest);
      var m :| m in rest && forall y <- rest :: m <= y;
      var least := if x < m then x else m;
      forall y <- s ensures least <= y {
        assert y == x || y in rest;
      }
    }
  }

  function Min(s: set<Id>): (m: Id)
    requires s != {}
    ensures m in s && forall y <- s :: m <= y
  {
    MinExists(s);
    var m :| m in s && forall y <- s :: m <= y;
    m
  }

  /** There is always a new id. */
  lemma {:induction false} Unused(s: set<Id>) returns (x: Id)
    ensures forall y <- s :: y < x
  {
    x := 0;
    if s != {} {
      assert (forall z :: z !in s) ==> s == {};
      var z :| z in s;
      var above := Unused(s - {z});
      x := if z < above then above else z + 1;
      forall y <- s ensures y < x {
        assert y == z || y in s - {z};
      }
    }
  }

  /** sorted(ids) of a set. */
  function Sorted(s: set<Id>): seq<Id> {
    if s == {} then [] else [Min(s)] + Sorted(s - {Min(s)})
  }

  ghost predicate Ascending(ids: seq<Id>) {
    forall i, j :: 0 <= i < j < |ids| ==> ids[i] < ids[j]
  }

  lemma {:induction false} SortedFacts(s: set<Id>)
    ensures forall x :: x in Sorted(s) <==> x in s
    ensures Ascending(Sorted(s))
  {
    if s != {} {
      var rest := Sorted(s - {Min(s)});
      SortedFacts(s - {Min(s)});
      assert Sorted(s) == [Min(s)] + rest;
      forall j | 0 <= j < |rest| ensures Min(s) < rest[j] {
        assert rest[j] in rest;
      }
    }
  }

  /** Pairing the elements of an ascending list yields every two of them, the smaller one first. */
  lemma AscendingPairs(ids: seq<Id>, a: Id, b: Id)
    requires Ascending(ids)
    ensures (a, b) in Combinations(ids) <==> a in ids && b in ids && a < b
  {
    CombinationsMember(ids, a, b);
    if a in ids && b in ids && a < b {
      var i :| 0 <= i < |ids| && ids[i] == a;
      var j :| 0 <= j < |ids| && ids[j] == b;
      assert i < j;
    }
  }

  /** Index order: by the first index, then by the second. */
  predicate Earlier(a: (nat, nat), b: (nat, nat)) {
    a.0 < b.0 || (a.0 == b.0 && a.1 < b.1)
  }

  ghost predicate InIndexOrder(at: seq<(nat, nat)>) {
    forall k, l :: 0 <= k < l < |at| ==> Earlier(at[k], at[l])
  }

  /** These places hold the pairs of the elements they name. */
  ghost predicate PairsAt<T>(xs: seq<T>, pairs: seq<(T, T)>, at: seq<(nat, nat)>) {
    |at| == |pairs| && forall k :: 0 <= k < |at| ==> at[k].0 < at[k].1 < |xs| && pairs[k] == (xs[at[k].0], xs[at[k].1])
  }

  /** Every two places are among these. */
  ghost predicate AllPlaces(n: nat, at: seq<(nat, nat)>) {
    forall i, j :: 0 <= i < j < n ==> (i, j) in at
  }

  function Shifted(at: seq<(nat, nat)>): seq<(nat, nat)> {
    seq(|at|, k requires 0 <= k < |at| => (at[k].0 + 1, at[k].1 + 1))
  }

  lemma ShiftedPlaces(n: nat, first: seq<(nat, nat)>, rest: seq<(nat, nat)>)
    requires AllPlaces(n, rest) && |first| == n && forall k :: 0 <= k < n ==> first[k] == (0, k + 1)
    ensures AllPlaces(n + 1, first + Shifted(rest))
  {
    var at := first + Shifted(rest);
    forall i, j | 0 <= i < j < n + 1 ensures (i, j) in at {
      if i == 0 {
        assert at[j - 1] == (0, j);
      } else {
        assert (i - 1, j - 1) in rest;
        var k :| 0 <= k < |rest| && rest[k] == (i - 1, j - 1);
        assert at[n + k] == (i, j);
      }
    }
  }

  lemma ShiftedInOrder(n: nat, first: seq<(nat, nat)>, rest: seq<(nat, nat)>)
    requires InIndexOrder(rest) && |first| == n && forall k :: 0 <= k < n ==> first[k] == (0, k + 1)
    ensures InIndexOrder(first + Shifted(rest))
  {
    var at := first + Shifted(rest);
    forall k, l | 0 <= k < l < |at| ensures Earlier(at[k], at[l]) {
      if k >= n {
        assert Earlier(rest[k - n], rest[l - n]);
      }
    }
  }

  lemma CombinationAt<T>(xs: seq<T>, k: nat)
    requires xs != []
    ensures |Combinations(xs)| == |xs| - 1 + |Combinations(xs[1..])|
    ensures k < |Combinations(xs)| ==>
              Combinations(xs)[k] == if k < |xs| - 1 then (xs[0], xs[k + 1]) else Combinations(xs[1..])[k - (|xs| - 1)]
  {
  }

  /** The k-th pair, given the places of the pairs of the rest. */
  lemma ShiftedPair<T>(xs: seq<T>, rest: seq<(nat, nat)>, k: nat)
    requires xs != [] && PairsAt(xs[1..], Combinations(xs[1..]), rest) && k < |Combinations(xs)|
    ensures var n := |xs| - 1;
            && |Combinations(xs)| == n + |rest|
            && if k < n then Combinations(xs)[k] == (xs[0], xs[k + 1])
               else rest[k - n].0 < rest[k - n].1 < n && Combinations(xs)[k] == (xs[rest[k - n].0 + 1], xs[rest[k - n].1 + 1])
  {
    CombinationAt(xs, k);
    hide Combinations;
  }

  lemma ShiftedPairs<T>(xs: seq<T>, first: seq<(nat, nat)>, rest: seq<(nat, nat)>)
    requires xs != [] && PairsAt(xs[1..], Combinations(xs[1..]), rest)
    requires |first| == |xs| - 1 && forall k :: 0 <= k < |first| ==> first[k] == (0, k + 1)
    ensures PairsAt(xs, Combinations(xs), first + Shifted(rest))
  {
    hide Combinations, PairsAt;
    var at := first + Shifted(rest);
    CombinationAt(xs, 0);
    assert |rest| == |Combinations(xs[1..])| by { SameNumber(xs[1..], rest); }
    forall k | 0 <= k < |at|
      ensures at[k].0 < at[k].1 < |xs| && Combinations(xs)[k] == (xs[at[k].0], xs[at[k].1])
    {
      ShiftedPair(xs, rest, k);
    }
    PairsAtIs(xs, Combinations(xs), at);
  }

  lemma SameNumber<T>(xs: seq<T>, at: seq<(nat, nat)>)
    requires PairsAt(xs, Combinations(xs), at)
    ensures |at| == |Combinations(xs)|
  {
  }

  lemma PairsAtIs<T>(xs: seq<T>, pairs: seq<(T, T)>, at: seq<(nat, nat)>)
    requires |at| == |pairs|
    requires forall k :: 0 <= k < |at| ==> at[k].0 < at[k].1 < |xs| && pairs[k] == (xs[at[k].0], xs[at[k].1])
    ensures PairsAt(xs, pairs, at)
  {
  }

  /** Pairs come in index order: all pairs of the first element, then all pairs of the second, and so on. */
  lemma {:induction false} CombinationsInOrder<T>(xs: seq<T>) returns (at: seq<(nat, nat)>)
    ensures PairsAt(xs, Combinations(xs), at) && InIndexOrder(at) && AllPlaces(|xs|, at)
  {
    at := [];
    if xs != [] {
      hide InIndexOrder, AllPlaces, PairsAt, Combinations;
      var n := |xs| - 1;
      var rest := CombinationsInOrder(xs[1..]);
      var first := seq(n, k requires 0 <= k < n => (0 as nat, (k + 1) as nat));
      at := first + Shifted(rest);
      ShiftedPairs(xs, first, rest);
      ShiftedPlaces(n, first, rest);
      ShiftedInOrder(n, first, rest);
    }
  }
}
