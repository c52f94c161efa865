/** Union-find with path halving, as `resolve` runs it over candidate ids, against the equivalence closure. */
module UnionFind {
  import opened Basics

  // ---------------------------------------------------------------------------------------------
  // The smallest equivalence containing a set of pairs

  ghost predicate Linked(pairs: set<(Id, Id)>, x: Id, y: Id) {
    (x, y) in pairs || (y, x) in pairs
  }

  ghost predicate Walk(pairs: set<(Id, Id)>, w: seq<Id>) {
    w != [] && forall i :: 0 <= i < |w| - 1 ==> Linked(pairs, w[i], w[i + 1])
  }

  ghost predicate WalksFromTo(pairs: set<(Id, Id)>, w: seq<Id>, x: Id, y: Id) {
    Walk(pairs, w) && w[0] == x && w[|w| - 1] == y
  }

  ghost predicate Connected(pairs: set<(Id, Id)>, x: Id, y: Id) {
    exists w :: WalksFromTo(pairs, w, x, y)
  }

  lemma ConnectedReflexive(pairs: set<(Id, Id)>, x: Id)
    ensures Connected(pairs, x, x)
  {
    assert WalksFromTo(pairs, [x], x, x);
  }

  lemma ConnectedTransitive(pairs: set<(Id, Id)>, x: Id, y: Id, z: Id)
    requires Connected(pairs, x, y) && Connected(pairs, y, z)
    ensures Connected(pairs, x, z)
  {
    var v :| WalksFromTo(pairs, v, x, y);
    var w :| WalksFromTo(pairs, w, y, z);
    var u := v + w[1..];
    forall i | 0 <= i < |u| - 1 ensures Linked(pairs, u[i], u[i + 1]) {
      if i < |v| - 1 {
        assert u[i] == v[i] && u[i + 1] == v[i + 1];
      } else {
        var j := i - (|v| - 1);
        assert u[i + 1] == w[j + 1];
        assert u[i] == w[j];
      }
    }
    assert WalksFromTo(pairs, u, x, z);
  }

  lemma ConnectedLink(pairs: set<(Id, Id)>, x: Id, y: Id)
    requires Linked(pairs, x, y)
    ensures Connected(pairs, x, y)
  {
    assert WalksFromTo(pairs, [x, y], x, y);
  }

  lemma {:induction false} WalkReversed(pairs: set<(Id, Id)>, w: seq<Id>)
    requires Walk(pairs, w)
    ensures Connected(pairs, w[|w| - 1], w[0])
    decreases |w|
  {
    if |w| == 1 {
      ConnectedReflexive(pairs, w[0]);
    } else {
      WalkReversed(pairs, w[1..]);
      assert Linked(pairs, w[0], w[1]);
      ConnectedLink(pairs, w[1], w[0]);
      ConnectedTransitive(pairs, w[|w| - 1], w[1], w[0]);
    }
  }

  lemma ConnectedSymmetric(pairs: set<(Id, Id)>, x: Id, y: Id)
    requires Connected(pairs, x, y)
    ensures Connected(pairs, y, x)
  {
    var w :| WalksFromTo(pairs, w, x, y);
    WalkReversed(pairs, w);
  }

  ghost predicate Equivalence(r: (Id, Id) -> bool) {
    && (forall x :: r(x, x))
    && (forall x, y :: r(x, y) ==> r(y, x))
    && (forall x, y, z :: r(x, y) && r(y, z) ==> r(x, z))
  }

  lemma {:induction false} WalkInside(pairs: set<(Id, Id)>, w: seq<Id>, r: (Id, Id) -> bool)
    requires Walk(pairs, w) && Equivalence(r) && forall p <- pairs :: r(p.0, p.1)
    ensures r(w[0], w[|w| - 1])
    decreases |w|
  {
    if |w| > 1 {
      WalkInside(pairs, w[1..], r);
      var x: Id, u: Id, y: Id := w[0], w[1], w[|w| - 1];
      assert Linked(pairs, x, u);
      assert (x, u) in pairs ==> r((x, u).0, (x, u).1);
      assert (u, x) in pairs ==> r((u, x).0, (u, x).1);
      assert r(x, u) && r(u, y);
    } else {
      var x: Id := w[0];
      assert r(x, x);
    }
  }

  ghost function Closure(pairs: set<(Id, Id)>): (Id, Id) -> bool {
    (x, y) => Connected(pairs, x, y)
  }

  /** Connectedness is an equivalence that holds the pairs, and the smallest one: any other holds everything connected. */
  lemma ConnectedIsSmallest(pairs: set<(Id, Id)>)
    ensures Equivalence(Closure(pairs)) && forall p <- pairs :: Closure(pairs)(p.0, p.1)
    ensures forall r: (Id, Id) -> bool, x, y ::
              Equivalence(r) && (forall p <- pairs :: r(p.0, p.1)) && Connected(pairs, x, y) ==> r(x, y)
  {
    forall x: Id ensures Connected(pairs, x, x) {
      ConnectedReflexive(pairs, x);
    }
    forall x: Id, y: Id | Connected(pairs, x, y) ensures Connected(pairs, y, x) {
      ConnectedSymmetric(pairs, x, y);
    }
    forall x: Id, y: Id, z: Id | Connected(pairs, x, y) && Connected(pairs, y, z) ensures Connected(pairs, x, z) {
      ConnectedTransitive(pairs, x, y, z);
    }
    forall p <- pairs ensures Connected(pairs, p.0, p.1) {
      ConnectedLink(pairs, p.0, p.1);
    }
    forall r: (Id, Id) -> bool, x: Id, y: Id
      | Equivalence(r) && (forall p <- pairs :: r(p.0, p.1)) && Connected(pairs, x, y)
      ensures r(x, y)
    {
      var w :| WalksFromTo(pairs, w, x, y);
      WalkInside(pairs, w, r);
    }
  }

  lemma ConnectedGrows(pairs: set<(Id, Id)>, more: set<(Id, Id)>, x: Id, y: Id)
    requires Connected(pairs, x, y) && pairs <= more
    ensures Connected(more, x, y)
  {
    var w :| WalksFromTo(pairs, w, x, y);
    forall i | 0 <= i < |w| - 1 ensures Linked(more, w[i], w[i + 1]) {
      assert Linked(pairs, w[i], w[i + 1]);
    }
    assert WalksFromTo(more, w, x, y);
  }

  /** What one more pair connects. */
  ghost predicate Bridged(pairs: set<(Id, Id)>, a: Id, b: Id, x: Id, y: Id) {
    || Connected(pairs, x, y)
    || (Connected(pairs, x, a) && Connected(pairs, b, y))
    || (Connected(pairs, x, b) && Connected(pairs, a, y))
  }

  lemma BridgedStep(pairs: set<(Id, Id)>, a: Id, b: Id, x: Id, u: Id, y: Id)
    requires Linked(pairs + {(a, b)}, x, u) && Bridged(pairs, a, b, u, y)
    ensures Bridged(pairs, a, b, x, y)
  {
    if Linked(pairs, x, u) {
      ConnectedLink(pairs, x, u);
      if Connected(pairs, u, y) {
        ConnectedTransitive(pairs, x, u, y);
      } else if Connected(pairs, u, a) && Connected(pairs, b, y) {
        ConnectedTransitive(pairs, x, u, a);
      } else {
        ConnectedTransitive(pairs, x, u, b);
      }
    } else {
      ConnectedReflexive(pairs, x);
    }
  }

  lemma {:induction false} WalkBridged(pairs: set<(Id, Id)>, a: Id, b: Id, w: seq<Id>)
    requires Walk(pairs + {(a, b)}, w)
    ensures Bridged(pairs, a, b, w[0], w[|w| - 1])
    decreases |w|
  {
    if |w| == 1 {
      ConnectedReflexive(pairs, w[0]);
    } else {
      WalkBridged(pairs, a, b, w[1..]);
      assert Linked(pairs + {(a, b)}, w[0], w[1]);
      BridgedStep(pairs, a, b, w[0], w[1], w[|w| - 1]);
    }
  }

  lemma ConnectedAdd(pairs: set<(Id, Id)>, a: Id, b: Id, x: Id, y: Id)
    ensures Connected(pairs + {(a, b)}, x, y) <==> Bridged(pairs, a, b, x, y)
  {
    var more := pairs + {(a, b)};
    if Connected(more, x, y) {
      var w :| WalksFromTo(more, w, x, y);
      WalkBridged(pairs, a, b, w);
    }
    if Bridged(pairs, a, b, x, y) {
      assert Linked(more, a, b) && Linked(more, b, a);
      ConnectedLink(more, a, b);
      ConnectedLink(more, b, a);
      if Connected(pairs, x, y) {
        ConnectedGrows(pairs, more, x, y);
      } else if Connected(pairs, x, a) && Connected(pairs, b, y) {
        ConnectedGrows(pairs, more, x, a);
        ConnectedGrows(pairs, more, b, y);
        ConnectedTransitive(more, x, a, b);
        ConnectedTransitive(more, x, b, y);
      } else {
        ConnectedGrows(pairs, more, x, b);
        ConnectedGrows(pairs, more, a, y);
        ConnectedTransitive(more, x, b, a);
        ConnectedTransitive(more, x, a, y);
      }
    }
  }

  lemma {:induction false} NothingConnected(w: seq<Id>)
    requires Walk({}, w)
    ensures |w| == 1
  {
    var none: set<(Id, Id)> := {};
    assert |w| > 1 ==> Linked(none, w[0], w[1]);
  }

  // ---------------------------------------------------------------------------------------------
  // The parent forest

  /** The parent stays inside and, unless x is a root, has a smaller rank. */
  ghost predicate Upward(parent: map<Id, Id>, rank: map<Id, nat>, x: Id) {
    x in parent && x in rank && parent[x] in parent && parent[x] in rank && (parent[x] != x ==> rank[parent[x]] < rank[x])
  }

  /** Ranks fall along every parent edge, so there are no cycles but the roots' own. */
  ghost predicate Forest(parent: map<Id, Id>, rank: map<Id, nat>) {
    rank.Keys == parent.Keys && forall x {:trigger Upward(parent, rank, x)} :: x in parent ==> Upward(parent, rank, x)
  }

  ghost function Root(parent: map<Id, Id>, rank: map<Id, nat>, x: Id): Id
    requires Forest(parent, rank) && x in parent
    decreases rank[x]
  {
    assert Upward(parent, rank, x);
    if parent[x] == x then x else Root(parent, rank, parent[x])
  }

  lemma {:induction false} RootIsRoot(parent: map<Id, Id>, rank: map<Id, nat>, x: Id)
    requires Forest(parent, rank) && x in parent
    ensures var r := Root(parent, rank, x); r in parent && parent[r] == r && Root(parent, rank, r) == r
    decreases rank[x]
  {
    assert Upward(parent, rank, x);
    if parent[x] != x {
      RootIsRoot(parent, rank, parent[x]);
    }
  }

  /** The representative of every element. */
  ghost function Reps(parent: map<Id, Id>, rank: map<Id, nat>): map<Id, Id>
    requires Forest(parent, rank)
  {
    map x | x in parent :: Root(parent, rank, x)
  }

  function Halved(parent: map<Id, Id>, v: Id): map<Id, Id>
    requires v in parent && parent[v] in parent
  {
    parent[v := parent[parent[v]]]
  }

  lemma HalvingKeepsForest(parent: map<Id, Id>, rank: map<Id, nat>, v: Id)
    requires Forest(parent, rank) && Upward(parent, rank, v)
    ensures Forest(Halved(parent, v), rank)
  {
    assert Upward(parent, rank, parent[v]);
    forall x <- parent ensures Upward(Halved(parent, v), rank, x) {
      assert Upward(parent, rank, x);
    }
  }

  lemma {:induction false} HalvingKeepsRoot(parent: map<Id, Id>, rank: map<Id, nat>, v: Id, x: Id)
    requires Forest(parent, rank) && Upward(parent, rank, v) && x in parent && Forest(Halved(parent, v), rank)
    ensures Root(Halved(parent, v), rank, x) == Root(parent, rank, x)
    decreases rank[x]
  {
    var p := parent[x];
    assert Upward(parent, rank, x) && Upward(parent, rank, p);
    if p != x {
      HalvingKeepsRoot(parent, rank, v, p);
      if x == v && parent[p] != p {
        HalvingKeepsRoot(parent, rank, v, parent[p]);
      }
    }
  }

  /** Moving a node up to its grandparent keeps the forest and every representative. */
  lemma HalvingKeepsReps(parent: map<Id, Id>, rank: map<Id, nat>, v: Id)
    requires Forest(parent, rank) && Upward(parent, rank, v)
    ensures Forest(Halved(parent, v), rank) && Reps(Halved(parent, v), rank) == Reps(parent, rank)
  {
    HalvingKeepsForest(parent, rank, v);
    forall x <- parent ensures Root(Halved(parent, v), rank, x) == Root(parent, rank, x) {
      HalvingKeepsRoot(parent, rank, v, x);
    }
  }

  /** Ranks after hanging root `lower` (and its tree) below root `upper`. */
  ghost function Hung(parent: map<Id, Id>, rank: map<Id, nat>, upper: Id, lower: Id): map<Id, nat>
    requires Forest(parent, rank) && upper in parent && lower in parent
  {
    map x | x in parent :: HungRank(parent, rank, upper, lower, x)
  }

  ghost function HungRank(parent: map<Id, Id>, rank: map<Id, nat>, upper: Id, lower: Id, x: Id): nat
    requires Forest(parent, rank) && upper in parent && x in parent
  {
    if upper != lower && Root(parent, rank, x) == lower then rank[x] + rank[upper] + 1 else rank[x]
  }

  /** Hanging keeps ranks falling: the tree moved is lifted as a whole, above its new root's rank. */
  lemma HungUpward(parent: map<Id, Id>, rank: map<Id, nat>, upper: Id, lower: Id, x: Id)
    requires Forest(parent, rank) && upper in parent && lower in parent && parent[upper] == upper && parent[lower] == lower
    requires x in parent
    ensures Upward(parent[lower := upper], Hung(parent, rank, upper, lower), x)
  {
    assert Upward(parent, rank, x);
    var y := parent[lower := upper][x];
    assert Hung(parent, rank, upper, lower)[x] == HungRank(parent, rank, upper, lower, x);
    assert Hung(parent, rank, upper, lower)[y] == HungRank(parent, rank, upper, lower, y);
  }

  lemma HangingKeepsForest(parent: map<Id, Id>, rank: map<Id, nat>, upper: Id, lower: Id)
    requires Forest(parent, rank) && upper in parent && lower in parent && parent[upper] == upper && parent[lower] == lower
    ensures Forest(parent[lower := upper], Hung(parent, rank, upper, lower))
  {
    forall x <- parent ensures Upward(parent[lower := upper], Hung(parent, rank, upper, lower), x) {
      HungUpward(parent, rank, upper, lower, x);
    }
  }

  lemma {:induction false} HangingMovesRoot(parent: map<Id, Id>, rank: map<Id, nat>, upper: Id, lower: Id, x: Id)
    requires Forest(parent, rank) && upper in parent && lower in parent && parent[upper] == upper && parent[lower] == lower
    requires x in parent && Forest(parent[lower := upper], Hung(parent, rank, upper, lower))
    ensures Root(parent[lower := upper], Hung(parent, rank, upper, lower), x) ==
            if Root(parent, rank, x) == lower then upper else Root(parent, rank, x)
    decreases rank[x]
  {
    assert Upward(parent, rank, x);
    if parent[x] != x {
      HangingMovesRoot(parent, rank, upper, lower, parent[x]);
    }
  }

  /** The class of `lower` joins the class of `upper`. */
  function Joined(reps: map<Id, Id>, upper: Id, lower: Id): map<Id, Id> {
    map x | x in reps :: if reps[x] == lower then upper else reps[x]
  }

  lemma HangingJoinsReps(parent: map<Id, Id>, rank: map<Id, nat>, upper: Id, lower: Id)
    requires Forest(parent, rank) && upper in parent && lower in parent && parent[upper] == upper && parent[lower] == lower
    ensures Forest(parent[lower := upper], Hung(parent, rank, upper, lower))
    ensures Reps(parent[lower := upper], Hung(parent, rank, upper, lower)) == Joined(Reps(parent, rank), upper, lower)
  {
    HangingKeepsForest(parent, rank, upper, lower);
    forall x <- parent
      ensures Root(parent[lower := upper], Hung(parent, rank, upper, lower), x) == Joined(Reps(parent, rank), upper, lower)[x]
    {
      HangingMovesRoot(parent, rank, upper, lower, x);
    }
  }

  class Clusters {
    var parent: map<Id, Id>
    ghost var rank: map<Id, nat>

    ghost predicate Valid()
      reads this
    {
      Forest(parent, rank)
    }

    ghost function RepOf(): (reps: map<Id, Id>)
      requires Valid()
      reads this
      ensures reps.Keys == parent.Keys
    {
      Reps(parent, rank)
    }

    constructor (ids: set<Id>)
      ensures Valid() && RepOf() == map x | x in ids :: x
    {
      parent := map x | x in ids :: x;
      rank := map x | x in ids :: 0;
    }

    /** Path halving: every other node on the way is moved up to its grandparent; no representative changes. */
    method Find(x: Id) returns (r: Id)
      requires Valid() && x in parent
      modifies this`parent
      ensures Valid() && RepOf() == old(RepOf())
      ensures r == old(RepOf())[x] && r in parent && parent[r] == r
    {
      r := x;
      while parent[r] != r
        invariant Valid() && RepOf() == old(RepOf())
        invariant r in parent && RepOf()[r] == old(RepOf())[x]
        decreases rank[r]
      {
        assert Upward(parent, rank, r) && Upward(parent, rank, parent[r]);
        HalvingKeepsReps(parent, rank, r);
        parent := parent[r := parent[parent[r]]];
        r := parent[r];
      }
    }

    /** The right class joins the left one; every other class is as before. */
    method Union(left: Id, right: Id)
      requires Valid() && left in parent && right in parent
      modifies this
      ensures Valid() && RepOf() == Joined(old(RepOf()), old(RepOf())[left], old(RepOf())[right])
    {
      var upper := Find(left);
      RootIsRoot(parent, rank, left);
      var lower := Find(right);
      assert RepOf()[upper] == upper;
      RootIsRoot(parent, rank, upper);
      HangingJoinsReps(parent, rank, upper, lower);
      rank := Hung(parent, rank, upper, lower);
      parent := parent[lower := upper];
    }
  }

  /** The classes are exactly the closure of the pairs united so far. */
  ghost predicate Exact(rep: map<Id, Id>, pairs: set<(Id, Id)>) {
    forall x <- rep, y <- rep :: rep[x] == rep[y] <==> Connected(pairs, x, y)
  }

  lemma ExactAtStart(rep: map<Id, Id>)
    requires forall x <- rep :: rep[x] == x
    ensures Exact(rep, {})
  {
    forall x <- rep, y <- rep ensures rep[x] == rep[y] <==> Connected({}, x, y) {
      if Connected({}, x, y) {
        var w :| WalksFromTo({}, w, x, y);
        NothingConnected(w);
      }
      if x == y {
        ConnectedReflexive({}, x);
      }
    }
  }

  /** One union keeps the classes exact, whatever the order the pairs come in. */
  lemma ExactAfterUnion(rep: map<Id, Id>, rep': map<Id, Id>, pairs: set<(Id, Id)>, a: Id, b: Id)
    requires Exact(rep, pairs) && a in rep && b in rep && rep' == Joined(rep, rep[a], rep[b])
    ensures Exact(rep', pairs + {(a, b)})
  {
    forall x <- rep', y <- rep' ensures rep'[x] == rep'[y] <==> Connected(pairs + {(a, b)}, x, y) {
      ConnectedAdd(pairs, a, b, x, y);
      assert (rep[x] == rep[y] <==> Connected(pairs, x, y));
      assert (rep[x] == rep[a] <==> Connected(pairs, x, a)) && (rep[x] == rep[b] <==> Connected(pairs, x, b));
      assert (rep[a] == rep[y] <==> Connected(pairs, a, y)) && (rep[b] == rep[y] <==> Connected(pairs, b, y));
    }
  }
}
