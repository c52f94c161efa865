/** Python's sorted, for any order of the keys. */
module Sorting {

  function Insert<K>(less: (K, K) -> bool, k: K, ks: seq<K>): seq<K> {
    if ks == [] || less(k, ks[0]) then [k] + ks else [ks[0]] + Insert(less, k, ks[1..])
  }

  function SortedBy<K>(less: (K, K) -> bool, ks: seq<K>): seq<K> {
    if ks == [] then [] else Insert(less, ks[0], SortedBy(less, ks[1..]))
  }

  lemma {:induction false} InsertPermutes<K>(less: (K, K) -> bool, k: K, ks: seq<K>)
    ensures multiset(Insert(less, k, ks)) == multiset([k] + ks)
  {
    if !(ks == [] || less(k, ks[0])) {
      InsertPermutes(less, k, ks[1..]);
      assert ks == [ks[0]] + ks[1..];
    }
  }

  lemma {:induction false} SortPermutes<K>(less: (K, K) -> bool, ks: seq<K>)
    ensures multiset(SortedBy(less, ks)) == multiset(ks)
  {
    if ks != [] {
      SortPermutes(less, ks[1..]);
      InsertPermutes(less, ks[0], SortedBy(less, ks[1..]));
      assert ks == [ks[0]] + ks[1..];
    }
  }

  lemma SortMembers<K>(less: (K, K) -> bool, ks: seq<K>)
    ensures forall k <- ks :: k in SortedBy(less, ks)
    ensures forall k <- SortedBy(less, ks) :: k in ks
  {
    SortPermutes(less, ks);
    forall k <- ks ensures k in SortedBy(less, ks) {
      assert k in multiset(ks);
    }
    forall k <- SortedBy(less, ks) ensures k in ks {
      assert k in multiset(SortedBy(less, ks));
    }
  }

  /** No element occurs twice. */
  ghost predicate Unique<K>(ks: seq<K>) {
    forall i, j :: 0 <= i < j < |ks| ==> ks[i] != ks[j]
  }

  lemma {:induction false} InsertUnique<K>(less: (K, K) -> bool, k: K, ks: seq<K>)
    requires Unique(ks) && k !in ks
    ensures Unique(Insert(less, k, ks))
  {
    if !(ks == [] || less(k, ks[0])) {
      InsertUnique(less, k, ks[1..]);
      var rest := Insert(less, k, ks[1..]);
      InsertPermutes(less, k, ks[1..]);
      forall j | 0 <= j < |rest| ensures rest[j] != ks[0] {
        assert rest[j] in multiset(rest);
        assert rest[j] in [k] + ks[1..];
      }
    }
  }

  lemma {:induction false} SortUnique<K>(less: (K, K) -> bool, ks: seq<K>)
    requires Unique(ks)
    ensures Unique(SortedBy(less, ks))
  {
    if ks != [] {
      SortUnique(less, ks[1..]);
      SortMembers(less, ks[1..]);
      InsertUnique(less, ks[0], SortedBy(less, ks[1..]));
    }
  }

  /** A strict order that compares any two different keys. */
  ghost predicate StrictTotal<K(!new)>(less: (K, K) -> bool) {
    && (forall a, b :: a != b ==> less(a, b) || less(b, a))
    && (forall a, b :: less(a, b) ==> !less(b, a))
    && (forall a, b, c :: less(a, b) && less(b, c) ==> less(a, c))
  }

  ghost predicate Ordered<K>(less: (K, K) -> bool, ks: seq<K>) {
    forall i, j :: 0 <= i < j < |ks| ==> less(ks[i], ks[j])
  }

  lemma {:induction false} InsertOrders<K(!new)>(less: (K, K) -> bool, k: K, ks: seq<K>)
    requires StrictTotal(less) && Ordered(less, ks) && k !in ks
    ensures Ordered(less, Insert(less, k, ks))
  {
    if ks != [] && !less(k, ks[0]) {
      var rest := Insert(less, k, ks[1..]);
      InsertOrders(less, k, ks[1..]);
      InsertPermutes(less, k, ks[1..]);
      forall j | 0 <= j < |rest| ensures less(ks[0], rest[j]) {
        assert rest[j] in multiset(rest);
        assert rest[j] in [k] + ks[1..];
      }
    }
  }

  /** Different keys come out in order. */
  lemma {:induction false} SortOrders<K(!new)>(less: (K, K) -> bool, ks: seq<K>)
    requires StrictTotal(less) && Unique(ks)
    ensures Ordered(less, SortedBy(less, ks))
  {
    if ks != [] {
      SortOrders(less, ks[1..]);
      SortMembers(less, ks[1..]);
      InsertOrders(less, ks[0], SortedBy(less, ks[1..]));
    }
  }
}
