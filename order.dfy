/**
 * Strict total orders over a comparator. Every tree in this model is
 * parameterised by the key type's `<` operator, given as a function value
 * `lt`; `a > b` in the source is `lt(b, a)` here, which the key modules
 * justify by proving that `>` mirrors `<`.
 */
module Order {
  ghost predicate Irreflexive<K(!new)>(lt: (K, K) -> bool) {
    forall a :: !lt(a, a)
  }

  ghost predicate Transitive<K(!new)>(lt: (K, K) -> bool) {
    forall a, b, c :: lt(a, b) && lt(b, c) ==> lt(a, c)
  }

  ghost predicate Trichotomous<K(!new)>(lt: (K, K) -> bool) {
    forall a, b :: a == b || lt(a, b) || lt(b, a)
  }

  ghost predicate StrictTotalOrder<K(!new)>(lt: (K, K) -> bool) {
    Irreflexive(lt) && Transitive(lt) && Trichotomous(lt)
  }

  /** In a strict order `lt(a, b)` and `lt(b, a)` exclude each other. */
  lemma Asymmetric<K(!new)>(lt: (K, K) -> bool, a: K, b: K)
    requires StrictTotalOrder(lt)
    ensures !(lt(a, b) && lt(b, a))
  {
    assert lt(a, b) && lt(b, a) ==> lt(a, a);
  }

  /** The order of the integers, used for the source's `int` keys. */
  function IntLess(a: int, b: int): bool {
    a < b
  }

  lemma IntLessIsStrictTotalOrder()
    ensures StrictTotalOrder(IntLess)
  {
  }

  /** The keys of `s`, read left to right, strictly increase. */
  ghost predicate SortedKeys<K, D>(s: seq<(K, D)>, lt: (K, K) -> bool) {
    forall i, j :: 0 <= i < j < |s| ==> lt(s[i].0, s[j].0)
  }

  /**
   * The in-order insertion reference: `e` is placed before the first pair
   * whose key is greater than its own key.
   */
  ghost function InsertSorted<K, D>(s: seq<(K, D)>, e: (K, D), lt: (K, K) -> bool): seq<(K, D)> {
    if |s| == 0 then [e]
    else if lt(e.0, s[0].0) then [e] + s
    else [s[0]] + InsertSorted(s[1..], e, lt)
  }

  /** Inserting into a sequence adds exactly the one pair. */
  lemma {:induction false} InsertSortedMultiset<K, D>(s: seq<(K, D)>, e: (K, D), lt: (K, K) -> bool)
    ensures multiset(InsertSorted(s, e, lt)) == multiset(s) + multiset{e}
  {
    if |s| > 0 && !lt(e.0, s[0].0) {
      InsertSortedMultiset(s[1..], e, lt);
      assert s == [s[0]] + s[1..];
    }
  }

  /** Inserting before a suffix that starts above `e` leaves that suffix untouched. */
  lemma {:induction false} InsertSortedAppendLeft<K, D>(a: seq<(K, D)>, c: seq<(K, D)>, e: (K, D), lt: (K, K) -> bool)
    requires |c| > 0 && lt(e.0, c[0].0)
    ensures InsertSorted(a + c, e, lt) == InsertSorted(a, e, lt) + c
  {
    if |a| > 0 {
      assert (a + c)[0] == a[0] && (a + c)[1..] == a[1..] + c;
      if !lt(e.0, a[0].0) {
        InsertSortedAppendLeft(a[1..], c, e, lt);
      }
    }
  }

  /** Inserting after a prefix none of whose keys lies above `e` leaves that prefix untouched. */
  lemma {:induction false} InsertSortedAppendRight<K, D>(a: seq<(K, D)>, b: seq<(K, D)>, e: (K, D), lt: (K, K) -> bool)
    requires forall i :: 0 <= i < |a| ==> !lt(e.0, a[i].0)
    ensures InsertSorted(a + b, e, lt) == a + InsertSorted(b, e, lt)
  {
    if |a| > 0 {
      assert (a + b)[0] == a[0] && (a + b)[1..] == a[1..] + b;
      InsertSortedAppendRight(a[1..], b, e, lt);
      assert a == [a[0]] + a[1..];
    } else {
      assert a + b == b;
    }
  }

  /** Inserting a pair whose key lies below that of `x` happens left of `x`. */
  lemma InsertSortedBefore<K, D>(a: seq<(K, D)>, x: (K, D), b: seq<(K, D)>, e: (K, D), lt: (K, K) -> bool)
    requires lt(e.0, x.0)
    ensures InsertSorted(a + [x] + b, e, lt) == InsertSorted(a, e, lt) + [x] + b
  {
    assert a + [x] + b == a + ([x] + b);
    InsertSortedAppendLeft(a, [x] + b, e, lt);
    assert InsertSorted(a, e, lt) + ([x] + b) == InsertSorted(a, e, lt) + [x] + b;
  }

  /** The deletion reference: every pair whose key is `k` is dropped. */
  ghost function RemoveKey<K, D>(s: seq<(K, D)>, k: K): seq<(K, D)> {
    if |s| == 0 then []
    else if s[0].0 == k then RemoveKey(s[1..], k)
    else [s[0]] + RemoveKey(s[1..], k)
  }

  lemma {:induction false} RemoveKeyAppend<K, D>(a: seq<(K, D)>, b: seq<(K, D)>, k: K)
    ensures RemoveKey(a + b, k) == RemoveKey(a, k) + RemoveKey(b, k)
  {
    if |a| > 0 {
      assert (a + b)[0] == a[0] && (a + b)[1..] == a[1..] + b;
      RemoveKeyAppend(a[1..], b, k);
      assert a == [a[0]] + a[1..];
    } else {
      assert a + b == b;
    }
  }

  lemma {:induction false} RemoveKeyAbsent<K, D>(s: seq<(K, D)>, k: K)
    requires forall i :: 0 <= i < |s| ==> s[i].0 != k
    ensures RemoveKey(s, k) == s
  {
    if |s| > 0 {
      RemoveKeyAbsent(s[1..], k);
    }
  }

  /** Dropping a key that occurs only right of `e`. */
  lemma RemoveKeyRight<K, D>(a: seq<(K, D)>, e: (K, D), b: seq<(K, D)>, k: K)
    requires forall i :: 0 <= i < |a| ==> a[i].0 != k
    requires e.0 != k
    ensures RemoveKey(a + [e] + b, k) == a + [e] + RemoveKey(b, k)
  {
    RemoveKeyAppend(a + [e], b, k);
    RemoveKeyAppend(a, [e], k);
    RemoveKeyAbsent(a, k);
    assert RemoveKey([e], k) == [e];
  }

  /** Dropping a key that occurs only left of `e`. */
  lemma RemoveKeyLeft<K, D>(a: seq<(K, D)>, e: (K, D), b: seq<(K, D)>, k: K)
    requires forall i :: 0 <= i < |b| ==> b[i].0 != k
    requires e.0 != k
    ensures RemoveKey(a + [e] + b, k) == RemoveKey(a, k) + [e] + b
  {
    RemoveKeyAppend(a + [e], b, k);
    RemoveKeyAppend(a, [e], k);
    RemoveKeyAbsent(b, k);
    assert RemoveKey([e], k) == [e];
  }

  /** Dropping the key of `e` when it occurs nowhere else. */
  lemma RemoveKeyMiddle<K, D>(a: seq<(K, D)>, e: (K, D), b: seq<(K, D)>)
    requires forall i :: 0 <= i < |a| ==> a[i].0 != e.0
    requires forall i :: 0 <= i < |b| ==> b[i].0 != e.0
    ensures RemoveKey(a + [e] + b, e.0) == a + b
  {
    var k := e.0;
    assert [e][1..] == [];
    assert RemoveKey([e], k) == [];
    RemoveKeyAbsent(a, k);
    RemoveKeyAbsent(b, k);
    calc {
      RemoveKey(a + [e] + b, k);
      { RemoveKeyAppend(a + [e], b, k); }
      RemoveKey(a + [e], k) + RemoveKey(b, k);
      { RemoveKeyAppend(a, [e], k); }
      RemoveKey(a, k) + RemoveKey([e], k) + RemoveKey(b, k);
      a + [] + b;
      { assert a + [] == a; }
      a + b;
    }
  }

  /** Option, used for the source's nullable node and payload pointers. */
  datatype Option<T> = None | Some(value: T)
}
