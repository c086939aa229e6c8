/**
 * HashTable.h: separate chaining over an array of buckets, each holding
 * the (key, data) pairs of a List. The table starts with two buckets,
 * doubles them when more than half as many items as buckets are stored and
 * halves them when fewer than a quarter are, moving every pair to the
 * bucket its key hashes to under the new size. A bucket is kept as the
 * value its List holds, changed by the List's own insertion and removal.
 */
module HashTable {
  import opened Order
  import opened LinkedList

  /** The hash function sends every key into [0, size) for every positive size. */
  ghost predicate HashInRange(hash: (int, int) -> int) {
    forall k, n :: 0 < n ==> 0 <= hash(k, n) < n
  }

  /** The bucket counts the table takes: 1, 2, 4, ... */
  predicate PowerOfTwo(n: int)
    decreases n
  {
    n == 1 || (n > 1 && n % 2 == 0 && PowerOfTwo(n / 2))
  }

  /** Doubling keeps a power of two. */
  lemma DoublePowerOfTwo(n: int)
    requires PowerOfTwo(n)
    ensures PowerOfTwo(2 * n)
  {
    assert 2 * n / 2 == n;
  }

  /** All stored pairs, bucket after bucket. */
  function Entries<D>(b: seq<seq<(int, D)>>): seq<(int, D)>
    decreases |b|
  {
    if |b| == 0 then [] else Entries(b[..|b| - 1]) + b[|b| - 1]
  }

  /** Every pair sits in the bucket its key hashes to. */
  ghost predicate Placed<D>(b: seq<seq<(int, D)>>, hash: (int, int) -> int) {
    forall i, j :: 0 <= i < |b| && 0 <= j < |b[i]| ==> hash(b[i][j].0, |b|) == i
  }

  /** Each bucket, as a List, holds distinct keys. */
  ghost predicate BucketsUnique<D>(b: seq<seq<(int, D)>>) {
    forall i :: 0 <= i < |b| ==> UniqueKeys(b[i])
  }

  /** Adding a bucket at the end adds its pairs at the end. */
  lemma EntriesSnoc<D>(b: seq<seq<(int, D)>>, x: seq<(int, D)>)
    ensures Entries(b + [x]) == Entries(b) + x
  {
    assert (b + [x])[..|b|] == b;
  }

  /** A pair is stored exactly when some bucket holds it. */
  lemma {:induction false} InEntries<D>(b: seq<seq<(int, D)>>, e: (int, D))
    ensures e in Entries(b) <==> exists i :: 0 <= i < |b| && e in b[i]
    decreases |b|
  {
    if |b| > 0 {
      var c := b[..|b| - 1];
      InEntries(c, e);
      if e in Entries(b) && e !in b[|b| - 1] {
        var i :| 0 <= i < |c| && e in c[i];
        assert b[i] == c[i];
      }
      if exists i :: 0 <= i < |b| && e in b[i] {
        var i :| 0 <= i < |b| && e in b[i];
        if i < |b| - 1 {
          assert c[i] == b[i];
        }
      }
    }
  }

  /** Replacing one bucket trades its pairs among the stored ones for the new bucket's. */
  lemma {:induction false} EntriesUpdate<D>(b: seq<seq<(int, D)>>, i: int, x: seq<(int, D)>)
    requires 0 <= i < |b|
    ensures multiset(Entries(b[i := x])) + multiset(b[i]) == multiset(Entries(b)) + multiset(x)
    decreases |b|
  {
    var c := b[..|b| - 1];
    if i == |b| - 1 {
      assert b[i := x] == c + [x] && b == c + [b[i]];
      EntriesSnoc(c, x);
      EntriesSnoc(c, b[i]);
    } else {
      EntriesUpdate(c, i, x);
      EntriesUpdateEarlier(b, i, x);
    }
  }

  /** The step of EntriesUpdate for a bucket before the last one. */
  lemma EntriesUpdateEarlier<D>(b: seq<seq<(int, D)>>, i: int, x: seq<(int, D)>)
    requires 0 <= i < |b| - 1
    requires multiset(Entries(b[..|b| - 1][i := x])) + multiset(b[i]) == multiset(Entries(b[..|b| - 1])) + multiset(x)
    ensures multiset(Entries(b[i := x])) + multiset(b[i]) == multiset(Entries(b)) + multiset(x)
  {
    var c := b[..|b| - 1];
    var last := b[|b| - 1];
    assert b[i := x] == c[i := x] + [last] && b == c + [last];
    EntriesSnoc(c[i := x], last);
    EntriesSnoc(c, last);
    assert multiset(Entries(b[i := x])) == multiset(Entries(c[i := x])) + multiset(last);
    assert multiset(Entries(b)) == multiset(Entries(c)) + multiset(last);
    AddBoth(multiset(Entries(c[i := x])), multiset(b[i]), multiset(Entries(c)), multiset(x), multiset(last));
  }

  /** The same multiset added on both sides keeps an equation. */
  lemma AddBoth<T>(p: multiset<T>, q: multiset<T>, r: multiset<T>, s: multiset<T>, l: multiset<T>)
    requires p + q == r + s
    ensures p + l + q == r + l + s
  {
    forall y
      ensures (p + l + q)[y] == (r + l + s)[y]
    {
      assert (p + q)[y] == (r + s)[y];
    }
  }

  /** A table of empty buckets stores nothing. */
  lemma {:induction false} EmptyEntries<D>(b: seq<seq<(int, D)>>)
    requires forall i :: 0 <= i < |b| ==> b[i] == []
    ensures Entries(b) == []
    decreases |b|
  {
    if |b| > 0 {
      EmptyEntries(b[..|b| - 1]);
    }
  }

  /** A stored pair's bucket holds it. */
  lemma BucketInEntries<D>(b: seq<seq<(int, D)>>, i: int, k: int)
    requires 0 <= i < |b|
    ensures HasKey(b[i], k) ==> HasKey(Entries(b), k)
  {
    if HasKey(b[i], k) {
      var j :| 0 <= j < |b[i]| && b[i][j].0 == k;
      InEntries(b, b[i][j]);
      var s := Entries(b);
      var t :| 0 <= t < |s| && s[t] == b[i][j];
    }
  }

  /**
   * A key is stored exactly when the bucket it hashes to holds it, and
   * then that bucket's data for it is the only data stored with it.
   */
  lemma KeyInBucket<D>(b: seq<seq<(int, D)>>, hash: (int, int) -> int, k: int)
    requires HashInRange(hash) && |b| > 0 && Placed(b, hash) && BucketsUnique(b)
    ensures HasKey(Entries(b), k) <==> HasKey(b[hash(k, |b|)], k)
    ensures forall d :: (k, d) in Entries(b) ==> Lookup(b[hash(k, |b|)], k) == Some(d)
  {
    var h := hash(k, |b|);
    if HasKey(Entries(b), k) {
      var s := Entries(b);
      var t :| 0 <= t < |s| && s[t].0 == k;
      InEntries(b, s[t]);
      var i :| 0 <= i < |b| && s[t] in b[i];
      var j :| 0 <= j < |b[i]| && b[i][j] == s[t];
      assert hash(b[i][j].0, |b|) == i;
    }
    BucketInEntries(b, h, k);
    forall d | (k, d) in Entries(b)
      ensures Lookup(b[h], k) == Some(d)
    {
      InEntries(b, (k, d));
      var i :| 0 <= i < |b| && (k, d) in b[i];
      var j :| 0 <= j < |b[i]| && b[i][j] == (k, d);
      assert hash(b[i][j].0, |b|) == i;
      LookupAt(b[h], j);
    }
  }

  /** The pairs of the first `i` buckets have keys hashing below `i`. */
  lemma {:induction false} HashesBelow<D>(b: seq<seq<(int, D)>>, hash: (int, int) -> int, i: int)
    requires Placed(b, hash) && 0 <= i <= |b|
    ensures forall t :: 0 <= t < |Entries(b[..i])| ==> hash(Entries(b[..i])[t].0, |b|) < i
  {
    if i > 0 {
      HashesBelow(b, hash, i - 1);
      assert b[..i] == b[..i - 1] + [b[i - 1]];
      EntriesSnoc(b[..i - 1], b[i - 1]);
      var s, r := Entries(b[..i - 1]), Entries(b[..i]);
      forall t | 0 <= t < |r|
        ensures hash(r[t].0, |b|) < i
      {
        if t < |s| {
          assert r[t] == s[t];
        } else {
          assert r[t] == b[i - 1][t - |s|];
        }
      }
    }
  }

  /** The keys of a bucket are not among those of the buckets before it. */
  lemma EarlierKeys<D>(b: seq<seq<(int, D)>>, hash: (int, int) -> int, i: int)
    requires Placed(b, hash) && 0 <= i < |b|
    ensures forall e :: e in b[i] ==> !HasKey(Entries(b[..i]), e.0)
  {
    HashesBelow(b, hash, i);
    forall e | e in b[i]
      ensures !HasKey(Entries(b[..i]), e.0)
    {
      var j :| 0 <= j < |b[i]| && b[i][j] == e;
      assert hash(e.0, |b|) == i;
    }
  }

  /** Pairs included, in whatever order, carry keys included. */
  lemma SameKeys<D>(a: seq<(int, D)>, b: seq<(int, D)>, x: int)
    requires multiset(a) <= multiset(b)
    ensures HasKey(a, x) ==> HasKey(b, x)
  {
    if HasKey(a, x) {
      var i :| 0 <= i < |a| && a[i].0 == x;
      assert a[i] in multiset(a);
      assert a[i] in b;
      var j :| 0 <= j < |b| && b[j] == a[i];
    }
  }

  /** The same pairs, in whatever order, carry the same keys. */
  lemma SameKeySet<D>(a: seq<(int, D)>, b: seq<(int, D)>)
    requires multiset(a) == multiset(b)
    ensures forall x :: HasKey(a, x) <==> HasKey(b, x)
  {
    forall x
      ensures HasKey(a, x) <==> HasKey(b, x)
    {
      SameKeys(a, b, x);
      SameKeys(b, a, x);
    }
  }

  /** Two lists of distinct keys, none shared, joined. */
  lemma UniqueConcat<D>(a: seq<(int, D)>, b: seq<(int, D)>)
    requires UniqueKeys(a) && UniqueKeys(b)
    requires forall e :: e in b ==> !HasKey(a, e.0)
    ensures UniqueKeys(a + b)
  {
    var s := a + b;
    forall i, j | 0 <= i < j < |s|
      ensures s[i].0 != s[j].0
    {
      if i < |a| && |a| <= j {
        assert s[j] == b[j - |a|] && s[j] in b;
        assert s[i] == a[i];
      } else if |a| <= i {
        assert s[i] == b[i - |a|] && s[j] == b[j - |a|];
      } else {
        assert s[i] == a[i] && s[j] == a[j];
      }
    }
  }

  /** The table never stores a key twice: the pairs of its first `i` buckets have distinct keys. */
  lemma {:induction false} UniqueEntries<D>(b: seq<seq<(int, D)>>, hash: (int, int) -> int, i: int)
    requires Placed(b, hash) && BucketsUnique(b) && 0 <= i <= |b|
    ensures UniqueKeys(Entries(b[..i]))
  {
    if i > 0 {
      UniqueEntries(b, hash, i - 1);
      EarlierKeys(b, hash, i - 1);
      assert b[..i] == b[..i - 1] + [b[i - 1]];
      EntriesSnoc(b[..i - 1], b[i - 1]);
      UniqueConcat(Entries(b[..i - 1]), b[i - 1]);
    }
  }

  /** One pair more: the keys gain its key. */
  lemma KeysAdded<D>(a: seq<(int, D)>, b: seq<(int, D)>, e: (int, D))
    requires multiset(b) == multiset(a) + multiset{e}
    ensures forall x :: HasKey(b, x) <==> HasKey(a, x) || x == e.0
  {
    forall x
      ensures HasKey(b, x) <==> HasKey(a, x) || x == e.0
    {
      SameKeys(a, b, x);
      if HasKey(b, x) && x != e.0 {
        var i :| 0 <= i < |b| && b[i].0 == x;
        assert b[i] in multiset(b);
        assert b[i] in multiset(a);
        assert b[i] in a;
        var j :| 0 <= j < |a| && a[j] == b[i];
      }
      if x == e.0 {
        assert e in multiset(b);
        assert e in b;
        var j :| 0 <= j < |b| && b[j] == e;
      }
    }
  }

  /** One bucket replaced by another whose keys hash to it keeps every pair in its key's bucket. */
  lemma PlacedUpdate<D>(b: seq<seq<(int, D)>>, hash: (int, int) -> int, i: int, x: seq<(int, D)>)
    requires Placed(b, hash) && 0 <= i < |b|
    requires forall j :: 0 <= j < |x| ==> hash(x[j].0, |b|) == i
    ensures Placed(b[i := x], hash)
  {
  }

  /** The buckets after List::Insert of (k, d) into the bucket of `k`. */
  function WithPair<D>(b: seq<seq<(int, D)>>, hash: (int, int) -> int, k: int, d: D): seq<seq<(int, D)>>
    requires HashInRange(hash) && |b| > 0
  {
    b[hash(k, |b|) := InsertEntry(b[hash(k, |b|)], k, d)]
  }

  /** The buckets after List::Remove of `k` from the bucket of `k`. */
  function WithoutKey<D>(b: seq<seq<(int, D)>>, hash: (int, int) -> int, k: int): seq<seq<(int, D)>>
    requires HashInRange(hash) && |b| > 0
  {
    b[hash(k, |b|) := RemoveEntry(b[hash(k, |b|)], k)]
  }

  /** Inserting an absent key keeps the table's invariant and adds exactly its pair. */
  lemma InsertIntoBucket<D>(b: seq<seq<(int, D)>>, hash: (int, int) -> int, k: int, d: D)
    requires HashInRange(hash) && |b| > 0 && Placed(b, hash) && BucketsUnique(b)
    requires !HasKey(Entries(b), k)
    ensures Placed(WithPair(b, hash, k, d), hash) && BucketsUnique(WithPair(b, hash, k, d))
    ensures multiset(Entries(WithPair(b, hash, k, d))) == multiset(Entries(b)) + multiset{(k, d)}
    ensures |Entries(WithPair(b, hash, k, d))| == |Entries(b)| + 1
  {
    InsertPlaced(b, hash, k, d);
    InsertPair(b, hash, k, d);
  }

  /** A key new to the table keeps every pair in its bucket and no key twice in one. */
  lemma InsertPlaced<D>(b: seq<seq<(int, D)>>, hash: (int, int) -> int, k: int, d: D)
    requires HashInRange(hash) && |b| > 0 && Placed(b, hash) && BucketsUnique(b)
    requires !HasKey(Entries(b), k)
    ensures Placed(WithPair(b, hash, k, d), hash) && BucketsUnique(WithPair(b, hash, k, d))
  {
    var h := hash(k, |b|);
    KeyInBucket(b, hash, k);
    InsertedKeys(b[h], k, d);
    var x := InsertEntry(b[h], k, d);
    assert x == [(k, d)] + b[h];
    PlacedUpdate(b, hash, h, x);
  }

  /** Inserting a key new to the table adds exactly its pair. */
  lemma InsertPair<D>(b: seq<seq<(int, D)>>, hash: (int, int) -> int, k: int, d: D)
    requires HashInRange(hash) && |b| > 0 && Placed(b, hash) && BucketsUnique(b)
    requires !HasKey(Entries(b), k)
    ensures multiset(Entries(WithPair(b, hash, k, d))) == multiset(Entries(b)) + multiset{(k, d)}
    ensures |Entries(WithPair(b, hash, k, d))| == |Entries(b)| + 1
  {
    var h := hash(k, |b|);
    KeyInBucket(b, hash, k);
    var x := InsertEntry(b[h], k, d);
    assert x == [(k, d)] + b[h];
    EntriesUpdate(b, h, x);
    Cancel(multiset(Entries(WithPair(b, hash, k, d))), multiset(Entries(b)) + multiset{(k, d)}, multiset(b[h]));
    assert |multiset(Entries(WithPair(b, hash, k, d)))| == |Entries(WithPair(b, hash, k, d))|;
  }

  /** Trading `c` for `c` less one `e` takes one `e` away. */
  lemma CancelOne<T>(a: multiset<T>, b: multiset<T>, c: multiset<T>, e: T)
    requires e in c && a + c == b + (c - multiset{e})
    ensures a == b - multiset{e}
  {
    forall y
      ensures a[y] == (b - multiset{e})[y]
    {
      assert (a + c)[y] == (b + (c - multiset{e}))[y];
    }
  }

  /** The same pairs, in whatever order, are as many. */
  lemma SameLength<T>(a: seq<T>, b: seq<T>)
    requires multiset(a) == multiset(b)
    ensures |a| == |b|
  {
    assert |multiset(a)| == |a| && |multiset(b)| == |b|;
  }

  /** Multiset union cancels. */
  lemma Cancel<T>(a: multiset<T>, b: multiset<T>, c: multiset<T>)
    requires a + c == b + c
    ensures a == b
  {
    forall y
      ensures a[y] == b[y]
    {
      assert (a + c)[y] == (b + c)[y];
    }
  }

  /** Removing a key keeps every pair in its bucket and no key twice in one. */
  lemma RemovePlaced<D>(b: seq<seq<(int, D)>>, hash: (int, int) -> int, k: int)
    requires HashInRange(hash) && |b| > 0 && Placed(b, hash) && BucketsUnique(b)
    ensures Placed(WithoutKey(b, hash, k), hash) && BucketsUnique(WithoutKey(b, hash, k))
  {
    var h := hash(k, |b|);
    RemovedKeys(b[h], k);
    var x := RemoveEntry(b[h], k);
    forall j | 0 <= j < |x|
      ensures hash(x[j].0, |b|) == h
    {
      assert HasKey(x, x[j].0);
      var i :| 0 <= i < |b[h]| && b[h][i].0 == x[j].0;
    }
    PlacedUpdate(b, hash, h, x);
  }

  /** Removing a stored key takes exactly its pair out of the table. */
  lemma RemovePair<D>(b: seq<seq<(int, D)>>, hash: (int, int) -> int, k: int)
    requires HashInRange(hash) && |b| > 0 && Placed(b, hash) && BucketsUnique(b)
    requires HasKey(Entries(b), k)
    ensures multiset(Entries(WithoutKey(b, hash, k))) == multiset(Entries(b)) - multiset{(k, Lookup(Entries(b), k).value)}
    ensures |Entries(WithoutKey(b, hash, k))| == |Entries(b)| - 1
  {
    var h := hash(k, |b|);
    var c := WithoutKey(b, hash, k);
    var e := (k, Lookup(Entries(b), k).value);
    KeyInBucket(b, hash, k);
    assert Lookup(b[h], k) == Some(e.1);
    RemovedKeys(b[h], k);
    EntriesUpdate(b, h, RemoveEntry(b[h], k));
    CancelOne(multiset(Entries(c)), multiset(Entries(b)), multiset(b[h]), e);
    assert e in multiset(Entries(b));
    assert |multiset(Entries(c))| == |Entries(c)|;
  }

  /** Removing a stored key keeps the table's invariant and takes exactly its pair. */
  lemma RemoveFromBucket<D>(b: seq<seq<(int, D)>>, hash: (int, int) -> int, k: int)
    requires HashInRange(hash) && |b| > 0 && Placed(b, hash) && BucketsUnique(b)
    requires HasKey(Entries(b), k)
    ensures Placed(WithoutKey(b, hash, k), hash) && BucketsUnique(WithoutKey(b, hash, k))
    ensures multiset(Entries(WithoutKey(b, hash, k))) == multiset(Entries(b)) - multiset{(k, Lookup(Entries(b), k).value)}
    ensures forall x :: HasKey(Entries(WithoutKey(b, hash, k)), x) <==> HasKey(Entries(b), x) && x != k
    ensures |Entries(WithoutKey(b, hash, k))| == |Entries(b)| - 1
  {
    var c := WithoutKey(b, hash, k);
    RemovePlaced(b, hash, k);
    RemovePair(b, hash, k);
    forall x | true
      ensures HasKey(Entries(c), x) <==> HasKey(Entries(b), x) && x != k
    {
      KeyInBucket(b, hash, x);
      KeyInBucket(c, hash, x);
      RemovedKeys(b[hash(k, |b|)], k);
    }
  }

  /**
   * The key of the next pair to move is not in the new table yet: the new
   * table holds the pairs already moved, none of which carries it.
   */
  lemma FreshKey<D>(now: seq<(int, D)>, initial: seq<(int, D)>, bucket: seq<(int, D)>, j: int)
    requires 0 <= j < |bucket| && UniqueKeys(bucket)
    requires forall e :: e in bucket ==> !HasKey(initial, e.0)
    requires multiset(now) == multiset(initial) + multiset(bucket[..j])
    ensures !HasKey(now, bucket[j].0)
  {
    assert bucket[j] in bucket;
    forall t | 0 <= t < |now|
      ensures now[t].0 != bucket[j].0
    {
      assert now[t] in multiset(now);
      if now[t] in multiset(initial) {
        assert now[t] in initial;
        var u :| 0 <= u < |initial| && initial[u] == now[t];
        assert HasKey(initial, now[t].0);
      } else {
        assert now[t] in bucket[..j];
        var u :| 0 <= u < j && bucket[..j][u] == now[t];
        assert bucket[u] == now[t];
      }
    }
  }

  /** One more element of a prefix. */
  lemma PrefixPairs<T>(s: seq<T>, j: int)
    requires 0 <= j < |s|
    ensures multiset(s[..j + 1]) == multiset(s[..j]) + multiset{s[j]}
  {
    assert s[..j + 1] == s[..j] + [s[j]];
  }

  /** One step of the inner loop: the next pair goes in and the invariant carries over. */
  lemma MoveStep<D>(b: seq<seq<(int, D)>>, initial: seq<(int, D)>, bucket: seq<(int, D)>, j: int, hash: (int, int) -> int)
    requires HashInRange(hash) && |b| > 0 && Placed(b, hash) && BucketsUnique(b)
    requires 0 <= j < |bucket| && UniqueKeys(bucket)
    requires forall e :: e in bucket ==> !HasKey(initial, e.0)
    requires multiset(Entries(b)) == multiset(initial) + multiset(bucket[..j])
    ensures Placed(WithPair(b, hash, bucket[j].0, bucket[j].1), hash) && BucketsUnique(WithPair(b, hash, bucket[j].0, bucket[j].1))
    ensures multiset(Entries(WithPair(b, hash, bucket[j].0, bucket[j].1))) == multiset(initial) + multiset(bucket[..j + 1])
  {
    PrefixPairs(bucket, j);
    FreshKey(Entries(b), initial, bucket, j);
    InsertIntoBucket(b, hash, bucket[j].0, bucket[j].1);
  }

  /**
   * The inner loop of ExtendArray and ShrinkArray: every pair of one old
   * List is inserted into the bucket its key hashes to in the new table.
   */
  method MoveEntries<D>(nTable: array<seq<(int, D)>>, bucket: seq<(int, D)>, hash: (int, int) -> int)
    requires HashInRange(hash) && nTable.Length > 0
    requires Placed(nTable[..], hash) && BucketsUnique(nTable[..]) && UniqueKeys(bucket)
    requires forall e :: e in bucket ==> !HasKey(Entries(nTable[..]), e.0)
    modifies nTable
    ensures Placed(nTable[..], hash) && BucketsUnique(nTable[..])
    ensures multiset(Entries(nTable[..])) == old(multiset(Entries(nTable[..]))) + multiset(bucket)
  {
    ghost var initial := Entries(nTable[..]);
    var j := 0;
    while j < |bucket|
      invariant 0 <= j <= |bucket|
      invariant Placed(nTable[..], hash) && BucketsUnique(nTable[..])
      invariant multiset(Entries(nTable[..])) == multiset(initial) + multiset(bucket[..j])
    {
      ghost var before := nTable[..];
      var key, data := bucket[j].0, bucket[j].1;
      var index := hash(key, nTable.Length);
      MoveStep(before, initial, bucket, j, hash);
      nTable[index] := InsertEntry(nTable[index], key, data);
      assert nTable[..] == WithPair(before, hash, key, data);
      j := j + 1;
    }
    assert bucket[..j] == bucket;
  }

  /**
   * The outer loop of ExtendArray and ShrinkArray: every old List, in
   * order, moved into the fresh table, which then holds the old pairs, each
   * in the bucket of its key under the new size.
   */
  method Rehash<D>(hashArray: array<seq<(int, D)>>, nTable: array<seq<(int, D)>>, hash: (int, int) -> int)
    requires HashInRange(hash) && nTable.Length > 0 && nTable != hashArray
    requires Placed(hashArray[..], hash) && BucketsUnique(hashArray[..])
    requires forall i :: 0 <= i < nTable.Length ==> nTable[i] == []
    modifies nTable
    ensures Placed(nTable[..], hash) && BucketsUnique(nTable[..])
    ensures multiset(Entries(nTable[..])) == multiset(Entries(hashArray[..]))
  {
    EmptyEntries(nTable[..]);
    var i := 0;
    while i < hashArray.Length
      invariant 0 <= i <= hashArray.Length
      invariant Placed(nTable[..], hash) && BucketsUnique(nTable[..])
      invariant multiset(Entries(nTable[..])) == multiset(Entries(hashArray[..i]))
    {
      EarlierKeys(hashArray[..], hash, i);
      assert hashArray[..][..i] == hashArray[..i];
      forall e | e in hashArray[i]
        ensures !HasKey(Entries(nTable[..]), e.0)
      {
        SameKeys(Entries(nTable[..]), Entries(hashArray[..i]), e.0);
      }
      MoveEntries(nTable, hashArray[i], hash);
      assert hashArray[..i + 1] == hashArray[..i] + [hashArray[i]];
      EntriesSnoc(hashArray[..i], hashArray[i]);
      i := i + 1;
    }
    assert hashArray[..i] == hashArray[..];
  }

  class HashTable<D> {
    const hash: (int, int) -> int
    var numberOfItems: int
    var size: int
    var hashArray: array<seq<(int, D)>>

    /** The stored pairs, bucket after bucket. */
    ghost function Items(): seq<(int, D)>
      reads this, hashArray
    {
      Entries(hashArray[..])
    }

    /**
     * The table apart from its load: `size` buckets, a power of two, every
     * pair in the bucket of its key, distinct keys per bucket, and
     * `numberOfItems` the number of stored pairs.
     */
    ghost predicate Table()
      reads this, hashArray
    {
      HashInRange(hash) && size == hashArray.Length && PowerOfTwo(size)
      && Placed(hashArray[..], hash) && BucketsUnique(hashArray[..])
      && numberOfItems == |Items()|
    }

    /** The table, holding at most half as many items as buckets. */
    ghost predicate Valid()
      reads this, hashArray
    {
      Table() && 2 * numberOfItems <= size
    }

    /** HashTable(): two empty buckets and no items. */
    constructor (hash: (int, int) -> int)
      requires HashInRange(hash)
      ensures Valid() && fresh(hashArray) && size == 2 && Items() == []
    {
      this.hash := hash;
      numberOfItems := 0;
      size := 2;
      hashArray := new seq<(int, D)>[2](_ => []);
      new;
      EmptyEntries(hashArray[..]);
    }

    /** getSize(): the number of buckets, a power of two at least twice the items. */
    function GetSize(): (n: int)
      requires Valid()
      reads this, hashArray
      ensures n >= 1 && PowerOfTwo(n) && 2 * |Items()| <= n
    {
      size
    }

    /** Find(key): SUCCESS exactly when the key is stored. */
    method Find(k: int) returns (s: StatusType)
      requires Valid()
      ensures s == Success <==> HasKey(Items(), k)
    {
      var index := hash(k, size);
      KeyInBucket(hashArray[..], hash, k);
      if HasKey(hashArray[index], k) {
        return Success;
      }
      return Failure;
    }

    /** FindNode(key): the data stored with the key, or nothing when it is absent. */
    method FindNode(k: int) returns (r: Option<D>)
      requires Valid()
      ensures r.Some? <==> HasKey(Items(), k)
      ensures forall d :: (k, d) in Items() ==> r == Some(d)
    {
      var index := hash(k, size);
      KeyInBucket(hashArray[..], hash, k);
      r := Lookup(hashArray[index], k);
    }

    /**
     * Insert(key, data): FAILURE, changing nothing, when the key is stored;
     * otherwise the pair goes into the key's bucket and the table doubles
     * when that leaves more than half as many items as buckets.
     */
    method Insert(k: int, d: D) returns (s: StatusType)
      requires Valid()
      modifies this, hashArray
      ensures Valid()
      ensures s == Failure <==> old(HasKey(Items(), k))
      ensures s == Failure ==> Items() == old(Items()) && size == old(size)
      ensures s == Success ==> multiset(Items()) == multiset(old(Items())) + multiset{(k, d)}
      ensures s == Success ==> size == if 2 * (old(numberOfItems) + 1) > old(size) then 2 * old(size) else old(size)
      ensures forall x :: HasKey(Items(), x) <==> old(HasKey(Items(), x)) || x == k
    {
      var index := hash(k, size);
      KeyInBucket(hashArray[..], hash, k);
      if HasKey(hashArray[index], k) {
        return Failure;
      }
      ghost var before := hashArray[..];
      InsertIntoBucket(before, hash, k, d);
      hashArray[index] := InsertEntry(hashArray[index], k, d);
      assert hashArray[..] == WithPair(before, hash, k, d);
      numberOfItems := numberOfItems + 1;
      if 2 * numberOfItems > size {
        ExtendArray();
      }
      KeysAdded(Entries(before), Items(), (k, d));
      s := Success;
    }

    /**
     * Remove(key): FAILURE, changing nothing, when the key is not stored;
     * otherwise its pair leaves its bucket and the table halves when that
     * leaves fewer than a quarter as many items as buckets.
     */
    method Remove(k: int) returns (s: StatusType)
      requires Valid()
      modifies this, hashArray
      ensures Valid()
      ensures s == Failure <==> !old(HasKey(Items(), k))
      ensures s == Failure ==> Items() == old(Items()) && size == old(size)
      ensures s == Success ==> multiset(Items()) == multiset(old(Items())) - multiset{(k, Lookup(old(Items()), k).value)}
      ensures s == Success ==> size == if 4 * (old(numberOfItems) - 1) < old(size) then old(size) / 2 else old(size)
      ensures forall x :: HasKey(Items(), x) <==> old(HasKey(Items(), x)) && x != k
    {
      var index := hash(k, size);
      KeyInBucket(hashArray[..], hash, k);
      if !HasKey(hashArray[index], k) {
        return Failure;
      }
      ghost var before := hashArray[..];
      RemoveFromBucket(before, hash, k);
      hashArray[index] := RemoveEntry(hashArray[index], k);
      assert hashArray[..] == WithoutKey(before, hash, k);
      numberOfItems := numberOfItems - 1;
      if 4 * numberOfItems < size {
        ShrinkArray();
      }
      s := Success;
    }

    /** ExtendArray(): twice the buckets, every pair moved to its key's new bucket. */
    method ExtendArray()
      requires Table()
      modifies this
      ensures Table() && fresh(hashArray)
      ensures size == 2 * old(size) && numberOfItems == old(numberOfItems)
      ensures multiset(Items()) == multiset(old(Items()))
      ensures forall x :: HasKey(Items(), x) <==> old(HasKey(Items(), x))
    {
      DoublePowerOfTwo(size);
      size := size * 2;
      var nTable := new seq<(int, D)>[size](_ => []);
      Rehash(hashArray, nTable, hash);
      SameLength(Entries(nTable[..]), Entries(hashArray[..]));
      SameKeySet(Entries(nTable[..]), Entries(hashArray[..]));
      hashArray := nTable;
    }

    /** ShrinkArray(): half the buckets, every pair moved to its key's new bucket. */
    method ShrinkArray()
      requires Table() && size >= 2
      modifies this
      ensures Table() && fresh(hashArray)
      ensures size == old(size) / 2 && numberOfItems == old(numberOfItems)
      ensures multiset(Items()) == multiset(old(Items()))
      ensures forall x :: HasKey(Items(), x) <==> old(HasKey(Items(), x))
    {
      size := size / 2;
      var nTable := new seq<(int, D)>[size](_ => []);
      Rehash(hashArray, nTable, hash);
      SameLength(Entries(nTable[..]), Entries(hashArray[..]));
      SameKeySet(Entries(nTable[..]), Entries(hashArray[..]));
      hashArray := nTable;
    }
  }
}
