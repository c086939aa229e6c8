/**
 * The node-count constructor of RankTree.h and its in-order traversals:
 * CreateCompleteBinaryTree builds a perfect tree of fresh nodes,
 * RemoveExtraNodes prunes bottom-level leaves from the right,
 * FillKeysInOrder labels the nodes 0, 1, 2, ... in order, and the two
 * Fill* walks copy payloads in from an array indexed by key and copy node
 * pointers out into an array. The constructor's keys are integers (it uses
 * K() and ++ on them), so this module fixes the key type to `int`.
 */
module RankTreeShape {
  import opened Order
  import opened AvlTree

  function Pow2(n: nat): (p: nat)
    ensures p >= 1
  {
    if n == 0 then 1 else 2 * Pow2(n - 1)
  }

  function Min(a: int, b: int): int {
    if a <= b then a else b
  }

  /** ceil(log2 n) for n >= 1, on integers: the least `l` with n <= 2^l. */
  function CeilLog2(n: nat): (l: nat)
    requires n >= 1
    ensures n <= Pow2(l) && (l > 0 ==> Pow2(l - 1) < n)
    decreases n
  {
    if n == 1 then 0 else 1 + CeilLog2((n + 1) / 2)
  }

  /**
   * The level count of RankTree(n): ceil(log2 n), plus one when n is a power
   * of two. It is the height `l` with 2^(l-1) <= n < 2^l, so a perfect tree
   * of `l` levels has at least n nodes and fewer than n of them are leaves.
   */
  function TreeLevel(n: nat): (l: nat)
    requires n >= 1
    ensures l >= 1 && Pow2(l - 1) <= n < Pow2(l)
  {
    var c := CeilLog2(n);
    if Pow2(c) == n then c + 1 else c
  }

  /** `t` is a perfect tree of height `h` whose caches hold its true height and rank. */
  ghost predicate Perfect<K, D>(t: Tree<K, D>, h: nat) {
    if h == 0 then t.Leaf?
    else t.Node? && t.height == h && t.rank == Pow2(h) - 1 && Perfect(t.left, h - 1) && Perfect(t.right, h - 1)
  }

  /** Every node of `t` carries the payload `d`. */
  ghost predicate AllData<K, D>(t: Tree<K, D>, d: D) {
    t.Node? ==> t.data == d && AllData(t.left, d) && AllData(t.right, d)
  }

  /** A fresh node: key 0, the null payload, height 1 and rank 1. */
  function Fresh<D>(nil: D): Tree<int, D> {
    Node(Leaf, 0, nil, 1, 1, Leaf)
  }

  /**
   * CreateCompleteBinaryTree(root, treeLevel, currentLevel) on a fresh node:
   * while currentLevel < treeLevel it hangs two fresh children, builds each
   * of them one level further down, and refreshes the node's height and rank.
   */
  function Complete<D>(nil: D, treeLevel: int, currentLevel: int): (t: Tree<int, D>)
    ensures Perfect(t, if treeLevel <= currentLevel then 1 else treeLevel - currentLevel + 1)
    ensures AllData(t, nil)
    decreases treeLevel - currentLevel
  {
    if treeLevel <= currentLevel then
      Fresh(nil)
    else
      var l := Complete(nil, treeLevel, currentLevel + 1);
      var r := Complete(nil, treeLevel, currentLevel + 1);
      Mk(l, 0, nil, r)
  }

  /** A perfect tree of height h is balanced, has 2^h - 1 nodes and consistent caches. */
  lemma {:induction false} PerfectMeasures<K, D>(t: Tree<K, D>, h: nat)
    requires Perfect(t, h)
    ensures CachesOk(t) && Balanced(t) && Height(t) == H(t) == h && Size(t) == R(t) == Pow2(h) - 1
  {
    if h > 0 {
      PerfectMeasures(t.left, h - 1);
      PerfectMeasures(t.right, h - 1);
    }
  }

  /**
   * RemoveExtraNodes(root, numberOfNodesToRemove): nothing happens once the
   * count is 0 or at a null pointer. Otherwise the right subtree is pruned
   * first; a node left without children is then deleted and counted;
   * otherwise the left subtree is pruned with what is left of the count and
   * the node refreshes its height and rank. The count is a reference
   * parameter, so it comes back with the tree.
   */
  function RemoveExtra<K, D>(t: Tree<K, D>, c: int): (p: (Tree<K, D>, int))
    ensures p.1 <= c
  {
    if c == 0 || t.Leaf? then
      (t, c)
    else
      var (r1, c1) := RemoveExtra(t.right, c);
      if t.left.Leaf? && r1.Leaf? then
        (Leaf, c1 - 1)
      else
        var (l1, c2) := RemoveExtra(t.left, c1);
        (Mk(l1, t.key, t.data, r1), c2)
  }

  /**
   * Pruning `c >= 0` nodes from a perfect tree of height h removes
   * m = min(c, 2^(h-1)) bottom-level leaves, from the right: the count
   * drops by m, the tree keeps consistent caches and stays balanced, and it
   * loses its bottom level exactly when all 2^(h-1) leaves of it went.
   */
  lemma {:induction false} RemoveExtraPerfect<K, D>(t: Tree<K, D>, h: nat, c: int, d: D)
    requires Perfect(t, h) && h >= 1 && c >= 0 && AllData(t, d)
    ensures PrunedOk(RemoveExtra(t, c), h, c, d)
  {
    PerfectMeasures(t, h);
    if c == 0 {
    } else if h == 1 {
      assert t.left.Leaf? && t.right.Leaf?;
    } else {
      var c1 := RemoveExtra(t.right, c).1;
      RemoveExtraPerfect(t.right, h - 1, c, d);
      RemoveExtraPerfect(t.left, h - 1, c1, d);
      PrunedNode(t, h, c, d);
    }
  }

  /**
   * What pruning `c` nodes from a perfect tree of height h leaves, as the
   * pair `p` of the tree and the count: m = min(c, 2^(h-1)) nodes went.
   */
  ghost predicate PrunedOk<K, D>(p: (Tree<K, D>, int), h: nat, c: int, d: D)
    requires h >= 1
  {
    var m := Min(c, Pow2(h - 1));
    p.1 == c - m && Size(p.0) == Pow2(h) - 1 - m && CachesOk(p.0) && Balanced(p.0)
    && Height(p.0) == H(p.0) == (if m == Pow2(h - 1) then h - 1 else h) && R(p.0) == Size(p.0) && AllData(p.0, d)
  }

  /** One node of the pruning, given what pruning did to its two children. */
  lemma PrunedNode<K, D>(t: Tree<K, D>, h: nat, c: int, d: D)
    requires Perfect(t, h) && h >= 2 && c > 0 && AllData(t, d)
    requires PrunedOk(RemoveExtra(t.right, c), h - 1, c, d)
    requires PrunedOk(RemoveExtra(t.left, RemoveExtra(t.right, c).1), h - 1, RemoveExtra(t.right, c).1, d)
    ensures PrunedOk(RemoveExtra(t, c), h, c, d)
  {
    assert Pow2(h - 1) == 2 * Pow2(h - 2);
    assert t.left.Node?;
  }

  /** `a` and `b` have the same nodes with the same cached heights and ranks; keys and payloads may differ. */
  ghost predicate SameShape<K, D>(a: Tree<K, D>, b: Tree<K, D>) {
    match a
    case Leaf => b.Leaf?
    case Node(l, _, _, h, rk, r) => b.Node? && b.height == h && b.rank == rk && SameShape(l, b.left) && SameShape(r, b.right)
  }

  /** Relabelling nodes keeps everything the caches and the AVL condition talk about. */
  lemma {:induction false} SameShapeMeasures<K, D>(a: Tree<K, D>, b: Tree<K, D>)
    requires SameShape(a, b)
    ensures H(a) == H(b) && R(a) == R(b) && Height(a) == Height(b) && Size(a) == Size(b)
    ensures (CachesOk(a) <==> CachesOk(b)) && (Balanced(a) <==> Balanced(b))
  {
    if a.Node? {
      SameShapeMeasures(a.left, b.left);
      SameShapeMeasures(a.right, b.right);
    }
  }

  /** The i-th pair of a node's in-order sequence, by where i falls. */
  lemma ElementAt<K, D>(t: Tree<K, D>, i: int)
    requires t.Node? && 0 <= i < |Elements(t)|
    ensures |Elements(t)| == |Elements(t.left)| + 1 + |Elements(t.right)|
    ensures i < |Elements(t.left)| ==> Elements(t)[i] == Elements(t.left)[i]
    ensures i == |Elements(t.left)| ==> Elements(t)[i] == (t.key, t.data)
    ensures i > |Elements(t.left)| ==> Elements(t)[i] == Elements(t.right)[i - |Elements(t.left)| - 1]
  {
  }

  /**
   * FillKeysInOrder(root, key): the in-order walk gives the nodes the keys
   * k, k + 1, ..., leaving payloads and caches as they are; the counter, a
   * reference parameter, ends one past the last key handed out.
   */
  function FillKeys<D>(t: Tree<int, D>, k: int): (p: (Tree<int, D>, int))
    ensures p.1 == k + Size(t) && SameShape(t, p.0)
    ensures |Elements(p.0)| == |Elements(t)|
    ensures forall i :: 0 <= i < |Elements(t)| ==> Elements(p.0)[i] == (k + i, Elements(t)[i].1)
    ensures forall x :: x in Keys(p.0) <==> k <= x < k + Size(t)
    ensures Bst(p.0, IntLess)
  {
    if t.Leaf? then
      (t, k)
    else
      var (l, k1) := FillKeys(t.left, k);
      var (r, k2) := FillKeys(t.right, k1 + 1);
      var u := t.(left := l, key := k1, right := r);
      ElementsSize(t.left);
      forall i | 0 <= i < |Elements(t)| ensures Elements(u)[i] == (k + i, Elements(t)[i].1) {
        ElementAt(t, i);
        ElementAt(u, i);
      }
      (u, k2)
  }

  /**
   * The first two steps of RankTree(numberOfNodes), for n >= 1: the perfect
   * tree of TreeLevel(n) levels with 2^level - 1 - n nodes pruned. The tree
   * is balanced, has consistent caches and exactly n nodes.
   */
  function Pruned<D>(n: int, nil: D): (t: Tree<int, D>)
    requires n >= 1
    ensures CachesOk(t) && Balanced(t) && Size(t) == n && AllData(t, nil)
  {
    var level := TreeLevel(n);
    var full := Complete(nil, level, 1);
    RemoveExtraPerfect(full, level, Pow2(level) - 1 - n, nil);
    PerfectMeasures(full, level);
    if level != 0 then RemoveExtra(full, Pow2(level) - 1 - n).0 else full
  }

  /**
   * RankTree(numberOfNodes), for n >= 1: the pruned tree labelled in order
   * from K() = 0. Every payload is the null pointer `nil`.
   */
  function SizedTree<D>(n: int, nil: D): (t: Tree<int, D>)
    requires n >= 1
    ensures Valid(t, IntLess) && Size(t) == n
    ensures |Elements(t)| == n && forall i :: 0 <= i < n ==> Elements(t)[i] == (i, nil)
  {
    var pruned := Pruned(n, nil);
    var p := FillKeys(pruned, 0);
    SameShapeMeasures(pruned, p.0);
    AllDataElements(pruned, nil);
    ElementsSize(pruned);
    p.0
  }

  lemma {:induction false} AllDataElements<K, D>(t: Tree<K, D>, d: D)
    requires AllData(t, d)
    ensures forall i :: 0 <= i < |Elements(t)| ==> Elements(t)[i].1 == d
  {
    if t.Node? {
      AllDataElements(t.left, d);
      AllDataElements(t.right, d);
      forall i | 0 <= i < |Elements(t)| ensures Elements(t)[i].1 == d {
        ElementAt(t, i);
      }
    }
  }


  /**
   * FillNodesWithArrDataInOrder(array, size, index): the in-order walk sets
   * every node's payload to array[key] and returns index plus the number of
   * nodes visited. The array is read at each key unchecked, so every key
   * must index it.
   */
  function FillData<D>(t: Tree<int, D>, a: seq<D>, index: int): (p: (Tree<int, D>, int))
    requires forall x :: x in Keys(t) ==> 0 <= x < |a|
    ensures p.1 == index + Size(t) && SameShape(t, p.0) && Keys(p.0) == Keys(t)
    ensures Bst(t, IntLess) ==> Bst(p.0, IntLess)
    ensures |Elements(p.0)| == |Elements(t)| && forall i :: 0 <= i < |Elements(t)| ==> Elements(t)[i].0 in Keys(t)
    ensures forall i :: 0 <= i < |Elements(t)| ==> Elements(p.0)[i] == (Elements(t)[i].0, a[Elements(t)[i].0])
  {
    ElementsSize(t);
    if t.Leaf? then
      (t, index)
    else
      assert t.key in Keys(t) && Keys(t.left) <= Keys(t) && Keys(t.right) <= Keys(t);
      var (l, i1) := FillData(t.left, a, index);
      var (r, i2) := FillData(t.right, a, i1 + 1);
      var u := t.(left := l, data := a[t.key], right := r);
      forall i | 0 <= i < |Elements(t)| ensures Elements(u)[i] == (Elements(t)[i].0, a[Elements(t)[i].0]) {
        ElementAt(t, i);
        ElementAt(u, i);
      }
      (u, i2)
  }

  /** The node pointers of `t` in in-order sequence. */
  function InOrderNodes<K, D>(t: Tree<K, D>): (s: seq<Tree<K, D>>)
    ensures |s| == Size(t)
    ensures forall i :: 0 <= i < |s| ==> s[i].Node? && IsSubtree(s[i], t)
  {
    if t.Leaf? then [] else InOrderNodes(t.left) + [t] + InOrderNodes(t.right)
  }

  /** The i-th node in order holds the i-th pair in order. */
  lemma {:induction false} InOrderNodesElements<K, D>(t: Tree<K, D>)
    ensures |InOrderNodes(t)| == |Elements(t)|
    ensures forall i :: 0 <= i < |Elements(t)| ==> (InOrderNodes(t)[i].key, InOrderNodes(t)[i].data) == Elements(t)[i]
  {
    ElementsSize(t);
    if t.Node? {
      InOrderNodesElements(t.left);
      InOrderNodesElements(t.right);
      forall i | 0 <= i < |Elements(t)| ensures (InOrderNodes(t)[i].key, InOrderNodes(t)[i].data) == Elements(t)[i] {
        ElementAt(t, i);
      }
    }
  }

  /**
   * FillArrayWithNodesInOrder(array, size, index): writes the nodes of `t`
   * in order into array[index..] and returns index + Size(t). The bound is
   * not checked, so the array must have room; no other cell changes.
   */
  method FillArrayWithNodes<K, D>(t: Tree<K, D>, a: array<Tree<K, D>>, index: int) returns (next: int)
    requires t.Node? && 0 <= index && index + Size(t) <= a.Length
    modifies a
    ensures next == index + Size(t)
    ensures forall j :: 0 <= j < a.Length ==> a[j] == if index <= j < next then InOrderNodes(t)[j - index] else old(a[j])
    decreases t
  {
    ghost var a0 := a[..];
    next := index;
    if t.left.Node? {
      next := FillArrayWithNodes(t.left, a, next);
    }
    a[next] := t;
    next := next + 1;
    ghost var a1 := a[..];
    if t.right.Node? {
      next := FillArrayWithNodes(t.right, a, next);
    }
    forall j | 0 <= j < a.Length
      ensures a[j] == if index <= j < next then InOrderNodes(t)[j - index] else a0[j]
    {
      InOrderNodesAt(t, j - index);
    }
  }

  /** The i-th node in order, by where i falls. */
  lemma InOrderNodesAt<K, D>(t: Tree<K, D>, i: int)
    requires t.Node?
    ensures 0 <= i < Size(t.left) ==> InOrderNodes(t)[i] == InOrderNodes(t.left)[i]
    ensures i == Size(t.left) ==> InOrderNodes(t)[i] == t
    ensures Size(t.left) < i < Size(t) ==> InOrderNodes(t)[i] == InOrderNodes(t.right)[i - Size(t.left) - 1]
  {
  }
}
