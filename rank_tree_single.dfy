/**
 * The parent-less recursive rank tree (RankTreeSingle.h): nodes hold only a
 * key, the insertion and deletion routines return the new subtree root, and
 * rebalancing is done on the way back up the recursion. Nodes have no data,
 * so the trees are `Tree<K, ()>`; `StaticRightRotate` is
 * `AvlTree.PromoteLeft` and `StaticLeftRotate` is `AvlTree.PromoteRight`,
 * and `getBalance` is `AvlTree.Bf`.
 */
module RankTreeSingle {
  import opened Order
  import opened AvlTree

  /**
   * Insert's rotation choice after refreshing the root: the case (LL, RR, LR
   * or RL) is picked by comparing the new key with the heavy child's key.
   */
  function InsertBalance<K>(t: Tree<K, ()>, k: K, lt: (K, K) -> bool): (r: Tree<K, ()>)
    requires t.Node?
    requires Bf(t) > 1 ==> t.left.Node? && (lt(t.left.key, k) ==> t.left.right.Node?)
    requires Bf(t) < -1 ==> t.right.Node? && (lt(k, t.right.key) ==> t.right.left.Node?)
    ensures Elements(r) == Elements(t) && Keys(r) == Keys(t)
  {
    if Bf(t) > 1 && lt(k, t.left.key) then PromoteLeft(t)
    else if Bf(t) < -1 && lt(t.right.key, k) then PromoteRight(t)
    else if Bf(t) > 1 && lt(t.left.key, k) then RotateLeftRight(t)
    else if Bf(t) < -1 && lt(k, t.right.key) then RotateRightLeft(t)
    else t
  }

  /**
   * The contract of RankTreeSingleNode::Insert(root, k) relating the old
   * subtree `t` and the returned one `r`: an absent key is added, an equal
   * key leaves the tree as it was, and the result is again a balanced search
   * tree with consistent caches, at most one level taller; when it did grow
   * the root kept its key and leans towards the side `k` went to.
   */
  ghost predicate Inserted<K(!new)>(t: Tree<K, ()>, r: Tree<K, ()>, k: K, lt: (K, K) -> bool) {
    Valid(r, lt) && Keys(r) == Keys(t) + {k} && Grown(r, Height(t))
    && (k in Keys(t) ==> r == t)
    && (k !in Keys(t) ==> Size(r) == Size(t) + 1)
    && (t.Node? && Height(r) == Height(t) + 1 ==>
      r.Node? && r.key == t.key
      && (lt(k, t.key) ==> Height(r.left) > Height(r.right))
      && (lt(t.key, k) ==> Height(r.left) < Height(r.right)))
  }

  /** RankTreeSingleNode::Insert(root, k): recurse to the side of `k`, then rebalance on the way up. */
  function NodeInsert<K(!new)>(t: Tree<K, ()>, k: K, lt: (K, K) -> bool): (r: Tree<K, ()>)
    requires StrictTotalOrder(lt) && Valid(t, lt)
    ensures Inserted(t, r, k, lt)
    decreases t
  {
    if t.Leaf? then
      Mk(Leaf, k, (), Leaf)
    else if lt(k, t.key) then
      var l := NodeInsert(t.left, k, lt);
      InsertedLeft(t, l, k, lt);
      InsertBalance(Mk(l, t.key, t.data, t.right), k, lt)
    else if lt(t.key, k) then
      var r := NodeInsert(t.right, k, lt);
      InsertedRight(t, r, k, lt);
      InsertBalance(Mk(t.left, t.key, t.data, r), k, lt)
    else
      InsertedHere(t, k, lt);
      InsertBalance(Mk(t.left, t.key, t.data, t.right), k, lt)
  }

  /**
   * After an insertion below the left child, the key comparison on the heavy
   * child picks exactly the rotation the AVL rule (`Fix`) picks.
   */
  lemma InsertLeftCase<K(!new)>(t: Tree<K, ()>, l: Tree<K, ()>, k: K, lt: (K, K) -> bool)
    requires StrictTotalOrder(lt) && Valid(t, lt) && t.Node? && lt(k, t.key)
    requires Inserted(t.left, l, k, lt)
    ensures var n := Mk(l, t.key, t.data, t.right);
      (Bf(n) > 1 ==> n.left.Node? && (lt(n.left.key, k) ==> n.left.right.Node?))
      && (Bf(n) < -1 ==> n.right.Node? && (lt(k, n.right.key) ==> n.right.left.Node?))
      && InsertBalance(n, k, lt) == Fix(n)
  {
    var n := Mk(l, t.key, t.data, t.right);
    CachedHeight(l);
    CachedHeight(t.left);
    CachedHeight(t.right);
    if Bf(n) > 1 {
      assert Height(l) == Height(t.left) + 1 && t.left.Node?;
      assert k != l.key;
      CachedHeight(l.left);
      CachedHeight(l.right);
      Asymmetric(lt, k, l.key);
    }
  }

  /** One level of Insert below the left child: the contract carries up. */
  lemma InsertedLeft<K(!new)>(t: Tree<K, ()>, l: Tree<K, ()>, k: K, lt: (K, K) -> bool)
    requires StrictTotalOrder(lt) && Valid(t, lt) && t.Node? && lt(k, t.key)
    requires Inserted(t.left, l, k, lt)
    ensures var n := Mk(l, t.key, t.data, t.right);
      (Bf(n) > 1 ==> n.left.Node? && (lt(n.left.key, k) ==> n.left.right.Node?))
      && (Bf(n) < -1 ==> n.right.Node? && (lt(k, n.right.key) ==> n.right.left.Node?))
      && Inserted(t, InsertBalance(n, k, lt), k, lt)
  {
    InsertLeftCase(t, l, k, lt);
    FixedLeft(t, l, k, lt);
  }

  lemma FixedLeft<K(!new)>(t: Tree<K, ()>, l: Tree<K, ()>, k: K, lt: (K, K) -> bool)
    requires StrictTotalOrder(lt) && Valid(t, lt) && t.Node? && lt(k, t.key)
    requires Inserted(t.left, l, k, lt)
    ensures Inserted(t, Fix(Mk(l, t.key, t.data, t.right)), k, lt)
  {
    KeysBelow(t, k, lt);
    GrewLeft(t, l, lt);
    if k in Keys(t) {
      FixValid(t, lt);
    }
  }

  lemma InsertRightCase<K(!new)>(t: Tree<K, ()>, r: Tree<K, ()>, k: K, lt: (K, K) -> bool)
    requires StrictTotalOrder(lt) && Valid(t, lt) && t.Node? && lt(t.key, k)
    requires Inserted(t.right, r, k, lt)
    ensures var n := Mk(t.left, t.key, t.data, r);
      (Bf(n) > 1 ==> n.left.Node? && (lt(n.left.key, k) ==> n.left.right.Node?))
      && (Bf(n) < -1 ==> n.right.Node? && (lt(k, n.right.key) ==> n.right.left.Node?))
      && InsertBalance(n, k, lt) == Fix(n)
  {
    var n := Mk(t.left, t.key, t.data, r);
    CachedHeight(r);
    CachedHeight(t.left);
    CachedHeight(t.right);
    if Bf(n) < -1 {
      assert Height(r) == Height(t.right) + 1 && t.right.Node?;
      assert k != r.key;
      CachedHeight(r.left);
      CachedHeight(r.right);
      Asymmetric(lt, k, r.key);
    }
  }

  lemma InsertedRight<K(!new)>(t: Tree<K, ()>, r: Tree<K, ()>, k: K, lt: (K, K) -> bool)
    requires StrictTotalOrder(lt) && Valid(t, lt) && t.Node? && lt(t.key, k)
    requires Inserted(t.right, r, k, lt)
    ensures var n := Mk(t.left, t.key, t.data, r);
      (Bf(n) > 1 ==> n.left.Node? && (lt(n.left.key, k) ==> n.left.right.Node?))
      && (Bf(n) < -1 ==> n.right.Node? && (lt(k, n.right.key) ==> n.right.left.Node?))
      && Inserted(t, InsertBalance(n, k, lt), k, lt)
  {
    InsertRightCase(t, r, k, lt);
    FixedRight(t, r, k, lt);
  }

  lemma FixedRight<K(!new)>(t: Tree<K, ()>, r: Tree<K, ()>, k: K, lt: (K, K) -> bool)
    requires StrictTotalOrder(lt) && Valid(t, lt) && t.Node? && lt(t.key, k)
    requires Inserted(t.right, r, k, lt)
    ensures Inserted(t, Fix(Mk(t.left, t.key, t.data, r)), k, lt)
  {
    KeysAbove(t, k, lt);
    GrewRight(t, r, lt);
    if k in Keys(t) {
      FixValid(t, lt);
    }
  }

  /** Insert of the root's own key: the refreshed root is the old root and no case applies. */
  lemma InsertedHere<K(!new)>(t: Tree<K, ()>, k: K, lt: (K, K) -> bool)
    requires StrictTotalOrder(lt) && Valid(t, lt) && t.Node? && !lt(k, t.key) && !lt(t.key, k)
    ensures Mk(t.left, t.key, t.data, t.right) == t && -1 <= Bf(t) <= 1
    ensures InsertBalance(t, k, lt) == t && k in Keys(t) && Inserted(t, t, k, lt)
  {
    CachedHeight(t.left);
    CachedHeight(t.right);
  }

  /**
   * findMin: walks left children from `t` to the leftmost node, which is the
   * node holding the smallest key.
   */
  method FindMin<K, D>(t: Tree<K, D>) returns (m: Tree<K, D>)
    requires t.Node?
    ensures m == Leftmost(t)
  {
    m := t;
    while m.left.Node?
      invariant m.Node? && Leftmost(m) == Leftmost(t)
      decreases Size(m)
    {
      m := m.left;
    }
  }

  /**
   * DeleteNode(root, k) with the one-child case splicing the child in (the
   * evident intent; see DeleteNodeAsWritten). An absent key changes nothing;
   * a present key is removed, a node with two children taking the key of
   * its in-order successor. The result is again a balanced search tree with
   * consistent caches that lost at most one level. The rotation choice of
   * DeleteNode (LL when the left child's factor is >= 0, LR when < 0, RR
   * when the right child's factor is <= 0, RL when > 0) is exactly `Fix`.
   */
  function DeleteNode<K(!new)>(t: Tree<K, ()>, k: K, lt: (K, K) -> bool): (r: Tree<K, ()>)
    requires StrictTotalOrder(lt) && Valid(t, lt)
    ensures Valid(r, lt) && Keys(r) == Keys(t) - {k} && Shrunk(r, Height(t))
    ensures k !in Keys(t) ==> r == t
    ensures k in Keys(t) ==> Size(r) + 1 == Size(t)
    decreases t
  {
    if t.Leaf? then
      t
    else if lt(k, t.key) then
      var l := DeleteNode(t.left, k, lt);
      DeletedLeft(t, l, k, lt);
      Fix(Mk(l, t.key, t.data, t.right))
    else if lt(t.key, k) then
      var r := DeleteNode(t.right, k, lt);
      DeletedRight(t, r, k, lt);
      Fix(Mk(t.left, t.key, t.data, r))
    else if t.left.Leaf? || t.right.Leaf? then
      var child := if t.left.Node? then t.left else t.right;
      DeletedHere(t, k, lt);
      child
    else
      var m := Leftmost(t.right);
      var r := DeleteNode(t.right, m.key, lt);
      DeletedSuccessor(t, r, k, lt);
      Fix(Mk(t.left, m.key, m.data, r))
  }

  lemma DeletedLeft<K(!new)>(t: Tree<K, ()>, l: Tree<K, ()>, k: K, lt: (K, K) -> bool)
    requires StrictTotalOrder(lt) && Valid(t, lt) && t.Node? && lt(k, t.key)
    requires Valid(l, lt) && Keys(l) == Keys(t.left) - {k} && Shrunk(l, Height(t.left))
    requires k !in Keys(t.left) ==> l == t.left
    requires k in Keys(t.left) ==> Size(l) + 1 == Size(t.left)
    ensures var r := Fix(Mk(l, t.key, t.data, t.right));
      Valid(r, lt) && Keys(r) == Keys(t) - {k} && Shrunk(r, Height(t))
      && (k !in Keys(t) ==> r == t)
      && (k in Keys(t) ==> Size(r) + 1 == Size(t))
  {
    KeysBelow(t, k, lt);
    Asymmetric(lt, k, t.key);
    ShrankLeft(t, l, t.key, t.data, lt);
    if k !in Keys(t) {
      FixValid(t, lt);
    }
  }

  lemma DeletedRight<K(!new)>(t: Tree<K, ()>, r: Tree<K, ()>, k: K, lt: (K, K) -> bool)
    requires StrictTotalOrder(lt) && Valid(t, lt) && t.Node? && lt(t.key, k)
    requires Valid(r, lt) && Keys(r) == Keys(t.right) - {k} && Shrunk(r, Height(t.right))
    requires k !in Keys(t.right) ==> r == t.right
    requires k in Keys(t.right) ==> Size(r) + 1 == Size(t.right)
    ensures var u := Fix(Mk(t.left, t.key, t.data, r));
      Valid(u, lt) && Keys(u) == Keys(t) - {k} && Shrunk(u, Height(t))
      && (k !in Keys(t) ==> u == t)
      && (k in Keys(t) ==> Size(u) + 1 == Size(t))
  {
    KeysAbove(t, k, lt);
    Asymmetric(lt, k, t.key);
    ShrankRight(t, r, t.key, t.data, lt);
    if k !in Keys(t) {
      FixValid(t, lt);
    }
  }

  /** Deleting the key of a node with at most one child: that child takes its place. */
  lemma DeletedHere<K(!new)>(t: Tree<K, ()>, k: K, lt: (K, K) -> bool)
    requires StrictTotalOrder(lt) && Valid(t, lt) && t.Node? && !lt(k, t.key) && !lt(t.key, k)
    requires t.left.Leaf? || t.right.Leaf?
    ensures var child := if t.left.Node? then t.left else t.right;
      Valid(child, lt) && Keys(child) == Keys(t) - {k} && Shrunk(child, Height(t))
      && k in Keys(t) && Size(child) + 1 == Size(t)
  {
    assert k == t.key;
    forall x | x in Keys(t.left) + Keys(t.right) ensures x != k {
      assert lt(x, t.key) || lt(t.key, x);
    }
  }

  /**
   * Deleting the key of a node with two children: the in-order successor's
   * key moves up and is deleted from the right subtree.
   */
  lemma DeletedSuccessor<K(!new)>(t: Tree<K, ()>, r: Tree<K, ()>, k: K, lt: (K, K) -> bool)
    requires StrictTotalOrder(lt) && Valid(t, lt) && t.Node? && !lt(k, t.key) && !lt(t.key, k)
    requires t.left.Node? && t.right.Node?
    requires var m := Leftmost(t.right);
      Valid(r, lt) && Keys(r) == Keys(t.right) - {m.key} && Shrunk(r, Height(t.right))
      && (m.key in Keys(t.right) ==> Size(r) + 1 == Size(t.right))
    ensures var m := Leftmost(t.right);
      var u := Fix(Mk(t.left, m.key, m.data, r));
      Valid(u, lt) && Keys(u) == Keys(t) - {k} && Shrunk(u, Height(t))
      && k in Keys(t) && Size(u) + 1 == Size(t)
  {
    var m := Leftmost(t.right);
    assert k == t.key;
    LeftmostLeast(t.right, lt);
    assert lt(t.key, m.key);
    forall x | x in Keys(t.left) ensures lt(x, m.key) {
      assert lt(x, t.key);
    }
    ShrankRight(t, r, m.key, m.data, lt);
    forall x | x in Keys(t.left) + Keys(t.right) ensures x != k {
      assert lt(x, t.key) || lt(t.key, x);
    }
  }

  /**
   * DeleteNode as the source writes it: in the one-child case the node takes
   * the child's key and the child is freed, but the node's pointer to the
   * child is kept. The model keeps the child's last contents there.
   */
  function DeleteNodeAsWritten<K>(t: Tree<K, ()>, k: K, lt: (K, K) -> bool): (r: Tree<K, ()>)
    requires CachesOk(t)
    ensures CachesOk(r)
    decreases t
  {
    if t.Leaf? then
      t
    else
      var t1 :=
        if lt(k, t.key) then t.(left := DeleteNodeAsWritten(t.left, k, lt))
        else if lt(t.key, k) then t.(right := DeleteNodeAsWritten(t.right, k, lt))
        else if t.left.Leaf? || t.right.Leaf? then
          var child := if t.left.Node? then t.left else t.right;
          if child.Leaf? then Leaf else t.(key := child.key)
        else
          var m := Leftmost(t.right);
          t.(key := m.key, right := DeleteNodeAsWritten(t.right, m.key, lt));
      if t1.Leaf? then
        Leaf
      else
        MkMeasures(t1.left, t1.key, t1.data, t1.right);
        FixCaches(Refresh(t1));
        Fix(Refresh(t1))
  }

  /** A single node with consistent caches. */
  function Single(k: int): Tree<int, ()> {
    Node(Leaf, k, (), 1, 1, Leaf)
  }

  /** The two-node tree a(-, b): node `a` with the single right child `b`. */
  function Pair(a: int, b: int): Tree<int, ()> {
    Node(Leaf, a, (), 2, 2, Single(b))
  }

  lemma PairIsValid(a: int, b: int)
    requires a < b
    ensures Valid(Pair(a, b), IntLess)
  {
    assert Keys(Single(b)) == {b};
  }

  /**
   * Deleting `a` from a(-, b) as written leaves a node `b` whose right
   * pointer still leads to the freed node `b`: the key `b` is reachable
   * twice and the search order is broken.
   */
  lemma OneChildDeleteKeepsStaleChild(a: int, b: int)
    requires a < b
    ensures Valid(Pair(a, b), IntLess)
    ensures var bad := DeleteNodeAsWritten(Pair(a, b), a, IntLess);
      bad == Pair(b, b) && Elements(bad) == [(b, ()), (b, ())] && !Bst(bad, IntLess)
  {
    PairIsValid(a, b);
    assert !IntLess(b, b);
    assert Keys(Single(b)) == {b};
    assert Bf(Pair(b, b)) == -1;
  }

  /** The splicing DeleteNode removes `a` from a(-, b) and leaves the single node `b`. */
  lemma OneChildDeleteSplices(a: int, b: int)
    requires a < b
    ensures StrictTotalOrder(IntLess) && Valid(Pair(a, b), IntLess)
    ensures DeleteNode(Pair(a, b), a, IntLess) == Single(b)
  {
    IntLessIsStrictTotalOrder();
    PairIsValid(a, b);
  }

  /** The RankTreeSingle wrapper: a root pointer, null for the empty tree. */
  class RankTreeSingle<K(!new)> {
    const lt: (K, K) -> bool
    var root: Tree<K, ()>

    ghost predicate Valid()
      reads this
    {
      StrictTotalOrder(lt) && AvlTree.Valid(root, lt)
    }

    constructor(lt: (K, K) -> bool)
      requires StrictTotalOrder(lt)
      ensures Valid() && this.lt == lt && root == Leaf
    {
      this.lt := lt;
      root := Leaf;
    }

    /** Insert(key): the root becomes the result of the node-level Insert. */
    method Insert(k: K)
      requires Valid()
      modifies this
      ensures Valid() && root == NodeInsert(old(root), k, lt) && Inserted(old(root), root, k, lt)
    {
      root := NodeInsert(root, k, lt);
    }

    /** Remove(key): the root becomes the result of DeleteNode. */
    method Remove(k: K)
      requires Valid()
      modifies this
      ensures Valid() && root == DeleteNode(old(root), k, lt)
      ensures Keys(root) == Keys(old(root)) - {k}
      ensures k !in Keys(old(root)) ==> root == old(root)
      ensures k in Keys(old(root)) ==> Size(root) + 1 == Size(old(root))
    {
      root := DeleteNode(root, k, lt);
    }

    /** Find(key): the node holding `key`, or null when it is absent (also for an empty tree). */
    function Find(k: K): (r: Tree<K, ()>)
      reads this
      requires Valid()
      ensures (r.Node? <==> k in Keys(root)) && (r.Node? ==> r.key == k)
    {
      FindCorrect(root, k, lt);
      AvlTree.Find(root, k, lt)
    }

    /** FindByRank(r): the r-th largest key; the source dereferences the root, so the tree is not empty. */
    function FindByRank(r: int): (k: K)
      reads this
      requires Valid() && 1 <= r <= R(root)
      ensures R(root) == Size(root) == |Elements(root)| && k == Elements(root)[Size(root) - r].0
    {
      NodeByRankCorrect(root, r);
      NodeByRank(root, r).key
    }
  }
}
