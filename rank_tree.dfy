/**
 * The parent-pointer rank tree (RankTree.h). Every node caches its height
 * and its rank (the number of nodes in its subtree). The node routines
 * return the new root of the subtree they were called on; the recursive
 * calls throw that value away and rely on SwapNodesParent and the rotations
 * relinking the parent through its child pointer, which under unique keys
 * leaves the parent pointing at exactly the value the call returned. So the
 * model passes the returned subtree back up as a value. A null pointer is
 * `Leaf`, a null payload `None`.
 */
module RankTree {
  import opened Order
  import opened AvlTree
  import opened RankTreeShape

  /**
   * Rebalance: getBalanceFactor refreshes the node's height and rank, and
   * the rotation is chosen on the cached balance factors (`Fix`).
   */
  function Rebalance<K, D>(t: Tree<K, D>): (r: Tree<K, D>)
    requires t.Node? && HeightsOk(t.left) && HeightsOk(t.right)
    ensures Elements(r) == Elements(t) && Keys(r) == Keys(t)
  {
    Fix(Refresh(t))
  }

  /** A valid node is left as it is by Rebalance. */
  lemma RebalanceValid<K(!new), D>(t: Tree<K, D>, lt: (K, K) -> bool)
    requires t.Node? && Valid(t, lt)
    ensures Rebalance(t) == t
  {
    FixValid(t, lt);
  }

  /*
   * ---------------------------------------------------------------------
   * Insert
   * ---------------------------------------------------------------------
   */

  /**
   * What one Insert call promises about the subtree `t` it was called on and
   * the subtree `u` that replaces it: `u` is again a balanced search tree
   * with consistent caches in insertion shape; a present key changes
   * nothing; an absent key is added with its payload at its place in order.
   */
  ghost predicate Inserted<K(!new), D>(t: Tree<K, D>, u: Tree<K, D>, k: K, d: D, lt: (K, K) -> bool) {
    Valid(u, lt) && Grown(u, Height(t)) && Keys(u) == Keys(t) + {k}
    && (k in Keys(t) ==> u == t)
    && (k !in Keys(t) ==> Size(u) == Size(t) + 1 && Elements(u) == InsertSorted(Elements(t), (k, d), lt))
  }

  /** The child pointer after a recursive Insert: unchanged when the call met the key. */
  function ChildAfter<K, D>(c: Tree<K, D>, res: Option<Tree<K, D>>): Tree<K, D> {
    match res
    case None => c
    case Some(u) => u
  }

  /**
   * RankTreeNode::Insert(key, data): a new node (height 1, rank 1) goes into
   * the empty child slot on the side of `k`; otherwise the call recurses.
   * The node then rebalances and returns the new subtree root. Meeting the
   * key at this node returns the null pointer (`None`) and changes nothing.
   */
  function NodeInsert<K(!new), D>(t: Tree<K, D>, k: K, d: D, lt: (K, K) -> bool): (r: Option<Tree<K, D>>)
    requires StrictTotalOrder(lt) && t.Node? && Valid(t, lt)
    ensures r.None? <==> !lt(k, t.key) && !lt(t.key, k)
    ensures r.Some? ==> Inserted(t, r.value, k, d, lt)
    decreases t
  {
    if lt(t.key, k) then
      var c := if t.right.Leaf? then Mk(Leaf, k, d, Leaf) else ChildAfter(t.right, NodeInsert(t.right, k, d, lt));
      ChildInserted(t.right, c, k, d, lt);
      InsertedRight(t, c, k, d, lt);
      Some(Rebalance(t.(right := c)))
    else if lt(k, t.key) then
      var c := if t.left.Leaf? then Mk(Leaf, k, d, Leaf) else ChildAfter(t.left, NodeInsert(t.left, k, d, lt));
      ChildInserted(t.left, c, k, d, lt);
      InsertedLeft(t, c, k, d, lt);
      Some(Rebalance(t.(left := c)))
    else
      None
  }

  /**
   * The child after Insert keeps the contract: a fresh node in an empty
   * slot, the unchanged child when the key was met there, or the child's
   * own result.
   */
  lemma ChildInserted<K(!new), D>(c0: Tree<K, D>, c: Tree<K, D>, k: K, d: D, lt: (K, K) -> bool)
    requires StrictTotalOrder(lt) && Valid(c0, lt)
    requires c0.Leaf? ==> c == Mk(Leaf, k, d, Leaf)
    requires c0.Node? && c != c0 ==> Inserted(c0, c, k, d, lt)
    requires c0.Node? && c == c0 ==> (!lt(k, c0.key) && !lt(c0.key, k)) || Inserted(c0, c, k, d, lt)
    ensures Inserted(c0, c, k, d, lt)
  {
    if c0.Node? && c == c0 && !lt(k, c0.key) && !lt(c0.key, k) {
      assert k == c0.key;
    }
  }

  /** One level of Insert on the right: the contract carries up through Rebalance. */
  lemma InsertedRight<K(!new), D>(t: Tree<K, D>, c: Tree<K, D>, k: K, d: D, lt: (K, K) -> bool)
    requires StrictTotalOrder(lt) && t.Node? && Valid(t, lt) && lt(t.key, k)
    requires Inserted(t.right, c, k, d, lt)
    ensures HeightsOk(c) && Inserted(t, Rebalance(t.(right := c)), k, d, lt)
  {
    KeysAbove(t, k, lt);
    GrewRight(t, c, lt);
    assert Refresh(t.(right := c)) == Mk(t.left, t.key, t.data, c);
    if k in Keys(t) {
      RebalanceValid(t, lt);
    } else {
      var a := Elements(t.left) + [(t.key, t.data)];
      ElementsSize(t.left);
      forall i | 0 <= i < |a| ensures !lt(k, a[i].0) {
        if i < |Elements(t.left)| {
          assert a[i] == Elements(t.left)[i];
          assert lt(a[i].0, t.key);
        }
        Asymmetric(lt, k, a[i].0);
      }
      InsertSortedAppendRight(a, Elements(t.right), (k, d), lt);
    }
  }

  /** One level of Insert on the left: the contract carries up through Rebalance. */
  lemma InsertedLeft<K(!new), D>(t: Tree<K, D>, c: Tree<K, D>, k: K, d: D, lt: (K, K) -> bool)
    requires StrictTotalOrder(lt) && t.Node? && Valid(t, lt) && lt(k, t.key)
    requires Inserted(t.left, c, k, d, lt)
    ensures HeightsOk(c) && Inserted(t, Rebalance(t.(left := c)), k, d, lt)
  {
    KeysBelow(t, k, lt);
    GrewLeft(t, c, lt);
    assert Refresh(t.(left := c)) == Mk(c, t.key, t.data, t.right);
    if k in Keys(t) {
      RebalanceValid(t, lt);
    } else {
      InsertSortedBefore(Elements(t.left), (t.key, t.data), Elements(t.right), (k, d), lt);
    }
  }

  /*
   * ---------------------------------------------------------------------
   * Remove
   * ---------------------------------------------------------------------
   */

  /**
   * What one Remove call promises about the subtree `t` and the subtree `u`
   * that replaces it: `u` is again a balanced search tree with consistent
   * caches that lost at most one level; an absent key changes nothing; a
   * present key's pair is dropped and the other pairs keep their order.
   */
  ghost predicate Removed<K(!new), D>(t: Tree<K, D>, u: Tree<K, D>, k: K, lt: (K, K) -> bool) {
    Valid(u, lt) && Shrunk(u, Height(t)) && Keys(u) == Keys(t) - {k}
    && Elements(u) == RemoveKey(Elements(t), k)
    && (k !in Keys(t) ==> u == t)
    && (k in Keys(t) ==> Size(u) + 1 == Size(t))
  }

  /** A search tree's pairs without its root's pair are its children's pairs. */
  lemma ElementsWithoutRoot<K(!new), D>(t: Tree<K, D>, lt: (K, K) -> bool)
    requires StrictTotalOrder(lt) && t.Node? && Bst(t, lt)
    ensures RemoveKey(Elements(t), t.key) == Elements(t.left) + Elements(t.right)
  {
    KeysWithoutRoot(t, lt);
    KeyNotInElements(t.left, t.key);
    KeyNotInElements(t.right, t.key);
    RemoveKeyMiddle(Elements(t.left), (t.key, t.data), Elements(t.right));
  }

  /** A key that is not in the tree removes nothing from its pairs. */
  lemma RemoveAbsentKey<K, D>(t: Tree<K, D>, k: K)
    requires k !in Keys(t)
    ensures RemoveKey(Elements(t), k) == Elements(t)
  {
    KeyNotInElements(t, k);
    RemoveKeyAbsent(Elements(t), k);
  }

  /**
   * The predecessor removal the deletion evidently intends: the maximum of
   * `t` is unlinked and every node on the right spine above it is refreshed
   * and rebalanced on the way back up.
   */
  function RemoveMax<K(!new), D>(t: Tree<K, D>, lt: (K, K) -> bool): (p: (Tree<K, D>, Tree<K, D>))
    requires StrictTotalOrder(lt) && t.Node? && Valid(t, lt)
    ensures p.0 == Rightmost(t) && Valid(p.1, lt) && Shrunk(p.1, Height(t))
    ensures Elements(t) == Elements(p.1) + [(p.0.key, p.0.data)] && Size(p.1) + 1 == Size(t)
    ensures Keys(p.1) == Keys(t) - {p.0.key} && p.0.key in Keys(t)
    ensures forall x :: x in Keys(p.1) ==> lt(x, p.0.key)
    decreases t
  {
    if t.right.Leaf? then
      (t, t.left)
    else
      var (m, r) := RemoveMax(t.right, lt);
      RemovedMaxRight(t, m, r, lt);
      (m, Fix(Mk(t.left, t.key, t.data, r)))
  }

  lemma RemovedMaxRight<K(!new), D>(t: Tree<K, D>, m: Tree<K, D>, r: Tree<K, D>, lt: (K, K) -> bool)
    requires StrictTotalOrder(lt) && t.Node? && t.right.Node? && Valid(t, lt)
    requires m == Rightmost(t.right) && Valid(r, lt) && Shrunk(r, Height(t.right))
    requires Elements(t.right) == Elements(r) + [(m.key, m.data)] && Size(r) + 1 == Size(t.right)
    requires Keys(r) == Keys(t.right) - {m.key} && m.key in Keys(t.right)
    requires forall x :: x in Keys(r) ==> lt(x, m.key)
    ensures var u := Fix(Mk(t.left, t.key, t.data, r));
      m == Rightmost(t) && Valid(u, lt) && Shrunk(u, Height(t))
      && Elements(t) == Elements(u) + [(m.key, m.data)] && Size(u) + 1 == Size(t)
      && Keys(u) == Keys(t) - {m.key} && m.key in Keys(t)
      && (forall x :: x in Keys(u) ==> lt(x, m.key))
  {
    ShrankRight(t, r, t.key, t.data, lt);
    assert lt(t.key, m.key);
    forall x | x in Keys(t.left) ensures lt(x, m.key) {
      assert lt(x, t.key);
    }
    Asymmetric(lt, t.key, m.key);
  }

  /**
   * The deletion of the node itself (DeleteNode) as evidently intended: with
   * a left child the maximum of the left subtree takes the node's place and
   * the left spine is rebalanced (see RemoveMax); with only a right child
   * that child takes its place; a leaf leaves the null pointer.
   */
  function DeleteNode<K(!new), D>(t: Tree<K, D>, lt: (K, K) -> bool): (r: Tree<K, D>)
    requires StrictTotalOrder(lt) && t.Node? && Valid(t, lt)
    ensures Removed(t, r, t.key, lt)
  {
    ElementsWithoutRoot(t, lt);
    KeysWithoutRoot(t, lt);
    if t.left.Node? then
      var (m, l) := RemoveMax(t.left, lt);
      DeletedWithPredecessor(t, m, l, lt);
      Rebalance(Mk(l, m.key, m.data, t.right))
    else if t.right.Node? then
      RebalanceValid(t.right, lt);
      Rebalance(t.right)
    else
      Leaf
  }

  lemma KeysWithoutRoot<K(!new), D>(t: Tree<K, D>, lt: (K, K) -> bool)
    requires StrictTotalOrder(lt) && t.Node? && Bst(t, lt)
    ensures Keys(t) - {t.key} == Keys(t.left) + Keys(t.right)
  {
    forall x | x in Keys(t.left) + Keys(t.right) ensures x != t.key {
      assert lt(x, t.key) || lt(t.key, x);
    }
  }

  lemma DeletedWithPredecessor<K(!new), D>(t: Tree<K, D>, m: Tree<K, D>, l: Tree<K, D>, lt: (K, K) -> bool)
    requires StrictTotalOrder(lt) && t.Node? && t.left.Node? && Valid(t, lt)
    requires m.Node? && Valid(l, lt) && Shrunk(l, Height(t.left))
    requires Elements(t.left) == Elements(l) + [(m.key, m.data)] && Size(l) + 1 == Size(t.left)
    requires Keys(l) == Keys(t.left) - {m.key} && m.key in Keys(t.left)
    requires forall x :: x in Keys(l) ==> lt(x, m.key)
    ensures var u := Fix(Mk(l, m.key, m.data, t.right));
      Valid(u, lt) && Shrunk(u, Height(t)) && Size(u) + 1 == Size(t)
      && Elements(u) == Elements(t.left) + Elements(t.right)
      && Keys(u) == Keys(t.left) + Keys(t.right)
  {
    assert lt(m.key, t.key);
    forall x | x in Keys(t.right) ensures lt(m.key, x) {
      assert lt(t.key, x);
    }
    ShrankLeft(t, l, m.key, m.data, lt);
    PredecessorJoin(t, m, l);
  }

  /** The predecessor's pair between what is left of the left subtree and the right one. */
  lemma PredecessorJoin<K, D>(t: Tree<K, D>, m: Tree<K, D>, l: Tree<K, D>)
    requires t.Node? && m.Node?
    requires Elements(t.left) == Elements(l) + [(m.key, m.data)]
    requires Keys(l) == Keys(t.left) - {m.key} && m.key in Keys(t.left)
    ensures Elements(Mk(l, m.key, m.data, t.right)) == Elements(t.left) + Elements(t.right)
    ensures Keys(Mk(l, m.key, m.data, t.right)) == Keys(t.left) + Keys(t.right)
  {
  }

  /**
   * RankTreeNode::Remove(key): search down, going right when the node's key
   * is smaller and left when it is greater; a missing child on that side
   * means the key is absent and the node is returned as it is. The node
   * holding the key is deleted (DeleteNode); every node passed on the way
   * rebalances.
   */
  function NodeRemove<K(!new), D>(t: Tree<K, D>, k: K, lt: (K, K) -> bool): (r: Tree<K, D>)
    requires StrictTotalOrder(lt) && t.Node? && Valid(t, lt)
    ensures Removed(t, r, k, lt)
    decreases t
  {
    if lt(t.key, k) then
      if t.right.Leaf? then
        AbsentAbove(t, k, lt);
        t
      else
        var c := NodeRemove(t.right, k, lt);
        RemovedRight(t, c, k, lt);
        Rebalance(t.(right := c))
    else if lt(k, t.key) then
      if t.left.Leaf? then
        AbsentBelow(t, k, lt);
        t
      else
        var c := NodeRemove(t.left, k, lt);
        RemovedLeft(t, c, k, lt);
        Rebalance(t.(left := c))
    else
      assert k == t.key;
      DeleteNode(t, lt)
  }

  lemma AbsentAbove<K(!new), D>(t: Tree<K, D>, k: K, lt: (K, K) -> bool)
    requires StrictTotalOrder(lt) && t.Node? && Valid(t, lt) && lt(t.key, k) && t.right.Leaf?
    ensures Removed(t, t, k, lt)
  {
    KeysAbove(t, k, lt);
    RemoveAbsentKey(t, k);
  }

  lemma AbsentBelow<K(!new), D>(t: Tree<K, D>, k: K, lt: (K, K) -> bool)
    requires StrictTotalOrder(lt) && t.Node? && Valid(t, lt) && lt(k, t.key) && t.left.Leaf?
    ensures Removed(t, t, k, lt)
  {
    KeysBelow(t, k, lt);
    RemoveAbsentKey(t, k);
  }

  /** One level of Remove on the right: the contract carries up through Rebalance. */
  lemma RemovedRight<K(!new), D>(t: Tree<K, D>, c: Tree<K, D>, k: K, lt: (K, K) -> bool)
    requires StrictTotalOrder(lt) && t.Node? && Valid(t, lt) && lt(t.key, k)
    requires Removed(t.right, c, k, lt)
    ensures HeightsOk(c) && Removed(t, Rebalance(t.(right := c)), k, lt)
  {
    if k !in Keys(t) {
      KeysAbove(t, k, lt);
      RebalanceValid(t, lt);
      RemoveAbsentKey(t, k);
    } else {
      PresentRight(t, c, k, lt);
    }
  }

  /** RemovedRight when the key is present: the pairs lose exactly its pair. */
  lemma PresentRight<K(!new), D>(t: Tree<K, D>, c: Tree<K, D>, k: K, lt: (K, K) -> bool)
    requires StrictTotalOrder(lt) && t.Node? && Valid(t, lt) && lt(t.key, k) && k in Keys(t)
    requires Removed(t.right, c, k, lt)
    ensures HeightsOk(c) && Removed(t, Rebalance(t.(right := c)), k, lt)
  {
    KeysAbove(t, k, lt);
    Asymmetric(lt, k, t.key);
    ShrankRight(t, c, t.key, t.data, lt);
    assert Refresh(t.(right := c)) == Mk(t.left, t.key, t.data, c);
    JoinedRight(t, c, k);
  }

  /** The pairs and keys of a node whose right subtree lost `k`, which sits nowhere else. */
  lemma JoinedRight<K, D>(t: Tree<K, D>, c: Tree<K, D>, k: K)
    requires t.Node? && k != t.key && k !in Keys(t.left)
    requires Keys(c) == Keys(t.right) - {k} && Elements(c) == RemoveKey(Elements(t.right), k)
    ensures Elements(Mk(t.left, t.key, t.data, c)) == RemoveKey(Elements(t), k)
    ensures Keys(Mk(t.left, t.key, t.data, c)) == Keys(t) - {k}
  {
    KeyNotInElements(t.left, k);
    RemoveKeyRight(Elements(t.left), (t.key, t.data), Elements(t.right), k);
  }

  /** One level of Remove on the left: the contract carries up through Rebalance. */
  lemma RemovedLeft<K(!new), D>(t: Tree<K, D>, c: Tree<K, D>, k: K, lt: (K, K) -> bool)
    requires StrictTotalOrder(lt) && t.Node? && Valid(t, lt) && lt(k, t.key)
    requires Removed(t.left, c, k, lt)
    ensures HeightsOk(c) && Removed(t, Rebalance(t.(left := c)), k, lt)
  {
    if k !in Keys(t) {
      KeysBelow(t, k, lt);
      RebalanceValid(t, lt);
      RemoveAbsentKey(t, k);
    } else {
      PresentLeft(t, c, k, lt);
    }
  }

  /** RemovedLeft when the key is present: the pairs lose exactly its pair. */
  lemma PresentLeft<K(!new), D>(t: Tree<K, D>, c: Tree<K, D>, k: K, lt: (K, K) -> bool)
    requires StrictTotalOrder(lt) && t.Node? && Valid(t, lt) && lt(k, t.key) && k in Keys(t)
    requires Removed(t.left, c, k, lt)
    ensures HeightsOk(c) && Removed(t, Rebalance(t.(left := c)), k, lt)
  {
    KeysBelow(t, k, lt);
    Asymmetric(lt, k, t.key);
    ShrankLeft(t, c, t.key, t.data, lt);
    assert Refresh(t.(left := c)) == Mk(c, t.key, t.data, t.right);
    JoinedLeft(t, c, k);
  }

  /** The pairs and keys of a node whose left subtree lost `k`, which sits nowhere else. */
  lemma JoinedLeft<K, D>(t: Tree<K, D>, c: Tree<K, D>, k: K)
    requires t.Node? && k != t.key && k !in Keys(t.right)
    requires Keys(c) == Keys(t.left) - {k} && Elements(c) == RemoveKey(Elements(t.left), k)
    ensures Elements(Mk(c, t.key, t.data, t.right)) == RemoveKey(Elements(t), k)
    ensures Keys(Mk(c, t.key, t.data, t.right)) == Keys(t) - {k}
  {
    KeyNotInElements(t.right, k);
    RemoveKeyLeft(Elements(t.left), (t.key, t.data), Elements(t.right), k);
  }

  /*
   * ---------------------------------------------------------------------
   * Deletion as written
   * ---------------------------------------------------------------------
   */

  /**
   * findMax as written: the maximum gets rank - 1 and height 0, and every
   * node above it on the right spine recomputes its rank and then its
   * height from its children's cached values. Only caches change.
   */
  function FindMaxMarked<K, D>(t: Tree<K, D>): (u: Tree<K, D>)
    requires t.Node?
    ensures u.Node? && (u.right.Node? <==> t.right.Node?) && Elements(u) == Elements(t)
  {
    if t.right.Leaf? then t.(rank := t.rank - 1, height := 0)
    else Mk(t.left, t.key, t.data, FindMaxMarked(t.right))
  }

  /**
   * The unlinking step of DeleteAndReplaceNodeWithLeftSuccessor when the
   * left child has a right child: the maximum's parent takes the maximum's
   * left child as its right child and is refreshed only when that child
   * exists. No other node is touched.
   */
  function SpliceMarked<K, D>(u: Tree<K, D>): (v: Tree<K, D>)
    requires u.Node? && u.right.Node?
    ensures Elements(u) == Elements(v) + [(Rightmost(u).key, Rightmost(u).data)]
  {
    if u.right.right.Leaf? then
      var m := u.right;
      assert Elements(m) == Elements(m.left) + [(m.key, m.data)];
      if m.left.Node? then Mk(u.left, u.key, u.data, m.left) else u.(right := Leaf)
    else
      u.(right := SpliceMarked(u.right))
  }

  /**
   * The reference for what the marking achieves: the maximum unlinked and
   * the right spine's caches recomputed from the bottom up, with no rotation.
   */
  function RemoveMaxPlain<K, D>(t: Tree<K, D>): (r: Tree<K, D>)
    requires t.Node? && CachesOk(t)
    ensures CachesOk(r)
    ensures Elements(t) == Elements(r) + [(Rightmost(t).key, Rightmost(t).data)]
    ensures Keys(r) + {Rightmost(t).key} == Keys(t)
  {
    if t.right.Leaf? then
      t.left
    else
      MkMeasures(t.left, t.key, t.data, RemoveMaxPlain(t.right));
      Mk(t.left, t.key, t.data, RemoveMaxPlain(t.right))
  }

  /** Unlinking the maximum keeps the search order, and the maximum lies above every key left. */
  lemma {:induction false} RemoveMaxPlainBst<K(!new), D>(t: Tree<K, D>, lt: (K, K) -> bool)
    requires Transitive(lt) && t.Node? && CachesOk(t) && Bst(t, lt)
    ensures Bst(RemoveMaxPlain(t), lt)
    ensures forall x :: x in Keys(RemoveMaxPlain(t)) ==> lt(x, Rightmost(t).key)
  {
    if t.right.Node? {
      RemoveMaxPlainBst(t.right, lt);
      var m := Rightmost(t);
      SubtreeElement(m, t.right);
      assert lt(t.key, m.key);
      forall x | x in Keys(t.left) ensures lt(x, m.key) {
        assert lt(x, t.key);
      }
    }
  }

  /**
   * On a balanced tree the marked maximum's height 0 is harmless: the spine
   * node above the maximum ends with the height and rank it has once the
   * maximum is unlinked, because its left subtree is at least as tall as the
   * maximum's left child.
   */
  lemma {:induction false} MarkedCaches<K, D>(t: Tree<K, D>)
    requires t.Node? && t.right.Node? && Balanced(t) && CachesOk(t)
    ensures H(FindMaxMarked(t)) == H(RemoveMaxPlain(t)) && R(FindMaxMarked(t)) == R(RemoveMaxPlain(t))
  {
    if t.right.right.Leaf? {
      var m := t.right;
      assert HeightsOk(m) && RanksOk(m);
      CachedHeight(t.left);
      CachedHeight(m.left);
      assert Height(t.left) >= Height(m.left);
    } else {
      MarkedCaches(t.right);
    }
  }

  /** On a balanced tree findMax followed by the unlinking step is exactly RemoveMaxPlain. */
  lemma {:induction false} MarkedSpliceIsPlain<K, D>(t: Tree<K, D>)
    requires t.Node? && t.right.Node? && Balanced(t) && CachesOk(t)
    ensures SpliceMarked(FindMaxMarked(t)) == RemoveMaxPlain(t)
  {
    if t.right.right.Leaf? {
      if t.right.left.Leaf? {
        assert RanksOk(t.right);
      }
    } else {
      MarkedSpliceIsPlain(t.right);
      MarkedCaches(t.right);
    }
  }

  /** The left child as DeleteAndReplaceNodeWithLeftSuccessor leaves it, before the maximum moves up. */
  function LeftAfterUnlink<K, D>(t: Tree<K, D>): (l: Tree<K, D>)
    requires t.Node? && t.left.Node?
  {
    if t.left.right.Leaf? then t.left.left else SpliceMarked(FindMaxMarked(t.left))
  }

  /**
   * DeleteNode as written. With a left child, the maximum `m` of the left
   * subtree is marked and unlinked by findMax and the splice, then takes the
   * node's place with the node's right subtree and rebalances; nothing on
   * the left spine is rebalanced. With only a right child, that child
   * rebalances and takes the node's place; a leaf leaves the null pointer.
   */
  function DeleteNodeAsWritten<K(!new), D>(t: Tree<K, D>, lt: (K, K) -> bool): (r: Tree<K, D>)
    requires StrictTotalOrder(lt) && t.Node? && Valid(t, lt)
    ensures RemovedAsWritten(t, r, t.key, lt)
  {
    ElementsWithoutRoot(t, lt);
    KeysWithoutRoot(t, lt);
    if t.left.Node? then
      var m := Rightmost(t.left);
      var l := LeftAfterUnlink(t);
      DeletedAsWritten(t, lt);
      Rebalance(m.(left := l, right := t.right))
    else if t.right.Node? then
      RebalanceValid(t.right, lt);
      Rebalance(t.right)
    else
      Leaf
  }

  /**
   * What the as-written removal keeps: consistent caches, search order, the
   * key set and the in-order pairs. Balance is not among them.
   */
  ghost predicate RemovedAsWritten<K(!new), D>(t: Tree<K, D>, u: Tree<K, D>, k: K, lt: (K, K) -> bool) {
    CachesOk(u) && Bst(u, lt) && Keys(u) == Keys(t) - {k} && Elements(u) == RemoveKey(Elements(t), k)
  }

  lemma DeletedAsWritten<K(!new), D>(t: Tree<K, D>, lt: (K, K) -> bool)
    requires StrictTotalOrder(lt) && t.Node? && t.left.Node? && Valid(t, lt)
    ensures LeftAfterUnlink(t) == RemoveMaxPlain(t.left) && HeightsOk(LeftAfterUnlink(t))
    ensures var m := Rightmost(t.left);
      var u := Rebalance(m.(left := LeftAfterUnlink(t), right := t.right));
      CachesOk(u) && Bst(u, lt) && Elements(u) == Elements(t.left) + Elements(t.right)
      && Keys(u) == Keys(t.left) + Keys(t.right)
  {
    var m := Rightmost(t.left);
    if t.left.right.Node? {
      MarkedSpliceIsPlain(t.left);
    }
    var l := RemoveMaxPlain(t.left);
    RemoveMaxPlainBst(t.left, lt);
    SubtreeElement(m, t.left);
    assert lt(m.key, t.key);
    forall x | x in Keys(t.right) ensures lt(m.key, x) {
      assert lt(t.key, x);
    }
    var n := Mk(l, m.key, m.data, t.right);
    assert Refresh(m.(left := l, right := t.right)) == n;
    MkMeasures(l, m.key, m.data, t.right);
    FixCaches(n);
    FixBst(n, lt);
  }

  /** RankTreeNode::Remove(key) as written: the same search, deleting with DeleteNodeAsWritten. */
  function NodeRemoveAsWritten<K(!new), D>(t: Tree<K, D>, k: K, lt: (K, K) -> bool): (r: Tree<K, D>)
    requires StrictTotalOrder(lt) && t.Node? && Valid(t, lt)
    ensures RemovedAsWritten(t, r, k, lt)
    decreases t
  {
    if lt(t.key, k) then
      if t.right.Leaf? then
        AbsentAbove(t, k, lt);
        t
      else
        var c := NodeRemoveAsWritten(t.right, k, lt);
        RemovedRightAsWritten(t, c, k, lt);
        Rebalance(t.(right := c))
    else if lt(k, t.key) then
      if t.left.Leaf? then
        AbsentBelow(t, k, lt);
        t
      else
        var c := NodeRemoveAsWritten(t.left, k, lt);
        RemovedLeftAsWritten(t, c, k, lt);
        Rebalance(t.(left := c))
    else
      assert k == t.key;
      DeleteNodeAsWritten(t, lt)
  }

  lemma RemovedRightAsWritten<K(!new), D>(t: Tree<K, D>, c: Tree<K, D>, k: K, lt: (K, K) -> bool)
    requires StrictTotalOrder(lt) && t.Node? && Valid(t, lt) && lt(t.key, k)
    requires RemovedAsWritten(t.right, c, k, lt)
    ensures HeightsOk(c) && RemovedAsWritten(t, Rebalance(t.(right := c)), k, lt)
  {
    KeysAbove(t, k, lt);
    Asymmetric(lt, k, t.key);
    var n := Mk(t.left, t.key, t.data, c);
    assert Refresh(t.(right := c)) == n;
    MkMeasures(t.left, t.key, t.data, c);
    FixCaches(n);
    FixBst(n, lt);
    KeyNotInElements(t.left, k);
    RemoveKeyRight(Elements(t.left), (t.key, t.data), Elements(t.right), k);
  }

  lemma RemovedLeftAsWritten<K(!new), D>(t: Tree<K, D>, c: Tree<K, D>, k: K, lt: (K, K) -> bool)
    requires StrictTotalOrder(lt) && t.Node? && Valid(t, lt) && lt(k, t.key)
    requires RemovedAsWritten(t.left, c, k, lt)
    ensures HeightsOk(c) && RemovedAsWritten(t, Rebalance(t.(left := c)), k, lt)
  {
    KeysBelow(t, k, lt);
    Asymmetric(lt, k, t.key);
    var n := Mk(c, t.key, t.data, t.right);
    assert Refresh(t.(left := c)) == n;
    MkMeasures(c, t.key, t.data, t.right);
    FixCaches(n);
    FixBst(n, lt);
    KeyNotInElements(t.right, k);
    RemoveKeyLeft(Elements(t.left), (t.key, t.data), Elements(t.right), k);
  }

  /** A single node with consistent caches. */
  function Tip(k: int): Tree<int, int> {
    Node(Leaf, k, 0, 1, 1, Leaf)
  }

  /** The subtree 3(2, 4) of the example below, on keys a < b < c. */
  function Three(a: int, b: int, c: int): Tree<int, int> {
    Node(Tip(a), b, 0, 2, 3, Tip(c))
  }

  /** The tree 10(5(3(2, 4), 7), 12(11, 13)), with the nine keys in increasing order. */
  function NineNodes(k2: int, k3: int, k4: int, k5: int, k7: int, k10: int, k11: int, k12: int, k13: int): Tree<int, int> {
    Node(Node(Three(k2, k3, k4), k5, 0, 3, 5, Tip(k7)), k10, 0, 4, 9, Three(k11, k12, k13))
  }

  lemma TipValid(k: int)
    ensures Valid(Tip(k), IntLess) && Keys(Tip(k)) == {k} && Height(Tip(k)) == 1 && H(Tip(k)) == 1 && R(Tip(k)) == 1
  {
    assert Tip(k).left == Tip(k).right == Leaf;
  }

  lemma ThreeValid(a: int, b: int, c: int)
    requires a < b < c
    ensures Valid(Three(a, b, c), IntLess) && Keys(Three(a, b, c)) == {a, b, c}
    ensures Height(Three(a, b, c)) == 2 && H(Three(a, b, c)) == 2 && R(Three(a, b, c)) == 3
  {
    TipValid(a);
    TipValid(c);
  }

  lemma FiveValid(k2: int, k3: int, k4: int, k5: int, k7: int)
    requires k2 < k3 < k4 < k5 < k7
    ensures var l := Node(Three(k2, k3, k4), k5, 0, 3, 5, Tip(k7));
      Valid(l, IntLess) && Keys(l) == {k2, k3, k4, k5, k7} && Height(l) == 3 && H(l) == 3 && R(l) == 5
  {
    ThreeValid(k2, k3, k4);
    var l := Node(Three(k2, k3, k4), k5, 0, 3, 5, Tip(k7));
    TipValid(k7);
    assert CachesOk(l);
    assert Balanced(l);
    assert Bst(l, IntLess);
  }

  lemma NineNodesValid(k2: int, k3: int, k4: int, k5: int, k7: int, k10: int, k11: int, k12: int, k13: int)
    requires k2 < k3 < k4 < k5 < k7 < k10 < k11 < k12 < k13
    ensures Valid(NineNodes(k2, k3, k4, k5, k7, k10, k11, k12, k13), IntLess)
  {
    FiveValid(k2, k3, k4, k5, k7);
    ThreeValid(k11, k12, k13);
  }

  /**
   * Deleting the root 10 from 10(5(3(2, 4), 7), 12(11, 13)) as written moves
   * 7 to the root and leaves 5(3(2, 4), -) under it: a node with balance
   * factor 2 that nothing rebalances. The corrected removal ends balanced.
   */
  lemma PredecessorDeleteUnbalances(k2: int, k3: int, k4: int, k5: int, k7: int, k10: int, k11: int, k12: int, k13: int)
    requires k2 < k3 < k4 < k5 < k7 < k10 < k11 < k12 < k13
    ensures StrictTotalOrder(IntLess) && Valid(NineNodes(k2, k3, k4, k5, k7, k10, k11, k12, k13), IntLess)
    ensures var r := NodeRemoveAsWritten(NineNodes(k2, k3, k4, k5, k7, k10, k11, k12, k13), k10, IntLess);
      r.Node? && r.key == k7 && r.left == Mk(Three(k2, k3, k4), k5, 0, Leaf) && !Balanced(r)
    ensures Balanced(NodeRemove(NineNodes(k2, k3, k4, k5, k7, k10, k11, k12, k13), k10, IntLess))
  {
    IntLessIsStrictTotalOrder();
    NineNodesValid(k2, k3, k4, k5, k7, k10, k11, k12, k13);
    var t := NineNodes(k2, k3, k4, k5, k7, k10, k11, k12, k13);
    DeletedAsWritten(t, IntLess);
    var l := Mk(Three(k2, k3, k4), k5, 0, Leaf);
    assert RemoveMaxPlain(t.left) == l;
    assert Height(Tip(k2)) == 1 && Height(Tip(k4)) == 1;
    assert Height(Three(k2, k3, k4)) == 2;
    assert !Balanced(l);
  }

  /*
   * ---------------------------------------------------------------------
   * The tree: operations on the root pointer
   * ---------------------------------------------------------------------
   */

  /**
   * RankTree::Insert as intended: an empty tree gets a single node (height
   * 1, rank 1); a key already present, at the root or below, changes nothing.
   */
  function TreeInsert<K(!new), D>(root: Tree<K, D>, k: K, d: D, lt: (K, K) -> bool): (r: Tree<K, D>)
    requires StrictTotalOrder(lt) && Valid(root, lt)
    ensures Inserted(root, r, k, d, lt)
  {
    var r := if root.Leaf? then Mk(Leaf, k, d, Leaf) else ChildAfter(root, NodeInsert(root, k, d, lt));
    ChildInserted(root, r, k, d, lt);
    r
  }

  /**
   * RankTree::Insert as written: the root becomes whatever the root's Insert
   * returns, and that is the null pointer when `k` is the root's own key, so
   * inserting the root's key again empties the tree. Otherwise it agrees
   * with TreeInsert.
   */
  function TreeInsertAsWritten<K(!new), D>(root: Tree<K, D>, k: K, d: D, lt: (K, K) -> bool): (r: Tree<K, D>)
    requires StrictTotalOrder(lt) && Valid(root, lt)
    ensures r.Leaf? <==> root.Node? && k == root.key
    ensures r.Node? ==> r == TreeInsert(root, k, d, lt)
  {
    if root.Leaf? then
      Mk(Leaf, k, d, Leaf)
    else
      match NodeInsert(root, k, d, lt)
      case None => Leaf
      case Some(u) =>
        assert k in Keys(u);
        u
  }

  /**
   * RankTree::InsertGetBack as written: the tree changes as under Insert,
   * but the node's Insert receives `result` by value, so the pointer handed
   * back is the new node only for an empty tree and null otherwise.
   */
  function TreeInsertGetBackAsWritten<K(!new), D>(root: Tree<K, D>, k: K, d: D, lt: (K, K) -> bool): (p: (Tree<K, D>, Tree<K, D>))
    requires StrictTotalOrder(lt) && Valid(root, lt)
    ensures p.0 == TreeInsertAsWritten(root, k, d, lt)
    ensures p.1.Node? <==> root.Leaf?
  {
    if root.Leaf? then
      var n := Mk(Leaf, k, d, Leaf);
      (n, n)
    else
      (TreeInsertAsWritten(root, k, d, lt), Leaf)
  }

  /**
   * InsertGetBack as intended: the tree changes as under TreeInsert and the
   * pointer handed back is the new node, which carries `k` and `d`, or null
   * when the key was already present.
   */
  function TreeInsertGetBack<K(!new), D>(root: Tree<K, D>, k: K, d: D, lt: (K, K) -> bool): (p: (Tree<K, D>, Tree<K, D>))
    requires StrictTotalOrder(lt) && Valid(root, lt)
    ensures p.0 == TreeInsert(root, k, d, lt)
    ensures p.1.Node? <==> k !in Keys(root)
    ensures p.1.Node? ==> IsSubtree(p.1, p.0) && p.1.key == k && p.1.data == d
  {
    var u := TreeInsert(root, k, d, lt);
    FindCorrect(root, k, lt);
    if Find(root, k, lt).Node? then
      (u, Leaf)
    else
      NewNodeFound(root, u, k, d, lt);
      (u, Find(u, k, lt))
  }

  /** After inserting an absent key, searching for it finds the new pair. */
  lemma NewNodeFound<K(!new), D>(root: Tree<K, D>, u: Tree<K, D>, k: K, d: D, lt: (K, K) -> bool)
    requires StrictTotalOrder(lt) && Valid(root, lt) && k !in Keys(root) && Inserted(root, u, k, d, lt)
    ensures Find(u, k, lt).Node? && Find(u, k, lt).key == k && Find(u, k, lt).data == d
  {
    FindCorrect(u, k, lt);
    var n := Find(u, k, lt);
    InsertSortedMultiset(Elements(root), (k, d), lt);
    assert (k, n.data) in multiset(Elements(u));
    if (k, n.data) in Elements(root) {
      ElementsSize(root);
      assert false;
    }
  }

  /** RankTree::Remove: an empty tree stays empty; otherwise the root becomes the root's Remove result. */
  function TreeRemove<K(!new), D>(root: Tree<K, D>, k: K, lt: (K, K) -> bool): (r: Tree<K, D>)
    requires StrictTotalOrder(lt) && Valid(root, lt)
    ensures Removed(root, r, k, lt)
  {
    if root.Leaf? then root else NodeRemove(root, k, lt)
  }

  /** The RankTree wrapper: a root pointer, null for the empty tree. */
  class RankTree<K(!new), D> {
    const lt: (K, K) -> bool
    var root: Tree<K, D>

    ghost predicate Valid()
      reads this
    {
      StrictTotalOrder(lt) && AvlTree.Valid(root, lt)
    }

    constructor(lt: (K, K) -> bool)
      requires StrictTotalOrder(lt)
      ensures Valid() && this.lt == lt && root == Leaf
    {
      this.lt := lt;
      root := Leaf;
    }

    /** Find(key): null for an empty tree, otherwise the root's Find. */
    function Find(k: K): (r: Tree<K, D>)
      reads this
      requires Valid()
      ensures r.Node? <==> k in Keys(root)
      ensures r.Node? ==> r.key == k && (k, r.data) in Elements(root) && IsSubtree(r, root)
    {
      FindCorrect(root, k, lt);
      AvlTree.Find(root, k, lt)
    }

    /** Insert(key, data), with a duplicate of the root's key left alone like any other duplicate. */
    method Insert(k: K, d: D)
      requires Valid()
      modifies this
      ensures Valid() && root == TreeInsert(old(root), k, d, lt) && Inserted(old(root), root, k, d, lt)
    {
      root := TreeInsert(root, k, d, lt);
    }

    /** InsertGetBack(key, data), handing back the new node, or null for a key already present. */
    method InsertGetBack(k: K, d: D) returns (n: Tree<K, D>)
      requires Valid()
      modifies this
      ensures Valid() && (root, n) == TreeInsertGetBack(old(root), k, d, lt)
      ensures Inserted(old(root), root, k, d, lt)
      ensures n.Node? <==> k !in Keys(old(root))
      ensures n.Node? ==> n.key == k && n.data == d && IsSubtree(n, root)
    {
      var p := TreeInsertGetBack(root, k, d, lt);
      root, n := p.0, p.1;
    }

    /** Remove(key): an empty tree stays empty; otherwise the root becomes the root's Remove result. */
    method Remove(k: K)
      requires Valid()
      modifies this
      ensures Valid() && root == TreeRemove(old(root), k, lt) && Removed(old(root), root, k, lt)
    {
      root := TreeRemove(root, k, lt);
    }

    /** FindByRank(r): the r-th largest key; the source dereferences the root, so the tree is not empty. */
    function FindByRank(r: int): (k: K)
      reads this
      requires Valid() && 1 <= r <= R(root)
      ensures R(root) == Size(root) == |Elements(root)| && k == Elements(root)[Size(root) - r].0
    {
      NodeByRankCorrect(root, r);
      NodeByRank(root, r).key
    }

    /** FillArrWithNodesInOrder(array, size, index): the tree's nodes in order at array[0..]. */
    method FillArrWithNodesInOrder(a: array<Tree<K, D>>)
      requires Size(root) <= a.Length
      modifies a
      ensures forall j :: 0 <= j < a.Length ==> a[j] == if j < Size(root) then InOrderNodes(root)[j] else old(a[j])
    {
      if root.Node? {
        var next := FillArrayWithNodes(root, a, 0);
        assert next == Size(root);
      }
    }
  }
}
