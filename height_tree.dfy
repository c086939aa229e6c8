/**
 * The parent-pointer AVL tree of Tree.h: integer keys, a payload per node
 * and a cached height, but no rank. Its node routines work like those of
 * RankTree.h (the recursive calls throw their result away and rely on the
 * parent pointers being relinked), so the model again passes the returned
 * subtree back up as a value. `Embed` reads an `HTree` as an AvlTree node
 * tree whose ranks are the subtree sizes; every property is stated through
 * it, and the corrected operations are shown to agree with RankTree's.
 */
module HeightTree {
  import opened Order
  import opened AvlTree
  import RankTree
  import RankTreeShape

  datatype HTree<D> =
    | HLeaf
    | HNode(left: HTree<D>, key: int, data: D, height: int, right: HTree<D>)

  /** The tree with a rank (= subtree size) computed for every node. */
  function Embed<D>(t: HTree<D>): (e: Tree<int, D>)
    ensures RanksOk(e) && (e.Leaf? <==> t.HLeaf?) && H(e) == HH(t)
  {
    match t
    case HLeaf => Leaf
    case HNode(l, k, d, h, r) => Node(Embed(l), k, d, h, 1 + R(Embed(l)) + R(Embed(r)), Embed(r))
  }

  /** The invariant a Tree.h tree is meant to keep: search order, AVL balance, exact heights. */
  ghost predicate HValid<D>(t: HTree<D>) {
    Valid(Embed(t), IntLess)
  }

  /** Every cached height is at least 1, as every node Tree.h creates or refreshes has. */
  predicate Positive<D>(t: HTree<D>) {
    match t
    case HLeaf => true
    case HNode(l, _, _, h, r) => h >= 1 && Positive(l) && Positive(r)
  }

  /** getLeftChildHeight / getRightChildHeight: a null child counts 0. */
  function HH<D>(t: HTree<D>): int {
    if t.HLeaf? then 0 else t.height
  }

  /** The balance factor read from the children's cached heights. */
  function HBf<D>(t: HTree<D>): int {
    if t.HLeaf? then 0 else HH(t.left) - HH(t.right)
  }

  /** A node whose height is computed from its children (updateNodeHeight). */
  function HMk<D>(l: HTree<D>, k: int, d: D, r: HTree<D>): (m: HTree<D>)
    ensures Positive(l) && Positive(r) ==> Positive(m)
    ensures Elements(Embed(m)) == Elements(Embed(l)) + [(k, d)] + Elements(Embed(r))
    ensures Keys(Embed(m)) == Keys(Embed(l)) + {k} + Keys(Embed(r))
  {
    HNode(l, k, d, 1 + Max(HH(l), HH(r)), r)
  }

  /** updateNodeHeight on the root of `t`. */
  function HRefresh<D>(t: HTree<D>): (r: HTree<D>)
    ensures Elements(Embed(r)) == Elements(Embed(t)) && Keys(Embed(r)) == Keys(Embed(t))
    ensures (r.HNode? <==> t.HNode?) && (t.HNode? ==> r.left == t.left && r.right == t.right)
    ensures Positive(t) ==> Positive(r)
    ensures Bst(Embed(r), IntLess) <==> Bst(Embed(t), IntLess)
  {
    match t
    case HLeaf => HLeaf
    case HNode(l, k, d, _, r) => HMk(l, k, d, r)
  }

  /**
   * LeftRotate: the left child `x` becomes the root, the old root takes
   * x's right subtree as its left child, then x's left child, the old root
   * and x recompute their heights in that order.
   */
  function HLeftRotate<D>(t: HTree<D>): (r: HTree<D>)
    requires t.HNode? && t.left.HNode?
    ensures Elements(Embed(r)) == Elements(Embed(t)) && Keys(Embed(r)) == Keys(Embed(t))
    ensures Positive(t.left) && Positive(t.right) ==> Positive(r)
  {
    var HNode(a, x, dx, _, b) := t.left;
    HMk(HRefresh(a), x, dx, HMk(b, t.key, t.data, t.right))
  }

  /** RightRotate: the mirror image, refreshing the promoted node's right child. */
  function HRightRotate<D>(t: HTree<D>): (r: HTree<D>)
    requires t.HNode? && t.right.HNode?
    ensures Elements(Embed(r)) == Elements(Embed(t)) && Keys(Embed(r)) == Keys(Embed(t))
    ensures Positive(t.left) && Positive(t.right) ==> Positive(r)
  {
    var HNode(b, y, dy, _, c) := t.right;
    HMk(HMk(t.left, t.key, t.data, b), y, dy, HRefresh(c))
  }

  /** LeftRightRotate: RightRotate on the left child, then LeftRotate. */
  function HLeftRightRotate<D>(t: HTree<D>): (r: HTree<D>)
    requires t.HNode? && t.left.HNode? && t.left.right.HNode?
    ensures Elements(Embed(r)) == Elements(Embed(t)) && Keys(Embed(r)) == Keys(Embed(t))
    ensures Positive(t.left) && Positive(t.right) ==> Positive(r)
  {
    HLeftRotate(t.(left := HRightRotate(t.left)))
  }

  /** RightLeftRotate: LeftRotate on the right child, then RightRotate. */
  function HRightLeftRotate<D>(t: HTree<D>): (r: HTree<D>)
    requires t.HNode? && t.right.HNode? && t.right.left.HNode?
    ensures Elements(Embed(r)) == Elements(Embed(t)) && Keys(Embed(r)) == Keys(Embed(t))
    ensures Positive(t.left) && Positive(t.right) ==> Positive(r)
  {
    HRightRotate(t.(right := HLeftRotate(t.right)))
  }

  /**
   * Rebalance: getBalanceFactor refreshes the node's height; a factor below
   * -1 reads the right child's factor (refreshing that child) and rotates
   * twice when it is > 0 and once otherwise; a factor above 1 mirrors this,
   * rotating once when the left child's factor is >= 0.
   */
  function HRebalance<D>(t: HTree<D>): (r: HTree<D>)
    requires t.HNode? && Positive(t.left) && Positive(t.right)
    ensures r.HNode? && Positive(r)
    ensures Elements(Embed(r)) == Elements(Embed(t)) && Keys(Embed(r)) == Keys(Embed(t))
  {
    PositiveChildren(t.left);
    PositiveChildren(t.right);
    var t1 := HRefresh(t);
    if HBf(t1) < -1 then
      var t2 := t1.(right := HRefresh(t1.right));
      if HBf(t2.right) > 0 then HRightLeftRotate(t2) else HRightRotate(t2)
    else if HBf(t1) > 1 then
      var t2 := t1.(left := HRefresh(t1.left));
      if HBf(t2.left) >= 0 then HLeftRotate(t2) else HLeftRightRotate(t2)
    else
      t1
  }

  lemma PositiveChildren<D>(t: HTree<D>)
    requires Positive(t)
    ensures HH(t) >= 0
    ensures t.HNode? ==> HH(t.left) >= 0 && HH(t.right) >= 0
  {
    if t.HNode? {
      assert Positive(t.left) && Positive(t.right);
    }
  }

  lemma HLeftRotateBst<D>(t: HTree<D>)
    requires t.HNode? && t.left.HNode? && Bst(Embed(t), IntLess)
    ensures Bst(Embed(HLeftRotate(t)), IntLess)
  {
    var HNode(a, x, dx, _, b) := t.left;
    var e := Embed(t);
    assert e.left == Embed(t.left) && e.left.key == x && x in Keys(e.left);
    assert IntLess(x, t.key);
    assert forall z :: z in Keys(Embed(t.right)) ==> x < z;
  }

  lemma HRightRotateBst<D>(t: HTree<D>)
    requires t.HNode? && t.right.HNode? && Bst(Embed(t), IntLess)
    ensures Bst(Embed(HRightRotate(t)), IntLess)
  {
    var HNode(b, y, dy, _, c) := t.right;
    var e := Embed(t);
    assert e.right == Embed(t.right) && e.right.key == y && y in Keys(e.right);
    assert IntLess(t.key, y);
    assert forall z :: z in Keys(Embed(t.left)) ==> z < y;
  }

  /** Whatever the cached heights, Rebalance keeps the search order. */
  lemma HRebalanceBst<D>(t: HTree<D>)
    requires t.HNode? && Positive(t.left) && Positive(t.right) && Bst(Embed(t), IntLess)
    ensures Bst(Embed(HRebalance(t)), IntLess)
  {
    PositiveChildren(t.left);
    PositiveChildren(t.right);
    var t1 := HRefresh(t);
    if HBf(t1) < -1 {
      var t2 := t1.(right := HRefresh(t1.right));
      assert Bst(Embed(t2), IntLess);
      RightHeavyBst(t2);
    } else if HBf(t1) > 1 {
      var t2 := t1.(left := HRefresh(t1.left));
      assert Bst(Embed(t2), IntLess);
      LeftHeavyBst(t2);
    }
  }

  lemma RightHeavyBst<D>(t: HTree<D>)
    requires t.HNode? && t.right.HNode? && Bst(Embed(t), IntLess)
    ensures t.right.left.HNode? ==> Bst(Embed(HRightLeftRotate(t)), IntLess)
    ensures Bst(Embed(HRightRotate(t)), IntLess)
  {
    if t.right.left.HNode? {
      HLeftRotateBst(t.right);
      HRightRotateBst(t.(right := HLeftRotate(t.right)));
    }
    HRightRotateBst(t);
  }

  lemma LeftHeavyBst<D>(t: HTree<D>)
    requires t.HNode? && t.left.HNode? && Bst(Embed(t), IntLess)
    ensures t.left.right.HNode? ==> Bst(Embed(HLeftRightRotate(t)), IntLess)
    ensures Bst(Embed(HLeftRotate(t)), IntLess)
  {
    if t.left.right.HNode? {
      HRightRotateBst(t.left);
      HLeftRotateBst(t.(left := HRightRotate(t.left)));
    }
    HLeftRotateBst(t);
  }

  /** Exact heights are positive. */
  lemma {:induction false} ExactPositive<D>(t: HTree<D>)
    requires HeightsOk(Embed(t))
    ensures Positive(t)
  {
    if t.HNode? {
      ExactPositive(t.left);
      ExactPositive(t.right);
    }
  }

  /** Refreshing a node whose height is exact changes nothing. */
  lemma RefreshExact<D>(t: HTree<D>)
    requires HeightsOk(Embed(t))
    ensures HRefresh(t) == t
  {
  }

  /** Refreshing a node is refreshing its embedding. */
  lemma EmbedRefresh<D>(t: HTree<D>)
    ensures Embed(HRefresh(t)) == Refresh(Embed(t))
  {
  }

  lemma EmbedMk<D>(l: HTree<D>, k: int, d: D, r: HTree<D>)
    ensures Embed(HMk(l, k, d, r)) == Mk(Embed(l), k, d, Embed(r))
  {
  }

  lemma EmbedLeftRotate<D>(t: HTree<D>)
    requires t.HNode? && t.left.HNode? && HRefresh(t.left.left) == t.left.left
    ensures Embed(HLeftRotate(t)) == PromoteLeft(Embed(t))
  {
    var HNode(a, x, dx, _, b) := t.left;
    EmbedMk(b, t.key, t.data, t.right);
    EmbedMk(a, x, dx, HMk(b, t.key, t.data, t.right));
  }

  lemma EmbedRightRotate<D>(t: HTree<D>)
    requires t.HNode? && t.right.HNode? && HRefresh(t.right.right) == t.right.right
    ensures Embed(HRightRotate(t)) == PromoteRight(Embed(t))
  {
    var HNode(b, y, dy, _, c) := t.right;
    EmbedMk(t.left, t.key, t.data, b);
    EmbedMk(HMk(t.left, t.key, t.data, b), y, dy, c);
  }

  /**
   * On children with exact heights, Tree.h's Rebalance and RankTree.h's
   * Rebalance do the same thing: the child refreshes are no-ops and the
   * rotations coincide once ranks are read as sizes.
   */
  lemma EmbedRebalance<D>(t: HTree<D>)
    requires t.HNode? && HeightsOk(Embed(t.left)) && HeightsOk(Embed(t.right))
    ensures Positive(t.left) && Positive(t.right)
    ensures Embed(HRebalance(t)) == RankTree.Rebalance(Embed(t))
  {
    ExactPositive(t.left);
    ExactPositive(t.right);
    EmbedRefresh(t);
    RefreshExact(t.left);
    RefreshExact(t.right);
    if HBf(HRefresh(t)) < -1 {
      EmbedRebalanceRightHeavy(t);
    } else if HBf(HRefresh(t)) > 1 {
      EmbedRebalanceLeftHeavy(t);
    }
  }

  lemma EmbedRebalanceRightHeavy<D>(t: HTree<D>)
    requires t.HNode? && HeightsOk(Embed(t.left)) && HeightsOk(Embed(t.right))
    requires Positive(t.left) && Positive(t.right) && HBf(HRefresh(t)) < -1
    ensures Embed(HRebalance(t)) == RankTree.Rebalance(Embed(t))
  {
    var t1 := HRefresh(t);
    var e1 := Refresh(Embed(t));
    EmbedRefresh(t);
    RefreshExact(t.right);
    CachedHeight(Embed(t.left));
    CachedHeight(Embed(t.right));
    var c := t.right;
    RefreshExact(c.right);
    if HBf(c) > 0 {
      RefreshExact(c.left.left);
      EmbedLeftRotate(c);
      var s := t1.(right := HLeftRotate(c));
      EmbedRightRotate(s);
      assert PromoteRight(Embed(s)) == PromoteRight(e1.(right := PromoteLeft(e1.right)));
    } else {
      EmbedRightRotate(t1);
    }
  }

  lemma EmbedRebalanceLeftHeavy<D>(t: HTree<D>)
    requires t.HNode? && HeightsOk(Embed(t.left)) && HeightsOk(Embed(t.right))
    requires Positive(t.left) && Positive(t.right) && HBf(HRefresh(t)) > 1
    ensures Embed(HRebalance(t)) == RankTree.Rebalance(Embed(t))
  {
    var t1 := HRefresh(t);
    var e1 := Refresh(Embed(t));
    EmbedRefresh(t);
    RefreshExact(t.left);
    CachedHeight(Embed(t.left));
    CachedHeight(Embed(t.right));
    var c := t.left;
    RefreshExact(c.left);
    if HBf(c) >= 0 {
      EmbedLeftRotate(t1);
    } else {
      RefreshExact(c.right.right);
      EmbedRightRotate(c);
      var s := t1.(left := HRightRotate(c));
      EmbedLeftRotate(s);
      assert PromoteLeft(Embed(s)) == PromoteLeft(e1.(left := PromoteRight(e1.left)));
    }
  }

  /*
   * ---------------------------------------------------------------------
   * Find and Insert
   * ---------------------------------------------------------------------
   */

  /**
   * TreeNode::Find(searchKey): left while the node's key is greater, right
   * while it is smaller, the node itself on equality, null at a missing child.
   */
  function HFind<D>(t: HTree<D>, k: int): (r: HTree<D>)
    ensures Embed(r) == Find(Embed(t), k, IntLess)
    ensures r.HNode? ==> r.key == k
  {
    match t
    case HLeaf => HLeaf
    case HNode(l, key, _, _, rt) =>
      if key > k then (if l.HLeaf? then HLeaf else HFind(l, k))
      else if key < k then (if rt.HLeaf? then HLeaf else HFind(rt, k))
      else t
  }

  /** In a search tree Find answers the node holding `k`, and null exactly when `k` is absent. */
  lemma HFindCorrect<D>(t: HTree<D>, k: int)
    requires Bst(Embed(t), IntLess)
    ensures var r := HFind(t, k);
      (r.HNode? <==> k in Keys(Embed(t))) && (r.HNode? ==> r.key == k && (k, r.data) in Elements(Embed(t)))
  {
    IntLessIsStrictTotalOrder();
    FindCorrect(Embed(t), k, IntLess);
  }

  /** The child pointer after a recursive Insert: unchanged when the call met the key. */
  function HChildAfter<D>(c: HTree<D>, res: Option<HTree<D>>): HTree<D> {
    match res
    case None => c
    case Some(u) => u
  }

  /** A new node: height 1, no children (the TreeNode constructor). */
  function HSingle<D>(k: int, d: D): HTree<D> {
    HNode(HLeaf, k, d, 1, HLeaf)
  }

  /**
   * TreeNode::Insert(nodeKey, nodeData): a new node goes into the empty
   * child slot on the side of the key, or the call recurses; the node then
   * rebalances and returns the new subtree root. Meeting the key at this
   * node returns null (`None`) and changes nothing. The resulting subtree
   * keeps the contract RankTree.Inserted states for RankTree.h's Insert.
   */
  function HNodeInsert<D>(t: HTree<D>, k: int, d: D): (r: Option<HTree<D>>)
    requires t.HNode? && HValid(t)
    ensures r.None? <==> k == t.key
    ensures r.Some? ==> RankTree.Inserted(Embed(t), Embed(r.value), k, d, IntLess)
    decreases t
  {
    if k > t.key then
      var c := if t.right.HLeaf? then HSingle(k, d) else HChildAfter(t.right, HNodeInsert(t.right, k, d));
      HChildInserted(t.right, c, k, d);
      HInsertedRight(t, c, k, d);
      Some(HRebalance(t.(right := c)))
    else if k < t.key then
      var c := if t.left.HLeaf? then HSingle(k, d) else HChildAfter(t.left, HNodeInsert(t.left, k, d));
      HChildInserted(t.left, c, k, d);
      HInsertedLeft(t, c, k, d);
      Some(HRebalance(t.(left := c)))
    else
      None
  }

  lemma HChildInserted<D>(c0: HTree<D>, c: HTree<D>, k: int, d: D)
    requires HValid(c0)
    requires c0.HLeaf? ==> c == HSingle(k, d)
    requires c0.HNode? && c != c0 ==> RankTree.Inserted(Embed(c0), Embed(c), k, d, IntLess)
    requires c0.HNode? && c == c0 ==> k == c0.key || RankTree.Inserted(Embed(c0), Embed(c), k, d, IntLess)
    ensures RankTree.Inserted(Embed(c0), Embed(c), k, d, IntLess)
  {
    IntLessIsStrictTotalOrder();
    RankTree.ChildInserted(Embed(c0), Embed(c), k, d, IntLess);
  }

  lemma HInsertedRight<D>(t: HTree<D>, c: HTree<D>, k: int, d: D)
    requires t.HNode? && HValid(t) && t.key < k
    requires RankTree.Inserted(Embed(t.right), Embed(c), k, d, IntLess)
    ensures Positive(t.left) && Positive(c)
    ensures RankTree.Inserted(Embed(t), Embed(HRebalance(t.(right := c))), k, d, IntLess)
  {
    IntLessIsStrictTotalOrder();
    RankTree.InsertedRight(Embed(t), Embed(c), k, d, IntLess);
    EmbedRebalance(t.(right := c));
    assert Refresh(Embed(t.(right := c))) == Refresh(Embed(t).(right := Embed(c)));
  }

  lemma HInsertedLeft<D>(t: HTree<D>, c: HTree<D>, k: int, d: D)
    requires t.HNode? && HValid(t) && k < t.key
    requires RankTree.Inserted(Embed(t.left), Embed(c), k, d, IntLess)
    ensures Positive(c) && Positive(t.right)
    ensures RankTree.Inserted(Embed(t), Embed(HRebalance(t.(left := c))), k, d, IntLess)
  {
    IntLessIsStrictTotalOrder();
    RankTree.InsertedLeft(Embed(t), Embed(c), k, d, IntLess);
    EmbedRebalance(t.(left := c));
    assert Refresh(Embed(t.(left := c))) == Refresh(Embed(t).(left := Embed(c)));
  }

  /*
   * ---------------------------------------------------------------------
   * Remove as evidently intended
   * ---------------------------------------------------------------------
   */

  /** findMax: the rightmost node. */
  function HRightmost<D>(t: HTree<D>): (m: HTree<D>)
    requires t.HNode?
    ensures m.HNode? && Embed(m) == Rightmost(Embed(t))
  {
    if t.right.HLeaf? then t else HRightmost(t.right)
  }

  /** What RankTree.RemoveMax promises about the maximum `m` of `t` and the rest `u`. */
  ghost predicate MaxRemoved<D>(t: Tree<int, D>, m: Tree<int, D>, u: Tree<int, D>) {
    t.Node? && m == Rightmost(t) && Valid(u, IntLess) && Shrunk(u, Height(t))
    && Elements(t) == Elements(u) + [(m.key, m.data)] && Size(u) + 1 == Size(t)
    && Keys(u) == Keys(t) - {m.key} && m.key in Keys(t)
    && (forall x :: x in Keys(u) ==> x < m.key)
  }

  /**
   * The predecessor removal the deletion evidently intends: the maximum is
   * unlinked and every node above it on the right spine rebalances (and so
   * refreshes its height) on the way back up.
   */
  function HRemoveMax<D>(t: HTree<D>): (p: (HTree<D>, HTree<D>))
    requires t.HNode? && HValid(t)
    ensures p.0.HNode? && MaxRemoved(Embed(t), Embed(p.0), Embed(p.1))
    decreases t
  {
    if t.right.HLeaf? then
      (t, t.left)
    else
      var (m, r) := HRemoveMax(t.right);
      HRemovedMaxRight(t, m, r);
      (m, HRebalance(t.(right := r)))
  }

  lemma HRemovedMaxRight<D>(t: HTree<D>, m: HTree<D>, r: HTree<D>)
    requires t.HNode? && t.right.HNode? && HValid(t) && MaxRemoved(Embed(t.right), Embed(m), Embed(r))
    ensures Positive(t.left) && Positive(r)
    ensures MaxRemoved(Embed(t), Embed(m), Embed(HRebalance(t.(right := r))))
  {
    IntLessIsStrictTotalOrder();
    RankTree.RemovedMaxRight(Embed(t), Embed(m), Embed(r), IntLess);
    EmbedRebalance(t.(right := r));
    assert Refresh(Embed(t.(right := r))) == Mk(Embed(t.left), t.key, t.data, Embed(r));
  }

  /**
   * DeleteNode as evidently intended: with a left child the maximum of the
   * left subtree takes the node's place (see HRemoveMax) and rebalances;
   * with only a right child that child takes its place; a leaf leaves null.
   */
  function HDeleteNode<D>(t: HTree<D>): (r: HTree<D>)
    requires t.HNode? && HValid(t)
    ensures RankTree.Removed(Embed(t), Embed(r), t.key, IntLess)
  {
    if t.left.HNode? then
      var (m, l) := HRemoveMax(t.left);
      HDeletedWithPredecessor(t, m, l);
      HRebalance(HNode(l, m.key, m.data, m.height, t.right))
    else if t.right.HNode? then
      HDeletedOnlyRight(t);
      HRebalance(t.right)
    else
      HDeletedLeaf(t);
      HLeaf
  }

  lemma HDeletedWithPredecessor<D>(t: HTree<D>, m: HTree<D>, l: HTree<D>)
    requires t.HNode? && t.left.HNode? && HValid(t) && MaxRemoved(Embed(t.left), Embed(m), Embed(l))
    ensures Positive(l) && Positive(t.right)
    ensures RankTree.Removed(Embed(t), Embed(HRebalance(HNode(l, m.key, m.data, m.height, t.right))), t.key, IntLess)
  {
    IntLessIsStrictTotalOrder();
    RankTree.ElementsWithoutRoot(Embed(t), IntLess);
    RankTree.KeysWithoutRoot(Embed(t), IntLess);
    var n := HNode(l, m.key, m.data, m.height, t.right);
    RankTree.DeletedWithPredecessor(Embed(t), Embed(m), Embed(l), IntLess);
    EmbedRebalance(n);
    assert Refresh(Embed(n)) == Mk(Embed(l), m.key, m.data, Embed(t.right));
  }

  lemma HDeletedOnlyRight<D>(t: HTree<D>)
    requires t.HNode? && t.left.HLeaf? && t.right.HNode? && HValid(t)
    ensures Positive(t.right.left) && Positive(t.right.right)
    ensures RankTree.Removed(Embed(t), Embed(HRebalance(t.right)), t.key, IntLess)
  {
    IntLessIsStrictTotalOrder();
    RankTree.ElementsWithoutRoot(Embed(t), IntLess);
    RankTree.KeysWithoutRoot(Embed(t), IntLess);
    RankTree.RebalanceValid(Embed(t.right), IntLess);
    EmbedRebalance(t.right);
  }

  lemma HDeletedLeaf<D>(t: HTree<D>)
    requires t.HNode? && t.left.HLeaf? && t.right.HLeaf? && HValid(t)
    ensures RankTree.Removed(Embed(t), Leaf, t.key, IntLess)
  {
    IntLessIsStrictTotalOrder();
    RankTree.ElementsWithoutRoot(Embed(t), IntLess);
  }

  /**
   * TreeNode::Remove(nodeKey): search down; a missing child on the key's
   * side means the key is absent and the node is returned as it is; the
   * node holding the key is deleted; every node passed rebalances.
   */
  function HNodeRemove<D>(t: HTree<D>, k: int): (r: HTree<D>)
    requires t.HNode? && HValid(t)
    ensures RankTree.Removed(Embed(t), Embed(r), k, IntLess)
    decreases t
  {
    IntLessIsStrictTotalOrder();
    if k > t.key then
      if t.right.HLeaf? then
        RankTree.AbsentAbove(Embed(t), k, IntLess);
        t
      else
        var c := HNodeRemove(t.right, k);
        HRemovedRight(t, c, k);
        HRebalance(t.(right := c))
    else if k < t.key then
      if t.left.HLeaf? then
        RankTree.AbsentBelow(Embed(t), k, IntLess);
        t
      else
        var c := HNodeRemove(t.left, k);
        HRemovedLeft(t, c, k);
        HRebalance(t.(left := c))
    else
      HDeleteNode(t)
  }

  lemma HRemovedRight<D>(t: HTree<D>, c: HTree<D>, k: int)
    requires t.HNode? && HValid(t) && t.key < k
    requires RankTree.Removed(Embed(t.right), Embed(c), k, IntLess)
    ensures Positive(t.left) && Positive(c)
    ensures RankTree.Removed(Embed(t), Embed(HRebalance(t.(right := c))), k, IntLess)
  {
    IntLessIsStrictTotalOrder();
    RankTree.RemovedRight(Embed(t), Embed(c), k, IntLess);
    EmbedRebalance(t.(right := c));
    assert Refresh(Embed(t.(right := c))) == Refresh(Embed(t).(right := Embed(c)));
  }

  lemma HRemovedLeft<D>(t: HTree<D>, c: HTree<D>, k: int)
    requires t.HNode? && HValid(t) && k < t.key
    requires RankTree.Removed(Embed(t.left), Embed(c), k, IntLess)
    ensures Positive(c) && Positive(t.right)
    ensures RankTree.Removed(Embed(t), Embed(HRebalance(t.(left := c))), k, IntLess)
  {
    IntLessIsStrictTotalOrder();
    RankTree.RemovedLeft(Embed(t), Embed(c), k, IntLess);
    EmbedRebalance(t.(left := c));
    assert Refresh(Embed(t.(left := c))) == Refresh(Embed(t).(left := Embed(c)));
  }

  /*
   * ---------------------------------------------------------------------
   * Remove as written
   * ---------------------------------------------------------------------
   */

  /**
   * The unlinking step of DeleteAndReplaceNodeWithLeftSuccessor when the
   * left child has a right child: the maximum's parent takes the maximum's
   * left child as its right child. No height is recomputed on the way.
   */
  function HSpliceMax<D>(u: HTree<D>): (v: HTree<D>)
    requires u.HNode? && u.right.HNode?
    ensures v.HNode? && (Positive(u) ==> Positive(v))
    ensures Elements(Embed(u)) == Elements(Embed(v)) + [(HRightmost(u).key, HRightmost(u).data)]
    ensures Keys(Embed(u)) == Keys(Embed(v)) + {HRightmost(u).key}
  {
    if u.right.right.HLeaf? then
      var m := u.right;
      assert HRightmost(u) == m;
      assert Elements(Embed(m)) == Elements(Embed(m.left)) + [(m.key, m.data)];
      assert Keys(Embed(m)) == Keys(Embed(m.left)) + {m.key};
      assert Positive(u) ==> Positive(m) && Positive(m.left);
      u.(right := m.left)
    else
      u.(right := HSpliceMax(u.right))
  }

  /** The splice keeps the search order, and the maximum lies above every remaining key. */
  lemma {:induction false} HSpliceMaxBst<D>(u: HTree<D>)
    requires u.HNode? && u.right.HNode? && Bst(Embed(u), IntLess)
    ensures Bst(Embed(HSpliceMax(u)), IntLess)
    ensures forall x :: x in Keys(Embed(HSpliceMax(u))) ==> x < HRightmost(u).key
  {
    var e := Embed(u);
    var m := HRightmost(u);
    assert m.key in Keys(e.right) by {
      SubtreeElement(Rightmost(e.right), e.right);
    }
    if u.right.right.HNode? {
      HSpliceMaxBst(u.right);
    }
  }

  /**
   * What the as-written Remove still achieves: the key's pair is gone, the
   * other pairs keep their order, the tree is a search tree and no cached
   * height dropped below 1. Nothing is said about heights or balance.
   */
  ghost predicate HRemovedAsWritten<D>(t: HTree<D>, u: HTree<D>, k: int) {
    Positive(u) && Bst(Embed(u), IntLess) && Keys(Embed(u)) == Keys(Embed(t)) - {k}
    && Elements(Embed(u)) == RemoveKey(Elements(Embed(t)), k)
  }

  /**
   * DeleteNode as written: the maximum `m` of the left subtree is spliced
   * out without any height refresh, takes the node's children (keeping its
   * own stale height) and rebalances; only a right child takes the node's
   * place; a leaf leaves null.
   */
  function HDeleteNodeAsWritten<D>(t: HTree<D>): (r: HTree<D>)
    requires t.HNode? && HValid(t)
    ensures HRemovedAsWritten(t, r, t.key)
  {
    if t.left.HNode? then
      var m := HRightmost(t.left);
      var l := if t.left.right.HNode? then HSpliceMax(t.left) else t.left.left;
      LeftSplit(t.left);
      HDeletedAsWritten(t, m, l);
      HRebalance(HNode(l, m.key, m.data, m.height, t.right))
    else if t.right.HNode? then
      HDeletedOnlyRight(t);
      HRebalance(t.right)
    else
      HDeletedLeaf(t);
      HLeaf
  }

  /** The left subtree split into its maximum `m` and the rest `l`, as a search tree. */
  ghost predicate SplitMax<D>(e: Tree<int, D>, l: HTree<D>, m: HTree<D>) {
    m.HNode? && Elements(e) == Elements(Embed(l)) + [(m.key, m.data)] && Keys(e) == Keys(Embed(l)) + {m.key}
    && Bst(Embed(l), IntLess) && (forall x :: x in Keys(Embed(l)) ==> x < m.key) && Positive(l)
  }

  /** What unlinking the maximum of a valid left subtree leaves, in either case of the source. */
  lemma LeftSplit<D>(t: HTree<D>)
    requires t.HNode? && HValid(t)
    ensures SplitMax(Embed(t), if t.right.HNode? then HSpliceMax(t) else t.left, HRightmost(t))
  {
    if t.right.HNode? {
      ExactPositive(t);
      HSpliceMaxBst(t);
    } else {
      ExactPositive(t.left);
      var e := Embed(t);
      assert HRightmost(t) == t;
      assert Elements(e) == Elements(e.left) + [(t.key, t.data)];
      assert Keys(e) == Keys(e.left) + {t.key};
    }
  }

  /** The node that takes the deleted node's place satisfies the as-written contract once rebalanced. */
  lemma HDeletedAsWritten<D>(t: HTree<D>, m: HTree<D>, l: HTree<D>)
    requires t.HNode? && HValid(t) && SplitMax(Embed(t.left), l, m)
    ensures Positive(l) && Positive(t.right)
    ensures HRemovedAsWritten(t, HRebalance(HNode(l, m.key, m.data, m.height, t.right)), t.key)
  {
    IntLessIsStrictTotalOrder();
    ExactPositive(t.right);
    RankTree.ElementsWithoutRoot(Embed(t), IntLess);
    RankTree.KeysWithoutRoot(Embed(t), IntLess);
    var e := Embed(t);
    assert m.key in Keys(e.left);
    assert m.key < t.key;
    var n := HNode(l, m.key, m.data, m.height, t.right);
    assert forall z :: z in Keys(e.right) ==> m.key < z;
    assert Bst(Embed(n), IntLess);
    RebalancedAsWritten(t, n, t.key);
  }

  /** A candidate node that already has the as-written contract keeps it through Rebalance. */
  lemma RebalancedAsWritten<D>(t: HTree<D>, n: HTree<D>, k: int)
    requires n.HNode? && Positive(n.left) && Positive(n.right) && Bst(Embed(n), IntLess)
    requires Keys(Embed(n)) == Keys(Embed(t)) - {k} && Elements(Embed(n)) == RemoveKey(Elements(Embed(t)), k)
    ensures HRemovedAsWritten(t, HRebalance(n), k)
  {
    HRebalanceBst(n);
  }

  /** TreeNode::Remove as written: the search of HNodeRemove over the as-written DeleteNode. */
  function HNodeRemoveAsWritten<D>(t: HTree<D>, k: int): (r: HTree<D>)
    requires t.HNode? && HValid(t)
    ensures HRemovedAsWritten(t, r, k)
    decreases t
  {
    if k > t.key then
      if t.right.HLeaf? then
        HAbsent(t, k);
        t
      else
        var c := HNodeRemoveAsWritten(t.right, k);
        HRemovedRightAsWritten(t, c, k);
        HRebalance(t.(right := c))
    else if k < t.key then
      if t.left.HLeaf? then
        HAbsent(t, k);
        t
      else
        var c := HNodeRemoveAsWritten(t.left, k);
        HRemovedLeftAsWritten(t, c, k);
        HRebalance(t.(left := c))
    else
      HDeleteNodeAsWritten(t)
  }

  /** The search for a key ran off the tree: nothing is removed. */
  lemma HAbsent<D>(t: HTree<D>, k: int)
    requires t.HNode? && HValid(t)
    requires (k > t.key && t.right.HLeaf?) || (k < t.key && t.left.HLeaf?)
    ensures HRemovedAsWritten(t, t, k)
  {
    IntLessIsStrictTotalOrder();
    ExactPositive(t);
    if k > t.key {
      RankTree.AbsentAbove(Embed(t), k, IntLess);
    } else {
      RankTree.AbsentBelow(Embed(t), k, IntLess);
    }
  }

  lemma HRemovedRightAsWritten<D>(t: HTree<D>, c: HTree<D>, k: int)
    requires t.HNode? && HValid(t) && t.key < k && HRemovedAsWritten(t.right, c, k)
    ensures Positive(t.left)
    ensures HRemovedAsWritten(t, HRebalance(t.(right := c)), k)
  {
    IntLessIsStrictTotalOrder();
    ExactPositive(t.left);
    var e := Embed(t);
    KeysAbove(e, k, IntLess);
    KeyNotInElements(e.left, k);
    RemoveKeyRight(Elements(e.left), (t.key, t.data), Elements(e.right), k);
    var n := t.(right := c);
    assert Bst(Embed(n), IntLess);
    RebalancedAsWritten(t, n, k);
  }

  lemma HRemovedLeftAsWritten<D>(t: HTree<D>, c: HTree<D>, k: int)
    requires t.HNode? && HValid(t) && k < t.key && HRemovedAsWritten(t.left, c, k)
    ensures Positive(t.right)
    ensures HRemovedAsWritten(t, HRebalance(t.(left := c)), k)
  {
    IntLessIsStrictTotalOrder();
    ExactPositive(t.right);
    var e := Embed(t);
    KeysBelow(e, k, IntLess);
    KeyNotInElements(e.right, k);
    RemoveKeyLeft(Elements(e.left), (t.key, t.data), Elements(e.right), k);
    var n := t.(left := c);
    assert Bst(Embed(n), IntLess);
    RebalancedAsWritten(t, n, k);
  }

  /** c(a(-, b), d) on keys a < b < c < d: a valid Tree.h tree. */
  function StaleExample(a: int, b: int, c: int, d: int): HTree<int> {
    HNode(HNode(HLeaf, a, 0, 2, HSingle(b, 0)), c, 0, 3, HSingle(d, 0))
  }

  lemma SingleEmbed(k: int)
    ensures Embed(HSingle(k, 0)) == Node(Leaf, k, 0, 1, 1, Leaf)
    ensures Keys(Embed(HSingle(k, 0))) == {k} && Height(Embed(HSingle(k, 0))) == 1
    ensures HValid(HSingle(k, 0))
  {
    var e := Embed(HSingle(k, 0));
    assert e == Node(Leaf, k, 0, 1, 1, Leaf);
    assert e.left == e.right == Leaf && Keys(e.left) == Keys(e.right) == {} && H(e.left) == H(e.right) == 0;
    assert Max(H(e.left), H(e.right)) == 0;
    assert Bst(e, IntLess) && Balanced(e) && HeightsOk(e);
  }

  lemma StaleExampleValid(a: int, b: int, c: int, d: int)
    requires a < b < c < d
    ensures HValid(StaleExample(a, b, c, d))
  {
    SingleEmbed(b);
    SingleEmbed(d);
    var t := StaleExample(a, b, c, d);
    var e := Embed(t);
    assert e.left == Embed(t.left) == Node(Leaf, a, 0, 2, 2, Node(Leaf, b, 0, 1, 1, Leaf));
    assert e.right == Embed(t.right) == Node(Leaf, d, 0, 1, 1, Leaf);
    assert Bst(e.left.right, IntLess) && Bst(e.right, IntLess);
    assert Keys(e.left) == {a, b} && Height(e.left) == 2;
    assert Bst(e.left, IntLess);
    assert Bst(e, IntLess);
    assert HeightsOk(e.left.right) && H(e.left.right) == 1 && Height(e.left.right) == 1;
    assert e.left.left == Leaf && Height(e.left.left) == 0;
    assert Balanced(e.left.left) && Balanced(e.left.right);
    assert -1 <= Height(e.left.left) - Height(e.left.right) <= 1;
    assert Balanced(e.left) && HeightsOk(e.left) && H(e.left) == 2;
    assert Balanced(e.right) && HeightsOk(e.right) && H(e.right) == 1 && Height(e.right) == 1;
    assert Balanced(e) && CachesOk(e);
  }

  /**
   * Removing the root c of c(a(-, b), d) as written moves b to the root and
   * leaves a as a leaf that still caches height 2; the new root's height is
   * computed from that stale value. The corrected removal refreshes a.
   */
  lemma PredecessorDeleteLeavesStaleHeights(a: int, b: int, c: int, d: int)
    requires a < b < c < d
    ensures HValid(StaleExample(a, b, c, d))
    ensures var r := HNodeRemoveAsWritten(StaleExample(a, b, c, d), c);
      r == HNode(HNode(HLeaf, a, 0, 2, HLeaf), b, 0, 3, HSingle(d, 0)) && !HeightsOk(Embed(r))
    ensures HNodeRemove(StaleExample(a, b, c, d), c) == HNode(HSingle(a, 0), b, 0, 2, HSingle(d, 0))
  {
    StaleExampleValid(a, b, c, d);
    var t := StaleExample(a, b, c, d);
    assert HRightmost(t.left) == HSingle(b, 0);
    var l := HNode(HLeaf, a, 0, 2, HLeaf);
    assert HSpliceMax(t.left) == l;
    var n := HNode(l, b, 0, 1, HSingle(d, 0));
    assert HRefresh(n) == HNode(l, b, 0, 3, HSingle(d, 0));
    assert HDeleteNodeAsWritten(t) == HRebalance(n) == HNode(l, b, 0, 3, HSingle(d, 0));
    assert !HeightsOk(Embed(l));
    SingleEmbed(b);
    assert HRemoveMax(t.left.right) == (HSingle(b, 0), HLeaf);
    assert HRemoveMax(t.left) == (HSingle(b, 0), HSingle(a, 0));
    var n' := HNode(HSingle(a, 0), b, 0, 1, HSingle(d, 0));
    assert HRefresh(n') == HNode(HSingle(a, 0), b, 0, 2, HSingle(d, 0));
    assert HDeleteNode(t) == HRebalance(n');
  }

  /*
   * ---------------------------------------------------------------------
   * The tree: operations on the root pointer
   * ---------------------------------------------------------------------
   */

  /**
   * Tree::Insert as intended: an empty tree gets a single node (height 1);
   * a key already present, at the root or below, changes nothing.
   */
  function HTreeInsert<D>(root: HTree<D>, k: int, d: D): (r: HTree<D>)
    requires HValid(root)
    ensures RankTree.Inserted(Embed(root), Embed(r), k, d, IntLess)
  {
    var r := if root.HLeaf? then HSingle(k, d) else HChildAfter(root, HNodeInsert(root, k, d));
    HChildInserted(root, r, k, d);
    r
  }

  /**
   * Tree::Insert as written: the root becomes the root's Insert result,
   * the null pointer when `k` is the root's own key, so inserting the
   * root's key again empties the tree. Otherwise it agrees with HTreeInsert.
   */
  function HTreeInsertAsWritten<D>(root: HTree<D>, k: int, d: D): (r: HTree<D>)
    requires HValid(root)
    ensures r.HLeaf? <==> root.HNode? && k == root.key
    ensures r.HNode? ==> r == HTreeInsert(root, k, d)
  {
    if root.HLeaf? then
      HSingle(k, d)
    else
      match HNodeInsert(root, k, d)
      case None => HLeaf
      case Some(u) =>
        assert k in Keys(Embed(u));
        u
  }

  /**
   * Tree::InsertGetBack as written: the tree changes as under Insert, but
   * the node's Insert receives `result` by value, so the pointer handed back
   * is the new node only for an empty tree and null otherwise.
   */
  function HTreeInsertGetBackAsWritten<D>(root: HTree<D>, k: int, d: D): (p: (HTree<D>, HTree<D>))
    requires HValid(root)
    ensures p.0 == HTreeInsertAsWritten(root, k, d)
    ensures p.1.HNode? <==> root.HLeaf?
  {
    if root.HLeaf? then
      var n := HSingle(k, d);
      (n, n)
    else
      (HTreeInsertAsWritten(root, k, d), HLeaf)
  }

  /**
   * InsertGetBack as intended: the tree changes as under HTreeInsert and the
   * pointer handed back is the new node, holding `k` and `d`, or null when
   * the key was already present.
   */
  function HTreeInsertGetBack<D>(root: HTree<D>, k: int, d: D): (p: (HTree<D>, HTree<D>))
    requires HValid(root)
    ensures p.0 == HTreeInsert(root, k, d)
    ensures p.1.HNode? <==> k !in Keys(Embed(root))
    ensures p.1.HNode? ==> IsSubtree(Embed(p.1), Embed(p.0)) && p.1.key == k && p.1.data == d
  {
    IntLessIsStrictTotalOrder();
    var u := HTreeInsert(root, k, d);
    HFindCorrect(root, k);
    if HFind(root, k).HNode? then
      (u, HLeaf)
    else
      RankTree.NewNodeFound(Embed(root), Embed(u), k, d, IntLess);
      FindCorrect(Embed(u), k, IntLess);
      (u, HFind(u, k))
  }

  /** Tree::Remove: an empty tree stays empty; otherwise the root becomes the root's Remove result. */
  function HTreeRemove<D>(root: HTree<D>, k: int): (r: HTree<D>)
    requires HValid(root)
    ensures RankTree.Removed(Embed(root), Embed(r), k, IntLess)
  {
    if root.HLeaf? then root else HNodeRemove(root, k)
  }

  /*
   * ---------------------------------------------------------------------
   * Tree(numberOfNodes) and the in-order traversals
   * ---------------------------------------------------------------------
   */

  /** A fresh node: key 0, the null payload, height 1. */
  function HFresh<D>(nil: D): HTree<D> {
    HNode(HLeaf, 0, nil, 1, HLeaf)
  }

  /**
   * CreateCompleteBinaryTree(root, treeLevel, currentLevel) on a fresh node:
   * it is RankTree.h's builder without the ranks.
   */
  function HComplete<D>(nil: D, treeLevel: int, currentLevel: int): (t: HTree<D>)
    ensures Embed(t) == RankTreeShape.Complete(nil, treeLevel, currentLevel)
    decreases treeLevel - currentLevel
  {
    if treeLevel <= currentLevel then
      HFresh(nil)
    else
      var l := HComplete(nil, treeLevel, currentLevel + 1);
      var r := HComplete(nil, treeLevel, currentLevel + 1);
      EmbedMk(l, 0, nil, r);
      HMk(l, 0, nil, r)
  }

  /**
   * RemoveExtraNodes(root, numberOfNodesToRemove): the right subtree is
   * pruned first, a node left without children is deleted and counted,
   * otherwise the left subtree is pruned and the node's height refreshed.
   * It prunes exactly what RankTree.h's RemoveExtraNodes prunes.
   */
  function HRemoveExtra<D>(t: HTree<D>, c: int): (p: (HTree<D>, int))
    ensures (Embed(p.0), p.1) == RankTreeShape.RemoveExtra(Embed(t), c)
  {
    if c == 0 || t.HLeaf? then
      (t, c)
    else
      var (r1, c1) := HRemoveExtra(t.right, c);
      if t.left.HLeaf? && r1.HLeaf? then
        (HLeaf, c1 - 1)
      else
        var (l1, c2) := HRemoveExtra(t.left, c1);
        EmbedMk(l1, t.key, t.data, r1);
        (HMk(l1, t.key, t.data, r1), c2)
  }

  /** FillKeysInOrder(root, key): the nodes get the keys k, k + 1, ... in order. */
  function HFillKeys<D>(t: HTree<D>, k: int): (p: (HTree<D>, int))
    ensures (Embed(p.0), p.1) == RankTreeShape.FillKeys(Embed(t), k)
  {
    if t.HLeaf? then
      (t, k)
    else
      var pl := HFillKeys(t.left, k);
      var pr := HFillKeys(t.right, pl.1 + 1);
      EmbedFilledKeys(t, k, pl, pr);
      (t.(left := pl.0, key := pl.1, right := pr.0), pr.1)
  }

  /** One node of HFillKeys, given what the labelling did to its two children. */
  lemma {:induction false} EmbedFilledKeys<D>(t: HTree<D>, k: int, pl: (HTree<D>, int), pr: (HTree<D>, int))
    requires t.HNode?
    requires (Embed(pl.0), pl.1) == RankTreeShape.FillKeys(Embed(t.left), k)
    requires (Embed(pr.0), pr.1) == RankTreeShape.FillKeys(Embed(t.right), pl.1 + 1)
    ensures (Embed(t.(left := pl.0, key := pl.1, right := pr.0)), pr.1) == RankTreeShape.FillKeys(Embed(t), k)
  {
    var e := Embed(t);
    assert e.left == Embed(t.left) && e.right == Embed(t.right);
    FilledKeysNode(e, k, Embed(pl.0), pl.1, Embed(pr.0), pr.1);
    EmbedRelabel(t, pl.0, pl.1, t.data, pr.0);
  }

  /** FillKeys at a node, from its two recursive calls. */
  lemma {:induction false} FilledKeysNode<D>(e: Tree<int, D>, k: int, l: Tree<int, D>, k1: int, r: Tree<int, D>, k2: int)
    requires e.Node?
    requires (l, k1) == RankTreeShape.FillKeys(e.left, k)
    requires (r, k2) == RankTreeShape.FillKeys(e.right, k1 + 1)
    ensures R(l) == R(e.left) && R(r) == R(e.right)
    ensures RankTreeShape.FillKeys(e, k) == (Node(l, k1, e.data, e.height, e.rank, r), k2)
  {
  }

  /**
   * The first two steps of Tree(numberOfNodes), for n >= 1: the complete
   * tree of TreeLevel(n) levels with 2^level - 1 - n nodes pruned.
   */
  function HPruned<D>(n: int, nil: D): (t: HTree<D>)
    requires n >= 1
    ensures Embed(t) == RankTreeShape.Pruned(n, nil)
  {
    var level := RankTreeShape.TreeLevel(n);
    var full := HComplete(nil, level, 1);
    if level != 0 then HRemoveExtra(full, RankTreeShape.Pow2(level) - 1 - n).0 else full
  }

  /**
   * Tree(numberOfNodes), for n >= 1: a valid tree of exactly n nodes whose
   * keys in order are 0, 1, ..., n - 1, every payload the null pointer `nil`.
   */
  function HSizedTree<D>(n: int, nil: D): (t: HTree<D>)
    requires n >= 1
    ensures HValid(t) && |Elements(Embed(t))| == n
    ensures forall i :: 0 <= i < n ==> Elements(Embed(t))[i] == (i, nil)
  {
    var t := HFillKeys(HPruned(n, nil), 0).0;
    assert Embed(t) == RankTreeShape.SizedTree(n, nil);
    t
  }

  /**
   * FillNodesWithArrDataInOrder(array, size, index): every node's payload
   * becomes array[key]; the index comes back one past the nodes visited.
   * The array is read at each key unchecked, so every key must index it.
   */
  function HFillData<D>(t: HTree<D>, a: seq<D>, index: int): (p: (HTree<D>, int))
    requires forall x :: x in Keys(Embed(t)) ==> 0 <= x < |a|
    ensures (Embed(p.0), p.1) == RankTreeShape.FillData(Embed(t), a, index)
  {
    if t.HLeaf? then
      (t, index)
    else
      assert Keys(Embed(t.left)) <= Keys(Embed(t)) && Keys(Embed(t.right)) <= Keys(Embed(t));
      var pl := HFillData(t.left, a, index);
      var pr := HFillData(t.right, a, pl.1 + 1);
      EmbedFilledData(t, a, index, pl, pr);
      (t.(left := pl.0, data := a[t.key], right := pr.0), pr.1)
  }

  /** One node of HFillData, given what the fill did to its two children. */
  lemma {:induction false} EmbedFilledData<D>(t: HTree<D>, a: seq<D>, index: int, pl: (HTree<D>, int), pr: (HTree<D>, int))
    requires t.HNode? && forall x :: x in Keys(Embed(t)) ==> 0 <= x < |a|
    requires Keys(Embed(t.left)) <= Keys(Embed(t)) && Keys(Embed(t.right)) <= Keys(Embed(t))
    requires (Embed(pl.0), pl.1) == RankTreeShape.FillData(Embed(t.left), a, index)
    requires (Embed(pr.0), pr.1) == RankTreeShape.FillData(Embed(t.right), a, pl.1 + 1)
    ensures (Embed(t.(left := pl.0, data := a[t.key], right := pr.0)), pr.1) == RankTreeShape.FillData(Embed(t), a, index)
  {
    var e := Embed(t);
    assert e.left == Embed(t.left) && e.right == Embed(t.right);
    assert Keys(e.left) <= Keys(e) && Keys(e.right) <= Keys(e);
    FilledDataNode(e, a, index, Embed(pl.0), pl.1, Embed(pr.0), pr.1);
    EmbedRelabel(t, pl.0, t.key, a[t.key], pr.0);
  }

  /** FillData at a node, from its two recursive calls. */
  lemma {:induction false} FilledDataNode<D>(e: Tree<int, D>, a: seq<D>, index: int, l: Tree<int, D>, i1: int, r: Tree<int, D>, i2: int)
    requires e.Node? && forall x :: x in Keys(e) ==> 0 <= x < |a|
    requires Keys(e.left) <= Keys(e) && Keys(e.right) <= Keys(e)
    requires (l, i1) == RankTreeShape.FillData(e.left, a, index)
    requires (r, i2) == RankTreeShape.FillData(e.right, a, i1 + 1)
    ensures R(l) == R(e.left) && R(r) == R(e.right)
    ensures RankTreeShape.FillData(e, a, index) == (Node(l, e.key, a[e.key], e.height, e.rank, r), i2)
  {
  }

  /** Children with the same ranks embed to the same node up to those children. */
  lemma {:induction false} EmbedRelabel<D>(t: HTree<D>, l: HTree<D>, k: int, d: D, r: HTree<D>)
    requires t.HNode? && R(Embed(l)) == R(Embed(t.left)) && R(Embed(r)) == R(Embed(t.right))
    ensures Embed(HNode(l, k, d, t.height, r)) == Node(Embed(l), k, d, t.height, R(Embed(t)), Embed(r))
  {
  }

  /** The node pointers of `t` in in-order sequence. */
  function HInOrderNodes<D>(t: HTree<D>): (s: seq<HTree<D>>)
    ensures |s| == Size(Embed(t))
    ensures forall i :: 0 <= i < |s| ==> Embed(s[i]) == RankTreeShape.InOrderNodes(Embed(t))[i]
  {
    if t.HLeaf? then [] else HInOrderNodes(t.left) + [t] + HInOrderNodes(t.right)
  }

  /** `a` is `a0` with `nodes` written from `index` on. */
  ghost predicate Filled<T>(a: seq<T>, a0: seq<T>, index: int, nodes: seq<T>)
  {
    |a| == |a0| && 0 <= index && index + |nodes| <= |a| &&
    forall j :: 0 <= j < |a| ==> a[j] == if index <= j < index + |nodes| then nodes[j - index] else a0[j]
  }

  /** Two fills side by side are one fill of both. */
  lemma FilledConcat<T>(a0: seq<T>, a1: seq<T>, a2: seq<T>, index: int, n1: seq<T>, n2: seq<T>)
    requires Filled(a1, a0, index, n1) && Filled(a2, a1, index + |n1|, n2)
    ensures Filled(a2, a0, index, n1 + n2)
  {
    forall j | 0 <= j < |a2|
      ensures a2[j] == if index <= j < index + |n1 + n2| then (n1 + n2)[j - index] else a0[j]
    {
      if index <= j < index + |n1| {
        assert a1[j] == n1[j - index];
      }
    }
  }

  /**
   * FillArrayWithNodesInOrder(array, size, index): writes the nodes of `t`
   * in order into array[index..] and returns index + Size(t). The bound is
   * not checked, so the array must have room; no other cell changes.
   */
  method HFillArrayWithNodes<D>(t: HTree<D>, a: array<HTree<D>>, index: int) returns (next: int)
    requires t.HNode? && 0 <= index && index + Size(Embed(t)) <= a.Length
    modifies a
    ensures next == index + Size(Embed(t))
    ensures Filled(a[..], old(a[..]), index, HInOrderNodes(t))
    decreases t
  {
    ghost var a0 := a[..];
    next := index;
    if t.left.HNode? {
      next := HFillArrayWithNodes(t.left, a, next);
    }
    ghost var a1 := a[..];
    a[next] := t;
    ghost var a2 := a[..];
    assert Filled(a2, a1, next, [t]);
    FilledConcat(a0, a1, a2, index, HInOrderNodes(t.left), [t]);
    next := next + 1;
    if t.right.HNode? {
      next := HFillArrayWithNodes(t.right, a, next);
    }
    FilledConcat(a0, a2, a[..], index, HInOrderNodes(t.left) + [t], HInOrderNodes(t.right));
  }

  /** The Tree class of Tree.h: a root pointer, null for the empty tree. */
  class HeightTree<D> {
    var root: HTree<D>

    ghost predicate Valid()
      reads this
    {
      HValid(root)
    }

    /** Tree(): the empty tree. */
    constructor()
      ensures Valid() && root == HLeaf
    {
      root := HLeaf;
    }

    /** Tree(numberOfNodes), for n >= 1: keys 0, ..., n - 1 in order, every payload null. */
    constructor Sized(n: int, nil: D)
      requires n >= 1
      ensures Valid() && root == HSizedTree(n, nil)
      ensures |Elements(Embed(root))| == n && forall i :: 0 <= i < n ==> Elements(Embed(root))[i] == (i, nil)
    {
      root := HSizedTree(n, nil);
    }

    /** Find(key): null for an empty tree, otherwise the root's Find. */
    function Find(k: int): (r: HTree<D>)
      reads this
      requires Valid()
      ensures r.HNode? <==> k in Keys(Embed(root))
      ensures r.HNode? ==> r.key == k && (k, r.data) in Elements(Embed(root)) && IsSubtree(Embed(r), Embed(root))
    {
      IntLessIsStrictTotalOrder();
      FindCorrect(Embed(root), k, IntLess);
      HFindCorrect(root, k);
      if root.HLeaf? then HLeaf else HFind(root, k)
    }

    /** Insert(key, data), with a duplicate of the root's key left alone like any other duplicate. */
    method Insert(k: int, d: D)
      requires Valid()
      modifies this
      ensures Valid() && root == HTreeInsert(old(root), k, d)
      ensures RankTree.Inserted(Embed(old(root)), Embed(root), k, d, IntLess)
    {
      root := HTreeInsert(root, k, d);
    }

    /** InsertGetBack(key, data), handing back the new node, or null for a key already present. */
    method InsertGetBack(k: int, d: D) returns (n: HTree<D>)
      requires Valid()
      modifies this
      ensures Valid() && (root, n) == HTreeInsertGetBack(old(root), k, d)
      ensures RankTree.Inserted(Embed(old(root)), Embed(root), k, d, IntLess)
      ensures n.HNode? <==> k !in Keys(Embed(old(root)))
      ensures n.HNode? ==> n.key == k && n.data == d && IsSubtree(Embed(n), Embed(root))
    {
      var p := HTreeInsertGetBack(root, k, d);
      root, n := p.0, p.1;
    }

    /** Remove(key): an empty tree stays empty; otherwise the root becomes the root's Remove result. */
    method Remove(k: int)
      requires Valid()
      modifies this
      ensures Valid() && root == HTreeRemove(old(root), k)
      ensures RankTree.Removed(Embed(old(root)), Embed(root), k, IntLess)
    {
      root := HTreeRemove(root, k);
    }

    /**
     * FillTreeNodesWithArrData(array, size, index): every node's payload
     * becomes array[key]; keys, shape and heights stay. The index argument
     * is overwritten with 0 and `size` is not read, so neither is modelled.
     */
    method FillTreeNodesWithArrData(a: array<D>)
      requires Valid() && forall x :: x in Keys(Embed(root)) ==> 0 <= x < a.Length
      modifies this
      ensures Valid() && Keys(Embed(root)) == Keys(Embed(old(root)))
      ensures |Elements(Embed(root))| == |Elements(Embed(old(root)))|
      ensures forall i :: 0 <= i < |Elements(Embed(old(root)))| ==> 0 <= Elements(Embed(old(root)))[i].0 < a.Length
      ensures forall i :: 0 <= i < |Elements(Embed(root))| ==>
                Elements(Embed(root))[i] == (Elements(Embed(old(root)))[i].0, a[Elements(Embed(old(root)))[i].0])
    {
      if root.HNode? {
        var p := HFillData(root, a[..], 0);
        RankTreeShape.SameShapeMeasures(Embed(root), Embed(p.0));
        root := p.0;
      }
    }

    /** FillArrWithNodesInOrder(array, size, index): the tree's nodes in order at array[0..]. */
    method FillArrWithNodesInOrder(a: array<HTree<D>>)
      requires Size(Embed(root)) <= a.Length
      modifies a
      ensures forall j :: 0 <= j < a.Length ==> a[j] == if j < Size(Embed(root)) then HInOrderNodes(root)[j] else old(a[j])
    {
      var t := root;
      if t.HNode? {
        var next := HFillArrayWithNodes(t, a, 0);
      }
    }
  }
}
