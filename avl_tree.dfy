/**
 * The node type shared by every AVL tree of the repository, with the caches
 * the source keeps in each node (height, and rank = number of nodes in the
 * subtree), the true measures those caches stand for, the four rotations and
 * the AVL rebalancing step. A `Leaf` stands for a null child pointer.
 */
module AvlTree {
  import opened Order

  datatype Tree<K, D> =
    | Leaf
    | Node(left: Tree<K, D>, key: K, data: D, height: int, rank: int, right: Tree<K, D>)

  function Max(a: int, b: int): int {
    if a < b then b else a
  }

  /** Cached height of a child; an absent child counts 0. */
  function H<K, D>(t: Tree<K, D>): int {
    if t.Leaf? then 0 else t.height
  }

  /** Cached rank of a child; an absent child counts 0. */
  function R<K, D>(t: Tree<K, D>): int {
    if t.Leaf? then 0 else t.rank
  }

  /** Balance factor read from the children's cached heights. */
  function Bf<K, D>(t: Tree<K, D>): int {
    if t.Leaf? then 0 else H(t.left) - H(t.right)
  }

  /** The true height: number of nodes on the longest downward path. */
  function Height<K, D>(t: Tree<K, D>): nat {
    match t
    case Leaf => 0
    case Node(l, _, _, _, _, r) => 1 + Max(Height(l), Height(r))
  }

  /** The true number of nodes. */
  function Size<K, D>(t: Tree<K, D>): nat {
    match t
    case Leaf => 0
    case Node(l, _, _, _, _, r) => Size(l) + 1 + Size(r)
  }

  function Keys<K, D>(t: Tree<K, D>): set<K> {
    match t
    case Leaf => {}
    case Node(l, k, _, _, _, r) => Keys(l) + {k} + Keys(r)
  }

  /** The (key, data) pairs in in-order sequence. */
  function Elements<K, D>(t: Tree<K, D>): seq<(K, D)> {
    match t
    case Leaf => []
    case Node(l, k, d, _, _, r) => Elements(l) + [(k, d)] + Elements(r)
  }

  /** `s` is `t` or a subtree of it: a node pointer into the tree. */
  ghost predicate IsSubtree<K, D>(s: Tree<K, D>, t: Tree<K, D>) {
    s == t || (t.Node? && (IsSubtree(s, t.left) || IsSubtree(s, t.right)))
  }

  /** Every node's height is 1 + the larger child height (updateNodeHeight). */
  predicate HeightsOk<K, D>(t: Tree<K, D>) {
    match t
    case Leaf => true
    case Node(l, _, _, h, _, r) => HeightsOk(l) && HeightsOk(r) && h == 1 + Max(H(l), H(r))
  }

  /** Every node's rank is 1 + the children's ranks (updateNodeRank, RankSanity). */
  predicate RanksOk<K, D>(t: Tree<K, D>) {
    match t
    case Leaf => true
    case Node(l, _, _, _, rk, r) => RanksOk(l) && RanksOk(r) && rk == 1 + R(l) + R(r)
  }

  predicate CachesOk<K, D>(t: Tree<K, D>) {
    HeightsOk(t) && RanksOk(t)
  }

  /** The AVL condition on true heights, at every node. */
  predicate Balanced<K, D>(t: Tree<K, D>) {
    match t
    case Leaf => true
    case Node(l, _, _, _, _, r) => Balanced(l) && Balanced(r) && -1 <= Height(l) - Height(r) <= 1
  }

  /** Binary-search-tree order under the key comparator `lt`. */
  ghost predicate Bst<K(!new), D>(t: Tree<K, D>, lt: (K, K) -> bool) {
    match t
    case Leaf => true
    case Node(l, k, _, _, _, r) =>
      Bst(l, lt) && Bst(r, lt)
      && (forall x :: x in Keys(l) ==> lt(x, k))
      && (forall x :: x in Keys(r) ==> lt(k, x))
  }

  /** The invariant every tree of the repository is meant to keep. */
  ghost predicate Valid<K(!new), D>(t: Tree<K, D>, lt: (K, K) -> bool) {
    Bst(t, lt) && Balanced(t) && CachesOk(t)
  }

  /** A node whose height and rank are computed from its children. */
  function Mk<K, D>(l: Tree<K, D>, k: K, d: D, r: Tree<K, D>): Tree<K, D> {
    Node(l, k, d, 1 + Max(H(l), H(r)), 1 + R(l) + R(r), r)
  }

  /** updateNodeHeight followed by updateNodeRank on the root. */
  function Refresh<K, D>(t: Tree<K, D>): (r: Tree<K, D>)
    ensures Elements(r) == Elements(t) && Keys(r) == Keys(t)
    ensures t.Node? ==> r.Node? && r.left == t.left && r.right == t.right
    ensures t.Node? && HeightsOk(t.left) && HeightsOk(t.right) && RanksOk(t.left) && RanksOk(t.right) ==> CachesOk(r)
  {
    match t
    case Leaf => Leaf
    case Node(l, k, d, _, _, r) => Mk(l, k, d, r)
  }

  /** Promotes the left child (RankTree.h LeftRotate, RankTreeSingle.h StaticRightRotate, Test.h llRotation). */
  function PromoteLeft<K, D>(t: Tree<K, D>): (r: Tree<K, D>)
    requires t.Node? && t.left.Node?
    ensures Elements(r) == Elements(t) && Keys(r) == Keys(t)
  {
    var Node(a, x, dx, _, _, b) := t.left;
    Mk(a, x, dx, Mk(b, t.key, t.data, t.right))
  }

  /** Promotes the right child (RankTree.h RightRotate, RankTreeSingle.h StaticLeftRotate, Test.h rrRotation). */
  function PromoteRight<K, D>(t: Tree<K, D>): (r: Tree<K, D>)
    requires t.Node? && t.right.Node?
    ensures Elements(r) == Elements(t) && Keys(r) == Keys(t)
  {
    var Node(b, y, dy, _, _, c) := t.right;
    Mk(Mk(t.left, t.key, t.data, b), y, dy, c)
  }

  /** Double rotation for a left-heavy node whose left child leans right. */
  function RotateLeftRight<K, D>(t: Tree<K, D>): (r: Tree<K, D>)
    requires t.Node? && t.left.Node? && t.left.right.Node?
    ensures Elements(r) == Elements(t) && Keys(r) == Keys(t)
  {
    PromoteLeft(t.(left := PromoteRight(t.left)))
  }

  /** Double rotation for a right-heavy node whose right child leans left. */
  function RotateRightLeft<K, D>(t: Tree<K, D>): (r: Tree<K, D>)
    requires t.Node? && t.right.Node? && t.right.left.Node?
    ensures Elements(r) == Elements(t) && Keys(r) == Keys(t)
  {
    PromoteRight(t.(right := PromoteLeft(t.right)))
  }

  lemma {:induction false} CachedHeight<K, D>(t: Tree<K, D>)
    requires HeightsOk(t)
    ensures H(t) == Height(t)
  {
    if t.Node? {
      CachedHeight(t.left);
      CachedHeight(t.right);
    }
  }

  lemma {:induction false} CachedRank<K, D>(t: Tree<K, D>)
    requires RanksOk(t)
    ensures R(t) == Size(t)
  {
    if t.Node? {
      CachedRank(t.left);
      CachedRank(t.right);
    }
  }

  /**
   * The AVL rebalancing step on cached balance factors: a node whose factor
   * is in [-1, 1] is returned unchanged; a left-heavy node is rotated once
   * when its left child's factor is >= 0 and twice otherwise; a right-heavy
   * node twice when its right child's factor is > 0 and once otherwise.
   */
  function Fix<K, D>(t: Tree<K, D>): (r: Tree<K, D>)
    requires t.Node? && HeightsOk(t.left) && HeightsOk(t.right)
    ensures Elements(r) == Elements(t) && Keys(r) == Keys(t)
  {
    CachedHeight(t.left);
    CachedHeight(t.right);
    if Bf(t) < -1 then
      CachedHeight(t.right.right);
      if Bf(t.right) > 0 then RotateRightLeft(t) else PromoteRight(t)
    else if Bf(t) > 1 then
      CachedHeight(t.left.left);
      if Bf(t.left) >= 0 then PromoteLeft(t) else RotateLeftRight(t)
    else
      t
  }

  lemma PromoteLeftCaches<K, D>(t: Tree<K, D>)
    requires t.Node? && t.left.Node? && CachesOk(t.left.left) && CachesOk(t.left.right) && CachesOk(t.right)
    ensures CachesOk(PromoteLeft(t))
  {
    var Node(a, x, dx, _, _, b) := t.left;
    MkMeasures(b, t.key, t.data, t.right);
    MkMeasures(a, x, dx, Mk(b, t.key, t.data, t.right));
  }

  lemma PromoteRightCaches<K, D>(t: Tree<K, D>)
    requires t.Node? && t.right.Node? && CachesOk(t.left) && CachesOk(t.right.left) && CachesOk(t.right.right)
    ensures CachesOk(PromoteRight(t))
  {
    var Node(b, y, dy, _, _, c) := t.right;
    MkMeasures(t.left, t.key, t.data, b);
    MkMeasures(Mk(t.left, t.key, t.data, b), y, dy, c);
  }

  /** Whatever rotation Fix chooses rebuilds its nodes with consistent caches. */
  lemma FixCaches<K, D>(t: Tree<K, D>)
    requires t.Node? && CachesOk(t)
    ensures CachesOk(Fix(t))
  {
    CachedHeight(t.left);
    CachedHeight(t.right);
    if Bf(t) < -1 {
      CachedHeight(t.right.right);
      if Bf(t.right) > 0 {
        var Node(b, y, dy, _, _, c) := t.right;
        assert CachesOk(t.right) && CachesOk(b);
        PromoteLeftCaches(t.right);
        MkMeasures(b.right, y, dy, c);
        PromoteRightCaches(t.(right := PromoteLeft(t.right)));
      } else {
        assert CachesOk(t.right);
        PromoteRightCaches(t);
      }
    } else if Bf(t) > 1 {
      CachedHeight(t.left.left);
      if Bf(t.left) >= 0 {
        assert CachesOk(t.left);
        PromoteLeftCaches(t);
      } else {
        var Node(a, x, dx, _, _, b) := t.left;
        assert CachesOk(t.left) && CachesOk(b);
        PromoteRightCaches(t.left);
        MkMeasures(a, x, dx, b.left);
        PromoteLeftCaches(t.(left := PromoteRight(t.left)));
      }
    }
  }

  /** A node whose children keep their caches consistent has consistent caches after Mk. */
  lemma MkMeasures<K, D>(l: Tree<K, D>, k: K, d: D, r: Tree<K, D>)
    requires CachesOk(l) && CachesOk(r)
    ensures CachesOk(Mk(l, k, d, r))
    ensures Height(Mk(l, k, d, r)) == 1 + Max(Height(l), Height(r))
    ensures Size(Mk(l, k, d, r)) == Size(l) + 1 + Size(r)
    ensures H(Mk(l, k, d, r)) == Height(Mk(l, k, d, r))
  {
    CachedHeight(l);
    CachedHeight(r);
  }

  /** A node within AVL balance is left alone by Fix. */
  lemma FixKeepsBalanced<K, D>(l: Tree<K, D>, k: K, d: D, r: Tree<K, D>)
    requires CachesOk(l) && CachesOk(r)
    requires -1 <= Height(l) - Height(r) <= 1
    ensures Fix(Mk(l, k, d, r)) == Mk(l, k, d, r)
  {
    CachedHeight(l);
    CachedHeight(r);
  }

  /** A valid node is its own refresh and is left as it is by Fix. */
  lemma FixValid<K(!new), D>(t: Tree<K, D>, lt: (K, K) -> bool)
    requires t.Node? && Valid(t, lt)
    ensures Mk(t.left, t.key, t.data, t.right) == t && Fix(t) == t
  {
    assert CachesOk(t.left) && CachesOk(t.right);
    FixKeepsBalanced(t.left, t.key, t.data, t.right);
  }

  /** A node left-heavy by two is balanced by Fix; the height it ends with. */
  lemma FixLeftHeavy<K, D>(l: Tree<K, D>, k: K, d: D, r: Tree<K, D>)
    requires Balanced(l) && Balanced(r) && CachesOk(l) && CachesOk(r)
    requires Height(l) == Height(r) + 2
    ensures var t := Fix(Mk(l, k, d, r));
      Balanced(t) && CachesOk(t)
      && Height(t) == Height(l) + (if Height(l.left) == Height(l.right) then 1 else 0)
  {
    CachedHeight(l);
    CachedHeight(r);
    var Node(a, x, dx, _, _, b) := l;
    CachedHeight(a);
    CachedHeight(b);
    var t := Mk(l, k, d, r);
    assert Bf(t) > 1;
    assert Bf(l) == Height(a) - Height(b);
    if Height(a) >= Height(b) {
      assert Fix(t) == PromoteLeft(t);
      assert Fix(t) == Mk(a, x, dx, Mk(b, k, d, r));
      SingleLeftMeasures(a, x, dx, b, k, d, r);
    } else {
      var Node(b1, z, dz, _, _, b2) := b;
      assert Fix(t) == RotateLeftRight(t);
      assert Fix(t) == Mk(Mk(a, x, dx, b1), z, dz, Mk(b2, k, d, r));
      assert Height(b) == Height(r) + 1 && Height(a) == Height(r);
      assert HeightsOk(b) && RanksOk(b);
      assert Balanced(b1) && Balanced(b2) && CachesOk(b1) && CachesOk(b2);
      DoubleMeasures(a, x, dx, b1, z, dz, b2, k, d, r);
    }
  }

  lemma SingleLeftMeasures<K, D>(a: Tree<K, D>, x: K, dx: D, b: Tree<K, D>, y: K, dy: D, c: Tree<K, D>)
    requires Balanced(a) && Balanced(b) && Balanced(c) && CachesOk(a) && CachesOk(b) && CachesOk(c)
    requires Height(a) == Height(c) + 1 && Height(c) <= Height(b) <= Height(a)
    ensures var t := Mk(a, x, dx, Mk(b, y, dy, c));
      Balanced(t) && CachesOk(t) && Height(t) == Height(a) + 1 + (if Height(b) == Height(a) then 1 else 0)
  {
    MkMeasures(b, y, dy, c);
    MkMeasures(a, x, dx, Mk(b, y, dy, c));
  }

  /** A node right-heavy by two is balanced by Fix; the height it ends with. */
  lemma FixRightHeavy<K, D>(l: Tree<K, D>, k: K, d: D, r: Tree<K, D>)
    requires Balanced(l) && Balanced(r) && CachesOk(l) && CachesOk(r)
    requires Height(r) == Height(l) + 2
    ensures var t := Fix(Mk(l, k, d, r));
      Balanced(t) && CachesOk(t)
      && Height(t) == Height(r) + (if Height(r.left) == Height(r.right) then 1 else 0)
  {
    CachedHeight(l);
    CachedHeight(r);
    var Node(b, y, dy, _, _, c) := r;
    CachedHeight(b);
    CachedHeight(c);
    var t := Mk(l, k, d, r);
    assert Bf(t) < -1;
    assert Bf(r) == Height(b) - Height(c);
    if Height(b) <= Height(c) {
      assert Fix(t) == PromoteRight(t);
      assert Fix(t) == Mk(Mk(l, k, d, b), y, dy, c);
      SingleRightMeasures(l, k, d, b, y, dy, c);
    } else {
      var Node(b1, z, dz, _, _, b2) := b;
      assert Fix(t) == RotateRightLeft(t);
      assert Fix(t) == Mk(Mk(l, k, d, b1), z, dz, Mk(b2, y, dy, c));
      assert Height(b) == Height(l) + 1 && Height(c) == Height(l);
      assert HeightsOk(b) && RanksOk(b);
      assert Balanced(b1) && Balanced(b2) && CachesOk(b1) && CachesOk(b2);
      DoubleMeasures(l, k, d, b1, z, dz, b2, y, dy, c);
    }
  }

  lemma SingleRightMeasures<K, D>(a: Tree<K, D>, x: K, dx: D, b: Tree<K, D>, y: K, dy: D, c: Tree<K, D>)
    requires Balanced(a) && Balanced(b) && Balanced(c) && CachesOk(a) && CachesOk(b) && CachesOk(c)
    requires Height(c) == Height(a) + 1 && Height(a) <= Height(b) <= Height(c)
    ensures var t := Mk(Mk(a, x, dx, b), y, dy, c);
      Balanced(t) && CachesOk(t) && Height(t) == Height(c) + 1 + (if Height(b) == Height(c) then 1 else 0)
  {
    MkMeasures(a, x, dx, b);
    MkMeasures(Mk(a, x, dx, b), y, dy, c);
  }

  /** The shape both double rotations produce: a and c outside, b1 and b2 split between them. */
  lemma DoubleMeasures<K, D>(a: Tree<K, D>, x: K, dx: D, b1: Tree<K, D>, z: K, dz: D, b2: Tree<K, D>, y: K, dy: D, c: Tree<K, D>)
    requires Balanced(a) && Balanced(b1) && Balanced(b2) && Balanced(c)
    requires CachesOk(a) && CachesOk(b1) && CachesOk(b2) && CachesOk(c)
    requires Height(a) == Height(c) && -1 <= Height(b1) - Height(b2) <= 1
    requires Max(Height(b1), Height(b2)) == Height(a)
    ensures var t := Mk(Mk(a, x, dx, b1), z, dz, Mk(b2, y, dy, c));
      Balanced(t) && CachesOk(t) && Height(t) == Height(a) + 2
  {
    MkMeasures(a, x, dx, b1);
    MkMeasures(b2, y, dy, c);
    MkMeasures(Mk(a, x, dx, b1), z, dz, Mk(b2, y, dy, c));
  }

  /**
   * Insertion shape: the subtree that replaced one of original height `h0`
   * kept that height, or grew by one and either replaced an empty slot or
   * leans to one side (its children's heights differ).
   */
  ghost predicate Grown<K, D>(t: Tree<K, D>, h0: int) {
    Height(t) == h0 || (t.Node? && Height(t) == h0 + 1 && (h0 == 0 || Height(t.left) != Height(t.right)))
  }

  /** Deletion shape: the subtree kept its height or lost one level. */
  ghost predicate Shrunk<K, D>(t: Tree<K, D>, h0: int) {
    Height(t) == h0 || Height(t) + 1 == h0
  }

  /**
   * Rebalancing after an insertion below the left child: if the left child
   * grew in insertion shape, Fix restores balance and the node itself is in
   * insertion shape relative to its original height.
   */
  lemma FixAfterInsertLeft<K, D>(h0: nat, l: Tree<K, D>, k: K, d: D, r: Tree<K, D>)
    requires Balanced(l) && Balanced(r) && CachesOk(l) && CachesOk(r)
    requires -1 <= h0 - Height(r) <= 1 && Grown(l, h0)
    ensures var t := Fix(Mk(l, k, d, r));
      Balanced(t) && CachesOk(t) && Grown(t, 1 + Max(h0, Height(r)))
      && (Height(t) == 2 + Max(h0, Height(r)) ==> t == Mk(l, k, d, r) && Height(l) > Height(r))
  {
    MkMeasures(l, k, d, r);
    if Height(l) - Height(r) == 2 {
      FixLeftHeavy(l, k, d, r);
    } else {
      FixKeepsBalanced(l, k, d, r);
    }
  }

  lemma FixAfterInsertRight<K, D>(h0: nat, l: Tree<K, D>, k: K, d: D, r: Tree<K, D>)
    requires Balanced(l) && Balanced(r) && CachesOk(l) && CachesOk(r)
    requires -1 <= h0 - Height(l) <= 1 && Grown(r, h0)
    ensures var t := Fix(Mk(l, k, d, r));
      Balanced(t) && CachesOk(t) && Grown(t, 1 + Max(Height(l), h0))
      && (Height(t) == 2 + Max(Height(l), h0) ==> t == Mk(l, k, d, r) && Height(l) < Height(r))
  {
    MkMeasures(l, k, d, r);
    if Height(r) - Height(l) == 2 {
      FixRightHeavy(l, k, d, r);
    } else {
      FixKeepsBalanced(l, k, d, r);
    }
  }

  /**
   * Rebalancing after a deletion below the left child: if the left child
   * shrank by at most one level, Fix restores balance and the node shrank by
   * at most one level.
   */
  lemma FixAfterDeleteLeft<K, D>(h0: nat, l: Tree<K, D>, k: K, d: D, r: Tree<K, D>)
    requires Balanced(l) && Balanced(r) && CachesOk(l) && CachesOk(r)
    requires -1 <= h0 - Height(r) <= 1 && Shrunk(l, h0)
    ensures var t := Fix(Mk(l, k, d, r));
      Balanced(t) && CachesOk(t) && Shrunk(t, 1 + Max(h0, Height(r)))
  {
    MkMeasures(l, k, d, r);
    if Height(r) - Height(l) == 2 {
      FixRightHeavy(l, k, d, r);
    } else {
      FixKeepsBalanced(l, k, d, r);
    }
  }

  lemma FixAfterDeleteRight<K, D>(h0: nat, l: Tree<K, D>, k: K, d: D, r: Tree<K, D>)
    requires Balanced(l) && Balanced(r) && CachesOk(l) && CachesOk(r)
    requires -1 <= h0 - Height(l) <= 1 && Shrunk(r, h0)
    ensures var t := Fix(Mk(l, k, d, r));
      Balanced(t) && CachesOk(t) && Shrunk(t, 1 + Max(Height(l), h0))
  {
    MkMeasures(l, k, d, r);
    if Height(l) - Height(r) == 2 {
      FixLeftHeavy(l, k, d, r);
    } else {
      FixKeepsBalanced(l, k, d, r);
    }
  }

  /**
   * One level of a recursive insertion below the left child: the child was
   * replaced by a valid tree in insertion shape whose keys stay below the
   * node's key. Refreshing and rebalancing gives a valid tree in insertion
   * shape; if it grew, no rotation happened and its left side is the taller.
   */
  lemma GrewLeft<K(!new), D>(t: Tree<K, D>, l: Tree<K, D>, lt: (K, K) -> bool)
    requires Transitive(lt) && t.Node? && Valid(t, lt)
    requires Valid(l, lt) && Grown(l, Height(t.left)) && (forall x :: x in Keys(l) ==> lt(x, t.key))
    ensures var r := Fix(Mk(l, t.key, t.data, t.right));
      Valid(r, lt) && Grown(r, Height(t)) && Size(r) == Size(l) + 1 + Size(t.right)
      && (Height(r) == Height(t) + 1 ==> r == Mk(l, t.key, t.data, t.right) && Height(l) > Height(t.right))
  {
    var n := Mk(l, t.key, t.data, t.right);
    FixAfterInsertLeft(Height(t.left), l, t.key, t.data, t.right);
    FixBst(n, lt);
    ElementsSize(n);
    ElementsSize(Fix(n));
    MkMeasures(l, t.key, t.data, t.right);
  }

  lemma GrewRight<K(!new), D>(t: Tree<K, D>, r: Tree<K, D>, lt: (K, K) -> bool)
    requires Transitive(lt) && t.Node? && Valid(t, lt)
    requires Valid(r, lt) && Grown(r, Height(t.right)) && (forall x :: x in Keys(r) ==> lt(t.key, x))
    ensures var u := Fix(Mk(t.left, t.key, t.data, r));
      Valid(u, lt) && Grown(u, Height(t)) && Size(u) == Size(t.left) + 1 + Size(r)
      && (Height(u) == Height(t) + 1 ==> u == Mk(t.left, t.key, t.data, r) && Height(t.left) < Height(r))
  {
    var n := Mk(t.left, t.key, t.data, r);
    FixAfterInsertRight(Height(t.right), t.left, t.key, t.data, r);
    FixBst(n, lt);
    ElementsSize(n);
    ElementsSize(Fix(n));
    MkMeasures(t.left, t.key, t.data, r);
  }

  /**
   * One level of a recursive deletion: the left child was replaced by a
   * valid tree that lost at most one level, the node now carries `k` and
   * `d`, and `k` separates the two sides. Rebalancing gives a valid tree
   * that lost at most one level.
   */
  lemma ShrankLeft<K(!new), D>(t: Tree<K, D>, l: Tree<K, D>, k: K, d: D, lt: (K, K) -> bool)
    requires Transitive(lt) && t.Node? && Valid(t, lt)
    requires Valid(l, lt) && Shrunk(l, Height(t.left))
    requires (forall x :: x in Keys(l) ==> lt(x, k)) && (forall x :: x in Keys(t.right) ==> lt(k, x))
    ensures var r := Fix(Mk(l, k, d, t.right));
      Valid(r, lt) && Shrunk(r, Height(t)) && Size(r) == Size(l) + 1 + Size(t.right)
  {
    var n := Mk(l, k, d, t.right);
    FixAfterDeleteLeft(Height(t.left), l, k, d, t.right);
    FixBst(n, lt);
    ElementsSize(n);
    ElementsSize(Fix(n));
    MkMeasures(l, k, d, t.right);
  }

  lemma ShrankRight<K(!new), D>(t: Tree<K, D>, r: Tree<K, D>, k: K, d: D, lt: (K, K) -> bool)
    requires Transitive(lt) && t.Node? && Valid(t, lt)
    requires Valid(r, lt) && Shrunk(r, Height(t.right))
    requires (forall x :: x in Keys(t.left) ==> lt(x, k)) && (forall x :: x in Keys(r) ==> lt(k, x))
    ensures var u := Fix(Mk(t.left, k, d, r));
      Valid(u, lt) && Shrunk(u, Height(t)) && Size(u) == Size(t.left) + 1 + Size(r)
  {
    var n := Mk(t.left, k, d, r);
    FixAfterDeleteRight(Height(t.right), t.left, k, d, r);
    FixBst(n, lt);
    ElementsSize(n);
    ElementsSize(Fix(n));
    MkMeasures(t.left, k, d, r);
  }

  lemma PromoteLeftBst<K(!new), D>(t: Tree<K, D>, lt: (K, K) -> bool)
    requires Transitive(lt) && t.Node? && t.left.Node? && Bst(t, lt)
    ensures Bst(PromoteLeft(t), lt)
  {
    var Node(a, x, dx, _, _, b) := t.left;
    assert lt(x, t.key);
    assert forall z :: z in Keys(t.right) ==> lt(x, z);
  }

  lemma PromoteRightBst<K(!new), D>(t: Tree<K, D>, lt: (K, K) -> bool)
    requires Transitive(lt) && t.Node? && t.right.Node? && Bst(t, lt)
    ensures Bst(PromoteRight(t), lt)
  {
    var Node(b, y, dy, _, _, c) := t.right;
    assert lt(t.key, y);
    assert forall z :: z in Keys(t.left) ==> lt(z, y);
  }

  /** Every rotation Fix can choose keeps the search order. */
  lemma FixBst<K(!new), D>(t: Tree<K, D>, lt: (K, K) -> bool)
    requires Transitive(lt) && t.Node? && HeightsOk(t.left) && HeightsOk(t.right) && Bst(t, lt)
    ensures Bst(Fix(t), lt)
  {
    CachedHeight(t.left);
    CachedHeight(t.right);
    if Bf(t) < -1 {
      CachedHeight(t.right.right);
      if Bf(t.right) > 0 {
        PromoteLeftBst(t.right, lt);
        PromoteRightBst(t.(right := PromoteLeft(t.right)), lt);
      } else {
        PromoteRightBst(t, lt);
      }
    } else if Bf(t) > 1 {
      CachedHeight(t.left.left);
      if Bf(t.left) >= 0 {
        PromoteLeftBst(t, lt);
      } else {
        PromoteRightBst(t.left, lt);
        PromoteLeftBst(t.(left := PromoteRight(t.left)), lt);
      }
    }
  }

  lemma {:induction false} ElementsSize<K, D>(t: Tree<K, D>)
    ensures |Elements(t)| == Size(t)
    ensures forall i :: 0 <= i < |Elements(t)| ==> Elements(t)[i].0 in Keys(t)
  {
    if t.Node? {
      ElementsSize(t.left);
      ElementsSize(t.right);
      var e := Elements(t);
      forall i | 0 <= i < |e| ensures e[i].0 in Keys(t) {
        if i < Size(t.left) {
          assert e[i] == Elements(t.left)[i];
        } else if i > Size(t.left) {
          assert e[i] == Elements(t.right)[i - Size(t.left) - 1];
        }
      }
    }
  }

  /** A key outside the tree is the key of none of its pairs. */
  lemma KeyNotInElements<K, D>(t: Tree<K, D>, k: K)
    requires k !in Keys(t)
    ensures forall i :: 0 <= i < |Elements(t)| ==> Elements(t)[i].0 != k
  {
    ElementsSize(t);
  }

  /** A search tree lists its keys in strictly increasing order. */
  lemma {:induction false} BstSorted<K(!new), D>(t: Tree<K, D>, lt: (K, K) -> bool)
    requires Transitive(lt) && Bst(t, lt)
    ensures SortedKeys(Elements(t), lt)
  {
    if t.Node? {
      BstSorted(t.left, lt);
      BstSorted(t.right, lt);
      ElementsSize(t.left);
      ElementsSize(t.right);
      var e, n := Elements(t), Size(t.left);
      forall i, j | 0 <= i < j < |e| ensures lt(e[i].0, e[j].0) {
        if j < n {
          assert e[i] == Elements(t.left)[i] && e[j] == Elements(t.left)[j];
        } else if i > n {
          assert e[i] == Elements(t.right)[i - n - 1] && e[j] == Elements(t.right)[j - n - 1];
        } else if i == n {
          assert e[j] == Elements(t.right)[j - n - 1];
        } else if j == n {
          assert e[i] == Elements(t.left)[i];
        } else {
          assert e[i] == Elements(t.left)[i] && e[j] == Elements(t.right)[j - n - 1];
          assert lt(e[i].0, t.key) && lt(t.key, e[j].0);
        }
      }
    }
  }

  /** A subtree's key and data appear in its tree's pairs. */
  lemma {:induction false} SubtreeElement<K, D>(s: Tree<K, D>, t: Tree<K, D>)
    requires s.Node? && IsSubtree(s, t)
    ensures (s.key, s.data) in Elements(t) && s.key in Keys(t)
  {
    if s != t {
      if IsSubtree(s, t.left) {
        SubtreeElement(s, t.left);
      } else {
        SubtreeElement(s, t.right);
      }
    }
  }

  /**
   * Search by key (Find in RankTree.h, RankTreeSingle.h and Tree.h): go left
   * when the node's key is greater, right when it is smaller, else stop. A
   * `Leaf` result is the null pointer.
   */
  function Find<K, D>(t: Tree<K, D>, k: K, lt: (K, K) -> bool): (r: Tree<K, D>)
    ensures r.Node? ==> IsSubtree(r, t) && !lt(r.key, k) && !lt(k, r.key)
  {
    match t
    case Leaf => Leaf
    case Node(l, key, _, _, _, rt) =>
      if lt(k, key) then (if l.Leaf? then Leaf else Find(l, k, lt))
      else if lt(key, k) then (if rt.Leaf? then Leaf else Find(rt, k, lt))
      else t
  }

  /** A key below the root of a search tree is in it only if it is in the left subtree. */
  lemma KeysBelow<K(!new), D>(t: Tree<K, D>, k: K, lt: (K, K) -> bool)
    requires StrictTotalOrder(lt) && Bst(t, lt) && t.Node? && lt(k, t.key)
    ensures k in Keys(t) <==> k in Keys(t.left)
    ensures k != t.key && k !in Keys(t.right)
  {
    Asymmetric(lt, k, t.key);
    forall x | x in Keys(t.right) ensures x != k {
      assert lt(t.key, x);
    }
  }

  lemma KeysAbove<K(!new), D>(t: Tree<K, D>, k: K, lt: (K, K) -> bool)
    requires StrictTotalOrder(lt) && Bst(t, lt) && t.Node? && lt(t.key, k)
    ensures k in Keys(t) <==> k in Keys(t.right)
    ensures k != t.key && k !in Keys(t.left)
  {
    Asymmetric(lt, k, t.key);
    forall x | x in Keys(t.left) ensures x != k {
      assert lt(x, t.key);
    }
  }

  /** Find returns the node holding `k`, and the null pointer exactly when `k` is absent. */
  lemma {:induction false} FindCorrect<K(!new), D>(t: Tree<K, D>, k: K, lt: (K, K) -> bool)
    requires StrictTotalOrder(lt) && Bst(t, lt)
    ensures var r := Find(t, k, lt);
      (r.Node? <==> k in Keys(t)) && (r.Node? ==> r.key == k && (k, r.data) in Elements(t))
  {
    var r := Find(t, k, lt);
    if t.Node? {
      if lt(k, t.key) {
        FindCorrect(t.left, k, lt);
        forall x | x in Keys(t.right) ensures x != k {
          assert lt(t.key, x) && lt(k, x);
        }
      } else if lt(t.key, k) {
        FindCorrect(t.right, k, lt);
        forall x | x in Keys(t.left) ensures x != k {
          assert lt(x, t.key) && lt(x, k);
        }
      }
      if r.Node? {
        SubtreeElement(r, t);
      }
    }
  }

  /** The leftmost node: the first pair in order (findMin). */
  function Leftmost<K, D>(t: Tree<K, D>): (m: Tree<K, D>)
    requires t.Node?
    ensures m.Node? && m.left.Leaf? && IsSubtree(m, t)
    ensures |Elements(t)| > 0 && Elements(t)[0] == (m.key, m.data)
  {
    if t.left.Leaf? then t else Leftmost(t.left)
  }

  /** The rightmost node: the last pair in order (findMaxNoRank, Tree.h findMax). */
  function Rightmost<K, D>(t: Tree<K, D>): (m: Tree<K, D>)
    requires t.Node?
    ensures m.Node? && m.right.Leaf? && IsSubtree(m, t)
    ensures |Elements(t)| > 0 && Elements(t)[|Elements(t)| - 1] == (m.key, m.data)
  {
    if t.right.Leaf? then t else Rightmost(t.right)
  }

  /** In a search tree the leftmost key is below every other key. */
  lemma LeftmostIsMinimum<K(!new), D>(t: Tree<K, D>, lt: (K, K) -> bool)
    requires Transitive(lt) && Bst(t, lt) && t.Node?
    ensures forall i :: 0 < i < |Elements(t)| ==> lt(Leftmost(t).key, Elements(t)[i].0)
  {
    BstSorted(t, lt);
  }

  /** In a search tree every other key lies above the leftmost one. */
  lemma {:induction false} LeftmostLeast<K(!new), D>(t: Tree<K, D>, lt: (K, K) -> bool)
    requires Transitive(lt) && Bst(t, lt) && t.Node?
    ensures Leftmost(t).key in Keys(t)
    ensures forall x :: x in Keys(t) && x != Leftmost(t).key ==> lt(Leftmost(t).key, x)
  {
    SubtreeElement(Leftmost(t), t);
    if t.left.Node? {
      LeftmostLeast(t.left, lt);
    }
  }

  /** In a search tree every other key lies below the rightmost one. */
  lemma {:induction false} RightmostGreatest<K(!new), D>(t: Tree<K, D>, lt: (K, K) -> bool)
    requires Transitive(lt) && Bst(t, lt) && t.Node?
    ensures Rightmost(t).key in Keys(t)
    ensures forall x :: x in Keys(t) && x != Rightmost(t).key ==> lt(x, Rightmost(t).key)
  {
    SubtreeElement(Rightmost(t), t);
    if t.right.Node? {
      RightmostGreatest(t.right, lt);
    }
  }

  /**
   * Select by rank, counting from the right: rank 1 is the greatest key
   * (FindNodeByRank in RankTree.h and RankTreeSingle.h, getNodeByRank in
   * Test.h). It reads only the cached ranks.
   */
  function NodeByRank<K, D>(t: Tree<K, D>, r: int): (n: Tree<K, D>)
    requires RanksOk(t) && 1 <= r <= R(t)
    ensures n.Node? && IsSubtree(n, t)
  {
    if t.right.Node? then
      if R(t.right) == r - 1 then t
      else if R(t.right) > r - 1 then NodeByRank(t.right, r)
      else NodeByRank(t.left, r - R(t.right) - 1)
    else if t.left.Node? then
      if r == 1 then t else t.left
    else
      t
  }

  /**
   * In a balanced tree with consistent ranks, NodeByRank(t, r) holds the
   * r-th largest pair. The branch with no right child answers the left
   * child for every r > 1; balance is what makes that child a single node.
   */
  lemma {:induction false} NodeByRankCorrect<K, D>(t: Tree<K, D>, r: int)
    requires Balanced(t) && RanksOk(t) && 1 <= r <= R(t)
    ensures var n := NodeByRank(t, r);
      R(t) == Size(t) == |Elements(t)| && Elements(t)[Size(t) - r] == (n.key, n.data)
  {
    CachedRank(t);
    CachedRank(t.left);
    CachedRank(t.right);
    ElementsSize(t);
    ElementsSize(t.left);
    ElementsSize(t.right);
    var e, nl := Elements(t), Size(t.left);
    if t.right.Node? {
      if R(t.right) == r - 1 {
      } else if R(t.right) > r - 1 {
        NodeByRankCorrect(t.right, r);
        assert e[Size(t) - r] == Elements(t.right)[Size(t.right) - r];
      } else {
        NodeByRankCorrect(t.left, r - R(t.right) - 1);
        assert e[Size(t) - r] == Elements(t.left)[Size(t.left) - (r - R(t.right) - 1)];
      }
    } else if t.left.Node? {
      assert Height(t.left) == 1;
      assert t.left.left.Leaf? && t.left.right.Leaf?;
    }
  }
}
