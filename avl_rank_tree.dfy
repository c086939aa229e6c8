/**
 * The iterative AVL rank tree of Test.h (AVLRankTree). Its nodes carry
 * parent pointers; insertion and deletion change the links in place and
 * then walk up the parent pointers: updateHeights and updateRanks refresh
 * every ancestor's caches, and balance rotates where a node is two levels
 * out of balance and carries on at the parent. A node pointer is modelled
 * as a zipper position (Zipper): the path of frames to the root and the
 * focus subtree, so that moving to `node->parent` is moving one frame up.
 */
module AvlRankTree {
  import opened Order
  import opened AvlTree
  import opened Zipper
  import RankTree
  import RankTreeShape

  /** The exceptions of AVLExceptions.h that the tree throws. */
  datatype AvlError = KeyAlreadyExist | KeyDoesNotExist | IllegalInput

  /** A void operation: it completed, or it threw. */
  datatype Status = Done | Failed(error: AvlError)

  /** An operation returning a value, or throwing. */
  datatype Outcome<T> = Value(value: T) | Error(error: AvlError)

  /*
   * ---------------------------------------------------------------------
   * Walking up the parent pointers
   * ---------------------------------------------------------------------
   */

  /** The other child of an ancestor, the one off the path. */
  function Sibling<K, D>(f: Frame<K, D>): Tree<K, D> {
    match f
    case LeftOf(_, _, _, _, r) => r
    case RightOf(l, _, _, _, _) => l
  }

  /** Every subtree hanging off the path keeps consistent caches. */
  predicate SiblingsOk<K, D>(p: seq<Frame<K, D>>) {
    forall i :: 0 <= i < |p| ==> CachesOk(Sibling(p[i]))
  }

  /** The height updateHeights gives a node: 1 + the larger child height, 0 for a null child. */
  function HeightOf<K, D>(n: Tree<K, D>): int
    requires n.Node?
  {
    1 + Max(H(n.left), H(n.right))
  }

  /** The rank updateRanks gives a node: the children's ranks plus one. */
  function RankOf<K, D>(n: Tree<K, D>): int
    requires n.Node?
  {
    R(n.left) + R(n.right) + 1
  }

  /** The frames once updateHeights has walked up from the focus `t` to the root. */
  function HeightsUp<K, D>(p: seq<Frame<K, D>>, t: Tree<K, D>): (q: seq<Frame<K, D>>)
    ensures |q| == |p|
    ensures forall i :: 0 <= i < |p| ==> q[i] == p[i].(height := q[i].height)
    decreases |p|
  {
    if |p| == 0 then []
    else
      var f := p[0].(height := HeightOf(Attach(p[0], t)));
      [f] + HeightsUp(p[1..], Attach(f, t))
  }

  /** The frames once updateRanks has walked up from the focus `t` to the root. */
  function RanksUp<K, D>(p: seq<Frame<K, D>>, t: Tree<K, D>): (q: seq<Frame<K, D>>)
    ensures |q| == |p|
    ensures forall i :: 0 <= i < |p| ==> q[i] == p[i].(rank := q[i].rank)
    decreases |p|
  {
    if |p| == 0 then []
    else
      var f := p[0].(rank := RankOf(Attach(p[0], t)));
      [f] + RanksUp(p[1..], Attach(f, t))
  }

  /** The frames with both caches of every ancestor recomputed from the focus `t` upward. */
  function RefreshUp<K, D>(p: seq<Frame<K, D>>, t: Tree<K, D>): (q: seq<Frame<K, D>>)
    ensures |q| == |p|
    ensures forall i :: 0 <= i < |p| ==> q[i] == p[i].(height := q[i].height, rank := q[i].rank)
    decreases |p|
  {
    if |p| == 0 then []
    else
      var f := p[0].(height := HeightOf(Attach(p[0], t)), rank := RankOf(Attach(p[0], t)));
      [f] + RefreshUp(p[1..], Attach(f, t))
  }

  /** The parent after RefreshUp is the parent rebuilt by Mk, and the walk goes on from it. */
  lemma RefreshUpHead<K, D>(p: seq<Frame<K, D>>, t: Tree<K, D>)
    requires |p| > 0
    ensures Attach(RefreshUp(p, t)[0], t) == Refresh(Attach(p[0], t))
    ensures RefreshUp(p, t)[1..] == RefreshUp(p[1..], Refresh(Attach(p[0], t)))
    ensures Sibling(RefreshUp(p, t)[0]) == Sibling(p[0])
  {
    var f := p[0].(height := HeightOf(Attach(p[0], t)), rank := RankOf(Attach(p[0], t)));
    assert Attach(f, t) == Refresh(Attach(p[0], t));
    assert RefreshUp(p, t) == [f] + RefreshUp(p[1..], Attach(f, t));
  }

  /**
   * updateHeights(node): from the node itself up to the root, each node's
   * height becomes 1 + the larger of its children's cached heights. The
   * node pointer is the zipper (p, c); the walk returns it with the
   * refreshed frames.
   */
  method UpdateHeights<K, D>(p: seq<Frame<K, D>>, c: Tree<K, D>) returns (q: seq<Frame<K, D>>, n: Tree<K, D>)
    requires c.Node?
    ensures n == c.(height := HeightOf(c)) && q == HeightsUp(p, n)
  {
    n := c.(height := HeightOf(c));
    var below, above, cur := [], p, n;
    while |above| > 0
      invariant below + HeightsUp(above, cur) == HeightsUp(p, n)
      decreases |above|
    {
      var f := above[0].(height := HeightOf(Attach(above[0], cur)));
      assert HeightsUp(above, cur) == [f] + HeightsUp(above[1..], Attach(f, cur));
      below, cur, above := below + [f], Attach(f, cur), above[1..];
    }
    q := below;
  }

  /** updateRanks(node): the same walk for the rank, the children's ranks plus one. */
  method UpdateRanks<K, D>(p: seq<Frame<K, D>>, c: Tree<K, D>) returns (q: seq<Frame<K, D>>, n: Tree<K, D>)
    requires c.Node?
    ensures n == c.(rank := RankOf(c)) && q == RanksUp(p, n)
  {
    n := c.(rank := RankOf(c));
    var below, above, cur := [], p, n;
    while |above| > 0
      invariant below + RanksUp(above, cur) == RanksUp(p, n)
      decreases |above|
    {
      var f := above[0].(rank := RankOf(Attach(above[0], cur)));
      assert RanksUp(above, cur) == [f] + RanksUp(above[1..], Attach(f, cur));
      below, cur, above := below + [f], Attach(f, cur), above[1..];
    }
    q := below;
  }

  /**
   * updateHeights followed by updateRanks from the same node recomputes
   * both caches of the node and of every ancestor: the frames are those of
   * RefreshUp. `t1` is the node after the height walk, `t2` after both.
   */
  lemma {:induction false} UpdatesCompose<K, D>(p: seq<Frame<K, D>>, t1: Tree<K, D>, t2: Tree<K, D>)
    requires H(t1) == H(t2)
    ensures RanksUp(HeightsUp(p, t1), t2) == RefreshUp(p, t2)
    decreases |p|
  {
    if |p| > 0 {
      var f1 := p[0].(height := HeightOf(Attach(p[0], t1)));
      var g := f1.(rank := RankOf(Attach(f1, t2)));
      var g' := p[0].(height := HeightOf(Attach(p[0], t2)), rank := RankOf(Attach(p[0], t2)));
      assert g == g';
      assert HeightsUp(p, t1) == [f1] + HeightsUp(p[1..], Attach(f1, t1));
      var q := HeightsUp(p, t1);
      assert q[0] == f1 && q[1..] == HeightsUp(p[1..], Attach(f1, t1));
      assert RanksUp(q, t2) == [g] + RanksUp(q[1..], Attach(g, t2));
      UpdatesCompose(p[1..], Attach(f1, t1), Attach(g, t2));
    }
  }

  /** After the walk every ancestor's caches are consistent: the whole tree is as consistent as its parts. */
  lemma {:induction false} RefreshUpCaches<K, D>(p: seq<Frame<K, D>>, t: Tree<K, D>)
    requires CachesOk(t) && SiblingsOk(p)
    ensures CachesOk(Plug(RefreshUp(p, t), t))
    decreases |p|
  {
    if |p| > 0 {
      RefreshUpHead(p, t);
      var a := Refresh(Attach(p[0], t));
      assert CachesOk(Sibling(p[0]));
      assert CachesOk(a);
      assert SiblingsOk(p[1..]) by {
        forall i | 0 <= i < |p[1..]| ensures CachesOk(Sibling(p[1..][i])) {
          assert p[1..][i] == p[i + 1];
        }
      }
      RefreshUpCaches(p[1..], a);
      var q := RefreshUp(p, t);
      assert Plug(q, t) == Plug(q[1..], Attach(q[0], t));
    }
  }

  /** Recomputing the caches a second time, from any focus, only depends on the focus. */
  lemma {:induction false} RefreshUpTwice<K, D>(p: seq<Frame<K, D>>, x: Tree<K, D>, y: Tree<K, D>)
    ensures RefreshUp(RefreshUp(p, x), y) == RefreshUp(p, y)
    decreases |p|
  {
    if |p| > 0 {
      var g := p[0].(height := HeightOf(Attach(p[0], x)), rank := RankOf(Attach(p[0], x)));
      var g' := p[0].(height := HeightOf(Attach(p[0], y)), rank := RankOf(Attach(p[0], y)));
      var q := RefreshUp(p, x);
      assert q == [g] + RefreshUp(p[1..], Attach(g, x));
      assert q[0] == g && q[1..] == RefreshUp(p[1..], Attach(g, x));
      assert g.(height := HeightOf(Attach(g, y)), rank := RankOf(Attach(g, y))) == g';
      assert RefreshUp(q, y) == [g'] + RefreshUp(q[1..], Attach(g', y));
      RefreshUpTwice(p[1..], Attach(g, x), Attach(g', y));
    }
  }

  /** The walk changes caches only: the subtrees off the path stay as they were. */
  lemma RefreshUpSiblings<K, D>(p: seq<Frame<K, D>>, x: Tree<K, D>)
    ensures forall i :: 0 <= i < |p| ==> Sibling(RefreshUp(p, x)[i]) == Sibling(p[i])
    ensures SiblingsOk(RefreshUp(p, x)) == SiblingsOk(p)
  {
  }

  lemma SiblingsTail<K, D>(p: seq<Frame<K, D>>)
    requires SiblingsOk(p) && |p| > 0
    ensures SiblingsOk(p[1..]) && CachesOk(Sibling(p[0]))
  {
    forall i | 0 <= i < |p[1..]| ensures CachesOk(Sibling(p[1..][i])) {
      assert p[1..][i] == p[i + 1];
    }
  }

  /*
   * ---------------------------------------------------------------------
   * Rotations
   * ---------------------------------------------------------------------
   */

  /**
   * llRotation(node): the left child takes the node's place under the
   * parent (ParentPointTo), the node becomes its right child and takes over
   * its right subtree; then updateHeights and updateRanks run from the
   * demoted node up to the root. The pointer returned is the demoted node,
   * whose parent frame now holds the promoted one.
   */
  method LlRotation<K, D>(p: seq<Frame<K, D>>, c: Tree<K, D>) returns (q: seq<Frame<K, D>>, n: Tree<K, D>)
    requires c.Node? && c.left.Node?
    ensures n == Mk(c.left.right, c.key, c.data, c.right)
    ensures |q| == |p| + 1 && Attach(q[0], n) == PromoteLeft(c) && q[1..] == RefreshUp(p, PromoteLeft(c))
  {
    var l := c.left;
    var demoted := c.(left := l.right);
    var up := [RightOf(l.left, l.key, l.data, l.height, l.rank)] + p;
    var q1, n1 := UpdateHeights(up, demoted);
    q, n := UpdateRanks(q1, n1);
    UpdatesCompose(up, n1, n);
    RefreshUpHead(up, n);
  }

  /** rrRotation(node): the mirror image, promoting the right child. */
  method RrRotation<K, D>(p: seq<Frame<K, D>>, c: Tree<K, D>) returns (q: seq<Frame<K, D>>, n: Tree<K, D>)
    requires c.Node? && c.right.Node?
    ensures n == Mk(c.left, c.key, c.data, c.right.left)
    ensures |q| == |p| + 1 && Attach(q[0], n) == PromoteRight(c) && q[1..] == RefreshUp(p, PromoteRight(c))
  {
    var r := c.right;
    var demoted := c.(right := r.left);
    var up := [LeftOf(r.key, r.data, r.height, r.rank, r.right)] + p;
    var q1, n1 := UpdateHeights(up, demoted);
    q, n := UpdateRanks(q1, n1);
    UpdatesCompose(up, n1, n);
    RefreshUpHead(up, n);
  }

  /** lrRotation(node): rrRotation on the left child, then llRotation on the node. */
  method LrRotation<K, D>(p: seq<Frame<K, D>>, c: Tree<K, D>) returns (q: seq<Frame<K, D>>, n: Tree<K, D>)
    requires c.Node? && c.left.Node? && c.left.right.Node?
    ensures |q| == |p| + 1 && Attach(q[0], n) == RotateLeftRight(c) && q[1..] == RefreshUp(p, RotateLeftRight(c))
  {
    var up := [LeftOf(c.key, c.data, c.height, c.rank, c.right)] + p;
    var q1, n1 := RrRotation(up, c.left);
    RefreshUpHead(up, PromoteRight(c.left));
    assert q1[1] == q1[1..][0] && q1[2..] == q1[1..][1..];
    // the node itself, two frames above the demoted left child
    var node := Attach(q1[1], Attach(q1[0], n1));
    assert node == Mk(PromoteRight(c.left), c.key, c.data, c.right);
    q, n := LlRotation(q1[2..], node);
    RefreshUpTwice(p, node, RotateLeftRight(c));
  }

  /** rlRotation(node): llRotation on the right child, then rrRotation on the node. */
  method RlRotation<K, D>(p: seq<Frame<K, D>>, c: Tree<K, D>) returns (q: seq<Frame<K, D>>, n: Tree<K, D>)
    requires c.Node? && c.right.Node? && c.right.left.Node?
    ensures |q| == |p| + 1 && Attach(q[0], n) == RotateRightLeft(c) && q[1..] == RefreshUp(p, RotateRightLeft(c))
  {
    var up := [RightOf(c.left, c.key, c.data, c.height, c.rank)] + p;
    var q1, n1 := LlRotation(up, c.right);
    RefreshUpHead(up, PromoteLeft(c.right));
    assert q1[1] == q1[1..][0] && q1[2..] == q1[1..][1..];
    var node := Attach(q1[1], Attach(q1[0], n1));
    assert node == Mk(c.left, c.key, c.data, PromoteLeft(c.right));
    q, n := RrRotation(q1[2..], node);
    RefreshUpTwice(p, node, RotateRightLeft(c));
  }

  /*
   * ---------------------------------------------------------------------
   * balance
   * ---------------------------------------------------------------------
   */

  /** A node the balance step leaves alone: its cached balance factor is in [-1, 1]. */
  predicate Calm<K, D>(t: Tree<K, D>) {
    -1 <= Bf(t) <= 1
  }

  /** The rotation balance applies at one node (none at a null pointer). */
  function FixAny<K, D>(t: Tree<K, D>): (r: Tree<K, D>)
    requires CachesOk(t)
    ensures CachesOk(r) && Elements(r) == Elements(t) && Keys(r) == Keys(t)
  {
    if t.Leaf? then t
    else
      FixCaches(t);
      Fix(t)
  }

  lemma CalmFix<K, D>(t: Tree<K, D>)
    requires CachesOk(t) && Calm(t)
    ensures FixAny(t) == t
  {
  }

  /**
   * The subtree reached at the top of the path when, level by level, each
   * node is rotated as balance would and its parent's caches are then
   * recomputed from its children.
   */
  function Lift<K, D>(p: seq<Frame<K, D>>, c: Tree<K, D>): (r: Tree<K, D>)
    requires CachesOk(c) && SiblingsOk(p)
    ensures CachesOk(r)
    decreases |p|
  {
    if |p| == 0 then c
    else
      SiblingsTail(p);
      Lift(p[1..], Refresh(Attach(p[0], FixAny(c))))
  }

  /** The whole tree once the walk from the focus has rotated every level up to the root. */
  function BalanceUp<K, D>(p: seq<Frame<K, D>>, c: Tree<K, D>): (r: Tree<K, D>)
    requires CachesOk(c) && SiblingsOk(p)
    ensures CachesOk(r)
  {
    FixAny(Lift(p, c))
  }

  /**
   * At every level of the walk one rotation leaves the node in balance,
   * so the second look balance takes at the promoted node finds nothing
   * to do there. Insertion and deletion establish this.
   */
  ghost predicate Settles<K, D>(p: seq<Frame<K, D>>, c: Tree<K, D>)
    requires CachesOk(c) && SiblingsOk(p)
    decreases |p|
  {
    Calm(FixAny(c))
    && (|p| > 0 ==> (SiblingsTail(p); Settles(p[1..], Refresh(Attach(p[0], FixAny(c))))))
  }

  /** Only the rotation at the focus matters to the walk, not the focus itself. */
  lemma SameFix<K, D>(p: seq<Frame<K, D>>, c: Tree<K, D>, c': Tree<K, D>)
    requires CachesOk(c) && CachesOk(c') && SiblingsOk(p) && FixAny(c) == FixAny(c')
    ensures BalanceUp(p, c) == BalanceUp(p, c') && Settles(p, c) == Settles(p, c')
  {
  }

  /** The walk reads the path's keys, data and siblings, never the caches on it. */
  lemma {:induction false} RefreshUpInvisible<K, D>(p: seq<Frame<K, D>>, x: Tree<K, D>, c: Tree<K, D>)
    requires CachesOk(c) && SiblingsOk(p)
    ensures SiblingsOk(RefreshUp(p, x))
    ensures Lift(RefreshUp(p, x), c) == Lift(p, c) && Settles(RefreshUp(p, x), c) == Settles(p, c)
    decreases |p|
  {
    RefreshUpSiblings(p, x);
    if |p| > 0 {
      RefreshUpHead(p, x);
      SiblingsTail(p);
      var q := RefreshUp(p, x);
      var b := FixAny(c);
      assert Refresh(Attach(q[0], b)) == Refresh(Attach(p[0], b));
      RefreshUpInvisible(p[1..], Refresh(Attach(p[0], x)), Refresh(Attach(p[0], b)));
    }
  }

  /** After a rotation at the focus the walk goes on from the promoted node, at the same level. */
  lemma RotatedStep<K, D>(p: seq<Frame<K, D>>, c: Tree<K, D>)
    requires c.Node? && CachesOk(c) && SiblingsOk(p) && Settles(p, c) && !Calm(c)
    ensures var f := Fix(c); var q := RefreshUp(p, f);
      f.Node? && CachesOk(f) && Calm(f) && SiblingsOk(q) && q == RefreshUp(q, f)
      && Settles(q, f) && BalanceUp(q, f) == BalanceUp(p, c)
  {
    var f := Fix(c);
    FixCaches(c);
    assert FixAny(c) == f;
    assert f.Node?;
    CalmFix(f);
    SameFix(p, c, f);
    RefreshUpInvisible(p, f, f);
    RefreshUpTwice(p, f, f);
  }

  /** Without a rotation the walk moves to the parent, whose caches are already recomputed. */
  lemma CalmStep<K, D>(p: seq<Frame<K, D>>, c: Tree<K, D>)
    requires c.Node? && CachesOk(c) && SiblingsOk(p) && p == RefreshUp(p, c) && Settles(p, c) && Calm(c)
    requires |p| > 0
    ensures var a := Attach(p[0], c);
      a.Node? && CachesOk(a) && SiblingsOk(p[1..]) && p[1..] == RefreshUp(p[1..], a)
      && Settles(p[1..], a) && BalanceUp(p[1..], a) == BalanceUp(p, c)
  {
    CalmFix(c);
    RefreshUpHead(p, c);
    SiblingsTail(p);
    assert Attach(p[0], c) == Refresh(Attach(p[0], c));
  }

  /**
   * balance(node): a node two levels out of balance is rotated (ll or lr
   * when left-heavy, by its left child's factor; rl or rr when right-heavy,
   * by its right child's factor), then balance carries on at the node's
   * parent, up to the root. After a rotation that parent is the promoted
   * node, so the same level is looked at once more. The result is the new
   * root: the tree the walk computes level by level.
   */
  method Balance<K, D>(p0: seq<Frame<K, D>>, c0: Tree<K, D>) returns (t: Tree<K, D>)
    requires c0.Node? && CachesOk(c0) && SiblingsOk(p0) && p0 == RefreshUp(p0, c0) && Settles(p0, c0)
    ensures t == BalanceUp(p0, c0)
  {
    var p, c := p0, c0;
    while true
      invariant c.Node? && CachesOk(c) && SiblingsOk(p) && p == RefreshUp(p, c) && Settles(p, c)
      invariant BalanceUp(p, c) == BalanceUp(p0, c0)
      decreases 2 * |p| + if Calm(c) then 0 else 1
    {
      ghost var p1, c1 := p, c;
      var rotated := false;
      CachedHeight(c.left);
      CachedHeight(c.right);
      if Bf(c) >= 2 {
        CachedHeight(c.left.left);
        if Bf(c.left) >= 0 {
          p, c := LlRotation(p, c);
        } else {
          p, c := LrRotation(p, c);
        }
        rotated := true;
      } else if Bf(c) <= -2 {
        CachedHeight(c.right.right);
        if Bf(c.right) > 0 {
          p, c := RlRotation(p, c);
        } else {
          p, c := RrRotation(p, c);
        }
        rotated := true;
      }
      if rotated {
        assert Attach(p[0], c) == Fix(c1) && p[1..] == RefreshUp(p1, Fix(c1));
        RotatedStep(p1, c1);
      }
      if |p| == 0 {
        CalmFix(c);
        return c;
      }
      if !rotated {
        CalmStep(p, c);
      }
      p, c := p[1..], Attach(p[0], c);
    }
  }

  /*
   * ---------------------------------------------------------------------
   * The walk after insertion and deletion
   * ---------------------------------------------------------------------
   */

  /** The search for `k` went left at every `LeftOf` ancestor and right at every `RightOf` one. */
  ghost predicate KeyPath<K, D>(p: seq<Frame<K, D>>, k: K, lt: (K, K) -> bool) {
    forall i :: 0 <= i < |p| ==> if p[i].LeftOf? then lt(k, p[i].key) else lt(p[i].key, k)
  }

  /** Dropping the parent frame keeps the search direction of the others. */
  lemma KeyPathTail<K, D>(p: seq<Frame<K, D>>, k: K, lt: (K, K) -> bool)
    requires |p| > 0 && KeyPath(p, k, lt)
    ensures KeyPath(p[1..], k, lt)
    ensures if p[0].LeftOf? then lt(k, p[0].key) else lt(p[0].key, k)
  {
    forall i | 0 <= i < |p| - 1
      ensures if p[1..][i].LeftOf? then lt(k, p[1..][i].key) else lt(p[1..][i].key, k)
    {
      assert p[1..][i] == p[i + 1];
    }
  }

  /** Below the root of a valid tree every subtree and every sibling is valid. */
  lemma {:induction false} PlugValid<K(!new), D>(p: seq<Frame<K, D>>, t: Tree<K, D>, lt: (K, K) -> bool)
    requires Valid(Plug(p, t), lt)
    ensures Valid(t, lt) && SiblingsOk(p)
    ensures |p| > 0 ==> Valid(Attach(p[0], t), lt)
    decreases |p|
  {
    if |p| > 0 {
      var a := Attach(p[0], t);
      PlugValid(p[1..], a, lt);
      assert CachesOk(Sibling(p[0]));
      forall i | 0 <= i < |p| ensures CachesOk(Sibling(p[i])) {
        if i > 0 {
          assert p[i] == p[1..][i - 1];
        }
      }
    }
  }

  /** Every key of the focus lies on the side of each ancestor that the path takes. */
  lemma {:induction false} PlugKeyPath<K(!new), D>(p: seq<Frame<K, D>>, t: Tree<K, D>, x: K, lt: (K, K) -> bool)
    requires Bst(Plug(p, t), lt) && x in Keys(t)
    ensures KeyPath(p, x, lt)
    decreases |p|
  {
    if |p| > 0 {
      var a := Attach(p[0], t);
      PlugBst(p, t, lt);
      assert x in Keys(a);
      PlugKeyPath(p[1..], a, x, lt);
      forall i | 0 <= i < |p| ensures if p[i].LeftOf? then lt(x, p[i].key) else lt(p[i].key, x) {
        if i > 0 {
          assert p[i] == p[1..][i - 1];
        }
      }
    }
  }

  /** A valid tree is never two levels out of balance. */
  lemma ValidCalm<K(!new), D>(t: Tree<K, D>, lt: (K, K) -> bool)
    requires Valid(t, lt)
    ensures Calm(t) && FixAny(t) == t
  {
    if t.Node? {
      CachedHeight(t.left);
      CachedHeight(t.right);
    }
  }

  /**
   * After an insertion at the focus the walk up to the root does for the
   * whole tree what a recursive insertion does: with `o` the subtree before
   * and `c` after the new node went in, every level calms after one
   * rotation and the result is the whole tree with the key inserted.
   */
  lemma {:induction false} ClimbInserted<K(!new), D>(p: seq<Frame<K, D>>, o: Tree<K, D>, c: Tree<K, D>, k: K, d: D, lt: (K, K) -> bool)
    requires StrictTotalOrder(lt) && Valid(Plug(p, o), lt) && KeyPath(p, k, lt)
    requires CachesOk(c) && RankTree.Inserted(o, FixAny(c), k, d, lt)
    ensures SiblingsOk(p) && Settles(p, c) && RankTree.Inserted(Plug(p, o), BalanceUp(p, c), k, d, lt)
    decreases |p|
  {
    PlugValid(p, o, lt);
    var b := FixAny(c);
    ValidCalm(b, lt);
    if |p| > 0 {
      SiblingsTail(p);
      KeyPathTail(p, k, lt);
      var t := Attach(p[0], o);
      var c1 := Refresh(Attach(p[0], b));
      if p[0].RightOf? {
        assert t.(right := b) == Attach(p[0], b);
        RankTree.InsertedRight(t, b, k, d, lt);
      } else {
        assert t.(left := b) == Attach(p[0], b);
        RankTree.InsertedLeft(t, b, k, d, lt);
      }
      ClimbInserted(p[1..], t, c1, k, d, lt);
    }
  }

  /** The same for a deletion at the focus: the whole tree loses the key. */
  lemma {:induction false} ClimbRemoved<K(!new), D>(p: seq<Frame<K, D>>, o: Tree<K, D>, c: Tree<K, D>, k: K, lt: (K, K) -> bool)
    requires StrictTotalOrder(lt) && Valid(Plug(p, o), lt) && KeyPath(p, k, lt)
    requires CachesOk(c) && RankTree.Removed(o, FixAny(c), k, lt)
    ensures SiblingsOk(p) && Settles(p, c) && RankTree.Removed(Plug(p, o), BalanceUp(p, c), k, lt)
    decreases |p|
  {
    PlugValid(p, o, lt);
    var b := FixAny(c);
    ValidCalm(b, lt);
    if |p| > 0 {
      SiblingsTail(p);
      KeyPathTail(p, k, lt);
      var t := Attach(p[0], o);
      var c1 := Refresh(Attach(p[0], b));
      if p[0].RightOf? {
        assert t.(right := b) == Attach(p[0], b);
        RankTree.RemovedRight(t, b, k, lt);
      } else {
        assert t.(left := b) == Attach(p[0], b);
        RankTree.RemovedLeft(t, b, k, lt);
      }
      ClimbRemoved(p[1..], t, c1, k, lt);
    }
  }

  /** Walking a path made of two pieces is walking one and then the other. */
  lemma {:induction false} LiftAppend<K, D>(a: seq<Frame<K, D>>, b: seq<Frame<K, D>>, x: Tree<K, D>)
    requires CachesOk(x) && SiblingsOk(a) && SiblingsOk(b)
    ensures SiblingsOk(a + b) && Lift(a + b, x) == Lift(b, Lift(a, x))
    ensures Settles(a, x) && Settles(b, Lift(a, x)) ==> Settles(a + b, x)
    decreases |a|
  {
    assert forall i :: 0 <= i < |a + b| ==> (a + b)[i] == if i < |a| then a[i] else b[i - |a|];
    if |a| == 0 {
      assert a + b == b;
    } else {
      SiblingsTail(a);
      assert (a + b)[0] == a[0] && (a + b)[1..] == a[1..] + b;
      LiftAppend(a[1..], b, Refresh(Attach(a[0], FixAny(x))));
    }
  }

  /*
   * ---------------------------------------------------------------------
   * RemoveNode's cases
   * ---------------------------------------------------------------------
   */

  /** The subtree that takes the place of a node with at most one child. */
  function Splice<K, D>(t: Tree<K, D>): (r: Tree<K, D>)
    requires t.Node?
    ensures t.left.Leaf? ==> r == t.right
    ensures t.right.Leaf? ==> r == t.left
  {
    if t.left.Leaf? then t.right else t.left
  }

  /** Splicing out a node with at most one child removes exactly its key. */
  lemma SplicedRemoved<K(!new), D>(t: Tree<K, D>, lt: (K, K) -> bool)
    requires StrictTotalOrder(lt) && t.Node? && Valid(t, lt) && (t.left.Leaf? || t.right.Leaf?)
    ensures RankTree.Removed(t, Splice(t), t.key, lt)
  {
    RankTree.ElementsWithoutRoot(t, lt);
    RankTree.KeysWithoutRoot(t, lt);
    ElementsSize(t);
    ElementsSize(t.left);
    ElementsSize(t.right);
  }

  /**
   * A node with two children takes the key and data of its in-order
   * successor, the leftmost node of its right subtree, and that pair is
   * removed from the right subtree: the node's own key is gone.
   */
  lemma DeletedWithSuccessor<K(!new), D>(t: Tree<K, D>, r: Tree<K, D>, lt: (K, K) -> bool)
    requires StrictTotalOrder(lt) && t.Node? && t.right.Node? && Valid(t, lt)
    requires RankTree.Removed(t.right, r, Leftmost(t.right).key, lt)
    ensures var m := Leftmost(t.right);
      RankTree.Removed(t, FixAny(Mk(t.left, m.key, m.data, r)), t.key, lt)
  {
    var m := Leftmost(t.right);
    var u := Mk(t.left, m.key, m.data, r);
    var v := FixAny(u);
    LeftmostLeast(t.right, lt);
    assert lt(t.key, m.key);
    forall x | x in Keys(t.left) ensures lt(x, m.key) {
      assert lt(x, t.key);
    }
    forall x | x in Keys(r) ensures lt(m.key, x) {
      assert x in Keys(t.right) && x != m.key;
    }
    ShrankRight(t, r, m.key, m.data, lt);
    assert Valid(v, lt) && Shrunk(v, Height(t)) && Size(v) == Size(t.left) + 1 + Size(r);
    RankTree.KeysWithoutRoot(t, lt);
    SwapKeys(Keys(t.left), Keys(t.right), Keys(r), m.key);
    assert Keys(v) == Keys(t) - {t.key};
    RankTree.ElementsWithoutRoot(t, lt);
    LeftmostRemoved(t.right, lt);
    var a, e, b := Elements(t.left), (m.key, m.data), Elements(r);
    assert Elements(u) == a + [e] + b;
    SwapPair(a, e, b, Elements(t.right));
    assert Elements(v) == RemoveKey(Elements(t), t.key);
  }

  lemma SwapKeys<K>(a: set<K>, b: set<K>, c: set<K>, x: K)
    requires x in b && c == b - {x}
    ensures a + {x} + c == a + b
  {
  }

  lemma SwapPair<K, D>(a: seq<(K, D)>, e: (K, D), b: seq<(K, D)>, c: seq<(K, D)>)
    requires c == [e] + b
    ensures a + [e] + b == a + c
  {
  }

  /** A search tree's pairs are its leftmost pair followed by the pairs without that key. */
  lemma LeftmostRemoved<K(!new), D>(t: Tree<K, D>, lt: (K, K) -> bool)
    requires StrictTotalOrder(lt) && t.Node? && Bst(t, lt)
    ensures var m := Leftmost(t);
      Elements(t) == [(m.key, m.data)] + RemoveKey(Elements(t), m.key)
  {
    var e := Elements(t);
    BstSorted(t, lt);
    forall i | 0 <= i < |e[1..]| ensures e[1..][i].0 != e[0].0 {
      assert e[1..][i] == e[i + 1];
      Asymmetric(lt, e[0].0, e[i + 1].0);
    }
    assert e == [] + [e[0]] + e[1..];
    RemoveKeyMiddle([], e[0], e[1..]);
  }

  /** Going left all the way down from the focus reaches the leftmost node of the whole subtree. */
  predicate AllLeftOf<K, D>(q: seq<Frame<K, D>>) {
    forall i :: 0 <= i < |q| ==> q[i].LeftOf?
  }

  lemma {:induction false} PlugLeftmost<K, D>(q: seq<Frame<K, D>>, t: Tree<K, D>)
    requires AllLeftOf(q) && t.Node?
    ensures Plug(q, t).Node? && Leftmost(Plug(q, t)) == Leftmost(t)
    decreases |q|
  {
    if |q| > 0 {
      assert AllLeftOf(q[1..]) by {
        forall i | 0 <= i < |q| - 1 ensures q[1..][i].LeftOf? {
          assert q[1..][i] == q[i + 1];
        }
      }
      PlugLeftmost(q[1..], Attach(q[0], t));
    }
  }

  /** Every key of the focus is a key of the whole tree. */
  lemma {:induction false} PlugKeys<K, D>(p: seq<Frame<K, D>>, t: Tree<K, D>)
    ensures Keys(t) <= Keys(Plug(p, t))
    decreases |p|
  {
    if |p| > 0 {
      PlugKeys(p[1..], Attach(p[0], t));
    }
  }

  /**
   * RemoveNode on a node with at most one child: its parent points to its
   * child (or to null) and the walk from the parent removes exactly the
   * node's key from the whole tree.
   */
  lemma SplicedClimb<K(!new), D>(p: seq<Frame<K, D>>, c: Tree<K, D>, lt: (K, K) -> bool)
    requires StrictTotalOrder(lt) && Valid(Plug(p, c), lt) && c.Node? && (c.left.Leaf? || c.right.Leaf?)
    ensures SiblingsOk(p) && CachesOk(Splice(c)) && Calm(Splice(c)) && Settles(p, Splice(c))
    ensures RankTree.Removed(Plug(p, c), BalanceUp(p, Splice(c)), c.key, lt)
  {
    PlugValid(p, c, lt);
    PlugKeyPath(p, c, c.key, lt);
    SplicedRemoved(c, lt);
    ValidCalm(Splice(c), lt);
    ClimbRemoved(p, c, Splice(c), c.key, lt);
  }

  /**
   * RemoveNode on a node with two children: `m`, reached by going left
   * from the right child along `q`, is the successor. After the key and
   * data swap the node's frame holds the successor's pair, and splicing
   * out the successor's node and walking up from its parent removes the
   * node's original key from the whole tree.
   */
  lemma SuccessorClimb<K(!new), D>(p: seq<Frame<K, D>>, c: Tree<K, D>, q: seq<Frame<K, D>>, m: Tree<K, D>, lt: (K, K) -> bool)
    requires StrictTotalOrder(lt) && Valid(Plug(p, c), lt) && c.Node? && c.right.Node?
    requires AllLeftOf(q) && m.Node? && m.left.Leaf? && Plug(q, m) == c.right
    ensures var path := q + [RightOf(c.left, m.key, m.data, c.height, c.rank)] + p;
      SiblingsOk(path) && CachesOk(m.right) && Calm(m.right) && Settles(path, m.right)
      && RankTree.Removed(Plug(p, c), BalanceUp(path, m.right), c.key, lt)
  {
    PlugValid(p, c, lt);
    PlugKeyPath(p, c, c.key, lt);
    SuccessorRemoved(c, q, m, lt);
    var r := BalanceUp(q, m.right);
    var y := Mk(c.left, m.key, m.data, r);
    ClimbRemoved(p, c, y, c.key, lt);
    ValidCalm(r, lt);
    SplitWalk(q, RightOf(c.left, m.key, m.data, c.height, c.rank), p, m.right, y);
  }

  /** Removing the successor from the right subtree, and the node then holding its pair. */
  lemma SuccessorRemoved<K(!new), D>(c: Tree<K, D>, q: seq<Frame<K, D>>, m: Tree<K, D>, lt: (K, K) -> bool)
    requires StrictTotalOrder(lt) && Valid(c, lt) && c.Node? && c.right.Node?
    requires AllLeftOf(q) && m.Node? && m.left.Leaf? && Plug(q, m) == c.right
    ensures SiblingsOk(q) && CachesOk(m.right) && Calm(m.right) && Settles(q, m.right)
    ensures var r := BalanceUp(q, m.right);
      Valid(r, lt) && CachesOk(Mk(c.left, m.key, m.data, r))
      && RankTree.Removed(c, FixAny(Mk(c.left, m.key, m.data, r)), c.key, lt)
  {
    PlugValid(q, m, lt);
    PlugLeftmost(q, m);
    PlugKeyPath(q, m, m.key, lt);
    SplicedRemoved(m, lt);
    ValidCalm(m.right, lt);
    ClimbRemoved(q, m, m.right, m.key, lt);
    var r := BalanceUp(q, m.right);
    DeletedWithSuccessor(c, r, lt);
    MkMeasures(c.left, m.key, m.data, r);
  }

  /** The walk from below the frame `f` up through it is the walk along `q`, then one step, then `p`. */
  lemma SplitWalk<K, D>(q: seq<Frame<K, D>>, f: Frame<K, D>, p: seq<Frame<K, D>>, x: Tree<K, D>, y: Tree<K, D>)
    requires CachesOk(x) && SiblingsOk(q) && SiblingsOk(p) && CachesOk(Sibling(f))
    requires Settles(q, x) && Calm(FixAny(Lift(q, x)))
    requires y == Refresh(Attach(f, FixAny(Lift(q, x)))) && Settles(p, y)
    ensures SiblingsOk(q + [f] + p) && Settles(q + [f] + p, x) && BalanceUp(q + [f] + p, x) == BalanceUp(p, y)
  {
    var fp := [f] + p;
    assert fp[0] == f && fp[1..] == p;
    assert SiblingsOk(fp) by {
      forall i | 0 <= i < |fp| ensures CachesOk(Sibling(fp[i])) {
        if i > 0 {
          assert fp[i] == p[i - 1];
        }
      }
    }
    var l := Lift(q, x);
    assert Lift(fp, l) == Lift(p, y);
    assert Settles(fp, l);
    LiftAppend(q, fp, x);
    assert q + [f] + p == q + fp;
  }

  /**
   * updateHeights(node), updateRanks(node), balance(node): the caches of
   * the node and of every ancestor are recomputed, then balance walks up
   * from the node. The result is the new root.
   */
  method Climb<K, D>(p: seq<Frame<K, D>>, x: Tree<K, D>) returns (t: Tree<K, D>)
    requires x.Node? && CachesOk(x.left) && CachesOk(x.right) && SiblingsOk(p) && Settles(p, Refresh(x))
    ensures t == BalanceUp(p, Refresh(x))
  {
    var q1, n1 := UpdateHeights(p, x);
    var q, n := UpdateRanks(q1, n1);
    UpdatesCompose(p, n1, n);
    assert n == Refresh(x);
    RefreshUpInvisible(p, n, n);
    RefreshUpTwice(p, n, n);
    t := Balance(q, n);
  }

  /**
   * ParentPointTo(node, x) and then the walk from the parent: the parent's
   * new child is `x`; the result is the new root.
   */
  method Relink<K, D>(p: seq<Frame<K, D>>, x: Tree<K, D>) returns (t: Tree<K, D>)
    requires |p| > 0 && CachesOk(x) && Calm(x) && SiblingsOk(p) && Settles(p, x)
    ensures t == BalanceUp(p, x)
  {
    SiblingsTail(p);
    CalmFix(x);
    t := Climb(p[1..], Attach(p[0], x));
  }

  /*
   * ---------------------------------------------------------------------
   * Going down from the root
   * ---------------------------------------------------------------------
   */

  /** The frame left behind when the walk moves from `c` to its left or right child. */
  function Down<K, D>(c: Tree<K, D>, left: bool): (f: Frame<K, D>)
    requires c.Node?
    ensures f.key == c.key && f.LeftOf? == left
    ensures Attach(f, if left then c.left else c.right) == c
  {
    if left then LeftOf(c.key, c.data, c.height, c.rank, c.right)
    else RightOf(c.left, c.key, c.data, c.height, c.rank)
  }

  /**
   * One step of a search for `k` from the focus `c`: the whole tree and the
   * direction of the search are kept, and `k` is in the whole tree exactly
   * when it is in the child the search moves to.
   */
  lemma StepDown<K(!new), D>(p: seq<Frame<K, D>>, c: Tree<K, D>, k: K, left: bool, lt: (K, K) -> bool)
    requires StrictTotalOrder(lt) && c.Node? && Bst(Plug(p, c), lt) && KeyPath(p, k, lt)
    requires if left then lt(k, c.key) else lt(c.key, k)
    ensures var f := Down(c, left); var n := if left then c.left else c.right;
      Plug([f] + p, n) == Plug(p, c) && KeyPath([f] + p, k, lt)
      && (k in Keys(c) <==> k in Keys(n))
  {
    var f := Down(c, left);
    var fp := [f] + p;
    assert fp[0] == f && fp[1..] == p;
    forall i | 0 <= i < |fp| ensures if fp[i].LeftOf? then lt(k, fp[i].key) else lt(fp[i].key, k) {
      if i > 0 {
        assert fp[i] == p[i - 1];
      }
    }
    PlugBst(p, c, lt);
    if left {
      KeysBelow(c, k, lt);
    } else {
      KeysAbove(c, k, lt);
    }
  }

  /** The smallest node: null for the empty tree, otherwise the leftmost node. */
  function MinNode<K, D>(t: Tree<K, D>): Tree<K, D> {
    if t.Leaf? then Leaf else Leftmost(t)
  }

  /*
   * ---------------------------------------------------------------------
   * Counting keys (findLeftest, getInRange)
   * ---------------------------------------------------------------------
   */

  /** How many pairs of `s` have a key that satisfies `p`. */
  function CountKeys<K, D>(s: seq<(K, D)>, p: K -> bool): (n: nat)
    ensures n <= |s|
    decreases |s|
  {
    if |s| == 0 then 0 else (if p(s[0].0) then 1 else 0) + CountKeys(s[1..], p)
  }

  /** Keys not above `k`: `key <= k`. */
  function AtMost<K>(k: K, lt: (K, K) -> bool): K -> bool {
    x => !lt(k, x)
  }

  /** Keys between `lo` and `hi`, both included. */
  function Between<K>(lo: K, hi: K, lt: (K, K) -> bool): K -> bool {
    x => !lt(x, lo) && !lt(hi, x)
  }

  lemma {:induction false} CountKeysAppend<K, D>(a: seq<(K, D)>, b: seq<(K, D)>, p: K -> bool)
    ensures CountKeys(a + b, p) == CountKeys(a, p) + CountKeys(b, p)
    decreases |a|
  {
    if |a| == 0 {
      assert a + b == b;
    } else {
      assert (a + b)[0] == a[0] && (a + b)[1..] == a[1..] + b;
      CountKeysAppend(a[1..], b, p);
    }
  }

  /** A node's count is its children's counts plus its own key's. */
  lemma CountNode<K, D>(t: Tree<K, D>, p: K -> bool)
    requires t.Node?
    ensures CountKeys(Elements(t), p)
      == CountKeys(Elements(t.left), p) + (if p(t.key) then 1 else 0) + CountKeys(Elements(t.right), p)
  {
    CountKeysAppend(Elements(t.left) + [(t.key, t.data)], Elements(t.right), p);
    CountKeysAppend(Elements(t.left), [(t.key, t.data)], p);
    assert [(t.key, t.data)][1..] == [];
  }

  /** A tree whose keys all satisfy `p`, or none of them, counts all its pairs or none. */
  lemma {:induction false} CountTree<K, D>(t: Tree<K, D>, p: K -> bool, all: bool)
    requires forall x :: x in Keys(t) ==> p(x) == all
    ensures CountKeys(Elements(t), p) == if all then Size(t) else 0
    decreases t
  {
    if t.Node? {
      CountNode(t, p);
      CountTree(t.left, p, all);
      CountTree(t.right, p, all);
    }
  }

  /**
   * The node findClosestParentOf stops at holds the key, or lies above it
   * with no left child, or below it with no right child: its keys not above
   * `k` are itself and its left subtree when its key is not above `k`, and
   * none otherwise.
   */
  lemma ClosestCount<K(!new), D>(c: Tree<K, D>, k: K, lt: (K, K) -> bool)
    requires StrictTotalOrder(lt) && Bst(c, lt) && c.Node?
    requires c.key == k || (lt(k, c.key) && c.left.Leaf?) || (lt(c.key, k) && c.right.Leaf?)
    ensures CountKeys(Elements(c), AtMost(k, lt)) == if lt(c.key, k) || c.key == k then 1 + Size(c.left) else 0
  {
    var p := AtMost(k, lt);
    CountNode(c, p);
    Asymmetric(lt, c.key, k);
    if lt(c.key, k) || c.key == k {
      forall x | x in Keys(c.left) ensures p(x) == true {
        assert lt(x, c.key);
      }
      CountTree(c.left, p, true);
      if c.key == k {
        forall x | x in Keys(c.right) ensures p(x) == false {
          assert lt(c.key, x);
        }
      }
      CountTree(c.right, p, false);
    } else {
      forall x | x in Keys(c.right) ensures p(x) == false {
        assert lt(c.key, x);
      }
      CountTree(c.left, p, false);
      CountTree(c.right, p, false);
    }
  }

  /**
   * One step up in findLeftest: coming from a left child adds nothing,
   * coming from a right child adds the parent and its left subtree.
   */
  lemma StepCount<K(!new), D>(f: Frame<K, D>, c: Tree<K, D>, k: K, lt: (K, K) -> bool)
    requires StrictTotalOrder(lt) && Bst(Attach(f, c), lt)
    requires if f.LeftOf? then lt(k, f.key) else lt(f.key, k)
    ensures CountKeys(Elements(Attach(f, c)), AtMost(k, lt))
      == CountKeys(Elements(c), AtMost(k, lt)) + if f.RightOf? then 1 + Size(f.left) else 0
  {
    var a := Attach(f, c);
    var p := AtMost(k, lt);
    CountNode(a, p);
    Asymmetric(lt, a.key, k);
    if f.LeftOf? {
      forall x | x in Keys(a.right) ensures p(x) == false {
        assert lt(a.key, x);
      }
      CountTree(a.right, p, false);
    } else {
      forall x | x in Keys(a.left) ensures p(x) == true {
        assert lt(x, a.key);
      }
      CountTree(a.left, p, true);
    }
  }

  /**
   * getInRange's arithmetic: the keys in [min, max] are those not above
   * max, less those not above min, plus min itself when present.
   */
  lemma {:induction false} RangeCount<K(!new), D>(t: Tree<K, D>, lo: K, hi: K, lt: (K, K) -> bool)
    requires StrictTotalOrder(lt) && Bst(t, lt) && lt(lo, hi)
    ensures CountKeys(Elements(t), Between(lo, hi, lt))
      == CountKeys(Elements(t), AtMost(hi, lt)) - CountKeys(Elements(t), AtMost(lo, lt)) + if lo in Keys(t) then 1 else 0
    decreases t
  {
    if t.Node? {
      RangeCount(t.left, lo, hi, lt);
      RangeCount(t.right, lo, hi, lt);
      CountNode(t, Between(lo, hi, lt));
      CountNode(t, AtMost(hi, lt));
      CountNode(t, AtMost(lo, lt));
      Asymmetric(lt, lo, t.key);
      Asymmetric(lt, hi, t.key);
      if lo in Keys(t.left) {
        assert lt(lo, t.key);
        forall x | x in Keys(t.right) ensures x != lo {
          assert lt(t.key, x);
        }
      } else if lo in Keys(t.right) {
        assert lt(t.key, lo);
      }
    }
  }

  /*
   * ---------------------------------------------------------------------
   * LoadSortedArray
   * ---------------------------------------------------------------------
   */

  /** The pairs of two parallel arrays. */
  function Pairs<K, D>(keys: seq<K>, data: seq<D>): (s: seq<(K, D)>)
    requires |keys| == |data|
    ensures |s| == |keys| && forall i :: 0 <= i < |s| ==> s[i] == (keys[i], data[i])
  {
    seq(|keys|, i requires 0 <= i < |keys| => (keys[i], data[i]))
  }

  /** The number of binary digits of `n`: the height of the tree LoadSortedArray2 builds from `n` pairs. */
  function Bits(n: nat): nat {
    if n == 0 then 0 else 1 + Bits(n / 2)
  }

  lemma {:induction false} BitsMonotone(a: nat, b: nat)
    requires a <= b
    ensures Bits(a) <= Bits(b)
    decreases b
  {
    if a > 0 {
      BitsMonotone(a / 2, b / 2);
    }
  }

  lemma {:induction false} BitsPredecessor(m: nat)
    requires m >= 1
    ensures Bits(m - 1) + 1 >= Bits(m)
    decreases m
  {
    if m >= 2 && m % 2 == 0 {
      BitsPredecessor(m / 2);
      assert (m - 1) / 2 == m / 2 - 1;
    }
  }

  /** The halves LoadSortedArray2 splits `n` pairs into differ in height by at most one. */
  lemma BitsSplit(n: nat)
    requires n >= 1
    ensures Bits(n - n / 2 - 1) <= Bits(n / 2) <= Bits(n - n / 2 - 1) + 1
    ensures Bits(n) == 1 + Bits(n / 2)
  {
    var m := n / 2;
    BitsMonotone(n - m - 1, m);
    if m >= 1 {
      BitsPredecessor(m);
      BitsMonotone(m - 1, n - m - 1);
    }
  }

  /**
   * The height LoadSortedArray2 gives the new node: 1 without children,
   * the child's height plus 1 with one child, and the larger child height
   * plus 1 with two. This is the intended rule; HeightAsWritten is the
   * code's.
   */
  function LoadHeight<K, D>(l: Tree<K, D>, r: Tree<K, D>): (h: int)
    ensures H(l) >= 0 && H(r) >= 0 ==> h == 1 + Max(H(l), H(r))
  {
    if l.Leaf? && r.Leaf? then 1
    else if l.Leaf? then H(r) + 1
    else if r.Leaf? then H(l) + 1
    else if H(l) > H(r) then H(l) + 1 else H(r) + 1
  }

  /** LoadSortedArray2's height as written: with two children the larger child height, without the 1. */
  function HeightAsWritten<K, D>(l: Tree<K, D>, r: Tree<K, D>): (h: int)
    ensures l.Node? && r.Node? ==> h == LoadHeight(l, r) - 1
    ensures l.Leaf? || r.Leaf? ==> h == LoadHeight(l, r)
  {
    if l.Leaf? && r.Leaf? then 1
    else if l.Leaf? then H(r) + 1
    else if r.Leaf? then H(l) + 1
    else if H(l) > H(r) then H(l) else H(r)
  }

  /**
   * LoadSortedArray2(keys, data, length, parent): the pair at length / 2
   * becomes the node, the pairs before it the left subtree and the pairs
   * after it the right subtree. Ranks are left for setAllRanks (zero here).
   * The tree holds the pairs in order, has consistent heights, is balanced
   * and is as high as `length` has binary digits.
   */
  function Build<K, D>(keys: seq<K>, data: seq<D>): (t: Tree<K, D>)
    requires |keys| == |data|
    ensures Elements(t) == Pairs(keys, data)
    decreases |keys|
  {
    if |keys| == 0 then Leaf
    else
      var pos := |keys| / 2;
      var l := Build(keys[..pos], data[..pos]);
      var r := Build(keys[pos + 1..], data[pos + 1..]);
      PairsSplit(keys, data);
      Node(l, keys[pos], data[pos], LoadHeight(l, r), 0, r)
  }

  /** The pairs of the two arrays are those before the middle, the middle one, and those after it. */
  lemma PairsSplit<K, D>(keys: seq<K>, data: seq<D>)
    requires |keys| == |data| && |keys| > 0
    ensures var pos := |keys| / 2;
      Pairs(keys, data) == Pairs(keys[..pos], data[..pos]) + [(keys[pos], data[pos])] + Pairs(keys[pos + 1..], data[pos + 1..])
  {
  }

  /** Build's tree has consistent heights, is balanced, and is as high as its size has binary digits. */
  lemma {:induction false} BuildShape<K, D>(keys: seq<K>, data: seq<D>)
    requires |keys| == |data|
    ensures var t := Build(keys, data);
      HeightsOk(t) && Balanced(t) && Height(t) == Bits(|keys|)
    decreases |keys|
  {
    if |keys| > 0 {
      var pos := |keys| / 2;
      BuildShape(keys[..pos], data[..pos]);
      BuildShape(keys[pos + 1..], data[pos + 1..]);
      var l := Build(keys[..pos], data[..pos]);
      var r := Build(keys[pos + 1..], data[pos + 1..]);
      BitsSplit(|keys|);
      CachedHeight(l);
      CachedHeight(r);
    }
  }

  /** LoadSortedArray2 as written, with HeightAsWritten. */
  function BuildAsWritten<K, D>(keys: seq<K>, data: seq<D>): (t: Tree<K, D>)
    requires |keys| == |data|
    ensures t.Leaf? <==> |keys| == 0
    decreases |keys|
  {
    if |keys| == 0 then Leaf
    else
      var pos := |keys| / 2;
      var l := BuildAsWritten(keys[..pos], data[..pos]);
      var r := BuildAsWritten(keys[pos + 1..], data[pos + 1..]);
      Node(l, keys[pos], data[pos], HeightAsWritten(l, r), 0, r)
  }

  /** With three pairs the root is given height 1 although the tree has two levels. */
  lemma ThreeKeysHeightAsWritten<K, D>(a: K, b: K, c: K, x: D, y: D, z: D)
    ensures var t := BuildAsWritten([a, b, c], [x, y, z]);
      t.height == 1 && Height(t) == 2 && !HeightsOk(t)
  {
    assert [a, b, c][..1] == [a] && [a, b, c][2..] == [c];
    assert [x, y, z][..1] == [x] && [x, y, z][2..] == [z];
    assert [a][..0] == [] && [a][1..] == [];
    assert [x][..0] == [] && [x][1..] == [];
    assert [c][..0] == [] && [c][1..] == [];
    assert [z][..0] == [] && [z][1..] == [];
    var l, r := BuildAsWritten([a], [x]), BuildAsWritten([c], [z]);
    assert l == Node(Leaf, a, x, 1, 0, Leaf);
    assert r == Node(Leaf, c, z, 1, 0, Leaf);
    assert BuildAsWritten([a, b, c], [x, y, z]) == Node(l, b, y, 1, 0, r);
    assert Height(l) == 1 && Height(r) == 1 && H(l) == 1 && H(r) == 1;
  }

  /**
   * setAllRanks(subroot): in post-order each node's rank becomes its
   * children's ranks plus one. Keys, data, shape and heights stay.
   */
  function SetAllRanks<K, D>(t: Tree<K, D>): (u: Tree<K, D>)
    ensures RanksOk(u) && Elements(u) == Elements(t) && Keys(u) == Keys(t) && Size(u) == Size(t)
    ensures H(u) == H(t) && Height(u) == Height(t)
    ensures HeightsOk(t) ==> HeightsOk(u)
    ensures Balanced(t) ==> Balanced(u)
    decreases t
  {
    match t
    case Leaf => Leaf
    case Node(l, k, d, h, _, r) =>
      var l', r' := SetAllRanks(l), SetAllRanks(r);
      Node(l', k, d, h, R(l') + R(r') + 1, r')
  }

  lemma {:induction false} SetAllRanksBst<K(!new), D>(t: Tree<K, D>, lt: (K, K) -> bool)
    requires Bst(t, lt)
    ensures Bst(SetAllRanks(t), lt)
    decreases t
  {
    if t.Node? {
      SetAllRanksBst(t.left, lt);
      SetAllRanksBst(t.right, lt);
    }
  }

  /** Keys given in increasing order, as the check in LoadSortedArray is meant to require. */
  ghost predicate Increasing<K(!new)>(keys: seq<K>, lt: (K, K) -> bool) {
    forall i :: 0 < i < |keys| ==> lt(keys[i - 1], keys[i])
  }

  /** What the check as written lets through: no key below the one before it. */
  ghost predicate NotDecreasing<K(!new)>(keys: seq<K>, lt: (K, K) -> bool) {
    forall i :: 0 < i < |keys| ==> !lt(keys[i], keys[i - 1])
  }

  lemma {:induction false} IncreasingSorted<K(!new)>(keys: seq<K>, lt: (K, K) -> bool)
    requires Transitive(lt) && Increasing(keys, lt)
    ensures forall i, j :: 0 <= i < j < |keys| ==> lt(keys[i], keys[j])
    decreases |keys|
  {
    if |keys| > 1 {
      var init := keys[..|keys| - 1];
      assert Increasing(init, lt) by {
        forall i | 0 < i < |init| ensures lt(init[i - 1], init[i]) {
          assert init[i - 1] == keys[i - 1] && init[i] == keys[i];
        }
      }
      IncreasingSorted(init, lt);
      forall i, j | 0 <= i < j < |keys| ensures lt(keys[i], keys[j]) {
        if j < |keys| - 1 {
          assert keys[i] == init[i] && keys[j] == init[j];
        } else if i < j - 1 {
          assert keys[i] == init[i] && keys[j - 1] == init[j - 1];
          assert lt(keys[i], keys[j - 1]) && lt(keys[j - 1], keys[j]);
        }
      }
    }
  }

  /** Every key of a tree is the key of one of its pairs. */
  lemma {:induction false} KeyInElements<K, D>(t: Tree<K, D>, x: K)
    requires x in Keys(t)
    ensures exists i :: 0 <= i < |Elements(t)| && Elements(t)[i].0 == x
    decreases t
  {
    var e := Elements(t);
    ElementsSize(t.left);
    if x == t.key {
      assert e[Size(t.left)].0 == x;
    } else if x in Keys(t.left) {
      KeyInElements(t.left, x);
      var i :| 0 <= i < |Elements(t.left)| && Elements(t.left)[i].0 == x;
      assert e[i] == Elements(t.left)[i];
    } else {
      KeyInElements(t.right, x);
      var i :| 0 <= i < |Elements(t.right)| && Elements(t.right)[i].0 == x;
      assert e[Size(t.left) + 1 + i] == Elements(t.right)[i];
    }
  }

  /** A tree whose pairs come in increasing key order is a search tree (the converse of BstSorted). */
  lemma {:induction false} SortedBst<K(!new), D>(t: Tree<K, D>, lt: (K, K) -> bool)
    requires SortedKeys(Elements(t), lt)
    ensures Bst(t, lt)
    decreases t
  {
    if t.Node? {
      var e, n := Elements(t), |Elements(t.left)|;
      ElementsSize(t.left);
      assert SortedKeys(Elements(t.left), lt) by {
        forall i, j | 0 <= i < j < n ensures lt(Elements(t.left)[i].0, Elements(t.left)[j].0) {
          assert e[i] == Elements(t.left)[i] && e[j] == Elements(t.left)[j];
        }
      }
      assert SortedKeys(Elements(t.right), lt) by {
        forall i, j | 0 <= i < j < |Elements(t.right)|
          ensures lt(Elements(t.right)[i].0, Elements(t.right)[j].0)
        {
          assert e[n + 1 + i] == Elements(t.right)[i] && e[n + 1 + j] == Elements(t.right)[j];
        }
      }
      SortedBst(t.left, lt);
      SortedBst(t.right, lt);
      assert e[n] == (t.key, t.data);
      forall x | x in Keys(t.left) ensures lt(x, t.key) {
        KeyInElements(t.left, x);
        var i :| 0 <= i < n && Elements(t.left)[i].0 == x;
        assert e[i] == Elements(t.left)[i];
      }
      forall x | x in Keys(t.right) ensures lt(t.key, x) {
        KeyInElements(t.right, x);
        var i :| 0 <= i < |Elements(t.right)| && Elements(t.right)[i].0 == x;
        assert e[n + 1 + i] == Elements(t.right)[i];
      }
    }
  }

  /** LoadSortedArray's tree from increasing keys: valid, holding exactly the given pairs in order. */
  lemma LoadedValid<K(!new), D>(keys: seq<K>, data: seq<D>, lt: (K, K) -> bool)
    requires StrictTotalOrder(lt) && |keys| == |data| && Increasing(keys, lt)
    ensures var t := SetAllRanks(Build(keys, data));
      Valid(t, lt) && Elements(t) == Pairs(keys, data) && Size(t) == |keys|
  {
    IncreasingSorted(keys, lt);
    var t := Build(keys, data);
    assert SortedKeys(Elements(t), lt);
    SortedBst(t, lt);
    BuildShape(keys, data);
    SetAllRanksBst(t, lt);
    ElementsSize(t);
  }

  /** Equal keys pass the check as written, and the tree built from them is not a search tree. */
  lemma DuplicateKeysAccepted<K(!new), D>(a: K, x: D, y: D, lt: (K, K) -> bool)
    requires StrictTotalOrder(lt)
    ensures NotDecreasing([a, a], lt) && !Increasing([a, a], lt)
    ensures !Bst(Build([a, a], [x, y]), lt)
  {
    var t := Build([a, a], [x, y]);
    assert [a, a][..1] == [a] && [x, y][..1] == [x] && [a, a][2..] == [] && [x, y][2..] == [];
    assert [a][..0] == [] && [a][1..] == [] && [x][..0] == [] && [x][1..] == [];
    var l := Build([a], [x]);
    assert l == Node(Leaf, a, x, 1, 0, Leaf);
    assert t == Node(l, a, y, LoadHeight(l, Leaf), 0, Leaf);
    assert [a, a][1] == a && [a, a][0] == a && !lt(a, a);
  }

  /*
   * ---------------------------------------------------------------------
   * The tree object
   * ---------------------------------------------------------------------
   */

  /**
   * AVLRankTree<K, T>: the root, the cached smallest node and the number of
   * nodes. `lt` is the key type's `<`; its `>` is `lt` with the operands
   * swapped.
   */
  class AVLRankTree<K(==, !new), D(0)> {
    const lt: (K, K) -> bool
    var root: Tree<K, D>
    var smallest: Tree<K, D>
    var size: int

    /** A balanced search tree with consistent caches; `size` counts its nodes and `smallest` is its leftmost node. */
    ghost predicate Valid()
      reads this
    {
      StrictTotalOrder(lt) && AvlTree.Valid(root, lt) && size == Size(root) && smallest == MinNode(root)
    }

    /** AVLRankTree(): the empty tree. */
    constructor(lt: (K, K) -> bool)
      requires StrictTotalOrder(lt)
      ensures Valid() && this.lt == lt && root == Leaf
    {
      this.lt := lt;
      root := Leaf;
      smallest := Leaf;
      size := 0;
    }

    /** Reset(): the tree is emptied; the smallest pointer is cleared too. */
    method Reset()
      requires StrictTotalOrder(lt)
      modifies this
      ensures Valid() && root == Leaf
    {
      size := 0;
      root := Leaf;
      smallest := Leaf;
    }

    /** GetSize(): the number of pairs. */
    function GetSize(): (n: int)
      reads this
      requires Valid()
      ensures n == |Elements(root)|
    {
      ElementsSize(root);
      size
    }

    /** updateSmallest(): go left from the root as far as possible. */
    method UpdateSmallest()
      modifies this`smallest
      ensures smallest == MinNode(root)
    {
      var current := root;
      if current.Leaf? {
        smallest := Leaf;
        return;
      }
      while current.left.Node?
        invariant current.Node? && Leftmost(current) == Leftmost(root)
        decreases current
      {
        current := current.left;
      }
      smallest := current;
    }

    /**
     * getNode(key): go left when the key is below the node's, right
     * otherwise, until the key is met or the pointer is null. The answer
     * is a node pointer with its ancestors; it is null exactly when the
     * key is absent, and an empty position is where the search fell off.
     */
    method GetNode(k: K) returns (p: seq<Frame<K, D>>, c: Tree<K, D>)
      requires Valid()
      ensures Plug(p, c) == root && KeyPath(p, k, lt)
      ensures c.Node? <==> k in Keys(root)
      ensures c.Node? ==> c.key == k
    {
      p, c := [], root;
      while c.Node? && c.key != k
        invariant Plug(p, c) == root && KeyPath(p, k, lt)
        invariant k in Keys(root) <==> k in Keys(c)
        decreases c
      {
        var left := lt(k, c.key);
        StepDown(p, c, k, left, lt);
        p, c := [Down(c, left)] + p, if left then c.left else c.right;
      }
    }

    /** DoesExist(key): getNode does not answer null. */
    method DoesExist(k: K) returns (b: bool)
      requires Valid()
      ensures b <==> k in Keys(root)
    {
      var p, c := GetNode(k);
      b := c.Node?;
    }

    /** getByKey(key): the key's data, or KeyDoesNotExist. */
    method GetByKey(k: K) returns (r: Outcome<D>)
      requires Valid()
      ensures r.Error? <==> k !in Keys(root)
      ensures r.Error? ==> r.error == KeyDoesNotExist
      ensures r.Value? ==> (k, r.value) in Elements(root)
    {
      var p, c := GetNode(k);
      if c.Leaf? {
        return Error(KeyDoesNotExist);
      }
      PlugSubtree(p, c, c);
      SubtreeElement(c, root);
      r := Value(c.data);
    }

    /** getSmallest(): the data of the smallest key, or KeyDoesNotExist for the empty tree. */
    function GetSmallest(): (r: Outcome<D>)
      reads this
      requires Valid()
      ensures r.Error? <==> root.Leaf?
      ensures r.Error? ==> r.error == KeyDoesNotExist
      ensures r.Value? ==> |Elements(root)| > 0 && r.value == Elements(root)[0].1
    {
      if smallest.Node? then Value(smallest.data) else Error(KeyDoesNotExist)
    }

    /**
     * Insert(key, data): KeyAlreadyExist for a present key, which changes
     * nothing. Otherwise a node of height 1 and rank 1 becomes the root of
     * an empty tree, or goes into the empty position where the search for
     * its key falls off; then updateHeights, updateRanks and balance run
     * from the new node, and the size grows by one.
     */
    method Insert(k: K, d: D) returns (s: Status)
      requires Valid()
      modifies this
      ensures Valid() && RankTree.Inserted(old(root), root, k, d, lt)
      ensures s.Failed? <==> k in Keys(old(root))
      ensures s.Failed? ==> s.error == KeyAlreadyExist
    {
      var present := DoesExist(k);
      if present {
        return Failed(KeyAlreadyExist);
      }
      var newNode := Node(Leaf, k, d, 1, 1, Leaf);
      RankTree.ChildInserted(Leaf, newNode, k, d, lt);
      ValidCalm(newNode, lt);
      if root.Leaf? {
        root := newNode;
        smallest := newNode;
        size := size + 1;
        return Done;
      }
      var p: seq<Frame<K, D>>, c := [], root;
      while c.Node? && c.key != k
        invariant unchanged(this)
        invariant Plug(p, c) == root && KeyPath(p, k, lt) && k !in Keys(c)
        decreases c
      {
        var left := lt(k, c.key);
        StepDown(p, c, k, left, lt);
        p, c := [Down(c, left)] + p, if left then c.left else c.right;
      }
      // the new node fills the empty position, on the side of the parent the last comparison chose
      ClimbInserted(p, c, newNode, k, d, lt);
      root := Climb(p, newNode);
      UpdateSmallest();
      size := size + 1;
      s := Done;
    }

    /**
     * RemoveNode(node) for a node with at most one child: its parent (or
     * the root pointer) points to its child, or to null for a leaf; with a
     * parent, updateHeights, updateRanks and balance run from the parent,
     * otherwise the smallest pointer is recomputed (cleared for a leaf).
     * The size drops by one.
     */
    method Unlink(p: seq<Frame<K, D>>, c: Tree<K, D>)
      requires c.Node? && (c.left.Leaf? || c.right.Leaf?) && root == Plug(p, c)
      requires CachesOk(Splice(c)) && Calm(Splice(c)) && SiblingsOk(p) && Settles(p, Splice(c))
      modifies this
      ensures root == BalanceUp(p, Splice(c)) && smallest == MinNode(root) && size == old(size) - 1
    {
      CalmFix(Splice(c));
      if c.left.Leaf? && c.right.Leaf? {
        if |p| > 0 {
          root := Relink(p, Leaf);
          UpdateSmallest();
        } else {
          root := Leaf;
          smallest := Leaf;
        }
      } else if c.left.Leaf? {
        if |p| > 0 {
          root := Relink(p, c.right);
        } else {
          root := c.right;
        }
        UpdateSmallest();
      } else {
        if |p| > 0 {
          root := Relink(p, c.left);
        } else {
          root := c.left;
        }
        UpdateSmallest();
      }
      size := size - 1;
    }

    /**
     * RemoveNode(node): a node with at most one child is unlinked. A node
     * with two children swaps key and data with the leftmost node of its
     * right subtree, and that node, which has no left child, is unlinked.
     */
    method RemoveNode(p: seq<Frame<K, D>>, c: Tree<K, D>)
      requires Valid() && c.Node? && Plug(p, c) == root
      modifies this
      ensures Valid() && RankTree.Removed(old(root), root, c.key, lt)
    {
      PlugKeys(p, c);
      if c.left.Leaf? || c.right.Leaf? {
        SplicedClimb(p, c, lt);
        Unlink(p, c);
      } else {
        var q: seq<Frame<K, D>>, m := [], c.right;
        while m.left.Node?
          invariant unchanged(this)
          invariant m.Node? && AllLeftOf(q) && Plug(q, m) == c.right
          decreases m
        {
          q, m := [Down(m, true)] + q, m.left;
          assert ([Down(m, true)] + q)[1..] == q;
        }
        SuccessorClimb(p, c, q, m, lt);
        var path := q + [RightOf(c.left, m.key, m.data, c.height, c.rank)] + p;
        var moved := m.(key := c.key, data := c.data);
        root := Plug(path, moved);
        Unlink(path, moved);
      }
    }

    /** Remove(key): remove the key's node; an absent key changes nothing. */
    method Remove(k: K)
      requires Valid()
      modifies this
      ensures Valid() && RankTree.Removed(old(root), root, k, lt)
    {
      var p, c := GetNode(k);
      if c.Node? {
        RemoveNode(p, c);
      } else {
        RankTree.RemoveAbsentKey(root, k);
      }
    }

    /** FindByRank(r): the r-th largest key, rank 1 being the greatest. */
    function FindByRank(r: int): (k: K)
      reads this
      requires Valid() && 1 <= r <= size
      ensures size == |Elements(root)| && k == Elements(root)[size - r].0
    {
      CachedRank(root);
      NodeByRankCorrect(root, r);
      NodeByRank(root, r).key
    }

    /**
     * Reset() as written: the nodes are released and the root cleared, but
     * the smallest pointer keeps pointing at a released node, so a later
     * getSmallest reads a released node.
     */
    method ResetAsWritten()
      modifies this
      ensures root == Leaf && size == 0 && smallest == old(smallest)
      ensures old(Valid()) && old(root).Node? ==> smallest.Node? && !Valid()
    {
      size := 0;
      root := Leaf;
    }

    /**
     * findClosestParentOf(key): the node holding the key, or else the last
     * node of the search, where the search would fall off; null only for
     * the empty tree.
     */
    method FindClosestParentOf(k: K) returns (p: seq<Frame<K, D>>, c: Tree<K, D>)
      requires Valid()
      ensures Plug(p, c) == root && KeyPath(p, k, lt)
      ensures c.Leaf? <==> root.Leaf?
      ensures c.Node? ==> c.key == k || (lt(k, c.key) && c.left.Leaf?) || (lt(c.key, k) && c.right.Leaf?)
      ensures c.Node? ==> (c.key == k <==> k in Keys(root))
    {
      p, c := [], root;
      while c.Node? && c.key != k
        invariant Plug(p, c) == root && KeyPath(p, k, lt) && (c.Leaf? <==> root.Leaf?)
        invariant k in Keys(root) <==> k in Keys(c)
        decreases c
      {
        PlugValid(p, c, lt);
        if lt(k, c.key) {
          KeysBelow(c, k, lt);
          if c.left.Leaf? {
            return;
          }
          StepDown(p, c, k, true, lt);
          p, c := [Down(c, true)] + p, c.left;
        } else {
          // the key is above the node's: the loop guard rules out equality
          KeysAbove(c, k, lt);
          if c.right.Leaf? {
            return;
          }
          StepDown(p, c, k, false, lt);
          p, c := [Down(c, false)] + p, c.right;
        }
      }
    }

    /**
     * findLeftest(key): the number of keys not above `key`. It starts at
     * the closest node, counting it and its left subtree when its key is
     * not above `key`, and walks up to the root: coming from a right child
     * it counts the parent and the parent's left subtree, by the cached
     * rank. A left child is recognised by its key.
     */
    method FindLeftest(k: K) returns (n: int)
      requires Valid()
      ensures n == CountKeys(Elements(root), AtMost(k, lt))
    {
      var p, c := FindClosestParentOf(k);
      if c.Leaf? {
        return 0;
      }
      n := 0;
      PlugValid(p, c, lt);
      ClosestCount(c, k, lt);
      CachedRank(c.left);
      if lt(c.key, k) || c.key == k {
        n := n + 1;
        if c.left.Node? {
          n := n + c.left.rank;
        }
      }
      while |p| > 0
        invariant Plug(p, c) == root && KeyPath(p, k, lt) && c.Node?
        invariant n == CountKeys(Elements(c), AtMost(k, lt))
        decreases |p|
      {
        var parent := Attach(p[0], c);
        PlugValid(p, c, lt);
        KeyPathTail(p, k, lt);
        StepCount(p[0], c, k, lt);
        if p[0].RightOf? {
          RightChildKey(p[0], c, lt);
        }
        CachedRank(parent.left);
        if parent.left.Node? && parent.left.key == c.key {
        } else {
          n := n + 1;
          if parent.left.Node? {
            n := n + parent.left.rank;
          }
        }
        p, c := p[1..], parent;
      }
    }

    /**
     * getInRange(min, max): IllegalInput unless min < max; otherwise the
     * number of keys in [min, max], as findLeftest(max) - findLeftest(min)
     * plus one when min is present.
     */
    method GetInRange(min: K, max: K) returns (r: Outcome<int>)
      requires Valid()
      ensures r.Error? <==> !lt(min, max)
      ensures r.Error? ==> r.error == IllegalInput
      ensures r.Value? ==> r.value == CountKeys(Elements(root), Between(min, max, lt))
    {
      if !lt(min, max) {
        return Error(IllegalInput);
      }
      var smallerThanMax := FindLeftest(max);
      var smallerThanMin := FindLeftest(min);
      var range := smallerThanMax - smallerThanMin;
      var present := DoesExist(min);
      if present {
        range := range + 1;
      }
      RangeCount(root, min, max, lt);
      r := Value(range);
    }

    /** getSortedArray(): a new array of the data in key order. */
    method GetSortedArray() returns (a: array<D>)
      requires Valid()
      ensures fresh(a) && a.Length == |Elements(root)|
      ensures forall i :: 0 <= i < a.Length ==> a[i] == Elements(root)[i].1
    {
      ElementsSize(root);
      a := new D[size];
      var next := SortedData(root, a, 0);
    }

    /**
     * LoadSortedArray(keys, data, length): IllegalInput, changing nothing,
     * unless the first `length` keys increase; otherwise the tree is
     * replaced by the one LoadSortedArray2 builds from those pairs, whose
     * ranks setAllRanks then fills in.
     */
    method LoadSortedArray(keys: seq<K>, data: seq<D>, length: int) returns (s: Status)
      requires Valid() && 0 <= length <= |keys| && length <= |data|
      modifies this
      ensures Valid()
      ensures s.Failed? <==> !Increasing(keys[..length], lt)
      ensures s.Failed? ==> s.error == IllegalInput && root == old(root)
      ensures s.Done? ==> Elements(root) == Pairs(keys[..length], data[..length])
    {
      var ok := CheckSorted(keys, length, lt);
      if !ok {
        return Failed(IllegalInput);
      }
      Reset();
      LoadedValid(keys[..length], data[..length], lt);
      root := SetAllRanks(Build(keys[..length], data[..length]));
      UpdateSmallest();
      size := length;
      s := Done;
    }
  }

  /**
   * getSortedArray2(array, node): the data of `t` in order written from
   * `index` on; the answer is the position after the last one written.
   */
  method SortedData<K, D>(t: Tree<K, D>, a: array<D>, index: int) returns (next: int)
    requires 0 <= index && index + |Elements(t)| <= a.Length
    modifies a
    ensures next == index + |Elements(t)|
    ensures forall j :: 0 <= j < a.Length ==> a[j] == if index <= j < next then Elements(t)[j - index].1 else old(a[j])
    decreases t
  {
    if t.Leaf? {
      return index;
    }
    ghost var a0 := a[..];
    next := SortedData(t.left, a, index);
    a[next] := t.data;
    next := next + 1;
    next := SortedData(t.right, a, next);
    forall j | 0 <= j < a.Length
      ensures a[j] == if index <= j < next then Elements(t)[j - index].1 else a0[j]
    {
      if index <= j < next {
        RankTreeShape.ElementAt(t, j - index);
      }
    }
  }

  /** The check of LoadSortedArray as intended: IllegalInput unless every key is above the one before it. */
  method CheckSorted<K(!new)>(keys: seq<K>, length: int, lt: (K, K) -> bool) returns (ok: bool)
    requires 0 <= length <= |keys|
    ensures ok <==> Increasing(keys[..length], lt)
  {
    var i := 1;
    while i < length
      invariant 1 <= i && (length > 0 ==> i <= length)
      invariant forall j :: 0 < j < i && j < length ==> lt(keys[j - 1], keys[j])
    {
      if !lt(keys[i - 1], keys[i]) {
        assert keys[..length][i - 1] == keys[i - 1] && keys[..length][i] == keys[i];
        return false;
      }
      i := i + 1;
    }
    return true;
  }

  /** The check as written: IllegalInput only when a key is below the one before it, so equal keys pass. */
  method CheckSortedAsWritten<K(!new)>(keys: seq<K>, length: int, lt: (K, K) -> bool) returns (ok: bool)
    requires 0 <= length <= |keys|
    ensures ok <==> NotDecreasing(keys[..length], lt)
  {
    var i := 1;
    while i < length
      invariant 1 <= i && (length > 0 ==> i <= length)
      invariant forall j :: 0 < j < i && j < length ==> !lt(keys[j], keys[j - 1])
    {
      if lt(keys[i], keys[i - 1]) {
        assert keys[..length][i - 1] == keys[i - 1] && keys[..length][i] == keys[i];
        return false;
      }
      i := i + 1;
    }
    return true;
  }
}
