/**
 * A node pointer together with its chain of parent pointers, as a value: the
 * focus subtree and, innermost first, one frame per ancestor holding that
 * ancestor with the focus cut out. `Plug` rebuilds the whole tree, so a walk
 * up the parent pointers is a walk along the frames. This carries the
 * in-order successor walk of RankTree.h (getNext).
 */
module Zipper {
  import opened Order
  import opened AvlTree

  /** One ancestor: the focus is its left child (`LeftOf`) or its right child (`RightOf`). */
  datatype Frame<K, D> =
    | LeftOf(key: K, data: D, height: int, rank: int, right: Tree<K, D>)
    | RightOf(left: Tree<K, D>, key: K, data: D, height: int, rank: int)

  /** The ancestor node with `t` put back in the focus position. */
  function Attach<K, D>(f: Frame<K, D>, t: Tree<K, D>): (p: Tree<K, D>)
    ensures p.Node? && p.key == f.key && p.data == f.data
    ensures if f.LeftOf? then p.left == t && p.right == f.right else p.right == t && p.left == f.left
  {
    match f
    case LeftOf(k, d, h, rk, r) => Node(t, k, d, h, rk, r)
    case RightOf(l, k, d, h, rk) => Node(l, k, d, h, rk, t)
  }

  /** The whole tree rebuilt from the focus `t` and its ancestors; `path[0]` is the parent. */
  function Plug<K, D>(path: seq<Frame<K, D>>, t: Tree<K, D>): Tree<K, D>
    decreases |path|
  {
    if |path| == 0 then t else Plug(path[1..], Attach(path[0], t))
  }

  /** The pairs of the whole tree that come before the focus subtree. */
  function Before<K, D>(path: seq<Frame<K, D>>): seq<(K, D)>
    decreases |path|
  {
    if |path| == 0 then []
    else
      Before(path[1..])
      + match path[0]
        case LeftOf(_, _, _, _, _) => []
        case RightOf(l, k, d, _, _) => Elements(l) + [(k, d)]
  }

  /** The pairs of the whole tree that come after the focus subtree. */
  function After<K, D>(path: seq<Frame<K, D>>): seq<(K, D)>
    decreases |path|
  {
    if |path| == 0 then []
    else
      (match path[0]
       case LeftOf(k, d, _, _, r) => [(k, d)] + Elements(r)
       case RightOf(_, _, _, _, _) => [])
      + After(path[1..])
  }

  /** The focus subtree's pairs sit between those of its ancestors. */
  lemma {:induction false} PlugElements<K, D>(path: seq<Frame<K, D>>, t: Tree<K, D>)
    ensures Elements(Plug(path, t)) == Before(path) + Elements(t) + After(path)
    decreases |path|
  {
    if |path| > 0 {
      PlugElements(path[1..], Attach(path[0], t));
    }
  }

  /** Every node on the way from the root to the focus is again a search tree. */
  lemma {:induction false} PlugBst<K(!new), D>(path: seq<Frame<K, D>>, t: Tree<K, D>, lt: (K, K) -> bool)
    requires Bst(Plug(path, t), lt)
    ensures Bst(t, lt)
    ensures |path| > 0 ==> Bst(Attach(path[0], t), lt)
    decreases |path|
  {
    if |path| > 0 {
      PlugBst(path[1..], Attach(path[0], t), lt);
    }
  }

  /** A node below the focus is a node of the whole tree. */
  lemma {:induction false} PlugSubtree<K, D>(path: seq<Frame<K, D>>, s: Tree<K, D>, t: Tree<K, D>)
    requires IsSubtree(s, t)
    ensures IsSubtree(s, Plug(path, t))
    decreases |path|
  {
    if |path| > 0 {
      var p := Attach(path[0], t);
      assert IsSubtree(t, p.left) || IsSubtree(t, p.right);
      assert IsSubtree(s, p);
      PlugSubtree(path[1..], s, p);
    }
  }

  /**
   * In a search tree a right child's key differs from its sibling's: the
   * sibling lies below the parent and the focus above it. This is what makes
   * the key comparison of getNext tell a left child from a right one.
   */
  lemma RightChildKey<K(!new), D>(f: Frame<K, D>, t: Tree<K, D>, lt: (K, K) -> bool)
    requires StrictTotalOrder(lt) && f.RightOf? && t.Node? && Bst(Attach(f, t), lt)
    ensures f.left.Leaf? || f.left.key != t.key
  {
    var p := Attach(f, t);
    if f.left.Node? {
      assert f.left.key in Keys(p.left) && t.key in Keys(p.right);
      assert lt(f.left.key, p.key) && lt(p.key, t.key);
    }
  }

  /** The index of the focus node's own pair in the whole tree's order. */
  function Position<K, D>(path: seq<Frame<K, D>>, t: Tree<K, D>): nat
    requires t.Node?
  {
    |Before(path)| + |Elements(t.left)|
  }

  /**
   * getNext: the in-order successor of the focus node. With a right child it
   * is the leftmost node of the right subtree (findMin); otherwise the walk
   * goes up until it leaves a left child, whose parent is the successor, and
   * reaching the root answers the null pointer. A left child is recognised by
   * comparing the parent's left child's key with the current node's key.
   * The answer holds the pair right after the focus's pair, and is `Leaf`
   * exactly when the focus holds the last pair.
   */
  method Next<K(==, !new), D>(path: seq<Frame<K, D>>, t: Tree<K, D>, lt: (K, K) -> bool) returns (n: Tree<K, D>)
    requires t.Node? && StrictTotalOrder(lt) && Bst(Plug(path, t), lt)
    ensures Position(path, t) < |Elements(Plug(path, t))|
    ensures n.Leaf? <==> Position(path, t) + 1 == |Elements(Plug(path, t))|
    ensures n.Node? ==> IsSubtree(n, Plug(path, t))
    ensures n.Node? ==>
              Position(path, t) + 1 < |Elements(Plug(path, t))|
              && Elements(Plug(path, t))[Position(path, t) + 1] == (n.key, n.data)
  {
    PlugElements(path, t);
    if t.right.Node? {
      n := Leftmost(t.right);
      assert IsSubtree(n, t);
      PlugSubtree(path, n, t);
      return;
    }
    var p, c := path, t;
    while |p| > 0
      invariant c.Node? && Plug(p, c) == Plug(path, t)
      invariant |Before(p)| + |Elements(c)| == Position(path, t) + 1
      decreases |p|
    {
      var parent := Attach(p[0], c);
      PlugBst(p, c, lt);
      if p[0].RightOf? {
        RightChildKey(p[0], c, lt);
      }
      if parent.left.Node? && parent.left.key == c.key {
        PlugElements(p[1..], parent);
        PlugSubtree(p[1..], parent, parent);
        return parent;
      }
      p, c := p[1..], parent;
    }
    n := Leaf;
  }
}
