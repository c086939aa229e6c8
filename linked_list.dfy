/**
 * List.h: a doubly linked list of (key, data) nodes with distinct integer
 * keys and insertion at the head. The functions on a sequence of pairs are
 * the list's contents as a value; the hash table's buckets use them too.
 */
module LinkedList {
  import opened Order

  /** The StatusType values the list and the hash table answer. */
  datatype StatusType = Success | Failure

  /** Some pair carries key `k`. */
  predicate HasKey<D>(s: seq<(int, D)>, k: int) {
    exists i :: 0 <= i < |s| && s[i].0 == k
  }

  /** No two pairs carry the same key. */
  predicate UniqueKeys<D>(s: seq<(int, D)>) {
    forall i, j :: 0 <= i < j < |s| ==> s[i].0 != s[j].0
  }

  /** The data of the first pair carrying `k`, as a walk from the head finds it. */
  function Lookup<D>(s: seq<(int, D)>, k: int): (r: Option<D>)
    ensures r.Some? <==> HasKey(s, k)
    ensures r.Some? ==> (k, r.value) in s
  {
    if |s| == 0 then None
    else if s[0].0 == k then Some(s[0].1)
    else
      var r := Lookup(s[1..], k);
      assert HasKey(s, k) <==> HasKey(s[1..], k) by {
        if HasKey(s, k) {
          var i :| 0 <= i < |s| && s[i].0 == k;
          assert s[1..][i - 1] == s[i];
        }
        if HasKey(s[1..], k) {
          var i :| 0 <= i < |s[1..]| && s[1..][i].0 == k;
          assert s[i + 1] == s[1..][i];
        }
      }
      r
  }

  /** In a list of distinct keys, the pair at index `i` is the one Lookup finds. */
  lemma {:induction false} LookupAt<D>(s: seq<(int, D)>, i: int)
    requires UniqueKeys(s) && 0 <= i < |s|
    ensures Lookup(s, s[i].0) == Some(s[i].1)
  {
    if i > 0 && s[0].0 != s[i].0 {
      UniqueTail(s);
      assert s[1..][i - 1] == s[i];
      LookupAt(s[1..], i - 1);
    }
  }

  /** The contents without the pair carrying `k`, the others in their order. */
  function RemoveEntry<D>(s: seq<(int, D)>, k: int): seq<(int, D)> {
    if |s| == 0 then []
    else if s[0].0 == k then s[1..]
    else [s[0]] + RemoveEntry(s[1..], k)
  }

  /** Dropping the first pair keeps the keys distinct. */
  lemma UniqueTail<D>(s: seq<(int, D)>)
    requires UniqueKeys(s) && |s| > 0
    ensures UniqueKeys(s[1..])
  {
    forall a, b | 0 <= a < b < |s| - 1
      ensures s[1..][a].0 != s[1..][b].0
    {
      assert s[1..][a] == s[a + 1] && s[1..][b] == s[b + 1];
    }
  }

  /** A pair whose key is absent can go in front: the keys stay distinct. */
  lemma UniquePrepend<D>(s: seq<(int, D)>, k: int, d: D)
    requires UniqueKeys(s) && !HasKey(s, k)
    ensures UniqueKeys([(k, d)] + s)
  {
    var t := [(k, d)] + s;
    forall i, j | 0 <= i < j < |t|
      ensures t[i].0 != t[j].0
    {
      assert t[j] == s[j - 1];
      if i > 0 {
        assert t[i] == s[i - 1];
      }
    }
  }

  /** In a list of distinct keys, RemoveEntry drops exactly the pair at index `i`. */
  lemma {:induction false} RemoveAt<D>(s: seq<(int, D)>, i: int)
    requires UniqueKeys(s) && 0 <= i < |s|
    ensures RemoveEntry(s, s[i].0) == s[..i] + s[i + 1..]
  {
    if i > 0 {
      assert s[0].0 != s[i].0;
      UniqueTail(s);
      assert s[1..][i - 1] == s[i];
      RemoveAt(s[1..], i - 1);
      assert s[1..][..i - 1] + s[1..][i..] == (s[..i] + s[i + 1..])[1..];
    }
  }

  /** Cutting out the pair at index `i` keeps the other keys distinct. */
  lemma CutUnique<D>(s: seq<(int, D)>, i: int)
    requires UniqueKeys(s) && 0 <= i < |s|
    ensures UniqueKeys(s[..i] + s[i + 1..])
  {
    var r := s[..i] + s[i + 1..];
    forall a, b | 0 <= a < b < |r|
      ensures r[a].0 != r[b].0
    {
      var a', b' := if a < i then a else a + 1, if b < i then b else b + 1;
      assert r[a] == s[a'] && r[b] == s[b'];
    }
  }

  /** Cutting out the pair at index `i` takes exactly that pair away. */
  lemma CutPairs<D>(s: seq<(int, D)>, i: int)
    requires 0 <= i < |s|
    ensures multiset(s[..i] + s[i + 1..]) == multiset(s) - multiset{s[i]}
  {
    assert s == s[..i] + [s[i]] + s[i + 1..];
  }

  /** Cutting out the pair at index `i` of a list with distinct keys loses its key and no other. */
  lemma CutKeys<D>(s: seq<(int, D)>, i: int)
    requires UniqueKeys(s) && 0 <= i < |s|
    ensures forall x :: HasKey(s[..i] + s[i + 1..], x) <==> HasKey(s, x) && x != s[i].0
  {
    var r := s[..i] + s[i + 1..];
    forall x
      ensures HasKey(r, x) <==> HasKey(s, x) && x != s[i].0
    {
      if HasKey(r, x) {
        var a :| 0 <= a < |r| && r[a].0 == x;
        var a' := if a < i then a else a + 1;
        assert r[a] == s[a'];
      }
      if HasKey(s, x) && x != s[i].0 {
        var a :| 0 <= a < |s| && s[a].0 == x;
        assert s[a] == r[if a < i then a else a - 1];
      }
    }
  }

  /** The contents after an insertion at the head: unchanged when the key is present. */
  function InsertEntry<D>(s: seq<(int, D)>, k: int, d: D): seq<(int, D)> {
    if HasKey(s, k) then s else [(k, d)] + s
  }

  /**
   * What InsertEntry keeps of a list with distinct keys: distinct keys,
   * every old key and `k`, `k`'s data found, and one pair more exactly
   * when `k` was absent.
   */
  lemma InsertedKeys<D>(s: seq<(int, D)>, k: int, d: D)
    requires UniqueKeys(s)
    ensures UniqueKeys(InsertEntry(s, k, d))
    ensures forall x :: HasKey(InsertEntry(s, k, d), x) <==> HasKey(s, x) || x == k
    ensures !HasKey(s, k) ==> Lookup(InsertEntry(s, k, d), k) == Some(d)
    ensures multiset(InsertEntry(s, k, d)) == if HasKey(s, k) then multiset(s) else multiset(s) + multiset{(k, d)}
  {
    if !HasKey(s, k) {
      UniquePrepend(s, k, d);
      var t := [(k, d)] + s;
      forall x
        ensures HasKey(t, x) <==> HasKey(s, x) || x == k
      {
        if HasKey(s, x) {
          var i :| 0 <= i < |s| && s[i].0 == x;
          assert t[i + 1] == s[i];
        }
        if HasKey(t, x) && x != k {
          var i :| 0 <= i < |t| && t[i].0 == x;
          assert s[i - 1] == t[i];
        }
        if x == k {
          assert t[0].0 == x;
        }
      }
    }
  }

  /** RemoveEntry of an absent key gives back the list. */
  lemma {:induction false} RemoveAbsent<D>(s: seq<(int, D)>, k: int)
    requires !HasKey(s, k)
    ensures RemoveEntry(s, k) == s
  {
    if |s| > 0 {
      forall i | 0 <= i < |s| - 1
        ensures s[1..][i].0 != k
      {
        assert s[1..][i] == s[i + 1];
      }
      RemoveAbsent(s[1..], k);
    }
  }

  /**
   * What RemoveEntry keeps of a list with distinct keys: distinct keys,
   * every key but `k`, and the pairs less the one of `k`.
   */
  lemma RemovedKeys<D>(s: seq<(int, D)>, k: int)
    requires UniqueKeys(s)
    ensures UniqueKeys(RemoveEntry(s, k))
    ensures forall x :: HasKey(RemoveEntry(s, k), x) <==> HasKey(s, x) && x != k
    ensures HasKey(s, k) ==> multiset(RemoveEntry(s, k)) == multiset(s) - multiset{(k, Lookup(s, k).value)}
  {
    if HasKey(s, k) {
      var i :| 0 <= i < |s| && s[i].0 == k;
      RemoveAt(s, i);
      CutUnique(s, i);
      CutPairs(s, i);
      CutKeys(s, i);
      LookupAt(s, i);
    } else {
      RemoveAbsent(s, k);
    }
  }

  /**
   * The links along a sequence of nodes: the first has no `previous`, the
   * last no `next`, and each node's `next` is the one after it and its
   * `previous` the one before it.
   */
  ghost predicate Linked<D>(ns: seq<ListNode<D>>)
    reads set n | n in ns
  {
    (|ns| > 0 ==> ns[0].previous == null && ns[|ns| - 1].next == null)
    && (forall j :: 0 < j < |ns| ==> ns[j].previous == ns[j - 1])
    && (forall j :: 0 <= j < |ns| ==> (j + 1 < |ns| ==> ns[j].next == ns[j + 1]))
  }

  /** Linking the neighbours of node `i` to each other leaves the others linked. */
  lemma CutLinked<D>(ns: seq<ListNode<D>>, i: int)
    requires 0 < i < |ns| - 1
    requires ns[0].previous == null && ns[|ns| - 1].next == null
    requires forall j :: 0 < j < |ns| && j != i && j != i + 1 ==> ns[j].previous == ns[j - 1]
    requires forall j :: 0 <= j < |ns| - 1 && j != i - 1 && j != i ==> ns[j].next == ns[j + 1]
    requires ns[i - 1].next == ns[i + 1] && ns[i + 1].previous == ns[i - 1]
    ensures Linked(ns[..i] + ns[i + 1..])
  {
    var r := ns[..i] + ns[i + 1..];
    forall j | 0 <= j < |r|
      ensures r[j] == ns[if j < i then j else j + 1]
    {
    }
  }

  /** A node linked in before the first one leaves the sequence linked. */
  lemma PrependLinked<D>(n: ListNode<D>, ns: seq<ListNode<D>>)
    requires |ns| > 0 && n.previous == null && n.next == ns[0] && ns[0].previous == n
    requires ns[|ns| - 1].next == null
    requires forall j :: 0 < j < |ns| ==> ns[j].previous == ns[j - 1]
    requires forall j :: 0 <= j < |ns| - 1 ==> ns[j].next == ns[j + 1]
    ensures Linked([n] + ns)
  {
    var r := [n] + ns;
    forall j | 0 < j < |r|
      ensures r[j] == ns[j - 1]
    {
    }
  }

  /** One node: its key and data, and its links to the neighbours. */
  class ListNode<D> {
    const key: int
    const data: D
    var previous: ListNode?<D>
    var next: ListNode?<D>

    /** ListNode(key, data): a node with no neighbours yet. */
    constructor (key: int, data: D)
      ensures this.key == key && this.data == data
      ensures previous == null && next == null
    {
      this.key := key;
      this.data := data;
      previous, next := null, null;
    }
  }

  /**
   * List: `head` and the iteration cursor `current`. `nodes` holds the nodes
   * from the head on and `contents` their (key, data) pairs; `at` is the
   * index of `current` while an iteration is under way.
   */
  class List<D> {
    var head: ListNode?<D>
    var current: ListNode?<D>
    ghost var nodes: seq<ListNode<D>>
    ghost var contents: seq<(int, D)>
    ghost var at: int
    ghost var Repr: set<object>

    /**
     * The links: the head is the first node and its `previous` is null,
     * each node's `next` is the one after it and its `previous` the one
     * before it, the last `next` is null, and the keys are distinct.
     */
    ghost predicate Valid()
      reads this, Repr
    {
      this in Repr
      && (forall i :: 0 <= i < |nodes| ==> nodes[i] in Repr)
      && |nodes| == |contents|
      && (forall i :: 0 <= i < |nodes| ==> nodes[i].key == contents[i].0 && nodes[i].data == contents[i].1)
      && head == (if |nodes| == 0 then null else nodes[0])
      && Linked(nodes)
      && UniqueKeys(contents)
    }

    /** The invariant from its parts, as the methods that relink nodes establish them. */
    lemma ValidIntro()
      requires this in Repr && (forall i :: 0 <= i < |nodes| ==> nodes[i] in Repr)
      requires |nodes| == |contents|
      requires forall i :: 0 <= i < |nodes| ==> nodes[i].key == contents[i].0 && nodes[i].data == contents[i].1
      requires head == (if |nodes| == 0 then null else nodes[0])
      requires Linked(nodes) && UniqueKeys(contents)
      ensures Valid()
    {
    }

    /** Distinct keys make distinct nodes. */
    lemma NodesDistinct(i: int, j: int)
      requires Valid() && 0 <= i < |nodes| && 0 <= j < |nodes| && i != j
      ensures nodes[i] != nodes[j]
    {
      if i < j {
        assert contents[i].0 != contents[j].0;
      } else {
        assert contents[j].0 != contents[i].0;
      }
    }

    /** List(): the empty list. */
    constructor ()
      ensures Valid() && fresh(Repr) && contents == []
    {
      head := null;
      nodes, contents := [], [];
      Repr := {this};
    }

    /** Find(key): whether some node carries the key, by a walk from the head. */
    method Find(k: int) returns (found: bool)
      requires Valid()
      ensures found <==> HasKey(contents, k)
    {
      var temp := head;
      ghost var i := 0;
      while temp != null
        invariant 0 <= i <= |nodes| && temp == (if i == |nodes| then null else nodes[i])
        invariant forall j :: 0 <= j < i ==> contents[j].0 != k
        decreases |nodes| - i
      {
        if temp.key == k {
          return true;
        }
        temp, i := temp.next, i + 1;
      }
      return false;
    }

    /** FindNode(key): the node carrying the key, or null when none does. */
    method FindNode(k: int) returns (n: ListNode?<D>)
      requires Valid()
      ensures n == null <==> !HasKey(contents, k)
      ensures n != null ==> n in nodes && n.key == k && Lookup(contents, k) == Some(n.data)
    {
      var temp := head;
      ghost var i := 0;
      while temp != null
        invariant 0 <= i <= |nodes| && temp == (if i == |nodes| then null else nodes[i])
        invariant forall j :: 0 <= j < i ==> contents[j].0 != k
        decreases |nodes| - i
      {
        if temp.key == k {
          LookupAt(contents, i);
          return temp;
        }
        temp, i := temp.next, i + 1;
      }
      return null;
    }

    /**
     * Insert(key, data): FAILURE, changing nothing, when the key is present;
     * otherwise a new node becomes the head.
     */
    method Insert(k: int, d: D) returns (s: StatusType)
      requires Valid()
      modifies Repr
      ensures Valid() && fresh(Repr - old(Repr))
      ensures s == Failure <==> old(HasKey(contents, k))
      ensures s == Failure ==> contents == old(contents)
      ensures s == Success ==> contents == [(k, d)] + old(contents) && nodes[1..] == old(nodes)
      ensures contents == InsertEntry(old(contents), k, d)
    {
      if head != null {
        var present := Find(k);
        if !present {
          LinkNewHead(k, d);
          return Success;
        } else {
          return Failure;
        }
      } else {
        head := new ListNode(k, d);
        nodes, contents := [head], [(k, d)];
        Repr := Repr + {head};
        return Success;
      }
    }

    /** Insert into a non-empty list: the new node is linked in before the head. */
    method LinkNewHead(k: int, d: D)
      requires Valid() && |nodes| > 0 && !HasKey(contents, k)
      modifies Repr
      ensures Valid() && fresh(Repr - old(Repr))
      ensures contents == [(k, d)] + old(contents) && nodes[1..] == old(nodes)
    {
      forall i | 0 < i < |nodes|
        ensures nodes[i] != nodes[0]
      {
        NodesDistinct(i, 0);
      }
      ghost var old_nodes := nodes;
      var nHead := new ListNode(k, d);
      head.previous := nHead;
      nHead.next := head;
      head := nHead;
      ghost var old_contents := contents;
      nodes, contents := [nHead] + nodes, [(k, d)] + contents;
      Repr := Repr + {nHead};
      assert forall i :: 0 < i < |old_nodes| ==> old_nodes[i].previous == old_nodes[i - 1];
      assert forall i :: 0 <= i < |old_nodes| - 1 ==> old_nodes[i].next == old_nodes[i + 1];
      PrependLinked(nHead, old_nodes);
      forall i | 0 < i < |nodes|
        ensures nodes[i] == old_nodes[i - 1] && contents[i] == old_contents[i - 1]
      {
      }
      UniquePrepend(old_contents, k, d);
      ValidIntro();
    }

    /**
     * Remove(key): FAILURE, changing nothing, on an empty list or an absent
     * key; otherwise that key's node is unlinked: at the head, in the
     * middle or at the end. The other nodes keep their order.
     */
    method Remove(k: int) returns (s: StatusType)
      requires Valid()
      modifies Repr
      ensures Valid() && Repr == old(Repr)
      ensures s == Failure <==> !old(HasKey(contents, k))
      ensures s == Failure ==> contents == old(contents)
      ensures s == Success ==> contents == RemoveEntry(old(contents), k)
    {
      if head == null {
        return Failure;
      }
      var temp := FindNode(k);
      if temp == null {
        return Failure;
      }
      ghost var i :| 0 <= i < |nodes| && nodes[i] == temp;
      RemoveAt(contents, i);
      if temp.key == head.key {
        assert contents[0].0 == contents[i].0;
        UnlinkHead();
      } else {
        assert i + 1 < |nodes| ==> temp.next == nodes[i + 1];
        assert i + 1 == |nodes| ==> temp.next == null;
        if temp.next != null {
          UnlinkMiddle(temp, i);
        } else {
          UnlinkLast(temp);
        }
      }
      s := Success;
    }

    /** Remove at the head: the next node, if any, becomes the head. */
    method UnlinkHead()
      requires Valid() && |nodes| > 0
      modifies Repr
      ensures Valid() && Repr == old(Repr)
      ensures nodes == old(nodes[1..]) && contents == old(contents[1..])
    {
      CutUnique(contents, 0);
      if head.next != null {
        assert head.next == nodes[1];
        head := head.next;
        head.previous := null;
      } else {
        head := null;
      }
      nodes, contents := nodes[1..], contents[1..];
    }

    /** Remove in the middle: the neighbours are linked to each other. */
    method UnlinkMiddle(temp: ListNode<D>, ghost i: int)
      requires Valid() && 0 < i < |nodes| - 1 && nodes[i] == temp
      modifies Repr
      ensures Valid() && Repr == old(Repr)
      ensures nodes == old(nodes[..i] + nodes[i + 1..]) && contents == old(contents[..i] + contents[i + 1..])
    {
      CutUnique(contents, i);
      ghost var old_nodes := nodes;
      forall j | 0 <= j < |nodes| && j != i - 1
        ensures nodes[j] != nodes[i - 1]
      {
        NodesDistinct(j, i - 1);
      }
      forall j | 0 <= j < |nodes| && j != i + 1
        ensures nodes[j] != nodes[i + 1]
      {
        NodesDistinct(j, i + 1);
      }
      var prev := temp.previous;
      var next := temp.next;
      prev.next := next;
      next.previous := prev;
      ghost var old_contents := contents;
      nodes, contents := nodes[..i] + nodes[i + 1..], contents[..i] + contents[i + 1..];
      CutLinked(old_nodes, i);
      forall j | 0 <= j < |nodes|
        ensures nodes[j] == old_nodes[if j < i then j else j + 1]
        ensures contents[j] == old_contents[if j < i then j else j + 1]
      {
      }
      ValidIntro();
    }

    /** Remove at the end: the node before becomes the last. */
    method UnlinkLast(temp: ListNode<D>)
      requires Valid() && |nodes| > 1 && nodes[|nodes| - 1] == temp
      modifies Repr
      ensures Valid() && Repr == old(Repr)
      ensures nodes == old(nodes[..|nodes| - 1]) && contents == old(contents[..|contents| - 1])
    {
      ghost var i := |nodes| - 1;
      CutUnique(contents, i);
      ghost var old_nodes := nodes;
      forall j | 0 <= j < |nodes| && j != i - 1
        ensures nodes[j] != nodes[i - 1]
      {
        NodesDistinct(j, i - 1);
      }
      var prev := temp.previous;
      prev.next := null;
      assert forall j :: 0 < j < |old_nodes| ==> old_nodes[j].previous == old_nodes[j - 1];
      assert forall j :: 0 <= j < |old_nodes| - 1 && j != i - 1 ==> old_nodes[j].next == old_nodes[j + 1];
      nodes, contents := nodes[..i], contents[..i];
      assert contents == old(contents)[..i] + old(contents)[i + 1..];
    }

    /** ResetIterator(): the iteration starts at the head, which is answered. */
    method ResetIterator() returns (n: ListNode?<D>)
      requires Valid()
      modifies this`current, this`at
      ensures Valid() && at == 0 && n == current
      ensures n == if |nodes| == 0 then null else nodes[0]
    {
      current := head;
      at := 0;
      return current;
    }

    /** NextIteration(): the cursor moves on to the next node, null after the last. */
    method NextIteration() returns (n: ListNode?<D>)
      requires Valid() && 0 <= at < |nodes| && current == nodes[at]
      modifies this`current, this`at
      ensures Valid() && at == old(at) + 1 && n == current
      ensures n == if at == |nodes| then null else nodes[at]
    {
      current := current.next;
      at := at + 1;
      return current;
    }
  }
}
