/** The circular doubly linked list (ccan/list) under the endpoint registry and the mock queue. */
module List {
  import opened Wire


  class Node<T(0)> {
    var next: Node<T>
    var prev: Node<T>
    var data: T

    /** list_node_init, list_head_init: a node linked to itself. */
    constructor (data: T)
      ensures next == this && prev == this && this.data == data
    {
      next, prev := this, this;
      this.data := data;
    }
  }

  // ---------------------------------------------------------------- well-formed rings

  ghost function After<T(0)>(ns: seq<Node<T>>, i: nat): Node<T>
    requires i < |ns|
  {
    if i + 1 < |ns| then ns[i + 1] else ns[0]
  }

  ghost function Before<T(0)>(ns: seq<Node<T>>, i: nat): Node<T>
    requires i < |ns|
  {
    if i > 0 then ns[i - 1] else ns[|ns| - 1]
  }

  ghost predicate Distinct<T(0)>(ns: seq<Node<T>>) {
    forall i, j :: 0 <= i < j < |ns| ==> ns[i] != ns[j]
  }

  /** `ns` is the whole list that `node` is in, starting at `node`. */
  ghost predicate Ring<T(0)>(ns: seq<Node<T>>, node: Node<T>)
    reads ns
  {
    && ns != [] && ns[0] == node
    && (forall i :: 0 < i < |ns| ==> ns[i] != node)
    && (forall i {:trigger ns[i].next} :: 0 <= i < |ns| ==> ns[i].next == After(ns, i))
    && (forall i {:trigger ns[i].prev} :: 0 <= i < |ns| ==> ns[i].prev == Before(ns, i))
  }

  /** A chain of nodes in which every step forward is matched by a step back. */
  ghost predicate Chain<T(0)>(ns: seq<Node<T>>)
    reads ns
  {
    && (forall i {:trigger ns[i].next} :: 0 <= i < |ns| - 1 ==> ns[i].next == ns[i + 1])
    && (forall i {:trigger ns[i].prev} :: 0 < i < |ns| ==> ns[i].prev == ns[i - 1])
  }

  /** Following `prev` back from two equal nodes of a ring ends at the start, so there are none. */
  lemma {:induction false} RingDistinct<T(0)>(ns: seq<Node<T>>, node: Node<T>, i: nat, j: nat)
    requires Ring(ns, node) && i < j < |ns|
    ensures ns[i] != ns[j]
  {
    if i > 0 {
      RingDistinct(ns, node, i - 1, j - 1);
      assert ns[i].prev == ns[i - 1] && ns[j].prev == ns[j - 1];
    }
  }

  lemma RingIsDistinct<T(0)>(ns: seq<Node<T>>, node: Node<T>)
    requires Ring(ns, node)
    ensures Distinct(ns)
  {
    forall i, j | 0 <= i < j < |ns| ensures ns[i] != ns[j] { RingDistinct(ns, node, i, j); }
  }

  // ---------------------------------------------------------------- checking a list

  /** A chain from `node` runs along every ring through `node`. */
  lemma {:induction false} ChainFollowsRing<T(0)>(path: seq<Node<T>>, ns: seq<Node<T>>, node: Node<T>, k: nat)
    requires k < |path| && path[0] == node && Chain(path) && Distinct(path) && Ring(ns, node)
    ensures k < |ns| && path[k] == ns[k]
  {
    if k > 0 {
      ChainFollowsRing(path, ns, node, k - 1);
      assert path[k] == path[k - 1].next == After(ns, k - 1);
      assert path[k] != path[0];
    }
  }

  /** So the check sees no mismatch on a well-formed list. */
  lemma RingStepsBack<T(0)>(path: seq<Node<T>>, ns: seq<Node<T>>, node: Node<T>)
    requires path != [] && path[0] == node && Chain(path) && Distinct(path) && Ring(ns, node)
    ensures var p := path[|path| - 1]; p in ns && p.next in ns && p.next.prev == p
  {
    ChainFollowsRing(path, ns, node, |path| - 1);
    assert After(ns, |path| - 1) in ns;
  }

  /** A node met twice would need two predecessors. */
  lemma NoRevisit<T(0)>(path: seq<Node<T>>, n: Node<T>)
    requires path != [] && Chain(path) && Distinct(path)
    requires n != path[0] && n.prev == path[|path| - 1]
    ensures n !in path
  {
    forall j | 0 < j < |path| ensures path[j] != n {
      assert path[j].prev == path[j - 1];
    }
  }

  /** The consistency check. It ends on every finite set of nodes closed under `next`, however the
      links are corrupted, and accepts exactly the well-formed lists. */
  method ListCheckNode<T(0)>(node: Node<T>, ghost S: set<Node<T>>) returns (r: Node?<T>)
    requires node in S && forall n :: n in S ==> n.next in S
    ensures r == null || r == node
    ensures r != null <==> exists ns: seq<Node<T>> :: Ring(ns, node)
  {
    var p, n := node, node.next;
    ghost var path, seen := [node], {node};
    while n != node
      invariant path != [] && path[0] == node && path[|path| - 1] == p && p.next == n
      invariant seen == set x | x in path
      invariant p in S && n in S && seen <= S
      invariant Chain(path) && Distinct(path)
      decreases S - seen
    {
      if n.prev != p {
        if ns: seq<Node<T>> :| Ring(ns, node) {
          RingStepsBack(path, ns, node);
          assert false;
        }
        return null;
      }
      NoRevisit(path, n);
      path, seen := path + [n], seen + {n};
      p, n := n, n.next;
    }
    if node.prev != p {
      if ns: seq<Node<T>> :| Ring(ns, node) {
        RingStepsBack(path, ns, node);
        assert false;
      }
      return null;
    }
    assert Ring(path, node);
    return node;
  }

  // ---------------------------------------------------------------- changing a list

  function WithSecond<T>(s: seq<T>, x: T): (r: seq<T>)
    requires s != []
    ensures |r| == |s| + 1 && r[0] == s[0] && r[1] == x
    ensures forall i :: 2 <= i < |r| ==> r[i] == s[i - 1]
  {
    [s[0], x] + s[1..]
  }

  /** list_add: `n` goes in right behind the head. */
  method ListAdd<T(0)>(h: Node<T>, n: Node<T>, ghost ns: seq<Node<T>>)
    requires Ring(ns, h) && n !in ns
    modifies n`next, n`prev, h`next, h.next`prev
    ensures Ring(WithSecond(ns, n), h)
  {
    RingIsDistinct(ns, h);
    assert h.next == After(ns, 0);
    n.next := h.next;
    n.prev := h;
    h.next.prev := n;
    h.next := n;
  }

  /** list_add_tail: `n` goes in before the head. */
  method ListAddTail<T(0)>(h: Node<T>, n: Node<T>, ghost ns: seq<Node<T>>)
    requires Ring(ns, h) && n !in ns
    modifies n`next, n`prev, h`prev, h.prev`next
    ensures Ring(ns + [n], h)
  {
    RingIsDistinct(ns, h);
    assert After(ns, |ns| - 1) == h;
    n.next := h;
    n.prev := h.prev;
    h.prev.next := n;
    h.prev := n;
  }

  /** list_del: unlinks the `k`-th node; its own links are left dangling. */
  method ListDel<T(0)>(n: Node<T>, ghost ns: seq<Node<T>>, ghost k: nat)
    requires ns != [] && Ring(ns, ns[0]) && 0 < k < |ns| && ns[k] == n
    modifies n.next`prev, n.prev`next
    ensures Ring(Without(ns, k), ns[0])
  {
    RingIsDistinct(ns, ns[0]);
    assert n.next == After(ns, k) && After(ns, k - 1) == n;
    n.next.prev := n.prev;
    n.prev.next := n.next;
  }
}
