/**
  A doubly linked list whose nodes live on the heap and are linked both ways, with
  tail append, indexed lookup (by walking from the start) and in-place reversal that
  swaps every node's `next` and `prev` in one pass.

  The ghost sequence `nodes` lists the nodes in order from `start` to `end`;
  `Valid()` ties the links, the field `length` and the markers `start`/`end` to it.
*/
module DoublyLinkedList {
  import opened Wrappers
  import opened Seqs
  import Text

  class Node<T> {
    var val: T
    var next: Node?<T>
    var prev: Node?<T>

    /** `Node::new`: a node holding `t`, linked to nothing. */
    constructor (t: T)
      ensures val == t && next == null && prev == null
    {
      val := t;
      prev := null;
      next := null;
    }
  }

  /** The values held by a sequence of nodes, in the same order. */
  ghost function Values<T>(ns: seq<Node<T>>): (vs: seq<T>)
    reads set i | 0 <= i < |ns| :: ns[i]
    ensures |vs| == |ns|
    ensures forall i :: 0 <= i < |ns| ==> vs[i] == ns[i].val
  {
    if ns == [] then [] else [ns[0].val] + Values(ns[1..])
  }

  /**
    The nodes are linked in this order: the first has no `prev`, the last has no `next`, and
    each node's `next` is the following node, whose `prev` points back to it.
  */
  ghost predicate Chain<T>(ns: seq<Node<T>>)
    reads set i | 0 <= i < |ns| :: ns[i]
  {
    && (ns != [] ==> ns[0].prev == null && ns[|ns| - 1].next == null)
    && (forall i :: 0 <= i < |ns| - 1 ==> ns[i].next == ns[i + 1] && ns[i + 1].prev == ns[i])
  }

  /** The nodes of `ns`, as the objects a list built from them owns. */
  ghost function NodeSet<T>(ns: seq<Node<T>>): set<object> {
    set i | 0 <= i < |ns| :: ns[i] as object
  }

  lemma NodeSetAppend<T>(ns: seq<Node<T>>, n: Node<T>)
    ensures NodeSet(ns + [n]) == NodeSet(ns) + {n}
  {
    var s := ns + [n];
    assert forall i :: 0 <= i < |ns| ==> s[i] == ns[i];
    assert s[|ns|] == n;
  }

  lemma NodeSetReversed<T>(ns: seq<Node<T>>)
    ensures NodeSet(Reversed(ns)) == NodeSet(ns)
  {
    var r := Reversed(ns);
    forall i | 0 <= i < |ns|
      ensures ns[i] in NodeSet(r)
    {
      assert r[|ns| - 1 - i] == ns[i];
    }
  }

  /** What each node's `prev` is in a chain of `ns`. */
  function PrevLinks<T>(ns: seq<Node<T>>): (ps: seq<Node?<T>>)
    ensures |ps| == |ns|
    ensures forall i :: 0 <= i < |ns| ==> ps[i] == if i == 0 then null else ns[i - 1]
  {
    seq(|ns|, i requires 0 <= i < |ns| => if i == 0 then null else ns[i - 1])
  }

  /** What each node's `next` is in a chain of `ns`. */
  function NextLinks<T>(ns: seq<Node<T>>): (xs: seq<Node?<T>>)
    ensures |xs| == |ns|
    ensures forall i :: 0 <= i < |ns| ==> xs[i] == if i == |ns| - 1 then null else ns[i + 1]
  {
    seq(|ns|, i requires 0 <= i < |ns| => if i == |ns| - 1 then null else ns[i + 1])
  }

  /** The values of nodes read back to front are their values read back to front. */
  lemma ReversedValues<T>(ns: seq<Node<T>>, vs: seq<T>)
    requires |ns| == |vs|
    requires forall i {:trigger vs[i]} :: 0 <= i < |ns| ==> ns[i].val == vs[i]
    ensures Values(Reversed(ns)) == Reversed(vs)
  {
    var r := Reversed(ns);
    forall i | 0 <= i < |r|
      ensures r[i].val == Reversed(vs)[i]
    {
      assert r[i] == ns[|ns| - 1 - i] && ns[|ns| - 1 - i].val == vs[|ns| - 1 - i];
    }
  }

  /** In a chain every node's links are given by `PrevLinks` and `NextLinks`. */
  lemma ChainLinks<T>(ns: seq<Node<T>>, prevs: seq<Node?<T>>, nexts: seq<Node?<T>>)
    requires Chain(ns) && prevs == PrevLinks(ns) && nexts == NextLinks(ns)
    ensures forall i {:trigger prevs[i]} :: 0 <= i < |ns| ==> ns[i].prev == prevs[i]
    ensures forall i {:trigger nexts[i]} :: 0 <= i < |ns| ==> ns[i].next == nexts[i]
  {
  }

  /** Nodes whose links have all been swapped form a chain in the opposite order. */
  lemma SwappedChain<T>(ns: seq<Node<T>>, prevs: seq<Node?<T>>, nexts: seq<Node?<T>>)
    requires prevs == PrevLinks(ns) && nexts == NextLinks(ns)
    requires forall i {:trigger prevs[i]} :: 0 <= i < |ns| ==> ns[i].next == prevs[i]
    requires forall i {:trigger nexts[i]} :: 0 <= i < |ns| ==> ns[i].prev == nexts[i]
    ensures Chain(Reversed(ns))
  {
    var r := Reversed(ns);
    if ns != [] {
      assert r[0] == ns[|ns| - 1] && r[|r| - 1] == ns[0];
      assert ns[|ns| - 1].prev == nexts[|ns| - 1];
      assert ns[0].next == prevs[0];
    }
    forall i | 0 <= i < |r| - 1
      ensures r[i].next == r[i + 1] && r[i + 1].prev == r[i]
    {
      var j := |ns| - 2 - i;
      assert r[i] == ns[j + 1] && r[i + 1] == ns[j];
      assert ns[j + 1].next == prevs[j + 1] && ns[j].prev == nexts[j];
    }
  }

  /**
    The loop of `reverse`: walks from `first` along the old `next` links and swaps each node's
    `next` and `prev`, returning the last node visited (the old end). Values are untouched.
  */
  method ReverseLinks<T>(first: Node<T>, ghost N: seq<Node<T>>, ghost prevs: seq<Node?<T>>, ghost nexts: seq<Node?<T>>)
    returns (last: Node<T>)
    requires |N| >= 1 && first == N[0]
    requires forall i, j :: 0 <= i < j < |N| ==> N[i] != N[j]
    requires prevs == PrevLinks(N) && nexts == NextLinks(N)
    requires forall i {:trigger nexts[i]} :: 0 <= i < |N| ==> N[i].next == nexts[i]
    requires forall i {:trigger prevs[i]} :: 0 <= i < |N| ==> N[i].prev == prevs[i]
    modifies NodeSet(N)
    ensures last == N[|N| - 1]
    ensures forall i {:trigger prevs[i]} :: 0 <= i < |N| ==> N[i].next == prevs[i]
    ensures forall i {:trigger nexts[i]} :: 0 <= i < |N| ==> N[i].prev == nexts[i]
    ensures forall i :: 0 <= i < |N| ==> N[i].val == old(N[i].val)
  {
    ghost var n := |N|;
    var current: Node?<T> := first;
    var prev: Node?<T> := null;
    ghost var k := 0;
    while current != null
      invariant 0 <= k <= n
      invariant current == if k < n then N[k] else null
      invariant prev == if k == 0 then null else N[k - 1]
      invariant forall i :: 0 <= i < n ==> N[i].val == old(N[i].val)
      invariant forall i {:trigger prevs[i]} :: 0 <= i < k ==> N[i].next == prevs[i]
      invariant forall i {:trigger nexts[i]} :: 0 <= i < k ==> N[i].prev == nexts[i]
      invariant forall i {:trigger nexts[i]} :: k <= i < n ==> N[i].next == nexts[i]
      invariant forall i {:trigger prevs[i]} :: k <= i < n ==> N[i].prev == prevs[i]
      decreases n - k
    {
      assert current.next == nexts[k] && current.prev == prevs[k];
      var next := current.next;
      current.next := prev;
      current.prev := next;
      prev := current;
      current := next;
      k := k + 1;
    }
    last := prev;
  }

  class LinkedList<T> {
    var length: nat
    var start: Node?<T>
    var end: Node?<T>

    /** The nodes in order from `start` to `end`. */
    ghost var nodes: seq<Node<T>>
    ghost var Repr: set<object>

    /**
      The list invariant: `length` counts the nodes, the nodes are distinct, `start` and `end`
      are the first and last node (both null exactly when the list is empty), `start` has no
      `prev`, `end` has no `next`, and consecutive nodes are linked both ways. The footprint
      `Repr` is the list object and its nodes, nothing more.
    */
    ghost predicate Valid()
      reads this, Repr
    {
      && this in Repr
      && (forall i :: 0 <= i < |nodes| ==> nodes[i] in Repr)
      && Repr == {this} + NodeSet(nodes)
      && length == |nodes|
      && (forall i, j :: 0 <= i < j < |nodes| ==> nodes[i] != nodes[j])
      && (if nodes == [] then start == null && end == null
          else start == nodes[0] && end == nodes[|nodes| - 1])
      && Chain(nodes)
    }

    /** The values in the list, from `start` to `end`. */
    ghost function Contents(): (s: seq<T>)
      reads this, Repr
      requires Valid()
      ensures |s| == length
      ensures forall i :: 0 <= i < length ==> s[i] == nodes[i].val
    {
      Values(nodes)
    }

    /** `LinkedList::new`: an empty list. */
    constructor ()
      ensures Valid() && fresh(Repr)
      ensures length == 0 && start == null && end == null
      ensures Contents() == []
    {
      length := 0;
      start := null;
      end := null;
      nodes := [];
      Repr := {this};
    }

    /**
      `add`: appends a fresh node holding `obj`. The new node becomes `end`, its `prev` is the old
      `end` and its `next` is null; in a non-empty list only the old end's `next` changes
      (the `modifies` clause names nothing else), in an empty list the new node is also `start`.
    */
    method Add(obj: T)
      requires Valid()
      modifies this, end
      ensures Valid()
      ensures fresh(Repr - old(Repr))
      ensures length == old(length) + 1
      ensures Contents() == old(Contents()) + [obj]
      ensures nodes == old(nodes) + [end] && fresh(end)
      ensures end.val == obj && end.prev == old(end) && end.next == null
      ensures old(end) == null ==> start == end
      ensures old(end) != null ==> start == old(start) && old(end).next == end
    {
      ghost var N := nodes;
      var node := new Node(obj);
      node.next := null;
      node.prev := end;
      if end == null {
        start := node;
      } else {
        end.next := node;
      }
      end := node;
      length := length + 1;
      nodes := N + [node];
      Repr := Repr + {node};
      Appended(N, node);
    }

    /**
      The list after `add`: `node` is linked behind the nodes `N` it had, and only the old end's
      `next` changed among them. It is valid again and its contents gained the node's value.
    */
    twostate lemma Appended(N: seq<Node<T>>, new node: Node<T>)
      requires old(Valid()) && old(nodes) == N && fresh(node)
      requires forall i :: 0 <= i < |N| - 1 ==> unchanged(N[i])
      requires N != [] ==> N[|N| - 1].val == old(N[|N| - 1].val) && N[|N| - 1].prev == old(N[|N| - 1].prev)
      requires N != [] ==> N[|N| - 1].next == node
      requires node.prev == old(end) && node.next == null
      requires nodes == N + [node] && Repr == old(Repr) + {node} && length == |nodes| && end == node
      requires start == if N == [] then node else old(start)
      ensures Valid() && Contents() == old(Contents()) + [node.val]
    {
      AppendedIsValid(N, node);
      AppendedContents(N, node);
    }

    /** The links after `add` form one chain again, so the list is valid. */
    twostate lemma AppendedIsValid(N: seq<Node<T>>, new node: Node<T>)
      requires old(Valid()) && old(nodes) == N && fresh(node)
      requires forall i :: 0 <= i < |N| - 1 ==> unchanged(N[i])
      requires N != [] ==> N[|N| - 1].val == old(N[|N| - 1].val) && N[|N| - 1].prev == old(N[|N| - 1].prev)
      requires N != [] ==> N[|N| - 1].next == node
      requires node.prev == old(end) && node.next == null
      requires nodes == N + [node] && Repr == old(Repr) + {node} && length == |nodes| && end == node
      requires start == if N == [] then node else old(start)
      ensures Valid()
    {
      var prevs := PrevLinks(N);
      var nexts := NextLinks(N);
      assert forall i {:trigger prevs[i]} :: 0 <= i < |N| ==> old(N[i].prev) == prevs[i];
      assert forall i {:trigger nexts[i]} :: 0 <= i < |N| ==> old(N[i].next) == nexts[i];
      NodeSetAppend(N, node);
      forall i | 0 <= i < |nodes| - 1
        ensures nodes[i].next == nodes[i + 1] && nodes[i + 1].prev == nodes[i]
      {
        assert nodes[i] == N[i] && nodes[i + 1] == if i + 1 < |N| then N[i + 1] else node;
        if i < |N| - 1 {
          assert N[i].next == nexts[i] && N[i + 1].prev == prevs[i + 1];
        }
      }
      if N != [] {
        assert N[0].prev == prevs[0];
      }
    }

    /** `add` keeps every old node's value: the contents gain the new node's value at the end. */
    twostate lemma AppendedContents(N: seq<Node<T>>, new node: Node<T>)
      requires old(Valid()) && old(nodes) == N && Valid() && nodes == N + [node]
      requires forall i :: 0 <= i < |N| ==> N[i].val == old(N[i].val)
      ensures Contents() == old(Contents()) + [node.val]
    {
      var V := old(Contents());
      forall i | 0 <= i < |N|
        ensures Contents()[i] == V[i]
      {
        assert nodes[i] == N[i];
      }
    }

    ghost function IndexOf(n: Node<T>): (k: nat)
      reads this, Repr
      requires Valid() && n in nodes
      ensures k < |nodes| && nodes[k] == n
      ensures forall j :: 0 <= j < |nodes| && nodes[j] == n ==> j == k
    {
      var k :| 0 <= k < |nodes| && nodes[k] == n; k
    }

    /** The successor of a node is the next one in `nodes`; only the last node has none. */
    lemma NextIndex(node: Node<T>)
      requires Valid() && node in nodes
      ensures node.next == null <==> IndexOf(node) == |nodes| - 1
      ensures node.next != null ==> node.next in nodes && IndexOf(node.next) == IndexOf(node) + 1
    {
      var k := IndexOf(node);
      assert forall i :: 0 <= i < |nodes| ==> nodes[i].next == if i == |nodes| - 1 then null else nodes[i + 1];
      assert nodes[k].next == if k == |nodes| - 1 then null else nodes[k + 1];
      if k < |nodes| - 1 {
        assert IndexOf(nodes[k + 1]) == k + 1;
      }
    }

    /**
      `get_ith_node`: follows `next` from `node` for `index` steps. A negative index never reaches 0,
      so the walk runs off the end and gives `None`.
    */
    function GetIthNode(node: Node?<T>, index: int): (r: Option<T>)
      reads this, Repr
      requires Valid() && (node == null || node in nodes)
      ensures node == null ==> r == None
      ensures node != null ==>
        r == if 0 <= index < |nodes| - IndexOf(node) then Some(nodes[IndexOf(node) + index].val) else None
      decreases if node == null then 0 else |nodes| - IndexOf(node)
    {
      if node == null then None
      else if index == 0 then Some(node.val)
      else
        NextIndex(node);
        GetIthNode(node.next, index - 1)
    }

    /**
      `get` (the iterative version): `None` for an index below 0 or at least `length`, otherwise the
      value of the node reached by walking `index` steps from `start`. It agrees with the recursive
      `get_ith_node` started at `start`, for every index.
    */
    method Get(index: int) returns (r: Option<T>)
      requires Valid()
      ensures r == if 0 <= index < length then Some(Contents()[index]) else None
      ensures r == GetIthNode(start, index)
    {
      if index < 0 || index >= length {
        return None;
      }
      var current := start;
      var currentIndex := 0;
      while current != null
        invariant 0 <= currentIndex <= index
        invariant current == nodes[currentIndex]
        decreases length - currentIndex
      {
        if currentIndex == index {
          return Some(current.val);
        }
        current := current.next;
        currentIndex := currentIndex + 1;
      }
      assert false;
      return None;
    }

    /**
      `reverse`: a no-op when `length <= 1`; otherwise one pass from `start` that sets each node's
      `next` to the node visited before it and its `prev` to its old `next`, after which the old
      `start` is the `end` and the old `end` is the `start`. No node is created or dropped.
    */
    method Reverse()
      requires Valid()
      modifies Repr
      ensures Valid() && Repr == old(Repr)
      ensures length == old(length)
      ensures nodes == Reversed(old(nodes))
      ensures Contents() == Reversed(old(Contents()))
      ensures start == old(end) && end == old(start)
    {
      if length <= 1 {
        assert |nodes| == 1 ==> nodes == Reversed(nodes);
        return;
      }
      ghost var N := nodes;
      ghost var Prevs := PrevLinks(N);
      ghost var Nexts := NextLinks(N);
      ChainLinks(N, Prevs, Nexts);
      assert this !in NodeSet(N);
      var current := start;
      end := current;
      var prev := ReverseLinks(current, N, Prevs, Nexts);
      start := prev;
      nodes := Reversed(N);
      SwappedChain(N, Prevs, Nexts);
      SwappedIsValid(N);
    }

    /**
      After `reverse` has swapped every link and kept every value, the list over the same nodes
      read back to front is valid and holds the old contents reversed.
    */
    twostate lemma SwappedIsValid(N: seq<Node<T>>)
      requires old(Valid()) && old(nodes) == N && |N| >= 1
      requires Chain(Reversed(N))
      requires forall i :: 0 <= i < |N| ==> N[i].val == old(N[i].val)
      requires Repr == old(Repr) && length == |N|
      requires nodes == Reversed(N) && start == N[|N| - 1] && end == N[0]
      ensures Valid() && Contents() == Reversed(old(Contents()))
    {
      ReversedDistinct(N);
      NodeSetReversed(N);
      ReversedValues(N, old(Contents()));
    }

    /** `Display` for a node: its value, then `", "` and the rendering of its successor, if any. */
    function NodeDisplay(node: Node<T>, show: T -> string): (r: string)
      reads this, Repr
      requires Valid() && node in nodes
      ensures r == Text.Join(MapShow(Values(nodes[IndexOf(node)..]), show), ", ")
      decreases |nodes| - IndexOf(node)
    {
      NextIndex(node);
      if node.next == null then
        assert nodes[IndexOf(node)..] == [node];
        show(node.val)
      else
        assert nodes[IndexOf(node)..] == [node] + nodes[IndexOf(node.next)..];
        show(node.val) + ", " + NodeDisplay(node.next, show)
    }

    /** `Display` for the list: the node renderings from `start`, or the empty string. */
    function Display(show: T -> string): (r: string)
      reads this, Repr
      requires Valid()
      ensures r == Text.Join(MapShow(Contents(), show), ", ")
    {
      if start == null then "" else NodeDisplay(start, show)
    }
  }

  function MapShow<T>(vs: seq<T>, show: T -> string): (r: seq<string>)
    ensures |r| == |vs| && forall i :: 0 <= i < |vs| ==> r[i] == show(vs[i])
  {
    if vs == [] then [] else [show(vs[0])] + MapShow(vs[1..], show)
  }

  /**
    The reversal tests' check: after `reverse`, `get(i)` finds the value that was at position
    `length - 1 - i`, and nothing outside the list.
  */
  method GetAfterReverse<T>(l: LinkedList<T>, i: int) returns (r: Option<T>)
    requires l.Valid()
    modifies l.Repr
    ensures r == if 0 <= i < old(l.length) then Some(old(l.Contents())[old(l.length) - 1 - i]) else None
  {
    ghost var C := l.Contents();
    l.Reverse();
    ghost var D := l.Contents();
    r := l.Get(i);
    assert D == Reversed(C);
  }

  /** The two reversal cases from the tests: the expected vectors are the inputs reversed. */
  lemma ReverseCases()
    ensures Reversed([2, 3, 5, 11, 9, 7]) == [7, 9, 11, 5, 3, 2]
    ensures Reversed([34, 56, 78, 25, 90, 10, 19, 34, 21, 45]) == [45, 21, 34, 19, 10, 90, 25, 78, 56, 34]
  {
  }
}
