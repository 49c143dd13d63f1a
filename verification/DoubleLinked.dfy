/**
 An intrusive doubly linked list. Every operation rewrites a constant number of pointers; the
 list of nodes changes as the matching operation on sequences says.
 */
module DoubleLinkedLists {

  class NodeBase {
    var next: NodeBase?
    var previous: NodeBase?
    /** The list the node is in, kept in debug builds. */
    var owner: DoubleLinked?

    constructor ()
      ensures next == null && previous == null && owner == null
    {
      next, previous, owner := null, null, null;
    }

    ghost predicate IsUnlinked()
      reads this
    {
      next == null && previous == null && owner == null
    }
  }

  predicate IsDistinct(nodes: seq<NodeBase>) {
    forall i, j :: 0 <= i < j < |nodes| ==> nodes[i] != nodes[j]
  }

  /** The node at `i`, or null past either end. */
  ghost function NodeOrNull(nodes: seq<NodeBase>, i: int): NodeBase? {
    if 0 <= i < |nodes| then nodes[i] else null
  }

  /** `nodes` with the nodes from `a` to `b` replaced by `middle`. */
  function Spliced(nodes: seq<NodeBase>, a: nat, b: nat, middle: seq<NodeBase>): seq<NodeBase>
    requires a <= b <= |nodes|
  {
    nodes[..a] + middle + nodes[b..]
  }

  lemma SplicedElements(nodes: seq<NodeBase>, a: nat, b: nat, middle: seq<NodeBase>)
    requires a <= b <= |nodes| && |middle| <= 1
    ensures |Spliced(nodes, a, b, middle)| == |nodes| - (b - a) + |middle|
    ensures forall i :: 0 <= i < a ==> Spliced(nodes, a, b, middle)[i] == nodes[i]
    ensures middle != [] ==> Spliced(nodes, a, b, middle)[a] == middle[0]
    ensures forall i :: a + |middle| <= i < |Spliced(nodes, a, b, middle)| ==>
              Spliced(nodes, a, b, middle)[i] == nodes[i + (b - a - |middle|)]
  {
  }

  lemma SplicedOne(nodes: seq<NodeBase>, k: nat, n: NodeBase)
    requires k < |nodes|
    ensures Spliced(nodes, k, k + 1, [n]) == nodes[k := n]
    ensures Spliced(nodes, k, k + 1, []) == nodes[..k] + nodes[k + 1..]
  {
  }

  lemma SplicedNodes(nodes: seq<NodeBase>, a: nat, b: nat, middle: seq<NodeBase>)
    requires a <= b <= |nodes| && |middle| <= 1 && IsDistinct(nodes)
    requires forall i | 0 <= i < |nodes| && middle != [] :: nodes[i] != middle[0]
    ensures IsDistinct(Spliced(nodes, a, b, middle))
  {
  }

  function Reversed(nodes: seq<NodeBase>): (r: seq<NodeBase>)
    ensures |r| == |nodes|
    ensures forall i :: 0 <= i < |nodes| ==> r[i] == nodes[|nodes| - 1 - i]
  {
    if nodes == [] then [] else Reversed(nodes[1..]) + [nodes[0]]
  }

  class DoubleLinked {
    var first: NodeBase?
    var last: NodeBase?
    /** The nodes in the list, from first to last. */
    ghost var nodes: seq<NodeBase>

    ghost predicate Valid()
      reads this, nodes
    {
      && IsDistinct(nodes)
      && first == NodeOrNull(nodes, 0) && last == NodeOrNull(nodes, |nodes| - 1)
      && (forall i {:trigger nodes[i].next} :: 0 <= i < |nodes| ==> nodes[i].next == NodeOrNull(nodes, i + 1))
      && (forall i {:trigger nodes[i].previous} :: 0 <= i < |nodes| ==> nodes[i].previous == NodeOrNull(nodes, i - 1))
      && (forall i {:trigger nodes[i].owner} :: 0 <= i < |nodes| ==> nodes[i].owner == this)
    }

    /**
     The pointers are those of the list in which the nodes of `was` from `a` to `b` are replaced
     by `middle`, none or one node.
     */
    ghost predicate AreSpliced(was: seq<NodeBase>, a: nat, b: nat, middle: seq<NodeBase>)
      requires a <= b <= |was| && |middle| <= 1
      reads this`first, this`last, was, middle
    {
      var left, right := NodeOrNull(was, a - 1), NodeOrNull(was, b);
      var head := if middle == [] then right else middle[0];
      var tail := if middle == [] then left else middle[0];
      && first == (if a == 0 then head else was[0])
      && last == (if b == |was| then tail else was[|was| - 1])
      && (middle != [] ==> middle[0].next == right && middle[0].previous == left && middle[0].owner == this)
      && (forall i {:trigger was[i].next} :: 0 <= i < a || b <= i < |was| ==>
            was[i].next == if i == a - 1 then head else NodeOrNull(was, i + 1))
      && (forall i {:trigger was[i].previous} :: 0 <= i < a || b <= i < |was| ==>
            was[i].previous == if i == b then tail else NodeOrNull(was, i - 1))
      && (forall i {:trigger was[i].owner} :: 0 <= i < a || b <= i < |was| ==> was[i].owner == this)
    }

    lemma SplicedIsValid(was: seq<NodeBase>, a: nat, b: nat, middle: seq<NodeBase>)
      requires a <= b <= |was| && |middle| <= 1 && nodes == Spliced(was, a, b, middle) && IsDistinct(nodes)
      requires AreSpliced(was, a, b, middle)
      ensures Valid()
    {
      hide IsDistinct, Spliced;
      var shift := b - a - |middle|;
      SplicedElements(was, a, b, middle);
      forall i | 0 <= i < |nodes|
        ensures nodes[i].next == NodeOrNull(nodes, i + 1) && nodes[i].previous == NodeOrNull(nodes, i - 1)
        ensures nodes[i].owner == this
      {
        if i < a {
          assert nodes[i] == was[i];
        } else if i >= a + |middle| {
          assert nodes[i] == was[i + shift];
        }
      }
    }

    /** The list of nodes follows the pointers. */
    ghost method Splice(a: nat, b: nat, middle: seq<NodeBase>)
      requires a <= b <= |nodes| && |middle| <= 1 && IsDistinct(nodes)
      requires forall i | 0 <= i < |nodes| && middle != [] :: nodes[i] != middle[0]
      requires AreSpliced(nodes, a, b, middle)
      modifies this`nodes
      ensures Valid() && nodes == Spliced(old(nodes), a, b, middle)
    {
      hide IsDistinct, AreSpliced;
      SplicedNodes(nodes, a, b, middle);
      ghost var was := nodes;
      nodes := Spliced(nodes, a, b, middle);
      SplicedIsValid(was, a, b, middle);
    }

    lemma ApartAround(k: nat)
      requires Valid() && k < |nodes|
      ensures forall i | 0 <= i < |nodes| && i != k :: nodes[i] != nodes[k]
      ensures forall i | 0 <= i < |nodes| && i != k - 1 && k > 0 :: nodes[i] != nodes[k - 1]
      ensures forall i | 0 <= i < |nodes| && i != k + 1 && k < |nodes| - 1 :: nodes[i] != nodes[k + 1]
    {
    }

    lemma IsNew(newNode: NodeBase)
      requires Valid() && newNode.owner == null
      ensures forall i :: 0 <= i < |nodes| ==> nodes[i] != newNode
    {
    }

    constructor ()
      ensures Valid() && nodes == []
    {
      first, last, nodes := null, null, [];
    }

    predicate Empty()
      reads this
    {
      first == null
    }

    method AppendNode(newNode: NodeBase)
      requires Valid() && newNode.IsUnlinked()
      modifies this, newNode, nodes
      ensures Valid() && nodes == old(nodes) + [newNode]
    {
      assert newNode !in nodes;
      newNode.owner := this;
      newNode.next := null;
      newNode.previous := last;
      if first == null {
        first := newNode;
      }
      if last != null {
        last.next := newNode;
      }
      last := newNode;
      nodes := nodes + [newNode];
    }

    method PrependNode(newNode: NodeBase)
      requires Valid() && newNode.IsUnlinked()
      modifies this, newNode, nodes
      ensures Valid() && nodes == [newNode] + old(nodes)
    {
      assert newNode !in nodes;
      newNode.owner := this;
      newNode.next := first;
      newNode.previous := null;
      if last == null {
        last := newNode;
      }
      if first != null {
        first.previous := newNode;
      }
      first := newNode;
      nodes := [newNode] + nodes;
    }

    /** After no node means at the start. */
    method InsertAfter(newNode: NodeBase, refNode: NodeBase?, ghost k: nat)
      requires Valid() && newNode.IsUnlinked()
      requires refNode != null ==> k < |nodes| && nodes[k] == refNode
      modifies this, newNode, nodes
      ensures Valid()
      ensures refNode == null ==> nodes == [newNode] + old(nodes)
      ensures refNode != null ==> nodes == old(nodes)[..k + 1] + [newNode] + old(nodes)[k + 1..]
    {
      if refNode == null {
        PrependNode(newNode);
      } else {
        InsertAfterNode(newNode, refNode, k);
      }
    }

    method InsertAfterNode(newNode: NodeBase, refNode: NodeBase, ghost k: nat)
      requires Valid() && newNode.IsUnlinked() && k < |nodes| && nodes[k] == refNode
      modifies this, newNode, nodes
      ensures Valid() && nodes == old(nodes)[..k + 1] + [newNode] + old(nodes)[k + 1..]
    {
      ApartAround(k);
      IsNew(newNode);
      hide IsDistinct;
      newNode.owner := this;
      var next := refNode.next;
      if next != null {
        next.previous := newNode;
      } else {
        last := newNode;
      }
      newNode.next := next;
      newNode.previous := refNode;
      refNode.next := newNode;
      Splice(k + 1, k + 1, [newNode]);
    }

    /** Before no node means at the end. */
    method InsertBefore(newNode: NodeBase, refNode: NodeBase?, ghost k: nat)
      requires Valid() && newNode.IsUnlinked()
      requires refNode != null ==> k < |nodes| && nodes[k] == refNode
      modifies this, newNode, nodes
      ensures Valid()
      ensures refNode == null ==> nodes == old(nodes) + [newNode]
      ensures refNode != null ==> nodes == old(nodes)[..k] + [newNode] + old(nodes)[k..]
    {
      if refNode == null {
        AppendNode(newNode);
      } else {
        InsertBeforeNode(newNode, refNode, k);
      }
    }

    method InsertBeforeNode(newNode: NodeBase, refNode: NodeBase, ghost k: nat)
      requires Valid() && newNode.IsUnlinked() && k < |nodes| && nodes[k] == refNode
      modifies this, newNode, nodes
      ensures Valid() && nodes == old(nodes)[..k] + [newNode] + old(nodes)[k..]
    {
      ApartAround(k);
      IsNew(newNode);
      hide IsDistinct;
      newNode.owner := this;
      var previous := refNode.previous;
      if previous != null {
        previous.next := newNode;
      } else {
        first := newNode;
      }
      newNode.next := refNode;
      newNode.previous := previous;
      refNode.previous := newNode;
      Splice(k, k, [newNode]);
    }

    method RemoveNode(oldNode: NodeBase, ghost k: nat)
      requires Valid() && k < |nodes| && nodes[k] == oldNode
      modifies this, nodes
      ensures Valid() && oldNode.IsUnlinked()
      ensures oldNode.next == null && oldNode.previous == null && oldNode.owner == null
      ensures nodes == old(nodes)[..k] + old(nodes)[k + 1..]
    {
      hide IsDistinct, Spliced, AreSpliced;
      BypassNode(oldNode, k);
      SplicedOne(nodes, k, oldNode);
      Splice(k, k + 1, []);
    }

    /** The pointer updates of `RemoveNode`. */
    method BypassNode(oldNode: NodeBase, ghost k: nat)
      requires Valid() && k < |nodes| && nodes[k] == oldNode
      modifies this`first, this`last, nodes
      ensures IsDistinct(nodes) && AreSpliced(nodes, k, k + 1, []) && oldNode.IsUnlinked()
    {
      ApartAround(k);
      hide IsDistinct;
      oldNode.owner := null;
      var next := oldNode.next;
      var previous := oldNode.previous;
      if next != null {
        next.previous := previous;
      } else {
        last := previous;
      }
      if previous != null {
        previous.next := next;
      } else {
        first := next;
      }
      oldNode.next := null;
      oldNode.previous := null;
    }

    method ReplaceNode(newNode: NodeBase, oldNode: NodeBase, ghost k: nat)
      requires Valid() && newNode.IsUnlinked() && k < |nodes| && nodes[k] == oldNode
      modifies this, newNode, nodes
      ensures Valid() && oldNode.IsUnlinked()
      ensures oldNode.next == null && oldNode.previous == null && oldNode.owner == null
      ensures nodes == old(nodes)[k := newNode]
    {
      IsNew(newNode);
      hide IsDistinct, Spliced, AreSpliced;
      RelinkNode(newNode, oldNode, k);
      SplicedOne(nodes, k, newNode);
      Splice(k, k + 1, [newNode]);
    }

    /** The pointer updates of `ReplaceNode`. */
    method RelinkNode(newNode: NodeBase, oldNode: NodeBase, ghost k: nat)
      requires Valid() && newNode.IsUnlinked() && k < |nodes| && nodes[k] == oldNode
      modifies this`first, this`last, newNode, nodes
      ensures AreSpliced(nodes, k, k + 1, [newNode]) && oldNode.IsUnlinked()
    {
      ApartAround(k);
      IsNew(newNode);
      hide IsDistinct;
      newNode.owner := this;
      oldNode.owner := null;
      var next := oldNode.next;
      var previous := oldNode.previous;
      oldNode.next := null;
      oldNode.previous := null;
      if next != null {
        next.previous := newNode;
      } else {
        last := newNode;
      }
      newNode.next := next;
      if previous != null {
        previous.next := newNode;
      } else {
        first := newNode;
      }
      newNode.previous := previous;
    }

    lemma FirstNode()
      requires Valid()
      ensures IsDistinct(nodes) && first == NodeOrNull(nodes, 0)
    {
    }

    static lemma RestApart(was: seq<NodeBase>, k: nat)
      requires IsDistinct(was) && k < |was|
      ensures forall i | 0 <= i < k :: was[i] !in was[k..]
      ensures was[k..][0] == was[k] && was[k..][..0] + was[k..][1..] == was[k + 1..]
    {
    }

    method RemoveAll()
      requires Valid()
      modifies this, nodes
      ensures Valid() && nodes == [] && Empty()
      ensures forall n | n in old(nodes) :: n.IsUnlinked()
    {
      hide Valid, IsDistinct, NodeBase.IsUnlinked;
      ghost var removed: nat := 0;
      FirstNode();
      while first != null
        invariant Valid() && removed <= |old(nodes)| && nodes == old(nodes)[removed..]
        invariant forall i | 0 <= i < removed :: old(nodes)[i].IsUnlinked()
        decreases |nodes|
      {
        FirstNode();
        RestApart(old(nodes), removed);
        RemoveNode(first, 0);
        removed := removed + 1;
      }
      FirstNode();
    }

    method Count() returns (n: nat)
      requires Valid()
      ensures n == |nodes|
    {
      n := 0;
      var it := first;
      while it != null
        invariant n <= |nodes| && it == NodeOrNull(nodes, n)
        decreases |nodes| - n
      {
        it := it.next;
        n := n + 1;
      }
    }

    /** Iterating from `begin` to `end`. */
    method Forward() returns (r: seq<NodeBase>)
      requires Valid()
      ensures r == nodes
    {
      r := [];
      var it := first;
      while it != null
        invariant |r| <= |nodes| && r == nodes[..|r|] && it == NodeOrNull(nodes, |r|)
        decreases |nodes| - |r|
      {
        r := r + [it];
        it := it.next;
      }
    }

    /** Iterating from `rbegin` to `rend`. */
    method Backward() returns (r: seq<NodeBase>)
      requires Valid()
      ensures r == Reversed(nodes)
    {
      r := [];
      var it := last;
      while it != null
        invariant |r| <= |nodes| && r == Reversed(nodes)[..|r|] && it == NodeOrNull(nodes, |nodes| - 1 - |r|)
        decreases |nodes| - |r|
      {
        r := r + [it];
        it := it.previous;
      }
    }
  }

  /** Two valid lists share no node. */
  lemma ListsAreDisjoint(a: DoubleLinked, b: DoubleLinked, n: NodeBase)
    requires a.Valid() && b.Valid() && n in a.nodes && n in b.nodes
    ensures a == b
  {
    var i :| 0 <= i < |a.nodes| && a.nodes[i] == n;
    var j :| 0 <= j < |b.nodes| && b.nodes[j] == n;
    assert a.nodes[i].owner == a && b.nodes[j].owner == b;
  }
}
