/**
 Walks over syntax trees. The iterator and the depth-first traversal keep a stack of their
 own; both visit the nodes in recursive preorder, and end with an empty stack.
 */
module NodeTraversal {
  import opened Wrappers
  import Sequences

  /** Nodes are told apart by `id`. */
  datatype AstNode = AstNode(id: nat, children: seq<AstNode>)

  function Preorder(n: AstNode): (r: seq<AstNode>)
    ensures r != [] && r[0] == n
  {
    [n] + PreorderOfAll(n.children)
  }

  function PreorderOfAll(nodes: seq<AstNode>): (r: seq<AstNode>)
    ensures nodes != [] ==> r != [] && r[0] == nodes[0]
  {
    if nodes == [] then [] else Preorder(nodes[0]) + PreorderOfAll(nodes[1..])
  }

  // What preorder means: nodes are ordered by their paths from the root, lexicographically.

  /** `path` names a node below `root`, or `root` itself. */
  predicate IsPath(root: AstNode, path: seq<nat>)
    decreases |path|
  {
    path != [] ==> path[0] < |root.children| && IsPath(root.children[path[0]], path[1..])
  }

  function NodeAt(root: AstNode, path: seq<nat>): AstNode
    requires IsPath(root, path)
    decreases |path|
  {
    if path == [] then root else NodeAt(root.children[path[0]], path[1..])
  }

  function PositionOf(root: AstNode, path: seq<nat>): nat
    requires IsPath(root, path)
    decreases |path|
  {
    if path == [] then 0 else
      1 + |PreorderOfAll(root.children[..path[0]])| + PositionOf(root.children[path[0]], path[1..])
  }

  predicate IsBefore(p: seq<nat>, q: seq<nat>) {
    if q == [] then false
    else if p == [] then true
    else p[0] < q[0] || (p[0] == q[0] && IsBefore(p[1..], q[1..]))
  }

  lemma {:induction false} PreorderSplits(nodes: seq<AstNode>, i: nat)
    requires i <= |nodes|
    ensures PreorderOfAll(nodes) == PreorderOfAll(nodes[..i]) + PreorderOfAll(nodes[i..])
  {
    if i == 0 {
      assert nodes[0..] == nodes;
    } else {
      hide Preorder, PreorderOfAll;
      PreorderSplits(nodes[1..], i - 1);
      assert nodes[..i][1..] == nodes[1..][..i - 1] && nodes[1..][i - 1..] == nodes[i..];
      FirstAndRest(nodes);
      FirstAndRest(nodes[..i]);
      Sequences.ConcatAssociative(Preorder(nodes[0]), PreorderOfAll(nodes[..i][1..]), PreorderOfAll(nodes[i..]));
    }
  }

  lemma {:induction false} FirstAndRest(nodes: seq<AstNode>)
    requires nodes != []
    ensures PreorderOfAll(nodes) == Preorder(nodes[0]) + PreorderOfAll(nodes[1..])
  {
  }

  lemma {:induction false} PreorderOneMore(nodes: seq<AstNode>, i: nat)
    requires i < |nodes|
    ensures PreorderOfAll(nodes[..i + 1]) == PreorderOfAll(nodes[..i]) + Preorder(nodes[i])
  {
    hide Preorder;
    PreorderSplits(nodes[..i + 1], i);
    assert nodes[..i + 1][..i] == nodes[..i] && nodes[..i + 1][i..] == [nodes[i]];
    assert PreorderOfAll([nodes[i]]) == Preorder(nodes[i]) + PreorderOfAll([]);
  }

  lemma {:induction false} PreorderFrom(nodes: seq<AstNode>, i: nat)
    requires i < |nodes|
    ensures PreorderOfAll(nodes[i..]) == Preorder(nodes[i]) + PreorderOfAll(nodes[i + 1..])
  {
    assert nodes[i..][1..] == nodes[i + 1..];
  }

  ghost predicate IsPartAt(whole: seq<AstNode>, k: nat, part: seq<AstNode>) {
    k + |part| <= |whole| && whole[k..k + |part|] == part
  }

  /** The subtree at a path is a contiguous part of the preorder. */
  lemma {:induction false} SubtreeIsContiguous(root: AstNode, path: seq<nat>)
    requires IsPath(root, path)
    ensures IsPartAt(Preorder(root), PositionOf(root, path), Preorder(NodeAt(root, path)))
    decreases |path|
  {
    hide Preorder, PreorderOfAll, PositionOf, NodeAt, IsPath, IsPartAt;
    if path == [] {
      RootIsPart(root);
    } else {
      StepDown(root, path);
      var i := path[0];
      var child, rest := root.children[i], path[1..];
      SubtreeIsContiguous(child, rest);
      var before, after := [root] + PreorderOfAll(root.children[..i]), PreorderOfAll(root.children[i + 1..]);
      PreorderOfChild(root, i);
      PartOfMiddle(before, Preorder(child), after, PositionOf(child, rest), Preorder(NodeAt(child, rest)));
    }
  }

  lemma {:induction false} RootIsPart(root: AstNode)
    ensures IsPath(root, []) && IsPartAt(Preorder(root), PositionOf(root, []), Preorder(NodeAt(root, [])))
  {
  }

  lemma {:induction false} StepDown(root: AstNode, path: seq<nat>)
    requires path != [] && IsPath(root, path)
    ensures path[0] < |root.children| && IsPath(root.children[path[0]], path[1..])
    ensures NodeAt(root, path) == NodeAt(root.children[path[0]], path[1..])
    ensures PositionOf(root, path) ==
            |[root] + PreorderOfAll(root.children[..path[0]])| + PositionOf(root.children[path[0]], path[1..])
  {
  }

  lemma {:induction false} PreorderOfChild(root: AstNode, i: nat)
    requires i < |root.children|
    ensures Preorder(root) ==
            [root] + PreorderOfAll(root.children[..i]) + Preorder(root.children[i]) + PreorderOfAll(root.children[i + 1..])
  {
    PreorderSplits(root.children, i);
    PreorderFrom(root.children, i);
  }

  lemma PartOfMiddle(before: seq<AstNode>, middle: seq<AstNode>, after: seq<AstNode>, k: nat, part: seq<AstNode>)
    requires IsPartAt(middle, k, part)
    ensures IsPartAt(before + middle + after, |before| + k, part)
  {
  }

  /** Every position of the preorder is that of a node. */
  lemma {:induction false} PathAtPosition(root: AstNode, k: nat) returns (path: seq<nat>)
    requires k < |Preorder(root)|
    ensures IsPath(root, path) && PositionOf(root, path) == k && NodeAt(root, path) == Preorder(root)[k]
    decreases root
  {
    if k == 0 {
      path := [];
    } else {
      var i, rest := ChildAtPosition(root, k - 1, 0);
      path := [i] + rest;
      assert path[1..] == rest;
      SubtreeIsContiguous(root, path);
    }
  }

  lemma {:induction false} ChildAtPosition(root: AstNode, k: nat, from: nat) returns (i: nat, rest: seq<nat>)
    requires from <= |root.children|
    requires |PreorderOfAll(root.children[..from])| <= k < |PreorderOfAll(root.children)|
    ensures i < |root.children| && IsPath(root.children[i], rest)
    ensures |PreorderOfAll(root.children[..i])| + PositionOf(root.children[i], rest) == k
    decreases root, |root.children| - from
  {
    hide Preorder, PreorderOfAll, PositionOf, IsPath;
    assert root.children[..|root.children|] == root.children;
    if from < |root.children| {
      PreorderOneMore(root.children, from);
      var start := |PreorderOfAll(root.children[..from])|;
      if k < start + |Preorder(root.children[from])| {
        i := from;
        rest := PathAtPosition(root.children[from], k - start);
      } else {
        i, rest := ChildAtPosition(root, k, from + 1);
      }
    }
  }

  lemma {:induction false} PreorderIsLexicographic(root: AstNode, p: seq<nat>, q: seq<nat>)
    requires IsPath(root, p) && IsPath(root, q)
    ensures PositionOf(root, p) < PositionOf(root, q) <==> IsBefore(p, q)
    decreases |p|
  {
    if p != [] && q != [] {
      if p[0] == q[0] {
        PreorderIsLexicographic(root.children[p[0]], p[1..], q[1..]);
      } else if p[0] < q[0] {
        EarlierChild(root, p, q);
      } else {
        EarlierChild(root, q, p);
      }
    }
  }

  lemma {:induction false} EarlierChild(root: AstNode, p: seq<nat>, q: seq<nat>)
    requires p != [] && q != [] && IsPath(root, p) && IsPath(root, q) && p[0] < q[0]
    ensures PositionOf(root, p) < PositionOf(root, q)
  {
    hide Preorder, PreorderOfAll;
    var i, j := p[0], q[0];
    SubtreeIsContiguous(root.children[i], p[1..]);
    PreorderSplits(root.children[..j], i + 1);
    PreorderOneMore(root.children, i);
    assert root.children[..j][..i + 1] == root.children[..i + 1];
  }

  /** A frame of the iterator's stack; no container stands for the start node. */
  datatype Frame = Frame(container: Option<AstNode>, index: nat)

  /** `InclusiveDescendants` over a start node, or over what is below a container. */
  class Iterator {
    const startNode: Option<AstNode>
    var stack: seq<Frame>

    ghost predicate Valid()
      reads this
    {
      && (forall i | 0 <= i < |stack| && stack[i].container.Some? :: stack[i].index < |stack[i].container.value.children|)
      && (forall i | 0 <= i < |stack| && stack[i].container.None? :: |stack| == 1 && startNode.Some? && stack[i].index == 0)
    }

    /** What the iterator has yet to yield, the current node first. */
    ghost function Remaining(): (r: seq<AstNode>)
      requires Valid()
      reads this
      ensures stack == [] <==> r == []
    {
      if stack == [] then [] else
        var n := |stack| - 1;
        if stack[n].container.None? then Preorder(startNode.value) else
          PreorderOfAll(stack[n].container.value.children[stack[n].index..]) + AfterFrames(stack[..n])
    }

    constructor InclusiveDescendantsOf(start: AstNode)
      ensures Valid() && Remaining() == Preorder(start)
    {
      startNode, stack := Some(start), [Frame(None, 0)];
    }

    /** A container without children has no first descendant to stand on. */
    constructor DescendantsOf(container: AstNode)
      requires |container.children| > 0
      ensures Valid() && Remaining() == Preorder(container)[1..]
    {
      startNode, stack := None, [Frame(Some(container), 0)];
      assert container.children[0..] == container.children;
    }

    predicate AtEnd()
      reads this
    {
      stack == []
    }

    method Current() returns (n: AstNode)
      requires Valid() && !AtEnd()
      ensures n == Remaining()[0]
    {
      var top := stack[|stack| - 1];
      if top.container.None? {
        return startNode.value;
      }
      return top.container.value.children[top.index];
    }

    method Next()
      requires Valid() && !AtEnd()
      modifies this
      ensures Valid() && Remaining() == old(Remaining())[1..]
    {
      var top := stack[|stack| - 1];
      if top.container.None? {
        LeaveStartNode();
        return;
      }
      var container, index := top.container.value, top.index;
      var child := container.children[index];
      assert stack == stack[..|stack| - 1] + [Frame(Some(container), index)];
      NextOf(stack[..|stack| - 1], container, index, child);
      hide PreorderOfAll, AfterFrames;
      if |child.children| > 0 {
        Descend(child);
        return;
      }
      Ascend();
    }

    /** The part of `Next` for the start node. */
    method LeaveStartNode()
      requires Valid() && !AtEnd() && stack[|stack| - 1].container.None?
      modifies this
      ensures Valid() && Remaining() == old(Remaining())[1..]
    {
      var start := startNode.value;
      ghost var was := Remaining();
      assert was[1..] == PreorderOfAll(start.children);
      stack := [];
      if |start.children| == 0 {
        return;
      }
      stack := [Frame(Some(start), 0)];
      assert start.children[0..] == start.children && stack[..0] == [];
      assert Remaining() == PreorderOfAll(start.children);
    }

    method Descend(child: AstNode)
      requires Valid() && !AtEnd() && |child.children| > 0 && stack[|stack| - 1].container.Some?
      modifies this
      ensures Valid() && Remaining() == PreorderOfAll(child.children) + AfterFrames(old(stack))
    {
      stack := stack + [Frame(Some(child), 0)];
      assert stack[..|stack| - 1] == old(stack);
      assert child.children[0..] == child.children;
    }

    /** The loop that leaves finished containers. */
    method Ascend()
      requires Valid() && !AtEnd() && stack[|stack| - 1].container.Some?
      modifies this
      ensures Valid() && Remaining() == AfterFrames(old(stack))
    {
      hide AfterFrames, PreorderOfAll;
      NoFrames();
      while stack != []
        invariant Valid() && AfterFrames(stack) == AfterFrames(old(stack))
        invariant forall i | 0 <= i < |stack| :: stack[i].container.Some?
        decreases |stack|
      {
        var n := |stack| - 1;
        var container, index := stack[n].container.value, stack[n].index + 1;
        LastFrame(stack);
        if index < |container.children| {
          assert stack[n := Frame(Some(container), index)][..n] == stack[..n];
          stack := stack[n := Frame(Some(container), index)];
          return;
        }
        stack := stack[..n];
      }
    }
  }

  /** What follows the current nodes of the frames `stack`. */
  ghost function AfterFrames(stack: seq<Frame>): seq<AstNode>
    requires forall i | 0 <= i < |stack| && stack[i].container.Some? :: stack[i].index < |stack[i].container.value.children|
  {
    if stack == [] then [] else
      var n := |stack| - 1;
      (if stack[n].container.None? then [] else PreorderOfAll(stack[n].container.value.children[stack[n].index + 1..]))
      + AfterFrames(stack[..n])
  }

  lemma NoFrames()
    ensures AfterFrames([]) == []
  {
  }

  lemma {:induction false} LastFrame(stack: seq<Frame>)
    requires forall i | 0 <= i < |stack| && stack[i].container.Some? :: stack[i].index < |stack[i].container.value.children|
    requires stack != [] && stack[|stack| - 1].container.Some?
    ensures ghost var n := |stack| - 1;
            ghost var children := stack[n].container.value.children;
            && AfterFrames(stack) == PreorderOfAll(children[stack[n].index + 1..]) + AfterFrames(stack[..n])
            && (stack[n].index + 1 == |children| ==> AfterFrames(stack) == AfterFrames(stack[..n]))
  {
  }

  lemma {:induction false} NextOf(rest: seq<Frame>, container: AstNode, index: nat, child: AstNode)
    requires forall i | 0 <= i < |rest| && rest[i].container.Some? :: rest[i].index < |rest[i].container.value.children|
    requires index < |container.children| && child == container.children[index]
    ensures PreorderOfAll(container.children[index..]) + AfterFrames(rest) ==
            [child] + (PreorderOfAll(child.children) + AfterFrames(rest + [Frame(Some(container), index)]))
    ensures child.children == [] ==> PreorderOfAll(child.children) == []
  {
    hide AfterFrames, PreorderOfAll;
    PreorderFrom(container.children, index);
    AfterOneMore(rest, container, index);
    Regroup(child, PreorderOfAll(child.children), PreorderOfAll(container.children[index + 1..]), AfterFrames(rest));
    NoNodes();
  }

  lemma NoNodes()
    ensures PreorderOfAll([]) == []
  {
  }

  lemma Regroup(n: AstNode, a: seq<AstNode>, b: seq<AstNode>, c: seq<AstNode>)
    ensures ([n] + a) + b + c == [n] + (a + (b + c))
  {
  }

  lemma {:induction false} AfterOneMore(rest: seq<Frame>, container: AstNode, index: nat)
    requires forall i | 0 <= i < |rest| && rest[i].container.Some? :: rest[i].index < |rest[i].container.value.children|
    requires index < |container.children|
    ensures AfterFrames(rest + [Frame(Some(container), index)]) ==
            PreorderOfAll(container.children[index + 1..]) + AfterFrames(rest)
  {
    assert (rest + [Frame(Some(container), index)])[..|rest|] == rest;
  }

  /** A whole walk from the current node to the end. */
  method Collect(it: Iterator) returns (nodes: seq<AstNode>)
    requires it.Valid()
    modifies it
    ensures nodes == old(it.Remaining()) && it.AtEnd()
  {
    hide Iterator.Remaining, Iterator.Valid;
    nodes := [];
    while !it.AtEnd()
      invariant it.Valid() && nodes + it.Remaining() == old(it.Remaining())
      decreases |it.Remaining()|
    {
      var n := it.Current();
      nodes := nodes + [n];
      it.Next();
    }
  }

  method CollectInclusiveDescendants(start: AstNode) returns (nodes: seq<AstNode>)
    ensures nodes == Preorder(start)
  {
    var it := new Iterator.InclusiveDescendantsOf(start);
    nodes := Collect(it);
  }

  /** Requires a child, as the iterator does. */
  method CollectDescendants(container: AstNode) returns (nodes: seq<AstNode>)
    requires |container.children| > 0
    ensures [container] + nodes == Preorder(container)
  {
    var it := new Iterator.DescendantsOf(container);
    nodes := Collect(it);
  }

  class SyntaxVisitor {
    var visited: seq<AstNode>

    constructor ()
      ensures visited == []
    {
      visited := [];
    }

    method Visit(n: AstNode)
      modifies this
      ensures visited == old(visited) + [n]
    {
      visited := visited + [n];
    }
  }

  datatype Visit = Visit(container: AstNode, index: nat)

  /** What a depth-first traversal with this stack has yet to visit. */
  ghost function Unvisited(stack: seq<Visit>): seq<AstNode>
    requires forall i | 0 <= i < |stack| :: stack[i].index <= |stack[i].container.children|
  {
    if stack == [] then [] else
      var n := |stack| - 1;
      PreorderOfAll(stack[n].container.children[stack[n].index..]) + Unvisited(stack[..n])
  }

  method DepthFirstTraverse(visitor: SyntaxVisitor, start: AstNode)
    modifies visitor
    ensures visitor.visited == old(visitor.visited) + Preorder(start)
  {
    hide Unvisited, Preorder;
    var stack := [Visit(start, 0)];
    visitor.Visit(start);
    Start(start);
    while stack != []
      invariant forall i | 0 <= i < |stack| :: stack[i].index <= |stack[i].container.children|
      invariant visitor.visited + Unvisited(stack) == old(visitor.visited) + Preorder(start)
      decreases |Unvisited(stack)|, |stack|
    {
      var n := |stack| - 1;
      var container, index := stack[n].container, stack[n].index;
      if index == |container.children| {
        Leave(stack);
        stack := stack[..n];
        continue;
      }
      var child := container.children[index];
      DescendTo(stack, container, index, child);
      stack := stack[n := Visit(container, index + 1)] + [Visit(child, 0)];
      Sequences.ConcatAssociative(visitor.visited, [child], Unvisited(stack));
      visitor.Visit(child);
    }
    Leave([Visit(start, |start.children|)]);
  }

  lemma {:induction false} Start(start: AstNode)
    ensures Preorder(start) == [start] + Unvisited([Visit(start, 0)])
  {
    assert start.children[0..] == start.children;
    assert [Visit(start, 0)][..0] == [];
  }

  lemma {:induction false} Leave(stack: seq<Visit>)
    requires forall i | 0 <= i < |stack| :: stack[i].index <= |stack[i].container.children|
    requires stack != [] && stack[|stack| - 1].index == |stack[|stack| - 1].container.children|
    ensures Unvisited(stack) == Unvisited(stack[..|stack| - 1])
    ensures Unvisited([]) == []
  {
  }

  lemma {:induction false} UnvisitedOneMore(rest: seq<Visit>, container: AstNode, index: nat)
    requires forall i | 0 <= i < |rest| :: rest[i].index <= |rest[i].container.children|
    requires index <= |container.children|
    ensures Unvisited(rest + [Visit(container, index)]) == PreorderOfAll(container.children[index..]) + Unvisited(rest)
  {
    assert (rest + [Visit(container, index)])[..|rest|] == rest;
  }

  lemma {:induction false} DescendTo(stack: seq<Visit>, container: AstNode, index: nat, child: AstNode)
    requires stack != [] && forall i | 0 <= i < |stack| :: stack[i].index <= |stack[i].container.children|
    requires stack[|stack| - 1] == Visit(container, index)
    requires index < |container.children| && child == container.children[index]
    ensures Unvisited(stack) ==
            [child] + Unvisited(stack[|stack| - 1 := Visit(container, index + 1)] + [Visit(child, 0)])
  {
    hide Unvisited;
    var rest := stack[..|stack| - 1];
    assert stack == rest + [Visit(container, index)];
    assert stack[|stack| - 1 := Visit(container, index + 1)] == rest + [Visit(container, index + 1)];
    DescendFrom(rest, container, index, child);
  }

  lemma {:induction false} DescendFrom(rest: seq<Visit>, container: AstNode, index: nat, child: AstNode)
    requires forall i | 0 <= i < |rest| :: rest[i].index <= |rest[i].container.children|
    requires index < |container.children| && child == container.children[index]
    ensures Unvisited(rest + [Visit(container, index)]) ==
            [child] + Unvisited(rest + [Visit(container, index + 1)] + [Visit(child, 0)])
  {
    hide Unvisited, PreorderOfAll;
    PreorderFrom(container.children, index);
    UnvisitedOneMore(rest, container, index);
    UnvisitedOneMore(rest, container, index + 1);
    UnvisitedOneMore(rest + [Visit(container, index + 1)], child, 0);
    assert child.children[0..] == child.children;
    Regroup(child, PreorderOfAll(child.children), PreorderOfAll(container.children[index + 1..]), Unvisited(rest));
  }
}
