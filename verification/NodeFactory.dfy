/**
 The factory for nodes of the intermediate representation. Literals, projections, returns and
 tuples of at most two nodes are created once per operation and inputs; everything else is
 new at every request.
 */
module NodeFactories {
  import opened Operators
  import opened NodeInputs

  /** Operations whose nodes the factory looks up before it makes one. */
  predicate IsCachedOperation(operation: Operation) {
    match operation
    case Plain(code) => code == LiteralVoid || code == Ret
    case Sized(code, size) => code == Projection || size <= 2
    case _ => true
  }

  predicate IsControl(t: Type) {
    t.ControlType? || (t.TupleType? && t.members != [] && t.members[0].ControlType?)
  }

  function TypesOf(nodes: seq<Node>): (r: seq<Type>)
    ensures |r| == |nodes| && forall i :: 0 <= i < |r| ==> r[i] == nodes[i].outputType
  {
    seq(|nodes|, i requires 0 <= i < |nodes| => nodes[i].outputType)
  }

  /** The output type of a node of a cached operation follows from its inputs. */
  predicate IsOutputType(operation: Operation, inputs: seq<Node>, t: Type) {
    match operation
    case Plain(code) => t == if code == LiteralVoid then VoidType else ControlType
    case Sized(Projection, index) =>
      && |inputs| == 1 && inputs[0].outputType.TupleType? && index < |inputs[0].outputType.members|
      && t == inputs[0].outputType.members[index]
    case Sized(Tuple, _) => t == TupleType(TypesOf(inputs))
    case LiteralBool(_) => t == BoolType
    case LiteralInt64(_) => t == Int64Type
    case LiteralString(_) => t == StringType
  }

  datatype Cache = Cache(
    map0: map<(Operator, Type), Node>,
    map1: map<(Operator, Type, Node), Node>,
    map2: map<(Operator, Type, Node, Node), Node>)
  {
    function Find(op: Operator, t: Type, inputs: seq<Node>): Node? {
      if |inputs| == 0 then (if (op, t) in map0 then map0[(op, t)] else null)
      else if |inputs| == 1 then (if (op, t, inputs[0]) in map1 then map1[(op, t, inputs[0])] else null)
      else if |inputs| == 2 then
        (if (op, t, inputs[0], inputs[1]) in map2 then map2[(op, t, inputs[0], inputs[1])] else null)
      else null
    }

    function Register(op: Operator, t: Type, inputs: seq<Node>, n: Node): Cache
      requires |inputs| <= 2
    {
      if |inputs| == 0 then this.(map0 := map0[(op, t) := n])
      else if |inputs| == 1 then this.(map1 := map1[(op, t, inputs[0]) := n])
      else this.(map2 := map2[(op, t, inputs[0], inputs[1]) := n])
    }
  }

  /** Nodes of cached operations are found by their parts, and what is found has those parts. */
  ghost predicate IsCacheOf(cache: Cache, nodes: seq<Node>) {
    FindsAll(cache, nodes) && HasOnlyNodes(cache, nodes)
  }

  ghost predicate FindsAll(cache: Cache, nodes: seq<Node>) {
    forall n | n in nodes && IsCachedOperation(n.op.operation) ::
      cache.Find(n.op, n.outputType, n.operands) == n && IsOutputType(n.op.operation, n.operands, n.outputType)
  }

  ghost predicate HasOnlyNodes(cache: Cache, nodes: seq<Node>) {
    && (forall k | k in cache.map0 :: IsNodeOf(cache.map0[k], nodes, k.0, k.1, []))
    && (forall k | k in cache.map1 :: IsNodeOf(cache.map1[k], nodes, k.0, k.1, [k.2]))
    && (forall k | k in cache.map2 :: IsNodeOf(cache.map2[k], nodes, k.0, k.1, [k.2, k.3]))
  }

  ghost predicate IsNodeOf(n: Node, nodes: seq<Node>, op: Operator, t: Type, inputs: seq<Node>) {
    n in nodes && n.op == op && n.outputType == t && n.operands == inputs
  }

  lemma FoundIsNodeOf(cache: Cache, nodes: seq<Node>, op: Operator, t: Type, inputs: seq<Node>)
    requires IsCacheOf(cache, nodes) && cache.Find(op, t, inputs) != null
    ensures IsNodeOf(cache.Find(op, t, inputs), nodes, op, t, inputs)
  {
    assert |inputs| == 1 ==> inputs == [inputs[0]];
    assert |inputs| == 2 ==> inputs == [inputs[0], inputs[1]];
  }

  lemma RegisterKeepsCache(cache: Cache, nodes: seq<Node>, n: Node)
    requires IsCacheOf(cache, nodes) && |n.operands| <= 2 && n !in nodes
    requires cache.Find(n.op, n.outputType, n.operands) == null
    requires IsOutputType(n.op.operation, n.operands, n.outputType)
    ensures IsCacheOf(cache.Register(n.op, n.outputType, n.operands, n), nodes + [n])
  {
    hide IsOutputType, IsCachedOperation, HasOnlyNodes;
    RegisterKeepsNodes(cache, nodes, n);
    var r := cache.Register(n.op, n.outputType, n.operands, n);
    assert forall m :: m in nodes + [n] <==> m in nodes || m == n;
    forall m | m in nodes && IsCachedOperation(m.op.operation)
      ensures r.Find(m.op, m.outputType, m.operands) == m
    {
      RegisterKeepsFound(cache, n, m);
    }
  }

  lemma RegisterKeepsNodes(cache: Cache, nodes: seq<Node>, n: Node)
    requires HasOnlyNodes(cache, nodes) && |n.operands| <= 2
    ensures HasOnlyNodes(cache.Register(n.op, n.outputType, n.operands, n), nodes + [n])
  {
    assert forall m :: m in nodes + [n] <==> m in nodes || m == n;
    assert |n.operands| == 1 ==> n.operands == [n.operands[0]];
    assert |n.operands| == 2 ==> n.operands == [n.operands[0], n.operands[1]];
  }

  lemma RegisterKeepsFound(cache: Cache, n: Node, m: Node)
    requires |n.operands| <= 2 && cache.Find(n.op, n.outputType, n.operands) == null
    requires cache.Find(m.op, m.outputType, m.operands) == m
    ensures cache.Register(n.op, n.outputType, n.operands, n).Find(m.op, m.outputType, m.operands) == m
  {
    assert |n.operands| == 1 ==> n.operands == [n.operands[0]];
    assert |n.operands| == 2 ==> n.operands == [n.operands[0], n.operands[1]];
    assert |m.operands| == 1 ==> m.operands == [m.operands[0]];
    assert |m.operands| == 2 ==> m.operands == [m.operands[0], m.operands[1]];
  }

  lemma UncachedKeepsCache(cache: Cache, nodes: seq<Node>, n: Node)
    requires IsCacheOf(cache, nodes) && !IsCachedOperation(n.op.operation)
    ensures IsCacheOf(cache, nodes + [n])
  {
    hide IsOutputType, IsCachedOperation;
    assert forall m :: m in nodes + [n] <==> m in nodes || m == n;
  }

  // Sharing.

  /** The term a node stands for: cached operations all the way down, other nodes as they are. */
  datatype Term = Uncached(node: Node) | Cached(operation: Operation, inputs: seq<Term>)

  ghost function Unfold(nodes: seq<Node>, n: Node): Term
    requires AreAcyclic(nodes) && n in nodes
    decreases n.id
  {
    if !IsCachedOperation(n.op.operation) then Uncached(n) else
      Cached(n.op.operation, UnfoldAll(nodes, n, |n.operands|))
  }

  ghost function UnfoldAll(nodes: seq<Node>, n: Node, k: nat): (r: seq<Term>)
    requires AreAcyclic(nodes) && n in nodes && k <= |n.operands|
    ensures |r| == k
    decreases n.id, k
  {
    if k == 0 then [] else
      assert HasEarlierOperands(n, nodes);
      UnfoldAll(nodes, n, k - 1) + [Unfold(nodes, n.operands[k - 1])]
  }

  lemma {:induction false} UnfoldedOperand(nodes: seq<Node>, n: Node, k: nat, i: nat)
    requires AreAcyclic(nodes) && n in nodes && i < k <= |n.operands|
    ensures n.operands[i] in nodes && n.operands[i].id < n.id
    ensures UnfoldAll(nodes, n, k)[i] == Unfold(nodes, n.operands[i])
  {
    assert HasEarlierOperands(n, nodes);
    if i < k - 1 {
      UnfoldedOperand(nodes, n, k - 1, i);
    }
  }

  ghost predicate HasNode(nodes: seq<Node>, operation: Operation, inputs: seq<Node>) {
    exists n :: n in nodes && n.op.operation == operation && n.operands == inputs
  }

  class NodeFactory {
    const operatorFactory: OperatorFactory
    const graph: Graph
    var cache: Cache
    var currentNodeId: nat

    ghost predicate Valid()
      reads this, operatorFactory, graph, graph.nodes, graph.edges
    {
      && operatorFactory.Valid() && graph.Valid() && graph.IsComplete()
      && currentNodeId == |graph.nodes|
      && (forall n | n in graph.nodes :: n.op in operatorFactory.operators)
      && IsCacheOf(cache, graph.nodes)
    }

    constructor ()
      ensures Valid() && graph.nodes == [] && fresh(operatorFactory) && fresh(graph)
    {
      operatorFactory := new OperatorFactory();
      graph := new Graph();
      cache, currentNodeId := Cache(map[], map[], map[]), 0;
    }

    method NextNodeId() returns (id: nat)
      modifies this`currentNodeId
      ensures currentNodeId == id == old(currentNodeId) + 1
    {
      currentNodeId := currentNodeId + 1;
      return currentNodeId;
    }

    /** Makes a node and links it into the use lists of its inputs. */
    method NewNode(op: Operator, outputType: Type, inputs: seq<Node>) returns (n: Node)
      requires graph.Valid() && graph.IsComplete() && currentNodeId == |graph.nodes|
      requires |inputs| == ArityOf(op.operation) && forall i | i in inputs :: i in graph.nodes
      modifies this`currentNodeId, graph, graph.nodes, graph.edges
      ensures graph.Valid() && graph.IsComplete() && currentNodeId == |graph.nodes|
      ensures fresh(n) && graph.nodes == old(graph.nodes) + [n] && fresh(graph.edges - old(graph.edges))
      ensures n.op == op && n.outputType == outputType && n.operands == inputs
    {
      hide Graph.Valid, ArityOf;
      var id := NextNodeId();
      n := new Node(id, op, outputType, inputs);
      graph.Add(n);
      graph.InitUseEdges(n, inputs);
    }

    /** The `GetOrNewNode` functions: at most two inputs are looked up, more never are. */
    method GetOrNewNodeN(op: Operator, outputType: Type, inputs: seq<Node>) returns (n: Node)
      requires Valid() && op in operatorFactory.operators && forall i | i in inputs :: i in graph.nodes
      requires |inputs| == ArityOf(op.operation) && IsOutputType(op.operation, inputs, outputType)
      requires IsCachedOperation(op.operation) <==> |inputs| <= 2
      modifies this`currentNodeId, this`cache, graph, graph.nodes, graph.edges
      ensures Valid() && IsNodeOf(n, graph.nodes, op, outputType, inputs)
      ensures graph.nodes == old(graph.nodes) || (graph.nodes == old(graph.nodes) + [n] && fresh(n))
      ensures |inputs| > 2 ==> fresh(n)
      ensures fresh(graph.edges - old(graph.edges))
    {
      hide IsOutputType, IsCachedOperation, ArityOf, Graph.Valid, Graph.IsComplete, OperatorFactory.Valid, IsCacheOf;
      hide Cache.Find, Cache.Register;
      if |inputs| > 2 {
        n := NewNode(op, outputType, inputs);
        UncachedKeepsCache(cache, old(graph.nodes), n);
        return;
      }
      var present := cache.Find(op, outputType, inputs);
      if present != null {
        FoundIsNodeOf(cache, graph.nodes, op, outputType, inputs);
        return present;
      }
      n := NewNode(op, outputType, inputs);
      RegisterKeepsCache(cache, old(graph.nodes), n);
      cache := cache.Register(op, outputType, inputs, n);
    }

    lemma InputsAreOlder(n: Node, i: nat)
      requires Valid() && n in graph.nodes && i < |n.operands|
      ensures n.operands[i] in graph.nodes && n.operands[i].id < n.id
    {
      OperandsAreNodes(graph.Now(), n);
    }

    /** Two nodes that stand for the same term are the same node. */
    lemma {:induction false} SharingIsMaximal(n: Node, m: Node)
      requires Valid() && n in graph.nodes && m in graph.nodes
      requires Unfold(graph.nodes, n) == Unfold(graph.nodes, m)
      ensures n == m
      ensures Unfold(graph.nodes, n).Cached? <==>
                || n.op.operation.LiteralBool? || n.op.operation.LiteralInt64? || n.op.operation.LiteralString?
                || n.op.operation == Plain(LiteralVoid) || n.op.operation == Plain(Ret)
                || (n.op.operation.Sized? && n.op.operation.sizedCode == Projection)
                || (n.op.operation.Sized? && n.op.operation.sizedCode == Tuple && n.op.operation.size <= 2)
      decreases n.id
    {
      if IsCachedOperation(n.op.operation) {
        operatorFactory.OneOperatorPerOperation(n.op, m.op);
        forall i | 0 <= i < |n.operands| ensures n.operands[i] == m.operands[i] {
          UnfoldedOperand(graph.nodes, n, |n.operands|, i);
          UnfoldedOperand(graph.nodes, m, |m.operands|, i);
          SharingIsMaximal(n.operands[i], m.operands[i]);
        }
        assert n.operands == m.operands;
        assert n.outputType == m.outputType;
      }
    }

    /**
     Literals, projections, returns and tuples of at most two members: two nodes with the same
     operation and the same inputs are the same node.
     */
    lemma OneNodeEach(n: Node, m: Node)
      requires Valid() && n in graph.nodes && m in graph.nodes
      requires n.op.operation == m.op.operation && n.operands == m.operands
      requires
        || n.op.operation.LiteralBool? || n.op.operation.LiteralInt64? || n.op.operation.LiteralString?
        || n.op.operation == Plain(LiteralVoid) || n.op.operation == Plain(Ret)
        || (n.op.operation.Sized? && n.op.operation.sizedCode == Projection)
        || (n.op.operation.Sized? && n.op.operation.sizedCode == Tuple && n.op.operation.size <= 2)
      ensures n == m
    {
      hide Graph.Valid, Graph.IsComplete, OperatorFactory.Valid, Cache.Find, HasOnlyNodes;
      operatorFactory.OneOperatorPerOperation(n.op, m.op);
      assert n.outputType == m.outputType;
    }

    /** The factory has made the one node there is for these parts just now, or it had it already. */
    lemma FoundOrMade(was: seq<Node>, n: Node)
      requires Valid() && n in graph.nodes && (graph.nodes == was || (graph.nodes == was + [n] && n !in was))
      requires
        || n.op.operation.LiteralBool? || n.op.operation.LiteralInt64? || n.op.operation.LiteralString?
        || n.op.operation == Plain(LiteralVoid) || n.op.operation == Plain(Ret)
        || (n.op.operation.Sized? && n.op.operation.sizedCode == Projection)
        || (n.op.operation.Sized? && n.op.operation.sizedCode == Tuple && n.op.operation.size <= 2)
      ensures HasNode(was, n.op.operation, n.operands) <==> graph.nodes == was
    {
      hide Valid;
      if HasNode(was, n.op.operation, n.operands) {
        var m :| m in was && m.op.operation == n.op.operation && m.operands == n.operands;
        assert m in graph.nodes;
        OneNodeEach(n, m);
      }
    }

    // The public factory.

    method NewLiteralBool(data: bool) returns (n: Node)
      requires Valid()
      modifies this`currentNodeId, this`cache, graph, graph.nodes, graph.edges
      ensures Valid() && old(graph.nodes) <= graph.nodes
      ensures n in graph.nodes && n.op.operation == LiteralBool(data) && n.operands == [] && n.outputType == BoolType
      ensures if HasNode(old(graph.nodes), LiteralBool(data), []) then graph.nodes == old(graph.nodes)
              else graph.nodes == old(graph.nodes) + [n] && fresh(n)
    {
      var op := operatorFactory.NewLiteralBool(data);
      n := GetOrNewNodeN(op, BoolType, []);
      FoundOrMade(old(graph.nodes), n);
    }

    method NewLiteralInt64(data: int64) returns (n: Node)
      requires Valid()
      modifies this`currentNodeId, this`cache, operatorFactory, graph, graph.nodes, graph.edges
      ensures Valid() && old(graph.nodes) <= graph.nodes
      ensures n in graph.nodes && n.op.operation == LiteralInt64(data) && n.operands == [] && n.outputType == Int64Type
      ensures if HasNode(old(graph.nodes), LiteralInt64(data), []) then graph.nodes == old(graph.nodes)
              else graph.nodes == old(graph.nodes) + [n] && fresh(n)
    {
      var op := operatorFactory.NewLiteralInt64(data);
      n := GetOrNewNodeN(op, Int64Type, []);
      FoundOrMade(old(graph.nodes), n);
    }

    method NewLiteralString(data: string) returns (n: Node)
      requires Valid()
      modifies this`currentNodeId, this`cache, operatorFactory, graph, graph.nodes, graph.edges
      ensures Valid() && old(graph.nodes) <= graph.nodes
      ensures n in graph.nodes && n.op.operation == LiteralString(data) && n.operands == [] && n.outputType == StringType
      ensures if HasNode(old(graph.nodes), LiteralString(data), []) then graph.nodes == old(graph.nodes)
              else graph.nodes == old(graph.nodes) + [n] && fresh(n)
    {
      var op := operatorFactory.NewLiteralString(data);
      n := GetOrNewNodeN(op, StringType, []);
      FoundOrMade(old(graph.nodes), n);
    }

    method NewLiteralVoid() returns (n: Node)
      requires Valid()
      modifies this`currentNodeId, this`cache, operatorFactory, graph, graph.nodes, graph.edges
      ensures Valid() && old(graph.nodes) <= graph.nodes
      ensures n in graph.nodes && n.op.operation == Plain(LiteralVoid) && n.operands == [] && n.outputType == VoidType
      ensures if HasNode(old(graph.nodes), Plain(LiteralVoid), []) then graph.nodes == old(graph.nodes)
              else graph.nodes == old(graph.nodes) + [n] && fresh(n)
    {
      var op := operatorFactory.NewPlain(LiteralVoid);
      n := GetOrNewNodeN(op, VoidType, []);
      FoundOrMade(old(graph.nodes), n);
    }

    method NewProjectionNode(node: Node, index: nat) returns (n: Node)
      requires Valid() && node in graph.nodes
      requires node.outputType.TupleType? && index < |node.outputType.members|
      modifies this`currentNodeId, this`cache, operatorFactory, graph, graph.nodes, graph.edges
      ensures Valid() && old(graph.nodes) <= graph.nodes
      ensures n in graph.nodes && n.op.operation == Sized(Projection, index) && n.operands == [node]
      ensures n.outputType == node.outputType.members[index]
      ensures if HasNode(old(graph.nodes), Sized(Projection, index), [node]) then graph.nodes == old(graph.nodes)
              else graph.nodes == old(graph.nodes) + [n] && fresh(n)
    {
      var op := operatorFactory.NewSized(Projection, index);
      n := GetOrNewNodeN(op, node.outputType.members[index], [node]);
      FoundOrMade(old(graph.nodes), n);
    }

    method NewTupleNodeFromVector(nodes: seq<Node>) returns (n: Node)
      requires Valid() && forall i | i in nodes :: i in graph.nodes
      modifies this`currentNodeId, this`cache, operatorFactory, graph, graph.nodes, graph.edges
      ensures Valid() && old(graph.nodes) <= graph.nodes
      ensures n in graph.nodes && n.op.operation == Sized(Tuple, |nodes|) && n.operands == nodes
      ensures n.outputType == TupleType(TypesOf(nodes))
      ensures |nodes| > 2 ==> fresh(n)
      ensures |nodes| <= 2 ==>
                if HasNode(old(graph.nodes), Sized(Tuple, |nodes|), nodes) then graph.nodes == old(graph.nodes)
                else graph.nodes == old(graph.nodes) + [n] && fresh(n)
    {
      var op := operatorFactory.NewSized(Tuple, |nodes|);
      n := GetOrNewNodeN(op, TupleType(TypesOf(nodes)), nodes);
      if |nodes| <= 2 {
        FoundOrMade(old(graph.nodes), n);
      }
    }

    method NewRetNode(control: Node, node: Node) returns (n: Node)
      requires Valid() && control in graph.nodes && node in graph.nodes && IsControl(control.outputType)
      modifies this`currentNodeId, this`cache, operatorFactory, graph, graph.nodes, graph.edges
      ensures Valid() && old(graph.nodes) <= graph.nodes
      ensures n in graph.nodes && n.op.operation == Plain(Ret) && n.operands == [control, node]
      ensures n.outputType == ControlType
      ensures if HasNode(old(graph.nodes), Plain(Ret), [control, node]) then graph.nodes == old(graph.nodes)
              else graph.nodes == old(graph.nodes) + [n] && fresh(n)
    {
      var op := operatorFactory.NewPlain(Ret);
      n := GetOrNewNodeN(op, ControlType, [control, node]);
      FoundOrMade(old(graph.nodes), n);
    }

    /** Nodes of uncached operations are new at every request. */
    method NewUncachedNode(code: OperationCode, outputType: Type, inputs: seq<Node>) returns (n: Node)
      requires Valid() && !IsCachedOperation(Plain(code)) && |inputs| == ArityOf(Plain(code))
      requires forall i | i in inputs :: i in graph.nodes
      modifies this`currentNodeId, operatorFactory, graph, graph.nodes, graph.edges
      ensures Valid() && graph.nodes == old(graph.nodes) + [n] && fresh(n)
      ensures n.op.operation == Plain(code) && n.outputType == outputType && n.operands == inputs
    {
      hide ArityOf, IsCachedOperation, Graph.Valid, Graph.IsComplete, OperatorFactory.Valid, IsCacheOf;
      var op := operatorFactory.NewPlain(code);
      n := NewNode(op, outputType, inputs);
      UncachedKeepsCache(cache, old(graph.nodes), n);
    }

    method NewExitNode(control: Node) returns (n: Node)
      requires Valid() && control in graph.nodes && IsControl(control.outputType)
      modifies this`currentNodeId, operatorFactory, graph, graph.nodes, graph.edges
      ensures Valid() && graph.nodes == old(graph.nodes) + [n] && fresh(n)
      ensures n.op.operation == Plain(Exit) && n.outputType == VoidType && n.operands == [control]
    {
      n := NewUncachedNode(Exit, VoidType, [control]);
    }

    method NewIfNode(control: Node, condition: Node) returns (n: Node)
      requires Valid() && control in graph.nodes && condition in graph.nodes && IsControl(control.outputType)
      modifies this`currentNodeId, operatorFactory, graph, graph.nodes, graph.edges
      ensures Valid() && graph.nodes == old(graph.nodes) + [n] && fresh(n)
      ensures n.op.operation == Plain(If) && n.outputType == ControlType && n.operands == [control, condition]
    {
      n := NewUncachedNode(If, ControlType, [control, condition]);
    }

    /** The factory functions for the four ways out of a node. */
    method NewIfBranchNode(code: OperationCode, control: Node) returns (n: Node)
      requires code in {IfException, IfFalse, IfSuccess, IfTrue}
      requires Valid() && control in graph.nodes && IsControl(control.outputType)
      modifies this`currentNodeId, operatorFactory, graph, graph.nodes, graph.edges
      ensures Valid() && graph.nodes == old(graph.nodes) + [n] && fresh(n)
      ensures n.op.operation == Plain(code) && n.outputType == ControlType && n.operands == [control]
    {
      n := NewUncachedNode(code, ControlType, [control]);
    }

    method NewStartNode(outputType: Type) returns (n: Node)
      requires Valid() && outputType.TupleType? && 2 <= |outputType.members| <= 3 && outputType.members[0].ControlType?
      modifies this`currentNodeId, operatorFactory, graph, graph.nodes, graph.edges
      ensures Valid() && graph.nodes == old(graph.nodes) + [n] && fresh(n)
      ensures n.op.operation == Plain(Start) && n.outputType == outputType && n.operands == []
      ensures IsControl(n.outputType)
    {
      n := NewUncachedNode(Start, outputType, []);
    }
  }
}
