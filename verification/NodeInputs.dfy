/**
 Nodes of the intermediate representation, their inputs, and the use lists threaded through
 the edges. An edge is pushed in front of the use list of the node it points to.
 */
module NodeInputs {
  import opened Operators

  datatype Type =
    | VoidType | BoolType | Int64Type | StringType | ControlType
    | OtherType(id: nat)
    | TupleType(members: seq<Type>)

  class UseEdge {
    var from: Node?
    var to: Node?
    var next: UseEdge?
    var previous: UseEdge?
    /** The input of `from` this edge is for. */
    ghost const index: nat

    constructor (ghost index: nat)
      ensures this.index == index
    {
      this.index := index;
      from, to, next, previous := null, null, null, null;
    }
  }

  class Node {
    const id: nat
    const op: Operator
    const outputType: Type
    /** The nodes this node was made from. */
    ghost const operands: seq<Node>
    /** One edge per input, as far as they have been initialized. */
    var edges: seq<UseEdge>
    var firstUseEdge: UseEdge?

    constructor (id: nat, op: Operator, outputType: Type, ghost operands: seq<Node>)
      ensures this.id == id && this.op == op && this.outputType == outputType && this.operands == operands
      ensures edges == [] && firstUseEdge == null
    {
      this.id, this.op, this.outputType, this.operands := id, op, outputType, operands;
      edges, firstUseEdge := [], null;
    }
  }

  /** The edge at `i`, or null past either end. */
  ghost function EdgeOrNull(chain: seq<UseEdge>, i: int): UseEdge? {
    if 0 <= i < |chain| then chain[i] else null
  }

  /** The fields of an edge. */
  datatype Link = Link(from: Node?, to: Node?, next: UseEdge?, previous: UseEdge?)

  /**
   The fields of all nodes and edges at one moment, with `uses`, the use lists they are meant
   to form.
   */
  datatype Snapshot = Snapshot(
    nodes: seq<Node>,
    uses: map<Node, seq<UseEdge>>,
    first: map<Node, UseEdge?>,
    inputs: map<Node, seq<UseEdge>>,
    links: map<UseEdge, Link>)

  ghost function FirstsOf(nodes: seq<Node>): map<Node, UseEdge?>
    reads nodes
  {
    map n | n in nodes :: n.firstUseEdge
  }

  ghost function InputsOf(nodes: seq<Node>): map<Node, seq<UseEdge>>
    reads nodes
  {
    map n | n in nodes :: n.edges
  }

  ghost function LinksOf(edges: set<UseEdge>): map<UseEdge, Link>
    reads edges
  {
    map e | e in edges :: Link(e.from, e.to, e.next, e.previous)
  }

  ghost predicate HasEarlierOperands(n: Node, nodes: seq<Node>) {
    forall o | o in n.operands :: o in nodes && o.id < n.id
  }

  ghost predicate AreNumbered(nodes: seq<Node>) {
    forall i :: 0 <= i < |nodes| ==> nodes[i].id == i + 1
  }

  /** `chain` is the use list of `n`, linked both ways. */
  ghost predicate IsUseList(n: Node, chain: seq<UseEdge>, first: UseEdge?, links: map<UseEdge, Link>) {
    && first == EdgeOrNull(chain, 0)
    && (forall i :: 0 <= i < |chain| ==> chain[i] in links && links[chain[i]].to == n)
    && (forall i {:trigger links[chain[i]].next} :: 0 <= i < |chain| ==>
          links[chain[i]].next == EdgeOrNull(chain, i + 1))
    && (forall i {:trigger links[chain[i]].previous} :: 0 <= i < |chain| ==>
          links[chain[i]].previous == EdgeOrNull(chain, i - 1))
  }

  ghost predicate HasItsEdges(n: Node, inputs: seq<UseEdge>, links: map<UseEdge, Link>) {
    && |inputs| <= |n.operands|
    && forall i :: 0 <= i < |inputs| ==>
         inputs[i] in links && inputs[i].index == i && links[inputs[i]].from == n && links[inputs[i]].to == n.operands[i]
  }

  /** An edge is where its own fields say: in the use list of its target, and among the inputs of its user. */
  ghost predicate IsInPlace(e: UseEdge, link: Link, uses: map<Node, seq<UseEdge>>, inputs: map<Node, seq<UseEdge>>) {
    && link.to != null && link.to in uses && e in uses[link.to]
    && link.from != null && link.from in inputs && e.index < |inputs[link.from]| && inputs[link.from][e.index] == e
  }

  ghost predicate AreUseLists(s: Snapshot)
    requires s.uses.Keys == s.first.Keys
  {
    forall n | n in s.uses :: IsUseList(n, s.uses[n], s.first[n], s.links)
  }

  ghost predicate HaveTheirEdges(s: Snapshot) {
    forall n | n in s.inputs :: HasItsEdges(n, s.inputs[n], s.links)
  }

  ghost predicate AreInPlace(s: Snapshot) {
    forall e | e in s.links :: IsInPlace(e, s.links[e], s.uses, s.inputs)
  }

  ghost predicate AreAcyclic(nodes: seq<Node>) {
    AreNumbered(nodes) && forall n | n in nodes :: HasEarlierOperands(n, nodes)
  }

  /** The chain from each node's first edge holds exactly the edges to that node, one per user and input. */
  ghost predicate IsSound(s: Snapshot) {
    && AreAcyclic(s.nodes)
    && s.uses.Keys == s.first.Keys == s.inputs.Keys == (set n | n in s.nodes)
    && AreUseLists(s) && HaveTheirEdges(s) && AreInPlace(s)
  }

  /** A linked list meets no edge twice. */
  lemma {:induction false} UseListIsDistinct(n: Node, chain: seq<UseEdge>, first: UseEdge?, links: map<UseEdge, Link>,
                                             i: nat, j: nat)
    requires IsUseList(n, chain, first, links) && i < j < |chain|
    ensures chain[i] != chain[j]
  {
    assert links[chain[i]].previous == EdgeOrNull(chain, i - 1) && links[chain[j]].previous == EdgeOrNull(chain, j - 1);
    if i > 0 {
      UseListIsDistinct(n, chain, first, links, i - 1, j - 1);
    }
  }

  // One edge more.

  /** The links after `e`, from `from` to `to`, was pushed in front of `first`. */
  ghost function PushedLinks(links: map<UseEdge, Link>, e: UseEdge, from: Node, to: Node, first: UseEdge?): map<UseEdge, Link> {
    var linked := links[e := Link(from, to, first, null)];
    if first == null || first !in links then linked else linked[first := links[first].(previous := e)]
  }

  ghost function Pushed(s: Snapshot, e: UseEdge, from: Node, to: Node): Snapshot
    requires from in s.inputs && to in s.uses && to in s.first
  {
    s.(uses := s.uses[to := [e] + s.uses[to]],
       first := s.first[to := e],
       inputs := s.inputs[from := s.inputs[from] + [e]],
       links := PushedLinks(s.links, e, from, to, s.first[to]))
  }

  lemma PushedInFront(n: Node, chain: seq<UseEdge>, first: UseEdge?, links: map<UseEdge, Link>, e: UseEdge, from: Node)
    requires IsUseList(n, chain, first, links) && e !in links
    ensures IsUseList(n, [e] + chain, e, PushedLinks(links, e, from, n, first))
  {
    var r, after := [e] + chain, PushedLinks(links, e, from, n, first);
    forall i | 0 <= i < |r|
      ensures r[i] in after && after[r[i]].to == n
      ensures after[r[i]].next == EdgeOrNull(r, i + 1) && after[r[i]].previous == EdgeOrNull(r, i - 1)
    {
      if i > 0 {
        assert r[i] == chain[i - 1] != e;
        if i > 1 {
          UseListIsDistinct(n, chain, first, links, 0, i - 1);
        }
      }
    }
  }

  lemma PushedElsewhere(n: Node, chain: seq<UseEdge>, own: UseEdge?, links: map<UseEdge, Link>,
                        e: UseEdge, from: Node, to: Node, first: UseEdge?)
    requires IsUseList(n, chain, own, links) && e !in links && n != to
    requires first != null ==> first in links && links[first].to == to
    ensures IsUseList(n, chain, own, PushedLinks(links, e, from, to, first))
  {
  }

  /** Pushing the next edge of a node keeps the use lists in order. */
  lemma PushKeepsSound(s: Snapshot, e: UseEdge, from: Node, to: Node)
    requires IsSound(s) && e !in s.links && from in s.inputs && to in s.uses
    requires e.index == |s.inputs[from]| < |from.operands| && from.operands[e.index] == to
    ensures IsSound(Pushed(s, e, from, to))
  {
    hide AreAcyclic, AreUseLists, HaveTheirEdges, AreInPlace, PushedLinks;
    PushKeepsUseLists(s, e, from, to);
    PushKeepsInputs(s, e, from, to);
    PushKeepsPlaces(s, e, from, to);
  }

  lemma PushKeepsUseLists(s: Snapshot, e: UseEdge, from: Node, to: Node)
    requires s.uses.Keys == s.first.Keys && AreUseLists(s)
    requires e !in s.links && from in s.inputs && to in s.uses
    ensures AreUseLists(Pushed(s, e, from, to))
  {
    var r := Pushed(s, e, from, to);
    assert IsUseList(to, s.uses[to], s.first[to], s.links);
    FirstIsLinked(to, s.uses[to], s.first[to], s.links);
    forall n | n in r.uses ensures IsUseList(n, r.uses[n], r.first[n], r.links) {
      hide IsUseList, PushedLinks;
      if n == to {
        PushedInFront(to, s.uses[to], s.first[to], s.links, e, from);
      } else {
        PushedElsewhere(n, s.uses[n], s.first[n], s.links, e, from, to, s.first[to]);
      }
    }
  }

  lemma FirstIsLinked(n: Node, chain: seq<UseEdge>, first: UseEdge?, links: map<UseEdge, Link>)
    requires IsUseList(n, chain, first, links)
    ensures first != null ==> first in links && links[first].to == n && first == chain[0]
  {
  }

  lemma PushKeepsInputs(s: Snapshot, e: UseEdge, from: Node, to: Node)
    requires HaveTheirEdges(s) && e !in s.links && from in s.inputs && to in s.uses && to in s.first
    requires e.index == |s.inputs[from]| < |from.operands| && from.operands[e.index] == to
    ensures HaveTheirEdges(Pushed(s, e, from, to))
  {
    var r := Pushed(s, e, from, to);
    forall n | n in r.inputs ensures HasItsEdges(n, r.inputs[n], r.links) {
      assert HasItsEdges(n, s.inputs[n], s.links);
    }
  }

  lemma PushKeepsPlaces(s: Snapshot, e: UseEdge, from: Node, to: Node)
    requires AreInPlace(s) && e !in s.links && from in s.inputs && to in s.uses && to in s.first
    requires e.index == |s.inputs[from]|
    ensures AreInPlace(Pushed(s, e, from, to))
  {
    var r := Pushed(s, e, from, to);
    assert r.uses[to][0] == e;
    forall f | f in r.links ensures IsInPlace(f, r.links[f], r.uses, r.inputs) {
      if f != e {
        assert IsInPlace(f, s.links[f], s.uses, s.inputs);
      }
    }
  }

  // Counting.

  ghost function TotalUses(nodes: seq<Node>, uses: map<Node, seq<UseEdge>>): nat
    requires forall n | n in nodes :: n in uses
  {
    if nodes == [] then 0 else TotalUses(nodes[..|nodes| - 1], uses) + |uses[nodes[|nodes| - 1]]|
  }

  ghost function TotalInputs(nodes: seq<Node>): nat {
    if nodes == [] then 0 else TotalInputs(nodes[..|nodes| - 1]) + |nodes[|nodes| - 1].operands|
  }

  /** The edges to the nodes in `nodes`. */
  ghost function EdgesTo(nodes: seq<Node>, links: map<UseEdge, Link>): set<UseEdge> {
    set e | e in links && links[e].to in nodes
  }

  /** The edges from the nodes in `nodes`. */
  ghost function EdgesFrom(nodes: seq<Node>, links: map<UseEdge, Link>): set<UseEdge> {
    set e | e in links && links[e].from in nodes
  }

  lemma {:induction false} CountUses(s: Snapshot, k: nat)
    requires IsSound(s) && k <= |s.nodes|
    ensures TotalUses(s.nodes[..k], s.uses) == |EdgesTo(s.nodes[..k], s.links)|
  {
    hide AreAcyclic, AreUseLists, HaveTheirEdges, AreInPlace, EdgesTo;
    if k == 0 {
      assert EdgesTo([], s.links) == {} by { NoEdgesTo(s.links); }
    } else {
      CountUses(s, k - 1);
      assert s.nodes[..k][..k - 1] == s.nodes[..k - 1];
      OneMoreTarget(s, k - 1);
    }
  }

  lemma NoEdgesTo(links: map<UseEdge, Link>)
    ensures EdgesTo([], links) == {} == EdgesFrom([], links)
  {
  }

  lemma OneMoreTarget(s: Snapshot, k: nat)
    requires IsSound(s) && k < |s.nodes|
    ensures |EdgesTo(s.nodes[..k + 1], s.links)| == |EdgesTo(s.nodes[..k], s.links)| + |s.uses[s.nodes[k]]|
  {
    hide AreUseLists, HaveTheirEdges, AreInPlace;
    var n := s.nodes[k];
    UsesOf(s, n);
    NodesApart(s.nodes, k);
    hide AreAcyclic;
    assert forall m :: m in s.nodes[..k + 1] <==> m in s.nodes[..k] || m == n;
    var own := set e | e in s.uses[n];
    assert EdgesTo(s.nodes[..k + 1], s.links) == EdgesTo(s.nodes[..k], s.links) + own;
    assert EdgesTo(s.nodes[..k], s.links) !! own;
  }

  lemma {:induction false} CountInputs(s: Snapshot, k: nat)
    requires IsSound(s) && k <= |s.nodes| && forall n | n in s.inputs :: |s.inputs[n]| == |n.operands|
    ensures TotalInputs(s.nodes[..k]) == |EdgesFrom(s.nodes[..k], s.links)|
  {
    hide AreAcyclic, AreUseLists, HaveTheirEdges, AreInPlace, EdgesFrom;
    if k == 0 {
      assert EdgesFrom([], s.links) == {} by { NoEdgesTo(s.links); }
    } else {
      CountInputs(s, k - 1);
      assert s.nodes[..k][..k - 1] == s.nodes[..k - 1];
      OneMoreUser(s, k - 1);
    }
  }

  lemma OneMoreUser(s: Snapshot, k: nat)
    requires IsSound(s) && k < |s.nodes|
    ensures |EdgesFrom(s.nodes[..k + 1], s.links)| == |EdgesFrom(s.nodes[..k], s.links)| + |s.inputs[s.nodes[k]]|
  {
    hide AreUseLists, HaveTheirEdges, AreInPlace;
    var n := s.nodes[k];
    EdgesOf(s, n);
    NodesApart(s.nodes, k);
    hide AreAcyclic;
    assert forall m :: m in s.nodes[..k + 1] <==> m in s.nodes[..k] || m == n;
    var own := set e | e in s.inputs[n];
    assert EdgesFrom(s.nodes[..k + 1], s.links) == EdgesFrom(s.nodes[..k], s.links) + own;
    assert EdgesFrom(s.nodes[..k], s.links) !! own;
  }

  lemma NodesApart(nodes: seq<Node>, k: nat)
    requires AreAcyclic(nodes) && k < |nodes|
    ensures nodes[k] !in nodes[..k]
  {
  }

  /** The use list of a node holds exactly the edges that point to it, each once. */
  lemma UsesOf(s: Snapshot, n: Node)
    requires IsSound(s) && n in s.nodes
    ensures forall e :: e in s.uses[n] <==> e in s.links && s.links[e].to == n
    ensures |set e | e in s.uses[n]| == |s.uses[n]|
  {
    hide AreAcyclic, HaveTheirEdges;
    assert IsUseList(n, s.uses[n], s.first[n], s.links);
    forall e | e in s.links && s.links[e].to == n ensures e in s.uses[n] {
      assert IsInPlace(e, s.links[e], s.uses, s.inputs);
    }
    forall i, j | 0 <= i < j < |s.uses[n]| ensures s.uses[n][i] != s.uses[n][j] {
      UseListIsDistinct(n, s.uses[n], s.first[n], s.links, i, j);
    }
    DistinctSize(s.uses[n]);
  }

  /** The edges of a node are exactly those that come from it, one per input. */
  lemma EdgesOf(s: Snapshot, n: Node)
    requires IsSound(s) && n in s.nodes
    ensures forall e :: e in s.inputs[n] <==> e in s.links && s.links[e].from == n
    ensures |set e | e in s.inputs[n]| == |s.inputs[n]|
  {
    hide AreAcyclic, AreUseLists;
    assert HasItsEdges(n, s.inputs[n], s.links);
    forall e | e in s.links && s.links[e].from == n ensures e in s.inputs[n] {
      assert IsInPlace(e, s.links[e], s.uses, s.inputs);
    }
    DistinctSize(s.inputs[n]);
  }

  lemma {:induction false} DistinctSize(s: seq<UseEdge>)
    requires forall i, j | 0 <= i < j < |s| :: s[i] != s[j]
    ensures |set e | e in s| == |s|
  {
    if s != [] {
      var n := |s| - 1;
      DistinctSize(s[..n]);
      assert (set e | e in s) == (set e | e in s[..n]) + {s[n]};
    }
  }

  /** The lengths of all use lists together are the number of all inputs. */
  lemma UsesAreInputs(s: Snapshot)
    requires IsSound(s) && forall n | n in s.inputs :: |s.inputs[n]| == |n.operands|
    ensures TotalUses(s.nodes, s.uses) == TotalInputs(s.nodes) == |s.links|
  {
    hide AreAcyclic, AreUseLists, HaveTheirEdges, AreInPlace, TotalUses, TotalInputs;
    CountUses(s, |s.nodes|);
    CountInputs(s, |s.nodes|);
    EdgesHaveEnds(s);
    assert s.nodes[..|s.nodes|] == s.nodes;
    assert EdgesTo(s.nodes, s.links) == s.links.Keys == EdgesFrom(s.nodes, s.links);
  }

  lemma EdgesHaveEnds(s: Snapshot)
    requires IsSound(s)
    ensures forall e | e in s.links :: s.links[e].to in s.nodes && s.links[e].from in s.nodes
  {
    hide AreAcyclic, AreUseLists, HaveTheirEdges;
    forall e | e in s.links ensures s.links[e].to in s.nodes && s.links[e].from in s.nodes {
      assert IsInPlace(e, s.links[e], s.uses, s.inputs);
    }
  }

  ghost function Added(s: Snapshot, n: Node): Snapshot {
    s.(nodes := s.nodes + [n], uses := s.uses[n := []], first := s.first[n := null], inputs := s.inputs[n := []])
  }

  lemma AddKeepsSound(s: Snapshot, n: Node)
    requires IsSound(s) && n !in s.nodes && n.id == |s.nodes| + 1 && forall o | o in n.operands :: o in s.nodes
    ensures IsSound(Added(s, n))
  {
    hide AreAcyclic, IsUseList, HasItsEdges, AreInPlace;
    var r := Added(s, n);
    assert forall m :: m in r.nodes <==> m in s.nodes || m == n;
    AddKeepsAcyclic(s.nodes, n);
    NoUsesYet(n, s.links);
    AddKeepsPlaces(s, n);
  }

  lemma NoUsesYet(n: Node, links: map<UseEdge, Link>)
    ensures IsUseList(n, [], null, links) && HasItsEdges(n, [], links)
  {
  }

  lemma AddKeepsAcyclic(nodes: seq<Node>, n: Node)
    requires AreAcyclic(nodes) && n.id == |nodes| + 1 && forall o | o in n.operands :: o in nodes
    ensures AreAcyclic(nodes + [n])
  {
    var r := nodes + [n];
    assert forall m :: m in r <==> m in nodes || m == n;
    forall o | o in n.operands ensures o.id < n.id {
      var i :| 0 <= i < |nodes| && nodes[i] == o;
    }
    forall m | m in nodes ensures HasEarlierOperands(m, r) {
      assert HasEarlierOperands(m, nodes);
    }
  }

  lemma AddKeepsPlaces(s: Snapshot, n: Node)
    requires AreInPlace(s) && n !in s.uses && n !in s.inputs
    ensures AreInPlace(Added(s, n))
  {
    var r := Added(s, n);
    forall e | e in s.links ensures IsInPlace(e, s.links[e], r.uses, r.inputs) {
      assert IsInPlace(e, s.links[e], s.uses, s.inputs);
    }
  }

  lemma OperandsAreNodes(s: Snapshot, n: Node)
    requires IsSound(s) && n in s.nodes
    ensures forall o | o in n.operands :: o in s.nodes && o.id < n.id
    ensures forall o | o in n.operands :: IsUseList(o, s.uses[o], s.first[o], s.links)
  {
    assert HasEarlierOperands(n, s.nodes);
  }

  /** The nodes of a zone, with the use list of each. */
  class Graph {
    ghost var nodes: seq<Node>
    ghost var uses: map<Node, seq<UseEdge>>
    ghost var edges: set<UseEdge>

    constructor ()
      ensures Valid() && IsComplete() && nodes == [] && edges == {}
    {
      nodes, uses, edges := [], map[], {};
    }

    ghost function Now(): Snapshot
      reads this, nodes, edges
    {
      Snapshot(nodes, uses, FirstsOf(nodes), InputsOf(nodes), LinksOf(edges))
    }

    ghost predicate Valid()
      reads this, nodes, edges
    {
      IsSound(Now())
    }

    /** All inputs of all nodes have been initialized. */
    ghost predicate IsComplete()
      reads this, nodes
    {
      forall n | n in nodes :: |n.edges| == |n.operands|
    }

    /** A node without edges yet joins the graph. */
    ghost method Add(n: Node)
      requires Valid() && n !in nodes && n.edges == [] && n.firstUseEdge == null && n.id == |nodes| + 1
      requires forall o | o in n.operands :: o in nodes
      modifies this
      ensures Valid() && nodes == old(nodes) + [n] && uses == old(uses)[n := []] && edges == old(edges)
    {
      hide IsSound, FirstsOf, InputsOf, LinksOf;
      AddKeepsSound(Now(), n);
      nodes, uses := nodes + [n], uses[n := []];
      NewNode(old(nodes), n);
    }

    lemma NewNode(nodes: seq<Node>, n: Node)
      requires n.edges == [] && n.firstUseEdge == null
      ensures FirstsOf(nodes + [n]) == FirstsOf(nodes)[n := null]
      ensures InputsOf(nodes + [n]) == InputsOf(nodes)[n := []]
    {
      assert forall m :: m in nodes + [n] <==> m in nodes || m == n;
    }

    /** Links `useEdge`, the next input of `from`, in front of the use list of `to`. */
    method InitUseEdge(useEdge: UseEdge, from: Node, to: Node)
      requires Valid() && useEdge !in edges && from in nodes && useEdge.index == |from.edges| < |from.operands|
      requires to == from.operands[|from.edges|]
      modifies this`uses, this`edges, useEdge, from`edges, to`firstUseEdge, to.firstUseEdge
      ensures Valid() && Now() == old(Pushed(Now(), useEdge, from, to))
      ensures edges == old(edges) + {useEdge} && from.edges == old(from.edges) + [useEdge]
    {
      ghost var was := Now();
      OperandsAreNodes(was, from);
      PushKeepsSound(was, useEdge, from, to);
      FirstIsLinked(to, uses[to], to.firstUseEdge, was.links);
      hide IsSound, IsUseList;
      Push(useEdge, from, to);
    }

    /** The pointer updates of `InitUseEdge`. */
    method Push(useEdge: UseEdge, from: Node, to: Node)
      requires useEdge !in edges && from in nodes && to in nodes && to in uses
      requires to.firstUseEdge != null ==> to.firstUseEdge in edges
      modifies this`uses, this`edges, useEdge, from`edges, to`firstUseEdge, to.firstUseEdge
      ensures Now() == old(Pushed(Now(), useEdge, from, to))
      ensures edges == old(edges) + {useEdge} && from.edges == old(from.edges) + [useEdge]
    {
      hide FirstsOf, InputsOf, LinksOf, PushedLinks;
      FirstsHave(nodes, to, from);
      WriteLinks(useEdge, from, to, to.firstUseEdge, edges);
      assert FirstsOf(nodes) == old(FirstsOf(nodes)) && InputsOf(nodes) == old(InputsOf(nodes));
      label L:
      WriteNodes(useEdge, from, to, nodes);
      assert LinksOf(edges + {useEdge}) == old@L(LinksOf(edges + {useEdge}));
      uses, edges := uses[to := [useEdge] + uses[to]], edges + {useEdge};
    }

    static lemma FirstsHave(nodes: seq<Node>, to: Node, from: Node)
      requires to in nodes && from in nodes
      ensures to in FirstsOf(nodes) && FirstsOf(nodes)[to] == to.firstUseEdge
      ensures from in InputsOf(nodes) && InputsOf(nodes)[from] == from.edges
    {
    }

    static method WriteNodes(useEdge: UseEdge, from: Node, to: Node, ghost nodes: seq<Node>)
      requires from in nodes && to in nodes
      modifies from`edges, to`firstUseEdge
      ensures from.edges == old(from.edges) + [useEdge]
      ensures FirstsOf(nodes) == old(FirstsOf(nodes))[to := useEdge]
      ensures InputsOf(nodes) == old(InputsOf(nodes))[from := old(from.edges) + [useEdge]]
    {
      to.firstUseEdge := useEdge;
      from.edges := from.edges + [useEdge];
    }

    static method WriteLinks(useEdge: UseEdge, from: Node, to: Node, lastFirstUseEdge: UseEdge?, ghost edges: set<UseEdge>)
      requires useEdge !in edges && (lastFirstUseEdge != null ==> lastFirstUseEdge in edges)
      modifies useEdge, lastFirstUseEdge
      ensures LinksOf(edges + {useEdge}) == PushedLinks(old(LinksOf(edges)), useEdge, from, to, lastFirstUseEdge)
    {
      useEdge.from := from;
      useEdge.to := to;
      useEdge.next := lastFirstUseEdge;
      useEdge.previous := null;
      if lastFirstUseEdge != null {
        lastFirstUseEdge.previous := useEdge;
      }
    }

    /** Links one edge per input, in order. */
    method InitUseEdges(from: Node, toNodes: seq<Node>)
      requires Valid() && from in nodes && from.edges == [] && from.operands == toNodes
      modifies this`uses, this`edges, nodes, edges
      ensures Valid() && |from.edges| == |from.operands|
      ensures forall n | n in nodes && n != from :: n.edges == old(n.edges)
      ensures fresh(edges - old(edges)) && old(edges) <= edges
    {
      hide IsSound, Pushed;
      for i := 0 to |toNodes|
        invariant Valid() && |from.edges| == i
        invariant forall n | n in nodes && n != from :: n.edges == old(n.edges)
        invariant fresh(edges - old(edges)) && old(edges) <= edges
      {
        var useEdge := new UseEdge(i);
        FirstEdge(from, i);
        InitUseEdge(useEdge, from, toNodes[i]);
      }
    }

    lemma FirstEdge(from: Node, i: nat)
      requires Valid() && from in nodes && i < |from.operands|
      ensures from.operands[i] in nodes
      ensures from.operands[i].firstUseEdge != null ==> from.operands[i].firstUseEdge in edges
    {
      hide IsUseList;
      var o := from.operands[i];
      OperandsAreNodes(Now(), from);
      FirstIsLinked(o, uses[o], o.firstUseEdge, Now().links);
    }

    /** The use list of a node holds every edge to it, once, and nothing else. */
    lemma UseListHoldsItsEdges(n: Node, e: UseEdge)
      requires Valid() && n in nodes && e in edges
      ensures e in uses[n] <==> e.to == n
      ensures forall i, j | 0 <= i < j < |uses[n]| :: uses[n][i] != uses[n][j]
    {
      hide AreAcyclic, HaveTheirEdges, AreInPlace;
      UsesOf(Now(), n);
      forall i, j | 0 <= i < j < |uses[n]| ensures uses[n][i] != uses[n][j] {
        UseListIsDistinct(n, uses[n], n.firstUseEdge, Now().links, i, j);
      }
    }

    /** There is one edge per user and input, and all use lists together are as long as all inputs. */
    lemma UsesBalanceInputs()
      requires Valid() && IsComplete()
      ensures |edges| == TotalInputs(nodes)
      ensures (forall n | n in nodes :: n in uses) && TotalUses(nodes, uses) == TotalInputs(nodes)
    {
      hide AreAcyclic, AreUseLists, HaveTheirEdges, AreInPlace;
      UsesAreInputs(Now());
      assert Now().links.Keys == edges;
    }

    /** The input at `index`, read through its edge. */
    method InputAt(owner: Node, index: nat) returns (input: Node)
      requires Valid() && IsComplete() && owner in nodes && index < |owner.operands|
      ensures input == owner.operands[index]
    {
      hide IsUseList;
      assert HaveTheirEdges(Now()) && owner in Now().inputs;
      return owner.edges[index].to;
    }
  }
}
