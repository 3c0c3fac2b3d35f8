/**
 * The directed graph the graph builder extends: nodes keyed by id, kept in
 * insertion order, and for each node the ordered, duplicate-free list of the
 * ids it has edges to. Only the operations the builder and the resolver use
 * are modelled: has, addNode, addEdge, getNode, edgesFrom and nodes.
 */
module Graph {
  import opened Types

  datatype Graph = Graph(
    nodes: map<string, ParserNode>,
    order: seq<string>,
    edges: map<string, seq<string>>)

  const Empty: Graph := Graph(map[], [], map[])

  predicate NoDuplicates<T(==)>(s: seq<T>)
  {
    forall i, j :: 0 <= i < j < |s| ==> s[i] != s[j]
  }

  /**
   * The graph's own invariant: the insertion order lists every node once,
   * each node is stored under its own id, and edges join stored nodes
   * without repeating a target.
   */
  ghost predicate Valid(g: Graph)
  {
    && NoDuplicates(g.order)
    && (forall i :: 0 <= i < |g.order| ==> g.order[i] in g.nodes)
    && (forall id :: id in g.nodes ==> id in g.order)
    && Keyed(g)
    && (forall from :: from in g.edges ==> from in g.nodes && NoDuplicates(g.edges[from]))
    && (forall from, to :: from in g.edges && to in g.edges[from] ==> to in g.nodes)
  }

  /** Each node is stored under its own id. */
  ghost predicate Keyed(g: Graph)
  {
    forall id :: id in g.nodes ==> g.nodes[id].id == id
  }

  /**
   * Acyclicity, witnessed by a rank that every edge strictly lowers. The
   * graph library's own cycle check is not modelled; the resolver takes
   * such a rank as its precondition instead.
   */
  ghost predicate Ranked(g: Graph, rank: map<string, nat>)
  {
    && (forall id :: id in g.nodes ==> id in rank)
    && (forall from, to :: from in g.edges && to in g.edges[from] ==> from in rank && to in rank && rank[to] < rank[from])
  }

  /** One graph extends another: stored nodes, orders and edge lists only grow. */
  ghost predicate Grows(g: Graph, h: Graph)
  {
    && (forall id :: id in g.nodes ==> id in h.nodes && h.nodes[id] == g.nodes[id])
    && g.order <= h.order
    && (forall from :: from in g.edges ==> from in h.edges && g.edges[from] <= h.edges[from])
  }

  lemma GrowsTransitive(g: Graph, h: Graph, k: Graph)
    requires Grows(g, h) && Grows(h, k)
    ensures Grows(g, k)
  {
  }

  lemma GrowsKeepsEdge(g: Graph, h: Graph, from: string, to: string)
    requires Grows(g, h) && to in Targets(g, from)
    ensures to in Targets(h, from)
  {
    var i :| 0 <= i < |Targets(g, from)| && Targets(g, from)[i] == to;
    assert Targets(h, from)[i] == to;
  }

  function Has(g: Graph, id: string): bool
  {
    id in g.nodes
  }

  /** The ids an edge leaves `from` for, in the order the edges were added. */
  function Targets(g: Graph, from: string): seq<string>
  {
    if from in g.edges then g.edges[from] else []
  }

  function AddNode(g: Graph, n: ParserNode): (h: Graph)
    requires n.id !in g.nodes
    ensures h.nodes == g.nodes[n.id := n] && h.edges == g.edges
  {
    Graph(g.nodes[n.id := n], g.order + [n.id], g.edges)
  }

  /** Adding a node keeps the invariant and only extends the graph. */
  lemma AddNodeValid(g: Graph, n: ParserNode)
    requires n.id !in g.nodes
    ensures Grows(g, AddNode(g, n))
    ensures Valid(g) ==> Valid(AddNode(g, n))
  {
  }

  /** `s` with `x` added last, unless it is already there. */
  function Appended(s: seq<string>, x: string): seq<string>
  {
    if x in s then s else s + [x]
  }

  /** Adds an edge last among `from`'s; an edge that is already there is not added twice. */
  function AddEdge(g: Graph, from: string, to: string): (h: Graph)
    ensures h.nodes == g.nodes && h.order == g.order
    ensures Targets(h, from) == Appended(Targets(g, from), to)
    ensures forall f :: f != from ==> Targets(h, f) == Targets(g, f)
    ensures to in Targets(g, from) ==> h == g
  {
    var old_targets := Targets(g, from);
    if to in old_targets then g
    else Graph(g.nodes, g.order, g.edges[from := old_targets + [to]])
  }

  /** Adding an edge between stored nodes keeps the invariant; any edge only extends the graph. */
  lemma AddEdgeValid(g: Graph, from: string, to: string)
    ensures Grows(g, AddEdge(g, from, to))
    ensures Valid(g) && from in g.nodes && to in g.nodes ==> Valid(AddEdge(g, from, to))
  {
  }

  function GetNode(g: Graph, id: string): ParserNode
    requires id in g.nodes
  {
    g.nodes[id]
  }

  /** The nodes `from` has edges to, in edge order. */
  function EdgesFrom(g: Graph, from: string): (children: seq<ParserNode>)
    requires Valid(g)
    ensures |children| == |Targets(g, from)|
    ensures forall i :: 0 <= i < |children| ==> Targets(g, from)[i] in g.nodes && children[i] == g.nodes[Targets(g, from)[i]]
    ensures forall i :: 0 <= i < |children| ==> children[i].id == Targets(g, from)[i]
  {
    var targets := Targets(g, from);
    seq(|targets|, i requires 0 <= i < |targets| => g.nodes[targets[i]])
  }

  /** Every node, in insertion order. */
  function Nodes(g: Graph): (all: seq<ParserNode>)
    requires Valid(g)
    ensures |all| == |g.order|
    ensures forall i :: 0 <= i < |all| ==> all[i] == g.nodes[g.order[i]]
  {
    seq(|g.order|, i requires 0 <= i < |g.order| => g.nodes[g.order[i]])
  }
}
