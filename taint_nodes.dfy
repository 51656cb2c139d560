/**
 * The data the visualizer keeps: taint nodes, the typed edges between them,
 * and the networkx MultiDiGraph that holds both.
 */
module TaintNodes {
  import opened Wrappers
  import opened PyStr

  /**
   * A TaintNode object. Every attribute but `uuid` may be None; `nodeattr` is
   * the `c`/`d` stamp written by the edge-typing step.
   */
  datatype TaintNode = TaintNode(
    uuid: string,
    typ: Option<string>,
    name: Option<string>,
    startind: Option<string>,
    endind: Option<string>,
    edgeann: Option<string>,
    childC: Option<string>,
    childD: Option<string>,
    nodeattr: Option<string>)

  /**
   * What `TaintNode.ExtractData(line)` writes into a node. The parser itself is
   * not part of this model; it is a parameter `extract: string -> Fields`.
   */
  datatype Fields = Fields(
    uuid: string,
    typ: Option<string>,
    name: Option<string>,
    startind: Option<string>,
    endind: Option<string>,
    edgeann: Option<string>,
    childC: Option<string>,
    childD: Option<string>)

  /** A MultiDiGraph edge with its `anno` and `edgetype` attributes. */
  datatype Edge = Edge(src: string, dst: string, anno: Option<string>, edgetype: string)

  /**
   * The MultiDiGraph `t_graph`. `nodes` are the graph nodes that carry an
   * `inode` attribute; `bare` are nodes that `add_edge` created implicitly
   * for an endpoint that was not yet a node, and that have no `inode`.
   * Edges form a sequence: parallel edges are kept.
   */
  datatype Graph = Graph(nodes: map<string, TaintNode>, bare: set<string>, edges: seq<Edge>)

  /** `nx.MultiDiGraph()` */
  function EmptyGraph(): Graph {
    Graph(map[], {}, [])
  }

  /** `t_graph.has_node(k)` */
  predicate HasNode(g: Graph, k: string) {
    k in g.nodes || k in g.bare
  }

  /** Every key networkx reports as a node. */
  function AllKeys(g: Graph): set<string> {
    g.nodes.Keys + g.bare
  }

  /** The networkx invariants: a key is a node once, and edges join nodes. */
  ghost predicate GraphValid(g: Graph) {
    (forall k :: k in g.bare ==> k !in g.nodes) &&
    (forall i :: 0 <= i < |g.edges| ==> HasNode(g, g.edges[i].src) && HasNode(g, g.edges[i].dst))
  }

  /** Python truthiness of an optional string: neither None nor empty. */
  predicate Truthy(o: Option<string>) {
    o.Some? && o.value != ""
  }

  /** `TaintNode()`, before any trace line has been absorbed. */
  function BlankNode(): TaintNode {
    TaintNode("", None, None, None, None, None, None, None, None)
  }

  /** `TaintNode(child)`: the placeholder for a forward reference. */
  function Placeholder(id: string): TaintNode {
    TaintNode(id, None, None, None, None, None, None, None, None)
  }

  /**
   * `node.ExtractData(line)`: every parsed attribute is overwritten, `nodeattr`
   * is kept. The ensures names the kept stamp for proofs that do not unfold
   * the constructor.
   */
  function Absorb(n: TaintNode, f: Fields): (r: TaintNode)
    ensures r.nodeattr == n.nodeattr
  {
    TaintNode(f.uuid, f.typ, f.name, f.startind, f.endind, f.edgeann, f.childC, f.childD, n.nodeattr)
  }

  /** The node's attributes other than the `nodeattr` stamp agree with `f`. */
  predicate Carries(n: TaintNode, f: Fields) {
    n.uuid == f.uuid && n.typ == f.typ && n.name == f.name && n.startind == f.startind &&
    n.endind == f.endind && n.edgeann == f.edgeann && n.childC == f.childC && n.childD == f.childD
  }

  /** Two nodes that differ at most in their `nodeattr` stamp. */
  predicate SameButAttr(a: TaintNode, b: TaintNode) {
    a.(nodeattr := None) == b.(nodeattr := None)
  }
}
