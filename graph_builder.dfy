/**
 * `insert_node` and `child_edges` as a function of the graph: a trace line is
 * absorbed into the node registered under its id (create-or-update), then one
 * typed edge is added per child token, with placeholder nodes for children
 * not seen yet.
 */
module GraphBuilder {
  import opened Wrappers
  import opened PyStr
  import opened TaintNodes
  import opened RecordParser

  /** One child token to link: the child id and the field suffix, `c` or `d`. */
  datatype Visit = Visit(child: string, kind: string)

  /** The graph after a step, and whether the step finished without raising. */
  datatype Outcome = Outcome(graph: Graph, ok: bool)

  function ToVisits(ts: seq<string>, kind: string): (r: seq<Visit>)
    ensures |r| == |ts|
    ensures forall j :: 0 <= j < |r| ==> r[j] == Visit(ts[j], kind)
  {
    seq(|ts|, j requires 0 <= j < |ts| => Visit(ts[j], kind))
  }

  /** The visits for one `child_*` attribute: none when it is None, else one per token. */
  function FieldVisits(field: Option<string>, kind: string): seq<Visit> {
    match field
    case None => []
    case Some(x) => ToVisits(SplitWs(x), kind)
  }

  /**
   * The child tokens in the order `child_edges` visits them. It walks the
   * attributes of `node.__dict__`, whose order Python 2 does not fix, so
   * `cFirst` says whether `child_c` comes before `child_d`.
   */
  function Visits(childC: Option<string>, childD: Option<string>, cFirst: bool): (r: seq<Visit>)
    ensures |r| == (if childC.Some? then |SplitWs(childC.value)| else 0) + (if childD.Some? then |SplitWs(childD.value)| else 0)
  {
    if cFirst then FieldVisits(childC, "c") + FieldVisits(childD, "d")
    else FieldVisits(childD, "d") + FieldVisits(childC, "c")
  }

  /** The set of child ids a sequence of visits mentions. */
  function ChildSet(vs: seq<Visit>): set<string> {
    set j | 0 <= j < |vs| :: vs[j].child
  }

  /** All child tokens of the two fields, whatever the visiting order. */
  ghost predicate IsChildToken(childC: Option<string>, childD: Option<string>, t: string) {
    (childC.Some? && t in SplitWs(childC.value)) || (childD.Some? && t in SplitWs(childD.value))
  }

  /** `add_edge` on a key that is not a node makes it a node without data. */
  function AddNodeKey(g: Graph, k: string): Graph {
    if HasNode(g, k) then g else g.(bare := g.bare + {k})
  }

  /**
   * `t_graph.add_edge(src, dst, anno=..., edgetype=...)`. The ensures spell
   * out the body so that callers' proofs need not unfold AddNodeKey.
   */
  function AddEdge(g: Graph, e: Edge): (r: Graph)
    ensures r.nodes == g.nodes
    ensures r.edges == g.edges + [e]
    ensures r.bare == g.bare + (if HasNode(g, e.src) then {} else {e.src})
                             + (if HasNode(g, e.dst) || e.dst == e.src then {} else {e.dst})
  {
    var g1 := AddNodeKey(AddNodeKey(g, e.src), e.dst);
    g1.(edges := g1.edges + [e])
  }

  /** The edge from the node stored under `parent` (its key is `str(node)`) to a child. */
  function EdgeFor(g: Graph, parent: string, keyOf: TaintNode -> string, v: Visit): Edge
    requires parent in g.nodes
  {
    Edge(keyOf(g.nodes[parent]), v.child, g.nodes[parent].edgeann, v.kind)
  }

  /**
   * One iteration of the inner loop of `child_edges`. A known child gets the
   * edge and then its stamp; an unknown child becomes a stamped placeholder
   * and then gets the edge; a child that is a node without `inode` gets the
   * edge and then raises KeyError on the `inode` lookup.
   */
  function VisitStep(g: Graph, parent: string, keyOf: TaintNode -> string, v: Visit): (r: Outcome)
    requires parent in g.nodes
    ensures r.graph.edges == g.edges + [EdgeFor(g, parent, keyOf, v)]
    ensures r.ok <==> v.child in g.nodes || v.child !in g.bare
    ensures parent in r.graph.nodes
  {
    var e := EdgeFor(g, parent, keyOf, v);
    if v.child in g.nodes then
      var g1 := AddEdge(g, e);
      Outcome(g1.(nodes := g1.nodes[v.child := g1.nodes[v.child].(nodeattr := Some(v.kind))]), true)
    else if v.child in g.bare then
      Outcome(AddEdge(g, e), false)
    else
      var g1 := g.(nodes := g.nodes[v.child := Placeholder(v.child).(nodeattr := Some(v.kind))]);
      Outcome(AddEdge(g1, e), true)
  }

  /**
   * What one visit does to the registry: the child, and only the child, gets
   * the visit's stamp; a new child is a placeholder; nothing else changes.
   */
  lemma StepNodes(g: Graph, parent: string, keyOf: TaintNode -> string, v: Visit)
    requires parent in g.nodes
    ensures var r := VisitStep(g, parent, keyOf, v);
      (r.ok ==> v.child in r.graph.nodes && r.graph.nodes[v.child].nodeattr == Some(v.kind)) &&
      (forall k :: k in g.nodes ==> SameButAttr(r.graph.nodes[k], g.nodes[k])) &&
      (forall k :: k in g.nodes && k != v.child ==> r.graph.nodes[k] == g.nodes[k]) &&
      (v.child !in g.nodes && r.ok ==> r.graph.nodes[v.child] == Placeholder(v.child).(nodeattr := Some(v.kind)))
  {
  }

  /** One visit changes a node at most in its stamp, and a node it does not name not at all. */
  lemma StepKeeps(g: Graph, parent: string, keyOf: TaintNode -> string, v: Visit, k: string)
    requires parent in g.nodes
    requires k in g.nodes
    ensures var r := VisitStep(g, parent, keyOf, v).graph;
      k in r.nodes && SameButAttr(r.nodes[k], g.nodes[k]) && (k != v.child ==> r.nodes[k] == g.nodes[k])
  {
  }

  /** One visit adds its child as a key unless it raises, and no other key. */
  lemma StepKeys(g: Graph, parent: string, keyOf: TaintNode -> string, v: Visit)
    requires parent in g.nodes
    ensures var r := VisitStep(g, parent, keyOf, v);
      r.graph.nodes.Keys == g.nodes.Keys + (if r.ok then {v.child} else {})
  {
  }

  /** The loops of `child_edges`, stopping at the first visit that raises. */
  function RunVisits(g: Graph, parent: string, keyOf: TaintNode -> string, vs: seq<Visit>): (r: Outcome)
    requires parent in g.nodes
    ensures parent in r.graph.nodes
    decreases |vs|
  {
    if vs == [] then Outcome(g, true)
    else
      var o := VisitStep(g, parent, keyOf, vs[0]);
      if !o.ok then o else RunVisits(o.graph, parent, keyOf, vs[1..])
  }

  /** The node `insert_node` writes for id u, before child stamps. */
  function AbsorbedNode(g: Graph, u: string, f: Fields): (n: TaintNode)
    ensures Carries(n, f)
    ensures n.nodeattr == if u in g.nodes then g.nodes[u].nodeattr else None
  {
    if u in g.nodes then Absorb(g.nodes[u], f) else Absorb(BlankNode(), f)
  }

  /**
   * `insert_node(s)` once the line's id u and its attributes f are known: an
   * id that is a node without `inode` raises KeyError and leaves the graph as
   * it was. Otherwise the node under that id is updated, or a new one is
   * registered, and its child edges are added.
   */
  function InsertId(g: Graph, u: string, f: Fields, keyOf: TaintNode -> string, cFirst: bool): (r: Outcome)
    ensures u !in g.nodes && u in g.bare ==> r == Outcome(g, false)
  {
    if u !in g.nodes && u in g.bare then Outcome(g, false)
    else RunVisits(g.(nodes := g.nodes[u := AbsorbedNode(g, u, f)]), u, keyOf, Visits(f.childC, f.childD, cFirst))
  }

  /**
   * `insert_node(s)`. A line without an id raises in `extract_uuid` and
   * leaves the graph as it was; otherwise the line is inserted under its id
   * with the attributes `ExtractData` gives for it.
   */
  function InsertLine(g: Graph, s: string, extract: string -> Fields, keyOf: TaintNode -> string, cFirst: bool): (r: Outcome)
    ensures ExtractUuid(s).None? ==> r == Outcome(g, false)
  {
    match ExtractUuid(s)
    case None => Outcome(g, false)
    case Some(u) => InsertId(g, u, extract(s), keyOf, cFirst)
  }

  /** `str(node)` does not depend on the `nodeattr` stamp. */
  ghost predicate AttrBlind(keyOf: TaintNode -> string) {
    forall a: TaintNode, b: TaintNode :: SameButAttr(a, b) ==> keyOf(a) == keyOf(b)
  }

  // ---------------------------------------------------------------------
  // The fold, step by step

  lemma {:induction false} RunVisitsSnoc(g: Graph, parent: string, keyOf: TaintNode -> string, vs: seq<Visit>, v: Visit)
    requires parent in g.nodes
    ensures var o := RunVisits(g, parent, keyOf, vs);
            RunVisits(g, parent, keyOf, vs + [v]) == if o.ok then VisitStep(o.graph, parent, keyOf, v) else o
    decreases |vs|
  {
    if vs == [] {
      assert vs + [v] == [v];
    } else {
      assert (vs + [v])[0] == vs[0];
      assert (vs + [v])[1..] == vs[1..] + [v];
      var o := VisitStep(g, parent, keyOf, vs[0]);
      if o.ok {
        RunVisitsSnoc(o.graph, parent, keyOf, vs[1..], v);
      }
    }
  }

  /** Once a prefix of the visits raised, the rest of them never run. */
  lemma {:induction false} RunVisitsPrefixFail(g: Graph, parent: string, keyOf: TaintNode -> string, vs: seq<Visit>, ws: seq<Visit>)
    requires parent in g.nodes
    requires vs <= ws
    requires !RunVisits(g, parent, keyOf, vs).ok
    ensures RunVisits(g, parent, keyOf, ws) == RunVisits(g, parent, keyOf, vs)
    decreases |vs|
  {
    assert vs[0] == ws[0];
    var o := VisitStep(g, parent, keyOf, vs[0]);
    if o.ok {
      assert vs[1..] <= ws[1..];
      RunVisitsPrefixFail(o.graph, parent, keyOf, vs[1..], ws[1..]);
    }
  }

  lemma ChildSetCons(vs: seq<Visit>)
    requires vs != []
    ensures ChildSet(vs) == {vs[0].child} + ChildSet(vs[1..])
  {
    forall t | t in ChildSet(vs) ensures t in {vs[0].child} + ChildSet(vs[1..]) {
      var j :| 0 <= j < |vs| && vs[j].child == t;
      if j > 0 { assert vs[1..][j - 1].child == t; }
    }
    forall t | t in ChildSet(vs[1..]) ensures t in ChildSet(vs) {
      var j :| 0 <= j < |vs[1..]| && vs[1..][j].child == t;
      assert vs[j + 1].child == t;
    }
  }

  /**
   * What the child loop does to the registry: nodes are never removed and
   * change only in their stamp; a node no visit names is untouched; the only
   * new keys are visited children, each a placeholder; and when no visit
   * raises, every visited child is a key (forward-reference closure).
   */
  lemma RunVisitsNodes(g: Graph, parent: string, keyOf: TaintNode -> string, vs: seq<Visit>)
    requires parent in g.nodes
    ensures var r := RunVisits(g, parent, keyOf, vs).graph;
      (forall k :: k in g.nodes ==> k in r.nodes && SameButAttr(r.nodes[k], g.nodes[k])) &&
      (forall k :: k in g.nodes && k !in ChildSet(vs) ==> r.nodes[k] == g.nodes[k]) &&
      (forall k :: k in r.nodes && k !in g.nodes ==> k in ChildSet(vs) && r.nodes[k].(nodeattr := None) == Placeholder(k))
    ensures var o := RunVisits(g, parent, keyOf, vs);
      o.ok ==> o.graph.nodes.Keys == g.nodes.Keys + ChildSet(vs)
  {
    forall k | k in g.nodes
      ensures var r := RunVisits(g, parent, keyOf, vs).graph;
        k in r.nodes && SameButAttr(r.nodes[k], g.nodes[k]) && (k !in ChildSet(vs) ==> r.nodes[k] == g.nodes[k])
    {
      RunVisitsKept(g, parent, keyOf, vs, k);
    }
    forall k | k in RunVisits(g, parent, keyOf, vs).graph.nodes && k !in g.nodes
      ensures var r := RunVisits(g, parent, keyOf, vs).graph;
        k in ChildSet(vs) && r.nodes[k].(nodeattr := None) == Placeholder(k)
    {
      RunVisitsNew(g, parent, keyOf, vs, k);
    }
    RunVisitsKeys(g, parent, keyOf, vs);
  }

  /** A node that was there stays, changed at most in its stamp, and not at all unless visited. */
  lemma {:induction false} RunVisitsKept(g: Graph, parent: string, keyOf: TaintNode -> string, vs: seq<Visit>, k: string)
    requires parent in g.nodes
    requires k in g.nodes
    ensures var r := RunVisits(g, parent, keyOf, vs).graph;
      k in r.nodes && SameButAttr(r.nodes[k], g.nodes[k]) && (k !in ChildSet(vs) ==> r.nodes[k] == g.nodes[k])
    decreases |vs|
  {
    if vs != [] {
      ChildSetCons(vs);
      var o := VisitStep(g, parent, keyOf, vs[0]);
      StepKeeps(g, parent, keyOf, vs[0], k);
      if o.ok {
        RunVisitsKept(o.graph, parent, keyOf, vs[1..], k);
      }
    }
  }

  /** A key the loop adds is a visited child, registered as a placeholder. */
  lemma {:induction false} RunVisitsNew(g: Graph, parent: string, keyOf: TaintNode -> string, vs: seq<Visit>, k: string)
    requires parent in g.nodes
    requires k in RunVisits(g, parent, keyOf, vs).graph.nodes && k !in g.nodes
    ensures k in ChildSet(vs) && RunVisits(g, parent, keyOf, vs).graph.nodes[k].(nodeattr := None) == Placeholder(k)
    decreases |vs|
  {
    ChildSetCons(vs);
    var o := VisitStep(g, parent, keyOf, vs[0]);
    StepNodes(g, parent, keyOf, vs[0]);
    if o.ok {
      if k in o.graph.nodes {
        RunVisitsKept(o.graph, parent, keyOf, vs[1..], k);
      } else {
        RunVisitsNew(o.graph, parent, keyOf, vs[1..], k);
      }
    }
  }

  /** A loop that does not raise adds exactly the visited children as keys. */
  lemma {:induction false} RunVisitsKeys(g: Graph, parent: string, keyOf: TaintNode -> string, vs: seq<Visit>)
    requires parent in g.nodes
    ensures var o := RunVisits(g, parent, keyOf, vs);
      o.ok ==> o.graph.nodes.Keys == g.nodes.Keys + ChildSet(vs)
    decreases |vs|
  {
    if vs != [] {
      ChildSetCons(vs);
      var o := VisitStep(g, parent, keyOf, vs[0]);
      StepKeys(g, parent, keyOf, vs[0]);
      if o.ok {
        RunVisitsKeys(o.graph, parent, keyOf, vs[1..]);
      }
    }
  }

  /**
   * Last writer wins: when the loop finishes, a child's stamp is the kind of
   * the last visit that named it.
   */
  lemma {:induction false} RunVisitsStamps(g: Graph, parent: string, keyOf: TaintNode -> string, vs: seq<Visit>, j: nat)
    requires parent in g.nodes
    requires RunVisits(g, parent, keyOf, vs).ok
    requires j < |vs|
    requires forall j' :: j < j' < |vs| ==> vs[j'].child != vs[j].child
    ensures var r := RunVisits(g, parent, keyOf, vs).graph;
      vs[j].child in r.nodes && r.nodes[vs[j].child].nodeattr == Some(vs[j].kind)
    decreases |vs|
  {
    var o := VisitStep(g, parent, keyOf, vs[0]);
    StepNodes(g, parent, keyOf, vs[0]);
    if j == 0 {
      assert vs[0].child !in ChildSet(vs[1..]) by {
        forall i | 0 <= i < |vs[1..]| ensures vs[1..][i].child != vs[0].child {
          assert vs[1..][i] == vs[i + 1];
        }
      }
      RunVisitsNodes(o.graph, parent, keyOf, vs[1..]);
    } else {
      forall j' | j - 1 < j' < |vs[1..]| ensures vs[1..][j'].child != vs[1..][j - 1].child {
        assert vs[1..][j'] == vs[j' + 1];
      }
      RunVisitsStamps(o.graph, parent, keyOf, vs[1..], j - 1);
    }
  }

  /** `src` is what `str` gives for node p under some `nodeattr` stamp. */
  ghost predicate KeyedBy(src: string, p: TaintNode, keyOf: TaintNode -> string) {
    exists a: Option<string> :: src == keyOf(p.(nodeattr := a))
  }

  /**
   * A new edge made for visit v from parent node p: it goes to the child,
   * has the visit's kind and p's `edgeann`, and starts at p's key as it
   * was when the edge was added (only the stamp can have changed since).
   */
  ghost predicate EdgeMatches(e: Edge, v: Visit, p: TaintNode, keyOf: TaintNode -> string) {
    e.dst == v.child && e.edgetype == v.kind && e.anno == p.edgeann && KeyedBy(e.src, p, keyOf)
  }

  lemma EdgeMatchesTransfer(e: Edge, v: Visit, p: TaintNode, q: TaintNode, keyOf: TaintNode -> string)
    requires SameButAttr(p, q)
    requires EdgeMatches(e, v, p, keyOf)
    ensures EdgeMatches(e, v, q, keyOf)
  {
    assert p.edgeann == p.(nodeattr := None).edgeann;
    var a :| e.src == keyOf(p.(nodeattr := a));
    assert p.(nodeattr := a) == q.(nodeattr := a);
  }

  /**
   * The loop appends at most one edge per visit, exactly one per visit when
   * nothing raises, and never touches earlier edges.
   */
  lemma {:induction false} RunVisitsEdgeCount(g: Graph, parent: string, keyOf: TaintNode -> string, vs: seq<Visit>)
    requires parent in g.nodes
    ensures var o := RunVisits(g, parent, keyOf, vs);
      |g.edges| < |o.graph.edges| + (if o.ok then 1 else 0) &&
      |o.graph.edges| <= |g.edges| + |vs| &&
      (o.ok ==> |o.graph.edges| == |g.edges| + |vs|) &&
      o.graph.edges[..|g.edges|] == g.edges
    decreases |vs|
  {
    if vs != [] {
      var o := VisitStep(g, parent, keyOf, vs[0]);
      if o.ok {
        RunVisitsEdgeCount(o.graph, parent, keyOf, vs[1..]);
        var r := RunVisits(o.graph, parent, keyOf, vs[1..]).graph;
        var n := |g.edges|;
        assert r.edges[..n] == r.edges[..n + 1][..n];
      } else {
        assert o.graph.edges[..|g.edges|] == g.edges;
      }
    }
  }

  /**
   * Each edge the loop appends belongs to the visit at the same position: it
   * goes to the visited child, carries the visit's kind and the parent's
   * `edgeann`, and, when `str(node)` ignores the stamp, starts at the
   * parent's key.
   */
  lemma {:induction false} RunVisitsEdgeAt(g: Graph, parent: string, keyOf: TaintNode -> string, vs: seq<Visit>, k: nat)
    requires parent in g.nodes
    requires k < |vs|
    requires |g.edges| + k < |RunVisits(g, parent, keyOf, vs).graph.edges|
    ensures EdgeMatches(RunVisits(g, parent, keyOf, vs).graph.edges[|g.edges| + k], vs[k], g.nodes[parent], keyOf)
    decreases k, 2
  {
    if !VisitStep(g, parent, keyOf, vs[0]).ok || k == 0 {
      FirstEdge(g, parent, keyOf, vs);
    } else {
      EdgeAtTail(g, parent, keyOf, vs, k);
    }
  }

  /** The inductive step of RunVisitsEdgeAt, once the first visit has gone through. */
  lemma {:induction false} EdgeAtTail(g: Graph, parent: string, keyOf: TaintNode -> string, vs: seq<Visit>, k: nat)
    requires parent in g.nodes
    requires 0 < k < |vs|
    requires VisitStep(g, parent, keyOf, vs[0]).ok
    requires |g.edges| + k < |RunVisits(VisitStep(g, parent, keyOf, vs[0]).graph, parent, keyOf, vs[1..]).graph.edges|
    ensures EdgeMatches(RunVisits(VisitStep(g, parent, keyOf, vs[0]).graph, parent, keyOf, vs[1..]).graph.edges[|g.edges| + k],
                        vs[k], g.nodes[parent], keyOf)
    decreases k, 1
  {
    StepKeeps(g, parent, keyOf, vs[0], parent);
    EdgeAtShift(g.edges, VisitStep(g, parent, keyOf, vs[0]).graph, parent, keyOf, vs, k, g.nodes[parent]);
  }

  /** The edge one position past the rest's k-1-th, from a parent node that differs only in its stamp. */
  lemma {:induction false} EdgeAtShift(ge: seq<Edge>, o: Graph, parent: string, keyOf: TaintNode -> string, vs: seq<Visit>, k: nat, p: TaintNode)
    requires parent in o.nodes
    requires 0 < k < |vs|
    requires |o.edges| == |ge| + 1
    requires SameButAttr(o.nodes[parent], p)
    requires |ge| + k < |RunVisits(o, parent, keyOf, vs[1..]).graph.edges|
    ensures EdgeMatches(RunVisits(o, parent, keyOf, vs[1..]).graph.edges[|ge| + k], vs[k], p, keyOf)
    decreases k, 0
  {
    var j: nat := k - 1;
    RunVisitsEdgeAt(o, parent, keyOf, vs[1..], j);
    ShiftMatch(RunVisits(o, parent, keyOf, vs[1..]).graph.edges, |o.edges| + j, |ge| + k,
               vs[1..][j], vs[k], o.nodes[parent], p, keyOf);
  }

  /** EdgeMatchesTransfer at a position and a visit that are equal to the given ones. */
  lemma ShiftMatch(re: seq<Edge>, a: int, b: int, w: Visit, w': Visit, p: TaintNode, q: TaintNode,
                   keyOf: TaintNode -> string)
    requires a == b && 0 <= a < |re| && w == w'
    requires SameButAttr(p, q)
    requires EdgeMatches(re[a], w, p, keyOf)
    ensures EdgeMatches(re[b], w', q, keyOf)
  {
    EdgeMatchesTransfer(re[a], w, p, q, keyOf);
  }

  /** The edge at the old length belongs to the first visit. */
  lemma FirstEdge(g: Graph, parent: string, keyOf: TaintNode -> string, vs: seq<Visit>)
    requires parent in g.nodes
    requires vs != []
    ensures var r := RunVisits(g, parent, keyOf, vs).graph;
      |g.edges| < |r.edges| && EdgeMatches(r.edges[|g.edges|], vs[0], g.nodes[parent], keyOf)
  {
    var n := |g.edges|;
    var o := VisitStep(g, parent, keyOf, vs[0]);
    var e := EdgeFor(g, parent, keyOf, vs[0]);
    var p := g.nodes[parent];
    assert p.(nodeattr := p.nodeattr) == p;
    assert EdgeMatches(e, vs[0], p, keyOf);
    assert o.graph.edges[n] == e;
    if o.ok {
      RunVisitsEdgeCount(o.graph, parent, keyOf, vs[1..]);
      var r := RunVisits(o.graph, parent, keyOf, vs[1..]).graph;
      assert r.edges[n] == r.edges[..n + 1][n];
    }
  }

  /** The networkx invariants survive the child loop, whether or not it raises. */
  lemma {:induction false} RunVisitsValid(g: Graph, parent: string, keyOf: TaintNode -> string, vs: seq<Visit>)
    requires parent in g.nodes
    requires GraphValid(g)
    ensures GraphValid(RunVisits(g, parent, keyOf, vs).graph)
    decreases |vs|
  {
    if vs != [] {
      var o := VisitStep(g, parent, keyOf, vs[0]);
      StepValid(g, parent, keyOf, vs[0]);
      if o.ok {
        RunVisitsValid(o.graph, parent, keyOf, vs[1..]);
      }
    }
  }

  lemma StepValid(g: Graph, parent: string, keyOf: TaintNode -> string, v: Visit)
    requires parent in g.nodes
    requires GraphValid(g)
    ensures GraphValid(VisitStep(g, parent, keyOf, v).graph)
  {
    var r := VisitStep(g, parent, keyOf, v).graph;
    var e := EdgeFor(g, parent, keyOf, v);
    assert HasNode(r, e.src) && HasNode(r, e.dst);
    forall i | 0 <= i < |r.edges| ensures HasNode(r, r.edges[i].src) && HasNode(r, r.edges[i].dst) {
      if i < |g.edges| {
        assert r.edges[i] == g.edges[i];
      }
    }
  }

  /**
   * When `str(node)` is the node's uuid and no graph node lacks `inode`, the
   * loop never raises and never creates a node without `inode`.
   */
  lemma {:induction false} RunVisitsUuidKeyed(g: Graph, parent: string, keyOf: TaintNode -> string, vs: seq<Visit>)
    requires parent in g.nodes && g.nodes[parent].uuid == parent
    requires forall n: TaintNode :: keyOf(n) == n.uuid
    requires g.bare == {}
    ensures RunVisits(g, parent, keyOf, vs).ok
    ensures RunVisits(g, parent, keyOf, vs).graph.bare == {}
    decreases |vs|
  {
    if vs != [] {
      var o := VisitStep(g, parent, keyOf, vs[0]);
      StepNodes(g, parent, keyOf, vs[0]);
      assert keyOf(g.nodes[parent]) == parent;
      assert SameButAttr(o.graph.nodes[parent], g.nodes[parent]);
      assert o.graph.nodes[parent].uuid == parent;
      RunVisitsUuidKeyed(o.graph, parent, keyOf, vs[1..]);
    }
  }

  // ---------------------------------------------------------------------
  // insert_node

  /** The visits name exactly the child tokens of the two fields. */
  lemma VisitsChildren(childC: Option<string>, childD: Option<string>, cFirst: bool, t: string)
    ensures t in ChildSet(Visits(childC, childD, cFirst)) <==> IsChildToken(childC, childD, t)
  {
    VisitsFromFields(childC, childD, cFirst, t);
    FieldsToVisits(childC, childD, cFirst, t);
  }

  lemma VisitsFromFields(childC: Option<string>, childD: Option<string>, cFirst: bool, t: string)
    ensures t in ChildSet(Visits(childC, childD, cFirst)) ==> IsChildToken(childC, childD, t)
  {
    var vc, vd := FieldVisits(childC, "c"), FieldVisits(childD, "d");
    var vs := Visits(childC, childD, cFirst);
    if t in ChildSet(vs) {
      var j :| 0 <= j < |vs| && vs[j].child == t;
      if cFirst {
        if j < |vc| { assert vs[j] == vc[j]; } else { assert vs[j] == vd[j - |vc|]; }
      } else {
        if j < |vd| { assert vs[j] == vd[j]; } else { assert vs[j] == vc[j - |vd|]; }
      }
    }
  }

  lemma FieldsToVisits(childC: Option<string>, childD: Option<string>, cFirst: bool, t: string)
    ensures IsChildToken(childC, childD, t) ==> t in ChildSet(Visits(childC, childD, cFirst))
  {
    var vc, vd := FieldVisits(childC, "c"), FieldVisits(childD, "d");
    var vs := Visits(childC, childD, cFirst);
    if childC.Some? && t in SplitWs(childC.value) {
      var ts := SplitWs(childC.value);
      var j :| 0 <= j < |ts| && ts[j] == t;
      if cFirst { assert vs[j] == vc[j]; } else { assert vs[|vd| + j] == vc[j]; }
    }
    if childD.Some? && t in SplitWs(childD.value) {
      var ts := SplitWs(childD.value);
      var j :| 0 <= j < |ts| && ts[j] == t;
      if cFirst { assert vs[|vc| + j] == vd[j]; } else { assert vs[j] == vd[j]; }
    }
  }

  /** The attribute order changes only the order of the visits, not which visits there are. */
  lemma VisitsOrderFree(childC: Option<string>, childD: Option<string>)
    ensures multiset(Visits(childC, childD, true)) == multiset(Visits(childC, childD, false))
  {
  }

  /** One visit per token of each present field, each typed `c` or `d`. */
  lemma VisitsKinds(childC: Option<string>, childD: Option<string>, cFirst: bool)
    ensures |Visits(childC, childD, cFirst)| ==
      (if childC.Some? then |SplitWs(childC.value)| else 0) + (if childD.Some? then |SplitWs(childD.value)| else 0)
    ensures forall j :: 0 <= j < |Visits(childC, childD, cFirst)| ==> Visits(childC, childD, cFirst)[j].kind in {"c", "d"}
  {
    var vc, vd := FieldVisits(childC, "c"), FieldVisits(childD, "d");
    var vs := Visits(childC, childD, cFirst);
    forall j | 0 <= j < |vs| ensures vs[j].kind in {"c", "d"} {
      if cFirst {
        if j < |vc| { assert vs[j] == vc[j]; } else { assert vs[j] == vd[j - |vc|]; }
      } else {
        if j < |vd| { assert vs[j] == vd[j]; } else { assert vs[j] == vc[j - |vd|]; }
      }
    }
  }

  /**
   * Create-or-update: the node under the line's id holds every attribute the
   * line carries; an existing node keeps its stamp and a new one starts
   * without; no node with `inode` appears besides the id and the child
   * tokens (`add_edge` may still add the key `str(node)` without data), and
   * when the insert completes every child token is a node (forward-reference
   * closure).
   */
  lemma InsertCreateOrUpdate(g: Graph, u: string, f: Fields, keyOf: TaintNode -> string, cFirst: bool)
    requires u in g.nodes || u !in g.bare
    ensures var r := InsertId(g, u, f, keyOf, cFirst).graph;
      u in r.nodes && Carries(r.nodes[u], f) &&
      (forall k :: k in r.nodes ==> k in g.nodes || k == u || IsChildToken(f.childC, f.childD, k)) &&
      (!IsChildToken(f.childC, f.childD, u) ==>
         r.nodes[u].nodeattr == (if u in g.nodes then g.nodes[u].nodeattr else None))
    ensures var o := InsertId(g, u, f, keyOf, cFirst);
      o.ok ==> forall t :: IsChildToken(f.childC, f.childD, t) ==> t in o.graph.nodes
  {
    var n := AbsorbedNode(g, u, f);
    var g1 := g.(nodes := g.nodes[u := n]);
    var vs := Visits(n.childC, n.childD, cFirst);
    RunVisitsNodes(g1, u, keyOf, vs);
    forall t ensures t in ChildSet(vs) <==> IsChildToken(f.childC, f.childD, t) {
      VisitsChildren(f.childC, f.childD, cFirst, t);
    }
  }

  /**
   * Other nodes are left alone apart from the child stamps: a node that is
   * not a child token of the line is unchanged, and a child token changes at
   * most in its stamp.
   */
  lemma InsertKeepsOthers(g: Graph, u: string, f: Fields, keyOf: TaintNode -> string, cFirst: bool, k: string)
    requires k != u
    requires k in g.nodes
    ensures var r := InsertId(g, u, f, keyOf, cFirst).graph;
      k in r.nodes && SameButAttr(r.nodes[k], g.nodes[k]) &&
      (!IsChildToken(f.childC, f.childD, k) ==> r.nodes[k] == g.nodes[k])
  {
    if u in g.nodes || u !in g.bare {
      var n := AbsorbedNode(g, u, f);
      var g1 := g.(nodes := g.nodes[u := n]);
      RunVisitsNodes(g1, u, keyOf, Visits(n.childC, n.childD, cFirst));
      VisitsChildren(f.childC, f.childD, cFirst, k);
    }
  }

  /** Each child token the line created is a placeholder `TaintNode(child)` with its stamp. */
  lemma InsertPlaceholders(g: Graph, u: string, f: Fields, keyOf: TaintNode -> string, cFirst: bool, k: string)
    requires k != u
    requires k !in g.nodes
    requires k in InsertId(g, u, f, keyOf, cFirst).graph.nodes
    ensures var r := InsertId(g, u, f, keyOf, cFirst).graph;
      IsChildToken(f.childC, f.childD, k) &&
      r.nodes[k] == Placeholder(k).(nodeattr := r.nodes[k].nodeattr)
  {
    var n := AbsorbedNode(g, u, f);
    var g1 := g.(nodes := g.nodes[u := n]);
    RunVisitsNodes(g1, u, keyOf, Visits(n.childC, n.childD, cFirst));
    VisitsChildren(f.childC, f.childD, cFirst, k);
  }

  /** A completed insert is the child loop run from the registered node. */
  lemma InsertRuns(g: Graph, u: string, f: Fields, keyOf: TaintNode -> string, cFirst: bool)
    requires InsertId(g, u, f, keyOf, cFirst).ok
    ensures var n := AbsorbedNode(g, u, f);
      InsertId(g, u, f, keyOf, cFirst) ==
        RunVisits(g.(nodes := g.nodes[u := n]), u, keyOf, Visits(f.childC, f.childD, cFirst))
  {
  }

  /**
   * Edge accounting of a completed insert: exactly one new edge per child
   * token (no deduplication), appended after the old edges, which are kept.
   */
  lemma InsertEdgeCount(g: Graph, u: string, f: Fields, keyOf: TaintNode -> string, cFirst: bool)
    requires InsertId(g, u, f, keyOf, cFirst).ok
    ensures var r := InsertId(g, u, f, keyOf, cFirst).graph;
      |r.edges| == |g.edges| + (if f.childC.Some? then |SplitWs(f.childC.value)| else 0)
                             + (if f.childD.Some? then |SplitWs(f.childD.value)| else 0) &&
      r.edges[..|g.edges|] == g.edges
  {
    InsertRuns(g, u, f, keyOf, cFirst);
    var n := AbsorbedNode(g, u, f);
    RunVisitsEdgeCount(g.(nodes := g.nodes[u := n]), u, keyOf, Visits(f.childC, f.childD, cFirst));
    VisitsKinds(f.childC, f.childD, cFirst);
  }

  /**
   * The j-th new edge of a completed insert belongs to the j-th child token
   * in visiting order: it goes to that child, is typed by the field it came
   * from and carries the line's `edgeann`.
   */
  lemma InsertEdgeAt(g: Graph, u: string, f: Fields, keyOf: TaintNode -> string, cFirst: bool, j: nat)
    requires InsertId(g, u, f, keyOf, cFirst).ok
    requires j < |Visits(f.childC, f.childD, cFirst)|
    ensures NewEdgeFor(InsertId(g, u, f, keyOf, cFirst).graph, |g.edges| + j, Visits(f.childC, f.childD, cFirst)[j], f.edgeann)
  {
    var n := AbsorbedNode(g, u, f);
    var g1 := g.(nodes := g.nodes[u := n]);
    var vs := Visits(n.childC, n.childD, cFirst);
    RunEdgeTargets(g1, u, keyOf, vs, j);
  }

  /** Edge i exists, goes to the visit's child, has the visit's kind and carries the annotation. */
  predicate NewEdgeFor(r: Graph, i: nat, v: Visit, anno: Option<string>) {
    i < |r.edges| && r.edges[i].dst == v.child && r.edges[i].edgetype == v.kind && r.edges[i].anno == anno
  }

  /** The j-th edge a completed loop adds goes to the j-th child, typed by its field, with the parent's annotation. */
  lemma RunEdgeTargets(g: Graph, parent: string, keyOf: TaintNode -> string, vs: seq<Visit>, j: nat)
    requires parent in g.nodes
    requires RunVisits(g, parent, keyOf, vs).ok
    requires j < |vs|
    ensures NewEdgeFor(RunVisits(g, parent, keyOf, vs).graph, |g.edges| + j, vs[j], g.nodes[parent].edgeann)
  {
    RunVisitsEdgeCount(g, parent, keyOf, vs);
    RunVisitsEdgeAt(g, parent, keyOf, vs, j);
  }

  /**
   * The j-th new edge of a completed insert starts at the key of the
   * inserted node: `str` of that node under some stamp, and exactly its
   * key when `str(node)` ignores the stamp.
   */
  lemma InsertEdgeSource(g: Graph, u: string, f: Fields, keyOf: TaintNode -> string, cFirst: bool, j: nat)
    requires InsertId(g, u, f, keyOf, cFirst).ok
    requires j < |Visits(f.childC, f.childD, cFirst)|
    ensures var r := InsertId(g, u, f, keyOf, cFirst).graph;
      u in r.nodes && |g.edges| + j < |r.edges| &&
      KeyedBy(r.edges[|g.edges| + j].src, r.nodes[u], keyOf) &&
      (AttrBlind(keyOf) ==> r.edges[|g.edges| + j].src == keyOf(r.nodes[u]))
  {
    var n := AbsorbedNode(g, u, f);
    var g1 := g.(nodes := g.nodes[u := n]);
    RunEdgeFacts(g1, u, keyOf, Visits(n.childC, n.childD, cFirst), j);
  }

  /** RunVisitsEdgeAt for a loop that completed, against the parent node as it ends up. */
  lemma RunEdgeFacts(g: Graph, parent: string, keyOf: TaintNode -> string, vs: seq<Visit>, j: nat)
    requires parent in g.nodes
    requires RunVisits(g, parent, keyOf, vs).ok
    requires j < |vs|
    ensures var r := RunVisits(g, parent, keyOf, vs).graph;
      |g.edges| + j < |r.edges| &&
      EdgeMatches(r.edges[|g.edges| + j], vs[j], r.nodes[parent], keyOf) &&
      r.edges[|g.edges| + j].anno == g.nodes[parent].edgeann &&
      (AttrBlind(keyOf) ==> r.edges[|g.edges| + j].src == keyOf(r.nodes[parent]))
  {
    RunVisitsEdgeCount(g, parent, keyOf, vs);
    RunVisitsNodes(g, parent, keyOf, vs);
    var r := RunVisits(g, parent, keyOf, vs).graph;
    RunVisitsEdgeAt(g, parent, keyOf, vs, j);
    var e := r.edges[|g.edges| + j];
    var p := g.nodes[parent];
    EdgeMatchesTransfer(e, vs[j], p, r.nodes[parent], keyOf);
    if AttrBlind(keyOf) {
      var a :| e.src == keyOf(p.(nodeattr := a));
      assert SameButAttr(p.(nodeattr := a), r.nodes[parent]);
    }
  }

  /**
   * Last writer wins for the stamp: after a completed insert, each child's
   * `nodeattr` is the kind of the last visit naming it, whether the child
   * existed before or was created by this insert.
   */
  lemma InsertStamps(g: Graph, u: string, f: Fields, keyOf: TaintNode -> string, cFirst: bool, j: nat)
    requires InsertId(g, u, f, keyOf, cFirst).ok
    requires j < |Visits(f.childC, f.childD, cFirst)|
    requires var vs := Visits(f.childC, f.childD, cFirst);
      forall j' :: j < j' < |vs| ==> vs[j'].child != vs[j].child
    ensures var r := InsertId(g, u, f, keyOf, cFirst).graph;
      var v := Visits(f.childC, f.childD, cFirst)[j];
      v.child in r.nodes && r.nodes[v.child].nodeattr == Some(v.kind)
  {
    var n := AbsorbedNode(g, u, f);
    var g1 := g.(nodes := g.nodes[u := n]);
    RunVisitsStamps(g1, u, keyOf, Visits(n.childC, n.childD, cFirst), j);
  }

  /** Inserting a line keeps the networkx invariants. */
  lemma InsertValid(g: Graph, u: string, f: Fields, keyOf: TaintNode -> string, cFirst: bool)
    requires GraphValid(g)
    ensures GraphValid(InsertId(g, u, f, keyOf, cFirst).graph)
  {
    if u in g.nodes || u !in g.bare {
      var n := AbsorbedNode(g, u, f);
      var g1 := g.(nodes := g.nodes[u := n]);
      assert GraphValid(g1) by {
        forall i | 0 <= i < |g1.edges| ensures HasNode(g1, g1.edges[i].src) && HasNode(g1, g1.edges[i].dst) {
          assert HasNode(g, g.edges[i].src);
        }
      }
      RunVisitsValid(g1, u, keyOf, Visits(n.childC, n.childD, cFirst));
    }
  }

  /**
   * When `str(node)` is the node's uuid, `ExtractData` records the line's id
   * as the uuid, and the graph has no node without `inode`, then inserting a
   * line with an id never raises and keeps it that way.
   */
  lemma InsertUuidKeyed(g: Graph, u: string, f: Fields, keyOf: TaintNode -> string, cFirst: bool)
    requires f.uuid == u
    requires forall n: TaintNode :: keyOf(n) == n.uuid
    requires g.bare == {}
    ensures InsertId(g, u, f, keyOf, cFirst).ok
    ensures InsertId(g, u, f, keyOf, cFirst).graph.bare == {}
  {
    var n := AbsorbedNode(g, u, f);
    RunVisitsUuidKeyed(g.(nodes := g.nodes[u := n]), u, keyOf, Visits(n.childC, n.childD, cFirst));
  }

  /**
   * Re-ingesting the same line: the node's attributes are what the first
   * ingestion left, while its child edges are added a second time.
   */
  lemma InsertTwice(g: Graph, u: string, f: Fields, keyOf: TaintNode -> string, cFirst: bool)
    requires InsertId(g, u, f, keyOf, cFirst).ok
    requires InsertId(InsertId(g, u, f, keyOf, cFirst).graph, u, f, keyOf, cFirst).ok
    ensures var r1 := InsertId(g, u, f, keyOf, cFirst).graph;
      var r2 := InsertId(r1, u, f, keyOf, cFirst).graph;
      u in r1.nodes && u in r2.nodes && SameButAttr(r2.nodes[u], r1.nodes[u]) &&
      |r2.edges| - |r1.edges| == |r1.edges| - |g.edges|
  {
    var r1 := InsertId(g, u, f, keyOf, cFirst).graph;
    InsertCreateOrUpdate(g, u, f, keyOf, cFirst);
    InsertCreateOrUpdate(r1, u, f, keyOf, cFirst);
    InsertEdgeCount(g, u, f, keyOf, cFirst);
    InsertEdgeCount(r1, u, f, keyOf, cFirst);
  }
}
