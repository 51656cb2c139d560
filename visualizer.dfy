/**
 * The widget's state and the operations that change it in place: the taint
 * graph `t_graph` that `insert_node`/`child_edges` grow, the `node_ea` and
 * `node_lib` maps `setTraceFile` fills, and the `std_layout`/`cur_chain`
 * maps of the branch layout. Each method is proved against the function of
 * GraphBuilder, IndexFeed or Layouts that specifies it.
 */
module VisualizerWidget {
  import opened Wrappers
  import opened PyStr
  import opened TaintNodes
  import opened RecordParser
  import opened GraphBuilder
  import opened IndexFeed
  import opened Layouts

  class Visualizer {
    var tGraph: Graph
    var nodeEa: map<string, string>
    var nodeLib: map<string, string>
    var stdLayout: map<string, Pos>
    var curChain: map<string, int>

    /** A widget with an empty graph and empty maps. */
    constructor ()
      ensures tGraph == EmptyGraph()
      ensures nodeEa == map[] && nodeLib == map[]
      ensures stdLayout == map[] && curChain == map[]
    {
      tGraph := EmptyGraph();
      nodeEa := map[];
      nodeLib := map[];
      stdLayout := map[];
      curChain := map[];
    }

    /**
     * `insert_node(s)`: find the line's id, absorb the line into the node
     * registered under it or into a new node, then add its child edges.
     * `ok` is false where the source raises; the graph is then as far as it got.
     */
    method InsertNode(s: string, extract: string -> Fields, keyOf: TaintNode -> string, cFirst: bool)
      returns (ok: bool)
      modifies this
      ensures Outcome(tGraph, ok) == InsertLine(old(tGraph), s, extract, keyOf, cFirst)
      ensures nodeEa == old(nodeEa) && nodeLib == old(nodeLib)
      ensures stdLayout == old(stdLayout) && curChain == old(curChain)
    {
      var uuid := ExtractUuid(s);
      if uuid.None? {
        return false;
      }
      var u := uuid.value;
      var tempNode: TaintNode;
      if HasNode(tGraph, u) {
        if u !in tGraph.nodes {
          return false;
        }
        tempNode := Absorb(tGraph.nodes[u], extract(s));
      } else {
        tempNode := Absorb(BlankNode(), extract(s));
      }
      tGraph := tGraph.(nodes := tGraph.nodes[u := tempNode]);
      ok := ChildEdges(u, keyOf, cFirst);
    }

    /**
     * `child_edges(node)` for the node registered under `parent`: for each
     * `child_*` attribute that is not None, in `__dict__` order, and each
     * whitespace-separated child id in it, add the typed edge and stamp the
     * child, creating a placeholder for a child not seen yet. A child that
     * is a node without `inode` gets its edge and then raises KeyError.
     */
    method ChildEdges(parent: string, keyOf: TaintNode -> string, cFirst: bool) returns (ok: bool)
      requires parent in tGraph.nodes
      modifies this
      ensures Outcome(tGraph, ok) ==
        RunVisits(old(tGraph), parent, keyOf, Visits(old(tGraph).nodes[parent].childC, old(tGraph).nodes[parent].childD, cFirst))
      ensures nodeEa == old(nodeEa) && nodeLib == old(nodeLib)
      ensures stdLayout == old(stdLayout) && curChain == old(curChain)
    {
      ghost var g0 := tGraph;
      var node := tGraph.nodes[parent];
      var attrs := if cFirst then [("c", node.childC), ("d", node.childD)] else [("d", node.childD), ("c", node.childC)];
      ghost var all := Visits(node.childC, node.childD, cFirst);
      ghost var done: seq<Visit> := [];
      ghost var rest := AttrVisitsFrom(attrs, 0);
      VisitsOfAttrs(node, cFirst, attrs);
      var a := 0;
      while a < 2
        invariant 0 <= a <= 2
        invariant parent in tGraph.nodes
        invariant rest == AttrVisitsFrom(attrs, a)
        invariant done + rest == all
        invariant Outcome(tGraph, true) == RunVisits(g0, parent, keyOf, done)
        invariant nodeEa == old(nodeEa) && nodeLib == old(nodeLib)
        invariant stdLayout == old(stdLayout) && curChain == old(curChain)
      {
        var (kind, x) := attrs[a];
        if x.Some? {
          var children := SplitWs(x.value);
          var t := 0;
          while t < |children|
            invariant 0 <= t <= |children|
            invariant parent in tGraph.nodes
            invariant rest == ToVisits(children[t..], kind) + AttrVisitsFrom(attrs, a + 1)
            invariant done + rest == all
            invariant Outcome(tGraph, true) == RunVisits(g0, parent, keyOf, done)
            invariant nodeEa == old(nodeEa) && nodeLib == old(nodeLib)
            invariant stdLayout == old(stdLayout) && curChain == old(curChain)
          {
            var child := children[t];
            RestStep(children, t, kind, AttrVisitsFrom(attrs, a + 1), rest);
            RunVisitsSnoc(g0, parent, keyOf, done, Visit(child, kind));
            var stepOk := VisitChild(parent, keyOf, child, kind);
            if !stepOk {
              StopsAfter(g0, parent, keyOf, done, rest, all);
              return false;
            }
            ConsumeOne(done, rest, all);
            done := done + [Visit(child, kind)];
            rest := rest[1..];
            t := t + 1;
          }
          assert children[t..] == [];
        }
        AttrVisitsFromNext(attrs, a);
        a := a + 1;
      }
      assert done == all;
      return true;
    }

    /**
     * One pass of the inner loop of `child_edges`: the edge to the child,
     * and its stamp or a new placeholder; a child without `inode` raises.
     */
    method VisitChild(parent: string, keyOf: TaintNode -> string, child: string, kind: string) returns (ok: bool)
      requires parent in tGraph.nodes
      modifies this
      ensures Outcome(tGraph, ok) == VisitStep(old(tGraph), parent, keyOf, Visit(child, kind))
      ensures nodeEa == old(nodeEa) && nodeLib == old(nodeLib)
      ensures stdLayout == old(stdLayout) && curChain == old(curChain)
    {
      var e := Edge(keyOf(tGraph.nodes[parent]), child, tGraph.nodes[parent].edgeann, kind);
      if HasNode(tGraph, child) {
        tGraph := AddEdge(tGraph, e);
        if child !in tGraph.nodes {
          return false;
        }
        tGraph := tGraph.(nodes := tGraph.nodes[child := tGraph.nodes[child].(nodeattr := Some(kind))]);
      } else {
        var newNode := Placeholder(child).(nodeattr := Some(kind));
        tGraph := tGraph.(nodes := tGraph.nodes[child := newNode]);
        tGraph := AddEdge(tGraph, e);
      }
      return true;
    }

    /**
     * `setTraceFile` over the lines of the opened file (each with its line
     * terminator, as Python yields them): `E` lines map field 5 to field 1
     * in `node_ea`, `L` lines map field 1 to fields 2 and 3 in `node_lib`.
     * A line too short for its branch raises IndexError; the maps keep what
     * the lines before it wrote.
     */
    method SetTraceFile(lines: seq<string>) returns (ok: bool)
      modifies this
      ensures Index(nodeEa, nodeLib) == IndexAll(lines).index
      ensures ok == IndexAll(lines).ok
      ensures tGraph == old(tGraph) && stdLayout == old(stdLayout) && curChain == old(curChain)
    {
      nodeEa := map[];
      nodeLib := map[];
      var n := 0;
      while n < |lines|
        invariant 0 <= n <= |lines|
        invariant IndexPrefix(lines, n) == Feed(Index(nodeEa, nodeLib), true)
        invariant tGraph == old(tGraph) && stdLayout == old(stdLayout) && curChain == old(curChain)
      {
        var line := lines[n];
        if StartsWith(line, 'E') {
          var splitted := SplitOn(line, ' ');
          if |splitted| <= 5 {
            IndexPrefixStops(lines, n + 1, |lines|);
            return false;
          }
          nodeEa := nodeEa[splitted[5] := splitted[1]];
        } else if StartsWith(line, 'L') {
          var splitted := SplitOn(line, ' ');
          if |splitted| <= 3 {
            IndexPrefixStops(lines, n + 1, |lines|);
            return false;
          }
          nodeLib := nodeLib[splitted[1] := splitted[2] + " " + splitted[3]];
        }
        n := n + 1;
      }
      return true;
    }

    /**
     * `genStandardLayoutBranch(t_graph, scale)`, with the undefined names of
     * the source resolved as intended. `roots` are the nodes without
     * incoming edges in the order `in_degree()` lists them. Both maps are
     * rebuilt; a KeyError stops the loop with the nodes placed so far.
     */
    method GenStandardLayoutBranch(g: Graph, roots: seq<string>, scale: int) returns (ok: bool)
      requires Distinct(roots) && forall k :: k in roots <==> k in Roots(g)
      modifies this
      ensures Branch(stdLayout, curChain, ok) == BranchAll(g, roots, scale)
      ensures tGraph == old(tGraph) && nodeEa == old(nodeEa) && nodeLib == old(nodeLib)
    {
      curChain := map[];
      stdLayout := map[];
      var xCounter := 0;
      while xCounter < |roots|
        invariant 0 <= xCounter <= |roots|
        invariant BranchPrefix(g, roots, scale, xCounter) == Branch(stdLayout, curChain, true)
        invariant tGraph == old(tGraph) && nodeEa == old(nodeEa) && nodeLib == old(nodeLib)
      {
        var i := roots[xCounter];
        ghost var l0, c0 := stdLayout, curChain;
        var stepOk := PlaceRootChain(g, scale, i, |roots|, xCounter);
        BranchPrefixNext(g, roots, scale, xCounter, l0, c0, stdLayout, curChain, stepOk);
        if !stepOk {
          BranchPrefixStops(g, roots, scale, xCounter + 1, |roots|);
          return false;
        }
        xCounter := xCounter + 1;
      }
      return true;
    }

    /**
     * One pass of the loop of `genStandardLayoutBranch`: reset the count of
     * root `i`, place it at the top of column `column` of `xInc`, count it and walk its chain;
     * not ok where the source raises KeyError or the walk stops at a missing node.
     */
    method PlaceRootChain(g: Graph, scale: int, i: string, xInc: int, column: int) returns (ok: bool)
      requires xInc > 0
      modifies this
      ensures stdLayout == PlaceFrom(old(stdLayout), Chain(g, i).chain, column * (scale / xInc), 0)
      ensures curChain == old(curChain)[i := |Chain(g, i).chain|]
      ensures ok == Chain(g, i).ok
      ensures tGraph == old(tGraph) && nodeEa == old(nodeEa) && nodeLib == old(nodeLib)
    {
      ghost var l0, c0 := stdLayout, curChain;
      var curX := column * (scale / xInc);
      curChain := curChain[i := 0];
      if i !in g.nodes {
        MissingRoot(g, i, l0, c0, curX);
        return false;
      }
      var root := g.nodes[i];
      stdLayout := stdLayout[i := Pos(curX, 0)];
      curChain := curChain[i := curChain[i] + 1];
      ghost var l1, c1 := stdLayout, curChain;
      var next := NextInChain(root);
      ok := true;
      if next.Some? && next.value != i {
        ok := StdLayoutBranchRec(g, scale, next.value, i, xInc, column, {i});
      }
      ChainStep(g, i, l0, c0, curX, l1, c1, stdLayout, curChain, ok);
    }

    /**
     * `stdLayoutBrancRec(t_graph, scale, node, chain, x_inc)`: place `node`
     * in column `column` of `x_inc` at row `cur_chain[chain]`, count it, and
     * go on with its next child unless this walk already placed that child.
     */
    method StdLayoutBranchRec(g: Graph, scale: int, node: string, chain: string, xInc: int, column: int,
                              visited: set<string>)
      returns (ok: bool)
      requires chain in curChain && node !in visited && xInc > 0
      modifies this
      ensures var w := Walk(g, node, visited);
        stdLayout == PlaceFrom(old(stdLayout), w.chain, column * (scale / xInc), old(curChain[chain])) &&
        curChain == old(curChain)[chain := old(curChain[chain]) + |w.chain|] &&
        ok == w.ok
      ensures tGraph == old(tGraph) && nodeEa == old(nodeEa) && nodeLib == old(nodeLib)
      decreases g.nodes.Keys - visited
    {
      if node !in g.nodes {
        assert curChain == curChain[chain := curChain[chain]];
        return false;
      }
      var nodeF := g.nodes[node];
      var curX := column * (scale / xInc);
      var curY := curChain[chain] * BranchStep;
      stdLayout := stdLayout[node := Pos(curX, curY)];
      curChain := curChain[chain := curChain[chain] + 1];
      var next := NextInChain(nodeF);
      if next.Some? && next.value !in visited && next.value != node {
        assert g.nodes.Keys - (visited + {node}) < g.nodes.Keys - visited;
        ok := StdLayoutBranchRec(g, scale, next.value, chain, xInc, column, visited + {node});
      } else {
        ok := true;
      }
    }
  }

  /** The child visits of the entries of `[(suffix, attribute)]` from index a on. */
  function AttrVisitsFrom(attrs: seq<(string, Option<string>)>, a: nat): seq<Visit>
    requires a <= |attrs|
    decreases |attrs| - a
  {
    if a == |attrs| then [] else FieldVisits(attrs[a].1, attrs[a].0) + AttrVisitsFrom(attrs, a + 1)
  }

  lemma AttrVisitsFromNext(attrs: seq<(string, Option<string>)>, a: nat)
    requires a < |attrs|
    ensures attrs[a].1.None? ==> AttrVisitsFrom(attrs, a) == AttrVisitsFrom(attrs, a + 1)
    ensures attrs[a].1.Some? ==>
      AttrVisitsFrom(attrs, a) == ToVisits(SplitWs(attrs[a].1.value), attrs[a].0) + AttrVisitsFrom(attrs, a + 1)
  {
    if attrs[a].1.None? {
      assert [] + AttrVisitsFrom(attrs, a + 1) == AttrVisitsFrom(attrs, a + 1);
    }
  }

  lemma VisitsOfAttrs(node: TaintNode, cFirst: bool, attrs: seq<(string, Option<string>)>)
    requires attrs == if cFirst then [("c", node.childC), ("d", node.childD)] else [("d", node.childD), ("c", node.childC)]
    ensures AttrVisitsFrom(attrs, 0) == Visits(node.childC, node.childD, cFirst)
  {
    assert AttrVisitsFrom(attrs, 1) == FieldVisits(attrs[1].1, attrs[1].0) by {
      assert AttrVisitsFrom(attrs, 2) == [];
      assert FieldVisits(attrs[1].1, attrs[1].0) + [] == FieldVisits(attrs[1].1, attrs[1].0);
    }
  }

  /** The remaining visits start with the t-th child; dropping it leaves those after it. */
  lemma RestStep(ts: seq<string>, t: nat, kind: string, later: seq<Visit>, rest: seq<Visit>)
    requires t < |ts|
    requires rest == ToVisits(ts[t..], kind) + later
    ensures rest != [] && rest[0] == Visit(ts[t], kind)
    ensures rest[1..] == ToVisits(ts[t + 1..], kind) + later
  {
    var here := ToVisits(ts[t..], kind);
    assert here[1..] == ToVisits(ts[t + 1..], kind);
    assert rest[1..] == here[1..] + later;
  }

  lemma ConsumeOne(done: seq<Visit>, rest: seq<Visit>, all: seq<Visit>)
    requires done + rest == all && rest != []
    ensures done + [rest[0]] + rest[1..] == all
  {
    assert [rest[0]] + rest[1..] == rest;
    assert done + [rest[0]] + rest[1..] == done + ([rest[0]] + rest[1..]);
  }

  /** A visit that raised: the visits so far and that one leave the state the whole loop leaves. */
  lemma StopsAfter(g0: Graph, parent: string, keyOf: TaintNode -> string, done: seq<Visit>, rest: seq<Visit>, all: seq<Visit>)
    requires parent in g0.nodes
    requires done + rest == all && rest != []
    requires !RunVisits(g0, parent, keyOf, done + [rest[0]]).ok
    ensures RunVisits(g0, parent, keyOf, all) == RunVisits(g0, parent, keyOf, done + [rest[0]])
  {
    ConsumeOne(done, rest, all);
    PrefixOfAll(done, rest[0], rest[1..], all);
    RunVisitsPrefixFail(g0, parent, keyOf, done + [rest[0]], all);
  }

  /** A visit followed by the remaining ones: the visits so far and that visit are a prefix of all. */
  lemma PrefixOfAll(done: seq<Visit>, v: Visit, rest: seq<Visit>, all: seq<Visit>)
    requires done + [v] + rest == all
    ensures done + [v] <= all
  {
    assert forall j :: 0 <= j < |done| + 1 ==> (done + [v])[j] == all[j];
  }

  /** Once a prefix raised, every longer prefix is that same state. */
  lemma {:induction false} IndexPrefixStops(lines: seq<string>, n: nat, m: nat)
    requires n <= m <= |lines|
    requires !IndexPrefix(lines, n).ok
    ensures IndexPrefix(lines, m) == IndexPrefix(lines, n)
    decreases m - n
  {
    if n < m {
      IndexPrefixStops(lines, n, m - 1);
    }
  }

  lemma {:induction false} BranchPrefixStops(g: Graph, roots: seq<string>, scale: int, n: nat, m: nat)
    requires n <= m <= |roots|
    requires !BranchPrefix(g, roots, scale, n).ok
    ensures BranchPrefix(g, roots, scale, m) == BranchPrefix(g, roots, scale, n)
    decreases m - n
  {
    if n < m {
      BranchPrefixStops(g, roots, scale, n, m - 1);
    }
  }

  /** One more root: its chain placed in its column and counted. */
  lemma BranchPrefixNext(g: Graph, roots: seq<string>, scale: int, n: nat, l0: map<string, Pos>, c0: map<string, int>,
                         layout: map<string, Pos>, cur: map<string, int>, ok: bool)
    requires n < |roots|
    requires BranchPrefix(g, roots, scale, n) == Branch(l0, c0, true)
    requires layout == PlaceFrom(l0, Chain(g, roots[n]).chain, n * (scale / |roots|), 0)
    requires cur == c0[roots[n] := |Chain(g, roots[n]).chain|]
    requires ok == Chain(g, roots[n]).ok
    ensures BranchPrefix(g, roots, scale, n + 1) == Branch(layout, cur, ok)
  {
  }

  /** Placing the root, then walking from its next child, is placing the root's chain. */
  lemma ChainStep(g: Graph, r: string, l0: map<string, Pos>, c0: map<string, int>, x: int,
                  l1: map<string, Pos>, c1: map<string, int>,
                  layout: map<string, Pos>, cur: map<string, int>, ok: bool)
    requires r in g.nodes
    requires l1 == l0[r := Pos(x, 0)]
    requires c1 == c0[r := 0][r := c0[r := 0][r] + 1]
    requires var next := NextInChain(g.nodes[r]);
      if next.Some? && next.value != r then
        var w := Walk(g, next.value, {r});
        layout == PlaceFrom(l1, w.chain, x, c1[r]) && cur == c1[r := c1[r] + |w.chain|] && ok == w.ok
      else
        layout == l1 && cur == c1 && ok
    ensures layout == PlaceFrom(l0, Chain(g, r).chain, x, 0)
    ensures cur == c0[r := |Chain(g, r).chain|]
    ensures ok == Chain(g, r).ok
  {
    assert c1 == c0[r := 1];
    var next := NextInChain(g.nodes[r]);
    if next.Some? && next.value != r {
      var w := Walk(g, next.value, {r});
      assert {} + {r} == {r};
      assert Chain(g, r) == Walked([r] + w.chain, w.ok);
      assert ([r] + w.chain)[1..] == w.chain;
    } else {
      assert Chain(g, r) == Walked([r], true);
    }
  }

  /** A root that is not a node with `inode` places nothing and raises. */
  lemma MissingRoot(g: Graph, r: string, l0: map<string, Pos>, c0: map<string, int>, x: int)
    requires r !in g.nodes
    ensures l0 == PlaceFrom(l0, Chain(g, r).chain, x, 0)
    ensures c0[r := 0] == c0[r := |Chain(g, r).chain|]
    ensures !Chain(g, r).ok
  {
  }
}
