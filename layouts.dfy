/**
 * The two integer layouts of the visualizer. `genStandardLayout` walks a
 * topological order and opens a new column at every root (a node without
 * incoming edges), stacking the nodes of a column run 30 units apart.
 * `genStandardLayoutBranch` gives each root a column and follows its chain
 * of first children (`child_c`, else `child_d`) down that column, 60 units
 * per step.
 */
module Layouts {
  import opened Wrappers
  import opened TaintNodes

  /** A position `[x, y]` in the 800 x 600 scene. */
  datatype Pos = Pos(x: int, y: int)

  /** Scene width and height, and the number of rows the standard layout divides the height into. */
  const Width: int := 800
  const Height: int := 600
  const ChainLength: int := 20
  /** Vertical distance between two nodes of a branch chain. */
  const BranchStep: int := 60

  // ---------------------------------------------------------------------
  // Graph structure

  /** `in_degree(k) == 0` */
  predicate NoIncoming(g: Graph, k: string) {
    forall i :: 0 <= i < |g.edges| ==> g.edges[i].dst != k
  }

  /** `[n for n, d in t_graph.in_degree().items() if d == 0]`, as a set. */
  function Roots(g: Graph): (r: set<string>)
    ensures forall k :: k in r <==> k in AllKeys(g) && NoIncoming(g, k)
  {
    set k | k in AllKeys(g) && NoIncoming(g, k)
  }

  /** `in_degree(k)`: the number of edges into k, each parallel edge counted. */
  function InDegree(es: seq<Edge>, k: string): (d: nat)
    ensures d <= |es|
  {
    if es == [] then 0 else InDegree(es[..|es| - 1], k) + (if es[|es| - 1].dst == k then 1 else 0)
  }

  /** A key has in-degree 0 exactly when no edge ends at it. */
  lemma {:induction false} InDegreeZero(es: seq<Edge>, k: string)
    ensures InDegree(es, k) == 0 <==> forall i :: 0 <= i < |es| ==> es[i].dst != k
  {
    if es != [] {
      var init := es[..|es| - 1];
      InDegreeZero(init, k);
      assert forall i :: 0 <= i < |init| ==> init[i] == es[i];
    }
  }

  /** The roots are exactly the keys whose counted in-degree is 0. */
  lemma RootsByInDegree(g: Graph, k: string)
    ensures k in Roots(g) <==> k in AllKeys(g) && InDegree(g.edges, k) == 0
  {
    InDegreeZero(g.edges, k);
  }

  ghost predicate Distinct(s: seq<string>) {
    forall i, j :: 0 <= i < j < |s| ==> s[i] != s[j]
  }

  /**
   * What `nx.topological_sort` returns: every node exactly once, and the
   * source of every edge before its target (so the graph is acyclic).
   */
  ghost predicate IsTopoOrder(g: Graph, topo: seq<string>) {
    Distinct(topo) &&
    (forall k :: k in AllKeys(g) <==> k in topo) &&
    (forall e, i, j ::
       0 <= e < |g.edges| && 0 <= i < |topo| && 0 <= j < |topo| && topo[i] == g.edges[e].src && topo[j] == g.edges[e].dst
       ==> i < j)
  }

  /** The first node of a topological order has no incoming edge, so there is a root. */
  lemma FirstIsRoot(g: Graph, topo: seq<string>)
    requires GraphValid(g) && IsTopoOrder(g, topo)
    requires topo != []
    ensures topo[0] in Roots(g)
  {
  }

  // ---------------------------------------------------------------------
  // genStandardLayout

  /** How many of the first n nodes of the order are roots. */
  function RootCount(topo: seq<string>, roots: set<string>, n: nat): (c: nat)
    requires n <= |topo|
    ensures c <= n
  {
    if n == 0 then 0 else RootCount(topo, roots, n - 1) + (if topo[n - 1] in roots then 1 else 0)
  }

  /** The position of the last root at or before position i. */
  function LastRoot(topo: seq<string>, roots: set<string>, i: nat): (r: nat)
    requires i < |topo| && topo[0] in roots
    ensures r <= i && topo[r] in roots
    ensures forall j :: r < j <= i ==> topo[j] !in roots
  {
    if topo[i] in roots then i else LastRoot(topo, roots, i - 1)
  }

  /** The column of the i-th node: one more for every root up to and including it. */
  function Column(topo: seq<string>, roots: set<string>, i: nat): nat
    requires i < |topo|
  {
    RootCount(topo, roots, i + 1)
  }

  /** The row of the i-th node: its distance from the root that opened its column. */
  function Row(topo: seq<string>, roots: set<string>, i: nat): nat
    requires i < |topo| && topo[0] in roots
  {
    i - LastRoot(topo, roots, i)
  }

  /** The position `genStandardLayout` gives the i-th node of the order. */
  function StdPos(topo: seq<string>, roots: set<string>, i: nat): (r: Pos)
    requires i < |topo| && topo[0] in roots
    ensures Width / |roots| <= r.x && 0 <= r.y
  {
    ColumnAtLeastOne(topo, roots, i + 1);
    AtLeastOnce(Column(topo, roots, i), Width / |roots|);
    Pos(Column(topo, roots, i) * (Width / |roots|), (Height / ChainLength) * Row(topo, roots, i))
  }

  lemma AtLeastOnce(c: nat, w: nat)
    requires 1 <= c
    ensures w <= c * w
  {
  }

  /** The roots among the first n nodes of the order. */
  function RootsIn(topo: seq<string>, roots: set<string>, n: nat): set<string>
    requires n <= |topo|
  {
    set j | 0 <= j < n && topo[j] in roots :: topo[j]
  }

  lemma {:induction false} RootCountCard(topo: seq<string>, roots: set<string>, n: nat)
    requires n <= |topo| && Distinct(topo)
    ensures RootCount(topo, roots, n) == |RootsIn(topo, roots, n)|
  {
    if n > 0 {
      RootCountCard(topo, roots, n - 1);
      var prev := RootsIn(topo, roots, n - 1);
      if topo[n - 1] in roots {
        assert topo[n - 1] !in prev;
        assert RootsIn(topo, roots, n) == prev + {topo[n - 1]};
      } else {
        assert RootsIn(topo, roots, n) == prev;
      }
    }
  }

  /** Columns run from 1 to the number of roots. */
  lemma ColumnRange(g: Graph, topo: seq<string>, i: nat)
    requires GraphValid(g) && IsTopoOrder(g, topo)
    requires i < |topo|
    ensures topo[0] in Roots(g)
    ensures 1 <= Column(topo, Roots(g), i) <= |Roots(g)|
  {
    FirstIsRoot(g, topo);
    var roots := Roots(g);
    ColumnAtLeastOne(topo, roots, i + 1);
    RootCountCard(topo, roots, i + 1);
    assert RootsIn(topo, roots, i + 1) <= roots;
    SubsetCard(RootsIn(topo, roots, i + 1), roots);
  }

  lemma {:induction false} ColumnAtLeastOne(topo: seq<string>, roots: set<string>, n: nat)
    requires 0 < n <= |topo| && topo[0] in roots
    ensures RootCount(topo, roots, n) >= 1
  {
    if n > 1 {
      ColumnAtLeastOne(topo, roots, n - 1);
    }
  }

  lemma SubsetCard(a: set<string>, b: set<string>)
    requires a <= b
    ensures |a| <= |b|
  {
    assert b == a + (b - a);
  }

  /**
   * Within a column run, the next node keeps the x coordinate and sits 30
   * units lower; a root starts a new column at the top.
   */
  lemma StdPosStep(topo: seq<string>, roots: set<string>, i: nat)
    requires i + 1 < |topo| && topo[0] in roots
    ensures topo[i + 1] !in roots ==>
      StdPos(topo, roots, i + 1).x == StdPos(topo, roots, i).x &&
      StdPos(topo, roots, i + 1).y == StdPos(topo, roots, i).y + Height / ChainLength
    ensures topo[i + 1] in roots ==>
      StdPos(topo, roots, i + 1).y == 0 && Column(topo, roots, i + 1) == Column(topo, roots, i) + 1
  {
  }

  /** A later root is always in a later column. */
  lemma {:induction false} ColumnsIncrease(topo: seq<string>, roots: set<string>, i: nat, j: nat)
    requires i < j < |topo| && topo[j] in roots
    ensures Column(topo, roots, i) < Column(topo, roots, j)
    decreases j - i
  {
    if i + 1 < j {
      RootCountMono(topo, roots, i + 1, j);
    }
  }

  lemma {:induction false} RootCountMono(topo: seq<string>, roots: set<string>, m: nat, n: nat)
    requires m <= n <= |topo|
    ensures RootCount(topo, roots, m) <= RootCount(topo, roots, n)
    decreases n - m
  {
    if m < n {
      RootCountMono(topo, roots, m, n - 1);
    }
  }

  /**
   * `genStandardLayout(t_graph, scale)`: one position per node of the order,
   * as StdPos gives it. The order is the one `nx.topological_sort` returned.
   */
  method GenStandardLayout(g: Graph, topo: seq<string>) returns (layout: map<string, Pos>)
    requires GraphValid(g) && IsTopoOrder(g, topo)
    ensures layout.Keys == AllKeys(g)
    ensures topo != [] ==> topo[0] in Roots(g)
    ensures forall i :: 0 <= i < |topo| ==> topo[0] in Roots(g) && layout[topo[i]] == StdPos(topo, Roots(g), i)
  {
    var roots := Roots(g);
    if topo == [] {
      return map[];
    }
    FirstIsRoot(g, topo);
    layout := map[];
    var xCounter, yCounter := 0, 0;
    var yChainLength := ChainLength;
    var n := 0;
    while n < |topo|
      invariant 0 <= n <= |topo|
      invariant xCounter == RootCount(topo, roots, n)
      invariant n == 0 ==> yCounter == 0
      invariant n > 0 ==> yCounter == Row(topo, roots, n - 1) + 1
      invariant forall k :: k in layout ==> k in topo
      invariant forall j :: 0 <= j < n ==> topo[j] in layout && layout[topo[j]] == StdPos(topo, roots, j)
    {
      var i := topo[n];
      ghost var x0, y0 := xCounter, yCounter;
      if i in roots {
        xCounter := xCounter + 1;
        yCounter := 0;
      }
      CountersStep(topo, roots, n, x0, y0, xCounter, yCounter);
      var curX := xCounter * (Width / |roots|);
      var curY := (Height / yChainLength) * yCounter;
      LayoutStep(topo, roots, layout, n, Pos(curX, curY), layout[i := Pos(curX, curY)]);
      yCounter := yCounter + 1;
      layout := layout[i := Pos(curX, curY)];
      n := n + 1;
    }
    OrderKeys(g, topo, layout);
  }

  /** The counters after the n-th node are its column and row. */
  lemma CountersStep(topo: seq<string>, roots: set<string>, n: nat, x: int, y: int, x2: int, y2: int)
    requires n < |topo| && topo[0] in roots
    requires x == RootCount(topo, roots, n)
    requires n == 0 ==> y == 0
    requires n > 0 ==> y == Row(topo, roots, n - 1) + 1
    requires x2 == (if topo[n] in roots then x + 1 else x)
    requires y2 == (if topo[n] in roots then 0 else y)
    ensures RootCount(topo, roots, n + 1) == Column(topo, roots, n) == x2
    ensures Row(topo, roots, n) == y2
    ensures StdPos(topo, roots, n) == Pos(x2 * (Width / |roots|), (Height / ChainLength) * y2)
  {
  }

  /** Placing the n-th node keeps the places of the nodes before it. */
  lemma LayoutStep(topo: seq<string>, roots: set<string>, layout: map<string, Pos>, n: nat, p: Pos,
                   next: map<string, Pos>)
    requires n < |topo| && topo[0] in roots && Distinct(topo)
    requires forall j :: 0 <= j < n ==> topo[j] in layout && layout[topo[j]] == StdPos(topo, roots, j)
    requires p == StdPos(topo, roots, n) && next == layout[topo[n] := p]
    ensures forall j :: 0 <= j < n + 1 ==> topo[j] in next && next[topo[j]] == StdPos(topo, roots, j)
  {
  }

  /** A map whose keys are exactly the nodes of the order has the graph's keys. */
  lemma OrderKeys(g: Graph, topo: seq<string>, layout: map<string, Pos>)
    requires forall k :: k in AllKeys(g) <==> k in topo
    requires forall k :: k in layout ==> k in topo
    requires forall j :: 0 <= j < |topo| ==> topo[j] in layout
    ensures layout.Keys == AllKeys(g)
  {
    forall k | k in topo ensures k in layout {
      var j :| 0 <= j < |topo| && topo[j] == k;
    }
  }

  // ---------------------------------------------------------------------
  // genStandardLayoutBranch / stdLayoutBrancRec, as intended

  /**
   * Where a chain continues: `child_c` if it is set, else `child_d`, else
   * nowhere. The ensures spell out the body so that proofs about walks need
   * not unfold it.
   */
  function NextInChain(n: TaintNode): (r: Option<string>)
    ensures r.Some? <==> Truthy(n.childC) || Truthy(n.childD)
    ensures Truthy(n.childC) ==> r == n.childC
    ensures !Truthy(n.childC) && Truthy(n.childD) ==> r == n.childD
  {
    if Truthy(n.childC) then n.childC else if Truthy(n.childD) then n.childD else None
  }

  /** The nodes a chain walk placed, in order, and whether it ended without a KeyError. */
  datatype Walked = Walked(chain: seq<string>, ok: bool)

  /**
   * `stdLayoutBrancRec` from node k: look the node up (`t_graph.node[k]['inode']`,
   * a KeyError for a key that is not a node or is a node without `inode`),
   * place it, and continue with its next child unless that child was already
   * placed by this walk.
   */
  function Walk(g: Graph, k: string, visited: set<string>): (r: Walked)
    requires k !in visited
    ensures r.chain == [] ==> !r.ok
    decreases g.nodes.Keys - visited
  {
    if k !in g.nodes then Walked([], false)
    else
      match NextInChain(g.nodes[k])
      case None => Walked([k], true)
      case Some(c) =>
        if c in visited || c == k then Walked([k], true)
        else
          assert g.nodes.Keys - (visited + {k}) < g.nodes.Keys - visited;
          var w := Walk(g, c, visited + {k});
          Walked([k] + w.chain, w.ok)
  }

  /** The chain of root r. */
  function Chain(g: Graph, r: string): Walked {
    Walk(g, r, {})
  }

  /** The walk starts at k exactly when k is a node with `inode`; a walk that places nothing raised. */
  lemma WalkStart(g: Graph, k: string, visited: set<string>)
    requires k !in visited
    ensures Walk(g, k, visited).chain != [] <==> k in g.nodes
    ensures Walk(g, k, visited).chain != [] ==> Walk(g, k, visited).chain[0] == k
    ensures Walk(g, k, visited).chain == [] ==> !Walk(g, k, visited).ok
  {
  }

  /** Every placed node is a node with `inode`, none was visited before, and none is placed twice. */
  lemma {:induction false} WalkNodes(g: Graph, k: string, visited: set<string>)
    requires k !in visited
    ensures forall j :: 0 <= j < |Walk(g, k, visited).chain| ==>
      Walk(g, k, visited).chain[j] in g.nodes && Walk(g, k, visited).chain[j] !in visited
    ensures Distinct(Walk(g, k, visited).chain)
    decreases g.nodes.Keys - visited
  {
    if k in g.nodes {
      match NextInChain(g.nodes[k])
      case None =>
      case Some(c) =>
        if c !in visited && c != k {
          assert g.nodes.Keys - (visited + {k}) < g.nodes.Keys - visited;
          WalkNodes(g, c, visited + {k});
        }
    }
  }

  /** Each placed node is followed by the child NextInChain picks for it. */
  lemma {:induction false} WalkLinks(g: Graph, k: string, visited: set<string>)
    requires k !in visited
    ensures WalkNodesIn(g, Walk(g, k, visited).chain)
    ensures forall j :: 0 <= j < |Walk(g, k, visited).chain| - 1 ==>
      NextInChain(g.nodes[Walk(g, k, visited).chain[j]]) == Some(Walk(g, k, visited).chain[j + 1])
    decreases g.nodes.Keys - visited
  {
    WalkNodes(g, k, visited);
    if k in g.nodes {
      match NextInChain(g.nodes[k])
      case None =>
      case Some(c) =>
        if c !in visited && c != k {
          assert g.nodes.Keys - (visited + {k}) < g.nodes.Keys - visited;
          WalkLinks(g, c, visited + {k});
          WalkStart(g, c, visited + {k});
        }
    }
  }

  predicate WalkNodesIn(g: Graph, chain: seq<string>) {
    forall j :: 0 <= j < |chain| ==> chain[j] in g.nodes
  }

  /**
   * Why the walk stopped: it ends without error exactly when the last placed
   * node has no next child or its next child was already placed or visited;
   * it raises when that child is not a node with `inode`.
   */
  lemma {:induction false} WalkEnd(g: Graph, k: string, visited: set<string>)
    requires k !in visited
    requires Walk(g, k, visited).chain != []
    ensures WalkNodesIn(g, Walk(g, k, visited).chain)
    ensures var w := Walk(g, k, visited);
      var next := NextInChain(g.nodes[w.chain[|w.chain| - 1]]);
      (w.ok <==> next.None? || next.value in visited || next.value in w.chain) &&
      (!w.ok ==> next.Some? && next.value !in g.nodes)
    decreases g.nodes.Keys - visited
  {
    WalkNodes(g, k, visited);
    match NextInChain(g.nodes[k])
    case None =>
    case Some(c) =>
      if c !in visited && c != k {
        assert g.nodes.Keys - (visited + {k}) < g.nodes.Keys - visited;
        var w := Walk(g, c, visited + {k});
        WalkNodes(g, c, visited + {k});
        if w.chain != [] {
          WalkEnd(g, c, visited + {k});
          assert w.chain[|w.chain| - 1] == Walk(g, k, visited).chain[|Walk(g, k, visited).chain| - 1];
        }
      }
  }

  /**
   * Placing a chain from row k0 on: the j-th node goes to `(x, 60 * (k0 + j))`
   * and `cur_chain` counts one more per node.
   */
  function PlaceFrom(layout: map<string, Pos>, chain: seq<string>, x: int, k0: int): map<string, Pos>
    decreases |chain|
  {
    if chain == [] then layout
    else PlaceFrom(layout[chain[0] := Pos(x, BranchStep * k0)], chain[1..], x, k0 + 1)
  }

  /** The placed chain is added to the layout's keys, each node at its row, and nothing else moves. */
  lemma {:induction false} PlaceAt(layout: map<string, Pos>, chain: seq<string>, x: int, k0: int, key: string)
    requires Distinct(chain)
    ensures key in PlaceFrom(layout, chain, x, k0) <==> key in layout || key in chain
    ensures forall j :: 0 <= j < |chain| && chain[j] == key ==>
      PlaceFrom(layout, chain, x, k0)[key] == Pos(x, BranchStep * (k0 + j))
    ensures key !in chain && key in layout ==> PlaceFrom(layout, chain, x, k0)[key] == layout[key]
    decreases |chain|
  {
    if chain != [] {
      PlaceAt(layout[chain[0] := Pos(x, BranchStep * k0)], chain[1..], x, k0 + 1, key);
      forall j | 0 <= j < |chain| && chain[j] == key
        ensures PlaceFrom(layout, chain, x, k0)[key] == Pos(x, BranchStep * (k0 + j))
      {
        if j > 0 {
          assert chain[1..][j - 1] == key;
        }
      }
    }
  }

  /** The layout, the chain counters, and whether the loop over the roots ran without error. */
  datatype Branch = Branch(layout: map<string, Pos>, curChain: map<string, int>, ok: bool)

  /**
   * The loop of `genStandardLayoutBranch` over the first n roots: root i gets
   * column `i * (scale / len(roots))`, its chain goes down that column, and
   * `cur_chain[root]` ends at the chain's length. The loop stops at the first
   * KeyError, with the nodes placed until then.
   */
  function BranchPrefix(g: Graph, roots: seq<string>, scale: int, n: nat): (b: Branch)
    requires n <= |roots|
  {
    if n == 0 then Branch(map[], map[], true)
    else
      var p := BranchPrefix(g, roots, scale, n - 1);
      if !p.ok then p
      else
        var r := roots[n - 1];
        var c := Chain(g, r);
        Branch(PlaceFrom(p.layout, c.chain, (n - 1) * (scale / |roots|), 0), p.curChain[r := |c.chain|], c.ok)
  }

  function BranchAll(g: Graph, roots: seq<string>, scale: int): Branch {
    BranchPrefix(g, roots, scale, |roots|)
  }

  /** How `genStandardLayoutBranch` ends as the source is written. */
  datatype Ending = Finished | RaisesKeyError | RaisesNameError

  /**
   * `genStandardLayoutBranch` as written: for the first root it looks the
   * node up (a KeyError for a key without `inode`) and then reads the bare
   * name `cur_chain`, which no scope defines, so it raises NameError. Only
   * an empty root list gets through.
   */
  function BranchAsWritten(g: Graph, roots: seq<string>): (r: Ending)
    ensures r == Finished <==> roots == []
    ensures r == RaisesNameError <==> roots != [] && roots[0] in g.nodes
  {
    if roots == [] then Finished
    else if roots[0] !in g.nodes then RaisesKeyError
    else RaisesNameError
  }

  /**
   * Where the code as written raises NameError, the loop with its names
   * resolved as intended has placed the first root at the top of the first
   * column and counted its whole chain.
   */
  lemma BranchAsWrittenRaises(g: Graph, roots: seq<string>, scale: int)
    requires roots != [] && roots[0] in g.nodes
    ensures BranchAsWritten(g, roots) == RaisesNameError
    ensures var b := BranchPrefix(g, roots, scale, 1);
      roots[0] in b.layout && b.layout[roots[0]] == Pos(0, 0) &&
      roots[0] in b.curChain && b.curChain[roots[0]] == |Chain(g, roots[0]).chain| >= 1
  {
    var c := Chain(g, roots[0]).chain;
    WalkStart(g, roots[0], {});
    WalkNodes(g, roots[0], {});
    PlaceAt(map[], c, 0 * (scale / |roots|), 0, roots[0]);
    assert c[0] == roots[0];
  }

  /** A later prefix that went through has all earlier prefixes go through. */
  lemma {:induction false} BranchOkBefore(g: Graph, roots: seq<string>, scale: int, i: nat, n: nat)
    requires i <= n <= |roots|
    requires BranchPrefix(g, roots, scale, n).ok
    ensures BranchPrefix(g, roots, scale, i).ok
    ensures forall m :: i <= m < n ==> Chain(g, roots[m]).ok
    decreases n - i
  {
    if i < n {
      BranchOkBefore(g, roots, scale, i + 1, n);
    }
  }

  /** The loop ran without error exactly when every root's chain did. */
  lemma {:induction false} BranchOk(g: Graph, roots: seq<string>, scale: int, n: nat)
    requires n <= |roots|
    ensures BranchPrefix(g, roots, scale, n).ok <==> forall i :: 0 <= i < n ==> Chain(g, roots[i]).ok
  {
    if n > 0 {
      BranchOk(g, roots, scale, n - 1);
    }
  }

  /** After a run without error, the placed nodes are exactly those of the roots' chains. */
  lemma {:induction false} BranchKeys(g: Graph, roots: seq<string>, scale: int, n: nat, key: string)
    requires n <= |roots|
    requires BranchPrefix(g, roots, scale, n).ok
    ensures key in BranchPrefix(g, roots, scale, n).layout <==>
      exists i :: 0 <= i < n && key in Chain(g, roots[i]).chain
  {
    if n > 0 {
      BranchKeys(g, roots, scale, n - 1, key);
      var c := Chain(g, roots[n - 1]);
      WalkNodes(g, roots[n - 1], {});
      PlaceAt(BranchPrefix(g, roots, scale, n - 1).layout, c.chain, (n - 1) * (scale / |roots|), 0, key);
    }
  }

  /**
   * Chains do not disturb each other: the j-th node of root i's chain sits at
   * `(i * (scale / len(roots)), 60 * j)` unless a later root's chain also
   * reaches it.
   */
  lemma {:induction false} BranchAt(g: Graph, roots: seq<string>, scale: int, n: nat, i: nat, j: nat)
    requires i < n <= |roots|
    requires BranchPrefix(g, roots, scale, i).ok
    requires j < |Chain(g, roots[i]).chain|
    requires forall m :: i < m < n ==> Chain(g, roots[i]).chain[j] !in Chain(g, roots[m]).chain
    ensures Chain(g, roots[i]).chain[j] in BranchPrefix(g, roots, scale, n).layout
    ensures BranchPrefix(g, roots, scale, n).layout[Chain(g, roots[i]).chain[j]] ==
      Pos(i * (scale / |roots|), BranchStep * j)
  {
    var key := Chain(g, roots[i]).chain[j];
    var c := Chain(g, roots[n - 1]);
    WalkNodes(g, roots[n - 1], {});
    var p := BranchPrefix(g, roots, scale, n - 1);
    if n - 1 == i {
      PlaceAt(p.layout, c.chain, (n - 1) * (scale / |roots|), 0, key);
    } else {
      BranchAt(g, roots, scale, n - 1, i, j);
      if p.ok {
        PlaceAt(p.layout, c.chain, (n - 1) * (scale / |roots|), 0, key);
      }
    }
  }

  /** With distinct roots, `cur_chain[root]` is the length of that root's chain. */
  lemma {:induction false} BranchChainCount(g: Graph, roots: seq<string>, scale: int, n: nat, i: nat)
    requires i < n <= |roots| && Distinct(roots)
    requires BranchPrefix(g, roots, scale, i).ok
    ensures roots[i] in BranchPrefix(g, roots, scale, n).curChain
    ensures BranchPrefix(g, roots, scale, n).curChain[roots[i]] == |Chain(g, roots[i]).chain|
  {
    if n - 1 > i {
      BranchChainCount(g, roots, scale, n - 1, i);
    }
  }

  /**
   * A run that raised stopped at the first root whose chain raised: the
   * state is the one right after that chain's walk.
   */
  lemma {:induction false} BranchStops(g: Graph, roots: seq<string>, scale: int, n: nat)
    requires n <= |roots|
    requires !BranchPrefix(g, roots, scale, n).ok
    ensures exists f :: (0 <= f < n && BranchPrefix(g, roots, scale, f).ok && !Chain(g, roots[f]).ok &&
      BranchPrefix(g, roots, scale, n) == BranchPrefix(g, roots, scale, f + 1))
  {
    var f := StopIndex(g, roots, scale, n);
  }

  /** The root whose chain raised, found by going back through the prefixes. */
  lemma {:induction false} StopIndex(g: Graph, roots: seq<string>, scale: int, n: nat) returns (f: nat)
    requires n <= |roots|
    requires !BranchPrefix(g, roots, scale, n).ok
    ensures f < n && BranchPrefix(g, roots, scale, f).ok && !Chain(g, roots[f]).ok
    ensures BranchPrefix(g, roots, scale, n) == BranchPrefix(g, roots, scale, f + 1)
  {
    var p := BranchPrefix(g, roots, scale, n - 1);
    if p.ok {
      f := n - 1;
    } else {
      f := StopIndex(g, roots, scale, n - 1);
      assert BranchPrefix(g, roots, scale, n) == p;
    }
  }

  /** Every child a chain can step to is the target of some edge, as `child_edges` makes it. */
  ghost predicate ChildrenLinked(g: Graph) {
    forall k :: k in g.nodes && NextInChain(g.nodes[k]).Some? ==> !NoIncoming(g, NextInChain(g.nodes[k]).value)
  }

  /** No chain steps onto a root: a chain's nodes after its first all have incoming edges. */
  lemma RootNotInChain(g: Graph, r: string, root: string)
    requires ChildrenLinked(g) && root in Roots(g) && root != r
    ensures root !in Chain(g, r).chain
  {
    var c := Chain(g, r).chain;
    WalkStart(g, r, {});
    WalkLinks(g, r, {});
    forall j | 0 < j < |c| ensures !NoIncoming(g, c[j]) {
      assert NextInChain(g.nodes[c[j - 1]]) == Some(c[j]);
    }
  }

  /**
   * When the chain children are linked by edges, each root that is a node
   * with `inode` keeps its place `(i * (scale / len(roots)), 0)` at the top
   * of its column.
   */
  lemma BranchRootAt(g: Graph, roots: seq<string>, scale: int, n: nat, i: nat)
    requires i < n <= |roots| && Distinct(roots)
    requires forall m :: 0 <= m < |roots| ==> roots[m] in Roots(g)
    requires ChildrenLinked(g)
    requires BranchPrefix(g, roots, scale, i).ok && roots[i] in g.nodes
    ensures roots[i] in BranchPrefix(g, roots, scale, n).layout
    ensures BranchPrefix(g, roots, scale, n).layout[roots[i]] == Pos(i * (scale / |roots|), 0)
  {
    WalkStart(g, roots[i], {});
    forall m | i < m < n ensures Chain(g, roots[i]).chain[0] !in Chain(g, roots[m]).chain {
      RootNotInChain(g, roots[m], roots[i]);
    }
    BranchAt(g, roots, scale, n, i, 0);
  }
}
