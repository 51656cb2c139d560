/**
 * The taint graph viewer: the IDA GraphViewer subclass that shows the
 * visualizer's MultiDiGraph. `OnRefresh` hands every node to the viewer
 * and keeps the id maps between viewer ids and node ids; double click,
 * text and call-graph requests resolve a viewer id to a node, the node to
 * an index key, and the key to an address.
 */
module TaintGraph {
  import opened Wrappers
  import opened PyStr
  import opened TaintNodes
  import opened GraphBuilder

  /** The Python exceptions the handlers can raise. */
  datatype PyError = KeyError | AttributeError | ValueError

  datatype Result<T> = Ok(value: T) | Err(error: PyError)

  // ---------------------------------------------------------------------
  // Resolution: viewer id -> node -> index key -> address

  /**
   * `self.graph.node[self.AddrNode[node_id]]['inode']`: an id the reverse
   * map does not know, a name that is not a node, and a node without
   * `inode` all raise KeyError. The ensures spell out the body so that
   * callers' proofs need not unfold it.
   */
  function LookupNode(g: Graph, addrNode: map<int, string>, id: int): (r: Result<TaintNode>)
    ensures r.Ok? <==> id in addrNode && addrNode[id] in g.nodes
    ensures r.Ok? ==> r.value == g.nodes[addrNode[id]]
    ensures r.Err? ==> r.error == KeyError
  {
    if id !in addrNode then Err(KeyError)
    else if addrNode[id] !in g.nodes then Err(KeyError)
    else Ok(g.nodes[addrNode[id]])
  }

  /**
   * The index key of a node: the text before the first `:` of `endind`
   * when it is set, else of `startind`. `startind.split` is evaluated
   * first, so a node without `startind` raises AttributeError even when
   * `endind` is set.
   */
  function ResolveKey(n: TaintNode): (r: Result<string>)
    ensures r.Err? <==> n.startind.None?
    ensures r.Err? ==> r.error == AttributeError
    ensures r.Ok? ==>
      var field := if n.endind.Some? then n.endind.value else n.startind.value;
      r.value <= field && ':' !in r.value && (|r.value| < |field| ==> field[|r.value|] == ':')
  {
    match n.startind
    case None => Err(AttributeError)
    case Some(st) =>
      var ind := FirstField(st, ':');
      if n.endind.Some? then Ok(FirstField(n.endind.value, ':')) else Ok(ind)
  }

  /**
   * `OnDblClick(node_id)`: Ok(None) where the key is missing from
   * `node_ea` (address 0, no jump), Ok(Some(a)) for the address the view
   * jumps to. `node_ea` holds strings, so `addr != 0` holds for every
   * entry found and each one is parsed with `int(addr, 16)`.
   */
  function DblClickTarget(g: Graph, addrNode: map<int, string>, nodeEa: map<string, string>, id: int): (r: Result<Option<int>>)
    ensures r.Err? && r.error == KeyError <==> LookupNode(g, addrNode, id).Err?
    ensures r.Err? && r.error == AttributeError <==>
              LookupNode(g, addrNode, id).Ok? && ResolveKey(LookupNode(g, addrNode, id).value).Err?
    ensures r == Ok(None) <==>
              LookupNode(g, addrNode, id).Ok? && ResolveKey(LookupNode(g, addrNode, id).value).Ok? &&
              ResolveKey(LookupNode(g, addrNode, id).value).value !in nodeEa
    ensures r.Err? && r.error == ValueError <==>
              LookupNode(g, addrNode, id).Ok? && ResolveKey(LookupNode(g, addrNode, id).value).Ok? &&
              var key := ResolveKey(LookupNode(g, addrNode, id).value).value;
              key in nodeEa && ParseHex(nodeEa[key]).None?
    ensures r.Ok? && r.value.Some? ==>
              var key := ResolveKey(LookupNode(g, addrNode, id).value).value;
              key in nodeEa && ParseHex(nodeEa[key]) == Some(r.value.value)
  {
    match LookupNode(g, addrNode, id)
    case Err(e) => Err(e)
    case Ok(n) =>
      match ResolveKey(n)
      case Err(e) => Err(e)
      case Ok(key) =>
        if key !in nodeEa then Ok(None)
        else match ParseHex(nodeEa[key])
          case None => Err(ValueError)
          case Some(a) => Ok(Some(a))
  }

  /**
   * The address `OnGenCallGraph` builds its call graph from: the selected
   * node resolved as for a double click, except that a key missing from
   * `node_ea` raises KeyError. No selection (`selectedNode` still None)
   * is a key the reverse map does not have.
   */
  function CallGraphAddress(g: Graph, addrNode: map<int, string>, nodeEa: map<string, string>, selected: Option<int>): (r: Result<int>)
    ensures selected.None? ==> r == Err(KeyError)
    ensures selected.Some? ==>
              (r.Err? && r.error == KeyError <==>
                 LookupNode(g, addrNode, selected.value).Err? ||
                 (ResolveKey(LookupNode(g, addrNode, selected.value).value).Ok? &&
                  ResolveKey(LookupNode(g, addrNode, selected.value).value).value !in nodeEa))
    ensures r.Err? && r.error == AttributeError <==>
              selected.Some? && LookupNode(g, addrNode, selected.value).Ok? &&
              ResolveKey(LookupNode(g, addrNode, selected.value).value).Err?
    ensures r.Err? && r.error == ValueError <==>
              selected.Some? && LookupNode(g, addrNode, selected.value).Ok? &&
              ResolveKey(LookupNode(g, addrNode, selected.value).value).Ok? &&
              var key := ResolveKey(LookupNode(g, addrNode, selected.value).value).value;
              key in nodeEa && ParseHex(nodeEa[key]).None?
    ensures r.Ok? ==>
              selected.Some? && LookupNode(g, addrNode, selected.value).Ok? &&
              ResolveKey(LookupNode(g, addrNode, selected.value).value).Ok? &&
              var key := ResolveKey(LookupNode(g, addrNode, selected.value).value).value;
              key in nodeEa && ParseHex(nodeEa[key]) == Some(r.value)
  {
    match selected
    case None => Err(KeyError)
    case Some(id) =>
      match LookupNode(g, addrNode, id)
      case Err(e) => Err(e)
      case Ok(n) =>
        match ResolveKey(n)
        case Err(e) => Err(e)
        case Ok(key) =>
          if key !in nodeEa then Err(KeyError)
          else match ParseHex(nodeEa[key])
            case None => Err(ValueError)
            case Some(a) => Ok(a)
  }

  /**
   * The two resolutions agree wherever the key is in `node_ea`, and a
   * missing key is address 0 for the double click but KeyError for the
   * call graph.
   */
  lemma CallGraphAgreesWithDblClick(g: Graph, addrNode: map<int, string>, nodeEa: map<string, string>, id: int)
    ensures CallGraphAddress(g, addrNode, nodeEa, Some(id)).Ok? <==> DblClickTarget(g, addrNode, nodeEa, id).Ok? && DblClickTarget(g, addrNode, nodeEa, id).value.Some?
    ensures CallGraphAddress(g, addrNode, nodeEa, Some(id)).Ok? ==>
              DblClickTarget(g, addrNode, nodeEa, id) == Ok(Some(CallGraphAddress(g, addrNode, nodeEa, Some(id)).value))
    ensures DblClickTarget(g, addrNode, nodeEa, id) == Ok(None) ==> CallGraphAddress(g, addrNode, nodeEa, Some(id)) == Err(KeyError)
    ensures DblClickTarget(g, addrNode, nodeEa, id).Err? ==>
              CallGraphAddress(g, addrNode, nodeEa, Some(id)) == Err(DblClickTarget(g, addrNode, nodeEa, id).error)
  {
  }

  /** Any index entry `int(addr, 16)` accepts is the address the view jumps to and builds its call graph from. */
  lemma DblClickParsedJumps(g: Graph, addrNode: map<int, string>, nodeEa: map<string, string>, id: int, a: int)
    requires LookupNode(g, addrNode, id).Ok?
    requires ResolveKey(LookupNode(g, addrNode, id).value).Ok?
    requires var key := ResolveKey(LookupNode(g, addrNode, id).value).value;
      key in nodeEa && ParseHex(nodeEa[key]) == Some(a)
    ensures DblClickTarget(g, addrNode, nodeEa, id) == Ok(Some(a))
    ensures CallGraphAddress(g, addrNode, nodeEa, Some(id)) == Ok(a)
  {
  }

  /** An index entry written as `0x` and hexadecimal digits is the address the view jumps to. */
  lemma DblClickJumps(g: Graph, addrNode: map<int, string>, nodeEa: map<string, string>, id: int, a: nat)
    requires LookupNode(g, addrNode, id).Ok?
    requires ResolveKey(LookupNode(g, addrNode, id).value).Ok?
    requires var key := ResolveKey(LookupNode(g, addrNode, id).value).value;
      key in nodeEa && nodeEa[key] == "0x" + FormatHex(a)
    ensures DblClickTarget(g, addrNode, nodeEa, id) == Ok(Some(a))
    ensures CallGraphAddress(g, addrNode, nodeEa, Some(id)) == Ok(a)
  {
    ParseHexFormat(a);
  }

  /**
   * The end index wins: a node with `startind` "3:12" and `endind` "7:40"
   * is looked up under "7", and the `E` entry under that key is the jump.
   */
  lemma EndIndexPreferred()
    ensures var n := TaintNode("5", None, None, Some("3:12"), Some("7:40"), None, None, None, None);
      var g := Graph(map["5" := n], {}, []);
      DblClickTarget(g, map[0 := "5"], map["3" := "0x10", "7" := "0x" + FormatHex(4096)], 0) == Ok(Some(4096))
  {
    var n := TaintNode("5", None, None, Some("3:12"), Some("7:40"), None, None, None, None);
    var g := Graph(map["5" := n], {}, []);
    assert IndexOfChar("7:40", ':') == Some(1) by {
      assert "7:40"[0] == '7' && "7:40"[1] == ':';
      assert "7:40"[1..] == ":40";
    }
    assert FirstField("7:40", ':') == "7" by {
      assert "7:40"[..1] == "7";
    }
    DblClickJumps(g, map[0 := "5"], map["3" := "0x10", "7" := "0x" + FormatHex(4096)], 0, 4096);
  }

  // ---------------------------------------------------------------------
  // OnGetText: label and colour

  /**
   * The label: the node id, prefixed with `[c] ` exactly when the stamp is
   * `c`. The ensures spell out the body so that callers' proofs need not
   * unfold it.
   */
  function NodeLabel(uuid: string, n: TaintNode): (r: string)
    ensures n.nodeattr == Some("c") ==> r == "[c] " + uuid
    ensures n.nodeattr != Some("c") ==> r == uuid
  {
    if n.nodeattr == Some("c") then "[c] " + uuid else uuid
  }

  const Red := 0x0000ff
  const Green := 0x7fff00
  const Pink := 0xff88ff
  const White := 0xffffff

  /**
   * The colour, by priority: a node without a stamp is red (the sink),
   * then a node with neither child list is green (the source), then a
   * register node is pink, and any other node white. The ensures spell out
   * the body so that callers' proofs need not unfold it.
   */
  function NodeColour(n: TaintNode): (r: int)
    ensures r == Red <==> !Truthy(n.nodeattr)
    ensures r == Green <==> Truthy(n.nodeattr) && n.childC.None? && n.childD.None?
    ensures r == Pink <==> Truthy(n.nodeattr) && !(n.childC.None? && n.childD.None?) && n.typ == Some("reg")
    ensures r == White <==> Truthy(n.nodeattr) && !(n.childC.None? && n.childD.None?) && n.typ != Some("reg")
  {
    if !Truthy(n.nodeattr) then Red
    else if n.childC.None? && n.childD.None? then Green
    else if n.typ == Some("reg") then Pink
    else White
  }

  /** `OnGetText(node_id)`: the label and colour of the node behind the viewer id. */
  function NodeText(g: Graph, addrNode: map<int, string>, id: int): (r: Result<(string, int)>)
    ensures r.Err? <==> LookupNode(g, addrNode, id).Err?
    ensures r.Ok? ==> r.value == (NodeLabel(addrNode[id], g.nodes[addrNode[id]]), NodeColour(g.nodes[addrNode[id]]))
  {
    match LookupNode(g, addrNode, id)
    case Err(e) => Err(e)
    case Ok(n) => Ok((NodeLabel(addrNode[id], n), NodeColour(n)))
  }

  /**
   * The stamps `child_edges` writes make a child show red never, and
   * make its label carry `[c] ` exactly when the last edge into it is a
   * `c` edge.
   */
  lemma StampedChildText(g: Graph, u: string, f: Fields, keyOf: TaintNode -> string, cFirst: bool, j: nat)
    requires InsertId(g, u, f, keyOf, cFirst).ok
    requires j < |Visits(f.childC, f.childD, cFirst)|
    requires var vs := Visits(f.childC, f.childD, cFirst);
      forall j' :: j < j' < |vs| ==> vs[j'].child != vs[j].child
    ensures var r := InsertId(g, u, f, keyOf, cFirst).graph;
      var v := Visits(f.childC, f.childD, cFirst)[j];
      v.child in r.nodes && NodeColour(r.nodes[v.child]) != Red &&
      (NodeLabel(v.child, r.nodes[v.child]) == "[c] " + v.child <==> v.kind == "c")
  {
    InsertStamps(g, u, f, keyOf, cFirst, j);
    var v := Visits(f.childC, f.childD, cFirst)[j];
    var r := InsertId(g, u, f, keyOf, cFirst).graph;
    assert r.nodes[v.child].nodeattr == Some(v.kind);
    VisitsKinds(f.childC, f.childD, cFirst);
    assert v.kind != "";
    if NodeLabel(v.child, r.nodes[v.child]) == "[c] " + v.child {
      assert |"[c] " + v.child| != |v.child|;
    }
  }

  /** A child the insert had to create is a stamped placeholder without children: it is shown green. */
  lemma PlaceholderChildText(g: Graph, u: string, f: Fields, keyOf: TaintNode -> string, cFirst: bool, j: nat)
    requires InsertId(g, u, f, keyOf, cFirst).ok
    requires j < |Visits(f.childC, f.childD, cFirst)|
    requires var vs := Visits(f.childC, f.childD, cFirst);
      forall j' :: j < j' < |vs| ==> vs[j'].child != vs[j].child
    requires var v := Visits(f.childC, f.childD, cFirst)[j]; v.child != u && v.child !in g.nodes
    ensures var r := InsertId(g, u, f, keyOf, cFirst).graph;
      var v := Visits(f.childC, f.childD, cFirst)[j];
      v.child in r.nodes && NodeColour(r.nodes[v.child]) == Green
  {
    StampedChildText(g, u, f, keyOf, cFirst, j);
    var v := Visits(f.childC, f.childD, cFirst)[j];
    InsertPlaceholders(g, u, f, keyOf, cFirst, v.child);
  }

  /**
   * A node inserted for the first time, whose own line does not name it as a
   * child, carries no stamp: it is shown red, under its plain id.
   */
  lemma FreshNodeText(g: Graph, u: string, f: Fields, keyOf: TaintNode -> string, cFirst: bool)
    requires u !in g.nodes && u !in g.bare
    requires !IsChildToken(f.childC, f.childD, u)
    ensures var r := InsertId(g, u, f, keyOf, cFirst).graph;
      u in r.nodes && NodeColour(r.nodes[u]) == Red && NodeLabel(u, r.nodes[u]) == u
  {
    InsertCreateOrUpdate(g, u, f, keyOf, cFirst);
  }

  // ---------------------------------------------------------------------
  // OnRefresh: registering nodes and edges with the viewer

  /** `idNode` and the viewer's node list after some of the graph's nodes; not ok where `y['inode']` raised. */
  datatype Refresh = Refresh(idNode: map<string, int>, shown: seq<TaintNode>, ok: bool)

  /**
   * The node loop of `OnRefresh` over the first n names of the node
   * listing: each node is added to the viewer, whose `AddNode` returns the
   * next id, and `idNode` maps the node's `uuid` to that id. A name
   * without `inode` raises KeyError and ends the refresh.
   */
  function RefreshNodes(g: Graph, order: seq<string>, n: nat): (r: Refresh)
    requires n <= |order|
    ensures r.ok <==> forall i :: 0 <= i < n ==> order[i] in g.nodes
    ensures r.ok ==> |r.shown| == n && forall i :: 0 <= i < n ==> r.shown[i] == g.nodes[order[i]]
    ensures |r.shown| <= n
  {
    if n == 0 then Refresh(map[], [], true)
    else
      var p := RefreshNodes(g, order, n - 1);
      if !p.ok then p
      else if order[n - 1] !in g.nodes then Refresh(p.idNode, p.shown, false)
      else
        var y := g.nodes[order[n - 1]];
        Refresh(p.idNode[y.uuid := |p.shown|], p.shown + [y], true)
  }

  /** `idNode` never maps two ids to one uuid. */
  ghost predicate Injective(idNode: map<string, int>) {
    forall u, v :: u in idNode && v in idNode && idNode[u] == idNode[v] ==> u == v
  }

  /**
   * What the node loop registers: each uuid maps to a viewer node with
   * that uuid, the last one added with it (later nodes overwrite); every
   * viewer node's uuid is registered; so the map is injective.
   */
  lemma {:induction false} RefreshIds(g: Graph, order: seq<string>, n: nat)
    requires n <= |order|
    ensures var r := RefreshNodes(g, order, n);
      (forall u :: u in r.idNode ==> 0 <= r.idNode[u] < |r.shown| && r.shown[r.idNode[u]].uuid == u &&
                                      forall j :: r.idNode[u] < j < |r.shown| ==> r.shown[j].uuid != u) &&
      (forall j :: 0 <= j < |r.shown| ==> r.shown[j].uuid in r.idNode) &&
      Injective(r.idNode)
  {
    if n > 0 {
      RefreshIds(g, order, n - 1);
    }
  }

  lemma RefreshInjective(g: Graph, order: seq<string>, n: nat)
    requires n <= |order|
    ensures Injective(RefreshNodes(g, order, n).idNode)
  {
    RefreshIds(g, order, n);
  }

  /** Once a name without `inode` is reached, the rest of the listing is never visited. */
  lemma {:induction false} RefreshFailKeeps(g: Graph, order: seq<string>, n: nat, m: nat)
    requires n <= m <= |order|
    requires !RefreshNodes(g, order, n).ok
    ensures RefreshNodes(g, order, m) == RefreshNodes(g, order, n)
    decreases m - n
  {
    if n < m {
      RefreshFailKeeps(g, order, n + 1, m);
    }
  }

  /** The viewer edges for an edge listing: each edge whose two ends are in `idNode`, in order. */
  function ShownEdges(idNode: map<string, int>, es: seq<Edge>): (r: seq<(int, int)>)
    ensures |r| <= |es|
  {
    if es == [] then []
    else
      var rest := ShownEdges(idNode, es[..|es| - 1]);
      var e := es[|es| - 1];
      if e.src in idNode && e.dst in idNode then rest + [(idNode[e.src], idNode[e.dst])] else rest
  }

  /** Filtering distributes over concatenation: order and multiplicity are kept. */
  lemma {:induction false} ShownEdgesConcat(idNode: map<string, int>, a: seq<Edge>, b: seq<Edge>)
    ensures ShownEdges(idNode, a + b) == ShownEdges(idNode, a) + ShownEdges(idNode, b)
    decreases |b|
  {
    if b == [] {
      assert a + b == a;
    } else {
      var b' := b[..|b| - 1];
      assert (a + b)[..|a + b| - 1] == a + b';
      assert (a + b)[|a + b| - 1] == b[|b| - 1];
      ShownEdgesConcat(idNode, a, b');
    }
  }

  /** Every viewer edge comes from a listed edge whose two ends are registered. */
  lemma {:induction false} ShownEdgesSound(idNode: map<string, int>, es: seq<Edge>, k: nat)
    requires k < |ShownEdges(idNode, es)|
    ensures exists i :: 0 <= i < |es| && es[i].src in idNode && es[i].dst in idNode &&
                        ShownEdges(idNode, es)[k] == (idNode[es[i].src], idNode[es[i].dst])
    decreases |es|
  {
    var rest := ShownEdges(idNode, es[..|es| - 1]);
    if k < |rest| {
      ShownEdgesSound(idNode, es[..|es| - 1], k);
      var i :| 0 <= i < |es[..|es| - 1]| && es[..|es| - 1][i].src in idNode && es[..|es| - 1][i].dst in idNode &&
               rest[k] == (idNode[es[..|es| - 1][i].src], idNode[es[..|es| - 1][i].dst]);
      assert es[i] == es[..|es| - 1][i];
    } else {
      assert ShownEdges(idNode, es)[k] == (idNode[es[|es| - 1].src], idNode[es[|es| - 1].dst]);
    }
  }

  /** No registered edge is lost: a listed edge with both ends registered is shown. */
  lemma ShownEdgesComplete(idNode: map<string, int>, es: seq<Edge>, i: nat)
    requires i < |es| && es[i].src in idNode && es[i].dst in idNode
    ensures (idNode[es[i].src], idNode[es[i].dst]) in ShownEdges(idNode, es)
  {
    assert es == es[..i] + [es[i]] + es[i + 1..];
    ShownEdgesConcat(idNode, es[..i] + [es[i]], es[i + 1..]);
    ShownEdgesConcat(idNode, es[..i], [es[i]]);
    assert [es[i]][..0] == [];
  }

  /** Edges with an end that is not registered are skipped. */
  lemma ShownEdgesSkip(idNode: map<string, int>, es: seq<Edge>, e: Edge)
    requires e.src !in idNode || e.dst !in idNode
    ensures ShownEdges(idNode, es + [e]) == ShownEdges(idNode, es)
  {
    assert (es + [e])[..|es + [e]| - 1] == es;
  }

  /** `AddrNode` is the inverse of `idNode`. */
  ghost predicate IsInverse(addrNode: map<int, string>, idNode: map<string, int>) {
    (forall u :: u in idNode ==> idNode[u] in addrNode && addrNode[idNode[u]] == u) &&
    (forall i :: i in addrNode ==> addrNode[i] in idNode && idNode[addrNode[i]] == i)
  }

  /** The inverse is unique, whatever order `iteritems` visits the entries in. */
  lemma InverseUnique(a: map<int, string>, b: map<int, string>, idNode: map<string, int>)
    requires IsInverse(a, idNode) && IsInverse(b, idNode)
    ensures a == b
  {
    forall i | i in a ensures i in b && a[i] == b[i] {
      assert idNode[a[i]] == i;
    }
    forall i | i in b ensures i in a {
      assert idNode[b[i]] == i;
    }
    assert a.Keys == b.Keys;
  }

  /**
   * After a refresh that went through, the reverse map sends every viewer
   * id to the uuid of the viewer node under that id.
   */
  lemma ReverseNamesNode(g: Graph, order: seq<string>, addrNode: map<int, string>, id: int)
    requires RefreshNodes(g, order, |order|).ok
    requires IsInverse(addrNode, RefreshNodes(g, order, |order|).idNode)
    requires id in addrNode
    ensures 0 <= id < |order| && addrNode[id] == RefreshNodes(g, order, |order|).shown[id].uuid
  {
    RefreshIds(g, order, |order|);
  }

  /** Every node is its own uuid's key, as when `ExtractData` records the line's id. */
  ghost predicate UuidKeyed(g: Graph) {
    forall k :: k in g.nodes ==> g.nodes[k].uuid == k
  }

  /**
   * Round trip: when every node is keyed by its uuid, a refresh that went
   * through gives every node a viewer id, and that id leads back to the
   * same node for double click and text.
   */
  lemma RefreshRoundTrip(g: Graph, order: seq<string>, addrNode: map<int, string>, k: string)
    requires UuidKeyed(g)
    requires forall i :: 0 <= i < |order| ==> order[i] in AllKeys(g)
    requires forall k' :: k' in AllKeys(g) ==> k' in order
    requires RefreshNodes(g, order, |order|).ok
    requires IsInverse(addrNode, RefreshNodes(g, order, |order|).idNode)
    requires k in g.nodes
    ensures k in RefreshNodes(g, order, |order|).idNode
    ensures LookupNode(g, addrNode, RefreshNodes(g, order, |order|).idNode[k]) == Ok(g.nodes[k])
  {
    var r := RefreshNodes(g, order, |order|);
    RefreshIds(g, order, |order|);
    assert k in AllKeys(g);
    var i :| 0 <= i < |order| && order[i] == k;
    assert r.shown[i].uuid == k;
  }

  /** The node loop of `OnRefresh`: the viewer's nodes and `idNode`, and whether no node lacked `inode`. */
  method AddNodes(g: Graph, order: seq<string>) returns (idNode: map<string, int>, shown: seq<TaintNode>, ok: bool)
    ensures Refresh(idNode, shown, ok) == RefreshNodes(g, order, |order|)
  {
    idNode, shown := map[], [];
    var n := 0;
    while n < |order|
      invariant 0 <= n <= |order|
      invariant RefreshNodes(g, order, n) == Refresh(idNode, shown, true)
    {
      var x := order[n];
      if x !in g.nodes {
        RefreshFailKeeps(g, order, n + 1, |order|);
        return idNode, shown, false;
      }
      var y := g.nodes[x];
      idNode := idNode[y.uuid := |shown|];
      shown := shown + [y];
      n := n + 1;
    }
    ok := true;
  }

  /** The edge loop of `OnRefresh`: a `KeyError` on either end skips the edge. */
  method AddEdges(idNode: map<string, int>, edgeOrder: seq<Edge>) returns (shown: seq<(int, int)>)
    ensures shown == ShownEdges(idNode, edgeOrder)
  {
    shown := [];
    var e := 0;
    while e < |edgeOrder|
      invariant 0 <= e <= |edgeOrder|
      invariant shown == ShownEdges(idNode, edgeOrder[..e])
    {
      var edge := edgeOrder[e];
      assert edgeOrder[..e + 1] == edgeOrder[..e] + [edge];
      if edge.src in idNode && edge.dst in idNode {
        shown := shown + [(idNode[edge.src], idNode[edge.dst])];
      } else {
        ShownEdgesSkip(idNode, edgeOrder[..e], edge);
      }
      e := e + 1;
    }
    assert edgeOrder[..e] == edgeOrder;
  }

  /** `for ea, id in idNode.iteritems(): AddrNode[id] = ea`, in whatever order the entries come. */
  method Invert(idNode: map<string, int>) returns (addrNode: map<int, string>)
    requires Injective(idNode)
    ensures IsInverse(addrNode, idNode)
  {
    addrNode := map[];
    var rest := idNode.Keys;
    while rest != {}
      invariant rest <= idNode.Keys
      invariant forall u :: u in idNode && u !in rest ==> idNode[u] in addrNode && addrNode[idNode[u]] == u
      invariant forall i :: i in addrNode ==> addrNode[i] in idNode && addrNode[i] !in rest && idNode[addrNode[i]] == i
      decreases rest
    {
      var u :| u in rest;
      addrNode := addrNode[idNode[u] := u];
      rest := rest - {u};
    }
  }

  // ---------------------------------------------------------------------
  // The viewer object

  class TaintGraphView {
    var graph: Graph
    var nodeEa: map<string, string>
    var nodeLib: map<string, string>
    var selectedNode: Option<int>
    /** `self.AddrNode`: viewer id -> node uuid. */
    var addrNode: map<int, string>
    /** The GraphViewer's node list; a node's viewer id is its position. */
    var viewNodes: seq<TaintNode>
    /** The GraphViewer's edge list, as pairs of viewer ids. */
    var viewEdges: seq<(int, int)>

    /** `TaintGraph(graph, node_ea, node_lib)` */
    constructor(g: Graph, ea: map<string, string>, lib: map<string, string>)
      ensures graph == g && nodeEa == ea && nodeLib == lib && selectedNode == None
      ensures addrNode == map[] && viewNodes == [] && viewEdges == []
    {
      graph := g;
      nodeEa := ea;
      nodeLib := lib;
      selectedNode := None;
      addrNode := map[];
      viewNodes := [];
      viewEdges := [];
    }

    /**
     * `OnRefresh()`: clear the viewer, add every node and record its id
     * under its uuid, add the edges whose two ends were recorded, then
     * build the reverse map. `order` is the order networkx lists the
     * nodes in and `edgeOrder` the order it lists the edges in. A node
     * without `inode` raises KeyError: the nodes added so far stay, no
     * edge is added and `AddrNode` is not rebuilt.
     */
    method OnRefresh(order: seq<string>, edgeOrder: seq<Edge>) returns (ok: bool)
      requires forall i, j :: 0 <= i < j < |order| ==> order[i] != order[j]
      requires forall k :: k in order <==> k in AllKeys(graph)
      requires multiset(edgeOrder) == multiset(graph.edges)
      modifies this
      ensures var r := RefreshNodes(old(graph), order, |order|);
        ok == r.ok && viewNodes == r.shown &&
        (ok ==> viewEdges == ShownEdges(r.idNode, edgeOrder) && IsInverse(addrNode, r.idNode)) &&
        (!ok ==> viewEdges == [] && addrNode == old(addrNode))
      ensures graph == old(graph) && nodeEa == old(nodeEa) && nodeLib == old(nodeLib)
      ensures selectedNode == old(selectedNode)
    {
      viewNodes := [];
      viewEdges := [];
      var idNode, shown;
      idNode, shown, ok := AddNodes(graph, order);
      viewNodes := shown;
      if !ok {
        return;
      }
      viewEdges := AddEdges(idNode, edgeOrder);
      RefreshInjective(graph, order, |order|);
      addrNode := Invert(idNode);
    }

    /** `OnDblClick(node_id)`: the address the view jumps to, if any. */
    method OnDblClick(nodeId: int) returns (r: Result<Option<int>>)
      ensures r == DblClickTarget(graph, addrNode, nodeEa, nodeId)
    {
      if nodeId !in addrNode {
        return Err(KeyError);
      }
      var uuid := addrNode[nodeId];
      if uuid !in graph.nodes {
        return Err(KeyError);
      }
      var node := graph.nodes[uuid];
      if node.startind.None? {
        return Err(AttributeError);
      }
      var ind := FirstField(node.startind.value, ':');
      if node.endind.Some? {
        ind := FirstField(node.endind.value, ':');
      }
      if ind !in nodeEa {
        return Ok(None);
      }
      var addr := ParseHex(nodeEa[ind]);
      if addr.None? {
        return Err(ValueError);
      }
      return Ok(Some(addr.value));
    }

    /** `OnGetText(node_id)`: the node's label and colour. */
    method OnGetText(nodeId: int) returns (r: Result<(string, int)>)
      ensures r == NodeText(graph, addrNode, nodeId)
    {
      if nodeId !in addrNode {
        return Err(KeyError);
      }
      var uuid := addrNode[nodeId];
      if uuid !in graph.nodes {
        return Err(KeyError);
      }
      var a := graph.nodes[uuid];
      var text := uuid;
      if a.nodeattr == Some("c") {
        text := "[c] " + uuid;
      }
      if !Truthy(a.nodeattr) {
        return Ok((text, Red));
      }
      if a.childC.None? && a.childD.None? {
        return Ok((text, Green));
      } else if a.typ == Some("reg") {
        return Ok((text, Pink));
      } else {
        return Ok((text, White));
      }
    }

    /**
     * `OnSelect(node_id)`: the debug message reads `AddrNode[node_id]`
     * first, so an unknown id raises KeyError and the selection stays.
     */
    method OnSelect(nodeId: int) returns (ok: bool)
      modifies this
      ensures ok <==> nodeId in old(addrNode)
      ensures selectedNode == if ok then Some(nodeId) else old(selectedNode)
      ensures graph == old(graph) && nodeEa == old(nodeEa) && nodeLib == old(nodeLib) && addrNode == old(addrNode)
      ensures viewNodes == old(viewNodes) && viewEdges == old(viewEdges)
    {
      if nodeId !in addrNode {
        return false;
      }
      selectedNode := Some(nodeId);
      return true;
    }

    /** `OnGenCallGraph()` up to the address whose function the call graph is built from. */
    method OnGenCallGraph() returns (r: Result<int>)
      ensures r == CallGraphAddress(graph, addrNode, nodeEa, selectedNode)
    {
      if selectedNode.None? || selectedNode.value !in addrNode {
        return Err(KeyError);
      }
      var uuid := addrNode[selectedNode.value];
      if uuid !in graph.nodes {
        return Err(KeyError);
      }
      var node := graph.nodes[uuid];
      if node.startind.None? {
        return Err(AttributeError);
      }
      var ind := FirstField(node.startind.value, ':');
      if node.endind.Some? {
        ind := FirstField(node.endind.value, ':');
      }
      if ind !in nodeEa {
        return Err(KeyError);
      }
      var addr := ParseHex(nodeEa[ind]);
      if addr.None? {
        return Err(ValueError);
      }
      return Ok(addr.value);
    }
  }
}
