# Taint graph visualizer of TREE, modelled in Dafny

This project models the core of TREE's taint-graph viewer. The viewer does four things:

- It reads an execution trace line by line. Each line carries a numeric id in brackets (`[42]`) and the attributes of one taint node, including the ids of its `c` children (control) and `d` children (data).
- It folds each line into a networkx MultiDiGraph. A node is created or updated under its id. The viewer adds one typed edge per child token and stamps each child with the type of that edge. A child not seen yet becomes a placeholder node.
- It reads an index feed into two maps: `E` lines map an index key to an address, and `L` lines map a key to a library name.
- It lays the graph out in integer columns, one column per root, and shows it in an IDA graph view. There, a node id resolves to a node, the node to an index key, and the key to an address to jump to. Each node gets a label and a colour from its stamp, its children and its type.

Modules:

- `Wrappers`: `Option`.
- `PyStr`: the Python 2 string operations the code relies on. These are `str.split()`, `str.split(sep)`, `split(sep)[0]` and `int(s, 16)`.
- `TaintNodes`: the data model for `TaintNode`, `Edge` and the MultiDiGraph. A networkx node exists in one of two forms, and the model keeps them apart. `nodes` holds the nodes that carry an `inode` attribute. `bare` holds the nodes that `add_edge` created without data.
- `RecordParser`: `extract_uuid`.
- `GraphBuilder`: `insert_node` and `child_edges`, specified as a fold over the child tokens, with the lemmas about it.
- `IndexFeed`: the per-line rules of `setTraceFile`.
- `Layouts`: `genStandardLayout` and the chain walk of the branch layout.
- `VisualizerWidget`: the class `Visualizer`. Its methods change `t_graph`, `node_ea`, `node_lib`, `std_layout` and `cur_chain` in place. Each method is proved against the function that specifies it.
- `TaintGraph`: address resolution, label and colour, and the class `TaintGraphView`. That class holds the `OnRefresh` id maps and the event handlers.

Python exceptions are modelled as results:

- KeyError, AttributeError and ValueError in the viewer handlers become `Err(...)`.
- In the loops, an exception becomes an `ok: false` outcome that keeps the state as it was when the exception was raised.

## Model

| member | source | states |
|---|---|---|
| PyStr.SplitWs | SourceCode/trunk/TREE/dispatcher/widgets/VisualizerWidget.py:208 | `x.split()`: every result is a non-empty whitespace-free token |
| PyStr.SplitWsJoin | SourceCode/trunk/TREE/dispatcher/widgets/VisualizerWidget.py:208 | splitting tokens joined by spaces gives back exactly those tokens |
| PyStr.SplitWsKeepsNonSpace | SourceCode/trunk/TREE/dispatcher/widgets/VisualizerWidget.py:208 | `split()` drops exactly the whitespace: the tokens concatenate to the line without its whitespace |
| PyStr.SplitOn | SourceCode/trunk/TREE/dispatcher/widgets/VisualizerWidget.py:545-549 | `line.split(' ')`: never empty, no field contains the separator |
| PyStr.JoinSplitOn | SourceCode/trunk/TREE/dispatcher/widgets/VisualizerWidget.py:545-549 | joining the fields with the separator rebuilds the line |
| PyStr.SplitOnJoin | SourceCode/trunk/TREE/dispatcher/widgets/VisualizerWidget.py:545-549 | splitting a join of separator-free fields gives back the fields |
| PyStr.FirstField | SourceCode/trunk/TREE/dispatcher/core/structures/Graph/TaintGraph.py:62 | `s.split(':')[0]` is the longest prefix of `s` that contains no `:` |
| PyStr.ParseHex | SourceCode/trunk/TREE/dispatcher/core/structures/Graph/TaintGraph.py:76-77 | `int(s, 16)` yields a value only for a string that is not blank; ParseHexAccepts and ParseHexShape give the exact language and values |
| PyStr.ParseHexAccepts | SourceCode/trunk/TREE/dispatcher/core/structures/Graph/TaintGraph.py:76-77 | every literal of the form whitespace, optional sign, whitespace, optional `0x`/`0X`, hex digits, whitespace yields the digits' value, negated after `-` |
| PyStr.ParseHexShape | SourceCode/trunk/TREE/dispatcher/core/structures/Graph/TaintGraph.py:76-77 | only such literals are accepted: every string with a value splits into that form, and the value is the one ParseHexAccepts gives |
| PyStr.SpaceAfterSign | SourceCode/trunk/TREE/dispatcher/core/structures/Graph/TaintGraph.py:76-77 | whitespace between the sign and the digits is skipped: `"-\tff"` is -255 |
| PyStr.NoSpaceAfterPrefix | SourceCode/trunk/TREE/dispatcher/core/structures/Graph/TaintGraph.py:76-77 | whitespace after the `0x` prefix is refused: `"0x ff"` raises ValueError |
| PyStr.ParseHexFormat | SourceCode/trunk/TREE/dispatcher/core/structures/Graph/TaintGraph.py:76-77 | `int` of `0x` followed by the hex digits of n is n, for every n >= 0 |
| RecordParser.DigitRun | SourceCode/trunk/TREE/dispatcher/widgets/VisualizerWidget.py:220-222 | the greedy `\d+`: every character of the run is a digit, and the run stops at a non-digit or the end |
| RecordParser.FindTag | SourceCode/trunk/TREE/dispatcher/widgets/VisualizerWidget.py:223 | `re.search`: the position found matches, and no earlier position at or after the start does |
| RecordParser.ExtractUuid | SourceCode/trunk/TREE/dispatcher/widgets/VisualizerWidget.py:218-224 | an extracted id is a non-empty string of digits |
| RecordParser.TagAtIffBracketed | SourceCode/trunk/TREE/dispatcher/widgets/VisualizerWidget.py:220-222 | the pattern matches at i exactly when some `[digits]` starts at i |
| RecordParser.ExtractUuidLeftmost | SourceCode/trunk/TREE/dispatcher/widgets/VisualizerWidget.py:218-224 | the result comes from the leftmost bracketed digit string |
| RecordParser.ExtractUuidComplete | SourceCode/trunk/TREE/dispatcher/widgets/VisualizerWidget.py:218-224 | extraction fails only on lines without any bracketed digit string |
| IndexFeed.IndexLine | SourceCode/trunk/TREE/dispatcher/widgets/VisualizerWidget.py:542-550 | one line goes through exactly when it is WellFormed, and a line that raises leaves both maps as they were; its effect on the maps is IndexEaKeys through OtherLinesIgnored |
| IndexFeed.IndexPrefix | SourceCode/trunk/TREE/dispatcher/widgets/VisualizerWidget.py:542-550 | the feed goes through exactly when every line has the fields its branch reads |
| IndexFeed.IndexEaKeys | SourceCode/trunk/TREE/dispatcher/widgets/VisualizerWidget.py:544-546 | k is a key of `node_ea` exactly when some `E` line has field 5 equal to k |
| IndexFeed.IndexEaLastWriter | SourceCode/trunk/TREE/dispatcher/widgets/VisualizerWidget.py:544-546 | the address under k is field 1 of the last `E` line with key k |
| IndexFeed.IndexLibKeys | SourceCode/trunk/TREE/dispatcher/widgets/VisualizerWidget.py:548-550 | k is a key of `node_lib` exactly when some `L` line has field 1 equal to k |
| IndexFeed.IndexLibLastWriter | SourceCode/trunk/TREE/dispatcher/widgets/VisualizerWidget.py:548-550 | the text under k is fields 2 and 3 of the last `L` line with key k |
| IndexFeed.OtherLinesIgnored | SourceCode/trunk/TREE/dispatcher/widgets/VisualizerWidget.py:542-550 | a line starting with neither `E` nor `L` changes neither map |
| IndexFeed.IndexStopsAtFirstBad | SourceCode/trunk/TREE/dispatcher/widgets/VisualizerWidget.py:542-550 | a feed that raises IndexError keeps the maps as they were before the first short line |
| GraphBuilder.VisitStep | SourceCode/trunk/TREE/dispatcher/widgets/VisualizerWidget.py:209-217 | one child token appends exactly one edge, and raises exactly when the child is a node without `inode` |
| GraphBuilder.StepNodes | SourceCode/trunk/TREE/dispatcher/widgets/VisualizerWidget.py:209-217 | one token stamps only its child, a new child is a placeholder, and nothing else changes |
| GraphBuilder.RunVisits | SourceCode/trunk/TREE/dispatcher/widgets/VisualizerWidget.py:204-217 | the parent stays a node whatever the loop does; node, stamp, edge and invariant effects are the RunVisits lemmas below |
| GraphBuilder.RunVisitsNodes | SourceCode/trunk/TREE/dispatcher/widgets/VisualizerWidget.py:204-217 | no node is removed; nodes change only in their stamp; new keys are visited children as placeholders; every child is a key once the loop completes |
| GraphBuilder.RunVisitsStamps | SourceCode/trunk/TREE/dispatcher/widgets/VisualizerWidget.py:211-215 | last writer wins: a child's stamp is the kind of the last token naming it |
| GraphBuilder.RunVisitsEdgeCount | SourceCode/trunk/TREE/dispatcher/widgets/VisualizerWidget.py:204-217 | at most one new edge per token, exactly one per token when nothing raises, old edges kept |
| GraphBuilder.RunVisitsEdgeAt | SourceCode/trunk/TREE/dispatcher/widgets/VisualizerWidget.py:210-217 | the k-th new edge goes to the k-th child, with its kind, the parent's `edgeann` and the parent's key |
| GraphBuilder.RunVisitsValid | SourceCode/trunk/TREE/dispatcher/widgets/VisualizerWidget.py:204-217 | the networkx invariants survive the loop, whether or not it raises |
| GraphBuilder.RunVisitsUuidKeyed | SourceCode/trunk/TREE/dispatcher/widgets/VisualizerWidget.py:204-217 | when `str(node)` is the uuid and every node has `inode`, the loop never raises |
| GraphBuilder.Visits | SourceCode/trunk/TREE/dispatcher/widgets/VisualizerWidget.py:204-208 | one visit per whitespace token of each present child field; which tokens and kinds are VisitsChildren and VisitsKinds |
| GraphBuilder.VisitsOrderFree | SourceCode/trunk/TREE/dispatcher/widgets/VisualizerWidget.py:204-208 | the attribute order changes only the order of the visits, not which visits there are |
| GraphBuilder.VisitsChildren | SourceCode/trunk/TREE/dispatcher/widgets/VisualizerWidget.py:204-208 | the loop visits exactly the whitespace tokens of `child_c` and `child_d` |
| GraphBuilder.VisitsKinds | SourceCode/trunk/TREE/dispatcher/widgets/VisualizerWidget.py:204-208 | one visit per whitespace token of each present child field, each visit typed `c` or `d` |
| GraphBuilder.InsertId | SourceCode/trunk/TREE/dispatcher/widgets/VisualizerWidget.py:192-200 | an id that is a node without `inode` raises and leaves the graph unchanged |
| GraphBuilder.InsertLine | SourceCode/trunk/TREE/dispatcher/widgets/VisualizerWidget.py:189-200 | a line without an id raises in `extract_uuid` and leaves the graph unchanged |
| GraphBuilder.InsertCreateOrUpdate | SourceCode/trunk/TREE/dispatcher/widgets/VisualizerWidget.py:189-200 | the node under the id carries the line's attributes; unless it names itself as a child it keeps its stamp (none for a new node); the only new nodes with `inode` are the id and the child tokens (the key `str(node)` may be added by `add_edge` without data); once the insert goes through, every child token is a node |
| GraphBuilder.InsertKeepsOthers | SourceCode/trunk/TREE/dispatcher/widgets/VisualizerWidget.py:189-217 | other nodes are unchanged unless they are child tokens, which change at most in their stamp |
| GraphBuilder.InsertPlaceholders | SourceCode/trunk/TREE/dispatcher/widgets/VisualizerWidget.py:213-217 | each key the insert created is a child token, registered as `TaintNode(child)` |
| GraphBuilder.InsertEdgeCount | SourceCode/trunk/TREE/dispatcher/widgets/VisualizerWidget.py:204-217 | when the insert goes through, the edge count grows by exactly the number of child tokens, and old edges are kept |
| GraphBuilder.InsertEdgeAt | SourceCode/trunk/TREE/dispatcher/widgets/VisualizerWidget.py:210-217 | when the insert goes through, the j-th new edge goes to the j-th child token, typed `c`/`d` by its field, with the line's `edgeann` |
| GraphBuilder.InsertEdgeSource | SourceCode/trunk/TREE/dispatcher/widgets/VisualizerWidget.py:210 | every new edge starts at the key of the inserted node, which is exactly `str(node)` when `str` ignores the stamp |
| GraphBuilder.InsertStamps | SourceCode/trunk/TREE/dispatcher/widgets/VisualizerWidget.py:211-215 | when the insert goes through, a child's stamp is the kind of the last edge into it, whether it existed before or is new |
| GraphBuilder.InsertValid | SourceCode/trunk/TREE/dispatcher/widgets/VisualizerWidget.py:189-217 | inserting a line keeps the networkx invariants |
| GraphBuilder.InsertUuidKeyed | SourceCode/trunk/TREE/dispatcher/widgets/VisualizerWidget.py:189-217 | with uuid keys and no data-less nodes, an insert never raises and keeps that property |
| GraphBuilder.InsertTwice | SourceCode/trunk/TREE/dispatcher/widgets/VisualizerWidget.py:189-217 | when both inserts go through, re-ingesting a line changes its node at most in its stamp and appends as many edges again as the first time |
| Layouts.FirstIsRoot | SourceCode/trunk/TREE/dispatcher/widgets/VisualizerWidget.py:351-357 | the first node of a topological order is a root |
| Layouts.RootCountCard | SourceCode/trunk/TREE/dispatcher/widgets/VisualizerWidget.py:357-359 | the column counter counts the distinct roots seen so far |
| Layouts.InDegreeZero | SourceCode/trunk/TREE/dispatcher/widgets/VisualizerWidget.py:351 | the counted in-degree of a key is 0 exactly when no edge ends at it |
| Layouts.RootsByInDegree | SourceCode/trunk/TREE/dispatcher/widgets/VisualizerWidget.py:351 | the roots are exactly the keys whose `in_degree` is 0 |
| Layouts.ColumnRange | SourceCode/trunk/TREE/dispatcher/widgets/VisualizerWidget.py:357-361 | every column lies in `1..len(roots)` |
| Layouts.StdPosStep | SourceCode/trunk/TREE/dispatcher/widgets/VisualizerWidget.py:357-363 | within a column run, the next node keeps x and sits 30 lower; a root opens the next column at y = 0 |
| Layouts.StdPos | SourceCode/trunk/TREE/dispatcher/widgets/VisualizerWidget.py:357-367 | no node is placed in column 0: x is at least one column width, and y is never negative; the steps between nodes are StdPosStep |
| Layouts.ColumnsIncrease | SourceCode/trunk/TREE/dispatcher/widgets/VisualizerWidget.py:357-359 | a later root is always in a later column |
| Layouts.GenStandardLayout | SourceCode/trunk/TREE/dispatcher/widgets/VisualizerWidget.py:349-370 | one position per node of the graph: the i-th node of the order is at `(col * (800 / len(roots)), 30 * row)` |
| Layouts.WalkStart | SourceCode/trunk/TREE/dispatcher/widgets/VisualizerWidget.py:462-465 | a walk starts at its node exactly when that node has `inode`; an empty walk raised |
| Layouts.Walk | SourceCode/trunk/TREE/dispatcher/widgets/VisualizerWidget.py:462-478 | a walk that placed nothing raised KeyError; what it places is WalkNodes, WalkLinks and WalkEnd |
| Layouts.WalkNodes | SourceCode/trunk/TREE/dispatcher/widgets/VisualizerWidget.py:462-478 | every placed node has `inode`, was not visited before, and is placed once |
| Layouts.WalkLinks | SourceCode/trunk/TREE/dispatcher/widgets/VisualizerWidget.py:473-476 | each placed node is followed by the child NextInChain picks for it |
| Layouts.WalkEnd | SourceCode/trunk/TREE/dispatcher/widgets/VisualizerWidget.py:473-478 | a walk ends cleanly exactly when the last node has no next child or it was already placed, and raises when that child lacks `inode` |
| Layouts.PlaceAt | SourceCode/trunk/TREE/dispatcher/widgets/VisualizerWidget.py:466-472 | the k-th node of a chain started at row r gets y = 60 * (r + k) in its column; every other node keeps its position |
| Layouts.BranchOk | SourceCode/trunk/TREE/dispatcher/widgets/VisualizerWidget.py:428-449 | the branch layout goes through exactly when every root's chain does |
| Layouts.BranchKeys | SourceCode/trunk/TREE/dispatcher/widgets/VisualizerWidget.py:428-449 | the placed nodes are exactly the nodes of the roots' chains |
| Layouts.BranchAt | SourceCode/trunk/TREE/dispatcher/widgets/VisualizerWidget.py:428-449 | chains do not disturb each other: the j-th node of root i's chain is at `(i * (scale / len(roots)), 60 * j)` unless a later chain reaches it |
| Layouts.BranchChainCount | SourceCode/trunk/TREE/dispatcher/widgets/VisualizerWidget.py:429-437 | `cur_chain[root]` is the length of that root's chain |
| Layouts.BranchStops | SourceCode/trunk/TREE/dispatcher/widgets/VisualizerWidget.py:428-449 | a layout that raised stopped right after the first chain that raised |
| Layouts.RootNotInChain | SourceCode/trunk/TREE/dispatcher/widgets/VisualizerWidget.py:443-446 | a chain never steps onto a root |
| Layouts.BranchRootAt | SourceCode/trunk/TREE/dispatcher/widgets/VisualizerWidget.py:428-436 | root i stays at `(i * (scale / len(roots)), 0)` |
| Layouts.BranchAsWritten | SourceCode/trunk/TREE/dispatcher/widgets/VisualizerWidget.py:428-437 | as written, the loop finishes only for an empty root list, and raises NameError once the first root is a node |
| Layouts.BranchAsWrittenRaises | SourceCode/trunk/TREE/dispatcher/widgets/VisualizerWidget.py:428-437 | where the code as written raises NameError, the corrected loop has placed the first root at (0, 0) and counted its chain |
| VisualizerWidget.Visualizer.constructor | SourceCode/trunk/TREE/dispatcher/widgets/VisualizerWidget.py:35 | the widget starts with an empty MultiDiGraph |
| VisualizerWidget.Visualizer.InsertNode | SourceCode/trunk/TREE/dispatcher/widgets/VisualizerWidget.py:189-200 | the new graph and the outcome are InsertLine of the old graph; the other fields are unchanged |
| VisualizerWidget.Visualizer.ChildEdges | SourceCode/trunk/TREE/dispatcher/widgets/VisualizerWidget.py:202-217 | the nested loops leave the graph and outcome RunVisits gives for the node's child tokens |
| VisualizerWidget.Visualizer.VisitChild | SourceCode/trunk/TREE/dispatcher/widgets/VisualizerWidget.py:209-217 | one pass of the inner loop does what VisitStep says |
| VisualizerWidget.Visualizer.SetTraceFile | SourceCode/trunk/TREE/dispatcher/widgets/VisualizerWidget.py:533-552 | both maps are rebuilt from the lines as IndexAll gives them, and the outcome says whether a line raised |
| VisualizerWidget.Visualizer.GenStandardLayoutBranch | SourceCode/trunk/TREE/dispatcher/widgets/VisualizerWidget.py:416-449 | `std_layout`, `cur_chain` and the outcome are BranchAll of the roots |
| VisualizerWidget.Visualizer.PlaceRootChain | SourceCode/trunk/TREE/dispatcher/widgets/VisualizerWidget.py:428-446 | one root: its chain is placed down its column, and `cur_chain[root]` is the chain's length |
| VisualizerWidget.Visualizer.StdLayoutBranchRec | SourceCode/trunk/TREE/dispatcher/widgets/VisualizerWidget.py:462-478 | the recursion places the walk from `node` at rows from `cur_chain[chain]` on and counts each node |
| TaintGraph.ResolveKey | SourceCode/trunk/TREE/dispatcher/core/structures/Graph/TaintGraph.py:62-68 | the key is the text before the first `:` of `endind` if set, else of `startind`; AttributeError exactly when `startind` is None |
| TaintGraph.DblClickTarget | SourceCode/trunk/TREE/dispatcher/core/structures/Graph/TaintGraph.py:57-78 | lookup errors propagate; a key missing from `node_ea` means address 0 and no jump; ValueError exactly when the present entry is not a base-16 literal; otherwise the jump is to its base-16 value |
| TaintGraph.CallGraphAddress | SourceCode/trunk/TREE/dispatcher/core/structures/Graph/TaintGraph.py:140-157 | no selection, an unknown id or a key missing from `node_ea` is a KeyError, a node without `startind` an AttributeError, an entry that is not a base-16 literal a ValueError; a result is the base-16 value of the resolved key's entry |
| TaintGraph.CallGraphAgreesWithDblClick | SourceCode/trunk/TREE/dispatcher/core/structures/Graph/TaintGraph.py:148-157 | the call-graph resolution agrees with the double click (lines 62-77) on every present key; a missing key is no jump for the double click and KeyError for the call graph |
| TaintGraph.DblClickParsedJumps | SourceCode/trunk/TREE/dispatcher/core/structures/Graph/TaintGraph.py:69-77 | every present entry that `int(addr, 16)` accepts is jumped to, and given to the call graph, at its parsed value |
| TaintGraph.DblClickJumps | SourceCode/trunk/TREE/dispatcher/core/structures/Graph/TaintGraph.py:69-77 | an entry `0x` plus the hex digits of a is the address jumped to |
| TaintGraph.EndIndexPreferred | SourceCode/trunk/TREE/dispatcher/core/structures/Graph/TaintGraph.py:62-70 | a node with both indices is looked up under its `endind` key |
| TaintGraph.NodeText | SourceCode/trunk/TREE/dispatcher/core/structures/Graph/TaintGraph.py:88-105 | the text fails exactly when the lookup does, and otherwise is the node's label and colour |
| TaintGraph.StampedChildText | SourceCode/trunk/TREE/dispatcher/core/structures/Graph/TaintGraph.py:92-95 | a child stamped by `child_edges` is never red, and its label has `[c] ` exactly when the last edge into it is a `c` edge |
| TaintGraph.PlaceholderChildText | SourceCode/trunk/TREE/dispatcher/core/structures/Graph/TaintGraph.py:94-98 | a child token that was not a node before the insert, and is not the node's own id, ends stamped and without children of its own, so it is shown 0x7fff00 |
| TaintGraph.FreshNodeText | SourceCode/trunk/TREE/dispatcher/core/structures/Graph/TaintGraph.py:92-95 | a node the line creates, when its id is not among its own child tokens, has no stamp, so it is shown 0x0000ff under its plain uuid |
| TaintGraph.RefreshNodes | SourceCode/trunk/TREE/dispatcher/core/structures/Graph/TaintGraph.py:34-40 | the node loop goes through exactly when every listed node has `inode`, and then the viewer holds those nodes in order |
| TaintGraph.RefreshIds | SourceCode/trunk/TREE/dispatcher/core/structures/Graph/TaintGraph.py:34-40 | each uuid maps to the last viewer node with that uuid, every viewer node's uuid is registered, and the map is injective |
| TaintGraph.RefreshFailKeeps | SourceCode/trunk/TREE/dispatcher/core/structures/Graph/TaintGraph.py:35-36 | after a node without `inode`, no later node is visited |
| TaintGraph.ShownEdges | SourceCode/trunk/TREE/dispatcher/core/structures/Graph/TaintGraph.py:41-50 | at most one viewer edge per listed edge |
| TaintGraph.ShownEdgesConcat | SourceCode/trunk/TREE/dispatcher/core/structures/Graph/TaintGraph.py:41-50 | edge filtering keeps order and multiplicity |
| TaintGraph.ShownEdgesSound | SourceCode/trunk/TREE/dispatcher/core/structures/Graph/TaintGraph.py:45-48 | every viewer edge comes from a listed edge whose ends are both registered |
| TaintGraph.ShownEdgesComplete | SourceCode/trunk/TREE/dispatcher/core/structures/Graph/TaintGraph.py:45-48 | every listed edge whose ends are both registered is shown |
| TaintGraph.ShownEdgesSkip | SourceCode/trunk/TREE/dispatcher/core/structures/Graph/TaintGraph.py:49-50 | an edge with an unregistered end is skipped without error |
| TaintGraph.InverseUnique | SourceCode/trunk/TREE/dispatcher/core/structures/Graph/TaintGraph.py:52-54 | `AddrNode` does not depend on the order `iteritems` visits `idNode` in |
| TaintGraph.ReverseNamesNode | SourceCode/trunk/TREE/dispatcher/core/structures/Graph/TaintGraph.py:52-54 | the reverse map sends each viewer id to the uuid of the viewer node under that id |
| TaintGraph.RefreshRoundTrip | SourceCode/trunk/TREE/dispatcher/core/structures/Graph/TaintGraph.py:27-62 | with uuid keys, every node gets a viewer id that leads back to the same node |
| TaintGraph.AddNodes | SourceCode/trunk/TREE/dispatcher/core/structures/Graph/TaintGraph.py:34-40 | the node loop computes RefreshNodes |
| TaintGraph.AddEdges | SourceCode/trunk/TREE/dispatcher/core/structures/Graph/TaintGraph.py:41-50 | the edge loop computes ShownEdges |
| TaintGraph.Invert | SourceCode/trunk/TREE/dispatcher/core/structures/Graph/TaintGraph.py:52-54 | for an injective `idNode`, the loop builds its exact inverse: `AddrNode[idNode[u]] == u` and nothing else |
| TaintGraph.TaintGraphView.constructor | SourceCode/trunk/TREE/dispatcher/core/structures/Graph/TaintGraph.py:20-25 | graph and maps as given, nothing selected |
| TaintGraph.TaintGraphView.OnRefresh | SourceCode/trunk/TREE/dispatcher/core/structures/Graph/TaintGraph.py:27-55 | the viewer's nodes are RefreshNodes; when it went through, the edges are ShownEdges and `AddrNode` is the inverse of `idNode`; otherwise no edges and `AddrNode` unchanged |
| TaintGraph.TaintGraphView.OnDblClick | SourceCode/trunk/TREE/dispatcher/core/structures/Graph/TaintGraph.py:57-78 | returns DblClickTarget of the current state |
| TaintGraph.TaintGraphView.OnGetText | SourceCode/trunk/TREE/dispatcher/core/structures/Graph/TaintGraph.py:88-105 | returns NodeText of the current state |
| TaintGraph.TaintGraphView.OnSelect | SourceCode/trunk/TREE/dispatcher/core/structures/Graph/TaintGraph.py:107-110 | an id the reverse map knows becomes the selection; an unknown id raises and the selection stays |
| TaintGraph.TaintGraphView.OnGenCallGraph | SourceCode/trunk/TREE/dispatcher/core/structures/Graph/TaintGraph.py:140-157 | returns CallGraphAddress of the selection |

## Left out

- I/O: opening and reading files, `print`, and the Qt widgets, tables and toolbars are not modelled. `setTraceFile` is modelled as a fold over the file's lines, each with its line terminator.
- IDA calls are left out. `idc.Jump` is an output value, `Ok(Some(address))`. `GetFunctionName`, `FuncItems`, `XrefsFrom` and `CallGraph2` are left out: the call-graph expansion after TaintGraph.py:157 is foreign code.
- `TaintNode.ExtractData` and `TaintNode.label` are not part of this model. `ExtractData` is the parameter `extract: string -> Fields`, and `OnHint` (TaintGraph.py:80-83) is left out because it only returns `label()`. `OnClick` only returns True.
- TaintNodes.BlankNode, TaintNodes.Placeholder and GraphBuilder.VisitStep fix code that is not part of this model. `TaintNode()` is taken to build a node with uuid "" and every other field None, `TaintNode(child)` one with uuid `child` and every other field None, and `SetNodeAttr(x)` to overwrite `nodeattr` with x. RunVisitsUuidKeyed, InsertUuidKeyed and PlaceholderChildText rest on the `TaintNode(child)` assumption; RunVisitsStamps, InsertStamps and StampedChildText rest on the overwrite. The model also takes `ExtractData` to leave `nodeattr` as it was (TaintNodes.Absorb).
- `str(node)` is the parameter `keyOf`. Its source is not shown, so the lemmas say when they assume it ignores the stamp (`AttrBlind`) or equals the uuid.
- The order of `node.__dict__.iteritems()` is not fixed in Python 2. The parameter `cFirst` says whether `child_c` is visited before `child_d`.
- `nx.topological_sort` and `in_degree().items()` are library calls. Their results are parameters: the order must be topological, and the root list must be distinct and list exactly the roots. A cyclic graph, on which `topological_sort` raises NetworkXUnfeasible, has no order that meets `IsTopoOrder`, so `GenStandardLayout`'s precondition excludes it and the model has no such error path.
- The networkx listing orders `graph.nodes()` and `graph.edges()` are parameters of `OnRefresh`. The node listing must be a distinct listing of the nodes, and the edge listing a permutation of the edges.
- `GraphViewer.AddNode` is assumed to return consecutive ids from 0 after `Clear()`, the way IDA's Python viewer numbers its nodes. `AddNode` cannot fail in the model, so the `try`/`except` around it (TaintGraph.py:37-40) has no failing branch.
- Object identity is not modelled. Nodes are values in a map, so "the same node object is updated in place" is stated as "the node under the id carries the new attributes and keeps its stamp".
- Python's AttributeError on an attribute that was never assigned is not modelled. The model has `AddrNode` start empty in `TaintGraphView` and `node_ea`/`node_lib` start empty in `Visualizer`. An id looked up before `OnRefresh` therefore fails with KeyError, where the source raises AttributeError.
- The first `TaintGraph.__init__(self, graph)` (TaintGraph.py:15-18) is left out: the definition at TaintGraph.py:20-25 replaces it, since Python keeps only the last one.
- The floating-point networkx layouts, `genStandardLayout2`, `crawlTreeStd`, `getTreeDepth`, `genStandardLayoutBranch2` and `_createGraphView2` are left out. They are library-randomised or broken helpers without a coherent contract.
- VisualizerWidget.Visualizer.GenStandardLayoutBranch models the intended branch layout, not the code as written. The names the source leaves undefined are resolved as evidently intended:
  - `cur_chain` is `self.cur_chain`;
  - `x_counter` is the root's column;
  - `i` in `stdLayoutBrancRec` is the node being placed;
  - the recursion's chain argument is its own `chain`.
  
  The method also sets the two fields instead of returning nothing.
- VisualizerWidget.Visualizer.StdLayoutBranchRec adds a visited-set guard that stops a chain when it returns to a node it already placed. The source recurses without bound on a cycle of children.

## Findings

| source | as written | input that shows it | evidently intended | confidence | as-written member | corrected member |
|---|---|---|---|---|---|---|
| SourceCode/trunk/TREE/dispatcher/widgets/VisualizerWidget.py:437 | reads the bare name `cur_chain`, which no scope defines, so the first root raises NameError; `stdLayoutBrancRec` reads undefined `x_counter`, `i` and `cur_chain` too (lines 466-474) | any graph whose first root is a node with `inode` | use `self.cur_chain`, the root's column and the node being placed, so that each root's chain is laid out down its column | not executed | Layouts.BranchAsWritten, exhibited by Layouts.BranchAsWrittenRaises | VisualizerWidget.Visualizer.GenStandardLayoutBranch |
