# pynode graph library in Dafny

A model of the graph library of pynode (`src/pynode_graphlib.py`). The library is a
single-writer, in-memory graph that teaching code draws on a canvas:

- **Graph.** A dictionary from external id to node, an edge list in insertion order, and an
  edge-membership cache.
- **Nodes.** Each keeps its incident edges.
- **Edges.** Each keeps its two endpoints and a direction flag.

Every structural change also queues drawing commands for the renderer in the core module
`pynode_core`. Here those commands are an abstract event log. Each entry records the command
and the value the global enable flag had when it was queued.

The model is split by concern:

| module | file | what it holds |
|---|---|---|
| `Emission` | `emission.dfy` | The command log with its enable flag, the `pause` command, and the core's internal-id counter. |
| `Delays` | `delays.dfy` | `delay`, `cancel_delay` and `clear_delays` over the `delay_type` table. The timer is recorded as the calls made on it. |
| `Colors` | `colors.dfy` | `Color.rgb` and `Color.hex_string`, with the round trip of the hex form. |
| `Positions` | `positions.dfy` | The four-way case split of the `Node.position` getter. The renderer's answer is an input. |
| `Elements` | `elements.dfy` | `Node` and `Edge` as classes. Holds the adjacency views, `other_node`, `set_position`, `set_directed`, equality and the priority order. |
| `Graphs` | `graphs.dfy` | `Graph` as a class with the invariant `Valid()`, plus every structural operation and query. |
| `RandomGraphs` | `random_graphs.dfy` | `Graph.random`: specification functions, lemmas, and an imperative method over an `array2` tracking matrix. |
| `Sequences`, `Wrappers` | `sequences.dfy`, `wrappers.dfy` | List helpers (`list.remove` is `RemoveFirst`) and `Option`/`Result`. |

`Graph.Valid()` ties the state together; every operation keeps it:

- **Keyed.** Every node is filed under its own id, and `members` is the set of filed nodes.
- **Listed.** The edge list holds each cached edge exactly once.
- **Anchored.** Both endpoints of every cached edge are members.
- **Incidence.** A member's incident list holds only cached edges. Each one appears as many
  times as the member is one of its endpoints, so a self-loop appears twice.

Modelling choices:

- External ids are `int`, and a `Node` argument is resolved through its id, as `node()` does.
- Every outcome of Python's `random` module is an input of `Graph.random`:
  - the sampled id order;
  - the parent and the direction drawn for each node;
  - the shuffled pair list.
- The core's id generators are `IdGenerator` counters. The renderer's replies to queries are
  parameters.

## Model

| member | source | states |
|---|---|---|
| Emission.EventLog.Pause | src/pynode_graphlib.py:5-6 | `pause` is itself a queued command, tagged with the current flag. |
| Emission.EventLog.EndBatch | src/pynode_graphlib.py:717-719 | A batch ends with events enabled again, then the batch command and a pause of 55, both queued as enabled. |
| Emission.EventLog.Add | src/pynode_graphlib.py:482 | `add_event` appends the command, tagged with the flag as it is at that moment. |
| Emission.EventLog.EnableEvents | src/pynode_graphlib.py:489-492 | `enable_events` sets a plain flag: the last call wins. |
| Emission.EventLog.AddAndPause | src/pynode_graphlib.py:482-483 | A command followed by a pause, both tagged with the current flag. |
| Emission.IdGenerator.Next | src/pynode_graphlib.py:319 | `next_global_id` returns the counter and advances it by one, so internal ids are never handed out twice. |
| Delays.Delays.Delay | src/pynode_graphlib.py:8-18 | Schedules through the timer (a timeout, or an interval when repeating) and records kind 0 or 1 under the returned id. |
| Delays.Delays.CancelDelay | src/pynode_graphlib.py:20-26 | An unknown id changes nothing. A known id is cleared with `clear_interval` exactly when its kind is 1, otherwise with `clear_timeout`, and then forgotten. |
| Delays.Delays.ClearDelays | src/pynode_graphlib.py:28-31 | Cancels every recorded delay in key order, one clear call each, and leaves the table empty. |
| Delays.Delays.constructor | src/pynode_graphlib.py:8-18 | The delay table and the timer record start empty and valid. |
| Colors.Rgb | src/pynode_graphlib.py:57-59 | An opaque colour with the given components. |
| Colors.Hex02 | src/pynode_graphlib.py:63 | `%02x` is at least two characters: a minus sign exactly for a negative value, and lower-case hex digits otherwise. |
| Colors.HexString | src/pynode_graphlib.py:61-63 | The result is "transparent" exactly for a transparent colour; otherwise it starts with `#` and has at least seven characters. |
| Colors.ByteRoundTrip | src/pynode_graphlib.py:61-63 | `%02x` of a byte is two lower-case hex digits that read back as the byte. |
| Colors.HexStringRoundTrip | src/pynode_graphlib.py:61-63 | `hex_string` of a transparent colour is "transparent". For byte components it is seven characters, `#` and three fields that read back as red, green and blue. |
| Positions.Trunc | src/pynode_graphlib.py:184-191 | Python's `int()` on a number: truncation toward zero, within one of the value. |
| Positions.Resolve | src/pynode_graphlib.py:180-191 | The getter's case split: live coordinates; else None when nothing is stored; else relative scaling when the extent is known; else the stored values, truncated. |
| Positions.ResolveScaled | src/pynode_graphlib.py:188-189 | With no live answer and a reported extent, a stored relative position is each fraction times the extent, truncated. |
| Positions.LiveWins | src/pynode_graphlib.py:183-184 | A member with both live coordinates reported resolves to them, whatever is stored. |
| Positions.AbsoluteRoundTrip | src/pynode_graphlib.py:190-191 | A stored absolute whole-number position reads back unchanged when no live value wins. |
| Positions.RelativeWithinCanvas | src/pynode_graphlib.py:188-189 | A relative position in the unit square resolves to a point inside the reported canvas. |
| Positions.RelativeScaledExample | src/pynode_graphlib.py:188-189 | (0.5, 0.5) relative on a 200 x 100 canvas resolves to (100, 50). |
| Positions.RelativeWithoutExtentExample | src/pynode_graphlib.py:190-191 | Without a reported extent, relative (0.5, 0.5) resolves to (0, 0). |
| Elements.Node.constructor | src/pynode_graphlib.py:103-120 | A new node has no incident edges, no stored position, is not relative and has priority 0. |
| Elements.Edge.constructor | src/pynode_graphlib.py:309-319 | A new edge holds the given endpoints, direction and internal id, with priority 0. |
| Elements.Node.IncomingEdges | src/pynode_graphlib.py:139-141 | Exactly the incident edges that are undirected or whose target is the node, each as many times as the incident list holds it. |
| Elements.Node.OutgoingEdges | src/pynode_graphlib.py:143-145 | Exactly the incident edges that are undirected or whose source is the node, each as many times as the incident list holds it. |
| Elements.Node.AdjacentNodes | src/pynode_graphlib.py:147-148 | One entry per incident edge, in order: an endpoint of that edge, and for an edge between the node and another node, the other one. |
| Elements.Node.PredecessorNodes | src/pynode_graphlib.py:150-151 | At most one node per incident edge. |
| Elements.Node.SuccessorNodes | src/pynode_graphlib.py:153-154 | At most one node per incident edge. |
| Elements.Node.Degree | src/pynode_graphlib.py:156 | The degree is the number of entries `adjacent_nodes` lists, so a self-loop counts twice. |
| Elements.Node.Indegree | src/pynode_graphlib.py:157 | The indegree never exceeds the degree. |
| Elements.Node.Outdegree | src/pynode_graphlib.py:158 | The outdegree never exceeds the degree. |
| Elements.Node.IncomingEdgesAsWritten | src/pynode_graphlib.py:139-141 | As written, the test compares the bound method `target` with the node, so exactly the undirected incident edges are kept. |
| Elements.Node.OutgoingEdgesAsWritten | src/pynode_graphlib.py:143-145 | As written, exactly the undirected incident edges are kept. |
| Elements.Node.AdjacentNodesAsWritten | src/pynode_graphlib.py:147-148 | As written, `e.target is self` never holds and `e.target` is not called, so entry i is the method `target` bound to the i-th incident edge. |
| Elements.PredecessorsCharacterised | src/pynode_graphlib.py:150-151 | A node is a predecessor exactly when it is the far end of an incoming incident edge. |
| Elements.SuccessorsCharacterised | src/pynode_graphlib.py:153-154 | A node is a successor exactly when it is the far end of an outgoing incident edge. |
| Elements.UndirectedBothWays | src/pynode_graphlib.py:139-154 | An undirected incident edge is both incoming and outgoing, and its far end is both a predecessor and a successor. |
| Elements.DirectedEdgeOrientation | src/pynode_graphlib.py:139-154 | A directed edge a to b makes a a predecessor of b and b a successor of a. It is not incoming at a nor outgoing at b. |
| Elements.DirectedEdgeDroppedAsWritten | src/pynode_graphlib.py:139-145 | As written, a directed incident edge is neither incoming nor outgoing, although it should be one of them. |
| Elements.SelfNeighbourAsWritten | src/pynode_graphlib.py:147-148 | As written, the entry for an edge arriving from another node is a bound method, and calling it gives the node itself, where the corrected view gives the source. |
| Elements.Node.SetPosition | src/pynode_graphlib.py:200-205 | A missing coordinate clears the stored position; the relative flag is recorded and the raw arguments are logged. |
| Elements.Edge.SetDirected | src/pynode_graphlib.py:352-364 | Sets the flag and logs one set-directed command. |
| Elements.Edge.OtherNode | src/pynode_graphlib.py:366-369 | Returns one of the endpoints: the target when x has the source's id (is or equals the source), otherwise the source. |
| Elements.OtherNodeInvolution | src/pynode_graphlib.py:366-369 | Between two different nodes, `other_node` of `other_node` is the identity and agrees with the far end of the views. |
| Elements.LessIsStrictOrder | src/pynode_graphlib.py:297 | `Node.__lt__` is irreflexive, asymmetric and transitive, and two nodes are incomparable exactly when their priorities are equal: a strict weak order, as sorting and heaps need. |
| Graphs.Graph.constructor | src/pynode_graphlib.py:456-460 | An empty, valid graph with spread 80. |
| Graphs.Graph.Lookup | src/pynode_graphlib.py:500-509 | `node(x)` finds a member exactly when the id is a key, and that member carries the id. |
| Graphs.Graph.LookupEqual | src/pynode_graphlib.py:289-295 | A node equal under `__eq__` to a member (the same external id) resolves to that member. |
| Graphs.Graph.HasNode | src/pynode_graphlib.py:612-613 | `has_node` holds exactly when `node()` resolves. |
| Graphs.Graph.HasEdge | src/pynode_graphlib.py:615-616 | `has_edge` holds exactly when that instance is in the edge list. |
| Graphs.Graph.HasEdgeByEquality | src/pynode_graphlib.py:436-442 | When no other cached edge shares e's internal id, `has_edge` by the instance agrees with a dictionary lookup under `Edge.__eq__`. |
| Graphs.Graph.Nodes | src/pynode_graphlib.py:511-512 | Every member exactly once, in insertion order of the ids. |
| Graphs.Graph.Order | src/pynode_graphlib.py:738 | As many as `nodes()` lists. |
| Graphs.Graph.Size | src/pynode_graphlib.py:739 | As many as there are member edges. |
| Graphs.Graph.AddNode | src/pynode_graphlib.py:478-484 | A duplicate id is refused with nothing changed. Otherwise the node is filed under its id (no other key changes) and an add command then a pause of 25 are logged. |
| Graphs.Graph.AddNodeById | src/pynode_graphlib.py:462-484 | Builds the node (taking the next user id when none is given) and then files it as `AddNode` does. |
| Graphs.Graph.AddFreshNode | src/pynode_graphlib.py:714-716 | `add_node(Node(x))`: a fresh node with the next internal id and no edges, refused exactly when the id is taken. |
| Graphs.Graph.AddEdge | src/pynode_graphlib.py:544-566 | Refused with nothing changed for a member instance or an unknown endpoint. Otherwise it resolves the endpoints, appends once to each incident list (twice for a self-loop), to the edge list and the cache, and logs one command without a pause. |
| Graphs.Graph.Attach | src/pynode_graphlib.py:557-563 | The appends of a successful `add_edge`. |
| Graphs.Graph.AddEdgeBetween | src/pynode_graphlib.py:524-566 | `add_edge(u, v)`: a new edge with the next internal id, refused exactly for an unknown endpoint, the source checked first. |
| Graphs.Graph.RemoveEdge | src/pynode_graphlib.py:590-603 | The edge leaves both endpoints' lists (both copies of a self-loop), the edge list and the cache. Other edges stay. The command is logged and the edge returned even for a non-member. |
| Graphs.Graph.Detach | src/pynode_graphlib.py:591-600 | The guarded `list.remove` calls and the cache deletion. |
| Graphs.Graph.RemoveNode | src/pynode_graphlib.py:486-498 | An unknown id changes nothing. Otherwise every incident edge is removed with events off, events come back on, the id is deleted, the node's list is empty, and a command and a pause of 25 are logged. |
| Graphs.Graph.Evict | src/pynode_graphlib.py:489-494 | The edges go silently, events come back on, and the id leaves the dictionary and the key list. |
| Graphs.Graph.Isolate | src/pynode_graphlib.py:489-492 | Afterwards no member edge touches the node, and every edge not touching it stays. |
| Graphs.Graph.DetachAll | src/pynode_graphlib.py:490-491 | The loop over the copied list removes exactly those edges, in order, each logging one silent command. |
| Graphs.Graph.DetachNext | src/pynode_graphlib.py:490-491 | One turn of that loop. |
| Graphs.Graph.Unfile | src/pynode_graphlib.py:494 | `del self._nodes[id]` of an isolated node keeps the graph valid. |
| Graphs.Graph.SetSpread | src/pynode_graphlib.py:741-743 | Sets the spread and logs one command. |
| Graphs.Graph.SetDirected | src/pynode_graphlib.py:608-610 | Every member edge gets the flag, with one command per listed edge in list order. |
| Graphs.Graph.DirectEach | src/pynode_graphlib.py:608-610 | The loop of `set_directed` over the edge list. |
| Graphs.Graph.Clear | src/pynode_graphlib.py:745-752 | Corrected `clear`: the graph is empty, no former member keeps an incident edge, and one clear command is logged. |
| Graphs.Graph.ClearAsWritten | src/pynode_graphlib.py:745-752 | `clear` as written: the three collections are empty, but former members keep their incident lists. |
| Graphs.Graph.Reset | src/pynode_graphlib.py:749-752 | `_reset` empties the dictionary, the list and the cache. |
| Graphs.Graph.StaleAfterClear | src/pynode_graphlib.py:745-752 | After the written `clear`, a graph holding only a former member that had an edge is not valid. |
| Graphs.Graph.RemoveAll | src/pynode_graphlib.py:721-736 | Every named id is gone, and so is every listed edge and every edge at a removed node. Other edges keep their order; events end enabled, with the batch and a pause of 55 last. |
| Graphs.Graph.RemoveEach | src/pynode_graphlib.py:723-733 | The loop of `remove_all`: the batch items are the nodes and edges actually found, and events end enabled exactly when some node was found. |
| Graphs.Graph.RemoveNext | src/pynode_graphlib.py:724-733 | One element removed, moving the loop's invariant on by one, the event flag included. |
| Graphs.Graph.RemoveElement | src/pynode_graphlib.py:725-733 | The three cases of one `remove_all` element; events are on afterwards when they were on before or a node was found. |
| Graphs.Graph.RemoveNamed | src/pynode_graphlib.py:731-733 | `remove_node(node(x))` inside the batch: the node and its edges go, and events are on afterwards whenever the node was found, since `remove_node` re-enables them. |
| Graphs.Graph.AddAll | src/pynode_graphlib.py:706-719 | When nothing is refused, the ids and edges of the list are appended in order and old entries stay. Then events are enabled and the batch and a pause of 55 are logged. |
| Graphs.Graph.AddEach | src/pynode_graphlib.py:708-716 | Events off, then the elements are added in order until one is refused. |
| Graphs.Graph.AddInTurn | src/pynode_graphlib.py:709-716 | The loop of `add_all` with its prefix invariant. |
| Graphs.Graph.AddNext | src/pynode_graphlib.py:709-716 | One more element added, or the refusal that ends the loop. |
| Graphs.Graph.AddOne | src/pynode_graphlib.py:710-716 | One element, refused exactly when `add_node` or `add_edge` would raise for it. |
| Graphs.Graph.AddListedEdge | src/pynode_graphlib.py:713 | `add_edge` inside the batch, refused exactly when it raises. |
| Graphs.Graph.EdgesBetween | src/pynode_graphlib.py:632-638 | Corrected `edges_between`: [] unless both are members. Otherwise exactly the edges of n1's incident list (its outgoing list when directed) that join n1 and n2. |
| Graphs.Graph.EdgesBetweenAsWritten | src/pynode_graphlib.py:632-638 | As written: [] unless both are members. Otherwise exactly the edges of n1's list whose source or target is n2, in directed mode only the undirected ones, because the written `outgoing_edges` keeps only those. |
| Graphs.Graph.EdgesBetweenAgree | src/pynode_graphlib.py:632-638 | In undirected mode, for two different members, the written and the corrected selections are equal. |
| Graphs.Graph.EdgesBetweenDirectedAsWritten | src/pynode_graphlib.py:632-638 | In directed mode, for two different members, the written selection holds exactly the undirected edges of the corrected one. |
| Graphs.Graph.DirectedBetweenAsWritten | src/pynode_graphlib.py:636-638 | As written, an edge directed from n1 to n2 is not in `edges_between(n1, n2, True)`. |
| Graphs.Graph.DirectedBetweenFound | src/pynode_graphlib.py:632-638 | The corrected directed selection finds every member edge directed from n1 to n2. |
| Graphs.Graph.EdgesBetweenSelfAsWritten | src/pynode_graphlib.py:637-638 | As written, `edges_between(n, n)` returns every incident edge of n, where only self-loops join n to itself. |
| Graphs.Graph.DirectedExcludesReverse | src/pynode_graphlib.py:632-638 | In directed mode, an edge directed n2 to n1 (different nodes) is excluded. |
| Graphs.Graph.EdgesBetweenComplete | src/pynode_graphlib.py:632-638 | Undirected mode finds every member edge joining the two members. |
| Graphs.Graph.ListedAtEndpoint | src/pynode_graphlib.py:557-563 | Every edge in a member's incident list is a member edge with that node as an endpoint. |
| Graphs.Graph.BetweenAnchored | src/pynode_graphlib.py:632-638 | The edges either selection lists are member edges with member endpoints. |
| Graphs.Graph.RemoveEdgesBetween | src/pynode_graphlib.py:586-589 | Returns `edges_between` from before the call. Those edges leave the graph, no node goes, and one batch command and a pause of 55 end the log. |
| Graphs.Graph.RemoveEdgesBetweenAsWritten | src/pynode_graphlib.py:586-589 | As written: returns the written `edges_between` from before the call. Those edges leave the graph, no node goes, and one batch command and a pause of 55 end the log. |
| Graphs.Graph.RemoveListed | src/pynode_graphlib.py:588 | `remove_all` of a list of member edges: exactly those edges leave the cache and the edge list, and the nodes stay. |
| Graphs.Graph.AdjacentIffEdgeBetween | src/pynode_graphlib.py:618-638 | `adjacent` holds exactly when `edges_between` is non-empty, in either mode. |
| Graphs.Graph.Adjacent | src/pynode_graphlib.py:618-627 | `adjacent` is false unless both ids are members. |
| Graphs.Graph.SuccessorsAreMembers | src/pynode_graphlib.py:649-651 | The successors of a member are members filed under their ids. |
| Graphs.Graph.ZeroRow | src/pynode_graphlib.py:646-647 | A zero for every node id. |
| Graphs.Graph.ZeroMatrix | src/pynode_graphlib.py:644-648 | A zero row under every node id. |
| Graphs.Graph.AdjacencyMatrix | src/pynode_graphlib.py:643-653 | A row per node id, and in it a column per node id counting that node among the row node's successors. |
| Graphs.Graph.MatrixEntryPositive | src/pynode_graphlib.py:643-653 | An entry is positive exactly when the two nodes are adjacent in directed mode. |
| Graphs.CountRows | src/pynode_graphlib.py:649-652 | The second loop adds each row node's successor counts to its row. |
| Graphs.Tally | src/pynode_graphlib.py:650-651 | The inner loop adds one per successor to that successor's column. |
| RandomGraphs.Random | src/pynode_graphlib.py:655-704 | `order` fresh nodes carrying the sampled ids in sampled order, and fresh undirected edges joining them as `Generated` says. The counter advances once per node and edge, and the internal ids of the returned nodes and edges are pairwise different and lie between the counter's value before and after the call. |
| RandomGraphs.PlantTree | src/pynode_graphlib.py:662-677 | Phase one on the array matrix agrees with `Grown`: its edges, its matrix, its budget. Its nodes and edges carry pairwise different internal ids drawn while it ran. |
| RandomGraphs.PlantNode | src/pynode_graphlib.py:663-677 | One step of phase one. The node takes the counter's current value as its internal id (line 120, through the constructor at 663), and its edge, if any, the next one (line 319, through 666 or 668). |
| RandomGraphs.AddPairs | src/pynode_graphlib.py:679-702 | Phase two on the array matrix agrees with `Offered`, including the `break` once the budget is spent. The ids it draws stay pairwise different from each other and from those of the nodes and the tree. |
| RandomGraphs.OfferPair | src/pynode_graphlib.py:684-702 | One pair of phase two. The edge it makes, if any, takes the counter's current value as its internal id (line 697). |
| RandomGraphs.DrawnPlanted | src/pynode_graphlib.py:663-668 | A node drawing the next id and then its edge drawing the one after keep every internal id different and within the counter's range. |
| RandomGraphs.DrawnOffered | src/pynode_graphlib.py:697 | An edge drawing the next id keeps every internal id different and within the counter's range. |
| RandomGraphs.Mark | src/pynode_graphlib.py:700-701 | The two increments of the tracking matrix. |
| RandomGraphs.Grown | src/pynode_graphlib.py:662-677 | Phase one leaves a square matrix, and a budget of `size` minus the edges made. |
| RandomGraphs.Offered | src/pynode_graphlib.py:682-702 | The same after phase two. |
| RandomGraphs.SampleCoversRange | src/pynode_graphlib.py:660 | The sampled ids are every id of `[initial_id, initial_id + order)`, each once. |
| RandomGraphs.TreeShape | src/pynode_graphlib.py:662-677 | With `connected`, while the budget lasts, position i ≥ 1 gets exactly one edge, the i-th, to its drawn earlier node. Without `connected` there are none. |
| RandomGraphs.TreeConnects | src/pynode_graphlib.py:662-677 | Every node phase one reaches is joined to the first node by a path of generated edges. |
| RandomGraphs.OfferedKeepsTree | src/pynode_graphlib.py:682-702 | Phase two only appends, so the tree edges stay first. |
| RandomGraphs.Exhausted | src/pynode_graphlib.py:683 | Once the budget is spent, the remaining pairs change nothing. |
| RandomGraphs.GrownWithinBudget | src/pynode_graphlib.py:664-676 | Phase one makes at most `size` edges, none when `size <= 0`. |
| RandomGraphs.OfferedWithinBudget | src/pynode_graphlib.py:682-702 | `random` returns at most `size` edges. |
| RandomGraphs.GrownSymmetric | src/pynode_graphlib.py:672-675 | The tracking matrix stays symmetric through phase one, in either indexing. |
| RandomGraphs.OfferedSymmetric | src/pynode_graphlib.py:700-701 | The tracking matrix stays symmetric through phase two. |
| RandomGraphs.GrownLoopless | src/pynode_graphlib.py:664-669 | Phase one adds no self-loop. |
| RandomGraphs.OfferedLoopless | src/pynode_graphlib.py:686 | Without `multigraph`, phase two adds no self-loop, in either indexing. |
| RandomGraphs.GrownCounts | src/pynode_graphlib.py:662-677 | Marking positions, the matrix counts the edges and the tree has no repeated pair. |
| RandomGraphs.OfferedCounts | src/pynode_graphlib.py:682-702 | Both phases keep the matrix counting the edges, and without `multigraph` no pair repeats. |
| RandomGraphs.GeneratedIsSimple | src/pynode_graphlib.py:655-704 | With positions marked in both phases and `multigraph` off, the edges have no self-loop and no repeated pair. |
| RandomGraphs.AsWrittenRepeatsPair | src/pynode_graphlib.py:672-697 | As written, order 3 with ids [1, 2, 0] joins positions 0 and 1 twice with `multigraph` off. |
| RandomGraphs.RepeatGrown | src/pynode_graphlib.py:662-677 | On those draws, phase one as written makes the edges (1, 0) and (2, 1) and leaves the cell read for pair (0, 1) at zero. |
| RandomGraphs.RepeatOffered | src/pynode_graphlib.py:682-702 | On those draws, the first pair of phase two as written joins positions 0 and 1 again. |

## Left out

- `pynode_core` is not part of this model. That covers event delivery, the renderer, `get_data`, the timer and the id generators. The log records each command with the flag; what the core does with a command queued while events are off is not stated.
- The visual setters and getters (labels, sizes, colours, styles, `highlight`, `traverse`, weights, values, attributes) are left out, and so is the `_data()` record. Commands carry internal ids in place of records, and `CustomStyle.data` is not modelled.
- The legacy `**kwds` call shapes of `add_node`, `add_edge` and `remove_edge` are left out. The Node, id and Edge forms are separate methods.
- External ids are integers. Any hashable value is allowed by the library; arbitrary keys are not modelled.
- `edges()`, `__iter__` and `__contains__` are left out. They copy or delegate to members that are modelled.
- `print_debug`, `register_click_listener`, `_exec_code` and `_execute_function` are left out as I/O and dynamic execution.
- Python's `random` is not modelled; its results are inputs.
- A negative `order`, for which `random.sample` raises, is not modelled: `order` is a `nat`.
- The shuffled pair list is only required to hold pairs of positions, not to be a permutation of all of them.
- RandomGraphs.Random: returns the nodes and the edges as two sequences rather than one concatenated list.
- RandomGraphs.Random: follows the corrected phase one that marks positions. So do RandomGraphs.PlantTree and RandomGraphs.PlantNode, where lines 672-675 mark `id - initial_id`. The id-offset version is `GeneratedAsWritten`. GrownWithinBudget, OfferedWithinBudget, GrownSymmetric, OfferedSymmetric, GrownLoopless, OfferedLoopless, TreeShape, OfferedKeepsTree and Exhausted take the marking as a parameter and hold for both. GrownCounts, OfferedCounts and GeneratedIsSimple hold only for the marking by position; for the id offset, AsWrittenRepeatsPair is the counterexample.
- Graphs.Graph.AdjacencyMatrix: counts the corrected `successor_nodes`; as written that list holds bound methods (see Findings), and the row update would fail on them.
- Graphs.Graph.AdjacentIffEdgeBetween: relates `edges_between` to `adjacent` over the corrected views; as written `adjacent` is always false.
- The written `predecessor_nodes` and `successor_nodes` have no as-written member of their own; they fail the same way `AdjacentNodesAsWritten` does.
- Graphs.Graph.AddNode: requires a node whose id is new to have no incident edges. Such a node arrives from another graph or from the written `clear`, and filing it would break the invariant.
- Graphs.Graph.AddAll: after a refused element only the invariant and the disabled flag are stated, not the partial additions.
- Graphs.Graph.AddAll: requires the listed nodes to be members or edge-free, for the same reason as `AddNode`.
- Graphs.Graph.RemoveAll: states the event flag and the last two events (the batch and its pause), not the commands queued before them. Those are not all silent: once a node has been found, `remove_node` has turned events back on, and every later inner command is queued as enabled.
- Graphs.Graph.RemoveEdgesBetween: removes the corrected selection. The selection the library actually removes is the written one, modelled by `RemoveEdgesBetweenAsWritten`. Both state the last two events only, as `RemoveAll` does.
- Edge membership (`has_edge`, `in` and `list.remove` on incident and edge lists) is modelled by object identity. Python compares edges by internal id. The two agree while no two edge objects share an internal id, which the global counter ensures (`IdGenerator.Next`, and `DrawnFrom` for the edges `random` makes; see `HasEdgeByEquality`); edges built with a repeated internal id are not modelled.
- Positions.Resolve: relative scaling multiplies reals, not floats, and truncates toward zero; rounding of floats is not modelled.

## Findings

| source | as written | input that shows it | evidently intended | confidence | as-written member | corrected member |
|---|---|---|---|---|---|---|
| src/pynode_graphlib.py:139-145 | `e.target == self` and `e.source == self` compare the Edge methods `target`/`source` with the node, which never holds | a directed edge a to b listed at b | a directed edge is incoming at its target and outgoing at its source | high, not executed | Elements.DirectedEdgeDroppedAsWritten | Elements.DirectedEdgeOrientation |
| src/pynode_graphlib.py:147-154 | `e.target is self` tests the method `Edge.target`, and the other branch yields `e.target` uncalled, so the three lists hold bound methods rather than nodes. `adjacent` then never finds a neighbour, and `adjacency_matrix` fails on `c.id()` once an undirected edge exists | an edge from another node to n: n's entry is a bound method whose call gives n itself | entry i is the far end of the i-th edge, the source when n is the target | high, not executed | Elements.SelfNeighbourAsWritten | Elements.PredecessorsCharacterised |
| src/pynode_graphlib.py:637-638 | for n1 == n2, every edge of n1 has n1 as source or target and is kept | `edges_between(n, n)` for a node n with one edge to another node returns that edge, and `remove_edge(n, n)` deletes it | only self-loops of n lie between n and n | medium, not executed | Graphs.Graph.EdgesBetweenSelfAsWritten | Graphs.Graph.EdgesBetweenComplete |
| src/pynode_graphlib.py:636-638 | in directed mode the list searched is the written `outgoing_edges`, which keeps only undirected edges | an edge directed from n1 to n2: `edges_between_directed(n1, n2)` returns [] and `remove_edge(n1, n2, directed=True)` leaves it | the edge directed from n1 to n2 is found | high, not executed | Graphs.Graph.DirectedBetweenAsWritten | Graphs.Graph.DirectedBetweenFound |
| src/pynode_graphlib.py:745-752 | `clear` resets the three collections but leaves the nodes' incident lists | clear a graph with one edge, then add one of its nodes again: the node still lists the old edge | clearing detaches every node from the cleared edges | medium, not executed | Graphs.Graph.StaleAfterClear | Graphs.Graph.Clear |
| src/pynode_graphlib.py:672-697 | phase one marks the matrix at `id - initial_id`, phase two reads it by list position | order 3, size 3, connected, ids [1, 2, 0], parents [0, 0, 1], first shuffled pair (0, 1): positions 0 and 1 joined twice | both phases index by position, and no pair repeats without `multigraph` | high, not executed | RandomGraphs.AsWrittenRepeatsPair | RandomGraphs.GeneratedIsSimple |
