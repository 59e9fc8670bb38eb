/**
 * Nodes and edges. A node carries its external id, its internal (wire) id, the list of its
 * incident edges and its stored position; an edge carries its two endpoints and its direction.
 * Both are updated in place by the graph, so both are classes.
 */
module Elements {
  import opened Wrappers
  import opened Emission
  import Positions

  class Node {
    /** The caller-facing id, the key of the graph's node dictionary. */
    const id: int
    /** The id used on the wire, drawn from the core's generator at construction. */
    const internalId: int
    var incident: seq<Edge>
    var position: Option<(real, real)>
    var relative: bool
    var priority: int

    /** `Node(id)`: no incident edges, no stored position, priority 0. */
    constructor (id: int, internalId: int)
      ensures this.id == id && this.internalId == internalId
      ensures incident == [] && position == None && !relative && priority == 0
    {
      this.id := id;
      this.internalId := internalId;
      incident := [];
      position := None;
      relative := false;
      priority := 0;
    }

    /** `incoming_edges`: incident edges that are undirected or point at this node. */
    function IncomingEdges(): (r: seq<Edge>)
      reads this, incident
      ensures forall e | e in r :: e in incident && IsIncoming(e, this)
      ensures forall e | e in incident :: multiset(r)[e] == if IsIncoming(e, this) then multiset(incident)[e] else 0
      ensures |r| <= |incident|
    {
      KeepIncoming(incident, this)
    }

    /** `outgoing_edges`: incident edges that are undirected or leave this node. */
    function OutgoingEdges(): (r: seq<Edge>)
      reads this, incident
      ensures forall e | e in r :: e in incident && IsOutgoing(e, this)
      ensures forall e | e in incident :: multiset(r)[e] == if IsOutgoing(e, this) then multiset(incident)[e] else 0
      ensures |r| <= |incident|
    {
      KeepOutgoing(incident, this)
    }

    /** `adjacent_nodes`: the far end of every incident edge, in list order. */
    function AdjacentNodes(): (r: seq<Node>)
      reads this, incident
      ensures |r| == |incident|
      ensures forall i | 0 <= i < |r| ::
        && (r[i] == incident[i].source || r[i] == incident[i].target)
        && (incident[i].source != incident[i].target && (incident[i].source == this || incident[i].target == this) ==> r[i] != this)
    {
      FarEnds(incident, this)
    }

    /** `predecessor_nodes`: the far ends of the incoming edges. */
    function PredecessorNodes(): (r: seq<Node>)
      reads this, incident
      ensures |r| <= |incident|
    {
      FarEnds(IncomingEdges(), this)
    }

    /** `successor_nodes`: the far ends of the outgoing edges. */
    function SuccessorNodes(): (r: seq<Node>)
      reads this, incident
      ensures |r| <= |incident|
    {
      FarEnds(OutgoingEdges(), this)
    }

    /**
     * `incoming_edges` as the library writes it: the test `e.target == self` compares the
     * method `Edge.target`, not the endpoint, with the node, and a method never equals a node,
     * so only the undirected edges are kept.
     */
    function IncomingEdgesAsWritten(): (r: seq<Edge>)
      reads this, incident
      ensures forall e | e in r :: e in incident && !e.directed
      ensures forall e | e in incident && !e.directed :: e in r
    {
      KeepUndirected(incident)
    }

    /** `outgoing_edges` as written: `e.source == self` fails the same way. */
    function OutgoingEdgesAsWritten(): (r: seq<Edge>)
      reads this, incident
      ensures forall e | e in r :: e in incident && !e.directed
      ensures forall e | e in incident && !e.directed :: e in r
    {
      KeepUndirected(incident)
    }

    /**
     * `adjacent_nodes` as written: `e.target is self` tests the method `Edge.target`, which is never
     * the node, and the other branch is `e.target` without a call, so every entry is the method
     * `target` bound to its edge rather than a node.
     */
    function AdjacentNodesAsWritten(): (r: seq<BoundTarget>)
      reads this
      ensures |r| == |incident|
      ensures forall i | 0 <= i < |r| :: r[i].edge == incident[i]
    {
      Targets(incident)
    }

    /** `degree`: one neighbour per incident entry, so a self-loop counts twice. */
    function Degree(): (d: nat)
      reads this, incident
      ensures d == |AdjacentNodes()|
    {
      |incident|
    }

    /** `indegree`: never more than the degree. */
    function Indegree(): (d: nat)
      reads this, incident
      ensures d <= Degree()
    {
      |IncomingEdges()|
    }

    /** `outdegree`: never more than the degree. */
    function Outdegree(): (d: nat)
      reads this, incident
      ensures d <= Degree()
    {
      |OutgoingEdges()|
    }

    /** `__eq__`: nodes are equal when their external ids are. */
    function Equals(other: Node): bool
    {
      id == other.id
    }

    /** `__lt__`: nodes are ordered by priority alone. */
    function Less(other: Node): bool
      reads this, other
    {
      priority < other.priority
    }

    /**
     * The `position` getter, given whether the node is a member of the graph and the renderer's
     * answer to the position query.
     */
    function Position(member: bool, data: Option<Positions.Probe>): Option<(int, int)>
      reads this
    {
      Positions.Resolve(member, data, position, relative)
    }

    /**
     * `set_position(x, y, relative)`: a missing coordinate clears the stored position; the flag is
     * recorded either way and the raw arguments are sent.
     */
    method SetPosition(x: Option<real>, y: Option<real>, relative: bool, log: EventLog)
      modifies `position, `relative, log`events
      ensures position == if x.None? || y.None? then None else Some((x.value, y.value))
      ensures this.relative == relative
      ensures log.events == old(log.events) + [Event(SetPositionCmd(internalId, x, y, relative), log.enabled)]
    {
      if x.None? || y.None? {
        position := None;
      } else {
        position := Some((x.value, y.value));
      }
      this.relative := relative;
      log.Add(SetPositionCmd(internalId, x, y, relative));
    }
  }

  class Edge {
    const internalId: int
    var source: Node
    var target: Node
    var directed: bool
    var priority: int

    /** `Edge(source, target, directed=...)`. */
    constructor (source: Node, target: Node, directed: bool, internalId: int)
      ensures this.source == source && this.target == target
      ensures this.directed == directed && this.internalId == internalId && priority == 0
    {
      this.source := source;
      this.target := target;
      this.directed := directed;
      this.internalId := internalId;
      priority := 0;
    }

    /**
     * `other_node(x)`: the target when x is, or equals, the source; the source in every other
     * case, including when x is neither endpoint.
     */
    function OtherNode(x: Node): (r: Node)
      reads this
      ensures r == source || r == target
      ensures x.id == source.id ==> r == target
      ensures x.id != source.id ==> r == source
    {
      if source == x || source.id == x.id then target else source
    }

    /** `__eq__`: edges are equal when their internal ids are. */
    function Equals(other: Edge): bool
    {
      internalId == other.internalId
    }

    /** `set_directed(d)`: one command per call. */
    method SetDirected(d: bool, log: EventLog)
      modifies `directed, log`events
      ensures directed == d
      ensures log.events == old(log.events) + [Event(SetDirectedCmd(internalId, d), log.enabled)]
    {
      directed := d;
      log.Add(SetDirectedCmd(internalId, d));
    }
  }

  /** The test of `incoming_edges`: undirected, or the target equals (same external id as) `n`. */
  predicate IsIncoming(e: Edge, n: Node)
    reads e
  {
    !e.directed || e.target.id == n.id
  }

  /** The test of `outgoing_edges`: undirected, or the source equals `n`. */
  predicate IsOutgoing(e: Edge, n: Node)
    reads e
  {
    !e.directed || e.source.id == n.id
  }

  /** The far end used by the adjacency views: the source when the target is `n` itself, else the target. */
  function FarEnd(e: Edge, n: Node): Node
    reads e
  {
    if e.target == n then e.source else e.target
  }

  /** The entries of `es` that pass the test of `incoming_edges`, each as often as it occurs there. */
  function KeepIncoming(es: seq<Edge>, n: Node): (r: seq<Edge>)
    reads es
    ensures forall e | e in r :: e in es && IsIncoming(e, n)
    ensures forall e | e in es :: multiset(r)[e] == if IsIncoming(e, n) then multiset(es)[e] else 0
    ensures |r| <= |es|
  {
    if es == [] then []
    else
      assert es == [es[0]] + es[1..];
      if IsIncoming(es[0], n) then [es[0]] + KeepIncoming(es[1..], n)
      else KeepIncoming(es[1..], n)
  }

  /** The entries of `es` that pass the test of `outgoing_edges`, each as often as it occurs there. */
  function KeepOutgoing(es: seq<Edge>, n: Node): (r: seq<Edge>)
    reads es
    ensures forall e | e in r :: e in es && IsOutgoing(e, n)
    ensures forall e | e in es :: multiset(r)[e] == if IsOutgoing(e, n) then multiset(es)[e] else 0
    ensures |r| <= |es|
  {
    if es == [] then []
    else
      assert es == [es[0]] + es[1..];
      if IsOutgoing(es[0], n) then [es[0]] + KeepOutgoing(es[1..], n)
      else KeepOutgoing(es[1..], n)
  }

  function FarEnds(es: seq<Edge>, n: Node): (r: seq<Node>)
    reads set e | e in es
    ensures |r| == |es|
    ensures forall i | 0 <= i < |es| :: r[i] == FarEnd(es[i], n)
  {
    if es == [] then [] else [FarEnd(es[0], n)] + FarEnds(es[1..], n)
  }

  /** x is a far end of some edge in `es` exactly when it occurs in FarEnds(es, n). */
  lemma FarEndsMembership(es: seq<Edge>, n: Node, x: Node)
    ensures x in FarEnds(es, n) <==> exists e :: e in es && FarEnd(e, n) == x
  {
    var r := FarEnds(es, n);
    if x in r {
      var i :| 0 <= i < |r| && r[i] == x;
      assert es[i] in es;
    }
    if exists e :: e in es && FarEnd(e, n) == x {
      var e :| e in es && FarEnd(e, n) == x;
      var i :| 0 <= i < |es| && es[i] == e;
      assert r[i] == x;
    }
  }

  /** `predecessor_nodes` holds exactly the far ends of the incoming incident edges. */
  lemma PredecessorsCharacterised(n: Node, x: Node)
    ensures x in n.PredecessorNodes() <==> exists e :: e in n.incident && IsIncoming(e, n) && FarEnd(e, n) == x
  {
    FarEndsMembership(n.IncomingEdges(), n, x);
  }

  /** `successor_nodes` holds exactly the far ends of the outgoing incident edges. */
  lemma SuccessorsCharacterised(n: Node, x: Node)
    ensures x in n.SuccessorNodes() <==> exists e :: e in n.incident && IsOutgoing(e, n) && FarEnd(e, n) == x
  {
    FarEndsMembership(n.OutgoingEdges(), n, x);
  }

  /** An undirected incident edge is both incoming and outgoing, so its far end is both a predecessor and a successor. */
  lemma UndirectedBothWays(n: Node, e: Edge)
    requires e in n.incident && !e.directed
    ensures e in n.IncomingEdges() && e in n.OutgoingEdges()
    ensures FarEnd(e, n) in n.PredecessorNodes() && FarEnd(e, n) in n.SuccessorNodes()
  {
    PredecessorsCharacterised(n, FarEnd(e, n));
    SuccessorsCharacterised(n, FarEnd(e, n));
  }

  /**
   * A directed edge a -> b (a and b with different ids) listed at both ends makes a a predecessor
   * of b and b a successor of a, and is neither incoming at a nor outgoing at b.
   */
  lemma DirectedEdgeOrientation(e: Edge)
    requires e.directed && e.source.id != e.target.id
    requires e in e.source.incident && e in e.target.incident
    ensures e.source in e.target.PredecessorNodes() && e.target in e.source.SuccessorNodes()
    ensures e !in e.source.IncomingEdges() && e !in e.target.OutgoingEdges()
  {
    PredecessorsCharacterised(e.target, e.source);
    SuccessorsCharacterised(e.source, e.target);
  }

  /** The undirected edges of `es`, in order. */
  function KeepUndirected(es: seq<Edge>): (r: seq<Edge>)
    reads es
    ensures forall e | e in r :: e in es && !e.directed
    ensures forall e | e in es && !e.directed :: e in r
  {
    if es == [] then []
    else if !es[0].directed then [es[0]] + KeepUndirected(es[1..])
    else KeepUndirected(es[1..])
  }

  /** What `e.target` evaluates to without a call: the method `Edge.target` bound to `e`. */
  datatype BoundTarget = BoundTarget(edge: Edge)

  /** Calling a bound `target` with no argument returns the edge's target. */
  function Call(b: BoundTarget): Node
    reads b.edge
  {
    b.edge.target
  }

  /** The bound `target` methods of `es`, in order. */
  function Targets(es: seq<Edge>): (r: seq<BoundTarget>)
    ensures |r| == |es|
    ensures forall i | 0 <= i < |es| :: r[i].edge == es[i]
  {
    if es == [] then [] else [BoundTarget(es[0])] + Targets(es[1..])
  }

  /**
   * As written, a directed incident edge is neither incoming nor outgoing, although it is
   * incoming at its target and outgoing at its source.
   */
  lemma DirectedEdgeDroppedAsWritten(n: Node, e: Edge)
    requires e in n.incident && e.directed
    ensures e !in n.IncomingEdgesAsWritten() && e !in n.OutgoingEdgesAsWritten()
    ensures e.target == n ==> e in n.IncomingEdges()
    ensures e.source == n ==> e in n.OutgoingEdges()
  {
  }

  /**
   * As written, `adjacent_nodes` holds no node at all: entry i is the bound method `target` of
   * the i-th incident edge. Even calling it does not give the neighbour: for an edge that arrives
   * at `n` from another node it gives `n` itself, where the neighbour is the source.
   */
  lemma SelfNeighbourAsWritten(n: Node, i: int)
    requires 0 <= i < |n.incident|
    requires n.incident[i].target == n && n.incident[i].source != n
    ensures n.AdjacentNodesAsWritten()[i] == BoundTarget(n.incident[i])
    ensures Call(n.AdjacentNodesAsWritten()[i]) == n
    ensures n.AdjacentNodes()[i] == n.incident[i].source != n
  {
  }

  /**
   * The priority order is a strict weak order, as sorting and heaps need: irreflexive,
   * asymmetric and transitive, with two nodes incomparable exactly when their priorities are
   * equal, whatever their ids.
   */
  lemma LessIsStrictOrder(a: Node, b: Node, c: Node)
    ensures !a.Less(a)
    ensures a.Less(b) ==> !b.Less(a)
    ensures a.Less(b) && b.Less(c) ==> a.Less(c)
    ensures !a.Less(b) && !b.Less(a) <==> a.priority == b.priority
  {
  }

  /** For an edge between two nodes with different ids, `other_node` swaps the endpoints. */
  lemma OtherNodeInvolution(e: Edge, x: Node)
    requires e.source.id != e.target.id
    requires x == e.source || x == e.target
    ensures e.OtherNode(e.OtherNode(x)) == x
    ensures e.OtherNode(x) == FarEnd(e, x)
  {
  }
}
