/**
 * The graph aggregate: a dictionary from external id to node, the edge list in insertion order
 * and the membership cache of edges. Each operation updates these and the incident lists of the
 * member nodes in place and records its commands in the event log.
 */
module Graphs {
  import opened Wrappers
  import opened Emission
  import opened Sequences
  import opened Elements

  /** The number of times `n` is an endpoint of `e`: a self-loop counts twice. */
  function EndCount(e: Edge, n: Node): nat
    reads e`source, e`target
  {
    (if e.source == n then 1 else 0) + (if e.target == n then 1 else 0)
  }

  const DefaultSpread := 80

  /**
   * An element of an `add_all` / `remove_all` list: a node, an edge, or any other value, which
   * both operations take for a node id.
   */
  datatype Element = NodeElem(node: Node) | EdgeElem(edge: Edge) | IdElem(id: int)

  /** The node id an element stands for, if any: a node stands for its own id. */
  function ElementIds(x: Element): set<int>
  {
    match x
    case NodeElem(n) => {n.id}
    case IdElem(id) => {id}
    case EdgeElem(_) => {}
  }

  /** The edge an element is, if any. */
  function ElementEdges(x: Element): set<Edge>
  {
    if x.EdgeElem? then {x.edge} else {}
  }

  /** Every node id named by the list. */
  function RemovedIds(xs: seq<Element>): set<int>
  {
    if xs == [] then {} else RemovedIds(xs[..|xs| - 1]) + ElementIds(xs[|xs| - 1])
  }

  /** The nodes filed under the ids `ids` in `nodes`. */
  function Gone(nodes: map<int, Node>, ids: set<int>): set<Node>
  {
    set i | i in ids && i in nodes :: nodes[i]
  }

  /** Removing the ids `r` and then the ids `i` removes the nodes of `r + i`. */
  lemma GoneStep(nodes: map<int, Node>, r: set<int>, i: set<int>)
    ensures Gone(nodes, r + i) == Gone(nodes, r) + Gone(nodes - r, i)
  {
  }

  /**
   * The edges of `before` that are in `after` are exactly those not listed and not touching a
   * node in `gone`.
   */
  ghost predicate Kept(before: set<Edge>, after: set<Edge>, listed: set<Edge>, gone: set<Node>)
    reads before`source, before`target
  {
    forall f | f in before :: f in after <==> f !in listed && f.source !in gone && f.target !in gone
  }

  /** Two removal rounds compose into one that drops both lists and both sets of nodes. */
  lemma KeptStep(c0: set<Edge>, c1: set<Edge>, c2: set<Edge>, l1: set<Edge>, g1: set<Node>, l2: set<Edge>, g2: set<Node>)
    requires c2 <= c1 <= c0
    requires Kept(c0, c1, l1, g1) && Kept(c1, c2, l2, g2)
    ensures Kept(c0, c2, l1 + l2, g1 + g2)
  {
  }

  /** What one more element adds to the ids, the edges and the batch of a `remove_all` prefix. */
  lemma PrefixStep(nodes: map<int, Node>, xs: seq<Element>, k: nat)
    requires k < |xs|
    ensures RemovedIds(xs[..k + 1]) == RemovedIds(xs[..k]) + ElementIds(xs[k])
    ensures ListedEdges(xs[..k + 1]) == ListedEdges(xs[..k]) + ElementEdges(xs[k])
    ensures RemovalItems(nodes, xs[..k + 1]) == RemovalItems(nodes, xs[..k]) + RemovalItem(nodes - RemovedIds(xs[..k]), xs[k])
  {
    assert xs[..k + 1][..k] == xs[..k];
  }

  /** Every edge in the list. */
  function ListedEdges(xs: seq<Element>): set<Edge>
  {
    if xs == [] then {} else ListedEdges(xs[..|xs| - 1]) + ElementEdges(xs[|xs| - 1])
  }

  /**
   * What `remove_all` records for one element when `nodes` is the dictionary at that moment:
   * an edge always (`remove_edge` returns it), a node or id only when `remove_node` found it.
   */
  function RemovalItem(nodes: map<int, Node>, x: Element): (r: seq<Item>)
    ensures |r| <= 1
    ensures r != [] ==> (r[0].NodeItem? <==> !x.EdgeElem?)
  {
    match x
    case EdgeElem(e) => [EdgeItem(e.internalId)]
    case NodeElem(n) => if n.id in nodes then [NodeItem(nodes[n.id].internalId)] else []
    case IdElem(id) => if id in nodes then [NodeItem(nodes[id].internalId)] else []
  }

  /** The batch `remove_all(xs)` sends, starting from the dictionary `nodes`. */
  function RemovalItems(nodes: map<int, Node>, xs: seq<Element>): (r: seq<Item>)
    ensures |r| <= |xs|
  {
    if xs == [] then []
    else RemovalItems(nodes, xs[..|xs| - 1]) + RemovalItem(nodes - RemovedIds(xs[..|xs| - 1]), xs[|xs| - 1])
  }

  /** A node is found in two lists of items together exactly when it is found in one of them. */
  lemma FoundAppend(a: seq<Item>, b: seq<Item>)
    ensures NodeFound(a + b) <==> NodeFound(a) || NodeFound(b)
  {
    if NodeFound(a + b) {
      var i :| 0 <= i < |a + b| && (a + b)[i].NodeItem?;
      if i >= |a| {
        assert b[i - |a|].NodeItem?;
      }
    }
    if NodeFound(a) {
      var i :| 0 <= i < |a| && a[i].NodeItem?;
      assert (a + b)[i].NodeItem?;
    }
    if NodeFound(b) {
      var i :| 0 <= i < |b| && b[i].NodeItem?;
      assert (a + b)[|a| + i].NodeItem?;
    }
  }

  /** One item or none: a node is found exactly when the item is a node's. */
  lemma FoundSingle(items: seq<Item>)
    requires |items| <= 1
    ensures NodeFound(items) <==> items != [] && items[0].NodeItem?
  {
  }

  /**
   * Some node was removed among the recorded items. Each `remove_node` that finds its node
   * turns events back on, so inside `remove_all` this is exactly the state of the event flag.
   */
  predicate NodeFound(items: seq<Item>)
  {
    exists i | 0 <= i < |items| :: items[i].NodeItem?
  }

  /** The endpoints of the edges in the list, whose incident lists `remove_all` may change. */
  function EdgeEnds(xs: seq<Element>): set<Node>
    reads set x | x in xs && x.EdgeElem? :: x.edge
  {
    (set x | x in xs && x.EdgeElem? :: x.edge.source) + (set x | x in xs && x.EdgeElem? :: x.edge.target)
  }

  /**
   * Two rounds of removal compose: ids dropped in two steps are dropped at once, and edges that
   * left the cache in two steps left it at once.
   */
  lemma RemovalStep(keys0: seq<int>, keys1: seq<int>, keys2: seq<int>, r: set<int>, i: set<int>,
                    edges0: seq<Edge>, edges1: seq<Edge>, edges2: seq<Edge>,
                    cache0: set<Edge>, cache1: set<Edge>, cache2: set<Edge>)
    requires keys1 == Excluding(keys0, r) && keys2 == Excluding(keys1, i)
    requires cache2 <= cache1 <= cache0
    requires edges1 == Excluding(edges0, cache0 - cache1) && edges2 == Excluding(edges1, cache1 - cache2)
    ensures keys2 == Excluding(keys0, r + i)
    ensures edges2 == Excluding(edges0, cache0 - cache2)
  {
    ExcludingTwice(keys0, r, i);
    ExcludingTwice(edges0, cache0 - cache1, cache1 - cache2);
    assert (cache0 - cache1) + (cache1 - cache2) == cache0 - cache2;
  }

  /** Deleting two sets of keys in turn is deleting their union. */
  lemma MinusTwice<K, V>(m0: map<K, V>, m1: map<K, V>, m2: map<K, V>, a: set<K>, b: set<K>)
    requires m1 == m0 - a && m2 == m1 - b
    ensures m2 == m0 - (a + b)
  {
  }

  /** The list handed to `remove_all` by `remove_edge(u, v)`: each edge as an element. */
  function EdgeElems(es: seq<Edge>): (xs: seq<Element>)
    ensures |xs| == |es|
    ensures forall i | 0 <= i < |es| :: xs[i] == EdgeElem(es[i])
  {
    if es == [] then [] else EdgeElems(es[..|es| - 1]) + [EdgeElem(es[|es| - 1])]
  }

  /** The batch of a `remove_all` of edges only: one edge item per edge, in order. */
  function EdgeItems(es: seq<Edge>): (r: seq<Item>)
    ensures |r| == |es|
    ensures forall i | 0 <= i < |es| :: r[i] == EdgeItem(es[i].internalId)
  {
    if es == [] then [] else EdgeItems(es[..|es| - 1]) + [EdgeItem(es[|es| - 1].internalId)]
  }

  /** A list of edges names no node id, lists exactly its edges, and records one edge item each. */
  lemma {:induction false} EdgeElemsRemoval(nodes: map<int, Node>, es: seq<Edge>)
    ensures RemovedIds(EdgeElems(es)) == {}
    ensures ListedEdges(EdgeElems(es)) == AsSet(es)
    ensures RemovalItems(nodes, EdgeElems(es)) == EdgeItems(es)
  {
    if es != [] {
      var init := es[..|es| - 1];
      EdgeElemsRemoval(nodes, init);
      var xs := EdgeElems(es);
      assert xs[..|xs| - 1] == EdgeElems(init);
      assert AsSet(es) == AsSet(init) + {es[|es| - 1]} by {
        assert es == init + [es[|es| - 1]];
      }
    }
  }

  /** When no node goes, the edges that stay are exactly the unlisted ones. */
  lemma KeptNoneGone(nodes: map<int, Node>, c0: set<Edge>, c1: set<Edge>, listed: set<Edge>)
    requires c1 <= c0 && listed <= c0
    requires Kept(c0, c1, listed, Gone(nodes, {}))
    ensures c1 == c0 - listed && c0 - c1 == listed
  {
    assert Gone(nodes, {}) == {};
  }

  /** Deleting no key leaves a dictionary as it is. */
  lemma MinusNothing<K, V>(m: map<K, V>)
    ensures m - {} == m
  {
  }

  /** The ids an element of `add_all` files: a node's id, an id itself, none for an edge. */
  function NewIds(x: Element): seq<int>
  {
    match x
    case NodeElem(n) => [n.id]
    case IdElem(id) => [id]
    case EdgeElem(_) => []
  }

  /** The edge an element of `add_all` adds, if any. */
  function NewEdges(x: Element): seq<Edge>
  {
    if x.EdgeElem? then [x.edge] else []
  }

  /** The ids `add_all(xs)` files, in order. */
  function AddedIds(xs: seq<Element>): seq<int>
  {
    if xs == [] then [] else AddedIds(xs[..|xs| - 1]) + NewIds(xs[|xs| - 1])
  }

  /** The edges `add_all(xs)` adds, in order. */
  function AddedEdges(xs: seq<Element>): seq<Edge>
  {
    if xs == [] then [] else AddedEdges(xs[..|xs| - 1]) + NewEdges(xs[|xs| - 1])
  }

  /** How many elements are bare ids, each of which builds a node and takes an internal id. */
  function IdElemCount(xs: seq<Element>): nat
  {
    if xs == [] then 0 else IdElemCount(xs[..|xs| - 1]) + (if xs[|xs| - 1].IdElem? then 1 else 0)
  }

  /**
   * What `add_all` records for one element: the node's or the edge's internal id, or, for a
   * bare id, the internal id `next` the node built for it takes.
   */
  function AdditionItem(x: Element, next: int): seq<Item>
  {
    match x
    case NodeElem(n) => [NodeItem(n.internalId)]
    case EdgeElem(e) => [EdgeItem(e.internalId)]
    case IdElem(_) => [NodeItem(next)]
  }

  /** The batch `add_all(xs)` sends when every element is accepted, internal ids counting from `next`. */
  function AdditionItems(xs: seq<Element>, next: int): (r: seq<Item>)
    ensures |r| == |xs|
  {
    if xs == [] then []
    else AdditionItems(xs[..|xs| - 1], next) + AdditionItem(xs[|xs| - 1], next + IdElemCount(xs[..|xs| - 1]))
  }

  /** The nodes given as elements. */
  function NodeSet(xs: seq<Element>): set<Node>
  {
    set x | x in xs && x.NodeElem? :: x.node
  }

  /** The edges given as elements. */
  function EdgeSet(xs: seq<Element>): set<Edge>
  {
    set x | x in xs && x.EdgeElem? :: x.edge
  }

  /** What one more element adds to the ids, the edges, the count and the batch of an `add_all` prefix. */
  lemma AddPrefixStep(xs: seq<Element>, k: nat, next: int)
    requires k < |xs|
    ensures AddedIds(xs[..k + 1]) == AddedIds(xs[..k]) + NewIds(xs[k])
    ensures AddedEdges(xs[..k + 1]) == AddedEdges(xs[..k]) + NewEdges(xs[k])
    ensures ListedEdges(xs[..k + 1]) == ListedEdges(xs[..k]) + ElementEdges(xs[k])
    ensures IdElemCount(xs[..k + 1]) == IdElemCount(xs[..k]) + (if xs[k].IdElem? then 1 else 0)
    ensures AdditionItems(xs[..k + 1], next) == AdditionItems(xs[..k], next) + AdditionItem(xs[k], next + IdElemCount(xs[..k]))
  {
    assert xs[..k + 1][..k] == xs[..k];
  }

  /** The batch of an `add_all` prefix grows by the item of the next element. */
  lemma ItemsStep(xs: seq<Element>, k: nat, next0: int, next1: int, items: seq<Item>, item: seq<Item>)
    requires k < |xs|
    requires items == AdditionItems(xs[..k], next0)
    requires next1 == next0 + IdElemCount(xs[..k])
    requires item == AdditionItem(xs[k], next1)
    ensures items + item == AdditionItems(xs[..k + 1], next0)
    ensures IdElemCount(xs[..k + 1]) == IdElemCount(xs[..k]) + (if xs[k].IdElem? then 1 else 0)
  {
    AddPrefixStep(xs, k, next0);
  }

  /** The key list, the edge list and the cache of an `add_all` prefix grow by the next element's share. */
  lemma AddedStep(xs: seq<Element>, k: nat, keys0: seq<int>, keys1: seq<int>, keys2: seq<int>,
                  edges0: seq<Edge>, edges1: seq<Edge>, edges2: seq<Edge>,
                  cache0: set<Edge>, cache1: set<Edge>, cache2: set<Edge>)
    requires k < |xs|
    requires keys1 == keys0 + AddedIds(xs[..k]) && keys2 == keys1 + NewIds(xs[k])
    requires edges1 == edges0 + AddedEdges(xs[..k]) && edges2 == edges1 + NewEdges(xs[k])
    requires cache1 == cache0 + ListedEdges(xs[..k]) && cache2 == cache1 + ElementEdges(xs[k])
    ensures keys2 == keys0 + AddedIds(xs[..k + 1])
    ensures edges2 == edges0 + AddedEdges(xs[..k + 1])
    ensures cache2 == cache0 + ListedEdges(xs[..k + 1])
  {
    AddPrefixStep(xs, k, 0);
    assert keys2 == keys0 + (AddedIds(xs[..k]) + NewIds(xs[k]));
    assert edges2 == edges0 + (AddedEdges(xs[..k]) + NewEdges(xs[k]));
  }

  /** Every entry of `before` is still in `after`, under the same id. */
  predicate Extends(before: map<int, Node>, after: map<int, Node>)
  {
    forall i | i in before :: i in after && after[i] == before[i]
  }

  /** Every node given in `xs` is filed in `nodes` under its own id. */
  predicate Filed(nodes: map<int, Node>, xs: seq<Element>)
  {
    forall x | x in xs && x.NodeElem? :: x.node.id in nodes && nodes[x.node.id] == x.node
  }

  /**
   * Entries already filed stay filed, and the node of the next element, once accepted, is
   * filed under its id.
   */
  lemma FiledStep(xs: seq<Element>, k: nat, nodes0: map<int, Node>, nodes1: map<int, Node>, nodes2: map<int, Node>)
    requires k < |xs|
    requires Extends(nodes0, nodes1) && Filed(nodes1, xs[..k])
    requires Extends(nodes1, nodes2)
    requires xs[k].NodeElem? ==> xs[k].node.id in nodes2 && nodes2[xs[k].node.id] == xs[k].node
    ensures Extends(nodes0, nodes2) && Filed(nodes2, xs[..k + 1])
  {
    forall x | x in xs[..k + 1] && x.NodeElem?
      ensures x.node.id in nodes2 && nodes2[x.node.id] == x.node
    {
      if x != xs[k] {
        assert x in xs[..k] by {
          var j :| 0 <= j < k + 1 && xs[..k + 1][j] == x;
          assert xs[..k][j] == x;
        }
      }
    }
  }

  /** Deleting an absent key leaves a dictionary as it is. */
  lemma Unnamed<K, V>(m: map<K, V>, k: K)
    requires k !in m
    ensures m - {k} == m
  {
  }

  /** The key list after `remove_node(id)`, found or not, is the old one without `id`. */
  lemma NamedKeys(keys0: seq<int>, keys1: seq<int>, id: int, found: bool)
    requires found ==> keys1 == Without(keys0, id)
    requires !found ==> keys1 == keys0 && id !in keys0
    ensures keys1 == Excluding(keys0, {id})
  {
    if found {
      WithoutIsExcluding(keys0, id);
    } else {
      ExcludingSame(keys0, {id}, {});
    }
  }

  /** Dropping `removed` from a list of cached edges drops exactly what leaves the cache. */
  lemma NamedEdges(edges0: seq<Edge>, edges1: seq<Edge>, cache0: set<Edge>, cache1: set<Edge>, removed: set<Edge>)
    requires forall f | f in edges0 :: f in cache0
    requires cache1 == cache0 - removed && edges1 == Excluding(edges0, removed)
    ensures edges1 == Excluding(edges0, cache0 - cache1)
  {
    ExcludingSame(edges0, removed, cache0 - cache1);
  }

  /** `remove_edge(e)` on a list of cached edges drops exactly what leaves the cache. */
  lemma EdgeRemoval(es: seq<Edge>, cache0: set<Edge>, cache1: set<Edge>, e: Edge)
    requires forall f | f in es :: f in cache0
    requires cache1 == cache0 - {e}
    ensures Without(es, e) == Excluding(es, cache0 - cache1)
  {
    WithoutIsExcluding(es, e);
    ExcludingSame(es, {e}, cache0 - cache1);
  }

  /** What `set_directed` on each edge of `es` queues, in order, with the flag `on`. */
  function DirectedEvents(es: seq<Edge>, d: bool, on: bool): (r: seq<Event>)
    ensures |r| == |es|
    ensures forall i | 0 <= i < |es| :: r[i] == Event(SetDirectedCmd(es[i].internalId, d), on)
  {
    if es == [] then [] else DirectedEvents(es[..|es| - 1], d, on) + [Event(SetDirectedCmd(es[|es| - 1].internalId, d), on)]
  }

  /** The events for a one-longer prefix are those for the prefix and one more. */
  lemma DirectedEventsStep(es: seq<Edge>, k: nat, d: bool, on: bool)
    requires k < |es|
    ensures DirectedEvents(es[..k + 1], d, on) == DirectedEvents(es[..k], d, on) + [Event(SetDirectedCmd(es[k].internalId, d), on)]
  {
    assert es[..k + 1][..k] == es[..k];
  }

  /** What `remove_edge` queues for each edge of `es` while events are disabled, in order. */
  function SilentRemovals(es: seq<Edge>): (r: seq<Event>)
    ensures |r| == |es|
  {
    if es == [] then [] else SilentRemovals(es[..|es| - 1]) + [Event(RemoveEdgeCmd(es[|es| - 1].internalId), false)]
  }

  /** The i-th silent event removes the i-th edge of the list, with events off. */
  lemma {:induction false} SilentRemovalsAt(es: seq<Edge>)
    ensures forall i | 0 <= i < |es| :: SilentRemovals(es)[i] == Event(RemoveEdgeCmd(es[i].internalId), false)
  {
    if es != [] {
      SilentRemovalsAt(es[..|es| - 1]);
    }
  }

  class Graph {
    var nodes: map<int, Node>
    /** The dictionary's keys in insertion order, the order `nodes()` lists them in. */
    var keys: seq<int>
    var edges: seq<Edge>
    var cache: set<Edge>
    /** The member nodes, that is, the values of `nodes`. */
    ghost var members: set<Node>
    var spread: int
    const log: EventLog

    constructor (log: EventLog)
      ensures Valid()
      ensures nodes == map[] && keys == [] && edges == [] && cache == {} && spread == DefaultSpread
      ensures this.log == log
    {
      nodes := map[];
      keys := [];
      edges := [];
      cache := {};
      members := {};
      spread := DefaultSpread;
      this.log := log;
    }

    /**
     * Every node is filed under its own id, `members` holds exactly the filed nodes, and the
     * key list lists each key once.
     */
    ghost predicate Keyed()
      reads this
    {
      && (forall k {:trigger nodes[k]} | k in nodes :: nodes[k].id == k && nodes[k] in members)
      && (forall n {:trigger n in members} | n in members :: n.id in nodes && nodes[n.id] == n)
      && Distinct(keys)
      && (forall k {:trigger k in keys} | k in keys :: k in nodes)
      && (forall k {:trigger k in nodes} | k in nodes :: k in keys)
    }

    /** The edge list holds each cached edge exactly once and nothing else. */
    ghost predicate Listed()
      reads this
    {
      && Distinct(edges)
      && (forall e {:trigger e in edges} | e in edges :: e in cache)
      && (forall e {:trigger e in cache} | e in cache :: e in edges)
    }

    /** Both endpoints of every cached edge are member nodes. */
    ghost predicate Anchored()
      reads this, cache`source, cache`target
    {
      forall e {:trigger e in cache} | e in cache :: e.source in members && e.target in members
    }

    /**
     * A member's incident list holds only cached edges, each as many times as the member is
     * one of its endpoints.
     */
    ghost predicate Incidence()
      reads this, members`incident, cache`source, cache`target
    {
      && (forall n, e {:trigger e in n.incident} | n in members && e in n.incident :: e in cache)
      && (forall n, e {:trigger multiset(n.incident)[e]} | n in members && e in cache :: multiset(n.incident)[e] == EndCount(e, n))
    }

    ghost predicate Valid()
      reads this, members`incident, cache`source, cache`target
    {
      Keyed() && Listed() && Anchored() && Incidence()
    }

    /** `node(x)`: the member filed under the id, if any. */
    function Lookup(id: int): (r: Option<Node>)
      reads this
      requires Keyed()
      ensures r.Some? <==> id in nodes
      ensures r.Some? ==> r.value.id == id && r.value in members
    {
      if id in nodes then Some(nodes[id]) else None
    }

    /**
     * `node(n)` for a Node goes by its id: any node equal to a member, the member itself or
     * another instance with its id, resolves to that member.
     */
    lemma LookupEqual(n: Node, m: Node)
      requires Keyed() && m in members && n.Equals(m)
      ensures Lookup(n.id) == Some(m)
    {
    }

    /** `has_node(x)`. */
    function HasNode(id: int): (b: bool)
      reads this
      requires Keyed()
      ensures b <==> Lookup(id).Some?
    {
      id in nodes
    }

    /** `has_edge(e)`: membership of the very instance, through the cache. */
    function HasEdge(e: Edge): (b: bool)
      reads this
      requires Listed()
      ensures b <==> e in edges
    {
      e in cache
    }

    /**
     * The cache is a dictionary keyed by edges, so `edge in cache` asks for a key equal to `e`
     * under `__eq__` (the same internal id). Internal ids come from one global counter, so no
     * other edge shares `e`'s id, and then membership of the instance is the same answer.
     */
    lemma HasEdgeByEquality(e: Edge)
      requires Listed()
      requires forall f | f in cache && f.internalId == e.internalId :: f == e
      ensures HasEdge(e) <==> exists f | f in cache :: f.Equals(e)
    {
    }

    /** `order()`: as many as `nodes()` lists. */
    function Order(): (k: nat)
      reads this
      requires Keyed()
      ensures k == |keys|
    {
      assert forall k | k in keys :: k in nodes;
      assert forall k | k in nodes :: k in keys;
      DistinctCardinality(keys, nodes.Keys);
      |nodes|
    }

    /** `size()`: as many as there are member edges. */
    function Size(): (k: nat)
      reads this
      requires Listed()
      ensures k == |cache|
    {
      DistinctCardinality(edges, cache);
      |edges|
    }

    /** `nodes()`: every member once, in insertion order. */
    function Nodes(): (r: seq<Node>)
      reads this
      requires Keyed()
      ensures |r| == |keys|
      ensures forall k | k in nodes :: nodes[k] in r
      ensures forall i | 0 <= i < |r| :: r[i].id == keys[i] && r[i].id in nodes && nodes[r[i].id] == r[i]
      ensures Distinct(r)
    {
      assert forall k | k in keys :: k in nodes;
      assert forall i | 0 <= i < |keys| :: keys[i] in keys;
      var r := seq(|keys|, i requires 0 <= i < |keys| && keys[i] in nodes reads this => nodes[keys[i]]);
      assert forall i | 0 <= i < |keys| :: r[i] == nodes[keys[i]] && r[i].id == keys[i];
      assert forall k | k in nodes :: nodes[k] in r by {
        forall k | k in nodes ensures nodes[k] in r {
          var i :| 0 <= i < |keys| && keys[i] == k;
          assert r[i] == nodes[k];
        }
      }
      DistinctIndices(keys);
      DistinctIndices(r);
      r
    }

    /**
     * `add_node(node)`: a duplicate id is refused before any change; otherwise the node is
     * filed under its id, one add command and a pause of 25 are logged.
     */
    method AddNode(n: Node) returns (r: Result<Node>)
      requires Valid()
      requires n.id in nodes || n.incident == []
      modifies this`nodes, this`keys, this`members, log`events
      ensures Valid()
      ensures r.Err? <==> n.id in old(nodes)
      ensures r.Err? ==> r.error == DuplicateNode(n.id) && nodes == old(nodes) && keys == old(keys) && log.events == old(log.events)
      ensures r.Ok? ==> r.value == n && nodes == old(nodes)[n.id := n] && keys == old(keys) + [n.id]
      ensures members == if r.Ok? then old(members) + {n} else old(members)
      ensures r.Ok? ==> log.events == old(log.events) + [Event(AddNodeCmd(n.internalId), log.enabled)] + [Event(PauseCmd(NodePause), log.enabled)]
    {
      if n.id in nodes {
        return Err(DuplicateNode(n.id));
      }
      nodes := nodes[n.id := n];
      keys := keys + [n.id];
      members := members + {n};
      FileKeepsValid(n);
      log.AddAndPause(AddNodeCmd(n.internalId), NodePause);
      r := Ok(n);
    }

    /** Filing a node with a fresh id and no incident edges keeps the invariant. */
    twostate lemma FileKeepsValid(n: Node)
      requires old(Valid())
      requires n.id !in old(nodes) && n.incident == []
      requires nodes == old(nodes)[n.id := n] && keys == old(keys) + [n.id] && members == old(members) + {n}
      requires edges == old(edges) && cache == old(cache)
      requires forall m | m in old(members) :: m.incident == old(m.incident)
      requires forall f | f in cache :: f.source == old(f.source) && f.target == old(f.target)
      ensures Valid()
    {
      assert n !in old(members);
      assert Keyed() by {
        assert n.id !in old(keys);
      }
      assert Anchored();
      forall m, f | m in members && f in m.incident
        ensures f in cache
      {
        assert m in old(members);
        assert old(f in m.incident);
      }
      forall m, f | m in members && f in cache
        ensures multiset(m.incident)[f] == EndCount(f, m)
      {
        if m == n {
          assert old(f.source in members && f.target in members);
        } else {
          assert old(multiset(m.incident)[f] == EndCount(f, m));
        }
      }
    }
  
    /**
     * `add_edge(e)`: refused, with nothing changed, when the instance is already a member or
     * an endpoint's id is not; otherwise the endpoints are replaced by the graph's own nodes,
     * the edge is appended to the source's list, to the target's list (twice to one list for
     * a self-loop), to the edge list and to the cache, and one add command is logged, without
     * a pause.
     */
    method AddEdge(e: Edge) returns (r: Result<Edge>)
      requires Valid()
      modifies this`edges, this`cache, e`source, e`target, members`incident, log`events
      ensures Valid()
      ensures nodes == old(nodes) && keys == old(keys) && members == old(members)
      ensures r == Err(DuplicateEdge) <==> e in old(cache)
      ensures r == Err(UnknownNode(old(e.source.id))) <==> e !in old(cache) && old(e.source.id) !in nodes
      ensures r.Err? && r.error != DuplicateEdge && r.error != UnknownNode(old(e.source.id)) <==>
        e !in old(cache) && old(e.source.id) in nodes && old(e.target.id) !in nodes
      ensures r.Err? ==> r.error == DuplicateEdge || r.error == UnknownNode(old(e.source.id)) || r.error == UnknownNode(old(e.target.id))
      ensures r.Err? ==> edges == old(edges) && cache == old(cache) && log.events == old(log.events)
      ensures r.Err? ==> e.source == old(e.source) && e.target == old(e.target)
      ensures r.Err? ==> forall n | n in members :: n.incident == old(n.incident)
      ensures r.Ok? ==> r.value == e && HasEdge(e)
      ensures r.Ok? ==> e.source == nodes[old(e.source.id)] && e.target == nodes[old(e.target.id)]
      ensures r.Ok? ==> edges == old(edges) + [e] && cache == old(cache) + {e}
      ensures r.Ok? ==> var s, t := e.source, e.target;
        && (s != t ==> s.incident == old(s.incident) + [e] && t.incident == old(t.incident) + [e])
        && (s == t ==> s.incident == old(s.incident) + [e, e])
        && (forall n | n in members && n != s && n != t :: n.incident == old(n.incident))
      ensures r.Ok? ==> log.events == old(log.events) + [Event(AddEdgeCmd(e.internalId), log.enabled)]
    {
      if e in cache {
        return Err(DuplicateEdge);
      }
      if e.source.id !in nodes {
        return Err(UnknownNode(e.source.id));
      }
      if e.target.id !in nodes {
        return Err(UnknownNode(e.target.id));
      }
      var s := nodes[e.source.id];
      var t := nodes[e.target.id];
      log.Add(AddEdgeCmd(e.internalId));
      Attach(e, s, t);
      AttachKeepsValid(e);
      r := Ok(e);
    }

    /** The updates of a successful `add_edge`, once the endpoints are resolved to `s` and `t`. */
    method Attach(e: Edge, s: Node, t: Node)
      modifies this`edges, this`cache, e`source, e`target, s`incident, t`incident
      ensures e.source == s && e.target == t
      ensures s != t ==> s.incident == old(s.incident) + [e] && t.incident == old(t.incident) + [e]
      ensures s == t ==> s.incident == old(s.incident) + [e, e]
      ensures edges == old(edges) + [e] && cache == old(cache) + {e}
    {
      e.source := s;
      e.target := t;
      s.incident := s.incident + [e];
      t.incident := t.incident + [e];
      edges := edges + [e];
      cache := cache + {e};
    }

    twostate lemma AttachKeepsValid(e: Edge)
      requires old(Valid())
      requires e !in old(cache) && e.source in old(members) && e.target in old(members)
      requires nodes == old(nodes) && keys == old(keys) && members == old(members)
      requires edges == old(edges) + [e] && cache == old(cache) + {e}
      requires forall f | f in old(cache) :: f.source == old(f.source) && f.target == old(f.target)
      requires forall n | n in members && n != e.source && n != e.target :: n.incident == old(n.incident)
      requires var s, t := e.source, e.target;
        && (s != t ==> s.incident == old(s.incident) + [e] && t.incident == old(t.incident) + [e])
        && (s == t ==> s.incident == old(s.incident) + [e, e])
      ensures Valid()
    {
      assert Keyed();
      assert Listed() by {
        assert e !in old(edges);
      }
      assert Anchored();
      forall n, f | n in members && f in cache
        ensures multiset(n.incident)[f] == EndCount(f, n)
      {
        assert e !in old(n.incident);
        if f != e {
          assert old(multiset(n.incident)[f] == EndCount(f, n));
        }
        var s, t := e.source, e.target;
        if n == s && n == t {
          assert n.incident == old(n.incident) + [e, e];
        } else if n == s {
          assert n.incident == old(n.incident) + [e];
        } else if n == t {
          assert n.incident == old(n.incident) + [e];
        } else {
          assert n.incident == old(n.incident);
        }
      }
    }
  
    /**
     * `remove_edge(e)`: the first copy of `e` goes from its source's list and then from its
     * target's list (both copies of a self-loop), from the edge list and from the cache; the
     * remove command is logged and `e` returned even when it was not a member.
     */
    method RemoveEdge(e: Edge) returns (r: Edge)
      requires Valid()
      modifies this`edges, this`cache, e.source`incident, e.target`incident, log`events
      ensures Valid()
      ensures r == e
      ensures nodes == old(nodes) && keys == old(keys) && members == old(members)
      ensures edges == Without(old(edges), e) && cache == old(cache) - {e}
      ensures e.source != e.target ==>
        e.source.incident == RemoveFirst(old(e.source.incident), e) && e.target.incident == RemoveFirst(old(e.target.incident), e)
      ensures e.source == e.target ==> e.source.incident == RemoveFirst(RemoveFirst(old(e.source.incident), e), e)
      ensures e in old(cache) ==> e !in e.source.incident && e !in e.target.incident
      ensures log.events == old(log.events) + [Event(RemoveEdgeCmd(e.internalId), log.enabled)]
    {
      log.Add(RemoveEdgeCmd(e.internalId));
      Detach(e);
      DetachKeepsValid(e);
      r := e;
    }

    /**
     * The updates of `remove_edge(e)`. Each guarded `list.remove` of the library is a
     * `RemoveFirst`, which leaves a list without `e` as it is.
     */
    method Detach(e: Edge)
      modifies this`edges, this`cache, e.source`incident, e.target`incident
      ensures e.source != e.target ==>
        e.source.incident == RemoveFirst(old(e.source.incident), e) && e.target.incident == RemoveFirst(old(e.target.incident), e)
      ensures e.source == e.target ==> e.source.incident == RemoveFirst(RemoveFirst(old(e.source.incident), e), e)
      ensures edges == RemoveFirst(old(edges), e) && cache == old(cache) - {e}
    {
      var s, t := e.source, e.target;
      s.incident := RemoveFirst(s.incident, e);
      t.incident := RemoveFirst(t.incident, e);
      edges := RemoveFirst(edges, e);
      cache := cache - {e};
    }

    twostate lemma DetachKeepsValid(e: Edge)
      requires old(Valid())
      requires nodes == old(nodes) && keys == old(keys) && members == old(members)
      requires edges == RemoveFirst(old(edges), e) && cache == old(cache) - {e}
      requires forall f | f in old(cache) :: f.source == old(f.source) && f.target == old(f.target)
      requires forall m | m in members && m != e.source && m != e.target :: m.incident == old(m.incident)
      requires e.source == old(e.source) && e.target == old(e.target)
      requires e.source != e.target ==>
        e.source.incident == RemoveFirst(old(e.source.incident), e) && e.target.incident == RemoveFirst(old(e.target.incident), e)
      requires e.source == e.target ==> e.source.incident == RemoveFirst(RemoveFirst(old(e.source.incident), e), e)
      ensures Valid()
      ensures edges == Without(old(edges), e)
      ensures e in old(cache) ==> e !in e.source.incident && e !in e.target.incident
    {
      RemoveFirstOfDistinct(old(edges), e);
      assert Keyed();
      assert Listed();
      assert Anchored();
      DetachCounts(e);
      DetachKeepsIncidence(e);
      if e in old(cache) {
        assert e.source in members && e.target in members;
      }
    }

    twostate lemma DetachKeepsIncidence(e: Edge)
      requires old(Incidence())
      requires members == old(members) && cache == old(cache) - {e}
      requires forall f | f in old(cache) :: f.source == old(f.source) && f.target == old(f.target)
      requires forall m, f | m in members ::
        multiset(m.incident)[f] == if f == e then 0 else old(multiset(m.incident))[f]
      ensures Incidence()
    {
      forall m, f | m in members && f in cache
        ensures multiset(m.incident)[f] == EndCount(f, m)
      {
        assert old(multiset(m.incident)[f] == EndCount(f, m));
      }
      forall m, f | m in members && f in m.incident
        ensures f in cache
      {
        assert multiset(m.incident)[f] > 0;
        assert old(f in m.incident);
      }
    }

    /** Every copy of `e` leaves every member's list, and every other count stays. */
    twostate lemma DetachCounts(e: Edge)
      requires old(Incidence())
      requires members == old(members)
      requires forall m | m in members && m != e.source && m != e.target :: m.incident == old(m.incident)
      requires e.source == old(e.source) && e.target == old(e.target)
      requires e.source != e.target ==>
        e.source.incident == RemoveFirst(old(e.source.incident), e) && e.target.incident == RemoveFirst(old(e.target.incident), e)
      requires e.source == e.target ==> e.source.incident == RemoveFirst(RemoveFirst(old(e.source.incident), e), e)
      ensures forall m, f | m in members ::
        multiset(m.incident)[f] == if f == e then 0 else old(multiset(m.incident))[f]
    {
      forall m, f | m in members
        ensures multiset(m.incident)[f] == if f == e then 0 else old(multiset(m.incident))[f]
      {
        if e in old(cache) {
          assert old(multiset(m.incident)[e] == EndCount(e, m));
        } else {
          assert old(e !in m.incident);
        }
        var copies := if m == e.source && m == e.target then 2 else if m == e.source || m == e.target then 1 else 0;
        DropCopies(old(m.incident), m.incident, e, copies, f);
      }
    }

    /**
     * `remove_node(x)`: an unknown id changes nothing. Otherwise every edge of a copy of the
     * node's list is removed with events disabled, events are enabled again (whatever they
     * were before), the id is deleted, and a remove command and a pause of 25 are logged.
     */
    method RemoveNode(id: int) returns (r: Option<Node>)
      requires Valid()
      modifies this`nodes, this`keys, this`members, this`edges, this`cache, members`incident, log`events, log`enabled
      ensures Valid()
      ensures r.None? <==> id !in old(nodes)
      ensures r.None? ==> nodes == old(nodes) && keys == old(keys) && edges == old(edges) && cache == old(cache)
      ensures r.None? ==> log.events == old(log.events) && log.enabled == old(log.enabled)
      ensures r.None? ==> forall m | m in members :: m.incident == old(m.incident)
      ensures r.Some? ==> r.value == old(nodes)[id] && r.value.incident == []
      ensures r.Some? ==> nodes == old(nodes) - {id} && keys == Without(old(keys), id) && members == old(members) - {r.value}
      ensures r.Some? ==> cache == old(cache) - AsSet(old(r.value.incident))
      ensures r.Some? ==> edges == Excluding(old(edges), AsSet(old(r.value.incident)))
      ensures r.Some? ==> forall f | f in old(cache) :: f in cache <==> f.source != r.value && f.target != r.value
      ensures r.Some? ==> log.enabled
      ensures r.Some? ==>
        log.events == old(log.events) + SilentRemovals(old(r.value.incident)) + [Event(RemoveNodeCmd(r.value.internalId), true), Event(PauseCmd(NodePause), true)]
    {
      if id !in nodes {
        return None;
      }
      var n := nodes[id];
      Evict(n);
      log.AddAndPause(RemoveNodeCmd(n.internalId), NodePause);
      r := Some(n);
    }

    /**
     * `remove_node` for a member, up to its own command: the edges go with events disabled,
     * events come back on, and the id is deleted.
     */
    method Evict(n: Node)
      requires Valid() && n in members
      modifies this`nodes, this`keys, this`members, this`edges, this`cache, members`incident, log`events, log`enabled
      ensures Valid()
      ensures n.incident == []
      ensures nodes == old(nodes) - {n.id} && keys == Without(old(keys), n.id) && members == old(members) - {n}
      ensures cache == old(cache) - AsSet(old(n.incident))
      ensures edges == Excluding(old(edges), AsSet(old(n.incident)))
      ensures forall f | f in old(cache) :: f in cache <==> f.source != n && f.target != n
      ensures log.enabled && log.events == old(log.events) + SilentRemovals(old(n.incident))
    {
      Isolate(n);
      Unfile(n);
    }

    /**
     * The first half of `remove_node`: events off, `remove_edge` on each edge of a copy of the
     * node's list, events back on.
     */
    method Isolate(n: Node)
      requires Valid() && n in members
      modifies this`edges, this`cache, members`incident, log`events, log`enabled
      ensures Valid()
      ensures n.incident == []
      ensures cache == old(cache) - AsSet(old(n.incident))
      ensures edges == Excluding(old(edges), AsSet(old(n.incident)))
      ensures forall f | f in cache :: f.source != n && f.target != n
      ensures forall f | f in old(cache) && f.source != n && f.target != n :: f in cache
      ensures log.enabled && log.events == old(log.events) + SilentRemovals(old(n.incident))
    {
      var incident := n.incident;
      log.EnableEvents(false);
      DetachAll(incident);
      log.EnableEvents(true);
      Severed(n);
    }

    /** The loop of `remove_node`: `remove_edge` on each edge of the copied list, in order. */
    method DetachAll(incident: seq<Edge>)
      requires Valid()
      requires forall f | f in incident :: f in cache
      requires !log.enabled
      modifies this`edges, this`cache, members`incident, log`events
      ensures Valid()
      ensures cache == old(cache) - AsSet(incident)
      ensures edges == Excluding(old(edges), AsSet(incident))
      ensures log.events == old(log.events) + SilentRemovals(incident)
    {
      assert forall f | f in incident :: f.source in members && f.target in members;
      var i := 0;
      while i < |incident|
        invariant 0 <= i <= |incident|
        invariant Valid()
        invariant forall f | f in incident :: f.source in members && f.target in members
        invariant cache == old(cache) - AsSet(incident[..i])
        invariant edges == Excluding(old(edges), AsSet(incident[..i]))
        invariant log.events == old(log.events) + SilentRemovals(incident[..i])
      {
        DetachNext(incident, i, old(cache), old(edges), old(log.events));
        i := i + 1;
      }
      assert incident[..i] == incident;
    }

    /**
     * One turn of that loop: `remove_edge(incident[i])` with events disabled, taking the state
     * after the first `i` removals to the state after `i + 1`.
     */
    method DetachNext(incident: seq<Edge>, i: nat, ghost cache0: set<Edge>, ghost edges0: seq<Edge>, ghost events0: seq<Event>)
      requires Valid() && !log.enabled
      requires i < |incident|
      requires incident[i].source in members && incident[i].target in members
      requires cache == cache0 - AsSet(incident[..i])
      requires edges == Excluding(edges0, AsSet(incident[..i]))
      requires log.events == events0 + SilentRemovals(incident[..i])
      modifies this`edges, this`cache, members`incident, log`events
      ensures Valid()
      ensures cache == cache0 - AsSet(incident[..i + 1])
      ensures edges == Excluding(edges0, AsSet(incident[..i + 1]))
      ensures log.events == events0 + SilentRemovals(incident[..i + 1])
    {
      var removed := RemoveEdge(incident[i]);
      Advance(edges0, incident, i);
    }

    /** Once every edge first listed at `n` has left the cache, no cached edge touches `n`. */
    twostate lemma Severed(n: Node)
      requires old(Valid()) && Valid()
      requires n in old(members) && members == old(members)
      requires cache == old(cache) - AsSet(old(n.incident))
      requires forall f | f in old(cache) :: f.source == old(f.source) && f.target == old(f.target)
      ensures n.incident == []
      ensures forall f | f in cache :: f.source != n && f.target != n
      ensures forall f | f in old(cache) && f.source != n && f.target != n :: f in cache
    {
      forall f | f in old(cache) && f.source != n && f.target != n
        ensures f in cache
      {
        assert old(multiset(n.incident)[f] == EndCount(f, n));
      }
      forall f | f in cache
        ensures f.source != n && f.target != n
      {
        assert f in old(cache) && f !in old(n.incident);
        assert old(multiset(n.incident)[f] == EndCount(f, n));
      }
      forall f
        ensures multiset(n.incident)[f] == 0
      {
        if f in cache {
          assert multiset(n.incident)[f] == EndCount(f, n);
        } else {
          assert f !in n.incident;
        }
      }
      assert multiset(n.incident) == multiset{};
    }

    /** `del self._nodes[n.id()]` for a node no cached edge touches. */
    method Unfile(n: Node)
      requires Valid()
      requires n in members && n.incident == []
      requires forall f | f in cache :: f.source != n && f.target != n
      modifies this`nodes, this`keys, this`members
      ensures Valid()
      ensures nodes == old(nodes) - {n.id} && keys == Without(old(keys), n.id) && members == old(members) - {n}
    {
      WithoutPreservesDistinct(keys, n.id);
      nodes := nodes - {n.id};
      keys := Without(keys, n.id);
      members := members - {n};
      UnfileKeepsValid(n);
    }

    twostate lemma UnfileKeepsValid(n: Node)
      requires old(Valid())
      requires n in old(members)
      requires forall f | f in cache :: f.source != n && f.target != n
      requires nodes == old(nodes) - {n.id} && keys == Without(old(keys), n.id) && members == old(members) - {n}
      requires Distinct(keys)
      requires edges == old(edges) && cache == old(cache)
      requires forall f | f in cache :: f.source == old(f.source) && f.target == old(f.target)
      requires forall m | m in members :: m.incident == old(m.incident)
      ensures Valid()
    {
      assert Keyed();
      assert Listed();
      assert Anchored();
      forall m, f | m in members && f in m.incident
        ensures f in cache
      {
        assert old(f in m.incident);
      }
      forall m, f | m in members && f in cache
        ensures multiset(m.incident)[f] == EndCount(f, m)
      {
        assert old(multiset(m.incident)[f] == EndCount(f, m));
      }
    }

    /**
     * `add_node(id)`, and `add_node()` with no id: a node is built first, taking the next user
     * id when none is given and always the next internal id, and then filed as `add_node(node)`
     * files it.
     */
    method AddNodeById(id: Option<int>, userIds: IdGenerator, globalIds: IdGenerator) returns (r: Result<Node>)
      requires Valid() && userIds != globalIds
      modifies this`nodes, this`keys, this`members, log`events, userIds`next, globalIds`next
      ensures Valid()
      ensures userIds.next == old(userIds.next) + (if id.None? then 1 else 0)
      ensures globalIds.next == old(globalIds.next) + 1
      ensures var chosen := if id.Some? then id.value else old(userIds.next);
        && (r.Err? <==> chosen in old(nodes))
        && (r.Err? ==> r.error == DuplicateNode(chosen) && nodes == old(nodes) && keys == old(keys) && log.events == old(log.events))
        && (r.Ok? ==> fresh(r.value) && r.value.id == chosen && r.value.internalId == old(globalIds.next) && r.value.incident == [])
        && (r.Ok? ==> nodes == old(nodes)[chosen := r.value] && keys == old(keys) + [chosen])
        && (r.Ok? ==> log.events == old(log.events) + [Event(AddNodeCmd(r.value.internalId), log.enabled), Event(PauseCmd(NodePause), log.enabled)])
    {
      var chosen: int;
      if id.Some? {
        chosen := id.value;
      } else {
        chosen := userIds.Next();
      }
      r := AddFreshNode(chosen, globalIds);
    }

    /** `add_node(Node(id))`: a node built with the next internal id, then filed as `add_node(node)` files it. */
    method AddFreshNode(id: int, globalIds: IdGenerator) returns (r: Result<Node>)
      requires Valid()
      modifies this`nodes, this`keys, this`members, log`events, globalIds`next
      ensures Valid()
      ensures globalIds.next == old(globalIds.next) + 1
      ensures r.Err? <==> id in old(nodes)
      ensures r.Err? ==> r.error == DuplicateNode(id) && nodes == old(nodes) && keys == old(keys) && log.events == old(log.events)
      ensures members == if r.Ok? then old(members) + {r.value} else old(members)
      ensures r.Ok? ==> fresh(r.value) && r.value.id == id && r.value.internalId == old(globalIds.next) && r.value.incident == []
      ensures r.Ok? ==> nodes == old(nodes)[id := r.value] && keys == old(keys) + [id]
      ensures r.Ok? ==> log.events == old(log.events) + [Event(AddNodeCmd(r.value.internalId), log.enabled), Event(PauseCmd(NodePause), log.enabled)]
    {
      var internal := globalIds.Next();
      var n := new Node(id, internal);
      r := AddNode(n);
    }

    /**
     * `add_edge(u, v, directed=...)` with ids: the edge is built first, taking the next internal
     * id, and then added as `add_edge(e)` adds it; being new, it can only be refused for an
     * unknown endpoint, the source being checked first.
     */
    method AddEdgeBetween(u: int, v: int, directed: bool, globalIds: IdGenerator) returns (r: Result<Edge>)
      requires Valid()
      modifies this`edges, this`cache, members`incident, log`events, globalIds`next
      ensures Valid()
      ensures globalIds.next == old(globalIds.next) + 1
      ensures nodes == old(nodes) && keys == old(keys) && members == old(members)
      ensures r.Err? <==> u !in nodes || v !in nodes
      ensures r.Err? ==> r.error == UnknownNode(if u !in nodes then u else v)
      ensures r.Err? ==> edges == old(edges) && cache == old(cache) && log.events == old(log.events)
      ensures r.Err? ==> forall n | n in members :: n.incident == old(n.incident)
      ensures r.Ok? ==> var e := r.value;
        && fresh(e) && e.internalId == old(globalIds.next) && e.directed == directed
        && e.source == nodes[u] && e.target == nodes[v]
        && edges == old(edges) + [e] && cache == old(cache) + {e}
        && (u != v ==> nodes[u].incident == old(nodes[u].incident) + [e] && nodes[v].incident == old(nodes[v].incident) + [e])
        && (u == v ==> nodes[u].incident == old(nodes[u].incident) + [e, e])
        && (forall n | n in members && n != e.source && n != e.target :: n.incident == old(n.incident))
        && log.events == old(log.events) + [Event(AddEdgeCmd(e.internalId), log.enabled)]
    {
      var internal := globalIds.Next();
      if u !in nodes {
        return Err(UnknownNode(u));
      }
      if v !in nodes {
        return Err(UnknownNode(v));
      }
      var e := new Edge(nodes[u], nodes[v], directed, internal);
      r := AddEdge(e);
    }

    /** `set_spread(s)`: the field is set and one command is logged. */
    method SetSpread(s: int)
      requires Valid()
      modifies this`spread, log`events
      ensures Valid()
      ensures spread == s
      ensures log.events == old(log.events) + [Event(SetSpreadCmd(s), log.enabled)]
    {
      spread := s;
      log.Add(SetSpreadCmd(s));
    }

    /**
     * `set_directed(d)`: `set_directed` on every edge of the edge list in order, so every
     * member edge ends up with that direction flag and one command per edge is logged.
     */
    method SetDirected(d: bool)
      requires Valid()
      modifies cache`directed, log`events
      ensures Valid()
      ensures forall f | f in cache :: f.directed == d
      ensures log.events == old(log.events) + DirectedEvents(edges, d, log.enabled)
    {
      DirectEach(d);
      forall f | f in cache
        ensures f.directed == d
      {
        assert f in edges;
        var r :| 0 <= r < |edges| && edges[r] == f;
      }
    }

    /** The loop of `set_directed` over the edge list, in order. */
    method DirectEach(d: bool)
      requires Listed()
      modifies cache`directed, log`events
      ensures forall r | 0 <= r < |edges| :: edges[r].directed == d
      ensures log.events == old(log.events) + DirectedEvents(edges, d, log.enabled)
    {
      var es, k := edges, 0;
      while k < |es|
        invariant 0 <= k <= |es|
        invariant forall r | 0 <= r < k :: es[r].directed == d
        invariant log.events == old(log.events) + DirectedEvents(es[..k], d, log.enabled)
      {
        var e := es[k];
        assert e in cache by {
          assert e in edges;
        }
        e.SetDirected(d, log);
        DirectedEventsStep(es, k, d, log.enabled);
        k := k + 1;
      }
      assert es[..k] == es;
    }

    /**
     * `clear()` as corrected: the incident list of every member is emptied before the three
     * collections are reset, so no node keeps edges of the cleared graph; one clear command is
     * logged.
     */
    method Clear()
      requires Valid()
      modifies this`nodes, this`keys, this`members, this`edges, this`cache, members`incident, log`events
      ensures Valid()
      ensures nodes == map[] && keys == [] && edges == [] && cache == {} && members == {}
      ensures forall n | n in old(members) :: n.incident == []
      ensures log.events == old(log.events) + [Event(ClearCmd, log.enabled)]
    {
      var rows := Nodes();
      var k := 0;
      while k < |rows|
        invariant 0 <= k <= |rows|
        invariant forall r | 0 <= r < k :: rows[r].incident == []
        modifies members`incident
      {
        rows[k].incident := [];
        k := k + 1;
      }
      forall n | n in old(members)
        ensures n.incident == []
      {
        assert nodes[n.id] in rows;
        var r :| 0 <= r < |rows| && rows[r] == n;
      }
      Reset();
      log.Add(ClearCmd);
    }

    /**
     * `clear()` as written: `_reset` replaces the three collections and one clear command is
     * logged, but the former members keep their incident lists.
     */
    method ClearAsWritten()
      requires Valid()
      modifies this`nodes, this`keys, this`members, this`edges, this`cache, log`events
      ensures Valid()
      ensures nodes == map[] && keys == [] && edges == [] && cache == {} && members == {}
      ensures forall n | n in old(members) :: n.incident == old(n.incident)
      ensures log.events == old(log.events) + [Event(ClearCmd, log.enabled)]
    {
      Reset();
      log.Add(ClearCmd);
    }

    /** `_reset()`: empty dictionary, list and cache. */
    method Reset()
      modifies this`nodes, this`keys, this`members, this`edges, this`cache
      ensures Valid()
      ensures nodes == map[] && keys == [] && edges == [] && cache == {} && members == {}
    {
      nodes := map[];
      keys := [];
      edges := [];
      cache := {};
      members := {};
    }

    /**
     * After the as-written `clear`, a former member that had an edge still lists it, and a graph
     * holding only that node is not valid: the edge is listed but not a member.
     */
    lemma StaleAfterClear(n: Node)
      requires nodes == map[n.id := n] && members == {n} && cache == {}
      requires n.incident != []
      ensures !Valid()
    {
      var e := n.incident[0];
      assert e in n.incident;
    }

    /**
     * `remove_all(xs)`: events off; each element removed in order, `remove_edge` for an edge and
     * `remove_node` for a node or id, recording the edges and the nodes found; events on; the
     * batch command and a pause of 55 logged. Every named id is gone afterwards, and so is every
     * listed edge and every edge at a removed node; the other edges keep their order.
     */
    method RemoveAll(xs: seq<Element>)
      requires Valid()
      modifies this`nodes, this`keys, this`members, this`edges, this`cache, members`incident, EdgeEnds(xs)`incident
      modifies log`events, log`enabled
      ensures Valid()
      ensures nodes == old(nodes) - RemovedIds(xs)
      ensures keys == Excluding(old(keys), RemovedIds(xs))
      ensures cache <= old(cache)
      ensures Kept(old(cache), cache, ListedEdges(xs), Gone(old(nodes), RemovedIds(xs)))
      ensures edges == Excluding(old(edges), old(cache) - cache)
      ensures log.enabled
      ensures |log.events| >= 2 && log.events[|log.events| - 2..] ==
        [Event(RemoveAllCmd(RemovalItems(old(nodes), xs)), true), Event(PauseCmd(BatchPause), true)]
    {
      var items := RemoveEach(xs);
      assert this as object != log as object;
      log.EndBatch(RemoveAllCmd(items));
    }

    /** The loop of `remove_all`: events off, every element removed in order, the batch items collected. */
    method RemoveEach(xs: seq<Element>) returns (items: seq<Item>)
      requires Valid()
      modifies this`nodes, this`keys, this`members, this`edges, this`cache, members`incident, EdgeEnds(xs)`incident
      modifies log`events, log`enabled
      ensures Valid()
      ensures nodes == old(nodes) - RemovedIds(xs)
      ensures keys == Excluding(old(keys), RemovedIds(xs))
      ensures cache <= old(cache)
      ensures Kept(old(cache), cache, ListedEdges(xs), Gone(old(nodes), RemovedIds(xs)))
      ensures edges == Excluding(old(edges), old(cache) - cache)
      ensures items == RemovalItems(old(nodes), xs)
      ensures log.enabled == NodeFound(items)
    {
      log.EnableEvents(false);
      items := [];
      ghost var nodes0, keys0, edges0, cache0, members0 := nodes, keys, edges, cache, members;
      var k := 0;
      while k < |xs|
        invariant 0 <= k <= |xs|
        invariant Valid()
        invariant RemovedUpTo(nodes0, keys0, edges0, cache0, members0, xs[..k])
        invariant items == RemovalItems(nodes0, xs[..k])
        invariant log.enabled == NodeFound(items)
      {
        assert xs[k] in xs;
        items := RemoveNext(nodes0, keys0, edges0, cache0, members0, xs, k, items);
        k := k + 1;
      }
      assert xs[..k] == xs;
    }

    /**
     * The graph after the first elements `done` of a `remove_all` batch, against the snapshot
     * taken before it: the ids named so far are gone from the dictionary and the key list, the
     * edges listed so far or touching a removed node are gone from the cache and the edge list.
     */
    ghost predicate RemovedUpTo(nodes0: map<int, Node>, keys0: seq<int>, edges0: seq<Edge>, cache0: set<Edge>,
                                members0: set<Node>, done: seq<Element>)
      reads this, cache0`source, cache0`target
    {
      && members <= members0
      && nodes == nodes0 - RemovedIds(done)
      && keys == Excluding(keys0, RemovedIds(done))
      && cache <= cache0
      && Kept(cache0, cache, ListedEdges(done), Gone(nodes0, RemovedIds(done)))
      && edges == Excluding(edges0, cache0 - cache)
    }

    /** The loop body of `remove_all`: one more element removed, in the terms of `RemovedUpTo`. */
    method RemoveNext(ghost nodes0: map<int, Node>, ghost keys0: seq<int>, ghost edges0: seq<Edge>, ghost cache0: set<Edge>,
                      ghost members0: set<Node>, xs: seq<Element>, k: nat, items: seq<Item>) returns (items': seq<Item>)
      requires Valid() && k < |xs|
      requires RemovedUpTo(nodes0, keys0, edges0, cache0, members0, xs[..k])
      requires items == RemovalItems(nodes0, xs[..k])
      requires log.enabled == NodeFound(items)
      modifies this`nodes, this`keys, this`members, this`edges, this`cache, members`incident
      modifies (if xs[k].EdgeElem? then {xs[k].edge.source, xs[k].edge.target} else {})`incident, log`events, log`enabled
      ensures Valid()
      ensures RemovedUpTo(nodes0, keys0, edges0, cache0, members0, xs[..k + 1])
      ensures items' == RemovalItems(nodes0, xs[..k + 1])
      ensures log.enabled == NodeFound(items')
    {
      var x := xs[k];
      ghost var nodes1, keys1, edges1, cache1 := nodes, keys, edges, cache;
      var item := RemoveElement(x);
      assert Kept(cache0, cache1, ListedEdges(xs[..k]), Gone(nodes0, RemovedIds(xs[..k])));
      PrefixStep(nodes0, xs, k);
      MinusTwice(nodes0, nodes1, nodes, RemovedIds(xs[..k]), ElementIds(x));
      GoneStep(nodes0, RemovedIds(xs[..k]), ElementIds(x));
      KeptStep(cache0, cache1, cache, ListedEdges(xs[..k]), Gone(nodes0, RemovedIds(xs[..k])),
               ElementEdges(x), Gone(nodes0 - RemovedIds(xs[..k]), ElementIds(x)));
      RemovalStep(keys0, keys1, keys, RemovedIds(xs[..k]), ElementIds(x), edges0, edges1, edges, cache0, cache1, cache);
      items' := items + item;
      FoundAppend(items, item);
    }

    /** One element of `remove_all`, in the terms of the loop's invariant. */
    method RemoveElement(x: Element) returns (item: seq<Item>)
      requires Valid()
      modifies this`nodes, this`keys, this`members, this`edges, this`cache, members`incident
      modifies (if x.EdgeElem? then {x.edge.source, x.edge.target} else {})`incident, log`events, log`enabled
      ensures Valid()
      ensures members <= old(members)
      ensures nodes == old(nodes) - ElementIds(x)
      ensures keys == Excluding(old(keys), ElementIds(x))
      ensures cache <= old(cache)
      ensures Kept(old(cache), cache, ElementEdges(x), Gone(old(nodes), ElementIds(x)))
      ensures edges == Excluding(old(edges), old(cache) - cache)
      ensures item == RemovalItem(old(nodes), x)
      ensures log.enabled == (old(log.enabled) || NodeFound(item))
    {
      match x {
        case EdgeElem(e) =>
          ghost var edges0, cache0 := edges, cache;
          assert forall f | f in edges0 :: f in cache0;
          var r := RemoveEdge(e);
          item := [EdgeItem(r.internalId)];
          EdgeRemoval(edges0, cache0, cache, e);
        case NodeElem(n) =>
          item := RemoveNamed(n.id);
        case IdElem(id) =>
          item := RemoveNamed(id);
      }
      FoundSingle(item);
    }

    /** `remove_node(id)` inside `remove_all`, in the terms of the loop's invariant. */
    method RemoveNamed(id: int) returns (item: seq<Item>)
      requires Valid()
      modifies this`nodes, this`keys, this`members, this`edges, this`cache, members`incident, log`events, log`enabled
      ensures Valid()
      ensures members <= old(members)
      ensures nodes == old(nodes) - {id}
      ensures keys == Excluding(old(keys), {id})
      ensures cache <= old(cache)
      ensures forall f | f in old(cache) :: f in cache <==> f.source !in Gone(old(nodes), {id}) && f.target !in Gone(old(nodes), {id})
      ensures edges == Excluding(old(edges), old(cache) - cache)
      ensures item == if id in old(nodes) then [NodeItem(old(nodes)[id].internalId)] else []
      ensures log.enabled == (old(log.enabled) || id in old(nodes))
    {
      ghost var edges0, cache0, keys0, nodes0 := edges, cache, keys, nodes;
      ghost var incident0 := if id in nodes then nodes[id].incident else [];
      assert forall f | f in edges0 :: f in cache0;
      var r := RemoveNode(id);
      if r.Some? {
        item := [NodeItem(r.value.internalId)];
        NamedKeys(keys0, keys, id, true);
        NamedEdges(edges0, edges, cache0, cache, AsSet(incident0));
        assert Gone(nodes0, {id}) == {r.value};
      } else {
        item := [];
        Unnamed(nodes0, id);
        NamedKeys(keys0, keys, id, false);
        NamedEdges(edges0, edges, cache0, cache, {});
        assert Gone(nodes0, {id}) == {};
      }
    }

    /**
     * `add_all(xs)`: events off; each element added in order, `add_node` for a node, `add_edge`
     * for an edge, `add_node` of a new node for a bare id. The first refused element raises
     * and ends the call with events still off. When none is refused, the ids and the edges of
     * the list are appended in order, the old entries stay, events are back on and the batch
     * command and a pause of 55 are logged.
     */
    method AddAll(xs: seq<Element>, globalIds: IdGenerator) returns (err: Option<GraphError>)
      requires Valid()
      requires forall x | x in xs && x.NodeElem? :: x.node in members || x.node.incident == []
      modifies this`nodes, this`keys, this`members, this`edges, this`cache, members`incident, NodeSet(xs)`incident
      modifies EdgeSet(xs)`source, EdgeSet(xs)`target, log`events, log`enabled, globalIds`next
      ensures Valid()
      ensures err.Some? ==> !log.enabled
      ensures err.None? ==> keys == old(keys) + AddedIds(xs)
      ensures err.None? ==> edges == old(edges) + AddedEdges(xs) && cache == old(cache) + ListedEdges(xs)
      ensures err.None? ==> Extends(old(nodes), nodes) && Filed(nodes, xs)
      ensures err.None? ==> globalIds.next == old(globalIds.next) + IdElemCount(xs)
      ensures err.None? ==> log.enabled
      ensures err.None? ==> (|log.events| >= 2 && log.events[|log.events| - 2..] ==
        [Event(AddAllCmd(AdditionItems(xs, old(globalIds.next))), true), Event(PauseCmd(BatchPause), true)])
    {
      var items;
      err, items := AddEach(xs, globalIds, NodeSet(xs), EdgeSet(xs));
      if err.None? {
        assert this as object != log as object;
        log.EndBatch(AddAllCmd(items));
      }
    }

    /**
     * The loop of `add_all`: events off, the elements added in order until one is refused.
     * `pending` holds the nodes of the list and `relinked` its edges.
     */
    method AddEach(xs: seq<Element>, globalIds: IdGenerator, ghost pending: set<Node>, ghost relinked: set<Edge>)
      returns (err: Option<GraphError>, items: seq<Item>)
      requires Valid()
      requires forall i | 0 <= i < |xs| && xs[i].NodeElem? :: xs[i].node in pending
      requires forall i | 0 <= i < |xs| && xs[i].EdgeElem? :: xs[i].edge in relinked
      requires forall n | n in pending :: n in members || n.incident == []
      modifies this`nodes, this`keys, this`members, this`edges, this`cache, members`incident, pending`incident
      modifies relinked`source, relinked`target, log`events, log`enabled, globalIds`next
      ensures Valid()
      ensures !log.enabled
      ensures err.None? ==> keys == old(keys) + AddedIds(xs)
      ensures err.None? ==> edges == old(edges) + AddedEdges(xs) && cache == old(cache) + ListedEdges(xs)
      ensures err.None? ==> Extends(old(nodes), nodes) && Filed(nodes, xs)
      ensures err.None? ==> globalIds.next == old(globalIds.next) + IdElemCount(xs)
      ensures err.None? ==> items == AdditionItems(xs, old(globalIds.next))
    {
      assert this as object != log as object;
      log.EnableEvents(false);
      err, items := AddInTurn(xs, globalIds, pending, relinked);
    }

    /** The elements of an `add_all` batch added in order until one is refused, with the flag left as it is. */
    method AddInTurn(xs: seq<Element>, globalIds: IdGenerator, ghost pending: set<Node>, ghost relinked: set<Edge>)
      returns (err: Option<GraphError>, items: seq<Item>)
      requires Valid()
      requires forall i | 0 <= i < |xs| && xs[i].NodeElem? :: xs[i].node in pending
      requires forall i | 0 <= i < |xs| && xs[i].EdgeElem? :: xs[i].edge in relinked
      requires forall n | n in pending :: n in members || n.incident == []
      modifies this`nodes, this`keys, this`members, this`edges, this`cache, members`incident, pending`incident
      modifies relinked`source, relinked`target, log`events, globalIds`next
      ensures Valid()
      ensures err.None? ==> AddedUpTo(old(nodes), old(keys), old(edges), old(cache), pending, xs)
      ensures err.None? ==> globalIds.next == old(globalIds.next) + IdElemCount(xs)
      ensures err.None? ==> items == AdditionItems(xs, old(globalIds.next))
    {
      err, items := None, [];
      ghost var nodes0, keys0, edges0, cache0, members0, next0 := nodes, keys, edges, cache, members, globalIds.next;
      var k := 0;
      while k < |xs|
        invariant 0 <= k <= |xs|
        invariant Valid()
        invariant AddedUpTo(nodes0, keys0, edges0, cache0, pending, xs[..k])
        invariant forall m | m in members :: m in members0 || m in pending || fresh(m)
        invariant globalIds.next == next0 + IdElemCount(xs[..k])
        invariant items == AdditionItems(xs[..k], next0)
      {
        assert xs[k].NodeElem? ==> xs[k].node in pending;
        assert xs[k].EdgeElem? ==> xs[k].edge in relinked;
        err, items := AddNext(nodes0, keys0, edges0, cache0, next0, xs, k, items, globalIds, pending);
        if err.Some? {
          return;
        }
        k := k + 1;
      }
      assert xs[..k] == xs;
    }

    /**
     * The graph after the first elements `done` of an `add_all` batch were accepted, against
     * the snapshot taken before it; the nodes still to come are members or have no edges.
     */
    ghost predicate AddedUpTo(nodes0: map<int, Node>, keys0: seq<int>, edges0: seq<Edge>, cache0: set<Edge>,
                              pending: set<Node>, done: seq<Element>)
      reads this, pending
    {
      && keys == keys0 + AddedIds(done)
      && edges == edges0 + AddedEdges(done)
      && cache == cache0 + ListedEdges(done)
      && Extends(nodes0, nodes)
      && Filed(nodes, done)
      && (forall n | n in pending :: n in members || n.incident == [])
    }

    /** The loop body of `add_all`: one more element added, or the refusal that ends the loop. */
    method AddNext(ghost nodes0: map<int, Node>, ghost keys0: seq<int>, ghost edges0: seq<Edge>, ghost cache0: set<Edge>,
                   ghost next0: int, xs: seq<Element>, k: nat, items: seq<Item>, globalIds: IdGenerator,
                   ghost pending: set<Node>)
      returns (err: Option<GraphError>, items': seq<Item>)
      requires Valid() && k < |xs|
      requires xs[k].NodeElem? ==> xs[k].node in pending
      requires AddedUpTo(nodes0, keys0, edges0, cache0, pending, xs[..k])
      requires globalIds.next == next0 + IdElemCount(xs[..k])
      requires items == AdditionItems(xs[..k], next0)
      modifies this`nodes, this`keys, this`members, this`edges, this`cache, members`incident
      modifies (if xs[k].EdgeElem? then {xs[k].edge} else {})`source, (if xs[k].EdgeElem? then {xs[k].edge} else {})`target
      modifies log`events, globalIds`next
      ensures Valid()
      ensures forall m | m in members :: m in old(members) || m in pending || fresh(m)
      ensures err.None? ==> AddedUpTo(nodes0, keys0, edges0, cache0, pending, xs[..k + 1])
      ensures err.None? ==> globalIds.next == next0 + IdElemCount(xs[..k + 1])
      ensures err.None? ==> items' == AdditionItems(xs[..k + 1], next0)
    {
      var x := xs[k];
      var item;
      ghost var nodes1, keys1, edges1, cache1, next1 := nodes, keys, edges, cache, globalIds.next;
      err, item := AddOne(x, globalIds, pending);
      items' := items + item;
      if err.None? {
        ItemsStep(xs, k, next0, next1, items, item);
        AddedStep(xs, k, keys0, keys1, keys, edges0, edges1, edges, cache0, cache1, cache);
        FiledStep(xs, k, nodes0, nodes1, nodes);
      }
    }

    /**
     * One element of `add_all`: refused exactly when `add_node` or `add_edge` would raise for
     * it; otherwise its id or its edge is appended, the old entries stay, and a bare id takes
     * the next internal id for the node built for it.
     */
    method AddOne(x: Element, globalIds: IdGenerator, ghost pending: set<Node>) returns (err: Option<GraphError>, item: seq<Item>)
      requires Valid()
      requires x.NodeElem? ==> x.node in members || x.node.incident == []
      requires forall n | n in pending :: n in members || n.incident == []
      modifies this`nodes, this`keys, this`members, this`edges, this`cache, members`incident
      modifies (if x.EdgeElem? then {x.edge} else {})`source, (if x.EdgeElem? then {x.edge} else {})`target
      modifies log`events, globalIds`next
      ensures Valid()
      ensures forall m | m in members :: m in old(members) || (x.NodeElem? && m == x.node) || fresh(m)
      ensures forall n | n in pending :: n in members || n.incident == []
      ensures globalIds.next == old(globalIds.next) + (if x.IdElem? then 1 else 0)
      ensures err.None? <==> match x
        case NodeElem(n) => n.id !in old(nodes)
        case IdElem(id) => id !in old(nodes)
        case EdgeElem(e) => e !in old(cache) && old(e.source.id) in old(nodes) && old(e.target.id) in old(nodes)
      ensures Extends(old(nodes), nodes)
      ensures err.None? ==> keys == old(keys) + NewIds(x)
      ensures err.None? ==> edges == old(edges) + NewEdges(x) && cache == old(cache) + ElementEdges(x)
      ensures err.None? && x.NodeElem? ==> x.node.id in nodes && nodes[x.node.id] == x.node
      ensures err.None? ==> item == AdditionItem(x, old(globalIds.next))
    {
      match x
      case NodeElem(n) =>
        var r := AddNode(n);
        err := if r.Err? then Some(r.error) else None;
        item := [NodeItem(n.internalId)];
      case IdElem(id) =>
        var internal := globalIds.next;
        var r := AddFreshNode(id, globalIds);
        err := if r.Err? then Some(r.error) else None;
        item := [NodeItem(internal)];
      case EdgeElem(e) =>
        err := AddListedEdge(e, pending);
        item := [EdgeItem(e.internalId)];
    }

    /**
     * `add_edge(e)` inside `add_all`: refused exactly when `add_edge` raises; the nodes of the
     * batch that are not members keep their empty incident lists.
     */
    method AddListedEdge(e: Edge, ghost pending: set<Node>) returns (err: Option<GraphError>)
      requires Valid()
      requires forall n | n in pending :: n in members || n.incident == []
      modifies this`edges, this`cache, e`source, e`target, members`incident, log`events
      ensures Valid()
      ensures nodes == old(nodes) && keys == old(keys) && members == old(members)
      ensures forall n | n in pending :: n in members || n.incident == []
      ensures err.None? <==> e !in old(cache) && old(e.source.id) in old(nodes) && old(e.target.id) in old(nodes)
      ensures err.None? ==> edges == old(edges) + [e] && cache == old(cache) + {e}
    {
      var r := AddEdge(e);
      err := if r.Err? then Some(r.error) else None;
    }

    /**
     * `remove_edge(u, v, directed)`: the edges between u and v, as `edges_between` lists them,
     * handed to `remove_all` and returned. They leave the cache, the edge list and their
     * endpoints' lists; no node goes; the batch holds one edge item per listed edge.
     */
    method RemoveEdgesBetween(id1: int, id2: int, directed: bool) returns (r: seq<Edge>)
      requires Valid()
      modifies this`nodes, this`keys, this`members, this`edges, this`cache, members`incident, log`events, log`enabled
      ensures r == old(EdgesBetween(id1, id2, directed))
      ensures Valid()
      ensures nodes == old(nodes) && keys == old(keys)
      ensures cache == old(cache) - AsSet(r)
      ensures edges == Excluding(old(edges), AsSet(r))
      ensures log.enabled
      ensures |log.events| >= 2 && log.events[|log.events| - 2..] ==
        [Event(RemoveAllCmd(EdgeItems(r)), true), Event(PauseCmd(BatchPause), true)]
    {
      r := EdgesBetween(id1, id2, directed);
      BetweenAnchored(id1, id2, directed);
      RemoveListed(r);
    }

    /**
     * `remove_edge(n1, n2, directed)` as written: the list removed is the written
     * `edges_between(n1, n2, directed)`, so `remove_edge(n, n)` empties n's whole list and a
     * directed call removes only undirected edges.
     */
    method RemoveEdgesBetweenAsWritten(id1: int, id2: int, directed: bool) returns (r: seq<Edge>)
      requires Valid()
      modifies this`nodes, this`keys, this`members, this`edges, this`cache, members`incident, log`events, log`enabled
      ensures r == old(EdgesBetweenAsWritten(id1, id2, directed))
      ensures Valid()
      ensures nodes == old(nodes) && keys == old(keys)
      ensures cache == old(cache) - AsSet(r)
      ensures edges == Excluding(old(edges), AsSet(r))
      ensures log.enabled
      ensures |log.events| >= 2 && log.events[|log.events| - 2..] ==
        [Event(RemoveAllCmd(EdgeItems(r)), true), Event(PauseCmd(BatchPause), true)]
    {
      r := EdgesBetweenAsWritten(id1, id2, directed);
      BetweenAnchored(id1, id2, directed);
      RemoveListed(r);
    }

    /** `remove_all` of a list of member edges: those edges go, the nodes stay. */
    method RemoveListed(r: seq<Edge>)
      requires Valid()
      requires forall e | e in r :: e in cache && e.source in members && e.target in members
      modifies this`nodes, this`keys, this`members, this`edges, this`cache, members`incident, log`events, log`enabled
      ensures Valid()
      ensures nodes == old(nodes) && keys == old(keys)
      ensures cache == old(cache) - AsSet(r)
      ensures edges == Excluding(old(edges), AsSet(r))
      ensures log.enabled
      ensures |log.events| >= 2 && log.events[|log.events| - 2..] ==
        [Event(RemoveAllCmd(EdgeItems(r)), true), Event(PauseCmd(BatchPause), true)]
    {
      var xs := EdgeElems(r);
      EdgeElemsRemoval(nodes, r);
      assert EdgeEnds(xs) <= members;
      ghost var nodes0, keys0, cache0 := nodes, keys, cache;
      RemoveAll(xs);
      KeptNoneGone(nodes0, cache0, cache, AsSet(r));
      MinusNothing(nodes0);
    }

    /** The edges between two members, as intended and as written, are cached edges between members. */
    lemma BetweenAnchored(id1: int, id2: int, directed: bool)
      requires Valid()
      ensures forall e | e in EdgesBetween(id1, id2, directed) :: e in cache && e.source in members && e.target in members
      ensures forall e | e in EdgesBetweenAsWritten(id1, id2, directed) :: e in cache && e.source in members && e.target in members
    {
      if id1 in nodes && id2 in nodes {
        ListedAtEndpoint(nodes[id1]);
      }
    }

    /**
     * `edges_between(id1, id2, directed)` with the far end tested: [] unless both ids are
     * members; otherwise the edges of n1's incident list (of its outgoing list when directed)
     * that join n1 and n2.
     */
    function EdgesBetween(id1: int, id2: int, directed: bool): (r: seq<Edge>)
      reads this, members, cache
      requires Valid()
      ensures id1 !in nodes || id2 !in nodes ==> r == []
      ensures id1 in nodes && id2 in nodes ==>
        forall e | e in r :: e in nodes[id1].incident && (directed ==> IsOutgoing(e, nodes[id1])) && Joins(e, nodes[id1], nodes[id2])
      ensures id1 in nodes && id2 in nodes ==>
        forall e | e in nodes[id1].incident && (directed ==> IsOutgoing(e, nodes[id1])) && Joins(e, nodes[id1], nodes[id2]) :: e in r
    {
      if id1 !in nodes || id2 !in nodes then []
      else
        var n1, n2 := nodes[id1], nodes[id2];
        assert n1 in members;
        assert forall e | e in n1.incident :: e in cache;
        Joining(if directed then n1.OutgoingEdges() else n1.incident, n1, n2)
    }

    /**
     * `edges_between` as written: an edge is kept when n2 is its target or its source, and in
     * directed mode the list searched is `outgoing_edges` as written, which holds only the
     * undirected edges.
     */
    function EdgesBetweenAsWritten(id1: int, id2: int, directed: bool): (r: seq<Edge>)
      reads this, members, cache
      requires Valid()
      ensures id1 !in nodes || id2 !in nodes ==> r == []
      ensures id1 in nodes && id2 in nodes ==>
        forall e | e in r :: e in nodes[id1].incident && (directed ==> !e.directed) && (e.source == nodes[id2] || e.target == nodes[id2])
      ensures id1 in nodes && id2 in nodes ==>
        forall e | e in nodes[id1].incident && (directed ==> !e.directed) && (e.source == nodes[id2] || e.target == nodes[id2]) :: e in r
    {
      if id1 !in nodes || id2 !in nodes then []
      else
        var n1, n2 := nodes[id1], nodes[id2];
        assert n1 in members;
        assert forall e | e in n1.incident :: e in cache;
        Touching(if directed then n1.OutgoingEdgesAsWritten() else n1.incident, n2)
    }

    /** Every edge listed at a member has that member as an endpoint. */
    lemma ListedAtEndpoint(n: Node)
      requires Valid() && n in members
      ensures forall e | e in n.incident :: e in cache && (e.source == n || e.target == n)
    {
      forall e | e in n.incident
        ensures e in cache && (e.source == n || e.target == n)
      {
        assert multiset(n.incident)[e] == EndCount(e, n);
      }
    }

    /** In undirected mode, for two different members, the written test and the far-end test select the same edges. */
    lemma EdgesBetweenAgree(id1: int, id2: int)
      requires Valid() && id1 != id2
      ensures EdgesBetweenAsWritten(id1, id2, false) == EdgesBetween(id1, id2, false)
    {
      if id1 in nodes && id2 in nodes {
        var n1 := nodes[id1];
        ListedAtEndpoint(n1);
        TouchingIsJoining(n1.incident, n1, nodes[id2]);
      }
    }

    /**
     * In directed mode, for two different members, the written version finds exactly the
     * undirected edges of the intended one: every directed edge is lost.
     */
    lemma EdgesBetweenDirectedAsWritten(id1: int, id2: int)
      requires Valid() && id1 != id2
      ensures forall e :: e in EdgesBetweenAsWritten(id1, id2, true) <==> e in EdgesBetween(id1, id2, true) && !e.directed
    {
      if id1 in nodes && id2 in nodes {
        ListedAtEndpoint(nodes[id1]);
      }
    }

    /** An edge directed from n1 to n2 is missed by the written directed `edges_between(n1, n2)`. */
    lemma DirectedBetweenAsWritten(id1: int, id2: int, e: Edge)
      requires Valid() && id1 in nodes && id2 in nodes
      requires e.directed && e.source == nodes[id1] && e.target == nodes[id2]
      ensures e !in EdgesBetweenAsWritten(id1, id2, true)
    {
    }

    /** The corrected directed `edges_between(n1, n2)` finds every member edge directed from n1 to n2. */
    lemma DirectedBetweenFound(id1: int, id2: int, e: Edge)
      requires Valid() && id1 in nodes && id2 in nodes
      requires e in cache && e.directed && e.source == nodes[id1] && e.target == nodes[id2]
      ensures e in EdgesBetween(id1, id2, true)
    {
      var n1 := nodes[id1];
      assert multiset(n1.incident)[e] == EndCount(e, n1);
    }

    /**
     * For the same member twice, the written test keeps every edge of the node, where only
     * its self-loops join it to itself.
     */
    lemma EdgesBetweenSelfAsWritten(id: int)
      requires Valid() && id in nodes
      ensures EdgesBetweenAsWritten(id, id, false) == nodes[id].incident
      ensures forall e | e in nodes[id].incident && e.source != e.target :: e !in EdgesBetween(id, id, false)
    {
      var n := nodes[id];
      ListedAtEndpoint(n);
      TouchingAll(n.incident, n);
    }

    /** An edge directed from n2 to n1, n1 and n2 different, is not between n1 and n2 in directed mode. */
    lemma DirectedExcludesReverse(id1: int, id2: int, e: Edge)
      requires Valid() && id1 != id2 && id1 in nodes && id2 in nodes
      requires e.directed && e.source == nodes[id2] && e.target == nodes[id1]
      ensures e !in EdgesBetween(id1, id2, true)
    {
    }

    /** Undirected mode finds every member edge that joins the two members. */
    lemma EdgesBetweenComplete(id1: int, id2: int, e: Edge)
      requires Valid() && id1 in nodes && id2 in nodes
      requires e in cache && Joins(e, nodes[id1], nodes[id2])
      ensures e in EdgesBetween(id1, id2, false)
    {
      var n1 := nodes[id1];
      assert multiset(n1.incident)[e] == EndCount(e, n1);
    }

    /**
     * `adjacent(id1, id2, directed)`: false unless both ids are members; otherwise whether
     * n2 is one of n1's successors (directed) or neighbours (undirected), by identity.
     */
    function Adjacent(id1: int, id2: int, directed: bool): (b: bool)
      reads this, members, cache
      requires Valid()
      ensures b ==> id1 in nodes && id2 in nodes
    {
      if id1 !in nodes || id2 !in nodes then false
      else
        var n1, n2 := nodes[id1], nodes[id2];
        assert n1 in members;
        assert forall e | e in n1.incident :: e in cache;
        n2 in (if directed then n1.SuccessorNodes() else n1.AdjacentNodes())
    }

    /** Two members are adjacent exactly when some edge lies between them. */
    lemma AdjacentIffEdgeBetween(id1: int, id2: int, directed: bool)
      requires Valid()
      ensures Adjacent(id1, id2, directed) <==> EdgesBetween(id1, id2, directed) != []
    {
      if id1 in nodes && id2 in nodes {
        var n1, n2 := nodes[id1], nodes[id2];
        var es := if directed then n1.OutgoingEdges() else n1.incident;
        ListedAtEndpoint(n1);
        FarEndsMembership(es, n1, n2);
        FarEndJoins(es, n1, n2);
        assert n1.AdjacentNodes() == FarEnds(n1.incident, n1);
        assert n1.SuccessorNodes() == FarEnds(n1.OutgoingEdges(), n1);
        var r := EdgesBetween(id1, id2, directed);
        if r != [] {
          assert r[0] in r;
        }
      }
    }

    /** The successors of a member are members. */
    lemma SuccessorsAreMembers(n: Node)
      requires Valid() && n in members
      ensures forall c | c in n.SuccessorNodes() :: c in members && c.id in nodes && nodes[c.id] == c
    {
      ListedAtEndpoint(n);
      forall c | c in n.SuccessorNodes()
        ensures c in members
      {
        FarEndsMembership(n.OutgoingEdges(), n, c);
        var e :| e in n.OutgoingEdges() && FarEnd(e, n) == c;
      }
    }

    /** A row with a zero for every node id, built the way the first loop of `adjacency_matrix` builds it. */
    method ZeroRow() returns (row: map<int, int>)
      requires Keyed()
      ensures row == RowOf(nodes.Keys, [])
    {
      row := map[];
      var k := 0;
      while k < |keys|
        invariant 0 <= k <= |keys|
        invariant row.Keys == set j | j in keys[..k]
        invariant forall j | j in row :: row[j] == 0
      {
        assert keys[..k + 1] == keys[..k] + [keys[k]];
        row := row[keys[k] := 0];
        k := k + 1;
      }
      assert keys[..k] == keys;
      KeysAreDomain();
    }

    /** The key list lists exactly the ids of the dictionary. */
    lemma KeysAreDomain()
      requires Keyed()
      ensures (set j | j in keys) == nodes.Keys
    {
      var listed := set j | j in keys;
      forall j | j in nodes.Keys
        ensures j in listed
      {
        assert j in keys;
      }
      forall j | j in listed
        ensures j in nodes.Keys
      {
        assert j in keys;
      }
    }

    /** The first loop of `adjacency_matrix`: a zero row under every node id. */
    method ZeroMatrix() returns (m: map<int, map<int, int>>)
      requires Keyed()
      ensures m.Keys == nodes.Keys
      ensures forall i | i in m :: m[i] == RowOf(nodes.Keys, [])
    {
      m := map[];
      var k := 0;
      while k < |keys|
        invariant 0 <= k <= |keys|
        invariant m.Keys == set i | i in keys[..k]
        invariant forall i | i in m :: m[i] == RowOf(nodes.Keys, [])
      {
        assert keys[..k + 1] == keys[..k] + [keys[k]];
        var row := ZeroRow();
        m := m[keys[k] := row];
        k := k + 1;
      }
      assert keys[..k] == keys;
      KeysAreDomain();
    }

    /**
     * `adjacency_matrix()`: a row for every node id and in it a column for every node id, holding
     * how many times the column's node occurs among the row node's successors.
     */
    method AdjacencyMatrix() returns (m: map<int, map<int, int>>)
      requires Valid()
      ensures m.Keys == nodes.Keys
      ensures forall i | i in m :: m[i] == RowOf(nodes.Keys, nodes[i].SuccessorNodes())
    {
      m := ZeroMatrix();
      var rows := Nodes();
      ghost var succs := SuccessorTable(rows);
      MatrixSetup(rows, succs);
      var zero := m;
      m := CountRows(m, rows, keys, succs);
      CountedRows(zero, m, rows, succs);
    }

    /** The successor list of every node of `rows`, in order. */
    ghost function SuccessorTable(rows: seq<Node>): (t: seq<seq<Node>>)
      reads this, members, cache
      requires Valid() && forall n | n in rows :: n in members
      ensures |t| == |rows|
      ensures forall r | 0 <= r < |rows| :: t[r] == rows[r].SuccessorNodes()
    {
      if rows == [] then []
      else
        assert rows[0] in rows;
        ListedAtEndpoint(rows[0]);
        [rows[0].SuccessorNodes()] + SuccessorTable(rows[1..])
    }

    /** What the two loops of `adjacency_matrix` leave, read row by row. */
    lemma CountedRows(m0: map<int, map<int, int>>, m: map<int, map<int, int>>, rows: seq<Node>, succs: seq<seq<Node>>)
      requires |rows| == |keys| && |succs| == |keys| && forall i | i in nodes :: i in keys
      requires forall r | 0 <= r < |rows| :: rows[r].id == keys[r] && rows[r].id in nodes && nodes[rows[r].id] == rows[r]
      requires forall r | 0 <= r < |rows| :: succs[r] == rows[r].SuccessorNodes()
      requires m0.Keys == nodes.Keys && forall i | i in m0 :: m0[i] == RowOf(nodes.Keys, [])
      requires m.Keys == m0.Keys
      requires forall r | 0 <= r < |rows| :: m[keys[r]] == Plus(m0[keys[r]], succs[r])
      ensures forall i | i in m :: m[i] == RowOf(nodes.Keys, nodes[i].SuccessorNodes())
    {
      forall i | i in m
        ensures m[i] == RowOf(nodes.Keys, nodes[i].SuccessorNodes())
      {
        assert i in keys;
        var r :| 0 <= r < |keys| && keys[r] == i;
        PlusZero(nodes.Keys, succs[r]);
      }
    }

    /** The facts about the graph the second loop of `adjacency_matrix` relies on. */
    lemma MatrixSetup(rows: seq<Node>, succs: seq<seq<Node>>)
      requires Valid()
      requires |rows| == |keys| && forall r | 0 <= r < |rows| :: rows[r].id == keys[r] && rows[r] in members
      requires |succs| == |rows| && forall r | 0 <= r < |rows| :: succs[r] == rows[r].SuccessorNodes()
      ensures Distinct(keys)
      ensures forall r | 0 <= r < |rows| :: forall c | c in succs[r] :: c.id in nodes
      ensures forall i | i in nodes :: i in keys
    {
      forall r | 0 <= r < |rows|
        ensures forall c | c in succs[r] :: c.id in nodes
      {
        SuccessorsAreMembers(rows[r]);
      }
    }

    /** A matrix entry is positive exactly when the two nodes are adjacent in directed mode. */
    lemma MatrixEntryPositive(i: int, j: int)
      requires Valid() && i in nodes && j in nodes
      ensures IdCount(nodes[i].SuccessorNodes(), j) > 0 <==> Adjacent(i, j, true)
    {
      var succ := nodes[i].SuccessorNodes();
      SuccessorsAreMembers(nodes[i]);
      IdCountPositive(succ, j);
    }
  }

  /** One more step of the loop of `remove_node` over `incident`. */
  lemma Advance(edges: seq<Edge>, incident: seq<Edge>, i: nat)
    requires i < |incident|
    ensures AsSet(incident[..i + 1]) == AsSet(incident[..i]) + {incident[i]}
    ensures Without(Excluding(edges, AsSet(incident[..i])), incident[i]) == Excluding(edges, AsSet(incident[..i + 1]))
    ensures SilentRemovals(incident[..i + 1]) == SilentRemovals(incident[..i]) + [Event(RemoveEdgeCmd(incident[i].internalId), false)]
  {
    assert incident[..i + 1] == incident[..i] + [incident[i]];
    WithoutExcluding(edges, AsSet(incident[..i]), incident[i]);
  }

  /** The edge joins `a` and `b`, in either direction. */
  predicate Joins(e: Edge, a: Node, b: Node)
    reads e
  {
    (e.source == a && e.target == b) || (e.source == b && e.target == a)
  }

  /** The edges of `es` that join `a` and `b`, in order. */
  function Joining(es: seq<Edge>, a: Node, b: Node): (r: seq<Edge>)
    reads set e | e in es
    ensures forall e | e in r :: e in es && Joins(e, a, b)
    ensures forall e | e in es && Joins(e, a, b) :: e in r
  {
    if es == [] then []
    else if Joins(es[0], a, b) then [es[0]] + Joining(es[1..], a, b)
    else Joining(es[1..], a, b)
  }

  /** The edges of `es` whose target or source is `n`, in order. */
  function Touching(es: seq<Edge>, n: Node): (r: seq<Edge>)
    reads set e | e in es
    ensures forall e | e in r :: e in es && (e.source == n || e.target == n)
    ensures forall e | e in es && (e.source == n || e.target == n) :: e in r
  {
    if es == [] then []
    else if es[0].target == n || es[0].source == n then [es[0]] + Touching(es[1..], n)
    else Touching(es[1..], n)
  }

  /** When every edge has `a` as an endpoint and `b` is another node, touching `b` is joining `a` and `b`. */
  lemma {:induction false} TouchingIsJoining(es: seq<Edge>, a: Node, b: Node)
    requires a != b
    requires forall e | e in es :: e.source == a || e.target == a
    ensures Touching(es, b) == Joining(es, a, b)
  {
    if es != [] {
      TouchingIsJoining(es[1..], a, b);
    }
  }

  /** When every edge has `n` as an endpoint, all of them touch `n`. */
  lemma {:induction false} TouchingAll(es: seq<Edge>, n: Node)
    requires forall e | e in es :: e.source == n || e.target == n
    ensures Touching(es, n) == es
  {
    if es != [] {
      TouchingAll(es[1..], n);
      assert es == [es[0]] + es[1..];
    }
  }

  /** For edges at `a`, the far end from `a` is `b` exactly when the edge joins `a` and `b`. */
  lemma FarEndJoins(es: seq<Edge>, a: Node, b: Node)
    requires forall e | e in es :: e.source == a || e.target == a
    ensures forall e | e in es :: FarEnd(e, a) == b <==> Joins(e, a, b)
  {
  }

  /** How many nodes of `ns` have the id `j`. */
  function IdCount(ns: seq<Node>, j: int): (k: nat)
    ensures k <= |ns|
  {
    if ns == [] then 0
    else IdCount(ns[..|ns| - 1], j) + (if ns[|ns| - 1].id == j then 1 else 0)
  }

  lemma {:induction false} IdCountPositive(ns: seq<Node>, j: int)
    ensures IdCount(ns, j) > 0 <==> exists c :: c in ns && c.id == j
  {
    if ns != [] {
      var front := ns[..|ns| - 1];
      IdCountPositive(front, j);
      assert ns == front + [ns[|ns| - 1]];
      if c :| c in ns && c.id == j {
        if c !in front {
          assert c == ns[|ns| - 1];
        }
      }
    }
  }

  /** A matrix row over the ids `ids`: each column counts that id in `succ`. */
  ghost function RowOf(ids: set<int>, succ: seq<Node>): map<int, int>
  {
    map j | j in ids :: IdCount(succ, j)
  }

  /** `row` with the occurrences of every id in `succ` added to that id's column. */
  ghost function Plus(row: map<int, int>, succ: seq<Node>): map<int, int>
  {
    map j | j in row :: row[j] + IdCount(succ, j)
  }

  /** A row agreeing with `row0` plus the counts of `succ` at every column is `Plus(row0, succ)`. */
  lemma TalliedRow(row: map<int, int>, row0: map<int, int>, succ: seq<Node>)
    requires row.Keys == row0.Keys
    requires forall j | j in row :: row[j] == row0[j] + IdCount(succ, j)
    ensures row == Plus(row0, succ)
  {
  }

  /** One more row of the second loop of `adjacency_matrix` counted: the loop's invariant moves on by one row. */
  lemma RowCounted(m0: map<int, map<int, int>>, m: map<int, map<int, int>>, succs: seq<seq<Node>>, ks: seq<int>, k: nat, row: map<int, int>)
    requires |ks| == |succs| && Distinct(ks) && k < |succs|
    requires m.Keys == m0.Keys && forall r | 0 <= r < |succs| :: ks[r] in m0
    requires forall r | 0 <= r < k :: m[ks[r]] == Plus(m0[ks[r]], succs[r])
    requires forall r | k <= r < |succs| :: m[ks[r]] == m0[ks[r]]
    requires row == Plus(m0[ks[k]], succs[k])
    ensures m[ks[k] := row].Keys == m0.Keys
    ensures forall r | 0 <= r < k + 1 :: m[ks[k] := row][ks[r]] == Plus(m0[ks[r]], succs[r])
    ensures forall r | k + 1 <= r < |succs| :: m[ks[k] := row][ks[r]] == m0[ks[r]]
  {
    forall r | 0 <= r < |succs| && r != k
      ensures ks[r] != ks[k]
    {
      DistinctAt(ks, k, r);
    }
  }

  /** Counting into a zero row gives the row of counts. */
  lemma PlusZero(ids: set<int>, succ: seq<Node>)
    ensures Plus(RowOf(ids, []), succ) == RowOf(ids, succ)
  {
  }

  /**
   * The second loop of `adjacency_matrix`: for each row node in turn, one increment in its row
   * per successor. `ks` are the rows' ids and `succs` their successor lists on entry.
   */
  method CountRows(m0: map<int, map<int, int>>, rows: seq<Node>, ghost ks: seq<int>, ghost succs: seq<seq<Node>>)
    returns (m: map<int, map<int, int>>)
    requires |ks| == |rows| && |succs| == |rows| && Distinct(ks)
    requires forall r | 0 <= r < |rows| :: rows[r].id == ks[r] && ks[r] in m0 && rows[r].SuccessorNodes() == succs[r]
    requires forall r | 0 <= r < |rows| :: forall c | c in succs[r] :: c.id in m0[ks[r]]
    ensures m.Keys == m0.Keys
    ensures forall r | 0 <= r < |rows| :: m[ks[r]] == Plus(m0[ks[r]], succs[r])
  {
    m := m0;
    var k := 0;
    while k < |rows|
      invariant 0 <= k <= |rows|
      invariant m.Keys == m0.Keys
      invariant forall r | 0 <= r < k :: m[ks[r]] == Plus(m0[ks[r]], succs[r])
      invariant forall r | k <= r < |rows| :: m[ks[r]] == m0[ks[r]]
    {
      var i := rows[k].id;
      var succ := rows[k].SuccessorNodes();
      assert succ == succs[k];
      var row := Tally(m[i], succ);
      RowCounted(m0, m, succs, ks, k, row);
      m := m[i := row];
      k := k + 1;
    }
  }

  /** The inner loop of `adjacency_matrix`: one increment in the row per successor, in order. */
  method Tally(row0: map<int, int>, succ: seq<Node>) returns (row: map<int, int>)
    requires forall c | c in succ :: c.id in row0
    ensures row == Plus(row0, succ)
  {
    row := row0;
    var t := 0;
    while t < |succ|
      invariant 0 <= t <= |succ|
      invariant row.Keys == row0.Keys
      invariant forall j | j in row :: row[j] == row0[j] + IdCount(succ[..t], j)
    {
      assert succ[..t + 1][..t] == succ[..t];
      var c := succ[t];
      assert c in succ;
      row := row[c.id := row[c.id] + 1];
      t := t + 1;
    }
    assert succ[..t] == succ;
    TalliedRow(row, row0, succ);
  }
}
