/**
 * `Graph.random(order, size, connected, multigraph, initial_id)`: a list of `order` new nodes
 * followed by at most `size` new edges. Every outcome of Python's `random` module is an input
 * here (the sampled id order, the parent and the direction drawn for each node, the shuffled
 * pair list), so the generator is a deterministic function of its draws.
 *
 * Phase one walks the positions in order; with `connected` set and budget left, every node
 * after the first gets one edge to a node drawn among the earlier ones. Phase two walks the
 * shuffled pairs of positions and adds an edge for a pair its tracking matrix has not seen
 * (never a self-loop), or for every pair in multigraph mode, until the budget is spent.
 */
module RandomGraphs {
  import opened Emission
  import opened Elements
  import Sequences

  /** The arguments of `Graph.random`. */
  datatype Request = Request(order: nat, size: int, connected: bool, multigraph: bool, initial: int)

  /**
   * What `random` hands out: `ids` is `random.sample(range(initial, initial + order), order)`;
   * `parents[i]` is the `random.randint(0, i - 1)` drawn for position `i`; `newIsSource[i]` is
   * `random.randint(0, 1) == 0`, the new node being the source; `pairs` is the shuffled list of
   * position pairs.
   */
  datatype Draws = Draws(ids: seq<int>, parents: seq<int>, newIsSource: seq<bool>, pairs: seq<(int, int)>)

  /** One generated edge, by the positions of its endpoints in the node list. */
  datatype Link = Link(source: nat, target: nat)

  /** The working state: the edges so far, the tracking matrix and the budget left. */
  datatype Progress = Progress(links: seq<Link>, matrix: seq<seq<int>>, remaining: int)

  /** `random.sample` of the whole range: `order` different ids from it. */
  predicate IsSample(ids: seq<int>, initial: int, order: nat)
  {
    && |ids| == order
    && (forall i | 0 <= i < order :: initial <= ids[i] < initial + order)
    && (forall i, j | 0 <= i < j < order :: ids[i] != ids[j])
  }

  /** Draws the `random` module can produce for this request. */
  predicate Fits(q: Request, d: Draws)
  {
    && IsSample(d.ids, q.initial, q.order)
    && |d.parents| == q.order && (forall i | 1 <= i < q.order :: 0 <= d.parents[i] < i)
    && |d.newIsSource| == q.order
    && (forall j | 0 <= j < |d.pairs| :: 0 <= d.pairs[j].0 < q.order && 0 <= d.pairs[j].1 < q.order)
  }

  predicate Square(m: seq<seq<int>>, n: nat)
  {
    |m| == n && forall r | 0 <= r < n :: |m[r]| == n
  }

  predicate Symmetric(m: seq<seq<int>>, n: nat)
    requires Square(m, n)
  {
    forall a, b | 0 <= a < n && 0 <= b < n :: m[a][b] == m[b][a]
  }

  /** The `order` by `order` matrix of zeros the generator starts from. */
  function Zero(n: nat): (m: seq<seq<int>>)
    ensures Square(m, n) && Symmetric(m, n)
    ensures forall a, b | 0 <= a < n && 0 <= b < n :: m[a][b] == 0
  {
    seq(n, _ => seq(n, _ => 0))
  }

  /** `m[u][v] += 1` then `m[v][u] += 1`: a cell on the diagonal grows by two. */
  function Bump(m: seq<seq<int>>, n: nat, u: nat, v: nat): (r: seq<seq<int>>)
    requires Square(m, n) && u < n && v < n
    ensures Square(r, n)
  {
    var m1 := m[u := m[u][v := m[u][v] + 1]];
    m1[v := m1[v][u := m1[v][u] + 1]]
  }

  /** `Bump` adds one to cell `(u, v)` and one to cell `(v, u)`, and changes no other cell. */
  lemma BumpCells(m: seq<seq<int>>, n: nat, u: nat, v: nat)
    requires Square(m, n) && u < n && v < n
    ensures forall a, b | 0 <= a < n && 0 <= b < n ::
      Bump(m, n, u, v)[a][b] == m[a][b] + (if a == u && b == v then 1 else 0) + (if a == v && b == u then 1 else 0)
  {
  }

  /** Every endpoint is a position below `n`. */
  predicate Within(links: seq<Link>, n: nat)
  {
    forall j | 0 <= j < |links| :: links[j].source < n && links[j].target < n
  }

  /** No edge is a self-loop. */
  predicate Loopless(links: seq<Link>)
  {
    forall j | 0 <= j < |links| :: links[j].source != links[j].target
  }

  /** The edge joins positions `a` and `b`, in either direction. */
  predicate Joins(l: Link, a: int, b: int)
  {
    (l.source == a && l.target == b) || (l.source == b && l.target == a)
  }

  /** No self-loop, and no two edges join the same two positions. */
  predicate Simple(links: seq<Link>)
  {
    && Loopless(links)
    && (forall j, k | 0 <= j < k < |links| :: !Joins(links[j], links[k].source, links[k].target))
  }

  /** The most edges a budget of `size` allows. */
  function Budget(size: int): nat
  {
    if size > 0 then size else 0
  }

  /** The edge phase one gives position `i`, towards its drawn parent. */
  function TreeLink(d: Draws, i: nat): Link
    requires i < |d.parents| && i < |d.newIsSource| && d.parents[i] >= 0
  {
    if d.newIsSource[i] then Link(i, d.parents[i] as nat) else Link(d.parents[i] as nat, i)
  }

  /**
   * Phase one at position `i`. The code as written marks the matrix cells of the two nodes' ids
   * minus `initial` (`byId`); phase two reads the cells of positions.
   */
  function Grow(q: Request, d: Draws, s: Progress, i: nat, byId: bool): (r: Progress)
    requires Fits(q, d) && i < q.order && Square(s.matrix, q.order)
  {
    if q.connected && s.remaining > 0 && i > 0 then
      var p := d.parents[i];
      var u := if byId then d.ids[i] - q.initial else i;
      var v := if byId then d.ids[p] - q.initial else p;
      Progress(s.links + [TreeLink(d, i)], Bump(s.matrix, q.order, u, v), s.remaining - 1)
    else
      s
  }

  /** Phase one over the first `k` positions. */
  function Grown(q: Request, d: Draws, k: nat, byId: bool): (r: Progress)
    requires Fits(q, d) && k <= q.order
    ensures Square(r.matrix, q.order) && r.remaining == q.size - |r.links|
  {
    if k == 0 then Progress([], Zero(q.order), q.size)
    else Grow(q, d, Grown(q, d, k - 1, byId), k - 1, byId)
  }

  /** Phase two at the pair `(a, b)`; once the budget is spent the loop has stopped. */
  function Offer(q: Request, s: Progress, a: nat, b: nat): (r: Progress)
    requires Square(s.matrix, q.order) && a < q.order && b < q.order
  {
    if s.remaining <= 0 then s
    else if (s.matrix[a][b] == 0 && a != b) || q.multigraph then
      Progress(s.links + [Link(a, b)], Bump(s.matrix, q.order, a, b), s.remaining - 1)
    else s
  }

  /** Phase one, then phase two over the first `k` pairs. */
  function Offered(q: Request, d: Draws, k: nat, byId: bool): (r: Progress)
    requires Fits(q, d) && k <= |d.pairs|
    ensures Square(r.matrix, q.order) && r.remaining == q.size - |r.links|
  {
    if k == 0 then Grown(q, d, q.order, byId)
    else Offer(q, Offered(q, d, k - 1, byId), d.pairs[k - 1].0, d.pairs[k - 1].1)
  }

  /** The edges `Graph.random` generates as the code is written. */
  function GeneratedAsWritten(q: Request, d: Draws): seq<Link>
    requires Fits(q, d)
  {
    Offered(q, d, |d.pairs|, true).links
  }

  /** The edges generated when phase one marks the cells of positions, as phase two reads them. */
  function Generated(q: Request, d: Draws): seq<Link>
    requires Fits(q, d)
  {
    Offered(q, d, |d.pairs|, false).links
  }

  /** Phase one never spends more than the budget: at most `size` edges, none when `size <= 0`. */
  lemma {:induction false} GrownWithinBudget(q: Request, d: Draws, k: nat, byId: bool)
    requires Fits(q, d) && k <= q.order
    ensures |Grown(q, d, k, byId).links| <= Budget(q.size)
  {
    if k > 0 {
      GrownWithinBudget(q, d, k - 1, byId);
    }
  }

  /** Neither does phase two: `Graph.random` returns at most `size` edges. */
  lemma {:induction false} OfferedWithinBudget(q: Request, d: Draws, k: nat, byId: bool)
    requires Fits(q, d) && k <= |d.pairs|
    ensures |Offered(q, d, k, byId).links| <= Budget(q.size)
  {
    if k == 0 {
      GrownWithinBudget(q, d, q.order, byId);
    } else {
      OfferedWithinBudget(q, d, k - 1, byId);
    }
  }

  /** Bumping a symmetric matrix keeps it symmetric, whichever two cells are named. */
  lemma BumpSymmetric(m: seq<seq<int>>, n: nat, u: nat, v: nat)
    requires Square(m, n) && Symmetric(m, n) && u < n && v < n
    ensures Symmetric(Bump(m, n, u, v), n)
  {
    BumpCells(m, n, u, v);
  }

  /** In either indexing mode, the tracking matrix stays symmetric through phase one. */
  lemma {:induction false} GrownSymmetric(q: Request, d: Draws, k: nat, byId: bool)
    requires Fits(q, d) && k <= q.order
    ensures Symmetric(Grown(q, d, k, byId).matrix, q.order)
  {
    if k > 0 {
      GrownSymmetric(q, d, k - 1, byId);
      var s := Grown(q, d, k - 1, byId);
      if q.connected && s.remaining > 0 && k - 1 > 0 {
        var p := d.parents[k - 1];
        var u := if byId then d.ids[k - 1] - q.initial else k - 1;
        var v := if byId then d.ids[p] - q.initial else p;
        BumpSymmetric(s.matrix, q.order, u, v);
        assert Grown(q, d, k, byId).matrix == Bump(s.matrix, q.order, u, v);
      } else {
        assert Grown(q, d, k, byId) == s;
      }
    }
  }

  /** ... and through phase two. */
  lemma {:induction false} OfferedSymmetric(q: Request, d: Draws, k: nat, byId: bool)
    requires Fits(q, d) && k <= |d.pairs|
    ensures Symmetric(Offered(q, d, k, byId).matrix, q.order)
  {
    if k == 0 {
      GrownSymmetric(q, d, q.order, byId);
    } else {
      OfferedSymmetric(q, d, k - 1, byId);
      var s := Offered(q, d, k - 1, byId);
      BumpSymmetric(s.matrix, q.order, d.pairs[k - 1].0, d.pairs[k - 1].1);
    }
  }

  /** Phase one never adds a self-loop: each edge goes to a strictly earlier position. */
  lemma {:induction false} GrownLoopless(q: Request, d: Draws, k: nat, byId: bool)
    requires Fits(q, d) && k <= q.order
    ensures Loopless(Grown(q, d, k, byId).links)
  {
    if k > 0 {
      GrownLoopless(q, d, k - 1, byId);
      var s, r := Grown(q, d, k - 1, byId), Grown(q, d, k, byId);
      if r != s {
        assert r.links == s.links + [TreeLink(d, k - 1)];
        assert forall j | 0 <= j < |s.links| :: r.links[j] == s.links[j];
      }
    }
  }

  /** Without `multigraph`, phase two never adds a self-loop either, in either indexing mode. */
  lemma {:induction false} OfferedLoopless(q: Request, d: Draws, k: nat, byId: bool)
    requires Fits(q, d) && k <= |d.pairs| && !q.multigraph
    ensures Loopless(Offered(q, d, k, byId).links)
  {
    if k == 0 {
      GrownLoopless(q, d, q.order, byId);
    } else {
      OfferedLoopless(q, d, k - 1, byId);
      var s, r := Offered(q, d, k - 1, byId), Offered(q, d, k, byId);
      if r != s {
        assert r.links == s.links + [Link(d.pairs[k - 1].0, d.pairs[k - 1].1)];
        assert forall j | 0 <= j < |s.links| :: r.links[j] == s.links[j];
      }
    }
  }

  /** How many edges phase one adds over the first `k` positions. */
  function TreeSize(q: Request, k: nat): nat
  {
    if !q.connected || k == 0 then 0
    else if k - 1 < Budget(q.size) then k - 1
    else Budget(q.size)
  }

  /** The first `n` edges are those phase one gives positions 1 to `n`, in that order. */
  predicate TreePrefix(d: Draws, links: seq<Link>, n: nat)
  {
    && |links| == n
    && forall i | 1 <= i <= n ::
      i < |d.parents| && i < |d.newIsSource| && d.parents[i] >= 0 && links[i - 1] == TreeLink(d, i)
  }

  /** Appending the edge of position `n + 1` extends the tree prefix by one. */
  lemma TreePrefixStep(d: Draws, s: seq<Link>, n: nat)
    requires TreePrefix(d, s, n)
    requires n + 1 < |d.parents| && n + 1 < |d.newIsSource| && d.parents[n + 1] >= 0
    ensures TreePrefix(d, s + [TreeLink(d, n + 1)], n + 1)
  {
    var r := s + [TreeLink(d, n + 1)];
    forall i | 1 <= i <= n + 1
      ensures i < |d.parents| && i < |d.newIsSource| && d.parents[i] >= 0 && r[i - 1] == TreeLink(d, i)
    {
      if i <= n {
        assert r[i - 1] == s[i - 1];
      }
    }
  }

  /**
   * With `connected` set, while the budget lasts, the node at each position `i` after the
   * first gets exactly one edge, the `i`-th, to the earlier node drawn for it; without
   * `connected` phase one adds nothing.
   */
  lemma {:induction false} TreeShape(q: Request, d: Draws, k: nat, byId: bool)
    requires Fits(q, d) && k <= q.order
    ensures TreePrefix(d, Grown(q, d, k, byId).links, TreeSize(q, k))
  {
    if k > 0 {
      TreeShape(q, d, k - 1, byId);
      var s, r := Grown(q, d, k - 1, byId), Grown(q, d, k, byId);
      if q.connected && s.remaining > 0 && k - 1 > 0 {
        assert r.links == s.links + [TreeLink(d, k - 1)];
        assert TreeSize(q, k - 1) + 1 == k - 1 == TreeSize(q, k);
        TreePrefixStep(d, s.links, k - 2);
      } else {
        assert r == s;
        assert TreeSize(q, k) == TreeSize(q, k - 1);
      }
    }
  }

  /** Phase two only appends: the edges of phase one stay first, in their order. */
  lemma {:induction false} OfferedKeepsTree(q: Request, d: Draws, k: nat, byId: bool)
    requires Fits(q, d) && k <= |d.pairs|
    ensures var tree := Grown(q, d, q.order, byId).links;
      |tree| <= |Offered(q, d, k, byId).links| && Offered(q, d, k, byId).links[..|tree|] == tree
  {
    if k > 0 {
      OfferedKeepsTree(q, d, k - 1, byId);
      var tree := Grown(q, d, q.order, byId).links;
      var before := Offered(q, d, k - 1, byId).links;
      var after := Offered(q, d, k, byId).links;
      assert after == before || after[..|before|] == before;
      assert after[..|tree|] == before[..|tree|];
    }
  }

  /** Once the budget is spent, the remaining pairs change nothing: the `break` of the loop. */
  lemma {:induction false} Exhausted(q: Request, d: Draws, j: nat, k: nat, byId: bool)
    requires Fits(q, d) && j <= k <= |d.pairs|
    requires Offered(q, d, j, byId).remaining <= 0
    ensures Offered(q, d, k, byId) == Offered(q, d, j, byId)
    decreases k
  {
    if k > j {
      Exhausted(q, d, j, k - 1, byId);
    }
  }

  /** The path from position `i` back to the first node, through the drawn parents. */
  function Chain(d: Draws, i: nat): (c: seq<nat>)
    requires i < |d.parents| && forall t | 1 <= t < |d.parents| :: 0 <= d.parents[t] < t
    ensures |c| >= 1 && c[0] == i && c[|c| - 1] == 0
    ensures forall t | 0 <= t < |c| - 1 :: 1 <= c[t] <= i && c[t + 1] == d.parents[c[t]]
    decreases i
  {
    if i == 0 then [0] else [i] + Chain(d, d.parents[i] as nat)
  }

  /**
   * Connectivity: every node phase one reaches is joined to the first node by a path of
   * generated edges, the edge from `c[t]` to `c[t + 1]` being the `c[t]`-th. With `connected`
   * set and `size >= order - 1` this is every node.
   */
  lemma TreeConnects(q: Request, d: Draws, i: nat)
    requires Fits(q, d) && i < q.order && i <= TreeSize(q, q.order)
    ensures var c, links := Chain(d, i), Generated(q, d);
      forall t | 0 <= t < |c| - 1 :: 1 <= c[t] <= |links| && Joins(links[c[t] - 1], c[t], c[t + 1])
  {
    TreeShape(q, d, q.order, false);
    OfferedKeepsTree(q, d, |d.pairs|, false);
    var c, links := Chain(d, i), Generated(q, d);
    var tree := Grown(q, d, q.order, false).links;
    forall t | 0 <= t < |c| - 1
      ensures 1 <= c[t] <= |links| && Joins(links[c[t] - 1], c[t], c[t + 1])
    {
      assert 1 <= c[t] <= i <= TreeSize(q, q.order);
      assert links[c[t] - 1] == links[..|tree|][c[t] - 1] == tree[c[t] - 1] == TreeLink(d, c[t]);
    }
  }

  /** How often position pair `(a, b)` is hit by one edge: twice by a self-loop on `a == b`. */
  function Weight(l: Link, a: int, b: int): nat
  {
    (if l.source == a && l.target == b then 1 else 0) + (if l.source == b && l.target == a then 1 else 0)
  }

  /** What the tracking matrix should hold at `(a, b)` for these edges. */
  function Tally(links: seq<Link>, a: int, b: int): nat
  {
    if links == [] then 0 else Tally(links[..|links| - 1], a, b) + Weight(links[|links| - 1], a, b)
  }

  /** No edge joins `a` and `b` exactly when their tally is zero. */
  lemma {:induction false} TallyZero(links: seq<Link>, a: int, b: int)
    ensures Tally(links, a, b) == 0 <==> forall j | 0 <= j < |links| :: !Joins(links[j], a, b)
  {
    if links != [] {
      var init := links[..|links| - 1];
      TallyZero(init, a, b);
      assert forall j | 0 <= j < |init| :: init[j] == links[j];
    }
  }

  /** The matrix tracks the edges when, on every cell, it holds their tally. */
  predicate Counts(s: Progress, n: nat)
    requires Square(s.matrix, n)
  {
    forall a, b | 0 <= a < n && 0 <= b < n :: s.matrix[a][b] == Tally(s.links, a, b)
  }

  /** Appending an edge and bumping its cells keeps the matrix counting the edges. */
  lemma CountsStep(s: Progress, n: nat, l: Link, u: nat, v: nat)
    requires Square(s.matrix, n) && Counts(s, n) && u < n && v < n && Joins(l, u, v)
    ensures Counts(Progress(s.links + [l], Bump(s.matrix, n, u, v), s.remaining - 1), n)
  {
    BumpCells(s.matrix, n, u, v);
    var links := s.links + [l];
    assert links[..|links| - 1] == s.links;
  }

  /** Appending a non-loop edge that joins a pair no earlier edge joins keeps the edges simple. */
  lemma SimpleStep(links: seq<Link>, l: Link)
    requires Simple(links) && l.source != l.target
    requires forall j | 0 <= j < |links| :: !Joins(links[j], l.source, l.target)
    ensures Simple(links + [l])
  {
    var r := links + [l];
    forall j, m | 0 <= j < m < |r|
      ensures !Joins(r[j], r[m].source, r[m].target)
    {
      assert r[j] == links[j];
      if m < |links| {
        assert r[m] == links[m];
      }
    }
  }

  /** Phase one over the first `k` positions only joins positions below `k`. */
  lemma {:induction false} GrownWithin(q: Request, d: Draws, k: nat, byId: bool)
    requires Fits(q, d) && k <= q.order
    ensures Within(Grown(q, d, k, byId).links, k)
  {
    if k > 0 {
      GrownWithin(q, d, k - 1, byId);
      var s, r := Grown(q, d, k - 1, byId), Grown(q, d, k, byId);
      if r != s {
        assert r.links == s.links + [TreeLink(d, k - 1)];
        assert forall j | 0 <= j < |s.links| :: r.links[j] == s.links[j];
      }
    }
  }

  /**
   * Marking positions in phase one, the matrix counts the edges, and the edges of the first
   * `k` positions form a tree on them with no repeated pair.
   */
  lemma {:induction false} GrownCounts(q: Request, d: Draws, k: nat)
    requires Fits(q, d) && k <= q.order
    ensures Counts(Grown(q, d, k, false), q.order) && Simple(Grown(q, d, k, false).links)
  {
    if k > 0 {
      GrownCounts(q, d, k - 1);
      var s, r := Grown(q, d, k - 1, false), Grown(q, d, k, false);
      if r != s {
        var l := TreeLink(d, k - 1);
        assert r == Progress(s.links + [l], Bump(s.matrix, q.order, k - 1, d.parents[k - 1]), s.remaining - 1);
        CountsStep(s, q.order, l, k - 1, d.parents[k - 1]);
        GrownWithin(q, d, k - 1, false);
        SimpleStep(s.links, l);
      }
    }
  }

  /**
   * Both phases keep the matrix counting the edges; without `multigraph` no pair is added twice
   * and no self-loop is added.
   */
  lemma {:induction false} OfferedCounts(q: Request, d: Draws, k: nat)
    requires Fits(q, d) && k <= |d.pairs|
    ensures Counts(Offered(q, d, k, false), q.order)
    ensures !q.multigraph ==> Simple(Offered(q, d, k, false).links)
  {
    if k == 0 {
      GrownCounts(q, d, q.order);
    } else {
      OfferedCounts(q, d, k - 1);
      var s, r := Offered(q, d, k - 1, false), Offered(q, d, k, false);
      if r != s {
        var (a, b) := d.pairs[k - 1];
        CountsStep(s, q.order, Link(a, b), a, b);
        if !q.multigraph {
          TallyZero(s.links, a, b);
          SimpleStep(s.links, Link(a, b));
        }
      }
    }
  }

  /** Without `multigraph`, the generated edges have no self-loop and no repeated pair. */
  lemma GeneratedIsSimple(q: Request, d: Draws)
    requires Fits(q, d) && !q.multigraph
    ensures Simple(Generated(q, d))
  {
    OfferedCounts(q, d, |d.pairs|);
  }

  /**
   * The code as written marks phase-one edges under the nodes' ids minus `initial`, while
   * phase two looks pairs up by position. With ids `[1, 2, 0]` the tree edge between positions
   * 1 and 0 is recorded in the cell of ids 2 and 1, so the very first shuffled pair `(0, 1)`
   * looks unused and phase two joins positions 0 and 1 a second time, although `multigraph`
   * is off.
   */
  lemma AsWrittenRepeatsPair()
    ensures var q := Request(3, 3, true, false, 0);
      var d := Draws([1, 2, 0], [0, 0, 1], [true, true, true],
        [(0, 1), (0, 0), (0, 2), (1, 0), (1, 1), (1, 2), (2, 0), (2, 1), (2, 2)]);
      && Fits(q, d)
      && |GeneratedAsWritten(q, d)| == 3
      && GeneratedAsWritten(q, d)[0] == Link(1, 0)
      && GeneratedAsWritten(q, d)[2] == Link(0, 1)
      && !Simple(GeneratedAsWritten(q, d))
  {
    var q, d := RepeatRequest, RepeatDraws;
    RepeatOffered();
    Exhausted(q, d, 1, 9, true);
    var links := GeneratedAsWritten(q, d);
    assert Joins(links[0], links[2].source, links[2].target);
  }

  /** The request and the draws of `AsWrittenRepeatsPair`. */
  const RepeatRequest := Request(3, 3, true, false, 0)
  const RepeatDraws := Draws([1, 2, 0], [0, 0, 1], [true, true, true],
    [(0, 1), (0, 0), (0, 2), (1, 0), (1, 1), (1, 2), (2, 0), (2, 1), (2, 2)])

  /** Phase one as written on those draws: two tree edges, and cell (0, 1) still unmarked. */
  lemma RepeatGrown()
    ensures Fits(RepeatRequest, RepeatDraws)
    ensures var g := Grown(RepeatRequest, RepeatDraws, 3, true);
      g.links == [Link(1, 0), Link(2, 1)] && g.remaining == 1 && g.matrix[0][1] == 0
  {
    var q, d := RepeatRequest, RepeatDraws;
    assert Fits(q, d);
    var g1, g2 := Grown(q, d, 1, true), Grown(q, d, 2, true);
    assert g1 == Grown(q, d, 0, true);
    assert g1.links == [] && g1.remaining == 3 && g1.matrix[0][1] == 0;
    assert g2.links == [Link(1, 0)] && g2.remaining == 2 && g2.matrix[0][1] == 0;
  }

  /** Phase two as written on those draws: the first shuffled pair (0, 1) is joined again. */
  lemma RepeatOffered()
    ensures Fits(RepeatRequest, RepeatDraws)
    ensures Offered(RepeatRequest, RepeatDraws, 1, true).links == [Link(1, 0), Link(2, 1), Link(0, 1)]
  {
    RepeatGrown();
  }


  /** The `n` integers from `lo` on. */
  function Interval(lo: int, n: nat): (r: set<int>)
    ensures forall v :: v in r <==> lo <= v < lo + n
    ensures |r| == n
  {
    if n == 0 then {} else Interval(lo, n - 1) + {lo + n - 1}
  }

  /** `random.sample` of the whole range hands out every id of the range, once. */
  lemma SampleCoversRange(ids: seq<int>, initial: int, order: nat)
    requires IsSample(ids, initial, order)
    ensures forall v | initial <= v < initial + order :: v in ids
  {
    var drawn := set i | 0 <= i < order :: ids[i];
    var range := Interval(initial, order);
    assert drawn <= range;
    Sequences.DistinctIndices(ids);
    Sequences.DistinctCardinality(ids, drawn);
    assert range == drawn + (range - drawn);
    assert range - drawn == {};
  }

  /** The tracking matrix in the array holds the cells of the modelled one. */
  ghost predicate Tracks(m: array2<int>, matrix: seq<seq<int>>, n: nat)
    reads m
    requires Square(matrix, n)
  {
    m.Length0 == n && m.Length1 == n && forall a, b | 0 <= a < n && 0 <= b < n :: m[a, b] == matrix[a][b]
  }

  /** The `j`-th edge object joins the nodes at the positions of the `j`-th link, undirected. */
  ghost predicate Realizes(nodes: seq<Node>, edges: seq<Edge>, links: seq<Link>)
    reads edges
  {
    && |edges| == |links|
    && forall j | 0 <= j < |links| ::
      && links[j].source < |nodes| && links[j].target < |nodes|
      && edges[j].source == nodes[links[j].source] && edges[j].target == nodes[links[j].target]
      && !edges[j].directed
  }

  /** Appending a node keeps the edges joining the same positions. */
  lemma RealizesMoreNodes(nodes: seq<Node>, node: Node, edges: seq<Edge>, links: seq<Link>)
    requires Realizes(nodes, edges, links)
    ensures Realizes(nodes + [node], edges, links)
  {
    var more := nodes + [node];
    forall j | 0 <= j < |links|
      ensures more[links[j].source] == nodes[links[j].source] && more[links[j].target] == nodes[links[j].target]
    {
    }
  }

  /** Appending an edge object for a new link keeps the realisation. */
  lemma RealizesMoreEdges(nodes: seq<Node>, edges: seq<Edge>, links: seq<Link>, e: Edge, l: Link)
    requires Realizes(nodes, edges, links)
    requires l.source < |nodes| && l.target < |nodes|
    requires e.source == nodes[l.source] && e.target == nodes[l.target] && !e.directed
    ensures Realizes(nodes, edges + [e], links + [l])
  {
    var es, ls := edges + [e], links + [l];
    forall j | 0 <= j < |ls|
      ensures ls[j].source < |nodes| && ls[j].target < |nodes|
      ensures es[j].source == nodes[ls[j].source] && es[j].target == nodes[ls[j].target] && !es[j].directed
    {
      if j < |links| {
        assert es[j] == edges[j] && ls[j] == links[j];
      }
    }
  }

  /**
   * The internal ids of the nodes and the edges are pairwise different and lie in `[lo, hi)`:
   * each was drawn once from the counter while it ran from `lo` to `hi`.
   */
  predicate DrawnFrom(nodes: seq<Node>, edges: seq<Edge>, lo: int, hi: int)
  {
    && (forall i | 0 <= i < |nodes| :: lo <= NodeId(nodes, i) < hi)
    && (forall j | 0 <= j < |edges| :: lo <= EdgeId(edges, j) < hi)
    && (forall i, k | 0 <= i < k < |nodes| :: NodeId(nodes, i) != NodeId(nodes, k))
    && (forall j, k | 0 <= j < k < |edges| :: EdgeId(edges, j) != EdgeId(edges, k))
    && (forall i, j | 0 <= i < |nodes| && 0 <= j < |edges| :: NodeId(nodes, i) != EdgeId(edges, j))
  }

  /** The internal id of the `i`-th node. */
  function NodeId(nodes: seq<Node>, i: int): int
    requires 0 <= i < |nodes|
  {
    nodes[i].internalId
  }

  /** The internal id of the `j`-th edge. */
  function EdgeId(edges: seq<Edge>, j: int): int
    requires 0 <= j < |edges|
  {
    edges[j].internalId
  }

  /** A node drawing the next id keeps the ids distinct. */
  lemma DrawnNode(nodes: seq<Node>, edges: seq<Edge>, lo: int, hi: int, n: Node)
    requires DrawnFrom(nodes, edges, lo, hi) && lo <= hi && n.internalId == hi
    ensures DrawnFrom(nodes + [n], edges, lo, hi + 1)
  {
    var ns := nodes + [n];
    assert forall i | 0 <= i < |nodes| :: NodeId(ns, i) == NodeId(nodes, i);
    assert NodeId(ns, |nodes|) == hi;
  }

  /** An edge drawing the next id keeps the ids distinct. */
  lemma DrawnEdge(nodes: seq<Node>, edges: seq<Edge>, lo: int, hi: int, e: Edge)
    requires DrawnFrom(nodes, edges, lo, hi) && lo <= hi && e.internalId == hi
    ensures DrawnFrom(nodes, edges + [e], lo, hi + 1)
  {
    var es := edges + [e];
    assert forall j | 0 <= j < |edges| :: EdgeId(es, j) == EdgeId(edges, j);
    assert EdgeId(es, |edges|) == hi;
  }

  /** One step of phase one: the node draws the next id, then its edge, if any, the one after. */
  lemma DrawnPlanted(nodes: seq<Node>, edges: seq<Edge>, nodes': seq<Node>, edges': seq<Edge>, lo: int, hi: int)
    requires DrawnFrom(nodes, edges, lo, hi) && lo <= hi
    requires |nodes'| == |nodes| + 1 && nodes' == nodes + [nodes'[|nodes|]] && nodes'[|nodes|].internalId == hi
    requires |edges| <= |edges'| <= |edges| + 1 && edges'[..|edges|] == edges
    requires forall j | |edges| <= j < |edges'| :: edges'[j].internalId == hi + 1
    ensures DrawnFrom(nodes', edges', lo, hi + 1 + |edges'| - |edges|)
  {
    DrawnNode(nodes, edges, lo, hi, nodes'[|nodes|]);
    if |edges'| > |edges| {
      assert edges' == edges + [edges'[|edges|]];
      DrawnEdge(nodes', edges, lo, hi + 1, edges'[|edges|]);
    } else {
      assert edges' == edges;
    }
  }

  /** One step of phase two: the edge, if any, draws the next id. */
  lemma DrawnOffered(nodes: seq<Node>, edges: seq<Edge>, edges': seq<Edge>, lo: int, hi: int)
    requires DrawnFrom(nodes, edges, lo, hi) && lo <= hi
    requires |edges| <= |edges'| <= |edges| + 1 && edges'[..|edges|] == edges
    requires forall j | |edges| <= j < |edges'| :: edges'[j].internalId == hi
    ensures DrawnFrom(nodes, edges', lo, hi + |edges'| - |edges|)
  {
    if |edges'| > |edges| {
      assert edges' == edges + [edges'[|edges|]];
      DrawnEdge(nodes, edges, lo, hi, edges'[|edges|]);
    } else {
      assert edges' == edges;
    }
  }

  /** `m[u][v] += 1` then `m[v][u] += 1` on the array. */
  method Mark(m: array2<int>, n: nat, ghost matrix: seq<seq<int>>, u: nat, v: nat)
    requires Square(matrix, n) && u < n && v < n && Tracks(m, matrix, n)
    modifies m
    ensures Tracks(m, Bump(matrix, n, u, v), n)
  {
    m[u, v] := m[u, v] + 1;
    m[v, u] := m[v, u] + 1;
  }

  /** One step of phase one: the node of position `i`, and its edge when one is due. */
  method PlantNode(q: Request, d: Draws, m: array2<int>, ghost s: Progress, i: nat,
                   nodes: seq<Node>, edges: seq<Edge>, remaining: int, globalIds: IdGenerator)
    returns (nodes': seq<Node>, edges': seq<Edge>, remaining': int)
    requires Fits(q, d) && i < q.order && |nodes| == i && Square(s.matrix, q.order)
    requires Tracks(m, s.matrix, q.order) && Realizes(nodes, edges, s.links) && remaining == s.remaining
    modifies m, globalIds
    ensures |nodes'| == i + 1 && nodes' == nodes + [nodes'[i]] && fresh(nodes'[i])
    ensures nodes'[i].id == d.ids[i] && nodes'[i].incident == []
    ensures |edges| <= |edges'| <= |edges| + 1 && edges'[..|edges|] == edges
    ensures forall j | |edges| <= j < |edges'| :: fresh(edges'[j])
    ensures nodes'[i].internalId == old(globalIds.next)
    ensures forall j | |edges| <= j < |edges'| :: edges'[j].internalId == old(globalIds.next) + 1
    ensures Square(Grow(q, d, s, i, false).matrix, q.order)
    ensures Tracks(m, Grow(q, d, s, i, false).matrix, q.order)
    ensures Realizes(nodes', edges', Grow(q, d, s, i, false).links)
    ensures remaining' == Grow(q, d, s, i, false).remaining
    ensures globalIds.next == old(globalIds.next) + 1 + |edges'| - |edges|
  {
    var id := globalIds.Next();
    var node := new Node(d.ids[i], id);
    nodes', edges', remaining' := nodes + [node], edges, remaining;
    RealizesMoreNodes(nodes, node, edges, s.links);
    if q.connected && remaining > 0 && i > 0 {
      var p := d.parents[i];
      var other := nodes[p];
      var edgeId := globalIds.Next();
      var e;
      if d.newIsSource[i] {
        e := new Edge(node, other, false, edgeId);
      } else {
        e := new Edge(other, node, false, edgeId);
      }
      RealizesMoreEdges(nodes', edges, s.links, e, TreeLink(d, i));
      edges' := edges + [e];
      Mark(m, q.order, s.matrix, i, p);
      remaining' := remaining - 1;
    }
  }

  /**
   * Phase one: one new node per position, carrying its sampled id, and while the budget lasts
   * with `connected` set, one new edge from it to an earlier node or back. The node takes its
   * internal id before its edge does.
   */
  method PlantTree(q: Request, d: Draws, m: array2<int>, globalIds: IdGenerator)
    returns (nodes: seq<Node>, edges: seq<Edge>, remaining: int)
    requires Fits(q, d) && Tracks(m, Zero(q.order), q.order)
    modifies m, globalIds
    ensures |nodes| == q.order
    ensures forall i | 0 <= i < q.order :: fresh(nodes[i]) && nodes[i].id == d.ids[i] && nodes[i].incident == []
    ensures forall j | 0 <= j < |edges| :: fresh(edges[j])
    ensures Tracks(m, Grown(q, d, q.order, false).matrix, q.order)
    ensures Realizes(nodes, edges, Grown(q, d, q.order, false).links)
    ensures remaining == Grown(q, d, q.order, false).remaining
    ensures globalIds.next == old(globalIds.next) + q.order + |edges|
    ensures DrawnFrom(nodes, edges, old(globalIds.next), globalIds.next)
  {
    nodes, edges, remaining := [], [], q.size;
    for i := 0 to q.order
      invariant |nodes| == i
      invariant forall t | 0 <= t < i :: fresh(nodes[t]) && nodes[t].id == d.ids[t] && nodes[t].incident == []
      invariant forall j | 0 <= j < |edges| :: fresh(edges[j])
      invariant Tracks(m, Grown(q, d, i, false).matrix, q.order)
      invariant Realizes(nodes, edges, Grown(q, d, i, false).links)
      invariant remaining == Grown(q, d, i, false).remaining
      invariant globalIds.next == old(globalIds.next) + i + |edges|
      invariant DrawnFrom(nodes, edges, old(globalIds.next), globalIds.next)
    {
      ghost var s := Grown(q, d, i, false);
      ghost var hi := globalIds.next;
      var nodes', edges' := nodes, edges;
      nodes', edges', remaining := PlantNode(q, d, m, s, i, nodes, edges, remaining, globalIds);
      assert forall t | 0 <= t < i :: nodes'[t] == nodes[t];
      assert forall j | 0 <= j < |edges| :: edges'[j] == edges[j];
      DrawnPlanted(nodes, edges, nodes', edges', old(globalIds.next), hi);
      nodes, edges := nodes', edges';
    }
  }

  /** One step of phase two: the pair `(u, v)` gets an edge when unused, or in multigraph mode. */
  method OfferPair(q: Request, m: array2<int>, ghost s: Progress, u: nat, v: nat,
                   nodes: seq<Node>, edges: seq<Edge>, remaining: int, globalIds: IdGenerator)
    returns (edges': seq<Edge>, remaining': int)
    requires |nodes| == q.order && u < q.order && v < q.order && Square(s.matrix, q.order) && s.remaining > 0
    requires Tracks(m, s.matrix, q.order) && Realizes(nodes, edges, s.links) && remaining == s.remaining
    modifies m, globalIds
    ensures |edges| <= |edges'| <= |edges| + 1 && edges'[..|edges|] == edges
    ensures forall j | |edges| <= j < |edges'| :: fresh(edges'[j])
    ensures forall j | |edges| <= j < |edges'| :: edges'[j].internalId == old(globalIds.next)
    ensures Square(Offer(q, s, u, v).matrix, q.order)
    ensures Tracks(m, Offer(q, s, u, v).matrix, q.order)
    ensures Realizes(nodes, edges', Offer(q, s, u, v).links)
    ensures remaining' == Offer(q, s, u, v).remaining
    ensures globalIds.next == old(globalIds.next) + |edges'| - |edges|
  {
    edges', remaining' := edges, remaining;
    if (m[u, v] == 0 && u != v) || q.multigraph {
      var edgeId := globalIds.Next();
      var e := new Edge(nodes[u], nodes[v], false, edgeId);
      RealizesMoreEdges(nodes, edges, s.links, e, Link(u, v));
      edges' := edges + [e];
      Mark(m, q.order, s.matrix, u, v);
      remaining' := remaining - 1;
    }
  }

  /**
   * Phase two: walk the shuffled position pairs and add an undirected edge for every pair the
   * matrix shows unused (and not a self-loop), or for every pair in multigraph mode, until the
   * budget is spent.
   */
  method AddPairs(q: Request, d: Draws, m: array2<int>, nodes: seq<Node>, tree: seq<Edge>, left: int,
                  globalIds: IdGenerator, ghost lo: int)
    returns (edges: seq<Edge>)
    requires Fits(q, d) && |nodes| == q.order && left == Grown(q, d, q.order, false).remaining
    requires lo <= globalIds.next && DrawnFrom(nodes, tree, lo, globalIds.next)
    requires Tracks(m, Grown(q, d, q.order, false).matrix, q.order)
    requires Realizes(nodes, tree, Grown(q, d, q.order, false).links)
    modifies m, globalIds
    ensures |tree| <= |edges| && edges[..|tree|] == tree
    ensures forall j | |tree| <= j < |edges| :: fresh(edges[j])
    ensures Realizes(nodes, edges, Generated(q, d))
    ensures globalIds.next == old(globalIds.next) + |edges| - |tree|
    ensures DrawnFrom(nodes, edges, lo, globalIds.next)
  {
    edges := tree;
    ghost var s := Grown(q, d, q.order, false);
    var remaining := left;
    var k := 0;
    while k < |d.pairs|
      invariant k <= |d.pairs| && |tree| <= |edges| && edges[..|tree|] == tree
      invariant forall j | |tree| <= j < |edges| :: fresh(edges[j])
      invariant s == Offered(q, d, k, false)
      invariant Tracks(m, s.matrix, q.order) && Realizes(nodes, edges, s.links) && remaining == s.remaining
      invariant globalIds.next == old(globalIds.next) + |edges| - |tree|
      invariant DrawnFrom(nodes, edges, lo, globalIds.next)
    {
      if remaining <= 0 {
        Exhausted(q, d, k, |d.pairs|, false);
        break;
      }
      var (u, v) := d.pairs[k];
      var edges' := edges;
      ghost var hi := globalIds.next;
      edges', remaining := OfferPair(q, m, s, u, v, nodes, edges, remaining, globalIds);
      assert edges'[..|tree|] == edges'[..|edges|][..|tree|];
      DrawnOffered(nodes, edges, edges', lo, hi);
      edges, s, k := edges', Offer(q, s, u, v), k + 1;
    }
  }

  /**
   * `Graph.random`: `order` new nodes carrying the sampled ids, in sampled order, and new
   * undirected edges joining them as `Generated` says; every node and edge draws its own
   * internal id from the counter. Nothing is added to a graph.
   */
  method Random(q: Request, d: Draws, globalIds: IdGenerator) returns (nodes: seq<Node>, edges: seq<Edge>)
    requires Fits(q, d)
    modifies globalIds
    ensures |nodes| == q.order
    ensures forall i | 0 <= i < q.order :: fresh(nodes[i]) && nodes[i].id == d.ids[i] && nodes[i].incident == []
    ensures forall j | 0 <= j < |edges| :: fresh(edges[j])
    ensures Realizes(nodes, edges, Generated(q, d))
    ensures globalIds.next == old(globalIds.next) + q.order + |edges|
    ensures DrawnFrom(nodes, edges, old(globalIds.next), globalIds.next)
  {
    var m := new int[q.order, q.order]((_, _) => 0);
    var tree, remaining;
    nodes, tree, remaining := PlantTree(q, d, m, globalIds);
    edges := AddPairs(q, d, m, nodes, tree, remaining, globalIds, old(globalIds.next));
    assert forall j | 0 <= j < |tree| :: edges[j] == tree[j];
  }
}
