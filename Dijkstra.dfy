/**
  The path search of solver/solver.py: Dijkstra's algorithm over the nodes of
  the solver's maze, from the first node to the last, followed by the walk
  back along the recorded predecessors that lists the cells of the path.
*/
module Dijkstra {
  import opened Wrappers
  import opened SolverMaze

  // ---------------------------------------------------------------------
  // The graph
  // ---------------------------------------------------------------------

  /**
    The graph calc_connections leaves behind: node cells are distinct, and
    every link names a node cell and has a positive distance.
  */
  predicate GraphOk(nodes: seq<Node>)
  {
    Shaped(nodes)
    && (forall a, b :: 0 <= a < b < |nodes| ==> nodes[a].index != nodes[b].index)
    && (forall k, s :: 0 <= k < |nodes| && 0 <= s < 4 && nodes[k].connections[s].Some? ==>
          nodes[k].connections[s].value in Indices(nodes) && nodes[k].distances[s].Some? && nodes[k].distances[s].value > 0)
  }

  /** calc_connections over unlinked nodes on distinct cells leaves such a graph. */
  lemma ConnectionsAreAGraph(g: Layout, o: seq<Node>)
    requires LayoutOk(g) && Shaped(o) && Indices(o) == g.idx
    requires forall k :: 0 <= k < |o| ==> o[k] == NewNode(o[k].index)
    requires forall a, b :: 0 <= a < b < |g.idx| ==> g.idx[a] != g.idx[b]
    ensures GraphOk(Connections(g, o))
  {
    var ns := Connections(g, o);
    forall k, s | 0 <= k < |ns| && 0 <= s < 4 && ns[k].connections[s].Some?
      ensures ns[k].connections[s].value in Indices(ns) && ns[k].distances[s].Some? && ns[k].distances[s].value > 0
    {
      ConnectionsLinkNodes(g, o, k, s);
    }
    forall a, b | 0 <= a < b < |ns|
      ensures ns[a].index != ns[b].index
    {
      assert Indices(ns)[a] == ns[a].index && Indices(ns)[b] == ns[b].index;
    }
  }

  /**
    The nodes calc_nodes makes from the cells of a maze of any shape, once
    calc_connections has linked them, are a graph the search can run on.
  */
  lemma MazeGraphOk(cells: seq<nat>, rows: int, cols: int)
    requires rows >= 0 && cols >= 0 && |cells| == rows * cols
    ensures var g := Layout(cells, rows, cols, NodeCells(cells));
      LayoutOk(g) && GraphOk(Connections(g, NewNodes(NodeCells(cells))))
  {
    NodeCellsAreTheNodes(cells);
    var nc := NodeCells(cells);
    ConnectionsAreAGraph(Layout(cells, rows, cols, nc), NewNodes(nc));
  }

  /** get_node_array_index finds every node at its own position. */
  lemma PositionOfNode(nodes: seq<Node>, k: int)
    requires GraphOk(nodes) && 0 <= k < |nodes|
    ensures Position(Indices(nodes), nodes[k].index) == k
  {
  }

  /** Slot s of node x links to another node. */
  predicate IsEdge(nodes: seq<Node>, x: int, s: int)
    requires GraphOk(nodes)
  {
    0 <= x < |nodes| && 0 <= s < 4 && nodes[x].connections[s].Some?
  }

  /** The position of the node an edge leads to. */
  function Target(nodes: seq<Node>, x: int, s: int): (y: int)
    requires GraphOk(nodes) && IsEdge(nodes, x, s)
    ensures 0 <= y < |nodes| && nodes[y].index == nodes[x].connections[s].value
  {
    Position(Indices(nodes), nodes[x].connections[s].value)
  }

  /** The distance along an edge. */
  function Weight(nodes: seq<Node>, x: int, s: int): (w: int)
    requires GraphOk(nodes) && IsEdge(nodes, x, s)
    ensures w > 0
  {
    nodes[x].distances[s].value
  }

  /** A walk: node positions ps joined by the slots ss, each slot an edge to the next position. */
  predicate Walk(nodes: seq<Node>, ps: seq<int>, ss: seq<int>)
    requires GraphOk(nodes)
  {
    |ps| == |ss| + 1
    && (forall i :: 0 <= i < |ps| ==> 0 <= ps[i] < |nodes|)
    && (forall i :: 0 <= i < |ss| ==> IsEdge(nodes, ps[i], ss[i]) && Target(nodes, ps[i], ss[i]) == ps[i + 1])
  }

  /** A walk from the first node (the start) to the last (the end). */
  predicate Route(nodes: seq<Node>, ps: seq<int>, ss: seq<int>)
    requires GraphOk(nodes)
  {
    Walk(nodes, ps, ss) && ps[0] == 0 && ps[|ps| - 1] == |nodes| - 1
  }

  /** The total distance of a walk, edge by edge from its first node. */
  function Len(nodes: seq<Node>, ps: seq<int>, ss: seq<int>): (l: int)
    requires GraphOk(nodes) && Walk(nodes, ps, ss)
    ensures l >= |ss|
    decreases |ss|
  {
    if ss == [] then 0
    else
      assert Walk(nodes, ps[1..], ss[1..]);
      Weight(nodes, ps[0], ss[0]) + Len(nodes, ps[1..], ss[1..])
  }

  /** The cells of the nodes of a walk, in order. */
  function Cells(nodes: seq<Node>, ps: seq<int>): (cs: seq<int>)
    requires forall i :: 0 <= i < |ps| ==> 0 <= ps[i] < |nodes|
    ensures |cs| == |ps| && forall i :: 0 <= i < |ps| ==> cs[i] == nodes[ps[i]].index
  {
    seq(|ps|, i requires 0 <= i < |ps| => nodes[ps[i]].index)
  }

  // ---------------------------------------------------------------------
  // The priority queue
  // ---------------------------------------------------------------------

  /**
    The FibonacciHeap of the fibheap package, which is not part of this
    model, as what it represents: the key of each node position, None for a
    node not in the heap.
  */
  type Heap = seq<Option<int>>

  /** total_nodes: the number of nodes in the heap. */
  function Size(h: Heap): nat
  {
    if h == [] then 0 else Size(h[..|h| - 1]) + (if h[|h| - 1].Some? then 1 else 0)
  }

  /** Setting one entry changes the size by what that entry held and now holds. */
  lemma {:induction false} SizeUpdate(h: Heap, v: int, x: Option<int>)
    requires 0 <= v < |h|
    ensures Size(h[v := x]) == Size(h) - (if h[v].Some? then 1 else 0) + (if x.Some? then 1 else 0)
    decreases |h|
  {
    var h' := h[v := x];
    if v < |h| - 1 {
      assert h'[..|h'| - 1] == h[..|h| - 1][v := x];
      SizeUpdate(h[..|h| - 1], v, x);
    } else {
      assert h'[..|h'| - 1] == h[..|h| - 1];
    }
  }

  /** A heap has size 0 exactly when it has no entry. */
  lemma {:induction false} SizeZero(h: Heap)
    ensures Size(h) == 0 <==> forall k :: 0 <= k < |h| ==> h[k].None?
    decreases |h|
  {
    if h != [] {
      SizeZero(h[..|h| - 1]);
      assert forall k :: 0 <= k < |h| - 1 ==> h[..|h| - 1][k] == h[k];
    }
  }

  /** insert(key, node) of a node not in the heap. */
  function Insert(h: Heap, key: int, v: int): (r: Heap)
    requires 0 <= v < |h| && h[v].None?
    ensures |r| == |h| && r[v] == Some(key) && forall q :: 0 <= q < |h| && q != v ==> r[q] == h[q]
    ensures Size(r) == Size(h) + 1
  {
    SizeUpdate(h, v, Some(key));
    h[v := Some(key)]
  }

  /** decrease_key(key, node) of a node in the heap, to a key no larger. */
  function DecreaseKey(h: Heap, key: int, v: int): (r: Heap)
    requires 0 <= v < |h| && h[v].Some? && key <= h[v].value
    ensures |r| == |h| && r[v] == Some(key) && forall q :: 0 <= q < |h| && q != v ==> r[q] == h[q]
    ensures Size(r) == Size(h)
  {
    SizeUpdate(h, v, Some(key));
    h[v := Some(key)]
  }

  /** extract_min: remove an entry with the smallest key (the scan settles ties by position). */
  method ExtractMin(h: Heap) returns (u: int, key: int, r: Heap)
    requires Size(h) > 0
    ensures 0 <= u < |h| && h[u] == Some(key) && forall q :: 0 <= q < |h| && h[q].Some? ==> key <= h[q].value
    ensures r == h[u := None] && Size(r) == Size(h) - 1
  {
    u := -1;
    var k := 0;
    while k < |h|
      invariant 0 <= k <= |h| && -1 <= u < k
      invariant u == -1 ==> forall q :: 0 <= q < k ==> h[q].None?
      invariant u >= 0 ==> h[u].Some? && forall q :: 0 <= q < k && h[q].Some? ==> h[u].value <= h[q].value
    {
      if h[k].Some? && (u == -1 || h[k].value < h[u].value) {
        u := k;
      }
      k := k + 1;
    }
    if u == -1 {
      SizeZero(h);
    }
    key := h[u].value;
    r := h[u := None];
    SizeUpdate(h, u, None);
  }

  // ---------------------------------------------------------------------
  // The search state and what the main loop keeps true
  // ---------------------------------------------------------------------

  /**
    The locals of dijkstra: distances (None for infinity), prev (the cell
    of the predecessor), visited, nodes_in_queue (as whether a node was ever
    queued) and the heap.
  */
  datatype State = State(dist: seq<Option<int>>, prev: seq<Option<int>>, visited: seq<bool>,
                           queued: seq<bool>, heap: Heap)

  /** The number of nodes never queued. */
  function NotQueued(queued: seq<bool>): nat
  {
    if queued == [] then 0 else NotQueued(queued[..|queued| - 1]) + (if queued[|queued| - 1] then 0 else 1)
  }

  /** Queuing a node that was not queued leaves one fewer. */
  lemma {:induction false} NotQueuedMark(queued: seq<bool>, v: int)
    requires 0 <= v < |queued|
    ensures NotQueued(queued[v := true]) == NotQueued(queued) - (if queued[v] then 0 else 1)
    decreases |queued|
  {
    var q' := queued[v := true];
    if v < |queued| - 1 {
      assert q'[..|q'| - 1] == queued[..|queued| - 1][v := true];
      NotQueuedMark(queued[..|queued| - 1], v);
    } else {
      assert q'[..|q'| - 1] == queued[..|queued| - 1];
    }
  }

  /** Before anything is queued, every node is unqueued. */
  lemma {:induction false} NotQueuedNone(n: nat)
    ensures NotQueued(seq(n, _ => false)) == n
  {
    if n > 0 {
      assert seq(n, _ => false)[..n - 1] == seq(n - 1, _ => false);
      NotQueuedNone(n - 1);
    }
  }

  /** Every node that had a distance still has one, and no larger. */
  predicate NeverLonger(before: seq<Option<int>>, after: seq<Option<int>>)
  {
    |after| == |before|
    && forall k :: 0 <= k < |before| && before[k].Some? ==> after[k].Some? && after[k].value <= before[k].value
  }

  // ---------------------------------------------------------------------
  // What the main loop keeps true
  // ---------------------------------------------------------------------

  /** One entry per node in every list of the state. */
  predicate Lengths(nodes: seq<Node>, st: State)
  {
    |st.dist| == |nodes| && |st.prev| == |nodes| && |st.visited| == |nodes| && |st.queued| == |nodes| && |st.heap| == |nodes|
  }

  /** The first node is at distance 0 with no predecessor; cur is a node or -1, done a slot count. */
  ghost predicate Sized(nodes: seq<Node>, st: State, ps: seq<int>, cur: int, done: int)
  {
    |nodes| > 0 && Lengths(nodes, st) && |ps| == |nodes| && -1 <= cur < |nodes| && 0 <= done <= 4
    && st.dist[0] == Some(0) && st.prev[0].None?
  }

  /**
    Node k has a distance exactly when it was queued, and never a negative
    one; it is in the heap, keyed by its distance, exactly when it was queued
    and is neither explored nor being explored (cur).
  */
  ghost predicate QueuedAt(nodes: seq<Node>, st: State, cur: int, k: int)
    requires Lengths(nodes, st) && 0 <= k < |nodes|
  {
    (st.dist[k].Some? <==> st.queued[k])
    && (st.dist[k].Some? ==> st.dist[k].value >= 0)
    && (st.visited[k] ==> st.queued[k])
    && (st.heap[k].Some? <==> st.queued[k] && !st.visited[k] && k != cur)
    && (st.heap[k].Some? ==> st.heap[k] == st.dist[k])
  }

  ghost predicate Queued(nodes: seq<Node>, st: State, cur: int)
    requires Lengths(nodes, st)
  {
    (forall k :: 0 <= k < |nodes| ==> QueuedAt(nodes, st, cur, k))
    && (0 <= cur < |nodes| ==> st.queued[cur] && !st.visited[cur] && st.dist[cur].Some?)
  }

  /** A node v explored or being explored is no farther than a node q in the heap or being explored. */
  ghost predicate OrderedAt(nodes: seq<Node>, st: State, cur: int, v: int, q: int)
    requires Lengths(nodes, st) && 0 <= v < |nodes| && 0 <= q < |nodes|
  {
    (st.visited[v] || v == cur) && (st.heap[q].Some? || q == cur) ==>
      st.dist[v].Some? && st.dist[q].Some? && st.dist[v].value <= st.dist[q].value
  }

  ghost predicate Ordered(nodes: seq<Node>, st: State, cur: int)
    requires Lengths(nodes, st)
  {
    forall v, q :: 0 <= v < |nodes| && 0 <= q < |nodes| ==> OrderedAt(nodes, st, cur, v, q)
  }

  /** Slot s of x has been relaxed, if x is explored or is cur with s below `done`. */
  ghost predicate RelaxedAt(nodes: seq<Node>, st: State, cur: int, done: int, x: int, s: int)
    requires GraphOk(nodes) && Lengths(nodes, st) && 0 <= x < |nodes| && 0 <= s < 4
  {
    IsEdge(nodes, x, s) && (st.visited[x] || (x == cur && s < done)) ==>
      st.dist[x].Some? && st.dist[Target(nodes, x, s)].Some?
      && st.dist[Target(nodes, x, s)].value <= st.dist[x].value + Weight(nodes, x, s)
  }

  ghost predicate Relaxed(nodes: seq<Node>, st: State, cur: int, done: int)
    requires GraphOk(nodes) && Lengths(nodes, st)
  {
    forall x, s :: 0 <= x < |nodes| && 0 <= s < 4 ==> RelaxedAt(nodes, st, cur, done, x, s)
  }

  /**
    Only a reached node has a predecessor, and every reached node but the
    first has one: the cell prev[k] names a node j explored or being
    explored, slot ps[k] of j is an edge to k, and the distance of k is that
    of j plus the edge.
  */
  ghost predicate PrevAt(nodes: seq<Node>, st: State, ps: seq<int>, cur: int, k: int)
    requires GraphOk(nodes) && Lengths(nodes, st) && |ps| == |nodes| && 0 <= k < |nodes|
  {
    (st.prev[k].Some? ==> st.dist[k].Some?)
    && (0 < k && st.dist[k].Some? ==>
          st.prev[k].Some?
          && var j := Position(Indices(nodes), st.prev[k].value);
          0 <= j < |nodes| && (st.visited[j] || j == cur) && IsEdge(nodes, j, ps[k]) && Target(nodes, j, ps[k]) == k
          && st.dist[j].Some? && st.dist[k].value == st.dist[j].value + Weight(nodes, j, ps[k]))
  }

  ghost predicate Prevs(nodes: seq<Node>, st: State, ps: seq<int>, cur: int)
    requires GraphOk(nodes) && Lengths(nodes, st) && |ps| == |nodes|
  {
    forall k :: 0 <= k < |nodes| ==> PrevAt(nodes, st, ps, cur, k)
  }

  /** What the main loop keeps true while node cur (or none, -1) is explored and its slots below `done` are done. */
  ghost predicate Inv(nodes: seq<Node>, st: State, ps: seq<int>, cur: int, done: int)
    requires GraphOk(nodes)
  {
    Sized(nodes, st, ps, cur, done) && Queued(nodes, st, cur) && Ordered(nodes, st, cur)
    && Relaxed(nodes, st, cur, done) && Prevs(nodes, st, ps, cur)
  }

  /** The state after lines 5-24: only the first node is queued, at distance 0. */
  function Initial(n: int): (st: State)
    requires n > 0
    ensures |st.dist| == n && |st.prev| == n && |st.visited| == n && |st.queued| == n && |st.heap| == n
    ensures st.dist[0] == Some(0) && st.queued[0] && forall k :: 0 < k < n ==> st.dist[k].None? && !st.queued[k]
    ensures st.heap == st.dist && forall k :: 0 <= k < n ==> st.prev[k].None? && !st.visited[k]
  {
    State(seq(n, k => if k == 0 then Some(0) else None), seq(n, _ => None), seq(n, _ => false),
          seq(n, k => k == 0), seq(n, k => if k == 0 then Some(0) else None))
  }

  /** The initial state satisfies the invariant. */
  lemma InitialInv(nodes: seq<Node>)
    requires GraphOk(nodes) && |nodes| > 0
    ensures Inv(nodes, Initial(|nodes|), seq(|nodes|, _ => 0), -1, 0)
  {
    var st := Initial(|nodes|);
    var ps: seq<int> := seq(|nodes|, _ => 0);
    forall v, q | 0 <= v < |nodes| && 0 <= q < |nodes|
      ensures OrderedAt(nodes, st, -1, v, q)
    {
    }
    forall k | 0 <= k < |nodes|
      ensures PrevAt(nodes, st, ps, -1, k)
    {
    }
  }

  /** Extracting a node u with the smallest key starts its exploration. */
  lemma ExtractKeeps(nodes: seq<Node>, st: State, ps: seq<int>, u: int)
    requires GraphOk(nodes) && Inv(nodes, st, ps, -1, 0)
    requires 0 <= u < |st.heap| && st.heap[u].Some?
    requires forall q :: 0 <= q < |st.heap| && st.heap[q].Some? ==> st.heap[u].value <= st.heap[q].value
    ensures Inv(nodes, st.(heap := st.heap[u := None]), ps, u, 0)
  {
    var st' := st.(heap := st.heap[u := None]);
    assert QueuedAt(nodes, st, -1, u);
    forall k | 0 <= k < |nodes|
      ensures QueuedAt(nodes, st', u, k)
    {
      assert QueuedAt(nodes, st, -1, k);
    }
    forall v, q | 0 <= v < |nodes| && 0 <= q < |nodes|
      ensures OrderedAt(nodes, st', u, v, q)
    {
      assert QueuedAt(nodes, st, -1, q);
      assert OrderedAt(nodes, st, -1, v, q) && OrderedAt(nodes, st, -1, v, u);
    }
    forall x, s | 0 <= x < |nodes| && 0 <= s < 4
      ensures RelaxedAt(nodes, st', u, 0, x, s)
    {
      assert RelaxedAt(nodes, st, -1, 0, x, s);
    }
    forall k | 0 <= k < |nodes|
      ensures PrevAt(nodes, st', ps, u, k)
    {
      assert PrevAt(nodes, st, ps, -1, k);
    }
  }

  /** The update of lines 51-63: node v reached at distance nd from the node whose cell is `from`. */
  function Improve(st: State, v: int, nd: int, from: int): (st': State)
    requires 0 <= v < |st.dist| && 0 <= v < |st.prev| && 0 <= v < |st.queued| && 0 <= v < |st.heap|
    ensures |st'.dist| == |st.dist| && |st'.prev| == |st.prev| && |st'.queued| == |st.queued| && |st'.heap| == |st.heap|
    ensures st'.dist[v] == Some(nd) && st'.prev[v] == Some(from) && st'.queued[v] && st'.heap[v] == Some(nd)
    ensures st'.visited == st.visited
  {
    st.(dist := st.dist[v := Some(nd)], prev := st.prev[v := Some(from)], queued := st.queued[v := true],
        heap := st.heap[v := Some(nd)])
  }

  /**
    Lines 48-63: slot i of u leads to an unexplored node v that it brings
    closer; v is queued (inserted, or its key decreased) at the new distance
    with u as its predecessor.
  */
  lemma ImproveKeeps(nodes: seq<Node>, st: State, ps: seq<int>, u: int, i: int, v: int, nd: int)
    requires GraphOk(nodes) && Inv(nodes, st, ps, u, i) && 0 <= u && i < 4 && IsEdge(nodes, u, i)
    requires v == Target(nodes, u, i) && nd == st.dist[u].value + Weight(nodes, u, i)
    requires !st.visited[v] && (st.dist[v].None? || nd < st.dist[v].value)
    ensures v != u && (st.heap[v].Some? <==> st.queued[v]) && (st.heap[v].Some? ==> st.heap[v] == st.dist[v])
    ensures Inv(nodes, Improve(st, v, nd, nodes[u].index), ps[v := i], u, i + 1)
  {
    assert QueuedAt(nodes, st, u, v) && QueuedAt(nodes, st, u, u) && QueuedAt(nodes, st, u, 0);
    ImproveQueued(nodes, st, u, v, nd, nodes[u].index);
    ImproveOrdered(nodes, st, u, v, nd, nodes[u].index);
    ImproveRelaxed(nodes, st, u, i, v, nd, nodes[u].index);
    ImprovePrevs(nodes, st, ps, u, i, v, nd);
  }

  /** The heap bookkeeping survives the update of a node other than u that is not explored. */
  lemma ImproveQueued(nodes: seq<Node>, st: State, u: int, v: int, nd: int, from: int)
    requires Lengths(nodes, st) && 0 <= u < |nodes| && 0 <= v < |nodes| && v != u && !st.visited[v] && nd >= 0
    requires Queued(nodes, st, u)
    ensures Queued(nodes, Improve(st, v, nd, from), u)
  {
    var st' := Improve(st, v, nd, from);
    forall k | 0 <= k < |nodes|
      ensures QueuedAt(nodes, st', u, k)
    {
      assert QueuedAt(nodes, st, u, k);
    }
  }

  /** The order survives giving v a distance no smaller than that of u. */
  lemma ImproveOrdered(nodes: seq<Node>, st: State, u: int, v: int, nd: int, from: int)
    requires Lengths(nodes, st) && 0 <= u < |nodes| && 0 <= v < |nodes| && v != u && !st.visited[v]
    requires Queued(nodes, st, u) && Ordered(nodes, st, u) && st.dist[u].value <= nd
    ensures Ordered(nodes, Improve(st, v, nd, from), u)
  {
    var st' := Improve(st, v, nd, from);
    forall a, b | 0 <= a < |nodes| && 0 <= b < |nodes|
      ensures OrderedAt(nodes, st', u, a, b)
    {
      assert OrderedAt(nodes, st, u, a, b) && OrderedAt(nodes, st, u, a, u);
    }
  }

  /** Relaxation survives lowering the distance of v, and slot i of u is now relaxed. */
  lemma ImproveRelaxed(nodes: seq<Node>, st: State, u: int, i: int, v: int, nd: int, from: int)
    requires GraphOk(nodes) && Lengths(nodes, st) && 0 <= u && 0 <= i < 4 && IsEdge(nodes, u, i)
    requires v == Target(nodes, u, i) && v != u && !st.visited[v] && st.dist[u].Some?
    requires nd == st.dist[u].value + Weight(nodes, u, i) && (st.dist[v].None? || nd < st.dist[v].value)
    requires Relaxed(nodes, st, u, i)
    ensures Relaxed(nodes, Improve(st, v, nd, from), u, i + 1)
  {
    var st' := Improve(st, v, nd, from);
    var done := i + 1;
    forall x, s | 0 <= x < |nodes| && 0 <= s < 4
      ensures RelaxedAt(nodes, st', u, done, x, s)
    {
      assert RelaxedAt(nodes, st, u, i, x, s);
    }
  }

  /** The predecessors survive, and that of v is u through slot i. */
  lemma ImprovePrevs(nodes: seq<Node>, st: State, ps: seq<int>, u: int, i: int, v: int, nd: int)
    requires GraphOk(nodes) && Lengths(nodes, st) && |ps| == |nodes| && 0 <= u && 0 <= i < 4 && IsEdge(nodes, u, i)
    requires v == Target(nodes, u, i) && v != u && !st.visited[v] && st.dist[u].Some?
    requires nd == st.dist[u].value + Weight(nodes, u, i)
    requires Prevs(nodes, st, ps, u)
    ensures Prevs(nodes, Improve(st, v, nd, nodes[u].index), ps[v := i], u)
  {
    var st' := Improve(st, v, nd, nodes[u].index);
    var ps' := ps[v := i];
    PositionOfNode(nodes, u);
    forall k | 0 <= k < |nodes|
      ensures PrevAt(nodes, st', ps', u, k)
    {
      assert PrevAt(nodes, st, ps, u, k);
      if k != v && 0 < k && st.dist[k].Some? {
        var j := Position(Indices(nodes), st.prev[k].value);
        assert st'.dist[j] == st.dist[j];
      }
    }
  }

  /** Lines 37-66 when slot i of u changes nothing: no link, an explored node, or no shorter distance. */
  lemma SkipKeeps(nodes: seq<Node>, st: State, ps: seq<int>, u: int, i: int)
    requires GraphOk(nodes) && Inv(nodes, st, ps, u, i) && 0 <= u && 0 <= i < 4
    requires IsEdge(nodes, u, i) ==>
      st.visited[Target(nodes, u, i)]
      || (st.dist[Target(nodes, u, i)].Some?
          && st.dist[Target(nodes, u, i)].value <= st.dist[u].value + Weight(nodes, u, i))
    ensures Inv(nodes, st, ps, u, i + 1)
  {
    var done := i + 1;
    forall x, s | 0 <= x < |nodes| && 0 <= s < 4
      ensures RelaxedAt(nodes, st, u, done, x, s)
    {
      assert RelaxedAt(nodes, st, u, i, x, s);
      if x == u && s == i && IsEdge(nodes, u, i) {
        assert OrderedAt(nodes, st, u, Target(nodes, u, i), u);
      }
    }
  }

  /** Line 68: once its four slots are done, u counts as explored. */
  lemma FinishKeeps(nodes: seq<Node>, st: State, ps: seq<int>, u: int)
    requires GraphOk(nodes) && Inv(nodes, st, ps, u, 4) && 0 <= u
    ensures Inv(nodes, st.(visited := st.visited[u := true]), ps, -1, 0)
  {
    var st' := st.(visited := st.visited[u := true]);
    forall k | 0 <= k < |nodes|
      ensures QueuedAt(nodes, st', -1, k)
    {
      assert QueuedAt(nodes, st, u, k);
    }
    forall a, b | 0 <= a < |nodes| && 0 <= b < |nodes|
      ensures OrderedAt(nodes, st', -1, a, b)
    {
      assert OrderedAt(nodes, st, u, a, b);
    }
    forall x, s | 0 <= x < |nodes| && 0 <= s < 4
      ensures RelaxedAt(nodes, st', -1, 0, x, s)
    {
      assert RelaxedAt(nodes, st, u, 4, x, s);
    }
    forall k | 0 <= k < |nodes|
      ensures PrevAt(nodes, st', ps, -1, k)
    {
      assert PrevAt(nodes, st, ps, u, k);
    }
  }

  // ---------------------------------------------------------------------
  // Lines 4-68: the search
  // ---------------------------------------------------------------------

  /** The message of the IndexError raised by maze.nodes[0] on a maze without nodes. */
  const NoStartNode: string := "IndexError: list index out of range"

  /**
    Once the heap is empty, every walk from a node with a distance ends at
    a node with a distance, and at most the walk's length farther.
  */
  lemma {:induction false} WalkBound(nodes: seq<Node>, st: State, ps: seq<int>, ws: seq<int>, ss: seq<int>)
    requires GraphOk(nodes) && Inv(nodes, st, ps, -1, 0) && forall k :: 0 <= k < |nodes| ==> st.heap[k].None?
    requires Walk(nodes, ws, ss) && st.dist[ws[0]].Some?
    ensures st.dist[ws[|ws| - 1]].Some? && st.dist[ws[|ws| - 1]].value <= st.dist[ws[0]].value + Len(nodes, ws, ss)
    decreases |ss|
  {
    if ss != [] {
      // a node with a distance was queued, and it is not in the empty heap, so it has been explored
      assert QueuedAt(nodes, st, -1, ws[0]);
      assert RelaxedAt(nodes, st, -1, 0, ws[0], ss[0]);
      assert Walk(nodes, ws[1..], ss[1..]);
      WalkBound(nodes, st, ps, ws[1..], ss[1..]);
    }
  }

  /**
    Lines 37-66 for slot i of the node at position u: an unexplored
    neighbour that u brings closer is queued, with u as its predecessor.
  */
  method RelaxSlot(maze: Maze, u: int, i: int, distances0: seq<Option<int>>, prev0: seq<Option<int>>, visited: seq<bool>,
                   queued0: seq<bool>, heap0: Heap, ghost ps0: seq<int>)
    returns (distances: seq<Option<int>>, prev: seq<Option<int>>, nodesInQueue: seq<bool>, unvisited: Heap, ghost ps: seq<int>)
    requires GraphOk(maze.nodes) && 0 <= u && 0 <= i < 4
    requires Inv(maze.nodes, State(distances0, prev0, visited, queued0, heap0), ps0, u, i)
    ensures Inv(maze.nodes, State(distances, prev, visited, nodesInQueue, unvisited), ps, u, i + 1)
    ensures NotQueued(nodesInQueue) + Size(unvisited) == NotQueued(queued0) + Size(heap0)
    ensures NeverLonger(distances0, distances)
  {
    ghost var st := State(distances0, prev0, visited, queued0, heap0);
    distances, prev, nodesInQueue, unvisited, ps := distances0, prev0, queued0, heap0, ps0;
    var curr := maze.nodes[u];
    var nbr := curr.connections[i];
    if nbr.Some? {
      var nbrIndex := maze.GetNodeArrayIndex(nbr.value);
      if !visited[nbrIndex] {
        var newDistance := distances[u].value + curr.distances[i].value;
        if distances[nbrIndex].None? || newDistance < distances[nbrIndex].value {
          ImproveKeeps(maze.nodes, st, ps, u, i, nbrIndex, newDistance);
          NotQueuedMark(nodesInQueue, nbrIndex);
          if !nodesInQueue[nbrIndex] {
            unvisited := Insert(unvisited, newDistance, nbrIndex);
            nodesInQueue := nodesInQueue[nbrIndex := true];
            distances := distances[nbrIndex := Some(newDistance)];
            prev := prev[nbrIndex := Some(curr.index)];
          } else {
            unvisited := DecreaseKey(unvisited, newDistance, nbrIndex);
            assert nodesInQueue[nbrIndex := true] == nodesInQueue;
            distances := distances[nbrIndex := Some(newDistance)];
            prev := prev[nbrIndex := Some(curr.index)];
          }
          ps := ps[nbrIndex := i];
          assert State(distances, prev, visited, nodesInQueue, unvisited) == Improve(st, nbrIndex, newDistance, curr.index);
          return;
        }
      }
    }
    SkipKeeps(maze.nodes, st, ps, u, i);
  }

  /** Lines 36-66: relax the four slots of the node at position u in turn. */
  method ExploreNeighbours(maze: Maze, u: int, distances0: seq<Option<int>>, prev0: seq<Option<int>>, visited: seq<bool>,
                           queued0: seq<bool>, heap0: Heap, ghost ps0: seq<int>)
    returns (distances: seq<Option<int>>, prev: seq<Option<int>>, nodesInQueue: seq<bool>, unvisited: Heap, ghost ps: seq<int>)
    requires GraphOk(maze.nodes) && 0 <= u && Inv(maze.nodes, State(distances0, prev0, visited, queued0, heap0), ps0, u, 0)
    ensures Inv(maze.nodes, State(distances, prev, visited, nodesInQueue, unvisited), ps, u, 4)
    ensures NotQueued(nodesInQueue) + Size(unvisited) == NotQueued(queued0) + Size(heap0)
    ensures NeverLonger(distances0, distances)
  {
    distances, prev, nodesInQueue, unvisited, ps := distances0, prev0, queued0, heap0, ps0;
    var curr := maze.nodes[u];
    var iNbr := 0;
    while iNbr < |curr.connections|
      invariant 0 <= iNbr <= 4 && |curr.connections| == 4
      invariant Inv(maze.nodes, State(distances, prev, visited, nodesInQueue, unvisited), ps, u, iNbr)
      invariant NotQueued(nodesInQueue) + Size(unvisited) == NotQueued(queued0) + Size(heap0)
      invariant NeverLonger(distances0, distances)
    {
      distances, prev, nodesInQueue, unvisited, ps := RelaxSlot(maze, u, iNbr, distances, prev, visited, nodesInQueue, unvisited, ps);
      iNbr := iNbr + 1;
    }
  }

  /**
    Lines 5-68: Dijkstra's search from the first node. On return every node
    that any walk from the first node reaches has a distance, no walk is
    shorter than it, and its predecessors lead back to the first node. The
    main loop runs once for each node ever queued, so at most once per node.
  */
  method Search(maze: Maze)
    returns (distances: seq<Option<int>>, prev: seq<Option<int>>, ghost st: State, ghost ps: seq<int>, ghost rounds: nat)
    requires GraphOk(maze.nodes) && |maze.nodes| > 0
    ensures st.dist == distances && st.prev == prev && Inv(maze.nodes, st, ps, -1, 0)
    ensures forall k :: 0 <= k < |maze.nodes| ==> st.heap[k].None?
    ensures rounds == |maze.nodes| - NotQueued(st.queued) && rounds <= |maze.nodes|
  {
    var nodeCount := |maze.nodes|;
    distances := seq(nodeCount, _ => None);
    distances := distances[0 := Some(0)];
    prev := seq(nodeCount, _ => None);
    var visited := seq(nodeCount, _ => false);
    var unvisited: Heap := seq(nodeCount, _ => None);
    var nodesInQueue := seq(nodeCount, _ => false);
    unvisited := Insert(unvisited, distances[0].value, 0);
    nodesInQueue := nodesInQueue[0 := true];
    ps := seq(nodeCount, _ => 0);
    InitialInv(maze.nodes);
    assert State(distances, prev, visited, nodesInQueue, unvisited) == Initial(nodeCount);
    rounds := 0;
    assert NotQueued(nodesInQueue) + Size(unvisited) == nodeCount by {
      NotQueuedNone(nodeCount);
      NotQueuedMark(seq(nodeCount, _ => false), 0);
      SizeZero(seq(nodeCount, _ => None));
    }
    while Size(unvisited) > 0
      invariant Inv(maze.nodes, State(distances, prev, visited, nodesInQueue, unvisited), ps, -1, 0)
      invariant rounds + NotQueued(nodesInQueue) + Size(unvisited) == nodeCount
      decreases NotQueued(nodesInQueue) + Size(unvisited)
    {
      var u, currDist, rest := ExtractMin(unvisited);
      ExtractKeeps(maze.nodes, State(distances, prev, visited, nodesInQueue, unvisited), ps, u);
      unvisited := rest;
      var curr := maze.nodes[u];
      var currIndex := maze.GetNodeArrayIndex(curr.index);
      PositionOfNode(maze.nodes, u);
      distances, prev, nodesInQueue, unvisited, ps :=
        ExploreNeighbours(maze, currIndex, distances, prev, visited, nodesInQueue, unvisited, ps);
      FinishKeeps(maze.nodes, State(distances, prev, visited, nodesInQueue, unvisited), ps, currIndex);
      visited := visited[currIndex := true];
      rounds := rounds + 1;
    }
    st := State(distances, prev, visited, nodesInQueue, unvisited);
    SizeZero(unvisited);
  }

  // ---------------------------------------------------------------------
  // Lines 70-84: the path back from the end
  // ---------------------------------------------------------------------

  /** Putting an edge in front of a walk that starts where the edge ends gives a longer walk. */
  lemma WalkCons(nodes: seq<Node>, p: int, s: int, ps: seq<int>, ss: seq<int>)
    requires GraphOk(nodes) && Walk(nodes, ps, ss) && IsEdge(nodes, p, s) && Target(nodes, p, s) == ps[0]
    ensures Walk(nodes, [p] + ps, [s] + ss)
    ensures Len(nodes, [p] + ps, [s] + ss) == Weight(nodes, p, s) + Len(nodes, ps, ss)
  {
    assert ([p] + ps)[1..] == ps && ([s] + ss)[1..] == ss;
  }

  /** The cells of a walk with one more node in front. */
  lemma CellsCons(nodes: seq<Node>, p: int, ws: seq<int>)
    requires 0 <= p < |nodes| && forall i :: 0 <= i < |ws| ==> 0 <= ws[i] < |nodes|
    ensures Cells(nodes, [p] + ws) == [nodes[p].index] + Cells(nodes, ws)
  {
    var a, b := Cells(nodes, [p] + ws), [nodes[p].index] + Cells(nodes, ws);
    forall i | 0 <= i < |a|
      ensures a[i] == b[i]
    {
      if i > 0 {
        assert ([p] + ws)[i] == ws[i - 1];
      }
    }
  }

  /**
    What the walk back keeps true: ws, ss is a walk to the end; once it has
    more than the end, its first node has a distance; and the distance of
    its first node plus its length is the distance of the end.
  */
  ghost predicate BackWalk(nodes: seq<Node>, st: State, ws: seq<int>, ss: seq<int>)
    requires GraphOk(nodes) && Lengths(nodes, st)
  {
    Walk(nodes, ws, ss) && ws[|ws| - 1] == |nodes| - 1
    && (|ws| > 1 ==> st.dist[ws[0]].Some?)
    && (st.dist[ws[0]].Some? ==>
          st.dist[|nodes| - 1].Some? && st.dist[ws[0]].value + Len(nodes, ws, ss) == st.dist[|nodes| - 1].value)
  }

  /**
    One round of the walk back: the predecessor of the first node of the
    walk is a node p closer to the start, joined to it by an edge, and the
    longer walk still accounts for the distance of the end.
  */
  lemma BackStep(nodes: seq<Node>, st: State, ps: seq<int>, ws: seq<int>, ss: seq<int>, p: int)
    requires GraphOk(nodes) && Inv(nodes, st, ps, -1, 0) && BackWalk(nodes, st, ws, ss)
    requires st.prev[ws[0]].Some? && p == Position(Indices(nodes), st.prev[ws[0]].value)
    ensures 0 <= p < |nodes| && nodes[p].index == st.prev[ws[0]].value
    ensures BackWalk(nodes, st, [p] + ws, [ps[ws[0]]] + ss)
    ensures st.dist[ws[0]].Some? && st.dist[p].Some? && 0 <= st.dist[p].value < st.dist[ws[0]].value
  {
    assert PrevAt(nodes, st, ps, -1, ws[0]);
    assert QueuedAt(nodes, st, -1, p);
    WalkCons(nodes, p, ps[ws[0]], ws, ss);
  }

  /** The walk back stops at a node without a predecessor: the start, or the end when it was not reached. */
  lemma BackDone(nodes: seq<Node>, st: State, ps: seq<int>, ws: seq<int>, ss: seq<int>)
    requires GraphOk(nodes) && Inv(nodes, st, ps, -1, 0) && BackWalk(nodes, st, ws, ss) && st.prev[ws[0]].None?
    ensures st.dist[|nodes| - 1].None? ==> ws == [|nodes| - 1]
    ensures st.dist[|nodes| - 1].Some? ==> ws[0] == 0 && Len(nodes, ws, ss) == st.dist[|nodes| - 1].value
  {
    assert PrevAt(nodes, st, ps, -1, ws[0]);
  }

  /**
    The walk back of lines 70-84, with the end node's cell put first once,
    before the loop: from the end, follow the predecessors until a node
    without one, putting each node's cell in front of the path. The path
    ends at the end node; it starts at the first node along a walk exactly
    as long as the end's distance when the end was reached, and it is the
    end's cell alone when the end was not reached.
  */
  method Reconstruct(maze: Maze, prev: seq<Option<int>>, ghost st: State, ghost ps: seq<int>)
    returns (path: seq<int>, ghost ws: seq<int>, ghost ss: seq<int>)
    requires GraphOk(maze.nodes) && Inv(maze.nodes, st, ps, -1, 0) && st.prev == prev
    ensures Walk(maze.nodes, ws, ss) && ws[|ws| - 1] == |maze.nodes| - 1 && path == Cells(maze.nodes, ws)
    ensures st.dist[|maze.nodes| - 1].None? ==> ws == [|maze.nodes| - 1]
    ensures st.dist[|maze.nodes| - 1].Some? ==> ws[0] == 0 && Len(maze.nodes, ws, ss) == st.dist[|maze.nodes| - 1].value
  {
    var nodes := maze.nodes;
    var n := |nodes|;
    var endNode := nodes[n - 1];
    var current := maze.GetNodeArrayIndex(endNode.index);
    PositionOfNode(nodes, n - 1);
    path := [endNode.index];
    ws, ss := [current], [];
    var next := prev[current];
    while next.Some?
      invariant BackWalk(nodes, st, ws, ss) && path == Cells(nodes, ws) && next == prev[ws[0]]
      decreases if st.dist[ws[0]].Some? then st.dist[ws[0]].value + 1 else 0
    {
      current := maze.GetNodeArrayIndex(next.value);
      BackStep(nodes, st, ps, ws, ss, current);
      CellsCons(nodes, current, ws);
      path := [next.value] + path;
      ws, ss := [current] + ws, [ps[ws[0]]] + ss;
      next := prev[current];
    }
    BackDone(maze.nodes, st, ps, ws, ss);
  }

  /** Every route from the start to the end is at least as long as the route ws, ss, whose cells are the path. */
  ghost predicate ShortestPath(nodes: seq<Node>, path: seq<int>, ws: seq<int>, ss: seq<int>)
    requires GraphOk(nodes)
  {
    Route(nodes, ws, ss) && path == Cells(nodes, ws)
    && forall ws', ss' :: Route(nodes, ws', ss') ==> Len(nodes, ws, ss) <= Len(nodes, ws', ss')
  }

  /** No route leads from the start to the end. */
  ghost predicate NoPath(nodes: seq<Node>)
    requires GraphOk(nodes)
  {
    forall ws, ss :: !Route(nodes, ws, ss)
  }

  /**
    dijkstra(maze): the cells of a shortest route from the first node to the
    last; the last node's cell alone when no route reaches it; and the
    IndexError of maze.nodes[0] when the maze has no nodes.
  */
  method FindPath(maze: Maze) returns (r: Result<seq<int>, string>, ghost ws: seq<int>, ghost ss: seq<int>)
    requires GraphOk(maze.nodes)
    ensures r.Err? <==> |maze.nodes| == 0
    ensures r.Err? ==> r.error == NoStartNode
    ensures r.Ok? ==>
      ShortestPath(maze.nodes, r.value, ws, ss) || (NoPath(maze.nodes) && r.value == [maze.nodes[|maze.nodes| - 1].index])
  {
    if |maze.nodes| == 0 {
      return Err(NoStartNode), [], [];
    }
    var distances, prev, st, ps, rounds := Search(maze);
    var path;
    path, ws, ss := Reconstruct(maze, prev, st, ps);
    r := Ok(path);
    var n := |maze.nodes|;
    if st.dist[n - 1].Some? {
      forall ws', ss' | Route(maze.nodes, ws', ss')
        ensures Len(maze.nodes, ws, ss) <= Len(maze.nodes, ws', ss')
      {
        WalkBound(maze.nodes, st, ps, ws', ss');
      }
    } else {
      forall ws', ss' | Route(maze.nodes, ws', ss')
        ensures false
      {
        WalkBound(maze.nodes, st, ps, ws', ss');
      }
    }
  }

  // ---------------------------------------------------------------------
  // Lines 73-81 as written
  // ---------------------------------------------------------------------

  /**
    The loop of lines 73-81 as written, run for at most `fuel` rounds (None
    when it has not stopped by then): a current value equal to the end
    node's position is replaced by the end node's cell, which is put in
    front of the path, and the next value is the predecessor of the node at
    the current cell's position (Python's prev[-1], the last entry, for a
    cell of no node). The comparison is meant for the first round only, when
    current is a position, but it is made in every round, when current is a
    cell.
  */
  function AsWrittenLoop(nodes: seq<Node>, prev: seq<Option<int>>, current: Option<int>, path: seq<int>, fuel: nat): (r: Option<seq<int>>)
    requires |nodes| > 0 && |prev| == |nodes|
    ensures r.Some? ==> |r.value| >= |path| && r.value[|r.value| - |path|..] == path
    decreases fuel
  {
    if current.None? then Some(path)
    else if fuel == 0 then None
    else
      var last := nodes[|nodes| - 1].index;
      var c := if current.value == Position(Indices(nodes), last) then last else current.value;
      var p := Position(Indices(nodes), c);
      var next := if p == -1 then prev[|prev| - 1] else prev[p];
      var r := AsWrittenLoop(nodes, prev, next, [c] + path, fuel - 1);
      assert r.Some? ==> r.value[|r.value| - |path|..] == ([c] + path)[1..];
      r
  }

  /** Lines 70-84 as written: the loop from the end node's position with an empty path. */
  function ReconstructAsWritten(nodes: seq<Node>, prev: seq<Option<int>>, fuel: nat): (r: Option<seq<int>>)
    requires |nodes| > 0 && |prev| == |nodes|
    ensures r.Some? ==> |r.value| >= 1 && r.value[|r.value| - 1] == nodes[|nodes| - 1].index
  {
    var last := nodes[|nodes| - 1].index;
    assert Indices(nodes)[|nodes| - 1] == last;
    var p := Position(Indices(nodes), last);
    var r := AsWrittenLoop(nodes, prev, Some(p), [], fuel);
    assert p >= 0 && [last] + [] == [last];
    assert fuel > 0 ==> r == AsWrittenLoop(nodes, prev, prev[p], [last], fuel - 1);
    r
  }

  /**
    A maze of two rows and three columns whose route runs right along the
    top row from the start (cell 0) and down to the end (cell 5); cells 3
    and 4 are walls and cell 1 is a plain corridor. Its nodes sit at cells
    0, 2 and 5, and the middle one has cell 2, which is also the end node's
    position.
  */
  const ExampleNodes: seq<Node> := [
    Node(0, [None, None, None, Some(2)], [None, None, None, Some(2)]),
    Node(2, [None, Some(5), Some(0), None], [None, Some(1), Some(2), None]),
    Node(5, [Some(2), None, None, None], [Some(1), None, None, None])
  ]

  /** The predecessors the search leaves in the example: the start, then the node at cell 2. */
  const ExamplePrev: seq<Option<int>> := [None, Some(0), Some(2)]

  lemma ExampleIsGraph()
    ensures GraphOk(ExampleNodes)
  {
    ExampleEnd();
  }

  /** The end node's cell 5 is found at position 2, the number of the middle node's cell. */
  lemma ExampleEnd()
    ensures Indices(ExampleNodes) == [0, 2, 5] && Position(Indices(ExampleNodes), 5) == 2
  {
    assert Indices(ExampleNodes) == [0, 2, 5];
  }

  /** Whatever the order of exploration, a finished search of the example leaves exactly those predecessors. */
  lemma ExampleFinalPrev(st: State, ps: seq<int>)
    requires GraphOk(ExampleNodes) && Inv(ExampleNodes, st, ps, -1, 0)
    requires forall k :: 0 <= k < 3 ==> st.heap[k].None?
    ensures st.prev == ExamplePrev
  {
    var nodes := ExampleNodes;
    ExampleEnd();
    assert QueuedAt(nodes, st, -1, 0) && RelaxedAt(nodes, st, -1, 0, 0, 3);
    assert QueuedAt(nodes, st, -1, 1) && RelaxedAt(nodes, st, -1, 0, 1, 1);
    assert PrevAt(nodes, st, ps, -1, 2);
    assert st.prev[2] == Some(2);
    assert PrevAt(nodes, st, ps, -1, 1);
    assert st.prev[1] == Some(0);
  }

  /** The loop as written never stops on the example: from cell 2 it goes back to the end's cell, and again. */
  lemma {:induction false} ExampleLoops(path: seq<int>, fuel: nat)
    ensures AsWrittenLoop(ExampleNodes, ExamplePrev, Some(2), path, fuel).None?
    decreases fuel
  {
    ExampleEnd();
    if fuel > 0 {
      ExampleLoops([5] + path, fuel - 1);
    }
  }

  /** From the end node's position, the loop as written reaches cell 2 and never leaves it. */
  lemma ExampleNeverEnds(fuel: nat)
    ensures ReconstructAsWritten(ExampleNodes, ExamplePrev, fuel).None?
  {
    ExampleEnd();
    if fuel > 0 {
      assert ReconstructAsWritten(ExampleNodes, ExamplePrev, fuel) == AsWrittenLoop(ExampleNodes, ExamplePrev, Some(2), [], fuel);
      assert [5] + [] == [5];
      assert ReconstructAsWritten(ExampleNodes, ExamplePrev, fuel) == AsWrittenLoop(ExampleNodes, ExamplePrev, Some(2), [5], fuel - 1);
      ExampleLoops([5], fuel - 1);
    }
  }

  /**
    On the example, lines 70-84 as written, run after any finished search,
    loop forever however many rounds they are given, while Reconstruct
    returns the route through cells 0, 2 and 5.
  */
  lemma AsWrittenNeverEnds(st: State, ps: seq<int>, fuel: nat)
    requires GraphOk(ExampleNodes) && Inv(ExampleNodes, st, ps, -1, 0)
    requires forall k :: 0 <= k < 3 ==> st.heap[k].None?
    ensures ReconstructAsWritten(ExampleNodes, st.prev, fuel).None?
  {
    ExampleFinalPrev(st, ps);
    ExampleNeverEnds(fuel);
  }
}
