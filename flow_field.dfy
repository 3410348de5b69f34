/**
 * The flow-field loop of build_map over a Map and a Queue, proved against
 * the search invariant of module Search, and build_map itself.
 */
module FlowField {
  import opened Cells
  import opened Grid
  import opened Queues
  import opened Search

  /**
   * One round of the search: the neighbours of current, the next cell of
   * order, that are not yet keys are enqueued in get_neighbors order,
   * appended to order, pointed back at current and given depth one more
   * than current's. Every other key keeps its back-pointer.
   */
  method VisitNeighbors(m: Map, frontier: Queue<Cell>, current: Cell, ghost order: seq<Cell>, ghost pos: map<Cell, nat>, ghost depth: map<Cell, nat>, ghost head: nat)
    returns (ghost order': seq<Cell>, ghost pos': map<Cell, nat>, ghost depth': map<Cell, nat>)
    requires Explored(m, m.cameFrom, order, pos, depth, head)
    requires head < |order| && order[head] == current
    requires frontier.queue == order[head + 1..]
    modifies m`cameFrom, frontier
    ensures Explored(m, m.cameFrom, order', pos', depth', head + 1)
    ensures frontier.queue == order'[head + 1..]
    ensures Explored(m, old(m.cameFrom), order, pos, depth, head)
    ensures FirstDiscovered(m, old(m.cameFrom), order, pos) == old(FirstDiscovered(m, m.cameFrom, order, pos))
    ensures var ns := m.Neighbors(current); var added := Undiscovered(ns, |ns|, old(m.cameFrom));
      && order' == order + added
      && m.cameFrom == old(m.cameFrom) + Marked(added, current)
      && depth' == depth + Marked(added, depth[current] + 1)
    ensures forall k | k in old(m.cameFrom) :: k in m.cameFrom && m.cameFrom[k] == old(m.cameFrom)[k]
    ensures forall n | n in m.Neighbors(current) :: n in m.cameFrom && (n !in old(m.cameFrom) ==> m.cameFrom[n] == current)
    ensures forall c | c in m.cameFrom :: c in old(m.cameFrom) || c in m.Neighbors(current)
  {
    ghost var cf := m.cameFrom;
    var neighbors := m.GetNeighbors(current);
    ghost var final := Visit(SearchState(cf, order, pos, depth), current, neighbors, 0);
    order', pos', depth' := order, pos, depth;
    for j := 0 to |neighbors|
      invariant current in depth' && head < |order'|
      invariant Visit(SearchState(m.cameFrom, order', pos', depth'), current, neighbors, j) == final
      invariant frontier.queue == order'[head + 1..]
    {
      var next := neighbors[j];
      if next !in m.cameFrom {
        HandleFresh(m.cameFrom, order', pos', depth', current, next);
        AppendToSuffix(order', head + 1, next);
        frontier.Enqueue(next);
        m.cameFrom := m.cameFrom[next := current];
        order', pos', depth' := order' + [next], pos'[next := |order'|], depth'[next := depth'[current] + 1];
      } else {
        HandleKey(m.cameFrom, order', pos', depth', current, next);
      }
    }
    assert Explored(m, cf, order, pos, depth, head) == old(Explored(m, cf, order, pos, depth, head));
    assert FirstDiscovered(m, cf, order, pos) == old(FirstDiscovered(m, cf, order, pos));
    VisitKeepsExplored(m, cf, order, pos, depth, head);
    assert current in cf by {
      assert order[pos[current]] == current;
    }
    NothingAppended(cf, order, depth, current);
    VisitAppends(cf, order, depth, current, neighbors, 0, cf, order, pos, depth, final);
    RoundTable(cf, neighbors, current);
  }

  /**
   * The table the search leaves behind: cf and order form a discovery order
   * from the origin whose back-pointers are neighbour steps, and the keys
   * hold every neighbour of every key and are exactly the cells reachable
   * from the origin.
   */
  ghost predicate FlowFieldOf(m: Map, cf: map<Cell, Cell>, order: seq<Cell>, pos: map<Cell, nat>)
    reads m`walls
  {
    && DiscoveryOrder(cf, order, pos) && ParentsAreKeys(cf) && Spanning(m, cf)
    && (forall c {:trigger m.Reachable(c)} :: c in cf <==> m.Reachable(c))
  }

  /** Every back-pointer is a neighbour step, and every neighbour of a key is a key. */
  ghost predicate Spanning(m: Map, cf: map<Cell, Cell>)
    reads m`walls
  {
    && BackPointersAreSteps(m, cf)
    && (forall k, n {:trigger n in m.Neighbors(k)} | k in cf && n in m.Neighbors(k) :: n in cf)
  }

  /**
   * depth counts back-pointer steps and is the length of the shortest route:
   * the came-from trail from each key k is a route with depth[k] steps, and
   * no route from the origin reaches a cell in fewer.
   */
  ghost predicate ShortestDepths(m: Map, cf: map<Cell, Cell>, depth: map<Cell, nat>)
    reads m`walls
  {
    && ParentsAreKeys(cf) && Depths(cf, depth)
    && (forall k {:trigger Trail(cf, k, depth[k])} | k in cf :: m.IsRoute(Trail(cf, k, depth[k])))
    && (forall p {:trigger m.IsRoute(p)} | m.IsRoute(p) :: p[|p| - 1] in cf && depth[p[|p| - 1]] <= |p| - 1)
  }

  /**
   * When every discovered cell has been visited, the search has left a
   * complete flow field with shortest depths.
   */
  lemma SearchComplete(m: Map, cf: map<Cell, Cell>, order: seq<Cell>, pos: map<Cell, nat>, depth: map<Cell, nat>)
    requires Explored(m, cf, order, pos, depth, |order|)
    ensures FlowFieldOf(m, cf, order, pos) && ShortestDepths(m, cf, depth)
  {
    forall k, n {:trigger n in m.Neighbors(k)} | k in cf && n in m.Neighbors(k)
      ensures n in cf && depth[n] <= depth[k] + 1
    {
      var t :| 0 <= t < |m.Neighbors(k)| && m.Neighbors(k)[t] == n;
      assert order[pos[k]] == k;
    }
    DiscoveryOrderParents(cf, order, pos);
    RoutesOfDepths(m, cf, depth);
  }

  /**
   * When cell k is a neighbour of o1[x1] and of o2[x2], no earlier cell of
   * either sequence has it as a neighbour, and both sequences agree up to
   * n > x1, the two positions are the same.
   */
  lemma FirstNeighbourPosition(m: Map, o1: seq<Cell>, o2: seq<Cell>, n: nat, k: Cell, x1: nat, x2: nat)
    requires x1 < n <= |o1| && n <= |o2| && x2 < |o2| && o1[..n] == o2[..n]
    requires k in m.Neighbors(o1[x1]) && k in m.Neighbors(o2[x2])
    requires forall i | 0 <= i < x1 :: k !in m.Neighbors(o1[i])
    requires forall i | 0 <= i < x2 :: k !in m.Neighbors(o2[i])
    ensures x1 == x2
  {
    forall x | 0 <= x < n
      ensures o1[x] == o2[x]
    {
      assert o1[..n][x] == o2[..n][x];
    }
  }

  /**
   * Two tables of one map making the FIFO choices, whose first n cells
   * agree, give the same back-pointer to a key whose back-pointer in the
   * first lies among those n cells: in both it is the first of them that
   * has the key as a neighbour.
   */
  lemma SameParent(m: Map, cf1: map<Cell, Cell>, order1: seq<Cell>, pos1: map<Cell, nat>,
                   cf2: map<Cell, Cell>, order2: seq<Cell>, pos2: map<Cell, nat>, n: nat, k: Cell)
    requires DiscoveryOrder(cf1, order1, pos1) && FirstDiscovered(m, cf1, order1, pos1) && Spanning(m, cf1)
    requires DiscoveryOrder(cf2, order2, pos2) && FirstDiscovered(m, cf2, order2, pos2) && Spanning(m, cf2)
    requires n <= |order1| && n <= |order2| && order1[..n] == order2[..n]
    requires k in cf1 && k in cf2 && k != Origin && pos1[cf1[k]] < n
    ensures cf2[k] == cf1[k] && pos2[cf2[k]] == pos1[cf1[k]]
  {
    var x1, x2 := pos1[cf1[k]], pos2[cf2[k]];
    assert order1[x1] == cf1[k] && order2[x2] == cf2[k];
    forall i | 0 <= i < x1
      ensures k !in m.Neighbors(order1[i])
    {
      assert NotNeighbourAt(m, order1, i, k);
    }
    forall i | 0 <= i < x2
      ensures k !in m.Neighbors(order2[i])
    {
      assert NotNeighbourAt(m, order2, i, k);
    }
    FirstNeighbourPosition(m, order1, order2, n, k, x1, x2);
    assert order1[..n][x1] == order2[..n][x1];
  }

  /** Two tables of one map making the FIFO choices agree on their first n cells. */
  lemma {:induction false} SamePrefix(m: Map, cf1: map<Cell, Cell>, order1: seq<Cell>, pos1: map<Cell, nat>,
                                      cf2: map<Cell, Cell>, order2: seq<Cell>, pos2: map<Cell, nat>, n: nat)
    requires DiscoveryOrder(cf1, order1, pos1) && FirstDiscovered(m, cf1, order1, pos1) && Spanning(m, cf1)
    requires DiscoveryOrder(cf2, order2, pos2) && FirstDiscovered(m, cf2, order2, pos2) && Spanning(m, cf2)
    requires n <= |order1| && n <= |order2|
    ensures order1[..n] == order2[..n]
    decreases n
  {
    if n > 0 {
      var i := n - 1;
      SamePrefix(m, cf1, order1, pos1, cf2, order2, pos2, i);
      if i > 0 {
        SameRank(m, cf1, order1, pos1, cf2, order2, pos2, i);
      }
      PrefixGrows(order1, order2, i);
    }
  }

  /** Two sequences that agree before i and at i agree up to i + 1. */
  lemma PrefixGrows(s1: seq<Cell>, s2: seq<Cell>, i: nat)
    requires i < |s1| && i < |s2| && s1[..i] == s2[..i] && s1[i] == s2[i]
    ensures s1[..i + 1] == s2[..i + 1]
  {
    assert s1[..i + 1] == s1[..i] + [s1[i]] && s2[..i + 1] == s2[..i] + [s2[i]];
  }

  /**
   * Where two tables of one map making the FIFO choices agree on their first
   * i cells, the i-th cell of the first is a key of the second, no earlier
   * than position i, with the same back-pointer at the same position.
   */
  lemma ParentCarries(m: Map, cf1: map<Cell, Cell>, order1: seq<Cell>, pos1: map<Cell, nat>,
                      cf2: map<Cell, Cell>, order2: seq<Cell>, pos2: map<Cell, nat>, i: nat)
    requires DiscoveryOrder(cf1, order1, pos1) && FirstDiscovered(m, cf1, order1, pos1) && Spanning(m, cf1)
    requires DiscoveryOrder(cf2, order2, pos2) && FirstDiscovered(m, cf2, order2, pos2) && Spanning(m, cf2)
    requires 0 < i < |order1| && i <= |order2| && order1[..i] == order2[..i]
    ensures var a := order1[i]; a in cf2 && pos2[a] >= i && cf2[a] == cf1[a] && pos2[cf2[a]] == pos1[cf1[a]]
  {
    var a := order1[i];
    forall x | 0 <= x < i
      ensures order2[x] == order1[x] && pos1[order1[x]] == x
    {
      assert order1[..i][x] == order2[..i][x];
    }
    var pa := cf1[a];
    assert pos1[a] == i && pos1[pa] < i;
    assert order2[pos1[pa]] == pa;
    assert pa in cf2 && a in m.Neighbors(pa);
    SameParent(m, cf1, order1, pos1, cf2, order2, pos2, i, a);
  }

  /**
   * Where two tables of one map making the FIFO choices first differ, at
   * position i > 0, each holds the other's cell later with the same rank,
   * which the order of enqueuing rules out.
   */
  lemma SameRank(m: Map, cf1: map<Cell, Cell>, order1: seq<Cell>, pos1: map<Cell, nat>,
                 cf2: map<Cell, Cell>, order2: seq<Cell>, pos2: map<Cell, nat>, i: nat)
    requires DiscoveryOrder(cf1, order1, pos1) && FirstDiscovered(m, cf1, order1, pos1) && Spanning(m, cf1)
    requires DiscoveryOrder(cf2, order2, pos2) && FirstDiscovered(m, cf2, order2, pos2) && Spanning(m, cf2)
    requires 0 < i < |order1| && i < |order2| && order1[..i] == order2[..i]
    ensures order1[i] == order2[i]
  {
    var a, b := order1[i], order2[i];
    ParentCarries(m, cf1, order1, pos1, cf2, order2, pos2, i);
    ParentCarries(m, cf2, order2, pos2, cf1, order1, pos1, i);
    var r, q := pos1[b], pos2[a];
    assert order1[r] == b && order2[q] == a;
    assert a != b ==> r > i && q > i;
    assert r > i ==> EnqueuedBefore(cf1, pos1, order1[i], order1[r]);
    assert q > i ==> EnqueuedBefore(cf2, pos2, order2[i], order2[q]);
  }

  /** A table whose order is a prefix of another table's order over the same map is that whole order. */
  lemma WholePrefix(m: Map, cf1: map<Cell, Cell>, order1: seq<Cell>, pos1: map<Cell, nat>,
                    cf2: map<Cell, Cell>, order2: seq<Cell>, pos2: map<Cell, nat>)
    requires DiscoveryOrder(cf1, order1, pos1) && Spanning(m, cf1) && DiscoveryOrder(cf2, order2, pos2) && Spanning(m, cf2)
    requires |order1| <= |order2| && order1 == order2[..|order1|]
    ensures order1 == order2
  {
    var n := |order1|;
    DiscoveryOrderKeys(cf1, order1, pos1);
    NextCell(m, cf2, order2, pos2, n);
    assert order2 == order2[..|order2|];
  }

  /** The cell after the first n of a discovery order points back into those n and is not among them. */
  lemma NextCell(m: Map, cf: map<Cell, Cell>, order: seq<Cell>, pos: map<Cell, nat>, n: nat)
    requires DiscoveryOrder(cf, order, pos) && Spanning(m, cf) && 0 < n
    ensures n < |order| ==> cf[order[n]] in order[..n] && order[n] in m.Neighbors(cf[order[n]]) && order[n] !in order[..n]
  {
    if n < |order| {
      var b := order[n];
      assert pos[b] == n;
      assert order[pos[cf[b]]] == cf[b] && pos[cf[b]] < n;
      assert order[..n][pos[cf[b]]] == cf[b];
      forall x | 0 <= x < n
        ensures order[..n][x] != b
      {
        assert pos[order[x]] == x;
      }
    }
  }

  /**
   * The FIFO choices determine the flow field: two flow fields of one map
   * that both make them have the same order, positions and back-pointers.
   */
  lemma FlowFieldUnique(m: Map, cf1: map<Cell, Cell>, order1: seq<Cell>, pos1: map<Cell, nat>,
                        cf2: map<Cell, Cell>, order2: seq<Cell>, pos2: map<Cell, nat>)
    requires FlowFieldOf(m, cf1, order1, pos1) && FirstDiscovered(m, cf1, order1, pos1)
    requires FlowFieldOf(m, cf2, order2, pos2) && FirstDiscovered(m, cf2, order2, pos2)
    ensures order1 == order2 && pos1 == pos2 && cf1 == cf2
  {
    SameTable(m, cf1, order1, pos1, cf2, order2, pos2);
  }

  /** Two tables of one map making the FIFO choices are the same table. */
  lemma SameTable(m: Map, cf1: map<Cell, Cell>, order1: seq<Cell>, pos1: map<Cell, nat>,
                  cf2: map<Cell, Cell>, order2: seq<Cell>, pos2: map<Cell, nat>)
    requires DiscoveryOrder(cf1, order1, pos1) && FirstDiscovered(m, cf1, order1, pos1) && Spanning(m, cf1)
    requires DiscoveryOrder(cf2, order2, pos2) && FirstDiscovered(m, cf2, order2, pos2) && Spanning(m, cf2)
    ensures order1 == order2 && pos1 == pos2 && cf1 == cf2
  {
    var n := if |order1| <= |order2| then |order1| else |order2|;
    SamePrefix(m, cf1, order1, pos1, cf2, order2, pos2, n);
    if |order1| <= |order2| {
      WholePrefix(m, cf1, order1, pos1, cf2, order2, pos2);
    } else {
      WholePrefix(m, cf2, order2, pos2, cf1, order1, pos1);
    }
    SamePositions(cf1, order1, pos1, cf2, pos2);
    SameParents(m, cf1, order1, pos1, cf2, pos2);
  }

  /** Two discovery orders with the same cells in the same order have the same positions and keys. */
  lemma SamePositions(cf1: map<Cell, Cell>, order: seq<Cell>, pos1: map<Cell, nat>, cf2: map<Cell, Cell>, pos2: map<Cell, nat>)
    requires DiscoveryOrder(cf1, order, pos1) && DiscoveryOrder(cf2, order, pos2)
    ensures pos1 == pos2 && cf1.Keys == cf2.Keys
  {
    forall c | c in pos1
      ensures c in pos2 && pos2[c] == pos1[c]
    {
      assert order[pos1[c]] == c;
    }
    forall c | c in pos2
      ensures c in pos1
    {
      assert order[pos2[c]] == c;
    }
  }

  /** Two tables of one map making the FIFO choices over the same order have the same back-pointers. */
  lemma SameParents(m: Map, cf1: map<Cell, Cell>, order: seq<Cell>, pos1: map<Cell, nat>, cf2: map<Cell, Cell>, pos2: map<Cell, nat>)
    requires DiscoveryOrder(cf1, order, pos1) && FirstDiscovered(m, cf1, order, pos1) && Spanning(m, cf1)
    requires DiscoveryOrder(cf2, order, pos2) && FirstDiscovered(m, cf2, order, pos2) && Spanning(m, cf2)
    requires cf1.Keys == cf2.Keys
    ensures cf1 == cf2
  {
    forall k | k in cf1 && k != Origin
      ensures cf2[k] == cf1[k]
    {
      assert order[pos1[cf1[k]]] == cf1[k];
      SameParent(m, cf1, order, pos1, cf2, order, pos2, |order|, k);
    }
  }

  /**
   * When back-pointers are neighbour steps, depth counts them and no
   * neighbour step goes more than one deeper, the depths are shortest route
   * lengths and the keys are exactly the reachable cells.
   */
  lemma RoutesOfDepths(m: Map, cf: map<Cell, Cell>, depth: map<Cell, nat>)
    requires ParentsAreKeys(cf) && Depths(cf, depth)
    requires BackPointersAreSteps(m, cf)
    requires forall k, n {:trigger n in m.Neighbors(k)} | k in cf && n in m.Neighbors(k) :: n in cf && depth[n] <= depth[k] + 1
    ensures ShortestDepths(m, cf, depth)
    ensures forall c {:trigger m.Reachable(c)} :: c in cf <==> m.Reachable(c)
  {
    TrailsAreRoutes(m, cf, depth);
    RoutesAreBounded(m, cf, depth);
    ShortestReachable(m, cf, depth);
  }

  /** When back-pointers are neighbour steps, every key's trail is a route. */
  lemma TrailsAreRoutes(m: Map, cf: map<Cell, Cell>, depth: map<Cell, nat>)
    requires ParentsAreKeys(cf) && Depths(cf, depth)
    requires BackPointersAreSteps(m, cf)
    ensures forall k {:trigger Trail(cf, k, depth[k])} | k in cf :: m.IsRoute(Trail(cf, k, depth[k]))
  {
    forall k {:trigger Trail(cf, k, depth[k])} | k in cf
      ensures m.IsRoute(Trail(cf, k, depth[k]))
    {
      TrailIsRoute(m, cf, depth, k);
    }
  }

  /** When no neighbour step goes more than one deeper, every route ends at a key no deeper than its length. */
  lemma RoutesAreBounded(m: Map, cf: map<Cell, Cell>, depth: map<Cell, nat>)
    requires depth.Keys == cf.Keys && Origin in cf && depth[Origin] == 0
    requires forall k, n {:trigger n in m.Neighbors(k)} | k in cf && n in m.Neighbors(k) :: n in cf && depth[n] <= depth[k] + 1
    ensures forall p {:trigger m.IsRoute(p)} | m.IsRoute(p) :: p[|p| - 1] in cf && depth[p[|p| - 1]] <= |p| - 1
  {
    forall p | m.IsRoute(p)
      ensures p[|p| - 1] in cf && depth[p[|p| - 1]] <= |p| - 1
    {
      DepthBoundsRoutes(m, cf, depth, p);
    }
  }

  /** With shortest depths, the keys are exactly the cells reachable from the origin. */
  lemma ShortestReachable(m: Map, cf: map<Cell, Cell>, depth: map<Cell, nat>)
    requires ShortestDepths(m, cf, depth)
    ensures forall c {:trigger m.Reachable(c)} :: c in cf <==> m.Reachable(c)
  {
    KeysReachable(m, cf, depth);
    ReachableKeys(m, cf);
  }

  /** A key whose trail is a route is reachable. */
  lemma KeysReachable(m: Map, cf: map<Cell, Cell>, depth: map<Cell, nat>)
    requires ParentsAreKeys(cf) && depth.Keys == cf.Keys
    requires forall k {:trigger Trail(cf, k, depth[k])} | k in cf :: m.IsRoute(Trail(cf, k, depth[k]))
    ensures forall k {:trigger m.Reachable(k)} | k in cf :: m.Reachable(k)
  {
    forall k | k in cf
      ensures m.Reachable(k)
    {
      var t := Trail(cf, k, depth[k]);
      assert m.IsRoute(t) && t[|t| - 1] == k;
    }
  }

  /** When every route ends at a key, every reachable cell is a key. */
  lemma ReachableKeys(m: Map, cf: map<Cell, Cell>)
    requires forall p {:trigger m.IsRoute(p)} | m.IsRoute(p) :: p[|p| - 1] in cf
    ensures forall c {:trigger m.Reachable(c)} | m.Reachable(c) :: c in cf
  {
    forall c | m.Reachable(c)
      ensures c in cf
    {
      var p :| m.IsRoute(p) && p[|p| - 1] == c;
    }
  }

  /**
   * One iteration of the search loop: the next cell is dequeued and its
   * neighbours are visited. The search invariant and the FIFO choices are
   * kept, and the keys stay among the cells of the map.
   */
  method SearchStep(m: Map, frontier: Queue<Cell>, ghost order: seq<Cell>, ghost pos: map<Cell, nat>, ghost depth: map<Cell, nat>, ghost head: nat, ghost all: set<Cell>)
    returns (ghost order': seq<Cell>, ghost pos': map<Cell, nat>, ghost depth': map<Cell, nat>, ghost head': nat)
    requires head <= |order| && frontier.queue == order[head..] && frontier.queue != []
    requires Explored(m, m.cameFrom, order, pos, depth, head)
    requires ParentsBefore(m.cameFrom, pos, head) && FirstDiscovered(m, m.cameFrom, order, pos)
    requires all == m.CellsInMap()
    modifies m`cameFrom, frontier
    ensures head' == head + 1 && head' <= |order'| && frontier.queue == order'[head'..]
    ensures Explored(m, m.cameFrom, order', pos', depth', head')
    ensures ParentsBefore(m.cameFrom, pos', head') && FirstDiscovered(m, m.cameFrom, order', pos')
    ensures m.cameFrom.Keys <= all && |order| <= |order'| <= |all|
    ensures order <= order'
  {
    head' := head + 1;
    ghost var cf := m.cameFrom;
    var current := frontier.Dequeue();
    order', pos', depth' := VisitNeighbors(m, frontier, current, order, pos, depth, head);
    RoundKeepsFirstDiscovered(m, cf, order, pos, depth, head, m.cameFrom, order', pos');
    m.InMapCells(m.cameFrom.Keys);
    OrderFits(m.cameFrom, order', pos', all);
  }

  /**
   * The loop of the search: cells are dequeued and visited until the queue
   * is empty, which leaves every enqueued cell visited.
   */
  method SearchLoop(m: Map, frontier: Queue<Cell>, ghost order: seq<Cell>, ghost pos: map<Cell, nat>, ghost depth: map<Cell, nat>)
    returns (ghost order': seq<Cell>, ghost pos': map<Cell, nat>, ghost depth': map<Cell, nat>)
    requires frontier.queue == order && Explored(m, m.cameFrom, order, pos, depth, 0)
    requires ParentsBefore(m.cameFrom, pos, 0) && FirstDiscovered(m, m.cameFrom, order, pos)
    requires m.cameFrom.Keys <= m.CellsInMap()
    modifies m`cameFrom, frontier
    ensures Explored(m, m.cameFrom, order', pos', depth', |order'|) && FirstDiscovered(m, m.cameFrom, order', pos')
  {
    order', pos', depth' := order, pos, depth;
    ghost var head := 0;
    ghost var all := m.CellsInMap();
    OrderFits(m.cameFrom, order', pos', all);
    while !frontier.IsEmpty()
      invariant head <= |order'| && frontier.queue == order'[head..]
      invariant Explored(m, m.cameFrom, order', pos', depth', head)
      invariant ParentsBefore(m.cameFrom, pos', head) && FirstDiscovered(m, m.cameFrom, order', pos')
      invariant m.cameFrom.Keys <= all && |order'| <= |all|
      decreases |all| - |order'|, |frontier.queue|
    {
      order', pos', depth', head := SearchStep(m, frontier, order', pos', depth', head, all);
    }
  }

  /**
   * The breadth-first search of build_map. The origin maps to itself and is
   * enqueued first; each dequeued cell's neighbours, in get_neighbors order,
   * that are not yet keys are enqueued and pointed back at it. order is the
   * sequence of enqueued cells, so no cell is enqueued twice, and pos[c] is
   * the position of c in it. depth[c] is the number of back-pointer steps
   * from c to the origin, and it is the length of the shortest route from the
   * origin to c, so following came_from gives a shortest way to the base.
   */
  method BuildFlowField(m: Map) returns (ghost order: seq<Cell>, ghost pos: map<Cell, nat>, ghost depth: map<Cell, nat>)
    requires m.cameFrom == map[]
    modifies m`cameFrom
    ensures FlowFieldOf(m, m.cameFrom, order, pos) && ShortestDepths(m, m.cameFrom, depth)
    ensures FirstDiscovered(m, m.cameFrom, order, pos)
  {
    var frontier := new Queue<Cell>();
    frontier.Enqueue(Origin);
    m.cameFrom := m.cameFrom[Origin := Origin];
    order, pos, depth := [Origin], map[Origin := 0], map[Origin := 0];
    StartExplored(m);
    order, pos, depth := SearchLoop(m, frontier, order, pos, depth);
    SearchComplete(m, m.cameFrom, order, pos, depth);
  }

  /**
   * build_map without its rendering: a fresh map of the given size, the wall
   * layout drawn from runs, then the flow field.
   */
  method BuildMap(width: u32, height: u32, runs: seq<WallRun>)
    returns (m: Map, ghost order: seq<Cell>, ghost pos: map<Cell, nat>, ghost depth: map<Cell, nat>)
    requires |runs| == WallRunCount
    requires forall i | 0 <= i < |runs| :: RunFits(runs[i], width, height)
    ensures fresh(m) && m.width == width && m.height == height
    ensures forall c :: m.HasWall(c) <==> !InCentre(c) && c in Covered(runs)
    ensures FlowFieldOf(m, m.cameFrom, order, pos) && ShortestDepths(m, m.cameFrom, depth)
    ensures FirstDiscovered(m, m.cameFrom, order, pos)
    ensures forall d | 0 <= d < |Offsets| :: Step(Origin, d) in m.cameFrom
  {
    m := new Map(width, height);
    m.LayOutWalls(runs);
    order, pos, depth := BuildFlowField(m);
    forall d | 0 <= d < |Offsets|
      ensures Step(Origin, d) in m.cameFrom
    {
      assert Step(Origin, d) in m.Neighbors(Origin);
    }
  }
}
