/**
 * The came-from flow field: a breadth-first search from the origin over open
 * cells that records, for every cell it reaches, the cell it was reached
 * from. Following these back-pointers leads every reachable cell to the base.
 */
module Search {
  import opened Cells
  import opened Grid

  ghost predicate Distinct(s: seq<Cell>)
  {
    forall i, j | 0 <= i < j < |s| :: s[i] != s[j]
  }

  /**
   * order lists the keys of the came-from table cf in the order they were
   * discovered and pos gives each key's position in it. The origin comes
   * first and points at itself; every other key points at a key discovered
   * before it.
   */
  ghost predicate DiscoveryOrder(cf: map<Cell, Cell>, order: seq<Cell>, pos: map<Cell, nat>)
  {
    && |order| > 0 && order[0] == Origin
    && Origin in cf && cf[Origin] == Origin
    && (forall c :: c in pos <==> c in cf)
    && (forall i | 0 <= i < |order| :: order[i] in pos && pos[order[i]] == i)
    && (forall c | c in pos :: pos[c] < |order| && order[pos[c]] == c)
    && (forall c {:trigger cf[c]} | c in cf && c != Origin :: cf[c] in cf && pos[cf[c]] < pos[c])
  }

  /** No cell appears twice in a discovery order. */
  lemma DiscoveryOrderDistinct(cf: map<Cell, Cell>, order: seq<Cell>, pos: map<Cell, nat>)
    requires DiscoveryOrder(cf, order, pos)
    ensures Distinct(order)
  {
  }

  /** Every back-pointer of cf is itself a key. */
  ghost predicate ParentsAreKeys(cf: map<Cell, Cell>)
  {
    forall k {:trigger cf[k]} | k in cf :: cf[k] in cf
  }

  lemma DiscoveryOrderParents(cf: map<Cell, Cell>, order: seq<Cell>, pos: map<Cell, nat>)
    requires DiscoveryOrder(cf, order, pos)
    ensures ParentsAreKeys(cf)
  {
  }

  /** The cell reached from k by following n back-pointers. */
  function Follow(cf: map<Cell, Cell>, k: Cell, n: nat): (r: Cell)
    requires ParentsAreKeys(cf) && k in cf
    ensures r in cf
    decreases n
  {
    if n == 0 then k else Follow(cf, cf[k], n - 1)
  }

  lemma {:induction false} FollowSplit(cf: map<Cell, Cell>, k: Cell, a: nat, b: nat)
    requires ParentsAreKeys(cf) && k in cf
    ensures Follow(cf, k, a + b) == Follow(cf, Follow(cf, k, a), b)
    decreases a
  {
    if a > 0 {
      FollowSplit(cf, cf[k], a - 1, b);
    }
  }

  lemma {:induction false} FollowFromOrigin(cf: map<Cell, Cell>, n: nat)
    requires ParentsAreKeys(cf) && Origin in cf && cf[Origin] == Origin
    ensures Follow(cf, Origin, n) == Origin
  {
    if n > 0 {
      FollowFromOrigin(cf, n - 1);
    }
  }

  /** Once a walk along back-pointers is at the origin, it stays there. */
  lemma FollowPastOrigin(cf: map<Cell, Cell>, k: Cell, j: nat, n: nat)
    requires ParentsAreKeys(cf) && Origin in cf && cf[Origin] == Origin && k in cf
    requires j <= n && Follow(cf, k, j) == Origin
    ensures Follow(cf, k, n) == Origin
  {
    FollowSplit(cf, k, j, n - j);
    FollowFromOrigin(cf, n - j);
  }

  /** From the key discovered at position pos[k], that many back-pointer steps lead to the origin. */
  lemma {:induction false} FollowReachesOrigin(cf: map<Cell, Cell>, order: seq<Cell>, pos: map<Cell, nat>, k: Cell)
    requires DiscoveryOrder(cf, order, pos) && ParentsAreKeys(cf) && k in cf
    ensures Follow(cf, k, pos[k]) == Origin
    decreases pos[k]
  {
    if k != Origin {
      var p := cf[k];
      assert pos[k] > 0 by {
        assert order[pos[k]] == k;
      }
      FollowReachesOrigin(cf, order, pos, p);
      assert Follow(cf, k, pos[k]) == Follow(cf, p, pos[k] - 1);
      FollowPastOrigin(cf, p, pos[p], pos[k] - 1);
    }
  }

  /** The keys of cf are exactly the cells of order. */
  lemma DiscoveryOrderKeys(cf: map<Cell, Cell>, order: seq<Cell>, pos: map<Cell, nat>)
    requires DiscoveryOrder(cf, order, pos)
    ensures forall c :: c in cf.Keys <==> c in order
  {
    forall c | c in order
      ensures c in cf
    {
      var i :| 0 <= i < |order| && order[i] == c;
    }
  }

  /** A set holding exactly the cells of a sequence without repetition has its length. */
  lemma {:induction false} CountDistinct(s: seq<Cell>, cells: set<Cell>)
    requires Distinct(s)
    requires forall c :: c in cells <==> c in s
    ensures |cells| == |s|
  {
    if s != [] {
      var init, last := s[..|s| - 1], s[|s| - 1];
      assert s == init + [last];
      forall c
        ensures c in cells - {last} <==> c in init
      {
        if c in init {
          var i :| 0 <= i < |init| && init[i] == c;
          assert s[i] == c && i < |s| - 1;
        }
      }
      CountDistinct(init, cells - {last});
    }
  }

  /** A discovery order has one entry per key of the table. */
  lemma KeyCount(cf: map<Cell, Cell>, order: seq<Cell>, pos: map<Cell, nat>)
    requires DiscoveryOrder(cf, order, pos)
    ensures |cf| == |order|
  {
    DiscoveryOrderDistinct(cf, order, pos);
    DiscoveryOrderKeys(cf, order, pos);
    CountDistinct(order, cf.Keys);
  }

  /** From one key, as many back-pointer steps as there are other keys lead to the origin. */
  lemma KeyRouteEndsAtOrigin(cf: map<Cell, Cell>, order: seq<Cell>, pos: map<Cell, nat>, k: Cell)
    requires DiscoveryOrder(cf, order, pos) && k in cf
    ensures ParentsAreKeys(cf)
    ensures Follow(cf, k, |cf| - 1) == Origin
  {
    KeyCount(cf, order, pos);
    DiscoveryOrderParents(cf, order, pos);
    FollowReachesOrigin(cf, order, pos, k);
    FollowPastOrigin(cf, k, pos[k], |cf| - 1);
  }

  /**
   * Following the came-from table from any key reaches the origin within
   * one step fewer than there are keys.
   */
  lemma RoutesEndAtOrigin(cf: map<Cell, Cell>, order: seq<Cell>, pos: map<Cell, nat>)
    requires DiscoveryOrder(cf, order, pos)
    ensures ParentsAreKeys(cf)
    ensures forall k | k in cf :: Follow(cf, k, |cf| - 1) == Origin
  {
    DiscoveryOrderParents(cf, order, pos);
    forall k | k in cf
      ensures Follow(cf, k, |cf| - 1) == Origin
    {
      KeyRouteEndsAtOrigin(cf, order, pos, k);
    }
  }

  /**
   * depth gives every key of cf its number of back-pointer steps to the
   * origin: the origin has depth 0 and every other key is one deeper than
   * the key it points at.
   */
  ghost predicate Depths(cf: map<Cell, Cell>, depth: map<Cell, nat>)
  {
    && depth.Keys == cf.Keys
    && Origin in depth && depth[Origin] == 0
    && (forall k {:trigger cf[k]} | k in cf && k != Origin :: cf[k] in depth && depth[k] == depth[cf[k]] + 1)
  }

  /**
   * The cells met following n back-pointers from k, listed from the last
   * one reached back to k: the way came_from leads from k, reversed.
   */
  function Trail(cf: map<Cell, Cell>, k: Cell, n: nat): (r: seq<Cell>)
    requires ParentsAreKeys(cf) && k in cf
    ensures |r| == n + 1 && r[0] == Follow(cf, k, n) && r[n] == k
    ensures forall i | 0 <= i < |r| :: r[i] in cf
    ensures forall i | 0 <= i < n :: r[i] == cf[r[i + 1]]
    decreases n
  {
    if n == 0 then [k] else Trail(cf, cf[k], n - 1) + [k]
  }

  /** Every back-pointer but the origin's is a neighbour step: the key is a neighbour of its parent. */
  ghost predicate BackPointersAreSteps(m: Map, cf: map<Cell, Cell>)
    reads m`walls
  {
    forall k {:trigger cf[k]} | k in cf && k != Origin :: k in m.Neighbors(cf[k])
  }

  /**
   * When depth counts back-pointer steps and back-pointers are neighbour
   * steps, the trail of depth[k] back-pointers from a key k starts at the
   * origin and is a route to k.
   */
  lemma {:induction false} TrailIsRoute(m: Map, cf: map<Cell, Cell>, depth: map<Cell, nat>, k: Cell)
    requires ParentsAreKeys(cf) && Depths(cf, depth)
    requires BackPointersAreSteps(m, cf)
    requires k in cf
    ensures m.IsRoute(Trail(cf, k, depth[k]))
    decreases depth[k]
  {
    if k != Origin {
      var parent := cf[k];
      TrailIsRoute(m, cf, depth, parent);
      var p, r := Trail(cf, parent, depth[parent]), Trail(cf, k, depth[k]);
      assert r == p + [k];
      forall t | 0 <= t < |r| - 1
        ensures r[t + 1] in m.Neighbors(r[t])
      {
        if t < |p| - 1 {
          assert r[t + 1] == p[t + 1] && r[t] == p[t];
        }
      }
    }
  }

  /**
   * When the origin has depth 0 and no neighbour step goes more than one
   * deeper, no route from the origin is shorter than the depth of its end.
   */
  lemma {:induction false} DepthBoundsRoutes(m: Map, cf: map<Cell, Cell>, depth: map<Cell, nat>, p: seq<Cell>)
    requires depth.Keys == cf.Keys && Origin in cf && depth[Origin] == 0
    requires forall k, n {:trigger n in m.Neighbors(k)} | k in cf && n in m.Neighbors(k) :: n in cf && depth[n] <= depth[k] + 1
    requires m.IsRoute(p)
    ensures p[|p| - 1] in cf && depth[p[|p| - 1]] <= |p| - 1
    decreases |p|
  {
    if |p| > 1 {
      var q := p[..|p| - 1];
      assert m.IsRoute(q) by {
        forall i | 0 <= i < |q| - 1
          ensures q[i + 1] in m.Neighbors(q[i])
        {
          assert q[i + 1] == p[i + 1] && q[i] == p[i];
        }
      }
      DepthBoundsRoutes(m, cf, depth, q);
      assert p[|p| - 1] in m.Neighbors(p[|p| - 2]);
    }
  }

  /** A discovery order whose keys all lie in a finite set is no longer than that set. */
  lemma OrderFits(cf: map<Cell, Cell>, order: seq<Cell>, pos: map<Cell, nat>, all: set<Cell>)
    requires DiscoveryOrder(cf, order, pos) && cf.Keys <= all
    ensures |order| <= |all|
  {
    KeyCount(cf, order, pos);
    var rest := all - cf.Keys;
    assert all == cf.Keys + rest && cf.Keys * rest == {};
  }

  /**
   * The cells among the first n of ns that are not keys of cf, each once,
   * in the order in which they first occur in ns.
   */
  function Undiscovered(ns: seq<Cell>, n: nat, cf: map<Cell, Cell>): (r: seq<Cell>)
    requires n <= |ns|
    ensures forall c {:trigger c in r} :: c in r <==> c in ns[..n] && c !in cf
    decreases n
  {
    if n == 0 then []
    else
      var r, last := Undiscovered(ns, n - 1, cf), ns[n - 1];
      assert forall c :: c in ns[..n] <==> c in ns[..n - 1] || c == last by {
        assert ns[..n] == ns[..n - 1] + [last];
      }
      if last in cf || last in r then r else r + [last]
  }

  /** The depth of the i-th discovered cell. */
  ghost function DepthAt(depth: map<Cell, nat>, order: seq<Cell>, i: nat): nat
    requires i < |order| && order[i] in depth
  {
    depth[order[i]]
  }

  /**
   * The breadth-first layering of order: depths never decrease along it,
   * and the last cell is at most one deeper than order[head].
   */
  ghost predicate Layered(depth: map<Cell, nat>, order: seq<Cell>, head: nat)
  {
    && (forall i | 0 <= i < |order| :: order[i] in depth)
    && (forall i, j | 0 <= i <= j < |order| :: DepthAt(depth, order, i) <= DepthAt(depth, order, j))
    && (head < |order| ==> depth[order[|order| - 1]] <= depth[order[head]] + 1)
  }

  /** Appending a cell one deeper than order[head] keeps the layering. */
  lemma ExtendLayered(depth: map<Cell, nat>, order: seq<Cell>, head: nat, current: Cell, next: Cell)
    requires Layered(depth, order, head) && head < |order| && current == order[head] && next !in depth
    ensures Layered(depth[next := depth[current] + 1], order + [next], head)
  {
    var depth', order' := depth[next := depth[current] + 1], order + [next];
    forall i | 0 <= i < |order|
      ensures order'[i] == order[i] && DepthAt(depth', order', i) == DepthAt(depth, order, i)
    {
      assert order[i] in depth;
    }
    forall i, j | 0 <= i <= j < |order'|
      ensures DepthAt(depth', order', i) <= DepthAt(depth', order', j)
    {
      if j < |order| {
        assert DepthAt(depth, order, i) <= DepthAt(depth, order, j);
      } else if i < |order| {
        if i <= head {
          assert DepthAt(depth, order, i) <= DepthAt(depth, order, head);
        } else {
          assert DepthAt(depth, order, i) <= DepthAt(depth, order, |order| - 1);
        }
      }
    }
  }

  /** A new key pointing at an existing key, one deeper than it, keeps the depths. */
  lemma ExtendDepths(cf: map<Cell, Cell>, depth: map<Cell, nat>, parent: Cell, next: Cell)
    requires Depths(cf, depth) && parent in cf && next !in cf
    ensures Depths(cf[next := parent], depth[next := depth[parent] + 1])
  {
    var cf', depth' := cf[next := parent], depth[next := depth[parent] + 1];
    forall k | k in cf' && k != Origin
      ensures cf'[k] in depth' && depth'[k] == depth'[cf'[k]] + 1
    {
      if k != next {
        assert cf'[k] == cf[k] && cf[k] in depth;
      }
    }
  }

  /**
   * The invariant of the search: cf and order form a discovery order, depth
   * counts back-pointer steps, every key is in the map and every key but the
   * origin is a neighbour of the key it points at, and order is layered by
   * depth. Every neighbour of one of the first head cells of order (those
   * already dequeued) is a key at most one deeper.
   */
  ghost predicate Explored(m: Map, cf: map<Cell, Cell>, order: seq<Cell>, pos: map<Cell, nat>, depth: map<Cell, nat>, head: nat)
    reads m`walls
  {
    && DiscoveryOrder(cf, order, pos) && head <= |order|
    && Depths(cf, depth)
    && Grounded(m, cf)
    && Layered(depth, order, head)
    && Closed(m, cf, depth, order, head)
  }

  /** Every key is in the map, and every key but the origin is a neighbour of the key it points at. */
  ghost predicate Grounded(m: Map, cf: map<Cell, Cell>)
    reads m`walls
  {
    && BackPointersAreSteps(m, cf)
    && (forall k | k in cf :: m.InMap(k))
  }

  /** Pointing a new neighbour of a key back at that key keeps the table grounded. */
  lemma ExtendGrounded(m: Map, cf: map<Cell, Cell>, parent: Cell, next: Cell)
    requires Grounded(m, cf) && parent in cf && next in m.Neighbors(parent)
    ensures Grounded(m, cf[next := parent])
  {
    var cf' := cf[next := parent];
    forall k | k in cf' && k != Origin
      ensures k in m.Neighbors(cf'[k])
    {
      if k != next {
        assert cf'[k] == cf[k];
      }
    }
  }

  /**
   * Every neighbour of one of the first head cells of order is a key at
   * most one deeper than that cell.
   */
  ghost predicate Closed(m: Map, cf: map<Cell, Cell>, depth: map<Cell, nat>, order: seq<Cell>, head: nat)
    reads m`walls
  {
    && head <= |order|
    && (forall i | 0 <= i < head :: order[i] in depth)
    && (forall i, t | 0 <= i < head && 0 <= t < |m.Neighbors(order[i])| ::
          m.Neighbors(order[i])[t] in cf && m.Neighbors(order[i])[t] in depth && depth[m.Neighbors(order[i])[t]] <= depth[order[i]] + 1)
  }

  /** A new key recorded while the dequeued cells stay the same keeps them closed. */
  lemma ExtendClosed(m: Map, cf: map<Cell, Cell>, depth: map<Cell, nat>, order: seq<Cell>, head: nat, parent: Cell, next: Cell, d: nat)
    requires Closed(m, cf, depth, order, head) && next !in depth
    ensures Closed(m, cf[next := parent], depth[next := d], order + [next], head)
  {
    var order' := order + [next];
    forall i, t | 0 <= i < head && 0 <= t < |m.Neighbors(order'[i])|
      ensures var n := m.Neighbors(order'[i])[t]; n in cf[next := parent] && n in depth[next := d] && depth[next := d][n] <= depth[next := d][order'[i]] + 1
    {
      assert order'[i] == order[i] && order[i] in depth;
    }
  }


  /** Appending a new cell that points at an existing key extends a discovery order. */
  lemma ExtendDiscoveryOrder(cf: map<Cell, Cell>, order: seq<Cell>, pos: map<Cell, nat>, parent: Cell, next: Cell)
    requires DiscoveryOrder(cf, order, pos)
    requires parent in cf && next !in cf
    ensures DiscoveryOrder(cf[next := parent], order + [next], pos[next := |order|])
  {
    var cf', order', pos' := cf[next := parent], order + [next], pos[next := |order|];
    forall i | 0 <= i < |order'|
      ensures order'[i] in pos' && pos'[order'[i]] == i
    {
      if i < |order| {
        assert order'[i] == order[i];
      }
    }
  }

  /**
   * Recording a new neighbour of the cell being visited, one deeper than it
   * and at the end of order, keeps the invariant.
   */
  lemma DiscoverKeepsExplored(m: Map, cf: map<Cell, Cell>, order: seq<Cell>, pos: map<Cell, nat>, depth: map<Cell, nat>, head: nat, current: Cell, next: Cell)
    requires Explored(m, cf, order, pos, depth, head)
    requires head < |order| && current == order[head]
    requires next !in cf && next in m.Neighbors(current)
    ensures Explored(m, cf[next := current], order + [next], pos[next := |order|], depth[next := depth[current] + 1], head)
  {
    ExtendDiscoveryOrder(cf, order, pos, current, next);
    ExtendDepths(cf, depth, current, next);
    ExtendLayered(depth, order, head, current, next);
    ExtendClosed(m, cf, depth, order, head, current, next, depth[current] + 1);
    ExtendGrounded(m, cf, current, next);
  }

  /** The search starts with the origin alone, pointing at itself, at depth 0. */
  lemma StartExplored(m: Map)
    ensures Explored(m, map[Origin := Origin], [Origin], map[Origin := 0], map[Origin := 0], 0)
  {
  }

  /**
   * The search in the middle of a round: order[head] is being visited and
   * its first j neighbours are already keys, at most one deeper than it.
   */
  ghost predicate Visiting(m: Map, cf: map<Cell, Cell>, order: seq<Cell>, pos: map<Cell, nat>, depth: map<Cell, nat>, head: nat, j: nat)
    reads m`walls
  {
    && Explored(m, cf, order, pos, depth, head) && head < |order|
    && j <= |m.Neighbors(order[head])|
    && forall t | 0 <= t < j ::
         m.Neighbors(order[head])[t] in cf && depth[m.Neighbors(order[head])[t]] <= depth[order[head]] + 1
  }

  lemma StartVisiting(m: Map, cf: map<Cell, Cell>, order: seq<Cell>, pos: map<Cell, nat>, depth: map<Cell, nat>, head: nat)
    requires Explored(m, cf, order, pos, depth, head) && head < |order|
    ensures Visiting(m, cf, order, pos, depth, head, 0)
  {
  }

  /**
   * A neighbour that is already a key is skipped; it is at most one deeper
   * than the visited cell, whether it was discovered before or after it.
   */
  lemma SkipKeepsVisiting(m: Map, cf: map<Cell, Cell>, order: seq<Cell>, pos: map<Cell, nat>, depth: map<Cell, nat>, head: nat, j: nat)
    requires Visiting(m, cf, order, pos, depth, head, j) && j < |m.Neighbors(order[head])|
    requires m.Neighbors(order[head])[j] in cf
    ensures Visiting(m, cf, order, pos, depth, head, j + 1)
  {
    var n := m.Neighbors(order[head])[j];
    assert order[pos[n]] == n;
    if pos[n] <= head {
      assert DepthAt(depth, order, pos[n]) <= DepthAt(depth, order, head);
    } else {
      assert DepthAt(depth, order, pos[n]) <= DepthAt(depth, order, |order| - 1);
    }
  }

  /** A neighbour that is not yet a key is recorded, pointing back at the visited cell. */
  lemma DiscoverKeepsVisiting(m: Map, cf: map<Cell, Cell>, order: seq<Cell>, pos: map<Cell, nat>, depth: map<Cell, nat>, head: nat, j: nat, current: Cell, next: Cell)
    requires Visiting(m, cf, order, pos, depth, head, j) && j < |m.Neighbors(order[head])|
    requires current == order[head] && next == m.Neighbors(current)[j] && next !in cf
    ensures Visiting(m, cf[next := current], order + [next], pos[next := |order|], depth[next := depth[current] + 1], head, j + 1)
  {
    DiscoverKeepsExplored(m, cf, order, pos, depth, head, current, next);
    assert (order + [next])[head] == current;
  }

  /** Once every neighbour of order[head] is a key, that cell counts as dequeued. */
  lemma FinishVisiting(m: Map, cf: map<Cell, Cell>, order: seq<Cell>, pos: map<Cell, nat>, depth: map<Cell, nat>, head: nat)
    requires head < |order| && Visiting(m, cf, order, pos, depth, head, |m.Neighbors(order[head])|)
    ensures Explored(m, cf, order, pos, depth, head + 1)
  {
    forall i, t | 0 <= i < head + 1 && 0 <= t < |m.Neighbors(order[i])|
      ensures m.Neighbors(order[i])[t] in cf && m.Neighbors(order[i])[t] in depth && depth[m.Neighbors(order[i])[t]] <= depth[order[i]] + 1
    {
      if i == head {
        assert m.Neighbors(order[head])[t] in cf;
      }
    }
    if head + 1 < |order| {
      assert DepthAt(depth, order, head) <= DepthAt(depth, order, head + 1);
    }
  }

  /**
   * The state the search loop keeps: the came-from table and, as ghost
   * bookkeeping, the order of enqueued cells, their positions and depths.
   */
  datatype SearchState = SearchState(cf: map<Cell, Cell>, order: seq<Cell>, pos: map<Cell, nat>, depth: map<Cell, nat>)

  /**
   * The search handles the neighbour next of the visited cell current: a
   * cell that is not yet a key points back at current, goes to the end of
   * order and is one deeper than current; a key is passed over.
   */
  ghost function Handle(s: SearchState, current: Cell, next: Cell): (r: SearchState)
    requires current in s.depth
    ensures current in r.depth
  {
    if next in s.cf then s
    else SearchState(s.cf[next := current], s.order + [next], s.pos[next := |s.order|], s.depth[next := s.depth[current] + 1])
  }

  /**
   * The rest of one round of the search from s: the neighbours ns[j..] of
   * the visited cell current, one Handle each, in list order.
   */
  ghost function Visit(s: SearchState, current: Cell, ns: seq<Cell>, j: nat): (r: SearchState)
    requires current in s.depth && j <= |ns|
    ensures current in r.depth
    decreases |ns| - j
  {
    if j == |ns| then s else Visit(Handle(s, current, ns[j]), current, ns, j + 1)
  }

  /** Handle passes over a neighbour that is already a key. */
  lemma HandleKey(cf: map<Cell, Cell>, order: seq<Cell>, pos: map<Cell, nat>, depth: map<Cell, nat>, current: Cell, next: Cell)
    requires current in depth && next in cf
    ensures Handle(SearchState(cf, order, pos, depth), current, next) == SearchState(cf, order, pos, depth)
  {
  }

  /** Handle records a neighbour that is not yet a key. */
  lemma HandleFresh(cf: map<Cell, Cell>, order: seq<Cell>, pos: map<Cell, nat>, depth: map<Cell, nat>, current: Cell, next: Cell)
    requires current in depth && next !in cf
    ensures Handle(SearchState(cf, order, pos, depth), current, next)
         == SearchState(cf[next := current], order + [next], pos[next := |order|], depth[next := depth[current] + 1])
  {
  }

  /** Handling the next neighbour of the visited cell keeps the search mid-round, with one more neighbour handled. */
  lemma HandleKeepsVisiting(m: Map, cf: map<Cell, Cell>, order: seq<Cell>, pos: map<Cell, nat>, depth: map<Cell, nat>, head: nat, j: nat, current: Cell)
    requires Visiting(m, cf, order, pos, depth, head, j) && current == order[head]
    requires j < |m.Neighbors(current)|
    ensures current in depth
    ensures var s := Handle(SearchState(cf, order, pos, depth), current, m.Neighbors(current)[j]);
      Visiting(m, s.cf, s.order, s.pos, s.depth, head, j + 1) && s.order[head] == current
  {
    var next := m.Neighbors(current)[j];
    if next in cf {
      SkipKeepsVisiting(m, cf, order, pos, depth, head, j);
      HandleKey(cf, order, pos, depth, current, next);
    } else {
      DiscoverKeepsVisiting(m, cf, order, pos, depth, head, j, current, next);
      HandleFresh(cf, order, pos, depth, current, next);
      assert (order + [next])[head] == current;
    }
  }

  /**
   * The rest of a round from a state visiting order[head] with its first j
   * neighbours handled ends, in r, with all of them handled.
   */
  lemma {:induction false} VisitKeepsVisiting(m: Map, cf: map<Cell, Cell>, order: seq<Cell>, pos: map<Cell, nat>, depth: map<Cell, nat>, head: nat, j: nat, current: Cell, r: SearchState)
    requires Visiting(m, cf, order, pos, depth, head, j) && current == order[head]
    requires j <= |m.Neighbors(current)| && current in depth
    requires r == Visit(SearchState(cf, order, pos, depth), current, m.Neighbors(current), j)
    ensures Visiting(m, r.cf, r.order, r.pos, r.depth, head, |m.Neighbors(current)|) && r.order[head] == current
    decreases |m.Neighbors(current)| - j
  {
    var ns := m.Neighbors(current);
    if j < |ns| {
      HandleKeepsVisiting(m, cf, order, pos, depth, head, j, current);
      var s := Handle(SearchState(cf, order, pos, depth), current, ns[j]);
      VisitKeepsVisiting(m, s.cf, s.order, s.pos, s.depth, head, j + 1, current, r);
    }
  }

  /** A whole round over the neighbours of order[head] leaves that cell done. */
  lemma VisitKeepsExplored(m: Map, cf: map<Cell, Cell>, order: seq<Cell>, pos: map<Cell, nat>, depth: map<Cell, nat>, head: nat)
    requires Explored(m, cf, order, pos, depth, head) && head < |order|
    ensures order[head] in depth
    ensures var r := Visit(SearchState(cf, order, pos, depth), order[head], m.Neighbors(order[head]), 0);
      Explored(m, r.cf, r.order, r.pos, r.depth, head + 1)
  {
    var current := order[head];
    StartVisiting(m, cf, order, pos, depth, head);
    var r := Visit(SearchState(cf, order, pos, depth), current, m.Neighbors(current), 0);
    VisitKeepsVisiting(m, cf, order, pos, depth, head, 0, current, r);
    FinishVisiting(m, r.cf, r.order, r.pos, r.depth, head);
  }

  /**
   * cf', order' and depth' are cf, order and depth with the cells of added
   * appended to order, each pointing back at current and one deeper than
   * current.
   */
  ghost predicate Appended(cf: map<Cell, Cell>, order: seq<Cell>, depth: map<Cell, nat>, current: Cell, cf': map<Cell, Cell>, order': seq<Cell>, depth': map<Cell, nat>, added: seq<Cell>)
    requires current in depth
  {
    && order' == order + added
    && cf' == cf + Marked(added, current)
    && depth' == depth + Marked(added, depth[current] + 1)
  }

  /** Before the round, nothing is appended. */
  lemma NothingAppended(cf: map<Cell, Cell>, order: seq<Cell>, depth: map<Cell, nat>, current: Cell)
    requires current in depth
    ensures Appended(cf, order, depth, current, cf, order, depth, [])
  {
    MarkNone(cf, current);
    MarkNone<nat>(depth, depth[current] + 1);
  }

  /**
   * The rest of a round appends to order exactly the cells of ns that were
   * not keys of cf, each once and in list order, points each of them back
   * at current and gives it depth one more than current's; nothing else
   * changes.
   */
  lemma {:induction false} VisitAppends(cf: map<Cell, Cell>, order: seq<Cell>, depth: map<Cell, nat>, current: Cell, ns: seq<Cell>, j: nat,
                                        cf': map<Cell, Cell>, order': seq<Cell>, pos': map<Cell, nat>, depth': map<Cell, nat>, r: SearchState)
    requires current in cf && current in depth && j <= |ns|
    requires Appended(cf, order, depth, current, cf', order', depth', Undiscovered(ns, j, cf))
    requires current in depth' && r == Visit(SearchState(cf', order', pos', depth'), current, ns, j)
    ensures Appended(cf, order, depth, current, r.cf, r.order, r.depth, Undiscovered(ns, |ns|, cf))
    decreases |ns| - j
  {
    var added := Undiscovered(ns, j, cf);
    assert depth'[current] == depth[current];
    if j < |ns| {
      var next := ns[j];
      UndiscoveredNext(ns, j, cf, cf', current);
      if next in cf' {
        HandleKey(cf', order', pos', depth', current, next);
        VisitAppends(cf, order, depth, current, ns, j + 1, cf', order', pos', depth', r);
      } else {
        AppendedStep(cf, order, depth, current, cf', order', depth', added, next);
        HandleFresh(cf', order', pos', depth', current, next);
        VisitAppends(cf, order, depth, current, ns, j + 1, cf'[next := current], order' + [next], pos'[next := |order'|], depth'[next := depth'[current] + 1], r);
      }
    }
  }

  /**
   * The next neighbour ns[j] is a key of cf' = cf + Marked(added, current)
   * exactly when it was a key of cf or already appended; in that case
   * nothing more is undiscovered, otherwise ns[j] is.
   */
  lemma UndiscoveredNext(ns: seq<Cell>, j: nat, cf: map<Cell, Cell>, cf': map<Cell, Cell>, current: Cell)
    requires j < |ns| && cf' == cf + Marked(Undiscovered(ns, j, cf), current)
    ensures ns[j] in cf' ==> Undiscovered(ns, j + 1, cf) == Undiscovered(ns, j, cf)
    ensures ns[j] !in cf' ==> ns[j] !in cf && ns[j] !in Undiscovered(ns, j, cf) && Undiscovered(ns, j + 1, cf) == Undiscovered(ns, j, cf) + [ns[j]]
  {
  }

  /** Appending a cell that is neither a key nor already appended extends the closed form. */
  lemma AppendedStep(cf: map<Cell, Cell>, order: seq<Cell>, depth: map<Cell, nat>, current: Cell, cf': map<Cell, Cell>, order': seq<Cell>, depth': map<Cell, nat>, added: seq<Cell>, next: Cell)
    requires current in cf && current in depth && current !in added
    requires Appended(cf, order, depth, current, cf', order', depth', added)
    requires next !in cf && next !in added
    ensures current in depth' && depth'[current] == depth[current]
    ensures Appended(cf, order, depth, current, cf'[next := current], order' + [next], depth'[next := depth'[current] + 1], added + [next])
  {
    assert (order + added) + [next] == order + (added + [next]);
    MarkAppended(cf, added, next, current);
    MarkAppended<nat>(depth, added, next, depth[current] + 1);
  }

  /**
   * The table a round leaves: every old key keeps its back-pointer, every
   * neighbour is a key and the new ones point at current, and no other cell
   * becomes a key.
   */
  lemma RoundTable(cf: map<Cell, Cell>, ns: seq<Cell>, current: Cell)
    ensures var cf' := cf + Marked(Undiscovered(ns, |ns|, cf), current);
      && (forall k | k in cf :: k in cf' && cf'[k] == cf[k])
      && (forall n | n in ns :: n in cf' && (n !in cf ==> cf'[n] == current))
      && (forall c | c in cf' :: c in cf || c in ns)
  {
  }

  /** The table mapping every cell of added to v. */
  ghost function Marked<V>(added: seq<Cell>, v: V): map<Cell, V>
  {
    map c | c in added :: v
  }

  /** Marking nothing leaves a table as it is. */
  lemma MarkNone<V>(base: map<Cell, V>, v: V)
    ensures base + Marked([], v) == base
  {
    assert (base + Marked([], v)).Keys == base.Keys;
  }

  /** Marking one more cell after a list of marked cells marks the extended list. */
  lemma MarkAppended<V>(base: map<Cell, V>, added: seq<Cell>, next: Cell, v: V)
    ensures (base + Marked(added, v))[next := v] == base + Marked(added + [next], v)
  {
    var l, r := (base + Marked(added, v))[next := v], base + Marked(added + [next], v);
    assert l.Keys == r.Keys;
    assert forall k | k in l :: l[k] == r[k];
  }

  /** Appending to order appends to every suffix of it. */
  lemma AppendToSuffix(order: seq<Cell>, head: nat, next: Cell)
    requires head <= |order|
    ensures (order + [next])[head..] == order[head..] + [next]
  {
  }

  /** Every key but the origin points at one of the first head cells of order. */
  ghost predicate ParentsBefore(cf: map<Cell, Cell>, pos: map<Cell, nat>, head: nat)
  {
    forall k {:trigger cf[k]} | k in cf && k != Origin :: cf[k] in pos && pos[cf[k]] < head
  }

  /**
   * The FIFO queue enqueues a before b: a's back-pointer was dequeued
   * before b's, or both share it and a lies along an earlier offset.
   */
  ghost predicate EnqueuedBefore(cf: map<Cell, Cell>, pos: map<Cell, nat>, a: Cell, b: Cell)
    requires a in cf && b in cf && cf[a] in pos && cf[b] in pos
  {
    || pos[cf[a]] < pos[cf[b]]
    || (cf[a] == cf[b] && Direction(cf[a], a) < Direction(cf[b], b))
  }

  /** Cell k is not a neighbour of the i-th cell of order. */
  ghost predicate NotNeighbourAt(m: Map, order: seq<Cell>, i: int, k: Cell)
    requires 0 <= i < |order|
    reads m`walls
  {
    k !in m.Neighbors(order[i])
  }

  /**
   * The choices the FIFO queue makes: every key but the origin points at the
   * first cell of order that has it as a neighbour, and the cells after the
   * origin come in the order the queue enqueues them.
   */
  ghost predicate FirstDiscovered(m: Map, cf: map<Cell, Cell>, order: seq<Cell>, pos: map<Cell, nat>)
    requires DiscoveryOrder(cf, order, pos)
    reads m`walls
  {
    && (forall k {:trigger cf[k]} | k in cf && k != Origin ::
          forall i {:trigger NotNeighbourAt(m, order, i, k)} | 0 <= i < pos[cf[k]] :: NotNeighbourAt(m, order, i, k))
    && (forall i, j {:trigger EnqueuedBefore(cf, pos, order[i], order[j])} | 1 <= i < j < |order| :: EnqueuedBefore(cf, pos, order[i], order[j]))
  }

  /** The undiscovered cells keep the offset order of the neighbour list they come from. */
  lemma {:induction false} UndiscoveredInOrder(current: Cell, ns: seq<Cell>, n: nat, cf: map<Cell, Cell>)
    requires n <= |ns|
    requires forall i, j | 0 <= i < j < |ns| :: Direction(current, ns[i]) < Direction(current, ns[j])
    ensures forall i, j | 0 <= i < j < |Undiscovered(ns, n, cf)| ::
      Direction(current, Undiscovered(ns, n, cf)[i]) < Direction(current, Undiscovered(ns, n, cf)[j])
    decreases n
  {
    if n > 0 {
      UndiscoveredInOrder(current, ns, n - 1, cf);
      var r := Undiscovered(ns, n - 1, cf);
      var last := ns[n - 1];
      forall c | c in r
        ensures Direction(current, c) < Direction(current, last)
      {
        assert c in ns[..n - 1];
        var t :| 0 <= t < n - 1 && ns[..n - 1][t] == c;
        assert ns[t] == c;
      }
      if last in cf || last in r {
        assert Undiscovered(ns, n, cf) == r;
      } else {
        var r' := r + [last];
        assert Undiscovered(ns, n, cf) == r';
        forall i, j | 0 <= i < j < |r'|
          ensures Direction(current, r'[i]) < Direction(current, r'[j])
        {
          assert r'[i] == r[i] && r[i] in r;
          if j < |r| {
            assert r'[j] == r[j];
          }
        }
      }
    }
  }

  /**
   * A round appends the cells of added to order, each pointing at
   * order[head]: old keys keep their positions and back-pointers.
   */
  ghost predicate RoundStep(cf: map<Cell, Cell>, order: seq<Cell>, pos: map<Cell, nat>, head: nat,
                            cf': map<Cell, Cell>, order': seq<Cell>, pos': map<Cell, nat>, added: seq<Cell>)
  {
    && head < |order|
    && (forall c | c in added :: c !in cf)
    && order' == order + added && cf' == cf + Marked(added, order[head])
    && DiscoveryOrder(cf, order, pos) && DiscoveryOrder(cf', order', pos')
  }

  /** After a round, old keys keep their positions and back-pointers, and new keys point at order[head]. */
  lemma RoundKeeps(cf: map<Cell, Cell>, order: seq<Cell>, pos: map<Cell, nat>, head: nat,
                   cf': map<Cell, Cell>, order': seq<Cell>, pos': map<Cell, nat>, added: seq<Cell>)
    requires RoundStep(cf, order, pos, head, cf', order', pos', added)
    ensures forall c | c in pos :: c in pos' && pos'[c] == pos[c]
    ensures forall k | k in cf :: k in cf' && cf'[k] == cf[k]
    ensures forall k | k in cf' && k !in cf :: k in added && cf'[k] == order[head]
  {
    forall c | c in pos
      ensures c in pos' && pos'[c] == pos[c]
    {
      assert order'[pos[c]] == order[pos[c]];
    }
  }

  /** A round whose new keys are not neighbours of the dequeued cells keeps every back-pointer the first one. */
  lemma RoundKeepsFirstParents(m: Map, cf: map<Cell, Cell>, order: seq<Cell>, pos: map<Cell, nat>, depth: map<Cell, nat>, head: nat,
                               cf': map<Cell, Cell>, order': seq<Cell>, pos': map<Cell, nat>, added: seq<Cell>)
    requires RoundStep(cf, order, pos, head, cf', order', pos', added) && Closed(m, cf, depth, order, head)
    requires forall k {:trigger cf[k]} | k in cf && k != Origin ::
      forall i {:trigger NotNeighbourAt(m, order, i, k)} | 0 <= i < pos[cf[k]] :: NotNeighbourAt(m, order, i, k)
    ensures forall k {:trigger cf'[k]} | k in cf' && k != Origin ::
      forall i {:trigger NotNeighbourAt(m, order', i, k)} | 0 <= i < pos'[cf'[k]] :: NotNeighbourAt(m, order', i, k)
  {
    RoundKeeps(cf, order, pos, head, cf', order', pos', added);
    forall k | k in cf' && k != Origin
      ensures forall i {:trigger NotNeighbourAt(m, order', i, k)} | 0 <= i < pos'[cf'[k]] :: NotNeighbourAt(m, order', i, k)
    {
      forall i {:trigger NotNeighbourAt(m, order', i, k)} | 0 <= i < pos'[cf'[k]]
        ensures NotNeighbourAt(m, order', i, k)
      {
        assert order'[i] == order[i];
        if k in cf {
          assert NotNeighbourAt(m, order, i, k);
        }
      }
    }
  }

  /** A round that appends its new keys in offset order keeps order the order of enqueuing. */
  lemma RoundKeepsQueueOrder(cf: map<Cell, Cell>, order: seq<Cell>, pos: map<Cell, nat>, head: nat,
                             cf': map<Cell, Cell>, order': seq<Cell>, pos': map<Cell, nat>, added: seq<Cell>)
    requires RoundStep(cf, order, pos, head, cf', order', pos', added) && ParentsBefore(cf, pos, head)
    requires forall i, j | 0 <= i < j < |added| :: Direction(order[head], added[i]) < Direction(order[head], added[j])
    requires forall i, j {:trigger EnqueuedBefore(cf, pos, order[i], order[j])} | 1 <= i < j < |order| :: EnqueuedBefore(cf, pos, order[i], order[j])
    ensures forall i, j {:trigger EnqueuedBefore(cf', pos', order'[i], order'[j])} | 1 <= i < j < |order'| :: EnqueuedBefore(cf', pos', order'[i], order'[j])
    ensures ParentsBefore(cf', pos', head + 1)
  {
    RoundKeeps(cf, order, pos, head, cf', order', pos', added);
    forall i, j {:trigger EnqueuedBefore(cf', pos', order'[i], order'[j])} | 1 <= i < j < |order'|
      ensures EnqueuedBefore(cf', pos', order'[i], order'[j])
    {
      if j < |order| {
        assert order'[i] == order[i] && order'[j] == order[j];
        assert EnqueuedBefore(cf, pos, order[i], order[j]);
      } else if i < |order| {
        assert order'[i] == order[i] && order[pos[order[i]]] == order[i];
        assert order'[j] == added[j - |order|];
      } else {
        assert order'[i] == added[i - |order|] && order'[j] == added[j - |order|];
      }
    }
    assert pos[order[head]] == head;
  }

  /**
   * A round that appends the undiscovered neighbours of order[head], each
   * pointing back at it, keeps the FIFO choices.
   */
  lemma RoundKeepsFirstDiscovered(m: Map, cf: map<Cell, Cell>, order: seq<Cell>, pos: map<Cell, nat>, depth: map<Cell, nat>, head: nat,
                                  cf': map<Cell, Cell>, order': seq<Cell>, pos': map<Cell, nat>)
    requires DiscoveryOrder(cf, order, pos) && Closed(m, cf, depth, order, head) && head < |order|
    requires ParentsBefore(cf, pos, head) && FirstDiscovered(m, cf, order, pos)
    requires var ns := m.Neighbors(order[head]); var added := Undiscovered(ns, |ns|, cf);
      order' == order + added && cf' == cf + Marked(added, order[head])
    requires DiscoveryOrder(cf', order', pos')
    ensures ParentsBefore(cf', pos', head + 1) && FirstDiscovered(m, cf', order', pos')
  {
    var current := order[head];
    var ns := m.Neighbors(current);
    var added := Undiscovered(ns, |ns|, cf);
    m.NeighborsInOffsetOrder(current);
    UndiscoveredInOrder(current, ns, |ns|, cf);
    RoundKeepsFirstParents(m, cf, order, pos, depth, head, cf', order', pos', added);
    RoundKeepsQueueOrder(cf, order, pos, head, cf', order', pos', added);
  }
}
