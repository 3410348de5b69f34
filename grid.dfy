/**
 * The grid map: a wall table, integer bounds centred on the origin, the
 * four-neighbour relation, and the random wall layout drawn when a game
 * starts (with the random draws as inputs).
 */
module Grid {
  import opened Cells

  /** Rust's u32. */
  type u32 = x: int | 0 <= x < 0x1_0000_0000

  /**
   * Half of an extent in cells, by unsigned division. It is at most 2^31 - 1,
   * so the source's cast to i32 never changes it.
   */
  function Half(extent: u32): (h: int)
    ensures 0 <= h && 2 * h <= extent <= 2 * h + 1
  {
    extent / 2
  }

  /** One random wall run: dx cells along +x and dy cells along +y from (x, y). */
  datatype WallRun = WallRun(x: int, y: int, dx: int, dy: int)

  /** The wall layout draws this many runs (`for _ in 1..100`). */
  const WallRunCount: nat := 99

  /** The ranges gen_range draws each run's numbers from, on a width x height map. */
  predicate RunFits(r: WallRun, width: u32, height: u32)
  {
    && -Half(width) <= r.x < Half(width)
    && -Half(height) <= r.y < Half(height)
    && 0 <= r.dx < 4
    && 0 <= r.dy < 4
  }

  /** The cells one run walls off. */
  function RunCells(r: WallRun): set<Cell>
  {
    (set cx | r.x <= cx < r.x + r.dx :: Cell(cx, r.y))
    + (set cy | r.y <= cy < r.y + r.dy :: Cell(r.x, cy))
  }

  /** The cells walled off by a sequence of runs. */
  function Covered(runs: seq<WallRun>): set<Cell>
  {
    if runs == [] then {} else Covered(runs[..|runs| - 1]) + RunCells(runs[|runs| - 1])
  }

  /** The 4 x 4 block x, y in {-2, -1, 0, 1} that the layout forces open. */
  predicate InCentre(c: Cell)
  {
    -2 <= c.x < 2 && -2 <= c.y < 2
  }

  class Map {
    const width: u32
    const height: u32
    var walls: map<Cell, bool>
    var cameFrom: map<Cell, Cell>

    /** A map of the given size in cells, with no walls and no flow field. */
    constructor (width: u32, height: u32)
      ensures this.width == width && this.height == height
      ensures walls == map[] && cameFrom == map[]
    {
      this.width := width;
      this.height := height;
      walls := map[];
      cameFrom := map[];
    }

    /** The stored wall flag of c; a cell never set has no wall. */
    function HasWall(c: Cell): (r: bool)
      reads this`walls
      ensures c !in walls ==> !r
      ensures c in walls ==> r == walls[c]
    {
      if c in walls then walls[c] else false
    }

    /**
     * Stores the flag of c, overwriting it when present and inserting it
     * otherwise; no other cell's entry changes.
     */
    method SetWall(c: Cell, v: bool)
      modifies this`walls
      ensures walls == old(walls)[c := v]
      ensures HasWall(c) == v
      ensures forall d | d != c :: HasWall(d) == old(HasWall(d))
    {
      walls := walls[c := v];
    }

    /**
     * The finitely many cells of the map: 2 * Half(width) + 1 columns by
     * 2 * Half(height) + 1 rows, so one more than an even extent.
     */
    function CellsInMap(): set<Cell>
    {
      set x, y | -Half(width) <= x <= Half(width) && -Half(height) <= y <= Half(height) :: Cell(x, y)
    }

    /**
     * The bounds check, inclusive at both ends and centred on the origin: a
     * coordinate is in range when twice its magnitude fits the extent.
     */
    function InMap(c: Cell): (r: bool)
      ensures r <==> 2 * Abs(c.x) <= width && 2 * Abs(c.y) <= height
    {
      -Half(width) <= c.x <= Half(width) && -Half(height) <= c.y <= Half(height)
    }

    /** Every cell that passes the bounds check is one of the finitely many cells of the map. */
    lemma InMapCells(cells: set<Cell>)
      requires forall c | c in cells :: InMap(c)
      ensures cells <= CellsInMap()
    {
    }

    /** A cell an enemy may enter: inside the map and not walled. */
    function Open(c: Cell): bool
      reads this`walls
    {
      InMap(c) && !HasWall(c)
    }

    /** The open cells among the first k offset steps from c, in offset order. */
    function OpenAmong(c: Cell, k: nat): seq<Cell>
      requires k <= |Offsets|
      reads this`walls
    {
      if k == 0 then []
      else OpenAmong(c, k - 1) + (if Open(Step(c, k - 1)) then [Step(c, k - 1)] else [])
    }

    /**
     * The prefix of get_neighbors' result after k offsets: at most k cells,
     * each open and reached by one of the first k offsets, in offset order,
     * holding every open one of them.
     */
    lemma {:induction false} OpenAmongSpec(c: Cell, k: nat)
      requires k <= |Offsets|
      ensures |OpenAmong(c, k)| <= k
      ensures forall i | 0 <= i < |OpenAmong(c, k)| :: Direction(c, OpenAmong(c, k)[i]) < k && Open(OpenAmong(c, k)[i])
      ensures forall i, j | 0 <= i < j < |OpenAmong(c, k)| :: Direction(c, OpenAmong(c, k)[i]) < Direction(c, OpenAmong(c, k)[j])
      ensures forall d | 0 <= d < k && Open(Step(c, d)) :: Step(c, d) in OpenAmong(c, k)
    {
      if k > 0 {
        OpenAmongSpec(c, k - 1);
        StepDirection(c, k - 1);
      }
    }

    /**
     * The neighbours get_neighbors returns: exactly the adjacent cells that
     * are in the map and not walled, so at most four.
     */
    function Neighbors(c: Cell): (r: seq<Cell>)
      reads this`walls
      ensures |r| <= 4
      ensures forall n {:trigger n in r} :: n in r <==> Adjacent(c, n) && InMap(n) && !HasWall(n)
    {
      OpenAmongSpec(c, |Offsets|);
      assert forall n | Adjacent(c, n) :: Step(c, Direction(c, n)) == n;
      OpenAmong(c, |Offsets|)
    }

    /** The neighbours come in the order +x, -x, +y, -y, hence without repetition. */
    lemma NeighborsInOffsetOrder(c: Cell)
      ensures forall i, j | 0 <= i < j < |Neighbors(c)| :: Direction(c, Neighbors(c)[i]) < Direction(c, Neighbors(c)[j])
      ensures forall i, j | 0 <= i < j < |Neighbors(c)| :: Neighbors(c)[i] != Neighbors(c)[j]
    {
      OpenAmongSpec(c, |Offsets|);
    }

    /** get_neighbors: walks the four offsets and keeps the open cells. */
    method GetNeighbors(c: Cell) returns (output: seq<Cell>)
      ensures output == Neighbors(c)
    {
      output := [];
      for i := 0 to |Offsets|
        invariant output == OpenAmong(c, i)
      {
        var (dx, dy) := Offsets[i];
        var neighbor := Cell(c.x + dx, c.y + dy);
        if InMap(neighbor) && !HasWall(neighbor) {
          output := output + [neighbor];
        }
      }
    }

    /** A walk from the origin in which every step goes to a neighbour of the previous cell. */
    ghost predicate IsRoute(p: seq<Cell>)
      reads this`walls
    {
      |p| > 0 && p[0] == Origin && forall i | 0 <= i < |p| - 1 :: p[i + 1] in Neighbors(p[i])
    }

    ghost predicate Reachable(c: Cell)
      reads this`walls
    {
      exists p {:trigger IsRoute(p)} :: IsRoute(p) && p[|p| - 1] == c
    }

    /** Walls off the horizontal and then the vertical stretch of one run. */
    method AddRun(r: WallRun)
      requires 0 <= r.dx && 0 <= r.dy
      modifies this`walls
      ensures forall c :: c in walls <==> c in old(walls) || c in RunCells(r)
      ensures forall c :: HasWall(c) <==> c in RunCells(r) || old(HasWall(c))
    {
      for cellX := r.x to r.x + r.dx
        invariant forall c :: c in walls <==> c in old(walls) || (c.y == r.y && r.x <= c.x < cellX)
        invariant forall c :: HasWall(c) <==> (c.y == r.y && r.x <= c.x < cellX) || old(HasWall(c))
      {
        SetWall(Cell(cellX, r.y), true);
      }
      for cellY := r.y to r.y + r.dy
        invariant forall c :: c in walls <==> c in old(walls) || (c.y == r.y && r.x <= c.x < r.x + r.dx) || (c.x == r.x && r.y <= c.y < cellY)
        invariant forall c :: HasWall(c) <==> (c.y == r.y && r.x <= c.x < r.x + r.dx) || (c.x == r.x && r.y <= c.y < cellY) || old(HasWall(c))
      {
        SetWall(Cell(r.x, cellY), true);
      }
    }

    /** Clears every cell of the centre block, row by row. */
    method ClearCentre()
      modifies this`walls
      ensures forall c :: c in walls <==> c in old(walls) || InCentre(c)
      ensures forall c :: HasWall(c) <==> !InCentre(c) && old(HasWall(c))
    {
      for x := -2 to 2
        invariant forall c :: c in walls <==> c in old(walls) || (-2 <= c.x < x && -2 <= c.y < 2)
        invariant forall c :: HasWall(c) <==> !(-2 <= c.x < x && -2 <= c.y < 2) && old(HasWall(c))
      {
        for y := -2 to 2
          invariant forall c :: c in walls <==> c in old(walls) || (-2 <= c.x < x && -2 <= c.y < 2) || (c.x == x && -2 <= c.y < y)
          invariant forall c :: HasWall(c) <==> !((-2 <= c.x < x && -2 <= c.y < 2) || (c.x == x && -2 <= c.y < y)) && old(HasWall(c))
        {
          SetWall(Cell(x, y), false);
        }
      }
    }

    /**
     * The wall layout of build_map: each run walls off its stretches, then
     * the 4 x 4 centre block is cleared. Afterwards the origin has all four
     * of its neighbours.
     */
    method LayOutWalls(runs: seq<WallRun>)
      requires |runs| == WallRunCount
      requires forall i | 0 <= i < |runs| :: RunFits(runs[i], width, height)
      modifies this`walls
      ensures forall c :: c in walls <==> c in old(walls) || c in Covered(runs) || InCentre(c)
      ensures forall c :: HasWall(c) <==> !InCentre(c) && (c in Covered(runs) || old(HasWall(c)))
      ensures |Neighbors(Origin)| == 4
      ensures forall d | 0 <= d < |Offsets| :: Step(Origin, d) in Neighbors(Origin)
    {
      for k := 0 to |runs|
        invariant forall c :: c in walls <==> c in old(walls) || c in Covered(runs[..k])
        invariant forall c :: HasWall(c) <==> c in Covered(runs[..k]) || old(HasWall(c))
      {
        assert runs[..k + 1][..k] == runs[..k];
        AddRun(runs[k]);
      }
      assert runs[..|runs|] == runs;
      ClearCentre();
      assert RunFits(runs[0], width, height);
      AllStepsOpen(Origin, |Offsets|);
    }

    /** When the first k steps from c are open, all k are neighbours. */
    lemma {:induction false} AllStepsOpen(c: Cell, k: nat)
      requires k <= |Offsets|
      requires forall d | 0 <= d < k :: Open(Step(c, d))
      ensures |OpenAmong(c, k)| == k
    {
      if k > 0 {
        AllStepsOpen(c, k - 1);
      }
    }

    /** When none of the first k steps from c is open, c has no neighbour among them. */
    lemma {:induction false} NoStepOpen(c: Cell, k: nat)
      requires k <= |Offsets|
      requires forall d | 0 <= d < k :: !Open(Step(c, d))
      ensures OpenAmong(c, k) == []
    {
      if k > 0 {
        NoStepOpen(c, k - 1);
      }
    }
  }

  /** The map test of the source: a 26 x 13 map with no walls. */
  lemma EmptyMapNeighbourCounts(m: Map)
    requires m.width == 26 && m.height == 13 && m.walls == map[]
    ensures |m.Neighbors(Origin)| == 4
    ensures m.Neighbors(Cell(100, 100)) == []
  {
    m.AllStepsOpen(Origin, |Offsets|);
    m.NoStepOpen(Cell(100, 100), |Offsets|);
  }
}
