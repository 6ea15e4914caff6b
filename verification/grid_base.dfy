/**
 * The grid component: bakes a world rectangle into a 2D array of nodes and
 * answers the two queries a path search needs, position -> node and the
 * 8-neighbourhood of a node.
 */
module GridBase {
  import opened Wrappers
  import opened Geometry
  import opened Nodes

  /** Why a bake yields no grid. */
  datatype ConfigError =
    | DegenerateCell  // zero radius: the count division has no finite value
    | NegativeCount   // a negative cell count: the array allocation throws

  /** Why a position lookup yields no node. */
  datatype LookupError = IndexOutOfRange

  /** A baked grid: its configuration, cell counts and cells[x][y]. */
  datatype Grid = Grid(
    size: Vec2,
    radius: real,
    origin: Vec3,
    countX: int,
    countY: int,
    cells: seq<seq<Node>>)

  function Diameter(radius: real): real {
    radius * 2.0
  }

  /** Lower corner of the grid: the origin moved back by half the extent. */
  function StartPos(size: Vec2, origin: Vec3): Vec3 {
    Vec3(origin.x - size.x / 2.0, origin.y, origin.z - size.y / 2.0)
  }

  /** Centre of cell (i, j); the vertical coordinate is the origin's. */
  function CellCentre(start: Vec3, radius: real, i: int, j: int): Vec3 {
    Vec3(start.x + i as real * Diameter(radius) + radius,
         start.y,
         start.z + j as real * Diameter(radius) + radius)
  }

  /** The cell count along one axis, as the bake computes it. */
  function AxisCount(extent: real, radius: real): int
    requires radius != 0.0
  {
    Round(extent / Diameter(radius))
  }

  function Pos(n: Node): Index {
    (n.gridX, n.gridY)
  }

  predicate InGrid(g: Grid, x: int, y: int) {
    0 <= x < g.countX && 0 <= y < g.countY
  }

  /** The cell array has the dimensions countX by countY. */
  predicate Shaped(g: Grid) {
    && |g.cells| == g.countX
    && forall i :: 0 <= i < |g.cells| ==> |g.cells[i]| == g.countY
  }

  /**
   * The invariant of a baked grid: counts derived from the extent and the
   * radius, array dimensions equal to the counts, and every cell carrying
   * its own indices and the centre those indices determine.
   */
  predicate Valid(g: Grid) {
    && g.radius != 0.0
    && g.countX == AxisCount(g.size.x, g.radius)
    && g.countY == AxisCount(g.size.y, g.radius)
    && g.countX >= 0 && g.countY >= 0
    && Shaped(g)
    && forall i, j :: 0 <= i < g.countX && 0 <= j < g.countY ==>
         && g.cells[i][j].gridX == i
         && g.cells[i][j].gridY == j
         && g.cells[i][j].worldPos == CellCentre(StartPos(g.size, g.origin), g.radius, i, j)
  }

  /** Every cell is walkable exactly when the obstacle test misses it. */
  predicate BakedWith(g: Grid, blocked: (Vec3, real) -> bool) {
    && Shaped(g)
    && forall i, j :: 0 <= i < g.countX && 0 <= j < g.countY ==>
         g.cells[i][j].canWalk == !blocked(g.cells[i][j].worldPos, g.radius)
  }

  /** No search has written to any cell yet. */
  predicate Fresh(g: Grid) {
    && Shaped(g)
    && forall i, j :: 0 <= i < g.countX && 0 <= j < g.countY ==>
         && g.cells[i][j].gCost == 0
         && g.cells[i][j].hCost == 0
         && g.cells[i][j].parent == None
  }

  // ---------------------------------------------------------------- bake

  /** The node the bake stores at (i, j). */
  function BakeCell(start: Vec3, radius: real, i: int, j: int,
                    blocked: (Vec3, real) -> bool): Node
  {
    var p := CellCentre(start, radius, i, j);
    NewNode(!blocked(p, radius), p, i, j)
  }

  /** Fill the countX by countY array, column by column. */
  method CreateGrid(size: Vec2, radius: real, origin: Vec3, countX: nat, countY: nat,
                    blocked: (Vec3, real) -> bool)
    returns (cells: seq<seq<Node>>)
    ensures |cells| == countX
    ensures forall i :: 0 <= i < countX ==> |cells[i]| == countY
    ensures forall i, j :: 0 <= i < countX && 0 <= j < countY ==>
              && cells[i][j].gridX == i && cells[i][j].gridY == j
              && cells[i][j].worldPos == CellCentre(StartPos(size, origin), radius, i, j)
              && cells[i][j].canWalk == !blocked(cells[i][j].worldPos, radius)
              && cells[i][j].gCost == 0 && cells[i][j].hCost == 0
              && cells[i][j].parent == None
  {
    var start := StartPos(size, origin);
    cells := [];
    var i := 0;
    while i < countX
      invariant 0 <= i <= countX
      invariant |cells| == i
      invariant forall a :: 0 <= a < i ==> |cells[a]| == countY
      invariant forall a, b :: 0 <= a < i && 0 <= b < countY ==>
                  cells[a][b] == BakeCell(start, radius, a, b, blocked)
    {
      var column := [];
      var j := 0;
      while j < countY
        invariant 0 <= j <= countY
        invariant |column| == j
        invariant forall b :: 0 <= b < j ==> column[b] == BakeCell(start, radius, i, b, blocked)
      {
        column := column + [BakeCell(start, radius, i, j, blocked)];
        j := j + 1;
      }
      cells := cells + [column];
      i := i + 1;
    }
  }

  /**
   * Compute the counts, allocate and bake. A zero radius or a negative
   * count is a failure; a zero count yields an empty grid.
   */
  method Start(size: Vec2, radius: real, origin: Vec3, blocked: (Vec3, real) -> bool)
    returns (r: Result<Grid, ConfigError>)
    ensures radius == 0.0 <==> r == Failure(DegenerateCell)
    ensures radius != 0.0 ==>
              (r == Failure(NegativeCount) <==>
                 AxisCount(size.x, radius) < 0 || AxisCount(size.y, radius) < 0)
    ensures r.Success? ==>
              && Valid(r.value) && BakedWith(r.value, blocked) && Fresh(r.value)
              && r.value.size == size && r.value.radius == radius && r.value.origin == origin
  {
    if radius == 0.0 {
      return Failure(DegenerateCell);
    }
    var countX := AxisCount(size.x, radius);
    var countY := AxisCount(size.y, radius);
    if countX < 0 || countY < 0 {
      return Failure(NegativeCount);
    }
    var cells := CreateGrid(size, radius, origin, countX, countY, blocked);
    r := Success(Grid(size, radius, origin, countX, countY, cells));
  }

  /** With an obstacle test that ignores its input, all cells agree. */
  lemma ConstantObstacleTest(g: Grid, hit: bool)
    requires BakedWith(g, (p: Vec3, r: real) => hit)
    ensures forall i, j :: 0 <= i < g.countX && 0 <= j < g.countY ==>
              g.cells[i][j].canWalk == !hit
  {
  }

  /**
   * A search writing the scratch fields of any cell leaves the grid
   * invariant and the walkability of every cell intact.
   */
  lemma ScratchWritesKeepGrid(g: Grid, blocked: (Vec3, real) -> bool,
                              i: int, j: int, ops: seq<Assignment>)
    requires Valid(g) && BakedWith(g, blocked) && InGrid(g, i, j)
    ensures var h := g.(cells := g.cells[i := g.cells[i][j := AssignAll(g.cells[i][j], ops)]]);
              Valid(h) && BakedWith(h, blocked)
  {
    AssignAllKeepsBake(g.cells[i][j], ops);
  }

  // ------------------------------------------------------ position -> node

  /** The column (or row) a coordinate falls in, clamped to the grid. */
  function AxisIndex(p: real, extent: real, count: int): (k: int)
    requires extent != 0.0
    ensures count >= 1 ==> 0 <= k < count
  {
    ScaledIndex(Clamp01((p + extent / 2.0) / extent), count)
  }

  /** A fraction of the region scaled to the last index and rounded. */
  function ScaledIndex(percent: real, count: int): (k: int)
    requires 0.0 <= percent <= 1.0
    ensures count >= 1 ==> 0 <= k < count
  {
    ScaledFractionInRange(percent, count);
    Round((count as real - 1.0) * percent)
  }

  /** A non-empty axis has a non-zero extent. */
  lemma NonEmptyAxisHasExtent(extent: real, radius: real)
    requires radius != 0.0
    requires AxisCount(extent, radius) >= 1
    ensures extent != 0.0
  {
  }

  /** A fraction of [0, 1] scaled by count - 1 rounds to an index below count. */
  lemma ScaledFractionInRange(percent: real, count: int)
    requires 0.0 <= percent <= 1.0
    ensures count >= 1 ==> 0 <= Round((count as real - 1.0) * percent) < count
  {
    if count >= 1 {
      var n := count as real - 1.0;
      assert n * percent <= n * 1.0;
      RoundWithin(n * percent, count - 1);
    }
  }

  /**
   * The node at a world position as the lookup computes it: on each axis
   * the position's fraction of the extent, measured from -extent/2 and
   * clamped to [0, 1], times count - 1, rounded. Never fails unless an axis
   * is empty, and then the array access is out of range.
   */
  function GetFromPosition(g: Grid, pos: Vec3): (r: Result<Node, LookupError>)
    requires Valid(g)
    ensures r.Success? <==> g.countX >= 1 && g.countY >= 1
    ensures r.Success? ==>
              && InGrid(g, r.value.gridX, r.value.gridY)
              && r.value == g.cells[r.value.gridX][r.value.gridY]
  {
    if g.countX < 1 || g.countY < 1 then Failure(IndexOutOfRange)
    else
      NonEmptyAxisHasExtent(g.size.x, g.radius);
      NonEmptyAxisHasExtent(g.size.y, g.radius);
      var x := AxisIndex(pos.x, g.size.x, g.countX);
      var z := AxisIndex(pos.z, g.size.y, g.countY);
      Success(g.cells[x][z])
  }

  /**
   * Clamping on the x axis: a position with x at or below -size.x/2 lands
   * in the first column, one at or above size.x/2 in the last.
   */
  lemma ResolveClampsToBorder(g: Grid, pos: Vec3)
    requires Valid(g) && g.countX >= 1 && g.countY >= 1 && g.size.x > 0.0
    ensures pos.x <= -g.size.x / 2.0 ==> GetFromPosition(g, pos).value.gridX == 0
    ensures pos.x >= g.size.x / 2.0 ==> GetFromPosition(g, pos).value.gridX == g.countX - 1
  {
    NonEmptyAxisHasExtent(g.size.y, g.radius);
    var w := g.size.x;
    var f := (pos.x + w / 2.0) / w;
    if pos.x <= -w / 2.0 {
      assert pos.x + w / 2.0 <= 0.0;
      assert f <= 0.0;
      assert Clamp01(f) == 0.0;
      assert AxisIndex(pos.x, w, g.countX) == Round(0.0);
    }
    if pos.x >= w / 2.0 {
      QuotientAtLeastOne(pos.x + w / 2.0, w);
      assert Clamp01(f) == 1.0;
      RoundNear((g.countX - 1) as real, g.countX - 1);
    }
  }

  /** With an exact footprint, the centre of cell i lies at fraction (i + 1/2) / n. */
  lemma CentreFraction(i: int, n: int, d: real)
    requires 0 <= i < n && d != 0.0
    ensures ((i as real + 0.5) * d) / (n as real * d) == (i as real + 0.5) / n as real
  {
    var a := i as real + 0.5;
    var b := n as real;
    assert (a / b) * (b * d) == a * d;
  }

  /**
   * One axis of the centre round trip: a coordinate lying (i + 1/2) cells
   * past the lower edge of an extent of exactly n cells maps back to i.
   */
  lemma AxisCentreRoundTrip(p: real, extent: real, radius: real, n: int, i: int)
    requires radius != 0.0 && 0 <= i < n
    requires extent == n as real * Diameter(radius)
    requires p + extent / 2.0 == i as real * Diameter(radius) + radius
    ensures extent != 0.0
    ensures AxisIndex(p, extent, n) == i
  {
    MulNonZero(n as real, Diameter(radius));
    CentrePercent(p + extent / 2.0, extent, Diameter(radius), n, i);
    ScaledCentre(n, i);
  }

  /** The fraction of a cell centre lies in (0, 1) and scales back to its index. */
  lemma ScaledCentre(n: int, i: int)
    requires 0 <= i < n
    ensures 0.0 < (i as real + 0.5) / n as real < 1.0
    ensures ScaledIndex((i as real + 0.5) / n as real, n) == i
  {
    var a := i as real + 0.5;
    var b := n as real;
    QuotientInUnit(a, b);
    ScaleByPredecessor(a, b);
    ScaledIndexNear(a / b, n, i);
  }

  /** A scaled fraction within half a unit of i selects index i. */
  lemma ScaledIndexNear(percent: real, count: int, i: int)
    requires 0.0 <= percent <= 1.0
    requires i as real - 0.5 < (count as real - 1.0) * percent < i as real + 0.5
    ensures ScaledIndex(percent, count) == i
  {
    RoundNear((count as real - 1.0) * percent, i);
  }

  /** The offset of a cell centre, as a fraction of an exact extent. */
  lemma CentrePercent(offset: real, extent: real, d: real, n: int, i: int)
    requires d != 0.0 && 0 <= i < n
    requires extent == n as real * d
    requires offset == i as real * d + d / 2.0
    ensures offset / extent == (i as real + 0.5) / n as real
  {
    assert offset == (i as real + 0.5) * d;
    CentreFraction(i, n, d);
  }

  /**
   * Centre round trip: for a grid centred on the world origin whose extent
   * is a whole number of cells, every cell centre resolves to its cell.
   */
  lemma CentreResolvesToItsCell(g: Grid, i: int, j: int)
    requires Valid(g) && InGrid(g, i, j)
    requires g.origin.x == 0.0 && g.origin.z == 0.0
    requires g.size.x == g.countX as real * Diameter(g.radius)
    requires g.size.y == g.countY as real * Diameter(g.radius)
    ensures GetFromPosition(g, g.cells[i][j].worldPos) == Success(g.cells[i][j])
  {
    var p := g.cells[i][j].worldPos;
    AxisCentreRoundTrip(p.x, g.size.x, g.radius, g.countX, i);
    AxisCentreRoundTrip(p.z, g.size.y, g.radius, g.countY, j);
  }

  // --------------------------------------------------------- neighbours

  /** The 3x3 block minus its centre, in loop order: dx outer, dy inner. */
  const Offsets: seq<Index> :=
    [(-1, -1), (-1, 0), (-1, 1), (0, -1), (0, 1), (1, -1), (1, 0), (1, 1)]

  predicate LexLess(a: Index, b: Index) {
    a.0 < b.0 || (a.0 == b.0 && a.1 < b.1)
  }

  predicate StrictlyOrdered(s: seq<Index>) {
    forall k, l :: 0 <= k < l < |s| ==> LexLess(s[k], s[l])
  }

  /** The bounds test of the neighbour loop, with `lo` the smallest index
      allowed (the loop as written uses 1). */
  predicate Admits(countX: int, countY: int, lo: nat, p: Index) {
    p.0 < countX && p.0 >= lo && p.1 >= lo && p.1 < countY
  }

  /** The candidates `(gx, gy) + d`, d ranging over `offs` in order, that
      pass the bounds test. */
  function KeepIndices(countX: int, countY: int, gx: int, gy: int, lo: nat,
                       offs: seq<Index>): (r: seq<Index>)
    ensures |r| <= |offs|
    decreases |offs|
  {
    if offs == [] then []
    else
      var c := (gx + offs[0].0, gy + offs[0].1);
      var rest := KeepIndices(countX, countY, gx, gy, lo, offs[1..]);
      if Admits(countX, countY, lo, c) then [c] + rest else rest
  }

  /** A candidate is kept exactly when its offset is listed and it passes the test. */
  lemma {:induction false} KeepIndicesMembers(countX: int, countY: int, gx: int, gy: int,
                                              lo: nat, offs: seq<Index>, p: Index)
    ensures p in KeepIndices(countX, countY, gx, gy, lo, offs) <==>
              (p.0 - gx, p.1 - gy) in offs && Admits(countX, countY, lo, p)
    decreases |offs|
  {
    if offs != [] {
      KeepIndicesMembers(countX, countY, gx, gy, lo, offs[1..], p);
      assert offs == [offs[0]] + offs[1..];
    }
  }

  /** Ordered offsets give ordered candidates. */
  lemma {:induction false} KeepIndicesOrdered(countX: int, countY: int, gx: int, gy: int,
                                              lo: nat, offs: seq<Index>)
    requires StrictlyOrdered(offs)
    ensures StrictlyOrdered(KeepIndices(countX, countY, gx, gy, lo, offs))
    decreases |offs|
  {
    if offs != [] {
      var tail := offs[1..];
      assert StrictlyOrdered(tail) by {
        forall k, l | 0 <= k < l < |tail| ensures LexLess(tail[k], tail[l]) {
          assert tail[k] == offs[k + 1] && tail[l] == offs[l + 1];
        }
      }
      KeepIndicesOrdered(countX, countY, gx, gy, lo, tail);
      var c := (gx + offs[0].0, gy + offs[0].1);
      var rest := KeepIndices(countX, countY, gx, gy, lo, tail);
      if Admits(countX, countY, lo, c) {
        var r := [c] + rest;
        forall l | 0 < l < |r| ensures LexLess(r[0], r[l]) {
          var q := rest[l - 1];
          KeepIndicesMembers(countX, countY, gx, gy, lo, tail, q);
          var m :| 0 <= m < |tail| && tail[m] == (q.0 - gx, q.1 - gy);
          assert LexLess(offs[0], offs[m + 1]);
        }
        assert StrictlyOrdered(r);
      }
    }
  }

  /** The listed offsets are exactly the 3x3 block without its centre. */
  lemma OffsetsAreTheBlock(d: Index)
    ensures d in Offsets <==> d != (0, 0) && -1 <= d.0 <= 1 && -1 <= d.1 <= 1
  {
    if d != (0, 0) && -1 <= d.0 <= 1 && -1 <= d.1 <= 1 {
      if d.0 == -1 {
        assert d == Offsets[d.1 + 1];
      } else if d.0 == 0 {
        assert d == Offsets[if d.1 < 0 then 3 else 4];
      } else {
        assert d == Offsets[d.1 + 6];
      }
    }
  }

  lemma OffsetsOrdered()
    ensures StrictlyOrdered(Offsets)
  {
  }

  /** (x, y) is one of the eight cells around (gx, gy). */
  predicate InBlock(gx: int, gy: int, x: int, y: int) {
    && (x, y) != (gx, gy)
    && gx - 1 <= x <= gx + 1
    && gy - 1 <= y <= gy + 1
  }

  /** The guard of the neighbour loop: a block cell strictly above index 0
      and below the count on both axes. */
  predicate IsNeighbourAsWritten(g: Grid, gx: int, gy: int, x: int, y: int) {
    && InBlock(gx, gy, x, y)
    && x < g.countX && x > 0 && y > 0 && y < g.countY
  }

  /** The cells at the given in-range indices, in order. */
  function CellsAt(g: Grid, idx: seq<Index>): (r: seq<Node>)
    requires Valid(g)
    requires forall k :: 0 <= k < |idx| ==> InGrid(g, idx[k].0, idx[k].1)
    ensures |r| == |idx|
    ensures forall k :: 0 <= k < |r| ==>
              && Pos(r[k]) == idx[k]
              && InGrid(g, idx[k].0, idx[k].1)
              && r[k] == g.cells[idx[k].0][idx[k].1]
    decreases |idx|
  {
    if idx == [] then []
    else
      assert InGrid(g, idx[0].0, idx[0].1);
      [g.cells[idx[0].0][idx[0].1]] + CellsAt(g, idx[1..])
  }

  /**
   * The neighbours of a node, in loop order. Only the node's indices are
   * read; walkability is not consulted.
   */
  function Neighbours(g: Grid, n: Node): (r: seq<Node>)
    requires Valid(g)
    ensures |r| <= 8
    ensures n !in r
    ensures forall k :: 0 <= k < |r| ==>
              && IsNeighbourAsWritten(g, n.gridX, n.gridY, r[k].gridX, r[k].gridY)
              && r[k] == g.cells[r[k].gridX][r[k].gridY]
    ensures forall x, y :: IsNeighbourAsWritten(g, n.gridX, n.gridY, x, y) ==>
              g.cells[x][y] in r
    ensures forall k, l :: 0 <= k < l < |r| ==> LexLess(Pos(r[k]), Pos(r[l]))
  {
    BlockNeighbourhood(g, n, 1);
    CellsAt(g, KeepIndices(g.countX, g.countY, n.gridX, n.gridY, 1, Offsets))
  }

  /** The cells of a node's block that pass the bounds test with lower
      bound `lo`: at most eight, never the node, exactly the admitted block
      cells, in loop order. */
  lemma BlockNeighbourhood(g: Grid, n: Node, lo: nat)
    requires Valid(g)
    ensures var idx := KeepIndices(g.countX, g.countY, n.gridX, n.gridY, lo, Offsets);
      && (forall k :: 0 <= k < |idx| ==> InGrid(g, idx[k].0, idx[k].1))
      && var r := CellsAt(g, idx);
      && |r| <= 8
      && n !in r
      && (forall k :: 0 <= k < |r| ==>
            && InBlock(n.gridX, n.gridY, r[k].gridX, r[k].gridY)
            && Admits(g.countX, g.countY, lo, Pos(r[k]))
            && r[k] == g.cells[r[k].gridX][r[k].gridY])
      && (forall x, y :: InBlock(n.gridX, n.gridY, x, y) && Admits(g.countX, g.countY, lo, (x, y)) ==>
            g.cells[x][y] in r)
      && (forall k, l :: 0 <= k < l < |r| ==> LexLess(Pos(r[k]), Pos(r[l])))
  {
    var idx := KeepIndices(g.countX, g.countY, n.gridX, n.gridY, lo, Offsets);
    BlockIndicesSpec(g, n.gridX, n.gridY, lo, idx);
    BlockCellsSpec(g, n, lo, idx);
  }

  /** The cells at block indices inherit the indices' properties. */
  lemma BlockCellsSpec(g: Grid, n: Node, lo: nat, idx: seq<Index>)
    requires Valid(g) && |idx| <= 8
    requires forall k :: 0 <= k < |idx| ==>
               && InBlock(n.gridX, n.gridY, idx[k].0, idx[k].1)
               && Admits(g.countX, g.countY, lo, idx[k])
               && InGrid(g, idx[k].0, idx[k].1)
    requires forall x, y :: InBlock(n.gridX, n.gridY, x, y) && Admits(g.countX, g.countY, lo, (x, y)) ==>
               (x, y) in idx
    requires StrictlyOrdered(idx)
    ensures var r := CellsAt(g, idx);
      && |r| <= 8
      && n !in r
      && (forall k :: 0 <= k < |r| ==>
            && InBlock(n.gridX, n.gridY, r[k].gridX, r[k].gridY)
            && Admits(g.countX, g.countY, lo, Pos(r[k]))
            && r[k] == g.cells[r[k].gridX][r[k].gridY])
      && (forall x, y :: InBlock(n.gridX, n.gridY, x, y) && Admits(g.countX, g.countY, lo, (x, y)) ==>
            g.cells[x][y] in r)
      && (forall k, l :: 0 <= k < l < |r| ==> LexLess(Pos(r[k]), Pos(r[l])))
  {
    var r := CellsAt(g, idx);
    forall x, y | InBlock(n.gridX, n.gridY, x, y) && Admits(g.countX, g.countY, lo, (x, y))
      ensures g.cells[x][y] in r
    {
      var k :| 0 <= k < |idx| && idx[k] == (x, y);
      assert r[k] == g.cells[x][y];
    }
  }

  /** What the kept indices of a node's block satisfy, for either lower bound. */
  lemma BlockIndicesSpec(g: Grid, gx: int, gy: int, lo: nat, idx: seq<Index>)
    requires idx == KeepIndices(g.countX, g.countY, gx, gy, lo, Offsets)
    ensures forall k :: 0 <= k < |idx| ==>
              && InBlock(gx, gy, idx[k].0, idx[k].1)
              && Admits(g.countX, g.countY, lo, idx[k])
              && InGrid(g, idx[k].0, idx[k].1)
    ensures forall x, y :: InBlock(gx, gy, x, y) && Admits(g.countX, g.countY, lo, (x, y)) ==>
              (x, y) in idx
    ensures StrictlyOrdered(idx)
  {
    forall k | 0 <= k < |idx|
      ensures InBlock(gx, gy, idx[k].0, idx[k].1) && Admits(g.countX, g.countY, lo, idx[k])
    {
      KeepIndicesMembers(g.countX, g.countY, gx, gy, lo, Offsets, idx[k]);
      OffsetsAreTheBlock((idx[k].0 - gx, idx[k].1 - gy));
    }
    forall x, y | InBlock(gx, gy, x, y) && Admits(g.countX, g.countY, lo, (x, y))
      ensures (x, y) in idx
    {
      BlockCellIsKept(g.countX, g.countY, gx, gy, lo, x, y);
    }
    OffsetsOrdered();
    KeepIndicesOrdered(g.countX, g.countY, gx, gy, lo, Offsets);
  }

  lemma BlockCellIsKept(countX: int, countY: int, gx: int, gy: int, lo: nat, x: int, y: int)
    requires InBlock(gx, gy, x, y) && Admits(countX, countY, lo, (x, y))
    ensures (x, y) in KeepIndices(countX, countY, gx, gy, lo, Offsets)
  {
    OffsetsAreTheBlock((x - gx, y - gy));
    KeptWhenListed(countX, countY, gx, gy, lo, Offsets, (x, y));
  }

  /** A listed offset whose candidate passes the test is kept. */
  lemma KeptWhenListed(countX: int, countY: int, gx: int, gy: int, lo: nat,
                       offs: seq<Index>, p: Index)
    requires (p.0 - gx, p.1 - gy) in offs && Admits(countX, countY, lo, p)
    ensures p in KeepIndices(countX, countY, gx, gy, lo, offs)
  {
    KeepIndicesMembers(countX, countY, gx, gy, lo, offs, p);
  }

  /**
   * A 20 x 20 region with cells of diameter 1: twenty cells per axis, the
   * first centre half a cell inside the corner, and cell (1, 1) sees only
   * (1, 2), (2, 1) and (2, 2), every neighbour with a zero index being dropped.
   */
  lemma TwentyByTwenty(g: Grid)
    requires Valid(g) && g.size == Vec2(20.0, 20.0) && g.radius == 0.5
    ensures g.countX == 20 && g.countY == 20
    ensures g.cells[0][0].worldPos ==
              Vec3(g.origin.x - 10.0 + 0.5, g.origin.y, g.origin.z - 10.0 + 0.5)
    ensures Neighbours(g, g.cells[1][1]) == [g.cells[1][2], g.cells[2][1], g.cells[2][2]]
  {
    assert g.countX == 20 && g.countY == 20 by {
      RoundNear(20.0 / Diameter(0.5), 20);
    }
    var idx := KeepIndices(g.countX, g.countY, 1, 1, 1, Offsets);
    assert idx == [(1, 2), (2, 1), (2, 2)] by {
      assert KeepIndices(20, 20, 1, 1, 1, Offsets) == [(1, 2), (2, 1), (2, 2)];
    }
    assert CellsAt(g, idx) == [g.cells[1][2], g.cells[2][1], g.cells[2][2]];
  }
}
