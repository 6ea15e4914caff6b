/**
 * Two defects of the grid queries, each shown on the code as written and
 * paired with a corrected query whose intended property is proved.
 *
 * 1. The neighbour guard tests `> 0` where `>= 0` is meant, so adjacency is
 *    not symmetric: row and column 0 are never anyone's neighbour.
 * 2. The position lookup ignores the grid's origin, which the bake uses to
 *    place the cells, so a grid away from the world origin resolves the
 *    centre of a cell to another cell.
 * 3. The lookup scales the position's fraction of the nominal extent by
 *    count - 1 and rounds, so a position is not always resolved to the cell
 *    it lies in, and with an extent that is not a whole number of cells not
 *    even a cell centre is.
 */
module GridFixes {
  import opened Wrappers
  import opened Geometry
  import opened Nodes
  import opened GridBase

  // ------------------------------------------------ neighbour guard

  /** Counterexample: (0, 0) lists (1, 1) as a neighbour, but (1, 1) does
      not list (0, 0), although the two cells touch diagonally. */
  lemma AsWrittenAdjacencyIsAsymmetric(g: Grid)
    requires Valid(g) && g.countX >= 2 && g.countY >= 2
    ensures g.cells[1][1] in Neighbours(g, g.cells[0][0])
    ensures g.cells[0][0] !in Neighbours(g, g.cells[1][1])
  {
  }

  /** A cell of the grid at Chebyshev distance exactly 1. */
  predicate IsAdjacent(g: Grid, gx: int, gy: int, x: int, y: int) {
    InBlock(gx, gy, x, y) && InGrid(g, x, y)
  }

  /** The neighbour query with the guard `>= 0`: every in-grid cell of the
      block, in loop order. */
  function NeighboursCorrected(g: Grid, n: Node): (r: seq<Node>)
    requires Valid(g)
    ensures |r| <= 8
    ensures n !in r
    ensures forall k :: 0 <= k < |r| ==>
              && IsAdjacent(g, n.gridX, n.gridY, r[k].gridX, r[k].gridY)
              && r[k] == g.cells[r[k].gridX][r[k].gridY]
    ensures forall x, y :: IsAdjacent(g, n.gridX, n.gridY, x, y) ==> g.cells[x][y] in r
    ensures forall k, l :: 0 <= k < l < |r| ==> LexLess(Pos(r[k]), Pos(r[l]))
  {
    BlockNeighbourhood(g, n, 0);
    CellsAt(g, KeepIndices(g.countX, g.countY, n.gridX, n.gridY, 0, Offsets))
  }

  /** Corrected adjacency is symmetric between any two cells of the grid. */
  lemma CorrectedAdjacencyIsSymmetric(g: Grid, a: int, b: int, c: int, d: int)
    requires Valid(g) && InGrid(g, a, b) && InGrid(g, c, d)
    ensures g.cells[c][d] in NeighboursCorrected(g, g.cells[a][b]) <==>
            g.cells[a][b] in NeighboursCorrected(g, g.cells[c][d])
  {
    CorrectedMembership(g, a, b, c, d);
    CorrectedMembership(g, c, d, a, b);
  }

  /** A grid cell is a corrected neighbour exactly when it is adjacent. */
  lemma CorrectedMembership(g: Grid, a: int, b: int, c: int, d: int)
    requires Valid(g) && InGrid(g, a, b) && InGrid(g, c, d)
    ensures g.cells[c][d] in NeighboursCorrected(g, g.cells[a][b]) <==> IsAdjacent(g, a, b, c, d)
  {
    var r := NeighboursCorrected(g, g.cells[a][b]);
    if g.cells[c][d] in r {
      var k :| 0 <= k < |r| && r[k] == g.cells[c][d];
      assert Pos(r[k]) == (c, d);
    }
  }

  // ------------------------------------------------ position lookup

  /** The position lookup measured from the grid's own origin. */
  function GetFromPositionCorrected(g: Grid, pos: Vec3): (r: Result<Node, LookupError>)
    requires Valid(g)
    ensures r.Success? <==> g.countX >= 1 && g.countY >= 1
    ensures r.Success? ==>
              && InGrid(g, r.value.gridX, r.value.gridY)
              && r.value == g.cells[r.value.gridX][r.value.gridY]
  {
    if g.countX < 1 || g.countY < 1 then Failure(IndexOutOfRange)
    else
      NonEmptyAxisHasExtent(g.size.x, g.radius);
      NonEmptyAxisHasExtent(g.size.y, g.radius);
      var x := AxisIndex(pos.x - g.origin.x, g.size.x, g.countX);
      var z := AxisIndex(pos.z - g.origin.z, g.size.y, g.countY);
      Success(g.cells[x][z])
  }

  /** For a grid centred on the world origin the correction changes nothing. */
  lemma CorrectionAgreesAtWorldOrigin(g: Grid, pos: Vec3)
    requires Valid(g) && g.origin.x == 0.0 && g.origin.z == 0.0
    ensures GetFromPositionCorrected(g, pos) == GetFromPosition(g, pos)
  {
  }

  /**
   * Centre round trip wherever the grid is placed: with an extent that is
   * a whole number of cells, every cell centre resolves to its own cell.
   */
  lemma CorrectedCentreResolvesToItsCell(g: Grid, i: int, j: int)
    requires Valid(g) && InGrid(g, i, j)
    requires g.size.x == g.countX as real * Diameter(g.radius)
    requires g.size.y == g.countY as real * Diameter(g.radius)
    ensures GetFromPositionCorrected(g, g.cells[i][j].worldPos) == Success(g.cells[i][j])
  {
    var p := g.cells[i][j].worldPos;
    AxisCentreRoundTrip(p.x - g.origin.x, g.size.x, g.radius, g.countX, i);
    AxisCentreRoundTrip(p.z - g.origin.z, g.size.y, g.radius, g.countY, j);
  }

  /**
   * The lookup as written, on a grid moved one full width along x: the
   * centre of column 0 resolves to the last column.
   */
  lemma AsWrittenShiftedGridMisresolves(g: Grid, j: int)
    requires Valid(g) && g.countX >= 2 && 0 <= j < g.countY
    requires g.radius > 0.0 && g.size.x > 0.0 && g.origin.x == g.size.x
    ensures GetFromPosition(g, g.cells[0][j].worldPos).value.gridX == g.countX - 1
    ensures GetFromPosition(g, g.cells[0][j].worldPos) != Success(g.cells[0][j])
  {
    ResolveClampsToBorder(g, g.cells[0][j].worldPos);
  }

  // ------------------------------------------------ scaling of the lookup

  /**
   * The lookup as written, 10 x 10 cells of diameter 1 around the world
   * origin: x = -4.4 lies in column 0, whose span is [-5, -4], but its
   * fraction 0.06 times 9 rounds to column 1.
   */
  lemma AsWrittenLookupMissesContainingCell(g: Grid)
    requires Valid(g) && g.size == Vec2(10.0, 10.0) && g.radius == 0.5
    requires g.origin == Vec3(0.0, 0.0, 0.0)
    ensures g.countX == 10 && g.countY == 10
    ensures var c := g.cells[0][0].worldPos;
              c.x - 0.5 <= -4.4 < c.x + 0.5 && c.z - 0.5 <= -4.5 < c.z + 0.5
    ensures GetFromPosition(g, Vec3(0.0 - 4.4, 0.0, 0.0 - 4.5)).value.gridX == 1
  {
    RoundNear(10.0, 10);
    var pos := Vec3(0.0 - 4.4, 0.0, 0.0 - 4.5);
    assert (pos.x + 5.0) / 10.0 == 0.06;
    RoundNear(9.0 * 0.06, 1);
    assert (pos.z + 5.0) / 10.0 == 0.05;
    RoundNear(9.0 * 0.05, 0);
  }

  /**
   * The lookup as written, on an extent of 10.4 with cells of diameter 1
   * around the world origin: the bake makes 10 cells per axis, and the
   * centre of column 9 (x = 4.3) has fraction 9.5 / 10.4, which times 9
   * rounds to column 8.
   */
  lemma AsWrittenInexactExtentMisresolves(g: Grid)
    requires Valid(g) && g.size == Vec2(10.4, 10.4) && g.radius == 0.5
    requires g.origin == Vec3(0.0, 0.0, 0.0)
    ensures g.countX == 10 && g.countY == 10
    ensures g.cells[9][0].worldPos.x == 4.3
    ensures GetFromPosition(g, g.cells[9][0].worldPos).value.gridX == 8
    ensures GetFromPosition(g, g.cells[9][0].worldPos) != Success(g.cells[9][0])
  {
    RoundNear(10.4, 10);
    var pos := g.cells[9][0].worldPos;
    assert pos.z == 0.0 - 4.7;
    assert (pos.x + 5.2) / 10.4 == 9.5 / 10.4;
    RoundNear(9.0 * (9.5 / 10.4), 8);
    assert (pos.z + 5.2) / 10.4 == 0.5 / 10.4;
    RoundNear(9.0 * (0.5 / 10.4), 0);
  }

  /**
   * The cell index of an offset from the grid's start: the cell whose span
   * [k·d, (k+1)·d) contains it, clamped to the grid.
   */
  function SpanIndex(offset: real, d: real, count: int): (k: int)
    requires d != 0.0
    ensures count >= 1 ==> 0 <= k < count
  {
    var c := (offset / d).Floor;
    if c >= count then count - 1 else if c < 0 then 0 else c
  }

  /** The position lookup that resolves a position to the cell it lies in. */
  function GetFromPositionNearest(g: Grid, pos: Vec3): (r: Result<Node, LookupError>)
    requires Valid(g)
    ensures r.Success? <==> g.countX >= 1 && g.countY >= 1
    ensures r.Success? ==>
              && InGrid(g, r.value.gridX, r.value.gridY)
              && r.value == g.cells[r.value.gridX][r.value.gridY]
  {
    if g.countX < 1 || g.countY < 1 then Failure(IndexOutOfRange)
    else
      var s := StartPos(g.size, g.origin);
      var x := SpanIndex(pos.x - s.x, Diameter(g.radius), g.countX);
      var z := SpanIndex(pos.z - s.z, Diameter(g.radius), g.countY);
      Success(g.cells[x][z])
  }

  /** An offset within the span of cell i selects index i. */
  lemma SpanIndexOfSpan(offset: real, d: real, count: int, i: int)
    requires d > 0.0 && 0 <= i < count
    requires i as real * d <= offset < (i as real + 1.0) * d
    ensures SpanIndex(offset, d, count) == i
  {
    FloorInSpan(offset, d, i);
  }

  /**
   * Every position in the square of cell (i, j), wherever the grid is placed
   * and whatever its extent, resolves to that cell.
   */
  lemma NearestFindsContainingCell(g: Grid, pos: Vec3, i: int, j: int)
    requires Valid(g) && InGrid(g, i, j) && g.radius > 0.0
    requires var c := g.cells[i][j].worldPos;
               c.x - g.radius <= pos.x < c.x + g.radius
               && c.z - g.radius <= pos.z < c.z + g.radius
    ensures GetFromPositionNearest(g, pos) == Success(g.cells[i][j])
  {
    var s := StartPos(g.size, g.origin);
    var d := Diameter(g.radius);
    SpanIndexOfSpan(pos.x - s.x, d, g.countX, i);
    SpanIndexOfSpan(pos.z - s.z, d, g.countY, j);
  }

  /** Centre round trip with no condition on the extent or the origin. */
  lemma NearestCentreResolvesToItsCell(g: Grid, i: int, j: int)
    requires Valid(g) && InGrid(g, i, j) && g.radius > 0.0
    ensures GetFromPositionNearest(g, g.cells[i][j].worldPos) == Success(g.cells[i][j])
  {
    NearestFindsContainingCell(g, g.cells[i][j].worldPos, i, j);
  }
}
