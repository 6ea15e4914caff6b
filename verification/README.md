# Grid substrate for an A* pathfinder, modelled in Dafny

This project models the grid behind a Unity A* pathfinder. A component called
`GridBase` bakes a world rectangle into a 2D array of `Node`s. It then
answers two queries that a path search needs: which node holds a world
position, and which nodes are the 8-neighbours of a node. A `Node` holds its
walkability, its world position and its grid indices, plus the search's
scratch fields: the g and h costs, the derived `FCost`, and a parent link.

Files and modules:

- `wrappers.dfy` (`Wrappers`): `Option` and `Result`.
- `geometry.dfy` (`Geometry`): `Vec2` and `Vec3` over reals. `Round` is
  round-to-nearest with halves going to the even integer. `Clamp01` clamps to
  the unit interval. The module also holds small real-arithmetic lemmas.
- `node.dfy` (`Nodes`): the `Node` record and its constructor `NewNode`.
  `FCost` is an unchecked 32-bit sum. `Assign` and `AssignAll` model a
  search's writes to the scratch fields.
- `grid_base.dfy` (`GridBase`): the bake (`Start`, `CreateGrid`), the
  position lookup (`GetFromPosition`) and the neighbour query (`Neighbours`).
  The module also holds the grid invariant `Valid` and the lemmas about all
  of these.
- `grid_fixes.dfy` (`GridFixes`): the three defects under "## Findings". Each
  one has a lemma on the code as written and a corrected query with its
  intended property proved.

Modelling choices:

- The grid is an immutable value, `Grid`, with `cells[x][y]`. The queries
  are pure functions, so a query cannot change the grid.
- The physics test `Physics.CheckSphere(pos, radius, layer)` becomes a
  parameter `blocked: (Vec3, real) -> bool`.
- The component's `transform.position` becomes an explicit `origin`
  argument of `Start`.
- `m_gCost` and `m_hCost` are C# `int`s, modelled as `int32`. `FCost`
  wraps around on overflow, as unchecked C# addition does.
- The parent reference `m_Parent` is held as the grid coordinates of the
  parent cell. `None` stands for null.
- Error paths:
  - A zero radius makes the count division non-finite, and the array
    allocation then fails. `Start` returns `Failure(DegenerateCell)`.
  - A negative count makes `new Node[countX, countY]` throw. `Start` returns
    `Failure(NegativeCount)`.
  - A zero count bakes an empty grid. The code does not reject it, and
    neither does the model.
    `GetFromPosition` on an empty axis would index out of range, so it
    returns `Failure(IndexOutOfRange)`.
- `GetFromPosition` and `Neighbours` require `Valid(g)`, meaning `Start` has
  run. Before that, the array is null in the code. Only the indices of the
  node given to `Neighbours` are read. A node from outside the grid is
  handled by the same bounds test as in the code.

## Model

| member | source | states |
|---|---|---|
| `Nodes.FCost` | Assets/Scripts/Node.cs:13-16 | FCost equals g + h modulo 2^32, and equals g + h exactly when the sum fits in 32 bits |
| `Nodes.NewNode` | Assets/Scripts/Node.cs:20-26 | the constructor stores walkability, position and both indices as given; both costs are 0, so FCost is 0, and the parent is null |
| `Nodes.Assign` | Assets/Scripts/Node.cs:6-18 | writing g, h or the parent changes only that field; walkability, position and indices are kept; FCost follows the new g or h |
| `Nodes.AssignAllKeepsBake` | Assets/Scripts/Node.cs:6-18 | after any sequence of writes, the baked fields are unchanged, g and h are the last values written, and FCost is their wrapped sum |
| `Geometry.Round` | Assets/Scripts/GridBase.cs:18-19 | the result is an integer within 1/2 of the argument |
| `Geometry.RoundTiesToEven` | Assets/Scripts/GridBase.cs:18-19 | a value exactly halfway between two integers rounds to the even one |
| `Geometry.RoundIsNearest` | Assets/Scripts/GridBase.cs:56-57 | no integer is strictly closer to the argument than the rounded result |
| `Geometry.Clamp01` | Assets/Scripts/GridBase.cs:54-55 | the result lies in [0, 1]; it is the argument when that lies in [0, 1], and the nearer end otherwise |
| `GridBase.CreateGrid` | Assets/Scripts/GridBase.cs:27-43 | the array is countX by countY; cell (i, j) has indices (i, j); its centre is start + i·d + r on x and start + j·d + r on z, with y the origin's; it is walkable exactly when the obstacle test misses that centre; costs are zero and the parent is null |
| `GridBase.Start` | Assets/Scripts/GridBase.cs:15-22 | fails exactly for a zero radius or a negative count; otherwise each count is round(extent / (2·radius)), the array has those dimensions, and the baked grid satisfies the index, position, walkability and fresh-node invariants |
| `GridBase.ConstantObstacleTest` | Assets/Scripts/GridBase.cs:39-40 | an obstacle test that always hits gives an all-blocked grid; one that never hits gives an all-walkable grid |
| `GridBase.ScratchWritesKeepGrid` | Assets/Scripts/Node.cs:11-18 | a search writing the costs or parent of any cell keeps the baked-grid invariant and every cell's walkability |
| `GridBase.AxisIndex` | Assets/Scripts/GridBase.cs:52-57 | the clamped, scaled and rounded fraction is always a valid index when the axis is non-empty |
| `GridBase.GetFromPosition` | Assets/Scripts/GridBase.cs:50-59 | fails exactly when an axis is empty; otherwise, for every position, it returns the grid's own cell at an index within [0, countX-1] × [0, countY-1] |
| `GridBase.ResolveClampsToBorder` | Assets/Scripts/GridBase.cs:52-57 | on the x axis, a position with x at or below -size.x/2 resolves to column 0, and one with x at or above size.x/2 to the last column |
| `GridBase.CentreResolvesToItsCell` | Assets/Scripts/GridBase.cs:29-58 | for a grid at the world origin whose extent is a whole number of cells, each cell centre resolves to that cell |
| `GridBase.KeepIndicesMembers` | Assets/Scripts/GridBase.cs:74-79 | a candidate index is kept exactly when its offset is listed and it passes the bounds test |
| `GridBase.KeepIndicesOrdered` | Assets/Scripts/GridBase.cs:69-80 | offsets visited in increasing (dx, dy) order produce candidates in increasing (x, y) order |
| `GridBase.OffsetsAreTheBlock` | Assets/Scripts/GridBase.cs:69-73 | the offsets visited are exactly the 3×3 block without its centre |
| `GridBase.Neighbours` | Assets/Scripts/GridBase.cs:66-83 | at most 8 nodes, never the argument; each is the grid's cell at a block index with 0 < x < countX and 0 < y < countY; every block index passing that test is returned whatever its walkability; results come in loop order |
| `GridBase.TwentyByTwenty` | Assets/Scripts/GridBase.cs:17-83 | a 20×20 region with radius 0.5 has 20 cells per axis; cell (0, 0) is centred at start + (0.5, 0.5); the neighbours of (1, 1) are exactly (1, 2), (2, 1) and (2, 2) |
| `GridFixes.AsWrittenAdjacencyIsAsymmetric` | Assets/Scripts/GridBase.cs:76 | as written, (1, 1) is a neighbour of (0, 0), but (0, 0) is not a neighbour of (1, 1) |
| `GridFixes.NeighboursCorrected` | Assets/Scripts/GridBase.cs:66-83 | with the guard `>= 0`, the result is exactly the in-grid cells at Chebyshev distance 1, in loop order, never the argument |
| `GridFixes.CorrectedAdjacencyIsSymmetric` | Assets/Scripts/GridBase.cs:76 | with the corrected guard, b is a neighbour of a exactly when a is a neighbour of b |
| `GridFixes.CorrectedMembership` | Assets/Scripts/GridBase.cs:76 | with the corrected guard, a grid cell is a neighbour exactly when it is adjacent |
| `GridFixes.GetFromPositionCorrected` | Assets/Scripts/GridBase.cs:50-59 | the lookup measured from the grid's origin keeps the bounds and failure behaviour of the original |
| `GridFixes.CorrectionAgreesAtWorldOrigin` | Assets/Scripts/GridBase.cs:52-53 | for a grid placed at the world origin, the corrected lookup and the original give the same answer for every position |
| `GridFixes.CorrectedCentreResolvesToItsCell` | Assets/Scripts/GridBase.cs:29-58 | with the origin subtracted, each cell centre resolves to that cell wherever the grid is placed, for an extent of a whole number of cells |
| `GridFixes.AsWrittenLookupMissesContainingCell` | Assets/Scripts/GridBase.cs:52-57 | as written, on a 10×10 grid of diameter-1 cells at the world origin, x = -4.4 lies in column 0 but resolves to column 1 |
| `GridFixes.AsWrittenInexactExtentMisresolves` | Assets/Scripts/GridBase.cs:52-57 | as written, an extent of 10.4 with diameter-1 cells bakes 10 cells per axis, and the centre of column 9 resolves to column 8 |
| `GridFixes.SpanIndex` | Assets/Scripts/GridBase.cs:54-57 | the corrected per-axis index always lies in [0, count-1] for a non-empty axis |
| `GridFixes.GetFromPositionNearest` | Assets/Scripts/GridBase.cs:50-59 | the corrected lookup keeps the original's bounds and failure behaviour: it fails exactly when an axis is empty, and otherwise returns the grid's own cell |
| `GridFixes.SpanIndexOfSpan` | Assets/Scripts/GridBase.cs:56-57 | an offset within the span [i·d, (i+1)·d) of cell i selects index i |
| `GridFixes.NearestFindsContainingCell` | Assets/Scripts/GridBase.cs:50-59 | with the corrected lookup, every position inside the square of cell (i, j) resolves to that cell, for any origin and any extent |
| `GridFixes.NearestCentreResolvesToItsCell` | Assets/Scripts/GridBase.cs:29-58 | with the corrected lookup, every cell centre resolves to its own cell, with no condition on the origin or the extent |
| `GridFixes.AsWrittenShiftedGridMisresolves` | Assets/Scripts/GridBase.cs:52 | as written, on a grid moved one full width along x, the centre of column 0 resolves to the last column |

## Left out

- `OnDrawGizmos` and the `m_Path` stack (Assets/Scripts/GridBase.cs:10, 85-105): these are debug rendering only.
- `Physics.CheckSphere` and the `LayerMask`: this is a foreign physics-engine call, so it is the `blocked` parameter. Its purity is assumed.
- The `MonoBehaviour` lifecycle and `transform`: `Start` is an explicit call that takes the origin as an argument.
- Float semantics: positions, extents and the radius are exact reals. IEEE rounding, NaN and infinities are not modelled. A zero radius is modelled only as a failure. `RoundToInt` saturation or overflow of huge counts is not modelled.
- The 32-bit width of counts and grid indices: these are unbounded integers. Only the costs are modelled as 32-bit.
- The A* search itself: it is not present in the modelled files. Only the node fields it would use are modelled.
- GridBase.CentreResolvesToItsCell: requires the grid to sit at the world origin and the extent to be a whole number of cells. Without either condition the round trip is false. Off the origin, see the second finding. With an inexact extent, the centres stay at start + i·d + r, but the lookup divides by the nominal extent rather than by count·d, so a centre can resolve to a neighbouring cell. `GridFixes.AsWrittenInexactExtentMisresolves` shows such a case (third finding).
- GridFixes.CorrectedCentreResolvesToItsCell: requires the extent to be a whole number of cells. This corrected lookup fixes only the origin, and with an inexact extent the round trip is false, as in the third finding. `GridFixes.NearestCentreResolvesToItsCell` drops the condition.
- GridFixes.NearestFindsContainingCell and GridFixes.NearestCentreResolvesToItsCell: require a positive radius. With a negative radius, the bake walks the cells in the negative direction, which is not explored.
- Nodes.AssignAllKeepsBake: the baked fields `m_CanWalk`, `m_WorldPos`, `m_GridX` and `m_GridY` (Assets/Scripts/Node.cs:6-9) are public and writable in the code. The model's `Assignment` only allows writes to the costs and the parent, so the baked fields stay unchanged because no other writes are modelled.
- Geometry.Round: states the nearest-integer property over reals, not Unity's float `Mathf.RoundToInt`. Ties to even are stated separately, in `RoundTiesToEven`.

## Findings

| source | as written | input that shows it | evidently intended | confidence | as-written member | corrected member |
|---|---|---|---|---|---|---|
| Assets/Scripts/GridBase.cs:76 | neighbour guard `tempX > 0 && tempY > 0` | any grid of at least 2×2: (0, 0) lists (1, 1), but (1, 1) does not list (0, 0) | `tempX >= 0 && tempY >= 0`, so adjacency is symmetric and row and column 0 are reachable | high, not executed | `GridFixes.AsWrittenAdjacencyIsAsymmetric` | `GridFixes.NeighboursCorrected` |
| Assets/Scripts/GridBase.cs:52-53 | the lookup uses `pos.x + size/2` without subtracting the origin that the bake adds at lines 29-31 | a grid with origin.x equal to its width, at least 2 columns and a positive radius: the centre of column 0 resolves to the last column | measure from the grid's origin: `(pos.x - origin.x + size/2) / size` | medium, not executed | `GridFixes.AsWrittenShiftedGridMisresolves` | `GridFixes.GetFromPositionCorrected` |
| Assets/Scripts/GridBase.cs:56-57 | `RoundToInt((count - 1) * percent)`, where percent is the position's clamped fraction of the nominal extent | 10×10 cells of diameter 1 at the world origin: x = -4.4 lies in column 0 (span [-5, -4]) but 9 · 0.06 rounds to column 1. With an extent of 10.4, 10 cells are baked and the centre of column 9 (x = 4.3) resolves to column 8 | the node whose cell contains the position, as the comment at line 56 says: floor((pos - start) / d), clamped to the grid | medium, not executed | `GridFixes.AsWrittenLookupMissesContainingCell` | `GridFixes.GetFromPositionNearest` |

No other part of the model calls the lookups or the neighbour query, so the
corrected versions stand beside the as-written ones. The as-written versions
stay the model of the code. `GridFixes.CorrectedAdjacencyIsSymmetric`,
`GridFixes.CorrectedCentreResolvesToItsCell` and
`GridFixes.NearestFindsContainingCell` prove the intended properties.
