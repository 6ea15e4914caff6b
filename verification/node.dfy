/**
 * One cell of the grid: its baked geometry and walkability, plus the
 * scratch fields a path search writes (costs and parent link).
 */
module Nodes {
  import opened Wrappers
  import opened Geometry

  /** Grid coordinates (column, row) of a cell. */
  type Index = (int, int)

  /** The runtime's signed 32-bit integer, in which the costs are held. */
  newtype int32 = x: int | -0x8000_0000 <= x < 0x8000_0000

  /** Two's-complement wrap-around of an unchecked 32-bit addition. */
  function Wrap32(v: int): (r: int32)
    ensures (r as int - v) % 0x1_0000_0000 == 0
    ensures -0x8000_0000 <= v < 0x8000_0000 ==> r as int == v
  {
    ((v + 0x8000_0000) % 0x1_0000_0000 - 0x8000_0000) as int32
  }

  /**
   * A cell. The parent reference of the search is recorded by the grid
   * coordinates of the parent cell; `None` plays the role of null.
   */
  datatype Node = Node(
    canWalk: bool,
    worldPos: Vec3,
    gridX: int,
    gridY: int,
    gCost: int32,
    hCost: int32,
    parent: Option<Index>)

  /** The search priority: g + h, as an unchecked 32-bit sum. */
  function FCost(n: Node): (f: int32)
    ensures (f as int - (n.gCost as int + n.hCost as int)) % 0x1_0000_0000 == 0
    ensures -0x8000_0000 <= n.gCost as int + n.hCost as int < 0x8000_0000 ==>
              f as int == n.gCost as int + n.hCost as int
  {
    Wrap32(n.gCost as int + n.hCost as int)
  }

  /** The fields fixed at bake time agree. */
  predicate SameBake(n: Node, m: Node) {
    && n.canWalk == m.canWalk
    && n.worldPos == m.worldPos
    && n.gridX == m.gridX
    && n.gridY == m.gridY
  }

  /**
   * The constructor: the four given fields are stored as they are, the
   * costs keep their default zero and the parent its default null.
   */
  function NewNode(canWalk: bool, position: Vec3, gridX: int, gridY: int): (n: Node)
    ensures n.canWalk == canWalk && n.worldPos == position
    ensures n.gridX == gridX && n.gridY == gridY
    ensures n.gCost == 0 && n.hCost == 0 && n.parent == None
    ensures FCost(n) == 0
  {
    Node(canWalk, position, gridX, gridY, 0, 0, None)
  }

  /** A write a search performs on a node's scratch fields. */
  datatype Assignment =
    | SetGCost(g: int32)
    | SetHCost(h: int32)
    | SetParent(p: Option<Index>)

  /** Perform one field write. */
  function Assign(n: Node, a: Assignment): (m: Node)
    ensures SameBake(m, n)
    ensures m.gCost == (if a.SetGCost? then a.g else n.gCost)
    ensures m.hCost == (if a.SetHCost? then a.h else n.hCost)
    ensures m.parent == (if a.SetParent? then a.p else n.parent)
    ensures a.SetGCost? ==> FCost(m) == Wrap32(a.g as int + n.hCost as int)
    ensures a.SetHCost? ==> FCost(m) == Wrap32(n.gCost as int + a.h as int)
    ensures a.SetParent? ==> FCost(m) == FCost(n)
  {
    match a
    case SetGCost(g) => n.(gCost := g)
    case SetHCost(h) => n.(hCost := h)
    case SetParent(p) => n.(parent := p)
  }

  /** Perform a sequence of writes, first to last. */
  function AssignAll(n: Node, ops: seq<Assignment>): Node
    decreases |ops|
  {
    if ops == [] then n else AssignAll(Assign(n, ops[0]), ops[1..])
  }

  /** The g cost after `ops`: the last one written, else the initial value. */
  function LastG(g0: int32, ops: seq<Assignment>): int32
    decreases |ops|
  {
    if ops == [] then g0
    else LastG(if ops[0].SetGCost? then ops[0].g else g0, ops[1..])
  }

  /** The h cost after `ops`: the last one written, else the initial value. */
  function LastH(h0: int32, ops: seq<Assignment>): int32
    decreases |ops|
  {
    if ops == [] then h0
    else LastH(if ops[0].SetHCost? then ops[0].h else h0, ops[1..])
  }

  /**
   * However a search writes the scratch fields, the baked fields never
   * change, and FCost is the sum of the last g and h written.
   */
  lemma {:induction false} AssignAllKeepsBake(n: Node, ops: seq<Assignment>)
    ensures SameBake(AssignAll(n, ops), n)
    ensures AssignAll(n, ops).gCost == LastG(n.gCost, ops)
    ensures AssignAll(n, ops).hCost == LastH(n.hCost, ops)
    ensures FCost(AssignAll(n, ops)) ==
            Wrap32(LastG(n.gCost, ops) as int + LastH(n.hCost, ops) as int)
    decreases |ops|
  {
    if ops != [] {
      AssignAllKeepsBake(Assign(n, ops[0]), ops[1..]);
    }
  }
}
