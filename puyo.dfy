/** Shared vocabulary of the board simulation: the grid size, cell colours,
    coordinates, the falling pair, the bounds query and the row-major layout
    of the grid. */
module Puyo {

  /** Number of columns and rows of the well. */
  const COLS: int := 6
  const ROWS: int := 12

  /** A cell is empty or holds one of the five puyo colours. */
  datatype Color = Empty | Red | Green | Blue | Yellow | Purple

  /** A grid coordinate or an offset: x grows to the right, y grows downward. */
  datatype Vec2 = Vec2(x: int, y: int)

  /** The falling pair: the pivot cell, the offset of the sub cell from the
      pivot, and the colours of pivot (c1) and sub cell (c2). */
  datatype PuyoPair = PuyoPair(pivot: Vec2, sub: Vec2, c1: Color, c2: Color)

  /** The grid contents, row by row from the top, each row left to right. */
  type Grid = s: seq<Color> | |s| == ROWS * COLS witness seq(ROWS * COLS, _ => Empty)

  /** The grid in which every cell is empty. */
  function EmptyGrid(): Grid { seq(ROWS * COLS, _ => Empty) }

  /** The bounds query; every in-bounds coordinate addresses a cell of the
      row-major layout. */
  predicate InBounds(x: int, y: int)
    ensures InBounds(x, y) ==> 0 <= y * COLS + x < ROWS * COLS
  {
    0 <= x < COLS && 0 <= y < ROWS
  }

  predicate InGrid(v: Vec2) {
    InBounds(v.x, v.y)
  }

  /** Position of cell v in the row-major layout. */
  function Idx(v: Vec2): (i: nat)
    requires InGrid(v)
    ensures i < ROWS * COLS
  {
    v.y * COLS + v.x
  }

  /** The cell at row-major position i. */
  function PosOf(i: int): (v: Vec2)
    requires 0 <= i < ROWS * COLS
    ensures InGrid(v) && Idx(v) == i
  {
    Vec2(i % COLS, i / COLS)
  }

  lemma PosOfIdx(v: Vec2)
    requires InGrid(v)
    ensures PosOf(Idx(v)) == v
  {
  }

  lemma IdxInjective(v: Vec2, w: Vec2)
    requires InGrid(v) && InGrid(w) && v != w
    ensures Idx(v) != Idx(w)
  {
    PosOfIdx(v);
    PosOfIdx(w);
  }

  function Cell(G: Grid, v: Vec2): Color
    requires InGrid(v)
  {
    G[Idx(v)]
  }

  /** The set of all cells of the grid. */
  function AllCells(): (s: set<Vec2>)
    ensures forall v {:trigger v in s} :: v in s <==> InGrid(v)
  {
    set x: int, y: int | 0 <= x < COLS && 0 <= y < ROWS :: Vec2(x, y)
  }

  /** The position of the sub cell of a pair. */
  function SubCell(p: PuyoPair): Vec2 {
    Vec2(p.pivot.x + p.sub.x, p.pivot.y + p.sub.y)
  }

  /** The pair moved by (dx, dy), with its offset and colours unchanged. */
  function Shifted(p: PuyoPair, dx: int, dy: int): PuyoPair {
    p.(pivot := Vec2(p.pivot.x + dx, p.pivot.y + dy))
  }

  function Abs(n: int): nat {
    if n < 0 then -n else n
  }

  /** Manhattan length of an offset. */
  function Manhattan(v: Vec2): nat {
    Abs(v.x) + Abs(v.y)
  }

  /** The four neighbours, in the order the flood fill visits them. */
  const DX: seq<int> := [1, -1, 0, 0]
  const DY: seq<int> := [0, 0, 1, -1]

  function Neighbour(v: Vec2, k: int): Vec2
    requires 0 <= k < 4
  {
    Vec2(v.x + DX[k], v.y + DY[k])
  }

  /** w is one of the four neighbours of v. */
  predicate Adjacent(v: Vec2, w: Vec2) {
    w == Neighbour(v, 0) || w == Neighbour(v, 1) || w == Neighbour(v, 2) || w == Neighbour(v, 3)
  }

  lemma AdjacentSymmetric(v: Vec2, w: Vec2)
    requires Adjacent(v, w)
    ensures Adjacent(w, v)
  {
  }
}
