/** The controls of the falling pair: quarter turns of the sub offset, the
    wall kick, the spawn pair and the move test. */
module Controls {
  import opened Puyo
  import opened Field

  /** Quarter turn clockwise on screen (y grows downward): up becomes right. */
  function RotateCW(v: Vec2): Vec2 {
    Vec2(-v.y, v.x)
  }

  /** Quarter turn counter-clockwise on screen: up becomes left. */
  function RotateCCW(v: Vec2): Vec2 {
    Vec2(v.y, -v.x)
  }

  /** A quarter turn keeps the length of the offset, so the sub cell stays
      next to the pivot. */
  lemma RotationKeepsLength(v: Vec2)
    ensures Manhattan(RotateCW(v)) == Manhattan(v)
    ensures Manhattan(RotateCCW(v)) == Manhattan(v)
  {
  }

  /** The two quarter turns undo each other. */
  lemma RotationInverses(v: Vec2)
    ensures RotateCCW(RotateCW(v)) == v
    ensures RotateCW(RotateCCW(v)) == v
  {
  }

  /** Four clockwise turns are the identity, and two are a half turn. */
  lemma FourQuarterTurns(v: Vec2)
    ensures RotateCW(RotateCW(v)) == Vec2(-v.x, -v.y)
    ensures RotateCW(RotateCW(RotateCW(RotateCW(v)))) == v
  {
  }

  const UP: Vec2 := Vec2(0, -1)
  const RIGHT: Vec2 := Vec2(1, 0)
  const DOWN: Vec2 := Vec2(0, 1)
  const LEFT: Vec2 := Vec2(-1, 0)

  /** An offset of Manhattan length 1 is one of the four directions. */
  lemma UnitOffsets(v: Vec2)
    requires Manhattan(v) == 1
    ensures v == UP || v == RIGHT || v == DOWN || v == LEFT
  {
  }

  /** Clockwise turns walk the four directions up, right, down, left. */
  lemma RotateCWCycle()
    ensures RotateCW(UP) == RIGHT && RotateCW(RIGHT) == DOWN
    ensures RotateCW(DOWN) == LEFT && RotateCW(LEFT) == UP
  {
    assert UP == Vec2(0, -1) && RIGHT == Vec2(1, 0) && DOWN == Vec2(0, 1) && LEFT == Vec2(-1, 0);
  }

  function WithSub(p: PuyoPair, sub: Vec2): PuyoPair {
    p.(sub := sub)
  }

  /** The wall kick on grid G as a function: the pair itself when it fits,
      otherwise the first of "one column left" and "one column right" that
      fits; the flag says whether a fitting placement was found. */
  function Kick(G: Grid, p: PuyoPair): (r: (bool, PuyoPair))
    ensures r.0 <==> Fits(G, r.1)
    ensures !r.0 ==> r.1 == p
    ensures r.1 == p || r.1 == Shifted(p, -1, 0) || r.1 == Shifted(p, 1, 0)
    ensures Fits(G, p) ==> r.1 == p
    ensures !Fits(G, p) && Fits(G, Shifted(p, -1, 0)) ==> r.1 == Shifted(p, -1, 0)
    ensures r.0 <==> Fits(G, p) || Fits(G, Shifted(p, -1, 0)) || Fits(G, Shifted(p, 1, 0))
  {
    if Fits(G, p) then (true, p)
    else if Fits(G, Shifted(p, -1, 0)) then (true, Shifted(p, -1, 0))
    else if Fits(G, Shifted(p, 1, 0)) then (true, Shifted(p, 1, 0))
    else (false, p)
  }

  /** The wall kick as the source performs it, on a copy of the pair that
      is overwritten only when a kick succeeds. */
  method WallKick(b: Board, p: PuyoPair) returns (ok: bool, q: PuyoPair)
    requires b.Valid()
    ensures (ok, q) == Kick(b.g[..], p)
  {
    if !b.Collision(p) {
      return true, p;
    }
    var test := Shifted(p, -1, 0);
    if !b.Collision(test) {
      return true, test;
    }
    test := Shifted(p, 1, 0);
    if !b.Collision(test) {
      return true, test;
    }
    return false, p;
  }

  /** A new pair at the top of the middle column, its sub cell directly
      above the pivot; the colours are the two drawn colours. */
  function SpawnPair(c1: Color, c2: Color): (p: PuyoPair)
    ensures p.c1 == c1 && p.c2 == c2
    ensures p.pivot == Vec2(COLS / 2, 0) && InGrid(p.pivot) && p.sub == UP
    ensures !InGrid(SubCell(p))
  {
    PuyoPair(Vec2(COLS / 2, 0), UP, c1, c2)
  }

  /** The sub cell of every fresh pair lies in row -1, so the pair never
      fits, whatever the grid holds. */
  lemma SpawnAlwaysCollides(G: Grid, c1: Color, c2: Color)
    ensures !Fits(G, SpawnPair(c1, c2))
    ensures SubCell(SpawnPair(c1, c2)).y == -1
  {
  }

  /** The pair can be displaced by (dx, dy) when the displaced copy does
      not collide. */
  function CanMove(b: Board, p: PuyoPair, dx: int, dy: int): (r: bool)
    requires b.Valid()
    reads b.g
    ensures r <==> Fits(b.g[..], Shifted(p, dx, dy))
    ensures r ==> InGrid(Shifted(p, dx, dy).pivot) && InGrid(SubCell(Shifted(p, dx, dy)))
  {
    !b.Collision(Shifted(p, dx, dy))
  }
}
