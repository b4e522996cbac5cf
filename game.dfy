/** The game logic of the main loop: the input step (move, soft drop,
    rotate with kicks), the automatic fall with locking, the chain cascade
    and the respawn, over a board and the falling pair. Keyboard state is
    an Input value, the float timers are the booleans moveReady and
    fallFires, and the random colours of a new pair are parameters. */
module Game {
  import opened Puyo
  import opened Groups
  import opened Gravity
  import opened Field
  import opened Controls

  /** The pair is in play: the pivot is on the grid, the sub cell is a
      neighbour of it, and the sub cell is on the grid too unless it sticks
      out above the top row. */
  predicate InPlay(p: PuyoPair) {
    InGrid(p.pivot) && Manhattan(p.sub) == 1 && (InGrid(SubCell(p)) || p.sub == UP)
  }

  /** What the main loop assumes when it locks: a pair whose two cells are
      not above the top row has both cells on the grid. */
  predicate LockInBounds(p: PuyoPair) {
    p.pivot.y >= 0 && SubCell(p).y >= 0 ==> InGrid(p.pivot) && InGrid(SubCell(p))
  }

  lemma InPlayLockInBounds(p: PuyoPair)
    requires InPlay(p)
    ensures LockInBounds(p)
  {
  }

  lemma EmptyGridCells(v: Vec2)
    requires InGrid(v)
    ensures Cell(EmptyGrid(), v) == Empty
  {
  }

  /** A pair fits on the empty grid exactly when both its cells are on it. */
  lemma FitsEmpty(p: PuyoPair)
    ensures Fits(EmptyGrid(), p) <==> InGrid(p.pivot) && InGrid(SubCell(p))
  {
    if InGrid(p.pivot) && InGrid(SubCell(p)) {
      EmptyGridCells(p.pivot);
      EmptyGridCells(SubCell(p));
    }
  }

  /** Every fresh pair is in play. */
  lemma SpawnInPlay(c1: Color, c2: Color)
    ensures InPlay(SpawnPair(c1, c2))
  {
  }

  /** The rotation step: the clockwise turn, kicked if it collides; when
      no kick helps, the counter-clockwise turn, kicked if it collides; and
      when that fails as well, the colliding counter-clockwise pair. */
  function RotateStep(G: Grid, cur: PuyoPair): (r: PuyoPair)
    ensures r.c1 == cur.c1 && r.c2 == cur.c2 && r.pivot.y == cur.pivot.y
    ensures r.pivot.x == cur.pivot.x || r.pivot.x == cur.pivot.x - 1 || r.pivot.x == cur.pivot.x + 1
    ensures r.sub == RotateCW(cur.sub) || r.sub == RotateCCW(cur.sub)
  {
    var t := TurnedCW(cur);
    if Fits(G, t) then t
    else if Kick(G, t).0 then Kick(G, t).1
    else
      var u := TurnedCCW(cur);
      if Fits(G, u) then u else Kick(G, u).1
  }

  function TurnedCW(cur: PuyoPair): PuyoPair {
    WithSub(cur, RotateCW(cur.sub))
  }

  function TurnedCCW(cur: PuyoPair): PuyoPair {
    WithSub(cur, RotateCCW(cur.sub))
  }

  /** The rotation step is the wall kick of the clockwise turn when that
      kick succeeds, and else the wall kick of the counter-clockwise turn,
      whether that one succeeds or not. */
  lemma RotationOrder(G: Grid, cur: PuyoPair)
    ensures Kick(G, TurnedCW(cur)).0 ==> RotateStep(G, cur) == Kick(G, TurnedCW(cur)).1
    ensures !Kick(G, TurnedCW(cur)).0 ==> RotateStep(G, cur) == Kick(G, TurnedCCW(cur)).1
  {
  }

  /** The rotation step ends on a fitting pair exactly when one of the two
      kicks succeeds. */
  lemma RotationFits(G: Grid, cur: PuyoPair)
    ensures Fits(G, RotateStep(G, cur)) <==> Kick(G, TurnedCW(cur)).0 || Kick(G, TurnedCCW(cur)).0
  {
    RotationOrder(G, cur);
  }

  /** A failed rotation is not a no-op: when neither kick succeeds, the
      pair ends up turned counter-clockwise and colliding. */
  lemma RotationFailure(G: Grid, cur: PuyoPair)
    requires !Kick(G, TurnedCW(cur)).0 && !Kick(G, TurnedCCW(cur)).0
    ensures RotateStep(G, cur) == TurnedCCW(cur)
    ensures !Fits(G, RotateStep(G, cur))
    ensures cur.sub != Vec2(0, 0) ==> RotateStep(G, cur) != cur
  {
    RotationOrder(G, cur);
  }

  /** On the empty grid a pair in play always turns: one of the two kicks
      succeeds. */
  lemma RotationOnEmptyBoard(cur: PuyoPair)
    requires InPlay(cur)
    ensures Fits(EmptyGrid(), RotateStep(EmptyGrid(), cur))
  {
    assert Kick(EmptyGrid(), TurnedCW(cur)).0 || Kick(EmptyGrid(), TurnedCCW(cur)).0 by {
      UnitOffsets(cur.sub);
      if cur.sub == UP {
        TurnFromUp(cur);
      } else if cur.sub == RIGHT {
        TurnFromRight(cur);
      } else if cur.sub == DOWN {
        TurnFromDown(cur);
      } else {
        TurnFromLeft(cur);
      }
    }
    RotationFits(EmptyGrid(), cur);
  }

  /** Up turns to right, kicked left at the right wall. */
  lemma TurnFromUp(cur: PuyoPair)
    requires InGrid(cur.pivot) && cur.sub == UP
    ensures Fits(EmptyGrid(), TurnedCW(cur)) || Fits(EmptyGrid(), Shifted(TurnedCW(cur), -1, 0))
  {
    var t := TurnedCW(cur);
    assert t.sub == Vec2(1, 0);
    if cur.pivot.x + 1 < COLS { FitsEmpty(t); } else { FitsEmpty(Shifted(t, -1, 0)); }
  }

  /** Right turns to down, or on the bottom row to up. */
  lemma TurnFromRight(cur: PuyoPair)
    requires InGrid(cur.pivot) && cur.sub == RIGHT
    ensures Fits(EmptyGrid(), TurnedCW(cur)) || Fits(EmptyGrid(), TurnedCCW(cur))
  {
    var t, u := TurnedCW(cur), TurnedCCW(cur);
    assert t.sub == Vec2(0, 1) && u.sub == Vec2(0, -1);
    if cur.pivot.y + 1 < ROWS { FitsEmpty(t); } else { FitsEmpty(u); }
  }

  /** Down turns to left, kicked right at the left wall. */
  lemma TurnFromDown(cur: PuyoPair)
    requires InGrid(cur.pivot) && cur.sub == DOWN
    ensures Fits(EmptyGrid(), TurnedCW(cur)) || Fits(EmptyGrid(), Shifted(TurnedCW(cur), 1, 0))
  {
    var t := TurnedCW(cur);
    assert t.sub == Vec2(-1, 0);
    if cur.pivot.x >= 1 { FitsEmpty(t); } else { FitsEmpty(Shifted(t, 1, 0)); }
  }

  /** Left turns to up, or on the top row to down. */
  lemma TurnFromLeft(cur: PuyoPair)
    requires InGrid(cur.pivot) && cur.sub == LEFT
    ensures Fits(EmptyGrid(), TurnedCW(cur)) || Fits(EmptyGrid(), TurnedCCW(cur))
  {
    var t, u := TurnedCW(cur), TurnedCCW(cur);
    assert t.sub == Vec2(0, -1) && u.sub == Vec2(0, 1);
    if cur.pivot.y >= 1 { FitsEmpty(t); } else { FitsEmpty(u); }
  }

  /** The keyboard state of one frame. moveReady says that the move
      cooldown has run out; fallFires that the fall timer has reached its
      interval. */
  datatype Input = Input(reset: bool, moveReady: bool, left: bool, right: bool, down: bool, rotate: bool, fallFires: bool)

  /** The pair moved by (dx, dy) when the moved pair fits, else unchanged. */
  function TryMove(G: Grid, p: PuyoPair, dx: int, dy: int): (r: PuyoPair)
    ensures r == p || (r == Shifted(p, dx, dy) && Fits(G, r))
    ensures Fits(G, Shifted(p, dx, dy)) ==> r == Shifted(p, dx, dy)
  {
    if Fits(G, Shifted(p, dx, dy)) then Shifted(p, dx, dy) else p
  }

  /** The input part of one frame: a horizontal move (left wins over
      right) when the cooldown allows, then the soft drop, then the
      rotation. */
  function InputStep(G: Grid, p: PuyoPair, i: Input): PuyoPair {
    var p1 := if i.moveReady && i.left then TryMove(G, p, -1, 0)
              else if i.moveReady && i.right then TryMove(G, p, 1, 0)
              else p;
    var p2 := if i.down then TryMove(G, p1, 0, 1) else p1;
    if i.rotate then RotateStep(G, p2) else p2
  }

  /** Moves and drops never push a pair into collision, never lift it and
      keep its colours. */
  lemma InputKeepsFit(G: Grid, p: PuyoPair, i: Input)
    requires !i.rotate && Fits(G, p)
    ensures Fits(G, InputStep(G, p, i))
    ensures InputStep(G, p, i).pivot.y >= p.pivot.y
    ensures InputStep(G, p, i).c1 == p.c1 && InputStep(G, p, i).c2 == p.c2
  {
  }

  /** On the empty grid every frame of input keeps a pair in play. */
  lemma InputKeepsInPlay(p: PuyoPair, i: Input)
    requires InPlay(p)
    ensures InPlay(InputStep(EmptyGrid(), p, i))
  {
    var G := EmptyGrid();
    var p1 := if i.moveReady && i.left then TryMove(G, p, -1, 0)
              else if i.moveReady && i.right then TryMove(G, p, 1, 0)
              else p;
    var p2 := if i.down then TryMove(G, p1, 0, 1) else p1;
    assert InPlay(p1);
    assert InPlay(p2);
    if i.rotate {
      RotationOnEmptyBoard(p2);
      RotationKeepsLength(p2.sub);
    }
  }

  /** Outcome of the chain cascade after a lock: the final grid, the points
      it scored and the number of passes that removed something. */
  datatype Resolution = Resolution(grid: Grid, points: int, passes: nat)

  /** A pass that clears something, followed by gravity, leaves fewer
      puyos on the grid. */
  lemma PopShrinks(G: Grid)
    requires Cleared(G) != {}
    ensures Occupied(AfterGravity(AfterPop(G))) < Occupied(G)
  {
    var w :| w in Cleared(G);
    var P := AfterPop(G);
    assert GridEmptiedFrom(G, P);
    OccupiedEmptied(G, P, w);
    OccupiedGravity(P);
  }

  /** The cascade: removal passes with chain indexes chainIndex,
      chainIndex + 1, ..., each productive one followed by gravity, until a
      pass removes nothing. */
  ghost function Cascade(G: Grid, chainIndex: int): (r: Resolution)
    decreases Occupied(G)
  {
    var n := |Cleared(G)|;
    if n <= 0 then Resolution(AfterPop(G), 0, 0)
    else
      PopShrinks(G);
      var rest := Cascade(AfterGravity(AfterPop(G)), chainIndex + 1);
      Resolution(rest.grid, PassPoints(chainIndex, n) + rest.points, rest.passes + 1)
  }

  /** When the cascade ends no group of POP_SIZE or more cells is left. */
  lemma {:induction false} CascadeSettles(G: Grid, chainIndex: int)
    ensures Cleared(Cascade(G, chainIndex).grid) == {}
    decreases Occupied(G)
  {
    if |Cleared(G)| <= 0 {
      AfterPopStable(G);
    } else {
      PopShrinks(G);
      CascadeSettles(AfterGravity(AfterPop(G)), chainIndex + 1);
    }
  }

  /** A pass that removes something scores its points and hands the
      settled grid to the next chain index. */
  lemma CascadeStep(G: Grid, chainIndex: int)
    requires Cleared(G) != {}
    ensures Occupied(AfterGravity(AfterPop(G))) < Occupied(G)
    ensures Cascade(G, chainIndex).grid == Cascade(AfterGravity(AfterPop(G)), chainIndex + 1).grid
    ensures Cascade(G, chainIndex).points ==
      PassPoints(chainIndex, |Cleared(G)|) + Cascade(AfterGravity(AfterPop(G)), chainIndex + 1).points
    ensures Cascade(G, chainIndex).passes == Cascade(AfterGravity(AfterPop(G)), chainIndex + 1).passes + 1
  {
    assert |Cleared(G)| > 0;
    PopShrinks(G);
  }

  /** A pass that removes nothing ends the cascade on the same grid. */
  lemma CascadeStop(G: Grid, chainIndex: int)
    requires Cleared(G) == {}
    ensures AfterPop(G) == G
    ensures Cascade(G, chainIndex) == Resolution(G, 0, 0)
  {
    NothingClearedUnchanged(G);
  }

  /** The score never decreases during a cascade, and it grows exactly when
      the first pass removes something. */
  lemma {:induction false} CascadePoints(G: Grid, chainIndex: int)
    requires chainIndex >= 0
    ensures Cascade(G, chainIndex).points >= 0
    ensures Cascade(G, chainIndex).points > 0 <==> Cleared(G) != {}
    decreases Occupied(G)
  {
    if Cleared(G) != {} {
      CascadeStep(G, chainIndex);
      CascadePoints(AfterGravity(AfterPop(G)), chainIndex + 1);
    } else {
      CascadeStop(G, chainIndex);
    }
  }

  /** A cascade counts a productive pass exactly when its first pass
      removes something. */
  lemma CascadePasses(G: Grid, chainIndex: int)
    ensures Cascade(G, chainIndex).passes > 0 <==> Cleared(G) != {}
  {
    if Cleared(G) != {} {
      CascadeStep(G, chainIndex);
    } else {
      CascadeStop(G, chainIndex);
    }
  }

  /** Loop state of the cascade: continuing from grid G with chain index
      chainIndex and score `score` ends in the resolution R of a cascade
      started with score score0. */
  ghost predicate CascadeRemains(G: Grid, score: int, chainIndex: int, R: Resolution, score0: int) {
    Cascade(G, chainIndex).grid == R.grid &&
    score + Cascade(G, chainIndex).points == score0 + R.points &&
    chainIndex + Cascade(G, chainIndex).passes == 1 + R.passes
  }

  /** A productive pass, with its points added to the score, keeps the
      loop state of the cascade. */
  lemma CascadeRemainsStep(G: Grid, H: Grid, score: int, score': int, chainIndex: int, R: Resolution, score0: int)
    requires CascadeRemains(G, score, chainIndex, R, score0) && Cleared(G) != {}
    requires H == AfterGravity(AfterPop(G)) && score' == score + PassPoints(chainIndex, |Cleared(G)|)
    ensures Occupied(H) < Occupied(G)
    ensures CascadeRemains(H, score', chainIndex + 1, R, score0)
  {
    CascadeStep(G, chainIndex);
  }

  /** Each productive pass removes at least one puyo, so there are at most
      as many passes as puyos. */
  lemma {:induction false} CascadeBound(G: Grid, chainIndex: int)
    ensures Cascade(G, chainIndex).passes <= Occupied(G)
    decreases Occupied(G)
  {
    if |Cleared(G)| > 0 {
      PopShrinks(G);
      CascadeBound(AfterGravity(AfterPop(G)), chainIndex + 1);
    }
  }

  /** A cascade has at most ROWS * COLS productive passes. */
  lemma CascadeGridBound(G: Grid, chainIndex: int)
    ensures Cascade(G, chainIndex).passes <= ROWS * COLS
  {
    CascadeBound(G, chainIndex);
    OccupiedBound(G);
  }

  /** The state a frame acts on: the grid, the score, the chain counter,
      the falling pair and whether the game is on. */
  datatype GameState = GameState(grid: Grid, score: int, chain: int, cur: PuyoPair, alive: bool)

  /** While the game is on the grid is empty and the pair is in play. */
  ghost predicate InGame(s: GameState) {
    s.alive ==> s.grid == EmptyGrid() && InPlay(s.cur)
  }

  /** The automatic fall once the timer has fired: the pair drops one row
      when it fits there; otherwise the game ends when the pair sticks out
      above the top row; otherwise the pair is locked, the cascade runs with
      chain index 1, and the fresh pair of colours c1, c2 is spawned, the
      game staying on only when it does not collide. */
  ghost function Fall(s: GameState, fallFires: bool, c1: Color, c2: Color): GameState
    requires s.alive ==> LockInBounds(s.cur)
  {
    if !(s.alive && fallFires) then s
    else if Fits(s.grid, Shifted(s.cur, 0, 1)) then s.(cur := Shifted(s.cur, 0, 1))
    else if s.cur.pivot.y < 0 || SubCell(s.cur).y < 0 then s.(alive := false)
    else
      var R := Cascade(Locked(s.grid, s.cur), 1);
      var spawned := SpawnPair(c1, c2);
      GameState(R.grid, s.score + R.points, s.chain, spawned, Fits(R.grid, spawned))
  }

  /** The first half of a frame: the restart key (with the colours r1, r2
      of its fresh pair), then the input while the game is on. It keeps
      the game invariant; the score and the chain counter change only by
      the restart, which sets them to 0. */
  ghost function Controlled(s: GameState, i: Input, r1: Color, r2: Color): (t: GameState)
    requires InGame(s)
    ensures InGame(t) && (t.alive ==> LockInBounds(t.cur))
    ensures t.score == (if i.reset then 0 else s.score)
    ensures t.chain == (if i.reset then 0 else s.chain)
  {
    var afterReset := if i.reset then GameState(EmptyGrid(), 0, 0, SpawnPair(r1, r2), true) else s;
    SpawnInPlay(r1, r2);
    if afterReset.alive then
      InputKeepsInPlay(afterReset.cur, i);
      InPlayLockInBounds(InputStep(afterReset.grid, afterReset.cur, i));
      afterReset.(cur := InputStep(afterReset.grid, afterReset.cur, i))
    else afterReset
  }

  /** One frame of the main loop: the restart key and the input, then the
      automatic fall (with the colours s1, s2 of the pair spawned after a
      lock). */
  ghost function Frame(s: GameState, i: Input, r1: Color, r2: Color, s1: Color, s2: Color): GameState
    requires InGame(s)
  {
    Fall(Controlled(s, i, r1, r2), i.fallFires, s1, s2)
  }

  /** Every lock ends the game: the fresh pair collides on any grid. */
  lemma LockEndsGame(s: GameState, fallFires: bool, c1: Color, c2: Color)
    requires s.alive && fallFires && LockInBounds(s.cur)
    requires !Fits(s.grid, Shifted(s.cur, 0, 1)) && s.cur.pivot.y >= 0 && SubCell(s.cur).y >= 0
    ensures !Fall(s, fallFires, c1, c2).alive
    ensures Fall(s, fallFires, c1, c2).cur == SpawnPair(c1, c2)
  {
    SpawnAlwaysCollides(Cascade(Locked(s.grid, s.cur), 1).grid, c1, c2);
  }

  /** A pair locked on the empty grid forms no group of four or more: its
      two cells are the only puyos. */
  lemma LockOnEmptyClearsNothing(p: PuyoPair)
    requires InGrid(p.pivot) && InGrid(SubCell(p))
    ensures Cleared(Locked(EmptyGrid(), p)) == {}
  {
    var L := Locked(EmptyGrid(), p);
    var T := {p.pivot, SubCell(p)};
    forall v | InGrid(v) && Cell(L, v) != Empty
      ensures |Group(L, v)| <= 2
    {
      var S := Group(L, v);
      forall b | b in S
        ensures b in T
      {
        if b != p.pivot && b != SubCell(p) {
          EmptyGridCells(b);
        }
      }
      SubsetCard(S, T);
    }
  }

  /** The automatic fall keeps the game invariant: the pair moves down
      only into cells of the empty grid, and a lock ends the game. */
  lemma FallKeepsInGame(t: GameState, fallFires: bool, c1: Color, c2: Color)
    requires InGame(t) && (t.alive ==> LockInBounds(t.cur))
    ensures InGame(Fall(t, fallFires, c1, c2))
  {
    if t.alive && fallFires {
      FitsEmpty(Shifted(t.cur, 0, 1));
      if !Fits(t.grid, Shifted(t.cur, 0, 1)) && t.cur.pivot.y >= 0 && SubCell(t.cur).y >= 0 {
        LockEndsGame(t, fallFires, c1, c2);
      }
    }
  }

  /** The automatic fall keeps the score and the chain counter during a
      game: the only lock happens on the empty grid and clears nothing. */
  lemma FallKeepsScore(t: GameState, fallFires: bool, c1: Color, c2: Color)
    requires InGame(t) && (t.alive ==> LockInBounds(t.cur))
    ensures Fall(t, fallFires, c1, c2).score == t.score
    ensures Fall(t, fallFires, c1, c2).chain == t.chain
  {
    if t.alive && fallFires && !Fits(t.grid, Shifted(t.cur, 0, 1)) &&
       t.cur.pivot.y >= 0 && SubCell(t.cur).y >= 0 {
      LockOnEmptyClearsNothing(t.cur);
      CascadeStop(Locked(EmptyGrid(), t.cur), 1);
    }
  }

  /** A frame keeps the game invariant. */
  lemma FrameKeepsInGame(s: GameState, i: Input, r1: Color, r2: Color, s1: Color, s2: Color)
    requires InGame(s)
    ensures InGame(Frame(s, i, r1, r2, s1, s2))
  {
    var t := Controlled(s, i, r1, r2);
    FallKeepsInGame(t, i.fallFires, s1, s2);
  }

  /** The score and the chain counter never change during a game; only the
      restart key sets them, to 0. */
  lemma FrameScore(s: GameState, i: Input, r1: Color, r2: Color, s1: Color, s2: Color)
    requires InGame(s)
    ensures Frame(s, i, r1, r2, s1, s2).score == if i.reset then 0 else s.score
    ensures Frame(s, i, r1, r2, s1, s2).chain == if i.reset then 0 else s.chain
  {
    var t := Controlled(s, i, r1, r2);
    assert Frame(s, i, r1, r2, s1, s2) == Fall(t, i.fallFires, s1, s2);
    FallKeepsScore(t, i.fallFires, s1, s2);
  }

  /** The game: the board, the falling pair and whether the game is on. */
  class Game {
    const board: Board
    var cur: PuyoPair
    var alive: bool

    predicate Valid() {
      board.Valid()
    }

    /** While the game is on nothing has been locked yet, because the first
        lock always ends it, and the pair is in play. */
    ghost predicate Playing()
      reads this, board, board.g
    {
      Valid() && InGame(Snap())
    }

    /** The state of the game as a value. */
    ghost function Snap(): GameState
      requires Valid()
      reads this, board, board.g
    {
      GameState(board.g[..], board.score, board.chain, cur, alive)
    }

    /** A new game with a fresh pair of the two given colours. */
    constructor (c1: Color, c2: Color)
      ensures Valid() && Playing() && fresh(board) && fresh(board.g)
      ensures board.g[..] == EmptyGrid() && board.score == 0 && board.chain == 0
      ensures cur == SpawnPair(c1, c2) && alive
    {
      board := new Board();
      cur := SpawnPair(c1, c2);
      alive := true;
      new;
      SpawnInPlay(c1, c2);
    }

    /** The restart: clears the board, score and chain, spawns a fresh pair
        of the two given colours and puts the game back on. */
    method Reset(c1: Color, c2: Color)
      requires Valid()
      modifies this, board, board.g
      ensures board.g[..] == EmptyGrid() && board.score == 0 && board.chain == 0
      ensures cur == SpawnPair(c1, c2) && alive && Playing()
    {
      board.Clear();
      cur := SpawnPair(c1, c2);
      alive := true;
      board.chain := 0;
      board.score := 0;
      SpawnInPlay(c1, c2);
    }

    /** The input part of a frame; only the falling pair changes, and only
        while the game is on. */
    method HandleInput(i: Input)
      requires Valid()
      modifies this
      ensures alive == old(alive)
      ensures cur == if alive then InputStep(board.g[..], old(cur), i) else old(cur)
    {
      if alive {
        if i.moveReady {
          if i.left {
            Move(-1, 0);
          } else if i.right {
            Move(1, 0);
          }
        }
        if i.down {
          Move(0, 1);
        }
        if i.rotate {
          Rotate();
        }
      }
    }

    /** A move by (dx, dy), taken only when the moved pair does not
        collide. */
    method Move(dx: int, dy: int)
      requires Valid()
      modifies this
      ensures alive == old(alive)
      ensures cur == TryMove(board.g[..], old(cur), dx, dy)
    {
      if CanMove(board, cur, dx, dy) {
        cur := Shifted(cur, dx, dy);
      }
    }

    /** The rotation block of the input: the clockwise turn with its wall
        kick, and when that fails the counter-clockwise turn with its
        wall kick. */
    method Rotate()
      requires Valid()
      modifies this
      ensures alive == old(alive)
      ensures cur == RotateStep(board.g[..], old(cur))
    {
      var t := WithSub(cur, RotateCW(cur.sub));
      if board.Collision(t) {
        var ok;
        ok, t := WallKick(board, t);
        if !ok {
          t := WithSub(cur, RotateCCW(cur.sub));
          if board.Collision(t) {
            ok, t := WallKick(board, t);
          }
        }
      }
      cur := t;
    }

    /** The cascade loop after a lock: removal passes with chain index 1,
        2, ..., gravity after each productive one, until a pass removes
        nothing; returns the chain index of that last pass. */
    method RunCascade() returns (chainIndex: int)
      requires Valid()
      modifies board, board.g
      ensures board.g[..] == Cascade(old(board.g[..]), 1).grid
      ensures board.score == old(board.score) + Cascade(old(board.g[..]), 1).points
      ensures chainIndex == 1 + Cascade(old(board.g[..]), 1).passes
      ensures board.chain == old(board.chain)
      ensures Cleared(board.g[..]) == {} && board.score >= old(board.score)
    {
      ghost var G0: Grid := board.g[..];
      ghost var R := Cascade(G0, 1);
      CascadeSettles(G0, 1);
      CascadePoints(G0, 1);
      chainIndex := 1;
      while true
        invariant chainIndex >= 1 && board.chain == old(board.chain)
        invariant CascadeRemains(board.g[..], board.score, chainIndex, R, old(board.score))
        decreases Occupied(board.g[..])
      {
        var removed := CascadePass(chainIndex, R, old(board.score));
        if removed <= 0 {
          break;
        }
        chainIndex := chainIndex + 1;
      }
    }

    /** One pass of the cascade loop: the removal pass with chain index
        chainIndex and, when it removed something, gravity. */
    method CascadePass(chainIndex: int, ghost R: Resolution, ghost score0: int) returns (removed: int)
      requires Valid() && CascadeRemains(board.g[..], board.score, chainIndex, R, score0)
      modifies board, board.g
      ensures board.chain == old(board.chain)
      ensures removed <= 0 ==> Cleared(board.g[..]) == {} && Cascade(board.g[..], chainIndex) == Resolution(board.g[..], 0, 0)
      ensures removed <= 0 ==> board.g[..] == old(board.g[..]) && board.score == old(board.score)
      ensures removed > 0 ==> Occupied(board.g[..]) < Occupied(old(board.g[..]))
      ensures removed > 0 ==> CascadeRemains(board.g[..], board.score, chainIndex + 1, R, score0)
    {
      ghost var G: Grid := board.g[..];
      ghost var score := board.score;
      removed := board.PopGroupsAndScore(chainIndex);
      if removed <= 0 {
        CascadeStop(G, chainIndex);
        return;
      }
      board.ApplyGravity();
      CascadeRemainsStep(G, board.g[..], score, board.score, chainIndex, R, score0);
    }

    /** The automatic fall of a frame: when the fall timer fires, the pair
        drops one row if it can; otherwise the game ends if the pair sticks
        out above the top row, and else the pair is locked, the cascade
        runs and a fresh pair of the colours c1, c2 is spawned, which ends
        the game when it collides. */
    method AutoFall(fallFires: bool, c1: Color, c2: Color)
      requires Valid() && (alive ==> LockInBounds(cur))
      modifies this, board, board.g
      ensures Snap() == Fall(old(Snap()), fallFires, c1, c2)
    {
      if alive && fallFires {
        if CanMove(board, cur, 0, 1) {
          cur := Shifted(cur, 0, 1);
        } else {
          var subY := cur.pivot.y + cur.sub.y;
          if cur.pivot.y < 0 || subY < 0 {
            alive := false;
          } else {
            LockAndSpawn(c1, c2);
          }
        }
      }
    }

    /** The lock branch of the automatic fall: the pair is written into the
        grid, the cascade runs, and the fresh pair of the colours c1, c2 is
        spawned, which ends the game when it collides. */
    method LockAndSpawn(c1: Color, c2: Color)
      requires Valid() && alive && LockInBounds(cur) && !Fits(board.g[..], Shifted(cur, 0, 1))
      requires cur.pivot.y >= 0 && SubCell(cur).y >= 0
      modifies this, board, board.g
      ensures Snap() == Fall(old(Snap()), true, c1, c2)
    {
      board.Lock(cur);
      var _ := RunCascade();
      cur := SpawnPair(c1, c2);
      if board.Collision(cur) {
        alive := false;
      }
    }

    /** One frame of the main loop: the restart key (with the colours r1,
        r2 of its fresh pair), the input, then the automatic fall (with the
        colours s1, s2 of the pair spawned after a lock). */
    method Step(i: Input, r1: Color, r2: Color, s1: Color, s2: Color)
      requires Valid() && Playing()
      modifies this, board, board.g
      ensures Snap() == Frame(old(Snap()), i, r1, r2, s1, s2)
      ensures Playing()
    {
      if i.reset {
        Reset(r1, r2);
      }
      if alive {
        InputKeepsInPlay(cur, i);
      }
      HandleInput(i);
      if alive {
        InPlayLockInBounds(cur);
        FitsEmpty(Shifted(cur, 0, 1));
      }
      AutoFall(i.fallFires, s1, s2);
    }
  }
}
