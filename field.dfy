/** The board: the grid of cells, the score and the chain counter, with the
    queries and the in-place updates of the C++ `Board` struct. The grid is
    one row-major array of ROWS * COLS cells, the layout of the source's
    `array<array<Color, COLS>, ROWS>`. */
module Field {
  import opened Puyo
  import opened Groups
  import opened Gravity
  import opened Scan

  /** Points for one removal pass: 40 per chain step plus 10 per cleared
      cell, and nothing when the pass cleared nothing. */
  function PassPoints(chainIndex: int, removed: int): int {
    if removed > 0 then 40 * chainIndex + 10 * removed else 0
  }

  /** The pair fits on grid G: both its cells are in bounds and empty. */
  predicate Fits(G: Grid, p: PuyoPair) {
    InGrid(p.pivot) && Cell(G, p.pivot) == Empty && InGrid(SubCell(p)) && Cell(G, SubCell(p)) == Empty
  }

  /** G with the pair's colours written into its two cells, the sub cell
      last. */
  function Locked(G: Grid, p: PuyoPair): (r: Grid)
    requires InGrid(p.pivot) && InGrid(SubCell(p))
    ensures Cell(r, SubCell(p)) == p.c2
    ensures p.pivot != SubCell(p) ==> Cell(r, p.pivot) == p.c1
    ensures forall v {:trigger Cell(r, v)} :: InGrid(v) && v != p.pivot && v != SubCell(p) ==> Cell(r, v) == Cell(G, v)
  {
    forall v | InGrid(v) && v != p.pivot && v != SubCell(p) ensures Idx(v) != Idx(p.pivot) && Idx(v) != Idx(SubCell(p)) {
      IdxInjective(v, p.pivot);
      IdxInjective(v, SubCell(p));
    }
    assert p.pivot != SubCell(p) ==> Idx(p.pivot) != Idx(SubCell(p)) by {
      if p.pivot != SubCell(p) {
        IdxInjective(p.pivot, SubCell(p));
      }
    }
    G[Idx(p.pivot) := p.c1][Idx(SubCell(p)) := p.c2]
  }

  class Board {
    const g: array<Color>
    var score: int
    var chain: int

    predicate Valid() {
      g.Length == ROWS * COLS
    }

    constructor ()
      ensures Valid() && fresh(g)
      ensures g[..] == EmptyGrid() && score == 0 && chain == 0
    {
      g := new Color[ROWS * COLS];
      score, chain := 0, 0;
      new;
      Clear();
    }

    /** Empties every cell and resets score and chain. */
    method Clear()
      requires Valid()
      modifies this, g
      ensures g[..] == EmptyGrid() && score == 0 && chain == 0
    {
      for y := 0 to ROWS
        invariant forall i :: 0 <= i < y * COLS ==> g[i] == Empty
      {
        for x := 0 to COLS
          invariant forall i :: 0 <= i < y * COLS + x ==> g[i] == Empty
        {
          g[Idx(Vec2(x, y))] := Empty;
        }
      }
      score := 0;
      chain := 0;
    }

    /** An empty cell is always in bounds; an in-bounds cell is empty when
        its row-major slot holds Empty. */
    function IsEmpty(x: int, y: int): (r: bool)
      requires Valid()
      reads g
      ensures r ==> InBounds(x, y)
      ensures InBounds(x, y) ==> (r <==> g[y * COLS + x] == Empty)
    {
      InBounds(x, y) && g[Idx(Vec2(x, y))] == Empty
    }

    /** A pair collides unless both its cells are in bounds and empty. */
    function Collision(p: PuyoPair): (r: bool)
      requires Valid()
      reads g
      ensures !r <==> IsEmpty(p.pivot.x, p.pivot.y) && IsEmpty(SubCell(p).x, SubCell(p).y)
      ensures r <==> !Fits(g[..], p)
    {
      if !InGrid(p.pivot) || g[Idx(p.pivot)] != Empty then true
      else
        var s := SubCell(p);
        !InGrid(s) || g[Idx(s)] != Empty
    }

    /** Writes the pair's colours into the grid, the sub cell last. */
    method Lock(p: PuyoPair)
      requires Valid() && InGrid(p.pivot) && InGrid(SubCell(p))
      modifies g
      ensures g[..] == Locked(old(g[..]), p)
    {
      g[Idx(p.pivot)] := p.c1;
      g[Idx(SubCell(p))] := p.c2;
    }

    /** Compacts every column downward, with a write cursor that walks from
        the bottom row upward. */
    method ApplyGravity()
      requires Valid()
      modifies g
      ensures g[..] == AfterGravity(old(g[..]))
    {
      ghost var G0: Grid := g[..];
      PartialGravityEnds(G0);
      for x := 0 to COLS
        invariant g[..] == PartialGravity(G0, x)
      {
        PartialGravityStep(G0, x);
        CompactColumn(x);
      }
    }

    /** The inner loop of ApplyGravity for column x. */
    method CompactColumn(x: int)
      requires Valid() && 0 <= x < COLS
      modifies g
      ensures g[..] == WithColumn(old(g[..]), x, Compact(Column(old(g[..]), x)))
    {
      ghost var G1: Grid := g[..];
      ghost var C := Column(G1, x);
      var write := ROWS - 1;
      var y := ROWS - 1;
      ghost var j := 0;
      PartlyCompactedStart(C);
      WithOwnColumn(G1, x);
      while y >= 0
        invariant -1 <= y < ROWS && j == ROWS - 1 - y
        invariant write == ROWS - 1 - |NonEmpties(C[..j])|
        invariant g[..] == WithColumn(G1, x, PartlyCompacted(C, j))
      {
        write := SettleCell(x, y, write, G1, C, j);
        y := y - 1;
        j := j + 1;
      }
      PartlyCompactedEnd(C, j);
    }

    /** One step of the column loop: the cell (x, y), when non-empty, moves
        down to the write cursor, which then moves up one row. */
    method SettleCell(x: int, y: int, write: int, ghost G1: Grid, ghost C: seq<Color>, ghost j: int)
      returns (write': int)
      requires Valid() && 0 <= x < COLS && 0 <= y < ROWS
      requires C == Column(G1, x) && j == ROWS - 1 - y
      requires write == ROWS - 1 - |NonEmpties(C[..j])|
      requires g[..] == WithColumn(G1, x, PartlyCompacted(C, j))
      modifies g
      ensures write' == ROWS - 1 - |NonEmpties(C[..j + 1])|
      ensures g[..] == WithColumn(G1, x, PartlyCompacted(C, j + 1))
    {
      var here := Idx(Vec2(x, y));
      PartlyCompactedCell(G1, x, C, j, y);
      if g[here] != Empty {
        var c := g[here];
        SettleMove(G1, x, C, j, y, write);
        var dst := Idx(Vec2(x, write));
        ghost var before := g[..];
        g[here] := Empty;
        g[dst] := c;
        assert g[..] == before[here := Empty][dst := c];
        write' := write - 1;
      } else {
        SettleSkip(G1, x, C, j, write);
        write' := write;
      }
    }

    /** Breadth-first search from s over same-colour neighbours that are not
        yet visited; marks what it finds in vis and returns it. */
    method FloodFill(vis: array<bool>, s: Vec2, ghost G0: Grid, ghost visited: set<Vec2>)
      returns (group: seq<Vec2>, ghost seen: set<Vec2>)
      requires Valid() && Mirrors(vis[..], visited) && Closed(G0, visited)
      requires InGrid(s) && s !in visited && Cell(G0, s) != Empty
      requires forall v {:trigger g[Idx(v)]} :: InGrid(v) && v !in visited ==> g[Idx(v)] == Cell(G0, v)
      modifies vis
      ensures Mirrors(vis[..], seen)
      ensures seen == visited + Group(G0, s) && visited !! Group(G0, s)
      ensures |group| == |Group(G0, s)| && Elems(group) == Group(G0, s)
    {
      var c := g[Idx(s)];
      MirrorsMark(vis[..], visited, s);
      vis[Idx(s)] := true;
      group := [];
      var queue := [s];
      seen := visited + {s};
      ReachableRefl(G0, s);
      assert Elems(group + queue) == {s};
      while queue != []
        invariant Mirrors(vis[..], seen)
        invariant Search(G0, s, visited, seen, group, queue)
        invariant ClosedPart(G0, c, group, seen)
        decreases |AllCells() - seen| + |queue|
      {
        var cur := queue[0];
        SearchPop(G0, s, visited, seen, group, queue);
        ghost var settled := group;
        queue := queue[1..];
        group := group + [cur];
        queue, seen := Expand(vis, cur, c, queue, G0, s, visited, seen, group);
        ClosedPartExtend(G0, c, settled, cur, seen);
      }
      SearchDone(G0, s, visited, seen, group);
    }

    /** The neighbour loop of the flood fill: appends to the queue, and
        marks, every unmarked in-bounds neighbour of cur that has colour c. */
    method Expand(vis: array<bool>, cur: Vec2, c: Color, queue: seq<Vec2>,
                  ghost G0: Grid, ghost s: Vec2, ghost visited: set<Vec2>, ghost seen: set<Vec2>, ghost group: seq<Vec2>)
      returns (queue': seq<Vec2>, ghost seen': set<Vec2>)
      requires Valid() && InGrid(s) && c == Cell(G0, s) && cur in group
      requires Mirrors(vis[..], seen) && Search(G0, s, visited, seen, group, queue)
      requires forall v {:trigger g[Idx(v)]} :: InGrid(v) && v !in visited ==> g[Idx(v)] == Cell(G0, v)
      modifies vis
      ensures Mirrors(vis[..], seen') && Search(G0, s, visited, seen', group, queue')
      ensures seen <= seen' && NeighboursSeen(G0, c, cur, 4, seen')
      ensures |AllCells() - seen'| + |queue'| == |AllCells() - seen| + |queue|
    {
      queue', seen' := queue, seen;
      for k := 0 to 4
        invariant Mirrors(vis[..], seen') && Search(G0, s, visited, seen', group, queue')
        invariant seen <= seen' && NeighboursSeen(G0, c, cur, k, seen')
        invariant |AllCells() - seen'| + |queue'| == |AllCells() - seen| + |queue|
      {
        ghost var seen0 := seen';
        queue', seen' := VisitNeighbour(vis, cur, k, c, queue', G0, s, visited, seen', group);
        NeighboursSeenStep(G0, c, cur, k, seen0, seen');
      }
    }

    /** One step of the neighbour loop: neighbour k of cur is marked and
        queued when it is in bounds, unmarked and of colour c. */
    method VisitNeighbour(vis: array<bool>, cur: Vec2, k: int, c: Color, queue: seq<Vec2>,
                          ghost G0: Grid, ghost s: Vec2, ghost visited: set<Vec2>, ghost seen: set<Vec2>, ghost group: seq<Vec2>)
      returns (queue': seq<Vec2>, ghost seen': set<Vec2>)
      requires Valid() && InGrid(s) && c == Cell(G0, s) && cur in group && 0 <= k < 4
      requires Mirrors(vis[..], seen) && Search(G0, s, visited, seen, group, queue)
      requires forall v {:trigger g[Idx(v)]} :: InGrid(v) && v !in visited ==> g[Idx(v)] == Cell(G0, v)
      modifies vis
      ensures Mirrors(vis[..], seen') && Search(G0, s, visited, seen', group, queue')
      ensures seen <= seen'
      ensures InGrid(Neighbour(cur, k)) && Cell(G0, Neighbour(cur, k)) == c ==> Neighbour(cur, k) in seen'
      ensures |AllCells() - seen'| + |queue'| == |AllCells() - seen| + |queue|
    {
      queue', seen' := queue, seen;
      var n := Neighbour(cur, k);
      if InBounds(n.x, n.y) && !vis[Idx(n)] && g[Idx(n)] == c {
        MirrorsMark(vis[..], seen, n);
        vis[Idx(n)] := true;
        SearchPush(G0, s, visited, seen, group, queue, cur, n);
        CardRemove(AllCells(), seen, n);
        queue' := queue + [n];
        seen' := seen + {n};
      } else if InBounds(n.x, n.y) && !vis[Idx(n)] {
        assert n !in visited;
      }
    }

    /** Empties the given cells. */
    method ClearCells(group: seq<Vec2>)
      requires Valid() && forall e :: e in group ==> InGrid(e)
      modifies g
      ensures g[..] == Emptied(old(g[..]), Elems(group))
    {
      for i := 0 to |group|
        invariant forall v :: InGrid(v) ==> g[Idx(v)] == if v in group[..i] then Empty else old(g[Idx(v)])
      {
        forall v | InGrid(v) && v != group[i] ensures Idx(v) != Idx(group[i]) {
          IdxInjective(v, group[i]);
        }
        assert group[..i + 1] == group[..i] + [group[i]];
        g[Idx(group[i])] := Empty;
      }
      assert group[..|group|] == group;
      forall i | 0 <= i < ROWS * COLS ensures g[i] == Emptied(old(g[..]), Elems(group))[i] {
        assert Idx(PosOf(i)) == i;
      }
    }

    /** The body of the scan for cell (x, y): when the cell is non-empty
        and not yet visited, flood-fills its group and empties it when it
        has at least four cells; returns the number of cells emptied. */
    method VisitCell(vis: array<bool>, x: int, y: int, ghost G0: Grid, ghost visited: set<Vec2>, ghost removed: int)
      returns (n: int, ghost visited': set<Vec2>)
      requires Valid() && 0 <= x < COLS && 0 <= y < ROWS
      requires ScanInv(G0, g[..], vis[..], visited, removed) && Scanned(G0, visited, y, x)
      modifies g, vis
      ensures ScanInv(G0, g[..], vis[..], visited', removed + n)
      ensures Scanned(G0, visited', y, x + 1) && (x + 1 == COLS ==> Scanned(G0, visited', y + 1, 0))
    {
      var s := Vec2(x, y);
      assert Cell(g[..], s) == g[Idx(s)] && vis[..][Idx(s)] == vis[Idx(s)];
      if g[Idx(s)] == Empty || vis[Idx(s)] {
        assert Cell(G0, s) != Empty ==> s in visited;
        ScannedStep(G0, visited, visited, y, x);
        return 0, visited;
      }
      ghost var vis0 := vis[..];
      ghost var G1 := g[..];
      forall v | InGrid(v) && v !in visited ensures g[Idx(v)] == Cell(G0, v) {
        assert Cell(G1, v) == g[Idx(v)];
      }
      var group;
      group, visited' := FloodFill(vis, s, G0, visited);
      assert g[..] == G1;
      assert forall e :: e in group ==> e in Elems(group);
      if |group| >= 4 {
        ClearCells(group);
        n := |group|;
      } else {
        n := 0;
      }
      ScanAdd(G0, G1, g[..], vis0, vis[..], visited, s, removed, n);
      ScannedStep(G0, visited, visited', y, x);
    }

    /** The scan of row y, left to right. */
    method ScanRow(vis: array<bool>, y: int, ghost G0: Grid, ghost visited: set<Vec2>, removed: int)
      returns (removed': int, ghost visited': set<Vec2>)
      requires Valid() && 0 <= y < ROWS
      requires ScanInv(G0, g[..], vis[..], visited, removed) && Scanned(G0, visited, y, 0)
      modifies g, vis
      ensures ScanInv(G0, g[..], vis[..], visited', removed') && Scanned(G0, visited', y + 1, 0)
    {
      removed', visited' := removed, visited;
      for x := 0 to COLS
        invariant ScanInv(G0, g[..], vis[..], visited', removed')
        invariant Scanned(G0, visited', y, x)
        invariant x == COLS ==> Scanned(G0, visited', y + 1, 0)
      {
        var n;
        n, visited' := VisitCell(vis, x, y, G0, visited', removed');
        removed' := removed' + n;
      }
    }

    /** The row-major scan of the whole grid with a fresh visited matrix;
        it performs one removal pass and counts the cells it empties. */
    method ScanGrid(vis: array<bool>) returns (removed: int)
      requires Valid() && vis[..] == seq(ROWS * COLS, _ => false)
      modifies g, vis
      ensures g[..] == AfterPop(old(g[..])) && removed == |Cleared(old(g[..]))|
    {
      ghost var G0: Grid := g[..];
      ghost var visited: set<Vec2> := {};
      removed := 0;
      for y := 0 to ROWS
        invariant ScanInv(G0, g[..], vis[..], visited, removed)
        invariant Scanned(G0, visited, y, 0)
      {
        removed, visited := ScanRow(vis, y, G0, visited, removed);
      }
      ScanDone(G0, g[..], vis[..], visited, removed);
    }

    /** One removal pass: scans the grid in row-major order, flood-fills each
        unvisited non-empty cell's group, empties the groups of at least four
        cells, and adds 40 * chainIndex + 10 * removed to the score when it
        removed anything. */
    method PopGroupsAndScore(chainIndex: int) returns (removedTotal: int)
      requires Valid()
      modifies this, g
      ensures g[..] == AfterPop(old(g[..]))
      ensures removedTotal == |Cleared(old(g[..]))|
      ensures score == old(score) + PassPoints(chainIndex, removedTotal)
      ensures removedTotal <= 0 ==> g[..] == old(g[..]) && score == old(score)
      ensures chain == old(chain)
    {
      var vis := new bool[ROWS * COLS](_ => false);
      ghost var G0: Grid := g[..];
      removedTotal := ScanGrid(vis);
      if removedTotal <= 0 {
        NothingClearedUnchanged(G0);
      }
      if removedTotal > 0 {
        score := score + 40 * chainIndex + removedTotal * 10;
      }
    }
  }
}
