/** Gravity as a function of the grid: every column, read from the bottom
    row upward, keeps its non-empty colours in order and has all its empty
    cells above them. Also the number of occupied cells, which gravity
    preserves and which bounds the cascade. This is the specification that
    Board.ApplyGravity is proved against. */
module Gravity {
  import opened Puyo

  /** Column x read from the bottom row upward. */
  function Column(G: Grid, x: int): (col: seq<Color>)
    requires 0 <= x < COLS
    ensures |col| == ROWS
    ensures forall i :: 0 <= i < ROWS ==> col[i] == Cell(G, Vec2(x, ROWS - 1 - i))
  {
    seq(ROWS, i requires 0 <= i < ROWS => Cell(G, Vec2(x, ROWS - 1 - i)))
  }

  /** The non-empty colours of s, in order. */
  function NonEmpties(s: seq<Color>): (r: seq<Color>)
    ensures |r| <= |s|
    ensures forall i :: 0 <= i < |r| ==> r[i] != Empty
  {
    if s == [] then []
    else NonEmpties(s[..|s| - 1]) + (if s[|s| - 1] == Empty then [] else [s[|s| - 1]])
  }

  function Empties(n: nat): (r: seq<Color>)
    ensures |r| == n && forall i :: 0 <= i < n ==> r[i] == Empty
  {
    seq(n, _ => Empty)
  }

  /** s with its non-empty colours first, in their order, then the empties. */
  function Compact(s: seq<Color>): (r: seq<Color>)
    ensures |r| == |s|
  {
    NonEmpties(s) + Empties(|s| - |NonEmpties(s)|)
  }

  /** Read from the bottom up, nothing is stacked on an empty cell. */
  predicate Settled(s: seq<Color>) {
    forall i, j :: 0 <= i < j < |s| && s[i] == Empty ==> s[j] == Empty
  }

  /** The grid after gravity: column by column, the compacted column. */
  function AfterGravity(G: Grid): (r: Grid)
    ensures forall v {:trigger Cell(r, v)} :: InGrid(v) ==> Cell(r, v) == Compact(Column(G, v.x))[ROWS - 1 - v.y]
  {
    var r := seq(ROWS * COLS, i requires 0 <= i < ROWS * COLS => Compact(Column(G, i % COLS))[ROWS - 1 - i / COLS]);
    forall v | InGrid(v) ensures r[Idx(v)] == Compact(Column(G, v.x))[ROWS - 1 - v.y] {
      PosOfIdx(v);
    }
    r
  }

  lemma {:induction false} NonEmptiesAppend(a: seq<Color>, b: seq<Color>)
    ensures NonEmpties(a + b) == NonEmpties(a) + NonEmpties(b)
  {
    if b == [] {
      assert a + b == a;
    } else {
      var b' := b[..|b| - 1];
      assert (a + b)[..|a + b| - 1] == a + b';
      NonEmptiesAppend(a, b');
    }
  }

  lemma {:induction false} NonEmptiesOfFull(s: seq<Color>)
    requires forall i :: 0 <= i < |s| ==> s[i] != Empty
    ensures NonEmpties(s) == s
  {
    if s != [] {
      NonEmptiesOfFull(s[..|s| - 1]);
    }
  }

  lemma {:induction false} NonEmptiesOfEmpties(n: nat)
    ensures NonEmpties(Empties(n)) == []
  {
    if n > 0 {
      assert Empties(n)[..n - 1] == Empties(n - 1);
      NonEmptiesOfEmpties(n - 1);
    }
  }

  /** Compacting keeps the non-empty colours and their order. */
  lemma CompactKeepsOrder(s: seq<Color>)
    ensures NonEmpties(Compact(s)) == NonEmpties(s)
  {
    var ne := NonEmpties(s);
    NonEmptiesAppend(ne, Empties(|s| - |ne|));
    NonEmptiesOfFull(ne);
    NonEmptiesOfEmpties(|s| - |ne|);
  }

  /** A compacted column is settled. */
  lemma CompactSettled(s: seq<Color>)
    ensures Settled(Compact(s))
  {
  }

  /** A settled column is its own compaction. */
  lemma SettledCompact(s: seq<Color>)
    requires Settled(s)
    ensures Compact(s) == s
  {
    var k := 0;
    while k < |s| && s[k] != Empty
      invariant 0 <= k <= |s|
      invariant forall i :: 0 <= i < k ==> s[i] != Empty
    {
      k := k + 1;
    }
    assert s == s[..k] + s[k..];
    assert s[k..] == Empties(|s| - k);
    NonEmptiesAppend(s[..k], s[k..]);
    NonEmptiesOfFull(s[..k]);
    NonEmptiesOfEmpties(|s| - k);
  }

  /** Compact(s) is the only settled sequence of the same length with the
      same non-empty colours in the same order. */
  lemma CompactUnique(s: seq<Color>, t: seq<Color>)
    requires |t| == |s| && Settled(t) && NonEmpties(t) == NonEmpties(s)
    ensures t == Compact(s)
  {
    SettledCompact(t);
  }

  lemma CompactIdempotent(s: seq<Color>)
    ensures Compact(Compact(s)) == Compact(s)
  {
    CompactSettled(s);
    SettledCompact(Compact(s));
  }

  lemma GravityColumn(G: Grid, x: int)
    requires 0 <= x < COLS
    ensures Column(AfterGravity(G), x) == Compact(Column(G, x))
  {
  }

  /** A grid is determined by its columns. */
  lemma ColumnsDetermineGrid(A: Grid, B: Grid)
    requires forall x :: 0 <= x < COLS ==> Column(A, x) == Column(B, x)
    ensures A == B
  {
    forall i | 0 <= i < ROWS * COLS ensures A[i] == B[i] {
      var v := PosOf(i);
      assert Column(A, v.x)[ROWS - 1 - v.y] == Column(B, v.x)[ROWS - 1 - v.y];
    }
  }

  /** After gravity every column holds, from the bottom, the same non-empty
      colours as before, and no empty cell lies below a non-empty one. */
  lemma GravityColumns(G: Grid, x: int)
    requires 0 <= x < COLS
    ensures NonEmpties(Column(AfterGravity(G), x)) == NonEmpties(Column(G, x))
    ensures Settled(Column(AfterGravity(G), x))
  {
    GravityColumn(G, x);
    CompactKeepsOrder(Column(G, x));
  }

  /** A grid whose columns are all settled is unchanged by gravity. */
  lemma GravityOfSettled(G: Grid)
    requires forall x :: 0 <= x < COLS ==> Settled(Column(G, x))
    ensures AfterGravity(G) == G
  {
    forall x | 0 <= x < COLS ensures Column(AfterGravity(G), x) == Column(G, x) {
      GravityColumn(G, x);
      SettledCompact(Column(G, x));
    }
    ColumnsDetermineGrid(AfterGravity(G), G);
  }

  /** Applying gravity twice is the same as applying it once. */
  lemma GravityIdempotent(G: Grid)
    ensures AfterGravity(AfterGravity(G)) == AfterGravity(G)
  {
    forall x | 0 <= x < COLS ensures Settled(Column(AfterGravity(G), x)) {
      GravityColumns(G, x);
    }
    GravityOfSettled(AfterGravity(G));
  }

  /** Column x processed up to (bottom-up) position j by the write-cursor
      loop: the non-empties of the first j cells, then empties, then the
      cells not yet visited. */
  function PartlyCompacted(C: seq<Color>, j: int): (r: seq<Color>)
    requires 0 <= j <= |C|
    ensures |r| == |C| && forall i :: j <= i < |C| ==> r[i] == C[i]
  {
    var ne := NonEmpties(C[..j]);
    ne + Empties(j - |ne|) + C[j..]
  }

  lemma PartlyCompactedStart(C: seq<Color>)
    ensures PartlyCompacted(C, 0) == C
  {
    assert C[..0] == [];
  }

  lemma PartlyCompactedEnd(C: seq<Color>, j: int)
    requires j == |C|
    ensures PartlyCompacted(C, j) == Compact(C)
  {
    assert C[..|C|] == C;
  }

  /** Moving a non-empty cell at position j down to the write cursor. */
  lemma PartlyCompactedMove(C: seq<Color>, j: int, k: int)
    requires 0 <= j < |C| && k == j + 1 && C[j] != Empty
    ensures |NonEmpties(C[..k])| == |NonEmpties(C[..j])| + 1
    ensures PartlyCompacted(C, j)[j := Empty][|NonEmpties(C[..j])| := C[j]] == PartlyCompacted(C, k)
  {
    assert C[..j + 1][..j] == C[..j];
    var ne := NonEmpties(C[..j]);
    assert NonEmpties(C[..j + 1]) == ne + [C[j]];
    var a := PartlyCompacted(C, j)[j := Empty][|ne| := C[j]];
    var b := PartlyCompacted(C, j + 1);
    forall i | 0 <= i < |C| ensures a[i] == b[i] {
      if i < |ne| {
      } else if i == |ne| {
      } else if i <= j {
      } else {
      }
    }
  }

  /** Passing over an empty cell at position j. */
  lemma PartlyCompactedSkip(C: seq<Color>, j: int, k: int)
    requires 0 <= j < |C| && k == j + 1 && C[j] == Empty
    ensures |NonEmpties(C[..k])| == |NonEmpties(C[..j])|
    ensures PartlyCompacted(C, j) == PartlyCompacted(C, k)
  {
    assert C[..j + 1][..j] == C[..j];
    var ne := NonEmpties(C[..j]);
    assert NonEmpties(C[..j + 1]) == ne;
    var a := PartlyCompacted(C, j);
    var b := PartlyCompacted(C, j + 1);
    forall i | 0 <= i < |C| ensures a[i] == b[i] {
      if i < |ne| {
      } else if i <= j {
      } else {
      }
    }
  }

  /** G with column x (read bottom-up) replaced by col. */
  function WithColumn(G: Grid, x: int, col: seq<Color>): (r: Grid)
    requires 0 <= x < COLS && |col| == ROWS
    ensures forall v {:trigger Cell(r, v)} :: InGrid(v) ==> Cell(r, v) == if v.x == x then col[ROWS - 1 - v.y] else Cell(G, v)
  {
    var r := seq(ROWS * COLS, i requires 0 <= i < ROWS * COLS => if i % COLS == x then col[ROWS - 1 - i / COLS] else G[i]);
    forall v | InGrid(v) ensures r[Idx(v)] == if v.x == x then col[ROWS - 1 - v.y] else Cell(G, v) {
      PosOfIdx(v);
    }
    r
  }

  lemma WithOwnColumn(G: Grid, x: int)
    requires 0 <= x < COLS
    ensures WithColumn(G, x, Column(G, x)) == G
  {
    var r := WithColumn(G, x, Column(G, x));
    forall i | 0 <= i < ROWS * COLS ensures r[i] == G[i] {
      var v := PosOf(i);
      assert Cell(r, v) == Cell(G, v);
    }
  }

  /** Writing one cell of column x is writing that entry of the column. */
  lemma WithColumnUpdate(G: Grid, x: int, col: seq<Color>, row: int, e: Color)
    requires 0 <= x < COLS && |col| == ROWS && 0 <= row < ROWS
    ensures WithColumn(G, x, col)[Idx(Vec2(x, row)) := e] == WithColumn(G, x, col[ROWS - 1 - row := e])
  {
    var a := WithColumn(G, x, col)[Idx(Vec2(x, row)) := e];
    var b := WithColumn(G, x, col[ROWS - 1 - row := e]);
    forall i | 0 <= i < ROWS * COLS ensures a[i] == b[i] {
      var v := PosOf(i);
      assert Cell(b, v) == b[i];
      if v != Vec2(x, row) {
        IdxInjective(v, Vec2(x, row));
        assert Cell(WithColumn(G, x, col), v) == a[i];
      }
    }
  }

  /** The cell (x, y) of a grid whose column x is partly compacted up to
      position j == ROWS - 1 - y still holds the column's original entry. */
  lemma PartlyCompactedCell(G: Grid, x: int, C: seq<Color>, j: int, y: int)
    requires 0 <= x < COLS && |C| == ROWS && 0 <= y < ROWS && j == ROWS - 1 - y
    ensures WithColumn(G, x, PartlyCompacted(C, j))[Idx(Vec2(x, y))] == C[j]
  {
    assert Cell(WithColumn(G, x, PartlyCompacted(C, j)), Vec2(x, y)) == C[j];
  }

  /** The write-cursor loop meets a non-empty cell at row y: it empties that
      cell and writes its colour at the cursor row, which is at or below y. */
  lemma SettleMove(G: Grid, x: int, C: seq<Color>, j: int, y: int, write: int)
    requires 0 <= x < COLS && |C| == ROWS && 0 <= y < ROWS && j == ROWS - 1 - y
    requires C[j] != Empty && write == ROWS - 1 - |NonEmpties(C[..j])|
    ensures y <= write < ROWS && write - 1 == ROWS - 1 - |NonEmpties(C[..j + 1])|
    ensures WithColumn(G, x, PartlyCompacted(C, j))[Idx(Vec2(x, y)) := Empty][Idx(Vec2(x, write)) := C[j]]
         == WithColumn(G, x, PartlyCompacted(C, j + 1))
  {
    assert |NonEmpties(C[..j])| <= j by {
      assert |C[..j]| == j;
    }
    var P := PartlyCompacted(C, j);
    PartlyCompactedMove(C, j, j + 1);
    WithColumnUpdate(G, x, P, y, Empty);
    WithColumnUpdate(G, x, P[j := Empty], write, C[j]);
  }

  /** The write-cursor loop passes over an empty cell. */
  lemma SettleSkip(G: Grid, x: int, C: seq<Color>, j: int, write: int)
    requires 0 <= x < COLS && |C| == ROWS && 0 <= j < ROWS
    requires C[j] == Empty && write == ROWS - 1 - |NonEmpties(C[..j])|
    ensures write == ROWS - 1 - |NonEmpties(C[..j + 1])|
    ensures WithColumn(G, x, PartlyCompacted(C, j)) == WithColumn(G, x, PartlyCompacted(C, j + 1))
  {
    PartlyCompactedSkip(C, j, j + 1);
  }

  /** The grid with its first k columns compacted. */
  function PartialGravity(G: Grid, k: int): (r: Grid)
    requires 0 <= k <= COLS
    ensures forall v {:trigger Cell(r, v)} :: InGrid(v) ==> Cell(r, v) == if v.x < k then Compact(Column(G, v.x))[ROWS - 1 - v.y] else Cell(G, v)
  {
    var r := seq(ROWS * COLS, i requires 0 <= i < ROWS * COLS => if i % COLS < k then Compact(Column(G, i % COLS))[ROWS - 1 - i / COLS] else G[i]);
    forall v | InGrid(v) ensures r[Idx(v)] == if v.x < k then Compact(Column(G, v.x))[ROWS - 1 - v.y] else Cell(G, v) {
      PosOfIdx(v);
    }
    r
  }

  lemma PartialGravityStep(G: Grid, k: int)
    requires 0 <= k < COLS
    ensures Column(PartialGravity(G, k), k) == Column(G, k)
    ensures WithColumn(PartialGravity(G, k), k, Compact(Column(G, k))) == PartialGravity(G, k + 1)
  {
    var P := PartialGravity(G, k);
    var a := WithColumn(P, k, Compact(Column(G, k)));
    var b := PartialGravity(G, k + 1);
    forall i | 0 <= i < ROWS ensures Column(P, k)[i] == Column(G, k)[i] {
      assert Cell(P, Vec2(k, ROWS - 1 - i)) == Cell(G, Vec2(k, ROWS - 1 - i));
    }
    forall i | 0 <= i < ROWS * COLS ensures a[i] == b[i] {
      var v := PosOf(i);
      assert Cell(a, v) == Cell(b, v);
    }
  }

  lemma PartialGravityEnds(G: Grid)
    ensures PartialGravity(G, 0) == G && PartialGravity(G, COLS) == AfterGravity(G)
  {
    forall i | 0 <= i < ROWS * COLS ensures PartialGravity(G, 0)[i] == G[i] && PartialGravity(G, COLS)[i] == AfterGravity(G)[i] {
      var v := PosOf(i);
      assert Cell(PartialGravity(G, 0), v) == Cell(G, v);
      assert Cell(PartialGravity(G, COLS), v) == Cell(AfterGravity(G), v);
    }
  }

  /** Number of occupied cells in the first k columns. */
  function OccupiedIn(G: Grid, k: int): nat
    requires 0 <= k <= COLS
  {
    if k == 0 then 0 else OccupiedIn(G, k - 1) + |NonEmpties(Column(G, k - 1))|
  }

  /** Number of occupied cells of the grid. */
  function Occupied(G: Grid): nat {
    OccupiedIn(G, COLS)
  }

  lemma {:induction false} OccupiedInBound(G: Grid, k: int)
    requires 0 <= k <= COLS
    ensures OccupiedIn(G, k) <= k * ROWS
  {
    if k > 0 {
      OccupiedInBound(G, k - 1);
    }
  }

  lemma OccupiedBound(G: Grid)
    ensures Occupied(G) <= ROWS * COLS
  {
    OccupiedInBound(G, COLS);
  }

  /** Grids whose first k columns hold equally many puyos, column by
      column, have equally many in those columns. */
  lemma {:induction false} OccupiedInSameCounts(A: Grid, B: Grid, k: int)
    requires 0 <= k <= COLS
    requires forall x :: 0 <= x < k ==> |NonEmpties(Column(A, x))| == |NonEmpties(Column(B, x))|
    ensures OccupiedIn(A, k) == OccupiedIn(B, k)
  {
    if k > 0 {
      OccupiedInSameCounts(A, B, k - 1);
    }
  }

  lemma GravityColumnCount(G: Grid, x: int)
    requires 0 <= x < COLS
    ensures |NonEmpties(Column(AfterGravity(G), x))| == |NonEmpties(Column(G, x))|
  {
    GravityColumns(G, x);
  }

  /** Gravity neither creates nor destroys puyos. */
  lemma OccupiedGravity(G: Grid)
    ensures Occupied(AfterGravity(G)) == Occupied(G)
  {
    forall x | 0 <= x < COLS
      ensures |NonEmpties(Column(AfterGravity(G), x))| == |NonEmpties(Column(G, x))|
    {
      GravityColumnCount(G, x);
    }
    OccupiedInSameCounts(AfterGravity(G), G, COLS);
  }

  /** t is s with some cells emptied. */
  predicate EmptiedFrom(s: seq<Color>, t: seq<Color>) {
    |s| == |t| && forall i :: 0 <= i < |s| && t[i] != Empty ==> s[i] != Empty
  }

  lemma {:induction false} NonEmptiesEmptied(s: seq<Color>, t: seq<Color>)
    requires EmptiedFrom(s, t)
    ensures |NonEmpties(t)| <= |NonEmpties(s)|
    ensures (exists i :: 0 <= i < |s| && s[i] != Empty && t[i] == Empty) ==> |NonEmpties(t)| < |NonEmpties(s)|
  {
    if s != [] {
      var n := |s| - 1;
      NonEmptiesEmptied(s[..n], t[..n]);
      if exists i :: 0 <= i < |s| && s[i] != Empty && t[i] == Empty {
        var i :| 0 <= i < |s| && s[i] != Empty && t[i] == Empty;
        if i < n {
          assert s[..n][i] != Empty && t[..n][i] == Empty;
        }
      }
    }
  }

  /** H is G with some cells emptied. */
  ghost predicate GridEmptiedFrom(G: Grid, H: Grid) {
    forall v {:trigger Cell(H, v)} :: InGrid(v) && Cell(H, v) != Empty ==> Cell(G, v) != Empty
  }

  lemma {:induction false} OccupiedInEmptied(G: Grid, H: Grid, k: int, w: Vec2)
    requires 0 <= k <= COLS && GridEmptiedFrom(G, H)
    requires InGrid(w) && Cell(G, w) != Empty && Cell(H, w) == Empty
    ensures OccupiedIn(H, k) <= OccupiedIn(G, k)
    ensures w.x < k ==> OccupiedIn(H, k) < OccupiedIn(G, k)
  {
    if k > 0 {
      OccupiedInEmptied(G, H, k - 1, w);
      ColumnEmptied(G, H, k - 1, w);
    }
  }

  /** Emptying cells of a column lowers its count of puyos, strictly when
      an occupied cell of that column was emptied. */
  lemma ColumnEmptied(G: Grid, H: Grid, x: int, w: Vec2)
    requires 0 <= x < COLS && GridEmptiedFrom(G, H)
    requires InGrid(w) && Cell(G, w) != Empty && Cell(H, w) == Empty
    ensures |NonEmpties(Column(H, x))| <= |NonEmpties(Column(G, x))|
    ensures w.x == x ==> |NonEmpties(Column(H, x))| < |NonEmpties(Column(G, x))|
  {
    var cg, ch := Column(G, x), Column(H, x);
    assert EmptiedFrom(cg, ch) by {
      forall i | 0 <= i < ROWS && ch[i] != Empty ensures cg[i] != Empty {
        assert Cell(H, Vec2(x, ROWS - 1 - i)) != Empty;
      }
    }
    if w.x == x {
      assert cg[ROWS - 1 - w.y] != Empty && ch[ROWS - 1 - w.y] == Empty;
    }
    NonEmptiesEmptied(cg, ch);
  }

  /** Emptying at least one occupied cell lowers the number of occupied cells. */
  lemma OccupiedEmptied(G: Grid, H: Grid, w: Vec2)
    requires GridEmptiedFrom(G, H)
    requires InGrid(w) && Cell(G, w) != Empty && Cell(H, w) == Empty
    ensures Occupied(H) < Occupied(G)
  {
    OccupiedInEmptied(G, H, COLS, w);
  }
}
