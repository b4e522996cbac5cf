/** The ghost vocabulary of the removal pass: the visited matrix as a set,
    the state of the breadth-first search and of the row-major scan, and the
    lemmas that carry each step of Board.FloodFill and
    Board.PopGroupsAndScore. */
module Scan {
  import opened Puyo
  import opened Groups

  /** The elements of a sequence of cells. */
  ghost function Elems(s: seq<Vec2>): set<Vec2> {
    set e | e in s
  }

  ghost predicate Distinct(s: seq<Vec2>) {
    forall i, j :: 0 <= i < j < |s| ==> s[i] != s[j]
  }

  lemma {:induction false} DistinctCard(s: seq<Vec2>)
    requires Distinct(s)
    ensures |Elems(s)| == |s|
  {
    if s != [] {
      var t := s[..|s| - 1];
      assert Distinct(t);
      DistinctCard(t);
      assert Elems(s) == Elems(t) + {s[|s| - 1]};
      assert s[|s| - 1] !in Elems(t) by {
        forall i | 0 <= i < |t| ensures t[i] != s[|s| - 1] {
          assert s[i] != s[|s| - 1];
        }
      }
    }
  }

  /** vis, the flood fill's visited matrix, marks exactly the cells of S. */
  ghost predicate Mirrors(vis: seq<bool>, S: set<Vec2>) {
    |vis| == ROWS * COLS &&
    (forall v {:trigger v in S} :: v in S ==> InGrid(v)) &&
    (forall v {:trigger vis[Idx(v)]} {:trigger v in S} :: InGrid(v) ==> (vis[Idx(v)] <==> v in S))
  }

  lemma ClosedUnion(G: Grid, A: set<Vec2>, B: set<Vec2>)
    requires Closed(G, A) && Closed(G, B)
    ensures Closed(G, A + B)
  {
  }

  /** What one removal pass has established after visiting the cells of S:
      S is a union of whole non-empty groups of the initial grid G0, the
      cleared cells of S are empty in G and all other cells are as in G0,
      and removed counts the cleared cells of S. */
  ghost predicate ScanInv(G0: Grid, G: Grid, vis: seq<bool>, S: set<Vec2>, removed: int) {
    Mirrors(vis, S) &&
    Closed(G0, S) &&
    (forall v {:trigger v in S} :: v in S ==> Cell(G0, v) != Empty) &&
    (forall v {:trigger Cell(G, v)} :: InGrid(v) ==> Cell(G, v) == if v in S && v in Cleared(G0) then Empty else Cell(G0, v)) &&
    removed == |S * Cleared(G0)|
  }

  lemma MirrorsMark(vis: seq<bool>, S: set<Vec2>, n: Vec2)
    requires Mirrors(vis, S) && InGrid(n)
    ensures Mirrors(vis[Idx(n) := true], S + {n})
  {
    forall v | InGrid(v) && v != n ensures Idx(v) != Idx(n) {
      IdxInjective(v, n);
    }
  }

  lemma CardRemove(A: set<Vec2>, S: set<Vec2>, n: Vec2)
    requires n in A && n !in S
    ensures |A - (S + {n})| + 1 == |A - S|
  {
    assert A - (S + {n}) == (A - S) - {n};
  }

  /** State of the breadth-first search from s: group holds the cells taken
      off the queue, queue the cells still to expand; together they are
      distinct, reachable from s and not visited by earlier searches, and
      seen is everything marked so far. */
  ghost predicate Search(G0: Grid, s: Vec2, visited: set<Vec2>, seen: set<Vec2>, group: seq<Vec2>, queue: seq<Vec2>)
    requires InGrid(s)
  {
    Distinct(group + queue) &&
    Elems(group + queue) !! visited &&
    seen == visited + Elems(group + queue) &&
    s in group + queue &&
    (forall e {:trigger e in group + queue} :: e in group + queue ==> InGrid(e) && Reachable(G0, s, e))
  }

  /** Every same-colour neighbour of an expanded cell has been marked. */
  ghost predicate ClosedPart(G0: Grid, c: Color, group: seq<Vec2>, seen: set<Vec2>) {
    forall e, n {:trigger Adjacent(e, n), e in group} :: e in group && InGrid(n) && Adjacent(e, n) && Cell(G0, n) == c ==> n in seen
  }

  lemma SearchPop(G0: Grid, s: Vec2, visited: set<Vec2>, seen: set<Vec2>, group: seq<Vec2>, queue: seq<Vec2>)
    requires InGrid(s) && Search(G0, s, visited, seen, group, queue) && queue != []
    ensures Search(G0, s, visited, seen, group + [queue[0]], queue[1..])
  {
    assert group + queue == (group + [queue[0]]) + queue[1..];
  }

  lemma SearchPush(G0: Grid, s: Vec2, visited: set<Vec2>, seen: set<Vec2>, group: seq<Vec2>, queue: seq<Vec2>, cur: Vec2, n: Vec2)
    requires InGrid(s) && Search(G0, s, visited, seen, group, queue)
    requires cur in group && InGrid(n) && n !in seen && Adjacent(cur, n) && Cell(G0, n) == Cell(G0, s)
    ensures Search(G0, s, visited, seen + {n}, group, queue + [n])
  {
    assert group + (queue + [n]) == (group + queue) + [n];
    assert Elems((group + queue) + [n]) == Elems(group + queue) + {n};
    assert cur in group + queue;
    ReachableStep(G0, s, cur, n);
  }

  /** The first k neighbours of cur that have colour c are marked. */
  ghost predicate NeighboursSeen(G0: Grid, c: Color, cur: Vec2, k: int, seen: set<Vec2>) {
    forall j :: 0 <= j < k && 0 <= j < 4 && InGrid(Neighbour(cur, j)) && Cell(G0, Neighbour(cur, j)) == c ==> Neighbour(cur, j) in seen
  }

  lemma NeighboursSeenStep(G0: Grid, c: Color, cur: Vec2, k: int, seen: set<Vec2>, seen': set<Vec2>)
    requires 0 <= k < 4 && NeighboursSeen(G0, c, cur, k, seen) && seen <= seen'
    requires InGrid(Neighbour(cur, k)) && Cell(G0, Neighbour(cur, k)) == c ==> Neighbour(cur, k) in seen'
    ensures NeighboursSeen(G0, c, cur, k + 1, seen')
  {
  }

  lemma ClosedPartExtend(G0: Grid, c: Color, settled: seq<Vec2>, cur: Vec2, seen: set<Vec2>)
    requires ClosedPart(G0, c, settled, seen)
    requires NeighboursSeen(G0, c, cur, 4, seen)
    ensures ClosedPart(G0, c, settled + [cur], seen)
  {
  }

  /** When the queue runs dry, the expanded cells are exactly s's group. */
  lemma SearchDone(G0: Grid, s: Vec2, visited: set<Vec2>, seen: set<Vec2>, group: seq<Vec2>)
    requires InGrid(s) && Search(G0, s, visited, seen, group, []) && Closed(G0, visited)
    requires ClosedPart(G0, Cell(G0, s), group, seen)
    ensures seen == visited + Group(G0, s) && visited !! Group(G0, s)
    ensures |group| == |Group(G0, s)| && Elems(group) == Group(G0, s)
  {
    assert group + [] == group;
    ReachableColour(G0, s);
    assert Closed(G0, Elems(group)) by {
      forall e, n | e in Elems(group) && InGrid(e) && InGrid(n) && Adjacent(e, n) && Cell(G0, n) == Cell(G0, e)
        ensures n in Elems(group)
      {
        if n in visited {
          AdjacentSymmetric(e, n);
          assert false;
        }
      }
    }
    ClosedContainsGroup(G0, Elems(group), s);
    DistinctCard(group);
  }

  /** Every non-empty cell before (x, y) in row-major order was visited. */
  ghost predicate Scanned(G0: Grid, visited: set<Vec2>, y: int, x: int) {
    forall v {:trigger Cell(G0, v)} :: InGrid(v) && (v.y < y || (v.y == y && v.x < x)) && Cell(G0, v) != Empty ==> v in visited
  }

  lemma ScannedStep(G0: Grid, visited: set<Vec2>, visited': set<Vec2>, y: int, x: int)
    requires 0 <= x < COLS && 0 <= y < ROWS
    requires Scanned(G0, visited, y, x) && visited <= visited'
    requires Cell(G0, Vec2(x, y)) != Empty ==> Vec2(x, y) in visited'
    ensures Scanned(G0, visited', y, x + 1)
    ensures x + 1 == COLS ==> Scanned(G0, visited', y + 1, 0)
  {
  }

  /** Adding the group of seed s to the scanned cells, emptied when it has n
      cells with n >= POP_SIZE, and left alone (n == 0) otherwise. */
  lemma ScanAdd(G0: Grid, G: Grid, G': Grid, vis: seq<bool>, vis': seq<bool>, visited: set<Vec2>, s: Vec2, removed: int, n: int)
    requires InGrid(s) && Cell(G0, s) != Empty && visited !! Group(G0, s)
    requires ScanInv(G0, G, vis, visited, removed)
    requires Mirrors(vis', visited + Group(G0, s))
    requires n == if |Group(G0, s)| >= POP_SIZE then |Group(G0, s)| else 0
    requires G' == if n > 0 then Emptied(G, Group(G0, s)) else G
    ensures ScanInv(G0, G', vis', visited + Group(G0, s), removed + n)
  {
    var grp := Group(G0, s);
    GroupClosed(G0, s);
    ClosedUnion(G0, visited, grp);
    GroupAllOrNothing(G0, s);
    forall v | InGrid(v) ensures Cell(G', v) == if v in visited + grp && v in Cleared(G0) then Empty else Cell(G0, v) {
      if v in grp {
        assert v !in visited;
      }
    }
    CountAdded(visited, grp, Cleared(G0), n > 0);
  }

  /** G with the cells of S emptied. */
  ghost function Emptied(G: Grid, S: set<Vec2>): (r: Grid)
    ensures forall v {:trigger Cell(r, v)} :: InGrid(v) ==> Cell(r, v) == if v in S then Empty else Cell(G, v)
  {
    var r := seq(ROWS * COLS, i requires 0 <= i < ROWS * COLS => if PosOf(i) in S then Empty else G[i]);
    forall v | InGrid(v) ensures r[Idx(v)] == if v in S then Empty else Cell(G, v) {
      PosOfIdx(v);
    }
    r
  }

  /** A group is cleared as a whole or not at all. */
  lemma GroupAllOrNothing(G0: Grid, s: Vec2)
    requires InGrid(s)
    ensures forall e :: e in Group(G0, s) ==> (e in Cleared(G0) <==> Cell(G0, s) != Empty && |Group(G0, s)| >= POP_SIZE)
  {
    forall e | e in Group(G0, s) ensures (e in Cleared(G0) <==> Cell(G0, s) != Empty && |Group(G0, s)| >= POP_SIZE) {
      GroupOfMember(G0, s, e);
    }
  }

  lemma CountAdded(A: set<Vec2>, B: set<Vec2>, C: set<Vec2>, all: bool)
    requires A !! B && forall e :: e in B ==> (e in C <==> all)
    ensures |(A + B) * C| == |A * C| + if all then |B| else 0
  {
    if all {
      assert (A + B) * C == A * C + B;
      assert (A * C) !! B;
    } else {
      assert (A + B) * C == A * C;
    }
  }

  /** A scan that has visited every non-empty cell has performed the pass. */
  lemma ScanDone(G0: Grid, G: Grid, vis: seq<bool>, visited: set<Vec2>, removed: int)
    requires ScanInv(G0, G, vis, visited, removed) && Scanned(G0, visited, ROWS, 0)
    ensures G == AfterPop(G0) && removed == |Cleared(G0)|
  {
    assert Cleared(G0) <= visited;
    assert visited * Cleared(G0) == Cleared(G0);
    forall i | 0 <= i < ROWS * COLS ensures G[i] == AfterPop(G0)[i] {
      var v := PosOf(i);
      assert Cell(G, v) == Cell(AfterPop(G0), v);
    }
  }
}
