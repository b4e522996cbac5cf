/** Maximal 4-connected same-colour groups of a grid, and the grid after one
    removal pass has cleared every group of at least POP_SIZE cells. This is
    the specification that the flood fill of Board.PopGroupsAndScore is
    proved against. */
module Groups {
  import opened Puyo

  /** Smallest group that a removal pass clears. */
  const POP_SIZE: int := 4

  /** p is a walk through 4-adjacent cells of the grid, each of colour c. */
  ghost predicate IsPath(G: Grid, c: Color, p: seq<Vec2>) {
    (forall i :: 0 <= i < |p| ==> InGrid(p[i]) && Cell(G, p[i]) == c) &&
    (forall i :: 0 <= i < |p| - 1 ==> Adjacent(p[i], p[i + 1]))
  }

  /** b can be reached from a without leaving a's colour. */
  ghost predicate Reachable(G: Grid, a: Vec2, b: Vec2)
    requires InGrid(a)
  {
    exists p :: IsPath(G, Cell(G, a), p) && |p| > 0 && p[0] == a && p[|p| - 1] == b
  }

  /** The maximal 4-connected same-colour group that contains a. */
  ghost function Group(G: Grid, a: Vec2): (S: set<Vec2>)
    requires InGrid(a)
    ensures a in S
    ensures forall b {:trigger b in S} :: b in S ==> InGrid(b) && Cell(G, b) == Cell(G, a)
  {
    ReachableRefl(G, a);
    ReachableColour(G, a);
    set b | b in AllCells() && Reachable(G, a, b)
  }

  /** Every same-colour neighbour of a cell of S is in S. */
  ghost predicate Closed(G: Grid, S: set<Vec2>) {
    forall e, n {:trigger Adjacent(e, n), e in S} :: e in S && InGrid(e) && InGrid(n) && Adjacent(e, n) && Cell(G, n) == Cell(G, e) ==> n in S
  }

  /** The cells one removal pass clears: the non-empty cells whose group has
      at least POP_SIZE cells. */
  ghost function Cleared(G: Grid): (S: set<Vec2>)
    ensures forall v {:trigger v in S} :: v in S <==> InGrid(v) && Cell(G, v) != Empty && |Group(G, v)| >= POP_SIZE
  {
    set v | v in AllCells() && Cell(G, v) != Empty && |Group(G, v)| >= POP_SIZE
  }

  /** The grid after one removal pass. */
  ghost function AfterPop(G: Grid): (r: Grid)
    ensures forall v {:trigger Cell(r, v)} :: InGrid(v) && Cell(G, v) != Empty && |Group(G, v)| >= POP_SIZE ==> Cell(r, v) == Empty
    ensures forall v {:trigger Cell(r, v)} :: InGrid(v) && (Cell(G, v) == Empty || |Group(G, v)| < POP_SIZE) ==> Cell(r, v) == Cell(G, v)
  {
    var r := seq(ROWS * COLS, i requires 0 <= i < ROWS * COLS => if PosOf(i) in Cleared(G) then Empty else G[i]);
    forall v | InGrid(v) ensures r[Idx(v)] == if v in Cleared(G) then Empty else Cell(G, v) {
      PosOfIdx(v);
    }
    r
  }

  lemma ReachableRefl(G: Grid, a: Vec2)
    requires InGrid(a)
    ensures Reachable(G, a, a)
  {
    assert IsPath(G, Cell(G, a), [a]);
  }

  lemma ReachableColour(G: Grid, a: Vec2)
    requires InGrid(a)
    ensures forall b {:trigger Reachable(G, a, b)} :: Reachable(G, a, b) ==> InGrid(b) && Cell(G, b) == Cell(G, a)
  {
    forall b | Reachable(G, a, b) ensures InGrid(b) && Cell(G, b) == Cell(G, a) {
      var p :| IsPath(G, Cell(G, a), p) && |p| > 0 && p[0] == a && p[|p| - 1] == b;
      assert p[|p| - 1] == b;
    }
  }

  /** A reachable cell extends by one same-colour neighbour. */
  lemma ReachableStep(G: Grid, a: Vec2, b: Vec2, n: Vec2)
    requires InGrid(a) && Reachable(G, a, b)
    requires InGrid(n) && Adjacent(b, n) && Cell(G, n) == Cell(G, a)
    ensures Reachable(G, a, n)
  {
    var p :| IsPath(G, Cell(G, a), p) && |p| > 0 && p[0] == a && p[|p| - 1] == b;
    var q := p + [n];
    assert q[|q| - 1] == n;
    assert IsPath(G, Cell(G, a), q);
  }

  function Reverse(p: seq<Vec2>): (r: seq<Vec2>)
    ensures |r| == |p| && forall i :: 0 <= i < |p| ==> r[i] == p[|p| - 1 - i]
  {
    seq(|p|, i requires 0 <= i < |p| => p[|p| - 1 - i])
  }

  lemma ReachableSymmetric(G: Grid, a: Vec2, b: Vec2)
    requires InGrid(a) && Reachable(G, a, b)
    ensures InGrid(b) && Reachable(G, b, a)
  {
    ReachableColour(G, a);
    var p :| IsPath(G, Cell(G, a), p) && |p| > 0 && p[0] == a && p[|p| - 1] == b;
    var q := Reverse(p);
    forall i | 0 <= i < |q| - 1 ensures Adjacent(q[i], q[i + 1]) {
      assert Adjacent(p[|p| - 2 - i], p[|p| - 1 - i]);
      AdjacentSymmetric(p[|p| - 2 - i], p[|p| - 1 - i]);
    }
    assert IsPath(G, Cell(G, b), q);
  }

  lemma ReachableTrans(G: Grid, a: Vec2, b: Vec2, c: Vec2)
    requires InGrid(a) && InGrid(b) && Reachable(G, a, b) && Reachable(G, b, c)
    ensures Reachable(G, a, c)
  {
    ReachableColour(G, a);
    var p :| IsPath(G, Cell(G, a), p) && |p| > 0 && p[0] == a && p[|p| - 1] == b;
    var q :| IsPath(G, Cell(G, b), q) && |q| > 0 && q[0] == b && q[|q| - 1] == c;
    var r := p + q[1..];
    assert r[|r| - 1] == c;
    forall i | 0 <= i < |r| - 1 ensures Adjacent(r[i], r[i + 1]) {
      if i < |p| - 1 {
        assert r[i] == p[i] && r[i + 1] == p[i + 1];
      } else {
        assert r[i] == q[i - |p| + 1] && r[i + 1] == q[i - |p| + 2];
      }
    }
    assert IsPath(G, Cell(G, a), r);
  }

  /** Every member of a group has that same group: groups partition the
      non-empty cells. */
  lemma {:induction false} GroupOfMember(G: Grid, a: Vec2, b: Vec2)
    requires InGrid(a) && b in Group(G, a)
    ensures InGrid(b) && Group(G, b) == Group(G, a)
  {
    assert Reachable(G, a, b);
    ReachableSymmetric(G, a, b);
    forall c | c in Group(G, b) ensures c in Group(G, a) {
      ReachableTrans(G, a, b, c);
    }
    forall c | c in Group(G, a) ensures c in Group(G, b) {
      ReachableTrans(G, b, a, c);
    }
  }

  /** A group is maximal: no same-colour neighbour of it lies outside it. */
  lemma GroupClosed(G: Grid, a: Vec2)
    requires InGrid(a)
    ensures Closed(G, Group(G, a))
  {
    forall e, n | e in Group(G, a) && InGrid(e) && InGrid(n) && Adjacent(e, n) && Cell(G, n) == Cell(G, e)
      ensures n in Group(G, a)
    {
      ReachableStep(G, a, e, n);
    }
  }

  /** A closed set that contains a contains a's whole group, so the group is
      the least closed set around a. */
  lemma {:induction false} ClosedContainsGroup(G: Grid, S: set<Vec2>, a: Vec2)
    requires InGrid(a) && a in S && Closed(G, S)
    ensures Group(G, a) <= S
  {
    forall b | b in Group(G, a) ensures b in S {
      var p :| IsPath(G, Cell(G, a), p) && |p| > 0 && p[0] == a && p[|p| - 1] == b;
      var i := 0;
      while i < |p| - 1
        invariant 0 <= i < |p| && p[i] in S
      {
        assert Adjacent(p[i], p[i + 1]);
        i := i + 1;
      }
    }
  }

  /** A removal pass clears whole groups: a cleared cell's group is cleared. */
  lemma ClearedWholeGroups(G: Grid, v: Vec2, w: Vec2)
    requires v in Cleared(G) && w in Group(G, v)
    ensures w in Cleared(G)
  {
    GroupOfMember(G, v, w);
  }

  /** Emptying cells only splits groups: a group that survives a removal
      pass is part of the group it had before. */
  lemma SurvivorGroupShrinks(G: Grid, v: Vec2)
    requires InGrid(v) && Cell(AfterPop(G), v) != Empty
    ensures Cell(G, v) == Cell(AfterPop(G), v) && v !in Cleared(G)
    ensures Group(AfterPop(G), v) <= Group(G, v)
  {
    var P := AfterPop(G);
    var c := Cell(P, v);
    forall b | b in Group(P, v) ensures b in Group(G, v) {
      var p :| IsPath(P, c, p) && |p| > 0 && p[0] == v && p[|p| - 1] == b;
      assert IsPath(G, c, p);
      assert Reachable(G, v, b);
    }
  }

  /** After a removal pass a second pass (without gravity in between) finds
      nothing to clear. */
  lemma AfterPopStable(G: Grid)
    ensures Cleared(AfterPop(G)) == {}
  {
    var P := AfterPop(G);
    forall v | InGrid(v) && Cell(P, v) != Empty ensures |Group(P, v)| < POP_SIZE {
      SurvivorGroupShrinks(G, v);
      SubsetCard(Group(P, v), Group(G, v));
    }
  }

  lemma SubsetCard<T>(A: set<T>, B: set<T>)
    requires A <= B
    ensures |A| <= |B|
  {
    assert B == A + (B - A);
  }

  /** A pass that finds nothing leaves the grid as it is. */
  lemma NothingClearedUnchanged(G: Grid)
    requires Cleared(G) == {}
    ensures AfterPop(G) == G
  {
    var P := AfterPop(G);
    forall i | 0 <= i < ROWS * COLS ensures P[i] == G[i] {
      var v := PosOf(i);
      assert v !in Cleared(G);
    }
  }
}
