/** Procedural maze generation and the maze's point queries (game/maze.py). */
module Mazes {
  import opened Grid
  import opened MazeGrid

  /** The cell generation starts from: (size // 2, size // 2). */
  function Centre(n: int): Pos
  {
    Pos(n / 2, n / 2)
  }

  /** Connectivity witness: every path cell has a rank, ranked cells are
      walkable, and every ranked cell other than the centre has a parent that
      is one cardinal step away and has a smaller rank. Following parents
      therefore reaches the centre through walkable cells. */
  ghost predicate Rooted(g: Cells, n: int, rank: map<Pos, nat>, parent: map<Pos, Pos>)
    requires WellFormed(g, n)
  {
    && (forall p :: p in rank ==> InBounds(p, n) && g[p.y][p.x] > 0)
    && (forall y, x :: 0 <= y < n && 0 <= x < n && g[y][x] == PATH ==> Pos(x, y) in rank)
    && Centre(n) in rank
    && (forall p {:trigger p in parent} :: p in rank && p != Centre(n) ==>
          p in parent && parent[p] in rank && Adjacent(parent[p], p) && rank[parent[p]] < rank[p])
  }

  /** Every ranked cell (in particular every path cell) is joined to the centre
      by a walk of cardinal steps through walkable cells. */
  lemma {:induction false} WalkFromCentre(g: Cells, n: int, rank: map<Pos, nat>, parent: map<Pos, Pos>, p: Pos)
    returns (w: seq<Pos>)
    requires WellFormed(g, n) && Rooted(g, n, rank, parent)
    requires p in rank
    ensures |w| >= 1 && w[0] == Centre(n) && w[|w| - 1] == p
    ensures IsWalk(w)
    ensures forall i :: 0 <= i < |w| ==> InBounds(w[i], n) && g[w[i].y][w[i].x] > 0
    decreases rank[p]
  {
    if p == Centre(n) {
      w := [p];
    } else {
      assert p in parent;
      var w' := WalkFromCentre(g, n, rank, parent, parent[p]);
      w := w' + [p];
      assert forall i :: 0 <= i < |w'| ==> w[i] == w'[i];
    }
  }

  /** The rank map after p becomes a path cell entered from q. */
  ghost function AddRank(rank: map<Pos, nat>, p: Pos, q: Pos): map<Pos, nat>
    requires q in rank
  {
    if p in rank then rank else rank[p := rank[q] + 1]
  }

  ghost function AddParent(parent: map<Pos, Pos>, rank: map<Pos, nat>, p: Pos, q: Pos): map<Pos, Pos>
  {
    if p in rank then parent else parent[p := q]
  }

  /** Setting cell p to PATH changes that cell alone. */
  lemma SetPathCells(g: Cells, n: int, p: Pos)
    requires WellFormed(g, n) && Binary(g, n) && InBounds(p, n)
    ensures WellFormed(Set(g, p, PATH), n) && Binary(Set(g, p, PATH), n)
    ensures forall y, x :: 0 <= y < n && 0 <= x < n ==>
              Set(g, p, PATH)[y][x] == (if Pos(x, y) == p then PATH else g[y][x])
  {
  }

  /** A fresh path cell p entered from the ranked neighbour q gets rank
      rank[q] + 1 and parent q. */
  lemma SetPathFresh(g: Cells, n: int, rank: map<Pos, nat>, parent: map<Pos, Pos>, p: Pos, q: Pos)
    requires WellFormed(g, n) && Binary(g, n) && Rooted(g, n, rank, parent)
    requires InBounds(p, n) && q in rank && Adjacent(q, p) && p !in rank
    ensures Rooted(Set(g, p, PATH), n, rank[p := rank[q] + 1], parent[p := q])
  {
    var g' := Set(g, p, PATH);
    var rank', parent' := rank[p := rank[q] + 1], parent[p := q];
    SetPathCells(g, n, p);
    forall r | r in rank'
      ensures InBounds(r, n) && g'[r.y][r.x] > 0
    {
      if r != p {
        assert r in rank;
      }
    }
    forall y, x | 0 <= y < n && 0 <= x < n && g'[y][x] == PATH
      ensures Pos(x, y) in rank'
    {
      if Pos(x, y) != p {
        assert g[y][x] == PATH;
      }
    }
    FreshParents(n, rank, parent, p, q);
  }

  lemma FreshParents(n: int, rank: map<Pos, nat>, parent: map<Pos, Pos>, p: Pos, q: Pos)
    requires q in rank && Adjacent(q, p) && p !in rank
    requires forall r {:trigger r in parent} :: r in rank && r != Centre(n) ==>
               r in parent && parent[r] in rank && Adjacent(parent[r], r) && rank[parent[r]] < rank[r]
    ensures var rank', parent' := rank[p := rank[q] + 1], parent[p := q];
            forall r {:trigger r in parent'} :: r in rank' && r != Centre(n) ==>
              r in parent' && parent'[r] in rank' && Adjacent(parent'[r], r) && rank'[parent'[r]] < rank'[r]
  {
    var rank', parent' := rank[p := rank[q] + 1], parent[p := q];
    forall r | r in rank' && r != Centre(n)
      ensures r in parent' && parent'[r] in rank' && Adjacent(parent'[r], r) && rank'[parent'[r]] < rank'[r]
    {
      if r != p {
        assert r in parent;
      }
    }
  }

  /** Turning a cell into a path next to a ranked cell keeps the grid binary
      and rooted, and ranks exactly one more cell at most. */
  lemma SetPathRooted(g: Cells, n: int, rank: map<Pos, nat>, parent: map<Pos, Pos>, p: Pos, q: Pos)
    requires WellFormed(g, n) && Binary(g, n) && Rooted(g, n, rank, parent)
    requires InBounds(p, n) && q in rank && Adjacent(q, p)
    ensures WellFormed(Set(g, p, PATH), n) && Binary(Set(g, p, PATH), n)
    ensures Rooted(Set(g, p, PATH), n, AddRank(rank, p, q), AddParent(parent, rank, p, q))
    ensures AddRank(rank, p, q).Keys == rank.Keys + {p}
  {
    SetPathCells(g, n, p);
    if p in rank {
      assert g[p.y][p.x] == PATH;
      assert g[p.y][p.x := PATH] == g[p.y];
      assert Set(g, p, PATH) == g;
    } else {
      SetPathFresh(g, n, rank, parent, p, q);
    }
  }

  // ------------------------------------------------ recursive backtracking

  /** A carving candidate: the unvisited lattice cell two steps away and the
      wall cell between it and the current cell. */
  datatype Carve = Carve(next: Pos, wall: Pos)

  /** The lattice directions in the order Up, Right, Down, Left. */
  function LatticeDir(d: int): Pos
    requires 0 <= d < 4
  {
    [Pos(0, -2), Pos(2, 0), Pos(0, 2), Pos(-2, 0)][d]
  }

  function CarveAt(cur: Pos, d: int): Carve
    requires 0 <= d < 4
  {
    var s := LatticeDir(d);
    Carve(Pos(cur.x + s.x, cur.y + s.y), Pos(cur.x + s.x / 2, cur.y + s.y / 2))
  }

  /** The lattice neighbour in direction d is in bounds and still a wall. */
  predicate Unvisited(g: Cells, n: int, cur: Pos, d: int)
    requires WellFormed(g, n) && 0 <= d < 4
  {
    var c := CarveAt(cur, d);
    InBounds(c.next, n) && g[c.next.y][c.next.x] == WALL
  }

  /** No lattice neighbour of cur is unvisited: the walk backtracks. */
  predicate Stuck(g: Cells, n: int, cur: Pos)
    requires WellFormed(g, n)
  {
    && !Unvisited(g, n, cur, 0) && !Unvisited(g, n, cur, 1)
    && !Unvisited(g, n, cur, 2) && !Unvisited(g, n, cur, 3)
  }

  /** c is the carving candidate of some direction below d whose lattice
      neighbour is unvisited. */
  predicate CandidateBelow(g: Cells, n: int, cur: Pos, c: Carve, d: int)
    requires WellFormed(g, n) && 0 <= d <= 4
  {
    || (0 < d && c == CarveAt(cur, 0) && Unvisited(g, n, cur, 0))
    || (1 < d && c == CarveAt(cur, 1) && Unvisited(g, n, cur, 1))
    || (2 < d && c == CarveAt(cur, 2) && Unvisited(g, n, cur, 2))
    || (3 < d && c == CarveAt(cur, 3) && Unvisited(g, n, cur, 3))
  }

  /** The unvisited lattice neighbours of cur, exactly. */
  method UnvisitedNeighbours(g: Cells, n: int, cur: Pos) returns (u: seq<Carve>)
    requires WellFormed(g, n)
    ensures forall k :: 0 <= k < |u| ==> CandidateBelow(g, n, cur, u[k], 4)
    ensures forall d :: 0 <= d < 4 && Unvisited(g, n, cur, d) ==> CarveAt(cur, d) in u
  {
    u := [];
    for d := 0 to 4
      invariant forall k :: 0 <= k < |u| ==> CandidateBelow(g, n, cur, u[k], d)
      invariant forall e :: 0 <= e < d && Unvisited(g, n, cur, e) ==> CarveAt(cur, e) in u
    {
      var c := CarveAt(cur, d);
      if InBounds(c.next, n) && g[c.next.y][c.next.x] == WALL {
        u := u + [c];
      }
    }
  }

  /** A candidate's wall cell lies one step from the current cell and one
      step from the lattice neighbour, and both are in bounds. */
  lemma CarveGeometry(g: Cells, n: int, cur: Pos, cv: Carve)
    requires WellFormed(g, n) && InBounds(cur, n) && CandidateBelow(g, n, cur, cv, 4)
    ensures InBounds(cv.next, n) && g[cv.next.y][cv.next.x] == WALL
    ensures InBounds(cv.wall, n) && Adjacent(cur, cv.wall) && Adjacent(cv.wall, cv.next)
  {
    if cv == CarveAt(cur, 0) && Unvisited(g, n, cur, 0) {
      assert cv == Carve(Pos(cur.x, cur.y - 2), Pos(cur.x, cur.y - 1));
    } else if cv == CarveAt(cur, 1) && Unvisited(g, n, cur, 1) {
      assert cv == Carve(Pos(cur.x + 2, cur.y), Pos(cur.x + 1, cur.y));
    } else if cv == CarveAt(cur, 2) && Unvisited(g, n, cur, 2) {
      assert cv == Carve(Pos(cur.x, cur.y + 2), Pos(cur.x, cur.y + 1));
    } else {
      assert cv == Carve(Pos(cur.x - 2, cur.y), Pos(cur.x - 1, cur.y));
    }
  }

  /** One carving step: the wall cell between cur and the chosen lattice
      neighbour, then the neighbour itself, become paths. */
  method CarveTowards(g: Cells, n: int, ghost rank: map<Pos, nat>, ghost parent: map<Pos, Pos>, cur: Pos, cv: Carve)
    returns (g': Cells, ghost rank': map<Pos, nat>, ghost parent': map<Pos, Pos>)
    requires WellFormed(g, n) && Binary(g, n) && Rooted(g, n, rank, parent)
    requires cur in rank && CandidateBelow(g, n, cur, cv, 4)
    ensures WellFormed(g', n) && Binary(g', n) && Rooted(g', n, rank', parent')
    ensures cv.next !in rank && rank'.Keys == rank.Keys + {cv.wall, cv.next}
    ensures g' == Set(Set(g, cv.wall, PATH), cv.next, PATH)
  {
    CarveGeometry(g, n, cur, cv);
    var g1;
    ghost var rank1, parent1;
    g1, rank1, parent1 := SetPath(g, n, rank, parent, cv.wall, cur);
    g', rank', parent' := SetPath(g1, n, rank1, parent1, cv.next, cv.wall);
  }

  /** Cell p, one step from the ranked cell q, becomes a path. */
  method SetPath(g: Cells, n: int, ghost rank: map<Pos, nat>, ghost parent: map<Pos, Pos>, p: Pos, ghost q: Pos)
    returns (g': Cells, ghost rank': map<Pos, nat>, ghost parent': map<Pos, Pos>)
    requires WellFormed(g, n) && Binary(g, n) && Rooted(g, n, rank, parent)
    requires InBounds(p, n) && q in rank && Adjacent(q, p)
    ensures WellFormed(g', n) && Binary(g', n) && Rooted(g', n, rank', parent')
    ensures rank'.Keys == rank.Keys + {p}
    ensures g' == Set(g, p, PATH)
  {
    SetPathRooted(g, n, rank, parent, p, q);
    g', rank', parent' := Set(g, p, PATH), AddRank(rank, p, q), AddParent(parent, rank, p, q);
  }

  /** The all-wall grid with only the centre turned into a path. */
  method StartGrid(n: int) returns (g: Cells, ghost rank: map<Pos, nat>, ghost parent: map<Pos, Pos>)
    requires n >= 1
    ensures WellFormed(g, n) && Binary(g, n) && Rooted(g, n, rank, parent)
    ensures g == Set(AllWalls(n), Centre(n), PATH)
  {
    var c := Centre(n);
    g := Set(AllWalls(n), c, PATH);
    rank := map[c := 0];
    parent := map[];
    forall y, x | 0 <= y < n && 0 <= x < n && g[y][x] == PATH
      ensures Pos(x, y) == c
    {
    }
  }

  /** The state of the backtracking loop: a binary, rooted grid whose stacked
      cells are all ranked path cells. */
  ghost predicate CarveState(g: Cells, n: int, rank: map<Pos, nat>, parent: map<Pos, Pos>, stack: seq<Pos>)
  {
    && WellFormed(g, n) && Binary(g, n) && Rooted(g, n, rank, parent)
    && StackRanked(stack, rank.Keys)
  }

  /** Every stacked cell is ranked. */
  predicate StackRanked(stack: seq<Pos>, ranked: set<Pos>)
  {
    forall i :: 0 <= i < |stack| ==> stack[i] in ranked
  }

  /** Pushing a ranked cell onto a ranked stack, with the ranked set
      growing, keeps the stack ranked. */
  lemma StackPush(stack: seq<Pos>, ranked: set<Pos>, ranked': set<Pos>, p: Pos)
    requires StackRanked(stack, ranked) && ranked <= ranked' && p in ranked'
    ensures StackRanked(stack + [p], ranked')
  {
    forall i | 0 <= i < |stack| + 1
      ensures (stack + [p])[i] in ranked'
    {
      if i < |stack| {
        assert (stack + [p])[i] == stack[i];
      }
    }
  }

  /** One iteration of the backtracking loop: carve towards a random
      unvisited lattice neighbour of the stack top and push it, or pop. */
  method BacktrackStep(g: Cells, n: int, ghost rank: map<Pos, nat>, ghost parent: map<Pos, Pos>, stack: seq<Pos>)
    returns (g': Cells, ghost rank': map<Pos, nat>, ghost parent': map<Pos, Pos>, stack': seq<Pos>)
    requires stack != [] && CarveState(g, n, rank, parent, stack)
    ensures CarveState(g', n, rank', parent', stack')
    ensures rank'.Keys == rank.Keys ==> |stack'| < |stack|
    ensures rank'.Keys != rank.Keys ==> AllCells(n) - rank'.Keys < AllCells(n) - rank.Keys
    ensures || (Stuck(g, n, stack[|stack| - 1]) && g' == g && stack' == stack[..|stack| - 1])
            || exists cv :: && CandidateBelow(g, n, stack[|stack| - 1], cv, 4)
                            && InBounds(cv.wall, n) && InBounds(cv.next, n)
                            && g' == Set(Set(g, cv.wall, PATH), cv.next, PATH)
                            && stack' == stack + [cv.next]
  {
    var cur := stack[|stack| - 1];
    var u := UnvisitedNeighbours(g, n, cur);
    if u != [] {
      var k :| 0 <= k < |u|;
      var cv := u[k];
      g', rank', parent' := CarveTowards(g, n, rank, parent, cur, cv);
      stack' := stack + [cv.next];
      StackPush(stack, rank.Keys, rank'.Keys, cv.next);
      CarveGeometry(g, n, cur, cv);
      FewerOutside(n, rank.Keys, rank'.Keys, cv.next);
    } else {
      g', rank', parent', stack' := g, rank, parent, stack[..|stack| - 1];
      assert forall i :: 0 <= i < |stack'| ==> stack'[i] == stack[i];
    }
  }

  /** The first phase of generation: from an all-wall grid, carve passages by
      depth-first backtracking on the stride-2 lattice around the centre. The
      random choice among unvisited neighbours is a nondeterministic pick.
      The loop ends because each carving step turns a wall into a path (the
      set of remaining walls shrinks) and every other step pops the stack. */
  method CarvePassages(n: int) returns (g: Cells, ghost rank: map<Pos, nat>, ghost parent: map<Pos, Pos>)
    requires n >= 1
    ensures WellFormed(g, n) && Binary(g, n)
    ensures Rooted(g, n, rank, parent)
    ensures g[n / 2][n / 2] == PATH
  {
    g, rank, parent := StartGrid(n);
    var stack := [Centre(n)];
    while stack != []
      invariant CarveState(g, n, rank, parent, stack)
      decreases AllCells(n) - rank.Keys, |stack|
    {
      g, rank, parent, stack := BacktrackStep(g, n, rank, parent, stack);
    }
  }

  // ------------------------------------------------------------- backfill

  /** 1 if q is an in-bounds path cell, else 0. */
  function PathAt(g: Cells, n: int, q: Pos): int
    requires WellFormed(g, n)
  {
    if InBounds(q, n) && g[q.y][q.x] == PATH then 1 else 0
  }

  /** Number of path cells among the four neighbours of p (adjacent_paths). */
  function AdjacentPaths(g: Cells, n: int, p: Pos): int
    requires WellFormed(g, n)
  {
    PathAt(g, n, Pos(p.x, p.y + 1)) + PathAt(g, n, Pos(p.x + 1, p.y))
    + PathAt(g, n, Pos(p.x, p.y - 1)) + PathAt(g, n, Pos(p.x - 1, p.y))
  }

  /** A pick the backfill converts: an interior wall with a path neighbour. */
  predicate Convertible(g: Cells, n: int, p: Pos)
    requires WellFormed(g, n)
  {
    Interior(p, n) && g[p.y][p.x] == WALL && AdjacentPaths(g, n, p) > 0
  }

  lemma PathNeighbour(g: Cells, n: int, p: Pos) returns (q: Pos)
    requires WellFormed(g, n) && AdjacentPaths(g, n, p) > 0
    ensures InBounds(q, n) && g[q.y][q.x] == PATH && Adjacent(q, p)
  {
    if PathAt(g, n, Pos(p.x, p.y + 1)) == 1 {
      q := Pos(p.x, p.y + 1);
    } else if PathAt(g, n, Pos(p.x + 1, p.y)) == 1 {
      q := Pos(p.x + 1, p.y);
    } else if PathAt(g, n, Pos(p.x, p.y - 1)) == 1 {
      q := Pos(p.x, p.y - 1);
    } else {
      q := Pos(p.x - 1, p.y);
    }
  }

  /** Walking in a straight line inside the interior from a path cell to a
      wall cell, the first wall met is convertible. */
  lemma {:induction false} StraightWalk(g: Cells, n: int, a: Pos, b: Pos)
    requires WellFormed(g, n) && Binary(g, n)
    requires Interior(a, n) && Interior(b, n) && (a.x == b.x || a.y == b.y)
    requires g[a.y][a.x] == PATH && g[b.y][b.x] == WALL
    ensures exists p :: Convertible(g, n, p)
    decreases Manhattan(a, b)
  {
    var s := Pos(a.x + Sign(b.x - a.x), a.y + Sign(b.y - a.y));
    if g[s.y][s.x] == WALL {
      if a.x == b.x {
        assert a == Pos(s.x, s.y + 1) || a == Pos(s.x, s.y - 1);
      } else {
        assert a == Pos(s.x + 1, s.y) || a == Pos(s.x - 1, s.y);
      }
      assert Convertible(g, n, s);
    } else {
      StraightWalk(g, n, s, b);
    }
  }

  lemma FractionBound(n: int)
    requires n >= 10
    ensures (n - 2) * (n - 2) * 5 >= n * n * 3
  {
    assert (n - 2) * (n - 2) == n * n - 4 * n + 4;
    assert n * (n - 10) >= 0;
  }

  /** Below the walkable fraction there is always a convertible cell, so the
      backfill can always make progress. */
  lemma ExistsConvertible(g: Cells, n: int)
    requires MIN_MAZE_SIZE <= n && WellFormed(g, n) && Binary(g, n)
    requires g[n / 2][n / 2] == PATH
    requires Count(g, PATH) * 5 < n * n * 3
    ensures exists p :: Convertible(g, n, p)
  {
    if forall y, x :: 1 <= y <= n - 2 && 1 <= x <= n - 2 ==> g[y][x] == PATH {
      InteriorFullCount(g, n);
      FractionBound(n);
      assert false;
    }
    var y0, x0 :| 1 <= y0 <= n - 2 && 1 <= x0 <= n - 2 && g[y0][x0] != PATH;
    var c := n / 2;
    if g[c][x0] == WALL {
      StraightWalk(g, n, Pos(c, c), Pos(x0, c));
    } else {
      StraightWalk(g, n, Pos(x0, c), Pos(x0, y0));
    }
  }

  /** The backfill's random draw of an interior cell, restricted to the draws
      that convert a wall; draws that convert nothing change no state. */
  method PickConvertible(g: Cells, n: int) returns (p: Pos)
    requires MIN_MAZE_SIZE <= n && WellFormed(g, n) && Binary(g, n)
    requires g[n / 2][n / 2] == PATH
    requires Count(g, PATH) * 5 < n * n * 3
    ensures Convertible(g, n, p)
  {
    ExistsConvertible(g, n);
    p :| Convertible(g, n, p);
  }

  /** The state of the backfill loop, relative to the grid g0 it started from:
      cells only went from wall to path, and only in the interior. */
  ghost predicate BackfillState(g0: Cells, g: Cells, n: int, rank: map<Pos, nat>, parent: map<Pos, Pos>)
  {
    && WellFormed(g0, n) && WellFormed(g, n) && Binary(g, n) && Rooted(g, n, rank, parent)
    && OnlyFilled(g0, g, n)
  }

  /** Every cell where g differs from g0 is an interior wall of g0 that g
      has turned into a path. */
  ghost predicate OnlyFilled(g0: Cells, g: Cells, n: int)
    requires WellFormed(g0, n) && WellFormed(g, n)
  {
    forall y, x :: 0 <= y < n && 0 <= x < n && g[y][x] != g0[y][x] ==>
      Interior(Pos(x, y), n) && g0[y][x] == WALL && g[y][x] == PATH
  }

  /** Filling one more interior wall keeps OnlyFilled. */
  lemma FilledOneMore(g0: Cells, g: Cells, n: int, p: Pos)
    requires WellFormed(g0, n) && WellFormed(g, n) && OnlyFilled(g0, g, n)
    requires Interior(p, n) && g[p.y][p.x] == WALL
    ensures WellFormed(Set(g, p, PATH), n) && OnlyFilled(g0, Set(g, p, PATH), n)
  {
    var g' := Set(g, p, PATH);
    forall y, x | 0 <= y < n && 0 <= x < n && g'[y][x] != g0[y][x]
      ensures Interior(Pos(x, y), n) && g0[y][x] == WALL && g'[y][x] == PATH
    {
      if Pos(x, y) != p {
        assert g'[y][x] == g[y][x];
      }
    }
  }

  /** One effective iteration of the backfill: a convertible cell becomes a path. */
  method BackfillStep(g0: Cells, g: Cells, n: int, ghost rank: map<Pos, nat>, ghost parent: map<Pos, Pos>, walkable: int)
    returns (g': Cells, ghost rank': map<Pos, nat>, ghost parent': map<Pos, Pos>, walkable': int)
    requires MIN_MAZE_SIZE <= n && BackfillState(g0, g, n, rank, parent)
    requires walkable == Count(g, PATH) && walkable * 5 < n * n * 3
    ensures BackfillState(g0, g', n, rank', parent')
    ensures walkable' == Count(g', PATH) == walkable + 1
    ensures AllCells(n) - rank'.Keys < AllCells(n) - rank.Keys
  {
    assert Centre(n) in rank;
    var p := PickConvertible(g, n);
    ghost var q := PathNeighbour(g, n, p);
    assert q in rank;
    g', rank', parent' := SetPath(g, n, rank, parent, p, q);
    FilledOneMore(g0, g, n, p);
    walkable' := walkable + 1;
    CountUpdate(g, p, PATH, PATH);
    assert p !in rank;
    FewerOutside(n, rank.Keys, rank'.Keys, p);
  }

  /** The second phase of generation: while fewer than 60% of the cells are
      paths (walkable * 5 < total * 3), convert interior walls next to a path.
      walkable tracks the number of path cells exactly; the loop ends because
      every iteration converts a wall. */
  method Backfill(g0: Cells, n: int, ghost rank0: map<Pos, nat>, ghost parent0: map<Pos, Pos>)
    returns (g: Cells, ghost rank: map<Pos, nat>, ghost parent: map<Pos, Pos>)
    requires MIN_MAZE_SIZE <= n && WellFormed(g0, n) && Binary(g0, n) && Rooted(g0, n, rank0, parent0)
    ensures BackfillState(g0, g, n, rank, parent)
    ensures Count(g, PATH) * 5 >= n * n * 3
  {
    g, rank, parent := g0, rank0, parent0;
    var walkable := Count(g, PATH);
    var total := n * n;
    while walkable * 5 < total * 3
      invariant BackfillState(g0, g, n, rank, parent) && walkable == Count(g, PATH)
      decreases AllCells(n) - rank.Keys
    {
      g, rank, parent, walkable := BackfillStep(g0, g, n, rank, parent, walkable);
    }
  }

  // -------------------------------------------------------------- tunnels

  /** The four edge-midpoint cells: top, bottom, left and right tunnels. */
  predicate IsTunnelCell(n: int, p: Pos)
  {
    || p == Pos(n / 2, 0) || p == Pos(n / 2, n - 1)
    || p == Pos(0, n / 2) || p == Pos(n - 1, n / 2)
  }

  /** Exactly the four edge-midpoint cells hold a tunnel. */
  ghost predicate TunnelsPlaced(g: Cells, n: int)
    requires WellFormed(g, n)
  {
    forall y, x :: 0 <= y < n && 0 <= x < n ==> (g[y][x] == TUNNEL <==> IsTunnelCell(n, Pos(x, y)))
  }

  /** _create_warp_tunnels on a grid value: the four edge-midpoint cells
      become tunnels and no other cell changes. */
  method PlaceTunnels(g: Cells, n: int) returns (g': Cells)
    requires n >= 3 && WellFormed(g, n)
    ensures WellFormed(g', n)
    ensures forall y, x :: 0 <= y < n && 0 <= x < n ==>
              g'[y][x] == if IsTunnelCell(n, Pos(x, y)) then TUNNEL else g[y][x]
    ensures Count(g', PATH) + 4 >= Count(g, PATH)
  {
    var mid := n / 2;
    g' := Set(g, Pos(mid, 0), TUNNEL);
    CountUpdate(g, Pos(mid, 0), PATH, TUNNEL);
    ghost var g1 := g';
    g' := Set(g', Pos(mid, n - 1), TUNNEL);
    CountUpdate(g1, Pos(mid, n - 1), PATH, TUNNEL);
    ghost var g2 := g';
    g' := Set(g', Pos(0, mid), TUNNEL);
    CountUpdate(g2, Pos(0, mid), PATH, TUNNEL);
    ghost var g3 := g';
    g' := Set(g', Pos(n - 1, mid), TUNNEL);
    CountUpdate(g3, Pos(n - 1, mid), PATH, TUNNEL);
  }

  /** Placing the tunnels on a generated binary grid gives exactly four
      tunnels, keeps every path cell joined to the centre and keeps the
      walkable fraction. */
  lemma TunnelsKeepGeneration(g: Cells, g': Cells, n: int, rank: map<Pos, nat>, parent: map<Pos, Pos>)
    requires n >= 3 && WellFormed(g, n) && WellFormed(g', n) && Binary(g, n) && Rooted(g, n, rank, parent)
    requires Count(g, PATH) * 5 >= n * n * 3
    requires forall y, x :: 0 <= y < n && 0 <= x < n ==>
               g'[y][x] == if IsTunnelCell(n, Pos(x, y)) then TUNNEL else g[y][x]
    ensures TunnelsPlaced(g', n) && Rooted(g', n, rank, parent)
    ensures CountWalkable(g') * 5 >= n * n * 3
    ensures forall y, x :: 0 <= y < n && 0 <= x < n ==> WALL <= g'[y][x] <= TUNNEL
  {
    forall r | r in rank
      ensures InBounds(r, n) && g'[r.y][r.x] > 0
    {
    }
    forall y, x | 0 <= y < n && 0 <= x < n && g'[y][x] == PATH
      ensures Pos(x, y) in rank
    {
      assert g[y][x] == PATH;
    }
    forall r | r in rank && r != Centre(n)
      ensures r in parent && parent[r] in rank && Adjacent(parent[r], r) && rank[parent[r]] < rank[r]
    {
      assert r in parent;
    }
    WalkableCovers(g, g');
  }

  /** 60% of a side-n square, less four, is at least MIN_PATH_CELLS when
      n >= 25. */
  lemma PathShare(c: int, n: int)
    requires n >= MIN_MAZE_SIZE && (c + 4) * 5 >= n * n * 3
    ensures c >= MIN_PATH_CELLS
  {
    assert n * n >= 25 * n;
  }

  // ------------------------------------------------------------ the maze

  class Maze {
    /** Side of the square grid, fixed at construction. */
    const size: int
    /** grid[y][x]: WALL, PATH or TUNNEL. */
    var grid: Cells
    /** Connectivity witness kept by generation (see Rooted). */
    ghost var rank: map<Pos, nat>
    ghost var parent: map<Pos, Pos>

    ghost predicate Valid()
      reads this
    {
      && MIN_MAZE_SIZE <= size <= MAX_MAZE_SIZE && WellFormed(grid, size)
      && forall y, x :: 0 <= y < size && 0 <= x < size ==> WALL <= grid[y][x] <= TUNNEL
    }

    /** Exactly the four edge-midpoint cells are tunnels. */
    ghost predicate HasTunnels()
      reads this
    {
      Valid() && TunnelsPlaced(grid, size)
    }

    /** What generation guarantees: at least 60% walkable (and so at most
        four short of 60% path cells), exactly the four edge-midpoint tunnels,
        and every path cell joined to the centre. */
    ghost predicate Generated()
      reads this
    {
      && HasTunnels()
      && CountWalkable(grid) * 5 >= size * size * 3
      && (Count(grid, PATH) + 4) * 5 >= size * size * 3
      && Rooted(grid, size, rank, parent)
    }

    /** A generated maze has at least MIN_PATH_CELLS path cells (60% of
        25 x 25, less the four tunnels), so the game's placement always
        finds a free one. */
    lemma ManyPathCells()
      requires Generated()
      ensures Count(grid, PATH) >= MIN_PATH_CELLS
    {
      PathShare(Count(grid, PATH), size);
    }

    /** A maze of the given side (the source draws it uniformly from
        [MIN_MAZE_SIZE, MAX_MAZE_SIZE]), generated and given its tunnels. */
    constructor (n: int)
      requires MIN_MAZE_SIZE <= n <= MAX_MAZE_SIZE
      ensures size == n && Generated()
    {
      size := n;
      grid := AllWalls(n);
      rank, parent := map[], map[];
      new;
      GenerateMaze();
      CreateWarpTunnels();
    }

    /** Backtracking, then backfill until 60% of the cells are paths. */
    method GenerateMaze()
      requires Valid()
      modifies this`grid, this`rank, this`parent
      ensures Valid() && Binary(grid, size) && Rooted(grid, size, rank, parent)
      ensures Count(grid, PATH) * 5 >= size * size * 3
    {
      var g0;
      g0, rank, parent := CarvePassages(size);
      grid, rank, parent := Backfill(g0, size, rank, parent);
    }

    /** Sets exactly the four edge-midpoint cells to TUNNEL. */
    method CreateWarpTunnels()
      requires Valid() && Binary(grid, size) && Rooted(grid, size, rank, parent)
      requires Count(grid, PATH) * 5 >= size * size * 3
      modifies this`grid
      ensures Generated()
      ensures forall y, x :: 0 <= y < size && 0 <= x < size ==>
                grid[y][x] == if IsTunnelCell(size, Pos(x, y)) then TUNNEL else old(grid[y][x])
    {
      ghost var g := grid;
      grid := PlaceTunnels(grid, size);
      TunnelsKeepGeneration(g, grid, size, rank, parent);
    }

    /** Out of bounds is never walkable; in bounds, paths and tunnels are. */
    function IsWalkable(x: int, y: int): (r: bool)
      reads this
      requires Valid()
      ensures r <==> InBounds(Pos(x, y), size) && (grid[y][x] == PATH || grid[y][x] == TUNNEL)
    {
      if x < 0 || x >= size || y < 0 || y >= size then false else grid[y][x] > 0
    }

    /** Entering a tunnel cell leads to the tunnel on the opposite edge; every
        other position is left where it is. */
    function WarpDestination(x: int, y: int): (r: Pos)
      reads this
      requires Valid()
      ensures !IsTunnelCell(size, Pos(x, y)) ==> r == Pos(x, y)
      ensures IsTunnelCell(size, Pos(x, y)) ==> IsTunnelCell(size, r) && r != Pos(x, y) && (r.x == x || r.y == y)
      ensures InBounds(Pos(x, y), size) ==> InBounds(r, size)
    {
      var mid := size / 2;
      if y == 0 && x == mid then Pos(x, size - 1)
      else if y == size - 1 && x == mid then Pos(x, 0)
      else if x == 0 && y == mid then Pos(size - 1, y)
      else if x == size - 1 && y == mid then Pos(0, y)
      else Pos(x, y)
    }

    /** Warping is an involution: going through a tunnel and back returns to
        the starting cell. */
    lemma WarpInvolution(x: int, y: int)
      requires Valid()
      ensures var r := WarpDestination(x, y); WarpDestination(r.x, r.y) == Pos(x, y)
    {
    }

    /** In a generated maze a tunnel leads to a tunnel, so warping from a
        walkable cell lands on a walkable cell. */
    lemma WarpKeepsWalkable(x: int, y: int)
      requires HasTunnels()
      ensures IsWalkable(x, y) ==> var r := WarpDestination(x, y); IsWalkable(r.x, r.y)
    {
      var r := WarpDestination(x, y);
      if IsWalkable(x, y) && IsTunnelCell(size, Pos(x, y)) {
        assert grid[r.y][r.x] == TUNNEL;
      }
    }

    /** A uniformly random path cell (never a tunnel), or the centre when the
        grid has no path cell. The random choice is a nondeterministic pick. */
    method RandomWalkablePosition() returns (p: Pos)
      requires Valid()
      ensures HasPathCell(grid, size) ==> InBounds(p, size) && grid[p.y][p.x] == PATH
      ensures !HasPathCell(grid, size) ==> p == Centre(size)
    {
      var positions: seq<Pos> := [];
      for y := 0 to size
        invariant forall i :: 0 <= i < |positions| ==> InBounds(positions[i], size) && grid[positions[i].y][positions[i].x] == PATH
        invariant forall y', x' :: 0 <= y' < y && 0 <= x' < size && grid[y'][x'] == PATH ==> Pos(x', y') in positions
      {
        for x := 0 to size
          invariant forall i :: 0 <= i < |positions| ==> InBounds(positions[i], size) && grid[positions[i].y][positions[i].x] == PATH
          invariant forall y', x' :: 0 <= y' < y && 0 <= x' < size && grid[y'][x'] == PATH ==> Pos(x', y') in positions
          invariant forall x' :: 0 <= x' < x && grid[y][x'] == PATH ==> Pos(x', y) in positions
        {
          if grid[y][x] == PATH {
            positions := positions + [Pos(x, y)];
          }
        }
      }
      if positions != [] {
        assert positions[0] in positions;
        p :| p in positions;
      } else {
        p := Centre(size);
      }
    }
  }

  /** Some cell of the grid is a path. */
  ghost predicate HasPathCell(g: Cells, n: int)
    requires WellFormed(g, n)
  {
    exists y, x :: 0 <= y < n && 0 <= x < n && g[y][x] == PATH
  }
}
