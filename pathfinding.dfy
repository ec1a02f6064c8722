/** A* search on the maze grid (game/ai/pathfinding.py). The search is
    specified by a function on search states (AStarPath), and the method
    FindPath is proved to return exactly that function's value. */
module Pathfinding {
  import opened Grid
  import opened MazeGrid
  import opened Mazes

  /** An open-list entry (f, g, position, parent); the heap orders entries
      as tuples. */
  datatype Entry = Entry(f: int, g: int, pos: Pos, parent: Option<Pos>)

  /** The search state: open list, closed set, g and f scores, parents. */
  datatype Search = Search(open: seq<Entry>, closed: set<Pos>,
                           gScores: map<Pos, int>, fScores: map<Pos, int>,
                           parents: map<Pos, Pos>)

  /** Manhattan distance between a and b. */
  function Heuristic(a: Pos, b: Pos): (h: int)
    ensures h >= 0
    ensures h == 0 <==> a == b
    ensures h == Manhattan(b, a)
  {
    Abs(a.x - b.x) + Abs(a.y - b.y)
  }

  /** The heuristic never overestimates the length of a walk: it is admissible. */
  lemma {:induction false} HeuristicAdmissible(w: seq<Pos>)
    requires |w| >= 1 && IsWalk(w)
    ensures Heuristic(w[0], w[|w| - 1]) <= |w| - 1
  {
    if |w| > 1 {
      var t := w[1..];
      assert IsWalk(t) by {
        forall i | 0 <= i < |t| - 1 ensures Adjacent(t[i], t[i + 1]) {
          assert t[i] == w[i + 1] && t[i + 1] == w[i + 2];
        }
      }
      HeuristicAdmissible(t);
      assert Adjacent(w[0], w[1]);
      ManhattanIsMetric(w[0], w[1], w[|w| - 1]);
    }
  }

  /** Tuple order of entries on (f, g, x, y); positions in the open list are
      distinct (see SearchInv), so the parent component is never compared. */
  predicate EntryBefore(a: Entry, b: Entry)
  {
    a.f < b.f || (a.f == b.f && (a.g < b.g || (a.g == b.g &&
      (a.pos.x < b.pos.x || (a.pos.x == b.pos.x && a.pos.y < b.pos.y)))))
  }

  /** Index of a least entry among the first n: what heappop removes. */
  function FirstMin(open: seq<Entry>, n: int): (m: int)
    requires 1 <= n <= |open|
    ensures 0 <= m < n
    ensures forall j :: 0 <= j < n ==> !EntryBefore(open[j], open[m])
  {
    if n == 1 then 0
    else
      var k := FirstMin(open, n - 1);
      if EntryBefore(open[n - 1], open[k]) then n - 1 else k
  }

  /** Whether some entry of the open list is at p. */
  predicate InOpen(open: seq<Entry>, p: Pos)
  {
    exists i :: 0 <= i < |open| && open[i].pos == p
  }

  /** p has a g score (a named trigger that keeps the invariant's two
      quantifiers over scored positions and parents from feeding each other). */
  predicate Recorded(s: Search, p: Pos)
  {
    p in s.gScores
  }

  /** Every scored position is walkable with a non-negative g score; every
      scored position other than start has a parent, which is closed,
      adjacent and has a strictly smaller g score, so the parent links lead
      back to start; closed positions are scored; open entries are scored,
      carry a g no better than the recorded one and have distinct positions. */
  ghost predicate SearchInv(maze: Maze, s: Search, start: Pos)
    reads maze
    requires maze.Valid()
  {
    && start in s.gScores && s.gScores[start] == 0 && start !in s.parents
    && (forall p :: p in s.gScores ==> s.gScores[p] >= 0 && maze.IsWalkable(p.x, p.y))
    && (forall p {:trigger Recorded(s, p)} :: Recorded(s, p) && p != start ==> p in s.parents)
    && (forall p {:trigger p in s.parents} :: p in s.parents ==>
          && p in s.gScores
          && s.parents[p] in s.closed && s.parents[p] in s.gScores
          && Adjacent(s.parents[p], p)
          && s.gScores[s.parents[p]] < s.gScores[p])
    && s.closed <= s.gScores.Keys
    && (forall i :: 0 <= i < |s.open| ==>
          s.open[i].pos in s.gScores && s.open[i].g >= s.gScores[s.open[i].pos])
    && (forall i, j :: 0 <= i < j < |s.open| ==> s.open[i].pos != s.open[j].pos)
  }

  /** The start state: only start is open, with scores 0 and h(start, end). */
  function Initial(start: Pos, end: Pos): Search
  {
    Search([Entry(0, 0, start, None)], {}, map[start := 0],
           map[start := Heuristic(start, end)], map[])
  }

  lemma InitialInv(maze: Maze, start: Pos, end: Pos)
    requires maze.Valid() && maze.IsWalkable(start.x, start.y)
    ensures SearchInv(maze, Initial(start, end), start)
  {
    var s := Initial(start, end);
    forall p {:trigger Recorded(s, p)} | Recorded(s, p) && p != start
      ensures p in s.parents
    {
      assert p in s.gScores.Keys;
    }
  }

  /** The state after popping entry m and closing its position. */
  function Closed(s: Search, m: int): Search
    requires 0 <= m < |s.open|
  {
    s.(open := s.open[..m] + s.open[m + 1..], closed := s.closed + {s.open[m].pos})
  }

  lemma ClosedInv(maze: Maze, s: Search, start: Pos, m: int)
    requires maze.Valid() && SearchInv(maze, s, start) && 0 <= m < |s.open|
    ensures SearchInv(maze, Closed(s, m), start)
  {
    var s' := Closed(s, m);
    assert forall i :: 0 <= i < |s'.open| ==> s'.open[i] == if i < m then s.open[i] else s.open[i + 1];
    forall p {:trigger Recorded(s', p)} | Recorded(s', p) && p != start
      ensures p in s'.parents
    {
      assert Recorded(s, p);
    }
  }

  /** A neighbour nb of a closed position reached with g score gc gains a
      new or shorter route: it is not closed, it is walkable, and gc + 1
      beats its recorded g score. */
  predicate Improves(maze: Maze, s: Search, gc: int, nb: Pos)
    reads maze
    requires maze.Valid()
  {
    nb !in s.closed && maze.IsWalkable(nb.x, nb.y)
    && (nb !in s.gScores || gc + 1 < s.gScores[nb])
  }

  /** The state after nb gets cur as parent with g score gc + 1; nb is
      pushed unless it is already open. */
  function Relaxed(s: Search, end: Pos, cur: Pos, gc: int, nb: Pos): Search
  {
    var g := gc + 1;
    var f := g + Heuristic(nb, end);
    s.(parents := s.parents[nb := cur], gScores := s.gScores[nb := g],
       fScores := s.fScores[nb := f],
       open := if InOpen(s.open, nb) then s.open else s.open + [Entry(f, g, nb, Some(cur))])
  }

  /** Relaxing nb keeps every recorded position other than start linked
      to a closed, adjacent parent with a smaller g score. */
  lemma RelaxedParents(maze: Maze, s: Search, start: Pos, end: Pos, cur: Pos, gc: int, nb: Pos)
    requires maze.Valid() && SearchInv(maze, s, start)
    requires cur in s.closed && s.gScores[cur] <= gc && Adjacent(cur, nb)
    requires Improves(maze, s, gc, nb)
    ensures var s' := Relaxed(s, end, cur, gc, nb);
            && (forall p {:trigger Recorded(s', p)} :: Recorded(s', p) && p != start ==> p in s'.parents)
            && (forall p {:trigger p in s'.parents} :: p in s'.parents ==>
                  && p in s'.gScores
                  && s'.parents[p] in s'.closed && s'.parents[p] in s'.gScores
                  && Adjacent(s'.parents[p], p)
                  && s'.gScores[s'.parents[p]] < s'.gScores[p])
  {
    var s' := Relaxed(s, end, cur, gc, nb);
    forall p {:trigger Recorded(s', p)} | Recorded(s', p) && p != start
      ensures p in s'.parents
    {
      if p != nb {
        assert Recorded(s, p);
      }
    }
    forall p | p in s'.parents
      ensures && p in s'.gScores
              && s'.parents[p] in s'.closed && s'.parents[p] in s'.gScores
              && Adjacent(s'.parents[p], p)
              && s'.gScores[s'.parents[p]] < s'.gScores[p]
    {
      if p != nb {
        assert p in s.parents;
      }
    }
  }

  /** Relaxing nb keeps the open entries scored, no better than their
      recorded g, and at distinct positions. */
  lemma RelaxedOpen(maze: Maze, s: Search, start: Pos, end: Pos, cur: Pos, gc: int, nb: Pos)
    requires maze.Valid() && SearchInv(maze, s, start)
    requires Improves(maze, s, gc, nb)
    ensures var s' := Relaxed(s, end, cur, gc, nb);
            && (forall i :: 0 <= i < |s'.open| ==>
                  s'.open[i].pos in s'.gScores && s'.open[i].g >= s'.gScores[s'.open[i].pos])
            && (forall i, j :: 0 <= i < j < |s'.open| ==> s'.open[i].pos != s'.open[j].pos)
  {
    var s' := Relaxed(s, end, cur, gc, nb);
    if !InOpen(s.open, nb) {
      forall i, j | 0 <= i < j < |s'.open| ensures s'.open[i].pos != s'.open[j].pos {
        if j == |s.open| {
          assert s'.open[i] == s.open[i];
        }
      }
    }
  }

  lemma RelaxedInv(maze: Maze, s: Search, start: Pos, end: Pos, cur: Pos, gc: int, nb: Pos)
    requires maze.Valid() && SearchInv(maze, s, start)
    requires cur in s.closed && s.gScores[cur] <= gc && Adjacent(cur, nb)
    requires Improves(maze, s, gc, nb)
    ensures SearchInv(maze, Relaxed(s, end, cur, gc, nb), start)
  {
    assert nb != start;
    RelaxedParents(maze, s, start, end, cur, gc, nb);
    RelaxedOpen(maze, s, start, end, cur, gc, nb);
  }

  /** One relaxation: Relaxed when nb improves, otherwise no change. */
  function RelaxStep(maze: Maze, s: Search, end: Pos, cur: Pos, gc: int, nb: Pos): Search
    reads maze
    requires maze.Valid()
  {
    if Improves(maze, s, gc, nb) then Relaxed(s, end, cur, gc, nb) else s
  }

  /** The state after relaxing the first k neighbours of cur, in the order
      of Dir4. */
  function Expanded(maze: Maze, s: Search, end: Pos, cur: Pos, gc: int, k: int): Search
    reads maze
    requires maze.Valid() && 0 <= k <= 4
  {
    if k == 0 then s
    else RelaxStep(maze, Expanded(maze, s, end, cur, gc, k - 1), end, cur, gc, Step(cur, k - 1))
  }

  /** Expanding a closed position keeps the invariant, the closed set and
      the position's own g score. */
  lemma {:induction false} ExpandedInv(maze: Maze, s: Search, start: Pos, end: Pos, cur: Pos, gc: int, k: int)
    requires maze.Valid() && SearchInv(maze, s, start) && 0 <= k <= 4
    requires cur in s.closed && s.gScores[cur] <= gc
    ensures var s' := Expanded(maze, s, end, cur, gc, k);
            SearchInv(maze, s', start) && s'.closed == s.closed
            && cur in s'.gScores && s'.gScores[cur] == s.gScores[cur]
  {
    if k > 0 {
      ExpandedInv(maze, s, start, end, cur, gc, k - 1);
      var s1 := Expanded(maze, s, end, cur, gc, k - 1);
      var nb := Step(cur, k - 1);
      if Improves(maze, s1, gc, nb) {
        RelaxedInv(maze, s1, start, end, cur, gc, nb);
      }
    }
  }

  /** The parent chain from cur back to start, as _reconstruct_path
      collects it before reversing: cur first, start last. */
  function ParentChain(maze: Maze, s: Search, start: Pos, cur: Pos): (r: seq<Pos>)
    reads maze
    requires maze.Valid() && SearchInv(maze, s, start) && cur in s.gScores
    ensures |r| >= 1 && r[0] == cur && r[|r| - 1] == start
    ensures forall i, j :: 0 <= i && j == i + 1 && j < |r| ==> Adjacent(r[j], r[i])
    ensures forall i :: 0 <= i < |r| ==> maze.IsWalkable(r[i].x, r[i].y)
    decreases s.gScores[cur]
  {
    if cur in s.parents then [cur] + ParentChain(maze, s, start, s.parents[cur])
    else assert Recorded(s, cur); [cur]
  }

  lemma ChainUnfold(maze: Maze, s: Search, start: Pos, c: Pos)
    requires maze.Valid() && SearchInv(maze, s, start) && c in s.gScores && c in s.parents
    ensures s.parents[c] in s.gScores && s.gScores[s.parents[c]] < s.gScores[c]
    ensures ParentChain(maze, s, start, c)[1..]
         == [s.parents[c]] + ParentChain(maze, s, start, s.parents[c])[1..]
  {
    var q := ParentChain(maze, s, start, s.parents[c]);
    assert q == [q[0]] + q[1..];
  }

  lemma AppendShift<T>(a: seq<T>, x: T, t: seq<T>)
    ensures (a + [x]) + t == a + ([x] + t)
  {
  }

  lemma AppendNothing<T>(a: seq<T>)
    ensures a + [] == a
  {
  }

  function Reverse<T>(s: seq<T>): (r: seq<T>)
    ensures |r| == |s| && forall i :: 0 <= i < |s| ==> r[i] == s[|s| - 1 - i]
  {
    if s == [] then [] else Reverse(s[1..]) + [s[0]]
  }

  /** Reversing a chain whose every element is adjacent to its predecessor
      gives a walk. */
  lemma ReversedChainIsWalk(c: seq<Pos>)
    requires forall i, j :: 0 <= i && j == i + 1 && j < |c| ==> Adjacent(c[j], c[i])
    ensures IsWalk(Reverse(c))
  {
    var r := Reverse(c);
    forall i | 0 <= i < |r| - 1
      ensures Adjacent(r[i], r[i + 1])
    {
      var j := |c| - 2 - i;
      assert r[i] == c[j + 1] && r[i + 1] == c[j];
    }
  }

  /** The reconstructed path: a walk from start to cur through walkable cells. */
  function PathTo(maze: Maze, s: Search, start: Pos, cur: Pos): (r: seq<Pos>)
    reads maze
    requires maze.Valid() && SearchInv(maze, s, start) && cur in s.gScores
    ensures |r| >= 1 && r[0] == start && r[|r| - 1] == cur && IsWalk(r)
    ensures forall i :: 0 <= i < |r| ==> maze.IsWalkable(r[i].x, r[i].y)
  {
    var c := ParentChain(maze, s, start, cur);
    ReversedChainIsWalk(c);
    Reverse(c)
  }

  /** One iteration that does not reach the end: pop entry m, close its
      position and expand it. */
  function Advance(maze: Maze, s: Search, end: Pos, m: int): Search
    reads maze
    requires maze.Valid() && 0 <= m < |s.open|
  {
    Expanded(maze, Closed(s, m), end, s.open[m].pos, s.open[m].g, 4)
  }

  lemma AdvanceInv(maze: Maze, s: Search, start: Pos, end: Pos, m: int)
    requires maze.Valid() && SearchInv(maze, s, start) && 0 <= m < |s.open|
    ensures SearchInv(maze, Advance(maze, s, end, m), start)
  {
    ClosedInv(maze, s, start, m);
    ExpandedInv(maze, Closed(s, m), start, end, s.open[m].pos, s.open[m].g, 4);
  }

  /** The search from state s after iters iterations: pop the least entry;
      stop with its path when it is the end, otherwise close and expand it;
      give up with [] when the open list is empty or maxIter is reached. */
  function SearchFrom(maze: Maze, s: Search, start: Pos, end: Pos, iters: int, maxIter: int): (r: seq<Pos>)
    reads maze
    requires maze.Valid() && SearchInv(maze, s, start)
    ensures r != [] ==> r[0] == start && r[|r| - 1] == end && IsWalk(r)
    ensures forall i :: 0 <= i < |r| ==> maze.IsWalkable(r[i].x, r[i].y)
    decreases maxIter - iters
  {
    if s.open == [] || iters >= maxIter then []
    else
      var m := FirstMin(s.open, |s.open|);
      var e := s.open[m];
      if e.pos == end then PathTo(maze, s, start, e.pos)
      else
        AdvanceInv(maze, s, start, end, m);
        SearchFrom(maze, Advance(maze, s, end, m), start, end, iters + 1, maxIter)
  }

  /** find_path: [] when an endpoint is not walkable, [start] when the
      endpoints coincide, otherwise the search's result; any path found is a
      walk from start to end through walkable cells, at least as long as
      the Manhattan distance. */
  function AStarPath(maze: Maze, start: Pos, end: Pos): (r: seq<Pos>)
    reads maze
    requires maze.Valid()
    ensures !maze.IsWalkable(start.x, start.y) || !maze.IsWalkable(end.x, end.y) ==> r == []
    ensures maze.IsWalkable(start.x, start.y) && maze.IsWalkable(end.x, end.y) && start == end ==> r == [start]
    ensures r != [] ==> r[0] == start && r[|r| - 1] == end && IsWalk(r)
    ensures r != [] ==> |r| - 1 >= Heuristic(start, end)
    ensures forall i :: 0 <= i < |r| ==> maze.IsWalkable(r[i].x, r[i].y)
  {
    if !maze.IsWalkable(start.x, start.y) || !maze.IsWalkable(end.x, end.y) then []
    else if start == end then [start]
    else
      InitialInv(maze, start, end);
      var r := SearchFrom(maze, Initial(start, end), start, end, 0, maze.size * maze.size);
      if r != [] then HeuristicAdmissible(r); r else r
  }

  /** Relaxation of one neighbour nb of the closed position cur, reached
      with g score gc. */
  method Relax(maze: Maze, s: Search, end: Pos, cur: Pos, gc: int, nb: Pos) returns (s': Search)
    requires maze.Valid()
    ensures s' == RelaxStep(maze, s, end, cur, gc, nb)
  {
    s' := s;
    if nb in s.closed {
      return;
    }
    if !maze.IsWalkable(nb.x, nb.y) {
      return;
    }
    var tentative := gc + 1;
    if nb !in s.gScores || tentative < s.gScores[nb] {
      s' := s'.(parents := s'.parents[nb := cur]);
      s' := s'.(gScores := s'.gScores[nb := tentative]);
      s' := s'.(fScores := s'.fScores[nb := tentative + Heuristic(nb, end)]);
      if !InOpen(s.open, nb) {
        s' := s'.(open := s'.open + [Entry(s'.fScores[nb], s'.gScores[nb], nb, Some(cur))]);
      }
    }
  }

  /** Expansion of cur: relaxes its four neighbours in the order
      (0, 1), (1, 0), (0, -1), (-1, 0). */
  method Expand(maze: Maze, s: Search, end: Pos, cur: Pos, gc: int) returns (s': Search)
    requires maze.Valid()
    ensures s' == Expanded(maze, s, end, cur, gc, 4)
  {
    s' := s;
    for d := 0 to 4
      invariant s' == Expanded(maze, s, end, cur, gc, d)
    {
      s' := Relax(maze, s', end, cur, gc, Step(cur, d));
    }
  }

  /** _reconstruct_path: follows the parent links from cur, collecting the
      chain, then reverses it. */
  method ReconstructPath(maze: Maze, s: Search, ghost start: Pos, cur: Pos) returns (path: seq<Pos>)
    requires maze.Valid() && SearchInv(maze, s, start) && cur in s.gScores
    ensures path == PathTo(maze, s, start, cur)
  {
    var c := cur;
    var chain := [cur];
    ghost var full := ParentChain(maze, s, start, cur);
    while c in s.parents
      invariant maze.Valid() && SearchInv(maze, s, start)
      invariant c in s.gScores
      invariant chain + ParentChain(maze, s, start, c)[1..] == full
      decreases s.gScores[c]
    {
      ChainUnfold(maze, s, start, c);
      ghost var before := chain;
      c := s.parents[c];
      chain := chain + [c];
      AppendShift(before, c, ParentChain(maze, s, start, c)[1..]);
    }
    assert ParentChain(maze, s, start, c)[1..] == [];
    AppendNothing(chain);
    path := Reverse(chain);
  }

  class AStar {
    const maze: Maze

    constructor (maze: Maze)
      ensures this.maze == maze
    {
      this.maze := maze;
    }

    /** find_path: the search runs at most size * size iterations and
        returns exactly AStarPath(maze, start, end). */
    method FindPath(start: Pos, end: Pos) returns (path: seq<Pos>)
      requires maze.Valid()
      ensures path == AStarPath(maze, start, end)
    {
      if !maze.IsWalkable(start.x, start.y) || !maze.IsWalkable(end.x, end.y) {
        return [];
      }
      if start == end {
        return [start];
      }
      var s := Initial(start, end);
      InitialInv(maze, start, end);
      var maxIterations := maze.size * maze.size;
      var iterations := 0;
      ghost var result := AStarPath(maze, start, end);
      while s.open != [] && iterations < maxIterations
        invariant SearchInv(maze, s, start)
        invariant SearchFrom(maze, s, start, end, iterations, maxIterations) == result
        decreases maxIterations - iterations
      {
        var m := FirstMin(s.open, |s.open|);
        var e := s.open[m];
        iterations := iterations + 1;
        if e.pos == end {
          path := ReconstructPath(maze, s, start, e.pos);
          return;
        }
        AdvanceInv(maze, s, start, end, m);
        s := Closed(s, m);
        s := Expand(maze, s, end, e.pos, e.g);
      }
      return [];
    }
  }
}
