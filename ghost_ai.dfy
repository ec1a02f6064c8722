/** The computer player (class GhostAI of game/ai/ghost_ai.py): every
    decision interval it looks for pickups and weaker ghosts within its
    vision radius that A* can reach, heads for the nearest one (pickups
    first), and otherwise wanders; every frame it takes one step along its
    planned path. The clock and the two random draws are parameters. */
module GhostAIs {
  import opened Grid
  import opened MazeGrid
  import opened Mazes
  import opened PacMans
  import opened Ghosts
  import opened Pathfinding

  /** What the AI is chasing. */
  datatype Target = PacManTarget(pickup: PacMan) | GhostTarget(prey: Ghost)

  /** Interval between random moves, in milliseconds. */
  const RANDOM_MOVE_INTERVAL: int := 1000

  // ---------------------------------------------------------------------
  // Perception
  // ---------------------------------------------------------------------

  /** A pickup the AI at cur notices: active, within the vision radius and
      reachable by A*. */
  predicate SeesPickup(maze: Maze, cur: Pos, p: PacMan)
    reads maze
    requires maze.Valid()
  {
    p.active && Manhattan(cur, p.Cell()) <= AI_VISION_RADIUS && AStarPath(maze, cur, p.Cell()) != []
  }

  /** A ghost the AI's ghost me notices: another live ghost of lower
      level, within the vision radius and reachable by A*. */
  predicate SeesGhost(maze: Maze, me: Ghost, g: Ghost)
    reads maze, me, g
    requires maze.Valid()
  {
    && g != me && g.alive && !g.dying
    && Manhattan(me.Cell(), g.Cell()) <= AI_VISION_RADIUS
    && g.level < me.level
    && AStarPath(maze, me.Cell(), g.Cell()) != []
  }

  /** The visible pickups with their distances, in the order of ps. */
  function PickupCandidates(maze: Maze, cur: Pos, ps: seq<PacMan>): seq<(PacMan, int)>
    reads maze
    requires maze.Valid()
  {
    if ps == [] then []
    else
      var rest := PickupCandidates(maze, cur, ps[..|ps| - 1]);
      var p := ps[|ps| - 1];
      if SeesPickup(maze, cur, p) then rest + [(p, Manhattan(cur, p.Cell()))] else rest
  }

  /** The pickup candidates are exactly the visible pickups, each with its
      distance. */
  lemma {:induction false} PickupCandidatesSound(maze: Maze, cur: Pos, ps: seq<PacMan>)
    requires maze.Valid()
    ensures forall k :: 0 <= k < |PickupCandidates(maze, cur, ps)| ==>
              && PickupCandidates(maze, cur, ps)[k].0 in ps
              && SeesPickup(maze, cur, PickupCandidates(maze, cur, ps)[k].0)
              && PickupCandidates(maze, cur, ps)[k].1 == Manhattan(cur, PickupCandidates(maze, cur, ps)[k].0.Cell())
    ensures forall p :: p in ps && SeesPickup(maze, cur, p) ==>
              (p, Manhattan(cur, p.Cell())) in PickupCandidates(maze, cur, ps)
  {
    if ps != [] {
      var front := ps[..|ps| - 1];
      PickupCandidatesSound(maze, cur, front);
      assert ps == front + [ps[|ps| - 1]];
    }
  }

  /** The visible ghosts with their distances, in the order of gs. */
  function GhostCandidates(maze: Maze, me: Ghost, gs: seq<Ghost>): (c: seq<(Ghost, int)>)
    reads maze, me, set g | g in gs
    requires maze.Valid()
    ensures forall k :: 0 <= k < |c| ==> c[k].0 in gs
  {
    if gs == [] then []
    else
      var rest := GhostCandidates(maze, me, gs[..|gs| - 1]);
      var g := gs[|gs| - 1];
      if SeesGhost(maze, me, g) then rest + [(g, Manhattan(me.Cell(), g.Cell()))] else rest
  }

  /** The ghost candidates are exactly the visible ghosts, each with its
      distance. */
  lemma {:induction false} GhostCandidatesSound(maze: Maze, me: Ghost, gs: seq<Ghost>)
    requires maze.Valid()
    ensures forall k :: 0 <= k < |GhostCandidates(maze, me, gs)| ==>
              && SeesGhost(maze, me, GhostCandidates(maze, me, gs)[k].0)
              && GhostCandidates(maze, me, gs)[k].1 == Manhattan(me.Cell(), GhostCandidates(maze, me, gs)[k].0.Cell())
    ensures forall g :: g in gs && SeesGhost(maze, me, g) ==>
              (g, Manhattan(me.Cell(), g.Cell())) in GhostCandidates(maze, me, gs)
  {
    if gs != [] {
      var front := gs[..|gs| - 1];
      GhostCandidatesSound(maze, me, front);
      assert gs == front + [gs[|gs| - 1]];
    }
  }

  /** The head of the list after a stable sort by distance: the first
      candidate at the least distance. */
  function Nearest<T>(c: seq<(T, int)>): (k: nat)
    requires c != []
    ensures k < |c|
    ensures forall j :: 0 <= j < |c| ==> c[k].1 <= c[j].1
    ensures forall j :: 0 <= j < k ==> c[j].1 > c[k].1
  {
    if |c| == 1 then 0
    else
      var k := Nearest(c[..|c| - 1]);
      if c[|c| - 1].1 < c[k].1 then |c| - 1 else k
  }

  /** The target update chooses: the nearest visible pickup, else the
      nearest visible weaker ghost, else none. */
  function Decision(maze: Maze, me: Ghost, pacmans: seq<PacMan>, ghosts: seq<Ghost>): (t: Option<Target>)
    reads maze, me, set g | g in ghosts
    requires maze.Valid()
    ensures t.Some? && t.value.GhostTarget? ==> t.value.prey in ghosts
  {
    var pc := PickupCandidates(maze, me.Cell(), pacmans);
    var gc := GhostCandidates(maze, me, ghosts);
    if pc != [] then Some(PacManTarget(pc[Nearest(pc)].0))
    else if gc != [] then Some(GhostTarget(gc[Nearest(gc)].0))
    else None
  }

  /** No pickup is visible from cur. */
  predicate NoPickupVisible(maze: Maze, cur: Pos, pacmans: seq<PacMan>)
    reads maze
    requires maze.Valid()
  {
    forall p :: p in pacmans ==> !SeesPickup(maze, cur, p)
  }

  /** No ghost is visible to me. */
  predicate NoGhostVisible(maze: Maze, me: Ghost, ghosts: seq<Ghost>)
    reads maze, me, set g | g in ghosts
    requires maze.Valid()
  {
    forall g :: g in ghosts ==> !SeesGhost(maze, me, g)
  }

  /** p is a visible pickup at the least distance from cur. */
  predicate NearestPickup(maze: Maze, cur: Pos, pacmans: seq<PacMan>, p: PacMan)
    reads maze
    requires maze.Valid()
  {
    && p in pacmans && SeesPickup(maze, cur, p)
    && forall q :: q in pacmans && SeesPickup(maze, cur, q) ==>
         Manhattan(cur, p.Cell()) <= Manhattan(cur, q.Cell())
  }

  /** g is a visible ghost at the least distance from me. */
  predicate NearestPrey(maze: Maze, me: Ghost, ghosts: seq<Ghost>, g: Ghost)
    reads maze, me, set h | h in ghosts
    requires maze.Valid()
  {
    && g in ghosts && SeesGhost(maze, me, g)
    && forall h :: h in ghosts && SeesGhost(maze, me, h) ==>
         Manhattan(me.Cell(), g.Cell()) <= Manhattan(me.Cell(), h.Cell())
  }

  /** The decision takes a visible pickup at the least distance when there
      is one, else a visible weaker ghost at the least distance, and none
      only when nothing is visible. */
  lemma DecisionIsNearest(maze: Maze, me: Ghost, pacmans: seq<PacMan>, ghosts: seq<Ghost>)
    requires maze.Valid()
    ensures Decision(maze, me, pacmans, ghosts).None? <==>
              NoPickupVisible(maze, me.Cell(), pacmans) && NoGhostVisible(maze, me, ghosts)
    ensures Decision(maze, me, pacmans, ghosts).Some? && Decision(maze, me, pacmans, ghosts).value.PacManTarget? ==>
              NearestPickup(maze, me.Cell(), pacmans, Decision(maze, me, pacmans, ghosts).value.pickup)
    ensures Decision(maze, me, pacmans, ghosts).Some? && Decision(maze, me, pacmans, ghosts).value.GhostTarget? ==>
              && NoPickupVisible(maze, me.Cell(), pacmans)
              && NearestPrey(maze, me, ghosts, Decision(maze, me, pacmans, ghosts).value.prey)
  {
    PickupCandidatesSound(maze, me.Cell(), pacmans);
    GhostCandidatesSound(maze, me, ghosts);
    var pc := PickupCandidates(maze, me.Cell(), pacmans);
    var gc := GhostCandidates(maze, me, ghosts);
    if pc != [] {
      var k := Nearest(pc);
      forall q | q in pacmans && SeesPickup(maze, me.Cell(), q)
        ensures Manhattan(me.Cell(), pc[k].0.Cell()) <= Manhattan(me.Cell(), q.Cell())
      {
        var j :| 0 <= j < |pc| && pc[j] == (q, Manhattan(me.Cell(), q.Cell()));
      }
    } else if gc != [] {
      var k := Nearest(gc);
      forall h | h in ghosts && SeesGhost(maze, me, h)
        ensures Manhattan(me.Cell(), gc[k].0.Cell()) <= Manhattan(me.Cell(), h.Cell())
      {
        var j :| 0 <= j < |gc| && gc[j] == (h, Manhattan(me.Cell(), h.Cell()));
      }
    }
  }

  /** The cell of a target, read when the decision is taken. */
  function TargetCell(t: Target): Pos
    reads if t.GhostTarget? then {t.prey} else {}
  {
    match t
    case PacManTarget(p) => p.Cell()
    case GhostTarget(g) => g.Cell()
  }

  // ---------------------------------------------------------------------
  // Planning
  // ---------------------------------------------------------------------

  /** A found path without its first cell when that is the ghost's own. */
  function Trim(path: seq<Pos>, cur: Pos): seq<Pos>
  {
    if path != [] && path[0] == cur then path[1..] else path
  }

  /** Which of the four neighbours of c, in the order of Dir4, are
      walkable. */
  function Openings(maze: Maze, c: Pos): (open: seq<bool>)
    reads maze
    requires maze.Valid()
    ensures |open| == 4
  {
    [maze.IsWalkable(c.x, c.y + 1), maze.IsWalkable(c.x + 1, c.y),
     maze.IsWalkable(c.x, c.y - 1), maze.IsWalkable(c.x - 1, c.y)]
  }

  /** Entry d of the openings is the walkability of the neighbour in
      direction d. */
  lemma OpeningAt(maze: Maze, c: Pos, d: int)
    requires maze.Valid() && 0 <= d < 4
    ensures Openings(maze, c)[d] == maze.IsWalkable(Step(c, d).x, Step(c, d).y)
    ensures Step(c, d) == Pos(c.x + Dir4(d).x, c.y + Dir4(d).y) && IsCardinalStep(Dir4(d).x, Dir4(d).y)
  {
    var open := Openings(maze, c);
    if d == 0 {
      assert Dir4(0) == Pos(0, 1) && open[0] == maze.IsWalkable(c.x, c.y + 1);
    } else if d == 1 {
      assert Dir4(1) == Pos(1, 0) && open[1] == maze.IsWalkable(c.x + 1, c.y);
    } else if d == 2 {
      assert Dir4(2) == Pos(0, -1) && open[2] == maze.IsWalkable(c.x, c.y - 1);
    } else {
      assert Dir4(3) == Pos(-1, 0) && open[3] == maze.IsWalkable(c.x - 1, c.y);
    }
  }

  /** The unit steps among (0, 1), (1, 0), (0, -1), (-1, 0) (the first k
      of them) whose entry in open holds, in that order. */
  function MovesOf(open: seq<bool>, k: int): seq<Pos>
    requires 0 <= k <= |open| <= 4
  {
    if k == 0 then []
    else MovesOf(open, k - 1) + if open[k - 1] then [Dir4(k - 1)] else []
  }

  /** The unit steps (the first k) that lead from c onto a walkable cell. */
  function PossibleMoves(maze: Maze, c: Pos, k: int): seq<Pos>
    reads maze
    requires maze.Valid() && 0 <= k <= 4
  {
    MovesOf(Openings(maze, c), k)
  }

  /** The position in Dir4 of a unit step (3 for any other offset). */
  function DirIndex(m: Pos): (d: int)
    ensures 0 <= d < 4
  {
    if m == Pos(0, 1) then 0 else if m == Pos(1, 0) then 1 else if m == Pos(0, -1) then 2 else 3
  }

  /** The moves are exactly the open directions among the first k. */
  lemma {:induction false} MovesOfSound(open: seq<bool>, k: int)
    requires 0 <= k <= |open| <= 4
    ensures forall m :: m in MovesOf(open, k) ==>
              DirIndex(m) < k && open[DirIndex(m)] && m == Dir4(DirIndex(m))
    ensures forall d :: 0 <= d < k && open[d] ==> Dir4(d) in MovesOf(open, k)
  {
    if k > 0 {
      MovesOfSound(open, k - 1);
      var extra := if open[k - 1] then [Dir4(k - 1)] else [];
      assert MovesOf(open, k) == MovesOf(open, k - 1) + extra;
      assert k - 1 == 0 || k - 1 == 1 || k - 1 == 2 || k - 1 == 3;
      assert DirIndex(Dir4(k - 1)) == k - 1;
    }
  }

  /** Every possible move is a cardinal step onto a walkable cell. */
  lemma PossibleMovesWalkable(maze: Maze, c: Pos, k: int)
    requires maze.Valid() && 0 <= k <= 4
    ensures forall m :: m in PossibleMoves(maze, c, k) ==>
              IsCardinalStep(m.x, m.y) && maze.IsWalkable(c.x + m.x, c.y + m.y)
  {
    forall m | m in PossibleMoves(maze, c, k)
      ensures IsCardinalStep(m.x, m.y) && maze.IsWalkable(c.x + m.x, c.y + m.y)
    {
      PossibleMoveWalkable(maze, c, k, m);
    }
  }

  /** One possible move is a cardinal step onto a walkable cell. */
  lemma PossibleMoveWalkable(maze: Maze, c: Pos, k: int, m: Pos)
    requires maze.Valid() && 0 <= k <= 4 && m in PossibleMoves(maze, c, k)
    ensures IsCardinalStep(m.x, m.y) && maze.IsWalkable(c.x + m.x, c.y + m.y)
  {
    MovesOfSound(Openings(maze, c), k);
    OpeningAt(maze, c, DirIndex(m));
  }

  /** Every one of the first k directions whose neighbour is walkable is a
      possible move. */
  lemma PossibleMovesComplete(maze: Maze, c: Pos, k: int)
    requires maze.Valid() && 0 <= k <= 4
    ensures forall d :: 0 <= d < k && maze.IsWalkable(Step(c, d).x, Step(c, d).y) ==>
              Dir4(d) in PossibleMoves(maze, c, k)
  {
    forall d | 0 <= d < k && maze.IsWalkable(Step(c, d).x, Step(c, d).y)
      ensures Dir4(d) in PossibleMoves(maze, c, k)
    {
      PossibleMoveComplete(maze, c, k, d);
    }
  }

  /** One direction among the first k whose neighbour is walkable is a
      possible move. */
  lemma PossibleMoveComplete(maze: Maze, c: Pos, k: int, d: int)
    requires maze.Valid() && 0 <= d < k <= 4 && maze.IsWalkable(Step(c, d).x, Step(c, d).y)
    ensures Dir4(d) in PossibleMoves(maze, c, k)
  {
    MovesOfSound(Openings(maze, c), k);
    OpeningAt(maze, c, d);
  }

  /** The direction loop of _random_movement: the unit steps from cur
      onto walkable cells, in the order of Dir4. */
  method GatherMoves(maze: Maze, cur: Pos) returns (moves: seq<Pos>)
    requires maze.Valid()
    ensures moves == PossibleMoves(maze, cur, 4)
  {
    ghost var open := Openings(maze, cur);
    moves := [];
    for d := 0 to 4
      invariant moves == MovesOf(open, d)
    {
      var m := Dir4(d);
      OpeningAt(maze, cur, d);
      assert MovesOf(open, d + 1) == MovesOf(open, d) + if open[d] then [m] else [];
      if maze.IsWalkable(cur.x + m.x, cur.y + m.y) {
        moves := moves + [m];
      }
    }
  }

  /** The moves that do not reverse direction dir, in order. */
  function ForwardMoves(moves: seq<Pos>, dir: Pos): seq<Pos>
  {
    if moves == [] then []
    else
      var rest := ForwardMoves(moves[1..], dir);
      if moves[0] != Pos(-dir.x, -dir.y) then [moves[0]] + rest else rest
  }

  /** The forward moves are exactly the moves other than the reversal. */
  lemma {:induction false} ForwardMovesSound(moves: seq<Pos>, dir: Pos)
    ensures forall m :: m in ForwardMoves(moves, dir) <==> m in moves && m != Pos(-dir.x, -dir.y)
  {
    if moves != [] {
      ForwardMovesSound(moves[1..], dir);
      assert moves == [moves[0]] + moves[1..];
    }
  }

  /** The move random.choice draws: from the forward moves when
      preferForward (the 80% draw) holds and there are some, else from all
      possible moves; pick stands for the choice. */
  function ChosenMove(possible: seq<Pos>, dir: Pos, preferForward: bool, pick: nat): (m: Pos)
    requires possible != []
    ensures m in possible
    ensures preferForward && ForwardMoves(possible, dir) != [] ==> m != Pos(-dir.x, -dir.y)
  {
    var forward := ForwardMoves(possible, dir);
    ForwardMovesSound(possible, dir);
    if forward != [] && preferForward then
      assert forward[pick % |forward|] in forward;
      forward[pick % |forward|]
    else
      assert possible[pick % |possible|] in possible;
      possible[pick % |possible|]
  }

  /** _random_movement: a one-cell path to the chosen neighbour, or the
      old path when no move is possible. The possible moves are those of
      PossibleMoves. */
  function RandomPath(possible: seq<Pos>, c: Pos, dir: Pos, preferForward: bool, pick: nat, path: seq<Pos>): seq<Pos>
  {
    if possible == [] then path
    else
      var m := ChosenMove(possible, dir, preferForward, pick);
      [Pos(c.x + m.x, c.y + m.y)]
  }

  /** With none of the first k directions open there is no move. */
  lemma {:induction false} NoMovesOf(open: seq<bool>, k: int)
    requires 0 <= k <= |open| <= 4
    requires forall d :: 0 <= d < k ==> !open[d]
    ensures MovesOf(open, k) == []
  {
    if k > 0 {
      NoMovesOf(open, k - 1);
    }
  }

  /** With no walkable neighbour a random move keeps the old path. */
  lemma RandomPathBlocked(maze: Maze, c: Pos, dir: Pos, preferForward: bool, pick: nat, path: seq<Pos>)
    requires maze.Valid()
    requires forall d :: 0 <= d < 4 ==> !maze.IsWalkable(Step(c, d).x, Step(c, d).y)
    ensures RandomPath(PossibleMoves(maze, c, 4), c, dir, preferForward, pick, path) == path
  {
    forall d | 0 <= d < 4
      ensures !Openings(maze, c)[d]
    {
      OpeningAt(maze, c, d);
    }
    NoMovesOf(Openings(maze, c), 4);
  }

  /** With a walkable neighbour a random move plans exactly one step, onto
      a walkable neighbour. */
  lemma RandomPathMoves(maze: Maze, c: Pos, dir: Pos, preferForward: bool, pick: nat, path: seq<Pos>)
    requires maze.Valid()
    requires exists d :: 0 <= d < 4 && maze.IsWalkable(Step(c, d).x, Step(c, d).y)
    ensures |RandomPath(PossibleMoves(maze, c, 4), c, dir, preferForward, pick, path)| == 1
    ensures Adjacent(c, RandomPath(PossibleMoves(maze, c, 4), c, dir, preferForward, pick, path)[0])
    ensures var q := RandomPath(PossibleMoves(maze, c, 4), c, dir, preferForward, pick, path)[0]; maze.IsWalkable(q.x, q.y)
  {
    var d :| 0 <= d < 4 && maze.IsWalkable(Step(c, d).x, Step(c, d).y);
    PossibleMoveComplete(maze, c, 4, d);
    PossibleMovesWalkable(maze, c, 4);
    RandomPathOnto(maze, PossibleMoves(maze, c, 4), c, dir, preferForward, pick, path);
  }

  /** From a nonempty list of cardinal steps onto walkable cells, a random
      move plans one step onto a walkable neighbour. */
  lemma RandomPathOnto(maze: Maze, possible: seq<Pos>, c: Pos, dir: Pos, preferForward: bool, pick: nat, path: seq<Pos>)
    requires maze.Valid() && possible != []
    requires forall m :: m in possible ==> IsCardinalStep(m.x, m.y) && maze.IsWalkable(c.x + m.x, c.y + m.y)
    ensures |RandomPath(possible, c, dir, preferForward, pick, path)| == 1
    ensures Adjacent(c, RandomPath(possible, c, dir, preferForward, pick, path)[0])
    ensures var q := RandomPath(possible, c, dir, preferForward, pick, path)[0]; maze.IsWalkable(q.x, q.y)
  {
    var m := ChosenMove(possible, dir, preferForward, pick);
    var q := Pos(c.x + m.x, c.y + m.y);
    assert RandomPath(possible, c, dir, preferForward, pick, path) == [q];
    AdjacentIsCardinalStep(c, q);
  }

  /** When preferForward holds and some walkable neighbour does not lie
      behind the ghost, the random move does not turn back. */
  lemma RandomPathAvoidsReversal(maze: Maze, c: Pos, dir: Pos, pick: nat, path: seq<Pos>)
    requires maze.Valid()
    requires exists d :: 0 <= d < 4 && maze.IsWalkable(Step(c, d).x, Step(c, d).y) && Dir4(d) != Pos(-dir.x, -dir.y)
    ensures RandomPath(PossibleMoves(maze, c, 4), c, dir, true, pick, path) != [Pos(c.x - dir.x, c.y - dir.y)]
  {
    var possible := PossibleMoves(maze, c, 4);
    PossibleMovesWalkable(maze, c, 4);
    PossibleMovesComplete(maze, c, 4);
    var f :| 0 <= f < 4 && maze.IsWalkable(Step(c, f).x, Step(c, f).y) && Dir4(f) != Pos(-dir.x, -dir.y);
    assert Dir4(f) in possible;
    ForwardMovesSound(possible, dir);
    assert Dir4(f) in ForwardMoves(possible, dir);
  }

  /** The path update plans from a decision: towards the target, else a
      random step when one is due, else the old path. */
  function Plan(maze: Maze, me: Ghost, decision: Option<Target>, path: seq<Pos>,
                randomDue: bool, preferForward: bool, pick: nat): seq<Pos>
    reads maze, me, if decision.Some? && decision.value.GhostTarget? then {decision.value.prey} else {}
    requires maze.Valid()
  {
    match decision
    case Some(t) => Trim(AStarPath(maze, me.Cell(), TargetCell(t)), me.Cell())
    case None => if randomDue then RandomPath(PossibleMoves(maze, me.Cell(), 4), me.Cell(), me.direction, preferForward, pick, path) else path
  }

  /** A plan towards the decided target starts beside the ghost, is a walk
      over walkable cells and ends on the target; it is empty only when
      the ghost already stands on the target. */
  lemma PlanTowardsTarget(maze: Maze, me: Ghost, pacmans: seq<PacMan>, ghosts: seq<Ghost>, path: seq<Pos>,
                          randomDue: bool, preferForward: bool, pick: nat)
    requires maze.Valid()
    requires Decision(maze, me, pacmans, ghosts).Some?
    ensures var d := Decision(maze, me, pacmans, ghosts);
            var r := Plan(maze, me, d, path, randomDue, preferForward, pick);
            var t := TargetCell(d.value);
            && IsWalk(r)
            && (forall i :: 0 <= i < |r| ==> maze.IsWalkable(r[i].x, r[i].y))
            && (r == [] <==> me.Cell() == t)
            && (r != [] ==> Adjacent(me.Cell(), r[0]) && r[|r| - 1] == t)
  {
    DecisionIsNearest(maze, me, pacmans, ghosts);
    var d := Decision(maze, me, pacmans, ghosts);
    var cur := me.Cell();
    var t := TargetCell(d.value);
    var p := AStarPath(maze, cur, t);
    assert p != [];
    var r := Plan(maze, me, d, path, randomDue, preferForward, pick);
    assert r == p[1..];
    if |p| > 1 {
      assert Adjacent(p[0], p[1]);
      assert r[0] == p[1];
      forall i | 0 <= i < |r| - 1
        ensures Adjacent(r[i], r[i + 1])
      {
        assert Adjacent(p[i + 1], p[i + 2]);
      }
    } else {
      assert Heuristic(cur, t) <= |p| - 1;
    }
  }

  // ---------------------------------------------------------------------
  // Following
  // ---------------------------------------------------------------------

  /** The cell one normalised step from cell towards the head of path. */
  function NextCell(path: seq<Pos>, cell: Pos): Pos
    requires path != []
  {
    var s := UnitStep(path[0].x - cell.x, path[0].y - cell.y);
    Pos(cell.x + s.x, cell.y + s.y)
  }

  /** _follow_path moves the ghost: there is a next position, the step
      towards it is walkable, and the ghost is settled so that move
      succeeds. */
  predicate Advances(maze: Maze, path: seq<Pos>, cell: Pos, settled: bool)
    reads maze
    requires maze.Valid()
  {
    path != [] && settled && maze.IsWalkable(NextCell(path, cell).x, NextCell(path, cell).y)
  }

  /** The path after _follow_path: the rest of it when the ghost moved,
      cleared otherwise (an empty path stays empty). */
  function Followed(maze: Maze, path: seq<Pos>, cell: Pos, settled: bool): seq<Pos>
    reads maze
    requires maze.Valid()
  {
    if Advances(maze, path, cell, settled) then path[1..] else []
  }

  /** The step towards an adjacent cell lands on it. */
  lemma NextCellOfNeighbour(path: seq<Pos>, cell: Pos)
    requires path != [] && Adjacent(cell, path[0])
    ensures NextCell(path, cell) == path[0]
  {
    AdjacentIsCardinalStep(cell, path[0]);
  }

  /** Following a walk that starts beside the ghost keeps the ghost on it:
      after an advance onto a non-tunnel cell the ghost stands on the old
      head and the rest is again a walk starting beside it. */
  lemma FollowKeepsPlan(maze: Maze, path: seq<Pos>, cell: Pos)
    requires maze.Valid() && path != [] && IsWalk(path) && Adjacent(cell, path[0])
    requires Advances(maze, path, cell, true) && !IsTunnelCell(maze.size, path[0])
    ensures maze.WarpDestination(NextCell(path, cell).x, NextCell(path, cell).y) == path[0]
    ensures var rest := Followed(maze, path, cell, true);
            IsWalk(rest) && (rest != [] ==> Adjacent(path[0], rest[0]))
  {
    NextCellOfNeighbour(path, cell);
    var rest := path[1..];
    forall i | 0 <= i < |rest| - 1
      ensures Adjacent(rest[i], rest[i + 1])
    {
      assert Adjacent(path[i + 1], path[i + 2]);
    }
    if rest != [] {
      assert Adjacent(path[0], path[1]);
    }
  }

  // ---------------------------------------------------------------------
  // The controller
  // ---------------------------------------------------------------------

  class GhostAI {
    /** The ghost this controller drives. */
    const entity: Ghost
    const maze: Maze
    const pathfinder: AStar
    var currentPath: seq<Pos>
    var target: Option<Target>
    var lastDecisionTime: int
    const decisionInterval: int
    var lastRandomMoveTime: int
    const randomMoveInterval: int

    ghost predicate Valid()
      reads this, maze
    {
      && maze.Valid() && pathfinder.maze == maze
      && decisionInterval == AI_DECISION_TIME && randomMoveInterval == RANDOM_MOVE_INTERVAL
    }

    /** A controller with no path, no target and both clocks at 0. */
    constructor (entity: Ghost, maze: Maze)
      requires maze.Valid()
      ensures Valid() && this.entity == entity && this.maze == maze
      ensures currentPath == [] && target == None && lastDecisionTime == 0 && lastRandomMoveTime == 0
    {
      this.entity := entity;
      this.maze := maze;
      this.pathfinder := new AStar(maze);
      currentPath := [];
      target := None;
      lastDecisionTime := 0;
      decisionInterval := AI_DECISION_TIME;
      lastRandomMoveTime := 0;
      randomMoveInterval := RANDOM_MOVE_INTERVAL;
    }

    /** _has_line_of_sight: A* reaches end in at most one step more than
        the Manhattan distance. A grid walk's length has the parity of the
        Manhattan distance, so this holds exactly when the path found is a
        shortest one. */
    method HasLineOfSight(start: Pos, end: Pos) returns (r: bool)
      requires Valid()
      ensures r <==> var p := AStarPath(maze, start, end); p != [] && |p| - 1 == Manhattan(start, end)
      ensures r ==> maze.IsWalkable(start.x, start.y) && maze.IsWalkable(end.x, end.y)
    {
      var path := pathfinder.FindPath(start, end);
      if path == [] {
        return false;
      }
      var manhattanDistance := Abs(start.x - end.x) + Abs(start.y - end.y);
      var pathLength := |path| - 1;
      assert path[0] == start && path[|path| - 1] == end && IsWalk(path);
      assert maze.IsWalkable(path[0].x, path[0].y) && maze.IsWalkable(path[|path| - 1].x, path[|path| - 1].y);
      SightTolerance(path);
      return pathLength <= manhattanDistance + 1;
    }

    /** _follow_path: one step along the path, normalised to a single
        cardinal step with x first; the path loses its head when the ghost
        moves and is cleared when the step is blocked or the ghost is
        still moving. */
    method FollowPath()
      requires Valid()
      modifies this`currentPath
      modifies entity`gridX, entity`gridY, entity`targetX, entity`targetY, entity`settled, entity`direction
      ensures currentPath == Followed(maze, old(currentPath), old(entity.Cell()), old(entity.settled))
      ensures Advances(maze, old(currentPath), old(entity.Cell()), old(entity.settled)) ==>
                var next := NextCell(old(currentPath), old(entity.Cell()));
                && entity.Cell() == maze.WarpDestination(next.x, next.y)
                && entity.direction == Pos(next.x - old(entity.gridX), next.y - old(entity.gridY))
                && entity.targetX == entity.gridX * TILE_SIZE && entity.targetY == entity.gridY * TILE_SIZE
                && (entity.settled <==> entity.targetX == old(entity.targetX) && entity.targetY == old(entity.targetY))
      ensures !Advances(maze, old(currentPath), old(entity.Cell()), old(entity.settled)) ==> unchanged(entity)
    {
      if currentPath == [] {
        return;
      }
      var nextPos := currentPath[0];
      var dx := nextPos.x - entity.gridX;
      var dy := nextPos.y - entity.gridY;
      if dx != 0 && dy != 0 {
        dy := 0;
        dx := if dx > 0 then 1 else -1;
      } else {
        dx := if dx > 0 then 1 else if dx < 0 then -1 else 0;
        dy := if dy > 0 then 1 else if dy < 0 then -1 else 0;
      }
      assert Pos(dx, dy) == UnitStep(nextPos.x - entity.gridX, nextPos.y - entity.gridY);
      var newX := entity.gridX + dx;
      var newY := entity.gridY + dy;
      if !maze.IsWalkable(newX, newY) {
        currentPath := [];
        return;
      }
      var moved := entity.Move(dx, dy, maze);
      if moved {
        currentPath := currentPath[1..];
      } else {
        currentPath := [];
      }
    }

    /** _random_movement, with the two random draws as parameters. */
    method RandomMovement(preferForward: bool, pick: nat)
      requires Valid()
      modifies this`currentPath
      ensures currentPath == RandomPath(PossibleMoves(maze, entity.Cell(), 4), entity.Cell(), entity.direction, preferForward, pick, old(currentPath))
    {
      var cur := entity.Cell();
      var possibleMoves := GatherMoves(maze, cur);
      if possibleMoves != [] {
        var m := ChosenMove(possibleMoves, entity.direction, preferForward, pick);
        currentPath := [Pos(cur.x + m.x, cur.y + m.y)];
      }
    }

    /** The visible pickups, gathered as update does. */
    method ScanPickups(cur: Pos, pacmans: seq<PacMan>) returns (visible: seq<(PacMan, int)>)
      requires Valid()
      ensures visible == PickupCandidates(maze, cur, pacmans)
    {
      visible := [];
      for i := 0 to |pacmans|
        invariant visible == PickupCandidates(maze, cur, pacmans[..i])
      {
        assert pacmans[..i + 1][..i] == pacmans[..i];
        var pacman := pacmans[i];
        if !pacman.active {
          continue;
        }
        var distance := Manhattan(cur, pacman.Cell());
        if distance <= AI_VISION_RADIUS {
          var path := pathfinder.FindPath(cur, pacman.Cell());
          if |path| > 0 {
            visible := visible + [(pacman, distance)];
          }
        }
      }
      assert pacmans[..|pacmans|] == pacmans;
    }

    /** The visible weaker ghosts, gathered as update does. */
    method ScanGhosts(ghosts: seq<Ghost>) returns (visible: seq<(Ghost, int)>)
      requires Valid()
      ensures visible == GhostCandidates(maze, entity, ghosts)
    {
      visible := [];
      var cur := entity.Cell();
      for i := 0 to |ghosts|
        invariant visible == GhostCandidates(maze, entity, ghosts[..i])
      {
        assert ghosts[..i + 1][..i] == ghosts[..i];
        var other := ghosts[i];
        if other == entity || !other.alive || other.dying {
          continue;
        }
        var distance := Manhattan(cur, other.Cell());
        if distance <= AI_VISION_RADIUS {
          if other.level < entity.level {
            var path := pathfinder.FindPath(cur, other.Cell());
            if |path| > 0 {
              visible := visible + [(other, distance)];
            }
          }
        }
      }
      assert ghosts[..|ghosts|] == ghosts;
    }

    /** The target choice of update: the nearest visible pickup, else the
        nearest visible weaker ghost. */
    method ChooseTarget(pacmans: seq<PacMan>, ghosts: seq<Ghost>) returns (targetEntity: Option<Target>)
      requires Valid()
      ensures targetEntity == Decision(maze, entity, pacmans, ghosts)
    {
      var cur := entity.Cell();
      var visiblePacmans := ScanPickups(cur, pacmans);
      var visibleGhosts := ScanGhosts(ghosts);
      targetEntity := None;
      if visiblePacmans != [] {
        targetEntity := Some(PacManTarget(visiblePacmans[Nearest(visiblePacmans)].0));
      } else if visibleGhosts != [] {
        targetEntity := Some(GhostTarget(visibleGhosts[Nearest(visibleGhosts)].0));
      }
    }

    /** The decision part of update: choose a target and plan a path to
        it, or wander when a random move is due. */
    method Decide(pacmans: seq<PacMan>, ghosts: seq<Ghost>, now: int, preferForward: bool, pick: nat)
      requires Valid()
      modifies this`currentPath, this`target, this`lastRandomMoveTime
      ensures var t := old(Decision(maze, entity, pacmans, ghosts));
              && target == (if t.Some? then t else old(target))
              && lastRandomMoveTime ==
                   (if t.None? && now - old(lastRandomMoveTime) >= randomMoveInterval then now
                    else old(lastRandomMoveTime))
      ensures currentPath == old(Plan(maze, entity, Decision(maze, entity, pacmans, ghosts), currentPath,
                                      now - lastRandomMoveTime >= randomMoveInterval, preferForward, pick))
    {
      ghost var decision := Decision(maze, entity, pacmans, ghosts);
      ghost var plan := Plan(maze, entity, decision, currentPath,
                             now - lastRandomMoveTime >= randomMoveInterval, preferForward, pick);
      var cur := entity.Cell();
      var targetEntity := ChooseTarget(pacmans, ghosts);
      if targetEntity.Some? {
        var targetPos := TargetCell(targetEntity.value);
        var path := pathfinder.FindPath(cur, targetPos);
        if |path| > 0 && path[0] == cur {
          path := path[1..];
        }
        assert path == plan;
        target := targetEntity;
        currentPath := path;
      } else {
        if now - lastRandomMoveTime >= randomMoveInterval {
          RandomMovement(preferForward, pick);
          lastRandomMoveTime := now;
        }
      }
      assert currentPath == plan;
    }

    /** The path update hands to _follow_path: the current one between
        decisions, the planned one at a decision. */
    function Intended(pacmans: seq<PacMan>, ghosts: seq<Ghost>, now: int, preferForward: bool, pick: nat): seq<Pos>
      reads this, maze, entity, set g | g in ghosts
      requires Valid()
    {
      if now - lastDecisionTime < decisionInterval then currentPath
      else Plan(maze, entity, Decision(maze, entity, pacmans, ghosts), currentPath,
                now - lastRandomMoveTime >= randomMoveInterval, preferForward, pick)
    }

    /** update, with the clock reading now and the random draws as
        parameters: a decision at most every decisionInterval, then one
        step along the intended path. */
    method Update(pacmans: seq<PacMan>, ghosts: seq<Ghost>, now: int, preferForward: bool, pick: nat)
      requires Valid()
      modifies this`currentPath, this`target, this`lastDecisionTime, this`lastRandomMoveTime
      modifies entity`gridX, entity`gridY, entity`targetX, entity`targetY, entity`settled, entity`direction
      ensures var due := now - old(lastDecisionTime) >= decisionInterval;
              var t := old(Decision(maze, entity, pacmans, ghosts));
              && lastDecisionTime == (if due then now else old(lastDecisionTime))
              && target == (if due && t.Some? then t else old(target))
              && lastRandomMoveTime ==
                   (if due && t.None? && now - old(lastRandomMoveTime) >= randomMoveInterval then now
                    else old(lastRandomMoveTime))
      ensures currentPath == Followed(maze, old(Intended(pacmans, ghosts, now, preferForward, pick)),
                                      old(entity.Cell()), old(entity.settled))
      ensures var path := old(Intended(pacmans, ghosts, now, preferForward, pick));
              Advances(maze, path, old(entity.Cell()), old(entity.settled)) ==>
                var next := NextCell(path, old(entity.Cell()));
                && entity.Cell() == maze.WarpDestination(next.x, next.y)
                && entity.direction == Pos(next.x - old(entity.gridX), next.y - old(entity.gridY))
                && entity.targetX == entity.gridX * TILE_SIZE && entity.targetY == entity.gridY * TILE_SIZE
                && (entity.settled <==> entity.targetX == old(entity.targetX) && entity.targetY == old(entity.targetY))
      ensures var path := old(Intended(pacmans, ghosts, now, preferForward, pick));
              !Advances(maze, path, old(entity.Cell()), old(entity.settled)) ==> unchanged(entity)
    {
      ghost var intended := Intended(pacmans, ghosts, now, preferForward, pick);
      if now - lastDecisionTime < decisionInterval {
        FollowPath();
        return;
      }
      lastDecisionTime := now;
      Decide(pacmans, ghosts, now, preferForward, pick);
      assert currentPath == intended;
      FollowPath();
    }
  }

  /** On a grid walk, one step more than the Manhattan distance is never
      possible, so the tolerance of _has_line_of_sight admits exactly the
      shortest walks. */
  lemma SightTolerance(w: seq<Pos>)
    requires w != [] && IsWalk(w)
    ensures |w| - 1 <= Manhattan(w[0], w[|w| - 1]) + 1 <==> |w| - 1 == Manhattan(w[0], w[|w| - 1])
  {
    WalkParity(w);
  }

  /** On a grid walk, the number of steps has the parity of the Manhattan
      distance between its ends. */
  lemma {:induction false} WalkParity(w: seq<Pos>)
    requires w != [] && IsWalk(w)
    ensures (|w| - 1 + Manhattan(w[0], w[|w| - 1])) % 2 == 0
    ensures |w| - 1 >= Manhattan(w[0], w[|w| - 1])
  {
    if |w| > 1 {
      var v := w[..|w| - 1];
      assert IsWalk(v) by {
        forall i | 0 <= i < |v| - 1
          ensures Adjacent(v[i], v[i + 1])
        {
          assert Adjacent(w[i], w[i + 1]);
        }
      }
      WalkParity(v);
      assert Adjacent(w[|w| - 2], w[|w| - 1]);
      var a, b := Manhattan(w[0], w[|w| - 2]), Manhattan(w[0], w[|w| - 1]);
      assert b == a + 1 || b == a - 1;
    }
  }
}
