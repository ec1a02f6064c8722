/** Grid positions, the Manhattan metric and the game's configuration
    constants (game/constants.py). */
module Grid {

  /** A grid position (x, y); x is the column and y the row. */
  datatype Pos = Pos(x: int, y: int)

  datatype Option<T> = None | Some(value: T)

  /** The four unit steps in the order the source scans them:
      (0, 1), (1, 0), (0, -1), (-1, 0). */
  function Dir4(d: int): Pos
    requires 0 <= d < 4
  {
    if d == 0 then Pos(0, 1) else if d == 1 then Pos(1, 0) else if d == 2 then Pos(0, -1) else Pos(-1, 0)
  }

  /** The neighbour of p in direction d. */
  function Step(p: Pos, d: int): (q: Pos)
    requires 0 <= d < 4
    ensures Adjacent(p, q)
  {
    Pos(p.x + Dir4(d).x, p.y + Dir4(d).y)
  }

  const TILE_SIZE: int := 32
  const MIN_MAZE_SIZE: int := 25
  const MAX_MAZE_SIZE: int := 35
  const AI_DECISION_TIME: int := 200
  const AI_VISION_RADIUS: int := 8
  const PACMAN_SPAWN_TIME: int := 7000
  const MAX_PACMANS: int := 4
  /** Path cells every generated maze has at least: 60% of the smallest
      side's square, less the four tunnels. */
  const MIN_PATH_CELLS: int := 371

  /** Cell kinds of the maze grid. */
  const WALL: int := 0
  const PATH: int := 1
  const TUNNEL: int := 2

  /** Game states. */
  const STATE_MENU: int := 0
  const STATE_PLAYING: int := 1
  const STATE_SPECTATING: int := 2
  const STATE_GAME_OVER: int := 3

  function Abs(v: int): (r: int)
    ensures r >= 0 && (r == v || r == -v)
  {
    if v < 0 then -v else v
  }

  /** Manhattan distance: the A* heuristic and the AI's perception metric. */
  function Manhattan(a: Pos, b: Pos): int
  {
    Abs(a.x - b.x) + Abs(a.y - b.y)
  }

  /** The Manhattan distance is a metric on positions. */
  lemma ManhattanIsMetric(a: Pos, b: Pos, c: Pos)
    ensures Manhattan(a, b) >= 0
    ensures Manhattan(a, b) == Manhattan(b, a)
    ensures Manhattan(a, b) == 0 <==> a == b
    ensures Manhattan(a, c) <= Manhattan(a, b) + Manhattan(b, c)
  {
  }

  /** Two positions one cardinal step apart. */
  predicate Adjacent(a: Pos, b: Pos)
  {
    Manhattan(a, b) == 1
  }

  /** The four cardinal unit steps. */
  predicate IsCardinalStep(dx: int, dy: int)
  {
    (dx == 0 && (dy == 1 || dy == -1)) || (dy == 0 && (dx == 1 || dx == -1))
  }

  lemma AdjacentIsCardinalStep(a: Pos, b: Pos)
    ensures Adjacent(a, b) <==> IsCardinalStep(b.x - a.x, b.y - a.y)
  {
  }

  /** A walk: consecutive positions are one cardinal step apart. */
  ghost predicate IsWalk(path: seq<Pos>)
  {
    forall i :: 0 <= i < |path| - 1 ==> Adjacent(path[i], path[i + 1])
  }

  /** Clamp of v to [lo, hi], as max(lo, min(hi, v)). */
  function Clamp(v: int, lo: int, hi: int): (r: int)
    requires lo <= hi
    ensures lo <= r <= hi
    ensures lo <= v <= hi ==> r == v
    ensures v < lo ==> r == lo
    ensures v > hi ==> r == hi
  {
    if v < lo then lo else if v > hi then hi else v
  }

  /** The single-cell step both Ghost.move and the AI's path following
      take towards (dx, dy): each axis clamped to [-1, 1], and y dropped
      when both axes move. */
  function UnitStep(dx: int, dy: int): (s: Pos)
    ensures s.x == Sign(dx)
    ensures s.y == if dx != 0 then 0 else Sign(dy)
    ensures s == Pos(0, 0) || IsCardinalStep(s.x, s.y)
  {
    var cx := Clamp(dx, -1, 1);
    var cy := Clamp(dy, -1, 1);
    if cx != 0 && cy != 0 then Pos(cx, 0) else Pos(cx, cy)
  }

  /** Sign of v: -1, 0 or 1. */
  function Sign(v: int): (r: int)
    ensures r == 0 <==> v == 0
    ensures r == 1 <==> v > 0
    ensures r == -1 <==> v < 0
  {
    if v > 0 then 1 else if v < 0 then -1 else 0
  }
}
