/** The ghost entity (game/entities/ghost.py): its grid cell, movement
    target, direction, level and life flags. The pixel position is
    abstracted to one flag, settled, which holds when the pixel position
    equals the target pixel position. */
module Ghosts {
  import opened Grid
  import opened MazeGrid
  import opened Mazes
  import opened PacMans

  /** An RGB colour. */
  datatype Rgb = Rgb(r: int, g: int, b: int)

  predicate IsChannel(c: int)
  {
    0 <= c <= 255
  }

  predicate IsColour(c: Rgb)
  {
    IsChannel(c.r) && IsChannel(c.g) && IsChannel(c.b)
  }

  /** One channel raised by 50, capped at 255. */
  function LightenChannel(c: int): (l: int)
    requires IsChannel(c)
    ensures IsChannel(l) && c <= l <= c + 50
    ensures l == c + 50 || l == 255
  {
    if c + 50 < 255 then c + 50 else 255
  }

  /** One channel lowered by 50, floored at 0. */
  function DarkenChannel(c: int): (d: int)
    requires IsChannel(c)
    ensures IsChannel(d) && c - 50 <= d <= c
    ensures d == c - 50 || d == 0
  {
    if c - 50 > 0 then c - 50 else 0
  }

  /** _lighten_color: the highlight colour, channel by channel. */
  function LightenColour(c: Rgb): (l: Rgb)
    requires IsColour(c)
    ensures IsColour(l) && c.r <= l.r && c.g <= l.g && c.b <= l.b
  {
    Rgb(LightenChannel(c.r), LightenChannel(c.g), LightenChannel(c.b))
  }

  /** _darken_color: the shadow colour, channel by channel. */
  function DarkenColour(c: Rgb): (d: Rgb)
    requires IsColour(c)
    ensures IsColour(d) && d.r <= c.r && d.g <= c.g && d.b <= c.b
  {
    Rgb(DarkenChannel(c.r), DarkenChannel(c.g), DarkenChannel(c.b))
  }

  /** Darkening undoes lightening on channels that were not capped, and
      lightening undoes darkening on channels that were not floored. */
  lemma ShadeRoundTrip(c: Rgb)
    requires IsColour(c)
    ensures c.r <= 205 && c.g <= 205 && c.b <= 205 ==> DarkenColour(LightenColour(c)) == c
    ensures c.r >= 50 && c.g >= 50 && c.b >= 50 ==> LightenColour(DarkenColour(c)) == c
  {
  }

  class Ghost {
    var gridX: int
    var gridY: int
    /** Target pixel position: the grid cell times TILE_SIZE. */
    var targetX: int
    var targetY: int
    /** The pixel position has reached the target. */
    var settled: bool
    /** Last step taken, (0, 0) before the first. */
    var direction: Pos
    var level: int
    var alive: bool
    var dying: bool
    const isPlayer: bool
    const colour: Rgb

    /** A new ghost at cell (x, y): level 1, alive, not dying, not moving,
        its pixel position on its target. */
    constructor (x: int, y: int, colour: Rgb, isPlayer: bool)
      ensures gridX == x && gridY == y
      ensures targetX == x * TILE_SIZE && targetY == y * TILE_SIZE && settled
      ensures level == 1 && alive && !dying && direction == Pos(0, 0)
      ensures this.colour == colour && this.isPlayer == isPlayer
    {
      gridX, gridY := x, y;
      targetX, targetY := x * TILE_SIZE, y * TILE_SIZE;
      settled := true;
      this.colour := colour;
      this.isPlayer := isPlayer;
      level := 1;
      direction := Pos(0, 0);
      alive, dying := true, false;
    }

    function Cell(): Pos
      reads this
    {
      Pos(gridX, gridY)
    }

    /** In play: alive and not dying. */
    predicate Live()
      reads this
    {
      alive && !dying
    }

    /** level_up: one level more; the speed that follows from the level is
        not modelled. */
    method LevelUp()
      modifies this`level
      ensures level == old(level) + 1
    {
      level := level + 1;
    }

    /** start_death: the ghost is dying (the blink timing is not modelled). */
    method StartDeath()
      modifies this`dying
      ensures dying
    {
      dying := true;
    }

    /** move: only a settled ghost moves; the request is reduced to one
        cardinal step (or none), which must land on a walkable cell; the
        ghost then goes there, through a tunnel if it is one, and its
        pixel position stays behind until update catches up. */
    method Move(dx: int, dy: int, maze: Maze) returns (moved: bool)
      requires maze.Valid()
      modifies this`gridX, this`gridY, this`targetX, this`targetY, this`settled, this`direction
      ensures var s := UnitStep(dx, dy);
              moved <==> old(settled) && maze.IsWalkable(old(gridX) + s.x, old(gridY) + s.y)
      ensures !moved ==> unchanged(this)
      ensures moved ==> var s := UnitStep(dx, dy);
              && direction == s
              && Cell() == maze.WarpDestination(old(gridX) + s.x, old(gridY) + s.y)
              && targetX == gridX * TILE_SIZE && targetY == gridY * TILE_SIZE
              && (settled <==> targetX == old(targetX) && targetY == old(targetY))
      ensures moved && maze.HasTunnels() ==> maze.IsWalkable(gridX, gridY)
    {
      if settled {
        var step := UnitStep(dx, dy);
        var newX := gridX + step.x;
        var newY := gridY + step.y;
        if !maze.IsWalkable(newX, newY) {
          return false;
        }
        direction := step;
        var w := maze.WarpDestination(newX, newY);
        gridX, gridY := w.x, w.y;
        var oldTargetX, oldTargetY := targetX, targetY;
        targetX, targetY := gridX * TILE_SIZE, gridY * TILE_SIZE;
        settled := targetX == oldTargetX && targetY == oldTargetY;
        if maze.HasTunnels() {
          maze.WarpKeepsWalkable(newX, newY);
        }
        return true;
      }
      return false;
    }

    /** update, with the clock and the pixel interpolation as parameters:
        arrived says whether this frame brings the pixel position onto
        the target, deathOver whether the death animation has run its
        time. A dead ghost does nothing; a dying one only dies when its
        time is up; a live one may arrive. */
    method Update(arrived: bool, deathOver: bool)
      modifies this`settled, this`alive
      ensures !old(alive) ==> unchanged(this)
      ensures old(alive) && dying ==> settled == old(settled) && (alive <==> !deathOver)
      ensures old(alive) && !dying ==> alive && (settled <==> old(settled) || arrived)
    {
      if !alive {
        return;
      }
      if dying {
        if deathOver {
          alive := false;
        }
        return;
      }
      if !settled && arrived {
        settled := true;
      }
    }

    /** collides_with: same grid cell. */
    predicate CollidesWith(other: Ghost)
      reads this, other
    {
      gridX == other.gridX && gridY == other.gridY
    }

    /** collides_with applied to a pickup. */
    predicate CollidesWithPacMan(p: PacMan)
      reads this
    {
      gridX == p.gridX && gridY == p.gridY
    }

    /** Collision is exactly sharing a cell, hence reflexive and symmetric. */
    lemma CollisionIsSharingACell(other: Ghost)
      ensures CollidesWith(other) <==> Cell() == other.Cell()
      ensures CollidesWith(this)
      ensures CollidesWith(other) <==> other.CollidesWith(this)
    {
    }
  }
}
