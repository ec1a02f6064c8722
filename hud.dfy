/** The pickup spawn counter (class PacManTimer of game/ui/hud.py): an
    accumulating timer that fires every spawn_time milliseconds and a count
    of pickups on the board bounded by max_pacmans. */
module Hud {
  import opened Grid

  class PacManTimer {
    const spawnTime: int
    const maxPacmans: int
    var timer: int
    var pacmanCount: int

    /** The timer stays below spawnTime and the count within [0, maxPacmans]. */
    ghost predicate Valid()
      reads this
    {
      spawnTime == PACMAN_SPAWN_TIME && maxPacmans == MAX_PACMANS
      && 0 <= timer < spawnTime && 0 <= pacmanCount <= maxPacmans
    }

    constructor ()
      ensures Valid() && timer == 0 && pacmanCount == 0
    {
      spawnTime := PACMAN_SPAWN_TIME;
      maxPacmans := MAX_PACMANS;
      timer := 0;
      pacmanCount := 0;
    }

    /** update: adds dt; fires and restarts from 0 exactly when the sum
        reaches spawnTime. For dt >= 0 the timer stays in [0, spawnTime). */
    method Update(dt: int) returns (fired: bool)
      modifies this`timer
      ensures fired <==> old(timer) + dt >= spawnTime
      ensures timer == if fired then 0 else old(timer) + dt
      ensures old(Valid()) && dt >= 0 ==> Valid()
    {
      timer := timer + dt;
      if timer >= spawnTime {
        timer := 0;
        return true;
      }
      return false;
    }

    /** increment_count: succeeds, adding one, exactly when below the cap. */
    method IncrementCount() returns (ok: bool)
      modifies this`pacmanCount
      ensures ok <==> old(pacmanCount) < maxPacmans
      ensures pacmanCount == if ok then old(pacmanCount) + 1 else old(pacmanCount)
      ensures old(Valid()) ==> Valid()
    {
      if pacmanCount < maxPacmans {
        pacmanCount := pacmanCount + 1;
        return true;
      }
      return false;
    }

    /** decrement_count: succeeds, subtracting one, exactly when above 0. */
    method DecrementCount() returns (ok: bool)
      modifies this`pacmanCount
      ensures ok <==> old(pacmanCount) > 0
      ensures pacmanCount == if ok then old(pacmanCount) - 1 else old(pacmanCount)
      ensures old(Valid()) ==> Valid()
    {
      if pacmanCount > 0 {
        pacmanCount := pacmanCount - 1;
        return true;
      }
      return false;
    }
  }

  /** The count after k decrements from c: decrement_count floors at 0. */
  function CountAfterDecrements(c: int, k: nat): (r: int)
    requires c >= 0
    ensures r >= 0 && r <= c
    ensures r == if c >= k then c - k else 0
  {
    if k == 0 || c == 0 then c else CountAfterDecrements(c - 1, k - 1)
  }
}
