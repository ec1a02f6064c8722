/** The pickup entity (game/entities/pacman.py): only its cell and whether
    it is still active matter to the game rules. */
module PacMans {
  import opened Grid

  datatype PacMan = PacMan(gridX: int, gridY: int, active: bool)
  {
    function Cell(): Pos
    {
      Pos(gridX, gridY)
    }
  }

  /** A new pickup at (x, y) is active. */
  function NewPacMan(x: int, y: int): (p: PacMan)
    ensures p.Cell() == Pos(x, y) && p.active
  {
    PacMan(x, y, true)
  }

  /** collect: the pickup becomes inactive and stays where it is. */
  function Collect(p: PacMan): (q: PacMan)
    ensures !q.active && q.Cell() == p.Cell()
  {
    p.(active := false)
  }
}
