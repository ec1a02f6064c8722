/** The maze grid as a value: an N x N sequence of rows, indexed grid[y][x],
    whose cells hold WALL (0), PATH (1) or TUNNEL (2) (game/maze.py). */
module MazeGrid {
  import opened Grid

  type Cells = seq<seq<int>>

  /** The grid is square with side n. */
  ghost predicate WellFormed(g: Cells, n: int)
  {
    |g| == n && forall y :: 0 <= y < n ==> |g[y]| == n
  }

  predicate InBounds(p: Pos, n: int)
  {
    0 <= p.x < n && 0 <= p.y < n
  }

  /** Interior cells: indices 1 .. n-2 on both axes. */
  predicate Interior(p: Pos, n: int)
  {
    1 <= p.x <= n - 2 && 1 <= p.y <= n - 2
  }

  function At(g: Cells, p: Pos): int
    requires 0 <= p.y < |g| && 0 <= p.x < |g[p.y]|
  {
    g[p.y][p.x]
  }

  /** The grid with cell p replaced by v. */
  function Set(g: Cells, p: Pos, v: int): (r: Cells)
    requires 0 <= p.y < |g| && 0 <= p.x < |g[p.y]|
    ensures |r| == |g| && forall y :: 0 <= y < |g| ==> |r[y]| == |g[y]|
    ensures r[p.y][p.x] == v
    ensures forall y, x :: 0 <= y < |g| && 0 <= x < |g[y]| && (y != p.y || x != p.x) ==> r[y][x] == g[y][x]
  {
    g[p.y := g[p.y][p.x := v]]
  }

  /** Every cell is a wall or a path (no tunnel yet): the state during generation. */
  ghost predicate Binary(g: Cells, n: int)
    requires WellFormed(g, n)
  {
    forall y, x :: 0 <= y < n && 0 <= x < n ==> g[y][x] == WALL || g[y][x] == PATH
  }

  /** The n x n grid with every cell a wall. */
  function AllWalls(n: nat): (g: Cells)
    ensures WellFormed(g, n) && Binary(g, n)
    ensures forall y, x :: 0 <= y < n && 0 <= x < n ==> g[y][x] == WALL
  {
    seq(n, _ => seq(n, _ => WALL))
  }

  /** All in-bounds positions. */
  ghost function AllCells(n: int): set<Pos>
  {
    set x, y | 0 <= x < n && 0 <= y < n :: Pos(x, y)
  }

  lemma InAllCells(p: Pos, n: int)
    requires InBounds(p, n)
    ensures p in AllCells(n)
  {
    assert p == Pos(p.x, p.y);
  }

  /** Adding an in-bounds cell p to a set that lacked it shrinks the set of
      cells still outside it. */
  lemma FewerOutside(n: int, ks: set<Pos>, ks': set<Pos>, p: Pos)
    requires InBounds(p, n) && p !in ks && p in ks' && ks <= ks'
    ensures AllCells(n) - ks' < AllCells(n) - ks
  {
    InAllCells(p, n);
    assert p in AllCells(n) - ks && p !in AllCells(n) - ks';
  }

  // ---------------------------------------------------------------- counting

  /** Number of entries of row r equal to v (Python's row.count(v)). */
  function RowCount(r: seq<int>, v: int): (c: nat)
    ensures c <= |r|
  {
    if r == [] then 0 else (if r[0] == v then 1 else 0) + RowCount(r[1..], v)
  }

  /** Number of cells of g equal to v (sum(row.count(v) for row in g)). */
  function Count(g: Cells, v: int): nat
  {
    if g == [] then 0 else RowCount(g[0], v) + Count(g[1..], v)
  }

  /** Number of walkable cells (value > 0) in a row. */
  function RowWalkable(r: seq<int>): nat
  {
    if r == [] then 0 else (if r[0] > 0 then 1 else 0) + RowWalkable(r[1..])
  }

  /** Number of walkable cells (path or tunnel) in the grid. */
  function CountWalkable(g: Cells): nat
  {
    if g == [] then 0 else RowWalkable(g[0]) + CountWalkable(g[1..])
  }

  lemma {:induction false} RowCountUpdate(r: seq<int>, i: int, v: int, w: int)
    requires 0 <= i < |r|
    ensures RowCount(r[i := w], v)
         == RowCount(r, v) - (if r[i] == v then 1 else 0) + (if w == v then 1 else 0)
  {
    if i > 0 {
      assert r[i := w][1..] == r[1..][i - 1 := w];
      RowCountUpdate(r[1..], i - 1, v, w);
    } else {
      assert r[i := w][1..] == r[1..];
    }
  }

  /** Replacing one cell changes the count of v by the indicator difference. */
  lemma {:induction false} CountUpdate(g: Cells, p: Pos, v: int, w: int)
    requires 0 <= p.y < |g| && 0 <= p.x < |g[p.y]|
    ensures Count(Set(g, p, w), v)
         == Count(g, v) - (if At(g, p) == v then 1 else 0) + (if w == v then 1 else 0)
  {
    var g' := Set(g, p, w);
    if p.y > 0 {
      assert g'[1..] == Set(g[1..], Pos(p.x, p.y - 1), w);
      CountUpdate(g[1..], Pos(p.x, p.y - 1), v, w);
    } else {
      assert g'[1..] == g[1..];
      RowCountUpdate(g[0], p.x, v, w);
    }
  }

  /** A row whose entries lo .. hi-1 all equal v counts at least hi - lo of them. */
  lemma {:induction false} RowCountLower(r: seq<int>, v: int, lo: int, hi: int)
    requires 0 <= lo <= hi <= |r|
    requires forall i :: lo <= i < hi ==> r[i] == v
    ensures RowCount(r, v) >= hi - lo
  {
    if lo < hi {
      if lo > 0 {
        RowCountLower(r[1..], v, lo - 1, hi - 1);
      } else {
        RowCountLower(r[1..], v, 0, hi - 1);
      }
    }
  }

  /** k added up over m rows. */
  function RowsOf(m: nat, k: nat): nat
  {
    if m == 0 then 0 else k + RowsOf(m - 1, k)
  }

  lemma {:induction false} RowsOfProduct(m: nat, k: nat)
    ensures RowsOf(m, k) == m * k
  {
    if m > 0 {
      RowsOfProduct(m - 1, k);
      assert m * k == k + (m - 1) * k;
    }
  }

  /** Rows lo .. hi-1 each counting at least k give a total of at least
      k for each of them. */
  lemma {:induction false} CountLower(g: Cells, v: int, lo: int, hi: int, k: nat)
    requires 0 <= lo <= hi <= |g|
    requires forall y :: lo <= y < hi ==> RowCount(g[y], v) >= k
    ensures Count(g, v) >= RowsOf(hi - lo, k)
  {
    if lo < hi {
      if lo > 0 {
        CountLower(g[1..], v, lo - 1, hi - 1, k);
      } else {
        CountLower(g[1..], v, 0, hi - 1, k);
      }
    }
  }

  /** When every interior cell is a path, at least (n-2)^2 cells are paths. */
  lemma InteriorFullCount(g: Cells, n: int)
    requires n >= 2 && WellFormed(g, n)
    requires forall y, x :: 1 <= y <= n - 2 && 1 <= x <= n - 2 ==> g[y][x] == PATH
    ensures Count(g, PATH) >= (n - 2) * (n - 2)
  {
    forall y | 1 <= y < n - 1
      ensures RowCount(g[y], PATH) >= n - 2
    {
      RowCountLower(g[y], PATH, 1, n - 1);
    }
    CountLower(g, PATH, 1, n - 1, n - 2);
    RowsOfProduct(n - 2, n - 2);
  }

  lemma {:induction false} RowWalkableCovers(r: seq<int>, r': seq<int>)
    requires |r| == |r'|
    requires forall i :: 0 <= i < |r| && r[i] == PATH ==> r'[i] > 0
    ensures RowWalkable(r') >= RowCount(r, PATH)
  {
    if r != [] {
      RowWalkableCovers(r[1..], r'[1..]);
    }
  }

  /** If every path cell of g is walkable in g' (a grid of the same shape),
      g' has at least as many walkable cells as g has path cells. */
  lemma {:induction false} WalkableCovers(g: Cells, g': Cells)
    requires |g| == |g'| && forall y :: 0 <= y < |g| ==> |g[y]| == |g'[y]|
    requires forall y, x :: 0 <= y < |g| && 0 <= x < |g[y]| && g[y][x] == PATH ==> g'[y][x] > 0
    ensures CountWalkable(g') >= Count(g, PATH)
  {
    if g != [] {
      RowWalkableCovers(g[0], g'[0]);
      WalkableCovers(g[1..], g'[1..]);
    }
  }

  /** Pigeonhole: a square grid with more path cells than there are
      positions in occ has a path cell that is not in occ. */
  lemma {:induction false} FreePathCell(g: Cells, n: int, occ: seq<Pos>)
    requires WellFormed(g, n) && Count(g, PATH) > |occ|
    ensures exists y, x :: 0 <= y < n && 0 <= x < n && g[y][x] == PATH && Pos(x, y) !in occ
    decreases |occ|
  {
    if occ == [] {
      CountPositive(g, n);
    } else {
      var p := occ[|occ| - 1];
      var front := occ[..|occ| - 1];
      assert occ == front + [p];
      if InBounds(p, n) && g[p.y][p.x] == PATH {
        var g' := Set(g, p, WALL);
        CountUpdate(g, p, PATH, WALL);
        FreePathCell(g', n, front);
        var y, x :| 0 <= y < n && 0 <= x < n && g'[y][x] == PATH && Pos(x, y) !in front;
        assert Pos(x, y) != p;
      } else {
        FreePathCell(g, n, front);
        var y, x :| 0 <= y < n && 0 <= x < n && g[y][x] == PATH && Pos(x, y) !in front;
        assert Pos(x, y) != p;
      }
    }
  }

  /** A grid with a positive count of path cells has one. */
  lemma {:induction false} CountPositive(g: Cells, n: int)
    requires WellFormed(g, n) && Count(g, PATH) > 0
    ensures exists y, x :: 0 <= y < n && 0 <= x < n && g[y][x] == PATH
  {
    var y := RowWithPath(g);
    var x := RowPathIndex(g[y]);
  }

  lemma {:induction false} RowWithPath(g: Cells) returns (y: int)
    requires Count(g, PATH) > 0
    ensures 0 <= y < |g| && RowCount(g[y], PATH) > 0
  {
    if RowCount(g[0], PATH) > 0 {
      y := 0;
    } else {
      var y' := RowWithPath(g[1..]);
      y := y' + 1;
    }
  }

  lemma {:induction false} RowPathIndex(r: seq<int>) returns (x: int)
    requires RowCount(r, PATH) > 0
    ensures 0 <= x < |r| && r[x] == PATH
  {
    if r[0] == PATH {
      x := 0;
    } else {
      var x' := RowPathIndex(r[1..]);
      x := x' + 1;
    }
  }
}
