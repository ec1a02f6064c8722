/** The game rules of game/game.py: collision resolution, the end-of-tick
    state transitions, the pickup spawn step and the placement of a new
    game. The two collision passes are specified on value snapshots of the
    ghosts (GhostView) and the pickups; Game.CheckCollisions runs them on
    the ghost objects and is proved to agree with that specification. */
module Games {
  import opened Grid
  import opened MazeGrid
  import opened Mazes
  import opened PacMans
  import opened Ghosts
  import opened GhostAIs
  import opened Hud

  /** The player's colour. */
  const BLUE: Rgb := Rgb(0, 0, 255)
  /** AI ghosts placed by a new game, besides the player. */
  const AI_GHOSTS: int := 9

  // ------------------------------------------------------------ snapshots

  /** What collision resolution reads and writes of a ghost. */
  datatype GhostView = GhostView(cell: Pos, level: int, alive: bool, dying: bool)

  /** Alive and not dying: the test both collision loops and the game-over
      count apply. */
  predicate InPlay(v: GhostView)
  {
    v.alive && !v.dying
  }

  function View(g: Ghost): GhostView
    reads g
  {
    GhostView(g.Cell(), g.level, g.alive, g.dying)
  }

  function Views(gs: seq<Ghost>): (vs: seq<GhostView>)
    reads set g | g in gs
    ensures |vs| == |gs| && forall k {:trigger vs[k]} :: 0 <= k < |gs| ==> vs[k] == View(gs[k])
  {
    if gs == [] then [] else Views(gs[..|gs| - 1]) + [View(gs[|gs| - 1])]
  }

  /** The board the pickup pass works on: ghosts, pickups and the spawn
      count of the pickup timer. */
  datatype Board = Board(ghosts: seq<GhostView>, pickups: seq<PacMan>, count: int)

  /** ws comes from vs by raising levels only. */
  predicate LevelsRaised(vs: seq<GhostView>, ws: seq<GhostView>)
  {
    && |ws| == |vs|
    && forall k :: 0 <= k < |vs| ==>
         ws[k].cell == vs[k].cell && ws[k].alive == vs[k].alive
         && ws[k].dying == vs[k].dying && ws[k].level >= vs[k].level
  }

  /** qs comes from ps by collecting some pickups. */
  predicate Collected(ps: seq<PacMan>, qs: seq<PacMan>)
  {
    |qs| == |ps| && forall j :: 0 <= j < |ps| ==> qs[j] == ps[j] || qs[j] == Collect(ps[j])
  }

  // ------------------------------------------------------- the pickup pass

  /** One inner iteration of the pickup pass: ghost i eats pickup j when the
      pickup is active and on the ghost's cell; the ghost gains a level and
      the spawn count goes down by one unless it is already 0. */
  function Eat(b: Board, i: nat, j: nat): Board
    requires i < |b.ghosts| && j < |b.pickups|
  {
    var p := b.pickups[j];
    var g := b.ghosts[i];
    if p.active && p.Cell() == g.cell then
      Board(b.ghosts[i := g.(level := g.level + 1)], b.pickups[j := Collect(p)],
            if b.count > 0 then b.count - 1 else b.count)
    else b
  }

  /** The inner loop for ghost i, from pickup j to the end. */
  function EatFrom(b: Board, i: nat, j: nat): (r: Board)
    requires i < |b.ghosts| && j <= |b.pickups|
    ensures |r.ghosts| == |b.ghosts| && |r.pickups| == |b.pickups|
    decreases |b.pickups| - j
  {
    if j == |b.pickups| then b else EatFrom(Eat(b, i, j), i, j + 1)
  }

  /** The outer loop from ghost i to the end; ghosts not in play are skipped. */
  function PickupsFrom(b: Board, i: nat): (r: Board)
    requires i <= |b.ghosts|
    ensures |r.ghosts| == |b.ghosts| && |r.pickups| == |b.pickups|
    decreases |b.ghosts| - i
  {
    if i == |b.ghosts| then b
    else PickupsFrom(if InPlay(b.ghosts[i]) then EatFrom(b, i, 0) else b, i + 1)
  }

  /** The first half of _check_collisions. */
  function PickupPass(b: Board): Board
  {
    PickupsFrom(b, 0)
  }

  lemma {:induction false} EatFromRaises(b: Board, i: nat, j: nat)
    requires i < |b.ghosts| && j <= |b.pickups|
    ensures LevelsRaised(b.ghosts, EatFrom(b, i, j).ghosts) && Collected(b.pickups, EatFrom(b, i, j).pickups)
    decreases |b.pickups| - j
  {
    if j < |b.pickups| {
      EatFromRaises(Eat(b, i, j), i, j + 1);
    }
  }

  lemma {:induction false} PickupsFromRaises(b: Board, i: nat)
    requires i <= |b.ghosts|
    ensures LevelsRaised(b.ghosts, PickupsFrom(b, i).ghosts) && Collected(b.pickups, PickupsFrom(b, i).pickups)
    decreases |b.ghosts| - i
  {
    if i < |b.ghosts| {
      var b' := if InPlay(b.ghosts[i]) then EatFrom(b, i, 0) else b;
      if InPlay(b.ghosts[i]) {
        EatFromRaises(b, i, 0);
      }
      PickupsFromRaises(b', i + 1);
    }
  }

  /** The pickup pass moves nothing, changes no alive or dying flag, only
      raises levels and only collects pickups. */
  lemma PickupPassRaises(b: Board)
    ensures LevelsRaised(b.ghosts, PickupPass(b).ghosts) && Collected(b.pickups, PickupPass(b).pickups)
  {
    PickupsFromRaises(b, 0);
  }

  /** Some ghost in play at index lo or later stands on cell c. */
  ghost predicate GuardedFrom(vs: seq<GhostView>, lo: int, c: Pos)
  {
    exists k :: 0 <= k < |vs| && lo <= k && InPlay(vs[k]) && vs[k].cell == c
  }

  lemma {:induction false} EatFromCollects(b: Board, i: nat, j: nat)
    requires i < |b.ghosts| && j <= |b.pickups|
    ensures forall q :: 0 <= q < |b.pickups| ==>
              (EatFrom(b, i, j).pickups[q].active
               <==> b.pickups[q].active && !(j <= q && b.pickups[q].Cell() == b.ghosts[i].cell))
    decreases |b.pickups| - j
  {
    if j < |b.pickups| {
      EatFromCollects(Eat(b, i, j), i, j + 1);
    }
  }

  lemma GuardedFromRaised(vs: seq<GhostView>, ws: seq<GhostView>, lo: int, c: Pos)
    requires LevelsRaised(vs, ws)
    ensures GuardedFrom(ws, lo, c) <==> GuardedFrom(vs, lo, c)
  {
    if GuardedFrom(ws, lo, c) {
      var k :| 0 <= k < |ws| && lo <= k && InPlay(ws[k]) && ws[k].cell == c;
      assert InPlay(vs[k]) && vs[k].cell == c;
    }
    if GuardedFrom(vs, lo, c) {
      var k :| 0 <= k < |vs| && lo <= k && InPlay(vs[k]) && vs[k].cell == c;
      assert InPlay(ws[k]) && ws[k].cell == c;
    }
  }

  lemma {:induction false} PickupsFromCollect(b: Board, i: nat)
    requires i <= |b.ghosts|
    ensures forall q :: 0 <= q < |b.pickups| ==>
              (PickupsFrom(b, i).pickups[q].active
               <==> b.pickups[q].active && !GuardedFrom(b.ghosts, i, b.pickups[q].Cell()))
    decreases |b.ghosts| - i
  {
    if i < |b.ghosts| {
      var b' := if InPlay(b.ghosts[i]) then EatFrom(b, i, 0) else b;
      PickupsFromCollect(b', i + 1);
      if InPlay(b.ghosts[i]) {
        EatFromCollects(b, i, 0);
        EatFromRaises(b, i, 0);
      }
      forall q | 0 <= q < |b.pickups|
        ensures PickupsFrom(b, i).pickups[q].active
                <==> b.pickups[q].active && !GuardedFrom(b.ghosts, i, b.pickups[q].Cell())
      {
        var c := b.pickups[q].Cell();
        assert b'.pickups[q].Cell() == c;
        GuardedFromRaised(b.ghosts, b'.ghosts, i + 1, c);
        if GuardedFrom(b.ghosts, i, c) && !GuardedFrom(b.ghosts, i + 1, c) {
          var k :| 0 <= k < |b.ghosts| && i <= k && InPlay(b.ghosts[k]) && b.ghosts[k].cell == c;
          assert k == i;
        }
        if GuardedFrom(b.ghosts, i + 1, c) {
          var k :| 0 <= k < |b.ghosts| && i + 1 <= k && InPlay(b.ghosts[k]) && b.ghosts[k].cell == c;
          assert i <= k;
        }
        if InPlay(b.ghosts[i]) && b.ghosts[i].cell == c {
          assert GuardedFrom(b.ghosts, i, c);
        }
      }
    }
  }

  /** The pickup pass collects exactly the active pickups on which some
      ghost in play stands, and only those. */
  lemma PickupPassCollects(b: Board)
    ensures |PickupPass(b).pickups| == |b.pickups|
    ensures forall q :: 0 <= q < |b.pickups| ==>
              (PickupPass(b).pickups[q].active
               <==> b.pickups[q].active
                    && !exists k :: 0 <= k < |b.ghosts| && InPlay(b.ghosts[k]) && b.ghosts[k].cell == b.pickups[q].Cell())
  {
    PickupsFromCollect(b, 0);
  }

  /** Number of active pickups on cell c. */
  function ActiveOn(ps: seq<PacMan>, c: Pos): nat
  {
    if ps == [] then 0 else (if ps[0].active && ps[0].Cell() == c then 1 else 0) + ActiveOn(ps[1..], c)
  }

  /** Two pickup lists with the same active pickups on c count the same. */
  lemma {:induction false} ActiveOnSame(ps: seq<PacMan>, qs: seq<PacMan>, c: Pos)
    requires |ps| == |qs|
    requires forall q :: 0 <= q < |ps| ==> (ps[q].active && ps[q].Cell() == c) == (qs[q].active && qs[q].Cell() == c)
    ensures ActiveOn(ps, c) == ActiveOn(qs, c)
  {
    if ps != [] {
      ActiveOnSame(ps[1..], qs[1..], c);
    }
  }

  /** With no active pickup on c the count is 0. */
  lemma {:induction false} ActiveOnNone(ps: seq<PacMan>, c: Pos)
    requires forall q :: 0 <= q < |ps| ==> !(ps[q].active && ps[q].Cell() == c)
    ensures ActiveOn(ps, c) == 0
  {
    if ps != [] {
      ActiveOnNone(ps[1..], c);
    }
  }

  /** The inner loop for ghost i from pickup j raises ghost i's level by
      the active pickups on its cell from j on, and no other level. */
  lemma {:induction false} EatFromLevels(b: Board, i: nat, j: nat)
    requires i < |b.ghosts| && j <= |b.pickups|
    ensures forall k :: 0 <= k < |b.ghosts| ==>
              EatFrom(b, i, j).ghosts[k].level
              == b.ghosts[k].level + (if k == i then ActiveOn(b.pickups[j..], b.ghosts[i].cell) else 0)
    decreases |b.pickups| - j
  {
    if j < |b.pickups| {
      var b' := Eat(b, i, j);
      EatFromLevels(b', i, j + 1);
      assert b'.pickups[j + 1..] == b.pickups[j + 1..];
      assert b.pickups[j..][1..] == b.pickups[j + 1..];
    }
  }

  /** Some ghost in play with index in [lo, hi) stands on cell c. */
  ghost predicate GuardedBetween(vs: seq<GhostView>, lo: int, hi: int, c: Pos)
  {
    exists a :: 0 <= a < |vs| && lo <= a < hi && InPlay(vs[a]) && vs[a].cell == c
  }

  lemma {:induction false} PickupsFromLevels(b: Board, i: nat)
    requires i <= |b.ghosts|
    ensures forall k :: 0 <= k < |b.ghosts| ==>
              PickupsFrom(b, i).ghosts[k].level
              == b.ghosts[k].level
                 + (if i <= k && InPlay(b.ghosts[k]) && !GuardedBetween(b.ghosts, i, k, b.ghosts[k].cell)
                    then ActiveOn(b.pickups, b.ghosts[k].cell) else 0)
    decreases |b.ghosts| - i
  {
    if i < |b.ghosts| {
      var b' := if InPlay(b.ghosts[i]) then EatFrom(b, i, 0) else b;
      PickupsFromLevels(b', i + 1);
      if InPlay(b.ghosts[i]) {
        EatFromLevels(b, i, 0);
        EatFromCollects(b, i, 0);
        assert b.pickups[0..] == b.pickups;
      }
      EatFromRaisesIf(b, i);
      forall k | 0 <= k < |b.ghosts|
        ensures PickupsFrom(b, i).ghosts[k].level
                == b.ghosts[k].level
                   + (if i <= k && InPlay(b.ghosts[k]) && !GuardedBetween(b.ghosts, i, k, b.ghosts[k].cell)
                      then ActiveOn(b.pickups, b.ghosts[k].cell) else 0)
      {
        var c := b.ghosts[k].cell;
        if k > i {
          assert InPlay(b'.ghosts[k]) == InPlay(b.ghosts[k]) && b'.ghosts[k].cell == c;
          GuardedBetweenRaised(b.ghosts, b'.ghosts, i + 1, k, c);
          if InPlay(b.ghosts[i]) && b.ghosts[i].cell == c {
            assert GuardedBetween(b.ghosts, i, k, c);
            ActiveOnNone(b'.pickups, c);
          } else {
            if GuardedBetween(b.ghosts, i, k, c) {
              var a :| 0 <= a < |b.ghosts| && i <= a < k && InPlay(b.ghosts[a]) && b.ghosts[a].cell == c;
              assert a != i;
              assert GuardedBetween(b.ghosts, i + 1, k, c);
            }
            if GuardedBetween(b.ghosts, i + 1, k, c) {
              var a :| 0 <= a < |b.ghosts| && i + 1 <= a < k && InPlay(b.ghosts[a]) && b.ghosts[a].cell == c;
              assert GuardedBetween(b.ghosts, i, k, c);
            }
            if InPlay(b.ghosts[i]) {
              ActiveOnSame(b.pickups, b'.pickups, c);
            }
          }
        } else if k == i {
          assert !GuardedBetween(b.ghosts, i, k, c);
        }
      }
    }
  }

  /** The skipped-or-eaten step of the outer pickup loop raises levels only. */
  lemma EatFromRaisesIf(b: Board, i: nat)
    requires i < |b.ghosts|
    ensures LevelsRaised(b.ghosts, (if InPlay(b.ghosts[i]) then EatFrom(b, i, 0) else b).ghosts)
    ensures Collected(b.pickups, (if InPlay(b.ghosts[i]) then EatFrom(b, i, 0) else b).pickups)
  {
    if InPlay(b.ghosts[i]) {
      EatFromRaises(b, i, 0);
    }
  }

  lemma GuardedBetweenRaised(vs: seq<GhostView>, ws: seq<GhostView>, lo: int, hi: int, c: Pos)
    requires LevelsRaised(vs, ws)
    ensures GuardedBetween(ws, lo, hi, c) <==> GuardedBetween(vs, lo, hi, c)
  {
    if GuardedBetween(ws, lo, hi, c) {
      var a :| 0 <= a < |ws| && lo <= a < hi && InPlay(ws[a]) && ws[a].cell == c;
      assert InPlay(vs[a]) && vs[a].cell == c;
    }
    if GuardedBetween(vs, lo, hi, c) {
      var a :| 0 <= a < |vs| && lo <= a < hi && InPlay(vs[a]) && vs[a].cell == c;
      assert InPlay(ws[a]) && ws[a].cell == c;
    }
  }

  /** Each ghost's own gain in the pickup pass: a ghost in play that is the
      first ghost in play on its cell gains one level per active pickup on
      that cell; every other ghost keeps its level. */
  lemma PickupPassLevels(b: Board)
    ensures |PickupPass(b).ghosts| == |b.ghosts|
    ensures forall k :: 0 <= k < |b.ghosts| ==>
              PickupPass(b).ghosts[k].level
              == b.ghosts[k].level
                 + (if InPlay(b.ghosts[k]) && !GuardedBetween(b.ghosts, 0, k, b.ghosts[k].cell)
                    then ActiveOn(b.pickups, b.ghosts[k].cell) else 0)
  {
    PickupsFromLevels(b, 0);
  }

  /** Number of active pickups. */
  function ActiveCount(ps: seq<PacMan>): nat
  {
    if ps == [] then 0 else ActiveCount(ps[..|ps| - 1]) + (if ps[|ps| - 1].active then 1 else 0)
  }

  /** Sum of the ghosts' levels. */
  function LevelSum(vs: seq<GhostView>): int
  {
    if vs == [] then 0 else LevelSum(vs[..|vs| - 1]) + vs[|vs| - 1].level
  }

  lemma {:induction false} ActiveCollect(ps: seq<PacMan>, j: int)
    requires 0 <= j < |ps| && ps[j].active
    ensures ActiveCount(ps[j := Collect(ps[j])]) == ActiveCount(ps) - 1
  {
    var qs := ps[j := Collect(ps[j])];
    if j < |ps| - 1 {
      assert qs[..|qs| - 1] == ps[..|ps| - 1][j := Collect(ps[j])];
      ActiveCollect(ps[..|ps| - 1], j);
    } else {
      assert qs[..|qs| - 1] == ps[..|ps| - 1];
    }
  }

  lemma {:induction false} LevelRaise(vs: seq<GhostView>, i: int)
    requires 0 <= i < |vs|
    ensures LevelSum(vs[i := vs[i].(level := vs[i].level + 1)]) == LevelSum(vs) + 1
  {
    var ws := vs[i := vs[i].(level := vs[i].level + 1)];
    if i < |vs| - 1 {
      assert ws[..|ws| - 1] == vs[..|vs| - 1][i := vs[i].(level := vs[i].level + 1)];
      LevelRaise(vs[..|vs| - 1], i);
    } else {
      assert ws[..|ws| - 1] == vs[..|vs| - 1];
    }
  }

  /** c less k, stopping at 0. */
  function Floored(c: int, k: int): int
  {
    if c >= k then c - k else 0
  }

  /** One pickup eaten in Eat, or none. */
  lemma EatCounts(b: Board, i: nat, j: nat)
    requires i < |b.ghosts| && j < |b.pickups| && b.count >= 0
    ensures ActiveCount(Eat(b, i, j).pickups) <= ActiveCount(b.pickups)
    ensures Eat(b, i, j).count == Floored(b.count, ActiveCount(b.pickups) - ActiveCount(Eat(b, i, j).pickups))
    ensures LevelSum(Eat(b, i, j).ghosts) == LevelSum(b.ghosts) + ActiveCount(b.pickups) - ActiveCount(Eat(b, i, j).pickups)
  {
    if b.pickups[j].active && b.pickups[j].Cell() == b.ghosts[i].cell {
      ActiveCollect(b.pickups, j);
      LevelRaise(b.ghosts, i);
    }
  }

  /** The count and level bookkeeping across a step from b to b' and on to r. */
  lemma CountsChain(b: Board, b': Board, r: Board)
    requires b.count >= 0 && b'.count >= 0
    requires ActiveCount(b'.pickups) <= ActiveCount(b.pickups) && ActiveCount(r.pickups) <= ActiveCount(b'.pickups)
    requires b'.count == Floored(b.count, ActiveCount(b.pickups) - ActiveCount(b'.pickups))
    requires r.count == Floored(b'.count, ActiveCount(b'.pickups) - ActiveCount(r.pickups))
    requires LevelSum(b'.ghosts) == LevelSum(b.ghosts) + ActiveCount(b.pickups) - ActiveCount(b'.pickups)
    requires LevelSum(r.ghosts) == LevelSum(b'.ghosts) + ActiveCount(b'.pickups) - ActiveCount(r.pickups)
    ensures r.count == Floored(b.count, ActiveCount(b.pickups) - ActiveCount(r.pickups))
    ensures LevelSum(r.ghosts) == LevelSum(b.ghosts) + ActiveCount(b.pickups) - ActiveCount(r.pickups)
  {
  }

  lemma {:induction false} EatFromCounts(b: Board, i: nat, j: nat)
    requires i < |b.ghosts| && j <= |b.pickups| && b.count >= 0
    ensures ActiveCount(EatFrom(b, i, j).pickups) <= ActiveCount(b.pickups)
    ensures EatFrom(b, i, j).count
            == Floored(b.count, ActiveCount(b.pickups) - ActiveCount(EatFrom(b, i, j).pickups))
    ensures LevelSum(EatFrom(b, i, j).ghosts)
            == LevelSum(b.ghosts) + ActiveCount(b.pickups) - ActiveCount(EatFrom(b, i, j).pickups)
    decreases |b.pickups| - j
  {
    if j == |b.pickups| {
      assert EatFrom(b, i, j) == b && Floored(b.count, 0) == b.count;
    } else {
      var b' := Eat(b, i, j);
      var r := EatFrom(b', i, j + 1);
      assert EatFrom(b, i, j) == r;
      EatCounts(b, i, j);
      EatFromCounts(b', i, j + 1);
      CountsChain(b, b', r);
    }
  }

  lemma {:induction false} PickupsFromCounts(b: Board, i: nat)
    requires i <= |b.ghosts| && b.count >= 0
    ensures ActiveCount(PickupsFrom(b, i).pickups) <= ActiveCount(b.pickups)
    ensures PickupsFrom(b, i).count
            == Floored(b.count, ActiveCount(b.pickups) - ActiveCount(PickupsFrom(b, i).pickups))
    ensures LevelSum(PickupsFrom(b, i).ghosts)
            == LevelSum(b.ghosts) + ActiveCount(b.pickups) - ActiveCount(PickupsFrom(b, i).pickups)
    decreases |b.ghosts| - i
  {
    if i == |b.ghosts| {
      assert PickupsFrom(b, i) == b && Floored(b.count, 0) == b.count;
    } else {
      var b' := if InPlay(b.ghosts[i]) then EatFrom(b, i, 0) else b;
      var r := PickupsFrom(b', i + 1);
      assert PickupsFrom(b, i) == r;
      if InPlay(b.ghosts[i]) {
        EatFromCounts(b, i, 0);
      }
      PickupsFromCounts(b', i + 1);
      CountsChain(b, b', r);
    }
  }

  /** Every pickup eaten raises one level and takes one off the spawn count,
      which stops at 0. */
  lemma PickupPassCounts(b: Board)
    requires b.count >= 0
    ensures ActiveCount(PickupPass(b).pickups) <= ActiveCount(b.pickups)
    ensures LevelSum(PickupPass(b).ghosts)
            == LevelSum(b.ghosts) + (ActiveCount(b.pickups) - ActiveCount(PickupPass(b).pickups))
    ensures PickupPass(b).count
            == CountAfterDecrements(b.count, ActiveCount(b.pickups) - ActiveCount(PickupPass(b).pickups))
  {
    PickupsFromCounts(b, 0);
  }

  /** When the count matches the active pickups before the pickup pass, it
      still does after it, and no pickup is added or removed. */
  lemma PickupPassKeepsCount(b: Board)
    requires b.count == ActiveCount(b.pickups)
    ensures |PickupPass(b).pickups| == |b.pickups|
    ensures PickupPass(b).count == ActiveCount(PickupPass(b).pickups) <= b.count
  {
    PickupPassCounts(b);
  }

  // -------------------------------------------------------- the ghost pass

  function Kill(v: GhostView): GhostView
  {
    v.(dying := true)
  }

  /** Ghosts i and j meet: the strictly higher level survives and the lower
      starts dying; equal levels both start dying. */
  function Fight(vs: seq<GhostView>, i: nat, j: nat): seq<GhostView>
    requires i < |vs| && j < |vs|
  {
    if vs[i].level > vs[j].level then vs[j := Kill(vs[j])]
    else if vs[j].level > vs[i].level then vs[i := Kill(vs[i])]
    else vs[i := Kill(vs[i])][j := Kill(vs[j])]
  }

  /** One inner iteration: ghost j is skipped unless in play; ghost i's own
      status is not checked again here. */
  function Meet(vs: seq<GhostView>, i: nat, j: nat): seq<GhostView>
    requires i < |vs| && j < |vs|
  {
    if InPlay(vs[j]) && vs[i].cell == vs[j].cell then Fight(vs, i, j) else vs
  }

  /** ws comes from vs by setting dying flags only. */
  predicate Weakened(vs: seq<GhostView>, ws: seq<GhostView>)
  {
    && |ws| == |vs|
    && forall k :: 0 <= k < |vs| ==>
         ws[k].cell == vs[k].cell && ws[k].level == vs[k].level
         && ws[k].alive == vs[k].alive && (vs[k].dying ==> ws[k].dying)
  }

  /** The inner loop for ghost i over the ghosts from j on. */
  function ClashFrom(vs: seq<GhostView>, i: nat, j: nat): (r: seq<GhostView>)
    requires i < |vs| && j <= |vs|
    ensures |r| == |vs|
    decreases |vs| - j
  {
    if j == |vs| then vs else ClashFrom(Meet(vs, i, j), i, j + 1)
  }

  /** The inner loop for ghost i run from ghost i + 1 up to (not
      including) ghost j. */
  function ClashUpTo(vs: seq<GhostView>, i: nat, j: nat): (r: seq<GhostView>)
    requires i < j <= |vs|
    ensures |r| == |vs|
    decreases j
  {
    if j == i + 1 then vs else Meet(ClashUpTo(vs, i, j - 1), i, j - 1)
  }

  /** Running the inner loop up to ghost j and then from ghost j on is
      running it from ghost i + 1 on: the loop's two readings agree. */
  lemma {:induction false} ClashUpToFrom(vs: seq<GhostView>, i: nat, j: nat)
    requires i < j <= |vs|
    ensures ClashFrom(ClashUpTo(vs, i, j), i, j) == ClashFrom(vs, i, i + 1)
    decreases j
  {
    if j > i + 1 {
      var u := ClashUpTo(vs, i, j - 1);
      ClashUpToFrom(vs, i, j - 1);
      assert ClashFrom(u, i, j - 1) == ClashFrom(Meet(u, i, j - 1), i, j);
    }
  }

  /** The outer loop from ghost i on; ghost i's status is checked once. */
  function ClashesFrom(vs: seq<GhostView>, i: nat): (r: seq<GhostView>)
    requires i <= |vs|
    ensures |r| == |vs|
    decreases |vs| - i
  {
    if i == |vs| then vs
    else ClashesFrom(if InPlay(vs[i]) then ClashFrom(vs, i, i + 1) else vs, i + 1)
  }

  /** The second half of _check_collisions. */
  function ClashPass(vs: seq<GhostView>): seq<GhostView>
  {
    ClashesFrom(vs, 0)
  }

  lemma {:induction false} ClashFromWeakens(vs: seq<GhostView>, i: nat, j: nat)
    requires i < |vs| && j <= |vs|
    ensures Weakened(vs, ClashFrom(vs, i, j))
    decreases |vs| - j
  {
    if j < |vs| {
      ClashFromWeakens(Meet(vs, i, j), i, j + 1);
    }
  }

  lemma {:induction false} ClashesFromWeakens(vs: seq<GhostView>, i: nat)
    requires i <= |vs|
    ensures Weakened(vs, ClashesFrom(vs, i))
    decreases |vs| - i
  {
    if i < |vs| {
      var vs' := if InPlay(vs[i]) then ClashFrom(vs, i, i + 1) else vs;
      if InPlay(vs[i]) {
        ClashFromWeakens(vs, i, i + 1);
      }
      ClashesFromWeakens(vs', i + 1);
    }
  }

  /** No two ghosts in play share a cell among the pairs whose first index
      is below lo. */
  ghost predicate SeparatedBelow(vs: seq<GhostView>, lo: int)
  {
    forall a, b :: 0 <= a < b < |vs| && a < lo && InPlay(vs[a]) && InPlay(vs[b]) ==> vs[a].cell != vs[b].cell
  }

  lemma {:induction false} ClashFromSeparates(vs: seq<GhostView>, i: nat, j: nat)
    requires i < j <= |vs|
    ensures forall b :: j <= b < |vs| && InPlay(ClashFrom(vs, i, j)[i]) && InPlay(ClashFrom(vs, i, j)[b]) ==>
              ClashFrom(vs, i, j)[i].cell != ClashFrom(vs, i, j)[b].cell
    decreases |vs| - j
  {
    if j < |vs| {
      var vs' := Meet(vs, i, j);
      ClashFromSeparates(vs', i, j + 1);
      var r := ClashFrom(vs, i, j);
      assert r == ClashFrom(vs', i, j + 1);
      ClashFromWeakens(vs', i, j + 1);
      if InPlay(r[i]) && InPlay(r[j]) {
        assert InPlay(vs'[i]) && InPlay(vs'[j]);
      }
    }
  }

  lemma {:induction false} ClashesFromSeparates(vs: seq<GhostView>, i: nat)
    requires i <= |vs| && SeparatedBelow(vs, i)
    ensures SeparatedBelow(ClashesFrom(vs, i), |vs|)
    decreases |vs| - i
  {
    if i < |vs| {
      var vs' := if InPlay(vs[i]) then ClashFrom(vs, i, i + 1) else vs;
      if InPlay(vs[i]) {
        ClashFromSeparates(vs, i, i + 1);
        ClashFromWeakens(vs, i, i + 1);
      }
      forall a, b | 0 <= a < b < |vs'| && a < i + 1 && InPlay(vs'[a]) && InPlay(vs'[b])
        ensures vs'[a].cell != vs'[b].cell
      {
        if a < i {
          assert InPlay(vs[a]) && InPlay(vs[b]);
        }
      }
      ClashesFromSeparates(vs', i + 1);
    }
  }

  /** No two ghosts in play share a cell. */
  predicate Apart(vs: seq<GhostView>)
  {
    forall a, b :: 0 <= a < b < |vs| && InPlay(vs[a]) && InPlay(vs[b]) ==> vs[a].cell != vs[b].cell
  }

  /** After the ghost pass no two ghosts in play share a cell. */
  lemma ClashPassSeparates(vs: seq<GhostView>)
    ensures |ClashPass(vs)| == |vs| && Apart(ClashPass(vs))
  {
    ClashesFromSeparates(vs, 0);
  }

  /** Another ghost in play on the same cell has at least the level of
      ghost k. */
  ghost predicate Threatened(vs: seq<GhostView>, k: int)
    requires 0 <= k < |vs|
  {
    exists m :: 0 <= m < |vs| && m != k && InPlay(vs[m]) && vs[m].cell == vs[k].cell && vs[m].level >= vs[k].level
  }

  lemma {:induction false} ClashFromJustified(vs0: seq<GhostView>, vs: seq<GhostView>, i: nat, j: nat)
    requires Weakened(vs0, vs) && i < j <= |vs| && InPlay(vs0[i])
    ensures forall k :: 0 <= k < |vs| && InPlay(vs[k]) && !InPlay(ClashFrom(vs, i, j)[k]) ==> Threatened(vs0, k)
    decreases |vs| - j
  {
    if j < |vs| {
      var vs' := Meet(vs, i, j);
      assert Weakened(vs, vs');
      ClashFromJustified(vs0, vs', i, j + 1);
      forall k | 0 <= k < |vs| && InPlay(vs[k]) && !InPlay(ClashFrom(vs, i, j)[k])
        ensures Threatened(vs0, k)
      {
        if !InPlay(vs'[k]) {
          if k == j {
            assert vs0[i].cell == vs0[k].cell && vs0[i].level >= vs0[k].level;
          } else {
            assert k == i && InPlay(vs0[j]);
            assert vs0[j].cell == vs0[k].cell && vs0[j].level >= vs0[k].level;
          }
        }
      }
    }
  }

  lemma {:induction false} ClashesFromJustified(vs0: seq<GhostView>, vs: seq<GhostView>, i: nat)
    requires Weakened(vs0, vs) && i <= |vs|
    ensures forall k :: 0 <= k < |vs| && InPlay(vs[k]) && !InPlay(ClashesFrom(vs, i)[k]) ==> Threatened(vs0, k)
    decreases |vs| - i
  {
    if i < |vs| {
      var vs' := if InPlay(vs[i]) then ClashFrom(vs, i, i + 1) else vs;
      if InPlay(vs[i]) {
        ClashFromJustified(vs0, vs, i, i + 1);
        ClashFromWeakens(vs, i, i + 1);
      }
      ClashesFromJustified(vs0, vs', i + 1);
    }
  }

  /** A ghost in play that the ghost pass puts out of play shared its cell
      with another ghost in play of at least its level. */
  lemma ClashPassJustified(vs: seq<GhostView>)
    ensures |ClashPass(vs)| == |vs|
    ensures forall k :: 0 <= k < |vs| && InPlay(vs[k]) && !InPlay(ClashPass(vs)[k]) ==> Threatened(vs, k)
  {
    ClashesFromJustified(vs, vs, 0);
  }

  /** The inner loop for ghost i leaves every ghost before j other than
      ghost i as it was. */
  lemma {:induction false} ClashFromKeeps(w: seq<GhostView>, i: nat, j: nat)
    requires i < j <= |w|
    ensures forall k :: 0 <= k < j && k != i ==> ClashFrom(w, i, j)[k] == w[k]
    decreases |w| - j
  {
    if j < |w| {
      ClashFromKeeps(Meet(w, i, j), i, j + 1);
    }
  }

  /** What the inner loop for ghost i does from ghost j on, whether or not
      ghost i is still in play: every later ghost in play on its cell of at
      most its level leaves play, and ghost i leaves play when one of them
      has at least its level. */
  lemma {:induction false} ClashFromEliminates(w: seq<GhostView>, i: nat, j: nat)
    requires i < j <= |w|
    ensures forall k :: j <= k < |w| && InPlay(w[k]) && w[k].cell == w[i].cell && w[i].level >= w[k].level ==>
              !InPlay(ClashFrom(w, i, j)[k])
    ensures (exists k :: j <= k < |w| && InPlay(w[k]) && w[k].cell == w[i].cell && w[k].level >= w[i].level) ==>
              !InPlay(ClashFrom(w, i, j)[i])
    decreases |w| - j
  {
    if j < |w| {
      var w' := Meet(w, i, j);
      assert ClashFrom(w, i, j) == ClashFrom(w', i, j + 1);
      ClashFromEliminates(w', i, j + 1);
      ClashFromWeakens(w', i, j + 1);
      assert w'[i].cell == w[i].cell && w'[i].level == w[i].level;
      assert forall k :: j < k < |w| ==> w'[k] == w[k];
      if exists k :: j <= k < |w| && InPlay(w[k]) && w[k].cell == w[i].cell && w[k].level >= w[i].level {
        var k :| j <= k < |w| && InPlay(w[k]) && w[k].cell == w[i].cell && w[k].level >= w[i].level;
        if k == j {
          assert !InPlay(w'[i]);
        }
      }
    }
  }

  /** The only later ghosts the inner loop for ghost i takes out of play
      are on its cell and of at most its level. */
  lemma {:induction false} ClashFromOnlyWeaker(w: seq<GhostView>, i: nat, j: nat)
    requires i < j <= |w|
    ensures forall m :: j <= m < |w| && InPlay(w[m]) && !InPlay(ClashFrom(w, i, j)[m]) ==>
              w[m].cell == w[i].cell && w[i].level >= w[m].level
    decreases |w| - j
  {
    if j < |w| {
      var w' := Meet(w, i, j);
      assert ClashFrom(w, i, j) == ClashFrom(w', i, j + 1);
      ClashFromOnlyWeaker(w', i, j + 1);
      ClashFromKeeps(w', i, j + 1);
      assert w'[i].cell == w[i].cell && w'[i].level == w[i].level;
      assert forall k :: j < k < |w| ==> w'[k] == w[k];
    }
  }

  /** Every pair of ghosts in play on one cell with an index below i has
      already taken out the one of them whose rival has at least its level. */
  ghost predicate CaughtBelow(vs0: seq<GhostView>, vs: seq<GhostView>, i: int)
    requires |vs| == |vs0|
  {
    forall k, m :: 0 <= k < |vs0| && 0 <= m < |vs0| && k != m && (k < i || m < i)
                   && InPlay(vs0[k]) && InPlay(vs0[m]) && vs0[m].cell == vs0[k].cell && vs0[m].level >= vs0[k].level
                   ==> !InPlay(vs[k])
  }

  /** A ghost from i on that is already out of play was taken out by an
      earlier ghost in play on its cell of at least its level. */
  ghost predicate KilledEarlier(vs0: seq<GhostView>, vs: seq<GhostView>, i: int)
    requires |vs| == |vs0|
  {
    forall m :: 0 <= i <= m < |vs0| && InPlay(vs0[m]) && !InPlay(vs[m]) ==>
      exists a :: 0 <= a < i && InPlay(vs0[a]) && vs0[a].cell == vs0[m].cell && vs0[a].level >= vs0[m].level
  }

  /** The outer step for ghost i: the ghost pass's inner loop on a ghost in
      play, or nothing on a ghost out of play. */
  function ClashStep(vs: seq<GhostView>, i: nat): (r: seq<GhostView>)
    requires i < |vs|
    ensures |r| == |vs|
  {
    if InPlay(vs[i]) then ClashFrom(vs, i, i + 1) else vs
  }

  lemma CaughtStep(vs0: seq<GhostView>, vs: seq<GhostView>, i: nat)
    requires Weakened(vs0, vs) && i < |vs|
    requires CaughtBelow(vs0, vs, i) && KilledEarlier(vs0, vs, i)
    ensures Weakened(vs0, ClashStep(vs, i)) && CaughtBelow(vs0, ClashStep(vs, i), i + 1)
  {
    var vs' := ClashStep(vs, i);
    if InPlay(vs[i]) {
      ClashFromEliminates(vs, i, i + 1);
      ClashFromWeakens(vs, i, i + 1);
    }
    assert Weakened(vs, vs');
    WeakenedChain(vs0, vs, vs');
    forall k, m | 0 <= k < |vs0| && 0 <= m < |vs0| && k != m && (k < i + 1 || m < i + 1)
                  && InPlay(vs0[k]) && InPlay(vs0[m]) && vs0[m].cell == vs0[k].cell && vs0[m].level >= vs0[k].level
      ensures !InPlay(vs'[k])
    {
      if !(k < i || m < i) {
        if k == i {
          if !InPlay(vs[m]) {
            var a :| 0 <= a < i && InPlay(vs0[a]) && vs0[a].cell == vs0[m].cell && vs0[a].level >= vs0[m].level;
            assert a != k && vs0[a].cell == vs0[k].cell && vs0[a].level >= vs0[k].level;
          } else if InPlay(vs[i]) {
            assert vs[m].cell == vs[i].cell && vs[m].level >= vs[i].level;
          }
        } else if !InPlay(vs[i]) {
          var a :| 0 <= a < i && InPlay(vs0[a]) && vs0[a].cell == vs0[i].cell && vs0[a].level >= vs0[i].level;
          assert a != k && vs0[a].cell == vs0[k].cell && vs0[a].level >= vs0[k].level;
        } else if InPlay(vs[k]) {
          assert vs[k].cell == vs[i].cell && vs[i].level >= vs[k].level;
        }
      }
    }
  }

  lemma KilledStep(vs0: seq<GhostView>, vs: seq<GhostView>, i: nat)
    requires Weakened(vs0, vs) && i < |vs| && KilledEarlier(vs0, vs, i)
    ensures KilledEarlier(vs0, ClashStep(vs, i), i + 1)
  {
    var vs' := ClashStep(vs, i);
    if InPlay(vs[i]) {
      ClashFromOnlyWeaker(vs, i, i + 1);
    }
    forall m | 0 <= i + 1 <= m < |vs0| && InPlay(vs0[m]) && !InPlay(vs'[m])
      ensures exists a :: 0 <= a < i + 1 && InPlay(vs0[a]) && vs0[a].cell == vs0[m].cell && vs0[a].level >= vs0[m].level
    {
      if InPlay(vs[m]) {
        assert InPlay(vs0[i]) && vs0[i].cell == vs0[m].cell && vs0[i].level >= vs0[m].level;
      } else {
        var a :| 0 <= a < i && InPlay(vs0[a]) && vs0[a].cell == vs0[m].cell && vs0[a].level >= vs0[m].level;
        assert a < i + 1;
      }
    }
  }

  lemma {:induction false} ClashesFromEliminates(vs0: seq<GhostView>, vs: seq<GhostView>, i: nat)
    requires Weakened(vs0, vs) && i <= |vs|
    requires CaughtBelow(vs0, vs, i) && KilledEarlier(vs0, vs, i)
    ensures CaughtBelow(vs0, ClashesFrom(vs, i), |vs|)
    decreases |vs| - i
  {
    if i < |vs| {
      assert ClashesFrom(vs, i) == ClashesFrom(ClashStep(vs, i), i + 1);
      CaughtStep(vs0, vs, i);
      KilledStep(vs0, vs, i);
      ClashesFromEliminates(vs0, ClashStep(vs, i), i + 1);
    }
  }

  lemma WeakenedChain(us: seq<GhostView>, vs: seq<GhostView>, ws: seq<GhostView>)
    requires Weakened(us, vs) && Weakened(vs, ws)
    ensures Weakened(us, ws)
  {
  }

  /** The ghost pass takes a ghost in play out of play exactly when another
      ghost in play shares its cell with at least its level: the lower of
      two ghosts, and both on equal levels, always leave play, even when the
      one they meet has itself just been knocked out. */
  lemma ClashPassEliminates(vs: seq<GhostView>)
    ensures |ClashPass(vs)| == |vs|
    ensures forall k :: 0 <= k < |vs| && InPlay(vs[k]) ==> (!InPlay(ClashPass(vs)[k]) <==> Threatened(vs, k))
  {
    ClashPassJustified(vs);
    ClashesFromEliminates(vs, vs, 0);
    forall k | 0 <= k < |vs| && InPlay(vs[k]) && Threatened(vs, k)
      ensures !InPlay(ClashPass(vs)[k])
    {
      var m :| 0 <= m < |vs| && m != k && InPlay(vs[m]) && vs[m].cell == vs[k].cell && vs[m].level >= vs[k].level;
    }
  }

  /** The ghost pass changes no cell, level or alive flag, and only sets
      dying flags. */
  lemma ClashPassWeakens(vs: seq<GhostView>)
    ensures Weakened(vs, ClashPass(vs))
  {
    ClashesFromWeakens(vs, 0);
  }

  /** Because ghost i is not re-checked inside the inner loop, a ghost that
      has just started dying in a tie still eliminates a weaker ghost met
      later on the same cell: of three ghosts of levels 2, 2 and 1 on one
      cell, all three leave play. */
  lemma DyingGhostStillEliminates(c: Pos)
    ensures var vs := [GhostView(c, 2, true, false), GhostView(c, 2, true, false), GhostView(c, 1, true, false)];
            forall k :: 0 <= k < 3 ==> !InPlay(ClashPass(vs)[k])
  {
    var vs := [GhostView(c, 2, true, false), GhostView(c, 2, true, false), GhostView(c, 1, true, false)];
    var k := GhostView(c, 2, true, true);
    var w := [k, k, GhostView(c, 1, true, true)];
    var v1 := [k, k, vs[2]];
    assert Meet(vs, 0, 1) == v1 && Meet(v1, 0, 2) == w;
    assert ClashFrom(w, 0, 3) == w;
    assert ClashFrom(v1, 0, 2) == w;
    assert ClashFrom(vs, 0, 1) == w;
    assert ClashPass(vs) == ClashesFrom(w, 1);
    ClashesFromWeakens(w, 1);
  }

  // ---------------------------------------------------- end of the tick

  /** Number of ghosts in play (the alive_ghosts list of update). */
  function InPlayCount(vs: seq<GhostView>): nat
  {
    if vs == [] then 0 else InPlayCount(vs[..|vs| - 1]) + (if InPlay(vs[|vs| - 1]) then 1 else 0)
  }

  /** At most one ghost in play exactly when no two distinct ghosts are. */
  lemma {:induction false} InPlayCountAtMostOne(vs: seq<GhostView>)
    ensures InPlayCount(vs) <= 1 <==>
            forall a, b :: 0 <= a < b < |vs| ==> !(InPlay(vs[a]) && InPlay(vs[b]))
  {
    if vs != [] {
      var front := vs[..|vs| - 1];
      InPlayCountAtMostOne(front);
      if InPlayCount(front) >= 1 {
        var a := SomeInPlay(front);
        if InPlay(vs[|vs| - 1]) {
          assert InPlay(vs[a]) && InPlay(vs[|vs| - 1]);
        }
      }
      if InPlayCount(vs) <= 1 {
        forall a, b | 0 <= a < b < |vs|
          ensures !(InPlay(vs[a]) && InPlay(vs[b]))
        {
          if b < |vs| - 1 {
            assert vs[a] == front[a] && vs[b] == front[b];
          } else if InPlay(vs[b]) {
            assert InPlayCount(front) == 0;
            NoneInPlay(front, a);
          }
        }
      }
    }
  }

  lemma {:induction false} SomeInPlay(vs: seq<GhostView>) returns (a: int)
    requires InPlayCount(vs) >= 1
    ensures 0 <= a < |vs| && InPlay(vs[a])
  {
    if InPlay(vs[|vs| - 1]) {
      a := |vs| - 1;
    } else {
      a := SomeInPlay(vs[..|vs| - 1]);
    }
  }

  lemma {:induction false} NoneInPlay(vs: seq<GhostView>, a: int)
    requires InPlayCount(vs) == 0 && 0 <= a < |vs|
    ensures !InPlay(vs[a])
  {
    if a < |vs| - 1 {
      NoneInPlay(vs[..|vs| - 1], a);
    }
  }

  // ------------------------------------------------------------- pickups

  /** The pickups a spawn adds: a fresh one on the spawned cell, or none. */
  function SpawnedPickups(spawned: Option<Pos>): seq<PacMan>
  {
    match spawned
    case None => []
    case Some(c) => [NewPacMan(c.x, c.y)]
  }

  /** The board after the spawn step: the spawned pickup, if any, appended
      and the count raised by one for it. */
  function Spawn(b: Board, spawned: Option<Pos>): Board
  {
    Board(b.ghosts, b.pickups + SpawnedPickups(spawned), b.count + |SpawnedPickups(spawned)|)
  }

  /** The board after the filter of update: inactive pickups dropped. */
  function Filtered(b: Board): Board
  {
    Board(b.ghosts, ActivePickups(b.pickups), b.count)
  }

  /** The outcome of _check_collisions on b: the pickup pass, then the
      ghost pass on the levels the pickup pass leaves. */
  function Collisions(b: Board): Board
  {
    var p := PickupPass(b);
    Board(ClashPass(p.ghosts), p.pickups, p.count)
  }

  /** No ghost and no pickup of b stands on cell. */
  predicate Unoccupied(cell: Pos, b: Board)
  {
    && (forall a :: 0 <= a < |b.ghosts| ==> b.ghosts[a].cell != cell)
    && (forall j :: 0 <= j < |b.pickups| ==> b.pickups[j].Cell() != cell)
  }

  /** A cell that no ghost of gs and no pickup of ps stands on is
      unoccupied on their snapshot. */
  lemma UnoccupiedSnapshot(cell: Pos, gs: seq<Ghost>, ps: seq<PacMan>, count: int)
    requires forall a :: 0 <= a < |gs| ==> gs[a].Cell() != cell
    requires forall j :: 0 <= j < |ps| ==> ps[j].Cell() != cell
    ensures Unoccupied(cell, Board(Views(gs), ps, count))
  {
  }

  /** The filter of update: the active pickups, in order. */
  function ActivePickups(ps: seq<PacMan>): (r: seq<PacMan>)
    ensures |r| == ActiveCount(ps) && ActiveCount(r) == |r|
    ensures forall p :: p in r <==> p in ps && p.active
  {
    if ps == [] then []
    else
      var last := ps[|ps| - 1];
      var front := ActivePickups(ps[..|ps| - 1]);
      if last.active then
        assert (front + [last])[..|front|] == front;
        front + [last]
      else front
  }

  function GhostCells(gs: seq<Ghost>): (cs: seq<Pos>)
    reads set g | g in gs
    ensures |cs| == |gs| && forall k :: 0 <= k < |gs| ==> cs[k] == gs[k].Cell()
  {
    if gs == [] then [] else GhostCells(gs[..|gs| - 1]) + [gs[|gs| - 1].Cell()]
  }

  /** The retry loops of _start_new_game and _spawn_pacman: a random path
      cell is drawn until it is not among the occupied cells. The draw is a
      nondeterministic choice; a generated maze has enough path cells that
      the choice always exists. */
  method FreeCell(maze: Maze, occupied: seq<Pos>) returns (p: Pos)
    requires maze.Valid() && Count(maze.grid, PATH) > |occupied|
    ensures InBounds(p, maze.size) && maze.grid[p.y][p.x] == PATH && p !in occupied
  {
    FreePathCell(maze.grid, maze.size, occupied);
    var y, x :| 0 <= y < maze.size && 0 <= x < maze.size && maze.grid[y][x] == PATH && Pos(x, y) !in occupied;
    p := Pos(x, y);
  }

  /** No element appears twice. */
  predicate Distinct<T(==)>(s: seq<T>)
  {
    s == [] || (Distinct(s[..|s| - 1]) && s[|s| - 1] !in s[..|s| - 1])
  }

  /** Distinct says exactly that elements at different indices differ. */
  lemma {:induction false} DistinctPairwise<T>(s: seq<T>)
    ensures Distinct(s) <==> forall a, b :: 0 <= a < b < |s| ==> s[a] != s[b]
  {
    if s != [] {
      var front := s[..|s| - 1];
      DistinctPairwise(front);
      if Distinct(s) {
        forall a, b | 0 <= a < b < |s|
          ensures s[a] != s[b]
        {
          if b < |s| - 1 {
            assert s[a] == front[a] && s[b] == front[b];
          } else {
            assert s[a] in front;
          }
        }
      }
      if forall a, b :: 0 <= a < b < |s| ==> s[a] != s[b] {
        forall a, b | 0 <= a < b < |front|
          ensures front[a] != front[b]
        {
          assert front[a] == s[a] && front[b] == s[b];
        }
        forall a | 0 <= a < |front|
          ensures front[a] != s[|s| - 1]
        {
          assert front[a] == s[a];
        }
      }
    }
  }

  /** No ghost object appears twice. */
  ghost predicate DistinctGhosts(gs: seq<Ghost>)
  {
    forall a, b :: 0 <= a < b < |gs| ==> gs[a] != gs[b]
  }

  lemma ActiveCountAppend(ps: seq<PacMan>, p: PacMan)
    ensures ActiveCount(ps + [p]) == ActiveCount(ps) + (if p.active then 1 else 0)
  {
    assert (ps + [p])[..|ps|] == ps;
  }

  // ------------------------------------------------------------ the game

  /** What the game's operations need of its maze: well formed, with at
      least MIN_PATH_CELLS path cells (what generation guarantees, by
      Maze.ManyPathCells). */
  ghost predicate Playable(m: Maze)
    reads m
  {
    m.Valid() && Count(m.grid, PATH) >= MIN_PATH_CELLS
  }

  /** The maze of a new game, generated with side n. */
  method NewMaze(n: int) returns (m: Maze)
    requires MIN_MAZE_SIZE <= n <= MAX_MAZE_SIZE
    ensures fresh(m) && m.size == n && Playable(m)
  {
    m := new Maze(n);
    m.ManyPathCells();
  }

  /** The player of a new game: a blue player ghost on a random walkable
      cell of the maze. */
  method NewPlayer(m: Maze) returns (p: Ghost)
    requires Playable(m)
    ensures fresh(p) && PlacedOnPath(p, m) && p.isPlayer && p.colour == BLUE
  {
    FreePathCell(m.grid, m.size, []);
    ghost var y0, x0 :| 0 <= y0 < m.size && 0 <= x0 < m.size && m.grid[y0][x0] == PATH && Pos(x0, y0) !in [];
    assert HasPathCell(m.grid, m.size);
    var pos := m.RandomWalkablePosition();
    p := new Ghost(pos.x, pos.y, BLUE, true);
  }

  /** Every ghost of gs is placed on a path cell of the maze. */
  ghost predicate AllOnPath(gs: seq<Ghost>, maze: Maze)
    reads maze, set g | g in gs
  {
    gs == [] || (AllOnPath(gs[..|gs| - 1], maze) && PlacedOnPath(gs[|gs| - 1], maze))
  }

  lemma {:induction false} AllOnPathEach(gs: seq<Ghost>, maze: Maze)
    ensures AllOnPath(gs, maze) <==> forall a :: 0 <= a < |gs| ==> PlacedOnPath(gs[a], maze)
  {
    if gs != [] {
      var front := gs[..|gs| - 1];
      AllOnPathEach(front, maze);
      assert forall a :: 0 <= a < |front| ==> front[a] == gs[a];
    }
  }

  /** The player and the first k AI ghosts of gs are placed: all on path
      cells of the maze at level 1 and in play, on pairwise different cells,
      and the AI ghosts (all but the first) in the given colours. */
  ghost predicate PlacedOn(gs: seq<Ghost>, maze: Maze, colours: seq<Rgb>, k: nat)
    reads maze, set g | g in gs
  {
    && |gs| == k + 1 && k <= |colours|
    && AllOnPath(gs, maze)
    && Distinct(GhostCells(gs))
    && (forall a :: 1 <= a < |gs| ==> !gs[a].isPlayer && gs[a].colour == colours[a - 1])
  }

  /** The player alone on a path cell is placed. */
  lemma PlacedStart(gs: seq<Ghost>, maze: Maze, colours: seq<Rgb>)
    requires |gs| == 1 && PlacedOnPath(gs[0], maze)
    ensures PlacedOn(gs, maze, colours, 0)
  {
    assert gs[..0] == [];
  }

  /** Appending an AI ghost of the next colour on a free path cell keeps
      the ghosts placed. */
  lemma PlacedExtend(gs: seq<Ghost>, g: Ghost, maze: Maze, colours: seq<Rgb>, k: nat)
    requires PlacedOn(gs, maze, colours, k) && k < |colours|
    requires PlacedOnPath(g, maze) && g.Cell() !in GhostCells(gs) && !g.isPlayer && g.colour == colours[k]
    ensures PlacedOn(gs + [g], maze, colours, k + 1)
  {
    var gs' := gs + [g];
    assert gs'[..|gs|] == gs;
    assert GhostCells(gs') == GhostCells(gs) + [g.Cell()];
    assert (GhostCells(gs) + [g.Cell()])[..|gs|] == GhostCells(gs);
  }

  /** Placed ghosts are distinct objects, since they stand on distinct cells. */
  lemma PlacedDistinct(gs: seq<Ghost>, maze: Maze, colours: seq<Rgb>, k: nat)
    requires PlacedOn(gs, maze, colours, k)
    ensures DistinctGhosts(gs)
  {
    var cs := GhostCells(gs);
    DistinctPairwise(cs);
    forall a, b | 0 <= a < b < |gs|
      ensures gs[a] != gs[b]
    {
      assert cs[a] == gs[a].Cell() && cs[b] == gs[b].Cell();
    }
  }

  /** The controllers ais are those of before followed by one per AI ghost
      of gs (the first k), in order, each on the maze. */
  ghost predicate LinkedOn(ais: seq<GhostAI>, gs: seq<Ghost>, maze: Maze?, before: seq<GhostAI>, k: nat)
  {
    && |ais| == |before| + k && ais[..|before|] == before
    && |gs| == k + 1
    && forall t :: |before| <= t < |ais| ==> ais[t].entity == gs[t - |before| + 1] && ais[t].maze == maze
  }

  /** Appending a ghost and its controller keeps the controllers linked. */
  lemma LinkedExtend(ais: seq<GhostAI>, ai: GhostAI, gs: seq<Ghost>, g: Ghost, maze: Maze?, before: seq<GhostAI>, k: nat)
    requires LinkedOn(ais, gs, maze, before, k) && ai.entity == g && ai.maze == maze
    ensures LinkedOn(ais + [ai], gs + [g], maze, before, k + 1)
  {
    var ais', gs' := ais + [ai], gs + [g];
    assert ais'[..|ais|] == ais && ais'[..|before|] == ais[..|before|];
    forall t | |before| <= t < |ais'|
      ensures ais'[t].entity == gs'[t - |before| + 1] && ais'[t].maze == maze
    {
      if t < |ais| {
        assert ais'[t] == ais[t] && gs'[t - |before| + 1] == gs[t - |before| + 1];
      }
    }
  }

  /** A new AI ghost of the given colour on a path cell of the maze that
      is not among the occupied cells. */
  method NewAIGhost(maze: Maze, occupied: seq<Pos>, colour: Rgb) returns (g: Ghost)
    requires maze.Valid() && Count(maze.grid, PATH) > |occupied|
    ensures fresh(g) && PlacedOnPath(g, maze) && g.Cell() !in occupied
    ensures !g.isPlayer && g.colour == colour
  {
    var cell := FreeCell(maze, occupied);
    g := new Ghost(cell.x, cell.y, colour, false);
  }

  /** A new ghost on a path cell of the maze: level 1 and in play. */
  ghost predicate PlacedOnPath(g: Ghost, maze: Maze)
    reads g, maze
  {
    && 0 <= g.gridX < maze.size && 0 <= g.gridY < maze.size
    && |maze.grid| == maze.size && |maze.grid[g.gridY]| == maze.size
    && maze.grid[g.gridY][g.gridX] == PATH && g.level == 1 && g.Live()
  }

  class Game {
    var maze: Maze?
    var player: Ghost?
    /** All ghosts, the player first. */
    var ghosts: seq<Ghost>
    /** One controller per AI ghost of every game started so far. */
    var aiControllers: seq<GhostAI>
    var pacmans: seq<PacMan>
    var pacmanTimer: PacManTimer
    var state: int
    /** The verdict shown by the game-over screen. */
    var playerWon: bool

    /** The timer is in range, the spawn count is the number of active
        pickups, and once a game has started there is a maze with enough
        path cells and ten distinct ghosts with the player first. */
    ghost predicate Valid()
      reads this, maze, pacmanTimer
    {
      && Stocked()
      && STATE_MENU <= state <= STATE_GAME_OVER
      && (state != STATE_MENU ==> Started())
    }

    /** The timer is in range, no ghost is listed twice and the spawn count
        is the number of active pickups. */
    ghost predicate Stocked()
      reads this`ghosts, this`pacmans, this`pacmanTimer, pacmanTimer
    {
      && pacmanTimer.Valid()
      && DistinctGhosts(ghosts)
      && ActiveCount(pacmans) == pacmanTimer.pacmanCount && |pacmans| <= MAX_PACMANS
    }

    /** Stocked, except that the pickups may still include inactive ones
        beyond the bound: the state between the spawn step and the filter. */
    ghost predicate Counted()
      reads this`ghosts, this`pacmans, this`pacmanTimer, pacmanTimer
    {
      && pacmanTimer.Valid()
      && DistinctGhosts(ghosts)
      && ActiveCount(pacmans) == pacmanTimer.pacmanCount
    }

    /** A started game has a maze, a player and nine AI ghosts. */
    ghost predicate Started()
      reads this`maze, this`player, this`ghosts, maze
    {
      && maze != null && Playable(maze) && player != null
      && |ghosts| == AI_GHOSTS + 1 && ghosts[0] == player
    }

    /** A game at the menu: no maze, no ghosts, no pickups. */
    constructor ()
      ensures Valid() && state == STATE_MENU
      ensures maze == null && player == null && ghosts == [] && aiControllers == [] && pacmans == []
    {
      maze, player := null, null;
      ghosts, aiControllers, pacmans := [], [], [];
      pacmanTimer := new PacManTimer();
      state := STATE_MENU;
      playerWon := false;
    }

    /** _start_new_game, with the maze side and the AI ghosts' colours (drawn
        at random by the source) as parameters: a new maze, the player on a
        path cell, nine AI ghosts each on a path cell no other ghost holds,
        one controller per AI ghost appended to the existing ones, no
        pickups and a new timer. */
    method StartNewGame(n: int, colours: seq<Rgb>)
      requires MIN_MAZE_SIZE <= n <= MAX_MAZE_SIZE && |colours| == AI_GHOSTS
      modifies this
      ensures Valid() && state == STATE_PLAYING && fresh(maze) && maze.size == n
      ensures player == ghosts[0] && player.isPlayer && player.colour == BLUE
      ensures GhostsPlaced(colours) && ControllersLinked(old(aiControllers))
      ensures pacmans == [] && fresh(pacmanTimer) && pacmanTimer.timer == 0 && pacmanTimer.pacmanCount == 0
    {
      ghost var ais0 := aiControllers;
      var m := NewMaze(n);
      var p := NewPlayer(m);
      var timer := new PacManTimer();
      maze, player, ghosts := m, p, [p];
      pacmans, pacmanTimer, state := [], timer, STATE_PLAYING;
      PlaceAIGhosts(colours, ais0);
    }

    /** The ghosts of a started game: ten, each on a path cell of the maze
        at level 1 and in play, on pairwise different cells, the AI ghosts
        (all but the first) in the given colours. */
    ghost predicate GhostsPlaced(colours: seq<Rgb>)
      reads this`ghosts, this`maze, maze, set g | g in ghosts
    {
      |colours| == AI_GHOSTS && PlacedUpTo(colours, AI_GHOSTS)
    }

    /** The same for the player and the first k AI ghosts. */
    ghost predicate PlacedUpTo(colours: seq<Rgb>, k: nat)
      reads this`ghosts, this`maze, maze, set g | g in ghosts
    {
      maze != null && PlacedOn(ghosts, maze, colours, k)
    }

    /** The controllers are those before the game started followed by one
        per AI ghost, in order, each on the game's maze. */
    ghost predicate ControllersLinked(before: seq<GhostAI>)
      reads this`aiControllers, this`ghosts, this`maze
    {
      LinkedUpTo(before, AI_GHOSTS)
    }

    /** The same for the first k AI ghosts. */
    ghost predicate LinkedUpTo(before: seq<GhostAI>, k: nat)
      reads this`aiControllers, this`ghosts, this`maze
    {
      LinkedOn(aiControllers, ghosts, maze, before, k)
    }

    /** The AI loop of _start_new_game: nine AI ghosts, each on a path cell
        no earlier ghost holds, each with a controller appended. */
    method PlaceAIGhosts(colours: seq<Rgb>, ghost before: seq<GhostAI>)
      requires maze != null && Playable(maze)
      requires |ghosts| == 1 && PlacedOnPath(ghosts[0], maze) && |colours| == AI_GHOSTS
      requires aiControllers == before && player == ghosts[0]
      requires pacmanTimer.Valid() && ActiveCount(pacmans) == pacmanTimer.pacmanCount && |pacmans| <= MAX_PACMANS
      modifies this`ghosts, this`aiControllers
      ensures GhostsPlaced(colours) && ControllersLinked(before) && Stocked() && Started()
    {
      ghost var g0 := ghosts[0];
      PlacedStart(ghosts, maze, colours);
      assert before[..|before|] == before;
      for k := 0 to AI_GHOSTS
        invariant PlacedUpTo(colours, k) && ghosts[0] == g0 && LinkedUpTo(before, k)
      {
        AddAIGhost(colours, k, before);
      }
      PlacedDistinct(ghosts, maze, colours, AI_GHOSTS);
      assert Playable(maze);
    }

    /** Iteration k of the AI loop of _start_new_game: a new AI ghost of
        colour colours[k] on a path cell no ghost holds, and its controller,
        each appended. */
    method AddAIGhost(colours: seq<Rgb>, k: nat, ghost before: seq<GhostAI>)
      requires k < |colours| && PlacedUpTo(colours, k) && LinkedUpTo(before, k)
      requires maze.Valid() && Count(maze.grid, PATH) > |ghosts|
      modifies this`ghosts, this`aiControllers
      ensures PlacedUpTo(colours, k + 1) && LinkedUpTo(before, k + 1)
      ensures ghosts[..|old(ghosts)|] == old(ghosts) && aiControllers[..|old(aiControllers)|] == old(aiControllers)
      ensures ghosts[0] == old(ghosts[0])
    {
      // Both objects are allocated before either list changes, so that the
      // placement and the linking are argued about one heap.
      ghost var gs, as0 := ghosts, aiControllers;
      var cs := GhostCells(ghosts);
      var g := NewAIGhost(maze, cs, colours[k]);
      var ai := new GhostAI(g, maze);
      PlacedExtend(gs, g, maze, colours, k);
      LinkedExtend(as0, ai, gs, g, maze, before, k);
      aiControllers := aiControllers + [ai];
      ghosts := ghosts + [g];
      assert ghosts[..|gs|] == gs && aiControllers[..|as0|] == as0;
      assert ghosts[0] == gs[0];
    }

    /** _spawn_pacman: a new active pickup on a path cell that no ghost and
        no pickup (active or not) occupies. The cell is returned. */
    method SpawnPacMan() returns (cell: Pos)
      requires maze != null && Playable(maze) && |ghosts| + |pacmans| < MIN_PATH_CELLS
      modifies this`pacmans
      ensures InBounds(cell, maze.size) && maze.grid[cell.y][cell.x] == PATH
      ensures forall a :: 0 <= a < |ghosts| ==> ghosts[a].Cell() != cell
      ensures forall j :: 0 <= j < |old(pacmans)| ==> old(pacmans)[j].Cell() != cell
      ensures pacmans == old(pacmans) + [NewPacMan(cell.x, cell.y)]
    {
      var ps := pacmans;
      var occupied := GhostCells(ghosts) + seq(|ps|, k requires 0 <= k < |ps| => ps[k].Cell());
      assert forall j :: 0 <= j < |ps| ==> occupied[|ghosts| + j] == ps[j].Cell();
      cell := FreeCell(maze, occupied);
      pacmans := pacmans + [NewPacMan(cell.x, cell.y)];
    }

    /** The board the pickup pass sees: the ghosts' snapshots, the pickups
        and the spawn count. */
    function Snapshot(): Board
      reads this`ghosts, this`pacmans, this`pacmanTimer, pacmanTimer, set g | g in ghosts
    {
      Board(Views(ghosts), pacmans, pacmanTimer.pacmanCount)
    }

    /** The inner pickup loop of _check_collisions for ghost i. */
    method EatPickups(i: nat)
      requires i < |ghosts| && DistinctGhosts(ghosts)
      modifies ghosts`level, this`pacmans, pacmanTimer`pacmanCount
      ensures Snapshot() == EatFrom(old(Snapshot()), i, 0)
    {
      ghost var b0 := Snapshot();
      for j := 0 to |pacmans|
        invariant |pacmans| == |b0.pickups|
        invariant EatFrom(Snapshot(), i, j) == EatFrom(b0, i, 0)
      {
        ghost var b := Snapshot();
        EatOne(i, j);
        assert Snapshot() == Eat(b, i, j);
        assert EatFrom(b, i, j) == EatFrom(Eat(b, i, j), i, j + 1);
      }
    }

    /** One iteration of the inner pickup loop: ghost i eats pickup j if
        that pickup is active and on its cell. */
    method EatOne(i: nat, j: nat)
      requires i < |ghosts| && j < |pacmans| && DistinctGhosts(ghosts)
      modifies ghosts`level, this`pacmans, pacmanTimer`pacmanCount
      ensures Snapshot() == Eat(old(Snapshot()), i, j)
    {
      ghost var b := Snapshot();
      var g := ghosts[i];
      var p := pacmans[j];
      assert b.ghosts[i] == View(g) && b.pickups[j] == p;
      if !p.active {
        return;
      }
      if g.CollidesWithPacMan(p) {
        pacmans := pacmans[j := Collect(p)];
        g.LevelUp();
        var ok := pacmanTimer.DecrementCount();
        ghost var vs := b.ghosts[i := b.ghosts[i].(level := b.ghosts[i].level + 1)];
        assert Views(ghosts) == vs;
        assert Eat(b, i, j) == Board(vs, pacmans, pacmanTimer.pacmanCount);
      } else {
        assert Eat(b, i, j) == b;
      }
    }

    /** The pickup pass of _check_collisions: every ghost in play eats the
        active pickups on its cell. */
    method PickupCollisions()
      requires DistinctGhosts(ghosts)
      modifies ghosts`level, this`pacmans, pacmanTimer`pacmanCount
      ensures Snapshot() == PickupPass(old(Snapshot()))
    {
      ghost var b0 := Snapshot();
      for i := 0 to |ghosts|
        invariant PickupsFrom(Snapshot(), i) == PickupPass(b0)
      {
        ghost var b := Snapshot();
        var g := ghosts[i];
        assert b.ghosts[i] == View(g);
        if !g.alive || g.dying {
          assert PickupsFrom(b, i) == PickupsFrom(b, i + 1);
          continue;
        }
        EatPickups(i);
        assert Snapshot() == EatFrom(b, i, 0);
        assert PickupsFrom(b, i) == PickupsFrom(EatFrom(b, i, 0), i + 1);
      }
    }

    /** The inner ghost loop of _check_collisions for ghost i: every later
        ghost in play on its cell fights it. */
    method FightLater(i: nat)
      requires i < |ghosts| && DistinctGhosts(ghosts)
      modifies ghosts`dying
      ensures Views(ghosts) == ClashFrom(old(Views(ghosts)), i, i + 1)
    {
      ghost var v0 := Views(ghosts);
      for j := i + 1 to |ghosts|
        invariant Views(ghosts) == ClashUpTo(v0, i, j)
      {
        ghost var vs := Views(ghosts);
        MeetGhost(i, j);
        assert Views(ghosts) == Meet(vs, i, j);
        assert ClashUpTo(v0, i, j + 1) == Meet(ClashUpTo(v0, i, j), i, j);
      }
      ClashUpToFrom(v0, i, |ghosts|);
      assert ClashFrom(Views(ghosts), i, |ghosts|) == Views(ghosts);
    }

    /** One iteration of the inner ghost loop: ghost j, if in play and on
        ghost i's cell, fights ghost i. */
    method MeetGhost(i: nat, j: nat)
      requires i < j < |ghosts| && DistinctGhosts(ghosts)
      modifies ghosts`dying
      ensures Views(ghosts) == Meet(old(Views(ghosts)), i, j)
    {
      var ghost1, ghost2 := ghosts[i], ghosts[j];
      ghost var vs := Views(ghosts);
      if !ghost2.alive || ghost2.dying {
        return;
      }
      if ghost1.CollidesWith(ghost2) {
        if ghost1.level > ghost2.level {
          ghost2.StartDeath();
        } else if ghost2.level > ghost1.level {
          ghost1.StartDeath();
        } else {
          ghost1.StartDeath();
          ghost2.StartDeath();
        }
        vs := Fight(vs, i, j);
      }
      assert Views(ghosts) == vs;
    }

    /** The ghost pass of _check_collisions; ghost1's status is checked once
        per outer iteration. */
    method GhostCollisions()
      requires DistinctGhosts(ghosts)
      modifies ghosts`dying
      ensures Views(ghosts) == ClashPass(old(Views(ghosts)))
    {
      ghost var v0 := Views(ghosts);
      for i := 0 to |ghosts|
        invariant ClashesFrom(Views(ghosts), i) == ClashPass(v0)
      {
        ghost var vs := Views(ghosts);
        var ghost1 := ghosts[i];
        assert vs[i] == View(ghost1);
        if !ghost1.alive || ghost1.dying {
          assert ClashesFrom(vs, i) == ClashesFrom(vs, i + 1);
          continue;
        }
        FightLater(i);
        assert Views(ghosts) == ClashFrom(vs, i, i + 1);
        assert ClashesFrom(vs, i) == ClashesFrom(ClashFrom(vs, i, i + 1), i + 1);
      }
    }

    /** _check_collisions: the pickup pass, then the ghost pass on the
        levels the pickup pass leaves. */
    method CheckCollisions()
      requires DistinctGhosts(ghosts)
      modifies ghosts`level, ghosts`dying, this`pacmans, pacmanTimer`pacmanCount
      ensures pacmans == PickupPass(old(Snapshot())).pickups
      ensures pacmanTimer.pacmanCount == PickupPass(old(Snapshot())).count
      ensures Views(ghosts) == ClashPass(PickupPass(old(Snapshot())).ghosts)
      ensures Apart(Views(ghosts))
    {
      ghost var b0 := Snapshot();
      PickupCollisions();
      ghost var vs := Views(ghosts);
      assert vs == PickupPass(b0).ghosts;
      assert pacmans == PickupPass(b0).pickups && pacmanTimer.pacmanCount == PickupPass(b0).count;
      GhostCollisions();
      assert Views(ghosts) == ClashPass(vs);
      ClashPassSeparates(vs);
    }

    /** The end-of-tick checks of update: with at most one ghost in play
        the game is over and the player has won iff in play; otherwise, in
        PLAYING, a player out of play switches the game to SPECTATING. */
    method EndOfTick()
      requires Valid() && (state == STATE_PLAYING || state == STATE_SPECTATING)
      modifies this`state, this`playerWon
      ensures Valid()
      ensures InPlayCount(Views(ghosts)) <= 1 ==> state == STATE_GAME_OVER && (playerWon <==> player.Live())
      ensures InPlayCount(Views(ghosts)) > 1 ==>
                && playerWon == old(playerWon)
                && state == (if old(state) == STATE_PLAYING && !player.Live() then STATE_SPECTATING else old(state))
      ensures Snapshot() == old(Snapshot())
    {
      var aliveGhosts := InPlayCount(Views(ghosts));
      var playerInPlay := player.alive && !player.dying;
      if aliveGhosts <= 1 {
        playerWon := playerInPlay;
        state := STATE_GAME_OVER;
      } else if state == STATE_PLAYING && !playerInPlay {
        state := STATE_SPECTATING;
      }
      assert InPlayCount(Views(ghosts)) == aliveGhosts && player.Live() == playerInPlay;
    }

    /** The game-rule part of update for a frame of dt milliseconds: in the
        menu and after game over nothing happens; in play the timer runs
        and may spawn a pickup (its cell is returned), inactive pickups are
        dropped, collisions are resolved on what is left and the end-of-tick
        checks run. Afterwards no two ghosts in play share a cell. */
    method Tick(dt: int) returns (spawned: Option<Pos>)
      requires Valid() && dt >= 0
      modifies this`pacmans, this`state, this`playerWon, pacmanTimer`timer, pacmanTimer`pacmanCount
      modifies ghosts`level, ghosts`dying
      ensures Valid()
      ensures old(state) != STATE_PLAYING && old(state) != STATE_SPECTATING ==>
                && spawned.None? && state == old(state) && playerWon == old(playerWon)
                && unchanged(pacmanTimer)
                && Snapshot() == old(Snapshot())
      ensures old(state) == STATE_PLAYING || old(state) == STATE_SPECTATING ==>
                && (InPlayCount(Views(ghosts)) <= 1 ==> state == STATE_GAME_OVER && (playerWon <==> player.Live()))
                && (InPlayCount(Views(ghosts)) > 1 ==>
                      && playerWon == old(playerWon)
                      && state == if old(state) == STATE_PLAYING && !player.Live() then STATE_SPECTATING else old(state))
                && Apart(Views(ghosts))
      ensures old(state) == STATE_PLAYING || old(state) == STATE_SPECTATING ==>
                && pacmanTimer.timer ==
                     (if old(pacmanTimer.timer) + dt >= PACMAN_SPAWN_TIME then 0 else old(pacmanTimer.timer) + dt)
                && (spawned.Some? <==>
                      old(pacmanTimer.timer) + dt >= PACMAN_SPAWN_TIME && old(pacmanTimer.pacmanCount) < MAX_PACMANS)
      ensures spawned.Some? ==>
                && old(InBounds(spawned.value, maze.size) && maze.grid[spawned.value.y][spawned.value.x] == PATH)
                && Unoccupied(spawned.value, old(Snapshot()))
      ensures old(state) == STATE_PLAYING || old(state) == STATE_SPECTATING ==>
                Snapshot() == Collisions(Filtered(Spawn(old(Snapshot()), spawned)))
    {
      spawned := None;
      if state == STATE_PLAYING || state == STATE_SPECTATING {
        spawned := PlayTick(dt);
      }
    }

    /** The PLAYING and SPECTATING branch of update: spawn, filter and
        collisions, then the end-of-tick checks. */
    method PlayTick(dt: int) returns (spawned: Option<Pos>)
      requires Valid() && dt >= 0 && (state == STATE_PLAYING || state == STATE_SPECTATING)
      modifies this`pacmans, this`state, this`playerWon, pacmanTimer`timer, pacmanTimer`pacmanCount
      modifies ghosts`level, ghosts`dying
      ensures Valid()
      ensures InPlayCount(Views(ghosts)) <= 1 ==> state == STATE_GAME_OVER && (playerWon <==> player.Live())
      ensures InPlayCount(Views(ghosts)) > 1 ==>
                && playerWon == old(playerWon)
                && state == if old(state) == STATE_PLAYING && !player.Live() then STATE_SPECTATING else old(state)
      ensures Apart(Views(ghosts))
      ensures pacmanTimer.timer ==
                (if old(pacmanTimer.timer) + dt >= PACMAN_SPAWN_TIME then 0 else old(pacmanTimer.timer) + dt)
      ensures spawned.Some? <==>
                old(pacmanTimer.timer) + dt >= PACMAN_SPAWN_TIME && old(pacmanTimer.pacmanCount) < MAX_PACMANS
      ensures spawned.Some? ==>
                && old(InBounds(spawned.value, maze.size) && maze.grid[spawned.value.y][spawned.value.x] == PATH)
                && Unoccupied(spawned.value, old(Snapshot()))
      ensures Snapshot() == Collisions(Filtered(Spawn(old(Snapshot()), spawned)))
    {
      spawned := UpdateBoard(dt);
      EndOfTick();
    }

    /** The board part of the PLAYING and SPECTATING branch of update: the
        spawn timer, the filter of inactive pickups and the collisions. */
    method UpdateBoard(dt: int) returns (spawned: Option<Pos>)
      requires Valid() && dt >= 0 && (state == STATE_PLAYING || state == STATE_SPECTATING)
      modifies this`pacmans, pacmanTimer`timer, pacmanTimer`pacmanCount
      modifies ghosts`level, ghosts`dying
      ensures Valid() && Apart(Views(ghosts))
      ensures pacmanTimer.timer ==
                (if old(pacmanTimer.timer) + dt >= PACMAN_SPAWN_TIME then 0 else old(pacmanTimer.timer) + dt)
      ensures spawned.Some? <==>
                old(pacmanTimer.timer) + dt >= PACMAN_SPAWN_TIME && old(pacmanTimer.pacmanCount) < MAX_PACMANS
      ensures spawned.Some? ==>
                && old(InBounds(spawned.value, maze.size) && maze.grid[spawned.value.y][spawned.value.x] == PATH)
                && Unoccupied(spawned.value, old(Snapshot()))
      ensures Snapshot() == Collisions(Filtered(Spawn(old(Snapshot()), spawned)))
    {
      spawned := RunSpawnTimer(dt);
      ghost var b1 := Snapshot();
      ResolveCollisions();
      ghost var b2 := Snapshot();
      assert b2 == Collisions(Filtered(b1));
    }

    /** The spawn part of update: the timer runs for dt milliseconds; when
        it fires and the count is below its bound, the count goes up and a
        pickup is spawned on a free path cell, whose position is returned. */
    method RunSpawnTimer(dt: int) returns (spawned: Option<Pos>)
      requires Stocked() && Started() && dt >= 0
      modifies this`pacmans, pacmanTimer`timer, pacmanTimer`pacmanCount
      ensures Counted() && Started()
      ensures pacmanTimer.timer == if old(pacmanTimer.timer) + dt >= PACMAN_SPAWN_TIME then 0 else old(pacmanTimer.timer) + dt
      ensures spawned.Some? <==> old(pacmanTimer.timer) + dt >= PACMAN_SPAWN_TIME && old(pacmanTimer.pacmanCount) < MAX_PACMANS
      ensures Snapshot() == Spawn(old(Snapshot()), spawned)
      ensures spawned.Some? ==>
                && old(InBounds(spawned.value, maze.size) && maze.grid[spawned.value.y][spawned.value.x] == PATH)
                && Unoccupied(spawned.value, old(Snapshot()))
    {
      ghost var b0 := Snapshot();
      spawned := None;
      var fired := pacmanTimer.Update(dt);
      if fired {
        var ok := pacmanTimer.IncrementCount();
        if ok {
          var cell := PlacePickup(b0);
          spawned := Some(cell);
        }
      }
    }

    /** The spawn step on the board b0 taken before the counter moved: a
        fresh pickup on a free path cell is appended, the ghosts stay. */
    method PlacePickup(ghost b0: Board) returns (cell: Pos)
      requires maze != null && Playable(maze) && |ghosts| + |pacmans| < MIN_PATH_CELLS
      requires b0.ghosts == Views(ghosts) && b0.pickups == pacmans
      modifies this`pacmans
      ensures pacmans == b0.pickups + [NewPacMan(cell.x, cell.y)]
      ensures ActiveCount(pacmans) == ActiveCount(b0.pickups) + 1
      ensures Views(ghosts) == b0.ghosts
      ensures InBounds(cell, maze.size) && maze.grid[cell.y][cell.x] == PATH
      ensures Unoccupied(cell, b0)
    {
      cell := SpawnPacMan();
      ActiveCountAppend(b0.pickups, NewPacMan(cell.x, cell.y));
      UnoccupiedSnapshot(cell, ghosts, b0.pickups, b0.count);
    }

    /** The collision part of update: inactive pickups are dropped, then
        _check_collisions runs on what is left. Afterwards the count still
        matches the active pickups and no two ghosts in play share a cell. */
    method ResolveCollisions()
      requires Counted() && Started() && STATE_MENU < state <= STATE_GAME_OVER
      modifies ghosts`level, ghosts`dying, this`pacmans, pacmanTimer`pacmanCount
      ensures Valid()
      ensures pacmans == PickupPass(Filtered(old(Snapshot()))).pickups
      ensures pacmanTimer.pacmanCount == PickupPass(Filtered(old(Snapshot()))).count
      ensures Views(ghosts) == ClashPass(PickupPass(Filtered(old(Snapshot()))).ghosts)
      ensures Apart(Views(ghosts))
    {
      ghost var b0 := Snapshot();
      pacmans := ActivePickups(pacmans);
      assert Snapshot() == Filtered(b0);
      PickupPassKeepsCount(Snapshot());
      CheckCollisions();
      assert unchanged(maze);
    }
  }
}
