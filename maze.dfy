/** The maze itself: a grid of cells, the internal walls Kruskal's loop
    works on, the border walls of a wrapping maze, the players and the flags
    of the wall-removal phases.  `NonWrappingRoomMaze` and `WrappingRoomMaze`
    are one class here, told apart by `wrapping`. */
module Mazes {
  import opened Faults
  import opened MazePoints
  import opened Directions
  import opened Walls
  import opened Creatures
  import opened Cells
  import opened Players
  import opened DisjointSets
  import opened MazeLayout
  import opened Traversal
  import opened WallGrids
  import opened Boards
  import opened Kruskal
  import opened Encounters
  import opened Generators

  /** `MazeUtils.MAX_PERCENT`. */
  const MaxPercent: nat := 100
  /** `MazeUtils.BAT_PICK_PERCENTAGE`: a bat carries the player off when a
      draw below MaxPercent exceeds it. */
  const BatPickPercentage: nat := 50
  const WumpusKill: string := "Player killed by Wumpus!"
  const PitKill: string := "Player killed by falling in pit!"

  /** The element of `xs` that `nextInt(|xs|)` picks when the generator
      draws `draw`: the draw is brought below the length by taking the
      length off as often as it fits. */
  function Drawn<T>(xs: seq<T>, draw: nat): (x: T)
    requires |xs| > 0
    ensures x in xs
    decreases draw
  {
    if draw < |xs| then xs[draw] else Drawn(xs, draw - |xs|)
  }

  /** A nonzero multiple of n is at least n away from zero. */
  lemma {:induction false} MultipleBounds(k: int, n: nat)
    ensures k > 0 ==> k * n >= n
    ensures k < 0 ==> k * n + n <= 0
    decreases if k < 0 then -k else k
  {
    if k > 1 {
      MultipleBounds(k - 1, n);
      assert k * n == (k - 1) * n + n;
    } else if k < -1 {
      MultipleBounds(k + 1, n);
      assert k * n == (k + 1) * n - n;
    }
  }

  /** Taking n off a draw of at least n keeps its remainder by n. */
  lemma ModShift(d: nat, n: nat)
    requires 0 < n <= d
    ensures (d - n) % n == d % n
  {
    var q, r := (d - n) / n, (d - n) % n;
    var q', r' := d / n, d % n;
    assert (q + 1 - q') * n == (q + 1) * n - q' * n == r' - r;
    MultipleBounds(q + 1 - q', n);
  }

  /** `Drawn` is the element at the draw's remainder, the index
      `nextInt(|xs|)` returns. */
  lemma {:induction false} DrawnIsRemainder<T>(xs: seq<T>, draw: nat)
    requires |xs| > 0
    ensures Drawn(xs, draw) == xs[draw % |xs|]
    decreases draw
  {
    if draw >= |xs| {
      DrawnIsRemainder(xs, draw - |xs|);
      ModShift(draw, |xs|);
    }
  }

  /** What the creatures `cs` of room p do to a live player who comes to
      it, when o is the outcome and `at` the player's position after.  They
      run in descending priority, wumpus, bat, pit: the wumpus acts first,
      and it kills; a pit kills when there is no bat to act before it;
      without a bat nobody moves the player, and a room with no creature
      lets the player be. */
  predicate Met(cs: seq<Creature>, p: MazePoint, o: Outcome, at: MazePoint)
  {
    && (HasType(cs, Wumpus) ==> o == Fail(PlayerKilled(WumpusKill)) && at == p)
    && (HasType(cs, Pit) && !HasType(cs, Bat) && !HasType(cs, Wumpus) ==>
          o == Fail(PlayerKilled(PitKill)) && at == p)
    && (!HasType(cs, Bat) ==> at == p)
    && (!HasType(cs, Bat) && !HasType(cs, Wumpus) && !HasType(cs, Pit) ==> o == Pass)
  }

  /** What a bat's drop does when its draw is the u-th of `draws`, to a
      player at `from` on board b0, ending at `at` on board b with outcome
      o: no draw left is DrawsExhausted and nothing changes; otherwise the
      player lands in `landed`, the room of `rooms` (`getNonTunnelCells`)
      the draw picks, and meets that room's creatures as `Met` says (with
      no stack left, after landing, a stack overflow). */
  predicate Dropped(b0: Board, from: MazePoint, b: Board, at: MazePoint, rooms: seq<MazePoint>,
                    draws: seq<nat>, u: nat, depth: nat, o: Outcome, landed: MazePoint)
  {
    && (u >= |draws| ==> o == Fail(DrawsExhausted) && at == from && b == b0)
    && (u < |draws| ==>
          && 0 < |rooms| && landed == Drawn(rooms, draws[u])
          && (depth == 0 ==> o == Fail(StackOverflow) && at == landed)
          && (depth > 0 ==> 0 <= landed.x < |b0| && 0 <= landed.y < |b0[landed.x]|
                            && Met(b0[landed.x][landed.y].creatures, landed, o, at)))
  }

  /** The creature percentages `addCreaturesToCells` takes, a map from
      creature type to percentage, as its entries in iteration order: no
      type twice. */
  predicate DistinctKeys(percentages: seq<(CreatureType, int)>)
  {
    forall i, j :: 0 <= i < j < |percentages| ==> percentages[i].0 != percentages[j].0
  }

  /** Every percentage lies between 0 and MaxPercent. */
  predicate PercentagesOk(percentages: seq<(CreatureType, int)>)
  {
    forall i :: 0 <= i < |percentages| ==> 0 <= percentages[i].1 <= MaxPercent
  }

  /** The first loop of `addCreaturesToCells`: a percentage below 0 or
      above MaxPercent is an IllegalArgumentException. */
  method CheckPercentages(percentages: seq<(CreatureType, int)>) returns (o: Outcome)
    ensures o.Pass? <==> PercentagesOk(percentages)
    ensures o.Fail? ==> o.fault == IllegalArgument
  {
    for i := 0 to |percentages|
      invariant forall j :: 0 <= j < i ==> 0 <= percentages[j].1 <= MaxPercent
    {
      if percentages[i].1 < 0 || percentages[i].1 > MaxPercent {
        return Fail(IllegalArgument);
      }
    }
    return Pass;
  }

  /** How many creatures an entry asks for: that percentage of the rooms,
      rounded down as Java's integer division does for these non-negative
      operands. */
  function Share(rooms: nat, percentage: int): (n: int)
    requires 0 <= percentage <= MaxPercent
    ensures 0 <= n <= rooms
    ensures n * MaxPercent <= rooms * percentage < (n + 1) * MaxPercent
  {
    rooms * percentage / MaxPercent
  }

  /** A wall object stands where `s` says. */
  predicate Placed(w: Wall, s: WallSpec)
  {
    w.row == s.row && w.col == s.col && w.vertical == s.vertical
  }

  /** The k-th wall of a new maze: standing, numbered k, where SpecAt says. */
  ghost predicate Made(g: Geometry, w: Wall, k: nat)
    requires g.NonEmpty()
    reads w
  {
    !w.removed && w.slot == k && Placed(w, SpecAt(g, k))
  }

  /** The enough-walls check of the non-wrapping constructor, as written
      on ints: fewer internal walls than a spanning tree plus the extras. */
  predicate TooFewWalls(rowCount: int, columnCount: int, extra: int)
  {
    (rowCount - 1) * columnCount + (columnCount - 1) * rowCount < extra + (rowCount * columnCount - 1)
  }

  /** The check accepts exactly the extra counts that fit into the walls a
      spanning tree leaves standing: (rows-1)*(cols-1) of them. */
  lemma TooFewWallsMeans(rowCount: int, columnCount: int, extra: int)
    ensures TooFewWalls(rowCount, columnCount, extra) <==> extra > (rowCount - 1) * (columnCount - 1)
  {
    assert (rowCount - 1) * (columnCount - 1) == rowCount * columnCount - rowCount - columnCount + 1;
  }

  /** A Java `int` result: n wrapped into 32 bits, two's complement. */
  function Int32(n: int): (r: int)
    ensures -0x8000_0000 <= r < 0x8000_0000
    ensures -0x8000_0000 <= n < 0x8000_0000 ==> r == n
  {
    (n + 0x8000_0000) % 0x1_0000_0000 - 0x8000_0000
  }

  /** The enough-walls check as Java evaluates it: the right-hand side
      `extra + (rows * cols - 1)` is computed on 32-bit ints. */
  predicate TooFewWallsAsWritten(rowCount: int, columnCount: int, extra: int)
  {
    (rowCount - 1) * columnCount + (columnCount - 1) * rowCount
      < Int32(extra + Int32(Int32(rowCount * columnCount) - 1))
  }

  /** The wrap-around lets through a count no maze can meet: a 2x2 maze has
      one wall beyond a spanning tree, yet Integer.MAX_VALUE extra walls
      pass the check as written, while the intended check refuses them. */
  lemma TooFewWallsOverflows()
    ensures !TooFewWallsAsWritten(2, 2, 0x7fff_ffff)
    ensures TooFewWalls(2, 2, 0x7fff_ffff)
  {
    assert Int32(0x7fff_ffff + 3) == -0x7fff_fffe;
  }

  /** While rows*cols and the sum fit in an int, the check as written is
      the intended one. */
  lemma TooFewWallsAsWrittenAgrees(rowCount: int, columnCount: int, extra: int)
    requires 0 < rowCount && 0 < columnCount && 0 <= extra
    requires rowCount * columnCount < 0x8000_0000 && extra + rowCount * columnCount - 1 < 0x8000_0000
    ensures TooFewWallsAsWritten(rowCount, columnCount, extra) <==> TooFewWalls(rowCount, columnCount, extra)
  {
    assert rowCount * columnCount >= columnCount by {
      assert rowCount * columnCount == (rowCount - 1) * columnCount + columnCount;
    }
  }

  /** A set of indices below n with fewer than n members misses one of
      them: a list of n walls with fewer than n removed has one standing. */
  lemma {:induction false} MissingIndex(s: set<nat>, n: nat)
    requires forall i :: i in s ==> i < n
    requires |s| < n
    ensures exists k: nat :: k < n && k !in s
  {
    if n - 1 in s {
      MissingIndex(s - {n - 1}, n - 1);
    }
  }

  /** The turn after player i's among `count` players. */
  function NextTurn(i: nat, count: nat): (j: nat)
    requires count > 0
    ensures j < count
  {
    (i + 1) % count
  }

  /** Within one round the turn passes to the next index, and after the
      last player back to the first. */
  lemma NextTurnWithin(i: nat, count: nat)
    requires i < count
    ensures NextTurn(i, count) == if i + 1 < count then i + 1 else 0
  {
    if i + 1 < count {
      DivModUnique(i + 1, count, 0, i + 1);
    } else {
      DivModUnique(i + 1, count, 1, 0);
    }
  }

  /** The turn k turns after player i's. */
  function Turns(i: nat, count: nat, k: nat): (j: nat)
    requires count > 0
    decreases k
  {
    if k == 0 then i else NextTurn(Turns(i, count, k - 1), count)
  }

  /** Passing the turn on from player a mod count gives player (a + 1) mod
      count. */
  lemma NextTurnMod(a: nat, count: nat)
    requires count > 0
    ensures NextTurn(a % count, count) == (a + 1) % count
  {
    var q, r := a / count, a % count;
    assert a == q * count + r;
    if r + 1 < count {
      DivModUnique(r + 1, count, 0, r + 1);
      DivModUnique(a + 1, count, q, r + 1);
    } else {
      DivModUnique(r + 1, count, 1, 0);
      assert a + 1 == (q + 1) * count + 0;
      DivModUnique(a + 1, count, q + 1, 0);
    }
  }

  /** Turns go round the players in order: k turns after player i's it is
      player (i + k) mod count's turn. */
  lemma {:induction false} TurnsRotate(i: nat, count: nat, k: nat)
    requires count > 0 && i < count
    ensures Turns(i, count, k) == (i + k) % count
    decreases k
  {
    if k > 0 {
      TurnsRotate(i, count, k - 1);
      NextTurnMod(i + k - 1, count);
    } else {
      DivModUnique(i, count, 0, i);
    }
  }

  /** After as many turns as there are players, the turn is back where it
      started: every player gets one turn per round. */
  lemma TurnsCycle(i: nat, count: nat)
    requires count > 0 && i < count
    ensures Turns(i, count, count) == i
  {
    TurnsRotate(i, count, count);
    DivModUnique(i + count, count, 1, i);
  }

  // ---------------------------------------------------------------------
  // Building the grid

  /** One row of `initCells`. */
  method InitRow(i: nat, columnCount: nat) returns (line: seq<Cell>)
    ensures |line| == columnCount
    ensures forall c :: 0 <= c < columnCount ==>
              fresh(line[c]) && line[c].Valid() && line[c].row == i && line[c].col == c
              && line[c].State() == FreshCell
  {
    line := [];
    for j := 0 to columnCount
      invariant |line| == j
      invariant forall c :: 0 <= c < j ==>
                  fresh(line[c]) && line[c].Valid() && line[c].row == i && line[c].col == c
                  && line[c].State() == FreshCell
    {
      var cell := new Cell(i, j);
      line := line + [cell];
    }
  }

  /** `initCells`: a fresh cell with four walls at every position. */
  method InitCells(rowCount: nat, columnCount: nat) returns (cs: seq<seq<Cell>>)
    ensures |cs| == rowCount
    ensures forall r :: 0 <= r < rowCount ==> |cs[r]| == columnCount
    ensures forall r, c :: 0 <= r < rowCount && 0 <= c < columnCount ==>
              fresh(cs[r][c]) && cs[r][c].Valid() && cs[r][c].row == r && cs[r][c].col == c
              && cs[r][c].State() == FreshCell
  {
    cs := [];
    for i := 0 to rowCount
      invariant |cs| == i
      invariant forall r :: 0 <= r < i ==> |cs[r]| == columnCount
      invariant forall r, c :: 0 <= r < i && 0 <= c < columnCount ==>
                  fresh(cs[r][c]) && cs[r][c].Valid() && cs[r][c].row == r && cs[r][c].col == c
                  && cs[r][c].State() == FreshCell
    {
      var line := InitRow(i, columnCount);
      cs := cs + [line];
    }
  }

  function Min(a: int, b: int): int
  {
    if a < b then a else b
  }

  /** One pass of the outer loop of `initWallsForMaze`: for every column a
      horizontal wall (except in the last row), then a vertical wall (except
      in the last column). */
  method InitWallRow(g: Geometry, i: nat, start: seq<Wall>) returns (ws: seq<Wall>)
    requires g.NonEmpty() && i < g.rows && |start| == i * Block(g)
    ensures |ws| == if i < g.rows - 1 then (i + 1) * Block(g) else WallCount(g)
    ensures ws[..|start|] == start
    ensures forall k :: |start| <= k < |ws| ==> fresh(ws[k]) && Made(g, ws[k], k)
  {
    ws := start;
    for j := 0 to g.cols
      invariant |ws| == |start| + (if i < g.rows - 1 then j else 0) + Min(j, g.cols - 1)
      invariant ws[..|start|] == start
      invariant forall k :: |start| <= k < |ws| ==> fresh(ws[k]) && Made(g, ws[k], k)
    {
      if i < g.rows - 1 {
        var w := new Wall(i, j, false, |ws|);
        HIndexSpec(g, i, j);
        ws := ws + [w];
      }
      if j < g.cols - 1 {
        var w := new Wall(i, j, true, |ws|);
        VIndexSpec(g, i, j);
        ws := ws + [w];
      }
    }
    WallCountBlocks(g);
    assert (i + 1) * Block(g) == i * Block(g) + Block(g);
  }

  /** `initWallsForMaze`: exactly WallCount walls, the k-th standing where
      SpecAt says, none removed. */
  method InitWalls(g: Geometry) returns (ws: seq<Wall>)
    requires g.NonEmpty()
    ensures |ws| == WallCount(g)
    ensures forall k :: 0 <= k < |ws| ==> fresh(ws[k]) && Made(g, ws[k], k)
  {
    ws := [];
    for i := 0 to g.rows
      invariant |ws| == if i < g.rows then i * Block(g) else WallCount(g)
      invariant forall k :: 0 <= k < |ws| ==> fresh(ws[k]) && Made(g, ws[k], k)
    {
      ghost var before := ws;
      ws := InitWallRow(g, i, ws);
      assert forall k :: 0 <= k < |before| ==> ws[k] == before[k];
    }
  }

  /** `initBorderWalls`: a vertical wall at the last column of every row,
      then a horizontal wall at the last row of every column. */
  method InitBorderWalls(g: Geometry) returns (bs: seq<Wall>)
    requires g.NonEmpty()
    ensures |bs| == BorderCount(g)
    ensures forall k :: 0 <= k < |bs| ==> fresh(bs[k]) && !bs[k].removed && bs[k].slot == -1 - k && Placed(bs[k], BorderSpec(g, k))
  {
    bs := [];
    for i := 0 to g.rows
      invariant |bs| == i
      invariant forall k :: 0 <= k < |bs| ==> fresh(bs[k]) && !bs[k].removed && bs[k].slot == -1 - k && Placed(bs[k], BorderSpec(g, k))
    {
      var w := new Wall(i, g.cols - 1, true, -1 - |bs|);
      bs := bs + [w];
    }
    for i := 0 to g.cols
      invariant |bs| == g.rows + i
      invariant forall k :: 0 <= k < |bs| ==> fresh(bs[k]) && !bs[k].removed && bs[k].slot == -1 - k && Placed(bs[k], BorderSpec(g, k))
    {
      var w := new Wall(g.rows - 1, i, false, -1 - |bs|);
      bs := bs + [w];
    }
  }

  // ---------------------------------------------------------------------
  // The maze

  class Maze {
    const rows: nat
    const cols: nat
    /** `isWrappingMaze`. */
    const wrapping: bool
    const playerCount: nat
    const extraInternalWallsToRemove: int
    /** Only meaningful for a wrapping maze. */
    const borderWallsToRemove: int
    /** How deep the recursive walks may go before the JVM's stack would
        overflow. */
    const stackDepth: nat
    const cells: seq<seq<Cell>>
    /** The internal walls, in the order `initWallsForMaze` creates them. */
    const walls: seq<Wall>
    /** The border walls of a wrapping maze; empty otherwise. */
    const borderWalls: seq<Wall>
    ghost const cellSet: set<Cell>
    ghost const wallSet: set<Wall>

    /** The flag of Kruskal's phase (`AbstractMaze.wallsRemoved`). */
    var wallsRemoved: bool
    var removedInternalWalls: bool
    var removedBorderWalls: bool
    var players: seq<MazePlayer>
    ghost var playerSet: set<MazePlayer>
    var nextPlayerIndex: nat
    /** The generator bats and player placement draw from. */
    const movementGenerator: Generator

    function Geo(): Geometry
    {
      Geometry(rows, cols, wrapping)
    }

    /** The fixed structure: dimensions, every cell at its position, every
        wall where its index says, the requested counts within what the
        constructors accept. */
    ghost predicate Shape()
    {
      && rows > 0 && cols > 0 && playerCount >= 1
      && 0 <= extraInternalWallsToRemove <= (rows - 1) * (cols - 1)
      && (wrapping ==> borderWallsToRemove <= rows + cols)
      && |cells| == rows
      && (forall r :: 0 <= r < rows ==> |cells[r]| == cols)
      && (forall r, c :: 0 <= r < rows && 0 <= c < cols ==>
            cells[r][c] in cellSet && cells[r][c].row == r && cells[r][c].col == c)
      && |walls| == WallCount(Geo())
      && |borderWalls| == (if wrapping then BorderCount(Geo()) else 0)
      && (forall k :: 0 <= k < |walls| ==>
            walls[k] in wallSet && walls[k].slot == k && Placed(walls[k], SpecAt(Geo(), k)))
      && (forall k :: 0 <= k < |borderWalls| ==>
            borderWalls[k] in wallSet && borderWalls[k].slot == -1 - k && Placed(borderWalls[k], BorderSpec(Geo(), k)))
    }

    function WallOf(w: WallRef): (wall: Wall)
      requires Shape() && ValidRef(Geo(), w)
      ensures Placed(wall, SpecOf(Geo(), w))
    {
      match w
      case Internal(k) => walls[k]
      case Border(k) => borderWalls[k]
    }

    /** Indices of the removed internal walls. */
    ghost function RemovedInternal(): set<nat>
      requires Shape()
      reads wallSet
    {
      set k | 0 <= k < |walls| && walls[k].removed
    }

    /** Indices of the removed border walls. */
    ghost function RemovedBorder(): set<nat>
      requires Shape()
      reads wallSet
    {
      set k | 0 <= k < |borderWalls| && borderWalls[k].removed
    }

    ghost predicate IsRemoved(w: WallRef)
      requires Shape() && ValidRef(Geo(), w)
      reads wallSet
    {
      WallOf(w).removed
    }

    /** A wall is removed exactly when its index is among the removed ones. */
    lemma RemovedMeans(w: WallRef)
      requires Shape() && ValidRef(Geo(), w)
      ensures IsRemoved(w) <==> !ClosedIn(Some(w), RemovedInternal(), RemovedBorder())
    {
    }

    /** What every cell holds now. */
    function Board(): (b: Board)
      requires Shape()
      reads cellSet
      ensures BoardShape(Geo(), b)
      ensures forall r, c :: 0 <= r < rows && 0 <= c < cols ==> b[r][c] == cells[r][c].State()
    {
      seq(rows, r requires 0 <= r < rows reads cellSet =>
        seq(cols, c requires 0 <= c < cols reads cellSet => cells[r][c].State()))
    }

    /** Every cell's remaining walls, as the walks read them. */
    function WallGrid(): (ws: Grid)
      requires Shape()
      reads cellSet
    {
      WallsOf(Geo(), Board())
    }

    /** `allRequestedWallsRemoved` of the concrete maze: Kruskal's flag and
        the extra-wall flag, and for a wrapping maze the border flag. */
    predicate AllRequestedWallsRemoved()
      reads this
    {
      wallsRemoved && removedInternalWalls && (wrapping ==> removedBorderWalls)
    }

    /** Nothing is removed before Kruskal's phase, and nothing is placed
        before every phase is done. */
    ghost predicate Phases()
      requires Shape()
      reads this, cellSet, wallSet
    {
      && (!wallsRemoved ==>
            RemovedInternal() == {} && RemovedBorder() == {} && !removedInternalWalls && !removedBorderWalls)
      && (!AllRequestedWallsRemoved() ==> Empty(Geo(), Board()) && players == [] && nextPlayerIndex == 0)
    }

    /** A room: a position of the grid that is not a tunnel. */
    ghost predicate InRoom(p: MazePoint)
      requires Shape()
      reads cellSet
    {
      Geo().InRange(p) && !IsTunnelAt(WallGrid(), p)
    }

    ghost predicate PlayersOk()
      requires Shape()
      reads this, cellSet, playerSet
    {
      && |players| <= playerCount && nextPlayerIndex < playerCount
      && (forall t :: 0 <= t < |players| ==> players[t] in playerSet)
      && (forall t :: 0 <= t < |players| ==>
            players[t].index == t && players[t].Valid() && InRoom(players[t].position))
    }

    /** The invariant of the generation phases: the board agrees with the
        wall objects and no creature is placed yet. */
    ghost predicate Building()
      reads cellSet, wallSet
    {
      Shape() && Generating(Geo(), Board(), RemovedInternal(), RemovedBorder())
    }

    /** Everything but the phase order, which the generation loops break
        while they run. */
    ghost predicate Core()
      reads this, cellSet, wallSet, playerSet
    {
      && Shape() && CellsOk(Geo(), Board())
      && Agrees(Geo(), WallGrid(), RemovedInternal(), RemovedBorder())
      && PlayersOk()
    }

    ghost predicate Valid()
      reads this, cellSet, wallSet, playerSet
    {
      Core() && Phases()
    }

    twostate predicate SameFlags()
      reads this
    {
      && wallsRemoved == old(wallsRemoved) && removedInternalWalls == old(removedInternalWalls)
      && removedBorderWalls == old(removedBorderWalls)
    }

    /** The constructors of AbstractMaze, NonWrappingRoomMaze and
        WrappingRoomMaze, past their argument checks. */
    constructor (rowCount: nat, columnCount: nat, wraps: bool, extra: int, border: int,
                 count: nat, depth: nat, movement: Generator)
      requires rowCount > 0 && columnCount > 0 && count >= 1
      requires 0 <= extra <= (rowCount - 1) * (columnCount - 1)
      requires wraps ==> border <= rowCount + columnCount
      ensures Valid() && fresh(cellSet) && fresh(wallSet) && playerSet == {}
      ensures rows == rowCount && cols == columnCount && wrapping == wraps && playerCount == count
      ensures extraInternalWallsToRemove == extra && borderWallsToRemove == border
      ensures stackDepth == depth && movementGenerator == movement
      ensures !wallsRemoved && !removedInternalWalls && !removedBorderWalls
      ensures players == [] && nextPlayerIndex == 0
      ensures Board() == NewBoard(Geo())
    {
      var g := Geometry(rowCount, columnCount, wraps);
      var ws := InitWalls(g);
      var bs: seq<Wall> := [];
      if wraps {
        bs := InitBorderWalls(g);
      }
      // The cells are built last; the three builders touch disjoint fresh
      // objects, so the order is immaterial.
      var cs := InitCells(rowCount, columnCount);
      rows, cols, wrapping, playerCount := rowCount, columnCount, wraps, count;
      extraInternalWallsToRemove, borderWallsToRemove, stackDepth := extra, border, depth;
      cells, walls, borderWalls := cs, ws, bs;
      cellSet := set r, c | 0 <= r < rowCount && 0 <= c < columnCount :: cs[r][c];
      wallSet := (set k | 0 <= k < |ws| :: ws[k]) + (set k | 0 <= k < |bs| :: bs[k]);
      wallsRemoved, removedInternalWalls, removedBorderWalls := false, false, false;
      players, playerSet, nextPlayerIndex := [], {}, 0;
      movementGenerator := movement;
      new;
      assert Shape();
      InitialValid();
    }

    /** A maze whose cells are new and whose walls all stand is valid, and
        its board is the new board. */
    lemma InitialValid()
      requires Shape()
      requires forall r, c :: 0 <= r < rows && 0 <= c < cols ==> cells[r][c].State() == FreshCell
      requires forall k :: 0 <= k < |walls| ==> !walls[k].removed
      requires forall k :: 0 <= k < |borderWalls| ==> !borderWalls[k].removed
      requires players == [] && nextPlayerIndex == 0 && !wallsRemoved
      requires !removedInternalWalls && !removedBorderWalls
      ensures Valid() && Board() == NewBoard(Geo())
    {
      var now, initial := Board(), NewBoard(Geo());
      forall r | 0 <= r < rows
        ensures now[r] == initial[r]
      {
      }
      NewBoardGenerating(Geo());
    }

    /** `removeWallHelper`: a vertical wall clears EAST of its cell and WEST
        of the cell in the next column, a horizontal one SOUTH of its cell
        and NORTH of the cell in the next row (the next index wraps only in
        a wrapping maze); then the wall is marked removed.  A wall already
        removed makes the first side fail with an IllegalStateException and
        nothing changes.  Called only while the maze is being generated. */
    method RemoveWallHelper(w: WallRef) returns (o: Outcome)
      requires Building() && ValidRef(Geo(), w)
      modifies cellSet, WallOf(w)
      ensures Building()
      ensures o.Fail? <==> old(IsRemoved(w))
      ensures o.Fail? ==> o.fault == IllegalState && Board() == old(Board())
      ensures o.Pass? ==> Board() == OpenBoard(Geo(), old(Board()), w)
      ensures IsRemoved(w)
      ensures RemovedInternal() == AddInternal(old(RemovedInternal()), w)
      ensures RemovedBorder() == AddBorder(old(RemovedBorder()), w)
    {
      ghost var before := Board();
      o := ClearSides(w);
      if o.Pass? {
        OpenBoardGenerating(Geo(), before, RemovedInternal(), RemovedBorder(), w);
        o := MarkRemoved(w);
      }
    }

    /** The wall half of `removeWallHelper`: the wall object is marked
        removed. */
    method MarkRemoved(w: WallRef) returns (o: Outcome)
      requires Shape() && ValidRef(Geo(), w) && !IsRemoved(w)
      requires Generating(Geo(), Board(), AddInternal(RemovedInternal(), w), AddBorder(RemovedBorder(), w))
      modifies WallOf(w)
      ensures Building() && Board() == old(Board())
      ensures IsRemoved(w) && o == Pass
      ensures RemovedInternal() == AddInternal(old(RemovedInternal()), w)
      ensures RemovedBorder() == AddBorder(old(RemovedBorder()), w)
    {
      ghost var board, ri, rb := Board(), AddInternal(RemovedInternal(), w), AddBorder(RemovedBorder(), w);
      var wall := WallOf(w);
      o := wall.RemoveWall();
      assert Board() == board && RemovedInternal() == ri && RemovedBorder() == rb;
    }

    /** One `removeWallInDirection`, on the cell of side s, while the cell
        holds no creature. */
    method ClearSide(s: Side) returns (o: Outcome)
      requires Shape() && SideInRange(Geo(), s)
      requires StateOk(Board()[s.row][s.col]) && Board()[s.row][s.col].creatures == []
      modifies cells[s.row][s.col]
      ensures o.Fail? <==> s.dir !in old(Board())[s.row][s.col].walls
      ensures o.Fail? ==> o.fault == IllegalState && Board() == old(Board())
      ensures o.Pass? ==> Board() == ClearAt(old(Board()), s)
    {
      ghost var before := Board();
      var cell := cells[s.row][s.col];
      o := cell.RemoveWallInDirection(s.dir);
      var now, after := Board(), if o.Pass? then ClearAt(before, s) else before;
      forall r | 0 <= r < rows
        ensures now[r] == after[r]
      {
      }
    }

    /** The cell half of `removeWallHelper`: the two sides of the wall are
        removed from the wall lists of the cells on either side. */
    method ClearSides(w: WallRef) returns (o: Outcome)
      requires Building() && ValidRef(Geo(), w)
      modifies cellSet
      ensures o.Fail? <==> old(IsRemoved(w))
      ensures o.Fail? ==> o.fault == IllegalState && Board() == old(Board())
      ensures o.Pass? ==> Board() == OpenBoard(Geo(), old(Board()), w)
    {
      var g := Geo();
      var wall := WallOf(w);
      // The two sides follow the wall's own row, column and orientation;
      // `isHorizontal` is `!isVertical`, so the else-if of the source is an else.
      var spec := WallSpec(wall.row as nat, wall.col as nat, wall.vertical);
      assert spec == SpecOf(g, w);
      var s1, s2 := FirstSide(spec), SecondSide(g, spec);
      OpenBoardSteps(g, Board(), RemovedInternal(), RemovedBorder(), w);
      RemovedMeans(w);
      o := ClearSide(s1);
      if o.Pass? {
        o := ClearSide(s2);
      }
    }

    /** The union-find has one set per cell's representative: its set count
        is the number of distinct representatives. */
    static lemma CountIsReps(ds: DisjointSet)
      requires ds.Valid()
      ensures ds.SetCount() == |Reps(ds.root)|
    {
      RootsAreRepresentatives(ds.cellParent[..], ds.root, ds.depth);
      assert (set i | 0 <= i < |ds.cellParent[..]| :: ds.root[i]) == Reps(ds.root);
    }

    /** Kruskal's loop of `removeWalls`: while the union-find has more than
        one set, a wall whose two cells lie in different sets is removed and
        the two sets are combined.  The source draws walls at random and
        skips the removed ones and those inside one set; a skipped draw
        changes nothing but the union-find's path compression, so the
        choice here is among the walls that join two sets, which a wall
        already removed never does.  Afterwards exactly rows*cols-1 internal
        walls are removed and they join every cell to every other: a
        spanning tree. */
    method RemoveSpanningTree()
      requires Building() && RemovedInternal() == {} && RemovedBorder() == {}
      modifies cellSet, wallSet
      ensures Building() && RemovedBorder() == {}
      ensures |RemovedInternal()| == CellCount(Geo()) - 1
      ensures forall x, y :: 0 <= x < CellCount(Geo()) && 0 <= y < CellCount(Geo()) ==>
                Connected(Geo(), RemovedInternal(), x, y)
    {
      var ds, count := NewUnionFind();
      JoinAllSets(ds, count);
      MulAtLeast(rows, cols);
      CountIsReps(ds);
      OneSet(ds.root);
      SpanningDone(Geo(), RemovedInternal(), ds.root);
    }

    /** The loop itself, run until the union-find holds a single set. */
    method JoinAllSets(ds: DisjointSet, count: nat)
      requires Building() && RemovedBorder() == {}
      requires ds.Valid() && ds.n == CellCount(Geo()) && count == ds.SetCount()
      requires Spanning(Geo(), RemovedInternal(), ds.root)
      requires |RemovedInternal()| + count == CellCount(Geo())
      modifies cellSet, wallSet, ds, ds.cellParent
      ensures Building() && RemovedBorder() == {}
      ensures ds.Valid() && ds.n == CellCount(Geo()) && ds.SetCount() <= 1
      ensures Spanning(Geo(), RemovedInternal(), ds.root)
      ensures |RemovedInternal()| + ds.SetCount() == CellCount(Geo())
    {
      var totalCells := rows * cols;
      var sets := count;
      while sets > 1
        invariant ds.Valid() && ds.n == totalCells
        invariant Building() && RemovedBorder() == {}
        invariant Spanning(Geo(), RemovedInternal(), ds.root)
        invariant sets == ds.SetCount()
        invariant |RemovedInternal()| + sets == totalCells
        decreases sets
      {
        sets := JoinTwoSets(ds);
      }
    }

    /** The union-find of Kruskal's loop, one singleton set per cell. */
    method NewUnionFind() returns (ds: DisjointSet, count: nat)
      requires Building() && RemovedInternal() == {} && RemovedBorder() == {}
      ensures Building() && RemovedInternal() == {} && RemovedBorder() == {}
      ensures fresh(ds) && fresh(ds.cellParent)
      ensures ds.Valid() && ds.n == CellCount(Geo()) && count == ds.SetCount() == CellCount(Geo())
      ensures Spanning(Geo(), RemovedInternal(), ds.root)
    {
      MulAtLeast(rows, cols);
      ds := new DisjointSet(rows * cols);
      SpanningInitial(Geo(), ds.root);
      count := ds.GetUnsetParentCellCount();
    }

    /** One productive pass of Kruskal's loop: a wall between two sets is
        removed and its sets combined. */
    method JoinTwoSets(ds: DisjointSet) returns (count: nat)
      requires Building() && RemovedBorder() == {}
      requires ds.Valid() && ds.n == CellCount(Geo()) && ds.SetCount() > 1
      requires Spanning(Geo(), RemovedInternal(), ds.root)
      modifies cellSet, wallSet, ds, ds.cellParent
      ensures ds.Valid() && Building() && RemovedBorder() == {}
      ensures Spanning(Geo(), RemovedInternal(), ds.root)
      ensures count == ds.SetCount() == old(ds.SetCount()) - 1
      ensures |RemovedInternal()| == |old(RemovedInternal())| + 1
    {
      var k := ChooseJoiningWall(Geo(), ds);
      JoinAcross(ds, k);
      count := ds.GetUnsetParentCellCount();
    }

    /** The body of that pass once wall k is drawn: the roots of its two
        cells are found, and as they differ the wall comes down and the
        sets are combined. */
    method JoinAcross(ds: DisjointSet, k: nat)
      requires Building() && RemovedBorder() == {}
      requires ds.Valid() && ds.n == CellCount(Geo())
      requires Spanning(Geo(), RemovedInternal(), ds.root)
      requires k < WallCount(Geo()) && Separates(Geo(), ds.root, k)
      modifies cellSet, wallSet, ds, ds.cellParent
      ensures ds.Valid() && Building() && RemovedBorder() == {}
      ensures Spanning(Geo(), RemovedInternal(), ds.root)
      ensures ds.SetCount() == old(ds.SetCount()) - 1
      ensures |RemovedInternal()| == |old(RemovedInternal())| + 1
    {
      var (cellOneIndex, cellTwoIndex) := WallCells(k);
      var rootOne, rootTwo := FindPair(ds, cellOneIndex, cellTwoIndex);
      if rootOne != rootTwo {
        RemoveAndCombine(ds, k, cellOneIndex, cellTwoIndex);
      }
    }

    /** The draw of Kruskal's loop, collapsed to a choice among the walls
        whose two cells still lie in different sets (such a wall exists
        while more than one set is left). */
    static method ChooseJoiningWall(g: Geometry, ds: DisjointSet) returns (k: nat)
      requires g.NonEmpty() && ds.Valid() && ds.n == CellCount(g) && ds.SetCount() > 1
      ensures k < WallCount(g) && Separates(g, ds.root, k)
    {
      CountIsReps(ds);
      ghost var joining := JoiningWall(g, ds.root);
      assert Ends(g, joining).0 < ds.n && Ends(g, joining).1 < ds.n
             && ds.Root(Ends(g, joining).0) != ds.Root(Ends(g, joining).1);
      k :| k < WallCount(g) && Ends(g, k).0 < ds.n && Ends(g, k).1 < ds.n
           && ds.Root(Ends(g, k).0) != ds.Root(Ends(g, k).1);
      ghost var ends := Ends(g, k);
      assert ends.0 < ds.n && ends.1 < ds.n;
      assert ds.Root(ends.0) != ds.Root(ends.1);
      assert ds.Root(ends.0) == ds.root[ends.0];
      assert ds.root[ends.0] != ds.root[ends.1];
    }

    /** The generation invariant only reads the cells and the walls. */
    twostate lemma BuildingKept()
      requires old(Building()) && unchanged(cellSet) && unchanged(wallSet)
      ensures Building() && RemovedInternal() == old(RemovedInternal()) && RemovedBorder() == old(RemovedBorder())
    {
    }

    /** The two `find` calls of Kruskal's loop. */
    method FindPair(ds: DisjointSet, cellOneIndex: nat, cellTwoIndex: nat) returns (rootOne: nat, rootTwo: nat)
      requires Building()
      requires ds.Valid() && cellOneIndex < ds.n && cellTwoIndex < ds.n
      modifies ds.cellParent
      ensures Building() && RemovedInternal() == old(RemovedInternal()) && RemovedBorder() == old(RemovedBorder())
      ensures ds.Valid() && ds.SetCount() == old(ds.SetCount())
      ensures rootOne == ds.root[cellOneIndex] && rootTwo == ds.root[cellTwoIndex]
      ensures rootOne < ds.n && rootTwo < ds.n
    {
      rootOne := ds.Find(cellOneIndex);
      rootTwo := ds.Find(cellTwoIndex);
      BuildingKept();
    }

    /** The productive branch of Kruskal's loop: wall k, whose cells lie in
        different sets, is removed and the two sets are combined. */
    method RemoveAndCombine(ds: DisjointSet, k: nat, cellOneIndex: nat, cellTwoIndex: nat)
      requires Building() && RemovedBorder() == {}
      requires ds.Valid() && ds.n == CellCount(Geo())
      requires Spanning(Geo(), RemovedInternal(), ds.root)
      requires k < |walls| && (cellOneIndex, cellTwoIndex) == Ends(Geo(), k)
      requires cellOneIndex < ds.n && cellTwoIndex < ds.n
      requires ds.root[cellOneIndex] != ds.root[cellTwoIndex]
      modifies cellSet, wallSet, ds, ds.cellParent
      ensures ds.Valid() && Building() && RemovedBorder() == {}
      ensures Spanning(Geo(), RemovedInternal(), ds.root)
      ensures ds.SetCount() == old(ds.SetCount()) - 1
      ensures |RemovedInternal()| == |old(RemovedInternal())| + 1
    {
      ghost var removed, root := RemovedInternal(), ds.root;
      SpanningStep(Geo(), removed, root, k, root[cellOneIndex], root[cellTwoIndex]);
      RemoveInternalWall(k);
      ghost var loser, winner := CombineSets(ds, cellOneIndex, cellTwoIndex);
      SpanningStep(Geo(), removed, root, k, loser, winner);
    }

    /** `combine` on two cells of different sets, seen from Kruskal's loop:
        one set fewer, the loser's members relabelled to the winner. */
    method CombineSets(ds: DisjointSet, cellOneIndex: nat, cellTwoIndex: nat)
      returns (ghost loser: nat, ghost winner: nat)
      requires Building()
      requires ds.Valid() && cellOneIndex < ds.n && cellTwoIndex < ds.n
      requires ds.root[cellOneIndex] != ds.root[cellTwoIndex]
      modifies ds, ds.cellParent
      ensures ds.Valid() && ds.SetCount() == old(ds.SetCount()) - 1
      ensures (loser, winner) == old((ds.root[cellOneIndex], ds.root[cellTwoIndex]))
              || (loser, winner) == old((ds.root[cellTwoIndex], ds.root[cellOneIndex]))
      ensures ds.root == Relabel(old(ds.root), loser, winner)
      ensures Building() && RemovedInternal() == old(RemovedInternal()) && RemovedBorder() == old(RemovedBorder())
    {
      var a, b := ds.root[cellOneIndex], ds.root[cellTwoIndex];
      winner := if ds.cellParent[a] < ds.cellParent[b] then b else a;
      loser := if winner == a then b else a;
      ds.Combine(cellOneIndex, cellTwoIndex);
      BuildingKept();
    }

    /** `removeWallHelper` on an internal wall still standing, seen from
        Kruskal's loop: one more removed index, the board still agreeing. */
    method RemoveInternalWall(k: nat)
      requires Building() && k < |walls| && k !in RemovedInternal()
      modifies cellSet, wallSet
      ensures Building()
      ensures RemovedInternal() == old(RemovedInternal()) + {k}
      ensures RemovedBorder() == old(RemovedBorder())
    {
      var o := RemoveWallHelper(Internal(k));
    }

    /** The flat indices Kruskal's loop computes for the two cells of
        internal wall k, from the wall's own row, column and orientation. */
    function WallCells(k: nat): (ends: (nat, nat))
      requires Shape() && k < |walls|
      ensures ends == Ends(Geo(), k)
    {
      var g := Geo();
      SpecAtIndex(g, k);
      var wallToBreak := walls[k];
      var row, col := wallToBreak.row, wallToBreak.col;
      NextModLemma(cols, col);
      NextModLemma(rows, row);
      (CellIndex(g, row, col),
       if wallToBreak.vertical then CellIndex(g, row, NextCol(g, col)) else CellIndex(g, NextRow(g, row), col))
    }

    /** The walls `removeExtraWalls` works on: the internal ones, or the
        border walls of a wrapping maze. */
    function ListOf(border: bool): seq<Wall>
    {
      if border then borderWalls else walls
    }

    ghost function RemovedOf(border: bool): (removed: set<nat>)
      requires Shape()
      reads wallSet
      ensures forall k: nat :: k in removed <==> k < |ListOf(border)| && ListOf(border)[k].removed
    {
      if border then RemovedBorder() else RemovedInternal()
    }

    /** `removeWallHelper` on a wall of one of the lists that still stands. */
    method RemoveListWall(border: bool, k: nat)
      requires Building() && k < |ListOf(border)| && k !in RemovedOf(border)
      modifies cellSet, wallSet
      ensures Building()
      ensures RemovedOf(border) == old(RemovedOf(border)) + {k}
      ensures RemovedOf(!border) == old(RemovedOf(!border))
    {
      var o := RemoveWallHelper(if border then Border(k) else Internal(k));
    }

    /** `removeExtraWalls`: `wallsToRemove` walls of the list that still
        stand are removed, one at a time; a count below one removes none.
        The source draws walls at random and skips the removed ones; here
        the choice is among the standing walls.  The source's loop only
        ends when that many walls still stand, which the constructors'
        checks guarantee at both calls. */
    method RemoveExtraWalls(border: bool, wallsToRemove: int)
      requires Building()
      requires wallsToRemove <= |ListOf(border)| - |RemovedOf(border)|
      modifies cellSet, wallSet
      ensures Building()
      ensures old(RemovedOf(border)) <= RemovedOf(border)
      ensures |RemovedOf(border)| == |old(RemovedOf(border))| + (if wallsToRemove < 0 then 0 else wallsToRemove)
      ensures RemovedOf(!border) == old(RemovedOf(!border))
    {
      var totalRemoved := 0;
      while totalRemoved < wallsToRemove
        invariant Building()
        invariant 0 <= totalRemoved <= (if wallsToRemove < 0 then 0 else wallsToRemove)
        invariant old(RemovedOf(border)) <= RemovedOf(border)
        invariant |RemovedOf(border)| == |old(RemovedOf(border))| + totalRemoved
        invariant RemovedOf(!border) == old(RemovedOf(!border))
        decreases wallsToRemove - totalRemoved
      {
        MissingIndex(RemovedOf(border), |ListOf(border)|);
        var k: nat :| k < |ListOf(border)| && !ListOf(border)[k].removed;
        RemoveListWall(border, k);
        totalRemoved := totalRemoved + 1;
      }
    }

    /** The wall phases of `removeWalls`, in the order the three classes
        run them: Kruskal's loop, the extra internal walls, and in a
        wrapping maze the border walls.  The internal walls removed are a
        spanning tree plus the extra ones, so every cell still reaches
        every other, and exactly the requested number of border walls is
        gone. */
    method RemoveWallPhases()
      requires Building() && RemovedInternal() == {} && RemovedBorder() == {}
      modifies cellSet, wallSet
      ensures Building()
      ensures |RemovedInternal()| == CellCount(Geo()) - 1 + extraInternalWallsToRemove
      ensures |RemovedBorder()| == if wrapping && borderWallsToRemove > 0 then borderWallsToRemove else 0
      ensures forall x, y :: 0 <= x < CellCount(Geo()) && 0 <= y < CellCount(Geo()) ==>
                Connected(Geo(), RemovedInternal(), x, y)
    {
      RemoveSpanningTree();
      ghost var tree := RemovedInternal();
      assert (rows - 1) * cols + (cols - 1) * rows - (rows * cols - 1) == (rows - 1) * (cols - 1);
      RemoveExtraWalls(false, extraInternalWallsToRemove);
      if wrapping {
        RemoveExtraWalls(true, borderWallsToRemove);
      }
      forall x, y | 0 <= x < CellCount(Geo()) && 0 <= y < CellCount(Geo())
        ensures Connected(Geo(), RemovedInternal(), x, y)
      {
        ConnectedMono(Geo(), tree, RemovedInternal(), x, y);
      }
    }

    /** A valid maze before Kruskal's phase is where the wall phases start. */
    lemma UnbuiltBuilding()
      requires Valid() && !wallsRemoved
      ensures Building() && RemovedInternal() == {} && RemovedBorder() == {}
      ensures players == [] && nextPlayerIndex == 0
    {
    }

    /** A maze whose walls are all down and that holds neither creatures
        nor players is valid. */
    lemma BuiltValid()
      requires Building() && AllRequestedWallsRemoved() && players == [] && nextPlayerIndex == 0
      requires playerCount >= 1 && wallsRemoved
      ensures Valid() && Empty(Geo(), Board())
    {
    }

    /** The wall phases with the flags each one raises when it is done
        (`wallsRemoved`, `removedInternalWalls`, `removedBorderWalls`);
        no phase reads a flag, so they are raised together here, before
        the phases run. */
    method RemoveAllWalls()
      requires Valid() && !wallsRemoved
      modifies this, cellSet, wallSet
      ensures Valid() && AllRequestedWallsRemoved() && Empty(Geo(), Board())
      ensures players == [] && nextPlayerIndex == 0 && playerSet == old(playerSet)
      ensures |RemovedInternal()| == CellCount(Geo()) - 1 + extraInternalWallsToRemove
      ensures |RemovedBorder()| == if wrapping && borderWallsToRemove > 0 then borderWallsToRemove else 0
      ensures forall x, y :: 0 <= x < CellCount(Geo()) && 0 <= y < CellCount(Geo()) ==>
                Connected(Geo(), RemovedInternal(), x, y)
    {
      UnbuiltBuilding();
      // The border flag of a non-wrapping maze stays false.
      wallsRemoved, removedInternalWalls, removedBorderWalls := true, true, wrapping;
      BuildingKept();
      RemoveWallPhases();
      BuiltValid();
    }

    // -------------------------------------------------------------------
    // Placing creatures and players

    /** `addCreature` on the cell at p, with a creature built for type t. */
    method AddAt(p: MazePoint, t: CreatureType) returns (o: Outcome)
      requires Valid() && AllRequestedWallsRemoved() && Geo().InRange(p)
      modifies cells[p.x][p.y]
      ensures Valid() && WallGrid() == old(WallGrid())
      ensures o.Fail? <==> HasType(old(Board())[p.x][p.y].creatures, t) || IsTunnelAt(WallGrid(), p)
      ensures o.Fail? ==> o.fault == UnsupportedOperation && Board() == old(Board())
      ensures o.Pass? ==> Board() == SetAt(old(Board()), p, Put(old(Board())[p.x][p.y], t))
    {
      ghost var before := Board();
      var cell := cells[p.x][p.y];
      o := cell.AddCreature(Some(MakeCreature(t)));
      ghost var after := SetAt(before, p, cell.State());
      var now := Board();
      forall r | 0 <= r < rows
        ensures now[r] == after[r]
      {
      }
      if o.Fail? {
        SetAtSame(before, p);
      }
      SetAtKeeps(Geo(), before, p, cell.State());
      CellsValid();
    }

    /** `getNonTunnelCells`: the rooms, row by row. */
    method GetNonTunnelCells() returns (rooms: seq<MazePoint>)
      requires Shape()
      ensures rooms == Rooms(Geo(), WallGrid())
    {
      var ws := WallGrid();
      rooms := [];
      for r := 0 to rows
        invariant rooms == RoomsBefore(Geo(), ws, r)
      {
        rooms := rooms + RowRooms(ws, r, 0, cols);
      }
    }

    /** `addSingleCreature`: `count` times, a cell is taken out of the
        list `available` and a creature of type t is added to it.  The
        source draws the index at random; here it is any index.  An empty
        list with creatures still to add is `nextInt(0)`, an
        IllegalArgumentException; a cell that already holds a creature of
        type t refuses it.  `chosen` records the cells that took one. */
    method AddSingleCreature(t: CreatureType, available: seq<MazePoint>, count: int)
      returns (o: Outcome, ghost chosen: set<MazePoint>)
      requires Valid() && AllRequestedWallsRemoved() && NoDup(available)
      requires forall q :: q in available ==> InRoom(q)
      modifies cellSet
      ensures Valid() && WallGrid() == old(WallGrid())
      ensures Stocked(Geo(), old(Board()), Board(), chosen, t)
      ensures chosen <= Elems(available)
      ensures o.Pass? ==> |chosen| == if count < 0 then 0 else count
      ensures o.Fail? ==> o == Fail(IllegalArgument) || o == Fail(UnsupportedOperation)
      ensures o == Fail(IllegalArgument) ==> |chosen| == |available| < count
      ensures o == Fail(UnsupportedOperation) ==>
                exists q :: q in available && q !in chosen && HoldsAt(old(Board()), q, t)
      ensures (forall q :: q in available ==> !HoldsAt(old(Board()), q, t)) ==>
                (o.Pass? <==> count <= |available|)
    {
      ghost var b0 := Board();
      var left := available;
      var currentAdded := 0;
      chosen := {};
      o := Pass;
      while currentAdded < count
        invariant Valid() && WallGrid() == old(WallGrid())
        invariant o == Pass && 0 <= currentAdded == |chosen| && |chosen| + |left| == |available|
        invariant currentAdded <= if count < 0 then 0 else count
        invariant Stocked(Geo(), b0, Board(), chosen, t)
        invariant NoDup(left) && Elems(left) == Elems(available) - chosen && chosen <= Elems(available)
        decreases count - currentAdded
      {
        if |left| == 0 {
          return Fail(IllegalArgument), chosen;
        }
        var i :| 0 <= i < |left|;
        var chosenCell := left[i];
        assert chosenCell in Elems(left);
        RemoveFirstElems(left, chosenCell);
        left := RemoveFirst(left, chosenCell);
        ghost var before := Board();
        assert before[chosenCell.x][chosenCell.y] == b0[chosenCell.x][chosenCell.y];
        o := AddAt(chosenCell, t);
        if o.Fail? {
          assert HoldsAt(b0, chosenCell, t);
          return o, chosen;
        }
        StockedStep(Geo(), b0, before, chosen, t, chosenCell);
        chosen := chosen + {chosenCell};
        currentAdded := currentAdded + 1;
      }
    }

    // -------------------------------------------------------------------
    // Encounters

    /** What running the creatures for a player may do: the cells are only
        rearranged and marked seen, the movement generator only moves on,
        and the player keeps its arrows and may die but not come back. */
    twostate predicate Encountered(player: MazePlayer)
      requires Shape()
      reads cellSet, player, movementGenerator
    {
      && WallGrid() == old(WallGrid()) && Rearranged(Geo(), old(Board()), Board())
      && movementGenerator.used >= old(movementGenerator.used)
      && player.usedArrows == old(player.usedArrows)
      && (player.alive ==> old(player.alive))
    }

    /** What the play phase needs of the maze while creatures run: its
        shape and the cell invariants. */
    ghost predicate Play()
      reads cellSet
    {
      Shape() && CellsOk(Geo(), Board())
    }

    /** The first statements of `performCellActions`: the cell is marked
        seen, then its creatures are sorted and reversed into run order. */
    method PrepareCell(p: MazePoint)
      requires Play() && Geo().InRange(p)
      modifies cells[p.x][p.y]
      ensures Play() && WallGrid() == old(WallGrid())
      ensures Board() == SetAt(old(Board()), p, Prepared(old(Board())[p.x][p.y]))
      ensures Rearranged(Geo(), old(Board()), Board())
    {
      ghost var before := Board();
      var cell := cells[p.x][p.y];
      cell.MarkVisible();
      cell.SortForActions();
      ghost var after := SetAt(before, p, Prepared(before[p.x][p.y]));
      var now := Board();
      forall r | 0 <= r < rows
        ensures now[r] == after[r]
      {
      }
      PreparedKeeps(Geo(), before, p);
    }

    /** `performCellActions` for a player who has just come to room p: the
        cell is prepared, then its creatures run in order (the wumpus, a
        bat, the pit) for as long as the player is still in p.  The wumpus
        and the pit kill; a bat may carry the player to another room, where
        the same happens again.  The list's iterator fails with a
        ConcurrentModificationException when a bat drops the player back
        into p and the nested run sorted the list again while creatures
        were left.  A pass leaves the player alive in a room that cannot
        kill; a death leaves it in one that can. */
    method PerformCellActions(p: MazePoint, player: MazePlayer, depth: nat) returns (o: Outcome)
      requires Play() && InRoom(p)
      requires player.position == p && player.alive && player.Valid()
      modifies cellSet, player, movementGenerator
      decreases depth, 4
      ensures Play() && Encountered(player)
      ensures player.Valid() && InRoom(player.position) && Board()[p.x][p.y].visible
      ensures o.Pass? ==> player.alive && !LethalAt(Board(), player.position)
      ensures !player.alive <==> o == Fail(PlayerKilled(WumpusKill)) || o == Fail(PlayerKilled(PitKill))
      ensures !player.alive ==> LethalAt(Board(), player.position)
      ensures o.Fail? ==> o.fault in {ConcurrentModification, DrawsExhausted, StackOverflow,
                                      PlayerKilled(WumpusKill), PlayerKilled(PitKill)}
      ensures Met(old(Board())[p.x][p.y].creatures, p, o, player.position)
    {
      ghost var b0 := Board();
      PrepareCell(p);
      CellRearranged(b0[p.x][p.y], Board()[p.x][p.y]);
      ghost var b1: Board := Board();
      o := RunCreatures(p, player, depth, b1[p.x][p.y].creatures);
      RearrangedTransitive(Geo(), b0, b1, Board());
    }

    /** The loop of `performCellActions` over a prepared cell: each creature
        in run order acts on the player while the player is still in p;
        the iterator fails when the cell's list was sorted again meanwhile. */
    method RunCreatures(p: MazePoint, player: MazePlayer, depth: nat, ghost run: seq<Creature>) returns (o: Outcome)
      requires Play() && InRoom(p)
      requires player.position == p && player.alive && player.Valid()
      requires Board()[p.x][p.y].visible && Board()[p.x][p.y].creatures == run
      requires ActionOrder(run) == run && UniqueKinds(run) && WellMade(run)
      modifies cellSet, player, movementGenerator
      decreases depth, 3
      ensures Play() && Encountered(player)
      ensures player.Valid() && InRoom(player.position) && Board()[p.x][p.y].visible
      ensures o.Pass? ==> player.alive && !LethalAt(Board(), player.position)
      ensures !player.alive <==> o == Fail(PlayerKilled(WumpusKill)) || o == Fail(PlayerKilled(PitKill))
      ensures !player.alive ==> LethalAt(Board(), player.position)
      ensures o.Fail? ==> o.fault in {ConcurrentModification, DrawsExhausted, StackOverflow,
                                      PlayerKilled(WumpusKill), PlayerKilled(PitKill)}
      ensures Met(run, p, o, player.position)
    {
      ghost var b0 := Board();
      RearrangedReflexive(Geo(), b0);
      RunOrderHead(run);
      var cell := cells[p.x][p.y];
      var expected := cell.modCount;
      var cursor := 0;
      o := Pass;
      while cursor != |cell.creatures|
        invariant Play() && Encountered(player)
        invariant player.Valid() && InRoom(player.position) && player.alive
        invariant Board()[p.x][p.y].visible && Board()[p.x][p.y].creatures == run
        invariant 0 <= cursor <= |run| && o == Pass
        invariant player.position != p ==> !LethalAt(Board(), player.position)
        invariant player.position == p ==> forall j :: 0 <= j < cursor ==> run[j].kind == Bat
        invariant cursor == 0 ==> cell.modCount == expected && player.position == p
        invariant !HasType(run, Bat) ==> player.position == p
        invariant HasType(run, Wumpus) || (HasType(run, Pit) && !HasType(run, Bat)) ==> cursor == 0
        decreases |run| - cursor
      {
        if cell.modCount != expected {
          return Fail(ConcurrentModification);
        }
        var creature := cell.creatures[cursor];
        cursor := cursor + 1;
        if player.position != p {
          return Pass;
        }
        ghost var before := Board();
        HasTypeMeans(run, creature.kind);
        o := ExecuteAction(creature, player, depth);
        RearrangedTransitive(Geo(), b0, before, Board());
        if o.Fail? {
          return;
        }
        CellRearranged(before[p.x][p.y], Board()[p.x][p.y]);
      }
      if player.position == p {
        OnlyBatsHarmless(run);
      }
      if run != [] {
        assert HasType(run, run[0].kind);
      }
    }

    /** `executeAction` of a creature in the player's cell: the wumpus and
        the pit mark the player dead and throw with their message; a bat
        acts as `BatCarry` says. */
    method ExecuteAction(creature: Creature, player: MazePlayer, depth: nat) returns (o: Outcome)
      requires Play() && InRoom(player.position)
      requires player.alive && player.Valid() && creature == MakeCreature(creature.kind)
      requires HoldsAt(Board(), player.position, creature.kind)
      modifies cellSet, player, movementGenerator
      decreases depth, 2
      ensures Play() && Encountered(player)
      ensures player.Valid() && InRoom(player.position)
      ensures creature.kind == Wumpus ==> o == Fail(PlayerKilled(WumpusKill))
      ensures creature.kind == Pit ==> o == Fail(PlayerKilled(PitKill))
      ensures creature.kind != Bat ==> player.position == old(player.position)
      ensures o.Pass? ==> player.alive
      ensures o.Pass? && player.position != old(player.position) ==> !LethalAt(Board(), player.position)
      ensures !player.alive <==> o == Fail(PlayerKilled(WumpusKill)) || o == Fail(PlayerKilled(PitKill))
      ensures !player.alive ==> LethalAt(Board(), player.position)
      ensures o.Fail? ==> o.fault in {ConcurrentModification, DrawsExhausted, StackOverflow,
                                      PlayerKilled(WumpusKill), PlayerKilled(PitKill)}
    {
      match creature.action
      case WumpusAction =>
        player.MarkPlayerDead();
        o := Fail(PlayerKilled(WumpusKill));
      case PitAction =>
        player.MarkPlayerDead();
        o := Fail(PlayerKilled(PitKill));
      case BatAction =>
        ghost var carried;
        o, carried := BatCarry(player, depth);
    }

    /** `BatAction.executeAction`: a draw below MaxPercent above
        BatPickPercentage picks the player up (`carried`) and `DropPlayer`
        lets it fall in the room the next draw picks; otherwise nothing
        happens but the draw. */
    method BatCarry(player: MazePlayer, depth: nat) returns (o: Outcome, ghost carried: bool)
      requires Play() && InRoom(player.position)
      requires player.alive && player.Valid()
      modifies cellSet, player, movementGenerator
      decreases depth, 1
      ensures Play() && Encountered(player)
      ensures player.Valid() && InRoom(player.position)
      ensures o.Pass? ==> player.alive
      ensures o.Pass? && player.position != old(player.position) ==> !LethalAt(Board(), player.position)
      ensures !player.alive <==> o == Fail(PlayerKilled(WumpusKill)) || o == Fail(PlayerKilled(PitKill))
      ensures !player.alive ==> LethalAt(Board(), player.position)
      ensures o.Fail? ==> o.fault in {ConcurrentModification, DrawsExhausted, StackOverflow,
                                      PlayerKilled(WumpusKill), PlayerKilled(PitKill)}
      ensures carried <==> old(movementGenerator.used) < |movementGenerator.stream|
                           && movementGenerator.stream[old(movementGenerator.used)] % MaxPercent > BatPickPercentage
      ensures !carried ==> player.position == old(player.position)
      ensures !carried ==> unchanged(cellSet)
      ensures !carried && old(movementGenerator.used) >= |movementGenerator.stream| ==> o == Fail(DrawsExhausted)
      ensures !carried && old(movementGenerator.used) < |movementGenerator.stream| ==>
                o == Pass && movementGenerator.used == old(movementGenerator.used) + 1
    {
      ghost var u := movementGenerator.used;
      var pick := movementGenerator.NextInt(MaxPercent);
      if pick.Err? {
        BoardKept();
        return Fail(pick.fault), false;
      }
      assert u < |movementGenerator.stream| && pick.value == movementGenerator.stream[u] % MaxPercent;
      carried := pick.value > BatPickPercentage;
      if pick.value > BatPickPercentage {
        BoardKept();
        ghost var landed;
        o, landed := DropPlayer(player, depth);
      } else {
        BoardKept();
        o := Pass;
      }
    }

    /** The drop of `BatAction.executeAction`: a draw picks the room among
        `getNonTunnelCells` (possibly the one the player is in), the player
        is moved there and that room's creatures run.  Each nested run takes
        a level of the stack. */
    method DropPlayer(player: MazePlayer, depth: nat) returns (o: Outcome, ghost landed: MazePoint)
      requires Play() && InRoom(player.position)
      requires player.alive && player.Valid()
      modifies cellSet, player, movementGenerator
      decreases depth, 0
      ensures Play() && Encountered(player)
      ensures player.Valid() && InRoom(player.position)
      ensures o.Pass? ==> player.alive
      ensures o.Pass? && player.position != old(player.position) ==> !LethalAt(Board(), player.position)
      ensures !player.alive <==> o == Fail(PlayerKilled(WumpusKill)) || o == Fail(PlayerKilled(PitKill))
      ensures !player.alive ==> LethalAt(Board(), player.position)
      ensures o.Fail? ==> o.fault in {ConcurrentModification, DrawsExhausted, StackOverflow,
                                      PlayerKilled(WumpusKill), PlayerKilled(PitKill)}
      ensures Dropped(old(Board()), old(player.position), Board(), player.position, Rooms(Geo(), WallGrid()),
                      movementGenerator.stream, old(movementGenerator.used), depth, o, landed)
    {
      var availableCells := GetNonTunnelCells();
      RoomsMembers(Geo(), WallGrid());
      assert player.position in availableCells;
      var cellToMoveIndex := movementGenerator.NextInt(|availableCells|);
      if cellToMoveIndex.Err? {
        BoardKept();
        return Fail(cellToMoveIndex.fault), player.position;
      }
      var newPos := availableCells[cellToMoveIndex.value];
      DrawnIsRemainder(availableCells, movementGenerator.stream[old(movementGenerator.used)]);
      landed := newPos;
      o := player.SetNewPosition(newPos);
      BoardKept();
      if depth == 0 {
        return Fail(StackOverflow), landed;
      }
      o := PerformCellActions(newPos, player, depth - 1);
    }

    /** A step that touched neither the maze's fields nor its cells leaves
        the board, and so the walls, as they were. */
    twostate lemma BoardKept()
      requires old(Play()) && unchanged(this) && unchanged(cellSet)
      ensures Play() && Board() == old(Board()) && WallGrid() == old(WallGrid())
      ensures Rearranged(Geo(), old(Board()), Board())
    {
      RearrangedReflexive(Geo(), Board());
    }

    // -------------------------------------------------------------------
    // Turns and players

    /** `changePlayerTurn`: the turn passes to the next player, round the
        list. */
    method ChangePlayerTurn()
      requires playerCount > 0
      modifies this`nextPlayerIndex
      ensures nextPlayerIndex == NextTurn(old(nextPlayerIndex), playerCount)
    {
      nextPlayerIndex := (nextPlayerIndex + 1) % playerCount;
    }

    /** The maze is valid again after a step of play that kept its flags,
        its players and its walls, left the cells well-formed with the same
        walls, and changed no player but one, which is still valid and in
        a room; the turn may have moved on. */
    twostate lemma ValidAgain(player: MazePlayer)
      requires old(Valid()) && old(AllRequestedWallsRemoved()) && unchanged(wallSet) && SameFlags()
      requires players == old(players) && playerSet == old(playerSet) && nextPlayerIndex < playerCount
      requires Play() && WallGrid() == old(WallGrid())
      requires player.Valid() && InRoom(player.position)
      requires forall q :: q in playerSet && q != player ==> unchanged(q)
      ensures Valid()
    {
    }

    /** The maze is valid again after a step that changed neither its
        fields, its walls nor its players, and left the board as it was. */
    twostate lemma StillValid()
      requires old(Valid()) && unchanged(this) && unchanged(wallSet)
      requires Board() == old(Board())
      requires forall q :: q in playerSet ==> unchanged(q)
      ensures Valid()
    {
    }

    /** The maze is valid again after play changed the cells but kept
        their invariants and their walls, and changed nothing else. */
    twostate lemma CellsValid()
      requires old(Valid()) && old(AllRequestedWallsRemoved()) && unchanged(this) && unchanged(wallSet)
      requires Shape() && CellsOk(Geo(), Board()) && WallGrid() == old(WallGrid())
      requires forall q :: q in playerSet ==> unchanged(q)
      ensures Valid()
    {
    }

    /** The maze is valid again after a new player, valid and in a room,
        joined the end of the list. */
    twostate lemma JoinedValid(new player: MazePlayer)
      requires old(Valid()) && old(AllRequestedWallsRemoved()) && unchanged(wallSet) && unchanged(cellSet)
      requires SameFlags() && nextPlayerIndex == old(nextPlayerIndex)
      requires players == old(players) + [player] && playerSet == old(playerSet) + {player}
      requires |players| <= playerCount
      requires forall q :: q in old(playerSet) ==> unchanged(q)
      requires player.index == |old(players)| && player.Valid() && InRoom(player.position)
      ensures Valid()
    {
      forall t | 0 <= t < |old(players)|
        ensures players[t] == old(players)[t] && players[t] in old(playerSet)
      {
      }
    }

    /** The maze is valid again after a walk that only marked cells seen. */
    twostate lemma SeenValid()
      requires old(Valid()) && unchanged(this) && unchanged(wallSet)
      requires Shape() && Seen(Geo(), old(Board()), Board())
      requires forall q :: q in playerSet ==> unchanged(q)
      ensures Valid() && WallGrid() == old(WallGrid()) && Rearranged(Geo(), old(Board()), Board())
    {
      SeenRearranged(Geo(), old(Board()), Board());
      RearrangedKeeps(Geo(), old(Board()), Board());
    }

    /** A player of the list meets the creatures of room p, which it has
        just entered; the maze stays valid since the encounter only
        rearranges the cells. */
    method Encounter(p: MazePoint, player: MazePlayer) returns (o: Outcome)
      requires Valid() && AllRequestedWallsRemoved() && InRoom(p)
      requires player in playerSet && player.position == p && player.alive && player.Valid()
      modifies cellSet, player, movementGenerator
      ensures Valid() && Encountered(player) && InRoom(player.position) && Board()[p.x][p.y].visible
      ensures o.Pass? ==> player.alive && !LethalAt(Board(), player.position)
      ensures !player.alive <==> o == Fail(PlayerKilled(WumpusKill)) || o == Fail(PlayerKilled(PitKill))
      ensures !player.alive ==> LethalAt(Board(), player.position)
      ensures o.Fail? ==> o.fault in {ConcurrentModification, DrawsExhausted, StackOverflow,
                                      PlayerKilled(WumpusKill), PlayerKilled(PitKill)}
      ensures Met(old(Board())[p.x][p.y].creatures, p, o, player.position)
    {
      o := PerformCellActions(p, player, stackDepth);
      ValidAgain(player);
    }

    /** `performInitCellAction`, and the same two statements that close
        `movePlayerInDirection`: the player whose turn it is meets the
        creatures of its room, and on success the turn passes on. */
    method MeetAndPassTurn(playerCell: MazePoint) returns (o: Outcome)
      requires Valid() && AllRequestedWallsRemoved() && InRoom(playerCell)
      requires nextPlayerIndex < |players| && players[nextPlayerIndex].position == playerCell
      requires players[nextPlayerIndex].alive
      modifies this`nextPlayerIndex, cellSet, players[nextPlayerIndex], movementGenerator
      ensures Valid() && Encountered(players[old(nextPlayerIndex)])
      ensures o.Pass? ==> nextPlayerIndex == NextTurn(old(nextPlayerIndex), playerCount)
      ensures o.Fail? ==> nextPlayerIndex == old(nextPlayerIndex)
      ensures Board()[playerCell.x][playerCell.y].visible
      ensures var player := players[old(nextPlayerIndex)];
                && (o.Pass? ==> player.alive && !LethalAt(Board(), player.position))
                && (!player.alive <==> o == Fail(PlayerKilled(WumpusKill)) || o == Fail(PlayerKilled(PitKill)))
      ensures o.Fail? ==> o.fault in {ConcurrentModification, DrawsExhausted, StackOverflow,
                                      PlayerKilled(WumpusKill), PlayerKilled(PitKill)}
      ensures Met(old(Board())[playerCell.x][playerCell.y].creatures, playerCell, o,
                  players[old(nextPlayerIndex)].position)
    {
      var player := players[nextPlayerIndex];
      o := Encounter(playerCell, player);
      if o.Pass? {
        ChangePlayerTurn();
        ValidAgain(player);
      }
    }

    /** The draw of `initPlayerPosition`: a room that cannot kill, taken
        from the rooms in `getNonTunnelCells` order.  No such room is an
        IllegalStateException. */
    method ChooseStart() returns (r: Result<MazePoint>)
      requires Play()
      modifies movementGenerator
      ensures r == Err(IllegalState) <==> Harmless(Board(), Rooms(Geo(), WallGrid())) == []
      ensures r.Err? ==> r.fault in {IllegalState, DrawsExhausted}
      ensures r.Ok? ==> InRoom(r.value) && !LethalAt(Board(), r.value)
    {
      var rooms := GetNonTunnelCells();
      var availableCells := Harmless(Board(), rooms);
      if |availableCells| == 0 {
        return Err(IllegalState);
      }
      var randomCellIndex := movementGenerator.NextInt(|availableCells|);
      if randomCellIndex.Err? {
        return Err(randomCellIndex.fault);
      }
      var playerCell := availableCells[randomCellIndex.value];
      HarmlessMembers(Board(), rooms);
      RoomsMembers(Geo(), WallGrid());
      assert playerCell in rooms && !LethalAt(Board(), playerCell);
      return Ok(playerCell);
    }

    /** `players.add(new MazePlayer(...))`: the next player, numbered by
        its place in the list, starts in room p with `arrowCount` arrows. */
    method AddPlayer(p: MazePoint, arrowCount: int)
      requires Valid() && AllRequestedWallsRemoved() && InRoom(p) && arrowCount > 0
      requires |players| < playerCount
      modifies this`players, this`playerSet
      ensures Valid() && |players| == |old(players)| + 1 && players[..|old(players)|] == old(players)
      ensures var added := players[|old(players)|];
                && fresh(added) && added.position == p && added.alive
                && added.totalArrows == arrowCount && added.usedArrows == 0
    {
      var player := new MazePlayer(p.x, p.y, arrowCount, |players|);
      players := players + [player];
      playerSet := playerSet + {player};
      JoinedValid(player);
    }

    /** The rest of a round of `initPlayerPosition`'s loop: a player with
        `arrowCount` arrows is put in room p, added to the list, and meets
        the room's creatures. */
    method EnterPlayer(p: MazePoint, arrowCount: int) returns (o: Outcome)
      requires Valid() && AllRequestedWallsRemoved() && arrowCount > 0
      requires InRoom(p) && !LethalAt(Board(), p)
      requires |players| == nextPlayerIndex < playerCount
      modifies this`players, this`playerSet, this`nextPlayerIndex, cellSet, movementGenerator
      ensures Valid() && WallGrid() == old(WallGrid())
      ensures Rearranged(Geo(), old(Board()), Board())
      ensures |players| == |old(players)| + 1 && players[..|old(players)|] == old(players)
      ensures o.Pass? ==> nextPlayerIndex == NextTurn(old(nextPlayerIndex), playerCount)
      ensures o.Pass? ==> var added := players[|old(players)|];
                && added.alive && added.totalArrows == arrowCount && added.usedArrows == 0
                && !LethalAt(Board(), added.position)
      ensures o.Fail? ==> o.fault in {ConcurrentModification, DrawsExhausted, StackOverflow,
                                      PlayerKilled(WumpusKill), PlayerKilled(PitKill)}
    {
      AddPlayer(p, arrowCount);
      o := MeetAndPassTurn(p);
    }

    /** One round of `initPlayerPosition`'s loop: a start room is drawn
        and the player enters it. */
    method PlacePlayer(arrowCount: int) returns (o: Outcome)
      requires Valid() && AllRequestedWallsRemoved() && arrowCount > 0
      requires |players| == nextPlayerIndex < playerCount
      modifies this`players, this`playerSet, this`nextPlayerIndex, cellSet, movementGenerator
      ensures Valid() && WallGrid() == old(WallGrid())
      ensures Rearranged(Geo(), old(Board()), Board())
      ensures old(players) <= players
      ensures o == Fail(IllegalState) <==> Harmless(old(Board()), Rooms(Geo(), WallGrid())) == []
      ensures o.Pass? ==> |players| == |old(players)| + 1
      ensures o.Pass? ==> nextPlayerIndex == NextTurn(old(nextPlayerIndex), playerCount)
      ensures o.Pass? ==> var added := players[|old(players)|];
                && added.alive && added.totalArrows == arrowCount && added.usedArrows == 0
                && !LethalAt(Board(), added.position)
      ensures o.Fail? ==> o.fault in {IllegalState, ConcurrentModification, DrawsExhausted, StackOverflow,
                                      PlayerKilled(WumpusKill), PlayerKilled(PitKill)}
    {
      var start := ChooseStart();
      if start.Err? {
        return Fail(start.fault);
      }
      o := EnterPlayer(start.value, arrowCount);
    }

    /** A player placed by `initPlayerPosition` who met its start room's
        creatures and lived: alive, all its arrows left, in a room of b
        that cannot kill. */
    static ghost predicate Seated(player: MazePlayer, arrowCount: int, b: Board)
      reads player
    {
      player.alive && player.totalArrows == arrowCount && player.usedArrows == 0 && !LethalAt(b, player.position)
    }

    /** Round i of `initPlayerPosition`'s loop, stated against the board
        b0 the loop started from: the creatures that ran only rearranged
        it, so the rooms that cannot kill are still those of b0. */
    method PlaceRound(i: nat, arrowCount: int, ghost b0: Board) returns (o: Outcome)
      requires Valid() && AllRequestedWallsRemoved() && arrowCount > 0
      requires |players| == i < playerCount && nextPlayerIndex == i
      requires BoardShape(Geo(), b0) && CellsOk(Geo(), b0) && Rearranged(Geo(), b0, Board())
      modifies this`players, this`playerSet, this`nextPlayerIndex, cellSet, movementGenerator
      ensures Valid() && WallGrid() == old(WallGrid()) && Rearranged(Geo(), b0, Board())
      ensures o == Fail(IllegalState) <==> Harmless(b0, Rooms(Geo(), WallGrid())) == []
      ensures o.Pass? ==> |players| == i + 1 && nextPlayerIndex == if i + 1 < playerCount then i + 1 else 0
      requires forall t :: 0 <= t < i ==> Seated(players[t], arrowCount, b0)
      ensures o.Pass? ==> forall t :: 0 <= t <= i ==> Seated(players[t], arrowCount, b0)
      ensures o.Fail? ==> o.fault in {IllegalState, ConcurrentModification, DrawsExhausted, StackOverflow,
                                      PlayerKilled(WumpusKill), PlayerKilled(PitKill)}
    {
      ghost var before := Board();
      RearrangedKeeps(Geo(), b0, before);
      HarmlessSame(b0, before, Rooms(Geo(), WallGrid()));
      ghost var seated := players;
      o := PlacePlayer(arrowCount);
      RearrangedTransitive(Geo(), b0, before, Board());
      RearrangedKeeps(Geo(), b0, Board());
      if o.Pass? {
        NextTurnWithin(i, playerCount);
        forall t | 0 <= t <= i
          ensures Seated(players[t], arrowCount, b0)
        {
          if t < i {
            assert players[t] == seated[t];
          }
        }
      }
    }

    /** `initPlayerPosition`: one player after another is placed, each
        drawing among the rooms that cannot kill, and meets its room's
        creatures; the turn comes back to the first player. */
    method InitPlayerPosition(arrowCount: int) returns (o: Outcome)
      requires Valid() && AllRequestedWallsRemoved() && players == [] && nextPlayerIndex == 0
      modifies this`players, this`playerSet, this`nextPlayerIndex, cellSet, movementGenerator
      ensures Valid() && WallGrid() == old(WallGrid())
      ensures Rearranged(Geo(), old(Board()), Board())
      ensures arrowCount <= 0 ==> o == Fail(IllegalArgument) && players == [] && Board() == old(Board())
      ensures o == Fail(IllegalState) <==>
                arrowCount > 0 && Harmless(old(Board()), Rooms(Geo(), WallGrid())) == []
      ensures o.Pass? ==> |players| == playerCount && nextPlayerIndex == 0
      ensures o.Pass? ==> forall t :: 0 <= t < |players| ==>
                && players[t].alive && players[t].totalArrows == arrowCount && players[t].usedArrows == 0
                && !LethalAt(Board(), players[t].position)
      ensures o.Fail? ==> o.fault in {IllegalArgument, IllegalState, ConcurrentModification, DrawsExhausted,
                                      StackOverflow, PlayerKilled(WumpusKill), PlayerKilled(PitKill)}
    {
      if arrowCount <= 0 {
        return Fail(IllegalArgument);
      }
      ghost var b0 := Board();
      ghost var rooms := Rooms(Geo(), WallGrid());
      RearrangedReflexive(Geo(), b0);
      o := Pass;
      for i := 0 to playerCount
        invariant Valid() && WallGrid() == old(WallGrid())
        invariant Rearranged(Geo(), b0, Board())
        invariant |players| == i && nextPlayerIndex == (if i < playerCount then i else 0) && o == Pass
        invariant i > 0 ==> Harmless(b0, rooms) != []
        invariant forall t :: 0 <= t < i ==> Seated(players[t], arrowCount, b0)
      {
        o := PlaceRound(i, arrowCount, b0);
        if o.Fail? {
          return;
        }
      }
      RearrangedKeeps(Geo(), b0, Board());
    }

    // -------------------------------------------------------------------
    // Stocking the maze

    /** `addWumpus`: the wumpus's one occurrence goes into one of the
        rooms; a maze with fewer rooms than that is an
        IllegalStateException.  `lair` is the room it went to. */
    method AddWumpus() returns (o: Outcome, ghost lair: MazePoint)
      requires Valid() && AllRequestedWallsRemoved() && Empty(Geo(), Board())
      modifies cellSet
      ensures Valid() && WallGrid() == old(WallGrid())
      ensures o.Pass? <==> Rooms(Geo(), WallGrid()) != []
      ensures o.Fail? ==> o == Fail(IllegalState) && Board() == old(Board())
      ensures o.Pass? ==> InRoom(lair) && HoldsAt(Board(), lair, Wumpus)
    {
      var availableCells := GetNonTunnelCells();
      var occurrences := TotalOccurrences(Wumpus).value;
      if |availableCells| < occurrences {
        return Fail(IllegalState), MazePoint(0, 0);
      }
      RoomsMembers(Geo(), WallGrid());
      ghost var b0 := Board();
      EmptyHoldsNothing(Geo(), b0, Wumpus);
      ghost var chosen;
      o, chosen := AddSingleCreature(Wumpus, availableCells, occurrences);
      if o.Fail? {
        // Every room is empty and there is one at least.
        assert false;
      }
      lair :| lair in chosen;
      StockedHolds(Geo(), b0, Board(), chosen, Wumpus, lair);
    }

    /** One round of the second loop of `addCreaturesToCells`: the rooms
        are listed again and a `Share` of them, for the percentage, receive
        a creature of type t.  The wumpus stays in its lair.  `chosen`
        records the rooms that took one. */
    method AddShare(t: CreatureType, percentage: int, ghost lair: MazePoint)
      returns (o: Outcome, ghost chosen: set<MazePoint>)
      requires Valid() && AllRequestedWallsRemoved() && 0 <= percentage <= MaxPercent
      requires InRoom(lair) && HoldsAt(Board(), lair, Wumpus)
      modifies cellSet
      ensures Valid() && WallGrid() == old(WallGrid()) && HoldsAt(Board(), lair, Wumpus)
      ensures forall q :: q in chosen ==> InRoom(q) && HoldsAt(Board(), q, t)
      ensures o.Pass? ==> |chosen| == Share(|Rooms(Geo(), WallGrid())|, percentage)
      ensures o.Fail? ==> o == Fail(IllegalArgument) || o == Fail(UnsupportedOperation)
      ensures (forall q :: InRoom(q) ==> !HoldsAt(old(Board()), q, t)) ==> o.Pass?
    {
      var availableCells := GetNonTunnelCells();
      RoomsMembers(Geo(), WallGrid());
      var numCreaturesToAdd := Share(|availableCells|, percentage);
      ghost var before := Board();
      o, chosen := AddSingleCreature(t, availableCells, numCreaturesToAdd);
      StockedKeeps(Geo(), before, Board(), chosen, t, lair.x, lair.y, Wumpus);
      forall q | q in chosen
        ensures InRoom(q) && HoldsAt(Board(), q, t)
      {
        StockedHolds(Geo(), before, Board(), chosen, t, q);
      }
    }

    /** The second loop of `addCreaturesToCells`: the entries in turn, each
        as `AddShare` says; a failing `addSingleCreature` ends the loop. */
    method AddShares(percentages: seq<(CreatureType, int)>, ghost lair: MazePoint) returns (o: Outcome)
      requires Valid() && AllRequestedWallsRemoved() && PercentagesOk(percentages)
      requires InRoom(lair) && HoldsAt(Board(), lair, Wumpus)
      modifies cellSet
      ensures Valid() && WallGrid() == old(WallGrid()) && HoldsAt(Board(), lair, Wumpus)
      ensures o.Fail? ==> o == Fail(IllegalArgument) || o == Fail(UnsupportedOperation)
    {
      o := Pass;
      for i := 0 to |percentages|
        invariant Valid() && WallGrid() == old(WallGrid()) && HoldsAt(Board(), lair, Wumpus)
        invariant o == Pass
      {
        ghost var chosen;
        o, chosen := AddShare(percentages[i].0, percentages[i].1, lair);
        if o.Fail? {
          return;
        }
      }
    }

    /** `initPlayerPosition` once the wumpus is in its lair, which the
        players' encounters leave it in. */
    method PlacePlayers(arrowCount: int, ghost lair: MazePoint) returns (o: Outcome)
      requires Valid() && AllRequestedWallsRemoved() && players == [] && nextPlayerIndex == 0
      requires InRoom(lair) && HoldsAt(Board(), lair, Wumpus)
      modifies this`players, this`playerSet, this`nextPlayerIndex, cellSet, movementGenerator
      ensures Valid() && WallGrid() == old(WallGrid()) && HoldsAt(Board(), lair, Wumpus)
      ensures arrowCount <= 0 ==> o == Fail(IllegalArgument)
      ensures o.Pass? ==> |players| == playerCount && nextPlayerIndex == 0
      ensures o.Pass? ==> forall t :: 0 <= t < |players| ==>
                && players[t].alive && players[t].totalArrows == arrowCount && players[t].usedArrows == 0
                && !LethalAt(Board(), players[t].position)
    {
      ghost var b0 := Board();
      o := InitPlayerPosition(arrowCount);
      RearrangedHolds(Geo(), b0, Board(), lair, Wumpus);
    }

    /** `addCreaturesToCells`: without percentages (a null or empty map)
        only the wumpus and the players are placed; otherwise every
        percentage is checked first, then the wumpus, the other creatures
        and the players are placed. */
    method AddCreaturesToCells(percentages: seq<(CreatureType, int)>, arrowCount: int) returns (o: Outcome)
      requires Valid() && AllRequestedWallsRemoved() && Empty(Geo(), Board())
      requires players == [] && nextPlayerIndex == 0 && DistinctKeys(percentages)
      modifies this`players, this`playerSet, this`nextPlayerIndex, cellSet, movementGenerator
      ensures Valid() && WallGrid() == old(WallGrid())
      ensures !PercentagesOk(percentages) ==> o == Fail(IllegalArgument) && Board() == old(Board()) && players == []
      ensures PercentagesOk(percentages) && Rooms(Geo(), WallGrid()) == [] ==>
                o == Fail(IllegalState) && Board() == old(Board()) && players == []
      ensures o.Pass? ==> exists q :: InRoom(q) && HoldsAt(Board(), q, Wumpus)
      ensures o.Pass? ==> |players| == playerCount && nextPlayerIndex == 0
      ensures o.Pass? ==> forall t :: 0 <= t < |players| ==>
                && players[t].alive && players[t].totalArrows == arrowCount && players[t].usedArrows == 0
                && !LethalAt(Board(), players[t].position)
    {
      if |percentages| != 0 {
        o := CheckPercentages(percentages);
        if o.Fail? {
          return;
        }
      }
      ghost var lair;
      o, lair := AddWumpus();
      if o.Fail? {
        return;
      }
      o := StockAndPlace(percentages, arrowCount, lair);
    }

    /** The rest of `addCreaturesToCells` once the wumpus is in: the other
        creatures by their percentages, then the players. */
    method StockAndPlace(percentages: seq<(CreatureType, int)>, arrowCount: int, ghost lair: MazePoint)
      returns (o: Outcome)
      requires Valid() && AllRequestedWallsRemoved() && PercentagesOk(percentages)
      requires players == [] && nextPlayerIndex == 0
      requires InRoom(lair) && HoldsAt(Board(), lair, Wumpus)
      modifies this`players, this`playerSet, this`nextPlayerIndex, cellSet, movementGenerator
      ensures Valid() && WallGrid() == old(WallGrid())
      ensures o.Pass? ==> InRoom(lair) && HoldsAt(Board(), lair, Wumpus)
      ensures o.Pass? ==> |players| == playerCount && nextPlayerIndex == 0
      ensures o.Pass? ==> forall t :: 0 <= t < |players| ==>
                && players[t].alive && players[t].totalArrows == arrowCount && players[t].usedArrows == 0
                && !LethalAt(Board(), players[t].position)
    {
      if |percentages| != 0 {
        o := AddShares(percentages, lair);
        if o.Fail? {
          return;
        }
      }
      o := PlacePlayers(arrowCount, lair);
    }

    /** `removeWalls` of either maze: allowed once.  The wall phases run
        (Kruskal's, the extra internal walls, for a wrapping maze the
        border walls), and once every requested wall is down the creatures
        and players are placed. */
    method RemoveWalls(percentages: seq<(CreatureType, int)>, totalPlayerArrows: int) returns (o: Outcome)
      requires Valid() && DistinctKeys(percentages)
      modifies this, cellSet, wallSet, movementGenerator
      ensures Valid()
      ensures old(wallsRemoved) ==> o == Fail(UnsupportedOperation) && unchanged(this) && Board() == old(Board())
      ensures !old(wallsRemoved) ==>
                && AllRequestedWallsRemoved()
                && |RemovedInternal()| == CellCount(Geo()) - 1 + extraInternalWallsToRemove
                && |RemovedBorder()| == (if wrapping && borderWallsToRemove > 0 then borderWallsToRemove else 0)
                && (forall x, y :: 0 <= x < CellCount(Geo()) && 0 <= y < CellCount(Geo()) ==>
                      Connected(Geo(), RemovedInternal(), x, y))
      ensures o.Pass? ==> exists q :: InRoom(q) && HoldsAt(Board(), q, Wumpus)
      ensures o.Pass? ==> |players| == playerCount && nextPlayerIndex == 0
      ensures o.Pass? ==> forall t :: 0 <= t < |players| ==>
                && players[t].alive && players[t].totalArrows == totalPlayerArrows && players[t].usedArrows == 0
                && !LethalAt(Board(), players[t].position)
    {
      if wallsRemoved {
        return Fail(UnsupportedOperation);
      }
      RemoveAllWalls();
      ghost var inner, border := RemovedInternal(), RemovedBorder();
      o := AddCreaturesToCells(percentages, totalPlayerArrows);
      assert RemovedInternal() == inner && RemovedBorder() == border;
    }

    // -------------------------------------------------------------------
    // Walks and commands

    /** The player whose turn it is, as a frame: `players.get(nextPlayerIndex)`
        when that index lies in the list. */
    function Active(): set<MazePlayer>
      reads this
    {
      if nextPlayerIndex < |players| then {players[nextPlayerIndex]} else {}
    }

    /** `markVisible` on the cell at p. */
    method MarkSeen(p: MazePoint)
      requires Shape() && Geo().InRange(p)
      modifies cells[p.x][p.y]
      ensures Seen(Geo(), old(Board()), Board())
      ensures Marked(Geo(), old(Board()), Board(), {p})
      ensures cells[p.x][p.y].walls == old(cells[p.x][p.y].walls)
    {
      ghost var before: Board := Board();
      var cell := cells[p.x][p.y];
      cell.MarkVisible();
      ghost var after := SetAt(before, p, before[p.x][p.y].(visible := true));
      var now := Board();
      forall r | 0 <= r < rows
        ensures now[r] == after[r]
      {
      }
      MarkedSeen(Geo(), before, p);
    }

    /** The `if (markCellAsVisited)` of `getCellAtDistance`. */
    method MarkIfAsked(p: MazePoint, markCellAsVisited: bool)
      requires Shape() && Geo().InRange(p)
      modifies cells[p.x][p.y]
      ensures Seen(Geo(), old(Board()), Board())
      ensures Marked(Geo(), old(Board()), Board(), if markCellAsVisited then {p} else {})
      ensures !markCellAsVisited ==> Board() == old(Board())
    {
      if markCellAsVisited {
        MarkSeen(p);
      }
    }

    /** What the cell at `point` decides in `getCellAtDistance`: the cell
        found, null, a stuck tunnel, or the way on and the distance left,
        as `StepAt` says. */
    method StepHere(point: MazePoint, arrowDirection: Direction, distance: int, ghost ws: Grid)
      returns (onward: bool, next: Direction, left: int, r: Result<Option<MazePoint>>)
      requires Shape() && Geo().InRange(point) && ws == WallGrid()
      ensures var step := StepAt(ws, point, arrowDirection, distance);
              && (onward <==> step.Move?)
              && (onward ==> step == Move(next, left))
              && (step == Found ==> r == Ok(Some(point)))
              && (step == Closed ==> r == Ok(None))
              && (step == Stuck ==> r == Err(IllegalState))
    {
      var currentCell := cells[point.x][point.y];
      var here := currentCell.walls;
      var tunnel := currentCell.IsTunnel();
      var validDirections := currentCell.Suggestions();
      assert here == WallsAt(ws, point);
      ghost var step := StepAt(ws, point, arrowDirection, distance);
      left := if tunnel then distance else distance - 1;
      next := arrowDirection;
      onward := false;
      r := Ok(None);
      if left == 0 {
        assert step == Found;
        r := Ok(Some(point));
      } else if !tunnel {
        if arrowDirection !in validDirections {
          assert step == Closed;
          r := Ok(None);
        } else {
          onward := true;
        }
      } else {
        var nextDirections := Exits(here, Some(Inverse(arrowDirection)), Values);
        if |nextDirections| != 1 {
          assert step == Stuck;
          r := Err(IllegalState);
        } else {
          next := nextDirections[0];
          onward := true;
        }
      }
    }

    /** `getCellAtDistance`: the walk `Walk` describes, run on the cells,
        marking each cell it passes seen when asked to, exactly the cells
        `Passed` lists.  The result is the position of the cell reached,
        `None` for null.  `fuel` is the stack the recursion may still use. */
    method GetCellAtDistance(point: MazePoint, arrowDirection: Direction, distance: int,
                             markCellAsVisited: bool, fuel: nat, ghost ws: Grid, ghost w: Walked)
      returns (r: Result<Option<MazePoint>>)
      requires Shape() && Geo().InRange(point) && ws == WallGrid()
      requires w == Walk(Geo(), ws, point, arrowDirection, distance, fuel)
      modifies cellSet
      decreases fuel, 1
      ensures Seen(Geo(), old(Board()), Board())
      ensures Marked(Geo(), old(Board()), Board(),
                     if markCellAsVisited then Passed(Geo(), ws, point, arrowDirection, distance, fuel) else {})
      ensures r == w.result
      ensures !markCellAsVisited ==> Board() == old(Board())
    {
      // Marking changes only the visibility, so the cell is read first and
      // marked once the step it decides is known.
      var onward, next, left;
      onward, next, left, r := StepHere(point, arrowDirection, distance, ws);
      WalkStep(Geo(), ws, point, arrowDirection, distance, fuel);
      PassedStep(Geo(), ws, point, arrowDirection, distance, fuel);
      MarkIfAsked(point, markCellAsVisited);
      ghost var b1 := Board();
      ghost var m1: set<MazePoint> := if markCellAsVisited then {point} else {};
      SeenWalls(Geo(), old(Board()), b1);
      if onward {
        r := Onward(point, next, left, markCellAsVisited, fuel, ws);
        SeenTransitive(Geo(), old(Board()), b1, Board());
        ghost var m2: set<MazePoint> := if markCellAsVisited && Neighbour(Geo(), point, next).Ok? && fuel > 0
          then Passed(Geo(), ws, Neighbour(Geo(), point, next).value, next, left, fuel - 1) else {};
        MarkedUnion(Geo(), old(Board()), b1, Board(), m1, m2);
      }
    }

    /** The rest of `getCellAtDistance` once the cell at `point` sends the
        walk on in direction `next`: wrap the neighbouring point, then
        recurse with one unit of fuel less. */
    method Onward(point: MazePoint, next: Direction, left: int, markCellAsVisited: bool,
                  fuel: nat, ghost ws: Grid) returns (r: Result<Option<MazePoint>>)
      requires Shape() && Geo().InRange(point) && ws == WallGrid()
      modifies cellSet
      decreases fuel, 0
      ensures Seen(Geo(), old(Board()), Board())
      ensures Marked(Geo(), old(Board()), Board(),
                     if markCellAsVisited && Neighbour(Geo(), point, next).Ok? && fuel > 0
                     then Passed(Geo(), ws, Neighbour(Geo(), point, next).value, next, left, fuel - 1) else {})
      ensures !markCellAsVisited ==> Board() == old(Board())
      ensures Neighbour(Geo(), point, next).Err? ==> r == Err(Neighbour(Geo(), point, next).fault)
      ensures Neighbour(Geo(), point, next).Ok? && fuel == 0 ==> r == Err(StackOverflow)
      ensures Neighbour(Geo(), point, next).Ok? && fuel > 0 ==>
                r == Walk(Geo(), ws, Neighbour(Geo(), point, next).value, next, left, fuel - 1).result
    {
      NeighbourWraps(Geo(), point, next);
      var nextPoint := Wrapped(Geo(), NextPoint(next, point));
      if nextPoint.Err? {
        r := Err(nextPoint.fault);
      } else if fuel == 0 {
        r := Err(StackOverflow);
      } else {
        r := GetCellAtDistance(nextPoint.value, next, left, markCellAsVisited, fuel - 1, ws,
                               Walk(Geo(), ws, nextPoint.value, next, left, fuel - 1));
      }
    }

    /** `getCellAtDistance` as the arrow's flight calls it, without marking:
        the walk's answer, and the board as it was. */
    method Trace(point: MazePoint, dir: Direction, distance: int, fuel: nat, ghost ws: Grid, ghost w: Walked)
      returns (r: Result<Option<MazePoint>>)
      requires Shape() && Geo().InRange(point) && ws == WallGrid()
      requires w == Walk(Geo(), ws, point, dir, distance, fuel)
      modifies cellSet
      ensures Board() == old(Board()) && r == w.result
    {
      r := GetCellAtDistance(point, dir, distance, false, fuel, ws, w);
    }

    /** The flight of `shootArrow`'s arrow, up to the test for the wumpus:
        what `Shot` says of the board, which the flight leaves as it was. */
    method Aim(point: MazePoint, dir: Direction, power: int) returns (r: Result<bool>)
      requires Valid()
      modifies cellSet
      ensures Valid() && Board() == old(Board())
      ensures r == Shot(Geo(), Board(), point, dir, power, stackDepth)
    {
      if !(0 <= point.x < rows && 0 <= point.y < cols) {
        return Err(IndexOutOfBounds);
      }
      var currentCell := cells[point.x][point.y];
      if currentCell.IsTunnel() {
        return Err(IllegalState);
      }
      var validDirections := currentCell.Suggestions();
      if dir !in validDirections {
        return Err(Recoverable);
      }
      ghost var ws := WallGrid();
      ghost var w := Walk(Geo(), ws, point, dir, power + 1, stackDepth);
      var finalCell := Trace(point, dir, power + 1, stackDepth, ws, w);
      StillValid();
      if finalCell.Err? {
        return Err(finalCell.fault);
      }
      if finalCell.value.None? {
        return Ok(false);
      }
      var q := finalCell.value.value;
      WalkCountsRooms(Geo(), ws, point, dir, power + 1, stackDepth, w);
      return Ok(cells[q.x][q.y].HasCreature(Wumpus));
    }

    /** The end of a missed `shootArrow`: the player whose turn it is is
        charged an arrow (`Reduce`), and only a successful charge passes
        the turn.  The cells are left as they were. */
    method ChargeMiss() returns (r: Result<bool>)
      requires Valid() && nextPlayerIndex < |players|
      modifies this`nextPlayerIndex, Active()
      ensures Valid() && Board() == old(Board())
      ensures var player := players[old(nextPlayerIndex)];
              var charged := Reduce(old(player.Arrows()), player.totalArrows);
              && player.Arrows() == charged.0 && player.position == old(player.position)
              && (charged.1.Pass? ==> r == Ok(false) && nextPlayerIndex == NextTurn(old(nextPlayerIndex), playerCount))
              && (charged.1.Fail? ==> r == Err(charged.1.fault) && nextPlayerIndex == old(nextPlayerIndex))
    {
      var player := players[nextPlayerIndex];
      var charge := player.ReduceArrowCount();
      ValidAgain(player);
      if charge.Fail? {
        return Err(charge.fault);
      }
      ChangePlayerTurn();
      ValidAgain(player);
      return Ok(false);
    }

    /** `shootArrow` by the player whose turn it is.  What the arrow does is
        `Shot`; a hit ends the call, and a miss charges the player an arrow
        (`Reduce`) and only then passes the turn, which a failed charge does
        not.  The cells are left as they were. */
    method ShootArrow(point: MazePoint, dir: Direction, power: int) returns (r: Result<bool>)
      requires Valid()
      modifies this`nextPlayerIndex, cellSet, Active()
      ensures Valid() && Board() == old(Board())
      ensures var s := Shot(Geo(), old(Board()), point, dir, power, stackDepth);
              && (s.Err? || s == Ok(true) ==> r == s && nextPlayerIndex == old(nextPlayerIndex))
              && (s == Ok(false) && old(nextPlayerIndex) >= |players| ==>
                    r == Err(IndexOutOfBounds) && nextPlayerIndex == old(nextPlayerIndex))
              && (s == Ok(false) && old(nextPlayerIndex) < |players| ==>
                    var player := players[old(nextPlayerIndex)];
                    var charged := Reduce(old(player.Arrows()), player.totalArrows);
                    && player.Arrows() == charged.0 && player.position == old(player.position)
                    && (charged.1.Pass? ==> r == Ok(false) && nextPlayerIndex == NextTurn(old(nextPlayerIndex), playerCount))
                    && (charged.1.Fail? ==> r == Err(charged.1.fault) && nextPlayerIndex == old(nextPlayerIndex)))
    {
      var hit := Aim(point, dir, power);
      if hit.Err? || hit.value {
        return hit;
      }
      if nextPlayerIndex >= |players| {
        return Err(IndexOutOfBounds);
      }
      r := ChargeMiss();
    }

    /** The end of `movePlayerInDirection`: the player whose turn it is is
        moved to room q (a dead player is refused) and meets its
        creatures; the turn passes only when that succeeds. */
    method EnterRoom(player: MazePlayer, q: MazePoint) returns (o: Outcome)
      requires Valid() && AllRequestedWallsRemoved() && InRoom(q)
      requires nextPlayerIndex < |players| && player == players[nextPlayerIndex]
      modifies this`nextPlayerIndex, cellSet, player, movementGenerator
      ensures Valid() && Encountered(player)
      ensures !old(player.alive) ==> o == Fail(UnsupportedOperation) && player.position == old(player.position)
      ensures old(player.alive) ==> Board()[q.x][q.y].visible
      ensures old(player.alive) ==>
                (!player.alive <==> o == Fail(PlayerKilled(WumpusKill)) || o == Fail(PlayerKilled(PitKill)))
      ensures o.Pass? ==> player.alive && !LethalAt(Board(), player.position)
      ensures o.Pass? ==> nextPlayerIndex == NextTurn(old(nextPlayerIndex), playerCount)
      ensures o.Fail? ==> nextPlayerIndex == old(nextPlayerIndex)
      ensures o.Fail? ==> o.fault in {UnsupportedOperation, ConcurrentModification, DrawsExhausted, StackOverflow,
                                      PlayerKilled(WumpusKill), PlayerKilled(PitKill)}
      ensures old(player.alive) ==> Met(old(Board())[q.x][q.y].creatures, q, o, player.position)
    {
      o := player.SetNewPosition(q);
      ValidAgain(player);
      if o.Fail? {
        BoardKept();
        return;
      }
      o := MeetAndPassTurn(q);
    }

    /** The walk of `movePlayerInDirection` from point p: two rooms in
        direction d, marking every cell it passes seen. */
    method Advance(p: MazePoint, d: Direction) returns (r: Result<Option<MazePoint>>)
      requires Valid() && Geo().InRange(p)
      modifies cellSet
      ensures Valid() && WallGrid() == old(WallGrid()) && Rearranged(Geo(), old(Board()), Board())
      ensures r == Destination(Geo(), WallGrid(), p, d, stackDepth)
      ensures Marked(Geo(), old(Board()), Board(), Passed(Geo(), WallGrid(), p, d, 2, stackDepth))
      ensures AllSeen(Geo(), Board(), Passed(Geo(), WallGrid(), p, d, 2, stackDepth))
    {
      ghost var ws := WallGrid();
      r := GetCellAtDistance(p, d, 2, true, stackDepth, ws, Walk(Geo(), ws, p, d, 2, stackDepth));
      SeenValid();
      MarkedIsSeen(Geo(), old(Board()), Board(), Passed(Geo(), ws, p, d, 2, stackDepth));
    }

    /** `movePlayerInDirection` for the player whose turn it is: a walk of
        two rooms from the player's room that marks every cell it passes
        seen; a room closed in that direction refuses the move (a
        RecoverableException) and the player stays, otherwise the player
        enters the room reached as `EnterRoom` says. */
    method MovePlayerInDirection(direction: Direction) returns (o: Outcome)
      requires Valid()
      modifies this`nextPlayerIndex, cellSet, Active(), movementGenerator
      ensures Valid() && WallGrid() == old(WallGrid()) && Rearranged(Geo(), old(Board()), Board())
      ensures old(nextPlayerIndex) >= |players| ==> o == Fail(IndexOutOfBounds) && Board() == old(Board())
      ensures o.Pass? ==> nextPlayerIndex == NextTurn(old(nextPlayerIndex), playerCount)
      ensures o.Fail? ==> nextPlayerIndex == old(nextPlayerIndex)
      ensures old(nextPlayerIndex) < |players| ==>
                var player := players[old(nextPlayerIndex)];
                var w := Destination(Geo(), WallGrid(), old(player.position), direction, stackDepth);
                && player.usedArrows == old(player.usedArrows)
                && (w.Err? ==> o == Fail(w.fault) && player.position == old(player.position))
                && (w == Ok(None) <==> o == Fail(Recoverable))
                && (w == Ok(None) ==> player.position == old(player.position))
                && (w.Ok? && w.value.Some? && !old(player.alive) ==>
                      o == Fail(UnsupportedOperation) && player.position == old(player.position))
                && (w.Ok? && w.value.Some? && old(player.alive) ==>
                      && Board()[w.value.value.x][w.value.value.y].visible
                      && Met(old(Board())[w.value.value.x][w.value.value.y].creatures, w.value.value, o, player.position)
                      && (!player.alive <==> o == Fail(PlayerKilled(WumpusKill)) || o == Fail(PlayerKilled(PitKill))))
                && (o.Pass? ==> player.alive && !LethalAt(Board(), player.position))
                && AllSeen(Geo(), Board(), Passed(Geo(), WallGrid(), old(player.position), direction, 2, stackDepth))
    {
      if nextPlayerIndex >= |players| {
        return Fail(IndexOutOfBounds);
      }
      var playerToMove := players[nextPlayerIndex];
      o := MovePlayer(playerToMove, direction);
    }

    /** The move itself, for the player whose turn it is. */
    method MovePlayer(player: MazePlayer, direction: Direction) returns (o: Outcome)
      requires Valid() && nextPlayerIndex < |players| && player == players[nextPlayerIndex]
      modifies this`nextPlayerIndex, cellSet, Active(), movementGenerator
      ensures Valid() && WallGrid() == old(WallGrid()) && Rearranged(Geo(), old(Board()), Board())
      ensures o.Pass? ==> nextPlayerIndex == NextTurn(old(nextPlayerIndex), playerCount)
      ensures o.Fail? ==> nextPlayerIndex == old(nextPlayerIndex)
      ensures var w := Destination(Geo(), WallGrid(), old(player.position), direction, stackDepth);
                && player.usedArrows == old(player.usedArrows)
                && (w.Err? ==> o == Fail(w.fault) && player.position == old(player.position))
                && (w == Ok(None) <==> o == Fail(Recoverable))
                && (w == Ok(None) ==> player.position == old(player.position))
                && (w.Ok? && w.value.Some? && !old(player.alive) ==>
                      o == Fail(UnsupportedOperation) && player.position == old(player.position))
                && (w.Ok? && w.value.Some? && old(player.alive) ==>
                      && Board()[w.value.value.x][w.value.value.y].visible
                      && Met(old(Board())[w.value.value.x][w.value.value.y].creatures, w.value.value, o, player.position)
                      && (!player.alive <==> o == Fail(PlayerKilled(WumpusKill)) || o == Fail(PlayerKilled(PitKill))))
                && (o.Pass? ==> player.alive && !LethalAt(Board(), player.position))
      ensures AllSeen(Geo(), Board(), Passed(Geo(), WallGrid(), old(player.position), direction, 2, stackDepth))
    {
      ghost var passed := Passed(Geo(), WallGrid(), player.position, direction, 2, stackDepth);
      var nextCell := Advance(player.position, direction);
      ghost var b1 := Board();
      o := Arrive(player, direction, nextCell, passed);
      RearrangedTransitive(Geo(), old(Board()), b1, Board());
    }

    /** The rest of the move once the walk has answered `nextCell`: a closed
        direction or a fault leaves the player where they are, a room reached
        is entered as `EnterRoom` says; cells already seen stay seen. */
    method Arrive(player: MazePlayer, direction: Direction, nextCell: Result<Option<MazePoint>>,
                  ghost passed: set<MazePoint>) returns (o: Outcome)
      requires Valid() && nextPlayerIndex < |players| && player == players[nextPlayerIndex]
      requires nextCell == Destination(Geo(), WallGrid(), player.position, direction, stackDepth)
      requires AllSeen(Geo(), Board(), passed)
      modifies this`nextPlayerIndex, cellSet, Active(), movementGenerator
      ensures Valid() && WallGrid() == old(WallGrid()) && Rearranged(Geo(), old(Board()), Board())
      ensures o.Pass? ==> nextPlayerIndex == NextTurn(old(nextPlayerIndex), playerCount)
      ensures o.Fail? ==> nextPlayerIndex == old(nextPlayerIndex)
      ensures var w := Destination(Geo(), WallGrid(), old(player.position), direction, stackDepth);
                && player.usedArrows == old(player.usedArrows)
                && (w.Err? ==> o == Fail(w.fault) && player.position == old(player.position))
                && (w == Ok(None) <==> o == Fail(Recoverable))
                && (w == Ok(None) ==> player.position == old(player.position))
                && (w.Ok? && w.value.Some? && !old(player.alive) ==>
                      o == Fail(UnsupportedOperation) && player.position == old(player.position))
                && (w.Ok? && w.value.Some? && old(player.alive) ==>
                      && Board()[w.value.value.x][w.value.value.y].visible
                      && Met(old(Board())[w.value.value.x][w.value.value.y].creatures, w.value.value, o, player.position)
                      && (!player.alive <==> o == Fail(PlayerKilled(WumpusKill)) || o == Fail(PlayerKilled(PitKill))))
                && (o.Pass? ==> player.alive && !LethalAt(Board(), player.position))
      ensures AllSeen(Geo(), Board(), passed)
    {
      if nextCell.Err? {
        return Fail(nextCell.fault);
      }
      if nextCell.value.None? {
        return Fail(Recoverable);
      }
      WrappedMeaning(Geo(), nextCell.value.value);
      var newPosition := Wrapped(Geo(), nextCell.value.value).value;
      ghost var b1 := Board();
      o := EnterRoom(player, newPosition);
      RearrangedTransitive(Geo(), old(Board()), b1, Board());
      RearrangedKeepsSeen(Geo(), b1, Board(), passed);
    }

    /** `new NonWrappingRoomMaze(...)`: every argument check raises an
        IllegalArgumentException. */
    static method NonWrapping(rowCount: int, columnCount: int, extra: int, count: int,
                              depth: nat, movement: Generator?) returns (r: Result<Maze>)
      ensures r.Err? <==> rowCount <= 0 || columnCount <= 0 || movement == null || count < 1 || extra < 0
                          || TooFewWalls(rowCount, columnCount, extra)
      ensures r.Err? ==> r.fault == IllegalArgument
      ensures r.Ok? ==> fresh(r.value) && r.value.Valid() && !r.value.wrapping
                        && r.value.rows == rowCount && r.value.cols == columnCount
                        && r.value.extraInternalWallsToRemove == extra && r.value.playerCount == count
                        && r.value.Board() == NewBoard(r.value.Geo())
                        && !r.value.wallsRemoved && r.value.players == []
                        && r.value.movementGenerator == movement
    {
      if columnCount <= 0 || rowCount <= 0 {
        return Err(IllegalArgument);
      }
      if movement == null {
        return Err(IllegalArgument);
      }
      if count < 1 {
        return Err(IllegalArgument);
      }
      if extra < 0 {
        return Err(IllegalArgument);
      }
      if TooFewWalls(rowCount, columnCount, extra) {
        return Err(IllegalArgument);
      }
      TooFewWallsMeans(rowCount, columnCount, extra);
      var m := new Maze(rowCount, columnCount, false, extra, 0, count, depth, movement);
      return Ok(m);
    }

    /** `new WrappingRoomMaze(...)`: the non-wrapping checks, then too many
        border walls. */
    static method Wrapping(rowCount: int, columnCount: int, extra: int, border: int, count: int,
                           depth: nat, movement: Generator?) returns (r: Result<Maze>)
      ensures r.Err? <==> rowCount <= 0 || columnCount <= 0 || movement == null || count < 1 || extra < 0
                          || TooFewWalls(rowCount, columnCount, extra) || border > rowCount + columnCount
      ensures r.Err? ==> r.fault == IllegalArgument
      ensures r.Ok? ==> fresh(r.value) && r.value.Valid() && r.value.wrapping
                        && r.value.rows == rowCount && r.value.cols == columnCount
                        && r.value.extraInternalWallsToRemove == extra
                        && r.value.borderWallsToRemove == border && r.value.playerCount == count
                        && r.value.Board() == NewBoard(r.value.Geo())
                        && !r.value.wallsRemoved && r.value.players == []
                        && r.value.movementGenerator == movement
    {
      if columnCount <= 0 || rowCount <= 0 {
        return Err(IllegalArgument);
      }
      if movement == null {
        return Err(IllegalArgument);
      }
      if count < 1 {
        return Err(IllegalArgument);
      }
      if extra < 0 {
        return Err(IllegalArgument);
      }
      if TooFewWalls(rowCount, columnCount, extra) {
        return Err(IllegalArgument);
      }
      if border > rowCount + columnCount {
        return Err(IllegalArgument);
      }
      TooFewWallsMeans(rowCount, columnCount, extra);
      var m := new Maze(rowCount, columnCount, true, extra, border, count, depth, movement);
      return Ok(m);
    }
  }
}
