/** The play phase on snapshots of the board: which cells are rooms (the
    list `getNonTunnelCells` returns), which of them can kill a player, and
    what an encounter may do to the cells (run their creatures, which sorts
    them, and mark them seen) or what placing a creature does. */
module Encounters {
  import opened Faults
  import opened MazePoints
  import opened Directions
  import opened Creatures
  import opened Cells
  import opened MazeLayout
  import opened Traversal
  import opened Boards

  // ---------------------------------------------------------------------
  // Rooms

  /** The rooms of row r from column c on, left to right: the stream
      filter `getSpecificCells` applies to one row. */
  function RowRooms(ws: Grid, r: nat, c: nat, cols: nat): (ps: seq<MazePoint>)
    decreases cols - c
  {
    if c >= cols then []
    else (if IsTunnelAt(ws, MazePoint(r, c)) then [] else [MazePoint(r, c)]) + RowRooms(ws, r, c + 1, cols)
  }

  /** The rooms of the rows before r, row by row. */
  function RoomsBefore(g: Geometry, ws: Grid, r: nat): seq<MazePoint>
  {
    if r == 0 then [] else RoomsBefore(g, ws, r - 1) + RowRooms(ws, r - 1, 0, g.cols)
  }

  /** `getNonTunnelCells`, as positions. */
  function Rooms(g: Geometry, ws: Grid): seq<MazePoint>
  {
    RoomsBefore(g, ws, g.rows)
  }

  lemma {:induction false} RowRoomsMembers(ws: Grid, r: nat, c: nat, cols: nat)
    ensures NoDup(RowRooms(ws, r, c, cols))
    ensures forall q :: q in RowRooms(ws, r, c, cols) <==>
              q.x == r && c <= q.y < cols && !IsTunnelAt(ws, q)
    decreases cols - c
  {
    if c < cols {
      RowRoomsMembers(ws, r, c + 1, cols);
    }
  }

  lemma NoDupConcat<T>(a: seq<T>, b: seq<T>)
    requires NoDup(a) && NoDup(b) && forall x :: x in a ==> x !in b
    ensures NoDup(a + b)
  {
    forall i, j | 0 <= i < j < |a + b|
      ensures (a + b)[i] != (a + b)[j]
    {
      if i < |a| && j >= |a| {
        assert (a + b)[i] in a && (a + b)[j] == b[j - |a|];
      } else if i >= |a| {
        assert (a + b)[i] == b[i - |a|] && (a + b)[j] == b[j - |a|];
      }
    }
  }

  lemma {:induction false} RoomsBeforeMembers(g: Geometry, ws: Grid, r: nat)
    ensures NoDup(RoomsBefore(g, ws, r))
    ensures forall q :: q in RoomsBefore(g, ws, r) <==>
              0 <= q.x < r && 0 <= q.y < g.cols && !IsTunnelAt(ws, q)
  {
    if r > 0 {
      var a, b := RoomsBefore(g, ws, r - 1), RowRooms(ws, r - 1, 0, g.cols);
      RoomsBeforeMembers(g, ws, r - 1);
      RowRoomsMembers(ws, r - 1, 0, g.cols);
      NoDupConcat(a, b);
      assert RoomsBefore(g, ws, r) == a + b;
    }
  }

  /** The rooms are exactly the cells of the grid that are not tunnels,
      each listed once. */
  lemma RoomsMembers(g: Geometry, ws: Grid)
    ensures NoDup(Rooms(g, ws))
    ensures forall q :: q in Rooms(g, ws) <==> g.InRange(q) && !IsTunnelAt(ws, q)
  {
    RoomsBeforeMembers(g, ws, g.rows);
  }

  // ---------------------------------------------------------------------
  // Hazards

  /** `canCellKillPlayer` of a cell that exists: it holds the pit or the wumpus. */
  predicate Lethal(s: CellState)
  {
    HasType(s.creatures, Pit) || HasType(s.creatures, Wumpus)
  }

  predicate LethalAt(b: Board, p: MazePoint)
  {
    0 <= p.x < |b| && 0 <= p.y < |b[p.x]| && Lethal(b[p.x][p.y])
  }

  /** The cell at p exists and holds a creature of type t. */
  predicate HoldsAt(b: Board, p: MazePoint, t: CreatureType)
  {
    0 <= p.x < |b| && 0 <= p.y < |b[p.x]| && HasType(b[p.x][p.y].creatures, t)
  }

  /** The stream filter of `initPlayerPosition`: the positions of `ps`
      whose cell cannot kill a player. */
  function Harmless(b: Board, ps: seq<MazePoint>): (r: seq<MazePoint>)
    ensures |r| <= |ps|
  {
    if ps == [] then []
    else (if LethalAt(b, ps[0]) then [] else [ps[0]]) + Harmless(b, ps[1..])
  }

  lemma {:induction false} HarmlessMembers(b: Board, ps: seq<MazePoint>)
    ensures forall q :: q in Harmless(b, ps) <==> q in ps && !LethalAt(b, q)
  {
    if ps != [] {
      HarmlessMembers(b, ps[1..]);
      assert forall q :: q in ps <==> q == ps[0] || q in ps[1..];
    }
  }

  /** The harmless rooms depend only on which cells can kill. */
  lemma {:induction false} HarmlessSame(b: Board, b': Board, ps: seq<MazePoint>)
    requires forall p :: LethalAt(b', p) == LethalAt(b, p)
    ensures Harmless(b', ps) == Harmless(b, ps)
  {
    if ps != [] {
      HarmlessSame(b, b', ps[1..]);
    }
  }

  // ---------------------------------------------------------------------
  // How the play phase changes the board

  /** Every cell keeps its walls. */
  ghost predicate SameWalls(g: Geometry, b: Board, b': Board)
    requires BoardShape(g, b) && BoardShape(g, b')
  {
    forall r, c :: 0 <= r < g.rows && 0 <= c < g.cols ==> b'[r][c].walls == b[r][c].walls
  }

  /** What encounters do to the cells: the walls stay, a seen cell stays
      seen, and a creature list is either left alone or put in run order. */
  ghost predicate Rearranged(g: Geometry, b: Board, b': Board)
    requires BoardShape(g, b) && BoardShape(g, b')
  {
    forall r, c :: 0 <= r < g.rows && 0 <= c < g.cols ==>
      && b'[r][c].walls == b[r][c].walls
      && (b[r][c].visible ==> b'[r][c].visible)
      && (b'[r][c].creatures == b[r][c].creatures || b'[r][c].creatures == ActionOrder(b[r][c].creatures))
  }

  /** The walk's marks: only the seen flags change, and only to true. */
  ghost predicate Seen(g: Geometry, b: Board, b': Board)
    requires BoardShape(g, b) && BoardShape(g, b')
  {
    forall r, c :: 0 <= r < g.rows && 0 <= c < g.cols ==>
      b'[r][c] == b[r][c].(visible := b'[r][c].visible) && (b[r][c].visible ==> b'[r][c].visible)
  }

  /** Boards with the same walls have the same wall grid. */
  lemma SameWallsGrid(g: Geometry, b: Board, b': Board)
    requires BoardShape(g, b) && BoardShape(g, b') && SameWalls(g, b, b')
    ensures WallsOf(g, b') == WallsOf(g, b)
  {
    var w, w' := WallsOf(g, b), WallsOf(g, b');
    forall r | 0 <= r < g.rows
      ensures w'[r] == w[r]
    {
    }
  }

  /** One cell of a rearrangement: the cell invariant, the creatures' make,
      which types are present and the run order all survive. */
  lemma CellRearranged(s: CellState, s': CellState)
    requires StateOk(s) && WellMade(s.creatures)
    requires s'.walls == s.walls
    requires s'.creatures == s.creatures || s'.creatures == ActionOrder(s.creatures)
    ensures StateOk(s') && WellMade(s'.creatures)
    ensures forall t :: HasType(s'.creatures, t) == HasType(s.creatures, t)
    ensures ActionOrder(s'.creatures) == ActionOrder(s.creatures)
  {
    ActionOrderIdempotent(s.creatures);
    ActionOrderWellMade(s.creatures);
    ActionOrderPermutation(s.creatures);
    SortKeepsState(s, s'.modCount);
    forall t
      ensures HasType(s'.creatures, t) == HasType(s.creatures, t)
    {
      HasTypePermutation(s.creatures, ActionOrder(s.creatures), t);
    }
  }

  /** A rearranged board keeps the walls, the cell invariants, an empty
      board stays empty, and no cell becomes or stops being lethal. */
  lemma RearrangedKeeps(g: Geometry, b: Board, b': Board)
    requires BoardShape(g, b) && BoardShape(g, b') && CellsOk(g, b) && Rearranged(g, b, b')
    ensures CellsOk(g, b') && SameWalls(g, b, b') && WallsOf(g, b') == WallsOf(g, b)
    ensures Empty(g, b) ==> Empty(g, b')
    ensures forall p :: LethalAt(b', p) == LethalAt(b, p)
  {
    forall r, c | 0 <= r < g.rows && 0 <= c < g.cols
      ensures StateOk(b'[r][c]) && WellMade(b'[r][c].creatures)
      ensures Lethal(b'[r][c]) == Lethal(b[r][c])
      ensures b[r][c].creatures == [] ==> b'[r][c].creatures == []
    {
      CellRearranged(b[r][c], b'[r][c]);
      if b[r][c].creatures == [] {
        assert |ActionOrder(b[r][c].creatures)| == |multiset(ActionOrder(b[r][c].creatures))| == 0;
      }
    }
    SameWallsGrid(g, b, b');
  }

  /** Rearranging twice is rearranging once: a list put in run order is
      left as it is by a second sort. */
  lemma RearrangedTransitive(g: Geometry, b0: Board, b1: Board, b2: Board)
    requires BoardShape(g, b0) && BoardShape(g, b1) && BoardShape(g, b2) && CellsOk(g, b0)
    requires Rearranged(g, b0, b1) && Rearranged(g, b1, b2)
    ensures Rearranged(g, b0, b2)
  {
    forall r, c | 0 <= r < g.rows && 0 <= c < g.cols
      ensures b2[r][c].creatures == b0[r][c].creatures || b2[r][c].creatures == ActionOrder(b0[r][c].creatures)
    {
      CellRearranged(b0[r][c], b1[r][c]);
    }
  }

  lemma RearrangedReflexive(g: Geometry, b: Board)
    requires BoardShape(g, b)
    ensures Rearranged(g, b, b)
  {
  }

  /** Marking cells seen is a rearrangement that leaves every list alone. */
  lemma SeenRearranged(g: Geometry, b: Board, b': Board)
    requires BoardShape(g, b) && BoardShape(g, b') && Seen(g, b, b')
    ensures Rearranged(g, b, b')
  {
  }

  /** Marking cells seen leaves every wall where it was. */
  lemma SeenWalls(g: Geometry, b: Board, b': Board)
    requires BoardShape(g, b) && BoardShape(g, b') && Seen(g, b, b')
    ensures WallsOf(g, b') == WallsOf(g, b)
  {
    SameWallsGrid(g, b, b');
  }

  lemma SeenTransitive(g: Geometry, b0: Board, b1: Board, b2: Board)
    requires BoardShape(g, b0) && BoardShape(g, b1) && BoardShape(g, b2)
    requires Seen(g, b0, b1) && Seen(g, b1, b2)
    ensures Seen(g, b0, b2)
  {
  }

  /** The walk's marks, exactly: the cells of `marked` become seen, every
      other cell keeps its seen flag, and nothing else changes. */
  ghost predicate Marked(g: Geometry, b: Board, b': Board, marked: set<MazePoint>)
    requires BoardShape(g, b) && BoardShape(g, b')
  {
    forall r, c :: 0 <= r < g.rows && 0 <= c < g.cols ==>
      b'[r][c] == b[r][c].(visible := b[r][c].visible || MazePoint(r, c) in marked)
  }

  /** Exact marks are a walk's marks. */
  lemma MarkedIsSeen(g: Geometry, b: Board, b': Board, marked: set<MazePoint>)
    requires BoardShape(g, b) && BoardShape(g, b') && Marked(g, b, b', marked)
    ensures Seen(g, b, b')
    ensures forall q :: q in marked && g.InRange(q) ==> b'[q.x][q.y].visible
    ensures (forall q :: q in marked ==> g.InRange(q)) ==> AllSeen(g, b', marked)
  {
    forall q | q in marked && g.InRange(q)
      ensures b'[q.x][q.y].visible
    {
      assert MazePoint(q.x, q.y) == q;
    }
  }

  /** Every cell of `cells` is a cell of the grid that has been seen. */
  ghost predicate AllSeen(g: Geometry, b: Board, cells: set<MazePoint>)
    requires BoardShape(g, b)
  {
    forall q :: q in cells ==> g.InRange(q) && b[q.x][q.y].visible
  }

  /** Cells once seen stay seen through a rearrangement. */
  lemma RearrangedKeepsSeen(g: Geometry, b: Board, b': Board, cells: set<MazePoint>)
    requires BoardShape(g, b) && BoardShape(g, b') && Rearranged(g, b, b')
    requires AllSeen(g, b, cells)
    ensures AllSeen(g, b', cells)
  {
  }

  /** Marks made one after the other add up. */
  lemma MarkedUnion(g: Geometry, b0: Board, b1: Board, b2: Board, m1: set<MazePoint>, m2: set<MazePoint>)
    requires BoardShape(g, b0) && BoardShape(g, b1) && BoardShape(g, b2)
    requires Marked(g, b0, b1, m1) && Marked(g, b1, b2, m2)
    ensures Marked(g, b0, b2, m1 + m2)
  {
  }

  /** `markVisible` on one cell is a walk's mark. */
  lemma MarkedSeen(g: Geometry, b: Board, p: MazePoint)
    requires BoardShape(g, b) && g.InRange(p)
    ensures BoardShape(g, SetAt(b, p, b[p.x][p.y].(visible := true)))
    ensures Seen(g, b, SetAt(b, p, b[p.x][p.y].(visible := true)))
    ensures Marked(g, b, SetAt(b, p, b[p.x][p.y].(visible := true)), {p})
  {
  }

  // ---------------------------------------------------------------------
  // Placing creatures

  /** The cell after `addCreature` appended a new creature of type t. */
  function Put(s: CellState, t: CreatureType): CellState
  {
    s.(creatures := s.creatures + [MakeCreature(t)], modCount := s.modCount + 1)
  }

  /** The board after a creature of type t was put into each cell of `chosen`. */
  ghost predicate Stocked(g: Geometry, b: Board, b': Board, chosen: set<MazePoint>, t: CreatureType)
    requires BoardShape(g, b) && BoardShape(g, b')
  {
    forall r, c :: 0 <= r < g.rows && 0 <= c < g.cols ==>
      b'[r][c] == if MazePoint(r, c) in chosen then Put(b[r][c], t) else b[r][c]
  }

  /** Putting a creature into one more cell that was not chosen before. */
  lemma StockedStep(g: Geometry, b0: Board, b1: Board, chosen: set<MazePoint>, t: CreatureType, p: MazePoint)
    requires BoardShape(g, b0) && BoardShape(g, b1) && g.InRange(p) && p !in chosen
    requires Stocked(g, b0, b1, chosen, t)
    ensures BoardShape(g, SetAt(b1, p, Put(b1[p.x][p.y], t)))
    ensures Stocked(g, b0, SetAt(b1, p, Put(b1[p.x][p.y], t)), chosen + {p}, t)
  {
    assert b1[p.x][p.y] == b0[p.x][p.y];
  }

  /** Stocking keeps every creature already on the board. */
  lemma StockedKeeps(g: Geometry, b: Board, b': Board, chosen: set<MazePoint>, t: CreatureType, r: nat, c: nat, u: CreatureType)
    requires BoardShape(g, b) && BoardShape(g, b') && Stocked(g, b, b', chosen, t)
    requires r < g.rows && c < g.cols && HasType(b[r][c].creatures, u)
    ensures HasType(b'[r][c].creatures, u)
  {
    HasTypeMeans(b[r][c].creatures, u);
    HasTypeMeans(b'[r][c].creatures, u);
    var i :| 0 <= i < |b[r][c].creatures| && b[r][c].creatures[i].kind == u;
    assert b'[r][c].creatures[i] == b[r][c].creatures[i];
  }

  /** An empty board holds no creature anywhere. */
  lemma EmptyHoldsNothing(g: Geometry, b: Board, t: CreatureType)
    requires BoardShape(g, b) && Empty(g, b)
    ensures forall q :: !HoldsAt(b, q, t)
  {
  }

  /** A creature put into a cell is there afterwards. */
  lemma PutHolds(s: CellState, t: CreatureType)
    ensures HasType(Put(s, t).creatures, t)
  {
    HasTypeMeans(Put(s, t).creatures, t);
    assert Put(s, t).creatures[|s.creatures|].kind == t;
  }

  /** Every chosen cell of a stocking holds the creature put there. */
  lemma StockedHolds(g: Geometry, b: Board, b': Board, chosen: set<MazePoint>, t: CreatureType, p: MazePoint)
    requires BoardShape(g, b) && BoardShape(g, b') && Stocked(g, b, b', chosen, t)
    requires g.InRange(p) && p in chosen
    ensures HoldsAt(b', p, t)
  {
    PutHolds(b[p.x][p.y], t);
  }

  /** A rearrangement neither adds nor removes a type of creature anywhere. */
  lemma RearrangedHolds(g: Geometry, b: Board, b': Board, p: MazePoint, t: CreatureType)
    requires BoardShape(g, b) && BoardShape(g, b') && CellsOk(g, b) && Rearranged(g, b, b')
    requires g.InRange(p)
    ensures HoldsAt(b', p, t) == HoldsAt(b, p, t)
  {
    CellRearranged(b[p.x][p.y], b'[p.x][p.y]);
  }

  // ---------------------------------------------------------------------
  // One cell at a time

  /** The board with the cell at p replaced by s. */
  function SetAt(b: Board, p: MazePoint, s: CellState): (r: Board)
    requires 0 <= p.x < |b| && 0 <= p.y < |b[p.x]|
    ensures |r| == |b| && forall i :: 0 <= i < |b| ==> |r[i]| == |b[i]|
  {
    b[p.x := b[p.x][p.y := s]]
  }

  lemma SetAtSame(b: Board, p: MazePoint)
    requires 0 <= p.x < |b| && 0 <= p.y < |b[p.x]|
    ensures SetAt(b, p, b[p.x][p.y]) == b
  {
    assert b[p.x][p.y := b[p.x][p.y]] == b[p.x];
  }

  /** Replacing one cell by one with the same walls keeps the wall grid,
      and keeps the cell invariants when the new cell keeps its own. */
  lemma SetAtKeeps(g: Geometry, b: Board, p: MazePoint, s: CellState)
    requires BoardShape(g, b) && g.InRange(p) && s.walls == b[p.x][p.y].walls
    ensures BoardShape(g, SetAt(b, p, s)) && WallsOf(g, SetAt(b, p, s)) == WallsOf(g, b)
    ensures CellsOk(g, b) && StateOk(s) && WellMade(s.creatures) ==> CellsOk(g, SetAt(b, p, s))
  {
    var w, w' := WallsOf(g, b), WallsOf(g, SetAt(b, p, s));
    forall r | 0 <= r < g.rows
      ensures w'[r] == w[r]
    {
    }
  }

  /** What `performCellActions` does to its cell before running the
      creatures: the cell is marked seen and its list put in run order,
      which the list counts as one structural change. */
  function Prepared(s: CellState): (s': CellState)
    ensures s'.visible && s'.walls == s.walls && s'.creatures == ActionOrder(s.creatures)
    ensures s'.modCount == s.modCount + 1
  {
    s.(visible := true, creatures := ActionOrder(s.creatures), modCount := s.modCount + 1)
  }

  /** Preparing a cell is a rearrangement that keeps every cell invariant
      and every wall. */
  lemma PreparedKeeps(g: Geometry, b: Board, p: MazePoint)
    requires BoardShape(g, b) && g.InRange(p) && CellsOk(g, b)
    ensures BoardShape(g, SetAt(b, p, Prepared(b[p.x][p.y])))
    ensures CellsOk(g, SetAt(b, p, Prepared(b[p.x][p.y])))
    ensures Rearranged(g, b, SetAt(b, p, Prepared(b[p.x][p.y])))
    ensures WallsOf(g, SetAt(b, p, Prepared(b[p.x][p.y]))) == WallsOf(g, b)
  {
    var s := b[p.x][p.y];
    SortKeepsState(s, s.modCount + 1);
    ActionOrderWellMade(s.creatures);
    SetAtKeeps(g, b, p, Prepared(s));
  }

  /** A list of bats alone holds neither the pit nor the wumpus. */
  lemma {:induction false} OnlyBatsHarmless(cs: seq<Creature>)
    requires forall j :: 0 <= j < |cs| ==> cs[j].kind == Bat
    ensures !HasType(cs, Pit) && !HasType(cs, Wumpus)
  {
    HasTypeMeans(cs, Pit);
    HasTypeMeans(cs, Wumpus);
  }

  // ---------------------------------------------------------------------
  // Shooting

  /** What `shootArrow` decides before it charges an arrow: an index
      outside the grid fails as the array access does, a tunnel cannot be
      shot from, a wall in the way forfeits the shot, and otherwise the
      arrow travels `power + 1` rooms (the shooter's own room counts one)
      and hits when it ends in the wumpus's cell.  `Ok(false)` is a miss. */
  function Shot(g: Geometry, b: Board, p: MazePoint, d: Direction, power: int, fuel: nat): Result<bool>
    requires g.NonEmpty() && BoardShape(g, b)
  {
    if !g.InRange(p) then Err(IndexOutOfBounds)
    else
      var ws := WallsOf(g, b);
      if IsTunnelAt(ws, p) then Err(IllegalState)
      else if d in WallsAt(ws, p) then Err(Recoverable)
      else
        match Walk(g, ws, p, d, power + 1, fuel).result
        case Err(f) => Err(f)
        case Ok(None) => Ok(false)
        case Ok(Some(q)) => Ok(HoldsAt(b, q, Wumpus))
  }

  /** A hit means the arrow left through an open side of a room and came
      to rest, after exactly `power + 1` rooms, in a room holding the
      wumpus. */
  lemma ShotHitMeans(g: Geometry, b: Board, p: MazePoint, d: Direction, power: int, fuel: nat)
    requires g.NonEmpty() && BoardShape(g, b)
    ensures Shot(g, b, p, d, power, fuel) == Ok(true) <==>
              && g.InRange(p) && !IsTunnelAt(WallsOf(g, b), p) && d !in WallsAt(WallsOf(g, b), p)
              && var w := Walk(g, WallsOf(g, b), p, d, power + 1, fuel);
                 && w.result.Ok? && w.result.value.Some? && HoldsAt(b, w.result.value.value, Wumpus)
    ensures Shot(g, b, p, d, power, fuel) == Ok(true) ==>
              var w := Walk(g, WallsOf(g, b), p, d, power + 1, fuel);
              && g.InRange(w.result.value.value) && w.rooms == power + 1
              && !IsTunnelAt(WallsOf(g, b), w.result.value.value)
  {
    if Shot(g, b, p, d, power, fuel) == Ok(true) {
      var ws := WallsOf(g, b);
      var w := Walk(g, ws, p, d, power + 1, fuel);
      WalkCountsRooms(g, ws, p, d, power + 1, fuel, w);
      WalkEndsInRoom(g, ws, p, d, power + 1, fuel, w);
    }
  }

  /** An arrow shot with negative power never hits: the shooter's room
      alone already takes the count below zero. */
  lemma NegativePowerMisses(g: Geometry, b: Board, p: MazePoint, d: Direction, power: int, fuel: nat)
    requires g.NonEmpty() && BoardShape(g, b) && power < 0
    ensures Shot(g, b, p, d, power, fuel) != Ok(true)
  {
    if g.InRange(p) && !IsTunnelAt(WallsOf(g, b), p) {
      var ws := WallsOf(g, b);
      var w := Walk(g, ws, p, d, power + 1, fuel);
      WalkNonPositiveFindsNothing(g, ws, p, d, power + 1, fuel, w);
    }
  }

  /** In a consistent maze a shot never fails on the way: it hits, misses
      or runs out of stack. */
  lemma ShotNeverStuck(g: Geometry, b: Board, p: MazePoint, d: Direction, power: int, fuel: nat)
    requires BoardShape(g, b) && Consistent(g, WallsOf(g, b)) && g.InRange(p)
    requires !IsTunnelAt(WallsOf(g, b), p) && d !in WallsAt(WallsOf(g, b), p)
    ensures Shot(g, b, p, d, power, fuel).Err? ==> Shot(g, b, p, d, power, fuel).fault == StackOverflow
  {
    var ws := WallsOf(g, b);
    var w := Walk(g, ws, p, d, power + 1, fuel);
    WalkNeverStuck(g, ws, p, d, power + 1, fuel, w);
  }
}
