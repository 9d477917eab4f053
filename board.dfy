/** A snapshot of every cell of the maze as one value.  The maze's cells are
    objects that its operations change one at a time; a `Board` records what
    they hold at one moment, so that what an operation does to the whole
    grid can be stated, and reasoned about, on values. */
module Boards {
  import opened Faults
  import opened Directions
  import opened Creatures
  import opened Cells
  import opened MazeLayout
  import opened Traversal
  import opened WallGrids

  type Board = seq<seq<CellState>>

  predicate BoardShape(g: Geometry, b: Board)
  {
    |b| == g.rows && forall r :: 0 <= r < |b| ==> |b[r]| == g.cols
  }

  /** The board `initCells` builds. */
  function NewBoard(g: Geometry): (b: Board)
    ensures BoardShape(g, b)
  {
    seq(g.rows, _ => seq(g.cols, _ => FreshCell))
  }

  /** The wall lists of the board, as the walks read them. */
  function WallsOf(g: Geometry, b: Board): (ws: Grid)
    requires BoardShape(g, b)
    ensures GridShape(g, ws)
  {
    seq(g.rows, r requires 0 <= r < g.rows => seq(g.cols, c requires 0 <= c < g.cols => b[r][c].walls))
  }

  /** Every cell keeps the cell invariant and holds creatures built with
      their type's action. */
  ghost predicate CellsOk(g: Geometry, b: Board)
    requires BoardShape(g, b)
  {
    forall r, c :: 0 <= r < g.rows && 0 <= c < g.cols ==> StateOk(b[r][c]) && WellMade(b[r][c].creatures)
  }

  /** No cell holds a creature yet. */
  ghost predicate Empty(g: Geometry, b: Board)
    requires BoardShape(g, b)
  {
    forall r, c :: 0 <= r < g.rows && 0 <= c < g.cols ==> b[r][c].creatures == []
  }

  /** The invariant of the wall-removal phases: the board is well formed,
      empty, and its wall lists agree with the removed wall indices. */
  ghost predicate Generating(g: Geometry, b: Board, removedInternal: set<nat>, removedBorder: set<nat>)
    requires g.NonEmpty()
  {
    BoardShape(g, b) && CellsOk(g, b) && Empty(g, b) && Agrees(g, WallsOf(g, b), removedInternal, removedBorder)
  }

  /** A fresh board is the full grid, and nothing is removed from it. */
  lemma NewBoardGenerating(g: Geometry)
    requires g.NonEmpty()
    ensures WallsOf(g, NewBoard(g)) == FullGrid(g)
    ensures Generating(g, NewBoard(g), {}, {})
  {
    var b, ws, full := NewBoard(g), WallsOf(g, NewBoard(g)), FullGrid(g);
    forall r | 0 <= r < g.rows
      ensures ws[r] == full[r]
    {
    }
    AllDirectionsCard();
    FullGridAgrees(g);
  }

  /** `removeWallInDirection` on the cell of side s: only its wall list
      changes. */
  function ClearAt(b: Board, s: Side): (r: Board)
    requires s.row < |b| && s.col < |b[s.row]|
  {
    var cell := b[s.row][s.col];
    b[s.row := b[s.row][s.col := cell.(walls := RemoveFirst(cell.walls, s.dir))]]
  }

  /** On wall lists, clearing a side is `RemoveSide`. */
  lemma ClearAtWalls(g: Geometry, b: Board, s: Side)
    requires BoardShape(g, b) && SideInRange(g, s)
    ensures BoardShape(g, ClearAt(b, s))
    ensures WallsOf(g, ClearAt(b, s)) == RemoveSide(WallsOf(g, b), s)
  {
    var lhs, rhs := WallsOf(g, ClearAt(b, s)), RemoveSide(WallsOf(g, b), s);
    forall r | 0 <= r < g.rows
      ensures lhs[r] == rhs[r]
    {
    }
  }

  /** Clearing a side of an empty cell keeps it a valid cell. */
  lemma ClearAtOk(g: Geometry, b: Board, s: Side)
    requires BoardShape(g, b) && CellsOk(g, b) && Empty(g, b) && SideInRange(g, s)
    ensures BoardShape(g, ClearAt(b, s)) && CellsOk(g, ClearAt(b, s)) && Empty(g, ClearAt(b, s))
  {
    RemoveFirstNoDup(b[s.row][s.col].walls, s.dir);
  }

  /** `removeWallHelper` on the board: both sides of wall w are cleared. */
  function OpenBoard(g: Geometry, b: Board, w: WallRef): (r: Board)
    requires g.NonEmpty() && BoardShape(g, b) && ValidRef(g, w)
    ensures BoardShape(g, r)
  {
    OwnerOfSides(g, w);
    var s := SpecOf(g, w);
    ClearAt(ClearAt(b, FirstSide(s)), SecondSide(g, s))
  }

  /** On wall lists, opening a wall on the board is `OpenWall`. */
  lemma OpenBoardWalls(g: Geometry, b: Board, w: WallRef)
    requires g.NonEmpty() && BoardShape(g, b) && ValidRef(g, w)
    ensures WallsOf(g, OpenBoard(g, b, w)) == OpenWall(g, WallsOf(g, b), w)
  {
    OwnerOfSides(g, w);
    var s1, s2 := FirstSide(SpecOf(g, w)), SecondSide(g, SpecOf(g, w));
    ClearAtWalls(g, b, s1);
    ClearAtWalls(g, ClearAt(b, s1), s2);
  }

  /** The two steps of `OpenBoard` on a board of the generation phases:
      both sides lie in the grid and belong to empty valid cells, the first
      is listed exactly while the wall stands, and then the second is still
      listed once the first is gone. */
  lemma OpenBoardSteps(g: Geometry, b: Board, ri: set<nat>, rb: set<nat>, w: WallRef)
    requires g.NonEmpty() && ValidRef(g, w) && Generating(g, b, ri, rb)
    ensures var s1, s2 := FirstSide(SpecOf(g, w)), SecondSide(g, SpecOf(g, w));
            && SideInRange(g, s1) && SideInRange(g, s2)
            && StateOk(b[s1.row][s1.col]) && b[s1.row][s1.col].creatures == []
            && StateOk(ClearAt(b, s1)[s2.row][s2.col]) && ClearAt(b, s1)[s2.row][s2.col].creatures == []
            && (s1.dir in b[s1.row][s1.col].walls <==> ClosedIn(Some(w), ri, rb))
            && (ClosedIn(Some(w), ri, rb) ==> s2.dir in ClearAt(b, s1)[s2.row][s2.col].walls)
            && OpenBoard(g, b, w) == ClearAt(ClearAt(b, s1), s2)
  {
    OwnerOfSides(g, w);
    var s1, s2 := FirstSide(SpecOf(g, w)), SecondSide(g, SpecOf(g, w));
    ClearAtOk(g, b, s1);
    OpenWallSteps(g, WallsOf(g, b), ri, rb, w);
    ClearAtWalls(g, b, s1);
    assert ClearAt(b, s1)[s2.row][s2.col].walls == RemoveSide(WallsOf(g, b), s1)[s2.row][s2.col];
  }

  /** Opening a standing wall keeps the generation invariant, with the wall
      added to the removed ones. */
  lemma OpenBoardGenerating(g: Geometry, b: Board, ri: set<nat>, rb: set<nat>, w: WallRef)
    requires g.NonEmpty() && ValidRef(g, w) && Generating(g, b, ri, rb) && ClosedIn(Some(w), ri, rb)
    ensures Generating(g, OpenBoard(g, b, w), AddInternal(ri, w), AddBorder(rb, w))
  {
    OwnerOfSides(g, w);
    var s1, s2 := FirstSide(SpecOf(g, w)), SecondSide(g, SpecOf(g, w));
    ClearAtOk(g, b, s1);
    ClearAtOk(g, ClearAt(b, s1), s2);
    OpenBoardWalls(g, b, w);
    OpenWallAgrees(g, WallsOf(g, b), ri, rb, w);
  }
}
