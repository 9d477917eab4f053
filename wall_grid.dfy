/** The wall lists of all cells as one value, and how removing a wall object
    changes them.  A maze keeps two records of its walls, the wall objects'
    removed flags and every cell's list of remaining directions; `Agrees`
    says they tell the same story, and `OpenWall` is what `removeWallHelper`
    does to the lists. */
module WallGrids {
  import opened Faults
  import opened MazePoints
  import opened Directions
  import opened Cells
  import opened MazeLayout
  import opened Traversal

  /** A side with no wall object (the edge of a non-wrapping maze) is
      always closed; otherwise it is closed while its wall, named by its
      index, is not among the removed ones. */
  predicate ClosedIn(o: Option<WallRef>, removedInternal: set<nat>, removedBorder: set<nat>)
  {
    match o
    case None => true
    case Some(Internal(k)) => k !in removedInternal
    case Some(Border(k)) => k !in removedBorder
  }

  /** The removed-wall index sets after wall `w` is removed too. */
  function AddInternal(ri: set<nat>, w: WallRef): set<nat>
  {
    if w.Internal? then ri + {w.k} else ri
  }

  function AddBorder(rb: set<nat>, w: WallRef): set<nat>
  {
    if w.Border? then rb + {w.k} else rb
  }

  /** No cell lists a direction twice. */
  ghost predicate NoDupGrid(g: Geometry, ws: Grid)
    requires GridShape(g, ws)
  {
    forall r, c :: 0 <= r < g.rows && 0 <= c < g.cols ==> NoDup(ws[r][c])
  }

  /** Each cell lists a side exactly while the wall that owns it stands. */
  ghost predicate Agrees(g: Geometry, ws: Grid, removedInternal: set<nat>, removedBorder: set<nat>)
    requires g.NonEmpty()
  {
    && GridShape(g, ws) && NoDupGrid(g, ws)
    && forall r, c, d :: 0 <= r < g.rows && 0 <= c < g.cols ==>
         (d in ws[r][c] <==> ClosedIn(SideOwner(g, r, c, d), removedInternal, removedBorder))
  }

  /** Every cell with its four walls, as `initCells` leaves the maze. */
  function FullGrid(g: Geometry): (ws: Grid)
    ensures GridShape(g, ws)
  {
    seq(g.rows, _ => seq(g.cols, _ => Values))
  }

  /** With no wall removed, the full grid is the one the walls describe. */
  lemma FullGridAgrees(g: Geometry)
    requires g.NonEmpty()
    ensures Agrees(g, FullGrid(g), {}, {})
  {
    AllDirectionsCard();
    var ws := FullGrid(g);
    forall r, c | 0 <= r < g.rows && 0 <= c < g.cols
      ensures ws[r][c] == Values
    {
    }
  }

  /** `removeWallInDirection` applied to one cell of the grid. */
  function RemoveSide(ws: Grid, s: Side): (r: Grid)
    requires s.row < |ws| && s.col < |ws[s.row]|
  {
    ws[s.row := ws[s.row][s.col := RemoveFirst(ws[s.row][s.col], s.dir)]]
  }

  /** Only the named cell changes, and it loses the named direction. */
  lemma RemoveSideAt(ws: Grid, s: Side)
    requires s.row < |ws| && s.col < |ws[s.row]|
    ensures var r := RemoveSide(ws, s);
            && |r| == |ws| && (forall i :: 0 <= i < |ws| ==> |r[i]| == |ws[i]|)
            && forall i, j :: 0 <= i < |ws| && 0 <= j < |ws[i]| ==>
                 r[i][j] == if i == s.row && j == s.col then RemoveFirst(ws[i][j], s.dir) else ws[i][j]
  {
  }

  /** `removeWallHelper` on the grid: the first side of wall `w`, then the
      second, are removed from the lists of their cells. */
  function OpenWall(g: Geometry, ws: Grid, w: WallRef): (r: Grid)
    requires g.NonEmpty() && GridShape(g, ws) && ValidRef(g, w)
    ensures GridShape(g, r)
  {
    OwnerOfSides(g, w);
    var s := SpecOf(g, w);
    var once := RemoveSide(ws, FirstSide(s));
    RemoveSideAt(ws, FirstSide(s));
    RemoveSideAt(once, SecondSide(g, s));
    RemoveSide(once, SecondSide(g, s))
  }

  /** The two steps of `OpenWall`: both sides lie in the grid; the first
      is listed exactly while the wall stands, and then the second is still
      listed after the first is gone. */
  lemma OpenWallSteps(g: Geometry, ws: Grid, ri: set<nat>, rb: set<nat>, w: WallRef)
    requires g.NonEmpty() && ValidRef(g, w) && Agrees(g, ws, ri, rb)
    ensures var s1, s2 := FirstSide(SpecOf(g, w)), SecondSide(g, SpecOf(g, w));
            && SideInRange(g, s1) && SideInRange(g, s2)
            && (s1.dir in ws[s1.row][s1.col] <==> ClosedIn(Some(w), ri, rb))
            && (ClosedIn(Some(w), ri, rb) ==> s2.dir in RemoveSide(ws, s1)[s2.row][s2.col])
            && OpenWall(g, ws, w) == RemoveSide(RemoveSide(ws, s1), s2)
  {
    OwnerOfSides(g, w);
    var s1, s2 := FirstSide(SpecOf(g, w)), SecondSide(g, SpecOf(g, w));
    RemoveSideAt(ws, s1);
    RemoveFirstKeeps(ws[s2.row][s2.col], s1.dir);
  }

  /** Removing a standing wall from an agreeing grid keeps the two records
      in agreement: exactly the two sides the wall owns open up. */
  lemma OpenWallAgrees(g: Geometry, ws: Grid, ri: set<nat>, rb: set<nat>, w: WallRef)
    requires g.NonEmpty() && ValidRef(g, w) && Agrees(g, ws, ri, rb) && ClosedIn(Some(w), ri, rb)
    ensures Agrees(g, OpenWall(g, ws, w), AddInternal(ri, w), AddBorder(rb, w))
  {
    OwnerOfSides(g, w);
    var s := SpecOf(g, w);
    var s1, s2 := FirstSide(s), SecondSide(g, s);
    var once := RemoveSide(ws, s1);
    RemoveSideAt(ws, s1);
    RemoveSideAt(once, s2);
    var r := OpenWall(g, ws, w);
    var ri', rb' := AddInternal(ri, w), AddBorder(rb, w);
    forall i, j | 0 <= i < g.rows && 0 <= j < g.cols
      ensures NoDup(r[i][j])
      ensures forall d :: d in r[i][j] <==> ClosedIn(SideOwner(g, i, j, d), ri', rb')
    {
      RemoveFirstElems(ws[i][j], s1.dir);
      RemoveFirstElems(once[i][j], s2.dir);
      forall d
        ensures d in r[i][j] <==> ClosedIn(SideOwner(g, i, j, d), ri', rb')
      {
        assert d in r[i][j] <==> d in Elems(r[i][j]);
        assert d in ws[i][j] <==> d in Elems(ws[i][j]);
        assert d in once[i][j] <==> d in Elems(once[i][j]);
        match SideOwner(g, i, j, d)
        case None =>
        case Some(v) =>
          SidesOfOwner(g, i, j, d, v);
          OwnerOfSides(g, v);
      }
    }
  }

  /** An agreeing grid is consistent: every open side leads to a cell of
      the grid whose facing side is open. */
  lemma AgreesConsistent(g: Geometry, ws: Grid, ri: set<nat>, rb: set<nat>)
    requires g.NonEmpty() && Agrees(g, ws, ri, rb)
    ensures Consistent(g, ws)
  {
    forall p, d | g.InRange(p) && IsOpen(ws, p, d)
      ensures Neighbour(g, p, d).Ok? && IsOpen(ws, Neighbour(g, p, d).value, Inverse(d))
    {
      OwnerSymmetric(g, p.x, p.y, d);
    }
  }
}
