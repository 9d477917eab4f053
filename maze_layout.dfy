/** The geometry of a rows x cols maze: where its walls are, which wall
    owns each side of each cell, how a step wraps round the edges, and which
    cells the removed walls connect.  Nothing here touches the heap; the maze
    object reads its cells and walls through these definitions. */
module MazeLayout {
  import opened Faults
  import opened MazePoints
  import opened Directions

  datatype Geometry = Geometry(rows: nat, cols: nat, wrapping: bool)
  {
    predicate NonEmpty()
    {
      rows > 0 && cols > 0
    }

    predicate InRange(p: MazePoint)
    {
      0 <= p.x < rows && 0 <= p.y < cols
    }
  }

  /** Position and orientation of a wall: a vertical wall at (row, col)
      separates the cell from its eastern neighbour, a horizontal one from
      its southern neighbour. */
  datatype WallSpec = WallSpec(row: nat, col: nat, vertical: bool)

  /** A wall of the internal array or of the border array. */
  datatype WallRef = Internal(k: nat) | Border(k: nat)

  /** One side of one cell. */
  datatype Side = Side(row: nat, col: nat, dir: Direction)

  // ---------------------------------------------------------------------
  // Arithmetic helpers

  lemma DivModUnique(k: int, b: int, q: int, r: int)
    requires b > 0 && 0 <= r < b && k == q * b + r
    ensures k / b == q && k % b == r
  {
    var q0, r0 := k / b, k % b;
    assert k == q0 * b + r0;
    if q0 < q {
      assert (q - q0) * b == r0 - r;
      MulAtLeast(q - q0, b);
    } else if q0 > q {
      assert (q0 - q) * b == r - r0;
      MulAtLeast(q0 - q, b);
    }
  }

  lemma MulAtLeast(a: int, b: int)
    requires a >= 1 && b > 0
    ensures a * b >= b
  {
    assert a * b == (a - 1) * b + b;
    MulNonNeg(a - 1, b);
  }

  lemma MulNonNeg(a: int, b: int)
    requires a >= 0 && b >= 0
    ensures a * b >= 0
  {
  }

  lemma MulMono(a: int, b: int, n: int)
    requires 0 <= a <= b && n >= 0
    ensures a * n <= b * n
  {
    assert b * n == a * n + (b - a) * n;
    MulNonNeg(b - a, n);
  }

  lemma MulLess(a: int, b: int, n: int)
    requires 0 <= a < n && b > 0
    ensures a * b + b <= n * b
  {
    assert n * b - a * b - b == (n - a - 1) * b;
    MulNonNeg(n - a - 1, b);
  }

  // ---------------------------------------------------------------------
  // Cells as flat indices (the union-find's numbering)

  function CellCount(g: Geometry): nat
  {
    g.rows * g.cols
  }

  /** `row * totalCol + col`, the index Kruskal's loop gives a cell. */
  function CellIndex(g: Geometry, r: nat, c: nat): nat
  {
    r * g.cols + c
  }

  /** Flat indexing is a bijection between the grid and [0, rows*cols). */
  lemma CellIndexInRange(g: Geometry, r: nat, c: nat)
    requires r < g.rows && c < g.cols
    ensures CellIndex(g, r, c) < CellCount(g)
    ensures CellIndex(g, r, c) / g.cols == r && CellIndex(g, r, c) % g.cols == c
  {
    MulLess(r, g.cols, g.rows);
    DivModUnique(CellIndex(g, r, c), g.cols, r, c);
  }

  lemma CellIndexDecompose(g: Geometry, i: nat)
    requires g.NonEmpty() && i < CellCount(g)
    ensures i / g.cols < g.rows && i % g.cols < g.cols
    ensures CellIndex(g, i / g.cols, i % g.cols) == i
  {
    var r := i / g.cols;
    assert i == r * g.cols + i % g.cols;
    if r >= g.rows {
      MulMono(g.rows, r, g.cols);
      assert false;
    }
  }

  // ---------------------------------------------------------------------
  // The internal walls, in the order `initWallsForMaze` creates them

  /** `minimumWallsToRemove`: (rows-1)*cols horizontal plus (cols-1)*rows
      vertical internal walls. */
  function WallCount(g: Geometry): nat
    requires g.NonEmpty()
  {
    (g.rows - 1) * g.cols + (g.cols - 1) * g.rows
  }

  /** Walls created for one row other than the last: a horizontal and a
      vertical wall per column, except no vertical wall in the last column. */
  function Block(g: Geometry): nat
    requires g.NonEmpty()
  {
    2 * g.cols - 1
  }

  lemma WallCountBlocks(g: Geometry)
    requires g.NonEmpty()
    ensures WallCount(g) == (g.rows - 1) * Block(g) + (g.cols - 1)
  {
    calc {
      (g.rows - 1) * Block(g) + (g.cols - 1);
      (g.rows - 1) * (2 * g.cols - 1) + (g.cols - 1);
      { assert (g.rows - 1) * (2 * g.cols - 1) == (g.rows - 1) * g.cols + (g.rows - 1) * (g.cols - 1); }
      (g.rows - 1) * g.cols + (g.rows - 1) * (g.cols - 1) + (g.cols - 1);
      { assert (g.rows - 1) * (g.cols - 1) + (g.cols - 1) == g.rows * (g.cols - 1); }
      (g.rows - 1) * g.cols + g.rows * (g.cols - 1);
    }
  }

  /** Where the horizontal wall below (r, c) sits in the internal array. */
  function HIndex(g: Geometry, r: nat, c: nat): nat
    requires g.NonEmpty()
  {
    r * Block(g) + 2 * c
  }

  /** Where the vertical wall right of (r, c) sits in the internal array. */
  function VIndex(g: Geometry, r: nat, c: nat): nat
    requires g.NonEmpty()
  {
    if r < g.rows - 1 then r * Block(g) + 2 * c + 1 else (g.rows - 1) * Block(g) + c
  }

  /** The wall the nested loops of `initWallsForMaze` put at index k. */
  function SpecAt(g: Geometry, k: nat): WallSpec
    requires g.NonEmpty()
  {
    var last := (g.rows - 1) * Block(g);
    if k < last then
      var o := k % Block(g);
      WallSpec(k / Block(g), o / 2, o % 2 == 1)
    else
      WallSpec(g.rows - 1, k - last, true)
  }

  /** A horizontal wall below (r, c) exists for every row but the last. */
  lemma HIndexSpec(g: Geometry, r: nat, c: nat)
    requires g.NonEmpty() && r < g.rows - 1 && c < g.cols
    ensures HIndex(g, r, c) < WallCount(g)
    ensures SpecAt(g, HIndex(g, r, c)) == WallSpec(r, c, false)
  {
    var b := Block(g);
    WallCountBlocks(g);
    MulLess(r, b, g.rows - 1);
    DivModUnique(HIndex(g, r, c), b, r, 2 * c);
    DivModUnique(2 * c, 2, c, 0);
  }

  /** A vertical wall right of (r, c) exists for every column but the last. */
  lemma VIndexSpec(g: Geometry, r: nat, c: nat)
    requires g.NonEmpty() && r < g.rows && c < g.cols - 1
    ensures VIndex(g, r, c) < WallCount(g)
    ensures SpecAt(g, VIndex(g, r, c)) == WallSpec(r, c, true)
  {
    var b := Block(g);
    WallCountBlocks(g);
    if r < g.rows - 1 {
      MulLess(r, b, g.rows - 1);
      DivModUnique(VIndex(g, r, c), b, r, 2 * c + 1);
      DivModUnique(2 * c + 1, 2, c, 1);
    }
  }

  /** Every internal wall lies inside the grid and is found again at the
      index its position gives. */
  lemma SpecAtIndex(g: Geometry, k: nat)
    requires g.NonEmpty() && k < WallCount(g)
    ensures var s := SpecAt(g, k);
            && s.row < g.rows && s.col < g.cols
            && (s.vertical ==> s.col < g.cols - 1 && VIndex(g, s.row, s.col) == k)
            && (!s.vertical ==> s.row < g.rows - 1 && HIndex(g, s.row, s.col) == k)
  {
    WallCountBlocks(g);
    if k < (g.rows - 1) * Block(g) {
      var q, c, v := BlockIndex(g, k);
      assert SpecAt(g, k) == WallSpec(q, c, v == 1);
    }
  }

  /** An index before the last row's vertical walls splits into a row, a
      column and an orientation. */
  lemma BlockIndex(g: Geometry, k: nat) returns (q: nat, c: nat, v: nat)
    requires g.NonEmpty() && k < (g.rows - 1) * Block(g)
    ensures q == k / Block(g) && c == (k % Block(g)) / 2 && v == (k % Block(g)) % 2
    ensures q < g.rows - 1 && c < g.cols && v < 2 && (v == 1 ==> c < g.cols - 1)
    ensures k == q * Block(g) + 2 * c + v
  {
    var b := Block(g);
    q := k / b;
    var o := k % b;
    assert k == q * b + o && 0 <= o < b;
    if q >= g.rows - 1 {
      MulMono(g.rows - 1, q, b);
      assert false;
    }
    c, v := o / 2, o % 2;
    assert o == 2 * c + v;
  }

  /** Two internal indices with the same wall are the same index. */
  lemma SpecAtInjective(g: Geometry, k: nat, k': nat)
    requires g.NonEmpty() && k < WallCount(g) && k' < WallCount(g)
    requires SpecAt(g, k) == SpecAt(g, k')
    ensures k == k'
  {
    SpecAtIndex(g, k);
    SpecAtIndex(g, k');
  }

  // ---------------------------------------------------------------------
  // The border walls of a wrapping maze (`initBorderWalls`)

  /** `getBorderWallsCount`. */
  function BorderCount(g: Geometry): nat
  {
    g.rows + g.cols
  }

  /** Vertical walls at the last column for each row, then horizontal walls
      at the last row for each column. */
  function BorderSpec(g: Geometry, k: nat): WallSpec
    requires g.NonEmpty()
  {
    if k < g.rows then WallSpec(k, g.cols - 1, true) else WallSpec(g.rows - 1, k - g.rows, false)
  }

  /** No border wall stands where an internal wall does, and border walls
      are pairwise distinct. */
  lemma BorderSpecDistinct(g: Geometry, k: nat, k': nat, i: nat)
    requires g.NonEmpty() && k < BorderCount(g) && k' < BorderCount(g) && i < WallCount(g)
    ensures BorderSpec(g, k) != SpecAt(g, i)
    ensures BorderSpec(g, k) == BorderSpec(g, k') ==> k == k'
  {
    SpecAtIndex(g, i);
  }

  // ---------------------------------------------------------------------
  // Wrap-aware index arithmetic

  /** `getNextRowIndex`. */
  function NextRow(g: Geometry, r: nat): nat
    requires g.NonEmpty()
  {
    if g.wrapping then (r + 1) % g.rows else r + 1
  }

  /** `getNextColumnIndex`. */
  function NextCol(g: Geometry, c: nat): nat
    requires g.NonEmpty()
  {
    if g.wrapping then (c + 1) % g.cols else c + 1
  }

  lemma NextModLemma(n: nat, a: nat)
    requires n > 0 && a < n
    ensures (a + 1) % n == if a + 1 < n then a + 1 else 0
  {
    if a + 1 < n {
      DivModUnique(a + 1, n, 0, a + 1);
    } else {
      DivModUnique(a + 1, n, 1, 0);
    }
  }

  /** The remainder operator of Java (truncating toward zero). */
  function JavaRem(a: int, b: int): (r: int)
    requires b > 0
  {
    if a >= 0 then a % b else -((-a) % b)
  }

  /** Java's remainder has the sign of the dividend, stays below the
      divisor in magnitude, and agrees with the mathematical remainder. */
  lemma JavaRemFacts(a: int, b: int)
    requires b > 0
    ensures -b < JavaRem(a, b) < b
    ensures a >= 0 ==> JavaRem(a, b) >= 0
    ensures JavaRem(a, b) % b == a % b
  {
    var m := (-a) % b;
    if a < 0 {
      var q := (-a) / b;
      assert -a == q * b + m;
      if m == 0 {
        DivModUnique(a, b, -q, 0);
        DivModUnique(0, b, 0, 0);
      } else {
        DivModUnique(a, b, -q - 1, b - m);
        DivModUnique(-m, b, -1, b - m);
      }
    } else {
      DivModUnique(a % b, b, 0, a % b);
    }
  }

  /** The mathematical remainder of a by n, by repeated addition or
      subtraction of n. */
  function Mod(a: int, n: int): (m: int)
    requires n > 0
    ensures 0 <= m < n
    decreases if a >= 0 then a else n - a
  {
    if 0 <= a < n then a
    else if a >= n then Mod(a - n, n)
    else Mod(a + n, n)
  }

  lemma {:induction false} ModIsRem(a: int, n: int)
    requires n > 0
    ensures Mod(a, n) == a % n
    decreases if a >= 0 then a else n - a
  {
    if 0 <= a < n {
      DivModUnique(a, n, 0, a);
    } else if a >= n {
      ModIsRem(a - n, n);
      RemShift(a - n, n);
    } else {
      ModIsRem(a + n, n);
      RemShift(a, n);
    }
  }

  /** A number and its remainder differ by a multiple of the divisor. */
  lemma {:induction false} ModCongruent(a: int, n: int)
    requires n > 0
    ensures (a - Mod(a, n)) % n == 0
    decreases if a >= 0 then a else n - a
  {
    if 0 <= a < n {
      DivModUnique(0, n, 0, 0);
    } else if a >= n {
      ModCongruent(a - n, n);
      RemShift(a - n - Mod(a - n, n), n);
    } else {
      ModCongruent(a + n, n);
      RemShift(a - Mod(a + n, n), n);
    }
  }

  /** Adding the divisor does not change the remainder. */
  lemma RemShift(a: int, n: int)
    requires n > 0
    ensures (a + n) % n == a % n
  {
    var q, r := a / n, a % n;
    assert a == q * n + r && 0 <= r < n;
    assert (q + 1) * n == q * n + n;
    DivModUnique(a + n, n, q + 1, r);
  }

  /** The point `wrapPoint` returns, as a definition: a non-wrapping maze
      rejects a point outside the grid (column checked first) and returns
      one inside unchanged; a wrapping maze takes both coordinates modulo
      the dimensions. */
  function Wrapped(g: Geometry, p: MazePoint): (r: Result<MazePoint>)
    requires g.NonEmpty()
    ensures r.Ok? ==> g.InRange(r.value)
    ensures r.Err? ==> r.fault == IllegalArgument
  {
    if !g.wrapping then
      if p.y < 0 || p.y >= g.cols then Err(IllegalArgument)
      else if p.x < 0 || p.x >= g.rows then Err(IllegalArgument)
      else Ok(p)
    else
      Ok(MazePoint(Mod(p.x, g.rows), Mod(p.y, g.cols)))
  }

  /** What `wrapPoint` promises: a non-wrapping maze accepts exactly the
      points of the grid and returns them unchanged; a wrapping maze accepts
      every point and returns the grid point congruent to it. */
  lemma WrappedMeaning(g: Geometry, p: MazePoint)
    requires g.NonEmpty()
    ensures !g.wrapping ==> (Wrapped(g, p).Ok? <==> g.InRange(p))
    ensures !g.wrapping && g.InRange(p) ==> Wrapped(g, p) == Ok(p)
    ensures g.wrapping ==> Wrapped(g, p).Ok?
    ensures g.wrapping ==> var q := Wrapped(g, p).value;
                           (p.x - q.x) % g.rows == 0 && (p.y - q.y) % g.cols == 0
    ensures g.InRange(p) ==> Wrapped(g, p) == Ok(p)
  {
    if g.wrapping {
      ModCongruent(p.x, g.rows);
      ModCongruent(p.y, g.cols);
    }
  }

  /** `wrapPoint`: Java's remainder, then a loop that lifts a negative
      coordinate back into range. */
  method WrapPoint(g: Geometry, p: MazePoint) returns (r: Result<MazePoint>)
    requires g.NonEmpty()
    ensures r == Wrapped(g, p)
  {
    if !g.wrapping {
      if p.y < 0 || p.y >= g.cols {
        return Err(IllegalArgument);
      }
      if p.x < 0 || p.x >= g.rows {
        return Err(IllegalArgument);
      }
    } else {
      var rows := g.rows;
      var cols := g.cols;
      var newX := JavaRem(p.x, rows);
      var newY := JavaRem(p.y, cols);
      JavaRemFacts(p.x, rows);
      JavaRemFacts(p.y, cols);
      while newX < 0
        invariant -rows < newX < rows && newX % rows == p.x % rows
        decreases -newX
      {
        JavaRemFacts(newX + rows, rows);
        DivModUnique(newX + rows, rows, newX / rows + 1, newX % rows);
        newX := JavaRem(newX + rows, rows);
      }
      while newY < 0
        invariant -cols < newY < cols && newY % cols == p.y % cols
        decreases -newY
      {
        JavaRemFacts(newY + cols, cols);
        DivModUnique(newY + cols, cols, newY / cols + 1, newY % cols);
        newY := JavaRem(newY + cols, cols);
      }
      DivModUnique(newX, rows, 0, newX);
      DivModUnique(newY, cols, 0, newY);
      ModIsRem(p.x, rows);
      ModIsRem(p.y, cols);
      return Ok(MazePoint(newX, newY));
    }
    return Ok(p);
  }

  /** A coordinate at most one step outside [0, n), brought back in range
      the way a wrapping maze does. */
  function WrapStep(a: int, n: int): int
  {
    if a < 0 then a + n else if a >= n then a - n else a
  }

  /** The cell one step away in direction d from a cell of the grid: the
      step itself when it stays inside, otherwise the cell on the opposite
      edge in a wrapping maze and an IllegalArgumentException in a
      non-wrapping one. */
  function Neighbour(g: Geometry, p: MazePoint, d: Direction): (r: Result<MazePoint>)
    requires g.NonEmpty() && g.InRange(p)
    ensures r.Ok? ==> g.InRange(r.value)
  {
    var m := Movement(d);
    var n := MazePoint(p.x + m.x, p.y + m.y);
    if g.InRange(n) then Ok(n)
    else if !g.wrapping then Err(IllegalArgument)
    else Ok(MazePoint(WrapStep(n.x, g.rows), WrapStep(n.y, g.cols)))
  }

  /** A step from a cell of the grid is what `wrapPoint` makes of the next
      point. */
  lemma NeighbourWraps(g: Geometry, p: MazePoint, d: Direction)
    requires g.NonEmpty() && g.InRange(p)
    ensures Neighbour(g, p, d) == Wrapped(g, NextPoint(d, p))
  {
    var n := NextPoint(d, p);
    if g.wrapping {
      assert Mod(n.x, g.rows) == WrapStep(n.x, g.rows) by {
        if n.x < 0 {
          assert Mod(n.x + g.rows, g.rows) == n.x + g.rows;
        } else if n.x >= g.rows {
          assert Mod(n.x - g.rows, g.rows) == n.x - g.rows;
        }
      }
      assert Mod(n.y, g.cols) == WrapStep(n.y, g.cols) by {
        if n.y < 0 {
          assert Mod(n.y + g.cols, g.cols) == n.y + g.cols;
        } else if n.y >= g.cols {
          assert Mod(n.y - g.cols, g.cols) == n.y - g.cols;
        }
      }
    }
  }

  /** The next-index helpers give the southern and eastern neighbours: they
      wrap exactly where `wrapPoint` does, and a non-wrapping maze has no
      neighbour past its last row or column. */
  lemma NextIndexIsNeighbour(g: Geometry, r: nat, c: nat)
    requires g.NonEmpty() && r < g.rows && c < g.cols
    ensures Neighbour(g, MazePoint(r, c), South) ==
              if g.wrapping || r < g.rows - 1 then Ok(MazePoint(NextRow(g, r), c)) else Err(IllegalArgument)
    ensures Neighbour(g, MazePoint(r, c), East) ==
              if g.wrapping || c < g.cols - 1 then Ok(MazePoint(r, NextCol(g, c))) else Err(IllegalArgument)
  {
    NextModLemma(g.rows, r);
    NextModLemma(g.cols, c);
  }

  // ---------------------------------------------------------------------
  // Which wall owns which side

  /** The wall whose removal opens side d of cell (r, c); None for the
      outer edge of a non-wrapping maze, which no wall object represents
      and which therefore never opens. */
  function SideOwner(g: Geometry, r: nat, c: nat, d: Direction): Option<WallRef>
    requires g.NonEmpty()
  {
    match d
    case East =>
      if c < g.cols - 1 then Some(Internal(VIndex(g, r, c)))
      else if g.wrapping then Some(Border(r)) else None
    case West =>
      if c > 0 then Some(Internal(VIndex(g, r, c - 1)))
      else if g.wrapping then Some(Border(r)) else None
    case South =>
      if r < g.rows - 1 then Some(Internal(HIndex(g, r, c)))
      else if g.wrapping then Some(Border(g.rows + c)) else None
    case North =>
      if r > 0 then Some(Internal(HIndex(g, r - 1, c)))
      else if g.wrapping then Some(Border(g.rows + c)) else None
  }

  /** The walls a maze of this shape has. */
  predicate ValidRef(g: Geometry, w: WallRef)
    requires g.NonEmpty()
  {
    match w
    case Internal(k) => k < WallCount(g)
    case Border(k) => g.wrapping && k < BorderCount(g)
  }

  function SpecOf(g: Geometry, w: WallRef): WallSpec
    requires g.NonEmpty()
  {
    match w
    case Internal(k) => SpecAt(g, k)
    case Border(k) => BorderSpec(g, k)
  }

  /** The two sides `removeWallHelper` clears: EAST of the wall's cell and
      WEST of the next column, or SOUTH of the wall's cell and NORTH of the
      next row. */
  function FirstSide(s: WallSpec): Side
  {
    Side(s.row, s.col, if s.vertical then East else South)
  }

  function SecondSide(g: Geometry, s: WallSpec): Side
    requires g.NonEmpty()
  {
    if s.vertical then Side(s.row, NextCol(g, s.col), West) else Side(NextRow(g, s.row), s.col, North)
  }

  predicate SideInRange(g: Geometry, s: Side)
  {
    s.row < g.rows && s.col < g.cols
  }

  /** Each wall of the maze owns both sides it clears, and they lie in the
      grid. */
  lemma OwnerOfSides(g: Geometry, w: WallRef)
    requires g.NonEmpty() && ValidRef(g, w)
    ensures var s := SpecOf(g, w);
            && SideInRange(g, FirstSide(s)) && SideInRange(g, SecondSide(g, s))
            && SideOwner(g, FirstSide(s).row, FirstSide(s).col, FirstSide(s).dir) == Some(w)
            && SideOwner(g, SecondSide(g, s).row, SecondSide(g, s).col, SecondSide(g, s).dir) == Some(w)
  {
    var s := SpecOf(g, w);
    match w
    case Internal(k) =>
      SpecAtIndex(g, k);
      if s.vertical {
        NextModLemma(g.cols, s.col);
        assert VIndex(g, s.row, s.col + 1 - 1) == k;
      } else {
        NextModLemma(g.rows, s.row);
        assert HIndex(g, s.row + 1 - 1, s.col) == k;
      }
    case Border(k) =>
      NextModLemma(g.cols, g.cols - 1);
      NextModLemma(g.rows, g.rows - 1);
  }

  /** Conversely, a side belongs only to a wall that clears it. */
  lemma SidesOfOwner(g: Geometry, r: nat, c: nat, d: Direction, w: WallRef)
    requires g.NonEmpty() && r < g.rows && c < g.cols
    requires SideOwner(g, r, c, d) == Some(w)
    ensures ValidRef(g, w)
    ensures Side(r, c, d) == FirstSide(SpecOf(g, w)) || Side(r, c, d) == SecondSide(g, SpecOf(g, w))
  {
    match d
    case East =>
      if c < g.cols - 1 {
        VIndexSpec(g, r, c);
      }
    case West =>
      if c > 0 {
        VIndexSpec(g, r, c - 1);
        NextModLemma(g.cols, c - 1);
      } else {
        NextModLemma(g.cols, g.cols - 1);
      }
    case South =>
      if r < g.rows - 1 {
        HIndexSpec(g, r, c);
      }
    case North =>
      if r > 0 {
        HIndexSpec(g, r - 1, c);
        NextModLemma(g.rows, r - 1);
      } else {
        NextModLemma(g.rows, g.rows - 1);
      }
  }

  /** A side and the side facing it across the same step share their wall;
      a side without a wall is the outer edge of a non-wrapping maze, where
      no step lands in the grid. */
  lemma OwnerSymmetric(g: Geometry, r: nat, c: nat, d: Direction)
    requires g.NonEmpty() && r < g.rows && c < g.cols
    ensures SideOwner(g, r, c, d).None? <==> Neighbour(g, MazePoint(r, c), d).Err?
    ensures Neighbour(g, MazePoint(r, c), d).Ok? ==>
              var q := Neighbour(g, MazePoint(r, c), d).value;
              SideOwner(g, q.x, q.y, Inverse(d)) == SideOwner(g, r, c, d)
  {
  }

  // ---------------------------------------------------------------------
  // Connectivity through removed internal walls

  /** The cells Kruskal's loop joins when it removes internal wall k. */
  function Ends(g: Geometry, k: nat): (nat, nat)
    requires g.NonEmpty()
  {
    var s := SpecAt(g, k);
    (CellIndex(g, s.row, s.col),
     if s.vertical then CellIndex(g, s.row, s.col + 1) else CellIndex(g, s.row + 1, s.col))
  }

  lemma EndsInRange(g: Geometry, k: nat)
    requires g.NonEmpty() && k < WallCount(g)
    ensures Ends(g, k).0 < CellCount(g) && Ends(g, k).1 < CellCount(g)
  {
    SpecAtIndex(g, k);
    var s := SpecAt(g, k);
    CellIndexInRange(g, s.row, s.col);
    if s.vertical {
      CellIndexInRange(g, s.row, s.col + 1);
    } else {
      CellIndexInRange(g, s.row + 1, s.col);
    }
  }

  ghost predicate Linked(g: Geometry, e: set<nat>, a: nat, b: nat)
    requires g.NonEmpty()
  {
    exists k :: k in e && k < WallCount(g) && (Ends(g, k) == (a, b) || Ends(g, k) == (b, a))
  }

  ghost predicate IsPath(g: Geometry, e: set<nat>, p: seq<nat>)
    requires g.NonEmpty()
  {
    |p| > 0 && forall i :: 0 <= i < |p| - 1 ==> Linked(g, e, p[i], p[i + 1])
  }

  /** Cells x and y are joined by a chain of removed walls from e. */
  ghost predicate Connected(g: Geometry, e: set<nat>, x: nat, y: nat)
    requires g.NonEmpty()
  {
    exists p :: IsPath(g, e, p) && p[0] == x && p[|p| - 1] == y
  }

  lemma ConnectedRefl(g: Geometry, e: set<nat>, x: nat)
    requires g.NonEmpty()
    ensures Connected(g, e, x, x)
  {
    assert IsPath(g, e, [x]);
  }

  lemma ConnectedEdge(g: Geometry, e: set<nat>, k: nat)
    requires g.NonEmpty() && k in e && k < WallCount(g)
    ensures Connected(g, e, Ends(g, k).0, Ends(g, k).1)
  {
    var p := [Ends(g, k).0, Ends(g, k).1];
    assert Linked(g, e, p[0], p[1]);
    assert IsPath(g, e, p);
  }

  lemma ConnectedSymmetric(g: Geometry, e: set<nat>, x: nat, y: nat)
    requires g.NonEmpty() && Connected(g, e, x, y)
    ensures Connected(g, e, y, x)
  {
    var p :| IsPath(g, e, p) && p[0] == x && p[|p| - 1] == y;
    var n := |p|;
    var q := seq(n, i requires 0 <= i < n => p[n - 1 - i]);
    forall i | 0 <= i < n - 1
      ensures Linked(g, e, q[i], q[i + 1])
    {
      assert q[i] == p[n - 1 - i] && q[i + 1] == p[n - 2 - i];
      assert Linked(g, e, p[n - 2 - i], p[n - 1 - i]);
    }
    assert IsPath(g, e, q);
  }

  lemma ConnectedTransitive(g: Geometry, e: set<nat>, x: nat, y: nat, z: nat)
    requires g.NonEmpty() && Connected(g, e, x, y) && Connected(g, e, y, z)
    ensures Connected(g, e, x, z)
  {
    var p :| IsPath(g, e, p) && p[0] == x && p[|p| - 1] == y;
    var q :| IsPath(g, e, q) && q[0] == y && q[|q| - 1] == z;
    var t := p + q[1..];
    forall i | 0 <= i < |t| - 1
      ensures Linked(g, e, t[i], t[i + 1])
    {
      if i < |p| - 1 {
        assert t[i] == p[i] && t[i + 1] == p[i + 1];
      } else {
        var j := i - (|p| - 1);
        assert t[i] == q[j] && t[i + 1] == q[j + 1];
      }
    }
    assert IsPath(g, e, t);
  }

  lemma ConnectedMono(g: Geometry, e: set<nat>, e': set<nat>, x: nat, y: nat)
    requires g.NonEmpty() && e <= e' && Connected(g, e, x, y)
    ensures Connected(g, e', x, y)
  {
    var p :| IsPath(g, e, p) && p[0] == x && p[|p| - 1] == y;
    forall i | 0 <= i < |p| - 1
      ensures Linked(g, e', p[i], p[i + 1])
    {
      assert Linked(g, e, p[i], p[i + 1]);
    }
    assert IsPath(g, e', p);
  }

  /** Removing wall k, whose two ends u and v (in either order) lie in the
      sets of representatives a and b, connects every member of a's set to b. */
  lemma ConnectedThroughWall(g: Geometry, e: set<nat>, k: nat, u: nat, v: nat, x: nat, a: nat, b: nat)
    requires g.NonEmpty() && k < WallCount(g)
    requires Ends(g, k) == (u, v) || Ends(g, k) == (v, u)
    requires Connected(g, e, x, a) && Connected(g, e, u, a) && Connected(g, e, v, b)
    ensures Connected(g, e + {k}, x, b)
  {
    var e' := e + {k};
    ConnectedMono(g, e, e', x, a);
    ConnectedMono(g, e, e', u, a);
    ConnectedMono(g, e, e', v, b);
    ConnectedSymmetric(g, e', u, a);
    ConnectedEdge(g, e', k);
    if Ends(g, k) == (v, u) {
      ConnectedSymmetric(g, e', v, u);
    }
    ConnectedTransitive(g, e', x, a, u);
    ConnectedTransitive(g, e', x, u, v);
    ConnectedTransitive(g, e', x, v, b);
  }

  // ---------------------------------------------------------------------
  // Why Kruskal's loop always finds a wall to remove

  /** If every internal wall has both ends tagged alike, the whole grid
      carries one tag: each cell is reached from its western neighbour,
      or, in the first column, from the cell above. */
  lemma {:induction false} AllWallsJoinedRow(g: Geometry, tag: seq<nat>, r: nat, c: nat)
    requires g.NonEmpty() && |tag| == CellCount(g) && r < g.rows && c < g.cols
    requires forall k :: 0 <= k < WallCount(g) ==>
                           Ends(g, k).0 < |tag| && Ends(g, k).1 < |tag| && tag[Ends(g, k).0] == tag[Ends(g, k).1]
    ensures CellIndex(g, r, c) < |tag| && tag[CellIndex(g, r, c)] == tag[0]
    decreases r, c
  {
    CellIndexInRange(g, r, c);
    if c > 0 {
      AllWallsJoinedRow(g, tag, r, c - 1);
      VIndexSpec(g, r, c - 1);
      var k := VIndex(g, r, c - 1);
      assert Ends(g, k) == (CellIndex(g, r, c - 1), CellIndex(g, r, c - 1 + 1));
    } else if r > 0 {
      AllWallsJoinedRow(g, tag, r - 1, 0);
      HIndexSpec(g, r - 1, 0);
      var k := HIndex(g, r - 1, 0);
      assert Ends(g, k) == (CellIndex(g, r - 1, 0), CellIndex(g, r - 1 + 1, 0));
    }
  }

  lemma AllWallsJoined(g: Geometry, tag: seq<nat>)
    requires g.NonEmpty() && |tag| == CellCount(g)
    requires forall k :: 0 <= k < WallCount(g) ==>
                           Ends(g, k).0 < |tag| && Ends(g, k).1 < |tag| && tag[Ends(g, k).0] == tag[Ends(g, k).1]
    ensures forall x :: 0 <= x < |tag| ==> tag[x] == tag[0]
  {
    forall x | 0 <= x < |tag|
      ensures tag[x] == tag[0]
    {
      CellIndexDecompose(g, x);
      AllWallsJoinedRow(g, tag, x / g.cols, x % g.cols);
    }
  }
}
