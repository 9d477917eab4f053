/** The two recursive walks of the maze, as definitions over a snapshot of
    every cell's remaining walls: the arrow/movement walk of
    `getCellAtDistance` and the hazard sensing of `cellTraverseHelper`.
    Each recursive call spends one unit of `fuel`, the call-stack depth the
    JVM allows; running out is a StackOverflowError. */
module Traversal {
  import opened Faults
  import opened MazePoints
  import opened Directions
  import opened Cells
  import opened MazeLayout

  /** The walls of every cell, indexed by row and column. */
  type Grid = seq<seq<seq<Direction>>>

  predicate GridShape(g: Geometry, ws: Grid)
  {
    |ws| == g.rows && forall r :: 0 <= r < |ws| ==> |ws[r]| == g.cols
  }

  function WallsAt(ws: Grid, p: MazePoint): seq<Direction>
  {
    if 0 <= p.x < |ws| && 0 <= p.y < |ws[p.x]| then ws[p.x][p.y] else []
  }

  /** `isTunnel`: exactly two walls left. */
  predicate IsTunnelAt(ws: Grid, p: MazePoint)
  {
    |WallsAt(ws, p)| == 2
  }

  predicate IsOpen(ws: Grid, p: MazePoint, d: Direction)
  {
    0 <= p.x < |ws| && 0 <= p.y < |ws[p.x]| && d !in ws[p.x][p.y]
  }

  /** What the wall bookkeeping of a generated maze guarantees: no cell
      lists a wall twice, and every open side leads to a cell of the grid
      whose facing side is open too. */
  ghost predicate Consistent(g: Geometry, ws: Grid)
  {
    && g.NonEmpty() && GridShape(g, ws)
    && (forall r, c :: 0 <= r < g.rows && 0 <= c < g.cols ==> NoDup(ws[r][c]))
    && (forall p, d {:trigger Neighbour(g, p, d)} :: g.InRange(p) && IsOpen(ws, p, d) ==>
          Neighbour(g, p, d).Ok? && IsOpen(ws, Neighbour(g, p, d).value, Inverse(d)))
  }

  /** The directions of `ds`, in order, that `here` leaves open and that
      are not `back`: the stream filters of `getCellAtDistance` and
      `cellTraverseHelper`, applied to `Direction.values()`. */
  function Exits(here: seq<Direction>, back: Option<Direction>, ds: seq<Direction>): (r: seq<Direction>)
  {
    if ds == [] then []
    else (if ds[0] in here || back == Some(ds[0]) then [] else [ds[0]]) + Exits(here, back, ds[1..])
  }

  /** The exits are the directions of `ds` that are open and not `back`. */
  lemma {:induction false} ExitsMembers(here: seq<Direction>, back: Option<Direction>, ds: seq<Direction>)
    ensures forall e :: e in Exits(here, back, ds) <==> e in ds && e !in here && back != Some(e)
  {
    if ds != [] {
      ExitsMembers(here, back, ds[1..]);
      assert forall e :: e in ds <==> e == ds[0] || e in ds[1..];
    }
  }

  /** A direction counts one exit when it is open and not `back`. */
  function ExitIndicator(here: seq<Direction>, back: Option<Direction>, e: Direction): nat
  {
    if e in here || back == Some(e) then 0 else 1
  }

  lemma ExitsTotal(here: seq<Direction>, back: Option<Direction>)
    ensures |Exits(here, back, Values)| == ExitIndicator(here, back, North) + ExitIndicator(here, back, East)
                                           + ExitIndicator(here, back, South) + ExitIndicator(here, back, West)
  {
    assert Values[1..][1..][1..][1..] == [];
    assert |Exits(here, back, Values[1..][1..][1..])| == ExitIndicator(here, back, West);
    assert |Exits(here, back, Values[1..][1..])| == ExitIndicator(here, back, South) + |Exits(here, back, Values[1..][1..][1..])|;
    assert |Exits(here, back, Values[1..])| == ExitIndicator(here, back, East) + |Exits(here, back, Values[1..][1..])|;
  }

  function Is(e: Direction, a: Direction): nat
  {
    if e == a then 1 else 0
  }

  /** Each direction is exactly one of the four. */
  lemma IsOneOfFour(a: Direction)
    ensures Is(North, a) + Is(East, a) + Is(South, a) + Is(West, a) == 1
  {
  }

  /** The outcome of a walk and the number of rooms it entered. */
  datatype Walked = Walked(result: Result<Option<MazePoint>>, rooms: nat)

  /** What `getCellAtDistance` decides in one cell, before recursing: stop
      here, stop without a cell (closed room), fail in a tunnel, or go on in
      direction `dir` with `left` rooms still to count. */
  datatype Step = Found | Closed | Stuck | Move(dir: Direction, left: int)

  /** One for a room, nothing for a tunnel: what a cell counts towards the
      distance. */
  function RoomWeight(ws: Grid, p: MazePoint): (n: nat)
    ensures n <= 1
  {
    if IsTunnelAt(ws, p) then 0 else 1
  }

  /** A room counts one towards the distance and is the answer when the count
      reaches zero; a room closed in the travel direction gives no cell
      (null); a tunnel is left through its one opening other than the way
      back, and any other number of such openings is an
      IllegalStateException. */
  function StepAt(ws: Grid, p: MazePoint, d: Direction, distance: int): Step
  {
    var here := WallsAt(ws, p);
    var tunnel := |here| == 2;
    var left := if tunnel then distance else distance - 1;
    if left == 0 then Found
    else if !tunnel then
      if d in here then Closed else Move(d, left)
    else
      var next := Exits(here, Some(Inverse(d)), Values);
      if |next| != 1 then Stuck else Move(next[0], left)
  }

  /** One step leaves through an open side, having counted the cell it
      leaves, and keeps the direction of travel in a room; the walk stops
      in a cell exactly when counting it makes the distance. */
  lemma StepFacts(ws: Grid, p: MazePoint, d: Direction, distance: int)
    ensures StepAt(ws, p, d, distance).Move? ==>
              var s := StepAt(ws, p, d, distance);
              s.dir !in WallsAt(ws, p) && s.left != 0 && s.left == distance - RoomWeight(ws, p)
              && (!IsTunnelAt(ws, p) ==> s.dir == d)
    ensures StepAt(ws, p, d, distance).Found? <==> distance == RoomWeight(ws, p)
  {
    var s := StepAt(ws, p, d, distance);
    if s.Move? && IsTunnelAt(ws, p) {
      ExitsMembers(WallsAt(ws, p), Some(Inverse(d)), Values);
      assert s.dir in Exits(WallsAt(ws, p), Some(Inverse(d)), Values);
    }
  }

  /** `getCellAtDistance`, one step after another: the next point is
      wrapped first, then the recursive call spends one unit of fuel. */
  function Walk(g: Geometry, ws: Grid, p: MazePoint, d: Direction, distance: int, fuel: nat): Walked
    requires g.NonEmpty() && GridShape(g, ws) && g.InRange(p)
    decreases fuel
  {
    var here := RoomWeight(ws, p);
    match StepAt(ws, p, d, distance)
    case Found => Walked(Ok(Some(p)), here)
    case Closed => Walked(Ok(None), here)
    case Stuck => Walked(Err(IllegalState), here)
    case Move(e, left) =>
      match Neighbour(g, p, e)
      case Err(f) => Walked(Err(f), here)
      case Ok(q) =>
        if fuel == 0 then Walked(Err(StackOverflow), here)
        else
          var rest := Walk(g, ws, q, e, left, fuel - 1);
          Walked(rest.result, here + rest.rooms)
  }

  /** The cells `getCellAtDistance` enters, each marked seen when asked:
      the cell it starts in and, when it moves on to a neighbour with stack
      to spare, the cells of the rest of the walk. */
  ghost function Passed(g: Geometry, ws: Grid, p: MazePoint, d: Direction, distance: int, fuel: nat): (r: set<MazePoint>)
    requires g.NonEmpty() && GridShape(g, ws) && g.InRange(p)
    ensures p in r && forall q :: q in r ==> g.InRange(q)
    decreases fuel
  {
    var rest :=
      match StepAt(ws, p, d, distance)
      case Move(e, left) =>
        (match Neighbour(g, p, e)
         case Ok(q) => if fuel == 0 then {} else Passed(g, ws, q, e, left, fuel - 1)
         case Err(_) => {})
      case _ => {};
    {p} + rest
  }

  /** `Passed` one step at a time: the cell itself, then the rest of the
      walk when it moves on to a neighbour with stack to spare. */
  lemma PassedStep(g: Geometry, ws: Grid, p: MazePoint, d: Direction, distance: int, fuel: nat)
    requires g.NonEmpty() && GridShape(g, ws) && g.InRange(p)
    ensures var s := StepAt(ws, p, d, distance);
            Passed(g, ws, p, d, distance, fuel) ==
              if s.Move? && Neighbour(g, p, s.dir).Ok? && fuel > 0
              then {p} + Passed(g, ws, Neighbour(g, p, s.dir).value, s.dir, s.left, fuel - 1)
              else {p}
  {
  }

  /** The cell a walk returns is one it entered. */
  lemma {:induction false} PassedHoldsEnd(g: Geometry, ws: Grid, p: MazePoint, d: Direction, distance: int, fuel: nat)
    requires g.NonEmpty() && GridShape(g, ws) && g.InRange(p)
    ensures var w := Walk(g, ws, p, d, distance, fuel).result;
            w.Ok? && w.value.Some? ==> w.value.value in Passed(g, ws, p, d, distance, fuel)
    decreases fuel
  {
    var s := StepAt(ws, p, d, distance);
    if s.Move? && fuel > 0 {
      var q := Neighbour(g, p, s.dir);
      if q.Ok? {
        PassedHoldsEnd(g, ws, q.value, s.dir, s.left, fuel - 1);
      }
    }
  }

  /** `Walk` one step at a time, as the recursive method takes it. */
  lemma WalkStep(g: Geometry, ws: Grid, p: MazePoint, d: Direction, distance: int, fuel: nat)
    requires g.NonEmpty() && GridShape(g, ws) && g.InRange(p)
    ensures var s := StepAt(ws, p, d, distance);
            var w := Walk(g, ws, p, d, distance, fuel).result;
            && (s == Found ==> w == Ok(Some(p)))
            && (s == Closed ==> w == Ok(None))
            && (s == Stuck ==> w == Err(IllegalState))
            && (s.Move? && Neighbour(g, p, s.dir).Err? ==> w == Err(Neighbour(g, p, s.dir).fault))
            && (s.Move? && Neighbour(g, p, s.dir).Ok? && fuel == 0 ==> w == Err(StackOverflow))
            && (s.Move? && Neighbour(g, p, s.dir).Ok? && fuel > 0 ==>
                  w == Walk(g, ws, Neighbour(g, p, s.dir).value, s.dir, s.left, fuel - 1).result)
  {
  }

  /** A walk that finds a cell finds one of the grid, having entered
      exactly `distance` rooms. */
  lemma {:induction false} WalkCountsRooms(g: Geometry, ws: Grid, p: MazePoint, d: Direction, distance: int, fuel: nat, w: Walked)
    requires g.NonEmpty() && GridShape(g, ws) && g.InRange(p)
    requires w == Walk(g, ws, p, d, distance, fuel)
    ensures w.result.Ok? && w.result.value.Some? ==> g.InRange(w.result.value.value) && w.rooms == distance
    decreases fuel
  {
    StepFacts(ws, p, d, distance);
    match StepAt(ws, p, d, distance)
    case Found => assert w == Walked(Ok(Some(p)), RoomWeight(ws, p));
    case Closed => assert w.result == Ok(None);
    case Stuck => assert w.result.Err?;
    case Move(e, left) =>
      match Neighbour(g, p, e)
      case Err(_) => assert w.result.Err?;
      case Ok(q) =>
        if fuel > 0 {
          var rest := Walk(g, ws, q, e, left, fuel - 1);
          WalkCountsRooms(g, ws, q, e, left, fuel - 1, rest);
          assert w == Walked(rest.result, RoomWeight(ws, p) + rest.rooms);
        } else {
          assert w.result.Err?;
        }
  }

  /** Starting at distance one or more, the cell found is a room: tunnels
      never end a walk. */
  lemma {:induction false} WalkEndsInRoom(g: Geometry, ws: Grid, p: MazePoint, d: Direction, distance: int, fuel: nat, w: Walked)
    requires g.NonEmpty() && GridShape(g, ws) && g.InRange(p) && distance >= 1
    requires w == Walk(g, ws, p, d, distance, fuel)
    ensures w.result.Ok? && w.result.value.Some? ==> !IsTunnelAt(ws, w.result.value.value)
    decreases fuel
  {
    StepFacts(ws, p, d, distance);
    match StepAt(ws, p, d, distance)
    case Found => assert w.result == Ok(Some(p));
    case Closed => assert w.result == Ok(None);
    case Stuck => assert w.result.Err?;
    case Move(e, left) =>
      match Neighbour(g, p, e)
      case Err(_) => assert w.result.Err?;
      case Ok(q) =>
        if fuel > 0 {
          var rest := Walk(g, ws, q, e, left, fuel - 1);
          WalkEndsInRoom(g, ws, q, e, left, fuel - 1, rest);
          assert w.result == rest.result;
        } else {
          assert w.result.Err?;
        }
  }

  /** With a distance that is negative, or zero from a room, the count never
      reaches zero: no cell is ever found (an arrow shot with negative
      power never hits). */
  lemma {:induction false} WalkNonPositiveFindsNothing(g: Geometry, ws: Grid, p: MazePoint, d: Direction, distance: int, fuel: nat, w: Walked)
    requires g.NonEmpty() && GridShape(g, ws) && g.InRange(p)
    requires distance < RoomWeight(ws, p)
    requires w == Walk(g, ws, p, d, distance, fuel)
    ensures !(w.result.Ok? && w.result.value.Some?)
    decreases fuel
  {
    StepFacts(ws, p, d, distance);
    match StepAt(ws, p, d, distance)
    case Found =>
    case Closed => assert w.result == Ok(None);
    case Stuck => assert w.result.Err?;
    case Move(e, left) =>
      match Neighbour(g, p, e)
      case Err(_) => assert w.result.Err?;
      case Ok(q) =>
        if fuel > 0 {
          var rest := Walk(g, ws, q, e, left, fuel - 1);
          WalkNonPositiveFindsNothing(g, ws, q, e, left, fuel - 1, rest);
          assert w.result == rest.result;
        } else {
          assert w.result.Err?;
        }
  }

  /** A tunnel entered through an open side has exactly one other way out. */
  lemma TunnelNeverStuck(ws: Grid, p: MazePoint, d: Direction, distance: int)
    requires NoDup(WallsAt(ws, p)) && IsTunnelAt(ws, p) && Inverse(d) !in WallsAt(ws, p)
    ensures !StepAt(ws, p, d, distance).Stuck?
  {
    var here := WallsAt(ws, p);
    var a, b, x := here[0], here[1], Inverse(d);
    ExitsTotal(here, Some(x));
    forall e
      ensures ExitIndicator(here, Some(x), e) == 1 - Is(e, a) - Is(e, b) - Is(e, x)
    {
      assert e in here <==> e == a || e == b;
    }
    IsOneOfFour(a);
    IsOneOfFour(b);
    IsOneOfFour(x);
  }

  /** A walk with one room left never meets a closed room: the first room
      it enters is where it ends. */
  lemma {:induction false} LastRoomNeverClosed(g: Geometry, ws: Grid, p: MazePoint, d: Direction, fuel: nat)
    requires g.NonEmpty() && GridShape(g, ws) && g.InRange(p)
    ensures Walk(g, ws, p, d, 1, fuel).result != Ok(None)
    decreases fuel
  {
    StepFacts(ws, p, d, 1);
    var s := StepAt(ws, p, d, 1);
    if s.Move? && fuel > 0 {
      var q := Neighbour(g, p, s.dir);
      if q.Ok? {
        LastRoomNeverClosed(g, ws, q.value, s.dir, fuel - 1);
      }
    }
  }

  /** A walk fails only as `getCellAtDistance` can: leaving a
      non-wrapping grid (IllegalArgumentException), a tunnel without a
      single way on (IllegalStateException), or running out of stack. */
  lemma {:induction false} WalkFaults(g: Geometry, ws: Grid, p: MazePoint, d: Direction, distance: int, fuel: nat, w: Walked)
    requires g.NonEmpty() && GridShape(g, ws) && g.InRange(p)
    requires w == Walk(g, ws, p, d, distance, fuel)
    ensures w.result.Err? ==> w.result.fault in {IllegalArgument, IllegalState, StackOverflow}
    decreases fuel
  {
    var s := StepAt(ws, p, d, distance);
    if s.Move? && fuel > 0 {
      var q := Neighbour(g, p, s.dir);
      if q.Ok? {
        var rest := Walk(g, ws, q.value, s.dir, s.left, fuel - 1);
        WalkFaults(g, ws, q.value, s.dir, s.left, fuel - 1, rest);
        assert w.result == rest.result;
      }
    }
  }

  /** Where `movePlayerInDirection` takes a player: the end of a walk of
      two rooms, the player's own room counting one.  A cell found is a
      room of the grid. */
  function Destination(g: Geometry, ws: Grid, p: MazePoint, d: Direction, fuel: nat): (r: Result<Option<MazePoint>>)
    requires g.NonEmpty() && GridShape(g, ws) && g.InRange(p)
    ensures r.Ok? && r.value.Some? ==> g.InRange(r.value.value) && !IsTunnelAt(ws, r.value.value)
    ensures r.Err? ==> r.fault in {IllegalArgument, IllegalState, StackOverflow}
  {
    var w := Walk(g, ws, p, d, 2, fuel);
    WalkFaults(g, ws, p, d, 2, fuel, w);
    WalkCountsRooms(g, ws, p, d, 2, fuel, w);
    WalkEndsInRoom(g, ws, p, d, 2, fuel, w);
    w.result
  }

  /** `movePlayerInDirection` from a room finds no cell exactly when the
      room is closed in the direction of the move. */
  lemma MoveRefusedMeans(g: Geometry, ws: Grid, p: MazePoint, d: Direction, fuel: nat)
    requires g.NonEmpty() && GridShape(g, ws) && g.InRange(p) && !IsTunnelAt(ws, p)
    ensures Destination(g, ws, p, d, fuel) == Ok(None) <==> d in WallsAt(ws, p)
  {
    var q := Neighbour(g, p, d);
    if d !in WallsAt(ws, p) && q.Ok? && fuel > 0 {
      LastRoomNeverClosed(g, ws, q.value, d, fuel - 1);
    }
  }

  /** In a consistent maze a walk that starts in a room, or enters a cell
      through an open side, never gets stuck in a tunnel and never leaves
      the grid: the only way it can fail is by exhausting the stack. */
  lemma {:induction false} WalkNeverStuck(g: Geometry, ws: Grid, p: MazePoint, d: Direction, distance: int, fuel: nat, w: Walked)
    requires Consistent(g, ws) && g.InRange(p)
    requires !IsTunnelAt(ws, p) || IsOpen(ws, p, Inverse(d))
    requires w == Walk(g, ws, p, d, distance, fuel)
    ensures w.result.Err? ==> w.result.fault == StackOverflow
    decreases fuel
  {
    var s := StepAt(ws, p, d, distance);
    StepFacts(ws, p, d, distance);
    if IsTunnelAt(ws, p) {
      assert NoDup(ws[p.x][p.y]);
      TunnelNeverStuck(ws, p, d, distance);
    }
    if s.Move? {
      assert IsOpen(ws, p, s.dir);
      if fuel > 0 {
        var q := Neighbour(g, p, s.dir).value;
        InverseInvolution(s.dir);
        var rest := Walk(g, ws, q, s.dir, s.left, fuel - 1);
        WalkNeverStuck(g, ws, q, s.dir, s.left, fuel - 1, rest);
        assert w.result == rest.result;
      }
    }
  }

  // ---------------------------------------------------------------------
  // Sensing hazards

  function HasAt(has: seq<seq<bool>>, p: MazePoint): bool
  {
    0 <= p.x < |has| && 0 <= p.y < |has[p.x]| && has[p.x][p.y]
  }

  /** `cellTraverseHelper`: after wrapping the point, a tunnel reached with
      no direction to exclude is an IllegalArgumentException; a room reached
      through a side answers whether it holds the creature; otherwise every
      open direction except the excluded one is explored, with its inverse
      excluded, and the first positive answer wins.  `has` says which cells
      hold the creature sought. */
  function Sense(g: Geometry, ws: Grid, has: seq<seq<bool>>, p: MazePoint, exclude: Option<Direction>, fuel: nat): Result<bool>
    requires g.NonEmpty() && GridShape(g, ws)
    decreases fuel, 1, 0
  {
    match Wrapped(g, p)
    case Err(e) => Err(e)
    case Ok(q) =>
      var here := ws[q.x][q.y];
      var tunnel := |here| == 2;
      if tunnel && exclude.None? then Err(IllegalArgument)
      else if !tunnel && exclude.Some? then Ok(HasAt(has, q))
      else SenseEach(g, ws, has, q, Exits(here, None, Values), exclude, fuel)
  }

  /** The loop of `cellTraverseHelper` over the directions `dirs`; a step
      `wrapPoint` refuses is reported as an IllegalStateException. */
  function SenseEach(g: Geometry, ws: Grid, has: seq<seq<bool>>, q: MazePoint, dirs: seq<Direction>,
                     exclude: Option<Direction>, fuel: nat): Result<bool>
    requires g.NonEmpty() && GridShape(g, ws) && g.InRange(q)
    decreases fuel, 0, |dirs|
  {
    if dirs == [] then Ok(false)
    else if exclude == Some(dirs[0]) then SenseEach(g, ws, has, q, dirs[1..], exclude, fuel)
    else match Neighbour(g, q, dirs[0])
      case Err(_) => Err(IllegalState)
      case Ok(n) =>
        if fuel == 0 then Err(StackOverflow)
        else match Sense(g, ws, has, n, Some(Inverse(dirs[0])), fuel - 1)
          case Err(e) => Err(e)
          case Ok(found) =>
            if found then Ok(true) else SenseEach(g, ws, has, q, dirs[1..], exclude, fuel)
  }

  /** A positive answer is never invented, in any grid and from any start:
      some room, a cell that is not a tunnel, holds the creature. */
  lemma {:induction false} SenseSound(g: Geometry, ws: Grid, has: seq<seq<bool>>, p: MazePoint, exclude: Option<Direction>, fuel: nat)
    requires g.NonEmpty() && GridShape(g, ws)
    ensures Sense(g, ws, has, p, exclude, fuel) == Ok(true) ==> exists q :: g.InRange(q) && !IsTunnelAt(ws, q) && HasAt(has, q)
    decreases fuel, 1, 0
  {
    var w := Wrapped(g, p);
    if w.Ok? {
      var q := w.value;
      var here := ws[q.x][q.y];
      assert WallsAt(ws, q) == here;
      SenseEachSound(g, ws, has, q, Exits(here, None, Values), exclude, fuel);
    }
  }

  lemma {:induction false} SenseEachSound(g: Geometry, ws: Grid, has: seq<seq<bool>>, q: MazePoint, dirs: seq<Direction>,
                                          exclude: Option<Direction>, fuel: nat)
    requires g.NonEmpty() && GridShape(g, ws) && g.InRange(q)
    ensures SenseEach(g, ws, has, q, dirs, exclude, fuel) == Ok(true) ==>
              exists q' :: g.InRange(q') && !IsTunnelAt(ws, q') && HasAt(has, q')
    decreases fuel, 0, |dirs|
  {
    if dirs != [] {
      if exclude == Some(dirs[0]) {
        SenseEachSound(g, ws, has, q, dirs[1..], exclude, fuel);
      } else if Neighbour(g, q, dirs[0]).Ok? && fuel > 0 {
        var n := Neighbour(g, q, dirs[0]).value;
        SenseSound(g, ws, has, n, Some(Inverse(dirs[0])), fuel - 1);
        SenseEachSound(g, ws, has, q, dirs[1..], exclude, fuel);
      }
    }
  }

  /** The creature is next to p through direction d. */
  predicate HazardThrough(g: Geometry, ws: Grid, has: seq<seq<bool>>, p: MazePoint, d: Direction)
    requires g.NonEmpty() && g.InRange(p)
  {
    IsOpen(ws, p, d) && Neighbour(g, p, d).Ok? && HasAt(has, Neighbour(g, p, d).value)
  }

  /** In a consistent maze, from a room whose open sides all lead to rooms,
      sensing answers exactly whether one of those neighbours holds the
      creature. */
  lemma SenseAdjacentRooms(g: Geometry, ws: Grid, has: seq<seq<bool>>, p: MazePoint, fuel: nat)
    requires Consistent(g, ws) && g.InRange(p) && !IsTunnelAt(ws, p) && fuel >= 1
    requires forall d :: IsOpen(ws, p, d) ==> !IsTunnelAt(ws, Neighbour(g, p, d).value)
    ensures Sense(g, ws, has, p, None, fuel) == Ok(exists d :: HazardThrough(g, ws, has, p, d))
  {
    WrappedMeaning(g, p);
    var here := ws[p.x][p.y];
    var open := Exits(here, None, Values);
    ExitsMembers(here, None, Values);
    AllDirectionsCard();
    SenseEachRooms(g, ws, has, p, open, fuel);
    forall d | HazardThrough(g, ws, has, p, d)
      ensures exists i :: 0 <= i < |open| && HazardThrough(g, ws, has, p, open[i])
    {
      assert d in open;
    }
  }

  lemma {:induction false} SenseEachRooms(g: Geometry, ws: Grid, has: seq<seq<bool>>, p: MazePoint, dirs: seq<Direction>, fuel: nat)
    requires Consistent(g, ws) && g.InRange(p) && fuel >= 1
    requires forall i :: 0 <= i < |dirs| ==> IsOpen(ws, p, dirs[i])
    requires forall d :: IsOpen(ws, p, d) ==> !IsTunnelAt(ws, Neighbour(g, p, d).value)
    ensures SenseEach(g, ws, has, p, dirs, None, fuel) == Ok(exists i :: 0 <= i < |dirs| && HazardThrough(g, ws, has, p, dirs[i]))
  {
    if dirs != [] {
      var d := dirs[0];
      assert IsOpen(ws, p, d);
      var n := Neighbour(g, p, d).value;
      WrappedMeaning(g, n);
      assert Sense(g, ws, has, n, Some(Inverse(d)), fuel - 1) == Ok(HasAt(has, n));
      SenseEachRooms(g, ws, has, p, dirs[1..], fuel);
      if !HasAt(has, n) {
        assert (exists i :: 0 <= i < |dirs| && HazardThrough(g, ws, has, p, dirs[i])) ==
               (exists i :: 0 <= i < |dirs[1..]| && HazardThrough(g, ws, has, p, dirs[1..][i])) by {
          if exists i :: 0 <= i < |dirs| && HazardThrough(g, ws, has, p, dirs[i]) {
            var i :| 0 <= i < |dirs| && HazardThrough(g, ws, has, p, dirs[i]);
            assert i > 0;
            assert dirs[1..][i - 1] == dirs[i];
          }
        }
      } else {
        assert HazardThrough(g, ws, has, p, dirs[0]);
      }
    }
  }

  // ---------------------------------------------------------------------
  // Sensing through tunnels

  /** What sensing answers for the end of a walk: whether the room found
      holds the creature, or the walk's fault. */
  function Sensed(has: seq<seq<bool>>, r: Result<Option<MazePoint>>): Result<bool>
  {
    match r
    case Err(e) => Err(e)
    case Ok(None) => Ok(false)
    case Ok(Some(q)) => Ok(HasAt(has, q))
  }

  /** One round of the loop of `cellTraverseHelper`: the step from q in
      direction e and the sensing beyond it. */
  function SenseStep(g: Geometry, ws: Grid, has: seq<seq<bool>>, q: MazePoint, e: Direction, fuel: nat): Result<bool>
    requires g.NonEmpty() && GridShape(g, ws) && g.InRange(q)
  {
    match Neighbour(g, q, e)
    case Err(_) => Err(IllegalState)
    case Ok(n) => if fuel == 0 then Err(StackOverflow) else Sense(g, ws, has, n, Some(Inverse(e)), fuel - 1)
  }

  /** In a tunnel the loop meets only the way back, which it skips, and the
      one way on: it answers as that single step does. */
  lemma {:induction false} SenseEachOneWay(g: Geometry, ws: Grid, has: seq<seq<bool>>, q: MazePoint, dirs: seq<Direction>,
                                           x: Direction, e: Direction, fuel: nat)
    requires g.NonEmpty() && GridShape(g, ws) && g.InRange(q) && x != e
    requires forall i :: 0 <= i < |dirs| ==> dirs[i] == x || dirs[i] == e
    ensures SenseEach(g, ws, has, q, dirs, Some(x), fuel) ==
              if e in dirs then SenseStep(g, ws, has, q, e, fuel) else Ok(false)
    decreases |dirs|
  {
    if dirs != [] {
      SenseEachOneWay(g, ws, has, q, dirs[1..], x, e, fuel);
      assert e in dirs <==> dirs[0] == e || e in dirs[1..];
    }
  }

  /** A tunnel entered in direction d through an open side: its open
      directions are the way back and one way on, `e`, which a walk of one
      room takes. */
  lemma TunnelWayOn(ws: Grid, n: MazePoint, d: Direction) returns (e: Direction)
    requires NoDup(WallsAt(ws, n)) && IsTunnelAt(ws, n) && Inverse(d) !in WallsAt(ws, n)
    ensures e != Inverse(d) && e !in WallsAt(ws, n) && StepAt(ws, n, d, 1) == Move(e, 1)
    ensures var open := Exits(WallsAt(ws, n), None, Values);
            e in open && forall i :: 0 <= i < |open| ==> open[i] == Inverse(d) || open[i] == e
  {
    var here, x := WallsAt(ws, n), Inverse(d);
    TunnelNeverStuck(ws, n, d, 1);
    var next := Exits(here, Some(x), Values);
    var open := Exits(here, None, Values);
    e := next[0];
    ExitsMembers(here, Some(x), Values);
    ExitsMembers(here, None, Values);
    AllDirectionsCard();
    assert e in next;
    forall i | 0 <= i < |open|
      ensures open[i] == x || open[i] == e
    {
      if open[i] != x {
        assert open[i] in next;
      }
    }
  }

  /** One tunnel of a chain: sensing it and walking through it both take
      its one way on, `e`, to the neighbour on that side. */
  lemma SenseTunnel(g: Geometry, ws: Grid, has: seq<seq<bool>>, n: MazePoint, d: Direction, fuel: nat)
    returns (e: Direction)
    requires Consistent(g, ws) && g.InRange(n) && IsOpen(ws, n, Inverse(d)) && IsTunnelAt(ws, n)
    ensures IsOpen(ws, n, e) && Neighbour(g, n, e).Ok? && IsOpen(ws, Neighbour(g, n, e).value, Inverse(e))
    ensures Sense(g, ws, has, n, Some(Inverse(d)), fuel) ==
              if fuel == 0 then Err(StackOverflow) else Sense(g, ws, has, Neighbour(g, n, e).value, Some(Inverse(e)), fuel - 1)
    ensures Walk(g, ws, n, d, 1, fuel).result ==
              if fuel == 0 then Err(StackOverflow) else Walk(g, ws, Neighbour(g, n, e).value, e, 1, fuel - 1).result
  {
    WrappedMeaning(g, n);
    var here := ws[n.x][n.y];
    assert WallsAt(ws, n) == here && NoDup(here);
    e := TunnelWayOn(ws, n, d);
    var open := Exits(here, None, Values);
    assert Sense(g, ws, has, n, Some(Inverse(d)), fuel) == SenseEach(g, ws, has, n, open, Some(Inverse(d)), fuel);
    SenseEachOneWay(g, ws, has, n, open, Inverse(d), e, fuel);
    assert IsOpen(ws, n, e);
    WalkStep(g, ws, n, d, 1, fuel);
  }

  /** In a consistent maze, sensing a cell entered in direction d through an
      open side follows the tunnel chain exactly as a walk of one room does:
      it answers for the room that walk ends in, and fails as it fails. */
  lemma {:induction false} SenseFollowsWalk(g: Geometry, ws: Grid, has: seq<seq<bool>>, n: MazePoint, d: Direction, fuel: nat)
    requires Consistent(g, ws) && g.InRange(n) && IsOpen(ws, n, Inverse(d))
    ensures Sense(g, ws, has, n, Some(Inverse(d)), fuel) == Sensed(has, Walk(g, ws, n, d, 1, fuel).result)
    decreases fuel
  {
    if IsTunnelAt(ws, n) {
      var e := SenseTunnel(g, ws, has, n, d, fuel);
      if fuel > 0 {
        SenseFollowsWalk(g, ws, has, Neighbour(g, n, e).value, e, fuel - 1);
      }
    } else {
      SenseRoom(g, ws, has, n, d, fuel);
    }
  }

  /** The end of a chain: a room entered through a side is what both the
      sensing and a walk of one room stop at. */
  lemma SenseRoom(g: Geometry, ws: Grid, has: seq<seq<bool>>, n: MazePoint, d: Direction, fuel: nat)
    requires g.NonEmpty() && GridShape(g, ws) && g.InRange(n) && !IsTunnelAt(ws, n)
    ensures Sense(g, ws, has, n, Some(Inverse(d)), fuel) == Ok(HasAt(has, n))
    ensures Walk(g, ws, n, d, 1, fuel).result == Ok(Some(n))
  {
    WrappedMeaning(g, n);
    assert WallsAt(ws, n) == ws[n.x][n.y];
  }

  /** A move out of a room through an open side is the one-room walk from
      the neighbour on that side. */
  lemma DestinationFromRoom(g: Geometry, ws: Grid, p: MazePoint, d: Direction, fuel: nat)
    requires g.NonEmpty() && GridShape(g, ws) && g.InRange(p) && !IsTunnelAt(ws, p)
    requires IsOpen(ws, p, d) && Neighbour(g, p, d).Ok?
    ensures Destination(g, ws, p, d, fuel) ==
              if fuel == 0 then Err(StackOverflow) else Walk(g, ws, Neighbour(g, p, d).value, d, 1, fuel - 1).result
  {
  }

  /** The creature is in the room that a move from p in direction d reaches,
      through any tunnels on the way. */
  predicate HazardBeyond(g: Geometry, ws: Grid, has: seq<seq<bool>>, p: MazePoint, d: Direction, fuel: nat)
    requires g.NonEmpty() && GridShape(g, ws) && g.InRange(p)
  {
    var r := Destination(g, ws, p, d, fuel);
    r.Ok? && r.value.Some? && HasAt(has, r.value.value)
  }

  /** In a consistent maze, from a room, sensing answers exactly whether the
      room a move in some open direction reaches holds the creature; its
      only fault is running out of stack, and it answers whenever every such
      move does. */
  lemma SenseThroughTunnels(g: Geometry, ws: Grid, has: seq<seq<bool>>, p: MazePoint, fuel: nat)
    requires Consistent(g, ws) && g.InRange(p) && !IsTunnelAt(ws, p)
    ensures var s := Sense(g, ws, has, p, None, fuel);
            && (s.Err? ==> s.fault == StackOverflow)
            && (s.Ok? ==> (s.value <==> exists d :: IsOpen(ws, p, d) && HazardBeyond(g, ws, has, p, d, fuel)))
            && ((forall d :: IsOpen(ws, p, d) ==> Destination(g, ws, p, d, fuel).Ok?) ==> s.Ok?)
  {
    WrappedMeaning(g, p);
    var here := ws[p.x][p.y];
    var open := Exits(here, None, Values);
    ExitsMembers(here, None, Values);
    AllDirectionsCard();
    SenseEachBeyond(g, ws, has, p, open, fuel);
    forall d | IsOpen(ws, p, d) && HazardBeyond(g, ws, has, p, d, fuel)
      ensures exists i :: 0 <= i < |open| && HazardBeyond(g, ws, has, p, open[i], fuel)
    {
      assert d in open;
    }
  }

  /** One round of the loop from a room through an open side answers for
      the room the move that way reaches. */
  lemma SenseStepBeyond(g: Geometry, ws: Grid, has: seq<seq<bool>>, p: MazePoint, d: Direction, fuel: nat)
    requires Consistent(g, ws) && g.InRange(p) && !IsTunnelAt(ws, p) && IsOpen(ws, p, d)
    ensures var r := Destination(g, ws, p, d, fuel);
            && SenseStep(g, ws, has, p, d, fuel) == Sensed(has, r)
            && r != Ok(None) && (r.Err? ==> r.fault == StackOverflow)
  {
    var n := Neighbour(g, p, d).value;
    DestinationFromRoom(g, ws, p, d, fuel);
    if fuel > 0 {
      var w := Walk(g, ws, n, d, 1, fuel - 1);
      assert SenseStep(g, ws, has, p, d, fuel) == Sense(g, ws, has, n, Some(Inverse(d)), fuel - 1);
      SenseFollowsWalk(g, ws, has, n, d, fuel - 1);
      WalkNeverStuck(g, ws, n, d, 1, fuel - 1, w);
      LastRoomNeverClosed(g, ws, n, d, fuel - 1);
    }
  }

  /** The loop of `cellTraverseHelper` over open directions of a room. */
  lemma {:induction false} SenseEachBeyond(g: Geometry, ws: Grid, has: seq<seq<bool>>, p: MazePoint, dirs: seq<Direction>, fuel: nat)
    requires Consistent(g, ws) && g.InRange(p) && !IsTunnelAt(ws, p)
    requires forall i :: 0 <= i < |dirs| ==> IsOpen(ws, p, dirs[i])
    ensures var s := SenseEach(g, ws, has, p, dirs, None, fuel);
            && (s.Err? ==> s.fault == StackOverflow)
            && (s.Ok? ==> (s.value <==> exists i :: 0 <= i < |dirs| && HazardBeyond(g, ws, has, p, dirs[i], fuel)))
            && ((forall i :: 0 <= i < |dirs| ==> Destination(g, ws, p, dirs[i], fuel).Ok?) ==> s.Ok?)
    decreases |dirs|
  {
    if dirs != [] {
      var d := dirs[0];
      assert IsOpen(ws, p, d);
      SenseStepBeyond(g, ws, has, p, d, fuel);
      SenseEachBeyond(g, ws, has, p, dirs[1..], fuel);
      var step := SenseStep(g, ws, has, p, d, fuel);
      assert SenseEach(g, ws, has, p, dirs, None, fuel) ==
               match step
               case Err(e) => Err(e)
               case Ok(found) => if found then Ok(true) else SenseEach(g, ws, has, p, dirs[1..], None, fuel);
      if step == Ok(false) {
        assert !HazardBeyond(g, ws, has, p, d, fuel);
        assert (exists i :: 0 <= i < |dirs| && HazardBeyond(g, ws, has, p, dirs[i], fuel)) ==
               (exists i :: 0 <= i < |dirs[1..]| && HazardBeyond(g, ws, has, p, dirs[1..][i], fuel)) by {
          if exists i :: 0 <= i < |dirs| && HazardBeyond(g, ws, has, p, dirs[i], fuel) {
            var i :| 0 <= i < |dirs| && HazardBeyond(g, ws, has, p, dirs[i], fuel);
            assert i > 0;
            assert dirs[1..][i - 1] == dirs[i];
          }
        }
      }
    }
  }
}
