/** The four compass directions, in declaration order, with their movement
    offsets (row, column) and one-letter names. */
module Directions {
  import opened Faults
  import opened MazePoints

  datatype Direction = North | East | South | West

  /** `Direction.values()`: the declaration order. */
  const Values: seq<Direction> := [North, East, South, West]

  function Ordinal(d: Direction): (i: nat)
    ensures i < 4
  {
    match d
    case North => 0
    case East => 1
    case South => 2
    case West => 3
  }

  /** `Values` lists each direction at its ordinal. */
  lemma OrdinalIndexes(d: Direction)
    ensures Values[Ordinal(d)] == d
  {
  }

  /** `getInverseDirection`: the opposite direction. */
  function Inverse(d: Direction): Direction
  {
    match d
    case North => South
    case East => West
    case South => North
    case West => East
  }

  /** The inverse is what `getInverseDirection` computes: the direction
      two places further in `Values`, cyclically. */
  lemma InverseTwoAhead(d: Direction)
    ensures Inverse(d) == Values[(Ordinal(d) + 2) % |Values|]
  {
  }

  lemma InverseInvolution(d: Direction)
    ensures Inverse(Inverse(d)) == d && Inverse(d) != d
  {
  }

  /** The movement offset of each constant. */
  function Movement(d: Direction): (m: MazePoint)
    ensures d == North ==> m == MazePoint(-1, 0)
    ensures d == East ==> m == MazePoint(0, 1)
    ensures d == South ==> m == MazePoint(1, 0)
    ensures d == West ==> m == MazePoint(0, -1)
  {
    match d
    case North => MazePoint(-1, 0)
    case East => MazePoint(0, 1)
    case South => MazePoint(1, 0)
    case West => MazePoint(0, -1)
  }

  /** `getNextPoint`: one step in direction `d`. */
  function NextPoint(d: Direction, p: MazePoint): (q: MazePoint)
    ensures q.x - p.x == Movement(d).x && q.y - p.y == Movement(d).y
  {
    MazePoint(p.x + Movement(d).x, p.y + Movement(d).y)
  }

  /** A step followed by a step in the inverse direction goes back. */
  lemma StepBack(d: Direction, p: MazePoint)
    ensures NextPoint(Inverse(d), NextPoint(d, p)) == p
  {
  }

  /** The offsets of opposite directions cancel. */
  lemma InverseMovement(d: Direction)
    ensures Movement(Inverse(d)) == MazePoint(-Movement(d).x, -Movement(d).y)
  {
  }

  function DirectionString(d: Direction): (s: string)
    ensures |s| == 1
  {
    match d
    case North => "N"
    case East => "E"
    case South => "S"
    case West => "W"
  }

  /** The names are distinct. */
  lemma DirectionStringInjective(d: Direction, e: Direction)
    requires DirectionString(d) == DirectionString(e)
    ensures d == e
  {
  }

  /** The search of `getEnumerationForString` over `Values[from..]`. */
  function FindByString(s: string, from: nat): (r: Result<Direction>)
    requires from <= |Values|
    ensures r.Ok? ==> DirectionString(r.value) == s && Ordinal(r.value) >= from
    ensures r.Err? ==> r.fault == IllegalArgument
                       && forall i :: from <= i < |Values| ==> DirectionString(Values[i]) != s
    decreases |Values| - from
  {
    if from == |Values| then Err(IllegalArgument)
    else if DirectionString(Values[from]) == s then Ok(Values[from])
    else FindByString(s, from + 1)
  }

  /** `getEnumerationForString`: the direction with that name, or
      IllegalArgumentException. */
  function FromString(s: string): (r: Result<Direction>)
    ensures r.Ok? ==> DirectionString(r.value) == s
    ensures r.Err? ==> r.fault == IllegalArgument && forall d :: DirectionString(d) != s
  {
    FindByString(s, 0)
  }

  /** Parsing a direction's own name gives that direction back. */
  lemma FromStringRoundTrip(d: Direction)
    ensures FromString(DirectionString(d)) == Ok(d)
  {
    var r := FromString(DirectionString(d));
    if r.Ok? {
      DirectionStringInjective(r.value, d);
    }
  }
}
