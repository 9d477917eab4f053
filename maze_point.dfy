/** A point of the maze grid: `x` is the row, `y` the column. */
module MazePoints {

  datatype MazePoint = MazePoint(x: int, y: int)

  /** What `equals` may be handed: null, another point, or an object of
      another class. */
  datatype Obj = Null | Point(p: MazePoint) | OtherClass

  /** `equals`: true exactly for another point with the same coordinates
      (an identical reference has, in particular, the same coordinates). */
  function Equals(self: MazePoint, o: Obj): (b: bool)
    ensures b <==> o == Point(self)
    ensures o == Null || o == OtherClass ==> !b
  {
    match o
    case Null => false
    case OtherClass => false
    case Point(q) => self.x == q.x && self.y == q.y
  }

  lemma EqualsReflexive(p: MazePoint)
    ensures Equals(p, Point(p))
  {
  }

  lemma EqualsSymmetric(p: MazePoint, q: MazePoint)
    ensures Equals(p, Point(q)) == Equals(q, Point(p))
  {
  }

  lemma EqualsTransitive(p: MazePoint, q: MazePoint, r: MazePoint)
    requires Equals(p, Point(q)) && Equals(q, Point(r))
    ensures Equals(p, Point(r))
  {
  }
}
