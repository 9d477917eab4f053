/** A wall between two neighbouring cells.  A vertical wall at (row, col)
    separates that cell from its eastern neighbour, a horizontal one from its
    southern neighbour.  Position and orientation are fixed; the removed flag
    is set at most once. */
module Walls {
  import opened Faults

  class Wall {
    const row: int
    const col: int
    const vertical: bool
    var removed: bool
    /** A label the maze gives each wall it creates (its place in the maze's
        wall lists); it only serves to tell the walls apart in proofs. */
    ghost const slot: int

    constructor (rowIndex: int, columnIndex: int, isVertical: bool, ghost tag: int)
      ensures row == rowIndex && col == columnIndex && vertical == isVertical
      ensures slot == tag
      ensures !removed
    {
      row := rowIndex;
      col := columnIndex;
      vertical := isVertical;
      slot := tag;
      removed := false;
    }

    predicate IsHorizontal()
    {
      !vertical
    }

    /** `removeWall`: a one-shot flag; a second removal is an
        IllegalStateException and leaves the wall removed. */
    method RemoveWall() returns (o: Outcome)
      modifies this
      ensures removed
      ensures old(removed) <==> o == Fail(IllegalState)
      ensures o.Pass? <==> !old(removed)
    {
      if removed {
        return Fail(IllegalState);
      }
      removed := true;
      return Pass;
    }
  }
}
