/** A cell of the maze: its position, the directions in which it still has
    a wall, the creatures living in it and whether a player has seen it. */
module Cells {
  import opened Faults
  import opened Directions
  import opened Creatures

  ghost predicate NoDup<T>(s: seq<T>)
  {
    forall i, j :: 0 <= i < j < |s| ==> s[i] != s[j]
  }

  function Elems<T>(s: seq<T>): set<T>
  {
    set x | x in s
  }

  lemma {:induction false} NoDupCard<T>(s: seq<T>)
    requires NoDup(s)
    ensures |Elems(s)| == |s|
  {
    if s != [] {
      NoDupCard(s[1..]);
      assert Elems(s) == {s[0]} + Elems(s[1..]);
      assert s[0] !in Elems(s[1..]);
    }
  }

  /** `List.remove(Object)`: drops the first occurrence of `x`. */
  function RemoveFirst<T(==)>(s: seq<T>, x: T): (r: seq<T>)
    ensures x in s ==> |r| == |s| - 1
    ensures x !in s ==> r == s
  {
    if s == [] then []
    else if s[0] == x then s[1..]
    else [s[0]] + RemoveFirst(s[1..], x)
  }

  lemma {:induction false} RemoveFirstSubset<T>(s: seq<T>, x: T)
    ensures forall y :: y in RemoveFirst(s, x) ==> y in s
  {
    if s != [] && s[0] != x {
      RemoveFirstSubset(s[1..], x);
    }
  }

  lemma {:induction false} RemoveFirstKeeps<T>(s: seq<T>, x: T)
    ensures forall y :: y in s && y != x ==> y in RemoveFirst(s, x)
  {
    if s != [] {
      RemoveFirstKeeps(s[1..], x);
      forall y | y in s && y != x ensures y in RemoveFirst(s, x) {
        if y != s[0] {
          assert y in s[1..];
        }
      }
    }
  }

  /** Without duplicates, removing the first occurrence removes the element
      and keeps the sequence free of duplicates. */
  lemma {:induction false} RemoveFirstNoDup<T>(s: seq<T>, x: T)
    requires NoDup(s)
    ensures NoDup(RemoveFirst(s, x)) && x !in RemoveFirst(s, x)
  {
    if s != [] {
      assert NoDup(s[1..]);
      if s[0] == x {
        assert x !in s[1..];
      } else {
        RemoveFirstNoDup(s[1..], x);
        RemoveFirstSubset(s[1..], x);
        assert s[0] !in s[1..];
      }
    }
  }

  /** The element set after removal, for a sequence without duplicates. */
  lemma RemoveFirstElems<T>(s: seq<T>, x: T)
    requires NoDup(s)
    ensures NoDup(RemoveFirst(s, x)) && Elems(RemoveFirst(s, x)) == Elems(s) - {x}
  {
    RemoveFirstNoDup(s, x);
    RemoveFirstSubset(s, x);
    RemoveFirstKeeps(s, x);
  }

  /** The directions of `ds` that are not in `ws`, in the order of `ds`. */
  function OpenAmong(ds: seq<Direction>, ws: seq<Direction>): (r: seq<Direction>)
    ensures forall d :: d in r <==> d in ds && d !in ws
  {
    if ds == [] then []
    else (if ds[0] in ws then [] else [ds[0]]) + OpenAmong(ds[1..], ws)
  }

  lemma {:induction false} OpenAmongNoDup(ds: seq<Direction>, ws: seq<Direction>)
    requires NoDup(ds)
    ensures NoDup(OpenAmong(ds, ws))
  {
    if ds != [] {
      assert NoDup(ds[1..]);
      OpenAmongNoDup(ds[1..], ws);
      assert ds[0] !in ds[1..];
    }
  }

  /** The directions of `s` in strictly increasing declaration order. */
  predicate InOrder(s: seq<Direction>)
  {
    forall i, j :: 0 <= i < j < |s| ==> Ordinal(s[i]) < Ordinal(s[j])
  }

  /** Filtering keeps the order of what is kept. */
  lemma {:induction false} OpenAmongInOrder(ds: seq<Direction>, ws: seq<Direction>)
    requires InOrder(ds)
    ensures InOrder(OpenAmong(ds, ws))
  {
    if ds != [] {
      assert InOrder(ds[1..]);
      OpenAmongInOrder(ds[1..], ws);
      var rest := OpenAmong(ds[1..], ws);
      forall x | x in rest
        ensures Ordinal(ds[0]) < Ordinal(x)
      {
        var k :| 0 <= k < |ds[1..]| && ds[1..][k] == x;
        assert ds[k + 1] == x;
      }
    }
  }

  const AllDirections: set<Direction> := {North, East, South, West}

  lemma AllDirectionsCard()
    ensures |AllDirections| == 4 && Elems(Values) == AllDirections && NoDup(Values)
    ensures forall d: Direction :: d in Values
  {
    forall d: Direction ensures d in Values {
      OrdinalIndexes(d);
    }
    assert AllDirections == {North} + {East} + {South} + {West};
  }

  /** Every direction is one of the four. */
  lemma WithinAllDirections(ws: seq<Direction>)
    ensures Elems(ws) <= AllDirections
  {
    forall d | d in Elems(ws) ensures d in AllDirections {
      match d
      case North =>
      case East =>
      case South =>
      case West =>
    }
  }

  /** The openings are the four directions less the walls. */
  lemma OpenElems(ws: seq<Direction>)
    ensures Elems(OpenAmong(Values, ws)) == AllDirections - Elems(ws)
  {
    AllDirectionsCard();
    var r := OpenAmong(Values, ws);
    forall d ensures d in Elems(r) <==> d in AllDirections - Elems(ws) {
      assert d in Values;
    }
  }

  /** There are as many openings as the four directions minus the walls. */
  lemma OpenCount(ws: seq<Direction>)
    requires NoDup(ws)
    ensures |OpenAmong(Values, ws)| == 4 - |ws|
  {
    AllDirectionsCard();
    var r := OpenAmong(Values, ws);
    OpenAmongNoDup(Values, ws);
    NoDupCard(r);
    NoDupCard(ws);
    WithinAllDirections(ws);
    OpenElems(ws);
    assert |AllDirections - Elems(ws)| == |AllDirections| - |Elems(ws)|;
  }

  /** Whether `cs` holds a creature of type `t`. */
  predicate HasType(cs: seq<Creature>, t: CreatureType)
  {
    cs != [] && (cs[0].kind == t || HasType(cs[1..], t))
  }

  lemma {:induction false} HasTypeMeans(cs: seq<Creature>, t: CreatureType)
    ensures HasType(cs, t) <==> exists i :: 0 <= i < |cs| && cs[i].kind == t
  {
    if cs != [] {
      HasTypeMeans(cs[1..], t);
      if HasType(cs[1..], t) {
        var i :| 0 <= i < |cs[1..]| && cs[1..][i].kind == t;
        assert cs[i + 1].kind == t;
      }
      if exists i :: 0 <= i < |cs| && cs[i].kind == t {
        var i :| 0 <= i < |cs| && cs[i].kind == t;
        if i > 0 {
          assert cs[1..][i - 1].kind == t;
        }
      }
    }
  }

  /** Membership of a type depends only on the elements, not their order. */
  lemma HasTypePermutation(a: seq<Creature>, b: seq<Creature>, t: CreatureType)
    requires multiset(a) == multiset(b)
    ensures HasType(a, t) == HasType(b, t)
  {
    HasTypeMeans(a, t);
    HasTypeMeans(b, t);
    if HasType(a, t) {
      var i :| 0 <= i < |a| && a[i].kind == t;
      assert a[i] in multiset(b);
    }
    if HasType(b, t) {
      var i :| 0 <= i < |b| && b[i].kind == t;
      assert b[i] in multiset(a);
    }
  }

  lemma {:induction false} HasTypeOfType(cs: seq<Creature>, t: CreatureType)
    ensures HasType(cs, t) <==> OfType(cs, t) != []
  {
    if cs != [] {
      HasTypeOfType(cs[1..], t);
    }
  }

  /** The run order starts with the wumpus whenever the list holds one, and
      with the pit when the pit is the only creature that acts before it. */
  lemma RunOrderHead(cs: seq<Creature>)
    ensures HasType(cs, Wumpus) ==> ActionOrder(cs) != [] && ActionOrder(cs)[0].kind == Wumpus
    ensures HasType(cs, Pit) && !HasType(cs, Bat) && !HasType(cs, Wumpus) ==>
              ActionOrder(cs) != [] && ActionOrder(cs)[0].kind == Pit
  {
    var p, b, w := OfType(cs, Pit), OfType(cs, Bat), OfType(cs, Wumpus);
    HasTypeOfType(cs, Pit);
    HasTypeOfType(cs, Bat);
    HasTypeOfType(cs, Wumpus);
    OfTypeKinds(cs, Pit);
    OfTypeKinds(cs, Wumpus);
    ReverseSplit(p + b, w);
    assert ActionOrder(cs) == Reverse(w) + Reverse(p + b);
    if w == [] && b == [] {
      assert p + b == p;
    }
  }

  /** Everything about a cell that changes: what a snapshot of the maze
      records for it. */
  datatype CellState = CellState(walls: seq<Direction>, creatures: seq<Creature>, visible: bool, modCount: nat)

  /** The state of a cell as `new Cell(...)` leaves it: four walls, no
      creatures, not yet seen. */
  const FreshCell := CellState(Values, [], false, 0)

  /** The cell invariant on a snapshot: no wall listed twice, at most one
      creature per type, and no creature in a tunnel. */
  ghost predicate StateOk(s: CellState)
  {
    && NoDup(s.walls)
    && UniqueKinds(s.creatures)
    && (|s.creatures| > 0 ==> |s.walls| != 2)
  }

  /** Putting the creatures in run order keeps the cell invariant. */
  lemma SortKeepsState(s: CellState, count: nat)
    requires StateOk(s)
    ensures StateOk(CellState(s.walls, ActionOrder(s.creatures), s.visible, count))
  {
    ActionOrderIsSortedPermutation(s.creatures);
    ActionOrderIdempotent(s.creatures);
    assert |ActionOrder(s.creatures)| == |multiset(ActionOrder(s.creatures))| == |s.creatures|;
  }

  class Cell {
    const row: int
    const col: int
    /** The directions in which this cell still has a wall. */
    var walls: seq<Direction>
    var creatures: seq<Creature>
    var visible: bool
    /** Structural changes to the creature list (appends and sorts), as the
        list's iterators see them. */
    var modCount: nat

    ghost predicate Valid()
      reads this
    {
      row >= 0 && col >= 0 && StateOk(State())
    }

    function State(): CellState
      reads this
    {
      CellState(walls, creatures, visible, modCount)
    }

    constructor (rowPosition: nat, columnPosition: nat)
      ensures Valid()
      ensures row == rowPosition && col == columnPosition
      ensures State() == FreshCell
    {
      row := rowPosition;
      col := columnPosition;
      walls := Values;
      creatures := [];
      visible := false;
      modCount := 0;
      new;
      AllDirectionsCard();
    }

    /** The constructor's argument check. */
    static method Create(rowPosition: int, columnPosition: int) returns (r: Result<Cell>)
      ensures r.Err? <==> rowPosition < 0 || columnPosition < 0
      ensures r.Err? ==> r.fault == IllegalArgument
      ensures r.Ok? ==> fresh(r.value) && r.value.Valid() && r.value.State() == FreshCell
                        && r.value.row == rowPosition && r.value.col == columnPosition
    {
      if rowPosition < 0 || columnPosition < 0 {
        return Err(IllegalArgument);
      }
      var c := new Cell(rowPosition, columnPosition);
      return Ok(c);
    }

    /** A tunnel has exactly two walls left. */
    predicate IsTunnel()
      reads this
    {
      |walls| == 2
    }

    /** `getSuggestionsForMovement`: the wall-free directions in N, E, S, W order. */
    function Suggestions(): (r: seq<Direction>)
      reads this
      ensures forall d :: d in r <==> d !in walls
      ensures NoDup(r) && InOrder(r)
    {
      AllDirectionsCard();
      OpenAmongNoDup(Values, walls);
      OpenAmongInOrder(Values, walls);
      OpenAmong(Values, walls)
    }

    /** A cell is a tunnel exactly when it has two openings. */
    lemma TunnelHasTwoOpenings()
      requires Valid()
      ensures |Suggestions()| == 4 - |walls|
      ensures IsTunnel() <==> |Suggestions()| == 2
    {
      OpenCount(walls);
    }

    predicate HasCreature(t: CreatureType)
      reads this
    {
      HasType(creatures, t)
    }

    /** `addCreature`: null is an IllegalArgumentException; a second creature
        of one type, or any creature in a tunnel, an
        UnsupportedOperationException; otherwise the creature is appended. */
    method AddCreature(c: Option<Creature>) returns (o: Outcome)
      requires Valid()
      modifies this
      ensures Valid()
      ensures c.None? ==> o == Fail(IllegalArgument)
      ensures c.Some? && (old(HasCreature(c.value.kind)) || IsTunnel()) ==>
                o == Fail(UnsupportedOperation)
      ensures c.Some? && !old(HasCreature(c.value.kind)) && !IsTunnel() ==> o == Pass
      ensures o.Pass? ==> creatures == old(creatures) + [c.value] && modCount == old(modCount) + 1
      ensures o.Fail? ==> creatures == old(creatures) && modCount == old(modCount)
      ensures walls == old(walls) && visible == old(visible)
    {
      if c.None? {
        return Fail(IllegalArgument);
      }
      if HasCreature(c.value.kind) {
        return Fail(UnsupportedOperation);
      }
      if IsTunnel() {
        return Fail(UnsupportedOperation);
      }
      HasTypeMeans(creatures, c.value.kind);
      assert forall i :: 0 <= i < |creatures| ==> creatures[i].kind != c.value.kind;
      creatures := creatures + [c.value];
      modCount := modCount + 1;
      return Pass;
    }

    /** `removeWallInDirection`: fails with IllegalStateException when there
        is no wall at `d` or when creatures have been added; otherwise
        exactly `d` is removed. */
    method RemoveWallInDirection(d: Direction) returns (o: Outcome)
      requires Valid()
      modifies this
      ensures Valid()
      ensures o.Fail? <==> d !in old(walls) || |creatures| > 0
      ensures o.Fail? ==> o.fault == IllegalState && walls == old(walls)
      ensures o.Pass? ==> walls == RemoveFirst(old(walls), d) && Elems(walls) == Elems(old(walls)) - {d}
      ensures creatures == old(creatures) && visible == old(visible) && modCount == old(modCount)
    {
      if d !in walls {
        return Fail(IllegalState);
      }
      if |creatures| > 0 {
        return Fail(IllegalState);
      }
      RemoveFirstElems(walls, d);
      walls := RemoveFirst(walls, d);
      return Pass;
    }

    method MarkVisible()
      modifies this
      ensures visible
      ensures walls == old(walls) && creatures == old(creatures) && modCount == old(modCount)
    {
      visible := true;
    }

    /** The first step of `performCellActions`: `Collections.sort` followed
        by `Collections.reverse`, in place; the sort counts as a structural
        change of the list. */
    method SortForActions()
      requires Valid()
      modifies this
      ensures Valid()
      ensures creatures == ActionOrder(old(creatures))
      ensures multiset(creatures) == multiset(old(creatures)) && SortedDescending(creatures)
      ensures modCount == old(modCount) + 1
      ensures walls == old(walls) && visible == old(visible)
    {
      ActionOrderIsSortedPermutation(creatures);
      SortKeepsState(State(), modCount + 1);
      creatures := ActionOrder(creatures);
      modCount := modCount + 1;
    }
  }

  /** `canCellKillPlayer`: a missing cell, a pit or the wumpus. */
  predicate CanCellKillPlayer(c: Cell?)
    reads c
  {
    c == null || c.HasCreature(Pit) || c.HasCreature(Wumpus)
  }
}
