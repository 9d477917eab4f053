/** The hazards of the maze: their types (with priority, name and whether
    their number is configurable), the creature values placed in cells, and
    the priority ordering used when a player enters a cell. */
module Creatures {
  import opened Faults

  datatype CreatureType = Pit | Bat | Wumpus

  /** `CreatureType.values()`: the declaration order. */
  const TypeValues: seq<CreatureType> := [Pit, Bat, Wumpus]

  function Priority(t: CreatureType): (p: nat)
    ensures p < 3
  {
    match t
    case Pit => 0
    case Bat => 1
    case Wumpus => 2
  }

  /** `TypeValues` lists each type at its priority. */
  lemma PriorityIndexes(t: CreatureType)
    ensures TypeValues[Priority(t)] == t
  {
  }

  function CreatureName(t: CreatureType): (s: string)
    ensures |s| > 0
  {
    match t
    case Pit => "Pit"
    case Bat => "Bat"
    case Wumpus => "Wumpus"
  }

  /** Pits and bats are configurable; the wumpus is not. */
  predicate CanCustomize(t: CreatureType)
  {
    t != Wumpus
  }

  /** `getCreatureTotalOccurrences`: only the wumpus has a fixed count, one. */
  function TotalOccurrences(t: CreatureType): (r: Result<int>)
    ensures CanCustomize(t) <==> r == Err(UnsupportedOperation)
    ensures t == Wumpus <==> r == Ok(1)
  {
    if CanCustomize(t) then Err(UnsupportedOperation) else Ok(1)
  }

  /** `getCustomizableCreatures`: the configurable types among `ts`, in order. */
  function Customizable(ts: seq<CreatureType>): (r: seq<CreatureType>)
    ensures forall t :: t in r <==> t in ts && CanCustomize(t)
    ensures |r| <= |ts|
  {
    if ts == [] then []
    else (if CanCustomize(ts[0]) then [ts[0]] else []) + Customizable(ts[1..])
  }

  lemma CustomizableCreatures()
    ensures Customizable(TypeValues) == [Pit, Bat]
  {
  }

  /** The action a creature performs on a player entering its cell. */
  datatype Action = WumpusAction | PitAction | BatAction

  /** `MazeCreature`: a type paired with an action. */
  datatype Creature = Creature(kind: CreatureType, action: Action)

  /** The creature `addSingleCreature` builds for each type. */
  function MakeCreature(t: CreatureType): (c: Creature)
    ensures c.kind == t
    ensures t == Wumpus <==> c.action == WumpusAction
    ensures t == Pit <==> c.action == PitAction
    ensures t == Bat <==> c.action == BatAction
  {
    match t
    case Pit => Creature(Pit, PitAction)
    case Bat => Creature(Bat, BatAction)
    case Wumpus => Creature(Wumpus, WumpusAction)
  }

  /** `compareTo`: the priority difference. */
  function CompareTo(a: Creature, b: Creature): (c: int)
    ensures c < 0 <==> Priority(a.kind) < Priority(b.kind)
    ensures c == 0 <==> a.kind == b.kind
  {
    Priority(a.kind) - Priority(b.kind)
  }

  lemma CompareToAntisymmetric(a: Creature, b: Creature)
    ensures CompareTo(a, b) == -CompareTo(b, a)
  {
  }

  /** The creatures of `cs` of type `t`, in their order. */
  function OfType(cs: seq<Creature>, t: CreatureType): (r: seq<Creature>)
    ensures |r| <= |cs|
  {
    if cs == [] then []
    else (if cs[0].kind == t then [cs[0]] else []) + OfType(cs[1..], t)
  }

  /** The selection holds only creatures of the type asked for. */
  lemma {:induction false} OfTypeKinds(cs: seq<Creature>, t: CreatureType)
    ensures forall i :: 0 <= i < |OfType(cs, t)| ==> OfType(cs, t)[i].kind == t
  {
    if cs != [] {
      OfTypeKinds(cs[1..], t);
      var r := OfType(cs, t);
      var head := if cs[0].kind == t then [cs[0]] else [];
      forall i | 0 <= i < |r|
        ensures r[i].kind == t
      {
        if i >= |head| {
          assert r[i] == OfType(cs[1..], t)[i - |head|];
        }
      }
    }
  }

  /** `Collections.sort` by `compareTo`: a stable sort into ascending
      priority, i.e. the pits, then the bats, then the wumpus, each group in
      its original order. */
  function SortAscending(cs: seq<Creature>): seq<Creature>
  {
    OfType(cs, Pit) + OfType(cs, Bat) + OfType(cs, Wumpus)
  }

  function Reverse<T>(s: seq<T>): (r: seq<T>)
    ensures |r| == |s|
    ensures forall i :: 0 <= i < |s| ==> r[i] == s[|s| - 1 - i]
  {
    if s == [] then [] else Reverse(s[1..]) + [s[0]]
  }

  /** The order `performCellActions` runs the creatures in: sort, then reverse. */
  function ActionOrder(cs: seq<Creature>): seq<Creature>
  {
    Reverse(SortAscending(cs))
  }

  predicate SortedDescending(cs: seq<Creature>)
  {
    forall i, j :: 0 <= i < j < |cs| ==> Priority(cs[i].kind) >= Priority(cs[j].kind)
  }

  lemma {:induction false} OfTypeMultiset(cs: seq<Creature>)
    ensures multiset(OfType(cs, Pit)) + multiset(OfType(cs, Bat)) + multiset(OfType(cs, Wumpus))
         == multiset(cs)
  {
    if cs != [] {
      var t := cs[1..];
      OfTypeMultiset(t);
      assert cs == [cs[0]] + t;
      var p, b, w := OfType(t, Pit), OfType(t, Bat), OfType(t, Wumpus);
      match cs[0].kind
      case Pit =>
        assert OfType(cs, Pit) == [cs[0]] + p && OfType(cs, Bat) == b && OfType(cs, Wumpus) == w;
      case Bat =>
        assert OfType(cs, Pit) == p && OfType(cs, Bat) == [cs[0]] + b && OfType(cs, Wumpus) == w;
      case Wumpus =>
        assert OfType(cs, Pit) == p && OfType(cs, Bat) == b && OfType(cs, Wumpus) == [cs[0]] + w;
    }
  }

  lemma {:induction false} ReverseMultiset<T>(s: seq<T>)
    ensures multiset(Reverse(s)) == multiset(s)
  {
    if s != [] {
      ReverseMultiset(s[1..]);
      assert s == [s[0]] + s[1..];
    }
  }

  /** The stable sort groups the creatures by ascending priority. */
  lemma SortAscendingSorted(cs: seq<Creature>)
    ensures var a := SortAscending(cs);
            forall i, j :: 0 <= i < j < |a| ==> Priority(a[i].kind) <= Priority(a[j].kind)
  {
    var p, b, w := OfType(cs, Pit), OfType(cs, Bat), OfType(cs, Wumpus);
    OfTypeKinds(cs, Pit);
    OfTypeKinds(cs, Bat);
    OfTypeKinds(cs, Wumpus);
    var a := p + b + w;
    forall i | 0 <= i < |a|
      ensures Priority(a[i].kind) == if i < |p| then 0 else if i < |p| + |b| then 1 else 2
    {
      if i < |p| {
        assert a[i] == p[i];
      } else if i < |p| + |b| {
        assert a[i] == b[i - |p|];
      } else {
        assert a[i] == w[i - |p| - |b|];
      }
    }
  }

  /** The run order is a permutation of the creatures, highest priority first. */
  lemma ActionOrderIsSortedPermutation(cs: seq<Creature>)
    ensures multiset(ActionOrder(cs)) == multiset(cs)
    ensures SortedDescending(ActionOrder(cs))
  {
    ActionOrderPermutation(cs);
    ActionOrderSorted(cs);
  }

  lemma ActionOrderPermutation(cs: seq<Creature>)
    ensures multiset(ActionOrder(cs)) == multiset(cs)
  {
    OfTypeMultiset(cs);
    var a := SortAscending(cs);
    ReverseMultiset(a);
    assert multiset(a) == multiset(OfType(cs, Pit)) + multiset(OfType(cs, Bat)) + multiset(OfType(cs, Wumpus));
  }

  lemma ActionOrderSorted(cs: seq<Creature>)
    ensures SortedDescending(ActionOrder(cs))
  {
    var a := SortAscending(cs);
    SortAscendingSorted(cs);
    var r := Reverse(a);
    forall i, j | 0 <= i < j < |r|
      ensures Priority(r[i].kind) >= Priority(r[j].kind)
    {
      assert r[i] == a[|a| - 1 - i] && r[j] == a[|a| - 1 - j];
    }
  }

  lemma {:induction false} ReverseSplit<T>(x: seq<T>, y: seq<T>)
    ensures Reverse(x + y) == Reverse(y) + Reverse(x)
  {
    if x == [] {
      assert x + y == y;
    } else {
      assert (x + y)[1..] == x[1..] + y;
      ReverseSplit(x[1..], y);
    }
  }

  lemma ReverseShort<T>(x: seq<T>)
    requires |x| <= 1
    ensures Reverse(x) == x
  {
  }

  /** Every creature carries the action its type is built with. */
  predicate WellMade(cs: seq<Creature>)
  {
    forall i :: 0 <= i < |cs| ==> cs[i] == MakeCreature(cs[i].kind)
  }

  /** Sorting moves creatures but does not change them. */
  lemma ActionOrderWellMade(cs: seq<Creature>)
    requires WellMade(cs)
    ensures WellMade(ActionOrder(cs))
  {
    ActionOrderPermutation(cs);
    var r := ActionOrder(cs);
    forall i | 0 <= i < |r|
      ensures r[i] == MakeCreature(r[i].kind)
    {
      assert r[i] in multiset(cs);
      var j :| 0 <= j < |cs| && cs[j] == r[i];
    }
  }

  /** Types occurring in `cs`. */
  function Kinds(cs: seq<Creature>): set<CreatureType>
  {
    set i | 0 <= i < |cs| :: cs[i].kind
  }

  /** At most one creature per type. */
  predicate UniqueKinds(cs: seq<Creature>)
  {
    forall i, j :: 0 <= i < j < |cs| ==> cs[i].kind != cs[j].kind
  }

  /** Sorting a list that is already in run order changes nothing, so
      re-entering a cell runs its creatures in the same order; the run order
      keeps the types unique. */
  lemma ActionOrderIdempotent(cs: seq<Creature>)
    requires UniqueKinds(cs)
    ensures UniqueKinds(ActionOrder(cs))
    ensures ActionOrder(ActionOrder(cs)) == ActionOrder(cs)
  {
    var p, b, w := OfType(cs, Pit), OfType(cs, Bat), OfType(cs, Wumpus);
    OfTypeUnique(cs, Pit);
    OfTypeUnique(cs, Bat);
    OfTypeUnique(cs, Wumpus);
    OfTypeKinds(cs, Pit);
    OfTypeKinds(cs, Bat);
    OfTypeKinds(cs, Wumpus);
    var r := ActionOrder(cs);
    ReverseSplit(p + b, w);
    ReverseSplit(p, b);
    ReverseShort(p);
    ReverseShort(b);
    ReverseShort(w);
    assert r == w + b + p;
    OfTypeConcat(w, b, p, Pit);
    OfTypeConcat(w, b, p, Bat);
    OfTypeConcat(w, b, p, Wumpus);
    OfTypeAll(w, Wumpus);
    OfTypeAll(b, Bat);
    OfTypeAll(p, Pit);
    OfTypeNone(w, Pit);
    OfTypeNone(w, Bat);
    OfTypeNone(b, Pit);
    OfTypeNone(b, Wumpus);
    OfTypeNone(p, Bat);
    OfTypeNone(p, Wumpus);
    assert OfType(r, Pit) == p && OfType(r, Bat) == b && OfType(r, Wumpus) == w;
    GroupsUnique(w, b, p);
  }

  lemma GroupsUnique(w: seq<Creature>, b: seq<Creature>, p: seq<Creature>)
    requires |w| <= 1 && |b| <= 1 && |p| <= 1
    requires forall i :: 0 <= i < |w| ==> w[i].kind == Wumpus
    requires forall i :: 0 <= i < |b| ==> b[i].kind == Bat
    requires forall i :: 0 <= i < |p| ==> p[i].kind == Pit
    ensures UniqueKinds(w + b + p)
  {
    var r := w + b + p;
    forall i | 0 <= i < |r|
      ensures Priority(r[i].kind) == if i < |w| then 2 else if i < |w| + |b| then 1 else 0
    {
      if i < |w| {
        assert r[i] == w[i];
      } else if i < |w| + |b| {
        assert r[i] == b[i - |w|];
      } else {
        assert r[i] == p[i - |w| - |b|];
      }
    }
  }

  lemma {:induction false} OfTypeSplit(x: seq<Creature>, y: seq<Creature>, t: CreatureType)
    ensures OfType(x + y, t) == OfType(x, t) + OfType(y, t)
  {
    if x != [] {
      assert (x + y)[1..] == x[1..] + y;
      OfTypeSplit(x[1..], y, t);
    } else {
      assert x + y == y;
    }
  }

  lemma OfTypeConcat(x: seq<Creature>, y: seq<Creature>, z: seq<Creature>, t: CreatureType)
    ensures OfType(x + y + z, t) == OfType(x, t) + OfType(y, t) + OfType(z, t)
  {
    OfTypeSplit(x + y, z, t);
    OfTypeSplit(x, y, t);
  }

  lemma {:induction false} OfTypeAll(x: seq<Creature>, t: CreatureType)
    requires forall i :: 0 <= i < |x| ==> x[i].kind == t
    ensures OfType(x, t) == x
  {
    if x != [] {
      OfTypeAll(x[1..], t);
    }
  }

  lemma {:induction false} OfTypeNone(x: seq<Creature>, t: CreatureType)
    requires forall i :: 0 <= i < |x| ==> x[i].kind != t
    ensures OfType(x, t) == []
  {
    if x != [] {
      OfTypeNone(x[1..], t);
    }
  }

  /** With unique types, each type occurs at most once. */
  lemma {:induction false} OfTypeUnique(cs: seq<Creature>, t: CreatureType)
    requires UniqueKinds(cs)
    ensures |OfType(cs, t)| <= 1
  {
    if cs != [] {
      OfTypeUnique(cs[1..], t);
      if cs[0].kind == t {
        OfTypeNone(cs[1..], t);
      }
    }
  }
}
