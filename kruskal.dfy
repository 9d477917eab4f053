/** Why Kruskal's loop of `removeWalls` carves a perfect maze: the removed
    internal walls and the union-find's representatives keep the invariant
    `Spanning`, a wall joining two sets exists while more than one set is
    left, and one set left means every cell reaches every other. */
module Kruskal {
  import opened DisjointSets
  import opened MazeLayout

  /** Wall k has its two cells in different sets of `root`. */
  predicate Separates(g: Geometry, root: seq<nat>, k: nat)
    requires g.NonEmpty()
  {
    var (u, v) := Ends(g, k);
    u < |root| && v < |root| && root[u] != root[v]
  }

  /** The invariant of Kruskal's loop: every removed wall lies inside one
      set, and every cell is joined by removed walls to the representative
      of its set. */
  ghost predicate Spanning(g: Geometry, e: set<nat>, root: seq<nat>)
    requires g.NonEmpty()
  {
    && |root| == CellCount(g)
    && (forall k {:trigger Separates(g, root, k)} :: k in e ==> k < WallCount(g) && !Separates(g, root, k))
    && (forall x {:trigger Connected(g, e, x, root[x])} :: 0 <= x < |root| ==> Connected(g, e, x, root[x]))
  }

  /** The distinct representatives. */
  ghost function Reps(root: seq<nat>): set<nat>
  {
    set i | 0 <= i < |root| :: root[i]
  }

  /** There is exactly one set when all cells share the first cell's
      representative, and never fewer than one. */
  lemma OneSet(root: seq<nat>)
    requires |root| > 0
    ensures |Reps(root)| >= 1
    ensures |Reps(root)| == 1 <==> forall x :: 0 <= x < |root| ==> root[x] == root[0]
  {
    var reps := Reps(root);
    assert root[0] in reps;
    if forall x :: 0 <= x < |root| ==> root[x] == root[0] {
      assert reps == {root[0]};
    } else {
      var x :| 0 <= x < |root| && root[x] != root[0];
      var others := reps - {root[0]};
      assert root[x] in others;
      assert |others| == |reps| - 1;
    }
  }

  /** With no wall removed every cell is its own set. */
  lemma SpanningInitial(g: Geometry, root: seq<nat>)
    requires g.NonEmpty() && |root| == CellCount(g)
    requires forall x :: 0 <= x < |root| ==> root[x] == x
    ensures Spanning(g, {}, root)
  {
    forall x | 0 <= x < |root|
      ensures Connected(g, {}, x, root[x])
    {
      ConnectedRefl(g, {}, x);
    }
  }

  /** While two sets remain, some internal wall separates them. */
  lemma JoiningWall(g: Geometry, root: seq<nat>) returns (k: nat)
    requires g.NonEmpty() && |root| == CellCount(g)
    requires |Reps(root)| > 1
    ensures k < WallCount(g) && Separates(g, root, k)
  {
    if forall j :: 0 <= j < WallCount(g) ==> !Separates(g, root, j) {
      forall j | 0 <= j < WallCount(g)
        ensures Ends(g, j).0 < |root| && Ends(g, j).1 < |root| && root[Ends(g, j).0] == root[Ends(g, j).1]
      {
        EndsInRange(g, j);
        assert !Separates(g, root, j);
      }
      AllWallsJoined(g, root);
      OneSet(root);
      assert false;
    }
    k :| 0 <= k < WallCount(g) && Separates(g, root, k);
  }

  /** Removing a separating wall and attaching one of its two sets to the
      other keeps the invariant; the wall was not removed before. */
  lemma {:induction false} SpanningStep(g: Geometry, e: set<nat>, root: seq<nat>, k: nat, loser: nat, winner: nat)
    requires g.NonEmpty() && Spanning(g, e, root)
    requires k < WallCount(g) && Separates(g, root, k)
    requires var (u, v) := Ends(g, k);
             (loser, winner) == (root[u], root[v]) || (loser, winner) == (root[v], root[u])
    ensures k !in e
    ensures Spanning(g, e + {k}, Relabel(root, loser, winner))
  {
    var (u, v) := Ends(g, k);
    var e', root' := e + {k}, Relabel(root, loser, winner);
    forall j | j in e'
      ensures j < WallCount(g) && !Separates(g, root', j)
    {
      if j != k {
        assert j in e && !Separates(g, root, j);
      }
    }
    forall x | 0 <= x < |root'|
      ensures Connected(g, e', x, root'[x])
    {
      if root[x] == loser {
        if loser == root[u] {
          ConnectedThroughWall(g, e, k, u, v, x, loser, winner);
        } else {
          ConnectedThroughWall(g, e, k, v, u, x, loser, winner);
        }
      } else {
        ConnectedMono(g, e, e', x, root[x]);
      }
    }
  }

  /** Once a single set is left, any two cells are joined by removed walls. */
  lemma SpanningDone(g: Geometry, e: set<nat>, root: seq<nat>)
    requires g.NonEmpty() && Spanning(g, e, root) && |Reps(root)| == 1
    ensures forall x, y :: 0 <= x < CellCount(g) && 0 <= y < CellCount(g) ==> Connected(g, e, x, y)
  {
    MulAtLeast(g.rows, g.cols);
    OneSet(root);
    forall x, y | 0 <= x < CellCount(g) && 0 <= y < CellCount(g)
      ensures Connected(g, e, x, y)
    {
      assert root[x] == root[0] && root[y] == root[0];
      ConnectedSymmetric(g, e, y, root[y]);
      ConnectedTransitive(g, e, x, root[0], y);
    }
  }
}
