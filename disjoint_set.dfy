/** The union-find structure Kruskal's loop uses to decide when the maze is
    connected.  `cellParent[i] < 0` marks a root and holds minus the size of
    its set; a non-negative entry is the index of the parent. */
module DisjointSets {
  import opened Faults

  /** Number of negative entries: the roots of the forest. */
  function NumRoots(s: seq<int>): nat
  {
    if s == [] then 0 else NumRoots(s[..|s| - 1]) + (if s[|s| - 1] < 0 then 1 else 0)
  }

  /** Number of elements whose representative is `r`. */
  function Members(root: seq<nat>, r: nat): nat
  {
    if root == [] then 0
    else Members(root[..|root| - 1], r) + (if root[|root| - 1] == r then 1 else 0)
  }

  /** The representative map after the set of `loser` is attached to `winner`. */
  function Relabel(root: seq<nat>, loser: nat, winner: nat): (r: seq<nat>)
    ensures |r| == |root|
    ensures forall x :: 0 <= x < |root| ==> r[x] == if root[x] == loser then winner else root[x]
  {
    if root == [] then []
    else
      var last := root[|root| - 1];
      Relabel(root[..|root| - 1], loser, winner) + [if last == loser then winner else last]
  }

  /** Overwriting one entry changes the root count only by that entry's sign. */
  lemma {:induction false} NumRootsUpdate(s: seq<int>, j: nat, v: int)
    requires j < |s|
    ensures NumRoots(s[j := v])
         == NumRoots(s) - (if s[j] < 0 then 1 else 0) + (if v < 0 then 1 else 0)
  {
    var t := s[j := v];
    if j == |s| - 1 {
      assert t[..|t| - 1] == s[..|s| - 1];
    } else {
      assert t[..|t| - 1] == s[..|s| - 1][j := v];
      NumRootsUpdate(s[..|s| - 1], j, v);
    }
  }

  /** Two arrays with the same sign pattern have the same number of roots. */
  lemma {:induction false} NumRootsSameSigns(s: seq<int>, t: seq<int>)
    requires |s| == |t|
    requires forall j :: 0 <= j < |s| ==> (s[j] < 0 <==> t[j] < 0)
    ensures NumRoots(s) == NumRoots(t)
  {
    if s != [] {
      NumRootsSameSigns(s[..|s| - 1], t[..|t| - 1]);
    }
  }

  /** The root count is the size of the set of negative positions. */
  lemma {:induction false} NumRootsIsCard(s: seq<int>)
    ensures NumRoots(s) == |set j | 0 <= j < |s| && s[j] < 0|
  {
    if s != [] {
      var m := |s| - 1;
      var p := s[..m];
      NumRootsIsCard(p);
      var before := set j | 0 <= j < |p| && p[j] < 0;
      var all := set j | 0 <= j < |s| && s[j] < 0;
      if s[m] < 0 {
        assert all == before + {m};
        assert m !in before;
      } else {
        assert all == before;
      }
    }
  }

  /** Only one root: all negative entries sit at the single position `r`. */
  lemma {:induction false} NumRootsSingle(s: seq<int>, r: nat)
    requires r < |s| && s[r] < 0
    requires forall j :: 0 <= j < |s| && s[j] < 0 ==> j == r
    ensures NumRoots(s) == 1
  {
    NumRootsIsCard(s);
    assert (set j | 0 <= j < |s| && s[j] < 0) == {r};
  }

  /** Each element of the identity labelling is its own singleton set. */
  lemma {:induction false} MembersIdentity(k: nat, r: nat)
    ensures Members(seq(k, i => i), r) == if r < k then 1 else 0
  {
    if k > 0 {
      assert seq(k, i => i)[..k - 1] == seq(k - 1, i => i);
      MembersIdentity(k - 1, r);
    }
  }

  /** Relabelling moves the members of `loser` to `winner` and nothing else. */
  lemma {:induction false} MembersRelabel(root: seq<nat>, loser: nat, winner: nat, r: nat)
    requires loser != winner
    ensures Members(Relabel(root, loser, winner), r)
         == if r == winner then Members(root, winner) + Members(root, loser)
            else if r == loser then 0
            else Members(root, r)
  {
    if root != [] {
      var m := |root| - 1;
      var t := Relabel(root, loser, winner);
      assert t[..m] == Relabel(root[..m], loser, winner);
      MembersRelabel(root[..m], loser, winner, r);
    }
  }

  /** The labelling that makes every element its own set. */
  function Identity(k: nat): (s: seq<nat>)
    ensures |s| == k && forall i :: 0 <= i < k ==> s[i] == i
  {
    seq(k, i => i)
  }

  /** Every representative is an element. */
  ghost predicate RootsInRange(s: seq<int>, root: seq<nat>)
  {
    |root| == |s| && forall i :: 0 <= i < |s| ==> root[i] < |s|
  }

  /** Representatives are roots (negative entries) of depth 0. */
  ghost predicate RootsAreRoots(s: seq<int>, root: seq<nat>, depth: seq<nat>)
    requires RootsInRange(s, root) && |depth| == |s|
  {
    forall i {:trigger s[root[i]]} :: 0 <= i < |s| ==> s[root[i]] < 0 && depth[root[i]] == 0
  }

  /** A root represents itself. */
  ghost predicate RootsSelf(s: seq<int>, root: seq<nat>)
    requires |root| == |s|
  {
    forall i :: 0 <= i < |s| && s[i] < 0 ==> root[i] == i
  }

  /** A parent link stays inside the set and strictly decreases the depth. */
  ghost predicate LinksDescend(s: seq<int>, root: seq<nat>, depth: seq<nat>)
    requires |root| == |s| && |depth| == |s|
  {
    forall i :: 0 <= i < |s| && s[i] >= 0 ==>
      s[i] < |s| && root[s[i]] == root[i] && depth[s[i]] < depth[i]
  }

  /** Each root stores minus the size of its set. */
  ghost predicate RootsWeighed(s: seq<int>, root: seq<nat>)
  {
    forall r {:trigger Members(root, r)} :: 0 <= r < |s| && s[r] < 0 ==> -s[r] == Members(root, r)
  }

  /** The forest invariant on the parent array `s`, with `root` the
      representative of each element and `depth` a ranking along parent links. */
  ghost predicate IsForest(s: seq<int>, root: seq<nat>, depth: seq<nat>)
  {
    && RootsInRange(s, root) && |depth| == |s|
    && RootsAreRoots(s, root, depth)
    && RootsSelf(s, root)
    && LinksDescend(s, root, depth)
    && RootsWeighed(s, root)
  }

  lemma InitialForest(k: nat)
    ensures IsForest(seq(k, _ => -1), Identity(k), seq(k, _ => 0))
  {
    forall r | 0 <= r < k
      ensures Members(Identity(k), r) == 1
    {
      MembersIdentity(k, r);
    }
  }

  /** Redirecting a non-root to its representative keeps the forest. */
  lemma CompressKeepsForest(s: seq<int>, root: seq<nat>, depth: seq<nat>, i: nat)
    requires IsForest(s, root, depth) && i < |s| && s[i] >= 0
    ensures IsForest(s[i := root[i]], root, depth)
    ensures NumRoots(s[i := root[i]]) == NumRoots(s)
  {
    var t := s[i := root[i]];
    NumRootsUpdate(s, i, root[i]);
    assert RootsAreRoots(t, root, depth) by {
      forall x | 0 <= x < |t| ensures t[root[x]] < 0 {
        assert root[x] != i;
      }
    }
    assert RootsSelf(t, root);
    assert LinksDescend(t, root, depth) by {
      assert s[root[i]] < 0;
      assert depth[root[i]] == 0 < depth[i] by {
        assert depth[s[i]] < depth[i];
      }
    }
    assert RootsWeighed(t, root) by {
      forall r | 0 <= r < |t| && t[r] < 0 ensures -t[r] == Members(root, r) {
        assert r != i;
      }
    }
  }

  /** Attaching root `loser` under root `winner`, with the loser's members
      relabelled and pushed one level down, keeps the forest. */
  lemma AttachKeepsForest(s: seq<int>, root: seq<nat>, depth: seq<nat>, loser: nat, winner: nat)
    requires IsForest(s, root, depth)
    requires loser < |s| && winner < |s| && loser != winner && s[loser] < 0 && s[winner] < 0
    ensures IsForest(s[loser := winner][winner := s[winner] + s[loser]],
                     Relabel(root, loser, winner),
                     Deepen(root, depth, loser))
    ensures NumRoots(s[loser := winner][winner := s[winner] + s[loser]]) == NumRoots(s) - 1
  {
    AttachRoots(s, root, depth, loser, winner);
    AttachLinks(s, root, depth, loser, winner);
    AttachWeights(s, root, depth, loser, winner);
    AttachCount(s, loser, winner);
  }

  lemma AttachCount(s: seq<int>, loser: nat, winner: nat)
    requires loser < |s| && winner < |s| && loser != winner && s[loser] < 0 && s[winner] < 0
    ensures NumRoots(s[loser := winner][winner := s[winner] + s[loser]]) == NumRoots(s) - 1
  {
    NumRootsUpdate(s, loser, winner);
    NumRootsUpdate(s[loser := winner], winner, s[winner] + s[loser]);
  }

  lemma AttachWeights(s: seq<int>, root: seq<nat>, depth: seq<nat>, loser: nat, winner: nat)
    requires IsForest(s, root, depth)
    requires loser < |s| && winner < |s| && loser != winner && s[loser] < 0 && s[winner] < 0
    ensures RootsWeighed(s[loser := winner][winner := s[winner] + s[loser]], Relabel(root, loser, winner))
  {
    var t := s[loser := winner][winner := s[winner] + s[loser]];
    var root' := Relabel(root, loser, winner);
    forall r | 0 <= r < |t| && t[r] < 0
      ensures -t[r] == Members(root', r)
    {
      MembersRelabel(root, loser, winner, r);
    }
  }

  lemma AttachRoots(s: seq<int>, root: seq<nat>, depth: seq<nat>, loser: nat, winner: nat)
    requires IsForest(s, root, depth)
    requires loser < |s| && winner < |s| && loser != winner && s[loser] < 0 && s[winner] < 0
    ensures var t := s[loser := winner][winner := s[winner] + s[loser]];
            var root' := Relabel(root, loser, winner);
            && RootsInRange(t, root')
            && RootsAreRoots(t, root', Deepen(root, depth, loser))
            && RootsSelf(t, root')
  {
    var t := s[loser := winner][winner := s[winner] + s[loser]];
    var root' := Relabel(root, loser, winner);
    var depth' := Deepen(root, depth, loser);
    assert root[loser] == loser && root[winner] == winner;
    forall x | 0 <= x < |t|
      ensures t[root'[x]] < 0 && depth'[root'[x]] == 0
    {
      var r := root[x];
      assert s[r] < 0 && depth[r] == 0 && root[r] == r;
    }
    forall x | 0 <= x < |t| && t[x] < 0
      ensures root'[x] == x
    {
      assert s[x] < 0;
    }
  }

  lemma AttachLinks(s: seq<int>, root: seq<nat>, depth: seq<nat>, loser: nat, winner: nat)
    requires IsForest(s, root, depth)
    requires loser < |s| && winner < |s| && loser != winner && s[loser] < 0 && s[winner] < 0
    ensures LinksDescend(s[loser := winner][winner := s[winner] + s[loser]],
                         Relabel(root, loser, winner), Deepen(root, depth, loser))
  {
    var t := s[loser := winner][winner := s[winner] + s[loser]];
    var root' := Relabel(root, loser, winner);
    var depth' := Deepen(root, depth, loser);
    assert root[loser] == loser && root[winner] == winner && depth[winner] == 0;
    forall x | 0 <= x < |t| && t[x] >= 0
      ensures t[x] < |t| && root'[t[x]] == root'[x] && depth'[t[x]] < depth'[x]
    {
      if x != loser {
        assert s[x] >= 0 && t[x] == s[x];
        assert root[s[x]] == root[x] && depth[s[x]] < depth[x];
      }
    }
  }

  /** The depth bound after a union: the loser's members move one level down. */
  function Deepen(root: seq<nat>, depth: seq<nat>, loser: nat): (d: seq<nat>)
    requires |depth| == |root|
    ensures |d| == |depth|
    ensures forall x :: 0 <= x < |depth| ==> d[x] == if root[x] == loser then depth[x] + 1 else depth[x]
  {
    seq(|depth|, x requires 0 <= x < |depth| => if root[x] == loser then depth[x] + 1 else depth[x])
  }

  /** The negative entries are exactly the distinct representatives. */
  lemma RootsAreRepresentatives(s: seq<int>, root: seq<nat>, depth: seq<nat>)
    requires IsForest(s, root, depth)
    ensures NumRoots(s) == |set i | 0 <= i < |s| :: root[i]|
  {
    NumRootsIsCard(s);
    var neg := set j | 0 <= j < |s| && s[j] < 0;
    var reps := set i | 0 <= i < |s| :: root[i];
    forall j | j in neg ensures j in reps {
      assert root[j] == j;
    }
    forall r | r in reps ensures r in neg {
      var i :| 0 <= i < |s| && root[i] == r;
    }
    assert neg == reps;
  }

  class DisjointSet {
    const n: nat
    const cellParent: array<int>
    /** The representative of each element, as `find` would return it. */
    ghost var root: seq<nat>
    /** Distance bound to the root; strictly decreasing along parent links. */
    ghost var depth: seq<nat>

    ghost predicate Valid()
      reads this, cellParent
    {
      cellParent.Length == n && IsForest(cellParent[..], root, depth)
    }

    /** Number of disjoint sets: the distinct representatives. */
    ghost function SetCount(): nat
      reads this, cellParent
    {
      NumRoots(cellParent[..])
    }

    /** `new DisjointSet(k)` for k > 0: k singleton sets. */
    constructor (k: nat)
      requires k > 0
      ensures Valid() && n == k && fresh(cellParent)
      ensures forall i :: 0 <= i < k ==> cellParent[i] == -1 && root[i] == i
      ensures SetCount() == k
    {
      n := k;
      cellParent := new int[k];
      root := Identity(k);
      depth := seq(k, _ => 0);
      new;
      for i := 0 to k
        invariant root == Identity(k) && depth == seq(k, _ => 0)
        invariant forall j :: 0 <= j < i ==> cellParent[j] == -1
      {
        cellParent[i] := -1;
      }
      assert cellParent[..] == seq(k, _ => -1);
      InitialForest(k);
      NumRootsAllSingletons(k);
    }

    /** The constructor's argument check: a non-positive size is rejected. */
    static method Create(k: int) returns (res: Result<DisjointSet>)
      ensures k <= 0 <==> res == Err(IllegalArgument)
      ensures res.Ok? ==>
                fresh(res.value) && res.value.Valid() && res.value.n == k && res.value.SetCount() == k
    {
      if k <= 0 {
        return Err(IllegalArgument);
      }
      var ds := new DisjointSet(k);
      return Ok(ds);
    }

    /** `getUnsetParentCellCount`: counts the negative entries, which is the
        number of disjoint sets. */
    method GetUnsetParentCellCount() returns (count: nat)
      requires Valid()
      ensures count == SetCount()
      ensures count == |set i | 0 <= i < n :: root[i]|
    {
      count := 0;
      for i := 0 to cellParent.Length
        invariant count == NumRoots(cellParent[..i])
      {
        assert cellParent[..i + 1][..i] == cellParent[..i];
        if cellParent[i] < 0 {
          count := count + 1;
        }
      }
      assert cellParent[..cellParent.Length] == cellParent[..];
      RootsAreRepresentatives(cellParent[..], root, depth);
    }

    /** A compiled view of the representative, following parent links. */
    function Root(i: nat): (r: nat)
      reads this, cellParent
      requires Valid() && i < n
      ensures r == root[i]
      decreases depth[i]
    {
      if cellParent[i] < 0 then i else Root(cellParent[i] as nat)
    }

    /** `find`: returns the root of `i`'s set and redirects the visited
        parents to that root (path compression). */
    method Find(i: nat) returns (r: nat)
      requires Valid() && i < n
      modifies cellParent
      ensures Valid()
      ensures r == root[i] && r < n && cellParent[r] < 0 && root[r] == r
      ensures forall j :: 0 <= j < n ==>
                (cellParent[j] == old(cellParent[j]) || (old(cellParent[j]) >= 0 && cellParent[j] == root[j]))
      ensures SetCount() == old(SetCount())
      decreases depth[i]
    {
      if cellParent[i] < 0 {
        return i;
      }
      var p := Find(cellParent[i] as nat);
      CompressKeepsForest(cellParent[..], root, depth, i);
      cellParent[i] := p;
      r := cellParent[i];
    }

    /** `combine`: on elements of different sets the root of the strictly
        larger set (the more negative entry) is attached under the other root,
        the weights are summed at the surviving root, and the set count drops
        by one.  Elements already in one set are left in it: the source has
        no such guard and corrupts the forest instead (CombineAsWritten); its
        only caller, Kruskal's loop, never combines elements of one set. */
    method Combine(leftCell: nat, rightCell: nat)
      requires Valid() && leftCell < n && rightCell < n
      modifies this, cellParent
      ensures Valid()
      ensures old(root[leftCell]) == old(root[rightCell]) ==>
                root == old(root) && SetCount() == old(SetCount())
      ensures old(root[leftCell]) != old(root[rightCell]) ==>
              var a, b := old(root[leftCell]), old(root[rightCell]);
              var winner := if old(cellParent[a] < cellParent[b]) then b else a;
              var loser := if winner == a then b else a;
              && root == Relabel(old(root), loser, winner)
              && cellParent[winner] == old(cellParent[a] + cellParent[b])
              && SetCount() == old(SetCount()) - 1
    {
      var leftRootCell := Find(leftCell);
      var rightRootCell := Find(rightCell);
      if leftRootCell == rightRootCell {
        return;
      }
      var leftWeight := cellParent[leftRootCell];
      var rightWeight := cellParent[rightRootCell];
      if leftWeight < rightWeight {
        Link(leftRootCell, rightRootCell);
      } else {
        Link(rightRootCell, leftRootCell);
      }
    }

    /** One branch of `combine`: root `loser` becomes a child of root
        `winner`, which then holds the combined weight. */
    method Link(loser: nat, winner: nat)
      requires Valid() && loser < n && winner < n && loser != winner
      requires cellParent[loser] < 0 && cellParent[winner] < 0
      modifies this, cellParent
      ensures Valid()
      ensures root == Relabel(old(root), loser, winner)
      ensures cellParent[winner] == old(cellParent[winner] + cellParent[loser])
      ensures SetCount() == old(SetCount()) - 1
    {
      ghost var s := cellParent[..];
      var loserWeight := cellParent[loser];
      cellParent[loser] := winner;
      cellParent[winner] := cellParent[winner] + loserWeight;
      assert cellParent[..] == s[loser := winner][winner := s[winner] + s[loser]];
      AttachKeepsForest(s, root, depth, loser, winner);
      depth := Deepen(root, depth, loser);
      root := Relabel(root, loser, winner);
    }

  }

  /** k singletons are k roots. */
  lemma {:induction false} NumRootsAllSingletons(k: nat)
    ensures NumRoots(seq(k, _ => -1)) == k
  {
    if k > 0 {
      assert seq(k, _ => -1)[..k - 1] == seq(k - 1, _ => -1);
      NumRootsAllSingletons(k - 1);
    }
  }

  /** `combine` exactly as written (src/disjointset/DisjointSet.java:60-72),
      on the roots `l` and `r` that its two `find` calls returned, including
      the case `l == r` that its only caller never produces. */
  function CombineAsWritten(s: seq<int>, l: nat, r: nat): (t: seq<int>)
    requires l < |s| && r < |s|
    ensures |t| == |s|
  {
    var leftWeight := s[l];
    var rightWeight := s[r];
    if leftWeight < rightWeight then
      var s1 := s[l := r];
      s1[r := s1[r] + leftWeight]
    else
      var s1 := s[r := l];
      s1[l := s1[l] + rightWeight]
  }

  /** As written, combining an element with its own root is not a no-op:
      two singletons `{0}` and `{1}` end up in one set. */
  lemma CombineAsWrittenSameRootMerges()
    ensures CombineAsWritten([-1, -1], 1, 1) == [-1, 0]
    ensures NumRoots(CombineAsWritten([-1, -1], 1, 1)) == 1
  {
    assert CombineAsWritten([-1, -1], 1, 1) == [-1, 0];
    assert [-1, 0][..1] == [-1];
  }
}
