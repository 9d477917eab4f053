/** A player: a fixed start point, index and arrow supply, a current
    position, the number of arrows used, and whether the player is alive. */
module Players {
  import opened Faults
  import opened MazePoints

  /** The part of a player that arrow accounting changes. */
  datatype ArrowState = ArrowState(alive: bool, used: int)

  const ArrowsExpired: string := "Player is killed since arrows have expired"

  /** `reduceArrowCount` on values: a dead player cannot shoot; otherwise one
      more arrow is used, and using the last one kills the player. */
  function Reduce(s: ArrowState, total: int): (r: (ArrowState, Outcome))
    ensures !s.alive ==> r == (s, Fail(UnsupportedOperation))
    ensures s.alive ==> r.0.used == s.used + 1
    ensures s.alive ==> (r.1.Pass? <==> s.used + 1 < total) && (r.1.Pass? <==> r.0.alive)
    ensures s.alive && s.used + 1 >= total ==> r.1 == Fail(PlayerKilled(ArrowsExpired))
  {
    if !s.alive then (s, Fail(UnsupportedOperation))
    else if s.used + 1 >= total then (ArrowState(false, s.used + 1), Fail(PlayerKilled(ArrowsExpired)))
    else (ArrowState(true, s.used + 1), Pass)
  }

  /** The state after `k` reductions. */
  function ReduceTimes(s: ArrowState, total: int, k: nat): ArrowState
    decreases k
  {
    if k == 0 then s else ReduceTimes(Reduce(s, total).0, total, k - 1)
  }

  /** A fresh player with n arrows survives n-1 misses, each reduction
      passing, and the n-th miss kills it. */
  lemma {:induction false} ArrowsLastExactly(total: nat, k: nat)
    requires k < total
    ensures ReduceTimes(ArrowState(true, 0), total, k) == ArrowState(true, k)
    ensures k + 1 < total ==> Reduce(ArrowState(true, k), total).1 == Pass
    ensures k + 1 == total ==> Reduce(ArrowState(true, k), total)
                               == (ArrowState(false, total), Fail(PlayerKilled(ArrowsExpired)))
    decreases k
  {
    if k > 0 {
      ArrowsLastExactly(total, k - 1);
      ReduceTimesSnoc(ArrowState(true, 0), total, k - 1);
    }
  }

  lemma {:induction false} ReduceTimesSnoc(s: ArrowState, total: int, k: nat)
    ensures ReduceTimes(s, total, k + 1) == Reduce(ReduceTimes(s, total, k), total).0
    decreases k
  {
    if k > 0 {
      ReduceTimesSnoc(Reduce(s, total).0, total, k - 1);
    }
  }

  /** Death is permanent under any number of reductions. */
  lemma {:induction false} DeadStaysDead(s: ArrowState, total: int, k: nat)
    requires !s.alive
    ensures ReduceTimes(s, total, k) == s
    decreases k
  {
    if k > 0 {
      DeadStaysDead(s, total, k - 1);
    }
  }

  /** A living player always has arrows left, and reductions keep it so. */
  lemma ReduceKeepsBound(s: ArrowState, total: int)
    requires s.alive ==> 0 <= s.used < total
    requires 0 <= s.used
    ensures var t := Reduce(s, total).0; 0 <= t.used && (t.alive ==> t.used < total)
  {
  }

  class MazePlayer {
    const start: MazePoint
    const index: int
    const totalArrows: int
    var position: MazePoint
    var usedArrows: int
    var alive: bool

    ghost predicate Valid()
      reads this
    {
      && start.x >= 0 && start.y >= 0 && totalArrows > 0 && index >= 0
      && 0 <= usedArrows && (alive ==> usedArrows < totalArrows)
    }

    function Arrows(): ArrowState
      reads this
    {
      ArrowState(alive, usedArrows)
    }

    constructor (startX: int, startY: int, arrowCount: int, playerIndex: int)
      requires startX >= 0 && startY >= 0 && arrowCount > 0 && playerIndex >= 0
      ensures Valid()
      ensures start == MazePoint(startX, startY) && position == start
      ensures totalArrows == arrowCount && index == playerIndex
      ensures alive && usedArrows == 0
    {
      start := MazePoint(startX, startY);
      position := MazePoint(startX, startY);
      totalArrows := arrowCount;
      usedArrows := 0;
      alive := true;
      index := playerIndex;
    }

    /** The constructor's argument checks. */
    static method Create(startX: int, startY: int, arrowCount: int, playerIndex: int)
      returns (r: Result<MazePlayer>)
      ensures r.Err? <==> startX < 0 || startY < 0 || arrowCount <= 0 || playerIndex < 0
      ensures r.Err? ==> r.fault == IllegalArgument
      ensures r.Ok? ==> fresh(r.value) && r.value.Valid() && r.value.alive
                        && r.value.usedArrows == 0 && r.value.index == playerIndex
                        && r.value.start == MazePoint(startX, startY) == r.value.position
                        && r.value.totalArrows == arrowCount
    {
      if startX < 0 || startY < 0 || arrowCount <= 0 || playerIndex < 0 {
        return Err(IllegalArgument);
      }
      var p := new MazePlayer(startX, startY, arrowCount, playerIndex);
      return Ok(p);
    }

    method MarkPlayerDead()
      modifies this
      ensures !alive && position == old(position) && usedArrows == old(usedArrows)
      ensures old(Valid()) ==> Valid()
    {
      alive := false;
    }

    /** `reduceArrowCount`, following `Reduce`. */
    method ReduceArrowCount() returns (o: Outcome)
      modifies this
      ensures (Arrows(), o) == Reduce(old(Arrows()), totalArrows)
      ensures position == old(position)
      ensures old(Valid()) ==> Valid()
    {
      if !alive {
        return Fail(UnsupportedOperation);
      }
      usedArrows := usedArrows + 1;
      if usedArrows >= totalArrows {
        MarkPlayerDead();
        return Fail(PlayerKilled(ArrowsExpired));
      }
      return Pass;
    }

    /** `setNewPosition`: refused for a dead player. */
    method SetNewPosition(p: MazePoint) returns (o: Outcome)
      modifies this
      ensures old(alive) <==> o.Pass?
      ensures o.Pass? ==> position == p
      ensures o.Fail? ==> o.fault == UnsupportedOperation && position == old(position)
      ensures alive == old(alive) && usedArrows == old(usedArrows)
    {
      if !alive {
        return Fail(UnsupportedOperation);
      }
      position := p;
      return Pass;
    }
  }
}
