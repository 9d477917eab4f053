/** `java.util.Random` as the maze's movement generator uses it: a stream
    of draws fixed in advance, each `nextInt(bound)` taking the next one. */
module Generators {
  import opened Faults

  class Generator {
    /** Every draw the generator will ever give, in order. */
    const stream: seq<nat>
    /** How many draws `nextInt` has taken so far. */
    var used: nat

    constructor (draws: seq<nat>)
      ensures stream == draws && used == 0
    {
      stream := draws;
      used := 0;
    }

    /** `nextInt(bound)`: a bound below one is refused; otherwise the next
        draw, reduced below the bound, is taken.  Running out of draws
        stands for a run of the program longer than the stream supplied. */
    method NextInt(bound: int) returns (r: Result<nat>)
      modifies this
      ensures bound <= 0 ==> r == Err(IllegalArgument) && used == old(used)
      ensures bound > 0 && old(used) >= |stream| ==> r == Err(DrawsExhausted) && used == old(used)
      ensures bound > 0 && old(used) < |stream| ==>
                r == Ok(stream[old(used)] % bound) && used == old(used) + 1
      ensures r.Ok? ==> r.value < bound
    {
      if bound <= 0 {
        return Err(IllegalArgument);
      }
      if used >= |stream| {
        return Err(DrawsExhausted);
      }
      r := Ok(stream[used] % bound);
      used := used + 1;
    }
  }
}
