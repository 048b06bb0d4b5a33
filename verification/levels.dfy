/** Node heights: the fixed cap and the bounded level generator. */
module Levels {

  /** Number of forward links of the header, and the largest node height. */
  const MaxLevel := 32

  /** The level generator. Each evaluation of the loop guard consumes one
      random draw; `draw(n)` is whether the n-th draw succeeded (in the Go
      code: whether `rand.Float32() < 0.25`). The draw happens before the cap
      is tested, so the loop stops at MaxLevel whatever the draw said.
      The result is 1 plus the number of leading successful draws, capped. */
  method RandomLevel(draw: nat -> bool) returns (level: int)
    ensures 1 <= level <= MaxLevel
    ensures forall n :: 0 <= n < level - 1 ==> draw(n)
    ensures level < MaxLevel ==> !draw(level - 1)
  {
    level := 1;
    while draw(level - 1) && level < MaxLevel
      invariant 1 <= level <= MaxLevel
      invariant forall n :: 0 <= n < level - 1 ==> draw(n)
    {
      level := level + 1;
    }
  }
}
