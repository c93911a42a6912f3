/**
 * The pseudo-random choices of the program. Which number the generator
 * yields is not modelled: each draw is an arbitrary value in its range,
 * and every property proved holds whatever the draws are.
 */
module Randoms {
  import opened Positions

  /** `Random.nextInt(bound)`: some number in `0 .. bound - 1`. */
  method NextInt(bound: int) returns (n: int)
    requires bound > 0
    ensures 0 <= n < bound
  {
    n :| 0 <= n < bound;
  }

  /** The seven cells `getRandomEmptyPosition` draws at most: a first one and six retries. */
  method DrawPositions() returns (draws: seq<Position>)
    ensures |draws| == 7
  {
    draws := [];
    while |draws| < 7
      invariant |draws| <= 7
    {
      var row := NextInt(9);
      var column := NextInt(9);
      draws := draws + [SudokuPosition(row, column)];
    }
  }
}
