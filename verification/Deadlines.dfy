/** The wall clock, as far as the searches see it. */
module Deadlines {
  /** The clock as a monotone oracle: the deadline is seen as passed from tick `at` on;
      a negative `at` is no deadline. */
  class Deadline {
    const at: int
    var ticks: nat

    constructor (at: int)
      ensures this.at == at && ticks == 0
    {
      this.at := at;
      ticks := 0;
    }

    /** Some read has seen the deadline passed. */
    ghost predicate Cut()
      reads this
    {
      0 <= at < ticks
    }

    method Passed() returns (b: bool)
      modifies this
      ensures ticks == old(ticks) + 1 && b == (0 <= at <= old(ticks))
    {
      b := 0 <= at <= ticks;
      ticks := ticks + 1;
    }
  }
}
