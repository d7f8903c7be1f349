/** The `random` module, injected: a fixed stream of raw draws, consumed one
    `randint` call at a time, so that a run can be replayed. */
module Rand {

  class Random {
    const stream: nat -> int
    var drawn: nat

    constructor (stream: nat -> int)
      ensures this.stream == stream && drawn == 0
    {
      this.stream := stream;
      drawn := 0;
    }

    /** `random.randint(lo, hi)`: a value in the closed range [lo, hi]; Python
        raises `ValueError` on an empty range, which no caller here produces. */
    method RandInt(lo: int, hi: int) returns (r: int)
      requires lo <= hi
      modifies this
      ensures lo <= r <= hi
      ensures drawn == old(drawn) + 1
    {
      r := lo + stream(drawn) % (hi - lo + 1);
      drawn := drawn + 1;
    }
  }
}
