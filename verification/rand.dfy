/** The random source the program draws from, modelled as an oracle. */
module Rand {
  import Config

  /** Go's `rand.Intn(n)`: some integer in `[0, n)`, which one is not known to the caller.
      The body is a nondeterministic choice, so every property of a caller holds for every
      answer the generator could give. `rand.Intn` panics for `n <= 0`; that is the requires. */
  method Intn(n: int) returns (r: int)
    requires n > 0
    ensures 0 <= r < n
  {
    r :| 0 <= r < n;
  }

  /** `myRand(min, max)`: a value of the closed range `[min, max]`, obtained by shifting an
      answer of `rand.Intn(max - min + 1)` by `min`. */
  method MyRand(min: int, max: int) returns (r: int)
    requires min <= max
    ensures min <= r <= max
  {
    var d := Intn(max - min + 1);
    r := d + min;
  }
}
