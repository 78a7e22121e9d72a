/** `factorial` (src/main.go:179-187), computed in Go's `int64` with wrap-around. */
module Factorial {

  const Int64Min: int := -0x8000_0000_0000_0000
  const Int64Max: int := 0x7fff_ffff_ffff_ffff
  const Int64Modulus: int := 0x1_0000_0000_0000_0000

  predicate IsInt64(x: int) {
    Int64Min <= x <= Int64Max
  }

  /** Two's-complement truncation of an integer to `int64`, as Go's `*` does on overflow:
      the unique `int64` congruent to `x` modulo 2^64. */
  function WrapInt64(x: int): (r: int)
    ensures IsInt64(r)
    ensures (x - r) % Int64Modulus == 0
    ensures IsInt64(x) ==> r == x
  {
    (x - Int64Min) % Int64Modulus + Int64Min
  }

  /** The mathematical factorial, the reference `factorial` is measured against. */
  function Fact(n: nat): (r: nat)
    ensures r >= 1
  {
    if n == 0 then 1 else n * Fact(n - 1)
  }

  /** `factorial(n)` on `int64`: the sentinel -1 for a negative argument, 1 for zero, and
      otherwise `n * factorial(n - 1)` truncated to 64 bits. */
  function Factorial(n: int): (r: int)
    requires IsInt64(n)
    ensures IsInt64(r)
    ensures n < 0 ==> r == -1
    decreases n
  {
    if n < 0 then -1
    else if n == 0 then 1
    else WrapInt64(n * Factorial(n - 1))
  }

  /** For `n >= 0` the `int64` result is congruent to the true factorial modulo 2^64:
      wrap-around loses the high bits and nothing else. */
  lemma {:induction false} FactorialCongruent(n: int)
    requires 0 <= n <= Int64Max
    ensures (Fact(n) - Factorial(n)) % Int64Modulus == 0
    decreases n
  {
    if n > 0 {
      FactorialCongruent(n - 1);
      CongruenceStep(n, Fact(n - 1), Factorial(n - 1), Factorial(n));
    }
  }

  /** Multiplying by `n` keeps a congruence modulo 2^64, and wrapping the product keeps it too. */
  lemma CongruenceStep(n: int, f: int, p: int, r: int)
    requires (f - p) % Int64Modulus == 0
    requires (n * p - r) % Int64Modulus == 0
    ensures (n * f - r) % Int64Modulus == 0
  {
    var q := MultipleOfModulus(f - p);
    var w := MultipleOfModulus(n * p - r);
    assert n * f - r == (n * q + w) * Int64Modulus by {
      assert n * (f - p) == (n * q) * Int64Modulus;
    }
    ModulusDivides(n * q + w, n * f - r);
  }

  lemma MultipleOfModulus(d: int) returns (k: int)
    requires d % Int64Modulus == 0
    ensures d == k * Int64Modulus
  {
    k := d / Int64Modulus;
  }

  lemma ModulusDivides(k: int, d: int)
    requires d == k * Int64Modulus
    ensures d % Int64Modulus == 0
  {
  }

  /** The factorials the bounds below rest on, one multiplication at a time. */
  lemma FactTable()
    ensures Fact(15) == 1307674368000
    ensures Fact(20) == 2432902008176640000
    ensures Fact(21) == 51090942171709440000
  {
    assert Fact(1) == 1;
    assert Fact(2) == 2;
    assert Fact(3) == 6;
    assert Fact(4) == 24;
    assert Fact(5) == 120;
    assert Fact(6) == 720;
    assert Fact(7) == 5040;
    assert Fact(8) == 40320;
    assert Fact(9) == 362880;
    assert Fact(10) == 3628800;
    assert Fact(11) == 39916800;
    assert Fact(12) == 479001600;
    assert Fact(13) == 6227020800;
    assert Fact(14) == 87178291200;
    assert Fact(15) == 1307674368000;
    assert Fact(16) == 20922789888000;
    assert Fact(17) == 355687428096000;
    assert Fact(18) == 6402373705728000;
    assert Fact(19) == 121645100408832000;
    assert Fact(20) == 2432902008176640000;
    assert Fact(21) == 51090942171709440000;
  }

  lemma {:induction false} FactMonotone(m: nat, n: nat)
    requires m <= n
    ensures Fact(m) <= Fact(n)
    decreases n - m
  {
    if m < n {
      FactMonotone(m, n - 1);
    }
  }

  /** Up to 20 no product overflows: `factorial` is the true factorial, and so positive. */
  lemma {:induction false} FactorialExact(n: int)
    requires 0 <= n <= 20
    ensures Factorial(n) == Fact(n)
    ensures 0 < Factorial(n) <= Int64Max
    decreases n
  {
    FactTable();
    FactMonotone(n, 20);
    if n > 0 {
      FactorialExact(n - 1);
    }
  }

  /** The bound 20 is tight: at 21 the product wraps and `factorial` turns negative. */
  lemma FactorialWrapsAt21()
    ensures Fact(21) > Int64Max
    ensures Factorial(21) == -4249290049419214848
  {
    FactorialExact(20);
    FactTable();
    var f20 := Factorial(20);
    assert f20 == 2432902008176640000;
    assert Factorial(21) == WrapInt64(21 * f20);
    assert 21 * f20 == 51090942171709440000;
    WrapOf(51090942171709440000, 3, 4974081987435560960);
  }

  /** Wrapping `x` keeps its remainder modulo 2^64, shifted into the `int64` range. */
  lemma WrapOf(x: int, k: int, r: int)
    requires x - Int64Min == k * Int64Modulus + r && 0 <= r < Int64Modulus
    ensures WrapInt64(x) == r + Int64Min
  {
  }

  /** The call made for the estimated-time line, `factorial(int64(arraySize))` with
      `arraySize = 15`, is exact: 15! = 1307674368000. */
  lemma FactorialOfArraySize()
    ensures Factorial(15) == 1307674368000
  {
    FactorialExact(15);
    FactTable();
  }
}
