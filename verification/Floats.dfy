/** IEEE single precision, as far as the program uses it: correctly rounded positive results. */
module Floats {

  /** 2^23 and 2^24: a significand in this range has spacing one. */
  const LOW: real := 8388608.0
  const HIGH: real := 16777216.0

  /** To the nearest integer, ties to even. */
  function RoundEven(x: real): int {
    var f := x.Floor;
    var d := x - f as real;
    if d < 0.5 || (d == 0.5 && f % 2 == 0) then f else f + 1
  }

  /** It is nearest, and even when there are two. */
  lemma Nearest(x: real)
    ensures -0.5 <= RoundEven(x) as real - x <= 0.5
    ensures RoundEven(x) as real - x in {-0.5, 0.5} ==> RoundEven(x) % 2 == 0
  {
  }

  /** A positive number rounded to a 24-bit significand; off by at most one part in 2^24. What is
      below 1/16 does not occur, and is left alone. */
  function Single(x: real): (r: real)
    requires x >= 0.0
    decreases if x >= HIGH then x else if x < LOW then 16.0 * (LOW - x) + 1.0 else 0.0
    ensures 0.0 <= r && HIGH * (r - x) <= x && HIGH * (x - r) <= x
  {
    if x < 0.0625 then x
    else if x >= HIGH then 2.0 * Single(x / 2.0)
    else if x < LOW then Single(2.0 * x) / 2.0
    else RoundEven(x) as real
  }

  lemma {:induction false} SingleOfNat(n: nat)
    requires 0 < n && n as real < HIGH
    ensures Single(n as real) == n as real
    decreases 0x100_0000 - n
  {
    if n as real < LOW {
      SingleOfNat(2 * n);
      assert (2 * n) as real == 2.0 * n as real;
    }
  }

  /** Small multiples of one eighth are represented exactly. */
  lemma SingleExact(n: nat, x: real)
    requires 0 < n && n as real < HIGH && 8.0 * x == n as real
    ensures Single(x) == x
  {
    SingleOfNat(n);
    assert Single(4.0 * x) == 4.0 * x;
    assert Single(2.0 * x) == 2.0 * x;
  }

  lemma SingleHalf(n: nat, x: real)
    requires 0 < n && n as real < HIGH && 2.0 * x == n as real
    ensures Single(x) == x
  {
    SingleOfNat(n);
  }

  /** x / c * w, each operation rounded to single precision. */
  function Scaled(x: real, c: real, w: real): real
    requires x >= 0.0 && c > 0.0 && w > 0.0
  {
    Single(Single(Single(x) / c) * w)
  }

  lemma Scaled40(m: nat, x: real)
    requires 0 < m && x == (5 * m) as real < HIGH
    ensures Scaled(x, 40.0, 5.0) == x / 8.0
  {
    SingleOfNat(5 * m);
    SingleExact(m, x / 40.0);
    SingleExact(5 * m, x / 8.0);
  }

  lemma Scaled24(m: nat, x: real)
    requires 0 < m && x == (6 * m) as real < HIGH
    ensures Scaled(x, 24.0, 6.0) == x / 4.0
  {
    SingleOfNat(6 * m);
    SingleExact(2 * m, x / 24.0);
    SingleHalf(3 * m, x / 4.0);
  }

  /** The rounding cannot eat up a factor of two. */
  lemma Scaled24Near(x: real)
    requires x >= 0.0
    ensures Scaled(x, 24.0, 6.0) >= x / 8.0
  {
    var a := Single(x);
    var q := Single(a / 24.0);
    assert a >= 0.9 * x && q >= 0.9 * (a / 24.0);
  }

  lemma Scaled40Low()
    ensures Scaled(83886105.0, 40.0, 5.0) == 10485762.0
  {
    var (x, y, z) := (83886105.0, 2097152.6, 10485762.5);
    assert Single(x) == 83886104.0 by {
      assert Single(x / 8.0) == 10485763.0;
      assert Single(x / 4.0) == 20971526.0;
      assert Single(x / 2.0) == 41943052.0;
    }
    assert Single(y) == 2097152.5 by {
      assert Single(4.0 * y) == 8388610.0;
      assert Single(2.0 * y) == 4194305.0;
    }
    assert Single(z) == 10485762.0;
  }
}
