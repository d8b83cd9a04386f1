/** The few pieces of JavaScript number and string semantics the library relies on,
    written out over unbounded integers and reals. */
module Js {

  /** JavaScript's `%` on integers: the remainder of division truncated toward zero,
      so it takes the sign of the dividend (`-3 % 2 == -1`). */
  function Rem(a: int, b: int): (r: int)
    requires b != 0
    ensures (a - r) % (if b < 0 then -b else b) == 0
    ensures a >= 0 ==> 0 <= r < (if b < 0 then -b else b)
    ensures a < 0 ==> -(if b < 0 then -b else b) < r <= 0
  {
    var m := if b < 0 then -b else b;
    if a >= 0 then
      MultipleHasZeroMod(a - a % m, m, a / m);
      a % m
    else
      MultipleHasZeroMod(a + (-a) % m, m, -((-a) / m));
      -((-a) % m)
  }

  /** A multiple of `b` lying in `[0, b)` is zero. */
  lemma MultipleBelowIsZero(b: int, m: int)
    requires b > 0
    requires 0 <= b * m < b
    ensures m == 0
  {
  }

  /** Every exact multiple of `b` leaves Euclidean remainder zero. */
  lemma MultipleHasZeroMod(x: int, b: int, k: int)
    requires b > 0
    requires x == b * k
    ensures x % b == 0
  {
    var q, r := x / b, x % b;
    assert x == b * q + r;
    assert b * (k - q) == r;
    MultipleBelowIsZero(b, k - q);
  }

  /** Adding the divisor adds one to the floor quotient. */
  lemma DivAddDivisor(x: int, d: int)
    requires d > 0
    ensures (x + d) / d == x / d + 1
  {
    var q, r := x / d, x % d;
    var q2, r2 := (x + d) / d, (x + d) % d;
    assert x + d == d * (q + 1) + r;
    assert x + d == d * q2 + r2;
    assert d * (q2 - q - 1) == r - r2;
    MultipleBelowIsZero(d, q2 - q - 1);
  }

  /** Adding a multiple of the divisor leaves the Euclidean remainder alone. */
  lemma ModAddMultiple(x: int, d: int, k: int)
    requires d > 0
    ensures (x + d * k) % d == x % d
  {
    DivUnique(x + d * k, d, x / d + k, x % d);
  }

  /** Euclidean division is unique: a decomposition with remainder in `[0, d)` is it. */
  lemma DivUnique(x: int, d: int, q: int, r: int)
    requires d > 0
    requires x == d * q + r && 0 <= r < d
    ensures x / d == q && x % d == r
  {
    var q2, r2 := x / d, x % d;
    assert x == d * q2 + r2;
    if r >= r2 {
      assert d * (q - q2) == r2 - r || d * (q2 - q) == r - r2;
      MultipleBelowIsZero(d, q2 - q);
    } else {
      assert d * (q - q2) == r2 - r;
      MultipleBelowIsZero(d, q - q2);
    }
  }

  /** `Rem` is zero exactly when `b` divides `a`, whatever the sign of `a`. */
  lemma RemZeroIffDivides(a: int, b: int)
    requires b > 0
    ensures Rem(a, b) == 0 <==> a % b == 0
  {
    if a < 0 {
      if (-a) % b == 0 {
        var q := (-a) / b;
        assert -a == b * q;
        MultipleHasZeroMod(a, b, -q);
      }
      if a % b == 0 {
        var q := a / b;
        assert a == b * q;
        MultipleHasZeroMod(-a, b, -q);
      }
    }
  }

  /** The remainder has the sign of the dividend and is smaller than the divisor in magnitude. */
  lemma RemBounds(a: int, b: int)
    requires b > 0
    ensures a >= 0 ==> 0 <= Rem(a, b) < b
    ensures a < 0 ==> -b < Rem(a, b) <= 0
  {
  }

  /** `Math.floor(u * n)` for a draw `u` of `Math.random()`: always an index below `n`. */
  function PickIndex(u: real, n: nat): (j: nat)
    requires IsDraw(u)
    requires n > 0
    ensures j < n
  {
    ScaledBelow(u, n);
    (u * n as real).Floor
  }

  /** The draw scaled by `n` lies in `[0, n)`. */
  lemma ScaledBelow(u: real, n: nat)
    requires 0.0 <= u < 1.0
    requires n > 0
    ensures 0.0 <= u * n as real < n as real
  {
    var N := n as real;
    assert N - u * N == (1.0 - u) * N;
    assert (1.0 - u) * N > 0.0;
  }

  /** A draw in the range `Math.random()` produces. */
  ghost predicate IsDraw(u: real)
  {
    0.0 <= u < 1.0
  }

  /** The end index `String.prototype.slice(0, end)` actually uses on a string of length `len`:
      a negative end counts from the back, and the result is clamped to `[0, len]`. */
  function SliceEnd(end: int, len: nat): (e: nat)
    ensures e <= len
    ensures 0 <= end <= len ==> e == end
    ensures end < 0 && len + end >= 0 ==> e == len + end
  {
    if end < 0 then (if len + end < 0 then 0 else len + end)
    else if end > len then len
    else end
  }
}
