/** The numeric helpers of `src/math.ts`. JavaScript numbers are modelled as
    unbounded integers, and as reals where a division produces a fraction. */
module Numbers {
  import opened Wrappers
  import Js

  function Add(a: int, b: int): int
  {
    a + b
  }

  function Subtract(a: int, b: int): int
  {
    a - b
  }

  function Multiply(a: int, b: int): int
  {
    a * b
  }

  /** Over unbounded integers subtraction undoes addition and a zero factor gives zero. */
  lemma AddSubtractRoundTrip(a: int, b: int)
    ensures Subtract(Add(a, b), b) == a
    ensures Add(Subtract(a, b), b) == a
    ensures Multiply(a, 0) == 0
  {
  }

  /** Multiplication is commutative and distributes over addition. */
  lemma MultiplyDistributes(a: int, b: int, c: int)
    ensures Multiply(a, Add(b, c)) == Add(Multiply(a, b), Multiply(a, c))
    ensures Multiply(a, b) == Multiply(b, a)
  {
  }

  /** The error `divide` throws. */
  datatype MathError = DivisionByZero

  /** `divide(a, b)`: throws exactly for a zero divisor, otherwise the quotient, which
      multiplied back by `b` gives `a`. */
  function Divide(a: real, b: real): (r: Result<real, MathError>)
    ensures r.Failure? <==> b == 0.0
    ensures r.Success? ==> r.value * b == a
  {
    if b == 0.0 then Failure(DivisionByZero) else Success(a / b)
  }

  /** `numbers.reduce((acc, n) => acc + n, 0)`: the left fold of `+` seeded with `acc`. */
  function FoldSum(acc: int, xs: seq<int>): int
    decreases |xs|
  {
    if |xs| == 0 then acc else FoldSum(acc + xs[0], xs[1..])
  }

  /** The mathematical sum, by structural recursion from the right. */
  function Total(xs: seq<int>): int
    decreases |xs|
  {
    if |xs| == 0 then 0 else Total(xs[..|xs| - 1]) + xs[|xs| - 1]
  }

  /** `sum(numbers)`: the fold from 0. */
  function Sum(xs: seq<int>): (r: int)
    ensures |xs| == 0 ==> r == 0
    ensures r == Total(xs)
  {
    FoldSumIsTotal(0, xs);
    FoldSum(0, xs)
  }

  /** The left fold adds the mathematical sum to its seed. */
  lemma {:induction false} FoldSumIsTotal(acc: int, xs: seq<int>)
    ensures FoldSum(acc, xs) == acc + Total(xs)
    decreases |xs|
  {
    if |xs| > 0 {
      FoldSumIsTotal(acc + xs[0], xs[1..]);
      TotalCons(xs[0], xs[1..]);
      assert xs == [xs[0]] + xs[1..];
    }
  }

  lemma {:induction false} TotalCons(x: int, xs: seq<int>)
    ensures Total([x] + xs) == x + Total(xs)
    decreases |xs|
  {
    if |xs| > 0 {
      var ys := [x] + xs;
      assert ys[..|ys| - 1] == [x] + xs[..|xs| - 1];
      TotalCons(x, xs[..|xs| - 1]);
    }
  }

  /** `sum` of a concatenation is the sum of the sums. */
  lemma {:induction false} SumAppend(a: seq<int>, b: seq<int>)
    ensures Sum(a + b) == Sum(a) + Sum(b)
    decreases |b|
  {
    if |b| == 0 {
      assert a + b == a;
    } else {
      var ab := a + b;
      assert ab[..|ab| - 1] == a + b[..|b| - 1];
      assert ab[|ab| - 1] == b[|b| - 1];
      SumAppend(a, b[..|b| - 1]);
    }
  }

  /** A sum of `n` values between `lo` and `hi` lies between `n * lo` and `n * hi`. */
  lemma {:induction false} SumBounds(xs: seq<int>, lo: int, hi: int)
    requires forall i :: 0 <= i < |xs| ==> lo <= xs[i] <= hi
    ensures |xs| * lo <= Sum(xs) <= |xs| * hi
    decreases |xs|
  {
    if |xs| > 0 {
      SumBounds(xs[..|xs| - 1], lo, hi);
      assert (|xs| - 1) * lo + lo == |xs| * lo;
      assert (|xs| - 1) * hi + hi == |xs| * hi;
    }
  }

  /** `average(numbers)`: 0 for the empty array, otherwise the sum over the length. */
  function Average(xs: seq<int>): (r: real)
    ensures |xs| == 0 ==> r == 0.0
    ensures |xs| > 0 ==> r * |xs| as real == Sum(xs) as real
    ensures |xs| == 1 ==> r == xs[0] as real
  {
    assert |xs| == 1 ==> xs[..0] == [] && Total(xs) == xs[0] && Sum(xs) == xs[0];
    if |xs| == 0 then 0.0 else Sum(xs) as real / |xs| as real
  }

  /** The average lies between any lower and upper bound of the values. */
  lemma AverageBounds(xs: seq<int>, lo: int, hi: int)
    requires |xs| > 0
    requires forall i :: 0 <= i < |xs| ==> lo <= xs[i] <= hi
    ensures lo as real <= Average(xs) <= hi as real
  {
    SumBounds(xs, lo, hi);
    var n := |xs| as real;
    var a := Average(xs);
    assert a * n == Sum(xs) as real;
    assert (|xs| * lo) as real == lo as real * n;
    assert (|xs| * hi) as real == hi as real * n;
    ScaleBack(lo as real, a, n);
    ScaleBack(a, hi as real, n);
  }

  /** Dividing both sides of `x * n <= y * n` by a positive `n`. */
  lemma ScaleBack(x: real, y: real, n: real)
    requires n > 0.0
    ensures x * n <= y * n ==> x <= y
  {
    if x > y {
      assert (x - y) * n > 0.0;
    }
  }

  /** `isEven`: `n % 2 === 0` with JavaScript's truncating remainder. */
  function IsEven(n: int): (r: bool)
    ensures r <==> n % 2 == 0
  {
    Js.RemZeroIffDivides(n, 2);
    Js.Rem(n, 2) == 0
  }

  /** `isOdd`: `n % 2 !== 0`; for negative odd `n` the remainder is -1, still non-zero. */
  function IsOdd(n: int): (r: bool)
    ensures r <==> n % 2 == 1
  {
    Js.RemZeroIffDivides(n, 2);
    Js.Rem(n, 2) != 0
  }

  /** Every integer is exactly one of even and odd, negative integers included, and
      evenness means divisibility by 2. */
  lemma ParityComplement(n: int)
    ensures IsEven(n) != IsOdd(n)
    ensures IsEven(n) <==> n % 2 == 0
    ensures IsEven(n) == IsEven(-n)
    ensures IsOdd(n) <==> IsEven(n + 1)
  {
    Js.RemZeroIffDivides(n, 2);
    Js.RemZeroIffDivides(-n, 2);
    Js.RemZeroIffDivides(n + 1, 2);
  }

  /** `clamp(value, min, max)` = `Math.min(Math.max(value, min), max)`. */
  function Clamp(value: int, min: int, max: int): (r: int)
    ensures r <= max
    ensures min <= max ==> min <= r <= max
    ensures min <= value <= max ==> r == value
    ensures value < min && min <= max ==> r == min
    ensures value > max ==> r == max
    ensures min > max ==> r == max
  {
    var lower := if value > min then value else min;
    if lower < max then lower else max
  }

  /** Clamping twice is clamping once when the range is well-formed. */
  lemma ClampIdempotent(value: int, min: int, max: int)
    requires min <= max
    ensures Clamp(Clamp(value, min, max), min, max) == Clamp(value, min, max)
  {
  }
}
