/** The helpers of `src/utils.ts`. Several of them do not do what their names and
    comments promise; each such helper is modelled as written (`...AsWritten`) next to
    the evidently intended definition, with the discrepancy stated as a lemma. Numbers are
    modelled as integers. */
module Utils {
  import opened Wrappers
  import opened Seqs
  import opened Ascii
  import Arrays
  import Decimal
  import Sorting
  import Strings

  // --------------------------------------------------------------- product

  /** The left fold `reduce((acc, n) => acc * n, acc)`. Once the accumulator is 0 it
      stays 0. */
  function FoldProduct(acc: int, xs: seq<int>): (r: int)
    ensures acc == 0 ==> r == 0
    decreases |xs|
  {
    if |xs| == 0 then acc else FoldProduct(acc * xs[0], xs[1..])
  }

  /** `product` as written: the fold is seeded with 0, so every result is 0. */
  function ProductAsWritten(numbers: seq<int>): (r: int)
    ensures r == 0
  {
    FoldProduct(0, numbers)
  }

  /** The product of all elements, 1 for the empty array: the fold seeded with 1. */
  function Product(numbers: seq<int>): (r: int)
    ensures |numbers| == 0 ==> r == 1
    ensures |numbers| == 1 ==> r == numbers[0]
  {
    assert |numbers| == 1 ==> FoldProduct(1, numbers) == FoldProduct(numbers[0], []);
    FoldProduct(1, numbers)
  }

  /** The seed of the fold factors out. */
  lemma {:induction false} FoldProductScales(acc: int, xs: seq<int>)
    ensures FoldProduct(acc, xs) == acc * Product(xs)
    decreases |xs|
  {
    if |xs| > 0 {
      var x, p := xs[0], Product(xs[1..]);
      FoldProductScales(acc * x, xs[1..]);
      FoldProductScales(x, xs[1..]);
      assert FoldProduct(acc, xs) == (acc * x) * p;
      assert Product(xs) == FoldProduct(1 * x, xs[1..]) == x * p;
      MulAssoc(acc, x, p);
    }
  }

  lemma MulAssoc(a: int, b: int, c: int)
    ensures (a * b) * c == a * (b * c)
  {
  }

  /** `Product` is multiplicative over concatenation; the empty product is 1 and a single
      element is its own product. */
  lemma {:induction false} ProductAppend(a: seq<int>, b: seq<int>)
    ensures Product(a + b) == Product(a) * Product(b)
    ensures Product([]) == 1
    decreases |a|
  {
    if |a| == 0 {
      assert a + b == b;
    } else {
      assert (a + b)[1..] == a[1..] + b;
      ProductAppend(a[1..], b);
      FoldProductScales(a[0], a[1..] + b);
      FoldProductScales(a[0], a[1..]);
    }
  }

  /** The product of one element is that element. */
  lemma ProductSingleton(x: int)
    ensures Product([x]) == x
  {
    assert [x][1..] == [];
    assert FoldProduct(1, [x]) == FoldProduct(x, []);
  }

  /** The product is 0 exactly when some element is 0. */
  lemma {:induction false} ProductZeroIff(xs: seq<int>)
    ensures Product(xs) == 0 <==> 0 in xs
    decreases |xs|
  {
    if |xs| > 0 {
      ProductZeroIff(xs[1..]);
      FoldProductScales(xs[0], xs[1..]);
      assert xs == [xs[0]] + xs[1..];
    }
  }

  /** `product([2, 3, 4])` is 0 as written and 24 as intended. */
  lemma ProductExample()
    ensures ProductAsWritten([2, 3, 4]) == 0
    ensures Product([2, 3, 4]) == 24
  {
    ProductSingleton(4);
    ProductAppend([3], [4]);
    ProductSingleton(3);
    assert [3] + [4] == [3, 4];
    ProductAppend([2], [3, 4]);
    ProductSingleton(2);
    assert [2] + [3, 4] == [2, 3, 4];
  }

  // --------------------------------------------------------------- findMax

  /** The loop of `findMax` as written: `max` is replaced by each element below it, so it
      ends as the least of `m` and `xs`. */
  function KeepSmaller(m: int, xs: seq<int>): (r: int)
    ensures r == m || r in xs
    ensures r <= m && forall x :: x in xs ==> r <= x
    decreases |xs|
  {
    if |xs| == 0 then m
    else
      assert xs == [xs[0]] + xs[1..];
      KeepSmaller(if xs[0] < m then xs[0] else m, xs[1..])
  }

  /** The intended loop: `max` is replaced by each element above it. */
  function KeepLarger(m: int, xs: seq<int>): (r: int)
    ensures r == m || r in xs
    ensures r >= m && forall x :: x in xs ==> r >= x
    decreases |xs|
  {
    if |xs| == 0 then m
    else
      assert xs == [xs[0]] + xs[1..];
      KeepLarger(if xs[0] > m then xs[0] else m, xs[1..])
  }

  /** `findMax` as written: `undefined` for an empty array, otherwise the MINIMUM. */
  function FindMaxAsWritten(numbers: seq<int>): (r: Option<int>)
    ensures r.None? <==> |numbers| == 0
    ensures r.Some? ==> r.value in numbers && forall x :: x in numbers ==> r.value <= x
  {
    if |numbers| == 0 then None
    else
      assert numbers == [numbers[0]] + numbers[1..];
      Some(KeepSmaller(numbers[0], numbers[1..]))
  }

  /** `findMax` as intended: `undefined` for an empty array, otherwise the maximum. */
  function FindMax(numbers: seq<int>): (r: Option<int>)
    ensures r.None? <==> |numbers| == 0
    ensures r.Some? ==> r.value in numbers && forall x :: x in numbers ==> r.value >= x
  {
    if |numbers| == 0 then None
    else
      assert numbers == [numbers[0]] + numbers[1..];
      Some(KeepLarger(numbers[0], numbers[1..]))
  }

  /** The two agree exactly on arrays whose elements are all equal. */
  lemma FindMaxAgreesIffConstant(numbers: seq<int>)
    ensures FindMaxAsWritten(numbers) == FindMax(numbers) <==>
            forall i, j :: 0 <= i < |numbers| && 0 <= j < |numbers| ==> numbers[i] == numbers[j]
  {
    if |numbers| > 0 {
      var lo, hi := FindMaxAsWritten(numbers).value, FindMax(numbers).value;
      if lo == hi {
        forall i, j | 0 <= i < |numbers| && 0 <= j < |numbers|
          ensures numbers[i] == numbers[j]
        {
          assert numbers[i] in numbers && numbers[j] in numbers;
        }
      } else {
        var i :| 0 <= i < |numbers| && numbers[i] == lo;
        var j :| 0 <= j < |numbers| && numbers[j] == hi;
        assert numbers[i] != numbers[j];
      }
    }
  }

  /** `findMax([1, 3, 2])` is 1 as written and 3 as intended. */
  lemma FindMaxExample()
    ensures FindMaxAsWritten([1, 3, 2]) == Some(1)
    ensures FindMax([1, 3, 2]) == Some(3)
  {
    var s := [1, 3, 2];
    assert 1 in s && 3 in s;
  }

  // --------------------------------------------------------------- isPrime

  /** `n` is at least 2 and divisible by no positive number other than 1 and itself. */
  ghost predicate Prime(n: int)
  {
    n >= 2 && forall d :: 1 <= d <= n && n % d == 0 ==> d == 1 || d == n
  }

  /** `isPrime`: trial division by every `i` in `[2, n)`. For `n >= 2` and `i > 0` the
      JavaScript remainder agrees with Dafny's. */
  method IsPrime(n: int) returns (b: bool)
    ensures b <==> Prime(n)
  {
    if n < 2 {
      return false;
    }
    var i := 2;
    while i < n
      invariant 2 <= i <= n
      invariant forall d :: 2 <= d < i ==> n % d != 0
    {
      if n % i == 0 {
        return false;
      }
      i := i + 1;
    }
    return true;
  }

  // ---------------------------------------------------------- uniqueSorted

  /** The comparison `sort()` uses without a comparator: the numbers' decimal strings in
      code-unit order. */
  function StringOrder(a: int, b: int): bool
  {
    Sorting.LexLe(Decimal.IntToString(a), Decimal.IntToString(b))
  }

  /** Numeric order, which the name `uniqueSorted` promises. */
  function NumericOrder(a: int, b: int): bool
  {
    a <= b
  }

  lemma StringOrderTotal()
    ensures Sorting.Total(StringOrder)
  {
    forall a: int, b: int
      ensures StringOrder(a, b) || StringOrder(b, a)
    {
      Sorting.LexTotal(Decimal.IntToString(a), Decimal.IntToString(b));
    }
  }

  /** `uniqueSorted` as written: `[...new Set(numbers)].sort()`. The distinct elements,
      ordered by their decimal strings. */
  function UniqueSortedAsWritten(numbers: seq<int>): (r: seq<int>)
    ensures NoDups(r)
    ensures forall x :: x in r <==> x in numbers
    ensures Sorting.SortedBy(r, StringOrder)
  {
    var u := Arrays.Unique(numbers);
    Sorting.SortByNoDups(u, StringOrder);
    StringOrderTotal();
    Sorting.SortBySorted(u, StringOrder);
    assert forall x :: x in Sorting.SortBy(u, StringOrder) <==> x in multiset(u);
    Sorting.SortBy(u, StringOrder)
  }

  /** `uniqueSorted` as intended: the distinct elements in strictly increasing numeric
      order. */
  function UniqueSorted(numbers: seq<int>): (r: seq<int>)
    ensures forall x :: x in r <==> x in numbers
    ensures forall i, j :: 0 <= i < j < |r| ==> r[i] < r[j]
  {
    var u := Arrays.Unique(numbers);
    var r := Sorting.SortBy(u, NumericOrder);
    Sorting.SortByNoDups(u, NumericOrder);
    Sorting.SortBySorted(u, NumericOrder);
    assert forall x :: x in r <==> x in multiset(u);
    StrictlyIncreasing(r);
    r
  }

  /** Sorted by `<=` without duplicates is strictly increasing. */
  lemma {:induction false} StrictlyIncreasing(s: seq<int>)
    requires Sorting.SortedBy(s, NumericOrder) && NoDups(s)
    ensures forall i, j :: 0 <= i < j < |s| ==> s[i] < s[j]
    decreases |s|
  {
    if |s| > 1 {
      var t := s[1..];
      Sorting.SortedTail(s, NumericOrder);
      assert NoDups(t) by {
        forall i, j | 0 <= i < j < |t|
          ensures t[i] != t[j]
        {
          assert s[i + 1] != s[j + 1];
        }
      }
      StrictlyIncreasing(t);
      assert s[0] < s[1] by {
        assert NumericOrder(s[0], s[1]) && s[0] != s[1];
      }
      forall i, j | 0 <= i < j < |s|
        ensures s[i] < s[j]
      {
        if i > 0 {
          assert s[i] == t[i - 1] && s[j] == t[j - 1];
        } else if j > 1 {
          assert s[1] == t[0] && s[j] == t[j - 1];
        }
      }
    }
  }

  /** `uniqueSorted([10, 9])` keeps `[10, 9]` as written, since "10" sorts before "9";
      as intended it is `[9, 10]`. */
  lemma UniqueSortedExample()
    ensures UniqueSortedAsWritten([10, 9]) == [10, 9]
    ensures UniqueSorted([10, 9]) == [9, 10]
  {
    UniqueOfTwo(10, 9);
    TenBeforeNine();
    SortTwo(10, 9, StringOrder);
    SortTwo(10, 9, NumericOrder);
  }

  /** As strings, "10" comes before "9". */
  lemma TenBeforeNine()
    ensures StringOrder(10, 9)
  {
    assert Decimal.NatToString(1) == ['1'];
    assert Decimal.NatToString(10) == Decimal.NatToString(1) + [Decimal.DigitChar(0)] == ['1', '0'];
    assert Decimal.IntToString(9) == ['9'];
    assert ['1', '0'][0] < ['9'][0];
  }

  lemma UniqueOfTwo(a: int, b: int)
    requires a != b
    ensures Arrays.Unique([a, b]) == [a, b]
  {
    Arrays.UniqueOfDistinct([a, b]);
  }

  lemma SortTwo(a: int, b: int, le: (int, int) -> bool)
    ensures Sorting.SortBy([a, b], le) == if le(a, b) then [a, b] else [b, a]
  {
    assert [a, b][1..] == [b];
    assert [b][1..] == [];
  }

  // ------------------------------------------------------------- fibonacci

  /** `fibonacci` as written: 1 for every `n <= 1`, otherwise the sum of the two
      previous terms. */
  function Fibonacci(n: int): (r: nat)
    ensures r >= 1
    decreases n
  {
    if n <= 1 then 1 else Fibonacci(n - 1) + Fibonacci(n - 2)
  }

  /** The textbook sequence 0, 1, 1, 2, 3, 5, ... */
  function Fib(k: nat): nat
  {
    if k < 2 then k else Fib(k - 1) + Fib(k - 2)
  }

  /** `fibonacci(n)` is the textbook term `n + 1`; non-positive arguments give 1. */
  lemma {:induction false} FibonacciIsShifted(n: int)
    ensures n >= 0 ==> Fibonacci(n) == Fib(n + 1)
    ensures n < 0 ==> Fibonacci(n) == 1
    decreases n
  {
    if n >= 2 {
      FibonacciIsShifted(n - 1);
      FibonacciIsShifted(n - 2);
    }
  }

  /** From index 1 on, the term is at least its index. */
  lemma {:induction false} FibonacciAtLeastIndex(n: int)
    requires n >= 1
    ensures Fibonacci(n) >= n
    decreases n
  {
    if n >= 3 {
      FibonacciAtLeastIndex(n - 1);
    }
  }

  // ---------------------------------------------------- containsIgnoreCase

  /** `s.includes(t)`, scanning the start positions left to right. */
  function Includes(s: string, t: string): bool
    decreases |s|
  {
    |t| <= |s| && (s[..|t|] == t || Includes(s[1..], t))
  }

  /** `Includes` holds exactly when `t` occurs somewhere in `s`. */
  lemma {:induction false} IncludesSpec(s: string, t: string)
    ensures Includes(s, t) <==> exists i :: Strings.OccursAt(t, s, i)
    decreases |s|
  {
    if |t| > |s| {
      assert forall i :: !Strings.OccursAt(t, s, i);
    } else if s[..|t|] == t {
      assert Strings.OccursAt(t, s, 0);
    } else {
      IncludesSpec(s[1..], t);
      if Includes(s[1..], t) {
        var i :| Strings.OccursAt(t, s[1..], i);
        assert s[i + 1..i + 1 + |t|] == s[1..][i..i + |t|];
        assert Strings.OccursAt(t, s, i + 1);
      } else {
        forall i | Strings.OccursAt(t, s, i)
          ensures false
        {
          assert i != 0;
          assert s[1..][i - 1..i - 1 + |t|] == s[i..i + |t|];
          assert Strings.OccursAt(t, s[1..], i - 1);
        }
      }
    }
  }

  /** `containsIgnoreCase` as written: only `str` is lower-cased. */
  function ContainsIgnoreCaseAsWritten(str: string, substring: string): (r: bool)
    ensures r <==> exists i :: Strings.OccursAt(substring, Lower(str), i)
  {
    IncludesSpec(Lower(str), substring);
    Includes(Lower(str), substring)
  }

  /** As written, a substring with an upper-case letter is never found. */
  lemma UpperNeverFound(str: string, substring: string, k: nat)
    requires k < |substring| && IsUpper(substring[k])
    ensures !ContainsIgnoreCaseAsWritten(str, substring)
  {
    IncludesSpec(Lower(str), substring);
  }

  /** `containsIgnoreCase` as intended: both strings lower-cased. */
  function ContainsIgnoreCase(str: string, substring: string): (r: bool)
    ensures r <==> exists i :: Strings.OccursAt(Lower(substring), Lower(str), i)
  {
    IncludesSpec(Lower(str), Lower(substring));
    Includes(Lower(str), Lower(substring))
  }

  /** The intended version ignores the case of both arguments. */
  lemma ContainsIgnoresCase(str: string, substring: string)
    ensures ContainsIgnoreCase(Upper(str), substring) == ContainsIgnoreCase(str, substring)
    ensures ContainsIgnoreCase(str, Upper(substring)) == ContainsIgnoreCase(str, substring)
    ensures ContainsIgnoreCase(Lower(str), Lower(substring)) == ContainsIgnoreCase(str, substring)
  {
    LowerOfUpper(str);
    LowerOfUpper(substring);
    LowerOfLower(Lower(str));
    LowerOfLower(Lower(substring));
  }

  lemma LowerOfUpper(s: string)
    ensures Lower(Upper(s)) == Lower(s)
  {
    forall i | 0 <= i < |s|
      ensures Lower(Upper(s))[i] == Lower(s)[i]
    {
      LowerForgetsCase(s[i]);
    }
  }

  /** The two versions agree whenever the substring has no upper-case letter. */
  lemma ContainsAgreesOnLowerSubstring(str: string, substring: string)
    requires forall i :: 0 <= i < |substring| ==> !IsUpper(substring[i])
    ensures ContainsIgnoreCaseAsWritten(str, substring) == ContainsIgnoreCase(str, substring)
  {
    LowerOfLower(substring);
  }

  /** `containsIgnoreCase("Hello", "He")` is false as written and true as intended. */
  lemma ContainsIgnoreCaseExample()
    ensures !ContainsIgnoreCaseAsWritten("Hello", "He")
    ensures ContainsIgnoreCase("Hello", "He")
  {
    UpperNeverFound("Hello", "He", 0);
    assert Lower("He") == "he";
    assert Lower("Hello")[..2] == "he";
  }

  // ------------------------------------------------------------ removeItem

  /** What the loop of `removeItem` as written removes: after a `splice(i, 1)` the next
      element slides into index `i` and `i++` steps over it, so the element right after a
      removed one is kept without being compared. */
  function RemoveSkipping<T(==)>(s: seq<T>, item: T): seq<T>
    decreases |s|
  {
    if |s| == 0 then []
    else if s[0] == item then (if |s| == 1 then [] else [s[1]] + RemoveSkipping(s[2..], item))
    else [s[0]] + RemoveSkipping(s[1..], item)
  }

  /** One iteration of the loop of `removeItem` keeps `r[..i] + RemoveSkipping(r[i..])`:
      comparing and keeping `r[i]`, or splicing it out and stepping over its successor. */
  lemma RemoveSkippingStep<T>(r: seq<T>, i: nat, item: T)
    requires i < |r|
    ensures r[i] != item ==>
            r[..i] + RemoveSkipping(r[i..], item) == r[..i + 1] + RemoveSkipping(r[i + 1..], item)
    ensures r[i] == item && i + 1 == |r| ==> r[..i] + RemoveSkipping(r[i..], item) == r[..i]
    ensures r[i] == item && i + 1 < |r| ==>
            var r' := r[..i] + r[i + 1..];
            r[..i] + RemoveSkipping(r[i..], item) == r'[..i + 1] + RemoveSkipping(r'[i + 1..], item)
  {
    var rest := r[i..];
    RemoveSkippingCons(rest, item);
    assert rest[0] == r[i];
    assert rest[1..] == r[i + 1..];
    if r[i] != item {
      assert r[..i + 1] == r[..i] + [r[i]];
    } else if i + 1 < |r| {
      var r' := r[..i] + r[i + 1..];
      assert rest[1] == r[i + 1] && rest[2..] == r[i + 2..];
      assert r'[..i + 1] == r[..i] + [r[i + 1]];
      assert r'[i + 1..] == r[i + 2..];
    }
  }

  /** `removeItem` as written: the forward loop with `splice`, on a copy of the array. */
  method RemoveItemAsWritten<T(==)>(arr: seq<T>, item: T) returns (r: seq<T>)
    ensures r == RemoveSkipping(arr, item)
  {
    r := arr;
    var i := 0;
    assert r[..0] + r[0..] == r;
    while i < |r|
      invariant 0 <= i <= |r| + 1
      invariant i <= |r| ==> RemoveSkipping(arr, item) == r[..i] + RemoveSkipping(r[i..], item)
      invariant i == |r| + 1 ==> RemoveSkipping(arr, item) == r
      decreases |r| + 1 - i
    {
      RemoveSkippingStep(r, i, item);
      if r[i] == item {
        r := r[..i] + r[i + 1..];
      }
      i := i + 1;
    }
    if i <= |r| {
      assert r[..i] == r;
    }
  }

  /** What the loop as written keeps is a subsequence of the input. */
  lemma {:induction false} RemoveSkippingSubseq<T>(s: seq<T>, item: T)
    ensures SubseqOf(RemoveSkipping(s, item), s)
    decreases |s|
  {
    if |s| > 0 {
      var r := RemoveSkipping(s, item);
      RemoveSkippingCons(s, item);
      if s[0] != item {
        RemoveSkippingSubseq(s[1..], item);
        assert r[1..] == RemoveSkipping(s[1..], item);
      } else if |s| > 1 {
        RemoveSkippingSubseq(s[2..], item);
        assert r[1..] == RemoveSkipping(s[2..], item);
        assert s[1..][1..] == s[2..];
        assert SubseqOf(r, s[1..]);
      }
    }
  }

  /** The loop as written keeps every element other than `item`, as often as it
      occurs. */
  lemma {:induction false} RemoveSkippingCounts<T>(s: seq<T>, item: T, x: T)
    requires x != item
    ensures multiset(RemoveSkipping(s, item))[x] == multiset(s)[x]
    decreases |s|
  {
    if |s| > 0 && s[0] != item {
      RemoveSkippingCounts(s[1..], item, x);
      CountsAfterKept(s, item, x);
    } else if |s| > 1 {
      RemoveSkippingCounts(s[2..], item, x);
      CountsAfterSkipped(s, item, x);
    } else if |s| == 1 {
      RemoveSkippingCons(s, item);
    }
  }

  lemma CountsAfterKept<T>(s: seq<T>, item: T, x: T)
    requires |s| > 0 && s[0] != item
    requires multiset(RemoveSkipping(s[1..], item))[x] == multiset(s[1..])[x]
    ensures multiset(RemoveSkipping(s, item))[x] == multiset(s)[x]
  {
    RemoveSkippingCons(s, item);
    CountHead(s, x);
    CountCons(s[0], RemoveSkipping(s[1..], item), x);
  }

  lemma CountsAfterSkipped<T>(s: seq<T>, item: T, x: T)
    requires |s| > 1 && s[0] == item && x != item
    requires multiset(RemoveSkipping(s[2..], item))[x] == multiset(s[2..])[x]
    ensures multiset(RemoveSkipping(s, item))[x] == multiset(s)[x]
  {
    var t := s[1..];
    RemoveSkippingCons(s, item);
    CountHead(s, x);
    CountHead(t, x);
    assert t[0] == s[1] && t[1..] == s[2..];
    CountCons(s[1], RemoveSkipping(s[2..], item), x);
  }

  /** The loop as written never adds a copy of `item`, and when `item` occurs it removes
      at least one copy: the first occurrence is always compared and spliced out. */
  lemma {:induction false} RemoveSkippingDropsItem<T>(s: seq<T>, item: T)
    ensures multiset(RemoveSkipping(s, item))[item] <= multiset(s)[item]
    ensures item in s ==> multiset(RemoveSkipping(s, item))[item] < multiset(s)[item]
    decreases |s|
  {
    if |s| > 0 && s[0] != item {
      RemoveSkippingDropsItem(s[1..], item);
      assert item in s ==> item in s[1..];
      CountsAfterKeptItem(s, item);
    } else if |s| > 1 {
      RemoveSkippingDropsItem(s[2..], item);
      CountsAfterSkippedItem(s, item);
    } else if |s| == 1 {
      RemoveSkippingCons(s, item);
      CountHead(s, item);
    }
  }

  lemma CountsAfterKeptItem<T>(s: seq<T>, item: T)
    requires |s| > 0 && s[0] != item
    ensures multiset(RemoveSkipping(s, item))[item] + multiset(s[1..])[item]
         == multiset(RemoveSkipping(s[1..], item))[item] + multiset(s)[item]
  {
    RemoveSkippingCons(s, item);
    CountHead(s, item);
    CountCons(s[0], RemoveSkipping(s[1..], item), item);
  }

  lemma CountsAfterSkippedItem<T>(s: seq<T>, item: T)
    requires |s| > 1 && s[0] == item
    ensures multiset(RemoveSkipping(s, item))[item] + multiset(s[2..])[item] + 1
         == multiset(RemoveSkipping(s[2..], item))[item] + multiset(s)[item]
  {
    var t := s[1..];
    RemoveSkippingCons(s, item);
    CountHead(s, item);
    CountHead(t, item);
    assert t[0] == s[1] && t[1..] == s[2..];
    CountCons(s[1], RemoveSkipping(s[2..], item), item);
  }

  /** How often `x` occurs in a non-empty `s`, counted from its head. */
  lemma CountHead<T>(s: seq<T>, x: T)
    requires |s| > 0
    ensures multiset(s)[x] == (if s[0] == x then 1 else 0) + multiset(s[1..])[x]
  {
    assert s == [s[0]] + s[1..];
    CountCons(s[0], s[1..], x);
  }

  /** How often `x` occurs in `[a] + t`. */
  lemma CountCons<T>(a: T, t: seq<T>, x: T)
    ensures multiset([a] + t)[x] == (if a == x then 1 else 0) + multiset(t)[x]
  {
    assert multiset([a] + t) == multiset{a} + multiset(t);
  }

  /** An occurrence of `item` right after a removed one survives: `[1, 1]` loses only one
      `1`. */
  lemma RemoveSkippingExample()
    ensures RemoveSkipping([1, 1], 1) == [1]
  {
    assert [1, 1][2..] == [];
  }

  /** `x` differs from `item`. */
  function IsNot<T(==)>(item: T): T -> bool
  {
    x => x != item
  }

  /** `removeItem` as intended: every occurrence of `item` removed, all else kept in
      order. */
  function RemoveItem<T(==, !new)>(arr: seq<T>, item: T): (r: seq<T>)
    ensures item !in r
    ensures forall x :: x != item ==> multiset(r)[x] == multiset(arr)[x]
    ensures SubseqOf(r, arr)
  {
    FilterIsSubseq(arr, IsNot(item));
    Filter(arr, IsNot(item))
  }

  /** No two adjacent elements are both `item`. */
  ghost predicate NoAdjacentPair<T>(s: seq<T>, item: T)
  {
    forall i :: 0 < i < |s| ==> s[i - 1] != item || s[i] != item
  }

  /** `NoAdjacentPair` looks at the first two elements and then at the tail. */
  lemma NoAdjacentPairCons<T>(s: seq<T>, item: T)
    requires |s| > 0
    ensures NoAdjacentPair(s, item) <==>
            NoAdjacentPair(s[1..], item) && (|s| < 2 || s[0] != item || s[1] != item)
  {
    var tail := s[1..];
    if NoAdjacentPair(tail, item) && (|s| < 2 || s[0] != item || s[1] != item) {
      forall i | 0 < i < |s|
        ensures s[i - 1] != item || s[i] != item
      {
        if i > 1 {
          assert s[i - 1] == tail[i - 2] && s[i] == tail[i - 1];
        }
      }
    }
    if NoAdjacentPair(s, item) {
      forall i | 0 < i < |tail|
        ensures tail[i - 1] != item || tail[i] != item
      {
        assert tail[i - 1] == s[i] && tail[i] == s[i + 1];
      }
    }
  }

  lemma RemoveSkippingCons<T>(s: seq<T>, item: T)
    requires |s| > 0
    ensures s[0] != item ==> RemoveSkipping(s, item) == [s[0]] + RemoveSkipping(s[1..], item)
    ensures s[0] == item && |s| == 1 ==> RemoveSkipping(s, item) == []
    ensures s[0] == item && |s| > 1 ==> RemoveSkipping(s, item) == [s[1]] + RemoveSkipping(s[2..], item)
  {
  }

  lemma RemoveItemCons<T(!new)>(s: seq<T>, item: T)
    requires |s| > 0
    ensures s[0] == item ==> RemoveItem(s, item) == RemoveItem(s[1..], item)
    ensures s[0] != item ==> RemoveItem(s, item) == [s[0]] + RemoveItem(s[1..], item)
  {
  }

  lemma ConsEqIff<T>(x: T, a: seq<T>, b: seq<T>)
    ensures [x] + a == [x] + b <==> a == b
  {
    if [x] + a == [x] + b {
      assert ([x] + a)[1..] == a && ([x] + b)[1..] == b;
    }
  }

  /** The loop as written is right exactly when `item` never occurs twice in a row. */
  lemma {:induction false} RemoveSkippingCorrectIff<T(!new)>(s: seq<T>, item: T)
    ensures RemoveSkipping(s, item) == RemoveItem(s, item) <==> NoAdjacentPair(s, item)
    decreases |s|
  {
    if |s| > 0 {
      NoAdjacentPairCons(s, item);
      RemoveSkippingCons(s, item);
      RemoveItemCons(s, item);
      if s[0] != item {
        RemoveSkippingCorrectIff(s[1..], item);
        ConsEqIff(s[0], RemoveSkipping(s[1..], item), RemoveItem(s[1..], item));
      } else if |s| > 1 {
        var tail := s[1..];
        RemoveItemCons(tail, item);
        if s[1] == item {
          assert RemoveSkipping(s, item)[0] == item;
          assert item !in RemoveItem(s, item);
        } else {
          assert tail[1..] == s[2..];
          NoAdjacentPairCons(tail, item);
          RemoveSkippingCorrectIff(s[2..], item);
          ConsEqIff(s[1], RemoveSkipping(s[2..], item), RemoveItem(s[2..], item));
        }
      }
    }
  }
}
