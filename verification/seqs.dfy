/** Generic sequence vocabulary used to state the properties of the array,
    string and utility operations. */
module Seqs {

  /** No element occurs twice. */
  ghost predicate NoDups<T>(s: seq<T>)
  {
    forall i, j :: 0 <= i < j < |s| ==> s[i] != s[j]
  }

  /** `a` is obtained from `b` by deleting zero or more elements. */
  ghost predicate SubseqOf<T>(a: seq<T>, b: seq<T>)
    decreases |b|
  {
    if |b| == 0 then |a| == 0
    else (|a| > 0 && a[0] == b[0] && SubseqOf(a[1..], b[1..])) || SubseqOf(a, b[1..])
  }

  /** Every sequence is a subsequence of itself. */
  lemma {:induction false} SubseqOfRefl<T>(s: seq<T>)
    ensures SubseqOf(s, s)
    decreases |s|
  {
    if |s| > 0 {
      SubseqOfRefl(s[1..]);
    }
  }

  /** Dropping the head of the longer sequence keeps the subsequence relation. */
  lemma SubseqOfCons<T>(a: seq<T>, x: T, b: seq<T>)
    requires SubseqOf(a, b)
    ensures SubseqOf(a, [x] + b)
  {
    assert ([x] + b)[1..] == b;
  }

  /** The elements of `s` satisfying `p`, in their original order. */
  function Filter<T(!new)>(s: seq<T>, p: T -> bool): (r: seq<T>)
    ensures |r| <= |s|
    ensures forall x :: x in r <==> x in s && p(x)
    ensures forall x :: multiset(r)[x] == if p(x) then multiset(s)[x] else 0
    decreases |s|
  {
    if |s| == 0 then []
    else
      assert s == [s[0]] + s[1..];
      if p(s[0]) then [s[0]] + Filter(s[1..], p) else Filter(s[1..], p)
  }

  /** A filter keeps a subsequence of its input. */
  lemma {:induction false} FilterIsSubseq<T(!new)>(s: seq<T>, p: T -> bool)
    ensures SubseqOf(Filter(s, p), s)
    decreases |s|
  {
    if |s| > 0 {
      FilterIsSubseq(s[1..], p);
      if p(s[0]) {
        assert Filter(s, p)[1..] == Filter(s[1..], p);
      } else {
        SubseqOfCons(Filter(s[1..], p), s[0], s[1..]);
        assert [s[0]] + s[1..] == s;
      }
    }
  }

  /** Filtering distributes over concatenation. */
  lemma {:induction false} FilterAppend<T(!new)>(a: seq<T>, b: seq<T>, p: T -> bool)
    ensures Filter(a + b, p) == Filter(a, p) + Filter(b, p)
    decreases |a|
  {
    if |a| == 0 {
      assert a + b == b;
    } else {
      var ab := a + b;
      assert ab[0] == a[0];
      assert ab[1..] == a[1..] + b;
      FilterAppend(a[1..], b, p);
      if p(a[0]) {
        calc {
          Filter(ab, p);
          [a[0]] + Filter(a[1..] + b, p);
          [a[0]] + (Filter(a[1..], p) + Filter(b, p));
          ([a[0]] + Filter(a[1..], p)) + Filter(b, p);
        }
      } else {
        assert Filter(ab, p) == Filter(a[1..] + b, p);
      }
    }
  }

  /** A predicate and its negation split a sequence between them. */
  lemma {:induction false} FilterSplitLength<T(!new)>(s: seq<T>, p: T -> bool, q: T -> bool)
    requires forall x :: q(x) == !p(x)
    ensures |Filter(s, p)| + |Filter(s, q)| == |s|
    decreases |s|
  {
    if |s| > 0 {
      FilterSplitLength(s[1..], p, q);
    }
  }

  /** The concatenation of a sequence of sequences. */
  function Concat<T>(ss: seq<seq<T>>): (r: seq<T>)
    ensures |ss| == 1 ==> r == ss[0]
    decreases |ss|
  {
    if |ss| == 0 then [] else ss[0] + Concat(ss[1..])
  }

  /** The position of the first occurrence of `x` in `s`. */
  function IndexOf<T(==)>(s: seq<T>, x: T): (i: nat)
    requires x in s
    ensures i < |s| && s[i] == x
    ensures forall k :: 0 <= k < i ==> s[k] != x
    decreases |s|
  {
    if s[0] == x then 0 else 1 + IndexOf(s[1..], x)
  }

  /** Appending an element does not move the first occurrence of earlier elements. */
  lemma IndexOfAppend<T>(s: seq<T>, y: T, x: T)
    requires x in s
    ensures IndexOf(s + [y], x) == IndexOf(s, x)
  {
    var i := IndexOf(s, x);
    var j := IndexOf(s + [y], x);
    assert (s + [y])[i] == x;
    assert s[j] == x || j == |s|;
  }

  /** `IndexOfAppend` for every element at once. */
  lemma IndexOfAppendAll<T>(s: seq<T>, y: T)
    ensures forall x :: x in s ==> IndexOf(s + [y], x) == IndexOf(s, x)
  {
    forall x | x in s
      ensures IndexOf(s + [y], x) == IndexOf(s, x)
    {
      IndexOfAppend(s, y, x);
    }
  }
}
