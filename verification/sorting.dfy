/** Comparison sorting as `Array.prototype.sort` produces it, stated for an arbitrary
    total comparison `le`, and the code-unit order on strings that `sort()` uses when it
    is given no comparator. */
module Sorting {
  import opened Seqs

  /** `le` relates every pair one way or the other. */
  ghost predicate Total<T(!new)>(le: (T, T) -> bool)
  {
    forall a, b :: le(a, b) || le(b, a)
  }

  /** Every element is `le` its successor. */
  ghost predicate SortedBy<T>(s: seq<T>, le: (T, T) -> bool)
  {
    forall i :: 0 < i < |s| ==> le(s[i - 1], s[i])
  }

  /** Inserts `x` before the first element it is `le`. */
  function Insert<T>(x: T, s: seq<T>, le: (T, T) -> bool): (r: seq<T>)
    ensures |r| == |s| + 1
    ensures multiset(r) == multiset(s) + multiset{x}
    ensures r[0] == x || (|s| > 0 && r[0] == s[0])
    decreases |s|
  {
    if |s| == 0 || le(x, s[0]) then [x] + s
    else
      assert s == [s[0]] + s[1..];
      [s[0]] + Insert(x, s[1..], le)
  }

  /** Insertion sort: the result is a permutation of `s`. */
  function SortBy<T>(s: seq<T>, le: (T, T) -> bool): (r: seq<T>)
    ensures |r| == |s|
    ensures multiset(r) == multiset(s)
    decreases |s|
  {
    if |s| == 0 then []
    else
      assert s == [s[0]] + s[1..];
      Insert(s[0], SortBy(s[1..], le), le)
  }

  lemma SortedTail<T>(s: seq<T>, le: (T, T) -> bool)
    requires |s| > 0 && SortedBy(s, le)
    ensures SortedBy(s[1..], le)
  {
    forall i | 0 < i < |s| - 1
      ensures le(s[1..][i - 1], s[1..][i])
    {
      assert le(s[i], s[i + 1]);
    }
  }

  /** Inserting into a sorted sequence keeps it sorted. */
  lemma {:induction false} InsertSorted<T(!new)>(x: T, s: seq<T>, le: (T, T) -> bool)
    requires Total(le) && SortedBy(s, le)
    ensures SortedBy(Insert(x, s, le), le)
    decreases |s|
  {
    if |s| > 0 && !le(x, s[0]) {
      SortedTail(s, le);
      InsertSorted(x, s[1..], le);
      var t := Insert(x, s[1..], le);
      assert le(s[0], x);
      assert le(s[0], t[0]);
      var r := [s[0]] + t;
      assert r == Insert(x, s, le);
      forall i | 0 < i < |r|
        ensures le(r[i - 1], r[i])
      {
        if i > 1 {
          assert r[i - 1] == t[i - 2] && r[i] == t[i - 1];
        }
      }
    }
  }

  /** With a total comparison, the result of `SortBy` is sorted. */
  lemma {:induction false} SortBySorted<T(!new)>(s: seq<T>, le: (T, T) -> bool)
    requires Total(le)
    ensures SortedBy(SortBy(s, le), le)
    decreases |s|
  {
    if |s| > 0 {
      SortBySorted(s[1..], le);
      InsertSorted(s[0], SortBy(s[1..], le), le);
    }
  }

  /** Sorting a sequence without duplicates gives a sequence without duplicates. */
  lemma {:induction false} SortByNoDups<T>(s: seq<T>, le: (T, T) -> bool)
    requires NoDups(s)
    ensures NoDups(SortBy(s, le))
    decreases |s|
  {
    if |s| > 0 {
      var t := SortBy(s[1..], le);
      assert NoDups(s[1..]) by {
        forall i, j | 0 <= i < j < |s| - 1
          ensures s[1..][i] != s[1..][j]
        {
          assert s[i + 1] != s[j + 1];
        }
      }
      SortByNoDups(s[1..], le);
      assert s[0] !in s[1..] by {
        forall j | 0 <= j < |s| - 1
          ensures s[1..][j] != s[0]
        {
          assert s[0] != s[j + 1];
        }
      }
      assert s[0] !in multiset(t);
      InsertNoDups(s[0], t, le);
    }
  }

  lemma {:induction false} InsertNoDups<T>(x: T, s: seq<T>, le: (T, T) -> bool)
    requires NoDups(s) && x !in s
    ensures NoDups(Insert(x, s, le))
    decreases |s|
  {
    var r := Insert(x, s, le);
    if |s| == 0 || le(x, s[0]) {
      ConsNoDups(x, s);
    } else {
      assert NoDups(s[1..]) by {
        forall i, j | 0 <= i < j < |s| - 1
          ensures s[1..][i] != s[1..][j]
        {
          assert s[i + 1] != s[j + 1];
        }
      }
      InsertNoDups(x, s[1..], le);
      var t := Insert(x, s[1..], le);
      assert s[0] !in multiset(s[1..]) by {
        forall j | 0 <= j < |s| - 1
          ensures s[1..][j] != s[0]
        {
          assert s[0] != s[j + 1];
        }
      }
      assert s[0] != x;
      assert s[0] !in multiset(t);
      ConsNoDups(s[0], t);
    }
  }

  lemma ConsNoDups<T>(x: T, s: seq<T>)
    requires NoDups(s) && x !in s
    ensures NoDups([x] + s)
  {
    var r := [x] + s;
    forall i, j | 0 <= i < j < |r|
      ensures r[i] != r[j]
    {
      if i > 0 {
        assert r[i] == s[i - 1] && r[j] == s[j - 1];
      } else {
        assert r[j] == s[j - 1];
      }
    }
  }

  // ------------------------------------------------------ string order

  /** JavaScript's `<=` on strings: code units compared left to right, a proper prefix
      first. */
  function LexLe(a: string, b: string): bool
    decreases |a|
  {
    if |a| == 0 then true
    else if |b| == 0 then false
    else if a[0] != b[0] then a[0] < b[0]
    else LexLe(a[1..], b[1..])
  }

  /** Any two strings are ordered one way or the other, and only equal strings both
      ways. */
  lemma {:induction false} LexTotal(a: string, b: string)
    ensures LexLe(a, b) || LexLe(b, a)
    ensures LexLe(a, b) && LexLe(b, a) ==> a == b
    decreases |a|
  {
    if |a| > 0 && |b| > 0 && a[0] == b[0] {
      LexTotal(a[1..], b[1..]);
      if LexLe(a, b) && LexLe(b, a) {
        assert a == [a[0]] + a[1..] && b == [b[0]] + b[1..];
      }
    }
  }
}
