/** The array helpers of `src/array.ts`, over immutable sequences.
    JavaScript arrays become `seq<T>`; `undefined` results become `Option.None`;
    the thrown error of `chunk` becomes a `Result.Failure`; each call of
    `Math.random()` becomes an injected draw `u` with `0 <= u < 1`. */
module Arrays {
  import opened Wrappers
  import opened Seqs
  import Js

  // ---------------------------------------------------------------- unique

  /** `[...new Set(arr)]`: the distinct elements of `s`, each at the place of its
      first occurrence (a `Set` remembers insertion order). */
  function Unique<T(==, !new)>(s: seq<T>): (r: seq<T>)
    ensures NoDups(r)
    ensures forall x :: x in r <==> x in s
    ensures |r| <= |s|
    ensures forall i, j :: 0 <= i < j < |r| ==> IndexOf(s, r[i]) < IndexOf(s, r[j])
    decreases |s|
  {
    if |s| == 0 then []
    else
      var p, y := s[..|s| - 1], s[|s| - 1];
      assert s == p + [y];
      var u := Unique(p);
      IndexOfAppendAll(p, y);
      if y in u then u else u + [y]
  }

  /** A sequence without duplicates is its own `unique`. */
  lemma {:induction false} UniqueOfDistinct<T(!new)>(s: seq<T>)
    requires NoDups(s)
    ensures Unique(s) == s
    decreases |s|
  {
    if |s| > 0 {
      var p, y := s[..|s| - 1], s[|s| - 1];
      assert s == p + [y];
      NoDupsSnoc(p, y);
      UniqueOfDistinct(p);
      UniqueSnocNew(p, y);
    }
  }

  lemma NoDupsSnoc<T>(p: seq<T>, y: T)
    requires NoDups(p + [y])
    ensures NoDups(p) && y !in p
  {
    var s := p + [y];
    forall i, j | 0 <= i < j < |p|
      ensures p[i] != p[j]
    {
      assert p[i] == s[i] && p[j] == s[j];
    }
    forall i | 0 <= i < |p|
      ensures p[i] != y
    {
      assert p[i] == s[i] && y == s[|p|];
    }
  }

  /** Appending a new element appends it to the `unique` of the prefix. */
  lemma UniqueSnocNew<T(!new)>(p: seq<T>, y: T)
    requires y !in p
    ensures Unique(p + [y]) == Unique(p) + [y]
  {
    var s := p + [y];
    assert s[..|s| - 1] == p && s[|s| - 1] == y;
  }

  /** `unique` is idempotent. */
  lemma UniqueIdempotent<T(!new)>(s: seq<T>)
    ensures Unique(Unique(s)) == Unique(s)
  {
    UniqueOfDistinct(Unique(s));
  }

  // ----------------------------------------------------------------- chunk

  /** The errors the array helpers throw: `chunk`'s for a non-positive size, and the
      TypeError `groupBy` raises when it calls `push` on an inherited property. */
  datatype ArrayError = InvalidChunkSize | PushOnInherited(key: string)

  /** The slices `arr.slice(i, i + size)` for `i = 0, size, 2*size, ...` below `|s|`. */
  function Chunks<T>(s: seq<T>, size: int): (r: seq<seq<T>>)
    requires size > 0
    ensures forall i :: 0 <= i < |r| ==> 0 < |r[i]| <= size
    decreases |s|
  {
    if |s| == 0 then []
    else if |s| <= size then [s]
    else [s[..size]] + Chunks(s[size..], size)
  }

  /** Joining the chunks back together gives the array. */
  lemma {:induction false} ChunksConcat<T>(s: seq<T>, size: int)
    requires size > 0
    ensures Concat(Chunks(s, size)) == s
    decreases |s|
  {
    if |s| > size {
      var head, tail := s[..size], s[size..];
      ChunksConcat(tail, size);
      var r := Chunks(s, size);
      assert r == [head] + Chunks(tail, size);
      assert r[1..] == Chunks(tail, size);
      assert s == head + tail;
    }
  }

  /** Every chunk but the last holds exactly `size` elements; the last holds 1 to
      `size`. */
  lemma {:induction false} ChunksSizes<T>(s: seq<T>, size: int)
    requires size > 0
    ensures forall i :: 0 <= i < |Chunks(s, size)| - 1 ==> |Chunks(s, size)[i]| == size
    ensures |Chunks(s, size)| > 0 ==> 1 <= |Chunks(s, size)[|Chunks(s, size)| - 1]| <= size
    decreases |s|
  {
    if |s| > size {
      var tail := s[size..];
      ChunksSizes(tail, size);
      var rest := Chunks(tail, size);
      var r := Chunks(s, size);
      assert r == [s[..size]] + rest;
      assert |rest| > 0;
      forall i | 0 <= i < |r| - 1
        ensures |r[i]| == size
      {
        if i > 0 {
          assert r[i] == rest[i - 1];
        }
      }
      assert r[|r| - 1] == rest[|rest| - 1];
    }
  }

  lemma {:induction false} ChunksLength<T>(s: seq<T>, size: int)
    requires size > 0
    ensures |Chunks(s, size)| == ChunkCount(|s|, size)
    decreases |s|
  {
    if |s| > size {
      var tail := s[size..];
      ChunksLength(tail, size);
      assert |Chunks(s, size)| == 1 + |Chunks(tail, size)|;
      assert ChunkCount(|s|, size) == 1 + ChunkCount(|tail|, size);
    }
  }

  /** There are `ceil(|s| / size)` chunks: none for an empty array. */
  lemma ChunksCount<T>(s: seq<T>, size: int)
    requires size > 0
    ensures |Chunks(s, size)| == (|s| + size - 1) / size
    ensures |Chunks(s, size)| == 0 <==> |s| == 0
  {
    ChunksLength(s, size);
    CeilCount(|s|, size);
  }

  /** The number of chunks of `n` elements, counted the way `Chunks` produces them. */
  function ChunkCount(n: nat, size: int): nat
    requires size > 0
  {
    if n == 0 then 0 else if n <= size then 1 else 1 + ChunkCount(n - size, size)
  }

  /** Counting off `size` at a time from `n` takes `ceil(n / size)` steps. */
  lemma {:induction false} CeilCount(n: nat, size: int)
    requires size > 0
    ensures ChunkCount(n, size) == (n + size - 1) / size
    ensures ChunkCount(n, size) == 0 <==> n == 0
    decreases n
  {
    if n > size {
      CeilCount(n - size, size);
      Js.DivAddDivisor(n - 1, size);
      assert n - 1 + size == n + size - 1;
      assert n - size + size - 1 == n - 1;
    } else if n > 0 {
      Js.DivUnique(n + size - 1, size, 1, n - 1);
    } else {
      Js.DivUnique(size - 1, size, 0, size - 1);
    }
  }

  /** `chunk(arr, size)`: fails exactly when `size <= 0`, otherwise partitions `arr`
      into consecutive pieces of `size` elements, the last possibly shorter. */
  function Chunk<T>(arr: seq<T>, size: int): (r: Result<seq<seq<T>>, ArrayError>)
    ensures r.Failure? <==> size <= 0
    ensures r.Success? ==> Concat(r.value) == arr
    ensures r.Success? ==> forall i :: 0 <= i < |r.value| - 1 ==> |r.value[i]| == size
    ensures r.Success? && |r.value| > 0 ==> 1 <= |r.value[|r.value| - 1]| <= size
    ensures r.Success? && |arr| == 0 ==> r.value == []
    ensures r.Success? && 0 < |arr| <= size ==> r.value == [arr]
    ensures r.Success? ==> |r.value| == (|arr| + size - 1) / size
  {
    if size <= 0 then Failure(InvalidChunkSize)
    else
      ChunksConcat(arr, size);
      ChunksSizes(arr, size);
      ChunksCount(arr, size);
      Success(Chunks(arr, size))
  }

  // ------------------------------------------------------ flatten / flattenDeep

  /** A JavaScript array element that is either a plain value or a nested array. */
  datatype Nested<T> = Leaf(value: T) | Node(children: seq<Nested<T>>)

  /** The nesting depth of a sequence of elements: 0 when every element is a plain value. */
  function Depth<T>(xs: seq<Nested<T>>): nat
    decreases xs
  {
    if |xs| == 0 then 0
    else
      var d := match xs[0] case Leaf(_) => 0 case Node(cs) => 1 + Depth(cs);
      Max(d, Depth(xs[1..]))
  }

  function Max(a: nat, b: nat): nat
  {
    if a < b then b else a
  }

  /** The plain values of a nested array, left to right. */
  function Leaves<T>(xs: seq<Nested<T>>): seq<T>
    decreases xs
  {
    if |xs| == 0 then []
    else (match xs[0] case Leaf(v) => [v] case Node(cs) => Leaves(cs)) + Leaves(xs[1..])
  }

  /** `arr.flat()`: every nested array loses one level, plain values pass through. */
  function Flatten<T>(xs: seq<Nested<T>>): (r: seq<Nested<T>>)
    ensures Leaves(r) == Leaves(xs)
    ensures Depth(r) == if Depth(xs) == 0 then 0 else Depth(xs) - 1
    decreases |xs|
  {
    if |xs| == 0 then []
    else
      var rest := Flatten(xs[1..]);
      match xs[0]
      case Leaf(v) => [xs[0]] + rest
      case Node(cs) =>
        LeavesAppend(cs, rest);
        DepthAppend(cs, rest);
        cs + rest
  }

  /** `flat` of one element: a plain value stays, a nested array is spread out. */
  lemma FlattenOne<T>(x: Nested<T>)
    ensures Flatten([x]) == match x case Leaf(_) => [x] case Node(cs) => cs
  {
    assert [x][1..] == [];
    match x
    case Leaf(_) =>
    case Node(cs) => assert cs + [] == cs;
  }

  /** `flat` works element by element: it distributes over concatenation. Together with
      `FlattenOne` and `Flatten([]) == []` this fixes the result for every input. */
  lemma {:induction false} FlattenAppend<T>(a: seq<Nested<T>>, b: seq<Nested<T>>)
    ensures Flatten(a + b) == Flatten(a) + Flatten(b)
    decreases |a|
  {
    if |a| == 0 {
      assert a + b == b;
    } else {
      assert (a + b)[0] == a[0];
      assert (a + b)[1..] == a[1..] + b;
      FlattenAppend(a[1..], b);
      match a[0]
      case Leaf(_) =>
        assert Flatten(a + b) == [a[0]] + (Flatten(a[1..]) + Flatten(b));
      case Node(cs) =>
        assert Flatten(a + b) == cs + (Flatten(a[1..]) + Flatten(b));
    }
  }

  /** `Leaves` distributes over concatenation. */
  lemma {:induction false} LeavesAppend<T>(a: seq<Nested<T>>, b: seq<Nested<T>>)
    ensures Leaves(a + b) == Leaves(a) + Leaves(b)
    decreases |a|
  {
    if |a| == 0 {
      assert a + b == b;
    } else {
      assert (a + b)[0] == a[0];
      assert (a + b)[1..] == a[1..] + b;
      LeavesAppend(a[1..], b);
    }
  }

  /** The depth of a concatenation is the larger depth. */
  lemma {:induction false} DepthAppend<T>(a: seq<Nested<T>>, b: seq<Nested<T>>)
    ensures Depth(a + b) == Max(Depth(a), Depth(b))
    decreases |a|
  {
    if |a| == 0 {
      assert a + b == b;
    } else {
      assert (a + b)[0] == a[0];
      assert (a + b)[1..] == a[1..] + b;
      DepthAppend(a[1..], b);
    }
  }

  /** The array of plain values holding `vs`. */
  function AsLeaves<T>(vs: seq<T>): (r: seq<Nested<T>>)
    ensures |r| == |vs|
    ensures forall i :: 0 <= i < |r| ==> r[i] == Leaf(vs[i])
  {
    seq(|vs|, i requires 0 <= i < |vs| => Leaf(vs[i]))
  }

  /** `flat()` applied `n` times. */
  function FlattenTimes<T>(xs: seq<Nested<T>>, n: nat): seq<Nested<T>>
    decreases n
  {
    if n == 0 then xs else FlattenTimes(Flatten(xs), n - 1)
  }

  /** A depth-0 array is exactly its leaves. */
  lemma {:induction false} DepthZeroIsLeaves<T>(xs: seq<Nested<T>>)
    requires Depth(xs) == 0
    ensures xs == AsLeaves(Leaves(xs))
    decreases |xs|
  {
    if |xs| > 0 {
      DepthZeroIsLeaves(xs[1..]);
      assert xs == [xs[0]] + xs[1..];
    }
  }

  /** Applying `flat()` at least as many times as the array is deep
      leaves nothing but the plain values, in order. */
  lemma {:induction false} FlattenDeepIsIteratedFlatten<T>(xs: seq<Nested<T>>, n: nat)
    requires n >= Depth(xs)
    ensures FlattenTimes(xs, n) == AsLeaves(Leaves(xs))
    decreases n
  {
    if n == 0 {
      DepthZeroIsLeaves(xs);
    } else {
      FlattenDeepIsIteratedFlatten(Flatten(xs), n - 1);
    }
  }

  /** `arr.flat(Infinity)`: the plain values, in left-to-right order. It is what
      `flat()` applied as many times as the array is deep produces. */
  function FlattenDeep<T>(xs: seq<Nested<T>>): (r: seq<T>)
    ensures AsLeaves(r) == FlattenTimes(xs, Depth(xs))
    ensures Depth(xs) == 0 ==> AsLeaves(r) == xs
  {
    FlattenDeepIsIteratedFlatten(xs, Depth(xs));
    Leaves(xs)
  }

  // ----------------------------------------------------------- first / last

  /** `arr[0]`, or `undefined` for the empty array. */
  function First<T>(arr: seq<T>): (r: Option<T>)
    ensures r.None? <==> |arr| == 0
    ensures r.Some? ==> r.value == arr[0]
  {
    if |arr| == 0 then None else Some(arr[0])
  }

  /** `arr[arr.length - 1]`, or `undefined` for the empty array. */
  function Last<T>(arr: seq<T>): (r: Option<T>)
    ensures r.None? <==> |arr| == 0
    ensures r.Some? ==> r.value == arr[|arr| - 1]
  {
    if |arr| == 0 then None else Some(arr[|arr| - 1])
  }

  /** `first` and `last` read opposite ends: the last element is the first of the
      reversed array, and on a one-element array the two agree. */
  lemma FirstLastReversed<T>(arr: seq<T>)
    ensures Last(arr) == First(seq(|arr|, i requires 0 <= i < |arr| => arr[|arr| - 1 - i]))
    ensures |arr| == 1 ==> First(arr) == Last(arr)
  {
  }

  // --------------------------------------------------------------- shuffle

  /** Fisher-Yates as written: copy the array, then for `i` from the last index down to 1
      swap position `i` with position `Math.floor(u * (i + 1))`. The draws are consumed
      in loop order. The input is a value, so it is unchanged. */
  method Shuffle<T>(arr: seq<T>, draws: seq<real>) returns (r: seq<T>)
    requires |draws| >= |arr| - 1
    requires forall k :: 0 <= k < |draws| ==> Js.IsDraw(draws[k])
    ensures |r| == |arr|
    ensures multiset(r) == multiset(arr)
  {
    r := arr;
    var i := |r| - 1;
    while i > 0
      invariant -1 <= i < |r|
      invariant |r| == |arr|
      invariant multiset(r) == multiset(arr)
      decreases i
    {
      var j := Js.PickIndex(draws[|arr| - 1 - i], i + 1);
      var ri, rj := r[i], r[j];
      r := r[i := rj][j := ri];
      i := i - 1;
    }
  }

  // --------------------------------------------------- intersection / difference

  /** Membership in `b`, as the filter callback `set2.has(item)`. */
  function InSeq<T(==)>(b: seq<T>): T -> bool
  {
    x => x in b
  }

  /** Non-membership in `b`, as the filter callback `!set2.has(item)`. */
  function NotInSeq<T(==)>(b: seq<T>): T -> bool
  {
    x => x !in b
  }

  /** `arr1.filter(item => set2.has(item))`: the elements of `arr1` found in `arr2`,
      in `arr1`'s order and with `arr1`'s repetitions. */
  function Intersection<T(==, !new)>(arr1: seq<T>, arr2: seq<T>): (r: seq<T>)
    ensures forall x :: x in r <==> x in arr1 && x in arr2
    ensures forall x :: multiset(r)[x] == if x in arr2 then multiset(arr1)[x] else 0
    ensures SubseqOf(r, arr1)
  {
    FilterIsSubseq(arr1, InSeq(arr2));
    Filter(arr1, InSeq(arr2))
  }

  /** `arr1.filter(item => !set2.has(item))`: the elements of `arr1` absent from `arr2`,
      in `arr1`'s order and with `arr1`'s repetitions. */
  function Difference<T(==, !new)>(arr1: seq<T>, arr2: seq<T>): (r: seq<T>)
    ensures forall x :: x in r <==> x in arr1 && x !in arr2
    ensures forall x :: multiset(r)[x] == if x in arr2 then 0 else multiset(arr1)[x]
    ensures SubseqOf(r, arr1)
  {
    FilterIsSubseq(arr1, NotInSeq(arr2));
    Filter(arr1, NotInSeq(arr2))
  }

  /** Intersection and difference split `arr1` between them. */
  lemma IntersectionDifferenceSplit<T(!new)>(arr1: seq<T>, arr2: seq<T>)
    ensures |Intersection(arr1, arr2)| + |Difference(arr1, arr2)| == |arr1|
    ensures multiset(Intersection(arr1, arr2)) + multiset(Difference(arr1, arr2)) == multiset(arr1)
  {
    FilterSplitLength(arr1, InSeq(arr2), NotInSeq(arr2));
    var i, d := Intersection(arr1, arr2), Difference(arr1, arr2);
    assert forall x :: (multiset(i) + multiset(d))[x] == multiset(arr1)[x];
  }

  // --------------------------------------------------------------- groupBy

  /** The filter selecting the elements whose key is `k`. */
  function KeyIs<T>(key: T -> string, k: string): T -> bool
  {
    x => key(x) == k
  }

  /** The key of every element, in input order. */
  function KeysOf<T>(arr: seq<T>, key: T -> string): (r: seq<string>)
    ensures |r| == |arr|
    ensures forall i :: 0 <= i < |arr| ==> r[i] == key(arr[i])
  {
    seq(|arr|, i requires 0 <= i < |arr| => key(arr[i]))
  }

  /** The property names a plain object `{}` inherits from `Object.prototype`. Reading
      `groups[k]` for one of them gives a function, or for `__proto__` the prototype
      itself: a truthy value that has no `push` method. */
  const InheritedKeys: set<string> := {
    "constructor", "hasOwnProperty", "isPrototypeOf", "propertyIsEnumerable",
    "toLocaleString", "toString", "valueOf", "__proto__",
    "__defineGetter__", "__defineSetter__", "__lookupGetter__", "__lookupSetter__"
  }

  /** Element `i` is the first whose key is an inherited property name. */
  ghost predicate FirstInherited<T>(arr: seq<T>, key: T -> string, i: int)
  {
    && 0 <= i < |arr|
    && key(arr[i]) in InheritedKeys
    && forall j :: 0 <= j < i ==> key(arr[j]) !in InheritedKeys
  }

  /** One call of the reducer. When `groups[groupKey]` is falsy a group is created, then
      `x` is pushed onto it. For an inherited key the read is truthy, so no group is
      created and the push throws a TypeError. */
  function Push<T>(g: map<string, seq<T>>, x: T, key: T -> string): Result<map<string, seq<T>>, ArrayError>
  {
    var k := key(x);
    if k in InheritedKeys then Failure(PushOnInherited(k))
    else Success(g[k := (if k in g then g[k] else []) + [x]])
  }

  /** `arr.reduce(...)` building `Record<string, T[]>`: each element is pushed onto the
      group of its key, the group being created on first use. The key is the already
      stringified `String(item[key])`. The first element whose key is an inherited
      property name ends the reduce with a TypeError. */
  function GroupBy<T(!new)>(arr: seq<T>, key: T -> string): (r: Result<map<string, seq<T>>, ArrayError>)
    ensures r.Failure? <==> exists i :: 0 <= i < |arr| && key(arr[i]) in InheritedKeys
    ensures r.Failure? ==> exists i :: FirstInherited(arr, key, i) && r.error == PushOnInherited(key(arr[i]))
    ensures r.Success? ==> forall k :: k in r.value <==> k in KeysOf(arr, key)
    ensures r.Success? ==> forall k :: k in r.value ==> r.value[k] == Filter(arr, KeyIs(key, k))
    ensures r.Success? ==> forall k :: k in r.value ==> |r.value[k]| > 0
    decreases |arr|
  {
    if |arr| == 0 then Success(map[])
    else
      var p, x := arr[..|arr| - 1], arr[|arr| - 1];
      assert arr == p + [x];
      InheritedStep(p, x, key);
      match GroupBy(p, key)
      case Failure(e) => Failure(e)
      case Success(g) =>
        var r := Push(g, x, key);
        if r.Success? then
          GroupByStep(p, x, key, g, r.value);
          r
        else
          r
  }

  /** Where the first inherited key of `p + [x]` lies. */
  lemma InheritedStep<T>(p: seq<T>, x: T, key: T -> string)
    ensures (exists i :: 0 <= i < |p + [x]| && key((p + [x])[i]) in InheritedKeys)
        <==> (exists i :: 0 <= i < |p| && key(p[i]) in InheritedKeys) || key(x) in InheritedKeys
    ensures forall i :: FirstInherited(p, key, i) ==> FirstInherited(p + [x], key, i)
    ensures (forall i :: 0 <= i < |p| ==> key(p[i]) !in InheritedKeys) && key(x) in InheritedKeys
        ==> FirstInherited(p + [x], key, |p|)
  {
    var a := p + [x];
    assert forall i :: 0 <= i < |p| ==> a[i] == p[i];
    assert a[|p|] == x;
  }

  /** The keys of a longer input are the old keys followed by the new element's key. */
  lemma KeysOfAppend<T>(p: seq<T>, x: T, key: T -> string)
    ensures KeysOf(p + [x], key) == KeysOf(p, key) + [key(x)]
  {
  }

  /** An element whose key is `k` puts `k` among the keys. */
  lemma KeyOfMember<T>(p: seq<T>, key: T -> string, y: T)
    requires y in p
    ensures key(y) in KeysOf(p, key)
  {
    var i :| 0 <= i < |p| && p[i] == y;
    assert KeysOf(p, key)[i] == key(y);
  }

  /** Exactly the keys that occur select a non-empty group. */
  lemma GroupNonEmptyIffKey<T(!new)>(p: seq<T>, key: T -> string, k: string)
    ensures |Filter(p, KeyIs(key, k))| > 0 <==> k in KeysOf(p, key)
  {
    var f := Filter(p, KeyIs(key, k));
    if |f| > 0 {
      GroupMemberKey(p, key, k, f[0]);
    } else if k in KeysOf(p, key) {
      KeyWitness(p, key, k);
    }
  }

  /** A key that occurs is the key of some element, which its group then holds. */
  lemma KeyWitness<T(!new)>(p: seq<T>, key: T -> string, k: string)
    requires k in KeysOf(p, key)
    ensures |Filter(p, KeyIs(key, k))| > 0
  {
    var i :| 0 <= i < |p| && KeysOf(p, key)[i] == k;
    assert p[i] in Filter(p, KeyIs(key, k));
  }

  lemma GroupMemberKey<T(!new)>(p: seq<T>, key: T -> string, k: string, y: T)
    requires y in Filter(p, KeyIs(key, k))
    ensures k in KeysOf(p, key)
  {
    assert y in p && key(y) == k;
    KeyOfMember(p, key, y);
  }

  /** The inductive step of `GroupBy`: a push that succeeds keeps every group the filter
      of the input by its key. */
  lemma GroupByStep<T(!new)>(p: seq<T>, x: T, key: T -> string, g: map<string, seq<T>>, r: map<string, seq<T>>)
    requires forall k :: k in g <==> k in KeysOf(p, key)
    requires forall k :: k in g ==> g[k] == Filter(p, KeyIs(key, k))
    requires Push(g, x, key) == Success(r)
    ensures forall k :: k in r <==> k in KeysOf(p + [x], key)
    ensures forall k :: k in r ==> r[k] == Filter(p + [x], KeyIs(key, k))
    ensures forall k :: k in r ==> |r[k]| > 0
  {
    KeysOfAppend(p, x, key);
    forall k | k in r
      ensures r[k] == Filter(p + [x], KeyIs(key, k))
    {
      GroupAfterPush(p, x, key, g, r, k);
    }
    forall k | k in r
      ensures |r[k]| > 0
    {
      if k != key(x) {
        GroupNonEmptyIffKey(p, key, k);
      }
    }
  }

  /** One group after `x` is pushed. */
  lemma GroupAfterPush<T(!new)>(p: seq<T>, x: T, key: T -> string, g: map<string, seq<T>>,
                                r: map<string, seq<T>>, k: string)
    requires forall k :: k in g <==> k in KeysOf(p, key)
    requires forall k :: k in g ==> g[k] == Filter(p, KeyIs(key, k))
    requires r == g[key(x) := (if key(x) in g then g[key(x)] else []) + [x]]
    requires k in r
    ensures r[k] == Filter(p + [x], KeyIs(key, k))
  {
    FilterAppend(p, [x], KeyIs(key, k));
    if k == key(x) && k !in g {
      GroupNonEmptyIffKey(p, key, k);
    }
  }

  /** The sizes of the groups listed in `ks`, summed. */
  function SumSizes<T>(ks: seq<string>, m: map<string, seq<T>>): nat
    decreases |ks|
  {
    if |ks| == 0 then 0
    else SumSizes(ks[..|ks| - 1], m) + (if ks[|ks| - 1] in m then |m[ks[|ks| - 1]]| else 0)
  }

  /** Changing a group whose key is not listed leaves the sum alone. */
  lemma {:induction false} SumSizesUpdateAbsent<T>(ks: seq<string>, m: map<string, seq<T>>, k: string, v: seq<T>)
    requires k !in ks
    ensures SumSizes(ks, m[k := v]) == SumSizes(ks, m)
    decreases |ks|
  {
    if |ks| > 0 {
      SumSizesUpdateAbsent(ks[..|ks| - 1], m, k, v);
    }
  }

  /** Changing a group listed exactly once changes the sum by the change in its size. */
  lemma {:induction false} SumSizesUpdate<T>(ks: seq<string>, m: map<string, seq<T>>, k: string, v: seq<T>)
    requires NoDups(ks)
    requires k in ks && k in m
    ensures SumSizes(ks, m[k := v]) == SumSizes(ks, m) - |m[k]| + |v|
    decreases |ks|
  {
    var p := ks[..|ks| - 1];
    if ks[|ks| - 1] == k {
      assert k !in p;
      SumSizesUpdateAbsent(p, m, k, v);
    } else {
      assert k in p;
      SumSizesUpdate(p, m, k, v);
    }
  }

  /** The keys of `groupBy` in the order their groups are created: first-occurrence
      order. */
  function GroupKeys<T>(arr: seq<T>, key: T -> string): (r: seq<string>)
    ensures NoDups(r)
    ensures forall k :: k in r <==> k in KeysOf(arr, key)
  {
    Unique(KeysOf(arr, key))
  }

  /** The group sizes sum to the input length: every element lands in exactly one group. */
  lemma {:induction false} GroupSizesSum<T(!new)>(arr: seq<T>, key: T -> string)
    ensures GroupBy(arr, key).Success? ==> SumSizes(GroupKeys(arr, key), GroupBy(arr, key).value) == |arr|
    decreases |arr|
  {
    if |arr| > 0 && GroupBy(arr, key).Success? {
      var p, x := arr[..|arr| - 1], arr[|arr| - 1];
      GroupBySnoc(arr, key);
      GroupSizesSum(p, key);
      GroupKeysSnoc(arr, key);
      var g := GroupBy(p, key).value;
      var u := GroupKeys(p, key);
      assert key(x) in u <==> key(x) in g;
      GroupSizesStep(u, g, key(x), x);
    }
  }

  /** The group keys of a non-empty input: those of all but the last element, then the
      last element's key if it is new. */
  lemma GroupKeysSnoc<T(!new)>(arr: seq<T>, key: T -> string)
    requires |arr| > 0
    ensures var p, k := arr[..|arr| - 1], key(arr[|arr| - 1]);
            GroupKeys(arr, key) == if k in GroupKeys(p, key) then GroupKeys(p, key) else GroupKeys(p, key) + [k]
  {
    var p, x := arr[..|arr| - 1], arr[|arr| - 1];
    KeysOfAppend(p, x, key);
    assert arr == p + [x];
    var ks := KeysOf(arr, key);
    assert ks[..|ks| - 1] == KeysOf(p, key);
  }

  /** A successful `GroupBy` of a non-empty input is a successful `GroupBy` of all but
      the last element followed by one push. */
  lemma GroupBySnoc<T(!new)>(arr: seq<T>, key: T -> string)
    requires |arr| > 0 && GroupBy(arr, key).Success?
    ensures GroupBy(arr[..|arr| - 1], key).Success?
    ensures Push(GroupBy(arr[..|arr| - 1], key).value, arr[|arr| - 1], key) == GroupBy(arr, key)
  {
  }

  /** One push onto the groups adds one to the summed sizes. */
  lemma GroupSizesStep<T>(u: seq<string>, g: map<string, seq<T>>, k: string, x: T)
    requires NoDups(u)
    requires k in u <==> k in g
    ensures SumSizes(if k in u then u else u + [k], g[k := (if k in g then g[k] else []) + [x]])
         == SumSizes(u, g) + 1
  {
    var m := g[k := (if k in g then g[k] else []) + [x]];
    if k in g {
      SumSizesUpdate(u, g, k, g[k] + [x]);
    } else {
      assert [] + [x] == [x];
      assert m == g[k := [x]];
      SumSizesUpdateAbsent(u, g, k, [x]);
      var uk := u + [k];
      assert uk[..|uk| - 1] == u;
      assert uk[|uk| - 1] == k;
      assert SumSizes(uk, m) == SumSizes(u, m) + |m[k]|;
    }
  }

  // ---------------------------------------------------------------- sample

  /** `arr[Math.floor(Math.random() * arr.length)]`, or `undefined` for the empty array. */
  function Sample<T>(arr: seq<T>, u: real): (r: Option<T>)
    requires Js.IsDraw(u)
    ensures r.None? <==> |arr| == 0
    ensures r.Some? ==> r.value in arr
  {
    if |arr| == 0 then None else Some(arr[Js.PickIndex(u, |arr|)])
  }

  /** Every element can be sampled: the draw `k / |arr|` selects index `k`. */
  lemma SampleReachesEveryIndex<T>(arr: seq<T>, k: nat)
    requires k < |arr|
    ensures Js.IsDraw(k as real / |arr| as real)
    ensures Sample(arr, k as real / |arr| as real) == Some(arr[k])
  {
    var n := |arr| as real;
    var u := k as real / n;
    assert u * n == k as real;
    assert (k as real).Floor == k;
    assert u < 1.0 by {
      assert u * n < n;
    }
    assert Js.PickIndex(u, |arr|) == k;
  }
}
