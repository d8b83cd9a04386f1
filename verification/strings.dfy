/** The string helpers of `src/string.ts` other than the case-style converters.
    Strings are sequences of characters; case mapping is ASCII (module `Ascii`). */
module Strings {
  import opened Wrappers
  import opened Ascii
  import opened Seqs
  import Js

  // ------------------------------------------------------------ capitalize

  /** `capitalize`: the empty string is returned as is; otherwise the first character
      is upper-cased and the rest is left alone. */
  function Capitalize(s: string): (r: string)
    ensures |r| == |s|
    ensures |s| > 0 ==> r[0] == ToUpper(s[0]) && r[1..] == s[1..]
    ensures |s| > 0 ==> !IsLower(r[0])
  {
    if |s| == 0 then s else [ToUpper(s[0])] + s[1..]
  }

  /** Capitalizing twice is capitalizing once; an already capitalized string is unchanged. */
  lemma CapitalizeIdempotent(s: string)
    ensures Capitalize(Capitalize(s)) == Capitalize(s)
    ensures |s| > 0 && !IsLower(s[0]) ==> Capitalize(s) == s
  {
    if |s| > 0 {
      assert Capitalize(s) == [ToUpper(s[0])] + s[1..];
    }
  }

  // -------------------------------------------------------------- truncate

  /** The default suffix of `truncate`. */
  const ELLIPSIS: string := "..."

  /** `truncate(str, maxLength, suffix)`: unchanged when it fits; otherwise
      `str.slice(0, maxLength - suffix.length) + suffix`, where a negative slice end
      counts from the back of `str`. */
  function Truncate(s: string, maxLength: int, suffix: string): (r: string)
    ensures |s| <= maxLength ==> r == s
    ensures |s| > maxLength >= |suffix| ==> |r| == maxLength && r == s[..maxLength - |suffix|] + suffix
    ensures |s| > maxLength ==> |r| >= |suffix| && r[|r| - |suffix|..] == suffix
    ensures |s| > maxLength && maxLength < |suffix| ==>
              r == s[..if |s| + maxLength - |suffix| < 0 then 0 else |s| + maxLength - |suffix|] + suffix
  {
    if |s| <= maxLength then s
    else s[..Js.SliceEnd(maxLength - |suffix|, |s|)] + suffix
  }

  /** With a suffix that fits, truncating a truncated string changes nothing more. */
  lemma TruncateIdempotent(s: string, maxLength: int, suffix: string)
    requires maxLength >= |suffix|
    ensures Truncate(Truncate(s, maxLength, suffix), maxLength, suffix) == Truncate(s, maxLength, suffix)
  {
  }

  /** The documented examples, and what a suffix longer than the limit does: the slice end
      `2 - 3 = -1` counts from the back, so the result is longer than `maxLength`. */
  lemma TruncateExamples()
    ensures Truncate("hello world", 8, ELLIPSIS) == "hello..."
    ensures Truncate("hi", 8, ELLIPSIS) == "hi"
    ensures Truncate("hello world", 2, ELLIPSIS) == "hello worl..."
  {
    assert "hello world"[..5] == "hello";
    assert "hello world"[..10] == "hello worl";
  }

  // --------------------------------------------------------------- reverse

  /** `str.split('').reverse().join('')`. */
  function Reverse(s: string): (r: string)
    ensures |r| == |s|
    ensures forall i :: 0 <= i < |s| ==> r[i] == s[|s| - 1 - i]
    decreases |s|
  {
    if |s| == 0 then [] else Reverse(s[1..]) + [s[0]]
  }

  /** Reversing twice gives the string back. */
  lemma ReverseInvolution(s: string)
    ensures Reverse(Reverse(s)) == s
  {
    var rr := Reverse(Reverse(s));
    assert forall i :: 0 <= i < |s| ==> rr[i] == s[i];
  }

  // ---------------------------------------------------------- isPalindrome

  /** The characters `[a-z0-9]` kept by `replace(/[^a-z0-9]/g, '')`. */
  predicate IsLowerAlnum(c: char)
  {
    IsLower(c) || IsDigit(c)
  }

  /** The lower-cased string with everything outside `[a-z0-9]` removed: every
      `[a-z0-9]` character of the lower-cased string is kept, in order, and nothing else. */
  function Cleaned(s: string): (r: string)
    ensures forall i :: 0 <= i < |r| ==> IsLowerAlnum(r[i])
    ensures SubseqOf(r, Lower(s))
    ensures forall c :: IsLowerAlnum(c) ==> multiset(r)[c] == multiset(Lower(s))[c]
  {
    FilterIsSubseq(Lower(s), IsLowerAlnum);
    Filter(Lower(s), IsLowerAlnum)
  }

  /** `isPalindrome`: the cleaned string equals its reverse, i.e. reads the same from
      both ends. */
  function IsPalindrome(s: string): (r: bool)
    ensures r <==> forall i :: 0 <= i < |Cleaned(s)| ==> Cleaned(s)[i] == Cleaned(s)[|Cleaned(s)| - 1 - i]
    ensures |s| == 0 ==> r
  {
    var c := Cleaned(s);
    if c == Reverse(c) then true
    else
      assert exists i :: 0 <= i < |c| && c[i] != Reverse(c)[i];
      false
  }

  /** Only letters and digits matter, and their case does not. */
  lemma PalindromeIgnoresCase(s: string)
    ensures IsPalindrome(Upper(s)) == IsPalindrome(s)
    ensures IsPalindrome(Lower(s)) == IsPalindrome(s)
  {
    assert Lower(Upper(s)) == Lower(s) by {
      forall i | 0 <= i < |s|
        ensures Lower(Upper(s))[i] == Lower(s)[i]
      {
        LowerForgetsCase(s[i]);
      }
    }
    assert Lower(Lower(s)) == Lower(s);
  }

  /** Appending a character that is neither a letter nor a digit changes nothing. */
  lemma PalindromeIgnoresPunctuation(s: string, c: char)
    requires !IsLowerAlnum(ToLower(c))
    ensures Cleaned(s + [c]) == Cleaned(s)
    ensures IsPalindrome(s + [c]) == IsPalindrome(s)
  {
    assert Lower(s + [c]) == Lower(s) + [ToLower(c)];
    FilterAppend(Lower(s), [ToLower(c)], IsLowerAlnum);
  }

  // ------------------------------------------------------ countOccurrences

  /** The regular-expression metacharacters; a substring free of them matches literally. */
  predicate IsRegexMeta(c: char)
  {
    c in "\\^$.|?*+()[]{}"
  }

  /** `t` occurs in `s` at position `i`. */
  ghost predicate OccursAt(t: string, s: string, i: int)
  {
    0 <= i && i + |t| <= |s| && s[i..i + |t|] == t
  }

  /** The matches of a global regular-expression search: leftmost first, each search
      resuming after the previous match, so matches do not overlap. */
  function CountMatches(s: string, sub: string): (r: nat)
    requires |sub| > 0
    ensures r * |sub| <= |s|
    decreases |s|
  {
    if |s| < |sub| then 0
    else if s[..|sub|] == sub then 1 + CountMatches(s[|sub|..], sub)
    else CountMatches(s[1..], sub)
  }

  /** No match is counted exactly when the substring occurs nowhere. */
  lemma {:induction false} CountMatchesZeroIff(s: string, sub: string)
    requires |sub| > 0
    ensures CountMatches(s, sub) == 0 <==> forall i :: !OccursAt(sub, s, i)
    decreases |s|
  {
    if |s| < |sub| {
    } else if s[..|sub|] == sub {
      assert OccursAt(sub, s, 0);
    } else {
      CountMatchesZeroIff(s[1..], sub);
      if CountMatches(s, sub) == 0 {
        forall i | OccursAt(sub, s, i)
          ensures false
        {
          assert i > 0;
          assert s[1..][i - 1..i - 1 + |sub|] == s[i..i + |sub|];
          assert OccursAt(sub, s[1..], i - 1);
        }
      } else {
        var j :| OccursAt(sub, s[1..], j);
        assert s[1..][j..j + |sub|] == s[j + 1..j + 1 + |sub|];
        assert OccursAt(sub, s, j + 1);
      }
    }
  }

  /** `i` is the leftmost occurrence of `sub` in `s` at or after position `from`. */
  ghost predicate LeftmostFrom(sub: string, s: string, from: int, i: int)
  {
    from <= i && OccursAt(sub, s, i) && forall j :: from <= j < i ==> !OccursAt(sub, s, j)
  }

  /** `p` lists the matches of a global search that starts at `from`: the leftmost
      occurrence at or after `from`, then the leftmost one at or after the end of that
      match, and so on until no occurrence is left. */
  ghost predicate GreedyMatches(sub: string, s: string, from: int, p: seq<int>)
    decreases |p|
  {
    if |p| == 0 then forall j :: from <= j ==> !OccursAt(sub, s, j)
    else LeftmostFrom(sub, s, from, p[0]) && GreedyMatches(sub, s, p[0] + |sub|, p[1..])
  }

  /** The match positions of a global search from `from`, found position by position. */
  ghost function Matches(sub: string, s: string, from: nat): seq<int>
    requires |sub| > 0
    decreases |s| - from
  {
    if from + |sub| > |s| then []
    else if s[from..from + |sub|] == sub then [from] + Matches(sub, s, from + |sub|)
    else Matches(sub, s, from + 1)
  }

  /** A position holding no occurrence can be put in front of a search. */
  lemma GreedyFromEarlier(sub: string, s: string, from: int, p: seq<int>)
    requires !OccursAt(sub, s, from)
    requires GreedyMatches(sub, s, from + 1, p)
    ensures GreedyMatches(sub, s, from, p)
  {
    if |p| > 0 {
      assert LeftmostFrom(sub, s, from + 1, p[0]);
      assert LeftmostFrom(sub, s, from, p[0]);
    }
  }

  /** A global search always has a list of matches. */
  lemma {:induction false} MatchesGreedy(sub: string, s: string, from: nat)
    requires |sub| > 0
    ensures GreedyMatches(sub, s, from, Matches(sub, s, from))
    decreases |s| - from
  {
    var p := Matches(sub, s, from);
    if from + |sub| > |s| {
      assert forall j :: from <= j ==> !OccursAt(sub, s, j);
    } else if s[from..from + |sub|] == sub {
      MatchesGreedy(sub, s, from + |sub|);
      assert p[0] == from && p[1..] == Matches(sub, s, from + |sub|);
      assert LeftmostFrom(sub, s, from, from);
    } else {
      MatchesGreedy(sub, s, from + 1);
      GreedyFromEarlier(sub, s, from, p);
    }
  }

  /** One step of `CountMatches`, read on the suffixes of `s`. */
  lemma CountStep(s: string, sub: string, from: nat)
    requires |sub| > 0 && from < |s|
    ensures !OccursAt(sub, s, from) ==> CountMatches(s[from..], sub) == CountMatches(s[from + 1..], sub)
    ensures OccursAt(sub, s, from) ==> CountMatches(s[from..], sub) == 1 + CountMatches(s[from + |sub|..], sub)
  {
    var t := s[from..];
    assert t[1..] == s[from + 1..];
    if |t| >= |sub| {
      assert t[..|sub|] == s[from..from + |sub|];
      assert t[|sub|..] == s[from + |sub|..];
    }
  }

  /** Positions without an occurrence add nothing to the count. */
  lemma {:induction false} SkipTo(s: string, sub: string, from: nat, i: nat)
    requires |sub| > 0 && from <= i <= |s|
    requires forall j :: from <= j < i ==> !OccursAt(sub, s, j)
    ensures CountMatches(s[from..], sub) == CountMatches(s[i..], sub)
    decreases i - from
  {
    if from < i {
      CountStep(s, sub, from);
      SkipTo(s, sub, from + 1, i);
    }
  }

  /** A suffix without occurrences counts nothing. */
  lemma NoneLeft(s: string, sub: string, from: nat)
    requires |sub| > 0 && from <= |s|
    requires forall j :: from <= j ==> !OccursAt(sub, s, j)
    ensures CountMatches(s[from..], sub) == 0
  {
    CountMatchesZeroIff(s[from..], sub);
    forall i | OccursAt(sub, s[from..], i)
      ensures false
    {
      assert s[from..][i..i + |sub|] == s[from + i..from + i + |sub|];
      assert OccursAt(sub, s, from + i);
    }
  }

  /** `CountMatches` counts the matches of the global search. */
  lemma {:induction false} GreedyCount(s: string, sub: string, from: nat, p: seq<int>)
    requires |sub| > 0 && from <= |s|
    requires GreedyMatches(sub, s, from, p)
    ensures CountMatches(s[from..], sub) == |p|
    decreases |p|
  {
    if |p| == 0 {
      NoneLeft(s, sub, from);
    } else {
      GreedyHead(sub, s, from, p);
      GreedyCount(s, sub, p[0] + |sub|, p[1..]);
      CountAfterFirst(s, sub, from, p[0], |p| - 1);
    }
  }

  /** Skipping to the first occurrence and counting it adds one to the count after it. */
  lemma CountAfterFirst(s: string, sub: string, from: nat, i: nat, k: int)
    requires |sub| > 0 && from <= i && OccursAt(sub, s, i)
    requires forall j :: from <= j < i ==> !OccursAt(sub, s, j)
    requires CountMatches(s[i + |sub|..], sub) == k
    ensures CountMatches(s[from..], sub) == k + 1
  {
    SkipTo(s, sub, from, i);
    CountStep(s, sub, i);
  }

  /** The first match of a search from `from`, and the search that resumes after it. */
  lemma GreedyHead(sub: string, s: string, from: int, p: seq<int>)
    requires |sub| > 0 && |p| > 0 && GreedyMatches(sub, s, from, p)
    ensures from <= p[0] && p[0] + |sub| <= |s| && OccursAt(sub, s, p[0])
    ensures forall j :: from <= j < p[0] ==> !OccursAt(sub, s, j)
    ensures GreedyMatches(sub, s, p[0] + |sub|, p[1..])
  {
  }

  /** The count is the number of matches a global search finds: there is such a list of
      matches, and every such list is as long as the count. */
  lemma CountMatchesIsGreedy(s: string, sub: string)
    requires |sub| > 0
    ensures exists p :: GreedyMatches(sub, s, 0, p) && |p| == CountMatches(s, sub)
    ensures forall p :: GreedyMatches(sub, s, 0, p) ==> |p| == CountMatches(s, sub)
  {
    assert s[0..] == s;
    MatchesGreedy(sub, s, 0);
    GreedyCount(s, sub, 0, Matches(sub, s, 0));
    forall p | GreedyMatches(sub, s, 0, p)
      ensures |p| == CountMatches(s, sub)
    {
      GreedyCount(s, sub, 0, p);
    }
  }

  /** `countOccurrences(str, substring)`: 0 for an empty substring, otherwise the number
      of non-overlapping left-to-right matches of the substring taken literally. */
  function CountOccurrences(s: string, sub: string): (r: nat)
    requires forall i :: 0 <= i < |sub| ==> !IsRegexMeta(sub[i])
    ensures |sub| == 0 ==> r == 0
    ensures |sub| > 0 ==> exists p :: GreedyMatches(sub, s, 0, p) && |p| == r
    ensures |sub| > 0 ==> forall p :: GreedyMatches(sub, s, 0, p) ==> |p| == r
    ensures |sub| > 0 ==> (r == 0 <==> forall i :: !OccursAt(sub, s, i))
    ensures |sub| > 0 ==> r * |sub| <= |s|
  {
    if |sub| == 0 then 0
    else
      CountMatchesZeroIff(s, sub);
      CountMatchesIsGreedy(s, sub);
      CountMatches(s, sub)
  }

  /** `n` back-to-back copies of `t`. */
  function Repeat(t: string, n: nat): (r: string)
    ensures |r| == n * |t|
  {
    if n == 0 then [] else t + Repeat(t, n - 1)
  }

  /** `n` adjacent copies are counted `n` times. */
  lemma {:induction false} CountRepeat(t: string, n: nat)
    requires |t| > 0
    ensures CountMatches(Repeat(t, n), t) == n
    decreases n
  {
    if n > 0 {
      var s := Repeat(t, n);
      assert s[..|t|] == t;
      assert s[|t|..] == Repeat(t, n - 1);
      CountRepeat(t, n - 1);
    }
  }

  /** The documented examples: two separate matches, and none for an absent substring. */
  lemma CountOccurrencesExample()
    ensures CountOccurrences("hello hello world", "hello") == 2
    ensures CountOccurrences("hello", "") == 0
  {
    HelloMatches();
  }

  lemma HelloMatches()
    ensures CountMatches("hello hello world", "hello") == 2
  {
    var s := "hello hello world";
    assert s[..5] == "hello" && s[5..] == " hello world";
    HelloAfterSpace();
  }

  lemma HelloAfterSpace()
    ensures CountMatches(" hello world", "hello") == 1
  {
    var s := " hello world";
    assert s[..5][0] == ' ' && s[1..] == "hello world";
    HelloWorld();
  }

  lemma HelloWorld()
    ensures CountMatches("hello world", "hello") == 1
  {
    var s := "hello world";
    assert s[..5] == "hello" && s[5..] == " world";
    NoHelloInWorld();
  }

  lemma NoHelloInWorld()
    ensures CountMatches(" world", "hello") == 0
  {
    var s := " world";
    assert s[0] == ' ' && s[1..] == "world";
    var t := "world";
    assert t[0] == 'w' && |t[1..]| == 4;
  }

  // ----------------------------------------------------------- randomString

  /** The default character set of `randomString`: the 62 ASCII letters and digits. */
  const ALPHANUMERIC: string := "ABCDEFGHIJKLMNOPQRSTUVWXYZabcdefghijklmnopqrstuvwxyz0123456789"

  /** `randomString(length, chars)`: `length` times, append
      `chars.charAt(Math.floor(Math.random() * chars.length))`, the i-th draw being
      `draws[i]`. On an empty `chars` the character read is `""`, so nothing is added. */
  method RandomString(length: int, chars: string, draws: seq<real>) returns (r: string)
    requires length <= |draws|
    requires forall k :: 0 <= k < |draws| ==> Js.IsDraw(draws[k])
    ensures |r| == if length <= 0 || |chars| == 0 then 0 else length
    ensures |r| <= |draws|
    ensures forall i :: 0 <= i < |r| ==> r[i] in chars
    ensures |chars| > 0 ==> forall i :: 0 <= i < |r| ==> r[i] == chars[Js.PickIndex(draws[i], |chars|)]
  {
    r := "";
    var i := 0;
    while i < length
      invariant 0 <= i <= if length < 0 then 0 else length
      invariant |r| == if |chars| == 0 then 0 else i
      invariant forall k :: 0 <= k < |r| ==> r[k] in chars
      invariant |chars| > 0 ==> forall k :: 0 <= k < |r| ==> r[k] == chars[Js.PickIndex(draws[k], |chars|)]
    {
      if |chars| > 0 {
        r := r + [chars[Js.PickIndex(draws[i], |chars|)]];
      }
      i := i + 1;
    }
  }

  // --------------------------------------------------------------- isEmpty

  /** `isEmpty(str)`: `!str`, true for `null`/`undefined` (None) and for `""` only. */
  function IsEmpty(str: Option<string>): (r: bool)
    ensures r <==> str == None || str == Some("")
  {
    match str
    case None => true
    case Some(s) => |s| == 0
  }

  /** A whitespace-only string is not empty: this is a presence check, not a blank check. */
  lemma WhitespaceIsNotEmpty(s: string)
    requires |s| > 0 && forall i :: 0 <= i < |s| ==> IsSpace(s[i])
    ensures !IsEmpty(Some(s))
  {
  }
}
