/** The case-style converters of `src/string.ts` (`toKebabCase`, `toCamelCase`,
    `toSnakeCase`). Each regular-expression replacement is rewritten as an explicit
    left-to-right scan over the characters. */
module CaseStyles {
  import opened Ascii
  import opened Seqs

  // ------------------------------------------------------- camel humps

  /** A lower-case letter immediately followed by an upper-case one. */
  predicate HumpAt(s: string, i: int)
  {
    0 <= i < |s| - 1 && IsLower(s[i]) && IsUpper(s[i + 1])
  }

  /** The number of humps in `s`. */
  function Humps(s: string): nat
    decreases |s|
  {
    if |s| < 2 then 0 else (if HumpAt(s, 0) then 1 else 0) + Humps(s[1..])
  }

  /** Deletes every occurrence of `c`. */
  function Without(s: string, c: char): (r: string)
    ensures |r| <= |s|
    decreases |s|
  {
    if |s| == 0 then [] else (if s[0] == c then [] else [s[0]]) + Without(s[1..], c)
  }

  lemma {:induction false} WithoutAppend(a: string, b: string, c: char)
    ensures Without(a + b, c) == Without(a, c) + Without(b, c)
    decreases |a|
  {
    if |a| == 0 {
      assert a + b == b;
    } else {
      assert (a + b)[1..] == a[1..] + b;
      WithoutAppend(a[1..], b, c);
    }
  }

  /** `replace(/([a-z])([A-Z])/g, '$1' + sep + '$2')`. A match consumes the upper-case
      letter, which can never start the next match, so every hump gets one `sep`. */
  function SplitHumps(s: string, sep: char): string
    decreases |s|
  {
    if |s| < 2 then s
    else if HumpAt(s, 0) then [s[0], sep] + SplitHumps(s[1..], sep)
    else [s[0]] + SplitHumps(s[1..], sep)
  }

  /** `SplitHumps` inserts exactly one `sep` per hump, changes nothing else, and leaves
      no hump behind. */
  lemma {:induction false} SplitHumpsSpec(s: string, sep: char)
    requires !IsLower(sep) && !IsUpper(sep)
    ensures |SplitHumps(s, sep)| == |s| + Humps(s)
    ensures Without(SplitHumps(s, sep), sep) == Without(s, sep)
    ensures forall i :: !HumpAt(SplitHumps(s, sep), i)
    ensures |s| > 0 ==> SplitHumps(s, sep)[0] == s[0]
    decreases |s|
  {
    if |s| >= 2 {
      var rest := SplitHumps(s[1..], sep);
      SplitHumpsSpec(s[1..], sep);
      assert s == [s[0]] + s[1..];
      WithoutAppend([s[0]], s[1..], sep);
      var r := SplitHumps(s, sep);
      if HumpAt(s, 0) {
        assert r == [s[0], sep] + rest;
        WithoutAppend([s[0], sep], rest, sep);
        forall i | 0 <= i < |r| - 1
          ensures !HumpAt(r, i)
        {
          if i >= 2 { assert !HumpAt(rest, i - 2); }
        }
      } else {
        assert r == [s[0]] + rest;
        WithoutAppend([s[0]], rest, sep);
        forall i | 0 <= i < |r| - 1
          ensures !HumpAt(r, i)
        {
          if i >= 1 { assert !HumpAt(rest, i - 1); }
        }
      }
    }
  }

  /** Where `SplitHumps` puts things: character `i` of `s` moves right by the number of
      humps up to it, and a hump at `i` is followed by `sep`. With the length stated by
      `SplitHumpsSpec` this fixes every character of the result. */
  lemma {:induction false} SplitHumpsPlaces(s: string, sep: char, i: nat)
    requires i < |s|
    ensures i + Humps(s[..i + 1]) < |SplitHumps(s, sep)|
    ensures SplitHumps(s, sep)[i + Humps(s[..i + 1])] == s[i]
    ensures HumpAt(s, i) ==> i + Humps(s[..i + 1]) + 1 < |SplitHumps(s, sep)|
    ensures HumpAt(s, i) ==> SplitHumps(s, sep)[i + Humps(s[..i + 1]) + 1] == sep
    decreases |s|
  {
    assert Humps(s[..1]) == 0;
    if |s| >= 2 && i > 0 {
      var t := s[1..];
      SplitHumpsPlaces(t, sep, i - 1);
      HumpsPrefix(s, i);
      assert s[i] == t[i - 1];
      assert HumpAt(s, i) <==> HumpAt(t, i - 1);
    }
  }

  /** Counting the humps of a prefix of length at least 2 starts with position 0. */
  lemma HumpsPrefix(s: string, i: nat)
    requires 1 <= i < |s|
    ensures Humps(s[..i + 1]) == (if HumpAt(s, 0) then 1 else 0) + Humps(s[1..][..i])
  {
    var u := s[..i + 1];
    assert u[0] == s[0] && u[1] == s[1];
    assert u[1..] == s[1..][..i];
  }

  // ------------------------------------------------------- runs of a class

  /** `s` without its leading characters of class `p`. */
  function DropRun(s: string, p: char -> bool): (r: string)
    ensures |r| <= |s| && r == s[|s| - |r|..]
    ensures |r| > 0 ==> !p(r[0])
    decreases |s|
  {
    if |s| == 0 || !p(s[0]) then s else DropRun(s[1..], p)
  }

  /** `replace(/[class]+/g, rep)`: every maximal run of characters of class `p` becomes
      one `rep`. */
  function CollapseRuns(s: string, p: char -> bool, rep: char): string
    decreases |s|
  {
    if |s| == 0 then []
    else if p(s[0]) then [rep] + CollapseRuns(DropRun(s, p), p, rep)
    else [s[0]] + CollapseRuns(s[1..], p, rep)
  }

  /** With a replacement outside the class, no class character survives, and the output
      is never longer. */
  lemma {:induction false} CollapseRunsSpec(s: string, p: char -> bool, rep: char)
    requires !p(rep)
    ensures forall i :: 0 <= i < |CollapseRuns(s, p, rep)| ==> !p(CollapseRuns(s, p, rep)[i])
    ensures |CollapseRuns(s, p, rep)| <= |s|
    decreases |s|
  {
    if |s| > 0 {
      var r := CollapseRuns(s, p, rep);
      if p(s[0]) {
        var t := DropRun(s, p);
        CollapseRunsSpec(t, p, rep);
        assert r == [rep] + CollapseRuns(t, p, rep);
      } else {
        CollapseRunsSpec(s[1..], p, rep);
        assert r == [s[0]] + CollapseRuns(s[1..], p, rep);
      }
    }
  }

  /** A string without class characters is unchanged. */
  lemma CollapseRunsClassFree(s: string, p: char -> bool, rep: char)
    requires forall i :: 0 <= i < |s| ==> !p(s[i])
    ensures CollapseRuns(s, p, rep) == s
  {
    CollapseWord(s, [], p, rep);
    assert s + [] == s;
  }

  /** Characters outside the class pass through: a word without class characters is
      copied. */
  lemma {:induction false} CollapseWord(w: string, t: string, p: char -> bool, rep: char)
    requires forall i :: 0 <= i < |w| ==> !p(w[i])
    ensures CollapseRuns(w + t, p, rep) == w + CollapseRuns(t, p, rep)
    decreases |w|
  {
    if |w| > 0 {
      var s := w + t;
      assert s[0] == w[0] && !p(s[0]);
      assert s[1..] == w[1..] + t;
      CollapseWord(w[1..], t, p, rep);
      assert CollapseRuns(s, p, rep) == [w[0]] + (w[1..] + CollapseRuns(t, p, rep));
      assert [w[0]] + (w[1..] + CollapseRuns(t, p, rep)) == w + CollapseRuns(t, p, rep);
    } else {
      assert w + t == t;
    }
  }

  /** A whole run of class characters becomes exactly one `rep`. */
  lemma CollapseRun(g: string, t: string, p: char -> bool, rep: char)
    requires |g| > 0 && forall i :: 0 <= i < |g| ==> p(g[i])
    requires |t| > 0 ==> !p(t[0])
    ensures CollapseRuns(g + t, p, rep) == [rep] + CollapseRuns(t, p, rep)
  {
    DropRunOfRun(g, t, p);
  }

  lemma {:induction false} DropRunOfRun(g: string, t: string, p: char -> bool)
    requires forall i :: 0 <= i < |g| ==> p(g[i])
    requires |t| > 0 ==> !p(t[0])
    ensures DropRun(g + t, p) == t
    decreases |g|
  {
    if |g| > 0 {
      assert (g + t)[1..] == g[1..] + t;
      DropRunOfRun(g[1..], t, p);
    } else {
      assert g + t == t;
    }
  }

  // ------------------------------------------------------------ kebab / snake

  predicate IsSpaceOrUnderscore(c: char)
  {
    IsSpace(c) || c == '_'
  }

  predicate IsSpaceOrHyphen(c: char)
  {
    IsSpace(c) || c == '-'
  }

  /** The shared pipeline of `toKebabCase` and `toSnakeCase`: `sep` at every hump, each
      run of class `p` collapsed into one `sep`, then lower-cased. */
  function Delimit(s: string, sep: char, p: char -> bool): (r: string)
    requires !p(sep) && !IsLower(sep) && !IsUpper(sep)
    requires forall c :: IsLower(c) ==> !p(c)
    ensures forall i :: 0 <= i < |r| ==> !IsUpper(r[i]) && !p(r[i])
  {
    var c := CollapseRuns(SplitHumps(s, sep), p, sep);
    CollapseRunsSpec(SplitHumps(s, sep), p, sep);
    LowerAvoids(c, p);
    Lower(c)
  }

  /** `toKebabCase`: no upper-case letters, whitespace or `_` remain. */
  function ToKebabCase(s: string): (r: string)
    ensures forall i :: 0 <= i < |r| ==> !IsUpper(r[i]) && !IsSpaceOrUnderscore(r[i])
  {
    Delimit(s, '-', IsSpaceOrUnderscore)
  }

  /** `toSnakeCase`: no upper-case letters, whitespace or `-` remain. */
  function ToSnakeCase(s: string): (r: string)
    ensures forall i :: 0 <= i < |r| ==> !IsUpper(r[i]) && !IsSpaceOrHyphen(r[i])
  {
    Delimit(s, '_', IsSpaceOrHyphen)
  }

  /** Lower-casing does not create characters of a class that holds no letters. */
  lemma LowerAvoids(s: string, p: char -> bool)
    requires forall c :: IsLower(c) ==> !p(c)
    requires forall i :: 0 <= i < |s| ==> !p(s[i])
    ensures forall i :: 0 <= i < |Lower(s)| ==> !p(Lower(s)[i])
  {
  }

  /** A string free of upper-case letters has no humps. */
  lemma NoUpperNoHumps(s: string)
    requires forall i :: 0 <= i < |s| ==> !IsUpper(s[i])
    ensures Humps(s) == 0
    decreases |s|
  {
    if |s| >= 2 {
      NoUpperNoHumps(s[1..]);
    }
  }

  /** `SplitHumps` leaves a hump-free string alone. */
  lemma {:induction false} NoHumpsFixed(s: string, sep: char)
    requires !IsLower(sep) && !IsUpper(sep)
    requires Humps(s) == 0
    ensures SplitHumps(s, sep) == s
    decreases |s|
  {
    if |s| >= 2 {
      NoHumpsFixed(s[1..], sep);
      assert s == [s[0]] + s[1..];
    }
  }

  /** Delimiting an already delimited string changes nothing. */
  lemma DelimitIdempotent(s: string, sep: char, p: char -> bool)
    requires !p(sep) && !IsLower(sep) && !IsUpper(sep)
    requires forall c :: IsLower(c) ==> !p(c)
    ensures Delimit(Delimit(s, sep, p), sep, p) == Delimit(s, sep, p)
  {
    var k := Delimit(s, sep, p);
    NoUpperNoHumps(k);
    NoHumpsFixed(k, sep);
    CollapseRunsClassFree(k, p, sep);
    LowerOfLower(k);
  }

  /** Converting to kebab case, or to snake case, twice is converting once. */
  lemma KebabSnakeIdempotent(s: string)
    ensures ToKebabCase(ToKebabCase(s)) == ToKebabCase(s)
    ensures ToSnakeCase(ToSnakeCase(s)) == ToSnakeCase(s)
  {
    DelimitIdempotent(s, '-', IsSpaceOrUnderscore);
    DelimitIdempotent(s, '_', IsSpaceOrHyphen);
  }

  /** A lower-case word followed by a string not starting with an upper-case letter
      passes through `SplitHumps`; followed by an upper-case letter, it gets `sep`. */
  lemma {:induction false} SplitHumpsLowerWord(w: string, t: string, sep: char)
    requires |w| > 0 && forall i :: 0 <= i < |w| ==> IsLower(w[i])
    requires |t| > 0
    ensures !IsUpper(t[0]) ==> SplitHumps(w + t, sep) == w + SplitHumps(t, sep)
    ensures IsUpper(t[0]) ==> SplitHumps(w + t, sep) == w + [sep] + SplitHumps(t, sep)
    decreases |w|
  {
    var s := w + t;
    assert s[0] == w[0];
    if |w| == 1 {
      assert s[1..] == t && s[1] == t[0];
      assert w == [w[0]];
      if IsUpper(t[0]) {
        assert SplitHumps(s, sep) == [w[0], sep] + SplitHumps(t, sep);
        assert [w[0], sep] + SplitHumps(t, sep) == w + [sep] + SplitHumps(t, sep);
      } else {
        assert SplitHumps(s, sep) == [w[0]] + SplitHumps(t, sep);
      }
    } else {
      assert s[1..] == w[1..] + t;
      assert s[1] == w[1] && !HumpAt(s, 0);
      SplitHumpsLowerWord(w[1..], t, sep);
      assert SplitHumps(s, sep) == [w[0]] + SplitHumps(w[1..] + t, sep);
      assert w == [w[0]] + w[1..];
      if IsUpper(t[0]) {
        assert [w[0]] + (w[1..] + [sep] + SplitHumps(t, sep)) == w + [sep] + SplitHumps(t, sep);
      } else {
        assert [w[0]] + (w[1..] + SplitHumps(t, sep)) == w + SplitHumps(t, sep);
      }
    }
  }

  /** Words without upper-case letters or class characters, joined by a run of class
      characters, are joined by a single `sep`. */
  lemma DelimitRun(w1: string, g: string, w2: string, sep: char, p: char -> bool)
    requires !p(sep) && !IsLower(sep) && !IsUpper(sep)
    requires forall c :: IsLower(c) ==> !p(c)
    requires forall i :: 0 <= i < |w1| ==> !IsUpper(w1[i]) && !p(w1[i])
    requires forall i :: 0 <= i < |w2| ==> !IsUpper(w2[i]) && !p(w2[i])
    requires |g| > 0 && forall i :: 0 <= i < |g| ==> p(g[i]) && !IsUpper(g[i])
    ensures Delimit(w1 + g + w2, sep, p) == w1 + [sep] + w2
  {
    var s := w1 + g + w2;
    NoUpperConcat(w1, g);
    NoUpperConcat(w1 + g, w2);
    NoUpperNoHumps(s);
    NoHumpsFixed(s, sep);
    assert s == w1 + (g + w2);
    CollapseBetween(w1, g, w2, p, sep);
    var c := w1 + [sep] + w2;
    assert w1 + ([sep] + w2) == c;
    NoUpperConcat(w1, [sep]);
    NoUpperConcat(w1 + [sep], w2);
    LowerOfLower(c);
  }

  lemma NoUpperConcat(a: string, b: string)
    requires forall i :: 0 <= i < |a| ==> !IsUpper(a[i])
    requires forall i :: 0 <= i < |b| ==> !IsUpper(b[i])
    ensures forall i :: 0 <= i < |a + b| ==> !IsUpper((a + b)[i])
  {
    forall i | 0 <= i < |a + b|
      ensures !IsUpper((a + b)[i])
    {
      if i < |a| {
        assert (a + b)[i] == a[i];
      } else {
        assert (a + b)[i] == b[i - |a|];
      }
    }
  }

  /** A run of class characters between two class-free words becomes one `sep`. */
  lemma CollapseBetween(w1: string, g: string, w2: string, p: char -> bool, sep: char)
    requires forall i :: 0 <= i < |w1| ==> !p(w1[i])
    requires forall i :: 0 <= i < |w2| ==> !p(w2[i])
    requires |g| > 0 && forall i :: 0 <= i < |g| ==> p(g[i])
    ensures CollapseRuns(w1 + (g + w2), p, sep) == w1 + ([sep] + w2)
  {
    RunThenWord(g, w2, p, sep);
    CollapseWord(w1, g + w2, p, sep);
  }

  lemma RunThenWord(g: string, w: string, p: char -> bool, sep: char)
    requires forall i :: 0 <= i < |w| ==> !p(w[i])
    requires |g| > 0 && forall i :: 0 <= i < |g| ==> p(g[i])
    ensures CollapseRuns(g + w, p, sep) == [sep] + w
  {
    CollapseRun(g, w, p, sep);
    CollapseRunsClassFree(w, p, sep);
  }

  /** Two lower-case words joined by one class character are joined by `sep`. */
  lemma DelimitLowerWords(w1: string, c: char, w2: string, sep: char, p: char -> bool)
    requires !p(sep) && !IsLower(sep) && !IsUpper(sep)
    requires forall x :: IsLower(x) ==> !p(x)
    requires forall i :: 0 <= i < |w1| ==> IsLower(w1[i])
    requires p(c) && !IsUpper(c)
    requires forall i :: 0 <= i < |w2| ==> IsLower(w2[i])
    ensures Delimit(w1 + [c] + w2, sep, p) == w1 + [sep] + w2
  {
    DelimitRun(w1, [c], w2, sep, p);
  }

  /** A lower-case word followed by a capitalised lower-case word has one hump, where
      `sep` goes. */
  lemma SplitOneHump(w1: string, c: char, w2: string, sep: char)
    requires |w1| > 0 && forall i :: 0 <= i < |w1| ==> IsLower(w1[i])
    requires IsUpper(c)
    requires forall i :: 0 <= i < |w2| ==> IsLower(w2[i])
    requires !IsLower(sep) && !IsUpper(sep)
    ensures SplitHumps(w1 + [c] + w2, sep) == w1 + [sep] + [c] + w2
  {
    var t := [c] + w2;
    assert w1 + [c] + w2 == w1 + t;
    SplitHumpsLowerWord(w1, t, sep);
    assert Humps(t) == 0 by {
      if |t| >= 2 {
        assert !HumpAt(t, 0);
        assert t[1..] == w2;
        NoUpperNoHumps(w2);
      }
    }
    NoHumpsFixed(t, sep);
  }

  /** A lower-case word followed by a capitalised word is split at the hump. */
  lemma DelimitHump(w1: string, c: char, w2: string, sep: char, p: char -> bool)
    requires !p(sep) && !IsLower(sep) && !IsUpper(sep)
    requires forall x :: IsLower(x) ==> !p(x)
    requires |w1| > 0 && forall i :: 0 <= i < |w1| ==> IsLower(w1[i])
    requires IsUpper(c) && !p(c)
    requires forall i :: 0 <= i < |w2| ==> IsLower(w2[i])
    ensures Delimit(w1 + [c] + w2, sep, p) == w1 + [sep] + [ToLower(c)] + w2
  {
    SplitOneHump(w1, c, w2, sep);
    var h := w1 + [sep] + [c] + w2;
    HumpClassFree(w1, c, w2, sep, p);
    CollapseRunsClassFree(h, p, sep);
    LowerHump(w1, c, w2, sep);
  }

  lemma HumpClassFree(w1: string, c: char, w2: string, sep: char, p: char -> bool)
    requires !p(sep) && !p(c)
    requires forall x :: IsLower(x) ==> !p(x)
    requires forall i :: 0 <= i < |w1| ==> IsLower(w1[i])
    requires forall i :: 0 <= i < |w2| ==> IsLower(w2[i])
    ensures forall i :: 0 <= i < |w1 + [sep] + [c] + w2| ==> !p((w1 + [sep] + [c] + w2)[i])
  {
    var h := w1 + [sep] + [c] + w2;
    forall i | 0 <= i < |h|
      ensures !p(h[i])
    {
      if i < |w1| {
        assert h[i] == w1[i];
      } else if i > |w1| + 1 {
        assert h[i] == w2[i - |w1| - 2];
      }
    }
  }

  lemma LowerHump(w1: string, c: char, w2: string, sep: char)
    requires !IsUpper(sep)
    requires forall i :: 0 <= i < |w1| ==> IsLower(w1[i])
    requires forall i :: 0 <= i < |w2| ==> IsLower(w2[i])
    ensures Lower(w1 + [sep] + [c] + w2) == w1 + [sep] + [ToLower(c)] + w2
  {
    var h, l := w1 + [sep] + [c] + w2, w1 + [sep] + [ToLower(c)] + w2;
    forall i | 0 <= i < |h|
      ensures Lower(h)[i] == l[i]
    {
      if i < |w1| {
        assert h[i] == w1[i] && l[i] == w1[i];
      } else if i > |w1| + 1 {
        assert h[i] == w2[i - |w1| - 2] && l[i] == w2[i - |w1| - 2];
      }
    }
  }

  /** The documented examples of `toKebabCase` and `toSnakeCase`. */
  lemma KebabHumpExample()
    ensures ToKebabCase("helloWorld") == "hello-world"
  {
    assert "hello" + ['W'] + "orld" == "helloWorld";
    assert IsUpper('W') && !IsSpaceOrUnderscore('W') && ToLower('W') == 'w';
    assert "hello" + ['-'] + ['w'] + "orld" == "hello-world";
    DelimitHump("hello", 'W', "orld", '-', IsSpaceOrUnderscore);
  }

  lemma KebabSpaceExample()
    ensures ToKebabCase("hello world") == "hello-world"
  {
    assert "hello" + [' '] + "world" == "hello world";
    assert "hello" + ['-'] + "world" == "hello-world";
    DelimitLowerWords("hello", ' ', "world", '-', IsSpaceOrUnderscore);
  }

  lemma KebabUnderscoreExample()
    ensures ToKebabCase("hello_world") == "hello-world"
  {
    assert "hello" + ['_'] + "world" == "hello_world";
    assert "hello" + ['-'] + "world" == "hello-world";
    DelimitLowerWords("hello", '_', "world", '-', IsSpaceOrUnderscore);
  }

  lemma SnakeHumpExample()
    ensures ToSnakeCase("helloWorld") == "hello_world"
  {
    assert "hello" + ['W'] + "orld" == "helloWorld";
    assert IsUpper('W') && !IsSpaceOrHyphen('W') && ToLower('W') == 'w';
    assert "hello" + ['_'] + ['w'] + "orld" == "hello_world";
    DelimitHump("hello", 'W', "orld", '_', IsSpaceOrHyphen);
  }

  lemma SnakeHyphenExample()
    ensures ToSnakeCase("hello-world") == "hello_world"
  {
    assert "hello" + ['-'] + "world" == "hello-world";
    assert "hello" + ['_'] + "world" == "hello_world";
    DelimitLowerWords("hello", '-', "world", '_', IsSpaceOrHyphen);
  }

  lemma SnakeSpaceExample()
    ensures ToSnakeCase("hello world") == "hello_world"
  {
    assert "hello" + [' '] + "world" == "hello world";
    assert "hello" + ['_'] + "world" == "hello_world";
    DelimitLowerWords("hello", ' ', "world", '_', IsSpaceOrHyphen);
  }

  // ------------------------------------------------------------------ camel

  predicate IsCamelSeparator(c: char)
  {
    c == '-' || c == '_' || IsSpace(c)
  }

  /** `replace(/[-_\s]+(.)?/g, (_, c) => c ? c.toUpperCase() : '')`: each maximal run of
      separators is removed and the character after it, if any, is upper-cased. The run
      is greedy, so that character is never a separator. */
  function JoinWords(s: string): string
    decreases |s|
  {
    if |s| == 0 then []
    else if IsCamelSeparator(s[0]) then
      var rest := DropRun(s, IsCamelSeparator);
      if |rest| == 0 then [] else [ToUpper(rest[0])] + JoinWords(rest[1..])
    else [s[0]] + JoinWords(s[1..])
  }

  /** No separator survives `JoinWords`, and it never lengthens the string. */
  lemma {:induction false} JoinWordsSpec(s: string)
    ensures forall i :: 0 <= i < |JoinWords(s)| ==> !IsCamelSeparator(JoinWords(s)[i])
    ensures |JoinWords(s)| <= |s|
    decreases |s|
  {
    if |s| > 0 {
      if IsCamelSeparator(s[0]) {
        var rest := DropRun(s, IsCamelSeparator);
        if |rest| > 0 {
          JoinWordsSpec(rest[1..]);
        }
      } else {
        JoinWordsSpec(s[1..]);
      }
    }
  }

  /** `replace(/^[A-Z]/, c => c.toLowerCase())`. */
  function LowerFirst(s: string): (r: string)
    ensures |r| == |s|
    ensures |r| > 0 ==> !IsUpper(r[0]) && r[1..] == s[1..]
  {
    if |s| > 0 && IsUpper(s[0]) then [ToLower(s[0])] + s[1..] else s
  }

  /** `toCamelCase`. */
  function ToCamelCase(s: string): (r: string)
    ensures forall i :: 0 <= i < |r| ==> !IsCamelSeparator(r[i])
    ensures |r| > 0 ==> !IsUpper(r[0])
    ensures |r| <= |s|
  {
    JoinWordsSpec(s);
    LowerFirst(JoinWords(s))
  }

  /** A word without separators is copied as is. */
  lemma {:induction false} JoinWordsWord(w: string, t: string)
    requires forall i :: 0 <= i < |w| ==> !IsCamelSeparator(w[i])
    ensures JoinWords(w + t) == w + JoinWords(t)
    decreases |w|
  {
    if |w| > 0 {
      assert (w + t)[1..] == w[1..] + t;
      JoinWordsWord(w[1..], t);
    } else {
      assert w + t == t;
    }
  }

  /** A separator run followed by a character upper-cases that character. */
  lemma JoinWordsRun(g: string, c: char, t: string)
    requires |g| > 0 && forall i :: 0 <= i < |g| ==> IsCamelSeparator(g[i])
    requires !IsCamelSeparator(c)
    ensures JoinWords(g + [c] + t) == [ToUpper(c)] + JoinWords(t)
  {
    DropRunOfRun(g, [c] + t, IsCamelSeparator);
    assert g + [c] + t == g + ([c] + t);
    assert ([c] + t)[1..] == t;
  }

  /** A trailing separator run disappears. */
  lemma JoinWordsTrailingRun(g: string)
    requires |g| > 0 && forall i :: 0 <= i < |g| ==> IsCamelSeparator(g[i])
    ensures JoinWords(g) == []
  {
    DropRunOfRun(g, [], IsCamelSeparator);
    assert g + [] == g;
  }

  /** Converting to camel case twice is converting once. */
  lemma CamelIdempotent(s: string)
    ensures ToCamelCase(ToCamelCase(s)) == ToCamelCase(s)
  {
    var c := ToCamelCase(s);
    JoinWordsWord(c, []);
    assert c + [] == c;
  }

  /** Two words joined by a separator run become one camel-case word: the run is
      dropped and the first letter of the second word is upper-cased. */
  lemma CamelTwoWords(w1: string, g: string, c: char, w2: string)
    requires forall i :: 0 <= i < |w1| ==> !IsCamelSeparator(w1[i])
    requires |w1| > 0 && !IsUpper(w1[0])
    requires |g| > 0 && forall i :: 0 <= i < |g| ==> IsCamelSeparator(g[i])
    requires !IsCamelSeparator(c)
    requires forall i :: 0 <= i < |w2| ==> !IsCamelSeparator(w2[i])
    ensures ToCamelCase(w1 + g + [c] + w2) == w1 + [ToUpper(c)] + w2
  {
    var s := w1 + g + [c] + w2;
    assert s == w1 + (g + [c] + w2);
    JoinWordsWord(w1, g + [c] + w2);
    JoinWordsRun(g, c, w2);
    JoinWordsWord(w2, []);
    assert w2 + [] == w2;
    var j := w1 + [ToUpper(c)] + w2;
    assert JoinWords(s) == j;
    assert j[0] == w1[0];
  }

  /** The documented examples. */
  lemma CamelExamples()
    ensures ToCamelCase("hello-world") == "helloWorld"
    ensures ToCamelCase("hello_world") == "helloWorld"
    ensures ToCamelCase("hello world") == "helloWorld"
  {
    CamelTwoWords("hello", "-", 'w', "orld");
    assert "hello" + "-" + ['w'] + "orld" == "hello-world";
    CamelTwoWords("hello", "_", 'w', "orld");
    assert "hello" + "_" + ['w'] + "orld" == "hello_world";
    CamelTwoWords("hello", " ", 'w', "orld");
    assert "hello" + " " + ['w'] + "orld" == "hello world";
    assert "hello" + [ToUpper('w')] + "orld" == "helloWorld";
  }
}
