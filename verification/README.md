# TypeScript utility helpers, modelled in Dafny

This project models the helper functions of a small TypeScript utility library:
- array helpers (`src/array.ts`);
- string helpers (`src/string.ts`);
- date helpers (`src/date.ts`);
- arithmetic helpers (`src/math.ts`);
- miscellaneous helpers (`src/utils.ts`).

Each helper becomes a pure Dafny function, or a method where the source loops. Each has a
contract, and lemmas relate the helpers to independent reference definitions, to their
inverses, or to the invariants they keep.

Modules:

| module | file | contents |
|---|---|---|
| `Wrappers` | `wrappers.dfy` | `Option`, and `Result` for the helpers that throw |
| `Seqs` | `seqs.dfy` | `Filter` (the model of `Array.prototype.filter`), `Concat`, `IndexOf`, duplicate-freedom and subsequences |
| `Js` | `js.dfy` | the JavaScript semantics the helpers lean on: the truncating `%`, `Math.floor(Math.random() * n)`, and a negative `slice` end |
| `Ascii` | `ascii.dfy` | `toUpperCase` / `toLowerCase` on ASCII letters |
| `Decimal` | `decimal.dfy` | `String(n)` for integers, `padStart`, and the parsers used to state round trips |
| `Sorting` | `sorting.dfy` | a stable insertion sort by a comparison, and the code-unit string order of the default `sort()` |
| `Arrays` | `arrays.dfy` | `src/array.ts` |
| `Strings` | `strings.dfy` | `src/string.ts`, except the case-style converters |
| `CaseStyles` | `casestyles.dfy` | `toKebabCase`, `toSnakeCase`, `toCamelCase` |
| `Dates` | `dates.dfy` | `src/date.ts` |
| `Numbers` | `numbers.dfy` | `src/math.ts` |
| `Utils` | `utils.dfy` | `src/utils.ts` |

How the environment is handled:
- **Randomness.** `Math.random()` becomes an explicit draw `u` with `0 <= u < 1`. A random index is `floor(u * n)`, exactly as the source computes it. `shuffle` and `randomString` take a sequence of draws; `sample` takes one.
- **The clock.** "Now" is a parameter. `isToday` receives today's date. `getRelativeTime` receives the elapsed milliseconds, `now.getTime() - date.getTime()`.
- **Dates.** A JavaScript `Date` is reduced to the local-time fields the helpers read: year, zero-based month, day, hours, minutes and seconds.
- **`getDaysInMonth`.** This helper builds `new Date(year, month, 0)`. The model includes the constructor's rules as they affect the result:
  - years 0 to 99 mean 1900 to 1999;
  - month 0 means December of the year before;
  - months past 12 carry into the following years.
- **Arithmetic.** `number` becomes `int`. Division and averages become `real`.
- **JavaScript `%`.** It truncates toward zero and is modelled as `Js.Rem`. It differs from Dafny's `%` for negative operands.
- **Failures.** Helpers that throw return `Result.Failure`: `chunk` for a non-positive size, `divide` for a zero divisor, and `groupBy` when a key names a property every plain object inherits from `Object.prototype` (such as `"toString"`), where `groups[groupKey]` is a truthy function and the `push` throws a TypeError.
- **Input arrays.** Arrays are sequences. `removeItem`, which mutates its argument in place, returns the resulting sequence instead.

Where the library's names or documentation suggest more than its code does, the model follows the code:
- `truncate` cuts a string and appends the ellipsis. When `maxLength` is smaller than the suffix, `slice` gets a negative end and the result is longer than `maxLength` (`Strings.Truncate`, third example of `Strings.TruncateExamples`).
- `randomString` is documented as returning `length` characters. With an empty character set it returns the empty string (`Strings.RandomString`).
- `getDaysInMonth`'s year mapping means year 0 counts as 1900, which is not a leap year, although year 0 itself satisfies `isLeapYear` (`Dates.DaysInMonthTwoDigitYear`).

## Model

| member | source | states |
|---|---|---|
| Arrays.Unique | src/array.ts:8-10 | the result has no duplicates and holds exactly the input's values, each in the order of its first occurrence in the input |
| Arrays.UniqueOfDistinct | src/array.ts:8-10 | an array without duplicates comes back unchanged |
| Arrays.UniqueIdempotent | src/array.ts:8-10 | deduplicating twice equals deduplicating once |
| Arrays.Chunk | src/array.ts:15-22 | fails exactly when `size <= 0`; otherwise the chunks concatenate back to the input, all but the last have exactly `size` elements, the last has 1 to `size`, there are `ceil(n / size)` of them, an empty input gives no chunks and an input of at most `size` elements gives one chunk |
| Arrays.Chunks | src/array.ts:18-20 | every slice the loop pushes is non-empty and has at most `size` elements |
| Arrays.ChunksConcat | src/array.ts:18-20 | concatenating the chunks gives back the input |
| Arrays.ChunksSizes | src/array.ts:18-20 | every chunk but the last has exactly `size` elements; the last has between 1 and `size` |
| Arrays.ChunksCount | src/array.ts:18-20 | the number of chunks is `ceil(n / size)`, zero exactly for an empty input |
| Arrays.Flatten | src/array.ts:27-29 | `flat()` keeps the leaves in order and lowers the nesting depth by one (a flat array stays flat) |
| Arrays.FlattenOne | src/array.ts:27-29 | `flat()` of one element: a plain value stays as it is, a nested array is replaced by its elements |
| Arrays.FlattenAppend | src/array.ts:27-29 | `flat()` of a concatenation is the concatenation of the flattened parts, so with `FlattenOne` it fixes the result element by element |
| Arrays.LeavesAppend | src/array.ts:27-29 | the leaves of a concatenation are the concatenation of the leaves |
| Arrays.DepthAppend | src/array.ts:27-29 | the depth of a concatenation is the larger depth |
| Arrays.DepthZeroIsLeaves | src/array.ts:34-36 | an array of depth zero consists of its leaves |
| Arrays.FlattenDeepIsIteratedFlatten | src/array.ts:34-36 | flattening one level at a time, as often as the depth or more, yields exactly the leaves in order |
| Arrays.FlattenDeep | src/array.ts:34-36 | `flat(Infinity)` equals one-level flattening iterated depth times; a flat array is returned unchanged |
| Arrays.First | src/array.ts:48-50 | undefined exactly for the empty array, otherwise element 0 |
| Arrays.Last | src/array.ts:41-43 | undefined exactly for the empty array, otherwise the final element |
| Arrays.FirstLastReversed | src/array.ts:41-50 | `last` reads the end `first` does not: the last element of an array is the first element of its reversal, and on a one-element array the two agree |
| Arrays.Shuffle | src/array.ts:55-62 | the Fisher-Yates loop over `floor(u * (i + 1))` returns a permutation of the input: same length, same multiset |
| Arrays.Intersection | src/array.ts:67-70 | keeps exactly the elements of the first array that occur in the second, with their multiplicities and in their order |
| Arrays.Difference | src/array.ts:75-78 | keeps exactly the elements of the first array that do not occur in the second, with their multiplicities and in their order |
| Arrays.IntersectionDifferenceSplit | src/array.ts:67-78 | intersection and difference partition the first array: lengths add up and multisets sum to it |
| Arrays.GroupBy | src/array.ts:83-95 | fails exactly when some element's key names a property inherited from `Object.prototype`, reporting the first such key; otherwise a group exists exactly for each key some element produces, and each group is the input filtered to that key, in input order, and non-empty |
| Arrays.GroupByStep | src/array.ts:86-91 | one reduce step that succeeds (create the group if the read is falsy, push the element) keeps the grouping invariant |
| Arrays.GroupBySnoc | src/array.ts:84-94 | a successful reduce over a non-empty array is the reduce over all but the last element followed by one successful push of the last |
| Arrays.GroupNonEmptyIffKey | src/array.ts:86-90 | the filter for a key is non-empty exactly when some element has that key |
| Arrays.GroupKeys | src/array.ts:83-95 | the group keys in creation order, without duplicates, exactly the keys of the elements |
| Arrays.GroupSizesSum | src/array.ts:83-95 | when the grouping succeeds, the group sizes add up to the input length, so every element lands in exactly one group |
| Arrays.Sample | src/array.ts:100-103 | undefined exactly for the empty array, otherwise an element of the array |
| Arrays.SampleReachesEveryIndex | src/array.ts:100-103 | for every index there is a draw that selects it |
| Js.PickIndex | src/array.ts:102 | `floor(u * n)` with `0 <= u < 1` is a valid index below `n` |
| Js.SliceEnd | src/string.ts:47 | a `slice` end within the string is kept; a negative end counts back from the length |
| Js.Rem | src/math.ts:57-66 | `a % b` differs from `a` by a multiple of `b`, is non-negative and below `|b|` for non-negative `a`, and non-positive and above `-|b|` for negative `a`; this fixes the truncating remainder |
| Js.RemBounds | src/math.ts:57-66 | the truncating remainder takes the sign of the dividend and is smaller than the divisor in magnitude |
| Js.RemZeroIffDivides | src/math.ts:57-66 | the truncating remainder is zero exactly when the divisor divides the number |
| Ascii.ToUpper | src/string.ts:10 | upper-casing leaves no lower-case letter, maps each lower-case letter to its upper-case partner and leaves every other character alone |
| Ascii.ToLower | src/string.ts:20 | lower-casing leaves no upper-case letter, turns each upper-case letter into a lower-case one and leaves every other character alone |
| Ascii.CaseRoundTrip | src/string.ts:10 | lower-casing undoes upper-casing on lower-case letters, and conversely |
| Ascii.LowerForgetsCase | src/utils.ts:52 | lower-casing after upper-casing equals lower-casing |
| Strings.Capitalize | src/string.ts:8-11 | same length; the first character is upper-cased and the rest is unchanged; the empty string is returned as is |
| Strings.CapitalizeIdempotent | src/string.ts:8-11 | capitalising twice equals capitalising once, and a string not starting with a lower-case letter is unchanged |
| Strings.Truncate | src/string.ts:45-48 | a string within `maxLength` is returned unchanged; a longer one keeps a prefix and ends in the suffix, with length exactly `maxLength` when the suffix fits |
| Strings.TruncateIdempotent | src/string.ts:45-48 | truncating a truncated string changes nothing, when the suffix fits in `maxLength` |
| Strings.TruncateExamples | src/string.ts:45-48 | `("hello world", 8)` gives `"hello..."`, a short string is unchanged, and `maxLength` 2 gives a result longer than 2 |
| Strings.Reverse | src/string.ts:53-55 | same length, position `i` holds the character at `n - 1 - i` |
| Strings.ReverseInvolution | src/string.ts:53-55 | reversing twice gives back the string |
| Strings.Cleaned | src/string.ts:61 | the cleaned string keeps every `[a-z0-9]` character of the lower-cased input, in order and as often as it occurs there, and nothing else |
| Strings.IsPalindrome | src/string.ts:60-63 | true exactly when the cleaned string reads the same in both directions; the empty string is a palindrome |
| Strings.PalindromeIgnoresCase | src/string.ts:60-63 | upper- or lower-casing the input does not change the verdict |
| Strings.PalindromeIgnoresPunctuation | src/string.ts:60-63 | appending a character that is not a letter or digit does not change the verdict |
| Strings.CountMatchesIsGreedy | src/string.ts:70 | the count equals the number of matches of the global scan: leftmost match first, each next search starting at the end of the previous match, and no match left after the last |
| Strings.GreedyCount | src/string.ts:70 | any list of match positions found by that scan from a position has as many entries as the count of the rest of the string |
| Strings.MatchesGreedy | src/string.ts:70 | the positions the scan finds from any starting point form such a list |
| Strings.CountMatchesZeroIff | src/string.ts:70 | no match is counted exactly when the substring occurs nowhere |
| Strings.CountOccurrences | src/string.ts:68-71 | an empty substring counts 0; otherwise the count is the number of non-overlapping leftmost matches that `str.match(/sub/g)` returns, zero exactly when the substring does not occur, and the matches fit in the string |
| Strings.CountRepeat | src/string.ts:68-71 | a substring repeated `n` times is counted `n` times |
| Strings.CountOccurrencesExample | src/string.ts:68-71 | `"hello"` occurs twice in `"hello hello world"`; the empty substring counts 0 |
| Strings.RandomString | src/string.ts:80-86 | `length` characters when `length > 0` and the set is non-empty, otherwise none; each character is the set's character at `floor(u * |chars|)` for its draw, so every character is from the set |
| Strings.IsEmpty | src/string.ts:94-96 | true exactly for null, undefined and the empty string |
| Strings.WhitespaceIsNotEmpty | src/string.ts:94-96 | a whitespace-only string is not empty |
| CaseStyles.Delimit | src/string.ts:16-21 | the shared kebab/snake pipeline leaves no upper-case letter and no character of the collapsed class |
| CaseStyles.ToKebabCase | src/string.ts:16-21 | the result has no upper-case letter, whitespace or underscore |
| CaseStyles.ToSnakeCase | src/string.ts:35-40 | the result has no upper-case letter, whitespace or hyphen |
| CaseStyles.KebabSnakeIdempotent | src/string.ts:16-40 | converting to kebab case or snake case twice equals converting once |
| CaseStyles.DelimitIdempotent | src/string.ts:16-40 | the shared pipeline is idempotent |
| CaseStyles.SplitHumpsSpec | src/string.ts:18 | the first replacement lengthens the string by the number of lower-to-upper boundaries, changes nothing once the separator is removed, and leaves no such boundary |
| CaseStyles.SplitHumpsPlaces | src/string.ts:18 | the first replacement puts the separator exactly between the two letters of each lower-to-upper boundary: character `i` moves right by the number of boundaries up to it, and a boundary at `i` is followed by the separator |
| CaseStyles.CollapseRunsSpec | src/string.ts:19 | after the second replacement no character of the class remains and the string is not longer |
| CaseStyles.CollapseRunsClassFree | src/string.ts:19 | a string without class characters is unchanged by the second replacement |
| CaseStyles.DelimitHump | src/string.ts:16-21 | `w1 + C + w2` over lower-case words becomes `w1 + sep + c + w2` |
| CaseStyles.DelimitLowerWords | src/string.ts:16-21 | two lower-case words joined by one class character become the words joined by the separator |
| CaseStyles.DelimitRun | src/string.ts:16-21 | a run of class characters between words becomes one separator |
| CaseStyles.KebabHumpExample | src/string.ts:16-21 | `"helloWorld"` becomes `"hello-world"` |
| CaseStyles.KebabSpaceExample | src/string.ts:16-21 | `"hello world"` becomes `"hello-world"` |
| CaseStyles.KebabUnderscoreExample | src/string.ts:16-21 | `"hello_world"` becomes `"hello-world"` |
| CaseStyles.SnakeHumpExample | src/string.ts:35-40 | `"helloWorld"` becomes `"hello_world"` |
| CaseStyles.SnakeHyphenExample | src/string.ts:35-40 | `"hello-world"` becomes `"hello_world"` |
| CaseStyles.SnakeSpaceExample | src/string.ts:35-40 | `"hello world"` becomes `"hello_world"` |
| CaseStyles.JoinWordsSpec | src/string.ts:28 | after the first camel-case replacement no hyphen, underscore or whitespace remains and the string is not longer |
| CaseStyles.JoinWordsRun | src/string.ts:28 | a separator run followed by a character becomes that character upper-cased |
| CaseStyles.JoinWordsTrailingRun | src/string.ts:28 | a trailing separator run is dropped |
| CaseStyles.LowerFirst | src/string.ts:29 | only a leading upper-case letter is lowered |
| CaseStyles.ToCamelCase | src/string.ts:26-30 | no separator remains, the first character is not upper-case and the result is not longer |
| CaseStyles.CamelIdempotent | src/string.ts:26-30 | converting to camel case twice equals converting once |
| CaseStyles.CamelTwoWords | src/string.ts:26-30 | two words joined by a separator run become the first word followed by the second with its first letter upper-cased |
| CaseStyles.CamelExamples | src/string.ts:26-30 | `"hello-world"`, `"hello_world"` and `"hello world"` all become `"helloWorld"` |
| Decimal.NatToString | src/date.ts:10-11 | `String(n)` is a non-empty digit string without leading zero, of one digit below 10 and two digits below 100 |
| Decimal.ParseNatToString | src/date.ts:10-11 | parsing the digits of `String(n)` gives back `n` |
| Decimal.ParseIntToString | src/date.ts:9-12 | `String(n)` of an integer is an optional minus sign and digits, and parses back to `n` |
| Decimal.PadStart | src/date.ts:10-11 | `padStart` keeps the string as a suffix, reaches the width and fills only on the left |
| Decimal.TwoDigitsRoundTrip | src/date.ts:10-11 | a padded field below 100 is exactly two digits and parses back to its value |
| Dates.FormatDate | src/date.ts:8-13 | for a valid date the text parses back to year, month and day; its length is the year's length plus 6 |
| Dates.FormatDateTime | src/date.ts:18-24 | for a valid date the text parses back to all six fields; for four-digit years it has the `YYYY-MM-DD HH:mm:ss` shape |
| Dates.FormatDateParses | src/date.ts:8-13 | the date text of valid fields parses back to those fields |
| Dates.FormatDateTimeParses | src/date.ts:18-24 | the date text followed by the three padded time fields parses back to the date-time |
| Dates.FormatDateTimeShape | src/date.ts:18-24 | with a four-digit year the text is digits in the `YYYY-MM-DD HH:mm:ss` layout |
| Dates.ShortYearNotPadded | src/date.ts:9-12 | the year is not padded: year 999 renders as `"999-01-05"` |
| Dates.SameDateText | src/date.ts:99-102 | two valid dates format equally exactly when their year, month and day agree |
| Dates.IsToday | src/date.ts:99-102 | for valid dates, true exactly when year, month and day equal today's |
| Dates.IsLeapYear | src/date.ts:29-31 | the truncating-remainder test agrees with the Gregorian rule for every integer year, zero and negative years included |
| Dates.LeapYearPeriodic | src/date.ts:29-31 | the leap-year rule repeats every 400 years and holds for multiples of 400 |
| Dates.DaysInMonth | src/date.ts:36-38 | every month, after the constructor's normalisation, has 28 to 31 days |
| Dates.DaysInMonthTable | src/date.ts:36-38 | for months 1 to 12 outside years 0 to 99: 29 days exactly for February of a leap year, 28 exactly for February otherwise, 30 exactly for April, June, September and November |
| Dates.YearLength | src/date.ts:36-38 | the twelve months add up to 366 days in a leap year and 365 otherwise |
| Dates.DaysInMonthTwoDigitYear | src/date.ts:36-38 | year 0 satisfies `isLeapYear` but its February has 28 days, because the constructor reads it as 1900; year 2000 has 29 |
| Dates.DaysInMonthCarries | src/date.ts:36-38 | month 13 is January of the next year, month 14 is its February and month 0 is December |
| Dates.RelativeBucket | src/date.ts:107-121 | the elapsed time falls in exactly one bucket by the source's thresholds, and each bucket's count is the floored quotient, in range for its unit |
| Dates.Render | src/date.ts:115-120 | only the first bucket renders as "刚刚"; every other ends in "前" |
| Dates.RenderParses | src/date.ts:115-120 | every rendered text reads back as the bucket it came from, so it determines both the unit and the count |
| Dates.RelativeTime | src/date.ts:107-121 | "刚刚" exactly when less than a minute has elapsed, otherwise a text ending in "前"; the text reads back as the bucket of the elapsed time, carrying the unit and the floored count of `RelativeBucket` |
| Numbers.Add | src/math.ts:8-10 | `a + b`, on the integer model of `number`; it has no contract of its own, its laws are the next two rows |
| Numbers.Subtract | src/math.ts:15-17 | `a - b`, on the integer model of `number`; no contract of its own |
| Numbers.Multiply | src/math.ts:22-24 | `a * b`, on the integer model of `number`; no contract of its own |
| Numbers.AddSubtractRoundTrip | src/math.ts:8-24 | on the integer model of `number`, subtracting undoes adding and conversely, and multiplying by zero gives zero |
| Numbers.MultiplyDistributes | src/math.ts:8-24 | on the integer model of `number`, multiplication distributes over addition and commutes |
| Numbers.Divide | src/math.ts:30-35 | fails exactly for a zero divisor; otherwise the quotient times the divisor is the dividend |
| Numbers.Sum | src/math.ts:50-52 | the fold from 0 equals the reference total; the empty sum is 0 |
| Numbers.FoldSumIsTotal | src/math.ts:50-52 | the fold with any start value adds that value to the total |
| Numbers.SumAppend | src/math.ts:50-52 | the sum of a concatenation is the sum of the sums |
| Numbers.SumBounds | src/math.ts:50-52 | `n` values between `lo` and `hi` sum to between `n * lo` and `n * hi` |
| Numbers.Average | src/math.ts:40-45 | 0 for the empty array; otherwise the average times the count is the sum, and a single value is its own average |
| Numbers.AverageBounds | src/math.ts:40-45 | the average lies between any lower and upper bound of the values |
| Numbers.IsEven | src/math.ts:57-59 | `n % 2 === 0` with the truncating remainder holds exactly when 2 divides `n`, negatives included |
| Numbers.IsOdd | src/math.ts:64-66 | `n % 2 !== 0` holds exactly when `n` leaves remainder 1 on Euclidean division by 2, although the truncating remainder is -1 for negative odd `n` |
| Numbers.ParityComplement | src/math.ts:57-66 | every integer is even or odd but not both, including negatives; evenness ignores sign and flips with each step |
| Numbers.Clamp | src/math.ts:71-73 | never above `max`; within `[min, max]` when that range is non-empty; a value in range is kept, one below is raised to `min` and one above is lowered to `max`; an empty range yields `max` |
| Numbers.ClampIdempotent | src/math.ts:71-73 | clamping twice equals clamping once |
| Sorting.Insert | src/utils.ts:37 | insertion adds exactly the one new element and puts either it or the old head first |
| Sorting.SortBy | src/utils.ts:37 | sorting yields a permutation of the input |
| Sorting.SortBySorted | src/utils.ts:37 | under a total order the result is sorted |
| Sorting.SortByNoDups | src/utils.ts:37 | sorting keeps duplicate-freedom |
| Sorting.LexTotal | src/utils.ts:37 | the code-unit order of strings is total and antisymmetric |
| Utils.FoldProduct | src/utils.ts:5 | the reduce step `acc * n`, folded left; an accumulator that reaches 0 stays 0 |
| Utils.ProductAsWritten | src/utils.ts:4-6 | the reduce starting from 0 returns 0 for every array |
| Utils.Product | src/utils.ts:4-6 | the intended product: 1 for the empty array, the element itself for a one-element array; `ProductAppend` and `ProductZeroIff` give the rest |
| Utils.FoldProductScales | src/utils.ts:4-6 | a product fold from any start value equals that value times the intended product |
| Utils.ProductAppend | src/utils.ts:4-6 | the product of a concatenation is the product of the products; the empty product is 1 |
| Utils.ProductZeroIff | src/utils.ts:4-6 | the intended product is zero exactly when some factor is zero |
| Utils.ProductExample | src/utils.ts:4-6 | on `[2, 3, 4]` the code gives 0 where 24 is meant |
| Utils.FindMaxAsWritten | src/utils.ts:11-20 | undefined exactly for the empty array, otherwise the least element, because the loop compares with `<` |
| Utils.FindMax | src/utils.ts:11-20 | undefined exactly for the empty array, otherwise an element at least as large as every element |
| Utils.FindMaxAgreesIffConstant | src/utils.ts:11-20 | the loop as written returns the maximum exactly when all elements are equal |
| Utils.FindMaxExample | src/utils.ts:11-20 | on `[1, 3, 2]` the code gives 1 where 3 is meant |
| Utils.IsPrime | src/utils.ts:25-31 | true exactly when `n` is at least 2 and has no divisor strictly between 1 and `n` |
| Utils.UniqueSortedAsWritten | src/utils.ts:36-38 | deduplicates and sorts by the string order of the numbers' decimal texts |
| Utils.UniqueSorted | src/utils.ts:36-38 | the intended result holds exactly the input's values in strictly increasing numeric order |
| Utils.UniqueSortedExample | src/utils.ts:36-38 | on `[10, 9]` the code keeps `[10, 9]` where `[9, 10]` is meant |
| Utils.Fibonacci | src/utils.ts:43-46 | every value is at least 1 |
| Utils.FibonacciIsShifted | src/utils.ts:43-46 | `fibonacci(n)` is the standard Fibonacci number `F(n + 1)`, and 1 for negative `n` |
| Utils.FibonacciAtLeastIndex | src/utils.ts:43-46 | `fibonacci(n) >= n` for `n >= 1` |
| Utils.IncludesSpec | src/utils.ts:52 | `includes` is true exactly when the substring occurs at some position |
| Utils.ContainsIgnoreCaseAsWritten | src/utils.ts:51-53 | the code is true exactly when the substring, as given, occurs in the lower-cased string |
| Utils.UpperNeverFound | src/utils.ts:51-53 | the code returns false for every substring that contains an upper-case letter, because only the haystack is lower-cased |
| Utils.ContainsIgnoreCase | src/utils.ts:51-53 | the intended test is true exactly when the lower-cased substring occurs in the lower-cased string |
| Utils.ContainsIgnoresCase | src/utils.ts:51-53 | the intended test ignores the case of either string |
| Utils.ContainsAgreesOnLowerSubstring | src/utils.ts:51-53 | the code and the intended test agree whenever the substring has no upper-case letter |
| Utils.ContainsIgnoreCaseExample | src/utils.ts:51-53 | on `("Hello", "He")` the code gives false where true is meant |
| Utils.RemoveSkipping | src/utils.ts:58-65 | the result of the loop as written, by recursion: an element equal to `item` is dropped and the element after it is kept without comparison; its contract is in the next rows |
| Utils.RemoveItemAsWritten | src/utils.ts:58-65 | the forward loop with `splice` computes `RemoveSkipping`, which compares no element that directly follows a removed one |
| Utils.RemoveSkippingSubseq | src/utils.ts:58-65 | the loop as written keeps a subsequence of the input, in order, and never grows it |
| Utils.RemoveSkippingCounts | src/utils.ts:58-65 | every value other than `item` survives the loop as written as often as it occurred |
| Utils.RemoveSkippingDropsItem | src/utils.ts:58-65 | the loop as written removes at least one occurrence of `item` when there is one, and never adds any |
| Utils.RemoveSkippingExample | src/utils.ts:58-65 | on `[1, 1]` with item 1 the code keeps `[1]` where `[]` is meant |
| Utils.RemoveItem | src/utils.ts:58-65 | the intended result has no occurrence of `item`, keeps every other value as often as it occurred, and keeps the input order (it is a subsequence of the input) |
| Utils.RemoveSkippingCorrectIff | src/utils.ts:58-65 | the loop as written removes every occurrence exactly when no two occurrences of `item` are adjacent |

## Left out

- `daysBetween`, `addDays`, `addMonths`, `addYears`, `getDayOfYear`, `getWeekOfYear` (src/date.ts:43-94) are not modelled. They work on millisecond timestamps, the host time zone and `Date` setter normalisation, which the field-based date model does not carry.
- `deepClone` (src/utils.ts:70-72) is not modelled. It is a JSON serialisation round trip.
- Floating point is not modelled. `number` is an unbounded integer, and a `real` in `divide` and `average`, so there is no rounding, NaN, Infinity or `-0`.
- Numbers.Divide: does not model JavaScript's `-0` or the rounding of `a / b`; the quotient is exact.
- Unicode case mapping is not modelled. `toUpperCase`/`toLowerCase` map only ASCII letters, and `\s` is the ASCII whitespace set.
- Strings: a JavaScript string is a sequence of UTF-16 code units, while a Dafny `string` is a sequence of Unicode scalar values. The two agree for text inside the Basic Multilingual Plane; a character outside it (an emoji, say) is one element here and a surrogate pair of two code units in JavaScript.
- Strings.Truncate: `length` and `slice` count characters, not UTF-16 code units, so for text outside the Basic Multilingual Plane the cut point differs from the source's and the source can cut a surrogate pair in half, which is not modelled.
- Strings.Reverse: `split('')` is modelled as splitting into characters; the source splits into UTF-16 code units, so reversing text outside the Basic Multilingual Plane swaps the halves of each surrogate pair there, which is not modelled.
- Strings.RandomString: `chars.length` and `charAt` count characters, not UTF-16 code units; a character set with characters outside the Basic Multilingual Plane gives different draws in the source, including lone surrogates, which is not modelled.
- Numbers.Add: `number` is an integer here, so the IEEE double rounding of `a + b` is not modelled; the same holds for Numbers.Subtract and Numbers.Multiply.
- Numbers.AddSubtractRoundTrip: holds for the integer model only; with doubles `0.1 + 0.2 - 0.2` is not `0.1`, and large values lose precision.
- Numbers.MultiplyDistributes: holds for the integer model only; double multiplication does not distribute exactly.
- Strings.CountOccurrences: the substring must contain no regular-expression metacharacter. The source compiles it as a pattern, and a metacharacter changes what is matched or throws.
- Uniformity of `Math.random` is not modelled. A draw is any real in `[0, 1)`, so the contracts state which outcomes are possible, not how likely they are.
- Strings.RandomString: `length` is an integer; a fractional length, which the loop rounds up, is not modelled.
- Arrays.GroupBy: the key is any function to strings, standing for `String(item[key])`. The inherited names are the twelve properties of `Object.prototype` in current engines (`Arrays.InheritedKeys`); a prototype changed at run time is not modelled. The order of a record's own property keys, where integer-like keys come first, is not modelled; `Arrays.GroupKeys` gives the creation order.
- Arrays.Unique: compares with Dafny equality, not SameValueZero, so NaN is not modelled.
- Arrays with holes and `undefined` elements are not modelled. `Option` stands for the `undefined` result of `first`, `last`, `sample` and `findMax`.
- Dates: an invalid `Date` (NaN time) is not modelled. The formatting contracts assume fields within the ranges the getters of a valid `Date` return (`Dates.InRange`); the year may be any integer.
- Utils.RemoveItemAsWritten: the mutation of the caller's array and the identity of the returned array are not modelled; the result is a new sequence.
- Utils.Fibonacci: the exponential running time of the double recursion is not modelled; only the values are.
- Utils.UniqueSortedAsWritten: numbers are integers, so the string order compares integer texts only, not those of fractions or exponents.
- `isToday` and `getRelativeTime` read the clock; the current date and the elapsed milliseconds are parameters instead.

## Findings

| source | as written | input that shows it | evidently intended | confidence | as-written member | corrected member |
|---|---|---|---|---|---|---|
| src/utils.ts:4-6 | `reduce` starts the product at 0 | `[2, 3, 4]` gives 0 | start at 1, giving 24 | not executed | Utils.ProductAsWritten | Utils.ProductZeroIff |
| src/utils.ts:11-20 | the loop keeps an element when it is smaller (`<`) | `[1, 3, 2]` gives 1 | keep the larger (`>`), giving 3 | not executed | Utils.FindMaxAsWritten | Utils.FindMax |
| src/utils.ts:36-38 | `sort()` with no comparator orders numbers as strings | `[10, 9]` gives `[10, 9]` | numeric order, giving `[9, 10]` | not executed | Utils.UniqueSortedAsWritten | Utils.UniqueSorted |
| src/utils.ts:51-53 | only the haystack is lower-cased | `("Hello", "He")` gives false | lower-case both, giving true | not executed | Utils.UpperNeverFound | Utils.ContainsIgnoresCase |
| src/utils.ts:58-65 | the forward loop steps over the element that slides into a spliced slot | `[1, 1]` with item 1 gives `[1]` | remove every occurrence, giving `[]` | not executed | Utils.RemoveSkippingExample | Utils.RemoveItem |
