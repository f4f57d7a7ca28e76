# Verified models of a collection of LeetCode-style solutions

This project models, in Dafny, the solution files of a repository of
LeetCode-style exercises. Each problem there is solved several ways. Here
each solution file becomes one module. Its brute-force or formula variant,
or a plain mathematical definition, is the specification. The optimised
loop, stack or pointer variants are methods proved against it.

The modelling conventions:

- Python lists and strings are `seq`s. A list the solution writes in place
  is an `array` when its length stays fixed, and a class holding a `seq`
  (`PlusOne.DigitList`) when the solution grows it.
- Python `int` is Dafny's unbounded `int`.
- Python's floor division and modulo are written out where operands can be
  negative.
- A Python exception such as `IndexError`, `ValueError` or
  `ZeroDivisionError` becomes an `Option` or a `requires`. It is an
  `Option` when the source's own callers can reach it, and a `requires`
  only when the source states the input constraint itself.
- Objects whose fields the source updates in place are classes.

`common.dfy` holds the `Option` type shared by the modules.

## Model

| member | source | states |
|---|---|---|
| TwoSum.BruteForce | quest/data-structures-and-algorithms/028-Two-Sum/answer.py:10-27 | returns [] iff no pair exists; otherwise a valid pair i < j, and the lexicographically first one |
| TwoSum.OnePass | library/0001-two-sum/answer.py:4-21 | returns [] iff no pair exists; otherwise a valid pair completed at the earliest second position, whose first position is the latest earlier occurrence of the complement (the map keeps each value's most recent index) |
| TwoSum.TwoPointers | quest/data-structures-and-algorithms/028-Two-Sum/answer.py:58-88 | over the value-sorted enumeration, returns original positions smaller first that sum to target, and [] only when no pair exists |
| PlusOne.IncrementCorrect | library/0066-Plus-One/answer.py:20-27 | the reference increment yields digits in 0..9 whose value is the input's plus one; the length grows by one exactly when every digit is 9, and then the new first digit is 1 |
| PlusOne.DigitsDetermined | library/0066-Plus-One/answer.py:2-81 | two digit strings of equal length and equal value are equal, so the variants that meet the same contract agree |
| PlusOne.IncrementAtDigit | library/0066-Plus-One/answer.py:21-25 | the carry stops at the last digit below 9, which goes up by one, and the nines after it become zeros |
| PlusOne.IncrementAllNines | library/0066-Plus-One/answer.py:26-27 | an all-9 number becomes 1 followed by as many zeros |
| PlusOne.PlusOneScan | library/0066-Plus-One/answer.py:16-27 | the returned digits are the reference increment of the input; the caller's list holds them too, minus the leading 1 when all digits were 9 |
| PlusOne.PlusOneCarry | library/0066-Plus-One/answer.py:52-65 | the carry loop returns the caller's own list, which now holds the reference increment, a 1 inserted at its front when every digit was 9 |
| PlusOne.PlusOneCopy | library/0066-Plus-One/answer.py:67-81 | returns the reference increment (digits, value plus one) without modifying the caller's list |
| PlusOne.PlusOnePadded | library/0066-Plus-One/answer.py:2-14 | on an empty list the first line fails (None) and nothing changes; otherwise the zero-padded carry sweep returns the reference increment and the caller's list is left with its last digit bumped |
| PlusOne.CarryKeepsValue | library/0066-Plus-One/answer.py:9-11 | replacing a 10 by 0 and adding one to the digit on its left keeps the number's value |
| PlusOne.AddOneAsWritten | library/0066-Plus-One/answer.py:40-47 | the recursive helper as written always returns a non-empty list |
| PlusOne.RecursiveAsWrittenLosesZeros | library/0066-Plus-One/answer.py:40-50 | on [9] the recursive variant returns [1], not the value 10 that the reference increment [1, 0] denotes |
| PlusOne.AddOneNines | library/0066-Plus-One/answer.py:40-47 | when every digit up to index is 9, add_one carries past the first digit and returns [1] alone |
| PlusOne.AddOneIncrements | library/0066-Plus-One/answer.py:40-47 | on digits, when some digit up to index is below 9, add_one returns the digits up to index incremented, followed by the untouched digits after index |
| PlusOne.IncrementHead | library/0066-Plus-One/answer.py:43-45 | without a carry out of the first digit, incrementing keeps the length and the first digit grows by at most one; a single digit just grows by one |
| PlusOne.PlusOneRecursiveAsWritten | library/0066-Plus-One/answer.py:36-50 | plusOne4 returns [1] when every digit is 9, and returns the incremented number when some digit is not 9 and there is no leading zero |
| PlusOne.DigitList.constructor | library/0066-Plus-One/answer.py:52 | the list passed to plusOne5 holds exactly the given digits |
| DailyTemperatures.WaitsUnique | quest/data-structures-and-algorithms/011-Daily-Temperatures/answer.py:2-78 | a day has only one correct answer, so the four variants, which all meet the same contract, agree |
| DailyTemperatures.BruteForce | quest/data-structures-and-algorithms/011-Daily-Temperatures/answer.py:2-12 | each entry is the distance to the first strictly warmer later day, or 0 when none follows |
| DailyTemperatures.MonotonicStack | quest/data-structures-and-algorithms/011-Daily-Temperatures/answer.py:14-30 | the monotonic-stack pass gives every day the distance to its first strictly warmer day, or 0 |
| DailyTemperatures.PopColder | quest/data-structures-and-algorithms/011-Daily-Temperatures/answer.py:25-27 | after popping, the stacked temperatures are non-increasing bottom to top, the top is at least as warm as day i, and every day left waiting has seen no warmer day up to i |
| DailyTemperatures.PopStep | quest/data-structures-and-algorithms/011-Daily-Temperatures/answer.py:26-27 | a popped day colder than day i gets i - prev, its correct answer, and the stack invariant is kept |
| DailyTemperatures.Jump | quest/data-structures-and-algorithms/011-Daily-Temperatures/answer.py:32-54 | jumping along known answers from the right gives the same answers as the brute force |
| DailyTemperatures.FirstAt | quest/data-structures-and-algorithms/011-Daily-Temperatures/answer.py:75-76 | the table entry for a temperature is its first position at or after j, or the list length when it does not occur |
| DailyTemperatures.TableScan | quest/data-structures-and-algorithms/011-Daily-Temperatures/answer.py:56-78 | for temperatures in 30..100, the nearest-position table gives every day its correct answer (an empty range of warmer temperatures meaning no warmer day) |
| DailyTemperatures.SliceMin | quest/data-structures-and-algorithms/011-Daily-Temperatures/answer.py:70 | Python's min over a slice: the least entry, and a failure exactly when the slice is empty |
| DailyTemperatures.TopTemperatureRaises | quest/data-structures-and-algorithms/011-Daily-Temperatures/answer.py:70 | for temperature 100 the slice after it is empty, so the lookup as written raises |
| DailyTemperatures.WarmerIndexAsWritten | quest/data-structures-and-algorithms/011-Daily-Temperatures/answer.py:70 | min over next_warmer[current_temp + 1:] raises (None) exactly for temperature 100; otherwise it is an entry for a warmer temperature and no larger than any such entry |
| DailyTemperatures.TopTemperatureAnswer | quest/data-structures-and-algorithms/011-Daily-Temperatures/answer.py:62-64 | [100] is within the allowed range and its correct answer is [0] |
| FinalPrices.NextCheaperIs | quest/data-structures-and-algorithms/010-Final-Prices-With-a-Special-Discount-in-a-Shop/answer.py:38-44 | any position that is the first later one priced at most prices[i] is the position the reference finds, so the discount source is unique |
| FinalPrices.FinalPriceBounds | quest/data-structures-and-algorithms/010-Final-Prices-With-a-Special-Discount-in-a-Shop/answer.py:60-69 | with non-negative prices every final price lies between 0 and the list price |
| FinalPrices.LastNotDiscounted | quest/data-structures-and-algorithms/010-Final-Prices-With-a-Special-Discount-in-a-Shop/answer.py:45 | the last item always pays its full price |
| FinalPrices.BruteForce | quest/data-structures-and-algorithms/010-Final-Prices-With-a-Special-Discount-in-a-Shop/answer.py:26-46 | appends exactly one price per item: the price minus the first later price at most it, or the full price |
| FinalPrices.StackForward | quest/data-structures-and-algorithms/010-Final-Prices-With-a-Special-Discount-in-a-Shop/answer.py:48-70 | the left-to-right stack pass gives every item its final price |
| FinalPrices.PopDearer | quest/data-structures-and-algorithms/010-Final-Prices-With-a-Special-Discount-in-a-Shop/answer.py:64-67 | after popping, stacked prices are strictly increasing bottom to top and below p[i], and every popped item holds its final price |
| FinalPrices.PopStep | quest/data-structures-and-algorithms/010-Final-Prices-With-a-Special-Discount-in-a-Shop/answer.py:65-67 | a popped item priced at least p[i] is given p[idx] - p[i], its final price |
| FinalPrices.StackBackward | quest/data-structures-and-algorithms/010-Final-Prices-With-a-Special-Discount-in-a-Shop/answer.py:72-99 | the right-to-left stack of prices gives every item its final price |
| FinalPrices.PopPricier | quest/data-structures-and-algorithms/010-Final-Prices-With-a-Special-Discount-in-a-Shop/answer.py:88-90 | after popping, the top of the stack is the first later price at most p[i] and every item between costs more |
| FinalPrices.PopPricierStep | quest/data-structures-and-algorithms/010-Final-Prices-With-a-Special-Discount-in-a-Shop/answer.py:89-90 | popping a price above p[i] keeps the chain of next-cheaper positions and extends the run of dearer items |
| FinalPrices.PushStep | quest/data-structures-and-algorithms/010-Final-Prices-With-a-Special-Discount-in-a-Shop/answer.py:97 | pushing p[i] keeps every stacked price linked to its first cheaper-or-equal successor |
| FinalPrices.CopyScan | quest/data-structures-and-algorithms/010-Final-Prices-With-a-Special-Discount-in-a-Shop/answer.py:101-121 | the nested scan over a copy gives every item its final price |
| FinalPrices.SampleOne | quest/data-structures-and-algorithms/010-Final-Prices-With-a-Special-Discount-in-a-Shop/answer.py:128-131 | [8, 4, 6, 2, 3] pays [4, 2, 4, 2, 3] |
| HighestAltitude.HighestUnique | quest/data-structures-and-algorithms/031-Prefix-Sum-Find-the-Highest-Altitude/answer.py:9-64 | all four variants meet the same specification, which has one value, so they agree |
| HighestAltitude.HighestNonNegative | quest/data-structures-and-algorithms/031-Prefix-Sum-Find-the-Highest-Altitude/answer.py:26-27 | the highest altitude is never below the starting altitude 0 |
| HighestAltitude.AltitudeList | quest/data-structures-and-algorithms/031-Prefix-Sum-Find-the-Highest-Altitude/answer.py:9-18 | the maximum of the altitude list is reached at some point and no point is higher |
| HighestAltitude.Running | quest/data-structures-and-algorithms/031-Prefix-Sum-Find-the-Highest-Altitude/answer.py:25-34 | the running maximum of the current altitude is the highest altitude |
| HighestAltitude.Accumulate | quest/data-structures-and-algorithms/031-Prefix-Sum-Find-the-Highest-Altitude/answer.py:44 | element k of the running sums is the starting value plus the sum of the first k + 1 entries |
| HighestAltitude.BuiltinHighest | quest/data-structures-and-algorithms/031-Prefix-Sum-Find-the-Highest-Altitude/answer.py:41-44 | the maximum of the running sums of [0] + gain is the highest altitude |
| HighestAltitude.HelperHighest | quest/data-structures-and-algorithms/031-Prefix-Sum-Find-the-Highest-Altitude/answer.py:52-62 | from a point with the right current and highest altitudes the helper returns the highest altitude |
| HighestAltitude.RecursiveHighest | quest/data-structures-and-algorithms/031-Prefix-Sum-Find-the-Highest-Altitude/answer.py:51-64 | the recursive variant started at point 0 returns the highest altitude |
| HighestAltitude.Samples | quest/data-structures-and-algorithms/031-Prefix-Sum-Find-the-Highest-Altitude/answer.py:72-83 | [-5, 1, 5, 0, -7] gives 1 and [-4, -3, -2, -1, 4, 3, 2] gives 0 |
| DetectCapital.UpperFixed | quest/data-structures-and-algorithms/019-Detect-Capital/answer.py:12 | a word equals its upper-case form exactly when it holds no lower-case letter |
| DetectCapital.LowerFixed | quest/data-structures-and-algorithms/019-Detect-Capital/answer.py:16 | a word equals its lower-case form exactly when it holds no capital |
| DetectCapital.CompareCasesCorrect | quest/data-structures-and-algorithms/019-Detect-Capital/answer.py:2-24 | on a word of letters, comparing with the upper- and lower-case forms accepts exactly the words that are all capitals, all lower case or capitalised |
| DetectCapital.CountUpper | quest/data-structures-and-algorithms/019-Detect-Capital/answer.py:41 | the number of capitals is at most the length of the word |
| DetectCapital.CountUpperExtremes | quest/data-structures-and-algorithms/019-Detect-Capital/answer.py:41-49 | the count equals the length exactly when all letters are capitals, and is 0 exactly when none is |
| DetectCapital.CountCapitalsCorrect | quest/data-structures-and-algorithms/019-Detect-Capital/answer.py:34-55 | deciding from the capital count and the first letter accepts exactly the correctly capitalised words |
| DetectCapital.FirstTwoCorrect | quest/data-structures-and-algorithms/019-Detect-Capital/answer.py:68-88 | on a non-empty word, deciding from the first two letters accepts exactly the correctly capitalised words |
| DetectCapital.SingleLetter | quest/data-structures-and-algorithms/019-Detect-Capital/answer.py:8-9 | a one-letter word is accepted by every variant |
| MaskingPii.IndexOf | quest/data-structures-and-algorithms/021-Masking-Personal-Information/answer.py:61 | the position returned holds the character and no earlier position does |
| MaskingPii.Split | quest/data-structures-and-algorithms/021-Masking-Personal-Information/answer.py:12 | the pieces contain no separator, join back to the text, and there is one piece exactly when the separator is absent |
| MaskingPii.PyIndex | quest/data-structures-and-algorithms/021-Masking-Personal-Information/answer.py:20-23 | list indexing succeeds exactly for -len to len - 1, counting negative indices from the end |
| MaskingPii.LastFour | quest/data-structures-and-algorithms/021-Masking-Personal-Information/answer.py:23 | the slice is the last four characters, or the whole text when it is shorter |
| MaskingPii.DigitsOf | quest/data-structures-and-algorithms/021-Masking-Personal-Information/answer.py:17 | only digits are kept, and the result is no longer than the text |
| MaskingPii.DigitsOfConcat | quest/data-structures-and-algorithms/021-Masking-Personal-Information/answer.py:17 | discarding non-digits keeps the order of the digits across any split of the text |
| MaskingPii.DigitsIdempotent | quest/data-structures-and-algorithms/021-Masking-Personal-Information/answer.py:17 | filtering the digits again changes nothing |
| MaskingPii.LowerKeepsAt | quest/data-structures-and-algorithms/021-Masking-Personal-Information/answer.py:9-11 | lower-casing keeps every '@' in place and creates none, so the email test is unaffected |
| MaskingPii.OnceAfterFirst | quest/data-structures-and-algorithms/021-Masking-Personal-Information/answer.py:12 | one '@' exactly when none follows the first |
| MaskingPii.SplitTwo | quest/data-structures-and-algorithms/021-Masking-Personal-Information/answer.py:12 | unpacking the split into name and domain succeeds exactly when no '@' follows the first, giving the text before and after it |
| MaskingPii.EmailMask | quest/data-structures-and-algorithms/021-Masking-Personal-Information/answer.py:9-13 | an email is masked exactly when it holds one '@' and a non-empty name, as first letter, five stars, last letter, '@' and domain, lower-cased |
| MaskingPii.PhoneMask | quest/data-structures-and-algorithms/021-Masking-Personal-Information/answer.py:15-23 | a phone number is masked as the country prefix with one star per extra digit, "***-***-" and the last four digits; other digit counts raise unless negative indexing catches them |
| MaskingPii.OneLineAgrees | quest/data-structures-and-algorithms/021-Masking-Personal-Information/answer.py:52-64 | Solution3 gives the same string wherever Solution succeeds, and always on phone numbers |
| MaskingPii.OneLineAcceptsEmptyName | quest/data-structures-and-algorithms/021-Masking-Personal-Information/answer.py:59-61 | "@ab" makes Solution raise but Solution3 returns "@*****b@ab" |
| RepeatedSubstring.Repeat | quest/data-structures-and-algorithms/022-Repeated-Substring-Pattern/answer.py:11 | the prefix written m times has m times its length |
| RepeatedSubstring.RepeatAt | quest/data-structures-and-algorithms/022-Repeated-Substring-Pattern/answer.py:34 | character i of p * m is character i mod len(p) of p |
| RepeatedSubstring.RepeatIffPeriod | quest/data-structures-and-algorithms/022-Repeated-Substring-Pattern/answer.py:31-35 | for a divisor k of the length, s is its first k characters repeated exactly when k is a period of s |
| RepeatedSubstring.DivisorHalf | quest/data-structures-and-algorithms/022-Repeated-Substring-Pattern/answer.py:31 | a proper divisor of the length is at most half of it, so the scan to n // 2 misses none |
| RepeatedSubstring.BruteForce | quest/data-structures-and-algorithms/022-Repeated-Substring-Pattern/answer.py:2-15 | returns true exactly when s is a proper prefix repeated two or more times |
| RepeatedSubstring.DivisorScan | quest/data-structures-and-algorithms/022-Repeated-Substring-Pattern/answer.py:25-36 | returns true exactly when s is a proper prefix repeated two or more times (method 5 at lines 65-77 is the same loop) |
| RepeatedSubstring.Contains | quest/data-structures-and-algorithms/022-Repeated-Substring-Pattern/answer.py:23 | the substring test holds exactly when the pattern occurs at some position |
| RepeatedSubstring.RotateTwice | quest/data-structures-and-algorithms/022-Repeated-Substring-Pattern/answer.py:19-20 | rotating by x and then y is rotating by x + y |
| RepeatedSubstring.RotateGcd | quest/data-structures-and-algorithms/022-Repeated-Substring-Pattern/answer.py:19-20 | rotations that leave s unchanged are closed under Euclid's algorithm |
| RepeatedSubstring.Gcd | quest/data-structures-and-algorithms/022-Repeated-Substring-Pattern/answer.py:40 | the result is positive, at most both inputs, and divides both |
| RepeatedSubstring.DoubledCorrect | quest/data-structures-and-algorithms/022-Repeated-Substring-Pattern/answer.py:17-23 | for a non-empty s, s lies inside (s + s)[1:-1] exactly when s repeats a proper prefix |
| RepeatedSubstring.DoubledEmpty | quest/data-structures-and-algorithms/022-Repeated-Substring-Pattern/answer.py:23 | the empty string passes the doubled test although it repeats nothing |
| RepeatedSubstring.BorderExtend | quest/data-structures-and-algorithms/022-Repeated-Substring-Pattern/answer.py:51-54 | a border followed by a matching character extends by one |
| RepeatedSubstring.BorderOfBorder | quest/data-structures-and-algorithms/022-Repeated-Substring-Pattern/answer.py:56-57 | a border of a border is a border, so falling back keeps a border |
| RepeatedSubstring.TableFallBack | quest/data-structures-and-algorithms/022-Repeated-Substring-Pattern/answer.py:55-57 | on a mismatch the fallback length is shorter and no border longer than it plus one is lost |
| RepeatedSubstring.BorderTable | quest/data-structures-and-algorithms/022-Repeated-Substring-Pattern/answer.py:44-61 | every table entry i is the longest proper border of s[:i + 1] |
| RepeatedSubstring.PeriodGcd | quest/data-structures-and-algorithms/022-Repeated-Substring-Pattern/answer.py:40-41 | two periods that fit in s leave their greatest common divisor as a period |
| RepeatedSubstring.BorderCriterion | quest/data-structures-and-algorithms/022-Repeated-Substring-Pattern/answer.py:62-63 | with b the longest proper border, b > 0 and n % (n - b) == 0 holds exactly when s repeats a proper prefix |
| RepeatedSubstring.Kmp | quest/data-structures-and-algorithms/022-Repeated-Substring-Pattern/answer.py:38-63 | on a non-empty s, returns true exactly when s repeats a proper prefix |
| RepeatedStringMatch.FloorTries | quest/data-structures-and-algorithms/024-Repeated-String-Match/answer.py:19-26 | trying the floor of len(b) / len(a) and the two counts after it returns the fewest copies of a that contain b, or -1 when no number of copies does |
| RepeatedStringMatch.TooShort | quest/data-structures-and-algorithms/024-Repeated-String-Match/answer.py:46 | fewer copies than the ceiling of len(b) / len(a) are shorter than b and cannot contain it |
| RepeatedStringMatch.FoundCeilPlusOne | quest/data-structures-and-algorithms/024-Repeated-String-Match/answer.py:52-54 | if any number of copies contains b, the ceiling plus one copies do |
| RepeatedStringMatch.CeilingTriesCorrect | quest/data-structures-and-algorithms/024-Repeated-String-Match/answer.py:28-56 | trying the ceiling and the ceiling plus one returns the fewest copies containing b, or -1 when none do |
| RepeatedStringMatch.NegFloorIsCeil | quest/data-structures-and-algorithms/024-Repeated-String-Match/answer.py:80 | -(-m // n) with Python's floor division equals the ceiling of m / n |
| RepeatedStringMatch.MissingChar | quest/data-structures-and-algorithms/024-Repeated-String-Match/answer.py:75-77 | a character of b missing from a rules out every number of copies |
| RepeatedStringMatch.CharsThenTriesCorrect | quest/data-structures-and-algorithms/024-Repeated-String-Match/answer.py:58-87 | the character check followed by the two tries returns the fewest copies containing b, or -1; an empty a with a non-empty b gives -1 |
| RepeatedStringMatch.RangeTries | quest/data-structures-and-algorithms/024-Repeated-String-Match/answer.py:89-117 | the loop over the ceiling and the ceiling plus one returns the fewest copies containing b, or -1 |
| RepeatedStringMatch.FailureTable | quest/data-structures-and-algorithms/024-Repeated-String-Match/answer.py:135-148 | every entry i of the table is the longest proper border of pattern[:i + 1] |
| RepeatedStringMatch.FirstEnd | quest/data-structures-and-algorithms/024-Repeated-String-Match/answer.py:178-180 | when the first full match ends at position i + 1 of the repeated text, i // len(a) + 1 is the fewest copies containing b |
| RepeatedStringMatch.NeverIfNoEnd | quest/data-structures-and-algorithms/024-Repeated-String-Match/answer.py:183-186 | no match ending within ceiling plus one copies means no number of copies contains b |
| RepeatedStringMatch.Scan | quest/data-structures-and-algorithms/024-Repeated-String-Match/answer.py:164-186 | KMP over a[i % len(a)] for max_count copies returns the fewest copies containing b, or -1 |
| RepeatedStringMatch.KmpMatch | quest/data-structures-and-algorithms/024-Repeated-String-Match/answer.py:150-186 | an empty b needs 0 copies; otherwise the result is the fewest copies containing b, or -1, also for an empty a |
| RepeatedStringMatch.SampleOne | quest/data-structures-and-algorithms/024-Repeated-String-Match/answer.py:193-199 | "cdabcdab" needs three copies of "abcd" |
| RepeatedStringMatch.SampleTwo | quest/data-structures-and-algorithms/024-Repeated-String-Match/answer.py:201-207 | "aa" needs two copies of "a" |
| RepeatedStringMatch.SampleThree | quest/data-structures-and-algorithms/024-Repeated-String-Match/answer.py:209-215 | no number of copies of "abc" contains "wxyz" |
| Pascal.TriangleShape | library/0118-Pascals-Triangle/answer.py:20-29 | row i of the triangle has i + 1 entries, starts and ends with 1, and each inner entry is the sum of the two above it |
| Pascal.BinomPositive | library/0118-Pascals-Triangle/answer.py:22 | every entry of the triangle is at least 1 |
| Pascal.BinomSymmetric | library/0118-Pascals-Triangle/answer.py:72 | each row reads the same from both ends: C(n, k) == C(n, n - k) |
| Pascal.Absorb | library/0118-Pascals-Triangle/answer.py:72-73 | k * C(n, k) == n * C(n - 1, k - 1) |
| Pascal.Recurrence | library/0118-Pascals-Triangle/answer.py:82-84 | C(n, k - 1) * (n - k + 1) is k * C(n, k), so the floor division by k is exact and gives C(n, k) |
| Pascal.Generate | library/0118-Pascals-Triangle/answer.py:15-31 | the nested loop returns the first numRows rows of Pascal's triangle |
| Pascal.NextRowIsRow | library/0118-Pascals-Triangle/answer.py:51-57 | framing the pairwise sums of row n with ones gives row n + 1 |
| Pascal.GenerateFromLast | library/0118-Pascals-Triangle/answer.py:42-60 | building each row from the last one returns the first numRows rows, and [] for zero rows |
| Pascal.GenerateByFormula | library/0118-Pascals-Triangle/answer.py:75-88 | the multiplicative formula returns the first numRows rows |
| Pascal.Recursive | library/0118-Pascals-Triangle/answer.py:103-120 | from one row on, the recursion returns the first numRows rows |
| Pascal.ZippedTriangle | library/0118-Pascals-Triangle/answer.py:131-141 | from one row on, the zip comprehension returns the first numRows rows |
| Pascal.ZippedZeroRows | library/0118-Pascals-Triangle/answer.py:132 | for zero rows the zip variant returns [[1]] instead of [] |
| Pascal.SampleFive | library/0118-Pascals-Triangle/answer.py:147 | five rows are [[1], [1, 1], [1, 2, 1], [1, 3, 3, 1], [1, 4, 6, 4, 1]] |
| LicenseKey.StripConcat | quest/data-structures-and-algorithms/020-License-Key-Formatting/answer.py:14 | removing dashes from two strings one after the other is removing them from their concatenation |
| LicenseKey.KeyNoDash | quest/data-structures-and-algorithms/020-License-Key-Formatting/answer.py:14 | the stripped, upper-cased key holds no dash |
| LicenseKey.FrontMod | quest/data-structures-and-algorithms/020-License-Key-Formatting/answer.py:123 | the first group of an n-character key has n % k characters, or k when k divides n |
| LicenseKey.FormatJoinsGroups | quest/data-structures-and-algorithms/020-License-Key-Formatting/answer.py:24-32 | the reference formatting is its groups joined by dashes |
| LicenseKey.GroupSizes | quest/data-structures-and-algorithms/020-License-Key-Formatting/answer.py:123-130 | the groups spell out the key in order; the first has 1..k characters for a non-empty key and every later one exactly k |
| LicenseKey.StripFormat | quest/data-structures-and-algorithms/020-License-Key-Formatting/answer.py:14-32 | removing the dashes from the formatted key gives the key back |
| LicenseKey.FormatEnds | quest/data-structures-and-algorithms/020-License-Key-Formatting/answer.py:158-162 | a non-empty formatted key starts with the key's first character and ends with its last, so with no dash |
| LicenseKey.FormatLength | quest/data-structures-and-algorithms/020-License-Key-Formatting/answer.py:24-32 | the formatted key is the key plus one dash per group after the first |
| LicenseKey.FormatCons | quest/data-structures-and-algorithms/020-License-Key-Formatting/answer.py:25-29 | a character put in front of a formatted suffix joins its first group, or opens a new group after a dash when that group is full |
| LicenseKey.BackStep | quest/data-structures-and-algorithms/020-License-Key-Formatting/answer.py:24-29 | one step of the backward scan keeps the reversed output equal to the formatted suffix and the counter equal to the size of its first group |
| LicenseKey.GroupBackward | quest/data-structures-and-algorithms/020-License-Key-Formatting/answer.py:20-32 | the backward scan with a counter, reversed, is the reference formatting |
| LicenseKey.BackwardScan | quest/data-structures-and-algorithms/020-License-Key-Formatting/answer.py:12-32 | Solution returns the stripped, upper-cased key formatted into groups of k from the end ("" when only dashes) |
| LicenseKey.CollectKey | quest/data-structures-and-algorithms/020-License-Key-Formatting/answer.py:82-85 | keeping each non-dash character, upper-cased, gives the stripped, upper-cased key |
| LicenseKey.CharacterList | quest/data-structures-and-algorithms/020-License-Key-Formatting/answer.py:80-101 | Solution3 returns the same formatting as the reference |
| LicenseKey.GroupsAsChunks | quest/data-structures-and-algorithms/020-License-Key-Formatting/answer.py:59-64 | the groups are the first group followed by the slices of k after it |
| LicenseKey.SliceFrom | quest/data-structures-and-algorithms/020-License-Key-Formatting/answer.py:63-64 | the slicing loop collects every slice of k from its start to the end |
| LicenseKey.Slices | quest/data-structures-and-algorithms/020-License-Key-Formatting/answer.py:46-66 | Solution2 returns the reference formatting, also when k divides the length and no short first group is written |
| LicenseKey.FirstThenSlices | quest/data-structures-and-algorithms/020-License-Key-Formatting/answer.py:115-130 | Solution4 returns the reference formatting |
| LicenseKey.DashedGroup | quest/data-structures-and-algorithms/020-License-Key-Formatting/answer.py:158-162 | from a group boundary, the next k characters are written after exactly one dash |
| LicenseKey.DashedFormat | quest/data-structures-and-algorithms/020-License-Key-Formatting/answer.py:150-164 | at every group boundary the forward scan has written the reference formatting of the characters so far |
| LicenseKey.Enumerate | quest/data-structures-and-algorithms/020-License-Key-Formatting/answer.py:143-164 | Solution5 returns the reference formatting |
| LicenseKey.SampleOne | quest/data-structures-and-algorithms/020-License-Key-Formatting/answer.py:199 | the key of "5F3Z-2e-9-w", 5F3Z2E9W, formats with k = 4 to "5F3Z-2E9W" |
| LicenseKey.SampleTwo | quest/data-structures-and-algorithms/020-License-Key-Formatting/answer.py:200 | the key 25G3J formats with k = 2 to "2-5G-3J" |
| LicenseKey.OnlyDashes | quest/data-structures-and-algorithms/020-License-Key-Formatting/answer.py:201 | "---" formats to "" |
| Rpn.TruncDivRemainder | quest/data-structures-and-algorithms/008-Evaluate-Reverse-Polish-Notation/answer.py:33 | int(x / y) truncates toward zero: the remainder is smaller than the divisor and is zero or has the dividend's sign |
| Rpn.TruncDivSamples | quest/data-structures-and-algorithms/008-Evaluate-Reverse-Polish-Notation/answer.py:63 | -7 / 2 gives -3 (not the floor -4), 7 / -2 gives -3 and 6 / -132 gives 0 |
| Rpn.Apply | quest/data-structures-and-algorithms/008-Evaluate-Reverse-Polish-Notation/answer.py:56-63 | applying an operator fails exactly on a division by zero |
| Rpn.RunAppend | quest/data-structures-and-algorithms/008-Evaluate-Reverse-Polish-Notation/answer.py:14-36 | processing two token lists one after the other is processing their concatenation; a failure in the first is final |
| Rpn.RunKeepsOne | quest/data-structures-and-algorithms/008-Evaluate-Reverse-Polish-Notation/answer.py:14-37 | once a token has been pushed the stack never becomes empty, so stack[0] exists at the end |
| Rpn.RunPostfix | quest/data-structures-and-algorithms/008-Evaluate-Reverse-Polish-Notation/answer.py:53-65 | a well-formed postfix expression pushes exactly its value on the stack it finds and leaves everything below untouched; it fails only on a division by zero |
| Rpn.EvalPostfix | quest/data-structures-and-algorithms/008-Evaluate-Reverse-Polish-Notation/answer.py:37 | a well-formed expression leaves exactly one element on the stack, and it is the expression's value |
| Rpn.Evaluate | quest/data-structures-and-algorithms/008-Evaluate-Reverse-Polish-Notation/answer.py:2-37 | evalRPN returns the bottom of the final stack, failing on a missing operand, a division by zero or an empty token list |
| Rpn.EvaluateByTable | quest/data-structures-and-algorithms/008-Evaluate-Reverse-Polish-Notation/answer.py:39-67 | evalRPN_v2 (and _v3, _v7, the same loop with a table of operations) returns what evalRPN returns on every token list |
| Rpn.Back | quest/data-structures-and-algorithms/008-Evaluate-Reverse-Polish-Notation/answer.py:108-128 | the right-to-left recursion always moves its shared index down, so it terminates, also when a malformed list drives it into negative indices |
| Rpn.BackPostfix | quest/data-structures-and-algorithms/008-Evaluate-Reverse-Polish-Notation/answer.py:110-128 | from the last token of a postfix expression the recursion returns the expression's value and leaves the index just before its first token |
| Rpn.BackAgrees | quest/data-structures-and-algorithms/008-Evaluate-Reverse-Polish-Notation/answer.py:97-130 | on every well-formed expression evalRPN_v4 and the stack evaluators return the same value, the expression's |
| Rpn.InPlace | quest/data-structures-and-algorithms/008-Evaluate-Reverse-Polish-Notation/answer.py:159-192 | evalRPN_v6, using the token array as its stack with top below the current token, returns what evalRPN returns and leaves the array's first cells holding evalRPN's final stack, bottom first |
| Rpn.SampleOne | quest/data-structures-and-algorithms/008-Evaluate-Reverse-Polish-Notation/answer.py:2-37 | 2 1 + 3 * evaluates to 9 |
| Rpn.SampleTwo | quest/data-structures-and-algorithms/008-Evaluate-Reverse-Polish-Notation/answer.py:2-37 | 4 13 5 / + evaluates to 6 |
| Rpn.SampleTwoBack | quest/data-structures-and-algorithms/008-Evaluate-Reverse-Polish-Notation/answer.py:97-130 | the recursion also gives 6 on 4 13 5 / + |
| Rpn.Underflow | quest/data-structures-and-algorithms/008-Evaluate-Reverse-Polish-Notation/answer.py:16-17 | an operator with one operand makes both the stack loop and the recursion fail |
| LinkedList.ChainTail | quest/data-structures-and-algorithms/027-Reverse-Linked-List/answer.py:17-21 | the nodes after a list's head form the list that starts at head.next |
| LinkedList.ChainUnique | quest/data-structures-and-algorithms/027-Reverse-Linked-List/answer.py:35-103 | a head determines its whole list, so variants that return the same head return the same list |
| LinkedList.ValuesRev | quest/data-structures-and-algorithms/027-Reverse-Linked-List/answer.py:13-23 | the values read along the reversed nodes are the input values reversed (the variants change only next fields, so every node keeps its value) |
| LinkedList.RevRev | quest/data-structures-and-algorithms/027-Reverse-Linked-List/answer.py:13-23 | reversing twice gives the original order back |
| LinkedList.ListNode.constructor | quest/data-structures-and-algorithms/025-Remove-Duplicates-from-Sorted-List/answer.py:4-7 | a new node holds the given value and the given next node |
| ReverseList.ReversedAll | quest/data-structures-and-algorithms/027-Reverse-Linked-List/answer.py:23 | once every node points at its old predecessor and the old head at None, the old last node heads the reversed list |
| ReverseList.Iterative | quest/data-structures-and-algorithms/027-Reverse-Linked-List/answer.py:13-23 | reverseList returns the old last node heading the nodes in reverse order, the old head last with next = None; an empty list gives None; loop invariant: the visited prefix points back and the rest is untouched |
| ReverseList.Recursive | quest/data-structures-and-algorithms/027-Reverse-Linked-List/answer.py:35-49 | on the list from position lo, reverseList_recursive returns the old last node, every node after lo points at its predecessor, the node at lo gets None, and nodes before lo are untouched |
| ReverseList.RecursiveWhole | quest/data-structures-and-algorithms/027-Reverse-Linked-List/answer.py:35-49 | reverseList_recursive on a whole list returns the reversed list |
| ReverseList.Collect | quest/data-structures-and-algorithms/027-Reverse-Linked-List/answer.py:66-70 | the pushing loop collects exactly the list's nodes, in order |
| ReverseList.Relink | quest/data-structures-and-algorithms/027-Reverse-Linked-List/answer.py:73-83 | popping the stack links each node to the one pushed before it, and the last one popped (the old head) gets None |
| ReverseList.WithStack | quest/data-structures-and-algorithms/027-Reverse-Linked-List/answer.py:61-85 | reverseList_stack returns the reversed list, None for an empty one |
| ReverseList.ReverseFrom | quest/data-structures-and-algorithms/027-Reverse-Linked-List/answer.py:95-101 | the helper carrying (current, prev) finishes the reversal from any intermediate state of the loop |
| ReverseList.TailRecursive | quest/data-structures-and-algorithms/027-Reverse-Linked-List/answer.py:94-103 | reverseList_recursive_v2 returns the reversed list |
| OddEvenList.OddPositions | quest/data-structures-and-algorithms/026-Odd-Even-Linked-List/answer.py:7-32 | the nodes at odd positions (first, third, ...) in order: (n + 1) / 2 of them, the i-th being the node at index 2i |
| OddEvenList.EvenPositions | quest/data-structures-and-algorithms/026-Odd-Even-Linked-List/answer.py:7-32 | the nodes at even positions in order: n / 2 of them, the i-th being the node at index 2i + 1 |
| OddEvenList.SplitPermutes | quest/data-structures-and-algorithms/026-Odd-Even-Linked-List/answer.py:7-32 | the odd-then-even order holds exactly the input's nodes, each as often as before, so no node is lost or duplicated |
| OddEvenList.SplitAt | quest/data-structures-and-algorithms/026-Odd-Even-Linked-List/answer.py:7-32 | position i of the result holds the node at index 2i for the odd group, and index 2(i - h) + 1 after the h odd nodes |
| OddEvenList.SplitDistinct | quest/data-structures-and-algorithms/026-Odd-Even-Linked-List/answer.py:7-32 | distinct nodes stay distinct once regrouped |
| OddEvenList.ShortSplit | quest/data-structures-and-algorithms/026-Odd-Even-Linked-List/answer.py:12-14 | an empty or one-node list is already grouped, which is why every variant returns it unchanged |
| OddEvenList.SkippedChain | quest/data-structures-and-algorithms/026-Odd-Even-Linked-List/answer.py:24-32 | once every node points two places on except the last odd-position node, which points at the old second node, the head starts the odd-then-even list |
| OddEvenList.FinishSplit | quest/data-structures-and-algorithms/026-Odd-Even-Linked-List/answer.py:55-61 | the state the loops end in (nodes before the last odd position point two on, the node after it ends the list, it points at the even head) is the regrouped list |
| OddEvenList.TurnCounter | quest/data-structures-and-algorithms/026-Odd-Even-Linked-List/answer.py:7-32 | oddEvenList returns the same head, now starting the odd-position nodes followed by the even-position nodes, the last with next = None; loop invariant: the first turn nodes point two places on, the rest are untouched |
| OddEvenList.TwoPointers | quest/data-structures-and-algorithms/026-Odd-Even-Linked-List/answer.py:34-61 | oddEvenList_v2 returns the regrouped list; loop invariant: odd and even are the nodes at indices 2t and 2t + 1 and every node before them points two places on |
| OddEvenList.TwoTails | quest/data-structures-and-algorithms/026-Odd-Even-Linked-List/answer.py:63-96 | oddEvenList_v3 returns the regrouped list, closing the even tail with None and linking the odd tail to the even head |
| OddEvenList.SplitFrom | quest/data-structures-and-algorithms/026-Odd-Even-Linked-List/answer.py:109-129 | split_list from position lo returns the first and last node of each parity class of the rest, every node from lo on points at the next node of its class, and the nodes before lo are untouched |
| OddEvenList.Recursive | quest/data-structures-and-algorithms/026-Odd-Even-Linked-List/answer.py:98-134 | oddEvenList_v4 returns the regrouped list |
| BinarySearch.AnswerUnique | quest/data-structures-and-algorithms/038-Binary-Search-Binary-Search/answer.py:11-25 | on a list of distinct values two valid answers for one target are the same index, so every variant must return the same one |
| BinarySearch.FirstHitUnique | quest/data-structures-and-algorithms/038-Binary-Search-Binary-Search/answer.py:73-77 | the first occurrence of a target is unique whatever the order of the list |
| BinarySearch.Recurse | quest/data-structures-and-algorithms/038-Binary-Search-Binary-Search/answer.py:35-46 | the recursive search of [left, right] returns -1 or a position in that range holding target |
| BinarySearch.RecursiveSearch | quest/data-structures-and-algorithms/038-Binary-Search-Binary-Search/answer.py:34-48 | Solution2 returns -1 or a position of the list holding target |
| BinarySearch.RecurseFinds | quest/data-structures-and-algorithms/038-Binary-Search-Binary-Search/answer.py:35-46 | on a sorted list the recursion returns -1 only when target is absent from [left, right], and otherwise a position holding it |
| BinarySearch.RecursiveSearchCorrect | quest/data-structures-and-algorithms/038-Binary-Search-Binary-Search/answer.py:34-48 | on a sorted list Solution2 returns a position of target, or -1 exactly when target is absent |
| BinarySearch.Iterative | quest/data-structures-and-algorithms/038-Binary-Search-Binary-Search/answer.py:11-25 | the closed-interval loop returns what the recursion returns, and on a sorted list a position of target or -1 exactly when absent |
| BinarySearch.BisectLeft | quest/data-structures-and-algorithms/038-Binary-Search-Binary-Search/answer.py:59 | bisect_left on [lo, hi) returns a position within [lo, hi] |
| BinarySearch.BisectSplits | quest/data-structures-and-algorithms/038-Binary-Search-Binary-Search/answer.py:59 | on a sorted list bisect_left splits it into the values below target and the values at least target |
| BinarySearch.BisectSearch | quest/data-structures-and-algorithms/038-Binary-Search-Binary-Search/answer.py:57-64 | Solution3 returns -1 or a position holding target |
| BinarySearch.BisectSearchCorrect | quest/data-structures-and-algorithms/038-Binary-Search-Binary-Search/answer.py:57-64 | on a sorted list Solution3 returns the first occurrence of target, or -1 exactly when absent |
| BinarySearch.Linear | quest/data-structures-and-algorithms/038-Binary-Search-Binary-Search/answer.py:73-77 | the linear scan returns the first occurrence of target, or -1 exactly when absent, on any list |
| BinarySearch.BisectIsLinear | quest/data-structures-and-algorithms/038-Binary-Search-Binary-Search/answer.py:57-77 | on a sorted list the bisect variant and the linear scan return the same index |
| BinarySearch.HalfOpen | quest/data-structures-and-algorithms/038-Binary-Search-Binary-Search/answer.py:86-99 | the half-open loop returns -1 or a position holding target, and on a sorted list -1 only when target is absent |
| BinarySearch.HalfOpenRaise | quest/data-structures-and-algorithms/038-Binary-Search-Binary-Search/answer.py:94-95 | when the midpoint is below target on a sorted list, every occurrence of target lies in [mid + 1, right) |
| BinarySearch.HalfOpenLower | quest/data-structures-and-algorithms/038-Binary-Search-Binary-Search/answer.py:96-97 | when the midpoint is above target on a sorted list, every occurrence of target lies in [left, mid) |
| BinarySearch.VariantsAgree | quest/data-structures-and-algorithms/038-Binary-Search-Binary-Search/answer.py:5-99 | on a strictly ascending list (the problem's distinct values) the recursion and the bisect variant return the linear scan's index |
| BinarySearch.SampleHitMiss | quest/data-structures-and-algorithms/038-Binary-Search-Binary-Search/answer.py:106-107 | 9 in [-1, 0, 3, 5, 9, 12] is at 4, and 2 is absent (-1) |
| BinarySearch.SampleOthers | quest/data-structures-and-algorithms/038-Binary-Search-Binary-Search/answer.py:108-110 | 5 in [5] is at 0, -5 is absent, 4 in [1..7] is at 3 |
| BinarySearch.SampleBisect | quest/data-structures-and-algorithms/038-Binary-Search-Binary-Search/answer.py:106-107 | the bisect variant gives 4 and -1 on the first two driver cases |
| RotatedSearch.Order | quest/data-structures-and-algorithms/040-Binary-Search-Search-in-Rotated-Sorted-Array/answer.py:24-37 | in a list rotated at p, two positions i < j are in ascending order exactly when p does not fall between them |
| RotatedSearch.RotatedAnswerUnique | quest/data-structures-and-algorithms/040-Binary-Search-Search-in-Rotated-Sorted-Array/answer.py:13-39 | a rotated strictly ascending list has one valid answer per target |
| RotatedSearch.LeftSortedStep | quest/data-structures-and-algorithms/040-Binary-Search-Search-in-Rotated-Sorted-Array/answer.py:24-30 | when nums[left] <= nums[mid] the left half is sorted and the half the source keeps still brackets every occurrence of target |
| RotatedSearch.RightSortedStep | quest/data-structures-and-algorithms/040-Binary-Search-Search-in-Rotated-Sorted-Array/answer.py:31-37 | when nums[left] > nums[mid] the right half is sorted and the half the source keeps still brackets every occurrence of target |
| RotatedSearch.SortedHalf | quest/data-structures-and-algorithms/040-Binary-Search-Search-in-Rotated-Sorted-Array/answer.py:13-39 | Solution returns -1 or a position holding target, and on a rotated list -1 exactly when target is absent |
| RotatedSearch.FindPivot | quest/data-structures-and-algorithms/040-Binary-Search-Search-in-Rotated-Sorted-Array/answer.py:57-65 | the pivot loop returns an index of the list, and on a rotated list the rotation point |
| RotatedSearch.PivotStep | quest/data-structures-and-algorithms/040-Binary-Search-Search-in-Rotated-Sorted-Array/answer.py:58-63 | comparing nums[mid] with nums[right] tells which side of mid the rotation point is on |
| RotatedSearch.PivotIsMinimum | quest/data-structures-and-algorithms/040-Binary-Search-Search-in-Rotated-Sorted-Array/answer.py:49 | the rotation point holds the strict minimum (also line 65) |
| RotatedSearch.ChooseRun | quest/data-structures-and-algorithms/040-Binary-Search-Search-in-Rotated-Sorted-Array/answer.py:68-72 | target lies in the run [pivot, n - 1] when it is between that run's ends, and otherwise in [0, pivot - 1] |
| RotatedSearch.PivotThenSearch | quest/data-structures-and-algorithms/040-Binary-Search-Search-in-Rotated-Sorted-Array/answer.py:53-84 | Solution2 returns -1 or a position holding target, and on a rotated list -1 exactly when target is absent |
| RotatedSearch.RunStep | quest/data-structures-and-algorithms/040-Binary-Search-Search-in-Rotated-Sorted-Array/answer.py:75-82 | within one ascending run an ordinary binary-search step keeps every occurrence of target bracketed |
| RotatedSearch.LinearAgrees | quest/data-structures-and-algorithms/040-Binary-Search-Search-in-Rotated-Sorted-Array/answer.py:97-101 | on a rotated list the linear scan returns the same index as the binary searches |
| RotatedSearch.Samples | quest/data-structures-and-algorithms/040-Binary-Search-Search-in-Rotated-Sorted-Array/answer.py:107-113 | the driver's lists are rotated ascending lists and their expected results are the valid answers |
| PeakIndex.LocalPeakIsPeak | quest/data-structures-and-algorithms/037-Binary-Search-Peak-Index-in-a-Mountain-Array/answer.py:11-14 | on a mountain the only index higher than both neighbours is the peak |
| PeakIndex.Rising | quest/data-structures-and-algorithms/037-Binary-Search-Peak-Index-in-a-Mountain-Array/answer.py:11 | before the peak the values strictly rise |
| PeakIndex.Falling | quest/data-structures-and-algorithms/037-Binary-Search-Peak-Index-in-a-Mountain-Array/answer.py:11 | after the peak the values strictly fall |
| PeakIndex.PeakIsMax | quest/data-structures-and-algorithms/037-Binary-Search-Peak-Index-in-a-Mountain-Array/answer.py:56 | the peak holds the strict maximum of the mountain |
| PeakIndex.PeakUnique | quest/data-structures-and-algorithms/037-Binary-Search-Peak-Index-in-a-Mountain-Array/answer.py:11-14 | a mountain has exactly one peak |
| PeakIndex.Binary | quest/data-structures-and-algorithms/037-Binary-Search-Peak-Index-in-a-Mountain-Array/answer.py:16-29 | the slope search stops at a local peak of any non-empty list, and on a mountain at its peak |
| PeakIndex.FirstDescent | quest/data-structures-and-algorithms/037-Binary-Search-Peak-Index-in-a-Mountain-Array/answer.py:42-46 | Solution2 returns the first index whose right neighbour is lower, or the last index when the list never descends, and on a mountain the peak |
| PeakIndex.DescentIsPeak | quest/data-structures-and-algorithms/037-Binary-Search-Peak-Index-in-a-Mountain-Array/answer.py:39-40 | on a mountain the first descent is the peak |
| PeakIndex.Max | quest/data-structures-and-algorithms/037-Binary-Search-Peak-Index-in-a-Mountain-Array/answer.py:60 | max returns an element of the list no element exceeds |
| PeakIndex.IndexOf | quest/data-structures-and-algorithms/037-Binary-Search-Peak-Index-in-a-Mountain-Array/answer.py:60 | list.index returns the first position holding the value |
| PeakIndex.MaxIndex | quest/data-structures-and-algorithms/037-Binary-Search-Peak-Index-in-a-Mountain-Array/answer.py:59-60 | Solution3 returns a position of the list |
| PeakIndex.MaxIndexIsPeak | quest/data-structures-and-algorithms/037-Binary-Search-Peak-Index-in-a-Mountain-Array/answer.py:56-60 | on a mountain the first position of the maximum is the peak |
| PeakIndex.Ternary | quest/data-structures-and-algorithms/037-Binary-Search-Peak-Index-in-a-Mountain-Array/answer.py:106-118 | the ternary search returns a position of any non-empty list, and on a mountain the peak |
| PeakIndex.TernaryRaise | quest/data-structures-and-algorithms/037-Binary-Search-Peak-Index-in-a-Mountain-Array/answer.py:113-114 | a rise from mid1 to mid2 puts the peak after mid1 |
| PeakIndex.TernaryLower | quest/data-structures-and-algorithms/037-Binary-Search-Peak-Index-in-a-Mountain-Array/answer.py:115-116 | no rise from mid1 to mid2 puts the peak before mid2 |
| PeakIndex.SampleSmall | quest/data-structures-and-algorithms/037-Binary-Search-Peak-Index-in-a-Mountain-Array/answer.py:124-126 | the driver's first three mountains have their peak at 1 |
| PeakIndex.SampleLong | quest/data-structures-and-algorithms/037-Binary-Search-Peak-Index-in-a-Mountain-Array/answer.py:127-128 | the driver's longer mountains have their peaks at 1 and 2 |
| PeakIndex.SampleMaxIndex | quest/data-structures-and-algorithms/037-Binary-Search-Peak-Index-in-a-Mountain-Array/answer.py:60 | Solution3 returns 1 on [0, 10, 5, 2] (also line 126) |
| SumOfSquares.Isqrt | quest/data-structures-and-algorithms/039-Binary-Search-Sum-of-Square-Numbers/answer.py:22 | int(c ** 0.5), taken exactly, is the integer square root: its square is at most c and the next square exceeds c |
| SumOfSquares.PartBelowRoot | quest/data-structures-and-algorithms/039-Binary-Search-Sum-of-Square-Numbers/answer.py:13 | both parts of a solution are at most the square root of c, so the right pointer starts high enough (also line 22) |
| SumOfSquares.Swap | quest/data-structures-and-algorithms/039-Binary-Search-Sum-of-Square-Numbers/answer.py:3 | swapping the parts of a solution gives a solution |
| SumOfSquares.TwoPointerStep | quest/data-structures-and-algorithms/039-Binary-Search-Sum-of-Square-Numbers/answer.py:28-31 | a sum below c rules out left as a first part and a sum above c rules out right as a second part, so each move keeps every solution in the window |
| SumOfSquares.TwoPointers | quest/data-structures-and-algorithms/039-Binary-Search-Sum-of-Square-Numbers/answer.py:20-33 | Solution returns True exactly when c is a sum of two squares |
| SumOfSquares.NoneInEmptyWindow | quest/data-structures-and-algorithms/039-Binary-Search-Sum-of-Square-Numbers/answer.py:33 | when the pointers cross with no sum found, c is no sum of two squares |
| SumOfSquares.IsPerfectSquare | quest/data-structures-and-algorithms/039-Binary-Search-Sum-of-Square-Numbers/answer.py:46-51 | is_perfect_square holds exactly when n is the square of an integer, negative n being none |
| SumOfSquares.RootUnique | quest/data-structures-and-algorithms/039-Binary-Search-Sum-of-Square-Numbers/answer.py:50-51 | the only non-negative root of a square is its integer square root |
| SumOfSquares.PerfectSquareScan | quest/data-structures-and-algorithms/039-Binary-Search-Sum-of-Square-Numbers/answer.py:45-60 | Solution2 returns True exactly when c is a sum of two squares |
| SumOfSquares.SquaresBelow | quest/data-structures-and-algorithms/039-Binary-Search-Sum-of-Square-Numbers/answer.py:75-78 | the set holds only squares of numbers below the bound |
| SumOfSquares.SquareSet | quest/data-structures-and-algorithms/039-Binary-Search-Sum-of-Square-Numbers/answer.py:73-85 | Solution3 returns True exactly when c is a sum of two squares |
| SumOfSquares.NoComplement | quest/data-structures-and-algorithms/039-Binary-Search-Sum-of-Square-Numbers/answer.py:81-85 | when no collected square has its complement among them, c is no sum of two squares |
| SumOfSquares.SquareIn | quest/data-structures-and-algorithms/039-Binary-Search-Sum-of-Square-Numbers/answer.py:77-78 | every square of 0 .. max_val is collected |
| SumOfSquares.SmallestFactor | quest/data-structures-and-algorithms/039-Binary-Search-Sum-of-Square-Numbers/answer.py:108-120 | the smallest divisor of n >= 2 above 1 divides n and no smaller number above 1 does |
| SumOfSquares.SmallestFactorPrime | quest/data-structures-and-algorithms/039-Binary-Search-Sum-of-Square-Numbers/answer.py:122-123 | the smallest factor of n is prime |
| SumOfSquares.Strip | quest/data-structures-and-algorithms/039-Binary-Search-Sum-of-Square-Numbers/answer.py:112-114 | dividing p out of n as often as it goes counts the divisions and leaves a positive rest that p does not divide |
| SumOfSquares.LargeRemainderPrime | quest/data-structures-and-algorithms/039-Binary-Search-Sum-of-Square-Numbers/answer.py:109 | once i * i exceeds what is left and nothing below i divides it, what is left above 1 is prime (also lines 122-123) |
| SumOfSquares.StripStep | quest/data-structures-and-algorithms/039-Binary-Search-Sum-of-Square-Numbers/answer.py:112-114 | one division of i keeps the count of i in the original number and what remains after it |
| SumOfSquares.Fermat | quest/data-structures-and-algorithms/039-Binary-Search-Sum-of-Square-Numbers/answer.py:102-124 | Solution4 returns True exactly when c is 0 or every prime factor 4k + 3 of c occurs an even number of times |
| SumOfSquares.PrimeCondition | quest/data-structures-and-algorithms/039-Binary-Search-Sum-of-Square-Numbers/answer.py:122-124 | for a prime rest the condition reduces to its residue mod 4 not being 3 |
| SumOfSquares.DivideOut | quest/data-structures-and-algorithms/039-Binary-Search-Sum-of-Square-Numbers/answer.py:110-114 | the inner loop divides i out completely, counting how often, and leaves a number with no factor up to i |
| SumOfSquares.TrialStep | quest/data-structures-and-algorithms/039-Binary-Search-Sum-of-Square-Numbers/answer.py:117-118 | one round of trial division by i decides exactly the condition's factor for i, the rest deciding the remainder |
| SumOfSquares.SampleSums | quest/data-structures-and-algorithms/039-Binary-Search-Sum-of-Square-Numbers/answer.py:130-136 | 5, 4, 2, 1, 0 and 8 are sums of two squares, with the parts named |
| SumOfSquares.SamplePrimes | quest/data-structures-and-algorithms/039-Binary-Search-Sum-of-Square-Numbers/answer.py:130-137 | the prime condition rejects 3 and 7 and accepts 5 |
| SumOfSquares.SampleEight | quest/data-structures-and-algorithms/039-Binary-Search-Sum-of-Square-Numbers/answer.py:136 | the prime condition accepts 8 |
| Sorting.Insort | quest/data-structures-and-algorithms/016-Heap-Last-Stone-Weight/answer.py:83 | bisect.insort returns the list with one more copy of the value |
| Sorting.InsortSorted | quest/data-structures-and-algorithms/016-Heap-Last-Stone-Weight/answer.py:83 | inserting into an ascending list with insort keeps it ascending |
| Sorting.Sort | quest/data-structures-and-algorithms/016-Heap-Last-Stone-Weight/answer.py:49 | sort returns a permutation of the list |
| Sorting.SortSorted | quest/data-structures-and-algorithms/016-Heap-Last-Stone-Weight/answer.py:49 | sort returns an ascending list |
| Sorting.SortedUnique | quest/data-structures-and-algorithms/016-Heap-Last-Stone-Weight/answer.py:49 | two ascending lists with the same elements are the same list, so every correct sort gives the one result (also line 74) |
| Sorting.PopLast | quest/data-structures-and-algorithms/016-Heap-Last-Stone-Weight/answer.py:51-52 | list.pop() removes one copy of the last element |
| Sorting.PopAt | quest/data-structures-and-algorithms/016-Heap-Last-Stone-Weight/answer.py:103 | list.pop(i) removes one copy of the element at i |
| Sorting.SortedTop | quest/data-structures-and-algorithms/016-Heap-Last-Stone-Weight/answer.py:49-52 | the last element of an ascending permutation of a list is the list's largest element |
| Sorting.SumSort | quest/data-structures-and-algorithms/016-Heap-Last-Stone-Weight/answer.py:49 | sorting keeps the total |
| Sorting.Least | quest/data-structures-and-algorithms/034-Sorting-Minimum-Absolute-Difference/answer.py:123 | min returns an element of the list that no element is below |
| Sorting.Greatest | quest/data-structures-and-algorithms/034-Sorting-Minimum-Absolute-Difference/answer.py:123 | max returns an element of the list that no element exceeds |
| Sorting.SortPairs | quest/data-structures-and-algorithms/036-Sorting-Merge-Intervals/answer.py:50 | sorting a list of pairs returns a permutation of it |
| Sorting.SortPairsSorted | quest/data-structures-and-algorithms/036-Sorting-Merge-Intervals/answer.py:50 | sorting a list of pairs orders it by first element, then second |
| LastStone.Smash | quest/data-structures-and-algorithms/016-Heap-Last-Stone-Weight/answer.py:48-56 | one round on ascending stones takes off the heaviest two and puts back their difference unless it is 0 |
| LastStone.SmashSorted | quest/data-structures-and-algorithms/016-Heap-Last-Stone-Weight/answer.py:76-83 | a round that inserts the difference in order keeps the stones ascending |
| LastStone.SmashBag | quest/data-structures-and-algorithms/016-Heap-Last-Stone-Weight/answer.py:13 | after a round the stones are the rest plus the difference of the heaviest two, unless they were equal (also lines 51-56) |
| LastStone.OutcomeOf | quest/data-structures-and-algorithms/016-Heap-Last-Stone-Weight/answer.py:72-85 | playing ascending stones gives the outcome of their bag, whatever order they came in |
| LastStone.RoundOf | quest/data-structures-and-algorithms/016-Heap-Last-Stone-Weight/answer.py:21-28 | the outcome of a bag is the outcome after one round on its heaviest y and the heaviest x of the rest |
| LastStone.TopTwo | quest/data-structures-and-algorithms/016-Heap-Last-Stone-Weight/answer.py:51-52 | an ascending list of the bag ends in its heaviest stone and the heaviest of the rest |
| LastStone.RoundTotal | quest/data-structures-and-algorithms/016-Heap-Last-Stone-Weight/answer.py:55-56 | each round lowers the total weight by twice the lighter stone's weight |
| LastStone.PlayParity | quest/data-structures-and-algorithms/016-Heap-Last-Stone-Weight/answer.py:48-58 | the last stone's weight has the parity of the total weight |
| LastStone.OutcomeParity | quest/data-structures-and-algorithms/016-Heap-Last-Stone-Weight/answer.py:4-113 | in any order, the answer has the parity of the stones' total weight |
| LastStone.PlayBounded | quest/data-structures-and-algorithms/016-Heap-Last-Stone-Weight/answer.py:48-58 | stones of non-negative weight end in nothing (0) or in a stone no heavier than the heaviest |
| LastStone.Heap | quest/data-structures-and-algorithms/016-Heap-Last-Stone-Weight/answer.py:15-31 | Solution returns the outcome of the stones' bag |
| LastStone.HeapPop | quest/data-structures-and-algorithms/016-Heap-Last-Stone-Weight/answer.py:23-24 | heappop on the negated weights returns the heaviest stone and leaves the heap without it |
| LastStone.SortEveryRound | quest/data-structures-and-algorithms/016-Heap-Last-Stone-Weight/answer.py:45-58 | Solution2 returns the outcome of the stones' bag |
| LastStone.SortedInsert | quest/data-structures-and-algorithms/016-Heap-Last-Stone-Weight/answer.py:72-85 | Solution3 returns the outcome of the stones' bag |
| LastStone.MaxAndPop | quest/data-structures-and-algorithms/016-Heap-Last-Stone-Weight/answer.py:99-113 | Solution4 returns the outcome of the stones' bag |
| LastStone.PopHeaviest | quest/data-structures-and-algorithms/016-Heap-Last-Stone-Weight/answer.py:102-103 | s.pop(s.index(max(s))) returns the heaviest stone and leaves the list without one copy of it |
| LastStone.SampleMixed | quest/data-structures-and-algorithms/016-Heap-Last-Stone-Weight/answer.py:120 | [2, 7, 4, 1, 8, 1] leaves a stone of weight 1 |
| LastStone.PlayMixed | quest/data-structures-and-algorithms/016-Heap-Last-Stone-Weight/answer.py:120 | the rounds of the first driver case, on its stones in ascending order, leave 1 |
| LastStone.SampleSmall | quest/data-structures-and-algorithms/016-Heap-Last-Stone-Weight/answer.py:123-126 | [1] leaves 1 and [2, 2] leaves nothing (0) |
| BuyTickets.SumMinAppend | quest/data-structures-and-algorithms/014-Time-Needed-to-Buy-Tickets/answer.py:49-55 | the capped sum adds up over a concatenation |
| BuyTickets.SumMinRaise | quest/data-structures-and-algorithms/014-Time-Needed-to-Buy-Tickets/answer.py:71-75 | raising the cap from c - 1 to c adds one for each person who still needs a ticket in round c |
| BuyTickets.WaitingAtLeast | quest/data-structures-and-algorithms/014-Time-Needed-to-Buy-Tickets/answer.py:38 | person k waits at least as many seconds as the tickets they buy |
| BuyTickets.FrontRequeues | quest/data-structures-and-algorithms/014-Time-Needed-to-Buy-Tickets/answer.py:16-23 | the front person buying one ticket and going to the back takes one second and leaves the closed-form wait of the new line, k moving forward or to the back |
| BuyTickets.FrontLeaves | quest/data-structures-and-algorithms/014-Time-Needed-to-Buy-Tickets/answer.py:24-29 | the front person buying their last ticket and leaving takes one second, k moving forward |
| BuyTickets.LastTicket | quest/data-structures-and-algorithms/014-Time-Needed-to-Buy-Tickets/answer.py:26-27 | person k at the front with one ticket to go is done after one second |
| BuyTickets.WaitingByRounds | quest/data-structures-and-algorithms/014-Time-Needed-to-Buy-Tickets/answer.py:71-78 | the closed form equals the count of every full round below tickets[k] plus the people up to k in the last round |
| BuyTickets.Simulate | quest/data-structures-and-algorithms/014-Time-Needed-to-Buy-Tickets/answer.py:5-31 | the deque simulation returns the closed-form wait of person k |
| BuyTickets.Formula | quest/data-structures-and-algorithms/014-Time-Needed-to-Buy-Tickets/answer.py:33-57 | timeRequiredToBuy2's one pass returns the closed-form wait |
| BuyTickets.Rounds | quest/data-structures-and-algorithms/014-Time-Needed-to-Buy-Tickets/answer.py:59-80 | the round-by-round count returns the closed-form wait |
| BuyTickets.OnePass | quest/data-structures-and-algorithms/014-Time-Needed-to-Buy-Tickets/answer.py:82-101 | timeRequiredToBuy4 returns the closed-form wait |
| BuyTickets.Samples | quest/data-structures-and-algorithms/014-Time-Needed-to-Buy-Tickets/answer.py:109-125 | [2, 3, 2] with k = 2 waits 6 seconds and [5, 1, 1, 1] with k = 0 waits 8 |
| Lunch.Unfed | quest/data-structures-and-algorithms/013-Number-of-Students-Unable-to-Eat-Lunch/answer.py:10-12 | serving the stack to a bag of preferences leaves at most as many students as there are |
| Lunch.UnfedServesPrefix | quest/data-structures-and-algorithms/013-Number-of-Students-Unable-to-Eat-Lunch/answer.py:10-12 | serving takes the longest prefix of the stack the students' preferences cover, one student per sandwich; the students left are the rest (also lines 28-40) |
| Lunch.SubBagCons | quest/data-structures-and-algorithms/013-Number-of-Students-Unable-to-Eat-Lunch/answer.py:89-93 | one more v fits in the bag exactly when the bag holds a v and the rest fits in the bag less that v |
| Lunch.UnfedServe | quest/data-structures-and-algorithms/013-Number-of-Students-Unable-to-Eat-Lunch/answer.py:30-31 | when someone wants the next sandwich, one of them takes it and serving goes on with the rest (also lines 35-36) |
| Lunch.UnfedNobody | quest/data-structures-and-algorithms/013-Number-of-Students-Unable-to-Eat-Lunch/answer.py:32-33 | when nobody left wants the next sandwich, everyone left stays unfed (also lines 37-38) |
| Lunch.BinaryBag | quest/data-structures-and-algorithms/013-Number-of-Students-Unable-to-Eat-Lunch/answer.py:21-25 | a bag of 0s and 1s has as many elements as its 0s and 1s together |
| Lunch.Counting | quest/data-structures-and-algorithms/013-Number-of-Students-Unable-to-Eat-Lunch/answer.py:5-40 | countStudents returns how many students are left when the stack is served from their preferences |
| Lunch.Simulation | quest/data-structures-and-algorithms/013-Number-of-Students-Unable-to-Eat-Lunch/answer.py:42-74 | the queue simulation returns the same number |
| Lunch.ServeFront | quest/data-structures-and-algorithms/013-Number-of-Students-Unable-to-Eat-Lunch/answer.py:61-64 | the front student taking the top sandwich leaves the rest of the line facing the rest of the stack |
| Lunch.RotateFront | quest/data-structures-and-algorithms/013-Number-of-Students-Unable-to-Eat-Lunch/answer.py:66-68 | the front student refusing goes to the back: the line keeps its preferences and one more consecutive refusal |
| Lunch.NobodyWants | quest/data-structures-and-algorithms/013-Number-of-Students-Unable-to-Eat-Lunch/answer.py:71-72 | once every student in the line has refused the top sandwich in a row, nobody in it wants it |
| Lunch.CounterBag | quest/data-structures-and-algorithms/013-Number-of-Students-Unable-to-Eat-Lunch/answer.py:76-95 | countStudents_counter, serving from a Counter, returns the same number |
| Lunch.NoneServed | quest/data-structures-and-algorithms/013-Number-of-Students-Unable-to-Eat-Lunch/answer.py:110 | [False] * n is n unserved students |
| Lunch.UntakenTake | quest/data-structures-and-algorithms/013-Number-of-Students-Unable-to-Eat-Lunch/answer.py:121-124 | serving student i removes one copy of their preference from those waiting |
| Lunch.UntakenMiss | quest/data-structures-and-algorithms/013-Number-of-Students-Unable-to-Eat-Lunch/answer.py:117-127 | nobody waiting who was skipped wants the sandwich |
| Lunch.FirstWanting | quest/data-structures-and-algorithms/013-Number-of-Students-Unable-to-Eat-Lunch/answer.py:117-127 | the inner loop stops at the first waiting student who wants the sandwich, or runs off the end |
| Lunch.FirstWantingSkips | quest/data-structures-and-algorithms/013-Number-of-Students-Unable-to-Eat-Lunch/answer.py:126-127 | every waiting student the inner loop passes over refuses the sandwich |
| Lunch.SkipRefusing | quest/data-structures-and-algorithms/013-Number-of-Students-Unable-to-Eat-Lunch/answer.py:117-127 | the inner loop reaches the first waiting student who wants the sandwich, having counted the waiting students before them |
| Lunch.ScanNobody | quest/data-structures-and-algorithms/013-Number-of-Students-Unable-to-Eat-Lunch/answer.py:129-131 | a pass in which nobody wants the top sandwich ends the scan |
| Lunch.ScanServe | quest/data-structures-and-algorithms/013-Number-of-Students-Unable-to-Eat-Lunch/answer.py:121-131 | a pass in which a student is served after skipping the given number of waiting students stops the scan when that number equals those remaining, and otherwise goes on from the new state |
| Lunch.ScanPass | quest/data-structures-and-algorithms/013-Number-of-Students-Unable-to-Eat-Lunch/answer.py:114-131 | one pass of the outer loop keeps the count of remaining students and either stops with the scan's result or moves to a state with fewer remaining |
| Lunch.OptimizedAsWritten | quest/data-structures-and-algorithms/013-Number-of-Students-Unable-to-Eat-Lunch/answer.py:97-133 | countStudents_optimized_simulation as written computes the scan that stops whenever the skipped count equals the students remaining |
| Lunch.OptimizedCounterexample | quest/data-structures-and-algorithms/013-Number-of-Students-Unable-to-Eat-Lunch/answer.py:129-131 | on students [1, 0] and sandwiches [0, 1] everyone eats, but the scan as written stops with 1 left |
| Lunch.UnfedTake | quest/data-structures-and-algorithms/013-Number-of-Students-Unable-to-Eat-Lunch/answer.py:121-124 | serving the waiting student who wants the next sandwich moves on to the sandwich after it and keeps the final count |
| Lunch.ServePass | quest/data-structures-and-algorithms/013-Number-of-Students-Unable-to-Eat-Lunch/answer.py:114-131 | one pass of the corrected scan serves the first waiting student who wants the top sandwich or stops when there is none |
| Lunch.Optimized | quest/data-structures-and-algorithms/013-Number-of-Students-Unable-to-Eat-Lunch/answer.py:97-133 | the scan, stopping only when no student took the sandwich, returns the number countStudents returns |
| Lunch.OneLinerCounterexample | quest/data-structures-and-algorithms/013-Number-of-Students-Unable-to-Eat-Lunch/answer.py:147-149 | on students [0, 1] and sandwiches [1, 0] everyone eats, but the one-liner returns 1 |
| Lunch.Scan | quest/data-structures-and-algorithms/013-Number-of-Students-Unable-to-Eat-Lunch/answer.py:114-131 | the optimized simulation as written never returns more students than are waiting, and feeds at most one student per sandwich left on the stack |
| Lunch.OneLiner | quest/data-structures-and-algorithms/013-Number-of-Students-Unable-to-Eat-Lunch/answer.py:147-150 | the one-liner returns 0 exactly when every sandwich i is wanted by some student from position i on; otherwise it returns the count of sandwiches from the first one that is not |
| DivisibleByP.ShortestMeaning | quest/data-structures-and-algorithms/032-Prefix-Sum-Make-Sum-Divisible-by-P/answer.py:41 | the search from length len returns -1 only when no removable stretch of at least len is shorter than the list, and otherwise the shortest removable length from len on (also line 47) |
| DivisibleByP.AnswerMeaning | quest/data-structures-and-algorithms/032-Prefix-Sum-Make-Sum-Divisible-by-P/answer.py:9-14 | the answer is 0 exactly when the sum is divisible by p; otherwise it is the length of a removable stretch shorter than the list that no removable stretch undercuts, or -1 when only the whole list is removable (also line 47) |
| DivisibleByP.FromLeast | quest/data-structures-and-algorithms/032-Prefix-Sum-Make-Sum-Divisible-by-P/answer.py:46-47 | a length no longer than any removable stretch and reached by one (or equal to n) gives the answer, or -1 when it is n |
| DivisibleByP.Congruence | quest/data-structures-and-algorithms/032-Prefix-Sum-Make-Sum-Divisible-by-P/answer.py:11-14 | removing nums[a:b] leaves a multiple of p exactly when the prefix residue at a is (prefix residue at b - target + p) % p (also line 37) |
| DivisibleByP.GoodIffNeeded | quest/data-structures-and-algorithms/032-Prefix-Sum-Make-Sum-Divisible-by-P/answer.py:37-41 | a stretch from a to b is removable exactly when the prefix residue at a is the residue needed at b |
| DivisibleByP.Latest | quest/data-structures-and-algorithms/032-Prefix-Sum-Make-Sum-Divisible-by-P/answer.py:44 | the map's entry for a residue is the latest prefix end with that residue (also lines 168-169) |
| DivisibleByP.MinEndMeaning | quest/data-structures-and-algorithms/032-Prefix-Sum-Make-Sum-Divisible-by-P/answer.py:41 | the running minimum is the least removable length among stretches ending by m, capped at n |
| DivisibleByP.MinEndAll | quest/data-structures-and-algorithms/032-Prefix-Sum-Make-Sum-Divisible-by-P/answer.py:46-47 | the answer is that least length over the whole list, or -1 when it is n |
| DivisibleByP.LatestMapStep | quest/data-structures-and-algorithms/032-Prefix-Sum-Make-Sum-Divisible-by-P/answer.py:44 | writing the current residue's position keeps the map holding the latest position of every residue |
| DivisibleByP.HashMap | quest/data-structures-and-algorithms/032-Prefix-Sum-Make-Sum-Divisible-by-P/answer.py:17-47 | Solution returns the answer |
| DivisibleByP.BruteStep | quest/data-structures-and-algorithms/032-Prefix-Sum-Make-Sum-Divisible-by-P/answer.py:71-75 | one more end j keeps min_len the least removable length among the stretches tried |
| DivisibleByP.BruteForce | quest/data-structures-and-algorithms/032-Prefix-Sum-Make-Sum-Divisible-by-P/answer.py:58-77 | Solution2 returns the answer |
| DivisibleByP.PrefixArray | quest/data-structures-and-algorithms/032-Prefix-Sum-Make-Sum-Divisible-by-P/answer.py:93-95 | prefix[k] is the sum of the first k numbers |
| DivisibleByP.SeenMapStep | quest/data-structures-and-algorithms/032-Prefix-Sum-Make-Sum-Divisible-by-P/answer.py:113 | writing prefix end i keeps the map holding the latest prefix end of every residue |
| DivisibleByP.SeenMapMin | quest/data-structures-and-algorithms/032-Prefix-Sum-Make-Sum-Divisible-by-P/answer.py:106-111 | one step of the loop extends the least length to the stretches ending at prefix end i |
| DivisibleByP.PrefixMap | quest/data-structures-and-algorithms/032-Prefix-Sum-Make-Sum-Divisible-by-P/answer.py:89-115 | Solution3 returns the answer |
| DivisibleByP.SampleOne | quest/data-structures-and-algorithms/032-Prefix-Sum-Make-Sum-Divisible-by-P/answer.py:125-127 | [3, 1, 4, 2] with p = 6 gives 1 |
| DivisibleByP.SampleTwo | quest/data-structures-and-algorithms/032-Prefix-Sum-Make-Sum-Divisible-by-P/answer.py:130-132 | [6, 3, 5, 2] with p = 9 gives 2 |
| DivisibleByP.SampleThree | quest/data-structures-and-algorithms/032-Prefix-Sum-Make-Sum-Divisible-by-P/answer.py:135-142 | [1, 2, 3] and [1, 1, 1] with p = 3 give 0 |
| FairArray.Removed | quest/data-structures-and-algorithms/033-Prefix-Sum-Ways-to-Make-a-Fair-Array/answer.py:73 | the list without index i is one element shorter |
| FairArray.FairCount | quest/data-structures-and-algorithms/033-Prefix-Sum-Ways-to-Make-a-Fair-Array/answer.py:71-82 | the number of fair removals among the first n indices lies between 0 and n |
| FairArray.ParityAppend | quest/data-structures-and-algorithms/033-Prefix-Sum-Ways-to-Make-a-Fair-Array/answer.py:8-9 | after a prefix of length m, an element's parity in the joined list is its own parity shifted by m |
| FairArray.PrefixStep | quest/data-structures-and-algorithms/033-Prefix-Sum-Ways-to-Make-a-Fair-Array/answer.py:50-53 | extending the prefix by index i adds nums[i] to the running sum of i's parity and nothing to the other (also lines 107-110) |
| FairArray.RemovedSplit | quest/data-structures-and-algorithms/033-Prefix-Sum-Ways-to-Make-a-Fair-Array/answer.py:8-9 | removing i keeps the parity of the elements before i and moves those after it back one place (also line 73) |
| FairArray.WholeSplit | quest/data-structures-and-algorithms/033-Prefix-Sum-Ways-to-Make-a-Fair-Array/answer.py:24-25 | the total parity sums split into the prefix through i and the rest, shifted by i + 1 |
| FairArray.RemovedSum | quest/data-structures-and-algorithms/033-Prefix-Sum-Ways-to-Make-a-Fair-Array/answer.py:13-15 | after removing i, the new sum of parity p is the left sum of parity p plus the right sum of the other parity |
| FairArray.ShiftBack | quest/data-structures-and-algorithms/033-Prefix-Sum-Ways-to-Make-a-Fair-Array/answer.py:9 | the parity one place further on of the other parity equals the parity of p at i |
| FairArray.FairBySums | quest/data-structures-and-algorithms/033-Prefix-Sum-Ways-to-Make-a-Fair-Array/answer.py:32-46 | removing i leaves a fair list exactly when left_even + right_odd == left_odd + right_even, with the right sums as Solution computes them |
| FairArray.Running | quest/data-structures-and-algorithms/033-Prefix-Sum-Ways-to-Make-a-Fair-Array/answer.py:20-55 | Solution returns the number of indices whose removal leaves equal even and odd sums |
| FairArray.BruteForce | quest/data-structures-and-algorithms/033-Prefix-Sum-Ways-to-Make-a-Fair-Array/answer.py:67-82 | Solution2 returns that number, which lies between 0 and len(nums) |
| FairArray.Prefixes | quest/data-structures-and-algorithms/033-Prefix-Sum-Ways-to-Make-a-Fair-Array/answer.py:99-110 | prefix_even[k] and prefix_odd[k] are the even-index and odd-index sums of nums[:k + 1] |
| FairArray.PrefixFair | quest/data-structures-and-algorithms/033-Prefix-Sum-Ways-to-Make-a-Fair-Array/answer.py:116-129 | Solution3's test at i, with left sums from prefix[i - 1] and right sums from the totals minus prefix[i], holds exactly when removing i is fair |
| FairArray.PrefixArrays | quest/data-structures-and-algorithms/033-Prefix-Sum-Ways-to-Make-a-Fair-Array/answer.py:94-132 | Solution3 returns the number of fair removals for a non-empty list |
| FairArray.SampleOne | quest/data-structures-and-algorithms/033-Prefix-Sum-Ways-to-Make-a-Fair-Array/answer.py:142-144 | [2, 1, 6, 4] gives 1 |
| FairArray.SampleTwo | quest/data-structures-and-algorithms/033-Prefix-Sum-Ways-to-Make-a-Fair-Array/answer.py:150-152 | [1, 1, 1] gives 3 |
| FairArray.SampleThree | quest/data-structures-and-algorithms/033-Prefix-Sum-Ways-to-Make-a-Fair-Array/answer.py:158-160 | [1, 2, 3] gives 0 |
| Reduction.OpsAppend | quest/data-structures-and-algorithms/035-Sorting-Reduction-Operations-to-Make-the-Array-Elements-Equal/answer.py:10-13 | the operations of a concatenation are those of its parts |
| Reduction.OpsInsort | quest/data-structures-and-algorithms/035-Sorting-Reduction-Operations-to-Make-the-Array-Elements-Equal/answer.py:16 | inserting v into a list adds the number of distinct values below v |
| Reduction.OpsSort | quest/data-structures-and-algorithms/035-Sorting-Reduction-Operations-to-Make-the-Array-Elements-Equal/answer.py:16 | sorting the elements does not change the operations they take (also line 102) |
| Reduction.OpsSameValues | quest/data-structures-and-algorithms/035-Sorting-Reduction-Operations-to-Make-the-Array-Elements-Equal/answer.py:75 | only which values are present matters, not how often they occur |
| Reduction.AnswerSort | quest/data-structures-and-algorithms/035-Sorting-Reduction-Operations-to-Make-the-Array-Elements-Equal/answer.py:16 | the answer does not depend on the input's order, so sorting first is sound (also line 102) |
| Reduction.AllEqualAnswer | quest/data-structures-and-algorithms/035-Sorting-Reduction-Operations-to-Make-the-Array-Elements-Equal/answer.py:124 | a list whose elements are all equal takes no operations (also line 128) |
| Reduction.SmallerStep | quest/data-structures-and-algorithms/035-Sorting-Reduction-Operations-to-Make-the-Array-Elements-Equal/answer.py:20-22 | in an ascending list the number of distinct smaller values stays the same on a repeat and rises by one on a new value |
| Reduction.LevelStep | quest/data-structures-and-algorithms/035-Sorting-Reduction-Operations-to-Make-the-Array-Elements-Equal/answer.py:20-23 | one step of Solution's loop keeps level the number of distinct values below nums[i] and operations the total so far |
| Reduction.Greedy | quest/data-structures-and-algorithms/035-Sorting-Reduction-Operations-to-Make-the-Array-Elements-Equal/answer.py:15-25 | Solution returns the number of operations |
| Reduction.AtLeastStep | quest/data-structures-and-algorithms/035-Sorting-Reduction-Operations-to-Make-the-Array-Elements-Equal/answer.py:55-58 | the elements at or above v are those above v plus the occurrences of v |
| Reduction.SortedAtLeast | quest/data-structures-and-algorithms/035-Sorting-Reduction-Operations-to-Make-the-Array-Elements-Equal/answer.py:113-114 | in an ascending list the elements at or above the value starting at p are the len(nums) - p from p on |
| Reduction.Exchange | quest/data-structures-and-algorithms/035-Sorting-Reduction-Operations-to-Make-the-Array-Elements-Equal/answer.py:34-37 | summing per element the values up to it equals summing per value the elements at or above it |
| Reduction.AnswerKeySum | quest/data-structures-and-algorithms/035-Sorting-Reduction-Operations-to-Make-the-Array-Elements-Equal/answer.py:34-37 | the answer is the sum, over every distinct value above the least, of the number of elements at or above it (also lines 69-72) |
| Reduction.SingleZero | quest/data-structures-and-algorithms/035-Sorting-Reduction-Operations-to-Make-the-Array-Elements-Equal/answer.py:40-41 | a single element takes no operations |
| Reduction.Counting | quest/data-structures-and-algorithms/035-Sorting-Reduction-Operations-to-Make-the-Array-Elements-Equal/answer.py:39-60 | Solution2 returns the number of operations for a non-empty list |
| Reduction.KeyInsertDescending | quest/data-structures-and-algorithms/035-Sorting-Reduction-Operations-to-Make-the-Array-Elements-Equal/answer.py:76 | inserting a new key keeps the keys distinct and descending |
| Reduction.Keys | quest/data-structures-and-algorithms/035-Sorting-Reduction-Operations-to-Make-the-Array-Elements-Equal/answer.py:75-76 | the keys are the distinct values of nums, and there are none only for an empty list |
| Reduction.KeysDescending | quest/data-structures-and-algorithms/035-Sorting-Reduction-Operations-to-Make-the-Array-Elements-Equal/answer.py:76 | the keys are strictly descending |
| Reduction.KeysGap | quest/data-structures-and-algorithms/035-Sorting-Reduction-Operations-to-Make-the-Array-Elements-Equal/answer.py:76 | no value of nums lies strictly between two neighbouring keys |
| Reduction.KeysEnds | quest/data-structures-and-algorithms/035-Sorting-Reduction-Operations-to-Make-the-Array-Elements-Equal/answer.py:76 | the first key is the largest value and the last the smallest |
| Reduction.KeyStep | quest/data-structures-and-algorithms/035-Sorting-Reduction-Operations-to-Make-the-Array-Elements-Equal/answer.py:84-86 | one step of Solution3's loop: cumulative becomes the number of elements at or above key i, and operations the sum over the keys so far |
| Reduction.CounterKeys | quest/data-structures-and-algorithms/035-Sorting-Reduction-Operations-to-Make-the-Array-Elements-Equal/answer.py:74-88 | Solution3 returns the number of operations |
| Reduction.StartsStep | quest/data-structures-and-algorithms/035-Sorting-Reduction-Operations-to-Make-the-Array-Elements-Equal/answer.py:107-109 | extending the scan by element i appends i to unique_positions exactly when the value changes |
| Reduction.StartsGap | quest/data-structures-and-algorithms/035-Sorting-Reduction-Operations-to-Make-the-Array-Elements-Equal/answer.py:106-109 | the values at two neighbouring starts rise, and no value of nums lies strictly between them |
| Reduction.StartsStepSum | quest/data-structures-and-algorithms/035-Sorting-Reduction-Operations-to-Make-the-Array-Elements-Equal/answer.py:113-114 | one step of Solution4's second loop adds the elements from start j to the end |
| Reduction.FindStarts | quest/data-structures-and-algorithms/035-Sorting-Reduction-Operations-to-Make-the-Array-Elements-Equal/answer.py:106-109 | unique_positions holds 0 and exactly the positions where the sorted list takes a new value |
| Reduction.SumStarts | quest/data-structures-and-algorithms/035-Sorting-Reduction-Operations-to-Make-the-Array-Elements-Equal/answer.py:113-116 | the second loop's total is the number of operations |
| Reduction.UniquePositions | quest/data-structures-and-algorithms/035-Sorting-Reduction-Operations-to-Make-the-Array-Elements-Equal/answer.py:101-116 | Solution4 returns the number of operations |
| Reduction.Samples | quest/data-structures-and-algorithms/035-Sorting-Reduction-Operations-to-Make-the-Array-Elements-Equal/answer.py:122-128 | [5, 1, 3] gives 3, [1, 1, 1] gives 0 and [1, 1, 2, 2, 3] gives 4 |
| FirstMissing.Pigeonhole | quest/data-structures-and-algorithms/030-First-Missing-Positive/answer.py:10 | a list of n elements cannot hold every one of 1..m unless m <= n |
| FirstMissing.SmallestMeaning | quest/data-structures-and-algorithms/030-First-Missing-Positive/answer.py:10 | the answer lies in 1..n + 1, is absent from nums, and every smaller positive integer is present (also line 13) |
| FirstMissing.SmallestUnique | quest/data-structures-and-algorithms/030-First-Missing-Positive/answer.py:10-13 | any value with those three properties is the answer |
| FirstMissing.SmallestPerm | quest/data-structures-and-algorithms/030-First-Missing-Positive/answer.py:26 | lists with the same elements have the same answer, so swapping in place does not change it (also line 143) |
| FirstMissing.Swap | quest/data-structures-and-algorithms/030-First-Missing-Positive/answer.py:26 | the swap exchanges two positions, keeps every other one and permutes the list (also line 143) |
| FirstMissing.SwapFixed | quest/data-structures-and-algorithms/030-First-Missing-Positive/answer.py:23-26 | a swap that brings nums[i] to its home index adds a position holding its own value and moves none away |
| FirstMissing.SwapHome | quest/data-structures-and-algorithms/030-First-Missing-Positive/answer.py:20-26 | the swap keeps every position before i that was home at home |
| FirstMissing.HomeMeaning | quest/data-structures-and-algorithms/030-First-Missing-Positive/answer.py:11-12 | once every position is home, any v in 1..n that occurs sits at v - 1 |
| FirstMissing.SwapHomeStep | quest/data-structures-and-algorithms/030-First-Missing-Positive/answer.py:25-26 | the swap writes the list with positions i and nums[i] - 1 exchanged, keeps its elements, and adds a fixed position (also lines 142-143) |
| FirstMissing.Place | quest/data-structures-and-algorithms/030-First-Missing-Positive/answer.py:20-26 | after the first loop the list is a permutation of the input with every position home |
| FirstMissing.Scan | quest/data-structures-and-algorithms/030-First-Missing-Positive/answer.py:29-34 | the scan returns the first i + 1 with nums[i] != i + 1, or n + 1 |
| FirstMissing.ScanAnswer | quest/data-structures-and-algorithms/030-First-Missing-Positive/answer.py:29-34 | after placement the scan's result is the answer |
| FirstMissing.CyclicSort | quest/data-structures-and-algorithms/030-First-Missing-Positive/answer.py:15-34 | Solution returns the first missing positive and leaves a permutation of the input in nums |
| FirstMissing.PlaceWhile | quest/data-structures-and-algorithms/030-First-Missing-Positive/answer.py:137-145 | Solution5's first loop leaves a permutation of the input with every position home |
| FirstMissing.PlaceOneLoop | quest/data-structures-and-algorithms/030-First-Missing-Positive/answer.py:133-152 | Solution5 returns the first missing positive and leaves a permutation of the input in nums |
| FirstMissing.SetScan | quest/data-structures-and-algorithms/030-First-Missing-Positive/answer.py:47-55 | Solution2 returns the first missing positive |
| FirstMissing.ClipNonPositive | quest/data-structures-and-algorithms/030-First-Missing-Positive/answer.py:73-75 | the first loop replaces every non-positive entry by n + 1 and keeps the rest |
| FirstMissing.MarkPresent | quest/data-structures-and-algorithms/030-First-Missing-Positive/answer.py:78-83 | after the second loop position k is negative exactly when k + 1 occurred, and every magnitude is kept |
| FirstMissing.FirstPositive | quest/data-structures-and-algorithms/030-First-Missing-Positive/answer.py:86-90 | the third loop returns the first i + 1 with nums[i] > 0, or n + 1 |
| FirstMissing.ClipKeepsRange | quest/data-structures-and-algorithms/030-First-Missing-Positive/answer.py:73-75 | clipping keeps which values of 1..n occur |
| FirstMissing.MarkAnswer | quest/data-structures-and-algorithms/030-First-Missing-Positive/answer.py:86-90 | after marking, the first positive position gives the answer |
| FirstMissing.Marking | quest/data-structures-and-algorithms/030-First-Missing-Positive/answer.py:69-90 | Solution3 returns the first missing positive |
| FirstMissing.SortedScan | quest/data-structures-and-algorithms/030-First-Missing-Positive/answer.py:109-119 | over an ascending list the scan returns the first missing positive |
| FirstMissing.SortThenScan | quest/data-structures-and-algorithms/030-First-Missing-Positive/answer.py:106-119 | Solution4 returns the first missing positive |
| FirstMissing.Samples | quest/data-structures-and-algorithms/030-First-Missing-Positive/answer.py:158-167 | the eight driver cases give 3, 2, 1, 2, 4, 1, 2 and 1 |
| MergeIntervals.MergeSorted | quest/data-structures-and-algorithms/036-Sorting-Merge-Intervals/answer.py:8-10 | a merge's output is sorted by start |
| MergeIntervals.InsertByStart | quest/data-structures-and-algorithms/036-Sorting-Merge-Intervals/answer.py:21 | inserting by start adds exactly that interval to the multiset |
| MergeIntervals.SortByStart | quest/data-structures-and-algorithms/036-Sorting-Merge-Intervals/answer.py:21 | the sort by start permutes the intervals |
| MergeIntervals.SortByStartSorted | quest/data-structures-and-algorithms/036-Sorting-Merge-Intervals/answer.py:21 | the sort by start leaves the intervals ascending by start |
| MergeIntervals.LexIsStartSorted | quest/data-structures-and-algorithms/036-Sorting-Merge-Intervals/answer.py:50 | a lexicographic sort is also ascending by start (also line 180) |
| MergeIntervals.PermCovered | quest/data-structures-and-algorithms/036-Sorting-Merge-Intervals/answer.py:21 | reordering the intervals changes neither the points covered nor well-formedness (also line 50) |
| MergeIntervals.CoveredAppend | quest/data-structures-and-algorithms/036-Sorting-Merge-Intervals/answer.py:35 | appending an interval adds exactly its points (also line 56) |
| MergeIntervals.AppendCover | quest/data-structures-and-algorithms/036-Sorting-Merge-Intervals/answer.py:33-35 | appending the current interval to both the input read so far and the result keeps them covering the same points |
| MergeIntervals.ExtendCover | quest/data-structures-and-algorithms/036-Sorting-Merge-Intervals/answer.py:30-32 | widening the last merged interval to max(end, current end), when current starts inside it, keeps the covered points equal |
| MergeIntervals.Greedy | quest/data-structures-and-algorithms/036-Sorting-Merge-Intervals/answer.py:23-37 | over a list sorted by start, the loop returns the merge: separated intervals covering exactly the input's points |
| MergeIntervals.Merge | quest/data-structures-and-algorithms/036-Sorting-Merge-Intervals/answer.py:16-37 | Solution returns [] for [] and the merge of any input |
| MergeIntervals.MergeLex | quest/data-structures-and-algorithms/036-Sorting-Merge-Intervals/answer.py:174-189 | Solution5 returns the merge |
| MergeIntervals.MergeFromEmpty | quest/data-structures-and-algorithms/036-Sorting-Merge-Intervals/answer.py:49-61 | Solution2 returns the merge, starting from an empty result |
| MergeIntervals.RootOf | quest/data-structures-and-algorithms/036-Sorting-Merge-Intervals/answer.py:87-90 | following parents from x reaches a root no lower than x |
| MergeIntervals.Compress | quest/data-structures-and-algorithms/036-Sorting-Merge-Intervals/answer.py:89 | pointing x straight at its root keeps a forest in which every element has the same root |
| MergeIntervals.Link | quest/data-structures-and-algorithms/036-Sorting-Merge-Intervals/answer.py:94-95 | linking root px under root py gives a forest in which px's group now has root py and no other group changes |
| MergeIntervals.UnionFind.constructor | quest/data-structures-and-algorithms/036-Sorting-Merge-Intervals/answer.py:85 | parent = list(range(n)) puts every element in its own group |
| MergeIntervals.UnionFind.Find | quest/data-structures-and-algorithms/036-Sorting-Merge-Intervals/answer.py:87-90 | find returns x's root and changes no element's root |
| MergeIntervals.UnionFind.Union | quest/data-structures-and-algorithms/036-Sorting-Merge-Intervals/answer.py:92-95 | union moves x's group into y's, so that x and y share a root, and changes no other group |
| MergeIntervals.LinkedStep | quest/data-structures-and-algorithms/036-Sorting-Merge-Intervals/answer.py:98-102 | one step of the pairs loop keeps every overlapping pair seen so far in one group |
| MergeIntervals.LinkOverlapping | quest/data-structures-and-algorithms/036-Sorting-Merge-Intervals/answer.py:98-102 | after the pairs loop every two overlapping intervals share a root |
| MergeIntervals.Group | quest/data-structures-and-algorithms/036-Sorting-Merge-Intervals/answer.py:105-108 | groups maps every root to the indices with that root, in key order |
| MergeIntervals.HullsOf | quest/data-structures-and-algorithms/036-Sorting-Merge-Intervals/answer.py:111-115 | each group gives [min start, max end] of its members |
| MergeIntervals.HullsSpan | quest/data-structures-and-algorithms/036-Sorting-Merge-Intervals/answer.py:113-115 | every interval lies inside the hull of its own group |
| MergeIntervals.HullsJoin | quest/data-structures-and-algorithms/036-Sorting-Merge-Intervals/answer.py:113-115 | overlapping intervals lie inside one hull |
| MergeIntervals.HullsFromEnds | quest/data-structures-and-algorithms/036-Sorting-Merge-Intervals/answer.py:113-115 | every hull starts at an input start and ends at an input end |
| MergeIntervals.UnionFindMerge | quest/data-structures-and-algorithms/036-Sorting-Merge-Intervals/answer.py:80-117 | Solution3 returns [] for []; otherwise a sorted list in which every input lies inside one interval, overlapping inputs share one, and every end point is an input end point |
| MergeIntervals.EventsOf | quest/data-structures-and-algorithms/036-Sorting-Merge-Intervals/answer.py:138-140 | one start event (start, 0) and one end event (end + 1, 1) per interval, in input order |
| MergeIntervals.MakeEvents | quest/data-structures-and-algorithms/036-Sorting-Merge-Intervals/answer.py:134-140 | Solution4 builds exactly those events |
| MergeIntervals.ScanEvents | quest/data-structures-and-algorithms/036-Sorting-Merge-Intervals/answer.py:144-158 | the counting scan over the sorted events returns the scan's result |
| MergeIntervals.Scan | quest/data-structures-and-algorithms/036-Sorting-Merge-Intervals/answer.py:148-158 | the sweep emits at most one interval per event (ScanFromEnds states where the bounds come from) |
| MergeIntervals.BalanceSort | quest/data-structures-and-algorithms/036-Sorting-Merge-Intervals/answer.py:142 | sorting the events keeps the number of starts minus ends |
| MergeIntervals.SweepCloses | quest/data-structures-and-algorithms/036-Sorting-Merge-Intervals/answer.py:148-156 | after the last sorted event the open count is 0 |
| MergeIntervals.SweepFromEnds | quest/data-structures-and-algorithms/036-Sorting-Merge-Intervals/answer.py:148-156 | every interval the sweep emits runs from an input start to an input end |
| MergeIntervals.SweepMerge | quest/data-structures-and-algorithms/036-Sorting-Merge-Intervals/answer.py:133-158 | Solution4 returns the scan of its sorted events |
| MergeIntervals.SweepJoinsApart | quest/data-structures-and-algorithms/036-Sorting-Merge-Intervals/answer.py:140 | on [[1, 2], [3, 4]] the sweep returns [[1, 4]], which is not the merge |
| MergeIntervals.MergeUnique | quest/data-structures-and-algorithms/036-Sorting-Merge-Intervals/answer.py:213-227 | two merges of the same input are equal, so every correct variant returns the same list |
| MergeIntervals.SampleOne | quest/data-structures-and-algorithms/036-Sorting-Merge-Intervals/answer.py:196 | [[1, 3], [2, 6], [8, 10], [15, 18]] merges to [[1, 6], [8, 10], [15, 18]] |
| MergeIntervals.SampleTouching | quest/data-structures-and-algorithms/036-Sorting-Merge-Intervals/answer.py:197 | [[1, 4], [4, 5]] merges to [[1, 5]] (also line 227) |
| MergeIntervals.SampleUnsorted | quest/data-structures-and-algorithms/036-Sorting-Merge-Intervals/answer.py:198 | [[4, 7], [1, 4]] merges to [[1, 7]] |
| MergeIntervals.SampleNested | quest/data-structures-and-algorithms/036-Sorting-Merge-Intervals/answer.py:199-200 | [[1, 4], [0, 4]] merges to [[0, 4]] and [[1, 4], [2, 3]] to [[1, 4]] |
| MergeIntervals.SampleApart | quest/data-structures-and-algorithms/036-Sorting-Merge-Intervals/answer.py:140 | [[1, 2], [3, 4]] merges to itself |
| MinAbsDifference.LeastGap | quest/data-structures-and-algorithms/034-Sorting-Minimum-Absolute-Difference/answer.py:20-23 | the least neighbour gap bounds every gap and is one of them |
| MinAbsDifference.CollectMembers | quest/data-structures-and-algorithms/034-Sorting-Minimum-Absolute-Difference/answer.py:26-29 | the second loop collects exactly the neighbour pairs d apart |
| MinAbsDifference.CollectAscending | quest/data-structures-and-algorithms/034-Sorting-Minimum-Absolute-Difference/answer.py:26-29 | on a strictly ascending list the collected pairs are ascending, each smaller first |
| MinAbsDifference.GapBound | quest/data-structures-and-algorithms/034-Sorting-Minimum-Absolute-Difference/answer.py:207 | on a strictly ascending list no two values are closer than the least neighbour gap |
| MinAbsDifference.AtLeastGapNeighbours | quest/data-structures-and-algorithms/034-Sorting-Minimum-Absolute-Difference/answer.py:207 | two values at the least gap are neighbours in the sorted list |
| MinAbsDifference.MinPairsSound | quest/data-structures-and-algorithms/034-Sorting-Minimum-Absolute-Difference/answer.py:26-29 | every listed pair is two input values, smaller first, at the least gap |
| MinAbsDifference.MinPairsComplete | quest/data-structures-and-algorithms/034-Sorting-Minimum-Absolute-Difference/answer.py:26-29 | every pair of values at the least gap is listed |
| MinAbsDifference.MinPairsMeaning | quest/data-structures-and-algorithms/034-Sorting-Minimum-Absolute-Difference/answer.py:8-10 | on a strictly ascending list of two or more values the pairs are exactly those at the least difference, no two values are closer, and there is at least one pair |
| MinAbsDifference.SortDistinct | quest/data-structures-and-algorithms/034-Sorting-Minimum-Absolute-Difference/answer.py:17 | sorting distinct values gives a strictly ascending list of the same values |
| MinAbsDifference.AnswerMeaning | quest/data-structures-and-algorithms/034-Sorting-Minimum-Absolute-Difference/answer.py:8-10 | for distinct integers the answer holds exactly the pairs a < b whose difference is the least over all pairs, and is non-empty for two or more values |
| MinAbsDifference.AnswerAscending | quest/data-structures-and-algorithms/034-Sorting-Minimum-Absolute-Difference/answer.py:8-10 | the answer is ascending, each pair smaller first |
| MinAbsDifference.LeastNeighbourGap | quest/data-structures-and-algorithms/034-Sorting-Minimum-Absolute-Difference/answer.py:20-23 | the first loop gives the least neighbour gap, or infinity when there are fewer than two values |
| MinAbsDifference.TwoPass | quest/data-structures-and-algorithms/034-Sorting-Minimum-Absolute-Difference/answer.py:15-31 | Solution returns the answer |
| MinAbsDifference.PassStep | quest/data-structures-and-algorithms/034-Sorting-Minimum-Absolute-Difference/answer.py:54-63 | one step of the one-pass loop keeps the least gap so far and exactly the neighbours at it |
| MinAbsDifference.OnePassLoop | quest/data-structures-and-algorithms/034-Sorting-Minimum-Absolute-Difference/answer.py:50-65 | the one-pass loop returns the pairs of neighbours at the least gap (also lines 139-150) |
| MinAbsDifference.OnePass | quest/data-structures-and-algorithms/034-Sorting-Minimum-Absolute-Difference/answer.py:46-65 | Solution2 returns the answer |
| MinAbsDifference.Present | quest/data-structures-and-algorithms/034-Sorting-Minimum-Absolute-Difference/answer.py:136 | reading the marks lists exactly the values marked, each within range |
| MinAbsDifference.PresentStrict | quest/data-structures-and-algorithms/034-Sorting-Minimum-Absolute-Difference/answer.py:136 | the values read from the marks are strictly ascending |
| MinAbsDifference.Mark | quest/data-structures-and-algorithms/034-Sorting-Minimum-Absolute-Difference/answer.py:131-133 | count[v - min] is set exactly for the values v of arr |
| MinAbsDifference.CountingSort | quest/data-structures-and-algorithms/034-Sorting-Minimum-Absolute-Difference/answer.py:123 | the counting sort gives a strictly ascending list of exactly arr's values (also lines 131-136) |
| MinAbsDifference.Counting | quest/data-structures-and-algorithms/034-Sorting-Minimum-Absolute-Difference/answer.py:118-150 | Solution4 returns the answer, on both sides of the 10^6 range test |
| MinAbsDifference.StepRestart | quest/data-structures-and-algorithms/034-Sorting-Minimum-Absolute-Difference/answer.py:93-95 | a first or strictly smaller difference restarts the pairs with [min, max] |
| MinAbsDifference.StepAppend | quest/data-structures-and-algorithms/034-Sorting-Minimum-Absolute-Difference/answer.py:96-97 | a difference equal to the least so far appends the pair |
| MinAbsDifference.StepSkip | quest/data-structures-and-algorithms/034-Sorting-Minimum-Absolute-Difference/answer.py:88-97 | a larger difference changes nothing |
| MinAbsDifference.SeenLeast | quest/data-structures-and-algorithms/034-Sorting-Minimum-Absolute-Difference/answer.py:88-97 | once every index pair is seen, the difference kept is the least over all pairs |
| MinAbsDifference.SeenCovers | quest/data-structures-and-algorithms/034-Sorting-Minimum-Absolute-Difference/answer.py:88-97 | once every index pair is seen, every pair of values at that difference is kept |
| MinAbsDifference.SeenAll | quest/data-structures-and-algorithms/034-Sorting-Minimum-Absolute-Difference/answer.py:88-97 | once every index pair is seen, the pairs kept are exactly those of the answer |
| MinAbsDifference.UnrepeatedLater | quest/data-structures-and-algorithms/034-Sorting-Minimum-Absolute-Difference/answer.py:89-90 | a pair kept at an earlier index pair stays accounted for as the nested loops advance |
| MinAbsDifference.PairOfInjective | quest/data-structures-and-algorithms/034-Sorting-Minimum-Absolute-Difference/answer.py:91 | on distinct values, two different index pairs a < b give different pairs [min, max] |
| MinAbsDifference.NotYetKept | quest/data-structures-and-algorithms/034-Sorting-Minimum-Absolute-Difference/answer.py:96-97 | the pair at the current index pair is not yet in pairs, so the append never repeats a pair |
| MinAbsDifference.UnrepeatedRestart | quest/data-structures-and-algorithms/034-Sorting-Minimum-Absolute-Difference/answer.py:94-95 | restarting with [[a, b]] keeps a single pair that comes from an index pair seen |
| MinAbsDifference.UnrepeatedAppend | quest/data-structures-and-algorithms/034-Sorting-Minimum-Absolute-Difference/answer.py:96-97 | appending [a, b] at an equal difference keeps every kept pair once |
| MinAbsDifference.OnceSortedStrict | quest/data-structures-and-algorithms/034-Sorting-Minimum-Absolute-Difference/answer.py:100 | a sorted list of pairs with no repeats is strictly ascending |
| MinAbsDifference.StrictTail | quest/data-structures-and-algorithms/034-Sorting-Minimum-Absolute-Difference/answer.py:100 | past its head, a strictly ascending list of pairs holds exactly its other members |
| MinAbsDifference.StrictPairsUnique | quest/data-structures-and-algorithms/034-Sorting-Minimum-Absolute-Difference/answer.py:100 | two strictly ascending lists of pairs with the same members are the same list |
| MinAbsDifference.AnswerStrict | quest/data-structures-and-algorithms/034-Sorting-Minimum-Absolute-Difference/answer.py:8-10 | the answer is strictly ascending |
| MinAbsDifference.BruteForce | quest/data-structures-and-algorithms/034-Sorting-Minimum-Absolute-Difference/answer.py:82-101 | Solution3 returns exactly the answer: the same pairs, each once, in the same order |
| MinAbsDifference.SortIs | quest/data-structures-and-algorithms/034-Sorting-Minimum-Absolute-Difference/answer.py:100 | a sorted permutation is what sorted returns |
| MinAbsDifference.Sample | quest/data-structures-and-algorithms/034-Sorting-Minimum-Absolute-Difference/answer.py:157 | [4, 2, 1, 3] gives [[1, 2], [2, 3], [3, 4]] |
| RemoveDuplicates.RunStartsMarks | quest/data-structures-and-algorithms/025-Remove-Duplicates-from-Sorted-List/answer.py:32-38 | the mask the single-pointer loop keeps (a node whose value differs from its predecessor's) is exactly the first node of every run |
| RemoveDuplicates.FirstSeenMarks | quest/data-structures-and-algorithms/025-Remove-Duplicates-from-Sorted-List/answer.py:126-137 | the mask the set loop keeps (a node whose value was not seen before) is exactly the first occurrence of every value |
| RemoveDuplicates.DedupValues | quest/data-structures-and-algorithms/025-Remove-Duplicates-from-Sorted-List/answer.py:163-186 | the deduplicated values hold every input value and nothing else |
| RemoveDuplicates.DedupIncreasing | quest/data-structures-and-algorithms/025-Remove-Duplicates-from-Sorted-List/answer.py:163-186 | on sorted values the deduplicated values are strictly increasing |
| RemoveDuplicates.RunStartsDedup | quest/data-structures-and-algorithms/025-Remove-Duplicates-from-Sorted-List/answer.py:32-38 | keeping the first node of every run leaves the deduplicated values (also lines 94-102) |
| RemoveDuplicates.RunEndsDedup | quest/data-structures-and-algorithms/025-Remove-Duplicates-from-Sorted-List/answer.py:64-70 | keeping the last node of every run leaves the same values |
| RemoveDuplicates.FirstSeenRunStarts | quest/data-structures-and-algorithms/025-Remove-Duplicates-from-Sorted-List/answer.py:130-137 | on sorted values a value was seen before exactly when it equals its predecessor |
| RemoveDuplicates.FirstSeenDedup | quest/data-structures-and-algorithms/025-Remove-Duplicates-from-Sorted-List/answer.py:130-137 | on sorted values keeping each value's first occurrence leaves the deduplicated values |
| RemoveDuplicates.SampleOne | quest/data-structures-and-algorithms/025-Remove-Duplicates-from-Sorted-List/answer.py:163-166 | [1, 1, 2] gives [1, 2] |
| RemoveDuplicates.SampleTwo | quest/data-structures-and-algorithms/025-Remove-Duplicates-from-Sorted-List/answer.py:168-171 | [1, 1, 2, 3, 3] gives [1, 2, 3] |
| RemoveDuplicates.SampleThree | quest/data-structures-and-algorithms/025-Remove-Duplicates-from-Sorted-List/answer.py:178-181 | [1, 1, 1] gives [1] |
| RemoveDuplicates.SampleFour | quest/data-structures-and-algorithms/025-Remove-Duplicates-from-Sorted-List/answer.py:183-186 | [1, 2, 3] stays |
| RemoveDuplicates.ShortKept | quest/data-structures-and-algorithms/025-Remove-Duplicates-from-Sorted-List/answer.py:26-27 | lists of at most one node are returned whole (also lines 88-89) |
| RemoveDuplicates.KeepStep | quest/data-structures-and-algorithms/025-Remove-Duplicates-from-Sorted-List/answer.py:36-38 | moving to a successor with a new value keeps the chain of kept nodes leading to the rest of the list (also lines 98-100) |
| RemoveDuplicates.DropStep | quest/data-structures-and-algorithms/025-Remove-Duplicates-from-Sorted-List/answer.py:33-35 | unlinking a successor with the same value keeps the kept nodes chained and points the last of them past it (also lines 95-97) |
| RemoveDuplicates.RunStep | quest/data-structures-and-algorithms/025-Remove-Duplicates-from-Sorted-List/answer.py:32-38 | one turn of the single-pointer or trailing-pointer loop extends the kept chain by exactly the nodes the run-start mask keeps (also lines 94-102) |
| RemoveDuplicates.SkipNext | quest/data-structures-and-algorithms/025-Remove-Duplicates-from-Sorted-List/answer.py:24-40 | Solution returns head, now linking exactly the first node of every run |
| RemoveDuplicates.TrailingPointer | quest/data-structures-and-algorithms/025-Remove-Duplicates-from-Sorted-List/answer.py:87-104 | Solution3 returns head, now linking exactly the first node of every run |
| RemoveDuplicates.SeenStep | quest/data-structures-and-algorithms/025-Remove-Duplicates-from-Sorted-List/answer.py:130-137 | one turn of the set loop extends the kept chain by exactly the nodes whose value was not seen, and seen becomes the values so far |
| RemoveDuplicates.SeenSet | quest/data-structures-and-algorithms/025-Remove-Duplicates-from-Sorted-List/answer.py:122-139 | Solution4 returns head, now linking exactly the first occurrence of every value |
| RemoveDuplicates.EarlierStep | quest/data-structures-and-algorithms/025-Remove-Duplicates-from-Sorted-List/answer.py:136 | the values seen before j + 1 are those before j and value j |
| RemoveDuplicates.RecursiveFrom | quest/data-structures-and-algorithms/025-Remove-Duplicates-from-Sorted-List/answer.py:58-70 | the recursion on the list from lo leaves nodes before lo untouched and returns a chain of the last node of every run from lo on, starting with value lo |
| RemoveDuplicates.Recursive | quest/data-structures-and-algorithms/025-Remove-Duplicates-from-Sorted-List/answer.py:58-70 | Solution2 returns a chain of the last node of every run |
| RemoveDuplicates.FirstOfRunValues | quest/data-structures-and-algorithms/025-Remove-Duplicates-from-Sorted-List/answer.py:24-40 | the first-of-run variants leave the deduplicated values (also lines 87-104) |
| RemoveDuplicates.LastOfRunValues | quest/data-structures-and-algorithms/025-Remove-Duplicates-from-Sorted-List/answer.py:58-70 | the recursion keeps other nodes but leaves the same values |
| RemoveDuplicates.SeenSetSorted | quest/data-structures-and-algorithms/025-Remove-Duplicates-from-Sorted-List/answer.py:122-139 | on a sorted list the set variant keeps exactly the first-of-run nodes |
| Histogram.MinInBounds | library/0084-Largest-Rectangle-in-Histogram/answer.py:60-62 | the running minimum of a run bounds every bar in it and is one of them |
| Histogram.LargestUnique | library/0084-Largest-Rectangle-in-Histogram/answer.py:1-156 | there is one largest area, so all variants that meet it agree |
| Histogram.Reach | library/0084-Largest-Rectangle-in-Histogram/answer.py:83-84 | walking left from l over bars at least x stops at the start or just after a lower bar (also lines 110-111) |
| Histogram.ReachRight | library/0084-Largest-Rectangle-in-Histogram/answer.py:87-88 | walking right from r over bars at least x stops at the end or at a lower bar (also lines 118-119) |
| Histogram.ReachSkip | library/0084-Largest-Rectangle-in-Histogram/answer.py:110-111 | jumping left over bars at least x reaches the same stopping point as walking |
| Histogram.ReachRightSkip | library/0084-Largest-Rectangle-in-Histogram/answer.py:118-119 | jumping right over bars at least x reaches the same stopping point as walking |
| Histogram.BestSpanBounds | library/0084-Largest-Rectangle-in-Histogram/answer.py:90-91 | the best of every bar stretched over its span bounds each of them and is one of them, or 0 (also lines 125-126) |
| Histogram.AreaBelowBestSpan | library/0084-Largest-Rectangle-in-Histogram/answer.py:90-91 | every rectangle is at most its lowest bar stretched over that bar's span |
| Histogram.SpanIsArea | library/0084-Largest-Rectangle-in-Histogram/answer.py:90-91 | every bar stretched over its span is a rectangle |
| Histogram.LargestIsBestSpan | library/0084-Largest-Rectangle-in-Histogram/answer.py:90-93 | the largest rectangle is the best stretched bar (also lines 123-128) |
| Histogram.BruteForce | library/0084-Largest-Rectangle-in-Histogram/answer.py:48-66 | method3 returns the largest rectangle (0 for no bars) |
| Histogram.Expand | library/0084-Largest-Rectangle-in-Histogram/answer.py:68-93 | method4 returns the largest rectangle |
| Histogram.NearestLowerLeft | library/0084-Largest-Rectangle-in-Histogram/answer.py:109-112 | following left[] from i - 1 stops at the nearest bar left of i lower than heights[i], or -1 |
| Histogram.NearestLowerRight | library/0084-Largest-Rectangle-in-Histogram/answer.py:117-120 | following right[] from i + 1 stops at the nearest bar right of i lower than heights[i], or n |
| Histogram.LeftBounds | library/0084-Largest-Rectangle-in-Histogram/answer.py:103-112 | left[i] is the nearest lower bar left of i, or -1 |
| Histogram.RightBounds | library/0084-Largest-Rectangle-in-Histogram/answer.py:104 | right[i] is the nearest lower bar right of i, or n (also lines 115-120) |
| Histogram.Boundaries | library/0084-Largest-Rectangle-in-Histogram/answer.py:95-128 | method5 returns the largest rectangle |
| Histogram.DivideArea | library/0084-Largest-Rectangle-in-Histogram/answer.py:148-152 | a rectangle over [start, end] either holds the lowest bar, and is at most it times the width, or lies wholly on one side |
| Histogram.DivideLargest | library/0084-Largest-Rectangle-in-Histogram/answer.py:148-152 | the largest of the three candidates is the largest rectangle over [start, end] |
| Histogram.CalculateArea | library/0084-Largest-Rectangle-in-Histogram/answer.py:134-152 | calculate_area returns the largest rectangle over [start, end], and 0 when start > end |
| Histogram.DivideAndConquer | library/0084-Largest-Rectangle-in-Histogram/answer.py:130-156 | method6 returns the largest rectangle |
| Histogram.StackPop | library/0084-Largest-Rectangle-in-Histogram/answer.py:38-39 | popping keeps the stack's bars ascending with higher bars between them |
| Histogram.StackPush | library/0084-Largest-Rectangle-in-Histogram/answer.py:44 | pushing bar i once nothing higher is on top keeps that shape |
| Histogram.PopRun | library/0084-Largest-Rectangle-in-Histogram/answer.py:39-42 | the popped bar's rectangle runs from just after the new top to just before i, at its own height, and that is its whole span when the new top is lower |
| Histogram.SameWidth | library/0084-Largest-Rectangle-in-Histogram/answer.py:38-43 | a bar of the same height further right, with nothing lower between, has the same span |
| Histogram.PopHigher | library/0084-Largest-Rectangle-in-Histogram/answer.py:38-44 | the while loop at bar i pops every higher bar, and afterwards every bar popped so far has been scored over its span and max_area is a rectangle |
| Histogram.LargestSentinel | library/0084-Largest-Rectangle-in-Histogram/answer.py:34 | the appended 0 adds no larger rectangle when no bar is negative |
| Histogram.OnePassDone | library/0084-Largest-Rectangle-in-Histogram/answer.py:34-46 | after the sentinel every bar has been scored, so max_area is the largest rectangle |
| Histogram.OnePass | library/0084-Largest-Rectangle-in-Histogram/answer.py:28-46 | method2 returns the largest rectangle |
| Histogram.PopFirst | library/0084-Largest-Rectangle-in-Histogram/answer.py:10-14 | the first loop's while at i records every popped bar's rightward run in result1 and keeps the rest 0 |
| Histogram.RecordPopped | library/0084-Largest-Rectangle-in-Histogram/answer.py:11-13 | recording the popped top keeps result1 holding exactly the rightward runs of the bars popped so far |
| Histogram.FirstPass | library/0084-Largest-Rectangle-in-Histogram/answer.py:6-14 | the first loop leaves result1[k] the area of bar k stretched right to the first lower bar, and a stack with the sentinel on top |
| Histogram.RecordedPop | library/0084-Largest-Rectangle-in-Histogram/answer.py:20-22 | recording bar m stretched left down to the first lower bar |
| Histogram.PopOne | library/0084-Largest-Rectangle-in-Histogram/answer.py:19-22 | one turn of the second loop's while pops the top and records it, keeping the loop's state |
| Histogram.PopSecond | library/0084-Largest-Rectangle-in-Histogram/answer.py:19-23 | the second loop's while at i pops every higher bar, including those the first loop left, and then pushes i |
| Histogram.SecondPass | library/0084-Largest-Rectangle-in-Histogram/answer.py:16-23 | starting from the stack the first loop left, the second loop leaves result2[k] the area of bar k stretched left to the first lower bar |
| Histogram.SecondDone | library/0084-Largest-Rectangle-in-Histogram/answer.py:18-23 | once bar 0 is pushed every bar has been recorded |
| Histogram.MaxOf | library/0084-Largest-Rectangle-in-Histogram/answer.py:26 | max over a non-empty list bounds every element and is one of them |
| Histogram.TwoPassTerm | library/0084-Largest-Rectangle-in-Histogram/answer.py:25 | result1[k] + result2[k] - heights[k] is bar k stretched over its whole span |
| Histogram.MaxOfStretched | library/0084-Largest-Rectangle-in-Histogram/answer.py:25-26 | the largest of those terms is the best stretched bar |
| Histogram.TwoPass | library/0084-Largest-Rectangle-in-Histogram/answer.py:1-26 | largestRectangleArea returns the largest rectangle |
| LinkedList.RevAppend | quest/data-structures-and-algorithms/015-Implement-Queue-using-Stacks/answer.py:20-26 | reversing a concatenation reverses each part and swaps them, which is why moving stack1 onto stack2 turns back-on-top into front-on-top |
| LinkedList.RevSnoc | quest/data-structures-and-algorithms/015-Implement-Queue-using-Stacks/answer.py:20-26 | pushing x onto a stack puts x first in the stack read top-down |
| StackQueue.Drain | quest/data-structures-and-algorithms/015-Implement-Queue-using-Stacks/answer.py:22-24 | popping every element of src onto dst leaves src empty and dst extended by src read top-down |
| StackQueue.MyQueue.constructor | quest/data-structures-and-algorithms/015-Implement-Queue-using-Stacks/answer.py:12-14 | the new queue is empty |
| StackQueue.MyQueue.Push | quest/data-structures-and-algorithms/015-Implement-Queue-using-Stacks/answer.py:17-18 | x joins the back of the queue; stack2 is untouched |
| StackQueue.MyQueue.Refill | quest/data-structures-and-algorithms/015-Implement-Queue-using-Stacks/answer.py:22-24 | moving stack1 onto an empty stack2 leaves the queue unchanged, and stack2 is non-empty exactly when stack1 was |
| StackQueue.MyQueue.Pop | quest/data-structures-and-algorithms/015-Implement-Queue-using-Stacks/answer.py:20-26 | returns the front and removes it from the queue; on an empty queue it returns None (IndexError) and the queue stays empty |
| StackQueue.MyQueue.Peek | quest/data-structures-and-algorithms/015-Implement-Queue-using-Stacks/answer.py:28-34 | returns the front and leaves the queue unchanged; None on an empty queue |
| StackQueue.MyQueue.Empty | quest/data-structures-and-algorithms/015-Implement-Queue-using-Stacks/answer.py:36-37 | true exactly when the queue holds nothing |
| StackQueue.MyQueue2.constructor | quest/data-structures-and-algorithms/015-Implement-Queue-using-Stacks/answer.py:50-53 | the new queue is empty and the helper stack is empty |
| StackQueue.MyQueue2.Push | quest/data-structures-and-algorithms/015-Implement-Queue-using-Stacks/answer.py:55-63 | x joins the back of the queue: it ends at the bottom of stack1, and the helper stack is empty again |
| StackQueue.MyQueue2.Pop | quest/data-structures-and-algorithms/015-Implement-Queue-using-Stacks/answer.py:65-66 | returns the front and removes it; None on an empty queue |
| StackQueue.MyQueue2.Peek | quest/data-structures-and-algorithms/015-Implement-Queue-using-Stacks/answer.py:68-69 | returns the front; None on an empty queue |
| StackQueue.MyQueue2.Empty | quest/data-structures-and-algorithms/015-Implement-Queue-using-Stacks/answer.py:71-72 | true exactly when the queue holds nothing |
| StackQueue.MyQueue3.constructor | quest/data-structures-and-algorithms/015-Implement-Queue-using-Stacks/answer.py:86-88 | the new queue is empty |
| StackQueue.MyQueue3.Push | quest/data-structures-and-algorithms/015-Implement-Queue-using-Stacks/answer.py:90-97 | the recursive push puts x at the bottom of the stack, so x joins the back of the queue |
| StackQueue.MyQueue3.Pop | quest/data-structures-and-algorithms/015-Implement-Queue-using-Stacks/answer.py:99-100 | returns the front and removes it; None on an empty queue |
| StackQueue.MyQueue3.Peek | quest/data-structures-and-algorithms/015-Implement-Queue-using-Stacks/answer.py:102-103 | returns the front; None on an empty queue |
| StackQueue.MyQueue3.Empty | quest/data-structures-and-algorithms/015-Implement-Queue-using-Stacks/answer.py:105-106 | true exactly when the queue holds nothing |
| StackQueue.MyQueue4.constructor | quest/data-structures-and-algorithms/015-Implement-Queue-using-Stacks/answer.py:119-123 | the new queue is empty and no front is cached |
| StackQueue.MyQueue4.Push | quest/data-structures-and-algorithms/015-Implement-Queue-using-Stacks/answer.py:125-128 | x joins the back of the queue, and the cached front is the bottom of stack1 whenever stack1 is non-empty |
| StackQueue.MyQueue4.Refill | quest/data-structures-and-algorithms/015-Implement-Queue-using-Stacks/answer.py:131-133 | moving stack1 onto an empty stack2 keeps the queue and the cached front |
| StackQueue.MyQueue4.Pop | quest/data-structures-and-algorithms/015-Implement-Queue-using-Stacks/answer.py:130-134 | returns the front and removes it; None on an empty queue; the cached front is never updated by pop |
| StackQueue.MyQueue4.Peek | quest/data-structures-and-algorithms/015-Implement-Queue-using-Stacks/answer.py:136-139 | on a non-empty queue returns its front; on an empty queue returns whatever front last held |
| StackQueue.MyQueue4.Empty | quest/data-structures-and-algorithms/015-Implement-Queue-using-Stacks/answer.py:141-142 | true exactly when the queue holds nothing |
| StackQueue.StalePeek | quest/data-structures-and-algorithms/015-Implement-Queue-using-Stacks/answer.py:136-139 | push 1, pop, then peek on the now empty queue returns 1, the stale cached front, where the other variants raise IndexError |
| RandomizedSets.Elems | quest/system-and-software-design/006-Data-Structure-Design-Insert-Delete-GetRandom-O-of-1/answer.py:18-22 | the set of the list's values: v is in it exactly when v occurs in the list |
| RandomizedSets.SwapRemove | quest/system-and-software-design/006-Data-Structure-Design-Insert-Delete-GetRandom-O-of-1/answer.py:48-53 | the last value fills slot i, every other slot keeps its value, and the list is one shorter |
| RandomizedSets.SwapRemoveElems | quest/system-and-software-design/006-Data-Structure-Design-Insert-Delete-GetRandom-O-of-1/answer.py:37-55 | on a list without repeats, the swap removal removes exactly the value at slot i and leaves no repeats |
| RandomizedSets.RemoveFirst | quest/system-and-software-design/006-Data-Structure-Design-Insert-Delete-GetRandom-O-of-1/answer.py:130-135 | list.remove drops one element |
| RandomizedSets.RemoveFirstElems | quest/system-and-software-design/006-Data-Structure-Design-Insert-Delete-GetRandom-O-of-1/answer.py:130-135 | on a list without repeats, list.remove(v) removes exactly v and leaves no repeats |
| RandomizedSets.RandomizedSet.ValidDistinct | quest/system-and-software-design/006-Data-Structure-Design-Insert-Delete-GetRandom-O-of-1/answer.py:18-22 | when the map and the list agree, the list holds each value once and the map's keys are exactly the set's values |
| RandomizedSets.RandomizedSet.constructor | quest/system-and-software-design/006-Data-Structure-Design-Insert-Delete-GetRandom-O-of-1/answer.py:20-22 | the new set is empty, with an empty map and list |
| RandomizedSets.RandomizedSet.Insert | quest/system-and-software-design/006-Data-Structure-Design-Insert-Delete-GetRandom-O-of-1/answer.py:25-34 | returns true exactly when val was absent; the set gains val; val is appended and indexed at the last slot; the map and list stay consistent |
| RandomizedSets.RandomizedSet.Remove | quest/system-and-software-design/006-Data-Structure-Design-Insert-Delete-GetRandom-O-of-1/answer.py:37-55 | returns true exactly when val was present; the set loses val; its slot is filled by the last value; the map and list stay consistent |
| RandomizedSets.SetOnly.constructor | quest/system-and-software-design/006-Data-Structure-Design-Insert-Delete-GetRandom-O-of-1/answer.py:82-83 | the new set is empty |
| RandomizedSets.SetOnly.Insert | quest/system-and-software-design/006-Data-Structure-Design-Insert-Delete-GetRandom-O-of-1/answer.py:85-89 | returns true exactly when val was absent; the set gains val |
| RandomizedSets.SetOnly.Remove | quest/system-and-software-design/006-Data-Structure-Design-Insert-Delete-GetRandom-O-of-1/answer.py:91-95 | returns true exactly when val was present; the set loses val |
| RandomizedSets.ListOnly.constructor | quest/system-and-software-design/006-Data-Structure-Design-Insert-Delete-GetRandom-O-of-1/answer.py:120-121 | the new set is empty |
| RandomizedSets.ListOnly.Insert | quest/system-and-software-design/006-Data-Structure-Design-Insert-Delete-GetRandom-O-of-1/answer.py:123-128 | returns true exactly when val was absent; val is appended; the list keeps no repeats |
| RandomizedSets.ListOnly.Remove | quest/system-and-software-design/006-Data-Structure-Design-Insert-Delete-GetRandom-O-of-1/answer.py:130-135 | returns true exactly when val was present; list.remove drops exactly val; the list keeps no repeats; a missing val leaves the list unchanged |
| RandomizedSets.Sample | quest/system-and-software-design/006-Data-Structure-Design-Insert-Delete-GetRandom-O-of-1/answer.py:182-190 | the driver's insert(1), remove(2), insert(2), remove(1), insert(2) answer true, false, true, true, false |
| LinkedList.RevMultiset | quest/system-and-software-design/003-Data-Stream-Processing-Kth-Largest-Element-in-a-Stream/answer.py:53 | reversing a list keeps its elements |
| KthLargestStream.RevOrder | quest/system-and-software-design/003-Data-Stream-Processing-Kth-Largest-Element-in-a-Stream/answer.py:53 | a list is ascending exactly when its reverse is descending |
| KthLargestStream.SortDesc | quest/system-and-software-design/003-Data-Stream-Processing-Kth-Largest-Element-in-a-Stream/answer.py:53 | sort(reverse=True) gives a descending permutation of the list |
| KthLargestStream.DescUnique | quest/system-and-software-design/003-Data-Stream-Processing-Kth-Largest-Element-in-a-Stream/answer.py:53 | two descending lists with the same elements are equal, so every descending sort of the values gives the same list |
| KthLargestStream.Kth | quest/system-and-software-design/003-Data-Stream-Processing-Kth-Largest-Element-in-a-Stream/answer.py:30-34 | the answer to add is one of the values recorded |
| KthLargestStream.DescFirst | quest/system-and-software-design/003-Data-Stream-Processing-Kth-Largest-Element-in-a-Stream/answer.py:53 | the first value of a descending list is the maximum of its elements |
| KthLargestStream.DescLast | quest/system-and-software-design/003-Data-Stream-Processing-Kth-Largest-Element-in-a-Stream/answer.py:53 | the last value of a descending list is the minimum of its elements |
| KthLargestStream.KthFirstIsMax | quest/system-and-software-design/003-Data-Stream-Processing-Kth-Largest-Element-in-a-Stream/answer.py:30-34 | with k = 1 the answer is the largest value recorded |
| KthLargestStream.KthBeyondIsMin | quest/system-and-software-design/003-Data-Stream-Processing-Kth-Largest-Element-in-a-Stream/answer.py:99-101 | while at most k values are recorded the answer is the smallest of them |
| KthLargestStream.KthPerm | quest/system-and-software-design/003-Data-Stream-Processing-Kth-Largest-Element-in-a-Stream/answer.py:30-34 | the answer depends only on which values were recorded, not on their order |
| KthLargestStream.InsortSuffix | quest/system-and-software-design/003-Data-Stream-Processing-Kth-Largest-Element-in-a-Stream/answer.py:31-33 | inserting into an ascending list then dropping j + 1 values equals inserting into its last values then dropping one |
| KthLargestStream.SortSnoc | quest/system-and-software-design/003-Data-Stream-Processing-Kth-Largest-Element-in-a-Stream/answer.py:31 | sorting the values with one more is inserting it into the sorted values |
| KthLargestStream.TopAdd | quest/system-and-software-design/003-Data-Stream-Processing-Kth-Largest-Element-in-a-Stream/answer.py:31-33 | heappush onto the k largest values, then heappop when more than k remain, gives the k largest values with v recorded |
| KthLargestStream.TopFirst | quest/system-and-software-design/003-Data-Stream-Processing-Kth-Largest-Element-in-a-Stream/answer.py:34 | the heap's top min_heap[0] is the answer |
| KthLargestStream.Offer | quest/system-and-software-design/003-Data-Stream-Processing-Kth-Largest-Element-in-a-Stream/answer.py:31-33 | the push-then-trim step turns the heap of the values seen into the heap of the values seen plus val |
| KthLargestStream.Build | quest/system-and-software-design/003-Data-Stream-Processing-Kth-Largest-Element-in-a-Stream/answer.py:24-28 | the constructor's loop leaves the heap of the k largest of nums |
| KthLargestStream.KthLargest.constructor | quest/system-and-software-design/003-Data-Stream-Processing-Kth-Largest-Element-in-a-Stream/answer.py:19-28 | the heap holds the k largest values of nums |
| KthLargestStream.KthLargest.Add | quest/system-and-software-design/003-Data-Stream-Processing-Kth-Largest-Element-in-a-Stream/answer.py:30-34 | val is recorded and the result is the k-th largest value recorded, or the smallest while fewer than k |
| KthLargestStream.SortingKth.constructor | quest/system-and-software-design/003-Data-Stream-Processing-Kth-Largest-Element-in-a-Stream/answer.py:47-49 | the list starts as nums |
| KthLargestStream.SortingKth.Add | quest/system-and-software-design/003-Data-Stream-Processing-Kth-Largest-Element-in-a-Stream/answer.py:51-54 | the list becomes every value so far in descending order; the result is the k-th largest, the same answer as KthLargest.Add, or None (IndexError) while fewer than k are held |
| KthLargestStream.FirstAtMost | quest/system-and-software-design/003-Data-Stream-Processing-Kth-Largest-Element-in-a-Stream/answer.py:74 | bisect_left on the negated list: every value before the position is above v and every value from it on is not |
| KthLargestStream.InsertDescending | quest/system-and-software-design/003-Data-Stream-Processing-Kth-Largest-Element-in-a-Stream/answer.py:75 | inserting v at that position keeps the list descending and adds exactly v |
| KthLargestStream.BisectStep | quest/system-and-software-design/003-Data-Stream-Processing-Kth-Largest-Element-in-a-Stream/answer.py:74-75 | the insertion gives the descending sort of the list with v |
| KthLargestStream.BisectKth.constructor | quest/system-and-software-design/003-Data-Stream-Processing-Kth-Largest-Element-in-a-Stream/answer.py:67-69 | the list starts as nums in descending order |
| KthLargestStream.BisectKth.Add | quest/system-and-software-design/003-Data-Stream-Processing-Kth-Largest-Element-in-a-Stream/answer.py:71-76 | the list stays descending and gains val; the result is the k-th largest, or None (IndexError) while fewer than k are held |
| LinkedList.RevPrefix | quest/system-and-software-design/003-Data-Stream-Processing-Kth-Largest-Element-in-a-Stream/answer.py:97 | a prefix of a reversed list is the reverse of the matching suffix |
| KthLargestStream.DescTop | quest/system-and-software-design/003-Data-Stream-Processing-Kth-Largest-Element-in-a-Stream/answer.py:92 | the first k values of the descending sort are the k largest values |
| KthLargestStream.TopKStep | quest/system-and-software-design/003-Data-Stream-Processing-Kth-Largest-Element-in-a-Stream/answer.py:95-97 | re-sorting the k largest values with v and cutting to k gives the k largest values with v recorded |
| KthLargestStream.TopKKth.constructor | quest/system-and-software-design/003-Data-Stream-Processing-Kth-Largest-Element-in-a-Stream/answer.py:89-92 | the list holds the k largest values of nums, in descending order |
| KthLargestStream.TopKKth.Add | quest/system-and-software-design/003-Data-Stream-Processing-Kth-Largest-Element-in-a-Stream/answer.py:94-102 | the list keeps the k largest values recorded; the result is the k-th largest, or the smallest while fewer than k, the same answer as KthLargest.Add |
| StreamOfCharacters.MaxLen | quest/system-and-software-design/004-Data-Stream-Processing-Stream-of-Characters/answer.py:81 | the longest word's length: at least every word's length and, for a non-empty list, equal to one of them |
| StreamOfCharacters.InsertWord | quest/system-and-software-design/004-Data-Stream-Processing-Stream-of-Characters/answer.py:166-173 | inserting one word, walking down and adding missing children, leaves the trie of the old keys plus that word |
| StreamOfCharacters.BuildTrie | quest/system-and-software-design/004-Data-Stream-Processing-Stream-of-Characters/answer.py:116-123 | the constructor loop builds the trie of exactly the given words |
| StreamOfCharacters.BuildReversed | quest/system-and-software-design/004-Data-Stream-Processing-Stream-of-Characters/answer.py:25-37 | the constructor loop builds the trie of the reversed words and max_len equal to the longest word's length |
| StreamOfCharacters.RevAllRevAll | quest/system-and-software-design/004-Data-Stream-Processing-Stream-of-Characters/answer.py:33 | reversing each word twice gives back the word set |
| StreamOfCharacters.RevMember | quest/system-and-software-design/004-Data-Stream-Processing-Stream-of-Characters/answer.py:33 | a string is in the reversed-word trie exactly when its reverse is a word |
| StreamOfCharacters.Window | quest/system-and-software-design/004-Data-Stream-Processing-Stream-of-Characters/answer.py:180-185 | the list kept by StreamChecker4 holds the newest max_len letters, a suffix of the stream |
| StreamOfCharacters.NewestFirst | quest/system-and-software-design/004-Data-Stream-Processing-Stream-of-Characters/answer.py:39-45 | the deque kept by StreamChecker holds the newest max_len letters, newest at index 0 |
| StreamOfCharacters.WindowSnoc | quest/system-and-software-design/004-Data-Stream-Processing-Stream-of-Characters/answer.py:180-185 | append then pop(0) beyond max_len keeps exactly the newest max_len letters |
| StreamOfCharacters.NewestFirstSnoc | quest/system-and-software-design/004-Data-Stream-Processing-Stream-of-Characters/answer.py:39-45 | appendleft then pop beyond max_len keeps exactly the newest max_len letters, newest first |
| StreamOfCharacters.NotNodeNotKey | quest/system-and-software-design/004-Data-Stream-Processing-Stream-of-Characters/answer.py:52-53 | a string whose prefix has no trie node is not a key, so stopping the walk there loses no match |
| StreamOfCharacters.WalkForward | quest/system-and-software-design/004-Data-Stream-Processing-Stream-of-Characters/answer.py:47-56 | the walk from the root over the letters returns True exactly when some prefix of the letters is a key |
| StreamOfCharacters.ForwardOne | quest/system-and-software-design/004-Data-Stream-Processing-Stream-of-Characters/answer.py:47-56 | the first j newest-first letters are a reversed word exactly when the last j letters form a word |
| StreamOfCharacters.ForwardMeansSuffix | quest/system-and-software-design/004-Data-Stream-Processing-Stream-of-Characters/answer.py:39-56 | with every word at most max_len long, a key prefix of the kept letters exists exactly when some word ends the stream |
| StreamOfCharacters.StreamChecker.Query | quest/system-and-software-design/004-Data-Stream-Processing-Stream-of-Characters/answer.py:39-56 | query keeps the invariant and returns True exactly when some word (the empty word included) is a suffix of everything queried so far |
| StreamOfCharacters.StreamChecker.constructor | quest/system-and-software-design/004-Data-Stream-Processing-Stream-of-Characters/answer.py:23-37 | the reversed-word trie is built: the checker holds exactly the given words, no letters yet, and its invariant |
| StreamOfCharacters.StreamChecker2.constructor | quest/system-and-software-design/004-Data-Stream-Processing-Stream-of-Characters/answer.py:78-81 | the set holds exactly the given words and the stream is empty; at least one word is required, since max over no words raises |
| StreamOfCharacters.StreamChecker2.Query | quest/system-and-software-design/004-Data-Stream-Processing-Stream-of-Characters/answer.py:83-94 | query appends the letter and returns True exactly when a non-empty word is a suffix of the stream |
| StreamOfCharacters.Advance | quest/system-and-software-design/004-Data-Stream-Processing-Stream-of-Characters/answer.py:134-142 | the loop keeps exactly the starts that have a child for the letter, advanced, and reports whether one of them is marked |
| StreamOfCharacters.PrefixNode | quest/system-and-software-design/004-Data-Stream-Processing-Stream-of-Characters/answer.py:116-123 | every prefix of a trie node is a trie node |
| StreamOfCharacters.SuffixSnoc | quest/system-and-software-design/004-Data-Stream-Processing-Stream-of-Characters/answer.py:128-144 | a suffix of the longer stream is a suffix of the shorter one, or empty, followed by the new letter |
| StreamOfCharacters.AliveFromStart | quest/system-and-software-design/004-Data-Stream-Processing-Stream-of-Characters/answer.py:128-144 | each partial match of the longer stream comes from an old partial match or the root, advanced by the letter |
| StreamOfCharacters.StartToAlive | quest/system-and-software-design/004-Data-Stream-Processing-Stream-of-Characters/answer.py:128-144 | each old partial match or the root, advanced to a node by the letter, is a partial match of the longer stream |
| StreamOfCharacters.StepMatches | quest/system-and-software-design/004-Data-Stream-Processing-Stream-of-Characters/answer.py:128-144 | one query turns the partial matches of the stream into those of the longer stream, and finds a mark exactly when a non-empty word ends it |
| StreamOfCharacters.StepMarked | quest/system-and-software-design/004-Data-Stream-Processing-Stream-of-Characters/answer.py:137-139 | a marked node among the advanced matches exists exactly when a non-empty word ends the stream |
| StreamOfCharacters.MarkedToSuffix | quest/system-and-software-design/004-Data-Stream-Processing-Stream-of-Characters/answer.py:137-139 | a marked partial match is a non-empty word that ends the stream |
| StreamOfCharacters.WordAlive | quest/system-and-software-design/004-Data-Stream-Processing-Stream-of-Characters/answer.py:137-139 | a non-empty word ending the stream is a marked partial match |
| StreamOfCharacters.StreamChecker3.Query | quest/system-and-software-design/004-Data-Stream-Processing-Stream-of-Characters/answer.py:128-144 | query keeps active_nodes equal to the partial matches of the stream and returns True exactly when a non-empty word ends the stream |
| StreamOfCharacters.StreamChecker3.constructor | quest/system-and-software-design/004-Data-Stream-Processing-Stream-of-Characters/answer.py:114-126 | the forward trie is built: the checker holds exactly the given words, no letters and no active nodes |
| StreamOfCharacters.RevStep | quest/system-and-software-design/004-Data-Stream-Processing-Stream-of-Characters/answer.py:188-190 | walking one letter further back appends that letter to the spelled string |
| StreamOfCharacters.RevSuffixPrefix | quest/system-and-software-design/004-Data-Stream-Processing-Stream-of-Characters/answer.py:194-195 | the string spelled by a shorter backward walk is a prefix of a longer one, so stopping at a missing child loses no match |
| StreamOfCharacters.WalkBackward | quest/system-and-software-design/004-Data-Stream-Processing-Stream-of-Characters/answer.py:187-197 | the walk from the newest letter back returns True exactly when the reverse of some non-empty suffix of the letters is a key |
| StreamOfCharacters.SuffixOfSuffix | quest/system-and-software-design/004-Data-Stream-Processing-Stream-of-Characters/answer.py:187-197 | a suffix of the kept letters is a suffix of the stream |
| StreamOfCharacters.SuffixWithin | quest/system-and-software-design/004-Data-Stream-Processing-Stream-of-Characters/answer.py:187-197 | a suffix of the stream no longer than the kept letters ends them |
| StreamOfCharacters.BackwardFromSuffix | quest/system-and-software-design/004-Data-Stream-Processing-Stream-of-Characters/answer.py:187-197 | a non-empty reversed key ending the stream is found among the kept letters |
| StreamOfCharacters.BackwardMeansSuffix | quest/system-and-software-design/004-Data-Stream-Processing-Stream-of-Characters/answer.py:187-197 | the backward walk over a trie of keys finds a key exactly when a non-empty reversed key ends the stream |
| StreamOfCharacters.WalkWords | quest/system-and-software-design/004-Data-Stream-Processing-Stream-of-Characters/answer.py:187-197 | over the forward trie of the words, the walk returns True exactly when a non-empty reversed word ends the stream |
| StreamOfCharacters.StreamChecker4.Query | quest/system-and-software-design/004-Data-Stream-Processing-Stream-of-Characters/answer.py:180-197 | query keeps the newest max_len letters and returns True exactly when a non-empty word read backwards ends the stream |
| StreamOfCharacters.StreamChecker4.constructor | quest/system-and-software-design/004-Data-Stream-Processing-Stream-of-Characters/answer.py:164-178 | the forward trie is built: the checker holds exactly the given words and no letters; at least one word is required, since max over no words raises |
| StreamOfCharacters.OnlyReversedCd | quest/system-and-software-design/004-Data-Stream-Processing-Stream-of-Characters/answer.py:163-197 | over the words ["cd"] the only reversed word "dc" does not end the stream "cd" |
| StreamOfCharacters.Checker4MissesWord | quest/system-and-software-design/004-Data-Stream-Processing-Stream-of-Characters/answer.py:163-197 | with words ["cd"] the queries 'c', 'd' end the stream with "cd", yet StreamChecker4 answers False |
| StreamOfCharacters.ReversedAnswer | quest/system-and-software-design/004-Data-Stream-Processing-Stream-of-Characters/answer.py:187-197 | over a trie of the reversed words the backward walk finds a key exactly when a non-empty word ends the stream |
| StreamOfCharacters.WalkReversed | quest/system-and-software-design/004-Data-Stream-Processing-Stream-of-Characters/answer.py:187-197 | the corrected walk returns True exactly when a non-empty word ends the stream |
| StreamOfCharacters.StreamChecker4Fixed.Query | quest/system-and-software-design/004-Data-Stream-Processing-Stream-of-Characters/answer.py:180-197 | the corrected query, on a trie of reversed words, returns True exactly when a non-empty word ends the stream |
| StreamOfCharacters.StreamChecker4Fixed.constructor | quest/system-and-software-design/004-Data-Stream-Processing-Stream-of-Characters/answer.py:164-178 | the corrected checker builds a trie of the reversed words: it holds exactly the given words and no letters |
| DisjointIntervals.Neighbours | quest/system-and-software-design/005-Data-Stream-Processing-Data-Stream-as-Disjoint-Intervals/answer.py:41-56 | for a value not held, value - 1 is held exactly when the interval before the position ends at it, and value + 1 exactly when the interval at the position starts at it |
| DisjointIntervals.JoinBoth | quest/system-and-software-design/005-Data-Stream-Processing-Data-Stream-as-Disjoint-Intervals/answer.py:59-63 | joining the left interval ending at value - 1 with the right one starting at value + 1 keeps the list canonical and adds exactly value |
| DisjointIntervals.ExtendLeft | quest/system-and-software-design/005-Data-Stream-Processing-Data-Stream-as-Disjoint-Intervals/answer.py:64-66 | extending the left interval ending at value - 1 to value keeps the list canonical and adds exactly value |
| DisjointIntervals.ExtendRight | quest/system-and-software-design/005-Data-Stream-Processing-Data-Stream-as-Disjoint-Intervals/answer.py:67-71 | moving the start of the right interval from value + 1 to value keeps the list canonical and adds exactly value |
| DisjointIntervals.InsertAlone | quest/system-and-software-design/005-Data-Stream-Processing-Data-Stream-as-Disjoint-Intervals/answer.py:72-74 | inserting [value, value] where no neighbour touches value keeps the list canonical and adds exactly value |
| DisjointIntervals.AddAt | quest/system-and-software-design/005-Data-Stream-Processing-Data-Stream-as-Disjoint-Intervals/answer.py:59-74 | the four-way merge keeps the list canonical, holds exactly the old values plus value, and has one interval fewer, as many, or one more according to whether both, one or neither of value - 1 and value + 1 were held |
| DisjointIntervals.Unique | quest/system-and-software-design/005-Data-Stream-Processing-Data-Stream-as-Disjoint-Intervals/answer.py:76-77 | two canonical interval lists holding the same values are equal, so every variant's output is determined by the values added |
| DisjointIntervals.Locate | quest/system-and-software-design/005-Data-Stream-Processing-Data-Stream-as-Disjoint-Intervals/answer.py:32-38 | with the position separating starts below and above value, value is already held exactly when the interval before reaches it or the one at the position starts at it |
| DisjointIntervals.BisectRight | quest/system-and-software-design/005-Data-Stream-Processing-Data-Stream-as-Disjoint-Intervals/answer.py:34 | bisect_right on the starts: every start before the result is at most value and every start from it on is above value |
| DisjointIntervals.AddAtSummarizes | quest/system-and-software-design/005-Data-Stream-Processing-Data-Stream-as-Disjoint-Intervals/answer.py:30-74 | adding a new value with the merge turns a summary of the values seen into a summary of those values plus the new one |
| DisjointIntervals.DictMerge | quest/system-and-software-design/005-Data-Stream-Processing-Data-Stream-as-Disjoint-Intervals/answer.py:59-74 | the dict operations (delete the right key, set the left end, max, insert) leave exactly the merged list |
| DisjointIntervals.SummaryRanges.AddNum | quest/system-and-software-design/005-Data-Stream-Processing-Data-Stream-as-Disjoint-Intervals/answer.py:30-74 | addNum keeps the dict a canonical summary of the values added; a value already held changes nothing; a value joining two intervals removes one and an isolated value adds one |
| DisjointIntervals.SummaryRanges.constructor | quest/system-and-software-design/005-Data-Stream-Processing-Data-Stream-as-Disjoint-Intervals/answer.py:27-28 | a new summary has seen no value and satisfies its invariant |
| DisjointIntervals.SummaryRanges.GetIntervals | quest/system-and-software-design/005-Data-Stream-Processing-Data-Stream-as-Disjoint-Intervals/answer.py:76-77 | getIntervals returns the disjoint, sorted intervals that hold exactly the values added |
| DisjointIntervals.SortedElements | quest/system-and-software-design/005-Data-Stream-Processing-Data-Stream-as-Disjoint-Intervals/answer.py:110 | sorted(nums) lists the set's elements, each once, in strictly increasing order |
| DisjointIntervals.Runs | quest/system-and-software-design/005-Data-Stream-Processing-Data-Stream-as-Disjoint-Intervals/answer.py:111-126 | the run loop over strictly increasing values yields a canonical interval list holding exactly those values |
| DisjointIntervals.SummaryRanges2.AddNum | quest/system-and-software-design/005-Data-Stream-Processing-Data-Stream-as-Disjoint-Intervals/answer.py:103-104 | addNum adds value to the set and nothing else |
| DisjointIntervals.SummaryRanges2.constructor | quest/system-and-software-design/005-Data-Stream-Processing-Data-Stream-as-Disjoint-Intervals/answer.py:100-101 | a new summary has seen no value |
| DisjointIntervals.SummaryRanges2.GetIntervals | quest/system-and-software-design/005-Data-Stream-Processing-Data-Stream-as-Disjoint-Intervals/answer.py:106-126 | getIntervals returns [] for no values and otherwise the canonical summary of the set |
| DisjointIntervals.FirstAtLeast | quest/system-and-software-design/005-Data-Stream-Processing-Data-Stream-as-Disjoint-Intervals/answer.py:159-165 | the binary search returns the first position whose start is at least value |
| DisjointIntervals.ListMerge | quest/system-and-software-design/005-Data-Stream-Processing-Data-Stream-as-Disjoint-Intervals/answer.py:167-194 | the list merge leaves the list unchanged when the right interval already starts at value, and otherwise gives the canonical merge of value |
| DisjointIntervals.SummaryRanges3.AddNum | quest/system-and-software-design/005-Data-Stream-Processing-Data-Stream-as-Disjoint-Intervals/answer.py:153-194 | addNum (empty list, search, checks, merge) keeps the list a canonical summary of the values added, with the same no-change and count facts as the dict version |
| DisjointIntervals.SummaryRanges3.constructor | quest/system-and-software-design/005-Data-Stream-Processing-Data-Stream-as-Disjoint-Intervals/answer.py:150-151 | a new summary has seen no value and satisfies its invariant |
| DisjointIntervals.SummaryRanges3.GetIntervals | quest/system-and-software-design/005-Data-Stream-Processing-Data-Stream-as-Disjoint-Intervals/answer.py:196-197 | getIntervals returns the canonical summary of the values added |
| DisjointIntervals.BisectLeft | quest/system-and-software-design/005-Data-Stream-Processing-Data-Stream-as-Disjoint-Intervals/answer.py:216 | bisect_left with [value, value] in Python's list order counts the intervals ordered before it, which on a canonical list are those starting below value |
| DisjointIntervals.SummaryRanges4.AddNum | quest/system-and-software-design/005-Data-Stream-Processing-Data-Stream-as-Disjoint-Intervals/answer.py:214-240 | addNum keeps the list a canonical summary of the values added, returns unchanged for a held value, and merges as the other variants do |
| DisjointIntervals.SummaryRanges4.constructor | quest/system-and-software-design/005-Data-Stream-Processing-Data-Stream-as-Disjoint-Intervals/answer.py:211-212 | a new summary has seen no value and satisfies its invariant |
| DisjointIntervals.SummaryRanges4.GetIntervals | quest/system-and-software-design/005-Data-Stream-Processing-Data-Stream-as-Disjoint-Intervals/answer.py:242-243 | getIntervals returns the canonical summary of the values added |
| DisjointIntervals.SampleSummary | quest/system-and-software-design/005-Data-Stream-Processing-Data-Stream-as-Disjoint-Intervals/answer.py:290-291 | [[1, 3], [6, 7]] summarizes the values 1, 2, 3, 6 and 7 |
| DisjointIntervals.SampleRun | quest/system-and-software-design/005-Data-Stream-Processing-Data-Stream-as-Disjoint-Intervals/answer.py:274-291 | adding 1, 3, 7, 2 and 6 to SummaryRanges4 leaves [[1, 3], [6, 7]] |
| LruCache.IndexOf | quest/system-and-software-design/001-LRU-Cache/answer.py:9-14 | the result is -1 exactly when no entry has the key, and otherwise the first position whose entry has it |
| LruCache.WithoutFacts | quest/system-and-software-design/001-Cache-System-Design-LRU-Cache/answer.py:171-172 | popping a key keeps the keys distinct, removes exactly that key (one entry fewer when present, nothing changed when absent) and leaves every other key's presence and value as they were |
| LruCache.TouchFacts | quest/system-and-software-design/001-LRU-Cache/answer.py:9-14 | get keeps the number of entries, the keys and every key's value, changes nothing for a missing key, and moves a present key's entry to the end |
| LruCache.AppendFacts | quest/system-and-software-design/001-LRU-Cache/answer.py:20 | appending an item with a new key gives it the last position and its value, and leaves the other keys as they were |
| LruCache.StoreFits | quest/system-and-software-design/001-LRU-Cache/answer.py:16-24 | put keeps the cache's invariant: keys distinct and no more entries than the capacity |
| LruCache.StoreValue | quest/system-and-software-design/001-LRU-Cache/answer.py:16-24 | with capacity at least 1, get after put of key returns the value just put |
| LruCache.StoreKeepsOthers | quest/system-and-software-design/001-LRU-Cache/answer.py:16-24 | put of a present key, or of a new key below the capacity, evicts nothing: the size stays for a present key and every other key keeps its value |
| LruCache.StoreEvicts | quest/system-and-software-design/001-LRU-Cache/answer.py:22-24 | put of a new key into a full cache drops exactly the least recently used entry, the first, and appends the new one |
| LruCache.StoreWithout | quest/system-and-software-design/001-Cache-System-Design-LRU-Cache/answer.py:225-226 | deleting the key before putting it does not change the result of put |
| LruCache.SetItem | quest/system-and-software-design/001-Cache-System-Design-LRU-Cache/answer.py:39 | d[key] = value replaces the value in place for a present key and appends the item for a new key |
| LruCache.LRUCache.Get | quest/system-and-software-design/001-Cache-System-Design-LRU-Cache/answer.py:28-33 | OrderedDict get: -1 and no change for a missing key; otherwise the key's value, with the key moved to the end (Touch); the invariant is kept |
| LruCache.LRUCache.Put | quest/system-and-software-design/001-Cache-System-Design-LRU-Cache/answer.py:35-43 | OrderedDict put: the items become Store of the old items (old item removed, new one last, the first popped beyond the capacity); the invariant is kept |
| LruCache.LRUCache.constructor | quest/system-and-software-design/001-Cache-System-Design-LRU-Cache/answer.py:24-26 | a new OrderedDict cache keeps the capacity, holds no entries and satisfies the invariant |
| LruCache.LRUCache3.constructor | quest/system-and-software-design/001-Cache-System-Design-LRU-Cache/answer.py:158-160 | a new dict cache keeps the capacity, holds no entries and satisfies the invariant |
| LruCache.DLinkedNode.constructor | quest/system-and-software-design/001-Cache-System-Design-LRU-Cache/answer.py:69-73 | a new node holds the key and value and is linked to nothing |
| LruCache.LRUCache2.constructor | quest/system-and-software-design/001-Cache-System-Design-LRU-Cache/answer.py:76-84 | a new linked-list cache keeps the capacity and holds no entries: the head sentinel is linked to the tail sentinel and the invariant holds |
| LruCache.LRUCache4.constructor | quest/system-and-software-design/001-Cache-System-Design-LRU-Cache/answer.py:198-203 | a new cache keeps the capacity and holds no entries: the left sentinel is linked to the right one and the invariant holds |
| LruCache.LRUCache3.Get | quest/system-and-software-design/001-Cache-System-Design-LRU-Cache/answer.py:162-168 | dict get by pop and re-insert: -1 and no change for a missing key; otherwise the key's value, with the key moved to the end; the invariant is kept |
| LruCache.LRUCache3.Put | quest/system-and-software-design/001-Cache-System-Design-LRU-Cache/answer.py:170-180 | dict put: the items become Store of the old items, the first key popped beyond the capacity; the invariant is kept |
| LruCache.Unlink | quest/system-and-software-design/001-Cache-System-Design-LRU-Cache/answer.py:93-96 | _remove_node (and LRUCache4.remove, lines 205-208): the list without the node is still doubly linked, and no node's key or value changes |
| LruCache.LinkBefore | quest/system-and-software-design/001-Cache-System-Design-LRU-Cache/answer.py:86-91 | _add_to_tail (and LRUCache4.insert, lines 210-214): a node not in the list ends up doubly linked just before the tail sentinel, keys and values unchanged |
| LruCache.MoveToTail | quest/system-and-software-design/001-Cache-System-Design-LRU-Cache/answer.py:98-101 | _move_to_tail: the node is moved just before the tail, the list stays doubly linked, and its entry moves to the end of the entries |
| LruCache.SetValue | quest/system-and-software-design/001-Cache-System-Design-LRU-Cache/answer.py:120-121 | node.value = value: the list stays linked and the node's entry takes the new value |
| LruCache.SetAndMove | quest/system-and-software-design/001-Cache-System-Design-LRU-Cache/answer.py:118-122 | put on a present key: after the value is set and the node moved to the tail, the list holds the entries with the key's entry updated and last |
| LruCache.Append | quest/system-and-software-design/001-Cache-System-Design-LRU-Cache/answer.py:125-127 | put of a new key: the fresh node linked before the tail appends its entry to those the list holds |
| LruCache.RemoveHead | quest/system-and-software-design/001-Cache-System-Design-LRU-Cache/answer.py:103-107 | _remove_head: returns head.next, the node of the first (least recently used) entry, and the list then holds the entries without it |
| LruCache.MirrorsMoved | quest/system-and-software-design/001-Cache-System-Design-LRU-Cache/answer.py:98-101 | moving the node at position i last moves entry i - 1 last in the entries the list holds |
| LruCache.MirrorsRemoved | quest/system-and-software-design/001-Cache-System-Design-LRU-Cache/answer.py:93-96 | unlinking the node at position i takes entry i - 1 out of the entries the list holds |
| LruCache.MirrorsAppended | quest/system-and-software-design/001-Cache-System-Design-LRU-Cache/answer.py:86-91 | linking a node in before the tail appends its key and value to the entries the list holds |
| LruCache.NodeMapMoved | quest/system-and-software-design/001-Cache-System-Design-LRU-Cache/answer.py:109-115 | after _move_to_tail the map still sends every key to the node holding its entry |
| LruCache.NodeMapSetValue | quest/system-and-software-design/001-Cache-System-Design-LRU-Cache/answer.py:120-121 | after node.value = value the map still sends every key to the node holding its entry |
| LruCache.NodeMapAppended | quest/system-and-software-design/001-Cache-System-Design-LRU-Cache/answer.py:125-127 | after a new node is added, the map with key set to it sends every key to the node holding its entry |
| LruCache.NodeMapRemoved | quest/system-and-software-design/001-Cache-System-Design-LRU-Cache/answer.py:131-134 | after a node is unlinked and its key deleted, the map sends every remaining key to the node holding its entry |
| LruCache.TouchKeeps | quest/system-and-software-design/001-Cache-System-Design-LRU-Cache/answer.py:109-115 | get on a present key keeps the keys distinct, the capacity bound and the map, and the new order is Touch |
| LruCache.PutPresentKeeps | quest/system-and-software-design/001-Cache-System-Design-LRU-Cache/answer.py:118-122 | put on a present key (set the value, move last) gives Store and keeps the keys distinct, the capacity bound and the map |
| LruCache.PutNewKeeps | quest/system-and-software-design/001-Cache-System-Design-LRU-Cache/answer.py:123-134 | put of a new key gives Store: the appended entries when within the capacity, and without the first beyond it, with the map kept in both cases |
| LruCache.RemoveKeeps | quest/system-and-software-design/001-Cache-System-Design-LRU-Cache/answer.py:225-226 | taking out a present key's entry and node leaves the entries Without the key, within the capacity, with the map kept and the map's size equal to the number of entries |
| LruCache.CardPut | quest/system-and-software-design/001-Cache-System-Design-LRU-Cache/answer.py:228 | setting a key adds one to the size of the map without that key |
| LruCache.CardRemove | quest/system-and-software-design/001-Cache-System-Design-LRU-Cache/answer.py:235 | deleting a present key takes one from the size of the map |
| LruCache.GetList | quest/system-and-software-design/001-Cache-System-Design-LRU-Cache/answer.py:109-115 | get on a present key: the invariant holds of the moved list with the entries at Touch, and the key's value is returned |
| LruCache.PutPresentList | quest/system-and-software-design/001-Cache-System-Design-LRU-Cache/answer.py:118-122 | put on a present key: the invariant holds of the moved list with the entries at Store |
| LruCache.InsertNode | quest/system-and-software-design/001-Cache-System-Design-LRU-Cache/answer.py:123-134 | put of a new key: a fresh node linked before the tail, the size raised, and beyond the capacity the head node removed and its key deleted; the invariant holds with the entries at Store |
| LruCache.PutList | quest/system-and-software-design/001-Cache-System-Design-LRU-Cache/answer.py:117-134 | put: the invariant holds of the new map, size and list with the entries at Store |
| LruCache.LRUCache2.Get | quest/system-and-software-design/001-Cache-System-Design-LRU-Cache/answer.py:109-115 | linked-list get: -1 and no change for a missing key; otherwise the key's value, with the entries at Touch; the invariant is kept |
| LruCache.LRUCache2.Put | quest/system-and-software-design/001-Cache-System-Design-LRU-Cache/answer.py:117-134 | linked-list put: the entries become Store of the old entries; the invariant (list, map, size, capacity bound) is kept |
| LruCache.Detach | quest/system-and-software-design/001-Cache-System-Design-LRU-Cache/answer.py:225-226 | put on a present key: the old node is removed and the key deleted, leaving the invariant over the entries Without the key |
| LruCache.InsertRight | quest/system-and-software-design/001-Cache-System-Design-LRU-Cache/answer.py:227-235 | a fresh node inserted at the right and set in the map, then the leftmost evicted beyond the capacity, leaves the invariant with the entries at Store |
| LruCache.EvictLeft | quest/system-and-software-design/001-Cache-System-Design-LRU-Cache/answer.py:231-235 | the leftmost real node (left.next) is removed and its key deleted; the invariant holds with the first entry gone |
| LruCache.ReplaceNode | quest/system-and-software-design/001-Cache-System-Design-LRU-Cache/answer.py:224-235 | LRUCache4 put on the list and the map: the invariant holds with the entries at Store and the map's size as the count |
| LruCache.LRUCache4.Get | quest/system-and-software-design/001-Cache-System-Design-LRU-Cache/answer.py:216-222 | get by remove and insert: -1 and no change for a missing key; otherwise the key's value, with the entries at Touch; the invariant is kept |
| LruCache.LRUCache4.Put | quest/system-and-software-design/001-Cache-System-Design-LRU-Cache/answer.py:224-235 | put: the entries become Store of the old entries, whichever of the two paths is taken; the invariant is kept |
| LfuCache.LeastExists | quest/system-and-software-design/002-LFU-Cache/answer.py:240-241 | every non-empty cache has a key that no other key comes before in (count, timestamp) order, so min over the keys is defined |
| LfuCache.Victim | quest/system-and-software-design/002-LFU-Cache/answer.py:240-241 | the key put evicts is one that no other key comes before: least count, and among equal counts the oldest timestamp |
| LfuCache.LeastUnique | quest/system-and-software-design/002-LFU-Cache/answer.py:240-241 | with distinct timestamps two keys that nothing comes before are the same key, so the evicted key is determined |
| LfuCache.IsVictim | quest/system-and-software-design/002-LFU-Cache/answer.py:240-242 | with distinct timestamps, any key that nothing comes before is exactly the key put evicts |
| LfuCache.ReadFacts | quest/system-and-software-design/002-LFU-Cache/answer.py:216-223 | get keeps the invariant and the keys; a missing key gives -1 and no change; a present key returns its value, keeps it, gains one use, and no other key changes |
| LfuCache.WriteKeeps | quest/system-and-software-design/002-LFU-Cache/answer.py:225-245 | put keeps the invariant: never more keys than the capacity, every count at least 1, timestamps distinct and not after the clock |
| LfuCache.EnterGood | quest/system-and-software-design/002-LFU-Cache/answer.py:245 | a new key entering with count 1 at the next tick into a cache with room keeps the invariant |
| LfuCache.WritePresent | quest/system-and-software-design/002-LFU-Cache/answer.py:232-235 | put on a present key replaces its value and adds one use, keeps the keys, evicts nothing and changes no other key |
| LfuCache.WriteNew | quest/system-and-software-design/002-LFU-Cache/answer.py:237-245 | put of a new key enters it with count 1, the least count in the cache; below the capacity nothing is evicted, at the capacity exactly one key that nothing comes before is, and every other key keeps its slot |
| LfuCache.PutOnPair | quest/system-and-software-design/002-LFU-Cache/answer.py:238-245 | on a full cache of two keys, put of a third evicts the one used fewer times, or as often but longer ago, and the new key enters at the next tick |
| LfuCache.FirstSample | quest/system-and-software-design/002-LFU-Cache/answer.py:259-273 | the first sample run on capacity 2 returns 1, -1, 3, -1, 3, 4 from its gets: key 2 and then key 1 are evicted |
| LfuCache.SecondSample | quest/system-and-software-design/002-LFU-Cache/answer.py:277-288 | the second sample run on capacity 2 returns 2, 1, 1, -1, 3 from its gets: key 3 is evicted |
| LfuCache.LeastInBucket | quest/system-and-software-design/002-LFU-Cache/answer.py:186-190 | when every bucket ranks its keys by their last use and each key is in its count's bucket, two keys that nothing comes before are the same key |
| LfuCache.Delete | quest/system-and-software-design/002-LFU-Cache/answer.py:158 | del od[key] (and the linked list's remove, lines 50-54): the key's occurrence is taken out, one element fewer when present, nothing changed when absent, every other key kept |
| LfuCache.RankedDelete | quest/system-and-software-design/002-LFU-Cache/answer.py:158 | taking a key out of a bucket keeps its keys ranked by last use and leaves the key out |
| LfuCache.RankedRest | quest/system-and-software-design/002-LFU-Cache/answer.py:189 | popitem(last=False): taking out the least recently used key keeps the bucket ranked and leaves every other key in |
| LfuCache.RankedPush | quest/system-and-software-design/002-LFU-Cache/answer.py:167 | adding a key used later than all of a bucket's keys as its most recent keeps the bucket ranked |
| LfuCache.Bumped | quest/system-and-software-design/002-LFU-Cache/answer.py:155-167 | the buckets after _update_freq have exactly the old counts plus the key's old count and the next |
| LfuCache.BumpBuckets | quest/system-and-software-design/002-LFU-Cache/answer.py:153-167 | after _update_freq every bucket is ranked and every key is in its new count's bucket |
| LfuCache.BumpMin | quest/system-and-software-design/002-LFU-Cache/answer.py:160-162 | after _update_freq min_freq is still a lower bound on the counts whose bucket is non-empty: it moves up by one exactly when the key's old bucket was min_freq's and is now empty |
| LfuCache.OldestIsLeast | quest/system-and-software-design/002-LFU-Cache/answer.py:187-189 | the least recently used key of min_freq's bucket is a key that nothing comes before, the one the specification evicts |
| LfuCache.EvictBuckets | quest/system-and-software-design/002-LFU-Cache/answer.py:187-190 | after the eviction pop the remaining buckets are ranked and every remaining key is in its count's bucket |
| LfuCache.EnterBuckets | quest/system-and-software-design/002-LFU-Cache/answer.py:193-195 | a new key added to the bucket of count 1 as its most recent keeps every bucket ranked, and min_freq 1 is then right |
| LfuCache.Revalue | quest/system-and-software-design/002-LFU-Cache/answer.py:182 | changing a key's value leaves the buckets ranked, the keys housed and min_freq right |
| LfuCache.LeastUsed | quest/system-and-software-design/002-LFU-Cache/answer.py:240-241 | the scan returns a key of the non-empty cache that no other key comes before |
| LfuCache.LFUCache3.constructor | quest/system-and-software-design/002-LFU-Cache/answer.py:211-214 | an empty cache of the given capacity with timestamp 0 meets the invariant |
| LfuCache.LFUCache3.Get | quest/system-and-software-design/002-LFU-Cache/answer.py:216-223 | get: the result and the new cache are those of the specification's get; the invariant is kept |
| LfuCache.LFUCache3.Put | quest/system-and-software-design/002-LFU-Cache/answer.py:225-245 | put: the new cache is that of the specification's put, the victim found by the scan being the specification's; the invariant is kept |
| LfuCache.TouchSized | quest/system-and-software-design/002-LFU-Cache/answer.py:166 | a use of a present key keeps the size bound and every count and timestamp in range |
| LfuCache.TouchMirrored | quest/system-and-software-design/002-LFU-Cache/answer.py:166 | a use of a present key keeps key -> (value, count) in step, its count raised by one |
| LfuCache.UpdateCoupled | quest/system-and-software-design/002-LFU-Cache/answer.py:153-167 | _update_freq moves the fields in step with a use of the key on the specification |
| LfuCache.RevalueCoupled | quest/system-and-software-design/002-LFU-Cache/answer.py:181-182 | replacing a present key's value first keeps the fields in step |
| LfuCache.EvictCoupled | quest/system-and-software-design/002-LFU-Cache/answer.py:187-190 | a full cache's pop from min_freq's bucket removes exactly the specification's victim and leaves the fields in step with the smaller cache |
| LfuCache.EnterCoupled | quest/system-and-software-design/002-LFU-Cache/answer.py:193-195 | a new key added with count 1 to the bucket of count 1 with min_freq 1 leaves the fields in step with the specification after it enters |
| LfuCache.RoomLeft | quest/system-and-software-design/002-LFU-Cache/answer.py:187 | below the capacity no eviction is needed: there is room for one more key |
| LfuCache.UpdateFreqOn | quest/system-and-software-design/002-LFU-Cache/answer.py:153-167 | _update_freq on the fields: they end in step with the specification's get on the key |
| LfuCache.PutOn | quest/system-and-software-design/002-LFU-Cache/answer.py:176-195 | put on the fields: nothing at capacity 0; otherwise they end in step with the specification's put |
| LfuCache.ReplaceOn | quest/system-and-software-design/002-LFU-Cache/answer.py:181-184 | put of a present key: the value replaced and _update_freq done, the fields are in step with the specification's put |
| LfuCache.InsertOn | quest/system-and-software-design/002-LFU-Cache/answer.py:186-195 | put of a new key: after the eviction and the entry with count 1 the fields are in step with the specification's put |
| LfuCache.EvictOn | quest/system-and-software-design/002-LFU-Cache/answer.py:186-190 | the eviction half of put: a full cache gives up min_freq's least recently used key, the specification's victim; below the capacity nothing changes |
| LfuCache.InsertCoupled | quest/system-and-software-design/002-LFU-Cache/answer.py:192-195 | after the eviction, the new key's entry with count 1 and min_freq 1 leaves the fields in step with the specification's put |
| LfuCache.InsertWrite | quest/system-and-software-design/002-LFU-Cache/answer.py:186-195 | fields in step with the kept keys plus the new key are in step with the specification's put |
| LfuCache.WriteInsert | quest/system-and-software-design/002-LFU-Cache/answer.py:186-195 | put of a new key is the kept keys (the victim gone from a full cache) plus the key with one use at the next tick |
| LfuCache.WriteRevalued | quest/system-and-software-design/002-LFU-Cache/answer.py:181-183 | put of a present key is a use of the key after its value was replaced |
| LfuCache.MirroredSize | quest/system-and-software-design/002-LFU-Cache/answer.py:187 | len(key_to_val_freq) is the number of keys the specification's cache holds |
| LfuCache.LFUCache2.constructor | quest/system-and-software-design/002-LFU-Cache/answer.py:147-151 | an empty cache of the given capacity with min_freq 0 is in step with the empty specification |
| LfuCache.LFUCache2.UpdateFreq | quest/system-and-software-design/002-LFU-Cache/answer.py:153-167 | _update_freq: the new specification state is that of a use of the key; the fields stay in step |
| LfuCache.LFUCache2.Get | quest/system-and-software-design/002-LFU-Cache/answer.py:169-174 | get: the result and the new specification state are those of the specification's get |
| LfuCache.LFUCache2.Put | quest/system-and-software-design/002-LFU-Cache/answer.py:176-195 | put: the new specification state is that of the specification's put; the fields stay in step |
| LfuCache.Node.constructor | quest/system-and-software-design/002-LFU-Cache/answer.py:26-31 | a node holds its key and value, count 1 and no links |
| LfuCache.DoublyLinkedList.constructor | quest/system-and-software-design/002-LFU-Cache/answer.py:35-40 | a new list is a head sentinel linked to a tail sentinel and holds no node |
| LfuCache.DoublyLinkedList.AddFirst | quest/system-and-software-design/002-LFU-Cache/answer.py:42-48 | add_first: the node becomes the first after head, the list stays doubly linked with its size one more, and no key, value or count changes |
| LfuCache.DoublyLinkedList.Remove | quest/system-and-software-design/002-LFU-Cache/answer.py:50-54 | remove: the node is unlinked, the list stays doubly linked with its size one less, and no key, value or count changes |
| LfuCache.DoublyLinkedList.RemoveLast | quest/system-and-software-design/002-LFU-Cache/answer.py:56-62 | remove_last: None and no change on an empty list; otherwise the node before tail is returned and unlinked |
| LfuCache.DoublyLinkedList.IsEmpty | quest/system-and-software-design/002-LFU-Cache/answer.py:64-65 | is_empty holds exactly when no node is between the sentinels |
| LfuCache.LFUCache1.constructor | quest/system-and-software-design/002-LFU-Cache/answer.py:68-72 | an empty cache of the given capacity with min_freq 0 is in step with the empty specification |
| LfuCache.LFUCache1.UpdateFreq | quest/system-and-software-design/002-LFU-Cache/answer.py:74-92 | _update_freq: the new specification state is that of a use of the key; the fields stay in step, each list newest first |
| LfuCache.LFUCache1.Get | quest/system-and-software-design/002-LFU-Cache/answer.py:94-100 | get: the result and the new specification state are those of the specification's get |
| LfuCache.LFUCache1.Put | quest/system-and-software-design/002-LFU-Cache/answer.py:102-129 | put: the new specification state is that of the specification's put; remove_last on min_freq's list evicts the specification's victim |
| ExclusiveTime.NatOfShow | quest/data-structures-and-algorithms/009-Exclusive-Time-of-Functions/answer.py:39-40 | int(str(n)) == n for every natural n |
| ExclusiveTime.SplitFormat | quest/data-structures-and-algorithms/009-Exclusive-Time-of-Functions/answer.py:39 | a formatted log line splits at ':' into exactly its id, its type word and its timestamp |
| ExclusiveTime.ParseFormat | quest/data-structures-and-algorithms/009-Exclusive-Time-of-Functions/answer.py:39-40 | parsing a formatted log line gives back its event; fields 0 and 2 read back as the id and the timestamp |
| ExclusiveTime.EndInFormat | quest/data-structures-and-algorithms/009-Exclusive-Time-of-Functions/answer.py:10 | `"end" in item` holds for a log line exactly when it is an end event |
| ExclusiveTime.ParseAll | quest/data-structures-and-algorithms/009-Exclusive-Time-of-Functions/answer.py:137-144 | every line of a formatted log parses to its own event, in order |
| ExclusiveTime.TotalTime | quest/data-structures-and-algorithms/009-Exclusive-Time-of-Functions/answer.py:22-55 | the exclusive times of all functions add up to the total duration of the outermost calls: each time unit goes to exactly one function |
| ExclusiveTime.ExclInNonNegative | quest/data-structures-and-algorithms/009-Exclusive-Time-of-Functions/answer.py:22-55 | in a call whose inner calls lie inside it one after another, no function's exclusive time is negative |
| ExclusiveTime.Sample | quest/data-structures-and-algorithms/009-Exclusive-Time-of-Functions/answer.py:22-55 | the problem's sample: function 0 over 0..6 calling 1 over 2..5 logs ["0:start:0", "1:start:2", "1:end:5", "0:end:6"] and has exclusive times 3 and 4 |
| ExclusiveTime.PrevOnCalls | quest/data-structures-and-algorithms/009-Exclusive-Time-of-Functions/answer.py:42-53 | a run of exclusiveTime2's loop body over the logs of a sequence of calls keeps the stack, moves prev_time past the last call, and credits each function its exclusive time there plus the running caller the gaps between the calls |
| ExclusiveTime.PrevOnForest | quest/data-structures-and-algorithms/009-Exclusive-Time-of-Functions/answer.py:34-55 | exclusiveTime2's loop, from n zeros, an empty stack and prev_time 0, raises nowhere on a well-nested log and ends with each function's exclusive time |
| ExclusiveTime.ExclusiveTime2 | quest/data-structures-and-algorithms/009-Exclusive-Time-of-Functions/answer.py:22-55 | on a well-nested log the result has length n and holds each function's exclusive time |
| ExclusiveTime.ExclusiveTime5 | quest/data-structures-and-algorithms/009-Exclusive-Time-of-Functions/answer.py:125-165 | parses every log into a record first, then the same loop: the result holds each function's exclusive time |
| ExclusiveTime.ResumeRunAgrees | quest/data-structures-and-algorithms/009-Exclusive-Time-of-Functions/answer.py:72-90 | exclusiveTime3's loop raises exactly when exclusiveTime2's does and keeps the same stack and result, with start_times' top equal to prev_time |
| ExclusiveTime.ExclusiveTime3 | quest/data-structures-and-algorithms/009-Exclusive-Time-of-Functions/answer.py:57-92 | on a well-nested log the result has length n and holds each function's exclusive time |
| ExclusiveTime.FrameOnCalls | quest/data-structures-and-algorithms/009-Exclusive-Time-of-Functions/answer.py:108-121 | a run of exclusiveTime4's loop body over the logs of a sequence of calls keeps the stack, credits each function its exclusive time there, and takes the calls' whole durations from the caller on top |
| ExclusiveTime.ExclusiveTime4 | quest/data-structures-and-algorithms/009-Exclusive-Time-of-Functions/answer.py:94-123 | on a well-nested log the result has length n and holds each function's exclusive time |
| ExclusiveTime.LineOnEnd | quest/data-structures-and-algorithms/009-Exclusive-Time-of-Functions/answer.py:9-19 | an end line pops itself and its call's start line, credits y - x + 1 to the function and takes it back from the caller whose line is then on top |
| ExclusiveTime.LineOnCalls | quest/data-structures-and-algorithms/009-Exclusive-Time-of-Functions/answer.py:8-19 | a run of exclusiveTime's loop body over the lines of a sequence of calls leaves the stack of lines as it was, credits each function its exclusive time there, and takes the calls' whole durations from the caller on top |
| ExclusiveTime.ExclusiveTime1 | quest/data-structures-and-algorithms/009-Exclusive-Time-of-Functions/answer.py:2-20 | on a well-nested log the result has length n and holds each function's exclusive time |
| ConstructTarget.ArgMax | quest/data-structures-and-algorithms/018-Construct-Target-Array-With-Multiple-Sums/answer.py:29 | heappop of the negated values gives a position holding the largest value |
| ConstructTarget.OnlyPeak | quest/data-structures-and-algorithms/018-Construct-Target-Array-With-Multiple-Sums/answer.py:29-33 | at most one element of a positive array exceeds the sum of the others, so the popped maximum is the only candidate for the last step |
| ConstructTarget.PeakOf | quest/data-structures-and-algorithms/018-Construct-Target-Array-With-Multiple-Sums/answer.py:29-36 | in an array built from ones by at least one step, the element set last exceeds the sum of the others, and the array before that step has it replaced by its value less that sum |
| ConstructTarget.NoPeak | quest/data-structures-and-algorithms/018-Construct-Target-Array-With-Multiple-Sums/answer.py:42-47 | an array with an element of at least 2 where no element exceeds the sum of the others cannot be built |
| ConstructTarget.OneStep | quest/data-structures-and-algorithms/018-Construct-Target-Array-With-Multiple-Sums/answer.py:49-53 | with r the sum of the other elements, putting w + r at a position is constructible exactly when putting w there is (w >= 1) |
| ConstructTarget.Repeat | quest/data-structures-and-algorithms/018-Construct-Target-Array-With-Multiple-Sums/answer.py:49-53 | putting v + q * r at a position is constructible exactly when putting v there is, so undoing q steps at once by a remainder keeps the answer |
| ConstructTarget.SingleElement | quest/data-structures-and-algorithms/018-Construct-Target-Array-With-Multiple-Sums/answer.py:18-19 | a one-element array can be built exactly when it is [1] |
| ConstructTarget.MaxOne | quest/data-structures-and-algorithms/018-Construct-Target-Array-With-Multiple-Sums/answer.py:31-33 | a positive array whose maximum is 1 is the starting array of ones |
| ConstructTarget.RestOne | quest/data-structures-and-algorithms/018-Construct-Target-Array-With-Multiple-Sums/answer.py:38-40 | when the rest sums to 1 the array can be built: the rest is a single 1 and the maximum is reached by steps on itself |
| ConstructTarget.MaxNotAbove | quest/data-structures-and-algorithms/018-Construct-Target-Array-With-Multiple-Sums/answer.py:46-47 | a maximum of at least 2 that does not exceed the rest means the array cannot be built |
| ConstructTarget.MaxMultiple | quest/data-structures-and-algorithms/018-Construct-Target-Array-With-Multiple-Sums/answer.py:46-47 | a maximum that is a multiple of a rest of at least 2 means the array cannot be built; undoing down to the rest itself keeps the answer |
| ConstructTarget.MaxRemainder | quest/data-structures-and-algorithms/018-Construct-Target-Array-With-Multiple-Sums/answer.py:49-56 | putting m % r in place of the maximum keeps the array positive, makes its sum r + m % r (the new total_sum) and keeps whether it can be built |
| ConstructTarget.IsPossible | quest/data-structures-and-algorithms/018-Construct-Target-Array-With-Multiple-Sums/answer.py:16-56 | returns true exactly when target can be built from ones by steps that each set one element to the sum of all elements |
| ConstructTarget.StepsBack | quest/data-structures-and-algorithms/018-Construct-Target-Array-With-Multiple-Sums/answer.py:101-102 | old_val is the rest itself when the maximum is a multiple of it and the remainder otherwise |
| ConstructTarget.PutBack | quest/data-structures-and-algorithms/018-Construct-Target-Array-With-Multiple-Sums/answer.py:101-109 | isPossible_optimized's put-back value keeps the array positive, its sum equal to total_sum, and whether it can be built |
| ConstructTarget.IsPossibleOptimized | quest/data-structures-and-algorithms/018-Construct-Target-Array-With-Multiple-Sums/answer.py:73-109 | returns true exactly when target can be built from ones |
| ConstructTarget.GcdAll | quest/data-structures-and-algorithms/018-Construct-Target-Array-With-Multiple-Sums/answer.py:134 | reduce(gcd, target) is at least 1 and divides every element |
| ConstructTarget.CommonDivisor | quest/data-structures-and-algorithms/018-Construct-Target-Array-With-Multiple-Sums/answer.py:133-136 | no array built from ones has a common divisor above 1 of all its elements |
| ConstructTarget.GcdAboveOne | quest/data-structures-and-algorithms/018-Construct-Target-Array-With-Multiple-Sums/answer.py:133-136 | an array whose gcd is above 1 cannot be built |
| ConstructTarget.IsPossibleV3 | quest/data-structures-and-algorithms/018-Construct-Target-Array-With-Multiple-Sums/answer.py:125-160 | returns true exactly when target can be built from ones |
| ConstructTarget.SampleNineThreeFive | quest/data-structures-and-algorithms/018-Construct-Target-Array-With-Multiple-Sums/answer.py:169-173 | [9, 3, 5] can be built |
| ConstructTarget.SampleOnesAndTwo | quest/data-structures-and-algorithms/018-Construct-Target-Array-With-Multiple-Sums/answer.py:177-181 | [1, 1, 1, 2] cannot be built |
| ConstructTarget.SampleEightFive | quest/data-structures-and-algorithms/018-Construct-Target-Array-With-Multiple-Sums/answer.py:185-189 | [8, 5] can be built |
| ConstructTarget.SampleLarge | quest/data-structures-and-algorithms/018-Construct-Target-Array-With-Multiple-Sums/answer.py:193-196 | [1, 1000000000] can be built |
| KPairs.GridCovers | quest/data-structures-and-algorithms/017-Find-K-Pairs-with-Smallest-Sums/answer.py:60-62 | every index pair (i, j) of the two lists is generated by the nested loops |
| KPairs.GridAscending | quest/data-structures-and-algorithms/017-Find-K-Pairs-with-Smallest-Sums/answer.py:60-62 | the nested loops generate the pairs in row-major order, each once |
| KPairs.SortIncreasing | quest/data-structures-and-algorithms/017-Find-K-Pairs-with-Smallest-Sums/answer.py:65 | a stable sort by sum of the row-major pairs orders them by (sum, i, j), the order heapq gives (sum, i, j) tuples |
| KPairs.ByKeyFirst | quest/data-structures-and-algorithms/017-Find-K-Pairs-with-Smallest-Sums/answer.py:57-68 | the brute force's answer is exactly the first min(k, m*n) pairs in (sum, i, j) order, and every pair before a kept one is kept |
| KPairs.FirstUnique | quest/data-structures-and-algorithms/017-Find-K-Pairs-with-Smallest-Sums/answer.py:57-68 | there is only one such list of first pairs, so any method that produces one produces the brute force's answer |
| KPairs.FirstIsSmallest | quest/data-structures-and-algorithms/017-Find-K-Pairs-with-Smallest-Sums/answer.py:57-68 | the first pairs are min(k, m*n) distinct in-range pairs, and no pair left out has a smaller sum than any pair kept |
| KPairs.ByKeyAscending | quest/data-structures-and-algorithms/017-Find-K-Pairs-with-Smallest-Sums/answer.py:65-68 | the brute force's pairs have non-decreasing sums and are pairwise distinct |
| KPairs.KSmallestPairsBruteForce | quest/data-structures-and-algorithms/017-Find-K-Pairs-with-Smallest-Sums/answer.py:41-68 | the nested loops, the sort and the slice return the values of the brute force's first k pairs |
| KPairs.LeastExists | quest/data-structures-and-algorithms/017-Find-K-Pairs-with-Smallest-Sums/answer.py:32 | a non-empty heap has a least (sum, i, j) entry, the one heappop removes |
| KPairs.PopRanked | quest/data-structures-and-algorithms/017-Find-K-Pairs-with-Smallest-Sums/answer.py:31-37 | while both lists are ascending, popping the least entry extends the emitted pairs by the next pair in (sum, i, j) order, and refilling with (i, j+1) keeps that so |
| KPairs.PoppedCount | quest/data-structures-and-algorithms/017-Find-K-Pairs-with-Smallest-Sums/answer.py:31 | when the loop stops (empty heap or k pairs emitted), exactly min(k, m*n) pairs have been emitted |
| KPairs.PopPush | quest/data-structures-and-algorithms/017-Find-K-Pairs-with-Smallest-Sums/answer.py:32-37 | heappop removes a least entry; its pair is emitted; (i, j+1) is pushed exactly when j+1 < len(nums2); on ascending lists the emitted pairs stay the first in order |
| KPairs.PopPairs | quest/data-structures-and-algorithms/017-Find-K-Pairs-with-Smallest-Sums/answer.py:31-38 | the pop loop emits min(k, m*n) pairs; on ascending lists they are the brute force's first k pairs |
| KPairs.StartRows | quest/data-structures-and-algorithms/017-Find-K-Pairs-with-Smallest-Sums/answer.py:27-28 | the first r rows are seeded with (nums1[i] + nums2[0], i, 0) |
| KPairs.KSmallestPairs | quest/data-structures-and-algorithms/017-Find-K-Pairs-with-Smallest-Sums/answer.py:5-39 | returns min(k, m*n) pairs; when both lists are ascending they are the brute force's first k pairs |
| KPairs.KSmallestPairsOptimizedMinHeap | quest/data-structures-and-algorithms/017-Find-K-Pairs-with-Smallest-Sums/answer.py:109-141 | returns [] when a list is empty and min(k, m*n) pairs otherwise; when nums2 is ascending they are the brute force's first k pairs |
| KPairs.TopAt | quest/data-structures-and-algorithms/017-Find-K-Pairs-with-Smallest-Sums/answer.py:98-100 | max_heap[0] is an entry of largest sum among those held |
| KPairs.PushStep | quest/data-structures-and-algorithms/017-Find-K-Pairs-with-Smallest-Sums/answer.py:95-97 | while fewer than k pairs are held, pushing the current pair keeps the k smallest of the pairs seen |
| KPairs.ReplaceStep | quest/data-structures-and-algorithms/017-Find-K-Pairs-with-Smallest-Sums/answer.py:98-100 | heapreplace of the top by a pair of smaller sum keeps k pairs, and keeps them the k smallest seen |
| KPairs.BreakStep | quest/data-structures-and-algorithms/017-Find-K-Pairs-with-Smallest-Sums/answer.py:101-103 | when the current sum is not below the top's, on an ascending nums2 no later pair of the row can enter, so the break loses nothing |
| KPairs.ScanRow | quest/data-structures-and-algorithms/017-Find-K-Pairs-with-Smallest-Sums/answer.py:92-103 | one row of the inner loop keeps the heap at min(k, pairs seen) distinct pairs, the smallest seen when nums2 is ascending |
| KPairs.KSmallestPairsMaxHeap | quest/data-structures-and-algorithms/017-Find-K-Pairs-with-Smallest-Sums/answer.py:70-107 | returns min(k, m*n) pairs, the values of the held index pairs; when nums2 is ascending they are k distinct pairs with no smaller pair left out |
| KPairs.SampleSpread | quest/data-structures-and-algorithms/017-Find-K-Pairs-with-Smallest-Sums/answer.py:150 | the first 3 pairs of [1, 7, 11] and [2, 4, 6] are (0, 0), (0, 1), (0, 2) |
| KPairs.SampleTies | quest/data-structures-and-algorithms/017-Find-K-Pairs-with-Smallest-Sums/answer.py:151 | the first 2 pairs of [1, 1, 2] and [1, 2, 3] are (0, 0), (1, 0) |
| KPairs.SampleShort | quest/data-structures-and-algorithms/017-Find-K-Pairs-with-Smallest-Sums/answer.py:152 | with k = 3 beyond the 2 pairs of [1, 2] and [3], both pairs are returned |
| KPairs.SpreadRun | quest/data-structures-and-algorithms/017-Find-K-Pairs-with-Smallest-Sums/answer.py:150 | kSmallestPairs([1, 7, 11], [2, 4, 6], 3) returns [[1, 2], [1, 4], [1, 6]] |
| KPairs.TiesRun | quest/data-structures-and-algorithms/017-Find-K-Pairs-with-Smallest-Sums/answer.py:151 | the full min-heap on ([1, 1, 2], [1, 2, 3], 2) returns [[1, 1], [1, 1]] |
| KPairs.ShortRun | quest/data-structures-and-algorithms/017-Find-K-Pairs-with-Smallest-Sums/answer.py:152 | the brute force on ([1, 2], [3], 3) returns [[1, 3], [2, 3]] |
| CopyRandomList.Node.constructor | quest/data-structures-and-algorithms/029-Copy-List-with-Random-Pointer/answer.py:13-17 | Node(x) holds the value x with next and random None |
| CopyRandomList.ListClosed | quest/data-structures-and-algorithms/029-Copy-List-with-Random-Pointer/answer.py:30-41 | following next or random from any node of a well-formed list stays inside the list, so every dictionary lookup the loops make finds its key |
| CopyRandomList.RandomIff | quest/data-structures-and-algorithms/029-Copy-List-with-Random-Pointer/answer.py:39-40 | in a deep copy, the i-th copy's random is the j-th copy exactly when the i-th original's random is the j-th original |
| CopyRandomList.CopySymmetric | quest/data-structures-and-algorithms/029-Copy-List-with-Random-Pointer/answer.py:23-43 | the original list is in turn a deep copy of its copy |
| CopyRandomList.ImageIsCopy | quest/data-structures-and-algorithms/029-Copy-List-with-Random-Pointer/answer.py:43 | once every node has a new node whose next and random are the new nodes of the original's next and random, the new nodes in list order form a deep copy |
| CopyRandomList.SplitIsCopy | quest/data-structures-and-algorithms/029-Copy-List-with-Random-Pointer/answer.py:100-109 | separated copies that form their own list, are disjoint from the originals, keep the values and carry the randoms over are a deep copy |
| CopyRandomList.FirstPass | quest/data-structures-and-algorithms/029-Copy-List-with-Random-Pointer/answer.py:28-32 | the first loop maps every node to a fresh node with its value and no pointers, distinct originals to distinct new nodes |
| CopyRandomList.LinkTwoPass | quest/data-structures-and-algorithms/029-Copy-List-with-Random-Pointer/answer.py:37-40 | one step of the second loop sets the copy's next to the copy of curr.next (None stays None) and its random to the copy of curr.random, and touches no other node |
| CopyRandomList.SecondPass | quest/data-structures-and-algorithms/029-Copy-List-with-Random-Pointer/answer.py:35-41 | after the second loop every node's copy has the copies of its next and random; the original list is unchanged |
| CopyRandomList.CopyTwoPass | quest/data-structures-and-algorithms/029-Copy-List-with-Random-Pointer/answer.py:23-43 | None gives None; otherwise the result heads a list of fresh nodes, none an original, with the same values in order and each random pointing at the copy of the original's random |
| CopyRandomList.Clone | quest/data-structures-and-algorithms/029-Copy-List-with-Random-Pointer/answer.py:55-71 | clone(None) is None; a node already visited gives its recorded copy; otherwise a fresh copy is recorded and linked; entries already in visited are never changed |
| CopyRandomList.CloneNew | quest/data-structures-and-algorithms/029-Copy-List-with-Random-Pointer/answer.py:63-71 | for an unvisited node, records a fresh copy before recursing (so cycles through random end), then links its next and random to the clones of the original's |
| CopyRandomList.UnvisitedShrinks | quest/data-structures-and-algorithms/029-Copy-List-with-Random-Pointer/answer.py:60-65 | recording a new node in visited shrinks the set of unvisited nodes, so the recursion ends |
| CopyRandomList.CopyRecursive | quest/data-structures-and-algorithms/029-Copy-List-with-Random-Pointer/answer.py:48-73 | None gives None; otherwise clone(head) heads a deep copy of fresh nodes |
| CopyRandomList.Weave | quest/data-structures-and-algorithms/029-Copy-List-with-Random-Pointer/answer.py:85-90 | after the first loop each original is followed by a fresh copy with its value, and that copy by the original's old next |
| CopyRandomList.SetRandoms | quest/data-structures-and-algorithms/029-Copy-List-with-Random-Pointer/answer.py:93-97 | the second loop sets each copy's random to the node after the original's random, the copy of that node, and leaves None as None |
| CopyRandomList.Unweave | quest/data-structures-and-algorithms/029-Copy-List-with-Random-Pointer/answer.py:100-107 | the third loop restores every original's next and links the copies into their own list headed by head.next |
| CopyRandomList.CopyInterweaving | quest/data-structures-and-algorithms/029-Copy-List-with-Random-Pointer/answer.py:78-109 | None gives None; otherwise returns a deep copy of fresh nodes, and the original list's next pointers are as they were |
| CopyRandomList.GetCloned | quest/data-structures-and-algorithms/029-Copy-List-with-Random-Pointer/answer.py:120-127 | None gives None; a node already in old_to_new gives its entry; otherwise a fresh node with the same value is added; no existing entry changes |
| CopyRandomList.VisitOnePass | quest/data-structures-and-algorithms/029-Copy-List-with-Random-Pointer/answer.py:131-133 | one step links curr's copy to the copies of curr.next and curr.random, creating them on first sight, and changes no original |
| CopyRandomList.OnePassLoop | quest/data-structures-and-algorithms/029-Copy-List-with-Random-Pointer/answer.py:129-134 | after the loop every node is in old_to_new and its copy is linked to the copies of its next and random |
| CopyRandomList.CopyOnePass | quest/data-structures-and-algorithms/029-Copy-List-with-Random-Pointer/answer.py:114-136 | None gives None; otherwise old_to_new[head] heads a deep copy of fresh nodes |

## Left out

- LfuCache: the dict of per-count lists and OrderedDicts is modelled as a map from count to the sequence of the keys in it; hashing and the O(1) bounds are not modelled.
- LfuCache.LFUCache1: also stands for the submitted LFUCache class (lines 331-422), whose code is the same; its node map and per-count linked lists are modelled on values (a key's (val, freq) and each list's keys, newest first), and Node and DoublyLinkedList are verified as heap structures on their own, so the aliasing between key_to_node and the lists is not modelled.
- LfuCache.LFUCache1.Put, LfuCache.LFUCache2.Put: the field work is done by module-level methods (PutOn, UpdateFreqOn, EvictOn, InsertOn) that the class calls with its fields and assigns back; the statements are the same.
- LfuCache.LFUCache1, LfuCache.LFUCache2: the ghost timestamps that order each list or OrderedDict are the specification's; the source keeps no timestamps there.
- LfuCache: a negative capacity is excluded by the constructors' requires. With one, the first put on the empty cache takes the eviction path and raises: LFUCache_Solution1 and the submitted LFUCache raise KeyError at freq_to_list[min_freq] (answer.py:115, :411), since that dict is still empty; LFUCache_Solution2 raises KeyError from popitem on an empty OrderedDict (answer.py:189); LFUCache_Solution3 raises ValueError from min over no keys (answer.py:240). The raises are not modelled.
- ExclusiveTime.ExclusiveTime1, ExclusiveTime.ExclusiveTime2, ExclusiveTime.ExclusiveTime3, ExclusiveTime.ExclusiveTime4, ExclusiveTime.ExclusiveTime5: require the log to be the formatted events of a forest of properly nested calls on functions below n, the problem's guarantee. The step functions return None where the source would raise (an end with an empty stack, an id out of range, a malformed line), but the methods state nothing about such logs.
- ExclusiveTime: that exclusiveTime2 to 5 (and exclusiveTime) return the same vector follows from each one's postcondition naming the same ExclOf; there is no separate lemma.
- ExclusiveTime.ParseLog: Python's int() also accepts a sign, surrounding whitespace and underscores; the model reads plain decimal digits, which is all a formatted log holds.
- ExclusiveTime: each loop body is a method of its own (LineBody, PrevLine, ResumeLine, FrameLine) that the loop calls; the statements are the source's.
- ExclusiveTime.ExclusiveTime5: the parsed dicts with keys func_id, type and timestamp are Log records.
- ConstructTarget.IsPossible, ConstructTarget.IsPossibleOptimized, ConstructTarget.IsPossibleV3: require a nonempty target of positive numbers, the problem's constraints. On [] heappop raises IndexError. With a non-positive element the loop need not end: isPossible on [2, -5] comes back to the same heap forever.
- ConstructTarget: the heap is modelled by the target's positions. A heappop of the maximum followed by a heappush of its old value is written as replacing the maximum in place, which leaves the same contents; the heap's internal layout is not modelled.
- plusOne3 (library/0066-Plus-One/answer.py:29-34): converts the digits to a Python integer and back through strings; the model has no decimal string conversion.
- detectCapitalUse_v2 and _v4 (quest/data-structures-and-algorithms/019-Detect-Capital/answer.py:26-66): rely on str.istitle and regular expressions, which are not modelled.
- Masking Solution2 (quest/data-structures-and-algorithms/021-Masking-Personal-Information/answer.py:27-49): regular expressions are not modelled.
- Character classes: upper and lower case, and digits, are the ASCII ones; Python's Unicode-aware str.lower, str.isupper and str.isdigit also accept other letters and digits.
- FinalPrices.BruteForce: requires a non-empty list because the source reads prices[-1] after its loops, which raises on an empty list.
- RepeatedSubstring.Kmp: requires a non-empty string because the source reads lps[-1].
- RepeatedStringMatch.FloorTries: the source computes len(b) / len(a) in floating point; the model divides exactly, which agrees while the lengths are below 2^53.
- RepeatedStringMatch.CeilingTriesCorrect, RepeatedStringMatch.RangeTries and RepeatedStringMatch.FloorTries: require a non-empty a, since the source divides by len(a) and raises ZeroDivisionError otherwise.
- The `__main__` test drivers: printing only; their sample inputs appear as lemmas.
- Pascal: row counts are natural numbers; a negative numRows (outside the problem's range 1..30) is not modelled.
- Pascal.Recursive: requires numRows >= 1, because Solution4 only stops at 1 and recurses without end on 0.
- LicenseKey: k is required to be at least 1, the problem's own bound; with k = 0 Solution2, Solution4 and Solution5 raise ZeroDivisionError and Solution puts a dash before every character.
- LicenseKey.SampleOne and LicenseKey.SampleTwo: state the formatting of the samples' stripped keys; stripping the literal inputs is covered by StripConcat and CollectKey in general, not evaluated on the literals.
- Rpn: tokens arrive already classified as integer literals or one of the four operators; int(token) on a string and the ValueError for a malformed one are not modelled.
- Rpn: int(a / b) divides in floating point; the model divides exactly and truncates toward zero, which agrees with it for the 32-bit operands the problem allows.
- Rpn.InPlace: requires a token list on which no operator is short of operands and no division is by zero; on other lists evalRPN_v6 reads Python negative indices, which the model does not follow.
- Rpn.InPlace: says nothing about the array cells above the final stack; they hold whatever the loop last wrote there or the original tokens.
- Rpn.BackAgrees: the recursion and the stack loops are proved equal on well-formed expressions only; on malformed lists they can differ (["1", "2"] gives 2 recursively and 1 from the stack).
- evalRPN_v5: builds a Python expression string and calls eval; not modelled.
- ReverseList: each variant's list is described by a ghost sequence of its nodes; the variants are stated to rewire only next fields, and the reversed values follow from LinkedList.ValuesRev rather than from a postcondition of each method.
- OddEvenList: the variants are stated to rewire only next fields, so node values travel with their nodes; the regrouping is stated on the nodes (Chain over Split), not on a value sequence.
- RotatedSearch.FindPivot: requires a non-empty list; on an empty one the loop does not run and returns 0, which Solution2 then indexes (quest/.../040-Binary-Search-Search-in-Rotated-Sorted-Array/answer.py:69) and fails on.
- RotatedSearch.PivotThenSearch: requires a non-empty list; on an empty one Solution2 raises IndexError at nums[pivot]. The problem's inputs have at least one element.
- PeakIndex.MaxIndex: requires a non-empty list; max raises ValueError on an empty one.
- PeakIndex Solution4 (the golden-section search, quest/data-structures-and-algorithms/037-Binary-Search-Peak-Index-in-a-Mountain-Array/answer.py:74-92): its probe points are computed with the floating-point golden ratio, which the model does not follow.
- SumOfSquares.Fermat: proved equal to the prime-factor condition the solution's own docstring states; that this condition holds exactly for the sums of two squares (the two-squares theorem) is not proved.
- SumOfSquares: int(c ** 0.5) goes through floating point; the model takes the exact integer square root, which agrees with it for the problem's c below 2^31.
- LastStone.Heap: the heap is a multiset of weights; heapq's array layout and the negation trick only serve to pop the heaviest stone, which HeapPop states.
- LastStone.SortedInsert: takes the stones as a value; Solution3 sorts and pops the caller's own list in place, so the caller's list ends up holding the last stone or nothing, which the model does not track.
- LastStone.MaxAndPop: takes the stones as a value; Solution4 pops and appends on the caller's own list, which the model does not track.
- BuyTickets.Simulate: requires every count to be at least 1, as the problem states; a 0 ahead of person k would make the deque loop run forever, since the front count goes negative and is never removed.
- BuyTickets.Rounds: requires every count to be at least 1; with tickets[k] == 0 timeRequiredToBuy3 returns 0 while the closed form counts the people behind k negatively.
- Lunch.Counting: requires preferences and sandwiches of 0 or 1, as the problem states; countStudents counts every non-0 student as wanting a square sandwich, so with other values it can differ from the serving rule.
- DivisibleByP: every member requires p > 0, as the problem states; p = 0 raises ZeroDivisionError at total % p, and a negative p is not modelled.
- FairArray.PrefixArrays: requires a non-empty list, because Solution3 reads prefix_even[-1], which raises IndexError on an empty list.
- Reduction.Counting: requires a non-empty list, because Solution2 calls max(nums), which raises ValueError on an empty list.
- Reduction: Solution and Solution4 sort the caller's list in place with nums.sort(); the model takes the list as a value, sorts a copy, and does not show the caller's list reordered.
- FirstMissing.SortThenScan: takes the list as a value and sorts a copy, so it does not show Solution4's nums.sort() reordering the caller's list.
- MergeIntervals.Merge, MergeIntervals.MergeLex and MergeIntervals.MergeFromEmpty: require start <= end for every interval, as the problem guarantees of its input.
- MergeIntervals: intervals are pairs of values; the sorts of the caller's list and Solution's writes through last_merged into the caller's own inner lists are not modelled.
- MergeIntervals.UnionFindMerge: proves that the output spans every input, keeps overlapping inputs together and uses only input end points, which is weaker than the merge property proved of the other variants.
- MinAbsDifference.Counting and MinAbsDifference.BruteForce: require distinct values, as the problem guarantees; with repeats the counting sort drops them and Solution3 keeps zero-gap pairs.
- MinAbsDifference: the sorts are taken on a copy; arr.sort() reordering the caller's list is not modelled. The samples [1, 3, 6, 10, 15] and [3, 8, -10, 23, 19, -4, -14, 27] are covered by AnswerMeaning, not evaluated as literals.
- RemoveDuplicates.Recursive: Solution2 keeps the last node of every run, so for [1, 1, 2] it returns the second node rather than head; the values agree with the other variants (LastOfRunValues).
- RemoveDuplicates.SeenSet: on an unsorted list Solution4 keeps the first occurrence of every value, which differs from the other variants; the model states that and proves the variants agree on sorted lists.
- RemoveDuplicates.SkipNext, RemoveDuplicates.TrailingPointer and RemoveDuplicates.SeenSet: take the node values and the keep mask as ghost parameters, tied to the nodes by RunStartsMarks and FirstSeenMarks.
- Histogram.OnePass, Histogram.FirstPass, Histogram.SecondPass and Histogram.TwoPass: require bars of height at least 0, as the problem states; with a negative bar the 0 padding bars would be popped and the stacks' shapes would not hold.
- Histogram.TwoPass: requires at least one bar, because largestRectangleArea ends with max(result), which raises ValueError on an empty list.
- StackQueue: pop and peek on an empty queue raise IndexError in Python (MyQueue4's peek excepted); the model returns None.
- RandomizedSets: getRandom (random.choice over the values or the set) draws from the random module; the model has no randomness and leaves it out.
- RandomizedSets.SetOnly: Method2's getRandom converts the set to a list first; left out with the other getRandom variants.
- KthLargestStream: heapq's array layout is not modelled; the heap is the ascending list of its values, and heappush and heappop are insertion into it and removal of its first value.
- KthLargestStream: every constructor requires k >= 1, the problem's own bound. With k = 0 the variants part ways: KthLargest_Sorting and KthLargest_BinarySearch read the last element through the negative index k - 1 (answer.py:54, :76); KthLargest pops the heap empty on every add and raises IndexError at min_heap[0] (answer.py:34); KthLargest_TopK truncates its list to [] and raises IndexError at nums[k - 1], that is nums[-1] (answer.py:102). None of these is modelled.
- KthLargestStream.SortingKth.constructor: KthLargest_Sorting keeps a reference to the caller's nums and sorts it in place on every add; the model holds its own list and does not show the caller's list changing.
- KthLargest_MaxHeap (quest/system-and-software-design/003-Data-Stream-Processing-Kth-Largest-Element-in-a-Stream/answer.py:116-139): returns float('-inf') when fewer than k values are held, mixing float and int results; not modelled.
- StreamOfCharacters.StreamChecker2.constructor, StreamChecker4.constructor: require at least one word, because max() over no lengths raises ValueError; the raise is not modelled.
- StreamOfCharacters: the empty word matches every stream in StreamChecker (its root carries the '#' mark), but StreamChecker2 to StreamChecker4 test only non-empty suffixes; the contracts state each as written.
- StreamOfCharacters: a trie of nested dicts is modelled by its set of paths and its set of marked paths; dict identity, and the letter '#' or 'is_word' colliding with the marker key, are not modelled.
- StreamOfCharacters: test_stream_checker (answer.py:204-217) is a driver with printed output and is not modelled; the counterexample for StreamChecker4 stands in for its expectations.
- StreamOfCharacters: the Aho-Corasick failure links announced for StreamChecker4 (answer.py:175) are never built, and the model has none.
- DisjointIntervals.SummaryRanges: the SortedDict is modelled as its items in key order, a sorted list of intervals; its logarithmic cost is not modelled.
- DisjointIntervals.SortedElements: Python's library sort is modelled by its result, taken by repeatedly choosing the least remaining element; the sorting algorithm itself is not modelled.
- DisjointIntervals.SummaryRanges3.GetIntervals: returns the internal list itself in the source, so a caller could alias and mutate it; the model returns a value.
- DisjointIntervals.SampleRun: checks only the final output of the sample driver, not the four intermediate prints.
- LruCache: OrderedDict and dict are modelled as the sequence of their items in order; hashing and the O(1) bounds are not modelled.
- LruCache.DLinkedNode: also stands for LRUCache4's Node, whose fields are the same under the name val; the sentinels' default key 0 plays no part.
- LruCache.LRUCache2.Put: the list and map work is done by module-level methods that the class calls, with the class's fields passed in and assigned back; the statements are the same.
- LruCache.LRUCache4.Put: likewise done by ReplaceNode, Detach, InsertRight and EvictLeft at module level.
- LruCache: that all four versions behave alike on any sequence of calls follows from each one's get and put being proved against the same Touch, Lookup and Store; there is no separate lemma over call sequences.
- KPairs: heapq's array layout is not modelled. The min-heap is the set of its (sum, i, j) entries, which are distinct because each (i, j) is pushed once, and heappop takes a least one.
- KPairs.KSmallestPairsMaxHeap: the result is in the model's order of the held pairs, not heapq's array order; its contract is the set property (k smallest, distinct), which is all the source promises (answer.py:105).
- KPairs: k is a nat; a negative k is not modelled.
- KPairs.KSmallestPairsBruteForce: the sorted entries carry index pairs in place of the value pairs, so equal-valued pairs keep their generation order as Python's stable sort keeps them.
- KPairs.KSmallestPairs: requires a non-empty nums2 when nums1 is non-empty and k > 0, because the seeding reads nums2[0], which raises IndexError. The problem's inputs are non-empty.
- KPairs.KSmallestPairsMaxHeap: requires k > 0 when there are pairs, because with k = 0 the first comparison reads max_heap[0] of an empty heap, which raises IndexError.
- KPairs.KSmallestPairs, KPairs.KSmallestPairsOptimizedMinHeap, KPairs.KSmallestPairsMaxHeap: the first-k correctness holds for ascending inputs, as the problem promises; on unsorted inputs only the count is stated.
- CopyRandomList: each variant's list is described by a ghost sequence of its nodes, and every variant requires a well-formed list (distinct nodes ending in None, each random None or a node of the list), as the problem guarantees; on a list with a cycle through next the source's loops do not end.
- CopyRandomList: the Python dicts old_to_new and visited are maps keyed by node identity, passed in and returned rather than captured by the nested functions; hashing is not modelled.
- CopyRandomList.CopyRecursive: the depth of Python's recursion (up to one frame per node, so RecursionError on long lists) is not modelled.
- CopyRandomList.CopyInterweaving: states the caller's list is restored when the method returns; the temporary woven list is visible only inside the method, and other references callers may hold into the list are not modelled.

## Findings

| source | as written | input that shows it | evidently intended | confidence | as-written member | corrected member |
|---|---|---|---|---|---|---|
| library/0066-Plus-One/answer.py:40-50 | when the carry runs past the first digit, add_one returns [1] alone and the zeros are lost | [9] gives [1] | [1, 0]: a 1 in front of the zeros | high (not executed) | PlusOne.RecursiveAsWrittenLosesZeros | PlusOne.IncrementCorrect |
| quest/data-structures-and-algorithms/011-Daily-Temperatures/answer.py:70 | min is taken over next_warmer[current_temp + 1:] even when that slice is empty | temperatures [100]: next_warmer[101:] is empty and min raises ValueError | answer 0 for that day, since no warmer temperature exists | high (not executed) | DailyTemperatures.TopTemperatureRaises | DailyTemperatures.TableScan |
| library/0118-Pascals-Triangle/answer.py:132 | Solution5 starts from [[1]] whatever numRows is | numRows = 0 gives [[1]] | [] (no rows) as Solution2 returns | high (not executed) | Pascal.ZippedZeroRows | Pascal.GenerateFromLast |
| quest/data-structures-and-algorithms/013-Number-of-Students-Unable-to-Eat-Lunch/answer.py:129-131 | the stop test skipped == remaining is made after a student was served too, when the skipped students are all those remaining after the one served | students [1, 0], sandwiches [0, 1]: student 0 is skipped, student 1 served, skipped 1 == remaining 1 stops with 1 | stop only when nobody took the sandwich, giving 0 | high (not executed) | Lunch.OptimizedCounterexample | Lunch.Optimized |
| quest/data-structures-and-algorithms/013-Number-of-Students-Unable-to-Eat-Lunch/answer.py:147-149 | students[i:] looks only at the students from position i on, as if student i always ate sandwich i | students [0, 1], sandwiches [1, 0]: students[0:] has a 1 and students[1:] = [1] has no 0, returns 1 | count the sandwiches left once no remaining student wants the top one, giving 0 | high (not executed) | Lunch.OneLinerCounterexample | Lunch.Counting |
| quest/data-structures-and-algorithms/036-Sorting-Merge-Intervals/answer.py:140 | Solution4 puts each end event at end + 1, so an interval ending at e and one starting at e + 1 are joined | [[1, 2], [3, 4]] gives [[1, 4]] | [[1, 2], [3, 4]]: the two share no point | high (not executed) | MergeIntervals.SweepJoinsApart | MergeIntervals.Merge |
| quest/system-and-software-design/004-Data-Stream-Processing-Stream-of-Characters/answer.py:187-197 | StreamChecker4 stores the words forward but walks the trie from the newest letter back, so it matches reversed words | words ["cd"], queries 'c' then 'd': the walk reads "dc", which is not in the trie, and returns False | True: "cd" ends the stream; store the words reversed as StreamChecker does | high (not executed) | StreamOfCharacters.Checker4MissesWord | StreamOfCharacters.StreamChecker4Fixed.Query |
