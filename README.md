# Verified model of a JavaScript DSA practice collection

This project models the algorithm snippets of a JavaScript collection of
introductory data-structure-and-algorithm exercises. The snippets are:

- **Digit routines** (`Basic/`): counting the digits of an integer
  (`countDigit`), checking whether a number is a decimal palindrome
  (`checkPalindrom`), and reversing the digits of a signed integer with a
  signed 32-bit overflow check that returns 0 (`reverse`).
- **Order statistics** (`Basic/`): the largest element (`largest`) and the
  second largest element (`secondLargestNumber`), both as running-register
  scans.
- **The complexity notes** (`timeAndSapceComplexicity.js`):
  - binary and linear search;
  - binary exponentiation;
  - linear scans (`findMax`, `sumArray`, `doubleElements`);
  - reversal of an array and of a string;
  - merge sort, quicksort (Lomuto partition), bubble sort and selection sort;
  - brute-force and set-based pair search;
  - three Fibonacci variants (naive, memoised, iterative);
  - backtracking generators for all subsets and all permutations;
  - plain and tail-recursive sums.

Each JavaScript file, or section of the complexity notes, is one Dafny module:

| module | file | what it holds |
|---|---|---|
| `Common` | common.dfy | `Option`, `Sorted`, `IsMaximum`, `Pow`, `Sum`, `Swap` |
| `DecimalDigits` | digits.dfy | the meaning of the `% 10` / `/ 10` loops: `Digits`, `Value`, `Rev`, `RevDigits` |
| `NumberCount`, `NumberIsPalindrom`, `ReverseANumber`, `LargestNumber`, `SecondLargestNumber` | one file each | the `Basic/` files |
| `Searching`, `LinearScans`, `Reversal`, `Recursion`, `Fibonacci` | one file each | sections of the complexity notes |
| `MergeSort`, `QuickSort`, `SimpleSorts`, `Pairs`, `Subsets`, `Permutations` | one file each | sections of the complexity notes |

How the JavaScript is rendered in Dafny:

- **Loops become methods.** Each loop is a `method` with loop invariants.
  It is proved against a specification function, or against a property
  stated outright: maximum, found index, sorted plus permutation.
- **In-place algorithms keep the `array`.** The in-place sorts (quick,
  bubble, selection), the partition and the array reversal work on an
  `array` with `modifies` clauses. Merge sort builds new arrays, so
  `MergeSort` is a function on `seq`.
- **Recursive helpers that mutate shared state become classes.** The
  `backtrack` closures of the generators mutate a shared `current` list and
  push onto `result`. They become `SubsetBuilder` and `PermutationBuilder`,
  with `seq` fields.
- **The memo object becomes a class.** The one that `fibonacciMemo` threads
  through its calls is the class `Memo` with a `map` field.
- **Pure recursion stays as functions.** `power`, `fibonacciBad`,
  `recursiveSum`, `tailRecursiveSum` and `mergeSort` are functions with
  lemmas about them.

JavaScript numbers are modelled as unbounded integers. Two sentinels are
explicit:

- The `-Infinity` seeds of `secondLargestNumber` are the datatype
  `ExtInt = NegInf | Fin(v)`.
- The `undefined` that `largest`/`findMax` return on an empty array is
  `Option.None`.

The 32-bit range check of `reverse` is written out with the constants
`INT32_MIN = -2^31` and `INT32_MAX = 2^31 - 1`.

The model follows the code in its edge cases:

- **Duplicated maximum.** A second copy of the maximum is not greater than
  `max`, but the `else if (arr[i] > secondmax)` branch takes it, so `[5, 5]`
  gives 5. `SecondLargestNumber.DuplicateMaximum` and
  `SecondLargestNumber.SecondLargestExamples` state this behaviour.
- **Error channels.** Empty inputs and the overflow sentinel 0 are modelled
  as the code returns them: `None`/`NegInf` and 0. They are not rejected or
  tagged.

## Model

| member | source | states |
|---|---|---|
| NumberCount.CountDigit | Basic/numberCount.js:13-35 | 0 has one digit. For any other integer the count is the length of the digit sequence of its absolute value, so `10^(count-1) <= abs(num) < 10^count`. |
| NumberCount.DigitCountExamples | Basic/numberCount.js:7-9 | The documented counts: 67256373 has 8 digits, -94343 has 5. The third documented case, 0, is the zero case of `CountDigit`. |
| DecimalDigits.Digits | Basic/numberCount.js:25-32 | The digit sequence produced by repeated `% 10` and truncating `/ 10` has entries below 10 and no leading zero. It is empty exactly for 0. |
| DecimalDigits.ValueOfDigits | Basic/reverseANumber.js:7-11 | Reading the peeled digits back gives the number: the digit loop loses nothing. |
| DecimalDigits.DigitsOfValue | Basic/reverseANumber.js:7-11 | A canonical digit sequence is the digit sequence of the number it denotes. This is the converse of ValueOfDigits. |
| DecimalDigits.DigitsBounds | Basic/numberCount.js:25-32 | A positive number with `c` digits lies in `[10^(c-1), 10^c)`. |
| DecimalDigits.RevDigitsTwice | Basic/reverseANumber.js:7-11 | Reversing the digits twice restores a number without a trailing zero. |
| DecimalDigits.RevDigitsPositive | Basic/reverseANumber.js:7-11 | The digit reversal of a positive number is positive. |
| DecimalDigits.PalindromeDigits | Basic/numberIsPalindrom.js:21-27 | A number equals its digit reversal if and only if its digit sequence reads the same both ways. |
| DecimalDigits.RevDigitsAtLeast | Basic/reverseANumber.js:7-11 | A `c`-digit number whose last digit is `d` reverses to at least `d * 10^(c-1)`. |
| NumberIsPalindrom.CheckPalindrom | Basic/numberIsPalindrom.js:11-28 | A negative number gives false. Otherwise the result is true exactly when the digit reversal equals the number. |
| NumberIsPalindrom.CheckPalindromMeaning | Basic/numberIsPalindrom.js:11-28 | The method's criterion is equivalent to "the decimal digit sequence is a palindrome", in both directions. |
| NumberIsPalindrom.SingleDigitPalindrome | Basic/numberIsPalindrom.js:21-27 | Every number from 0 to 9 is its own reversal. |
| NumberIsPalindrom.PalindromeExamples | Basic/numberIsPalindrom.js:1-30 | The documented examples: 121 is a palindrome, 10 is not. The demo input 101 is a palindrome, as the demo comment says. |
| ReverseANumber.ReverseInt32 | Basic/reverseANumber.js:1-22 | The result always lies in the signed 32-bit range. A non-zero result has the sign of the input. |
| ReverseANumber.Reverse | Basic/reverseANumber.js:1-22 | The loop with sign handling and range check returns `ReverseInt32(x)`: the sign-restored digit reversal, or 0 outside `[-2^31, 2^31-1]`. |
| ReverseANumber.ReverseKeepsSign | Basic/reverseANumber.js:2-21 | Without overflow the result is exactly `sign * reverse(abs(x))`, and positive and negative inputs keep their sign. |
| ReverseANumber.ReverseTwice | Basic/reverseANumber.js:1-22 | Reversing twice gives back a 32-bit input that has no trailing zero and does not overflow. |
| ReverseANumber.RevDigitsExamples | Basic/reverseANumber.js:7-11 | 123 reverses to 321, and 120 to 21 (the trailing zero vanishes). |
| ReverseANumber.ReverseExamples | Basic/reverseANumber.js:1-22 | `reverse(123) = 321`, `reverse(-123) = -321`, `reverse(120) = 21`, `reverse(0) = 0`. |
| ReverseANumber.ReverseOverflowExample | Basic/reverseANumber.js:17-19 | 1534236469 reverses past `2^31 - 1`, so the result is 0. |
| LargestNumber.Largest | Basic/LargestNumber.js:1-9 | The result is `None` exactly for the empty array. Otherwise it is an element of the array that no element exceeds. |
| LargestNumber.LargestExample | Basic/LargestNumber.js:11-12 | The maximum of `[2, 1, 10, 33, 32, 22, 7]` is 33. |
| Common.Swap | timeAndSapceComplexicity.js:313 | The destructuring swap exchanges the two cells, leaves every other cell alone and keeps the multiset of the array. It is the swap of `partition` and `selectionSort` (lines 313, 317 and 380). |
| Common.MaximumUnique | Basic/LargestNumber.js:1-9 | The maximum of a sequence is unique, so the scan's answer is determined. |
| SecondLargestNumber.SecondLargest | Basic/secondLargestNumber.js:3-17 | Fewer than two elements give negative infinity. Otherwise the result is finite and is the second largest counting duplicates: a maximum sits at one position, and the result sits at another and bounds every other element. |
| SecondLargestNumber.SecondBelowMax | Basic/secondLargestNumber.js:7-13 | The second largest never exceeds any upper bound of the array, in particular the maximum. |
| SecondLargestNumber.SecondLargestUnique | Basic/secondLargestNumber.js:3-17 | The second largest element is unique. |
| SecondLargestNumber.DuplicateMaximum | Basic/secondLargestNumber.js:11-13 | A maximum that occurs twice is the second largest. |
| SecondLargestNumber.SecondLargestExamples | Basic/secondLargestNumber.js:19-23 | The demo input gives 44. `[5, 5]` gives 5. |
| Searching.BinarySearch | timeAndSapceComplexicity.js:110-131 | A returned index holds the target. On an ascending array, -1 means the target does not occur. |
| Searching.LinearSearch | timeAndSapceComplexicity.js:173-183 | The result is the first index holding the target, and it is -1 exactly when the target is absent. |
| LinearScans.FindMax | timeAndSapceComplexicity.js:186-197 | Same contract as `largest`: `None` exactly on the empty array, otherwise the maximum. |
| LinearScans.SumArray | timeAndSapceComplexicity.js:200-208 | The accumulated sum equals the sum of the elements. |
| LinearScans.DoubleElements | timeAndSapceComplexicity.js:211-220 | The new list has the same length, holds each element doubled, and its sum is twice the original sum. |
| LinearScans.SumScaled | timeAndSapceComplexicity.js:211-220 | A pointwise doubled sequence sums to twice as much. |
| Reversal.ReverseArray | timeAndSapceComplexicity.js:223-237 | After swapping the outermost unswapped cells until the two indices meet, position `k` holds what position `n-1-k` held. |
| Reversal.ReverseString | timeAndSapceComplexicity.js:630-643 | The result has the same length, and character `k` is character `n-1-k` of the input. |
| Reversal.ReverseStringTwice | timeAndSapceComplexicity.js:630-643 | Reversing a string twice gives it back. |
| Recursion.Power | timeAndSapceComplexicity.js:134-147 | Binary exponentiation never gives a negative result for a non-negative base or an even exponent. |
| Recursion.PowerIsPow | timeAndSapceComplexicity.js:134-147 | Binary exponentiation equals `base` multiplied by itself `exponent` times, for every natural exponent. |
| Recursion.PowAdd | timeAndSapceComplexicity.js:138-140 | `b^(m+n) = b^m * b^n`, the identity that makes squaring the half power correct. |
| Recursion.RecursiveSum | timeAndSapceComplexicity.js:664-682 | The recursive sum is never negative, and for positive `n` it is at least `n`. |
| Recursion.TailRecursiveSum | timeAndSapceComplexicity.js:685-691 | The tail-recursive sum never falls below its accumulator, and for positive `n` it adds at least `n`. |
| Recursion.TailSumIsRecursiveSum | timeAndSapceComplexicity.js:685-691 | The tail-recursive sum adds `recursiveSum(n)` onto its accumulator. |
| Recursion.SumFormula | timeAndSapceComplexicity.js:664-691 | `2 * recursiveSum(n) = n(n+1)` for `n >= 0`, it is 0 for `n < 0`, and `tailRecursiveSum(n)` with the default accumulator agrees. |
| Fibonacci.FibonacciBad | timeAndSapceComplexicity.js:450-458 | Fibonacci numbers of non-negative arguments are non-negative, and from `n = 1` on they are at least 1. |
| Fibonacci.FibonacciMemo | timeAndSapceComplexicity.js:474-483 | With a memo whose entries are Fibonacci numbers, the result is `fibonacciBad(n)`. The memo stays consistent, gains `n` when `n > 1`, and keeps its old keys. Every key it gains lies between 2 and `n`. |
| Fibonacci.FibonacciMemoFresh | timeAndSapceComplexicity.js:474-483 | The default call with an empty memo returns `fibonacciBad(n)`. |
| Fibonacci.FibonacciIterative | timeAndSapceComplexicity.js:486-499 | The two-register loop returns `fibonacciBad(n)` for every `n`, negative `n` included. |
| MergeSort.MergedPermutation | timeAndSapceComplexicity.js:278-291 | Merging loses and invents nothing: the result's multiset is the union of the two inputs' multisets. |
| MergeSort.MergedSorted | timeAndSapceComplexicity.js:278-291 | Merging two ascending lists gives an ascending list, which starts with one of the two heads. |
| MergeSort.Merge | timeAndSapceComplexicity.js:278-291 | The loop plus the appended leftovers equals the merge of the two lists, ties taken from the left. |
| MergeSort.MergeSort | timeAndSapceComplexicity.js:262-276 | The result is ascending and a permutation of the input. |
| QuickSort.Partition | timeAndSapceComplexicity.js:306-319 | The pivot `arr[high]` ends at the returned index. Cells before it are smaller, cells after it up to `high` are not. Nothing outside `[low, high]` changes, and the elements are a permutation of the old ones. |
| QuickSort.QuickSort | timeAndSapceComplexicity.js:294-304 | `arr[low..high]` becomes ascending, the array is a permutation of the old one, and cells outside `[low, high]` are unchanged. |
| QuickSort.Sort | timeAndSapceComplexicity.js:294-300 | The default call sorts the whole array in place, as a permutation. |
| QuickSort.QuickSortStep | timeAndSapceComplexicity.js:295-299 | Partitioning and then sorting both sides in place sorts the segment and changes nothing else. |
| SimpleSorts.BubbleSort | timeAndSapceComplexicity.js:351-365 | The array ends ascending and is a permutation of the original. |
| SimpleSorts.BubblePass | timeAndSapceComplexicity.js:355-359 | One inner pass leaves the largest element of `arr[0..limit)` at `limit-1`. It keeps the array's elements and leaves the cells from `limit` on untouched. If every prefix element was at most every later one, that still holds, so the sorted suffix of the outer loop grows by one cell. |
| SimpleSorts.SelectionSort | timeAndSapceComplexicity.js:368-385 | The array ends ascending and is a permutation of the original. |
| Pairs.FindPairsWithSum | timeAndSapceComplexicity.js:388-401 | A pair is in the result if and only if it is `(arr[i], arr[j])` for some `i < j` with `arr[i] + arr[j] = target`. |
| Pairs.FindPairsOptimized | timeAndSapceComplexicity.js:404-422 | The set-based single pass yields exactly the same pairs as the brute-force search, in both directions. |
| Subsets.SubsetsFromCount | timeAndSapceComplexicity.js:505-518 | Backtracking from `index` pushes `2^(n-index)` lists. |
| Subsets.SubsetsFromSound | timeAndSapceComplexicity.js:505-518 | Every pushed list is `current` followed by an order-preserving selection of `arr[index..]`. |
| Subsets.SubsetsFromComplete | timeAndSapceComplexicity.js:505-518 | Every order-preserving selection of `arr[index..]`, after `current`, is pushed. |
| Subsets.SubsetBuilder.Backtrack | timeAndSapceComplexicity.js:505-518 | After `backtrack`, `current` is restored and `result` is extended by exactly the lists of `SubsetsFrom`. |
| Subsets.GenerateSubsets | timeAndSapceComplexicity.js:502-526 | The result is exactly the backtracking enumeration `SubsetsFrom(arr, 0, [])`: one list per include/exclude mask, in the source's order. So there are `2^n` results, and a list is one of them if and only if it is a selection of `arr` in order. |
| Permutations.RemoveAt | timeAndSapceComplexicity.js:563-566 | Dropping position `i` shortens the list by one and removes exactly one copy of `remaining[i]`. |
| Permutations.PermsArePermutations | timeAndSapceComplexicity.js:554-571 | Every pushed list is a permutation of `current` together with `remaining`. |
| Permutations.PermsComplete | timeAndSapceComplexicity.js:554-571 | Every list that is `current` followed by a permutation of `remaining` is pushed. |
| Permutations.PermsCount | timeAndSapceComplexicity.js:554-571 | Backtracking over `n` remaining elements pushes `n!` lists. |
| Permutations.PermsUpToCount | timeAndSapceComplexicity.js:560-570 | The first `i` rounds of the loop push `i * (n-1)!` lists. |
| Permutations.PermutationBuilder.Backtrack | timeAndSapceComplexicity.js:554-571 | After `backtrack`, `current` is restored and `result` is extended by exactly the lists of `Perms`. |
| Permutations.GeneratePermutations | timeAndSapceComplexicity.js:551-578 | The result is exactly the backtracking enumeration `Perms([], arr)`, in the source's order. So there are `n!` results, and a list is one of them if and only if it is a permutation of `arr`. |

## Left out

- **Number representation.** JavaScript numbers are IEEE doubles. The model
  uses unbounded integers, so non-integer inputs, `NaN`, loss of precision
  above `2^53`, and the `Math.trunc`/`Math.floor` difference for fractions
  are not modelled. On the non-negative integers the loops reach,
  `Math.trunc`, `Math.floor` and Dafny's `/` coincide.
- **Console output and demo calls.** The `console.log` calls and the
  top-level demo calls are left out. The example lemmas or the method
  contracts state the results of the demo inputs and of the documented
  examples. `countDigit(0) → 1` is the zero case of `CountDigit`, and
  `checkPalindrom(-121) → false` is the negative case of `CheckPalindrom`.
- **`tspBruteForce`** is not part of this model. It runs over every route
  that `permutations` produces and returns the length of the shortest round
  trip. The model covers the enumeration it relies on
  (`Permutations.GeneratePermutations`) but not the minimum over routes or
  the route lengths.
- **`createMatrix`** is not part of this model. It only allocates an
  `n`-by-`n` matrix filled with zeros to illustrate quadratic space.
- **Other snippets.** `constantTimeExamples`, `swapNumbers` and `cloneArray`
  are not part of this model. They are illustrations with no behaviour
  beyond a copy or a constant-size computation. The remaining sections of
  the complexity notes are comments only.
- **Aliasing of returned arrays.** The in-place sorts (quick, bubble,
  selection) and `reverseArray` return the same array object they were
  given. The model's methods return nothing and state the new contents of
  the array instead.
- **`Searching.BinarySearch`** does not require a sorted array, just as the
  source does not check it. The "absent" half of the contract is stated
  only for ascending arrays. On an unsorted array a -1 result means nothing.
- **`QuickSort.QuickSort`** requires `0 <= low` and `high < arr.Length`
  whenever `low < high`. Out-of-range bounds make the source read
  `undefined` cells, which the model does not represent. When `low >= high`
  the call does nothing, for any bounds.
- **`Recursion.PowerIsPow`** is stated for natural exponents. For a negative
  or fractional exponent the source recurses without end.
- **`Pairs.FindPairsWithSum`** states which pairs occur, not their order or
  how often each is listed.
- **`Pairs.FindPairsOptimized`** likewise states which pairs occur, not
  their order or multiplicity. The set-based version lists a pair once per
  later position, not once per pair of positions.
- **`Reversal.ReverseString`**: strings are modelled as sequences of Unicode
  code points (Dafny `char`), not UTF-16 code units. A character outside the
  Basic Multilingual Plane is kept whole. The source's `split('')` splits it
  into its surrogate pair and reverses the two halves.
- **`SecondLargestNumber.SecondLargest`**: the loop counter `i` is an
  undeclared global in the source. The model gives it loop scope.
- **Time and space claims.** The O(...) claims in the comments are not
  modelled: logarithmic steps, the O(1) lookups of `Set`, and the
  quicksort worst case.
