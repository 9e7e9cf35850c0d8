# Kaprekar's constant, modelled in Dafny

The repository demonstrates Kaprekar's routine on four-digit numbers. One step
takes the decimal text of a value, sorts its digits ascending and descending,
reads both arrangements back as numbers and subtracts the smaller from the
larger. The search repeats the step on each difference. It stops when a
difference has the same digits as the value it came from (6174 is the fixed
point), or when a safety counter of 30 steps runs out. It returns the lines of
a printed trace.

The model follows `typescript/KaprekarsConstant.ts`. `KaprekarsConstant.js`
holds the same five functions with the same bodies at lines 42-70, 80-86,
100-112, 125-143 and 153-174, so one model covers both files.

Three modules:

- `Decimal` (decimal.dfy) models the JavaScript text operations on
  non-negative integers: `toString()` (`ToDecimal`), `split('').map(Number)`
  (`Digits`), `join('')` (`Join`) and `parseInt(s, 10)` on digit text
  (`ParseInt`). It proves the round trips between them.
- `DigitSort` (digit_sort.dfy) models the two comparator sorts of a digit
  array, as insertion sorts. It proves that each result is sorted and a
  permutation of its input, and that a multiset of digits has only one
  ascending and only one descending arrangement. So any correct sort gives
  the same result. It also proves that the ascending arrangement reads as
  the smallest number and the descending one as the largest.
- `KaprekarsConstant` (kaprekars_constant.dfy) holds the five functions of
  the source:
  - `calculateOrdinalDifference` and `haveSameDigits` are pure functions.
  - `ensure4DigitString` is a method with the source's padding loop.
  - `oneResult` is a pure function giving the four display lines. The
    descending line is written behind seven spaces, the other two behind
    five spaces and a sign.
  - `seekKaprekarsConstant` is a method with the source's `while` loop and
    safety counter. It is proved equal to `Trace(Iterate(startValue, 30))`.
    `Iterate` is the search as a recursive function.

The search itself is `Search`, a recursive function generic in the step and
the stopping test. `IsSearchRun` describes what the loop guarantees:
- the steps form a chain;
- only the last step may match;
- the search is found exactly when the last step matches;
- it is exhausted only after all 30 steps;
- it fails only at a refused value.

`SearchIsSearchRun` and `SearchRunIsSearch` prove that `Search` meets this
description and is the only run that does.

The model follows the code where the code and its header comment differ.
The code pads numbers only for display. A difference below 1000 is passed
unpadded to the next step, and that step throws the range error. So a start
such as 1000 (difference 999) or 1111 (difference 0) ends in the error rather
than at 6174 (`IterateFrom1000`, `IterateFrom1111`). The header comment's
promise that every four-digit number with two distinct digits reaches 6174 is
therefore not a property of this code.

A thrown `Error` is an `Err` result carrying its message. When a step throws
inside `seekKaprekarsConstant`, the method returns that `Err`, and the lines
built so far are lost, as they are with the exception.

## Model

| member | source | states |
|---|---|---|
| `Decimal.Digits` | typescript/KaprekarsConstant.ts:43-46 | `split('').map(Number)` of digit text gives one digit per character; `DigitsJoin` and `SplitToDecimal` state which digits |
| `Decimal.Join` | typescript/KaprekarsConstant.ts:47-54 | `join('')` of a digit array is digit text with one character per digit; `DigitsJoin` and `JoinInjective` state that it loses nothing |
| `Decimal.ValueOf` | typescript/KaprekarsConstant.ts:56-57 | a sequence of `k` digits reads as a number below ten to the `k`; `ValueOfCons` and `ValueOfDigitsOf` state its value |
| `Decimal.ParseInt` | typescript/KaprekarsConstant.ts:56-57 | `parseInt(s, 10)` of digit text of length `k` is below ten to the `k`; `ParseJoin` and `ParseToDecimal` state its value |
| `Decimal.DigitsOf` | typescript/KaprekarsConstant.ts:43-46 | the digits of `value.toString()`: at least one, a leading 0 only for zero, one digit exactly below ten |
| `Decimal.ToDecimal` | typescript/KaprekarsConstant.ts:43-44 | `toString()` is digit text with one character per digit, and starts with '0' only for zero |
| `Decimal.DigitsJoin` | typescript/KaprekarsConstant.ts:43-50 | splitting and mapping a joined digit array gives the array back |
| `Decimal.JoinInjective` | typescript/KaprekarsConstant.ts:116-132 | two joined digit arrays are equal strings exactly when the arrays are equal |
| `Decimal.SplitToDecimal` | typescript/KaprekarsConstant.ts:43-46 | `n.toString().split('').map(Number)` is the digit sequence of `n` |
| `Decimal.ValueOfDigitsOf` | typescript/KaprekarsConstant.ts:43-46 | the digits of `n` read as a number give `n` back |
| `Decimal.ParseJoin` | typescript/KaprekarsConstant.ts:56-57 | `parseInt` of a joined digit array is the number the digits denote |
| `Decimal.ParseToDecimal` | typescript/KaprekarsConstant.ts:77 | `parseInt(n.toString(), 10)` is `n` |
| `Decimal.ValueOfCons` | typescript/KaprekarsConstant.ts:56-57 | a leading digit weighs ten to the number of digits after it, so leading zeros add nothing |
| `Decimal.FourDigitText` | typescript/KaprekarsConstant.ts:39-41 | the decimal text has four characters exactly when the value is in 1000..9999 |
| `DigitSort.SortAscending` | typescript/KaprekarsConstant.ts:47-50 | the sort with `(a, b) => a - b` keeps the array's length; `SortAscendingSorted` states that it gives an ascending permutation |
| `DigitSort.SortDescending` | typescript/KaprekarsConstant.ts:51-54 | the sort with `(a, b) => b - a` keeps the array's length; `SortDescendingSorted` states that it gives a descending permutation |
| `DigitSort.SortAscendingSorted` | typescript/KaprekarsConstant.ts:47-50 | the sort with `(a, b) => a - b` gives an ascending permutation of its input |
| `DigitSort.SortDescendingSorted` | typescript/KaprekarsConstant.ts:51-54 | the sort with `(a, b) => b - a` gives a descending permutation of its input |
| `DigitSort.AscendingUnique` | typescript/KaprekarsConstant.ts:47-50 | two ascending arrangements of the same digits are equal, so the sorting algorithm does not matter |
| `DigitSort.DescendingUnique` | typescript/KaprekarsConstant.ts:51-54 | two descending arrangements of the same digits are equal |
| `DigitSort.AscendingIsSmallest` | typescript/KaprekarsConstant.ts:47-56 | the ascending arrangement reads as the smallest number any arrangement of those digits gives |
| `DigitSort.DescendingIsLargest` | typescript/KaprekarsConstant.ts:51-57 | the descending arrangement reads as the largest number any arrangement of those digits gives |
| `KaprekarsConstant.CalculateOrdinalDifference` | typescript/KaprekarsConstant.ts:38-66 | the range error exactly outside 1000..9999; otherwise the record keeps the value, `ascValue <= value <= descValue`, and `difference = descValue - ascValue` |
| `KaprekarsConstant.SortedValuesBracket` | typescript/KaprekarsConstant.ts:47-58 | the ascending reading is at most the value and the descending reading at least, so the difference is never negative |
| `KaprekarsConstant.StepReadsArrangements` | typescript/KaprekarsConstant.ts:43-65 | for any ascending and any descending arrangement of the value's digits, the step returns exactly their readings and their difference |
| `KaprekarsConstant.StepReadsSortedText` | typescript/KaprekarsConstant.ts:43-57 | `ascValue` and `descValue` are `parseInt` of the joined sorted digits of the split `toString()` text |
| `KaprekarsConstant.StepDependsOnDigitsOnly` | typescript/KaprekarsConstant.ts:43-58 | two four-digit values with the same digits give the same readings and the same difference |
| `KaprekarsConstant.StepOf6174` | typescript/KaprekarsConstant.ts:17-18 | 6174 steps to itself: 7641 - 1467 = 6174 |
| `KaprekarsConstant.StepOf1000` | typescript/KaprekarsConstant.ts:39-41 | 1000 steps to 999 because "0001" reads as 1, and 999 is refused |
| `KaprekarsConstant.StepOf1111` | typescript/KaprekarsConstant.ts:7-9 | 1111, a number without two distinct digits, steps to 0 |
| `KaprekarsConstant.RepdigitStepsToZero` | typescript/KaprekarsConstant.ts:38-66 | every four-digit number whose digits are all equal steps to 0, with both readings equal to the value |
| `KaprekarsConstant.HaveSameDigits` | typescript/KaprekarsConstant.ts:115-133 | two numbers whose sorted joined digit strings match have decimal texts of the same length; `HaveSameDigitsIff` states when they match |
| `KaprekarsConstant.HaveSameDigitsIff` | typescript/KaprekarsConstant.ts:115-133 | the sorted joined strings are equal exactly when the digit multisets are equal |
| `KaprekarsConstant.HaveSameDigitsEquivalence` | typescript/KaprekarsConstant.ts:115-133 | having the same digits is reflexive, symmetric and transitive |
| `KaprekarsConstant.HaveSameDigitsOfReversal` | typescript/KaprekarsConstant.ts:107-108 | 1234 and 4321 have the same digits |
| `KaprekarsConstant.HaveSameDigitsOfDifferentDigits` | typescript/KaprekarsConstant.ts:109 | 1234 and 1233 do not |
| `KaprekarsConstant.HaveSameDigitsOfRepdigit` | typescript/KaprekarsConstant.ts:132 | 1111 and 0 do not, since their texts differ in length |
| `KaprekarsConstant.ZerosValue` | typescript/KaprekarsConstant.ts:78-80 | '0' characters in front of a digit text leave it digit text and do not change what `parseInt` reads |
| `KaprekarsConstant.Padded` | typescript/KaprekarsConstant.ts:76-82 | the padded text is `max(len, 4)` characters long, where `len` is the length of `value.toString()`; `PaddedProperties` and `PaddedReadsBack` state its contents |
| `KaprekarsConstant.Ensure4DigitString` | typescript/KaprekarsConstant.ts:76-82 | the loop returns the padded text of `value`: at least four characters, digits only, reading back as `value` |
| `KaprekarsConstant.PaddedProperties` | typescript/KaprekarsConstant.ts:68-82 | the padded text has length `max(len, 4)`, ends in `value.toString()`, has only '0' before it, and is unchanged when already four long |
| `KaprekarsConstant.PaddedReadsBack` | typescript/KaprekarsConstant.ts:74-81 | the padded text is at least four digits long and `parseInt` reads it as the number |
| `KaprekarsConstant.OneResult` | typescript/KaprekarsConstant.ts:91-103 | one step gives exactly four display lines |
| `KaprekarsConstant.PrefixedPadded` | typescript/KaprekarsConstant.ts:99-101 | a seven-character prefix followed by a padded number: at least eleven characters, and the part after the prefix reads back as the number |
| `KaprekarsConstant.OneResultLayout` | typescript/KaprekarsConstant.ts:97-102 | line 1 is the value's text; lines 2-4 carry their prefixes, then padded digits reading back as `descValue`, `ascValue` and `difference` |
| `KaprekarsConstant.Lines` | typescript/KaprekarsConstant.ts:155-156 | the lines pushed for a sequence of steps number four per step |
| `KaprekarsConstant.LinesSnoc` | typescript/KaprekarsConstant.ts:154-156 | one more step appends its four lines at the end |
| `KaprekarsConstant.LinesAt` | typescript/KaprekarsConstant.ts:154-156 | lines `4i` to `4i+3` are the lines of step `i` |
| `KaprekarsConstant.Search` | typescript/KaprekarsConstant.ts:146-160 | a run exhausted by the safety counter holds exactly as many steps as the counter allowed; `SearchIsSearchRun` and `SearchRunIsSearch` state the rest |
| `KaprekarsConstant.SearchIsSearchRun` | typescript/KaprekarsConstant.ts:146-160 | the loop's run is a chain of steps, only the last matching, found exactly when it matches, exhausted only after all steps, failed only at a refused value |
| `KaprekarsConstant.SearchRunIsSearch` | typescript/KaprekarsConstant.ts:146-160 | any run meeting that description is the loop's run, so the description determines the search |
| `KaprekarsConstant.Iterate` | typescript/KaprekarsConstant.ts:146-160 | the search with `calculateOrdinalDifference` as the step ends in the range error only at a value outside 1000..9999; `IterateIsRun` and `RunIsIterate` state the rest |
| `KaprekarsConstant.IterateIsRun` | typescript/KaprekarsConstant.ts:146-160 | the search meets the description; step `i` starts from the previous difference; the range error comes only at a value outside 1000..9999 |
| `KaprekarsConstant.RunIsIterate` | typescript/KaprekarsConstant.ts:146-160 | any run meeting the description is the search from that value |
| `KaprekarsConstant.MatchedIsFixedPoint` | typescript/KaprekarsConstant.ts:154-159 | when a difference has the digits of its value, the step from that difference gives the difference back |
| `KaprekarsConstant.FoundIsFixedPoint` | typescript/KaprekarsConstant.ts:5-15 | when the search stops on a match, its last difference is a fixed point of the step |
| `KaprekarsConstant.ShortDifferenceFails` | typescript/KaprekarsConstant.ts:154-159 | a difference below 1000 never has the digits of its four-digit value, so it ends the search with the range error at the next step |
| `KaprekarsConstant.IterateFrom6174` | typescript/KaprekarsConstant.ts:147-159 | the search from 6174 stops after one matching step |
| `KaprekarsConstant.IterateFrom1000` | typescript/KaprekarsConstant.ts:5-9 | the search from 1000, a number with two distinct digits, ends in the range error after one step |
| `KaprekarsConstant.IterateFrom1111` | typescript/KaprekarsConstant.ts:39-41 | the search from 1111 ends in the range error after one step |
| `KaprekarsConstant.Trace` | typescript/KaprekarsConstant.ts:142-163 | an error exactly when the search failed, with the range message; otherwise four lines per step plus three, or four when exhausted |
| `KaprekarsConstant.TraceFrame` | typescript/KaprekarsConstant.ts:144-161 | the trace opens with "   Begin   " and closes with "___________" and "" |
| `KaprekarsConstant.TraceFailureLine` | typescript/KaprekarsConstant.ts:148-151 | the third-last line is "Seek failed to terminate" exactly when the safety counter ran out |
| `KaprekarsConstant.TraceStepLines` | typescript/KaprekarsConstant.ts:154-156 | trace lines `4i+1` to `4i+4` are the four lines of step `i` |
| `KaprekarsConstant.SeekKaprekarsConstant` | typescript/KaprekarsConstant.ts:142-163 | the loop with its safety counter returns the trace of the search from the start value with 30 steps allowed, or the range error a step threw |

## Left out

- The console driver (`printLine`, `go`, `testValues`, typescript/KaprekarsConstant.ts:165-181) only prints. It is I/O and is not modelled.
- `KaprekarsConstantValue` and `KaprekarsConstantString` (lines 17-21) are declared but never read by the code. 6174 appears as a literal in the lemmas.
- JavaScript numbers are doubles. The model uses unbounded integers, so `seekKaprekarsConstant` takes an `int` start. Non-integer, NaN and infinite starts are not modelled. For such a start `toString()` would produce text that is not all digits.
- KaprekarsConstant.HaveSameDigits: takes non-negative arguments only. The search calls it only with a value the step accepted and a non-negative difference. The `'-'` of a negative number's text is not modelled.
- `parseInt` is modelled for digit text only. The code never parses an empty or non-digit string.
- `Array.prototype.sort` leaves its algorithm to the engine. The model sorts by insertion. `AscendingUnique` and `DescendingUnique` show that any sort giving an ordered permutation gives the same array.
- The header's convergence claim (every four-digit number with two distinct digits reaches 6174) is not proved for the code. The code does not deliver it, as `IterateFrom1000` shows. A proof over all 9000 starts would need an exhaustive evaluation that this model does not attempt.
