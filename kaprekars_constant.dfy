/** Kaprekar's routine on four-digit numbers, as `KaprekarsConstant.ts` and
    `KaprekarsConstant.js` run it: one step sorts the digits of the value's
    decimal text both ways, reads both arrangements back as numbers and
    subtracts; the search repeats the step on each difference until a
    difference has the same digits as the value it came from, or until a
    safety counter of 30 steps runs out. The range error that a step throws
    is an `Err` result here. */
module KaprekarsConstant {
  import opened Decimal
  import opened DigitSort

  const RangeMessage: string := "Value must be a four-digit number"
  const BeginLine: string := "   Begin   "
  const FailureLine: string := "Seek failed to terminate"
  const SeparatorLine: string := "___________"
  /** The initial value of the search's safety counter. */
  const SafetyLimit: nat := 30

  /** What a call returns, or the message of the `Error` it throws. */
  datatype Result<T> = Ok(value: T) | Err(message: string)

  /** `OrdinalDifferenceResultType`: one step of the routine. */
  datatype OrdinalDifference = OrdinalDifference(value: nat, ascValue: nat, descValue: nat, difference: nat)

  predicate IsFourDigit(value: int) {
    1000 <= value <= 9999
  }

  // ---------------------------------------------------------------------------
  // calculateOrdinalDifference

  /** One step: the digits of `value.toString()` sorted ascending and descending,
      each joined and read back with `parseInt` (which `ValueOf` models, see
      `StepReadsSortedText`), and their difference. A value outside 1000..9999
      is refused with the range error. */
  function CalculateOrdinalDifference(value: int): (r: Result<OrdinalDifference>)
    ensures r.Ok? <==> IsFourDigit(value)
    ensures r.Err? ==> r.message == RangeMessage
    ensures r.Ok? ==> r.value.value == value
    ensures r.Ok? ==> r.value.ascValue <= value <= r.value.descValue
    ensures r.Ok? ==> r.value.ascValue + r.value.difference == r.value.descValue
  {
    if value < 1000 || value > 9999 then
      Err(RangeMessage)
    else
      var digits := DigitsOf(value);
      var ascValue := ValueOf(SortAscending(digits));
      var descValue := ValueOf(SortDescending(digits));
      SortedValuesBracket(value);
      Ok(OrdinalDifference(value, ascValue, descValue, descValue - ascValue))
  }

  /** Read back as numbers, the ascending arrangement of the digits of `n` is
      at most `n` and the descending one at least `n`. */
  lemma SortedValuesBracket(n: nat)
    ensures ValueOf(SortAscending(DigitsOf(n))) <= n <= ValueOf(SortDescending(DigitsOf(n)))
  {
    var digits := DigitsOf(n);
    ValueOfDigitsOf(n);
    SortAscendingSorted(digits);
    SortDescendingSorted(digits);
    AscendingIsSmallest(SortAscending(digits), digits);
    DescendingIsLargest(SortDescending(digits), digits);
  }

  /** A step is fixed by the digit multiset of its value alone: whatever
      ascending and descending arrangements of those digits one picks, the
      step reads exactly those back. */
  lemma StepReadsArrangements(value: int, up: seq<Digit>, down: seq<Digit>)
    requires IsFourDigit(value)
    requires IsAscending(up) && multiset(up) == multiset(DigitsOf(value))
    requires IsDescending(down) && multiset(down) == multiset(DigitsOf(value))
    ensures ValueOf(up) <= ValueOf(down)
    ensures CalculateOrdinalDifference(value)
         == Ok(OrdinalDifference(value, ValueOf(up), ValueOf(down), ValueOf(down) - ValueOf(up)))
  {
    var digits := DigitsOf(value);
    SortAscendingSorted(digits);
    SortDescendingSorted(digits);
    AscendingUnique(up, SortAscending(digits));
    DescendingUnique(down, SortDescending(digits));
    var r := CalculateOrdinalDifference(value);
    assert r.value.ascValue == ValueOf(up);
    assert r.value.descValue == ValueOf(down);
    assert r.value.difference == ValueOf(down) - ValueOf(up);
    assert r.value == OrdinalDifference(value, ValueOf(up), ValueOf(down), ValueOf(down) - ValueOf(up));
  }

  /** The step reads exactly what the source's text chain reads: the two
      arrangements of the split text of `value.toString()`, joined and parsed. */
  lemma StepReadsSortedText(value: int)
    requires IsFourDigit(value)
    ensures var step := CalculateOrdinalDifference(value).value;
            var digits := Digits(ToDecimal(value));
            && step.ascValue == ParseInt(Join(SortAscending(digits)))
            && step.descValue == ParseInt(Join(SortDescending(digits)))
  {
    var digits := Digits(ToDecimal(value));
    SplitToDecimal(value);
    ParseJoin(SortAscending(digits));
    ParseJoin(SortDescending(digits));
  }

  /** Two four-digit values with the same digits take the same step. */
  lemma StepDependsOnDigitsOnly(a: int, b: int)
    requires IsFourDigit(a) && IsFourDigit(b)
    requires multiset(DigitsOf(a)) == multiset(DigitsOf(b))
    ensures CalculateOrdinalDifference(a).value.ascValue == CalculateOrdinalDifference(b).value.ascValue
    ensures CalculateOrdinalDifference(a).value.descValue == CalculateOrdinalDifference(b).value.descValue
    ensures CalculateOrdinalDifference(a).value.difference == CalculateOrdinalDifference(b).value.difference
  {
    var up, down := SortAscending(DigitsOf(b)), SortDescending(DigitsOf(b));
    SortAscendingSorted(DigitsOf(b));
    SortDescendingSorted(DigitsOf(b));
    StepReadsArrangements(a, up, down);
    StepReadsArrangements(b, up, down);
  }

  /** 6174 reproduces itself: 7641 - 1467 = 6174. */
  lemma StepOf6174()
    ensures CalculateOrdinalDifference(6174) == Ok(OrdinalDifference(6174, 1467, 7641, 6174))
  {
    assert DigitsOf(6174) == [6, 1, 7, 4];
    assert SortAscending([6, 1, 7, 4]) == [1, 4, 6, 7];
    assert SortDescending([6, 1, 7, 4]) == [7, 6, 4, 1];
    ValueOfFour(1, 4, 6, 7);
    ValueOfFour(7, 6, 4, 1);
  }

  /** 1000 loses its zeros when its ascending arrangement "0001" is read back,
      and steps to 999, a value the next step refuses. */
  lemma StepOf1000()
    ensures CalculateOrdinalDifference(1000) == Ok(OrdinalDifference(1000, 1, 1000, 999))
    ensures CalculateOrdinalDifference(999) == Err(RangeMessage)
  {
    assert DigitsOf(1000) == [1, 0, 0, 0];
    assert SortAscending([1, 0, 0, 0]) == [0, 0, 0, 1];
    assert SortDescending([1, 0, 0, 0]) == [1, 0, 0, 0];
    ValueOfFour(0, 0, 0, 1);
    ValueOfFour(1, 0, 0, 0);
  }

  /** A repdigit steps to 0. */
  lemma StepOf1111()
    ensures CalculateOrdinalDifference(1111) == Ok(OrdinalDifference(1111, 1111, 1111, 0))
  {
    assert DigitsOf(1111) == [1, 1, 1, 1];
    assert SortAscending([1, 1, 1, 1]) == [1, 1, 1, 1];
    assert SortDescending([1, 1, 1, 1]) == [1, 1, 1, 1];
    ValueOfFour(1, 1, 1, 1);
  }

  /** A value whose four digits are all equal steps to 0: both arrangements
      are the value itself. */
  lemma RepdigitStepsToZero(value: int)
    requires IsFourDigit(value)
    requires forall i, j :: 0 <= i < |DigitsOf(value)| && 0 <= j < |DigitsOf(value)| ==>
               DigitsOf(value)[i] == DigitsOf(value)[j]
    ensures CalculateOrdinalDifference(value) == Ok(OrdinalDifference(value, value, value, 0))
  {
    assert IsAscending(DigitsOf(value)) && IsDescending(DigitsOf(value));
    ValueOfDigitsOf(value);
    StepReadsArrangements(value, DigitsOf(value), DigitsOf(value));
  }

  // ---------------------------------------------------------------------------
  // haveSameDigits

  /** Whether the digits of `lhs.toString()` and `rhs.toString()`, each sorted
      ascending and joined, give the same string. Numbers whose decimal texts
      differ in length never match; `HaveSameDigitsIff` says exactly when two
      numbers match. */
  function HaveSameDigits(lhs: nat, rhs: nat): (same: bool)
    ensures same ==> |ToDecimal(lhs)| == |ToDecimal(rhs)|
  {
    Join(SortAscending(DigitsOf(lhs))) == Join(SortAscending(DigitsOf(rhs)))
  }

  /** The sorted, joined texts of two digit arrays are equal exactly when the
      arrays hold the same digits. */
  lemma SortedTextsMatch(a: seq<Digit>, b: seq<Digit>)
    ensures Join(SortAscending(a)) == Join(SortAscending(b)) <==> multiset(a) == multiset(b)
  {
    SortAscendingSorted(a);
    SortAscendingSorted(b);
    JoinInjective(SortAscending(a), SortAscending(b));
    if multiset(a) == multiset(b) {
      AscendingUnique(SortAscending(a), SortAscending(b));
    }
  }

  /** Comparing sorted digit strings is comparing digit multisets: two
      numbers match exactly when they have the same digits, each as often. */
  lemma HaveSameDigitsIff(lhs: nat, rhs: nat)
    ensures HaveSameDigits(lhs, rhs) <==> multiset(DigitsOf(lhs)) == multiset(DigitsOf(rhs))
  {
    SortedTextsMatch(DigitsOf(lhs), DigitsOf(rhs));
  }

  /** Having the same digits is an equivalence. */
  lemma HaveSameDigitsEquivalence(a: nat, b: nat, c: nat)
    ensures HaveSameDigits(a, a)
    ensures HaveSameDigits(a, b) == HaveSameDigits(b, a)
    ensures HaveSameDigits(a, b) && HaveSameDigits(b, c) ==> HaveSameDigits(a, c)
  {
  }

  /** The documented case: 1234 and 4321 have the same digits. */
  lemma HaveSameDigitsOfReversal()
    ensures HaveSameDigits(1234, 4321)
  {
    assert DigitsOf(1234) == [1, 2, 3, 4] && SortAscending([1, 2, 3, 4]) == [1, 2, 3, 4];
    SortOfReversal();
  }

  /** The digits of 4321, and their ascending arrangement. */
  lemma SortOfReversal()
    ensures DigitsOf(4321) == [4, 3, 2, 1] && SortAscending([4, 3, 2, 1]) == [1, 2, 3, 4]
  {
  }

  /** The documented case: 1234 and 1233 do not. */
  lemma HaveSameDigitsOfDifferentDigits()
    ensures !HaveSameDigits(1234, 1233)
  {
    assert DigitsOf(1234) == [1, 2, 3, 4] && SortAscending([1, 2, 3, 4]) == [1, 2, 3, 4];
    assert DigitsOf(1233) == [1, 2, 3, 3] && SortAscending([1, 2, 3, 3]) == [1, 2, 3, 3];
    JoinInjective([1, 2, 3, 4], [1, 2, 3, 3]);
  }

  /** 1111 against the 0 it steps to: texts of different lengths never match. */
  lemma HaveSameDigitsOfRepdigit()
    ensures !HaveSameDigits(1111, 0)
  {
    assert DigitsOf(1111) == [1, 1, 1, 1] && DigitsOf(0) == [0];
    assert |SortAscending([1, 1, 1, 1])| == 4 && |SortAscending([0])| == 1;
  }

  // ---------------------------------------------------------------------------
  // ensure4DigitString

  /** `k` '0' characters. */
  function Zeros(k: nat): (z: string)
    ensures |z| == k
  {
    if k == 0 then "" else "0" + Zeros(k - 1)
  }

  lemma {:induction false} ZerosAreZeros(k: nat)
    ensures forall i :: 0 <= i < k ==> Zeros(k)[i] == '0'
  {
    if k > 0 {
      ZerosAreZeros(k - 1);
      assert forall i :: 0 < i < k ==> Zeros(k)[i] == Zeros(k - 1)[i - 1];
    }
  }

  /** `text` behind as many '0' characters as it takes to make it `width`
      long; text already that long is left alone. */
  function ZeroPad(text: string, width: nat): string {
    if |text| >= width then text else Zeros(width - |text|) + text
  }

  /** Zeros in front of a digit text do not change what `parseInt` reads. */
  lemma {:induction false} ZerosValue(k: nat, text: string)
    requires IsDigitText(text)
    ensures IsDigitText(Zeros(k) + text)
    ensures ParseInt(Zeros(k) + text) == ParseInt(text)
  {
    if k > 0 {
      ZerosValue(k - 1, text);
      assert Zeros(k) + text == "0" + (Zeros(k - 1) + text);
      DigitsPrependZero(Zeros(k - 1) + text);
      ValueOfCons(0, Digits(Zeros(k - 1) + text));
      assert ParseInt(Zeros(k) + text) == ValueOf([0] + Digits(Zeros(k - 1) + text));
    } else {
      assert Zeros(k) + text == text;
    }
  }

  lemma OneMoreZero(k: nat, text: string)
    ensures "0" + (Zeros(k) + text) == Zeros(k + 1) + text
  {
    assert Zeros(k + 1) == "0" + Zeros(k);
  }

  /** Once the zeros in front make the text four characters long, or no zero
      was needed, the text is the text padded to width four. */
  lemma PadLoopExit(text: string, zeros: nat)
    requires |Zeros(zeros) + text| >= 4 && (zeros == 0 || |Zeros(zeros) + text| <= 4)
    ensures Zeros(zeros) + text == ZeroPad(text, 4)
  {
    if zeros == 0 {
      assert Zeros(zeros) + text == text;
    }
  }

  /** The text `ensure4DigitString(n)` returns. */
  function Padded(n: nat): (p: string)
    ensures |p| == if |ToDecimal(n)| >= 4 then |ToDecimal(n)| else 4
  {
    ZeroPad(ToDecimal(n), 4)
  }

  /** `ensure4DigitString`, with its loop: the result is the decimal text of
      `value` after '0' characters only, at least four characters long, and it
      reads back as `value`. */
  method Ensure4DigitString(value: nat) returns (valueStr: string)
    ensures valueStr == Padded(value)
    ensures |valueStr| >= 4 && IsDigitText(valueStr) && ParseInt(valueStr) == value
  {
    ghost var text, zeros := ToDecimal(value), 0;
    valueStr := ToDecimal(value);
    assert valueStr == Zeros(zeros) + text;
    while |valueStr| < 4
      invariant valueStr == Zeros(zeros) + text
      invariant zeros == 0 || |valueStr| <= 4
      decreases 4 - |valueStr|
    {
      OneMoreZero(zeros, text);
      valueStr := "0" + valueStr;
      zeros := zeros + 1;
    }
    PadLoopExit(text, zeros);
    PaddedReadsBack(value);
  }

  /** What `ensure4DigitString` promises: length at least four, the unpadded
      text at the end, only zeros before it, nothing added to text that is
      already four characters long, and the number read back unchanged. */
  lemma PaddedProperties(n: nat)
    ensures |Padded(n)| == if |ToDecimal(n)| >= 4 then |ToDecimal(n)| else 4
    ensures Padded(n)[|Padded(n)| - |ToDecimal(n)|..] == ToDecimal(n)
    ensures forall i :: 0 <= i < |Padded(n)| - |ToDecimal(n)| ==> Padded(n)[i] == '0'
    ensures |ToDecimal(n)| >= 4 ==> Padded(n) == ToDecimal(n)
  {
    var text := ToDecimal(n);
    if |text| < 4 {
      ZerosAreZeros(4 - |text|);
      assert Padded(n)[4 - |text|..] == text;
    }
  }

  /** The padded text is digits only, and `parseInt` reads it back as `n`. */
  lemma PaddedReadsBack(n: nat)
    ensures |Padded(n)| >= 4 && IsDigitText(Padded(n)) && ParseInt(Padded(n)) == n
  {
    var text := ToDecimal(n);
    if |text| < 4 {
      ZerosValue(4 - |text|, text);
    }
    ParseToDecimal(n);
  }

  // ---------------------------------------------------------------------------
  // oneResult

  const DescPrefix: string := "       "
  const AscPrefix: string := "     - "
  const DifferencePrefix: string := "     = "

  /** The four display lines of one step, drawn as a vertical subtraction:
      the value unpadded, then the descending and ascending values and the
      difference, each padded by `ensure4DigitString` behind its prefix. */
  function OneResult(step: OrdinalDifference): (lines: seq<string>)
    ensures |lines| == 4
  {
    [ToDecimal(step.value),
     DescPrefix + Padded(step.descValue),
     AscPrefix + Padded(step.ascValue),
     DifferencePrefix + Padded(step.difference)]
  }

  /** A padded number behind a seven-character prefix: the line is at least
      eleven characters long, and what follows the prefix is digits only,
      reading back as the number. */
  lemma PrefixedPadded(prefix: string, n: nat)
    requires |prefix| == 7
    ensures var line := prefix + Padded(n);
            && |line| >= 11 && line[..7] == prefix
            && IsDigitText(line[7..]) && ParseInt(line[7..]) == n
  {
    PaddedReadsBack(n);
    PrefixedText(prefix, Padded(n), n);
  }

  /** The parts of `prefix + padded`, for a digit text `padded` that reads
      as `n`. */
  lemma PrefixedText(prefix: string, padded: string, n: nat)
    requires IsDigitText(padded) && ParseInt(padded) == n
    ensures var line := prefix + padded;
            && line[..|prefix|] == prefix && line[|prefix|..] == padded
            && IsDigitText(line[|prefix|..]) && ParseInt(line[|prefix|..]) == n
  {
    var line := prefix + padded;
    SliceOfLeft(prefix, padded, 0, |prefix|);
    assert prefix[0..|prefix|] == prefix;
    SliceOfRight(prefix, padded, |prefix|, |line|);
    assert padded[0..|padded|] == padded;
  }

  /** What the four lines of a step show, in order: the value as it is, then
      the descending value, the ascending value and the difference, each
      behind its prefix, at least four digits long and reading back as the
      number it shows. */
  lemma OneResultLayout(step: OrdinalDifference)
    ensures var lines := OneResult(step);
            && lines[0] == ToDecimal(step.value) && ParseInt(lines[0]) == step.value
            && |lines[1]| >= 11 && lines[1][..7] == DescPrefix
            && IsDigitText(lines[1][7..]) && ParseInt(lines[1][7..]) == step.descValue
            && |lines[2]| >= 11 && lines[2][..7] == AscPrefix
            && IsDigitText(lines[2][7..]) && ParseInt(lines[2][7..]) == step.ascValue
            && |lines[3]| >= 11 && lines[3][..7] == DifferencePrefix
            && IsDigitText(lines[3][7..]) && ParseInt(lines[3][7..]) == step.difference
  {
    var lines := OneResult(step);
    ParseToDecimal(step.value);
    PrefixedPadded(DescPrefix, step.descValue);
    assert lines[1] == DescPrefix + Padded(step.descValue);
    PrefixedPadded(AscPrefix, step.ascValue);
    assert lines[2] == AscPrefix + Padded(step.ascValue);
    PrefixedPadded(DifferencePrefix, step.difference);
    assert lines[3] == DifferencePrefix + Padded(step.difference);
  }

  /** The display lines of a sequence of steps, four per step, in order. */
  function Lines(steps: seq<OrdinalDifference>): (lines: seq<string>)
    ensures |lines| == 4 * |steps|
  {
    if steps == [] then [] else Lines(steps[..|steps| - 1]) + OneResult(steps[|steps| - 1])
  }

  /** One more step adds its four lines at the end. */
  lemma LinesSnoc(steps: seq<OrdinalDifference>, step: OrdinalDifference)
    ensures Lines(steps + [step]) == Lines(steps) + OneResult(step)
  {
    assert (steps + [step])[..|steps|] == steps;
  }

  /** Lines `4 * i` to `4 * i + 3` are the lines of step `i`. */
  lemma {:induction false} LinesAt(steps: seq<OrdinalDifference>, i: nat)
    requires i < |steps|
    ensures Lines(steps)[4 * i..4 * i + 4] == OneResult(steps[i])
  {
    var init := steps[..|steps| - 1];
    var head, last := Lines(init), OneResult(steps[|steps| - 1]);
    assert Lines(steps) == head + last;
    if i < |steps| - 1 {
      LinesAt(init, i);
      assert init[i] == steps[i];
      SliceOfLeft(head, last, 4 * i, 4 * i + 4);
    } else {
      SliceOfRight(head, last, 4 * i, 4 * i + 4);
    }
  }

  /** A slice within the left operand of a concatenation. */
  lemma SliceOfLeft<T>(a: seq<T>, b: seq<T>, i: nat, j: nat)
    requires i <= j <= |a|
    ensures (a + b)[i..j] == a[i..j]
  {
  }

  /** A slice within the right operand of a concatenation. */
  lemma SliceOfRight<T>(a: seq<T>, b: seq<T>, i: nat, j: nat)
    requires |a| <= i <= j <= |a| + |b|
    ensures (a + b)[i..j] == b[i - |a|..j - |a|]
  {
  }

  // ---------------------------------------------------------------------------
  // seekKaprekarsConstant

  /** How a search ended: a step that passed the stopping test, the safety
      counter run out, or a value the step refused. */
  datatype Outcome = Found | Exhausted | OutOfRange

  /** The steps a search took, in order, and how it ended. */
  datatype Run = Run(steps: seq<OrdinalDifference>, outcome: Outcome)

  function Extend(step: OrdinalDifference, run: Run): Run {
    Run([step] + run.steps, run.outcome)
  }

  /** The value the search holds after `steps`: the last difference, or the
      start when no step was taken. */
  function FinalValue(start: int, steps: seq<OrdinalDifference>): int {
    if steps == [] then start else steps[|steps| - 1].difference
  }

  /** The value step `i` of a search from `start` starts from. */
  function ValueBefore(start: int, steps: seq<OrdinalDifference>, i: nat): int
    requires i <= |steps|
  {
    FinalValue(start, steps[..i])
  }

  /** The loop of `seekKaprekarsConstant` with the step and the stopping test
      left open: with `safety` steps left, take a step from `value`; a refused
      value ends the search, a step that passes `stop` ends it with success,
      and any other step is followed by the search from its difference. What
      the loop guarantees does not depend on what a step computes, so it is
      proved here once for every step function and stopping test. */
  function Search(step: int -> Result<OrdinalDifference>, stop: OrdinalDifference -> bool,
                  value: int, safety: nat): (run: Run)
    ensures run.outcome == Exhausted ==> |run.steps| == safety
    decreases safety
  {
    if safety < 1 then
      Run([], Exhausted)
    else
      match step(value)
      case Err(_) => Run([], OutOfRange)
      case Ok(s) =>
        if stop(s) then Run([s], Found)
        else Extend(s, Search(step, stop, s.difference, safety - 1))
  }

  /** Each step is the one taken from the value before it: the first from
      `start`, every later one from the previous difference. */
  predicate IsChain(step: int -> Result<OrdinalDifference>, start: int, steps: seq<OrdinalDifference>)
    decreases |steps|
  {
    steps == [] || (step(start) == Ok(steps[0]) && IsChain(step, steps[0].difference, steps[1..]))
  }

  /** What the loop guarantees of a search from `start` with `safety` steps
      allowed: the steps form a chain, none before the last passed the
      stopping test, the search succeeded exactly when its last step passed
      it, it ran out of steps only after all `safety` of them, and it failed
      only at a value the step refused, with steps still allowed. */
  predicate IsSearchRun(step: int -> Result<OrdinalDifference>, stop: OrdinalDifference -> bool,
                        start: int, safety: nat, run: Run) {
    var steps := run.steps;
    && |steps| <= safety
    && IsChain(step, start, steps)
    && (forall i :: 0 <= i < |steps| - 1 ==> !stop(steps[i]))
    && (run.outcome == Found <==> steps != [] && stop(steps[|steps| - 1]))
    && (run.outcome == Exhausted ==> |steps| == safety)
    && (run.outcome == OutOfRange ==> |steps| < safety && step(FinalValue(start, steps)).Err?)
  }

  /** The values before the steps of `[s] + rest`: `start` first, then those
      of `rest` from the difference of `s`. */
  lemma ValueBeforeCons(start: int, s: OrdinalDifference, rest: seq<OrdinalDifference>, i: nat)
    requires 0 < i <= |rest| + 1
    ensures ValueBefore(start, [s] + rest, i) == ValueBefore(s.difference, rest, i - 1)
  {
    var steps := [s] + rest;
    assert steps[..i] == [s] + rest[..i - 1];
    if i > 1 {
      assert steps[..i][i - 1] == rest[..i - 1][i - 2];
    }
  }

  /** Step `i` of a chain is the step taken from the value before it. */
  lemma {:induction false} ChainAt(step: int -> Result<OrdinalDifference>, start: int,
                                   steps: seq<OrdinalDifference>, i: nat)
    requires IsChain(step, start, steps) && i < |steps|
    ensures step(ValueBefore(start, steps, i)) == Ok(steps[i])
    decreases i
  {
    if i == 0 {
      assert steps[..0] == [];
    } else {
      var rest := steps[1..];
      ChainAt(step, steps[0].difference, rest, i - 1);
      assert steps == [steps[0]] + rest;
      ValueBeforeCons(start, steps[0], rest, i);
    }
  }

  /** A step that does not stop the search, followed by a run from its
      difference, is a run from the value it was taken from. */
  lemma ExtendIsSearchRun(step: int -> Result<OrdinalDifference>, stop: OrdinalDifference -> bool,
                          value: int, safety: nat, s: OrdinalDifference, rest: Run)
    requires safety >= 1 && step(value) == Ok(s) && !stop(s)
    requires IsSearchRun(step, stop, s.difference, safety - 1, rest)
    ensures IsSearchRun(step, stop, value, safety, Extend(s, rest))
  {
    var steps := [s] + rest.steps;
    assert steps[0] == s && steps[1..] == rest.steps;
    if rest.steps != [] {
      assert steps[|steps| - 1] == rest.steps[|rest.steps| - 1];
      assert FinalValue(value, steps) == FinalValue(s.difference, rest.steps);
    }
  }

  /** The run after the first step of a run that did not stop at once. */
  lemma RestIsSearchRun(step: int -> Result<OrdinalDifference>, stop: OrdinalDifference -> bool,
                        value: int, safety: nat, run: Run)
    requires IsSearchRun(step, stop, value, safety, run) && run.steps != [] && !stop(run.steps[0])
    ensures safety >= 1
    ensures IsSearchRun(step, stop, run.steps[0].difference, safety - 1, Run(run.steps[1..], run.outcome))
  {
    var steps := run.steps;
    var rest := steps[1..];
    if rest != [] {
      assert rest[|rest| - 1] == steps[|steps| - 1];
    }
  }

  /** The search meets its description. */
  lemma {:induction false} SearchIsSearchRun(step: int -> Result<OrdinalDifference>, stop: OrdinalDifference -> bool,
                                             value: int, safety: nat)
    ensures IsSearchRun(step, stop, value, safety, Search(step, stop, value, safety))
    decreases safety
  {
    if safety >= 1 {
      match step(value)
      case Err(_) =>
      case Ok(s) =>
        if !stop(s) {
          SearchIsSearchRun(step, stop, s.difference, safety - 1);
          ExtendIsSearchRun(step, stop, value, safety, s, Search(step, stop, s.difference, safety - 1));
        } else {
          assert [s][..0] == [];
        }
    }
  }

  /** A run that meets the description and took no step ended at once:
      with no step allowed, or at a value the step refused. */
  lemma EmptySearchRun(step: int -> Result<OrdinalDifference>, stop: OrdinalDifference -> bool,
                       value: int, safety: nat, run: Run)
    requires IsSearchRun(step, stop, value, safety, run) && run.steps == []
    ensures run == Search(step, stop, value, safety)
  {
    assert run.outcome != Found;
    assert FinalValue(value, run.steps) == value;
  }

  /** The first step of a run that meets the description is the step from
      its start, and the run ends there if that step stops it. */
  lemma FirstOfSearchRun(step: int -> Result<OrdinalDifference>, stop: OrdinalDifference -> bool,
                         value: int, safety: nat, run: Run)
    requires IsSearchRun(step, stop, value, safety, run) && run.steps != []
    ensures safety >= 1 && step(value) == Ok(run.steps[0])
    ensures stop(run.steps[0]) ==> run == Run([run.steps[0]], Found)
  {
    var steps := run.steps;
    if stop(steps[0]) {
      assert |steps| == 1;
      assert steps == [steps[0]];
    }
  }

  /** The description leaves no choice: a run that meets it is the search. */
  lemma {:induction false} SearchRunIsSearch(step: int -> Result<OrdinalDifference>, stop: OrdinalDifference -> bool,
                                             value: int, safety: nat, run: Run)
    requires IsSearchRun(step, stop, value, safety, run)
    ensures run == Search(step, stop, value, safety)
    decreases safety
  {
    var steps := run.steps;
    if steps == [] {
      EmptySearchRun(step, stop, value, safety, run);
    } else {
      var s := steps[0];
      FirstOfSearchRun(step, stop, value, safety, run);
      if !stop(s) {
        var rest := Run(steps[1..], run.outcome);
        RestIsSearchRun(step, stop, value, safety, run);
        SearchRunIsSearch(step, stop, s.difference, safety - 1, rest);
        assert run == Extend(s, rest) by {
          assert steps == [s] + steps[1..];
        }
      }
    }
  }

  /** Whether a step's difference has the same digits as its value: the test
      `haveSameDigits(value, result.difference)` that stops the search, the
      step's `value` being the loop's value. */
  predicate Matched(step: OrdinalDifference) {
    HaveSameDigits(step.value, step.difference)
  }

  /** The search from `value` with `safety` steps left, as `seekKaprekarsConstant`
      runs it: each step is `calculateOrdinalDifference`, and a step whose
      difference has the value's digits ends it. */
  function Iterate(value: int, safety: nat): (run: Run)
    ensures run.outcome == OutOfRange ==> !IsFourDigit(FinalValue(value, run.steps))
  {
    SearchIsSearchRun(CalculateOrdinalDifference, Matched, value, safety);
    Search(CalculateOrdinalDifference, Matched, value, safety)
  }

  /** What a search from `start` with `safety` steps allowed guarantees. */
  predicate IsRun(start: int, safety: nat, run: Run) {
    IsSearchRun(CalculateOrdinalDifference, Matched, start, safety, run)
  }

  /** The search meets its description: its steps are the chain of
      `calculateOrdinalDifference` calls from `value`, each from the previous
      difference; only the last can match; it finds a match exactly when the
      last step matches; the failure marker comes only after `safety`
      non-matching steps; and the range error only at a value outside
      1000..9999. */
  lemma IterateIsRun(value: int, safety: nat)
    ensures var run := Iterate(value, safety);
            && IsRun(value, safety, run)
            && (forall i :: 0 <= i < |run.steps| ==>
                  CalculateOrdinalDifference(ValueBefore(value, run.steps, i)) == Ok(run.steps[i]))
            && (forall i :: 0 <= i < |run.steps| ==> run.steps[i].value == ValueBefore(value, run.steps, i))
            && (run.outcome == OutOfRange ==> !IsFourDigit(FinalValue(value, run.steps)))
  {
    var run := Iterate(value, safety);
    SearchIsSearchRun(CalculateOrdinalDifference, Matched, value, safety);
    forall i | 0 <= i < |run.steps|
      ensures CalculateOrdinalDifference(ValueBefore(value, run.steps, i)) == Ok(run.steps[i])
      ensures run.steps[i].value == ValueBefore(value, run.steps, i)
    {
      ChainAt(CalculateOrdinalDifference, value, run.steps, i);
    }
  }

  /** A run that meets the description is the search. */
  lemma RunIsIterate(value: int, safety: nat, run: Run)
    requires IsRun(value, safety, run)
    ensures run == Iterate(value, safety)
  {
    SearchRunIsSearch(CalculateOrdinalDifference, Matched, value, safety, run);
  }

  /** A step whose difference has the same digits as its value leads to a
      fixed point: the step from that difference gives back the same two
      arrangements and the difference itself. */
  lemma MatchedIsFixedPoint(step: OrdinalDifference)
    requires CalculateOrdinalDifference(step.value) == Ok(step) && Matched(step)
    ensures CalculateOrdinalDifference(step.difference)
         == Ok(OrdinalDifference(step.difference, step.ascValue, step.descValue, step.difference))
  {
    var d := step.difference;
    HaveSameDigitsIff(step.value, d);
    FourDigitText(step.value);
    FourDigitText(d);
    StepDependsOnDigitsOnly(step.value, d);
  }

  /** When the search finds a match, its last difference is a fixed point. */
  lemma FoundIsFixedPoint(value: int, safety: nat)
    requires Iterate(value, safety).outcome == Found
    ensures var steps := Iterate(value, safety).steps;
            && steps != []
            && var last := steps[|steps| - 1];
            CalculateOrdinalDifference(last.difference)
              == Ok(OrdinalDifference(last.difference, last.ascValue, last.descValue, last.difference))
  {
    var steps := Iterate(value, safety).steps;
    SearchIsSearchRun(CalculateOrdinalDifference, Matched, value, safety);
    var k := |steps| - 1;
    ChainAt(CalculateOrdinalDifference, value, steps, k);
    MatchedIsFixedPoint(steps[k]);
  }

  /** A difference below 1000 never has the digits of the four-digit value
      it came from, so it ends the search with the range error at the next
      step, if a step is still allowed: from 1000 and from 1111 the second
      step throws. */
  lemma ShortDifferenceFails(value: int, safety: nat)
    requires safety >= 2 && CalculateOrdinalDifference(value).Ok?
    requires CalculateOrdinalDifference(value).value.difference < 1000
    ensures Iterate(value, safety) == Run([CalculateOrdinalDifference(value).value], OutOfRange)
  {
    var step := CalculateOrdinalDifference(value).value;
    HaveSameDigitsIff(step.value, step.difference);
    FourDigitText(step.value);
    FourDigitText(step.difference);
    assert !Matched(step);
    var run := Run([step], OutOfRange);
    assert [step][..0] == [] && [step][..1] == [step];
    RunIsIterate(value, safety, run);
  }

  /** From 6174 the first step already matches. */
  lemma IterateFrom6174()
    ensures Iterate(6174, SafetyLimit) == Run([OrdinalDifference(6174, 1467, 7641, 6174)], Found)
  {
    StepOf6174();
    HaveSameDigitsEquivalence(6174, 6174, 6174);
  }

  /** From 1000 the second step throws: 999 is not a four-digit number. */
  lemma IterateFrom1000()
    ensures Iterate(1000, SafetyLimit) == Run([OrdinalDifference(1000, 1, 1000, 999)], OutOfRange)
  {
    StepOf1000();
    ShortDifferenceFails(1000, SafetyLimit);
  }

  /** From 1111 the second step throws: 0 is not a four-digit number. */
  lemma IterateFrom1111()
    ensures Iterate(1111, SafetyLimit) == Run([OrdinalDifference(1111, 1111, 1111, 0)], OutOfRange)
  {
    StepOf1111();
    ShortDifferenceFails(1111, SafetyLimit);
  }

  /** The text the search returns for a run, or the error it throws. */
  function Trace(run: Run): (r: Result<seq<string>>)
    ensures r.Ok? <==> run.outcome != OutOfRange
    ensures r.Err? ==> r.message == RangeMessage
    ensures r.Ok? ==> |r.value| == 4 * |run.steps| + (if run.outcome == Exhausted then 4 else 3)
  {
    match run.outcome
    case OutOfRange => Err(RangeMessage)
    case Found => Ok([BeginLine] + Lines(run.steps) + [SeparatorLine, ""])
    case Exhausted => Ok([BeginLine] + Lines(run.steps) + [FailureLine] + [SeparatorLine, ""])
  }

  /** The trace opens with the banner and closes with the separator and an
      empty line. */
  lemma TraceFrame(run: Run)
    requires Trace(run).Ok?
    ensures var t := Trace(run).value;
            && |t| >= 3 && t[0] == BeginLine && t[|t| - 2..] == [SeparatorLine, ""]
  {
    var t := Trace(run).value;
    var head := [BeginLine] + Lines(run.steps);
    var closing: seq<string> := [SeparatorLine, ""];
    if run.outcome == Exhausted {
      SliceOfRight(head + [FailureLine], closing, |t| - 2, |t|);
    } else {
      SliceOfRight(head, closing, |t| - 2, |t|);
    }
  }

  /** The failure message stands before the closing lines exactly when the
      safety counter ran out. */
  lemma TraceFailureLine(run: Run)
    requires Trace(run).Ok?
    ensures var t := Trace(run).value;
            && |t| >= 3 && (t[|t| - 3] == FailureLine <==> run.outcome == Exhausted)
  {
    var t := Trace(run).value;
    var head := [BeginLine] + Lines(run.steps);
    if run.outcome != Exhausted {
      assert t[|t| - 3] == head[|head| - 1];
      if run.steps != [] {
        var k := |run.steps| - 1;
        assert Lines(run.steps) == Lines(run.steps[..k]) + OneResult(run.steps[k]);
        assert head[|head| - 1] == OneResult(run.steps[k])[3];
      }
      assert head[|head| - 1][0] == ' ' != FailureLine[0];
    }
  }

  /** Lines `4 * i + 1` to `4 * i + 4` of the trace show step `i`. */
  lemma TraceStepLines(run: Run, i: nat)
    requires Trace(run).Ok? && i < |run.steps|
    ensures Trace(run).value[4 * i + 1..4 * i + 5] == OneResult(run.steps[i])
  {
    var lines := Lines(run.steps);
    var head := [BeginLine] + lines;
    LinesAt(run.steps, i);
    SliceOfRight([BeginLine], lines, 4 * i + 1, 4 * i + 5);
    if run.outcome == Exhausted {
      SliceOfLeft(head, [FailureLine], 4 * i + 1, 4 * i + 5);
      SliceOfLeft(head + [FailureLine], [SeparatorLine, ""], 4 * i + 1, 4 * i + 5);
    } else {
      SliceOfLeft(head, [SeparatorLine, ""], 4 * i + 1, 4 * i + 5);
    }
  }

  /** The runs of a search that has already taken the steps `done`. */
  function Prepend(done: seq<OrdinalDifference>, run: Run): Run {
    Run(done + run.steps, run.outcome)
  }

  lemma PrependStep(done: seq<OrdinalDifference>, step: OrdinalDifference, run: Run)
    ensures Prepend(done, Extend(step, run)) == Prepend(done + [step], run)
  {
    assert done + ([step] + run.steps) == (done + [step]) + run.steps;
  }

  /** One turn of the loop, for a value the step accepts: a matching step
      ends the whole search with it, any other one leaves the search from its
      difference with one step fewer. */
  lemma SeekTurn(whole: Run, done: seq<OrdinalDifference>, value: int, safety: nat, step: OrdinalDifference)
    requires safety >= 1 && CalculateOrdinalDifference(value) == Ok(step)
    requires whole == Prepend(done, Iterate(value, safety))
    ensures Matched(step) ==> whole == Run(done + [step], Found)
    ensures !Matched(step) ==> whole == Prepend(done + [step], Iterate(step.difference, safety - 1))
  {
    if !Matched(step) {
      PrependStep(done, step, Iterate(step.difference, safety - 1));
    }
  }

  /** The loop's two early exits: no step left, or a value the step refuses. */
  lemma SeekStops(whole: Run, done: seq<OrdinalDifference>, value: int, safety: nat)
    requires whole == Prepend(done, Iterate(value, safety))
    ensures safety < 1 ==> whole == Run(done, Exhausted)
    ensures safety >= 1 && CalculateOrdinalDifference(value).Err? ==> whole == Run(done, OutOfRange)
  {
    assert done + [] == done;
  }

  lemma AppendAssociates<T>(a: seq<T>, b: seq<T>, c: seq<T>)
    ensures (a + b) + c == a + (b + c)
  {
  }

  /** `seekKaprekarsConstant`: the loop with its safety counter, building the
      output line by line. It returns the trace of the search from
      `startValue` with 30 steps allowed, or the range error a step threw. */
  method SeekKaprekarsConstant(startValue: int) returns (res: Result<seq<string>>)
    ensures res == Trace(Iterate(startValue, SafetyLimit))
  {
    var value := startValue;
    var output := [BeginLine];
    var found := false;
    var safety: int := SafetyLimit;
    ghost var done: seq<OrdinalDifference> := [];
    while !found
      invariant 0 <= safety <= SafetyLimit
      invariant output == [BeginLine] + Lines(done)
      invariant !found ==> Iterate(startValue, SafetyLimit) == Prepend(done, Iterate(value, safety))
      invariant found ==> Iterate(startValue, SafetyLimit) == Run(done, Found)
      decreases safety
    {
      SeekStops(Iterate(startValue, SafetyLimit), done, value, safety);
      if safety < 1 {
        output := output + [FailureLine];
        break;
      }
      safety := safety - 1;

      var result := CalculateOrdinalDifference(value);
      if result.Err? {
        return Err(result.message);
      }
      var step := result.value;
      SeekTurn(Iterate(startValue, SafetyLimit), done, value, safety + 1, step);
      LinesSnoc(done, step);
      AppendAssociates([BeginLine], Lines(done), OneResult(step));
      output := output + OneResult(step);

      found := HaveSameDigits(value, step.difference);
      value := step.difference;
      done := done + [step];
    }
    output := output + [SeparatorLine, ""];
    res := Ok(output);
  }
}
