/** Decimal text of non-negative integers, as JavaScript produces and reads it:
    `Number.prototype.toString()` for a non-negative integer, `split('')` followed
    by `map(Number)` on such text, `join('')` of a digit array and `parseInt(s, 10)`
    on a string made only of decimal digits. */
module Decimal {

  /** A decimal digit, the value `Number(c)` gives for a character '0'..'9'. */
  type Digit = d: nat | d < 10

  function Pow10(k: nat): (p: nat)
    ensures p >= 1
  {
    if k == 0 then 1 else 10 * Pow10(k - 1)
  }

  predicate IsDigitChar(c: char) {
    '0' <= c <= '9'
  }

  predicate IsDigitText(s: string) {
    forall i :: 0 <= i < |s| ==> IsDigitChar(s[i])
  }

  /** The character that `join('')` writes for a digit. */
  function DigitChar(d: Digit): (c: char)
    ensures IsDigitChar(c) && c as int - '0' as int == d
  {
    ('0' as int + d) as char
  }

  /** `Number(c)` for a digit character. */
  function CharDigit(c: char): (d: Digit)
    requires IsDigitChar(c)
    ensures DigitChar(d) == c
  {
    c as int - '0' as int
  }

  /** The decimal digits of `n`, most significant first: one digit for a
      number below ten, otherwise the digits of `n / 10` and then `n % 10`.
      Only zero itself starts with the digit 0. */
  function DigitsOf(n: nat): (ds: seq<Digit>)
    ensures |ds| >= 1
    ensures (ds[0] == 0) == (n == 0)
    ensures n < 10 <==> |ds| == 1
  {
    if n < 10 then [n] else DigitsOf(n / 10) + [n % 10]
  }

  /** `n.toString()`: the digits of `n` written out, so the shortest decimal
      text of `n`; it starts with '0' only when `n` is zero, and then it is "0". */
  function ToDecimal(n: nat): (s: string)
    ensures |s| == |DigitsOf(n)| && IsDigitText(s)
    ensures (s[0] == '0') == (n == 0)
  {
    var s := Join(DigitsOf(n));
    assert s[0] == DigitChar(DigitsOf(n)[0]);
    s
  }

  /** `s.split('').map(Number)` for a text made of digits. */
  function Digits(s: string): (ds: seq<Digit>)
    requires IsDigitText(s)
    ensures |ds| == |s|
  {
    seq(|s|, i requires 0 <= i < |s| => CharDigit(s[i]))
  }

  /** `ds.join('')` for an array of digits. */
  function Join(ds: seq<Digit>): (s: string)
    ensures |s| == |ds| && IsDigitText(s)
  {
    seq(|ds|, i requires 0 <= i < |ds| => DigitChar(ds[i]))
  }

  /** The number a digit sequence denotes, read left to right as `parseInt` does:
      every digit multiplies what was read so far by ten, so leading zeros add
      nothing. It is below ten to the number of digits. */
  function ValueOf(ds: seq<Digit>): (v: nat)
    ensures v < Pow10(|ds|)
  {
    if ds == [] then 0 else 10 * ValueOf(ds[..|ds| - 1]) + ds[|ds| - 1]
  }

  /** `parseInt(s, 10)` for a text made only of digits: below ten to the
      length of the text. */
  function ParseInt(s: string): (p: nat)
    requires IsDigitText(s)
    ensures p < Pow10(|s|)
  {
    ValueOf(Digits(s))
  }

  lemma DigitsJoin(ds: seq<Digit>)
    ensures Digits(Join(ds)) == ds
  {
    var s := Join(ds);
    forall i | 0 <= i < |ds| ensures Digits(s)[i] == ds[i] {
      assert s[i] == DigitChar(ds[i]);
    }
  }

  /** `join('')` loses nothing: distinct digit arrays give distinct strings. */
  lemma JoinInjective(a: seq<Digit>, b: seq<Digit>)
    ensures Join(a) == Join(b) <==> a == b
  {
    if Join(a) == Join(b) {
      DigitsJoin(a);
      DigitsJoin(b);
    }
  }

  lemma DigitsPrependZero(s: string)
    requires IsDigitText(s)
    ensures IsDigitText("0" + s) && Digits("0" + s) == [0] + Digits(s)
  {
    var z := "0" + s;
    assert IsDigitText(z) by {
      forall i | 0 <= i < |z| ensures IsDigitChar(z[i]) {
        if i > 0 { assert z[i] == s[i - 1]; }
      }
    }
    var l, r := Digits(z), [0] + Digits(s);
    forall i | 0 <= i < |l| ensures l[i] == r[i] {
      if i > 0 { assert z[i] == s[i - 1]; }
    }
  }

  /** Reading a digit sequence from its first digit: the leading digit weighs
      ten to the power of the number of digits after it. */
  lemma {:induction false} ValueOfCons(d: Digit, ds: seq<Digit>)
    ensures ValueOf([d] + ds) == d * Pow10(|ds|) + ValueOf(ds)
  {
    if ds == [] {
      assert ([d] + ds)[..0] == [];
    } else {
      var init := ds[..|ds| - 1];
      assert ([d] + ds)[..|ds|] == [d] + init;
      ValueOfCons(d, init);
      var p, last := Pow10(|init|), ds[|ds| - 1];
      assert Pow10(|ds|) == 10 * p;
      assert ValueOf(ds) == 10 * ValueOf(init) + last;
      calc {
        ValueOf([d] + ds);
        10 * ValueOf([d] + init) + last;
        10 * (d * p + ValueOf(init)) + last;
        { TenTimes(d, p); }
        d * (10 * p) + ValueOf(ds);
      }
    }
  }

  lemma TenTimes(d: nat, p: nat)
    ensures 10 * (d * p) == d * (10 * p)
  {}

  /** Between digit sequences of one length, a smaller leading digit gives a
      smaller number whatever follows it. */
  lemma LeadingDigitDecides(a: seq<Digit>, b: seq<Digit>)
    requires |a| == |b| > 0 && a[0] < b[0]
    ensures ValueOf(a) < ValueOf(b)
  {
    assert a == [a[0]] + a[1..] && b == [b[0]] + b[1..];
    ValueOfCons(a[0], a[1..]);
    ValueOfCons(b[0], b[1..]);
    LeadingTermDecides(a[0], b[0], Pow10(|a| - 1), ValueOf(a[1..]), ValueOf(b[1..]));
  }

  lemma LeadingTermDecides(x: nat, y: nat, p: nat, u: nat, v: nat)
    requires x < y && u < p
    ensures x * p + u < y * p + v
  {
    MulMonotone(x + 1, y, p);
  }

  lemma MulMonotone(x: nat, y: nat, p: nat)
    requires x <= y
    ensures x * p <= y * p
  {
  }

  /** Between digit sequences of one length with the same leading digit, the
      rest decides. */
  lemma LeadingDigitEqual(a: seq<Digit>, b: seq<Digit>)
    requires |a| == |b| > 0 && a[0] == b[0]
    ensures ValueOf(a) - ValueOf(a[1..]) == ValueOf(b) - ValueOf(b[1..])
  {
    assert a == [a[0]] + a[1..] && b == [b[0]] + b[1..];
    ValueOfCons(a[0], a[1..]);
    ValueOfCons(b[0], b[1..]);
  }

  /** Reading the digits of `n` back gives `n`. */
  lemma {:induction false} ValueOfDigitsOf(n: nat)
    ensures ValueOf(DigitsOf(n)) == n
  {
    var ds := DigitsOf(n);
    if n < 10 {
      assert ds[..0] == [];
    } else {
      ValueOfDigitsOf(n / 10);
      assert ds[..|ds| - 1] == DigitsOf(n / 10);
    }
  }

  /** `n.toString().split('').map(Number)` gives the digits of `n`. */
  lemma SplitToDecimal(n: nat)
    ensures Digits(ToDecimal(n)) == DigitsOf(n)
  {
    DigitsJoin(DigitsOf(n));
  }

  /** `parseInt(ds.join(''), 10)` is the number the digits denote. */
  lemma ParseJoin(ds: seq<Digit>)
    ensures ParseInt(Join(ds)) == ValueOf(ds)
  {
    DigitsJoin(ds);
  }

  /** `parseInt(n.toString(), 10) == n`. */
  lemma ParseToDecimal(n: nat)
    ensures ParseInt(ToDecimal(n)) == n
  {
    ParseJoin(DigitsOf(n));
    ValueOfDigitsOf(n);
  }

  /** The number of digits of `n` brackets `n` between powers of ten. */
  lemma DigitsOfLength(n: nat)
    ensures n < Pow10(|DigitsOf(n)|)
    ensures n >= 10 ==> Pow10(|DigitsOf(n)| - 1) <= n
  {
    var ds := DigitsOf(n);
    ValueOfDigitsOf(n);
    if n >= 10 {
      var head, p := ds[0], Pow10(|ds| - 1);
      assert ds == [head] + ds[1..];
      ValueOfCons(head, ds[1..]);
      assert n == head * p + ValueOf(ds[1..]);
      MulMonotone(1, head, p);
    }
  }

  /** `n.toString()` has exactly four characters exactly for 1000..9999. */
  lemma FourDigitText(n: nat)
    ensures |ToDecimal(n)| == 4 <==> 1000 <= n <= 9999
  {
    DigitsOfLength(n);
    var k := |DigitsOf(n)|;
    if n >= 10 {
      PowMonotone(k, 3);
      PowMonotone(4, k - 1);
    }
    assert Pow10(3) == 1000 && Pow10(4) == 10000 && Pow10(5) == 100000;
  }

  /** The number four digits denote. */
  lemma ValueOfFour(a: Digit, b: Digit, c: Digit, d: Digit)
    ensures ValueOf([a, b, c, d]) == 1000 * a + 100 * b + 10 * c + d
  {
    assert [a][..0] == [];
    assert ValueOf([a]) == a;
    assert [a, b][..1] == [a];
    assert ValueOf([a, b]) == 10 * a + b;
    assert [a, b, c][..2] == [a, b];
    assert ValueOf([a, b, c]) == 100 * a + 10 * b + c;
    assert [a, b, c, d][..3] == [a, b, c];
  }

  lemma {:induction false} PowMonotone(i: nat, j: nat)
    ensures i <= j ==> Pow10(i) <= Pow10(j)
  {
    if i < j {
      PowMonotone(i, j - 1);
    }
  }
}
