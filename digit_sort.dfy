/** Sorting an array of digits, as `digits.slice().sort((a, b) => a - b)` and
    `digits.slice().sort((a, b) => b - a)` do, and what the sorted arrangements
    are worth when read back as numbers. */
module DigitSort {
  import opened Decimal

  predicate IsAscending(s: seq<Digit>) {
    forall i, j :: 0 <= i < j < |s| ==> s[i] <= s[j]
  }

  predicate IsDescending(s: seq<Digit>) {
    forall i, j :: 0 <= i < j < |s| ==> s[i] >= s[j]
  }

  lemma AscendingCons(x: Digit, s: seq<Digit>)
    requires IsAscending(s) && forall k :: 0 <= k < |s| ==> x <= s[k]
    ensures IsAscending([x] + s)
  {
    var r := [x] + s;
    forall i, j | 0 <= i < j < |r| ensures r[i] <= r[j] {
      assert r[j] == s[j - 1];
      if i > 0 { assert r[i] == s[i - 1]; }
    }
  }

  /** `x` placed before the first element of `s` that it does not follow. */
  function InsertAscending(x: Digit, s: seq<Digit>): (r: seq<Digit>)
    ensures |r| == |s| + 1
  {
    if s == [] || x <= s[0] then [x] + s else [s[0]] + InsertAscending(x, s[1..])
  }

  /** The array sorted with the comparator `(a, b) => a - b`, by insertion. */
  function SortAscending(s: seq<Digit>): (r: seq<Digit>)
    ensures |r| == |s|
  {
    if s == [] then [] else InsertAscending(s[0], SortAscending(s[1..]))
  }

  /** Whatever holds the tail of `s` and `x` follows the head of `s`. */
  lemma HeadBoundsAscending(s: seq<Digit>, x: Digit, rest: seq<Digit>)
    requires IsAscending(s) && s != [] && s[0] <= x
    requires multiset(rest) == multiset(s[1..]) + multiset{x}
    ensures forall k :: 0 <= k < |rest| ==> s[0] <= rest[k]
  {
    forall k | 0 <= k < |rest| ensures s[0] <= rest[k] {
      assert rest[k] in multiset(rest);
      if rest[k] != x {
        var j :| 0 <= j < |s[1..]| && s[1..][j] == rest[k];
        assert s[j + 1] == rest[k];
      }
    }
  }

  /** Inserting into an ascending sequence keeps it ascending and adds `x`. */
  lemma {:induction false} InsertAscendingSorted(x: Digit, s: seq<Digit>)
    requires IsAscending(s)
    ensures IsAscending(InsertAscending(x, s))
    ensures multiset(InsertAscending(x, s)) == multiset(s) + multiset{x}
  {
    if s == [] || x <= s[0] {
      AscendingCons(x, s);
    } else {
      var tail := s[1..];
      var rest := InsertAscending(x, tail);
      AscendingTail(s);
      InsertAscendingSorted(x, tail);
      assert InsertAscending(x, s) == [s[0]] + rest;
      HeadBoundsAscending(s, x, rest);
      AscendingCons(s[0], rest);
      assert s == [s[0]] + tail;
    }
  }

  /** The sorted array is ascending and holds the same digits. */
  lemma {:induction false} SortAscendingSorted(s: seq<Digit>)
    ensures IsAscending(SortAscending(s))
    ensures multiset(SortAscending(s)) == multiset(s)
  {
    if s != [] {
      SortAscendingSorted(s[1..]);
      InsertAscendingSorted(s[0], SortAscending(s[1..]));
      assert s == [s[0]] + s[1..];
    }
  }

  lemma DescendingCons(x: Digit, s: seq<Digit>)
    requires IsDescending(s) && forall k :: 0 <= k < |s| ==> x >= s[k]
    ensures IsDescending([x] + s)
  {
    var r := [x] + s;
    forall i, j | 0 <= i < j < |r| ensures r[i] >= r[j] {
      assert r[j] == s[j - 1];
      if i > 0 { assert r[i] == s[i - 1]; }
    }
  }

  /** `x` placed before the first element of `s` that it does not follow. */
  function InsertDescending(x: Digit, s: seq<Digit>): (r: seq<Digit>)
    ensures |r| == |s| + 1
  {
    if s == [] || x >= s[0] then [x] + s else [s[0]] + InsertDescending(x, s[1..])
  }

  /** The array sorted with the comparator `(a, b) => b - a`, by insertion. */
  function SortDescending(s: seq<Digit>): (r: seq<Digit>)
    ensures |r| == |s|
  {
    if s == [] then [] else InsertDescending(s[0], SortDescending(s[1..]))
  }

  /** Whatever holds the tail of `s` and `x` follows the head of `s`. */
  lemma HeadBoundsDescending(s: seq<Digit>, x: Digit, rest: seq<Digit>)
    requires IsDescending(s) && s != [] && s[0] >= x
    requires multiset(rest) == multiset(s[1..]) + multiset{x}
    ensures forall k :: 0 <= k < |rest| ==> s[0] >= rest[k]
  {
    forall k | 0 <= k < |rest| ensures s[0] >= rest[k] {
      assert rest[k] in multiset(rest);
      if rest[k] != x {
        var j :| 0 <= j < |s[1..]| && s[1..][j] == rest[k];
        assert s[j + 1] == rest[k];
      }
    }
  }

  /** Inserting into a descending sequence keeps it descending and adds `x`. */
  lemma {:induction false} InsertDescendingSorted(x: Digit, s: seq<Digit>)
    requires IsDescending(s)
    ensures IsDescending(InsertDescending(x, s))
    ensures multiset(InsertDescending(x, s)) == multiset(s) + multiset{x}
  {
    if s == [] || x >= s[0] {
      DescendingCons(x, s);
    } else {
      var tail := s[1..];
      var rest := InsertDescending(x, tail);
      DescendingTail(s);
      InsertDescendingSorted(x, tail);
      assert InsertDescending(x, s) == [s[0]] + rest;
      HeadBoundsDescending(s, x, rest);
      DescendingCons(s[0], rest);
      assert s == [s[0]] + tail;
    }
  }

  /** The sorted array is descending and holds the same digits. */
  lemma {:induction false} SortDescendingSorted(s: seq<Digit>)
    ensures IsDescending(SortDescending(s))
    ensures multiset(SortDescending(s)) == multiset(s)
  {
    if s != [] {
      SortDescendingSorted(s[1..]);
      InsertDescendingSorted(s[0], SortDescending(s[1..]));
      assert s == [s[0]] + s[1..];
    }
  }

  lemma TailMultiset(s: seq<Digit>)
    requires s != []
    ensures multiset(s[1..]) == multiset(s) - multiset{s[0]}
  {
    assert s == [s[0]] + s[1..];
  }

  lemma AscendingTail(s: seq<Digit>)
    requires IsAscending(s) && s != []
    ensures IsAscending(s[1..])
  {
  }

  lemma DescendingTail(s: seq<Digit>)
    requires IsDescending(s) && s != []
    ensures IsDescending(s[1..])
  {
  }

  /** The first digit of an ascending arrangement is its least. */
  lemma AscendingHead(s: seq<Digit>, x: Digit)
    requires IsAscending(s) && x in multiset(s)
    ensures s[0] <= x
  {
    var k :| 0 <= k < |s| && s[k] == x;
  }

  /** The first digit of a descending arrangement is its greatest. */
  lemma DescendingHead(s: seq<Digit>, x: Digit)
    requires IsDescending(s) && x in multiset(s)
    ensures s[0] >= x
  {
    var k :| 0 <= k < |s| && s[k] == x;
  }

  /** There is only one ascending arrangement of a multiset of digits. */
  lemma {:induction false} AscendingUnique(s: seq<Digit>, t: seq<Digit>)
    requires IsAscending(s) && IsAscending(t) && multiset(s) == multiset(t)
    ensures s == t
  {
    assert |s| == |multiset(s)| == |t|;
    if s != [] {
      assert s[0] in multiset(s) && t[0] in multiset(t);
      AscendingHead(s, t[0]);
      AscendingHead(t, s[0]);
      SameHeadTails(s, t);
      AscendingTail(s);
      AscendingTail(t);
      AscendingUnique(s[1..], t[1..]);
      assert s == [s[0]] + s[1..];
      assert t == [t[0]] + t[1..];
    }
  }

  /** There is only one descending arrangement of a multiset of digits. */
  lemma {:induction false} DescendingUnique(s: seq<Digit>, t: seq<Digit>)
    requires IsDescending(s) && IsDescending(t) && multiset(s) == multiset(t)
    ensures s == t
  {
    assert |s| == |multiset(s)| == |t|;
    if s != [] {
      assert s[0] in multiset(s) && t[0] in multiset(t);
      DescendingHead(s, t[0]);
      DescendingHead(t, s[0]);
      SameHeadTails(s, t);
      DescendingTail(s);
      DescendingTail(t);
      DescendingUnique(s[1..], t[1..]);
      assert s == [s[0]] + s[1..];
      assert t == [t[0]] + t[1..];
    }
  }

  /** Arrangements of the same digits that start alike continue with the same
      digits. */
  lemma SameHeadTails(s: seq<Digit>, t: seq<Digit>)
    requires s != [] && t != [] && s[0] == t[0] && multiset(s) == multiset(t)
    ensures multiset(s[1..]) == multiset(t[1..])
  {
    TailMultiset(s);
    TailMultiset(t);
  }

  /** Of all arrangements of the same digits, the ascending one reads as the
      smallest number. */
  lemma {:induction false} AscendingIsSmallest(s: seq<Digit>, t: seq<Digit>)
    requires IsAscending(s) && multiset(s) == multiset(t)
    ensures ValueOf(s) <= ValueOf(t)
  {
    assert |s| == |multiset(s)| == |t|;
    if s != [] {
      assert t[0] in multiset(t);
      AscendingHead(s, t[0]);
      if s[0] == t[0] {
        SameHeadTails(s, t);
        AscendingTail(s);
        AscendingIsSmallest(s[1..], t[1..]);
        LeadingDigitEqual(s, t);
      } else {
        LeadingDigitDecides(s, t);
      }
    }
  }

  /** Of all arrangements of the same digits, the descending one reads as the
      largest number. */
  lemma {:induction false} DescendingIsLargest(s: seq<Digit>, t: seq<Digit>)
    requires IsDescending(s) && multiset(s) == multiset(t)
    ensures ValueOf(t) <= ValueOf(s)
  {
    assert |s| == |multiset(s)| == |t|;
    if s != [] {
      assert t[0] in multiset(t);
      DescendingHead(s, t[0]);
      if s[0] == t[0] {
        SameHeadTails(s, t);
        DescendingTail(s);
        DescendingIsLargest(s[1..], t[1..]);
        LeadingDigitEqual(s, t);
      } else {
        LeadingDigitDecides(t, s);
      }
    }
  }
}
