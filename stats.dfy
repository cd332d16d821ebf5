/** The arithmetic the finalizer applies to a sample list: `sorted`, `sum`,
    the truncated mean `int(sum(xs) / len(xs))` and the median. */
module Stats {

  ghost predicate Sorted(s: seq<int>) {
    forall i, j :: 0 <= i < j < |s| ==> s[i] <= s[j]
  }

  /** `sum(xs)`. */
  function Sum(s: seq<int>): int {
    if s == [] then 0 else s[0] + Sum(s[1..])
  }

  /** Appending a sample adds it to the sum. */
  lemma {:induction false} SumAppend(s: seq<int>, x: int)
    ensures Sum(s + [x]) == Sum(s) + x
  {
    if s != [] {
      assert (s + [x])[1..] == s[1..] + [x];
      SumAppend(s[1..], x);
    }
  }

  function Insert(x: int, s: seq<int>): seq<int> {
    if s == [] || x <= s[0] then [x] + s else [s[0]] + Insert(x, s[1..])
  }

  lemma {:induction false} InsertBelow(x: int, s: seq<int>, lo: int)
    requires lo <= x && forall k :: 0 <= k < |s| ==> lo <= s[k]
    ensures forall k :: 0 <= k < |Insert(x, s)| ==> lo <= Insert(x, s)[k]
  {
    if s != [] && x > s[0] {
      InsertBelow(x, s[1..], lo);
    }
  }

  lemma {:induction false} InsertSorted(x: int, s: seq<int>)
    requires Sorted(s)
    ensures Sorted(Insert(x, s))
  {
    if s != [] && x > s[0] {
      InsertSorted(x, s[1..]);
      InsertBelow(x, s[1..], s[0]);
    }
  }

  lemma {:induction false} InsertCounts(x: int, s: seq<int>)
    ensures multiset(Insert(x, s)) == multiset(s) + multiset{x}
    ensures |Insert(x, s)| == |s| + 1 && Sum(Insert(x, s)) == x + Sum(s)
  {
    if s != [] && x > s[0] {
      InsertCounts(x, s[1..]);
      assert s == [s[0]] + s[1..];
    }
  }

  /** `sorted(xs)`: the same values in ascending order, with the same sum. */
  function Sort(s: seq<int>): (r: seq<int>)
    ensures Sorted(r) && multiset(r) == multiset(s)
    ensures |r| == |s| && Sum(r) == Sum(s)
  {
    if s == [] then []
    else
      assert s == [s[0]] + s[1..];
      InsertSorted(s[0], Sort(s[1..]));
      InsertCounts(s[0], Sort(s[1..]));
      Insert(s[0], Sort(s[1..]))
  }

  lemma SortedHeadIsLeast(s: seq<int>, x: int)
    requires Sorted(s) && x in s
    ensures s[0] <= x
  {
    var j :| 0 <= j < |s| && s[j] == x;
    assert j == 0 || s[0] <= s[j];
  }

  lemma SortedTail(s: seq<int>)
    requires Sorted(s) && s != []
    ensures Sorted(s[1..])
  {
    forall i, j | 0 <= i < j < |s| - 1 ensures s[1..][i] <= s[1..][j] {
      assert s[1..][i] == s[i + 1] && s[1..][j] == s[j + 1];
    }
  }

  lemma TailMultiset(a: seq<int>)
    requires a != []
    ensures multiset(a[1..]) == multiset(a) - multiset{a[0]}
  {
    assert a == [a[0]] + a[1..];
  }

  /** Two ascending lists that hold the same values start alike. */
  lemma SortedSameHead(a: seq<int>, b: seq<int>)
    requires Sorted(a) && Sorted(b) && multiset(a) == multiset(b) && a != [] && b != []
    ensures a[0] == b[0]
  {
    assert a[0] in multiset(b);
    assert b[0] in multiset(a);
    SortedHeadIsLeast(b, a[0]);
    SortedHeadIsLeast(a, b[0]);
  }

  /** Two ascending lists holding the same values are the same list, so
      `Sort` is the only function with its contract. */
  lemma {:induction false} SortedUnique(a: seq<int>, b: seq<int>)
    requires Sorted(a) && Sorted(b) && multiset(a) == multiset(b)
    ensures a == b
    decreases |a|
  {
    assert |a| == |b| by {
      assert |a| == |multiset(a)|;
      assert |b| == |multiset(b)|;
    }
    if a != [] {
      SortedSameHead(a, b);
      TailMultiset(a);
      TailMultiset(b);
      SortedTail(a);
      SortedTail(b);
      SortedUnique(a[1..], b[1..]);
      assert a == [a[0]] + a[1..] && b == [b[0]] + b[1..];
    }
  }

  /** Sorting forgets the order the samples arrived in. */
  lemma SortIgnoresOrder(s: seq<int>, t: seq<int>)
    requires multiset(s) == multiset(t)
    ensures Sort(s) == Sort(t)
  {
    SortedUnique(Sort(s), Sort(t));
  }

  /** Division truncating toward zero, as `int()` of a quotient rounds
      (`int(-7 / 2) == -3`), for a positive divisor. */
  function TruncDiv(a: int, b: int): (q: int)
    requires b > 0
    ensures a >= 0 ==> q * b <= a < (q + 1) * b
    ensures a < 0 ==> (q - 1) * b < a <= q * b
  {
    if a >= 0 then a / b
    else
      var p := (-a) / b;
      assert p * b <= -a < (p + 1) * b;
      -p
  }

  /** `int(sum(xs) / len(xs))`: the mean, truncated toward zero. */
  function MeanTrunc(s: seq<int>): int
    requires |s| > 0
  {
    TruncDiv(Sum(s), |s|)
  }

  /** The truncated mean lies within one unit of the exact mean, on the side
      of zero. */
  lemma MeanTruncBounds(s: seq<int>)
    requires |s| > 0
    ensures Sum(s) >= 0 ==> MeanTrunc(s) * |s| <= Sum(s) < (MeanTrunc(s) + 1) * |s|
    ensures Sum(s) < 0 ==> (MeanTrunc(s) - 1) * |s| < Sum(s) <= MeanTrunc(s) * |s|
  {
  }

  /** The median of an ascending list: its middle element when the length is
      odd, the mean of its two middle elements when it is even (as Python's
      `/ 2` gives a float there). */
  function Median(s: seq<int>): real
    requires |s| > 0
  {
    var n := |s|;
    if n % 2 == 0 then (s[n / 2 - 1] + s[n / 2]) as real / 2.0 else s[n / 2] as real
  }

  /** The median splits the ascending list in two halves: every element of
      the lower half is at most the median, every element of the upper half
      at least, so it lies between the smallest and the largest sample. */
  lemma MedianSplits(s: seq<int>)
    requires |s| > 0 && Sorted(s)
    ensures forall i :: 0 <= i <= (|s| - 1) / 2 ==> s[i] as real <= Median(s)
    ensures forall i :: |s| / 2 <= i < |s| ==> Median(s) <= s[i] as real
    ensures s[0] as real <= Median(s) <= s[|s| - 1] as real
  {
  }

  /** The median of samples in any order is the median of any ascending
      arrangement of them. */
  lemma MedianOfSorted(s: seq<int>, a: seq<int>)
    requires multiset(s) == multiset(a) && Sorted(a) && |s| > 0
    ensures Median(Sort(s)) == Median(a)
  {
    SortedUnique(Sort(s), a);
  }

  /** The worked even case: samples 10, 20, 30 and 40, in any order, have
      median 25. */
  lemma MedianOfFour(s: seq<int>)
    requires multiset(s) == multiset([10, 20, 30, 40])
    ensures Median(Sort(s)) == 25.0
  {
    var a := [10, 20, 30, 40];
    assert |s| == 4 by { assert |multiset(s)| == 4; }
    MedianOfSorted(s, a);
    assert Median(a) == 25.0;
  }

  /** The worked odd case: samples 10, 20 and 30, in any order, have median 20. */
  lemma MedianOfThree(s: seq<int>)
    requires multiset(s) == multiset([10, 20, 30])
    ensures Median(Sort(s)) == 20.0
  {
    var a := [10, 20, 30];
    assert |s| == 3 by { assert |multiset(s)| == 3; }
    MedianOfSorted(s, a);
    assert Median(a) == 20.0;
  }
}
