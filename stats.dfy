/** Sums, means, medians and rounding over exact reals, as pandas and numpy compute them. */
module Stats {

  function Sum(xs: seq<real>): real
  {
    if xs == [] then 0.0 else xs[0] + Sum(xs[1..])
  }

  /** The arithmetic mean of a non-empty sequence. */
  function Mean(xs: seq<real>): real
    requires |xs| > 0
  {
    Sum(xs) / |xs| as real
  }

  lemma {:induction false} SumOfConstant(xs: seq<real>, v: real)
    requires forall k :: 0 <= k < |xs| ==> xs[k] == v
    ensures Sum(xs) == v * |xs| as real
  {
    if xs != [] {
      SumOfConstant(xs[1..], v);
    }
  }

  lemma {:induction false} SumAbove(xs: seq<real>, lo: real)
    requires forall k :: 0 <= k < |xs| ==> xs[k] > lo
    ensures xs != [] ==> Sum(xs) > lo * |xs| as real
  {
    if xs != [] {
      SumAbove(xs[1..], lo);
    }
  }

  lemma {:induction false} SumBounds(xs: seq<real>, lo: real, hi: real)
    requires forall k :: 0 <= k < |xs| ==> lo <= xs[k] <= hi
    ensures lo * |xs| as real <= Sum(xs) <= hi * |xs| as real
  {
    if xs != [] {
      SumBounds(xs[1..], lo, hi);
    }
  }

  /** The mean of samples that all equal `v` is `v`. */
  lemma MeanOfConstant(xs: seq<real>, v: real)
    requires |xs| > 0
    requires forall k :: 0 <= k < |xs| ==> xs[k] == v
    ensures Mean(xs) == v
  {
    SumOfConstant(xs, v);
  }

  /** The mean lies between the smallest and the largest sample. */
  lemma MeanBounds(xs: seq<real>, lo: real, hi: real)
    requires |xs| > 0
    requires forall k :: 0 <= k < |xs| ==> lo <= xs[k] <= hi
    ensures lo <= Mean(xs) <= hi
  {
    SumBounds(xs, lo, hi);
    var n := |xs| as real;
    assert Sum(xs) / n >= lo by {
      assert Sum(xs) >= lo * n;
    }
    assert Sum(xs) / n <= hi by {
      assert Sum(xs) <= hi * n;
    }
  }

  /** The mean of positive samples is positive. */
  lemma MeanPositive(xs: seq<real>)
    requires |xs| > 0
    requires forall k :: 0 <= k < |xs| ==> xs[k] > 0.0
    ensures Mean(xs) > 0.0
  {
    SumAbove(xs, 0.0);
  }

  ghost predicate Sorted(s: seq<real>)
  {
    forall i, j :: 0 <= i < j < |s| ==> s[i] <= s[j]
  }

  /** Places `x` before the first element of `s` that is not smaller. */
  function Insert(x: real, s: seq<real>): (r: seq<real>)
    ensures |r| == |s| + 1
  {
    if s == [] then [x]
    else if x <= s[0] then [x] + s
    else [s[0]] + Insert(x, s[1..])
  }

  /** Insertion sort. */
  function Sort(xs: seq<real>): (r: seq<real>)
    ensures |r| == |xs|
  {
    if xs == [] then [] else Insert(xs[0], Sort(xs[1..]))
  }

  lemma {:induction false} InsertPermutes(x: real, s: seq<real>)
    ensures multiset(Insert(x, s)) == multiset(s) + multiset{x}
  {
    if s != [] && !(x <= s[0]) {
      InsertPermutes(x, s[1..]);
      assert s == [s[0]] + s[1..];
    }
  }

  lemma {:induction false} InsertSorted(x: real, s: seq<real>)
    requires Sorted(s)
    ensures Sorted(Insert(x, s)) && multiset(Insert(x, s)) == multiset(s) + multiset{x}
  {
    InsertPermutes(x, s);
    if s != [] && !(x <= s[0]) {
      var rest := Insert(x, s[1..]);
      InsertSorted(x, s[1..]);
      InsertPermutes(x, s[1..]);
      forall k | 0 <= k < |rest| ensures s[0] <= rest[k] {
        assert rest[k] in multiset(s[1..]) + multiset{x};
        if rest[k] != x {
          assert rest[k] in s[1..];
        }
      }
      assert Insert(x, s) == [s[0]] + rest;
    }
  }

  /** Sort yields an ascending arrangement of exactly the given samples. */
  lemma {:induction false} SortSorted(xs: seq<real>)
    ensures Sorted(Sort(xs)) && multiset(Sort(xs)) == multiset(xs)
  {
    if xs != [] {
      SortSorted(xs[1..]);
      InsertSorted(xs[0], Sort(xs[1..]));
      assert xs == [xs[0]] + xs[1..];
    }
  }

  /** The median as pandas computes it: the middle sample, or the mean of the two middle samples. */
  function Median(xs: seq<real>): real
    requires |xs| > 0
  {
    Middle(Sort(xs))
  }

  /** The middle element of `s`, or the mean of its two middle elements. */
  function Middle(s: seq<real>): real
    requires |s| > 0
  {
    var n := |s|;
    if n % 2 == 1 then s[n / 2] else (s[n / 2 - 1] + s[n / 2]) / 2.0
  }

  /** Every sample multiplied by two. */
  function Doubled(xs: seq<real>): (r: seq<real>)
    ensures |r| == |xs|
  {
    if xs == [] then [] else [xs[0] * 2.0] + Doubled(xs[1..])
  }

  lemma DoubledCons(a: real, rest: seq<real>)
    ensures Doubled([a] + rest) == [a * 2.0] + Doubled(rest)
  {
    assert ([a] + rest)[1..] == rest;
  }

  lemma {:induction false} DoubledAt(xs: seq<real>, i: nat)
    requires i < |xs|
    ensures Doubled(xs)[i] == xs[i] * 2.0
  {
    if i > 0 {
      DoubledAt(xs[1..], i - 1);
    }
  }

  lemma {:induction false} InsertDouble(x: real, s: seq<real>)
    ensures Insert(x * 2.0, Doubled(s)) == Doubled(Insert(x, s))
  {
    if s == [] {
      assert Doubled([x]) == [x * 2.0] + Doubled([]);
    } else {
      var t := Doubled(s);
      assert t == [s[0] * 2.0] + Doubled(s[1..]);
      if x <= s[0] {
        DoubledCons(x, s);
      } else {
        InsertDouble(x, s[1..]);
        DoubledCons(s[0], Insert(x, s[1..]));
      }
    }
  }

  lemma {:induction false} SortDouble(xs: seq<real>)
    ensures Sort(Doubled(xs)) == Doubled(Sort(xs))
  {
    if xs != [] {
      var ys := Doubled(xs);
      assert ys[1..] == Doubled(xs[1..]);
      SortDouble(xs[1..]);
      InsertDouble(xs[0], Sort(xs[1..]));
    }
  }

  lemma MiddleDouble(s: seq<real>)
    requires |s| > 0
    ensures Middle(Doubled(s)) == 2.0 * Middle(s)
  {
    var t := Doubled(s);
    forall i | 0 <= i < |s| ensures t[i] == s[i] * 2.0 {
      DoubledAt(s, i);
    }
    MiddleOfDoubled(s, t);
  }

  lemma MiddleOfDoubled(s: seq<real>, t: seq<real>)
    requires |s| > 0 && |t| == |s|
    requires forall i :: 0 <= i < |s| ==> t[i] == s[i] * 2.0
    ensures Middle(t) == 2.0 * Middle(s)
  {
  }

  /** Doubling every sample doubles the median. */
  lemma MedianDouble(xs: seq<real>)
    requires |xs| > 0
    ensures Median(Doubled(xs)) == 2.0 * Median(xs)
  {
    SortDouble(xs);
    MiddleDouble(Sort(xs));
  }

  /** The median lies strictly between two strict bounds of all samples. */
  lemma MedianBetween(xs: seq<real>, lo: real, hi: real)
    requires |xs| > 0
    requires forall k :: 0 <= k < |xs| ==> lo < xs[k] < hi
    ensures lo < Median(xs) < hi
  {
    var s := Sort(xs);
    SortSorted(xs);
    forall m | 0 <= m < |s| ensures lo < s[m] < hi {
      assert s[m] in multiset(xs);
      assert s[m] in xs;
    }
  }

  /** A sorted sequence is determined by its multiset of elements. */
  lemma {:induction false} SortedUnique(s: seq<real>, t: seq<real>)
    requires Sorted(s) && Sorted(t) && multiset(s) == multiset(t)
    ensures s == t
  {
    assert |s| == |multiset(s)| == |multiset(t)| == |t|;
    if s != [] {
      assert s[0] in multiset(t) && t[0] in multiset(s);
      SortedFirst(t, s[0]);
      SortedFirst(s, t[0]);
      SplitFirst(s);
      SplitFirst(t);
      assert s[0] == t[0];
      assert multiset(s[1..]) == multiset(s) - multiset{s[0]} == multiset(t) - multiset{t[0]} == multiset(t[1..]);
      SortedUnique(s[1..], t[1..]);
    }
  }

  lemma SortedFirst(s: seq<real>, x: real)
    requires Sorted(s) && x in s
    ensures s[0] <= x
  {
  }

  lemma SplitFirst(s: seq<real>)
    requires Sorted(s) && s != []
    ensures s == [s[0]] + s[1..] && Sorted(s[1..])
    ensures multiset(s) == multiset{s[0]} + multiset(s[1..])
  {
    assert s == [s[0]] + s[1..];
  }

  /**
   * The median depends only on how often each value occurs, not on the order
   * of the samples.
   */
  lemma MedianPermutation(xs: seq<real>, ys: seq<real>)
    requires |xs| > 0 && multiset(xs) == multiset(ys)
    ensures |ys| > 0 && Median(xs) == Median(ys)
  {
    assert |xs| == |multiset(xs)| == |multiset(ys)| == |ys|;
    SortSorted(xs);
    SortSorted(ys);
    SortedUnique(Sort(xs), Sort(ys));
  }

  /**
   * numpy's `round` to an integer: the nearest integer, a tie going to the even one.
   */
  function RoundHalfEven(x: real): (r: int)
    ensures -0.5 <= x - r as real <= 0.5
    ensures (x - r as real == 0.5 || x - r as real == -0.5) ==> r % 2 == 0
  {
    var f := x.Floor;
    var d := x - f as real;
    if d < 0.5 then f
    else if d > 0.5 then f + 1
    else if f % 2 == 0 then f
    else f + 1
  }

  /** No other integer is closer than half a unit: rounding picks that one. */
  lemma RoundNearest(x: real, n: int)
    requires -0.5 < x - n as real < 0.5
    ensures RoundHalfEven(x) == n
  {
  }
}
