/** Robust statistics shared by the heatmap eviction pass and the chart styling:
    `median` of a sample (web/src/data.rs) and the median absolute deviation
    that both callers build from it. */
module Stats {

  function Abs(x: real): (r: real)
    ensures r >= 0.0 && (r == x || r == -x)
  {
    if x < 0.0 then -x else x
  }

  predicate Sorted(s: seq<real>) {
    forall i, j :: 0 <= i < j < |s| ==> s[i] <= s[j]
  }

  /** A lower bound of a multiset bounds every sequence with those elements. */
  lemma AtLeastAll(b: real, t: seq<real>, m: multiset<real>)
    requires multiset(t) == m
    requires forall y :: y in m ==> b <= y
    ensures forall k :: 0 <= k < |t| ==> b <= t[k]
  {
    forall k | 0 <= k < |t| ensures b <= t[k] {
      assert t[k] in multiset(t);
    }
  }

  /** A head no larger than any element of a sorted tail keeps it sorted. */
  lemma ConsSorted(h: real, t: seq<real>)
    requires Sorted(t)
    requires forall k :: 0 <= k < |t| ==> h <= t[k]
    ensures Sorted([h] + t)
  {
  }

  /** Places `x` into the sorted sequence `s`. */
  function Insert(x: real, s: seq<real>): (r: seq<real>)
    requires Sorted(s)
    ensures Sorted(r)
    ensures multiset(r) == multiset(s) + multiset{x}
  {
    if s == [] || x <= s[0] then
      ConsSorted(x, s);
      [x] + s
    else
      var tail := Insert(x, s[1..]);
      assert s == [s[0]] + s[1..];
      assert multiset(s) == multiset{s[0]} + multiset(s[1..]);
      AtLeastAll(s[0], tail, multiset(s[1..]) + multiset{x});
      ConsSorted(s[0], tail);
      [s[0]] + tail
  }

  /** The sorted copy that `median` takes of its input: ascending, and a
      rearrangement of the input. */
  function Sort(s: seq<real>): (r: seq<real>)
    ensures Sorted(r)
    ensures multiset(r) == multiset(s)
  {
    if s == [] then []
    else
      assert s == [s[0]] + s[1..];
      Insert(s[0], Sort(s[1..]))
  }

  /** Two ascending sequences with the same elements are the same sequence,
      so the sorted copy does not depend on how the input was ordered. */
  lemma {:induction false} SortedUnique(a: seq<real>, b: seq<real>)
    requires Sorted(a) && Sorted(b)
    requires multiset(a) == multiset(b)
    ensures a == b
  {
    if a != [] {
      assert |b| == |a| by { assert |multiset(b)| == |multiset(a)|; }
      assert a[0] in multiset(b);
      assert b[0] in multiset(a);
      assert a[0] == b[0];
      assert a == [a[0]] + a[1..];
      assert b == [b[0]] + b[1..];
      assert multiset(a[1..]) == multiset(a) - multiset{a[0]};
      assert multiset(b[1..]) == multiset(b) - multiset{b[0]};
      SortedUnique(a[1..], b[1..]);
    } else {
      assert |b| == 0 by { assert |multiset(b)| == 0; }
    }
  }

  /** The middle element of `t`, or the mean of the two middle elements when
      `t` has even length; it lies between two elements of `t`. */
  function Middle(t: seq<real>): (r: real)
    requires |t| > 0
    ensures exists i :: 0 <= i < |t| && t[i] <= r
    ensures exists j :: 0 <= j < |t| && r <= t[j]
  {
    var mid := |t| / 2;
    if |t| % 2 == 0 then
      var r := (t[mid - 1] + t[mid]) / 2.0;
      assert t[mid - 1] <= r || t[mid] <= r;
      assert r <= t[mid - 1] || r <= t[mid];
      r
    else t[mid]
  }

  /** The middle of the sorted copy.  An empty sample has no median (the
      source indexes `mid - 1` of an empty vector). */
  function Median(s: seq<real>): (r: real)
    requires |s| > 0
    ensures exists i :: 0 <= i < |s| && s[i] <= r
    ensures exists j :: 0 <= j < |s| && r <= s[j]
  {
    var t := Sort(s);
    assert |t| == |s| by { assert |multiset(t)| == |multiset(s)|; }
    assert forall i :: 0 <= i < |t| ==> t[i] in multiset(s);
    Middle(t)
  }

  /** The absolute deviations `|x - center|` of a sample, in sample order. */
  function Deviations(s: seq<real>, center: real): (r: seq<real>)
    ensures |r| == |s|
    ensures forall i :: 0 <= i < |s| ==> r[i] == Abs(s[i] - center)
  {
    seq(|s|, i requires 0 <= i < |s| => Abs(s[i] - center))
  }

  /** Median absolute deviation of `s` around `center`: never negative. */
  function Mad(s: seq<real>, center: real): (r: real)
    requires |s| > 0
    ensures r >= 0.0
  {
    Median(Deviations(s, center))
  }

  /** Deviations are taken pointwise, so they split where the sample does. */
  lemma DeviationsConcat(u: seq<real>, v: seq<real>, c: real)
    ensures Deviations(u + v, c) == Deviations(u, c) + Deviations(v, c)
  {
  }

  /** Samples with the same elements have deviations with the same elements. */
  lemma {:induction false} DeviationsPermutation(a: seq<real>, b: seq<real>, c: real)
    requires multiset(a) == multiset(b)
    ensures multiset(Deviations(a, c)) == multiset(Deviations(b, c))
    decreases |a|
  {
    if a == [] {
      assert |b| == 0 by { assert |multiset(b)| == |multiset(a)|; }
    } else {
      var x := a[0];
      assert x in multiset(b) by { assert a == [x] + a[1..]; }
      var k :| 0 <= k < |b| && b[k] == x;
      var b' := b[..k] + b[k + 1..];
      assert b == b[..k] + [x] + b[k + 1..];
      assert a == [x] + a[1..];
      assert multiset(b) == multiset(b[..k]) + multiset{x} + multiset(b[k + 1..]);
      assert multiset(a) == multiset{x} + multiset(a[1..]);
      assert multiset(b') == multiset(b[..k]) + multiset(b[k + 1..]);
      assert multiset(a[1..]) == multiset(a) - multiset{x};
      assert multiset(b') == multiset(b) - multiset{x};
      DeviationsPermutation(a[1..], b', c);
      DeviationsConcat([x], a[1..], c);
      DeviationsConcat(b[..k], b[k + 1..], c);
      DeviationsConcat(b[..k] + [x], b[k + 1..], c);
      DeviationsConcat(b[..k], [x], c);
    }
  }

  /** The MAD, like the median, depends only on the sample's elements. */
  lemma MadPermutation(a: seq<real>, b: seq<real>, c: real)
    requires |a| > 0
    requires multiset(a) == multiset(b)
    ensures |b| > 0 && Mad(a, c) == Mad(b, c)
  {
    assert |b| == |a| by { assert |multiset(b)| == |multiset(a)|; }
    DeviationsPermutation(a, b, c);
    MedianPermutation(Deviations(a, c), Deviations(b, c));
  }

  /** Some sample deviates from the centre by no more than the median
      absolute deviation. */
  lemma WithinMad(s: seq<real>, c: real) returns (i: nat)
    requires |s| > 0
    ensures i < |s| && Abs(s[i] - c) <= Mad(s, c)
  {
    var devs := Deviations(s, c);
    i :| i < |devs| && devs[i] <= Median(devs);
  }

  /** The median depends only on the sample's elements, not their order. */
  lemma MedianPermutation(a: seq<real>, b: seq<real>)
    requires |a| > 0
    requires multiset(a) == multiset(b)
    ensures |b| > 0 && Median(a) == Median(b)
  {
    assert |b| == |a| by { assert |multiset(b)| == |multiset(a)|; }
    SortedUnique(Sort(a), Sort(b));
  }

  /** On an already ascending sample the median is read off directly. */
  lemma MedianOfSorted(s: seq<real>)
    requires |s| > 0 && Sorted(s)
    ensures Median(s) == Middle(s)
    ensures |s| % 2 == 1 ==> Median(s) == s[|s| / 2]
    ensures |s| % 2 == 0 ==> Median(s) == (s[|s| / 2 - 1] + s[|s| / 2]) / 2.0
  {
    SortedUnique(Sort(s), s);
  }

  /** An even-length and an odd-length sample. */
  lemma MedianExamples()
    ensures Median([1.0, 2.0, 3.0, 4.0]) == 2.5
    ensures Median([1.0, 2.0, 3.0]) == 2.0
  {
    var even, odd := [1.0, 2.0, 3.0, 4.0], [1.0, 2.0, 3.0];
    assert Sorted(even) && Sorted(odd);
    MedianOfSorted(even);
    assert Middle(even) == (2.0 + 3.0) / 2.0;
    MedianOfSorted(odd);
    assert Middle(odd) == 2.0;
  }

  /** In an ascending sample of non-negative values holding zero at most
      once, every value from the second on is positive. */
  lemma SecondAboveZero(t: seq<real>)
    requires |t| >= 2 && Sorted(t) && t[0] >= 0.0
    requires multiset(t)[0.0] <= 1
    ensures t[1] > 0.0
  {
    assert t == [t[0], t[1]] + t[2..];
    assert multiset(t) == multiset{t[0], t[1]} + multiset(t[2..]);
  }

  /** A median absolute deviation of zero needs at least two samples at the
      centre: with three or more samples of which at most one sits at the
      centre, the deviation is positive. */
  lemma MadPositive(s: seq<real>, c: real)
    requires |s| >= 3
    requires multiset(Deviations(s, c))[0.0] <= 1
    ensures Mad(s, c) > 0.0
  {
    var devs := Deviations(s, c);
    var t := Sort(devs);
    assert |t| == |devs| by { assert |multiset(t)| == |multiset(devs)|; }
    assert t[0] >= 0.0 && t[1] >= 0.0 by {
      assert t[0] in multiset(devs) && t[1] in multiset(devs);
    }
    SecondAboveZero(t);
    var mid := |t| / 2;
    assert t[1] <= t[mid];
    if |t| % 2 == 0 {
      assert t[1] <= t[mid - 1];
    }
  }
}
