/** The computational content of `redraw` (web/src/chart.rs): from the candle
    store, the heatmap and the current time to the ordered list of primitives
    the chart draws — the axes, the heatmap's line segments with their width
    and opacity, and one candle per kline.

    Canvas, colours and the plotting library are not modelled; each draw call
    becomes one `Primitive`.  Times on the chart are whole seconds. */
module Chart {
  import opened Stats
  import opened OrderedKeys
  import opened Binning
  import opened DataProvider

  /** A point of a line: time in seconds, price. */
  datatype Point = Point(t: int, px: real)

  /** Stroke width and opacity of a heatmap line. */
  datatype Style = Style(width: nat, alpha: real)

  /** The time range (seconds) and price range of the chart. */
  datatype Axes = Axes(minT: int, maxT: int, minPx: real, maxPx: real)

  /** Median and median absolute deviation of the heatmap's non-zero sizes. */
  datatype SizeStats = SizeStats(median: real, mdev: real)

  datatype Primitive =
    | Mesh(axes: Axes)
    | Line(points: seq<Point>, style: Style, filled: bool)
    | Candle(t: int, op: real, hi: real, lo: real, cl: real)

  /** A millisecond timestamp as the whole second the chart plots it at. */
  function Seconds(t: Time): int {
    t / 1000
  }

  /** The second of a timestamp is the whole second it falls in. */
  lemma SecondsBounds(t: Time)
    ensures 0 <= Seconds(t) && Seconds(t) * 1000 <= t < Seconds(t) * 1000 + 1000
  {
  }

  /** Later timestamps fall in the same or a later second. */
  lemma SecondsMonotone(a: Time, b: Time)
    requires a <= b
    ensures Seconds(a) <= Seconds(b)
  {
  }

  function Max(a: real, b: real): real {
    if a < b then b else a
  }

  function Min(a: real, b: real): real {
    if a < b then a else b
  }

  // ---------------------------------------------------------------- axes

  /** The lowest low among the candles at `ks`. */
  function LowestLow(klines: map<Time, Kline>, ks: seq<Time>): (lo: real)
    requires |ks| > 0 && forall t :: t in ks ==> t in klines
    ensures exists t :: t in ks && klines[t].lo == lo
    ensures forall t :: t in ks ==> lo <= klines[t].lo
  {
    if |ks| == 1 then klines[ks[0]].lo
    else
      var m := LowestLow(klines, ks[1..]);
      assert forall t :: t in ks <==> t == ks[0] || t in ks[1..] by {
        assert ks == [ks[0]] + ks[1..];
      }
      if klines[ks[0]].lo <= m then klines[ks[0]].lo else m
  }

  /** The highest high among the candles at `ks`. */
  function HighestHigh(klines: map<Time, Kline>, ks: seq<Time>): (hi: real)
    requires |ks| > 0 && forall t :: t in ks ==> t in klines
    ensures exists t :: t in ks && klines[t].hi == hi
    ensures forall t :: t in ks ==> klines[t].hi <= hi
  {
    if |ks| == 1 then klines[ks[0]].hi
    else
      var m := HighestHigh(klines, ks[1..]);
      assert forall t :: t in ks <==> t == ks[0] || t in ks[1..] by {
        assert ks == [ks[0]] + ks[1..];
      }
      if m <= klines[ks[0]].hi then klines[ks[0]].hi else m
  }

  /** The lowest low of all candles. */
  function MinLow(klines: map<Time, Kline>): (lo: real)
    requires |klines| > 0
    ensures exists t :: t in klines && klines[t].lo == lo
    ensures forall t :: t in klines ==> lo <= klines[t].lo
  {
    LowestLow(klines, AscendingNat(klines.Keys))
  }

  /** The highest high of all candles. */
  function MaxHigh(klines: map<Time, Kline>): (hi: real)
    requires |klines| > 0
    ensures exists t :: t in klines && klines[t].hi == hi
    ensures forall t :: t in klines ==> klines[t].hi <= hi
  {
    HighestHigh(klines, AscendingNat(klines.Keys))
  }

  /** The earliest open time. */
  function MinKey(klines: map<Time, Kline>): (t: Time)
    requires |klines| > 0
    ensures t in klines && forall u :: u in klines ==> t <= u
  {
    AscendingNatBounds(klines.Keys);
    AscendingNat(klines.Keys)[0]
  }

  /** The latest open time. */
  function MaxKey(klines: map<Time, Kline>): (t: Time)
    requires |klines| > 0
    ensures t in klines && forall u :: u in klines ==> u <= t
  {
    AscendingNatBounds(klines.Keys);
    var ks := AscendingNat(klines.Keys);
    ks[|ks| - 1]
  }

  /** The axis ranges: from the earliest to the latest candle's open second,
      and the span from the lowest low to the highest high widened by half of
      itself on either side. */
  function AxisRanges(klines: map<Time, Kline>): (a: Axes)
    requires |klines| > 0
    ensures forall t :: t in klines ==> a.minT <= Seconds(t) <= a.maxT
    ensures exists t :: t in klines && a.minT == Seconds(t)
    ensures exists t :: t in klines && a.maxT == Seconds(t)
    ensures var lo, hi := MinLow(klines), MaxHigh(klines);
      a.minPx == lo - (hi - lo) / 2.0 && a.maxPx == hi + (hi - lo) / 2.0
  {
    var first, last := MinKey(klines), MaxKey(klines);
    assert forall t :: t in klines ==> Seconds(first) <= Seconds(t) <= Seconds(last) by {
      forall t | t in klines ensures Seconds(first) <= Seconds(t) <= Seconds(last) {
        SecondsMonotone(first, t);
        SecondsMonotone(t, last);
      }
    }
    var lo, hi := MinLow(klines), MaxHigh(klines);
    var half := (hi - lo) / 2.0;
    Axes(Seconds(first), Seconds(last), lo - half, hi + half)
  }

  /** With a single candle the price range is that candle's range widened by
      half of itself, and the time range is its one second. */
  lemma AxesOfOneCandle(t: Time, k: Kline)
    ensures AxisRanges(map[t := k]) ==
      Axes(Seconds(t), Seconds(t), k.lo - (k.hi - k.lo) / 2.0, k.hi + (k.hi - k.lo) / 2.0)
  {
    var one := map[t := k];
    assert forall u :: u in one ==> u == t;
    var a := AxisRanges(one);
    assert a.minT == Seconds(t) && a.maxT == Seconds(t);
    assert MinLow(one) == k.lo && MaxHigh(one) == k.hi;
  }

  /** When every candle's low is at most its high, the price range contains
      every candle. */
  lemma AxesCoverCandles(klines: map<Time, Kline>)
    requires |klines| > 0
    requires forall t :: t in klines ==> klines[t].lo <= klines[t].hi
    ensures var a := AxisRanges(klines);
      forall t :: t in klines ==> a.minPx <= klines[t].lo && klines[t].hi <= a.maxPx
  {
    var lo, hi := MinLow(klines), MaxHigh(klines);
    var l :| l in klines && klines[l].lo == lo;
    assert lo <= hi;
  }

  // ---------------------------------------------------------- size statistics

  /** Some entry of the series has a non-zero size. */
  predicate SeriesHasNonZero(s: Series) {
    exists t :: t in s && s[t] != 0.0
  }

  /** Some heatmap entry has a non-zero size. */
  predicate HasNonZero(hm: Heatmap) {
    exists p :: p in hm && SeriesHasNonZero(hm[p])
  }

  /** `|v|` of the entries of `s` at the times `ks`, zeros included. */
  function AbsAt(s: Series, ks: seq<Time>): seq<real>
    requires forall t :: t in ks ==> t in s
  {
    seq(|ks|, i requires 0 <= i < |ks| => Abs(s[ks[i]]))
  }

  /** Dropping the zeros from a sample with one more element. */
  lemma DropZeroCons(a: real, m: multiset<real>)
    ensures (multiset{a} + m)[0.0 := 0]
      == if a == 0.0 then m[0.0 := 0] else multiset{a} + m[0.0 := 0]
  {
  }

  /** `|v|` of every non-zero entry of a series, in the order of `ks`: the
      absolute values at `ks` with every zero dropped. */
  function SeriesSizes(s: Series, ks: seq<Time>): (r: seq<real>)
    requires forall t :: t in ks ==> t in s
    ensures multiset(r) == multiset(AbsAt(s, ks))[0.0 := 0]
    ensures |r| <= |ks|
    ensures forall i :: 0 <= i < |r| ==> r[i] > 0.0
    ensures |r| > 0 <==> exists t :: t in ks && s[t] != 0.0
  {
    if ks == [] then []
    else
      var rest := SeriesSizes(s, ks[1..]);
      SeriesSizesStep(s, ks, rest);
      SeriesShapeStep(s, ks, rest);
      if s[ks[0]] != 0.0 then [Abs(s[ks[0]])] + rest else rest
  }

  /** One step of `SeriesSizes`: a non-zero head adds its magnitude to the
      sizes of the tail, a zero head adds nothing. */
  lemma SeriesSizesStep(s: Series, ks: seq<Time>, rest: seq<real>)
    requires ks != [] && forall t :: t in ks ==> t in s
    requires multiset(rest) == multiset(AbsAt(s, ks[1..]))[0.0 := 0]
    ensures var r := if s[ks[0]] != 0.0 then [Abs(s[ks[0]])] + rest else rest;
      multiset(r) == multiset(AbsAt(s, ks))[0.0 := 0]
  {
    var a := Abs(s[ks[0]]);
    assert AbsAt(s, ks) == [a] + AbsAt(s, ks[1..]);
    DropZeroCons(a, multiset(AbsAt(s, ks[1..])));
  }

  /** The same step for the length, the signs and emptiness. */
  lemma SeriesShapeStep(s: Series, ks: seq<Time>, rest: seq<real>)
    requires ks != [] && forall t :: t in ks ==> t in s
    requires |rest| <= |ks| - 1
    requires forall i :: 0 <= i < |rest| ==> rest[i] > 0.0
    requires |rest| > 0 <==> exists t :: t in ks[1..] && s[t] != 0.0
    ensures var r := if s[ks[0]] != 0.0 then [Abs(s[ks[0]])] + rest else rest;
      && |r| <= |ks|
      && (forall i :: 0 <= i < |r| ==> r[i] > 0.0)
      && (|r| > 0 <==> exists t :: t in ks && s[t] != 0.0)
  {
    assert ks == [ks[0]] + ks[1..];
    assert forall t :: t in ks <==> t == ks[0] || t in ks[1..];
  }

  /** The non-zero sizes of one bucket, taken over all its entries. */
  ghost function SeriesBag(s: Series): multiset<real> {
    multiset(AbsAt(s, AscendingNat(s.Keys)))[0.0 := 0]
  }

  /** The non-zero sizes of the buckets `ps`, each listed bucket counted once
      per listing. */
  ghost function BagOver(hm: Heatmap, ps: seq<int>): multiset<real> {
    if ps == [] then multiset{} else SeriesBag(SeriesAt(hm, ps[0])) + BagOver(hm, ps[1..])
  }

  /** The sizes of the buckets `ps`, bucket after bucket, each bucket's
      entries oldest first: exactly the non-zero sizes of those buckets. */
  function HeatSizes(hm: Heatmap, ps: seq<int>): (r: seq<real>)
    ensures multiset(r) == BagOver(hm, ps)
    ensures forall i :: 0 <= i < |r| ==> r[i] > 0.0
    ensures |r| > 0 <==> exists p :: p in ps && SeriesHasNonZero(SeriesAt(hm, p))
  {
    if ps == [] then []
    else
      var s := SeriesAt(hm, ps[0]);
      var here := SeriesSizes(s, AscendingNat(s.Keys));
      var rest := HeatSizes(hm, ps[1..]);
      HeatSizesStep(hm, ps, here, rest);
      HeatShapeStep(hm, ps, here, rest);
      here + rest
  }

  /** One step of `HeatSizes`: the first bucket's sizes, then the rest's. */
  lemma HeatSizesStep(hm: Heatmap, ps: seq<int>, here: seq<real>, rest: seq<real>)
    requires ps != []
    requires var s := SeriesAt(hm, ps[0]);
      multiset(here) == multiset(AbsAt(s, AscendingNat(s.Keys)))[0.0 := 0]
    requires multiset(rest) == BagOver(hm, ps[1..])
    ensures multiset(here + rest) == BagOver(hm, ps)
  {
    assert multiset(here + rest) == multiset(here) + multiset(rest);
  }

  /** The same step for the signs and emptiness. */
  lemma HeatShapeStep(hm: Heatmap, ps: seq<int>, here: seq<real>, rest: seq<real>)
    requires ps != []
    requires var s := SeriesAt(hm, ps[0]);
      && (forall i :: 0 <= i < |here| ==> here[i] > 0.0)
      && (|here| > 0 <==> exists t :: t in AscendingNat(s.Keys) && s[t] != 0.0)
    requires forall i :: 0 <= i < |rest| ==> rest[i] > 0.0
    requires |rest| > 0 <==> exists p :: p in ps[1..] && SeriesHasNonZero(SeriesAt(hm, p))
    ensures forall i :: 0 <= i < |here + rest| ==> (here + rest)[i] > 0.0
    ensures |here + rest| > 0 <==> exists p :: p in ps && SeriesHasNonZero(SeriesAt(hm, p))
  {
    var s := SeriesAt(hm, ps[0]);
    assert |here| > 0 <==> SeriesHasNonZero(s) by {
      if SeriesHasNonZero(s) {
        var t :| t in s && s[t] != 0.0;
        assert t in AscendingNat(s.Keys);
      }
    }
    assert ps == [ps[0]] + ps[1..];
    assert forall p :: p in ps <==> p == ps[0] || p in ps[1..];
  }

  /** The sample the size statistics are taken over: the absolute value of
      every non-zero size in the heatmap.  The source collects them in hash
      order; `SizeStatsAnyOrder` shows the statistics do not depend on it. */
  function Sizes(hm: Heatmap): (r: seq<real>)
    ensures multiset(r) == BagOver(hm, Ascending(hm.Keys))
    ensures forall i :: 0 <= i < |r| ==> r[i] > 0.0
    ensures |r| > 0 <==> HasNonZero(hm)
  {
    var ps := Ascending(hm.Keys);
    assert HasNonZero(hm) <==> exists p :: p in ps && SeriesHasNonZero(SeriesAt(hm, p)) by {
      if HasNonZero(hm) {
        var p :| p in hm && SeriesHasNonZero(hm[p]);
        assert p in ps && SeriesAt(hm, p) == hm[p];
      }
    }
    HeatSizes(hm, ps)
  }

  /** Median and MAD of the sizes.  The source calls `median` unguarded, so a
      heatmap without a non-zero size has no statistics. */
  function SizeStatsOf(hm: Heatmap): (st: SizeStats)
    requires HasNonZero(hm)
    ensures st.median > 0.0 && st.mdev >= 0.0
  {
    var sizes := Sizes(hm);
    var m := Median(sizes);
    SizeStats(m, Mad(sizes, m))
  }

  /** Listing buckets one after another adds up their sizes. */
  lemma {:induction false} BagOverConcat(hm: Heatmap, u: seq<int>, v: seq<int>)
    ensures BagOver(hm, u + v) == BagOver(hm, u) + BagOver(hm, v)
    decreases |u|
  {
    if u != [] {
      assert (u + v)[0] == u[0] && (u + v)[1..] == u[1..] + v;
      BagOverConcat(hm, u[1..], v);
      assert BagOver(hm, u + v) == SeriesBag(SeriesAt(hm, u[0])) + BagOver(hm, u[1..] + v);
    } else {
      assert u + v == v;
    }
  }

  /** Taking one listed bucket out of the listing takes its sizes out. */
  lemma BagOverRemove(hm: Heatmap, qs: seq<int>, k: nat)
    requires k < |qs|
    ensures BagOver(hm, qs) == SeriesBag(SeriesAt(hm, qs[k])) + BagOver(hm, qs[..k] + qs[k + 1..])
  {
    var front, back := qs[..k], qs[k + 1..];
    assert qs == front + ([qs[k]] + back);
    BagOverConcat(hm, front, [qs[k]] + back);
    assert ([qs[k]] + back)[1..] == back;
    BagOverConcat(hm, front, back);
  }

  /** The sizes of a list of buckets do not depend on the listing order. */
  lemma {:induction false} BagOverPermutation(hm: Heatmap, ps: seq<int>, qs: seq<int>)
    requires multiset(ps) == multiset(qs)
    ensures BagOver(hm, ps) == BagOver(hm, qs)
    decreases |ps|
  {
    if ps == [] {
      assert |qs| == 0 by { assert |multiset(qs)| == |multiset(ps)|; }
    } else {
      var p := ps[0];
      assert ps == [p] + ps[1..];
      assert p in multiset(qs);
      var k :| 0 <= k < |qs| && qs[k] == p;
      var rest := qs[..k] + qs[k + 1..];
      assert qs == qs[..k] + [p] + qs[k + 1..];
      assert multiset(ps[1..]) == multiset(ps) - multiset{p};
      assert multiset(rest) == multiset(qs) - multiset{p};
      BagOverPermutation(hm, ps[1..], rest);
      BagOverRemove(hm, qs, k);
    }
  }

  /** A sequence without repetitions holds each of its elements once. */
  lemma {:induction false} DistinctOnce(s: seq<int>)
    requires forall i, j :: 0 <= i < j < |s| ==> s[i] != s[j]
    ensures forall x :: multiset(s)[x] == if x in s then 1 else 0
  {
    if s != [] {
      assert s == [s[0]] + s[1..];
      DistinctOnce(s[1..]);
      assert s[0] !in s[1..];
    }
  }

  /** Two enumerations of the same keys have the same elements. */
  lemma EnumerationsAgree(ps: seq<int>, qs: seq<int>, keys: set<int>)
    requires IsEnumeration(ps, keys) && IsEnumeration(qs, keys)
    ensures multiset(ps) == multiset(qs)
  {
    DistinctOnce(ps);
    DistinctOnce(qs);
    assert forall x :: multiset(ps)[x] == multiset(qs)[x];
  }

  /** Whatever order the hash map yields the buckets in, the size sample has
      the same elements, hence the same median and MAD. */
  lemma SizeStatsAnyOrder(hm: Heatmap, order: seq<int>)
    requires IsEnumeration(order, hm.Keys)
    requires HasNonZero(hm)
    ensures var r, st := HeatSizes(hm, order), SizeStatsOf(hm);
      multiset(r) == multiset(Sizes(hm))
      && |r| > 0 && Median(r) == st.median && Mad(r, Median(r)) == st.mdev
  {
    var ps := Ascending(hm.Keys);
    assert IsEnumeration(ps, hm.Keys);
    EnumerationsAgree(order, ps, hm.Keys);
    BagOverPermutation(hm, order, ps);
    var r, sizes := HeatSizes(hm, order), Sizes(hm);
    MedianPermutation(sizes, r);
    MadPermutation(sizes, r, Median(sizes));
  }

  // ------------------------------------------------------------------- styles

  /** A line is a wall when its magnitude exceeds the median size by more
      than nine deviations (the f64 test `(mag - median) / mdev > 9`). */
  predicate IsWall(mag: real, st: SizeStats) {
    mag - st.median > 9.0 * st.mdev
  }

  /** Style of a segment drawn inside the walk.  A zero deviation that is
      not a wall makes the f64 threshold NaN or negative infinity, which the
      clamp turns into its floor 0.1. */
  function InteriorStyle(mag: real, st: SizeStats): (s: Style)
    requires st.mdev >= 0.0
    ensures IsWall(mag, st) ==> s == Style(8, 1.0)
    ensures !IsWall(mag, st) ==> s.width == 4 && 0.03 <= s.alpha <= 0.3
    ensures !IsWall(mag, st) && st.mdev == 0.0 ==> s.alpha == 0.03
  {
    if IsWall(mag, st) then Style(8, 1.0)
    else if st.mdev == 0.0 then Style(4, 0.3 * 0.1)
    else Style(4, 0.3 * Min(Max((mag - st.median) / st.mdev, 0.1), 1.0))
  }

  /** Style of the trailing segment that runs to the present.  A zero
      deviation that is not a wall makes the threshold NaN or negative
      infinity, and `max(1.0)` of either is 1. */
  function TrailingStyle(mag: real, st: SizeStats): (s: Style)
    requires st.mdev >= 0.0
    ensures IsWall(mag, st) ==> s == Style(8, 1.0)
    ensures !IsWall(mag, st) ==> s.width == 4 && 0.3 / 9.0 <= s.alpha <= 0.3
    ensures !IsWall(mag, st) && st.mdev == 0.0 ==> s.alpha == 0.3
  {
    if IsWall(mag, st) then Style(8, 1.0)
    else if st.mdev == 0.0 then Style(4, 0.3)
    else
      var th := (mag - st.median) / st.mdev;
      assert th <= 9.0 by {
        DivMonotone(mag - st.median, 9.0 * st.mdev, st.mdev);
      }
      Style(4, 0.3 / Max(th, 1.0))
  }

  /** The wall test is strict: a magnitude exactly nine deviations above the
      median is drawn at the baseline width. */
  lemma NineDeviationsIsBaseline(mag: real, st: SizeStats)
    requires st.mdev > 0.0 && mag - st.median == 9.0 * st.mdev
    ensures InteriorStyle(mag, st).width == 4 && InteriorStyle(mag, st).alpha == 0.3
    ensures TrailingStyle(mag, st).width == 4 && TrailingStyle(mag, st).alpha == 0.3 / 9.0
  {
    assert (mag - st.median) / st.mdev == 9.0;
  }

  /** The two formulas treat large sizes oppositely: among baseline
      segments, a larger magnitude never makes an interior segment fainter
      and never makes a trailing segment stronger. */
  lemma StyleMonotone(m1: real, m2: real, st: SizeStats)
    requires st.mdev >= 0.0 && m1 <= m2
    requires !IsWall(m2, st)
    ensures InteriorStyle(m1, st).alpha <= InteriorStyle(m2, st).alpha
    ensures TrailingStyle(m2, st).alpha <= TrailingStyle(m1, st).alpha
  {
    if st.mdev > 0.0 {
      var t1, t2 := (m1 - st.median) / st.mdev, (m2 - st.median) / st.mdev;
      DivMonotone(m1 - st.median, m2 - st.median, st.mdev);
      ReciprocalAntitone(Max(t1, 1.0), Max(t2, 1.0));
    }
  }

  lemma DivMonotone(a: real, b: real, d: real)
    requires d > 0.0 && a <= b
    ensures a / d <= b / d
  {
    assert b / d - a / d == (b - a) / d;
  }

  lemma ReciprocalAntitone(a: real, b: real)
    requires 0.0 < a <= b
    ensures 0.3 / b <= 0.3 / a
  {
    assert 0.3 / a - 0.3 / b == 0.3 * (b - a) / (a * b);
  }

  // --------------------------------------------------------- the bucket walk

  /** The state of the walk over one bucket: the open `points`, the size of
      the last entry in the window, and the segments drawn so far. */
  datatype Walk = Walk(points: seq<Point>, lastSz: real, lines: seq<Primitive>)

  predicate InWindow(t: Time, axes: Axes) {
    axes.minT <= Seconds(t) <= axes.maxT
  }

  /** One entry `(t, size)` of the bucket at price `px`.  An entry outside
      the time window leaves the walk as it is; otherwise its point is added,
      and once two points are open they are drawn as one segment, after which
      the walk reopens one second earlier when the size is non-zero. */
  function WalkStep(w: Walk, px: real, t: Time, size: real, axes: Axes, st: SizeStats): Walk
    requires st.mdev >= 0.0
  {
    if !InWindow(t, axes) then w
    else
      var pts := w.points + [Point(Seconds(t), px)];
      if |pts| >= 2 then
        var style := InteriorStyle(Max(Abs(w.lastSz), Abs(size)), st);
        Walk(if Abs(size) > 0.0 then [Point(Seconds(t) - 1, px)] else [], size,
             w.lines + [Line(pts, style, false)])
      else
        Walk(pts, size, w.lines)
  }

  /** The walk over the entries `ks` of series `s`, in the order given. */
  function WalkOver(px: real, s: Series, ks: seq<Time>, axes: Axes, st: SizeStats): Walk
    requires st.mdev >= 0.0
    requires forall i :: 0 <= i < |ks| ==> ks[i] in s
    decreases |ks|
  {
    if ks == [] then Walk([], 0.0, [])
    else
      var k := ks[|ks| - 1];
      WalkStep(WalkOver(px, s, ks[..|ks| - 1], axes, st), px, k, s[k], axes, st)
  }

  /** The segments of the bucket at price `p`: none when the price is not
      strictly inside the price range; otherwise the walk's segments, then,
      when points remain open, a filled trailing segment to `now`. */
  function BucketLines(p: int, s: Series, axes: Axes, st: SizeStats, now: int): seq<Primitive>
    requires st.mdev >= 0.0
  {
    var px := p as real;
    if px <= axes.minPx || px >= axes.maxPx then []
    else Close(WalkOver(px, s, AscendingNat(s.Keys), axes, st), px, st, now)
  }

  /** The end of a bucket's walk: the segments drawn, followed, when points
      remain open, by a filled trailing segment closed at `now`. */
  function Close(w: Walk, px: real, st: SizeStats, now: int): seq<Primitive>
    requires st.mdev >= 0.0
  {
    if |w.points| > 0 then
      w.lines + [Line(w.points + [Point(now, px)], TrailingStyle(Abs(w.lastSz), st), true)]
    else
      w.lines
  }

  /** The entries of `ks` inside the time window, in order. */
  function InWindowKeys(ks: seq<Time>, axes: Axes): (r: seq<Time>)
    ensures |r| <= |ks|
    ensures forall k :: k in r <==> k in ks && InWindow(k, axes)
  {
    if ks == [] then []
    else
      var init := InWindowKeys(ks[..|ks| - 1], axes);
      var k := ks[|ks| - 1];
      assert ks == ks[..|ks| - 1] + [k];
      if InWindow(k, axes) then init + [k] else init
  }

  /** Entries outside the time window are invisible: the walk over all
      entries is the walk over the in-window ones, so a skipped entry does not
      even update the last size. */
  lemma {:induction false} WalkSkipsOutOfWindow(px: real, s: Series, ks: seq<Time>, axes: Axes, st: SizeStats)
    requires st.mdev >= 0.0
    requires forall i :: 0 <= i < |ks| ==> ks[i] in s
    ensures forall i :: 0 <= i < |InWindowKeys(ks, axes)| ==> InWindowKeys(ks, axes)[i] in s
    ensures WalkOver(px, s, ks, axes, st) == WalkOver(px, s, InWindowKeys(ks, axes), axes, st)
    decreases |ks|
  {
    var r := InWindowKeys(ks, axes);
    assert forall i :: 0 <= i < |r| ==> r[i] in s by {
      forall i | 0 <= i < |r| ensures r[i] in s {
        assert r[i] in ks;
      }
    }
    if ks != [] {
      var init, k := ks[..|ks| - 1], ks[|ks| - 1];
      WalkSkipsOutOfWindow(px, s, init, axes, st);
      var ri := InWindowKeys(init, axes);
      if InWindow(k, axes) {
        assert r == ri + [k];
        assert r[..|r| - 1] == ri;
      }
    }
  }

  /** A segment of two points at price `px`. */
  predicate TwoPointsAt(l: Primitive, px: real) {
    l.Line? && |l.points| == 2 && l.points[0].px == px && l.points[1].px == px
  }

  /** The styles the wall rule can produce. */
  predicate StyleInRange(s: Style) {
    s == Style(8, 1.0) || (s.width == 4 && 0.03 <= s.alpha <= 0.3)
  }

  /** A segment drawn inside the walk: two points at `px` running forward in
      time, not filled, with a style the wall rule produces. */
  predicate InteriorSegment(l: Primitive, px: real) {
    TwoPointsAt(l, px) && l.points[0].t <= l.points[1].t && !l.filled && StyleInRange(l.style)
  }

  /** At most one point is open and it sits at the bucket's price, and every
      segment drawn so far is an interior segment. */
  ghost predicate WalkOk(w: Walk, px: real) {
    |w.points| <= 1
    && (forall q :: q in w.points ==> q.px == px)
    && (forall i :: 0 <= i < |w.lines| ==> InteriorSegment(w.lines[i], px))
  }

  /** The walk's invariants over ascending keys: at most one point is open,
      it sits at the bucket's price and not after the last entry's second;
      every segment is an interior segment; and segments plus open points
      number at most the in-window entries, and at least one when there is
      an in-window entry. */
  lemma {:induction false} WalkInvariant(px: real, s: Series, ks: seq<Time>, axes: Axes, st: SizeStats)
    requires st.mdev >= 0.0
    requires forall i :: 0 <= i < |ks| ==> ks[i] in s
    requires forall i, j :: 0 <= i < j < |ks| ==> ks[i] < ks[j]
    ensures var w := WalkOver(px, s, ks, axes, st);
      WalkOk(w, px)
      && (forall q :: q in w.points ==> |ks| > 0 && q.t <= Seconds(ks[|ks| - 1]))
      && |w.lines| + |w.points| <= |InWindowKeys(ks, axes)|
      && (|InWindowKeys(ks, axes)| > 0 ==> |w.lines| + |w.points| > 0)
    decreases |ks|
  {
    if ks != [] {
      var init, k := ks[..|ks| - 1], ks[|ks| - 1];
      WalkInvariant(px, s, init, axes, st);
      var w0 := WalkOver(px, s, init, axes, st);
      var w := WalkOver(px, s, ks, axes, st);
      assert w == WalkStep(w0, px, k, s[k], axes, st);
      assert forall q :: q in w0.points ==> q.t <= Seconds(k) by {
        forall q | q in w0.points ensures q.t <= Seconds(k) {
          assert init[|init| - 1] < k;
        }
      }
      var n0, n := |InWindowKeys(init, axes)|, |InWindowKeys(ks, axes)|;
      assert InWindow(k, axes) ==> n == n0 + 1;
      assert !InWindow(k, axes) ==> n == n0;
      if InWindow(k, axes) {
        var pts := w0.points + [Point(Seconds(k), px)];
        if |pts| >= 2 {
          InteriorStyleInRange(Max(Abs(w0.lastSz), Abs(s[k])), st);
          assert pts[0] in w0.points;
          assert InteriorSegment(Line(pts, InteriorStyle(Max(Abs(w0.lastSz), Abs(s[k])), st), false), px);
          assert w.lines == w0.lines + [w.lines[|w.lines| - 1]];
        }
      }
    }
  }

  lemma InteriorStyleInRange(mag: real, st: SizeStats)
    requires st.mdev >= 0.0
    ensures StyleInRange(InteriorStyle(mag, st))
  {
  }

  /** Closing a walk that keeps its invariant: every segment is two points
      at the price, all but the last are interior segments, one segment per
      drawn segment or open point, and the last is filled exactly when a
      point was open. */
  lemma CloseShape(w: Walk, px: real, st: SizeStats, now: int)
    requires st.mdev >= 0.0 && WalkOk(w, px)
    ensures var lines := Close(w, px, st, now);
      (forall i :: 0 <= i < |lines| ==> TwoPointsAt(lines[i], px))
      && (forall i :: 0 <= i < |lines| - 1 ==> InteriorSegment(lines[i], px))
      && |lines| == |w.lines| + |w.points|
      && (|lines| > 0 && lines[|lines| - 1].Line? && lines[|lines| - 1].filled <==> |w.points| > 0)
  {
    var lines := Close(w, px, st, now);
    if |w.points| > 0 {
      var last := Line(w.points + [Point(now, px)], TrailingStyle(Abs(w.lastSz), st), true);
      assert lines == w.lines + [last];
      assert w.points[0] in w.points;
      assert TwoPointsAt(last, px);
      forall i | 0 <= i < |lines| ensures TwoPointsAt(lines[i], px) {
        if i < |w.lines| {
          assert lines[i] == w.lines[i];
          assert InteriorSegment(w.lines[i], px);
        }
      }
      forall i | 0 <= i < |lines| - 1 ensures InteriorSegment(lines[i], px) {
        assert lines[i] == w.lines[i];
      }
    } else {
      forall i | 0 <= i < |lines| ensures TwoPointsAt(lines[i], px) {
        assert InteriorSegment(w.lines[i], px);
      }
      if |lines| > 0 {
        assert InteriorSegment(w.lines[|lines| - 1], px);
      }
    }
  }

  /** What one bucket draws: nothing when the price is outside the range;
      otherwise every segment is two points at the bucket's price, and all
      but the last are interior segments. */
  lemma BucketShape(p: int, s: Series, axes: Axes, st: SizeStats, now: int)
    requires st.mdev >= 0.0
    ensures var lines, px := BucketLines(p, s, axes, st, now), p as real;
      (px <= axes.minPx || px >= axes.maxPx ==> lines == [])
      && (forall i :: 0 <= i < |lines| ==> TwoPointsAt(lines[i], px))
      && (forall i :: 0 <= i < |lines| - 1 ==> InteriorSegment(lines[i], px))
  {
    var px := p as real;
    if axes.minPx < px < axes.maxPx {
      var ks := AscendingNat(s.Keys);
      WalkInvariant(px, s, ks, axes, st);
      CloseShape(WalkOver(px, s, ks, axes, st), px, st, now);
    }
  }

  /** How many segments one bucket draws: at most one per entry inside the
      time window, and at least one when the price is inside the range and
      some entry is inside the window. */
  lemma BucketCount(p: int, s: Series, axes: Axes, st: SizeStats, now: int)
    requires st.mdev >= 0.0
    ensures var lines, px := BucketLines(p, s, axes, st, now), p as real;
      var n := |InWindowKeys(AscendingNat(s.Keys), axes)|;
      |lines| <= n && (axes.minPx < px < axes.maxPx && n > 0 ==> |lines| > 0)
  {
    var px := p as real;
    if axes.minPx < px < axes.maxPx {
      var ks := AscendingNat(s.Keys);
      WalkInvariant(px, s, ks, axes, st);
      CloseShape(WalkOver(px, s, ks, axes, st), px, st, now);
    }
  }

  /** The trailing segment: drawn exactly when the walk ends with an open
      point, closed at `now`, and styled by the last size. */
  lemma BucketTrailing(p: int, s: Series, axes: Axes, st: SizeStats, now: int)
    requires st.mdev >= 0.0
    requires axes.minPx < p as real < axes.maxPx
    ensures var lines, px := BucketLines(p, s, axes, st, now), p as real;
      var w := WalkOver(px, s, AscendingNat(s.Keys), axes, st);
      (|lines| > 0 && lines[|lines| - 1].Line? && lines[|lines| - 1].filled <==> |w.points| > 0)
      && (|w.points| > 0 ==>
            lines[|lines| - 1] == Line(w.points + [Point(now, px)], TrailingStyle(Abs(w.lastSz), st), true))
  {
    var px := p as real;
    var ks := AscendingNat(s.Keys);
    WalkInvariant(px, s, ks, axes, st);
    CloseShape(WalkOver(px, s, ks, axes, st), px, st, now);
  }

  /** After a segment is drawn inside the walk, the open points are exactly
      the point one second before the current entry when its size is
      non-zero, and none otherwise; the last size is the entry's size. */
  lemma StepAfterDraw(w: Walk, px: real, t: Time, size: real, axes: Axes, st: SizeStats)
    requires st.mdev >= 0.0
    requires |w.points| == 1 && InWindow(t, axes)
    ensures var w' := WalkStep(w, px, t, size, axes, st);
      w'.points == (if size != 0.0 then [Point(Seconds(t) - 1, px)] else [])
      && w'.lastSz == size
      && w'.lines == w.lines + [Line(w.points + [Point(Seconds(t), px)],
                                     InteriorStyle(Max(Abs(w.lastSz), Abs(size)), st), false)]
  {
  }

  lemma WalkOverSnoc(px: real, s: Series, ks: seq<Time>, i: nat, axes: Axes, st: SizeStats)
    requires st.mdev >= 0.0
    requires forall j :: 0 <= j < |ks| ==> ks[j] in s
    requires i < |ks|
    ensures WalkOver(px, s, ks[..i + 1], axes, st)
      == WalkStep(WalkOver(px, s, ks[..i], axes, st), px, ks[i], s[ks[i]], axes, st)
  {
    assert ks[..i + 1][..i] == ks[..i];
  }

  /** The walk over the entries `ks` of one bucket: the inner loop of
      `redraw`, returning the open points, the last size and the segments. */
  method WalkEntries(px: real, s: Series, ks: seq<Time>, axes: Axes, st: SizeStats)
    returns (points: seq<Point>, lastSz: real, lines: seq<Primitive>)
    requires st.mdev >= 0.0
    requires forall j :: 0 <= j < |ks| ==> ks[j] in s
    ensures Walk(points, lastSz, lines) == WalkOver(px, s, ks, axes, st)
  {
    points, lastSz, lines := [], 0.0, [];
    for i := 0 to |ks|
      invariant Walk(points, lastSz, lines) == WalkOver(px, s, ks[..i], axes, st)
    {
      ghost var w := Walk(points, lastSz, lines);
      var time, size := ks[i], s[ks[i]];
      var sizeCoord := Abs(size);
      var timeCoord := Seconds(time);
      if timeCoord < axes.minT || timeCoord > axes.maxT {
        WalkOverSnoc(px, s, ks, i, axes, st);
        continue;
      }
      points := points + [Point(timeCoord, px)];
      if |points| >= 2 {
        var style := InteriorStyle(Max(Abs(lastSz), sizeCoord), st);
        lines := lines + [Line(points, style, false)];
        points := if sizeCoord > 0.0 then [Point(timeCoord - 1, px)] else [];
      }
      lastSz := size;
      assert Walk(points, lastSz, lines) == WalkStep(w, px, time, size, axes, st);
      WalkOverSnoc(px, s, ks, i, axes, st);
    }
    assert ks[..|ks|] == ks;
  }

  /** The segments `redraw` draws for the bucket at price `p`: the price
      test, the walk over its entries oldest first, and the trailing segment
      to `now`. */
  method DrawBucket(p: int, s: Series, axes: Axes, st: SizeStats, now: int) returns (lines: seq<Primitive>)
    requires st.mdev >= 0.0
    ensures lines == BucketLines(p, s, axes, st, now)
  {
    lines := [];
    var px := p as real;
    if px <= axes.minPx || px >= axes.maxPx {
      return;
    }
    var points, lastSz;
    points, lastSz, lines := WalkEntries(px, s, AscendingNat(s.Keys), axes, st);
    if |points| > 0 {
      points := points + [Point(now, px)];
      var style := TrailingStyle(Abs(lastSz), st);
      lines := lines + [Line(points, style, true)];
    }
  }

  // -------------------------------------------------------------- the redraw

  /** The segments of the buckets `order`, bucket after bucket. */
  function HeatLines(hm: Heatmap, order: seq<int>, axes: Axes, st: SizeStats, now: int): seq<Primitive>
    requires st.mdev >= 0.0
    requires forall i :: 0 <= i < |order| ==> order[i] in hm
    decreases |order|
  {
    if order == [] then []
    else
      var p := order[|order| - 1];
      HeatLines(hm, order[..|order| - 1], axes, st, now) + BucketLines(p, hm[p], axes, st, now)
  }

  /** A horizontal two-point line at a price strictly inside the price range. */
  predicate InRangeLine(l: Primitive, axes: Axes) {
    l.Line? && |l.points| == 2 && l.points[1].px == l.points[0].px
    && axes.minPx < l.points[0].px < axes.maxPx
  }

  lemma HeatLinesSnoc(hm: Heatmap, order: seq<int>, p: int, axes: Axes, st: SizeStats, now: int)
    requires st.mdev >= 0.0
    requires forall i :: 0 <= i < |order| ==> order[i] in hm
    requires p in hm
    ensures HeatLines(hm, order + [p], axes, st, now)
      == HeatLines(hm, order, axes, st, now) + BucketLines(p, hm[p], axes, st, now)
  {
    assert (order + [p])[..|order|] == order;
  }

  /** Every line a bucket draws is a two-point line at a price strictly
      inside the price range. */
  lemma BucketInRange(p: int, s: Series, axes: Axes, st: SizeStats, now: int)
    requires st.mdev >= 0.0
    ensures forall l :: l in BucketLines(p, s, axes, st, now) ==> InRangeLine(l, axes)
  {
    var lines := BucketLines(p, s, axes, st, now);
    BucketShape(p, s, axes, st, now);
    forall l | l in lines ensures InRangeLine(l, axes) {
      var i :| 0 <= i < |lines| && lines[i] == l;
      assert TwoPointsAt(lines[i], p as real);
    }
  }

  /** Every heatmap primitive is a two-point line at a price strictly inside
      the price range. */
  lemma {:induction false} HeatLinesInRange(hm: Heatmap, order: seq<int>, axes: Axes, st: SizeStats, now: int)
    requires st.mdev >= 0.0
    requires forall i :: 0 <= i < |order| ==> order[i] in hm
    ensures forall l :: l in HeatLines(hm, order, axes, st, now) ==> InRangeLine(l, axes)
    decreases |order|
  {
    if order != [] {
      var init, p := order[..|order| - 1], order[|order| - 1];
      HeatLinesInRange(hm, init, axes, st, now);
      BucketInRange(p, hm[p], axes, st, now);
      assert HeatLines(hm, order, axes, st, now)
        == HeatLines(hm, init, axes, st, now) + BucketLines(p, hm[p], axes, st, now);
    }
  }

  /** One candle per stored kline, at its open second. */
  function CandleOf(k: Kline): Primitive {
    Candle(Seconds(k.ts), k.op, k.hi, k.lo, k.cl)
  }

  /** The candles of the klines at `ks`, in the order of `ks`. */
  function CandlesAt(klines: map<Time, Kline>, ks: seq<Time>): (r: seq<Primitive>)
    requires forall t :: t in ks ==> t in klines
    ensures |r| == |ks|
    ensures forall i :: 0 <= i < |r| ==> r[i] == CandleOf(klines[ks[i]])
    ensures forall t :: t in ks ==> CandleOf(klines[t]) in r
  {
    if ks == [] then []
    else
      var rest := CandlesAt(klines, ks[1..]);
      assert forall t :: t in ks ==> t == ks[0] || t in ks[1..] by {
        assert ks == [ks[0]] + ks[1..];
      }
      [CandleOf(klines[ks[0]])] + rest
  }

  /** The candles in ascending key order: exactly one per stored kline. */
  function Candles(klines: map<Time, Kline>): (r: seq<Primitive>)
    ensures |r| == |klines|
    ensures forall i :: 0 <= i < |r| ==> r[i].Candle?
    ensures forall t :: t in klines ==> CandleOf(klines[t]) in r
    ensures var ks := AscendingNat(klines.Keys);
      forall i :: 0 <= i < |r| ==> r[i] == CandleOf(klines[ks[i]])
  {
    CandlesAt(klines, AscendingNat(klines.Keys))
  }

  /** When every kline is stored under its own open time, the candles come
      in ascending time. */
  lemma CandlesInTimeOrder(klines: map<Time, Kline>)
    requires KeyedByOpenTime(klines)
    ensures var r := Candles(klines);
      forall i, j :: 0 <= i < j < |r| ==> r[i].t <= r[j].t
  {
    var ks := AscendingNat(klines.Keys);
    var r := Candles(klines);
    forall i, j | 0 <= i < j < |r| ensures r[i].t <= r[j].t {
      assert r[i] == CandleOf(klines[ks[i]]) && r[j] == CandleOf(klines[ks[j]]);
      SecondsMonotone(ks[i], ks[j]);
    }
  }

  /** A permutation of the bucket keys: the order in which the hash map
      happens to yield them. */
  ghost predicate IsEnumeration(order: seq<int>, keys: set<int>) {
    (forall p :: p in order <==> p in keys)
    && forall i, j :: 0 <= i < j < |order| ==> order[i] != order[j]
  }

  /** The bucket loop of `redraw`: the segments of every bucket, the buckets
      taken in the order the hash map yields them; whatever that order, every
      segment is a horizontal two-point line inside the price range. */
  method DrawHeatmap(heatmap: Heatmap, axes: Axes, st: SizeStats, now: int)
    returns (heat: seq<Primitive>, ghost order: seq<int>)
    requires st.mdev >= 0.0
    ensures IsEnumeration(order, heatmap.Keys)
    ensures forall i :: 0 <= i < |order| ==> order[i] in heatmap
    ensures heat == HeatLines(heatmap, order, axes, st, now)
    ensures forall l :: l in heat ==> InRangeLine(l, axes)
  {
    heat, order := [], [];
    var rest := heatmap.Keys;
    while rest != {}
      invariant rest <= heatmap.Keys
      invariant forall p :: p in heatmap ==> (p in rest <==> p !in order)
      invariant forall i :: 0 <= i < |order| ==> order[i] in heatmap
      invariant forall i, j :: 0 <= i < j < |order| ==> order[i] != order[j]
      invariant heat == HeatLines(heatmap, order, axes, st, now)
      invariant forall l :: l in heat ==> InRangeLine(l, axes)
      decreases rest
    {
      assert (forall y :: y !in rest) ==> rest == {};
      var p :| p in rest;
      var lines := DrawBucket(p, heatmap[p], axes, st, now);
      HeatLinesSnoc(heatmap, order, p, axes, st, now);
      BucketInRange(p, heatmap[p], axes, st, now);
      order := order + [p];
      heat := heat + lines;
      rest := rest - {p};
    }
  }

  /** `redraw`: nothing without candles; otherwise the axes, then the
      segments of every bucket in some enumeration of the buckets, then the
      candles.  The source's `median` panics on an empty sample, so a redraw
      with candles needs a non-zero size in the heatmap. */
  method Redraw(klines: map<Time, Kline>, heatmap: Heatmap, now: int)
    returns (plan: seq<Primitive>, ghost order: seq<int>)
    requires |klines| > 0 ==> HasNonZero(heatmap)
    ensures |klines| == 0 ==> plan == []
    ensures |klines| > 0 ==>
      var axes, st := AxisRanges(klines), SizeStatsOf(heatmap);
      IsEnumeration(order, heatmap.Keys)
      && (forall i :: 0 <= i < |order| ==> order[i] in heatmap)
      && plan == [Mesh(axes)] + HeatLines(heatmap, order, axes, st, now) + Candles(klines)
  {
    order := [];
    plan := [];
    if |klines| == 0 {
      return;
    }
    var axes := AxisRanges(klines);
    plan := [Mesh(axes)];
    var st := SizeStatsOf(heatmap);
    var heat;
    heat, order := DrawHeatmap(heatmap, axes, st, now);
    plan := plan + heat + Candles(klines);
  }

  /** The shape of a redraw with candles: the axes first, the candles last,
      and in between only two-point heatmap lines inside the price range. */
  lemma PlanShape(hm: Heatmap, order: seq<int>, axes: Axes, st: SizeStats, now: int, candles: seq<Primitive>)
    requires st.mdev >= 0.0
    requires forall i :: 0 <= i < |order| ==> order[i] in hm
    ensures var plan := [Mesh(axes)] + HeatLines(hm, order, axes, st, now) + candles;
      var n := |plan| - |candles|;
      plan[0] == Mesh(axes)
      && n >= 1
      && (forall i :: 1 <= i < n ==> InRangeLine(plan[i], axes))
      && plan[n..] == candles
  {
    HeatLinesInRange(hm, order, axes, st, now);
    var heat := HeatLines(hm, order, axes, st, now);
    var plan := [Mesh(axes)] + heat + candles;
    assert |plan| - |candles| == 1 + |heat|;
    forall i | 1 <= i < 1 + |heat| ensures InRangeLine(plan[i], axes) {
      assert plan[i] == heat[i - 1];
    }
    assert plan[1 + |heat|..] == candles;
  }
}
