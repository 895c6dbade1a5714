/** The heatmap store and the rules that fold order-book updates into it
    (`Data::process_updates`, web/src/data.rs).

    A heatmap maps a price bucket to a time-ordered series from time bucket to
    signed size (positive for bids, negative for asks).  Price keys are exact
    integers: with a price step of 1.0 the bucket of a price is its floor.  A
    series is a map whose greatest key is its "last" entry, as for a BTreeMap. */
module Binning {
  import opened Stats
  import opened OrderedKeys

  type Time = nat

  /** One parsed depth level: event time, update id, price and signed size. */
  datatype OrderBookUpdate = OrderBookUpdate(ts: Time, sq: nat, px: real, sz: real)

  /** A queued update together with the time it was queued under. */
  type Queued = (Time, OrderBookUpdate)

  type Series = map<Time, real>
  type Heatmap = map<int, Series>

  const TimeStep: nat := 1000
  /** Eviction runs only when the store holds more price buckets than this. */
  const MaxBuckets: nat := 200
  /** A bucket is an outlier when its distance from the median price exceeds
      this many median absolute deviations. */
  const OutlierFactor: real := 2.0

  /** `(px / 1.0).floor() * 1.0`: the integer bucket a price falls into. */
  function PriceBin(px: real): (p: int)
    ensures p as real <= px < p as real + 1.0
  {
    px.Floor
  }

  /** `(ts / 1000) * 1000` on unsigned integers. */
  function TimeBin(t: Time): (tb: Time)
    ensures tb % TimeStep == 0
    ensures tb <= t < tb + TimeStep
  {
    (t / TimeStep) * TimeStep
  }

  /** The key of the latest entry of a non-empty series. */
  function LastKey(s: Series): (k: Time)
    requires s != map[]
    ensures k in s
    ensures forall t :: t in s ==> t <= k
  {
    var ks := Ascending(s.Keys);
    assert |ks| > 0 by {
      assert (forall y :: y !in s.Keys) ==> s == map[];
    }
    ks[|ks| - 1]
  }

  function SeriesAt(hm: Heatmap, p: int): Series {
    if p in hm then hm[p] else map[]
  }

  /** The first rule of an update: its size repeats the latest entry of its
      bucket and is not zero, so it is discarded. */
  predicate IsRestatement(hm: Heatmap, p: int, sz: real) {
    p in hm && hm[p] != map[] && hm[p][LastKey(hm[p])] == sz && sz != 0.0
  }

  /** Reference definition of one update.  The source distinguishes three
      cases (discard, overwrite the latest entry, insert); since writing a
      BTreeMap at an existing key replaces its value, the last two are the
      same write `bucket[time_bin] := size`. */
  function Apply(hm: Heatmap, q: Queued): Heatmap {
    var p := PriceBin(q.1.px);
    if IsRestatement(hm, p, q.1.sz) then hm
    else hm[p := SeriesAt(hm, p)[TimeBin(q.0) := q.1.sz]]
  }

  /** Draining a queue front to back. */
  function ApplyAll(hm: Heatmap, qs: seq<Queued>): Heatmap
    decreases |qs|
  {
    if qs == [] then hm else ApplyAll(Apply(hm, qs[0]), qs[1..])
  }

  /** The bucket prices as numbers, in ascending key order.  The source collects
      them in HashMap order; the statistics below do not depend on the order
      (Stats.MedianPermutation, Stats.MadPermutation). */
  function Prices(hm: Heatmap): (r: seq<real>)
    ensures |r| == |hm|
  {
    var ks := Ascending(hm.Keys);
    seq(|ks|, i requires 0 <= i < |ks| => ks[i] as real)
  }

  function Center(hm: Heatmap): real
    requires |hm| > 0
  {
    Median(Prices(hm))
  }

  function Spread(hm: Heatmap): (r: real)
    requires |hm| > 0
    ensures r >= 0.0
  {
    Mad(Prices(hm), Center(hm))
  }

  /** `dev / mdev > 2.0` for `dev, mdev >= 0`, with the floating-point
      conventions `x / 0 = inf` for `x > 0` and `0 / 0 = NaN`, is exactly
      `dev > 2 * mdev`. */
  predicate IsOutlier(p: int, center: real, spread: real) {
    Abs(p as real - center) > OutlierFactor * spread
  }

  /** The buckets that are not outliers for the given centre and spread,
      with their series untouched. */
  function Inliers(hm: Heatmap, center: real, spread: real): (r: Heatmap)
    ensures forall p :: p in r <==> p in hm && !IsOutlier(p, center, spread)
    ensures forall p :: p in r ==> r[p] == hm[p]
  {
    map p | p in hm && !IsOutlier(p, center, spread) :: hm[p]
  }

  /** The outlier pass that ends every flush. */
  function Evict(hm: Heatmap): (r: Heatmap)
    ensures r.Keys <= hm.Keys
    ensures forall p :: p in r ==> r[p] == hm[p]
    ensures |hm| <= MaxBuckets ==> r == hm
  {
    if |hm| <= MaxBuckets then hm else Inliers(hm, Center(hm), Spread(hm))
  }

  /** A complete flush: drain the queue, then evict. */
  function Flush(hm: Heatmap, qs: seq<Queued>): Heatmap {
    Evict(ApplyAll(hm, qs))
  }

  // ---------------------------------------------------------------------------
  // Store invariant

  /** Every bucket holds at least one entry and every time key is a whole
      number of time steps. */
  ghost predicate WellFormed(hm: Heatmap) {
    forall p :: p in hm ==> hm[p] != map[] && forall t :: t in hm[p] ==> t % TimeStep == 0
  }

  lemma ApplyWellFormed(hm: Heatmap, q: Queued)
    requires WellFormed(hm)
    ensures WellFormed(Apply(hm, q))
  {
    var p, tb := PriceBin(q.1.px), TimeBin(q.0);
    if !IsRestatement(hm, p, q.1.sz) {
      var s := SeriesAt(hm, p)[tb := q.1.sz];
      assert tb in s;
    }
  }

  lemma {:induction false} ApplyAllWellFormed(hm: Heatmap, qs: seq<Queued>)
    requires WellFormed(hm)
    ensures WellFormed(ApplyAll(hm, qs))
    decreases |qs|
  {
    if qs != [] {
      ApplyWellFormed(hm, qs[0]);
      ApplyAllWellFormed(Apply(hm, qs[0]), qs[1..]);
    }
  }

  lemma FlushWellFormed(hm: Heatmap, qs: seq<Queued>)
    requires WellFormed(hm)
    ensures WellFormed(Flush(hm, qs))
  {
    ApplyAllWellFormed(hm, qs);
  }

  // ---------------------------------------------------------------------------
  // The per-update rules

  /** The first update at a price creates its bucket with exactly one entry. */
  lemma ApplyNewBucket(hm: Heatmap, q: Queued)
    requires PriceBin(q.1.px) !in hm
    ensures Apply(hm, q) == hm[PriceBin(q.1.px) := map[TimeBin(q.0) := q.1.sz]]
  {
  }

  /** A non-zero size equal to the latest entry's leaves the whole store as it was. */
  lemma ApplyRestatement(hm: Heatmap, q: Queued)
    requires var p := PriceBin(q.1.px);
      p in hm && hm[p] != map[] && hm[p][LastKey(hm[p])] == q.1.sz && q.1.sz != 0.0
    ensures Apply(hm, q) == hm
  {
  }

  /** A different non-zero size in the latest time bucket overwrites that
      entry: the bucket keeps its keys and every other bucket its series. */
  lemma ApplyOverwrite(hm: Heatmap, q: Queued)
    requires var p := PriceBin(q.1.px);
      p in hm && hm[p] != map[] && LastKey(hm[p]) == TimeBin(q.0) && q.1.sz != 0.0
    ensures var p := PriceBin(q.1.px);
      var r := Apply(hm, q);
      r.Keys == hm.Keys && r[p].Keys == hm[p].Keys && r[p][TimeBin(q.0)] == q.1.sz
      && (forall t :: t in hm[p] && t != TimeBin(q.0) ==> r[p][t] == hm[p][t])
      && (forall p' :: p' in hm && p' != p ==> r[p'] == hm[p'])
  {
  }

  /** Any update that is not a restatement writes its size at its time bucket,
      a zero size included, and touches nothing else. */
  lemma ApplyRecords(hm: Heatmap, q: Queued)
    requires !IsRestatement(hm, PriceBin(q.1.px), q.1.sz)
    ensures var p, tb := PriceBin(q.1.px), TimeBin(q.0);
      var r := Apply(hm, q);
      r.Keys == hm.Keys + {p}
      && r[p].Keys == SeriesAt(hm, p).Keys + {tb}
      && r[p][tb] == q.1.sz
      && (forall t :: t in SeriesAt(hm, p) && t != tb ==> r[p][t] == hm[p][t])
      && (forall p' :: p' in hm && p' != p ==> r[p'] == hm[p'])
  {
  }

  /** A size of zero is never discarded. */
  lemma ZeroAlwaysRecorded(hm: Heatmap, q: Queued)
    requires q.1.sz == 0.0
    ensures var r := Apply(hm, q);
      PriceBin(q.1.px) in r && r[PriceBin(q.1.px)][TimeBin(q.0)] == 0.0
  {
  }

  /** Two updates at one price with the same non-zero size leave one entry. */
  lemma RepeatedSizeCollapses(hm: Heatmap, q1: Queued, q2: Queued)
    requires PriceBin(q1.1.px) !in hm && PriceBin(q2.1.px) == PriceBin(q1.1.px)
    requires q1.1.sz == q2.1.sz && q1.1.sz != 0.0
    ensures var r, p := ApplyAll(hm, [q1, q2]), PriceBin(q1.1.px);
      p in r && r[p] == map[TimeBin(q1.0) := q1.1.sz]
  {
    var p := PriceBin(q1.1.px);
    var h1 := Apply(hm, q1);
    assert h1[p] == map[TimeBin(q1.0) := q1.1.sz];
    assert TimeBin(q1.0) in h1[p];
    assert LastKey(h1[p]) == TimeBin(q1.0);
    assert Apply(h1, q2) == h1;
    assert ApplyAll(hm, [q1, q2]) == ApplyAll(h1, [q2]) by { assert [q1, q2][1..] == [q2]; }
    assert ApplyAll(h1, [q2]) == Apply(h1, q2) by { assert [q2][1..] == []; }
  }

  /** A non-zero size followed by a zero in a later time bucket at the same
      price leaves two entries: the zero ends the run. */
  lemma ZeroEndsRun(hm: Heatmap, q1: Queued, q2: Queued)
    requires PriceBin(q1.1.px) !in hm && PriceBin(q2.1.px) == PriceBin(q1.1.px)
    requires q1.1.sz != 0.0 && q2.1.sz == 0.0 && TimeBin(q1.0) < TimeBin(q2.0)
    ensures var r, p := ApplyAll(hm, [q1, q2]), PriceBin(q1.1.px);
      p in r && r[p] == map[TimeBin(q1.0) := q1.1.sz, TimeBin(q2.0) := 0.0]
  {
    var h1 := Apply(hm, q1);
    assert ApplyAll(hm, [q1, q2]) == ApplyAll(h1, [q2]) by { assert [q1, q2][1..] == [q2]; }
    assert ApplyAll(h1, [q2]) == Apply(h1, q2) by { assert [q2][1..] == []; }
  }

  /** Draining `a + b` in one flush applies the same updates, in the same
      order, as draining `a` and then `b`. */
  lemma {:induction false} ApplyAllConcat(hm: Heatmap, a: seq<Queued>, b: seq<Queued>)
    ensures ApplyAll(hm, a + b) == ApplyAll(ApplyAll(hm, a), b)
    decreases |a|
  {
    if a != [] {
      assert (a + b)[0] == a[0];
      assert (a + b)[1..] == a[1..] + b;
      ApplyAllConcat(Apply(hm, a[0]), a[1..], b);
    } else {
      assert a + b == b;
    }
  }

  /** Appending one update to the queue applies it after all the others. */
  lemma ApplyAllSnoc(hm: Heatmap, qs: seq<Queued>, q: Queued)
    ensures ApplyAll(hm, qs + [q]) == Apply(ApplyAll(hm, qs), q)
  {
    ApplyAllConcat(hm, qs, [q]);
    assert ApplyAll(ApplyAll(hm, qs), [q]) == Apply(ApplyAll(hm, qs), q) by {
      assert [q][1..] == [];
    }
  }

  // ---------------------------------------------------------------------------
  // The eviction pass

  /** Above the ceiling, eviction keeps exactly the buckets within twice the
      median absolute deviation of the median price, and keeps their series. */
  lemma EvictSelects(hm: Heatmap)
    requires |hm| > MaxBuckets
    ensures forall p :: p in Evict(hm) <==> p in hm && !IsOutlier(p, Center(hm), Spread(hm))
    ensures forall p :: p in Evict(hm) ==> Evict(hm)[p] == hm[p]
  {
  }

  /** Distinct prices: at most one of them sits at any given centre. */
  lemma {:induction false} ZeroDeviationAtMostOnce(s: seq<real>, c: real)
    requires forall i, j :: 0 <= i < j < |s| ==> s[i] < s[j]
    ensures multiset(Deviations(s, c))[0.0] <= 1
  {
    if s != [] {
      var d, rest := Deviations(s, c), Deviations(s[1..], c);
      assert d == [Abs(s[0] - c)] + rest;
      ZeroDeviationAtMostOnce(s[1..], c);
      if s[0] == c {
        assert 0.0 !in rest by {
          forall k | 0 <= k < |rest| ensures rest[k] != 0.0 {
            assert s[1..][k] == s[k + 1] && s[0] < s[k + 1];
          }
        }
      }
    }
  }

  /** The prices are the bucket keys, each once, in ascending order. */
  lemma PricesAreKeys(hm: Heatmap)
    ensures var r := Prices(hm);
      (forall i, j :: 0 <= i < j < |r| ==> r[i] < r[j])
      && (forall i :: 0 <= i < |r| ==> r[i] == r[i].Floor as real && r[i].Floor in hm)
  {
  }

  /** The bucket keys are distinct integers, so with three or more buckets the
      median absolute deviation of the prices is positive: the degenerate
      spread of zero never reaches the outlier test. */
  lemma SpreadPositive(hm: Heatmap)
    requires |hm| >= 3
    ensures Spread(hm) > 0.0
  {
    PricesAreKeys(hm);
    ZeroDeviationAtMostOnce(Prices(hm), Center(hm));
    MadPositive(Prices(hm), Center(hm));
  }

  /** Eviction never empties a non-empty store: the bucket whose price
      deviates least from the median is always kept. */
  lemma EvictKeepsSome(hm: Heatmap)
    requires |hm| > 0
    ensures |Evict(hm)| > 0
  {
    if |hm| > MaxBuckets {
      var p := LeastDeviating(hm);
      EvictSelects(hm);
      assert p in Evict(hm);
    }
  }

  /** A bucket whose price is no further from the median than the median
      absolute deviation. */
  lemma LeastDeviating(hm: Heatmap) returns (p: int)
    requires |hm| > 0
    ensures p in hm && Abs(p as real - Center(hm)) <= Spread(hm)
  {
    var prices := Prices(hm);
    var i := WithinMad(prices, Center(hm));
    PricesAreKeys(hm);
    p := prices[i].Floor;
    assert p as real == prices[i];
  }
}
