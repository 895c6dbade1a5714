/** The session state of the data provider (`Data`, web/src/data.rs): the
    tracked symbol, the candle store, the queue of pending depth updates, the
    heatmap, and the handles of the stream connection and the flush timer.

    The stores are shared behind locks in the source; here one object owns
    them and each handler is a method.  Opening the stream connection and the
    browser timer are external: a method records that the connection is open
    and takes the timer's handle as a parameter. */
module DataProvider {
  import opened Stats
  import opened OrderedKeys
  import opened Binning

  datatype Option<T> = None | Some(value: T)

  /** A stored candle; `vs` is the sell volume. */
  datatype Kline = Kline(ts: Time, op: real, hi: real, lo: real, cl: real, vb: real, vs: real, tc: Time)

  /** The fields of a parsed candle message: open time, prices, buy volume,
      total volume and close time. */
  datatype KlineEvent = KlineEvent(t: Time, o: real, h: real, l: real, c: real, buyVolume: real, volume: real, closeTime: Time)

  /** The fields of a parsed depth message: event time `E`, final update id
      `u`, and the (price, size) levels of the bid and ask sides. */
  datatype DepthEvent = DepthEvent(e: Time, u: nat, bids: seq<(real, real)>, asks: seq<(real, real)>)

  /** Inserting a candle by open time replaces whatever was stored at that
      time and no other candle; the sell volume is the total less the buy
      volume. */
  function UpsertKline(klines: map<Time, Kline>, k: KlineEvent): (r: map<Time, Kline>)
    ensures r.Keys == klines.Keys + {k.t}
    ensures r[k.t].ts == k.t && r[k.t].vb + r[k.t].vs == k.volume
    ensures r[k.t] == Kline(k.t, k.o, k.h, k.l, k.c, k.buyVolume, k.volume - k.buyVolume, k.closeTime)
    ensures forall t :: t in klines && t != k.t ==> r[t] == klines[t]
  {
    klines[k.t := Kline(k.t, k.o, k.h, k.l, k.c, k.buyVolume, k.volume - k.buyVolume, k.closeTime)]
  }

  /** Every candle is stored under its own open time. */
  predicate KeyedByOpenTime(klines: map<Time, Kline>) {
    forall t :: t in klines ==> klines[t].ts == t
  }

  /** Two candles with the same open time leave the second one stored. */
  lemma UpsertKlineTwice(klines: map<Time, Kline>, k1: KlineEvent, k2: KlineEvent)
    requires k1.t == k2.t
    ensures UpsertKline(UpsertKline(klines, k1), k2) == UpsertKline(klines, k2)
  {
  }

  /** The queue entries a depth message produces: every bid level as it is,
      then every ask level with its size negated, all stamped with the
      message's event time and update id. */
  function DepthUpdates(ev: DepthEvent): (r: seq<Queued>)
    ensures |r| == |ev.bids| + |ev.asks|
    ensures forall i :: 0 <= i < |r| ==> r[i].0 == ev.e && r[i].1.ts == ev.e && r[i].1.sq == ev.u
    ensures forall i :: 0 <= i < |ev.bids| ==>
      r[i].1.px == ev.bids[i].0 && r[i].1.sz == ev.bids[i].1
    ensures forall i :: 0 <= i < |ev.asks| ==>
      r[|ev.bids| + i].1.px == ev.asks[i].0 && r[|ev.bids| + i].1.sz == -ev.asks[i].1
  {
    seq(|ev.bids|, i requires 0 <= i < |ev.bids| =>
          (ev.e, OrderBookUpdate(ev.e, ev.u, ev.bids[i].0, ev.bids[i].1)))
    + seq(|ev.asks|, i requires 0 <= i < |ev.asks| =>
          (ev.e, OrderBookUpdate(ev.e, ev.u, ev.asks[i].0, -ev.asks[i].1)))
  }

  /** The keys of the buckets the outlier pass removes, in the order given. */
  function OutlierKeys(ks: seq<int>, center: real, spread: real): (r: seq<int>)
    ensures forall p :: p in r <==> p in ks && IsOutlier(p, center, spread)
  {
    if ks == [] then []
    else
      var rest := OutlierKeys(ks[1..], center, spread);
      assert forall p :: p in ks <==> p == ks[0] || p in ks[1..] by {
        assert ks == [ks[0]] + ks[1..];
      }
      if IsOutlier(ks[0], center, spread) then [ks[0]] + rest else rest
  }

  /** Removing exactly the outlier keys leaves the inliers. */
  lemma RemovedLeavesInliers(before: Heatmap, after: Heatmap, removed: seq<int>, c: real, d: real)
    requires forall q :: q in removed <==> q in before && IsOutlier(q, c, d)
    requires forall q :: q in after <==> q in before && q !in removed
    requires forall q :: q in after ==> after[q] == before[q]
    ensures after == Inliers(before, c, d)
  {
    var kept := Inliers(before, c, d);
    forall q ensures q in after <==> q in kept {
      assert q in removed <==> q in before && IsOutlier(q, c, d);
    }
    assert after.Keys == kept.Keys;
  }

  lemma PrefixSnoc<T>(s: seq<T>, i: nat)
    requires i < |s|
    ensures s[..i + 1] == s[..i] + [s[i]]
  {
  }

  class Data {
    var symbol: Option<string>
    var klines: map<Time, Kline>
    var updates: seq<Queued>
    var heatmap: Heatmap
    /** Whether a stream connection is open (`ws` is set). */
    var connected: bool
    var timerHandle: Option<int>

    /** Candles are stored under their own open time, and the heatmap is well
        formed. */
    ghost predicate Valid()
      reads this
    {
      WellFormed(heatmap) && KeyedByOpenTime(klines)
    }

    constructor ()
      ensures Valid()
      ensures symbol == None && klines == map[] && updates == [] && heatmap == map[]
      ensures !connected && timerHandle == None
    {
      symbol, klines, updates, heatmap := None, map[], [], map[];
      connected, timerHandle := false, None;
    }

    /** Empties the three stores and cancels the flush timer. */
    method Clear()
      modifies this`klines, this`updates, this`heatmap, this`timerHandle
      ensures Valid()
      ensures klines == map[] && updates == [] && heatmap == map[] && timerHandle == None
    {
      klines := map[];
      updates := [];
      heatmap := map[];
      if timerHandle.Some? {
        // the browser timer itself is cancelled outside the model
        timerHandle := None;
      }
    }

    /** Opens the stream for the current symbol: an open connection is closed
        and the stores cleared first, then the flush timer whose handle the
        browser returned is recorded. */
    method Dial(handle: int)
      requires Valid()
      modifies this`klines, this`updates, this`heatmap, this`timerHandle, this`connected
      ensures Valid()
      ensures connected && timerHandle == Some(handle)
      ensures old(connected) ==> klines == map[] && updates == [] && heatmap == map[]
      ensures !old(connected) ==> klines == old(klines) && updates == old(updates) && heatmap == old(heatmap)
    {
      if connected {
        Clear();
      }
      connected := true;
      timerHandle := Some(handle);
    }

    /** Switching to a new symbol resets every store before the new stream
        is opened; asking for the current symbol changes nothing. */
    method SetSymbol(sym: string, handle: int)
      requires Valid()
      modifies this
      ensures Valid()
      ensures old(symbol) == Some(sym) ==>
        symbol == old(symbol) && klines == old(klines) && updates == old(updates)
        && heatmap == old(heatmap) && connected == old(connected) && timerHandle == old(timerHandle)
      ensures old(symbol) != Some(sym) ==>
        symbol == Some(sym) && klines == map[] && updates == [] && heatmap == map[]
        && connected && timerHandle == Some(handle)
    {
      if symbol == Some(sym) {
        return;
      }
      symbol := Some(sym);
      Clear();
      Dial(handle);
    }

    /** Candle handler: upsert by open time. */
    method OnKline(k: KlineEvent)
      requires Valid()
      modifies this`klines
      ensures Valid()
      ensures klines == UpsertKline(old(klines), k)
    {
      klines := klines[k.t := Kline(k.t, k.o, k.h, k.l, k.c, k.buyVolume, k.volume - k.buyVolume, k.closeTime)];
    }

    /** Depth handler: queue the bids, then the negated asks. */
    method OnDepth(ev: DepthEvent)
      requires Valid()
      modifies this`updates
      ensures Valid()
      ensures updates == old(updates) + DepthUpdates(ev)
    {
      ghost var all := DepthUpdates(ev);
      for i := 0 to |ev.bids|
        invariant updates == old(updates) + all[..i]
      {
        var (px, sz) := ev.bids[i];
        PrefixSnoc(all, i);
        assert all[i] == (ev.e, OrderBookUpdate(ev.e, ev.u, px, sz));
        updates := updates + [(ev.e, OrderBookUpdate(ev.e, ev.u, px, sz))];
      }
      for i := |ev.bids| to |ev.bids| + |ev.asks|
        invariant updates == old(updates) + all[..i]
      {
        var (px, sz) := ev.asks[i - |ev.bids|];
        PrefixSnoc(all, i);
        assert all[i] == (ev.e, OrderBookUpdate(ev.e, ev.u, px, -sz));
        updates := updates + [(ev.e, OrderBookUpdate(ev.e, ev.u, px, -sz))];
      }
      assert all[..|all|] == all;
    }

    /** The flush timer's callback: process only when something is queued. */
    method OnTimer()
      requires Valid()
      modifies this`updates, this`heatmap
      ensures Valid()
      ensures updates == []
      ensures heatmap == if old(updates) == [] then old(heatmap) else Flush(old(heatmap), old(updates))
    {
      if updates != [] {
        ProcessUpdates();
      }
    }

    /** Drains the queue front to back into the heatmap, then, above the
        bucket ceiling, removes the outlier price buckets. */
    method ProcessUpdates()
      requires Valid()
      modifies this`updates, this`heatmap
      ensures Valid()
      ensures updates == []
      ensures heatmap == Flush(old(heatmap), old(updates))
    {
      Drain();
      RejectOutliers();
    }

    /** The `while let Some(update) = updates.pop_front()` loop of the flush. */
    method Drain()
      requires Valid()
      modifies this`updates, this`heatmap
      ensures Valid()
      ensures updates == []
      ensures heatmap == ApplyAll(old(heatmap), old(updates))
    {
      while updates != []
        invariant WellFormed(heatmap)
        invariant ApplyAll(heatmap, updates) == ApplyAll(old(heatmap), old(updates))
        decreases |updates|
      {
        var update := updates[0];
        updates := updates[1..];
        ghost var before := heatmap;
        ApplyWellFormed(heatmap, update);
        var p, tb := PriceBin(update.1.px), TimeBin(update.0);
        var bin := if p in heatmap then heatmap[p] else map[];
        if bin != map[] {
          var last := LastKey(bin);
          if bin[last] == update.1.sz && update.1.sz != 0.0 {
            assert heatmap == Apply(before, update);
            continue;
          }
          if last == tb && update.1.sz != 0.0 {
            heatmap := heatmap[p := bin[last := update.1.sz]];
          } else {
            heatmap := heatmap[p := bin[tb := update.1.sz]];
          }
        } else {
          heatmap := heatmap[p := bin[tb := update.1.sz]];
        }
        assert heatmap == Apply(before, update);
      }
    }

    /** The outlier pass at the end of the flush: above the bucket ceiling,
        every bucket further than twice the median absolute deviation from the
        median price is removed. */
    method RejectOutliers()
      requires Valid()
      modifies this`heatmap
      ensures Valid()
      ensures heatmap == Evict(old(heatmap))
    {
      ghost var before := heatmap;
      if |heatmap| > MaxBuckets {
        var prices := Prices(heatmap);
        var m := Median(prices);
        var mdev := Median(Deviations(prices, m));
        var toRemove := OutlierKeys(Ascending(heatmap.Keys), m, mdev);
        RemoveBuckets(toRemove);
        RemovedLeavesInliers(before, heatmap, toRemove, m, mdev);
        assert m == Center(before) && mdev == Spread(before);
      }
    }

    /** Removes the buckets at `keys`, one after the other; the others keep
        their series. */
    method RemoveBuckets(keys: seq<int>)
      requires Valid()
      modifies this`heatmap
      ensures Valid()
      ensures forall q :: q in heatmap <==> q in old(heatmap) && q !in keys
      ensures forall q :: q in heatmap ==> heatmap[q] == old(heatmap)[q]
    {
      for i := 0 to |keys|
        invariant Valid()
        invariant forall q :: q in heatmap <==> q in old(heatmap) && q !in keys[..i]
        invariant forall q :: q in heatmap ==> heatmap[q] == old(heatmap)[q]
      {
        PrefixSnoc(keys, i);
        heatmap := heatmap - {keys[i]};
      }
      assert keys[..|keys|] == keys;
    }
  }
}
