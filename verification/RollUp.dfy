/**
  Coarser candles as roll-ups of finer ones, and total volumes.
 */
module RollUp {
  import opened Common
  import opened GoTime
  import opened Intervals
  import opened Price
  import opened ChainEvents
  import opened Candles

  type Klines = map<CandleKey, Candle>

  // ---- sums over candles ----------------------------------------------------------------------

  ghost function Volume(klines: Klines, keys: set<CandleKey>): int
    requires keys <= klines.Keys
  {
    if keys == {} then 0
    else
      var k :| k in keys;
      klines[k].volume + Volume(klines, keys - {k})
  }

  lemma {:induction false} VolumeSplit(klines: Klines, keys: set<CandleKey>, key: CandleKey)
    requires keys <= klines.Keys && key in keys
    ensures Volume(klines, keys) == klines[key].volume + Volume(klines, keys - {key})
    decreases keys
  {
    var k :| k in keys && Volume(klines, keys) == klines[k].volume + Volume(klines, keys - {k});
    if k != key {
      VolumeSplit(klines, keys - {k}, key);
      VolumeSplit(klines, keys - {key}, k);
      assert keys - {k} - {key} == keys - {key} - {k};
    }
  }

  lemma {:induction false} VolumeSame(a: Klines, b: Klines, keys: set<CandleKey>)
    requires keys <= a.Keys && keys <= b.Keys
    requires forall k <- keys :: a[k] == b[k]
    ensures Volume(a, keys) == Volume(b, keys)
    decreases keys
  {
    if keys != {} {
      var k :| k in keys;
      VolumeSplit(a, keys, k);
      VolumeSplit(b, keys, k);
      VolumeSame(a, b, keys - {k});
    }
  }

  /** A sum over keys changes by what one of them gains. */
  lemma VolumeAfterUpsert(klines: Klines, after: Klines, keys: set<CandleKey>, keys': set<CandleKey>, key: CandleKey, amount: int)
    requires keys <= klines.Keys && keys' <= after.Keys
    requires keys' == keys + {key} && (key in keys <==> key in klines)
    requires key in after && after[key].volume == (if key in klines then klines[key].volume else 0) + amount
    requires forall k <- keys :: k != key ==> after[k] == klines[k]
    ensures Volume(after, keys') == Volume(klines, keys) + amount
  {
    VolumeSplit(after, keys', key);
    VolumeSame(klines, after, keys - {key});
    if key in keys {
      VolumeSplit(klines, keys, key);
      assert keys' - {key} == keys - {key};
    } else {
      assert keys' - {key} == keys == keys - {key};
    }
  }

  // ---- each interval carries the whole volume -------------------------------------------------

  function KeysOf(klines: Klines, token: string, i: Interval): set<CandleKey> {
    set k <- klines.Keys | k.token == token && k.interval == i
  }

  function TokenTrades(es: seq<TokenTrade>, token: string): seq<TokenTrade> {
    if es == [] then []
    else
      var rest := TokenTrades(es[..|es| - 1], token);
      var e := es[|es| - 1];
      if Lower(e.token) == token then rest + [e] else rest
  }

  /** The candles of any one interval of a token sum to the total traded amount of the token. */
  lemma {:induction false} EveryIntervalSumsToTotal(ps: seq<Projection>, token: string, i: Interval)
    requires TradesDistinct(ps)
    ensures var klines := ApplyAll(EMPTY, ps).klines;
            Volume(klines, KeysOf(klines, token, i)) == TotalAmount(TokenTrades(TradesIn(ps), token))
  {
    hide Apply, UpsertKlines;
    if ps != [] {
      var n := |ps| - 1;
      var before := ApplyAll(EMPTY, ps[..n]);
      TradeOrNot(before, ps[n]);
      match TradeOf(ps[n])
      case None =>
        assert TradesIn(ps) == TradesIn(ps[..n]);
        EveryIntervalSumsToTotal(ps[..n], token, i);
      case Some(e) =>
        var es := TradesIn(ps[..n]);
        DistinctPrefix(es, e);
        EveryIntervalSumsToTotal(ps[..n], token, i);
        TradeKeys(ps[..n]);
        assert (es + [e])[..|es|] == es;
        TotalAfterTrade(before.klines, e, token, i);
        if Lower(e.token) == token {
          var own := TokenTrades(es, token);
          assert (own + [e])[..|own|] == own;
        }
    }
  }

  lemma TotalAfterTrade(klines: Klines, e: TokenTrade, token: string, i: Interval)
    ensures var after := UpsertKlines(klines, e, |ALL_INTERVALS|);
            var gain := if Lower(e.token) == token then IntValue(e.amount) else 0;
            Volume(after, KeysOf(after, token, i)) == Volume(klines, KeysOf(klines, token, i)) + gain
  {
    hide UpsertKlines, AlignTime, PriceOf;
    var after := UpsertKlines(klines, e, |ALL_INTERVALS|);
    var keys, keys' := KeysOf(klines, token, i), KeysOf(after, token, i);
    Upserted(klines, e);
    var key := CandleKeyOf(e, i);
    if Lower(e.token) == token {
      VolumeAfterUpsert(klines, after, keys, keys', key, IntValue(e.amount));
    } else {
      assert keys' == keys;
      VolumeSame(klines, after, keys);
    }
  }

  /** The eight upserts of a trade, stated for all keys at once. */
  lemma Upserted(klines: Klines, e: TokenTrade)
    ensures var after := UpsertKlines(klines, e, |ALL_INTERVALS|);
            && (forall i :: CandleKeyOf(e, i) in after && after[CandleKeyOf(e, i)]
                  == MergeCandle(Get(klines, CandleKeyOf(e, i)), TradePrice(e), IntValue(e.amount)))
            && (forall k: CandleKey :: k != CandleKeyOf(e, k.interval) ==> Get(after, k) == Get(klines, k))
  {
    hide UpsertKlines;
    var after := UpsertKlines(klines, e, |ALL_INTERVALS|);
    forall i
      ensures CandleKeyOf(e, i) in after && after[CandleKeyOf(e, i)]
           == MergeCandle(Get(klines, CandleKeyOf(e, i)), TradePrice(e), IntValue(e.amount))
    {
      TradeUpserts(klines, e, CandleKeyOf(e, i));
    }
    forall k: CandleKey | k != CandleKeyOf(e, k.interval)
      ensures Get(after, k) == Get(klines, k)
    {
      TradeUpserts(klines, e, k);
    }
  }

  // ---- roll-up --------------------------------------------------------------------------------

  /** The finer candles that lie inside one coarser bucket. */
  function Inside(klines: Klines, fine: Interval, bucket: CandleKey): (keys: set<CandleKey>)
    ensures keys <= klines.Keys
  {
    set k <- klines.Keys | k.token == bucket.token && k.interval == fine && AlignTime(k.open, bucket.interval) == bucket.open
  }

  ghost predicate Earliest(k: CandleKey, keys: set<CandleKey>) {
    k in keys && forall x <- keys :: k.open <= x.open
  }

  ghost predicate Latest(k: CandleKey, keys: set<CandleKey>) {
    k in keys && forall x <- keys :: x.open <= k.open
  }

  /** High, low and volume of `c` are those of the candles `keys` together. */
  ghost predicate CoversRange(klines: Klines, keys: set<CandleKey>, c: Candle)
    requires keys <= klines.Keys
  {
    && (forall k <- keys :: c.low <= klines[k].low && klines[k].high <= c.high)
    && (exists k <- keys :: klines[k].high == c.high)
    && (exists k <- keys :: klines[k].low == c.low)
    && c.volume == Volume(klines, keys)
  }

  /** The candles `keys` have a first and a last one, and open and close of `c` are theirs. */
  ghost predicate CoversEnds(klines: Klines, keys: set<CandleKey>, c: Candle)
    requires keys <= klines.Keys
  {
    && (exists k <- keys :: Earliest(k, keys))
    && (exists k <- keys :: Latest(k, keys))
    && (forall k <- keys :: Earliest(k, keys) ==> klines[k].open == c.open)
    && (forall k <- keys :: Latest(k, keys) ==> klines[k].close == c.close)
  }

  ghost predicate RollsUp(klines: Klines, fine: Interval, bucket: CandleKey) {
    var keys := Inside(klines, fine, bucket);
    && (bucket in klines <==> keys != {})
    && (bucket in klines ==> CoversRange(klines, keys, klines[bucket]))
  }

  ghost predicate EndsRollUp(klines: Klines, fine: Interval, bucket: CandleKey) {
    var keys := Inside(klines, fine, bucket);
    bucket in klines ==> CoversEnds(klines, keys, klines[bucket])
  }

  /** The bucket a finer candle of the trade lies in is the trade's own coarser bucket. */
  lemma OwnFineCandle(e: TokenTrade, fine: Interval, bucket: CandleKey)
    requires Nests(fine, bucket.interval)
    ensures var key := CandleKeyOf(e, fine);
            key.token == bucket.token && AlignTime(key.open, bucket.interval) == bucket.open
            <==> bucket == CandleKeyOf(e, bucket.interval)
  {
    AlignThroughFiner(e.time, fine, bucket.interval);
  }

  lemma InsideAfterTrade(klines: Klines, e: TokenTrade, fine: Interval, bucket: CandleKey)
    requires Nests(fine, bucket.interval)
    ensures var after := UpsertKlines(klines, e, |ALL_INTERVALS|);
            var keys, keys' := Inside(klines, fine, bucket), Inside(after, fine, bucket);
            var key := CandleKeyOf(e, fine);
            && klines.Keys <= after.Keys
            && (forall k <- keys :: k != key ==> after[k] == klines[k])
            && (bucket == CandleKeyOf(e, bucket.interval) ==> keys' == keys + {key} && (key in keys <==> key in klines))
            && (bucket != CandleKeyOf(e, bucket.interval) ==> keys' == keys && key !in keys && Get(after, bucket) == Get(klines, bucket))
  {
    hide UpsertKlines, AlignTime;
    var after := UpsertKlines(klines, e, |ALL_INTERVALS|);
    Upserted(klines, e);
    OwnFineCandle(e, fine, bucket);
    forall k <- klines.Keys
      ensures k in after
    {
      assert k != CandleKeyOf(e, k.interval) ==> Get(after, k) == Get(klines, k);
    }
    forall k: CandleKey | k.interval == fine && k != CandleKeyOf(e, fine)
      ensures Get(after, k) == Get(klines, k)
    {
    }
  }

  lemma RangeAfterTrade(klines: Klines, e: TokenTrade, fine: Interval, bucket: CandleKey)
    requires Nests(fine, bucket.interval) && RollsUp(klines, fine, bucket)
    ensures RollsUp(UpsertKlines(klines, e, |ALL_INTERVALS|), fine, bucket)
  {
    hide UpsertKlines, AlignTime, Inside, PriceOf;
    var after := UpsertKlines(klines, e, |ALL_INTERVALS|);
    InsideAfterTrade(klines, e, fine, bucket);
    Upserted(klines, e);
    var keys, keys' := Inside(klines, fine, bucket), Inside(after, fine, bucket);
    if bucket == CandleKeyOf(e, bucket.interval) {
      var key := CandleKeyOf(e, fine);
      VolumeAfterUpsert(klines, after, keys, keys', key, IntValue(e.amount));
      ExtremesAfterTrade(klines, after, e, keys, key, bucket);
    } else if bucket in klines {
      UntouchedRange(klines, after, keys, klines[bucket]);
    }
  }

  lemma UntouchedRange(klines: Klines, after: Klines, keys: set<CandleKey>, c: Candle)
    requires keys <= klines.Keys && keys <= after.Keys && CoversRange(klines, keys, c)
    requires forall k <- keys :: after[k] == klines[k]
    ensures CoversRange(after, keys, c)
  {
    VolumeSame(klines, after, keys);
    var hi :| hi in keys && klines[hi].high == c.high;
    var lo :| lo in keys && klines[lo].low == c.low;
    assert after[hi].high == c.high && after[lo].low == c.low;
  }

  lemma ExtremesAfterTrade(klines: Klines, after: Klines, e: TokenTrade, keys: set<CandleKey>, key: CandleKey, bucket: CandleKey)
    requires keys <= klines.Keys && keys + {key} <= after.Keys
    requires key in keys <==> key in klines
    requires after[key] == MergeCandle(Get(klines, key), TradePrice(e), IntValue(e.amount))
    requires forall k <- keys :: k != key ==> after[k] == klines[k]
    requires bucket in klines <==> keys != {}
    requires bucket in klines ==> CoversRange(klines, keys, klines[bucket])
    ensures var c := MergeCandle(Get(klines, bucket), TradePrice(e), IntValue(e.amount));
            var keys' := keys + {key};
            && (forall k <- keys' :: c.low <= after[k].low && after[k].high <= c.high)
            && (exists k <- keys' :: after[k].high == c.high)
            && (exists k <- keys' :: after[k].low == c.low)
  {
    var c := MergeCandle(Get(klines, bucket), TradePrice(e), IntValue(e.amount));
    assert key in keys + {key};
    if bucket in klines {
      var hi :| hi in keys && klines[hi].high == klines[bucket].high;
      var lo :| lo in keys && klines[lo].low == klines[bucket].low;
      assert after[if TradePrice(e) > klines[bucket].high then key else hi].high == c.high;
      assert after[if TradePrice(e) < klines[bucket].low then key else lo].low == c.low;
    } else {
      assert after[key].high == c.high && after[key].low == c.low;
    }
  }

  /** Main result: high, low and volume of every coarser candle are those of the finer candles inside it. */
  lemma {:induction false} CandlesRollUp(ps: seq<Projection>, fine: Interval, bucket: CandleKey)
    requires TradesDistinct(ps) && Nests(fine, bucket.interval)
    ensures RollsUp(ApplyAll(EMPTY, ps).klines, fine, bucket)
  {
    hide Apply, UpsertKlines, AlignTime, RollsUp;
    if ps == [] {
      NothingRollsUp(fine, bucket);
    } else {
      var n := |ps| - 1;
      var before := ApplyAll(EMPTY, ps[..n]);
      TradeOrNot(before, ps[n]);
      match TradeOf(ps[n])
      case None =>
        assert TradesIn(ps) == TradesIn(ps[..n]);
        CandlesRollUp(ps[..n], fine, bucket);
      case Some(e) =>
        DistinctPrefix(TradesIn(ps[..n]), e);
        CandlesRollUp(ps[..n], fine, bucket);
        TradeKeys(ps[..n]);
        RangeAfterTrade(before.klines, e, fine, bucket);
    }
  }

  lemma NothingRollsUp(fine: Interval, bucket: CandleKey)
    ensures RollsUp(map[], fine, bucket) && EndsRollUp(map[], fine, bucket)
  {
  }

  // ---- open and close need times in order -----------------------------------------------------

  predicate TimesAscend(es: seq<TokenTrade>) {
    forall i, j :: 0 <= i < j < |es| ==> es[i].time <= es[j].time
  }

  /** Every candle starts no later than the bucket of the latest trade. */
  ghost predicate OpensBefore(klines: Klines, t: Time) {
    forall k <- klines :: k.open <= AlignTime(t, k.interval)
  }

  lemma {:induction false} BucketMembers(es: seq<TokenTrade>, key: CandleKey)
    ensures forall e <- InBucket(es, key) :: e in es && CandleKeyOf(e, key.interval) == key
  {
    if es != [] {
      BucketMembers(es[..|es| - 1], key);
    }
  }

  lemma OpensAreOld(ps: seq<Projection>, e: TokenTrade)
    requires TradesDistinct(ps)
    requires forall x <- TradesIn(ps) :: x.time <= e.time
    ensures OpensBefore(ApplyAll(EMPTY, ps).klines, e.time)
  {
    hide ApplyAll, AlignTime, Summarises;
    var klines := ApplyAll(EMPTY, ps).klines;
    CandlesAreSummaries(ps);
    forall k <- klines
      ensures k.open <= AlignTime(e.time, k.interval)
    {
      var es := Bucket(ps, k);
      assert es != [];
      BucketMembers(TradesIn(ps), k);
      var x := es[0];
      assert x in es && k.open == AlignTime(x.time, k.interval);
      AlignMonotone(x.time, e.time, k.interval);
    }
  }

  lemma EndsAfterTrade(klines: Klines, e: TokenTrade, fine: Interval, bucket: CandleKey)
    requires Nests(fine, bucket.interval) && RollsUp(klines, fine, bucket) && EndsRollUp(klines, fine, bucket)
    requires OpensBefore(klines, e.time)
    ensures EndsRollUp(UpsertKlines(klines, e, |ALL_INTERVALS|), fine, bucket)
  {
    hide UpsertKlines, AlignTime, CoversRange;
    var after := UpsertKlines(klines, e, |ALL_INTERVALS|);
    InsideAfterTrade(klines, e, fine, bucket);
    Upserted(klines, e);
    var keys, keys' := Inside(klines, fine, bucket), Inside(after, fine, bucket);
    if bucket == CandleKeyOf(e, bucket.interval) {
      var key := CandleKeyOf(e, fine);
      forall k <- keys
        ensures k.open <= key.open && (k.open == key.open ==> k == key)
      {
        assert k.token == key.token && k.interval == key.interval == fine;
      }
      SameEnds(klines, after, e, keys, key, bucket);
    } else if bucket in klines {
      assert CoversEnds(klines, keys, klines[bucket]);
      assert CoversEnds(after, keys', klines[bucket]);
    }
  }

  lemma SameEnds(klines: Klines, after: Klines, e: TokenTrade, keys: set<CandleKey>, key: CandleKey, bucket: CandleKey)
    requires keys <= klines.Keys && keys + {key} <= after.Keys
    requires key in keys <==> key in klines
    requires after[key] == MergeCandle(Get(klines, key), TradePrice(e), IntValue(e.amount))
    requires forall k <- keys :: k != key ==> after[k] == klines[k]
    requires forall k <- keys :: k.open <= key.open && (k.open == key.open ==> k == key)
    requires bucket in klines <==> keys != {}
    requires bucket in klines ==> CoversEnds(klines, keys, klines[bucket])
    ensures CoversEnds(after, keys + {key}, MergeCandle(Get(klines, bucket), TradePrice(e), IntValue(e.amount)))
  {
    var keys' := keys + {key};
    var c := MergeCandle(Get(klines, bucket), TradePrice(e), IntValue(e.amount));
    assert key in keys';
    var first, last := EndsExist(keys');
    forall k <- keys' | Earliest(k, keys')
      ensures after[k].open == c.open
    {
      if keys != {} {
        var x :| x in keys;
        assert x in keys' && k.open <= x.open;
        assert k in keys && Earliest(k, keys);
      }
    }
    forall k <- keys' | Latest(k, keys')
      ensures after[k].close == c.close
    {
      assert key.open <= k.open;
      assert k == key;
    }
  }

  /** Main result: with block times that do not go back, opens and closes roll up as well. */
  lemma {:induction false} CandleEndsRollUp(ps: seq<Projection>, fine: Interval, bucket: CandleKey)
    requires TradesDistinct(ps) && Nests(fine, bucket.interval)
    requires TimesAscend(TradesIn(ps))
    ensures EndsRollUp(ApplyAll(EMPTY, ps).klines, fine, bucket)
  {
    hide Apply, UpsertKlines, AlignTime, RollsUp, EndsRollUp, OpensBefore;
    if ps == [] {
      NothingRollsUp(fine, bucket);
    } else {
      var n := |ps| - 1;
      var before := ApplyAll(EMPTY, ps[..n]);
      TradeOrNot(before, ps[n]);
      match TradeOf(ps[n])
      case None =>
        assert TradesIn(ps) == TradesIn(ps[..n]);
        CandleEndsRollUp(ps[..n], fine, bucket);
      case Some(e) =>
        DistinctPrefix(TradesIn(ps[..n]), e);
        AscendingPrefix(TradesIn(ps[..n]), e);
        CandleEndsRollUp(ps[..n], fine, bucket);
        CandlesRollUp(ps[..n], fine, bucket);
        TradeKeys(ps[..n]);
        OpensAreOld(ps[..n], e);
        EndsAfterTrade(before.klines, e, fine, bucket);
    }
  }

  lemma AscendingPrefix(es: seq<TokenTrade>, e: TokenTrade)
    requires TimesAscend(es + [e])
    ensures TimesAscend(es) && forall x <- es :: x.time <= e.time
  {
    var all := es + [e];
    forall i, j | 0 <= i < j < |es|
      ensures es[i].time <= es[j].time
    {
      assert all[i] == es[i] && all[j] == es[j];
    }
    forall x <- es
      ensures x.time <= e.time
    {
      var i :| 0 <= i < |es| && es[i] == x;
      assert all[i] == x && all[|es|] == e;
    }
  }

  /** A non-empty set of candles of one interval has an earliest and a latest one. */
  lemma {:induction false} EndsExist(keys: set<CandleKey>) returns (first: CandleKey, last: CandleKey)
    requires keys != {}
    ensures Earliest(first, keys) && Latest(last, keys)
    decreases keys
  {
    var k :| k in keys;
    first, last := k, k;
    if keys - {k} == {} {
      assert keys == {k};
    } else {
      var f, l := EndsExist(keys - {k});
      first := if k.open < f.open then k else f;
      last := if k.open > l.open then k else l;
      forall x <- keys
        ensures first.open <= x.open <= last.open
      {
        assert x == k || x in keys - {k};
      }
    }
  }
}
