/**
  Candles as a materialised view: after any list of projections the candle table is the summary of the
  trades of each bucket.
 */
module Candles {
  import opened Common
  import opened Intervals
  import opened Price
  import opened ChainEvents

  // ---- trades of a bucket ---------------------------------------------------------------------

  function TradeOf(p: Projection): Option<TokenTrade> {
    match p
    case Bought(e) => Some(e)
    case Sold(e) => Some(e)
    case _ => None
  }

  function TradesIn(ps: seq<Projection>): seq<TokenTrade> {
    if ps == [] then []
    else
      var rest := TradesIn(ps[..|ps| - 1]);
      match TradeOf(ps[|ps| - 1])
      case None => rest
      case Some(e) => rest + [e]
  }

  function InBucket(es: seq<TokenTrade>, key: CandleKey): seq<TokenTrade> {
    if es == [] then []
    else
      var rest := InBucket(es[..|es| - 1], key);
      var e := es[|es| - 1];
      if CandleKeyOf(e, key.interval) == key then rest + [e] else rest
  }

  /** The trades of one bucket, in insertion order. */
  function Bucket(ps: seq<Projection>, key: CandleKey): seq<TokenTrade> {
    InBucket(TradesIn(ps), key)
  }

  function TradePrice(e: TokenTrade): int {
    PriceOf(e.bnb, e.amount)
  }

  function TotalAmount(es: seq<TokenTrade>): int {
    if es == [] then 0 else TotalAmount(es[..|es| - 1]) + IntValue(es[|es| - 1].amount)
  }

  /** First, highest, lowest and last price, and the total amount. */
  ghost predicate Summarises(c: Candle, es: seq<TokenTrade>)
    requires es != []
  {
    && c.open == TradePrice(es[0])
    && c.close == TradePrice(es[|es| - 1])
    && (forall e <- es :: c.low <= TradePrice(e) <= c.high)
    && (exists e <- es :: TradePrice(e) == c.high)
    && (exists e <- es :: TradePrice(e) == c.low)
    && c.volume == TotalAmount(es)
  }

  /** One candle per non-empty bucket, which summarises that bucket. */
  ghost predicate CandlesSummarise(klines: map<CandleKey, Candle>, ps: seq<Projection>) {
    forall key ::
      && (key in klines <==> Bucket(ps, key) != [])
      && (key in klines ==> Summarises(klines[key], Bucket(ps, key)))
  }

  /** No two trades share a key. */
  predicate TradesDistinct(ps: seq<Projection>) {
    var es := TradesIn(ps);
    forall i, j :: 0 <= i < j < |es| ==> TradeKeyOf(es[i]) != TradeKeyOf(es[j])
  }

  // ---- the upserts of one trade ---------------------------------------------------------------

  lemma EveryIntervalListed(i: Interval)
    ensures i in ALL_INTERVALS
  {
    match i
    case M1 => assert ALL_INTERVALS[0] == i;
    case M5 => assert ALL_INTERVALS[1] == i;
    case M15 => assert ALL_INTERVALS[2] == i;
    case M30 => assert ALL_INTERVALS[3] == i;
    case H1 => assert ALL_INTERVALS[4] == i;
    case H4 => assert ALL_INTERVALS[5] == i;
    case D1 => assert ALL_INTERVALS[6] == i;
    case W1 => assert ALL_INTERVALS[7] == i;
  }

  lemma {:induction false} UpsertsAt(klines: map<CandleKey, Candle>, e: TokenTrade, n: nat, key: CandleKey)
    requires n <= |ALL_INTERVALS|
    ensures Get(UpsertKlines(klines, e, n), key)
         == if key == CandleKeyOf(e, key.interval) && key.interval in ALL_INTERVALS[..n]
            then Some(MergeCandle(Get(klines, key), TradePrice(e), IntValue(e.amount)))
            else Get(klines, key)
  {
    hide AlignTime, PriceOf, MergeCandle;
    if n > 0 {
      UpsertsAt(klines, e, n - 1, key);
      assert ALL_INTERVALS[..n] == ALL_INTERVALS[..n - 1] + [ALL_INTERVALS[n - 1]];
      assert ALL_INTERVALS[n - 1] !in ALL_INTERVALS[..n - 1];
    }
  }

  /** A trade merges into the candle of its bucket, for every interval, and leaves the others alone. */
  lemma TradeUpserts(klines: map<CandleKey, Candle>, e: TokenTrade, key: CandleKey)
    ensures Get(UpsertKlines(klines, e, |ALL_INTERVALS|), key)
         == if key == CandleKeyOf(e, key.interval)
            then Some(MergeCandle(Get(klines, key), TradePrice(e), IntValue(e.amount)))
            else Get(klines, key)
  {
    UpsertsAt(klines, e, |ALL_INTERVALS|, key);
    EveryIntervalListed(key.interval);
    assert ALL_INTERVALS[..|ALL_INTERVALS|] == ALL_INTERVALS;
  }

  // ---- the view equals the summary ------------------------------------------------------------

  lemma FirstCandle(e: TokenTrade)
    ensures Summarises(MergeCandle(None, TradePrice(e), IntValue(e.amount)), [e])
  {
    assert e in [e] && [e][..0] == [];
    assert TotalAmount([e]) == TotalAmount([]) + IntValue(e.amount);
  }

  lemma NextCandle(c: Candle, es: seq<TokenTrade>, e: TokenTrade)
    requires es != [] && Summarises(c, es)
    ensures Summarises(MergeCandle(Some(c), TradePrice(e), IntValue(e.amount)), es + [e])
  {
    var all := es + [e];
    var m := MergeCandle(Some(c), TradePrice(e), IntValue(e.amount));
    assert all[..|all| - 1] == es && e in all;
    var hi :| hi in es && TradePrice(hi) == c.high;
    var lo :| lo in es && TradePrice(lo) == c.low;
    assert hi in all && lo in all;
    forall x <- all
      ensures m.low <= TradePrice(x) <= m.high
    {
      assert x in es || x == e;
    }
  }

  lemma {:induction false} TradeKeys(ps: seq<Projection>)
    ensures ApplyAll(EMPTY, ps).trades.Keys == set e <- TradesIn(ps) :: TradeKeyOf(e)
  {
    if ps != [] {
      var n := |ps| - 1;
      TradeKeys(ps[..n]);
      match TradeOf(ps[n])
      case None => 
      case Some(e) =>
        assert (set x <- TradesIn(ps) :: TradeKeyOf(x)) == (set x <- TradesIn(ps[..n]) :: TradeKeyOf(x)) + {TradeKeyOf(e)} by {
          assert TradesIn(ps) == TradesIn(ps[..n]) + [e];
        }
    }
  }

  lemma AddTrade(klines: map<CandleKey, Candle>, ps: seq<Projection>, p: Projection, e: TokenTrade)
    requires CandlesSummarise(klines, ps) && TradeOf(p) == Some(e)
    ensures CandlesSummarise(UpsertKlines(klines, e, |ALL_INTERVALS|), ps + [p])
  {
    var after := UpsertKlines(klines, e, |ALL_INTERVALS|);
    assert (ps + [p])[..|ps + [p]| - 1] == ps;
    assert TradesIn(ps + [p]) == TradesIn(ps) + [e];
    forall key
      ensures key in after <==> Bucket(ps + [p], key) != []
      ensures key in after ==> Summarises(after[key], Bucket(ps + [p], key))
    {
      TradeUpserts(klines, e, key);
      assert (TradesIn(ps) + [e])[..|TradesIn(ps)|] == TradesIn(ps);
      if key == CandleKeyOf(e, key.interval) {
        if key in klines {
          NextCandle(klines[key], Bucket(ps, key), e);
        } else {
          FirstCandle(e);
          assert Bucket(ps + [p], key) == [e];
        }
      } else {
        assert Bucket(ps + [p], key) == Bucket(ps, key);
        assert Get(after, key) == Get(klines, key);
      }
    }
  }

  lemma TradeOrNot(t: Tables, p: Projection)
    ensures TradeOf(p) == None ==> Apply(t, p).klines == t.klines && Apply(t, p).trades == t.trades
    ensures TradeOf(p).Some? ==> Apply(t, p) == ApplyTrade(t, TradeOf(p).value)
  {
  }

  /** Main result: the incrementally kept candle table is the summary of every bucket's trades. */
  lemma {:induction false} CandlesAreSummaries(ps: seq<Projection>)
    requires TradesDistinct(ps)
    ensures CandlesSummarise(ApplyAll(EMPTY, ps).klines, ps)
  {
    hide Apply, InBucket, UpsertKlines, CandlesSummarise;
    if ps == [] {
      NoCandles();
    } else {
      var n := |ps| - 1;
      var before := ApplyAll(EMPTY, ps[..n]);
      assert ps == ps[..n] + [ps[n]];
      TradeOrNot(before, ps[n]);
      match TradeOf(ps[n])
      case None =>
        assert TradesIn(ps) == TradesIn(ps[..n]);
        CandlesAreSummaries(ps[..n]);
        SameTrades(before.klines, ps[..n], ps);
      case Some(e) =>
        DistinctPrefix(TradesIn(ps[..n]), e);
        CandlesAreSummaries(ps[..n]);
        TradeKeys(ps[..n]);
        AddTrade(before.klines, ps[..n], ps[n], e);
    }
  }

  lemma NoCandles()
    ensures CandlesSummarise(map[], [])
  {
  }

  lemma SameTrades(klines: map<CandleKey, Candle>, ps: seq<Projection>, qs: seq<Projection>)
    requires CandlesSummarise(klines, ps) && TradesIn(ps) == TradesIn(qs)
    ensures CandlesSummarise(klines, qs)
  {
    forall key
      ensures Bucket(ps, key) == Bucket(qs, key)
    {
    }
  }

  lemma DistinctPrefix(es: seq<TokenTrade>, e: TokenTrade)
    requires var all := es + [e]; forall i, j :: 0 <= i < j < |all| ==> TradeKeyOf(all[i]) != TradeKeyOf(all[j])
    ensures forall i, j :: 0 <= i < j < |es| ==> TradeKeyOf(es[i]) != TradeKeyOf(es[j])
    ensures forall x <- es :: TradeKeyOf(x) != TradeKeyOf(e)
  {
    var all := es + [e];
    forall i, j | 0 <= i < j < |es|
      ensures TradeKeyOf(es[i]) != TradeKeyOf(es[j])
    {
      assert all[i] == es[i] && all[j] == es[j];
    }
    forall x <- es
      ensures TradeKeyOf(x) != TradeKeyOf(e)
    {
      var i :| 0 <= i < |es| && es[i] == x;
      assert all[i] == x && all[|es|] == e;
    }
  }

  /** Open and close lie between low and high. */
  lemma CandleIsOrdered(c: Candle, es: seq<TokenTrade>)
    requires es != [] && Summarises(c, es)
    ensures c.low <= c.open <= c.high && c.low <= c.close <= c.high
  {
    assert es[0] in es && es[|es| - 1] in es;
  }

  // ---- true extremes --------------------------------------------------------------------------

  /** `a`'s exact price is at most `b`'s. */
  predicate CheaperOrEqual(a: TokenTrade, b: TokenTrade) {
    IntValue(a.bnb) * IntValue(b.amount) <= IntValue(b.bnb) * IntValue(a.amount)
  }

  lemma RoundedOrder(a: TokenTrade, b: TokenTrade)
    requires IntValue(a.amount) > 0 && IntValue(b.amount) > 0
    requires CheaperOrEqual(a, b)
    ensures TradePrice(a) <= TradePrice(b)
  {
    PriceMonotone(IntValue(a.bnb), IntValue(a.amount), IntValue(b.bnb), IntValue(b.amount));
    PriceOfValues(a);
    PriceOfValues(b);
  }

  lemma PriceOfValues(e: TokenTrade)
    requires IntValue(e.amount) != 0
    ensures TradePrice(e) == Ratio(IntValue(e.bnb), IntValue(e.amount))
  {
    if e.bnb == Nil {
      DigitsFloor(0, Abs(IntValue(e.amount)));
    }
  }

  ghost predicate Dearest(d: TokenTrade, es: seq<TokenTrade>) {
    d in es && forall e <- es :: CheaperOrEqual(e, d)
  }

  ghost predicate Cheapest(d: TokenTrade, es: seq<TokenTrade>) {
    d in es && forall e <- es :: CheaperOrEqual(d, e)
  }

  lemma CheaperTransitive(a: TokenTrade, b: TokenTrade, c: TokenTrade)
    requires IntValue(a.amount) > 0 && IntValue(b.amount) > 0 && IntValue(c.amount) > 0
    requires CheaperOrEqual(a, b) && CheaperOrEqual(b, c)
    ensures CheaperOrEqual(a, c)
  {
    CrossTransitive(IntValue(a.bnb), IntValue(a.amount), IntValue(b.bnb), IntValue(b.amount), IntValue(c.bnb), IntValue(c.amount));
  }

  /** Fractions with positive denominators are ordered transitively. */
  lemma CrossTransitive(p: int, q: int, r: int, s: int, t: int, u: int)
    requires q > 0 && s > 0 && u > 0 && p * s <= r * q && r * u <= t * s
    ensures p * u <= t * q
  {
    assert (p * s) * u <= (r * q) * u;
    assert (r * u) * q <= (t * s) * q;
    assert s * (p * u) <= s * (t * q);
  }

  lemma {:induction false} ExtremesExist(es: seq<TokenTrade>) returns (dearest: TokenTrade, cheapest: TokenTrade)
    requires es != [] && forall e <- es :: IntValue(e.amount) > 0
    ensures Dearest(dearest, es) && Cheapest(cheapest, es)
  {
    hide CheaperOrEqual;
    var n := |es| - 1;
    var last := es[n];
    assert es == es[..n] + [last] && last in es;
    CheaperIsTotal(last, last);
    dearest, cheapest := last, last;
    if n > 0 {
      var d, c := ExtremesExist(es[..n]);
      assert d in es && c in es;
      CheaperIsTotal(d, last);
      CheaperIsTotal(c, last);
      dearest := if CheaperOrEqual(d, last) then last else d;
      cheapest := if CheaperOrEqual(c, last) then c else last;
      forall e <- es
        ensures CheaperOrEqual(e, dearest) && CheaperOrEqual(cheapest, e)
      {
        if e in es[..n] {
          CheaperTransitive(e, d, dearest);
          CheaperTransitive(cheapest, c, e);
        }
      }
    }
  }

  lemma CheaperIsTotal(a: TokenTrade, b: TokenTrade)
    ensures CheaperOrEqual(a, b) || CheaperOrEqual(b, a)
  {
  }

  /** Without zero amounts there are a truly dearest and cheapest trade, and high and low are their rounded prices. */
  lemma ExtremesAreTrue(c: Candle, es: seq<TokenTrade>)
    requires es != [] && Summarises(c, es)
    requires forall e <- es :: IntValue(e.amount) > 0
    ensures exists d :: Dearest(d, es)
    ensures exists d :: Cheapest(d, es)
    ensures forall d | Dearest(d, es) :: c.high == TradePrice(d)
    ensures forall d | Cheapest(d, es) :: c.low == TradePrice(d)
  {
    hide CheaperOrEqual, TradePrice;
    var dearest, cheapest := ExtremesExist(es);
    var hi :| hi in es && TradePrice(hi) == c.high;
    var lo :| lo in es && TradePrice(lo) == c.low;
    forall d | Dearest(d, es)
      ensures c.high == TradePrice(d)
    {
      RoundedOrder(hi, d);
    }
    forall d | Cheapest(d, es)
      ensures c.low == TradePrice(d)
    {
      RoundedOrder(d, lo);
    }
  }
}
