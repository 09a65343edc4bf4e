/**
  Candles in every reachable state, in terms of the trade logs of their bucket.
 */
module LogCandles {
  import opened Common
  import opened Intervals
  import opened Price
  import opened ChainEvents
  import opened ChainIndexer
  import opened TokenRepair
  import opened Candles
  import opened Exactness
  import opened ReadModels
  import opened LogFields

  /** A trade of the token in a block of the bucket, which starts on a multiple of its length. */
  predicate InCandle(chain: Chain, log: Log, key: CandleKey) {
    && IsTrade(chain.abi, log) && Readable(chain.abi, log)
    && TokenIn(chain.abi, log) == key.token
    && key.open % Span(key.interval) == 0
    && key.open <= TimeOf(chain, log) < key.open + Span(key.interval)
  }

  /** The trade logs of a bucket in chain order. */
  function CandleLogs(chain: Chain, logs: seq<Log>, key: CandleKey): (ls: seq<Log>)
    ensures forall log <- ls :: InCandle(chain, log, key)
  {
    if logs == [] then []
    else
      var rest := CandleLogs(chain, logs[..|logs| - 1], key);
      if InCandle(chain, logs[|logs| - 1], key) then rest + [logs[|logs| - 1]] else rest
  }

  predicate TradeLogs(abi: Abi, logs: seq<Log>) {
    forall log <- logs :: IsTrade(abi, log) && Readable(abi, log)
  }

  function TokensTraded(abi: Abi, logs: seq<Log>): int
    requires TradeLogs(abi, logs)
  {
    if logs == [] then 0
    else TokensTraded(abi, logs[..|logs| - 1]) + IntValue(TokensIn(abi, logs[|logs| - 1]))
  }

  ghost predicate PriceOfLog(abi: Abi, log: Log, price: int)
    requires IsTrade(abi, log) && Readable(abi, log)
  {
    IsPrice(CoinsIn(abi, log), TokensIn(abi, log), price)
  }

  /** First, highest, lowest and last price of the logs, and the tokens they trade. */
  ghost predicate SummarisesLogs(abi: Abi, c: Candle, logs: seq<Log>)
    requires logs != [] && TradeLogs(abi, logs)
  {
    && PriceOfLog(abi, logs[0], c.open)
    && PriceOfLog(abi, logs[|logs| - 1], c.close)
    && (forall n, price | 0 <= n < |logs| && PriceOfLog(abi, logs[n], price) :: c.low <= price <= c.high)
    && (exists n | 0 <= n < |logs| :: PriceOfLog(abi, logs[n], c.high))
    && (exists n | 0 <= n < |logs| :: PriceOfLog(abi, logs[n], c.low))
    && c.volume == TokensTraded(abi, logs)
  }

  /** Event by event the trades read from the logs. */
  predicate Paired(chain: Chain, logs: seq<Log>, es: seq<TokenTrade>)
    requires TradeLogs(chain.abi, logs)
  {
    |logs| == |es| && forall n :: 0 <= n < |es| ==> TradeReads(chain, logs[n], es[n])
  }

  lemma CandleKeyReads(chain: Chain, log: Log, e: TokenTrade, key: CandleKey)
    requires IsTrade(chain.abi, log) && Readable(chain.abi, log) && TradeReads(chain, log, e)
    ensures CandleKeyOf(e, key.interval) == key <==> InCandle(chain, log, key)
  {
    hide AlignTime, Span, BlockTime;
    GreatestBucketStart(e.time, key.interval, key.open);
  }

  lemma OneMoreEvent(chain: Chain, logs: seq<Log>, log: Log)
    requires Readable(chain.abi, log)
    ensures var es, d := TradesIn(Events(chain, logs)), Decode(chain, log);
            if IsTrade(chain.abi, log)
            then d.Event? && TradeOf(d.p).Some? && TradeReads(chain, log, TradeOf(d.p).value)
                 && TradesIn(Events(chain, logs + [log])) == es + [TradeOf(d.p).value]
            else TradesIn(Events(chain, logs + [log])) == es
  {
    hide Decode, BlockTime, TradeReads;
    DecodeReads(chain, log);
    var all := logs + [log];
    assert all[..|all| - 1] == logs;
    var ps, d := Events(chain, logs), Decode(chain, log);
    if d.Event? {
      assert Events(chain, all) == ps + [d.p] && (ps + [d.p])[..|ps|] == ps;
    } else {
      assert Events(chain, all) == ps;
    }
  }

  /** The trades of a bucket are those of its logs. */
  lemma {:induction false} BucketOfLogs(chain: Chain, logs: seq<Log>, key: CandleKey)
    requires forall log <- logs :: Readable(chain.abi, log)
    ensures Paired(chain, CandleLogs(chain, logs, key), Bucket(Events(chain, logs), key))
  {
    hide Decode, TradeReads, InCandle, IsTrade, Readable, Events, TradesIn;
    if logs == [] {
      NoEvents(chain);
    } else {
      var n := |logs| - 1;
      var init, log := logs[..n], logs[n];
      assert logs == init + [log];
      BucketOfLogs(chain, init, key);
      OneMoreEvent(chain, init, log);
      if IsTrade(chain.abi, log) {
        var e := TradeOf(Decode(chain, log).p).value;
        CandleKeyReads(chain, log, e, key);
        var es := TradesIn(Events(chain, init));
        assert (es + [e])[..|es|] == es;
      } else {
        NotInCandle(chain, log, key);
      }
    }
  }

  lemma NotInCandle(chain: Chain, log: Log, key: CandleKey)
    requires !IsTrade(chain.abi, log)
    ensures !InCandle(chain, log, key)
  {
  }

  lemma NoEvents(chain: Chain)
    ensures TradesIn(Events(chain, [])) == []
  {
  }

  lemma {:induction false} SameTotal(chain: Chain, logs: seq<Log>, es: seq<TokenTrade>)
    requires TradeLogs(chain.abi, logs) && Paired(chain, logs, es)
    ensures TotalAmount(es) == TokensTraded(chain.abi, logs)
  {
    hide BlockTime;
    if logs != [] {
      SameTotal(chain, logs[..|logs| - 1], es[..|es| - 1]);
      assert TradeReads(chain, logs[|logs| - 1], es[|es| - 1]);
    }
  }

  lemma SamePrices(chain: Chain, log: Log, e: TokenTrade)
    requires IsTrade(chain.abi, log) && Readable(chain.abi, log) && TradeReads(chain, log, e)
    ensures forall price :: PriceOfLog(chain.abi, log, price) <==> price == TradePrice(e)
  {
    hide IsPrice, PriceOf, BlockTime;
    forall price
      ensures PriceOfLog(chain.abi, log, price) <==> price == TradePrice(e)
    {
      PriceIsThe(e.bnb, e.amount, price);
    }
  }

  lemma SummaryOfLogs(chain: Chain, c: Candle, logs: seq<Log>, es: seq<TokenTrade>)
    requires TradeLogs(chain.abi, logs) && Paired(chain, logs, es)
    requires es != [] && Summarises(c, es)
    ensures SummarisesLogs(chain.abi, c, logs)
  {
    hide TradeReads, TradePrice, PriceOfLog, IsTrade, Readable;
    SameTotal(chain, logs, es);
    forall n | 0 <= n < |es|
      ensures forall price :: PriceOfLog(chain.abi, logs[n], price) <==> price == TradePrice(es[n])
    {
      assert logs[n] in logs;
      SamePrices(chain, logs[n], es[n]);
    }
    var hi :| hi in es && TradePrice(hi) == c.high;
    var lo :| lo in es && TradePrice(lo) == c.low;
    var i :| 0 <= i < |es| && es[i] == hi;
    var j :| 0 <= j < |es| && es[j] == lo;
    assert PriceOfLog(chain.abi, logs[i], c.high) && PriceOfLog(chain.abi, logs[j], c.low);
  }

  /**
    Main result on candles in terms of the chain: in every reachable state there is a candle exactly for each
    token, interval and multiple of its length with a trade log in the applied blocks, and it has the first,
    highest, lowest and last price of these logs in chain order and the tokens they traded.
   */
  lemma CandlesFromLogs(w: World, steps: seq<Step>, key: CandleKey)
    requires forall step <- steps :: NoWrap(step)
    requires FinalLogs(LogsIn(w.chain, w.start, RunMarks(w, steps).top))
    ensures var klines := Run(w, steps).db.klines;
            var logs := CandleLogs(w.chain, LogsIn(w.chain, w.start, RunMarks(w, steps).top), key);
            && TradeLogs(w.chain.abi, logs)
            && (key in klines <==> logs != [])
            && (key in klines ==> SummarisesLogs(w.chain.abi, klines[key], logs))
  {
    hide Run, RunMarks, LogsIn, Events, FinalLogs, Decode, Summarises, SummarisesLogs, Bucket, TradeReads, Paired;
    var all := LogsIn(w.chain, w.start, RunMarks(w, steps).top);
    var logs, es := CandleLogs(w.chain, all, key), Bucket(Events(w.chain, all), key);
    RunsApplyAPrefix(w, steps);
    DecodableExactly(w.chain, all);
    CandlesOfRun(w, steps);
    BucketOfLogs(w.chain, all, key);
    PairedLength(w.chain, logs, es);
    var klines := Run(w, steps).db.klines;
    if key in klines {
      SummaryOfLogs(w.chain, klines[key], logs, es);
    }
  }

  lemma PairedLength(chain: Chain, logs: seq<Log>, es: seq<TokenTrade>)
    requires TradeLogs(chain.abi, logs) && Paired(chain, logs, es)
    ensures |logs| == |es|
  {
  }
}
