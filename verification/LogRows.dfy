/**
  The rows of event tables, trades, raw ledger and checkpoints in every reachable state, column by column
  in terms of the logs of the chain.
 */
module LogRows {
  import opened Common
  import opened Price
  import opened ChainEvents
  import opened ChainIndexer
  import opened Replay
  import opened TokenRepair
  import opened Exactness
  import opened ReadModels
  import opened LogFields

  // ---- rows of one log ------------------------------------------------------------------------

  predicate LedgerHas(src: Source, t: Tables, log: Log) {
    Get(t.ledger, LedgerKey(src.chainId, log.tx, log.index)) ==
      Some(RawRow(contract := Lower(src.contract), block := log.block, blockHash := log.blockHash,
                  topic0 := if |log.topics| > 0 then log.topics[0] else "", topics := log.topics,
                  data := "0x" + log.data, removed := log.removed))
  }

  predicate CreationRecorded(chain: Chain, t: Tables, log: Log)
    requires IsCreation(chain.abi, log) && Readable(chain.abi, log)
  {
    var v := chain.abi.unpackCreated(log.data).value;
    Get(t.created, EventKey(log.tx, log.index)) ==
      Some(CreatedRow(token := Lower(chain.abi.topicAddress(log.topics[1])), creator := Lower(chain.abi.topicAddress(log.topics[2])),
                      name := v.name, symbol := v.symbol, totalSupply := IntValue(v.totalSupply), requestId := v.requestId,
                      block := log.block, time := BlockTime(chain.headerTime(log.block))))
  }

  /** A purchase unpacks to coins, tokens, fee, the two reserves, available tokens and collected coins. */
  ghost predicate BuyRecorded(chain: Chain, t: Tables, log: Log)
    requires IsBuy(chain.abi, log) && Readable(chain.abi, log)
  {
    var v := chain.abi.unpackBought(log.data).value;
    && Get(t.bought, EventKey(log.tx, log.index)) ==
         Some(TradeEventRow(token := Lower(chain.abi.topicAddress(log.topics[1])), user := Lower(chain.abi.topicAddress(log.topics[2])),
                            bnb := IntValue(v[0]), amount := IntValue(v[1]), fee := IntValue(v[2]), virtualBnb := IntValue(v[3]),
                            virtualToken := IntValue(v[4]), available := IntValue(v[5]), collected := IntValue(v[6]),
                            block := log.block, time := BlockTime(chain.headerTime(log.block))))
    && exists price | IsPrice(v[0], v[1], price) ::
         Get(t.trades, TradeKey(key := EventKey(log.tx, log.index), tradeType := 10)) ==
           Some(TradeRow(token := Lower(chain.abi.topicAddress(log.topics[1])), user := Lower(chain.abi.topicAddress(log.topics[2])),
                         bnb := IntValue(v[0]), amount := IntValue(v[1]), price := price,
                         block := log.block, time := BlockTime(chain.headerTime(log.block))))
  }

  /** A sale unpacks to tokens, coins, fee, the two reserves, available tokens and collected coins. */
  ghost predicate SaleRecorded(chain: Chain, t: Tables, log: Log)
    requires IsSale(chain.abi, log) && Readable(chain.abi, log)
  {
    var v := chain.abi.unpackSold(log.data).value;
    && Get(t.sold, EventKey(log.tx, log.index)) ==
         Some(TradeEventRow(token := Lower(chain.abi.topicAddress(log.topics[1])), user := Lower(chain.abi.topicAddress(log.topics[2])),
                            bnb := IntValue(v[1]), amount := IntValue(v[0]), fee := IntValue(v[2]), virtualBnb := IntValue(v[3]),
                            virtualToken := IntValue(v[4]), available := IntValue(v[5]), collected := IntValue(v[6]),
                            block := log.block, time := BlockTime(chain.headerTime(log.block))))
    && exists price | IsPrice(v[1], v[0], price) ::
         Get(t.trades, TradeKey(key := EventKey(log.tx, log.index), tradeType := 20)) ==
           Some(TradeRow(token := Lower(chain.abi.topicAddress(log.topics[1])), user := Lower(chain.abi.topicAddress(log.topics[2])),
                         bnb := IntValue(v[1]), amount := IntValue(v[0]), price := price,
                         block := log.block, time := BlockTime(chain.headerTime(log.block))))
  }

  predicate GraduationRecorded(chain: Chain, t: Tables, log: Log)
    requires IsGraduation(chain.abi, log) && Readable(chain.abi, log)
  {
    var v := chain.abi.unpackGraduated(log.data).value;
    Get(t.graduated, EventKey(log.tx, log.index)) ==
      Some(GraduatedRow(token := Lower(chain.abi.topicAddress(log.topics[1])), liquidityBnb := IntValue(v[0]),
                        liquidityTokens := IntValue(v[1]), liquidityResult := IntValue(v[2]),
                        block := log.block, time := BlockTime(chain.headerTime(log.block))))
  }

  /** All rows a log must have. */
  ghost predicate LogRecorded(chain: Chain, src: Source, t: Tables, log: Log) {
    && Readable(chain.abi, log)
    && LedgerHas(src, t, log)
    && (IsCreation(chain.abi, log) ==> CreationRecorded(chain, t, log))
    && (IsBuy(chain.abi, log) ==> BuyRecorded(chain, t, log))
    && (IsSale(chain.abi, log) ==> SaleRecorded(chain, t, log))
    && (IsGraduation(chain.abi, log) ==> GraduationRecorded(chain, t, log))
  }

  /** No row without its log. */
  ghost predicate OnlyLogsRecorded(chain: Chain, src: Source, t: Tables, logs: seq<Log>) {
    && t.ledger.Keys == (set log <- logs :: LedgerKey(src.chainId, log.tx, log.index))
    && t.created.Keys == (set log <- logs | IsCreation(chain.abi, log) :: EventKey(log.tx, log.index))
    && t.bought.Keys == (set log <- logs | IsBuy(chain.abi, log) :: EventKey(log.tx, log.index))
    && t.sold.Keys == (set log <- logs | IsSale(chain.abi, log) :: EventKey(log.tx, log.index))
    && t.graduated.Keys == (set log <- logs | IsGraduation(chain.abi, log) :: EventKey(log.tx, log.index))
    && t.trades.Keys == (set log <- logs | IsTrade(chain.abi, log) ::
                           TradeKey(EventKey(log.tx, log.index), if IsBuy(chain.abi, log) then 10 else 20))
  }

  // ---- from events to logs --------------------------------------------------------------------

  lemma EventOfLog(chain: Chain, logs: seq<Log>, log: Log)
    requires log in logs && Decode(chain, log).Event?
    ensures Decode(chain, log).p in Events(chain, logs)
  {
    hide Decode, Events;
    EventsAreDecodedLogs(chain, logs);
    assert Decode(chain, log) == Event(Decode(chain, log).p);
  }

  lemma TradeRowReads(chain: Chain, t: Tables, log: Log, e: TokenTrade)
    requires IsTrade(chain.abi, log) && Readable(chain.abi, log) && TradeReads(chain, log, e)
    requires TradesAgree(t)
    requires Get(if IsBuy(chain.abi, log) then t.bought else t.sold, e.key) == Some(TradeEventRowOf(e))
    ensures IsBuy(chain.abi, log) ==> BuyRecorded(chain, t, log)
    ensures IsSale(chain.abi, log) ==> SaleRecorded(chain, t, log)
  {
    hide PriceOf, IsPrice, BlockTime;
    var price := PriceOf(e.bnb, e.amount);
    PriceIsThe(e.bnb, e.amount, price);
    SamePrice(e);
    var k := TradeKey(e.key, e.tradeType);
    assert Get(t.trades, k) == Some(TradeRowFrom(TradeEventRowOf(e)));
  }

  lemma LogIsRecorded(chain: Chain, src: Source, t: Tables, logs: seq<Log>, log: Log)
    requires log in logs && Readable(chain.abi, log) && TradesAgree(t)
    requires forall p <- Events(chain, logs) :: Recorded(t, p)
    requires Get(t.ledger, LedgerKeyOf(src, log)) == Some(RawRowOf(src, log))
    ensures LogRecorded(chain, src, t, log)
  {
    hide Decode, Events, TradesAgree, BuyRecorded, SaleRecorded, BlockTime, TradeReads, TradeEventRowOf;
    DecodeReads(chain, log);
    if Decode(chain, log).Event? {
      EventOfLog(chain, logs, log);
      var p := Decode(chain, log).p;
      assert Recorded(t, p);
      if IsTrade(chain.abi, log) {
        TradeKeyReads(chain, log, p.t);
        TradeRowReads(chain, t, log, p.t);
      }
    }
  }

  lemma TradeKeyReads(chain: Chain, log: Log, e: TokenTrade)
    requires IsTrade(chain.abi, log) && Readable(chain.abi, log) && TradeReads(chain, log, e)
    ensures e.key == EventKey(log.tx, log.index) && e.tradeType == if IsBuy(chain.abi, log) then 10 else 20
  {
  }

  /** The keys of the events of each kind are those of the logs of that kind. */
  lemma KeysOfLogs(chain: Chain, logs: seq<Log>)
    requires forall log <- logs :: Readable(chain.abi, log)
    ensures var ps := Events(chain, logs);
            && CreatedKeys(ps) == (set log <- logs | IsCreation(chain.abi, log) :: EventKey(log.tx, log.index))
            && BoughtKeys(ps) == (set log <- logs | IsBuy(chain.abi, log) :: EventKey(log.tx, log.index))
            && SoldKeys(ps) == (set log <- logs | IsSale(chain.abi, log) :: EventKey(log.tx, log.index))
            && GraduatedKeys(ps) == (set log <- logs | IsGraduation(chain.abi, log) :: EventKey(log.tx, log.index))
  {
    hide Decode, Events, IsCreation, IsBuy, IsSale, IsGraduation, Readable;
    EventsAreDecodedLogs(chain, logs);
    var ps := Events(chain, logs);
    forall log <- logs
      ensures IsCreation(chain.abi, log) ==> EventKey(log.tx, log.index) in CreatedKeys(ps)
      ensures IsBuy(chain.abi, log) ==> EventKey(log.tx, log.index) in BoughtKeys(ps)
      ensures IsSale(chain.abi, log) ==> EventKey(log.tx, log.index) in SoldKeys(ps)
      ensures IsGraduation(chain.abi, log) ==> EventKey(log.tx, log.index) in GraduatedKeys(ps)
    {
      KindOfEvent(chain, log);
      if Decode(chain, log).Event? {
        EventOfLog(chain, logs, log);
      }
    }
    forall p <- ps
      ensures exists log <- logs :: Decode(chain, log) == Event(p) && KindAgrees(chain.abi, log, p)
    {
      var log :| log in logs && Decode(chain, log) == Event(p);
      KindOfEvent(chain, log);
    }
  }

  predicate KindAgrees(abi: Abi, log: Log, p: Projection) {
    && KeyOf(p) == Some(EventKey(log.tx, log.index))
    && (p.Created? <==> IsCreation(abi, log)) && (p.Bought? <==> IsBuy(abi, log))
    && (p.Sold? <==> IsSale(abi, log)) && (p.Graduated? <==> IsGraduation(abi, log))
  }

  lemma KindOfEvent(chain: Chain, log: Log)
    requires Readable(chain.abi, log)
    ensures Decode(chain, log).Event? ==> KindAgrees(chain.abi, log, Decode(chain, log).p)
    ensures !Decode(chain, log).Event? ==>
              !IsCreation(chain.abi, log) && !IsBuy(chain.abi, log) && !IsSale(chain.abi, log) && !IsGraduation(chain.abi, log)
  {
    hide BlockTime;
  }

  /** Agreement with the event tables fixes the keys of the trades. */
  lemma TradeKeysOfLogs(chain: Chain, t: Tables, logs: seq<Log>)
    requires TradesAgree(t)
    requires t.bought.Keys == (set log <- logs | IsBuy(chain.abi, log) :: EventKey(log.tx, log.index))
    requires t.sold.Keys == (set log <- logs | IsSale(chain.abi, log) :: EventKey(log.tx, log.index))
    ensures t.trades.Keys == (set log <- logs | IsTrade(chain.abi, log) ::
                                TradeKey(EventKey(log.tx, log.index), if IsBuy(chain.abi, log) then 10 else 20))
  {
    forall k: TradeKey
      ensures k in t.trades <==> (k.tradeType == 10 && k.key in t.bought) || (k.tradeType == 20 && k.key in t.sold)
    {
      assert Get(t.trades, k).Some? <==> k in t.trades;
    }
  }

  // ---- any run --------------------------------------------------------------------------------

  /**
    Main result on tables: in every reachable state each log of the applied blocks is readable and has the
    rows of its kind, with every column as its topics, values, block and header say, and no event table, no
    trade and no ledger row is without its log.
   */
  lemma TablesFromLogs(w: World, steps: seq<Step>)
    requires forall step <- steps :: NoWrap(step)
    requires FinalLogs(LogsIn(w.chain, w.start, RunMarks(w, steps).top))
    ensures var db, logs := Run(w, steps).db, LogsIn(w.chain, w.start, RunMarks(w, steps).top);
            && (forall log <- logs :: LogRecorded(w.chain, w.src, db, log))
            && OnlyLogsRecorded(w.chain, w.src, db, logs)
  {
    hide Run, RunMarks, LogsIn, Events, FinalLogs, Decode, RawRowOf, TradesAgree, Recorded, Readable, LogRecorded,
      IsCreation, IsBuy, IsSale, IsGraduation, CreatedKeys, BoughtKeys, SoldKeys, GraduatedKeys;
    var db, logs := Run(w, steps).db, LogsIn(w.chain, w.start, RunMarks(w, steps).top);
    RunsApplyAPrefix(w, steps);
    DecodableExactly(w.chain, logs);
    TablesOfRun(w, steps);
    forall log <- logs
      ensures LogRecorded(w.chain, w.src, db, log)
    {
      LogIsRecorded(w.chain, w.src, db, logs, log);
    }
    KeysOfLogs(w.chain, logs);
    TradeKeysOfLogs(w.chain, db, logs);
  }

  /** In every reachable state there is at most the checkpoint row of the chain and its lower-case contract. */
  lemma CheckpointOfRun(w: World, steps: seq<Step>)
    requires forall step <- steps :: NoWrap(step)
    ensures var checkpoints, key := Run(w, steps).db.checkpoints, Source(w.src.chainId, Lower(w.src.contract));
            && checkpoints.Keys <= {key}
            && (key in checkpoints ==> w.start <= (checkpoints[key] + 1) % U64 <= RunMarks(w, steps).top)
            && (OneAtATime(w, steps) ==>
                  checkpoints == if RunMarks(w, steps).top == w.start then map[] else map[key := RunMarks(w, steps).top - 1])
  {
    hide OnePass, Run, RunMarks, OneAtATime, LogsIn, Commit, Core, AllDecodable;
    RunsApplyAPrefix(w, steps);
    if OneAtATime(w, steps) {
      WholeRunExactness(w, steps);
      OnePassCheckpoint(w.chain, w.src, w.start, Cursor(w, Run(w, steps).db));
      TopIsCursor(w, steps);
    }
  }
}
