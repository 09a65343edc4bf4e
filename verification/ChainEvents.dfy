/**
  The tables the rebuilt indexer maintains and the transaction that writes them.

  Every statement is a map update on one table; `Apply...` say what a projection does to the tables
  as values, and the class `Tx` performs the same statements one by one on an open transaction.
 */
module ChainEvents {
  import opened Common
  import opened GoTime
  import opened Intervals
  import opened Price

  const TRADE_TYPE_BUY := 10
  const TRADE_TYPE_SELL := 20
  const TOKEN_STATUS_TRADING := 1
  const TOKEN_STATUS_GRADUATED := 3
  const DEFAULT_BNB_TARGET := 24_000_000_000_000_000_000

  // ---- what comes from the chain --------------------------------------------------------------

  datatype Log = Log(topics: seq<string>, data: string, block: nat, blockHash: string,
                     tx: string, index: nat, removed: bool)

  /** Transaction hash and log index: unique on a final chain. */
  datatype EventKey = EventKey(tx: string, index: nat)

  datatype TokenCreated = TokenCreated(
    token: string, creator: string, name: string, symbol: string, totalSupply: BigInt, requestId: string,
    key: EventKey, block: nat, time: Time,
    initialTarget: BigInt, initialCurrent: BigInt, initialAvailable: BigInt, launchMode: int, status: int)

  datatype TokenTrade = TokenTrade(
    token: string, user: string, tradeType: int, bnb: BigInt, amount: BigInt, fee: BigInt,
    virtualBnb: BigInt, virtualToken: BigInt, available: BigInt, collected: BigInt,
    key: EventKey, block: nat, time: Time)

  datatype TokenGraduated = TokenGraduated(
    token: string, liquidityBnb: BigInt, liquidityTokens: BigInt, liquidityResult: BigInt,
    key: EventKey, block: nat, time: Time)

  datatype Projection =
    | Created(c: TokenCreated)
    | Bought(t: TokenTrade)
    | Sold(t: TokenTrade)
    | Graduated(g: TokenGraduated)
    | Nothing

  // ---- tables ---------------------------------------------------------------------------------

  /** One indexed contract on one chain. */
  datatype Source = Source(chainId: int, contract: string)

  datatype LedgerKey = LedgerKey(chainId: int, tx: string, index: nat)
  datatype RawRow = RawRow(contract: string, block: nat, blockHash: string, topic0: string,
                           topics: seq<string>, data: string, removed: bool)

  datatype CreatedRow = CreatedRow(token: string, creator: string, name: string, symbol: string,
                                   totalSupply: int, requestId: string, block: nat, time: Time)
  datatype TradeEventRow = TradeEventRow(
    token: string, user: string, bnb: int, amount: int, fee: int, virtualBnb: int, virtualToken: int,
    available: int, collected: int, block: nat, time: Time)
  datatype GraduatedRow = GraduatedRow(token: string, liquidityBnb: int, liquidityTokens: int,
                                       liquidityResult: int, block: nat, time: Time)

  datatype TradeKey = TradeKey(key: EventKey, tradeType: int)
  datatype TradeRow = TradeRow(token: string, user: string, bnb: int, amount: int, price: int,
                               block: nat, time: Time)

  datatype TokenRow = TokenRow(
    name: string, symbol: string, creator: string, launchMode: int, bnbCurrent: int, bnbTarget: int,
    totalSupply: int, available: int, status: int, createdAt: Time, updatedAt: Time)

  datatype CandleKey = CandleKey(token: string, interval: Interval, open: Time)
  datatype Candle = Candle(open: int, high: int, low: int, close: int, volume: int)

  datatype Tables = Tables(
    ledger: map<LedgerKey, RawRow>,
    created: map<EventKey, CreatedRow>,
    bought: map<EventKey, TradeEventRow>,
    sold: map<EventKey, TradeEventRow>,
    graduated: map<EventKey, GraduatedRow>,
    trades: map<TradeKey, TradeRow>,
    tokens: map<string, TokenRow>,
    klines: map<CandleKey, Candle>,
    checkpoints: map<Source, nat>)

  const EMPTY: Tables := Tables(map[], map[], map[], map[], map[], map[], map[], map[], map[])

  // ---- rows -----------------------------------------------------------------------------------

  function LedgerKeyOf(src: Source, log: Log): LedgerKey {
    LedgerKey(src.chainId, log.tx, log.index)
  }

  function RawRowOf(src: Source, log: Log): RawRow {
    RawRow(Lower(src.contract), log.block, log.blockHash, if |log.topics| > 0 then log.topics[0] else "",
           log.topics, "0x" + log.data, log.removed)
  }

  function CreatedRowOf(e: TokenCreated): CreatedRow {
    CreatedRow(Lower(e.token), Lower(e.creator), e.name, e.symbol, IntValue(e.totalSupply), e.requestId, e.block, e.time)
  }

  function TradeEventRowOf(e: TokenTrade): TradeEventRow {
    TradeEventRow(Lower(e.token), Lower(e.user), IntValue(e.bnb), IntValue(e.amount), IntValue(e.fee),
                  IntValue(e.virtualBnb), IntValue(e.virtualToken), IntValue(e.available), IntValue(e.collected),
                  e.block, e.time)
  }

  function GraduatedRowOf(e: TokenGraduated): GraduatedRow {
    GraduatedRow(Lower(e.token), IntValue(e.liquidityBnb), IntValue(e.liquidityTokens), IntValue(e.liquidityResult),
                 e.block, e.time)
  }

  function TradeKeyOf(e: TokenTrade): TradeKey {
    TradeKey(e.key, e.tradeType)
  }

  function TradeRowOf(e: TokenTrade): TradeRow {
    TradeRow(Lower(e.token), Lower(e.user), IntValue(e.bnb), IntValue(e.amount), PriceOf(e.bnb, e.amount), e.block, e.time)
  }

  /** The row a `TokenCreated` inserts when its token has none. */
  function InitialTokenRow(e: TokenCreated): TokenRow {
    var target := IntValue(e.initialTarget);
    TokenRow(e.name, e.symbol, Lower(e.creator),
             if e.launchMode == 0 then 1 else e.launchMode,
             IntValue(e.initialCurrent),
             if target == 0 then DEFAULT_BNB_TARGET else target,
             IntValue(e.totalSupply), IntValue(e.initialAvailable),
             if e.status == 0 then TOKEN_STATUS_TRADING else e.status,
             e.time, e.time)
  }

  // ---- statements on the token and candle tables ----------------------------------------------

  /** `INSERT INTO tokens ... ON CONFLICT (token_contract_address) DO UPDATE`. */
  function UpsertToken(tokens: map<string, TokenRow>, e: TokenCreated): map<string, TokenRow> {
    var token := Lower(e.token);
    if token in tokens then
      tokens[token := tokens[token].(name := e.name, symbol := e.symbol, creator := Lower(e.creator),
                                     totalSupply := IntValue(e.totalSupply), updatedAt := e.time)]
    else tokens[token := InitialTokenRow(e)]
  }

  /** `UPDATE tokens SET bnb_current, available_tokens, updated_at`. */
  function UpdateTotals(tokens: map<string, TokenRow>, e: TokenTrade): map<string, TokenRow> {
    var token := Lower(e.token);
    if token in tokens then
      tokens[token := tokens[token].(bnbCurrent := IntValue(e.collected), available := IntValue(e.available),
                                     updatedAt := e.time)]
    else tokens
  }

  /** `UPDATE tokens SET status, updated_at`. */
  function MarkGraduated(tokens: map<string, TokenRow>, e: TokenGraduated): map<string, TokenRow> {
    var token := Lower(e.token);
    if token in tokens then
      tokens[token := tokens[token].(status := TOKEN_STATUS_GRADUATED, updatedAt := e.time)]
    else tokens
  }

  /** A candle after one more trade: `GREATEST`, `LEAST`, last price, added volume. */
  function MergeCandle(existing: Option<Candle>, price: int, volume: int): Candle {
    match existing
    case None => Candle(price, price, price, price, volume)
    case Some(c) => Candle(c.open, if price > c.high then price else c.high,
                           if price < c.low then price else c.low, price, c.volume + volume)
  }

  function CandleKeyOf(e: TokenTrade, i: Interval): CandleKey {
    CandleKey(Lower(e.token), i, AlignTime(e.time, i))
  }

  function UpsertCandle(klines: map<CandleKey, Candle>, e: TokenTrade, i: Interval): map<CandleKey, Candle> {
    var k := CandleKeyOf(e, i);
    klines[k := MergeCandle(Get(klines, k), PriceOf(e.bnb, e.amount), IntValue(e.amount))]
  }

  /** The first `n` of the eight upserts of one trade. */
  function UpsertKlines(klines: map<CandleKey, Candle>, e: TokenTrade, n: nat): map<CandleKey, Candle>
    requires n <= |ALL_INTERVALS|
  {
    if n == 0 then klines
    else UpsertCandle(UpsertKlines(klines, e, n - 1), e, ALL_INTERVALS[n - 1])
  }

  // ---- projections ----------------------------------------------------------------------------

  function ApplyCreated(t: Tables, e: TokenCreated): Tables {
    t.(created := InsertNew(t.created, e.key, CreatedRowOf(e)), tokens := UpsertToken(t.tokens, e))
  }

  function ApplyTrade(t: Tables, e: TokenTrade): Tables {
    var sell := e.tradeType == TRADE_TYPE_SELL;
    t.(bought := if sell then t.bought else InsertNew(t.bought, e.key, TradeEventRowOf(e)),
       sold := if sell then InsertNew(t.sold, e.key, TradeEventRowOf(e)) else t.sold,
       trades := InsertNew(t.trades, TradeKeyOf(e), TradeRowOf(e)),
       tokens := UpdateTotals(t.tokens, e),
       klines := if TradeKeyOf(e) in t.trades then t.klines else UpsertKlines(t.klines, e, |ALL_INTERVALS|))
  }

  function ApplyGraduated(t: Tables, e: TokenGraduated): Tables {
    t.(graduated := InsertNew(t.graduated, e.key, GraduatedRowOf(e)), tokens := MarkGraduated(t.tokens, e))
  }

  function Apply(t: Tables, p: Projection): Tables {
    match p
    case Created(e) => ApplyCreated(t, e)
    case Bought(e) => ApplyTrade(t, e)
    case Sold(e) => ApplyTrade(t, e)
    case Graduated(e) => ApplyGraduated(t, e)
    case Nothing => t
  }

  function ApplyAll(t: Tables, ps: seq<Projection>): Tables {
    if ps == [] then t else Apply(ApplyAll(t, ps[..|ps| - 1]), ps[|ps| - 1])
  }

  function InsertLogs(ledger: map<LedgerKey, RawRow>, src: Source, logs: seq<Log>): map<LedgerKey, RawRow> {
    if logs == [] then ledger
    else InsertNew(InsertLogs(ledger, src, logs[..|logs| - 1]), LedgerKeyOf(src, logs[|logs| - 1]),
                   RawRowOf(src, logs[|logs| - 1]))
  }

  /** The checkpoint row is keyed by the lower-case contract. */
  function CheckpointKey(src: Source): Source {
    Source(src.chainId, Lower(src.contract))
  }

  /** What one committed `SaveBlockRange` does to the tables. */
  function SaveRange(t: Tables, src: Source, last: nat, logs: seq<Log>, ps: seq<Projection>): Tables {
    var applied := ApplyAll(t.(ledger := InsertLogs(t.ledger, src, logs)), ps);
    applied.(checkpoints := applied.checkpoints[CheckpointKey(src) := last])
  }

  // ---- the open transaction -------------------------------------------------------------------

  /**
    Tables as one open transaction sees them. A method returns `err` exactly when a statement was refused,
    and the caller then rolls back.
   */
  class Tx {
    const faults: Faults
    var ledger: map<LedgerKey, RawRow>
    var created: map<EventKey, CreatedRow>
    var bought: map<EventKey, TradeEventRow>
    var sold: map<EventKey, TradeEventRow>
    var graduated: map<EventKey, GraduatedRow>
    var trades: map<TradeKey, TradeRow>
    var tokens: map<string, TokenRow>
    var klines: map<CandleKey, Candle>
    var checkpoints: map<Source, nat>

    constructor (t: Tables, faults: Faults)
      ensures View() == t && this.faults == faults
    {
      this.faults := faults;
      ledger, created, bought, sold, graduated := t.ledger, t.created, t.bought, t.sold, t.graduated;
      trades, tokens, klines, checkpoints := t.trades, t.tokens, t.klines, t.checkpoints;
    }

    function View(): Tables
      reads this
    {
      Tables(ledger, created, bought, sold, graduated, trades, tokens, klines, checkpoints)
    }

    method InsertChainEvents(src: Source, logs: seq<Log>) returns (err: bool)
      modifies this`ledger, faults
      ensures faults.count >= old(faults.count) && (err <==> faults.count > old(faults.count))
      ensures !err ==> ledger == InsertLogs(old(ledger), src, logs)
    {
      for n := 0 to |logs|
        invariant faults.count == old(faults.count)
        invariant ledger == InsertLogs(old(ledger), src, logs[..n])
      {
        var log := logs[n];
        var topic0 := "";
        if |log.topics| > 0 {
          topic0 := log.topics[0];
        }
        var refused := faults.Occurs();
        if refused {
          return true;
        }
        var key := LedgerKey(src.chainId, log.tx, log.index);
        if key !in ledger {
          ledger := ledger[key := RawRow(Lower(src.contract), log.block, log.blockHash, topic0, log.topics,
                                         "0x" + log.data, log.removed)];
        }
        assert logs[..n + 1][..n] == logs[..n];
      }
      assert logs[..|logs|] == logs;
      return false;
    }

    method ApplyProjection(p: Projection) returns (err: bool)
      modifies this, faults
      ensures faults.count >= old(faults.count) && (err <==> faults.count > old(faults.count))
      ensures !err ==> View() == Apply(old(View()), p)
    {
      match p
      case Created(e) => err := ApplyTokenCreated(e);
      case Bought(e) => err := ApplyTokenTrade(e);
      case Sold(e) => err := ApplyTokenTrade(e);
      case Graduated(e) => err := ApplyTokenGraduated(e);
      case Nothing => err := false;
    }

    method ApplyTokenCreated(e: TokenCreated) returns (err: bool)
      modifies this, faults
      ensures faults.count >= old(faults.count) && (err <==> faults.count > old(faults.count))
      ensures !err ==> View() == ApplyCreated(old(View()), e)
      ensures !err ==> Lower(e.token) in tokens
      ensures !err && Lower(e.token) !in old(tokens) ==>
        var row := tokens[Lower(e.token)];
        && row.launchMode == (if e.launchMode == 0 then 1 else e.launchMode)
        && row.status == (if e.status == 0 then 1 else e.status)
        && row.bnbTarget == (if IntValue(e.initialTarget) == 0 then 24_000_000_000_000_000_000 else IntValue(e.initialTarget))
        && row.bnbCurrent == IntValue(e.initialCurrent) && row.available == IntValue(e.initialAvailable)
        && row.createdAt == e.time
      ensures !err && Lower(e.token) in old(tokens) ==>
        var row, before := tokens[Lower(e.token)], old(tokens)[Lower(e.token)];
        && row.launchMode == before.launchMode && row.status == before.status && row.bnbTarget == before.bnbTarget
        && row.bnbCurrent == before.bnbCurrent && row.available == before.available && row.createdAt == before.createdAt
    {
      var refused := faults.Occurs();
      if refused {
        return true;
      }
      if e.key !in created {
        created := created[e.key := CreatedRowOf(e)];
      }
      var target := IntValue(e.initialTarget);
      if target == 0 {
        target := DEFAULT_BNB_TARGET;
      }
      var launchMode := e.launchMode;
      if launchMode == 0 {
        launchMode := 1;
      }
      var status := e.status;
      if status == 0 {
        status := TOKEN_STATUS_TRADING;
      }
      refused := faults.Occurs();
      if refused {
        return true;
      }
      var token := Lower(e.token);
      if token in tokens {
        tokens := tokens[token := tokens[token].(name := e.name, symbol := e.symbol, creator := Lower(e.creator),
                                                 totalSupply := IntValue(e.totalSupply), updatedAt := e.time)];
      } else {
        tokens := tokens[token := TokenRow(e.name, e.symbol, Lower(e.creator), launchMode, IntValue(e.initialCurrent),
                                           target, IntValue(e.totalSupply), IntValue(e.initialAvailable), status,
                                           e.time, e.time)];
      }
      return false;
    }

    method ApplyTokenTrade(e: TokenTrade) returns (err: bool)
      modifies this, faults
      ensures faults.count >= old(faults.count) && (err <==> faults.count > old(faults.count))
      ensures !err ==> View() == ApplyTrade(old(View()), e)
    {
      var refused := faults.Occurs();
      if refused {
        return true;
      }
      if e.tradeType == TRADE_TYPE_SELL {
        sold := InsertNew(sold, e.key, TradeEventRowOf(e));
      } else {
        bought := InsertNew(bought, e.key, TradeEventRowOf(e));
      }
      refused := faults.Occurs();
      if refused {
        return true;
      }
      var rowsAffected := 0;
      if TradeKeyOf(e) !in trades {
        trades := trades[TradeKeyOf(e) := TradeRowOf(e)];
        rowsAffected := 1;
      }
      refused := faults.Occurs();
      if refused {
        return true;
      }
      tokens := UpdateTotals(tokens, e);
      if rowsAffected == 0 {
        return false;
      }
      err := UpsertTradeKlines(e);
    }

    method ApplyTokenGraduated(e: TokenGraduated) returns (err: bool)
      modifies this, faults
      ensures faults.count >= old(faults.count) && (err <==> faults.count > old(faults.count))
      ensures !err ==> View() == ApplyGraduated(old(View()), e)
    {
      var refused := faults.Occurs();
      if refused {
        return true;
      }
      graduated := InsertNew(graduated, e.key, GraduatedRowOf(e));
      refused := faults.Occurs();
      if refused {
        return true;
      }
      tokens := MarkGraduated(tokens, e);
      return false;
    }

    method UpsertTradeKlines(e: TokenTrade) returns (err: bool)
      modifies this`klines, faults
      ensures faults.count >= old(faults.count) && (err <==> faults.count > old(faults.count))
      ensures !err ==> klines == UpsertKlines(old(klines), e, |ALL_INTERVALS|)
    {
      var price := PriceOf(e.bnb, e.amount);
      var volume := IntValue(e.amount);
      for n := 0 to |ALL_INTERVALS|
        invariant faults.count == old(faults.count)
        invariant klines == UpsertKlines(old(klines), e, n)
      {
        var key := CandleKey(Lower(e.token), ALL_INTERVALS[n], AlignTime(e.time, ALL_INTERVALS[n]));
        var refused := faults.Occurs();
        if refused {
          return true;
        }
        if key in klines {
          var c := klines[key];
          klines := klines[key := Candle(c.open, if price > c.high then price else c.high,
                                         if price < c.low then price else c.low, price, c.volume + volume)];
        } else {
          klines := klines[key := Candle(price, price, price, price, volume)];
        }
      }
      return false;
    }
  }

  // ---- the repository -------------------------------------------------------------------------

  /** `db` is the last committed state. */
  class ChainEventRepository {
    var db: Tables
    const faults: Faults

    constructor (db: Tables, faults: Faults)
      ensures this.db == db && this.faults == faults
    {
      this.db, this.faults := db, faults;
    }

    /**
      A range is saved as a whole or not at all. An error leaves the tables as they were, except when
      the commit took effect and only its acknowledgement was lost.
     */
    method SaveBlockRange(src: Source, last: nat, logs: seq<Log>, ps: seq<Projection>) returns (err: bool)
      modifies this, faults
      ensures faults.count >= old(faults.count) && (err <==> faults.count > old(faults.count))
      ensures !err ==> db == SaveRange(old(db), src, last, logs, ps)
      ensures err ==> db == old(db) || db == SaveRange(old(db), src, last, logs, ps)
    {
      var tx := new Tx(db, faults);
      var failed := tx.InsertChainEvents(src, logs);
      if failed {
        return true;
      }
      ghost var start := tx.View();
      for n := 0 to |ps|
        invariant fresh(tx) && tx.faults == faults && db == old(db) && faults.count == old(faults.count)
        invariant tx.View() == ApplyAll(start, ps[..n])
      {
        failed := tx.ApplyProjection(ps[n]);
        if failed {
          return true;
        }
        assert ps[..n + 1][..n] == ps[..n];
      }
      assert ps[..|ps|] == ps;
      failed := faults.Occurs();
      if failed {
        return true;
      }
      tx.checkpoints := tx.checkpoints[CheckpointKey(src) := last];
      failed := faults.Occurs();
      if failed {
        return true;
      }
      db := tx.View();
      var unacknowledged := faults.Occurs();
      return unacknowledged;
    }

    method LastSyncedBlock(src: Source) returns (err: bool, last: nat, found: bool)
      modifies faults
      ensures faults.count >= old(faults.count) && (err <==> faults.count > old(faults.count))
      ensures !err ==> (found <==> Source(src.chainId, Lower(src.contract)) in db.checkpoints)
      ensures !err && found ==> last == db.checkpoints[Source(src.chainId, Lower(src.contract))]
    {
      var failed := faults.Occurs();
      if failed {
        return true, 0, false;
      }
      if CheckpointKey(src) !in db.checkpoints {
        return false, 0, false;
      }
      return false, db.checkpoints[CheckpointKey(src)], true;
    }
  }
}
