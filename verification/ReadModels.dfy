/**
  What the tables contain after any run, stated about the logs of the chain.
 */
module ReadModels {
  import opened Common
  import opened Intervals
  import opened Price
  import opened ChainEvents
  import opened ChainIndexer
  import opened Replay
  import opened TokenRows
  import opened TokenRepair
  import opened Candles
  import opened RollUp
  import opened Exactness

  // ---- trades and trade events agree ----------------------------------------------------------

  /** The decoder tags bought events 10 and sold events 20. */
  predicate WellTagged(p: Projection) {
    && (p.Bought? ==> p.t.tradeType == TRADE_TYPE_BUY)
    && (p.Sold? ==> p.t.tradeType == TRADE_TYPE_SELL)
  }

  function TradeRowFrom(row: TradeEventRow): TradeRow {
    TradeRow(row.token, row.user, row.bnb, row.amount, PriceOf(Big(row.bnb), Big(row.amount)), row.block, row.time)
  }

  /** Trades are exactly the bought events under tag 10 and the sold events under tag 20, row by row. */
  ghost predicate TradesAgree(t: Tables) {
    forall k: TradeKey ::
      Get(t.trades, k) ==
        if k.tradeType == TRADE_TYPE_BUY && k.key in t.bought then Some(TradeRowFrom(t.bought[k.key]))
        else if k.tradeType == TRADE_TYPE_SELL && k.key in t.sold then Some(TradeRowFrom(t.sold[k.key]))
        else None
  }

  lemma SamePrice(e: TokenTrade)
    ensures PriceOf(e.bnb, e.amount) == PriceOf(Big(IntValue(e.bnb)), Big(IntValue(e.amount)))
  {
    if e.bnb.Nil? && IntValue(e.amount) != 0 {
      DigitsFloor(0, Abs(IntValue(e.amount)));
    }
  }

  lemma TradeKeepsAgreement(t: Tables, e: TokenTrade)
    requires TradesAgree(t) && (e.tradeType == TRADE_TYPE_BUY || e.tradeType == TRADE_TYPE_SELL)
    ensures TradesAgree(ApplyTrade(t, e))
  {
    hide PriceOf, UpsertKlines, UpdateTotals;
    SamePrice(e);
    assert TradeRowOf(e) == TradeRowFrom(TradeEventRowOf(e));
    var u := ApplyTrade(t, e);
    assert Get(t.trades, TradeKeyOf(e)).Some? <==> (if e.tradeType == TRADE_TYPE_SELL then e.key in t.sold else e.key in t.bought);
    forall k: TradeKey
      ensures Get(u.trades, k) ==
        if k.tradeType == TRADE_TYPE_BUY && k.key in u.bought then Some(TradeRowFrom(u.bought[k.key]))
        else if k.tradeType == TRADE_TYPE_SELL && k.key in u.sold then Some(TradeRowFrom(u.sold[k.key]))
        else None
    {
      assert Get(t.trades, k) ==
        if k.tradeType == TRADE_TYPE_BUY && k.key in t.bought then Some(TradeRowFrom(t.bought[k.key]))
        else if k.tradeType == TRADE_TYPE_SELL && k.key in t.sold then Some(TradeRowFrom(t.sold[k.key]))
        else None;
    }
  }

  lemma {:induction false} TradesStayInAgreement(t: Tables, ps: seq<Projection>)
    requires TradesAgree(t) && forall p <- ps :: WellTagged(p)
    ensures TradesAgree(ApplyAll(t, ps))
  {
    hide TradesAgree, ApplyTrade;
    if ps != [] {
      var n := |ps| - 1;
      TradesStayInAgreement(t, ps[..n]);
      var u, p := ApplyAll(t, ps[..n]), ps[n];
      assert WellTagged(p);
      match p
      case Bought(e) => TradeKeepsAgreement(u, e);
      case Sold(e) => TradeKeepsAgreement(u, e);
      case _ => OtherKeepsAgreement(u, p);
    }
  }

  lemma OtherKeepsAgreement(t: Tables, p: Projection)
    requires TradesAgree(t) && TradeOf(p) == None
    ensures TradesAgree(Apply(t, p))
  {
  }

  // ---- every event has its row ----------------------------------------------------------------

  function KeyOf(p: Projection): Option<EventKey> {
    match p
    case Created(e) => Some(e.key)
    case Bought(e) => Some(e.key)
    case Sold(e) => Some(e.key)
    case Graduated(e) => Some(e.key)
    case Nothing => None
  }

  ghost predicate EventsDistinct(ps: seq<Projection>) {
    forall i, j :: 0 <= i < j < |ps| ==> KeyOf(ps[i]) != KeyOf(ps[j])
  }

  /** The event row of `p` is in its table. */
  predicate Recorded(t: Tables, p: Projection) {
    match p
    case Created(e) => Get(t.created, e.key) == Some(CreatedRowOf(e))
    case Bought(e) => Get(t.bought, e.key) == Some(TradeEventRowOf(e))
    case Sold(e) => Get(t.sold, e.key) == Some(TradeEventRowOf(e))
    case Graduated(e) => Get(t.graduated, e.key) == Some(GraduatedRowOf(e))
    case Nothing => true
  }

  function CreatedKeys(ps: seq<Projection>): set<EventKey> { set p <- ps | p.Created? :: p.c.key }

  function BoughtKeys(ps: seq<Projection>): set<EventKey> { set p <- ps | p.Bought? :: p.t.key }

  function SoldKeys(ps: seq<Projection>): set<EventKey> { set p <- ps | p.Sold? :: p.t.key }

  function GraduatedKeys(ps: seq<Projection>): set<EventKey> { set p <- ps | p.Graduated? :: p.g.key }

  /** Each event table holds the keys of its own kind of events and no others. */
  predicate HoldsOnly(t: Tables, ps: seq<Projection>) {
    && t.created.Keys == CreatedKeys(ps) && t.bought.Keys == BoughtKeys(ps)
    && t.sold.Keys == SoldKeys(ps) && t.graduated.Keys == GraduatedKeys(ps)
  }

  lemma OneMoreKey(ps: seq<Projection>, p: Projection)
    ensures CreatedKeys(ps + [p]) == CreatedKeys(ps) + if p.Created? then {p.c.key} else {}
    ensures BoughtKeys(ps + [p]) == BoughtKeys(ps) + if p.Bought? then {p.t.key} else {}
    ensures SoldKeys(ps + [p]) == SoldKeys(ps) + if p.Sold? then {p.t.key} else {}
    ensures GraduatedKeys(ps + [p]) == GraduatedKeys(ps) + if p.Graduated? then {p.g.key} else {}
  {
  }

  lemma HoldsOneMore(t: Tables, ps: seq<Projection>, p: Projection)
    requires HoldsOnly(t, ps) && WellTagged(p)
    ensures HoldsOnly(Apply(t, p), ps + [p])
  {
    hide UpsertKlines, UpsertToken, UpdateTotals, MarkGraduated, CreatedKeys, BoughtKeys, SoldKeys, GraduatedKeys;
    OneMoreKey(ps, p);
  }

  lemma RecordedOnce(t: Tables, ps: seq<Projection>, p: Projection)
    requires WellTagged(p) && HoldsOnly(t, ps) && KeyOf(p).Some?
    requires forall q <- ps :: KeyOf(q) != KeyOf(p)
    ensures Recorded(Apply(t, p), p)
  {
    hide UpsertKlines, UpsertToken, UpdateTotals, MarkGraduated;
  }

  lemma RecordedStays(t: Tables, p: Projection, q: Projection)
    requires Recorded(t, p)
    ensures Recorded(Apply(t, q), p)
  {
    hide UpsertKlines;
  }

  /** With distinct keys the event tables hold exactly the rows of the events. */
  lemma {:induction false} EventTablesList(ps: seq<Projection>)
    requires EventsDistinct(ps) && (forall p <- ps :: WellTagged(p) && KeyOf(p).Some?)
    ensures forall p <- ps :: Recorded(ApplyAll(EMPTY, ps), p)
    ensures HoldsOnly(ApplyAll(EMPTY, ps), ps)
  {
    hide Apply, Recorded, HoldsOnly;
    if ps == [] {
      NothingHeld();
    } else {
      var n := |ps| - 1;
      var before := ApplyAll(EMPTY, ps[..n]);
      var p := ps[n];
      assert ps == ps[..n] + [p] && p in ps;
      EventTablesList(ps[..n]);
      HoldsOneMore(before, ps[..n], p);
      RecordedOnce(before, ps[..n], p);
      forall q <- ps
        ensures Recorded(ApplyAll(EMPTY, ps), q)
      {
        if q in ps[..n] {
          RecordedStays(before, q, p);
        }
      }
    }
  }

  lemma NothingHeld()
    ensures HoldsOnly(EMPTY, [])
  {
  }

  /** With distinct keys the raw ledger holds exactly the rows of the logs. */
  lemma {:induction false} LedgerLists(src: Source, logs: seq<Log>)
    requires FinalLogs(logs)
    ensures InsertLogs(map[], src, logs).Keys == set log <- logs :: LedgerKeyOf(src, log)
    ensures forall log <- logs :: Get(InsertLogs(map[], src, logs), LedgerKeyOf(src, log)) == Some(RawRowOf(src, log))
  {
    hide RawRowOf;
    LedgerKeys(map[], src, logs);
    if logs != [] {
      var n := |logs| - 1;
      assert logs == logs[..n] + [logs[n]];
      FinalPrefix(logs[..n], logs[n]);
      LedgerLists(src, logs[..n]);
      forall log <- logs[..n]
        ensures LedgerKeyOf(src, log) != LedgerKeyOf(src, logs[n])
      {
        assert EventKey(log.tx, log.index) != EventKey(logs[n].tx, logs[n].index);
      }
    }
  }

  // ---- decoded events -------------------------------------------------------------------------

  /** Logs of a final chain have distinct keys and come in block order. */
  ghost predicate FinalLogs(logs: seq<Log>) {
    forall i, j :: 0 <= i < j < |logs| ==>
      && EventKey(logs[i].tx, logs[i].index) != EventKey(logs[j].tx, logs[j].index)
      && logs[i].block <= logs[j].block
  }

  lemma DecodedEvent(chain: Chain, log: Log)
    requires Decode(chain, log).Event?
    ensures var p := Decode(chain, log).p;
            && KeyOf(p) == Some(EventKey(log.tx, log.index)) && WellTagged(p) && PlainCreation(p)
            && (TradeOf(p).Some? ==> TradeOf(p).value.time == BlockTime(chain.headerTime(log.block)))
  {
  }

  lemma FinalPrefix(logs: seq<Log>, log: Log)
    requires FinalLogs(logs + [log])
    ensures FinalLogs(logs)
    ensures forall x <- logs :: EventKey(x.tx, x.index) != EventKey(log.tx, log.index) && x.block <= log.block
  {
    var all := logs + [log];
    forall i, j | 0 <= i < j < |logs|
      ensures EventKey(logs[i].tx, logs[i].index) != EventKey(logs[j].tx, logs[j].index)
      ensures logs[i].block <= logs[j].block
    {
      assert all[i] == logs[i] && all[j] == logs[j];
    }
    forall x <- logs
      ensures EventKey(x.tx, x.index) != EventKey(log.tx, log.index) && x.block <= log.block
    {
      var i :| 0 <= i < |logs| && logs[i] == x;
      assert all[i] == x && all[|logs|] == log;
    }
  }

  lemma {:induction false} EventsOfFinalLogs(chain: Chain, logs: seq<Log>)
    requires FinalLogs(logs)
    ensures EventsDistinct(Events(chain, logs))
    ensures forall p <- Events(chain, logs) :: WellTagged(p) && PlainCreation(p)
    ensures forall p <- Events(chain, logs) :: exists log <- logs :: KeyOf(p) == Some(EventKey(log.tx, log.index))
  {
    hide Decode;
    if logs != [] {
      var n := |logs| - 1;
      var log := logs[n];
      assert logs == logs[..n] + [log];
      FinalPrefix(logs[..n], log);
      EventsOfFinalLogs(chain, logs[..n]);
      if Decode(chain, log).Event? {
        DecodedEvent(chain, log);
        assert log in logs;
      }
    }
  }

  lemma {:induction false} TradesComeFrom(ps: seq<Projection>)
    ensures forall e <- TradesIn(ps) :: exists p <- ps :: TradeOf(p) == Some(e)
  {
    if ps != [] {
      var n := |ps| - 1;
      TradesComeFrom(ps[..n]);
      forall e <- TradesIn(ps)
        ensures exists p <- ps :: TradeOf(p) == Some(e)
      {
        if e in TradesIn(ps[..n]) {
          var p :| p in ps[..n] && TradeOf(p) == Some(e);
          assert p in ps;
        } else {
          assert ps[n] in ps && TradeOf(ps[n]) == Some(e);
        }
      }
    }
  }

  /** Distinct events have distinct trade keys. */
  lemma {:induction false} TradesOfDistinctEvents(ps: seq<Projection>)
    requires EventsDistinct(ps)
    ensures TradesDistinct(ps)
  {
    if ps != [] {
      var n := |ps| - 1;
      forall i, j | 0 <= i < j < n
        ensures KeyOf(ps[..n][i]) != KeyOf(ps[..n][j])
      {
        assert ps[..n][i] == ps[i] && ps[..n][j] == ps[j];
      }
      TradesOfDistinctEvents(ps[..n]);
      if TradeOf(ps[n]).Some? {
        NewTradeKey(ps);
      }
    }
  }

  lemma NewTradeKey(ps: seq<Projection>)
    requires EventsDistinct(ps) && ps != [] && TradeOf(ps[|ps| - 1]).Some?
    ensures forall x <- TradesIn(ps[..|ps| - 1]) :: TradeKeyOf(x) != TradeKeyOf(TradeOf(ps[|ps| - 1]).value)
  {
    var n := |ps| - 1;
    TradesComeFrom(ps[..n]);
    forall x <- TradesIn(ps[..n])
      ensures TradeKeyOf(x) != TradeKeyOf(TradeOf(ps[n]).value)
    {
      var p :| p in ps[..n] && TradeOf(p) == Some(x);
      var i :| 0 <= i < n && ps[..n][i] == p;
      assert ps[i] == p && KeyOf(ps[i]) != KeyOf(ps[n]);
    }
  }

  ghost predicate HeaderTimesAscend(chain: Chain) {
    forall a: nat, b: nat :: a <= b ==> BlockTime(chain.headerTime(a)) <= BlockTime(chain.headerTime(b))
  }

  lemma {:induction false} TradeTimesAscend(chain: Chain, logs: seq<Log>)
    requires FinalLogs(logs) && HeaderTimesAscend(chain)
    ensures TimesAscend(TradesIn(Events(chain, logs)))
    ensures forall e <- TradesIn(Events(chain, logs)) ::
              exists log <- logs :: e.time == BlockTime(chain.headerTime(log.block))
  {
    hide Decode, BlockTime;
    if logs != [] {
      var n := |logs| - 1;
      var log := logs[n];
      assert logs == logs[..n] + [log];
      FinalPrefix(logs[..n], log);
      TradeTimesAscend(chain, logs[..n]);
      var es := TradesIn(Events(chain, logs[..n]));
      if Decode(chain, log).Event? && TradeOf(Decode(chain, log).p).Some? {
        DecodedEvent(chain, log);
        var e := TradeOf(Decode(chain, log).p).value;
        assert TradesIn(Events(chain, logs)) == es + [e];
        forall x <- es
          ensures x.time <= e.time
        {
          var y :| y in logs[..n] && x.time == BlockTime(chain.headerTime(y.block));
        }
        assert log in logs;
      } else {
        assert TradesIn(Events(chain, logs)) == es;
      }
    }
  }

  // ---- any run --------------------------------------------------------------------------------

  /** Ledger, event tables, trades and candles of a reachable state are those of one pass over a prefix. */
  lemma CoreOfRun(w: World, steps: seq<Step>)
    requires forall step <- steps :: NoWrap(step)
    ensures var t := ApplyAll(EMPTY, EventsIn(w.chain, w.start, RunMarks(w, steps).top));
            var db := Run(w, steps).db;
            && db.created == t.created && db.bought == t.bought && db.sold == t.sold && db.graduated == t.graduated
            && db.trades == t.trades && db.klines == t.klines
            && db.ledger == InsertLogs(map[], w.src, LogsIn(w.chain, w.start, RunMarks(w, steps).top))
  {
    hide Run, RunMarks, LogsIn, Events, ApplyAll, InsertLogs;
    var top := RunMarks(w, steps).top;
    var db, one := Run(w, steps).db, OnePass(w.chain, w.src, w.start, top);
    RunsApplyAPrefix(w, steps);
    assert Core(db) == Core(one);
    SameCore(db, one);
    OnePassIsCommit(w.chain, w.src, w.start, top);
    EmptyRange(w.chain, w.src, w.start);
    ApplyAllFrame(EMPTY, EventsIn(w.chain, w.start, top), InsertLogs(map[], w.src, LogsIn(w.chain, w.start, top)), map[]);
  }

  lemma EmptyRange(chain: Chain, src: Source, start: nat)
    ensures ApplyAll(EMPTY, EventsIn(chain, start, start)) == EMPTY
    ensures InsertLogs(map[], src, LogsIn(chain, start, start)) == map[]
  {
  }

  lemma SameCore(t: Tables, u: Tables)
    requires Core(t) == Core(u)
    ensures t.created == u.created && t.bought == u.bought && t.sold == u.sold && t.graduated == u.graduated
    ensures t.trades == u.trades && t.klines == u.klines && t.ledger == u.ledger
  {
    assert t == Core(t).(tokens := t.tokens, checkpoints := t.checkpoints);
    assert u == Core(u).(tokens := u.tokens, checkpoints := u.checkpoints);
  }

  /**
    Main result on candles: in every reachable state the candle table summarises the trades of the
    applied blocks, and rolls up along the chain of intervals.
   */
  lemma CandlesOfRun(w: World, steps: seq<Step>)
    requires forall step <- steps :: NoWrap(step)
    requires FinalLogs(LogsIn(w.chain, w.start, RunMarks(w, steps).top))
    ensures var klines := Run(w, steps).db.klines;
            && CandlesSummarise(klines, EventsIn(w.chain, w.start, RunMarks(w, steps).top))
            && (forall fine, bucket: CandleKey | Nests(fine, bucket.interval) :: RollsUp(klines, fine, bucket))
            && (HeaderTimesAscend(w.chain) ==>
                  forall fine, bucket: CandleKey | Nests(fine, bucket.interval) :: EndsRollUp(klines, fine, bucket))
  {
    hide Run, RunMarks, LogsIn, Events, ApplyAll, InsertLogs, RollsUp, EndsRollUp, CandlesSummarise, Nests, FinalLogs;
    var logs := LogsIn(w.chain, w.start, RunMarks(w, steps).top);
    var ps := Events(w.chain, logs);
    CoreOfRun(w, steps);
    EventsOfFinalLogs(w.chain, logs);
    TradesOfDistinctEvents(ps);
    CandlesAreSummaries(ps);
    forall fine, bucket: CandleKey | Nests(fine, bucket.interval)
      ensures RollsUp(ApplyAll(EMPTY, ps).klines, fine, bucket)
    {
      CandlesRollUp(ps, fine, bucket);
    }
    if HeaderTimesAscend(w.chain) {
      TradeTimesAscend(w.chain, logs);
      forall fine, bucket: CandleKey | Nests(fine, bucket.interval)
        ensures EndsRollUp(ApplyAll(EMPTY, ps).klines, fine, bucket)
      {
        CandleEndsRollUp(ps, fine, bucket);
      }
    }
  }

  /** Open and close lie between low and high, which are true extremes if no amount is zero or negative. */
  ghost predicate TrueFigures(c: Candle, es: seq<TokenTrade>) {
    && c.low <= c.open <= c.high && c.low <= c.close <= c.high
    && ((forall e <- es :: IntValue(e.amount) > 0) ==>
          && (exists d :: Dearest(d, es) && c.high == TradePrice(d))
          && (exists d :: Cheapest(d, es) && c.low == TradePrice(d)))
  }

  lemma SummaryIsTrue(c: Candle, es: seq<TokenTrade>)
    requires es != [] && Summarises(c, es)
    ensures TrueFigures(c, es)
  {
    hide TradePrice, CheaperOrEqual, Dearest, Cheapest;
    CandleIsOrdered(c, es);
    if forall e <- es :: IntValue(e.amount) > 0 {
      ExtremesAreTrue(c, es);
    }
  }

  /**
    Main result on the figures: in every reachable state every candle is ordered and has true extremes,
    and the candles of each of the eight intervals of a token sum to the amount the applied blocks traded.
   */
  lemma FiguresOfRun(w: World, steps: seq<Step>)
    requires forall step <- steps :: NoWrap(step)
    requires FinalLogs(LogsIn(w.chain, w.start, RunMarks(w, steps).top))
    ensures var klines, ps := Run(w, steps).db.klines, EventsIn(w.chain, w.start, RunMarks(w, steps).top);
            && (forall key <- klines :: TrueFigures(klines[key], Bucket(ps, key)))
            && (forall token, i :: Volume(klines, KeysOf(klines, token, i)) == TotalAmount(TokenTrades(TradesIn(ps), token)))
  {
    hide Run, RunMarks, LogsIn, Events, ApplyAll, InsertLogs, FinalLogs, Summarises, TrueFigures, Bucket, TradesDistinct, EventsDistinct;
    var logs := LogsIn(w.chain, w.start, RunMarks(w, steps).top);
    var ps := Events(w.chain, logs);
    var klines := Run(w, steps).db.klines;
    CoreOfRun(w, steps);
    EventsOfFinalLogs(w.chain, logs);
    TradesOfDistinctEvents(ps);
    CandlesAreSummaries(ps);
    forall key <- klines
      ensures TrueFigures(klines[key], Bucket(ps, key))
    {
      SummaryIsTrue(klines[key], Bucket(ps, key));
    }
    forall token, i
      ensures Volume(klines, KeysOf(klines, token, i)) == TotalAmount(TokenTrades(TradesIn(ps), token))
    {
      EveryIntervalSumsToTotal(ps, token, i);
    }
  }

  /**
    Main result on event tables: in every reachable state each event of the applied blocks has its row in
    its own table, no table has any other row, trades agree with the trade events, and the raw ledger has
    exactly the rows of the logs, those of all events among them.
   */
  lemma TablesOfRun(w: World, steps: seq<Step>)
    requires forall step <- steps :: NoWrap(step)
    requires FinalLogs(LogsIn(w.chain, w.start, RunMarks(w, steps).top))
    ensures var db, logs := Run(w, steps).db, LogsIn(w.chain, w.start, RunMarks(w, steps).top);
            var ps := Events(w.chain, logs);
            && (forall p <- ps :: Recorded(db, p))
            && HoldsOnly(db, ps)
            && TradesAgree(db)
            && db.ledger.Keys == (set log <- logs :: LedgerKeyOf(w.src, log))
            && (forall log <- logs :: Get(db.ledger, LedgerKeyOf(w.src, log)) == Some(RawRowOf(w.src, log)))
            && (forall p <- ps :: KeyOf(p).Some? && LedgerKey(w.src.chainId, KeyOf(p).value.tx, KeyOf(p).value.index) in db.ledger)
  {
    hide Run, RunMarks, LogsIn, Events, ApplyAll, InsertLogs, Apply, FinalLogs, Decode, RawRowOf, TradesAgree, Recorded, WellTagged;
    var logs := LogsIn(w.chain, w.start, RunMarks(w, steps).top);
    var ps := Events(w.chain, logs);
    var db, t := Run(w, steps).db, ApplyAll(EMPTY, ps);
    CoreOfRun(w, steps);
    EventsOfFinalLogs(w.chain, logs);
    forall p <- ps
      ensures KeyOf(p).Some?
    {
      var log :| log in logs && KeyOf(p) == Some(EventKey(log.tx, log.index));
    }
    EventTablesList(ps);
    NoTradesAgree();
    TradesStayInAgreement(EMPTY, ps);
    SameEventTables(t, db, ps);
    LedgerLists(w.src, logs);
    forall p <- ps
      ensures LedgerKey(w.src.chainId, KeyOf(p).value.tx, KeyOf(p).value.index) in db.ledger
    {
      var log :| log in logs && KeyOf(p) == Some(EventKey(log.tx, log.index));
      assert LedgerKeyOf(w.src, log) in db.ledger;
    }
  }

  lemma NoTradesAgree()
    ensures TradesAgree(EMPTY)
  {
  }

  lemma SameEventTables(t: Tables, u: Tables, ps: seq<Projection>)
    requires t.created == u.created && t.bought == u.bought && t.sold == u.sold && t.graduated == u.graduated && t.trades == u.trades
    ensures TradesAgree(t) == TradesAgree(u) && HoldsOnly(t, ps) == HoldsOnly(u, ps)
    ensures forall p <- ps :: Recorded(t, p) == Recorded(u, p)
  {
  }

  // ---- status over any run --------------------------------------------------------------------

  /** One step never takes a token row away and never moves its status back. */
  lemma StatusNeverGoesBack(w: World, s: System, step: Step, token: string)
    requires NoWrap(step)
    requires var r := Get(s.db.tokens, token); r.Some? ==> KnownStatus(r.value.status)
    ensures var r, r' := Get(s.db.tokens, token), Get(Do(w, s, step).db.tokens, token);
            && (r'.Some? ==> KnownStatus(r'.value.status))
            && (r.Some? ==> r'.Some? && r'.value.status >= r.value.status)
  {
    hide Commit, LogsIn, Events, RowFold;
    var c := Committed(w, s, step);
    if c.Some? {
      var Range(lo, to) := c.value;
      CommitOnRow(w.chain, w.src, s.db, lo, to + 1, token);
      PlainEvents(w.chain, LogsIn(w.chain, lo, to + 1));
      StatusOnlyAdvances(Get(s.db.tokens, token), EventsIn(w.chain, lo, to + 1), token);
    }
  }

  /** Over any run a token row stays once it is there, and its status only goes from 1 to 3. */
  lemma {:induction false} StatusOfRun(w: World, steps: seq<Step>, n: nat, token: string)
    requires forall step <- steps :: NoWrap(step)
    requires n <= |steps|
    ensures var r, r' := Get(Run(w, steps[..n]).db.tokens, token), Get(Run(w, steps).db.tokens, token);
            && (r'.Some? ==> KnownStatus(r'.value.status))
            && (r.Some? ==> r'.Some? && KnownStatus(r.value.status) && r'.value.status >= r.value.status)
    decreases |steps|
  {
    hide Do;
    if steps != [] {
      var init := steps[..|steps| - 1];
      StatusOfRun(w, init, if n < |steps| then n else n - 1, token);
      StatusNeverGoesBack(w, Run(w, init), steps[|steps| - 1], token);
      if n < |steps| {
        assert init[..n] == steps[..n];
      } else {
        assert steps[..n] == steps;
      }
    }
  }

  lemma {:induction false} PlainEvents(chain: Chain, logs: seq<Log>)
    ensures forall p <- Events(chain, logs) :: PlainCreation(p)
  {
    hide Decode;
    if logs != [] {
      PlainEvents(chain, logs[..|logs| - 1]);
      if Decode(chain, logs[|logs| - 1]).Event? {
        DecodedEvent(chain, logs[|logs| - 1]);
      }
    }
  }
}
