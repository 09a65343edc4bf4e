/**
  Algebra of `SaveBlockRange`: batches compose, and everything but the token rows and the checkpoint
  ignores events that were applied before.
 */
module Replay {
  import opened ChainEvents

  // ---- concatenation --------------------------------------------------------------------------

  lemma {:induction false} ApplyAllConcat(t: Tables, a: seq<Projection>, b: seq<Projection>)
    ensures ApplyAll(t, a + b) == ApplyAll(ApplyAll(t, a), b)
    decreases |b|
  {
    if b == [] {
      assert a + b == a;
    } else {
      var n := |b| - 1;
      assert (a + b)[..|a + b| - 1] == a + b[..n];
      ApplyAllConcat(t, a, b[..n]);
    }
  }

  lemma {:induction false} InsertLogsConcat(ledger: map<LedgerKey, RawRow>, src: Source, a: seq<Log>, b: seq<Log>)
    ensures InsertLogs(ledger, src, a + b) == InsertLogs(InsertLogs(ledger, src, a), src, b)
    decreases |b|
  {
    if b == [] {
      assert a + b == a;
    } else {
      var n := |b| - 1;
      assert (a + b)[..|a + b| - 1] == a + b[..n];
      InsertLogsConcat(ledger, src, a, b[..n]);
    }
  }

  // ---- projections leave the ledger and the checkpoint alone ----------------------------------

  function WithLedger(t: Tables, ledger: map<LedgerKey, RawRow>, checkpoints: map<Source, nat>): Tables {
    t.(ledger := ledger, checkpoints := checkpoints)
  }

  lemma ApplyFrame(t: Tables, p: Projection, ledger: map<LedgerKey, RawRow>, checkpoints: map<Source, nat>)
    ensures Apply(WithLedger(t, ledger, checkpoints), p) == WithLedger(Apply(t, p), ledger, checkpoints)
    ensures Apply(t, p).ledger == t.ledger && Apply(t, p).checkpoints == t.checkpoints
  {
  }

  lemma {:induction false} ApplyAllFrame(t: Tables, ps: seq<Projection>,
                                         ledger: map<LedgerKey, RawRow>, checkpoints: map<Source, nat>)
    ensures ApplyAll(WithLedger(t, ledger, checkpoints), ps) == WithLedger(ApplyAll(t, ps), ledger, checkpoints)
    ensures ApplyAll(t, ps).ledger == t.ledger && ApplyAll(t, ps).checkpoints == t.checkpoints
  {
    if ps != [] {
      var n := |ps| - 1;
      ApplyAllFrame(t, ps[..n], ledger, checkpoints);
      ApplyFrame(ApplyAll(t, ps[..n]), ps[n], ledger, checkpoints);
    }
  }

  /** Two consecutive ranges saved one after the other are the two saved together. */
  lemma SaveRangesCompose(t: Tables, src: Source, last1: nat, last2: nat,
                          logs1: seq<Log>, logs2: seq<Log>, ps1: seq<Projection>, ps2: seq<Projection>)
    ensures SaveRange(SaveRange(t, src, last1, logs1, ps1), src, last2, logs2, ps2)
         == SaveRange(t, src, last2, logs1 + logs2, ps1 + ps2)
  {
    var key := CheckpointKey(src);
    var l1 := InsertLogs(t.ledger, src, logs1);
    var l2 := InsertLogs(l1, src, logs2);
    var t1 := SaveRange(t, src, last1, logs1, ps1);
    var a1 := ApplyAll(t, ps1);
    ApplyAllFrame(t, ps1, l1, t.checkpoints);
    assert t1 == WithLedger(a1, l1, t.checkpoints[key := last1]);
    ApplyAllFrame(a1, ps2, l2, t.checkpoints[key := last1]);
    ApplyAllConcat(t, ps1, ps2);
    InsertLogsConcat(t.ledger, src, logs1, logs2);
    ApplyAllFrame(t, ps1 + ps2, l2, t.checkpoints);
    assert t.checkpoints[key := last1][key := last2] == t.checkpoints[key := last2];
  }

  // ---- the part that replays do not change ----------------------------------------------------

  /** Raw ledger, event tables, trades and candles. */
  function Core(t: Tables): Tables {
    t.(tokens := map[], checkpoints := map[])
  }

  /** What a projection does to the core depends on the core alone. */
  lemma CoreApply(t: Tables, u: Tables, p: Projection)
    requires Core(t) == Core(u)
    ensures Core(Apply(t, p)) == Core(Apply(u, p))
  {
  }

  lemma {:induction false} CoreApplyAll(t: Tables, u: Tables, ps: seq<Projection>)
    requires Core(t) == Core(u)
    ensures Core(ApplyAll(t, ps)) == Core(ApplyAll(u, ps))
  {
    if ps != [] {
      CoreApplyAll(t, u, ps[..|ps| - 1]);
      CoreApply(ApplyAll(t, ps[..|ps| - 1]), ApplyAll(u, ps[..|ps| - 1]), ps[|ps| - 1]);
    }
  }

  predicate TradePresent(t: Tables, e: TokenTrade) {
    && TradeKeyOf(e) in t.trades
    && (if e.tradeType == TRADE_TYPE_SELL then e.key in t.sold else e.key in t.bought)
  }

  /** The rows of a projection are in the tables. */
  predicate Present(t: Tables, p: Projection) {
    match p
    case Created(e) => e.key in t.created
    case Bought(e) => TradePresent(t, e)
    case Sold(e) => TradePresent(t, e)
    case Graduated(e) => e.key in t.graduated
    case Nothing => true
  }

  predicate AllPresent(t: Tables, ps: seq<Projection>) {
    forall p <- ps :: Present(t, p)
  }

  lemma PresentOnceApplied(t: Tables, p: Projection)
    ensures Present(Apply(t, p), p)
  {
  }

  lemma PresentStays(t: Tables, p: Projection, q: Projection)
    requires Present(t, p)
    ensures Present(Apply(t, q), p)
  {
    hide UpsertKlines, RawRowOf, UpsertToken, UpdateTotals, MarkGraduated;
    var u := Apply(t, q);
    assert t.created.Keys <= u.created.Keys && t.bought.Keys <= u.bought.Keys && t.sold.Keys <= u.sold.Keys;
    assert t.graduated.Keys <= u.graduated.Keys && t.trades.Keys <= u.trades.Keys;
  }

  lemma {:induction false} PresentAfterApplyAll(t: Tables, before: seq<Projection>, ps: seq<Projection>)
    requires AllPresent(t, before)
    ensures AllPresent(ApplyAll(t, ps), before + ps)
  {
    if ps == [] {
      assert before + ps == before;
    } else {
      var n := |ps| - 1;
      PresentAfterApplyAll(t, before, ps[..n]);
      forall p <- before + ps
        ensures Present(ApplyAll(t, ps), p)
      {
        if p in before + ps[..n] {
          PresentStays(ApplyAll(t, ps[..n]), p, ps[n]);
        } else {
          PresentOnceApplied(ApplyAll(t, ps[..n]), ps[n]);
        }
      }
    }
  }

  lemma ReapplyKeepsCore(t: Tables, p: Projection)
    requires Present(t, p)
    ensures Core(Apply(t, p)) == Core(t)
  {
    match p
    case Bought(e) => RetradeKeepsCore(t, e);
    case Sold(e) => RetradeKeepsCore(t, e);
    case _ =>
  }

  lemma RetradeKeepsCore(t: Tables, e: TokenTrade)
    requires TradePresent(t, e)
    ensures Core(ApplyTrade(t, e)) == Core(t)
  {
  }

  /** Applying projections whose rows are present changes nothing in the core. */
  lemma {:induction false} ReplayKeepsCore(t: Tables, ps: seq<Projection>)
    requires AllPresent(t, ps)
    ensures Core(ApplyAll(t, ps)) == Core(t)
  {
    if ps != [] {
      var n := |ps| - 1;
      ReplayKeepsCore(t, ps[..n]);
      var u := ApplyAll(t, ps[..n]);
      assert Present(t, ps[n]);
      CorePresent(t, u, ps[n]);
      ReapplyKeepsCore(u, ps[n]);
    }
  }

  lemma CorePresent(t: Tables, u: Tables, p: Projection)
    requires Core(t) == Core(u) && Present(t, p)
    ensures Present(u, p)
  {
    assert Core(t).trades == Core(u).trades && Core(t).sold == Core(u).sold && Core(t).bought == Core(u).bought;
    assert Core(t).created == Core(u).created && Core(t).graduated == Core(u).graduated;
  }

  // ---- raw ledger -----------------------------------------------------------------------------

  lemma {:induction false} LedgerKeys(ledger: map<LedgerKey, RawRow>, src: Source, logs: seq<Log>)
    ensures InsertLogs(ledger, src, logs).Keys == ledger.Keys + set l <- logs :: LedgerKeyOf(src, l)
  {
    if logs != [] {
      var n := |logs| - 1;
      LedgerKeys(ledger, src, logs[..n]);
      assert logs == logs[..n] + [logs[n]];
      assert (set l <- logs :: LedgerKeyOf(src, l))
          == (set l <- logs[..n] :: LedgerKeyOf(src, l)) + {LedgerKeyOf(src, logs[n])};
    }
  }

  /** Logs whose keys are in the ledger are ignored. */
  lemma {:induction false} ReplayKeepsLedger(ledger: map<LedgerKey, RawRow>, src: Source, logs: seq<Log>)
    requires forall l <- logs :: LedgerKeyOf(src, l) in ledger
    ensures InsertLogs(ledger, src, logs) == ledger
  {
    if logs != [] {
      ReplayKeepsLedger(ledger, src, logs[..|logs| - 1]);
      assert logs[|logs| - 1] in logs;
    }
  }
}
