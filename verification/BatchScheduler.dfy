/**
  The polling loop of the older indexer: a cursor, a batch size that is halved when the node rejects a
  range and doubled after ten successes, and a checkpoint that is written after each range.
 */
module BatchScheduler {
  import opened Common

  const MIN_BATCH := 10
  const SUCCESSES_TO_GROW := 10

  /** A positive Go `int` as the configured batch size. */
  type Configured = c: nat | 1 <= c < U64 / 2 witness 1

  datatype SyncResult = Synced | LimitExceeded | OtherError

  /** What the node and the database answer during one tick of the loop. */
  datatype Tick = HeadError | Polled(latest: Uint64, result: SyncResult, checkpointWritten: bool)

  // ---- one tick -------------------------------------------------------------------------------

  datatype State = State(cursor: nat, size: nat, successes: nat)

  function Halved(size: nat): nat {
    if size / 2 < MIN_BATCH then MIN_BATCH else size / 2
  }

  function Doubled(size: nat, configured: Configured): nat {
    if size * 2 % U64 > configured then configured else size * 2 % U64
  }

  function AfterSuccess(s: State, configured: Configured, to: nat): State {
    var grow := s.successes + 1 >= SUCCESSES_TO_GROW && s.size < configured;
    State((to + 1) % U64, if grow then Doubled(s.size, configured) else s.size, if grow then 0 else s.successes + 1)
  }

  function Next(s: State, configured: Configured, tick: Tick): State
    requires s.size >= 1
  {
    match tick
    case HeadError => s
    case Polled(latest, result, _) =>
      if s.cursor > latest then s
      else
        match result
        case Synced => AfterSuccess(s, configured, RangeEnd(s.cursor, s.size, latest))
        case LimitExceeded => s.(size := Halved(s.size), successes := 0)
        case OtherError => s
  }

  /** The range scanned successfully in a tick, if any. */
  function Scanned(s: State, tick: Tick): Option<Range>
    requires s.size >= 1
  {
    if tick.Polled? && tick.result.Synced? && s.cursor <= tick.latest
    then Some(Range(s.cursor, RangeEnd(s.cursor, s.size, tick.latest)))
    else None
  }

  /** The loop body on the fields of the indexer. */
  class HistorySync {
    const configured: Configured
    var currentBatchSize: nat
    var currentBlock: nat
    var consecutiveSuccesses: nat
    /** The row `UpdateLastSyncedBlock` writes. */
    var checkpoint: Option<nat>

    constructor (configured: Configured, startBlock: nat, checkpoint: Option<nat>)
      ensures this.configured == configured && this.checkpoint == checkpoint
      ensures View() == State(startBlock, configured, 0)
    {
      this.configured := configured;
      currentBatchSize, currentBlock, consecutiveSuccesses := configured, startBlock, 0;
      this.checkpoint := checkpoint;
    }

    function View(): State
      reads this
    {
      State(currentBlock, currentBatchSize, consecutiveSuccesses)
    }

    method OnTick(tick: Tick)
      requires currentBatchSize >= 1
      modifies this
      ensures View() == Next(old(View()), configured, tick)
      ensures checkpoint ==
        if Scanned(old(View()), tick).Some? && tick.checkpointWritten then Some(Scanned(old(View()), tick).value.to)
        else old(checkpoint)
    {
      if tick.HeadError? {
        return;
      }
      var latestBlock := tick.latest;
      if currentBlock > latestBlock {
        return;
      }
      var toBlock := (currentBlock + currentBatchSize - 1) % U64;
      if toBlock > latestBlock {
        toBlock := latestBlock;
      }
      if tick.result == LimitExceeded {
        currentBatchSize := currentBatchSize / 2;
        if currentBatchSize < 10 {
          currentBatchSize := 10;
        }
        consecutiveSuccesses := 0;
        return;
      }
      if tick.result == OtherError {
        return;
      }
      consecutiveSuccesses := consecutiveSuccesses + 1;
      if consecutiveSuccesses >= 10 && currentBatchSize < configured {
        currentBatchSize := currentBatchSize * 2 % U64;
        if currentBatchSize > configured {
          currentBatchSize := configured;
        }
        consecutiveSuccesses := 0;
      }
      if tick.checkpointWritten {
        checkpoint := Some(toBlock);
      }
      currentBlock := (toBlock + 1) % U64;
    }
  }

  // ---- the size stays in bounds ---------------------------------------------------------------

  function Min(a: nat, b: nat): nat { if a < b then a else b }
  function Max(a: nat, b: nat): nat { if a < b then b else a }

  predicate SizeInBounds(size: nat, configured: Configured) {
    Min(MIN_BATCH, configured) <= size <= Max(MIN_BATCH, configured)
  }

  lemma NextKeepsBounds(s: State, configured: Configured, tick: Tick)
    requires SizeInBounds(s.size, configured)
    ensures SizeInBounds(Next(s, configured, tick).size, configured)
  {
  }

  /** The state after a run of the loop from `start`. */
  function Run(start: nat, configured: Configured, ticks: seq<Tick>): (s: State)
    ensures SizeInBounds(s.size, configured)
  {
    if ticks == [] then State(start, configured, 0)
    else
      var s := Run(start, configured, ticks[..|ticks| - 1]);
      NextKeepsBounds(s, configured, ticks[|ticks| - 1]);
      Next(s, configured, ticks[|ticks| - 1])
  }

  /** The size never exceeds the configured one in any run, exactly when at least ten is configured. */
  lemma ConfiguredIsTheCeiling(start: Uint64, configured: Configured)
    ensures (forall ticks :: Run(start, configured, ticks).size <= configured) <==> configured >= MIN_BATCH
  {
    if configured < MIN_BATCH {
      var rejected := [Polled(start, LimitExceeded, false)];
      assert rejected[..0] == [];
      assert Run(start, configured, rejected).size == MIN_BATCH;
    }
  }

  // ---- back-off is logarithmic ----------------------------------------------------------------

  function Pow2(n: nat): (r: nat)
    ensures r >= 1
  {
    if n == 0 then 1 else 2 * Pow2(n - 1)
  }

  /** The node rejects only ranges of more than `limit` blocks. */
  predicate Tolerates(limit: nat, s: State, tick: Tick)
    requires s.size >= 1
  {
    tick.Polled? && tick.result.LimitExceeded? && s.cursor <= tick.latest ==>
      RangeEnd(s.cursor, s.size, tick.latest) - s.cursor + 1 > limit
  }

  /** A stretch of ticks after `s` in which the cursor does not move and the node keeps to its limit. */
  predicate Stuck(s: State, configured: Configured, limit: nat, ticks: seq<Tick>)
    requires SizeInBounds(s.size, configured)
  {
    if ticks == [] then true
    else
      var t := From(s, configured, ticks[..|ticks| - 1]);
      && Stuck(s, configured, limit, ticks[..|ticks| - 1])
      && Scanned(t, ticks[|ticks| - 1]).None?
      && Tolerates(limit, t, ticks[|ticks| - 1])
  }

  function From(s: State, configured: Configured, ticks: seq<Tick>): (t: State)
    requires SizeInBounds(s.size, configured)
    ensures SizeInBounds(t.size, configured)
  {
    if ticks == [] then s
    else
      var t := From(s, configured, ticks[..|ticks| - 1]);
      NextKeepsBounds(t, configured, ticks[|ticks| - 1]);
      Next(t, configured, ticks[|ticks| - 1])
  }

  function LimitErrors(s: State, configured: Configured, ticks: seq<Tick>): nat
    requires SizeInBounds(s.size, configured)
  {
    if ticks == [] then 0
    else
      var t := From(s, configured, ticks[..|ticks| - 1]);
      var tick := ticks[|ticks| - 1];
      LimitErrors(s, configured, ticks[..|ticks| - 1])
      + if tick.Polled? && t.cursor <= tick.latest && tick.result.LimitExceeded? then 1 else 0
  }

  /** Each further rejection needs twice the configured size. */
  lemma {:induction false} RejectionsHalve(s: State, configured: Configured, limit: nat, ticks: seq<Tick>)
    requires SizeInBounds(s.size, configured) && s.size <= configured
    requires limit >= MIN_BATCH && Stuck(s, configured, limit, ticks)
    ensures var n, size := LimitErrors(s, configured, ticks), From(s, configured, ticks).size;
            && (n >= 1 ==> limit * Pow2(n - 1) < configured)
            && (size * Pow2(n) <= configured || size == MIN_BATCH)
  {
    if ticks != [] {
      var init, tick := ticks[..|ticks| - 1], ticks[|ticks| - 1];
      var t := From(s, configured, init);
      var n := LimitErrors(s, configured, init);
      RejectionsHalve(s, configured, limit, init);
      if tick.Polled? && t.cursor <= tick.latest && tick.result.LimitExceeded? {
        RangeNoLonger(t.cursor, t.size, tick.latest);
        assert t.size > limit;
        HalvingStep(t.size, limit, Pow2(n), configured);
      }
    }
  }

  lemma RangeNoLonger(next: nat, size: nat, latest: nat)
    requires next <= latest && size >= 1
    ensures RangeEnd(next, size, latest) - next + 1 <= size
  {
  }

  lemma HalvingStep(size: nat, limit: nat, p: nat, configured: nat)
    requires size > limit && p >= 1 && size * p <= configured
    ensures limit * p < configured
    ensures size / 2 * (2 * p) <= configured
  {
    assert (size - limit) * p >= 1;
    assert size / 2 * (2 * p) == size / 2 * 2 * p;
    assert size / 2 * 2 * p <= size * p;
  }

  lemma DoubledLimit(limit: nat, k: nat)
    ensures limit * Pow2(k + 1) == 2 * limit * Pow2(k)
  {
  }

  /** The least `k` with `limit * 2^k >= configured`, that is ceil(log2(configured / limit)). */
  function CeilLog(configured: nat, limit: nat): (k: nat)
    requires limit >= 1
    ensures limit * Pow2(k) >= configured
    ensures k >= 1 ==> limit * Pow2(k - 1) < configured
    decreases configured - limit
  {
    if limit >= configured then 0
    else
      var k := CeilLog(configured, 2 * limit);
      DoubledLimit(limit, k);
      if k >= 1 then DoubledLimit(limit, k - 1); k + 1 else k + 1
  }

  lemma {:induction false} Pow2Monotone(a: nat, b: nat)
    ensures a <= b ==> Pow2(a) <= Pow2(b)
  {
    if a < b {
      Pow2Monotone(a, b - 1);
    }
  }

  /** Main result: a node that accepts `limit` blocks rejects at most ceil(log2(configured / limit)) times in a row. */
  lemma BackOffIsLogarithmic(start: nat, configured: Configured, limit: nat, before: seq<Tick>, ticks: seq<Tick>)
    requires limit >= MIN_BATCH && configured >= MIN_BATCH
    requires Stuck(Run(start, configured, before), configured, limit, ticks)
    ensures LimitErrors(Run(start, configured, before), configured, ticks) <= CeilLog(configured, limit)
  {
    var s := Run(start, configured, before);
    RejectionsHalve(s, configured, limit, ticks);
    FewHalvings(LimitErrors(s, configured, ticks), CeilLog(configured, limit), limit, configured);
  }

  lemma FewHalvings(n: nat, k: nat, limit: nat, configured: nat)
    requires n >= 1 ==> limit * Pow2(n - 1) < configured
    requires limit * Pow2(k) >= configured
    ensures n <= k
  {
    var last := if n == 0 then 0 else n - 1;
    Pow2Monotone(k, last);
    Scale(limit, Pow2(k), Pow2(last));
  }

  lemma Scale(c: nat, a: nat, b: nat)
    ensures a <= b ==> c * a <= c * b
  {
  }

  // ---- growth is earned -----------------------------------------------------------------------

  /** Successful ticks among those from index `k` on. */
  function Advances(start: nat, configured: Configured, ticks: seq<Tick>, k: nat): nat {
    if |ticks| <= k then 0
    else
      Advances(start, configured, ticks[..|ticks| - 1], k)
      + if Scanned(Run(start, configured, ticks[..|ticks| - 1]), ticks[|ticks| - 1]).Some? then 1 else 0
  }

  /** The counter is the number of successes since some tick after which the size did not change. */
  lemma {:induction false} CounterCountsSuccesses(start: nat, configured: Configured, ticks: seq<Tick>) returns (k: nat)
    ensures k <= |ticks|
    ensures Run(start, configured, ticks).successes == Advances(start, configured, ticks, k)
    ensures forall j :: k <= j <= |ticks| ==>
              Run(start, configured, ticks[..j]).size == Run(start, configured, ticks).size
  {
    assert ticks[..|ticks|] == ticks;
    if ticks == [] {
      k := 0;
    } else {
      var n := |ticks| - 1;
      var init := ticks[..n];
      k := CounterCountsSuccesses(start, configured, init);
      var s, t := Run(start, configured, init), Run(start, configured, ticks);
      if t.size != s.size || t.successes < s.successes {
        k := |ticks|;
      } else {
        forall j | k <= j <= |ticks|
          ensures Run(start, configured, ticks[..j]).size == t.size
        {
          if j <= n {
            assert ticks[..j] == init[..j];
          }
        }
      }
    }
  }

  /** Main result: whenever the size grows, at least ten ranges succeeded since it last changed. */
  lemma GrowthNeedsTenSuccesses(start: nat, configured: Configured, ticks: seq<Tick>, tick: Tick) returns (k: nat)
    requires configured >= MIN_BATCH
    requires Run(start, configured, ticks + [tick]).size > Run(start, configured, ticks).size
    ensures k <= |ticks|
    ensures Advances(start, configured, ticks + [tick], k) >= SUCCESSES_TO_GROW
    ensures forall j :: k <= j <= |ticks| ==>
              Run(start, configured, ticks[..j]).size == Run(start, configured, ticks).size
  {
    k := CounterCountsSuccesses(start, configured, ticks);
    assert (ticks + [tick])[..|ticks|] == ticks;
  }

  // ---- how far it backs off and how fast it recovers ------------------------------------------

  /** Ranges scanned successfully. */
  function Successes(s: State, configured: Configured, ticks: seq<Tick>): nat
    requires SizeInBounds(s.size, configured)
  {
    if ticks == [] then 0
    else
      Successes(s, configured, ticks[..|ticks| - 1])
      + if Scanned(From(s, configured, ticks[..|ticks| - 1]), ticks[|ticks| - 1]).Some? then 1 else 0
  }

  /**
    While nothing succeeds, `n` rejections leave the size divided by 2^n and rounded down, or ten if that
    is less, and the counter at 0; errors of other kinds and ticks without new blocks change nothing.
   */
  lemma {:induction false} BackOffIsExact(s: State, configured: Configured, ticks: seq<Tick>)
    requires SizeInBounds(s.size, configured) && Successes(s, configured, ticks) == 0
    ensures var n := LimitErrors(s, configured, ticks);
            From(s, configured, ticks) ==
              if n == 0 then s else State(s.cursor, Max(10, s.size / Pow2(n)), 0)
  {
    if ticks != [] {
      var init, tick := ticks[..|ticks| - 1], ticks[|ticks| - 1];
      BackOffIsExact(s, configured, init);
      var n := LimitErrors(s, configured, init);
      DivDiv(s.size, Pow2(n), 2);
      assert Pow2(0) == 1;
      assert Pow2(n + 1) == 2 * Pow2(n);
      if n > 0 && s.size / Pow2(n) < 10 {
        assert s.size / Pow2(n) / 2 < 10;
      }
    }
  }

  /** Below the configured size the counter has not reached ten. */
  lemma {:induction false} CounterIsSmall(start: nat, configured: Configured, ticks: seq<Tick>)
    ensures Run(start, configured, ticks).size < configured ==> Run(start, configured, ticks).successes < 10
  {
    if ticks != [] {
      CounterIsSmall(start, configured, ticks[..|ticks| - 1]);
    }
  }

  /** One more success. */
  lemma DoublingStep(size: nat, c: nat, configured: Configured, now: nat, successes: nat)
    requires now == Min(configured, size * Pow2(c / 10))
    requires now < configured ==> successes == c % 10
    ensures var t := AfterSuccess(State(0, now, successes), configured, 0);
            && t.size == Min(configured, size * Pow2((c + 1) / 10))
            && (t.size < configured ==> t.successes == (c + 1) % 10)
  {
    var q, q' := c / 10, (c + 1) / 10;
    assert q' == if c % 10 == 9 then q + 1 else q;
    if now < configured {
      if c % 10 == 9 {
        assert Pow2(q + 1) == 2 * Pow2(q);
        assert size * Pow2(q + 1) == 2 * (size * Pow2(q));
      }
    } else {
      Pow2Monotone(q, q');
      Scale(size, Pow2(q), Pow2(q'));
    }
  }

  /** Without rejections the size doubles with every ten successes until it is the configured one. */
  lemma {:induction false} RecoveryIsExact(s: State, configured: Configured, ticks: seq<Tick>)
    requires SizeInBounds(s.size, configured) && s.size <= configured
    requires s.size < configured ==> s.successes < 10
    requires LimitErrors(s, configured, ticks) == 0
    ensures var t, m := From(s, configured, ticks), Successes(s, configured, ticks);
            && t.size == Min(configured, s.size * Pow2((s.successes + m) / 10))
            && (t.size < configured ==> t.successes == (s.successes + m) % 10)
  {
    hide AfterSuccess;
    if ticks == [] {
      Scale(s.size, 1, Pow2(s.successes / 10));
      if s.size < configured {
        assert s.successes / 10 == 0 && Pow2(0) == 1;
      }
    } else {
      var init, tick := ticks[..|ticks| - 1], ticks[|ticks| - 1];
      RecoveryIsExact(s, configured, init);
      var t, m := From(s, configured, init), Successes(s, configured, init);
      if Scanned(t, tick).Some? {
        DoublingStep(s.size, s.successes + m, configured, t.size, t.successes);
        OnlyCursorDiffers(t, configured, tick);
      }
    }
  }

  lemma OnlyCursorDiffers(s: State, configured: Configured, tick: Tick)
    requires s.size >= 1 && Scanned(s, tick).Some?
    ensures var t, u := Next(s, configured, tick), AfterSuccess(State(0, s.size, s.successes), configured, 0);
            t.size == u.size && t.successes == u.successes
  {
  }

  /**
    Main result on recovery: in every reachable state of a loop with at least ten configured blocks, ticks
    without a rejection double the size with every ten successes, counted on from the counter, up to the
    configured size, which is back after at most 10 * ceil(log2(configured / size)) successes.
   */
  lemma SizeRecovers(start: nat, configured: Configured, before: seq<Tick>, ticks: seq<Tick>)
    requires configured >= MIN_BATCH
    requires LimitErrors(Run(start, configured, before), configured, ticks) == 0
    ensures var s := Run(start, configured, before);
            var size, m := From(s, configured, ticks).size, Successes(s, configured, ticks);
            && s.size >= 1
            && size == Min(configured, s.size * Pow2((s.successes + m) / 10))
            && (m >= 10 * CeilLog(configured, s.size) ==> size == configured)
  {
    hide Successes, LimitErrors, From, Run, Pow2, CeilLog;
    var s, m := Run(start, configured, before), Successes(Run(start, configured, before), configured, ticks);
    CounterIsSmall(start, configured, before);
    RecoveryIsExact(s, configured, ticks);
    EnoughDoublings(s.size, configured, s.successes, m);
  }

  lemma EnoughDoublings(size: nat, configured: nat, successes: nat, m: nat)
    requires size >= 1
    ensures m >= 10 * CeilLog(configured, size) ==> size * Pow2((successes + m) / 10) >= configured
  {
    hide Pow2;
    var k := CeilLog(configured, size);
    if m >= 10 * k {
      Pow2Monotone(k, (successes + m) / 10);
      Scale(size, Pow2(k), Pow2((successes + m) / 10));
    }
  }

  // ---- coverage across restarts ---------------------------------------------------------------

  datatype Event =
    | Ticked(tick: Tick)
      /** A new process; reading the checkpoint may fail, which looks like having none. */
    | Restarted(readOk: bool)

  /** The running loop, the stored checkpoint, and what was scanned: in the current run and ever. */
  datatype History = History(run: State, stored: Option<nat>, runStart: nat, thisRun: seq<Range>, ever: seq<Range>)

  /** `Start`: the block after the checkpoint, unless the checkpoint reads as 0. */
  function ResumeAt(startBlock: nat, stored: Option<nat>, readOk: bool): nat {
    var lastBlock := if readOk then stored.GetOr(0) else 0;
    if lastBlock > 0 then (lastBlock + 1) % U64 else startBlock
  }

  function Fresh(startBlock: nat, configured: Configured): History {
    History(State(startBlock, configured, 0), None, startBlock, [], [])
  }

  function Happen(h: History, configured: Configured, startBlock: nat, e: Event): History
    requires h.run.size >= 1
  {
    match e
    case Restarted(readOk) =>
      var cursor := ResumeAt(startBlock, h.stored, readOk);
      History(State(cursor, configured, 0), h.stored, cursor, [], h.ever)
    case Ticked(tick) =>
      match Scanned(h.run, tick)
      case None => h.(run := Next(h.run, configured, tick))
      case Some(r) =>
        History(Next(h.run, configured, tick), if tick.checkpointWritten then Some(r.to) else h.stored,
                h.runStart, h.thisRun + [r], h.ever + [r])
  }

  /** Range ends and cursors stay inside `uint64`. */
  predicate Fits(e: Event, configured: Configured) {
    e.Ticked? && e.tick.Polled? ==> e.tick.latest + Max(MIN_BATCH, configured) <= U64 && e.tick.latest + 1 < U64
  }

  ghost predicate Covers(ranges: seq<Range>, block: nat) {
    exists r <- ranges :: r.from <= block <= r.to
  }

  /** Each of the blocks `lo`, ..., `hi - 1` is in some range. */
  ghost predicate Covered(ranges: seq<Range>, lo: nat, hi: nat) {
    forall b :: lo <= b < hi ==> Covers(ranges, b)
  }

  ghost predicate CoverageInv(h: History, configured: Configured, startBlock: nat) {
    && SizeInBounds(h.run.size, configured)
    && startBlock <= h.runStart
    && Tiles(h.thisRun, h.runStart, h.run.cursor, Max(MIN_BATCH, configured))
    && Covered(h.ever, startBlock, h.run.cursor)
    && (h.stored.Some? ==> startBlock <= h.stored.value < U64 - 1 && Covered(h.ever, startBlock, h.stored.value + 1))
  }

  lemma CoverMore(ranges: seq<Range>, lo: nat, hi: nat, r: Range)
    requires Covered(ranges, lo, hi)
    ensures Covered(ranges + [r], lo, hi)
    ensures r.from <= hi <= r.to + 1 ==> Covered(ranges + [r], lo, r.to + 1)
  {
    var all := ranges + [r];
    assert r in all;
    forall b: nat
      ensures Covers(ranges, b) || r.from <= b <= r.to ==> Covers(all, b)
    {
      if Covers(ranges, b) {
        var x :| x in ranges && x.from <= b <= x.to;
        assert x in all;
      }
    }
  }

  lemma TickKeepsCoverage(h: History, configured: Configured, startBlock: Uint64, tick: Tick)
    requires CoverageInv(h, configured, startBlock) && Fits(Ticked(tick), configured)
    ensures CoverageInv(Happen(h, configured, startBlock, Ticked(tick)), configured, startBlock)
  {
    hide Covered;
    NextKeepsBounds(h.run, configured, tick);
    TilesBounds(h.thisRun, h.runStart, h.run.cursor, Max(MIN_BATCH, configured));
    if Scanned(h.run, tick).Some? {
      var r := Scanned(h.run, tick).value;
      RangeEndExact(h.run.cursor, h.run.size, tick.latest);
      assert (h.thisRun + [r])[..|h.thisRun|] == h.thisRun;
      CoverMore(h.ever, startBlock, h.run.cursor, r);
      if h.stored.Some? {
        CoverMore(h.ever, startBlock, h.stored.value + 1, r);
      }
    }
  }

  lemma RestartKeepsCoverage(h: History, configured: Configured, startBlock: Uint64, readOk: bool)
    requires CoverageInv(h, configured, startBlock)
    ensures CoverageInv(Happen(h, configured, startBlock, Restarted(readOk)), configured, startBlock)
  {
  }

  function Histories(configured: Configured, startBlock: Uint64, events: seq<Event>): (h: History)
    requires forall e <- events :: Fits(e, configured)
    ensures SizeInBounds(h.run.size, configured)
  {
    if events == [] then Fresh(startBlock, configured)
    else
      var h, e := Histories(configured, startBlock, events[..|events| - 1]), events[|events| - 1];
      if e.Ticked? then NextKeepsBounds(h.run, configured, e.tick); Happen(h, configured, startBlock, e)
      else Happen(h, configured, startBlock, e)
  }

  /**
    Main result: through any ticks and restarts, with failing checkpoint reads and writes, the ranges of
    the current run tile from its start to the cursor, and everything from the configured start block to
    the cursor, and to the checkpoint, was scanned.
   */
  lemma {:induction false} NoBlockSkipped(configured: Configured, startBlock: Uint64, events: seq<Event>)
    requires forall e <- events :: Fits(e, configured)
    ensures CoverageInv(Histories(configured, startBlock, events), configured, startBlock)
  {
    hide CoverageInv, Happen;
    if events == [] {
      FreshCovers(configured, startBlock);
    } else {
      var init, e := events[..|events| - 1], events[|events| - 1];
      NoBlockSkipped(configured, startBlock, init);
      match e
      case Ticked(tick) => TickKeepsCoverage(Histories(configured, startBlock, init), configured, startBlock, tick);
      case Restarted(readOk) => RestartKeepsCoverage(Histories(configured, startBlock, init), configured, startBlock, readOk);
    }
  }

  lemma FreshCovers(configured: Configured, startBlock: Uint64)
    ensures CoverageInv(Fresh(startBlock, configured), configured, startBlock)
  {
  }

  // ---- the checkpoint and the cursor ----------------------------------------------------------

  /** The checkpoint names a block the cursor has not passed. */
  predicate Leads(h: History) {
    h.stored.Some? && h.stored.value >= h.run.cursor
  }

  /** A tick never makes the checkpoint lead. */
  lemma TickNeverLeads(h: History, configured: Configured, startBlock: Uint64, tick: Tick)
    requires CoverageInv(h, configured, startBlock) && Fits(Ticked(tick), configured)
    requires !Leads(h)
    ensures !Leads(Happen(h, configured, startBlock, Ticked(tick)))
  {
    RangeEndBounds(h.run, tick, Max(MIN_BATCH, configured));
  }

  lemma RangeEndBounds(s: State, tick: Tick, bound: nat)
    requires 1 <= s.size <= bound < U64
    requires tick.Polled? ==> tick.latest + bound <= U64 && tick.latest + 1 < U64
    ensures Scanned(s, tick).Some? ==> s.cursor <= Scanned(s, tick).value.to < U64 - 1
  {
    if tick.Polled? && s.cursor <= tick.latest {
      RangeEndExact(s.cursor, s.size, tick.latest);
    }
  }

  /** A restart makes it lead exactly when the checkpoint was not read, or reads as 0, and is not before the start block. */
  lemma RestartLeadsExactly(h: History, configured: Configured, startBlock: Uint64, readOk: bool)
    requires CoverageInv(h, configured, startBlock)
    ensures Leads(Happen(h, configured, startBlock, Restarted(readOk)))
       <==> h.stored.Some? && (!readOk || h.stored.value == 0) && h.stored.value >= startBlock
  {
  }

  /** A reachable history in which it leads: blocks 1 to 10 are scanned, then a checkpoint read fails. */
  lemma CheckpointCanLead()
    ensures Leads(Histories(10, 1, [Ticked(Polled(100, Synced, true)), Restarted(false)]))
  {
    var tick, restart := Ticked(Polled(100, Synced, true)), Restarted(false);
    assert [tick, restart][..1] == [tick] && [tick][..0] == [];
    assert Histories(10, 1, [tick]) == Happen(Fresh(1, 10), 10, 1, tick);
  }

  /** With a positive start block and checkpoint reads that succeed, the checkpoint never leads the cursor. */
  lemma {:induction false} CheckpointNeverLeads(configured: Configured, startBlock: Uint64, events: seq<Event>)
    requires forall e <- events :: Fits(e, configured)
    requires startBlock >= 1 && forall e <- events :: e.Restarted? ==> e.readOk
    ensures !Leads(Histories(configured, startBlock, events))
  {
    hide CoverageInv, Happen;
    if events != [] {
      var init, e := events[..|events| - 1], events[|events| - 1];
      var h := Histories(configured, startBlock, init);
      CheckpointNeverLeads(configured, startBlock, init);
      NoBlockSkipped(configured, startBlock, init);
      match e
      case Ticked(tick) => TickNeverLeads(h, configured, startBlock, tick);
      case Restarted(readOk) =>
        assert e in events;
        RestartLeadsExactly(h, configured, startBlock, readOk);
        StoredIsPositive(h, configured, startBlock);
    }
  }

  lemma StoredIsPositive(h: History, configured: Configured, startBlock: Uint64)
    requires CoverageInv(h, configured, startBlock) && startBlock >= 1
    ensures h.stored.Some? ==> h.stored.value >= 1
  {
  }
}
