/**
  Runs of the indexer: processes start, save ranges, lose acknowledgements, crash and restart while the
  head moves either way, and somebody may delete the checkpoint row. Transactions are atomic steps.
 */
module Exactness {
  import opened Common
  import opened ChainEvents
  import opened ChainIndexer
  import opened Replay
  import opened TokenRows
  import opened TokenRepair

  // ---- the reference: one pass from empty -----------------------------------------------------

  /** The tables after reading the blocks `start`, ..., `hi - 1` once, in order, one block at a time. */
  ghost function OnePass(chain: Chain, src: Source, start: nat, hi: nat): Tables {
    if hi <= start then EMPTY else Commit(chain, src, OnePass(chain, src, start, hi - 1), hi - 1, hi)
  }

  lemma {:induction false} OnePassIsCommit(chain: Chain, src: Source, start: nat, hi: nat)
    ensures OnePass(chain, src, start, hi) == Commit(chain, src, EMPTY, start, hi)
    decreases hi
  {
    hide SaveRange, LogsIn, Events;
    if start < hi {
      OnePassIsCommit(chain, src, start, hi - 1);
      CommitsCompose(chain, src, EMPTY, start, hi - 1, hi);
    }
  }

  lemma OnePassExtends(chain: Chain, src: Source, start: nat, mid: nat, hi: nat)
    requires start <= mid <= hi
    ensures OnePass(chain, src, start, hi) == Commit(chain, src, OnePass(chain, src, start, mid), mid, hi)
  {
    hide SaveRange, Commit, OnePass;
    OnePassIsCommit(chain, src, start, mid);
    OnePassIsCommit(chain, src, start, hi);
    CommitsCompose(chain, src, EMPTY, start, mid, hi);
  }

  lemma CommitCheckpoints(chain: Chain, src: Source, db: Tables, lo: nat, hi: nat)
    requires lo < hi
    ensures Commit(chain, src, db, lo, hi).checkpoints == db.checkpoints[CheckpointKey(src) := hi - 1]
  {
    var logs := LogsIn(chain, lo, hi);
    ApplyAllFrame(db.(ledger := InsertLogs(db.ledger, src, logs)), Events(chain, logs), map[], map[]);
  }

  lemma OnePassCheckpoint(chain: Chain, src: Source, start: nat, hi: nat)
    ensures OnePass(chain, src, start, hi).checkpoints == if hi <= start then map[] else map[CheckpointKey(src) := hi - 1]
  {
    OnePassIsCommit(chain, src, start, hi);
    if start < hi {
      CommitCheckpoints(chain, src, EMPTY, start, hi);
    }
  }

  // ---- the step system ------------------------------------------------------------------------

  /** What is fixed during a run. */
  datatype World = World(chain: Chain, src: Source, start: Uint64)

  /** Committed tables, and the cursor of every running process. */
  datatype System = System(db: Tables, cursors: map<nat, nat>)

  datatype Step =
      /** A process reads the checkpoint and starts, or restarts. */
    | Start(pid: nat)
      /** A process sees `head` and saves its next range; the acknowledgement of the commit may get lost. */
    | Save(pid: nat, batch: Uint64, head: Uint64, acknowledged: bool)
      /** A node error, a refused statement or a crash ends a process. */
    | Stop(pid: nat)
      /** Somebody deletes the checkpoint row. */
    | DeleteCheckpoint

  /** Range ends and cursors stay inside `uint64`. */
  predicate NoWrap(step: Step) {
    step.Save? ==> step.batch >= 1 && step.head + step.batch <= U64 && step.head + 1 < U64
  }

  const INITIAL := System(EMPTY, map[])

  ghost function Cursor(w: World, db: Tables): nat {
    NextBlockOf(db, Config(w.src, w.start, 1))
  }

  /** The range a step commits, if it commits one. */
  ghost function Committed(w: World, s: System, step: Step): Option<Range>
    requires NoWrap(step)
  {
    if step.Save? && step.pid in s.cursors && s.cursors[step.pid] <= step.head then
      var next := s.cursors[step.pid];
      var end := RangeEnd(next, step.batch, step.head);
      if AllDecodable(w.chain, LogsIn(w.chain, next, end + 1)) then Some(Range(next, end)) else None
    else None
  }

  ghost function Do(w: World, s: System, step: Step): System
    requires NoWrap(step)
  {
    match step
    case Start(pid) => s.(cursors := s.cursors[pid := Cursor(w, s.db)])
    case Stop(pid) => s.(cursors := s.cursors - {pid})
    case DeleteCheckpoint => s.(db := s.db.(checkpoints := s.db.checkpoints - {CheckpointKey(w.src)}))
    case Save(pid, batch, head, acknowledged) =>
      if pid !in s.cursors || s.cursors[pid] > head then s
      else
        match Committed(w, s, step)
        case None => s.(cursors := s.cursors - {pid})
        case Some(r) =>
          System(Commit(w.chain, w.src, s.db, r.from, r.to + 1),
                 if acknowledged then s.cursors[pid := (r.to + 1) % U64] else s.cursors - {pid})
  }

  ghost function Run(w: World, steps: seq<Step>): System
    requires forall step <- steps :: NoWrap(step)
  {
    if steps == [] then INITIAL else Do(w, Run(w, steps[..|steps| - 1]), steps[|steps| - 1])
  }

  // ---- one call of SyncAvailable is a run of saves --------------------------------------------

  ghost function DoAll(w: World, s: System, steps: seq<Step>): System
    requires forall step <- steps :: NoWrap(step)
  {
    if steps == [] then s else Do(w, DoAll(w, s, steps[..|steps| - 1]), steps[|steps| - 1])
  }

  /** The steps of a process that saves `ranges` one after the other. */
  ghost function SaveSteps(pid: nat, ranges: seq<Range>, batch: nat): (steps: seq<Step>)
    requires forall r <- ranges :: r.from <= r.to < r.from + batch && r.to + batch < U64
    ensures forall step <- steps :: NoWrap(step)
  {
    if ranges == [] then []
    else
      var r := ranges[|ranges| - 1];
      SaveSteps(pid, ranges[..|ranges| - 1], batch) + [Save(pid, r.to - r.from + 1, r.to, true)]
  }

  /** What `SyncAvailable` may save is what a sequence of save steps of its process saves. */
  lemma {:induction false} SyncIsARunOfSaves(w: World, s: System, pid: nat, ranges: seq<Range>, lo: nat, hi: nat, batch: nat)
    requires Tiles(ranges, lo, hi, batch) && hi + batch <= U64 && batch >= 1
    requires pid in s.cursors && s.cursors[pid] == lo
    requires AllDecodable(w.chain, LogsIn(w.chain, lo, hi))
    ensures forall r <- ranges :: r.from <= r.to < r.from + batch && r.to + batch < U64
    ensures DoAll(w, s, SaveSteps(pid, ranges, batch))
         == System(Commit(w.chain, w.src, s.db, lo, hi), s.cursors[pid := hi])
  {
    hide Commit, LogsIn, Do, DoAll, AllDecodable;
    TilesBounds(ranges, lo, hi, batch);
    if ranges == [] {
      NothingToCommit(w, s, lo);
      assert s.cursors[pid := lo] == s.cursors;
    } else {
      var init, r := ranges[..|ranges| - 1], ranges[|ranges| - 1];
      TilesBounds(init, lo, r.from, batch);
      DecodableParts(w.chain, lo, r.from, hi);
      SyncIsARunOfSaves(w, s, pid, init, lo, r.from, batch);
      assert r in ranges;
      DoOneMore(w, s, SaveSteps(pid, init, batch), Save(pid, r.to - r.from + 1, r.to, true));
      OneSave(w, DoAll(w, s, SaveSteps(pid, init, batch)), pid, r.from, r.to);
      CommitsCompose(w.chain, w.src, s.db, lo, r.from, hi);
    }
  }

  lemma OneSave(w: World, s: System, pid: nat, from: nat, to: nat)
    requires from <= to && to + (to - from + 1) < U64
    requires pid in s.cursors && s.cursors[pid] == from
    requires AllDecodable(w.chain, LogsIn(w.chain, from, to + 1))
    ensures Do(w, s, Save(pid, to - from + 1, to, true))
         == System(Commit(w.chain, w.src, s.db, from, to + 1), s.cursors[pid := to + 1])
  {
    hide Commit, LogsIn;
    RangeEndExact(from, to - from + 1, to);
  }

  lemma DoOneMore(w: World, s: System, steps: seq<Step>, step: Step)
    requires NoWrap(step) && forall x <- steps :: NoWrap(x)
    ensures DoAll(w, s, steps + [step]) == Do(w, DoAll(w, s, steps), step)
  {
    assert (steps + [step])[..|steps|] == steps;
  }

  lemma NothingToCommit(w: World, s: System, lo: nat)
    ensures Commit(w.chain, w.src, s.db, lo, lo) == s.db && DoAll(w, s, []) == s
  {
  }

  // ---- a single process at a time -------------------------------------------------------------

  /** A process starts only after the previous one ended, and nobody deletes the checkpoint. */
  ghost predicate OneAtATime(w: World, steps: seq<Step>)
    requires forall step <- steps :: NoWrap(step)
  {
    if steps == [] then true
    else
      var step := steps[|steps| - 1];
      && OneAtATime(w, steps[..|steps| - 1])
      && !step.DeleteCheckpoint?
      && (step.Start? ==> Run(w, steps[..|steps| - 1]).cursors == map[])
  }

  ghost predicate ExactInv(w: World, s: System) {
    var cursor := Cursor(w, s.db);
    && w.start <= cursor < U64
    && s.db == OnePass(w.chain, w.src, w.start, cursor)
    && AllDecodable(w.chain, LogsIn(w.chain, w.start, cursor))
    && (forall pid <- s.cursors :: s.cursors[pid] == cursor)
    && (forall p, q :: p in s.cursors && q in s.cursors ==> p == q)
  }

  lemma ExactSave(w: World, s: System, step: Step)
    requires ExactInv(w, s) && NoWrap(step) && Committed(w, s, step).Some?
    ensures ExactInv(w, Do(w, s, step))
  {
    hide Commit, OnePass, LogsIn;
    var Range(lo, to) := Committed(w, s, step).value;
    RangeEndExact(lo, step.batch, step.head);
    var s' := Do(w, s, step);
    OnePassExtends(w.chain, w.src, w.start, lo, to + 1);
    CommitCheckpoints(w.chain, w.src, s.db, lo, to + 1);
    assert Cursor(w, s'.db) == to + 1;
    LogsInSplit(w.chain, w.start, lo, to + 1);
  }

  /**
    Main result for one process at a time: through any batch sizes, heads, errors, lost
    acknowledgements, crashes and restarts, the tables equal one in-order pass from empty over the
    blocks up to the checkpoint, and all those blocks decode.
   */
  lemma {:induction false} WholeRunExactness(w: World, steps: seq<Step>)
    requires forall step <- steps :: NoWrap(step)
    requires OneAtATime(w, steps)
    ensures ExactInv(w, Run(w, steps))
  {
    hide Commit;
    if steps != [] {
      var before := Run(w, steps[..|steps| - 1]);
      var step := steps[|steps| - 1];
      WholeRunExactness(w, steps[..|steps| - 1]);
      if Committed(w, before, step).Some? {
        ExactSave(w, before, step);
      }
    }
  }

  // ---- several processes, and a deleted checkpoint --------------------------------------------

  /** End of the applied blocks, and the block up to which token rows can be repaired from. */
  datatype Marks = Marks(top: nat, clean: nat)

  ghost function DoMarks(w: World, s: System, m: Marks, step: Step): Marks
    requires NoWrap(step)
  {
    match Committed(w, s, step)
    case None => m
    case Some(r) => Marks(TopAfter(m.top, r.to + 1), CleanAfter(m.clean, r.from, r.to + 1))
  }

  ghost function RunMarks(w: World, steps: seq<Step>): Marks
    requires forall step <- steps :: NoWrap(step)
  {
    if steps == [] then Marks(w.start, w.start)
    else DoMarks(w, Run(w, steps[..|steps| - 1]), RunMarks(w, steps[..|steps| - 1]), steps[|steps| - 1])
  }

  /** The applied blocks form the prefix `w.start` .. `m.top - 1`, and the core equals its single pass. */
  ghost predicate AppliedPrefix(w: World, db: Tables, m: Marks) {
    && w.start <= m.clean <= m.top < U64
    && Core(db) == Core(OnePass(w.chain, w.src, w.start, m.top))
    && AllDecodable(w.chain, LogsIn(w.chain, w.start, m.top))
  }

  /** No process and no checkpoint is beyond the prefix. */
  ghost predicate CursorsInside(w: World, s: System, m: Marks) {
    && s.db.checkpoints.Keys <= {CheckpointKey(w.src)}
    && w.start <= Cursor(w, s.db) <= m.top
    && (forall pid <- s.cursors :: w.start <= s.cursors[pid] <= m.top)
  }

  ghost predicate PrefixInv(w: World, s: System, m: Marks) {
    AppliedPrefix(w, s.db, m) && CursorsInside(w, s, m)
  }

  /** The rows of all blocks read so far are there. */
  lemma OnePassPresent(chain: Chain, src: Source, start: nat, top: nat)
    ensures AllPresent(OnePass(chain, src, start, top), EventsIn(chain, start, top))
    ensures forall log <- LogsIn(chain, start, top) :: LedgerKeyOf(src, log) in OnePass(chain, src, start, top).ledger
  {
    OnePassIsCommit(chain, src, start, top);
    if start < top {
      var logs, ps := LogsIn(chain, start, top), EventsIn(chain, start, top);
      var t := EMPTY.(ledger := InsertLogs(map[], src, logs));
      PresentAfterApplyAll(t, [], ps);
      assert [] + ps == ps;
      LedgerKeys(map[], src, logs);
      ApplyAllFrame(t, ps, map[], map[]);
      var u := OnePass(chain, src, start, top);
      assert Core(u) == Core(ApplyAll(t, ps));
      forall p <- ps
        ensures Present(u, p)
      {
        CorePresent(ApplyAll(t, ps), u, p);
      }
    }
  }

  /** A range inside the applied blocks leaves the core as it is. */
  lemma RereadKeepsCore(w: World, db: Tables, top: nat, lo: nat, hi: nat)
    requires Core(db) == Core(OnePass(w.chain, w.src, w.start, top))
    requires w.start <= lo <= hi <= top
    ensures Core(Commit(w.chain, w.src, db, lo, hi)) == Core(db)
  {
    if lo < hi {
      var logs, ps := LogsIn(w.chain, lo, hi), EventsIn(w.chain, lo, hi);
      var u := OnePass(w.chain, w.src, w.start, top);
      OnePassPresent(w.chain, w.src, w.start, top);
      LogsInSplit(w.chain, w.start, lo, top);
      LogsInSplit(w.chain, lo, hi, top);
      EventsInSplit(w.chain, w.start, lo, top);
      EventsInSplit(w.chain, lo, hi, top);
      assert db.ledger == Core(db).ledger == u.ledger;
      ReplayKeepsLedger(db.ledger, w.src, logs);
      forall p <- ps
        ensures Present(db, p)
      {
        assert Present(u, p);
        CorePresent(u, db, p);
      }
      ReplayKeepsCore(db, ps);
      assert db.(ledger := db.ledger) == db;
    }
  }

  /** What a range does to the core depends on the core alone. */
  lemma CoreCommit(chain: Chain, src: Source, t: Tables, u: Tables, lo: nat, hi: nat)
    requires Core(t) == Core(u)
    ensures Core(Commit(chain, src, t, lo, hi)) == Core(Commit(chain, src, u, lo, hi))
  {
    if lo < hi {
      var logs, ps := LogsIn(chain, lo, hi), EventsIn(chain, lo, hi);
      assert t.ledger == Core(t).ledger == Core(u).ledger == u.ledger;
      var ledger := InsertLogs(t.ledger, src, logs);
      assert Core(t.(ledger := ledger)) == Core(t).(ledger := ledger);
      assert Core(u.(ledger := ledger)) == Core(u).(ledger := ledger);
      CoreApplyAll(t.(ledger := ledger), u.(ledger := ledger), ps);
    }
  }

  /** A range that starts inside the applied blocks extends the prefix by its new part. */
  lemma RangeExtendsCore(w: World, db: Tables, top: nat, lo: nat, hi: nat)
    requires Core(db) == Core(OnePass(w.chain, w.src, w.start, top))
    requires w.start <= lo <= top && lo < hi
    ensures Core(Commit(w.chain, w.src, db, lo, hi)) == Core(OnePass(w.chain, w.src, w.start, TopAfter(top, hi)))
  {
    hide Core, Commit, OnePass;
    if hi <= top {
      RereadKeepsCore(w, db, top, lo, hi);
    } else {
      RereadKeepsCore(w, db, top, lo, top);
      CommitsCompose(w.chain, w.src, db, lo, top, hi);
      CoreCommit(w.chain, w.src, Commit(w.chain, w.src, db, lo, top), OnePass(w.chain, w.src, w.start, top), top, hi);
      OnePassExtends(w.chain, w.src, w.start, top, hi);
    }
  }

  lemma PrefixSave(w: World, s: System, m: Marks, step: Step)
    requires PrefixInv(w, s, m) && NoWrap(step) && Committed(w, s, step).Some?
    ensures PrefixInv(w, Do(w, s, step), DoMarks(w, s, m, step))
  {
    hide Commit, OnePass, LogsIn, Core;
    var Range(lo, to) := Committed(w, s, step).value;
    RangeEndExact(lo, step.batch, step.head);
    RangeExtendsCore(w, s.db, m.top, lo, to + 1);
    DecodablePrefix(w.chain, w.start, m.top, lo, to + 1);
    CursorsSave(w, s, m, step);
  }

  lemma CursorsSave(w: World, s: System, m: Marks, step: Step)
    requires w.start <= m.clean <= m.top < U64 && CursorsInside(w, s, m)
    requires NoWrap(step) && Committed(w, s, step).Some?
    ensures CursorsInside(w, Do(w, s, step), DoMarks(w, s, m, step))
  {
    hide Commit, LogsIn;
    var Range(lo, to) := Committed(w, s, step).value;
    RangeEndExact(lo, step.batch, step.head);
    CommitCheckpoints(w.chain, w.src, s.db, lo, to + 1);
  }

  lemma DecodablePrefix(chain: Chain, start: nat, top: nat, lo: nat, hi: nat)
    requires start <= lo <= top && lo <= hi
    requires AllDecodable(chain, LogsIn(chain, start, top)) && AllDecodable(chain, LogsIn(chain, lo, hi))
    ensures AllDecodable(chain, LogsIn(chain, start, TopAfter(top, hi)))
  {
    hide LogsIn;
    if top < hi {
      LogsInSplit(chain, lo, top, hi);
      LogsInSplit(chain, start, top, hi);
    }
  }

  /**
    Main result for several processes: under any interleaving of their transactions, with lost
    acknowledgements, crashes, restarts and deletions of the checkpoint row, the applied blocks form a
    prefix, and ledger, event tables, trades and candles equal the single pass over it.
   */
  lemma {:induction false} RunsApplyAPrefix(w: World, steps: seq<Step>)
    requires forall step <- steps :: NoWrap(step)
    ensures PrefixInv(w, Run(w, steps), RunMarks(w, steps))
  {
    hide Commit, Core;
    if steps != [] {
      var step := steps[|steps| - 1];
      var before, m := Run(w, steps[..|steps| - 1]), RunMarks(w, steps[..|steps| - 1]);
      RunsApplyAPrefix(w, steps[..|steps| - 1]);
      if Committed(w, before, step).Some? {
        PrefixSave(w, before, m, step);
      } else {
        PrefixOther(w, before, m, step);
      }
    }
  }

  lemma PrefixOther(w: World, s: System, m: Marks, step: Step)
    requires PrefixInv(w, s, m) && NoWrap(step) && Committed(w, s, step).None?
    ensures PrefixInv(w, Do(w, s, step), m)
  {
    hide Commit, OnePass, LogsIn;
  }

  /** One process at a time applies the blocks up to the checkpoint. */
  lemma {:induction false} TopIsCursor(w: World, steps: seq<Step>)
    requires forall step <- steps :: NoWrap(step)
    requires OneAtATime(w, steps)
    ensures RunMarks(w, steps) == Marks(Cursor(w, Run(w, steps).db), Cursor(w, Run(w, steps).db))
  {
    hide OnePass, Commit, LogsIn;
    if steps != [] {
      var init, step := steps[..|steps| - 1], steps[|steps| - 1];
      var s := Run(w, init);
      TopIsCursor(w, init);
      WholeRunExactness(w, init);
      if Committed(w, s, step).Some? {
        var Range(lo, to) := Committed(w, s, step).value;
        RangeEndExact(lo, step.batch, step.head);
        CommitCheckpoints(w.chain, w.src, s.db, lo, to + 1);
      }
    }
  }

  // ---- token rows -----------------------------------------------------------------------------

  /** Every token row can be repaired by reading again from any block up to the clean mark. */
  ghost predicate TokensInv(w: World, db: Tables, m: Marks) {
    forall token :: Repairable(w.chain, token, Get(db.tokens, token), w.start, m.clean, m.top)
  }

  lemma CommitOnRow(chain: Chain, src: Source, db: Tables, lo: nat, hi: nat, token: string)
    requires lo < hi
    ensures Get(Commit(chain, src, db, lo, hi).tokens, token) == RowFold(Get(db.tokens, token), EventsIn(chain, lo, hi), token)
  {
    TokensAreRowFolds(db.(ledger := InsertLogs(db.ledger, src, LogsIn(chain, lo, hi))), EventsIn(chain, lo, hi), token);
  }

  lemma OnePassRow(chain: Chain, src: Source, start: nat, top: nat, token: string)
    ensures Get(OnePass(chain, src, start, top).tokens, token) == ExactRow(chain, token, start, top)
  {
    hide Commit;
    OnePassIsCommit(chain, src, start, top);
    if start < top {
      CommitOnRow(chain, src, EMPTY, start, top, token);
    } else {
      assert EventsIn(chain, start, top) == [];
    }
  }

  lemma {:induction false} TokensStayRepairable(w: World, steps: seq<Step>)
    requires forall step <- steps :: NoWrap(step)
    requires CreationsFirst(w.chain, w.start)
    ensures TokensInv(w, Run(w, steps).db, RunMarks(w, steps))
  {
    hide Commit, Repairable, PrefixInv;
    if steps == [] {
      forall token
        ensures Repairable(w.chain, token, Get(EMPTY.tokens, token), w.start, w.start, w.start)
      {
        NothingRead(w.chain, token, w.start);
      }
    } else {
      var step := steps[|steps| - 1];
      var before, m := Run(w, steps[..|steps| - 1]), RunMarks(w, steps[..|steps| - 1]);
      TokensStayRepairable(w, steps[..|steps| - 1]);
      RunsApplyAPrefix(w, steps[..|steps| - 1]);
      if Committed(w, before, step).Some? {
        TokensSave(w, before, m, step);
      }
    }
  }

  lemma TokensSave(w: World, s: System, m: Marks, step: Step)
    requires CreationsFirst(w.chain, w.start)
    requires PrefixInv(w, s, m) && TokensInv(w, s.db, m)
    requires NoWrap(step) && Committed(w, s, step).Some?
    ensures TokensInv(w, Do(w, s, step).db, DoMarks(w, s, m, step))
  {
    hide Commit, Repairable, CreationsFirst, EventsIn, RowFold, OnePass, Core;
    var Range(lo, to) := Committed(w, s, step).value;
    RangeEndExact(lo, step.batch, step.head);
    var db', m' := Do(w, s, step).db, DoMarks(w, s, m, step);
    forall token
      ensures Repairable(w.chain, token, Get(db'.tokens, token), w.start, m'.clean, m'.top)
    {
      CommitOnRow(w.chain, w.src, s.db, lo, to + 1, token);
      RangeKeepsRepairable(w.chain, token, Get(s.db.tokens, token), w.start, m.clean, m.top, lo, to + 1);
    }
  }

  lemma NothingRead(chain: Chain, token: string, start: nat)
    ensures Repairable(chain, token, None, start, start, start)
  {
  }

  /**
    Main result for token rows: if every token's events start with its creation, a range that starts at
    or before the clean mark and reaches the end of the applied blocks makes all tables equal the single
    pass. A reading from the start block always qualifies.
   */
  lemma RereadToTopIsExact(w: World, steps: seq<Step>, lo: nat, hi: nat)
    requires forall step <- steps :: NoWrap(step)
    requires CreationsFirst(w.chain, w.start)
    requires w.start <= lo <= RunMarks(w, steps).clean && RunMarks(w, steps).top <= hi && lo < hi
    ensures Commit(w.chain, w.src, Run(w, steps).db, lo, hi) == OnePass(w.chain, w.src, w.start, hi)
  {
    hide Commit, OnePass, EventsIn, RowFold;
    var db, m := Run(w, steps).db, RunMarks(w, steps);
    var again, exact := Commit(w.chain, w.src, db, lo, hi), OnePass(w.chain, w.src, w.start, hi);
    RunsApplyAPrefix(w, steps);
    TokensStayRepairable(w, steps);
    RangeExtendsCore(w, db, m.top, lo, hi);
    CommitCheckpoints(w.chain, w.src, db, lo, hi);
    OnePassCheckpoint(w.chain, w.src, w.start, hi);
    forall token
      ensures Get(again.tokens, token) == Get(exact.tokens, token)
    {
      CommitOnRow(w.chain, w.src, db, lo, hi, token);
      OnePassRow(w.chain, w.src, w.start, hi, token);
      RangeKeepsRepairable(w.chain, token, Get(db.tokens, token), w.start, m.clean, m.top, lo, hi);
      var r := RowFold(Get(db.tokens, token), EventsIn(w.chain, lo, hi), token);
      NothingBetween(w.chain, token, r, hi);
    }
    SameTokens(again.tokens, exact.tokens);
    assert again.checkpoints == exact.checkpoints;
    assert again == Core(again).(tokens := again.tokens, checkpoints := again.checkpoints);
    assert exact == Core(exact).(tokens := exact.tokens, checkpoints := exact.checkpoints);
  }

  lemma NothingBetween(chain: Chain, token: string, r: Option<TokenRow>, hi: nat)
    ensures RowFold(r, EventsIn(chain, hi, hi), token) == r
  {
  }

  lemma SameTokens(a: map<string, TokenRow>, b: map<string, TokenRow>)
    requires forall token :: Get(a, token) == Get(b, token)
    ensures a == b
  {
    forall token
      ensures token in a <==> token in b
      ensures token in a ==> a[token] == b[token]
    {
      assert Get(a, token) == Get(b, token);
    }
  }

  // ---- exactly when token rows are exact ------------------------------------------------------

  /** The joined writes of all ranges a run committed, in the order of the commits. */
  ghost function RunWrites(w: World, steps: seq<Step>, token: string): Writes
    requires forall step <- steps :: NoWrap(step)
  {
    if steps == [] then NO_WRITES
    else
      var before := RunWrites(w, steps[..|steps| - 1], token);
      match Committed(w, Run(w, steps[..|steps| - 1]), steps[|steps| - 1])
      case None => before
      case Some(r) => Join(before, WritesIn(w.chain, token, r.from, r.to + 1))
  }

  /** In every reachable state a token row is its first creation overlaid with the writes of the run. */
  lemma {:induction false} RowsOfRun(w: World, steps: seq<Step>, token: string)
    requires forall step <- steps :: NoWrap(step)
    requires CreationsFirst(w.chain, w.start)
    ensures RowCarries(w.chain, token, Get(Run(w, steps).db.tokens, token), w.start, RunMarks(w, steps).top,
                       RunWrites(w, steps, token))
  {
    hide Commit, RowCarries, PrefixInv, LogsIn, WritesIn;
    if steps == [] {
      NothingCarried(w.chain, token, w.start);
    } else {
      var step := steps[|steps| - 1];
      var before, m := Run(w, steps[..|steps| - 1]), RunMarks(w, steps[..|steps| - 1]);
      RowsOfRun(w, steps[..|steps| - 1], token);
      RunsApplyAPrefix(w, steps[..|steps| - 1]);
      if Committed(w, before, step).Some? {
        var Range(lo, to) := Committed(w, before, step).value;
        RangeInside(w, before, m, step);
        CommitOnRow(w.chain, w.src, before.db, lo, to + 1, token);
        RangeKeepsCarries(w.chain, token, Get(before.db.tokens, token), w.start, m.top,
                          RunWrites(w, steps[..|steps| - 1], token), lo, to + 1);
      }
    }
  }

  lemma RangeInside(w: World, s: System, m: Marks, step: Step)
    requires PrefixInv(w, s, m) && NoWrap(step) && Committed(w, s, step).Some?
    ensures var r := Committed(w, s, step).value; w.start <= r.from <= m.top && r.from <= r.to
  {
    RangeEndExact(s.cursors[step.pid], step.batch, step.head);
  }

  lemma NothingCarried(chain: Chain, token: string, start: nat)
    ensures RowCarries(chain, token, None, start, start, NO_WRITES)
  {
  }

  /** Rows that carry `writes` make an exact table precisely when `writes` are those of all blocks. */
  lemma CarriedTokensExactly(w: World, tokens: map<string, TokenRow>, top: nat, writes: string -> Writes)
    requires CreationsFirst(w.chain, w.start)
    requires forall token :: RowCarries(w.chain, token, Get(tokens, token), w.start, top, writes(token))
    ensures tokens == OnePass(w.chain, w.src, w.start, top).tokens
       <==> forall token | HasCreation(EventsIn(w.chain, w.start, top), token) ::
              writes(token) == WritesIn(w.chain, token, w.start, top)
  {
    hide OnePass, RowCarries, CreationsFirst, EventsIn, WritesIn, ExactRow;
    var exact := OnePass(w.chain, w.src, w.start, top).tokens;
    forall token
      ensures Get(tokens, token) == Get(exact, token)
         <==> (HasCreation(EventsIn(w.chain, w.start, top), token) ==> writes(token) == WritesIn(w.chain, token, w.start, top))
    {
      OnePassRow(w.chain, w.src, w.start, top, token);
      CarriedRowExactly(w.chain, token, Get(tokens, token), w.start, top, writes(token));
    }
    if forall token :: Get(tokens, token) == Get(exact, token) {
      SameTokens(tokens, exact);
    }
  }

  /**
    Main result for token rows: if every token's events start with its creation, the token table of a
    reachable state is exact precisely when, for each created token, the last write of each kind among
    the ranges in the order they were read is the last one in chain order.
   */
  lemma TokensExactPrecisely(w: World, steps: seq<Step>)
    requires forall step <- steps :: NoWrap(step)
    requires CreationsFirst(w.chain, w.start)
    ensures var top := RunMarks(w, steps).top;
            Run(w, steps).db.tokens == OnePass(w.chain, w.src, w.start, top).tokens
            <==> forall token | HasCreation(EventsIn(w.chain, w.start, top), token) ::
                   RunWrites(w, steps, token) == WritesIn(w.chain, token, w.start, top)
  {
    hide Run, RunMarks, RunWrites, OnePass, RowCarries, CreationsFirst, EventsIn, WritesIn;
    var writes := (token: string) => RunWrites(w, steps, token);
    forall token
      ensures RowCarries(w.chain, token, Get(Run(w, steps).db.tokens, token), w.start, RunMarks(w, steps).top, writes(token))
    {
      RowsOfRun(w, steps, token);
    }
    CarriedTokensExactly(w, Run(w, steps).db.tokens, RunMarks(w, steps).top, writes);
  }

  /**
    Reading a range inside the applied blocks again keeps an exact token table exactly when, for each
    created token, the last write of each kind in the range is the last one of all applied blocks.
   */
  lemma RereadKeepsTokensExactly(w: World, db: Tables, top: nat, lo: nat, hi: nat)
    requires CreationsFirst(w.chain, w.start)
    requires db.tokens == OnePass(w.chain, w.src, w.start, top).tokens
    requires w.start <= lo < hi <= top
    ensures Commit(w.chain, w.src, db, lo, hi).tokens == db.tokens
       <==> forall token | HasCreation(EventsIn(w.chain, w.start, top), token) ::
              Superseded(WritesIn(w.chain, token, lo, hi), WritesIn(w.chain, token, w.start, top))
  {
    hide OnePass, Commit, EventsIn, RowFold, Superseded;
    var ps, again := EventsIn(w.chain, w.start, top), EventsIn(w.chain, lo, hi);
    var after := Commit(w.chain, w.src, db, lo, hi).tokens;
    EventsInSplit(w.chain, w.start, lo, top);
    EventsInSplit(w.chain, lo, hi, top);
    assert ps == EventsIn(w.chain, w.start, lo) + again + EventsIn(w.chain, hi, top);
    forall token
      ensures Get(after, token) == Get(db.tokens, token)
         <==> (HasCreation(ps, token) ==> Superseded(WritesIn(w.chain, token, lo, hi), WritesIn(w.chain, token, w.start, top)))
    {
      OnePassRow(w.chain, w.src, w.start, top, token);
      CommitOnRow(w.chain, w.src, db, lo, hi, token);
      RereadKeepsRowExactly(EventsIn(w.chain, w.start, lo), again, EventsIn(w.chain, hi, top), token);
    }
    if forall token :: Get(after, token) == Get(db.tokens, token) {
      SameTokens(after, db.tokens);
    }
  }

  /** Deleting the checkpoint, starting again and saving one range inside the applied blocks. */
  ghost function Again(steps: seq<Step>, save: Step): seq<Step>
    requires save.Save?
  {
    steps + [DeleteCheckpoint, Start(save.pid)] + [save]
  }

  lemma ShortReread(w: World, steps: seq<Step>, save: Step)
    requires forall step <- steps :: NoWrap(step)
    requires save.Save? && NoWrap(save) && w.start <= save.head < RunMarks(w, steps).top
    ensures forall step <- Again(steps, save) :: NoWrap(step)
    ensures var before := Run(w, steps + [DeleteCheckpoint, Start(save.pid)]).db;
            var d := RangeEnd(w.start, save.batch, save.head) + 1;
            && w.start < d <= RunMarks(w, steps).top == RunMarks(w, Again(steps, save)).top
            && before.tokens == Run(w, steps).db.tokens
            && Run(w, Again(steps, save)).db == Commit(w.chain, w.src, before, w.start, d)
  {
    hide OnePass, Commit, LogsIn, Core;
    var started := steps + [DeleteCheckpoint, Start(save.pid)];
    assert Again(steps, save)[..|started|] == started;
    DeleteAndStart(w, steps, save.pid);
    RangeEndExact(w.start, save.batch, save.head);
    var top, d := RunMarks(w, steps).top, RangeEnd(w.start, save.batch, save.head) + 1;
    RunsApplyAPrefix(w, steps);
    DecodableParts(w.chain, w.start, d, top);
    assert Committed(w, Run(w, started), save) == Some(Range(w.start, d - 1));
  }

  /**
    After any run with an exact token table: when the checkpoint is deleted and a process that reads
    from the start block has come only as far as some block inside, the table is still exact precisely
    if the last write of each kind it read again is the last one of all.
   */
  lemma ShortRereadExactly(w: World, steps: seq<Step>, save: Step)
    requires forall step <- steps :: NoWrap(step)
    requires CreationsFirst(w.chain, w.start)
    requires Run(w, steps).db.tokens == OnePass(w.chain, w.src, w.start, RunMarks(w, steps).top).tokens
    requires save.Save? && NoWrap(save) && w.start <= save.head < RunMarks(w, steps).top
    ensures forall step <- Again(steps, save) :: NoWrap(step)
    ensures var top, d := RunMarks(w, steps).top, RangeEnd(w.start, save.batch, save.head) + 1;
            && RunMarks(w, Again(steps, save)).top == top
            && (Run(w, Again(steps, save)).db.tokens == OnePass(w.chain, w.src, w.start, top).tokens
                <==> forall token | HasCreation(EventsIn(w.chain, w.start, top), token) ::
                       Superseded(WritesIn(w.chain, token, w.start, d), WritesIn(w.chain, token, w.start, top)))
  {
    hide Run, RunMarks, OnePass, Commit, EventsIn, CreationsFirst, Superseded, HasCreation, WritesIn, Again;
    ShortReread(w, steps, save);
    RereadKeepsTokensExactly(w, Run(w, steps + [DeleteCheckpoint, Start(save.pid)]).db, RunMarks(w, steps).top, w.start,
                             RangeEnd(w.start, save.batch, save.head) + 1);
  }

  // ---- reading everything again ---------------------------------------------------------------

  lemma DeleteAndStart(w: World, steps: seq<Step>, pid: nat)
    requires forall step <- steps :: NoWrap(step)
    ensures var again := steps + [DeleteCheckpoint, Start(pid)];
            && (forall step <- again :: NoWrap(step))
            && pid in Run(w, again).cursors && Run(w, again).cursors[pid] == w.start
            && RunMarks(w, again) == RunMarks(w, steps)
            && Run(w, again).db.tokens == Run(w, steps).db.tokens
  {
    var deleted := steps + [DeleteCheckpoint];
    var again := steps + [DeleteCheckpoint, Start(pid)];
    assert again == deleted + [Start(pid)];
    assert deleted[..|steps|] == steps && again[..|deleted|] == deleted;
  }

  /**
    After any run, deleting the checkpoint and letting one process read from the start block to the end
    of the applied blocks, in ranges of any size, leaves exactly the tables of a single pass.
   */
  lemma ResyncRestoresEverything(w: World, steps: seq<Step>, pid: nat, ranges: seq<Range>, hi: nat, batch: nat)
    requires forall step <- steps :: NoWrap(step)
    requires CreationsFirst(w.chain, w.start)
    requires Tiles(ranges, w.start, hi, batch) && hi + batch <= U64 && batch >= 1
    requires w.start < hi && RunMarks(w, steps).top <= hi
    requires AllDecodable(w.chain, LogsIn(w.chain, w.start, hi))
    ensures forall step <- steps + [DeleteCheckpoint, Start(pid)] :: NoWrap(step)
    ensures forall r <- ranges :: r.from <= r.to < r.from + batch && r.to + batch < U64
    ensures DoAll(w, Run(w, steps + [DeleteCheckpoint, Start(pid)]), SaveSteps(pid, ranges, batch)).db
         == OnePass(w.chain, w.src, w.start, hi)
  {
    hide Run, RunMarks, Commit, OnePass, CreationsFirst, LogsIn;
    var again := steps + [DeleteCheckpoint, Start(pid)];
    DeleteAndStart(w, steps, pid);
    RunsApplyAPrefix(w, again);
    SyncIsARunOfSaves(w, Run(w, again), pid, ranges, w.start, hi, batch);
    RereadToTopIsExact(w, again, w.start, hi);
  }
}
