/**
  Reading logs of the contract, decoding them into projections, and saving them range by range.
 */
module ChainIndexer {
  import opened Common
  import opened GoTime
  import opened Price
  import opened ChainEvents
  import opened Replay

  // ---- the chain ------------------------------------------------------------------------------

  datatype CreatedData = CreatedData(name: string, symbol: string, totalSupply: BigInt, requestId: string)
  type Seven = s: seq<BigInt> | |s| == 7 witness [Nil, Nil, Nil, Nil, Nil, Nil, Nil]
  type Three = s: seq<BigInt> | |s| == 3 witness [Nil, Nil, Nil]

  /** Event ids of the contract and the unpacking of event data, which may fail. */
  datatype Abi = Abi(
    createdId: string, boughtId: string, soldId: string, graduatedId: string,
    unpackCreated: string -> Option<CreatedData>,
    unpackBought: string -> Option<Seven>,
    unpackSold: string -> Option<Seven>,
    unpackGraduated: string -> Option<Three>,
    topicAddress: string -> string)

  /** A final chain: the logs of the contract in each block, in order, and the block header times. */
  datatype Chain = Chain(abi: Abi, logsOf: nat -> seq<Log>, headerTime: nat -> nat)

  /** Logs of the blocks `lo`, ..., `hi - 1` in chain order. */
  function LogsIn(chain: Chain, lo: nat, hi: nat): seq<Log> {
    if hi <= lo then [] else LogsIn(chain, lo, hi - 1) + chain.logsOf(hi - 1)
  }

  lemma {:induction false} LogsInSplit(chain: Chain, lo: nat, mid: nat, hi: nat)
    requires lo <= mid <= hi
    ensures LogsIn(chain, lo, hi) == LogsIn(chain, lo, mid) + LogsIn(chain, mid, hi)
    decreases hi
  {
    if mid < hi {
      LogsInSplit(chain, lo, mid, hi - 1);
      assert LogsIn(chain, lo, hi) == LogsIn(chain, lo, mid) + (LogsIn(chain, mid, hi - 1) + chain.logsOf(hi - 1));
    }
  }

  // ---- decoding -------------------------------------------------------------------------------

  datatype Decoded = Undecodable | Ignored | Event(p: Projection)

  /** `time.Unix(int64(header.Time), 0).UTC()`. */
  function BlockTime(headerTime: nat): Time {
    var wrapped := headerTime % U64;
    FromUnix(if wrapped >= U64 / 2 then wrapped - U64 else wrapped)
  }

  /** `decodeProjection`: which event a log is, and where its fields come from. */
  function DecodeProjection(abi: Abi, log: Log, time: Time): Decoded
    requires |log.topics| > 0
  {
    var key := EventKey(log.tx, log.index);
    if log.topics[0] == abi.createdId then
      match abi.unpackCreated(log.data)
      case None => Undecodable
      case Some(v) =>
        if |log.topics| < 3 then Undecodable
        else Event(Created(TokenCreated(
          abi.topicAddress(log.topics[1]), abi.topicAddress(log.topics[2]), v.name, v.symbol, v.totalSupply,
          v.requestId, key, log.block, time, Nil, Nil, Nil, 0, 0)))
    else if log.topics[0] == abi.boughtId then
      match abi.unpackBought(log.data)
      case None => Undecodable
      case Some(v) =>
        if |log.topics| < 3 then Undecodable
        else Event(Bought(TokenTrade(
          abi.topicAddress(log.topics[1]), abi.topicAddress(log.topics[2]), TRADE_TYPE_BUY,
          v[0], v[1], v[2], v[3], v[4], v[5], v[6], key, log.block, time)))
    else if log.topics[0] == abi.soldId then
      match abi.unpackSold(log.data)
      case None => Undecodable
      case Some(v) =>
        if |log.topics| < 3 then Undecodable
        else Event(Sold(TokenTrade(
          abi.topicAddress(log.topics[1]), abi.topicAddress(log.topics[2]), TRADE_TYPE_SELL,
          v[1], v[0], v[2], v[3], v[4], v[5], v[6], key, log.block, time)))
    else if log.topics[0] == abi.graduatedId then
      match abi.unpackGraduated(log.data)
      case None => Undecodable
      case Some(v) =>
        if |log.topics| < 2 then Undecodable
        else Event(Graduated(TokenGraduated(
          abi.topicAddress(log.topics[1]), v[0], v[1], v[2], key, log.block, time)))
    else Ignored
  }

  /** What one log contributes, without any cache. */
  function Decode(chain: Chain, log: Log): Decoded {
    if |log.topics| == 0 || log.removed then Ignored
    else DecodeProjection(chain.abi, log, BlockTime(chain.headerTime(log.block)))
  }

  /** The in-order filter-and-map over the logs. */
  function Events(chain: Chain, logs: seq<Log>): seq<Projection> {
    if logs == [] then []
    else
      var rest := Events(chain, logs[..|logs| - 1]);
      var d := Decode(chain, logs[|logs| - 1]);
      if d.Event? then rest + [d.p] else rest
  }

  ghost predicate AllDecodable(chain: Chain, logs: seq<Log>) {
    forall log <- logs :: !Decode(chain, log).Undecodable?
  }

  lemma {:induction false} EventsConcat(chain: Chain, a: seq<Log>, b: seq<Log>)
    ensures Events(chain, a + b) == Events(chain, a) + Events(chain, b)
    decreases |b|
  {
    if b == [] {
      assert a + b == a;
    } else {
      var n := |b| - 1;
      assert (a + b)[..|a + b| - 1] == a + b[..n];
      EventsConcat(chain, a, b[..n]);
      var d := Decode(chain, b[n]);
      if d.Event? {
        assert Events(chain, a + b) == Events(chain, a) + (Events(chain, b[..n]) + [d.p]);
      }
    }
  }

  /** Every event comes from a log, and every log that decodes to an event has it in the list. */
  lemma {:induction false} EventsAreDecodedLogs(chain: Chain, logs: seq<Log>)
    ensures forall p :: p in Events(chain, logs) <==> exists log <- logs :: Decode(chain, log) == Event(p)
  {
    if logs != [] {
      var n := |logs| - 1;
      EventsAreDecodedLogs(chain, logs[..n]);
      assert logs == logs[..n] + [logs[n]];
      forall p
        ensures p in Events(chain, logs) <==> exists log <- logs :: Decode(chain, log) == Event(p)
      {
        var d := Decode(chain, logs[n]);
        if p in Events(chain, logs) {
          if p in Events(chain, logs[..n]) {
            var log :| log in logs[..n] && Decode(chain, log) == Event(p);
            assert log in logs;
          } else {
            assert logs[n] in logs && d == Event(p);
          }
        }
        if log :| log in logs && Decode(chain, log) == Event(p) {
          assert log in logs[..n] || log == logs[n];
        }
      }
    }
  }

  // ---- the node -------------------------------------------------------------------------------

  /**
    Any call to the node may fail; when it answers, it answers from the chain. The head may move either
    way between calls; `headLimit` bounds the heads the node will ever report.
   */
  class Client {
    const chain: Chain
    const headLimit: nat
    const faults: Faults
    /** The head it last reported. */
    ghost var reported: nat

    constructor (chain: Chain, headLimit: nat, faults: Faults)
      ensures this.chain == chain && this.headLimit == headLimit && this.faults == faults
    {
      this.chain, this.headLimit, this.faults := chain, headLimit, faults;
    }

    method BlockNumber() returns (err: bool, head: nat)
      modifies this`reported, faults
      ensures reported == head
      ensures faults.count == old(faults.count) + if err then 1 else 0
      ensures head <= headLimit
    {
      err := faults.Occurs();
      head :| head <= headLimit;
      reported := head;
    }

    method HeaderByNumber(block: nat) returns (err: bool, time: nat)
      modifies faults
      ensures faults.count == old(faults.count) + if err then 1 else 0
      ensures time == chain.headerTime(block)
    {
      err := faults.Occurs();
      time := chain.headerTime(block);
    }

    method FilterLogs(from: nat, to: nat) returns (err: bool, logs: seq<Log>)
      modifies faults
      ensures faults.count == old(faults.count) + if err then 1 else 0
      ensures logs == LogsIn(chain, from, to + 1)
    {
      err := faults.Occurs();
      logs := LogsIn(chain, from, to + 1);
    }
  }

  // ---- committed ranges -----------------------------------------------------------------------

  /** Tables after the blocks `lo`, ..., `hi - 1` were saved in one transaction. */
  ghost function Commit(chain: Chain, src: Source, db: Tables, lo: nat, hi: nat): Tables {
    if hi <= lo then db
    else SaveRange(db, src, hi - 1, LogsIn(chain, lo, hi), Events(chain, LogsIn(chain, lo, hi)))
  }

  /** How a stretch of blocks is cut into transactions does not matter. */
  lemma CommitsCompose(chain: Chain, src: Source, db: Tables, lo: nat, mid: nat, hi: nat)
    requires lo <= mid <= hi
    ensures Commit(chain, src, Commit(chain, src, db, lo, mid), mid, hi) == Commit(chain, src, db, lo, hi)
  {
    hide SaveRange, ApplyAll, InsertLogs;
    if lo < mid < hi {
      var a, b := LogsIn(chain, lo, mid), LogsIn(chain, mid, hi);
      LogsInSplit(chain, lo, mid, hi);
      EventsConcat(chain, a, b);
      SaveRangesCompose(db, src, mid - 1, hi - 1, a, b, Events(chain, a), Events(chain, b));
    }
  }

  /** The blocks `lo`, ..., `hi - 1` decode and were saved on top of `before`, range by range. */
  ghost predicate SavedUpTo(chain: Chain, cfg: Config, before: Tables, db: Tables, lo: nat, hi: nat, ranges: seq<Range>) {
    && lo <= hi
    && db == Commit(chain, cfg.source, before, lo, hi)
    && AllDecodable(chain, LogsIn(chain, lo, hi))
    && Tiles(ranges, lo, hi, cfg.batch)
  }

  /** Every piece has the full batch size, unless the head ends it. */
  ghost predicate FullPieces(ranges: seq<Range>, head: nat, batch: nat) {
    forall r <- ranges :: r.to == head || r.to + 1 == r.from + batch
  }

  lemma NoPieces(batch: nat)
    ensures forall head :: FullPieces([], head, batch)
  {
  }

  lemma OneMorePiece(ranges: seq<Range>, r: Range, head: nat, batch: nat)
    requires FullPieces(ranges, head, batch) && (r.to == head || r.to + 1 == r.from + batch)
    ensures FullPieces(ranges + [r], head, batch)
  {
  }

  lemma SavedNothing(chain: Chain, cfg: Config, db: Tables, lo: nat)
    ensures SavedUpTo(chain, cfg, db, db, lo, lo, [])
  {
  }

  lemma SaveOneMore(chain: Chain, cfg: Config, before: Tables, db: Tables, after: Tables,
                    lo: nat, from: nat, to: nat, ranges: seq<Range>)
    requires SavedUpTo(chain, cfg, before, db, lo, from, ranges)
    requires from <= to < from + cfg.batch
    requires AllDecodable(chain, LogsIn(chain, from, to + 1))
    requires after == SaveRange(db, cfg.source, to, LogsIn(chain, from, to + 1), Events(chain, LogsIn(chain, from, to + 1)))
    ensures SavedUpTo(chain, cfg, before, after, lo, to + 1, ranges + [Range(from, to)])
  {
    hide SaveRange, Events, Decode;
    CommitsCompose(chain, cfg.source, before, lo, from, to + 1);
    LogsInSplit(chain, lo, from, to + 1);
    assert (ranges + [Range(from, to)])[..|ranges|] == ranges;
  }

  lemma DecodableParts(chain: Chain, lo: nat, mid: nat, hi: nat)
    requires lo <= mid <= hi && AllDecodable(chain, LogsIn(chain, lo, hi))
    ensures AllDecodable(chain, LogsIn(chain, lo, mid)) && AllDecodable(chain, LogsIn(chain, mid, hi))
  {
    hide LogsIn;
    LogsInSplit(chain, lo, mid, hi);
  }

  lemma NothingToDecode(chain: Chain, lo: nat, hi: nat)
    ensures hi <= lo ==> AllDecodable(chain, LogsIn(chain, lo, hi))
  {
  }

  /** A range that does not decode spoils every stretch around it. */
  lemma UndecodableRange(chain: Chain, lo: nat, from: nat, to: nat, hi: nat)
    requires lo <= from <= to <= hi && !AllDecodable(chain, LogsIn(chain, from, to))
    ensures !AllDecodable(chain, LogsIn(chain, lo, hi))
  {
    if AllDecodable(chain, LogsIn(chain, lo, hi)) {
      DecodableParts(chain, lo, from, hi);
      DecodableParts(chain, from, to, hi);
    }
  }

  // ---- the loop -------------------------------------------------------------------------------

  datatype Config = Config(source: Source, startBlock: Uint64, batch: Uint64)

  /** Where a starting process resumes. */
  function NextBlockOf(db: Tables, cfg: Config): nat {
    var key := CheckpointKey(cfg.source);
    if key in db.checkpoints then (db.checkpoints[key] + 1) % U64 else cfg.startBlock
  }

  /**
    After a range is saved, a process resumes behind it exactly when range end and cursor stay inside
    `uint64`; otherwise the saved checkpoint takes it back before the range.
   */
  lemma CheckpointAdvancesExactly(cfg: Config, db: Tables, next: nat, latest: Uint64, logs: seq<Log>, ps: seq<Projection>)
    requires next <= latest && cfg.batch >= 1
    ensures var end := RangeEnd(next, cfg.batch, latest);
            var resume := NextBlockOf(SaveRange(db, cfg.source, end, logs, ps), cfg);
            if next + cfg.batch - 1 < U64 && end + 1 < U64 then next < resume == end + 1 else resume < next
  {
    hide ApplyAll, InsertLogs;
    RangeEndExact(next, cfg.batch, latest);
  }

  class Indexer {
    const client: Client
    const repo: ChainEventRepository
    const cfg: Config

    constructor (client: Client, repo: ChainEventRepository, cfg: Config)
      ensures this.client == client && this.repo == repo && this.cfg == cfg
    {
      this.client, this.repo, this.cfg := client, repo, cfg;
    }

    method NextBlock() returns (err: bool, next: nat)
      modifies repo.faults
      ensures err <==> repo.faults.count > old(repo.faults.count)
      ensures !err ==> next == NextBlockOf(repo.db, cfg)
    {
      var failed, last, found := repo.LastSyncedBlock(cfg.source);
      if failed {
        return true, 0;
      }
      if found {
        return false, (last + 1) % U64;
      }
      return false, cfg.startBlock;
    }

    /**
      `decodeProjections`. Header times are fetched once per block and cached. The call fails exactly when
      the node refused a header or some log cannot be decoded.
     */
    method DecodeProjections(logs: seq<Log>) returns (err: bool, ps: seq<Projection>)
      modifies client.faults
      ensures client.faults.count >= old(client.faults.count)
      ensures err <==> client.faults.count > old(client.faults.count) || !AllDecodable(client.chain, logs)
      ensures !err ==> ps == Events(client.chain, logs)
    {
      var blockTimes: map<nat, Time> := map[];
      ps := [];
      for n := 0 to |logs|
        invariant client.faults.count == old(client.faults.count)
        invariant forall b <- blockTimes :: blockTimes[b] == BlockTime(client.chain.headerTime(b))
        invariant ps == Events(client.chain, logs[..n])
        invariant AllDecodable(client.chain, logs[..n])
      {
        var log := logs[n];
        assert logs[..n + 1][..n] == logs[..n] && logs[..n + 1] == logs[..n] + [log];
        if |log.topics| == 0 || log.removed {
          continue;
        }
        if log.block !in blockTimes {
          var failed, headerTime := client.HeaderByNumber(log.block);
          if failed {
            return true, [];
          }
          blockTimes := blockTimes[log.block := BlockTime(headerTime)];
        }
        var d := DecodeProjection(client.chain.abi, log, blockTimes[log.block]);
        if d.Undecodable? {
          assert log in logs;
          return true, [];
        }
        if d.Event? {
          ps := ps + [d.p];
        }
      }
      assert logs[..|logs|] == logs;
      return false, ps;
    }

    /**
      `syncAvailable`. When it returns without error everything up to the head it saw is saved; with an
      error a prefix is saved, at most one range further than the cursor. A range that does not decode
      stops the cursor in front of it.
     */
    method SyncAvailable(next0: nat) returns (err: bool, next: nat, ghost head: nat, ghost saved: nat, ghost ranges: seq<Range>)
      requires cfg.batch >= 1 && client.headLimit + cfg.batch <= U64 && client.headLimit + 1 < U64
      requires next0 < U64
      modifies repo, repo.faults, client`reported, client.faults
      ensures head == client.reported
      ensures client.faults.count >= old(client.faults.count) && repo.faults.count >= old(repo.faults.count)
      ensures err <==> || client.faults.count > old(client.faults.count) || repo.faults.count > old(repo.faults.count)
                       || !AllDecodable(client.chain, LogsIn(client.chain, next0, head + 1))
      ensures FullPieces(ranges, head, cfg.batch)
      ensures SavedUpTo(client.chain, cfg, old(repo.db), repo.db, next0, saved, ranges)
      ensures next0 <= next <= saved
      ensures !err ==> saved == next == if head < next0 then next0 else head + 1
      ensures err ==> saved == next || next < saved <= next + cfg.batch
      ensures saved == next0 || saved <= client.headLimit + 1
    {
      hide SaveRange, Commit, Tiles, LogsIn, Events, AllDecodable, FullPieces;
      next, saved, ranges := next0, next0, [];
      SavedNothing(client.chain, cfg, repo.db, next0);
      NoPieces(cfg.batch);
      var failed, latest := client.BlockNumber();
      head := latest;
      if failed {
        return true, next, head, saved, ranges;
      }
      while next <= latest
        invariant SavedUpTo(client.chain, cfg, old(repo.db), repo.db, next0, saved, ranges)
        invariant client.faults.count == old(client.faults.count) && repo.faults.count == old(repo.faults.count)
        invariant head == client.reported
        invariant FullPieces(ranges, head, cfg.batch)
        invariant next0 <= next == saved
        invariant next == next0 || next <= latest + 1
        decreases latest + 1 - next
      {
        RangeEndExact(next, cfg.batch, latest);
        var end := (next + cfg.batch - 1) % U64;
        if end > latest {
          end := latest;
        }
        var logs, ps;
        failed, logs := client.FilterLogs(next, end);
        if failed {
          return true, next, head, saved, ranges;
        }
        failed, ps := DecodeProjections(logs);
        if failed {
          if !AllDecodable(client.chain, logs) {
            UndecodableRange(client.chain, next0, next, end + 1, head + 1);
          }
          return true, next, head, saved, ranges;
        }
        ghost var before := repo.db;
        failed := repo.SaveBlockRange(cfg.source, end, logs, ps);
        if !failed || repo.db != before {
          SaveOneMore(client.chain, cfg, old(repo.db), before, repo.db, next0, next, end, ranges);
          OneMorePiece(ranges, Range(next, end), head, cfg.batch);
          saved, ranges := end + 1, ranges + [Range(next, end)];
        }
        if failed {
          return true, next, head, saved, ranges;
        }
        next := (end + 1) % U64;
      }
      NothingToDecode(client.chain, next0, head + 1);
      return false, next, head, saved, ranges;
    }
  }
}
