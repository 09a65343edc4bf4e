/**
  Token rows in every reachable state, column by column in terms of the logs that were read.
 */
module TokenHistory {
  import opened Common
  import opened GoTime
  import opened Price
  import opened ChainEvents
  import opened ChainIndexer
  import opened TokenRows
  import opened TokenRepair
  import opened Exactness
  import opened LogFields

  // ---- logs of a token ------------------------------------------------------------------------

  predicate Creation(abi: Abi, log: Log, token: string) {
    IsCreation(abi, log) && Readable(abi, log) && Names(abi, log, token)
  }

  predicate Trade(abi: Abi, log: Log, token: string) {
    IsTrade(abi, log) && Readable(abi, log) && Names(abi, log, token)
  }

  predicate Graduation(abi: Abi, log: Log, token: string) {
    IsGraduation(abi, log) && Readable(abi, log) && Names(abi, log, token)
  }

  datatype Kind = ACreation | ATrade | AGraduation | Any

  predicate OfKind(abi: Abi, log: Log, token: string, kind: Kind) {
    match kind
    case ACreation => Creation(abi, log, token)
    case ATrade => Trade(abi, log, token)
    case AGraduation => Graduation(abi, log, token)
    case Any => Creation(abi, log, token) || Trade(abi, log, token) || Graduation(abi, log, token)
  }

  /** The last log of the kind. */
  function LastOf(abi: Abi, logs: seq<Log>, token: string, kind: Kind): (r: Option<Log>)
    ensures r.Some? ==> r.value in logs && OfKind(abi, r.value, token, kind)
  {
    if logs == [] then None
    else if OfKind(abi, logs[|logs| - 1], token, kind) then Some(logs[|logs| - 1])
    else LastOf(abi, logs[..|logs| - 1], token, kind)
  }

  /** The first creation. */
  function FirstCreationIn(abi: Abi, logs: seq<Log>, token: string): (r: Option<Log>)
    ensures r.Some? ==> r.value in logs && Creation(abi, r.value, token)
  {
    if logs == [] then None
    else
      var first := FirstCreationIn(abi, logs[..|logs| - 1], token);
      if first.Some? then first
      else if Creation(abi, logs[|logs| - 1], token) then Some(logs[|logs| - 1])
      else None
  }

  /** No other log of a token comes before its first creation. */
  ghost predicate CreationLeads(abi: Abi, logs: seq<Log>, token: string) {
    forall i, j :: 0 <= i < j < |logs| && OfKind(abi, logs[i], token, Any) && Creation(abi, logs[j], token) ==>
      exists k | 0 <= k <= i :: Creation(abi, logs[k], token)
  }

  ghost predicate CreationsLead(chain: Chain, start: nat) {
    forall token, hi :: CreationLeads(chain.abi, LogsIn(chain, start, hi), token)
  }

  // ---- the columns ----------------------------------------------------------------------------

  /**
    The row of a token first created by `first`, when the logs `read` were read one after the other:
    identity from the last creation, totals from the last trade or 0, status from any graduation.
   */
  predicate RowOfLogs(chain: Chain, row: TokenRow, first: Log, read: seq<Log>, token: string) {
    && row.launchMode == 1
    && row.bnbTarget == 24_000_000_000_000_000_000
    && row.createdAt == BlockTime(chain.headerTime(first.block))
    && (match LastOf(chain.abi, read, token, ACreation)
        case None => false
        case Some(log) =>
          var v := chain.abi.unpackCreated(log.data).value;
          && row.name == v.name && row.symbol == v.symbol && row.totalSupply == IntValue(v.totalSupply)
          && row.creator == Lower(chain.abi.topicAddress(log.topics[2])))
    && (match LastOf(chain.abi, read, token, ATrade)
        case None => row.bnbCurrent == 0 && row.available == 0
        case Some(log) =>
          var v := if IsBuy(chain.abi, log) then chain.abi.unpackBought(log.data).value else chain.abi.unpackSold(log.data).value;
          row.bnbCurrent == IntValue(v[6]) && row.available == IntValue(v[5]))
    && row.status == (if LastOf(chain.abi, read, token, AGraduation).Some? then 3 else 1)
    && (match LastOf(chain.abi, read, token, Any)
        case None => false
        case Some(log) => row.updatedAt == BlockTime(chain.headerTime(log.block)))
  }

  // ---- writes of logs -------------------------------------------------------------------------

  /** What the events of the logs write, in terms of the logs. */
  predicate WritesRead(chain: Chain, logs: seq<Log>, token: string, w: Writes) {
    && (match LastOf(chain.abi, logs, token, ACreation)
        case None => w.identity == None
        case Some(log) =>
          var v := chain.abi.unpackCreated(log.data).value;
          w.identity == Some(Identity(v.name, v.symbol, Lower(chain.abi.topicAddress(log.topics[2])), IntValue(v.totalSupply))))
    && (match LastOf(chain.abi, logs, token, ATrade)
        case None => w.totals == None
        case Some(log) =>
          var v := if IsBuy(chain.abi, log) then chain.abi.unpackBought(log.data).value else chain.abi.unpackSold(log.data).value;
          w.totals == Some(Totals(IntValue(v[6]), IntValue(v[5]))))
    && (w.graduated <==> LastOf(chain.abi, logs, token, AGraduation).Some?)
    && (match LastOf(chain.abi, logs, token, Any)
        case None => w.touched == None
        case Some(log) => w.touched == Some(BlockTime(chain.headerTime(log.block))))
  }

  lemma OneLogWrites(chain: Chain, log: Log, token: string)
    requires Readable(chain.abi, log)
    ensures WritesRead(chain, [log], token,
                       if Decode(chain, log).Event? then WritesOf(Decode(chain, log).p, token) else NO_WRITES)
  {
    hide BlockTime, Decode;
    DecodeReads(chain, log);
    assert [log][..0] == [];
  }

  lemma LastOneMore(abi: Abi, logs: seq<Log>, log: Log, token: string, kind: Kind)
    ensures LastOf(abi, logs + [log], token, kind)
         == if LastOf(abi, [log], token, kind).Some? then LastOf(abi, [log], token, kind) else LastOf(abi, logs, token, kind)
  {
    assert (logs + [log])[..|logs|] == logs && [log][..0] == [];
  }

  lemma WritesJoin(chain: Chain, logs: seq<Log>, log: Log, token: string, w: Writes, v: Writes)
    requires WritesRead(chain, logs, token, w) && WritesRead(chain, [log], token, v)
    ensures WritesRead(chain, logs + [log], token, Join(w, v))
  {
    hide LastOf, BlockTime;
    LastOneMore(chain.abi, logs, log, token, ACreation);
    LastOneMore(chain.abi, logs, log, token, ATrade);
    LastOneMore(chain.abi, logs, log, token, AGraduation);
    LastOneMore(chain.abi, logs, log, token, Any);
  }

  lemma NoLogsWrite(chain: Chain, token: string)
    ensures WritesRead(chain, [], token, NO_WRITES)
  {
  }

  lemma {:induction false} AllWritesRead(chain: Chain, logs: seq<Log>, token: string)
    requires forall log <- logs :: Readable(chain.abi, log)
    ensures WritesRead(chain, logs, token, AllWrites(Events(chain, logs), token))
  {
    hide WritesRead, Decode, Readable, WritesOf;
    if logs == [] {
      NoLogsWrite(chain, token);
    } else {
      var init, log := logs[..|logs| - 1], logs[|logs| - 1];
      assert logs == init + [log];
      AllWritesRead(chain, init, token);
      OneLogWrites(chain, log, token);
      var ps, d := Events(chain, init), Decode(chain, log);
      var w := if d.Event? then WritesOf(d.p, token) else NO_WRITES;
      WritesJoin(chain, init, log, token, AllWrites(ps, token), w);
      if d.Event? {
        assert (ps + [d.p])[..|ps|] == ps;
      } else {
        assert Join(AllWrites(ps, token), NO_WRITES) == AllWrites(ps, token);
      }
    }
  }

  // ---- the first creation ---------------------------------------------------------------------

  lemma CreationDecodes(chain: Chain, log: Log, token: string)
    ensures var d := Decode(chain, log);
            && (Creation(chain.abi, log, token) <==> d.Event? && Creates(d.p, token))
            && (OfKind(chain.abi, log, token, Any) <==> d.Event? && TokenOf(d.p) == Some(token))
            && (Creation(chain.abi, log, token) ==> CreationReads(chain, log, d.p.c))
  {
    hide BlockTime, Decode;
    DecodableExactly(chain, [log]);
    assert log in [log];
    if Readable(chain.abi, log) {
      DecodeReads(chain, log);
    }
  }

  lemma {:induction false} FirstCreationReads(chain: Chain, logs: seq<Log>, token: string)
    ensures var first, e := FirstCreationIn(chain.abi, logs, token), FirstCreation(Events(chain, logs), token);
            && (first.Some? <==> e.Some?)
            && (first.Some? ==> CreationReads(chain, first.value, e.value))
  {
    hide Decode, Readable, CreationReads, Creation;
    if logs != [] {
      var init, log := logs[..|logs| - 1], logs[|logs| - 1];
      assert logs == init + [log];
      FirstCreationReads(chain, init, token);
      CreationDecodes(chain, log, token);
      var ps, d := Events(chain, init), Decode(chain, log);
      if d.Event? {
        assert (ps + [d.p])[..|ps|] == ps;
      }
    }
  }

  /** If the logs of a token start with its creation, so do its events. */
  lemma {:induction false} CreatedFirstInLogs(chain: Chain, logs: seq<Log>, token: string)
    requires CreationLeads(chain.abi, logs, token)
    ensures CreatedFirst(Events(chain, logs), token)
  {
    hide Decode, Readable, Creation, OfKind;
    if logs != [] {
      var n := |logs| - 1;
      var init, log := logs[..n], logs[n];
      assert logs == init + [log];
      LeadsBefore(chain.abi, init, log, token);
      CreatedFirstInLogs(chain, init, token);
      CreationDecodes(chain, log, token);
      var ps, d := Events(chain, init), Decode(chain, log);
      if d.Event? {
        assert (ps + [d.p])[..|ps|] == ps;
        if Creates(d.p, token) && !HasCreation(ps, token) {
          forall p <- ps
            ensures TokenOf(p) != Some(token)
          {
            EarlierEvent(chain, init, log, token, p);
          }
        }
      }
    }
  }

  lemma LeadsBefore(abi: Abi, init: seq<Log>, log: Log, token: string)
    requires CreationLeads(abi, init + [log], token)
    ensures CreationLeads(abi, init, token)
  {
    hide Creation, OfKind;
    var logs := init + [log];
    forall i, j | 0 <= i < j < |init| && OfKind(abi, init[i], token, Any) && Creation(abi, init[j], token)
      ensures exists k | 0 <= k <= i :: Creation(abi, init[k], token)
    {
      assert logs[i] == init[i] && logs[j] == init[j];
      var k :| 0 <= k <= i && Creation(abi, logs[k], token);
      assert logs[k] == init[k];
    }
  }

  /** An event before the first creation is not of the token. */
  lemma EarlierEvent(chain: Chain, init: seq<Log>, log: Log, token: string, p: Projection)
    requires CreationLeads(chain.abi, init + [log], token) && Creation(chain.abi, log, token)
    requires p in Events(chain, init) && !HasCreation(Events(chain, init), token)
    ensures TokenOf(p) != Some(token)
  {
    hide Decode, Readable, Creation, OfKind, Events;
    if TokenOf(p) == Some(token) {
      EventsAreDecodedLogs(chain, init);
      var x :| x in init && Decode(chain, x) == Event(p);
      var i :| 0 <= i < |init| && init[i] == x;
      CreationDecodes(chain, x, token);
      var logs := init + [log];
      assert logs[i] == x && logs[|init|] == log;
      var k :| 0 <= k <= i && Creation(chain.abi, logs[k], token);
      assert logs[k] == init[k] && init[k] in init;
      CreationDecodes(chain, init[k], token);
    }
  }

  lemma CreationsLeadEvents(chain: Chain, start: nat)
    requires CreationsLead(chain, start)
    ensures CreationsFirst(chain, start)
  {
    hide LogsIn, CreationLeads, CreatedFirst;
    forall token, hi
      ensures CreatedFirst(EventsIn(chain, start, hi), token)
    {
      CreatedFirstInLogs(chain, LogsIn(chain, start, hi), token);
    }
  }

  // ---- any run --------------------------------------------------------------------------------

  /** The logs a run committed, in the order of the commits. */
  ghost function ReadLogs(w: World, steps: seq<Step>): seq<Log>
    requires forall step <- steps :: NoWrap(step)
  {
    if steps == [] then []
    else
      var before := ReadLogs(w, steps[..|steps| - 1]);
      match Committed(w, Run(w, steps[..|steps| - 1]), steps[|steps| - 1])
      case None => before
      case Some(r) => before + LogsIn(w.chain, r.from, r.to + 1)
  }

  lemma {:induction false} ReadLogsWrite(w: World, steps: seq<Step>, token: string)
    requires forall step <- steps :: NoWrap(step)
    ensures forall log <- ReadLogs(w, steps) :: Readable(w.chain.abi, log)
    ensures RunWrites(w, steps, token) == AllWrites(Events(w.chain, ReadLogs(w, steps)), token)
  {
    hide Run, LogsIn, Events, AllWrites, Readable, Decode;
    if steps == [] {
      NothingWritten(w.chain, token);
    } else {
      var init, step := steps[..|steps| - 1], steps[|steps| - 1];
      var s := Run(w, init);
      ReadLogsWrite(w, init, token);
      if Committed(w, s, step).Some? {
        var r := Committed(w, s, step).value;
        var before, more := ReadLogs(w, init), LogsIn(w.chain, r.from, r.to + 1);
        DecodableExactly(w.chain, more);
        EventsConcat(w.chain, before, more);
        AllWritesConcat(Events(w.chain, before), Events(w.chain, more), token);
      }
    }
  }

  lemma NothingWritten(chain: Chain, token: string)
    ensures AllWrites(Events(chain, []), token) == NO_WRITES
  {
  }

  lemma {:induction false} FirstAndLast(abi: Abi, logs: seq<Log>, token: string)
    ensures FirstCreationIn(abi, logs, token).Some? <==> LastOf(abi, logs, token, ACreation).Some?
    ensures LastOf(abi, logs, token, ACreation).Some? ==> LastOf(abi, logs, token, Any).Some?
  {
    hide Creation, Trade, Graduation;
    if logs != [] {
      FirstAndLast(abi, logs[..|logs| - 1], token);
    }
  }

  /** A first creation overlaid with writes of the same kinds as those of all blocks. */
  lemma OverlayReads(chain: Chain, all: seq<Log>, read: seq<Log>, token: string, first: Log, e: TokenCreated, w: Writes, v: Writes)
    requires WritesRead(chain, read, token, w) && WritesRead(chain, all, token, v) && SameKinds(w, v)
    requires FirstCreationIn(chain.abi, all, token) == Some(first) && CreationReads(chain, first, e)
    ensures RowOfLogs(chain, Overlay(InitialTokenRow(e), w), first, read, token)
  {
    hide BlockTime, LastOf, FirstCreationIn;
    FirstAndLast(chain.abi, all, token);
    FirstAndLast(chain.abi, read, token);
  }

  /**
    Main result on token rows in terms of the chain: if the logs of every token start with its creation,
    then in every reachable state there is a row exactly for each token created in the applied blocks, and
    each column is that of the first creation, or of the last log of its kind in the order they were read.
    So until a trade is read the totals are 0.
   */
  lemma TokenRowsFromLogs(w: World, steps: seq<Step>, token: string)
    requires forall step <- steps :: NoWrap(step)
    requires CreationsLead(w.chain, w.start)
    ensures var row := Get(Run(w, steps).db.tokens, token);
            match FirstCreationIn(w.chain.abi, LogsIn(w.chain, w.start, RunMarks(w, steps).top), token)
            case None => row == None
            case Some(first) => row.Some? && RowOfLogs(w.chain, row.value, first, ReadLogs(w, steps), token)
  {
    hide Run, RunMarks, LogsIn, Events, CreationsLead, CreationsFirst, AllWrites, WritesRead, Readable, CreationReads,
      RowOfLogs, Overlay, InitialTokenRow, ReadLogs, RunWrites, Decode;
    var all, read := LogsIn(w.chain, w.start, RunMarks(w, steps).top), ReadLogs(w, steps);
    CreationsLeadEvents(w.chain, w.start);
    RowsOfRun(w, steps, token);
    RunsApplyAPrefix(w, steps);
    DecodableExactly(w.chain, all);
    FirstCreationReads(w.chain, all, token);
    AllWritesRead(w.chain, all, token);
    ReadLogsWrite(w, steps, token);
    AllWritesRead(w.chain, read, token);
    var first, e := FirstCreationIn(w.chain.abi, all, token), FirstCreation(Events(w.chain, all), token);
    if first.Some? {
      OverlayReads(w.chain, all, read, token, first.value, e.value, RunWrites(w, steps, token), WritesIn(w.chain, token, w.start, RunMarks(w, steps).top));
    }
  }

  /** One process at a time reads the logs of the applied blocks once and in order. */
  lemma {:induction false} ReadInOrder(w: World, steps: seq<Step>)
    requires forall step <- steps :: NoWrap(step)
    requires OneAtATime(w, steps)
    ensures ReadLogs(w, steps) == LogsIn(w.chain, w.start, RunMarks(w, steps).top)
  {
    hide OnePass, Commit, LogsIn;
    if steps == [] {
      assert LogsIn(w.chain, w.start, w.start) == [] by {
        NoLogs(w.chain, w.start);
      }
    } else {
      var init, step := steps[..|steps| - 1], steps[|steps| - 1];
      var s := Run(w, init);
      ReadInOrder(w, init);
      TopIsCursor(w, init);
      WholeRunExactness(w, init);
      if Committed(w, s, step).Some? {
        var Range(lo, to) := Committed(w, s, step).value;
        RangeEndExact(lo, step.batch, step.head);
        LogsInSplit(w.chain, w.start, lo, to + 1);
      }
    }
  }

  lemma NoLogs(chain: Chain, lo: nat)
    ensures LogsIn(chain, lo, lo) == []
  {
  }
}
