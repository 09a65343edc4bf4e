/**
  A chain and a run whose token rows go back while old blocks are read again.
 */
module Rereading {
  import opened Common
  import opened Price
  import opened ChainEvents
  import opened ChainIndexer
  import opened TokenRows
  import opened TokenRepair
  import opened Exactness

  /** Trades that report as many collected coins as their data has characters. */
  const ABI := Abi("created", "bought", "sold", "graduated",
                   data => Some(CreatedData("name", "symbol", Nil, data)),
                   data => Some([Nil, Nil, Nil, Nil, Nil, Nil, Big(|data|)]),
                   data => Some([Nil, Nil, Nil, Nil, Nil, Nil, Big(|data|)]),
                   data => Some([Nil, Nil, Nil]),
                   topic => topic)

  function LogAt(block: nat, topic: string, data: string): Log {
    Log([topic, "token", "user"], data, block, "hash", "tx", block, false)
  }

  /** One token: created in block 0, bought in block 1 and again in block 2. */
  const CHAIN := Chain(ABI,
                       block => if block == 0 then [LogAt(0, "created", "")]
                                else if block == 1 then [LogAt(1, "bought", "1")]
                                else if block == 2 then [LogAt(2, "bought", "12")]
                                else [],
                       block => block)

  const WORLD := World(CHAIN, Source(1, "core"), 0)

  /** One process reads everything. */
  const READ_ONCE := [Start(0), Save(0, 3, 2, true)]

  /** Then the checkpoint is deleted, and a new process has so far read the first two blocks. */
  const REREAD := Save(1, 2, 1, true)
  ghost const BEHIND := Again(READ_ONCE, REREAD)

  lemma LogsOfTheChain()
    ensures LogsIn(CHAIN, 0, 2) == [LogAt(0, "created", ""), LogAt(1, "bought", "1")]
    ensures LogsIn(CHAIN, 0, 3) == [LogAt(0, "created", ""), LogAt(1, "bought", "1"), LogAt(2, "bought", "12")]
  {
    assert LogsIn(CHAIN, 0, 0) == [];
    assert LogsIn(CHAIN, 0, 1) == LogsIn(CHAIN, 0, 0) + CHAIN.logsOf(0);
    assert LogsIn(CHAIN, 0, 2) == LogsIn(CHAIN, 0, 1) + CHAIN.logsOf(1);
    assert LogsIn(CHAIN, 0, 3) == LogsIn(CHAIN, 0, 2) + CHAIN.logsOf(2);
  }

  lemma EventsOfTheChain() returns (e: TokenCreated, first: TokenTrade, second: TokenTrade)
    ensures EventsIn(CHAIN, 0, 3) == [Created(e), Bought(first), Bought(second)]
    ensures EventsIn(CHAIN, 0, 2) == [Created(e), Bought(first)]
    ensures e.token == first.token == second.token == "token"
    ensures IntValue(first.collected) == 1 && IntValue(second.collected) == 2
    ensures AllDecodable(CHAIN, LogsIn(CHAIN, 0, 3)) && AllDecodable(CHAIN, LogsIn(CHAIN, 0, 2))
  {
    hide LogsIn, BlockTime;
    LogsOfTheChain();
    var a, b, c := LogAt(0, "created", ""), LogAt(1, "bought", "1"), LogAt(2, "bought", "12");
    assert [a, b, c][..2] == [a, b] && [a, b][..1] == [a] && [a][..0] == [];
    e, first, second := Decode(CHAIN, a).p.c, Decode(CHAIN, b).p.t, Decode(CHAIN, c).p.t;
    assert Events(CHAIN, [a]) == [Created(e)];
    assert Events(CHAIN, [a, b]) == [Created(e), Bought(first)];
  }

  /** The first process saves all three blocks. */
  lemma StateBefore()
    ensures Run(WORLD, READ_ONCE).db == Commit(CHAIN, WORLD.src, EMPTY, 0, 3)
    ensures RunMarks(WORLD, READ_ONCE).top == 3
  {
    hide Commit, LogsIn, AllDecodable;
    var e, first, second := EventsOfTheChain();
    assert READ_ONCE[..1] == [Start(0)] && READ_ONCE[..1][..0] == [];
    assert Run(WORLD, READ_ONCE[..1]) == System(EMPTY, map[0 := 0]);
    assert RunMarks(WORLD, READ_ONCE[..1]) == Marks(0, 0);
  }

  lemma {:induction false} NoMoreLogs(hi: nat)
    ensures LogsIn(CHAIN, 0, if hi < 3 then hi else 3) == LogsIn(CHAIN, 0, hi)
  {
    if hi > 3 {
      NoMoreLogs(hi - 1);
      assert LogsIn(CHAIN, 0, hi) == LogsIn(CHAIN, 0, hi - 1) + CHAIN.logsOf(hi - 1);
    }
  }

  /** The token is created before it is traded. */
  lemma CreatedBeforeTraded()
    ensures CreationsFirst(CHAIN, 0)
  {
    hide LogsIn, Decode;
    var e, first, second := EventsOfTheChain();
    forall token, hi
      ensures CreatedFirst(EventsIn(CHAIN, 0, hi), token)
    {
      NoMoreLogs(hi);
      FirstLogs();
      ThreeEvents(e, first, second, token);
    }
  }

  lemma FirstLogs()
    ensures EventsIn(CHAIN, 0, 0) == []
    ensures exists e :: EventsIn(CHAIN, 0, 1) == [Created(e)]
  {
    hide BlockTime;
    var a := LogAt(0, "created", "");
    assert LogsIn(CHAIN, 0, 1) == LogsIn(CHAIN, 0, 0) + CHAIN.logsOf(0) == [a];
    assert [a][..0] == [];
    assert EventsIn(CHAIN, 0, 1) == [Created(Decode(CHAIN, a).p.c)];
  }

  lemma ThreeEvents(e: TokenCreated, first: TokenTrade, second: TokenTrade, token: string)
    ensures CreatedFirst([], token)
    ensures forall c :: CreatedFirst([Created(c)], token)
    ensures CreatedFirst([Created(e), Bought(first)], token)
    ensures CreatedFirst([Created(e), Bought(first), Bought(second)], token)
  {
    var one, two, three := [Created(e)], [Created(e), Bought(first)], [Created(e), Bought(first), Bought(second)];
    assert three[..2] == two && two[..1] == one;
    forall c
      ensures CreatedFirst([Created(c)], token)
    {
      assert [Created(c)][..0] == [];
    }
  }

  /** A reachable state whose token table is not exact: a row shows the totals of block 1 instead of block 2. */
  lemma RereadingLagsBehind()
    ensures CreationsFirst(CHAIN, 0)
    ensures RunMarks(WORLD, BEHIND).top == 3
    ensures Run(WORLD, BEHIND).db.tokens != OnePass(CHAIN, WORLD.src, 0, 3).tokens
  {
    hide Commit, Run, RunMarks, OnePass, EventsIn, RowFold, CreationsFirst;
    CreatedBeforeTraded();
    var e, first, second := EventsOfTheChain();
    StateBefore();
    ShortReread(WORLD, READ_ONCE, REREAD);
    var db := Run(WORLD, READ_ONCE + [DeleteCheckpoint, Start(1)]).db;
    var token := Lower("token");
    OnePassRow(CHAIN, WORLD.src, 0, 3, token);
    CommitOnRow(CHAIN, WORLD.src, EMPTY, 0, 3, token);
    CommitOnRow(CHAIN, WORLD.src, db, 0, 2, token);
    PartialRereadRewinds(e, first, second);
    assert EventsIn(CHAIN, 0, 3)[..2] == EventsIn(CHAIN, 0, 2);
  }
}
