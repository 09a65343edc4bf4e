/**
  What the logs of the contract say, read off their topics and unpacked values. The read models are
  stated in these terms in `LogRows`, `LogCandles` and `TokenHistory`.
 */
module LogFields {
  import opened Common
  import opened GoTime
  import opened Price
  import opened ChainEvents
  import opened ChainIndexer

  // ---- kinds of logs --------------------------------------------------------------------------

  /** Logs without topics and logs of abandoned blocks are skipped. */
  predicate Counts(log: Log) { |log.topics| > 0 && !log.removed }

  predicate IsCreation(abi: Abi, log: Log) { Counts(log) && log.topics[0] == abi.createdId }

  predicate IsBuy(abi: Abi, log: Log) { Counts(log) && log.topics[0] == abi.boughtId && !IsCreation(abi, log) }

  predicate IsSale(abi: Abi, log: Log) {
    Counts(log) && log.topics[0] == abi.soldId && !IsCreation(abi, log) && !IsBuy(abi, log)
  }

  predicate IsTrade(abi: Abi, log: Log) { IsBuy(abi, log) || IsSale(abi, log) }

  predicate IsGraduation(abi: Abi, log: Log) {
    Counts(log) && log.topics[0] == abi.graduatedId && !IsCreation(abi, log) && !IsTrade(abi, log)
  }

  /** Its values can be unpacked and its indexed arguments are there. */
  predicate Readable(abi: Abi, log: Log) {
    && (IsCreation(abi, log) ==> abi.unpackCreated(log.data).Some? && |log.topics| >= 3)
    && (IsBuy(abi, log) ==> abi.unpackBought(log.data).Some? && |log.topics| >= 3)
    && (IsSale(abi, log) ==> abi.unpackSold(log.data).Some? && |log.topics| >= 3)
    && (IsGraduation(abi, log) ==> abi.unpackGraduated(log.data).Some? && |log.topics| >= 2)
  }

  /** Decoding fails exactly on known events that are not readable. */
  lemma DecodableExactly(chain: Chain, logs: seq<Log>)
    ensures AllDecodable(chain, logs) <==> forall log <- logs :: Readable(chain.abi, log)
  {
    forall log <- logs
      ensures Decode(chain, log).Undecodable? <==> !Readable(chain.abi, log)
    {
    }
  }

  // ---- fields ---------------------------------------------------------------------------------

  function KeyIn(log: Log): EventKey { EventKey(log.tx, log.index) }

  function TimeOf(chain: Chain, log: Log): Time { BlockTime(chain.headerTime(log.block)) }

  /** The token of a creation, trade or graduation. */
  function TokenIn(abi: Abi, log: Log): string
    requires |log.topics| >= 2
  {
    Lower(abi.topicAddress(log.topics[1]))
  }

  function UserIn(abi: Abi, log: Log): string
    requires |log.topics| >= 3
  {
    Lower(abi.topicAddress(log.topics[2]))
  }

  function CreationIn(abi: Abi, log: Log): CreatedData
    requires IsCreation(abi, log) && Readable(abi, log)
  {
    abi.unpackCreated(log.data).value
  }

  /** The seven numbers of a trade: the two amounts, fee, two reserves, available tokens, collected coins. */
  function NumbersIn(abi: Abi, log: Log): Seven
    requires IsTrade(abi, log) && Readable(abi, log)
  {
    if IsBuy(abi, log) then abi.unpackBought(log.data).value else abi.unpackSold(log.data).value
  }

  /** A purchase names the coins first, a sale names the tokens first. */
  function CoinsIn(abi: Abi, log: Log): BigInt
    requires IsTrade(abi, log) && Readable(abi, log)
  {
    NumbersIn(abi, log)[if IsBuy(abi, log) then 0 else 1]
  }

  function TokensIn(abi: Abi, log: Log): BigInt
    requires IsTrade(abi, log) && Readable(abi, log)
  {
    NumbersIn(abi, log)[if IsBuy(abi, log) then 1 else 0]
  }

  /** A creation, trade or graduation of the token. */
  predicate Names(abi: Abi, log: Log, token: string) {
    && (IsCreation(abi, log) || IsTrade(abi, log) || IsGraduation(abi, log))
    && |log.topics| >= 2 && TokenIn(abi, log) == token
  }

  /** The price column: 0 without amounts or for no tokens, and else the multiple of 10^-18 nearest to the ratio. */
  ghost predicate IsPrice(coins: BigInt, tokens: BigInt, price: int) {
    if coins.Nil? || tokens.Nil? || tokens.v == 0 then price == 0 else IsNearest(coins.v, tokens.v, price)
  }

  /** There is one such price. */
  lemma PriceIsThe(coins: BigInt, tokens: BigInt, price: int)
    ensures IsPrice(coins, tokens, price) <==> price == PriceOf(coins, tokens)
  {
    if !(coins.Nil? || tokens.Nil? || tokens.v == 0) {
      RatioIsNearest(coins.v, tokens.v, price);
    }
  }

  // ---- block times ----------------------------------------------------------------------------

  /** Header seconds that fit in `int64` are the Unix time of the block, counted from 1 January 1970. */
  lemma BlockTimeReads(headerTime: nat)
    requires headerTime < U64
    ensures FromUnix(0) == Date(1970, 1, 1, 0, 0, 0, 0)
    ensures headerTime < U64 / 2 ==> BlockTime(headerTime) == Date(1970, 1, 1, 0, 0, headerTime, 0) && ToUnix(BlockTime(headerTime)) == headerTime
    ensures headerTime >= U64 / 2 ==> ToUnix(BlockTime(headerTime)) == headerTime - U64
  {
  }

  // ---- what decoding yields -------------------------------------------------------------------

  /** The decoded trade has the fields of the log. */
  predicate TradeReads(chain: Chain, log: Log, e: TokenTrade)
    requires IsTrade(chain.abi, log) && Readable(chain.abi, log)
  {
    var v := NumbersIn(chain.abi, log);
    && Lower(e.token) == TokenIn(chain.abi, log) && Lower(e.user) == UserIn(chain.abi, log)
    && e.tradeType == (if IsBuy(chain.abi, log) then 10 else 20)
    && e.bnb == CoinsIn(chain.abi, log) && e.amount == TokensIn(chain.abi, log) && e.fee == v[2]
    && e.virtualBnb == v[3] && e.virtualToken == v[4] && e.available == v[5] && e.collected == v[6]
    && e.key == KeyIn(log) && e.block == log.block && e.time == TimeOf(chain, log)
  }

  predicate CreationReads(chain: Chain, log: Log, e: TokenCreated)
    requires IsCreation(chain.abi, log) && Readable(chain.abi, log)
  {
    var v := CreationIn(chain.abi, log);
    && Lower(e.token) == TokenIn(chain.abi, log) && Lower(e.creator) == UserIn(chain.abi, log)
    && e.name == v.name && e.symbol == v.symbol && e.totalSupply == v.totalSupply && e.requestId == v.requestId
    && e.key == KeyIn(log) && e.block == log.block && e.time == TimeOf(chain, log)
    && e.initialTarget == Nil && e.initialCurrent == Nil && e.initialAvailable == Nil && e.launchMode == 0 && e.status == 0
  }

  predicate GraduationReads(chain: Chain, log: Log, e: TokenGraduated)
    requires IsGraduation(chain.abi, log) && Readable(chain.abi, log)
  {
    var v := chain.abi.unpackGraduated(log.data).value;
    && Lower(e.token) == TokenIn(chain.abi, log)
    && e.liquidityBnb == v[0] && e.liquidityTokens == v[1] && e.liquidityResult == v[2]
    && e.key == KeyIn(log) && e.block == log.block && e.time == TimeOf(chain, log)
  }

  predicate Reads(chain: Chain, log: Log, d: Decoded)
    requires Readable(chain.abi, log)
  {
    && (IsCreation(chain.abi, log) ==> d.Event? && d.p.Created? && CreationReads(chain, log, d.p.c))
    && (IsBuy(chain.abi, log) ==> d.Event? && d.p.Bought? && TradeReads(chain, log, d.p.t))
    && (IsSale(chain.abi, log) ==> d.Event? && d.p.Sold? && TradeReads(chain, log, d.p.t))
    && (IsGraduation(chain.abi, log) ==> d.Event? && d.p.Graduated? && GraduationReads(chain, log, d.p.g))
    && (!IsCreation(chain.abi, log) && !IsTrade(chain.abi, log) && !IsGraduation(chain.abi, log) ==> d.Ignored?)
  }

  /** A readable log decodes to the event of its kind with its fields, and to nothing if it has no kind. */
  lemma DecodeReads(chain: Chain, log: Log)
    requires Readable(chain.abi, log)
    ensures Reads(chain, log, Decode(chain, log))
  {
    hide BlockTime;
  }
}
