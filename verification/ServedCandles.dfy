/**
  The candles the indexer keeps, as paging shows them.
 */
module ServedCandles {
  import opened Common
  import opened GoTime
  import opened Intervals
  import opened ChainEvents
  import opened ChainIndexer
  import opened TokenRepair
  import opened Candles
  import opened RollUp
  import opened Exactness
  import opened ReadModels
  import opened SignInText
  import opened KlinePages
  import opened KlineWalks
  import opened PagingLimits

  lemma AlignedIsWholeSecond(t: Time, i: Interval)
    ensures AlignTime(t, i) % SECOND == 0
  {
    hide AlignTime, Span;
    var b := AlignTime(t, i);
    GreatestBucketStart(t, i, b);
    CoarseIsFine(b, MINUTE, Span(i));
    CoarseIsFine(b, SECOND, MINUTE);
  }

  /** Tables that summarise trades have whole-second open times and no two candles of a token that open together. */
  lemma CandleTablesCanBePaged(klines: Klines, ps: seq<Projection>, token: string, i: Interval, cursor: Option<Time>)
    requires CandlesSummarise(klines, ps)
    ensures NoTies(Matching(klines, token, i, cursor))
    ensures forall k <- Matching(klines, token, i, cursor) :: k.token == Lower(token)
    ensures forall k <- Matching(klines, token, i, cursor) :: k.open % SECOND == 0
  {
    hide AlignTime, Summarises;
    forall k <- klines
      ensures Lower(k.token) == k.token && k.open % SECOND == 0
    {
      var es := Bucket(ps, k);
      assert es != [] && es[0] in es;
      BucketMembers(TradesIn(ps), k);
      assert k == CandleKeyOf(es[0], k.interval);
      LowerIdempotent(es[0].token);
      AlignedIsWholeSecond(es[0].time, k.interval);
    }
  }

  /**
    Main result from the chain to the client: in every reachable state, following the cursors to the end
    takes the requests the limit implies and shows exactly the candles of the trades in the applied
    blocks, each once and oldest first, with their figures.
   */
  lemma ServedCandlesAreExact(w: World, steps: seq<Step>, x: Texts, token: string, i: Interval, limit: int, visits: seq<Visit>)
    requires forall step <- steps :: NoWrap(step)
    requires FinalLogs(LogsIn(w.chain, w.start, RunMarks(w, steps).top))
    requires IsBase64(x)
    requires forall k <- Matching(Run(w, steps).db.klines, token, i, None) :: 0 <= Year(k.open) <= 9999
    requires IsWalkOn(x, Run(w, steps).db.klines, token, i, limit, visits) && visits != [] && Finished(visits)
    ensures var klines, ps := Run(w, steps).db.klines, EventsIn(w.chain, w.start, RunMarks(w, steps).top);
            && |visits| == PagesFor(|Matching(klines, token, i, None)|, ClampLimit(limit)) + 1
            && NewestFirst(Collected(visits))
            && (forall k :: k in Collected(visits) <==> k.token == Lower(token) && k.interval == i && Bucket(ps, k) != [])
            && (forall k <- Collected(visits) :: k in klines && Summarises(klines[k], Bucket(ps, k)))
            && (forall v <- visits :: forall k <- v.keys :: k in v.klines)
            && OldestFirst(visits) == Reversed(RowsOf(klines, Collected(visits)))
  {
    hide Run, RunMarks, EventsIn, LogsIn, Bucket, Summarises, Year, IsNewest, SameBefore, DecodeCursor, EncodeCursor, PagesFor,
      FinalLogs, Wanted, NoTies, OldestFirst;
    var klines, ps := Run(w, steps).db.klines, EventsIn(w.chain, w.start, RunMarks(w, steps).top);
    CandlesOfRun(w, steps);
    CandleTablesCanBePaged(klines, ps, token, i, None);
    WantedOn(x, klines, token, i, limit, visits);
    ReadableTable(x, token, i, limit, visits);
    WalkEnds(x, token, i, limit, visits);
    WalkCollectsEverything(x, token, i, limit, visits);
    PagesShowCollected(x, token, i, limit, visits);
    assert visits[0] in visits;
    forall k
      ensures k in Matching(klines, token, i, None) <==> k.token == Lower(token) && k.interval == i && Bucket(ps, k) != []
    {
      LowerIdempotent(token);
    }
  }
}
