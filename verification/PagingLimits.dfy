/**
  Exactly when paging through a table that does not change ends, and exactly when it shows every candle.
 */
module PagingLimits {
  import opened Common
  import opened GoTime
  import opened Intervals
  import opened ChainEvents
  import opened RollUp
  import opened KlinePages
  import opened KlineWalks

  // ---- walks over a table that does not change ------------------------------------------------

  /** A walk over a table that does not change, from the newest candle on. */
  ghost predicate IsWalkOn(x: Texts, klines: Klines, token: string, i: Interval, limit: int, visits: seq<Visit>) {
    && IsWalk(x, token, i, limit, visits)
    && visits[0].cursor == ""
    && forall v <- visits :: v.klines == klines
  }

  lemma NoCursor(x: Texts)
    ensures DecodeCursor(x, "") == None
  {
  }

  lemma FirstVisit(x: Texts, klines: Klines, token: string, i: Interval, limit: int, keys: seq<CandleKey>)
    requires IsNewest(Matching(klines, token, i, None), ClampLimit(limit), keys)
    ensures IsWalkOn(x, klines, token, i, limit, [Visit(klines, "", keys)])
  {
    hide IsNewest, Matching, DecodeCursor;
    NoCursor(x);
  }

  /** A walk whose last cursor can be read goes on with any page behind it. */
  lemma OneMoreVisit(x: Texts, klines: Klines, token: string, i: Interval, limit: int, walk: seq<Visit>, keys: seq<CandleKey>)
    requires IsBase64(x) && IsWalkOn(x, klines, token, i, limit, walk)
    requires !Finished(walk) && Readable(LastOpen(walk[|walk| - 1].keys))
    requires IsNewest(Matching(klines, token, i, Some(LastOpen(walk[|walk| - 1].keys))), ClampLimit(limit), keys)
    ensures IsWalkOn(x, klines, token, i, limit,
                     walk + [Visit(klines, EncodeCursor(x, LastOpen(walk[|walk| - 1].keys)), keys)])
  {
    hide IsNewest, Matching, EncodeCursor, DecodeCursor, Readable, LastOpen;
    var last := walk[|walk| - 1];
    var next := Visit(klines, EncodeCursor(x, LastOpen(last.keys)), keys);
    var longer := walk + [next];
    NextCursor(x, LastOpen(last.keys));
    forall n | 0 <= n < |longer| - 1
      ensures longer[n].keys != []
      ensures longer[n + 1].cursor == EncodeCursor(x, LastOpen(longer[n].keys))
      ensures SameBefore(longer[n].klines, longer[n + 1].klines, token, i, DecodeCursor(x, longer[n + 1].cursor))
    {
      assert longer[n] in walk;
      if n == |walk| - 1 {
        assert longer[n] == last && longer[n + 1] == next;
      } else {
        assert longer[n] == walk[n] && longer[n + 1] == walk[n + 1];
      }
    }
  }

  /** The rows behind a page: fewer than those the page was taken from. */
  lemma BehindPage(klines: Klines, token: string, i: Interval, cursor: Option<Time>, n: nat, keys: seq<CandleKey>)
    requires IsNewest(Matching(klines, token, i, cursor), n, keys) && keys != []
    ensures |Matching(klines, token, i, Some(LastOpen(keys)))| < |Matching(klines, token, i, cursor)|
  {
    var older, all := Matching(klines, token, i, Some(LastOpen(keys))), Matching(klines, token, i, cursor);
    NextMatching(klines, token, i, cursor, n, keys);
    var last := keys[|keys| - 1];
    assert last in keys && last !in older;
    assert older <= all - {last};
    SubsetSize(older, all - {last});
  }

  // ---- endless walks --------------------------------------------------------------------------

  /** The next cursor after this visit cannot be read. */
  ghost predicate DeadEnd(x: Texts, v: Visit) {
    v.keys != [] && DecodeCursor(x, EncodeCursor(x, LastOpen(v.keys))) == None
  }

  lemma PrefixIsWalk(x: Texts, klines: Klines, token: string, i: Interval, limit: int, visits: seq<Visit>, n: nat)
    requires IsWalkOn(x, klines, token, i, limit, visits) && 1 <= n <= |visits|
    ensures IsWalkOn(x, klines, token, i, limit, visits[..n])
  {
    hide IsNewest, Matching, EncodeCursor, DecodeCursor, SameBefore;
  }

  /** From a dead end the walk starts over. */
  lemma StartOver(x: Texts, klines: Klines, token: string, i: Interval, limit: int, walk: seq<Visit>, lap: seq<Visit>)
    requires IsWalkOn(x, klines, token, i, limit, walk) && IsWalkOn(x, klines, token, i, limit, lap)
    requires DeadEnd(x, walk[|walk| - 1])
    ensures var next := EncodeCursor(x, LastOpen(walk[|walk| - 1].keys));
            IsWalkOn(x, klines, token, i, limit, walk + [lap[0].(cursor := next)] + lap[1..])
  {
    hide IsNewest, Matching, EncodeCursor, DecodeCursor, LastOpen;
    var m, next := |walk|, EncodeCursor(x, LastOpen(walk[|walk| - 1].keys));
    var longer := walk + [lap[0].(cursor := next)] + lap[1..];
    NoCursor(x);
    forall v <- longer
      ensures v.klines == klines && IsNewest(Matching(v.klines, token, i, DecodeCursor(x, v.cursor)), ClampLimit(limit), v.keys)
    {
      assert lap[0] in lap;
      assert v in walk || v == lap[0].(cursor := next) || v in lap;
    }
    forall n | 0 <= n < |longer| - 1
      ensures longer[n].keys != []
      ensures longer[n + 1].cursor == EncodeCursor(x, LastOpen(longer[n].keys))
      ensures SameBefore(longer[n].klines, longer[n + 1].klines, token, i, DecodeCursor(x, longer[n + 1].cursor))
    {
      if n < m - 1 {
        assert longer[n] == walk[n] && longer[n + 1] == walk[n + 1];
      } else if n >= m {
        assert longer[n].keys == lap[n - m].keys && longer[n + 1] == lap[n - m + 1];
      }
      assert longer[n] in longer && longer[n + 1] in longer;
    }
  }

  lemma {:induction false} ManyLaps(x: Texts, klines: Klines, token: string, i: Interval, limit: int, lap: seq<Visit>, n: nat)
    returns (walk: seq<Visit>)
    requires lap != [] && IsWalkOn(x, klines, token, i, limit, lap) && DeadEnd(x, lap[|lap| - 1])
    ensures |walk| > n && IsWalkOn(x, klines, token, i, limit, walk) && DeadEnd(x, walk[|walk| - 1])
  {
    hide IsNewest, Matching, SameBefore, DecodeCursor, EncodeCursor;
    if n == 0 {
      walk := lap;
    } else {
      var shorter := ManyLaps(x, klines, token, i, limit, lap, n - 1);
      StartOver(x, klines, token, i, limit, shorter, lap);
      walk := shorter + [lap[0].(cursor := EncodeCursor(x, LastOpen(shorter[|shorter| - 1].keys)))] + lap[1..];
    }
  }

  /** No walk over the table has more than `most` requests. */
  ghost predicate EndsWithin(x: Texts, klines: Klines, token: string, i: Interval, limit: int, most: nat) {
    forall visits | IsWalkOn(x, klines, token, i, limit, visits) :: |visits| <= most
  }

  /** The number of requests is bounded exactly when no page ends with an unreadable time. */
  lemma EndsIfReadable(x: Texts, klines: Klines, token: string, i: Interval, limit: int)
    requires IsBase64(x) && forall k <- Matching(klines, token, i, None) :: k.open % SECOND == 0
    ensures (exists most :: EndsWithin(x, klines, token, i, limit, most))
       <==> (forall visits | IsWalkOn(x, klines, token, i, limit, visits) :: CursorsReadable(x, visits))
  {
    hide IsWalkOn, CursorsReadable, IsBase64, EndsWithin;
    if visits :| IsWalkOn(x, klines, token, i, limit, visits) && !CursorsReadable(x, visits) {
      forall most: nat
        ensures !EndsWithin(x, klines, token, i, limit, most)
      {
        NeverEnds(x, klines, token, i, limit, visits, most);
      }
    } else {
      AlwaysEnds(x, klines, token, i, limit);
    }
  }

  lemma AlwaysEnds(x: Texts, klines: Klines, token: string, i: Interval, limit: int)
    requires forall visits | IsWalkOn(x, klines, token, i, limit, visits) :: CursorsReadable(x, visits)
    ensures EndsWithin(x, klines, token, i, limit, PagesFor(|Matching(klines, token, i, None)|, ClampLimit(limit)) + 1)
  {
    hide IsWalk, CursorsReadable, Matching, PagesFor, DecodeCursor;
    NoCursor(x);
    forall visits | IsWalkOn(x, klines, token, i, limit, visits)
      ensures |visits| <= PagesFor(|Matching(klines, token, i, None)|, ClampLimit(limit)) + 1
    {
      NotEmpty(x, token, i, limit, visits);
      assert visits[0] in visits;
      WalkEnds(x, token, i, limit, visits);
    }
  }

  lemma NeverEnds(x: Texts, klines: Klines, token: string, i: Interval, limit: int, visits: seq<Visit>, most: nat)
    requires IsBase64(x) && forall k <- Matching(klines, token, i, None) :: k.open % SECOND == 0
    requires IsWalkOn(x, klines, token, i, limit, visits) && !CursorsReadable(x, visits)
    ensures !EndsWithin(x, klines, token, i, limit, most)
  {
    hide IsWalkOn, CursorsReadable, IsBase64, Matching;
    var lap := DeadEndReached(x, klines, token, i, limit, visits);
    var walk := ManyLaps(x, klines, token, i, limit, lap, most);
  }

  lemma DeadEndReached(x: Texts, klines: Klines, token: string, i: Interval, limit: int, visits: seq<Visit>)
    returns (lap: seq<Visit>)
    requires IsBase64(x) && forall k <- Matching(klines, token, i, None) :: k.open % SECOND == 0
    requires IsWalkOn(x, klines, token, i, limit, visits) && !CursorsReadable(x, visits)
    ensures lap != [] && IsWalkOn(x, klines, token, i, limit, lap) && DeadEnd(x, lap[|lap| - 1])
  {
    hide EncodeCursor, DecodeCursor, Readable, SameBefore, Matching, IsNewest;
    var v :| v in visits && v.keys != [] && !Readable(LastOpen(v.keys));
    var n :| 0 <= n < |visits| && visits[n] == v;
    lap := visits[..n + 1];
    PrefixIsWalk(x, klines, token, i, limit, visits, n + 1);
    StoredRow(klines, token, i, DecodeCursor(x, v.cursor), ClampLimit(limit), v.keys);
    NoNextCursor(x, LastOpen(v.keys));
  }

  lemma StoredRow(klines: Klines, token: string, i: Interval, cursor: Option<Time>, n: nat, keys: seq<CandleKey>)
    requires IsNewest(Matching(klines, token, i, cursor), n, keys) && keys != []
    ensures exists k <- Matching(klines, token, i, None) :: k.open == LastOpen(keys)
  {
    assert keys[|keys| - 1] in keys;
    assert keys[|keys| - 1] in Matching(klines, token, i, None);
  }

  lemma NoNextCursor(x: Texts, t: Time)
    requires IsBase64(x) && t % SECOND == 0 && !Readable(t)
    ensures DecodeCursor(x, EncodeCursor(x, t)) == None
  {
    hide EncodeCursor, DecodeCursor, Year;
    CursorRoundTrip(x, t);
  }

  // ---- exactly when paging ends ---------------------------------------------------------------

  function FarFuture(all: set<CandleKey>): set<CandleKey> {
    set k <- all | Year(k.open) > 9999
  }

  /** No candle before year 0, and the first page reaches back to a candle not beyond the year 9999. */
  predicate Pageable(all: set<CandleKey>, n: nat) {
    && (forall k <- all :: Year(k.open) >= 0)
    && (all != {} ==> |FarFuture(all)| < n && |FarFuture(all)| < |all|)
  }

  /** The first page ends beyond the year 9999 exactly when that many candles do. */
  lemma FirstPageIsFar(all: set<CandleKey>, n: nat, keys: seq<CandleKey>)
    requires IsNewest(all, n, keys) && keys != []
    ensures Year(LastOpen(keys)) > 9999 <==> |FarFuture(all)| >= n || |FarFuture(all)| >= |all|
  {
    hide Year;
    var far, page, last := FarFuture(all), Members(keys), keys[|keys| - 1];
    assert last in keys && last in all;
    DistinctPage(all, n, keys);
    forall k <- all
      ensures k in keys ==> Year(k.open) >= Year(last.open)
      ensures k !in keys ==> |keys| == n && Year(k.open) <= Year(last.open)
    {
      PageMember(all, n, keys, k);
      YearMonotone(if k in keys then last.open else k.open, if k in keys then k.open else last.open);
    }
    if Year(last.open) > 9999 {
      SubsetSize(page, far);
      if |keys| < n {
        assert all <= far;
        SubsetSize(all, far);
      }
    } else {
      assert far <= page - {last};
      SubsetSize(far, page - {last});
      assert page <= all;
      SubsetSize(page, all);
    }
  }

  /** In a table that can be paged, all pages end with readable times. */
  lemma {:induction false} PageableIsReadable(x: Texts, klines: Klines, token: string, i: Interval, limit: int, visits: seq<Visit>, n: nat)
    requires IsBase64(x) && IsWalkOn(x, klines, token, i, limit, visits) && n < |visits|
    requires Pageable(Matching(klines, token, i, None), ClampLimit(limit))
    requires forall k <- Matching(klines, token, i, None) :: k.open % SECOND == 0
    ensures visits[n].keys != [] ==> Readable(LastOpen(visits[n].keys))
  {
    hide EncodeCursor, DecodeCursor, Year, FarFuture, IsNewest, Matching;
    var v, all := visits[n], Matching(klines, token, i, None);
    assert v in visits;
    if v.keys != [] {
      StoredRow(klines, token, i, DecodeCursor(x, v.cursor), ClampLimit(limit), v.keys);
      var y :| y in all && y.open == LastOpen(v.keys);
      if n == 0 {
        NoCursor(x);
        FirstPageIsFar(all, ClampLimit(limit), v.keys);
      } else {
        PageableIsReadable(x, klines, token, i, limit, visits, n - 1);
        assert v.cursor == EncodeCursor(x, LastOpen(visits[n - 1].keys));
        NextCursor(x, LastOpen(visits[n - 1].keys));
        BeforeCursor(klines, token, i, LastOpen(visits[n - 1].keys), ClampLimit(limit), v.keys);
        YearMonotone(LastOpen(v.keys), LastOpen(visits[n - 1].keys));
      }
    }
  }

  lemma ReadableThroughout(x: Texts, klines: Klines, token: string, i: Interval, limit: int, visits: seq<Visit>)
    requires IsBase64(x) && IsWalkOn(x, klines, token, i, limit, visits)
    requires Pageable(Matching(klines, token, i, None), ClampLimit(limit))
    requires forall k <- Matching(klines, token, i, None) :: k.open % SECOND == 0
    ensures CursorsReadable(x, visits)
  {
    hide IsBase64, IsWalkOn, Pageable, Matching, Readable;
    forall n | 0 <= n < |visits|
      ensures visits[n].keys != [] ==> Readable(LastOpen(visits[n].keys))
    {
      PageableIsReadable(x, klines, token, i, limit, visits, n);
    }
  }

  lemma BeforeCursor(klines: Klines, token: string, i: Interval, cursor: Time, n: nat, keys: seq<CandleKey>)
    requires IsNewest(Matching(klines, token, i, Some(cursor)), n, keys) && keys != []
    ensures LastOpen(keys) < cursor
  {
    assert keys[|keys| - 1] in keys;
  }

  /** A walk can be led down to an unreadable end as long as it has not passed a candle before year 0. */
  lemma {:induction false} WalkDown(x: Texts, klines: Klines, token: string, i: Interval, limit: int, walk: seq<Visit>, k: CandleKey)
    returns (down: seq<Visit>)
    requires IsBase64(x) && IsWalkOn(x, klines, token, i, limit, walk) && !Finished(walk)
    requires k in Matching(klines, token, i, None) && Year(k.open) < 0
    ensures IsWalkOn(x, klines, token, i, limit, down) && !CursorsReadable(x, down)
    decreases |Matching(klines, token, i, Some(LastOpen(walk[|walk| - 1].keys)))|
  {
    hide EncodeCursor, DecodeCursor, Year, IsNewest, SameBefore;
    var last := LastOpen(walk[|walk| - 1].keys);
    assert walk[|walk| - 1] in walk;
    if Readable(last) {
      YearOrder(k.open, last);
      var older := Matching(klines, token, i, Some(last));
      assert k in older;
      var keys := PageExists(older, ClampLimit(limit));
      EmptyPage(older, ClampLimit(limit), keys);
      OneMoreVisit(x, klines, token, i, limit, walk, keys);
      BehindPage(klines, token, i, Some(last), ClampLimit(limit), keys);
      down := WalkDown(x, klines, token, i, limit, walk + [Visit(klines, EncodeCursor(x, last), keys)], k);
    } else {
      down := walk;
    }
  }

  lemma YearOrder(s: Time, t: Time)
    requires Year(s) < Year(t)
    ensures s < t
  {
    if t <= s {
      YearMonotone(t, s);
    }
  }

  lemma BadEndReached(x: Texts, klines: Klines, token: string, i: Interval, limit: int) returns (walk: seq<Visit>)
    requires IsBase64(x) && !Pageable(Matching(klines, token, i, None), ClampLimit(limit))
    ensures IsWalkOn(x, klines, token, i, limit, walk) && !CursorsReadable(x, walk)
  {
    hide EncodeCursor, DecodeCursor, Year, IsNewest, SameBefore, Matching;
    var all, n := Matching(klines, token, i, None), ClampLimit(limit);
    var keys := PageExists(all, n);
    EmptyPage(all, n, keys);
    FirstVisit(x, klines, token, i, limit, keys);
    walk := [Visit(klines, "", keys)];
    assert all != {};
    if k :| k in all && Year(k.open) < 0 {
      walk := WalkDown(x, klines, token, i, limit, walk, k);
    } else {
      FirstPageIsFar(all, n, keys);
      assert walk[0] in walk;
    }
  }

  /**
    Main result on endless paging: through a table of whole-second candles that does not change, the
    number of requests is bounded exactly when no candle lies before year 0 and, unless there are none,
    those beyond the year 9999 are fewer than the limit and not all.
   */
  lemma PagingEndsExactly(x: Texts, klines: Klines, token: string, i: Interval, limit: int)
    requires IsBase64(x) && forall k <- Matching(klines, token, i, None) :: k.open % SECOND == 0
    ensures (exists most :: EndsWithin(x, klines, token, i, limit, most))
       <==> Pageable(Matching(klines, token, i, None), ClampLimit(limit))
  {
    hide IsBase64, EndsWithin, Pageable, Matching, IsWalk, Readable;
    EndsIfReadable(x, klines, token, i, limit);
    if Pageable(Matching(klines, token, i, None), ClampLimit(limit)) {
      forall visits | IsWalkOn(x, klines, token, i, limit, visits)
        ensures CursorsReadable(x, visits)
      {
        ReadableThroughout(x, klines, token, i, limit, visits);
      }
    } else {
      var walk := BadEndReached(x, klines, token, i, limit);
    }
  }

  // ---- exactly when every candle is shown -----------------------------------------------------

  /** Every walk that finishes shows all candles. */
  ghost predicate ShowsAll(x: Texts, klines: Klines, token: string, i: Interval, limit: int) {
    forall visits | IsWalkOn(x, klines, token, i, limit, visits) && Finished(visits) ::
      forall k <- Matching(klines, token, i, None) :: k in Collected(visits)
  }

  /** Readable walks can be finished. */
  lemma {:induction false} FinishWalk(x: Texts, klines: Klines, token: string, i: Interval, limit: int, walk: seq<Visit>)
    returns (whole: seq<Visit>)
    requires IsBase64(x) && IsWalkOn(x, klines, token, i, limit, walk)
    requires forall k <- Matching(klines, token, i, None) :: Readable(k.open)
    ensures IsWalkOn(x, klines, token, i, limit, whole) && Finished(whole)
    decreases if Finished(walk) then 0 else 1 + |Matching(klines, token, i, Some(LastOpen(walk[|walk| - 1].keys)))|
  {
    hide EncodeCursor, DecodeCursor, Readable, IsNewest, SameBefore, Matching;
    whole := walk;
    if !Finished(walk) {
      var v := walk[|walk| - 1];
      var last := LastOpen(v.keys);
      assert v in walk;
      StoredRow(klines, token, i, DecodeCursor(x, v.cursor), ClampLimit(limit), v.keys);
      var keys := PageExists(Matching(klines, token, i, Some(last)), ClampLimit(limit));
      OneMoreVisit(x, klines, token, i, limit, walk, keys);
      if keys != [] {
        BehindPage(klines, token, i, Some(last), ClampLimit(limit), keys);
      }
      whole := FinishWalk(x, klines, token, i, limit, walk + [Visit(klines, EncodeCursor(x, last), keys)]);
    }
  }

  lemma WantedOn(x: Texts, klines: Klines, token: string, i: Interval, limit: int, visits: seq<Visit>)
    requires IsWalkOn(x, klines, token, i, limit, visits)
    ensures visits != [] && IsWalk(x, token, i, limit, visits)
    ensures Wanted(x, token, i, visits) == Matching(klines, token, i, None)
  {
    NoCursor(x);
    assert visits[0] in visits;
  }

  /** One limit: finished walks show all candles exactly when the pages part no candles that open together. */
  lemma ShowsAllPerLimit(x: Texts, klines: Klines, token: string, i: Interval, limit: int)
    requires IsBase64(x) && forall k <- Matching(klines, token, i, None) :: Readable(k.open)
    ensures ShowsAll(x, klines, token, i, limit) <==> Unsplit(Matching(klines, token, i, None), ClampLimit(limit))
  {
    hide IsNewest, SameBefore, Readable, Matching, IsBase64, Wanted, Unsplit, DecodeCursor, EncodeCursor;
    var all := Matching(klines, token, i, None);
    forall visits | IsWalkOn(x, klines, token, i, limit, visits) && Finished(visits)
      ensures (forall k <- all :: k in Collected(visits)) <==> Unsplit(all, ClampLimit(limit))
    {
      WantedOn(x, klines, token, i, limit, visits);
      ReadableTable(x, token, i, limit, visits);
      WalkIsCompleteExactly(x, token, i, limit, visits);
    }
    var keys := PageExists(all, ClampLimit(limit));
    FirstVisit(x, klines, token, i, limit, keys);
    var visits := FinishWalk(x, klines, token, i, limit, [Visit(klines, "", keys)]);
  }

  /**
    Main result on completeness: over readable candles, finished walks show all of them for every limit
    exactly when no two open together.
   */
  lemma ShowsAllExactly(x: Texts, klines: Klines, token: string, i: Interval)
    requires IsBase64(x) && forall k <- Matching(klines, token, i, None) :: Readable(k.open)
    ensures (forall limit :: ShowsAll(x, klines, token, i, limit)) <==> NoTies(Matching(klines, token, i, None))
  {
    hide ShowsAll, Readable, Matching, IsBase64, Unsplit;
    var all := Matching(klines, token, i, None);
    forall limit
      ensures ShowsAll(x, klines, token, i, limit) <==> Unsplit(all, ClampLimit(limit))
    {
      ShowsAllPerLimit(x, klines, token, i, limit);
    }
    if NoTies(all) {
      forall limit
        ensures ShowsAll(x, klines, token, i, limit)
      {
        NoTiesUnsplit(all, ClampLimit(limit));
      }
    } else {
      var a, b :| a in all && b in all && a.open == b.open && a != b;
      if Unsplit(all, 1) {
        UnsplitOnes(all, a, b);
      }
      assert !ShowsAll(x, klines, token, i, 1);
    }
  }

  // ---- examples of both -----------------------------------------------------------------------

  /** Two spellings of one address with candles that open together: with a limit of 1 a finished walk misses one. */
  lemma TieIsMissed(x: Texts, a: CandleKey, b: CandleKey, c: Candle, d: Candle)
    requires IsBase64(x) && Readable(a.open)
    requires a.open == b.open && a.interval == b.interval && Lower(a.token) == Lower(b.token) && a.token != b.token
    ensures var klines := map[a := c, b := d];
            var visits := [Visit(klines, "", [a]), Visit(klines, EncodeCursor(x, a.open), [])];
            && IsWalk(x, a.token, a.interval, 1, visits) && Finished(visits)
            && Wanted(x, a.token, a.interval, visits) == {a, b} && Collected(visits) == [a]
  {
    hide EncodeCursor, DecodeCursor, Readable, Matching, IsNewest;
    var cursor := EncodeCursor(x, a.open);
    NextCursor(x, a.open);
    NoCursor(x);
    TiedRows(a, b, c, d);
    OneRowWalk([Visit(map[a := c, b := d], "", [a]), Visit(map[a := c, b := d], cursor, [])]);
  }

  lemma TiedRows(a: CandleKey, b: CandleKey, c: Candle, d: Candle)
    requires a.open == b.open && a.interval == b.interval && Lower(a.token) == Lower(b.token)
    ensures var klines := map[a := c, b := d];
            && Matching(klines, a.token, a.interval, None) == {a, b} && IsNewest({a, b}, 1, [a])
            && Matching(klines, a.token, a.interval, Some(a.open)) == {} && IsNewest({}, 1, [])
  {
    hide Lower;
  }

  lemma OneRowWalk(visits: seq<Visit>)
    requires |visits| == 2 && visits[1].keys == []
    ensures Collected(visits) == visits[0].keys
  {
    assert visits[1..] == [visits[1]] && visits[1..][1..] == [];
    assert Collected(visits[1..]) == [];
  }

  /** A candle of the year 10000 or later has no readable cursor: the first page comes back again and again. */
  lemma UnreadableRepeats(x: Texts, a: CandleKey, c: Candle, n: nat)
    requires IsBase64(x) && a.open % SECOND == 0 && Year(a.open) > 9999 && n >= 1
    ensures var visits := seq(n, j => Visit(map[a := c], if j == 0 then "" else EncodeCursor(x, a.open), [a]));
            IsWalk(x, a.token, a.interval, 1, visits) && !Finished(visits)
  {
    hide EncodeCursor, Year;
    var klines := map[a := c];
    CursorRoundTrip(x, a.open);
    assert DecodeCursor(x, "") == None;
    assert Matching(klines, a.token, a.interval, None) == {a};
    assert IsNewest({a}, 1, [a]);
  }
}
