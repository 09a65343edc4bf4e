/**
  Paging back through all candles of a token: what a client collects that follows the returned cursors.
 */
module KlineWalks {
  import opened Common
  import opened GoTime
  import opened Intervals
  import opened Price
  import opened ChainEvents
  import opened RollUp
  import opened KlinePages

  // ---- one page -------------------------------------------------------------------------------

  /** The open time of the earliest candle of a page, which the next cursor carries. */
  function LastOpen(keys: seq<CandleKey>): Time
    requires keys != []
  {
    keys[|keys| - 1].open
  }

  function Older(all: set<CandleKey>, t: Time): set<CandleKey> {
    set k <- all | k.open < t
  }

  ghost predicate NoTies(all: set<CandleKey>) {
    forall j <- all, k <- all | j.open == k.open :: j == k
  }

  function Members(keys: seq<CandleKey>): set<CandleKey> {
    set k <- keys
  }

  lemma {:induction false} DistinctCount(keys: seq<CandleKey>)
    requires NewestFirst(keys)
    ensures |Members(keys)| == |keys|
  {
    if keys != [] {
      var init, last := keys[..|keys| - 1], keys[|keys| - 1];
      DistinctCount(init);
      assert keys == init + [last];
      assert Members(keys) == Members(init) + {last};
    }
  }

  /** The database can always answer. */
  lemma {:induction false} PageExists(all: set<CandleKey>, n: nat) returns (keys: seq<CandleKey>)
    ensures IsNewest(all, n, keys)
  {
    keys := [];
    if n > 0 && all != {} {
      var m := NewestExists(all);
      var rest := PageExists(all - {m}, n - 1);
      keys := [m] + rest;
      forall k <- all | k !in keys
        ensures |keys| == n && forall x <- keys :: k.open <= x.open
      {
        assert k in all - {m} && k !in rest;
      }
    }
  }

  /** Behind a page lie the candles before its earliest one, unless the page was not full. */
  lemma PageAndOlder(all: set<CandleKey>, n: nat, keys: seq<CandleKey>)
    requires IsNewest(all, n, keys) && keys != []
    ensures |keys| + |Older(all, LastOpen(keys))| <= |all|
    ensures |keys| < n ==> Older(all, LastOpen(keys)) == {}
    ensures NoTies(all) ==> |keys| + |Older(all, LastOpen(keys))| == |all|
    ensures NoTies(all) ==> forall k <- all :: k in keys || k in Older(all, LastOpen(keys))
  {
    hide IsNewest, NoTies, Older;
    var page, older := Members(keys), Older(all, LastOpen(keys));
    DistinctPage(all, n, keys);
    PageSplits(all, n, keys);
    UnionSize(page, older);
    SubsetSize(page + older, all);
  }

  lemma DistinctPage(all: set<CandleKey>, n: nat, keys: seq<CandleKey>)
    requires IsNewest(all, n, keys)
    ensures |Members(keys)| == |keys|
  {
    DistinctCount(keys);
  }

  lemma PageSplits(all: set<CandleKey>, n: nat, keys: seq<CandleKey>)
    requires IsNewest(all, n, keys) && keys != []
    ensures var page, older := Members(keys), Older(all, LastOpen(keys));
            && page !! older && page + older <= all
            && (|keys| < n ==> older == {})
            && (NoTies(all) ==> page + older == all)
  {
    forall k
      ensures k in keys ==> k in all && k.open >= LastOpen(keys)
      ensures k in all && k !in keys ==> k.open == LastOpen(keys) || k in Older(all, LastOpen(keys))
    {
      PageMember(all, n, keys, k);
    }
    assert keys[|keys| - 1] in keys;
  }

  lemma UnionSize<T>(a: set<T>, b: set<T>)
    requires a !! b
    ensures |a + b| == |a| + |b|
  {
  }

  lemma SubsetSize<T>(a: set<T>, b: set<T>)
    requires a <= b
    ensures |a| <= |b|
  {
    assert b == a + (b - a);
    UnionSize(a, b - a);
  }

  /** The next request finds exactly the older candles. */
  lemma NextMatching(klines: Klines, token: string, i: Interval, cursor: Option<Time>, n: nat, keys: seq<CandleKey>)
    requires IsNewest(Matching(klines, token, i, cursor), n, keys) && keys != []
    ensures Matching(klines, token, i, Some(LastOpen(keys))) == Older(Matching(klines, token, i, cursor), LastOpen(keys))
  {
    assert keys[|keys| - 1] in keys;
  }

  // ---- walking back through all pages ---------------------------------------------------------

  /** Both tables have the same rows of the token and interval before the cursor. */
  ghost predicate SameBefore(a: Klines, b: Klines, token: string, i: Interval, cursor: Option<Time>) {
    && Matching(a, token, i, cursor) == Matching(b, token, i, cursor)
    && forall k <- Matching(a, token, i, cursor) :: a[k] == b[k]
  }

  /** One request of a walk: the table it saw, the cursor it sent, the rows it got, newest first. */
  datatype Visit = Visit(klines: Klines, cursor: string, keys: seq<CandleKey>)

  /**
    A client follows the returned cursors and may stop anywhere. Between two requests the table may
    change, but only at or after the cursor.
   */
  ghost predicate IsWalk(x: Texts, token: string, i: Interval, limit: int, visits: seq<Visit>) {
    && visits != []
    && (forall v <- visits ::
          IsNewest(Matching(v.klines, token, i, DecodeCursor(x, v.cursor)), ClampLimit(limit), v.keys))
    && (forall n :: 0 <= n < |visits| - 1 ==>
          && visits[n].keys != []
          && visits[n + 1].cursor == EncodeCursor(x, LastOpen(visits[n].keys))
          && SameBefore(visits[n].klines, visits[n + 1].klines, token, i, DecodeCursor(x, visits[n + 1].cursor)))
  }

  /** The last page is empty, and so is its cursor. */
  predicate Finished(visits: seq<Visit>)
    requires visits != []
  {
    visits[|visits| - 1].keys == []
  }

  /** What the cursor text can carry: whole seconds in the years 0 to 9999. */
  predicate Readable(t: Time) {
    t % SECOND == 0 && 0 <= Year(t) <= 9999
  }

  ghost predicate CursorsReadable(x: Texts, visits: seq<Visit>) {
    IsBase64(x) && forall v <- visits | v.keys != [] :: Readable(LastOpen(v.keys))
  }

  /** The rows before the first cursor. */
  ghost function Wanted(x: Texts, token: string, i: Interval, visits: seq<Visit>): set<CandleKey>
    requires visits != []
  {
    Matching(visits[0].klines, token, i, DecodeCursor(x, visits[0].cursor))
  }

  /** The rest of a walk is a walk over the older rows, if its next cursor can be read. */
  lemma RestIsWalk(x: Texts, token: string, i: Interval, limit: int, visits: seq<Visit>)
    requires IsWalk(x, token, i, limit, visits) && |visits| > 1
    requires IsBase64(x) && (visits[0].keys != [] ==> Readable(LastOpen(visits[0].keys)))
    ensures IsWalk(x, token, i, limit, visits[1..])
    ensures visits[0].keys != []
    ensures IsNewest(Wanted(x, token, i, visits), ClampLimit(limit), visits[0].keys)
    ensures Wanted(x, token, i, visits[1..]) == Older(Wanted(x, token, i, visits), LastOpen(visits[0].keys))
    ensures forall k <- Wanted(x, token, i, visits[1..]) :: visits[0].klines[k] == visits[1].klines[k]
  {
    hide IsNewest, Matching, EncodeCursor, DecodeCursor, Readable;
    var rest := visits[1..];
    forall n | 0 <= n < |rest| - 1
      ensures rest[n].keys != []
      ensures rest[n + 1].cursor == EncodeCursor(x, LastOpen(rest[n].keys))
      ensures SameBefore(rest[n].klines, rest[n + 1].klines, token, i, DecodeCursor(x, rest[n + 1].cursor))
    {
      assert rest[n] == visits[n + 1] && rest[n + 1] == visits[n + 1 + 1];
    }
    var v, w := visits[0], visits[1];
    assert v in visits && rest[0] == w;
    assert w.cursor == EncodeCursor(x, LastOpen(v.keys));
    NextCursor(x, LastOpen(v.keys));
    NextMatching(v.klines, token, i, DecodeCursor(x, v.cursor), ClampLimit(limit), v.keys);
  }

  lemma RestOfWalk(x: Texts, token: string, i: Interval, limit: int, visits: seq<Visit>)
    requires IsWalk(x, token, i, limit, visits) && CursorsReadable(x, visits) && |visits| > 1
    ensures IsWalk(x, token, i, limit, visits[1..]) && CursorsReadable(x, visits[1..])
    ensures visits[0].keys != []
    ensures IsNewest(Wanted(x, token, i, visits), ClampLimit(limit), visits[0].keys)
    ensures Wanted(x, token, i, visits[1..]) == Older(Wanted(x, token, i, visits), LastOpen(visits[0].keys))
    ensures forall k <- Wanted(x, token, i, visits[1..]) :: visits[0].klines[k] == visits[1].klines[k]
  {
    hide IsWalk, IsNewest, Matching, Wanted, Older, Readable;
    assert visits[0] in visits;
    RestIsWalk(x, token, i, limit, visits);
  }

  lemma NextCursor(x: Texts, t: Time)
    requires IsBase64(x) && Readable(t)
    ensures DecodeCursor(x, EncodeCursor(x, t)) == Some(t)
  {
    hide DecodeCursor, EncodeCursor, Year;
    CursorRoundTrip(x, t);
  }

  /** Pages of `n` needed for `count` candles. */
  function PagesFor(count: nat, n: nat): nat
    requires n >= 1
  {
    (count + n - 1) / n
  }

  lemma PagesNeeded(all: nat, rest: nat, page: nat, n: nat)
    requires 1 <= page <= n && (page < n ==> rest == 0) && rest + page <= all
    ensures PagesFor(rest, n) + 1 == PagesFor(rest + page, n) <= PagesFor(all, n)
  {
    if page == n {
      DivModUnique(rest + n - 1 + n, n, (rest + n - 1) / n + 1, (rest + n - 1) % n);
    } else {
      DivModUnique(page + n - 1, n, 1, page - 1);
      DivModUnique(n - 1, n, 0, n - 1);
    }
    PagesGrow(rest + page, all, n);
  }

  lemma PagesGrow(a: nat, b: nat, n: nat)
    requires n >= 1 && a <= b
    ensures PagesFor(a, n) <= PagesFor(b, n)
  {
    MulRight(a + n - 1, b + n - 1, n);
    FloorMonotone(a + n - 1, n, b + n - 1, n);
  }

  /**
    Main result on termination: a walk has at most as many requests as the number of candles and the
    limit imply, whether it is finished or not, and when it has that many it is finished. If no two
    candles open at the same time, it is finished exactly then.
   */
  lemma {:induction false} WalkEnds(x: Texts, token: string, i: Interval, limit: int, visits: seq<Visit>)
    requires IsWalk(x, token, i, limit, visits) && CursorsReadable(x, visits)
    ensures var all := Wanted(x, token, i, visits);
            var most := PagesFor(|all|, ClampLimit(limit)) + 1;
            && |visits| <= most
            && (|visits| == most ==> Finished(visits))
            && (NoTies(all) && Finished(visits) ==> |visits| == most)
    decreases |visits|
  {
    hide Matching, IsNewest, SameBefore, EncodeCursor, DecodeCursor, CursorsReadable, NoTies, Wanted, Older, PagesFor;
    var v, n, all := visits[0], ClampLimit(limit), Wanted(x, token, i, visits);
    NewestOfWanted(x, token, i, limit, visits);
    PagesGrow(0, |all|, n);
    NoPages(|all|, n);
    if |visits| == 1 {
      EmptyPage(all, n, v.keys);
    } else {
      RestOfWalk(x, token, i, limit, visits);
      WalkEnds(x, token, i, limit, visits[1..]);
      PageAndOlder(all, n, v.keys);
      PagesNeeded(|all|, |Older(all, LastOpen(v.keys))|, |v.keys|, n);
      OlderHasNoTies(all, LastOpen(v.keys));
    }
  }

  lemma NoPages(count: nat, n: nat)
    requires n >= 1
    ensures PagesFor(count, n) == 0 <==> count == 0
  {
    if count == 0 {
      DivModUnique(n - 1, n, 0, n - 1);
    } else {
      PagesGrow(1, count, n);
      DivModUnique(n, n, 1, 0);
    }
  }

  lemma EmptyPage(all: set<CandleKey>, n: nat, keys: seq<CandleKey>)
    requires IsNewest(all, n, keys) && n >= 1
    ensures keys == [] <==> |all| == 0
  {
    if keys != [] {
      assert keys[0] in keys && keys[0] in all;
    }
    assert keys == [] ==> all == {};
  }

  lemma OlderHasNoTies(all: set<CandleKey>, t: Time)
    ensures NoTies(all) ==> NoTies(Older(all, t))
  {
  }

  // ---- what a finished walk collects ----------------------------------------------------------

  /** The rows of all pages, newest first. */
  ghost function Collected(visits: seq<Visit>): seq<CandleKey> {
    if visits == [] then [] else visits[0].keys + Collected(visits[1..])
  }

  /** The row opens together with the earliest one of a page, but fell behind the limit of that page. */
  ghost predicate CutOff(k: CandleKey, visits: seq<Visit>) {
    exists v <- visits :: v.keys != [] && k !in v.keys && k.open == LastOpen(v.keys)
  }

  /** The pages as received, put together oldest first. */
  ghost function OldestFirst(visits: seq<Visit>): seq<Row>
    requires forall v <- visits :: forall k <- v.keys :: k in v.klines
  {
    if visits == [] then [] else OldestFirst(visits[1..]) + Reversed(RowsOf(visits[0].klines, visits[0].keys))
  }

  lemma CutOffHere(k: CandleKey, visits: seq<Visit>)
    requires visits != []
    ensures CutOff(k, visits) <==>
              (visits[0].keys != [] && k !in visits[0].keys && k.open == LastOpen(visits[0].keys)) || CutOff(k, visits[1..])
  {
    assert visits == [visits[0]] + visits[1..];
    if CutOff(k, visits) {
      var v :| v in visits && v.keys != [] && k !in v.keys && k.open == LastOpen(v.keys);
      assert v == visits[0] || v in visits[1..];
    }
    if CutOff(k, visits[1..]) {
      var v :| v in visits[1..] && v.keys != [] && k !in v.keys && k.open == LastOpen(v.keys);
      assert v in visits;
    }
  }

  /**
    Main result on contents: a finished walk collects each candle before its first cursor once, newest
    first, except exactly those that a page cut off from another one with the same open time.
   */
  lemma {:induction false} WalkCollects(x: Texts, token: string, i: Interval, limit: int, visits: seq<Visit>)
    requires IsWalk(x, token, i, limit, visits) && CursorsReadable(x, visits) && Finished(visits)
    ensures NewestFirst(Collected(visits))
    ensures forall k :: k in Collected(visits) <==> k in Wanted(x, token, i, visits) && !CutOff(k, visits)
    decreases |visits|
  {
    hide Matching, EncodeCursor, DecodeCursor, Readable, CutOff, Wanted;
    var v, all := visits[0], Wanted(x, token, i, visits);
    assert v in visits;
    if |visits| == 1 {
      EmptyWalk(x, token, i, limit, visits);
    } else {
      RestOfWalk(x, token, i, limit, visits);
      WalkCollects(x, token, i, limit, visits[1..]);
      PageThenOlder(all, ClampLimit(limit), v.keys, Collected(visits[1..]));
      forall k
        ensures k in Collected(visits) <==> k in all && !CutOff(k, visits)
      {
        CutOffHere(k, visits);
        LaterCuts(x, token, i, limit, visits[1..], k);
        PageMember(all, ClampLimit(limit), v.keys, k);
      }
    }
  }

  lemma EmptyWalk(x: Texts, token: string, i: Interval, limit: int, visits: seq<Visit>)
    requires IsWalk(x, token, i, limit, visits) && |visits| == 1 && Finished(visits)
    ensures Collected(visits) == [] && Wanted(x, token, i, visits) == {}
  {
    hide Matching, DecodeCursor;
    assert visits[0] in visits && visits[1..] == [];
    EmptyPage(Wanted(x, token, i, visits), ClampLimit(limit), visits[0].keys);
  }

  lemma PageThenOlder(all: set<CandleKey>, n: nat, keys: seq<CandleKey>, rest: seq<CandleKey>)
    requires IsNewest(all, n, keys) && keys != [] && NewestFirst(rest)
    requires forall k <- rest :: k in Older(all, LastOpen(keys))
    ensures NewestFirst(keys + rest)
  {
    var both := keys + rest;
    forall a, b | 0 <= a < b < |both|
      ensures both[a].open >= both[b].open && both[a] != both[b]
    {
      if a < |keys| <= b {
        assert both[b] == rest[b - |keys|] && rest[b - |keys|] in rest;
        assert both[a].open >= LastOpen(keys);
      }
    }
  }

  /** A wanted row is on the page, older than the page, or cut off from it. */
  lemma PageMember(all: set<CandleKey>, n: nat, keys: seq<CandleKey>, k: CandleKey)
    requires IsNewest(all, n, keys) && keys != []
    ensures k in keys ==> k in all && k.open >= LastOpen(keys)
    ensures k in all && k !in keys ==> k.open == LastOpen(keys) || k in Older(all, LastOpen(keys))
  {
    assert keys[|keys| - 1] in keys;
    if k in keys {
      var j :| 0 <= j < |keys| && keys[j] == k;
    }
  }

  /** A walk cuts off only rows that open before its first cursor. */
  lemma {:induction false} LaterCuts(x: Texts, token: string, i: Interval, limit: int, visits: seq<Visit>, k: CandleKey)
    requires IsWalk(x, token, i, limit, visits) && CursorsReadable(x, visits)
    ensures CutOff(k, visits) ==> exists y <- Wanted(x, token, i, visits) :: y.open == k.open
    decreases |visits|
  {
    hide Matching, EncodeCursor, DecodeCursor, Readable, CutOff, Wanted;
    var v := visits[0];
    assert v in visits;
    CutOffHere(k, visits);
    NewestOfWanted(x, token, i, limit, visits);
    if CutOff(k, visits) {
      if v.keys != [] && k !in v.keys && k.open == LastOpen(v.keys) {
        assert v.keys[|v.keys| - 1] in v.keys;
      } else if |visits| > 1 {
        RestOfWalk(x, token, i, limit, visits);
        LaterCuts(x, token, i, limit, visits[1..], k);
      } else {
        assert visits[1..] == [];
        NoCutOff(k);
      }
    }
  }

  lemma NewestOfWanted(x: Texts, token: string, i: Interval, limit: int, visits: seq<Visit>)
    requires IsWalk(x, token, i, limit, visits)
    ensures IsNewest(Wanted(x, token, i, visits), ClampLimit(limit), visits[0].keys)
  {
    assert visits[0] in visits;
  }

  lemma NoCutOff(k: CandleKey)
    ensures !CutOff(k, [])
  {
  }

  // ---- exactly when everything is collected ---------------------------------------------------

  function AtLeast(all: set<CandleKey>, t: Time): set<CandleKey> {
    set k <- all | k.open >= t
  }

  /** From the newest candle on, the candles fall into groups of `n` without candles that open together being parted. */
  ghost predicate Unsplit(all: set<CandleKey>, n: nat)
    decreases |all|
  {
    || |all| <= n
    || exists t :: |AtLeast(all, t)| == n && |Older(all, t)| < |all| && Unsplit(Older(all, t), n)
  }

  /** The groups are the pages. */
  lemma UnsplitPage(all: set<CandleKey>, n: nat, keys: seq<CandleKey>)
    requires IsNewest(all, n, keys) && keys != []
    ensures Unsplit(all, n) <==>
      && (forall k <- all :: k in keys || k in Older(all, LastOpen(keys)))
      && Unsplit(Older(all, LastOpen(keys)), n)
  {
    hide IsNewest, Older, AtLeast;
    if |all| <= n {
      WholePage(all, n, keys);
    } else {
      if Unsplit(all, n) {
        var t :| |AtLeast(all, t)| == n && |Older(all, t)| < |all| && Unsplit(Older(all, t), n);
        GroupIsPage(all, n, keys, t);
      }
      if forall k <- all :: k in keys || k in Older(all, LastOpen(keys)) {
        PageIsGroup(all, n, keys);
      }
    }
  }

  /** A full page that parts no ties is a group. */
  lemma PageIsGroup(all: set<CandleKey>, n: nat, keys: seq<CandleKey>)
    requires IsNewest(all, n, keys) && keys != [] && |all| > n
    requires forall k <- all :: k in keys || k in Older(all, LastOpen(keys))
    ensures |AtLeast(all, LastOpen(keys))| == n && |Older(all, LastOpen(keys))| < |all|
  {
    hide IsNewest;
    var page, older, last := Members(keys), Older(all, LastOpen(keys)), keys[|keys| - 1];
    DistinctPage(all, n, keys);
    PageSplits(all, n, keys);
    NotOnPage(all, n, keys, last);
    assert last in keys && last in page;
    assert |keys| < n ==> all == page;
    forall k <- page
      ensures k in all && k.open >= LastOpen(keys)
    {
      PageMember(all, n, keys, k);
    }
    assert AtLeast(all, LastOpen(keys)) == page;
    SubsetSize(older, all - {last});
  }

  lemma NotOnPage(all: set<CandleKey>, n: nat, keys: seq<CandleKey>, k: CandleKey)
    requires IsNewest(all, n, keys)
    ensures |keys| <= n
    ensures k in all && k !in keys ==> |keys| == n && forall x <- keys :: k.open <= x.open
  {
  }

  lemma WholePage(all: set<CandleKey>, n: nat, keys: seq<CandleKey>)
    requires IsNewest(all, n, keys) && keys != [] && |all| <= n
    ensures (forall k <- all :: k in keys) && Older(all, LastOpen(keys)) == {}
  {
    hide IsNewest;
    DistinctPage(all, n, keys);
    var page := Members(keys);
    forall k <- all
      ensures k in keys && k.open >= LastOpen(keys)
    {
      NotOnPage(all, n, keys, k);
      PageMember(all, n, keys, k);
      if k !in keys {
        PageSplits(all, n, keys);
        SubsetSize(page + {k}, all);
      }
    }
  }

  /** A group of `n` without parted ties is the page. */
  lemma GroupIsPage(all: set<CandleKey>, n: nat, keys: seq<CandleKey>, t: Time)
    requires IsNewest(all, n, keys) && keys != [] && |AtLeast(all, t)| == n
    ensures Older(all, LastOpen(keys)) == Older(all, t)
    ensures forall k <- all :: k in keys || k in Older(all, LastOpen(keys))
  {
    hide IsNewest;
    GroupMembers(all, n, keys, t);
    assert keys[|keys| - 1] in keys;
    forall k <- all
      ensures k.open < LastOpen(keys) <==> k.open < t
    {
      PageMember(all, n, keys, k);
    }
  }

  lemma GroupMembers(all: set<CandleKey>, n: nat, keys: seq<CandleKey>, t: Time)
    requires IsNewest(all, n, keys) && keys != [] && |AtLeast(all, t)| == n
    ensures forall k <- all :: k in keys <==> k.open >= t
    ensures forall k <- keys :: k.open >= t
  {
    hide IsNewest;
    var page, group := Members(keys), AtLeast(all, t);
    DistinctPage(all, n, keys);
    PageSplits(all, n, keys);
    NotOnPage(all, n, keys, keys[0]);
    forall k <- group
      ensures k in page
    {
      NotOnPage(all, n, keys, k);
      if k !in keys {
        assert page + {k} <= group;
        SubsetSize(page + {k}, group);
      }
    }
    SameSize(group, page);
    forall k <- all
      ensures k in keys <==> k.open >= t
    {
      assert k in keys <==> k in page;
      assert k in group <==> k.open >= t;
    }
    forall k <- keys
      ensures k.open >= t
    {
      assert k in page;
    }
  }

  lemma SameSize<T>(a: set<T>, b: set<T>)
    requires a <= b && |b| <= |a|
    ensures a == b
  {
    assert b == a + (b - a);
    UnionSize(a, b - a);
  }

  /**
    Main result on completeness: a finished walk collects every candle exactly when the groups of as many
    candles as the limit allows, from the newest candle on, part no candles that open together.
   */
  lemma {:induction false} WalkIsCompleteExactly(x: Texts, token: string, i: Interval, limit: int, visits: seq<Visit>)
    requires IsWalk(x, token, i, limit, visits) && CursorsReadable(x, visits) && Finished(visits)
    ensures (forall k <- Wanted(x, token, i, visits) :: k in Collected(visits))
       <==> Unsplit(Wanted(x, token, i, visits), ClampLimit(limit))
    decreases |visits|
  {
    hide Matching, EncodeCursor, DecodeCursor, Readable, CutOff, Wanted, Unsplit, IsNewest, SameBefore;
    var v, n, all := visits[0], ClampLimit(limit), Wanted(x, token, i, visits);
    if |visits| == 1 {
      EmptyWalk(x, token, i, limit, visits);
      NothingToSplit(n);
    } else {
      RestOfWalk(x, token, i, limit, visits);
      WalkCollects(x, token, i, limit, visits[1..]);
      WalkIsCompleteExactly(x, token, i, limit, visits[1..]);
      UnsplitPage(all, n, v.keys);
      forall k <- Older(all, LastOpen(v.keys))
        ensures k in all && k !in v.keys
      {
        PageMember(all, n, v.keys, k);
      }
    }
  }

  lemma NothingToSplit(n: nat)
    ensures Unsplit({}, n)
  {
  }

  /** If no two candles open at the same time, everything is collected. */
  lemma WalkCollectsEverything(x: Texts, token: string, i: Interval, limit: int, visits: seq<Visit>)
    requires IsWalk(x, token, i, limit, visits) && CursorsReadable(x, visits) && Finished(visits)
    requires NoTies(Wanted(x, token, i, visits))
    ensures NewestFirst(Collected(visits))
    ensures forall k :: k in Collected(visits) <==> k in Wanted(x, token, i, visits)
  {
    hide IsNewest, SameBefore, Matching, DecodeCursor, EncodeCursor, CursorsReadable, Wanted, CutOff, Unsplit, NoTies;
    WalkCollects(x, token, i, limit, visits);
    WalkIsCompleteExactly(x, token, i, limit, visits);
    NoTiesUnsplit(Wanted(x, token, i, visits), ClampLimit(limit));
  }

  /** Without ties no grouping parts any. */
  lemma {:induction false} NoTiesUnsplit(all: set<CandleKey>, n: nat)
    requires NoTies(all) && n >= 1
    ensures Unsplit(all, n)
    decreases |all|
  {
    hide IsNewest, Unsplit, NoTies;
    if all == {} {
      NothingToSplit(n);
    } else {
      var keys := PageExists(all, n);
      EmptyPage(all, n, keys);
      PageAndOlder(all, n, keys);
      OlderHasNoTies(all, LastOpen(keys));
      NoTiesUnsplit(Older(all, LastOpen(keys)), n);
      UnsplitPage(all, n, keys);
    }
  }

  /** Pages of one candle part all ties. */
  lemma {:induction false} UnsplitOnes(all: set<CandleKey>, a: CandleKey, b: CandleKey)
    requires Unsplit(all, 1) && a in all && b in all && a.open == b.open
    ensures a == b
    decreases |all|
  {
    hide Unsplit;
    var keys := PageExists(all, 1);
    EmptyPage(all, 1, keys);
    PageAndOlder(all, 1, keys);
    UnsplitPage(all, 1, keys);
    assert keys == [keys[0]];
    if a in Older(all, LastOpen(keys)) {
      UnsplitOnes(Older(all, LastOpen(keys)), a, b);
    }
  }

  /** The pages put together oldest first show the collected candles as the first table has them. */
  lemma {:induction false} PagesShowCollected(x: Texts, token: string, i: Interval, limit: int, visits: seq<Visit>)
    requires IsWalk(x, token, i, limit, visits) && CursorsReadable(x, visits) && Finished(visits)
    ensures forall v <- visits :: forall k <- v.keys :: k in v.klines
    ensures forall k <- Collected(visits) :: k in visits[0].klines
    ensures OldestFirst(visits) == Reversed(RowsOf(visits[0].klines, Collected(visits)))
    decreases |visits|
  {
    hide EncodeCursor, DecodeCursor, Readable;
    WalkCollects(x, token, i, limit, visits);
    var v := visits[0];
    assert v in visits;
    if |visits| == 1 {
      EmptyWalk(x, token, i, limit, visits);
      assert visits[1..] == [] && v.keys == [];
    } else {
      var rest := visits[1..];
      RestOfWalk(x, token, i, limit, visits);
      PagesShowCollected(x, token, i, limit, rest);
      WalkCollects(x, token, i, limit, rest);
      forall k <- Collected(rest)
        ensures k in v.klines && v.klines[k] == rest[0].klines[k]
      {
        assert k in Wanted(x, token, i, rest);
      }
      RowsJoin(v.klines, rest[0].klines, v.keys, Collected(rest));
    }
  }

  lemma RowsJoin(klines: Klines, later: Klines, keys: seq<CandleKey>, rest: seq<CandleKey>)
    requires (forall k <- keys :: k in klines) && (forall k <- rest :: k in klines && k in later && klines[k] == later[k])
    ensures forall k <- keys + rest :: k in klines
    ensures Reversed(RowsOf(klines, keys + rest)) == Reversed(RowsOf(later, rest)) + Reversed(RowsOf(klines, keys))
  {
    assert RowsOf(klines, keys + rest) == RowsOf(klines, keys) + RowsOf(later, rest);
  }

  // ---- walks over readable tables -------------------------------------------------------------

  /** If all wanted candles have readable times, so have all cursors. */
  lemma {:induction false} ReadableTable(x: Texts, token: string, i: Interval, limit: int, visits: seq<Visit>)
    requires IsWalk(x, token, i, limit, visits)
    requires IsBase64(x) && forall k <- Wanted(x, token, i, visits) :: Readable(k.open)
    ensures CursorsReadable(x, visits)
    decreases |visits|
  {
    hide Matching, EncodeCursor, DecodeCursor, Readable, Wanted;
    var v := visits[0];
    NewestOfWanted(x, token, i, limit, visits);
    if v.keys != [] {
      assert v.keys[|v.keys| - 1] in v.keys;
    }
    assert visits == [v] + visits[1..];
    if |visits| > 1 {
      RestIsWalk(x, token, i, limit, visits);
      ReadableTable(x, token, i, limit, visits[1..]);
    }
  }

  /** Main result: over candles of whole seconds in the years 0 to 9999 walks end, and collect what no page cut off. */
  lemma ReadableTableIsPaged(x: Texts, token: string, i: Interval, limit: int, visits: seq<Visit>)
    requires IsWalk(x, token, i, limit, visits)
    requires IsBase64(x) && forall k <- Wanted(x, token, i, visits) :: Readable(k.open)
    ensures |visits| <= PagesFor(|Wanted(x, token, i, visits)|, ClampLimit(limit)) + 1
    ensures |visits| == PagesFor(|Wanted(x, token, i, visits)|, ClampLimit(limit)) + 1 ==> Finished(visits)
    ensures Finished(visits) ==>
      && NewestFirst(Collected(visits))
      && (forall k :: k in Collected(visits) <==> k in Wanted(x, token, i, visits) && !CutOff(k, visits))
  {
    hide IsWalk, Wanted, CutOff, Readable, PagesFor;
    NotEmpty(x, token, i, limit, visits);
    ReadableTable(x, token, i, limit, visits);
    WalkEnds(x, token, i, limit, visits);
    if Finished(visits) {
      WalkCollects(x, token, i, limit, visits);
    }
  }

  lemma NotEmpty(x: Texts, token: string, i: Interval, limit: int, visits: seq<Visit>)
    requires IsWalk(x, token, i, limit, visits)
    ensures visits != []
  {
  }
}
