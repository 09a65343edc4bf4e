/**
  How far back a reading must start to leave the token rows exact.

  A process that reads old blocks again puts old values into the token rows. Next to the end `top` of
  the blocks applied so far there is therefore a clean mark: reading from any block up to that mark
  through to `top` makes the rows exact again.
 */
module TokenRepair {
  import opened Common
  import opened ChainEvents
  import opened ChainIndexer
  import opened TokenRows

  /** The events of the blocks `lo`, ..., `hi - 1`. */
  ghost function EventsIn(chain: Chain, lo: nat, hi: nat): seq<Projection> {
    Events(chain, LogsIn(chain, lo, hi))
  }

  lemma EventsInSplit(chain: Chain, lo: nat, mid: nat, hi: nat)
    requires lo <= mid <= hi
    ensures EventsIn(chain, lo, hi) == EventsIn(chain, lo, mid) + EventsIn(chain, mid, hi)
  {
    LogsInSplit(chain, lo, mid, hi);
    EventsConcat(chain, LogsIn(chain, lo, mid), LogsIn(chain, mid, hi));
  }

  ghost function WritesIn(chain: Chain, token: string, lo: nat, hi: nat): Writes {
    AllWrites(EventsIn(chain, lo, hi), token)
  }

  lemma WritesInSplit(chain: Chain, token: string, lo: nat, mid: nat, hi: nat)
    requires lo <= mid <= hi
    ensures WritesIn(chain, token, lo, hi) == Join(WritesIn(chain, token, lo, mid), WritesIn(chain, token, mid, hi))
  {
    EventsInSplit(chain, lo, mid, hi);
    AllWritesConcat(EventsIn(chain, lo, mid), EventsIn(chain, mid, hi), token);
  }

  /** The exact row of a token after the blocks `start`, ..., `top - 1`. */
  ghost function ExactRow(chain: Chain, token: string, start: nat, top: nat): Option<TokenRow> {
    RowFold(None, EventsIn(chain, start, top), token)
  }

  ghost predicate CreationsFirst(chain: Chain, start: nat) {
    forall token, hi :: CreatedFirst(EventsIn(chain, start, hi), token)
  }

  /** Reading from any block between `start` and `clean` to `top` makes the row exact. */
  ghost predicate Repairable(chain: Chain, token: string, r: Option<TokenRow>, start: nat, clean: nat, top: nat) {
    && start <= clean <= top
    && (r.Some? <==> ExactRow(chain, token, start, top).Some?)
    && forall d :: start <= d <= clean ==> RowFold(r, EventsIn(chain, d, top), token) == ExactRow(chain, token, start, top)
  }

  /** The clean mark moves to the end of a range that starts at or before it. */
  function CleanAfter(clean: nat, lo: nat, hi: nat): nat {
    if lo <= clean then hi else clean
  }

  function TopAfter(top: nat, hi: nat): nat {
    if hi > top then hi else top
  }

  // ---- writes absorb what they contain --------------------------------------------------------

  /** Writing `b` .. `c` and then `a` .. `d` around it is writing `a` .. `d`. */
  lemma InnerAbsorbed(chain: Chain, token: string, a: nat, b: nat, c: nat, d: nat)
    requires a <= b <= c <= d
    ensures Join(WritesIn(chain, token, b, c), WritesIn(chain, token, a, d)) == WritesIn(chain, token, a, d)
  {
    WritesInSplit(chain, token, a, b, d);
    WritesInSplit(chain, token, b, c, d);
  }

  /** Writing `a` .. `c` and then `b` .. `d` with `b <= c` is writing `a` .. `d`. */
  lemma OverlapAbsorbed(chain: Chain, token: string, a: nat, b: nat, c: nat, d: nat)
    requires a <= b <= c <= d
    ensures Join(WritesIn(chain, token, a, c), WritesIn(chain, token, b, d)) == WritesIn(chain, token, a, d)
  {
    WritesInSplit(chain, token, a, b, c);
    WritesInSplit(chain, token, b, c, d);
    WritesInSplit(chain, token, a, b, d);
  }

  // ---- one committed range --------------------------------------------------------------------

  /** A committed range `lo` .. `hi - 1` that starts inside the applied blocks keeps the row repairable. */
  lemma RangeKeepsRepairable(chain: Chain, token: string, r: Option<TokenRow>, start: nat, clean: nat, top: nat,
                             lo: nat, hi: nat)
    requires CreationsFirst(chain, start)
    requires Repairable(chain, token, r, start, clean, top)
    requires start <= lo <= top && lo < hi
    ensures Repairable(chain, token, RowFold(r, EventsIn(chain, lo, hi), token), start,
                       CleanAfter(clean, lo, hi), TopAfter(top, hi))
  {
    if r.Some? {
      ExistingRowRepairable(chain, token, r.value, start, clean, top, lo, hi);
    } else {
      AbsentRowRepairable(chain, token, start, clean, top, lo, hi);
    }
  }

  lemma ExistingRowRepairable(chain: Chain, token: string, row: TokenRow, start: nat, clean: nat, top: nat,
                              lo: nat, hi: nat)
    requires Repairable(chain, token, Some(row), start, clean, top)
    requires start <= lo <= top && lo < hi
    ensures Repairable(chain, token, RowFold(Some(row), EventsIn(chain, lo, hi), token), start,
                       CleanAfter(clean, lo, hi), TopAfter(top, hi))
  {
    hide EventsIn;
    var top', clean' := TopAfter(top, hi), CleanAfter(clean, lo, hi);
    var exact := ExactRow(chain, token, start, top).value;
    EventsInSplit(chain, start, top, top');
    RowFoldConcat(None, EventsIn(chain, start, top), EventsIn(chain, top, top'), token);
    ExistingRow(exact, EventsIn(chain, top, top'), token);
    var goal := Overlay(exact, WritesIn(chain, token, top, top'));
    assert ExactRow(chain, token, start, top') == Some(goal);

    ExistingRow(row, EventsIn(chain, lo, hi), token);
    var row' := Overlay(row, WritesIn(chain, token, lo, hi));
    forall d | start <= d <= clean'
      ensures RowFold(Some(row'), EventsIn(chain, d, top'), token) == Some(goal)
    {
      var from := if d < lo then d else lo;
      if d < lo {
        InnerAbsorbed(chain, token, d, lo, hi, top');
      } else {
        OverlapAbsorbed(chain, token, lo, d, hi, top');
      }
      OverlayJoin(row, WritesIn(chain, token, lo, hi), WritesIn(chain, token, d, top'));
      ExistingRow(row', EventsIn(chain, d, top'), token);
      WritesInSplit(chain, token, from, top, top');
      OverlayJoin(row, WritesIn(chain, token, from, top), WritesIn(chain, token, top, top'));
      ExistingRow(row, EventsIn(chain, from, top), token);
    }
  }

  lemma AbsentRowRepairable(chain: Chain, token: string, start: nat, clean: nat, top: nat, lo: nat, hi: nat)
    requires CreationsFirst(chain, start)
    requires Repairable(chain, token, None, start, clean, top)
    requires start <= lo <= top && lo < hi
    ensures Repairable(chain, token, RowFold(None, EventsIn(chain, lo, hi), token), start,
                       CleanAfter(clean, lo, hi), TopAfter(top, hi))
  {
    hide EventsIn;
    var top' := TopAfter(top, hi);
    var before, after := EventsIn(chain, start, top), EventsIn(chain, top, top');
    EventsInSplit(chain, start, top, top');
    AbsentRow(before, token);
    AbsentRow(after, token);
    RowFoldConcat(None, before, after, token);
    if HasCreation(after, token) {
      NewRowRepairable(chain, token, start, clean, top, lo, hi);
    } else {
      forall d | start <= d <= top'
        ensures RowFold(None, EventsIn(chain, d, top'), token) == None
      {
        EventsInSplit(chain, start, d, top');
        AbsentRow(EventsIn(chain, d, top'), token);
        AbsentRow(before + after, token);
      }
      EventsInSplit(chain, lo, hi, top');
      AbsentRow(EventsIn(chain, lo, top'), token);
      AbsentRow(EventsIn(chain, lo, hi), token);
    }
  }

  lemma NewRowRepairable(chain: Chain, token: string, start: nat, clean: nat, top: nat, lo: nat, hi: nat)
    requires CreationsFirst(chain, start)
    requires start <= clean <= top && ExactRow(chain, token, start, top) == None
    requires start <= lo <= top < hi
    requires HasCreation(EventsIn(chain, top, hi), token)
    ensures Repairable(chain, token, RowFold(None, EventsIn(chain, lo, hi), token), start,
                       CleanAfter(clean, lo, hi), hi)
  {
    hide EventsIn;
    var before, after := EventsIn(chain, start, top), EventsIn(chain, top, hi);
    EventsInSplit(chain, start, top, hi);
    AbsentRow(before, token);
    FirstCreatedLater(before, after, token);
    var e := CreatedTokenRow(after, token);
    var row := Overlay(InitialTokenRow(e), WritesIn(chain, token, top, hi));
    assert RowFold(None, after, token) == Some(row);
    forall d | start <= d <= top
      ensures RowFold(None, EventsIn(chain, d, hi), token) == Some(row)
      ensures WritesIn(chain, token, d, top) == NO_WRITES
    {
      EventsInSplit(chain, start, d, top);
      EventsInSplit(chain, d, top, hi);
      Untouched(EventsIn(chain, d, top), token);
      AbsentRow(EventsIn(chain, d, top), token);
      RowFoldConcat(None, EventsIn(chain, d, top), after, token);
    }
    forall d | start <= d <= hi
      ensures RowFold(Some(row), EventsIn(chain, d, hi), token) == Some(row)
    {
      ExistingRow(row, EventsIn(chain, d, hi), token);
      OverlayJoin(InitialTokenRow(e), WritesIn(chain, token, top, hi), WritesIn(chain, token, d, hi));
      if d <= top {
        WritesInSplit(chain, token, d, top, hi);
      } else {
        OverlapAbsorbed(chain, token, top, d, hi, hi);
      }
    }
  }

  // ---- the row of a token in closed form ------------------------------------------------------

  /** Both write the same kinds of fields. */
  predicate SameKinds(w: Writes, v: Writes) {
    && (w.identity.Some? <==> v.identity.Some?) && (w.totals.Some? <==> v.totals.Some?)
    && (w.graduated <==> v.graduated) && (w.touched.Some? <==> v.touched.Some?)
  }

  /**
    The row is the first creation in the blocks `start`, ..., `top - 1`, overlaid with `w`, the joined
    writes of all ranges read so far; there is none if those blocks create no such token.
   */
  ghost predicate RowCarries(chain: Chain, token: string, r: Option<TokenRow>, start: nat, top: nat, w: Writes) {
    && SameKinds(w, WritesIn(chain, token, start, top))
    && match FirstCreation(EventsIn(chain, start, top), token)
       case None => r.None?
       case Some(e) => r == Some(Overlay(InitialTokenRow(e), w))
  }

  lemma RangeKeepsCarries(chain: Chain, token: string, r: Option<TokenRow>, start: nat, top: nat, w: Writes,
                          lo: nat, hi: nat)
    requires CreationsFirst(chain, start) && RowCarries(chain, token, r, start, top, w)
    requires start <= lo <= top && lo < hi
    ensures RowCarries(chain, token, RowFold(r, EventsIn(chain, lo, hi), token), start, TopAfter(top, hi),
                       Join(w, WritesIn(chain, token, lo, hi)))
  {
    hide EventsIn;
    var top' := TopAfter(top, hi);
    KindsAfterRange(chain, token, start, top, w, lo, hi);
    EventsInSplit(chain, start, top, top');
    FirstCreationConcat(EventsIn(chain, start, top), EventsIn(chain, top, top'), token);
    match FirstCreation(EventsIn(chain, start, top), token) {
      case Some(e) =>
        ExistingRow(r.value, EventsIn(chain, lo, hi), token);
        OverlayJoin(InitialTokenRow(e), w, WritesIn(chain, token, lo, hi));
      case None =>
        AbsentRowCarries(chain, token, start, top, w, lo, hi);
    }
  }

  lemma KindsAfterRange(chain: Chain, token: string, start: nat, top: nat, w: Writes, lo: nat, hi: nat)
    requires SameKinds(w, WritesIn(chain, token, start, top))
    requires start <= lo <= top && lo < hi
    ensures SameKinds(Join(w, WritesIn(chain, token, lo, hi)), WritesIn(chain, token, start, TopAfter(top, hi)))
  {
    hide WritesIn;
    var top' := TopAfter(top, hi);
    WritesInSplit(chain, token, start, top, top');
    WritesInSplit(chain, token, start, lo, top');
    WritesInSplit(chain, token, lo, hi, top');
    if top < hi {
      WritesInSplit(chain, token, lo, top, hi);
    }
  }

  lemma AbsentRowCarries(chain: Chain, token: string, start: nat, top: nat, w: Writes, lo: nat, hi: nat)
    requires CreationsFirst(chain, start) && RowCarries(chain, token, None, start, top, w)
    requires FirstCreation(EventsIn(chain, start, top), token).None?
    requires start <= lo <= top && lo < hi
    ensures RowCarries(chain, token, RowFold(None, EventsIn(chain, lo, hi), token), start, TopAfter(top, hi),
                       Join(w, WritesIn(chain, token, lo, hi)))
  {
    hide EventsIn;
    var top' := TopAfter(top, hi);
    var before, after := EventsIn(chain, start, top), EventsIn(chain, top, top');
    KindsAfterRange(chain, token, start, top, w, lo, hi);
    EventsInSplit(chain, start, top, top');
    EventsInSplit(chain, start, lo, top);
    FirstCreationConcat(before, after, token);
    FirstCreationConcat(EventsIn(chain, start, lo), EventsIn(chain, lo, top), token);
    CreationIsFirst(before, token);
    CreationIsFirst(after, token);
    if HasCreation(after, token) {
      EventsInSplit(chain, lo, top, hi);
      FirstCreatedLater(before, after, token);
      Untouched(before, token);
      Untouched(EventsIn(chain, lo, top), token);
      AllWritesConcat(EventsIn(chain, lo, top), after, token);
      CreationIsFirst(EventsIn(chain, lo, top), token);
      AbsentRow(EventsIn(chain, lo, top), token);
      RowFoldConcat(None, EventsIn(chain, lo, top), after, token);
      var e := CreatedTokenRow(after, token);
    } else {
      EventsInSplit(chain, start, lo, top');
      EventsInSplit(chain, lo, hi, top');
      FirstCreationConcat(EventsIn(chain, start, lo), EventsIn(chain, lo, top'), token);
      FirstCreationConcat(EventsIn(chain, lo, hi), EventsIn(chain, hi, top'), token);
      CreationIsFirst(EventsIn(chain, lo, hi), token);
      AbsentRow(EventsIn(chain, lo, hi), token);
    }
  }

  /** A row that carries `w` is exact precisely when `w` is what all blocks write together. */
  lemma CarriedRowExactly(chain: Chain, token: string, r: Option<TokenRow>, start: nat, top: nat, w: Writes)
    requires CreationsFirst(chain, start) && RowCarries(chain, token, r, start, top, w)
    ensures r == ExactRow(chain, token, start, top)
       <==> (HasCreation(EventsIn(chain, start, top), token) ==> w == WritesIn(chain, token, start, top))
  {
    hide EventsIn;
    var ps := EventsIn(chain, start, top);
    CreationIsFirst(ps, token);
    AbsentRow(ps, token);
    if HasCreation(ps, token) {
      var e := CreatedTokenRow(ps, token);
    }
  }
}
