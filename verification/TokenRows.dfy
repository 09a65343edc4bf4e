/**
  Rows of the token table, one token at a time. An update only overwrites fields with constants of its
  event, so a list of events acts on an existing row through the last write to each group of fields.
 */
module TokenRows {
  import opened Common
  import opened GoTime
  import opened Price
  import opened ChainEvents

  // ---- one row under one projection -----------------------------------------------------------

  function TokenOf(p: Projection): Option<string> {
    match p
    case Created(e) => Some(Lower(e.token))
    case Bought(e) => Some(Lower(e.token))
    case Sold(e) => Some(Lower(e.token))
    case Graduated(e) => Some(Lower(e.token))
    case Nothing => None
  }

  predicate Creates(p: Projection, token: string) {
    p.Created? && TokenOf(p) == Some(token)
  }

  /** The fields of a token row that some events set. */
  datatype Identity = Identity(name: string, symbol: string, creator: string, totalSupply: int)
  datatype Totals = Totals(bnb: int, available: int)
  datatype Writes = Writes(identity: Option<Identity>, totals: Option<Totals>, graduated: bool, touched: Option<Time>)

  const NO_WRITES := Writes(None, None, false, None)

  function Later<T>(a: Option<T>, b: Option<T>): Option<T> {
    if b.Some? then b else a
  }

  /** The writes of `a` followed by those of `b`. */
  function Join(a: Writes, b: Writes): Writes {
    Writes(Later(a.identity, b.identity), Later(a.totals, b.totals), a.graduated || b.graduated,
           Later(a.touched, b.touched))
  }

  function TradeWrites(e: TokenTrade): Writes {
    Writes(None, Some(Totals(IntValue(e.collected), IntValue(e.available))), false, Some(e.time))
  }

  function WritesOf(p: Projection, token: string): Writes {
    if TokenOf(p) != Some(token) then NO_WRITES
    else
      match p
      case Created(e) =>
        Writes(Some(Identity(e.name, e.symbol, Lower(e.creator), IntValue(e.totalSupply))), None, false, Some(e.time))
      case Bought(e) => TradeWrites(e)
      case Sold(e) => TradeWrites(e)
      case Graduated(e) => Writes(None, None, true, Some(e.time))
      case Nothing => NO_WRITES
  }

  function AllWrites(ps: seq<Projection>, token: string): Writes {
    if ps == [] then NO_WRITES
    else Join(AllWrites(ps[..|ps| - 1], token), WritesOf(ps[|ps| - 1], token))
  }

  function Overlay(row: TokenRow, w: Writes): TokenRow {
    var id := w.identity.GetOr(Identity(row.name, row.symbol, row.creator, row.totalSupply));
    var totals := w.totals.GetOr(Totals(row.bnbCurrent, row.available));
    TokenRow(id.name, id.symbol, id.creator, row.launchMode, totals.bnb, row.bnbTarget, id.totalSupply, totals.available,
             if w.graduated then TOKEN_STATUS_GRADUATED else row.status,
             row.createdAt, w.touched.GetOr(row.updatedAt))
  }

  predicate HasCreation(ps: seq<Projection>, token: string) {
    exists p <- ps :: Creates(p, token)
  }

  /** The token row the projections leave when they start from row `r`. */
  function RowFold(r: Option<TokenRow>, ps: seq<Projection>, token: string): Option<TokenRow> {
    if ps == [] then r
    else
      var before := RowFold(r, ps[..|ps| - 1], token);
      var p := ps[|ps| - 1];
      if before.Some? then Some(Overlay(before.value, WritesOf(p, token)))
      else if Creates(p, token) then Some(InitialTokenRow(p.c))
      else None
  }

  lemma ApplyOnRow(t: Tables, p: Projection, token: string)
    ensures Get(Apply(t, p).tokens, token) == RowFold(Get(t.tokens, token), [p], token)
  {
    assert [p][..0] == [];
    assert RowFold(Get(t.tokens, token), [], token) == Get(t.tokens, token);
  }

  /** The token table is the table of the row folds. */
  lemma {:induction false} TokensAreRowFolds(t: Tables, ps: seq<Projection>, token: string)
    ensures Get(ApplyAll(t, ps).tokens, token) == RowFold(Get(t.tokens, token), ps, token)
  {
    if ps != [] {
      var n := |ps| - 1;
      TokensAreRowFolds(t, ps[..n], token);
      ApplyOnRow(ApplyAll(t, ps[..n]), ps[n], token);
      assert [ps[n]][..0] == [];
    }
  }

  // ---- algebra of writes ----------------------------------------------------------------------

  lemma {:induction false} AllWritesConcat(a: seq<Projection>, b: seq<Projection>, token: string)
    ensures AllWrites(a + b, token) == Join(AllWrites(a, token), AllWrites(b, token))
    decreases |b|
  {
    if b == [] {
      assert a + b == a;
    } else {
      var n := |b| - 1;
      assert (a + b)[..|a + b| - 1] == a + b[..n];
      AllWritesConcat(a, b[..n], token);
    }
  }

  lemma {:induction false} RowFoldConcat(r: Option<TokenRow>, a: seq<Projection>, b: seq<Projection>, token: string)
    ensures RowFold(r, a + b, token) == RowFold(RowFold(r, a, token), b, token)
    decreases |b|
  {
    if b == [] {
      assert a + b == a;
    } else {
      var n := |b| - 1;
      assert (a + b)[..|a + b| - 1] == a + b[..n];
      RowFoldConcat(r, a, b[..n], token);
    }
  }

  lemma OverlayJoin(row: TokenRow, a: Writes, b: Writes)
    ensures Overlay(Overlay(row, a), b) == Overlay(row, Join(a, b))
  {
  }

  /** On an existing row a list of events acts through its writes. */
  lemma {:induction false} ExistingRow(row: TokenRow, ps: seq<Projection>, token: string)
    ensures RowFold(Some(row), ps, token) == Some(Overlay(row, AllWrites(ps, token)))
  {
    if ps != [] {
      var n := |ps| - 1;
      ExistingRow(row, ps[..n], token);
      OverlayJoin(row, AllWrites(ps[..n], token), WritesOf(ps[n], token));
    }
  }

  lemma {:induction false} AbsentRow(ps: seq<Projection>, token: string)
    ensures RowFold(None, ps, token).Some? <==> HasCreation(ps, token)
  {
    if ps != [] {
      var n := |ps| - 1;
      AbsentRow(ps[..n], token);
      assert ps == ps[..n] + [ps[n]];
      if HasCreation(ps, token) {
        var p :| p in ps && Creates(p, token);
        assert p in ps[..n] || p == ps[n];
      }
    }
  }

  // ---- creation first -------------------------------------------------------------------------

  /** No event of the token comes before its first `TokenCreated`, if it has one. */
  predicate CreatedFirst(ps: seq<Projection>, token: string) {
    if ps == [] then true
    else
      var init := ps[..|ps| - 1];
      && CreatedFirst(init, token)
      && (Creates(ps[|ps| - 1], token) && !HasCreation(init, token) ==> forall p <- init :: TokenOf(p) != Some(token))
  }

  lemma {:induction false} Untouched(ps: seq<Projection>, token: string)
    requires forall p <- ps :: TokenOf(p) != Some(token)
    ensures AllWrites(ps, token) == NO_WRITES
  {
    if ps != [] {
      Untouched(ps[..|ps| - 1], token);
    }
  }

  /** The first `TokenCreated` of the token. */
  function FirstCreation(ps: seq<Projection>, token: string): Option<TokenCreated> {
    if ps == [] then None
    else
      var first := FirstCreation(ps[..|ps| - 1], token);
      var p := ps[|ps| - 1];
      if first.None? && Creates(p, token) then Some(p.c) else first
  }

  lemma {:induction false} FirstCreationConcat(a: seq<Projection>, b: seq<Projection>, token: string)
    ensures FirstCreation(a + b, token) ==
      if FirstCreation(a, token).Some? then FirstCreation(a, token) else FirstCreation(b, token)
    decreases |b|
  {
    if b == [] {
      assert a + b == a;
    } else {
      var n := |b| - 1;
      assert (a + b)[..|a + b| - 1] == a + b[..n];
      FirstCreationConcat(a, b[..n], token);
    }
  }

  lemma {:induction false} CreationIsFirst(ps: seq<Projection>, token: string)
    ensures FirstCreation(ps, token).Some? <==> HasCreation(ps, token)
  {
    if ps != [] {
      var n := |ps| - 1;
      CreationIsFirst(ps[..n], token);
      assert ps == ps[..n] + [ps[n]];
      if HasCreation(ps, token) {
        var p :| p in ps && Creates(p, token);
        assert p in ps[..n] || p == ps[n];
      }
    }
  }

  /** A token created in `ps` carries the first `TokenCreated`, overlaid with everything in `ps`. */
  lemma {:induction false} CreatedTokenRow(ps: seq<Projection>, token: string) returns (e: TokenCreated)
    requires CreatedFirst(ps, token) && HasCreation(ps, token)
    ensures FirstCreation(ps, token) == Some(e)
    ensures RowFold(None, ps, token) == Some(Overlay(InitialTokenRow(e), AllWrites(ps, token)))
  {
    CreationIsFirst(ps[..|ps| - 1], token);
    var n := |ps| - 1;
    var p := ps[n];
    assert ps == ps[..n] + [p];
    if HasCreation(ps[..n], token) {
      e := CreatedTokenRow(ps[..n], token);
      OverlayJoin(InitialTokenRow(e), AllWrites(ps[..n], token), WritesOf(p, token));
    } else {
      var q :| q in ps && Creates(q, token);
      assert q == p;
      AbsentRow(ps[..n], token);
      Untouched(ps[..n], token);
      e := p.c;
    }
  }

  /** If the token is first created in `b`, nothing in `a` touches it. */
  lemma {:induction false} FirstCreatedLater(a: seq<Projection>, b: seq<Projection>, token: string)
    requires CreatedFirst(a + b, token) && !HasCreation(a, token) && HasCreation(b, token)
    ensures forall p <- a :: TokenOf(p) != Some(token)
    ensures CreatedFirst(b, token)
    decreases |b|
  {
    var n := |b| - 1;
    assert b == b[..n] + [b[n]];
    assert (a + b)[..|a + b| - 1] == a + b[..n];
    if HasCreation(b[..n], token) {
      FirstCreatedLater(a, b[..n], token);
    } else {
      forall p <- a + b[..n]
        ensures !Creates(p, token)
      {
        assert p in a || p in b[..n];
      }
      var q :| q in b && Creates(q, token);
      assert q == b[n];
      forall p | p in a || p in b[..n]
        ensures TokenOf(p) != Some(token)
      {
        assert p in a + b[..n];
      }
      NoCreation(b[..n], token);
    }
  }

  lemma {:induction false} NoCreation(ps: seq<Projection>, token: string)
    requires !HasCreation(ps, token)
    ensures CreatedFirst(ps, token)
  {
    if ps != [] {
      var n := |ps| - 1;
      assert ps[n] in ps;
      forall p <- ps[..n]
        ensures !Creates(p, token)
      {
        assert p in ps;
      }
      NoCreation(ps[..n], token);
    }
  }

  // ---- reading everything again ---------------------------------------------------------------

  /**
    Without that order a second reading can leave a different row. It restores the row of a token whose
    first creation is `e`, exactly when the events before the creation wrote no totals and no graduation
    that the later events, or the creation itself, do not write again.
   */
  lemma RereadRestoresRow(pre: seq<Projection>, e: TokenCreated, post: seq<Projection>, token: string)
    requires Lower(e.token) == token && !HasCreation(pre, token)
    ensures var ps := pre + [Created(e)] + post;
            var once := RowFold(None, ps, token);
            var w, v, row := AllWrites(pre, token), AllWrites(post, token), InitialTokenRow(e);
            RowFold(once, ps, token) == once
            <==> && (w.totals.Some? && v.totals.None? ==> w.totals.value == Totals(row.bnbCurrent, row.available))
                 && (w.graduated && !v.graduated ==> row.status == TOKEN_STATUS_GRADUATED)
  {
    var mid := [Created(e)];
    var ps := pre + mid + post;
    var row := InitialTokenRow(e);
    AbsentRow(pre, token);
    RowFoldConcat(None, pre, mid, token);
    assert mid[..0] == [];
    assert RowFold(None, mid, token) == Some(row);
    RowFoldConcat(None, pre + mid, post, token);
    ExistingRow(row, post, token);
    var once := Overlay(row, AllWrites(post, token));
    assert RowFold(None, ps, token) == Some(once);
    AllWritesConcat(pre, mid, token);
    AllWritesConcat(pre + mid, post, token);
    ExistingRow(once, ps, token);
    assert AllWrites(mid, token) == WritesOf(Created(e), token);
  }

  /** Whatever `w` writes, `v` leaves in place. */
  predicate Superseded(w: Writes, v: Writes) {
    && (w.identity.Some? ==> w.identity == v.identity)
    && (w.totals.Some? ==> w.totals == v.totals)
    && (w.graduated ==> v.graduated)
    && (w.touched.Some? ==> w.touched == v.touched)
  }

  /**
    Main result on one token: reading any stretch of its events again keeps its row exactly when the
    last write of each kind in the stretch equals the last one of all events.
   */
  lemma RereadKeepsRowExactly(before: seq<Projection>, again: seq<Projection>, after: seq<Projection>, token: string)
    requires CreatedFirst(before + again + after, token)
    ensures var ps := before + again + after;
            var once := RowFold(None, ps, token);
            RowFold(once, again, token) == once
            <==> (HasCreation(ps, token) ==> Superseded(AllWrites(again, token), AllWrites(ps, token)))
  {
    var ps := before + again + after;
    if HasCreation(ps, token) {
      var e := CreatedTokenRow(ps, token);
      var w, v := AllWrites(again, token), AllWrites(ps, token);
      AllWritesConcat(before, again, token);
      AllWritesConcat(before + again, after, token);
      ExistingRow(Overlay(InitialTokenRow(e), v), again, token);
      OverlayJoin(InitialTokenRow(e), v, w);
    } else {
      AbsentRow(ps, token);
      AbsentRow(again, token);
    }
  }

  /** While a re-reading is still behind, a row shows the totals of the block it has reached. */
  lemma PartialRereadRewinds(e: TokenCreated, first: TokenTrade, second: TokenTrade)
    requires Lower(e.token) == Lower(first.token) == Lower(second.token)
    requires IntValue(first.collected) != IntValue(second.collected)
    ensures var token, ps := Lower(e.token), [Created(e), Bought(first), Bought(second)];
            && RowFold(RowFold(None, ps, token), ps[..2], token) != RowFold(None, ps, token)
            && RowFold(RowFold(None, ps, token), ps, token) == RowFold(None, ps, token)
  {
    var token, ps := Lower(e.token), [Created(e), Bought(first), Bought(second)];
    assert ps[..2] == [Created(e), Bought(first)] && ps[..2][..1] == [Created(e)] && ps[..2][..1][..0] == [];
    assert RowFold(None, ps[..2][..1], token) == Some(InitialTokenRow(e));
    var once := RowFold(None, ps, token);
    assert ps[0] in ps && Creates(ps[0], token);
    AbsentRow(ps, token);
    ExistingRow(once.value, ps, token);
    ExistingRow(once.value, ps[..2], token);
    assert AllWrites(ps[..2][..1], token) == WritesOf(Created(e), token);
  }

  // ---- status ---------------------------------------------------------------------------------

  predicate KnownStatus(status: int) {
    status == TOKEN_STATUS_TRADING || status == TOKEN_STATUS_GRADUATED
  }

  /** The decoder leaves the initial status unset. */
  predicate PlainCreation(p: Projection) {
    p.Created? ==> p.c.status == 0 || p.c.status == TOKEN_STATUS_TRADING
  }

  /** Whatever events are applied, in whatever order and however often, a status goes from 1 to 3 and stays. */
  lemma {:induction false} StatusOnlyAdvances(r: Option<TokenRow>, ps: seq<Projection>, token: string)
    requires forall p <- ps :: PlainCreation(p)
    requires r.Some? ==> KnownStatus(r.value.status)
    ensures var s := RowFold(r, ps, token);
            && (s.Some? ==> KnownStatus(s.value.status))
            && (r.Some? ==> s.Some? && s.value.status >= r.value.status)
            && (s.Some? ==> (s.value.status == TOKEN_STATUS_GRADUATED ==>
                   (r.Some? && r.value.status == TOKEN_STATUS_GRADUATED)
                   || exists p <- ps :: p.Graduated? && TokenOf(p) == Some(token)))
  {
    if ps != [] {
      var n := |ps| - 1;
      assert ps == ps[..n] + [ps[n]];
      assert PlainCreation(ps[n]);
      StatusOnlyAdvances(r, ps[..n], token);
      var before := RowFold(r, ps[..n], token);
      if before.Some? && before.value.status == TOKEN_STATUS_GRADUATED {
        if !(r.Some? && r.value.status == TOKEN_STATUS_GRADUATED) {
          var p :| p in ps[..n] && p.Graduated? && TokenOf(p) == Some(token);
          assert p in ps;
        }
      }
    }
  }
}
