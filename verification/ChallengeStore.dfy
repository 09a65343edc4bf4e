/**
  The in-memory challenge store. It never evicts; an expired entry is only treated as missing.
 */
module ChallengeStore {
  import opened Common
  import opened GoTime
  import opened SignInText

  type Entries = map<string, Challenge>

  /** `time.Now().After(challenge.ExpirationTime)`. */
  predicate Expired(c: Challenge, now: Time) {
    now > c.expirationTime
  }

  /** The entry a call at time `now` finds. */
  function Live(entries: Entries, address: string, now: Time): Option<Challenge> {
    if address in entries && !Expired(entries[address], now) then Some(entries[address]) else None
  }

  class MemoryChallengeStore {
    var challengesByAddress: Entries

    constructor ()
      ensures challengesByAddress == map[]
    {
      challengesByAddress := map[];
    }

    method Save(address: string, challenge: Challenge)
      modifies this
      ensures challengesByAddress == old(challengesByAddress)[address := challenge]
    {
      challengesByAddress := challengesByAddress[address := challenge];
    }

    method Get(address: string, now: Time) returns (r: Option<Challenge>)
      ensures r == Live(challengesByAddress, address, now)
    {
      if address !in challengesByAddress || now > challengesByAddress[address].expirationTime {
        return None;
      }
      return Some(challengesByAddress[address]);
    }

    /** Deletes the live entry; without one it fails and changes nothing, not even an expired entry. */
    method Delete(address: string, now: Time) returns (ok: bool)
      modifies this
      ensures ok <==> Live(old(challengesByAddress), address, now).Some?
      ensures challengesByAddress == if ok then old(challengesByAddress) - {address} else old(challengesByAddress)
    {
      if address !in challengesByAddress || now > challengesByAddress[address].expirationTime {
        return false;
      }
      challengesByAddress := challengesByAddress - {address};
      return true;
    }
  }

  // ---- lazy and eager expiry ------------------------------------------------------------------

  datatype Op =
    | Save(address: string, challenge: Challenge)
    | Get(address: string)
    | Delete(address: string)

  datatype Timed = Timed(now: Time, op: Op)

  datatype Answer = Done | Found(challenge: Challenge) | Missing

  function AnswerTo(entries: Entries, t: Timed): Answer {
    match t.op
    case Save(_, _) => Done
    case Get(a) => if Live(entries, a, t.now).Some? then Found(Live(entries, a, t.now).value) else Missing
    case Delete(a) => if Live(entries, a, t.now).Some? then Done else Missing
  }

  function EntriesAfter(entries: Entries, t: Timed): Entries {
    match t.op
    case Save(a, c) => entries[a := c]
    case Get(_) => entries
    case Delete(a) => if Live(entries, a, t.now).Some? then entries - {a} else entries
  }

  /** What an eager store still holds once the clock shows `now`. */
  function DropExpired(entries: Entries, now: Time): Entries {
    map a | a in entries && !Expired(entries[a], now) :: entries[a]
  }

  function Lazy(ops: seq<Timed>): (r: (Entries, seq<Answer>))
    ensures |r.1| == |ops|
  {
    if ops == [] then (map[], [])
    else
      var (entries, answers) := Lazy(ops[..|ops| - 1]);
      var t := ops[|ops| - 1];
      (EntriesAfter(entries, t), answers + [AnswerTo(entries, t)])
  }

  /** The eager store drops every expired entry before it serves a call. */
  function Eager(ops: seq<Timed>): (r: (Entries, seq<Answer>))
    ensures |r.1| == |ops|
  {
    if ops == [] then (map[], [])
    else
      var (entries, answers) := Eager(ops[..|ops| - 1]);
      var t := ops[|ops| - 1];
      var kept := DropExpired(entries, t.now);
      (EntriesAfter(kept, t), answers + [AnswerTo(kept, t)])
  }

  /** The times of the calls; the first one does not matter, it meets an empty store. */
  predicate ClockAscends(times: seq<Time>) {
    forall i, j :: 1 <= i < j < |times| ==> times[i] <= times[j]
  }

  predicate CalledAt(ops: seq<Timed>, times: seq<Time>) {
    |ops| == |times| && forall k :: 0 <= k < |ops| ==> ops[k].now == times[k]
  }

  /** Entries that are alive at `now` or later agree. */
  predicate SameLive(a: Entries, b: Entries, now: Time) {
    DropExpired(a, now) == DropExpired(b, now)
  }

  lemma SameLiveStep(a: Entries, b: Entries, before: Time, t: Timed)
    requires SameLive(a, b, before) && before <= t.now
    ensures AnswerTo(a, t) == AnswerTo(DropExpired(b, t.now), t)
    ensures SameLive(EntriesAfter(a, t), EntriesAfter(DropExpired(b, t.now), t), t.now)
  {
    var kept := DropExpired(b, t.now);
    forall x
      ensures Live(a, x, t.now) == Live(kept, x, t.now) == Live(b, x, t.now)
    {
      assert x in DropExpired(a, before) <==> x in DropExpired(b, before);
    }
    forall x
      ensures Live(EntriesAfter(a, t), x, t.now) == Live(EntriesAfter(kept, t), x, t.now)
    {
      assert Live(a, x, t.now) == Live(kept, x, t.now);
    }
    LiveDetermines(EntriesAfter(a, t), EntriesAfter(kept, t), t.now);
  }

  lemma LiveDetermines(a: Entries, b: Entries, now: Time)
    requires forall x :: Live(a, x, now) == Live(b, x, now)
    ensures SameLive(a, b, now)
  {
    var p, q := DropExpired(a, now), DropExpired(b, now);
    forall x
      ensures (x in p <==> x in q) && (x in p ==> p[x] == q[x])
    {
      assert Live(a, x, now) == Live(b, x, now);
    }
  }

  /** Under a clock that does not go back, never evicting answers every call like evicting at once. */
  lemma {:induction false} LazyRefinesEager(ops: seq<Timed>, times: seq<Time>)
    requires CalledAt(ops, times) && ClockAscends(times)
    ensures Lazy(ops).1 == Eager(ops).1
    ensures |ops| == 1 ==> Lazy(ops).0 == Eager(ops).0
    ensures |ops| > 1 ==> SameLive(Lazy(ops).0, Eager(ops).0, times[|ops| - 1])
  {
    if ops != [] {
      var n := |ops| - 1;
      LazyRefinesEager(ops[..n], times[..n]);
      var a, b := Lazy(ops[..n]).0, Eager(ops[..n]).0;
      if n == 0 {
        assert DropExpired(map[], times[n]) == map[];
      } else {
        var before := if n == 1 then times[n] else times[n - 1];
        assert SameLive(a, b, before);
        SameLiveStep(a, b, before, ops[n]);
      }
    }
  }

  lemma OneMoreCall(ops: seq<Timed>, t: Timed)
    ensures var (entries, answers) := Lazy(ops);
            Lazy(ops + [t]) == (EntriesAfter(entries, t), answers + [AnswerTo(entries, t)])
    ensures var (entries, answers) := Eager(ops);
            var kept := DropExpired(entries, t.now);
            Eager(ops + [t]) == (EntriesAfter(kept, t), answers + [AnswerTo(kept, t)])
  {
    assert (ops + [t])[..|ops|] == ops;
  }

  /** Later calls do not change earlier answers. */
  lemma {:induction false} EarlierAnswers(ops: seq<Timed>, n: nat)
    requires n <= |ops|
    ensures Lazy(ops).1[..n] == Lazy(ops[..n]).1 && Eager(ops).1[..n] == Eager(ops[..n]).1
    decreases |ops|
  {
    if n == |ops| {
      assert ops[..n] == ops;
    } else {
      var init := ops[..|ops| - 1];
      EarlierAnswers(init, n);
      assert init[..n] == ops[..n];
      assert Lazy(ops).1[..n] == Lazy(init).1[..n] && Eager(ops).1[..n] == Eager(init).1[..n];
    }
  }

  // ---- a clock that goes back -----------------------------------------------------------------

  /** A challenge is saved first and asked for in call `j` only. */
  function Probe(times: seq<Time>, c: Challenge, j: nat): (ops: seq<Timed>)
    ensures CalledAt(ops, times)
  {
    seq(|times|, k requires 0 <= k < |times| =>
      Timed(times[k], if k == 0 then Save("a", c) else Get(if k == j then "a" else "b")))
  }

  /** Call `i` comes too late for the challenge, so the eager store has lost it from then on. */
  lemma {:induction false} ProbeEntries(times: seq<Time>, c: Challenge, j: nat, i: nat, n: nat)
    requires 1 <= i < |times| && 1 <= n <= j < |times| && times[i] > c.expirationTime
    ensures Lazy(Probe(times, c, j)[..n]).0 == map["a" := c]
    ensures Eager(Probe(times, c, j)[..n]).0 in {map["a" := c], map[]}
    ensures i < n ==> Eager(Probe(times, c, j)[..n]).0 == map[]
  {
    hide Lazy, Eager;
    var ops := Probe(times, c, j);
    assert ops[..n] == ops[..n - 1] + [ops[n - 1]];
    OneMoreCall(ops[..n - 1], ops[n - 1]);
    if n == 1 {
      NoCallsYet();
      assert ops[..0] == [];
    } else {
      ProbeEntries(times, c, j, i, n - 1);
      var kept := DropExpired(Eager(ops[..n - 1]).0, times[n - 1]);
      assert kept == map[] || kept == map["a" := c];
    }
  }

  lemma NoCallsYet()
    ensures Lazy([]).0 == map[] && Eager([]).0 == map[]
  {
  }

  /** If the clock goes back after the second call, some calls tell the stores apart. */
  lemma GoingBackDiffers(times: seq<Time>, i: nat, j: nat, c: Challenge)
    requires 1 <= i < j < |times| && times[j] < times[i] && c.expirationTime == times[j]
    ensures Lazy(Probe(times, c, j)).1 != Eager(Probe(times, c, j)).1
  {
    hide Lazy, Eager, Probe;
    var ops := Probe(times, c, j);
    ProbeEntries(times, c, j, i, j);
    OneMoreCall(ops[..j], ops[j]);
    assert ops[..j + 1] == ops[..j] + [ops[j]];
    ProbeAsks(times, c, j);
    EarlierAnswers(ops, j + 1);
    assert Lazy(ops).1[..j + 1][j] == Found(c);
    assert Eager(ops).1[..j + 1][j] == Missing;
  }

  lemma ProbeAsks(times: seq<Time>, c: Challenge, j: nat)
    requires 1 <= j < |times|
    ensures Probe(times, c, j)[j] == Timed(times[j], Get("a"))
  {
  }

  /**
    Main result: for given times, the store that never evicts answers all calls like one that evicts at
    once exactly when the times ascend from the second call on.
   */
  lemma LazyIsEagerExactly(times: seq<Time>)
    ensures (forall ops | CalledAt(ops, times) :: Lazy(ops).1 == Eager(ops).1) <==> ClockAscends(times)
  {
    hide Lazy, Eager, Probe;
    if ClockAscends(times) {
      forall ops | CalledAt(ops, times)
        ensures Lazy(ops).1 == Eager(ops).1
      {
        LazyRefinesEager(ops, times);
      }
    } else {
      var i, j :| 1 <= i < j < |times| && times[i] > times[j];
      var c := Challenge("", "", "", "", "", 0, "", times[j], times[j]);
      GoingBackDiffers(times, i, j, c);
      assert CalledAt(Probe(times, c, j), times);
    }
  }
}
