/**
  Requesting a challenge and logging in with it. `Login` is get, validate, verify, delete; the store is
  locked per call only, so logins and requests for one address interleave between these calls.
 */
module SignIn {
  import opened Common
  import opened GoTime
  import opened SignInText
  import opened ChallengeStore

  const CHALLENGE_LIFETIME := 5 * MINUTE
  const STATEMENT := "Sign in to MEME Launchpad."

  // ---- one call at a time ---------------------------------------------------------------------

  /** A clock that does not go back. */
  class Clock {
    var last: Time

    method Now() returns (t: Time)
      modifies this
      ensures old(last) <= t == last
    {
      var d: nat :| 0 <= d;
      t := last + d;
      last := t;
    }
  }

  /** What the service takes from libraries: URI parsing, checksum casing, signature recovery. */
  datatype Libraries = Libraries(
    parseUri: string -> Option<Uri>,
    checksum: string -> string,
    recovers: (string, string, string) -> bool)

  /** The answer to a request. */
  datatype SignMessage = SignMessage(message: string, nonce: string, expires: int)

  datatype LoginOutcome =
    | Refused
      /** The challenge was consumed, but the user could not be loaded or the token not be signed. */
    | NotIssued
    | LoggedIn

  class Service {
    const cfg: SiweConfig
    const libs: Libraries
    const store: MemoryChallengeStore
    const clock: Clock

    constructor (cfg: SiweConfig, libs: Libraries, store: MemoryChallengeStore, clock: Clock)
      ensures this.cfg == cfg && this.libs == libs && this.store == store && this.clock == clock
    {
      this.cfg, this.libs, this.store, this.clock := cfg, libs, store, clock;
    }

    /** `nonce` is 16 random bytes in hexadecimal, or nothing when the random source fails. */
    method RequestMessage(input: string, nonce: Option<string>) returns (r: Option<SignMessage>)
      modifies store, clock
      ensures old(clock.last) <= clock.last
      ensures r.None? <==> !IsHexAddress(input) || nonce.None?
      ensures r.None? ==> store.challengesByAddress == old(store.challengesByAddress)
      ensures r.Some? ==>
        var address := NormalizeAddress(libs.checksum, input).value;
        && address in store.challengesByAddress
        && var c := store.challengesByAddress[address];
        && store.challengesByAddress == old(store.challengesByAddress)[address := c]
        && c == Challenge(cfg.domain, address, STATEMENT, cfg.uri, "1", cfg.chainId, nonce.value, clock.last, clock.last + CHALLENGE_LIFETIME)
        && r.value == SignMessage(Message(c), c.nonce, ToUnix(c.expirationTime))
    {
      var normalized := NormalizeAddress(libs.checksum, input);
      if normalized.None? {
        return None;
      }
      var address := normalized.value;
      if nonce.None? {
        return None;
      }
      var issuedAt := clock.Now();
      var expires := issuedAt + CHALLENGE_LIFETIME;
      var challenge := Challenge(cfg.domain, address, STATEMENT, cfg.uri, "1", cfg.chainId, nonce.value, issuedAt, expires);
      store.Save(address, challenge);
      return Some(SignMessage(Message(challenge), nonce.value, ToUnix(expires)));
    }

    /**
      A login succeeds exactly when the stored challenge of its address passes every check and is still alive
      when it is deleted. It then used that challenge, whose text the signature covers, and removed it; a
      refused login changes nothing in the store. `issues` says whether the user can be loaded and the token
      be signed. The challenge is validated at `validatedAt` and deleted at `deletedAt`.
     */
    method Login(input: string, signature: string, issues: bool)
      returns (outcome: LoginOutcome, ghost validatedAt: Time, ghost deletedAt: Time)
      modifies store, clock
      ensures old(clock.last) <= validatedAt <= deletedAt == clock.last
      ensures outcome != Refused <==>
        && IsHexAddress(input)
        && var address := NormalizeAddress(libs.checksum, input).value;
        && address in old(store.challengesByAddress)
        && var c := old(store.challengesByAddress)[address];
        && PassesChecks(cfg, libs, c, address)
        && c.issuedAt <= validatedAt + MINUTE && validatedAt < c.expirationTime && deletedAt <= c.expirationTime
        && libs.recovers(address, Message(c), signature)
      ensures outcome != Refused ==>
        && outcome == (if issues then LoggedIn else NotIssued)
        && store.challengesByAddress == old(store.challengesByAddress) - {NormalizeAddress(libs.checksum, input).value}
      ensures outcome == Refused ==> store.challengesByAddress == old(store.challengesByAddress)
    {
      hide ValidChallenge, PassesChecks, Message, IsHexAddress;
      validatedAt, deletedAt := clock.last, clock.last;
      var normalized := NormalizeAddress(libs.checksum, input);
      if normalized.None? {
        return Refused, validatedAt, deletedAt;
      }
      var address := normalized.value;
      var now := clock.Now();
      validatedAt, deletedAt := now, now;
      var entry := store.Get(address, now);
      if entry.None? {
        return Refused, validatedAt, deletedAt;
      }
      now := clock.Now();
      validatedAt, deletedAt := now, now;
      if now > entry.value.expirationTime {
        return Refused, validatedAt, deletedAt;
      }
      now := clock.Now();
      validatedAt, deletedAt := now, now;
      ValidExactly(cfg, libs, entry.value, address, now);
      if !ValidChallenge(cfg, libs.parseUri, entry.value, address, now) {
        return Refused, validatedAt, deletedAt;
      }
      if !libs.recovers(address, Message(entry.value), signature) {
        return Refused, validatedAt, deletedAt;
      }
      now := clock.Now();
      deletedAt := now;
      var consumed := store.Delete(address, now);
      if !consumed {
        return Refused, validatedAt, deletedAt;
      }
      return if issues then LoggedIn else NotIssued, validatedAt, deletedAt;
    }
  }

  /** A configuration whose challenges pass validation: an absolute URI with a host, and a domain without blanks. */
  predicate WellConfigured(cfg: SiweConfig, libs: Libraries) {
    && libs.parseUri(cfg.uri).Some? && libs.parseUri(cfg.uri).value.scheme != "" && libs.parseUri(cfg.uri).value.host != ""
    && ' ' !in cfg.domain && '\t' !in cfg.domain && '\n' !in cfg.domain
  }

  /** What a challenge must agree with and look like, apart from the time it is used. */
  predicate PassesChecks(cfg: SiweConfig, libs: Libraries, c: Challenge, address: string) {
    && WellConfigured(cfg, libs)
    && c.domain == cfg.domain && c.uri == cfg.uri && c.chainId == cfg.chainId && c.version == "1" && c.address == address
    && c.statement != "" && '\n' !in c.statement
    && |c.nonce| >= 8 && (forall x <- c.nonce :: 'a' <= x <= 'z' || 'A' <= x <= 'Z' || '0' <= x <= '9')
    && c.expirationTime > c.issuedAt
  }

  lemma ValidExactly(cfg: SiweConfig, libs: Libraries, c: Challenge, address: string, now: Time)
    ensures ValidChallenge(cfg, libs.parseUri, c, address, now)
       <==> PassesChecks(cfg, libs, c, address) && c.issuedAt <= now + MINUTE && now < c.expirationTime
  {
  }

  lemma IssuedPasses(cfg: SiweConfig, libs: Libraries, address: string, nonce: string, issuedAt: Time)
    ensures PassesChecks(cfg, libs, Challenge(cfg.domain, address, STATEMENT, cfg.uri, "1", cfg.chainId, nonce, issuedAt, issuedAt + CHALLENGE_LIFETIME), address)
       <==> WellConfigured(cfg, libs) && ValidNonce(nonce)
  {
    StatementIsFine();
  }

  lemma StatementIsFine()
    ensures STATEMENT != "" && '\n' !in STATEMENT
  {
    assert '\n' !in "Sign in to " && '\n' !in "MEME Launchpad.";
  }

  /** What a wallet does with the text it is given. */
  type Wallet = string -> string

  /**
    Main result on signing in: requesting a challenge and then logging in succeeds, for the same address in
    any spelling, exactly when the configuration is well-formed, the random source gave a nonce of at least
    eight letters and digits, the signature covers the returned text, and the login came within 300 seconds.
   */
  method RequestThenLogin(service: Service, input: string, nonce: Option<string>, again: string, wallet: Wallet, issues: bool)
    returns (r: Option<SignMessage>, outcome: LoginOutcome, ghost requestedAt: Time, ghost validatedAt: Time, ghost deletedAt: Time)
    requires NormalizeAddress(service.libs.checksum, input) == NormalizeAddress(service.libs.checksum, again)
    modifies service.store, service.clock
    ensures r.None? <==> !IsHexAddress(input) || nonce.None?
    ensures old(service.clock.last) <= requestedAt <= validatedAt <= deletedAt == service.clock.last
    ensures r.Some? ==> r.value.expires == ToUnix(requestedAt) + 300
    ensures r.Some? ==>
      (outcome != Refused <==>
        && WellConfigured(service.cfg, service.libs)
        && ValidNonce(nonce.value)
        && service.libs.recovers(NormalizeAddress(service.libs.checksum, input).value, r.value.message, wallet(r.value.message))
        && validatedAt < requestedAt + 300 * SECOND && deletedAt <= requestedAt + 300 * SECOND)
    ensures r.Some? && outcome != Refused ==> outcome == if issues then LoggedIn else NotIssued
  {
    hide PassesChecks, WellConfigured, ValidNonce, Message, IsHexAddress;
    r := service.RequestMessage(input, nonce);
    requestedAt := service.clock.last;
    if r.None? {
      validatedAt, deletedAt := requestedAt, requestedAt;
      outcome := Refused;
    } else {
      IssuedPasses(service.cfg, service.libs, NormalizeAddress(service.libs.checksum, input).value, nonce.value, requestedAt);
      outcome, validatedAt, deletedAt := service.Login(again, wallet(r.value.message), issues);
    }
  }

  /** A second login with the same input is refused, whatever its signature. */
  method LoginTwice(service: Service, input: string, signature: string, again: string, issues: bool)
    returns (first: LoginOutcome, second: LoginOutcome)
    modifies service.store, service.clock
    ensures first != Refused ==> second == Refused
  {
    ghost var validatedAt, deletedAt;
    first, validatedAt, deletedAt := service.Login(input, signature, issues);
    second, validatedAt, deletedAt := service.Login(input, again, issues);
  }

  // ---- interleaved calls ----------------------------------------------------------------------

  /** A stored challenge and the number of its save. */
  datatype Stored = Stored(serial: nat, challenge: Challenge)

  /** A login between its `Get` and its `Delete`. */
  datatype Session = Session(address: string, got: Stored, verified: bool)

  /** A completed login: the save it verified and the save it deleted. */
  datatype Consumption = Consumption(address: string, verified: nat, deleted: nat)

  datatype Server = Server(store: map<string, Stored>, saves: seq<string>, sessions: map<nat, Session>,
                           consumed: seq<Consumption>)

  datatype Call =
      /** `RequestMessage` saves a challenge. */
    | SaveCall(address: string, challenge: Challenge)
      /** `Login` reads the challenge. */
    | GetCall(login: nat, address: string, now: Time)
      /** `Login` validates and verifies; `accepted` is the joint outcome. */
    | VerifyCall(login: nat, accepted: bool)
      /** `Login` deletes by address. */
    | DeleteCall(login: nat, now: Time)

  const NO_CALLS := Server(map[], [], map[], [])

  function Serve(s: Server, call: Call): Server {
    match call
    case SaveCall(a, c) => s.(store := s.store[a := Stored(|s.saves|, c)], saves := s.saves + [a])
    case GetCall(login, a, now) =>
      if a in s.store && !Expired(s.store[a].challenge, now)
      then s.(sessions := s.sessions[login := Session(a, s.store[a], false)])
      else s.(sessions := s.sessions - {login})
    case VerifyCall(login, accepted) =>
      if login !in s.sessions then s
      else if accepted then s.(sessions := s.sessions[login := s.sessions[login].(verified := true)])
      else s.(sessions := s.sessions - {login})
    case DeleteCall(login, now) =>
      if login !in s.sessions || !s.sessions[login].verified then s
      else
        var a := s.sessions[login].address;
        var ended := s.(sessions := s.sessions - {login});
        if a in s.store && !Expired(s.store[a].challenge, now)
        then ended.(store := s.store - {a},
                    consumed := s.consumed + [Consumption(a, s.sessions[login].got.serial, s.store[a].serial)])
        else ended
  }

  function ServeAll(calls: seq<Call>): Server {
    if calls == [] then NO_CALLS else Serve(ServeAll(calls[..|calls| - 1]), calls[|calls| - 1])
  }

  /** How many challenges were saved for an address. */
  function SavesFor(saves: seq<string>, address: string): nat {
    if saves == [] then 0
    else SavesFor(saves[..|saves| - 1], address) + if saves[|saves| - 1] == address then 1 else 0
  }

  function ConsumedFor(consumed: seq<Consumption>, address: string): nat {
    if consumed == [] then 0
    else ConsumedFor(consumed[..|consumed| - 1], address) + if consumed[|consumed| - 1].address == address then 1 else 0
  }

  /** The number of the latest save for an address. */
  predicate IsLatest(saves: seq<string>, address: string, serial: nat) {
    serial < |saves| && saves[serial] == address && forall n :: serial < n < |saves| ==> saves[n] != address
  }

  /** Completed logins deleted what they verified or something newer, ever newer ones for one address. */
  ghost predicate ConsumedInOrder(saves: seq<string>, consumed: seq<Consumption>) {
    && (forall k <- consumed :: k.verified <= k.deleted < |saves| && saves[k.deleted] == k.address == saves[k.verified])
    && (forall i, j :: 0 <= i < j < |consumed| && consumed[i].address == consumed[j].address ==>
          consumed[i].deleted < consumed[j].deleted)
  }

  ghost predicate ServerInv(s: Server) {
    && (forall a <- s.store :: IsLatest(s.saves, a, s.store[a].serial))
    && (forall l <- s.sessions :: s.sessions[l].got.serial < |s.saves| && s.saves[s.sessions[l].got.serial] == s.sessions[l].address)
    && (forall k <- s.consumed :: forall a <- s.store :: k.deleted != s.store[a].serial)
    && ConsumedInOrder(s.saves, s.consumed)
  }

  lemma {:induction false} CallsKeepInv(calls: seq<Call>)
    ensures ServerInv(ServeAll(calls))
  {
    if calls != [] {
      var s, call := ServeAll(calls[..|calls| - 1]), calls[|calls| - 1];
      CallsKeepInv(calls[..|calls| - 1]);
      match call
      case SaveCall(a, c) => SaveKeepsInv(s, a, c);
      case GetCall(login, a, now) =>
      case VerifyCall(login, accepted) =>
      case DeleteCall(login, now) => DeleteKeepsInv(s, login, now);
    }
  }

  lemma SaveKeepsInv(s: Server, a: string, c: Challenge)
    requires ServerInv(s)
    ensures ServerInv(Serve(s, SaveCall(a, c)))
  {
  }

  lemma DeleteKeepsInv(s: Server, login: nat, now: Time)
    requires ServerInv(s)
    ensures ServerInv(Serve(s, DeleteCall(login, now)))
  {
    hide ConsumedInOrder;
    var s' := Serve(s, DeleteCall(login, now));
    if s'.consumed != s.consumed {
      var session := s.sessions[login];
      var k := Consumption(session.address, session.got.serial, s.store[session.address].serial);
      NewestConsumption(s, k);
    }
  }

  /** A deletion removes a challenge saved after all those consumed before for its address. */
  lemma NewestConsumption(s: Server, k: Consumption)
    requires ServerInv(s)
    requires k.address in s.store && k.deleted == s.store[k.address].serial
    requires k.verified < |s.saves| && s.saves[k.verified] == k.address
    ensures k.verified <= k.deleted
    ensures ConsumedInOrder(s.saves, s.consumed + [k])
  {
    forall x <- s.consumed | x.address == k.address
      ensures x.deleted < k.deleted
    {
    }
  }

  ghost predicate Conserved(s: Server, address: string) {
    ConsumedFor(s.consumed, address) + (if address in s.store then 1 else 0) <= SavesFor(s.saves, address)
  }

  lemma CountAppended(saves: seq<string>, a: string, consumed: seq<Consumption>, k: Consumption, address: string)
    ensures SavesFor(saves + [a], address) == SavesFor(saves, address) + if a == address then 1 else 0
    ensures ConsumedFor(consumed + [k], address) == ConsumedFor(consumed, address) + if k.address == address then 1 else 0
  {
    assert (saves + [a])[..|saves|] == saves && (consumed + [k])[..|consumed|] == consumed;
  }

  lemma CallConserves(s: Server, call: Call, address: string)
    requires Conserved(s, address)
    ensures Conserved(Serve(s, call), address)
  {
    hide SavesFor, ConsumedFor;
    match call
    case SaveCall(a, c) => CountAppended(s.saves, a, [], Consumption(a, 0, 0), address);
    case GetCall(login, a, now) =>
    case VerifyCall(login, accepted) =>
    case DeleteCall(login, now) =>
      if Serve(s, call).consumed != s.consumed {
        var a := s.sessions[login].address;
        CountAppended(s.saves, a, s.consumed, Consumption(a, s.sessions[login].got.serial, s.store[a].serial), address);
      }
  }

  /** Main result: consumed logins, plus one while a challenge is stored, never exceed the saved challenges. */
  lemma {:induction false} ChallengesAreConserved(calls: seq<Call>, address: string)
    ensures var s := ServeAll(calls);
            ConsumedFor(s.consumed, address) + (if address in s.store then 1 else 0) <= SavesFor(s.saves, address)
  {
    if calls != [] {
      ChallengesAreConserved(calls[..|calls| - 1], address);
      CallConserves(ServeAll(calls[..|calls| - 1]), calls[|calls| - 1], address);
    }
  }

  /** Main result: no saved challenge is consumed by two logins. */
  lemma NoChallengeConsumedTwice(calls: seq<Call>, i: nat, j: nat)
    requires i < j < |ServeAll(calls).consumed|
    ensures ServeAll(calls).consumed[i].deleted != ServeAll(calls).consumed[j].deleted
  {
    CallsKeepInv(calls);
    var consumed := ServeAll(calls).consumed;
    assert consumed[i] in consumed && consumed[j] in consumed;
  }

  /** If two logins verified one challenge, the later one deleted a challenge saved after it. */
  lemma SecondUseNeedsNewSave(calls: seq<Call>, i: nat, j: nat)
    requires i < j < |ServeAll(calls).consumed|
    requires ServeAll(calls).consumed[i].verified == ServeAll(calls).consumed[j].verified
    ensures var s := ServeAll(calls);
            var k := s.consumed[j];
            k.verified < k.deleted < |s.saves| && s.saves[k.deleted] == k.address
  {
    CallsKeepInv(calls);
    var consumed := ServeAll(calls).consumed;
    assert consumed[i] in consumed && consumed[j] in consumed;
  }

  /** A login consumes the challenge it verified exactly when no newer one was saved for its address by then. */
  lemma ConsumesWhatItVerified(calls: seq<Call>, login: nat, now: Time)
    requires var s := ServeAll(calls);
             |Serve(s, DeleteCall(login, now)).consumed| > |s.consumed|
    ensures var s := ServeAll(calls);
            var consumed := Serve(s, DeleteCall(login, now)).consumed;
            var k := consumed[|consumed| - 1];
            k.verified == k.deleted <==> IsLatest(s.saves, k.address, k.verified)
  {
    CallsKeepInv(calls);
  }

  /** A request between the get and the delete of a login makes the login consume the new challenge. */
  lemma RequestInBetween(address: string, before: Challenge, after: Challenge)
    ensures var calls := [SaveCall(address, before), GetCall(1, address, before.expirationTime), VerifyCall(1, true),
                          SaveCall(address, after), DeleteCall(1, after.expirationTime)];
            ServeAll(calls).consumed == [Consumption(address, 0, 1)] && address !in ServeAll(calls).store
  {
    var c0, c1, c2 := SaveCall(address, before), GetCall(1, address, before.expirationTime), VerifyCall(1, true);
    var c3, c4 := SaveCall(address, after), DeleteCall(1, after.expirationTime);
    assert [c0, c1, c2, c3, c4][..4] == [c0, c1, c2, c3] && [c0, c1, c2, c3][..3] == [c0, c1, c2];
    assert [c0, c1, c2][..2] == [c0, c1] && [c0, c1][..1] == [c0] && [c0][..0] == [];
    var s1 := Serve(NO_CALLS, c0);
    assert ServeAll([c0]) == s1;
    var s2 := Serve(s1, c1);
    assert ServeAll([c0, c1]) == s2;
    var s3 := Serve(s2, c2);
    assert ServeAll([c0, c1, c2]) == s3;
    var s4 := Serve(s3, c3);
    assert ServeAll([c0, c1, c2, c3]) == s4;
  }

  // ---- consumptions are earned ----------------------------------------------------------------

  /** The saved challenges by number, with the address each was saved for. */
  function SavedBy(calls: seq<Call>): seq<(string, Challenge)> {
    if calls == [] then []
    else
      var rest := SavedBy(calls[..|calls| - 1]);
      match calls[|calls| - 1]
      case SaveCall(a, c) => rest + [(a, c)]
      case _ => rest
  }

  /** Save `serial` was for the address, and its challenge is alive at `now`. */
  predicate AliveSave(calls: seq<Call>, serial: nat, address: string, now: Time) {
    serial < |SavedBy(calls)| && SavedBy(calls)[serial].0 == address && now <= SavedBy(calls)[serial].1.expirationTime
  }

  /** Call `g` is the last `Get` of the login before call `n`, and nothing rejected the login since. */
  predicate Reading(calls: seq<Call>, login: nat, g: nat, n: nat) {
    && g < n <= |calls|
    && calls[g].GetCall? && calls[g].login == login
    && forall x | g < x < n :: !(calls[x].GetCall? && calls[x].login == login) && calls[x] != VerifyCall(login, false)
  }

  /** In calls `g`, `m` and `n` the login read, was accepted and deleted. */
  predicate EarnedBy(calls: seq<Call>, k: Consumption, login: nat, g: nat, m: nat, n: nat) {
    && Reading(calls, login, g, n) && g < m < n < |calls|
    && calls[g].address == k.address && AliveSave(calls, k.verified, k.address, calls[g].now)
    && calls[m] == VerifyCall(login, true)
    && calls[n].DeleteCall? && calls[n].login == login && AliveSave(calls, k.deleted, k.address, calls[n].now)
  }

  /**
    A login read a challenge that was alive, then its signature was accepted, and then it deleted a
    challenge that was alive, both of its address.
   */
  ghost predicate Earned(calls: seq<Call>, k: Consumption) {
    exists login: nat, g: nat, m: nat, n: nat :: EarnedBy(calls, k, login, g, m, n)
  }

  predicate SessionFrom(calls: seq<Call>, login: nat, s: Session, g: nat) {
    && Reading(calls, login, g, |calls|) && calls[g].address == s.address
    && AliveSave(calls, s.got.serial, s.address, calls[g].now)
    && (s.verified ==> exists m | g < m < |calls| :: calls[m] == VerifyCall(login, true))
  }

  /** Where a session comes from. */
  ghost predicate SessionEarned(calls: seq<Call>, login: nat, s: Session) {
    exists g: nat :: SessionFrom(calls, login, s, g)
  }

  ghost predicate ServedFrom(calls: seq<Call>, s: Server) {
    && |s.saves| == |SavedBy(calls)|
    && (forall a <- s.store :: s.store[a].serial < |SavedBy(calls)| && SavedBy(calls)[s.store[a].serial] == (a, s.store[a].challenge))
    && (forall l <- s.sessions :: SessionEarned(calls, l, s.sessions[l]))
    && (forall k <- s.consumed :: Earned(calls, k))
  }

  lemma SavesStay(calls: seq<Call>, call: Call)
    ensures SavedBy(calls + [call]) == SavedBy(calls) + if call.SaveCall? then [(call.address, call.challenge)] else []
  {
    assert (calls + [call])[..|calls|] == calls;
  }

  lemma ReadingStays(calls: seq<Call>, call: Call, login: nat, g: nat, n: nat)
    requires Reading(calls, login, g, n)
    ensures Reading(calls + [call], login, g, n)
    ensures n == |calls| && !(call.GetCall? && call.login == login) && call != VerifyCall(login, false) ==>
              Reading(calls + [call], login, g, n + 1)
  {
    var all := calls + [call];
    assert forall x | 0 <= x < |calls| :: all[x] == calls[x];
    assert all[|calls|] == call;
  }

  lemma EarnedStays(calls: seq<Call>, call: Call, k: Consumption)
    requires Earned(calls, k)
    ensures Earned(calls + [call], k)
  {
    hide SavedBy;
    SavesStay(calls, call);
    var login: nat, g: nat, m: nat, n: nat :| EarnedBy(calls, k, login, g, m, n);
    var all := calls + [call];
    ReadingStays(calls, call, login, g, n);
    assert EarnedBy(all, k, login, g, m, n);
  }

  lemma SessionStays(calls: seq<Call>, call: Call, login: nat, s: Session)
    requires SessionEarned(calls, login, s)
    requires !(call.GetCall? && call.login == login) && call != VerifyCall(login, false)
    ensures SessionEarned(calls + [call], login, s)
    ensures call == VerifyCall(login, true) ==> SessionEarned(calls + [call], login, s.(verified := true))
  {
    hide SavedBy;
    SavesStay(calls, call);
    var g: nat :| SessionFrom(calls, login, s, g);
    var all := calls + [call];
    assert all[|calls|] == call;
    ReadingStays(calls, call, login, g, |calls|);
    if s.verified {
      var m :| g < m < |calls| && calls[m] == VerifyCall(login, true);
      assert all[m] == VerifyCall(login, true);
    }
    assert SessionFrom(all, login, s, g);
    assert call == VerifyCall(login, true) ==> SessionFrom(all, login, s.(verified := true), g);
  }

  lemma DeleteIsEarned(calls: seq<Call>, s: Server, login: nat, now: Time)
    requires ServedFrom(calls, s)
    requires login in s.sessions && s.sessions[login].verified
    requires s.sessions[login].address in s.store && !Expired(s.store[s.sessions[login].address].challenge, now)
    ensures Earned(calls + [DeleteCall(login, now)],
                   Consumption(s.sessions[login].address, s.sessions[login].got.serial, s.store[s.sessions[login].address].serial))
  {
    hide SavedBy;
    var call, session := DeleteCall(login, now), s.sessions[login];
    SavesStay(calls, call);
    assert SessionEarned(calls, login, session);
    var g: nat :| SessionFrom(calls, login, session, g);
    var m: nat :| g < m < |calls| && calls[m] == VerifyCall(login, true);
    var all := calls + [call];
    assert all[|calls|] == call;
    ReadingStays(calls, call, login, g, |calls|);
    var k := Consumption(session.address, session.got.serial, s.store[session.address].serial);
    assert EarnedBy(all, k, login, g, m, |calls|);
  }

  lemma GetStarts(calls: seq<Call>, s: Server, login: nat, a: string, now: Time)
    requires ServedFrom(calls, s)
    requires a in s.store && !Expired(s.store[a].challenge, now)
    ensures SessionEarned(calls + [GetCall(login, a, now)], login, Session(a, s.store[a], false))
  {
    hide SavedBy;
    var call := GetCall(login, a, now);
    SavesStay(calls, call);
    var all := calls + [call];
    assert all[|calls|] == call;
    assert Reading(all, login, |calls|, |all|);
    assert SessionFrom(all, login, Session(a, s.store[a], false), |calls|);
  }

  lemma ServeKeepsEarned(calls: seq<Call>, s: Server, call: Call)
    requires ServedFrom(calls, s)
    ensures ServedFrom(calls + [call], Serve(s, call))
  {
    hide SavedBy, SessionEarned, Earned;
    var all, s' := calls + [call], Serve(s, call);
    SavesStay(calls, call);
    forall k <- s'.consumed
      ensures Earned(all, k)
    {
      if k in s.consumed {
        EarnedStays(calls, call, k);
      } else {
        DeleteIsEarned(calls, s, call.login, call.now);
      }
    }
    forall l <- s'.sessions
      ensures SessionEarned(all, l, s'.sessions[l])
    {
      if call.GetCall? && call.login == l {
        GetStarts(calls, s, l, call.address, call.now);
      } else {
        SessionStays(calls, call, l, s.sessions[l]);
      }
    }
  }

  lemma {:induction false} ServedFromCalls(calls: seq<Call>)
    ensures ServedFrom(calls, ServeAll(calls))
  {
    hide ServedFrom, Serve;
    if calls == [] {
      NothingServed();
    } else {
      ServedFromCalls(calls[..|calls| - 1]);
      ServeKeepsEarned(calls[..|calls| - 1], ServeAll(calls[..|calls| - 1]), calls[|calls| - 1]);
      assert calls == calls[..|calls| - 1] + [calls[|calls| - 1]];
    }
  }

  lemma NothingServed()
    ensures ServedFrom([], NO_CALLS)
  {
  }

  /**
    Main result: under any interleaving every consumption has its reading of a live challenge, its accepted
    signature and its deletion of a live challenge, in this order and by one login.
   */
  lemma ConsumptionsAreEarned(calls: seq<Call>)
    ensures forall k <- ServeAll(calls).consumed :: Earned(calls, k)
  {
    ServedFromCalls(calls);
  }
}
