/** The cache of the realms' JSON Web Key Sets and its throttled refresh
    (server/src/middleware/jwt/jwks.rs). Lookups overlap: the cache is not locked while a lookup decides
    and fetches, so a run is an interleaving of snapshots, clock readings and writes. */
module Jwks {
  import opened HashMaps
  import opened Wrappers

  const SMALLEST_REFRESH_INTERVAL: int := 60
  const JWKS_CACHE_RETENTION_INTERVAL: int := 24 * 3600
  const NANOS: int := 1_000_000_000

  datatype Jwk = Jwk(keyId: Option<string>, material: string)

  /** `lastUpdate` is in nanoseconds, the interval in seconds. */
  datatype RealmJwks = RealmJwks(
    uris: seq<string>, jwks: map<string, seq<Jwk>>, lastUpdate: Option<int>, smallestRefreshInterval: Option<int>)

  datatype JwksError = RealmNotFound

  type Cache = map<string, RealmJwks>

  // ---- Searching a snapshot ----

  function FirstWithKid(keys: seq<Jwk>, kid: string): Option<Jwk> {
    if keys == [] then None
    else if keys[0].keyId == Some(kid) then Some(keys[0])
    else FirstWithKid(keys[1..], kid)
  }

  /** The search in the order in which the map of key sets iterates. */
  function Search(jwks: map<string, seq<Jwk>>, order: seq<string>, kid: string): Option<Jwk>
    requires forall uri <- order :: uri in jwks
  {
    if order == [] then None
    else if FirstWithKid(jwks[order[0]], kid).Some? then FirstWithKid(jwks[order[0]], kid)
    else Search(jwks, order[1..], kid)
  }

  /** `uri` serves a key with this id. */
  ghost predicate Serves(jwks: map<string, seq<Jwk>>, uri: string, kid: string) {
    uri in jwks && exists jwk <- jwks[uri] :: jwk.keyId == Some(kid)
  }

  ghost predicate Holds(jwks: map<string, seq<Jwk>>, kid: string) {
    exists uri <- jwks :: Serves(jwks, uri, kid)
  }

  lemma {:induction false} FirstWithKidFinds(keys: seq<Jwk>, kid: string)
    ensures FirstWithKid(keys, kid).Some? <==> exists jwk <- keys :: jwk.keyId == Some(kid)
    ensures FirstWithKid(keys, kid).Some? ==>
              && FirstWithKid(keys, kid).value in keys && FirstWithKid(keys, kid).value.keyId == Some(kid)
              && exists i | 0 <= i < |keys| ::
                   keys[i] == FirstWithKid(keys, kid).value && forall j | 0 <= j < i :: keys[j].keyId != Some(kid)
  {
    if keys != [] {
      FirstWithKidFinds(keys[1..], kid);
      assert keys == [keys[0]] + keys[1..];
      if keys[0].keyId != Some(kid) && FirstWithKid(keys, kid).Some? {
        var i :| 0 <= i < |keys| - 1 && keys[1..][i] == FirstWithKid(keys, kid).value
                 && forall j | 0 <= j < i :: keys[1..][j].keyId != Some(kid);
        assert forall j | 0 < j < i + 1 :: keys[j] == keys[1..][j - 1];
        assert keys[i + 1] == FirstWithKid(keys, kid).value;
      }
    }
  }

  lemma {:induction false} SearchInOrder(jwks: map<string, seq<Jwk>>, order: seq<string>, kid: string)
    requires forall uri <- order :: uri in jwks
    ensures Search(jwks, order, kid).Some? <==> exists uri <- order :: Serves(jwks, uri, kid)
    ensures Search(jwks, order, kid).Some? ==>
              exists uri <- order :: Serves(jwks, uri, kid) && Search(jwks, order, kid) == FirstWithKid(jwks[uri], kid)
  {
    if order != [] {
      FirstWithKidFinds(jwks[order[0]], kid);
      SearchInOrder(jwks, order[1..], kid);
      assert order == [order[0]] + order[1..];
      if Serves(jwks, order[0], kid) {
        assert order[0] in order;
      }
    }
  }

  /** A search finds a key exactly when some cached set has one with that id, and what it finds is
      such a key. */
  lemma SearchFinds(jwks: map<string, seq<Jwk>>, order: seq<string>, kid: string)
    requires Enumerates(order, jwks.Keys)
    ensures Search(jwks, order, kid).Some? <==> Holds(jwks, kid)
    ensures Search(jwks, order, kid).Some? ==>
              && Search(jwks, order, kid).value.keyId == Some(kid)
              && exists uri <- jwks :: Search(jwks, order, kid).value in jwks[uri]
  {
    SearchInOrder(jwks, order, kid);
    if Search(jwks, order, kid).Some? {
      var uri :| uri in order && Serves(jwks, uri, kid) && Search(jwks, order, kid) == FirstWithKid(jwks[uri], kid);
      FirstWithKidFinds(jwks[uri], kid);
    }
  }

  /** Which key is found does not depend on the iteration order exactly when the sets that have one
      with that id agree on the first. */
  lemma SearchIgnoresOrderExactly(jwks: map<string, seq<Jwk>>, kid: string)
    ensures (forall u, v | Serves(jwks, u, kid) && Serves(jwks, v, kid) ::
               FirstWithKid(jwks[u], kid) == FirstWithKid(jwks[v], kid))
            <==> forall o1, o2 | Enumerates(o1, jwks.Keys) && Enumerates(o2, jwks.Keys) ::
                   Search(jwks, o1, kid) == Search(jwks, o2, kid)
  {
    if forall u, v | Serves(jwks, u, kid) && Serves(jwks, v, kid) ::
         FirstWithKid(jwks[u], kid) == FirstWithKid(jwks[v], kid) {
      forall o1, o2 | Enumerates(o1, jwks.Keys) && Enumerates(o2, jwks.Keys)
        ensures Search(jwks, o1, kid) == Search(jwks, o2, kid)
      {
        SearchInOrder(jwks, o1, kid);
        SearchInOrder(jwks, o2, kid);
      }
    } else {
      var u, v :| Serves(jwks, u, kid) && Serves(jwks, v, kid)
                  && FirstWithKid(jwks[u], kid) != FirstWithKid(jwks[v], kid);
      var o1 := StartingWith(jwks, u, kid);
      var o2 := StartingWith(jwks, v, kid);
      assert Search(jwks, o1, kid) != Search(jwks, o2, kid);
    }
  }

  lemma StartingWith(jwks: map<string, seq<Jwk>>, uri: string, kid: string) returns (order: seq<string>)
    requires Serves(jwks, uri, kid)
    ensures Enumerates(order, jwks.Keys) && Search(jwks, order, kid) == FirstWithKid(jwks[uri], kid)
  {
    var rest := EnumerationExists(jwks.Keys - {uri});
    order := [uri] + rest;
    FirstWithKidFinds(jwks[uri], kid);
  }

  // ---- Refreshing ----

  function Interval(realm: RealmJwks): int {
    if realm.smallestRefreshInterval.Some? then realm.smallestRefreshInterval.value else SMALLEST_REFRESH_INTERVAL
  }

  function IsRefreshAllowed(realm: RealmJwks, now: int): bool {
    realm.lastUpdate.None? || realm.lastUpdate.value + Interval(realm) * NANOS < now
  }

  /** What the key-set endpoints answer at some moment; a failure is dropped. */
  type Responses = string -> Option<seq<Jwk>>

  function Fetched(uris: seq<string>, responses: Responses): map<string, seq<Jwk>> {
    map uri | uri in uris && responses(uri).Some? :: responses(uri).value
  }

  /** `jwks` is what the endpoints that answered served, each under its address. */
  ghost predicate IsServed(jwks: map<string, seq<Jwk>>, uris: seq<string>, responses: Responses) {
    && (forall uri :: uri in jwks <==> uri in uris && responses(uri).Some?)
    && (forall uri <- jwks :: responses(uri) == Some(jwks[uri]))
  }

  /** More than the realm's own interval, or a minute, has passed since its last update. */
  ghost predicate RefreshIsDue(realm: RealmJwks, now: int) {
    match realm.lastUpdate
    case None => true
    case Some(at) => at + (match realm.smallestRefreshInterval case None => 60 case Some(i) => i) * 1_000_000_000 < now
  }

  function SetJwks(cache: Cache, realmId: string, jwks: map<string, seq<Jwk>>, now: int)
    : (Cache, Result<(), JwksError>)
  {
    if realmId !in cache then (cache, Failure(RealmNotFound))
    else (cache[realmId := cache[realmId].(lastUpdate := Some(now), jwks := jwks)], Success(()))
  }

  function Upserted(cache: Cache, realmId: string, uris: seq<string>, interval: Option<int>, responses: Responses,
                    now: int)
    : Cache
  {
    cache[realmId := RealmJwks(uris, Fetched(uris, responses), Some(now), interval)]
  }

  function WithoutStale(cache: Cache, now: int): Cache {
    map r | r in cache && !(cache[r].lastUpdate.Some?
                            && cache[r].lastUpdate.value + JWKS_CACHE_RETENTION_INTERVAL * NANOS < now) :: cache[r]
  }

  // ---- One lookup on its own ----

  /** A lookup that no other operation overlaps: its answer, and whether it fetched. */
  function Lookup(cache: Cache, realmId: string, kid: string, order: seq<string>, responses: Responses,
                  checkedAt: int, setAt: int): (Cache, Result<Option<Jwk>, JwksError>)
    requires realmId in cache ==> forall uri <- order :: uri in cache[realmId].jwks
  {
    if realmId !in cache then (cache, Failure(RealmNotFound))
    else
      var realm := cache[realmId];
      var found := Search(realm.jwks, order, kid);
      if found.None? && IsRefreshAllowed(realm, checkedAt)
      then (SetJwks(cache, realmId, Fetched(realm.uris, responses), setAt).0, Success(None))
      else (cache, Success(found))
  }

  /** The answer of a lookup, in full. The documentation says that a lookup which misses refreshes
      and searches again; it does refresh, but a lookup answers a key exactly when the cache held one
      before, whatever it fetched. */
  lemma AnswersComeFromTheCacheBefore(cache: Cache, realmId: string, kid: string, order: seq<string>,
                                      responses: Responses, checkedAt: int, setAt: int)
    requires realmId in cache ==> Enumerates(order, cache[realmId].jwks.Keys)
    ensures var (_, r) := Lookup(cache, realmId, kid, order, responses, checkedAt, setAt);
            && (r.Failure? <==> realmId !in cache)
            && (r.Success? ==> (r.value.Some? <==> Holds(cache[realmId].jwks, kid)))
            && (r.Success? && r.value.Some? ==>
                  && r.value.value.keyId == Some(kid)
                  && exists uri <- cache[realmId].jwks :: r.value.value in cache[realmId].jwks[uri])
  {
    if realmId in cache {
      SearchFinds(cache[realmId].jwks, order, kid);
    }
  }

  /** And what a lookup does to the cache: when it misses and a refresh is due, it replaces the realm's
      sets by those that are served and its update time; otherwise, nothing. */
  lemma LookupChangesExactly(cache: Cache, realmId: string, kid: string, order: seq<string>, responses: Responses,
                             checkedAt: int, setAt: int)
    requires realmId in cache && Enumerates(order, cache[realmId].jwks.Keys)
    ensures var (next, _) := Lookup(cache, realmId, kid, order, responses, checkedAt, setAt);
            if !Holds(cache[realmId].jwks, kid) && RefreshIsDue(cache[realmId], checkedAt) then
              && realmId in next && IsServed(next[realmId].jwks, cache[realmId].uris, responses)
              && next == cache[realmId := cache[realmId].(jwks := next[realmId].jwks, lastUpdate := Some(setAt))]
            else next == cache
  {
    SearchFinds(cache[realmId].jwks, order, kid);
  }

  /** Rotation takes two lookups: one that misses and may fetch, and then one that finds the key
      exactly when an endpoint of the realm served it to the first. */
  lemma NextLookupSeesTheRefresh(cache: Cache, realmId: string, kid: string, o1: seq<string>, first: Responses,
                                 checkedAt: int, setAt: int, o2: seq<string>, second: Responses, c2: int, s2: int)
    requires realmId in cache && Enumerates(o1, cache[realmId].jwks.Keys)
    requires !Holds(cache[realmId].jwks, kid) && IsRefreshAllowed(cache[realmId], checkedAt)
    requires var (next, _) := Lookup(cache, realmId, kid, o1, first, checkedAt, setAt);
             Enumerates(o2, next[realmId].jwks.Keys)
    ensures var (next, r1) := Lookup(cache, realmId, kid, o1, first, checkedAt, setAt);
            var (_, r2) := Lookup(next, realmId, kid, o2, second, c2, s2);
            && r1 == Success(None) && r2.Success?
            && (r2.value.Some? <==> exists uri <- cache[realmId].uris ::
                  first(uri).Some? && exists jwk <- first(uri).value :: jwk.keyId == Some(kid))
  {
    AnswersComeFromTheCacheBefore(cache, realmId, kid, o1, first, checkedAt, setAt);
    var next := Lookup(cache, realmId, kid, o1, first, checkedAt, setAt).0;
    AnswersComeFromTheCacheBefore(next, realmId, kid, o2, second, c2, s2);
    FetchedHolds(cache[realmId].uris, first, kid);
  }

  lemma FetchedHolds(uris: seq<string>, responses: Responses, kid: string)
    ensures Holds(Fetched(uris, responses), kid)
            <==> exists uri <- uris ::
                   responses(uri).Some? && exists jwk <- responses(uri).value :: jwk.keyId == Some(kid)
  {
    var jwks := Fetched(uris, responses);
    if uri :| uri in uris && responses(uri).Some? && exists jwk <- responses(uri).value :: jwk.keyId == Some(kid) {
      assert Serves(jwks, uri, kid);
    }
  }

  /** The documentation says that the cache keeps its data when all refreshes fail. It does not: a
      lookup for `missing` makes the cached key `known` unavailable exactly when it misses, may
      refresh, and no endpoint answers with `known`. */
  lemma KnownKeyIsLostExactlyWhen(cache: Cache, realmId: string, missing: string, known: string, order: seq<string>,
                                  responses: Responses, checkedAt: int, setAt: int)
    requires realmId in cache && Enumerates(order, cache[realmId].jwks.Keys)
    requires Holds(cache[realmId].jwks, known)
    ensures var (next, _) := Lookup(cache, realmId, missing, order, responses, checkedAt, setAt);
            realmId in next
            && (!Holds(next[realmId].jwks, known) <==>
                  && !Holds(cache[realmId].jwks, missing)
                  && IsRefreshAllowed(cache[realmId], checkedAt)
                  && forall uri <- cache[realmId].uris ::
                       responses(uri).None? || forall jwk <- responses(uri).value :: jwk.keyId != Some(known))
  {
    SearchFinds(cache[realmId].jwks, order, missing);
    FetchedHolds(cache[realmId].uris, responses, known);
  }

  // ---- Runs ----

  datatype Phase = Deciding | Fetching(began: int) | Done

  /** A lookup that missed in the snapshot it took and left the lock. `known` is how much had happened
      by then, and `underWay` holds when those fetches of the realm began that were going on. */
  datatype Flight = Flight(realmId: string, snapshot: RealmJwks, known: nat, underWay: set<int>, phase: Phase)

  /** What happened, with the clock reading it used. `interval` is the one the lookup applied, and
      `known` how much had happened when it took its snapshot. */
  datatype Event =
    | Began(realmId: string, at: int, interval: int, known: nat)
    | Refreshed(realmId: string, at: int)
    | Configured(realmId: string, at: int)

  datatype State = State(now: int, cache: Cache, flights: seq<Flight>, history: seq<Event>)

  /** A lookup takes a snapshot under the lock; it then reads the clock to decide whether to fetch; and
      it writes what it fetched under the lock again. */
  datatype Step =
    | Tick(nanos: nat)
    | Snapshot(realmId: string, kid: string)
    | Decide(flight: nat)
    | EndLookup(flight: nat, responses: Responses)
    | Upsert(realmId: string, uris: seq<string>, interval: Option<int>, responses: Responses)
    | Remove(realmId: string) // by name, or because its entry is stale

  /** The lookup decides to fetch now. */
  predicate Fetches(s: State, flight: nat) {
    && flight < |s.flights| && s.flights[flight].phase.Deciding?
    && IsRefreshAllowed(s.flights[flight].snapshot, s.now)
  }

  function UnderWay(s: State, realmId: string): set<int> {
    set f | f in s.flights && f.realmId == realmId && f.phase.Fetching? :: f.phase.began
  }

  ghost function Exec(s: State, step: Step): State {
    match step
    case Tick(nanos) => s.(now := s.now + nanos)
    case Snapshot(realmId, kid) =>
      if realmId in s.cache && !Holds(s.cache[realmId].jwks, kid) then
        var f := Flight(realmId, s.cache[realmId], |s.history|, UnderWay(s, realmId), Deciding);
        s.(flights := s.flights + [f])
      else s
    case Decide(flight) =>
      if flight >= |s.flights| || !s.flights[flight].phase.Deciding? then s else
      var f := s.flights[flight];
      if Fetches(s, flight) then
        s.(flights := s.flights[flight := f.(phase := Fetching(s.now))],
           history := s.history + [Began(f.realmId, s.now, Interval(f.snapshot), f.known)])
      else s.(flights := s.flights[flight := f.(phase := Done)])
    case EndLookup(flight, responses) =>
      if flight >= |s.flights| || !s.flights[flight].phase.Fetching? then s else
      var f := s.flights[flight];
      var (cache, r) := SetJwks(s.cache, f.realmId, Fetched(f.snapshot.uris, responses), s.now);
      s.(cache := cache, flights := s.flights[flight := f.(phase := Done)],
         history := s.history + if r.Success? then [Refreshed(f.realmId, s.now)] else [])
    case Upsert(realmId, uris, interval, responses) =>
      s.(cache := Upserted(s.cache, realmId, uris, interval, responses, s.now),
         history := s.history + [Configured(realmId, s.now)])
    case Remove(realmId) => s.(cache := s.cache - {realmId})
  }

  ghost function Run(s: State, steps: seq<Step>): State
    decreases |steps|
  {
    if steps == [] then s else Run(Exec(s, steps[0]), steps[1..])
  }

  function Start(now: int): State {
    State(now, map[], [], [])
  }

  /** The realm was last updated at `at` or later. */
  predicate Since(realm: RealmJwks, at: int) {
    realm.lastUpdate.Some? && at <= realm.lastUpdate.value
  }

  /** The last update of a cached realm, or of a snapshot, is no older than any of the realm's refreshes
      and configurations by then. */
  ghost predicate Inv(s: State) {
    CacheOk(s) && SnapshotsOk(s) && Throttled(s.history)
  }

  ghost predicate CacheOk(s: State) {
    && (forall e <- s.history :: e.at <= s.now)
    && (forall e <- s.history | !e.Began? && e.realmId in s.cache :: Since(s.cache[e.realmId], e.at))
    && (forall r <- s.cache :: s.cache[r].lastUpdate.Some? && s.cache[r].lastUpdate.value <= s.now)
  }

  ghost predicate SnapshotsOk(s: State) {
    forall f <- s.flights | f.phase.Deciding? :: SnapshotOk(s.history, f)
  }

  ghost predicate SnapshotOk(history: seq<Event>, f: Flight) {
    && f.known <= |history| && f.snapshot.lastUpdate.Some?
    && forall k | 0 <= k < f.known && !history[k].Began? && history[k].realmId == f.realmId ::
         Since(f.snapshot, history[k].at)
  }

  /** Every fetch is further than its interval from the refreshes and configurations that had happened
      when its lookup took its snapshot. */
  ghost predicate Throttled(history: seq<Event>) {
    && (forall j | 0 <= j < |history| && history[j].Began? :: history[j].known <= j)
    && (forall i, j | 0 <= i < j < |history| && history[j].Began? && i < history[j].known
                      && !history[i].Began? && history[i].realmId == history[j].realmId ::
          history[j].at > history[i].at + history[j].interval * NANOS)
  }

  lemma ExecKeepsInv(s: State, step: Step)
    requires Inv(s)
    ensures Inv(Exec(s, step))
  {
    CacheStaysOk(s, step);
    SnapshotsStayOk(s, step);
    if step.Decide? && Fetches(s, step.flight) {
      var f := s.flights[step.flight];
      assert f in s.flights && SnapshotOk(s.history, f);
      FetchIsThrottled(s, f);
    } else if !step.Decide? {
      OthersDoNotFetch(s.history, Exec(s, step).history);
    }
  }

  lemma CacheStaysOk(s: State, step: Step)
    requires CacheOk(s)
    ensures CacheOk(Exec(s, step))
  {
  }

  lemma SnapshotsStayOk(s: State, step: Step)
    requires CacheOk(s) && SnapshotsOk(s)
    ensures SnapshotsOk(Exec(s, step))
  {
    var s' := Exec(s, step);
    assert s.history <= s'.history;
    forall f <- s'.flights | f.phase.Deciding? ensures SnapshotOk(s'.history, f) {
      assert f in s.flights ==> SnapshotOk(s.history, f);
    }
  }

  lemma FetchIsThrottled(s: State, f: Flight)
    requires Throttled(s.history) && SnapshotOk(s.history, f) && IsRefreshAllowed(f.snapshot, s.now)
    ensures Throttled(s.history + [Began(f.realmId, s.now, Interval(f.snapshot), f.known)])
  {
  }

  lemma OthersDoNotFetch(history: seq<Event>, longer: seq<Event>)
    requires Throttled(history) && history <= longer
    requires forall j | |history| <= j < |longer| :: !longer[j].Began?
    ensures Throttled(longer)
  {
    assert forall i | 0 <= i < |history| :: longer[i] == history[i];
  }

  /** Throttling as every run has it, however its lookups overlap. */
  lemma {:induction false} EveryRunIsThrottled(s: State, steps: seq<Step>)
    requires Inv(s)
    ensures Inv(Run(s, steps)) && Throttled(Run(s, steps).history)
    decreases |steps|
  {
    if steps != [] {
      ExecKeepsInv(s, steps[0]);
      EveryRunIsThrottled(Exec(s, steps[0]), steps[1..]);
    }
  }

  // ---- Exactly which runs space their fetches ----

  /** Fetches of one realm are further apart than the interval the later one applied, and so far from its
      refreshes and configurations before them. */
  ghost predicate Spaced(history: seq<Event>) {
    forall i, j | 0 <= i < j < |history| && history[j].Began? && history[i].realmId == history[j].realmId ::
      history[j].at > history[i].at + history[j].interval * NANOS
  }

  /** Neither a fetch of the realm that was under way when the lookup took its snapshot, nor anything
      that happened to the realm since, lies within the interval before now. */
  ghost predicate Clear(s: State, f: Flight)
    requires f.known <= |s.history|
  {
    var gap := Interval(f.snapshot) * NANOS;
    && (forall began <- f.underWay :: s.now > began + gap)
    && (forall k | f.known <= k < |s.history| && s.history[k].realmId == f.realmId :: s.now > s.history[k].at + gap)
  }

  /** The step does not begin a fetch, or the lookup finds its realm clear. */
  ghost predicate StepKeepsClear(s: State, step: Step) {
    step.Decide? && Fetches(s, step.flight) ==>
      && s.flights[step.flight].known <= |s.history|
      && Clear(s, s.flights[step.flight])
  }

  ghost predicate KeepsClear(s: State, steps: seq<Step>)
    decreases |steps|
  {
    steps == [] || (StepKeepsClear(s, steps[0]) && KeepsClear(Exec(s, steps[0]), steps[1..]))
  }

  ghost predicate StillFetching(s: State, realmId: string, at: int) {
    exists f <- s.flights :: f.realmId == realmId && f.phase == Fetching(at)
  }

  ghost predicate HasBegun(history: seq<Event>, realmId: string, at: int) {
    exists e <- history :: e.Began? && e.realmId == realmId && e.at == at
  }

  /** A fetch that began is still going on, or its realm was updated since, or is gone; and every fetch
      that goes on began. So it was for each snapshot when it was taken. */
  ghost predicate FlightsOk(s: State) {
    && (forall e <- s.history | e.Began? && e.realmId in s.cache ::
          StillFetching(s, e.realmId, e.at) || Since(s.cache[e.realmId], e.at))
    && (forall f <- s.flights | f.phase.Fetching? :: HasBegun(s.history, f.realmId, f.phase.began))
    && (forall f <- s.flights | f.phase.Deciding? :: WayOk(s.history, f))
  }

  ghost predicate WayOk(history: seq<Event>, f: Flight) {
    && f.known <= |history|
    && (forall k | 0 <= k < f.known && history[k].Began? && history[k].realmId == f.realmId ::
          history[k].at in f.underWay || Since(f.snapshot, history[k].at))
    && (forall began <- f.underWay :: HasBegun(history[..f.known], f.realmId, began))
  }

  lemma FlightsStayUp(s: State, step: Step, realmId: string, at: int)
    requires StillFetching(s, realmId, at)
    ensures StillFetching(Exec(s, step), realmId, at)
            || (step.EndLookup? && step.flight < |s.flights| && s.flights[step.flight].realmId == realmId
                && s.flights[step.flight].phase.Fetching?)
  {
    var k :| 0 <= k < |s.flights| && s.flights[k].realmId == realmId && s.flights[k].phase == Fetching(at);
    if !(step.EndLookup? && step.flight == k) {
      assert Exec(s, step).flights[k] == s.flights[k];
    }
  }

  lemma BeganIsFollowed(s: State, step: Step, e: Event)
    requires Inv(s) && FlightsOk(s)
    requires e in Exec(s, step).history && e.Began? && e.realmId in Exec(s, step).cache
    ensures StillFetching(Exec(s, step), e.realmId, e.at) || Since(Exec(s, step).cache[e.realmId], e.at)
  {
    var s' := Exec(s, step);
    if e !in s.history {
      assert e == s'.history[|s.history|];
      assert s'.flights[step.flight].realmId == e.realmId && s'.flights[step.flight].phase == Fetching(e.at);
    } else if e.realmId in s.cache && StillFetching(s, e.realmId, e.at) {
      FlightsStayUp(s, step, e.realmId, e.at);
    }
  }

  lemma SnapshotSeesFlights(s: State, f: Flight)
    requires FlightsOk(s) && f.realmId in s.cache && f.phase.Deciding?
    requires f == Flight(f.realmId, s.cache[f.realmId], |s.history|, UnderWay(s, f.realmId), Deciding)
    ensures WayOk(s.history, f)
  {
    assert s.history[..f.known] == s.history;
    forall k | 0 <= k < f.known && s.history[k].Began? && s.history[k].realmId == f.realmId
      ensures s.history[k].at in f.underWay || Since(f.snapshot, s.history[k].at)
    {
      assert s.history[k] in s.history;
    }
  }

  lemma WayStays(history: seq<Event>, longer: seq<Event>, f: Flight)
    requires WayOk(history, f) && history <= longer
    ensures WayOk(longer, f)
  {
    assert longer[..f.known] == history[..f.known];
  }

  lemma StepKeepsFlights(s: State, step: Step)
    requires Inv(s) && FlightsOk(s)
    ensures FlightsOk(Exec(s, step))
  {
    var s' := Exec(s, step);
    assert s.history <= s'.history && |s'.history| <= |s.history| + 1;
    forall e <- s'.history | e.Began? && e.realmId in s'.cache
      ensures StillFetching(s', e.realmId, e.at) || Since(s'.cache[e.realmId], e.at)
    {
      BeganIsFollowed(s, step, e);
    }
    forall f <- s'.flights | f.phase.Fetching? ensures HasBegun(s'.history, f.realmId, f.phase.began) {
      if f in s.flights {
        var e :| e in s.history && e.Began? && e.realmId == f.realmId && e.at == f.phase.began;
        assert e in s'.history;
      } else {
        assert s'.history[|s.history|] in s'.history;
      }
    }
    forall f <- s'.flights | f.phase.Deciding? ensures WayOk(s'.history, f) {
      if f in s.flights {
        WayStays(s.history, s'.history, f);
      } else {
        SnapshotSeesFlights(s, f);
      }
    }
  }

  /** A step leaves a spaced history spaced exactly when it does not begin a fetch, or finds the realm clear. */
  lemma StepSpacesExactly(s: State, step: Step)
    requires Inv(s) && FlightsOk(s) && Spaced(s.history)
    ensures Spaced(Exec(s, step).history) <==> StepKeepsClear(s, step)
  {
    var s' := Exec(s, step);
    assert forall i | 0 <= i < |s.history| :: s'.history[i] == s.history[i];
    if step.Decide? && Fetches(s, step.flight) {
      var f := s.flights[step.flight];
      assert f in s.flights && WayOk(s.history, f) && SnapshotOk(s.history, f);
      assert s'.history == s.history + [Began(f.realmId, s.now, Interval(f.snapshot), f.known)];
      FetchSpacesExactly(s, f, s'.history);
    }
  }

  lemma FetchSpacesExactly(s: State, f: Flight, history: seq<Event>)
    requires SnapshotOk(s.history, f) && WayOk(s.history, f) && Spaced(s.history)
    requires IsRefreshAllowed(f.snapshot, s.now)
    requires history == s.history + [Began(f.realmId, s.now, Interval(f.snapshot), f.known)]
    ensures Spaced(history) <==> Clear(s, f)
  {
    if Clear(s, f) {
      ClearSpaces(s, f, history);
    }
    if Spaced(history) {
      SpacedIsClear(s, f, history);
    }
  }

  lemma ClearSpaces(s: State, f: Flight, history: seq<Event>)
    requires SnapshotOk(s.history, f) && WayOk(s.history, f) && Spaced(s.history)
    requires IsRefreshAllowed(f.snapshot, s.now) && Clear(s, f)
    requires history == s.history + [Began(f.realmId, s.now, Interval(f.snapshot), f.known)]
    ensures Spaced(history)
  {
    var n, gap := |s.history|, Interval(f.snapshot) * NANOS;
    forall i | 0 <= i < n && history[i].realmId == f.realmId ensures s.now > history[i].at + gap {
      assert history[i] == s.history[i];
    }
  }

  lemma SpacedIsClear(s: State, f: Flight, history: seq<Event>)
    requires WayOk(s.history, f) && Spaced(history)
    requires history == s.history + [Began(f.realmId, s.now, Interval(f.snapshot), f.known)]
    ensures Clear(s, f)
  {
    var n, gap := |s.history|, Interval(f.snapshot) * NANOS;
    forall i | 0 <= i < n && s.history[i].realmId == f.realmId ensures s.now > s.history[i].at + gap {
      assert history[i] == s.history[i] && history[n].at > history[i].at + history[n].interval * NANOS;
    }
    forall began <- f.underWay ensures s.now > began + gap {
      var e :| e in s.history[..f.known] && e.Began? && e.realmId == f.realmId && e.at == began;
      var i :| 0 <= i < f.known && s.history[..f.known][i] == e;
      assert s.history[i] == e;
    }
  }

  lemma SpacedPrefix(history: seq<Event>, longer: seq<Event>)
    requires history <= longer && Spaced(longer)
    ensures Spaced(history)
  {
    assert forall i | 0 <= i < |history| :: history[i] == longer[i];
  }

  lemma {:induction false} RunKeepsHistory(s: State, steps: seq<Step>)
    ensures s.history <= Run(s, steps).history
    decreases |steps|
  {
    if steps != [] {
      RunKeepsHistory(Exec(s, steps[0]), steps[1..]);
    }
  }

  lemma {:induction false} RunSpacesExactly(s: State, steps: seq<Step>)
    requires Inv(s) && FlightsOk(s) && Spaced(s.history)
    ensures Spaced(Run(s, steps).history) <==> KeepsClear(s, steps)
    decreases |steps|
  {
    if steps != [] {
      var s' := Exec(s, steps[0]);
      StepSpacesExactly(s, steps[0]);
      ExecKeepsInv(s, steps[0]);
      StepKeepsFlights(s, steps[0]);
      if Spaced(s'.history) {
        RunSpacesExactly(s', steps[1..]);
      } else {
        RunKeepsHistory(s', steps[1..]);
        if Spaced(Run(s', steps[1..]).history) {
          SpacedPrefix(s'.history, Run(s', steps[1..]).history);
        }
      }
    }
  }

  /** The fetches of a realm are further apart than the interval, and further than it from its last
      configuration, even when every fetch fails, exactly in the runs in which each lookup that decides
      to fetch finds its realm clear. */
  lemma FetchesAreSpacedExactlyWhen(now: int, steps: seq<Step>)
    ensures Spaced(Run(Start(now), steps).history) <==> KeepsClear(Start(now), steps)
  {
    RunSpacesExactly(Start(now), steps);
  }

  // ---- Lookups that do not overlap ----

  ghost predicate InFlight(s: State, realmId: string) {
    exists f <- s.flights :: f.realmId == realmId && !f.phase.Done?
  }

  ghost predicate IsDeciding(s: State, realmId: string) {
    exists f <- s.flights :: f.realmId == realmId && f.phase.Deciding?
  }

  /** No lookup of a realm takes its snapshot before another one of it has ended, and the realm is not
      configured anew while one decides. */
  ghost predicate Serial(s: State, steps: seq<Step>)
    decreases |steps|
  {
    steps == [] || (&& (steps[0].Snapshot? ==> !InFlight(s, steps[0].realmId))
                    && (steps[0].Upsert? ==> !IsDeciding(s, steps[0].realmId))
                    && Serial(Exec(s, steps[0]), steps[1..]))
  }

  /** A lookup that decides is the only one of its realm, and nothing happened to the realm since. */
  ghost predicate Alone(s: State) {
    && (forall i, j | 0 <= i < j < |s.flights| && s.flights[i].realmId == s.flights[j].realmId ::
          s.flights[i].phase.Done? || s.flights[j].phase.Done?)
    && (forall f <- s.flights | f.phase.Deciding? :: Undisturbed(s.history, f))
  }

  ghost predicate Undisturbed(history: seq<Event>, f: Flight) {
    && f.underWay == {} && f.known <= |history|
    && forall k | f.known <= k < |history| :: history[k].realmId != f.realmId
  }

  lemma SerialStepKeepsAlone(s: State, step: Step)
    requires Alone(s)
    requires (step.Snapshot? ==> !InFlight(s, step.realmId)) && (step.Upsert? ==> !IsDeciding(s, step.realmId))
    ensures Alone(Exec(s, step)) && StepKeepsClear(s, step)
  {
    var s' := Exec(s, step);
    assert forall i | 0 <= i < |s.flights| :: s.flights[i] in s.flights;
    forall f <- s'.flights | f.phase.Deciding? ensures Undisturbed(s'.history, f) {
      if f in s.flights {
        StaysUndisturbed(s, step, f);
      }
    }
  }

  lemma StaysUndisturbed(s: State, step: Step, f: Flight)
    requires Alone(s) && f in s.flights && f in Exec(s, step).flights && f.phase.Deciding?
    requires step.Upsert? ==> !IsDeciding(s, step.realmId)
    ensures Undisturbed(Exec(s, step).history, f)
  {
    var s' := Exec(s, step);
    var i :| 0 <= i < |s.flights| && s.flights[i] == f;
    if s'.history != s.history {
      assert s'.history[..|s.history|] == s.history && s'.history[|s.history|].realmId != f.realmId;
    }
  }

  lemma {:induction false} SerialRunsKeepClear(s: State, steps: seq<Step>)
    requires Serial(s, steps) && Alone(s)
    ensures KeepsClear(s, steps)
    decreases |steps|
  {
    if steps != [] {
      SerialStepKeepsAlone(s, steps[0]);
      SerialRunsKeepClear(Exec(s, steps[0]), steps[1..]);
    }
  }

  /** So fetches are spaced when the lookups of a realm do not overlap. */
  lemma SerialRunsAreSpaced(now: int, steps: seq<Step>)
    requires Serial(Start(now), steps)
    ensures Spaced(Run(Start(now), steps).history)
  {
    SerialRunsKeepClear(Start(now), steps);
    FetchesAreSpacedExactlyWhen(now, steps);
  }

  // ---- Lookups that do ----

  lemma {:induction false} RunExtends(s: State, steps: seq<Step>, step: Step)
    ensures Run(s, steps + [step]) == Exec(Run(s, steps), step)
    decreases |steps|
  {
    if steps == [] {
      assert [step][1..] == [];
    } else {
      RunExtends(Exec(s, steps[0]), steps[1..], step);
      assert (steps + [step])[1..] == steps[1..] + [step];
    }
  }

  lemma Advance(s: State, steps: seq<Step>, step: Step) returns (s': State, steps': seq<Step>)
    requires s == Run(Start(0), steps)
    ensures s' == Exec(s, step) && steps' == steps + [step] && s' == Run(Start(0), steps')
  {
    s', steps' := Exec(s, step), steps + [step];
    RunExtends(Start(0), steps, step);
  }

  /** Not all runs space their fetches: two lookups that miss at the same moment both fetch. */
  lemma OverlappingLookupsBothFetch(realmId: string, uris: seq<string>, kid: string) returns (steps: seq<Step>)
    ensures Run(Start(0), steps).history
            == [Configured(realmId, 0), Began(realmId, 61 * NANOS, 60, 1), Began(realmId, 61 * NANOS, 60, 1)]
  {
    var s := Start(0);
    steps := [];
    s, steps := Advance(s, steps, Upsert(realmId, uris, None, _ => None));
    s, steps := Advance(s, steps, Tick(61 * NANOS));
    s, steps := Advance(s, steps, Snapshot(realmId, kid));
    s, steps := Advance(s, steps, Snapshot(realmId, kid));
    s, steps := Advance(s, steps, Decide(0));
    s, steps := Advance(s, steps, Decide(1));
  }

  /** And a lookup that took its snapshot at 59 s and reads the clock at 63 s fetches, although another
      one has refreshed the realm at 62 s. */
  lemma StaleSnapshotFetchesAgain(realmId: string, uris: seq<string>, kid: string) returns (steps: seq<Step>)
    ensures Run(Start(0), steps).history
            == [Configured(realmId, 0), Began(realmId, 61 * NANOS, 60, 1), Refreshed(realmId, 62 * NANOS),
                Began(realmId, 63 * NANOS, 60, 1)]
  {
    var s := Start(0);
    steps := [];
    s, steps := Advance(s, steps, Upsert(realmId, uris, None, _ => None));
    s, steps := Advance(s, steps, Tick(59 * NANOS));
    s, steps := Advance(s, steps, Snapshot(realmId, kid));
    s, steps := Advance(s, steps, Tick(2 * NANOS));
    s, steps := Advance(s, steps, Snapshot(realmId, kid));
    s, steps := Advance(s, steps, Decide(1));
    s, steps := Advance(s, steps, Tick(NANOS));
    s, steps := Advance(s, steps, EndLookup(1, _ => None));
    assert s.history == [Configured(realmId, 0), Began(realmId, 61 * NANOS, 60, 1), Refreshed(realmId, 62 * NANOS)];
    s, steps := Advance(s, steps, Tick(NANOS));
    s, steps := Advance(s, steps, Decide(0));
  }

  // ---- Counting ----

  /** The times of the fetches of a realm within a window. */
  function FetchTimes(history: seq<Event>, realmId: string, from: int, until: int): seq<int> {
    if history == [] then []
    else
      var n := |history| - 1;
      var e := history[n];
      FetchTimes(history[..n], realmId, from, until)
      + if e.Began? && e.realmId == realmId && from <= e.at <= until then [e.at] else []
  }

  lemma {:induction false} FetchTimesAre(history: seq<Event>, realmId: string, from: int, until: int, t: int)
    ensures t in FetchTimes(history, realmId, from, until)
            ==> exists e <- history :: e.Began? && e.realmId == realmId && e.at == t && from <= t <= until
  {
    if history != [] {
      FetchTimesAre(history[..|history| - 1], realmId, from, until, t);
      assert history == history[..|history| - 1] + [history[|history| - 1]];
    }
  }

  ghost predicate Gapped(times: seq<int>, gap: int) {
    forall i | 0 < i < |times| :: times[i] > times[i - 1] + gap
  }

  lemma {:induction false} TimesAreGapped(history: seq<Event>, realmId: string, from: int, until: int, interval: int)
    requires Spaced(history)
    requires forall e <- history | e.Began? && e.realmId == realmId :: e.interval >= interval
    ensures Gapped(FetchTimes(history, realmId, from, until), interval * NANOS)
  {
    if history != [] {
      var n := |history| - 1;
      var before := FetchTimes(history[..n], realmId, from, until);
      TimesAreGapped(history[..n], realmId, from, until, interval);
      assert history[n] in history;
      if before != [] {
        FetchTimesAre(history[..n], realmId, from, until, before[|before| - 1]);
      }
    }
  }

  lemma {:induction false} GapsAddUp(times: seq<int>, gap: int)
    requires |times| > 1 && Gapped(times, gap)
    ensures times[|times| - 1] - times[0] > (|times| - 1) * gap
  {
    var n := |times| - 1;
    if n > 1 {
      GapsAddUp(times[..n], gap);
      assert n * gap == (n - 1) * gap + gap;
    }
  }

  /** A window of `seconds` holds at most one fetch of a realm for every interval that fits into it,
      and one more. */
  lemma FetchesAreBounded(now: int, steps: seq<Step>, realmId: string, from: int, seconds: nat, interval: nat)
    requires KeepsClear(Start(now), steps) && interval > 0
    requires forall e <- Run(Start(now), steps).history | e.Began? && e.realmId == realmId :: e.interval >= interval
    ensures |FetchTimes(Run(Start(now), steps).history, realmId, from,
        from + seconds * NANOS)| <= seconds / interval + 1
  {
    var history, until := Run(Start(now), steps).history, from + seconds * NANOS;
    FetchesAreSpacedExactlyWhen(now, steps);
    TimesAreGapped(history, realmId, from, until, interval);
    forall t <- FetchTimes(history, realmId, from, until) ensures from <= t <= until {
      FetchTimesAre(history, realmId, from, until, t);
    }
    FewTimesFit(FetchTimes(history, realmId, from, until), from, seconds, interval);
  }

  lemma FewTimesFit(times: seq<int>, from: int, seconds: nat, interval: nat)
    requires interval > 0 && Gapped(times, interval * NANOS)
    requires forall t <- times :: from <= t <= from + seconds * NANOS
    ensures |times| <= seconds / interval + 1
  {
    if |times| > 1 {
      var k := |times| - 1;
      GapsAddUp(times, interval * NANOS);
      assert times[0] in times && times[k] in times;
      assert k * (interval * NANOS) == (k * interval) * NANOS;
      Quotient(k, interval, seconds);
    }
  }

  lemma Quotient(k: nat, interval: nat, seconds: nat)
    requires interval > 0 && k * interval <= seconds
    ensures k <= seconds / interval
  {
    var q := seconds / interval;
    assert k * interval == q * interval + (k - q) * interval;
    assert k - q >= 1 ==> (k - q) * interval >= interval;
  }

  // ---- The manager ----

  class JwksManager {
    var realmJwks: Cache

    constructor ()
      ensures realmJwks == map[]
    {
      realmJwks := map[];
    }

    method FetchAll(uris: seq<string>, responses: Responses) returns (jwks: map<string, seq<Jwk>>)
      ensures jwks == Fetched(uris, responses) && IsServed(jwks, uris, responses)
    {
      jwks := map[];
      for i := 0 to |uris|
        invariant jwks == Fetched(uris[..i], responses)
      {
        assert uris[..i + 1] == uris[..i] + [uris[i]];
        var response := responses(uris[i]);
        if response.Some? {
          jwks := jwks[uris[i] := response.value];
        }
      }
      assert uris[..|uris|] == uris;
    }

    method SetRealmJwks(realmId: string, newJwks: map<string, seq<Jwk>>, now: int) returns (r: Result<(), JwksError>)
      modifies this
      ensures (realmJwks, r) == SetJwks(old(realmJwks), realmId, newJwks, now)
      ensures r.Success? <==> realmId in old(realmJwks)
      ensures r.Failure? ==> realmJwks == old(realmJwks)
      ensures r.Success? ==>
                var realm := old(realmJwks)[realmId];
                realmJwks == old(realmJwks)[realmId := RealmJwks(realm.uris, newJwks, Some(now),
                                                                 realm.smallestRefreshInterval)]
    {
      if realmId !in realmJwks {
        return Failure(RealmNotFound);
      }
      var realm := realmJwks[realmId].(lastUpdate := Some(now));
      realm := realm.(jwks := newJwks);
      realmJwks := realmJwks[realmId := realm];
      return Success(());
    }

    method FindInSnapshot(realm: RealmJwks, order: seq<string>, kid: string) returns (r: Option<Jwk>)
      requires Enumerates(order, realm.jwks.Keys)
      ensures r == Search(realm.jwks, order, kid)
    {
      for i := 0 to |order|
        invariant Search(realm.jwks, order, kid) == Search(realm.jwks, order[i..], kid)
      {
        var jwk := FirstWithKid(realm.jwks[order[i]], kid);
        if jwk.Some? {
          return jwk;
        }
      }
      return None;
    }

    /** The second search is of the snapshot taken before the refresh. */
    method FindJwk(realmId: string, kid: string, order: seq<string>, responses: Responses, checkedAt: int, setAt: int)
      returns (r: Result<Option<Jwk>, JwksError>)
      requires realmId in realmJwks ==> Enumerates(order, realmJwks[realmId].jwks.Keys)
      modifies this
      ensures (realmJwks, r) == Lookup(old(realmJwks), realmId, kid, order, responses, checkedAt, setAt)
    {
      if realmId !in realmJwks {
        return Failure(RealmNotFound);
      }
      var realm := realmJwks[realmId];
      var jwk := FindInSnapshot(realm, order, kid);
      if jwk.Some? {
        return Success(jwk);
      }
      if IsRefreshAllowed(realm, checkedAt) {
        var refreshed := FetchAll(realm.uris, responses);
        var _ := SetRealmJwks(realmId, refreshed, setAt);
        jwk := FindInSnapshot(realm, order, kid);
        return Success(jwk);
      }
      return Success(None);
    }

    method UpsertRealm(realmId: string, uris: seq<string>, interval: Option<int>, responses: Responses, now: int)
      modifies this
      ensures realmJwks == Upserted(old(realmJwks), realmId, uris, interval, responses, now)
      ensures realmId in realmJwks && IsServed(realmJwks[realmId].jwks, uris, responses)
      ensures realmJwks
              == old(realmJwks)[realmId := RealmJwks(uris, realmJwks[realmId].jwks, Some(now), interval)]
    {
      var jwks := FetchAll(uris, responses);
      realmJwks := realmJwks[realmId := RealmJwks(uris, jwks, Some(now), interval)];
    }

    method RemoveRealm(realmId: string) returns (r: Result<(), JwksError>)
      modifies this
      ensures r.Success? <==> realmId in old(realmJwks)
      ensures realmJwks == old(realmJwks) - {realmId}
    {
      if realmId !in realmJwks {
        return Failure(RealmNotFound);
      }
      realmJwks := realmJwks - {realmId};
      return Success(());
    }

    /** `order` lists the realms of the snapshot. */
    method RemoveStaleEntries(order: seq<string>, now: int)
      requires Enumerates(order, realmJwks.Keys)
      modifies this
      ensures realmJwks == WithoutStale(old(realmJwks), now)
      ensures realmJwks == map r | r in old(realmJwks) && (old(realmJwks)[r].lastUpdate.None?
                  || now <= old(realmJwks)[r].lastUpdate.value + 86_400 * 1_000_000_000) :: old(realmJwks)[r]
    {
      ghost var before := realmJwks;
      for i := 0 to |order|
        invariant forall r | r in realmJwks :: r in before && realmJwks[r] == before[r]
        invariant forall r | r in before :: r !in realmJwks ==> r !in WithoutStale(before, now)
        invariant forall j | i <= j < |order| :: order[j] in realmJwks
        invariant forall j | 0 <= j < i :: order[j] in realmJwks <==> order[j] in WithoutStale(before, now)
      {
        var lastUpdate := realmJwks[order[i]].lastUpdate;
        if lastUpdate.Some? && lastUpdate.value + JWKS_CACHE_RETENTION_INTERVAL * NANOS < now {
          var _ := RemoveRealm(order[i]);
        }
      }
      assert forall r | r in before :: r in order;
      assert realmJwks == WithoutStale(before, now);
    }
  }

  /** The steps that write the cache are the manager's operations: a lookup's end sets what was served for
      the snapshot's addresses, and is an event, exactly if the realm is still configured; the others
      override and remove an entry. */
  lemma WritesAreOperations(s: State, flight: nat, responses: Responses, realmId: string, uris: seq<string>,
                            interval: Option<int>)
    requires flight < |s.flights| && s.flights[flight].phase.Fetching?
    ensures var (f, s') := (s.flights[flight], Exec(s, EndLookup(flight, responses)));
            if f.realmId in s.cache then
              && s'.cache.Keys == s.cache.Keys && IsServed(s'.cache[f.realmId].jwks, f.snapshot.uris, responses)
              && s'.cache == s.cache[f.realmId := s.cache[f.realmId].(jwks := s'.cache[f.realmId].jwks,
                                                                      lastUpdate := Some(s.now))]
              && s'.history == s.history + [Refreshed(f.realmId, s.now)]
            else s'.cache == s.cache && s'.history == s.history
    ensures var s' := Exec(s, Upsert(realmId, uris, interval, responses));
            && realmId in s'.cache && IsServed(s'.cache[realmId].jwks, uris, responses)
            && s'.cache == s.cache[realmId := RealmJwks(uris, s'.cache[realmId].jwks, Some(s.now), interval)]
            && s'.history == s.history + [Configured(realmId, s.now)]
    ensures Exec(s, Remove(realmId)) == s.(cache := s.cache - {realmId})
  {
  }

  /** A lookup on its own is a serial path of the machine, which the theorems on runs therefore cover. */
  lemma LookupIsASerialRun(s: State, realmId: string, kid: string, order: seq<string>, responses: Responses,
                           untilCheck: nat, untilSet: nat) returns (steps: seq<Step>)
    requires realmId in s.cache && Enumerates(order, s.cache[realmId].jwks.Keys) && !InFlight(s, realmId)
    ensures Serial(s, steps) && !InFlight(Run(s, steps), realmId)
    ensures Run(s, steps).cache
            == Lookup(s.cache, realmId, kid, order, responses, s.now + untilCheck, s.now + untilCheck + untilSet).0
    ensures Run(s, steps).now == s.now + untilCheck + untilSet
  {
    SearchFinds(s.cache[realmId].jwks, order, kid);
    var n := |s.flights|;
    if Holds(s.cache[realmId].jwks, kid) {
      steps := [Snapshot(realmId, kid), Tick(untilCheck + untilSet)];
      RunOfTwo(s, steps);
      assert Serial(Exec(Exec(s, steps[0]), steps[1]), []);
    } else {
      steps := [Snapshot(realmId, kid), Tick(untilCheck), Decide(n), Tick(untilSet), EndLookup(n, responses)];
      RunOfFive(s, steps);
      var s' := Run(s, steps);
      forall f <- s'.flights | f.realmId == realmId ensures f.phase.Done? {
        if f !in s.flights {
          assert f == s'.flights[n];
        }
      }
    }
  }

  lemma RunOfTwo(s: State, steps: seq<Step>)
    requires |steps| == 2 && !steps[0].Upsert? && !steps[1].Snapshot? && !steps[1].Upsert?
    requires steps[0].Snapshot? ==> !InFlight(s, steps[0].realmId)
    ensures Run(s, steps) == Exec(Exec(s, steps[0]), steps[1]) && Serial(s, steps)
  {
    var s1, rest := Exec(s, steps[0]), steps[1..];
    assert rest[1..] == [] && Serial(Exec(s1, rest[0]), []);
    assert Run(s1, rest) == Run(Exec(s1, rest[0]), []) && Serial(s1, rest);
  }

  lemma RunOfFive(s: State, steps: seq<Step>)
    requires |steps| == 5 && !steps[0].Upsert? && forall i | 1 <= i < 5 :: !steps[i].Snapshot? && !steps[i].Upsert?
    requires steps[0].Snapshot? ==> !InFlight(s, steps[0].realmId)
    ensures Run(s, steps) == Exec(Exec(Exec(Exec(Exec(s, steps[0]), steps[1]), steps[2]), steps[3]), steps[4])
    ensures Serial(s, steps)
  {
    var s1, r1 := Exec(s, steps[0]), steps[1..];
    var s2, r2 := Exec(s1, steps[1]), steps[2..];
    var s3, r3 := Exec(s2, steps[2]), steps[3..];
    assert r1[1..] == r2 && r2[1..] == r3;
    RunOfTwo(s3, r3);
    assert Run(s2, r2) == Run(s3, r3) && Serial(s2, r2);
    assert Run(s1, r1) == Run(s2, r2) && Serial(s1, r1);
  }
}
