/** The Redis backend (server/src/saml/impls/redis.rs), and the proof that a client cannot tell it
    from the SQL backends although it forgets rows by time-to-live instead of by purge. */
module RedisRequestStore {
  import opened Wrappers
  import opened RequestStore
  import opened RedisKeys

  /** A JSON-encoded pending request, or the marker of a consumed assertion id. */
  datatype Value = Json(request: PendingSamlRequest) | Marker

  /** A value with the instant its time-to-live lapses; Redis answers nothing from then on. */
  datatype Entry = Entry(value: Value, deadline: int)

  type Keyspace = map<string, Entry>

  predicate Live(keys: Keyspace, key: string, now: int) {
    key in keys && now < keys[key].deadline
  }

  function SetEx(keys: Keyspace, key: string, value: Value, ttl: int, now: int): Keyspace {
    keys[key := Entry(value, now + ttl * NANOS_PER_SECOND)]
  }

  function RedisStorePending(keys: Keyspace, request: PendingSamlRequest, now: int): (Keyspace, Result<(), StoreError>)
  {
    match EnsureUnexpired(request.expiresAt, now)
    case Failure(e) => (keys, Failure(e))
    case Success(ttl) =>
      (SetEx(keys, PendingKey(request.realmId, request.requestId), Json(request), ttl, now), Success(()))
  }

  /** GETDEL, then the expiry checked again on what came back. */
  function RedisTakePending(keys: Keyspace, requestId: string, realmId: string, now: int)
    : (Keyspace, Result<Option<PendingSamlRequest>, StoreError>)
  {
    var key := PendingKey(realmId, requestId);
    if !Live(keys, key, now) then (keys, Success(None))
    else
      (keys - {key},
       match keys[key].value
       case Marker => Failure(Undecodable)
       case Json(request) => Success(if request.expiresAt <= Timestamp(now) then None else Some(request)))
  }

  /** SET NX EX. */
  function RedisRecordAssertion(keys: Keyspace, realmId: string, assertionId: string, expiresAt: int, now: int)
    : (Keyspace, Result<bool, StoreError>)
  {
    match EnsureUnexpired(expiresAt, now)
    case Failure(e) => (keys, Failure(e))
    case Success(ttl) =>
      var key := SeenKey(realmId, assertionId);
      if Live(keys, key, now) then (keys, Success(false))
      else (SetEx(keys, key, Marker, ttl, now), Success(true))
  }

  class RedisSamlRequestStore {
    var keys: Keyspace

    constructor ()
      ensures keys == map[]
    {
      keys := map[];
    }

    method StorePendingRequest(request: PendingSamlRequest, now: int) returns (r: Result<(), StoreError>)
      modifies this
      ensures (keys, r) == RedisStorePending(old(keys), request, now)
      ensures r.Success? <==> now < request.expiresAt * NANOS_PER_SECOND
      ensures r.Failure? ==> r.error == AlreadyExpired && keys == old(keys)
      ensures r.Success? ==>
                var deadline := now + (request.expiresAt - Timestamp(now)) * NANOS_PER_SECOND;
                keys == old(keys)[PendingKey(request.realmId, request.requestId) := Entry(Json(request), deadline)]
    {
      var key := PendingKey(request.realmId, request.requestId);
      var remaining := EnsureUnexpired(request.expiresAt, now);
      if remaining.Failure? {
        return Failure(remaining.error);
      }
      keys := SetEx(keys, key, Json(request), remaining.value, now);
      return Success(());
    }

    method TakePendingRequest(requestId: string, realmId: string, now: int)
      returns (r: Result<Option<PendingSamlRequest>, StoreError>)
      modifies this
      ensures (keys, r) == RedisTakePending(old(keys), requestId, realmId, now)
      ensures var key := PendingKey(realmId, requestId);
              if key in old(keys) && now < old(keys)[key].deadline then
                && keys == old(keys) - {key}
                && (r.Failure? <==> old(keys)[key].value.Marker?)
                && (r.Success? && now < old(keys)[key].value.request.expiresAt * NANOS_PER_SECOND ==>
                      r.value == Some(old(keys)[key].value.request))
                && (r.Success? && old(keys)[key].value.request.expiresAt * NANOS_PER_SECOND <= now ==> r.value == None)
              else keys == old(keys) && r == Success(None)
    {
      var key := PendingKey(realmId, requestId);
      if !Live(keys, key, now) {
        return Success(None);
      }
      var value := keys[key].value;
      keys := keys - {key};
      if value.Marker? {
        return Failure(Undecodable);
      }
      if value.request.expiresAt <= Timestamp(now) {
        return Success(None);
      }
      return Success(Some(value.request));
    }

    method RecordAssertionId(realmId: string, assertionId: string, expiresAt: int, now: int)
      returns (r: Result<bool, StoreError>)
      modifies this
      ensures (keys, r) == RedisRecordAssertion(old(keys), realmId, assertionId, expiresAt, now)
      ensures r.Success? <==> now < expiresAt * NANOS_PER_SECOND
      ensures r.Success? ==>
                var key := SeenKey(realmId, assertionId);
                var deadline := now + (expiresAt - Timestamp(now)) * NANOS_PER_SECOND;
                && (r.value <==> !(key in old(keys) && now < old(keys)[key].deadline))
                && keys == if r.value then old(keys)[key := Entry(Marker, deadline)] else old(keys)
      ensures r.Failure? ==> r.error == AlreadyExpired && keys == old(keys)
    {
      var remaining := EnsureUnexpired(expiresAt, now);
      if remaining.Failure? {
        return Failure(remaining.error);
      }
      var key := SeenKey(realmId, assertionId);
      if Live(keys, key, now) {
        return Success(false);
      }
      keys := SetEx(keys, key, Marker, remaining.value, now);
      return Success(true);
    }
  }

  // ---- One client, two backends ----

  datatype Operation =
    | Store(request: PendingSamlRequest)
    | Take(requestId: string, realmId: string)
    | Record(realm: string, assertionId: string, expiresAt: int)
    | Purge

  /** A call of the store's interface with the clock reading it makes. */
  datatype Call = Call(now: int, op: Operation)

  datatype Reply =
    | Stored(outcome: Result<(), StoreError>)
    | Taken(request: Result<Option<PendingSamlRequest>, StoreError>)
    | Recorded(isNew: Result<bool, StoreError>)
    | Purged

  function SqlStep(t: Tables, c: Call): (Tables, Reply) {
    match c.op
    case Store(request) => var (t', r) := StorePending(t, request, c.now); (t', Stored(r))
    case Take(id, realm) => var (t', r) := TakePending(t, id, realm, c.now); (t', Taken(Success(r)))
    case Record(realm, id, expiresAt) =>
      var (t', r) := RecordAssertion(t, realm, id, expiresAt, c.now); (t', Recorded(r))
    case Purge => (DeleteExpired(t, c.now), Purged)
  }

  function RedisStep(keys: Keyspace, c: Call): (Keyspace, Reply) {
    match c.op
    case Store(request) => var (k, r) := RedisStorePending(keys, request, c.now); (k, Stored(r))
    case Take(id, realm) => var (k, r) := RedisTakePending(keys, id, realm, c.now); (k, Taken(r))
    case Record(realm, id, expiresAt) =>
      var (k, r) := RedisRecordAssertion(keys, realm, id, expiresAt, c.now); (k, Recorded(r))
    case Purge => (keys, Purged)
  }

  function SqlReplies(t: Tables, calls: seq<Call>): seq<Reply>
    decreases |calls|
  {
    if calls == [] then []
    else var (t', reply) := SqlStep(t, calls[0]); [reply] + SqlReplies(t', calls[1..])
  }

  function RedisReplies(keys: Keyspace, calls: seq<Call>): seq<Reply>
    decreases |calls|
  {
    if calls == [] then []
    else var (k, reply) := RedisStep(keys, calls[0]); [reply] + RedisReplies(k, calls[1..])
  }

  /** The realm and request id that an operation on pending requests names. */
  function Named(op: Operation): Option<(string, string)> {
    match op
    case Store(request) => Some((request.realmId, request.requestId))
    case Take(id, realm) => Some((realm, id))
    case _ => None
  }

  /** The two calls name different requests under one key. */
  predicate ConfusedCalls(c: Call, d: Call) {
    && c.op.Store? && Named(d.op).Some?
    && Confused(c.op.request.realmId, c.op.request.requestId, Named(d.op).value.0, Named(d.op).value.1)
  }

  /** What the callers of the store keep to: the clock does not run backwards, request ids are fresh and
      no two stored requests share a key, as generated ids see to, and a (realm, assertion id) pair always
      comes with one expiry. */
  predicate WellBehaved(calls: seq<Call>) {
    && (forall i, j | 0 <= i < j < |calls| :: calls[i].now <= calls[j].now)
    && (forall i, j | 0 <= i < j < |calls| && calls[i].op.Store? && calls[j].op.Store? ::
          calls[i].op.request.requestId != calls[j].op.request.requestId)
    && (forall i, j | 0 <= i < j < |calls| && calls[i].op.Record? && calls[j].op.Record? ::
          calls[i].op.realm == calls[j].op.realm && calls[i].op.assertionId == calls[j].op.assertionId
          ==> calls[i].op.expiresAt == calls[j].op.expiresAt)
    && (forall c <- calls, d <- calls | d.op.Store? :: !ConfusedCalls(c, d))
  }

  /** Generated ids are enough for that. */
  lemma GeneratedIdsAreNotConfused(calls: seq<Call>)
    requires forall c <- calls | c.op.Store? :: IsRequestId(c.op.request.requestId)
    ensures forall c <- calls, d <- calls | d.op.Store? :: !ConfusedCalls(c, d)
  {
    forall c <- calls, d <- calls | c.op.Store? && d.op.Store? ensures !ConfusedCalls(c, d) {
      var x, y := c.op.request, d.op.request;
      assert ':' !in x.requestId && ':' !in y.requestId;
      ShiftedHoldsColons(x.realmId, x.requestId, y.realmId, y.requestId);
      ShiftedHoldsColons(y.realmId, y.requestId, x.realmId, x.requestId);
    }
  }

  /** No confusion arises where all realm ids are free of `:`, as on PostgreSQL and MySQL, or all the
      request ids stored and posted are. */
  lemma ColonFreeCallsAreNotConfused(calls: seq<Call>)
    requires || (forall c <- calls :: Named(c.op).Some? ==> ':' !in Named(c.op).value.0)
             || (forall c <- calls :: Named(c.op).Some? ==> ':' !in Named(c.op).value.1)
    ensures forall c <- calls, d <- calls :: !ConfusedCalls(c, d)
  {
    forall c <- calls, d <- calls | c.op.Store? && Named(d.op).Some? ensures !ConfusedCalls(c, d) {
      var x, y := Named(c.op).value, Named(d.op).value;
      ShiftedHoldsColons(x.0, x.1, y.0, y.1);
      ShiftedHoldsColons(y.0, y.1, x.0, x.1);
    }
  }

  /** The call is a take that names, under another realm or id, the key of a request that is stored,
      untaken and unexpired. */
  predicate Misdirected(t: Tables, c: Call) {
    && c.op.Take?
    && exists i <- t.pending ::
         && t.pending[i].expiresAt > Timestamp(c.now)
         && Confused(c.op.realmId, c.op.requestId, t.pending[i].realmId, t.pending[i].requestId)
  }

  predicate Misdirects(t: Tables, calls: seq<Call>)
    decreases |calls|
  {
    calls != [] && (Misdirected(t, calls[0]) || Misdirects(SqlStep(t, calls[0]).0, calls[1..]))
  }

  /** A well-behaved sequence of calls gets different replies from the backends exactly when one of its
      takes is misdirected. */
  lemma BackendsDifferExactlyWhen(calls: seq<Call>)
    requires WellBehaved(calls)
    ensures SqlReplies(Tables(map[], map[]), calls) != RedisReplies(map[], calls)
            <==> Misdirects(Tables(map[], map[]), calls)
  {
    if calls != [] {
      RepliesDifferExactly(Tables(map[], map[]), map[], map[], map[], calls[0].now, calls);
    }
  }

  /** So they agree wherever no take is confused with a stored request. */
  lemma BackendsAgree(calls: seq<Call>)
    requires WellBehaved(calls) && forall c <- calls, d <- calls :: !ConfusedCalls(c, d)
    ensures SqlReplies(Tables(map[], map[]), calls) == RedisReplies(map[], calls)
  {
    BackendsDifferExactlyWhen(calls);
    NothingMisdirected(Tables(map[], map[]), calls);
  }

  lemma {:induction false} NothingMisdirected(t: Tables, calls: seq<Call>)
    requires forall c <- calls, d <- calls :: !ConfusedCalls(c, d)
    requires forall i <- t.pending, d <- calls | Named(d.op).Some? ::
               !Confused(t.pending[i].realmId, t.pending[i].requestId, Named(d.op).value.0, Named(d.op).value.1)
    ensures !Misdirects(t, calls)
    decreases |calls|
  {
    if calls != [] {
      var t' := SqlStep(t, calls[0]).0;
      assert calls[0] in calls && forall d <- calls[1..] :: d in calls;
      assert !Misdirected(t, calls[0]);
      forall i <- t'.pending, d <- calls[1..] | Named(d.op).Some?
        ensures !Confused(t'.pending[i].realmId, t'.pending[i].requestId, Named(d.op).value.0, Named(d.op).value.1)
      {
        assert !ConfusedCalls(calls[0], d);
        assert i in t.pending || (calls[0].op.Store? && t'.pending[i] == calls[0].op.request);
      }
      NothingMisdirected(t', calls[1..]);
    }
  }

  function KeyOf(request: PendingSamlRequest): string {
    PendingKey(request.realmId, request.requestId)
  }

  function MarkerKey(pair: (string, string)): string {
    SeenKey(pair.0, pair.1)
  }

  /** The keyspace holds `value` under `key`, to lapse no earlier than the second `expiresAt`. */
  predicate Holds(keys: Keyspace, key: string, value: Value, expiresAt: int) {
    key in keys && keys[key].value == value && expiresAt * NANOS_PER_SECOND <= keys[key].deadline
  }

  /** `stored` holds every request stored so far. An unexpired one is in both states or in
      neither, and its live key never lapses before its expiry. */
  ghost predicate PendingCorresponds(pending: map<string, PendingSamlRequest>, keys: Keyspace,
                                     stored: map<string, PendingSamlRequest>, now: int)
  {
    && (forall id <- stored :: stored[id].requestId == id)
    && (forall id <- pending :: id in stored && pending[id] == stored[id])
    && (forall id <- stored | KeyOf(stored[id]) in keys ::
          Holds(keys, KeyOf(stored[id]), Json(stored[id]), stored[id].expiresAt))
    && (forall id <- stored | now < stored[id].expiresAt * NANOS_PER_SECOND ::
          id in pending <==> KeyOf(stored[id]) in keys)
  }

  /** `recorded` holds the expiry of every assertion id recorded so far. An unexpired one is in
      both states. */
  ghost predicate SeenCorresponds(seen: map<(string, string), int>, keys: Keyspace,
                                  recorded: map<(string, string), int>, now: int)
  {
    && (forall pair <- seen :: pair in recorded && seen[pair] == recorded[pair])
    && (forall pair <- recorded | now < recorded[pair] * NANOS_PER_SECOND ::
          pair in seen && Holds(keys, MarkerKey(pair), Marker, recorded[pair]))
  }

  /** Every key in Redis was put there by a store or a record. */
  ghost predicate Explained(keys: Keyspace, stored: map<string, PendingSamlRequest>,
                            recorded: map<(string, string), int>)
  {
    forall key <- keys ::
      || (exists id <- stored :: key == KeyOf(stored[id]))
      || (exists pair <- recorded :: key == MarkerKey(pair))
  }

  /** How the two states correspond at the reading `now`. */
  ghost predicate Corresponds(t: Tables, keys: Keyspace, stored: map<string, PendingSamlRequest>,
                              recorded: map<(string, string), int>, now: int)
  {
    && PendingCorresponds(t.pending, keys, stored, now)
    && SeenCorresponds(t.seen, keys, recorded, now)
    && Explained(keys, stored, recorded)
  }

  predicate ApartFrom(stored: map<string, PendingSamlRequest>, realm: string, id: string) {
    forall i <- stored :: !Confused(stored[i].realmId, stored[i].requestId, realm, id)
  }

  /** The calls still to come fit what was stored and recorded before. */
  predicate Continues(stored: map<string, PendingSamlRequest>, recorded: map<(string, string), int>, now: int,
                      calls: seq<Call>)
  {
    && WellBehaved(calls)
    && (forall c <- calls ::
          && now <= c.now
          && (c.op.Store? ==> c.op.request.requestId !in stored)
          && (c.op.Store? ==> ApartFrom(stored, c.op.request.realmId, c.op.request.requestId))
          && (c.op.Record? && (c.op.realm, c.op.assertionId) in recorded
              ==> recorded[(c.op.realm, c.op.assertionId)] == c.op.expiresAt))
  }

  lemma {:induction false} RepliesDifferExactly(
    t: Tables, keys: Keyspace, stored: map<string, PendingSamlRequest>, recorded: map<(string, string), int>,
    now: int, calls: seq<Call>)
    requires Corresponds(t, keys, stored, recorded, now) && Continues(stored, recorded, now, calls)
    ensures SqlReplies(t, calls) != RedisReplies(keys, calls) <==> Misdirects(t, calls)
    decreases |calls|
  {
    if calls != [] {
      assert calls[0] in calls;
      assert SqlReplies(t, calls)[0] == SqlStep(t, calls[0]).1;
      assert RedisReplies(keys, calls)[0] == RedisStep(keys, calls[0]).1;
      assert SqlReplies(t, calls)[1..] == SqlReplies(SqlStep(t, calls[0]).0, calls[1..]);
      assert RedisReplies(keys, calls)[1..] == RedisReplies(RedisStep(keys, calls[0]).0, calls[1..]);
      if Misdirected(t, calls[0]) {
        MisdirectedDiffers(t, keys, stored, now, calls[0]);
      } else {
        var stored', recorded' := StepAgrees(t, keys, stored, recorded, now, calls);
        RepliesDifferExactly(SqlStep(t, calls[0]).0, RedisStep(keys, calls[0]).0, stored', recorded', calls[0].now,
                             calls[1..]);
      }
    }
  }

  lemma MisdirectedDiffers(t: Tables, keys: Keyspace, stored: map<string, PendingSamlRequest>, now: int, c: Call)
    requires PendingCorresponds(t.pending, keys, stored, now) && now <= c.now && Misdirected(t, c)
    ensures SqlStep(t, c).1 != RedisStep(keys, c).1
  {
    var i :| i in t.pending && t.pending[i].expiresAt > Timestamp(c.now)
             && Confused(c.op.realmId, c.op.requestId, t.pending[i].realmId, t.pending[i].requestId);
    PendingKeyCollision(c.op.realmId, c.op.requestId, t.pending[i].realmId, t.pending[i].requestId);
  }

  lemma StepAgrees(t: Tables, keys: Keyspace, stored: map<string, PendingSamlRequest>,
                   recorded: map<(string, string), int>, now: int, calls: seq<Call>)
    returns (stored': map<string, PendingSamlRequest>, recorded': map<(string, string), int>)
    requires Corresponds(t, keys, stored, recorded, now) && Continues(stored, recorded, now, calls) && calls != []
    requires !Misdirected(t, calls[0])
    ensures SqlStep(t, calls[0]).1 == RedisStep(keys, calls[0]).1
    ensures Corresponds(SqlStep(t, calls[0]).0, RedisStep(keys, calls[0]).0, stored', recorded', calls[0].now)
    ensures Continues(stored', recorded', calls[0].now, calls[1..])
  {
    var c := calls[0];
    assert c in calls;
    PendingFrame(t.pending, keys, keys, stored, now, c.now);
    SeenFrame(t.seen, keys, keys, recorded, now, c.now);
    stored', recorded' := stored, recorded;
    match c.op {
      case Store(request) =>
        StoreAgrees(t, keys, stored, recorded, request, c.now);
        if EnsureUnexpired(request.expiresAt, c.now).Success? {
          stored' := stored[request.requestId := request];
        }
      case Take(id, realm) =>
        TakeAgrees(t, keys, stored, recorded, id, realm, c);
      case Record(realm, id, expiresAt) =>
        RecordAgrees(t, keys, stored, recorded, (realm, id), expiresAt, c.now);
        if EnsureUnexpired(expiresAt, c.now).Success? {
          recorded' := recorded[(realm, id) := expiresAt];
        }
      case Purge =>
        PurgeAgrees(t, keys, stored, recorded, c.now);
    }
    StillContinues(stored, recorded, now, calls, stored', recorded');
  }

  lemma StillContinues(stored: map<string, PendingSamlRequest>, recorded: map<(string, string), int>, now: int,
                       calls: seq<Call>, stored': map<string, PendingSamlRequest>,
                       recorded': map<(string, string), int>)
    requires Continues(stored, recorded, now, calls) && calls != []
    requires stored' == stored
             || (calls[0].op.Store? && stored' == stored[calls[0].op.request.requestId := calls[0].op.request])
    requires recorded' == recorded
             || (calls[0].op.Record?
                 && recorded' == recorded[(calls[0].op.realm, calls[0].op.assertionId) := calls[0].op.expiresAt])
    ensures Continues(stored', recorded', calls[0].now, calls[1..])
  {
    var first := calls[0];
    forall c <- calls[1..] | c.op.Store? ensures ApartFrom(stored', c.op.request.realmId, c.op.request.requestId) {
      assert c in calls && first in calls && !ConfusedCalls(first, c);
    }
  }

  /** Changing one key that belongs to no stored request leaves their correspondence alone, and
      so does the clock moving on. */
  lemma PendingFrame(pending: map<string, PendingSamlRequest>, keys: Keyspace, keys': Keyspace,
                     stored: map<string, PendingSamlRequest>, now: int, at: int)
    requires PendingCorresponds(pending, keys, stored, now) && now <= at
    requires forall id <- stored :: KeyOf(stored[id]) in keys <==> KeyOf(stored[id]) in keys'
    requires forall id <- stored | KeyOf(stored[id]) in keys :: keys[KeyOf(stored[id])] == keys'[KeyOf(stored[id])]
    ensures PendingCorresponds(pending, keys', stored, at)
  {
  }

  lemma SeenFrame(seen: map<(string, string), int>, keys: Keyspace, keys': Keyspace,
                  recorded: map<(string, string), int>, now: int, at: int)
    requires SeenCorresponds(seen, keys, recorded, now) && now <= at
    requires forall pair <- recorded | MarkerKey(pair) in keys ::
               MarkerKey(pair) in keys' && keys[MarkerKey(pair)] == keys'[MarkerKey(pair)]
    ensures SeenCorresponds(seen, keys', recorded, at)
  {
  }

  lemma PurgeAgrees(t: Tables, keys: Keyspace, stored: map<string, PendingSamlRequest>,
                    recorded: map<(string, string), int>, at: int)
    requires Corresponds(t, keys, stored, recorded, at)
    ensures Corresponds(DeleteExpired(t, at), keys, stored, recorded, at)
  {
  }

  /** A request's key is its own: no other stored request and no assertion id shares it. */
  lemma KeysApart(stored: map<string, PendingSamlRequest>, realm: string, id: string)
    requires forall i <- stored :: stored[i].requestId == i
    requires ApartFrom(stored, realm, id)
    ensures forall i <- stored | KeyOf(stored[i]) == PendingKey(realm, id) :: i == id && stored[i].realmId == realm
    ensures forall pair :: MarkerKey(pair) != PendingKey(realm, id)
  {
    forall i <- stored | KeyOf(stored[i]) == PendingKey(realm, id) ensures i == id && stored[i].realmId == realm {
      PendingKeyCollision(stored[i].realmId, i, realm, id);
    }
    forall pair: (string, string) ensures MarkerKey(pair) != PendingKey(realm, id) {
      FamiliesAreDisjoint(realm, id, pair.0, pair.1);
    }
  }

  lemma MarkersApart(stored: map<string, PendingSamlRequest>, recorded: map<(string, string), int>,
                     key: (string, string))
    ensures forall id <- stored :: KeyOf(stored[id]) != MarkerKey(key)
    ensures forall pair <- recorded | MarkerKey(pair) == MarkerKey(key) :: pair == key
  {
    forall id <- stored ensures KeyOf(stored[id]) != MarkerKey(key) {
      FamiliesAreDisjoint(stored[id].realmId, stored[id].requestId, key.0, key.1);
    }
    forall pair <- recorded | MarkerKey(pair) == MarkerKey(key) ensures pair == key {
      SeenKeyIsInjective(pair.0, pair.1, key.0, key.1);
    }
  }

  lemma PendingGrows(pending: map<string, PendingSamlRequest>, keys: Keyspace,
                     stored: map<string, PendingSamlRequest>, request: PendingSamlRequest, entry: Entry, now: int)
    requires PendingCorresponds(pending, keys, stored, now)
    requires request.requestId !in stored
    requires forall id <- stored :: KeyOf(stored[id]) != KeyOf(request)
    requires entry.value == Json(request) && request.expiresAt * NANOS_PER_SECOND <= entry.deadline
    ensures PendingCorresponds(pending[request.requestId := request], keys[KeyOf(request) := entry],
                               stored[request.requestId := request], now)
  {
  }

  lemma SeenGrows(seen: map<(string, string), int>, keys: Keyspace, recorded: map<(string, string), int>,
                  pair: (string, string), expiresAt: int, entry: Entry, now: int)
    requires SeenCorresponds(seen, keys, recorded, now) && (pair in seen ==> seen[pair] == expiresAt)
    requires forall other <- recorded | MarkerKey(other) == MarkerKey(pair) :: other == pair
    requires entry.value == Marker && expiresAt * NANOS_PER_SECOND <= entry.deadline
    ensures SeenCorresponds(seen[pair := expiresAt], keys[MarkerKey(pair) := entry], recorded[pair := expiresAt], now)
  {
  }

  lemma ExplainedGrows(keys: Keyspace, stored: map<string, PendingSamlRequest>, recorded: map<(string, string), int>,
                       key: string, entry: Entry, stored': map<string, PendingSamlRequest>,
                       recorded': map<(string, string), int>)
    requires Explained(keys, stored, recorded)
    requires forall id <- stored :: id in stored' && stored'[id] == stored[id]
    requires forall pair <- recorded :: pair in recorded'
    requires (exists id <- stored' :: key == KeyOf(stored'[id])) || (exists pair <- recorded' :: key == MarkerKey(pair))
    ensures Explained(keys[key := entry], stored', recorded')
  {
  }

  lemma StoreAgrees(t: Tables, keys: Keyspace, stored: map<string, PendingSamlRequest>,
                    recorded: map<(string, string), int>, request: PendingSamlRequest, at: int)
    requires Corresponds(t, keys, stored, recorded, at)
    requires request.requestId !in stored && ApartFrom(stored, request.realmId, request.requestId)
    ensures var (t', r) := StorePending(t, request, at);
            var (keys', r') := RedisStorePending(keys, request, at);
            && r == r'
            && Corresponds(t', keys', if r.Success? then stored[request.requestId := request] else stored, recorded, at)
            && (r.Success? <==> EnsureUnexpired(request.expiresAt, at).Success?)
  {
    assert request.requestId !in t.pending;
    var remaining := EnsureUnexpired(request.expiresAt, at);
    if remaining.Success? {
      KeysApart(stored, request.realmId, request.requestId);
      var key, entry := KeyOf(request), Entry(Json(request), at + remaining.value * NANOS_PER_SECOND);
      var stored' := stored[request.requestId := request];
      PendingGrows(t.pending, keys, stored, request, entry, at);
      SeenFrame(t.seen, keys, keys[key := entry], recorded, at, at);
      assert key == KeyOf(stored'[request.requestId]);
      ExplainedGrows(keys, stored, recorded, key, entry, stored', recorded);
    }
  }

  lemma TakeAgrees(t: Tables, keys: Keyspace, stored: map<string, PendingSamlRequest>,
                   recorded: map<(string, string), int>, id: string, realm: string, c: Call)
    requires Corresponds(t, keys, stored, recorded, c.now)
    requires c.op == Take(id, realm) && !Misdirected(t, c)
    ensures var (t', r) := TakePending(t, id, realm, c.now);
            var (keys', r') := RedisTakePending(keys, id, realm, c.now);
            Success(r) == r' && Corresponds(t', keys', stored, recorded, c.now)
  {
    hide PendingKey, SeenKey;
    var key := PendingKey(realm, id);
    var (t', _) := TakePending(t, id, realm, c.now);
    var (keys', _) := RedisTakePending(keys, id, realm, c.now);
    forall pair: (string, string) ensures MarkerKey(pair) != key {
      FamiliesAreDisjoint(realm, id, pair.0, pair.1);
    }
    SeenFrame(t.seen, keys, keys', recorded, c.now, c.now);
    TakeMeets(t, keys, stored, id, realm, c);
  }

  /** What a take that is not misdirected finds under its key: its own request, or an expired one. */
  lemma TakeMeets(t: Tables, keys: Keyspace, stored: map<string, PendingSamlRequest>, id: string, realm: string,
                  c: Call)
    requires PendingCorresponds(t.pending, keys, stored, c.now) && c.op == Take(id, realm) && !Misdirected(t, c)
    ensures forall i <- stored | KeyOf(stored[i]) == PendingKey(realm, id) && PendingKey(realm, id) in keys ::
              (i == id && stored[i].realmId == realm) || stored[i].expiresAt <= Timestamp(c.now)
    ensures forall i <- stored | KeyOf(stored[i]) == PendingKey(realm, id) && PendingKey(realm, id) in keys ::
              keys[PendingKey(realm, id)].value == Json(stored[i])
  {
    forall i <- stored | KeyOf(stored[i]) == PendingKey(realm, id) && PendingKey(realm, id) in keys
      ensures (i == id && stored[i].realmId == realm) || stored[i].expiresAt <= Timestamp(c.now)
    {
      PendingKeyCollision(realm, id, stored[i].realmId, stored[i].requestId);
    }
  }

  /** A first record of an assertion id: neither state knows it. */
  lemma FirstRecord(t: Tables, keys: Keyspace, stored: map<string, PendingSamlRequest>,
                    recorded: map<(string, string), int>, pair: (string, string), expiresAt: int, entry: Entry,
                    at: int)
    requires Corresponds(t, keys, stored, recorded, at) && pair !in recorded
    requires entry.value == Marker && expiresAt * NANOS_PER_SECOND <= entry.deadline
    ensures pair !in t.seen && MarkerKey(pair) !in keys
    ensures Corresponds(t.(seen := t.seen[pair := expiresAt]), keys[MarkerKey(pair) := entry],
                        stored, recorded[pair := expiresAt], at)
  {
    MarkersApart(stored, recorded, pair);
    var key := MarkerKey(pair);
    PendingFrame(t.pending, keys, keys[key := entry], stored, at, at);
    SeenGrows(t.seen, keys, recorded, pair, expiresAt, entry, at);
    ExplainedGrows(keys, stored, recorded, key, entry, stored, recorded[pair := expiresAt]);
  }

  lemma RecordAgrees(t: Tables, keys: Keyspace, stored: map<string, PendingSamlRequest>,
                     recorded: map<(string, string), int>, pair: (string, string), expiresAt: int, at: int)
    requires Corresponds(t, keys, stored, recorded, at)
    requires pair in recorded ==> recorded[pair] == expiresAt
    ensures var (t', r) := RecordAssertion(t, pair.0, pair.1, expiresAt, at);
            var (keys', r') := RedisRecordAssertion(keys, pair.0, pair.1, expiresAt, at);
            && r == r'
            && Corresponds(t', keys', stored, if r.Success? then recorded[pair := expiresAt] else recorded, at)
            && (r.Success? <==> EnsureUnexpired(expiresAt, at).Success?)
  {
    var remaining := EnsureUnexpired(expiresAt, at);
    if remaining.Success? {
      if pair in recorded {
        assert pair in t.seen && Holds(keys, MarkerKey(pair), Marker, expiresAt);
        assert Live(keys, MarkerKey(pair), at);
        assert recorded[pair := expiresAt] == recorded;
      } else {
        FirstRecord(t, keys, stored, recorded, pair, expiresAt,
                    Entry(Marker, at + remaining.value * NANOS_PER_SECOND), at);
      }
    }
  }

  // ---- Where the backends differ ----

  /** Pending requests sit under their own keys. */
  ghost predicate WellFiled(keys: Keyspace) {
    forall key <- keys | keys[key].value.Json? :: key == KeyOf(keys[key].value.request)
  }

  lemma OperationsKeepItWellFiled(keys: Keyspace, c: Call)
    requires WellFiled(keys)
    ensures WellFiled(RedisStep(keys, c).0)
  {
  }

  /** A take answers a request of another realm exactly when one is stored, live and unexpired, that
      is confused with the realm and id it names. */
  lemma AnswersAnotherRealmExactly(keys: Keyspace, id: string, realm: string, now: int)
    requires WellFiled(keys)
    ensures var r := RedisTakePending(keys, id, realm, now).1;
            (r.Success? && r.value.Some? && r.value.value.realmId != realm)
            <==> exists key <- keys ::
                   && Live(keys, key, now) && keys[key].value.Json?
                   && var q := keys[key].value.request;
                      q.expiresAt > Timestamp(now) && Confused(realm, id, q.realmId, q.requestId)
  {
    var key := PendingKey(realm, id);
    if Live(keys, key, now) && keys[key].value.Json? {
      var q := keys[key].value.request;
      PendingKeyCollision(realm, id, q.realmId, q.requestId);
    }
    forall k <- keys | keys[k].value.Json?
        && Confused(realm, id, keys[k].value.request.realmId, keys[k].value.request.requestId)
      ensures k == key && keys[k].value.request.realmId != realm
    {
      PendingKeyCollision(realm, id, keys[k].value.request.realmId, keys[k].value.request.requestId);
    }
  }

  /** So with a realm `outer` next to one named `outer:inner`, a RelayState posted to `outer` takes the
      other realm's request on Redis and nothing on SQL. */
  lemma RelayStateTakesAnotherRealm(outer: string, inner: string, request: PendingSamlRequest, now: int)
    requires request.realmId == outer + ":" + inner && EnsureUnexpired(request.expiresAt, now).Success?
    ensures var relayState := inner + ":" + request.requestId;
            var (keys, _) := RedisStorePending(map[], request, now);
            var (t, _) := StorePending(Tables(map[], map[]), request, now);
            && RedisTakePending(keys, relayState, outer, now).1 == Success(Some(request))
            && TakePending(t, relayState, outer, now).1 == None
            && request.realmId != outer
  {
    var relayState := inner + ":" + request.requestId;
    assert request.realmId[|outer| + 1..] == inner;
    assert Shifted(outer, relayState, request.realmId, request.requestId);
    PendingKeyCollision(outer, relayState, request.realmId, request.requestId);
    assert |relayState| > |request.requestId|;
  }

  /** A stored request and a later take are answered differently exactly when they are confused and the
      request has not expired. That each of the two calls names a realm or a request id without `:` is
      not enough. */
  lemma BackendsDifferOnATakeExactly(request: PendingSamlRequest, storedAt: int, id: string, realm: string,
                                     takenAt: int)
    requires storedAt <= takenAt
    ensures var calls := [Call(storedAt, Store(request)), Call(takenAt, Take(id, realm))];
            SqlReplies(Tables(map[], map[]), calls) != RedisReplies(map[], calls)
            <==> && Timestamp(takenAt) < request.expiresAt
                 && Confused(realm, id, request.realmId, request.requestId)
  {
    var calls := [Call(storedAt, Store(request)), Call(takenAt, Take(id, realm))];
    var t, k := SqlStep(Tables(map[], map[]), calls[0]).0, RedisStep(map[], calls[0]).0;
    TwoReplies(Tables(map[], map[]), map[], calls);
    PendingKeyCollision(realm, id, request.realmId, request.requestId);
    if Timestamp(storedAt) < request.expiresAt {
      assert t.pending == map[request.requestId := request];
      assert k.Keys == {KeyOf(request)};
    }
  }

  lemma TwoReplies(t: Tables, keys: Keyspace, calls: seq<Call>)
    requires |calls| == 2
    ensures SqlReplies(t, calls) == [SqlStep(t, calls[0]).1, SqlStep(SqlStep(t, calls[0]).0, calls[1]).1]
    ensures RedisReplies(keys, calls)
            == [RedisStep(keys, calls[0]).1, RedisStep(RedisStep(keys, calls[0]).0, calls[1]).1]
  {
    var last := calls[1..];
    assert last[1..] == [];
    var t1, k1 := SqlStep(t, calls[0]).0, RedisStep(keys, calls[0]).0;
    assert SqlReplies(t1, last) == [SqlStep(t1, calls[1]).1];
    assert RedisReplies(k1, last) == [RedisStep(k1, calls[1]).1];
  }

  /** The calls that record one id with two expiries, a purge in between. */
  function TwoRecords(realm: string, id: string, first: int, firstAt: int, purgedAt: int, second: int, secondAt: int)
    : seq<Call>
  {
    [Call(firstAt, Record(realm, id, first)), Call(purgedAt, Purge), Call(secondAt, Record(realm, id, second))]
  }

  /** One expiry per assertion id is needed, and this is exactly where a second one shows: both are
      accepted, and the row still stands where the marker has lapsed, or the marker, whose seconds
      count from the first record, still stands where the row was purged. */
  lemma BackendsDifferOnASecondExpiryExactly(realm: string, id: string, first: int, firstAt: int, purgedAt: int,
                                             second: int, secondAt: int)
    requires firstAt <= purgedAt <= secondAt
    ensures var calls := TwoRecords(realm, id, first, firstAt, purgedAt, second, secondAt);
            var lapse := first * NANOS_PER_SECOND + firstAt % NANOS_PER_SECOND;
            SqlReplies(Tables(map[], map[]), calls) != RedisReplies(map[], calls)
            <==> && Timestamp(firstAt) < first && Timestamp(secondAt) < second
                 && (first <= Timestamp(purgedAt) <==> secondAt < lapse)
  {
    var calls := TwoRecords(realm, id, first, firstAt, purgedAt, second, secondAt);
    var t1, k1 := SqlStep(Tables(map[], map[]), calls[0]).0, RedisStep(map[], calls[0]).0;
    var t2, k2 := SqlStep(t1, calls[1]).0, RedisStep(k1, calls[1]).0;
    ThreeReplies(Tables(map[], map[]), map[], calls);
    var key := SeenKey(realm, id);
    if Timestamp(firstAt) < first {
      assert t2.seen == if first <= Timestamp(purgedAt) then map[] else map[(realm, id) := first];
      assert k2 == map[key := Entry(Marker, firstAt + (first - Timestamp(firstAt)) * NANOS_PER_SECOND)];
      assert firstAt == Timestamp(firstAt) * NANOS_PER_SECOND + firstAt % NANOS_PER_SECOND;
    }
  }

  lemma ThreeReplies(t: Tables, keys: Keyspace, calls: seq<Call>)
    requires |calls| == 3
    ensures var (t1, s1) := SqlStep(t, calls[0]);
            var (t2, s2) := SqlStep(t1, calls[1]);
            SqlReplies(t, calls) == [s1, s2, SqlStep(t2, calls[2]).1]
    ensures var (k1, r1) := RedisStep(keys, calls[0]);
            var (k2, r2) := RedisStep(k1, calls[1]);
            RedisReplies(keys, calls) == [r1, r2, RedisStep(k2, calls[2]).1]
  {
    TwoReplies(SqlStep(t, calls[0]).0, RedisStep(keys, calls[0]).0, calls[1..]);
  }
}
