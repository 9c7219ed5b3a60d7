/** The store behind SP-initiated SAML logins: outstanding `AuthnRequest`s and consumed
    assertion ids (server/src/saml/request_store.rs), with the two SQL tables that the SQLite
    and PostgreSQL backends keep.

    A clock reading is a number of nanoseconds since the Unix epoch, the resolution of
    `chrono::Utc::now()`; everything the store keeps is in whole seconds. */
module RequestStore {
  import opened Wrappers

  const NANOS_PER_SECOND: int := 1_000_000_000

  /** `DateTime::timestamp()`: whole seconds, rounded towards the past. */
  function Timestamp(now: int): (seconds: int)
    ensures seconds * 1_000_000_000 <= now < (seconds + 1) * 1_000_000_000
  {
    now / NANOS_PER_SECOND
  }

  datatype PendingSamlRequest = PendingSamlRequest(
    requestId: string,
    realmId: string,
    returnUrl: string,
    createdAt: int,
    expiresAt: int)

  datatype StoreError = AlreadyExpired | DuplicateKey | Undecodable

  /** The lifetime left at the reading `now`, in whole seconds, or an error when there is none.
      A success means the instant `expiresAt` is still ahead, and a time-to-live of that many
      seconds ends at or after it, by less than a second. */
  function EnsureUnexpired(expiresAt: int, now: int): (r: Result<int, StoreError>)
    ensures r.Success? <==> now < expiresAt * NANOS_PER_SECOND
    ensures r.Success? ==>
              && r.value >= 1
              && expiresAt * NANOS_PER_SECOND <= now + r.value * NANOS_PER_SECOND
                 < (expiresAt + 1) * NANOS_PER_SECOND
    ensures r.Failure? ==> r.error == AlreadyExpired
  {
    var remaining := expiresAt - Timestamp(now);
    if remaining <= 0 then Failure(AlreadyExpired) else Success(remaining)
  }

  /** The tables `saml_pending_request` (keyed by request id alone) and `saml_seen_assertion`
      (keyed by realm and assertion id, holding the expiry). */
  datatype Tables = Tables(
    pending: map<string, PendingSamlRequest>,
    seen: map<(string, string), int>)
  {
    /** What primary keys say: a pending row sits under its own request id. */
    ghost predicate Valid() {
      forall id <- pending :: pending[id].requestId == id
    }
  }

  // What each statement of the SQL backends does to the tables.

  function StorePending(t: Tables, request: PendingSamlRequest, now: int): (Tables, Result<(), StoreError>)
  {
    if EnsureUnexpired(request.expiresAt, now).Failure? then (t, Failure(AlreadyExpired))
    else if request.requestId in t.pending then (t, Failure(DuplicateKey))
    else (t.(pending := t.pending[request.requestId := request]), Success(()))
  }

  function TakePending(t: Tables, requestId: string, realmId: string, now: int): (Tables, Option<PendingSamlRequest>)
  {
    if && requestId in t.pending
       && t.pending[requestId].realmId == realmId
       && t.pending[requestId].expiresAt > Timestamp(now)
    then (t.(pending := t.pending - {requestId}), Some(t.pending[requestId]))
    else (t, None)
  }

  /** The INSERT that ignores a row already there; `true` when a row was added. */
  function InsertSeen(t: Tables, realmId: string, assertionId: string, expiresAt: int): (Tables, bool)
  {
    if (realmId, assertionId) in t.seen then (t, false)
    else (t.(seen := t.seen[(realmId, assertionId) := expiresAt]), true)
  }

  function RecordAssertion(t: Tables, realmId: string, assertionId: string, expiresAt: int, now: int)
    : (Tables, Result<bool, StoreError>)
  {
    if EnsureUnexpired(expiresAt, now).Failure? then (t, Failure(AlreadyExpired))
    else
      var (t', isNew) := InsertSeen(t, realmId, assertionId, expiresAt);
      (t', Success(isNew))
  }

  function DeleteExpired(t: Tables, now: int): Tables
  {
    Tables(
      map id | id in t.pending && t.pending[id].expiresAt > Timestamp(now) :: t.pending[id],
      map key | key in t.seen && t.seen[key] > Timestamp(now) :: t.seen[key])
  }

  /** Single use, as the trait promises it. A take answers the request stored under that id
      exactly when there is one, for its own realm and not yet expired; the id is then gone, and
      every other row is untouched. A take that answers nothing changes nothing. */
  lemma TakeIsSingleUse(t: Tables, requestId: string, realmId: string, now: int)
    requires t.Valid()
    ensures var (t', r) := TakePending(t, requestId, realmId, now);
            && t'.Valid() && t'.seen == t.seen
            && (r.Some? <==> exists p <- t.pending.Values ::
                  p.requestId == requestId && p.realmId == realmId && now < p.expiresAt * NANOS_PER_SECOND)
            && (r.None? ==> t' == t)
            && (r.Some? ==> && r.value in t.pending.Values
                            && r.value.requestId == requestId && r.value.realmId == realmId
                            && t.pending == t'.pending[requestId := r.value] && requestId !in t'.pending)
  {
  }

  /** The periodic purge cannot be noticed by a take, nor by a record that keeps the expiry first
      used for its key, at any reading from the purge on. */
  lemma PurgeIsInvisible(t: Tables, purgedAt: int, id: string, realmId: string, expiresAt: int, now: int)
    requires purgedAt <= now
    requires (realmId, id) in t.seen ==> t.seen[(realmId, id)] == expiresAt
    ensures TakePending(DeleteExpired(t, purgedAt), id, realmId, now).1 == TakePending(t, id, realmId, now).1
    ensures RecordAssertion(DeleteExpired(t, purgedAt), realmId, id, expiresAt, now).1
            == RecordAssertion(t, realmId, id, expiresAt, now).1
  {
  }

  /** The backend on SQLite, and on PostgreSQL, whose statements have the same effect. */
  class SqlRequestStore {
    var pending: map<string, PendingSamlRequest>
    var seen: map<(string, string), int>

    ghost function Contents(): Tables
      reads this
    {
      Tables(pending, seen)
    }

    constructor ()
      ensures Contents() == Tables(map[], map[])
    {
      pending, seen := map[], map[];
    }

    method StorePendingRequest(request: PendingSamlRequest, now: int) returns (r: Result<(), StoreError>)
      modifies this
      ensures (Contents(), r) == StorePending(old(Contents()), request, now)
      ensures r == Failure(AlreadyExpired) <==> request.expiresAt * NANOS_PER_SECOND <= now
      ensures r == Failure(DuplicateKey) <==>
                now < request.expiresAt * NANOS_PER_SECOND && request.requestId in old(pending)
      ensures r.Failure? ==> r.error != Undecodable && pending == old(pending)
      ensures r.Success? ==> pending == old(pending)[request.requestId := request]
      ensures seen == old(seen)
    {
      var remaining := EnsureUnexpired(request.expiresAt, now);
      if remaining.Failure? {
        return Failure(AlreadyExpired);
      }
      if request.requestId in pending {
        return Failure(DuplicateKey);
      }
      pending := pending[request.requestId := request];
      return Success(());
    }

    /** DELETE ... RETURNING: one statement. */
    method TakePendingRequest(requestId: string, realmId: string, now: int) returns (r: Option<PendingSamlRequest>)
      modifies this
      ensures (Contents(), r) == TakePending(old(Contents()), requestId, realmId, now)
      ensures r.Some? <==> && requestId in old(pending) && old(pending)[requestId].realmId == realmId
                           && now < old(pending)[requestId].expiresAt * NANOS_PER_SECOND
      ensures r.Some? ==> r.value == old(pending)[requestId] && pending == old(pending) - {requestId}
      ensures r.None? ==> pending == old(pending)
      ensures seen == old(seen)
    {
      r := None;
      if requestId in pending {
        var row := pending[requestId];
        if row.realmId == realmId && row.expiresAt > Timestamp(now) {
          pending := pending - {requestId};
          r := Some(row);
        }
      }
    }

    method RecordAssertionId(realmId: string, assertionId: string, expiresAt: int, now: int)
      returns (r: Result<bool, StoreError>)
      modifies this
      ensures (Contents(), r) == RecordAssertion(old(Contents()), realmId, assertionId, expiresAt, now)
      ensures r == Failure(AlreadyExpired) <==> expiresAt * NANOS_PER_SECOND <= now
      ensures r.Failure? ==> r.error == AlreadyExpired
      ensures r.Success? ==> (r.value <==> (realmId, assertionId) !in old(seen))
      ensures seen == if r == Success(true) then old(seen)[(realmId, assertionId) := expiresAt] else old(seen)
      ensures pending == old(pending)
    {
      var remaining := EnsureUnexpired(expiresAt, now);
      if remaining.Failure? {
        return Failure(AlreadyExpired);
      }
      var rowsAffected := 0;
      if (realmId, assertionId) !in seen {
        seen := seen[(realmId, assertionId) := expiresAt];
        rowsAffected := 1;
      }
      return Success(rowsAffected > 0);
    }

    method DeleteExpiredRows(now: int)
      modifies this
      ensures Contents() == DeleteExpired(old(Contents()), now)
      ensures pending == map id | id in old(pending)
                  && now < old(pending)[id].expiresAt * NANOS_PER_SECOND :: old(pending)[id]
      ensures seen == map key | key in old(seen) && now < old(seen)[key] * NANOS_PER_SECOND :: old(seen)[key]
    {
      var second := Timestamp(now);
      pending := map id | id in pending && pending[id].expiresAt > second :: pending[id];
      seen := map key | key in seen && seen[key] > second :: seen[key];
    }
  }
}
