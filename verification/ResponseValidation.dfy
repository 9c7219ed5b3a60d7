/** What the server checks on a SAML response after `samael`
    (server/src/saml/response_validation.rs): audience, AuthnStatement, age, and the time for which
    a consumed assertion id is remembered. */
module ResponseValidation {
  import opened Wrappers
  import opened RequestStore
  import opened SamlAssertion

  const MAX_ISSUE_DELAY_SECONDS: int := 300

  datatype SamlError =
    | RejectedBySamael
    | NoAudienceRestriction
    | NotAddressedToUs
    | NoAuthnStatement
    | IssuedTooLongAgo
    | AlreadyUsed
    | StoreFailed(error: StoreError)

  /** SAMLCore section 2.5.1.4: there is an audience restriction, and every one of them names us. */
  ghost predicate AddressedTo(assertion: Assertion, spEntityId: string) {
    && assertion.conditions.Some?
    && assertion.conditions.value.audienceRestrictions.Some?
    && var restrictions := assertion.conditions.value.audienceRestrictions.value;
       && |restrictions| > 0
       && forall i | 0 <= i < |restrictions| :: exists j | 0 <= j < |restrictions[i]| ::
           restrictions[i][j] == spEntityId
  }

  function RequireAudience(assertion: Assertion, spEntityId: string): (r: Result<(), SamlError>)
    ensures r.Success? <==> AddressedTo(assertion, spEntityId)
  {
    match assertion.conditions
    case Some(Conditions(Some(restrictions))) =>
      if restrictions == [] then Failure(NoAudienceRestriction)
      else if forall restriction <- restrictions :: spEntityId in restriction then
        assert forall i | 0 <= i < |restrictions| :: restrictions[i] in restrictions && spEntityId in restrictions[i];
        Success(())
      else Failure(NotAddressedToUs)
    case _ => Failure(NoAudienceRestriction)
  }

  /** The first instant at which an assertion is too old. */
  function AcceptedUntil(assertion: Assertion): int {
    assertion.issueInstant + MAX_ISSUE_DELAY_SECONDS * NANOS_PER_SECOND
  }

  /** The whole second until which its id is remembered. */
  function Retention(assertion: Assertion): int {
    Timestamp(AcceptedUntil(assertion)) + 1
  }

  /** The checks on what `samael` answered for `requestId`, at the clock reading `now`. `samael`
      refuses a response to any other request. */
  function CheckAssertion(answer: Option<Assertion>, requestId: string, spEntityId: string, now: int)
    : (r: Result<Assertion, SamlError>)
  {
    if answer.None? || answer.value.inResponseTo != requestId then Failure(RejectedBySamael)
    else
      var assertion := answer.value;
      var audience := RequireAudience(assertion, spEntityId);
      if audience.Failure? then Failure(audience.error)
      else if assertion.authnStatements.None? || assertion.authnStatements.value == [] then Failure(NoAuthnStatement)
      else if AcceptedUntil(assertion) <= now then Failure(IssuedTooLongAgo)
      else Success(assertion)
  }

  /** An assertion young enough to be accepted is never refused by the store as already expired at
      the same reading, and its id is remembered for less than two seconds longer than needed. */
  lemma RetentionOutlivesAcceptance(assertion: Assertion, now: int)
    requires now < AcceptedUntil(assertion)
    ensures EnsureUnexpired(Retention(assertion), now).Success?
    ensures AcceptedUntil(assertion) < Retention(assertion) * NANOS_PER_SECOND
            <= AcceptedUntil(assertion) + NANOS_PER_SECOND
  {
  }

  /** Why the second is rounded up: without it the store would refuse an accepted assertion at some
      reading, exactly when the age limit does not fall on a whole second. */
  lemma RoundingUpIsNeeded(assertion: Assertion)
    ensures (exists now: int :: now < AcceptedUntil(assertion)
                                && EnsureUnexpired(Timestamp(AcceptedUntil(assertion)), now).Failure?)
            <==> AcceptedUntil(assertion) % NANOS_PER_SECOND != 0
  {
    var limit := AcceptedUntil(assertion);
    if limit % NANOS_PER_SECOND != 0 {
      var now := Timestamp(limit) * NANOS_PER_SECOND;
      assert now < limit && EnsureUnexpired(Timestamp(limit), now).Failure?;
    }
  }

  /** What `validate_saml_response` does to the tables: nothing unless every check passes, and then
      one record of the assertion id. */
  function Validate(t: Tables, answer: Option<Assertion>, realmId: string, requestId: string, spEntityId: string,
                    checkedAt: int, recordedAt: int): (Tables, Result<Assertion, SamlError>)
  {
    var checked := CheckAssertion(answer, requestId, spEntityId, checkedAt);
    if checked.Failure? then (t, checked) else
    var (t', isNew) := RecordAssertion(t, realmId, checked.value.id, Retention(checked.value), recordedAt);
    match isNew
    case Failure(e) => (t', Failure(StoreFailed(e)))
    case Success(false) => (t', Failure(AlreadyUsed))
    case Success(true) => (t', checked)
  }

  /** A response is accepted exactly when `samael` verified it for this request, it is addressed to
      us with an AuthnStatement, its age at the first reading and its retention at the second are
      not used up, and the realm has no memory of its id; the id is then remembered, and a response
      that is not accepted leaves no trace. */
  lemma AcceptedExactlyWhen(t: Tables, answer: Option<Assertion>, realmId: string, requestId: string,
                            spEntityId: string, checkedAt: int, recordedAt: int)
    ensures var (t', r) := Validate(t, answer, realmId, requestId, spEntityId, checkedAt, recordedAt);
            && (r.Success? <==>
                  && answer.Some? && answer.value.inResponseTo == requestId
                  && AddressedTo(answer.value, spEntityId)
                  && answer.value.authnStatements.Some? && |answer.value.authnStatements.value| > 0
                  && checkedAt < answer.value.issueInstant + 300 * NANOS_PER_SECOND
                  && recordedAt < Retention(answer.value) * NANOS_PER_SECOND
                  && (realmId, answer.value.id) !in t.seen)
            && (r.Success? ==> && answer == Some(r.value) && t'.pending == t.pending
                               && t'.seen == t.seen[(realmId, r.value.id) := Retention(r.value)])
            && (r.Failure? ==> t' == t)
  {
  }

  /** A rejection names the first check that failed, in the order of the checks. */
  lemma RejectionsNameTheirReason(t: Tables, answer: Option<Assertion>, realmId: string, requestId: string,
                                  spEntityId: string, checkedAt: int, recordedAt: int)
    requires answer.Some? && answer.value.inResponseTo == requestId
    ensures var r := Validate(t, answer, realmId, requestId, spEntityId, checkedAt, recordedAt).1;
            var a := answer.value;
            var addressed := AddressedTo(a, spEntityId);
            var stated := a.authnStatements.Some? && |a.authnStatements.value| > 0;
            var young := checkedAt < a.issueInstant + 300 * NANOS_PER_SECOND;
            && (r == Failure(NoAudienceRestriction) <==>
                  || a.conditions.None? || a.conditions.value.audienceRestrictions.None?
                  || a.conditions.value.audienceRestrictions.value == [])
            && (r == Failure(NotAddressedToUs) ==> !addressed)
            && (!addressed ==> r == Failure(NoAudienceRestriction) || r == Failure(NotAddressedToUs))
            && (r == Failure(NoAuthnStatement) <==> addressed && !stated)
            && (r == Failure(IssuedTooLongAgo) <==> addressed && stated && !young)
            && (r == Failure(StoreFailed(AlreadyExpired)) <==>
                  addressed && stated && young && Retention(a) * NANOS_PER_SECOND <= recordedAt)
            && (r == Failure(AlreadyUsed) <==>
                  && addressed && stated && young && recordedAt < Retention(a) * NANOS_PER_SECOND
                  && (realmId, a.id) in t.seen)
  {
  }

  /** `samael` stands for `ServiceProvider::parse_xml_response` under the realm's settings: any
      function of the document and the expected request id. `certificates` are the realm's IdP
      signing certificates; without one the response is not even parsed. */
  method ValidateSamlResponse(
    responseXml: string, samael: (string, string) -> Option<Assertion>, certificates: seq<string>,
    spEntityId: string, realmId: string, requestId: string, store: SqlRequestStore, checkedAt: int, recordedAt: int)
    returns (r: Result<Assertion, SamlError>)
    modifies store
    ensures (store.Contents(), r)
            == Validate(old(store.Contents()), if certificates == [] then None else samael(responseXml, requestId),
                        realmId, requestId, spEntityId, checkedAt, recordedAt)
  {
    if certificates == [] {
      return Failure(RejectedBySamael);
    }
    var answer := samael(responseXml, requestId);
    if answer.None? || answer.value.inResponseTo != requestId {
      return Failure(RejectedBySamael);
    }
    var assertion := answer.value;
    var audience := RequireAudience(assertion, spEntityId);
    if audience.Failure? {
      return Failure(audience.error);
    }
    if assertion.authnStatements.None? || assertion.authnStatements.value == [] {
      return Failure(NoAuthnStatement);
    }
    var acceptedUntil := AcceptedUntil(assertion);
    if acceptedUntil <= checkedAt {
      return Failure(IssuedTooLongAgo);
    }
    var isNew := store.RecordAssertionId(realmId, assertion.id, Timestamp(acceptedUntil) + 1, recordedAt);
    if isNew.Failure? {
      return Failure(StoreFailed(isNew.error));
    }
    if !isNew.value {
      return Failure(AlreadyUsed);
    }
    return Success(assertion);
  }
}
