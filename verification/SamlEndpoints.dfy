/** The SAML endpoints as they run in one request (server/src/saml/endpoints.rs): each method is
    one of the interleavings that `SamlLogin` quantifies over, and the return URL of a login. */
module SamlEndpoints {
  import opened HashMaps
  import opened Wrappers
  import opened RequestStore
  import opened SamlAssertion
  import opened ResponseValidation
  import I = IdentityMapping
  import C = ClientClaims
  import L = SamlLogin

  // ---- Return URLs ----

  /** A parsed URL; `origin` is its ASCII serialisation and `text` what `to_string` prints. */
  datatype Url = Url(
    scheme: string, username: string, password: Option<string>, host: Option<string>,
    path: string, query: Option<string>, fragment: Option<string>, origin: string, text: string)

  datatype ReturnParams = ReturnParams(allowedReturnOrigins: seq<string>, defaultReturnUrl: string)

  datatype UrlError =
    | NotAUrl | NotAnHttpsOrigin | DefaultNotHttps | DefaultOriginNotListed | NotUnderAllowedOrigin

  /** `parse` stands for `Url::parse`. */
  type Parser = string -> Option<Url>

  function IsHttpsOrigin(url: Url): bool {
    && url.scheme == "https" && url.host.Some? && url.path == "/"
    && url.query.None? && url.fragment.None? && url.username == ""
  }

  /** `validate_return_urls` (server/src/saml/params_validation.rs). */
  method ValidateReturnUrls(params: ReturnParams, parse: Parser) returns (r: Result<(), UrlError>)
    ensures r.Success? <==> ValidReturnParams(params, parse)
  {
    var allowed: set<string> := {};
    for i := 0 to |params.allowedReturnOrigins|
      invariant forall j | 0 <= j < i :: OriginOk(params.allowedReturnOrigins[j], parse)
      invariant forall o :: o in allowed <==>
                  exists j | 0 <= j < i :: parse(params.allowedReturnOrigins[j]).value.origin == o
    {
      var url := parse(params.allowedReturnOrigins[i]);
      if url.None? {
        return Failure(NotAUrl);
      }
      if !IsHttpsOrigin(url.value) {
        return Failure(NotAnHttpsOrigin);
      }
      allowed := allowed + {url.value.origin};
    }
    var default := parse(params.defaultReturnUrl);
    if default.None? {
      return Failure(NotAUrl);
    }
    if default.value.scheme != "https" {
      return Failure(DefaultNotHttps);
    }
    if default.value.origin !in allowed {
      return Failure(DefaultOriginNotListed);
    }
    return Success(());
  }

  /** `text` is the URL of a bare https origin. */
  ghost predicate OriginOk(text: string, parse: Parser) {
    match parse(text)
    case None => false
    case Some(url) =>
      url.scheme == "https" && url.host != None && url.path == "/" && url.query == None && url.fragment == None
      && url.username == ""
  }

  ghost predicate ValidReturnParams(params: ReturnParams, parse: Parser) {
    && (forall j | 0 <= j < |params.allowedReturnOrigins| :: OriginOk(params.allowedReturnOrigins[j], parse))
    && Allowed(params, parse, params.defaultReturnUrl)
  }

  /** `text` is an https URL under one of the allowed origins. */
  ghost predicate Allowed(params: ReturnParams, parse: Parser, text: string) {
    && parse(text).Some? && parse(text).value.scheme == "https"
    && exists j | 0 <= j < |params.allowedReturnOrigins| ::
         && parse(params.allowedReturnOrigins[j]).Some?
         && parse(params.allowedReturnOrigins[j]).value.origin == parse(text).value.origin
  }

  function ResolveReturnUrl(params: ReturnParams, returnTo: Option<string>, parse: Parser): Result<string, UrlError> {
    if returnTo.None? then Success(params.defaultReturnUrl)
    else if parse(returnTo.value).None? then Failure(NotAUrl)
    else
      var url := parse(returnTo.value).value;
      if && url.scheme == "https" && url.username == "" && url.password.None?
         && exists origin <- params.allowedReturnOrigins ::
              parse(origin).Some? && parse(origin).value.origin == url.origin
      then Success(url.text) else Failure(NotUnderAllowedOrigin)
  }

  /** Printing a URL and parsing it again gives the same URL. */
  ghost predicate RoundTrips(parse: Parser) {
    forall text :: parse(text).Some? ==> parse(parse(text).value.text) == parse(text)
  }

  /** `text` is an https URL without credentials under one of the allowed origins. */
  ghost predicate Honoured(params: ReturnParams, parse: Parser, text: string) {
    Allowed(params, parse, text) && parse(text).value.username == "" && parse(text).value.password == None
  }

  /** Without a `return_to` a login resolves to the default; a `return_to` is honoured or refused, and
      never replaced. Under settings the server accepted, no login ever resolves to a URL outside the
      allowed origins. */
  lemma ResolvedUrlIsAllowed(params: ReturnParams, returnTo: Option<string>, parse: Parser)
    ensures var r := ResolveReturnUrl(params, returnTo, parse);
            && (returnTo.None? ==> r == Success(params.defaultReturnUrl))
            && (returnTo.Some? && Honoured(params, parse, returnTo.value) ==>
                  r == Success(parse(returnTo.value).value.text))
            && (returnTo.Some? && !Honoured(params, parse, returnTo.value) ==>
                  r == Failure(if parse(returnTo.value).None? then NotAUrl else NotUnderAllowedOrigin))
            && (ValidReturnParams(params, parse) && RoundTrips(parse) && r.Success? ==>
                  Allowed(params, parse, r.value))
  {
  }

  // ---- The endpoints ----

  datatype AcsForm = AcsForm(samlResponse: string, relayState: string)

  datatype SamlSettings = SamlSettings(
    spEntityId: string, idpSigningCertificates: seq<string>, returnParams: ReturnParams, identity: I.IdentityParams)

  datatype AcsError =
    | NotStartedFromThisBrowser
    | NotASamlRealm
    | UnknownOrExpiredRequest
    | NotBase64Utf8
    | Invalid(error: SamlError)
    | IdentityRejected(reason: I.MappingError)

  datatype LoginError = NoSuchRealm | BadReturnUrl(reason: UrlError) | NotStored(error: StoreError) | NotSigned

  /** A login asks for this URL, and may have it. */
  ghost predicate Asks(params: ReturnParams, returnTo: Option<string>, parse: Parser, url: string) {
    match returnTo
    case None => url == params.defaultReturnUrl
    case Some(text) => Honoured(params, parse, text) && url == parse(text).value.text
  }

  ghost predicate MayAsk(params: ReturnParams, returnTo: Option<string>, parse: Parser) {
    returnTo.None? || Honoured(params, parse, returnTo.value)
  }

  /** The request of this login goes into the table: it is still ahead of its expiry, ten minutes after
      the second of its creation. */
  ghost predicate StoresRequest(
    t: Tables, realmId: string, returnTo: Option<string>, realms: map<string, SamlSettings>, parse: Parser,
    requestId: string, createdAt: int, checkedAt: int)
  {
    && realmId in realms && MayAsk(realms[realmId].returnParams, returnTo, parse)
    && requestId !in t.pending
    && checkedAt < (Timestamp(createdAt) + 600) * NANOS_PER_SECOND
  }

  /** One login is one login step: what it stores is bound to the realm, the fresh request id and the
      URL that was asked for. `sign` stands for `signed_authn_request_url`; when it fails the request is
      already stored. */
  method SamlLogin(
    realmId: string, returnTo: Option<string>, realms: map<string, SamlSettings>, parse: Parser, requestId: string,
    sign: (SamlSettings, string) -> Option<string>, store: SqlRequestStore, createdAt: int, checkedAt: int,
    ghost s: L.State)
    returns (r: Result<(string, string), LoginError>)
    requires s.tables == store.Contents() && createdAt <= checkedAt <= s.now
    requires forall l <- s.logins :: l.request.requestId != requestId
    modifies store
    ensures r.Success? <==>
              && StoresRequest(s.tables, realmId, returnTo, realms, parse, requestId, createdAt, checkedAt)
              && sign(realms[realmId], requestId).Some?
    ensures r.Success? ==> r.value == (sign(realms[realmId], requestId).value, requestId)
    ensures r == Failure(NoSuchRealm) <==> realmId !in realms
    ensures r.Failure? && r.error.BadReturnUrl? <==>
              realmId in realms && !MayAsk(realms[realmId].returnParams, returnTo, parse)
    ensures if StoresRequest(s.tables, realmId, returnTo, realms, parse, requestId, createdAt, checkedAt) then
              && requestId in store.pending
              && var request := store.pending[requestId];
                 && request.requestId == requestId && request.realmId == realmId
                 && Asks(realms[realmId].returnParams, returnTo, parse, request.returnUrl)
                 && request.createdAt == Timestamp(createdAt) && request.expiresAt == request.createdAt + 600
                 && store.pending == old(store.pending)[requestId := request] && store.seen == old(store.seen)
                 && var s' := L.Exec(s, L.StartLogin(realmId, request.returnUrl, requestId, createdAt, checkedAt));
                    s'.tables == store.Contents() && s'.logins == s.logins + [L.Login(request, createdAt)]
            else store.Contents() == old(store.Contents())
  {
    if realmId !in realms {
      return Failure(NoSuchRealm);
    }
    var returnUrl := ResolveReturnUrl(realms[realmId].returnParams, returnTo, parse);
    ResolvedUrlIsAllowed(realms[realmId].returnParams, returnTo, parse);
    if returnUrl.Failure? {
      return Failure(BadReturnUrl(returnUrl.error));
    }
    var created := Timestamp(createdAt);
    var expires := created + L.PENDING_REQUEST_SECONDS;
    var request := PendingSamlRequest(requestId, realmId, returnUrl.value, created, expires);
    var stored := store.StorePendingRequest(request, checkedAt);
    if stored.Failure? {
      return Failure(NotStored(stored.error));
    }
    var idpUrl := sign(realms[realmId], requestId);
    if idpUrl.None? {
      return Failure(NotSigned);
    }
    return Success((idpUrl.value, requestId));
  }

  /** In no run is a fresh id in the table when its login comes. */
  lemma FreshIdsAreUnused(start: int, steps: seq<L.Step>, requestId: string)
    requires forall l <- L.Run(L.Start(start), steps).logins :: l.request.requestId != requestId
    ensures requestId !in L.Run(L.Start(start), steps).tables.pending
  {
    var s := L.Run(L.Start(start), steps);
    L.RunKeepsInv(L.Start(start), steps);
    assert requestId in s.tables.pending ==> L.FromLogin(s, s.tables.pending[requestId]);
  }

  /** The steps of a post after its take, in the order in which one request runs them. Steps that
      follow a rejection do nothing. */
  function RestOfPost(post: nat, answer: Option<Assertion>, spEntityId: string, untilCheck: nat, untilRecord: nat,
                      mapped: bool): seq<L.Step>
  {
    [L.Tick(untilCheck), L.Check(post, answer, spEntityId), L.Tick(untilRecord),
     L.Ensure(post), L.Insert(post), L.Finish(post, mapped)]
  }

  lemma RunFirst(s: L.State, step: L.Step, rest: seq<L.Step>)
    ensures L.Run(s, [step] + rest) == L.Run(L.Exec(s, step), rest)
  {
  }

  /** Ticking and checking: the post is validated or rejected, and nothing else changes. */
  lemma TickAndCheck(s: L.State, post: nat, answer: Option<Assertion>, spEntityId: string, untilCheck: nat)
    requires post < |s.posts| && s.posts[post].phase.Taken?
    ensures var s' := L.Exec(L.Exec(s, L.Tick(untilCheck)), L.Check(post, answer, spEntityId));
            var checked := CheckAssertion(answer, s.posts[post].request.requestId, spEntityId, s.now + untilCheck);
            s' == L.Move(s.(now := s.now + untilCheck), post,
                         if checked.Success? then L.Validated(checked.value) else L.Rejected)
  {
  }

  lemma RejectedStays(s: L.State, post: nat, mapped: bool)
    requires post < |s.posts| && s.posts[post].phase.Rejected?
    ensures L.Exec(L.Exec(L.Exec(s, L.Ensure(post)), L.Insert(post)), L.Finish(post, mapped)) == s
  {
  }

  lemma RecordAndFinish(s: L.State, post: nat, mapped: bool)
    requires post < |s.posts| && s.posts[post].phase.Validated?
    ensures var s' := L.Exec(L.Exec(L.Exec(s, L.Ensure(post)), L.Insert(post)), L.Finish(post, mapped));
            var p := s.posts[post];
            var a := p.phase.assertion;
            var (t, isNew) := RecordAssertion(s.tables, p.realmId, a.id, Retention(a), s.now);
            && s'.tables == t
            && s'.posts == s.posts[post := p.(phase :=
                 if isNew == Success(true) && mapped then L.SessionIssued(a, p.request.returnUrl) else L.Rejected)]
  {
  }

  /** Run one after the other, the steps of a post validate the response as `Validate` does. */
  lemma PostValidates(s: L.State, post: nat, answer: Option<Assertion>, spEntityId: string, untilCheck: nat,
                      untilRecord: nat, mapped: bool)
    requires post < |s.posts| && s.posts[post].phase.Taken?
    ensures var s' := L.Run(s, RestOfPost(post, answer, spEntityId, untilCheck, untilRecord, mapped));
            var p := s.posts[post];
            var (t, r) := Validate(s.tables, answer, p.realmId, p.request.requestId, spEntityId,
                                   s.now + untilCheck, s.now + untilCheck + untilRecord);
            && s'.tables == t
            && s'.posts == s.posts[post := p.(phase :=
                 if r.Success? && mapped then L.SessionIssued(r.value, p.request.returnUrl) else L.Rejected)]
  {
    var rest := RestOfPost(post, answer, spEntityId, untilCheck, untilRecord, mapped);
    assert rest == [rest[0]] + ([rest[1]] + ([rest[2]] + ([rest[3]] + ([rest[4]] + ([rest[5]] + [])))));
    RunFirst(s, rest[0], rest[1..]);
    var s1 := L.Exec(s, rest[0]);
    RunFirst(s1, rest[1], rest[2..]);
    var s2 := L.Exec(s1, rest[1]);
    TickAndCheck(s, post, answer, spEntityId, untilCheck);
    RunFirst(s2, rest[2], rest[3..]);
    var s3 := L.Exec(s2, rest[2]);
    RunFirst(s3, rest[3], rest[4..]);
    RunFirst(L.Exec(s3, rest[3]), rest[4], rest[5..]);
    RunFirst(L.Exec(L.Exec(s3, rest[3]), rest[4]), rest[5], []);
    if s3.posts[post].phase.Rejected? {
      RejectedStays(s3, post, mapped);
    } else {
      RecordAndFinish(s3, post, mapped);
    }
  }

  /** What the outside world contributes to one post: base64 and UTF-8 decoding, `samael`, the
      iteration order of the realm's claim map, lower-casing and the length of claims as JSON. */
  datatype Externals = Externals(
    decode: string -> Option<string>, samael: (string, string) -> Option<Assertion>, order: seq<string>,
    lower: string -> string, size: map<string, C.Json> -> nat)

  ghost predicate ForRealm(x: Externals, settings: SamlSettings) {
    Enumerates(x.order, settings.identity.attributeClaimMap.Keys)
  }

  /** What `samael` answers; without a certificate it is not asked. */
  function Answer(x: Externals, settings: SamlSettings, form: AcsForm, requestId: string): Option<Assertion> {
    var xml := x.decode(form.samlResponse);
    if xml.None? || settings.idpSigningCertificates == [] then None else x.samael(xml.value, requestId)
  }

  type Accepted = (PendingSamlRequest, Assertion, I.SamlIdentity)

  /** What a post does to the tables, and its answer. */
  ghost function Consumed(
    t: Tables, cookie: Option<string>, realmId: string, form: AcsForm, realms: map<string, SamlSettings>, x: Externals,
    readAt: int, checkedAt: int, recordedAt: int): (Tables, Result<Accepted, AcsError>)
    requires realmId in realms ==> ForRealm(x, realms[realmId])
  {
    if cookie != Some(form.relayState) then (t, Failure(NotStartedFromThisBrowser))
    else if realmId !in realms then (t, Failure(NotASamlRealm))
    else
      var settings := realms[realmId];
      var (t1, taken) := TakePending(t, form.relayState, realmId, readAt);
      if taken.None? then (t1, Failure(UnknownOrExpiredRequest))
      else if x.decode(form.samlResponse).None? then (t1, Failure(NotBase64Utf8))
      else
        var (t2, checked) := Validate(t1, Answer(x, settings, form, taken.value.requestId), realmId,
                                      taken.value.requestId, settings.spEntityId, checkedAt, recordedAt);
        if checked.Failure? then (t2, Failure(Invalid(checked.error)))
        else
          match I.Mapped(checked.value, settings.identity, x.order, x.lower, x.size)
          case Failure(e) => (t2, Failure(IdentityRejected(e)))
          case Success(identity) => (t2, Success((taken.value, checked.value, identity)))
  }

  /** A sign-in succeeds exactly when the browser holds the cookie of a login of this realm that is
      younger than its limit and was not answered before, and `samael` verified, for that login, an
      assertion that is addressed to us, young enough and new, and that maps to an identity. */
  lemma SignInSucceedsExactlyWhen(
    t: Tables, cookie: Option<string>, realmId: string, form: AcsForm, realms: map<string, SamlSettings>, x: Externals,
    readAt: int, checkedAt: int, recordedAt: int)
    requires t.Valid() && realmId in realms && ForRealm(x, realms[realmId])
    ensures Consumed(t, cookie, realmId, form, realms, x, readAt, checkedAt, recordedAt).1.Success? <==>
              && cookie == Some(form.relayState)
              && (exists p <- t.pending.Values ::
                    p.requestId == form.relayState && p.realmId == realmId && readAt < p.expiresAt * NANOS_PER_SECOND)
              && x.decode(form.samlResponse).Some? && realms[realmId].idpSigningCertificates != []
              && var answer := x.samael(x.decode(form.samlResponse).value, form.relayState);
                 && answer.Some? && answer.value.inResponseTo == form.relayState
                 && AddressedTo(answer.value, realms[realmId].spEntityId)
                 && answer.value.authnStatements.Some? && |answer.value.authnStatements.value| > 0
                 && checkedAt < answer.value.issueInstant + 300 * NANOS_PER_SECOND
                 && recordedAt < Retention(answer.value) * NANOS_PER_SECOND
                 && (realmId, answer.value.id) !in t.seen
                 && I.Mapped(answer.value, realms[realmId].identity, x.order, x.lower, x.size).Success?
  {
  }

  /** The answer of a sign-in: the request of this browser's login, the assertion that `samael` verified
      for it, and the identity that this assertion states under the realm's settings. */
  ghost predicate Answers(accepted: Accepted, pending: map<string, PendingSamlRequest>, realmId: string, form: AcsForm,
                          realms: map<string, SamlSettings>, x: Externals)
  {
    && form.relayState in pending && accepted.0 == pending[form.relayState] && accepted.0.realmId == realmId
    && realmId in realms && realms[realmId].idpSigningCertificates != [] && x.decode(form.samlResponse).Some?
    && x.samael(x.decode(form.samlResponse).value, form.relayState) == Some(accepted.1)
    && I.IsAsserted(accepted.2, accepted.1, realms[realmId].identity, x.lower)
  }

  /** Whoever is signed in is who the identity provider said. */
  lemma SignInAnswersWhatWasAsserted(
    t: Tables, cookie: Option<string>, realmId: string, form: AcsForm, realms: map<string, SamlSettings>, x: Externals,
    readAt: int, checkedAt: int, recordedAt: int)
    requires t.Valid() && (realmId in realms ==> ForRealm(x, realms[realmId]))
    ensures var r := Consumed(t, cookie, realmId, form, realms, x, readAt, checkedAt, recordedAt).1;
            r.Success? ==> Answers(r.value, t.pending, realmId, form, realms, x)
  {
    hide I.Mapped, I.IsAsserted;
    var r := Consumed(t, cookie, realmId, form, realms, x, readAt, checkedAt, recordedAt).1;
    if r.Success? {
      I.MappedExactlyWhen(r.value.1, realms[realmId].identity, x.order, x.lower, x.size);
    }
  }

  /** A refusal names the first reason there is for it. */
  lemma RefusalsNameTheirReason(
    t: Tables, cookie: Option<string>, realmId: string, form: AcsForm, realms: map<string, SamlSettings>, x: Externals,
    readAt: int, checkedAt: int, recordedAt: int)
    requires t.Valid() && (realmId in realms ==> ForRealm(x, realms[realmId]))
    ensures var r := Consumed(t, cookie, realmId, form, realms, x, readAt, checkedAt, recordedAt).1;
            var known := exists p <- t.pending.Values ::
              p.requestId == form.relayState && p.realmId == realmId && readAt < p.expiresAt * NANOS_PER_SECOND;
            && (r == Failure(NotStartedFromThisBrowser) <==> cookie != Some(form.relayState))
            && (r == Failure(NotASamlRealm) <==> cookie == Some(form.relayState) && realmId !in realms)
            && (r == Failure(UnknownOrExpiredRequest) <==>
                  cookie == Some(form.relayState) && realmId in realms && !known)
            && (r == Failure(NotBase64Utf8) <==>
                  && cookie == Some(form.relayState) && realmId in realms && known
                  && x.decode(form.samlResponse).None?)
  {
    hide I.Mapped;
    TakeIsSingleUse(t, form.relayState, realmId, readAt);
  }

  /** Whatever the outcome, a post that reached a request uses it up: no later post succeeds with it. */
  lemma AnyPostUsesUpItsRequest(
    t: Tables, cookie: Option<string>, realmId: string, form: AcsForm, realms: map<string, SamlSettings>, x: Externals,
    readAt: int, checkedAt: int, recordedAt: int)
    requires realmId in realms ==> ForRealm(x, realms[realmId])
    ensures var (t', r) := Consumed(t, cookie, realmId, form, realms, x, readAt, checkedAt, recordedAt);
            if r.Failure? && (r.error.NotStartedFromThisBrowser? || r.error.NotASamlRealm?
                || r.error.UnknownOrExpiredRequest?)
            then t' == t
            else form.relayState in t.pending && t'.pending == t.pending - {form.relayState}
  {
  }

  /** One post is one path through the machine's steps: it takes, checks, records and finishes as
      they do, and it issues a session exactly when it answers with one. */
  method ConsumeResponse(
    cookie: Option<string>, realmId: string, form: AcsForm, realms: map<string, SamlSettings>, x: Externals,
    store: SqlRequestStore, readAt: int, checkedAt: int, recordedAt: int, ghost s: L.State)
    returns (r: Result<Accepted, AcsError>, ghost steps: seq<L.Step>)
    requires realmId in realms ==> ForRealm(x, realms[realmId])
    requires s.tables == store.Contents() && s.tables.Valid() && readAt <= s.now <= checkedAt <= recordedAt
    modifies store
    ensures (store.Contents(), r)
            == Consumed(old(store.Contents()), cookie, realmId, form, realms, x, readAt, checkedAt, recordedAt)
    ensures r.Success? ==> Answers(r.value, old(store.pending), realmId, form, realms, x)
    ensures var s' := L.Run(s, steps);
            && store.Contents() == s'.tables
            && (r.Success? ==>
                  && cookie == Some(form.relayState) == Some(r.value.0.requestId)
                  && s'.posts == s.posts + [L.Post(realmId, r.value.0, readAt, s.now,
                                                   L.SessionIssued(r.value.1, r.value.0.returnUrl))])
            && (r.Failure? ==>
                  s'.posts == s.posts
                  || exists request :: s'.posts == s.posts + [L.Post(realmId, request, readAt, s.now, L.Rejected)])
  {
    steps := [];
    if cookie != Some(form.relayState) {
      return Failure(NotStartedFromThisBrowser), steps;
    }
    if realmId !in realms {
      return Failure(NotASamlRealm), steps;
    }
    var settings := realms[realmId];
    var taken := store.TakePendingRequest(form.relayState, realmId, readAt);
    if taken.None? {
      return Failure(UnknownOrExpiredRequest), steps;
    }
    var pending := taken.value;
    ghost var s1 := L.Exec(s, L.Take(cookie, form.relayState, realmId, readAt));
    ghost var post := |s.posts|;
    assert s1.posts == s.posts + [L.Post(realmId, pending, readAt, s.now, L.Taken)];
    var xml := x.decode(form.samlResponse);
    ghost var answer := Answer(x, settings, form, pending.requestId);
    if xml.None? {
      steps := OnePost(s, s1, cookie, form, realmId, readAt, None, settings.spEntityId, checkedAt, recordedAt, false);
      return Failure(NotBase64Utf8), steps;
    }
    var checked := ValidateSamlResponse(xml.value, x.samael, settings.idpSigningCertificates, settings.spEntityId,
                                        realmId, pending.requestId, store, checkedAt, recordedAt);
    if checked.Failure? {
      steps := OnePost(s, s1, cookie, form, realmId, readAt, answer, settings.spEntityId, checkedAt, recordedAt, false);
      return Failure(Invalid(checked.error)), steps;
    }
    SignInAnswersWhatWasAsserted(s.tables, cookie, realmId, form, realms, x, readAt, checkedAt, recordedAt);
    var identity := I.MapIdentity(checked.value, settings.identity, x.order, x.lower, x.size);
    steps := OnePost(s, s1, cookie, form, realmId, readAt, answer, settings.spEntityId, checkedAt, recordedAt,
        identity.Success?);
    if identity.Failure? {
      return Failure(IdentityRejected(identity.error)), steps;
    }
    return Success((pending, checked.value, identity.value)), steps;
  }

  lemma OnePost(s: L.State, s1: L.State, cookie: Option<string>, form: AcsForm, realmId: string, readAt: int,
                answer: Option<Assertion>, spEntityId: string, checkedAt: int, recordedAt: int, mapped: bool)
    returns (steps: seq<L.Step>)
    requires s1 == L.Exec(s, L.Take(cookie, form.relayState, realmId, readAt)) && |s1.posts| == |s.posts| + 1
    requires s.now <= checkedAt <= recordedAt
    ensures var p := s1.posts[|s.posts|];
            var (t, r) := Validate(s1.tables, answer, p.realmId, p.request.requestId, spEntityId, checkedAt,
                recordedAt);
            && L.Run(s, steps).tables == t
            && L.Run(s, steps).posts == s.posts + [p.(phase :=
                 if r.Success? && mapped then L.SessionIssued(r.value, p.request.returnUrl) else L.Rejected)]
  {
    var post := |s.posts|;
    var take := L.Take(cookie, form.relayState, realmId, readAt);
    var rest := RestOfPost(post, answer, spEntityId, checkedAt - s.now, recordedAt - checkedAt, mapped);
    steps := [take] + rest;
    assert steps[1..] == rest;
    PostValidates(s1, post, answer, spEntityId, checkedAt - s.now, recordedAt - checkedAt, mapped);
  }
}
