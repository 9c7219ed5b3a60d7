/** SP-initiated SAML login as a state machine (server/src/saml/endpoints.rs,
    server/src/saml/response_validation.rs). Any number of logins, posts to the Assertion Consumer
    Service, purges and clock ticks interleave; every statement on the store is a step of its own,
    and the clock readings it acts on may be any amount of time older. */
module SamlLogin {
  import opened Wrappers
  import opened RequestStore
  import opened SamlAssertion
  import opened ResponseValidation

  const PENDING_REQUEST_SECONDS: int := 600

  /** A login and the clock reading it took its times from. */
  datatype Login = Login(request: PendingSamlRequest, at: int)

  datatype Phase =
    | Taken
    | Validated(assertion: Assertion)
    | Ensured(assertion: Assertion, at: int)
    | Recorded(assertion: Assertion)
    | SessionIssued(assertion: Assertion, redirect: string)
    | Rejected

  /** A post to the ACS of `realmId` that took a pending request at `takenAt`, by the clock reading
      `reading`. Posts that took none end there. */
  datatype Post = Post(realmId: string, request: PendingSamlRequest, reading: int, takenAt: int, phase: Phase)

  /** The insert of an assertion id that was new, by the post with index `post`. */
  datatype Record = Record(post: nat, realmId: string, assertion: Assertion, at: int)

  datatype State = State(now: int, tables: Tables, logins: seq<Login>, posts: seq<Post>, records: seq<Record>)

  /** `createdAt`, `checkedAt` and `reading` are clock readings made before the statement runs. A
      purge step forgets those of the named rows that have expired: a whole purge names them all,
      the first of its two statements only pending requests. */
  datatype Step =
    | Tick(nanos: nat)
    | StartLogin(realmId: string, returnUrl: string, requestId: string, createdAt: int, checkedAt: int)
    | Purge(reading: int, requests: set<string>, ids: set<(string, string)>)
    | Take(cookie: Option<string>, relayState: string, realmId: string, reading: int)
    | Check(post: nat, answer: Option<Assertion>, spEntityId: string)
    | Ensure(post: nat)
    | Insert(post: nat)
    | Finish(post: nat, mapped: bool)

  function Forgotten(t: Tables, reading: int, requests: set<string>, ids: set<(string, string)>): Tables {
    Tables(
      map id | id in t.pending && !(id in requests && t.pending[id].expiresAt <= Timestamp(reading)) :: t.pending[id],
      map key | key in t.seen && !(key in ids && t.seen[key] <= Timestamp(reading)) :: t.seen[key])
  }

  lemma WholePurge(t: Tables, reading: int)
    ensures Forgotten(t, reading, t.pending.Keys, t.seen.Keys) == DeleteExpired(t, reading)
  {
  }

  function Move(s: State, post: nat, phase: Phase): State
    requires post < |s.posts|
  {
    s.(posts := s.posts[post := s.posts[post].(phase := phase)])
  }

  function NewRequest(realmId: string, returnUrl: string, requestId: string, createdAt: int): PendingSamlRequest {
    var created := Timestamp(createdAt);
    PendingSamlRequest(requestId, realmId, returnUrl, created, created + PENDING_REQUEST_SECONDS)
  }

  function Exec(s: State, step: Step): State {
    match step
    case Tick(nanos) => s.(now := s.now + nanos)
    case StartLogin(realmId, returnUrl, requestId, createdAt, checkedAt) =>
      if !(createdAt <= checkedAt <= s.now) then s
      else if exists l <- s.logins :: l.request.requestId == requestId then s // ids are fresh
      else
        var request := NewRequest(realmId, returnUrl, requestId, createdAt);
        var (t, r) := StorePending(s.tables, request, checkedAt);
        if r.Failure? then s else s.(tables := t, logins := s.logins + [Login(request, createdAt)])
    case Purge(reading, requests, ids) =>
      if reading > s.now then s else s.(tables := Forgotten(s.tables, reading, requests, ids))
    case Take(cookie, relayState, realmId, reading) =>
      if reading > s.now || cookie != Some(relayState) then s else
      var (t, r) := TakePending(s.tables, relayState, realmId, reading);
      (match r
       case None => s
       case Some(request) => s.(tables := t, posts := s.posts + [Post(realmId, request, reading, s.now, Taken)]))
    case Check(post, answer, spEntityId) =>
      if post >= |s.posts| || !s.posts[post].phase.Taken? then s else
      (match CheckAssertion(answer, s.posts[post].request.requestId, spEntityId, s.now)
       case Failure(_) => Move(s, post, Rejected)
       case Success(assertion) => Move(s, post, Validated(assertion)))
    case Ensure(post) =>
      if post >= |s.posts| || !s.posts[post].phase.Validated? then s else
      var assertion := s.posts[post].phase.assertion;
      if EnsureUnexpired(Retention(assertion), s.now).Failure? then Move(s, post, Rejected)
      else Move(s, post, Ensured(assertion, s.now))
    case Insert(post) =>
      if post >= |s.posts| || !s.posts[post].phase.Ensured? then s else
      var assertion, realmId := s.posts[post].phase.assertion, s.posts[post].realmId;
      var (t, isNew) := InsertSeen(s.tables, realmId, assertion.id, Retention(assertion));
      if !isNew then Move(s, post, Rejected)
      else
        Move(s, post, Recorded(assertion))
          .(tables := t, records := s.records + [Record(post, realmId, assertion, s.now)])
    case Finish(post, mapped) =>
      if post >= |s.posts| || !s.posts[post].phase.Recorded? then s else
      if !mapped then Move(s, post, Rejected)
      else Move(s, post, SessionIssued(s.posts[post].phase.assertion, s.posts[post].request.returnUrl))
  }

  function Run(s: State, steps: seq<Step>): State
    decreases |steps|
  {
    if steps == [] then s else Run(Exec(s, steps[0]), steps[1..])
  }

  function Start(now: int): State {
    State(now, Tables(map[], map[]), [], [], [])
  }

  // ---- The invariant ----

  ghost predicate LoginsOk(s: State) {
    && (forall i, j | 0 <= i < j < |s.logins| :: s.logins[i].request.requestId != s.logins[j].request.requestId)
    && (forall l <- s.logins ::
          && l.at <= s.now && l.request.createdAt == Timestamp(l.at)
          && l.request.expiresAt == l.request.createdAt + PENDING_REQUEST_SECONDS)
  }

  ghost predicate FromLogin(s: State, request: PendingSamlRequest) {
    exists l <- s.logins :: l.request == request
  }

  /** A pending row is what some login stored, and no post has taken it. */
  ghost predicate PendingOk(s: State) {
    forall id <- s.tables.pending ::
      && s.tables.pending[id].requestId == id
      && FromLogin(s, s.tables.pending[id])
      && NotTaken(s, id)
  }

  ghost predicate NotTaken(s: State, requestId: string) {
    forall p <- s.posts :: p.request.requestId != requestId
  }

  ghost predicate PostsOk(s: State) {
    && (forall i, j | 0 <= i < j < |s.posts| :: s.posts[i].request.requestId != s.posts[j].request.requestId)
    && (forall p <- s.posts :: PostOk(s, p))
  }

  ghost predicate PostOk(s: State, p: Post) {
    && (exists l <- s.logins :: l.request == p.request && l.at <= p.takenAt)
    && p.reading <= p.takenAt <= s.now && p.reading < p.request.expiresAt * NANOS_PER_SECOND
    && (p.phase.Ensured? ==> p.phase.at <= s.now && EnsureUnexpired(Retention(p.phase.assertion), p.phase.at).Success?)
    && (p.phase.Validated? || p.phase.Ensured? || p.phase.Recorded? || p.phase.SessionIssued?
        ==> p.phase.assertion.inResponseTo == p.request.requestId)
    && (p.phase.SessionIssued? ==> p.phase.redirect == p.request.returnUrl)
  }

  /** Every post took a request of the realm it was posted to. */
  predicate OwnRealms(s: State) {
    forall p <- s.posts :: p.realmId == p.request.realmId
  }

  ghost predicate RecordsOk(s: State) {
    && (forall r <- s.records :: r.at <= s.now && RecordedBy(s, r))
    && (forall i, j | 0 <= i < j < |s.records| :: OnlyLate(s.records[i], s.records[j]))
  }

  ghost predicate RecordedBy(s: State, r: Record) {
    && r.post < |s.posts|
    && s.posts[r.post].realmId == r.realmId
    && r.assertion.inResponseTo == s.posts[r.post].request.requestId
    && (s.posts[r.post].phase.Rejected?
        || ((s.posts[r.post].phase.Recorded? || s.posts[r.post].phase.SessionIssued?)
            && s.posts[r.post].phase.assertion == r.assertion))
  }

  /** A second record of an id in a realm is a different post's, and comes after the retention of the first. */
  ghost predicate OnlyLate(first: Record, second: Record) {
    && first.post != second.post
    && (first.realmId == second.realmId && first.assertion.id == second.assertion.id
        ==> second.at >= Retention(first.assertion) * NANOS_PER_SECOND)
  }

  /** Every post past the insert has its record. */
  ghost predicate PassedHaveRecords(s: State) {
    forall i | 0 <= i < |s.posts| && (s.posts[i].phase.Recorded? || s.posts[i].phase.SessionIssued?) ::
      exists r <- s.records :: r.post == i && r.assertion == s.posts[i].phase.assertion
  }

  /** What does not depend on how a backend keeps its state. */
  ghost predicate Sound(s: State) {
    LoginsOk(s) && PostsOk(s) && RecordsOk(s) && PassedHaveRecords(s)
  }

  /** What each recorded id left behind: its row, or the certainty that its retention is over. */
  ghost predicate Remembered(s: State) {
    forall r <- s.records ::
      || s.now >= Retention(r.assertion) * NANOS_PER_SECOND
      || (&& (r.realmId, r.assertion.id) in s.tables.seen
          && s.tables.seen[(r.realmId, r.assertion.id)] == Retention(r.assertion))
  }

  ghost predicate Inv(s: State) {
    Sound(s) && OwnRealms(s) && PendingOk(s) && Remembered(s)
  }

  // ---- Steps that keep it sound, over any backend ----

  lemma StaysSound(s: State, s': State)
    requires Sound(s) && s.now <= s'.now
    requires s'.logins == s.logins && s'.posts == s.posts && s'.records == s.records
    ensures Sound(s')
  {
    forall p <- s'.posts ensures PostOk(s', p) {
      assert PostOk(s, p);
    }
    assert forall r <- s'.records :: RecordedBy(s, r) ==> RecordedBy(s', r);
  }

  lemma LoginStaysSound(s: State, l: Login)
    requires Sound(s) && l.at <= s.now && forall k <- s.logins :: k.request.requestId != l.request.requestId
    requires l.request == NewRequest(l.request.realmId, l.request.returnUrl, l.request.requestId, l.at)
    ensures Sound(s.(logins := s.logins + [l]))
  {
    var s' := s.(logins := s.logins + [l]);
    assert forall k <- s.logins :: k in s'.logins;
    forall p <- s'.posts ensures PostOk(s', p) {
      assert PostOk(s, p);
    }
    assert forall r <- s'.records :: RecordedBy(s, r) ==> RecordedBy(s', r);
  }

  lemma TakeStaysSound(s: State, p: Post)
    requires Sound(s) && PostOk(s, p) && p.phase.Taken? && NotTaken(s, p.request.requestId)
    ensures Sound(s.(posts := s.posts + [p]))
  {
    var s' := s.(posts := s.posts + [p]);
    forall q <- s'.posts ensures PostOk(s', q) {
      assert q != p ==> q in s.posts && PostOk(s, q);
    }
    assert forall r <- s'.records :: RecordedBy(s, r) ==> RecordedBy(s', r);
  }

  /** A step of one post that leaves the records alone. */
  lemma MoveStaysSound(s: State, post: nat, phase: Phase)
    requires Sound(s) && post < |s.posts|
    requires PostOk(s, s.posts[post].(phase := phase))
    requires var before := s.posts[post].phase;
             || phase.Rejected?
             || ((before.Taken? || before.Validated?) && (phase.Validated? || phase.Ensured?))
             || (before.Recorded? && phase.SessionIssued? && before.assertion == phase.assertion)
    ensures Sound(Move(s, post, phase))
  {
    var s' := Move(s, post, phase);
    forall q <- s'.posts ensures PostOk(s', q) {
      var i :| 0 <= i < |s'.posts| && s'.posts[i] == q;
      assert i != post ==> PostOk(s, s.posts[i]);
    }
    forall r <- s'.records ensures RecordedBy(s', r) {
      assert RecordedBy(s, r);
    }
  }

  /** Checks and the end of a post touch nothing but its phase. */
  lemma PhaseStepStaysSound(s: State, step: Step)
    requires Sound(s) && (step.Check? || step.Ensure? || step.Finish?)
    ensures Sound(Exec(s, step)) && Exec(s, step) == s.(posts := Exec(s, step).posts)
    ensures SameRequests(s, Exec(s, step))
  {
    var s' := Exec(s, step);
    if s' != s {
      assert PostOk(s, s.posts[step.post]);
      MoveStaysSound(s, step.post, s'.posts[step.post].phase);
    }
  }

  predicate SameRequests(s: State, s': State) {
    && |s'.posts| == |s.posts|
    && forall i | 0 <= i < |s.posts| ::
         s'.posts[i].request == s.posts[i].request && s'.posts[i].realmId == s.posts[i].realmId
  }

  /** What an insert of a new id does to the posts and the records. */
  function WithRecord(s: State, post: nat): State
    requires post < |s.posts| && s.posts[post].phase.Ensured?
  {
    var p := s.posts[post];
    Move(s, post, Recorded(p.phase.assertion))
      .(records := s.records + [Record(post, p.realmId, p.phase.assertion, s.now)])
  }

  lemma RecordStaysSound(s: State, post: nat)
    requires Sound(s) && post < |s.posts| && s.posts[post].phase.Ensured?
    requires forall r <- s.records ::
               r.realmId == s.posts[post].realmId && r.assertion.id == s.posts[post].phase.assertion.id
               ==> s.now >= Retention(r.assertion) * NANOS_PER_SECOND
    ensures Sound(WithRecord(s, post))
  {
    var s' := WithRecord(s, post);
    var record := s'.records[|s.records|];
    assert PostOk(s, s.posts[post]);
    forall q <- s'.posts ensures PostOk(s', q) {
      var i :| 0 <= i < |s'.posts| && s'.posts[i] == q;
      assert PostOk(s, s.posts[i]);
    }
    forall r <- s'.records ensures RecordedBy(s', r) && (r != record ==> OnlyLate(r, record)) {
      assert r != record ==> r in s.records && RecordedBy(s, r);
    }
    RecordPassesOn(s, s', post, record);
  }

  lemma RecordPassesOn(s: State, s': State, post: nat, record: Record)
    requires PassedHaveRecords(s) && post < |s.posts| && s.posts[post].phase.Ensured?
    requires s' == WithRecord(s, post) && s'.records == s.records + [record]
    ensures PassedHaveRecords(s')
  {
    forall i | 0 <= i < |s'.posts| && (s'.posts[i].phase.Recorded? || s'.posts[i].phase.SessionIssued?)
      ensures exists r <- s'.records :: r.post == i && r.assertion == s'.posts[i].phase.assertion
    {
      if i == post {
        assert record in s'.records;
      } else {
        var r :| r in s.records && r.post == i && r.assertion == s.posts[i].phase.assertion;
        assert r in s'.records;
      }
    }
  }

  // ---- Steps over the SQL tables ----

  lemma StartLoginKeepsInv(s: State, step: Step)
    requires Inv(s) && step.StartLogin?
    ensures Inv(Exec(s, step))
  {
    var s' := Exec(s, step);
    if s' != s {
      var l := s'.logins[|s.logins|];
      LoginStaysSound(s, l);
      StaysSound(s.(logins := s.logins + [l]), s');
      assert l in s'.logins && forall k <- s.logins :: k in s'.logins;
      forall p <- s'.posts ensures p.request.requestId != step.requestId {
        assert PostOk(s, p);
      }
      forall id <- s'.tables.pending ensures FromLogin(s', s'.tables.pending[id]) {
        assert id != step.requestId ==> FromLogin(s, s.tables.pending[id]);
      }
    }
  }

  lemma PurgeKeepsInv(s: State, step: Step)
    requires Inv(s) && step.Purge?
    ensures Inv(Exec(s, step))
  {
    StaysSound(s, Exec(s, step));
  }

  lemma TakeKeepsInv(s: State, step: Step)
    requires Inv(s) && step.Take?
    ensures Inv(Exec(s, step))
  {
    var s' := Exec(s, step);
    if s' != s {
      var p := s'.posts[|s.posts|];
      assert FromLogin(s, p.request);
      TakeStaysSound(s, p);
      StaysSound(s.(posts := s.posts + [p]), s');
      forall id <- s'.tables.pending ensures NotTaken(s', id) {
        assert NotTaken(s, id);
      }
    }
  }

  lemma PhasesDoNotTouchPending(s: State, s': State)
    requires PendingOk(s) && OwnRealms(s) && SameRequests(s, s')
    requires s'.logins == s.logins && s'.tables.pending == s.tables.pending
    ensures PendingOk(s') && OwnRealms(s')
  {
  }

  lemma InsertKeepsInv(s: State, post: nat)
    requires Inv(s)
    ensures Inv(Exec(s, Insert(post)))
  {
    var s' := Exec(s, Insert(post));
    if s' != s {
      assert PostOk(s, s.posts[post]);
      if (s.posts[post].realmId, s.posts[post].phase.assertion.id) in s.tables.seen {
        MoveStaysSound(s, post, Rejected);
      } else {
        RecordStaysSound(s, post);
        StaysSound(WithRecord(s, post), s');
      }
      PhasesDoNotTouchPending(s, s');
    }
  }

  lemma StepKeepsInv(s: State, step: Step)
    requires Inv(s)
    ensures Inv(Exec(s, step))
  {
    match step {
      case Tick(_) => StaysSound(s, Exec(s, step));
      case StartLogin(_, _, _, _, _) => StartLoginKeepsInv(s, step);
      case Purge(_, _, _) => PurgeKeepsInv(s, step);
      case Take(_, _, _, _) => TakeKeepsInv(s, step);
      case Insert(post) => InsertKeepsInv(s, post);
      case _ =>
        PhaseStepStaysSound(s, step);
        PhasesDoNotTouchPending(s, Exec(s, step));
    }
  }

  lemma {:induction false} RunKeepsInv(s: State, steps: seq<Step>)
    requires Inv(s)
    ensures Inv(Run(s, steps))
    decreases |steps|
  {
    if steps != [] {
      StepKeepsInv(s, steps[0]);
      RunKeepsInv(Exec(s, steps[0]), steps[1..]);
    }
  }

  // ---- What holds at the end of every run ----

  /** The post's session is the one of this login. */
  predicate Answers(p: Post, l: Login) {
    && p.request == l.request
    && l.at <= p.takenAt && p.reading <= p.takenAt
    && p.reading < l.at + 600 * NANOS_PER_SECOND
    && p.phase.SessionIssued?
    && p.phase.redirect == l.request.returnUrl
    && p.phase.assertion.inResponseTo == l.request.requestId
  }

  ghost predicate SessionsAnswerLogins(s: State) {
    && (forall i | 0 <= i < |s.posts| && s.posts[i].phase.SessionIssued? ::
          exists l <- s.logins :: Answers(s.posts[i], l))
    && (forall i, j | 0 <= i < j < |s.posts| :: s.posts[i].request.requestId != s.posts[j].request.requestId)
    && (forall l <- s.logins, i, j | 0 <= i < |s.posts| && 0 <= j < |s.posts| ::
          Answers(s.posts[i], l) && Answers(s.posts[j], l) ==> i == j)
  }

  ghost predicate SessionsHaveOwnAssertions(s: State) {
    forall i, j | 0 <= i < j < |s.posts| && s.posts[i].phase.SessionIssued? && s.posts[j].phase.SessionIssued? ::
      s.posts[i].phase.assertion != s.posts[j].phase.assertion
  }

  /** A second record of one id (with the same IssueInstant) in a realm comes after all that time in
      which the first was remembered or the assertion accepted. */
  ghost predicate RepeatsAreLate(s: State) {
    forall i, j | 0 <= i < j < |s.records| && SameId(s.records[i], s.records[j]) ::
      && s.records[j].at >= AcceptedUntil(s.records[j].assertion)
      && s.records[j].at >= Retention(s.records[j].assertion) * NANOS_PER_SECOND
  }

  lemma SoundSessions(s: State)
    requires Sound(s)
    ensures SessionsAnswerLogins(s) && SessionsHaveOwnAssertions(s) && RepeatsAreLate(s)
  {
    forall i | 0 <= i < |s.posts| && s.posts[i].phase.SessionIssued?
      ensures exists l <- s.logins :: Answers(s.posts[i], l)
    {
      assert PostOk(s, s.posts[i]);
      var l :| l in s.logins && l.request == s.posts[i].request && l.at <= s.posts[i].takenAt;
      assert Answers(s.posts[i], l);
    }
    forall i, j | 0 <= i < j < |s.posts| && s.posts[i].phase.SessionIssued? && s.posts[j].phase.SessionIssued?
      ensures s.posts[i].phase.assertion != s.posts[j].phase.assertion
    {
      assert PostOk(s, s.posts[i]) && PostOk(s, s.posts[j]);
    }
    forall i, j | 0 <= i < j < |s.records| && SameId(s.records[i], s.records[j])
      ensures s.records[j].at >= Retention(s.records[j].assertion) * NANOS_PER_SECOND
    {
      assert OnlyLate(s.records[i], s.records[j]);
    }
  }

  /** Sessions map injectively to logins. Every session answers a login of the same realm, made
      before its request was taken and less than 600 seconds before the clock reading of that take,
      and continues to the return URL that login stored; no request is ever taken by two posts, and
      no login is answered twice. */
  lemma SessionsMapInjectivelyToLogins(start: int, steps: seq<Step>)
    ensures SessionsAnswerLogins(Run(Start(start), steps)) && OwnRealms(Run(Start(start), steps))
  {
    RunKeepsInv(Start(start), steps);
    SoundSessions(Run(Start(start), steps));
  }

  /** The logins of a run are its login steps, with their own realm and return URL. */
  lemma {:induction false} LoginsAreSteps(s: State, steps: seq<Step>)
    ensures var s' := Run(s, steps);
            forall l <- s'.logins :: l in s.logins
              || exists checkedAt ::
                   StartLogin(l.request.realmId, l.request.returnUrl, l.request.requestId, l.at, checkedAt) in steps
    decreases |steps|
  {
    if steps != [] {
      LoginsAreSteps(Exec(s, steps[0]), steps[1..]);
      assert forall x <- steps[1..] :: x in steps;
    }
  }

  /** A session needs its own answer from the identity provider: no assertion, which is bound to one
      request, opens two sessions, even if an insert into the replay table is arbitrarily late. */
  lemma NoAssertionOpensTwoSessions(start: int, steps: seq<Step>)
    ensures SessionsHaveOwnAssertions(Run(Start(start), steps))
  {
    RunKeepsInv(Start(start), steps);
    SoundSessions(Run(Start(start), steps));
  }

  /** The replay table. If the same id is recorded as new twice in a realm, although rows are purged,
      then the second insert ran after the whole retention. */
  lemma RecordedTwiceOnlyAfterRetention(start: int, steps: seq<Step>)
    ensures RepeatsAreLate(Run(Start(start), steps))
  {
    RunKeepsInv(Start(start), steps);
    SoundSessions(Run(Start(start), steps));
  }

  /** Every insert that recorded an id came before the end of its retention. */
  predicate InsertsInTime(s: State) {
    forall r <- s.records :: r.at < Retention(r.assertion) * NANOS_PER_SECOND
  }

  /** Each id is recorded as new at most once per realm and IssueInstant, and accordingly opens at
      most one session. */
  ghost predicate AtMostOnce(s: State) {
    && (forall i, j | 0 <= i < j < |s.records| :: !SameId(s.records[i], s.records[j]))
    && (forall i, j | 0 <= i < j < |s.posts|
                      && s.posts[i].phase.SessionIssued? && s.posts[j].phase.SessionIssued?
                      && s.posts[i].realmId == s.posts[j].realmId ::
          s.posts[i].phase.assertion.id == s.posts[j].phase.assertion.id
          ==> s.posts[i].phase.assertion.issueInstant != s.posts[j].phase.assertion.issueInstant)
  }

  lemma SessionsDiffer(s: State, i: nat, j: nat)
    requires RecordsOk(s) && PassedHaveRecords(s)
    requires forall a, b | 0 <= a < b < |s.records| :: !SameId(s.records[a], s.records[b])
    requires i < j < |s.posts| && s.posts[i].phase.SessionIssued? && s.posts[j].phase.SessionIssued?
    requires s.posts[i].realmId == s.posts[j].realmId
    requires s.posts[i].phase.assertion.id == s.posts[j].phase.assertion.id
    ensures s.posts[i].phase.assertion.issueInstant != s.posts[j].phase.assertion.issueInstant
  {
  }

  // ---- Exactly when an id is recorded twice ----

  /** What the replay table tells apart: an assertion id with its IssueInstant, in a realm. */
  datatype Identity = Identity(realmId: string, assertionId: string, issueInstant: int)

  function IdentityOf(realmId: string, assertion: Assertion): Identity {
    Identity(realmId, assertion.id, assertion.issueInstant)
  }

  function Count(records: seq<Record>, x: Identity): nat {
    if records == [] then 0
    else
      var r := records[|records| - 1];
      Count(records[..|records| - 1], x) + if IdentityOf(r.realmId, r.assertion) == x then 1 else 0
  }

  /** The step purges the row of the id. */
  predicate Forgets(s: State, step: Step, x: Identity) {
    var key := (x.realmId, x.assertionId);
    && step.Purge? && step.reading <= s.now && key in step.ids
    && key in s.tables.seen && s.tables.seen[key] <= Timestamp(step.reading)
  }

  /** The step is the insert of a post that passed the expiry check, and the table has no row of the id. */
  predicate InsertsNew(s: State, step: Step, x: Identity) {
    && step.Insert? && step.post < |s.posts| && s.posts[step.post].phase.Ensured?
    && IdentityOf(s.posts[step.post].realmId, s.posts[step.post].phase.assertion) == x
    && (x.realmId, x.assertionId) !in s.tables.seen
  }

  predicate InsertsLater(s: State, steps: seq<Step>, x: Identity)
    decreases |steps|
  {
    steps != [] && (InsertsNew(s, steps[0], x) || InsertsLater(Exec(s, steps[0]), steps[1..], x))
  }

  /** After the id was recorded a purge forgets its row, and later a post that is still waiting for
      its insert inserts it. */
  predicate ForgetsThenInserts(s: State, steps: seq<Step>, x: Identity)
    decreases |steps|
  {
    && steps != []
    && var s' := Exec(s, steps[0]);
       || (Count(s.records, x) > 0 && Forgets(s, steps[0], x) && InsertsLater(s', steps[1..], x))
       || ForgetsThenInserts(s', steps[1..], x)
  }

  lemma CountStep(s: State, step: Step, x: Identity)
    ensures Count(Exec(s, step).records, x) == Count(s.records, x) + if InsertsNew(s, step, x) then 1 else 0
    ensures InsertsNew(s, step, x) ==> (x.realmId, x.assertionId) in Exec(s, step).tables.seen
    ensures (x.realmId, x.assertionId) in s.tables.seen && !Forgets(s, step, x)
            ==> (x.realmId, x.assertionId) in Exec(s, step).tables.seen
  {
    var s' := Exec(s, step);
    if s'.records != s.records {
      assert s'.records[..|s.records|] == s.records;
    }
  }

  lemma {:induction false} InsertsExactly(s: State, steps: seq<Step>, x: Identity)
    ensures Count(Run(s, steps).records, x) >= Count(s.records, x)
    ensures Count(Run(s, steps).records, x) > Count(s.records, x) <==> InsertsLater(s, steps, x)
    ensures ForgetsThenInserts(s, steps, x) ==> InsertsLater(s, steps, x)
    decreases |steps|
  {
    if steps != [] {
      CountStep(s, steps[0], x);
      InsertsExactly(Exec(s, steps[0]), steps[1..], x);
    }
  }

  /** While the row of a recorded id stands, the id is recorded again exactly when it is first forgotten. */
  lemma {:induction false} RecordedAgainExactly(s: State, steps: seq<Step>, x: Identity)
    requires Count(s.records, x) > 0 && (x.realmId, x.assertionId) in s.tables.seen
    ensures Count(Run(s, steps).records, x) > Count(s.records, x) <==> ForgetsThenInserts(s, steps, x)
    decreases |steps|
  {
    if steps != [] {
      var s' := Exec(s, steps[0]);
      CountStep(s, steps[0], x);
      if Forgets(s, steps[0], x) {
        InsertsExactly(s', steps[1..], x);
      } else {
        RecordedAgainExactly(s', steps[1..], x);
      }
    }
  }

  lemma {:induction false} TwiceExactly(s: State, steps: seq<Step>, x: Identity)
    requires Count(s.records, x) == 0
    ensures Count(Run(s, steps).records, x) >= 2 <==> ForgetsThenInserts(s, steps, x)
    decreases |steps|
  {
    if steps != [] {
      CountStep(s, steps[0], x);
      if InsertsNew(s, steps[0], x) {
        RecordedAgainExactly(Exec(s, steps[0]), steps[1..], x);
      } else {
        TwiceExactly(Exec(s, steps[0]), steps[1..], x);
      }
    }
  }

  /** An id is recorded as new twice exactly when a purge forgets it after it was recorded, and a
      post that read the clock in time inserts it after that. */
  lemma RecordedTwiceExactlyWhen(start: int, steps: seq<Step>, x: Identity)
    ensures Count(Run(Start(start), steps).records, x) >= 2 <==> ForgetsThenInserts(Start(start), steps, x)
  {
    TwiceExactly(Start(start), steps, x);
  }

  lemma {:induction false} CountsPairs(records: seq<Record>, x: Identity)
    ensures Count(records, x) >= 1
        <==> exists i | 0 <= i < |records| :: IdentityOf(records[i].realmId, records[i].assertion) == x
    ensures Count(records, x) >= 2
            <==> exists i, j | 0 <= i < j < |records| ::
                   && IdentityOf(records[i].realmId, records[i].assertion) == x
                   && IdentityOf(records[j].realmId, records[j].assertion) == x
  {
    if records != [] {
      CountsPairs(records[..|records| - 1], x);
    }
  }

  /** So ids are recorded at most once, and open at most one session, exactly in the runs in which no
      recorded id is forgotten before a waiting insert of it. */
  lemma AtMostOnceExactlyWhen(start: int, steps: seq<Step>)
    ensures AtMostOnce(Run(Start(start), steps)) <==> forall x :: !ForgetsThenInserts(Start(start), steps, x)
  {
    var s := Run(Start(start), steps);
    RunKeepsInv(Start(start), steps);
    OnceExactly(s);
    if x :| ForgetsThenInserts(Start(start), steps, x) {
      RecordedTwiceExactlyWhen(start, steps, x);
      assert Count(s.records, x) >= 2;
    } else {
      forall x ensures Count(s.records, x) < 2 {
        RecordedTwiceExactlyWhen(start, steps, x);
      }
    }
  }

  lemma OnceExactly(s: State)
    requires Sound(s)
    ensures AtMostOnce(s) <==> forall x :: Count(s.records, x) < 2
  {
    NoPairsExactly(s);
    if forall x :: Count(s.records, x) < 2 {
      forall i, j | 0 <= i < j < |s.posts|
                    && s.posts[i].phase.SessionIssued? && s.posts[j].phase.SessionIssued?
                    && s.posts[i].realmId == s.posts[j].realmId
                    && s.posts[i].phase.assertion.id == s.posts[j].phase.assertion.id
        ensures s.posts[i].phase.assertion.issueInstant != s.posts[j].phase.assertion.issueInstant
      {
        SessionsDiffer(s, i, j);
      }
    }
  }

  /** Over any backend timely inserts are enough. */
  lemma TimelyIsOnce(s: State)
    requires Sound(s) && InsertsInTime(s)
    ensures AtMostOnce(s)
  {
    SoundSessions(s);
    NoPairsExactly(s);
    OnceExactly(s);
  }

  lemma NoPairsExactly(s: State)
    ensures (forall i, j | 0 <= i < j < |s.records| :: !SameId(s.records[i], s.records[j]))
            <==> forall x :: Count(s.records, x) < 2
  {
    forall x ensures Count(s.records, x) >= 2
                     <==> exists i, j | 0 <= i < j < |s.records| ::
                            && IdentityOf(s.records[i].realmId, s.records[i].assertion) == x
                            && IdentityOf(s.records[j].realmId, s.records[j].assertion) == x
    {
      CountsPairs(s.records, x);
    }
    if i, j :| 0 <= i < j < |s.records| && SameId(s.records[i], s.records[j]) {
      var x := IdentityOf(s.records[i].realmId, s.records[i].assertion);
      assert IdentityOf(s.records[j].realmId, s.records[j].assertion) == x;
      assert Count(s.records, x) >= 2;
    }
    if x :| Count(s.records, x) >= 2 {
      var i, j :| 0 <= i < j < |s.records| && IdentityOf(s.records[i].realmId, s.records[i].assertion) == x
                  && IdentityOf(s.records[j].realmId, s.records[j].assertion) == x;
      assert SameId(s.records[i], s.records[j]);
    }
  }

  /** What is forgotten is past its retention, so the insert that follows is late. */
  lemma {:induction false} ForgottenMeansLate(s: State, steps: seq<Step>, x: Identity)
    requires Inv(s) && ForgetsThenInserts(s, steps, x)
    ensures !InsertsInTime(Run(s, steps))
    decreases |steps|
  {
    var s' := Exec(s, steps[0]);
    if Count(s.records, x) > 0 && Forgets(s, steps[0], x) && InsertsLater(s', steps[1..], x) {
      ForgottenIsPast(s, steps[0], x);
      LateInsert(s', steps[1..], x);
    } else {
      StepKeepsInv(s, steps[0]);
      ForgottenMeansLate(s', steps[1..], x);
    }
  }

  lemma ForgottenIsPast(s: State, step: Step, x: Identity)
    requires Remembered(s) && Count(s.records, x) > 0 && Forgets(s, step, x)
    ensures Exec(s, step).now >= RetentionOf(x) * NANOS_PER_SECOND
  {
    CountsPairs(s.records, x);
    var i :| 0 <= i < |s.records| && IdentityOf(s.records[i].realmId, s.records[i].assertion) == x;
    assert s.records[i] in s.records && Retention(s.records[i].assertion) == RetentionOf(x);
  }

  function RetentionOf(x: Identity): int {
    Timestamp(x.issueInstant + MAX_ISSUE_DELAY_SECONDS * NANOS_PER_SECOND) + 1
  }

  lemma {:induction false} LateInsert(s: State, steps: seq<Step>, x: Identity)
    requires InsertsLater(s, steps, x) && s.now >= RetentionOf(x) * NANOS_PER_SECOND
    ensures !InsertsInTime(Run(s, steps))
    decreases |steps|
  {
    var s' := Exec(s, steps[0]);
    if InsertsNew(s, steps[0], x) {
      RecordsStay(s', steps[1..]);
      assert s'.records[|s.records|] in s'.records;
    } else {
      LateInsert(s', steps[1..], x);
    }
  }

  lemma {:induction false} RecordsStay(s: State, steps: seq<Step>)
    ensures forall r <- s.records :: r in Run(s, steps).records
    decreases |steps|
  {
    if steps != [] {
      RecordsStay(Exec(s, steps[0]), steps[1..]);
    }
  }

  /** Timely inserts are enough. */
  lemma RecordedAtMostOnce(start: int, steps: seq<Step>)
    requires InsertsInTime(Run(Start(start), steps))
    ensures AtMostOnce(Run(Start(start), steps))
  {
    forall x ensures !ForgetsThenInserts(Start(start), steps, x) {
      if ForgetsThenInserts(Start(start), steps, x) {
        ForgottenMeansLate(Start(start), steps, x);
      }
    }
    AtMostOnceExactlyWhen(start, steps);
  }

  /** The clock reading of `ensure_unexpired` and the insert are one step in this schedule; all else
      interleaves freely, between the check of a response and its record too. */
  predicate RecordsAtOneReading(steps: seq<Step>)
    decreases |steps|
  {
    if steps == [] then true
    else if steps[0].Ensure? then
      |steps| >= 2 && steps[1] == Insert(steps[0].post) && RecordsAtOneReading(steps[2..])
    else !steps[0].Insert? && RecordsAtOneReading(steps[1..])
  }

  /** In such a schedule no id is recorded twice, however purges, ticks and posts interleave: what
      the purge forgets, the store would no longer accept. */
  lemma RecordedAtMostOncePerReading(start: int, steps: seq<Step>)
    requires RecordsAtOneReading(steps)
    ensures AtMostOnce(Run(Start(start), steps))
  {
    OneReadingIsInTime(Start(start), steps);
    RecordedAtMostOnce(start, steps);
  }

  lemma {:induction false} OneReadingIsInTime(s: State, steps: seq<Step>)
    requires RecordsAtOneReading(steps) && InsertsInTime(s) && NoneEnsured(s)
    ensures InsertsInTime(Run(s, steps))
    decreases |steps|
  {
    if steps != [] {
      var s1 := Exec(s, steps[0]);
      if steps[0].Ensure? {
        assert steps[1..][1..] == steps[2..];
        OneReadingIsInTime(Exec(s1, steps[1]), steps[2..]);
      } else {
        OneReadingIsInTime(s1, steps[1..]);
      }
    }
  }

  ghost predicate NoneEnsured(s: State) {
    forall p <- s.posts :: !p.phase.Ensured?
  }

  predicate SameId(r: Record, q: Record) {
    r.realmId == q.realmId && r.assertion.id == q.assertion.id && r.assertion.issueInstant == q.assertion.issueInstant
  }

  lemma {:induction false} RunConcat(s: State, first: seq<Step>, second: seq<Step>)
    ensures Run(s, first + second) == Run(Run(s, first), second)
    decreases |first|
  {
    if first == [] {
      assert first + second == second;
    } else {
      RunConcat(Exec(s, first[0]), first[1..], second);
      assert (first + second)[1..] == first[1..] + second;
    }
  }

  /** Such runs exist: an insert that is delayed past the retention, with a purge in between, records
      an id a second time. Both posts passed every check. */
  lemma LateInsertRecordsTwice() returns (steps: seq<Step>)
    ensures var s := Run(Start(0), steps);
            |s.records| == 2 && SameId(s.records[0], s.records[1])
  {
    var a, b := SampleAssertion("_1"), SampleAssertion("_2");
    var s;
    s, steps := TwoPostsEnsured();
    s, steps := Advance(s, steps, Insert(0));
    s, steps := Advance(s, steps, Tick(301 * NANOS_PER_SECOND));
    s, steps := Advance(s, steps, Purge(301 * NANOS_PER_SECOND, {}, {("acme", "id")}));
    assert Retention(a) == 301 && s.tables.seen == map[];
    s, steps := Advance(s, steps, Insert(1));
    assert s.records == [Record(0, "acme", a, 0), Record(1, "acme", b, 301 * NANOS_PER_SECOND)];
  }

  function SampleAssertion(requestId: string): Assertion {
    Assertion("id", 0, requestId, Some(Conditions(Some([["sp"]]))), Some(["session"]), None, [])
  }

  lemma TwoPostsEnsured() returns (s: State, steps: seq<Step>)
    ensures s == Run(Start(0), steps)
    ensures s.now == 0 && s.tables.seen == map[] && s.records == []
    ensures |s.posts| == 2 && s.posts[0].realmId == s.posts[1].realmId == "acme"
    ensures s.posts[0].phase == Ensured(SampleAssertion("_1"), 0)
    ensures s.posts[1].phase == Ensured(SampleAssertion("_2"), 0)
  {
    s, steps := TwoPostsTaken();
    SampleIsAccepted("_1");
    s, steps := Advance(s, steps, Check(0, Some(SampleAssertion("_1")), "sp"));
    SampleIsAccepted("_2");
    s, steps := Advance(s, steps, Check(1, Some(SampleAssertion("_2")), "sp"));
    s, steps := Advance(s, steps, Ensure(0));
    s, steps := Advance(s, steps, Ensure(1));
  }

  function SampleRequest(requestId: string): PendingSamlRequest {
    PendingSamlRequest(requestId, "acme", "https://app", 0, 600)
  }

  lemma TwoPostsTaken() returns (s: State, steps: seq<Step>)
    ensures s == Run(Start(0), steps)
    ensures s.now == 0 && s.tables.seen == map[] && s.records == []
    ensures s.posts == [Post("acme", SampleRequest("_1"), 0, 0, Taken), Post("acme", SampleRequest("_2"), 0, 0, Taken)]
  {
    s, steps := Start(0), [];
    s, steps := Advance(s, steps, StartLogin("acme", "https://app", "_1", 0, 0));
    assert s.logins == [Login(SampleRequest("_1"), 0)];
    s, steps := Advance(s, steps, StartLogin("acme", "https://app", "_2", 0, 0));
    assert s.tables.pending == map["_1" := SampleRequest("_1"), "_2" := SampleRequest("_2")];
    s, steps := Advance(s, steps, Take(Some("_1"), "_1", "acme", 0));
    s, steps := Advance(s, steps, Take(Some("_2"), "_2", "acme", 0));
  }

  lemma SampleIsAccepted(requestId: string)
    ensures CheckAssertion(Some(SampleAssertion(requestId)), requestId, "sp", 0) == Success(SampleAssertion(requestId))
    ensures EnsureUnexpired(Retention(SampleAssertion(requestId)), 0).Success?
  {
  }

  lemma Advance(s: State, steps: seq<Step>, step: Step) returns (s': State, steps': seq<Step>)
    requires s == Run(Start(0), steps)
    ensures s' == Exec(s, step) && steps' == steps + [step] && s' == Run(Start(0), steps')
  {
    s', steps' := Exec(s, step), steps + [step];
    RunConcat(Start(0), steps, [step]);
    assert [step][1..] == [];
  }
}
