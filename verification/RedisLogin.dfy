/** SP-initiated login over the Redis backend (server/src/saml/impls/redis.rs). What `SamlLogin` proves of
    its runs is proved of these, and where they differ it is said exactly when. */
module RedisLogin {
  import opened Wrappers
  import opened RequestStore
  import opened RedisKeys
  import opened RedisRequestStore
  import opened ResponseValidation
  import opened SamlAssertion
  import L = SamlLogin

  datatype State = State(
    now: int, keys: Keyspace, logins: seq<L.Login>, posts: seq<L.Post>, records: seq<L.Record>)

  /** All that is not in Redis. */
  function Beside(s: State): L.State {
    L.State(s.now, Tables(map[], map[]), s.logins, s.posts, s.records)
  }

  /** The time-to-live of a key counts from the command; its length comes from an earlier reading. The
      expiry of a taken request is checked at a reading made after GETDEL; the post keeps the instant
      of GETDEL. There is nothing to purge. */
  function Exec(s: State, step: L.Step): State {
    match step
    case Tick(nanos) => s.(now := s.now + nanos)
    case StartLogin(realmId, returnUrl, requestId, createdAt, checkedAt) =>
      if !(createdAt <= checkedAt <= s.now) then s
      else if exists l <- s.logins :: l.request.requestId == requestId then s
      else
        var request := L.NewRequest(realmId, returnUrl, requestId, createdAt);
        (match EnsureUnexpired(request.expiresAt, checkedAt)
         case Failure(_) => s
         case Success(ttl) =>
           s.(keys := SetEx(s.keys, KeyOf(request), Json(request), ttl, s.now),
              logins := s.logins + [L.Login(request, createdAt)]))
    case Purge(_, _, _) => s
    case Take(cookie, relayState, realmId, reading) =>
      var key := PendingKey(realmId, relayState);
      if reading < s.now || cookie != Some(relayState) || !Live(s.keys, key, s.now) then s
      else
        var s' := s.(keys := s.keys - {key});
        if s.keys[key].value.Json? && s.keys[key].value.request.expiresAt > Timestamp(reading)
        then s'.(posts := s.posts + [L.Post(realmId, s.keys[key].value.request, s.now, s.now, L.Taken)])
        else s'
    case Insert(post) =>
      if post >= |s.posts| || !s.posts[post].phase.Ensured? then s else
      var assertion, realmId := s.posts[post].phase.assertion, s.posts[post].realmId;
      var key := SeenKey(realmId, assertion.id);
      if Live(s.keys, key, s.now) then s.(posts := L.Move(Beside(s), post, L.Rejected).posts)
      else
        var ttl := Retention(assertion) - Timestamp(s.posts[post].phase.at);
        var s' := L.WithRecord(Beside(s), post);
        s.(keys := SetEx(s.keys, key, Marker, ttl, s.now), posts := s'.posts, records := s'.records)
    case _ => s.(posts := L.Exec(Beside(s), step).posts)
  }

  function Run(s: State, steps: seq<L.Step>): State
    decreases |steps|
  {
    if steps == [] then s else Run(Exec(s, steps[0]), steps[1..])
  }

  function Start(now: int): State {
    State(now, map[], [], [], [])
  }

  /** A login and a take whose readings are made as they run are the calls of the store: a login is one
      exactly when its request was stored, and a post begins exactly when one was taken. */
  lemma StepsAreCalls(s: State, login: L.Step, take: L.Step)
    requires login.StartLogin? && login.createdAt <= s.now == login.checkedAt
    requires forall l <- s.logins :: l.request.requestId != login.requestId
    requires take.Take? && take.reading == s.now && take.cookie == Some(take.relayState)
    ensures var request := L.NewRequest(login.realmId, login.returnUrl, login.requestId, login.createdAt);
            var (keys, r) := RedisStorePending(s.keys, request, s.now);
            Exec(s, login)
            == s.(keys := keys,
                  logins := s.logins + if r.Success? then [L.Login(request, login.createdAt)] else [])
    ensures var (keys, r) := RedisTakePending(s.keys, take.relayState, take.realmId, s.now);
            Exec(s, take)
            == s.(keys := keys,
                  posts := s.posts + if r.Success? && r.value.Some?
                                     then [L.Post(take.realmId, r.value.value, s.now, s.now, L.Taken)] else [])
  {
  }

  /** And so is a post that is recorded at the moment it was checked: its assertion is new exactly when
      the store says so. */
  lemma RecordIsACall(s: State, post: nat)
    requires post < |s.posts| && s.posts[post].phase.Validated?
    ensures var (a, realmId) := (s.posts[post].phase.assertion, s.posts[post].realmId);
            var (keys, r) := RedisRecordAssertion(s.keys, realmId, a.id, Retention(a), s.now);
            var s' := Exec(Exec(s, L.Ensure(post)), L.Insert(post));
            && s'.keys == keys && s'.logins == s.logins
            && s'.posts == s.posts[post := s.posts[post].(phase := if r == Success(true) then L.Recorded(a)
                                                                   else L.Rejected)]
            && s'.records == s.records + if r == Success(true) then [L.Record(post, realmId, a, s.now)] else []
  {
  }

  // ---- What every run keeps ----

  /** Pending requests sit under their own keys, come from logins and were not taken. */
  ghost predicate PendingFiled(s: State) {
    forall key <- s.keys | s.keys[key].value.Json? ::
      var q := s.keys[key].value.request;
      key == KeyOf(q) && L.FromLogin(Beside(s), q) && L.NotTaken(Beside(s), q.requestId)
  }

  /** A recorded id has a marker to the end of its retention at least. */
  ghost predicate MarkersRemember(s: State) {
    forall r <- s.records ::
      || s.now >= Retention(r.assertion) * NANOS_PER_SECOND
      || Holds(s.keys, MarkerKey((r.realmId, r.assertion.id)), Marker, Retention(r.assertion))
  }

  ghost predicate Inv(s: State) {
    L.Sound(Beside(s)) && PendingFiled(s) && MarkersRemember(s)
  }

  lemma FamiliesApart(realm: string, id: string)
    ensures forall pair :: MarkerKey(pair) != PendingKey(realm, id)
  {
    forall pair: (string, string) ensures MarkerKey(pair) != PendingKey(realm, id) {
      FamiliesAreDisjoint(realm, id, pair.0, pair.1);
    }
  }

  lemma MarkersAreInjective()
    ensures forall x, y :: MarkerKey(x) == MarkerKey(y) ==> x == y
  {
    forall x: (string, string), y: (string, string) | MarkerKey(x) == MarkerKey(y) ensures x == y {
      SeenKeyIsInjective(x.0, x.1, y.0, y.1);
    }
  }

  lemma LoginKeepsInv(s: State, step: L.Step)
    requires Inv(s) && step.StartLogin?
    ensures Inv(Exec(s, step))
  {
    var s' := Exec(s, step);
    if s' != s {
      var l := s'.logins[|s.logins|];
      L.LoginStaysSound(Beside(s), l);
      FamiliesApart(l.request.realmId, l.request.requestId);
      assert l in s'.logins && forall k <- s.logins :: k in s'.logins;
      forall p <- s.posts ensures p.request.requestId != step.requestId {
        assert L.PostOk(Beside(s), p);
      }
    }
  }

  lemma TakeKeepsInv(s: State, step: L.Step)
    requires Inv(s) && step.Take?
    ensures Inv(Exec(s, step))
  {
    var s' := Exec(s, step);
    FamiliesApart(step.realmId, step.relayState);
    if s'.posts != s.posts {
      var p := s'.posts[|s.posts|];
      assert L.FromLogin(Beside(s), p.request);
      L.TakeStaysSound(Beside(s), p);
      forall key <- s'.keys | s'.keys[key].value.Json?
        ensures s'.keys[key].value.request.requestId != p.request.requestId
      {
        OneKeyPerId(s, key, PendingKey(step.realmId, step.relayState));
      }
    }
  }

  lemma OneKeyPerId(s: State, a: string, b: string)
    requires PendingFiled(s) && L.LoginsOk(Beside(s)) && a in s.keys && b in s.keys
    requires s.keys[a].value.Json? && s.keys[b].value.Json?
    ensures s.keys[a].value.request.requestId == s.keys[b].value.request.requestId ==> a == b
  {
    var x :| x in s.logins && x.request == s.keys[a].value.request;
    var y :| y in s.logins && y.request == s.keys[b].value.request;
    var i :| 0 <= i < |s.logins| && s.logins[i] == x;
    var j :| 0 <= j < |s.logins| && s.logins[j] == y;
  }

  lemma InsertKeepsInv(s: State, step: L.Step)
    requires Inv(s) && step.Insert?
    ensures Inv(Exec(s, step))
  {
    if step.post < |s.posts| && s.posts[step.post].phase.Ensured? {
      var p := s.posts[step.post];
      assert L.PostOk(Beside(s), p);
      var key := MarkerKey((p.realmId, p.phase.assertion.id));
      if Live(s.keys, key, s.now) {
        L.MoveStaysSound(Beside(s), step.post, L.Rejected);
      } else {
        L.RecordStaysSound(Beside(s), step.post);
        NewMarkerRemembers(s, step);
      }
    }
  }

  lemma NewMarkerRemembers(s: State, step: L.Step)
    requires Inv(s) && step.Insert? && step.post < |s.posts| && s.posts[step.post].phase.Ensured?
    requires !Live(s.keys, MarkerKey((s.posts[step.post].realmId, s.posts[step.post].phase.assertion.id)), s.now)
    ensures PendingFiled(Exec(s, step)) && MarkersRemember(Exec(s, step))
  {
    var p := s.posts[step.post];
    var s' := Exec(s, step);
    assert L.PostOk(Beside(s), p);
    MarkersAreInjective();
    forall r <- s'.records
      ensures s'.now >= Retention(r.assertion) * NANOS_PER_SECOND
              || Holds(s'.keys, MarkerKey((r.realmId, r.assertion.id)), Marker, Retention(r.assertion))
    {
      if r !in s.records {
        assert r == s'.records[|s.records|];
      }
    }
  }

  lemma StepKeepsInv(s: State, step: L.Step)
    requires Inv(s)
    ensures Inv(Exec(s, step))
  {
    match step {
      case Tick(_) => L.StaysSound(Beside(s), Beside(Exec(s, step)));
      case StartLogin(_, _, _, _, _) => LoginKeepsInv(s, step);
      case Purge(_, _, _) =>
      case Take(_, _, _, _) => TakeKeepsInv(s, step);
      case Insert(_) => InsertKeepsInv(s, step);
      case _ =>
        L.PhaseStepStaysSound(Beside(s), step);
        assert Beside(Exec(s, step)) == L.Exec(Beside(s), step);
    }
  }

  lemma {:induction false} RunKeepsInv(s: State, steps: seq<L.Step>)
    requires Inv(s)
    ensures Inv(Run(s, steps))
    decreases |steps|
  {
    if steps != [] {
      StepKeepsInv(s, steps[0]);
      RunKeepsInv(Exec(s, steps[0]), steps[1..]);
    }
  }

  /** In every run over Redis sessions answer logins one to one, no assertion opens two sessions, and
      an id is recorded twice only after its retention, so never when inserts are in time. */
  lemma RedisSignInsAreSafe(start: int, steps: seq<L.Step>)
    ensures var s := Beside(Run(Start(start), steps));
            && L.SessionsAnswerLogins(s) && L.SessionsHaveOwnAssertions(s) && L.RepeatsAreLate(s)
            && (L.InsertsInTime(s) ==> L.AtMostOnce(s))
  {
    var s := Beside(Run(Start(start), steps));
    RunKeepsInv(Start(start), steps);
    L.SoundSessions(s);
    if L.InsertsInTime(s) {
      L.TimelyIsOnce(s);
    }
  }

  // ---- Exactly when a take reaches another realm ----

  /** The take finds a live, unexpired request that is confused with the realm and RelayState it names. */
  ghost predicate Confuses(s: State, step: L.Step) {
    && step.Take? && s.now <= step.reading && step.cookie == Some(step.relayState)
    && exists key <- s.keys ::
         && Live(s.keys, key, s.now) && s.keys[key].value.Json?
         && var q := s.keys[key].value.request;
            q.expiresAt > Timestamp(step.reading) && Confused(step.realmId, step.relayState, q.realmId, q.requestId)
  }

  ghost predicate NeverConfuses(s: State, steps: seq<L.Step>)
    decreases |steps|
  {
    steps == [] || (!Confuses(s, steps[0]) && NeverConfuses(Exec(s, steps[0]), steps[1..]))
  }

  lemma TakeReachesExactly(s: State, step: L.Step)
    requires PendingFiled(s) && step.Take?
    ensures L.OwnRealms(Beside(Exec(s, step))) <==> L.OwnRealms(Beside(s)) && !Confuses(s, step)
  {
    var key, s' := PendingKey(step.realmId, step.relayState), Exec(s, step);
    forall k <- s.keys | s.keys[k].value.Json?
      ensures var q := s.keys[k].value.request;
              k == key <==> (step.realmId == q.realmId && step.relayState == q.requestId)
                            || Confused(step.realmId, step.relayState, q.realmId, q.requestId)
    {
      var q := s.keys[k].value.request;
      PendingKeyCollision(step.realmId, step.relayState, q.realmId, q.requestId);
    }
    if s'.posts != s.posts {
      var p := s'.posts[|s.posts|];
      assert p in s'.posts && forall q <- s.posts :: q in s'.posts;
      assert Live(s.keys, key, s.now) && p.realmId == step.realmId && p.request == s.keys[key].value.request;
    }
  }

  lemma StepReachesExactly(s: State, step: L.Step)
    requires Inv(s)
    ensures L.OwnRealms(Beside(Exec(s, step))) <==> L.OwnRealms(Beside(s)) && !Confuses(s, step)
  {
    var s' := Exec(s, step);
    if step.Take? {
      TakeReachesExactly(s, step);
    } else {
      if step.Check? || step.Ensure? || step.Finish? {
        L.PhaseStepStaysSound(Beside(s), step);
      }
      assert L.SameRequests(Beside(s), Beside(s'));
      SameRealms(Beside(s), Beside(s'));
    }
  }

  lemma SameRealms(s: L.State, s': L.State)
    requires L.SameRequests(s, s')
    ensures L.OwnRealms(s) <==> L.OwnRealms(s')
  {
    assert forall i | 0 <= i < |s.posts| :: s.posts[i] in s.posts && s'.posts[i] in s'.posts;
  }

  lemma {:induction false} RunReachesExactly(s: State, steps: seq<L.Step>)
    requires Inv(s)
    ensures L.OwnRealms(Beside(Run(s, steps))) <==> L.OwnRealms(Beside(s)) && NeverConfuses(s, steps)
    decreases |steps|
  {
    if steps != [] {
      StepReachesExactly(s, steps[0]);
      StepKeepsInv(s, steps[0]);
      RunReachesExactly(Exec(s, steps[0]), steps[1..]);
    }
  }

  /** Every post takes a request of its own realm exactly in the runs in which no take finds a live,
      unexpired request that is confused with the realm and RelayState it names. */
  lemma PostsTakeTheirOwnRealmsExactlyWhen(start: int, steps: seq<L.Step>)
    ensures L.OwnRealms(Beside(Run(Start(start), steps))) <==> NeverConfuses(Start(start), steps)
  {
    RunReachesExactly(Start(start), steps);
  }

  // ---- Exactly when an id is recorded twice ----

  function KeyOfIdentity(x: L.Identity): string {
    MarkerKey((x.realmId, x.assertionId))
  }

  /** With this tick the marker of the id lapses. */
  predicate Lapses(s: State, step: L.Step, x: L.Identity) {
    && step.Tick? && Live(s.keys, KeyOfIdentity(x), s.now) && !Live(s.keys, KeyOfIdentity(x), s.now + step.nanos)
  }

  /** The step is the insert of a post that passed the expiry check, and there is no live marker. */
  predicate InsertsNew(s: State, step: L.Step, x: L.Identity) {
    && step.Insert? && step.post < |s.posts| && s.posts[step.post].phase.Ensured?
    && L.IdentityOf(s.posts[step.post].realmId, s.posts[step.post].phase.assertion) == x
    && !Live(s.keys, KeyOfIdentity(x), s.now)
  }

  predicate InsertsLater(s: State, steps: seq<L.Step>, x: L.Identity)
    decreases |steps|
  {
    steps != [] && (InsertsNew(s, steps[0], x) || InsertsLater(Exec(s, steps[0]), steps[1..], x))
  }

  /** After the id was recorded its marker lapses, and later a post that is still waiting for its insert
      inserts it. */
  predicate LapsesThenInserts(s: State, steps: seq<L.Step>, x: L.Identity)
    decreases |steps|
  {
    && steps != []
    && var s' := Exec(s, steps[0]);
       || (L.Count(s.records, x) > 0 && Lapses(s, steps[0], x) && InsertsLater(s', steps[1..], x))
       || LapsesThenInserts(s', steps[1..], x)
  }

  lemma CountStep(s: State, step: L.Step, x: L.Identity)
    requires Inv(s)
    ensures L.Count(Exec(s, step).records, x) == L.Count(s.records, x) + if InsertsNew(s, step, x) then 1 else 0
  {
    var s' := Exec(s, step);
    if s'.records != s.records {
      assert s'.records[..|s.records|] == s.records;
    }
  }

  lemma MarkerStands(s: State, step: L.Step, x: L.Identity)
    requires Inv(s)
    ensures InsertsNew(s, step, x) ==> Live(Exec(s, step).keys, KeyOfIdentity(x), Exec(s, step).now)
    ensures Live(s.keys, KeyOfIdentity(x), s.now) && !Lapses(s, step, x)
            ==> Live(Exec(s, step).keys, KeyOfIdentity(x), Exec(s, step).now)
  {
    match step {
      case StartLogin(realmId, _, requestId, _, _) => FamiliesApart(realmId, requestId);
      case Take(_, relayState, realmId, _) => FamiliesApart(realmId, relayState);
      case Insert(post) =>
        if post < |s.posts| && s.posts[post].phase.Ensured? {
          assert L.PostOk(Beside(s), s.posts[post]);
        }
      case _ =>
    }
  }

  lemma {:induction false} InsertsExactly(s: State, steps: seq<L.Step>, x: L.Identity)
    requires Inv(s)
    ensures L.Count(Run(s, steps).records, x) >= L.Count(s.records, x)
    ensures L.Count(Run(s, steps).records, x) > L.Count(s.records, x) <==> InsertsLater(s, steps, x)
    ensures LapsesThenInserts(s, steps, x) ==> InsertsLater(s, steps, x)
    decreases |steps|
  {
    if steps != [] {
      CountStep(s, steps[0], x);
      StepKeepsInv(s, steps[0]);
      InsertsExactly(Exec(s, steps[0]), steps[1..], x);
    }
  }

  lemma {:induction false} RecordedAgainExactly(s: State, steps: seq<L.Step>, x: L.Identity)
    requires Inv(s) && L.Count(s.records, x) > 0 && Live(s.keys, KeyOfIdentity(x), s.now)
    ensures L.Count(Run(s, steps).records, x) > L.Count(s.records, x) <==> LapsesThenInserts(s, steps, x)
    decreases |steps|
  {
    if steps != [] {
      var s' := Exec(s, steps[0]);
      CountStep(s, steps[0], x);
      MarkerStands(s, steps[0], x);
      StepKeepsInv(s, steps[0]);
      if Lapses(s, steps[0], x) {
        InsertsExactly(s', steps[1..], x);
      } else {
        RecordedAgainExactly(s', steps[1..], x);
      }
    }
  }

  lemma {:induction false} TwiceExactly(s: State, steps: seq<L.Step>, x: L.Identity)
    requires Inv(s) && L.Count(s.records, x) == 0
    ensures L.Count(Run(s, steps).records, x) >= 2 <==> LapsesThenInserts(s, steps, x)
    decreases |steps|
  {
    if steps != [] {
      CountStep(s, steps[0], x);
      MarkerStands(s, steps[0], x);
      StepKeepsInv(s, steps[0]);
      if InsertsNew(s, steps[0], x) {
        RecordedAgainExactly(Exec(s, steps[0]), steps[1..], x);
      } else {
        TwiceExactly(Exec(s, steps[0]), steps[1..], x);
      }
    }
  }

  /** Over Redis ids are recorded at most once, and open at most one session, exactly in the runs in
      which the marker of no recorded id lapses before a waiting insert of it. */
  lemma AtMostOnceExactlyWhen(start: int, steps: seq<L.Step>)
    ensures L.AtMostOnce(Beside(Run(Start(start), steps))) <==> forall x :: !LapsesThenInserts(Start(start), steps, x)
  {
    var s := Run(Start(start), steps);
    RunKeepsInv(Start(start), steps);
    L.OnceExactly(Beside(s));
    if x :| LapsesThenInserts(Start(start), steps, x) {
      TwiceExactly(Start(start), steps, x);
      assert L.Count(s.records, x) >= 2;
    } else {
      forall x ensures L.Count(s.records, x) < 2 {
        TwiceExactly(Start(start), steps, x);
      }
    }
  }

  lemma {:induction false} RunExtends(s: State, steps: seq<L.Step>, step: L.Step)
    ensures Run(s, steps + [step]) == Exec(Run(s, steps), step)
    decreases |steps|
  {
    if steps == [] {
      assert [step][1..] == [];
    } else {
      RunExtends(Exec(s, steps[0]), steps[1..], step);
      assert (steps + [step])[1..] == steps[1..] + [step];
    }
  }

  lemma Advance(s: State, steps: seq<L.Step>, step: L.Step) returns (s': State, steps': seq<L.Step>)
    requires s == Run(Start(0), steps)
    ensures s' == Exec(s, step) && steps' == steps + [step] && s' == Run(Start(0), steps')
  {
    s', steps' := Exec(s, step), steps + [step];
    RunExtends(Start(0), steps, step);
  }

  /** Two posts that passed the expiry check with one assertion id each. */
  lemma TwoPostsEnsured() returns (s: State, steps: seq<L.Step>)
    ensures s == Run(Start(0), steps) && s.now == 0 && s.records == [] && |s.posts| == 2
    ensures forall pair :: MarkerKey(pair) !in s.keys
    ensures s.posts[0].realmId == s.posts[1].realmId == "acme"
    ensures s.posts[0].phase == L.Ensured(L.SampleAssertion("_1"), 0)
    ensures s.posts[1].phase == L.Ensured(L.SampleAssertion("_2"), 0)
  {
    s, steps := TwoPostsTaken();
    L.SampleIsAccepted("_1");
    s, steps := Advance(s, steps, L.Check(0, Some(L.SampleAssertion("_1")), "sp"));
    L.SampleIsAccepted("_2");
    s, steps := Advance(s, steps, L.Check(1, Some(L.SampleAssertion("_2")), "sp"));
    s, steps := Advance(s, steps, L.Ensure(0));
    s, steps := Advance(s, steps, L.Ensure(1));
  }

  lemma TwoPostsTaken() returns (s: State, steps: seq<L.Step>)
    ensures s == Run(Start(0), steps) && s.now == 0 && s.records == []
    ensures forall pair :: MarkerKey(pair) !in s.keys
    ensures s.posts == [L.Post("acme", L.SampleRequest("_1"), 0, 0, L.Taken),
                        L.Post("acme", L.SampleRequest("_2"), 0, 0, L.Taken)]
  {
    var first, second := PendingKey("acme", "_1"), PendingKey("acme", "_2");
    FamiliesApart("acme", "_1");
    FamiliesApart("acme", "_2");
    assert first != second by {
      assert first[|first| - 1] == '1' && second[|second| - 1] == '2';
    }
    s, steps := Start(0), [];
    s, steps := Advance(s, steps, L.StartLogin("acme", "https://app", "_1", 0, 0));
    assert s.logins == [L.Login(L.SampleRequest("_1"), 0)];
    s, steps := Advance(s, steps, L.StartLogin("acme", "https://app", "_2", 0, 0));
    assert s.keys.Keys == {first, second};
    s, steps := Advance(s, steps, L.Take(Some("_1"), "_1", "acme", 0));
    s, steps := Advance(s, steps, L.Take(Some("_2"), "_2", "acme", 0));
  }

  /** Such runs exist over Redis as well: the insert comes when the marker of the first has lapsed. */
  lemma LateInsertRecordsTwice() returns (steps: seq<L.Step>)
    ensures var s := Run(Start(0), steps);
            |s.records| == 2 && L.SameId(s.records[0], s.records[1])
  {
    var s;
    s, steps := TwoPostsEnsured();
    var key := MarkerKey(("acme", "id"));
    assert key !in s.keys;
    s, steps := Advance(s, steps, L.Insert(0));
    assert Retention(L.SampleAssertion("_1")) == 301 && s.keys[key] == Entry(Marker, 301 * NANOS_PER_SECOND);
    s, steps := Advance(s, steps, L.Tick(301 * NANOS_PER_SECOND));
    assert !Live(s.keys, key, s.now);
    s, steps := Advance(s, steps, L.Insert(1));
  }

  // ---- The simulation ----

  ghost predicate PendingRelated(pending: map<string, PendingSamlRequest>, keys: Keyspace) {
    forall key <- keys | keys[key].value.Json? ::
      var q := keys[key].value.request;
      key == KeyOf(q) && q.requestId in pending && pending[q.requestId] == q
  }

  /** A marker is a row that it outlives; a row without a live marker has expired. */
  ghost predicate SeenRelated(seen: map<(string, string), int>, keys: Keyspace, now: int) {
    && (forall pair | MarkerKey(pair) in keys ::
          pair in seen && Holds(keys, MarkerKey(pair), Marker, seen[pair]))
    && (forall pair <- seen :: Live(keys, MarkerKey(pair), now) || seen[pair] <= Timestamp(now))
  }

  ghost predicate Related(a: L.State, s: State) {
    && a == Beside(s).(tables := a.tables)
    && PendingRelated(a.tables.pending, s.keys) && SeenRelated(a.tables.seen, s.keys, s.now)
  }

  lemma LoginSimulated(a: L.State, s: State, step: L.Step)
    requires L.Inv(a) && Related(a, s) && step.StartLogin?
    ensures Related(L.Exec(a, step), Exec(s, step))
  {
    var request := L.NewRequest(step.realmId, step.returnUrl, step.requestId, step.createdAt);
    FamiliesApart(request.realmId, request.requestId);
    if !(exists l <- s.logins :: l.request.requestId == step.requestId) {
      assert step.requestId !in a.tables.pending by {
        assert step.requestId in a.tables.pending ==> L.FromLogin(a, a.tables.pending[step.requestId]);
      }
    }
  }

  lemma TakeSimulated(a: L.State, s: State, step: L.Step) returns (steps: seq<L.Step>)
    requires L.Inv(a) && Related(a, s) && step.Take? && !Confuses(s, step)
    ensures Related(L.Run(a, steps), Exec(s, step))
  {
    var key := PendingKey(step.realmId, step.relayState);
    FamiliesApart(step.realmId, step.relayState);
    steps := [];
    if Exec(s, step).posts != s.posts {
      var q := s.keys[key].value.request;
      assert L.FromLogin(a, q);
      PendingKeyCollision(step.realmId, step.relayState, q.realmId, q.requestId);
      steps := [L.Take(step.cookie, step.relayState, step.realmId, s.now)];
      RunOfOne(a, steps[0]);
    }
  }

  lemma RunOfOne(a: L.State, step: L.Step)
    ensures L.Run(a, [step]) == L.Exec(a, step)
  {
    assert [step][1..] == [];
  }

  lemma RunOfTwo(a: L.State, first: L.Step, second: L.Step)
    ensures L.Run(a, [first, second]) == L.Exec(L.Exec(a, first), second)
  {
    assert [first, second] == [first] + [second];
    L.RunConcat(a, [first], [second]);
    RunOfOne(a, first);
    RunOfOne(L.Exec(a, first), second);
  }

  lemma InsertSimulated(a: L.State, s: State, step: L.Step) returns (steps: seq<L.Step>)
    requires L.Inv(a) && Related(a, s) && step.Insert?
    ensures Related(L.Run(a, steps), Exec(s, step))
  {
    if step.post >= |s.posts| || !s.posts[step.post].phase.Ensured? {
      steps := [];
    } else {
      var p := s.posts[step.post];
      var pair := (p.realmId, p.phase.assertion.id);
      if Live(s.keys, MarkerKey(pair), s.now) {
        steps := [step];
        RunOfOne(a, step);
      } else {
        var forget := L.Purge(s.now, {}, {pair});
        steps := [forget, step];
        RunOfTwo(a, forget, step);
        FreshInsertSimulated(a, s, step, pair);
      }
    }
  }

  lemma FreshInsertSimulated(a: L.State, s: State, step: L.Step, pair: (string, string))
    requires L.Inv(a) && Related(a, s) && step.Insert? && step.post < |s.posts| && s.posts[step.post].phase.Ensured?
    requires pair == (s.posts[step.post].realmId, s.posts[step.post].phase.assertion.id)
    requires !Live(s.keys, MarkerKey(pair), s.now)
    ensures Related(L.Exec(L.Exec(a, L.Purge(s.now, {}, {pair})), step), Exec(s, step))
  {
    var p := s.posts[step.post];
    assert L.PostOk(a, p);
    ForgottenRelated(a, s, pair);
    InsertIntoEmptyPlace(L.Exec(a, L.Purge(s.now, {}, {pair})), s, step, pair);
  }

  /** `keys` holds the markers of `seen`, but for `pair`. */
  ghost predicate OthersRelated(seen: map<(string, string), int>, keys: Keyspace, pair: (string, string), now: int) {
    && pair !in seen
    && (forall other | other != pair && MarkerKey(other) in keys ::
          other in seen && Holds(keys, MarkerKey(other), Marker, seen[other]))
    && (forall other <- seen :: Live(keys, MarkerKey(other), now) || seen[other] <= Timestamp(now))
  }

  lemma ForgottenRelated(a: L.State, s: State, pair: (string, string))
    requires Related(a, s) && !Live(s.keys, MarkerKey(pair), s.now)
    ensures var a' := L.Exec(a, L.Purge(s.now, {}, {pair}));
            && a' == a.(tables := Tables(a.tables.pending, a.tables.seen - {pair}))
            && OthersRelated(a'.tables.seen, s.keys, pair, s.now)
  {
    MarkersAreInjective();
  }

  lemma InsertIntoEmptyPlace(a: L.State, s: State, step: L.Step, pair: (string, string))
    requires a == Beside(s).(tables := a.tables) && PendingRelated(a.tables.pending, s.keys)
    requires OthersRelated(a.tables.seen, s.keys, pair, s.now) && !Live(s.keys, MarkerKey(pair), s.now)
    requires step.Insert? && step.post < |s.posts| && s.posts[step.post].phase.Ensured?
    requires pair == (s.posts[step.post].realmId, s.posts[step.post].phase.assertion.id)
    requires var phase := s.posts[step.post].phase;
             phase.at <= s.now && EnsureUnexpired(Retention(phase.assertion), phase.at).Success?
    ensures Related(L.Exec(a, step), Exec(s, step))
  {
    var phase := s.posts[step.post].phase;
    var keys' := SetEx(s.keys, MarkerKey(pair), Marker, Retention(phase.assertion) - Timestamp(phase.at), s.now);
    NewMarker(a.tables.seen, s.keys, pair, phase.assertion, phase.at, s.now);
    assert Exec(s, step).keys == keys';
    assert PendingRelated(a.tables.pending, keys');
  }

  lemma NewMarker(seen: map<(string, string), int>, keys: Keyspace, pair: (string, string), assertion: Assertion,
                  at: int, now: int)
    requires OthersRelated(seen, keys, pair, now)
    requires at <= now && EnsureUnexpired(Retention(assertion), at).Success?
    ensures SeenRelated(seen[pair := Retention(assertion)],
                        SetEx(keys, MarkerKey(pair), Marker, Retention(assertion) - Timestamp(at), now), now)
  {
    MarkersAreInjective();
  }

  lemma TickSimulated(a: L.State, s: State, step: L.Step)
    requires Related(a, s) && step.Tick?
    ensures Related(L.Exec(a, step), Exec(s, step))
  {
    forall pair <- a.tables.seen
      ensures Live(s.keys, MarkerKey(pair), s.now + step.nanos) || a.tables.seen[pair] <= Timestamp(s.now + step.nanos)
    {
      assert MarkerKey(pair) in s.keys ==> Holds(s.keys, MarkerKey(pair), Marker, a.tables.seen[pair]);
    }
  }

  lemma StepSimulated(a: L.State, s: State, step: L.Step) returns (steps: seq<L.Step>)
    requires L.Inv(a) && Related(a, s) && !Confuses(s, step)
    ensures Related(L.Run(a, steps), Exec(s, step))
  {
    if step.Take? {
      steps := TakeSimulated(a, s, step);
    } else if step.Insert? {
      steps := InsertSimulated(a, s, step);
    } else if step.Purge? {
      steps := [];
    } else {
      steps := [step];
      RunOfOne(a, step);
      if step.StartLogin? {
        LoginSimulated(a, s, step);
      } else if step.Tick? {
        TickSimulated(a, s, step);
      }
    }
  }

  lemma {:induction false} RunSimulated(a: L.State, s: State, steps: seq<L.Step>) returns (steps': seq<L.Step>)
    requires L.Inv(a) && Related(a, s) && NeverConfuses(s, steps)
    ensures Related(L.Run(a, steps'), Run(s, steps))
    decreases |steps|
  {
    steps' := [];
    if steps != [] {
      var first := StepSimulated(a, s, steps[0]);
      L.RunKeepsInv(a, first);
      var rest := RunSimulated(L.Run(a, first), Exec(s, steps[0]), steps[1..]);
      steps' := first + rest;
      L.RunConcat(a, first, rest);
    }
  }

  /** The runs over Redis that have the logins, posts and records of a run over the SQL tables are exactly
      those in which no take reaches another realm. */
  lemma RedisRunsAreRunsExactlyWhen(start: int, steps: seq<L.Step>)
    ensures (exists steps' :: Beside(Run(Start(start), steps)) == Untabled(L.Run(L.Start(start), steps')))
            <==> NeverConfuses(Start(start), steps)
  {
    var s := Beside(Run(Start(start), steps));
    if NeverConfuses(Start(start), steps) {
      var steps' := RunSimulated(L.Start(start), Start(start), steps);
      assert s == Untabled(L.Run(L.Start(start), steps'));
    }
    if steps' :| s == Untabled(L.Run(L.Start(start), steps')) {
      L.RunKeepsInv(L.Start(start), steps');
      SamePostsOwnRealms(L.Run(L.Start(start), steps'), s);
      PostsTakeTheirOwnRealmsExactlyWhen(start, steps);
    }
  }

  lemma SamePostsOwnRealms(a: L.State, s: L.State)
    requires L.OwnRealms(a) && a.posts == s.posts
    ensures L.OwnRealms(s)
  {
  }

  function Untabled(s: L.State): L.State {
    s.(tables := Tables(map[], map[]))
  }
}
