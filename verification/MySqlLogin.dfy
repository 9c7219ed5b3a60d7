/** SP-initiated login over the MySQL backend (server/src/saml/impls/mysql.rs), whose takes are
    transactions that interleave with everything else. Every run of it is a run of `SamlLogin`. */
module MySqlLogin {
  import opened Wrappers
  import opened RequestStore
  import M = MySqlRequestStore
  import L = SamlLogin

  datatype State = State(
    now: int, db: M.State, seen: map<(string, string), int>, logins: seq<L.Login>, posts: seq<L.Post>,
    records: seq<L.Record>)

  datatype Step =
    | BeginTake(cookie: Option<string>, tx: nat, call: M.TakeCall)
    | Statement(statement: M.Step)
    | StartLogin(realmId: string, returnUrl: string, requestId: string, createdAt: int, checkedAt: int)
    | PurgeRequests(reading: int)
    | Other(step: L.Step)

  /** The state with the committed rows. */
  function Committed(s: State): L.State {
    L.State(s.now, Tables(s.db.table, s.seen), s.logins, s.posts, s.records)
  }

  function WithRest(s: State, rest: L.State): State {
    s.(now := rest.now, seen := rest.tables.seen, logins := rest.logins, posts := rest.posts, records := rest.records)
  }

  /** A take hands its request out when its transaction commits. A statement that has to wait for a
      lock does nothing yet. */
  function Exec(s: State, step: Step): State {
    match step
    case BeginTake(cookie, tx, call) =>
      if call.at > s.now || cookie != Some(call.requestId) then s else s.(db := M.Exec(s.db, M.Begin(tx, call)))
    case Statement(statement) =>
      (match statement
       case Commit(tx) =>
         var s' := s.(db := M.Exec(s.db, statement));
         if tx in s.db.transactions && s.db.transactions[tx].Deleted? then
           var t := s.db.transactions[tx];
           s'.(posts := s.posts + [L.Post(t.call.realmId, t.row, t.call.at, s.now, L.Taken)])
         else s'
       case Select(_) => s.(db := M.Exec(s.db, statement))
       case Delete(_) => s.(db := M.Exec(s.db, statement))
       case Abort(_) => s.(db := M.Exec(s.db, statement))
       case _ => s)
    case StartLogin(realmId, returnUrl, requestId, createdAt, checkedAt) =>
      if !(createdAt <= checkedAt <= s.now) || requestId in s.db.locks then s
      else if exists l <- s.logins :: l.request.requestId == requestId then s
      else
        var request := L.NewRequest(realmId, returnUrl, requestId, createdAt);
        var s' := s.(db := M.Exec(s.db, M.Insert(request, checkedAt)));
        if StorePending(M.AsTables(s.db.table), request, checkedAt).1.Failure? then s'
        else s'.(logins := s.logins + [L.Login(request, createdAt)])
    case PurgeRequests(reading) =>
      if reading > s.now then s else s.(db := M.Exec(s.db, M.DeleteExpiredRows(reading)))
    case Other(other) =>
      if other.StartLogin? || other.Take? || (other.Purge? && other.requests != {}) then s
      else WithRest(s, L.Exec(Committed(s), other))
  }

  function Run(s: State, steps: seq<Step>): State
    decreases |steps|
  {
    if steps == [] then s else Run(Exec(s, steps[0]), steps[1..])
  }

  function Start(now: int): State {
    State(now, M.Start(map[]), map[], [], [], [])
  }

  /** The transactions that go on read the clock before now. */
  ghost predicate CallsOk(db: M.State, now: int) {
    forall tx <- db.transactions | Open(db.transactions[tx]) :: db.transactions[tx].call.at <= now
  }

  predicate Open(t: M.Transaction) {
    t.Begun? || t.Selected? || t.Deleted?
  }

  ghost predicate Inv(s: State) {
    M.Inv(M.Start(map[]), s.db) && CallsOk(s.db, s.now)
  }

  lemma StatementKeepsInv(s: State, s': State, statement: M.Step)
    requires Inv(s) && s.now <= s'.now && (statement.Begin? ==> statement.call.at <= s.now)
    requires s'.db == s.db || s'.db == M.Exec(s.db, statement)
    ensures Inv(s')
  {
    M.StepKeepsInv(M.Start(map[]), s.db, statement);
    OpenCallsStay(s.db, s.now, statement);
  }

  lemma OpenCallsStay(db: M.State, now: int, statement: M.Step)
    requires CallsOk(db, now) && (statement.Begin? ==> statement.call.at <= now)
    ensures CallsOk(M.Exec(db, statement), now)
  {
  }

  lemma StepKeepsInv(s: State, step: Step)
    requires Inv(s)
    ensures Inv(Exec(s, step))
  {
    var s' := Exec(s, step);
    if s'.db == s.db {
      assert s.now <= s'.now;
    } else {
      match step {
        case BeginTake(_, tx, call) => StatementKeepsInv(s, s', M.Begin(tx, call));
        case Statement(statement) => StatementKeepsInv(s, s', statement);
        case StartLogin(realmId, returnUrl, requestId, createdAt, checkedAt) =>
          StatementKeepsInv(s, s', M.Insert(L.NewRequest(realmId, returnUrl, requestId, createdAt), checkedAt));
        case PurgeRequests(reading) => StatementKeepsInv(s, s', M.DeleteExpiredRows(reading));
      }
    }
  }

  lemma RunOfOne(a: L.State, step: L.Step)
    ensures L.Run(a, [step]) == L.Exec(a, step)
  {
    assert [step][1..] == [];
  }

  /** A commit is the atomic take, at the clock reading with which its transaction began. */
  lemma CommitIsTake(s: State, tx: nat)
    requires Inv(s) && tx in s.db.transactions && s.db.transactions[tx].Deleted?
    ensures var call := s.db.transactions[tx].call;
            L.Exec(Committed(s), L.Take(Some(call.requestId), call.requestId, call.realmId, call.at))
            == Committed(Exec(s, Statement(M.Commit(tx))))
  {
    assert M.TransactionOk(s.db, tx);
  }

  lemma OtherStatementsCommitNothing(s: State, statement: M.Step)
    requires !(statement.Commit? && statement.tx in s.db.transactions && s.db.transactions[statement.tx].Deleted?)
    ensures Committed(Exec(s, Statement(statement))) == Committed(s)
  {
  }

  lemma LoginSimulated(s: State, step: Step)
    requires step.StartLogin? && Exec(s, step) != s
    ensures var login := L.StartLogin(step.realmId, step.returnUrl, step.requestId, step.createdAt, step.checkedAt);
            L.Exec(Committed(s), login) == Committed(Exec(s, step))
  {
  }

  lemma OtherSimulated(s: State, step: Step)
    requires step.Other? && Exec(s, step) != s
    ensures L.Exec(Committed(s), step.step) == Committed(Exec(s, step))
  {
    assert L.Exec(Committed(s), step.step).tables.pending == s.db.table;
  }

  lemma StepSimulated(s: State, step: Step) returns (steps: seq<L.Step>)
    requires Inv(s)
    ensures L.Run(Committed(s), steps) == Committed(Exec(s, step))
  {
    steps := [];
    match step {
      case BeginTake(_, _, _) =>
      case Statement(statement) =>
        if && statement.Commit? && statement.tx in s.db.transactions
           && s.db.transactions[statement.tx].Deleted? {
          var call := s.db.transactions[statement.tx].call;
          CommitIsTake(s, statement.tx);
          steps := [L.Take(Some(call.requestId), call.requestId, call.realmId, call.at)];
        } else {
          OtherStatementsCommitNothing(s, statement);
        }
      case StartLogin(realmId, returnUrl, requestId, createdAt, checkedAt) =>
        if Exec(s, step) != s {
          LoginSimulated(s, step);
          steps := [L.StartLogin(realmId, returnUrl, requestId, createdAt, checkedAt)];
        }
      case PurgeRequests(reading) =>
        if Exec(s, step) != s {
          PurgeSimulated(s, reading);
          steps := [L.Purge(reading, s.db.table.Keys, {})];
        }
      case Other(other) =>
        if Exec(s, step) != s {
          OtherSimulated(s, step);
          steps := [other];
        }
    }
    if steps != [] {
      RunOfOne(Committed(s), steps[0]);
    }
  }

  lemma PurgeSimulated(s: State, reading: int)
    requires reading <= s.now && Exec(s, PurgeRequests(reading)) != s
    ensures L.Exec(Committed(s), L.Purge(reading, s.db.table.Keys, {})) == Committed(Exec(s, PurgeRequests(reading)))
  {
    assert L.Forgotten(Tables(s.db.table, s.seen), reading, s.db.table.Keys, {})
           == Tables(DeleteExpired(M.AsTables(s.db.table), reading).pending, s.seen);
  }

  lemma {:induction false} RunSimulated(s: State, steps: seq<Step>) returns (steps': seq<L.Step>)
    requires Inv(s)
    ensures L.Run(Committed(s), steps') == Committed(Run(s, steps))
    decreases |steps|
  {
    steps' := [];
    if steps != [] {
      var first := StepSimulated(s, steps[0]);
      StepKeepsInv(s, steps[0]);
      var rest := RunSimulated(Exec(s, steps[0]), steps[1..]);
      steps' := first + rest;
      L.RunConcat(Committed(s), first, rest);
    }
  }

  /** However the transactions of takes interleave with logins, purges and posts, the committed state,
      the logins, the posts and the records are those of a run with atomic takes. */
  lemma MySqlRunsAreRuns(start: int, steps: seq<Step>) returns (steps': seq<L.Step>)
    ensures L.Run(L.Start(start), steps') == Committed(Run(Start(start), steps))
  {
    steps' := RunSimulated(Start(start), steps);
  }

  // ---- Nothing is lost ----

  /** Every purge of pending requests is a whole one. */
  ghost predicate PurgesWhole(a: L.State, steps: seq<L.Step>)
    decreases |steps|
  {
    steps == []
    || (&& (steps[0].Purge? ==> steps[0].requests == {} || a.tables.pending.Keys <= steps[0].requests)
        && PurgesWhole(L.Exec(a, steps[0]), steps[1..]))
  }

  lemma {:induction false} FreshNumber(used: set<nat>) returns (n: nat)
    ensures forall m <- used :: m < n
    decreases |used|
  {
    n := 0;
    if used != {} {
      var m :| m in used;
      var rest := FreshNumber(used - {m});
      n := if m < rest then rest else m + 1;
      assert forall k <- used :: k == m || k in used - {m};
    }
  }

  lemma RunOfFour(s: State, a: Step, b: Step, c: Step, d: Step)
    ensures Run(s, [a, b, c, d]) == Exec(Exec(Exec(Exec(s, a), b), c), d)
  {
    hide Exec;
    var s1 := Exec(s, a);
    var s2 := Exec(s1, b);
    var s3 := Exec(s2, c);
    assert [a, b, c, d][1..] == [b, c, d] && [b, c, d][1..] == [c, d] && [c, d][1..] == [d] && [d][1..] == [];
    assert Run(s3, [d]) == Exec(s3, d);
    assert Run(s2, [c, d]) == Run(s3, [d]);
    assert Run(s1, [b, c, d]) == Run(s2, [c, d]);
  }

  lemma {:induction false} RunConcat(s: State, a: seq<Step>, b: seq<Step>)
    ensures Run(s, a + b) == Run(Run(s, a), b)
    decreases |a|
  {
    if a == [] {
      assert a + b == b;
    } else {
      assert (a + b)[0] == a[0] && (a + b)[1..] == a[1..] + b;
      RunConcat(Exec(s, a[0]), a[1..], b);
    }
  }

  /** No lock is held, as between transactions. */
  predicate Idle(s: State) {
    s.db.locks == map[]
  }

  lemma TakeIsATransaction(s: State, take: L.Step) returns (steps: seq<Step>)
    requires Idle(s) && take.Take?
    ensures Idle(Run(s, steps)) && Committed(Run(s, steps)) == L.Exec(Committed(s), take)
  {
    if take.reading > s.now || take.cookie != Some(take.relayState) {
      steps := [];
    } else {
      var tx := FreshNumber(s.db.transactions.Keys);
      var call := M.TakeCall(take.relayState, take.realmId, take.reading);
      steps := [BeginTake(take.cookie, tx, call), Statement(M.Select(tx)), Statement(M.Delete(tx)),
                Statement(M.Commit(tx))];
      RunOfFour(s, steps[0], steps[1], steps[2], steps[3]);
      M.UnhinderedTakeCommits(s.db, tx, call);
      TransactionTakes(s, take, tx, call);
    }
  }

  lemma TransactionTakes(s: State, take: L.Step, tx: nat, call: M.TakeCall)
    requires Idle(s) && take.Take? && take.reading <= s.now && take.cookie == Some(take.relayState)
    requires tx !in s.db.transactions && call == M.TakeCall(take.relayState, take.realmId, take.reading)
    ensures var s' := Exec(Exec(Exec(Exec(s, BeginTake(take.cookie, tx, call)), Statement(M.Select(tx))),
                                Statement(M.Delete(tx))), Statement(M.Commit(tx)));
            Idle(s') && Committed(s') == L.Exec(Committed(s), take)
  {
    M.UnhinderedTakeCommits(s.db, tx, call);
  }

  lemma StepIsStatements(s: State, step: L.Step) returns (steps: seq<Step>)
    requires Idle(s) && (step.Purge? ==> step.requests == {} || s.db.table.Keys <= step.requests)
    ensures Idle(Run(s, steps)) && Committed(Run(s, steps)) == L.Exec(Committed(s), step)
  {
    match step {
      case Take(_, _, _, _) =>
        steps := TakeIsATransaction(s, step);
      case StartLogin(realmId, returnUrl, requestId, createdAt, checkedAt) =>
        steps := [StartLogin(realmId, returnUrl, requestId, createdAt, checkedAt)];
        assert steps[1..] == [];
      case Purge(reading, requests, ids) =>
        steps := PurgeIsTwoStatements(s, reading, requests, ids);
      case _ =>
        steps := [Other(step)];
        assert steps[1..] == [];
    }
  }

  lemma PurgeIsTwoStatements(s: State, reading: int, requests: set<string>, ids: set<(string, string)>)
    returns (steps: seq<Step>)
    requires Idle(s) && (requests == {} || s.db.table.Keys <= requests)
    ensures Idle(Run(s, steps)) && Committed(Run(s, steps)) == L.Exec(Committed(s), L.Purge(reading, requests, ids))
  {
    var other := Other(L.Purge(reading, {}, ids));
    if requests == {} {
      steps := [other];
      assert steps[1..] == [];
    } else {
      steps := [PurgeRequests(reading), other];
      assert steps[1..] == [other] && [other][1..] == [];
      var s1 := Exec(s, PurgeRequests(reading));
      assert Run(s1, [other]) == Exec(s1, other);
      assert reading <= s.now ==> s1.db.table == DeleteExpired(M.AsTables(s.db.table), reading).pending;
    }
  }

  lemma {:induction false} RunIsStatements(s: State, steps: seq<L.Step>) returns (steps': seq<Step>)
    requires Idle(s) && PurgesWhole(Committed(s), steps)
    ensures Idle(Run(s, steps')) && Committed(Run(s, steps')) == L.Run(Committed(s), steps)
    decreases |steps|
  {
    steps' := [];
    if steps != [] {
      var first := StepIsStatements(s, steps[0]);
      var rest := RunIsStatements(Run(s, first), steps[1..]);
      steps' := first + rest;
      RunConcat(s, first, rest);
    }
  }

  /** And every run with atomic takes and whole purges is one of MySQL. */
  lemma RunsAreMySqlRuns(start: int, steps: seq<L.Step>) returns (steps': seq<Step>)
    requires PurgesWhole(L.Start(start), steps)
    ensures Committed(Run(Start(start), steps')) == L.Run(L.Start(start), steps)
  {
    steps' := RunIsStatements(Start(start), steps);
  }

  /** So the whole-run theorems hold over MySQL. */
  lemma MySqlSignInsAreSafe(start: int, steps: seq<Step>)
    ensures var s := Committed(Run(Start(start), steps));
            && L.SessionsAnswerLogins(s) && L.OwnRealms(s) && L.SessionsHaveOwnAssertions(s) && L.RepeatsAreLate(s)
            && (L.InsertsInTime(s) ==> L.AtMostOnce(s))
  {
    var steps' := MySqlRunsAreRuns(start, steps);
    L.SessionsMapInjectivelyToLogins(start, steps');
    L.NoAssertionOpensTwoSessions(start, steps');
    L.RecordedTwiceOnlyAfterRetention(start, steps');
    if L.InsertsInTime(Committed(Run(Start(start), steps))) {
      L.RecordedAtMostOnce(start, steps');
    }
  }
}
