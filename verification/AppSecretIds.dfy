/** AppRole secret ids and their limited uses (`consume_secret_id` and its neighbours in
    server/src/database/impls/sqlite.rs, postgres.rs and mysql.rs), under any number of concurrent
    transactions. PostgreSQL and MySQL lock the row they select (SELECT ... FOR UPDATE); SQLite opens
    the transaction with BEGIN IMMEDIATE, which locks out every other writer. */
module AppSecretIds {
  import opened Wrappers

  /** A row of `app_secret_ids`; its key is the accessor. `expiry` 0 means none. */
  datatype Secret = Secret(hash: string, roleName: string, expiry: int, uses: int)

  datatype Engine = RowLocks | GlobalLock

  /** The arguments of a consume and the clock reading, in seconds, it makes first. */
  datatype ConsumeCall = ConsumeCall(roleName: string, hash: string, at: int)

  datatype Transaction =
    | Begun(call: ConsumeCall)
    | Selected(call: ConsumeCall, accessor: string, row: Secret)
    | Written(call: ConsumeCall, accessor: string, row: Secret)
    | Ended(answer: Option<string>)

  datatype Event =
    | Created(accessor: string, secret: Secret)
    | Consumed(accessor: string, tx: nat, call: ConsumeCall)
    | Gone(accessors: set<string>)

  datatype State = State(
    engine: Engine,
    now: int,
    roles: set<string>,
    rows: map<string, Secret>,
    transactions: map<nat, Transaction>,
    history: seq<Event>)

  datatype Step =
    | Tick(seconds: nat)
    | Begin(tx: nat, call: ConsumeCall)
    | Select(tx: nat, accessor: string)
    | Write(tx: nat)
    | Commit(tx: nat)
    | Abort(tx: nat)
    | CreateRole(name: string)
    | DeleteRole(name: string)
    | CreateSecret(accessor: string, secret: Secret)
    | Destroy(roleName: string, accessor: string)

  /** The WHERE clause of the select. */
  predicate Usable(row: Secret, call: ConsumeCall) {
    row.roleName == call.roleName && row.hash == call.hash && (row.expiry == 0 || row.expiry > call.at)
  }

  /** The delete or update of a consume, on the row as it is when the statement runs; the choice
      between them was made on the row as it was read. */
  function Used(rows: map<string, Secret>, accessor: string, read: Secret): map<string, Secret> {
    if accessor !in rows then rows
    else if read.uses == 1 then rows - {accessor}
    else if read.uses > 1 then rows[accessor := rows[accessor].(uses := rows[accessor].uses - 1)]
    else rows
  }

  predicate Holds(t: Transaction, accessor: string) {
    (t.Selected? || t.Written?) && t.accessor == accessor
  }

  predicate Open(t: Transaction) {
    t.Begun? || t.Selected? || t.Written?
  }

  /** Another statement that writes these rows has to wait. */
  predicate Blocked(s: State, accessors: set<string>) {
    match s.engine
    case GlobalLock => exists tx <- s.transactions :: Open(s.transactions[tx])
    case RowLocks => exists tx <- s.transactions, a <- accessors :: Holds(s.transactions[tx], a)
  }

  function OfRole(rows: map<string, Secret>, name: string): set<string> {
    set a | a in rows && rows[a].roleName == name
  }

  function Exec(s: State, step: Step): State {
    match step
    case Tick(seconds) => s.(now := s.now + seconds)
    case Begin(tx, call) =>
      if tx in s.transactions || call.at > s.now then s
      else if s.engine == GlobalLock && Blocked(s, {}) then s
      else s.(transactions := s.transactions[tx := Begun(call)])
    case Select(tx, accessor) =>
      if tx !in s.transactions || !s.transactions[tx].Begun? then s else
      var call := s.transactions[tx].call;
      if !exists a <- s.rows :: Usable(s.rows[a], call) then s.(transactions := s.transactions[tx := Ended(None)])
      else if accessor !in s.rows || !Usable(s.rows[accessor], call) then s
      else if s.engine == RowLocks && Blocked(s, {accessor}) then s
      else s.(transactions := s.transactions[tx := Selected(call, accessor, s.rows[accessor])])
    case Write(tx) =>
      if tx !in s.transactions || !s.transactions[tx].Selected? then s else
      var t := s.transactions[tx];
      s.(transactions := s.transactions[tx := Written(t.call, t.accessor, t.row)])
    case Commit(tx) =>
      if tx !in s.transactions || !s.transactions[tx].Written? then s else
      var t := s.transactions[tx];
      if s.engine == GlobalLock && t.accessor !in s.rows && t.row.uses >= 1 then
        // No row affected: SQLite rolls back; the other backends do not look.
        s.(transactions := s.transactions[tx := Ended(None)])
      else
        s.(rows := Used(s.rows, t.accessor, t.row),
           transactions := s.transactions[tx := Ended(Some(t.accessor))],
           history := s.history + [Consumed(t.accessor, tx, t.call)])
    case Abort(tx) =>
      if tx !in s.transactions || !Open(s.transactions[tx]) then s
      else s.(transactions := s.transactions[tx := Ended(None)])
    case CreateRole(name) =>
      if Blocked(s, {}) then s else s.(roles := s.roles + {name})
    case DeleteRole(name) =>
      var lost := OfRole(s.rows, name);
      if Blocked(s, lost) then s
      else s.(roles := s.roles - {name}, rows := s.rows - lost, history := s.history + [Gone(lost)])
    case CreateSecret(accessor, secret) =>
      // Accessors are fresh random ids; the role must exist.
      if Blocked(s, {}) || secret.roleName !in s.roles || accessor in s.rows then s
      else if exists e <- s.history :: e.Created? && e.accessor == accessor then s
      else s.(rows := s.rows[accessor := secret], history := s.history + [Created(accessor, secret)])
    case Destroy(roleName, accessor) =>
      if accessor !in s.rows || s.rows[accessor].roleName != roleName || Blocked(s, {accessor}) then s
      else s.(rows := s.rows - {accessor}, history := s.history + [Gone({accessor})])
  }

  function Run(s: State, steps: seq<Step>): State
    decreases |steps|
  {
    if steps == [] then s else Run(Exec(s, steps[0]), steps[1..])
  }

  function Start(engine: Engine, now: int): State {
    State(engine, now, {}, map[], map[], [])
  }

  // ---- Accounting ----

  /** How often the secret was consumed. */
  function Uses(history: seq<Event>, accessor: string): nat {
    if history == [] then 0
    else
      var e := history[|history| - 1];
      Uses(history[..|history| - 1], accessor) + if e.Consumed? && e.accessor == accessor then 1 else 0
  }

  ghost predicate IsCreated(history: seq<Event>, accessor: string, secret: Secret) {
    Created(accessor, secret) in history
  }

  ghost predicate WasCreated(history: seq<Event>, accessor: string) {
    exists e <- history :: e.Created? && e.accessor == accessor
  }

  ghost predicate IsGone(history: seq<Event>, accessor: string) {
    exists e <- history :: e.Gone? && accessor in e.accessors
  }

  /** The row against the history of its secret: what was used up and what remains add up. */
  ghost predicate RowOk(s: State, accessor: string, secret: Secret) {
    var used := Uses(s.history, accessor);
    && (accessor in s.rows ==>
          && s.rows[accessor] == secret.(uses := s.rows[accessor].uses)
          && !IsGone(s.history, accessor)
          && if secret.uses >= 1 then used + s.rows[accessor].uses == secret.uses && s.rows[accessor].uses >= 1
             else s.rows[accessor].uses == secret.uses)
    && (accessor !in s.rows ==>
          && (secret.uses >= 1 ==> used <= secret.uses)
          && (IsGone(s.history, accessor) || (secret.uses >= 1 && used == secret.uses)))
  }

  ghost predicate Accounted(s: State) {
    && (forall a, secret | IsCreated(s.history, a, secret) :: RowOk(s, a, secret))
    && (forall a <- s.rows :: WasCreated(s.history, a))
    && (forall a | IsGone(s.history, a) :: WasCreated(s.history, a))
    && (forall i, j | 0 <= i < j < |s.history| && s.history[i].Created? && s.history[j].Created? ::
          s.history[i].accessor != s.history[j].accessor)
  }

  /** Every consume was of a secret created before, not yet expired at its reading, and not gone. */
  ghost predicate ConsumesOk(history: seq<Event>) {
    forall j | 0 <= j < |history| && history[j].Consumed? ::
      && (exists secret :: IsCreated(history[..j], history[j].accessor, secret) && Usable(secret, history[j].call))
      && !IsGone(history[..j], history[j].accessor)
  }

  /** A transaction that selected a row still holds it as read, and holds it alone. */
  ghost predicate LocksOk(s: State) {
    && (forall tx <- s.transactions | s.transactions[tx].Selected? || s.transactions[tx].Written? ::
          var t := s.transactions[tx];
          t.accessor in s.rows && s.rows[t.accessor] == t.row && Usable(t.row, t.call))
    && (forall tx <- s.transactions, tx' <- s.transactions, a |
          Holds(s.transactions[tx], a) && Holds(s.transactions[tx'], a) :: tx == tx')
    && (s.engine == GlobalLock ==>
          forall tx <- s.transactions, tx' <- s.transactions |
            Open(s.transactions[tx]) && Open(s.transactions[tx']) :: tx == tx')
  }

  ghost predicate Inv(s: State) {
    Accounted(s) && ConsumesOk(s.history) && LocksOk(s)
  }

  lemma UsesGrow(history: seq<Event>, e: Event, accessor: string)
    ensures Uses(history + [e], accessor)
            == Uses(history, accessor) + if e.Consumed? && e.accessor == accessor then 1 else 0
  {
  }

  lemma HistoryGrows(history: seq<Event>, e: Event)
    ensures forall a, secret ::
              IsCreated(history + [e], a, secret) <==> IsCreated(history, a, secret) || e == Created(a, secret)
    ensures forall a :: WasCreated(history + [e], a) <==> WasCreated(history, a) || (e.Created? && e.accessor == a)
    ensures forall a :: IsGone(history + [e], a) <==> IsGone(history, a) || (e.Gone? && a in e.accessors)
    ensures ConsumesOk(history) && !e.Consumed? ==> ConsumesOk(history + [e])
  {
    var history' := history + [e];
    assert e in history' && forall x :: x in history' <==> x in history || x == e;
    forall a ensures IsGone(history', a) <==> IsGone(history, a) || (e.Gone? && a in e.accessors) {
    }
    assert forall j | 0 <= j <= |history| :: history'[..j] == history[..j];
  }

  lemma {:induction false} NeverUsed(history: seq<Event>, accessor: string)
    requires !WasCreated(history, accessor) && ConsumesOk(history)
    ensures Uses(history, accessor) == 0
  {
    if history != [] {
      var n := |history| - 1;
      assert forall j | 0 <= j <= n :: history[..n][..j] == history[..j];
      assert forall x <- history[..n] :: x in history;
      NeverUsed(history[..n], accessor);
    }
  }

  // ---- Every step keeps the invariant ----

  lemma RemovalKeepsInv(s: State, s': State, lost: set<string>)
    requires Inv(s) && lost <= s.rows.Keys && !Blocked(s, lost)
    requires s'.rows == s.rows - lost && s'.history == s.history + [Gone(lost)]
    requires s'.transactions == s.transactions && s'.engine == s.engine
    ensures Inv(s')
  {
    var e := Gone(lost);
    HistoryGrows(s.history, e);
    forall a, secret | IsCreated(s'.history, a, secret) ensures RowOk(s', a, secret) {
      assert RowOk(s, a, secret);
      UsesGrow(s.history, e, a);
    }
    forall tx <- s'.transactions | s'.transactions[tx].Selected? || s'.transactions[tx].Written?
      ensures s'.transactions[tx].accessor in s'.rows
    {
      assert Open(s.transactions[tx]) && Holds(s.transactions[tx], s.transactions[tx].accessor);
    }
  }

  lemma CreationKeepsInv(s: State, accessor: string, secret: Secret)
    requires Inv(s)
    ensures Inv(Exec(s, CreateSecret(accessor, secret)))
  {
    var s' := Exec(s, CreateSecret(accessor, secret));
    if s' != s {
      assert !WasCreated(s.history, accessor);
      CreationKeepsAccounts(s, accessor, secret);
      HistoryGrows(s.history, Created(accessor, secret));
      assert LocksOk(s');
    }
  }

  lemma CreationKeepsAccounts(s: State, accessor: string, secret: Secret)
    requires Accounted(s) && ConsumesOk(s.history) && !WasCreated(s.history, accessor)
    ensures Accounted(s.(rows := s.rows[accessor := secret], history := s.history + [Created(accessor, secret)]))
  {
    var s' := s.(rows := s.rows[accessor := secret], history := s.history + [Created(accessor, secret)]);
    HistoryGrows(s.history, Created(accessor, secret));
    NeverUsed(s.history, accessor);
    forall a, x | IsCreated(s'.history, a, x) ensures RowOk(s', a, x) {
      CreationKeepsRow(s, accessor, secret, a, x);
    }
  }

  lemma CreationKeepsRow(s: State, accessor: string, secret: Secret, a: string, x: Secret)
    requires Accounted(s) && !WasCreated(s.history, accessor) && Uses(s.history, accessor) == 0
    requires IsCreated(s.history, a, x) || (a == accessor && x == secret)
    ensures RowOk(s.(rows := s.rows[accessor := secret], history := s.history + [Created(accessor, secret)]), a, x)
  {
  }

  lemma SelectKeepsInv(s: State, tx: nat, accessor: string)
    requires Inv(s)
    ensures Inv(Exec(s, Select(tx, accessor)))
  {
    var s' := Exec(s, Select(tx, accessor));
    assert s'.rows == s.rows && s'.history == s.history;
    forall a, x | IsCreated(s'.history, a, x) ensures RowOk(s', a, x) {
      assert RowOk(s, a, x);
    }
    if s' != s && s'.transactions[tx].Selected? {
      if s.engine == GlobalLock {
        assert Open(s.transactions[tx]);
      }
      forall tx1 <- s'.transactions, tx2 <- s'.transactions, a |
        Holds(s'.transactions[tx1], a) && Holds(s'.transactions[tx2], a)
        ensures tx1 == tx2
      {
        assert tx1 != tx ==> Holds(s.transactions[tx1], a) && Open(s.transactions[tx1]);
        assert tx2 != tx ==> Holds(s.transactions[tx2], a) && Open(s.transactions[tx2]);
      }
    }
  }

  lemma CommitKeepsInv(s: State, tx: nat)
    requires Inv(s)
    ensures Inv(Exec(s, Commit(tx)))
  {
    if tx in s.transactions && s.transactions[tx].Written? {
      var t := s.transactions[tx];
      var _ := ConsumeIsOk(s, t, Consumed(t.accessor, tx, t.call));
      CommitKeepsAccounts(s, tx);
      CommitKeepsLocks(s, tx);
    }
  }

  lemma CommitKeepsAccounts(s: State, tx: nat)
    requires Inv(s) && tx in s.transactions && s.transactions[tx].Written?
    ensures Accounted(Exec(s, Commit(tx)))
  {
    var s' := Exec(s, Commit(tx));
    var t := s.transactions[tx];
    var e := Consumed(t.accessor, tx, t.call);
    HistoryGrows(s.history, e);
    forall a, x | IsCreated(s'.history, a, x) ensures RowOk(s', a, x) {
      RowAfterCommit(s, s', t, e, a, x);
    }
  }

  lemma RowAfterCommit(s: State, s': State, t: Transaction, e: Event, accessor: string, secret: Secret)
    requires t.Written? && t.accessor in s.rows && s.rows[t.accessor] == t.row
    requires e.Consumed? && e.accessor == t.accessor
    requires s'.rows == Used(s.rows, t.accessor, t.row) && s'.history == s.history + [e]
    requires RowOk(s, accessor, secret)
    ensures RowOk(s', accessor, secret)
  {
  }

  lemma CommitKeepsLocks(s: State, tx: nat)
    requires LocksOk(s) && tx in s.transactions && s.transactions[tx].Written?
    ensures LocksOk(Exec(s, Commit(tx)))
  {
    var s' := Exec(s, Commit(tx));
    var t := s.transactions[tx];
    assert Holds(t, t.accessor);
    forall other <- s'.transactions, a | Holds(s'.transactions[other], a)
      ensures other != tx && Holds(s.transactions[other], a) && a != t.accessor
    {
    }
    forall other <- s'.transactions | s'.transactions[other].Selected? || s'.transactions[other].Written?
      ensures var u := s'.transactions[other];
              u.accessor in s'.rows && s'.rows[u.accessor] == u.row && Usable(u.row, u.call)
    {
      assert Holds(s'.transactions[other], s'.transactions[other].accessor);
    }
  }

  lemma ConsumeIsOk(s: State, t: Transaction, e: Event) returns (secret: Secret)
    requires Inv(s) && t.Written? && t.accessor in s.rows && s.rows[t.accessor] == t.row && Usable(t.row, t.call)
    requires e.Consumed? && e.accessor == t.accessor && e.call == t.call
    ensures IsCreated(s.history, t.accessor, secret)
    ensures ConsumesOk(s.history + [e])
  {
    var c :| c in s.history && c.Created? && c.accessor == t.accessor;
    secret := c.secret;
    assert c == Created(t.accessor, secret) && RowOk(s, t.accessor, secret);
    var history' := s.history + [e];
    assert forall j | 0 <= j <= |s.history| :: history'[..j] == s.history[..j];
    assert IsCreated(history'[..|s.history|], t.accessor, secret) && Usable(secret, t.call);
  }

  lemma StepKeepsInv(s: State, step: Step)
    requires Inv(s)
    ensures Inv(Exec(s, step))
  {
    var s' := Exec(s, step);
    match step {
      case Select(tx, accessor) => SelectKeepsInv(s, tx, accessor);
      case Commit(tx) => CommitKeepsInv(s, tx);
      case CreateSecret(accessor, secret) => CreationKeepsInv(s, accessor, secret);
      case DeleteRole(name) =>
        if s' != s {
          RemovalKeepsInv(s, s', OfRole(s.rows, name));
        }
      case Destroy(_, accessor) =>
        if s' != s {
          RemovalKeepsInv(s, s', {accessor});
        }
      case _ =>
        assert s'.rows == s.rows && s'.history == s.history;
        forall a, x | IsCreated(s'.history, a, x) ensures RowOk(s', a, x) {
          assert RowOk(s, a, x);
        }
        OtherStepsKeepLocks(s, step);
    }
  }

  lemma OtherStepsKeepLocks(s: State, step: Step)
    requires LocksOk(s)
    requires step.Tick? || step.Begin? || step.Write? || step.Abort? || step.CreateRole?
    ensures LocksOk(Exec(s, step))
  {
  }

  lemma {:induction false} RunKeepsInv(s: State, steps: seq<Step>)
    requires Inv(s)
    ensures Inv(Run(s, steps))
    decreases |steps|
  {
    if steps != [] {
      StepKeepsInv(s, steps[0]);
      RunKeepsInv(Exec(s, steps[0]), steps[1..]);
    }
  }

  // ---- Whole runs ----

  /** The uses of a secret are conserved: whatever transactions, deletions and re-creations
      interleave, a secret created with N >= 1 uses has been consumed as often as its row has lost
      uses, its row never says less than 1, and it is consumed at most N times in all. One created
      with N <= 0 keeps that number for as long as it lives. */
  lemma UsesAreConserved(engine: Engine, now: int, steps: seq<Step>, accessor: string, secret: Secret)
    requires IsCreated(Run(Start(engine, now), steps).history, accessor, secret)
    ensures var s := Run(Start(engine, now), steps);
            && (secret.uses >= 1 ==> Uses(s.history, accessor) <= secret.uses)
            && (secret.uses >= 1 && accessor in s.rows ==>
                  Uses(s.history, accessor) + s.rows[accessor].uses == secret.uses && s.rows[accessor].uses >= 1)
            && (secret.uses <= 0 && accessor in s.rows ==> s.rows[accessor].uses == secret.uses)
            && (accessor !in s.rows ==>
                  IsGone(s.history, accessor) || (secret.uses >= 1 && Uses(s.history, accessor) == secret.uses))
  {
    RunKeepsInv(Start(engine, now), steps);
    var s := Run(Start(engine, now), steps);
    assert RowOk(s, accessor, secret);
  }

  /** A consume succeeds only for a secret that was created before, under that role and hash, whose
      expiry lay ahead of the reading the call began with, and that was neither destroyed nor lost
      with its role before; creating a role of the same name again brings nothing back. */
  lemma ConsumesAreAuthorised(engine: Engine, now: int, steps: seq<Step>, j: nat)
    requires var h := Run(Start(engine, now), steps).history; j < |h| && h[j].Consumed?
    ensures var h := Run(Start(engine, now), steps).history;
            && (exists i | 0 <= i < j ::
                  && h[i].Created? && h[i].accessor == h[j].accessor
                  && h[i].secret.roleName == h[j].call.roleName && h[i].secret.hash == h[j].call.hash
                  && (h[i].secret.expiry == 0 || h[j].call.at < h[i].secret.expiry))
            && (forall i | 0 <= i < j && h[i].Gone? :: h[j].accessor !in h[i].accessors)
  {
    RunKeepsInv(Start(engine, now), steps);
    var h := Run(Start(engine, now), steps).history;
    var secret :| IsCreated(h[..j], h[j].accessor, secret) && Usable(secret, h[j].call);
    var i :| 0 <= i < j && h[..j][i] == Created(h[j].accessor, secret);
    forall i | 0 <= i < j && h[i].Gone? ensures h[j].accessor !in h[i].accessors {
      assert h[i] in h[..j];
    }
  }

  /** A transaction that goes on read the clock before, and each consume was of another one, which has
      ended. */
  ghost predicate CallsOk(s: State) {
    && (forall tx <- s.transactions | Open(s.transactions[tx]) :: s.transactions[tx].call.at <= s.now)
    && (forall e <- s.history | e.Consumed? ::
          e.call.at <= s.now && e.tx in s.transactions && s.transactions[e.tx].Ended?)
    && (forall i, j | 0 <= i < j < |s.history| && s.history[i].Consumed? && s.history[j].Consumed? ::
          s.history[i].tx != s.history[j].tx)
  }

  lemma StepKeepsCalls(s: State, step: Step)
    requires CallsOk(s)
    ensures CallsOk(Exec(s, step))
  {
    hide Usable, Used, Blocked, OfRole;
    var s' := Exec(s, step);
    assert s.history <= s'.history && |s'.history| <= |s.history| + 1;
    assert forall i | 0 <= i < |s.history| :: s'.history[i] == s.history[i] && s.history[i] in s.history;
  }

  lemma {:induction false} RunKeepsCalls(s: State, steps: seq<Step>)
    requires CallsOk(s)
    ensures CallsOk(Run(s, steps))
    decreases |steps|
  {
    if steps != [] {
      StepKeepsCalls(s, steps[0]);
      RunKeepsCalls(Exec(s, steps[0]), steps[1..]);
    }
  }

  /** However transactions interleave, one call consumes at most one use, and never by a reading of the
      clock that was still to come. */
  lemma EachCallConsumesOnce(engine: Engine, now: int, steps: seq<Step>, i: nat, j: nat)
    requires var h := Run(Start(engine, now), steps).history; i < |h| && j < |h| && h[i].Consumed? && h[j].Consumed?
    ensures var s := Run(Start(engine, now), steps);
            s.history[i].call.at <= s.now && (s.history[i].tx == s.history[j].tx ==> i == j)
  {
    RunKeepsCalls(Start(engine, now), steps);
    var h := Run(Start(engine, now), steps).history;
    assert h[i] in h;
  }

  /** Destroying a secret is final: once the statement has run, no consume of it follows, whatever
      else does. */
  lemma DestroyedForEver(engine: Engine, now: int, before: seq<Step>, roleName: string, accessor: string,
                         after: seq<Step>)
    requires var s := Run(Start(engine, now), before);
             accessor in s.rows && s.rows[accessor].roleName == roleName && !Blocked(s, {accessor})
    ensures var s := Exec(Run(Start(engine, now), before), Destroy(roleName, accessor));
            var h := Run(s, after).history;
            && accessor !in s.rows && s.history <= h
            && forall j | |s.history| <= j < |h| && h[j].Consumed? :: h[j].accessor != accessor
  {
    var s0 := Run(Start(engine, now), before);
    var s := Exec(s0, Destroy(roleName, accessor));
    var h := Run(s, after).history;
    RunKeepsInv(Start(engine, now), before);
    StepKeepsInv(s0, Destroy(roleName, accessor));
    RunKeepsInv(s, after);
    HistoryStays(s, after);
    var n := |s0.history|;
    assert s.history[n] == Gone({accessor}) && h[n] == s.history[n];
    forall j | |s.history| <= j < |h| && h[j].Consumed? ensures h[j].accessor != accessor {
      assert h[..j][n] == h[n] && h[n] in h[..j];
    }
  }

  lemma {:induction false} HistoryStays(s: State, steps: seq<Step>)
    ensures s.history <= Run(s, steps).history
    decreases |steps|
  {
    if steps != [] {
      HistoryStays(Exec(s, steps[0]), steps[1..]);
    }
  }

  /** A committing transaction does to the committed rows what one atomic consume does to them. */
  lemma CommitIsAtomic(engine: Engine, now: int, steps: seq<Step>, tx: nat)
    requires var s := Run(Start(engine, now), steps); tx in s.transactions && s.transactions[tx].Written?
    ensures var s := Run(Start(engine, now), steps);
            var t := s.transactions[tx];
            && t.accessor in s.rows && Usable(s.rows[t.accessor], t.call)
            && Exec(s, Commit(tx)).transactions[tx] == Ended(Some(t.accessor))
            && Exec(s, Commit(tx)).rows == Used(s.rows, t.accessor, s.rows[t.accessor])
  {
    RunKeepsInv(Start(engine, now), steps);
  }

  /** The steps of a call that no other transaction overlaps. */
  function CallSteps(tx: nat, call: ConsumeCall, accessor: string): seq<Step> {
    [Begin(tx, call), Select(tx, accessor), Write(tx), Commit(tx)]
  }

  /** On its own, a call for a usable secret goes through: it takes one use, or the row with the last one,
      answers the accessor and is one event. */
  lemma AloneACallConsumes(s: State, tx: nat, call: ConsumeCall, accessor: string)
    requires (forall t <- s.transactions :: s.transactions[t].Ended?) && tx !in s.transactions && call.at <= s.now
    requires accessor in s.rows && s.rows[accessor].roleName == call.roleName && s.rows[accessor].hash == call.hash
    requires s.rows[accessor].expiry == 0 || call.at < s.rows[accessor].expiry
    ensures var s' := Run(s, CallSteps(tx, call, accessor));
            var uses := s.rows[accessor].uses;
            && s'.rows == (if uses == 1 then s.rows - {accessor}
                           else if uses > 1 then s.rows[accessor := s.rows[accessor].(uses := uses - 1)] else s.rows)
            && s'.transactions == s.transactions[tx := Ended(Some(accessor))]
            && s'.history == s.history + [Consumed(accessor, tx, call)]
  {
    RunOfFour(s, Begin(tx, call), Select(tx, accessor), Write(tx), Commit(tx));
    AloneSelects(s, tx, call, accessor);
    hide Run;
    var s2 := Exec(Exec(s, Begin(tx, call)), Select(tx, accessor));
    AloneCommits(s2, tx);
    assert s2.transactions[tx := Ended(Some(accessor))] == s.transactions[tx := Ended(Some(accessor))];
  }

  lemma RunOfFour(s: State, a: Step, b: Step, c: Step, d: Step)
    ensures Run(s, [a, b, c, d]) == Exec(Exec(Exec(Exec(s, a), b), c), d)
  {
    hide Exec;
    var s1 := Exec(s, a);
    var s2 := Exec(s1, b);
    var s3 := Exec(s2, c);
    assert [a, b, c, d][1..] == [b, c, d] && [b, c, d][1..] == [c, d] && [c, d][1..] == [d] && [d][1..] == [];
    assert Run(s3, [d]) == Exec(s3, d);
    assert Run(s2, [c, d]) == Run(s3, [d]);
    assert Run(s1, [b, c, d]) == Run(s2, [c, d]);
  }

  lemma AloneSelects(s: State, tx: nat, call: ConsumeCall, accessor: string)
    requires (forall t <- s.transactions :: s.transactions[t].Ended?) && tx !in s.transactions && call.at <= s.now
    requires accessor in s.rows && s.rows[accessor].roleName == call.roleName && s.rows[accessor].hash == call.hash
    requires s.rows[accessor].expiry == 0 || call.at < s.rows[accessor].expiry
    ensures Exec(Exec(s, Begin(tx, call)), Select(tx, accessor))
            == s.(transactions := s.transactions[tx := Selected(call, accessor, s.rows[accessor])])
  {
    var s1 := Exec(s, Begin(tx, call));
    assert s1.transactions == s.transactions[tx := Begun(call)] && Usable(s.rows[accessor], call);
  }

  lemma AloneCommits(s: State, tx: nat)
    requires tx in s.transactions && s.transactions[tx].Selected?
    requires var t := s.transactions[tx]; t.accessor in s.rows && s.rows[t.accessor] == t.row
    ensures var t := s.transactions[tx];
            Exec(Exec(s, Write(tx)), Commit(tx))
            == s.(rows := Used(s.rows, t.accessor, t.row),
                  transactions := s.transactions[tx := Ended(Some(t.accessor))],
                  history := s.history + [Consumed(t.accessor, tx, t.call)])
  {
  }

  /** And a call for which no secret is usable answers nothing and changes nothing. */
  lemma AloneACallMisses(s: State, tx: nat, call: ConsumeCall, accessor: string)
    requires (forall t <- s.transactions :: s.transactions[t].Ended?) && tx !in s.transactions && call.at <= s.now
    requires forall row <- s.rows.Values | row.roleName == call.roleName && row.hash == call.hash ::
               row.expiry != 0 && row.expiry <= call.at
    ensures Run(s, CallSteps(tx, call, accessor)) == s.(transactions := s.transactions[tx := Ended(None)])
  {
    RunOfFour(s, Begin(tx, call), Select(tx, accessor), Write(tx), Commit(tx));
    var s1 := Exec(s, Begin(tx, call));
    assert s1.transactions == s.transactions[tx := Begun(call)];
    assert forall a <- s.rows :: s.rows[a] in s.rows.Values && !Usable(s.rows[a], call);
    assert Exec(s1, Select(tx, accessor)) == s.(transactions := s.transactions[tx := Ended(None)]);
  }

  /** An abort at any moment leaves the rows alone and ends the call without an answer; a call that has
      ended keeps its answer. */
  lemma AbortsChangeNothing(s: State, tx: nat)
    requires tx in s.transactions
    ensures Exec(s, Abort(tx))
            == if s.transactions[tx].Ended? then s else s.(transactions := s.transactions[tx := Ended(None)])
  {
  }

  /** Under a global lock every statement that writes waits while a call is open; under row locks those
      wait that need a row which a call has selected. */
  lemma WritersWait(s: State, open: nat, name: string, accessor: string, secret: Secret)
    requires open in s.transactions && !s.transactions[open].Ended?
    ensures s.engine == GlobalLock ==>
              && Exec(s, CreateRole(name)) == s && Exec(s, DeleteRole(name)) == s
              && Exec(s, CreateSecret(accessor, secret)) == s && Exec(s, Destroy(name, accessor)) == s
              && forall tx, call :: Exec(s, Begin(tx, call)) == s
    ensures s.transactions[open].Selected? || s.transactions[open].Written? ==>
              s.transactions[open].accessor in s.rows ==>
              && Exec(s, Destroy(name, s.transactions[open].accessor)) == s
              && Exec(s, DeleteRole(s.rows[s.transactions[open].accessor].roleName)) == s
  {
    assert Open(s.transactions[open]);
    if (s.transactions[open].Selected? || s.transactions[open].Written?) && s.transactions[open].accessor in s.rows {
      var a := s.transactions[open].accessor;
      assert Holds(s.transactions[open], a) && a in OfRole(s.rows, s.rows[a].roleName);
    }
  }

  /** And so do the other statements when no call is open: a secret is created for an existing role under
      a fresh accessor, a deleted role takes its secrets with it, and destroying needs role and accessor. */
  lemma AloneStatementsTakeEffect(s: State, name: string, accessor: string, secret: Secret, seconds: nat)
    requires forall t <- s.transactions :: s.transactions[t].Ended?
    ensures Exec(s, Tick(seconds)) == s.(now := s.now + seconds)
    ensures Exec(s, CreateRole(name)).roles == s.roles + {name}
    ensures secret.roleName in s.roles && accessor !in s.rows && !WasCreated(s.history, accessor) ==>
              Exec(s, CreateSecret(accessor, secret)).rows == s.rows[accessor := secret]
    ensures secret.roleName !in s.roles ==> Exec(s, CreateSecret(accessor, secret)) == s
    ensures var s' := Exec(s, DeleteRole(name));
            && s'.roles == s.roles - {name}
            && s'.rows == map a | a in s.rows && s.rows[a].roleName != name :: s.rows[a]
    ensures accessor in s.rows && s.rows[accessor].roleName == name ==>
              Exec(s, Destroy(name, accessor)).rows == s.rows - {accessor}
    ensures (accessor in s.rows ==> s.rows[accessor].roleName != name) ==> Exec(s, Destroy(name, accessor)) == s
  {
  }

  ghost predicate AnswersLogged(s: State) {
    forall tx <- s.transactions | s.transactions[tx].Ended? && s.transactions[tx].answer.Some? ::
      exists e <- s.history :: e.Consumed? && e.tx == tx && e.accessor == s.transactions[tx].answer.value
  }

  /** Every call that answered an accessor is one of the counted consumes. */
  lemma {:induction false} AnswersAreConsumes(s: State, steps: seq<Step>)
    requires AnswersLogged(s)
    ensures AnswersLogged(Run(s, steps))
    decreases |steps|
  {
    if steps != [] {
      var s' := Exec(s, steps[0]);
      assert s.history <= s'.history;
      assert forall e <- s.history :: e in s'.history;
      if |s'.history| > |s.history| {
        assert s'.history[|s.history|] in s'.history;
      }
      AnswersAreConsumes(s', steps[1..]);
    }
  }

  // ---- One call by itself ----

  class SqliteDatabase {
    var rows: map<string, Secret>

    constructor ()
      ensures rows == map[]
    {
      rows := map[];
    }

    /** Some usable secret is consumed once if there is one, and otherwise nothing happens. */
    method ConsumeSecretId(roleName: string, hash: string, now: int) returns (r: Option<string>)
      modifies this
      ensures r.None? <==> forall row <- old(rows).Values | row.roleName == roleName && row.hash == hash ::
                row.expiry != 0 && row.expiry <= now
      ensures r.Some? ==>
                && r.value in old(rows)
                && var row := old(rows)[r.value];
                   && row.roleName == roleName && row.hash == hash && (row.expiry == 0 || now < row.expiry)
                   && (row.uses == 1 ==> rows == old(rows) - {r.value})
                   && (row.uses > 1 ==> rows == old(rows)[r.value := row.(uses := row.uses - 1)])
                   && (row.uses < 1 ==> rows == old(rows))
                   && rows == Used(old(rows), r.value, row)
      ensures r.None? ==> rows == old(rows)
    {
      var call := ConsumeCall(roleName, hash, now);
      if !exists a <- rows :: Usable(rows[a], call) {
        return None;
      }
      var accessor :| accessor in rows && Usable(rows[accessor], call);
      var numUses := rows[accessor].uses;
      if numUses == 1 {
        rows := rows - {accessor};
      } else if numUses > 1 {
        rows := rows[accessor := rows[accessor].(uses := numUses - 1)];
      }
      return Some(accessor);
    }

    /** No call for the role can consume the secret afterwards; calls for other roles, and every other
        secret, are as before. */
    method DestroySecretId(roleName: string, accessor: string)
      modifies this
      ensures forall call: ConsumeCall | call.roleName == roleName ::
                !(accessor in rows && Usable(rows[accessor], call))
      ensures forall call: ConsumeCall, a | a != accessor || call.roleName != roleName ::
                (a in rows && Usable(rows[a], call)) <==> (a in old(rows) && Usable(old(rows)[a], call))
      ensures rows == if accessor in old(rows) && old(rows)[accessor].roleName == roleName then old(rows) - {accessor}
                      else old(rows)
    {
      if accessor in rows && rows[accessor].roleName == roleName {
        rows := rows - {accessor};
      }
    }
  }
}
