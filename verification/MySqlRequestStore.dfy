/** The take of the MySQL backend (server/src/saml/impls/mysql.rs): MySQL has no
    DELETE ... RETURNING, so a take is a transaction of four steps, and any number of transactions,
    inserts and purges interleave. The proof is that every interleaving is one of atomic takes.

    `table` is the committed table. A row read FOR UPDATE is locked until its transaction ends;
    other statements that need that row wait, which here means their step does nothing. */
module MySqlRequestStore {
  import opened Wrappers
  import opened RequestStore

  /** The arguments of a take and the clock reading made before its transaction begins. */
  datatype TakeCall = TakeCall(requestId: string, realmId: string, at: int)

  datatype Transaction =
    | Begun(call: TakeCall)
    | Missed(call: TakeCall)
    | Selected(call: TakeCall, row: PendingSamlRequest)
    | Deleted(call: TakeCall, row: PendingSamlRequest)
    | Committed(call: TakeCall, reply: Option<PendingSamlRequest>)
    | Aborted

  /** The atomic operations the run amounts to, each entered when it takes effect. */
  datatype Entry =
    | TakeEntry(tx: nat, call: TakeCall, reply: Option<PendingSamlRequest>)
    | StoreEntry(request: PendingSamlRequest, now: int, outcome: Result<(), StoreError>)
    | PurgeEntry(now: int)

  datatype State = State(
    table: map<string, PendingSamlRequest>,
    locks: map<string, nat>,
    transactions: map<nat, Transaction>,
    log: seq<Entry>)

  datatype Step =
    | Begin(tx: nat, call: TakeCall)
    | Select(tx: nat)
    | Delete(tx: nat)
    | Commit(tx: nat)
    | Abort(tx: nat)
    | Insert(request: PendingSamlRequest, now: int)
    | DeleteExpiredRows(now: int)

  predicate Matches(row: PendingSamlRequest, call: TakeCall) {
    row.realmId == call.realmId && row.expiresAt > Timestamp(call.at)
  }

  function Release(locks: map<string, nat>, tx: nat): map<string, nat> {
    map id | id in locks && locks[id] != tx :: locks[id]
  }

  function AsTables(table: map<string, PendingSamlRequest>): Tables {
    Tables(table, map[])
  }

  function Exec(s: State, step: Step): State {
    match step
    case Begin(tx, call) =>
      if tx in s.transactions then s else s.(transactions := s.transactions[tx := Begun(call)])
    case Select(tx) =>
      if tx !in s.transactions || !s.transactions[tx].Begun? then s else
      var call := s.transactions[tx].call;
      if call.requestId !in s.table then
        s.(transactions := s.transactions[tx := Missed(call)], log := s.log + [TakeEntry(tx, call, None)])
      else if call.requestId in s.locks then s // waits
      else
        // The row found by its primary key is locked even when the rest of the WHERE fails.
        var s' := s.(locks := s.locks[call.requestId := tx]);
        var row := s.table[call.requestId];
        if Matches(row, call) then s'.(transactions := s.transactions[tx := Selected(call, row)])
        else s'.(transactions := s.transactions[tx := Missed(call)], log := s.log + [TakeEntry(tx, call, None)])
    case Delete(tx) =>
      if tx !in s.transactions || !s.transactions[tx].Selected? then s else
      var t := s.transactions[tx];
      s.(transactions := s.transactions[tx := Deleted(t.call, t.row)])
    case Commit(tx) =>
      if tx !in s.transactions then s else
      (match s.transactions[tx]
       case Missed(call) =>
         s.(transactions := s.transactions[tx := Committed(call, None)], locks := Release(s.locks, tx))
       case Deleted(call, row) =>
         State(s.table - {call.requestId}, Release(s.locks, tx),
               s.transactions[tx := Committed(call, Some(row))], s.log + [TakeEntry(tx, call, Some(row))])
       case _ => s)
    case Abort(tx) =>
      if tx !in s.transactions || s.transactions[tx].Committed? || s.transactions[tx].Aborted? then s else
      s.(transactions := s.transactions[tx := Aborted], locks := Release(s.locks, tx))
    case Insert(request, now) =>
      if request.requestId in s.locks then s // waits
      else
        var (t, r) := StorePending(AsTables(s.table), request, now);
        s.(table := t.pending, log := s.log + [StoreEntry(request, now, r)])
    case DeleteExpiredRows(now) =>
      var t := DeleteExpired(AsTables(s.table), now);
      if exists id <- s.locks :: id in s.table && id !in t.pending then s // waits
      else s.(table := t.pending, log := s.log + [PurgeEntry(now)])
  }

  function Run(s: State, steps: seq<Step>): State {
    if steps == [] then s else Exec(Run(s, steps[..|steps| - 1]), steps[|steps| - 1])
  }

  function Start(table: map<string, PendingSamlRequest>): State {
    State(table, map[], map[], [])
  }

  /** The take as the backend runs it, here with no other transaction open: it is the atomic one. */
  class MySqlSamlRequestStore {
    var table: map<string, PendingSamlRequest>
    var locks: set<string>

    constructor ()
      ensures table == map[] && locks == {}
    {
      table, locks := map[], {};
    }

    method TakePendingRequest(requestId: string, realmId: string, now: int) returns (r: Option<PendingSamlRequest>)
      requires locks == {}
      modifies this
      ensures locks == {}
      ensures (AsTables(table), r) == TakePending(AsTables(old(table)), requestId, realmId, now)
    {
      // SELECT ... FOR UPDATE
      var row := None;
      if requestId in table {
        locks := locks + {requestId};
        if Matches(table[requestId], TakeCall(requestId, realmId, now)) {
          row := Some(table[requestId]);
        }
      }
      if row.Some? {
        table := table - {requestId};
      }
      // COMMIT
      locks := {};
      r := row;
    }
  }

  /** The four statements of a transaction, one after the other. */
  function Transacted(s: State, tx: nat, call: TakeCall): State {
    Exec(Exec(Exec(Exec(s, Begin(tx, call)), Select(tx)), Delete(tx)), Commit(tx))
  }

  /** A transaction whose row nobody else has locked goes through, and is the atomic take; then it holds
      no lock. */
  lemma UnhinderedTakeCommits(s: State, tx: nat, call: TakeCall)
    requires tx !in s.transactions && call.requestId !in s.locks && forall id <- s.locks :: s.locks[id] != tx
    ensures var (t, reply) := TakePending(AsTables(s.table), call.requestId, call.realmId, call.at);
            Transacted(s, tx, call)
            == State(t.pending, s.locks, s.transactions[tx := Committed(call, reply)],
                     s.log + [TakeEntry(tx, call, reply)])
  {
    var s1 := Exec(s, Begin(tx, call));
    var s2 := Exec(s1, Select(tx));
    var s3 := Exec(s2, Delete(tx));
    assert s1.transactions == s.transactions[tx := Begun(call)];
    assert s2.transactions[tx].Missed? ==> s3 == s2;
    assert Release(s.locks, tx) == s.locks;
    assert Release(s.locks[call.requestId := tx], tx) == s.locks;
  }

  /** A locked row makes it wait. */
  lemma HinderedTakeWaits(s: State, tx: nat, call: TakeCall)
    requires tx !in s.transactions && call.requestId in s.locks && call.requestId in s.table
    ensures Transacted(s, tx, call) == s.(transactions := s.transactions[tx := Begun(call)])
  {
  }

  /** An insert of a locked id waits, and so does a purge while a row it would delete is locked; otherwise
      they take effect. */
  lemma StatementsWaitOrRun(s: State, request: PendingSamlRequest, now: int)
    ensures var s' := Exec(s, Insert(request, now));
            if request.requestId in s.locks then s' == s
            else AsTables(s'.table) == StorePending(AsTables(s.table), request, now).0
    ensures var s' := Exec(s, DeleteExpiredRows(now));
            if exists id <- s.locks :: id in s.table && s.table[id].expiresAt * NANOS_PER_SECOND <= now then s' == s
            else AsTables(s'.table) == DeleteExpired(AsTables(s.table), now)
  {
    assert forall id <- s.locks | id in s.table ::
        id in DeleteExpired(AsTables(s.table), now).pending <==> now < s.table[id].expiresAt * NANOS_PER_SECOND;
  }

  /** An abort undoes a transaction that has not committed: its locks go and nothing was deleted. */
  lemma AbortsReleaseLocks(s: State, tx: nat)
    requires tx in s.transactions
    ensures var s' := Exec(s, Abort(tx));
            if s.transactions[tx].Committed? || s.transactions[tx].Aborted? then s' == s
            else
              && s' == s.(transactions := s.transactions[tx := Aborted], locks := s'.locks)
              && forall id :: id in s'.locks <==> id in s.locks && s.locks[id] != tx
  {
  }

  /** A run executes its steps one after the other. */
  lemma RunExtends(s: State, steps: seq<Step>, step: Step)
    ensures Run(s, []) == s && Run(s, steps + [step]) == Exec(Run(s, steps), step)
  {
    assert (steps + [step])[..|steps|] == steps;
  }

  // ---- The specification: the log executed one atomic operation after another ----

  function Apply(t: Tables, e: Entry): Tables {
    match e
    case TakeEntry(_, call, _) => TakePending(t, call.requestId, call.realmId, call.at).0
    case StoreEntry(request, now, _) => StorePending(t, request, now).0
    case PurgeEntry(now) => DeleteExpired(t, now)
  }

  predicate RepliesAsAtomic(t: Tables, e: Entry) {
    match e
    case TakeEntry(_, call, reply) => reply == TakePending(t, call.requestId, call.realmId, call.at).1
    case StoreEntry(request, now, outcome) => outcome == StorePending(t, request, now).1
    case PurgeEntry(_) => true
  }

  function Replay(t: Tables, log: seq<Entry>): Tables {
    if log == [] then t else Apply(Replay(t, log[..|log| - 1]), log[|log| - 1])
  }

  /** Every reply in the log is the one its operation gets when run in its place. */
  predicate AllAtomic(t: Tables, log: seq<Entry>) {
    forall i | 0 <= i < |log| :: RepliesAsAtomic(Replay(t, log[..i]), log[i])
  }

  // ---- Every interleaving is a sequence of atomic operations ----

  ghost predicate TransactionOk(s: State, tx: nat)
    requires tx in s.transactions
  {
    match s.transactions[tx]
    case Begun(_) => forall e <- s.log :: !(e.TakeEntry? && e.tx == tx)
    case Missed(call) => LoggedOnce(s.log, tx, call, None)
    case Selected(call, row) => HoldsRow(s, tx, call, row)
    case Deleted(call, row) => HoldsRow(s, tx, call, row)
    case Committed(call, reply) => LoggedOnce(s.log, tx, call, reply)
    case Aborted => true
  }

  ghost predicate HoldsRow(s: State, tx: nat, call: TakeCall, row: PendingSamlRequest) {
    && call.requestId in s.locks && s.locks[call.requestId] == tx
    && call.requestId in s.table && s.table[call.requestId] == row && Matches(row, call)
    && (forall e <- s.log :: !(e.TakeEntry? && e.tx == tx))
  }

  ghost predicate LoggedOnce(log: seq<Entry>, tx: nat, call: TakeCall, reply: Option<PendingSamlRequest>) {
    exists i :: && 0 <= i < |log| && log[i] == TakeEntry(tx, call, reply)
                && (forall j | 0 <= j < |log| && log[j].TakeEntry? && log[j].tx == tx :: j == i)
  }

  ghost predicate Inv(s0: State, s: State) {
    && Replay(AsTables(s0.table), s.log) == AsTables(s.table)
    && AllAtomic(AsTables(s0.table), s.log)
    && (forall tx <- s.transactions :: TransactionOk(s, tx))
    && (forall id <- s.locks :: s.locks[id] in s.transactions)
    && (forall e <- s.log :: e.TakeEntry? ==> e.tx in s.transactions)
  }

  lemma LogExtends(t: Tables, log: seq<Entry>, e: Entry)
    requires AllAtomic(t, log) && RepliesAsAtomic(Replay(t, log), e)
    ensures AllAtomic(t, log + [e]) && Replay(t, log + [e]) == Apply(Replay(t, log), e)
  {
    var log' := log + [e];
    assert log'[..|log|] == log;
    forall i | 0 <= i < |log'| ensures RepliesAsAtomic(Replay(t, log'[..i]), log'[i]) {
      assert i < |log| ==> log'[..i] == log[..i];
    }
  }

  lemma StillLogged(log: seq<Entry>, tx: nat, call: TakeCall, reply: Option<PendingSamlRequest>, e: Entry)
    requires LoggedOnce(log, tx, call, reply) && !(e.TakeEntry? && e.tx == tx)
    ensures LoggedOnce(log + [e], tx, call, reply)
  {
    var i :| && 0 <= i < |log| && log[i] == TakeEntry(tx, call, reply)
             && (forall j | 0 <= j < |log| && log[j].TakeEntry? && log[j].tx == tx :: j == i);
    assert (log + [e])[i] == TakeEntry(tx, call, reply);
  }

  lemma NowLogged(log: seq<Entry>, tx: nat, call: TakeCall, reply: Option<PendingSamlRequest>)
    requires forall e <- log :: !(e.TakeEntry? && e.tx == tx)
    ensures LoggedOnce(log + [TakeEntry(tx, call, reply)], tx, call, reply)
  {
    assert (log + [TakeEntry(tx, call, reply)])[|log|] == TakeEntry(tx, call, reply);
  }

  /** A step that enters `e` in the log: it must reply as its operation does and leave the table
      as its operation does, and every other transaction must keep its own row and lock. */
  lemma LoggingStep(s0: State, s: State, s': State, e: Entry)
    requires Inv(s0, s)
    requires s'.log == s.log + [e] && RepliesAsAtomic(AsTables(s.table), e)
    requires AsTables(s'.table) == Apply(AsTables(s.table), e)
    requires s.transactions.Keys == s'.transactions.Keys
    requires e.TakeEntry?
        ==> e.tx in s.transactions && !s.transactions[e.tx].Missed? && !s.transactions[e.tx].Committed?
    requires forall tx <- s.transactions | !(e.TakeEntry? && e.tx == tx) ::
               && s'.transactions[tx] == s.transactions[tx]
               && (s.transactions[tx].Selected? || s.transactions[tx].Deleted?
                   ==> var id := s.transactions[tx].call.requestId;
                       && (id in s.locks && s.locks[id] == tx ==> id in s'.locks && s'.locks[id] == tx)
                       && (id in s.locks && s.locks[id] == tx && id in s.table
                           ==> id in s'.table && s'.table[id] == s.table[id]))
    requires e.TakeEntry? ==> && !s.transactions[e.tx].Aborted?
                              && s'.transactions[e.tx] in {Missed(e.call), Committed(e.call, e.reply)}
                              && (s'.transactions[e.tx].Missed? ==> e.reply == None)
    requires forall id <- s'.locks :: s'.locks[id] in s.transactions
    ensures Inv(s0, s')
  {
    LogExtends(AsTables(s0.table), s.log, e);
    forall tx <- s'.transactions ensures TransactionOk(s', tx) {
      assert TransactionOk(s, tx);
      if e.TakeEntry? && e.tx == tx {
        NowLogged(s.log, tx, e.call, e.reply);
      } else {
        match s.transactions[tx] {
          case Missed(call) => StillLogged(s.log, tx, call, None, e);
          case Committed(call, reply) => StillLogged(s.log, tx, call, reply, e);
          case _ =>
        }
      }
    }
  }

  lemma SelectKeepsInv(s0: State, s: State, tx: nat)
    requires Inv(s0, s)
    ensures Inv(s0, Exec(s, Select(tx)))
  {
    var s' := Exec(s, Select(tx));
    if tx in s.transactions && s.transactions[tx].Begun? {
      var call := s.transactions[tx].call;
      assert TransactionOk(s, tx);
      if call.requestId !in s.table || (call.requestId !in s.locks && !Matches(s.table[call.requestId], call)) {
        LoggingStep(s0, s, s', TakeEntry(tx, call, None));
      } else if call.requestId !in s.locks {
        forall other <- s'.transactions ensures TransactionOk(s', other) {
          assert TransactionOk(s, other);
        }
      }
    }
  }

  lemma CommitKeepsInv(s0: State, s: State, tx: nat)
    requires Inv(s0, s)
    ensures Inv(s0, Exec(s, Commit(tx)))
  {
    var s' := Exec(s, Commit(tx));
    if tx in s.transactions {
      assert TransactionOk(s, tx);
      if s.transactions[tx].Deleted? {
        var t := s.transactions[tx];
        LoggingStep(s0, s, s', TakeEntry(tx, t.call, Some(t.row)));
      } else if s.transactions[tx].Missed? {
        forall other <- s'.transactions ensures TransactionOk(s', other) {
          assert TransactionOk(s, other);
        }
      }
    }
  }

  lemma StatementKeepsInv(s0: State, s: State, step: Step)
    requires Inv(s0, s) && (step.Insert? || step.DeleteExpiredRows?)
    ensures Inv(s0, Exec(s, step))
  {
    var s' := Exec(s, step);
    if s' != s {
      LoggingStep(s0, s, s', s'.log[|s.log|]);
    }
  }

  lemma StepKeepsInv(s0: State, s: State, step: Step)
    requires Inv(s0, s)
    ensures Inv(s0, Exec(s, step))
  {
    match step {
      case Select(tx) => SelectKeepsInv(s0, s, tx);
      case Commit(tx) => CommitKeepsInv(s0, s, tx);
      case Insert(_, _) => StatementKeepsInv(s0, s, step);
      case DeleteExpiredRows(_) => StatementKeepsInv(s0, s, step);
      case _ =>
        var s' := Exec(s, step);
        forall tx <- s'.transactions ensures TransactionOk(s', tx) {
          assert tx in s.transactions ==> TransactionOk(s, tx);
        }
    }
  }

  lemma {:induction false} RunKeepsInv(s0: State, steps: seq<Step>)
    requires s0 == Start(s0.table)
    ensures Inv(s0, Run(s0, steps))
  {
    if steps != [] {
      RunKeepsInv(s0, steps[..|steps| - 1]);
      StepKeepsInv(s0, Run(s0, steps[..|steps| - 1]), steps[|steps| - 1]);
    }
  }

  /** However transactions interleave, there is one order of atomic operations, the log, that
      explains the run: each gets the reply the atomic store gives it there, together they leave
      the committed table, and a transaction that committed returned its own single entry's reply. */
  lemma InterleavingIsAtomic(table: map<string, PendingSamlRequest>, steps: seq<Step>)
    ensures var s := Run(Start(table), steps);
            && AllAtomic(AsTables(table), s.log)
            && Replay(AsTables(table), s.log) == AsTables(s.table)
            && (forall tx <- s.transactions | s.transactions[tx].Committed? ::
                  LoggedOnce(s.log, tx, s.transactions[tx].call, s.transactions[tx].reply))
  {
    var s := Run(Start(table), steps);
    RunKeepsInv(Start(table), steps);
    forall tx <- s.transactions | s.transactions[tx].Committed?
      ensures LoggedOnce(s.log, tx, s.transactions[tx].call, s.transactions[tx].reply)
    {
      assert TransactionOk(s, tx);
    }
  }

  // ---- Single use ----

  function TakesOf(log: seq<Entry>, id: string): nat {
    if log == [] then 0 else
    var e := log[|log| - 1];
    TakesOf(log[..|log| - 1], id) + if e.TakeEntry? && e.call.requestId == id && e.reply.Some? then 1 else 0
  }

  function StoresOf(log: seq<Entry>, id: string): nat {
    if log == [] then 0 else
    var e := log[|log| - 1];
    StoresOf(log[..|log| - 1], id) + if e.StoreEntry? && e.request.requestId == id && e.outcome.Success? then 1 else 0
  }

  function Present(t: Tables, id: string): nat {
    if id in t.pending then 1 else 0
  }

  /** Takes never outnumber stores: what was handed out and what is still there were put there. */
  lemma {:induction false} TakesAreStored(t: Tables, log: seq<Entry>, id: string)
    requires AllAtomic(t, log)
    ensures TakesOf(log, id) + Present(Replay(t, log), id) <= Present(t, id) + StoresOf(log, id)
  {
    if log != [] {
      var before, e := log[..|log| - 1], log[|log| - 1];
      assert forall i | 0 <= i <= |before| :: before[..i] == log[..i];
      assert AllAtomic(t, before);
      TakesAreStored(t, before, id);
      assert RepliesAsAtomic(Replay(t, before), e);
    }
  }

  lemma {:induction false} TwoTakesCount(log: seq<Entry>, id: string, i: nat, j: nat)
    requires i < j < |log|
    requires log[i].TakeEntry? && log[i].call.requestId == id && log[i].reply.Some?
    requires log[j].TakeEntry? && log[j].call.requestId == id && log[j].reply.Some?
    ensures TakesOf(log, id) >= 2
  {
    if j < |log| - 1 {
      TwoTakesCount(log[..|log| - 1], id, i, j);
    } else {
      OneTakeCounts(log[..|log| - 1], id, i);
    }
  }

  lemma {:induction false} OneTakeCounts(log: seq<Entry>, id: string, i: nat)
    requires i < |log| && log[i].TakeEntry? && log[i].call.requestId == id && log[i].reply.Some?
    ensures TakesOf(log, id) >= 1
  {
    if i < |log| - 1 {
      OneTakeCounts(log[..|log| - 1], id, i);
    }
  }

  /** Of any number of concurrent transactions at most one returns the request of an id that was
      stored at most once. */
  lemma AtMostOneTransactionTakes(table: map<string, PendingSamlRequest>, steps: seq<Step>, id: string, tx: nat,
                                  tx': nat)
    requires var s := Run(Start(table), steps);
             && Present(AsTables(table), id) + StoresOf(s.log, id) <= 1
             && tx in s.transactions && tx' in s.transactions
             && s.transactions[tx].Committed? && s.transactions[tx].call.requestId == id
             && s.transactions[tx].reply.Some?
             && s.transactions[tx'].Committed? && s.transactions[tx'].call.requestId == id
             && s.transactions[tx'].reply.Some?
    ensures tx == tx'
  {
    var s := Run(Start(table), steps);
    InterleavingIsAtomic(table, steps);
    TakesAreStored(AsTables(table), s.log, id);
    var i :| 0 <= i < |s.log| && s.log[i] == TakeEntry(tx, s.transactions[tx].call, s.transactions[tx].reply);
    var j :| 0 <= j < |s.log| && s.log[j] == TakeEntry(tx', s.transactions[tx'].call, s.transactions[tx'].reply);
    if i < j {
      TwoTakesCount(s.log, id, i, j);
    } else if j < i {
      TwoTakesCount(s.log, id, j, i);
    }
  }
}
