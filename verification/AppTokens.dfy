/** App tokens from issue to revocation: the token table (server/src/database/impls/sqlite.rs; the
    other backends run the same statements), the issue helper (server/src/server/endpoints/mod.rs)
    and the remaining lifetime reported to a client (server/src/middleware/app_token_extract.rs).
    Times are whole seconds. A statement runs any amount of time after the clock reading it uses. */
module AppTokens {
  import opened Wrappers

  datatype AppToken = AppToken(
    entity: string, policies: seq<string>, expiry: int, renewable: bool, leaseDurationSecs: int, createdAt: int)

  type TokenTable = map<string, AppToken>

  datatype TokenError = AlreadyExists | NotFoundExpiredOrNotRenewable

  /** The record of a new token: it expires unless its lease is 0 or less. */
  function NewToken(entity: string, policies: seq<string>, lease: int, renewable: bool, now: int): AppToken {
    AppToken(entity, policies, if lease > 0 then now + lease else 0, renewable, lease, now)
  }

  function Issue(t: TokenTable, hash: string, token: AppToken): (TokenTable, Result<(), TokenError>) {
    if hash in t then (t, Failure(AlreadyExists)) else (t[hash := token], Success(()))
  }

  function Lookup(t: TokenTable, hash: string, now: int): Option<AppToken> {
    if hash in t && (t[hash].expiry == 0 || t[hash].expiry > now) then Some(t[hash]) else None
  }

  function Renew(t: TokenTable, hash: string, now: int): (TokenTable, Result<(), TokenError>) {
    if hash !in t || !t[hash].renewable then (t, Failure(NotFoundExpiredOrNotRenewable))
    else if t[hash].expiry == 0 then (t, Success(()))
    else if t[hash].expiry > 0 && t[hash].expiry > now then
      (t[hash := t[hash].(expiry := now + t[hash].leaseDurationSecs)], Success(()))
    else (t, Failure(NotFoundExpiredOrNotRenewable))
  }

  /** The lifetime reported for a token that was found, at a later reading. */
  function Ttl(token: AppToken, now: int): int {
    if token.expiry == 0 then token.leaseDurationSecs
    else if token.expiry - now > 0 then token.expiry - now else 0
  }

  class AppTokenStore {
    var tokens: TokenTable

    constructor ()
      ensures tokens == map[]
    {
      tokens := map[];
    }

    method IssueAppToken(hash: string, entity: string, policies: seq<string>, lease: int, renewable: bool, now: int)
      returns (r: Result<(), TokenError>)
      modifies this
      ensures (tokens, r) == Issue(old(tokens), hash, NewToken(entity, policies, lease, renewable, now))
      ensures hash in old(tokens) ==> r == Failure(AlreadyExists) && tokens == old(tokens)
      ensures hash !in old(tokens) ==>
                && r == Success(()) && tokens.Keys == old(tokens).Keys + {hash}
                && (forall other <- old(tokens) :: tokens[other] == old(tokens)[other])
                && var token := tokens[hash];
                   && token.entity == entity && token.policies == policies && token.renewable == renewable
                   && token.leaseDurationSecs == lease && token.createdAt == now
                   && (lease > 0 ==> token.expiry == now + lease) && (lease <= 0 ==> token.expiry == 0)
    {
      var expiry := 0;
      if lease > 0 {
        expiry := now + lease;
      }
      if hash in tokens {
        return Failure(AlreadyExists);
      }
      tokens := tokens[hash := AppToken(entity, policies, expiry, renewable, lease, now)];
      return Success(());
    }

    method LookupAppToken(hash: string, now: int) returns (r: Option<AppToken>)
      ensures r == Lookup(tokens, hash, now)
      ensures r.Some? <==> hash in tokens && (tokens[hash].expiry == 0 || now < tokens[hash].expiry)
      ensures r.Some? ==> r.value == tokens[hash]
    {
      if hash in tokens && (tokens[hash].expiry == 0 || tokens[hash].expiry > now) {
        return Some(tokens[hash]);
      }
      return None;
    }

    /** An UPDATE, and when it hits no row a look for a renewable token that never expires. */
    method RenewAppToken(hash: string, now: int) returns (r: Result<(), TokenError>)
      modifies this
      ensures (tokens, r) == Renew(old(tokens), hash, now)
      ensures r.Success? <==> && hash in old(tokens) && old(tokens)[hash].renewable
                              && var expiry := old(tokens)[hash].expiry; expiry == 0 || (expiry > 0 && expiry > now)
      ensures r.Failure? ==> tokens == old(tokens)
      ensures r.Success? && old(tokens)[hash].expiry == 0 ==> tokens == old(tokens)
      ensures r.Success? && old(tokens)[hash].expiry != 0 ==>
                var token := old(tokens)[hash];
                tokens == old(tokens)[hash := token.(expiry := now + token.leaseDurationSecs)]
    {
      var rowsAffected := 0;
      if hash in tokens && tokens[hash].renewable && tokens[hash].expiry > 0 && tokens[hash].expiry > now {
        tokens := tokens[hash := tokens[hash].(expiry := now + tokens[hash].leaseDurationSecs)];
        rowsAffected := 1;
      }
      if rowsAffected == 0 {
        var nonExpiring := hash in tokens && tokens[hash].renewable && tokens[hash].expiry == 0;
        if !nonExpiring {
          return Failure(NotFoundExpiredOrNotRenewable);
        }
      }
      return Success(());
    }

    /** At no reading is the token found or renewed afterwards; every other token is found and renewed
        as before. */
    method RevokeAppToken(hash: string)
      modifies this
      ensures forall now ::
                && Lookup(tokens, hash, now).None?
                && Renew(tokens, hash, now) == (tokens, Failure(NotFoundExpiredOrNotRenewable))
      ensures forall other, now | other != hash ::
                && Lookup(tokens, other, now) == Lookup(old(tokens), other, now)
                && Renew(tokens, other, now).1 == Renew(old(tokens), other, now).1
      ensures hash !in tokens
          && old(tokens) == if hash in old(tokens) then tokens[hash := old(tokens)[hash]] else tokens
    {
      tokens := tokens - {hash};
    }
  }

  // ---- The lifecycle ----

  /** `setAt` is the clock reading from which the expiry of a token was last set, at its issue or a
      renewal. `issued` holds every hash ever used; hashes are of fresh random tokens. */
  datatype State = State(now: int, tokens: TokenTable, issued: set<string>, setAt: map<string, int>)

  /** An issue and a renewal read the clock, and any amount of time later their statement runs. */
  datatype Step =
    | Tick(seconds: nat)
    | IssueStep(hash: string, entity: string, policies: seq<string>, lease: int, renewable: bool, reading: int)
    | RenewStep(hash: string, reading: int)
    | RevokeStep(hash: string)

  function Exec(s: State, step: Step): State {
    match step
    case Tick(seconds) => s.(now := s.now + seconds)
    case IssueStep(hash, entity, policies, lease, renewable, reading) =>
      if !(0 <= reading <= s.now) || hash in s.issued then s else
      var (t, r) := Issue(s.tokens, hash, NewToken(entity, policies, lease, renewable, reading));
      if r.Failure? then s else s.(tokens := t, issued := s.issued + {hash}, setAt := s.setAt[hash := reading])
    case RenewStep(hash, reading) =>
      if !Renews(s, step) then s
      else s.(tokens := Renew(s.tokens, hash, reading).0, setAt := s.setAt[hash := reading])
    case RevokeStep(hash) => s.(tokens := s.tokens - {hash})
  }

  /** The step's UPDATE hits the row of an expiring token. */
  predicate Renews(s: State, step: Step) {
    && step.RenewStep? && 0 <= step.reading <= s.now
    && Renew(s.tokens, step.hash, step.reading).1.Success? && s.tokens[step.hash].expiry != 0
  }

  function Run(s: State, steps: seq<Step>): State
    decreases |steps|
  {
    if steps == [] then s else Run(Exec(s, steps[0]), steps[1..])
  }

  function Start(now: int): State {
    State(now, map[], {}, map[])
  }

  /** An expiry is 0, for a lease of 0 or less, or exactly the lease after it was last set. */
  ghost predicate Inv(s: State) {
    && s.now >= 0
    && (forall hash <- s.tokens ::
          && hash in s.issued && hash in s.setAt && 0 <= s.setAt[hash] <= s.now
          && s.tokens[hash].expiry
             == if s.tokens[hash].leaseDurationSecs > 0 then s.setAt[hash] + s.tokens[hash].leaseDurationSecs else 0)
  }

  lemma StepKeepsInv(s: State, step: Step)
    requires Inv(s)
    ensures Inv(Exec(s, step)) && Exec(s, step).now >= s.now
  {
  }

  lemma {:induction false} ReachableInv(s: State, steps: seq<Step>)
    requires Inv(s)
    ensures Inv(Run(s, steps)) && Run(s, steps).now >= s.now
    decreases |steps|
  {
    if steps != [] {
      StepKeepsInv(s, steps[0]);
      ReachableInv(Exec(s, steps[0]), steps[1..]);
    }
  }

  /** A token that was issued and is gone or expired. */
  predicate Dead(s: State, hash: string) {
    hash in s.issued && (hash !in s.tokens || (s.tokens[hash].expiry != 0 && s.tokens[hash].expiry <= s.now))
  }

  /** A dead token is exactly one that a lookup does not find; and then a renewal that reads the clock now
      refuses it too. */
  lemma DeadIsNotFound(s: State, hash: string)
    requires hash in s.issued
    ensures Dead(s, hash) <==> Lookup(s.tokens, hash, s.now).None?
    ensures Dead(s, hash) ==> Renew(s.tokens, hash, s.now) == (s.tokens, Failure(NotFoundExpiredOrNotRenewable))
  {
  }

  // ---- What no run does to a token ----

  /** What one run does to a token that was issued before it. */
  ghost predicate Evolves(s: State, s': State, hash: string) {
    && (hash !in s.tokens ==> hash !in s'.tokens)
    && (hash in s.tokens && hash in s'.tokens ==>
          && s'.tokens[hash] == s.tokens[hash].(expiry := s'.tokens[hash].expiry)
          && (s.tokens[hash].expiry == 0 <==> s'.tokens[hash].expiry == 0)
          && (!s.tokens[hash].renewable ==> s'.tokens[hash] == s.tokens[hash]))
  }

  lemma StepEvolves(s: State, step: Step, hash: string)
    requires Inv(s) && hash in s.issued
    ensures Evolves(s, Exec(s, step), hash) && hash in Exec(s, step).issued
  {
  }

  /** Over any run from a reachable state: a revoked token never comes back; only a renewable token's
      expiry changes, nothing else about a token does, and the expiry 0 is never entered or left. */
  lemma {:induction false} TokensEvolve(s: State, steps: seq<Step>, hash: string)
    requires Inv(s) && hash in s.issued
    ensures Inv(Run(s, steps)) && Evolves(s, Run(s, steps), hash)
    decreases |steps|
  {
    if steps != [] {
      StepKeepsInv(s, steps[0]);
      StepEvolves(s, steps[0], hash);
      TokensEvolve(Exec(s, steps[0]), steps[1..], hash);
    }
  }

  /** Revocation is final: whatever follows it, the token is found and renewed at no reading. */
  lemma RevokedForEver(start: int, before: seq<Step>, hash: string, after: seq<Step>, reading: int)
    requires start >= 0 && hash in Run(Start(start), before).issued
    ensures var s := Run(Exec(Run(Start(start), before), RevokeStep(hash)), after);
            && Lookup(s.tokens, hash, reading).None?
            && Renew(s.tokens, hash, reading).1.Failure?
  {
    ReachableInv(Start(start), before);
    var s := Exec(Run(Start(start), before), RevokeStep(hash));
    StepKeepsInv(Run(Start(start), before), RevokeStep(hash));
    TokensEvolve(s, after, hash);
  }

  // ---- Exactly when an expiry decreases ----

  /** The renewal read the clock before the reading from which the expiry was last set. */
  predicate Overtaken(s: State, step: Step, hash: string) {
    Renews(s, step) && step.hash == hash && hash in s.setAt && step.reading < s.setAt[hash]
  }

  predicate NeverOvertaken(s: State, steps: seq<Step>, hash: string)
    decreases |steps|
  {
    steps == [] || (!Overtaken(s, steps[0], hash) && NeverOvertaken(Exec(s, steps[0]), steps[1..], hash))
  }

  predicate Decreases(s: State, s': State, hash: string) {
    hash in s.tokens && hash in s'.tokens && s'.tokens[hash].expiry < s.tokens[hash].expiry
  }

  /** No step of the run lowers the token's expiry. */
  predicate NeverDecreases(s: State, steps: seq<Step>, hash: string)
    decreases |steps|
  {
    steps == [] || (!Decreases(s, Exec(s, steps[0]), hash) && NeverDecreases(Exec(s, steps[0]), steps[1..], hash))
  }

  lemma StepDecreasesExactly(s: State, step: Step, hash: string)
    requires Inv(s)
    ensures Decreases(s, Exec(s, step), hash) <==> Overtaken(s, step, hash)
  {
  }

  lemma {:induction false} RunDecreasesExactly(s: State, steps: seq<Step>, hash: string)
    requires Inv(s)
    ensures NeverDecreases(s, steps, hash) <==> NeverOvertaken(s, steps, hash)
    decreases |steps|
  {
    if steps != [] {
      StepDecreasesExactly(s, steps[0], hash);
      StepKeepsInv(s, steps[0]);
      RunDecreasesExactly(Exec(s, steps[0]), steps[1..], hash);
    }
  }

  /** Expiries never decrease exactly in the runs in which no renewal takes effect after one that read
      the clock later. */
  lemma ExpiriesDecreaseExactlyWhen(start: int, steps: seq<Step>, hash: string)
    requires start >= 0
    ensures NeverDecreases(Start(start), steps, hash) <==> NeverOvertaken(Start(start), steps, hash)
  {
    RunDecreasesExactly(Start(start), steps, hash);
  }

  // ---- Exactly when an expired token returns ----

  /** The renewal read the clock before the expiry, takes effect after it, and sets one still ahead. */
  predicate Revives(s: State, step: Step, hash: string) {
    && Renews(s, step) && step.hash == hash
    && s.tokens[hash].expiry <= s.now < step.reading + s.tokens[hash].leaseDurationSecs
  }

  predicate NeverRevives(s: State, steps: seq<Step>, hash: string)
    decreases |steps|
  {
    steps == [] || (!Revives(s, steps[0], hash) && NeverRevives(Exec(s, steps[0]), steps[1..], hash))
  }

  /** The token is dead all through the run. */
  predicate StaysDead(s: State, steps: seq<Step>, hash: string)
    decreases |steps|
  {
    Dead(s, hash) && (steps == [] || StaysDead(Exec(s, steps[0]), steps[1..], hash))
  }

  lemma StepRevivesExactly(s: State, step: Step, hash: string)
    requires Inv(s) && Dead(s, hash)
    ensures Dead(Exec(s, step), hash) <==> !Revives(s, step, hash)
  {
  }

  /** A dead token stays dead exactly in the runs in which no renewal that read the clock before its
      expiry takes effect after it and sets an expiry ahead of that moment. */
  lemma {:induction false} DeadTokensReturnExactlyWhen(s: State, steps: seq<Step>, hash: string)
    requires Inv(s) && Dead(s, hash)
    ensures StaysDead(s, steps, hash) <==> NeverRevives(s, steps, hash)
    decreases |steps|
  {
    if steps != [] {
      StepRevivesExactly(s, steps[0], hash);
      StepKeepsInv(s, steps[0]);
      if Dead(Exec(s, steps[0]), hash) {
        DeadTokensReturnExactlyWhen(Exec(s, steps[0]), steps[1..], hash);
      }
    }
  }

  /** Every renewal of the run takes effect at its clock reading. */
  predicate RenewsAtOnce(s: State, steps: seq<Step>)
    decreases |steps|
  {
    steps == [] || ((steps[0].RenewStep? ==> steps[0].reading == s.now) && RenewsAtOnce(Exec(s, steps[0]), steps[1..]))
  }

  /** So neither happens when renewals take effect at their clock readings. */
  lemma {:induction false} PromptRenewalsAreMonotone(s: State, steps: seq<Step>, hash: string)
    requires Inv(s) && RenewsAtOnce(s, steps)
    ensures NeverDecreases(s, steps, hash) && (Dead(s, hash) ==> StaysDead(s, steps, hash))
    decreases |steps|
  {
    if steps != [] {
      StepKeepsInv(s, steps[0]);
      StepDecreasesExactly(s, steps[0], hash);
      if Dead(s, hash) {
        StepRevivesExactly(s, steps[0], hash);
      }
      PromptRenewalsAreMonotone(Exec(s, steps[0]), steps[1..], hash);
    }
  }

  /** Both happen. With a lease of 100 from 100, a renewal at 151 sets 251, and one that read the clock at
      150 and comes after it sets 250. */
  lemma LateRenewalLowersTheExpiry(hash: string, entity: string, policies: seq<string>)
    ensures var steps := [IssueStep(hash, entity, policies, 100, true, 100), Tick(51), RenewStep(hash, 151)];
            var s := Run(Start(100), steps);
            Decreases(s, Exec(s, RenewStep(hash, 150)), hash)
  {
    var steps := [IssueStep(hash, entity, policies, 100, true, 100), Tick(51), RenewStep(hash, 151)];
    var rest, last := steps[1..], steps[2..];
    assert rest[1..] == last && last[1..] == [];
    var s1 := Exec(Start(100), steps[0]);
    var s2 := Exec(s1, steps[1]);
    assert Run(s2, last) == Exec(s2, steps[2]) && Run(s1, rest) == Run(s2, last);
  }

  /** And at 204 a lookup does not find it, but does after a renewal that read the clock at 199. */
  lemma LateRenewalRevives(hash: string, entity: string, policies: seq<string>)
    ensures var s := Run(Start(100), [IssueStep(hash, entity, policies, 100, true, 100), Tick(104)]);
            && Lookup(s.tokens, hash, s.now).None?
            && Lookup(Exec(s, RenewStep(hash, 199)).tokens, hash, s.now).Some?
  {
    var steps := [IssueStep(hash, entity, policies, 100, true, 100), Tick(104)];
    var rest := steps[1..];
    assert rest[1..] == [];
    var s1 := Exec(Start(100), steps[0]);
    assert Run(s1, rest) == Exec(s1, steps[1]);
  }

  // ---- Lifetimes ----

  /** In every reachable state the lifetime reported, now or later, for a token that a lookup finds with
      this or an older clock reading lies between 0 and its lease; right after a renewal it is the lease
      less the age of the renewal's reading. */
  lemma TtlIsWithinLease(start: int, steps: seq<Step>, hash: string, readAt: int, reportedAt: int)
    requires start >= 0
    requires var s := Run(Start(start), steps); readAt <= s.now <= reportedAt && Lookup(s.tokens, hash, readAt).Some?
    ensures var s := Run(Start(start), steps);
            var token := Lookup(s.tokens, hash, readAt).value;
            && (token.expiry == 0 ==> Ttl(token, reportedAt) == token.leaseDurationSecs)
            && (token.expiry != 0 ==>
                  && 0 <= Ttl(token, reportedAt) <= token.leaseDurationSecs
                  && (Ttl(token, reportedAt) == token.expiry - reportedAt
                      || (Ttl(token, reportedAt) == 0 && token.expiry <= reportedAt)))
            && (token.expiry != 0 && token.renewable && readAt >= 0 ==>
                  var renewed := Exec(s, RenewStep(hash, readAt)).tokens;
                  && hash in renewed && Ttl(renewed[hash], readAt) == token.leaseDurationSecs
                  && Ttl(renewed[hash], reportedAt)
                     == if reportedAt - readAt < token.leaseDurationSecs
                        then token.leaseDurationSecs - (reportedAt - readAt) else 0)
  {
    ReachableInv(Start(start), steps);
  }

  /** An expiring token lives exactly until its lease after the reading of its issue or last renewal: it
      is found at every reading before and at none from then on. */
  lemma FoundExactlyWithinLease(start: int, steps: seq<Step>, hash: string, readAt: int)
    requires start >= 0
    requires var s := Run(Start(start), steps); hash in s.tokens && s.tokens[hash].leaseDurationSecs > 0
    ensures var s := Run(Start(start), steps);
            && hash in s.setAt
            && (Lookup(s.tokens, hash, readAt).Some? <==> readAt < s.setAt[hash] + s.tokens[hash].leaseDurationSecs)
  {
    ReachableInv(Start(start), steps);
  }
}
