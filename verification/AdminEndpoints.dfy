/** Who may administer which realm: the admin endpoints (server/src/server/endpoints/admin_endpoints.rs),
    their authorization helpers (server/src/server/endpoints/mod.rs) and the deletion of realms
    (server/src/server/endpoints/super_admins_endpoints.rs), over the tables `realm`, `admin` and
    `admin_realms`. */
module AdminEndpoints {
  import opened Wrappers

  const ADMIN_REALM := "_"

  /** `admins` maps an admin's id to the realms it administers. */
  datatype Database = Database(realms: set<string>, admins: map<string, seq<string>>)
  {
    /** The foreign key and the primary key of `admin_realms`. */
    ghost predicate Valid() {
      forall id <- admins :: NoDuplicates(admins[id]) && forall realm <- admins[id] :: realm in realms
    }
  }

  ghost predicate NoDuplicates(s: seq<string>) {
    forall i, j | 0 <= i < j < |s| :: s[i] != s[j]
  }

  datatype Refusal = NotAuthenticated | Forbidden | NotFound | AlreadyExists | DatabaseError

  type Outcome = Result<(), Refusal>

  // ---- Authorization ----

  predicate IsSuper(requester: seq<string>) {
    ADMIN_REALM in requester
  }

  /** The realms that have an admin. */
  function Claimed(admins: map<string, seq<string>>): set<string> {
    set id, realm | id in admins && realm in admins[id] :: realm
  }

  /** `requester` is the realm list of the admin who asks. */
  predicate CanManageRealm(requester: seq<string>, realm: string, admins: map<string, seq<string>>) {
    realm in requester || (IsSuper(requester) && !exists id <- admins :: realm in admins[id])
  }

  predicate CanManageAdminRealms(requester: seq<string>, realms: seq<string>, admins: map<string, seq<string>>) {
    if realms == [] then IsSuper(requester)
    else forall realm <- realms :: CanManageRealm(requester, realm, admins)
  }

  /** The check on one realm when the claimed realms were computed beforehand. */
  predicate ManageableGivenClaims(requester: seq<string>, realm: string, claimed: set<string>) {
    realm in requester || (IsSuper(requester) && realm !in claimed)
  }

  // ---- Who administers what ----

  function AdminsOf(db: Database, realm: string): set<string> {
    set id | id in db.admins && realm in db.admins[id]
  }

  function SuperAdmins(db: Database): set<string> {
    AdminsOf(db, "_")
  }

  /** A realm is its admins' to manage; a realm without admins is the super admins'. */
  ghost predicate Manages(db: Database, caller: string, realm: string) {
    caller in AdminsOf(db, realm) || (AdminsOf(db, realm) == {} && caller in SuperAdmins(db))
  }

  /** For every realm of the list; and an empty list is the super admins'. */
  ghost predicate ManagesAll(db: Database, caller: string, realms: seq<string>) {
    if realms == [] then caller in SuperAdmins(db) else forall realm <- realms :: Manages(db, caller, realm)
  }

  /** All realms of an existing admin are the caller's own; one without realms is the super admins'. */
  ghost predicate Owns(db: Database, caller: string, id: string)
    requires id in db.admins
  {
    if db.admins[id] == [] then caller in SuperAdmins(db)
    else forall realm <- db.admins[id] :: caller in AdminsOf(db, realm)
  }

  /** The helpers decide exactly this. */
  lemma HelpersDecideManaging(db: Database, caller: string, realms: seq<string>)
    requires caller in db.admins
    ensures IsSuper(db.admins[caller]) <==> caller in SuperAdmins(db)
    ensures forall realm :: CanManageRealm(db.admins[caller], realm, db.admins) <==> Manages(db, caller, realm)
    ensures CanManageAdminRealms(db.admins[caller], realms, db.admins) <==> ManagesAll(db, caller, realms)
  {
    forall realm ensures CanManageRealm(db.admins[caller], realm, db.admins) <==> Manages(db, caller, realm) {
      if id :| id in db.admins && realm in db.admins[id] {
        assert id in AdminsOf(db, realm);
      }
    }
  }

  /** Of an existing admin nobody manages a realm but its own admins. */
  lemma ManagingIsOwning(db: Database, caller: string, id: string)
    requires caller in db.admins && id in db.admins
    ensures CanManageAdminRealms(db.admins[caller], db.admins[id], db.admins) <==> Owns(db, caller, id)
  {
    HelpersDecideManaging(db, caller, db.admins[id]);
    forall realm <- db.admins[id] ensures Manages(db, caller, realm) <==> caller in AdminsOf(db, realm) {
      assert id in AdminsOf(db, realm);
    }
  }

  // ---- The database operations ----

  /** The inserts into `admin_realms` run one by one; the first that breaks the foreign key or the
      primary key fails, and those before it stay. */
  function StoredRealms(known: set<string>, wanted: seq<string>): seq<string>
    decreases |wanted|
  {
    if wanted == [] then []
    else
      var n := |wanted| - 1;
      var before := StoredRealms(known, wanted[..n]);
      if |before| == n && wanted[n] in known && wanted[n] !in before then wanted else before
  }

  function PutRealms(db: Database, id: string, wanted: seq<string>): (Database, Outcome) {
    var stored := StoredRealms(db.realms, wanted);
    (db.(admins := db.admins[id := stored]), if stored == wanted then Success(()) else Failure(DatabaseError))
  }

  function Without<T(==)>(s: seq<T>, x: T): seq<T> {
    if s == [] then [] else (if s[0] == x then [] else [s[0]]) + Without(s[1..], x)
  }

  // ---- The endpoints ----

  datatype Request =
    | CreateAdmin(id: string, realms: seq<string>)
    | UpdateAdmin(id: string, realms: seq<string>)
    | DeleteAdmin(id: string)
    | AddToRealm(id: string, realm: string)
    | RemoveFromRealm(id: string, realm: string)
    | CreateRealm(realm: string)
    | DeleteRealm(realm: string)

  /** A request and the id of the admin who makes it. */
  datatype Step = Step(caller: string, request: Request)

  function Handle(db: Database, caller: string, request: Request): (Database, Outcome) {
    if caller !in db.admins then (db, Failure(NotAuthenticated)) else
    var me := db.admins[caller];
    match request
    case CreateAdmin(id, realms) =>
      if !CanManageAdminRealms(me, realms, db.admins) then (db, Failure(Forbidden))
      else if id in db.admins then (db, Failure(AlreadyExists))
      else PutRealms(db, id, realms)
    case UpdateAdmin(id, realms) =>
      if id !in db.admins then (db, Failure(NotFound))
      else if !CanManageAdminRealms(me, db.admins[id], db.admins) then (db, Failure(Forbidden))
      else if !CanManageAdminRealms(me, realms, db.admins) then (db, Failure(Forbidden))
      else PutRealms(db, id, realms)
    case DeleteAdmin(id) =>
      if id !in db.admins then (db, if IsSuper(me) then Success(()) else Failure(NotFound))
      else if !CanManageAdminRealms(me, db.admins[id], db.admins) then (db, Failure(Forbidden))
      else (db.(admins := db.admins - {id}), Success(()))
    case AddToRealm(id, realm) =>
      if !CanManageRealm(me, realm, db.admins) then (db, Failure(Forbidden))
      else if id !in db.admins then (db, Failure(NotFound))
      else if db.admins[id] != [] && !CanManageAdminRealms(me, db.admins[id], db.admins) then (db, Failure(Forbidden))
      else if realm in db.admins[id] then (db, Success(()))
      else PutRealms(db, id, db.admins[id] + [realm])
    case RemoveFromRealm(id, realm) =>
      if !CanManageRealm(me, realm, db.admins) then (db, Failure(Forbidden))
      else if id !in db.admins then (db, Failure(NotFound))
      else if !CanManageAdminRealms(me, db.admins[id], db.admins) then (db, Failure(Forbidden))
      else if realm !in db.admins[id] then (db, Success(()))
      else PutRealms(db, id, Without(db.admins[id], realm))
    case CreateRealm(realm) =>
      if !IsSuper(me) then (db, Failure(Forbidden))
      else if realm in db.realms then (db, Failure(AlreadyExists))
      else (db.(realms := db.realms + {realm}), Success(()))
    case DeleteRealm(realm) =>
      // A super admin may delete any realm; its memberships go with it.
      if !(IsSuper(me) || realm in me) then (db, Failure(Forbidden))
      else
        (Database(db.realms - {realm}, map id | id in db.admins :: Without(db.admins[id], realm)), Success(()))
  }

  function Exec(db: Database, step: Step): Database {
    Handle(db, step.caller, step.request).0
  }

  function Run(db: Database, steps: seq<Step>): Database
    decreases |steps|
  {
    if steps == [] then db else Run(Exec(db, steps[0]), steps[1..])
  }

  // ---- The endpoints as they change the tables ----

  class AdminApi {
    var realms: set<string>
    var admins: map<string, seq<string>>

    ghost function Contents(): Database
      reads this
    {
      Database(realms, admins)
    }

    /** `update_admin` and `create_admin` of the database: the row, then its realms one at a time. */
    method PutAdmin(id: string, wanted: seq<string>) returns (r: Outcome)
      modifies this
      ensures (Contents(), r) == PutRealms(old(Contents()), id, wanted)
    {
      admins := admins[id := []];
      for i := 0 to |wanted|
        invariant realms == old(realms)
        invariant admins == old(admins)[id := wanted[..i]]
        invariant StoredRealms(realms, wanted[..i]) == wanted[..i]
      {
        assert wanted[..i + 1][..i] == wanted[..i];
        if wanted[i] !in realms || wanted[i] in admins[id] {
          StopsAt(realms, wanted, i);
          return Failure(DatabaseError);
        }
        admins := admins[id := admins[id] + [wanted[i]]];
        assert wanted[..i + 1] == wanted[..i] + [wanted[i]];
      }
      assert wanted[..|wanted|] == wanted;
      return Success(());
    }

    method CreateAdmin(caller: string, id: string, wanted: seq<string>) returns (r: Outcome)
      modifies this
      ensures (Contents(), r) == Handle(old(Contents()), caller, Request.CreateAdmin(id, wanted))
    {
      if caller !in admins {
        return Failure(NotAuthenticated);
      }
      if !CanManageAdminRealms(admins[caller], wanted, admins) {
        return Failure(Forbidden);
      }
      if id in admins {
        return Failure(AlreadyExists);
      }
      r := PutAdmin(id, wanted);
    }

    method UpdateAdmin(caller: string, id: string, wanted: seq<string>) returns (r: Outcome)
      modifies this
      ensures (Contents(), r) == Handle(old(Contents()), caller, Request.UpdateAdmin(id, wanted))
    {
      if caller !in admins {
        return Failure(NotAuthenticated);
      }
      if id !in admins {
        return Failure(NotFound);
      }
      if !CanManageAdminRealms(admins[caller], admins[id], admins)
          || !CanManageAdminRealms(admins[caller], wanted, admins) {
        return Failure(Forbidden);
      }
      r := PutAdmin(id, wanted);
    }

    method DeleteAdmin(caller: string, id: string) returns (r: Outcome)
      modifies this
      ensures (Contents(), r) == Handle(old(Contents()), caller, Request.DeleteAdmin(id))
    {
      if caller !in admins {
        return Failure(NotAuthenticated);
      }
      if id in admins && !CanManageAdminRealms(admins[caller], admins[id], admins) {
        return Failure(Forbidden);
      }
      if id !in admins && !IsSuper(admins[caller]) {
        return Failure(NotFound);
      }
      if id in admins {
        admins := admins - {id};
      }
      return Success(());
    }

    method AddAdminToRealm(caller: string, id: string, realm: string) returns (r: Outcome)
      modifies this
      ensures (Contents(), r) == Handle(old(Contents()), caller, AddToRealm(id, realm))
    {
      if caller !in admins {
        return Failure(NotAuthenticated);
      }
      if !CanManageRealm(admins[caller], realm, admins) {
        return Failure(Forbidden);
      }
      if id !in admins {
        return Failure(NotFound);
      }
      if admins[id] != [] && !CanManageAdminRealms(admins[caller], admins[id], admins) {
        return Failure(Forbidden);
      }
      r := Success(());
      if realm !in admins[id] {
        r := PutAdmin(id, admins[id] + [realm]);
      }
    }

    method RemoveAdminFromRealm(caller: string, id: string, realm: string) returns (r: Outcome)
      modifies this
      ensures (Contents(), r) == Handle(old(Contents()), caller, RemoveFromRealm(id, realm))
    {
      if caller !in admins {
        return Failure(NotAuthenticated);
      }
      if !CanManageRealm(admins[caller], realm, admins) {
        return Failure(Forbidden);
      }
      if id !in admins {
        return Failure(NotFound);
      }
      if !CanManageAdminRealms(admins[caller], admins[id], admins) {
        return Failure(Forbidden);
      }
      var before := |admins[id]|;
      var kept := Without(admins[id], realm);
      WithoutIsFilter(admins[id], realm);
      r := Success(());
      if |kept| < before {
        r := PutAdmin(id, kept);
      }
    }

    /** The ids in the list that `list_admins` returns: the claimed realms are computed once, and
        every admin is then judged against them. */
    method ListAdmins(caller: string, order: seq<string>) returns (r: Result<seq<string>, Refusal>)
      requires forall id :: id in order <==> id in admins
      requires forall i, j | 0 <= i < j < |order| :: order[i] != order[j]
      ensures r.Success? <==> caller in SuperAdmins(Contents())
      ensures r == Failure(NotAuthenticated) <==> caller !in admins
      ensures r.Failure? ==> r.error == NotAuthenticated || r.error == Forbidden
      ensures r.Success? ==> r.value == Visible(Contents(), caller, order)
    {
      if caller !in admins {
        return Failure(NotAuthenticated);
      }
      var requester := admins[caller];
      if !IsSuper(requester) {
        return Failure(Forbidden);
      }
      var claimed := {};
      for i := 0 to |order|
        invariant forall realm :: realm in claimed <==> exists j | 0 <= j < i :: realm in admins[order[j]]
      {
        assert order[i] in admins;
        claimed := claimed + (set realm | realm in admins[order[i]]);
      }
      assert claimed == Claimed(admins);
      ClaimedIsExists(admins);
      var visible := [];
      for i := 0 to |order|
        invariant visible == Visible(Contents(), caller, order[..i])
      {
        assert order[i] in admins;
        var target := admins[order[i]];
        var keep := if target == [] then IsSuper(requester)
                    else forall realm <- target :: ManageableGivenClaims(requester, realm, claimed);
        assert keep == CanManageAdminRealms(requester, target, admins);
        assert order[..i + 1][..i] == order[..i];
        if keep {
          visible := visible + [order[i]];
        }
      }
      assert order[..|order|] == order;
      return Success(visible);
    }
  }

  lemma StopsAt(known: set<string>, wanted: seq<string>, i: nat)
    requires i < |wanted| && StoredRealms(known, wanted[..i]) == wanted[..i]
    requires wanted[i] !in known || wanted[i] in wanted[..i]
    ensures StoredRealms(known, wanted) == wanted[..i]
    decreases |wanted|
  {
    var n := |wanted| - 1;
    if i < n {
      assert wanted[..n][..i] == wanted[..i];
      StopsAt(known, wanted[..n], i);
    }
  }

  lemma {:induction false} WithoutIsFilter<T>(s: seq<T>, x: T)
    ensures x !in Without(s, x)
    ensures forall y | y != x :: y in s <==> y in Without(s, x)
    ensures |Without(s, x)| <= |s| && (|Without(s, x)| == |s| <==> x !in s)
  {
    if s != [] {
      WithoutIsFilter(s[1..], x);
    }
  }

  lemma {:induction false} WithoutKeepsDistinct(s: seq<string>, x: string)
    requires NoDuplicates(s)
    ensures NoDuplicates(Without(s, x))
  {
    if s != [] {
      WithoutKeepsDistinct(s[1..], x);
      WithoutIsFilter(s[1..], x);
      assert s[0] !in s[1..];
    }
  }

  lemma ClaimedIsExists(admins: map<string, seq<string>>)
    ensures forall realm :: realm in Claimed(admins) <==> exists id <- admins :: realm in admins[id]
  {
  }

  // ---- Listing agrees with getting ----

  /** `get_admin` answers the target exactly when this holds. */
  predicate MayGet(db: Database, caller: string, id: string) {
    caller in db.admins && id in db.admins && CanManageAdminRealms(db.admins[caller], db.admins[id], db.admins)
  }

  /** The ids that could be got one by one, in the order of the list. */
  function Visible(db: Database, caller: string, order: seq<string>): seq<string> {
    if order == [] then []
    else
      var n := |order| - 1;
      Visible(db, caller, order[..n]) + if MayGet(db, caller, order[n]) then [order[n]] else []
  }

  /** A super admin's list holds an admin exactly when it could be got by itself, and that is when the
      caller owns the admin; the list keeps the order. */
  lemma {:induction false} ListingAgreesWithGetting(db: Database, caller: string, order: seq<string>, id: string)
    ensures id in Visible(db, caller, order) <==> id in order && MayGet(db, caller, id)
    ensures MayGet(db, caller, id) <==> caller in db.admins && id in db.admins && Owns(db, caller, id)
    ensures Visible(db, caller, order + [id])
            == Visible(db, caller, order) + if MayGet(db, caller, id) then [id] else []
  {
    if caller in db.admins && id in db.admins {
      ManagingIsOwning(db, caller, id);
    }
    assert (order + [id])[..|order|] == order;
    if order != [] {
      var n := |order| - 1;
      ListingAgreesWithGetting(db, caller, order[..n], id);
      assert order == order[..n] + [order[n]];
    }
  }

  // ---- What a step can change ----

  /** The realms that are stored of those wanted: all of them, or those before the first that does not
      exist or repeats. */
  ghost predicate AreStored(stored: seq<string>, known: set<string>, wanted: seq<string>) {
    && stored <= wanted && NoDuplicates(stored) && (forall realm <- stored :: realm in known)
    && (|stored| < |wanted| ==> wanted[|stored|] !in known || wanted[|stored|] in stored)
  }

  lemma {:induction false} StoredIsPrefix(known: set<string>, wanted: seq<string>)
    ensures AreStored(StoredRealms(known, wanted), known, wanted)
    ensures forall realm <- StoredRealms(known, wanted) :: realm in wanted && realm in known
    ensures StoredRealms(known, wanted) == wanted <==> NoDuplicates(wanted) && forall realm <- wanted :: realm in known
    decreases |wanted|
  {
    if wanted != [] {
      var n := |wanted| - 1;
      StoredIsPrefix(known, wanted[..n]);
      assert wanted == wanted[..n] + [wanted[n]];
      if NoDuplicates(wanted) {
        assert NoDuplicates(wanted[..n]) && wanted[n] !in wanted[..n];
      }
    }
  }

  /** Realm memberships only ever change in realms that the requester may manage at that moment;
      the deletion of the whole realm is the one exception. A failed write is no way around it. */
  lemma ChangesAreManaged(db: Database, step: Step, realm: string)
    ensures AdminsOf(Exec(db, step), realm) != AdminsOf(db, realm) ==>
              && step.caller in db.admins
              && (Manages(db, step.caller, realm)
                  || (step.request == DeleteRealm(realm) && step.caller in SuperAdmins(db)))
  {
    if step.caller in db.admins {
      HelpersDecideManaging(db, step.caller, []);
    }
    match step.request {
      case CreateAdmin(id, realms) => PutChanges(db, id, realms, realm);
      case UpdateAdmin(id, realms) => PutChanges(db, id, realms, realm);
      case AddToRealm(id, r) =>
        if id in db.admins {
          PutChanges(db, id, db.admins[id] + [r], realm);
        }
      case RemoveFromRealm(id, r) =>
        if id in db.admins {
          WithoutIsFilter(db.admins[id], r);
          PutChanges(db, id, Without(db.admins[id], r), realm);
        }
      case DeleteRealm(r) =>
        if r != realm {
          forall id <- db.admins ensures realm in db.admins[id] <==> realm in Without(db.admins[id], r) {
            WithoutIsFilter(db.admins[id], r);
          }
          assert AdminsOf(Exec(db, step), realm) == AdminsOf(db, realm);
        }
      case DeleteAdmin(id) =>
        if id !in db.admins || realm !in db.admins[id] {
          assert AdminsOf(Exec(db, step), realm) == AdminsOf(db, realm);
        }
      case CreateRealm(_) =>
        assert AdminsOf(Exec(db, step), realm) == AdminsOf(db, realm);
    }
  }

  lemma PutChanges(db: Database, id: string, wanted: seq<string>, realm: string)
    ensures AdminsOf(PutRealms(db, id, wanted).0, realm) != AdminsOf(db, realm)
            ==> realm in wanted || (id in db.admins && realm in db.admins[id])
  {
    StoredIsPrefix(db.realms, wanted);
    if realm !in wanted && (id in db.admins ==> realm !in db.admins[id]) {
      assert AdminsOf(PutRealms(db, id, wanted).0, realm) == AdminsOf(db, realm);
    }
  }

  // ---- What each endpoint does, exactly ----

  /** Adding to a realm succeeds exactly for a requester who may manage the realm and owns the admin
      (or finds it unaffiliated), on a realm that exists; the realm gains that one admin, and nothing
      else changes. A refusal changes nothing. */
  lemma AddExactly(db: Database, caller: string, id: string, realm: string)
    requires db.Valid()
    ensures var (db', r) := Handle(db, caller, AddToRealm(id, realm));
            var allowed := Manages(db, caller, realm)
              && (id in db.admins && db.admins[id] != [] ==> Owns(db, caller, id));
            && (r.Success? <==> caller in db.admins && id in db.admins && realm in db.realms && allowed)
            && (r == Failure(NotAuthenticated) <==> caller !in db.admins)
            && (r == Failure(Forbidden) <==> caller in db.admins && !allowed)
            && (r == Failure(NotFound) <==> caller in db.admins && allowed && id !in db.admins)
            && db'.realms == db.realms && db'.admins.Keys == db.admins.Keys
            && (r.Success? ==> forall q ::
                  AdminsOf(db', q) == if q == realm then AdminsOf(db, q) + {id} else AdminsOf(db, q))
            && (r.Failure? ==> db' == db)
  {
    if caller in db.admins {
      HelpersDecideManaging(db, caller, []);
      if id in db.admins {
        ManagingIsOwning(db, caller, id);
        if realm !in db.admins[id] {
          AppendExactly(db, id, realm);
        } else {
          assert AdminsOf(db, realm) + {id} == AdminsOf(db, realm);
        }
      }
    }
  }

  lemma AppendExactly(db: Database, id: string, realm: string)
    requires db.Valid() && id in db.admins && realm !in db.admins[id]
    ensures var (db', r) := PutRealms(db, id, db.admins[id] + [realm]);
            && (r.Success? <==> realm in db.realms) && (r.Failure? ==> r.error == DatabaseError)
            && db'.realms == db.realms && db'.admins.Keys == db.admins.Keys
            && (r.Success? ==> forall q ::
                  AdminsOf(db', q) == if q == realm then AdminsOf(db, q) + {id} else AdminsOf(db, q))
            && (r.Failure? ==> db' == db)
  {
    var before := db.admins[id];
    StoredIsPrefix(db.realms, before);
    assert (before + [realm])[..|before|] == before;
    if realm !in db.realms {
      assert db.admins[id := before] == db.admins;
    }
  }

  /** Removing succeeds exactly for a requester who may manage the realm and owns the admin; the
      realm loses that admin if it had it, and nothing else changes. */
  lemma RemoveExactly(db: Database, caller: string, id: string, realm: string)
    requires db.Valid()
    ensures var (db', r) := Handle(db, caller, RemoveFromRealm(id, realm));
            var allowed := Manages(db, caller, realm) && (id in db.admins ==> Owns(db, caller, id));
            && (r.Success? <==> caller in db.admins && id in db.admins && allowed)
            && (r == Failure(NotAuthenticated) <==> caller !in db.admins)
            && (r == Failure(Forbidden) <==> caller in db.admins && !allowed)
            && (r == Failure(NotFound) <==> caller in db.admins && allowed && id !in db.admins)
            && db'.realms == db.realms && db'.admins.Keys == db.admins.Keys
            && (r.Success? ==> forall q ::
                  AdminsOf(db', q) == if q == realm then AdminsOf(db, q) - {id} else AdminsOf(db, q))
            && (r.Failure? ==> db' == db)
  {
    if caller in db.admins {
      HelpersDecideManaging(db, caller, []);
      if id in db.admins {
        ManagingIsOwning(db, caller, id);
        WithoutIsFilter(db.admins[id], realm);
        WithoutKeepsDistinct(db.admins[id], realm);
        StoredIsPrefix(db.realms, Without(db.admins[id], realm));
      }
    }
  }

  /** An update succeeds exactly when the requester owns the admin as it is and may manage every
      realm it is to have, and the new realms are distinct and exist; the admin then administers
      exactly those. An authorised update that fails in between drops realms but adds only asked-for ones. */
  lemma UpdateExactly(db: Database, caller: string, id: string, realms: seq<string>)
    requires db.Valid()
    ensures var (db', r) := Handle(db, caller, UpdateAdmin(id, realms));
            var allowed := id in db.admins && Owns(db, caller, id) && ManagesAll(db, caller, realms);
            && (r.Success? <==> caller in db.admins && allowed
                                && NoDuplicates(realms) && forall realm <- realms :: realm in db.realms)
            && (r == Failure(NotAuthenticated) <==> caller !in db.admins)
            && (r == Failure(NotFound) <==> caller in db.admins && id !in db.admins)
            && (r == Failure(Forbidden) <==> caller in db.admins && id in db.admins && !allowed)
            && (r.Success? ==> db' == db.(admins := db.admins[id := realms]))
            && (r.Success? ==> forall q ::
                  AdminsOf(db', q) == (AdminsOf(db, q) - {id}) + if q in realms then {id} else {})
            && (r.Failure? && r.error != DatabaseError ==> db' == db)
            && (r == Failure(DatabaseError) ==> id in db'.admins && AreStored(db'.admins[id], db.realms, realms)
                                                && db' == db.(admins := db.admins[id := db'.admins[id]]))
            && (r.Failure? ==> forall q :: AdminsOf(db', q) - {id} == AdminsOf(db, q) - {id}
                                           && (id in AdminsOf(db', q) ==> q in realms || id in AdminsOf(db, q)))
  {
    StoredIsPrefix(db.realms, realms);
    if caller in db.admins {
      HelpersDecideManaging(db, caller, realms);
      if id in db.admins {
        ManagingIsOwning(db, caller, id);
      }
    }
  }

  /** Creating succeeds exactly for an unused id and for distinct, existing realms that the requester
      may all manage; the new admin administers exactly those. */
  lemma CreateExactly(db: Database, caller: string, id: string, realms: seq<string>)
    ensures var (db', r) := Handle(db, caller, CreateAdmin(id, realms));
            var allowed := ManagesAll(db, caller, realms);
            && (r.Success? <==> caller in db.admins && allowed && id !in db.admins
                                && NoDuplicates(realms) && forall realm <- realms :: realm in db.realms)
            && (r == Failure(NotAuthenticated) <==> caller !in db.admins)
            && (r == Failure(Forbidden) <==> caller in db.admins && !allowed)
            && (r == Failure(AlreadyExists) <==> caller in db.admins && allowed && id in db.admins)
            && (r.Success? ==> db' == db.(admins := db.admins[id := realms]))
            && (r.Success? ==> forall q :: AdminsOf(db', q) == AdminsOf(db, q) + if q in realms then {id} else {})
            && (r.Failure? && r.error != DatabaseError ==> db' == db)
            && (r == Failure(DatabaseError) ==> id in db'.admins && AreStored(db'.admins[id], db.realms, realms)
                                                && db' == db.(admins := db.admins[id := db'.admins[id]]))
            && (r.Failure? ==> forall q :: AdminsOf(db', q) - {id} == AdminsOf(db, q) - {id})
  {
    StoredIsPrefix(db.realms, realms);
    if caller in db.admins {
      HelpersDecideManaging(db, caller, realms);
    }
  }

  /** Deleting succeeds exactly for an admin the requester owns, or for a missing one when a super
      admin asks; the admin is gone, and nobody else loses a membership. */
  lemma DeleteExactly(db: Database, caller: string, id: string)
    ensures var (db', r) := Handle(db, caller, DeleteAdmin(id));
            && (r.Success? <==>
                  && caller in db.admins
                  && if id in db.admins then Owns(db, caller, id) else caller in SuperAdmins(db))
            && (r == Failure(NotAuthenticated) <==> caller !in db.admins)
            && (r == Failure(Forbidden) <==> caller in db.admins && id in db.admins && !Owns(db, caller, id))
            && (r == Failure(NotFound) <==> caller in db.admins && id !in db.admins && caller !in SuperAdmins(db))
            && (r.Success? ==> && db' == db.(admins := db.admins - {id})
                               && forall q :: AdminsOf(db', q) == AdminsOf(db, q) - {id})
            && (r.Failure? ==> db' == db)
  {
    if caller in db.admins {
      HelpersDecideManaging(db, caller, []);
      if id in db.admins {
        ManagingIsOwning(db, caller, id);
      }
    }
  }

  /** Only a super admin creates a realm, which then has no admins. */
  lemma CreateRealmExactly(db: Database, caller: string, realm: string)
    requires db.Valid()
    ensures var (db', r) := Handle(db, caller, Request.CreateRealm(realm));
            && (r.Success? <==> caller in SuperAdmins(db) && realm !in db.realms)
            && (r == Failure(NotAuthenticated) <==> caller !in db.admins)
            && (r == Failure(Forbidden) <==> caller in db.admins && caller !in SuperAdmins(db))
            && (r.Success? ==> && db' == db.(realms := db.realms + {realm})
                               && AdminsOf(db', realm) == {})
            && (r.Failure? ==> db' == db)
  {
    if caller in db.admins {
      HelpersDecideManaging(db, caller, []);
    }
  }

  /** A realm is deleted exactly by its own admins or by a super admin, whether it exists or not; it is
      gone with its memberships, and no other realm or admin is touched. */
  lemma DeleteRealmExactly(db: Database, caller: string, realm: string)
    ensures var (db', r) := Handle(db, caller, DeleteRealm(realm));
            && (r.Success? <==> caller in SuperAdmins(db) || caller in AdminsOf(db, realm))
            && (r == Failure(NotAuthenticated) <==> caller !in db.admins)
            && (r.Failure? ==> db' == db && (r.error == NotAuthenticated || r.error == Forbidden))
            && (r.Success? ==> && db'.realms == db.realms - {realm} && db'.admins.Keys == db.admins.Keys
                               && forall q :: AdminsOf(db', q) == if q == realm then {} else AdminsOf(db, q))
  {
    if caller in db.admins {
      HelpersDecideManaging(db, caller, []);
      forall id, q | id in db.admins
        ensures q in Without(db.admins[id], realm) <==> q != realm && q in db.admins[id]
      {
        WithoutIsFilter(db.admins[id], realm);
      }
    }
  }

  // ---- The first admin of a realm ----

  /** A realm without admins gets its first one only from a super admin. */
  lemma OnlySuperAdminsClaim(db: Database, step: Step, realm: string)
    requires AdminsOf(db, realm) == {} && AdminsOf(Exec(db, step), realm) != {}
    ensures step.caller in SuperAdmins(db)
  {
    ChangesAreManaged(db, step, realm);
  }

  /** And it can: a super admin's create for an existing realm that nobody administers succeeds. */
  lemma SuperAdminsCanClaim(db: Database, caller: string, id: string, realm: string)
    requires caller in SuperAdmins(db) && id !in db.admins && realm in db.realms && AdminsOf(db, realm) == {}
    ensures var (db', r) := Handle(db, caller, CreateAdmin(id, [realm]));
            r == Success(()) && AdminsOf(db', realm) == {id}
  {
    CreateExactly(db, caller, id, [realm]);
  }

  // ---- Whole runs ----

  /** A run executes its steps one after the other. */
  lemma {:induction false} RunExtends(db: Database, steps: seq<Step>, step: Step)
    ensures Run(db, steps + [step]) == Exec(Run(db, steps), step)
    decreases |steps|
  {
    if steps == [] {
      assert ([] + [step])[1..] == [];
    } else {
      assert (steps + [step])[0] == steps[0] && (steps + [step])[1..] == steps[1..] + [step];
      RunExtends(Exec(db, steps[0]), steps[1..], step);
    }
  }

  /** No step of the run is made by someone who administers the realm at that moment. */
  predicate WithoutItsAdmins(db: Database, steps: seq<Step>, realm: string)
    decreases |steps|
  {
    steps == [] || (steps[0].caller !in AdminsOf(db, realm) && WithoutItsAdmins(Exec(db, steps[0]), steps[1..], realm))
  }

  /** No step of the run is made by someone who is a super admin at that moment. */
  predicate WithoutSuperAdmins(db: Database, steps: seq<Step>)
    decreases |steps|
  {
    steps == [] || (steps[0].caller !in SuperAdmins(db) && WithoutSuperAdmins(Exec(db, steps[0]), steps[1..]))
  }

  /** A super admin deletes the realm in the run. */
  predicate SuperAdminDeletes(db: Database, steps: seq<Step>, realm: string)
    decreases |steps|
  {
    && steps != []
    && (|| (steps[0].request == DeleteRealm(realm) && steps[0].caller in SuperAdmins(db))
        || SuperAdminDeletes(Exec(db, steps[0]), steps[1..], realm))
  }

  /** In every state of the run the realm has these admins. */
  predicate KeepsAdmins(db: Database, steps: seq<Step>, realm: string, admins: set<string>)
    decreases |steps|
  {
    AdminsOf(db, realm) == admins && (steps == [] || KeepsAdmins(Exec(db, steps[0]), steps[1..], realm, admins))
  }

  /** A claimed realm belongs to its admins: in runs of any length in which none of them acts, its admins
      stay the same, whatever anybody else does, exactly if no super admin deletes the realm. */
  lemma {:induction false} ClaimedRealmIsItsAdmins(db: Database, steps: seq<Step>, realm: string)
    requires AdminsOf(db, realm) != {} && WithoutItsAdmins(db, steps, realm)
    ensures KeepsAdmins(db, steps, realm, AdminsOf(db, realm)) <==> !SuperAdminDeletes(db, steps, realm)
    decreases |steps|
  {
    if steps != [] {
      var step := steps[0];
      assert exists id <- db.admins :: realm in db.admins[id];
      if step.request == DeleteRealm(realm) && step.caller in SuperAdmins(db) {
        DeletionEmptiesARealm(db, step.caller, realm);
      } else {
        ChangesAreManaged(db, step, realm);
        ClaimedRealmIsItsAdmins(Exec(db, step), steps[1..], realm);
      }
    }
  }

  /** What deleting a realm does, which a super admin may do to any. */
  lemma DeletionEmptiesARealm(db: Database, caller: string, realm: string)
    requires caller in SuperAdmins(db)
    ensures AdminsOf(Exec(db, Step(caller, DeleteRealm(realm))), realm) == {}
  {
    DeleteRealmExactly(db, caller, realm);
  }

  /** A realm without admins stays without, in runs of any length in which no super admin acts. */
  lemma {:induction false} UnclaimedRealmStaysUnclaimed(db: Database, steps: seq<Step>, realm: string)
    requires AdminsOf(db, realm) == {} && WithoutSuperAdmins(db, steps)
    ensures KeepsAdmins(db, steps, realm, {})
    decreases |steps|
  {
    if steps != [] {
      if AdminsOf(Exec(db, steps[0]), realm) != {} {
        OnlySuperAdminsClaim(db, steps[0], realm);
      }
      UnclaimedRealmStaysUnclaimed(Exec(db, steps[0]), steps[1..], realm);
    }
  }

  /** Only a super admin changes who is a super admin. */
  lemma OnlySuperAdminsChangeSuperAdmins(db: Database, step: Step)
    ensures SuperAdmins(Exec(db, step)) != SuperAdmins(db) ==> step.caller in SuperAdmins(db)
  {
    ChangesAreManaged(db, step, "_");
  }

  /** And once there is none, there is never one again. */
  lemma {:induction false} NoSuperAdminEverAgain(db: Database, steps: seq<Step>)
    requires SuperAdmins(db) == {}
    ensures SuperAdmins(Run(db, steps)) == {}
    decreases |steps|
  {
    if steps != [] {
      OnlySuperAdminsChangeSuperAdmins(db, steps[0]);
      NoSuperAdminEverAgain(Exec(db, steps[0]), steps[1..]);
    }
  }

  /** Memberships always name realms that exist. */
  lemma {:induction false} MembershipsAreOfRealms(db: Database, steps: seq<Step>)
    requires db.Valid()
    ensures Run(db, steps).Valid()
    decreases |steps|
  {
    if steps != [] {
      StepKeepsValid(db, steps[0]);
      MembershipsAreOfRealms(Exec(db, steps[0]), steps[1..]);
    }
  }

  lemma PutKeepsValid(db: Database, id: string, wanted: seq<string>)
    requires db.Valid()
    ensures PutRealms(db, id, wanted).0.Valid()
  {
    StoredIsPrefix(db.realms, wanted);
  }

  lemma StepKeepsValid(db: Database, step: Step)
    requires db.Valid()
    ensures Exec(db, step).Valid()
  {
    match step.request {
      case CreateAdmin(id, realms) => PutKeepsValid(db, id, realms);
      case UpdateAdmin(id, realms) => PutKeepsValid(db, id, realms);
      case AddToRealm(id, r) =>
        if id in db.admins {
          PutKeepsValid(db, id, db.admins[id] + [r]);
        }
      case RemoveFromRealm(id, r) =>
        if id in db.admins {
          PutKeepsValid(db, id, Without(db.admins[id], r));
        }
      case DeleteRealm(r) =>
        forall id <- db.admins
          ensures forall realm <- Without(db.admins[id], r) :: realm in db.admins[id] && realm != r
          ensures NoDuplicates(Without(db.admins[id], r))
        {
          WithoutIsFilter(db.admins[id], r);
          WithoutKeepsDistinct(db.admins[id], r);
        }
      case _ =>
    }
  }
}
