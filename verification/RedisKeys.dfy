/** The two key families of the Redis backend (server/src/saml/impls/redis.rs).

    A string stands for its UTF-8 bytes, one `char` a byte, so `|s|` is Rust's `str::len`. */
module RedisKeys {

  const PENDING_PREFIX := "saml:pending:"
  const SEEN_PREFIX := "saml:seen:"

  /** What `{}` prints for a `usize`: decimal digits without leading zeros. */
  function Decimal(n: nat): (s: string)
    ensures s != [] && forall c <- s :: '0' <= c <= '9'
  {
    if n < 10 then [DigitChar(n)] else Decimal(n / 10) + [DigitChar(n % 10)]
  }

  function DigitChar(d: nat): (c: char)
    requires d < 10
    ensures '0' <= c <= '9' && c as int - '0' as int == d
  {
    (d + '0' as int) as char
  }

  function PendingKey(realmId: string, requestId: string): string {
    PENDING_PREFIX + realmId + ":" + requestId
  }

  function SeenKey(realmId: string, assertionId: string): string {
    SEEN_PREFIX + Decimal(|realmId|) + ":" + realmId + ":" + assertionId
  }

  lemma {:induction false} DecimalIsInjective(m: nat, n: nat)
    ensures Decimal(m) == Decimal(n) ==> m == n
  {
    if Decimal(m) == Decimal(n) {
      var a, b := Decimal(m), Decimal(n);
      assert a[|a| - 1] == DigitChar(m % 10) && b[|b| - 1] == DigitChar(n % 10);
      if m >= 10 && n >= 10 {
        assert Decimal(m / 10) == a[..|a| - 1] && Decimal(n / 10) == b[..|b| - 1];
        DecimalIsInjective(m / 10, n / 10);
      }
    }
  }

  /** When two texts joined by the same separator agree and neither head contains it, the heads
      and the tails agree: the part before the first separator is uniquely decodable. */
  lemma SplitAtFirst(head: string, tail: string, head': string, tail': string, separator: char)
    requires separator !in head && separator !in head'
    requires head + [separator] + tail == head' + [separator] + tail'
    ensures head == head' && tail == tail'
  {
    var joined, joined' := head + [separator] + tail, head' + [separator] + tail';
    assert joined[|head|] == separator && joined'[|head'|] == separator;
    assert forall i | 0 <= i < |head| :: joined[i] == head[i];
    assert forall i | 0 <= i < |head'| :: joined'[i] == head'[i];
    assert |head| == |head'|;
    assert head == joined[..|head|] && tail == joined[|head| + 1..];
    assert head' == joined'[..|head'|] && tail' == joined'[|head'| + 1..];
  }

  /** The length prefix keeps every two (realm, assertion id) pairs apart, whatever they hold. */
  lemma SeenKeyIsInjective(realm: string, id: string, realm': string, id': string)
    requires SeenKey(realm, id) == SeenKey(realm', id')
    ensures realm == realm' && id == id'
  {
    var rest, rest' := realm + ":" + id, realm' + ":" + id';
    var n, n' := Decimal(|realm|), Decimal(|realm'|);
    assert SeenKey(realm, id) == SEEN_PREFIX + (n + ":" + rest);
    assert SeenKey(realm', id') == SEEN_PREFIX + (n' + ":" + rest');
    assert n + ":" + rest == SeenKey(realm, id)[|SEEN_PREFIX|..];
    assert n' + ":" + rest' == SeenKey(realm', id')[|SEEN_PREFIX|..];
    SplitAtFirst(n, rest, n', rest', ':');
    DecimalIsInjective(|realm|, |realm'|);
    assert realm == rest[..|realm|] && realm' == rest'[..|realm'|];
    assert id == rest[|realm| + 1..] && id' == rest'[|realm'| + 1..];
  }

  /** `longer` is `shorter` followed by `:` and more, and the request ids make up for it. */
  predicate Shifted(shorter: string, id: string, longer: string, id': string) {
    && |shorter| < |longer|
    && longer[..|shorter|] == shorter && longer[|shorter|] == ':'
    && id == longer[|shorter| + 1..] + ":" + id'
  }

  lemma ShiftedHoldsColons(shorter: string, id: string, longer: string, id': string)
    ensures Shifted(shorter, id, longer, id') ==> ':' in id && ':' in longer
  {
    if Shifted(shorter, id, longer, id') {
      assert id[|longer| - |shorter| - 1] == ':';
    }
  }

  /** Two different pairs that share a key. */
  predicate Confused(realm: string, id: string, realm': string, id': string) {
    Shifted(realm, id, realm', id') || Shifted(realm', id', realm, id)
  }

  /** Exactly which pairs share a pending key. */
  lemma PendingKeyCollision(realm: string, id: string, realm': string, id': string)
    ensures PendingKey(realm, id) == PendingKey(realm', id')
            <==> (realm == realm' && id == id') || Confused(realm, id, realm', id')
  {
    var a, b := realm + ":" + id, realm' + ":" + id';
    assert PendingKey(realm, id) == PENDING_PREFIX + a && PendingKey(realm', id') == PENDING_PREFIX + b;
    assert PendingKey(realm, id)[|PENDING_PREFIX|..] == a && PendingKey(realm', id')[|PENDING_PREFIX|..] == b;
    if |realm| < |realm'| {
      PrefixCollision(realm, id, realm', id');
    } else if |realm'| < |realm| {
      PrefixCollision(realm', id', realm, id);
    } else if a == b {
      assert realm == a[..|realm|] && realm' == b[..|realm'|];
      assert id == a[|realm| + 1..] && id' == b[|realm'| + 1..];
    }
  }

  lemma PrefixCollision(realm: string, id: string, realm': string, id': string)
    requires |realm| < |realm'|
    ensures realm + ":" + id == realm' + ":" + id' <==> Shifted(realm, id, realm', id')
  {
    var a, b := realm + ":" + id, realm' + ":" + id';
    if a == b {
      assert realm'[..|realm|] == b[..|realm|] == a[..|realm|] == realm;
      assert realm'[|realm|] == b[|realm|] == a[|realm|];
      assert id == a[|realm| + 1..] == b[|realm| + 1..];
      assert b[|realm| + 1..] == realm'[|realm| + 1..] + ":" + id';
    }
    if Shifted(realm, id, realm', id') {
      assert realm' == realm + ":" + realm'[|realm| + 1..];
    }
  }

  /** Over realm ids without `:` the pending key is injective, and over request ids without `:` too. */
  lemma PendingKeyIsInjective(realm: string, id: string, realm': string, id': string)
    requires (':' !in realm && ':' !in realm') || (':' !in id && ':' !in id')
    requires PendingKey(realm, id) == PendingKey(realm', id')
    ensures realm == realm' && id == id'
  {
    PendingKeyCollision(realm, id, realm', id');
  }

  // ---- Which ids there are ----

  predicate IsRealmChar(c: char) {
    'a' <= c <= 'z' || 'A' <= c <= 'Z' || '0' <= c <= '9' || c == '_' || c == '-'
  }

  /** The CHECK on PostgreSQL and MySQL: `^[a-zA-Z0-9_-]+$`. */
  predicate PassesRegexCheck(realm: string) {
    realm != "" && forall c <- realm :: IsRealmChar(c)
  }

  /** The CHECK on SQLite: GLOB `[a-zA-Z0-9_-]*`, one such character and then anything. */
  predicate PassesGlobCheck(realm: string) {
    realm != "" && IsRealmChar(realm[0])
  }

  /** What `new_request_id` makes: `_` and 32 hexadecimal digits. */
  predicate IsRequestId(id: string) {
    |id| == 33 && id[0] == '_' && forall i | 1 <= i < 33 :: '0' <= id[i] <= '9' || 'a' <= id[i] <= 'f'
  }

  /** Requests that are stored never share a key, on any backend's realm ids. */
  lemma StoredKeysAreApart(realm: string, id: string, realm': string, id': string)
    requires IsRequestId(id) && IsRequestId(id')
    ensures PendingKey(realm, id) == PendingKey(realm', id') ==> realm == realm' && id == id'
  {
    assert ':' !in id && ':' !in id';
    PendingKeyCollision(realm, id, realm', id');
  }

  /** A posted RelayState is any text. It reaches the request `id'` of another realm exactly when that
      realm's id is the posted realm's, a `:` and the part of the RelayState before the request's id
      and its `:`. */
  lemma RelayStateReachesExactly(realm: string, relayState: string, realm': string, id': string)
    requires IsRequestId(id')
    ensures PendingKey(realm, relayState) == PendingKey(realm', id')
            <==> (realm == realm' && relayState == id') || Shifted(realm, relayState, realm', id')
  {
    assert ':' !in id';
    PendingKeyCollision(realm, relayState, realm', id');
    ShiftedHoldsColons(realm', id', realm, relayState);
  }

  /** So it does under the regular expression never, and under the GLOB pattern for some realm ids. */
  lemma OnlyTheGlobCheckConfuses()
    ensures forall realm, relayState, realm', id' | PassesRegexCheck(realm) && PassesRegexCheck(realm') ::
              !Confused(realm, relayState, realm', id')
    ensures forall realm | PassesRegexCheck(realm) :: PassesGlobCheck(realm)
    ensures !PassesGlobCheck("") && PassesRegexCheck("a") && PassesGlobCheck("a:b") && !PassesRegexCheck("a:b")
    ensures forall id' :: PendingKey("a", "b:" + id') == PendingKey("a:b", id')
  {
    assert "a:b"[1] == ':' && !IsRealmChar("a:b"[1]);
    forall realm, relayState, realm', id' | PassesRegexCheck(realm) && PassesRegexCheck(realm')
      ensures !Confused(realm, relayState, realm', id')
    {
      ShiftedHoldsColons(realm, relayState, realm', id');
      ShiftedHoldsColons(realm', id', realm, relayState);
    }
    forall id' ensures PendingKey("a", "b:" + id') == PendingKey("a:b", id') {
      assert "b:" + id' == "a:b"[|"a"| + 1..] + ":" + id';
      assert Shifted("a", "b:" + id', "a:b", id');
      PendingKeyCollision("a", "b:" + id', "a:b", id');
    }
  }

  /** What the keys look like. */
  lemma SampleKeys()
    ensures PendingKey("acme", "_0a") == "saml:pending:acme:_0a"
    ensures SeenKey("acme-europe", "_0a") == "saml:seen:11:acme-europe:_0a"
  {
    Eleven();
    hide Decimal;
    assert |"acme-europe"| == 11;
  }

  lemma Eleven()
    ensures Decimal(11) == "11"
  {
    assert Decimal(1) == [DigitChar(1)];
  }

  lemma FamiliesAreDisjoint(realm: string, id: string, realm': string, id': string)
    ensures PendingKey(realm, id) != SeenKey(realm', id')
  {
    assert PendingKey(realm, id)[5] == 'p' && SeenKey(realm', id')[5] == 's';
  }
}
