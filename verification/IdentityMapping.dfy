/** From a verified assertion to a session identity, and the settings a realm may use for it
    (server/src/saml/identity_mapping.rs, server/src/saml/params_validation.rs). */
module IdentityMapping {
  import opened HashMaps
  import opened Wrappers
  import opened SamlAssertion
  import opened ClientClaims
  import P = ClaimPolicy

  datatype IdentityParams = IdentityParams(
    subjectAttribute: Option<string>,
    idpNameIdFormat: Option<string>,
    normalizeSubjectCase: bool,
    roleAttribute: Option<string>,
    attributeClaimMap: map<string, string>)

  datatype SamlIdentity = SamlIdentity(subject: string, roles: seq<string>, extraClaims: map<string, Json>)

  datatype MappingError =
    | SubjectMissing(name: string)
    | SubjectHasSeveralValues(name: string)
    | NoNameId
    | TransientNameId
    | ClaimsTooLarge

  const NAMEID_TRANSIENT := "urn:oasis:names:tc:SAML:2.0:nameid-format:transient"
  const MAX_EXTRA_CLAIMS_BYTES := 4096

  // ---- Attribute values ----

  function NonEmpty(values: seq<Option<string>>): seq<string> {
    if values == [] then []
    else (if values[0].Some? && values[0].value != "" then [values[0].value] else []) + NonEmpty(values[1..])
  }

  function ValuesIn(attributes: seq<Attribute>, name: string): seq<string> {
    if attributes == [] then []
    else
      (if attributes[0].name == Some(name) then NonEmpty(attributes[0].values) else [])
      + ValuesIn(attributes[1..], name)
  }

  function ValuesInAll(statements: seq<seq<Attribute>>, name: string): seq<string> {
    if statements == [] then [] else ValuesIn(statements[0], name) + ValuesInAll(statements[1..], name)
  }

  function AttributeValues(assertion: Assertion, name: string): seq<string> {
    ValuesInAll(assertion.attributeStatements, name)
  }

  /** The identity provider asserts `value` for the attribute `name`. */
  ghost predicate Asserts(assertion: Assertion, name: string, value: string) {
    exists statement <- assertion.attributeStatements :: States(statement, name, value)
  }

  ghost predicate States(statement: seq<Attribute>, name: string, value: string) {
    exists attribute <- statement :: attribute.name == Some(name) && Some(value) in attribute.values
  }

  lemma {:induction false} NonEmptyAre(values: seq<Option<string>>, value: string)
    ensures value in NonEmpty(values) <==> value != "" && Some(value) in values
  {
    if values != [] {
      NonEmptyAre(values[1..], value);
      assert values == [values[0]] + values[1..];
    }
  }

  lemma {:induction false} ValuesInAre(attributes: seq<Attribute>, name: string, value: string)
    ensures value in ValuesIn(attributes, name)
            <==> value != "" && States(attributes, name, value)
  {
    if attributes != [] {
      NonEmptyAre(attributes[0].values, value);
      ValuesInAre(attributes[1..], name, value);
      assert attributes == [attributes[0]] + attributes[1..];
    }
  }

  lemma {:induction false} ValuesInAllAre(statements: seq<seq<Attribute>>, name: string, value: string)
    ensures value in ValuesInAll(statements, name)
            <==> value != "" && exists statement <- statements :: States(statement, name, value)
  {
    if statements != [] {
      ValuesInAre(statements[0], name, value);
      ValuesInAllAre(statements[1..], name, value);
      assert statements == [statements[0]] + statements[1..];
    }
  }

  /** The values of an attribute are the non-empty ones asserted under its name, in any statement. */
  lemma ValuesAreAsserted(assertion: Assertion, name: string, value: string)
    ensures value in AttributeValues(assertion, name) <==> value != "" && Asserts(assertion, name, value)
  {
    ValuesInAllAre(assertion.attributeStatements, name, value);
  }

  lemma {:induction false} NonEmptyConcat(a: seq<Option<string>>, b: seq<Option<string>>)
    ensures NonEmpty(a + b) == NonEmpty(a) + NonEmpty(b)
  {
    if a == [] {
      assert a + b == b;
    } else {
      assert (a + b)[0] == a[0] && (a + b)[1..] == a[1..] + b;
      NonEmptyConcat(a[1..], b);
    }
  }

  lemma {:induction false} ValuesInConcat(a: seq<Attribute>, b: seq<Attribute>, name: string)
    ensures ValuesIn(a + b, name) == ValuesIn(a, name) + ValuesIn(b, name)
  {
    if a == [] {
      assert a + b == b;
    } else {
      assert (a + b)[0] == a[0] && (a + b)[1..] == a[1..] + b;
      ValuesInConcat(a[1..], b, name);
    }
  }

  lemma {:induction false} ValuesInAllConcat(a: seq<seq<Attribute>>, b: seq<seq<Attribute>>, name: string)
    ensures ValuesInAll(a + b, name) == ValuesInAll(a, name) + ValuesInAll(b, name)
  {
    if a == [] {
      assert a + b == b;
    } else {
      assert (a + b)[0] == a[0] && (a + b)[1..] == a[1..] + b;
      ValuesInAllConcat(a[1..], b, name);
    }
  }

  /** The assertion, had it only these attribute statements. */
  function Stating(assertion: Assertion, statements: seq<seq<Attribute>>): Assertion {
    assertion.(attributeStatements := statements)
  }

  /** The values of an attribute are listed in the order in which the assertion states them: statement
      by statement, attribute by attribute, value by value; an empty value, and one that is no text,
      are left out. */
  lemma ValuesAreInOrder(assertion: Assertion, name: string, a: seq<seq<Attribute>>, b: seq<seq<Attribute>>,
                         c: seq<Attribute>, d: seq<Attribute>, n: Option<string>, v: seq<Option<string>>,
                         w: seq<Option<string>>)
    ensures AttributeValues(Stating(assertion, []), name) == []
    ensures AttributeValues(Stating(assertion, a + b), name)
            == AttributeValues(Stating(assertion, a), name) + AttributeValues(Stating(assertion, b), name)
    ensures AttributeValues(Stating(assertion, [c + d]), name)
            == AttributeValues(Stating(assertion, [c]), name) + AttributeValues(Stating(assertion, [d]), name)
    ensures AttributeValues(Stating(assertion, [[Attribute(n, v + w)]]), name)
            == AttributeValues(Stating(assertion, [[Attribute(n, v)]]), name)
               + AttributeValues(Stating(assertion, [[Attribute(n, w)]]), name)
  {
    ValuesInAllConcat(a, b, name);
    AttributesInOrder(assertion, name, c, d);
    OneAttribute(assertion, name, n, v + w);
    OneAttribute(assertion, name, n, v);
    OneAttribute(assertion, name, n, w);
    NonEmptyConcat(v, w);
  }

  lemma AttributesInOrder(assertion: Assertion, name: string, c: seq<Attribute>, d: seq<Attribute>)
    ensures AttributeValues(Stating(assertion, [c + d]), name)
            == AttributeValues(Stating(assertion, [c]), name) + AttributeValues(Stating(assertion, [d]), name)
  {
    OneStatement(assertion, name, c + d);
    OneStatement(assertion, name, c);
    OneStatement(assertion, name, d);
    ValuesInConcat(c, d, name);
  }

  lemma OneStatement(assertion: Assertion, name: string, statement: seq<Attribute>)
    ensures AttributeValues(Stating(assertion, [statement]), name) == ValuesIn(statement, name)
  {
    assert [statement][1..] == [];
    assert ValuesInAll([statement], name) == ValuesIn(statement, name) + ValuesInAll([], name);
  }

  lemma OneAttribute(assertion: Assertion, name: string, n: Option<string>, values: seq<Option<string>>)
    ensures AttributeValues(Stating(assertion, [[Attribute(n, values)]]), name)
            == if n == Some(name) then NonEmpty(values) else []
  {
    OneStatement(assertion, name, [Attribute(n, values)]);
    assert [Attribute(n, values)][1..] == [];
  }

  lemma OneValue(assertion: Assertion, name: string, n: Option<string>, value: Option<string>)
    ensures AttributeValues(Stating(assertion, [[Attribute(n, [value])]]), name)
            == if n == Some(name) && value.Some? && value != Some("") then [value.value] else []
  {
    OneAttribute(assertion, name, n, [value]);
    assert [value][1..] == [];
    assert NonEmpty([value])
           == (if value.Some? && value.value != "" then [value.value] else []) + NonEmpty([]);
  }

  // ---- Subject ----

  function NameIdSubject(assertion: Assertion): Result<string, MappingError> {
    if assertion.nameId.None? || assertion.nameId.value.value == "" then Failure(NoNameId)
    else if assertion.nameId.value.format == Some(NAMEID_TRANSIENT) then Failure(TransientNameId)
    else Success(assertion.nameId.value.value)
  }

  function SubjectOf(assertion: Assertion, params: IdentityParams): Result<string, MappingError> {
    match params.subjectAttribute
    case None => NameIdSubject(assertion)
    case Some(name) =>
      var values := AttributeValues(assertion, name);
      if |values| == 1 then Success(values[0])
      else if values == [] then Failure(SubjectMissing(name))
      else Failure(SubjectHasSeveralValues(name))
  }

  /** The identity provider says that this is the subject: the sole value of the subject attribute, or
      a NameID that is neither empty nor transient. */
  ghost predicate IsSubject(subject: string, assertion: Assertion, params: IdentityParams) {
    match params.subjectAttribute
    case Some(name) => AttributeValues(assertion, name) == [subject]
    case None =>
      && assertion.nameId.Some? && assertion.nameId.value.value == subject != ""
      && assertion.nameId.value.format != Some("urn:oasis:names:tc:SAML:2.0:nameid-format:transient")
  }

  /** A subject is found exactly when the identity provider says who it is; it is that one, never empty,
      and no other value is asserted for the subject attribute. */
  lemma SubjectIsAsserted(assertion: Assertion, params: IdentityParams, subject: string)
    ensures SubjectOf(assertion, params) == Success(subject) <==> IsSubject(subject, assertion, params)
    ensures IsSubject(subject, assertion, params) ==> subject != ""
    ensures IsSubject(subject, assertion, params) && params.subjectAttribute.Some? ==>
              forall value :: value != "" && Asserts(assertion, params.subjectAttribute.value, value)
                  <==> value == subject
  {
    if IsSubject(subject, assertion, params) && params.subjectAttribute.Some? {
      assert subject in AttributeValues(assertion, params.subjectAttribute.value);
      ValuesAreAsserted(assertion, params.subjectAttribute.value, subject);
      forall value
        ensures value != "" && Asserts(assertion, params.subjectAttribute.value, value) <==> value == subject
      {
        ValuesAreAsserted(assertion, params.subjectAttribute.value, value);
      }
    }
  }

  // ---- Roles ----

  /** Keeps the first of equal values. */
  function FirstOccurrences(values: seq<string>): seq<string> {
    if values == [] then []
    else
      var n := |values| - 1;
      var before := FirstOccurrences(values[..n]);
      if values[n] in before then before else before + [values[n]]
  }

  ghost predicate FirstAt(values: seq<string>, k: nat, value: string) {
    k < |values| && values[k] == value && forall i | 0 <= i < k :: values[i] != value
  }

  /** No duplicates, nothing lost, nothing added, and in the order in which values first occur. */
  ghost predicate AreFirstOccurrences(roles: seq<string>, values: seq<string>) {
    && Distinct(roles)
    && (forall v :: v in roles <==> v in values)
    && (forall i, j, a: nat, b: nat | 0 <= i < j < |roles| && FirstAt(values, a, roles[i])
        && FirstAt(values, b, roles[j]) :: a < b)
  }

  lemma {:induction false} FirstOccurrencesAre(values: seq<string>)
    ensures AreFirstOccurrences(FirstOccurrences(values), values)
  {
    if values != [] {
      var n := |values| - 1;
      var before := FirstOccurrences(values[..n]);
      var roles := FirstOccurrences(values);
      FirstOccurrencesAre(values[..n]);
      assert values == values[..n] + [values[n]];
      forall i, j, a: nat, b: nat | 0 <= i < j < |roles| && FirstAt(values, a, roles[i]) && FirstAt(values, b, roles[j])
        ensures a < b
      {
        assert roles[i] in values[..n];
        FirstInPrefix(values, n, a, roles[i]);
        if j < |before| {
          assert roles[j] in values[..n];
          FirstInPrefix(values, n, b, roles[j]);
        } else {
          assert forall x {:trigger values[x]} | 0 <= x < n :: values[..n][x] == values[x] != roles[j];
        }
      }
    }
  }

  lemma FirstInPrefix(values: seq<string>, n: nat, a: nat, value: string)
    requires n <= |values| && FirstAt(values, a, value) && value in values[..n]
    ensures a < n && FirstAt(values[..n], a, value)
  {
  }

  function Roles(assertion: Assertion, params: IdentityParams): seq<string> {
    if params.roleAttribute.None? then [] else FirstOccurrences(AttributeValues(assertion, params.roleAttribute.value))
  }

  // ---- Extra claims ----

  function ClaimValue(values: seq<string>): Json {
    if |values| == 1 then Str(values[0]) else Arr(P.Strings(values))
  }

  /** The JSON of a claim with these values: the text itself when there is one, and else the list of them. */
  ghost predicate Says(json: Json, values: seq<string>) {
    if |values| == 1 then json == Str(values[0])
    else
      && json.Arr? && |json.items| == |values|
      && forall i | 0 <= i < |values| :: json.items[i] == Str(values[i])
  }

  lemma ClaimValueSays(values: seq<string>)
    ensures Says(ClaimValue(values), values)
  {
  }

  lemma SaysOneThing(x: Json, a: seq<string>, y: Json, b: seq<string>)
    requires Says(x, a) && Says(y, b)
    ensures x == y <==> a == b
  {
    if a == b && |a| != 1 {
      assert x.items == y.items;
    }
    if x == y && |a| != 1 {
      assert forall i | 0 <= i < |a| :: Str(a[i]) == x.items[i] == Str(b[i]);
    }
  }

  /** The extra claims after the attributes in `order`, the order in which the map iterates. */
  function Claims(assertion: Assertion, claimMap: map<string, string>, order: seq<string>): map<string, Json>
    requires forall attribute <- order :: attribute in claimMap
  {
    if order == [] then map[]
    else
      var n := |order| - 1;
      var before := Claims(assertion, claimMap, order[..n]);
      var values := AttributeValues(assertion, order[n]);
      if values == [] then before else before[claimMap[order[n]] := ClaimValue(values)]
  }

  /** `claims` has an entry for every attribute of the set that has a value, and no others. */
  ghost predicate Maps(claims: map<string, Json>, assertion: Assertion, claimMap: map<string, string>,
                       attributes: set<string>)
    requires attributes <= claimMap.Keys
  {
    && (forall a <- attributes | AttributeValues(assertion, a) != [] :: claimMap[a] in claims)
    && (forall c <- claims :: exists a <- attributes ::
          claimMap[a] == c && AttributeValues(assertion, a) != [] && Says(claims[c], AttributeValues(assertion, a)))
  }

  lemma {:induction false} ClaimsAre(assertion: Assertion, claimMap: map<string, string>, order: seq<string>)
    requires forall attribute <- order :: attribute in claimMap
    ensures Maps(Claims(assertion, claimMap, order), assertion, claimMap, set a | a in order)
    ensures Enumerates(order, claimMap.Keys)
        ==> Maps(Claims(assertion, claimMap, order), assertion, claimMap, claimMap.Keys)
  {
    if order != [] {
      var n := |order| - 1;
      ClaimsAre(assertion, claimMap, order[..n]);
      assert order == order[..n] + [order[n]];
      var before, claims := Claims(assertion, claimMap, order[..n]), Claims(assertion, claimMap, order);
      forall c <- claims
        ensures exists a <- order :: claimMap[a] == c && AttributeValues(assertion, a) != []
                                     && Says(claims[c], AttributeValues(assertion, a))
      {
        if AttributeValues(assertion, order[n]) != [] && claimMap[order[n]] == c {
          assert order[n] in order;
          ClaimValueSays(AttributeValues(assertion, order[n]));
        } else {
          var a :| a in order[..n] && claimMap[a] == c && AttributeValues(assertion, a) != []
                   && Says(before[c], AttributeValues(assertion, a));
          assert a in order;
        }
      }
    }
    assert Enumerates(order, claimMap.Keys) ==> (set a | a in order) == claimMap.Keys;
  }

  /** Attributes that share a claim and both have values have the same values. */
  ghost predicate Agree(assertion: Assertion, claimMap: map<string, string>) {
    forall a, b | a in claimMap && b in claimMap && claimMap[a] == claimMap[b] ::
      AttributeValues(assertion, a) == [] || AttributeValues(assertion, b) == []
      || AttributeValues(assertion, a) == AttributeValues(assertion, b)
  }

  lemma MapsIsUnique(x: map<string, Json>, y: map<string, Json>, assertion: Assertion, claimMap: map<string, string>)
    requires Maps(x, assertion, claimMap, claimMap.Keys) && Maps(y, assertion, claimMap, claimMap.Keys)
    requires Agree(assertion, claimMap)
    ensures x == y
  {
    forall c | c in x ensures c in y && x[c] == y[c] {
      SameClaim(x, y, assertion, claimMap, c);
    }
    forall c | c in y ensures c in x {
      SameClaim(y, x, assertion, claimMap, c);
    }
  }

  lemma SameClaim(x: map<string, Json>, y: map<string, Json>, assertion: Assertion, claimMap: map<string, string>,
                  c: string)
    requires Maps(x, assertion, claimMap, claimMap.Keys) && Maps(y, assertion, claimMap, claimMap.Keys)
    requires Agree(assertion, claimMap) && c in x
    ensures c in y && x[c] == y[c]
  {
    var a :| a in claimMap && claimMap[a] == c && AttributeValues(assertion, a) != []
             && Says(x[c], AttributeValues(assertion, a));
    assert a in claimMap.Keys && c in y;
    var b :| b in claimMap && claimMap[b] == c && AttributeValues(assertion, b) != []
             && Says(y[c], AttributeValues(assertion, b));
    SaysOneThing(x[c], AttributeValues(assertion, a), y[c], AttributeValues(assertion, b));
  }

  lemma LastWins(assertion: Assertion, claimMap: map<string, string>, rest: seq<string>, a: string, b: string)
    requires Enumerates(rest, claimMap.Keys - {a, b}) && a in claimMap && b in claimMap && a != b
    requires AttributeValues(assertion, b) != []
    ensures Enumerates(rest + [a, b], claimMap.Keys)
    ensures claimMap[b] in Claims(assertion, claimMap, rest + [a, b])
    ensures Claims(assertion, claimMap, rest + [a, b])[claimMap[b]] == ClaimValue(AttributeValues(assertion, b))
  {
  }

  /** The extra claims of an assertion do not depend on the order in which the hash map of settings
      iterates exactly when no two attributes with different values share a claim. */
  lemma OrderIsIrrelevantExactly(assertion: Assertion, claimMap: map<string, string>)
    ensures Agree(assertion, claimMap)
            <==> forall o1, o2 | Enumerates(o1, claimMap.Keys) && Enumerates(o2, claimMap.Keys) ::
                   Claims(assertion, claimMap, o1) == Claims(assertion, claimMap, o2)
  {
    if Agree(assertion, claimMap) {
      forall o1, o2 | Enumerates(o1, claimMap.Keys) && Enumerates(o2, claimMap.Keys)
        ensures Claims(assertion, claimMap, o1) == Claims(assertion, claimMap, o2)
      {
        SameClaims(assertion, claimMap, o1, o2);
      }
    } else {
      var a, b :| a in claimMap && b in claimMap && claimMap[a] == claimMap[b]
                  && AttributeValues(assertion, a) != [] && AttributeValues(assertion, b) != []
                  && AttributeValues(assertion, a) != AttributeValues(assertion, b);
      var o1, o2 := OrdersThatDisagree(assertion, claimMap, a, b);
      assert Claims(assertion, claimMap, o1) != Claims(assertion, claimMap, o2);
    }
  }

  lemma OrdersThatDisagree(assertion: Assertion, claimMap: map<string, string>, a: string, b: string)
    returns (o1: seq<string>, o2: seq<string>)
    requires a in claimMap && b in claimMap && claimMap[a] == claimMap[b]
    requires AttributeValues(assertion, a) != [] && AttributeValues(assertion, b) != []
    requires AttributeValues(assertion, a) != AttributeValues(assertion, b)
    ensures Enumerates(o1, claimMap.Keys) && Enumerates(o2, claimMap.Keys)
    ensures Claims(assertion, claimMap, o1) != Claims(assertion, claimMap, o2)
  {
    var rest := EnumerationExists(claimMap.Keys - {a, b});
    assert {a, b} == {b, a};
    LastWins(assertion, claimMap, rest, a, b);
    LastWins(assertion, claimMap, rest, b, a);
    var u, v := AttributeValues(assertion, a), AttributeValues(assertion, b);
    ClaimValueSays(u);
    ClaimValueSays(v);
    SaysOneThing(ClaimValue(u), u, ClaimValue(v), v);
    o1, o2 := rest + [a, b], rest + [b, a];
  }

  lemma SameClaims(assertion: Assertion, claimMap: map<string, string>, o1: seq<string>, o2: seq<string>)
    requires Enumerates(o1, claimMap.Keys) && Enumerates(o2, claimMap.Keys) && Agree(assertion, claimMap)
    ensures Claims(assertion, claimMap, o1) == Claims(assertion, claimMap, o2)
  {
    ClaimsAre(assertion, claimMap, o1);
    ClaimsAre(assertion, claimMap, o2);
    MapsIsUnique(Claims(assertion, claimMap, o1), Claims(assertion, claimMap, o2), assertion, claimMap);
  }

  // ---- The whole mapping ----

  /** `lower` stands for `str::to_lowercase` and `size` for the length of the claims as JSON. */
  function Mapped(assertion: Assertion, params: IdentityParams, order: seq<string>, lower: string -> string,
                  size: map<string, Json> -> nat): Result<SamlIdentity, MappingError>
    requires forall attribute <- order :: attribute in params.attributeClaimMap
  {
    match SubjectOf(assertion, params)
    case Failure(e) => Failure(e)
    case Success(subject) =>
      var claims := Claims(assertion, params.attributeClaimMap, order);
      if size(claims) > MAX_EXTRA_CLAIMS_BYTES then Failure(ClaimsTooLarge)
      else Success(SamlIdentity(if params.normalizeSubjectCase then lower(subject) else subject,
                                Roles(assertion, params), claims))
  }

  /** `identity` is what the assertion says under these settings. */
  ghost predicate IsAsserted(identity: SamlIdentity, assertion: Assertion, params: IdentityParams,
                             lower: string -> string)
  {
    && (exists subject: string ::
          && IsSubject(subject, assertion, params)
          && identity.subject == if params.normalizeSubjectCase then lower(subject) else subject)
    && (match params.roleAttribute
        case None => identity.roles == []
        case Some(name) => AreFirstOccurrences(identity.roles, AttributeValues(assertion, name)))
    && Maps(identity.extraClaims, assertion, params.attributeClaimMap, params.attributeClaimMap.Keys)
  }

  /** An assertion maps to an identity exactly when it has a subject and its extra claims take at most
      4096 bytes, and that identity is what it says; otherwise the error names the rule that failed. */
  lemma MappedExactlyWhen(assertion: Assertion, params: IdentityParams, order: seq<string>, lower: string -> string,
                          size: map<string, Json> -> nat)
    requires Enumerates(order, params.attributeClaimMap.Keys)
    ensures var r := Mapped(assertion, params, order, lower, size);
            var claims := Claims(assertion, params.attributeClaimMap, order);
            && (r.Success? <==> (exists subject :: IsSubject(subject, assertion, params)) && size(claims) <= 4096)
            && (r.Success? ==> r.value.extraClaims == claims && IsAsserted(r.value, assertion, params, lower))
            && (r == Failure(ClaimsTooLarge) <==>
                  (exists subject :: IsSubject(subject, assertion, params)) && size(claims) > 4096)
            && (forall name :: r == Failure(SubjectMissing(name)) <==>
                  params.subjectAttribute == Some(name) && AttributeValues(assertion, name) == [])
            && (forall name :: r == Failure(SubjectHasSeveralValues(name)) <==>
                  params.subjectAttribute == Some(name) && |AttributeValues(assertion, name)| > 1)
            && (r == Failure(NoNameId) <==>
                  params.subjectAttribute.None? && (assertion.nameId.None? || assertion.nameId.value.value == ""))
            && (r == Failure(TransientNameId) <==>
                  && params.subjectAttribute.None? && assertion.nameId.Some? && assertion.nameId.value.value != ""
                  && assertion.nameId.value.format == Some("urn:oasis:names:tc:SAML:2.0:nameid-format:transient"))
  {
    var found := SubjectOf(assertion, params);
    forall subject ensures found == Success(subject) <==> IsSubject(subject, assertion, params) {
      SubjectIsAsserted(assertion, params, subject);
    }
    if found.Success? {
      assert IsSubject(found.value, assertion, params);
    }
    ClaimsAre(assertion, params.attributeClaimMap, order);
    if params.roleAttribute.Some? {
      FirstOccurrencesAre(AttributeValues(assertion, params.roleAttribute.value));
    }
  }

  method MapIdentity(assertion: Assertion, params: IdentityParams, order: seq<string>, lower: string -> string,
                     size: map<string, Json> -> nat) returns (r: Result<SamlIdentity, MappingError>)
    requires Enumerates(order, params.attributeClaimMap.Keys)
    ensures r == Mapped(assertion, params, order, lower, size)
    ensures r.Success? ==> IsAsserted(r.value, assertion, params, lower)
  {
    MappedExactlyWhen(assertion, params, order, lower, size);
    var found := SubjectOf(assertion, params);
    if found.Failure? {
      return Failure(found.error);
    }
    var subject := found.value;
    if params.normalizeSubjectCase {
      subject := lower(subject);
    }

    var roles: seq<string> := [];
    if params.roleAttribute.Some? {
      var values := AttributeValues(assertion, params.roleAttribute.value);
      for i := 0 to |values|
        invariant roles == FirstOccurrences(values[..i])
      {
        assert values[..i + 1][..i] == values[..i];
        if values[i] !in roles {
          roles := roles + [values[i]];
        }
      }
      assert values[..|values|] == values;
    }

    var extraClaims: map<string, Json> := map[];
    for i := 0 to |order|
      invariant extraClaims == Claims(assertion, params.attributeClaimMap, order[..i])
    {
      assert order[..i + 1][..i] == order[..i];
      var values := AttributeValues(assertion, order[i]);
      if values != [] {
        extraClaims := extraClaims[params.attributeClaimMap[order[i]] := ClaimValue(values)];
      }
    }
    assert order[..|order|] == order;
    if size(extraClaims) > MAX_EXTRA_CLAIMS_BYTES {
      return Failure(ClaimsTooLarge);
    }
    return Success(SamlIdentity(subject, roles, extraClaims));
  }

  // ---- Settings ----

  /** Unicode White_Space, which `str::trim` removes. */
  predicate IsWhitespace(c: char) {
    || '\U{9}' <= c <= '\U{D}' || c == ' ' || c == '\U{85}' || c == '\U{A0}' || c == '\U{1680}'
    || '\U{2000}' <= c <= '\U{200A}' || c == '\U{2028}' || c == '\U{2029}' || c == '\U{202F}' || c == '\U{205F}'
    || c == '\U{3000}'
  }

  lemma WhitespaceIs(c: char)
    ensures IsWhitespace(c) <==>
              c as int in [0x9, 0xA, 0xB, 0xC, 0xD, 0x20, 0x85, 0xA0, 0x1680, 0x2000, 0x2001, 0x2002, 0x2003, 0x2004,
                           0x2005, 0x2006, 0x2007, 0x2008, 0x2009, 0x200A, 0x2028, 0x2029, 0x202F, 0x205F, 0x3000]
  {
  }

  predicate IsBlank(s: string) {
    forall c <- s :: IsWhitespace(c)
  }

  datatype ParamsError =
    | SubjectAttributeRequired
    | BlankAttributeName
    | BlankClaimName
    | SharedClaim(claim: string)
    | ReservedClaim(claim: string)

  predicate NeedsSubjectAttribute(params: IdentityParams) {
    && (params.subjectAttribute.None? || IsBlank(params.subjectAttribute.value))
    && params.idpNameIdFormat == Some(NAMEID_TRANSIENT)
  }

  ghost predicate ClaimNamesAreUnique(claimMap: map<string, string>) {
    forall a, b | a in claimMap && b in claimMap && claimMap[a] == claimMap[b] :: a == b
  }

  /** Two attributes map to the claim. */
  ghost predicate IsShared(claimMap: map<string, string>, claim: string) {
    exists a, b | a in claimMap && b in claimMap :: a != b && claimMap[a] == claimMap[b] == claim
  }

  ghost predicate NoClaimIsReserved(claimMap: map<string, string>) {
    forall a <- claimMap :: !P.IsReserved(claimMap[a])
  }

  ghost predicate ValidMapping(params: IdentityParams) {
    && !NeedsSubjectAttribute(params)
    && (forall a <- params.attributeClaimMap :: !IsBlank(a) && !IsBlank(params.attributeClaimMap[a]))
    && ClaimNamesAreUnique(params.attributeClaimMap)
    && NoClaimIsReserved(params.attributeClaimMap)
  }

  method ValidateIdentityMapping(params: IdentityParams, order: seq<string>) returns (r: Result<(), ParamsError>)
    requires Enumerates(order, params.attributeClaimMap.Keys)
    ensures r.Success? <==> ValidMapping(params)
    ensures r == Failure(SubjectAttributeRequired) <==> NeedsSubjectAttribute(params)
    ensures r == Failure(BlankAttributeName)
            <==> !NeedsSubjectAttribute(params) && exists a <- params.attributeClaimMap :: IsBlank(a)
    ensures r.Failure? && r.error.SharedClaim? ==> IsShared(params.attributeClaimMap, r.error.claim)
    ensures r.Failure? && r.error.ReservedClaim? ==>
              ClaimNamesAreUnique(params.attributeClaimMap) && P.IsReserved(r.error.claim)
  {
    var claimMap := params.attributeClaimMap;
    var subjectAttributeSet := params.subjectAttribute.Some? && !IsBlank(params.subjectAttribute.value);
    if !subjectAttributeSet && params.idpNameIdFormat == Some(NAMEID_TRANSIENT) {
      return Failure(SubjectAttributeRequired);
    }
    if exists attribute <- claimMap :: IsBlank(attribute) {
      return Failure(BlankAttributeName);
    }
    r := ValidateClaimNames(claimMap, order);
  }

  method ValidateClaimNames(claimMap: map<string, string>, order: seq<string>) returns (r: Result<(), ParamsError>)
    requires Enumerates(order, claimMap.Keys)
    ensures r.Success? <==> && (forall a <- claimMap :: !IsBlank(claimMap[a]))
                            && ClaimNamesAreUnique(claimMap) && NoClaimIsReserved(claimMap)
    ensures r.Failure? ==> !r.error.SubjectAttributeRequired? && !r.error.BlankAttributeName?
    ensures r.Failure? && r.error.SharedClaim? ==> IsShared(claimMap, r.error.claim)
    ensures r.Failure? && r.error.ReservedClaim? ==> ClaimNamesAreUnique(claimMap) && P.IsReserved(r.error.claim)
  {
    hide IsWhitespace, P.IsReserved;
    var claimNames: set<string> := {};
    for i := 0 to |order|
      invariant forall c :: c in claimNames <==> exists j | 0 <= j < i :: claimMap[order[j]] == c
      invariant forall j | 0 <= j < i :: !IsBlank(claimMap[order[j]])
      invariant forall j, k | 0 <= j < k < i :: claimMap[order[j]] != claimMap[order[k]]
    {
      var claim := claimMap[order[i]];
      if IsBlank(claim) {
        assert order[i] in claimMap;
        return Failure(BlankClaimName);
      }
      if claim in claimNames {
        ghost var j :| 0 <= j < i && claimMap[order[j]] == claim;
        assert order[j] in claimMap && order[i] in claimMap && order[j] != order[i];
        return Failure(SharedClaim(claim));
      }
      claimNames := claimNames + {claim};
    }
    UniqueByPosition(claimMap, order);
    var names := seq(|order|, i requires 0 <= i < |order| => claimMap[order[i]]);
    assert forall a <- claimMap :: a in order;
    var checked := P.RejectReservedClaimNames(names);
    if checked.Failure? {
      ghost var i :| 0 <= i < |names| && names[i] == checked.error.name && P.IsReserved(names[i]);
      assert order[i] in claimMap;
      return Failure(ReservedClaim(checked.error.name));
    }
    forall a | a in claimMap ensures !P.IsReserved(claimMap[a]) && !IsBlank(claimMap[a]) {
      var i :| 0 <= i < |order| && order[i] == a;
      assert names[i] in names;
    }
    return Success(());
  }

  lemma UniqueByPosition(claimMap: map<string, string>, order: seq<string>)
    requires Enumerates(order, claimMap.Keys)
    requires forall j, k | 0 <= j < k < |order| :: claimMap[order[j]] != claimMap[order[k]]
    ensures ClaimNamesAreUnique(claimMap)
  {
  }

  // ---- What the validation buys ----

  /** Under settings the server accepted, the identity is the same for every order in which the hash
      map iterates, and its extra claims are exactly the mapped attributes that have values. */
  lemma MappingIgnoresIterationOrder(assertion: Assertion, params: IdentityParams, o1: seq<string>, o2: seq<string>,
                                     lower: string -> string, size: map<string, Json> -> nat)
    requires ValidMapping(params)
    requires Enumerates(o1, params.attributeClaimMap.Keys) && Enumerates(o2, params.attributeClaimMap.Keys)
    ensures Mapped(assertion, params, o1, lower, size) == Mapped(assertion, params, o2, lower, size)
    ensures Claims(assertion, params.attributeClaimMap, o1).Keys
            == set a | a in params.attributeClaimMap
                && AttributeValues(assertion, a) != [] :: params.attributeClaimMap[a]
    ensures forall a <- params.attributeClaimMap | AttributeValues(assertion, a) != [] ::
              && params.attributeClaimMap[a] in Claims(assertion, params.attributeClaimMap, o1)
              && Says(Claims(assertion, params.attributeClaimMap, o1)[params.attributeClaimMap[a]],
                      AttributeValues(assertion, a))
  {
    SameClaims(assertion, params.attributeClaimMap, o1, o2);
    ClaimsAre(assertion, params.attributeClaimMap, o1);
  }

  /** Settings that advertise transient NameIDs never reach the NameID of an assertion. */
  lemma AdvertisedTransientIsNeverUsed(assertion: Assertion, params: IdentityParams)
    requires ValidMapping(params) && params.idpNameIdFormat == Some(NAMEID_TRANSIENT)
    ensures SubjectOf(assertion, params) != Failure(TransientNameId)
    ensures SubjectOf(assertion, params).Success? ==>
              Asserts(assertion, params.subjectAttribute.value, SubjectOf(assertion, params).value)
  {
    if SubjectOf(assertion, params).Success? {
      SubjectIsAsserted(assertion, params, SubjectOf(assertion, params).value);
      assert IsSubject(SubjectOf(assertion, params).value, assertion, params);
    }
  }

  /** An assertion with one value for each of two attributes. */
  function Sample(a: string, b: string): Assertion {
    Assertion("", 0, "", None, None, None, [[Attribute(Some(a), [Some("x")]), Attribute(Some(b), [Some("y")])]])
  }

  lemma ValuesOfPair(a: Attribute, b: Attribute, name: string)
    ensures ValuesIn([a, b], name)
            == (if a.name == Some(name) then NonEmpty(a.values) else [])
               + (if b.name == Some(name) then NonEmpty(b.values) else [])
  {
    assert [a, b][1..] == [b] && [b][1..] == [];
    assert ValuesIn([b], name) == (if b.name == Some(name) then NonEmpty(b.values) else []) + ValuesIn([], name);
  }

  lemma SampleValues(a: string, b: string)
    requires a != b
    ensures AttributeValues(Sample(a, b), a) == ["x"] && AttributeValues(Sample(a, b), b) == ["y"]
  {
    var first, second := Attribute(Some(a), [Some("x")]), Attribute(Some(b), [Some("y")]);
    var statements := [[first, second]];
    assert Sample(a, b).attributeStatements == statements && statements[1..] == [];
    forall name ensures AttributeValues(Sample(a, b), name) == ValuesIn([first, second], name) {
      assert ValuesInAll(statements, name) == ValuesIn(statements[0], name) + ValuesInAll(statements[1..], name);
    }
    ValuesOfPair(first, second, a);
    ValuesOfPair(first, second, b);
    forall v: string | v != "" ensures NonEmpty([Some(v)]) == [v] {
      assert [Some(v)][1..] == [];
      assert NonEmpty([Some(v)]) == [v] + NonEmpty([]);
    }
  }

  /** The uniqueness check is exact: claim names are unique exactly when no assertion's extra claims
      depend on the iteration order. */
  lemma UniquenessIsNeeded(claimMap: map<string, string>)
    ensures ClaimNamesAreUnique(claimMap)
            <==> forall assertion, o1, o2 | Enumerates(o1, claimMap.Keys) && Enumerates(o2, claimMap.Keys) ::
                   Claims(assertion, claimMap, o1) == Claims(assertion, claimMap, o2)
  {
    if ClaimNamesAreUnique(claimMap) {
      forall assertion, o1, o2 | Enumerates(o1, claimMap.Keys) && Enumerates(o2, claimMap.Keys)
        ensures Claims(assertion, claimMap, o1) == Claims(assertion, claimMap, o2)
      {
        SameClaims(assertion, claimMap, o1, o2);
      }
    } else {
      var a, b :| a in claimMap && b in claimMap && claimMap[a] == claimMap[b] && a != b;
      SampleValues(a, b);
      OrderIsIrrelevantExactly(Sample(a, b), claimMap);
    }
  }

  /** Every session and certificate that carries `extra` survives being written and read. */
  ghost predicate Survives(extra: map<string, Json>, order: seq<string>)
    requires forall name <- order :: name in extra
  {
    && (forall c: P.SessionClaims | c.extra == extra :: P.ReadSession(P.WriteSession(c, order)) == Success(c))
    && (forall c: P.CertificateClaims | c.extra == extra ::
          P.ReadCertificate(P.WriteCertificate(c, order)) == Success(c))
  }

  /** Every identity mapped under accepted settings yields lossless tokens with unique claim names. */
  lemma MappedIdentitiesSurvive(assertion: Assertion, claimMap: map<string, string>, order: seq<string>,
                                written: seq<string>)
    requires NoClaimIsReserved(claimMap) && Enumerates(order, claimMap.Keys)
    requires Enumerates(written, Claims(assertion, claimMap, order).Keys)
    ensures Survives(Claims(assertion, claimMap, order), written)
    ensures forall c: P.SessionClaims | c.extra == Claims(assertion, claimMap, order) ::
              Distinct(NamesOf(P.WriteSession(c, written)))
  {
    var extra := Claims(assertion, claimMap, order);
    ClaimsAre(assertion, claimMap, order);
    P.PolicyIsExact(extra, written);
    forall c: P.SessionClaims | c.extra == extra ensures Distinct(NamesOf(P.WriteSession(c, written))) {
      P.SessionNamesAreUnique(c, written);
    }
  }

  /** The claims of the session token of an identity (`issue_token`, server/src/session/jwt.rs). */
  function TokenClaims(identity: SamlIdentity, realmId: string, now: int, maxAge: int): P.SessionClaims {
    P.SessionClaims(None, Some(identity.subject), None, Some(now + maxAge), None, Some(now), None,
                    if identity.roles == [] then None else Some(identity.roles), Some(P.Saml), Some(realmId),
                    identity.extraClaims)
  }

  /** The token of an identity, claim by claim: `iat` is the moment of issue and `exp` the session's
      lifetime after it, there is no `roles` claim without roles, and nothing else is in it but the
      identity's extra claims. */
  lemma TokenClaimsAre(identity: SamlIdentity, realmId: string, now: int, maxAge: int, written: seq<string>)
    requires forall name <- written :: name in identity.extraClaims
    ensures P.WriteSession(TokenClaims(identity, realmId, now, maxAge), written)
            == [("sub", Str(identity.subject)), ("exp", Num(now + maxAge)), ("iat", Num(now))]
               + (if identity.roles == [] then [] else [("roles", Arr(P.Strings(identity.roles)))])
               + [("as_as", Str("sa")), ("as_rid", Str(realmId))]
               + EmitExtra(identity.extraClaims, written)
  {
    P.SessionIsWritten(TokenClaims(identity, realmId, now, maxAge), written);
  }

  /** From the identity provider's assertion to the reader of the token: under accepted settings a
      token reads back as the subject and the roles that were asserted, for this realm and scheme and
      for `maxAge` from now on, with each mapped attribute under its own claim. */
  lemma TokenSaysWhatWasAsserted(assertion: Assertion, params: IdentityParams, order: seq<string>,
                                 lower: string -> string, size: map<string, Json> -> nat, realmId: string, now: int,
                                 maxAge: int, written: seq<string>)
    requires ValidMapping(params) && Enumerates(order, params.attributeClaimMap.Keys)
    requires Mapped(assertion, params, order, lower, size).Success?
    requires Enumerates(written, Mapped(assertion, params, order, lower, size).value.extraClaims.Keys)
    ensures var token := P.WriteSession(
              TokenClaims(Mapped(assertion, params, order, lower, size).value, realmId, now, maxAge), written);
            var read := P.ReadSession(token);
            && Distinct(NamesOf(token)) && read.Success?
            && read.value.realmId == Some(realmId) && read.value.authScheme == Some(P.Saml)
            && read.value.iat == Some(now) && read.value.exp == Some(now + maxAge)
            && (exists subject: string ::
                  && IsSubject(subject, assertion, params)
                  && read.value.sub == Some(if params.normalizeSubjectCase then lower(subject) else subject))
            && (params.roleAttribute.None? ==> read.value.roles.None?)
            && (params.roleAttribute.Some? ==>
                  AreFirstOccurrences(if read.value.roles.None? then [] else read.value.roles.value,
                                      AttributeValues(assertion, params.roleAttribute.value)))
            && (forall a <- params.attributeClaimMap ::
                  if AttributeValues(assertion, a) == [] then params.attributeClaimMap[a] !in read.value.extra
                  else && params.attributeClaimMap[a] in read.value.extra
                       && Says(read.value.extra[params.attributeClaimMap[a]], AttributeValues(assertion, a)))
  {
    var identity := Mapped(assertion, params, order, lower, size).value;
    var claims := TokenClaims(identity, realmId, now, maxAge);
    MappedExactlyWhen(assertion, params, order, lower, size);
    MappedIdentitiesSurvive(assertion, params.attributeClaimMap, order, written);
    assert claims.extra == Claims(assertion, params.attributeClaimMap, order);
    MappingIgnoresIterationOrder(assertion, params, order, order, lower, size);
  }

  /** The reserved-name check is exact: it accepts a claim map exactly when no assertion at all maps
      to extra claims that a session or a certificate would lose. */
  lemma ReservedCheckIsNeeded(claimMap: map<string, string>)
    ensures NoClaimIsReserved(claimMap)
            <==> forall assertion, order, written |
                   Enumerates(order, claimMap.Keys) && Enumerates(written, Claims(assertion, claimMap, order).Keys) ::
                   Survives(Claims(assertion, claimMap, order), written)
  {
    if NoClaimIsReserved(claimMap) {
      forall assertion, order, written |
        Enumerates(order, claimMap.Keys) && Enumerates(written, Claims(assertion, claimMap, order).Keys)
        ensures Survives(Claims(assertion, claimMap, order), written)
      {
        MappedIdentitiesSurvive(assertion, claimMap, order, written);
      }
    } else {
      var a :| a in claimMap && P.IsReserved(claimMap[a]);
      var assertion, order, written := LosesClaims(claimMap, a);
      assert !Survives(Claims(assertion, claimMap, order), written);
    }
  }

  lemma LosesClaims(claimMap: map<string, string>, a: string)
    returns (assertion: Assertion, order: seq<string>, written: seq<string>)
    requires a in claimMap && P.IsReserved(claimMap[a])
    ensures Enumerates(order, claimMap.Keys) && Enumerates(written, Claims(assertion, claimMap, order).Keys)
    ensures !Survives(Claims(assertion, claimMap, order), written)
  {
    assertion := Sample(a, a + "?");
    SampleValues(a, a + "?");
    order := EnumerationExists(claimMap.Keys);
    ClaimsAre(assertion, claimMap, order);
    written := EnumerationExists(Claims(assertion, claimMap, order).Keys);
    P.PolicyIsExact(Claims(assertion, claimMap, order), written);
    assert a in order;
  }
}
