/** Session and certificate claims as typed records, and the policy that keeps extra claims off
    their names (client/src/models/claim_policy.rs, client_claims.rs, certificate_claims.rs). */
module ClaimPolicy {
  import opened HashMaps
  import opened Wrappers
  import opened ClientClaims

  datatype AuthScheme = UsernamePassword | Jwt | Fido2 | DigitalCredentials | ClientCertificate | Saml

  function SchemeName(scheme: AuthScheme): string {
    match scheme
    case UsernamePassword => "up"
    case Jwt => "jwt"
    case Fido2 => "f2"
    case DigitalCredentials => "dc"
    case ClientCertificate => "cc"
    case Saml => "sa"
  }

  datatype SessionClaims = SessionClaims(
    iss: Option<string>, sub: Option<string>, aud: Option<seq<string>>, exp: Option<int>, nbf: Option<int>,
    iat: Option<int>, jti: Option<string>, roles: Option<seq<string>>, authScheme: Option<AuthScheme>,
    realmId: Option<string>, extra: map<string, Json>)

  datatype CertificateClaims = CertificateClaims(
    realmId: string, sub: Option<string>, authScheme: AuthScheme, verificationKey: string, iat: int, exp: int,
    extra: map<string, Json>)

  const REGISTERED_NAMES := ["iss", "sub", "aud", "exp", "nbf", "iat", "jti"]
  const PRIVATE_NAMES := ["roles", "as_as", "as_rid"]
  const SESSION_NAMES := REGISTERED_NAMES + PRIVATE_NAMES
  const CERTIFICATE_NAMES := ["realm_id", "sub", "auth_scheme", "verification_key", "iat", "exp"]

  // ---- Values ----

  function OfText(v: Option<string>): Option<Json> {
    if v.None? then None else Some(Str(v.value))
  }

  function OfNumber(v: Option<int>): Option<Json> {
    if v.None? then None else Some(Num(v.value))
  }

  function Strings(items: seq<string>): seq<Json> {
    seq(|items|, i requires 0 <= i < |items| => Str(items[i]))
  }

  function OfTexts(v: Option<seq<string>>): Option<Json> {
    if v.None? then None else Some(Arr(Strings(v.value)))
  }

  function OfScheme(v: Option<AuthScheme>): Option<Json> {
    if v.None? then None else Some(Str(SchemeName(v.value)))
  }

  function ToText(v: Option<Json>): Result<Option<string>, ()> {
    match v
    case None => Success(None)
    case Some(Null) => Success(None)
    case Some(Str(s)) => Success(Some(s))
    case _ => Failure(())
  }

  function ToNumber(v: Option<Json>): Result<Option<int>, ()> {
    match v
    case None => Success(None)
    case Some(Null) => Success(None)
    case Some(Num(n)) => Success(Some(n))
    case _ => Failure(())
  }

  function Texts(items: seq<Json>): Result<seq<string>, ()> {
    if items == [] then Success([])
    else if !items[0].Str? then Failure(())
    else
      match Texts(items[1..])
      case Failure(e) => Failure(e)
      case Success(rest) => Success([items[0].s] + rest)
  }

  function ToTexts(v: Option<Json>): Result<Option<seq<string>>, ()> {
    match v
    case None => Success(None)
    case Some(Null) => Success(None)
    case Some(Arr(items)) => (match Texts(items) case Failure(e) => Failure(e) case Success(ts) => Success(Some(ts)))
    case _ => Failure(())
  }

  /** `deserialize_aud`: one string counts as a list of one. */
  function ToAudience(v: Option<Json>): Result<Option<seq<string>>, ()> {
    match v
    case Some(Str(s)) => Success(Some([s]))
    case _ => ToTexts(v)
  }

  function ToScheme(v: Option<Json>): Result<Option<AuthScheme>, ()> {
    match v
    case None => Success(None)
    case Some(Null) => Success(None)
    case Some(Str(s)) =>
      if s == "up" then Success(Some(UsernamePassword))
      else if s == "jwt" then Success(Some(Jwt))
      else if s == "f2" then Success(Some(Fido2))
      else if s == "dc" then Success(Some(DigitalCredentials))
      else if s == "cc" then Success(Some(ClientCertificate))
      else if s == "sa" then Success(Some(Saml))
      else Failure(())
    case _ => Failure(())
  }

  lemma {:induction false} TextsRoundTrip(items: seq<string>)
    ensures Texts(Strings(items)) == Success(items)
  {
    if items != [] {
      assert Strings(items)[1..] == Strings(items[1..]) && Strings(items)[0] == Str(items[0]);
      TextsRoundTrip(items[1..]);
      assert [items[0]] + items[1..] == items;
    }
  }

  /** A list of audiences reads back as itself, and a single audience as a list of one. */
  lemma AudienceRoundTrip(aud: Option<seq<string>>, single: string)
    ensures ToAudience(OfTexts(aud)) == Success(aud)
    ensures ToAudience(Some(Str(single))) == ToAudience(Some(Arr([Str(single)])))
  {
    if aud.Some? {
      TextsRoundTrip(aud.value);
    }
    TextsRoundTrip([single]);
    assert Strings([single]) == [Str(single)];
  }

  // ---- Session claims ----

  function SessionValues(c: SessionClaims): seq<Option<Json>> {
    [OfText(c.iss), OfText(c.sub), OfTexts(c.aud), OfNumber(c.exp), OfNumber(c.nbf), OfNumber(c.iat), OfText(c.jti),
     OfTexts(c.roles), OfScheme(c.authScheme), OfText(c.realmId)]
  }

  function WriteSession(c: SessionClaims, order: seq<string>): Flat
    requires forall name <- order :: name in c.extra
  {
    Emit(SESSION_NAMES, SessionValues(c)) + EmitExtra(c.extra, order)
  }

  /** A claim that is set is one entry. */
  function Entry(name: string, v: Option<Json>): Flat {
    if v.None? then [] else [(name, v.value)]
  }

  lemma {:induction false} EmitConcat(a: seq<string>, u: seq<Option<Json>>, b: seq<string>, v: seq<Option<Json>>)
    requires |a| == |u| && |b| == |v|
    ensures Emit(a + b, u + v) == Emit(a, u) + Emit(b, v)
  {
    if a == [] {
      assert a + b == b && u + v == v;
    } else {
      assert (a + b)[0] == a[0] && (a + b)[1..] == a[1..] + b;
      assert (u + v)[0] == u[0] && (u + v)[1..] == u[1..] + v;
      EmitConcat(a[1..], u[1..], b, v);
    }
  }

  lemma EmitOne(name: string, v: Option<Json>)
    ensures Emit([name], [v]) == Entry(name, v)
  {
    assert [name][1..] == [] && [v][1..] == [];
  }

  lemma EmitTwo(a: string, u: Option<Json>, b: string, v: Option<Json>)
    ensures Emit([a, b], [u, v]) == Entry(a, u) + Entry(b, v)
  {
    hide Emit;
    EmitConcat([a], [u], [b], [v]);
    EmitOne(a, u);
    EmitOne(b, v);
    assert [a] + [b] == [a, b] && [u] + [v] == [u, v];
  }

  lemma EmitFive(n: seq<string>, v: seq<Option<Json>>)
    requires |n| == |v| == 5
    ensures Emit(n, v) == Entry(n[0], v[0]) + Entry(n[1], v[1]) + Entry(n[2], v[2]) + Entry(n[3], v[3])
                          + Entry(n[4], v[4])
  {
    hide Emit;
    assert n == [n[0], n[1]] + ([n[2], n[3]] + [n[4]]);
    assert v == [v[0], v[1]] + ([v[2], v[3]] + [v[4]]);
    EmitConcat([n[0], n[1]], [v[0], v[1]], [n[2], n[3]] + [n[4]], [v[2], v[3]] + [v[4]]);
    EmitConcat([n[2], n[3]], [v[2], v[3]], [n[4]], [v[4]]);
    EmitTwo(n[0], v[0], n[1], v[1]);
    EmitTwo(n[2], v[2], n[3], v[3]);
    EmitOne(n[4], v[4]);
  }

  lemma EmitTen(n: seq<string>, v: seq<Option<Json>>)
    requires |n| == |v| == 10
    ensures Emit(n, v) == (Entry(n[0], v[0]) + Entry(n[1], v[1]) + Entry(n[2], v[2]) + Entry(n[3], v[3])
                           + Entry(n[4], v[4]))
                          + (Entry(n[5], v[5]) + Entry(n[6], v[6]) + Entry(n[7], v[7]) + Entry(n[8], v[8])
                             + Entry(n[9], v[9]))
  {
    hide Emit;
    assert n == n[..5] + n[5..] && v == v[..5] + v[5..];
    EmitConcat(n[..5], v[..5], n[5..], v[5..]);
    EmitFive(n[..5], v[..5]);
    EmitFive(n[5..], v[5..]);
  }

  /** Which claim goes under which name, in which order. */
  lemma SessionIsWritten(c: SessionClaims, order: seq<string>)
    requires forall name <- order :: name in c.extra
    ensures WriteSession(c, order)
            == (Entry("iss", OfText(c.iss)) + Entry("sub", OfText(c.sub)) + Entry("aud", OfTexts(c.aud))
                + Entry("exp", OfNumber(c.exp)) + Entry("nbf", OfNumber(c.nbf)))
               + (Entry("iat", OfNumber(c.iat)) + Entry("jti", OfText(c.jti)) + Entry("roles", OfTexts(c.roles))
                  + Entry("as_as", OfScheme(c.authScheme)) + Entry("as_rid", OfText(c.realmId)))
               + EmitExtra(c.extra, order)
  {
    EmitTen(SESSION_NAMES, SessionValues(c));
  }

  function SessionOf(v: seq<Option<Json>>, extra: map<string, Json>): Result<SessionClaims, DecodeError>
    requires |v| == 10
  {
    if ToText(v[0]).Failure? then Failure(WrongType("iss"))
    else if ToText(v[1]).Failure? then Failure(WrongType("sub"))
    else if ToAudience(v[2]).Failure? then Failure(WrongType("aud"))
    else if ToNumber(v[3]).Failure? then Failure(WrongType("exp"))
    else if ToNumber(v[4]).Failure? then Failure(WrongType("nbf"))
    else if ToNumber(v[5]).Failure? then Failure(WrongType("iat"))
    else if ToText(v[6]).Failure? then Failure(WrongType("jti"))
    else if ToTexts(v[7]).Failure? then Failure(WrongType("roles"))
    else if ToScheme(v[8]).Failure? then Failure(WrongType("as_as"))
    else if ToText(v[9]).Failure? then Failure(WrongType("as_rid"))
    else Success(SessionClaims(
      ToText(v[0]).value, ToText(v[1]).value, ToAudience(v[2]).value, ToNumber(v[3]).value, ToNumber(v[4]).value,
      ToNumber(v[5]).value, ToText(v[6]).value, ToTexts(v[7]).value, ToScheme(v[8]).value, ToText(v[9]).value, extra))
  }

  function ReadSession(flat: Flat): Result<SessionClaims, DecodeError> {
    FieldsLength(flat, SESSION_NAMES);
    match Fields(flat, SESSION_NAMES)
    case Failure(e) => Failure(e)
    case Success(values) => SessionOf(values, Rest(flat, SESSION_NAMES))
  }

  predicate AreTexts(items: seq<Json>) {
    forall item <- items :: item.Str?
  }

  /** The JSON types that the named claim of a session may have. */
  predicate FitsSession(name: string, v: Json) {
    match name
    case "iss" => v.Null? || v.Str?
    case "sub" => v.Null? || v.Str?
    case "aud" => v.Null? || v.Str? || (v.Arr? && AreTexts(v.items))
    case "exp" => v.Null? || v.Num?
    case "nbf" => v.Null? || v.Num?
    case "iat" => v.Null? || v.Num?
    case "jti" => v.Null? || v.Str?
    case "roles" => v.Null? || (v.Arr? && AreTexts(v.items))
    case "as_as" => v.Null? || (v.Str? && v.s in ["up", "jwt", "f2", "dc", "cc", "sa"])
    case "as_rid" => v.Null? || v.Str?
    case _ => true
  }

  lemma {:induction false} TextsExactly(items: seq<Json>)
    ensures Texts(items).Success? <==> AreTexts(items)
  {
    if items != [] {
      TextsExactly(items[1..]);
      assert items == [items[0]] + items[1..];
    }
  }

  ghost predicate AllFit(flat: Flat) {
    forall e <- flat :: FitsSession(e.0, e.1)
  }

  /** Session claims are read from an object exactly when no typed name repeats and every typed claim
      has its type; the other claims are kept as they are. */
  lemma SessionReadsExactlyWhen(flat: Flat)
    ensures ReadSession(flat).Success? <==>
              (forall name <- SESSION_NAMES :: AtMostOnce(flat, name)) && AllFit(flat)
    ensures ReadSession(flat).Success? ==> ReadSession(flat).value.extra == Rest(flat, SESSION_NAMES)
  {
    hide Fields, SessionOf, FitsSession;
    ReadSessionExtra(flat);
    FieldsAreThere(flat, SESSION_NAMES);
    if Fields(flat, SESSION_NAMES).Success? {
      var v := Fields(flat, SESSION_NAMES).value;
      SessionOfExactly(v, Rest(flat, SESSION_NAMES));
      FitsFieldByField(flat, v);
    }
  }

  lemma FitsFieldByField(flat: Flat, v: seq<Option<Json>>)
    requires |v| == |SESSION_NAMES|
    requires forall i | 0 <= i < |SESSION_NAMES| :: Field(flat, SESSION_NAMES[i]) == Success(v[i])
    ensures AllFit(flat) <==> forall i | 0 <= i < |SESSION_NAMES| :: Fits(v[i], SESSION_NAMES[i])
  {
    forall i | 0 <= i < |SESSION_NAMES| ensures Fits(v[i], SESSION_NAMES[i]) <==> FitsAt(flat, SESSION_NAMES[i]) {
      FieldIsWhatStandsThere(flat, SESSION_NAMES[i]);
    }
    if forall i | 0 <= i < |SESSION_NAMES| :: FitsAt(flat, SESSION_NAMES[i]) {
      forall e <- flat ensures FitsSession(e.0, e.1) {
        if e.0 in SESSION_NAMES {
          var i :| 0 <= i < |SESSION_NAMES| && SESSION_NAMES[i] == e.0;
          assert FitsAt(flat, SESSION_NAMES[i]);
        } else {
          OthersFit(e.0, e.1);
        }
      }
    }
  }

  lemma OthersFit(name: string, v: Json)
    requires name !in SESSION_NAMES
    ensures FitsSession(name, v)
  {
    assert forall i | 0 <= i < |SESSION_NAMES| :: SESSION_NAMES[i] != name;
  }

  predicate Fits(v: Option<Json>, name: string) {
    v.None? || FitsSession(name, v.value)
  }

  ghost predicate FitsAt(flat: Flat, name: string) {
    forall e <- flat | e.0 == name :: FitsSession(name, e.1)
  }

  lemma SessionOfExactly(v: seq<Option<Json>>, extra: map<string, Json>)
    requires |v| == 10
    ensures SessionOf(v, extra).Success? <==> forall i | 0 <= i < 10 :: Fits(v[i], SESSION_NAMES[i])
  {
    assert Fits(v[0], "iss") <==> ToText(v[0]).Success?;
    assert Fits(v[1], "sub") <==> ToText(v[1]).Success?;
    if v[2].Some? && v[2].value.Arr? {
      TextsExactly(v[2].value.items);
    }
    assert Fits(v[2], "aud") <==> ToAudience(v[2]).Success?;
    assert Fits(v[3], "exp") <==> ToNumber(v[3]).Success?;
    assert Fits(v[4], "nbf") <==> ToNumber(v[4]).Success?;
    assert Fits(v[5], "iat") <==> ToNumber(v[5]).Success?;
    assert Fits(v[6], "jti") <==> ToText(v[6]).Success?;
    if v[7].Some? && v[7].value.Arr? {
      TextsExactly(v[7].value.items);
    }
    assert Fits(v[7], "roles") <==> ToTexts(v[7]).Success?;
    assert Fits(v[8], "as_as") <==> ToScheme(v[8]).Success?;
    assert Fits(v[9], "as_rid") <==> ToText(v[9]).Success?;
  }

  lemma {:induction false} FieldsLength(flat: Flat, names: seq<string>)
    ensures Fields(flat, names).Success? ==> |Fields(flat, names).value| == |names|
  {
    if names != [] {
      FieldsLength(flat, names[1..]);
    }
  }

  /** Each typed value reads back as it was written. */
  lemma TextReadsBack(v: Option<string>)
    ensures ToText(OfText(v)) == Success(v)
  {
  }

  lemma NumberReadsBack(v: Option<int>)
    ensures ToNumber(OfNumber(v)) == Success(v)
  {
  }

  lemma TextsReadBack(v: Option<seq<string>>)
    ensures ToTexts(OfTexts(v)) == Success(v)
  {
    if v.Some? {
      TextsRoundTrip(v.value);
    }
  }

  lemma SchemeReadsBack(v: Option<AuthScheme>)
    ensures ToScheme(OfScheme(v)) == Success(v)
  {
  }

  lemma SessionOfValues(c: SessionClaims, extra: map<string, Json>)
    ensures SessionOf(SessionValues(c), extra) == Success(c.(extra := extra))
  {
    TextReadsBack(c.iss);
    TextReadsBack(c.sub);
    AudienceRoundTrip(c.aud, "");
    NumberReadsBack(c.exp);
    NumberReadsBack(c.nbf);
    NumberReadsBack(c.iat);
    TextReadsBack(c.jti);
    TextsReadBack(c.roles);
    SchemeReadsBack(c.authScheme);
    TextReadsBack(c.realmId);
  }

  lemma NamesAreDistinct()
    ensures Distinct(SESSION_NAMES) && Distinct(CERTIFICATE_NAMES)
  {
  }

  /** Session claims survive being written and read exactly when no extra claim has the name of a
      typed one. */
  lemma SessionRoundTrip(c: SessionClaims, order: seq<string>)
    requires Enumerates(order, c.extra.Keys)
    ensures ReadSession(WriteSession(c, order)) == Success(c) <==> forall name <- SESSION_NAMES :: name !in c.extra
  {
    var flat := WriteSession(c, order);
    NamesAreDistinct();
    FlatteningIsLossless(SESSION_NAMES, SessionValues(c), c.extra, order);
    if forall name <- SESSION_NAMES :: name !in c.extra {
      ReadSessionOf(flat, SessionValues(c), c.extra);
      SessionOfValues(c, c.extra);
    } else {
      var name :| name in SESSION_NAMES && name in c.extra;
      RestAvoids(flat, SESSION_NAMES, name);
      ReadSessionExtra(flat);
    }
  }

  lemma ReadSessionOf(flat: Flat, values: seq<Option<Json>>, extra: map<string, Json>)
    requires Fields(flat, SESSION_NAMES) == Success(values) && Rest(flat, SESSION_NAMES) == extra && |values| == 10
    ensures ReadSession(flat) == SessionOf(values, extra)
  {
  }

  lemma ReadSessionExtra(flat: Flat)
    ensures ReadSession(flat).Success? ==> ReadSession(flat).value.extra == Rest(flat, SESSION_NAMES)
  {
  }

  lemma {:induction false} RestAvoids(flat: Flat, names: seq<string>, name: string)
    requires name in names
    ensures name !in Rest(flat, names)
  {
    if flat != [] {
      RestAvoids(flat[..|flat| - 1], names, name);
    }
  }

  // ---- Certificate claims ----

  function CertificateValues(c: CertificateClaims): seq<Option<Json>> {
    [Some(Str(c.realmId)), OfText(c.sub), Some(Str(SchemeName(c.authScheme))), Some(Str(c.verificationKey)),
     Some(Num(c.iat)), Some(Num(c.exp))]
  }

  function WriteCertificate(c: CertificateClaims, order: seq<string>): Flat
    requires forall name <- order :: name in c.extra
  {
    Emit(CERTIFICATE_NAMES, CertificateValues(c)) + EmitExtra(c.extra, order)
  }

  /** Which claim goes under which name; only `sub` may be missing. */
  lemma CertificateIsWritten(c: CertificateClaims, order: seq<string>)
    requires forall name <- order :: name in c.extra
    ensures WriteCertificate(c, order)
            == ([("realm_id", Str(c.realmId))] + Entry("sub", OfText(c.sub))
                + [("auth_scheme", Str(SchemeName(c.authScheme)))] + [("verification_key", Str(c.verificationKey))]
                + [("iat", Num(c.iat))])
               + [("exp", Num(c.exp))] + EmitExtra(c.extra, order)
  {
    EmitSix(CERTIFICATE_NAMES, CertificateValues(c));
  }

  lemma EmitSix(n: seq<string>, v: seq<Option<Json>>)
    requires |n| == |v| == 6
    ensures Emit(n, v) == (Entry(n[0], v[0]) + Entry(n[1], v[1]) + Entry(n[2], v[2]) + Entry(n[3], v[3])
                           + Entry(n[4], v[4]))
                          + Entry(n[5], v[5])
  {
    hide Emit;
    assert n == n[..5] + [n[5]] && v == v[..5] + [v[5]];
    EmitConcat(n[..5], v[..5], [n[5]], [v[5]]);
    EmitFive(n[..5], v[..5]);
    EmitOne(n[5], v[5]);
  }

  function CertificateOf(v: seq<Option<Json>>, extra: map<string, Json>): Result<CertificateClaims, DecodeError>
    requires |v| == 6
  {
    if v[0].None? then Failure(MissingField("realm_id"))
    else if v[2].None? then Failure(MissingField("auth_scheme"))
    else if v[3].None? then Failure(MissingField("verification_key"))
    else if v[4].None? then Failure(MissingField("iat"))
    else if v[5].None? then Failure(MissingField("exp"))
    else if !v[0].value.Str? then Failure(WrongType("realm_id"))
    else if ToText(v[1]).Failure? then Failure(WrongType("sub"))
    else if ToScheme(v[2]).Failure? || ToScheme(v[2]).value.None? then Failure(WrongType("auth_scheme"))
    else if !v[3].value.Str? then Failure(WrongType("verification_key"))
    else if !v[4].value.Num? then Failure(WrongType("iat"))
    else if !v[5].value.Num? then Failure(WrongType("exp"))
    else Success(CertificateClaims(
      v[0].value.s, ToText(v[1]).value, ToScheme(v[2]).value.value, v[3].value.s, v[4].value.n, v[5].value.n, extra))
  }

  function ReadCertificate(flat: Flat): Result<CertificateClaims, DecodeError> {
    FieldsLength(flat, CERTIFICATE_NAMES);
    match Fields(flat, CERTIFICATE_NAMES)
    case Failure(e) => Failure(e)
    case Success(values) => CertificateOf(values, Rest(flat, CERTIFICATE_NAMES))
  }

  /** The JSON types that the named claim of a certificate may have. */
  predicate FitsCertificate(name: string, v: Json) {
    match name
    case "realm_id" => v.Str?
    case "sub" => v.Null? || v.Str?
    case "auth_scheme" => v.Str? && v.s in ["up", "jwt", "f2", "dc", "cc", "sa"]
    case "verification_key" => v.Str?
    case "iat" => v.Num?
    case "exp" => v.Num?
    case _ => true
  }

  /** Every claim but the subject stands there. */
  ghost predicate IsComplete(flat: Flat) {
    forall name <- CERTIFICATE_NAMES | name != "sub" :: exists e <- flat :: e.0 == name
  }

  ghost predicate AllFitCertificate(flat: Flat) {
    forall e <- flat :: FitsCertificate(e.0, e.1)
  }

  /** Certificate claims are read from an object exactly when no typed name repeats, none but the
      subject is missing and every typed claim has its type. */
  lemma CertificateReadsExactlyWhen(flat: Flat)
    ensures ReadCertificate(flat).Success? <==>
              && (forall name <- CERTIFICATE_NAMES :: AtMostOnce(flat, name))
              && IsComplete(flat) && AllFitCertificate(flat)
    ensures ReadCertificate(flat).Success? ==> ReadCertificate(flat).value.extra == Rest(flat, CERTIFICATE_NAMES)
  {
    hide Fields, CertificateOf, FitsCertificate;
    ReadCertificateExtra(flat);
    FieldsAreThere(flat, CERTIFICATE_NAMES);
    if Fields(flat, CERTIFICATE_NAMES).Success? {
      var v := Fields(flat, CERTIFICATE_NAMES).value;
      CertificateOfExactly(v, Rest(flat, CERTIFICATE_NAMES));
      CompleteFieldByField(flat, v);
      FitsCertificateFieldByField(flat, v);
    }
  }

  predicate FitsIn(v: Option<Json>, name: string) {
    v.None? || FitsCertificate(name, v.value)
  }

  ghost predicate FitsCertificateAt(flat: Flat, name: string) {
    forall e <- flat | e.0 == name :: FitsCertificate(name, e.1)
  }

  lemma CertificateOfExactly(v: seq<Option<Json>>, extra: map<string, Json>)
    requires |v| == 6
    ensures CertificateOf(v, extra).Success? <==>
              && (forall i | 0 <= i < 6 && i != 1 :: v[i].Some?)
              && (forall i | 0 <= i < 6 :: FitsIn(v[i], CERTIFICATE_NAMES[i]))
  {
    assert FitsIn(v[0], "realm_id") <==> v[0].None? || v[0].value.Str?;
    assert FitsIn(v[1], "sub") <==> ToText(v[1]).Success?;
    assert FitsIn(v[2], "auth_scheme") <==> v[2].None? || (ToScheme(v[2]).Success? && ToScheme(v[2]).value.Some?);
    assert FitsIn(v[3], "verification_key") <==> v[3].None? || v[3].value.Str?;
    assert FitsIn(v[4], "iat") <==> v[4].None? || v[4].value.Num?;
    assert FitsIn(v[5], "exp") <==> v[5].None? || v[5].value.Num?;
  }

  lemma CompleteFieldByField(flat: Flat, v: seq<Option<Json>>)
    requires |v| == |CERTIFICATE_NAMES|
    requires forall i | 0 <= i < |CERTIFICATE_NAMES| :: Field(flat, CERTIFICATE_NAMES[i]) == Success(v[i])
    ensures IsComplete(flat) <==> forall i | 0 <= i < |CERTIFICATE_NAMES| && i != 1 :: v[i].Some?
  {
    forall i | 0 <= i < |CERTIFICATE_NAMES|
      ensures v[i].Some? <==> exists e <- flat :: e.0 == CERTIFICATE_NAMES[i]
    {
      FieldIsWhatStandsThere(flat, CERTIFICATE_NAMES[i]);
    }
    NamesAreDistinct();
    assert CERTIFICATE_NAMES[1] == "sub";
    if IsComplete(flat) {
      forall i | 0 <= i < |CERTIFICATE_NAMES| && i != 1 ensures v[i].Some? {
        assert CERTIFICATE_NAMES[i] in CERTIFICATE_NAMES && CERTIFICATE_NAMES[i] != CERTIFICATE_NAMES[1];
      }
    }
  }

  lemma FitsCertificateFieldByField(flat: Flat, v: seq<Option<Json>>)
    requires |v| == |CERTIFICATE_NAMES|
    requires forall i | 0 <= i < |CERTIFICATE_NAMES| :: Field(flat, CERTIFICATE_NAMES[i]) == Success(v[i])
    ensures AllFitCertificate(flat) <==> forall i | 0 <= i < |CERTIFICATE_NAMES| :: FitsIn(v[i], CERTIFICATE_NAMES[i])
  {
    forall i | 0 <= i < |CERTIFICATE_NAMES|
      ensures FitsIn(v[i], CERTIFICATE_NAMES[i]) <==> FitsCertificateAt(flat, CERTIFICATE_NAMES[i])
    {
      FieldIsWhatStandsThere(flat, CERTIFICATE_NAMES[i]);
    }
    if forall i | 0 <= i < |CERTIFICATE_NAMES| :: FitsCertificateAt(flat, CERTIFICATE_NAMES[i]) {
      forall e <- flat ensures FitsCertificate(e.0, e.1) {
        if e.0 in CERTIFICATE_NAMES {
          var i :| 0 <= i < |CERTIFICATE_NAMES| && CERTIFICATE_NAMES[i] == e.0;
          assert FitsCertificateAt(flat, CERTIFICATE_NAMES[i]);
        } else {
          OthersFitCertificate(e.0, e.1);
        }
      }
    }
  }

  lemma OthersFitCertificate(name: string, v: Json)
    requires name !in CERTIFICATE_NAMES
    ensures FitsCertificate(name, v)
  {
    assert forall i | 0 <= i < |CERTIFICATE_NAMES| :: CERTIFICATE_NAMES[i] != name;
  }

  lemma CertificateRoundTrip(c: CertificateClaims, order: seq<string>)
    requires Enumerates(order, c.extra.Keys)
    ensures ReadCertificate(WriteCertificate(c, order)) == Success(c)
            <==> forall name <- CERTIFICATE_NAMES :: name !in c.extra
  {
    var flat := WriteCertificate(c, order);
    NamesAreDistinct();
    FlatteningIsLossless(CERTIFICATE_NAMES, CertificateValues(c), c.extra, order);
    if forall name <- CERTIFICATE_NAMES :: name !in c.extra {
      ReadCertificateOf(flat, CertificateValues(c), c.extra);
      CertificateOfValues(c);
    } else {
      var name :| name in CERTIFICATE_NAMES && name in c.extra;
      RestAvoids(flat, CERTIFICATE_NAMES, name);
      ReadCertificateExtra(flat);
    }
  }

  lemma CertificateOfValues(c: CertificateClaims)
    ensures CertificateOf(CertificateValues(c), c.extra) == Success(c)
  {
  }

  lemma ReadCertificateOf(flat: Flat, values: seq<Option<Json>>, extra: map<string, Json>)
    requires Fields(flat, CERTIFICATE_NAMES) == Success(values) && Rest(flat, CERTIFICATE_NAMES) == extra
        && |values| == 6
    ensures ReadCertificate(flat) == CertificateOf(values, extra)
  {
  }

  lemma ReadCertificateExtra(flat: Flat)
    ensures ReadCertificate(flat).Success? ==> ReadCertificate(flat).value.extra == Rest(flat, CERTIFICATE_NAMES)
  {
  }

  // ---- The policy ----

  /** The names of an object's claims: `object_keys`. */
  function ObjectKeys(flat: Flat): set<string> {
    set i | 0 <= i < |flat| :: flat[i].0
  }

  /** The names of typed claims, of session and certificate alike. */
  predicate IsReserved(name: string) {
    name in SESSION_NAMES || name in CERTIFICATE_NAMES
  }

  /** One instance of each kind of claims, with every optional field set. */
  method Samples() returns (session: SessionClaims, certificate: CertificateClaims)
    ensures forall v <- SessionValues(session) :: v.Some?
    ensures forall v <- CertificateValues(certificate) :: v.Some?
    ensures session.extra == map[] == certificate.extra
  {
    session := SessionClaims(Some(""), Some(""), Some([]), Some(0), Some(0), Some(0), Some(""), Some([]),
                             Some(UsernamePassword), Some(""), map[]);
    certificate := CertificateClaims("", Some(""), UsernamePassword, "", 0, 0, map[]);
  }

  /** Nobody lists the reserved names by hand: they are the keys of two written samples. */
  method ReservedClaimNames() returns (names: set<string>)
    ensures forall name :: name in names <==> IsReserved(name)
  {
    var session, certificate := Samples();
    names := ObjectKeys(WriteSession(session, []));
    names := names + ObjectKeys(WriteCertificate(certificate, []));
    KeysOfEmitted(SESSION_NAMES, SessionValues(session), WriteSession(session, []));
    KeysOfEmitted(CERTIFICATE_NAMES, CertificateValues(certificate), WriteCertificate(certificate, []));
  }

  datatype PolicyError = ReservedName(name: string)

  /** Names the first reserved name of the list. */
  method RejectReservedClaimNames(names: seq<string>) returns (r: Result<(), PolicyError>)
    ensures r.Success? <==> forall name <- names :: !IsReserved(name)
    ensures r.Failure? ==> exists i | 0 <= i < |names| ::
              names[i] == r.error.name && IsReserved(names[i]) && forall j | 0 <= j < i :: !IsReserved(names[j])
  {
    var reserved := ReservedClaimNames();
    for i := 0 to |names|
      invariant forall j | 0 <= j < i :: !IsReserved(names[j])
    {
      if names[i] in reserved {
        return Failure(ReservedName(names[i]));
      }
    }
    return Success(());
  }

  lemma KeysOfEmitted(names: seq<string>, values: seq<Option<Json>>, flat: Flat)
    requires |names| == |values| && flat == Emit(names, values) + EmitExtra(map[], [])
    requires forall i | 0 <= i < |values| :: values[i].Some?
    ensures forall name :: name in ObjectKeys(flat) <==> name in names
  {
    EmittedNames(names, values);
    forall name ensures name in ObjectKeys(flat) <==> name in names {
      if name in names {
        var i :| 0 <= i < |names| && names[i] == name;
        assert (names[i], values[i].value) in flat;
      }
      if name in ObjectKeys(flat) {
        var i :| 0 <= i < |flat| && flat[i].0 == name;
        assert flat[i] in Emit(names, values);
      }
    }
  }

  /** The policy is exact. It accepts a set of extra claims exactly when all session claims and all
      certificate claims that could carry it survive being written and read. */
  lemma PolicyIsExact(extra: map<string, Json>, order: seq<string>)
    requires Enumerates(order, extra.Keys)
    ensures (forall name <- extra :: !IsReserved(name))
            <==> && (forall c: SessionClaims | c.extra == extra :: ReadSession(WriteSession(c, order)) == Success(c))
                 && (forall c: CertificateClaims | c.extra == extra ::
                       ReadCertificate(WriteCertificate(c, order)) == Success(c))
  {
    SessionsSurvive(extra, order);
    CertificatesSurvive(extra, order);
  }

  lemma SessionsSurvive(extra: map<string, Json>, order: seq<string>)
    requires Enumerates(order, extra.Keys)
    ensures (forall c: SessionClaims | c.extra == extra :: ReadSession(WriteSession(c, order)) == Success(c))
            <==> forall name <- SESSION_NAMES :: name !in extra
  {
    forall c: SessionClaims | c.extra == extra
      ensures ReadSession(WriteSession(c, order)) == Success(c) <==> forall name <- SESSION_NAMES :: name !in extra
    {
      SessionRoundTrip(c, order);
    }
    var session := SessionClaims(None, None, None, None, None, None, None, None, None, None, extra);
    assert session.extra == extra;
  }

  lemma CertificatesSurvive(extra: map<string, Json>, order: seq<string>)
    requires Enumerates(order, extra.Keys)
    ensures (forall c: CertificateClaims | c.extra == extra ::
        ReadCertificate(WriteCertificate(c, order)) == Success(c))
            <==> forall name <- CERTIFICATE_NAMES :: name !in extra
  {
    forall c: CertificateClaims | c.extra == extra
      ensures ReadCertificate(WriteCertificate(c, order)) == Success(c)
              <==> forall name <- CERTIFICATE_NAMES :: name !in extra
    {
      CertificateRoundTrip(c, order);
    }
    var certificate := CertificateClaims("", None, Saml, "", 0, 0, extra);
    assert certificate.extra == extra;
  }

  /** Under accepted extra claims the names in a session token are unique (section 4 of RFC 7519). */
  lemma SessionNamesAreUnique(c: SessionClaims, order: seq<string>)
    requires Enumerates(order, c.extra.Keys)
    requires forall name <- c.extra :: !IsReserved(name)
    ensures Distinct(NamesOf(WriteSession(c, order)))
  {
    NamesAreDistinct();
    NamesAreUnique(SESSION_NAMES, SessionValues(c), c.extra, order);
  }
}
