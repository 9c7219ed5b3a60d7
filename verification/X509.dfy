/** What the admin UI reads from an X.509 certificate (admin-ui/src/utils/x509.ts): the subject's
    common name and the validity period, out of the structure of section 4.1 of RFC 5280. Texts stay
    bytes: decoding UTF-8 is not part of this model. */
module X509 {
  import opened Wrappers
  import opened Der
  import opened CertificateTime

  const COMMON_NAME_OID: Bytes := [0x55, 0x04, 0x03]
  const EXPLICIT_VERSION: byte := 0xa0

  datatype CertificateInfo = CertificateInfo(subject: Bytes, notBefore: int, notAfter: int)

  // ---- Reading ----

  function Text(bytes: Bytes, item: Tlv): Bytes
    requires item.start <= item.end <= |bytes|
  {
    bytes[item.start..item.end]
  }

  predicate IsCommonName(bytes: Bytes, oid: Tlv)
    requires oid.start <= oid.end <= |bytes|
  {
    oid.end - oid.start == 3 && forall i | 0 <= i < 3 :: bytes[oid.start + i] == COMMON_NAME_OID[i]
  }

  predicate AllInside(bytes: Bytes, items: seq<Tlv>) {
    forall item <- items :: item.start <= item.end <= |bytes|
  }

  lemma ChildrenAreInside(bytes: Bytes, parent: Tlv)
    ensures Children(bytes, parent).Success? ==> AllInside(bytes, Children(bytes, parent).value)
  {
    if Children(bytes, parent).Success? {
      ChildrenTile(bytes, parent, Children(bytes, parent).value);
    }
  }

  function InAttribute(bytes: Bytes, attribute: Tlv): Result<Option<Bytes>, CertificateError> {
    ChildrenAreInside(bytes, attribute);
    match Children(bytes, attribute)
    case Failure(e) => Failure(e)
    case Success(parts) =>
      if |parts| >= 2 && IsCommonName(bytes, parts[0]) then Success(Some(Text(bytes, parts[1]))) else Success(None)
  }

  function FirstInAttributes(bytes: Bytes, attributes: seq<Tlv>): Result<Option<Bytes>, CertificateError> {
    if attributes == [] then Success(None)
    else
      var found := InAttribute(bytes, attributes[0]);
      if found == Success(None) then FirstInAttributes(bytes, attributes[1..]) else found
  }

  function InRdn(bytes: Bytes, rdn: Tlv): Result<Option<Bytes>, CertificateError> {
    match Children(bytes, rdn)
    case Failure(e) => Failure(e)
    case Success(attributes) => FirstInAttributes(bytes, attributes)
  }

  function FirstInRdns(bytes: Bytes, rdns: seq<Tlv>): Result<Option<Bytes>, CertificateError> {
    if rdns == [] then Success(None)
    else
      var found := InRdn(bytes, rdns[0]);
      if found == Success(None) then FirstInRdns(bytes, rdns[1..]) else found
  }

  function CommonNameOf(bytes: Bytes, name: Tlv): Result<Bytes, CertificateError> {
    match Children(bytes, name)
    case Failure(e) => Failure(e)
    case Success(rdns) =>
      match FirstInRdns(bytes, rdns)
      case Failure(e) => Failure(e)
      case Success(None) => Success([])
      case Success(Some(text)) => Success(text)
  }

  method CommonName(bytes: Bytes, name: Tlv) returns (r: Result<Bytes, CertificateError>)
    ensures r == CommonNameOf(bytes, name)
  {
    var rdns := ReadChildren(bytes, name);
    if rdns.Failure? {
      return Failure(rdns.error);
    }
    for i := 0 to |rdns.value|
      invariant FirstInRdns(bytes, rdns.value) == FirstInRdns(bytes, rdns.value[i..])
    {
      var attributes := ReadChildren(bytes, rdns.value[i]);
      assert rdns.value[i..] == [rdns.value[i]] + rdns.value[i + 1..];
      if attributes.Failure? {
        return Failure(attributes.error);
      }
      for j := 0 to |attributes.value|
        invariant InRdn(bytes, rdns.value[i]) == FirstInAttributes(bytes, attributes.value[j..])
      {
        assert attributes.value[j..] == [attributes.value[j]] + attributes.value[j + 1..];
        var parts := ReadChildren(bytes, attributes.value[j]);
        if parts.Failure? {
          return Failure(parts.error);
        }
        ChildrenAreInside(bytes, attributes.value[j]);
        if |parts.value| >= 2 && IsCommonName(bytes, parts.value[0]) {
          return Success(Text(bytes, parts.value[1]));
        }
      }
    }
    return Success([]);
  }

  function TimeOf(bytes: Bytes, item: Tlv): Result<int, CertificateError>
    requires item.start <= item.end <= |bytes|
  {
    ReadTime(item.tag, Text(bytes, item))
  }

  function InfoOf(bytes: Bytes): Result<CertificateInfo, CertificateError> {
    match TlvAt(bytes, 0)
    case Failure(e) => Failure(e)
    case Success(root) =>
      match Children(bytes, root)
      case Failure(e) => Failure(e)
      case Success(top) => if top == [] then Failure(NotACertificate) else InfoOfTbs(bytes, top[0])
  }

  function InfoOfTbs(bytes: Bytes, tbs: Tlv): Result<CertificateInfo, CertificateError> {
    match Children(bytes, tbs)
    case Failure(e) => Failure(e)
    case Success(fields) =>
      var first := if fields != [] && fields[0].tag == EXPLICIT_VERSION then 1 else 0;
      if first + 4 >= |fields| then Failure(NotACertificate)
      else InfoOfFields(bytes, fields[first + 3], fields[first + 4])
  }

  function InfoOfFields(bytes: Bytes, validity: Tlv, subject: Tlv): Result<CertificateInfo, CertificateError> {
    ChildrenAreInside(bytes, validity);
    match Children(bytes, validity)
    case Failure(e) => Failure(e)
    case Success(times) =>
      if |times| < 2 then Failure(NoValidityPeriod)
      else
        var name := CommonNameOf(bytes, subject);
        var notBefore, notAfter := TimeOf(bytes, times[0]), TimeOf(bytes, times[1]);
        if name.Failure? then Failure(name.error)
        else if notBefore.Failure? then Failure(notBefore.error)
        else if notAfter.Failure? then Failure(notAfter.error)
        else Success(CertificateInfo(name.value, notBefore.value, notAfter.value))
  }

  /** `bytes` is the certificate once its base64 is decoded. */
  method ReadCertificateInfo(bytes: Bytes) returns (r: Result<CertificateInfo, CertificateError>)
    ensures r == InfoOf(bytes)
  {
    var root := ReadTlv(bytes, 0);
    if root.Failure? {
      return Failure(root.error);
    }
    var top := ReadChildren(bytes, root.value);
    if top.Failure? {
      return Failure(top.error);
    }
    if top.value == [] {
      return Failure(NotACertificate);
    }
    var fields := ReadChildren(bytes, top.value[0]);
    if fields.Failure? {
      return Failure(fields.error);
    }
    var first := if fields.value != [] && fields.value[0].tag == EXPLICIT_VERSION then 1 else 0;
    if first + 4 >= |fields.value| {
      return Failure(NotACertificate);
    }
    var validity, subject := fields.value[first + 3], fields.value[first + 4];
    var times := ReadChildren(bytes, validity);
    if times.Failure? {
      return Failure(times.error);
    }
    if |times.value| < 2 {
      return Failure(NoValidityPeriod);
    }
    ChildrenAreInside(bytes, validity);
    var name := CommonName(bytes, subject);
    if name.Failure? {
      return Failure(name.error);
    }
    var notBefore := TimeOf(bytes, times.value[0]);
    if notBefore.Failure? {
      return Failure(notBefore.error);
    }
    var notAfter := TimeOf(bytes, times.value[1]);
    if notAfter.Failure? {
      return Failure(notAfter.error);
    }
    return Success(CertificateInfo(name.value, notBefore.value, notAfter.value));
  }

  // ---- Writing ----

  datatype NameAttribute = NameAttribute(oid: Bytes, valueTag: byte, value: Bytes)

  datatype Time = Time(tag: byte, text: Bytes)

  /** A certificate as its issuer writes it; what the reader does not look at is any DER value. */
  datatype Certificate = Certificate(
    version: Option<Value>,
    serialNumber: Bytes,
    signature: Value,
    issuer: Value,
    notBefore: Time,
    notAfter: Time,
    subject: seq<seq<NameAttribute>>,
    afterSubject: seq<Value>,
    afterTbs: seq<Value>)

  function TimeDer(t: Time): Value {
    Primitive(t.tag, t.text)
  }

  function AttributeDer(a: NameAttribute): Value {
    Constructed(0x30, [Primitive(0x06, a.oid), Primitive(a.valueTag, a.value)])
  }

  function RdnDer(rdn: seq<NameAttribute>): Value {
    Constructed(0x31, seq(|rdn|, i requires 0 <= i < |rdn| => AttributeDer(rdn[i])))
  }

  function NameDer(name: seq<seq<NameAttribute>>): Value {
    Constructed(0x30, seq(|name|, i requires 0 <= i < |name| => RdnDer(name[i])))
  }

  function TbsParts(c: Certificate): seq<Value> {
    (if c.version.Some? then [Constructed(0xa0, [c.version.value])] else [])
    + [Primitive(0x02, c.serialNumber), c.signature, c.issuer,
       Constructed(0x30, [TimeDer(c.notBefore), TimeDer(c.notAfter)]), NameDer(c.subject)]
    + c.afterSubject
  }

  function CertificateDer(c: Certificate): Value {
    Constructed(0x30, [Constructed(0x30, TbsParts(c))] + c.afterTbs)
  }

  /** The values of the common names of a distinguished name, in the order it lists them. */
  function CommonNames(name: seq<seq<NameAttribute>>): seq<Bytes> {
    if name == [] then [] else CommonNamesOfRdn(name[0]) + CommonNames(name[1..])
  }

  function CommonNamesOfRdn(rdn: seq<NameAttribute>): seq<Bytes> {
    if rdn == [] then []
    else (if rdn[0].oid == [0x55, 0x04, 0x03] then [rdn[0].value] else []) + CommonNamesOfRdn(rdn[1..])
  }

  // ---- Reading what was written ----

  lemma ReadsAttribute(bytes: Bytes, item: Tlv, a: NameAttribute)
    requires |bytes| < 0x1_0000_0000 && Locates(bytes, item, AttributeDer(a))
    ensures InAttribute(bytes, item) == Success(if a.oid == COMMON_NAME_OID then Some(a.value) else None)
  {
    var parts := ChildrenInvertEncoding(bytes, item, 0x30, [Primitive(0x06, a.oid), Primitive(a.valueTag, a.value)]);
    var oid, value := parts[0], parts[1];
    assert Locates(bytes, oid, Primitive(0x06, a.oid)) && Locates(bytes, value, Primitive(a.valueTag, a.value));
    assert forall i | 0 <= i < |a.oid| :: bytes[oid.start..oid.end][i] == bytes[oid.start + i] == a.oid[i];
    if IsCommonName(bytes, oid) {
      assert a.oid == COMMON_NAME_OID;
    }
  }

  /** The first element, if there is one. */
  function First(names: seq<Bytes>): Option<Bytes> {
    if names == [] then None else Some(names[0])
  }

  lemma {:induction false} ReadsAttributes(bytes: Bytes, items: seq<Tlv>, rdn: seq<NameAttribute>)
    requires |bytes| < 0x1_0000_0000 && |items| == |rdn|
    requires forall i | 0 <= i < |items| :: Locates(bytes, items[i], AttributeDer(rdn[i]))
    ensures FirstInAttributes(bytes, items) == Success(First(CommonNamesOfRdn(rdn)))
  {
    if items != [] {
      ReadsAttribute(bytes, items[0], rdn[0]);
      ReadsAttributes(bytes, items[1..], rdn[1..]);
    }
  }

  lemma ReadsRdn(bytes: Bytes, item: Tlv, rdn: seq<NameAttribute>)
    requires |bytes| < 0x1_0000_0000 && Locates(bytes, item, RdnDer(rdn))
    ensures InRdn(bytes, item) == Success(First(CommonNamesOfRdn(rdn)))
  {
    var items := ChildrenInvertEncoding(bytes, item, 0x31, RdnDer(rdn).parts);
    assert forall i | 0 <= i < |items| :: Locates(bytes, items[i], AttributeDer(rdn[i]));
    ReadsAttributes(bytes, items, rdn);
  }

  lemma {:induction false} ReadsRdns(bytes: Bytes, items: seq<Tlv>, name: seq<seq<NameAttribute>>)
    requires |bytes| < 0x1_0000_0000 && |items| == |name|
    requires forall i | 0 <= i < |items| :: Locates(bytes, items[i], RdnDer(name[i]))
    ensures FirstInRdns(bytes, items) == Success(First(CommonNames(name)))
  {
    if items != [] {
      ReadsRdn(bytes, items[0], name[0]);
      ReadsRdns(bytes, items[1..], name[1..]);
    }
  }

  /** The common name read is the first one written, or nothing when none was. */
  function FirstCommonName(name: seq<seq<NameAttribute>>): Bytes {
    match First(CommonNames(name))
    case None => []
    case Some(value) => value
  }

  lemma ReadsName(bytes: Bytes, item: Tlv, name: seq<seq<NameAttribute>>)
    requires |bytes| < 0x1_0000_0000 && Locates(bytes, item, NameDer(name))
    ensures CommonNameOf(bytes, item) == Success(FirstCommonName(name))
  {
    var items := ChildrenInvertEncoding(bytes, item, 0x30, NameDer(name).parts);
    assert forall i | 0 <= i < |items| :: Locates(bytes, items[i], RdnDer(name[i]));
    ReadsRdns(bytes, items, name);
  }

  lemma ReadsTimes(bytes: Bytes, validity: Tlv, c: Certificate) returns (times: seq<Tlv>)
    requires |bytes| < 0x1_0000_0000
    requires Locates(bytes, validity, Constructed(0x30, [TimeDer(c.notBefore), TimeDer(c.notAfter)]))
    ensures Children(bytes, validity) == Success(times) && |times| == 2 && AllInside(bytes, times)
    ensures TimeOf(bytes, times[0]) == ReadTime(c.notBefore.tag, c.notBefore.text)
    ensures TimeOf(bytes, times[1]) == ReadTime(c.notAfter.tag, c.notAfter.text)
  {
    times := ChildrenInvertEncoding(bytes, validity, 0x30, [TimeDer(c.notBefore), TimeDer(c.notAfter)]);
    ChildrenAreInside(bytes, validity);
    assert Locates(bytes, times[0], TimeDer(c.notBefore)) && Locates(bytes, times[1], TimeDer(c.notAfter));
  }

  /** Reading inverts writing. Whatever certificate was encoded, with or without the explicit
      version and whatever follows it, the reader returns its first common name and its two times,
      and fails only when one of those times is not one. */
  lemma ReadingInvertsEncoding(c: Certificate, trailing: Bytes)
    requires |Encode(CertificateDer(c)) + trailing| < 0x1_0000_0000
    ensures var notBefore := ReadTime(c.notBefore.tag, c.notBefore.text);
            var notAfter := ReadTime(c.notAfter.tag, c.notAfter.text);
            InfoOf(Encode(CertificateDer(c)) + trailing)
            == if notBefore.Failure? || notAfter.Failure? then Failure(InvalidDate)
               else Success(CertificateInfo(FirstCommonName(c.subject), notBefore.value, notAfter.value))
  {
    var bytes := Encode(CertificateDer(c)) + trailing;
    var tbs := ReachesTbs(0x30, 0x30, TbsParts(c), c.afterTbs, trailing);
    var fields := ChildrenInvertEncoding(bytes, tbs, 0x30, TbsParts(c));
    var first := if c.version.Some? then 1 else 0;
    assert Locates(bytes, fields[0], TbsParts(c)[0]);
    assert Locates(bytes, fields[first + 3], TbsParts(c)[first + 3]);
    assert Locates(bytes, fields[first + 4], TbsParts(c)[first + 4]);
    var times := ReadsTimes(bytes, fields[first + 3], c);
    ReadsName(bytes, fields[first + 4], c.subject);
    OnlyInvalidDates(c.notBefore);
    OnlyInvalidDates(c.notAfter);
  }

  /** What is no certificate is refused: a first part with fewer than five fields, an explicit version
      not counted, or none at all; and so is a validity period without two times. */
  lemma RefusesOtherStructures(rootTag: byte, tbsTag: byte, fields: seq<Value>, afterTbs: seq<Value>, trailing: Bytes)
    requires |Encode(Constructed(rootTag, [Constructed(tbsTag, fields)] + afterTbs)) + trailing| < 0x1_0000_0000
    ensures var r := InfoOf(Encode(Constructed(rootTag, [Constructed(tbsTag, fields)] + afterTbs)) + trailing);
            var first := if fields != [] && fields[0].tag == 0xa0 then 1 else 0;
            && (|fields| < first + 5 ==> r == Failure(NotACertificate))
            && (|fields| >= first + 5 && fields[first + 3].Constructed? && |fields[first + 3].parts| < 2 ==>
                  r == Failure(NoValidityPeriod))
    ensures |Encode(Constructed(rootTag, [])) + trailing| < 0x1_0000_0000 ==>
              InfoOf(Encode(Constructed(rootTag, [])) + trailing) == Failure(NotACertificate)
  {
    var tbs := ReachesTbs(rootTag, tbsTag, fields, afterTbs, trailing);
    RefusesTbs(Encode(Constructed(rootTag, [Constructed(tbsTag, fields)] + afterTbs)) + trailing, tbs, tbsTag, fields);
    if |Encode(Constructed(rootTag, [])) + trailing| < 0x1_0000_0000 {
      RefusesEmptyRoot(rootTag, trailing);
    }
  }

  lemma RefusesTbs(bytes: Bytes, tbs: Tlv, tbsTag: byte, fields: seq<Value>)
    requires |bytes| < 0x1_0000_0000 && Locates(bytes, tbs, Constructed(tbsTag, fields))
    ensures var first := if fields != [] && fields[0].tag == 0xa0 then 1 else 0;
            && (|fields| < first + 5 ==> InfoOfTbs(bytes, tbs) == Failure(NotACertificate))
            && (|fields| >= first + 5 && fields[first + 3].Constructed? && |fields[first + 3].parts| < 2 ==>
                  InfoOfTbs(bytes, tbs) == Failure(NoValidityPeriod))
  {
    var items := ChildrenInvertEncoding(bytes, tbs, tbsTag, fields);
    assert fields != [] ==> Locates(bytes, items[0], fields[0]);
    var first := if fields != [] && fields[0].tag == 0xa0 then 1 else 0;
    if |fields| >= first + 5 && fields[first + 3].Constructed? {
      var _ := ChildrenInvertEncoding(bytes, items[first + 3], fields[first + 3].tag, fields[first + 3].parts);
    }
  }

  lemma ReachesTbs(rootTag: byte, tbsTag: byte, fields: seq<Value>, afterTbs: seq<Value>, trailing: Bytes)
    returns (tbs: Tlv)
    requires |Encode(Constructed(rootTag, [Constructed(tbsTag, fields)] + afterTbs)) + trailing| < 0x1_0000_0000
    ensures var bytes := Encode(Constructed(rootTag, [Constructed(tbsTag, fields)] + afterTbs)) + trailing;
            Locates(bytes, tbs, Constructed(tbsTag, fields)) && InfoOf(bytes) == InfoOfTbs(bytes, tbs)
  {
    var topParts := [Constructed(tbsTag, fields)] + afterTbs;
    var root := Constructed(rootTag, topParts);
    var bytes := Encode(root) + trailing;
    assert bytes[0..0 + |Encode(root)|] == Encode(root);
    ReadsEncoded(bytes, 0, root);
    var top := ChildrenInvertEncoding(bytes, TlvAt(bytes, 0).value, rootTag, topParts);
    assert topParts[0] == Constructed(tbsTag, fields);
    tbs := top[0];
  }

  lemma RefusesEmptyRoot(rootTag: byte, trailing: Bytes)
    requires |Encode(Constructed(rootTag, [])) + trailing| < 0x1_0000_0000
    ensures InfoOf(Encode(Constructed(rootTag, [])) + trailing) == Failure(NotACertificate)
  {
    var root := Constructed(rootTag, []);
    var bytes := Encode(root) + trailing;
    assert bytes[0..0 + |Encode(root)|] == Encode(root);
    ReadsEncoded(bytes, 0, root);
    var _ := ChildrenInvertEncoding(bytes, TlvAt(bytes, 0).value, rootTag, []);
  }

  lemma OnlyInvalidDates(t: Time)
    ensures ReadTime(t.tag, t.text).Failure? ==> ReadTime(t.tag, t.text).error == InvalidDate
  {
  }

  /** A time as section 4.1.2.5 of RFC 5280 has it written. */
  function Rfc5280Time(f: Fields): Time
    requires InRange(f)
  {
    if 1950 <= f.year < 2050 then Time(0x17, UtcText(f)) else Time(0x18, GeneralizedText(f))
  }

  /** So a certificate valid between two dates of the years 100 to 9999 reads as valid between exactly them. */
  lemma ReadsValidity(c: Certificate, from: Fields, until: Fields)
    requires InRange(from) && InRange(until) && from.year >= 100 && until.year >= 100
    requires c.notBefore == Rfc5280Time(from) && c.notAfter == Rfc5280Time(until)
    requires |Encode(CertificateDer(c))| < 0x1_0000_0000
    ensures InfoOf(Encode(CertificateDer(c)))
            == Success(CertificateInfo(FirstCommonName(c.subject), Instant(from), Instant(until)))
  {
    var bytes := Encode(CertificateDer(c));
    assert bytes + [] == bytes;
    ReadingInvertsEncoding(c, []);
    ReadsRfc5280Time(from);
    ReadsRfc5280Time(until);
  }

  lemma ReadsRfc5280Time(f: Fields)
    requires InRange(f) && f.year >= 100
    ensures ReadTime(Rfc5280Time(f).tag, Rfc5280Time(f).text) == Success(Instant(f))
  {
    if 1950 <= f.year < 2050 {
      ReadsUtcTime(f);
    } else {
      ReadsGeneralizedTime(f);
    }
  }

  // ---- The soonest expiry ----

  /** The expiry of a PEM certificate, when it can be read. `decode` stands for its base64 body,
      decoded; none when that is not base64. */
  function Expiry(pem: string, decode: string -> Option<Bytes>): Option<int> {
    match decode(pem)
    case None => None
    case Some(bytes) =>
      match InfoOf(bytes)
      case Failure(_) => None
      case Success(info) => Some(info.notAfter)
  }

  /** `earliest` is the minimum of the expiries that can be read, and none when none can. */
  ghost predicate IsEarliest(earliest: Option<int>, pems: seq<string>, expiry: string -> Option<int>) {
    && (earliest.None? <==> forall j | 0 <= j < |pems| :: expiry(pems[j]) == None)
    && (earliest.Some? ==> exists j | 0 <= j < |pems| :: expiry(pems[j]) == earliest)
    && (forall j | 0 <= j < |pems| && expiry(pems[j]).Some? ::
          earliest.Some? && earliest.value <= expiry(pems[j]).value)
  }

  method Earliest(pems: seq<string>, expiry: string -> Option<int>) returns (earliest: Option<int>)
    ensures IsEarliest(earliest, pems, expiry)
  {
    earliest := None;
    ghost var at := 0;
    for i := 0 to |pems|
      invariant earliest.None? ==> forall j | 0 <= j < i :: expiry(pems[j]) == None
      invariant earliest.Some? ==> 0 <= at < i && expiry(pems[at]) == earliest
      invariant forall j | 0 <= j < i && expiry(pems[j]).Some? ::
                  earliest.Some? && earliest.value <= expiry(pems[j]).value
    {
      var notAfter := expiry(pems[i]);
      if notAfter.Some? && (earliest.None? || notAfter.value < earliest.value) {
        earliest, at := notAfter, i;
      }
    }
  }

  /** The certificate can be read, and says that it expires at `t`. */
  ghost predicate ExpiresAt(pem: string, decode: string -> Option<Bytes>, t: int) {
    && decode(pem).Some? && InfoOf(decode(pem).value).Success?
    && InfoOf(decode(pem).value).value.notAfter == t
  }

  method EarliestExpiry(pems: seq<string>, decode: string -> Option<Bytes>) returns (earliest: Option<int>)
    ensures earliest.None? <==> forall pem <- pems, t :: !ExpiresAt(pem, decode, t)
    ensures earliest.Some? ==>
              && (exists pem <- pems :: ExpiresAt(pem, decode, earliest.value))
              && forall pem <- pems, t | ExpiresAt(pem, decode, t) :: earliest.value <= t
  {
    earliest := Earliest(pems, pem => Expiry(pem, decode));
    forall pem, t ensures ExpiresAt(pem, decode, t) <==> Expiry(pem, decode) == Some(t) {
    }
    if earliest.Some? {
      ghost var j :| 0 <= j < |pems| && Expiry(pems[j], decode) == earliest;
      assert pems[j] in pems && ExpiresAt(pems[j], decode, earliest.value);
    }
    forall pem <- pems, t | ExpiresAt(pem, decode, t) ensures earliest.Some? && earliest.value <= t {
      ghost var j :| 0 <= j < |pems| && pems[j] == pem;
      assert Expiry(pems[j], decode).Some?;
    }
  }
}
