/** The parts of a verified SAML assertion that the server reads after `samael` has parsed it. */
module SamlAssertion {
  import opened Wrappers

  datatype NameId = NameId(value: string, format: Option<string>)

  datatype Attribute = Attribute(name: Option<string>, values: seq<Option<string>>)

  datatype Conditions = Conditions(audienceRestrictions: Option<seq<seq<string>>>)

  /** `issueInstant` is in nanoseconds since the Unix epoch. `inResponseTo` is the request id that
      the signed response binds the assertion to. */
  datatype Assertion = Assertion(
    id: string,
    issueInstant: int,
    inResponseTo: string,
    conditions: Option<Conditions>,
    authnStatements: Option<seq<string>>,
    nameId: Option<NameId>,
    attributeStatements: seq<seq<Attribute>>)
}
