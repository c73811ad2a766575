// The reminder data model and its limits.
module Reminder {
  import opened Wrappers

  const VERSION: nat := 1
  const MAX_BODY_BYTES: nat := 64 * 1024
  const MAX_SUMMARY_BYTES: nat := 4 * 1024
  const MAX_METADATA_BYTES: nat := 16 * 1024
  const MAX_METADATA_DEPTH: nat := 16
  const MAX_METADATA_NODES: nat := 1024
  const MAX_ATTRIBUTE_BYTES: nat := 24 * 1024
  const MAX_WIRE_BYTES: nat := 96 * 1024
  const MAX_INPUT_BYTES: nat := 256 * 1024
  const MAX_REMINDERS: nat := 64

  datatype Category =
    Capability | Task | Lifecycle | Guidance | Security | ExternalEvent | Diagnostic | Legacy

  datatype Severity = Info | Warning | Error | Critical

  datatype Delivery = Required | Configurable | DiagnosticOnly

  datatype Audience = Model | Tui | Diagnostics | Automation

  // A JSON value. A number is kept as the text it prints as, an object as its fields in the order
  // the map yields them.
  datatype Json =
    | Null
    | Bool(b: bool)
    | Number(digits: string)
    | Str(s: string)
    | Arr(items: seq<Json>)
    | Obj(fields: seq<Field>)

  datatype Field = Field(key: string, value: Json)

  datatype SystemReminder = SystemReminder(
    version: nat,
    category: Category,
    source: string,
    kind: string,
    severity: Severity,
    delivery: Delivery,
    audiences: seq<Audience>,
    body: string,
    summary: Option<string>,
    metadata: Json)

  datatype ValidationError =
    | UnsupportedVersion(version: nat)
    | LegacyProducerForbidden
    | InvalidIdentifier(field: string)
    | InvalidAudiences
    | BodyTooLarge
    | SummaryTooLarge
    | MetadataTooLarge
    | MetadataTooDeep
    | MetadataTooManyNodes
    | InvalidMetadata

  predicate Lowercase(c: char) { 'a' <= c <= 'z' }

  predicate IdentifierChar(c: char) { Lowercase(c) || '0' <= c <= '9' || c == '_' }

  predicate ValidIdentifier(s: string) {
    s != "" && |s| <= 128 && (forall c | c in s :: IdentifierChar(c)) && Lowercase(s[0])
  }
}
