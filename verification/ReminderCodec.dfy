// Validation, the wire encoder, and the parser of one block.
module ReminderCodec {
  import opened Wrappers
  import opened Text
  import opened XmlEscape
  import opened Reminder
  import opened Metadata

  const OPEN: string := "<system-reminder"
  const CLOSE: string := "</system-reminder>"

  // The JSON library, as printing and parsing functions for the three JSON-valued attributes.
  datatype JsonCodec = JsonCodec(
    printAudiences: seq<Audience> -> string,
    parseAudiences: string -> Option<seq<Audience>>,
    printSummary: Option<string> -> string,
    parseSummary: string -> Option<Option<string>>,
    printMetadata: Json -> string,
    parseMetadata: string -> Option<Json>)
  {
    // The library reads back what it printed for this reminder.
    predicate Inverts(r: SystemReminder) {
      && parseAudiences(printAudiences(r.audiences)) == Some(r.audiences)
      && parseSummary(printSummary(r.summary)) == Some(r.summary)
      && parseMetadata(printMetadata(r.metadata)) == Some(r.metadata)
    }
  }

  datatype CodecError = Validation(error: ValidationError) | AttributesTooLarge | WireTooLarge

  datatype Provenance = LegacyText | UntrustedCanonicalText | OpaqueFutureVersion

  datatype ParsedReminder = ParsedReminder(
    reminder: Option<SystemReminder>,
    raw: string,
    provenance: Provenance)

  // ---- validation ----

  function Validate(r: SystemReminder): Outcome<ValidationError> {
    if r.version != VERSION then Fail(UnsupportedVersion(r.version))
    else if !ValidIdentifier(r.source) then Fail(InvalidIdentifier("source"))
    else if !ValidIdentifier(r.kind) then Fail(InvalidIdentifier("kind"))
    else if r.audiences == [] || (exists i | 0 <= i < |r.audiences| :: r.audiences[i] in r.audiences[..i])
    then Fail(InvalidAudiences)
    else if |r.body| > MAX_BODY_BYTES then Fail(BodyTooLarge)
    else if r.summary.Some? && |r.summary.value| > MAX_SUMMARY_BYTES then Fail(SummaryTooLarge)
    else ValidateMetadata(r.metadata)
  }

  // ---- names of the closed enumerations ----

  function CategoryName(c: Category): string {
    match c
    case Capability => "capability"
    case Task => "task"
    case Lifecycle => "lifecycle"
    case Guidance => "guidance"
    case Security => "security"
    case ExternalEvent => "external_event"
    case Diagnostic => "diagnostic"
    case Legacy => "legacy"
  }

  function ParseCategory(s: string): Option<Category> {
    if s == "capability" then Some(Capability)
    else if s == "task" then Some(Task)
    else if s == "lifecycle" then Some(Lifecycle)
    else if s == "guidance" then Some(Guidance)
    else if s == "security" then Some(Security)
    else if s == "external_event" then Some(ExternalEvent)
    else if s == "diagnostic" then Some(Diagnostic)
    else if s == "legacy" then Some(Legacy)
    else None
  }

  function SeverityName(s: Severity): string {
    match s
    case Info => "info"
    case Warning => "warning"
    case Error => "error"
    case Critical => "critical"
  }

  function ParseSeverity(s: string): Option<Severity> {
    if s == "info" then Some(Info)
    else if s == "warning" then Some(Warning)
    else if s == "error" then Some(Error)
    else if s == "critical" then Some(Critical)
    else None
  }

  function DeliveryName(d: Delivery): string {
    match d
    case Required => "required"
    case Configurable => "configurable"
    case DiagnosticOnly => "diagnostic_only"
  }

  function ParseDelivery(s: string): Option<Delivery> {
    if s == "required" then Some(Required)
    else if s == "configurable" then Some(Configurable)
    else if s == "diagnostic_only" then Some(DiagnosticOnly)
    else None
  }

  // ---- decimal numbers ----

  function Decimal(n: nat): string {
    (if n < 10 then "" else Decimal(n / 10)) + [(n % 10 + '0' as nat) as char]
  }

  predicate Digits(s: string) { forall i | 0 <= i < |s| :: '0' <= s[i] <= '9' }

  function DigitsValue(s: string): nat
    requires Digits(s)
  {
    if s == "" then 0
    else DigitsValue(s[..|s| - 1]) * 10 + (s[|s| - 1] as nat - '0' as nat)
  }

  // str::parse::<u16>: an optional plus sign, at least one digit, a value that fits.
  function ParseU16(s: string): Option<nat> {
    var digits := if s != "" && s[0] == '+' then s[1..] else s;
    if digits == "" || !Digits(digits) || DigitsValue(digits) > 0xFFFF then None
    else Some(DigitsValue(digits))
  }

  // ---- encoding ----

  type Attribute = (string, string)

  // One attribute as it is printed, its value already escaped.
  function PrintAttribute(name: string, escaped: string): string {
    [' '] + name + ['=', '"'] + escaped + ['"']
  }

  function Attributes(codec: JsonCodec, r: SystemReminder): string {
    Concat([
      PrintAttribute("version", Decimal(r.version)),
      PrintAttribute("category", CategoryName(r.category)),
      PrintAttribute("source", EscapeXml(r.source)),
      PrintAttribute("kind", EscapeXml(r.kind)),
      PrintAttribute("severity", SeverityName(r.severity)),
      PrintAttribute("delivery", DeliveryName(r.delivery)),
      PrintAttribute("audiences", EscapeXml(codec.printAudiences(r.audiences))),
      PrintAttribute("summary", EscapeXml(codec.printSummary(r.summary))),
      PrintAttribute("metadata", EscapeXml(codec.printMetadata(r.metadata)))])
  }

  function Encode(codec: JsonCodec, r: SystemReminder): Result<string, CodecError> {
    var valid := Validate(r);
    if valid.Fail? then Err(Validation(valid.error))
    else
      var attributes := Attributes(codec, r);
      if |attributes| > MAX_ATTRIBUTE_BYTES then Err(AttributesTooLarge)
      else
        var encoded := OPEN + attributes + ">" + EscapeXml(r.body) + CLOSE;
        if |encoded| > MAX_WIRE_BYTES then Err(WireTooLarge) else Ok(encoded)
  }

  function EncodeLegacy(body: string): Result<string, CodecError> {
    if |body| > MAX_BODY_BYTES then Err(Validation(BodyTooLarge))
    else
      var encoded := OPEN + ">" + EscapeXml(body) + CLOSE;
      if |encoded| > MAX_WIRE_BYTES then Err(WireTooLarge) else Ok(encoded)
  }

  // ---- parsing one block ----

  predicate HasName(attributes: seq<Attribute>, name: string) {
    exists i | 0 <= i < |attributes| :: attributes[i].0 == name
  }

  // The value of the first attribute with this name.
  function Lookup(attributes: seq<Attribute>, name: string): Option<string> {
    if attributes == [] then None
    else if attributes[0].0 == name then Some(attributes[0].1)
    else Lookup(attributes[1..], name)
  }

  // Reads one attribute from the front of rest; the second result is what is left after it.
  function ParseAttribute(rest: string, seen: seq<Attribute>): (r: Option<(Attribute, string)>)
    ensures r.Some? ==> |r.value.1| < |rest|
  {
    var nameEnd :- FindChar(rest, '=');
    var name := rest[..nameEnd];
    if !ValidIdentifier(name) || HasName(seen, name) then None
    else
      var afterName := rest[nameEnd + 1..];
      if afterName == "" || afterName[0] != '"' then None
      else
        var quoted := afterName[1..];
        var valueEnd :- FindChar(quoted, '"');
        var value :- UnescapeXml(quoted[..valueEnd]);
        Some(((name, value), TrimStart(quoted[valueEnd + 1..])))
  }

  function ParseAttributes(rest: string, seen: seq<Attribute>): Option<seq<Attribute>>
    decreases |rest|
  {
    if rest == "" then Some(seen)
    else
      var (a, left) :- ParseAttribute(rest, seen);
      ParseAttributes(left, seen + [a])
  }

  method ParseAttributesLoop(input: string) returns (r: Option<seq<Attribute>>)
    ensures r == ParseAttributes(input, [])
  {
    var rest, attributes := input, [];
    while rest != ""
      invariant ParseAttributes(input, []) == ParseAttributes(rest, attributes)
      decreases |rest|
    {
      var nameEnd := FindChar(rest, '=');
      if nameEnd.None? { return None; }
      var name := rest[..nameEnd.value];
      if !ValidIdentifier(name) || HasName(attributes, name) { return None; }
      var quoted := rest[nameEnd.value + 1..];
      if quoted == "" || quoted[0] != '"' { return None; }
      quoted := quoted[1..];
      var valueEnd := FindChar(quoted, '"');
      if valueEnd.None? { return None; }
      var value := UnescapeXmlLoop(quoted[..valueEnd.value]);
      if value.None? { return None; }
      attributes := attributes + [(name, value.value)];
      rest := TrimStart(quoted[valueEnd.value + 1..]);
    }
    return Some(attributes);
  }

  function LegacyReminder(body: string): SystemReminder {
    SystemReminder(VERSION, Legacy, "legacy", "legacy_text", Info, Configurable, [Model, Tui], body,
                   None, Obj([]))
  }

  function ParseBlock(codec: JsonCodec, header: string, body: string, raw: string): Option<ParsedReminder> {
    var trimmed := Trim(header);
    if trimmed == "" then
      var text :- UnescapeXml(body);
      if |text| > MAX_BODY_BYTES then None
      else Some(ParsedReminder(Some(LegacyReminder(text)), raw, LegacyText))
    else
      var attributes :- ParseAttributes(trimmed, []);
      var versionText :- Lookup(attributes, "version");
      var version :- ParseU16(versionText);
      if version != VERSION then Some(ParsedReminder(None, raw, OpaqueFutureVersion))
      else if |attributes| != 9 then None
      else
        var reminder :- ParseFields(codec, version, attributes, body);
        if Validate(reminder).Fail? then None
        else Some(ParsedReminder(Some(reminder), raw, UntrustedCanonicalText))
  }

  function ParseFields(codec: JsonCodec, version: nat, attributes: seq<Attribute>, body: string)
    : Option<SystemReminder>
  {
    var categoryText :- Lookup(attributes, "category");
    var category :- ParseCategory(categoryText);
    var source :- Lookup(attributes, "source");
    var kind :- Lookup(attributes, "kind");
    var severityText :- Lookup(attributes, "severity");
    var severity :- ParseSeverity(severityText);
    var deliveryText :- Lookup(attributes, "delivery");
    var delivery :- ParseDelivery(deliveryText);
    var audiencesText :- Lookup(attributes, "audiences");
    var audiences :- codec.parseAudiences(audiencesText);
    var text :- UnescapeXml(body);
    var summaryText :- Lookup(attributes, "summary");
    var summary :- codec.parseSummary(summaryText);
    var metadataText :- Lookup(attributes, "metadata");
    var metadata :- codec.parseMetadata(metadataText);
    Some(SystemReminder(version, category, source, kind, severity, delivery, audiences, text, summary, metadata))
  }
}
