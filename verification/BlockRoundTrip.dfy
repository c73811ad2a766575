// Parsing undoes printing, for one block.
module BlockRoundTrip {
  import opened Wrappers
  import opened Text
  import opened XmlEscape
  import opened Reminder
  import opened Metadata
  import opened ReminderCodec

  // ---- validation against its declarative meaning ----

  ghost predicate WellFormed(r: SystemReminder) {
    && r.version == 1
    && Identifier(r.source)
    && Identifier(r.kind)
    && r.audiences != []
    && (forall i, j | 0 <= i < j < |r.audiences| :: r.audiences[i] != r.audiences[j])
    && |r.body| <= 64 * 1024
    && (r.summary.Some? ==> |r.summary.value| <= 4 * 1024)
    && r.metadata.Obj?
    && Nodes(r.metadata) <= 1024
    && Depth(r.metadata) <= 16
    && Bytes(r.metadata) <= 16 * 1024
  }

  // At most 128 lower-case letters, digits and underscores, a letter first.
  predicate Identifier(s: string) {
    && 0 < |s| <= 128 && 'a' <= s[0] <= 'z'
    && forall i | 0 <= i < |s| :: 'a' <= s[i] <= 'z' || '0' <= s[i] <= '9' || s[i] == '_'
  }

  lemma IdentifierExactly(s: string)
    ensures ValidIdentifier(s) <==> Identifier(s)
  {
    assert forall i | 0 <= i < |s| :: s[i] in s;
  }

  lemma ValidateAcceptance(r: SystemReminder)
    ensures Validate(r).Pass? <==> WellFormed(r)
  {
    MetadataAcceptance(r.metadata);
    IdentifierExactly(r.source);
    IdentifierExactly(r.kind);
    var a := r.audiences;
    assert (exists i | 0 <= i < |a| :: a[i] in a[..i]) <==> exists i, j | 0 <= i < j < |a| :: a[i] == a[j] by {
      forall i, j | 0 <= i < j < |a| && a[i] == a[j] ensures a[j] in a[..j] {
        assert a[..j][i] == a[j];
      }
    }
  }

  // ---- decimals and names ----

  lemma {:induction false} DecimalParses(n: nat)
    ensures Decimal(n) != "" && Digits(Decimal(n)) && DigitsValue(Decimal(n)) == n
    ensures n <= 0xFFFF ==> ParseU16(Decimal(n)) == Some(n)
  {
    var s := Decimal(n);
    if n >= 10 {
      DecimalParses(n / 10);
      assert s[..|s| - 1] == Decimal(n / 10);
    } else {
      assert s[..|s| - 1] == "";
    }
    assert '0' <= s[0];
  }

  lemma CategoryParses(c: Category)
    ensures ParseCategory(CategoryName(c)) == Some(c)
  {
    var s := CategoryName(c);
    match c
    case Capability =>
    case Task => assert |s| == 4;
    case Lifecycle => assert |s| == 9;
    case Guidance => assert |s| == 8;
    case Security => assert |s| == 8 && s[0] == 's';
    case ExternalEvent => assert |s| == 14;
    case Diagnostic => assert |s| == 10 && s[0] == 'd';
    case Legacy => assert |s| == 6;
  }

  lemma SeverityParses(v: Severity)
    ensures ParseSeverity(SeverityName(v)) == Some(v)
  {
    var s := SeverityName(v);
    match v
    case Info =>
    case Warning => assert |s| == 7;
    case Error => assert |s| == 5;
    case Critical => assert |s| == 8;
  }

  lemma DeliveryParses(d: Delivery)
    ensures ParseDelivery(DeliveryName(d)) == Some(d)
  {
    var s := DeliveryName(d);
    match d
    case Required =>
    case Configurable => assert |s| == 12;
    case DiagnosticOnly => assert |s| == 15;
  }

  lemma DecimalPlain(n: nat)
    ensures Plain(Decimal(n))
  {
    DecimalParses(n);
  }

  predicate Plain(s: string) { forall c | c in s :: IdentifierChar(c) }

  lemma {:induction false} EscapePlain(s: string)
    requires Plain(s)
    ensures EscapeXml(s) == s
  {
    EscapeIsSubstitution(s);
    if s != "" {
      EscapePlain(s[1..]);
      EscapeIsSubstitution(s[1..]);
      assert s[0] in s;
    }
  }

  lemma CategoryPlain(c: Category)
    ensures Plain(CategoryName(c))
  {
    match c
    case Capability =>
    case Task =>
    case Lifecycle =>
    case Guidance =>
    case Security =>
    case ExternalEvent =>
    case Diagnostic =>
    case Legacy =>
  }

  lemma SeverityPlain(v: Severity)
    ensures Plain(SeverityName(v))
  {
    match v
    case Info =>
    case Warning =>
    case Error =>
    case Critical =>
  }

  lemma DeliveryPlain(d: Delivery)
    ensures Plain(DeliveryName(d))
  {
    match d
    case Required =>
    case Configurable =>
    case DiagnosticOnly =>
  }

  // ---- attribute lists ----

  // An attribute list in print: names as they are, values escaped.
  function Printed(list: seq<Attribute>): string {
    if list == [] then "" else PrintAttribute(list[0].0, EscapeXml(list[0].1)) + Printed(list[1..])
  }

  ghost predicate Printable(list: seq<Attribute>, seen: seq<Attribute>) {
    && (forall i | 0 <= i < |list| :: ValidIdentifier(list[i].0) && !HasName(seen, list[i].0))
    && (forall i, j | 0 <= i < j < |list| :: list[i].0 != list[j].0)
  }

  // A printed list behind its leading space.
  function Unspaced(list: seq<Attribute>): string {
    if list == [] then "" else Printed(list)[1..]
  }

  lemma PrintedTrims(list: seq<Attribute>)
    requires list != [] ==> ValidIdentifier(list[0].0)
    ensures TrimStart(Printed(list)) == Unspaced(list)
    ensures list != [] ==> Unspaced(list) != ""
  {
    if list != [] {
      var s := Printed(list);
      assert s[0] == ' ' && s[1] == list[0].0[0];
      assert LeadingSpace(s[1..]) == 0;
    }
  }

  lemma AttributeText(a: Attribute, tail: seq<Attribute>)
    ensures Unspaced([a] + tail) == a.0 + ['='] + (['"'] + (EscapeXml(a.1) + ['"'] + Printed(tail)))
  {
    hide EscapeXml;
    var list := [a] + tail;
    assert list[0] == a && list[1..] == tail;
    AttributeRegroup(a.0, EscapeXml(a.1), Printed(tail));
    hide Printed;
    assert Printed(list) == PrintAttribute(a.0, EscapeXml(a.1)) + Printed(tail);
  }

  lemma AttributeRegroup(name: string, escaped: string, more: string)
    ensures PrintAttribute(name, escaped) != ""
    ensures (PrintAttribute(name, escaped) + more)[1..] == name + ['='] + (['"'] + (escaped + ['"'] + more))
  {
    var printed := PrintAttribute(name, escaped);
    assert printed[1..] == name + ['=', '"'] + escaped + ['"'];
    assert (printed + more)[1..] == printed[1..] + more;
    assert ['=', '"'] == ['='] + ['"'];
  }

  lemma AttributeSlices(name: string, escaped: string, more: string)
    ensures var quoted := escaped + ['"'] + more;
            var rest := name + ['='] + (['"'] + quoted);
            && rest[..|name|] == name && rest[|name| + 1..] == ['"'] + quoted
            && (['"'] + quoted)[1..] == quoted
            && quoted[..|escaped|] == escaped && quoted[|escaped| + 1..] == more
  {}

  lemma IdentifierHasNoEquals(name: string)
    requires ValidIdentifier(name)
    ensures '=' !in name
  {
    assert forall c | c in name :: IdentifierChar(c);
  }

  lemma AttributeParses(name: string, value: string, more: string, seen: seq<Attribute>)
    requires ValidIdentifier(name) && !HasName(seen, name)
    ensures ParseAttribute(name + ['='] + (['"'] + (EscapeXml(value) + ['"'] + more)), seen)
         == Some(((name, value), TrimStart(more)))
  {
    hide FindChar, EscapeXml, UnescapeXml, TrimStart, ValidIdentifier, HasName;
    var escaped := EscapeXml(value);
    var quoted := escaped + ['"'] + more;
    IdentifierHasNoEquals(name);
    FindCharAfter(name, '=', ['"'] + quoted);
    assert '"' !in escaped by { EscapeClean(value); assert Reserved('"'); }
    FindCharAfter(escaped, '"', more);
    AttributeSlices(name, escaped, more);
    UnescapeEscape(value);
  }

  lemma PrintableTail(list: seq<Attribute>, seen: seq<Attribute>)
    requires list != [] && Printable(list, seen)
    ensures Printable(list[1..], seen + [list[0]])
  {
    var tail := list[1..];
    forall i | 0 <= i < |tail| ensures ValidIdentifier(tail[i].0) && !HasName(seen + [list[0]], tail[i].0) {
      assert tail[i] == list[i + 1] && !HasName(seen, list[i + 1].0);
    }
  }

  lemma FirstAttributeParses(list: seq<Attribute>, seen: seq<Attribute>)
    requires list != [] && Printable(list, seen)
    ensures Unspaced(list) != ""
    ensures ParseAttribute(Unspaced(list), seen) == Some((list[0], Unspaced(list[1..])))
  {
    hide ParseAttribute, Printed, EscapeXml, TrimStart, ValidIdentifier, HasName;
    var a, tail := list[0], list[1..];
    PrintedTrims(list);
    if tail != [] { assert tail[0] == list[1]; }
    PrintedTrims(tail);
    AttributeText(a, tail);
    assert [a] + tail == list;
    AttributeParses(a.0, a.1, Printed(tail), seen);
    assert (a.0, a.1) == a;
  }

  lemma NothingParses(seen: seq<Attribute>)
    ensures ParseAttributes(Unspaced([]), seen) == Some(seen)
  {}

  lemma ParseOne(rest: string, seen: seq<Attribute>, a: Attribute, left: string)
    requires rest != "" && ParseAttribute(rest, seen) == Some((a, left))
    ensures ParseAttributes(rest, seen) == ParseAttributes(left, seen + [a])
  {
    hide ParseAttribute;
  }

  // Every printable list of attributes reads back as itself.
  lemma {:induction false} PrintedParses(list: seq<Attribute>, seen: seq<Attribute>)
    requires Printable(list, seen)
    ensures ParseAttributes(Unspaced(list), seen) == Some(seen + list)
    decreases |list|
  {
    hide Printable, ParseAttribute, ParseAttributes, Unspaced, Printed;
    if list == [] {
      NothingParses(seen);
      assert seen + list == seen;
    } else {
      FirstAttributeParses(list, seen);
      ParseOne(Unspaced(list), seen, list[0], Unspaced(list[1..]));
      PrintableTail(list, seen);
      PrintedParses(list[1..], seen + [list[0]]);
      assert seen + [list[0]] + list[1..] == seen + list;
    }
  }

  // ---- the nine attributes of a reminder ----

  function Fields(codec: JsonCodec, r: SystemReminder): seq<Attribute> {
    [ ("version", Decimal(r.version)),
      ("category", CategoryName(r.category)),
      ("source", r.source),
      ("kind", r.kind),
      ("severity", SeverityName(r.severity)),
      ("delivery", DeliveryName(r.delivery)),
      ("audiences", codec.printAudiences(r.audiences)),
      ("summary", codec.printSummary(r.summary)),
      ("metadata", codec.printMetadata(r.metadata)) ]
  }

  lemma FieldNamesValid(codec: JsonCodec, r: SystemReminder)
    ensures forall i | 0 <= i < 9 :: ValidIdentifier(Fields(codec, r)[i].0)
  {
    hide Decimal, CategoryName, SeverityName, DeliveryName;
    assert ValidIdentifier("version");
    assert ValidIdentifier("category");
    assert ValidIdentifier("source");
    assert ValidIdentifier("kind");
    assert ValidIdentifier("severity");
    assert ValidIdentifier("delivery");
    assert ValidIdentifier("audiences");
    assert ValidIdentifier("summary");
    assert ValidIdentifier("metadata");
  }

  // The nine names differ in length or in their first character.
  lemma FieldNamesDistinct(codec: JsonCodec, r: SystemReminder)
    ensures var f := Fields(codec, r);
            forall i, j | 0 <= i < j < 9 :: f[i].0 != f[j].0
  {
    hide Decimal, CategoryName, SeverityName, DeliveryName;
    var f := Fields(codec, r);
    forall i, j | 0 <= i < j < 9 ensures f[i].0 != f[j].0 {
      assert |f[i].0| != |f[j].0| || f[i].0[0] != f[j].0[0];
    }
  }

  lemma FieldsPrintable(codec: JsonCodec, r: SystemReminder)
    ensures Printable(Fields(codec, r), [])
  {
    hide ValidIdentifier;
    FieldNamesValid(codec, r);
    FieldNamesDistinct(codec, r);
  }

  lemma {:induction false} PrintedParts(list: seq<Attribute>, parts: seq<string>)
    requires |parts| == |list|
    requires forall i | 0 <= i < |list| :: parts[i] == PrintAttribute(list[i].0, EscapeXml(list[i].1))
    ensures Printed(list) == Concat(parts)
  {
    if list != [] { PrintedParts(list[1..], parts[1..]); }
  }

  lemma AttributesArePrinted(codec: JsonCodec, r: SystemReminder)
    ensures Attributes(codec, r) == Printed(Fields(codec, r))
  {
    hide EscapeXml, PrintAttribute, Printed, Concat, Decimal, CategoryName, SeverityName, DeliveryName, Plain;
    DecimalPlain(r.version);
    CategoryPlain(r.category);
    SeverityPlain(r.severity);
    DeliveryPlain(r.delivery);
    EscapePlain(Decimal(r.version));
    EscapePlain(CategoryName(r.category));
    EscapePlain(SeverityName(r.severity));
    EscapePlain(DeliveryName(r.delivery));
    PrintedParts(Fields(codec, r), [
      PrintAttribute("version", Decimal(r.version)),
      PrintAttribute("category", CategoryName(r.category)),
      PrintAttribute("source", EscapeXml(r.source)),
      PrintAttribute("kind", EscapeXml(r.kind)),
      PrintAttribute("severity", SeverityName(r.severity)),
      PrintAttribute("delivery", DeliveryName(r.delivery)),
      PrintAttribute("audiences", EscapeXml(codec.printAudiences(r.audiences))),
      PrintAttribute("summary", EscapeXml(codec.printSummary(r.summary))),
      PrintAttribute("metadata", EscapeXml(codec.printMetadata(r.metadata)))]);
  }

  lemma LookupAt(list: seq<Attribute>, i: nat)
    requires i < |list|
    requires forall j, k | 0 <= j < k < |list| :: list[j].0 != list[k].0
    ensures Lookup(list, list[i].0) == Some(list[i].1)
  {
    if i > 0 {
      assert list[0].0 != list[i].0;
      LookupAt(list[1..], i - 1);
    }
  }

  lemma PrintedTrimsBoth(list: seq<Attribute>)
    requires list != [] && ValidIdentifier(list[0].0)
    ensures Trim(Printed(list)) == Unspaced(list) != ""
    ensures Printed(list) != "" && LeadingSpace(Printed(list)) == 1
  {
    hide EscapeXml;
    PrintedTrims(list);
    PrintedEnds(list);
    assert Printed(list)[0] == ' ';
    var u := Unspaced(list);
    assert u[|u| - 1] == '"';
    assert TrailingSpace(u) == 0;
  }

  // The header of an encoded reminder, with the spaces around it removed.
  lemma HeaderTrims(codec: JsonCodec, r: SystemReminder)
    ensures Trim(Attributes(codec, r)) == Unspaced(Fields(codec, r)) != ""
    ensures Attributes(codec, r) != "" && LeadingSpace(Attributes(codec, r)) == 1
  {
    hide Attributes, Printed, Unspaced, ValidIdentifier, Trim, LeadingSpace;
    AttributesArePrinted(codec, r);
    FieldsPrintable(codec, r);
    PrintedTrimsBoth(Fields(codec, r));
  }

  lemma {:induction false} PrintedEnds(list: seq<Attribute>)
    requires list != []
    ensures |Printed(list)| >= 2 && Printed(list)[|Printed(list)| - 1] == '"'
  {
    var rest := list[1..];
    if rest != [] { PrintedEnds(rest); }
  }

  lemma FieldsParse(codec: JsonCodec, r: SystemReminder)
    requires codec.Inverts(r)
    ensures ParseFields(codec, r.version, Fields(codec, r), EscapeXml(r.body)) == Some(r)
  {
    var f := Fields(codec, r);
    FieldsPrintable(codec, r);
    LookupAt(f, 1); LookupAt(f, 2); LookupAt(f, 3); LookupAt(f, 4);
    LookupAt(f, 5); LookupAt(f, 6); LookupAt(f, 7); LookupAt(f, 8);
    CategoryParses(r.category);
    SeverityParses(r.severity);
    DeliveryParses(r.delivery);
    UnescapeEscape(r.body);
  }

  lemma ValidVersion(r: SystemReminder)
    requires Validate(r).Pass?
    ensures r.version == VERSION
  {}

  // A printed block reads back as the reminder it was printed from.
  lemma CanonicalBlockParses(codec: JsonCodec, r: SystemReminder, raw: string)
    requires Validate(r).Pass? && codec.Inverts(r)
    ensures ParseBlock(codec, Attributes(codec, r), EscapeXml(r.body), raw)
         == Some(ParsedReminder(Some(r), raw, UntrustedCanonicalText))
  {
    hide Validate, ParseAttributes, ParseFields, ParseU16, Decimal, Attributes, Printed, Unspaced, Trim, EscapeXml,
         ValidIdentifier;
    var f := Fields(codec, r);
    ValidVersion(r);
    HeaderTrims(codec, r);
    FieldsPrintable(codec, r);
    PrintedParses(f, []);
    assert [] + f == f;
    LookupAt(f, 0);
    DecimalParses(r.version);
    FieldsParse(codec, r);
  }

  lemma LegacyBlockParses(codec: JsonCodec, body: string, raw: string)
    requires |body| <= MAX_BODY_BYTES
    ensures ParseBlock(codec, "", EscapeXml(body), raw)
         == Some(ParsedReminder(Some(LegacyReminder(body)), raw, LegacyText))
  {
    UnescapeEscape(body);
  }

  // No attribute text closes the opening tag early.
  lemma AttributesClean(codec: JsonCodec, r: SystemReminder)
    ensures '>' !in Attributes(codec, r)
  {
    AttributesArePrinted(codec, r);
    FieldsPrintable(codec, r);
    PrintedClean(Fields(codec, r));
  }

  lemma {:induction false} PrintedClean(list: seq<Attribute>)
    requires forall i | 0 <= i < |list| :: ValidIdentifier(list[i].0)
    ensures '>' !in Printed(list)
  {
    if list != [] {
      assert ValidIdentifier(list[0].0);
      assert '>' !in list[0].0 by { assert forall c | c in list[0].0 :: IdentifierChar(c); }
      EscapeClean(list[0].1);
      assert Reserved('>');
      PrintedClean(list[1..]);
    }
  }

  // ---- nothing unknown gets through ----

  function AttributeNames(list: seq<Attribute>): set<string> { set i | 0 <= i < |list| :: list[i].0 }

  predicate Distinct(list: seq<Attribute>) { forall i, j | 0 <= i < j < |list| :: list[i].0 != list[j].0 }

  lemma {:induction false} ParsedDistinct(rest: string, seen: seq<Attribute>)
    requires Distinct(seen)
    ensures ParseAttributes(rest, seen).Some? ==> Distinct(ParseAttributes(rest, seen).value)
    decreases |rest|
  {
    hide ParseAttribute;
    if rest != "" && ParseAttribute(rest, seen).Some? {
      var (a, left) := ParseAttribute(rest, seen).value;
      NewName(rest, seen);
      assert Distinct(seen + [a]);
      ParsedDistinct(left, seen + [a]);
    }
  }

  lemma NewName(rest: string, seen: seq<Attribute>)
    ensures ParseAttribute(rest, seen).Some? ==> !HasName(seen, ParseAttribute(rest, seen).value.0.0)
  {
    hide HasName, UnescapeXml, FindChar, TrimStart, ValidIdentifier;
  }

  lemma {:induction false} LookupNames(list: seq<Attribute>, name: string)
    ensures Lookup(list, name).Some? ==> name in AttributeNames(list)
  {
    if list != [] {
      LookupNames(list[1..], name);
      assert list[0].0 in AttributeNames(list);
      forall n | n in AttributeNames(list[1..]) ensures n in AttributeNames(list) {
        var i :| 0 <= i < |list[1..]| && list[1..][i].0 == n;
        assert list[i + 1].0 == n;
      }
    }
  }

  lemma {:induction false} NamesCount(list: seq<Attribute>)
    requires Distinct(list)
    ensures |AttributeNames(list)| == |list|
  {
    if list != [] {
      var front, last := list[..|list| - 1], list[|list| - 1].0;
      NamesCount(front);
      assert AttributeNames(list) == AttributeNames(front) + {last};
      assert last !in AttributeNames(front);
    }
  }

  function KnownNames(): set<string> {
    {"version", "category", "source", "kind", "severity", "delivery", "audiences", "summary", "metadata"}
  }

  lemma CountTwo()
    ensures |{"version", "summary"}| == 2 && forall n | n in {"version", "summary"} :: |n| == 7
  {
    assert "version"[0] != "summary"[0];
    assert "version" != "summary";
  }

  lemma CountFour()
    ensures var b := {"category", "severity", "delivery", "metadata"}; |b| == 4 && forall n | n in b :: |n| == 8
  {
    assert "category"[0] != "severity"[0] && "category"[0] != "delivery"[0] && "category"[0] != "metadata"[0];
    assert "severity"[0] != "delivery"[0] && "severity"[0] != "metadata"[0] && "delivery"[0] != "metadata"[0];
  }

  lemma CountThree()
    ensures var c := {"source", "kind", "audiences"}; |c| == 3 && forall n | n in c :: |n| != 7 && |n| != 8
  {
    assert |"source"| == 6 && |"kind"| == 4 && |"audiences"| == 9;
  }

  lemma CountApart(a: set<string>, b: set<string>, c: set<string>)
    requires forall n | n in a :: |n| == 7
    requires forall n | n in b :: |n| == 8
    requires forall n | n in c :: |n| != 7 && |n| != 8
    ensures |a + b + c| == |a| + |b| + |c|
  {
    assert a !! b && a + b !! c;
    assert |a + b| == |a| + |b|;
  }

  lemma KnownNamesCount()
    ensures |KnownNames()| == 9
  {
    CountTwo();
    CountFour();
    CountThree();
    var a := {"version", "summary"};
    var b := {"category", "severity", "delivery", "metadata"};
    var c := {"source", "kind", "audiences"};
    CountApart(a, b, c);
    assert KnownNames() == a + b + c;
  }

  // A block is only taken for a canonical reminder when its attributes are exactly the nine known
  // ones, each once: an unknown, missing or repeated attribute turns the block back into text.
  lemma CanonicalHasTheNine(codec: JsonCodec, header: string, body: string, raw: string)
    requires var p := ParseBlock(codec, header, body, raw);
             p.Some? && p.value.provenance == UntrustedCanonicalText
    ensures var list := ParseAttributes(Trim(header), []);
            list.Some? && Distinct(list.value) && AttributeNames(list.value) == KnownNames()
  {
    hide Trim, UnescapeXml, Validate, ParseCategory, ParseSeverity, ParseDelivery, ParseU16, ParseAttributes, Lookup,
         KnownNames, AttributeNames, Distinct;
    assert ParseAttributes(Trim(header), []).Some?;
    var list := ParseAttributes(Trim(header), []).value;
    NoneDistinct();
    ParsedDistinct(Trim(header), []);
    NamesCount(list);
    KnownNamesCount();
    LookupNames(list, "version"); LookupNames(list, "category"); LookupNames(list, "source");
    LookupNames(list, "kind"); LookupNames(list, "severity"); LookupNames(list, "delivery");
    LookupNames(list, "audiences"); LookupNames(list, "summary"); LookupNames(list, "metadata");
    AllKnown(AttributeNames(list));
    SameSize(KnownNames(), AttributeNames(list));
  }

  lemma NoneDistinct()
    ensures Distinct([])
  {}

  lemma AllKnown(names: set<string>)
    requires "version" in names && "category" in names && "source" in names && "kind" in names
    requires "severity" in names && "delivery" in names && "audiences" in names && "summary" in names
    requires "metadata" in names
    ensures KnownNames() <= names
  {}

  lemma SameSize(a: set<string>, b: set<string>)
    requires a <= b && |a| == |b|
    ensures a == b
  {
    assert b == a + (b - a);
    assert |b| == |a| + |b - a|;
  }
}
