// What one block means and when there is one: the layout of an opening tag, the exact condition for each
// kind of reminder, and the exact outcome of encoding.
module BlockMeaning {
  import opened Wrappers
  import opened Text
  import opened XmlEscape
  import opened Reminder
  import opened Metadata
  import opened ReminderCodec
  import opened BlockRoundTrip

  // ---- white space ----

  // Nothing but white space characters.
  predicate White(s: string)
    decreases |s|
  {
    s == "" || (LeadingSpace(s) > 0 && White(s[LeadingSpace(s)..]))
  }

  lemma Regrouped(a: string, b: string, c: string)
    ensures (a + b) + c == a + (b + c)
  {}

  lemma {:induction false} TrimStartSplits(s: string) returns (white: string)
    ensures White(white) && s == white + TrimStart(s) && LeadingSpace(TrimStart(s)) == 0
    decreases |s|
  {
    hide LeadingSpace;
    var n := LeadingSpace(s);
    if n == 0 {
      white := "";
      assert s == "" + s;
    } else {
      var rest := TrimStartSplits(s[n..]);
      white := s[..n] + rest;
      SpaceInFront(s, n, rest);
      hide White;
      Regrouped(s[..n], rest, TrimStart(s[n..]));
      assert s == s[..n] + s[n..];
    }
  }

  lemma SpaceInFront(s: string, n: nat, rest: string)
    requires n == LeadingSpace(s) > 0 && White(rest)
    ensures White(s[..n] + rest)
  {
    var t := s[..n] + rest;
    assert LeadingSpace(t) == n;
    assert t[n..] == rest;
  }

  lemma {:induction false} WhiteTrims(white: string, rest: string)
    requires White(white) && LeadingSpace(rest) == 0
    ensures TrimStart(white + rest) == rest
    decreases |white|
  {
    if white == "" {
      assert white + rest == rest;
    } else {
      var n := LeadingSpace(white);
      assert LeadingSpace(white + rest) == n;
      assert (white + rest)[n..] == white[n..] + rest;
      WhiteTrims(white[n..], rest);
    }
  }

  // The same from the end.
  predicate WhiteBack(s: string)
    decreases |s|
  {
    s == "" || (TrailingSpace(s) > 0 && WhiteBack(s[..|s| - TrailingSpace(s)]))
  }

  lemma {:induction false} TrimEndSplits(s: string) returns (white: string)
    ensures WhiteBack(white) && s == TrimEnd(s) + white && TrailingSpace(TrimEnd(s)) == 0
    decreases |s|
  {
    hide TrailingSpace;
    var n := TrailingSpace(s);
    if n == 0 {
      white := "";
      assert s == s + "";
    } else {
      var front := s[..|s| - n];
      var rest := TrimEndSplits(front);
      white := rest + s[|s| - n..];
      SpaceBehind(s, n, rest);
      hide WhiteBack;
      Regrouped(TrimEnd(front), rest, s[|s| - n..]);
      assert s == front + s[|s| - n..];
    }
  }

  lemma SpaceBehind(s: string, n: nat, rest: string)
    requires n == TrailingSpace(s) > 0 && WhiteBack(rest)
    ensures WhiteBack(rest + s[|s| - n..])
  {
    var t := rest + s[|s| - n..];
    assert TrailingSpace(t) == n;
    assert t[..|t| - n] == rest;
  }

  // Trimming takes white space off both ends and stops at the first other character.
  lemma TrimMeans(s: string) returns (front: string, back: string)
    ensures s == front + Trim(s) + back && White(front) && WhiteBack(back)
    ensures TrailingSpace(Trim(s)) == 0 && LeadingSpace(Trim(s)) == 0
  {
    hide LeadingSpace, TrailingSpace, White, WhiteBack;
    front := TrimStartSplits(s);
    back := TrimEndSplits(TrimStart(s));
    Regrouped(front, Trim(s), back);
    NoSpaceInFront(Trim(s), back);
  }

  lemma NoSpaceInFront(a: string, b: string)
    requires LeadingSpace(a + b) == 0
    ensures LeadingSpace(a) == 0
  {}

  // ---- the layout of attributes ----

  // One attribute as it is laid out: its name, its value as written between the quotes, and the white
  // space behind it.
  datatype Laid = Laid(name: string, written: string, gap: string)

  function Layout(list: seq<Laid>): string {
    if list == [] then ""
    else list[0].name + ['='] + (['"'] + (list[0].written + ['"'] + (list[0].gap + Layout(list[1..]))))
  }

  predicate SoundOne(a: Laid) {
    ValidIdentifier(a.name) && '"' !in a.written && UnescapeXml(a.written).Some? && White(a.gap)
  }

  predicate Sound(list: seq<Laid>, seen: seq<Attribute>) {
    && (forall i | 0 <= i < |list| :: SoundOne(list[i]) && !HasName(seen, list[i].name))
    && (forall i, j | 0 <= i < j < |list| :: list[i].name != list[j].name)
  }

  function ValueOf(a: Laid): Attribute
    requires SoundOne(a)
  {
    (a.name, UnescapeXml(a.written).value)
  }

  function Values(list: seq<Laid>): (r: seq<Attribute>)
    requires forall i | 0 <= i < |list| :: SoundOne(list[i])
    ensures |r| == |list| && forall i | 0 <= i < |r| :: r[i] == ValueOf(list[i])
  {
    seq(|list|, i requires 0 <= i < |list| => ValueOf(list[i]))
  }

  lemma LayoutStarts(list: seq<Laid>)
    requires list != [] ==> ValidIdentifier(list[0].name)
    ensures LeadingSpace(Layout(list)) == 0 && (list != [] ==> Layout(list) != "")
  {
    if list != [] { assert Layout(list)[0] == list[0].name[0]; }
  }

  lemma SoundTail(list: seq<Laid>, seen: seq<Attribute>)
    requires list != [] && Sound(list, seen)
    ensures Sound(list[1..], seen + [ValueOf(list[0])])
    ensures Values(list) == [ValueOf(list[0])] + Values(list[1..])
  {
    hide ValidIdentifier, UnescapeXml, White;
    var tail := list[1..];
    forall i | 0 <= i < |tail|
      ensures SoundOne(tail[i]) && !HasName(seen + [ValueOf(list[0])], tail[i].name)
    {
      assert tail[i] == list[i + 1] && !HasName(seen, list[i + 1].name);
    }
  }

  lemma OneParses(a: Laid, more: string, seen: seq<Attribute>)
    requires SoundOne(a) && !HasName(seen, a.name) && LeadingSpace(more) == 0
    ensures ParseAttribute(a.name + ['='] + (['"'] + (a.written + ['"'] + (a.gap + more))), seen) ==
            Some((ValueOf(a), more))
  {
    hide FindChar, UnescapeXml, TrimStart, ValidIdentifier, HasName, White, LeadingSpace;
    var after := a.gap + more;
    var quoted := a.written + ['"'] + after;
    IdentifierHasNoEquals(a.name);
    FindCharAfter(a.name, '=', ['"'] + quoted);
    FindCharAfter(a.written, '"', after);
    AttributeSlices(a.name, a.written, after);
    WhiteTrims(a.gap, more);
  }

  // However attributes are laid out, with any white space or none between them and any spelling of their
  // values, they are read in the order they stand in.
  lemma {:induction false} LayoutParses(list: seq<Laid>, seen: seq<Attribute>)
    requires Sound(list, seen)
    ensures forall i | 0 <= i < |list| :: SoundOne(list[i])
    ensures ParseAttributes(Layout(list), seen) == Some(seen + Values(list))
    decreases |list|
  {
    hide ParseAttribute, ParseAttributes, SoundOne, LeadingSpace, HasName, ValueOf, Layout, Sound, Values;
    if list == [] {
      EmptyLayout();
      EmptyParses(seen);
      assert seen + [] == seen;
    } else {
      var a, rest := list[0], Layout(list[1..]);
      SoundNames(list, seen);
      LayoutStarts(list);
      LayoutStarts(list[1..]);
      LayoutOne(list);
      OneParses(a, rest, seen);
      ParseOne(Layout(list), seen, ValueOf(a), rest);
      SoundTail(list, seen);
      LayoutParses(list[1..], seen + [ValueOf(a)]);
      assert seen + [ValueOf(a)] + Values(list[1..]) == seen + ([ValueOf(a)] + Values(list[1..]));
    }
  }

  lemma EmptyLayout()
    ensures Layout([]) == "" && Values([]) == []
  {}

  lemma LayoutOne(list: seq<Laid>)
    requires list != []
    ensures Layout(list) ==
            list[0].name + ['='] + (['"'] + (list[0].written + ['"'] + (list[0].gap + Layout(list[1..]))))
  {}

  lemma SoundNames(list: seq<Laid>, seen: seq<Attribute>)
    requires Sound(list, seen)
    ensures forall i | 0 <= i < |list| :: ValidIdentifier(list[i].name) && SoundOne(list[i])
    ensures list != [] ==> !HasName(seen, list[0].name)
  {
    hide ValidIdentifier, HasName, UnescapeXml, White;
  }

  lemma EmptyParses(seen: seq<Attribute>)
    ensures ParseAttributes("", seen) == Some(seen)
  {}

  // And nothing else is read: what parses is laid out like this.
  lemma {:induction false} ParsedIsLayout(rest: string, seen: seq<Attribute>) returns (list: seq<Laid>)
    requires ParseAttributes(rest, seen).Some?
    ensures Layout(list) == rest && Sound(list, seen) && forall i | 0 <= i < |list| :: SoundOne(list[i])
    ensures ParseAttributes(rest, seen) == Some(seen + Values(list))
    decreases |rest|
  {
    hide SoundOne, HasName, ParseAttribute, ParseAttributes, Layout, Sound, Values, ValueOf;
    if rest == "" {
      list := [];
      EmptyLayout();
      EmptySound(seen);
      EmptyParses(seen);
      assert seen + [] == seen;
    } else {
      ParseNext(rest, seen);
      var a := ParsedOne(rest, seen);
      var (_, left) := ParseAttribute(rest, seen).value;
      var tail := ParsedIsLayout(left, seen + [ValueOf(a)]);
      list := [a] + tail;
      assert list[0] == a && list[1..] == tail;
      LayoutOne(list);
      SoundMore(a, tail, seen);
      SoundNames(list, seen);
      SoundTail(list, seen);
      assert seen + [ValueOf(a)] + Values(tail) == seen + ([ValueOf(a)] + Values(tail));
    }
  }

  lemma EmptySound(seen: seq<Attribute>)
    ensures Sound([], seen)
  {}

  lemma ParseNext(rest: string, seen: seq<Attribute>)
    requires rest != "" && ParseAttributes(rest, seen).Some?
    ensures ParseAttribute(rest, seen).Some?
    ensures var (a, left) := ParseAttribute(rest, seen).value;
            ParseAttributes(rest, seen) == ParseAttributes(left, seen + [a])
  {
    hide ParseAttribute;
  }

  lemma SoundMore(a: Laid, tail: seq<Laid>, seen: seq<Attribute>)
    requires SoundOne(a) && !HasName(seen, a.name) && Sound(tail, seen + [ValueOf(a)])
    ensures Sound([a] + tail, seen)
  {
    hide SoundOne;
    var list := [a] + tail;
    var more := seen + [ValueOf(a)];
    forall i | 0 <= i < |tail| ensures !HasName(seen, tail[i].name) && tail[i].name != a.name {
      assert !HasName(more, tail[i].name);
      assert more[|seen|] == ValueOf(a);
      assert forall k | 0 <= k < |seen| :: more[k] == seen[k];
      NameOfValue(a);
    }
  }

  lemma NameOfValue(a: Laid)
    requires SoundOne(a)
    ensures ValueOf(a).0 == a.name
  {}

  lemma ParsedOne(rest: string, seen: seq<Attribute>) returns (a: Laid)
    requires ParseAttribute(rest, seen).Some?
    ensures SoundOne(a) && !HasName(seen, a.name)
    ensures var (value, left) := ParseAttribute(rest, seen).value;
            value == ValueOf(a) && rest == a.name + ['='] + (['"'] + (a.written + ['"'] + (a.gap + left)))
  {
    hide FindChar, UnescapeXml, TrimStart, ValidIdentifier, HasName, White, LeadingSpace;
    var n := FindChar(rest, '=').value;
    FindCharSpec(rest, '=');
    var quoted := rest[n + 1..][1..];
    var m := FindChar(quoted, '"').value;
    FindCharSpec(quoted, '"');
    var behind := quoted[m + 1..];
    var gap := TrimStartSplits(behind);
    a := Laid(rest[..n], quoted[..m], gap);
    assert quoted == a.written + ['"'] + behind;
    assert rest == a.name + ['='] + (['"'] + quoted);
  }

  // ---- the three kinds of block ----

  lemma {:induction false} LookupIn(list: seq<Attribute>, name: string, value: string)
    requires Distinct(list)
    ensures Lookup(list, name) == Some(value) <==> (name, value) in list
  {
    if list != [] {
      var tail := list[1..];
      forall i, j | 0 <= i < j < |tail| ensures tail[i].0 != tail[j].0 {
        assert tail[i] == list[i + 1] && tail[j] == list[j + 1];
      }
      LookupIn(tail, name, value);
      assert list == [list[0]] + tail;
    }
  }

  lemma CategoryNamed(s: string, c: Category)
    ensures ParseCategory(s) == Some(c) <==> s == CategoryName(c)
  {
    CategoryParses(c);
  }

  lemma SeverityNamed(s: string, v: Severity)
    ensures ParseSeverity(s) == Some(v) <==> s == SeverityName(v)
  {
    SeverityParses(v);
  }

  lemma DeliveryNamed(s: string, d: Delivery)
    ensures ParseDelivery(s) == Some(d) <==> s == DeliveryName(d)
  {
    DeliveryParses(d);
  }

  // The names of the enumerations on the wire.
  lemma NamesOnTheWire()
    ensures CategoryName(Capability) == "capability" && CategoryName(Task) == "task"
    ensures CategoryName(Lifecycle) == "lifecycle" && CategoryName(Guidance) == "guidance"
    ensures CategoryName(Security) == "security" && CategoryName(ExternalEvent) == "external_event"
    ensures CategoryName(Diagnostic) == "diagnostic" && CategoryName(Legacy) == "legacy"
    ensures SeverityName(Info) == "info" && SeverityName(Warning) == "warning"
    ensures SeverityName(Error) == "error" && SeverityName(Critical) == "critical"
    ensures DeliveryName(Required) == "required" && DeliveryName(Configurable) == "configurable"
    ensures DeliveryName(DiagnosticOnly) == "diagnostic_only"
  {}

  // A tag without attributes is legacy text if and only if its body decodes to at most 64 KiB, and then
  // stands for the one fixed reminder with that body.
  lemma LegacyExactly(codec: JsonCodec, header: string, body: string, raw: string)
    requires Trim(header) == ""
    ensures ParseBlock(codec, header, body, raw) ==
            match UnescapeXml(body)
            case Some(text) =>
              if |text| > 64 * 1024 then None
              else Some(ParsedReminder(
                     Some(SystemReminder(1, Legacy, "legacy", "legacy_text", Info, Configurable, [Model, Tui], text,
                                         None, Obj([]))),
                     raw, LegacyText))
            case None => None
  {
    hide ParseAttributes, ParseFields, Validate, UnescapeXml, Trim;
  }

  // A tag whose attributes do not parse, or have no version number among them, is no block.
  lemma UnreadableIsRefused(codec: JsonCodec, header: string, body: string, raw: string)
    requires Trim(header) != ""
    ensures ParseAttributes(Trim(header), []).None? ==> ParseBlock(codec, header, body, raw) == None
    ensures ParseAttributes(Trim(header), []).Some?
            && (forall t | ("version", t) in ParseAttributes(Trim(header), []).value :: ParseU16(t).None?) ==>
              ParseBlock(codec, header, body, raw) == None
  {
    hide ParseAttributes, ParseFields, Validate, UnescapeXml, Trim, ParseU16, Lookup, Distinct;
    var list := ParseAttributes(Trim(header), []);
    if list.Some? {
      NoneDistinct();
      ParsedDistinct(Trim(header), []);
      if Lookup(list.value, "version").Some? { LookupIn(list.value, "version", Lookup(list.value, "version").value); }
    }
  }

  // A tag with any other version number is opaque, whatever else it holds and whatever its body.
  lemma OtherVersionIsOpaque(codec: JsonCodec, header: string, body: string, raw: string, list: seq<Attribute>,
                             text: string)
    requires Trim(header) != "" && ParseAttributes(Trim(header), []) == Some(list) && ("version", text) in list
    ensures ParseBlock(codec, header, body, raw) == Some(ParsedReminder(None, raw, OpaqueFutureVersion)) <==>
            ParseU16(text).Some? && ParseU16(text).value != 1
  {
    hide ParseAttributes, ParseFields, Validate, UnescapeXml, Trim, ParseU16, Lookup, Distinct;
    NoneDistinct();
    ParsedDistinct(Trim(header), []);
    LookupIn(list, "version", text);
  }

  // What the nine attributes and the body say about a reminder.
  ghost predicate Says(codec: JsonCodec, list: seq<Attribute>, body: string, r: SystemReminder) {
    && ("category", CategoryName(r.category)) in list
    && ("source", r.source) in list
    && ("kind", r.kind) in list
    && ("severity", SeverityName(r.severity)) in list
    && ("delivery", DeliveryName(r.delivery)) in list
    && (exists t :: ("audiences", t) in list && codec.parseAudiences(t) == Some(r.audiences))
    && (exists t :: ("summary", t) in list && codec.parseSummary(t) == Some(r.summary))
    && (exists t :: ("metadata", t) in list && codec.parseMetadata(t) == Some(r.metadata))
    && UnescapeXml(body) == Some(r.body)
  }

  lemma FieldsSay(codec: JsonCodec, version: nat, list: seq<Attribute>, body: string, r: SystemReminder)
    requires Distinct(list)
    ensures ParseFields(codec, version, list, body) == Some(r) <==> r.version == version && Says(codec, list, body, r)
  {
    hide UnescapeXml, Lookup, Distinct, ParseCategory, ParseSeverity, ParseDelivery, CategoryName, SeverityName,
         DeliveryName;
    LookupIn(list, "category", CategoryName(r.category));
    LookupIn(list, "source", r.source);
    LookupIn(list, "kind", r.kind);
    LookupIn(list, "severity", SeverityName(r.severity));
    LookupIn(list, "delivery", DeliveryName(r.delivery));
    forall s ensures ParseCategory(s) == Some(r.category) <==> s == CategoryName(r.category) {
      CategoryNamed(s, r.category);
    }
    forall s ensures ParseSeverity(s) == Some(r.severity) <==> s == SeverityName(r.severity) {
      SeverityNamed(s, r.severity);
    }
    forall s ensures ParseDelivery(s) == Some(r.delivery) <==> s == DeliveryName(r.delivery) {
      DeliveryNamed(s, r.delivery);
    }
    forall t ensures Lookup(list, "audiences") == Some(t) <==> ("audiences", t) in list {
      LookupIn(list, "audiences", t);
    }
    forall t ensures Lookup(list, "summary") == Some(t) <==> ("summary", t) in list { LookupIn(list, "summary", t); }
    forall t ensures Lookup(list, "metadata") == Some(t) <==> ("metadata", t) in list { LookupIn(list, "metadata", t); }
  }

  // A block is this canonical reminder if and only if it has version 1 and nine attributes, in any order,
  // that say so, and the reminder is valid.
  lemma CanonicalExactly(codec: JsonCodec, header: string, body: string, raw: string, r: SystemReminder)
    requires Trim(header) != "" && ParseAttributes(Trim(header), []).Some?
    ensures var list := ParseAttributes(Trim(header), []).value;
            ParseBlock(codec, header, body, raw) == Some(ParsedReminder(Some(r), raw, UntrustedCanonicalText)) <==>
            && |list| == 9
            && (exists t :: ("version", t) in list && ParseU16(t) == Some(1)) && r.version == 1
            && Says(codec, list, body, r)
            && WellFormed(r)
  {
    hide ParseAttributes, ParseFields, Validate, UnescapeXml, Trim, ParseU16, Lookup, Distinct, Says, WellFormed;
    var list := ParseAttributes(Trim(header), []).value;
    NoneDistinct();
    ParsedDistinct(Trim(header), []);
    forall t ensures Lookup(list, "version") == Some(t) <==> ("version", t) in list { LookupIn(list, "version", t); }
    FieldsSay(codec, 1, list, body, r);
    ValidateAcceptance(r);
  }

  // ---- numbers ----

  function Zeros(k: nat): string { if k == 0 then "" else Zeros(k - 1) + ['0'] }

  predicate Digit(d: char) { '0' <= d <= '9' }

  lemma DigitsSnoc(t: string, d: char)
    requires Digits(t) && Digit(d)
    ensures Digits(t + [d]) && DigitsValue(t + [d]) == DigitsValue(t) * 10 + (d as nat - '0' as nat)
  {
    assert (t + [d])[..|t|] == t;
  }

  lemma DecimalSnoc(u: nat, d: char)
    requires Digit(d)
    ensures var v := u * 10 + (d as nat - '0' as nat);
            Decimal(v) == if u == 0 then [d] else Decimal(u) + [d]
  {
    var v := u * 10 + (d as nat - '0' as nat);
    assert v % 10 + '0' as nat == d as nat && v / 10 == u;
    assert (d as nat) as char == d;
  }

  lemma {:induction false} DigitsAreZerosAndDecimal(s: string) returns (k: nat)
    requires s != "" && Digits(s)
    ensures s == Zeros(k) + Decimal(DigitsValue(s))
    decreases |s|
  {
    hide Digits, DigitsValue, Decimal, Zeros, Digit;
    var front, d := LastDigit(s);
    if front == "" {
      NoDigits();
      DecimalSnoc(0, d);
      NoZeros();
      k := 0;
      assert s == [d] && "" + [d] == [d];
    } else {
      var j := DigitsAreZerosAndDecimal(front);
      k := OneMoreDigit(front, d, j, DigitsValue(front));
    }
  }

  lemma LastDigit(s: string) returns (front: string, d: char)
    requires s != "" && Digits(s)
    ensures s == front + [d] && Digits(front) && Digit(d)
    ensures DigitsValue(s) == DigitsValue(front) * 10 + (d as nat - '0' as nat)
  {
    front, d := s[..|s| - 1], s[|s| - 1];
    DigitsSnoc(front, d);
    assert s == front + [d];
  }

  lemma OneMoreDigit(front: string, d: char, j: nat, u: nat) returns (k: nat)
    requires front == Zeros(j) + Decimal(u) && Digit(d)
    ensures front + [d] == Zeros(k) + Decimal(u * 10 + (d as nat - '0' as nat))
  {
    DecimalSnoc(u, d);
    if u == 0 {
      k := j + 1;
      ZeroMore(j);
    } else {
      k := j;
      Regrouped(Zeros(j), Decimal(u), [d]);
    }
  }

  lemma NoDigits()
    ensures DigitsValue("") == 0
  {}

  lemma NoZeros()
    ensures Zeros(0) == ""
  {}

  lemma ZeroMore(j: nat)
    ensures Zeros(j) + Decimal(0) == Zeros(j + 1)
  {}

  lemma {:induction false} ZerosValue(k: nat, n: nat)
    ensures Decimal(n) != ""
    ensures Digits(Zeros(k) + Decimal(n)) && DigitsValue(Zeros(k) + Decimal(n)) == n
    decreases n
  {
    ZerosDigits(k);
    var d := (n % 10 + '0' as nat) as char;
    var front := if n < 10 then Zeros(k) else Zeros(k) + Decimal(n / 10);
    if n >= 10 { ZerosValue(k, n / 10); }
    hide Digits, DigitsValue, Zeros;
    DigitsSnoc(front, d);
    if n < 10 {
      assert Decimal(n) == [d];
    } else {
      assert Decimal(n) == Decimal(n / 10) + [d];
      hide Decimal;
      Regrouped(Zeros(k), Decimal(n / 10), [d]);
    }
  }

  lemma {:induction false} ZerosDigits(k: nat)
    ensures Digits(Zeros(k)) && DigitsValue(Zeros(k)) == 0
  {
    if k > 0 {
      ZerosDigits(k - 1);
      DigitsSnoc(Zeros(k - 1), '0');
    }
  }

  // The decimal form of a number, possibly with zeros and one plus sign in front.
  predicate NumberText(s: string, n: nat, k: nat) {
    s == Zeros(k) + Decimal(n) || s == "+" + (Zeros(k) + Decimal(n))
  }

  // A text is read as a number if and only if it is such a form of a 16-bit number.
  lemma NumberExactly(s: string, n: nat)
    ensures ParseU16(s) == Some(n) <==> n <= 65535 && exists k: nat :: NumberText(s, n, k)
  {
    hide Digits, DigitsValue, Decimal, Zeros;
    var digits := if s != "" && s[0] == '+' then s[1..] else s;
    if ParseU16(s) == Some(n) {
      var k := DigitsAreZerosAndDecimal(digits);
      assert s == digits || s == "+" + digits;
      assert NumberText(s, n, k);
    }
    if n <= 65535 && exists k: nat :: NumberText(s, n, k) {
      var k: nat :| NumberText(s, n, k);
      ZerosValue(k, n);
      NumberTextParses(s, Zeros(k) + Decimal(n), n);
    }
  }

  lemma NumberTextParses(s: string, t: string, n: nat)
    requires t != "" && Digits(t) && DigitsValue(t) == n <= 65535 && (s == t || s == "+" + t)
    ensures ParseU16(s) == Some(n)
  {
    hide DigitsValue;
    assert '0' <= t[0] <= '9';
    assert ("+" + t)[1..] == t;
  }

  // ---- encoding ----

  function OnTheWire(name: string, value: string): string { " " + name + "=\"" + value + "\"" }

  // The opening tag of a reminder on the wire.
  function OpeningTag(codec: JsonCodec, r: SystemReminder): string {
    "<system-reminder" + Concat([
      OnTheWire("version", Decimal(r.version)),
      OnTheWire("category", CategoryName(r.category)),
      OnTheWire("source", EscapeXml(r.source)),
      OnTheWire("kind", EscapeXml(r.kind)),
      OnTheWire("severity", SeverityName(r.severity)),
      OnTheWire("delivery", DeliveryName(r.delivery)),
      OnTheWire("audiences", EscapeXml(codec.printAudiences(r.audiences))),
      OnTheWire("summary", EscapeXml(codec.printSummary(r.summary))),
      OnTheWire("metadata", EscapeXml(codec.printMetadata(r.metadata)))]) + ">"
  }

  // Encoding succeeds if and only if the reminder is well-formed, its attributes have at most 24 KiB and
  // the whole at most 96 KiB; the error says which of these fails first.
  lemma EncodeDecides(codec: JsonCodec, r: SystemReminder)
    ensures var tag := OpeningTag(codec, r);
            var wire := tag + EscapeXml(r.body) + "</system-reminder>";
            && (Encode(codec, r).Ok? <==> WellFormed(r) && |tag| - 17 <= 24 * 1024 && |wire| <= 96 * 1024)
            && (Encode(codec, r).Ok? ==> Encode(codec, r).value == wire)
            && (Encode(codec, r) == Err(AttributesTooLarge) <==> WellFormed(r) && |tag| - 17 > 24 * 1024)
            && (Encode(codec, r) == Err(WireTooLarge) <==>
                  WellFormed(r) && |tag| - 17 <= 24 * 1024 && |wire| > 96 * 1024)
            && (Encode(codec, r).Err? && Encode(codec, r).error.Validation? <==> !WellFormed(r))
  {
    hide Validate, WellFormed, EscapeXml, Attributes, Decimal, CategoryName, SeverityName, DeliveryName;
    ValidateAcceptance(r);
    TagIsOpen(codec, r);
  }

  // The legacy encoder succeeds if and only if the body and what it escapes to are within bounds.
  lemma LegacyEncodeDecides(body: string)
    ensures var wire := "<system-reminder>" + EscapeXml(body) + "</system-reminder>";
            EncodeLegacy(body) == if |body| > 64 * 1024 then Err(Validation(BodyTooLarge))
                                  else if |wire| > 96 * 1024 then Err(WireTooLarge)
                                  else Ok(wire)
  {
    hide EscapeXml;
    assert OPEN + ">" == "<system-reminder>";
  }

  // Validation names the first rule that is broken, in this order.
  lemma ValidateNamesFirst(r: SystemReminder)
    ensures var v := Validate(r);
            var repeated := exists i, j | 0 <= i < j < |r.audiences| :: r.audiences[i] == r.audiences[j];
            if r.version != 1 then v == Fail(UnsupportedVersion(r.version))
            else if !ValidIdentifier(r.source) then v == Fail(InvalidIdentifier("source"))
            else if !ValidIdentifier(r.kind) then v == Fail(InvalidIdentifier("kind"))
            else if r.audiences == [] || repeated then v == Fail(InvalidAudiences)
            else if |r.body| > 64 * 1024 then v == Fail(BodyTooLarge)
            else if r.summary.Some? && |r.summary.value| > 4 * 1024 then v == Fail(SummaryTooLarge)
            else v.Pass? || v.error in {InvalidMetadata, MetadataTooManyNodes, MetadataTooDeep, MetadataTooLarge}
  {
    hide ValidIdentifier;
    var a := r.audiences;
    assert (exists i | 0 <= i < |a| :: a[i] in a[..i]) <==> exists i, j | 0 <= i < j < |a| :: a[i] == a[j] by {
      forall i, j | 0 <= i < j < |a| && a[i] == a[j] ensures a[j] in a[..j] {
        assert a[..j][i] == a[j];
      }
    }
    MetadataErrors(r.metadata);
  }

  lemma MetadataErrors(m: Json)
    ensures ValidateMetadata(m).Fail? ==>
              ValidateMetadata(m).error in {InvalidMetadata, MetadataTooManyNodes, MetadataTooDeep, MetadataTooLarge}
  {
    if m.Obj? { WalkErrorKinds([(m, 1)], 0, 0); }
  }

  lemma {:induction false} WalkErrorKinds(stack: Stack, nodes: nat, bytes: nat)
    ensures Walk(stack, nodes, bytes).Fail? ==>
              Walk(stack, nodes, bytes).error in {MetadataTooManyNodes, MetadataTooDeep, MetadataTooLarge}
    decreases PendingNodes(stack)
  {
    if stack != [] {
      var rest := stack[..|stack| - 1];
      var (v, depth) := stack[|stack| - 1];
      assert stack == rest + [(v, depth)];
      Expand(rest, v, depth);
      WalkErrorKinds(rest + Children(v, depth), nodes + 1, bytes + OwnBytes(v));
    }
  }

  lemma TagIsOpen(codec: JsonCodec, r: SystemReminder)
    ensures OpeningTag(codec, r) == OPEN + Attributes(codec, r) + ">"
  {
    hide EscapeXml, Decimal, CategoryName, SeverityName, DeliveryName, Concat;
    forall name, value ensures OnTheWire(name, value) == PrintAttribute(name, value) { PrintedSame(name, value); }
    hide OnTheWire, PrintAttribute;
  }

  lemma PrintedSame(name: string, value: string)
    ensures OnTheWire(name, value) == PrintAttribute(name, value)
  {}
}
