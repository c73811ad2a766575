// Reminders written into arbitrary text are read back, in order, and leave exactly the text around
// them.
module EmbeddedRoundTrip {
  import opened Wrappers
  import opened Text
  import opened XmlEscape
  import opened Reminder
  import opened ReminderCodec
  import opened ReminderMessage
  import opened MessageTheorems
  import BlockRoundTrip

  ghost predicate PlainGaps(gaps: seq<string>) {
    forall i | 0 <= i < |gaps| :: !Contains(gaps[i], OPEN)
  }

  ghost predicate AllRecognisable(codec: JsonCodec, ps: seq<ParsedReminder>) {
    forall i | 0 <= i < |ps| :: Recognisable(codec, ps[i])
  }

  // The pieces of a text woven from gaps and blocks.
  function Woven(gaps: seq<string>, ps: seq<ParsedReminder>): seq<Piece>
    requires |gaps| == |ps| + 1
    decreases |ps|
  {
    if ps == [] then [Kept(gaps[0])] else [Kept(gaps[0]), Block(ps[0])] + Woven(gaps[1..], ps[1..])
  }

  lemma OpenOnce()
    ensures OPEN[0] !in OPEN[1..]
  {}

  lemma TakeAfterGap(codec: JsonCodec, gap: string, p: ParsedReminder, rest: string, found: nat)
    requires !Contains(gap, OPEN) && Recognisable(codec, p) && found < MAX_REMINDERS
    ensures Scan(codec, gap + (p.raw + rest), found) ==
            Prefixed([Kept(gap), Block(p)], Scan(codec, rest, found + 1))
  {
    hide Judge, Find, Contains, BlockOf, Scan;
    var header, body :| BlockOf(codec, header, body, p);
    BlockIsTaken(codec, header, body, p, rest);
    var text := gap + (p.raw + rest);
    var candidate := p.raw + rest;
    assert candidate == OPEN + candidate[|OPEN|..];
    OpenOnce();
    FindAfterGap(gap, OPEN, candidate[|OPEN|..]);
    assert gap + OPEN + candidate[|OPEN|..] == text;
    assert text[|gap|..] == candidate;
    ScanTakes(codec, text, found, |gap|, |p.raw|, p);
    assert text[..|gap|] == gap && text[|gap| + |p.raw|..] == rest;
  }

  lemma {:induction false} ScanWoven(codec: JsonCodec, gaps: seq<string>, ps: seq<ParsedReminder>, found: nat)
    requires |gaps| == |ps| + 1 && PlainGaps(gaps) && AllRecognisable(codec, ps)
    requires found + |ps| <= MAX_REMINDERS
    ensures Scan(codec, Weave(gaps, Raws(ps)), found) == Cut(Woven(gaps, ps), false)
    decreases |ps|
  {
    hide Scan, Recognisable, Contains;
    if ps == [] {
      FindSpec(gaps[0], OPEN);
      ScanNone(codec, gaps[0], found);
    } else {
      var rest := Weave(gaps[1..], Raws(ps[1..]));
      assert Raws(ps)[1..] == Raws(ps[1..]);
      TakeAfterGap(codec, gaps[0], ps[0], rest, found);
      ScanWoven(codec, gaps[1..], ps[1..], found + 1);
    }
  }

  lemma TakeTwo(gap: string, p: ParsedReminder, tail: seq<Piece>)
    ensures Blocks([Kept(gap), Block(p)] + tail) == [p] + Blocks(tail)
    ensures UserText([Kept(gap), Block(p)] + tail, TrustedLegacy) == gap + UserText(tail, TrustedLegacy)
  {
    hide Blocks, UserText;
    assert [Kept(gap), Block(p)] == [Kept(gap)] + [Block(p)];
    PiecesAppend([Kept(gap)], [Block(p)], TrustedLegacy);
    PiecesAppend([Kept(gap), Block(p)], tail, TrustedLegacy);
    OnePiece(Kept(gap), TrustedLegacy);
    OnePiece(Block(p), TrustedLegacy);
  }

  lemma ConcatOne(gaps: seq<string>)
    requires |gaps| == 1
    ensures Concat(gaps) == gaps[0]
  {
    assert gaps[1..] == [];
  }

  lemma {:induction false} WovenParts(gaps: seq<string>, ps: seq<ParsedReminder>)
    requires |gaps| == |ps| + 1
    ensures Blocks(Woven(gaps, ps)) == ps
    ensures UserText(Woven(gaps, ps), TrustedLegacy) == Concat(gaps)
    decreases |ps|
  {
    hide Blocks, UserText, Concat;
    if ps == [] {
      ConcatOne(gaps);
      OnePiece(Kept(gaps[0]), TrustedLegacy);
    } else {
      WovenParts(gaps[1..], ps[1..]);
      TakeTwo(gaps[0], ps[0], Woven(gaps[1..], ps[1..]));
      ConcatFirst(gaps);
      assert ps == [ps[0]] + ps[1..];
    }
  }

  // The embedding theorem for any recognisable blocks.
  lemma WovenParses(codec: JsonCodec, gaps: seq<string>, ps: seq<ParsedReminder>, mode: Mode)
    requires |gaps| == |ps| + 1 && PlainGaps(gaps) && AllRecognisable(codec, ps)
    requires |ps| <= MAX_REMINDERS && |Weave(gaps, Raws(ps))| <= MAX_INPUT_BYTES
    ensures var text := Weave(gaps, Raws(ps));
            ParseMessage(codec, text, mode) ==
            ParsedText(if mode == TrustedLegacy then Concat(gaps) else text, ps, false)
  {
    hide Scan, Recognisable, Contains;
    var text := Weave(gaps, Raws(ps));
    ScanWoven(codec, gaps, ps, 0);
    WovenParts(gaps, ps);
    PreserveKeepsText(codec, text);
  }

  // ---- more blocks than the limit ----

  // The pieces when only the first m blocks are taken: what follows them stays as it is.
  function WovenUpTo(gaps: seq<string>, ps: seq<ParsedReminder>, m: nat): seq<Piece>
    requires |gaps| == |ps| + 1 && m <= |ps|
    decreases m
  {
    if m == 0 then [Kept(Weave(gaps, Raws(ps)))]
    else [Kept(gaps[0]), Block(ps[0])] + WovenUpTo(gaps[1..], ps[1..], m - 1)
  }

  lemma BlockAhead(gap: string, raw: string, rest: string)
    requires !Contains(gap, OPEN) && OPEN <= raw
    ensures Find(gap + (raw + rest), OPEN) == Some(|gap|)
  {
    hide Find, Contains;
    OpenOnce();
    var tail := raw[|OPEN|..] + rest;
    assert gap + (raw + rest) == gap + OPEN + tail;
    FindAfterGap(gap, OPEN, tail);
  }

  // Where a scan with this many blocks found ends at once, with the limit reported.
  ghost predicate StopsAt(codec: JsonCodec, text: string, found: nat) {
    Scan(codec, text, found) == Cut([Kept(text)], true)
  }

  // The first m blocks are taken; what follows them stops the scan.
  lemma {:induction false} ScanUpTo(codec: JsonCodec, gaps: seq<string>, ps: seq<ParsedReminder>, m: nat, found: nat)
    requires |gaps| == |ps| + 1 && PlainGaps(gaps) && m <= |ps| && found + m <= MAX_REMINDERS
    requires forall i | 0 <= i < m :: Recognisable(codec, ps[i])
    requires StopsAt(codec, Weave(gaps[m..], Raws(ps[m..])), found + m)
    ensures Scan(codec, Weave(gaps, Raws(ps)), found) == Cut(WovenUpTo(gaps, ps, m), true)
    decreases m
  {
    hide Scan, Recognisable, Contains, Weave, Raws;
    if m == 0 {
      assert gaps[0..] == gaps && ps[0..] == ps;
    } else {
      var rest := Weave(gaps[1..], Raws(ps[1..]));
      WeaveFirst(gaps, ps);
      assert gaps[1..][m - 1..] == gaps[m..] && ps[1..][m - 1..] == ps[m..];
      TakeAfterGap(codec, gaps[0], ps[0], rest, found);
      ScanUpTo(codec, gaps[1..], ps[1..], m - 1, found + 1);
    }
  }

  // What a message comes to when the scan stops behind m of its blocks.
  ghost predicate StopsBehind(codec: JsonCodec, gaps: seq<string>, ps: seq<ParsedReminder>, m: nat)
    requires |gaps| == |ps| + 1 && m <= |ps|
  {
    ParseMessage(codec, Weave(gaps, Raws(ps)), TrustedLegacy) ==
    ParsedText(Concat(gaps[..m]) + Weave(gaps[m..], Raws(ps[m..])), ps[..m], true)
  }

  lemma UpToParses(codec: JsonCodec, gaps: seq<string>, ps: seq<ParsedReminder>, m: nat)
    requires |gaps| == |ps| + 1 && PlainGaps(gaps) && m <= |ps| && m <= MAX_REMINDERS
    requires forall i | 0 <= i < m :: Recognisable(codec, ps[i])
    requires StopsAt(codec, Weave(gaps[m..], Raws(ps[m..])), m)
    requires |Weave(gaps, Raws(ps))| <= MAX_INPUT_BYTES
    ensures StopsBehind(codec, gaps, ps, m)
  {
    hide Scan, Recognisable, Contains, WovenUpTo;
    ScanUpTo(codec, gaps, ps, m, 0);
    WovenUpToParts(gaps, ps, m);
  }

  lemma {:induction false} WovenUpToParts(gaps: seq<string>, ps: seq<ParsedReminder>, m: nat)
    requires |gaps| == |ps| + 1 && m <= |ps|
    ensures Blocks(WovenUpTo(gaps, ps, m)) == ps[..m]
    ensures UserText(WovenUpTo(gaps, ps, m), TrustedLegacy) == Concat(gaps[..m]) + Weave(gaps[m..], Raws(ps[m..]))
    decreases m
  {
    hide Weave, Raws, Blocks, UserText, Concat;
    if m == 0 {
      assert gaps[0..] == gaps && ps[0..] == ps && gaps[..0] == [];
      var all := Weave(gaps, Raws(ps));
      OnePiece(Kept(all), TrustedLegacy);
      ConcatNothing();
      assert "" + all == all;
    } else {
      WovenUpToParts(gaps[1..], ps[1..], m - 1);
      TakeTwo(gaps[0], ps[0], WovenUpTo(gaps[1..], ps[1..], m - 1));
      assert gaps[1..][m - 1..] == gaps[m..] && ps[1..][m - 1..] == ps[m..];
      assert gaps[..m][1..] == gaps[1..][..m - 1];
      ConcatFirst(gaps[..m]);
      Regroup(gaps[0], Concat(gaps[..m][1..]), Weave(gaps[m..], Raws(ps[m..])));
      assert ps[..m] == [ps[0]] + ps[1..][..m - 1];
    }
  }

  lemma ConcatNothing()
    ensures Concat([]) == ""
  {}

  // With more than 64 blocks exactly the first 64 are taken, the limit is reported, and everything
  // from the gap before the next block on stays in the user's text.
  lemma OverfullParses(codec: JsonCodec, gaps: seq<string>, ps: seq<ParsedReminder>)
    requires |gaps| == |ps| + 1 && PlainGaps(gaps)
    requires |ps| > MAX_REMINDERS && |Weave(gaps, Raws(ps))| <= MAX_INPUT_BYTES
    requires forall i | 0 <= i < MAX_REMINDERS :: Recognisable(codec, ps[i])
    requires OPEN <= ps[MAX_REMINDERS].raw
    ensures ParseMessage(codec, Weave(gaps, Raws(ps)), TrustedLegacy) ==
            ParsedText(Concat(gaps[..MAX_REMINDERS]) + Weave(gaps[MAX_REMINDERS..], Raws(ps[MAX_REMINDERS..])),
                       ps[..MAX_REMINDERS], true)
  {
    hide Scan, Recognisable, Contains, Find;
    var m := MAX_REMINDERS;
    WeaveFirst(gaps[m..], ps[m..]);
    BlockAhead(gaps[m], ps[m].raw, Weave(gaps[m + 1..], Raws(ps[m + 1..])));
    ScanFull(codec, Weave(gaps[m..], Raws(ps[m..])), m);
    UpToParses(codec, gaps, ps, m);
  }

  lemma WeaveFirst(gaps: seq<string>, ps: seq<ParsedReminder>)
    requires |gaps| == |ps| + 1 && ps != []
    ensures Weave(gaps, Raws(ps)) == gaps[0] + (ps[0].raw + Weave(gaps[1..], Raws(ps[1..])))
  {
    assert Raws(ps)[1..] == Raws(ps[1..]);
  }

  // ---- the encoders write recognisable blocks ----

  function Canonical(codec: JsonCodec, r: SystemReminder): ParsedReminder
    requires Encode(codec, r).Ok?
  {
    ParsedReminder(Some(r), Encode(codec, r).value, UntrustedCanonicalText)
  }

  // The parser counts the tag name into the attribute bound, the encoder does not.
  predicate HeaderFits(codec: JsonCodec, r: SystemReminder) {
    |OPEN| + |Attributes(codec, r)| <= MAX_ATTRIBUTE_BYTES
  }

  lemma EscapedBodyOpen(body: string)
    ensures !Contains(EscapeXml(body), CLOSE) && |EscapeXml(body)| <= 6 * |body|
  {
    EscapeClean(body);
    assert Reserved(CLOSE[0]);
    ContainsNone(EscapeXml(body), CLOSE);
  }

  lemma EncodedIsBlock(codec: JsonCodec, r: SystemReminder)
    requires Encode(codec, r).Ok? && codec.Inverts(r) && HeaderFits(codec, r)
    ensures Recognisable(codec, Canonical(codec, r))
  {
    hide Attributes, ParseBlock, Contains, Validate;
    var header, body := Attributes(codec, r), EscapeXml(r.body);
    BlockRoundTrip.AttributesClean(codec, r);
    BlockRoundTrip.HeaderTrims(codec, r);
    EscapedBodyOpen(r.body);
    ValidBody(r);
    BlockRoundTrip.CanonicalBlockParses(codec, r, Encode(codec, r).value);
    assert BlockOf(codec, header, body, Canonical(codec, r));
  }

  lemma ValidBody(r: SystemReminder)
    requires Validate(r).Pass?
    ensures |r.body| <= MAX_BODY_BYTES
  {}

  function LegacyBlock(body: string): ParsedReminder
    requires EncodeLegacy(body).Ok?
  {
    ParsedReminder(Some(LegacyReminder(body)), EncodeLegacy(body).value, LegacyText)
  }

  lemma LegacyIsBlock(codec: JsonCodec, body: string)
    requires EncodeLegacy(body).Ok?
    ensures Recognisable(codec, LegacyBlock(body))
  {
    hide ParseBlock, Contains;
    EscapedBodyOpen(body);
    BlockRoundTrip.LegacyBlockParses(codec, body, EncodeLegacy(body).value);
    assert EncodeLegacy(body).value == OPEN + "" + ">" + EscapeXml(body) + CLOSE;
    assert BlockOf(codec, "", EscapeXml(body), LegacyBlock(body));
  }

  // ---- the round trip at the centre of the codec ----

  function Parsed(codec: JsonCodec, rs: seq<SystemReminder>): (ps: seq<ParsedReminder>)
    requires forall i | 0 <= i < |rs| :: Encode(codec, rs[i]).Ok?
    ensures |ps| == |rs|
    ensures forall i | 0 <= i < |rs| :: ps[i] == Canonical(codec, rs[i])
  {
    hide Encode;
    seq(|rs|, i requires 0 <= i < |rs| && Encode(codec, rs[i]).Ok? => Canonical(codec, rs[i]))
  }

  lemma FittingAreBlocks(codec: JsonCodec, rs: seq<SystemReminder>, m: nat)
    requires m <= |rs| && forall i | 0 <= i < |rs| :: Encode(codec, rs[i]).Ok? && codec.Inverts(rs[i])
    requires forall i | 0 <= i < m :: HeaderFits(codec, rs[i])
    ensures forall i | 0 <= i < m :: Recognisable(codec, Parsed(codec, rs)[i])
  {
    hide Encode, Recognisable, Attributes;
    forall i | 0 <= i < m ensures Recognisable(codec, Parsed(codec, rs)[i]) { EncodedIsBlock(codec, rs[i]); }
  }

  // Any reminders, encoded and interleaved with any text free of the tag name, come back in order,
  // and the text around them comes back as it was.
  lemma EmbeddedRoundTrips(codec: JsonCodec, gaps: seq<string>, rs: seq<SystemReminder>)
    requires |gaps| == |rs| + 1 && |rs| <= MAX_REMINDERS && PlainGaps(gaps)
    requires forall i | 0 <= i < |rs| :: Encode(codec, rs[i]).Ok? && codec.Inverts(rs[i])
    requires forall i | 0 <= i < |rs| :: HeaderFits(codec, rs[i])
    requires |Weave(gaps, Raws(Parsed(codec, rs)))| <= MAX_INPUT_BYTES
    ensures ParseMessage(codec, Weave(gaps, Raws(Parsed(codec, rs))), TrustedLegacy) ==
            ParsedText(Concat(gaps), Parsed(codec, rs), false)
  {
    hide Encode, Recognisable, Attributes;
    FittingAreBlocks(codec, rs, |rs|);
    WovenParses(codec, gaps, Parsed(codec, rs), TrustedLegacy);
  }

  // ---- an overlong header ----

  lemma EncodedOpens(codec: JsonCodec, r: SystemReminder)
    requires Encode(codec, r).Ok?
    ensures OPEN <= Encode(codec, r).value
  {
    hide Attributes, EscapeXml, Validate;
    var wire := Encode(codec, r).value;
    assert wire == OPEN + (Attributes(codec, r) + ">" + EscapeXml(r.body) + CLOSE);
  }

  // An overlong header stops the scan where it stands: it and everything behind it stays.
  lemma OverlongStops(codec: JsonCodec, gap: string, r: SystemReminder, rest: string, found: nat)
    requires Encode(codec, r).Ok? && !HeaderFits(codec, r) && !Contains(gap, OPEN) && found < MAX_REMINDERS
    ensures StopsAt(codec, gap + (Encode(codec, r).value + rest), found)
  {
    hide Scan, Attributes, Find, Contains, Encode;
    var wire := Encode(codec, r).value;
    var text, candidate := gap + (wire + rest), wire + rest;
    EncodedOpens(codec, r);
    BlockAhead(gap, wire, rest);
    FindOpens(text, |gap|);
    assert text[|gap|..] == candidate;
    OverlongJudged(codec, r, rest);
    ScanStops(codec, text, found, |gap|, true);
  }

  lemma OverlongJudged(codec: JsonCodec, r: SystemReminder, rest: string)
    requires Encode(codec, r).Ok? && !HeaderFits(codec, r) && At(Encode(codec, r).value + rest, OPEN, 0)
    ensures Judge(codec, Encode(codec, r).value + rest) == KeepAll(true)
  {
    hide Attributes, FindChar, EscapeXml, Validate, JudgeBody;
    var wire, header := Encode(codec, r).value, Attributes(codec, r);
    var after := EscapeXml(r.body) + CLOSE;
    assert wire + rest == (OPEN + header) + ['>'] + (after + rest);
    BlockRoundTrip.AttributesClean(codec, r);
    assert '>' !in OPEN + header by { assert '>' !in OPEN; }
    FindCharAfter(OPEN + header, '>', after + rest);
  }

  // The first reminder whose header is too long turns itself and everything behind it into user text.
  lemma FirstOverlongStops(codec: JsonCodec, gaps: seq<string>, rs: seq<SystemReminder>, i: nat)
    requires |gaps| == |rs| + 1 && PlainGaps(gaps) && i < |rs| && i < MAX_REMINDERS
    requires forall j | 0 <= j < |rs| :: Encode(codec, rs[j]).Ok? && codec.Inverts(rs[j])
    requires !HeaderFits(codec, rs[i]) && forall j | 0 <= j < i :: HeaderFits(codec, rs[j])
    requires |Weave(gaps, Raws(Parsed(codec, rs)))| <= MAX_INPUT_BYTES
    ensures ParseMessage(codec, Weave(gaps, Raws(Parsed(codec, rs))), TrustedLegacy) ==
            ParsedText(Concat(gaps[..i]) + Weave(gaps[i..], Raws(Parsed(codec, rs)[i..])), Parsed(codec, rs)[..i], true)
  {
    hide Encode, Recognisable, Attributes, ParseMessage, Scan, Contains;
    var ps := Parsed(codec, rs);
    FittingAreBlocks(codec, rs, i);
    WeaveFirst(gaps[i..], ps[i..]);
    OverlongStops(codec, gaps[i], rs[i], Weave(gaps[i + 1..], Raws(ps[i + 1..])), i);
    UpToParses(codec, gaps, ps, i);
  }

  // The law exactly: any number of encoded reminders in any text free of the tag name come back, with
  // the text, if and only if every header fits, they are at most 64, and the whole fits the input bound.
  lemma EmbeddedExactly(codec: JsonCodec, gaps: seq<string>, rs: seq<SystemReminder>)
    requires |gaps| == |rs| + 1 && PlainGaps(gaps)
    requires forall i | 0 <= i < |rs| :: Encode(codec, rs[i]).Ok? && codec.Inverts(rs[i])
    ensures var text := Weave(gaps, Raws(Parsed(codec, rs)));
            ParseMessage(codec, text, TrustedLegacy) == ParsedText(Concat(gaps), Parsed(codec, rs), false)
            <==> && (forall i | 0 <= i < |rs| :: HeaderFits(codec, rs[i]))
                 && |rs| <= MAX_REMINDERS && |text| <= MAX_INPUT_BYTES
  {
    hide Encode, Recognisable, Attributes, Scan, Weave, Contains;
    var ps := Parsed(codec, rs);
    if |Weave(gaps, Raws(ps))| <= MAX_INPUT_BYTES {
      if i: nat :| i < |rs| && i < MAX_REMINDERS && !HeaderFits(codec, rs[i]) {
        var first := FirstOverlong(codec, rs, i);
        FirstOverlongStops(codec, gaps, rs, first);
      } else if |rs| > MAX_REMINDERS {
        FittingAreBlocks(codec, rs, MAX_REMINDERS);
        EncodedOpens(codec, rs[MAX_REMINDERS]);
        OverfullParses(codec, gaps, ps);
      } else {
        EmbeddedRoundTrips(codec, gaps, rs);
      }
    }
  }

  lemma FirstOverlong(codec: JsonCodec, rs: seq<SystemReminder>, i: nat) returns (first: nat)
    requires i < |rs| && !HeaderFits(codec, rs[i])
    ensures first <= i && !HeaderFits(codec, rs[first]) && forall j | 0 <= j < first :: HeaderFits(codec, rs[j])
    decreases i
  {
    hide HeaderFits;
    if j: nat :| j < i && !HeaderFits(codec, rs[j]) {
      first := FirstOverlong(codec, rs, j);
    } else {
      first := i;
    }
  }

  // One encoded reminder alone: exactly when the header fits, it is read back; when it does not,
  // the text stays and the limit is reported.
  lemma RoundTripExactly(codec: JsonCodec, r: SystemReminder)
    requires Encode(codec, r).Ok? && codec.Inverts(r)
    ensures var wire := Encode(codec, r).value;
            var out := ParseMessage(codec, wire, TrustedLegacy);
            && (out == ParsedText("", [Canonical(codec, r)], false) <==> HeaderFits(codec, r))
            && (!HeaderFits(codec, r) ==> out == ParsedText(wire, [], true))
  {
    hide ParseMessage, Attributes, Contains, Encode;
    var wire := Encode(codec, r).value;
    EncodedSize(codec, r);
    ContainsNone("", OPEN);
    assert Parsed(codec, [r]) == [Canonical(codec, r)];
    AloneWoven(Canonical(codec, r));
    if HeaderFits(codec, r) {
      EmbeddedRoundTrips(codec, ["", ""], [r]);
    } else {
      FirstOverlongStops(codec, ["", ""], [r], 0);
      assert [""] + [""] == ["", ""][0..] && [Canonical(codec, r)][0..] == [Canonical(codec, r)];
    }
  }

  lemma EncodedSize(codec: JsonCodec, r: SystemReminder)
    requires Encode(codec, r).Ok?
    ensures |Encode(codec, r).value| <= MAX_INPUT_BYTES
  {
    hide Attributes, EscapeXml, Validate;
  }

  lemma AloneWoven(p: ParsedReminder)
    ensures Weave(["", ""], Raws([p])) == p.raw && Concat(["", ""]) == "" && Concat(["", ""][..0]) == ""
    ensures ["", ""][0..] == ["", ""] && [p][0..] == [p] && "" + p.raw == p.raw
  {
    assert [p][1..] == [] && ["", ""][1..] == [""] && [""][1..] == [];
    assert Raws([p]) == [p.raw] && [p.raw][1..] == [];
    assert Weave([""], []) == "";
    assert "" + (p.raw + "") == p.raw;
  }

  // ---- the encoder's bound is sixteen bytes too wide: a reminder it accepts and the parser refuses ----

  function Apostrophes(k: nat): string { if k == 0 then "" else ['\''] + Apostrophes(k - 1) }

  lemma {:induction false} ApostrophesLength(k: nat)
    ensures |Apostrophes(k)| == k && |EscapeXml(Apostrophes(k))| == 6 * k
  {
    if k > 0 {
      ApostrophesLength(k - 1);
      EscapeAppend(['\''], Apostrophes(k - 1));
      EscapeOne('\'');
    }
  }

  function Overlong(): SystemReminder {
    SystemReminder(VERSION, Task, "a", "a", Info, Required, [Model], "", Some(Apostrophes(4069)), Obj([]))
  }

  // What the JSON library prints for the three JSON-valued fields of that reminder.
  ghost predicate PrintsPlainly(codec: JsonCodec) {
    && codec.printAudiences([Model]) == ['['] + ['"'] + "model" + ['"'] + [']']
    && codec.printSummary(Some(Apostrophes(4069))) == ['"'] + Apostrophes(4069) + ['"']
    && codec.printMetadata(Obj([])) == "{}"
  }

  lemma AudiencesLength(printed: string)
    requires printed == ['['] + ['"'] + "model" + ['"'] + [']']
    ensures |EscapeXml(printed)| == 19
  {
    hide EscapeXml;
    EscapeAppend(['['] + ['"'] + "model" + ['"'], [']']);
    EscapeAppend(['['] + ['"'] + "model", ['"']);
    EscapeAppend(['['] + ['"'], "model");
    EscapeAppend(['['], ['"']);
    EscapeOne('[');
    EscapeOne('"');
    EscapeOne(']');
    BlockRoundTrip.EscapePlain("model");
  }

  lemma SummaryLength(k: nat)
    ensures |EscapeXml(['"'] + Apostrophes(k) + ['"'])| == 6 * k + 12
  {
    hide EscapeXml, Apostrophes;
    EscapeAppend(['"'] + Apostrophes(k), ['"']);
    EscapeAppend(['"'], Apostrophes(k));
    ApostrophesLength(k);
    EscapeOne('"');
  }

  lemma MetadataLength()
    ensures |EscapeXml("{}")| == 2
  {
    hide EscapeXml;
    EscapeAppend(['{'], ['}']);
    EscapeOne('{');
    EscapeOne('}');
    assert "{}" == ['{'] + ['}'];
  }

  lemma ConcatStep(parts: seq<string>, k: nat)
    requires k < |parts|
    ensures |Concat(parts[k..])| == |parts[k]| + |Concat(parts[k + 1..])|
  {
    assert parts[k..][1..] == parts[k + 1..];
  }

  lemma ThreeSteps(parts: seq<string>, k: nat)
    requires k + 3 <= |parts|
    ensures |Concat(parts[k..])| == |parts[k]| + |parts[k + 1]| + |parts[k + 2]| + |Concat(parts[k + 3..])|
  {
    hide Concat;
    ConcatStep(parts, k);
    ConcatStep(parts, k + 1);
    ConcatStep(parts, k + 2);
  }

  lemma NineLengths(parts: seq<string>)
    requires |parts| == 9
    ensures |Concat(parts)| == |parts[0]| + |parts[1]| + |parts[2]| + |parts[3]| + |parts[4]| + |parts[5]|
                             + |parts[6]| + |parts[7]| + |parts[8]|
  {
    hide Concat;
    ThreeSteps(parts, 0);
    ThreeSteps(parts, 3);
    ThreeSteps(parts, 6);
    assert parts[0..] == parts;
    NoParts(parts[9..]);
  }

  lemma NoParts(parts: seq<string>)
    requires parts == []
    ensures Concat(parts) == ""
  {}

  // With escaped values of these lengths the attributes fall into the gap between the two bounds.
  lemma OverlongAttributes(codec: JsonCodec)
    requires PrintsPlainly(codec)
    ensures |Attributes(codec, Overlong())| == 24567
  {
    hide EscapeXml, Concat, Apostrophes;
    var r := Overlong();
    AudiencesLength(codec.printAudiences(r.audiences));
    SummaryLength(4069);
    MetadataLength();
    BlockRoundTrip.EscapePlain("a");
    NineLengths([
      PrintAttribute("version", Decimal(r.version)),
      PrintAttribute("category", CategoryName(r.category)),
      PrintAttribute("source", EscapeXml(r.source)),
      PrintAttribute("kind", EscapeXml(r.kind)),
      PrintAttribute("severity", SeverityName(r.severity)),
      PrintAttribute("delivery", DeliveryName(r.delivery)),
      PrintAttribute("audiences", EscapeXml(codec.printAudiences(r.audiences))),
      PrintAttribute("summary", EscapeXml(codec.printSummary(r.summary))),
      PrintAttribute("metadata", EscapeXml(codec.printMetadata(r.metadata)))]);
  }

  lemma OverlongValid()
    ensures Validate(Overlong()).Pass? && EscapeXml(Overlong().body) == ""
  {
    hide Apostrophes, Validate, EscapeXml;
    ApostrophesLength(4069);
    BlockRoundTrip.ValidateAcceptance(Overlong());
    BlockRoundTrip.EscapePlain("");
    assert BlockRoundTrip.WellFormed(Overlong());
  }

  lemma OverlongFails(codec: JsonCodec)
    requires PrintsPlainly(codec) && codec.Inverts(Overlong())
    ensures Encode(codec, Overlong()).Ok?
    ensures var wire := Encode(codec, Overlong()).value;
            ParseMessage(codec, wire, TrustedLegacy) == ParsedText(wire, [], true)
  {
    hide Attributes, ParseMessage, Validate, EscapeXml, Overlong, PrintsPlainly;
    OverlongAttributes(codec);
    OverlongValid();
    RoundTripExactly(codec, Overlong());
  }
}
