// What the message scanner guarantees for every input, and the embedded round trip.
module MessageTheorems {
  import opened Wrappers
  import opened Text
  import opened XmlEscape
  import opened Reminder
  import opened ReminderCodec
  import opened ReminderMessage
  import BlockRoundTrip

  // ---- what makes a block ----

  // A block is recognised exactly for texts of this shape, with these limits.
  predicate BlockOf(codec: JsonCodec, header: string, body: string, p: ParsedReminder) {
    && p.raw == OPEN + header + ">" + body + CLOSE
    && '>' !in header
    && (header == "" || LeadingSpace(header) > 0)
    && !Contains(body, CLOSE)
    && |OPEN| + |header| <= MAX_ATTRIBUTE_BYTES
    && |body| <= MAX_BODY_BYTES * 6
    && |p.raw| <= MAX_WIRE_BYTES + 1
    && ParseBlock(codec, header, body, p.raw) == Some(p)
  }

  ghost predicate Recognisable(codec: JsonCodec, p: ParsedReminder) {
    exists header, body :: BlockOf(codec, header, body, p)
  }

  lemma ContainsPrefix(s: string, n: nat, p: string)
    requires n <= |s| && p != ""
    requires forall j: nat :: j < n ==> !At(s, p, j)
    ensures !Contains(s[..n], p)
  {
    forall i: nat | i < n + 1 ensures !At(s[..n], p, i) {
      if i < n {
        assert !At(s, p, i);
        assert i + |p| <= n ==> s[..n][i..i + |p|] == s[i..i + |p|];
      }
    }
  }

  lemma SliceOfCandidate(candidate: string, openEnd: nat, closeAt: nat)
    requires At(candidate, OPEN, 0) && |OPEN| <= openEnd < |candidate| && candidate[openEnd] == '>'
    requires openEnd + 1 + closeAt + |CLOSE| <= |candidate|
    requires At(candidate[openEnd + 1..], CLOSE, closeAt)
    ensures candidate[..openEnd + 1 + closeAt + |CLOSE|] ==
            OPEN + candidate[|OPEN|..openEnd] + ">" + candidate[openEnd + 1..][..closeAt] + CLOSE
  {
    var after := candidate[openEnd + 1..];
    assert candidate[..|OPEN|] == OPEN;
    assert after[closeAt..closeAt + |CLOSE|] == CLOSE;
    assert candidate[..openEnd] == OPEN + candidate[|OPEN|..openEnd];
    assert candidate[..openEnd + 1] == candidate[..openEnd] + ">";
    assert after[..closeAt + |CLOSE|] == after[..closeAt] + CLOSE;
    assert candidate[..openEnd + 1 + closeAt + |CLOSE|] == candidate[..openEnd + 1] + after[..closeAt + |CLOSE|];
  }

  // Whatever the scanner takes is a block of that shape, and `raw` is the text it was cut from.
  lemma JudgeTakes(codec: JsonCodec, candidate: string)
    requires At(candidate, OPEN, 0)
    ensures var v := Judge(codec, candidate);
            v.Take? ==> Recognisable(codec, v.parsed) && v.parsed.raw == candidate[..v.n]
  {
    hide ParseBlock, Find, FindChar, LeadingSpace;
    var v := Judge(codec, candidate);
    if v.Take? {
      var openEnd := FindChar(candidate, '>').value;
      FindCharSpec(candidate, '>');
      OpenHasNoClose(candidate, openEnd);
      var header := candidate[|OPEN|..openEnd];
      assert '>' !in header by {
        assert forall i | 0 <= i < |header| :: header[i] == candidate[..openEnd][i + |OPEN|];
      }
      var after := candidate[openEnd + 1..];
      var closeAt := Find(after, CLOSE).value;
      FindSpec(after, CLOSE);
      var body := after[..closeAt];
      ContainsPrefix(after, closeAt, CLOSE);
      SliceOfCandidate(candidate, openEnd, closeAt);
      ParseBlockRaw(codec, header, body, candidate[..v.n]);
      assert BlockOf(codec, header, body, v.parsed);
    }
  }

  lemma BlockSlices(header: string, body: string, rest: string)
    ensures var candidate := OPEN + header + ">" + body + CLOSE + rest;
            var openEnd := |OPEN| + |header|;
            && candidate == (OPEN + header) + ['>'] + (body + CLOSE + rest)
            && candidate[..|OPEN|] == OPEN && candidate[|OPEN|..openEnd] == header
            && candidate[openEnd + 1..] == body + CLOSE + rest
            && (body + CLOSE + rest)[..|body|] == body
  {}

  lemma BodyIsTaken(codec: JsonCodec, candidate: string, openEnd: nat, header: string, body: string,
                    p: ParsedReminder, rest: string)
    requires openEnd < |candidate| && candidate[openEnd + 1..] == body + CLOSE + rest
    requires openEnd + 1 + |body| + |CLOSE| == |p.raw| && |p.raw| <= |candidate| && candidate[..|p.raw|] == p.raw
    requires BlockOf(codec, header, body, p)
    ensures JudgeBody(codec, candidate, header, openEnd) == Take(|p.raw|, p)
  {
    hide ParseBlock, Find, LeadingSpace, Contains;
    assert CLOSE[0] !in CLOSE[1..];
    FindAfterGap(body, CLOSE, rest);
    assert (body + CLOSE + rest)[..|body|] == body;
  }

  // And every block of that shape is taken, whatever follows it.
  lemma BlockIsTaken(codec: JsonCodec, header: string, body: string, p: ParsedReminder, rest: string)
    requires BlockOf(codec, header, body, p)
    ensures At(p.raw + rest, OPEN, 0)
    ensures Judge(codec, p.raw + rest) == Take(|p.raw|, p)
  {
    hide ParseBlock, Find, FindChar, LeadingSpace, Contains, JudgeBody;
    var candidate := p.raw + rest;
    BlockSlices(header, body, rest);
    assert '>' !in OPEN + header by { assert '>' !in OPEN; }
    FindCharAfter(OPEN + header, '>', body + CLOSE + rest);
    assert candidate[..|p.raw|] == p.raw;
    BodyIsTaken(codec, candidate, |OPEN| + |header|, header, body, p, rest);
  }

  // ---- every input: nothing is lost, nothing is invented ----

  lemma {:induction false} ScanConserves(codec: JsonCodec, rest: string, found: nat)
    requires found <= MAX_REMINDERS
    ensures var cut := Scan(codec, rest, found);
            && UserText(cut.pieces, PreserveUntrusted) == rest
            && found + |Blocks(cut.pieces)| <= MAX_REMINDERS
            && (forall p | p in Blocks(cut.pieces) :: Recognisable(codec, p))
    decreases |rest|
  {
    hide Judge, Find, At, UserText, Blocks, Recognisable;
    var mode := PreserveUntrusted;
    var at := Find(rest, OPEN);
    if at.None? {
      ScanNone(codec, rest, found);
      OnePiece(Kept(rest), mode);
    } else if found == MAX_REMINDERS {
      ScanFull(codec, rest, found);
      OnePiece(Kept(rest), mode);
    } else {
      var start := at.value;
      FindOpens(rest, start);
      var candidate := rest[start..];
      JudgeTakes(codec, candidate);
      match Judge(codec, candidate) {
        case KeepAll(limit) =>
          ScanStops(codec, rest, found, start, limit);
          OnePiece(Kept(rest), mode);
        case Skip(n) =>
          ScanSkips(codec, rest, found, start, n);
          ScanConserves(codec, rest[start + n..], found);
          SkipConserves(rest, start + n, Scan(codec, rest[start + n..], found).pieces);
        case Take(n, p) =>
          ScanTakes(codec, rest, found, start, n, p);
          ScanConserves(codec, rest[start + n..], found + 1);
          TakeConserves(rest, start, n, p, Scan(codec, rest[start + n..], found + 1).pieces);
      }
    }
  }

  lemma SkipConserves(rest: string, end: nat, tail: seq<Piece>)
    requires end <= |rest| && UserText(tail, PreserveUntrusted) == rest[end..]
    ensures UserText([Kept(rest[..end])] + tail, PreserveUntrusted) == rest
    ensures Blocks([Kept(rest[..end])] + tail) == Blocks(tail)
  {
    hide UserText, Blocks;
    PiecesAppend([Kept(rest[..end])], tail, PreserveUntrusted);
    OnePiece(Kept(rest[..end]), PreserveUntrusted);
    assert rest[..end] + rest[end..] == rest;
  }

  lemma TakeConserves(rest: string, start: nat, n: nat, p: ParsedReminder, tail: seq<Piece>)
    requires start + n <= |rest| && p.raw == rest[start..][..n]
    requires UserText(tail, PreserveUntrusted) == rest[start + n..]
    ensures UserText([Kept(rest[..start]), Block(p)] + tail, PreserveUntrusted) == rest
    ensures Blocks([Kept(rest[..start]), Block(p)] + tail) == [p] + Blocks(tail)
  {
    hide UserText, Blocks;
    var front := [Kept(rest[..start]), Block(p)];
    assert front == [Kept(rest[..start])] + [Block(p)];
    PiecesAppend([Kept(rest[..start])], [Block(p)], PreserveUntrusted);
    PiecesAppend(front, tail, PreserveUntrusted);
    OnePiece(Kept(rest[..start]), PreserveUntrusted);
    OnePiece(Block(p), PreserveUntrusted);
    Advance("", rest, start, n);
    assert "" + rest[..start] + rest[start..][..n] == rest[..start] + p.raw;
    assert "" + rest[..start + n] == rest[..start + n];
    assert rest[..start + n] + rest[start + n..] == rest;
  }

  // Interleaving of n + 1 gaps with n raw blocks.
  function Weave(gaps: seq<string>, raws: seq<string>): string
    requires |gaps| == |raws| + 1
    decreases |raws|
  {
    if raws == [] then gaps[0] else gaps[0] + (raws[0] + Weave(gaps[1..], raws[1..]))
  }

  function Raws(ps: seq<ParsedReminder>): (r: seq<string>)
    ensures |r| == |ps|
  {
    if ps == [] then [] else [ps[0].raw] + Raws(ps[1..])
  }

  // The text between the blocks.
  function Gaps(pieces: seq<Piece>): (g: seq<string>)
    ensures |g| == |Blocks(pieces)| + 1
  {
    if pieces == [] then [""]
    else
      var g := Gaps(pieces[1..]);
      match pieces[0]
      case Kept(text) => [text + g[0]] + g[1..]
      case Block(_) => [""] + g
  }

  lemma KeepWeaves(text: string, g: seq<string>, raws: seq<string>)
    requires |g| == |raws| + 1
    ensures Concat([text + g[0]] + g[1..]) == text + Concat(g)
    ensures Weave([text + g[0]] + g[1..], raws) == text + Weave(g, raws)
  {
    hide Concat;
    var gaps := [text + g[0]] + g[1..];
    assert gaps[1..] == g[1..];
    ConcatFirst(gaps);
    ConcatFirst(g);
    Regroup(text, g[0], Concat(g[1..]));
    if raws != [] { Regroup(text, g[0], raws[0] + Weave(g[1..], raws[1..])); }
  }

  lemma ConcatFirst(parts: seq<string>)
    requires parts != []
    ensures Concat(parts) == parts[0] + Concat(parts[1..])
  {}

  lemma Regroup(a: string, b: string, c: string)
    ensures (a + b) + c == a + (b + c)
  {}

  lemma BlockWeaves(raw: string, g: seq<string>, raws: seq<string>)
    requires |g| == |raws| + 1
    ensures Concat([""] + g) == Concat(g)
    ensures Weave([""] + g, [raw] + raws) == raw + Weave(g, raws)
  {
    var gaps := [""] + g;
    assert gaps[1..] == g && ([raw] + raws)[1..] == raws;
  }

  lemma {:induction false} GapsRebuild(pieces: seq<Piece>)
    ensures Concat(Gaps(pieces)) == UserText(pieces, TrustedLegacy)
    ensures Weave(Gaps(pieces), Raws(Blocks(pieces))) == UserText(pieces, PreserveUntrusted)
  {
    hide Weave, Concat;
    if pieces == [] {
      NoGaps();
    } else {
      var tail := pieces[1..];
      GapsRebuild(tail);
      match pieces[0]
      case Kept(text) =>
        KeepWeaves(text, Gaps(tail), Raws(Blocks(tail)));
        assert Blocks(pieces) == Blocks(tail);
      case Block(p) =>
        BlockWeaves(p.raw, Gaps(tail), Raws(Blocks(tail)));
        assert Blocks(pieces)[1..] == Blocks(tail);
    }
  }

  lemma NoGaps()
    ensures Concat([""]) == "" && Weave([""], []) == ""
  {
    assert [""][1..] == [];
  }

  // Untrusted text comes through untouched, whatever it contains.
  lemma PreserveKeepsText(codec: JsonCodec, text: string)
    ensures ParseMessage(codec, text, PreserveUntrusted).userText == text
  {
    ScanConserves(codec, text, 0);
  }

  // Trusted text loses its recognised blocks and nothing else: putting the raw blocks back between
  // the right gaps rebuilds the input.
  lemma TrustedRebuilds(codec: JsonCodec, text: string) returns (gaps: seq<string>)
    ensures var out := ParseMessage(codec, text, TrustedLegacy);
            && |gaps| == |out.reminders| + 1
            && Concat(gaps) == out.userText
            && Weave(gaps, Raws(out.reminders)) == text
  {
    if |text| > MAX_INPUT_BYTES {
      gaps := [text];
      assert gaps[1..] == [];
    } else {
      ScanConserves(codec, text, 0);
      var pieces := Scan(codec, text, 0).pieces;
      GapsRebuild(pieces);
      gaps := Gaps(pieces);
    }
  }

  // In either mode at most 64 reminders come back, and each is a block of the recognised shape.
  lemma ParsedAreBlocks(codec: JsonCodec, text: string, mode: Mode)
    ensures var out := ParseMessage(codec, text, mode);
            |out.reminders| <= MAX_REMINDERS && forall p | p in out.reminders :: Recognisable(codec, p)
  {
    ScanConserves(codec, text, 0);
  }

  // What a parsed reminder can claim: legacy text is only ever the fixed legacy reminder, canonical
  // text is a valid reminder, and a version from the future carries no reminder at all.
  predicate ClaimsNoMoreThanItShows(p: ParsedReminder) {
    match p.provenance
    case LegacyText =>
      p.reminder.Some? && p.reminder.value == LegacyReminder(p.reminder.value.body)
      && Validate(p.reminder.value).Pass?
    case UntrustedCanonicalText => p.reminder.Some? && Validate(p.reminder.value).Pass?
    case OpaqueFutureVersion => p.reminder.None?
  }

  lemma LegacyValid(body: string)
    ensures Validate(LegacyReminder(body)).Pass? <==> |body| <= MAX_BODY_BYTES
  {
    BlockRoundTrip.ValidateAcceptance(LegacyReminder(body));
  }

  lemma ParsedClaims(codec: JsonCodec, text: string, mode: Mode)
    ensures forall p | p in ParseMessage(codec, text, mode).reminders :: ClaimsNoMoreThanItShows(p)
  {
    ParsedAreBlocks(codec, text, mode);
    forall p | p in ParseMessage(codec, text, mode).reminders ensures ClaimsNoMoreThanItShows(p) {
      var header, body :| BlockOf(codec, header, body, p);
      if p.reminder.Some? { LegacyValid(p.reminder.value.body); }
      BlockClaims(codec, header, body, p);
    }
  }

  lemma BlockClaims(codec: JsonCodec, header: string, body: string, p: ParsedReminder)
    requires ParseBlock(codec, header, body, p.raw) == Some(p)
    ensures ClaimsNoMoreThanItShows(p)
  {
    hide ParseAttributes, ParseFields, Validate, UnescapeXml, Trim;
    if Trim(header) == "" { LegacyValid(UnescapeXml(body).value); }
  }
}
