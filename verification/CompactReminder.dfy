// Legacy compact messages are wrapped in chunks, cut on UTF-8 character boundaries.
module CompactReminder {
  import opened Wrappers
  import opened Text
  import opened XmlEscape
  import opened Reminder
  import opened ReminderCodec
  import opened ReminderMessage
  import opened MessageTheorems
  import opened EmbeddedRoundTrip
  import BlockRoundTrip
  import UnicodeSpace

  const CHUNK_BYTES: nat := 8 * 1024

  // The markers of the historical format, byte by byte.
  const FILE_MARKER: string :=
    "[\U{E6}\U{9C}\U{80}\U{E8}\U{BF}\U{91}\U{E8}\U{AF}\U{BB}" +
    "\U{E5}\U{8F}\U{96}\U{E7}\U{9A}\U{84}\U{E6}\U{96}\U{87}\U{E4}\U{BB}\U{B6}: "
  const SKILL_MARKER: string :=
    "[\U{E6}\U{BF}\U{80}\U{E6}\U{B4}\U{BB}\U{E7}\U{9A}\U{84} Skill " +
    "\U{E6}\U{8C}\U{87}\U{E4}\U{BB}\U{A4}: "
  const CONTINUATION_HINT: string :=
    "[Context" + " has been" + " compacted." + " Continue" + " working" + " based on" + " the" + " summary" + " above.]"

  datatype Message = HumanText(text: string) | OtherMessage

  // ---- UTF-8 structure (section 3 of RFC 3629) ----

  predicate Continuation(c: char) { 0x80 <= Code(c) < 0xC0 }

  function SequenceLength(lead: char): nat {
    if Code(lead) < 0x80 then 1
    else if 0xC2 <= Code(lead) < 0xE0 then 2
    else if 0xE0 <= Code(lead) < 0xF0 then 3
    else if 0xF0 <= Code(lead) < 0xF5 then 4
    else 0
  }

  // s starts with one complete character of n bytes.
  predicate StartsWhole(s: string, n: nat) {
    0 < n <= |s| && n == SequenceLength(s[0]) && forall i | 1 <= i < n :: Continuation(s[i])
  }

  predicate Utf8(s: string)
    decreases |s|
  {
    s == "" || (StartsWhole(s, SequenceLength(s[0])) && Utf8(s[SequenceLength(s[0])..]))
  }

  // str::is_char_boundary.
  predicate Boundary(s: string, i: nat) {
    i == 0 || i == |s| || (i < |s| && !Continuation(s[i]))
  }

  // The text of a list of code points.
  function TextOf(codes: seq<nat>): string
    requires forall i | 0 <= i < |codes| :: codes[i] < 0x110000
  {
    if codes == [] then "" else UnicodeSpace.Utf8Form(codes[0]) + TextOf(codes[1..])
  }

  // Every text is UTF-8 in this sense, and between two of its characters there is a boundary.
  lemma {:induction false} TextsAreUtf8(codes: seq<nat>)
    requires forall i | 0 <= i < |codes| :: codes[i] < 0x110000
    ensures Utf8(TextOf(codes))
  {
    if codes != [] {
      TextsAreUtf8(codes[1..]);
      var form, rest := UnicodeSpace.Utf8Form(codes[0]), TextOf(codes[1..]);
      FormIsWhole(codes[0]);
      hide UnicodeSpace.Utf8Form, TextOf;
      assert (form + rest)[|form|..] == rest;
      assert forall i | 0 <= i < |form| :: (form + rest)[i] == form[i];
    }
  }

  lemma FormIsWhole(code: nat)
    requires code < 0x110000
    ensures var form := UnicodeSpace.Utf8Form(code); StartsWhole(form, |form|)
  {}

  lemma {:induction false} BoundaryOfTexts(front: seq<nat>, back: seq<nat>)
    requires forall i | 0 <= i < |front| :: front[i] < 0x110000
    requires forall i | 0 <= i < |back| :: back[i] < 0x110000
    ensures Boundary(TextOf(front) + TextOf(back), |TextOf(front)|)
  {
    if back != [] {
      FormIsWhole(back[0]);
      var s := TextOf(front) + TextOf(back);
      assert s[|TextOf(front)|] == UnicodeSpace.Utf8Form(back[0])[0];
    }
  }

  lemma InsideIsNoBoundary(s: string, n: nat, i: nat)
    requires StartsWhole(s, n)
    ensures 0 < i < n ==> !Boundary(s, i)
  {
    if 0 < i < n { assert Continuation(s[i]); }
  }

  lemma {:induction false} SplitAtBoundary(s: string, i: nat)
    requires Utf8(s) && i <= |s| && Boundary(s, i)
    ensures Utf8(s[..i]) && Utf8(s[i..])
    decreases |s|
  {
    if i == 0 {
      assert s[0..] == s;
    } else {
      var n := SequenceLength(s[0]);
      InsideIsNoBoundary(s, n, i);
      var tail := s[n..];
      assert i < |s| ==> tail[i - n] == s[i];
      SplitAtBoundary(tail, i - n);
      assert tail[i - n..] == s[i..];
      assert s[..i][n..] == tail[..i - n];
      assert s[..i][0] == s[0];
    }
  }

  // A boundary is never more than three bytes away.
  lemma {:induction false} BoundaryNear(s: string, end: nat) returns (b: nat)
    requires Utf8(s) && end <= |s|
    ensures b <= end <= b + 3 && Boundary(s, b)
    decreases |s|
  {
    if s == "" {
      b := 0;
    } else {
      var n := SequenceLength(s[0]);
      if end < n {
        b := 0;
      } else {
        var t := BoundaryNear(s[n..], end - n);
        b := t + n;
        if 0 < t < |s[n..]| {
          assert s[n..][t] == s[b];
        } else if t == 0 && n < |s| {
          assert StartsWhole(s[n..], SequenceLength(s[n..][0]));
          assert s[n..][0] == s[n];
        }
      }
    }
  }

  // The last boundary at or before end: what stepping back byte by byte finds.
  function BoundaryAtOrBefore(s: string, end: nat): (b: nat)
    requires end <= |s|
    ensures b <= end && Boundary(s, b)
    ensures forall j | b < j <= end :: !Boundary(s, j)
  {
    if Boundary(s, end) then end else BoundaryAtOrBefore(s, end - 1)
  }

  function ChunkEnd(s: string): (end: nat)
    ensures end <= |s| && end <= CHUNK_BYTES
  {
    BoundaryAtOrBefore(s, if |s| < CHUNK_BYTES then |s| else CHUNK_BYTES)
  }

  lemma ChunkEndAdvances(s: string)
    requires Utf8(s)
    ensures |s| <= CHUNK_BYTES ==> ChunkEnd(s) == |s|
    ensures |s| > CHUNK_BYTES ==> CHUNK_BYTES - 3 <= ChunkEnd(s)
    ensures Utf8(s[..ChunkEnd(s)]) && Utf8(s[ChunkEnd(s)..])
  {
    var limit := if |s| < CHUNK_BYTES then |s| else CHUNK_BYTES;
    var b := BoundaryNear(s, limit);
    assert !(ChunkEnd(s) < b <= limit);
    SplitAtBoundary(s, ChunkEnd(s));
  }

  function Chunks(s: string): seq<string>
    requires Utf8(s)
    decreases |s|
  {
    if s == "" then []
    else
      ChunkEndAdvances(s);
      [s[..ChunkEnd(s)]] + Chunks(s[ChunkEnd(s)..])
  }

  // A chunk is a whole UTF-8 text of at most 8 KiB, not empty.
  predicate GoodChunk(c: string) { 0 < |c| <= 8 * 1024 && Utf8(c) }

  // Nothing is lost: every chunk is good, all but the last are within three bytes of full, and
  // together they are the message.
  lemma {:induction false} ChunksPartition(s: string)
    requires Utf8(s)
    ensures Concat(Chunks(s)) == s
    ensures forall i | 0 <= i < |Chunks(s)| :: GoodChunk(Chunks(s)[i])
    ensures forall i | 0 <= i < |Chunks(s)| - 1 :: 8 * 1024 - 3 <= |Chunks(s)[i]|
    decreases |s|
  {
    hide Utf8, ChunkEnd, GoodChunk;
    if s != "" {
      ChunkEndAdvances(s);
      var end := ChunkEnd(s);
      ChunksPartition(s[end..]);
      assert s == s[..end] + s[end..];
      FirstChunkGood(s);
      if |s| <= CHUNK_BYTES { assert s[end..] == ""; }
    }
  }

  lemma FirstChunkGood(s: string)
    requires Utf8(s) && s != ""
    ensures GoodChunk(s[..ChunkEnd(s)])
  {
    ChunkEndAdvances(s);
  }

  // ---- recognising the format ----

  predicate Marked(header: string, marker: string) {
    && marker <= header
    && |header| > |marker|
    && header[|header| - 1] == ']'
    && Trim(header[|marker|..|header| - 1]) != ""
  }

  function CompactKind(text: string): Option<string> {
    var newline :- FindChar(text, '\n');
    var header := text[..newline];
    if Marked(header, FILE_MARKER) then Some("compact_file")
    else if Marked(header, SKILL_MARKER) then Some("compact_skill")
    else if header == CONTINUATION_HINT then Some("compact_summary")
    else None
  }

  lemma HeaderOf(header: string, body: string)
    requires '\n' !in header
    ensures var text := header + ['\n'] + body;
            FindChar(text, '\n') == Some(|header|) && text[..|header|] == header
  {
    FindCharAfter(header, '\n', body);
  }

  lemma MarkedHeader(marker: string, subject: string)
    requires Trim(subject) != ""
    ensures Marked(marker + subject + "]", marker)
  {
    var header := marker + subject + "]";
    assert header[|marker|..|header| - 1] == subject;
  }

  // The three historical headers are recognised, each as its own kind, whatever follows them.
  lemma FormatsRecognised(subject: string, body: string)
    requires '\n' !in subject && Trim(subject) != ""
    ensures CompactKind(FILE_MARKER + subject + "]" + ['\n'] + body) == Some("compact_file")
    ensures CompactKind(SKILL_MARKER + subject + "]" + ['\n'] + body) == Some("compact_skill")
    ensures CompactKind(CONTINUATION_HINT + ['\n'] + body) == Some("compact_summary")
  {
    hide Trim, FindChar, Marked;
    MarkersOneLine();
    HeaderOf(FILE_MARKER + subject + "]", body);
    MarkedHeader(FILE_MARKER, subject);
    HeaderOf(SKILL_MARKER + subject + "]", body);
    MarkedHeader(SKILL_MARKER, subject);
    HeaderOf(CONTINUATION_HINT, body);
    MarkersDiffer(subject);
  }

  // A text of one of the two marked kinds: a first line of marker, subject and bracket.
  ghost predicate MarkedText(text: string, marker: string) {
    exists subject, body :: MarkedAs(text, marker, subject, body)
  }

  ghost predicate MarkedAs(text: string, marker: string, subject: string, body: string) {
    text == marker + subject + "]" + ['\n'] + body && '\n' !in subject && Trim(subject) != ""
  }

  ghost predicate HintText(text: string) { exists body :: text == CONTINUATION_HINT + ['\n'] + body }

  // These are the only texts that are recognised.
  lemma RecognisedExactly(text: string)
    ensures CompactKind(text) == if MarkedText(text, FILE_MARKER) then Some("compact_file")
                                 else if MarkedText(text, SKILL_MARKER) then Some("compact_skill")
                                 else if HintText(text) then Some("compact_summary")
                                 else None
  {
    hide Trim, FindChar, Marked;
    if subject, body :| MarkedAs(text, FILE_MARKER, subject, body) {
      FormatsRecognised(subject, body);
    } else if subject, body :| MarkedAs(text, SKILL_MARKER, subject, body) {
      FormatsRecognised(subject, body);
    } else if body :| text == CONTINUATION_HINT + ['\n'] + body {
      HintRecognised(body);
    } else if CompactKind(text).Some? {
      HeaderSplits(text);
      var header := text[..FindChar(text, '\n').value];
      if Marked(header, FILE_MARKER) { MarkedIsText(text, FILE_MARKER); }
      if Marked(header, SKILL_MARKER) { MarkedIsText(text, SKILL_MARKER); }
    }
  }

  lemma HintRecognised(body: string)
    ensures CompactKind(CONTINUATION_HINT + ['\n'] + body) == Some("compact_summary")
  {
    hide Trim, FindChar, Marked;
    MarkersOneLine();
    HeaderOf(CONTINUATION_HINT, body);
    MarkersDiffer("");
  }

  lemma HeaderSplits(text: string)
    requires FindChar(text, '\n').Some?
    ensures var n := FindChar(text, '\n').value;
            '\n' !in text[..n] && text == text[..n] + ['\n'] + text[n + 1..]
  {
    FindCharSpec(text, '\n');
  }

  lemma MarkedIsText(text: string, marker: string)
    requires FindChar(text, '\n').Some? && Marked(text[..FindChar(text, '\n').value], marker)
    ensures MarkedText(text, marker)
  {
    hide Trim, FindChar, Marked;
    HeaderSplits(text);
    var n := FindChar(text, '\n').value;
    var subject := MarkedHeaderParts(text[..n], marker);
    assert MarkedAs(text, marker, subject, text[n + 1..]);
  }

  lemma MarkedHeaderParts(header: string, marker: string) returns (subject: string)
    requires Marked(header, marker) && '\n' !in header
    ensures header == marker + subject + "]" && '\n' !in subject && Trim(subject) != ""
  {
    hide Trim;
    subject := header[|marker|..|header| - 1];
    assert header == marker + subject + "]";
    forall c | c in subject ensures c in header {}
  }

  lemma MarkersOneLine()
    ensures '\n' !in FILE_MARKER && '\n' !in SKILL_MARKER && '\n' !in CONTINUATION_HINT
  {}

  lemma MarkersDiffer(subject: string)
    ensures !Marked(SKILL_MARKER + subject + "]", FILE_MARKER)
    ensures !Marked(CONTINUATION_HINT, FILE_MARKER) && !Marked(CONTINUATION_HINT, SKILL_MARKER)
  {
    hide Trim;
    assert FILE_MARKER[1] != SKILL_MARKER[1] || FILE_MARKER[2] != SKILL_MARKER[2];
    assert CONTINUATION_HINT[1] == 'C' && FILE_MARKER[1] != 'C' && SKILL_MARKER[1] != 'C';
    assert (SKILL_MARKER + subject + "]")[1] == SKILL_MARKER[1];
    assert (SKILL_MARKER + subject + "]")[2] == SKILL_MARKER[2];
  }

  function CompactOf(kind: string, body: string): SystemReminder {
    LegacyReminder(body).(kind := kind)
  }

  function Wrapped(kind: string, chunks: seq<string>): (rs: seq<SystemReminder>)
    ensures |rs| == |chunks| && forall i | 0 <= i < |rs| :: rs[i] == CompactOf(kind, chunks[i])
  {
    seq(|chunks|, i requires 0 <= i < |chunks| => CompactOf(kind, chunks[i]))
  }

  ghost predicate ValidText(m: Message) { m.HumanText? ==> Utf8(m.text) }

  ghost function CompactReminders(m: Message): seq<SystemReminder>
    requires ValidText(m)
  {
    if m.HumanText? && CompactKind(m.text).Some? then Wrapped(CompactKind(m.text).value, Chunks(m.text)) else []
  }

  // The inner loop: steps back to a character boundary.
  method FindChunkEnd(remainder: string) returns (end: nat)
    ensures end == ChunkEnd(remainder)
  {
    end := if |remainder| < CHUNK_BYTES then |remainder| else CHUNK_BYTES;
    while !Boundary(remainder, end)
      invariant end <= |remainder|
      invariant BoundaryAtOrBefore(remainder, end) == ChunkEnd(remainder)
      decreases end
    {
      end := end - 1;
    }
  }

  lemma WrappedSnoc(kind: string, chunks: seq<string>, last: string)
    ensures Wrapped(kind, chunks + [last]) == Wrapped(kind, chunks) + [CompactOf(kind, last)]
  {
    hide CompactOf;
  }

  // The chunking loop.
  method LegacyCompactReminders(m: Message) returns (reminders: seq<SystemReminder>)
    requires ValidText(m)
    ensures reminders == CompactReminders(m)
  {
    hide Utf8, CompactKind, CompactOf, ChunkEnd, Wrapped;
    reminders := [];
    if !m.HumanText? { return; }
    var kind := CompactKind(m.text);
    if kind.None? { return; }
    var remainder := m.text;
    ghost var done := [];
    NothingWrapped(kind.value);
    while remainder != ""
      invariant Utf8(remainder)
      invariant Chunks(m.text) == done + Chunks(remainder)
      invariant reminders == Wrapped(kind.value, done)
      decreases |remainder|
    {
      var end := FindChunkEnd(remainder);
      ChunkEndAdvances(remainder);
      var body := remainder[..end];
      WrappedSnoc(kind.value, done, body);
      reminders := reminders + [CompactOf(kind.value, body)];
      assert done + ([body] + Chunks(remainder[end..])) == done + [body] + Chunks(remainder[end..]);
      done := done + [body];
      remainder := remainder[end..];
    }
    assert done + [] == done;
  }

  lemma NothingWrapped(kind: string)
    ensures Wrapped(kind, []) == []
  {}

  // ---- the pipeline ----

  // Every chunk passes validation and fits the legacy encoder, however much escaping expands it.
  lemma ChunkEncodes(kind: string, chunk: string)
    requires ValidIdentifier(kind) && |chunk| <= CHUNK_BYTES
    ensures Validate(CompactOf(kind, chunk)).Pass?
    ensures EncodeLegacy(chunk).Ok? && |EncodeLegacy(chunk).value| <= 6 * |chunk| + 35
  {
    BlockRoundTrip.ValidateAcceptance(CompactOf(kind, chunk));
    EscapeClean(chunk);
  }

  lemma KindsAreIdentifiers(text: string)
    requires CompactKind(text).Some?
    ensures ValidIdentifier(CompactKind(text).value)
  {
    hide Marked, FindChar;
    assert ValidIdentifier("compact_file");
    assert ValidIdentifier("compact_skill");
    assert ValidIdentifier("compact_summary");
  }

  // A chunk wrapped by the legacy encoder reads back as exactly the chunk.
  lemma ChunkRoundTrips(codec: JsonCodec, chunk: string)
    requires |chunk| <= CHUNK_BYTES
    ensures EncodeLegacy(chunk).Ok?
    ensures ParseMessage(codec, EncodeLegacy(chunk).value, TrustedLegacy) ==
            ParsedText("", [LegacyBlock(chunk)], false)
  {
    hide EncodeLegacy, Validate, ParseMessage;
    ChunkEncodes("a", chunk);
    assert LegacyBlocks([chunk]) == [LegacyBlock(chunk)];
    AloneWoven(LegacyBlock(chunk));
    ContainsNone("", OPEN);
    LegacyRoundTrips(codec, ["", ""], [chunk]);
  }

  // The reminders made from a recognised message carry its chunks in order; each is valid.
  lemma PipelineKeepsText(m: Message)
    requires ValidText(m) && m.HumanText? && CompactKind(m.text).Some?
    ensures var rs := CompactReminders(m);
            && |rs| == |Chunks(m.text)|
            && (forall i | 0 <= i < |rs| ::
                  && rs[i] == SystemReminder(1, Legacy, "legacy", CompactKind(m.text).value, Info, Configurable,
                                             [Model, Tui], Chunks(m.text)[i], None, Obj([]))
                  && Validate(rs[i]).Pass?)
            && Concat(Chunks(m.text)) == m.text
  {
    hide Validate, CompactKind, Utf8;
    ChunksPartition(m.text);
    KindsAreIdentifiers(m.text);
    var rs := CompactReminders(m);
    forall i | 0 <= i < |rs|
      ensures rs[i] == CompactOf(CompactKind(m.text).value, Chunks(m.text)[i]) && Validate(rs[i]).Pass?
    {
      assert GoodChunk(Chunks(m.text)[i]);
      ChunkEncodes(CompactKind(m.text).value, Chunks(m.text)[i]);
    }
  }

  function BodyOf(p: ParsedReminder): string { if p.reminder.Some? then p.reminder.value.body else "" }

  function Bodies(ps: seq<ParsedReminder>): seq<string> {
    seq(|ps|, i requires 0 <= i < |ps| => BodyOf(ps[i]))
  }

  lemma BodiesOfBlocks(chunks: seq<string>)
    requires forall i | 0 <= i < |chunks| :: |chunks[i]| <= CHUNK_BYTES
    ensures Bodies(LegacyBlocks(chunks)) == chunks
  {
    hide EncodeLegacy;
    var ps := LegacyBlocks(chunks);
    forall i | 0 <= i < |ps| ensures BodyOf(ps[i]) == chunks[i] {}
  }

  function LegacyBlocks(chunks: seq<string>): (ps: seq<ParsedReminder>)
    requires forall i | 0 <= i < |chunks| :: |chunks[i]| <= CHUNK_BYTES
    ensures |ps| == |chunks|
    ensures forall i | 0 <= i < |ps| :: EncodeLegacy(chunks[i]).Ok? && ps[i] == LegacyBlock(chunks[i])
  {
    if chunks == [] then []
    else
      ChunkEncodes("a", chunks[0]);
      [LegacyBlock(chunks[0])] + LegacyBlocks(chunks[1..])
  }

  // Up to 64 chunks, wrapped and written into text free of the tag name, come back in order.
  lemma LegacyRoundTrips(codec: JsonCodec, gaps: seq<string>, chunks: seq<string>)
    requires forall i | 0 <= i < |chunks| :: |chunks[i]| <= CHUNK_BYTES
    requires |gaps| == |chunks| + 1 && PlainGaps(gaps) && |chunks| <= MAX_REMINDERS
    requires |Weave(gaps, Raws(LegacyBlocks(chunks)))| <= MAX_INPUT_BYTES
    ensures ParseMessage(codec, Weave(gaps, Raws(LegacyBlocks(chunks))), TrustedLegacy) ==
            ParsedText(Concat(gaps), LegacyBlocks(chunks), false)
  {
    hide Recognisable, EncodeLegacy, ParseMessage, Weave, Raws, LegacyBlock;
    var ps := LegacyBlocks(chunks);
    forall i | 0 <= i < |ps| ensures Recognisable(codec, ps[i]) { LegacyIsBlock(codec, chunks[i]); }
    WovenParses(codec, gaps, ps, TrustedLegacy);
  }
}
