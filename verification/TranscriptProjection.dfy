// How the transcript shows a legacy compact message to the model: its chunks, each wrapped as a legacy
// reminder, one to a line.
module TranscriptProjection {
  import opened Wrappers
  import opened Text
  import opened XmlEscape
  import opened Reminder
  import opened ReminderCodec
  import opened ReminderMessage
  import opened MessageTheorems
  import opened EmbeddedRoundTrip
  import opened CompactReminder
  import BlockRoundTrip

  // Encoding stops at the first error.
  function EncodeAll(rs: seq<SystemReminder>): Result<seq<string>, CodecError> {
    if rs == [] then Ok([])
    else
      match EncodeLegacy(rs[0].body)
      case Err(e) => Err(e)
      case Ok(wire) =>
        match EncodeAll(rs[1..])
        case Err(e) => Err(e)
        case Ok(wires) => Ok([wire] + wires)
  }

  function JoinLines(parts: seq<string>): string {
    if parts == [] then ""
    else if |parts| == 1 then parts[0]
    else parts[0] + ("\n" + JoinLines(parts[1..]))
  }

  // A message that is not recognised is shown as it is.
  ghost function ProjectMessage(m: Message): Result<Message, CodecError>
    requires ValidText(m)
  {
    var reminders := CompactReminders(m);
    if reminders == [] then Ok(m)
    else
      match EncodeAll(reminders)
      case Err(e) => Err(e)
      case Ok(wires) => Ok(HumanText(JoinLines(wires)))
  }

  // ---- encoding never fails ----

  lemma {:induction false} WrappedEncode(kind: string, chunks: seq<string>)
    requires forall i | 0 <= i < |chunks| :: |chunks[i]| <= CHUNK_BYTES
    ensures EncodeAll(Wrapped(kind, chunks)) == Ok(Raws(LegacyBlocks(chunks)))
  {
    hide EncodeLegacy;
    if chunks != [] {
      ChunkEncodes("a", chunks[0]);
      WrappedEncode(kind, chunks[1..]);
      assert Wrapped(kind, chunks)[1..] == Wrapped(kind, chunks[1..]);
      assert LegacyBlocks(chunks)[1..] == LegacyBlocks(chunks[1..]);
    }
  }

  lemma ChunksSized(text: string)
    requires Utf8(text)
    ensures text != "" ==> Chunks(text) != []
    ensures forall i | 0 <= i < |Chunks(text)| :: |Chunks(text)[i]| <= CHUNK_BYTES
  {
    hide Utf8;
    ChunksPartition(text);
    forall i | 0 <= i < |Chunks(text)| ensures |Chunks(text)[i]| <= CHUNK_BYTES {
      assert GoodChunk(Chunks(text)[i]);
    }
  }

  // What a recognised message is shown as.
  ghost function Shown(text: string): string
    requires Utf8(text)
  {
    ChunksSized(text);
    JoinLines(Raws(LegacyBlocks(Chunks(text))))
  }

  lemma RecognisedNotEmpty(text: string)
    ensures CompactKind(text).Some? ==> text != ""
  {}

  lemma Projected(text: string)
    requires Utf8(text) && CompactKind(text).Some?
    ensures ProjectMessage(HumanText(text)) == Ok(HumanText(Shown(text)))
  {
    hide Utf8, CompactKind, EncodeAll, Raws, LegacyBlocks, JoinLines;
    RecognisedNotEmpty(text);
    ChunksSized(text);
    WrappedEncode(CompactKind(text).value, Chunks(text));
  }

  // Showing a message never fails, and changes it only if it is recognised.
  lemma ProjectionNeverFails(m: Message)
    requires ValidText(m)
    ensures ProjectMessage(m).Ok?
    ensures ProjectMessage(m).value != m ==> m.HumanText? && CompactKind(m.text).Some?
  {
    hide Utf8, CompactKind, EncodeAll;
    if m.HumanText? && CompactKind(m.text).Some? {
      Projected(m.text);
    }
  }

  // ---- the joined text is blocks with line ends between them ----

  function LineEnds(n: nat): string { if n == 0 then "" else ['\n'] + LineEnds(n - 1) }

  // The gap before each further block, and the empty one at the end.
  function LaterGaps(n: nat): (g: seq<string>)
    ensures |g| == n + 1
  {
    if n == 0 then [""] else ["\n"] + LaterGaps(n - 1)
  }

  function LineGaps(n: nat): (g: seq<string>)
    requires n > 0
    ensures |g| == n + 1
  {
    [""] + LaterGaps(n - 1)
  }

  lemma {:induction false} LaterGapsPlain(n: nat)
    ensures PlainGaps(LaterGaps(n)) && Concat(LaterGaps(n)) == LineEnds(n)
  {
    ContainsNone("", OPEN);
    ContainsNone("\n", OPEN);
    if n == 0 {
      assert [""][1..] == [];
    } else {
      LaterGapsPlain(n - 1);
      assert LaterGaps(n)[1..] == LaterGaps(n - 1);
    }
  }

  lemma LineGapsPlain(n: nat)
    requires n > 0
    ensures PlainGaps(LineGaps(n)) && Concat(LineGaps(n)) == LineEnds(n - 1)
  {
    hide Contains;
    LaterGapsPlain(n - 1);
    ContainsNone("", OPEN);
    assert LineGaps(n)[1..] == LaterGaps(n - 1);
    assert "" + Concat(LaterGaps(n - 1)) == Concat(LaterGaps(n - 1));
  }

  lemma {:induction false} JoinWeaves(gap: string, raws: seq<string>)
    requires raws != []
    ensures Weave([gap] + LaterGaps(|raws| - 1), raws) == gap + JoinLines(raws)
    decreases |raws|
  {
    var gaps := [gap] + LaterGaps(|raws| - 1);
    assert gaps[1..] == LaterGaps(|raws| - 1);
    if |raws| == 1 {
      assert Weave(gaps[1..], raws[1..]) == "";
      assert raws[0] + "" == raws[0];
    } else {
      JoinWeaves("\n", raws[1..]);
      assert gaps[1..] == ["\n"] + LaterGaps(|raws[1..]| - 1);
    }
  }

  lemma NoPrefix(s: string)
    ensures "" + s == s
  {}

  lemma JoinIsWoven(raws: seq<string>)
    requires raws != []
    ensures JoinLines(raws) == Weave(LineGaps(|raws|), raws)
  {
    hide Weave, JoinLines, LaterGaps;
    JoinWeaves("", raws);
    NoPrefix(JoinLines(raws));
  }

  // ---- its length ----

  lemma EscapeConcat(a: string, b: string)
    ensures |EscapeXml(a + b)| == |EscapeXml(a)| + |EscapeXml(b)|
  {
    EscapeAppend(a, b);
  }

  lemma EscapeNothing()
    ensures EscapeXml("") == ""
  {}

  // Each chunk costs 35 bytes of tags and, but for the first, a line end.
  lemma {:induction false} JoinedLength(chunks: seq<string>)
    requires chunks != [] && forall i | 0 <= i < |chunks| :: |chunks[i]| <= CHUNK_BYTES
    ensures |JoinLines(Raws(LegacyBlocks(chunks)))| + 1 == |EscapeXml(Concat(chunks))| + 36 * |chunks|
    decreases |chunks|
  {
    hide EscapeXml;
    var raws := Raws(LegacyBlocks(chunks));
    var rest := chunks[1..];
    EscapeConcat(chunks[0], Concat(rest));
    assert |raws[0]| == |EscapeXml(chunks[0])| + 35;
    if rest == [] {
      EscapeNothing();
      assert Concat(rest) == "";
    } else {
      JoinedLength(rest);
      assert raws[1..] == Raws(LegacyBlocks(rest));
    }
  }

  lemma {:induction false} ManyChunksAreLong(chunks: seq<string>, full: nat)
    requires forall i | 0 <= i < |chunks| - 1 :: full <= |chunks[i]|
    ensures chunks != [] ==> full * (|chunks| - 1) <= |Concat(chunks)|
  {
    if |chunks| > 1 { ManyChunksAreLong(chunks[1..], full); }
  }

  // A message shown within the input bound has far fewer than 64 chunks.
  lemma FewChunks(text: string)
    requires Utf8(text) && |EscapeXml(text)| <= MAX_INPUT_BYTES
    ensures |Chunks(text)| <= MAX_REMINDERS
  {
    hide Utf8, EscapeXml;
    ChunksPartition(text);
    EscapeClean(text);
    ManyChunksAreLong(Chunks(text), CHUNK_BYTES - 3);
  }

  // The bound in terms of the message itself.
  predicate FitsShown(text: string)
    requires Utf8(text)
  {
    |EscapeXml(text)| + 36 * |Chunks(text)| <= MAX_INPUT_BYTES + 1
  }

  // ---- end to end ----

  // A recognised message, as the model is shown it, reads back as legacy reminders whose bodies
  // concatenate to the message, with exactly the line ends between them as user text, if and only if
  // what is shown fits the input bound; otherwise nothing is read from it.
  lemma MessageSurvives(codec: JsonCodec, text: string)
    requires Utf8(text) && CompactKind(text).Some?
    ensures ProjectMessage(HumanText(text)) == Ok(HumanText(Shown(text)))
    ensures |Shown(text)| <= MAX_INPUT_BYTES <==> FitsShown(text)
    ensures var out := ParseMessage(codec, Shown(text), TrustedLegacy);
            && (FitsShown(text) ==>
                  |Chunks(text)| > 0 && out.userText == LineEnds(|Chunks(text)| - 1) && !out.limitReached)
            && (!FitsShown(text) ==> out == ParsedText(Shown(text), [], true))
            && (Concat(Bodies(out.reminders)) == text <==> FitsShown(text))
  {
    hide Utf8, CompactKind, EscapeXml, Weave, JoinLines, LegacyBlock, Scan, Raws, EncodeLegacy, ProjectMessage;
    Projected(text);
    RecognisedNotEmpty(text);
    ChunksSized(text);
    ChunksPartition(text);
    var chunks := Chunks(text);
    JoinedLength(chunks);
    if FitsShown(text) {
      FewChunks(text);
      LineGapsPlain(|chunks|);
      JoinIsWoven(Raws(LegacyBlocks(chunks)));
      LegacyRoundTrips(codec, LineGaps(|chunks|), chunks);
      BodiesOfBlocks(chunks);
    } else {
      NoBodies();
    }
  }

  lemma NoBodies()
    ensures Concat(Bodies([])) == ""
  {}
}
