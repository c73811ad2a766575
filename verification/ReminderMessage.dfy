// Reminders embedded in arbitrary text: the message scanner and what it keeps for every input.
module ReminderMessage {
  import opened Wrappers
  import opened Text
  import opened XmlEscape
  import opened Reminder
  import opened ReminderCodec

  datatype Mode = PreserveUntrusted | TrustedLegacy

  datatype ParsedText = ParsedText(userText: string, reminders: seq<ParsedReminder>, limitReached: bool)

  // The scanner cuts a message into kept text and recognised blocks.
  datatype Piece = Kept(text: string) | Block(parsed: ParsedReminder)

  datatype Cut = Cut(pieces: seq<Piece>, limitReached: bool)

  function Prefixed(front: seq<Piece>, rest: Cut): Cut { Cut(front + rest.pieces, rest.limitReached) }

  // How a stretch of text is treated from its start: all of it stays (with or without a limit being
  // hit), n characters of it stay, or its first n characters are a block.
  datatype Verdict = KeepAll(limit: bool) | Skip(n: nat) | Take(n: nat, parsed: ParsedReminder)

  // The verdict on text that starts with the opening tag name.
  function Judge(codec: JsonCodec, candidate: string): (v: Verdict)
    requires At(candidate, OPEN, 0)
    ensures v.Skip? || v.Take? ==> 0 < v.n <= |candidate|
  {
    hide ParseBlock, Find, FindChar, LeadingSpace;
    var close := FindChar(candidate, '>');
    if close.None? then KeepAll(false)
    else if close.value > MAX_ATTRIBUTE_BYTES then KeepAll(true)
    else
      var openEnd := close.value;
      FindCharSpec(candidate, '>');
      OpenHasNoClose(candidate, openEnd);
      var header := candidate[|OPEN|..openEnd];
      if header != "" && LeadingSpace(header) == 0 then Skip(|OPEN|)
      else JudgeBody(codec, candidate, header, openEnd)
  }

  // The verdict once the opening tag is accepted: `openEnd` is the place of its '>'.
  function JudgeBody(codec: JsonCodec, candidate: string, header: string, openEnd: nat): (v: Verdict)
    requires openEnd < |candidate|
    ensures v.Skip? || v.Take? ==> 0 < v.n <= |candidate|
  {
    hide ParseBlock, Find, At;
    var afterOpen := candidate[openEnd + 1..];
    var closing := Find(afterOpen, CLOSE);
    if closing.None? then KeepAll(false)
    else if closing.value > MAX_BODY_BYTES * 6 || openEnd + closing.value + |CLOSE| > MAX_WIRE_BYTES
    then KeepAll(true)
    else
      var n := openEnd + 1 + closing.value + |CLOSE|;
      var parsed := ParseBlock(codec, header, afterOpen[..closing.value], candidate[..n]);
      if parsed.None? then Skip(n) else Take(n, parsed.value)
  }

  // The first '>' of a candidate lies behind the tag name.
  lemma OpenHasNoClose(candidate: string, openEnd: nat)
    requires At(candidate, OPEN, 0)
    requires openEnd < |candidate| && candidate[openEnd] == '>'
    ensures |OPEN| <= openEnd
  {
    assert '>' !in candidate[0..|OPEN|];
  }

  lemma FindOpens(rest: string, start: nat)
    requires Find(rest, OPEN) == Some(start)
    ensures start <= |rest| && At(rest[start..], OPEN, 0)
  {
    hide Find;
    FindSpec(rest, OPEN);
    assert rest[start..][0..|OPEN|] == rest[start..start + |OPEN|];
  }

  function Scan(codec: JsonCodec, rest: string, found: nat): Cut
    decreases |rest|
  {
    hide Judge, Find, At;
    var at := Find(rest, OPEN);
    if at.None? then Cut([Kept(rest)], false)
    else if found == MAX_REMINDERS then Cut([Kept(rest)], true)
    else
      var start := at.value;
      FindOpens(rest, start);
      match Judge(codec, rest[start..])
      case KeepAll(limit) => Cut([Kept(rest)], limit)
      case Skip(n) => Prefixed([Kept(rest[..start + n])], Scan(codec, rest[start + n..], found))
      case Take(n, parsed) =>
        Prefixed([Kept(rest[..start]), Block(parsed)], Scan(codec, rest[start + n..], found + 1))
  }

  // The user's text: kept pieces, and in the untrusted mode the raw blocks too.
  function UserText(pieces: seq<Piece>, mode: Mode): string {
    if pieces == [] then "" else PieceText(pieces[0], mode) + UserText(pieces[1..], mode)
  }

  function PieceText(p: Piece, mode: Mode): string {
    match p
    case Kept(text) => text
    case Block(parsed) => if mode == PreserveUntrusted then parsed.raw else ""
  }

  function Blocks(pieces: seq<Piece>): seq<ParsedReminder> {
    if pieces == [] then []
    else (if pieces[0].Block? then [pieces[0].parsed] else []) + Blocks(pieces[1..])
  }

  function ParseMessage(codec: JsonCodec, text: string, mode: Mode): ParsedText {
    if |text| > MAX_INPUT_BYTES then ParsedText(text, [], true)
    else
      var cut := Scan(codec, text, 0);
      ParsedText(UserText(cut.pieces, mode), Blocks(cut.pieces), cut.limitReached)
  }

  lemma {:induction false} TextAppend(a: seq<Piece>, b: seq<Piece>, mode: Mode)
    ensures UserText(a + b, mode) == UserText(a, mode) + UserText(b, mode)
  {
    hide PieceText;
    if a == [] {
      assert a + b == b;
    } else {
      var rest := a[1..];
      assert (a + b)[1..] == rest + b;
      TextAppend(rest, b, mode);
      var first := PieceText(a[0], mode);
      assert first + (UserText(rest, mode) + UserText(b, mode)) == first + UserText(rest, mode) + UserText(b, mode);
    }
  }

  lemma {:induction false} BlocksAppend(a: seq<Piece>, b: seq<Piece>)
    ensures Blocks(a + b) == Blocks(a) + Blocks(b)
  {
    if a == [] {
      assert a + b == b;
    } else {
      assert (a + b)[1..] == a[1..] + b;
      BlocksAppend(a[1..], b);
    }
  }

  lemma PiecesAppend(a: seq<Piece>, b: seq<Piece>, mode: Mode)
    ensures UserText(a + b, mode) == UserText(a, mode) + UserText(b, mode)
    ensures Blocks(a + b) == Blocks(a) + Blocks(b)
  {
    TextAppend(a, b, mode);
    BlocksAppend(a, b);
  }

  lemma OnePiece(p: Piece, mode: Mode)
    ensures UserText([p], mode) ==
            (match p case Kept(text) => text
                     case Block(parsed) => if mode == PreserveUntrusted then parsed.raw else "")
    ensures Blocks([p]) == if p.Block? then [p.parsed] else []
  {
    assert [p][1..] == [];
  }

  // What the part still to be scanned will add to the output.
  ghost function Completed(codec: JsonCodec, mode: Mode, out: ParsedText, rest: string): ParsedText {
    var cut := Scan(codec, rest, |out.reminders|);
    ParsedText(out.userText + UserText(cut.pieces, mode), out.reminders + Blocks(cut.pieces), cut.limitReached)
  }

  lemma CompletedKeepAll(codec: JsonCodec, mode: Mode, out: ParsedText, rest: string, limit: bool)
    requires Scan(codec, rest, |out.reminders|) == Cut([Kept(rest)], limit)
    ensures Completed(codec, mode, out, rest) == ParsedText(out.userText + rest, out.reminders, limit)
  {
    hide Scan;
    OnePiece(Kept(rest), mode);
    assert out.reminders + [] == out.reminders;
  }

  lemma CompletedSkip(codec: JsonCodec, mode: Mode, out: ParsedText, rest: string, n: nat)
    requires n <= |rest|
    requires Scan(codec, rest, |out.reminders|) ==
             Prefixed([Kept(rest[..n])], Scan(codec, rest[n..], |out.reminders|))
    ensures Completed(codec, mode, out, rest) ==
            Completed(codec, mode, out.(userText := out.userText + rest[..n]), rest[n..])
  {
    hide Scan, UserText, Blocks;
    var tail := Scan(codec, rest[n..], |out.reminders|).pieces;
    PiecesAppend([Kept(rest[..n])], tail, mode);
    OnePiece(Kept(rest[..n]), mode);
    assert out.userText + (rest[..n] + UserText(tail, mode)) == out.userText + rest[..n] + UserText(tail, mode);
    assert [] + Blocks(tail) == Blocks(tail);
  }

  function Shown(gap: string, raw: string, mode: Mode): string {
    if mode == PreserveUntrusted then gap + raw else gap
  }

  lemma CompletedTake(codec: JsonCodec, mode: Mode, out: ParsedText, rest: string, start: nat, n: nat,
                      p: ParsedReminder)
    requires start <= n <= |rest|
    requires Scan(codec, rest, |out.reminders|) ==
             Prefixed([Kept(rest[..start]), Block(p)], Scan(codec, rest[n..], |out.reminders| + 1))
    ensures Completed(codec, mode, out, rest) ==
            Completed(codec, mode,
                      ParsedText(out.userText + Shown(rest[..start], p.raw, mode), out.reminders + [p],
                                 out.limitReached),
                      rest[n..])
  {
    hide Scan, UserText, Blocks;
    var tail := Scan(codec, rest[n..], |out.reminders| + 1).pieces;
    var front := [Kept(rest[..start]), Block(p)];
    assert front == [Kept(rest[..start])] + [Block(p)];
    PiecesAppend([Kept(rest[..start])], [Block(p)], mode);
    PiecesAppend(front, tail, mode);
    OnePiece(Kept(rest[..start]), mode);
    OnePiece(Block(p), mode);
    var shown := Shown(rest[..start], p.raw, mode);
    assert UserText(front, mode) == shown;
    assert out.userText + (shown + UserText(tail, mode)) == out.userText + shown + UserText(tail, mode);
    assert Blocks(front) == [p];
    assert out.reminders + ([p] + Blocks(tail)) == out.reminders + [p] + Blocks(tail);
  }

  lemma ScanStops(codec: JsonCodec, rest: string, found: nat, start: nat, limit: bool)
    requires Find(rest, OPEN) == Some(start) && found != MAX_REMINDERS
    requires start <= |rest| && At(rest[start..], OPEN, 0)
    requires Judge(codec, rest[start..]) == KeepAll(limit)
    ensures Scan(codec, rest, found) == Cut([Kept(rest)], limit)
  {
    hide Judge, Find, At;
  }

  lemma ScanSkips(codec: JsonCodec, rest: string, found: nat, start: nat, n: nat)
    requires Find(rest, OPEN) == Some(start) && found != MAX_REMINDERS
    requires start <= |rest| && At(rest[start..], OPEN, 0)
    requires Judge(codec, rest[start..]) == Skip(n)
    ensures var end := start + n;
            end <= |rest| && Scan(codec, rest, found) == Prefixed([Kept(rest[..end])], Scan(codec, rest[end..], found))
  {
    hide Judge, Find, At;
  }

  lemma ScanTakes(codec: JsonCodec, rest: string, found: nat, start: nat, n: nat, p: ParsedReminder)
    requires Find(rest, OPEN) == Some(start) && found != MAX_REMINDERS
    requires start <= |rest| && At(rest[start..], OPEN, 0)
    requires Judge(codec, rest[start..]) == Take(n, p)
    ensures && start + n <= |rest|
            && Scan(codec, rest, found) ==
               Prefixed([Kept(rest[..start]), Block(p)], Scan(codec, rest[start + n..], found + 1))
  {
    hide Judge, Find, At;
  }

  // The part of the loop body that looks at one candidate.
  method JudgeCandidate(codec: JsonCodec, candidate: string) returns (v: Verdict)
    requires At(candidate, OPEN, 0)
    ensures v == Judge(codec, candidate)
  {
    hide ParseBlock, Find, FindChar, LeadingSpace, At;
    var close := FindChar(candidate, '>');
    if close.None? { return KeepAll(false); }
    var openEnd := close.value;
    FindCharSpec(candidate, '>');
    if openEnd > MAX_ATTRIBUTE_BYTES { return KeepAll(true); }
    OpenHasNoClose(candidate, openEnd);
    var header := candidate[|OPEN|..openEnd];
    if header != "" && LeadingSpace(header) == 0 { return Skip(|OPEN|); }
    var afterOpen := candidate[openEnd + 1..];
    var closing := Find(afterOpen, CLOSE);
    if closing.None? { return KeepAll(false); }
    var closeAt := closing.value;
    if closeAt > MAX_BODY_BYTES * 6 || openEnd + closeAt + |CLOSE| > MAX_WIRE_BYTES {
      return KeepAll(true);
    }
    var raw := candidate[..openEnd + 1 + closeAt + |CLOSE|];
    var parsed := ParseBlock(codec, header, afterOpen[..closeAt], raw);
    if parsed.None? { return Skip(|raw|); }
    return Take(|raw|, parsed.value);
  }

  // The scanning loop, with its early returns.
  method ParseMessageLoop(codec: JsonCodec, text: string, mode: Mode) returns (output: ParsedText)
    ensures output == ParseMessage(codec, text, mode)
  {
    hide Scan, UserText, Blocks, Judge, Find, At;
    output := ParsedText("", [], false);
    if |text| > MAX_INPUT_BYTES {
      return ParsedText(text, [], true);
    }
    var rest := text;
    assert ParseMessage(codec, text, mode) == Completed(codec, mode, output, rest);
    while true
      invariant !output.limitReached
      invariant ParseMessage(codec, text, mode) == Completed(codec, mode, output, rest)
      decreases |rest|
    {
      var at := Find(rest, OPEN);
      ghost var before, whole := output, rest;
      ghost var found := |output.reminders|;
      if at.None? {
        ScanNone(codec, whole, found);
        CompletedKeepAll(codec, mode, before, whole, false);
        return output.(userText := output.userText + rest);
      }
      var start := at.value;
      output := output.(userText := output.userText + rest[..start]);
      var candidate := rest[start..];
      Rejoin(before.userText, whole, start);
      if |output.reminders| == MAX_REMINDERS {
        ScanFull(codec, whole, found);
        CompletedKeepAll(codec, mode, before, whole, true);
        return ParsedText(output.userText + candidate, output.reminders, true);
      }
      FindOpens(whole, start);
      var verdict := JudgeCandidate(codec, candidate);
      match verdict {
        case KeepAll(limit) =>
          ScanStops(codec, whole, found, start, limit);
          CompletedKeepAll(codec, mode, before, whole, limit);
          return ParsedText(output.userText + candidate, output.reminders, limit);
        case Skip(n) =>
          ScanSkips(codec, whole, found, start, n);
          CompletedSkip(codec, mode, before, whole, start + n);
          Advance(before.userText, whole, start, n);
          output := output.(userText := output.userText + candidate[..n]);
          rest := candidate[n..];
        case Take(n, p) =>
          ScanTakes(codec, whole, found, start, n, p);
          CompletedTake(codec, mode, before, whole, start, start + n, p);
          Advance(before.userText, whole, start, n);
          JudgeRaw(codec, candidate);
          if mode == PreserveUntrusted {
            output := output.(userText := output.userText + candidate[..n]);
          }
          output := output.(reminders := output.reminders + [p]);
          rest := candidate[n..];
      }
    }
  }

  // A taken block carries the text it was cut from.
  lemma JudgeRaw(codec: JsonCodec, candidate: string)
    requires At(candidate, OPEN, 0)
    ensures var v := Judge(codec, candidate); v.Take? ==> v.parsed.raw == candidate[..v.n]
  {
    hide ParseBlock, Find, FindChar, LeadingSpace, At;
    var v := Judge(codec, candidate);
    if v.Take? {
      var openEnd := FindChar(candidate, '>').value;
      FindCharSpec(candidate, '>');
      OpenHasNoClose(candidate, openEnd);
      var after := candidate[openEnd + 1..];
      ParseBlockRaw(codec, candidate[|OPEN|..openEnd], after[..Find(after, CLOSE).value], candidate[..v.n]);
    }
  }

  // Slicing facts of one turn of the loop: the skipped gap, the candidate and its first n characters.
  lemma Advance(done: string, whole: string, start: nat, n: nat)
    requires start + n <= |whole|
    ensures done + whole[..start] + whole[start..][..n] == done + whole[..start + n]
    ensures done + whole[..start] + whole[start..][..n] == done + (whole[..start] + whole[start..][..n])
    ensures whole[start..][n..] == whole[start + n..]
  {
    assert whole[..start] + whole[start..][..n] == whole[..start + n];
  }

  lemma Rejoin(done: string, whole: string, start: nat)
    requires start <= |whole|
    ensures done + whole[..start] + whole[start..] == done + whole
  {
    assert whole[..start] + whole[start..] == whole;
  }

  lemma ScanNone(codec: JsonCodec, rest: string, found: nat)
    requires Find(rest, OPEN).None?
    ensures Scan(codec, rest, found) == Cut([Kept(rest)], false)
  {
    hide Judge, Find, At;
  }

  lemma ScanFull(codec: JsonCodec, rest: string, found: nat)
    requires Find(rest, OPEN).Some? && found == MAX_REMINDERS
    ensures Scan(codec, rest, found) == Cut([Kept(rest)], true)
  {
    hide Judge, Find, At;
  }

  lemma ParseBlockRaw(codec: JsonCodec, header: string, body: string, raw: string)
    ensures var p := ParseBlock(codec, header, body, raw); p.Some? ==> p.value.raw == raw
  {
    hide ParseAttributes, ParseFields, Validate, UnescapeXml, Trim;
  }
}
