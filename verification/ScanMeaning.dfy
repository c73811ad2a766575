// What the message scanner returns, read off the text: every text is cut in one way into text without
// the tag name, things that look like a tag and are none, blocks that are refused, blocks that are
// taken, and an ending.
module ScanMeaning {
  import opened Wrappers
  import opened Text
  import opened Reminder
  import opened ReminderCodec
  import opened ReminderMessage
  import opened MessageTheorems
  import EmbeddedRoundTrip

  // What the tag name can begin: a longer tag name, a complete block that does not parse, or a block.
  datatype Item = OtherTag | Refused(header: string, body: string) | Taken(parsed: ParsedReminder)

  // A stretch of text without the tag name, and what follows it.
  datatype Part = Part(gap: string, item: Item)

  function BlockText(header: string, body: string): string {
    "<system-reminder" + header + ">" + body + "</system-reminder>"
  }

  function ItemText(item: Item): string {
    match item
    case OtherTag => "<system-reminder"
    case Refused(header, body) => BlockText(header, body)
    case Taken(p) => p.raw
  }

  function Spell(parts: seq<Part>, last: string): string {
    if parts == [] then last else parts[0].gap + (ItemText(parts[0].item) + Spell(parts[1..], last))
  }

  // A header is empty or begins with white space.
  predicate ProperHeader(header: string) { header == "" || LeadingSpace(header) > 0 }

  predicate WithinLimits(header: string, body: string) {
    && 16 + |header| <= 24 * 1024
    && |body| <= 6 * 64 * 1024
    && 16 + |header| + |body| + 18 <= 96 * 1024
  }

  // The tag name is followed, before a '>' within the bound, by something that is no header.
  predicate NoHeader(follow: string, h: nat) {
    && h < |follow| && follow[h] == '>' && '>' !in follow[..h]
    && 16 + h <= 24 * 1024
    && !ProperHeader(follow[..h])
  }

  ghost predicate ItemFits(codec: JsonCodec, item: Item, follow: string) {
    match item
    case OtherTag => exists h: nat :: NoHeader(follow, h)
    case Refused(header, body) =>
      && '>' !in header && ProperHeader(header) && !Contains(body, CLOSE) && WithinLimits(header, body)
      && ParseBlock(codec, header, body, BlockText(header, body)) == None
    case Taken(p) => Recognisable(codec, p)
  }

  function Count(item: Item): nat { if item.Taken? then 1 else 0 }

  // The parts are what the text says, and there is room for each.
  ghost predicate Reads(codec: JsonCodec, parts: seq<Part>, last: string, found: nat) {
    parts != [] ==>
      && found < 64 && !Contains(parts[0].gap, OPEN)
      && ItemFits(codec, parts[0].item, Spell(parts[1..], last))
      && Reads(codec, parts[1..], last, found + Count(parts[0].item))
  }

  function Found(parts: seq<Part>): nat {
    if parts == [] then 0 else Count(parts[0].item) + Found(parts[1..])
  }

  // An opening tag after which the rest of the text stays as it is, with or without a limit being hit:
  // it is not closed, its header is too long, the block is not closed, or the block is too long.
  ghost predicate Halts(tail: string, limit: bool) {
    || ('>' !in tail && !limit)
    || (exists h: nat :: LongHeader(tail, h) && limit)
    || (exists header, after :: NeverCloses(tail, header, after) && !limit)
    || (exists header, body, rest :: TooLong(tail, header, body, rest) && limit)
  }

  ghost predicate NeverCloses(tail: string, header: string, after: string) {
    OpenTag(tail, header, after) && !Contains(after, CLOSE)
  }

  ghost predicate TooLong(tail: string, header: string, body: string, rest: string) {
    OpenTag(tail, header, body + CLOSE + rest) && !Contains(body, CLOSE) && !WithinLimits(header, body)
  }

  predicate LongHeader(tail: string, h: nat) {
    h < |tail| && tail[h] == '>' && '>' !in tail[..h] && h > 24 * 1024
  }

  predicate OpenTag(tail: string, header: string, after: string) {
    && tail == OPEN + header + ">" + after
    && '>' !in header && ProperHeader(header) && 16 + |header| <= 24 * 1024
  }

  // The text after the last part: no tag name in it, or a tag that halts the scan, as any tag name does
  // once 64 reminders are found.
  ghost predicate Ends(last: string, found: nat, limit: bool) {
    || (!Contains(last, OPEN) && !limit)
    || (exists gap, tail :: EndsWithTag(last, gap, tail, found, limit))
  }

  ghost predicate EndsWithTag(last: string, gap: string, tail: string, found: nat, limit: bool) {
    && last == gap + tail && !Contains(gap, OPEN) && OPEN <= tail
    && if found < 64 then Halts(tail, limit) else limit
  }

  // What is kept when the taken blocks are removed, and what is taken.
  function KeptText(parts: seq<Part>): string {
    if parts == [] then ""
    else parts[0].gap + ((if parts[0].item.Taken? then "" else ItemText(parts[0].item)) + KeptText(parts[1..]))
  }

  function TakenOf(parts: seq<Part>): seq<ParsedReminder> {
    if parts == [] then []
    else (if parts[0].item.Taken? then [parts[0].item.parsed] else []) + TakenOf(parts[1..])
  }

  // ---- the verdict on each kind of item ----

  lemma FirstClose(text: string, h: nat)
    requires h < |text| && text[h] == '>' && '>' !in text[..h]
    ensures FindChar(text, '>') == Some(h)
  {
    FindCharAfter(text[..h], '>', text[h + 1..]);
    assert text == text[..h] + ['>'] + text[h + 1..];
  }

  lemma OpenIsAt(tail: string)
    requires OPEN <= tail
    ensures At(tail, OPEN, 0)
  {
    AtStart(tail, OPEN);
  }

  lemma OtherTagSkips(codec: JsonCodec, follow: string, h: nat)
    requires NoHeader(follow, h) && At(OPEN + follow, OPEN, 0)
    ensures Judge(codec, OPEN + follow) == Skip(|OPEN|)
  {
    hide FindChar, LeadingSpace, JudgeBody;
    var text := OPEN + follow;
    var header := follow[..h];
    assert text == (OPEN + header) + ['>'] + follow[h + 1..];
    assert '>' !in OPEN + header by { assert '>' !in OPEN; }
    FindCharAfter(OPEN + header, '>', follow[h + 1..]);
    assert text[|OPEN|..|OPEN| + h] == header;
  }

  lemma OpenTagFound(tail: string, header: string, after: string)
    requires OpenTag(tail, header, after)
    ensures At(tail, OPEN, 0) && FindChar(tail, '>') == Some(|OPEN| + |header|)
    ensures tail[|OPEN|..|OPEN| + |header|] == header && tail[|OPEN| + |header| + 1..] == after
  {
    hide LeadingSpace;
    assert tail == (OPEN + header) + ['>'] + after;
    assert '>' !in OPEN + header by { assert '>' !in OPEN; }
    FindCharAfter(OPEN + header, '>', after);
    assert tail[0..|OPEN|] == OPEN;
  }

  lemma OpenTagJudged(codec: JsonCodec, tail: string, header: string, after: string)
    requires OpenTag(tail, header, after) && At(tail, OPEN, 0)
    ensures |OPEN| + |header| < |tail|
    ensures Judge(codec, tail) == JudgeBody(codec, tail, header, |OPEN| + |header|)
  {
    hide FindChar, LeadingSpace, JudgeBody, At;
    OpenTagFound(tail, header, after);
  }

  lemma CloseFound(body: string, rest: string)
    requires !Contains(body, CLOSE)
    ensures Find(body + CLOSE + rest, CLOSE) == Some(|body|) && (body + CLOSE + rest)[..|body|] == body
  {
    hide Find, Contains;
    assert CLOSE[0] !in CLOSE[1..];
    FindAfterGap(body, CLOSE, rest);
  }

  lemma RefusedSkips(codec: JsonCodec, header: string, body: string, rest: string)
    requires ItemFits(codec, Refused(header, body), rest) && At(BlockText(header, body) + rest, OPEN, 0)
    ensures Judge(codec, BlockText(header, body) + rest) == Skip(|BlockText(header, body)|)
  {
    hide Find, Contains, ParseBlock, LeadingSpace, At, Judge;
    var raw := BlockText(header, body);
    var text := raw + rest;
    assert text == OPEN + header + ">" + (body + CLOSE + rest);
    OpenTagJudged(codec, text, header, body + CLOSE + rest);
    OpenTagFound(text, header, body + CLOSE + rest);
    CloseFound(body, rest);
    assert text[..|raw|] == raw;
  }

  lemma HaltsKeepsAll(codec: JsonCodec, tail: string, limit: bool)
    requires Halts(tail, limit) && At(tail, OPEN, 0)
    ensures Judge(codec, tail) == KeepAll(limit)
  {
    hide Find, FindChar, Contains, ParseBlock, LeadingSpace, At, OpenTag, WithinLimits;
    if '>' !in tail && !limit {
      FindCharSpec(tail, '>');
    } else if h: nat :| LongHeader(tail, h) && limit {
      FirstClose(tail, h);
    } else if header, after :| NeverCloses(tail, header, after) && !limit {
      OpenTagJudged(codec, tail, header, after);
      OpenTagFound(tail, header, after);
      FindSpec(after, CLOSE);
    } else {
      var header, body, rest :| TooLong(tail, header, body, rest) && limit;
      OpenTagJudged(codec, tail, header, body + CLOSE + rest);
      OpenTagFound(tail, header, body + CLOSE + rest);
      CloseFound(body, rest);
      LongBodyKeepsAll(codec, tail, header, body, rest);
    }
  }

  lemma LongBodyKeepsAll(codec: JsonCodec, tail: string, header: string, body: string, rest: string)
    requires OpenTag(tail, header, body + CLOSE + rest) && !WithinLimits(header, body)
    requires |OPEN| + |header| < |tail| && tail[|OPEN| + |header| + 1..] == body + CLOSE + rest
    requires Find(body + CLOSE + rest, CLOSE) == Some(|body|)
    ensures JudgeBody(codec, tail, header, |OPEN| + |header|) == KeepAll(true)
  {
    hide Find, ParseBlock, LeadingSpace;
  }

  // ---- the scan ----

  lemma SpellOne(parts: seq<Part>, last: string)
    requires parts != []
    ensures Spell(parts, last) == parts[0].gap + (ItemText(parts[0].item) + Spell(parts[1..], last))
  {}

  lemma ItemOpens(codec: JsonCodec, item: Item, follow: string)
    requires ItemFits(codec, item, follow)
    ensures OPEN <= ItemText(item)
  {
    hide ParseBlock, Contains;
    if item.Taken? {
      var header, body :| BlockOf(codec, header, body, item.parsed);
    }
  }

  lemma ScanToTag(codec: JsonCodec, gap: string, tail: string)
    requires !Contains(gap, OPEN) && OPEN <= tail
    ensures Find(gap + tail, OPEN) == Some(|gap|) && (gap + tail)[|gap|..] == tail && At(tail, OPEN, 0)
    ensures (gap + tail)[..|gap|] == gap
  {
    hide Find, Contains;
    OpenIsAt(tail);
    EmbeddedRoundTrip.BlockAhead(gap, tail, "");
    assert gap + (tail + "") == gap + tail;
  }

  // Skipping an item that is no block: it is kept like the text before it.
  lemma ScanPast(codec: JsonCodec, gap: string, item: Item, follow: string, found: nat)
    requires ItemFits(codec, item, follow) && !item.Taken? && !Contains(gap, OPEN) && found < MAX_REMINDERS
    ensures Scan(codec, gap + (ItemText(item) + follow), found) ==
            Prefixed([Kept(gap + ItemText(item))], Scan(codec, follow, found))
  {
    hide Judge, Find, Contains, At, ParseBlock, Scan;
    var tail := ItemText(item) + follow;
    ItemOpens(codec, item, follow);
    ScanToTag(codec, gap, tail);
    if item.OtherTag? {
      var h: nat :| NoHeader(follow, h);
      OtherTagSkips(codec, follow, h);
    } else {
      RefusedSkips(codec, item.header, item.body, follow);
    }
    var text, n := gap + tail, |ItemText(item)|;
    ScanSkips(codec, text, found, |gap|, n);
    assert text[..|gap| + n] == gap + ItemText(item) && text[|gap| + n..] == follow;
  }

  lemma ScanEnds(codec: JsonCodec, last: string, found: nat, limit: bool)
    requires Ends(last, found, limit) && found <= MAX_REMINDERS
    ensures Scan(codec, last, found) == Cut([Kept(last)], limit)
  {
    hide Judge, Find, Contains, At, Scan, Halts;
    if !Contains(last, OPEN) && !limit {
      FindSpec(last, OPEN);
      ScanNone(codec, last, found);
    } else {
      var gap, tail :| EndsWithTag(last, gap, tail, found, limit);
      ScanToTag(codec, gap, tail);
      if found < MAX_REMINDERS {
        HaltsKeepsAll(codec, tail, limit);
        ScanStops(codec, last, found, |gap|, limit);
      } else {
        ScanFull(codec, last, found);
      }
    }
  }

  ghost predicate Gives(cut: Cut, parts: seq<Part>, last: string, limit: bool) {
    && UserText(cut.pieces, TrustedLegacy) == KeptText(parts) + last
    && Blocks(cut.pieces) == TakenOf(parts)
    && cut.limitReached == limit
  }

  lemma GivesMore(part: Part, rest: seq<Part>, cut: Cut, last: string, limit: bool)
    requires Gives(cut, rest, last, limit)
    ensures var front := if part.item.Taken? then [Kept(part.gap), Block(part.item.parsed)]
                         else [Kept(part.gap + ItemText(part.item))];
            Gives(Prefixed(front, cut), [part] + rest, last, limit)
  {
    hide UserText, Blocks, ItemText;
    assert ([part] + rest)[1..] == rest;
    var mode := TrustedLegacy;
    if part.item.Taken? {
      EmbeddedRoundTrip.TakeTwo(part.gap, part.item.parsed, cut.pieces);
      assert part.gap + (KeptText(rest) + last) == part.gap + ("" + KeptText(rest)) + last;
    } else {
      var kept := part.gap + ItemText(part.item);
      PiecesAppend([Kept(kept)], cut.pieces, mode);
      OnePiece(Kept(kept), mode);
      assert kept + (KeptText(rest) + last) == part.gap + (ItemText(part.item) + KeptText(rest)) + last;
    }
  }

  lemma {:induction false} ScanReads(codec: JsonCodec, parts: seq<Part>, last: string, found: nat, limit: bool)
    requires Reads(codec, parts, last, found) && found <= MAX_REMINDERS && Ends(last, found + Found(parts), limit)
    ensures Gives(Scan(codec, Spell(parts, last), found), parts, last, limit)
    decreases |parts|
  {
    hide Scan, ItemFits, Ends, Contains, ItemText, UserText, Blocks;
    if parts == [] {
      ScanEnds(codec, last, found, limit);
      OnePiece(Kept(last), TrustedLegacy);
      assert "" + last == last;
    } else {
      var part, rest := parts[0], parts[1..];
      var follow := Spell(rest, last);
      assert parts == [part] + rest;
      ScanReads(codec, rest, last, found + Count(part.item), limit);
      if part.item.Taken? {
        TakenRecognised(codec, part.item, follow);
        EmbeddedRoundTrip.TakeAfterGap(codec, part.gap, part.item.parsed, follow, found);
        TakenText(part.item);
      } else {
        ScanPast(codec, part.gap, part.item, follow, found);
      }
      GivesMore(part, rest, Scan(codec, follow, found + Count(part.item)), last, limit);
    }
  }

  lemma TakenRecognised(codec: JsonCodec, item: Item, follow: string)
    requires ItemFits(codec, item, follow) && item.Taken?
    ensures Recognisable(codec, item.parsed)
  {}

  lemma TakenText(item: Item)
    ensures item.Taken? ==> ItemText(item) == item.parsed.raw
  {}

  // ---- the meaning of a message ----

  ghost predicate CutsInto(codec: JsonCodec, text: string, parts: seq<Part>, last: string, limit: bool) {
    text == Spell(parts, last) && Reads(codec, parts, last, 0) && Ends(last, Found(parts), limit)
  }

  // Whatever a text is cut into, its blocks come back in order and everything else stays in the user's
  // text: neither a longer tag name nor a refused block stops the scan or loses a character.
  lemma MessageMeans(codec: JsonCodec, text: string, parts: seq<Part>, last: string, limit: bool)
    requires |text| <= 256 * 1024 && CutsInto(codec, text, parts, last, limit)
    ensures ParseMessage(codec, text, TrustedLegacy) == ParsedText(KeptText(parts) + last, TakenOf(parts), limit)
    ensures ParseMessage(codec, text, PreserveUntrusted) == ParsedText(text, TakenOf(parts), limit)
  {
    hide Scan, Reads, Ends, Spell;
    ScanReads(codec, parts, last, 0, limit);
    PreserveKeepsText(codec, text);
  }

  // ---- every text is cut in some way ----

  // The text after an accepted opening tag: its block is never closed, too long, refused or taken.
  lemma AfterOpenTag(codec: JsonCodec, tail: string, header: string, after: string)
    returns (item: Option<Item>, limit: bool, follow: string)
    requires OpenTag(tail, header, after)
    ensures item.None? ==> Halts(tail, limit)
    ensures item.Some? ==>
              && tail == ItemText(item.value) + follow && ItemFits(codec, item.value, follow) && |follow| < |tail|
  {
    hide Find, Contains, ParseBlock, LeadingSpace, OpenTag, WithinLimits, Recognisable;
    FindSpec(after, CLOSE);
    item, limit, follow := None, false, "";
    if Find(after, CLOSE).None? {
      assert NeverCloses(tail, header, after);
    } else {
      var n := Find(after, CLOSE).value;
      var body := after[..n];
      follow := after[n + |CLOSE|..];
      ContainsPrefix(after, n, CLOSE);
      assert after == body + CLOSE + follow by { assert after[n..n + |CLOSE|] == CLOSE; }
      if !WithinLimits(header, body) {
        limit := true;
        assert TooLong(tail, header, body, follow);
      } else {
        TailOfBlock(tail, header, body, follow);
        item := Some(ItemOfBlock(codec, header, body));
        BlockFits(codec, tail, header, body, follow);
      }
    }
  }

  function ItemOfBlock(codec: JsonCodec, header: string, body: string): Item {
    var p := ParseBlock(codec, header, body, BlockText(header, body));
    if p.Some? then Taken(p.value) else Refused(header, body)
  }

  lemma TailOfBlock(tail: string, header: string, body: string, follow: string)
    requires OpenTag(tail, header, body + CLOSE + follow)
    ensures tail == BlockText(header, body) + follow && |follow| < |tail|
  {
    hide LeadingSpace;
  }

  lemma BlockFits(codec: JsonCodec, tail: string, header: string, body: string, follow: string)
    requires OpenTag(tail, header, body + CLOSE + follow) && !Contains(body, CLOSE) && WithinLimits(header, body)
    ensures var item := ItemOfBlock(codec, header, body);
            ItemText(item) == BlockText(header, body) && ItemFits(codec, item, follow)
  {
    hide Contains, ParseBlock, LeadingSpace;
    var item := ItemOfBlock(codec, header, body);
    ParseBlockRaw(codec, header, body, BlockText(header, body));
    if item.Taken? { assert BlockOf(codec, header, body, item.parsed); }
  }

  lemma NextItem(codec: JsonCodec, tail: string) returns (item: Option<Item>, limit: bool, follow: string)
    requires OPEN <= tail
    ensures item.None? ==> Halts(tail, limit)
    ensures item.Some? ==>
              && tail == ItemText(item.value) + follow && ItemFits(codec, item.value, follow) && |follow| < |tail|
  {
    hide FindChar, LeadingSpace, ItemFits;
    item, limit, follow := None, false, tail[|OPEN|..];
    FindCharSpec(follow, '>');
    assert tail == OPEN + follow;
    assert '>' !in OPEN;
    if FindChar(follow, '>').Some? {
      var h := FindChar(follow, '>').value;
      var header, after := follow[..h], follow[h + 1..];
      assert follow == header + ">" + after;
      if |OPEN| + h > 24 * 1024 {
        limit := true;
        assert tail[..|OPEN| + h] == OPEN + header;
        assert LongHeader(tail, |OPEN| + h);
      } else if ProperHeader(header) {
        assert tail == OPEN + header + ">" + after;
        item, limit, follow := AfterOpenTag(codec, tail, header, after);
      } else {
        item := Some(OtherTag);
        OtherTagFits(codec, follow, h);
      }
    }
  }

  lemma OtherTagFits(codec: JsonCodec, follow: string, h: nat)
    requires NoHeader(follow, h)
    ensures ItemFits(codec, OtherTag, follow)
  {}

  lemma TagSplit(text: string, start: nat)
    requires Find(text, OPEN) == Some(start)
    ensures start <= |text| && text == text[..start] + text[start..]
    ensures !Contains(text[..start], OPEN) && OPEN <= text[start..]
  {
    hide Find, Contains, At;
    FindSpec(text, OPEN);
    ContainsPrefix(text, start, OPEN);
    AtPrefix(text, OPEN, start);
  }

  lemma AtPrefix(s: string, p: string, i: nat)
    requires At(s, p, i)
    ensures i <= |s| && p <= s[i..]
  {
    assert s[i..][..|p|] == s[i..i + |p|];
  }

  lemma {:induction false} CutFrom(codec: JsonCodec, text: string, found: nat)
    returns (parts: seq<Part>, last: string, limit: bool)
    requires found <= MAX_REMINDERS
    ensures text == Spell(parts, last) && Reads(codec, parts, last, found) && Ends(last, found + Found(parts), limit)
    decreases |text|
  {
    hide Find, Contains, Halts, ItemFits, ItemText;
    parts, last, limit := [], text, false;
    FindSpec(text, OPEN);
    if Find(text, OPEN).Some? {
      var start := Find(text, OPEN).value;
      TagSplit(text, start);
      var gap, tail := text[..start], text[start..];
      if found == MAX_REMINDERS {
        limit := true;
        assert EndsWithTag(text, gap, tail, found, true);
      } else {
        var item, halted, follow := NextItem(codec, tail);
        if item.None? {
          limit := halted;
          assert EndsWithTag(text, gap, tail, found, limit);
        } else {
          parts, last, limit := CutFrom(codec, follow, found + Count(item.value));
          var part := Part(gap, item.value);
          assert ([part] + parts)[1..] == parts;
          parts := [part] + parts;
        }
      }
    }
  }

  // Every text is cut in some way, so what a message comes to is said for all of them.
  lemma EveryTextIsCut(codec: JsonCodec, text: string) returns (parts: seq<Part>, last: string, limit: bool)
    ensures CutsInto(codec, text, parts, last, limit)
  {
    hide Spell, Reads, Ends;
    parts, last, limit := CutFrom(codec, text, 0);
  }

  // A text over the input bound is not looked at.
  lemma LongTextIsKept(codec: JsonCodec, text: string, mode: Mode)
    requires |text| > 256 * 1024
    ensures ParseMessage(codec, text, mode) == ParsedText(text, [], true)
  {}
}
