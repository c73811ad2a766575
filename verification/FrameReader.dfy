// The stdout reader: cuts a byte stream that arrives in arbitrary reads into newline-ended frames,
// with a bound on the frame.
module FrameReader {
  import opened Wrappers

  type Bytes = seq<bv8>

  const NEWLINE: bv8 := 0x0A
  const RETURN: bv8 := 0x0D
  const COPY_BYTES: nat := 8192

  // What the reader hands on: lines, and at most one reason for stopping early. A stream that ends
  // inside a frame stops it without a word.
  datatype Event = Line(text: Bytes) | ResourceLimit(observed: nat) | NotUtf8

  // Up to and including the first newline.
  function FrameEnd(s: Bytes): (r: Option<nat>)
    ensures r.Some? ==> 0 < r.value <= |s|
  {
    if s == [] then None
    else if s[0] == NEWLINE then Some(1)
    else
      match FrameEnd(s[1..])
      case None => None
      case Some(n) => Some(n + 1)
  }

  // The text of a frame: its newline removed, and one carriage return before it.
  function Chomp(frame: Bytes): Bytes {
    if frame != [] && frame[|frame| - 1] == NEWLINE then
      var line := frame[..|frame| - 1];
      if line != [] && line[|line| - 1] == RETURN then line[..|line| - 1] else line
    else frame
  }

  // What the reader hands on for a whole stream, however it is read. `utf8` is the decoder's verdict
  // on a line. A frame counts its newline, and may have at most `max` bytes.
  function Events(stream: Bytes, max: nat, utf8: Bytes -> bool): seq<Event>
    decreases |stream|
  {
    var end := FrameEnd(stream);
    if (if end.Some? then end.value else |stream|) > max then [ResourceLimit(max + 1)]
    else if end.None? then []
    else
      var line := Chomp(stream[..end.value]);
      if !utf8(line) then [NotUtf8] else [Line(line)] + Events(stream[end.value..], max, utf8)
  }

  function Flatten(chunks: seq<Bytes>): Bytes {
    if chunks == [] then [] else chunks[0] + Flatten(chunks[1..])
  }

  // Where the first newline is, seen from the bytes.
  lemma {:induction false} FrameEndSpec(s: Bytes)
    ensures var r := FrameEnd(s);
            && (r.None? ==> NEWLINE !in s)
            && (r.Some? ==> s[r.value - 1] == NEWLINE && NEWLINE !in s[..r.value - 1])
  {
    if s != [] && s[0] != NEWLINE {
      FrameEndSpec(s[1..]);
      var r := FrameEnd(s);
      if r.Some? { assert s[..r.value - 1] == [s[0]] + s[1..][..r.value - 2]; }
    }
  }

  // Bytes without a newline only push the end further out.
  lemma {:induction false} FrameEndAfter(p: Bytes, s: Bytes)
    requires NEWLINE !in p
    ensures FrameEnd(p + s) == match FrameEnd(s) case None => None case Some(n) => Some(|p| + n)
  {
    if p == [] {
      assert p + s == s;
    } else {
      assert (p + s)[1..] == p[1..] + s;
      FrameEndAfter(p[1..], s);
    }
  }

  // The first newline, once it is there, decides; what follows does not matter.
  lemma FrameEndThere(p: Bytes, s: Bytes)
    requires p != [] && p[|p| - 1] == NEWLINE && NEWLINE !in p[..|p| - 1]
    ensures FrameEnd(p + s) == Some(|p|)
  {
    var q := p[..|p| - 1];
    assert p + s == q + ([NEWLINE] + s);
    FrameEndAfter(q, [NEWLINE] + s);
  }

  // The scan for a newline in what is available.
  method TakeUpToNewline(available: Bytes) returns (n: nat)
    requires available != []
    ensures 0 < n <= |available|
    ensures NEWLINE !in available[..n - 1]
    ensures available[n - 1] == NEWLINE || n == |available|
  {
    n := 1;
    while n < |available| && available[n - 1] != NEWLINE
      invariant 0 < n <= |available|
      invariant NEWLINE !in available[..n - 1]
    {
      assert available[..n] == available[..n - 1] + [available[n - 1]];
      n := n + 1;
    }
  }

  datatype FrameStop = Whole | TooLong | StreamEnded

  // What is still to come: the rest of the buffered read, then the reads not yet made.
  ghost function Pending(buffer: Bytes, chunks: seq<Bytes>, next: nat): Bytes
    requires next <= |chunks|
  {
    buffer + Flatten(chunks[next..])
  }

  lemma Refill(chunks: seq<Bytes>, next: nat)
    requires next < |chunks|
    ensures Pending([], chunks, next) == Pending(chunks[next], chunks, next + 1)
  {
    assert chunks[next..][1..] == chunks[next + 1..];
    assert [] + Flatten(chunks[next..]) == Flatten(chunks[next..]);
  }

  lemma Copy(frame: Bytes, buffer: Bytes, take: nat, chunks: seq<Bytes>, next: nat)
    requires take <= |buffer| && next <= |chunks|
    ensures frame + Pending(buffer, chunks, next) ==
            (frame + buffer[..take]) + Pending(buffer[take..], chunks, next)
  {
    assert buffer == buffer[..take] + buffer[take..];
  }

  // The inner loop: collects one frame. Between two reads the buffer may be refilled at any byte, and
  // the copy is bounded by the copy area and by the room left in the frame, which never underflows.
  method ReadFrame(chunks: seq<Bytes>, next0: nat, buffer0: Bytes, max: nat)
    returns (frame: Bytes, buffer: Bytes, next: nat, stop: FrameStop)
    requires next0 <= |chunks| && forall i | 0 <= i < |chunks| :: chunks[i] != []
    ensures next0 <= next <= |chunks| && |frame| <= max + 1
    ensures var stream := Pending(buffer0, chunks, next0);
            && stream == frame + Pending(buffer, chunks, next)
            && (stop.Whole? ==> |frame| <= max && FrameEnd(stream) == Some(|frame|))
            && (stop.TooLong? ==>
                  |frame| == max + 1 && if FrameEnd(stream).Some? then FrameEnd(stream).value > max else |stream| > max)
            && (stop.StreamEnded? ==> |stream| <= max && FrameEnd(stream).None?)
  {
    hide Pending, FrameEnd;
    frame, buffer, next := [], buffer0, next0;
    ghost var stream := Pending(buffer0, chunks, next0);
    assert stream == frame + stream;
    while true
      invariant next0 <= next <= |chunks|
      invariant stream == frame + Pending(buffer, chunks, next)
      invariant |frame| <= max && NEWLINE !in frame
      decreases |chunks| - next, |buffer|
    {
      if buffer == [] {
        if next == |chunks| {
          NothingPending(chunks);
          assert stream == frame;
          FrameEndAfter(frame, []);
          assert frame + [] == frame;
          return frame, buffer, next, StreamEnded;
        }
        Refill(chunks, next);
        buffer, next := chunks[next], next + 1;
      }
      var take := TakeUpToNewline(buffer);
      if take > COPY_BYTES { take := COPY_BYTES; }
      if take > max + 1 - |frame| { take := max + 1 - |frame|; }
      Copy(frame, buffer, take, chunks, next);
      TakeOne(frame, buffer, take);
      frame := frame + buffer[..take];
      buffer := buffer[take..];
      ghost var rest := Pending(buffer, chunks, next);
      if |frame| > max {
        Overlong(frame, rest);
        return frame, buffer, next, TooLong;
      }
      if frame[|frame| - 1] == NEWLINE {
        FrameEndThere(frame, rest);
        return frame, buffer, next, Whole;
      }
      assert frame == frame[..|frame| - 1] + [frame[|frame| - 1]];
    }
  }

  lemma NothingPending(chunks: seq<Bytes>)
    ensures Pending([], chunks, |chunks|) == []
  {}

  lemma TakeOne(frame: Bytes, buffer: Bytes, take: nat)
    requires 0 < take <= |buffer| && NEWLINE !in frame && NEWLINE !in buffer[..take - 1]
    ensures var grown := frame + buffer[..take];
            grown != [] && NEWLINE !in grown[..|grown| - 1]
  {
    assert (frame + buffer[..take])[..|frame| + take - 1] == frame + buffer[..take - 1];
  }

  // A prefix whose newline, if any, is its last byte: the frame is at least as long as the prefix.
  lemma Overlong(p: Bytes, rest: Bytes)
    requires p != [] && NEWLINE !in p[..|p| - 1]
    ensures FrameEnd(p + rest).Some? ==> FrameEnd(p + rest).value >= |p|
  {
    if p[|p| - 1] == NEWLINE {
      FrameEndThere(p, rest);
    } else {
      assert p == p[..|p| - 1] + [p[|p| - 1]];
      FrameEndAfter(p, rest);
    }
  }

  // The outer loop: hands on one line per frame until the stream ends, a frame is too long, or a line
  // is not UTF-8. However the stream is cut into reads, the outcome is that of the whole stream.
  method ReadFrames(chunks: seq<Bytes>, max: nat, utf8: Bytes -> bool) returns (events: seq<Event>)
    requires forall i | 0 <= i < |chunks| :: chunks[i] != []
    ensures events == Events(Flatten(chunks), max, utf8)
  {
    hide Pending, FrameEnd, Chomp;
    events := [];
    var buffer: Bytes, next: nat := [], 0;
    AllPending(chunks);
    ghost var all := Events(Flatten(chunks), max, utf8);
    assert events + all == all;
    while true
      invariant next <= |chunks|
      invariant events + Events(Pending(buffer, chunks, next), max, utf8) == all
      decreases |Pending(buffer, chunks, next)|
    {
      ghost var stream := Pending(buffer, chunks, next);
      var frame, buffer', next', stop := ReadFrame(chunks, next, buffer, max);
      buffer, next := buffer', next';
      if stop.StreamEnded? {
        assert events + [] == events;
        return;
      }
      if stop.TooLong? {
        return events + [ResourceLimit(|frame|)];
      }
      assert stream[..|frame|] == frame && stream[|frame|..] == Pending(buffer, chunks, next);
      var line := Chomp(frame);
      ChompShortens(frame);
      // The check of the line's length after the newline is gone can never fire.
      if |line| > max { assert false; }
      if !utf8(line) {
        return events + [NotUtf8];
      }
      ghost var before, after := events, Events(Pending(buffer, chunks, next), max, utf8);
      events := events + [Line(line)];
      assert before + ([Line(line)] + after) == events + after;
    }
  }

  lemma AllPending(chunks: seq<Bytes>)
    ensures Pending([], chunks, 0) == Flatten(chunks)
  {
    assert chunks[0..] == chunks;
    assert [] + Flatten(chunks) == Flatten(chunks);
  }

  lemma ChompShortens(frame: Bytes)
    ensures |Chomp(frame)| <= |frame|
  {}

  // ---- consequences ----

  // A line as it is sent: its text, and whether a carriage return precedes the newline.
  datatype Sending = Sending(text: Bytes, crlf: bool)

  function Ended(s: Sending): Bytes { s.text + if s.crlf then [RETURN, NEWLINE] else [NEWLINE] }

  function Sent(lines: seq<Sending>): Bytes {
    if lines == [] then [] else Ended(lines[0]) + Sent(lines[1..])
  }

  function Lines(lines: seq<Sending>): seq<Event> {
    if lines == [] then [] else [Line(lines[0].text)] + Lines(lines[1..])
  }

  predicate Sendable(s: Sending, max: nat, utf8: Bytes -> bool) {
    && NEWLINE !in s.text && utf8(s.text) && |Ended(s)| <= max
    && (!s.crlf && s.text != [] ==> s.text[|s.text| - 1] != RETURN)
  }

  lemma FirstLineArrives(s: Sending, rest: Bytes, max: nat, utf8: Bytes -> bool)
    requires Sendable(s, max, utf8)
    ensures Events(Ended(s) + rest, max, utf8) == [Line(s.text)] + Events(rest, max, utf8)
  {
    hide FrameEnd;
    var frame := Ended(s);
    var stream := frame + rest;
    assert frame[..|frame| - 1] == s.text + if s.crlf then [RETURN] else [];
    FrameEndThere(frame, rest);
    assert stream[..|frame|] == frame && stream[|frame|..] == rest;
    assert s.crlf ==> frame[..|frame| - 1][..|s.text|] == s.text;
    assert !s.crlf ==> frame[..|frame| - 1] == s.text;
  }

  // Round trip with the writer: lines without a newline inside that fit the bound come out as they went
  // in, whichever line end they carry; an unfinished last line that fits is dropped.
  lemma {:induction false} SentLinesArrive(lines: seq<Sending>, tail: Bytes, max: nat, utf8: Bytes -> bool)
    requires forall i | 0 <= i < |lines| :: Sendable(lines[i], max, utf8)
    requires NEWLINE !in tail && |tail| <= max
    ensures Events(Sent(lines) + tail, max, utf8) == Lines(lines)
    decreases |lines|
  {
    hide FrameEnd, Ended, Sendable;
    if lines == [] {
      assert Sent(lines) + tail == tail;
      FrameEndAfter(tail, []);
      NoFrame();
      assert tail + [] == tail;
    } else {
      var rest := Sent(lines[1..]) + tail;
      assert Sent(lines) + tail == Ended(lines[0]) + rest;
      FirstLineArrives(lines[0], rest, max, utf8);
      SentLinesArrive(lines[1..], tail, max, utf8);
    }
  }

  lemma NoFrame()
    ensures FrameEnd([]) == None
  {}

  // A line that is too long for the bound stops the reader at once, whatever follows it.
  lemma LongLineStops(line: Bytes, rest: Bytes, max: nat, utf8: Bytes -> bool)
    requires NEWLINE !in line && |line| >= max && |line + rest| > max
    ensures Events(line + rest, max, utf8) == [ResourceLimit(max + 1)]
  {
    FrameEndAfter(line, rest);
  }

  // A line that is not UTF-8 stops the reader: the lines before it are handed on, nothing after it.
  lemma {:induction false} BadLineStops(lines: seq<Sending>, bad: Sending, rest: Bytes, max: nat, utf8: Bytes -> bool)
    requires forall i | 0 <= i < |lines| :: Sendable(lines[i], max, utf8)
    requires NEWLINE !in bad.text && !utf8(bad.text) && |Ended(bad)| <= max
    requires !bad.crlf && bad.text != [] ==> bad.text[|bad.text| - 1] != RETURN
    ensures Events(Sent(lines) + (Ended(bad) + rest), max, utf8) == Lines(lines) + [NotUtf8]
    decreases |lines|
  {
    hide FrameEnd, Ended, Sendable;
    if lines == [] {
      assert Sent(lines) + (Ended(bad) + rest) == Ended(bad) + rest;
      BadLineFirst(bad, rest, max, utf8);
      assert [] + [NotUtf8] == [NotUtf8];
    } else {
      var more := Sent(lines[1..]) + (Ended(bad) + rest);
      assert Sent(lines) + (Ended(bad) + rest) == Ended(lines[0]) + more;
      FirstLineArrives(lines[0], more, max, utf8);
      BadLineStops(lines[1..], bad, rest, max, utf8);
      assert [Line(lines[0].text)] + (Lines(lines[1..]) + [NotUtf8]) == Lines(lines) + [NotUtf8];
    }
  }

  lemma BadLineFirst(bad: Sending, rest: Bytes, max: nat, utf8: Bytes -> bool)
    requires NEWLINE !in bad.text && !utf8(bad.text) && |Ended(bad)| <= max
    requires !bad.crlf && bad.text != [] ==> bad.text[|bad.text| - 1] != RETURN
    ensures Events(Ended(bad) + rest, max, utf8) == [NotUtf8]
  {
    hide FrameEnd;
    var frame := Ended(bad);
    var stream := frame + rest;
    assert frame[..|frame| - 1] == bad.text + if bad.crlf then [RETURN] else [];
    FrameEndThere(frame, rest);
    assert stream[..|frame|] == frame;
    assert bad.crlf ==> frame[..|frame| - 1][..|bad.text|] == bad.text;
    assert !bad.crlf ==> frame[..|frame| - 1] == bad.text;
  }
}
