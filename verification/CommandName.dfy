// The lexer of command names: bare names, `domain:name`, and `domain:namespace:name`.
module CommandName {
  import opened Wrappers

  datatype Name =
    | Bare(name: string)
    | Level1(domain: string, name: string)
    | Level2(domain: string, namespace: string, name: string)
    | Level2Short(domain: string, name: string)

  datatype NameError =
    | Empty
    | TooManySegments
    | EmptySegment
    | DoubleUnderscore
    | IllegalCharacter(c: char)
    | UnknownDomain(domain: string)
    | MissingNamespace(domain: string)

  predicate Level1Domain(d: string) { d == "core" || d == "ui" }

  predicate Level2Domain(d: string) { d == "mcp" || d == "plugin" || d == "user" }

  function LowerChar(c: char): char {
    if 'A' <= c <= 'Z' then (c as nat + 32) as char else c
  }

  // ASCII lower-casing.
  function Lower(s: string): (r: string)
    ensures |r| == |s|
  {
    seq(|s|, i requires 0 <= i < |s| => LowerChar(s[i]))
  }

  // The Unicode White_Space property.
  predicate Whitespace(c: char) {
    var k := c as int;
    || 0x09 <= k <= 0x0D || k == 0x20 || k == 0x85 || k == 0xA0 || k == 0x1680
    || 0x2000 <= k <= 0x200A || k == 0x2028 || k == 0x2029 || k == 0x202F || k == 0x205F || k == 0x3000
  }

  function FirstWhitespace(s: string): (r: Option<char>)
    ensures r.None? <==> forall c | c in s :: !Whitespace(c)
  {
    if s == "" then None
    else if Whitespace(s[0]) then Some(s[0])
    else FirstWhitespace(s[1..])
  }

  // str::split: always at least one segment.
  function Split(s: string, sep: char): (r: seq<string>)
    ensures |r| >= 1
  {
    if s == "" then [""]
    else
      var rest := Split(s[1..], sep);
      if s[0] == sep then [""] + rest else [[s[0]] + rest[0]] + rest[1..]
  }

  function Join(parts: seq<string>, sep: char): string
    requires |parts| >= 1
  {
    if |parts| == 1 then parts[0] else parts[0] + [sep] + Join(parts[1..], sep)
  }

  predicate HasDoubleUnderscore(s: string) {
    exists i | 0 <= i < |s| - 1 :: s[i] == '_' && s[i + 1] == '_'
  }

  function LowerAll(parts: seq<string>): (r: seq<string>)
    ensures |r| == |parts| && forall i | 0 <= i < |r| :: r[i] == Lower(parts[i])
  {
    seq(|parts|, i requires 0 <= i < |parts| => Lower(parts[i]))
  }

  function FirstIllegal(parts: seq<string>): Option<char> {
    if parts == [] then None
    else if FirstWhitespace(parts[0]).Some? then FirstWhitespace(parts[0])
    else FirstIllegal(parts[1..])
  }

  // What a list of lower-cased segments means.
  function Classify(lower: seq<string>): Result<Name, NameError>
    requires 1 <= |lower| <= 3
  {
    if |lower| == 1 then Ok(Bare(lower[0]))
    else if |lower| == 2 then
      if Level2Domain(lower[0]) then Err(MissingNamespace(lower[0]))
      else if Level1Domain(lower[0]) then Ok(Level1(lower[0], lower[1]))
      else Ok(Level2Short(lower[0], lower[1]))
    else if !Level2Domain(lower[0]) then Err(UnknownDomain(lower[0]))
    else Ok(Level2(lower[0], lower[1], lower[2]))
  }

  function Parse(input: string): Result<Name, NameError> {
    if input == "" then Err(Empty)
    else if HasDoubleUnderscore(input) then Err(DoubleUnderscore)
    else
      var segments := Split(input, ':');
      if |segments| > 3 then Err(TooManySegments)
      else if "" in segments then Err(EmptySegment)
      else if FirstIllegal(segments).Some? then Err(IllegalCharacter(FirstIllegal(segments).value))
      else Classify(LowerAll(segments))
  }

  // The canonical full name: the unique key of a registered command.
  function FullName(n: Name): string {
    match n
    case Bare(name) => Lower(name)
    case Level1(domain, name) => Lower(domain) + ":" + Lower(name)
    case Level2(domain, namespace, name) => Lower(domain) + ":" + Lower(namespace) + ":" + Lower(name)
    case Level2Short(domain, name) => Lower(domain) + ":" + Lower(name)
  }

  // ---- properties ----

  predicate Capital(c: char) { c in "ABCDEFGHIJKLMNOPQRSTUVWXYZ" }

  predicate SameButForCase(a: string, b: string) {
    |a| == |b| && forall i | 0 <= i < |a| :: a[i] == b[i] || (OtherCase(a[i], b[i]) || OtherCase(b[i], a[i]))
  }

  // A capital and its small letter.
  predicate OtherCase(capital: char, small: char) { Capital(capital) && small as nat == capital as nat + 32 }

  lemma LowerCharMeans(c: char)
    ensures !Capital(LowerChar(c))
    ensures if Capital(c) then OtherCase(c, LowerChar(c)) else LowerChar(c) == c
  {
    var letters := "ABCDEFGHIJKLMNOPQRSTUVWXYZ";
    assert forall i | 0 <= i < 26 :: letters[i] as nat == 65 + i;
    if 'A' <= c <= 'Z' { assert letters[c as nat - 65] == c; }
  }

  // Lower-casing forgets the case of the ASCII letters and nothing else.
  lemma LowerMeans(a: string, b: string)
    ensures Lower(a) == Lower(b) <==> SameButForCase(a, b)
    ensures SameButForCase(Lower(a), a) && forall i | 0 <= i < |a| :: !Capital(Lower(a)[i])
  {
    hide Capital, LowerChar;
    forall i | 0 <= i < |a| ensures !Capital(Lower(a)[i]) && (Lower(a)[i] == a[i] || OtherCase(a[i], Lower(a)[i])) {
      LowerCharMeans(a[i]);
    }
    if |a| == |b| {
      forall i | 0 <= i < |a|
        ensures LowerChar(a[i]) == LowerChar(b[i]) <==>
                a[i] == b[i] || OtherCase(a[i], b[i]) || OtherCase(b[i], a[i])
      {
        CharsAgree(a[i], b[i]);
      }
      if Lower(a) == Lower(b) {
        forall i | 0 <= i < |a| ensures LowerChar(a[i]) == LowerChar(b[i]) {
          assert Lower(a)[i] == Lower(b)[i];
        }
      }
    }
  }

  lemma CharsAgree(c: char, d: char)
    ensures LowerChar(c) == LowerChar(d) <==> c == d || OtherCase(c, d) || OtherCase(d, c)
  {
    LowerCharMeans(c);
    LowerCharMeans(d);
    hide LowerChar;
    SmallIsNoCapital(c, d);
    SmallIsNoCapital(d, c);
  }

  lemma SmallIsNoCapital(c: char, d: char)
    ensures OtherCase(c, d) ==> !Capital(d)
  {
    var letters := "ABCDEFGHIJKLMNOPQRSTUVWXYZ";
    assert forall i | 0 <= i < 26 :: letters[i] as nat == 65 + i;
  }

  lemma LowerTwice(s: string)
    ensures Lower(Lower(s)) == Lower(s)
  {}

  lemma LowerAppend(a: string, b: string)
    ensures Lower(a + b) == Lower(a) + Lower(b)
  {}

  lemma LowerColon(s: string)
    ensures ':' in Lower(s) <==> ':' in s
  {
    assert forall i | 0 <= i < |s| :: Lower(s)[i] == ':' <==> s[i] == ':';
  }

  lemma {:induction false} SplitJoin(s: string, sep: char)
    ensures Join(Split(s, sep), sep) == s
    ensures forall p | p in Split(s, sep) :: sep !in p
  {
    if s != "" {
      SplitJoin(s[1..], sep);
      var rest := Split(s[1..], sep);
      var parts := Split(s, sep);
      if s[0] == sep {
        assert parts[1..] == rest;
        assert "" + [sep] + s[1..] == s;
      } else {
        assert parts[1..] == rest[1..];
        assert rest[0] in rest;
        assert [s[0]] + s[1..] == s;
        if |rest| > 1 {
          assert ([s[0]] + rest[0]) + [sep] + Join(rest[1..], sep) ==
                 [s[0]] + (rest[0] + [sep] + Join(rest[1..], sep));
        }
      }
    }
  }

  lemma {:induction false} JoinSplit(parts: seq<string>, sep: char)
    requires |parts| >= 1 && forall p | p in parts :: sep !in p
    ensures Split(Join(parts, sep), sep) == parts
    decreases |parts|
  {
    if |parts| == 1 {
      assert parts[0] in parts;
      SplitNone(parts[0], sep);
      assert parts == [parts[0]];
    } else {
      assert parts[0] in parts;
      assert forall p | p in parts[1..] :: p in parts;
      JoinSplit(parts[1..], sep);
      SplitFirst(parts[0], Join(parts[1..], sep), sep);
      assert parts == [parts[0]] + parts[1..];
    }
  }

  lemma {:induction false} SplitNone(p: string, sep: char)
    requires sep !in p
    ensures Split(p, sep) == [p]
  {
    if p != "" {
      SplitNone(p[1..], sep);
      assert [p[0]] + p[1..] == p;
    }
  }

  lemma {:induction false} SplitFirst(p: string, rest: string, sep: char)
    requires sep !in p
    ensures Split(p + [sep] + rest, sep) == [p] + Split(rest, sep)
  {
    var s := p + [sep] + rest;
    if p == "" {
      assert s[1..] == rest;
    } else {
      assert s[1..] == p[1..] + [sep] + rest;
      SplitFirst(p[1..], rest, sep);
      assert [p[0]] + p[1..] == p;
      assert ([p[1..]] + Split(rest, sep))[1..] == Split(rest, sep);
    }
  }

  lemma {:induction false} LowerJoin(parts: seq<string>)
    requires |parts| >= 1
    ensures Join(LowerAll(parts), ':') == Lower(Join(parts, ':'))
    decreases |parts|
  {
    if |parts| > 1 {
      LowerJoin(parts[1..]);
      assert LowerAll(parts)[1..] == LowerAll(parts[1..]);
      LowerAppend(parts[0], [':'] + Join(parts[1..], ':'));
      LowerAppend([':'], Join(parts[1..], ':'));
      assert Lower([':']) == [':'];
      assert parts[0] + [':'] + Join(parts[1..], ':') == parts[0] + ([':'] + Join(parts[1..], ':'));
      assert Lower(parts[0]) + [':'] + Lower(Join(parts[1..], ':')) ==
             Lower(parts[0]) + ([':'] + Lower(Join(parts[1..], ':')));
    }
  }

  lemma JoinTwo(a: string, b: string)
    ensures Join([a, b], ':') == a + ":" + b
  {}

  lemma JoinThree(a: string, b: string, c: string)
    ensures Join([a, b, c], ':') == a + ":" + b + ":" + c
  {
    assert [a, b, c][1..] == [b, c];
    JoinTwo(b, c);
    assert a + [':'] + (b + ":" + c) == a + ":" + b + ":" + c;
  }

  // The canonical full name of a parsed text is its lower-cased form.
  lemma FullNameIsLower(input: string)
    requires Parse(input).Ok?
    ensures FullName(Parse(input).value) == Lower(input)
  {
    hide Lower, Join, FirstIllegal, HasDoubleUnderscore, Level1Domain, Level2Domain;
    var segments := Split(input, ':');
    SplitJoin(input, ':');
    LowerJoin(segments);
    var lower := LowerAll(segments);
    forall i | 0 <= i < |lower| ensures Lower(lower[i]) == lower[i] { LowerTwice(segments[i]); }
    if |lower| == 1 {
      JoinOne(lower[0]);
      assert lower == [lower[0]];
    } else if |lower| == 2 {
      JoinTwo(lower[0], lower[1]);
      assert lower == [lower[0], lower[1]];
    } else {
      JoinThree(lower[0], lower[1], lower[2]);
      assert lower == [lower[0], lower[1], lower[2]];
    }
  }

  lemma JoinOne(a: string)
    ensures Join([a], ':') == a
  {}

  lemma {:induction false} WhitespaceKeepsCase(s: string)
    ensures FirstWhitespace(Lower(s)) == FirstWhitespace(s)
  {
    if s != "" {
      assert Lower(s)[1..] == Lower(s[1..]);
      assert Lower(s)[0] == LowerChar(s[0]);
      WhitespaceKeepsCase(s[1..]);
    }
  }

  lemma {:induction false} IllegalKeepsCase(parts: seq<string>)
    ensures FirstIllegal(LowerAll(parts)) == FirstIllegal(parts)
  {
    if parts != [] {
      WhitespaceKeepsCase(parts[0]);
      assert LowerAll(parts)[1..] == LowerAll(parts[1..]);
      IllegalKeepsCase(parts[1..]);
    }
  }

  lemma SplitKeepsCase(s: string)
    ensures Split(Lower(s), ':') == LowerAll(Split(s, ':'))
  {
    var parts := Split(s, ':');
    SplitJoin(s, ':');
    LowerJoin(parts);
    forall p | p in LowerAll(parts) ensures ':' !in p {
      var i :| 0 <= i < |parts| && p == Lower(parts[i]);
      LowerColon(parts[i]);
      assert parts[i] in parts;
    }
    JoinSplit(LowerAll(parts), ':');
  }

  lemma UnderscoreKeepsCase(s: string)
    ensures HasDoubleUnderscore(Lower(s)) <==> HasDoubleUnderscore(s)
  {
    assert forall i | 0 <= i < |s| :: Lower(s)[i] == '_' <==> s[i] == '_';
  }

  // Names are case-insensitive: parsing sees only the lower-cased text, errors included.
  lemma ParseIgnoresCase(input: string)
    ensures Parse(Lower(input)) == Parse(input)
  {
    hide Lower, HasDoubleUnderscore, FirstIllegal, Classify, Split;
    var segments := Split(input, ':');
    UnderscoreKeepsCase(input);
    SplitKeepsCase(input);
    IllegalKeepsCase(segments);
    assert |Lower(input)| == |input|;
    assert "" in LowerAll(segments) <==> "" in segments by {
      if "" in segments {
        var i :| 0 <= i < |segments| && segments[i] == "";
        assert LowerAll(segments)[i] == "";
      }
      if "" in LowerAll(segments) {
        var i :| 0 <= i < |segments| && LowerAll(segments)[i] == "";
        assert segments[i] == "";
      }
    }
    assert LowerAll(LowerAll(segments)) == LowerAll(segments) by {
      forall i | 0 <= i < |segments| ensures Lower(Lower(segments[i])) == Lower(segments[i]) {
        LowerTwice(segments[i]);
      }
    }
  }

  // Full names are canonical: a name's full name parses back to the name.
  lemma FullNameParses(input: string)
    requires Parse(input).Ok?
    ensures Parse(FullName(Parse(input).value)) == Parse(input)
  {
    hide Parse, FullName;
    FullNameIsLower(input);
    ParseIgnoresCase(input);
  }

  lemma {:induction false} LegalParts(parts: seq<string>, sep: char)
    requires |parts| >= 1 && FirstIllegal(parts).None? && !Whitespace(sep)
    ensures forall c | c in Join(parts, sep) :: !Whitespace(c)
    decreases |parts|
  {
    if |parts| > 1 { LegalParts(parts[1..], sep); }
  }

  // A parsed text has no whitespace, and it is a bare name exactly when it has no colon.
  lemma ParsedShape(input: string)
    requires Parse(input).Ok?
    ensures input != "" && forall c | c in Lower(input) :: !Whitespace(c)
    ensures Parse(input).value.Bare? <==> ':' !in Lower(input)
    ensures Parse(input).value.Bare? ==> Parse(input).value.name == Lower(input)
    ensures ':' !in Parse(input).value.name
    ensures Parse(input).value.name != ""
  {
    hide HasDoubleUnderscore, Level1Domain, Level2Domain, FirstIllegal, Lower, Join;
    ParseIgnoresCase(input);
    FullNameIsLower(input);
    var segments := Split(Lower(input), ':');
    SplitJoin(Lower(input), ':');
    LegalParts(segments, ':');
    SplitKeepsCase(input);
    IllegalKeepsCase(Split(input, ':'));
    forall i | 0 <= i < |segments|
      ensures ':' !in segments[i] && segments[i] != "" && Lower(segments[i]) == segments[i]
    {
      assert segments[i] in segments;
      var s := Split(input, ':')[i];
      LowerTwice(s);
      assert s in Split(input, ':');
    }
    if |segments| == 1 { JoinOne(segments[0]); assert segments == [segments[0]]; }
    if |segments| == 2 { JoinTwo(segments[0], segments[1]); assert segments == [segments[0], segments[1]]; }
    if |segments| == 3 {
      JoinThree(segments[0], segments[1], segments[2]);
      assert segments == [segments[0], segments[1], segments[2]];
    }
  }

  // ---- which texts are names ----

  lemma {:induction false} FirstIllegalIs(parts: seq<string>)
    ensures FirstIllegal(parts) == FirstWhitespace(Join(parts + [""], ':'))
    decreases |parts|
  {
    if parts == [] {
      assert [] + [""] == [""];
    } else {
      assert (parts + [""])[1..] == parts[1..] + [""];
      FirstIllegalIs(parts[1..]);
      var rest := Join(parts[1..] + [""], ':');
      assert Join(parts + [""], ':') == parts[0] + ([':'] + rest);
      WhitespaceAppend(parts[0], [':'] + rest);
      assert ([':'] + rest)[1..] == rest && !Whitespace(':');
    }
  }

  lemma {:induction false} WhitespaceAppend(a: string, b: string)
    ensures FirstWhitespace(a + b) == if FirstWhitespace(a).Some? then FirstWhitespace(a) else FirstWhitespace(b)
  {
    if a == "" {
      assert a + b == b;
    } else {
      assert (a + b)[1..] == a[1..] + b;
      WhitespaceAppend(a[1..], b);
    }
  }

  // The first white space of a text.
  lemma {:induction false} FirstWhitespaceIs(s: string, c: char)
    ensures FirstWhitespace(s) == Some(c) <==>
            Whitespace(c) && exists i | 0 <= i < |s| :: s[i] == c && forall j | 0 <= j < i :: !Whitespace(s[j])
  {
    if s != "" {
      FirstWhitespaceIs(s[1..], c);
      if FirstWhitespace(s) == Some(c) && !Whitespace(s[0]) {
        var i :| 0 <= i < |s| - 1 && s[1..][i] == c && forall j | 0 <= j < i :: !Whitespace(s[1..][j]);
        forall j | 0 <= j < i + 1 ensures !Whitespace(s[j]) { if j > 0 { assert s[1..][j - 1] == s[j]; } }
        assert s[i + 1] == c;
      }
      if i :| 0 <= i < |s| && s[i] == c && Whitespace(c) && forall j | 0 <= j < i :: !Whitespace(s[j]) {
        if i > 0 {
          assert !Whitespace(s[0]);
          assert s[1..][i - 1] == c;
          assert forall j | 0 <= j < i - 1 :: s[1..][j] == s[j + 1];
        }
      }
    }
  }

  lemma EndColon(parts: seq<string>)
    requires |parts| >= 1
    ensures Join(parts + [""], ':') == Join(parts, ':') + ":"
    decreases |parts|
  {
    if |parts| == 1 {
      assert (parts + [""])[1..] == [""];
    } else {
      assert (parts + [""])[1..] == parts[1..] + [""];
      EndColon(parts[1..]);
      assert parts[0] + [':'] + (Join(parts[1..], ':') + ":") == parts[0] + [':'] + Join(parts[1..], ':') + ":";
    }
  }

  // What a text of given segments is, and the first error it has: checked in the order empty text, double
  // underscore, number of segments, empty segment, white space, domain.
  lemma ParseMeans(parts: seq<string>)
    requires |parts| >= 1 && forall p | p in parts :: ':' !in p
    ensures var text := Join(parts, ':');
            var lower := LowerAll(parts);
            var three := lower[0] in {"mcp", "plugin", "user"};
            Parse(text) ==
            if text == "" then Err(Empty)
            else if exists i | 0 <= i < |text| - 1 :: text[i] == text[i + 1] == '_' then Err(DoubleUnderscore)
            else if |parts| > 3 then Err(TooManySegments)
            else if "" in parts then Err(EmptySegment)
            else if FirstWhitespace(text).Some? then Err(IllegalCharacter(FirstWhitespace(text).value))
            else if |parts| == 1 then Ok(Bare(lower[0]))
            else if |parts| == 2 then
              if three then Err(MissingNamespace(lower[0]))
              else if lower[0] in {"core", "ui"} then Ok(Level1(lower[0], lower[1]))
              else Ok(Level2Short(lower[0], lower[1]))
            else if three then Ok(Level2(lower[0], lower[1], lower[2]))
            else Err(UnknownDomain(lower[0]))
  {
    hide Lower, FirstWhitespace, Join, FirstIllegal, Whitespace;
    var text := Join(parts, ':');
    JoinSplit(parts, ':');
    FirstIllegalIs(parts);
    EndColon(parts);
    WhitespaceAppend(text, ":");
    ColonIsLegal();
  }

  lemma ColonIsLegal()
    ensures FirstWhitespace(":") == None
  {
    assert ":"[1..] == "";
  }

  // Every text has segments.
  lemma EveryTextHasSegments(input: string) returns (parts: seq<string>)
    ensures |parts| >= 1 && (forall p | p in parts :: ':' !in p) && Join(parts, ':') == input
  {
    SplitJoin(input, ':');
    parts := Split(input, ':');
  }
}
