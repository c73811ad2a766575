// escape_xml and unescape_xml.
module XmlEscape {
  import opened Wrappers
  import opened Text

  // str::replace with a char pattern.
  function ReplaceChar(s: string, c: char, t: string): string {
    if s == "" then "" else (if s[0] == c then t else [s[0]]) + ReplaceChar(s[1..], c, t)
  }

  function EscapeXml(s: string): string {
    ReplaceChar(
      ReplaceChar(
        ReplaceChar(
          ReplaceChar(
            ReplaceChar(s, '&', "&amp;"), '<', "&lt;"), '>', "&gt;"), '"', "&quot;"), '\'', "&apos;")
  }

  // The entity one character is printed as; characters without one stand for themselves.
  function Entity(c: char): (e: string) {
    if c == '&' then "&amp;"
    else if c == '<' then "&lt;"
    else if c == '>' then "&gt;"
    else if c == '"' then "&quot;"
    else if c == '\'' then "&apos;"
    else [c]
  }

  // One pass, one character at a time.
  function Substitute(s: string): string {
    if s == "" then "" else Entity(s[0]) + Substitute(s[1..])
  }

  predicate Reserved(c: char) { c == '<' || c == '>' || c == '"' || c == '\'' }

  // Decodes the entity at the front of s: its character and its length.
  function FrontEntity(s: string): (r: Option<(char, nat)>)
    ensures r.Some? ==> 0 < r.value.1 <= |s|
  {
    if "&amp;" <= s then Some(('&', 5))
    else if "&lt;" <= s then Some(('<', 4))
    else if "&gt;" <= s then Some(('>', 4))
    else if "&quot;" <= s then Some(('"', 6))
    else if "&apos;" <= s then Some(('\'', 6))
    else None
  }

  function Prepend(p: string, r: Option<string>): Option<string> {
    match r case None => None case Some(t) => Some(p + t)
  }

  // What unescaping means, one character at a time.
  function UnescapeXml(s: string): Option<string>
    decreases |s|
  {
    if s == "" then Some("")
    else if s[0] != '&' then Prepend([s[0]], UnescapeXml(s[1..]))
    else
      match FrontEntity(s)
      case None => None
      case Some((c, n)) => Prepend([c], UnescapeXml(s[n..]))
  }

  lemma {:induction false} UnescapePlainPrefix(p: string, rest: string)
    requires '&' !in p
    ensures UnescapeXml(p + rest) == Prepend(p, UnescapeXml(rest))
  {
    var r := UnescapeXml(rest);
    if p == "" {
      assert p + rest == rest;
      assert r.Some? ==> p + r.value == r.value;
    } else {
      assert (p + rest)[1..] == p[1..] + rest;
      UnescapePlainPrefix(p[1..], rest);
      if r.Some? { assert [p[0]] + (p[1..] + r.value) == p + r.value; }
    }
  }

  lemma PrependTwice(p: string, q: string, r: Option<string>)
    ensures Prepend(p, Prepend(q, r)) == Prepend(p + q, r)
  {
    if r.Some? { assert p + (q + r.value) == (p + q) + r.value; }
  }

  lemma PrependNothing(r: Option<string>)
    ensures Prepend("", r) == r
  {
    if r.Some? { assert "" + r.value == r.value; }
  }

  // What is unescaped up to and including the entity at an ampersand.
  lemma UnescapeAmpersand(rest: string, index: nat)
    requires index < |rest| && '&' !in rest[..index] && rest[index] == '&'
    ensures var front := FrontEntity(rest[index..]);
            UnescapeXml(rest) == if front.None? then None
                                 else Prepend(rest[..index] + [front.value.0],
                                              UnescapeXml(rest[index..][front.value.1..]))
  {
    hide FrontEntity, Prepend;
    var encoded := rest[index..];
    assert rest == rest[..index] + encoded;
    UnescapePlainPrefix(rest[..index], encoded);
    var front := FrontEntity(encoded);
    if front.Some? {
      PrependTwice(rest[..index], [front.value.0], UnescapeXml(encoded[front.value.1..]));
    } else {
      PrependFails(rest[..index]);
    }
  }

  lemma PrependFails(p: string)
    ensures Prepend(p, None) == None
  {}

  // The scanning loop: jump to the next '&', copy what was skipped, decode one entity.
  method UnescapeXmlLoop(value: string) returns (r: Option<string>)
    ensures r == UnescapeXml(value)
  {
    hide FindChar, FrontEntity, UnescapeXml, Prepend;
    var result, rest := "", value;
    PrependNothing(UnescapeXml(value));
    while true
      invariant UnescapeXml(value) == Prepend(result, UnescapeXml(rest))
      decreases |rest|
    {
      var at := FindChar(rest, '&');
      FindCharSpec(rest, '&');
      if at.None? {
        UnescapePlain(rest);
        PrependSome(result, rest);
        return Some(result + rest);
      }
      var index := at.value;
      UnescapeAmpersand(rest, index);
      PrependFails(result);
      ghost var before := result;
      ghost var skipped := rest[..index];
      result := result + rest[..index];
      var encoded := rest[index..];
      var decoded := FrontEntity(encoded);
      if decoded.None? { return None; }
      var (c, consumed) := decoded.value;
      rest := encoded[consumed..];
      PrependTwice(before, skipped + [c], UnescapeXml(rest));
      assert before + (skipped + [c]) == result + [c];
      result := result + [c];
    }
  }

  lemma UnescapePlain(s: string)
    requires '&' !in s
    ensures UnescapeXml(s) == Some(s)
  {
    UnescapePlainPrefix(s, "");
    assert s + "" == s;
  }

  lemma PrependSome(p: string, s: string)
    ensures Prepend(p, Some(s)) == Some(p + s)
  {}

  lemma {:induction false} ReplaceAppend(a: string, b: string, c: char, t: string)
    ensures ReplaceChar(a + b, c, t) == ReplaceChar(a, c, t) + ReplaceChar(b, c, t)
  {
    if a == "" {
      assert a + b == b;
    } else {
      assert (a + b)[1..] == a[1..] + b;
      ReplaceAppend(a[1..], b, c, t);
    }
  }

  lemma {:induction false} ReplaceAbsent(s: string, c: char, t: string)
    requires c !in s
    ensures ReplaceChar(s, c, t) == s
  {
    if s != "" { ReplaceAbsent(s[1..], c, t); }
  }

  lemma EscapeAppend(a: string, b: string)
    ensures EscapeXml(a + b) == EscapeXml(a) + EscapeXml(b)
  {
    ReplaceAppend(a, b, '&', "&amp;");
    var a1, b1 := ReplaceChar(a, '&', "&amp;"), ReplaceChar(b, '&', "&amp;");
    ReplaceAppend(a1, b1, '<', "&lt;");
    var a2, b2 := ReplaceChar(a1, '<', "&lt;"), ReplaceChar(b1, '<', "&lt;");
    ReplaceAppend(a2, b2, '>', "&gt;");
    var a3, b3 := ReplaceChar(a2, '>', "&gt;"), ReplaceChar(b2, '>', "&gt;");
    ReplaceAppend(a3, b3, '"', "&quot;");
    var a4, b4 := ReplaceChar(a3, '"', "&quot;"), ReplaceChar(b3, '"', "&quot;");
    ReplaceAppend(a4, b4, '\'', "&apos;");
  }

  lemma ReplaceWhole(e: string, c: char, t: string)
    requires c !in e || e == [c]
    ensures ReplaceChar(e, c, t) == if e == [c] then t else e
  {
    if e == [c] {
      assert ReplaceChar(e[1..], c, t) == "";
    } else {
      ReplaceAbsent(e, c, t);
    }
  }

  lemma EntityClean(x: char, c: char)
    requires Reserved(c)
    ensures c !in Entity(x)
  {}

  // A pass leaves the entities of the earlier passes alone.
  lemma Pass(x: char, c: char, done: bool)
    requires done ==> Reserved(c) && x != c
    ensures var s := if done then Entity(x) else [x];
            ReplaceChar(s, c, Entity(c)) == if x == c then Entity(c) else s
  {
    if done { EntityClean(x, c); }
    ReplaceWhole(if done then Entity(x) else [x], c, Entity(c));
  }

  lemma EscapeOne(x: char)
    ensures EscapeXml([x]) == Entity(x)
  {
    Pass(x, '&', false);
    Pass(x, '<', x == '&');
    Pass(x, '>', x == '&' || x == '<');
    Pass(x, '"', x == '&' || x == '<' || x == '>');
    Pass(x, '\'', x == '&' || x == '<' || x == '>' || x == '"');
  }

  // The five passes equal one substitution per character.
  lemma {:induction false} EscapeIsSubstitution(s: string)
    ensures EscapeXml(s) == Substitute(s)
  {
    if s != "" {
      EscapeAppend([s[0]], s[1..]);
      assert s == [s[0]] + s[1..];
      EscapeOne(s[0]);
      EscapeIsSubstitution(s[1..]);
    }
  }

  lemma {:induction false} SubstituteClean(s: string)
    ensures forall c | c in Substitute(s) :: !Reserved(c)
    ensures |s| <= |Substitute(s)| <= 6 * |s|
  {
    if s != "" { SubstituteClean(s[1..]); }
  }

  // Escaped text holds no markup character and is at most six times as long.
  lemma EscapeClean(s: string)
    ensures forall c | c in EscapeXml(s) :: !Reserved(c)
    ensures |s| <= |EscapeXml(s)| <= 6 * |s|
  {
    EscapeIsSubstitution(s);
    SubstituteClean(s);
  }

  // ---- escape and unescape are inverse ----

  lemma FrontEntityOf(c: char, rest: string)
    requires Entity(c) != [c]
    ensures FrontEntity(Entity(c) + rest) == Some((c, |Entity(c)|))
  {
    var s := Entity(c) + rest;
    assert Entity(c) <= s;
    assert s[1] == Entity(c)[1] && s[2] == Entity(c)[2];
  }

  lemma {:induction false} UnescapeEntity(c: char, rest: string)
    ensures UnescapeXml(Entity(c) + rest) == Prepend([c], UnescapeXml(rest))
  {
    var s := Entity(c) + rest;
    if Entity(c) == [c] {
      assert s[1..] == rest;
    } else {
      FrontEntityOf(c, rest);
      assert s[|Entity(c)|..] == rest;
      assert s[0] == '&';
    }
  }

  lemma {:induction false} UnescapeEscape(s: string)
    ensures UnescapeXml(EscapeXml(s)) == Some(s)
  {
    EscapeIsSubstitution(s);
    if s != "" {
      EscapeIsSubstitution(s[1..]);
      UnescapeEscape(s[1..]);
      UnescapeEntity(s[0], Substitute(s[1..]));
      assert [s[0]] + s[1..] == s;
    }
  }

  lemma FrontEntityIs(e: string)
    requires FrontEntity(e).Some?
    ensures var (c, n) := FrontEntity(e).value; Entity(c) == e[..n]
  {
    var (c, n) := FrontEntity(e).value;
    assert Entity(c) <= e;
  }

  // The first decoded character and the text it was decoded from.
  lemma UnescapeHead(e: string) returns (n: nat)
    requires e != "" && UnescapeXml(e).Some?
    requires forall c | c in e :: !Reserved(c)
    ensures 0 < n <= |e| && UnescapeXml(e[n..]).Some?
    ensures var s := UnescapeXml(e).value;
            s != "" && e[..n] == Entity(s[0]) && UnescapeXml(e[n..]).value == s[1..]
  {
    if e[0] == '&' {
      FrontEntityIs(e);
      n := FrontEntity(e).value.1;
    } else {
      n := 1;
      assert e[0] in e;
      assert e[..1] == [e[0]];
    }
  }

  // The other way round: text without raw markup characters that decodes at all is exactly the
  // escaping of what it decodes to, so escaping is a bijection onto such text.
  lemma {:induction false} EscapeUnescape(e: string)
    requires UnescapeXml(e).Some?
    requires forall c | c in e :: !Reserved(c)
    ensures EscapeXml(UnescapeXml(e).value) == e
    decreases |e|
  {
    hide EscapeXml, Entity, Reserved;
    var s := UnescapeXml(e).value;
    EscapeIsSubstitution(s);
    if e != "" {
      var n := UnescapeHead(e);
      assert forall c | c in e[n..] :: c in e;
      EscapeUnescape(e[n..]);
      EscapeIsSubstitution(s[1..]);
      assert e == e[..n] + e[n..];
    }
  }
}
