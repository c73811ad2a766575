// White space is what the Unicode standard says, as characters and as UTF-8 bytes.
module UnicodeSpace {
  import opened Text
  import CommandName

  // The code points with the White_Space property.
  const CODES: set<nat> := {
    0x09, 0x0A, 0x0B, 0x0C, 0x0D, 0x20, 0x85, 0xA0, 0x1680,
    0x2000, 0x2001, 0x2002, 0x2003, 0x2004, 0x2005, 0x2006, 0x2007, 0x2008, 0x2009, 0x200A,
    0x2028, 0x2029, 0x202F, 0x205F, 0x3000
  }

  lemma WhitespaceExactly(c: char)
    ensures CommandName.Whitespace(c) <==> c as nat in CODES
  {}

  function Byte(n: nat): char
    requires n < 256
  {
    n as char
  }

  // The UTF-8 form of a code point (section 3 of RFC 3629).
  function Utf8Form(code: nat): string
    requires code < 0x110000
  {
    if code < 0x80 then [Byte(code)]
    else if code < 0x800 then [Byte(0xC0 + code / 64), Byte(0x80 + code % 64)]
    else if code >= 0x10000 then
      [Byte(0xF0 + code / 262144), Byte(0x80 + code / 4096 % 64), Byte(0x80 + code / 64 % 64), Byte(0x80 + code % 64)]
    else [Byte(0xE0 + code / 4096), Byte(0x80 + code / 64 % 64), Byte(0x80 + code % 64)]
  }

  predicate SpaceForm(form: string) { exists code | code in CODES :: code < 0x10000 && Utf8Form(code) == form }

  lemma OneByte(a: char)
    ensures SpaceForm([a]) <==> AsciiSpace(a)
  {
    if AsciiSpace(a) { assert Utf8Form(a as nat) == [a] && a as nat in CODES; }
    if SpaceForm([a]) {
      var code :| code in CODES && code < 0x10000 && Utf8Form(code) == [a];
      assert [a][0] == Byte(code);
    }
  }

  lemma TwoBytes(a: char, b: char)
    ensures SpaceForm([a, b]) <==> Space2(a, b)
  {
    if Space2(a, b) {
      var code := if Code(b) == 0x85 then 0x85 else 0xA0;
      assert Utf8Form(code) == [a, b];
    }
    if SpaceForm([a, b]) {
      var code :| code in CODES && code < 0x10000 && Utf8Form(code) == [a, b];
      assert code == 0x85 || code == 0xA0;
      assert [a, b][0] == Byte(0xC0 + code / 64) && [a, b][1] == Byte(0x80 + code % 64);
    }
  }

  lemma ThreeBytes(a: char, b: char, c: char)
    ensures SpaceForm([a, b, c]) <==> Space3(a, b, c)
  {
    hide SpaceForm, Space3;
    SpaceIsForm(a, b, c);
    FormIsSpace(a, b, c);
  }

  lemma SpaceIsForm(a: char, b: char, c: char)
    ensures Space3(a, b, c) ==> SpaceForm([a, b, c])
  {
    if Space3(a, b, c) {
      var code := (Code(a) - 0xE0) * 4096 + (Code(b) - 0x80) * 64 + (Code(c) - 0x80);
      assert code in CODES;
      FormOf(code, a, b, c);
    }
  }

  lemma FormIsSpace(a: char, b: char, c: char)
    ensures SpaceForm([a, b, c]) ==> Space3(a, b, c)
  {
    if SpaceForm([a, b, c]) {
      var code :| code in CODES && code < 0x10000 && Utf8Form(code) == [a, b, c];
      assert code >= 0x800;
      FormBytes(code, a, b, c);
      WideCode(code);
      hide Utf8Form, SpaceForm;
      WideBytes(code);
    }
  }

  // The code points of three bytes.
  predicate Wide(code: nat) {
    || code == 0x1680 || 0x2000 <= code <= 0x200A || code == 0x2028 || code == 0x2029 || code == 0x202F
    || code == 0x205F || code == 0x3000
  }

  lemma WideCode(code: nat)
    requires code in CODES && code >= 0x800
    ensures Wide(code)
  {}

  lemma WideBytes(code: nat)
    requires Wide(code)
    ensures code < 0x10000 && 0xE0 + code / 4096 < 256
    ensures Space3(Byte(0xE0 + code / 4096), Byte(0x80 + code / 64 % 64), Byte(0x80 + code % 64))
  {}

  lemma FormOf(code: nat, a: char, b: char, c: char)
    requires 0xE0 <= Code(a) < 0xF0 && 0x80 <= Code(b) < 0xC0 && 0x80 <= Code(c) < 0xC0
    requires code == (Code(a) - 0xE0) * 4096 + (Code(b) - 0x80) * 64 + (Code(c) - 0x80) && code >= 0x800
    ensures code < 0x10000 && Utf8Form(code) == [a, b, c]
  {
    assert code / 4096 == Code(a) - 0xE0 && code / 64 % 64 == Code(b) - 0x80 && code % 64 == Code(c) - 0x80;
  }

  lemma FormBytes(code: nat, a: char, b: char, c: char)
    requires 0x800 <= code < 0x10000 && Utf8Form(code) == [a, b, c]
    ensures Code(a) == 0xE0 + code / 4096 && Code(b) == 0x80 + code / 64 % 64 && Code(c) == 0x80 + code % 64
  {
    assert [a, b, c][0] == Byte(0xE0 + code / 4096) && [a, b, c][1] == Byte(0x80 + code / 64 % 64);
    assert [a, b, c][2] == Byte(0x80 + code % 64);
  }

  lemma FormLength(form: string)
    ensures SpaceForm(form) ==> 1 <= |form| <= 3
  {}

  // A text starts with white space of n bytes if and only if its first n bytes are the UTF-8 form of one of
  // these code points; and so at its end.
  lemma LeadingSpaceExactly(s: string, n: nat)
    requires 0 < n <= |s|
    ensures LeadingSpace(s) == n <==> SpaceForm(s[..n])
  {
    FrontSpace(s, n);
    SpaceOf(s[..n]);
  }

  lemma TrailingSpaceExactly(s: string, n: nat)
    requires 0 < n <= |s|
    ensures TrailingSpace(s) == n <==> SpaceForm(s[|s| - n..])
  {
    BackSpace(s, n);
    SpaceOf(s[|s| - n..]);
  }

  // White space of different lengths at the end of a text excludes each other, as it does at its front.
  predicate OneSpace(s: string) {
    || (|s| == 1 && AsciiSpace(s[0]))
    || (|s| == 2 && Space2(s[0], s[1]))
    || (|s| == 3 && Space3(s[0], s[1], s[2]))
  }

  lemma FrontSpace(s: string, n: nat)
    requires 0 < n <= |s|
    ensures LeadingSpace(s) == n <==> OneSpace(s[..n])
  {}

  lemma BackSpace(s: string, n: nat)
    requires 0 < n <= |s|
    ensures TrailingSpace(s) == n <==> OneSpace(s[|s| - n..])
  {}

  lemma SpaceOf(s: string)
    requires s != ""
    ensures OneSpace(s) <==> SpaceForm(s)
  {
    FormLength(s);
    hide SpaceForm, AsciiSpace, Space2, Space3;
    if |s| == 1 {
      assert s == [s[0]];
      OneByte(s[0]);
    } else if |s| == 2 {
      assert s == [s[0], s[1]];
      TwoBytes(s[0], s[1]);
    } else if |s| == 3 {
      assert s == [s[0], s[1], s[2]];
      ThreeBytes(s[0], s[1], s[2]);
    }
  }
}
