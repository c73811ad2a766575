// Repairing illegal escapes in the judge's JSON answer. Text is a sequence of code units.
module JudgeRepair {

  predicate HexDigit(c: char) { '0' <= c <= '9' || 'a' <= c <= 'f' || 'A' <= c <= 'F' }

  predicate SimpleEscape(c: char) {
    c == '"' || c == '\\' || c == '/' || c == 'b' || c == 'f' || c == 'n' || c == 'r' || c == 't'
  }

  // s starts with a backslash, a u and four hexadecimal digits.
  predicate UnicodeEscape(s: string) {
    |s| >= 6 && s[1] == 'u' && HexDigit(s[2]) && HexDigit(s[3]) && HexDigit(s[4]) && HexDigit(s[5])
  }

  // What the scan does at a backslash: how much it consumes and what it writes.
  function AtBackslash(s: string): (r: (nat, string))
    requires s != "" && s[0] == '\\'
    ensures 0 < r.0 <= |s|
  {
    if UnicodeEscape(s) then (6, s[..6])
    else if |s| >= 2 && SimpleEscape(s[1]) then (2, s[..2])
    else if |s| >= 2 then (2, "\\\\" + [s[1]])
    else (1, "\\\\")
  }

  function Repair(s: string): string
    decreases |s|
  {
    if s == "" then ""
    else if s[0] != '\\' then [s[0]] + Repair(s[1..])
    else
      var (n, written) := AtBackslash(s);
      written + Repair(s[n..])
  }

  method RepairLoop(raw: string) returns (result: string)
    ensures result == Repair(raw)
  {
    result := "";
    var i := 0;
    assert raw[0..] == raw;
    while i < |raw|
      invariant i <= |raw|
      invariant result + Repair(raw[i..]) == Repair(raw)
    {
      var s := raw[i..];
      ghost var before := result;
      if s[0] != '\\' {
        assert s[1..] == raw[i + 1..];
        result := result + [s[0]];
        assert before + ([s[0]] + Repair(s[1..])) == result + Repair(s[1..]);
        i := i + 1;
      } else {
        var (n, written) := AtBackslash(s);
        assert s[n..] == raw[i + n..];
        result := result + written;
        assert before + (written + Repair(s[n..])) == result + Repair(s[n..]);
        i := i + n;
      }
    }
    assert result + "" == result;
  }

  // Every backslash starts a legal escape (section 7 of RFC 8259).
  predicate Legal(s: string)
    decreases |s|
  {
    s == ""
    || (s[0] != '\\' && Legal(s[1..]))
    || (s[0] == '\\' && UnicodeEscape(s) && Legal(s[6..]))
    || (s[0] == '\\' && |s| >= 2 && SimpleEscape(s[1]) && Legal(s[2..]))
  }

  predicate HexChar(c: char) { c in "0123456789abcdefABCDEF" }

  // The escapes of section 7 of RFC 8259.
  lemma EscapesExactly(s: string)
    ensures forall c :: SimpleEscape(c) <==> c in {'"', '\\', '/', 'b', 'f', 'n', 'r', 't'}
    ensures UnicodeEscape(s) <==> |s| >= 6 && s[1] == 'u' && forall i | 2 <= i < 6 :: HexChar(s[i])
  {
    hide HexChar, HexDigit;
    if |s| >= 6 {
      HexExactly(s[2]);
      HexExactly(s[3]);
      HexExactly(s[4]);
      HexExactly(s[5]);
    }
  }

  lemma HexExactly(c: char)
    ensures HexDigit(c) <==> HexChar(c)
  {
    var digits := "0123456789abcdefABCDEF";
    if '0' <= c <= '9' { assert digits[c as nat - 48] == c; }
    if 'a' <= c <= 'f' { assert digits[c as nat - 87] == c; }
    if 'A' <= c <= 'F' { assert digits[c as nat - 49] == c; }
  }

  lemma LegalAfter(written: string, rest: string)
    requires |written| >= 1 && Legal(rest)
    requires || (|written| == 1 && written[0] != '\\')
             || (|written| == 2 && written[0] == '\\' && SimpleEscape(written[1]))
             || (|written| == 6 && written[0] == '\\' && UnicodeEscape(written))
    ensures Legal(written + rest)
  {
    assert (written + rest)[|written|..] == rest;
  }

  // Whatever comes in, what goes out is legal.
  lemma {:induction false} RepairIsLegal(s: string)
    ensures Legal(Repair(s))
    decreases |s|
  {
    hide Legal;
    if s == "" {
      LegalEmpty();
    } else if s[0] != '\\' {
      RepairIsLegal(s[1..]);
      LegalAfter([s[0]], Repair(s[1..]));
    } else {
      var (n, written) := AtBackslash(s);
      var rest := Repair(s[n..]);
      RepairIsLegal(s[n..]);
      if written == s[..n] {
        LegalAfter(written, rest);
      } else if |s| >= 2 {
        LegalAfter([s[1]], rest);
        LegalAfter("\\\\", [s[1]] + rest);
        assert written + rest == "\\\\" + ([s[1]] + rest);
      } else {
        LegalAfter("\\\\", rest);
      }
    }
  }

  lemma LegalEmpty()
    ensures Legal("")
  {}

  // Legal text is left as it is.
  lemma {:induction false} LegalIsKept(s: string)
    requires Legal(s)
    ensures Repair(s) == s
    decreases |s|
  {
    if s != "" {
      if s[0] != '\\' {
        LegalIsKept(s[1..]);
        assert [s[0]] + s[1..] == s;
      } else {
        var (n, written) := AtBackslash(s);
        if UnicodeEscape(s) { assert !SimpleEscape('u'); }
        LegalIsKept(s[n..]);
        assert s[..n] + s[n..] == s;
      }
    }
  }

  // So repairing changes exactly the illegal texts, and once is enough.
  lemma RepairFixpoints(s: string)
    ensures Repair(s) == s <==> Legal(s)
    ensures Repair(Repair(s)) == Repair(s)
  {
    RepairIsLegal(s);
    LegalIsKept(Repair(s));
    if Legal(s) { LegalIsKept(s); }
  }

  // ---- meaning ----

  function HexValue(c: char): nat
    requires HexDigit(c)
  {
    if '0' <= c <= '9' then c as nat - '0' as nat
    else if 'a' <= c <= 'f' then c as nat - 'a' as nat + 10
    else c as nat - 'A' as nat + 10
  }

  function EscapeValue(c: char): nat
    requires SimpleEscape(c)
  {
    match c
    case 'b' => 0x08
    case 'f' => 0x0C
    case 'n' => 0x0A
    case 'r' => 0x0D
    case 't' => 0x09
    case _ => c as nat
  }

  // The code units a text stands for. On legal text this is the decoding of JSON string contents; a
  // backslash that starts no legal escape stands for itself.
  function Units(s: string): seq<nat>
    decreases |s|
  {
    if s == "" then []
    else if s[0] != '\\' then [s[0] as nat] + Units(s[1..])
    else if UnicodeEscape(s) then
      [((HexValue(s[2]) * 16 + HexValue(s[3])) * 16 + HexValue(s[4])) * 16 + HexValue(s[5])] + Units(s[6..])
    else if |s| >= 2 && SimpleEscape(s[1]) then [EscapeValue(s[1])] + Units(s[2..])
    else ['\\' as nat] + Units(s[1..])
  }

  lemma UnitsDoubled(rest: string)
    ensures Units("\\\\" + rest) == ['\\' as nat] + Units(rest)
  {
    var s := "\\\\" + rest;
    assert s[2..] == rest && s[1] == '\\';
  }

  lemma UnitsPlain(c: char, rest: string)
    requires c != '\\'
    ensures Units([c] + rest) == [c as nat] + Units(rest)
  {
    assert ([c] + rest)[1..] == rest;
  }

  // A legal escape stands for one code unit, whatever follows it.
  lemma UnitsEscape(e: string, a: string, b: string)
    requires |e| >= 2 && e[0] == '\\' && Units(a) == Units(b)
    requires (|e| == 6 && UnicodeEscape(e)) || (|e| == 2 && SimpleEscape(e[1]))
    ensures Units(e + a) == Units(e + b)
  {
    hide HexValue, HexDigit, EscapeValue;
    assert (e + a)[|e|..] == a && (e + b)[|e|..] == b;
  }

  // Repairing keeps the meaning: stray backslashes come out as literal backslashes, everything else
  // as it was.
  lemma {:induction false} RepairKeepsMeaning(s: string)
    ensures Units(Repair(s)) == Units(s)
    decreases |s|
  {
    hide HexValue, HexDigit, EscapeValue;
    if s != "" {
      if s[0] != '\\' {
        RepairKeepsMeaning(s[1..]);
        UnitsPlain(s[0], Repair(s[1..]));
      } else {
        var (n, written) := AtBackslash(s);
        var rest := Repair(s[n..]);
        RepairKeepsMeaning(s[n..]);
        if UnicodeEscape(s) || (|s| >= 2 && SimpleEscape(s[1])) {
          UnitsEscape(s[..n], rest, s[n..]);
          assert s == s[..n] + s[n..];
        } else {
          StrayKeepsMeaning(s, n, rest);
        }
      }
    }
  }

  lemma StrayKeepsMeaning(s: string, n: nat, rest: string)
    requires s != "" && s[0] == '\\' && !UnicodeEscape(s) && !(|s| >= 2 && SimpleEscape(s[1]))
    requires n == AtBackslash(s).0 && Units(rest) == Units(s[n..])
    ensures Units(AtBackslash(s).1 + rest) == Units(s)
  {
    hide HexValue, HexDigit, EscapeValue;
    if |s| >= 2 {
      assert "\\\\" + [s[1]] + rest == "\\\\" + ([s[1]] + rest);
      UnitsDoubled([s[1]] + rest);
      UnitsPlain(s[1], rest);
      assert s[1..] == [s[1]] + s[2..];
      UnitsPlain(s[1], s[2..]);
    } else {
      UnitsDoubled(rest);
    }
  }
}
