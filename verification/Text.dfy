// Text as the Rust code sees it. A `str` is the sequence of its UTF-8 bytes, and every byte is
// written as the character with that code, so lengths are byte lengths and string literals can be
// used for ASCII patterns.
module Text {
  import opened Wrappers

  predicate At(s: string, p: string, i: nat) {
    i + |p| <= |s| && s[i..i + |p|] == p
  }

  predicate Contains(s: string, p: string) { exists i: nat | i < |s| + 1 :: At(s, p, i) }

  // str::find with a string pattern: the first occurrence.
  function Find(s: string, p: string): (r: Option<nat>)
    ensures r.Some? ==> r.value + |p| <= |s|
    decreases |s|
  {
    if p <= s then Some(0)
    else if s == "" then None
    else
      match Find(s[1..], p)
      case None => None
      case Some(i) => Some(i + 1)
  }

  lemma AtStart(s: string, p: string)
    ensures At(s, p, 0) <==> p <= s
  {
    if |p| <= |s| { assert s[0..|p|] == s[..|p|]; }
  }

  lemma AtTail(s: string, p: string, j: nat)
    requires s != ""
    ensures At(s[1..], p, j) <==> At(s, p, j + 1)
  {
    if j + 1 + |p| <= |s| { assert s[1..][j..j + |p|] == s[j + 1..j + 1 + |p|]; }
  }

  // Find returns the least position where the pattern occurs, and None exactly when it occurs nowhere.
  lemma {:induction false} FindSpec(s: string, p: string)
    requires p != ""
    ensures var r := Find(s, p);
            && (r.Some? ==> At(s, p, r.value) && forall j: nat :: j < r.value ==> !At(s, p, j))
            && (r.Some? <==> Contains(s, p))
  {
    AtStart(s, p);
    if !(p <= s) && s != "" {
      FindSpec(s[1..], p);
      hide At;
      forall j: nat ensures At(s[1..], p, j) <==> At(s, p, j + 1) { AtTail(s, p, j); }
      forall j: nat | j > 0 ensures At(s, p, j) <==> At(s[1..], p, j - 1) { AtTail(s, p, j - 1); }
    }
  }

  lemma FindFirst(s: string, p: string, i: nat)
    requires p != "" && At(s, p, i)
    requires forall j: nat :: j < i ==> !At(s, p, j)
    ensures Find(s, p) == Some(i)
  {
    FindSpec(s, p);
    assert i < |s| + 1;
  }

  // A pattern whose first character does not come back inside it cannot straddle the end of a gap.
  lemma FindAfterGap(gap: string, p: string, rest: string)
    requires p != "" && p[0] !in p[1..]
    requires !Contains(gap, p)
    ensures Find(gap + p + rest, p) == Some(|gap|)
  {
    var s := gap + p + rest;
    forall j: nat | j < |gap| ensures !At(s, p, j) {
      if j + |p| <= |gap| {
        assert !At(gap, p, j);
        assert s[j..j + |p|] == gap[j..j + |p|];
      } else {
        var k := |gap| - j;
        assert p[1..][k - 1] == p[k];
        assert s[j..j + |p|][k] == p[0];
      }
    }
    assert s[|gap|..|gap| + |p|] == p;
    FindFirst(s, p, |gap|);
  }

  lemma ContainsNone(s: string, p: string)
    requires p != "" && p[0] !in s
    ensures !Contains(s, p)
  {
    forall i: nat | i < |s| + 1 ensures !At(s, p, i) {
      assert i + |p| <= |s| ==> s[i..i + |p|][0] == s[i];
    }
  }

  // str::find with a char pattern.
  function FindChar(s: string, c: char): (r: Option<nat>)
    ensures r.Some? ==> r.value < |s|
  {
    if s == "" then None
    else if s[0] == c then Some(0)
    else
      match FindChar(s[1..], c)
      case None => None
      case Some(i) => Some(i + 1)
  }

  lemma {:induction false} FindCharSpec(s: string, c: char)
    ensures var r := FindChar(s, c);
            && (r.Some? ==> s[r.value] == c && c !in s[..r.value])
            && (r.None? ==> c !in s)
  {
    if s != "" && s[0] != c {
      FindCharSpec(s[1..], c);
      var r := FindChar(s, c);
      if r.Some? { assert s[..r.value] == [s[0]] + s[1..][..r.value - 1]; }
    }
  }

  lemma {:induction false} FindCharAfter(p: string, c: char, rest: string)
    requires c !in p
    ensures FindChar(p + [c] + rest, c) == Some(|p|)
  {
    var s := p + [c] + rest;
    if p != "" {
      FindCharAfter(p[1..], c, rest);
      assert s[1..] == p[1..] + [c] + rest;
    }
  }

  function Code(c: char): nat { c as nat }

  // char::is_whitespace restricted to ASCII.
  predicate AsciiSpace(c: char) {
    Code(c) == 0x20 || 0x09 <= Code(c) <= 0x0D
  }

  // Two- and three-byte UTF-8 forms of the Unicode White_Space characters.
  predicate Space2(a: char, b: char) {
    Code(a) == 0xC2 && (Code(b) == 0x85 || Code(b) == 0xA0)
  }

  predicate Space3(a: char, b: char, c: char) {
    || (Code(a) == 0xE1 && Code(b) == 0x9A && Code(c) == 0x80)
    || (Code(a) == 0xE2 && Code(b) == 0x80
        && (0x80 <= Code(c) <= 0x8A || Code(c) == 0xA8 || Code(c) == 0xA9 || Code(c) == 0xAF))
    || (Code(a) == 0xE2 && Code(b) == 0x81 && Code(c) == 0x9F)
    || (Code(a) == 0xE3 && Code(b) == 0x80 && Code(c) == 0x80)
  }

  // Bytes of the whitespace character that starts s, 0 when s does not start with one.
  function LeadingSpace(s: string): (n: nat)
    ensures n <= |s|
  {
    if |s| >= 1 && AsciiSpace(s[0]) then 1
    else if |s| >= 2 && Space2(s[0], s[1]) then 2
    else if |s| >= 3 && Space3(s[0], s[1], s[2]) then 3
    else 0
  }

  function TrailingSpace(s: string): (n: nat)
    ensures n <= |s|
  {
    var k := |s|;
    if k >= 1 && AsciiSpace(s[k - 1]) then 1
    else if k >= 2 && Space2(s[k - 2], s[k - 1]) then 2
    else if k >= 3 && Space3(s[k - 3], s[k - 2], s[k - 1]) then 3
    else 0
  }

  function TrimStart(s: string): (r: string)
    ensures |r| <= |s|
    decreases |s|
  {
    var n := LeadingSpace(s);
    if n == 0 then s else TrimStart(s[n..])
  }

  function TrimEnd(s: string): (r: string)
    ensures |r| <= |s|
    decreases |s|
  {
    var n := TrailingSpace(s);
    if n == 0 then s else TrimEnd(s[..|s| - n])
  }

  function Trim(s: string): string { TrimEnd(TrimStart(s)) }

  function Concat(parts: seq<string>): string {
    if parts == [] then "" else parts[0] + Concat(parts[1..])
  }
}
