// Conversion between file paths and file URIs. Text is its UTF-8 bytes, each written as the character
// with that code.
module FileUri {
  import opened Wrappers

  type Byte = c: char | c as int < 256 witness 'a'

  type Bytes = seq<Byte>

  // Characters printed as they are (section 2.3 of RFC 3986, and the separators '/' and ':').
  predicate Plain(c: Byte) {
    'A' <= c <= 'Z' || 'a' <= c <= 'z' || '0' <= c <= '9'
    || c == '-' || c == '.' || c == '_' || c == '~' || c == '/' || c == ':'
  }

  function HexDigit(n: nat): (c: Byte)
    requires n < 16
  {
    if n < 10 then (n + '0' as nat) as char else (n - 10 + 'A' as nat) as char
  }

  function HexValue(c: Byte): (r: Option<nat>)
    ensures r.Some? ==> r.value < 16
  {
    if '0' <= c <= '9' then Some(c as nat - '0' as nat)
    else if 'a' <= c <= 'f' then Some(c as nat - 'a' as nat + 10)
    else if 'A' <= c <= 'F' then Some(c as nat - 'A' as nat + 10)
    else None
  }

  function Encoded(c: Byte): Bytes {
    if Plain(c) then [c] else ['%', HexDigit(c as nat / 16), HexDigit(c as nat % 16)]
  }

  function PercentEncode(s: Bytes): Bytes {
    if s == [] then [] else Encoded(s[0]) + PercentEncode(s[1..])
  }

  // The byte a percent triple at the front stands for.
  function Triple(s: Bytes): Option<Byte> {
    if |s| > 2 && s[0] == '%' && HexValue(s[1]).Some? && HexValue(s[2]).Some?
    then Some((HexValue(s[1]).value * 16 + HexValue(s[2]).value) as char)
    else None
  }

  // A percent sign that starts no triple stands for itself.
  function PercentDecode(s: Bytes): Bytes
    decreases |s|
  {
    if s == [] then []
    else if Triple(s).Some? then [Triple(s).value] + PercentDecode(s[3..])
    else [s[0]] + PercentDecode(s[1..])
  }

  lemma EncodeFrom(s: Bytes, i: nat)
    requires i <= |s|
    ensures i < |s| ==> PercentEncode(s[i..]) == Encoded(s[i]) + PercentEncode(s[i + 1..])
    ensures i == |s| ==> PercentEncode(s[i..]) == []
  {
    if i < |s| { assert s[i..][1..] == s[i + 1..]; }
  }

  method PercentEncodeLoop(s: Bytes) returns (out: Bytes)
    ensures out == PercentEncode(s)
  {
    hide PercentEncode, HexDigit, Plain;
    out := [];
    EncodeFrom(s, |s|);
    assert s[0..] == s;
    for i := 0 to |s|
      invariant out + PercentEncode(s[i..]) == PercentEncode(s)
    {
      ghost var before, rest := out, PercentEncode(s[i + 1..]);
      EncodeFrom(s, i);
      if Plain(s[i]) {
        out := out + [s[i]];
      } else {
        out := out + ['%', HexDigit(s[i] as nat / 16), HexDigit(s[i] as nat % 16)];
      }
      assert before + (Encoded(s[i]) + rest) == out + rest;
    }
    assert out + [] == out;
  }

  method PercentDecodeLoop(s: Bytes) returns (out: Bytes)
    ensures out == PercentDecode(s)
  {
    out := [];
    var i := 0;
    assert s[0..] == s;
    while i < |s|
      invariant i <= |s|
      invariant out + PercentDecode(s[i..]) == PercentDecode(s)
    {
      ghost var rest := s[i..];
      ghost var before := out;
      assert rest[1..] == s[i + 1..];
      if s[i] == '%' && i + 2 < |s| && HexValue(s[i + 1]).Some? && HexValue(s[i + 2]).Some? {
        assert rest[3..] == s[i + 3..];
        var b: Byte := (HexValue(s[i + 1]).value * 16 + HexValue(s[i + 2]).value) as char;
        out := out + [b];
        assert before + ([b] + PercentDecode(rest[3..])) == out + PercentDecode(rest[3..]);
        i := i + 3;
      } else {
        out := out + [s[i]];
        assert before + ([s[i]] + PercentDecode(rest[1..])) == out + PercentDecode(rest[1..]);
        i := i + 1;
      }
    }
    assert out + [] == out;
  }

  lemma DecodeEncodedByte(c: Byte, rest: Bytes)
    ensures PercentDecode(Encoded(c) + rest) == [c] + PercentDecode(rest)
  {
    var s := Encoded(c) + rest;
    if Plain(c) {
      assert s[1..] == rest;
    } else {
      assert s[3..] == rest;
      assert HexValue(HexDigit(c as nat / 16)) == Some(c as nat / 16);
      assert HexValue(HexDigit(c as nat % 16)) == Some(c as nat % 16);
      assert Triple(s) == Some(c);
    }
  }

  // Decoding undoes encoding for every byte string.
  lemma {:induction false} DecodeEncode(s: Bytes)
    ensures PercentDecode(PercentEncode(s)) == s
  {
    if s != [] {
      DecodeEncodedByte(s[0], PercentEncode(s[1..]));
      DecodeEncode(s[1..]);
      assert s == [s[0]] + s[1..];
    }
  }

  function DigitValue(c: Byte): nat
    requires AnyHex(c)
  {
    if c <= '9' then c as nat - 48 else if c <= 'F' then c as nat - 55 else c as nat - 87
  }

  predicate AnyHex(c: Byte) { '0' <= c <= '9' || 'A' <= c <= 'F' || 'a' <= c <= 'f' }

  // Decoding from the front: a percent sign and two digits of either case stand for a byte, every other
  // byte, a percent sign without them included, for itself.
  lemma DecodesFromFront(c: Byte, rest: Bytes)
    ensures PercentDecode([c] + rest) ==
            if c == '%' && |rest| >= 2 && AnyHex(rest[0]) && AnyHex(rest[1])
            then [(DigitValue(rest[0]) * 16 + DigitValue(rest[1])) as char] + PercentDecode(rest[2..])
            else [c] + PercentDecode(rest)
    ensures PercentDecode([]) == []
  {
    var s := [c] + rest;
    assert s[1..] == rest;
    DecodeStep(s);
    TripleMeans(c, rest);
    hide PercentDecode, AnyHex, DigitValue, Triple;
    if |rest| >= 2 { assert s[3..] == rest[2..]; }
  }

  lemma DecodeStep(s: Bytes)
    requires s != []
    ensures |s| > 2 || Triple(s).None?
    ensures PercentDecode(s) == if Triple(s).Some? then [Triple(s).value] + PercentDecode(s[3..])
                                else [s[0]] + PercentDecode(s[1..])
    ensures PercentDecode([]) == []
  {
    hide HexValue;
  }

  lemma TripleMeans(c: Byte, rest: Bytes)
    ensures Triple([c] + rest) ==
            if c == '%' && |rest| >= 2 && AnyHex(rest[0]) && AnyHex(rest[1])
            then Some((DigitValue(rest[0]) * 16 + DigitValue(rest[1])) as char) else None
  {
    var s := [c] + rest;
    if |rest| >= 2 {
      HexAgrees(rest[0]);
      HexAgrees(rest[1]);
      hide HexValue, AnyHex, DigitValue;
      assert s[0] == c && s[1] == rest[0] && s[2] == rest[1];
    }
  }

  lemma HexAgrees(c: Byte)
    ensures HexValue(c) == if AnyHex(c) then Some(DigitValue(c)) else None
  {}

  // ---- what an encoded text looks like (sections 2.1 and 2.3 of RFC 3986) ----

  predicate Kept(c: Byte) {
    || 'A' <= c <= 'Z' || 'a' <= c <= 'z' || '0' <= c <= '9'
    || c in {'-', '.', '_', '~', '/', ':'}
  }

  predicate UpperHex(c: Byte) { '0' <= c <= '9' || 'A' <= c <= 'F' }

  // Only kept characters and percent signs, each of which is followed by two digits.
  ghost predicate UriText(s: Bytes) {
    forall i | 0 <= i < |s| ::
      Kept(s[i]) || (s[i] == '%' && i + 2 < |s| && UpperHex(s[i + 1]) && UpperHex(s[i + 2]))
  }

  lemma {:induction false} EncodedIsUriText(s: Bytes)
    ensures UriText(PercentEncode(s))
  {
    if s != [] {
      EncodedIsUriText(s[1..]);
      ByteIsUriText(s[0]);
      UriTextAppend(Encoded(s[0]), PercentEncode(s[1..]));
    }
  }

  lemma ByteIsUriText(c: Byte)
    ensures UriText(Encoded(c))
  {
    assert forall n: nat | n < 16 :: UpperHex(HexDigit(n));
    assert forall n: nat | n < 16 :: Kept(HexDigit(n));
  }

  lemma UriTextAppend(a: Bytes, b: Bytes)
    requires UriText(a) && UriText(b)
    ensures UriText(a + b)
  {
    var s := a + b;
    forall i | 0 <= i < |s|
      ensures Kept(s[i]) || (s[i] == '%' && i + 2 < |s| && UpperHex(s[i + 1]) && UpperHex(s[i + 2]))
    {
      if i < |a| { assert s[i] == a[i]; } else { assert s[i] == b[i - |a|]; }
    }
  }

  // A byte is written as it is exactly if it is one of the kept characters, and otherwise as a percent
  // sign and its value in two digits.
  lemma {:induction false} EncodesBytewise(s: Bytes)
    ensures (forall i | 0 <= i < |s| :: Kept(s[i])) <==> PercentEncode(s) == s
    ensures |PercentEncode(s)| == |s| + 2 * Others(s)
  {
    if s != [] {
      EncodesBytewise(s[1..]);
      assert s == [s[0]] + s[1..];
      assert Kept(s[0]) <==> Plain(s[0]);
    }
  }

  function Others(s: Bytes): nat {
    if s == [] then 0 else (if Kept(s[0]) then 0 else 1) + Others(s[1..])
  }

  // ---- Windows paths ----

  const SCHEME: Bytes := ['f', 'i', 'l', 'e', ':', '/', '/']
  const VERBATIM: Bytes := ['/', '/', '?', '/']
  const VERBATIM_UNC: Bytes := ['/', '/', '?', '/', 'U', 'N', 'C', '/']
  const UNC: Bytes := ['/', '/']

  function Swap(s: Bytes, from: Byte, to: Byte): (r: Bytes)
    ensures |r| == |s| && forall i | 0 <= i < |s| :: r[i] == if s[i] == from then to else s[i]
  {
    seq(|s|, i requires 0 <= i < |s| => if s[i] == from then to else s[i])
  }

  predicate Letter(c: Byte) { 'a' <= c <= 'z' || 'A' <= c <= 'Z' }

  // `C:\...`, `C:/...` or `/C:/...`.
  predicate DrivePath(s: Bytes) {
    var start := if s != [] && s[0] == '/' then 1 else 0;
    |s| > start + 2 && Letter(s[start]) && s[start + 1] == ':' && (s[start + 2] == '/' || s[start + 2] == '\\')
  }

  function TrimSlashes(s: Bytes): Bytes {
    if s != [] && s[0] == '/' then TrimSlashes(s[1..]) else s
  }

  // Drops the verbatim prefixes of a path already written with slashes.
  function Normalize(slashed: Bytes): Bytes {
    if VERBATIM_UNC <= slashed then UNC + slashed[|VERBATIM_UNC|..]
    else if VERBATIM <= slashed then slashed[|VERBATIM|..]
    else slashed
  }

  function NormalizedToUri(normalized: Bytes): Bytes {
    if UNC <= normalized then SCHEME + PercentEncode(normalized[|UNC|..])
    else if DrivePath(normalized) then SCHEME + PercentEncode(['/'] + TrimSlashes(normalized))
    else SCHEME + PercentEncode(normalized)
  }

  function WindowsPathToUri(path: Bytes): Bytes { NormalizedToUri(Normalize(Swap(path, '\\', '/'))) }

  function WindowsUriPath(uri: Bytes, decoded: Bytes): Bytes {
    if DrivePath(decoded) then Swap(TrimSlashes(decoded), '/', '\\')
    else if SCHEME <= uri && !(decoded != [] && decoded[0] == '/') then ['\\', '\\'] + Swap(decoded, '/', '\\')
    else decoded
  }

  function UriToPath(uri: Bytes): Bytes {
    WindowsUriPath(uri, PercentDecode(if SCHEME <= uri then uri[|SCHEME|..] else uri))
  }

  lemma ReadBack(rest: Bytes)
    ensures UriToPath(SCHEME + PercentEncode(rest)) == WindowsUriPath(SCHEME + PercentEncode(rest), rest)
    ensures SCHEME <= SCHEME + PercentEncode(rest)
  {
    DecodeEncode(rest);
    assert (SCHEME + PercentEncode(rest))[|SCHEME|..] == PercentEncode(rest);
  }

  // Whatever the path, what follows the scheme is URI text.
  lemma UriIsUriText(path: Bytes)
    ensures var uri := WindowsPathToUri(path);
            uri[..7] == ['f', 'i', 'l', 'e', ':', '/', '/'] && UriText(uri[7..])
  {
    hide PercentEncode, UriText;
    var normalized := Normalize(Swap(path, '\\', '/'));
    var text := if UNC <= normalized then normalized[|UNC|..]
                else if DrivePath(normalized) then ['/'] + TrimSlashes(normalized) else normalized;
    EncodedIsUriText(text);
    assert (SCHEME + PercentEncode(text))[7..] == PercentEncode(text);
  }

  // A path with a drive letter, from its letter on.
  predicate DriveForm(path: Bytes) {
    && |path| > 2 && path[1] == ':' && (path[2] == '/' || path[2] == '\\')
    && ('a' <= path[0] <= 'z' || 'A' <= path[0] <= 'Z')
  }

  function Backslashed(s: Bytes): Bytes { Swap(s, '/', '\\') }

  lemma SlashedDrive(path: Bytes)
    requires DriveForm(path)
    ensures var s := Swap(path, '\\', '/');
            DriveForm(s) && s[2] == '/' && Backslashed(s) == Backslashed(path)
  {}

  lemma DriveStaysPut(s: Bytes)
    requires DriveForm(s)
    ensures DrivePath(s) && !(UNC <= s) && !(VERBATIM <= s) && !(VERBATIM_UNC <= s)
    ensures TrimSlashes(s) == s && DrivePath(['/'] + s) && TrimSlashes(['/'] + s) == s
  {
    assert (['/'] + s)[1..] == s;
  }

  // A drive path written with slashes reads back with backslashes.
  lemma NormalizedDriveReadsBack(s: Bytes)
    requires DriveForm(s)
    ensures UriToPath(NormalizedToUri(s)) == Backslashed(s)
  {
    hide UriToPath, DriveForm, PercentEncode, DrivePath;
    DriveStaysPut(s);
    ReadBack(['/'] + s);
  }

  // Drive paths come back with backslashes.
  lemma DriveRoundTrips(path: Bytes)
    requires DriveForm(path)
    ensures UriToPath(WindowsPathToUri(path)) == Backslashed(path)
  {
    hide UriToPath, NormalizedToUri, DriveForm;
    SlashedDrive(path);
    DriveStaysPut(Swap(path, '\\', '/'));
    NormalizedDriveReadsBack(Swap(path, '\\', '/'));
  }

  lemma VerbatimDriveNormalizes(path: Bytes)
    requires DriveForm(path)
    ensures Normalize(Swap(['\\', '\\', '?', '\\'] + path, '\\', '/')) == Swap(path, '\\', '/')
  {
    var slashed := Swap(['\\', '\\', '?', '\\'] + path, '\\', '/');
    assert slashed == VERBATIM + Swap(path, '\\', '/');
    assert slashed[5] == ':';
    assert VERBATIM_UNC[5] != slashed[5];
  }

  // A verbatim drive path comes back without its verbatim prefix.
  lemma VerbatimDriveRoundTrips(path: Bytes)
    requires DriveForm(path)
    ensures UriToPath(WindowsPathToUri(['\\', '\\', '?', '\\'] + path)) == Backslashed(path)
  {
    hide UriToPath, NormalizedToUri, Normalize, DriveForm;
    SlashedDrive(path);
    VerbatimDriveNormalizes(path);
    NormalizedDriveReadsBack(Swap(path, '\\', '/'));
  }

  // What follows the two backslashes of a network path: no verbatim prefix.
  predicate NotVerbatim(share: Bytes) { !(|share| >= 2 && share[0] == '?' && (share[1] == '/' || share[1] == '\\')) }

  predicate AuthorityShaped(share: Bytes) {
    share == [] || (share[0] != '/' && share[0] != '\\' && !DriveForm(share))
  }

  // A network path comes back exactly when its authority does not look like a drive or an empty name.
  lemma NetworkRoundTrips(share: Bytes)
    requires NotVerbatim(share)
    ensures UriToPath(WindowsPathToUri(['\\', '\\'] + share)) == ['\\', '\\'] + Backslashed(share)
            <==> AuthorityShaped(share)
  {
    var full: Bytes := ['\\', '\\'] + share;
    var s := Swap(share, '\\', '/');
    var slashed := Swap(full, '\\', '/');
    assert slashed == UNC + s;
    assert slashed[2..] == s;
    assert !(VERBATIM <= slashed) && !(VERBATIM_UNC <= slashed) by {
      assert |share| >= 2 ==> slashed[2] == s[0] && slashed[3] == s[1];
    }
    ReadBack(s);
    NetworkAnswer(share);
  }

  lemma NetworkAnswer(share: Bytes)
    ensures var s := Swap(share, '\\', '/');
            var back := WindowsUriPath(SCHEME + PercentEncode(s), s);
            back == ['\\', '\\'] + Backslashed(share) <==> AuthorityShaped(share)
  {
    var s := Swap(share, '\\', '/');
    var back := WindowsUriPath(SCHEME + PercentEncode(s), s);
    assert SCHEME <= SCHEME + PercentEncode(s);
    assert Backslashed(s) == Backslashed(share);
    if DrivePath(s) {
      TrimShortens(s);
      assert |back| <= |s|;
    } else if s != [] && s[0] == '/' {
      assert back == s;
      assert |back| == |share|;
    }
  }

  lemma TrimShortens(s: Bytes)
    ensures |TrimSlashes(s)| <= |s|
  {}

  // The verbatim form of a network path comes back as the plain form, under the same condition.
  lemma VerbatimNetworkRoundTrips(share: Bytes)
    ensures UriToPath(WindowsPathToUri(['\\', '\\', '?', '\\', 'U', 'N', 'C', '\\'] + share))
              == ['\\', '\\'] + Backslashed(share)
            <==> AuthorityShaped(share)
  {
    var full: Bytes := ['\\', '\\', '?', '\\', 'U', 'N', 'C', '\\'] + share;
    var s := Swap(share, '\\', '/');
    var slashed := Swap(full, '\\', '/');
    assert slashed == VERBATIM_UNC + s;
    assert slashed[8..] == s;
    assert (UNC + s)[2..] == s;
    ReadBack(s);
    NetworkAnswer(share);
  }

  // ---- any other verbatim path ----

  // A drive path, with or without one slash in front.
  predicate DriveBehindSlash(s: Bytes) { DriveForm(s) || (s != [] && s[0] == '/' && DriveForm(s[1..])) }

  lemma DriveExactly(s: Bytes)
    ensures DrivePath(s) <==> DriveBehindSlash(s)
  {}

  // What `\\?\rest` comes back as: a drive without slashes before it, a network path, or a path that
  // keeps its slashes.
  function VerbatimBack(rest: Bytes): Bytes {
    var s := Swap(rest, '\\', '/');
    var name := if UNC <= s then s[|UNC|..] else s;
    if DriveBehindSlash(s) || DriveBehindSlash(name) then Backslashed(TrimSlashes(s))
    else if name != [] && name[0] == '/' then name
    else ['\\', '\\'] + Backslashed(name)
  }

  lemma TrimOne(s: Bytes)
    requires s != [] && s[0] == '/'
    ensures TrimSlashes(s) == TrimSlashes(s[1..])
  {}

  lemma DriveTrimmed(s: Bytes)
    requires DrivePath(s)
    ensures TrimSlashes(s) == if s[0] == '/' then s[1..] else s
    ensures DrivePath(['/'] + TrimSlashes(s)) && TrimSlashes(['/'] + TrimSlashes(s)) == TrimSlashes(s)
    ensures !(UNC <= s)
  {
    var d := TrimSlashes(s);
    assert (['/'] + d)[1..] == d;
  }

  lemma NormalizedReadsBack(rest: Bytes)
    ensures var s := Swap(rest, '\\', '/'); UriToPath(NormalizedToUri(s)) == VerbatimBack(rest)
  {
    hide UriToPath, PercentEncode, TrimSlashes;
    var s := Swap(rest, '\\', '/');
    DriveExactly(s);
    if UNC <= s {
      var name := s[|UNC|..];
      DriveExactly(name);
      ReadBack(name);
      TrimOne(s);
      TrimOne(s[1..]);
      assert s[1..][1..] == name;
      assert !DrivePath(s);
    } else if DrivePath(s) {
      DriveTrimmed(s);
      ReadBack(['/'] + TrimSlashes(s));
    } else {
      ReadBack(s);
    }
  }

  // Every verbatim path that is not in the network form comes back as VerbatimBack says, and this is
  // the plain form exactly for a drive and for a path that goes on with two more slashes and an
  // authority.
  lemma VerbatimExactly(rest: Bytes)
    requires !(['U', 'N', 'C', '/'] <= Swap(rest, '\\', '/'))
    ensures var back := UriToPath(WindowsPathToUri(['\\', '\\', '?', '\\'] + rest));
            && back == VerbatimBack(rest)
            && (back == Backslashed(rest) <==>
                  || DriveForm(rest)
                  || (UNC <= Swap(rest, '\\', '/') && AuthorityShaped(rest[2..])))
  {
    hide UriToPath, NormalizedToUri, TrimSlashes;
    var s := Swap(rest, '\\', '/');
    var slashed := Swap(['\\', '\\', '?', '\\'] + rest, '\\', '/');
    assert slashed == VERBATIM + s;
    assert slashed[4..] == s && VERBATIM_UNC == VERBATIM + ['U', 'N', 'C', '/'];
    NormalizedReadsBack(rest);
    PlainForm(rest);
  }

  lemma PlainForm(rest: Bytes)
    ensures VerbatimBack(rest) == Backslashed(rest) <==>
              || DriveForm(rest)
              || (UNC <= Swap(rest, '\\', '/') && AuthorityShaped(rest[2..]))
  {
    hide TrimSlashes;
    var s := Swap(rest, '\\', '/');
    assert Backslashed(s) == Backslashed(rest);
    DriveExactly(s);
    if UNC <= s {
      var name := s[|UNC|..];
      DriveExactly(name);
      assert name == Swap(rest[2..], '\\', '/');
      assert Backslashed(s) == ['\\', '\\'] + Backslashed(name);
      TrimOne(s);
      TrimOne(s[1..]);
      assert s[1..][1..] == name;
      TrimShortens(name);
    } else if DrivePath(s) {
      DriveTrimmed(s);
    }
  }
}
