// The two maps of the command registry as values: what registering and removing entries does to
// them, and the invariant that ties them together.
module RegistryIndex {
  import opened Wrappers
  import opened CommandName

  datatype Source = Core | Ui | Mcp(server: string) | Plugin(plugin: string) | User(user: string) {
    function Domain(): string {
      match this
      case Core => "core"
      case Ui => "ui"
      case Mcp(server) => server
      case Plugin(_) => "plugin"
      case User(_) => "user"
    }

    function Namespace(): Option<string> {
      match this
      case Plugin(name) => Some(name)
      case User(name) => Some(name)
      case _ => None
    }
  }

  // An entry: its names, its declared source, and its handler as an opaque identity.
  datatype RouteEntry = RouteEntry(fullname: string, aliases: seq<string>, source: Source, handler: nat)

  datatype RegisterError = Conflict(key: string) | ProvenanceMismatch | MalformedName

  // What validation computes before the maps are touched.
  datatype Prepared = Prepared(key: string, bareName: Option<string>, aliases: seq<string>)

  // `entries` maps canonical full names to entries, `aliasIndex` maps aliases and level-1 bare
  // names to canonical full names.
  datatype Index = Index(entries: map<string, RouteEntry>, aliasIndex: map<string, string>)

  const EMPTY := Index(map[], map[])

  // ---- validation of one entry ----

  function NameDomain(n: Name): Option<string> {
    match n
    case Bare(_) => None
    case Level1(domain, _) => Some(domain)
    case Level2(domain, _, _) => Some(domain)
    case Level2Short(domain, _) => Some(domain)
  }

  // The domain in the name is the domain of the declared source; an MCP source must use the short
  // two-segment form.
  predicate DomainMatches(n: Name, source: Source) {
    if source.Mcp? then n.Level2Short? && n.domain == source.Domain()
    else NameDomain(n) == Some(source.Domain())
  }

  function PrepareAliases(aliases: seq<string>): Result<seq<string>, RegisterError> {
    if aliases == [] then Ok([])
    else
      match Parse(aliases[0])
      case Ok(Bare(name)) =>
        (match PrepareAliases(aliases[1..])
         case Ok(rest) => Ok([name] + rest)
         case Err(e) => Err(e))
      case _ => Err(MalformedName)
  }

  function Level1BareName(fullname: string): Option<string> {
    match Parse(fullname)
    case Ok(Level1(_, name)) => Some(Lower(name))
    case _ => None
  }

  function Prepare(e: RouteEntry): Result<Prepared, RegisterError> {
    match Parse(e.fullname)
    case Err(_) => Err(MalformedName)
    case Ok(n) =>
      if !DomainMatches(n, e.source) then Err(ProvenanceMismatch)
      else if n.Level2? && e.source.Namespace() != Some(n.namespace) then Err(ProvenanceMismatch)
      else
        match PrepareAliases(e.aliases)
        case Err(error) => Err(error)
        case Ok(aliases) => Ok(Prepared(FullName(n), Level1BareName(e.fullname), aliases))
  }

  function Elements(s: seq<string>): set<string> { set n | n in s }

  // The names a validated entry claims besides its key.
  function Names(p: Prepared): set<string> {
    Elements(p.aliases) + (if p.bareName.Some? then {p.bareName.value} else {})
  }

  // ---- registering ----

  function FirstTaken(aliases: seq<string>, taken: map<string, string>): (r: Option<string>)
    ensures r.None? <==> forall a | a in aliases :: a !in taken
  {
    if aliases == [] then None
    else if aliases[0] in taken then Some(aliases[0])
    else FirstTaken(aliases[1..], taken)
  }

  function FindConflict(p: Prepared, idx: Index): Option<RegisterError> {
    if p.key in idx.entries then Some(Conflict(p.key))
    else if FirstTaken(p.aliases, idx.aliasIndex).Some?
    then Some(Conflict(FirstTaken(p.aliases, idx.aliasIndex).value))
    else if p.bareName.Some? && p.bareName.value in idx.aliasIndex then Some(Conflict(p.bareName.value))
    else None
  }

  function Insert(idx: Index, p: Prepared, e: RouteEntry): Index {
    Index(idx.entries[p.key := e], idx.aliasIndex + map n | n in Names(p) :: p.key)
  }

  // Registering one entry: the new maps, and the error if there was one.
  function Register(idx: Index, e: RouteEntry): (Index, Option<RegisterError>) {
    match Prepare(e)
    case Err(error) => (idx, Some(error))
    case Ok(p) => if FindConflict(p, idx).Some? then (idx, FindConflict(p, idx)) else (Insert(idx, p, e), None)
  }

  // Registering a list, one entry after the other: the new maps and the errors in order.
  function RegisterSeq(idx: Index, es: seq<RouteEntry>): (Index, seq<RegisterError>)
    decreases |es|
  {
    if es == [] then (idx, [])
    else
      var (next, error) := Register(idx, es[0]);
      var (last, errors) := RegisterSeq(next, es[1..]);
      (last, (if error.Some? then [error.value] else []) + errors)
  }

  // ---- removing ----

  // Without the entries whose keys are given, and without their names.
  function Without(idx: Index, keys: set<string>): Index {
    Index(idx.entries - keys, map n | n in idx.aliasIndex && idx.aliasIndex[n] !in keys :: idx.aliasIndex[n])
  }

  // The keys below a source prefix: those that start with the lower-cased prefix and a colon.
  predicate Below(key: string, prefix: string) { Lower(prefix) + ":" <= key }

  function KeysBelow(idx: Index, prefix: string): set<string> {
    set k | k in idx.entries && Below(k, prefix)
  }

  function KeysBelowAny(idx: Index, prefixes: set<string>): set<string> {
    set k, p | k in idx.entries && p in prefixes && Below(k, p) :: k
  }

  function UnregisterSeq(idx: Index, names: seq<string>): (Index, nat)
    decreases |names|
  {
    if names == [] then (idx, 0)
    else
      var key := Lower(names[0]);
      var (last, n) := UnregisterSeq(Without(idx, {key}), names[1..]);
      (last, n + if key in idx.entries then 1 else 0)
  }

  // ---- the invariant ----

  function NamesOf(e: RouteEntry): set<string> {
    match Prepare(e) case Ok(p) => Names(p) case Err(_) => {}
  }

  predicate KeyedBy(e: RouteEntry, key: string) {
    Prepare(e).Ok? && Prepare(e).value.key == key
  }

  // Every key is the canonical full name of its entry.
  ghost predicate Keyed(idx: Index) { forall k | k in idx.entries :: KeyedBy(idx.entries[k], k) }

  ghost predicate Points(idx: Index, n: string, k: string) {
    n in idx.aliasIndex && idx.aliasIndex[n] == k
  }

  ghost predicate Claims(idx: Index, n: string, k: string) {
    k in idx.entries && n in NamesOf(idx.entries[k])
  }

  // The alias index is exactly the names claimed by the registered entries, each pointing to the
  // entry that claims it; so no name has two owners and no entry is missing one.
  ghost predicate Inv(idx: Index) {
    Keyed(idx) && forall n, k :: Points(idx, n, k) <==> Claims(idx, n, k)
  }

  lemma {:induction false} PreparedAliases(aliases: seq<string>)
    requires PrepareAliases(aliases).Ok?
    ensures var out := PrepareAliases(aliases).value;
            && |out| == |aliases|
            && forall i | 0 <= i < |out| :: out[i] == Lower(aliases[i]) && ':' !in out[i] && out[i] != ""
  {
    hide Parse;
    if aliases != [] {
      ParsedShape(aliases[0]);
      PreparedAliases(aliases[1..]);
    }
  }

  // A key always contains a colon, a claimed name never does.
  lemma PreparedShape(e: RouteEntry)
    requires Prepare(e).Ok?
    ensures var p := Prepare(e).value;
            && p.key == Lower(e.fullname) && ':' in p.key
            && (forall n | n in Names(p) :: ':' !in n && n != "")
            && (forall c | c in p.key :: !Whitespace(c))
  {
    hide Parse, FullName, Lower, PrepareAliases, Whitespace;
    var p := Prepare(e).value;
    FullNameIsLower(e.fullname);
    ParsedShape(e.fullname);
    PreparedAliases(e.aliases);
    if p.bareName.Some? { LowerColon(Parse(e.fullname).value.name); LowerLength(Parse(e.fullname).value.name); }
  }

  lemma LowerLength(s: string)
    ensures |Lower(s)| == |s|
  {}

  // Keys and names never collide: no text can be looked up both ways.
  lemma DomainsDisjoint(idx: Index)
    requires Inv(idx)
    ensures idx.entries.Keys !! idx.aliasIndex.Keys
  {
    hide Prepare, Names;
    forall k | k in idx.entries ensures k !in idx.aliasIndex {
      assert KeyedBy(idx.entries[k], k);
      PreparedShape(idx.entries[k]);
      if k in idx.aliasIndex {
        var owner := idx.aliasIndex[k];
        assert Points(idx, k, owner);
        assert Claims(idx, k, owner);
        PreparedShape(idx.entries[owner]);
      }
    }
  }

  lemma EmptyInv()
    ensures Inv(EMPTY)
  {
    assert forall n, k :: !Points(EMPTY, n, k) && !Claims(EMPTY, n, k);
  }

  lemma InsertKeeps(idx: Index, p: Prepared, e: RouteEntry)
    requires Inv(idx) && Prepare(e) == Ok(p) && FindConflict(p, idx).None?
    ensures Inv(Insert(idx, p, e))
  {
    hide Prepare;
    var next := Insert(idx, p, e);
    forall k | k in next.entries ensures KeyedBy(next.entries[k], k) {
      if k != p.key { assert KeyedBy(idx.entries[k], k); }
    }
    forall n, k ensures Points(next, n, k) <==> Claims(next, n, k) {
      assert Points(idx, n, k) <==> Claims(idx, n, k);
      assert n in Names(p) ==> n !in idx.aliasIndex;
    }
  }

  lemma RegisterKeeps(idx: Index, e: RouteEntry)
    requires Inv(idx)
    ensures Inv(Register(idx, e).0)
  {
    hide Prepare, FindConflict, Insert;
    if Prepare(e).Ok? && FindConflict(Prepare(e).value, idx).None? { InsertKeeps(idx, Prepare(e).value, e); }
  }

  lemma {:induction false} RegisterSeqKeeps(idx: Index, es: seq<RouteEntry>)
    requires Inv(idx)
    ensures Inv(RegisterSeq(idx, es).0)
    ensures |RegisterSeq(idx, es).1| <= |es|
    decreases |es|
  {
    hide Register, Inv;
    if es != [] {
      RegisterKeeps(idx, es[0]);
      RegisterSeqKeeps(Register(idx, es[0]).0, es[1..]);
    }
  }

  lemma WithoutKeeps(idx: Index, keys: set<string>)
    requires Inv(idx)
    ensures Inv(Without(idx, keys))
  {
    hide KeyedBy, NamesOf;
    var next := Without(idx, keys);
    forall k | k in next.entries ensures KeyedBy(next.entries[k], k) {
      assert KeyedBy(idx.entries[k], k);
    }
    forall n, k ensures Points(next, n, k) <==> Claims(next, n, k) {
      assert Points(idx, n, k) <==> Claims(idx, n, k);
    }
  }

  lemma {:induction false} UnregisterSeqKeeps(idx: Index, names: seq<string>)
    requires Inv(idx)
    ensures Inv(UnregisterSeq(idx, names).0)
    decreases |names|
  {
    hide Without, Inv;
    if names != [] {
      WithoutKeeps(idx, {Lower(names[0])});
      UnregisterSeqKeeps(Without(idx, {Lower(names[0])}), names[1..]);
    }
  }

  // ---- what registration decides ----

  // A registration is refused exactly when it is malformed or some registered entry already owns its
  // key or one of its names; an accepted one adds this entry and nothing else. A conflict names a key or
  // name that this entry wants and another entry owns.
  lemma RegisterDecides(idx: Index, e: RouteEntry)
    requires Inv(idx)
    ensures var (next, error) := Register(idx, e);
            && (error.None? <==>
                && Prepare(e).Ok?
                && Lower(e.fullname) !in idx.entries
                && forall k | k in idx.entries :: NamesOf(idx.entries[k]) !! NamesOf(e))
            && (error.Some? ==> next == idx)
            && (error.None? ==> next.entries == idx.entries[Lower(e.fullname) := e])
            && (error.Some? && Prepare(e).Ok? ==>
                  && error.value.Conflict?
                  && var key := error.value.key;
                  || (key == Lower(e.fullname) && key in idx.entries)
                  || (key in NamesOf(e) && exists k :: Claims(idx, key, k)))
  {
    hide Prepare;
    if Prepare(e).Ok? {
      var p := Prepare(e).value;
      PreparedShape(e);
      if FindConflict(p, idx).None? {
        forall k | k in idx.entries ensures NamesOf(idx.entries[k]) !! NamesOf(e) {
          forall n | n in NamesOf(e) ensures n !in NamesOf(idx.entries[k]) {
            assert Points(idx, n, k) <==> Claims(idx, n, k);
          }
        }
      } else if p.key !in idx.entries {
        var n := ConflictName(p, idx);
        var k := idx.aliasIndex[n];
        assert Points(idx, n, k) && Claims(idx, n, k);
        assert n in NamesOf(idx.entries[k]) * NamesOf(e);
      }
    }
  }

  lemma {:induction false} FirstTakenIsThere(aliases: seq<string>, taken: map<string, string>)
    ensures FirstTaken(aliases, taken).Some? ==>
              FirstTaken(aliases, taken).value in aliases && FirstTaken(aliases, taken).value in taken
  {
    if aliases != [] { FirstTakenIsThere(aliases[1..], taken); }
  }

  lemma ConflictName(p: Prepared, idx: Index) returns (n: string)
    requires p.key !in idx.entries && FindConflict(p, idx).Some?
    ensures n in Names(p) && n in idx.aliasIndex && FindConflict(p, idx) == Some(Conflict(n))
  {
    FirstTakenIsThere(p.aliases, idx.aliasIndex);
    n := if FirstTaken(p.aliases, idx.aliasIndex).Some? then FirstTaken(p.aliases, idx.aliasIndex).value
         else p.bareName.value;
  }

  // ---- provenance ----

  // The segments in front of the command name that a source may use. An MCP server is its own domain,
  // so its name must be a single segment and not one of the reserved domains.
  function OwnSegments(source: Source): seq<string> {
    match source
    case Core => ["core"]
    case Ui => ["ui"]
    case Mcp(server) => [server]
    case Plugin(name) => ["plugin", name]
    case User(name) => ["user", name]
  }

  predicate OwnName(segments: seq<string>, source: Source) {
    && |segments| == |OwnSegments(source)| + 1
    && segments[..|segments| - 1] == OwnSegments(source)
    && (source.Mcp? ==> !Level1Domain(source.server) && !Level2Domain(source.server))
  }

  // A source can register names below its own segments and no others: the first segments of a name
  // cannot be forged.
  lemma ProvenanceDecides(e: RouteEntry)
    requires Parse(e.fullname).Ok? && PrepareAliases(e.aliases).Ok?
    ensures Prepare(e).Ok? <==> OwnName(Split(Lower(e.fullname), ':'), e.source)
    ensures Prepare(e).Err? ==> Prepare(e).error == ProvenanceMismatch
  {
    hide HasDoubleUnderscore, FirstIllegal, Lower, PrepareAliases;
    ParseIgnoresCase(e.fullname);
    SplitKeepsCase(e.fullname);
    var segments := Split(Lower(e.fullname), ':');
    assert Parse(e.fullname) == Classify(segments);
    if |segments| == 2 { assert segments[..1] == [segments[0]]; }
    if |segments| == 3 { assert segments[..2] == [segments[0], segments[1]]; }
  }

  // ---- the names an entry claims ----

  // A bare name parses exactly if it is a name without a colon.
  lemma {:induction false} AliasesDecide(aliases: seq<string>)
    ensures PrepareAliases(aliases) ==
            if forall i | 0 <= i < |aliases| :: Parse(aliases[i]).Ok? && ':' !in aliases[i]
            then Ok(LowerAll(aliases)) else Err(MalformedName)
  {
    hide Parse, Lower;
    if aliases == [] {
      assert LowerAll([]) == [];
    } else {
      AliasesDecide(aliases[1..]);
      if Parse(aliases[0]).Ok? {
        ParsedShape(aliases[0]);
        LowerColon(aliases[0]);
      }
      assert aliases == [aliases[0]] + aliases[1..];
      assert LowerAll(aliases) == [Lower(aliases[0])] + LowerAll(aliases[1..]);
    }
  }

  // An entry that is accepted claims its lower-cased aliases and, below the core and ui domains, its name
  // without the domain; and no other name.
  lemma NamesMeaning(e: RouteEntry, n: string)
    requires Prepare(e).Ok?
    ensures n in NamesOf(e) <==>
            || (exists i | 0 <= i < |e.aliases| :: n == Lower(e.aliases[i]))
            || Lower(e.fullname) == "core:" + n
            || Lower(e.fullname) == "ui:" + n
  {
    hide Parse, Lower, FullName;
    AliasesDecide(e.aliases);
    BareNameMeans(e.fullname, n);
    assert Prepare(e).value.aliases == LowerAll(e.aliases);
    forall a ensures a in LowerAll(e.aliases) <==> exists i | 0 <= i < |e.aliases| :: a == Lower(e.aliases[i]) {
      if a in LowerAll(e.aliases) {
        var i :| 0 <= i < |e.aliases| && LowerAll(e.aliases)[i] == a;
      }
      if i :| 0 <= i < |e.aliases| && a == Lower(e.aliases[i]) { assert LowerAll(e.aliases)[i] == a; }
    }
  }

  lemma BareNameMeans(fullname: string, n: string)
    requires Parse(fullname).Ok?
    ensures Level1BareName(fullname) == Some(n) <==> Lower(fullname) == "core:" + n || Lower(fullname) == "ui:" + n
  {
    hide Parse, Lower, FullName;
    var name := Parse(fullname).value;
    FullNameIsLower(fullname);
    ParsedShape(fullname);
    if !name.Bare? { DomainOf(fullname); }
    BareOf(name, Lower(fullname), n);
  }

  // The domain of a parsed name.
  lemma DomainOf(fullname: string)
    requires Parse(fullname).Ok? && !Parse(fullname).value.Bare?
    ensures var name := Parse(fullname).value;
            ':' !in Lower(name.domain) && (name.Level1? <==> Lower(name.domain) in {"core", "ui"})
  {
    hide Parse, Lower;
    var parts := EveryTextHasSegments(fullname);
    ParseMeans(parts);
    LowerTwice(parts[0]);
    LowerColon(parts[0]);
    assert parts[0] in parts;
  }

  lemma BareOf(name: Name, full: string, n: string)
    requires FullName(name) == full && (name.Bare? ==> ':' !in full)
    requires !name.Bare? ==> ':' !in Lower(name.domain) && (name.Level1? <==> Lower(name.domain) in {"core", "ui"})
    ensures (name.Level1? && Lower(name.name) == n) <==> full == "core:" + n || full == "ui:" + n
  {
    hide Lower;
    match name
    case Bare(_) => assert ("core:" + n)[4] == ':' && ("ui:" + n)[2] == ':';
    case Level1(domain, rest) => EitherDomain(full, Lower(domain), Lower(rest), n);
    case Level2Short(domain, rest) => EitherDomain(full, Lower(domain), Lower(rest), n);
    case Level2(domain, space, rest) =>
      assert full == Lower(domain) + ":" + (Lower(space) + ":" + Lower(rest));
      EitherDomain(full, Lower(domain), Lower(space) + ":" + Lower(rest), n);
  }

  lemma EitherDomain(full: string, domain: string, rest: string, n: string)
    requires ':' !in domain && full == domain + ":" + rest
    ensures full == "core:" + n <==> domain == "core" && rest == n
    ensures full == "ui:" + n <==> domain == "ui" && rest == n
  {
    assert "core" + ":" + n == "core:" + n && "ui" + ":" + n == "ui:" + n;
    assert ':' !in "core" && ':' !in "ui";
    TwoParts(domain, rest, "core", n);
    TwoParts(domain, rest, "ui", n);
  }

  lemma TwoParts(a: string, b: string, c: string, d: string)
    requires ':' !in a && ':' !in c
    ensures a + ":" + b == c + ":" + d <==> a == c && b == d
  {
    var s, t := a + ":" + b, c + ":" + d;
    assert s[|a|] == ':' && t[|c|] == ':';
    assert |a| < |c| ==> t[|a|] == c[|a|];
    assert |c| < |a| ==> s[|c|] == a[|c|];
    assert s[..|a|] == a && t[..|c|] == c;
    assert s[|a| + 1..] == b && t[|c| + 1..] == d;
  }

  // Why an entry is refused: a full name or an alias that is no name is malformed, anything else that is
  // refused does not belong to its source.
  lemma PrepareDecides(e: RouteEntry)
    ensures var names := Parse(e.fullname).Ok?;
            var own := OwnName(Split(Lower(e.fullname), ':'), e.source);
            var aliases := forall i | 0 <= i < |e.aliases| :: Parse(e.aliases[i]).Ok? && ':' !in e.aliases[i];
            && (Prepare(e).Ok? <==> names && own && aliases)
            && (Prepare(e) == Err(ProvenanceMismatch) <==> names && !own)
            && (Prepare(e) == Err(MalformedName) <==> !names || (own && !aliases))
  {
    hide Parse, Lower, PrepareAliases, OwnName, DomainMatches, FullName;
    AliasesDecide(e.aliases);
    if Parse(e.fullname).Ok? {
      var plain := e.(aliases := []);
      NoAliases();
      ProvenanceDecides(plain);
    }
  }

  lemma NoAliases()
    ensures PrepareAliases([]) == Ok([])
  {}
}
