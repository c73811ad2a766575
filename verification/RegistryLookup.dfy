// Resolving typed input against the registry.
module RegistryLookup {
  import opened Wrappers
  import opened CommandName
  import opened RegistryIndex

  datatype Resolved = Resolved(entry: RouteEntry, args: string)

  function TrimSlashes(s: string): (r: string)
    ensures r == "" || r[0] != '/'
  {
    if s != "" && s[0] == '/' then TrimSlashes(s[1..]) else s
  }

  function TrimLeft(s: string): string {
    if s != "" && Whitespace(s[0]) then TrimLeft(s[1..]) else s
  }

  function TrimRight(s: string): string {
    if s != "" && Whitespace(s[|s| - 1]) then TrimRight(s[..|s| - 1]) else s
  }

  function Trim(s: string): string { TrimRight(TrimLeft(s)) }

  // str::split_once(' '): the text before the first space, and the text after it if there is one.
  function SplitOnce(s: string): (string, Option<string>) {
    if s == "" then ("", None)
    else if s[0] == ' ' then ("", Some(s[1..]))
    else
      var (head, tail) := SplitOnce(s[1..]);
      ([s[0]] + head, tail)
  }

  // The command name and the argument text of an input.
  function Lex(input: string): (string, string) {
    var (name, args) := SplitOnce(TrimSlashes(input));
    (Trim(name), if args.Some? then Trim(args.value) else "")
  }

  function LookUp(idx: Index, name: string): Option<RouteEntry> {
    if name in idx.entries then Some(idx.entries[name])
    else if name in idx.aliasIndex && idx.aliasIndex[name] in idx.entries
    then Some(idx.entries[idx.aliasIndex[name]])
    else None
  }

  function Resolve(idx: Index, input: string): Option<Resolved> {
    var (name, args) := Lex(input);
    if name == "" then None
    else
      match LookUp(idx, Lower(name))
      case None => None
      case Some(e) => Some(Resolved(e, args))
  }

  // What an entry answers to: its key, its aliases and, on level 1, its bare name.
  ghost predicate AnswersTo(idx: Index, k: string, name: string) {
    k in idx.entries && (name == k || name in NamesOf(idx.entries[k]))
  }

  ghost predicate Finds(idx: Index, name: string, e: RouteEntry) {
    exists k :: AnswersTo(idx, k, name) && idx.entries[k] == e
  }

  // The index finds what a linear search over all entries would find, and there is never a second
  // candidate.
  lemma LookUpIsSearch(idx: Index, name: string)
    requires Inv(idx)
    ensures forall e :: LookUp(idx, name) == Some(e) <==> Finds(idx, name, e)
    ensures forall k, l | AnswersTo(idx, k, name) && AnswersTo(idx, l, name) :: k == l
  {
    hide NamesOf;
    DomainsDisjoint(idx);
    forall k | AnswersTo(idx, k, name) ensures LookUp(idx, name) == Some(idx.entries[k])
      ensures if name in idx.entries then k == name else name in idx.aliasIndex && k == idx.aliasIndex[name]
    {
      if name != k {
        assert Claims(idx, name, k) && Points(idx, name, k);
      }
    }
    if LookUp(idx, name).Some? {
      if name in idx.entries {
        assert AnswersTo(idx, name, name);
      } else {
        assert Points(idx, name, idx.aliasIndex[name]);
        assert Claims(idx, name, idx.aliasIndex[name]);
        assert AnswersTo(idx, idx.aliasIndex[name], name);
      }
    }
  }

  // Resolving an input is that search for the lower-cased name, with the trimmed argument text.
  lemma ResolveIsSearch(idx: Index, input: string)
    requires Inv(idx)
    ensures var (name, args) := Lex(input);
            forall r :: Resolve(idx, input) == Some(r) <==>
              name != "" && r.args == args && Finds(idx, Lower(name), r.entry)
  {
    hide Inv, AnswersTo, LookUp, Lex, Lower, Finds;
    LookUpIsSearch(idx, Lower(Lex(input).0));
  }

  // ---- everything registered can be typed ----

  lemma {:induction false} SplitOnceAt(word: string, rest: string)
    requires ' ' !in word
    ensures SplitOnce(word + [' '] + rest) == (word, Some(rest))
  {
    var s := word + [' '] + rest;
    if word == "" {
      assert s[1..] == rest;
    } else {
      assert s[1..] == word[1..] + [' '] + rest;
      SplitOnceAt(word[1..], rest);
      assert [word[0]] + word[1..] == word;
    }
  }

  lemma {:induction false} PreparedBlankless(aliases: seq<string>)
    requires PrepareAliases(aliases).Ok?
    ensures forall n | n in PrepareAliases(aliases).value :: forall c | c in n :: !Whitespace(c)
  {
    hide Parse, Lower, Whitespace;
    if aliases != [] {
      ParsedShape(aliases[0]);
      PreparedBlankless(aliases[1..]);
    }
  }

  lemma AnswersBlankless(idx: Index, k: string, name: string)
    requires Inv(idx) && AnswersTo(idx, k, name)
    ensures name != "" && forall c | c in name :: !Whitespace(c)
  {
    hide Parse, FullName, PrepareAliases, Whitespace, Lower;
    var e := idx.entries[k];
    assert KeyedBy(e, k);
    PreparedShape(e);
    PreparedBlankless(e.aliases);
    var p := Prepare(e).value;
    if name != k && name !in p.aliases {
      BareNameBlankless(e.fullname);
    }
  }

  lemma BareNameBlankless(fullname: string)
    requires Level1BareName(fullname).Some?
    ensures forall c | c in Level1BareName(fullname).value :: !Whitespace(c)
  {
    hide Parse, Whitespace;
    var n := Parse(fullname).value;
    FullNameIsLower(fullname);
    ParsedShape(fullname);
    assert forall c | c in Lower(n.name) :: c in FullName(n);
  }

  lemma LexTyped(typed: string, args: string)
    requires forall c | c in typed :: !Whitespace(c)
    ensures Lex("/" + typed + " " + args) == (TrimSlashes(typed), Trim(args))
  {
    hide Trim;
    var input := "/" + typed + " " + args;
    assert input[1..] == typed + [' '] + args;
    TrimSlashesBefore(typed, args);
    var name := TrimSlashes(typed);
    forall c | c in name ensures !Whitespace(c) { TrimSlashesKeeps(typed, c); }
    assert Whitespace(' ');
    SplitOnceAt(name, args);
    if name == "" { TrimNothing(); } else { TrimBlankless(name); }
  }

  lemma TrimNothing()
    ensures Trim("") == ""
  {}

  lemma {:induction false} TrimSlashesBefore(typed: string, args: string)
    ensures TrimSlashes(typed + [' '] + args) == TrimSlashes(typed) + [' '] + args
  {
    var s := typed + [' '] + args;
    if typed != "" {
      assert s[1..] == typed[1..] + [' '] + args;
      TrimSlashesBefore(typed[1..], args);
    }
  }

  lemma {:induction false} TrimSlashesKeeps(s: string, c: char)
    ensures c in TrimSlashes(s) ==> c in s
  {
    if s != "" && s[0] == '/' { TrimSlashesKeeps(s[1..], c); }
  }

  // A tab in front keeps the slashes of a name from being stripped, and is trimmed off afterwards.
  lemma LexTabbed(typed: string, args: string)
    requires typed != "" && forall c | c in typed :: !Whitespace(c)
    ensures Lex("\t" + typed + " " + args) == (typed, Trim(args))
  {
    hide TrimRight;
    var input := "\t" + typed + " " + args;
    var word := "\t" + typed;
    assert input == word + [' '] + args && TrimSlashes(input) == input;
    assert Whitespace(' ') && Whitespace('\t');
    SplitOnceAt(word, args);
    assert word[1..] == typed;
    TrimBlankless(typed);
    assert typed[0] in typed;
    assert TrimLeft(word) == TrimLeft(typed) == typed;
  }

  // What a word typed behind a slash resolves to: all leading slashes are gone.
  lemma SlashTyped(idx: Index, typed: string, args: string)
    requires forall c | c in typed :: !Whitespace(c)
    ensures var name := TrimSlashes(typed);
            var found := if name == "" then None else LookUp(idx, Lower(name));
            Resolve(idx, "/" + typed + " " + args) ==
            if found.Some? then Some(Resolved(found.value, Trim(args))) else None
  {
    hide Lower, Trim, Lex, LookUp;
    LexTyped(typed, args);
  }

  // Every name an entry answers to can be typed, in any case and before any arguments: behind a tab
  // always, and behind a slash exactly if the entry also answers to the name without its own leading
  // slashes, as it does if there are none.
  lemma RegisteredIsReachable(idx: Index, k: string, typed: string, args: string)
    requires Inv(idx) && AnswersTo(idx, k, Lower(typed))
    ensures Resolve(idx, "\t" + typed + " " + args) == Some(Resolved(idx.entries[k], Trim(args)))
    ensures Resolve(idx, "/" + typed + " " + args) == Some(Resolved(idx.entries[k], Trim(args))) <==>
              TrimSlashes(typed) != "" && AnswersTo(idx, k, Lower(TrimSlashes(typed)))
  {
    hide Lower, Inv, Trim, Lex, LookUp, NamesOf;
    AnswersBlankless(idx, k, Lower(typed));
    LowerBlankless(typed);
    LexTabbed(typed, args);
    SlashTyped(idx, typed, args);
    LookUpIsSearch(idx, Lower(typed));
    assert Finds(idx, Lower(typed), idx.entries[k]);
    EntriesDiffer(idx, k, Lower(TrimSlashes(typed)));
  }

  // No two keys hold the same entry, so a name finds the entry of a key exactly if that key answers.
  lemma EntriesDiffer(idx: Index, k: string, name: string)
    requires Inv(idx) && k in idx.entries
    ensures LookUp(idx, name) == Some(idx.entries[k]) <==> AnswersTo(idx, k, name)
  {
    hide Inv, NamesOf;
    LookUpIsSearch(idx, name);
    if LookUp(idx, name) == Some(idx.entries[k]) {
      assert Finds(idx, name, idx.entries[k]);
      var l :| AnswersTo(idx, l, name) && idx.entries[l] == idx.entries[k];
      KeyOfEntry(idx, k);
      KeyOfEntry(idx, l);
    }
    assert AnswersTo(idx, k, name) ==> Finds(idx, name, idx.entries[k]);
  }

  lemma KeyOfEntry(idx: Index, k: string)
    requires Inv(idx) && k in idx.entries
    ensures k == Lower(idx.entries[k].fullname)
  {
    hide Parse, FullName, PrepareAliases, Whitespace, Lower;
    assert KeyedBy(idx.entries[k], k);
    PreparedShape(idx.entries[k]);
  }

  lemma LowerBlankless(s: string)
    requires Lower(s) != "" && forall c | c in Lower(s) :: !Whitespace(c)
    ensures s != "" && ' ' !in s && forall c | c in s :: !Whitespace(c)
  {
    forall c | c in s ensures !Whitespace(c) {
      var i :| 0 <= i < |s| && s[i] == c;
      assert Lower(s)[i] in Lower(s);
    }
    assert Whitespace(' ');
  }

  lemma TrimBlankless(s: string)
    requires s != "" && forall c | c in s :: !Whitespace(c)
    ensures Trim(s) == s
  {
    assert s[0] in s && s[|s| - 1] in s;
  }

  // ---- how an input is cut ----

  predicate AllWhite(s: string) { forall c | c in s :: Whitespace(c) }

  lemma {:induction false} TrimLeftMeans(s: string) returns (front: string)
    ensures s == front + TrimLeft(s) && AllWhite(front)
    ensures TrimLeft(s) != "" ==> !Whitespace(TrimLeft(s)[0])
  {
    front := "";
    if s != "" && Whitespace(s[0]) {
      var rest := TrimLeftMeans(s[1..]);
      front := [s[0]] + rest;
      assert s == [s[0]] + s[1..];
      assert [s[0]] + (rest + TrimLeft(s[1..])) == front + TrimLeft(s[1..]);
    } else {
      assert "" + s == s;
    }
  }

  lemma {:induction false} TrimRightMeans(s: string) returns (back: string)
    ensures s == TrimRight(s) + back && AllWhite(back)
    ensures TrimRight(s) != "" ==> !Whitespace(TrimRight(s)[|TrimRight(s)| - 1]) && TrimRight(s)[0] == s[0]
    decreases |s|
  {
    back := "";
    if s != "" && Whitespace(s[|s| - 1]) {
      var front := s[..|s| - 1];
      var rest := TrimRightMeans(front);
      back := rest + [s[|s| - 1]];
      assert s == front + [s[|s| - 1]];
      assert (TrimRight(front) + rest) + [s[|s| - 1]] == TrimRight(front) + back;
    } else {
      assert s + "" == s;
    }
  }

  // Trimming takes exactly the white space off both ends; what is inside stays.
  lemma TrimMeans(s: string) returns (front: string, back: string)
    ensures s == front + Trim(s) + back && AllWhite(front) && AllWhite(back)
    ensures var t := Trim(s); t != "" ==> !Whitespace(t[0]) && !Whitespace(t[|t| - 1])
  {
    front := TrimLeftMeans(s);
    back := TrimRightMeans(TrimLeft(s));
    assert front + (Trim(s) + back) == front + Trim(s) + back;
  }

  // Behind any number of slashes the text up to the first space is the name and the text after it the
  // arguments, both trimmed; without a space all of it is the name.
  lemma {:induction false} LexMeans(slashes: string, word: string, rest: string)
    requires (forall c | c in slashes :: c == '/') && ' ' !in word
    requires word == "" || word[0] != '/'
    ensures Lex(slashes + word + " " + rest) == (Trim(word), Trim(rest))
    ensures Lex(slashes + word) == (Trim(word), "")
    decreases |slashes|
  {
    hide Trim;
    if slashes == "" {
      assert slashes + word + " " + rest == word + [' '] + rest && slashes + word == word;
      SplitOnceAt(word, rest);
      SplitOnceNone(word);
      StartsWord(word, [' '] + rest);
      assert word + ([' '] + rest) == word + [' '] + rest;
    } else {
      assert (slashes + word + " " + rest)[1..] == slashes[1..] + word + " " + rest;
      assert (slashes + word)[1..] == slashes[1..] + word;
      assert slashes[0] in slashes && forall c | c in slashes[1..] :: c in slashes;
      DropSlash(slashes + word + " " + rest);
      DropSlash(slashes + word);
      LexMeans(slashes[1..], word, rest);
    }
  }

  lemma DropSlash(input: string)
    requires input != "" && input[0] == '/'
    ensures Lex(input) == Lex(input[1..])
  {}

  lemma StartsWord(word: string, rest: string)
    requires word == "" || word[0] != '/'
    requires rest != "" && rest[0] != '/'
    ensures TrimSlashes(word + rest) == word + rest && TrimSlashes(word) == word
  {
    if word != "" { assert (word + rest)[0] == word[0]; }
  }

  lemma {:induction false} SplitOnceNone(word: string)
    requires ' ' !in word
    ensures SplitOnce(word) == (word, None)
  {
    if word != "" {
      SplitOnceNone(word[1..]);
      assert [word[0]] + word[1..] == word;
    }
  }
}
