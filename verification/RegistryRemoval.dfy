// What unregistering means, in every form: the entries are gone with all their names, and nothing else
// changes.
module RegistryRemoval {
  import opened Wrappers
  import opened CommandName
  import opened RegistryIndex
  import opened RegistryState
  import opened RegistryLookup

  // Of two indexes, the second is the first without the entries under these keys: every other entry is
  // kept as it is, a name is gone exactly if it pointed to one of them, and every other name still
  // points where it did.
  ghost predicate Removed(before: Index, after: Index, gone: set<string>) {
    && (forall k :: k in after.entries <==> k in before.entries && k !in gone)
    && (forall k | k in after.entries :: after.entries[k] == before.entries[k])
    && (forall n :: n in after.aliasIndex <==> n in before.aliasIndex && before.aliasIndex[n] !in gone)
    && (forall n | n in after.aliasIndex :: after.aliasIndex[n] == before.aliasIndex[n])
  }

  lemma WithoutRemoves(idx: Index, keys: set<string>)
    ensures Removed(idx, Without(idx, keys), keys)
  {}

  // The keys of a list of full names.
  function Keys(names: seq<string>): set<string> { set n | n in names :: Lower(n) }

  lemma RemovedTwice(a: Index, b: Index, c: Index, gone: set<string>, more: set<string>)
    requires Removed(a, b, gone) && Removed(b, c, more)
    ensures Removed(a, c, gone + more)
  {}

  lemma {:induction false} ListRemoves(idx: Index, names: seq<string>)
    ensures Removed(idx, UnregisterSeq(idx, names).0, Keys(names))
    decreases |names|
  {
    hide Without, Lower;
    if names != [] {
      var next := Without(idx, {Lower(names[0])});
      WithoutRemoves(idx, {Lower(names[0])});
      ListRemoves(next, names[1..]);
      hide Removed;
      RemovedTwice(idx, next, UnregisterSeq(next, names[1..]).0, {Lower(names[0])}, Keys(names[1..]));
      assert names == [names[0]] + names[1..];
      assert Keys(names) == {Lower(names[0])} + Keys(names[1..]);
    }
  }

  // The prefix of a domain, or of a namespace in it.
  function PrefixOf(domain: string, namespace: string): string {
    Lower(domain) + if namespace == "" then ":" else ":" + Lower(namespace) + ":"
  }

  lemma LowerAgain(s: string)
    ensures Lower(Lower(s)) == Lower(s)
  {
    forall i | 0 <= i < |s| ensures LowerChar(LowerChar(s[i])) == LowerChar(s[i]) {}
  }

  lemma LowerJoined(a: string, b: string)
    ensures Lower(a + ":" + b) == Lower(a) + ":" + Lower(b)
  {
    var s, t := Lower(a + ":" + b), Lower(a) + ":" + Lower(b);
    forall i | 0 <= i < |s| ensures s[i] == t[i] {}
  }

  lemma NamespaceBelow(domain: string, namespace: string, key: string)
    ensures Below(key, NamespacePrefix(domain, namespace)) <==> PrefixOf(domain, namespace) <= key
  {
    hide Lower;
    LowerAgain(domain);
    if namespace != "" {
      LowerAgain(namespace);
      LowerJoined(Lower(domain), Lower(namespace));
      assert Lower(domain) + ":" + Lower(namespace) + ":" == Lower(domain) + (":" + Lower(namespace) + ":");
    }
  }

  // Unregistering a full name removes exactly the entry under its lower-cased form; unregistering a
  // namespace exactly those whose key continues its lower-cased prefix; reconciling exactly those under
  // the stale names, before the incoming ones are registered.
  lemma UnregisterRemoves(st: State, fullname: string)
    ensures var next := Apply(st, UnregisterOp(fullname));
            next.sources == st.sources && Removed(st.index, next.index, {Lower(fullname)})
  {
    WithoutRemoves(st.index, {Lower(fullname)});
  }

  lemma NamespaceRemoves(st: State, domain: string, namespace: string)
    ensures var next := Apply(st, UnregisterNamespaceOp(domain, namespace));
            && next.sources == st.sources
            && Removed(st.index, next.index, set k | k in st.index.entries && PrefixOf(domain, namespace) <= k)
  {
    hide Below, Without, NamespacePrefix, PrefixOf;
    forall k | k in st.index.entries
      ensures Below(k, NamespacePrefix(domain, namespace)) <==> PrefixOf(domain, namespace) <= k
    {
      NamespaceBelow(domain, namespace, k);
    }
    var gone := KeysBelow(st.index, NamespacePrefix(domain, namespace));
    assert gone == set k | k in st.index.entries && PrefixOf(domain, namespace) <= k;
    WithoutRemoves(st.index, gone);
  }

  lemma ReconcileRemoves(st: State, stale: seq<string>, incoming: seq<RouteEntry>)
    ensures var cleaned := Apply(st, ReconcileOp(stale, []));
            && cleaned.sources == st.sources && Removed(st.index, cleaned.index, set n | n in stale :: Lower(n))
            && Apply(st, ReconcileOp(stale, incoming)) == Apply(cleaned, RegisterAllOp(incoming))
  {
    ListRemoves(st.index, stale);
  }

  // ---- what is removed cannot be reached ----

  // After a removal an input resolves as before, except that it resolves to nothing if it resolved to
  // a removed entry; and a removed entry is found by none of the names it answered to.
  lemma RemovedIsUnreachable(before: Index, after: Index, gone: set<string>, input: string)
    requires Inv(before) && Removed(before, after, gone)
    ensures var was := Resolve(before, input);
            Resolve(after, input) == if was.Some? && Lower(was.value.entry.fullname) in gone then None else was
    ensures forall k | k in gone && AnswersTo(before, k, Lower(Lex(input).0)) :: Resolve(after, input) == None
  {
    hide Inv, Lex, Lower, NamesOf;
    var name := Lower(Lex(input).0);
    LookUpIsSearch(before, name);
    LookUpRemoved(before, after, gone, name);
    forall k | k in gone && AnswersTo(before, k, name) ensures Resolve(after, input) == None {
      assert Finds(before, name, before.entries[k]);
      KeyOfEntry(before, k);
    }
  }

  lemma LookUpRemoved(before: Index, after: Index, gone: set<string>, name: string)
    requires Inv(before) && Removed(before, after, gone)
    ensures var was := LookUp(before, name);
            LookUp(after, name) == if was.Some? && Lower(was.value.fullname) in gone then None else was
  {
    hide KeyedBy, NamesOf, Lower;
    DomainsDisjoint(before);
    if name in before.entries {
      KeyOfEntry(before, name);
    } else if name in before.aliasIndex {
      assert Points(before, name, before.aliasIndex[name]) && Claims(before, name, before.aliasIndex[name]);
      KeyOfEntry(before, before.aliasIndex[name]);
    }
  }
}
