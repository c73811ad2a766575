// The mutable registry: maps changed in place under the write locks, one method per operation. Every
// method is tied to the step of RegistryState it stands for.
module CommandRegistry {
  import opened Wrappers
  import opened CommandName
  import opened RegistryIndex
  import opened RegistryState
  import opened RegistryRemoval
  import opened RegistryLookup

  class Registry {
    var entries: map<string, RouteEntry>
    var aliasIndex: map<string, string>
    var sources: map<string, Discovery>
    // Whether a change callback is set, and how often it has been called.
    var callback: bool
    var notified: nat

    function Idx(): Index
      reads this
    {
      Index(entries, aliasIndex)
    }

    function St(): State
      reads this
    {
      State(Idx(), sources)
    }

    ghost predicate Valid()
      reads this
    {
      Inv(Idx())
    }

    constructor ()
      ensures Valid() && St() == INITIAL && !callback && notified == 0
    {
      entries, aliasIndex, sources, callback, notified := map[], map[], map[], false, 0;
      new;
      EmptyInv();
    }

    method SetOnChange(present: bool)
      modifies this`callback
      ensures callback == present
    {
      callback := present;
    }

    // Calls the callback, if there is one.
    method Notify()
      modifies this`notified
      ensures notified == old(notified) + if callback then 1 else 0
    {
      if callback { notified := notified + 1; }
    }

    // insert_entry: the loop over the aliases, then the bare name.
    method InsertEntry(p: Prepared, e: RouteEntry)
      modifies this`entries, this`aliasIndex
      ensures Idx() == Insert(old(Idx()), p, e)
    {
      hide Pointing;
      ghost var start := aliasIndex;
      entries := entries[p.key := e];
      NothingPointing(start, p.key);
      assert Elements(p.aliases[..0]) == {};
      for i := 0 to |p.aliases|
        invariant entries == old(entries)[p.key := e]
        invariant aliasIndex == Pointing(start, Elements(p.aliases[..i]), p.key)
      {
        PointOneMore(start, Elements(p.aliases[..i]), p.aliases[i], p.key);
        assert Elements(p.aliases[..i + 1]) == Elements(p.aliases[..i]) + {p.aliases[i]};
        aliasIndex := aliasIndex[p.aliases[i] := p.key];
      }
      assert p.aliases[..|p.aliases|] == p.aliases;
      if p.bareName.Some? {
        PointOneMore(start, Elements(p.aliases), p.bareName.value, p.key);
        aliasIndex := aliasIndex[p.bareName.value := p.key];
      }
      assert p.bareName.None? ==> Names(p) == Elements(p.aliases);
      InsertPoints(Index(old(entries), start), p, e);
    }

    method Register(e: RouteEntry) returns (error: Option<RegisterError>)
      requires Valid()
      modifies this
      ensures Valid() && St() == Apply(old(St()), RegisterOp(e))
      ensures error == RegistryIndex.Register(old(Idx()), e).1
      ensures callback == old(callback)
      ensures notified == old(notified) + if callback && Fires(old(St()), RegisterOp(e)) then 1 else 0
    {
      RegisterKeeps(Idx(), e);
      var prepared := Prepare(e);
      if prepared.Err? { return Some(prepared.error); }
      var conflict := FindConflict(prepared.value, Idx());
      if conflict.Some? { return conflict; }
      InsertEntry(prepared.value, e);
      Notify();
      return None;
    }

    // The loop of the batch operations over their prechecked entries: refused entries are skipped.
    method RegisterPending(es: seq<RouteEntry>) returns (added: nat, errors: seq<RegisterError>)
      requires Valid()
      modifies this`entries, this`aliasIndex
      ensures Valid() && Idx() == RegisterSeq(old(Idx()), es).0
      ensures errors == RegisterSeq(old(Idx()), es).1
      ensures added == Added(old(Idx()), es)
    {
      hide RegistryIndex.Register, Prepare, FindConflict, Insert, Inv;
      ghost var start := Idx();
      added, errors := 0, [];
      for i := 0 to |es|
        invariant Valid()
        invariant RegisterSeq(start, es).0 == RegisterSeq(Idx(), es[i..]).0
        invariant RegisterSeq(start, es).1 == errors + RegisterSeq(Idx(), es[i..]).1
        invariant added + |errors| == i
      {
        ghost var rest := RegisterSeq(RegistryIndex.Register(Idx(), es[i]).0, es[i + 1..]).1;
        RegisterUnfolds(Idx(), es[i]);
        assert es[i..][0] == es[i] && es[i..][1..] == es[i + 1..];
        RegisterKeeps(Idx(), es[i]);
        ghost var before := errors;
        var prepared := Prepare(es[i]);
        if prepared.Err? {
          errors := errors + [prepared.error];
          assert before + ([prepared.error] + rest) == errors + rest;
        } else {
          var conflict := FindConflict(prepared.value, Idx());
          if conflict.Some? {
            errors := errors + [conflict.value];
            assert before + ([conflict.value] + rest) == errors + rest;
          } else {
            InsertEntry(prepared.value, es[i]);
            added := added + 1;
            assert before + ([] + rest) == errors + rest;
          }
        }
      }
      assert errors + [] == errors;
    }

    method RegisterAll(es: seq<RouteEntry>) returns (added: nat, errors: seq<RegisterError>)
      requires Valid()
      modifies this
      ensures Valid() && St() == Apply(old(St()), RegisterAllOp(es))
      ensures errors == RegisterSeq(old(Idx()), es).1
      ensures added + |errors| == |es|
      ensures callback == old(callback)
      ensures notified == old(notified) + if callback && Fires(old(St()), RegisterAllOp(es)) then 1 else 0
    {
      hide RegisterSeq, Inv;
      BatchCounts(Idx(), es);
      added, errors := RegisterPending(es);
      if added > 0 { Notify(); }
    }

    // remove_index_entries: takes out the names of a removed entry, each only if it still points to
    // the removed key.
    method RemoveIndexEntries(e: RouteEntry, key: string)
      requires KeyedBy(e, key)
      requires forall n | n in aliasIndex && aliasIndex[n] == key :: n in NamesOf(e)
      modifies this`aliasIndex
      ensures aliasIndex == map n | n in old(aliasIndex) && old(aliasIndex)[n] != key :: old(aliasIndex)[n]
    {
      hide Level1BareName, Lower, Parse, FullName, NamesOf;
      ghost var start := aliasIndex;
      PreparedAliases(e.aliases);
      NamesByParts(e);
      NoneLeft(start, key);
      assert LowerAll(e.aliases)[..0] == [];
      for i := 0 to |e.aliases|
        invariant aliasIndex == Unpointed(start, Elements(LowerAll(e.aliases)[..i]), key)
      {
        var a := Lower(e.aliases[i]);
        assert LowerAll(e.aliases)[..i + 1] == LowerAll(e.aliases)[..i] + [a];
        assert Elements(LowerAll(e.aliases)[..i + 1]) == Elements(LowerAll(e.aliases)[..i]) + {a};
        OneUnpointed(start, Elements(LowerAll(e.aliases)[..i]), a, key);
        if a != "" && a in aliasIndex && aliasIndex[a] == key {
          aliasIndex := aliasIndex - {a};
        }
      }
      assert LowerAll(e.aliases)[..|e.aliases|] == LowerAll(e.aliases);
      var bare := Level1BareName(e.fullname);
      if bare.Some? {
        OneUnpointed(start, Elements(LowerAll(e.aliases)), bare.value, key);
        if bare.value in aliasIndex && aliasIndex[bare.value] == key {
          aliasIndex := aliasIndex - {bare.value};
        }
      }
      AllUnpointed(start, NamesOf(e), key);
    }

    // Removes one registered key together with its names.
    method RemoveKey(key: string)
      requires Valid() && key in entries
      modifies this`entries, this`aliasIndex
      ensures Valid() && Idx() == Without(old(Idx()), {key})
    {
      hide KeyedBy, NamesOf;
      ghost var start := Idx();
      WithoutKeeps(start, {key});
      var removed := entries[key];
      assert KeyedBy(removed, key);
      forall n | n in aliasIndex && aliasIndex[n] == key ensures n in NamesOf(removed) {
        assert Points(start, n, key);
        assert Claims(start, n, key);
      }
      entries := entries - {key};
      RemoveIndexEntries(removed, key);
      assert entries == Without(start, {key}).entries;
      assert aliasIndex == Without(start, {key}).aliasIndex;
    }

    method Unregister(fullname: string) returns (hit: bool)
      requires Valid()
      modifies this
      ensures Valid() && St() == Apply(old(St()), UnregisterOp(fullname))
      ensures hit <==> Lower(fullname) in old(entries)
      ensures Removed(old(Idx()), Idx(), {Lower(fullname)}) && sources == old(sources)
      ensures callback == old(callback)
      ensures notified == old(notified) + if callback && hit then 1 else 0
    {
      hide Inv, Lower, Removed;
      UnregisterRemoves(St(), fullname);
      var key := Lower(fullname);
      if key !in entries {
        WithoutNothing(Idx(), {key});
        return false;
      }
      RemoveKey(key);
      Notify();
      return true;
    }

    // unregister_prefix_locked: the keys are visited in no particular order.
    method UnregisterPrefixLocked(prefix: string) returns (n: nat)
      requires Valid()
      modifies this`entries, this`aliasIndex
      ensures Valid() && Idx() == Without(old(Idx()), KeysBelow(old(Idx()), prefix))
      ensures n == |KeysBelow(old(Idx()), prefix)|
    {
      hide Inv, Below;
      ghost var start := Idx();
      var keys := set k | k in entries && Below(k, prefix);
      assert keys == KeysBelow(start, prefix);
      n := |keys|;
      var todo := keys;
      WithoutNothing(start, {});
      while todo != {}
        invariant todo <= keys
        invariant Valid() && Idx() == Without(start, keys - todo)
      {
        var key :| key in todo;
        WithoutTwice(start, keys - todo, {key});
        assert keys - (todo - {key}) == (keys - todo) + {key};
        RemoveKey(key);
        todo := todo - {key};
      }
      assert keys - {} == keys;
    }

    method UnregisterNamespace(domain: string, namespace: string) returns (n: nat)
      requires Valid()
      modifies this
      ensures Valid() && St() == Apply(old(St()), UnregisterNamespaceOp(domain, namespace))
      ensures n == |KeysBelow(old(Idx()), NamespacePrefix(domain, namespace))|
      ensures callback == old(callback)
      ensures notified == old(notified)
                          + if callback && Fires(old(St()), UnregisterNamespaceOp(domain, namespace)) then 1 else 0
    {
      hide Inv, KeysBelow, Without;
      var prefix := if namespace == "" then Lower(domain) else Lower(domain) + ":" + Lower(namespace);
      n := UnregisterPrefixLocked(prefix);
      if n > 0 { Notify(); }
    }

    method Reconcile(stale: seq<string>, incoming: seq<RouteEntry>) returns (removed: nat, added: nat)
      requires Valid()
      modifies this
      ensures Valid() && St() == Apply(old(St()), ReconcileOp(stale, incoming))
      ensures removed == UnregisterSeq(old(Idx()), stale).1
      ensures added == Added(UnregisterSeq(old(Idx()), stale).0, incoming)
      ensures callback == old(callback)
      ensures notified == old(notified)
                          + if callback && Fires(old(St()), ReconcileOp(stale, incoming)) then 1 else 0
    {
      hide RegisterSeq, Without, Inv, Added;
      ghost var start := Idx();
      removed := 0;
      for i := 0 to |stale|
        invariant Valid() && sources == old(sources) && callback == old(callback) && notified == old(notified)
        invariant UnregisterSeq(start, stale).0 == UnregisterSeq(Idx(), stale[i..]).0
        invariant UnregisterSeq(start, stale).1 == removed + UnregisterSeq(Idx(), stale[i..]).1
      {
        assert stale[i..][0] == stale[i] && stale[i..][1..] == stale[i + 1..];
        var key := Lower(stale[i]);
        if key in entries {
          RemoveKey(key);
          removed := removed + 1;
        } else {
          WithoutNothing(Idx(), {key});
        }
      }
      ghost var errors;
      added, errors := RegisterPending(incoming);
      if removed + added > 0 { Notify(); }
    }

    // A read-only lookup.
    method ResolveInput(input: string) returns (r: Option<Resolved>)
      ensures r == Resolve(Idx(), input)
    {
      hide Lex;
      var (name, args) := Lex(input);
      if name == "" { return None; }
      var key := Lower(name);
      if key in entries { return Some(Resolved(entries[key], args)); }
      if key in aliasIndex {
        var fullname := aliasIndex[key];
        if fullname in entries { return Some(Resolved(entries[fullname], args)); }
      }
      return None;
    }

    // The second loop of the projection: what is new or has another handle, in the given order.
    method ListToDiscover(connected: seq<(string, Handle)>) returns (toDiscover: seq<(string, Handle)>)
      ensures toDiscover == ToDiscover(sources, connected)
    {
      hide ToDiscover;
      toDiscover := [];
      ToDiscoverSplit(sources, connected, 0);
      for i := 0 to |connected|
        invariant toDiscover == ToDiscover(sources, connected[..i])
      {
        ToDiscoverSplit(sources, connected, i);
        var needed := connected[i].0 !in sources || sources[connected[i].0].handle != connected[i].1;
        if needed { toDiscover := toDiscover + [connected[i]]; }
      }
      assert connected[..|connected|] == connected;
    }

    method ProjectSources(connected: seq<(string, Handle)>) returns (projection: Projection)
      requires Valid()
      modifies this
      ensures Valid() && St() == Apply(old(St()), ProjectOp(connected))
      ensures projection == ProjectResult(old(St()), connected)
      ensures callback == old(callback)
      ensures notified == old(notified) + if callback && Fires(old(St()), ProjectOp(connected)) then 1 else 0
    {
      hide Inv, Below, Without, KeysBelow, KeysBelowAny;
      ghost var start, sources0 := Idx(), sources;
      var removed := set k | k in sources && forall c | c in connected :: c.0 != k;
      assert removed == Gone(sources0, connected);
      var todo := removed;
      NoneBelow(start);
      assert removed - todo == {};
      while todo != {}
        invariant todo <= removed
        invariant callback == old(callback) && notified == old(notified)
        invariant Valid() && Idx() == Without(start, KeysBelowAny(start, removed - todo))
        invariant sources == sources0 - (removed - todo)
      {
        var prefix :| prefix in todo;
        WithoutPrefix(start, removed - todo, prefix);
        assert removed - (todo - {prefix}) == (removed - todo) + {prefix};
        sources := sources - {prefix};
        var n := UnregisterPrefixLocked(prefix);
        todo := todo - {prefix};
      }
      assert removed - {} == removed;
      var toDiscover := ListToDiscover(connected);
      projection := Projection(toDiscover, removed != {});
      if removed != {} { Notify(); }
    }

    method MarkSourceStarted(prefix: string, handle: Handle)
      requires Valid()
      modifies this
      ensures Valid() && St() == Apply(old(St()), StartOp(prefix, handle))
      ensures callback == old(callback)
      ensures notified == old(notified) + if callback && Fires(old(St()), StartOp(prefix, handle)) then 1 else 0
    {
      hide Inv, Without, KeysBelow;
      var fire := false;
      if prefix in sources && sources[prefix].Discovered? {
        var n := UnregisterPrefixLocked(prefix);
        fire := n > 0;
      }
      sources := sources[prefix := Started(handle)];
      if fire { Notify(); }
    }

    method MarkSourceCompleted(prefix: string, handle: Handle, found: seq<RouteEntry>) returns (added: nat)
      requires Valid()
      modifies this
      ensures Valid() && St() == Apply(old(St()), CompleteOp(prefix, handle, found))
      ensures added == CompletedCount(old(St()), prefix, handle, found)
      ensures callback == old(callback)
      ensures notified == old(notified)
                          + if callback && Fires(old(St()), CompleteOp(prefix, handle, found)) then 1 else 0
    {
      hide Inv, Without, KeysBelow, RegisterSeq, Added;
      if prefix !in sources || sources[prefix].handle != handle { return 0; }
      sources := sources[prefix := Discovered(handle)];
      var removed := UnregisterPrefixLocked(prefix);
      ghost var errors;
      added, errors := RegisterPending(found);
      if removed + added > 0 { Notify(); }
    }

    method ClearSourceStarted(prefix: string, handle: Handle)
      requires Valid()
      modifies this`sources
      ensures Valid() && St() == Apply(old(St()), ClearOp(prefix, handle))
    {
      hide Inv;
      if prefix in sources && sources[prefix] == Started(handle) {
        sources := sources - {prefix};
      }
    }
  }

  // Without those of the names that point to the key.
  function Unpointed(start: map<string, string>, names: set<string>, key: string): map<string, string> {
    map n | n in start && (start[n] != key || n !in names) :: start[n]
  }

  lemma NoneLeft(start: map<string, string>, key: string)
    ensures Unpointed(start, {}, key) == start && Elements([]) == {}
  {}

  lemma OneUnpointed(start: map<string, string>, names: set<string>, a: string, key: string)
    ensures var now := Unpointed(start, names, key);
            Unpointed(start, names + {a}, key) == if a in now && now[a] == key then now - {a} else now
  {}

  lemma AllUnpointed(start: map<string, string>, names: set<string>, key: string)
    requires forall n | n in start && start[n] == key :: n in names
    ensures Unpointed(start, names, key) == map n | n in start && start[n] != key :: start[n]
  {}

  lemma NamesByParts(e: RouteEntry)
    requires Prepare(e).Ok?
    ensures var bare := Level1BareName(e.fullname);
            NamesOf(e) == Elements(LowerAll(e.aliases)) + if bare.Some? then {bare.value} else {}
    ensures forall i | 0 <= i < |e.aliases| :: Lower(e.aliases[i]) != ""
  {
    hide Level1BareName, Lower, Parse, FullName;
    PreparedAliases(e.aliases);
    assert Prepare(e).value.aliases == LowerAll(e.aliases);
  }

  function Pointing(start: map<string, string>, names: set<string>, key: string): map<string, string> {
    start + map n | n in names :: key
  }

  lemma InsertPoints(idx: Index, p: Prepared, e: RouteEntry)
    ensures Insert(idx, p, e) == Index(idx.entries[p.key := e], Pointing(idx.aliasIndex, Names(p), p.key))
  {}

  lemma NothingPointing(start: map<string, string>, key: string)
    ensures Pointing(start, {}, key) == start
  {}

  lemma PointOneMore(start: map<string, string>, names: set<string>, name: string, key: string)
    ensures Pointing(start, names, key)[name := key] == Pointing(start, names + {name}, key)
  {}

  // One step of the fold, seen from the two checks the loop makes.
  lemma RegisterUnfolds(idx: Index, e: RouteEntry)
    ensures RegistryIndex.Register(idx, e) ==
            match Prepare(e)
            case Err(error) => (idx, Some(error))
            case Ok(p) => if FindConflict(p, idx).Some? then (idx, FindConflict(p, idx)) else (Insert(idx, p, e), None)
  {}

  lemma WithoutTwice(idx: Index, a: set<string>, b: set<string>)
    ensures Without(Without(idx, a), b) == Without(idx, a + b)
  {
    var once, twice := Without(idx, a + b), Without(Without(idx, a), b);
    assert once.entries == twice.entries;
    assert once.aliasIndex == twice.aliasIndex;
  }

  lemma NoneBelow(idx: Index)
    requires Inv(idx)
    ensures Without(idx, KeysBelowAny(idx, {})) == idx
  {
    assert KeysBelowAny(idx, {}) == {};
    WithoutNothing(idx, {});
  }

  lemma ToDiscoverSplit(sources: map<string, Discovery>, connected: seq<(string, Handle)>, i: nat)
    requires i <= |connected|
    ensures i == 0 ==> ToDiscover(sources, connected[..i]) == []
    ensures i < |connected| ==>
              ToDiscover(sources, connected[..i + 1]) ==
              ToDiscover(sources, connected[..i])
              + if NeedsDiscovery(sources, connected[i]) then [connected[i]] else []
  {
    if i < |connected| {
      assert connected[..i + 1] == connected[..i] + [connected[i]];
      ToDiscoverSnoc(sources, connected[..i], connected[i]);
    }
  }

  lemma {:induction false} ToDiscoverSnoc(sources: map<string, Discovery>, front: seq<(string, Handle)>,
                                         c: (string, Handle))
    ensures ToDiscover(sources, front + [c]) ==
            ToDiscover(sources, front) + if NeedsDiscovery(sources, c) then [c] else []
  {
    if front == [] {
      assert front + [c] == [c] && [c][1..] == [];
    } else {
      assert (front + [c])[1..] == front[1..] + [c];
      ToDiscoverSnoc(sources, front[1..], c);
    }
  }

  // Clearing the prefixes one by one, in any order, clears them all.
  lemma WithoutPrefix(idx: Index, done: set<string>, prefix: string)
    ensures var part := Without(idx, KeysBelowAny(idx, done));
            Without(part, KeysBelow(part, prefix)) == Without(idx, KeysBelowAny(idx, done + {prefix}))
  {
    hide Below;
    var a := KeysBelowAny(idx, done);
    var part := Without(idx, a);
    var b := KeysBelow(part, prefix);
    WithoutTwice(idx, a, b);
    assert a + b == KeysBelowAny(idx, done + {prefix});
  }
}
