// Every step of the registry in terms of what was there before: what changes, what is counted, and when
// the callback is called.
module RegistryEffects {
  import opened Wrappers
  import opened CommandName
  import opened RegistryIndex
  import opened RegistryState
  import opened RegistryRemoval
  import opened RegistryLifecycle

  // ---- the sources ----

  // Starting always stores the handle as started; if the source was discovered its entries are withdrawn,
  // and otherwise no entry is touched.
  lemma StartMeans(st: State, prefix: string, handle: Handle)
    ensures var next := Apply(st, StartOp(prefix, handle));
            && next.sources == st.sources[prefix := Started(handle)]
            && Removed(st.index, next.index,
                       set k | k in st.index.entries && Lower(prefix) + ":" <= k
                               && prefix in st.sources && st.sources[prefix].Discovered?)
  {
    hide Lower;
    if prefix in st.sources && st.sources[prefix].Discovered? {
      WithoutRemoves(st.index, KeysBelow(st.index, prefix));
      assert KeysBelow(st.index, prefix) == set k | k in st.index.entries && Lower(prefix) + ":" <= k;
    }
  }

  // A completion with the stored handle makes the source discovered, withdraws what was below its prefix
  // and registers what was found as a batch; any other completion changes nothing.
  lemma CompleteMeans(st: State, prefix: string, handle: Handle, found: seq<RouteEntry>)
    ensures var next := Apply(st, CompleteOp(prefix, handle, found));
            if prefix in st.sources && st.sources[prefix].handle == handle then
              exists cleared: State ::
                && cleared.sources == st.sources[prefix := Discovered(handle)]
                && Removed(st.index, cleared.index, set k | k in st.index.entries && Lower(prefix) + ":" <= k)
                && next == Apply(cleared, RegisterAllOp(found))
            else next == st
  {
    hide Lower, RegisterSeq;
    if Current(st, prefix, handle) {
      var cleared := State(Cleared(st, prefix), st.sources[prefix := Discovered(handle)]);
      WithoutRemoves(st.index, KeysBelow(st.index, prefix));
      assert KeysBelow(st.index, prefix) == set k | k in st.index.entries && Lower(prefix) + ":" <= k;
      assert Apply(st, CompleteOp(prefix, handle, found)) == Apply(cleared, RegisterAllOp(found));
    }
  }

  // Clearing forgets a source that is started with this handle, and nothing else; the source is then to
  // be discovered again.
  lemma ClearMeans(st: State, prefix: string, handle: Handle)
    ensures var next := Apply(st, ClearOp(prefix, handle));
            && next.index == st.index
            && (forall p :: p in next.sources <==>
                  p in st.sources && !(p == prefix && st.sources[p] == Started(handle)))
            && (forall p | p in next.sources :: next.sources[p] == st.sources[p])
  {}

  // A projection reports whether a source was dropped, and asks for exactly the sources, among those given
  // and in that order, that are new or have another handle.
  lemma ProjectMeans(st: State, connected: seq<(string, Handle)>, front: seq<(string, Handle)>, c: (string, Handle),
                     back: seq<(string, Handle)>)
    requires connected == front + [c] + back
    ensures ProjectResult(st, connected).removedAny <==>
            exists p :: p in st.sources && p !in Apply(st, ProjectOp(connected)).sources
    ensures var left := Apply(st, ProjectOp(connected)).sources;
            ProjectResult(st, connected).toDiscover ==
            ToDiscover(left, front)
            + (if c.0 in left && left[c.0].handle == c.1 then [] else [c])
            + ToDiscover(left, back)
  {
    hide ToDiscover, Without, KeysBelowAny, NeedsDiscovery;
    var gone := Gone(st.sources, connected);
    var left := st.sources - gone;
    assert Apply(st, ProjectOp(connected)).sources == left;
    if p :| p in gone { assert p in st.sources && p !in left; }
    ToDiscoverAppend(left, front + [c], back);
    ToDiscoverAppend(left, front, [c]);
    ToDiscoverOne(left, c);
  }

  lemma ToDiscoverOne(sources: map<string, Discovery>, c: (string, Handle))
    ensures ToDiscover(sources, [c]) == if c.0 in sources && sources[c.0].handle == c.1 then [] else [c]
  {
    assert [c][1..] == [];
  }

  lemma {:induction false} ToDiscoverAppend(sources: map<string, Discovery>, a: seq<(string, Handle)>,
                                           b: seq<(string, Handle)>)
    ensures ToDiscover(sources, a + b) == ToDiscover(sources, a) + ToDiscover(sources, b)
  {
    if a == [] {
      assert a + b == b;
    } else {
      assert (a + b)[1..] == a[1..] + b;
      ToDiscoverAppend(sources, a[1..], b);
    }
  }

  // ---- batches ----

  // Registering a batch is registering its entries one after the other, and its errors are theirs in that
  // order; so is unregistering and then registering in a reconciliation.
  lemma BatchInOrder(st: State, e: RouteEntry, es: seq<RouteEntry>)
    ensures Apply(st, RegisterAllOp([])) == st && RegisterSeq(st.index, []).1 == []
    ensures var next := Apply(st, RegisterOp(e));
            var error := RegistryIndex.Register(st.index, e).1;
            && Apply(st, RegisterAllOp([e] + es)) == Apply(next, RegisterAllOp(es))
            && RegisterSeq(st.index, [e] + es).1 ==
               (if error.Some? then [error.value] else []) + RegisterSeq(next.index, es).1
  {
    hide RegistryIndex.Register;
    assert ([e] + es)[0] == e && ([e] + es)[1..] == es;
  }

  lemma ReconcileInOrder(st: State, name: string, stale: seq<string>, es: seq<RouteEntry>)
    ensures Apply(st, ReconcileOp([], es)) == Apply(st, RegisterAllOp(es))
    ensures Apply(st, ReconcileOp([name] + stale, es)) == Apply(Apply(st, UnregisterOp(name)), ReconcileOp(stale, es))
  {
    hide RegisterSeq, Without, Lower;
    assert ([name] + stale)[0] == name && ([name] + stale)[1..] == stale;
  }

  // ---- the counts ----

  lemma CountRemoved(before: map<string, RouteEntry>, after: map<string, RouteEntry>, gone: set<string>)
    requires gone <= before.Keys && after.Keys == before.Keys - gone
    ensures |gone| == |before| - |after|
  {
    assert |before.Keys| == |before| && |after.Keys| == |after|;
  }

  lemma {:induction false} UnregisterCounts(idx: Index, names: seq<string>)
    ensures UnregisterSeq(idx, names).1 == |idx.entries| - |UnregisterSeq(idx, names).0.entries|
    decreases |names|
  {
    hide Lower;
    if names != [] {
      var key := Lower(names[0]);
      var next := Without(idx, {key});
      UnregisterCounts(next, names[1..]);
      if key in idx.entries {
        CountRemoved(idx.entries, next.entries, {key});
      } else {
        assert next.entries == idx.entries;
      }
    }
  }

  // Reconciling reports how many entries it removed and how many it added; completing how many it added
  // to those that were not below its prefix.
  lemma ReconcileCounts(st: State, stale: seq<string>, incoming: seq<RouteEntry>)
    requires Inv(st.index)
    ensures var cleaned := Apply(st, ReconcileOp(stale, []));
            && UnregisterSeq(st.index, stale).1 == |st.index.entries| - |cleaned.index.entries|
            && Added(UnregisterSeq(st.index, stale).0, incoming) ==
               |Apply(st, ReconcileOp(stale, incoming)).index.entries| - |cleaned.index.entries|
  {
    hide Inv, RegisterSeq;
    UnregisterCounts(st.index, stale);
    UnregisterSeqKeeps(st.index, stale);
    NothingRegistered(UnregisterSeq(st.index, stale).0);
    BatchCounts(UnregisterSeq(st.index, stale).0, incoming);
  }

  lemma NothingRegistered(idx: Index)
    ensures RegisterSeq(idx, []).0 == idx
  {}

  lemma CompleteCounts(st: State, prefix: string, handle: Handle, found: seq<RouteEntry>)
    requires Inv(st.index) && prefix in st.sources && st.sources[prefix].handle == handle
    ensures var kept := set k | k in st.index.entries && !(Lower(prefix) + ":" <= k);
            CompletedCount(st, prefix, handle, found) ==
            |Apply(st, CompleteOp(prefix, handle, found)).index.entries| - |kept|
  {
    hide Inv, RegisterSeq, Lower;
    var kept := set k | k in st.index.entries && !(Lower(prefix) + ":" <= k);
    WithoutKeeps(st.index, KeysBelow(st.index, prefix));
    BatchCounts(Cleared(st, prefix), found);
    assert Cleared(st, prefix).entries.Keys == kept;
    assert |Cleared(st, prefix).entries| == |kept|;
  }

  // ---- the callback ----

  // When the callback is called, exactly: on registering, unregistering and starting if and only if the
  // index changes; on reconciling if and only if one of its two halves changes it; on a projection if and
  // only if a source is dropped, even one without entries; on a completion if and only if it is current
  // and something was or is below its prefix or was added; on clearing never.
  lemma FiresExactly(st: State, op: Op)
    requires Inv(st.index)
    ensures var next := Apply(st, op);
            Fires(st, op) <==>
            match op
            case ReconcileOp(stale, es) =>
              var cleaned := Apply(st, ReconcileOp(stale, []));
              cleaned.index != st.index || next.index != cleaned.index
            case ProjectOp(_) => exists p :: p in st.sources && p !in next.sources
            case CompleteOp(prefix, handle, es) =>
              && prefix in st.sources && st.sources[prefix].handle == handle
              && ((exists k :: k in st.index.entries && Lower(prefix) + ":" <= k) || next.index != st.index)
            case _ => next.index != st.index
  {
    hide Inv, Lower, RegisterSeq, RegistryIndex.Register;
    match op
    case RegisterOp(e) => OneFires(st.index, e);
    case RegisterAllOp(es) => BatchFires(st.index, es);
    case UnregisterOp(fullname) => RemovalShows(st.index, {Lower(fullname)});
    case UnregisterNamespaceOp(domain, namespace) =>
      RemovalShows(st.index, KeysBelow(st.index, NamespacePrefix(domain, namespace)));
    case ReconcileOp(stale, es) => ReconcileFires(st, stale, es);
    case ProjectOp(connected) =>
      assert Fires(st, op) <==> Gone(st.sources, connected) != {};
    case StartOp(prefix, handle) => RemovalShows(st.index, KeysBelow(st.index, prefix));
    case CompleteOp(prefix, handle, es) => CompleteFires(st, prefix, handle, es);
    case ClearOp(prefix, handle) =>
  }

  lemma RemovalShows(idx: Index, keys: set<string>)
    requires Inv(idx)
    ensures Without(idx, keys) != idx <==> exists k :: k in keys && k in idx.entries
  {
    hide Inv;
    if keys !! idx.entries.Keys { WithoutNothing(idx, keys); }
    if k :| k in keys && k in idx.entries { assert k !in Without(idx, keys).entries; }
  }

  lemma OneFires(idx: Index, e: RouteEntry)
    requires Inv(idx)
    ensures RegistryIndex.Register(idx, e).1.None? <==> RegistryIndex.Register(idx, e).0 != idx
  {
    hide Prepare, Lower, NamesOf, RegistryIndex.Register;
    RegisterDecides(idx, e);
    if RegistryIndex.Register(idx, e).1.None? {
      assert Lower(e.fullname) in RegistryIndex.Register(idx, e).0.entries;
    }
  }

  lemma BatchFires(idx: Index, es: seq<RouteEntry>)
    requires Inv(idx)
    ensures Added(idx, es) > 0 <==> RegisterSeq(idx, es).0 != idx
  {
    hide RegisterSeq, Inv;
    BatchCounts(idx, es);
    if Added(idx, es) == 0 { NothingAdded(idx, es); }
  }

  lemma ReconcileFires(st: State, stale: seq<string>, es: seq<RouteEntry>)
    requires Inv(st.index)
    ensures var cleaned := Apply(st, ReconcileOp(stale, []));
            Fires(st, ReconcileOp(stale, es)) <==>
            cleaned.index != st.index || Apply(st, ReconcileOp(stale, es)).index != cleaned.index
  {
    hide Inv, RegisterSeq;
    var mid := UnregisterSeq(st.index, stale).0;
    UnregisterSeqKeeps(st.index, stale);
    UnregisterCounts(st.index, stale);
    NothingRegistered(mid);
    BatchFires(mid, es);
    if UnregisterSeq(st.index, stale).1 == 0 { NothingRemoved(st.index, stale); }
  }

  lemma CompleteFires(st: State, prefix: string, handle: Handle, es: seq<RouteEntry>)
    requires Inv(st.index)
    ensures var next := Apply(st, CompleteOp(prefix, handle, es));
            Fires(st, CompleteOp(prefix, handle, es)) <==>
            && prefix in st.sources && st.sources[prefix].handle == handle
            && ((exists k :: k in st.index.entries && Lower(prefix) + ":" <= k) || next.index != st.index)
  {
    hide Inv, RegisterSeq, Lower;
    if Current(st, prefix, handle) {
      var below := KeysBelow(st.index, prefix);
      if k :| k in below { assert k in st.index.entries && Lower(prefix) + ":" <= k; }
      if k :| k in st.index.entries && Lower(prefix) + ":" <= k { assert k in below; }
      WithoutKeeps(st.index, below);
      BatchFires(Cleared(st, prefix), es);
      if below == {} { WithoutNothing(st.index, below); }
    }
  }
}
