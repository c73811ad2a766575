// Safety of the source lifecycle over whole runs.
module RegistryLifecycle {
  import opened Wrappers
  import opened CommandName
  import opened RegistryIndex
  import opened RegistryState

  // ---- entries below a source exist only while the source is discovered ----

  predicate BelowNone(e: RouteEntry, ps: set<string>) { forall p | p in ps :: !Below(Lower(e.fullname), p) }

  // The discipline of the callers: an entry below a source is added only by completing that source.
  ghost predicate Disciplined(op: Op, ps: set<string>) {
    match op
    case RegisterOp(e) => BelowNone(e, ps)
    case RegisterAllOp(es) => forall e | e in es :: BelowNone(e, ps)
    case ReconcileOp(stale, es) => forall e | e in es :: BelowNone(e, ps)
    case CompleteOp(prefix, _, es) => forall e | e in es :: BelowNone(e, ps - {prefix})
    case _ => true
  }

  ghost predicate Alive(st: State, ps: set<string>) {
    forall k, p | k in st.index.entries && p in ps && Below(k, p) :: p in st.sources && st.sources[p].Discovered?
  }

  // Adding a batch of entries that lie below no source, or below one discovered source.
  lemma BatchAlive(st: State, es: seq<RouteEntry>, ps: set<string>)
    requires Alive(st, ps)
    requires forall e, p | e in es && p in ps && Below(Lower(e.fullname), p) ::
               p in st.sources && st.sources[p].Discovered?
    ensures Alive(st.(index := RegisterSeq(st.index, es).0), ps)
  {
    hide Lower, Below, RegisterSeq, Prepare;
    BatchAdds(st.index, es);
    var next := RegisterSeq(st.index, es).0;
    forall k, p | k in next.entries && p in ps && Below(k, p)
      ensures p in st.sources && st.sources[p].Discovered?
    {
      if k !in st.index.entries {
        var e := next.entries[k];
        assert e in es && KeyedBy(e, k);
        PreparedShape(e);
      }
    }
  }

  lemma WithoutAlive(st: State, keys: set<string>, ps: set<string>)
    requires Alive(st, ps)
    ensures Alive(st.(index := Without(st.index, keys)), ps)
  {
    hide Below;
  }

  lemma {:induction false} UnregisterAlive(st: State, names: seq<string>, ps: set<string>)
    requires Alive(st, ps)
    ensures Alive(st.(index := UnregisterSeq(st.index, names).0), ps)
    decreases |names|
  {
    hide Alive, Without;
    if names != [] {
      var mid := st.(index := Without(st.index, {Lower(names[0])}));
      WithoutAlive(st, {Lower(names[0])}, ps);
      UnregisterAlive(mid, names[1..], ps);
    }
  }

  lemma RegisterIsBatch(idx: Index, e: RouteEntry)
    ensures RegisterSeq(idx, [e]).0 == Register(idx, e).0
  {
    assert RegisterSeq(Register(idx, e).0, [e][1..]).0 == Register(idx, e).0;
  }

  lemma ApplyAlive(st: State, op: Op, ps: set<string>)
    requires Alive(st, ps) && Disciplined(op, ps)
    ensures Alive(Apply(st, op), ps)
  {
    hide Register, RegisterSeq, UnregisterSeq, Below;
    match op
    case RegisterOp(e) =>
      BatchAlive(st, [e], ps);
      RegisterIsBatch(st.index, e);
    case RegisterAllOp(es) => BatchAlive(st, es, ps);
    case UnregisterOp(fullname) => WithoutAlive(st, {Lower(fullname)}, ps);
    case UnregisterNamespaceOp(domain, namespace) =>
      WithoutAlive(st, KeysBelow(st.index, NamespacePrefix(domain, namespace)), ps);
    case ReconcileOp(stale, es) =>
      UnregisterAlive(st, stale, ps);
      BatchAlive(st.(index := UnregisterSeq(st.index, stale).0), es, ps);
    case ProjectOp(connected) => ProjectAlive(st, connected, ps);
    case StartOp(prefix, handle) => StartAlive(st, prefix, handle, ps);
    case CompleteOp(prefix, handle, es) =>
      if Current(st, prefix, handle) {
        var mid := State(Cleared(st, prefix), st.sources[prefix := Discovered(handle)]);
        WithoutAlive(st, KeysBelow(st.index, prefix), ps);
        BatchAlive(mid, es, ps);
      }
    case ClearOp(prefix, handle) => ClearAlive(st, prefix, handle, ps);
  }

  lemma ProjectAlive(st: State, connected: seq<(string, Handle)>, ps: set<string>)
    requires Alive(st, ps)
    ensures Alive(Apply(st, ProjectOp(connected)), ps)
  {
    hide Below;
  }

  lemma StartAlive(st: State, prefix: string, handle: Handle, ps: set<string>)
    requires Alive(st, ps)
    ensures Alive(Apply(st, StartOp(prefix, handle)), ps)
  {
    hide Below;
  }

  lemma ClearAlive(st: State, prefix: string, handle: Handle, ps: set<string>)
    requires Alive(st, ps)
    ensures Alive(Apply(st, ClearOp(prefix, handle)), ps)
  {
    hide Below;
  }

  lemma {:induction false} RunAlive(st: State, ops: seq<Op>, ps: set<string>)
    requires Alive(st, ps)
    requires forall i | 0 <= i < |ops| :: Disciplined(ops[i], ps)
    ensures Alive(Run(st, ops), ps)
    decreases |ops|
  {
    hide Alive, Apply, Disciplined;
    if ops != [] {
      ApplyAlive(st, ops[0], ps);
      RunAlive(Apply(st, ops[0]), ops[1..], ps);
    }
  }

  // In every disciplined run from the start, an entry below a source prefix exists only while that
  // source is discovered: none survives a disconnect, a restart or a cancelled discovery.
  lemma LifecycleSafe(ops: seq<Op>, ps: set<string>, k: string, p: string)
    requires forall i | 0 <= i < |ops| :: Disciplined(ops[i], ps)
    requires k in Run(INITIAL, ops).index.entries && p in ps && Below(k, p)
    ensures var st := Run(INITIAL, ops); p in st.sources && st.sources[p].Discovered?
  {
    hide Below, Apply;
    RunAlive(INITIAL, ops, ps);
  }

  // ---- late completions ----

  ghost predicate Forgotten(st: State, prefix: string, handle: Handle) { !Current(st, prefix, handle) }

  // A handle that is not the stored one stays out, whatever happens, until it is started again.
  lemma {:induction false} ForgottenStays(st: State, ops: seq<Op>, prefix: string, handle: Handle)
    requires Forgotten(st, prefix, handle)
    requires forall i | 0 <= i < |ops| :: ops[i] != StartOp(prefix, handle)
    ensures Forgotten(Run(st, ops), prefix, handle)
    decreases |ops|
  {
    if ops != [] {
      ForgottenStep(st, ops[0], prefix, handle);
      ForgottenStays(Apply(st, ops[0]), ops[1..], prefix, handle);
    }
  }

  lemma ForgottenStep(st: State, op: Op, prefix: string, handle: Handle)
    requires Forgotten(st, prefix, handle) && op != StartOp(prefix, handle)
    ensures Forgotten(Apply(st, op), prefix, handle)
  {
    hide Register, RegisterSeq, UnregisterSeq, Without, KeysBelow, KeysBelowAny;
  }

  // A discovery that was overtaken by a reconnect can write back at any later time without effect:
  // no entry, no source and no callback is touched.
  lemma LateCompletionHarmless(st: State, prefix: string, stale: Handle, current: Handle, ops: seq<Op>,
                               found: seq<RouteEntry>)
    requires stale != current
    requires forall i | 0 <= i < |ops| :: ops[i] != StartOp(prefix, stale)
    ensures var later := Run(Apply(st, StartOp(prefix, current)), ops);
            && Apply(later, CompleteOp(prefix, stale, found)) == later
            && !Fires(later, CompleteOp(prefix, stale, found))
  {
    hide Register, RegisterSeq, UnregisterSeq, Without, KeysBelow, KeysBelowAny;
    ForgottenStays(Apply(st, StartOp(prefix, current)), ops, prefix, stale);
  }

  // ---- what a current completion leaves behind ----

  // Below the completed prefix only entries of this discovery remain, and everything that was
  // registered elsewhere is still there.
  lemma CompletionReplaces(st: State, prefix: string, handle: Handle, found: seq<RouteEntry>)
    requires Current(st, prefix, handle)
    ensures var next := Apply(st, CompleteOp(prefix, handle, found));
            && next.sources == st.sources[prefix := Discovered(handle)]
            && (forall k | k in next.index.entries && Below(k, prefix) :: next.index.entries[k] in found)
            && (forall k | k in st.index.entries && !Below(k, prefix) ::
                  k in next.index.entries && next.index.entries[k] == st.index.entries[k])
  {
    hide Below, RegisterSeq;
    BatchAdds(Cleared(st, prefix), found);
  }

  // ---- projection ----

  // Exactly the connected sources without a state of their own handle are to be discovered, in order.
  lemma {:induction false} ToDiscoverExactly(sources: map<string, Discovery>, connected: seq<(string, Handle)>)
    ensures forall c :: c in ToDiscover(sources, connected) <==> c in connected && NeedsDiscovery(sources, c)
  {
    if connected != [] { ToDiscoverExactly(sources, connected[1..]); }
  }

  // After a projection only connected sources are left, nothing of the others remains, and starting
  // what is to be discovered leaves nothing to discover for that source.
  lemma ProjectionSettles(st: State, connected: seq<(string, Handle)>)
    ensures var next := Apply(st, ProjectOp(connected));
            && (forall p | p in next.sources :: exists c :: c in connected && c.0 == p)
            && (forall k, p | k in next.index.entries && p in st.sources && p !in next.sources :: !Below(k, p))
            && (forall k | k in st.index.entries && k !in next.index.entries ::
                  exists p :: p in st.sources && p !in next.sources && Below(k, p))
            && (forall c | c in connected :: c in ProjectResult(st, connected).toDiscover <==>
                                            !Current(next, c.0, c.1))
  {
    hide Below;
    var gone := Gone(st.sources, connected);
    var next := Apply(st, ProjectOp(connected));
    forall p | p in next.sources ensures exists c :: c in connected && c.0 == p {
      assert p !in gone;
    }
    forall k | k in st.index.entries && k !in next.index.entries
      ensures exists p :: p in st.sources && p !in next.sources && Below(k, p)
    {
      var p :| p in gone && Below(k, p);
      assert p in st.sources && p !in next.sources;
    }
    ToDiscoverExactly(st.sources - gone, connected);
  }
}
