// The registry with its source lifecycle: one step per public operation, and whole runs of them.
module RegistryState {
  import opened Wrappers
  import opened CommandName
  import opened RegistryIndex

  // The identity of a connection: equal exactly when it is the same allocation.
  type Handle = nat

  datatype Discovery = Started(handle: Handle) | Discovered(handle: Handle)

  datatype State = State(index: Index, sources: map<string, Discovery>)

  const INITIAL := State(EMPTY, map[])

  datatype Projection = Projection(toDiscover: seq<(string, Handle)>, removedAny: bool)

  datatype Op =
    | RegisterOp(entry: RouteEntry)
    | RegisterAllOp(batch: seq<RouteEntry>)
    | UnregisterOp(fullname: string)
    | UnregisterNamespaceOp(domain: string, namespace: string)
    | ReconcileOp(stale: seq<string>, incoming: seq<RouteEntry>)
    | ProjectOp(connected: seq<(string, Handle)>)
    | StartOp(prefix: string, handle: Handle)
    | CompleteOp(prefix: string, handle: Handle, found: seq<RouteEntry>)
    | ClearOp(prefix: string, handle: Handle)

  // ---- results of the operations ----

  function NamespacePrefix(domain: string, namespace: string): string {
    if namespace == "" then Lower(domain) else Lower(domain) + ":" + Lower(namespace)
  }

  function Added(idx: Index, es: seq<RouteEntry>): nat {
    var n := |es| - |RegisterSeq(idx, es).1|;
    if n >= 0 then n else 0
  }

  // Sources that are no longer connected.
  function Gone(sources: map<string, Discovery>, connected: seq<(string, Handle)>): set<string> {
    set k | k in sources && forall c | c in connected :: c.0 != k
  }

  predicate NeedsDiscovery(sources: map<string, Discovery>, c: (string, Handle)) {
    c.0 !in sources || sources[c.0].handle != c.1
  }

  function ToDiscover(sources: map<string, Discovery>, connected: seq<(string, Handle)>): seq<(string, Handle)> {
    if connected == [] then []
    else (if NeedsDiscovery(sources, connected[0]) then [connected[0]] else []) + ToDiscover(sources, connected[1..])
  }

  function ProjectResult(st: State, connected: seq<(string, Handle)>): Projection {
    var gone := Gone(st.sources, connected);
    Projection(ToDiscover(st.sources - gone, connected), gone != {})
  }

  // A completion is current when it carries the handle stored for its source.
  predicate Current(st: State, prefix: string, handle: Handle) {
    prefix in st.sources && st.sources[prefix].handle == handle
  }

  // The index after the old entries of a completed source are cleared.
  function Cleared(st: State, prefix: string): Index {
    Without(st.index, KeysBelow(st.index, prefix))
  }

  function CompletedCount(st: State, prefix: string, handle: Handle, es: seq<RouteEntry>): nat {
    if Current(st, prefix, handle) then Added(Cleared(st, prefix), es) else 0
  }

  // ---- one step ----

  function Apply(st: State, op: Op): State {
    match op
    case RegisterOp(e) => st.(index := Register(st.index, e).0)
    case RegisterAllOp(es) => st.(index := RegisterSeq(st.index, es).0)
    case UnregisterOp(fullname) => st.(index := Without(st.index, {Lower(fullname)}))
    case UnregisterNamespaceOp(domain, namespace) =>
      st.(index := Cleared(st, NamespacePrefix(domain, namespace)))
    case ReconcileOp(stale, es) => st.(index := RegisterSeq(UnregisterSeq(st.index, stale).0, es).0)
    case ProjectOp(connected) =>
      var gone := Gone(st.sources, connected);
      State(Without(st.index, KeysBelowAny(st.index, gone)), st.sources - gone)
    case StartOp(prefix, handle) =>
      var index := if prefix in st.sources && st.sources[prefix].Discovered? then Cleared(st, prefix) else st.index;
      State(index, st.sources[prefix := Started(handle)])
    case CompleteOp(prefix, handle, es) =>
      if !Current(st, prefix, handle) then st
      else State(RegisterSeq(Cleared(st, prefix), es).0, st.sources[prefix := Discovered(handle)])
    case ClearOp(prefix, handle) =>
      if prefix in st.sources && st.sources[prefix] == Started(handle) then st.(sources := st.sources - {prefix})
      else st
  }

  // Whether the step reports a change to the callback.
  function Fires(st: State, op: Op): bool {
    match op
    case RegisterOp(e) => Register(st.index, e).1.None?
    case RegisterAllOp(es) => Added(st.index, es) > 0
    case UnregisterOp(fullname) => Lower(fullname) in st.index.entries
    case UnregisterNamespaceOp(domain, namespace) => KeysBelow(st.index, NamespacePrefix(domain, namespace)) != {}
    case ReconcileOp(stale, es) =>
      UnregisterSeq(st.index, stale).1 + Added(UnregisterSeq(st.index, stale).0, es) > 0
    case ProjectOp(connected) => Gone(st.sources, connected) != {}
    case StartOp(prefix, handle) =>
      prefix in st.sources && st.sources[prefix].Discovered? && KeysBelow(st.index, prefix) != {}
    case CompleteOp(prefix, handle, es) =>
      && Current(st, prefix, handle)
      && |KeysBelow(st.index, prefix)| + Added(Cleared(st, prefix), es) > 0
    case ClearOp(prefix, handle) => false
  }

  function Run(st: State, ops: seq<Op>): State
    decreases |ops|
  {
    if ops == [] then st else Run(Apply(st, ops[0]), ops[1..])
  }

  // ---- the index invariant over all runs ----

  lemma ApplyKeepsInv(st: State, op: Op)
    requires Inv(st.index)
    ensures Inv(Apply(st, op).index)
  {
    hide Inv, Register, RegisterSeq, UnregisterSeq, Without;
    match op
    case RegisterOp(e) => RegisterKeeps(st.index, e);
    case RegisterAllOp(es) => RegisterSeqKeeps(st.index, es);
    case UnregisterOp(fullname) => WithoutKeeps(st.index, {Lower(fullname)});
    case UnregisterNamespaceOp(domain, namespace) =>
      WithoutKeeps(st.index, KeysBelow(st.index, NamespacePrefix(domain, namespace)));
    case ReconcileOp(stale, es) =>
      UnregisterSeqKeeps(st.index, stale);
      RegisterSeqKeeps(UnregisterSeq(st.index, stale).0, es);
    case ProjectOp(connected) => WithoutKeeps(st.index, KeysBelowAny(st.index, Gone(st.sources, connected)));
    case StartOp(prefix, handle) => WithoutKeeps(st.index, KeysBelow(st.index, prefix));
    case CompleteOp(prefix, handle, es) =>
      WithoutKeeps(st.index, KeysBelow(st.index, prefix));
      RegisterSeqKeeps(Cleared(st, prefix), es);
    case ClearOp(prefix, handle) =>
  }

  lemma {:induction false} RunKeepsInv(st: State, ops: seq<Op>)
    requires Inv(st.index)
    ensures Inv(Run(st, ops).index)
    decreases |ops|
  {
    hide Inv, Apply;
    if ops != [] {
      ApplyKeepsInv(st, ops[0]);
      RunKeepsInv(Apply(st, ops[0]), ops[1..]);
    }
  }

  // On every reachable state the alias index is exactly what the entries claim.
  lemma ReachableInv(ops: seq<Op>)
    ensures Inv(Run(INITIAL, ops).index)
  {
    EmptyInv();
    RunKeepsInv(INITIAL, ops);
  }

  // A step reports a change whenever it changed the index.
  lemma SilentStepsKeepEntries(st: State, op: Op)
    requires Inv(st.index) && !Fires(st, op)
    ensures Apply(st, op).index == st.index
  {
    match op
    case RegisterOp(e) =>
    case RegisterAllOp(es) => NothingAdded(st.index, es);
    case UnregisterOp(fullname) => WithoutNothing(st.index, {Lower(fullname)});
    case UnregisterNamespaceOp(domain, namespace) => WithoutNothing(st.index, {});
    case ReconcileOp(stale, es) =>
      NothingRemoved(st.index, stale);
      NothingAdded(UnregisterSeq(st.index, stale).0, es);
    case ProjectOp(connected) =>
      assert KeysBelowAny(st.index, {}) == {};
      WithoutNothing(st.index, {});
    case StartOp(prefix, handle) => WithoutNothing(st.index, {});
    case CompleteOp(prefix, handle, es) =>
      if Current(st, prefix, handle) {
        WithoutNothing(st.index, KeysBelow(st.index, prefix));
        NothingAdded(Cleared(st, prefix), es);
      }
    case ClearOp(prefix, handle) =>
  }

  lemma WithoutNothing(idx: Index, keys: set<string>)
    requires Inv(idx) && keys !! idx.entries.Keys
    ensures Without(idx, keys) == idx
  {
    hide KeyedBy, NamesOf;
    forall n | n in idx.aliasIndex ensures idx.aliasIndex[n] !in keys {
      assert Points(idx, n, idx.aliasIndex[n]);
      assert Claims(idx, n, idx.aliasIndex[n]);
    }
    assert Without(idx, keys).aliasIndex == idx.aliasIndex;
    assert Without(idx, keys).entries == idx.entries;
  }

  lemma {:induction false} NothingAdded(idx: Index, es: seq<RouteEntry>)
    requires |RegisterSeq(idx, es).1| >= |es|
    ensures RegisterSeq(idx, es).0 == idx
    ensures |RegisterSeq(idx, es).1| == |es|
    decreases |es|
  {
    hide Register;
    if es != [] {
      var (next, error) := Register(idx, es[0]);
      ErrorsBounded(next, es[1..]);
      RegisterPure(idx, es[0]);
      NothingAdded(next, es[1..]);
    }
  }

  lemma RegisterPure(idx: Index, e: RouteEntry)
    ensures Register(idx, e).1.Some? ==> Register(idx, e).0 == idx
  {}

  lemma {:induction false} ErrorsBounded(idx: Index, es: seq<RouteEntry>)
    ensures |RegisterSeq(idx, es).1| <= |es|
    decreases |es|
  {
    hide Register;
    if es != [] { ErrorsBounded(Register(idx, es[0]).0, es[1..]); }
  }

  lemma {:induction false} NothingRemoved(idx: Index, names: seq<string>)
    requires Inv(idx) && UnregisterSeq(idx, names).1 == 0
    ensures UnregisterSeq(idx, names).0 == idx
    decreases |names|
  {
    if names != [] {
      WithoutNothing(idx, {Lower(names[0])});
      NothingRemoved(idx, names[1..]);
    }
  }

  // ---- batches ----

  // A batch grows the registry by exactly the entries it did not refuse.
  lemma {:induction false} BatchCounts(idx: Index, es: seq<RouteEntry>)
    ensures var (last, errors) := RegisterSeq(idx, es);
            |last.entries| == |idx.entries| + |es| - |errors| && |errors| <= |es|
    ensures Added(idx, es) + |RegisterSeq(idx, es).1| == |es|
    decreases |es|
  {
    hide Prepare, FindConflict;
    if es != [] { BatchCounts(Register(idx, es[0]).0, es[1..]); }
    if es != [] && Register(idx, es[0]).1.None? {
      var p := Prepare(es[0]).value;
      ConflictSeesKey(idx, p);
      assert Register(idx, es[0]).0.entries == idx.entries[p.key := es[0]];
    }
  }

  lemma ConflictSeesKey(idx: Index, p: Prepared)
    ensures FindConflict(p, idx).None? ==> p.key !in idx.entries
  {}

  // A batch only adds: what was registered stays, and everything new comes from the batch.
  lemma {:induction false} BatchAdds(idx: Index, es: seq<RouteEntry>)
    ensures var last := RegisterSeq(idx, es).0;
            && (forall k | k in idx.entries :: k in last.entries && last.entries[k] == idx.entries[k])
            && (forall k | k in last.entries && k !in idx.entries ::
                  last.entries[k] in es && KeyedBy(last.entries[k], k))
    decreases |es|
  {
    hide FindConflict, KeyedBy;
    if es != [] {
      var next := Register(idx, es[0]).0;
      StepAdds(idx, es[0]);
      BatchAdds(next, es[1..]);
    }
  }

  lemma StepAdds(idx: Index, e: RouteEntry)
    ensures var next := Register(idx, e).0;
            && (forall k | k in idx.entries :: k in next.entries && next.entries[k] == idx.entries[k])
            && (forall k | k in next.entries && k !in idx.entries :: next.entries[k] == e && KeyedBy(e, k))
  {
    hide Prepare;
    if Prepare(e).Ok? { ConflictSeesKey(idx, Prepare(e).value); }
  }
}
