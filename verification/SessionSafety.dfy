// Safety of registration, stamping and destruction over every interleaving and cancellation.
module SessionSafety {
  import opened Wrappers
  import opened SessionMachine

  predicate Holding(p: Phase) {
    p.Joining? || p.Persisting? || p.Draining? || p.Stamping? || p.Removing? || p.Finishing?
  }

  predicate PastDrain(p: Phase) { p.Stamping? || p.Removing? || p.Finishing? }

  predicate HasDrained(c: Call) { Drain in c.trace }

  // Join, abort exactly on a missed deadline.
  predicate JoinTrace(t: seq<Effect>) {
    || t == [StopAccepting, CancelOwned, Joined(true)]
    || t == [StopAccepting, CancelOwned, Joined(false), Abort]
  }

  // The effects of a call up to each phase: the destruction order is fixed.
  ghost predicate TraceFits(c: Call) {
    var t := c.trace;
    match c.phase
    case Waiting => t == []
    case Joining => t == [StopAccepting, CancelOwned]
    case Persisting => JoinTrace(t)
    case Draining => exists j :: JoinTrace(j) && t == j + [Persisted(true)]
    case Stamping(_) => exists j :: JoinTrace(j) && t == j + [Persisted(true), Drain]
    case Removing(_) => exists j :: JoinTrace(j) && t == j + [Persisted(true), Drain, Stamp]
    case Finishing(_) => Drained(t)
    case Done(envelopes) => (t == [] && envelopes == []) || Drained(t)
    case Failed => exists j :: JoinTrace(j) && t == j + [Persisted(false)]
    case Cancelled => t == [] || t == [StopAccepting, CancelOwned] || JoinTrace(t)
  }

  ghost predicate Drained(t: seq<Effect>) {
    exists j :: JoinTrace(j) && (t == j + [Persisted(true), Drain, Stamp]
                                 || t == j + [Persisted(true), Drain, Stamp, Unmap])
  }

  // ---- the invariant ----

  predicate MapsLiveEntry(s: State, session: string) {
    && session in s.sessions && s.sessions[session] in s.entries
    && s.entries[s.sessions[session]].session == session
    && !s.entries[s.sessions[session]].completed
  }

  predicate CallFits(s: State, c: CallId) {
    c in s.calls && s.calls[c].entry in s.entries && s.entries[s.calls[c].entry].session == s.calls[c].session
  }

  predicate Holds(s: State, c: CallId, e: EntryId) {
    c in s.calls && s.calls[c].entry == e && Holding(s.calls[c].phase)
  }

  // The lock names the one call that is between taking and releasing it; a completed entry has none.
  predicate LockFits(s: State, e: EntryId, c: CallId) {
    e in s.entries ==>
      && (s.entries[e].lock == Some(c) <==> Holds(s, c, e))
      && (s.entries[e].completed ==> s.entries[e].lock.None?)
  }

  // A call that has drained an entry either still holds its lock or has completed it.
  predicate DrainFits(s: State, c: CallId) {
    c in s.calls && HasDrained(s.calls[c]) && s.calls[c].entry in s.entries ==>
      if s.calls[c].phase.Done? then s.entries[s.calls[c].entry].completed else PastDrain(s.calls[c].phase)
  }

  // No two calls drain the same entry.
  predicate DrainsOnce(s: State, c: CallId, d: CallId) {
    (&& c in s.calls && d in s.calls && s.calls[c].entry == s.calls[d].entry
     && HasDrained(s.calls[c]) && HasDrained(s.calls[d])) ==> c == d
  }

  // A call past its removal step no longer finds its entry in the mapping.
  predicate RemovedFits(s: State, c: CallId) {
    c in s.calls && (s.calls[c].phase.Finishing? || (s.calls[c].phase.Done? && HasDrained(s.calls[c]))) ==>
      !(s.calls[c].session in s.sessions && s.sessions[s.calls[c].session] == s.calls[c].entry)
  }

  ghost predicate Inv(s: State) {
    && (forall x | x in s.sessions :: MapsLiveEntry(s, x))
    && (forall c | c in s.calls :: CallFits(s, c) && TraceFits(s.calls[c]))
    && (forall e, c :: LockFits(s, e, c))
    && (forall c :: DrainFits(s, c))
    && (forall c, d :: DrainsOnce(s, c, d))
    && (forall c :: RemovedFits(s, c))
  }

  lemma InitialInv()
    ensures Inv(INITIAL)
  {}

  // ---- every action keeps it ----

  // Adding an entry under an unused identity, mapped or not, disturbs nothing.
  lemma AddEntryKeeps(s: State, t: State, session: string, e: EntryId)
    requires Inv(s) && e !in s.entries && t.calls == s.calls
    requires t.sessions == s.sessions[session := e]
    requires t.entries.Keys == s.entries.Keys + {e}
    requires forall f | f in s.entries :: t.entries[f] == s.entries[f]
    requires t.entries[e].session == session && !t.entries[e].completed && t.entries[e].lock.None?
    ensures Inv(t)
  {
    hide TraceFits, HasDrained;
    forall x | x in t.sessions ensures MapsLiveEntry(t, x) {
      if x != session { assert MapsLiveEntry(s, x); }
    }
    forall c | c in t.calls ensures CallFits(t, c) && TraceFits(t.calls[c]) { assert CallFits(s, c); }
    forall f, c ensures LockFits(t, f, c) {
      assert LockFits(s, f, c);
      assert c in s.calls ==> CallFits(s, c);
    }
    forall c ensures DrainFits(t, c) && RemovedFits(t, c) {
      assert DrainFits(s, c) && RemovedFits(s, c);
      assert c in s.calls ==> CallFits(s, c);
    }
    forall c, d ensures DrainsOnce(t, c, d) { assert DrainsOnce(s, c, d); }
  }

  // The acting call changes phase and trace; its entry may change its flag and lock; the mapping may
  // lose this entry. Everything else stays.
  ghost predicate Acted(s: State, t: State, c: CallId) {
    && Known(s, c) && t.calls.Keys == s.calls.Keys && t.entries.Keys == s.entries.Keys
    && (forall d | d in s.calls && d != c :: t.calls[d] == s.calls[d])
    && t.calls[c].entry == s.calls[c].entry && t.calls[c].session == s.calls[c].session
    && (forall f | f in s.entries && f != s.calls[c].entry :: t.entries[f] == s.entries[f])
    && t.entries[s.calls[c].entry].session == s.entries[s.calls[c].entry].session
    && (forall x | x in t.sessions :: x in s.sessions && t.sessions[x] == s.sessions[x])
  }

  // What the action has to establish about its own call and entry.
  ghost predicate ActsWell(s: State, t: State, c: CallId)
    requires Acted(s, t, c)
  {
    var e := s.calls[c].entry;
    && TraceFits(t.calls[c])
    && (t.entries[e].lock == Some(c) <==> Holding(t.calls[c].phase))
    && (forall d | d != c :: t.entries[e].lock == Some(d) <==> s.entries[e].lock == Some(d))
    && (t.entries[e].completed ==> t.entries[e].lock.None?)
    && (s.entries[e].completed ==> t.entries[e].completed)
    && (t.entries[e].completed ==> s.entries[e].completed || forall x | x in t.sessions :: t.sessions[x] != e)
    && (HasDrained(t.calls[c]) ==>
          HasDrained(s.calls[c]) || forall d | d in s.calls && s.calls[d].entry == e :: !HasDrained(s.calls[d]))
    && DrainFits(t, c)
    && RemovedFits(t, c)
  }

  lemma ActingKeeps(s: State, t: State, c: CallId)
    requires Inv(s) && Acted(s, t, c) && ActsWell(s, t, c)
    ensures Inv(t)
  {
    hide TraceFits, HasDrained;
    var e := s.calls[c].entry;
    forall x | x in t.sessions ensures MapsLiveEntry(t, x) { assert MapsLiveEntry(s, x); }
    forall d | d in t.calls ensures CallFits(t, d) && TraceFits(t.calls[d]) { assert CallFits(s, d); }
    forall f, d ensures LockFits(t, f, d) { assert LockFits(s, f, d); }
    forall d ensures DrainFits(t, d) && RemovedFits(t, d) { assert DrainFits(s, d) && RemovedFits(s, d); }
    forall d, g ensures DrainsOnce(t, d, g) { assert DrainsOnce(s, d, g); }
  }

  // The holder of the lock is the only call that can have drained the entry.
  lemma HolderAlone(s: State, c: CallId, d: CallId)
    requires Inv(s) && Known(s, c) && Holding(s.calls[c].phase)
    requires d in s.calls && s.calls[d].entry == s.calls[c].entry && HasDrained(s.calls[d])
    ensures d == c
  {
    hide TraceFits, HasDrained;
    var e := s.calls[c].entry;
    assert LockFits(s, e, c) && LockFits(s, e, d) && DrainFits(s, d);
    assert Holds(s, c, e);
  }

  lemma KeepsRegister(s: State, session: string, handle: nat, e: EntryId, k: ClockId)
    requires Inv(s)
    ensures Inv(ApplyRegister(s, session, handle, e, k))
  {
    hide Inv;
    if session !in s.sessions && FreshIds(s, e, k) {
      AddEntryKeeps(s, ApplyRegister(s, session, handle, e, k), session, e);
    }
  }

  lemma KeepsReplace(s: State, session: string, handle: nat, e: EntryId, k: ClockId)
    requires Inv(s)
    ensures Inv(ApplyReplace(s, session, handle, e, k))
  {
    hide Inv;
    if FreshIds(s, e, k) { AddEntryKeeps(s, ApplyReplace(s, session, handle, e, k), session, e); }
  }

  lemma KeepsStamp(s: State, session: string, event: Event)
    requires Inv(s)
    ensures Inv(ApplyStamp(s, session, event))
  {
    ClocksIrrelevant(s, ApplyStamp(s, session, event));
  }

  lemma ClocksIrrelevant(s: State, t: State)
    requires Inv(s) && t == s.(clocks := t.clocks)
    ensures Inv(t)
  {
    hide TraceFits, HasDrained;
    forall x | x in t.sessions ensures MapsLiveEntry(t, x) { assert MapsLiveEntry(s, x); }
    forall d | d in t.calls ensures CallFits(t, d) && TraceFits(t.calls[d]) { assert CallFits(s, d); }
    forall f, d ensures LockFits(t, f, d) { assert LockFits(s, f, d); }
    forall d ensures DrainFits(t, d) && RemovedFits(t, d) { assert DrainFits(s, d) && RemovedFits(s, d); }
    forall d, g ensures DrainsOnce(t, d, g) { assert DrainsOnce(s, d, g); }
  }

  lemma KeepsBegin(s: State, c: CallId, session: string)
    requires Inv(s)
    ensures Inv(ApplyBegin(s, c, session))
  {
    var t := ApplyBegin(s, c, session);
    if c !in s.calls && session in s.sessions {
      assert MapsLiveEntry(s, session);
      assert t.calls[c].trace == [];
      forall x | x in t.sessions ensures MapsLiveEntry(t, x) { assert MapsLiveEntry(s, x); }
      forall d | d in t.calls ensures CallFits(t, d) && TraceFits(t.calls[d]) {
        if d != c { assert CallFits(s, d) && TraceFits(s.calls[d]); }
      }
      forall f, d ensures LockFits(t, f, d) { assert LockFits(s, f, d); }
      forall d ensures DrainFits(t, d) && RemovedFits(t, d) { assert DrainFits(s, d) && RemovedFits(s, d); }
      forall d, g ensures DrainsOnce(t, d, g) { assert DrainsOnce(s, d, g); }
    }
  }

  // The facts the invariant gives about one call.
  lemma CallFacts(s: State, c: CallId)
    requires Inv(s) && Known(s, c)
    ensures TraceFits(s.calls[c]) && CallFits(s, c)
    ensures s.entries[s.calls[c].entry].lock == Some(c) <==> Holding(s.calls[c].phase)
    ensures s.entries[s.calls[c].entry].completed ==> s.entries[s.calls[c].entry].lock.None?
    ensures DrainFits(s, c) && RemovedFits(s, c)
  {
    hide TraceFits, HasDrained;
    assert LockFits(s, s.calls[c].entry, c);
    assert CallFits(s, c);
    assert DrainFits(s, c) && RemovedFits(s, c);
  }

  lemma KeepsAcquire(s: State, c: CallId)
    requires Inv(s)
    ensures Inv(ApplyAcquire(s, c))
  {
    hide Inv;
    var t := ApplyAcquire(s, c);
    if Known(s, c) && s.calls[c].phase.Waiting? && s.entries[s.calls[c].entry].lock.None? {
      CallFacts(s, c);
      assert t.calls[c].trace == if s.entries[s.calls[c].entry].completed then [] else [StopAccepting, CancelOwned];
      ActingKeeps(s, t, c);
    }
  }

  lemma KeepsJoin(s: State, c: CallId, inTime: bool)
    requires Inv(s)
    ensures Inv(ApplyJoin(s, c, inTime))
  {
    hide Inv;
    var t := ApplyJoin(s, c, inTime);
    if Known(s, c) && s.calls[c].phase.Joining? {
      CallFacts(s, c);
      assert JoinTrace(t.calls[c].trace);
      ActingKeeps(s, t, c);
    }
  }

  lemma KeepsPersist(s: State, c: CallId, ok: bool)
    requires Inv(s)
    ensures Inv(ApplyPersist(s, c, ok))
  {
    hide Inv;
    var t := ApplyPersist(s, c, ok);
    if Known(s, c) && s.calls[c].phase.Persisting? {
      CallFacts(s, c);
      assert JoinTrace(s.calls[c].trace) && t.calls[c].trace == s.calls[c].trace + [Persisted(ok)];
      ActingKeeps(s, t, c);
    }
  }

  lemma KeepsDrain(s: State, c: CallId, events: seq<Event>)
    requires Inv(s)
    ensures Inv(ApplyDrain(s, c, events))
  {
    hide Inv;
    var t := ApplyDrain(s, c, events);
    if Known(s, c) && s.calls[c].phase.Draining? {
      CallFacts(s, c);
      var j :| JoinTrace(j) && s.calls[c].trace == j + [Persisted(true)];
      assert !HasDrained(s.calls[c]);
      assert t.calls[c].trace == j + [Persisted(true), Drain];
      forall d | d in s.calls && s.calls[d].entry == s.calls[c].entry ensures !HasDrained(s.calls[d]) {
        if HasDrained(s.calls[d]) { HolderAlone(s, c, d); }
      }
      ActingKeeps(s, t, c);
    }
  }

  lemma KeepsStampEvents(s: State, c: CallId)
    requires Inv(s)
    ensures Inv(ApplyStampEvents(s, c))
  {
    hide Inv, Stamped, TickAll;
    var t := ApplyStampEvents(s, c);
    if Known(s, c) && s.calls[c].phase.Stamping? && s.entries[s.calls[c].entry].clock in s.clocks {
      CallFacts(s, c);
      var j :| JoinTrace(j) && s.calls[c].trace == j + [Persisted(true), Drain];
      DrainSeen(j, [Persisted(true), Drain]);
      assert t.calls[c].trace == j + [Persisted(true), Drain, Stamp];
      ActingKeeps(s, t, c);
    }
  }

  lemma DrainSeen(j: seq<Effect>, k: seq<Effect>)
    requires |k| >= 2 && k[1] == Drain
    ensures Drain in j + k
  {
    assert (j + k)[|j| + 1] == Drain;
  }

  lemma RemoveTrace(s: State, c: CallId)
    requires Known(s, c) && s.calls[c].phase.Removing? && TraceFits(s.calls[c])
    ensures var after := ApplyRemove(s, c).calls[c];
            TraceFits(after) && HasDrained(s.calls[c]) && HasDrained(after)
  {
    var after := ApplyRemove(s, c).calls[c].trace;
    var j :| JoinTrace(j) && s.calls[c].trace == j + [Persisted(true), Drain, Stamp];
    DrainSeen(j, [Persisted(true), Drain, Stamp]);
    assert after == j + [Persisted(true), Drain, Stamp] || after == j + [Persisted(true), Drain, Stamp, Unmap];
    assert Drained(after);
    DrainSeen(j, [Persisted(true), Drain, Stamp, Unmap]);
  }

  lemma KeepsRemove(s: State, c: CallId)
    requires Inv(s)
    ensures Inv(ApplyRemove(s, c))
  {
    hide Inv, TraceFits, HasDrained;
    var t := ApplyRemove(s, c);
    if Known(s, c) && s.calls[c].phase.Removing? {
      CallFacts(s, c);
      RemoveTrace(s, c);
      ActingKeeps(s, t, c);
    }
  }

  lemma KeepsFinish(s: State, c: CallId)
    requires Inv(s)
    ensures Inv(ApplyFinish(s, c))
  {
    hide TraceFits, HasDrained;
    var t := ApplyFinish(s, c);
    if Known(s, c) && s.calls[c].phase.Finishing? {
      CallFacts(s, c);
      assert t.calls[c].trace == s.calls[c].trace;
      FinishTrace(s.calls[c], t.calls[c]);
      var e := s.calls[c].entry;
      forall x | x in t.sessions ensures t.sessions[x] != e { assert MapsLiveEntry(s, x); }
      ActingKeeps(s, t, c);
    }
  }

  lemma FinishTrace(before: Call, after: Call)
    requires TraceFits(before) && before.phase.Finishing? && after.phase.Done? && after.trace == before.trace
    ensures TraceFits(after) && HasDrained(before) && HasDrained(after)
  {
    var j :| JoinTrace(j) && (before.trace == j + [Persisted(true), Drain, Stamp]
                              || before.trace == j + [Persisted(true), Drain, Stamp, Unmap]);
    DrainSeen(j, [Persisted(true), Drain, Stamp]);
    DrainSeen(j, [Persisted(true), Drain, Stamp, Unmap]);
  }

  lemma KeepsCancel(s: State, c: CallId)
    requires Inv(s)
    ensures Inv(ApplyCancel(s, c))
  {
    hide Inv;
    var t := ApplyCancel(s, c);
    if Known(s, c) && Awaiting(s.calls[c].phase) {
      CallFacts(s, c);
      assert t.calls[c].trace == s.calls[c].trace;
      ActingKeeps(s, t, c);
    }
  }

  lemma ApplyKeeps(s: State, a: Action)
    requires Inv(s)
    ensures Inv(Apply(s, a))
  {
    hide Inv, ApplyRegister, ApplyReplace, ApplyStamp, ApplyBegin, ApplyAcquire, ApplyJoin, ApplyPersist, ApplyDrain,
         ApplyStampEvents, ApplyRemove, ApplyFinish, ApplyCancel;
    match a
    case Register(session, handle, e, k) => KeepsRegister(s, session, handle, e, k);
    case RegisterOrReplace(session, handle, e, k) => KeepsReplace(s, session, handle, e, k);
    case StampOne(session, event) => KeepsStamp(s, session, event);
    case Begin(c, session) => KeepsBegin(s, c, session);
    case Acquire(c) => KeepsAcquire(s, c);
    case JoinReturns(c, inTime) => KeepsJoin(s, c, inTime);
    case PersistReturns(c, ok) => KeepsPersist(s, c, ok);
    case DrainEvents(c, events) => KeepsDrain(s, c, events);
    case StampEvents(c) => KeepsStampEvents(s, c);
    case Remove(c) => KeepsRemove(s, c);
    case Finish(c) => KeepsFinish(s, c);
    case Cancel(c) => KeepsCancel(s, c);
  }
}
