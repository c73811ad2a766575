// What the invariants mean for callers, and the numbering of envelopes.
module SessionTheorems {
  import opened Wrappers
  import opened SessionMachine
  import opened SessionSafety

  // ---- clocks: one numbering per clock ----

  function Number(position: nat): nat { if position < MAX_SEQ then position + 1 else MAX_SEQ }

  // The i-th envelope of a clock carries number i + 1, up to the saturation point.
  ghost predicate Numbered(c: Clock) {
    && c.next == Number(|c.history|)
    && forall i | 0 <= i < |c.history| :: c.history[i].sequence == Number(i)
  }

  ghost predicate OneSession(history: seq<Envelope>, session: string) {
    forall i | 0 <= i < |history| :: history[i].session == session
  }

  predicate OccursAt(part: seq<Envelope>, history: seq<Envelope>, i: nat) {
    i + |part| <= |history| && history[i..i + |part|] == part
  }

  ghost predicate Within(part: seq<Envelope>, history: seq<Envelope>) { exists i: nat :: OccursAt(part, history, i) }

  predicate HasEnvelopes(p: Phase) { p.Removing? || p.Finishing? || p.Done? }

  ghost predicate EntryClock(s: State, e: EntryId) {
    e in s.entries && s.entries[e].clock in s.clocks
    && OneSession(s.clocks[s.entries[e].clock].history, s.entries[e].session)
  }

  ghost predicate SharedFits(s: State, e: EntryId, f: EntryId) {
    e in s.entries && f in s.entries && s.entries[e].clock == s.entries[f].clock ==>
      s.entries[e].session == s.entries[f].session
  }

  // What a call hands over is a stretch of its clock's history.
  ghost predicate Delivers(s: State, c: CallId)
    requires c in s.calls && EntryClock(s, s.calls[c].entry)
  {
    HasEnvelopes(s.calls[c].phase) ==>
      Within(s.calls[c].phase.envelopes, s.clocks[s.entries[s.calls[c].entry].clock].history)
  }

  ghost predicate ClockInv(s: State) {
    && (forall k | k in s.clocks :: Numbered(s.clocks[k]))
    && (forall e | e in s.entries :: EntryClock(s, e))
    && (forall e, f :: SharedFits(s, e, f))
    && (forall c | c in s.calls :: s.calls[c].entry in s.entries && Delivers(s, c))
  }

  lemma {:induction false} TickAllAppends(c: Clock, session: string, events: seq<Event>)
    requires Numbered(c)
    ensures Numbered(TickAll(c, session, events))
    ensures TickAll(c, session, events).history == c.history + Stamped(c, session, events)
    ensures OneSession(c.history, session) ==> OneSession(TickAll(c, session, events).history, session)
    ensures |Stamped(c, session, events)| == |events|
    ensures forall i | 0 <= i < |events| :: Stamped(c, session, events)[i].event == events[i]
    decreases |events|
  {
    if events == [] {
      assert c.history + [] == c.history;
    } else {
      var next := Tick(c, session, events[0]);
      var first := [Envelope(session, c.next, events[0])];
      assert next.history == c.history + first;
      TickAllAppends(next, session, events[1..]);
      assert c.history + first + Stamped(next, session, events[1..]) ==
             c.history + (first + Stamped(next, session, events[1..]));
    }
  }

  lemma WithinGrows(part: seq<Envelope>, history: seq<Envelope>, more: seq<Envelope>)
    requires Within(part, history)
    ensures Within(part, history + more)
  {
    var i: nat :| OccursAt(part, history, i);
    assert (history + more)[i..i + |part|] == part;
    assert OccursAt(part, history + more, i);
  }

  lemma WithinLast(history: seq<Envelope>, more: seq<Envelope>)
    ensures Within(more, history + more)
  {
    assert OccursAt(more, history + more, |history|);
  }

  lemma WithinNothing(history: seq<Envelope>)
    ensures Within([], history)
  {
    assert OccursAt([], history, 0);
  }

  // An action that appends to at most one clock, keeps entries on their clocks, and hands over only
  // what the appending put there.
  lemma ClocksGrow(s: State, t: State, k: ClockId, more: seq<Envelope>, session: string)
    requires Inv(s) && ClockInv(s)
    requires k in s.clocks && k in t.clocks && t.clocks == s.clocks[k := t.clocks[k]]
    requires t.clocks[k].history == s.clocks[k].history + more && Numbered(t.clocks[k])
    requires OneSession(more, session)
    requires forall e | e in s.entries && s.entries[e].clock == k :: s.entries[e].session == session
    requires t.entries.Keys == s.entries.Keys
    requires forall e | e in s.entries ::
               t.entries[e].clock == s.entries[e].clock && t.entries[e].session == s.entries[e].session
    requires t.calls.Keys == s.calls.Keys
    requires forall c | c in s.calls :: t.calls[c].entry == s.calls[c].entry
    requires forall c | c in s.calls && HasEnvelopes(t.calls[c].phase) ::
               || t.calls[c].phase.envelopes == []
               || (HasEnvelopes(s.calls[c].phase) && t.calls[c].phase.envelopes == s.calls[c].phase.envelopes)
               || (t.calls[c].phase.envelopes == more && s.entries[s.calls[c].entry].clock == k)
    ensures ClockInv(t)
  {
    hide Numbered;
    forall e | e in t.entries ensures EntryClock(t, e) { assert EntryClock(s, e); }
    forall e, f ensures SharedFits(t, e, f) { assert SharedFits(s, e, f); }
    forall c | c in t.calls ensures t.calls[c].entry in t.entries && Delivers(t, c) {
      var e := s.calls[c].entry;
      assert Delivers(s, c) && EntryClock(s, e);
      if HasEnvelopes(t.calls[c].phase) {
        var before := s.clocks[s.entries[e].clock].history;
        var envelopes := t.calls[c].phase.envelopes;
        WithinNothing(t.clocks[s.entries[e].clock].history);
        WithinLast(s.clocks[k].history, more);
        if HasEnvelopes(s.calls[c].phase) && envelopes == s.calls[c].phase.envelopes {
          WithinGrows(envelopes, before, more);
        }
      }
    }
  }

  // The same with no clock touched, possibly with a new entry on a new or an existing clock.
  lemma EntriesGrow(s: State, t: State, e: EntryId)
    requires ClockInv(s) && e !in s.entries && t.calls == s.calls
    requires e in t.entries && t.entries == s.entries[e := t.entries[e]]
    requires t.entries[e].clock in t.clocks
    requires forall k | k in s.clocks :: k in t.clocks && t.clocks[k] == s.clocks[k]
    requires forall k | k in t.clocks && k !in s.clocks :: t.clocks[k] == NEW_CLOCK
    requires forall f | f in s.entries && s.entries[f].clock == t.entries[e].clock ::
               s.entries[f].session == t.entries[e].session
    requires t.entries[e].clock in s.clocks ==>
               exists f :: f in s.entries && s.entries[f].clock == t.entries[e].clock
    ensures ClockInv(t)
  {
    hide Within;
    forall f | f in t.entries ensures EntryClock(t, f) {
      if f in s.entries {
        assert EntryClock(s, f);
      } else if t.entries[e].clock in s.clocks {
        var g :| g in s.entries && s.entries[g].clock == t.entries[e].clock;
        assert EntryClock(s, g);
      }
    }
    forall f, g ensures SharedFits(t, f, g) { assert SharedFits(s, f, g); }
    forall c | c in t.calls ensures t.calls[c].entry in t.entries && Delivers(t, c) {
      assert Delivers(s, c) && EntryClock(s, s.calls[c].entry);
    }
  }

  // The same with nothing but phases changing.
  lemma PhasesChange(s: State, t: State)
    requires ClockInv(s) && t.clocks == s.clocks && t.entries.Keys == s.entries.Keys
    requires forall e | e in s.entries ::
               t.entries[e].clock == s.entries[e].clock && t.entries[e].session == s.entries[e].session
    requires forall c | c in s.calls :: c in t.calls && t.calls[c].entry == s.calls[c].entry
    requires forall c | c in t.calls :: t.calls[c].entry in t.entries
    requires forall c | c in t.calls && HasEnvelopes(t.calls[c].phase) ::
               || t.calls[c].phase.envelopes == []
               || (c in s.calls && HasEnvelopes(s.calls[c].phase)
                   && t.calls[c].phase.envelopes == s.calls[c].phase.envelopes)
    ensures ClockInv(t)
  {
    hide Numbered;
    forall e | e in t.entries ensures EntryClock(t, e) { assert EntryClock(s, e); }
    forall e, f ensures SharedFits(t, e, f) { assert SharedFits(s, e, f); }
    forall c | c in t.calls ensures t.calls[c].entry in t.entries && Delivers(t, c) {
      assert EntryClock(t, t.calls[c].entry);
      WithinNothing(t.clocks[t.entries[t.calls[c].entry].clock].history);
      assert c in s.calls ==> Delivers(s, c);
    }
  }

  lemma StampKeepsClocks(s: State, session: string, event: Event)
    requires Inv(s) && ClockInv(s)
    ensures ClockInv(ApplyStamp(s, session, event))
  {
    hide Inv, Within;
    if session in s.sessions {
      SessionFits(s, session);
      var e := s.sessions[session];
      var k := s.entries[e].clock;
      assert EntryClock(s, e);
      var t := ApplyStamp(s, session, event);
      forall f | f in s.entries && s.entries[f].clock == k ensures s.entries[f].session == session {
        assert SharedFits(s, e, f);
      }
      ClocksGrow(s, t, k, [Envelope(session, s.clocks[k].next, event)], session);
    }
  }

  lemma SessionFits(s: State, session: string)
    requires Inv(s) && session in s.sessions
    ensures MapsLiveEntry(s, session)
  {}

  lemma StampEventsKeepsClocks(s: State, c: CallId)
    requires Inv(s) && ClockInv(s)
    ensures ClockInv(ApplyStampEvents(s, c))
  {
    hide Inv, Within, Numbered, OneSession;
    if Known(s, c) && s.calls[c].phase.Stamping? {
      CallFacts(s, c);
      var call := s.calls[c];
      var k := s.entries[call.entry].clock;
      assert EntryClock(s, call.entry);
      var t := ApplyStampEvents(s, c);
      TickAllAppends(s.clocks[k], call.session, call.phase.events);
      forall f | f in s.entries && s.entries[f].clock == k ensures s.entries[f].session == call.session {
        assert SharedFits(s, call.entry, f);
      }
      StampedSession(s.clocks[k], call.session, call.phase.events);
      ClocksGrow(s, t, k, Stamped(s.clocks[k], call.session, call.phase.events), call.session);
    }
  }

  lemma {:induction false} StampedSession(c: Clock, session: string, events: seq<Event>)
    ensures OneSession(Stamped(c, session, events), session)
    decreases |events|
  {
    if events != [] { StampedSession(Tick(c, session, events[0]), session, events[1..]); }
  }

  lemma RegisterKeepsClocks(s: State, session: string, handle: nat, e: EntryId, k: ClockId)
    requires Inv(s) && ClockInv(s)
    ensures ClockInv(ApplyRegister(s, session, handle, e, k))
  {
    hide Inv, Within;
    if session !in s.sessions && FreshIds(s, e, k) {
      forall f | f in s.entries ensures s.entries[f].clock != k { assert EntryClock(s, f); }
      EntriesGrow(s, ApplyRegister(s, session, handle, e, k), e);
    }
  }

  lemma ReplaceKeepsClocks(s: State, session: string, handle: nat, e: EntryId, k: ClockId)
    requires Inv(s) && ClockInv(s)
    ensures ClockInv(ApplyReplace(s, session, handle, e, k))
  {
    hide Inv, Within;
    if FreshIds(s, e, k) {
      var t := ApplyReplace(s, session, handle, e, k);
      forall f | f in s.entries ensures s.entries[f].clock != k { assert EntryClock(s, f); }
      if session in s.sessions {
        SessionFits(s, session);
        assert EntryClock(s, s.sessions[session]);
        forall f | f in s.entries && s.entries[f].clock == t.entries[e].clock ensures s.entries[f].session == session {
          assert SharedFits(s, s.sessions[session], f);
        }
      }
      EntriesGrow(s, t, e);
    }
  }

  lemma ApplyKeepsClocks(s: State, a: Action)
    requires Inv(s) && ClockInv(s)
    ensures ClockInv(Apply(s, a))
  {
    hide Inv, ClockInv, ApplyRegister, ApplyReplace, ApplyStamp, ApplyBegin, ApplyAcquire, ApplyJoin, ApplyPersist,
         ApplyDrain, ApplyStampEvents, ApplyRemove, ApplyFinish, ApplyCancel;
    match a
    case Register(session, handle, e, k) => RegisterKeepsClocks(s, session, handle, e, k);
    case RegisterOrReplace(session, handle, e, k) => ReplaceKeepsClocks(s, session, handle, e, k);
    case StampOne(session, event) => StampKeepsClocks(s, session, event);
    case StampEvents(c) => StampEventsKeepsClocks(s, c);
    case Begin(c, session) => BeginKeepsClocks(s, c, session);
    case _ =>
      if OnlyMoves(a) { MovingKeepsClocks(s, a); }
      else if a.Acquire? || a.PersistReturns? { LockingKeepsClocks(s, a); }
      else { FreeingKeepsClocks(s, a); }
  }

  // One call moves on; its entry keeps its clock.
  lemma CallMoves(s: State, t: State, c: CallId)
    requires ClockInv(s) && Known(s, c) && t.clocks == s.clocks
    requires c in t.calls && t.calls == s.calls[c := t.calls[c]] && t.calls[c].entry == s.calls[c].entry
    requires s.calls[c].entry in t.entries
    requires t.entries == s.entries[s.calls[c].entry := t.entries[s.calls[c].entry]]
    requires t.entries[s.calls[c].entry].clock == s.entries[s.calls[c].entry].clock
    requires t.entries[s.calls[c].entry].session == s.entries[s.calls[c].entry].session
    requires HasEnvelopes(t.calls[c].phase) ==>
               || t.calls[c].phase.envelopes == []
               || (HasEnvelopes(s.calls[c].phase) && t.calls[c].phase.envelopes == s.calls[c].phase.envelopes)
    ensures ClockInv(t)
  {
    hide Numbered, SharedFits, EntryClock, Within, OneSession;
    CallsKnown(s);
    PhasesChange(s, t);
  }

  predicate OnlyMoves(a: Action) { a.JoinReturns? || a.DrainEvents? || a.Remove? }

  lemma BeginKeepsClocks(s: State, c: CallId, session: string)
    requires Inv(s) && ClockInv(s)
    ensures ClockInv(ApplyBegin(s, c, session))
  {
    hide Inv, ClockInv;
    CallsKnown(s);
    if session in s.sessions { SessionFits(s, session); }
    PhasesChange(s, ApplyBegin(s, c, session));
  }

  lemma LockingKeepsClocks(s: State, a: Action)
    requires ClockInv(s) && (a.Acquire? || a.PersistReturns?)
    ensures ClockInv(Apply(s, a))
  {
    hide ClockInv;
    var t := Apply(s, a);
    if Known(s, a.call) && t != s { CallMoves(s, t, a.call); }
  }

  lemma FreeingKeepsClocks(s: State, a: Action)
    requires ClockInv(s) && (a.Finish? || a.Cancel?)
    ensures ClockInv(Apply(s, a))
  {
    hide ClockInv;
    var t := Apply(s, a);
    if Known(s, a.call) && t != s { CallMoves(s, t, a.call); }
  }

  lemma MovingKeepsClocks(s: State, a: Action)
    requires ClockInv(s) && OnlyMoves(a)
    ensures ClockInv(Apply(s, a))
  {
    hide ClockInv;
    var t := Apply(s, a);
    if Known(s, a.call) && t != s {
      assert t.entries == s.entries[s.calls[a.call].entry := t.entries[s.calls[a.call].entry]];
      CallMoves(s, t, a.call);
    }
  }

  lemma CallsKnown(s: State)
    requires ClockInv(s)
    ensures forall c | c in s.calls :: s.calls[c].entry in s.entries
  {}

  lemma {:induction false} RunKeepsBoth(s: State, actions: seq<Action>)
    requires Inv(s) && ClockInv(s)
    ensures Inv(Run(s, actions)) && ClockInv(Run(s, actions))
    decreases |actions|
  {
    hide Inv, ClockInv, Apply;
    if actions != [] {
      ApplyKeeps(s, actions[0]);
      ApplyKeepsClocks(s, actions[0]);
      RunKeepsBoth(Apply(s, actions[0]), actions[1..]);
    }
  }

  lemma ReachableInv(actions: seq<Action>)
    ensures Inv(Run(INITIAL, actions)) && ClockInv(Run(INITIAL, actions))
  {
    InitialInv();
    assert ClockInv(INITIAL);
    RunKeepsBoth(INITIAL, actions);
  }

  // ---- the theorems ----

  // Over every interleaving and every cancellation, a registration is drained by at most one destroy
  // call; a call that returns without having drained returns no events.
  lemma DrainedAtMostOnce(actions: seq<Action>, c: CallId, d: CallId)
    requires var s := Run(INITIAL, actions);
             c in s.calls && d in s.calls && c != d && s.calls[c].entry == s.calls[d].entry && HasDrained(s.calls[c])
    ensures var s := Run(INITIAL, actions);
            !HasDrained(s.calls[d]) && (s.calls[d].phase.Done? ==> s.calls[d].phase.envelopes == [])
  {
    hide HasDrained, Drained;
    var s := Run(INITIAL, actions);
    ReachableInv(actions);
    assert DrainsOnce(s, c, d);
    if s.calls[d].phase.Done? {
      assert TraceFits(s.calls[d]);
      DoneTraces(s.calls[d]);
    }
  }

  lemma DoneTraces(c: Call)
    requires TraceFits(c) && c.phase.Done?
    ensures HasDrained(c) || c.phase.envelopes == []
  {
    if c.trace != [] {
      var j :| JoinTrace(j) && (c.trace == j + [Persisted(true), Drain, Stamp]
                                || c.trace == j + [Persisted(true), Drain, Stamp, Unmap]);
      DrainSeen(j, [Persisted(true), Drain, Stamp]);
      DrainSeen(j, [Persisted(true), Drain, Stamp, Unmap]);
    }
  }

  // The record of a call that drained and returned: all phases in their order, with the abort exactly
  // on a missed deadline, and nothing drained before persistence succeeded.
  ghost predicate InOrder(t: seq<Effect>) {
    var head := [StopAccepting, CancelOwned] + if Joined(true) in t then [Joined(true)] else [Joined(false), Abort];
    t == head + [Persisted(true), Drain, Stamp] || t == head + [Persisted(true), Drain, Stamp, Unmap]
  }

  lemma DrainedInOrder(t: seq<Effect>)
    requires Drained(t)
    ensures InOrder(t)
  {
    var j :| JoinTrace(j) && (t == j + [Persisted(true), Drain, Stamp]
                                || t == j + [Persisted(true), Drain, Stamp, Unmap]);
    assert t[2] == j[2];
  }

  predicate Untouched(t: seq<Effect>) { Drain !in t && Stamp !in t && Unmap !in t }

  lemma FailureTraces(c: Call)
    requires TraceFits(c) && (c.phase.Failed? || c.phase.Cancelled?)
    ensures Untouched(c.trace)
  {}

  // The destruction order is fixed, and a call that failed to persist or was dropped while awaiting
  // has drained nothing, stamped nothing, removed nothing, and does not keep the lock.
  lemma DestructionOrder(actions: seq<Action>, c: CallId)
    requires c in Run(INITIAL, actions).calls
    ensures var s := Run(INITIAL, actions);
            var call := s.calls[c];
            && (HasDrained(call) && call.phase.Done? ==> InOrder(call.trace))
            && (call.phase.Failed? || call.phase.Cancelled? ==>
                  Untouched(call.trace) && call.entry in s.entries && s.entries[call.entry].lock != Some(c))
  {
    hide ClockInv, InOrder, Untouched, Drained;
    var s := Run(INITIAL, actions);
    ReachableInv(actions);
    assert CallFits(s, c) && TraceFits(s.calls[c]);
    CallFacts(s, c);
    if s.calls[c].phase.Done? && HasDrained(s.calls[c]) { DrainedInOrder(s.calls[c].trace); }
    if s.calls[c].phase.Failed? || s.calls[c].phase.Cancelled? { FailureTraces(s.calls[c]); }
  }

  // A session leaves the mapping only by the removal step of a destroy call, and only while the
  // mapping still holds the entry that call captured; a replaced entry survives the destruction of
  // its predecessor. Nothing but registration ever adds a mapping or changes its entry.
  lemma OnlyCapturedIsRemoved(s: State, a: Action, session: string)
    ensures var t := Apply(s, a);
            && (session in s.sessions && session !in t.sessions ==>
                  && a.Remove? && a.call in s.calls && s.calls[a.call].session == session
                  && s.sessions[session] == s.calls[a.call].entry
                  && t.calls[a.call].trace == s.calls[a.call].trace + [Unmap])
            && (session in t.sessions && !(a.Register? || a.RegisterOrReplace?) ==>
                  session in s.sessions && t.sessions[session] == s.sessions[session])
  {
    hide Tick, TickAll, Stamped;
  }

  lemma CompletedStep(s: State, a: Action, e: EntryId)
    requires e in s.entries && s.entries[e].completed
    ensures e in Apply(s, a).entries && Apply(s, a).entries[e].completed
  {
    hide Tick, TickAll, Stamped;
  }

  lemma {:induction false} CompletedStays(s: State, actions: seq<Action>, e: EntryId)
    requires e in s.entries && s.entries[e].completed
    ensures e in Run(s, actions).entries && Run(s, actions).entries[e].completed
    decreases |actions|
  {
    hide Apply;
    if actions != [] {
      CompletedStep(s, actions[0], e);
      CompletedStays(Apply(s, actions[0]), actions[1..], e);
    }
  }

  // Once a destroy call has completed an entry, no session ever maps to it again.
  lemma CompletedIsUnmapped(actions: seq<Action>, more: seq<Action>, e: EntryId)
    requires var s := Run(INITIAL, actions); e in s.entries && s.entries[e].completed
    ensures var later := Run(Run(INITIAL, actions), more);
            forall x | x in later.sessions :: later.sessions[x] != e
  {
    hide Run, Inv, ClockInv;
    var s := Run(INITIAL, actions);
    ReachableInv(actions);
    RunKeepsBoth(s, more);
    CompletedStays(s, more, e);
    var later := Run(s, more);
    forall x | x in later.sessions ensures later.sessions[x] != e { SessionFits(later, x); }
  }

  // ---- what a destroy call hands over ----

  function EventsOf(envelopes: seq<Envelope>): (events: seq<Event>)
    ensures |events| == |envelopes| && forall i | 0 <= i < |events| :: events[i] == envelopes[i].event
  {
    seq(|envelopes|, i requires 0 <= i < |envelopes| => envelopes[i].event)
  }

  // What the handle gave to the call when the call drained it: read off the run.
  function DrainGave(s: State, actions: seq<Action>, c: CallId): Option<seq<Event>>
    decreases |actions|
  {
    if actions == [] then None
    else if GivesTo(s, actions[0], c) then Some(actions[0].events)
    else DrainGave(Apply(s, actions[0]), actions[1..], c)
  }

  predicate GivesTo(s: State, a: Action, c: CallId) {
    a.DrainEvents? && a.call == c && Known(s, c) && s.calls[c].phase.Draining?
  }

  // The events a call holds, as events or already as envelopes.
  function Carried(s: State, c: CallId): Option<seq<Event>> {
    if c !in s.calls then None
    else
      match s.calls[c].phase
      case Stamping(events) => Some(events)
      case Removing(envelopes) => Some(EventsOf(envelopes))
      case Finishing(envelopes) => Some(EventsOf(envelopes))
      case Done(envelopes) => if HasDrained(s.calls[c]) then Some(EventsOf(envelopes)) else None
      case _ => None
  }

  // From the drain on a call carries the same events in the same order.
  lemma CarriedStep(s: State, a: Action, c: CallId)
    requires Inv(s) && ClockInv(s)
    ensures Carried(Apply(s, a), c) ==
            if Carried(s, c).Some? then Carried(s, c) else if GivesTo(s, a, c) then Some(a.events) else None
  {
    hide Inv, ClockInv;
    if c !in s.calls {
      NewCarriesNothing(s, a, c);
    } else if !ActsFor(a, c) {
      hide Apply;
      OthersStay(s, a, c);
    } else {
      hide Carried;
      CallsKnown(s);
      CallFacts(s, c);
      if a.StampEvents? && s.calls[c].phase.Stamping? {
        CarriedStamp(s, c);
      } else if a.Finish? {
        CarriedFinish(s, c);
      } else {
        CarriedElsewhere(s, a, c);
      }
    }
  }

  predicate ActsFor(a: Action, c: CallId) {
    !a.Register? && !a.RegisterOrReplace? && !a.StampOne? && a.call == c
  }

  lemma NewCarriesNothing(s: State, a: Action, c: CallId)
    requires c !in s.calls
    ensures Carried(Apply(s, a), c) == None && !GivesTo(s, a, c)
  {
    hide Tick, TickAll, Stamped;
  }

  lemma OthersStay(s: State, a: Action, c: CallId)
    requires c in s.calls && !ActsFor(a, c)
    ensures c in Apply(s, a).calls && Apply(s, a).calls[c] == s.calls[c]
  {
    hide Tick, TickAll, Stamped;
  }

  lemma CarriedElsewhere(s: State, a: Action, c: CallId)
    requires Known(s, c) && ActsFor(a, c) && TraceFits(s.calls[c]) && !a.Finish?
    requires !(a.StampEvents? && s.calls[c].phase.Stamping?)
    ensures Carried(Apply(s, a), c) ==
            if Carried(s, c).Some? then Carried(s, c) else if GivesTo(s, a, c) then Some(a.events) else None
  {
    hide Tick, TickAll, Stamped, Drained;
  }

  lemma CarriedStamp(s: State, c: CallId)
    requires ClockInv(s) && c in s.calls && s.calls[c].phase.Stamping? && s.calls[c].entry in s.entries
    ensures Carried(ApplyStampEvents(s, c), c) == Carried(s, c)
  {
    hide Numbered, Within, OneSession;
    var call := s.calls[c];
    assert EntryClock(s, call.entry);
    var clock := s.clocks[s.entries[call.entry].clock];
    TickAllAppends(clock, call.session, call.phase.events);
    assert EventsOf(Stamped(clock, call.session, call.phase.events)) == call.phase.events;
  }

  lemma CarriedFinish(s: State, c: CallId)
    requires Known(s, c) && TraceFits(s.calls[c])
    ensures Carried(ApplyFinish(s, c), c) == Carried(s, c)
  {
    if s.calls[c].phase.Finishing? {
      var t := s.calls[c].trace;
      var j :| JoinTrace(j) && (t == j + [Persisted(true), Drain, Stamp]
                                || t == j + [Persisted(true), Drain, Stamp, Unmap]);
      assert t[|j| + 1] == Drain;
      assert t + [] == t;
    }
  }

  lemma {:induction false} CarriedRun(s: State, actions: seq<Action>, c: CallId)
    requires Inv(s) && ClockInv(s)
    ensures Carried(Run(s, actions), c) ==
            if Carried(s, c).Some? then Carried(s, c) else DrainGave(s, actions, c)
    decreases |actions|
  {
    hide Inv, ClockInv, Apply, Carried, GivesTo;
    if actions != [] {
      CarriedStep(s, actions[0], c);
      ApplyKeeps(s, actions[0]);
      ApplyKeepsClocks(s, actions[0]);
      CarriedRun(Apply(s, actions[0]), actions[1..], c);
    }
  }

  // Envelopes of one clock are numbered 1, 2, 3, ... without gap or repeat until the counter
  // saturates, all for one session, whoever stamped them. What a destroy call returns is a stretch of
  // that numbering: exactly the events it drained, in their order, and nothing if it drained nothing.
  lemma SequencesAreDense(actions: seq<Action>, e: EntryId)
    requires e in Run(INITIAL, actions).entries
    ensures var s := Run(INITIAL, actions);
            && s.entries[e].clock in s.clocks
            && var history := s.clocks[s.entries[e].clock].history;
            && (forall i | 0 <= i < |history| ::
                  history[i].sequence == Number(i) && history[i].session == s.entries[e].session)
            && (forall c | c in s.calls && s.calls[c].entry == e && s.calls[c].phase.Done? ::
                  && Within(s.calls[c].phase.envelopes, history)
                  && (HasDrained(s.calls[c]) ==>
                        DrainGave(INITIAL, actions, c) == Some(EventsOf(s.calls[c].phase.envelopes)))
                  && (!HasDrained(s.calls[c]) ==> s.calls[c].phase.envelopes == []))
  {
    hide Within;
    var s := Run(INITIAL, actions);
    ReachableInv(actions);
    assert EntryClock(s, e) && Numbered(s.clocks[s.entries[e].clock]);
    forall c | c in s.calls && s.calls[c].entry == e && s.calls[c].phase.Done?
      ensures Within(s.calls[c].phase.envelopes, s.clocks[s.entries[e].clock].history)
      ensures HasDrained(s.calls[c]) ==>
                DrainGave(INITIAL, actions, c) == Some(EventsOf(s.calls[c].phase.envelopes))
      ensures !HasDrained(s.calls[c]) ==> s.calls[c].phase.envelopes == []
    {
      assert Delivers(s, c) && TraceFits(s.calls[c]);
      ReachableInv([]);
      CarriedRun(INITIAL, actions, c);
      DoneTraces(s.calls[c]);
    }
  }

  // ---- one clock as long as a session is mapped ----

  predicate StaysMapped(s: State, actions: seq<Action>, session: string)
    decreases |actions|
  {
    session in s.sessions && (actions == [] || StaysMapped(Apply(s, actions[0]), actions[1..], session))
  }

  // As long as a session stays mapped it stays on its clock, through any number of replacements:
  // replacing the handle does not restart the numbering.
  lemma {:induction false} MappedKeepsClock(s: State, actions: seq<Action>, session: string)
    requires Inv(s) && StaysMapped(s, actions, session)
    ensures var t := Run(s, actions);
            && session in t.sessions && t.sessions[session] in t.entries && s.sessions[session] in s.entries
            && t.entries[t.sessions[session]].clock == s.entries[s.sessions[session]].clock
    decreases |actions|
  {
    hide Inv, Apply;
    SessionFits(s, session);
    if actions != [] {
      ApplyKeeps(s, actions[0]);
      MappedStep(s, actions[0], session);
      MappedKeepsClock(Apply(s, actions[0]), actions[1..], session);
    }
  }

  lemma MappedStep(s: State, a: Action, session: string)
    requires Inv(s) && session in s.sessions && session in Apply(s, a).sessions
    ensures var t := Apply(s, a);
            && s.sessions[session] in s.entries && t.sessions[session] in t.entries
            && t.entries[t.sessions[session]].clock == s.entries[s.sessions[session]].clock
  {
    hide Tick, TickAll, Stamped, TraceFits;
    SessionFits(s, session);
    ApplyKeeps(s, a);
    SessionFits(Apply(s, a), session);
  }

  // ---- what registering means ----

  // Of two states, the second has one more entry, just made for this session and handle and on this
  // clock, and the session maps to it; everything else is as it was.
  ghost predicate HasNewEntry(s: State, t: State, session: string, handle: nat, e: EntryId, clock: ClockId) {
    && e !in s.entries && e in t.entries
    && t.entries[e].session == session && t.entries[e].handle == handle && t.entries[e].clock == clock
    && !t.entries[e].completed && t.entries[e].lock.None?
    && t.entries == s.entries[e := t.entries[e]]
    && t.sessions == s.sessions[session := e]
    && t.calls == s.calls
  }

  // A session that is mapped cannot be registered, and trying changes nothing; any other gets an entry on
  // a new clock that starts at 1.
  ghost predicate RegisterEffect(s: State, t: State, session: string, handle: nat, e: EntryId, k: ClockId) {
    if session in s.sessions then t == s
    else HasNewEntry(s, t, session, handle, e, k) && t.clocks == s.clocks[k := Clock(1, [])]
  }

  // Replacing always gives the session an entry with the given handle: on the clock of the entry it
  // replaces, which stays as it is, or on a new clock that starts at 1.
  ghost predicate ReplaceEffect(s: State, t: State, session: string, handle: nat, e: EntryId, k: ClockId) {
    if session in s.sessions then
      && s.sessions[session] in s.entries
      && HasNewEntry(s, t, session, handle, e, s.entries[s.sessions[session]].clock)
      && t.clocks == s.clocks
    else HasNewEntry(s, t, session, handle, e, k) && t.clocks == s.clocks[k := Clock(1, [])]
  }

  lemma RegisterMeans(s: State, session: string, handle: nat, e: EntryId, k: ClockId)
    requires e !in s.entries && k !in s.clocks
    ensures RegisterEffect(s, Apply(s, Register(session, handle, e, k)), session, handle, e, k)
  {}

  lemma ReplaceMeans(s: State, session: string, handle: nat, e: EntryId, k: ClockId)
    requires Inv(s) && e !in s.entries && k !in s.clocks
    ensures ReplaceEffect(s, Apply(s, RegisterOrReplace(session, handle, e, k)), session, handle, e, k)
  {
    hide Inv;
    if session in s.sessions { SessionFits(s, session); }
  }

  // ---- the record tells what happened ----

  predicate Reports(a: Action, c: CallId, effect: Effect) {
    match effect
    case Joined(inTime) => a == JoinReturns(c, inTime)
    case Persisted(ok) => a == PersistReturns(c, ok)
    case _ => a.Acquire? || a.JoinReturns? || a.DrainEvents? || a.StampEvents? || a.Remove?
  }

  ghost predicate Recorded(s: State, past: seq<Action>, c: CallId) {
    c in s.calls ==> forall x | x in s.calls[c].trace :: exists a :: a in past && Reports(a, c, x)
  }

  lemma NewEffects(s: State, a: Action, c: CallId)
    requires c in Apply(s, a).calls
    ensures var before := if c in s.calls then s.calls[c].trace else [];
            forall x | x in Apply(s, a).calls[c].trace :: x in before || Reports(a, c, x)
  {
    if c !in s.calls {
      NewCallIsEmpty(s, a, c);
    } else if !ActsFor(a, c) {
      hide Apply;
      OthersStay(s, a, c);
    } else if a.Acquire? || a.JoinReturns? || a.PersistReturns? {
      EarlyEffects(s, a, c);
    } else {
      LateEffects(s, a, c);
    }
  }

  lemma NewCallIsEmpty(s: State, a: Action, c: CallId)
    requires c !in s.calls && c in Apply(s, a).calls
    ensures Apply(s, a).calls[c].trace == []
  {
    hide Tick, TickAll, Stamped;
  }

  lemma EarlyEffects(s: State, a: Action, c: CallId)
    requires c in s.calls && ActsFor(a, c) && (a.Acquire? || a.JoinReturns? || a.PersistReturns?)
    ensures c in Apply(s, a).calls
    ensures forall x | x in Apply(s, a).calls[c].trace :: x in s.calls[c].trace || Reports(a, c, x)
  {
    match a
    case Acquire(_) => assert forall x | x in [StopAccepting, CancelOwned] :: Reports(a, c, x);
    case JoinReturns(_, inTime) => assert forall x | x in [Joined(inTime)] || x == Abort :: Reports(a, c, x);
    case PersistReturns(_, ok) => assert Reports(a, c, Persisted(ok));
  }

  lemma LateEffects(s: State, a: Action, c: CallId)
    requires c in s.calls && ActsFor(a, c) && !(a.Acquire? || a.JoinReturns? || a.PersistReturns?)
    ensures c in Apply(s, a).calls
    ensures forall x | x in Apply(s, a).calls[c].trace :: x in s.calls[c].trace || Reports(a, c, x)
  {
    hide Tick, TickAll, Stamped;
  }

  lemma {:induction false} RecordedRun(s: State, past: seq<Action>, actions: seq<Action>, c: CallId)
    requires Recorded(s, past, c)
    ensures Recorded(Run(s, actions), past + actions, c)
    decreases |actions|
  {
    hide Apply;
    if actions == [] {
      assert past + [] == past;
    } else {
      var t, more := Apply(s, actions[0]), past + [actions[0]];
      if c in t.calls {
        NewEffects(s, actions[0], c);
        forall x | x in t.calls[c].trace ensures exists a :: a in more && Reports(a, c, x) {
          if Reports(actions[0], c, x) { assert actions[0] in more; }
        }
      }
      RecordedRun(t, more, actions[1..], c);
      assert past + [actions[0]] + actions[1..] == past + actions;
    }
  }

  // A call has recorded a join in time or a missed deadline only if its join returned so, and a persistence
  // only as it came out; it aborts exactly after a missed deadline.
  lemma RecordIsTrue(actions: seq<Action>, c: CallId, inTime: bool, ok: bool)
    requires c in Run(INITIAL, actions).calls
    ensures var t := Run(INITIAL, actions).calls[c].trace;
            && (Joined(inTime) in t ==> JoinReturns(c, inTime) in actions)
            && (Persisted(ok) in t ==> PersistReturns(c, ok) in actions)
            && (Abort in t <==> Joined(false) in t)
  {
    RecordedRun(INITIAL, [], actions, c);
    assert [] + actions == actions;
    ReachableInv(actions);
    var s := Run(INITIAL, actions);
    CallFactsOf(s, c);
    AbortFollows(s.calls[c]);
  }

  lemma CallFactsOf(s: State, c: CallId)
    requires Inv(s) && c in s.calls
    ensures TraceFits(s.calls[c])
  {
    assert CallFits(s, c);
  }

  lemma AbortFollows(c: Call)
    requires TraceFits(c)
    ensures Abort in c.trace <==> Joined(false) in c.trace
  {
    forall j, k: seq<Effect> | JoinTrace(j) && Abort !in k && Joined(false) !in k
      ensures Abort in j + k <==> Joined(false) in j + k
    {
      AbortInJoin(j);
    }
    forall j | JoinTrace(j) ensures Abort in j <==> Joined(false) in j { AbortInJoin(j); }
  }

  lemma AbortInJoin(j: seq<Effect>)
    requires JoinTrace(j)
    ensures Abort in j <==> Joined(false) in j
  {
    if |j| == 4 { assert j[2] == Joined(false) && j[3] == Abort; }
  }

  // ---- dropping a call ----

  // A call can be dropped exactly while it waits for the lock, the join or the persistence. That ends it,
  // frees its lock if it has it, and changes nothing else; the entry can be destroyed by another call.
  lemma CancelMeans(s: State, c: CallId)
    requires Inv(s)
    ensures var t := Apply(s, Cancel(c));
            if c in s.calls && (s.calls[c].phase.Waiting? || s.calls[c].phase.Joining? || s.calls[c].phase.Persisting?)
            then
              && t.sessions == s.sessions && t.clocks == s.clocks
              && t.calls == s.calls[c := s.calls[c].(phase := Cancelled)]
              && s.calls[c].entry in s.entries
              && t.entries == s.entries[s.calls[c].entry := s.entries[s.calls[c].entry].(lock :=
                   if s.calls[c].phase.Waiting? then s.entries[s.calls[c].entry].lock else None)]
            else t == s
  {
    if c in s.calls {
      CallFactsOf(s, c);
      assert CallFits(s, c);
      CallFacts(s, c);
      hide Inv;
      assert s.calls[c].trace + [] == s.calls[c].trace;
      assert s.entries[s.calls[c].entry := s.entries[s.calls[c].entry]] == s.entries;
    }
  }
}
