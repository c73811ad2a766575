// The runtime object: its maps are changed in place, one method per locked section or awaited return.
module SessionRuntime {
  import opened Wrappers
  import opened SessionMachine
  import opened SessionSafety
  import opened SessionTheorems

  datatype RuntimeError = SessionAlreadyRegistered | UnknownSession | PersistFailed

  class Runtime {
    var sessions: map<string, EntryId>
    var entries: map<EntryId, Entry>
    var clocks: map<ClockId, Clock>
    var calls: map<CallId, Call>
    // Identities are handed out in order.
    var nextEntry: EntryId
    var nextClock: ClockId
    var nextCall: CallId

    function St(): State
      reads this
    {
      State(sessions, entries, clocks, calls)
    }

    ghost predicate Valid()
      reads this
    {
      && Inv(St()) && ClockInv(St())
      && (forall e | e in entries :: e < nextEntry)
      && (forall k | k in clocks :: k < nextClock)
      && (forall c | c in calls :: c < nextCall)
    }

    constructor ()
      ensures Valid() && St() == INITIAL
    {
      sessions, entries, clocks, calls := map[], map[], map[], map[];
      nextEntry, nextClock, nextCall := 0, 0, 0;
      new;
      ReachableInv([]);
    }

    method Register(session: string, handle: nat) returns (r: Outcome<RuntimeError>)
      requires Valid()
      modifies this
      ensures Valid()
      ensures St() == Apply(old(St()), SessionMachine.Register(session, handle, old(nextEntry), old(nextClock)))
      ensures r == if session in old(sessions) then Fail(SessionAlreadyRegistered) else Pass
      ensures RegisterEffect(old(St()), St(), session, handle, old(nextEntry), old(nextClock))
    {
      hide Inv, ClockInv, RegisterEffect;
      ghost var was, k, e := St(), nextClock, nextEntry;
      ghost var next := Apply(was, SessionMachine.Register(session, handle, e, k));
      RegisterMeans(was, session, handle, e, k);
      ApplyKeeps(was, SessionMachine.Register(session, handle, e, k));
      ApplyKeepsClocks(was, SessionMachine.Register(session, handle, e, k));
      if session in sessions { return Fail(SessionAlreadyRegistered); }
      sessions := sessions[session := nextEntry];
      entries := entries[nextEntry := Entry(session, handle, nextClock, false, None)];
      clocks := clocks[nextClock := NEW_CLOCK];
      nextEntry, nextClock := nextEntry + 1, nextClock + 1;
      assert St() == next;
      return Pass;
    }

    method RegisterOrReplace(session: string, handle: nat)
      requires Valid()
      modifies this
      ensures Valid()
      ensures St() == Apply(old(St()),
                            SessionMachine.RegisterOrReplace(session, handle, old(nextEntry), old(nextClock)))
      ensures ReplaceEffect(old(St()), St(), session, handle, old(nextEntry), old(nextClock))
    {
      hide Inv, ClockInv, ReplaceEffect;
      ghost var was, k, e := St(), nextClock, nextEntry;
      ghost var next := Apply(was, SessionMachine.RegisterOrReplace(session, handle, e, k));
      ReplaceMeans(was, session, handle, e, k);
      ApplyKeeps(was, SessionMachine.RegisterOrReplace(session, handle, e, k));
      ApplyKeepsClocks(was, SessionMachine.RegisterOrReplace(session, handle, e, k));
      var clock := nextClock;
      if session in sessions {
        SessionFits(was, session);
        clock := entries[sessions[session]].clock;
      } else {
        clocks := clocks[nextClock := NEW_CLOCK];
        nextClock := nextClock + 1;
      }
      sessions := sessions[session := nextEntry];
      entries := entries[nextEntry := Entry(session, handle, clock, false, None)];
      nextEntry := nextEntry + 1;
      assert St() == next;
    }

    // Stamping one event for a mapped session.
    method Stamp(session: string, event: Event) returns (r: Result<Envelope, RuntimeError>)
      requires Valid()
      modifies this`clocks
      ensures Valid() && St() == Apply(old(St()), StampOne(session, event))
      ensures session !in sessions ==> r == Err(UnknownSession)
      ensures session in sessions ==>
                && sessions[session] in entries && entries[sessions[session]].clock in clocks
                && var history := clocks[entries[sessions[session]].clock].history;
                && |history| > 0 && r == Ok(history[|history| - 1])
                && r.value.sequence == Number(|history| - 1) && r.value.session == session && r.value.event == event
    {
      hide Inv, ClockInv;
      ApplyKeeps(St(), StampOne(session, event));
      ApplyKeepsClocks(St(), StampOne(session, event));
      if session !in sessions { return Err(UnknownSession); }
      SessionFits(St(), session);
      ClockFacts(St(), sessions[session]);
      var k := entries[sessions[session]].clock;
      var sequence := clocks[k].next;
      var envelope := Envelope(session, sequence, event);
      clocks := clocks[k := Clock(Next(sequence), clocks[k].history + [envelope])];
      return Ok(envelope);
    }

    // Stamps drained events under the clock's lock, in order.
    method StampDrained(session: string, k: ClockId, events: seq<Event>) returns (envelopes: seq<Envelope>)
      requires k in clocks
      modifies this`clocks
      ensures clocks == old(clocks)[k := TickAll(old(clocks)[k], session, events)]
      ensures envelopes == Stamped(old(clocks)[k], session, events)
    {
      ghost var start := clocks[k];
      envelopes := [];
      for i := 0 to |events|
        invariant k in clocks && clocks == old(clocks)[k := clocks[k]]
        invariant TickAll(clocks[k], session, events[i..]) == TickAll(start, session, events)
        invariant envelopes + Stamped(clocks[k], session, events[i..]) == Stamped(start, session, events)
      {
        assert events[i..][0] == events[i] && events[i..][1..] == events[i + 1..];
        ghost var rest := Stamped(Tick(clocks[k], session, events[i]), session, events[i + 1..]);
        var envelope := Envelope(session, clocks[k].next, events[i]);
        assert envelopes + ([envelope] + rest) == (envelopes + [envelope]) + rest;
        clocks := clocks[k := Clock(Next(clocks[k].next), clocks[k].history + [envelope])];
        envelopes := envelopes + [envelope];
      }
      assert envelopes + [] == envelopes;
    }

    method Begin(session: string) returns (r: Result<CallId, RuntimeError>)
      requires Valid()
      modifies this
      ensures Valid() && St() == Apply(old(St()), SessionMachine.Begin(old(nextCall), session))
      ensures r == if session in sessions then Ok(old(nextCall)) else Err(UnknownSession)
      ensures r.Err? ==> St() == old(St())
      ensures r.Ok? ==> calls == old(calls)[r.value := Call(session, sessions[session], Waiting, [])]
    {
      hide Inv, ClockInv;
      ApplyKeeps(St(), SessionMachine.Begin(nextCall, session));
      ApplyKeepsClocks(St(), SessionMachine.Begin(nextCall, session));
      if session !in sessions { return Err(UnknownSession); }
      calls := calls[nextCall := Call(session, sessions[session], Waiting, [])];
      nextCall := nextCall + 1;
      return Ok(nextCall - 1);
    }

    // Records the next phase of a call and what it did.
    method Move(c: CallId, phase: Phase, effects: seq<Effect>)
      requires c in calls
      modifies this`calls
      ensures St() == Moved(old(St()), c, phase, effects)
    {
      calls := calls[c := calls[c].(phase := phase, trace := calls[c].trace + effects)];
    }

    // Gives the completion lock back if this call holds it.
    method Unlock(c: CallId)
      requires c in calls && calls[c].entry in entries
      modifies this`entries
      ensures St() == Unlocked(old(St()), c)
    {
      var e := calls[c].entry;
      if entries[e].lock == Some(c) { entries := entries[e := entries[e].(lock := None)]; }
    }

    // The lock is granted: either the entry is already complete and the call returns no events, or
    // the call holds the lock, has stopped the handle's intake and cancelled its tasks.
    method LockGranted(c: CallId) returns (alreadyDone: bool)
      requires Valid() && c in calls && calls[c].phase.Waiting?
      requires calls[c].entry in entries && entries[calls[c].entry].lock.None?
      modifies this`calls, this`entries
      ensures Valid() && St() == Apply(old(St()), Acquire(c))
      ensures alreadyDone == old(entries)[old(calls)[c].entry].completed
      ensures c in calls && (alreadyDone ==> calls[c].phase == Done([]))
    {
      hide Inv, ClockInv;
      ApplyKeeps(St(), Acquire(c));
      ApplyKeepsClocks(St(), Acquire(c));
      var e := calls[c].entry;
      alreadyDone := entries[e].completed;
      if alreadyDone {
        Move(c, Done([]), []);
      } else {
        Move(c, Joining, [StopAccepting, CancelOwned]);
        entries := entries[e := entries[e].(lock := Some(c))];
      }
    }

    // The join returned; on a missed deadline the handle is aborted.
    method JoinReturned(c: CallId, inTime: bool)
      requires Valid() && c in calls && calls[c].phase.Joining?
      modifies this`calls
      ensures Valid() && St() == Apply(old(St()), JoinReturns(c, inTime))
    {
      hide Inv, ClockInv;
      ApplyKeeps(St(), JoinReturns(c, inTime));
      ApplyKeepsClocks(St(), JoinReturns(c, inTime));
      CallsKnown(St());
      var effects := [Joined(inTime)];
      if !inTime { effects := effects + [Abort]; }
      assert effects == [Joined(inTime)] + if inTime then [] else [Abort];
      Move(c, Persisting, effects);
    }

    // The persist returned; on failure the call ends with an error and gives the lock back.
    method PersistReturned(c: CallId, ok: bool) returns (r: Outcome<RuntimeError>)
      requires Valid() && c in calls && calls[c].phase.Persisting?
      modifies this`calls, this`entries
      ensures Valid() && St() == Apply(old(St()), PersistReturns(c, ok))
      ensures r == if ok then Pass else Fail(PersistFailed)
    {
      hide Inv, ClockInv;
      ApplyKeeps(St(), PersistReturns(c, ok));
      ApplyKeepsClocks(St(), PersistReturns(c, ok));
      CallsKnown(St());
      if ok {
        Move(c, Draining, [Persisted(true)]);
        return Pass;
      }
      Move(c, Failed, [Persisted(false)]);
      Unlock(c);
      return Fail(PersistFailed);
    }

    // The future is dropped while it awaits.
    method Dropped(c: CallId)
      requires Valid() && c in calls && Awaiting(calls[c].phase)
      modifies this`calls, this`entries
      ensures Valid() && St() == Apply(old(St()), Cancel(c))
    {
      hide Inv, ClockInv;
      ApplyKeeps(St(), Cancel(c));
      ApplyKeepsClocks(St(), Cancel(c));
      CallsKnown(St());
      Move(c, Cancelled, []);
      Unlock(c);
    }

    method DrainHandle(c: CallId, events: seq<Event>)
      requires Valid() && c in calls && calls[c].phase.Draining?
      modifies this`calls
      ensures Valid() && St() == Apply(old(St()), DrainEvents(c, events))
    {
      hide Inv, ClockInv;
      ApplyKeeps(St(), DrainEvents(c, events));
      ApplyKeepsClocks(St(), DrainEvents(c, events));
      CallsKnown(St());
      Move(c, Stamping(events), [Drain]);
    }

    method StampEventsOf(c: CallId) returns (envelopes: seq<Envelope>)
      requires Valid() && c in calls && calls[c].phase.Stamping?
      modifies this`calls, this`clocks
      ensures Valid() && St() == Apply(old(St()), StampEvents(c))
      ensures c in calls && calls[c].phase == Removing(envelopes)
    {
      hide Inv, ClockInv;
      ApplyKeeps(St(), StampEvents(c));
      ApplyKeepsClocks(St(), StampEvents(c));
      CallsKnown(St());
      ClockFacts(St(), calls[c].entry);
      envelopes := StampDrained(calls[c].session, entries[calls[c].entry].clock, calls[c].phase.events);
      Move(c, Removing(envelopes), [Effect.Stamp]);
    }

    // Removes the mapping only if it still holds the captured entry.
    method RemoveMapping(c: CallId)
      requires Valid() && c in calls && calls[c].phase.Removing?
      modifies this`calls, this`sessions
      ensures Valid() && St() == Apply(old(St()), Remove(c))
    {
      hide Inv, ClockInv;
      ApplyKeeps(St(), Remove(c));
      ApplyKeepsClocks(St(), Remove(c));
      CallsKnown(St());
      var call := calls[c];
      if call.session in sessions && sessions[call.session] == call.entry {
        Move(c, Finishing(call.phase.envelopes), [Unmap]);
        sessions := sessions - {call.session};
      } else {
        Move(c, Finishing(call.phase.envelopes), []);
      }
    }

    method MarkCompleted(c: CallId)
      requires Valid() && c in calls && calls[c].phase.Finishing?
      modifies this`calls, this`entries
      ensures Valid() && St() == Apply(old(St()), Finish(c))
    {
      hide Inv, ClockInv;
      ApplyKeeps(St(), Finish(c));
      ApplyKeepsClocks(St(), Finish(c));
      CallsKnown(St());
      var e := calls[c].entry;
      Move(c, Done(calls[c].phase.envelopes), []);
      entries := entries[e := entries[e].(completed := true, lock := None)];
    }

    // The first half of a destroy call that nothing runs beside: up to the persistence, which decides
    // whether the entry is kept locked for the second half or given back as it was.
    method StopAndPersist(c: CallId, inTime: bool, ok: bool) returns (r: Outcome<RuntimeError>)
      requires Valid() && c in calls && calls[c].phase.Waiting? && calls[c].entry in entries
      requires entries[calls[c].entry].lock.None? && !entries[calls[c].entry].completed
      modifies this`calls, this`entries
      ensures Valid() && r == if ok then Pass else Fail(PersistFailed)
      ensures c in calls && calls[c].session == old(calls)[c].session && calls[c].entry == old(calls)[c].entry
      ensures calls[c].phase == if ok then Draining else Failed
      ensures calls[c].trace == old(calls)[c].trace + StopRecord(inTime) + [Persisted(ok)]
      ensures var e := calls[c].entry;
              entries == if ok then old(entries)[e := old(entries)[e].(lock := Some(c))] else old(entries)
    {
      hide Inv, ClockInv;
      var done := LockGranted(c);
      JoinReturned(c, inTime);
      r := PersistReturned(c, ok);
    }

    // The second half: what the handle drained is stamped and returned, the session unmapped, the entry
    // completed.
    method Deliver(c: CallId, drained: seq<Event>) returns (envelopes: seq<Envelope>)
      requires Valid() && c in calls && calls[c].phase.Draining? && calls[c].entry in entries
      modifies this`calls, this`entries, this`clocks, this`sessions
      ensures Valid() && c in calls && calls[c].phase == Done(envelopes)
      ensures var call := old(calls)[c];
              var k := old(entries)[call.entry].clock;
              && k in old(clocks) && envelopes == Stamped(old(clocks)[k], call.session, drained)
              && clocks == old(clocks)[k := TickAll(old(clocks)[k], call.session, drained)]
              && entries == old(entries)[call.entry := old(entries)[call.entry].(completed := true, lock := None)]
              && sessions == if call.session in old(sessions) && old(sessions)[call.session] == call.entry
                             then old(sessions) - {call.session} else old(sessions)
    {
      hide Inv, ClockInv, TickAll, Stamped;
      ClockFacts(St(), calls[c].entry);
      DrainHandle(c, drained);
      envelopes := StampEventsOf(c);
      RemoveMapping(c);
      MarkCompleted(c);
    }

    // A whole destroy call that nothing runs beside; how the join and the persistence come out and what
    // the handle drains is given. An unknown session or a failed persistence changes no mapping, no entry
    // and no clock. Otherwise the drained events come back in order, numbered on from the session's
    // clock, the session is unmapped and its entry completed.
    method Destroy(session: string, inTime: bool, persisted: bool, drained: seq<Event>)
      returns (r: Result<seq<Envelope>, RuntimeError>)
      requires Valid()
      requires session in sessions && sessions[session] in entries ==> entries[sessions[session]].lock.None?
      modifies this
      ensures Valid()
      ensures r == Err(UnknownSession) <==> session !in old(sessions)
      ensures r == Err(PersistFailed) <==> session in old(sessions) && !persisted
      ensures r.Err? ==> sessions == old(sessions) && entries == old(entries) && clocks == old(clocks)
      ensures r.Ok? ==>
                && session in old(sessions) && old(sessions)[session] in old(entries)
                && var e := old(sessions)[session];
                && var k := old(entries)[e].clock;
                && k in old(clocks) && k in clocks
                && var from := |old(clocks)[k].history|;
                && |r.value| == |drained|
                && (forall i | 0 <= i < |drained| :: r.value[i] == Envelope(session, Number(from + i), drained[i]))
                && clocks[k].history == old(clocks)[k].history + r.value
                && clocks == old(clocks)[k := clocks[k]]
                && sessions == old(sessions) - {session}
                && entries == old(entries)[e := old(entries)[e].(completed := true, lock := None)]
    {
      hide Inv, ClockInv, TickAll, Stamped;
      if session in sessions { SessionFits(St(), session); }
      var begun := Begin(session);
      if begun.Err? { return Err(UnknownSession); }
      var c, e := begun.value, sessions[session];
      ClockFacts(St(), e);
      ghost var clock := clocks[entries[e].clock];
      TickAllAppends(clock, session, drained);
      StampedOnward(clock, session, drained);
      var stopped := StopAndPersist(c, inTime, persisted);
      if stopped.Fail? { return Err(stopped.error); }
      var envelopes := Deliver(c, drained);
      return Ok(envelopes);
    }
  }

  function StopRecord(inTime: bool): seq<Effect> {
    if inTime then [StopAccepting, CancelOwned, Joined(true)] else [StopAccepting, CancelOwned, Joined(false), Abort]
  }

  // Stamping a list numbers it on from the clock's history, in order.
  lemma {:induction false} StampedOnward(c: Clock, session: string, events: seq<Event>)
    requires Numbered(c)
    ensures |Stamped(c, session, events)| == |events|
    ensures forall i | 0 <= i < |events| ::
              Stamped(c, session, events)[i] == Envelope(session, Number(|c.history| + i), events[i])
    decreases |events|
  {
    if events != [] {
      var next := Tick(c, session, events[0]);
      StampedOnward(next, session, events[1..]);
      forall i | 0 < i < |events|
        ensures Stamped(c, session, events)[i] == Envelope(session, Number(|c.history| + i), events[i])
      {
        assert Stamped(c, session, events)[i] == Stamped(next, session, events[1..])[i - 1];
      }
    }
  }

  lemma ClockFacts(s: State, e: EntryId)
    requires ClockInv(s) && e in s.entries
    ensures s.entries[e].clock in s.clocks && Numbered(s.clocks[s.entries[e].clock])
  {
    assert EntryClock(s, e);
  }
}
