// The channel object: its table is changed in place, one method per operation.
module RpcChannel {
  import opened Wrappers
  import opened RpcTable

  // What the reader hands on for a frame.
  datatype Incoming = Nothing | Hand(message: Message) | ProtocolError

  const PROTOCOL_ERROR: string := "JavaScript RPC protocol error"

  // The state after everything in the table has been settled with this reason.
  predicate DrainedBut(before: State, after: State, reason: string, left: map<nat, CallId>) {
    && after == before.(pending := left, callers := after.callers, drains := after.drains)
    && |after.callers| == |before.callers|
    && forall c | 0 <= c < |before.callers| ::
         var caller := before.callers[c];
         after.callers[c] == if caller.slot.Held? && caller.id !in left
                             then caller.(slot := Sent(Err(RpcError(-32000, reason, None)))) else caller
  }

  lemma RunOneMore(s: State, steps: seq<Action>, a: Action)
    ensures Run(s, steps + [a]) == Apply(Run(s, steps), a)
  {
    RunAppend(s, steps, [a]);
    RunFrom(Run(s, steps), [a], 0);
  }

  lemma RunNothing(s: State)
    ensures Run(s, []) == s
  {}

  lemma NothingDrained(s: State, reason: string)
    requires Inv(s)
    ensures DrainedBut(s, s, reason, s.pending)
  {
    forall c | 0 <= c < |s.callers| ensures s.callers[c].slot.Held? ==> s.callers[c].id in s.pending {
      assert CallerFits(s, c);
    }
  }

  lemma DrainsOneMore(before: State, s: State, d: nat, id: nat, reason: string)
    requires Inv(before) && Inv(s) && DrainedBut(before, s, reason, s.pending)
    requires In(s, d, Removing) && id in s.drains[d].keys && s.drains[d].reason == reason && id in s.pending
    ensures var t := Apply(s, DrainRemove(d, id));
            && DrainedBut(before, t, reason, t.pending) && t.pending == s.pending - {id}
            && t.drains == s.drains[d := s.drains[d].(keys := s.drains[d].keys - {id})]
  {
    hide IdOf;
    var t := Apply(s, DrainRemove(d, id));
    SettleSpec(s, id, Sent(DrainReply(reason)));
    forall c | 0 <= c < |before.callers|
      ensures var caller := before.callers[c];
              t.callers[c] == if caller.slot.Held? && caller.id !in t.pending
                              then caller.(slot := Sent(DrainReply(reason))) else caller
    {
      assert CallerFits(s, c) && CallerFits(before, c);
    }
  }

  lemma EndsDrained(before: State, s: State, d: nat, reason: string)
    requires DrainedBut(before, s, reason, s.pending) && s.pending.Keys == {}
    requires In(s, d, Removing) && s.drains[d].keys == {}
    ensures var t := Apply(s, DrainEnd(d));
            && t == s.(drains := s.drains[d := s.drains[d].(phase := Done)])
            && DrainedBut(before, t, reason, map[])
  {
    assert s.pending == map[];
  }

  class Channel {
    const max: nat
    var nextId: nat
    var pending: map<nat, CallId>
    var callers: seq<Caller>
    var drains: seq<Drain>
    var handedOn: seq<Message>

    function St(): State
      reads this
    {
      State(max, nextId, pending, callers, drains, handedOn)
    }

    constructor (max: nat)
      ensures St() == Start(max) && Inv(St())
    {
      this.max := max;
      nextId, pending, callers, drains, handedOn := 1, map[], [], [], [];
    }

    // Takes a sender out of the table, and answers through it or drops it.
    method SettleEntry(id: nat, slot: Slot)
      requires id in pending ==> pending[id] < |callers|
      modifies this`pending, this`callers
      ensures St() == Settle(old(St()), id, slot)
    {
      if id in pending {
        var c := pending[id];
        pending := pending - {id};
        callers := callers[c := callers[c].(slot := slot)];
      }
    }

    // The three steps of a request before it waits.
    method TakeNumber() returns (c: CallId)
      requires Inv(St())
      modifies this`nextId, this`callers
      ensures Inv(St()) && St() == Apply(old(St()), Action.TakeNumber) && At(St(), c, Numbered)
    {
      hide Inv;
      ApplyKeeps(St(), Action.TakeNumber);
      c := |callers|;
      callers := callers + [Caller(nextId, Numbered, Idle)];
      nextId := (nextId + 1) % IDS;
    }

    method Register(c: CallId)
      requires Inv(St()) && At(St(), c, Numbered)
      modifies this`pending, this`callers
      ensures Inv(St()) && St() == Apply(old(St()), Action.Register(c))
    {
      ApplyKeeps(St(), Action.Register(c));
      hide DrainInv, KeysInv;
      var id := callers[c].id;
      assert id in pending ==> EntryFits(St(), id);
      SettleEntry(id, Lost);
      pending := pending[id := c];
      callers := callers[c := Caller(id, Writing, Held)];
    }

    // The length check, the write, and the removal of the entry when either fails.
    method WriteReturned(c: CallId, length: nat, io: bool) returns (r: Outcome<Failure>)
      requires Inv(St()) && At(St(), c, Writing)
      modifies this`pending, this`callers
      ensures Inv(St()) && St() == Apply(old(St()), WriteReturns(c, length, io))
      ensures r == if length > max then Fail(TooLarge(max, length)) else if !io then Fail(Io) else Pass
      ensures r.Fail? ==> !callers[c].slot.Held? && forall id | id in pending :: pending[id] != c
      ensures c < |callers| && callers[c].place == if r.Fail? then Returned(Err(r.error)) else Waiting
    {
      ApplyKeeps(St(), WriteReturns(c, length, io));
      hide DrainInv, KeysInv;
      r := if length > max then Fail(TooLarge(max, length)) else if !io then Fail(Io) else Pass;
      if r.Fail? {
        assert callers[c].id in pending ==> EntryFits(St(), callers[c].id);
        SettleEntry(callers[c].id, Lost);
        callers := callers[c := callers[c].(place := Returned(Err(r.error)))];
        assert CallerFits(St(), c);
        forall id | id in pending ensures pending[id] != c { assert EntryFits(St(), id); }
      } else {
        callers := callers[c := callers[c].(place := Waiting)];
      }
    }

    // What a waiting caller gets when it looks at its channel.
    method Wake(c: CallId) returns (r: Option<Result<Value, Failure>>)
      requires Inv(St()) && At(St(), c, Waiting)
      modifies this`callers
      ensures Inv(St()) && St() == Apply(old(St()), Action.Wake(c))
      ensures r.None? <==> old(callers)[c].slot.Held?
      ensures r.Some? ==> At(St(), c, Returned(r.value))
    {
      ApplyKeeps(St(), Action.Wake(c));
      assert CallerFits(St(), c);
      hide Inv;
      if callers[c].slot.Held? { return None; }
      r := Some(ResultOf(callers[c].slot));
      callers := callers[c := callers[c].(place := Returned(r.value))];
    }

    // The first half of drain_pending: the keys of the table are copied.
    method CopyKeys(reason: string) returns (ghost steps: seq<Action>)
      requires Inv(St())
      modifies this`drains
      ensures Inv(St()) && St() == Run(old(St()), steps)
      ensures drains == old(drains) + [Drain(reason, Removing, pending.Keys, pending)]
    {
      ghost var before := St();
      hide Inv, Run;
      var d := |drains|;
      RunNothing(before);
      RunOneMore(before, [], DrainBegin(reason));
      drains, steps := drains + [Drain(reason, Collecting, {}, pending)], [] + [DrainBegin(reason)];
      var todo := pending.Keys;
      assert pending.Keys - todo == {};
      while todo != {}
        invariant todo <= pending.Keys && St() == before.(drains := drains)
        invariant drains == before.drains + [Drain(reason, Collecting, pending.Keys - todo, pending)]
        invariant St() == Run(before, steps)
      {
        var id :| id in todo;
        RunOneMore(before, steps, DrainSee(d, id));
        assert pending.Keys - (todo - {id}) == (pending.Keys - todo) + {id};
        drains := drains[d := drains[d].(keys := drains[d].keys + {id})];
        todo, steps := todo - {id}, steps + [DrainSee(d, id)];
      }
      assert pending.Keys - todo == pending.Keys;
      RunOneMore(before, steps, DrainCollected(d));
      drains, steps := drains[d := drains[d].(phase := Removing)], steps + [DrainCollected(d)];
      RunKeeps(before, steps);
    }

    method RemoveOne(d: nat, id: nat)
      requires Inv(St()) && In(St(), d, Removing) && id in drains[d].keys
      modifies this`pending, this`callers, this`drains
      ensures Inv(St()) && St() == Apply(old(St()), DrainRemove(d, id))
    {
      ApplyKeeps(St(), DrainRemove(d, id));
      assert id in pending ==> EntryFits(St(), id);
      hide Inv;
      drains := drains[d := drains[d].(keys := drains[d].keys - {id})];
      SettleEntry(id, Sent(DrainReply(drains[d].reason)));
    }

    // The second half: whatever the table holds under a copied key is answered.
    method RemoveKeys(d: nat) returns (ghost steps: seq<Action>)
      requires Inv(St()) && In(St(), d, Removing) && drains[d].keys == pending.Keys
      modifies this`pending, this`callers, this`drains
      ensures Inv(St()) && St() == Run(old(St()), steps)
      ensures DrainedBut(old(St()), St(), old(drains)[d].reason, map[])
      ensures drains == old(drains)[d := old(drains)[d].(phase := Done, keys := {})]
    {
      ghost var before := St();
      ghost var reason := drains[d].reason;
      hide Inv, Run, Apply, DrainedBut;
      RunNothing(before);
      NothingDrained(before, reason);
      steps := [];
      while drains[d].keys != {}
        invariant Inv(St()) && St() == Run(before, steps)
        invariant DrainedBut(before, St(), reason, pending) && pending.Keys <= before.pending.Keys
        invariant drains == before.drains[d := before.drains[d].(keys := pending.Keys)]
        decreases drains[d].keys
      {
        var id :| id in drains[d].keys;
        RunOneMore(before, steps, DrainRemove(d, id));
        DrainsOneMore(before, St(), d, id, reason);
        RemoveOne(d, id);
        steps := steps + [DrainRemove(d, id)];
      }
      RunOneMore(before, steps, DrainEnd(d));
      EndsDrained(before, St(), d, reason);
      drains, steps := drains[d := drains[d].(phase := Done)], steps + [DrainEnd(d)];
      RunKeeps(before, steps);
    }

    // Everything that drain_pending does when nothing runs beside it: the table is empty afterwards, and
    // exactly the callers that were in it have been told the reason.
    method DrainPending(reason: string) returns (ghost steps: seq<Action>)
      requires Inv(St())
      modifies this`pending, this`callers, this`drains
      ensures Inv(St()) && St() == Run(old(St()), steps)
      ensures DrainedBut(old(St()), St(), reason, map[])
      ensures drains == old(drains) + [Drain(reason, Done, {}, old(pending))]
    {
      hide Inv, Run;
      steps := CopyKeys(reason);
      ghost var removing := RemoveKeys(|drains| - 1);
      RunAppend(old(St()), steps, removing);
      steps := steps + removing;
    }

    // One frame: a response settles the caller it belongs to, a stray response and every request are
    // handed on, and a malformed frame drains the table.
    method HandleIncoming(frame: Frame) returns (r: Incoming)
      requires Inv(St())
      modifies this`pending, this`callers, this`drains, this`handedOn
      ensures Inv(St())
      ensures r == match ParseMessage(frame)
                   case Err(_) => ProtocolError
                   case Ok(m) => if m.Response? && m.id in old(pending) then Nothing else Hand(m)
      ensures !r.ProtocolError? ==> St() == Apply(old(St()), Arrive(frame))
      ensures !r.ProtocolError? ==> handedOn == old(handedOn) + if r.Hand? then [r.message] else []
      ensures r.ProtocolError? ==> DrainedBut(old(St()), St(), "JavaScript RPC protocol error", map[])
    {
      hide DrainInv, KeysInv;
      ApplyKeeps(St(), Arrive(frame));
      var parsed := ParseMessage(frame);
      if parsed.Err? {
        ghost var _ := DrainPending(PROTOCOL_ERROR);
        return ProtocolError;
      }
      if parsed.value.Response? && parsed.value.id in pending {
        assert EntryFits(St(), parsed.value.id);
        SettleEntry(parsed.value.id, Sent(AnswerOf(parsed.value.result, parsed.value.error)));
        assert handedOn + [] == handedOn;
        return Nothing;
      }
      handedOn := handedOn + [parsed.value];
      return Hand(parsed.value);
    }
  }
}
