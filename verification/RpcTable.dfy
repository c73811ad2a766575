// The request table of the RPC channel: any number of callers register requests, the reader settles
// them by the identifiers of the frames it gets, and drains settle whatever is left. One step is one
// table operation or one return of an awaited write, so all of them interleave.
module RpcTable {
  import opened Wrappers

  // ---- frames ----

  datatype Value = Null | Json(text: string)

  datatype RpcError = RpcError(code: int, message: string, data: Option<Value>)

  // A frame as the field lookups of the JSON library show it: `id` is present only if it is an unsigned
  // machine word, `version` and `methodName` only if they are strings; `error` may be present and yet not
  // decode.
  datatype Frame =
    | NotJson
    | Object(version: Option<string>, id: Option<nat>, result: Option<Value>, error: Option<Option<RpcError>>,
             methodName: Option<string>, params: Option<Value>)

  datatype Message =
    | Response(id: nat, result: Option<Value>, error: Option<RpcError>)
    | Request(caller: Option<nat>, methodName: string, params: Option<Value>)

  datatype Malformed = BadFrame | BadResponse | BadError | BadRequest

  function ParseMessage(frame: Frame): Result<Message, Malformed> {
    if frame.NotJson? || frame.version != Some("2.0") then Err(BadFrame)
    else if frame.result.Some? || frame.error.Some? then
      if frame.id.None? then Err(BadResponse)
      else if frame.error == Some(None) then Err(BadError)
      else Ok(Response(frame.id.value, frame.result, if frame.error.Some? then frame.error.value else None))
    else if frame.methodName.None? then Err(BadRequest)
    else Ok(Request(frame.id, frame.methodName.value, frame.params))
  }

  // What the channel writes.
  datatype Outgoing =
    | Call(id: nat, methodName: string, params: Value)
    | Notice(methodName: string, params: Value)
    | Answer(id: nat, result: Value)
    | Refusal(id: nat, error: RpcError)

  const VERSION: Option<string> := Some("2.0")

  function GivenParams(params: Value): Option<Value> { if params.Null? then None else Some(params) }

  function Written(o: Outgoing): Frame {
    match o
    case Call(id, methodName, params) => Object(VERSION, Some(id), None, None, Some(methodName), GivenParams(params))
    case Notice(methodName, params) => Object(VERSION, None, None, None, Some(methodName), GivenParams(params))
    case Answer(id, result) => Object(VERSION, Some(id), Some(result), None, None, None)
    case Refusal(id, error) => Object(VERSION, Some(id), None, Some(Some(error)), None, None)
  }

  // ---- the machine ----

  // Identifiers are machine words handed out in order from 1, and wrap around.
  const IDS: nat := 0x1_0000_0000_0000_0000

  type CallId = nat

  function IdOf(c: CallId): (id: nat)
    ensures id < IDS
  {
    (1 + c) % IDS
  }

  datatype Failure = RpcResponse(error: RpcError) | Abandoned | TooLarge(limit: nat, observed: nat) | Io

  type Reply = Result<Value, RpcError>

  // The one-shot channel between the table and a caller: not yet registered, sender in the table, answer
  // sent, or sender dropped without an answer.
  datatype Slot = Idle | Held | Sent(reply: Reply) | Lost

  // Where a caller is; it can be dropped at the two awaits, `Writing` and `Waiting`.
  datatype Place = Numbered | Writing | Waiting | Returned(result: Result<Value, Failure>) | Dropped

  datatype Caller = Caller(id: nat, place: Place, slot: Slot)

  datatype Phase = Collecting | Removing | Done

  // A drain copies the table's keys, then removes them one by one. `owed` is the table as the drain
  // found it when it began.
  datatype Drain = Drain(reason: string, phase: Phase, keys: set<nat>, owed: map<nat, CallId>)

  datatype State = State(
    max: nat,
    nextId: nat,
    pending: map<nat, CallId>,
    callers: seq<Caller>,
    drains: seq<Drain>,
    handedOn: seq<Message>)

  datatype Action =
    | TakeNumber
    | Register(c: CallId)
    | WriteReturns(c: CallId, length: nat, io: bool)
    | Wake(c: CallId)
    | DropCaller(c: CallId)
    | Arrive(frame: Frame)
    | DrainBegin(reason: string)
    | DrainSee(d: nat, id: nat)
    | DrainCollected(d: nat)
    | DrainRemove(d: nat, id: nat)
    | DrainEnd(d: nat)

  predicate At(s: State, c: CallId, place: Place) { c < |s.callers| && s.callers[c].place == place }

  predicate In(s: State, d: nat, phase: Phase) { d < |s.drains| && s.drains[d].phase == phase }

  function Goes(s: State, c: CallId, place: Place): State
    requires c < |s.callers|
  {
    s.(callers := s.callers[c := s.callers[c].(place := place)])
  }

  // Takes the sender with this identifier out of the table, if there is one, and uses or drops it.
  function Settle(s: State, id: nat, slot: Slot): State {
    if id !in s.pending then s
    else
      var c := s.pending[id];
      var t := s.(pending := s.pending - {id});
      if c < |s.callers| then t.(callers := s.callers[c := s.callers[c].(slot := slot)]) else t
  }

  function AnswerOf(result: Option<Value>, error: Option<RpcError>): Reply {
    match error
    case Some(e) => Err(e)
    case None => Ok(if result.Some? then result.value else Null)
  }

  function DrainReply(reason: string): Reply { Err(RpcError(-32000, reason, None)) }

  function ResultOf(slot: Slot): Result<Value, Failure>
    requires slot.Sent? || slot.Lost?
  {
    match slot
    case Sent(Ok(v)) => Ok(v)
    case Sent(Err(e)) => Err(RpcResponse(e))
    case Lost => Err(Abandoned)
  }

  function Apply(s: State, a: Action): State {
    match a
    case TakeNumber =>
      s.(nextId := (s.nextId + 1) % IDS, callers := s.callers + [Caller(s.nextId, Numbered, Idle)])
    case Register(c) =>
      if !At(s, c, Numbered) then s
      else
        // Inserting under an identifier in use drops the sender that was there.
        var id := s.callers[c].id;
        var t := Settle(s, id, Lost);
        t.(pending := t.pending[id := c], callers := t.callers[c := Caller(id, Writing, Held)])
    case WriteReturns(c, length, io) =>
      if !At(s, c, Writing) then s
      else if length > s.max then
        Goes(Settle(s, s.callers[c].id, Lost), c, Returned(Err(TooLarge(s.max, length))))
      else if !io then Goes(Settle(s, s.callers[c].id, Lost), c, Returned(Err(Io)))
      else Goes(s, c, Waiting)
    case Wake(c) =>
      if At(s, c, Waiting) && (s.callers[c].slot.Sent? || s.callers[c].slot.Lost?)
      then Goes(s, c, Returned(ResultOf(s.callers[c].slot))) else s
    case DropCaller(c) =>
      if At(s, c, Writing) || At(s, c, Waiting) then Goes(s, c, Dropped) else s
    case Arrive(frame) =>
      // A malformed frame only starts a drain.
      (match ParseMessage(frame)
       case Ok(Response(id, result, error)) =>
         if id in s.pending then Settle(s, id, Sent(AnswerOf(result, error)))
         else s.(handedOn := s.handedOn + [Response(id, result, error)])
       case Ok(m) => s.(handedOn := s.handedOn + [m])
       case Err(_) => s)
    case DrainBegin(reason) => s.(drains := s.drains + [Drain(reason, Collecting, {}, s.pending)])
    case DrainSee(d, id) =>
      if In(s, d, Collecting) && id in s.pending
      then s.(drains := s.drains[d := s.drains[d].(keys := s.drains[d].keys + {id})]) else s
    case DrainCollected(d) =>
      // The iteration may miss what comes and goes meanwhile, but not what is there all the time.
      if In(s, d, Collecting) && Seen(s, s.drains[d])
      then s.(drains := s.drains[d := s.drains[d].(phase := Removing)]) else s
    case DrainRemove(d, id) =>
      if In(s, d, Removing) && id in s.drains[d].keys
      then
        Settle(s.(drains := s.drains[d := s.drains[d].(keys := s.drains[d].keys - {id})]), id,
               Sent(DrainReply(s.drains[d].reason)))
      else s
    case DrainEnd(d) =>
      if In(s, d, Removing) && s.drains[d].keys == {}
      then s.(drains := s.drains[d := s.drains[d].(phase := Done)]) else s
  }

  predicate Seen(s: State, drain: Drain) {
    forall id | id in drain.owed && id in s.pending && s.pending[id] == drain.owed[id] :: id in drain.keys
  }

  function Run(s: State, actions: seq<Action>): State
    decreases |actions|
  {
    if actions == [] then s else Run(Apply(s, actions[0]), actions[1..])
  }

  function Start(max: nat): State { State(max, 1, map[], [], [], []) }

  // ---- the invariant ----

  // The table holds exactly the senders that are still to be used, each under its own identifier, and
  // what a caller returned is what came through its channel.
  predicate CallerFits(s: State, c: CallId)
    requires c < |s.callers|
  {
    var caller := s.callers[c];
    && caller.id == IdOf(c)
    && (caller.slot.Idle? <==> caller.place.Numbered?)
    && (caller.slot.Held? <==> caller.id in s.pending && s.pending[caller.id] == c)
    && (caller.place.Returned? ==>
          match caller.place.result
          case Ok(v) => caller.slot == Sent(Ok(v))
          case Err(RpcResponse(e)) => caller.slot == Sent(Err(e))
          case Err(Abandoned) => caller.slot.Lost?
          case Err(_) => !caller.slot.Held?)
    // Only a failed write loses a sender, as long as identifiers are not reused.
    && (caller.slot.Lost? && |s.callers| <= IDS ==>
          caller.place.Returned? && caller.place.result.Err? && !caller.place.result.error.Abandoned?)
  }

  predicate EntryFits(s: State, id: nat)
    requires id in s.pending
  {
    s.pending[id] < |s.callers| && IdOf(s.pending[id]) == id
  }

  // Whatever a drain owes and is still in the table lies ahead of it.
  predicate DrainFits(s: State, drain: Drain) {
    forall id | id in drain.owed ::
      && drain.owed[id] < |s.callers| && IdOf(drain.owed[id]) == id
      && var slot := s.callers[drain.owed[id]].slot;
      && !slot.Idle?
      && (slot.Held? ==> drain.phase.Collecting? || (drain.phase.Removing? && id in drain.keys))
  }

  ghost predicate TableInv(s: State) {
    && s.nextId == IdOf(|s.callers|)
    && (forall c | 0 <= c < |s.callers| :: CallerFits(s, c))
    && (forall id | id in s.pending :: EntryFits(s, id))
  }

  ghost predicate DrainInv(s: State) { forall d | 0 <= d < |s.drains| :: DrainFits(s, s.drains[d]) }

  // The caller an identifier belongs to before identifiers wrap around.
  function CallerOf(id: nat): CallId { (id + IDS - 1) % IDS }

  // A drain's keys are identifiers of registered callers.
  predicate KeysFit(s: State, keys: set<nat>) {
    |s.callers| <= IDS ==>
      forall id | id in keys :: CallerOf(id) < |s.callers| && !s.callers[CallerOf(id)].slot.Idle?
  }

  ghost predicate KeysInv(s: State) { forall d | 0 <= d < |s.drains| :: KeysFit(s, s.drains[d].keys) }

  ghost predicate Inv(s: State) { TableInv(s) && DrainInv(s) && KeysInv(s) }

  lemma NextId(c: CallId)
    ensures (IdOf(c) + 1) % IDS == IdOf(c + 1)
  {}

  lemma IdsDistinct(b: CallId, c: CallId)
    requires IdOf(b) == IdOf(c) && b < IDS && c < IDS
    ensures b == c
  {}

  // A channel is registered once, and settled for good.
  predicate SlotMoves(before: Slot, after: Slot) {
    && (before.Sent? || before.Lost? ==> after == before)
    && (before.Held? ==> !after.Idle?)
  }

  ghost predicate Forward(s: State, t: State) {
    && |s.callers| <= |t.callers|
    && forall c | 0 <= c < |s.callers| :: SlotMoves(s.callers[c].slot, t.callers[c].slot)
  }

  lemma SettleSpec(s: State, id: nat, slot: Slot)
    requires TableInv(s)
    ensures var t := Settle(s, id, slot);
            && t == s.(pending := s.pending - {id}, callers := t.callers)
            && |t.callers| == |s.callers|
            && forall c | 0 <= c < |s.callers| ::
                 && CallerFits(s, c)
                 && t.callers[c] == if s.callers[c].slot.Held? && s.callers[c].id == id
                                    then s.callers[c].(slot := slot) else s.callers[c]
  {
    if id in s.pending { assert EntryFits(s, id); }
    var t := Settle(s, id, slot);
    forall c | 0 <= c < |s.callers|
      ensures CallerFits(s, c)
      ensures t.callers[c] == if s.callers[c].slot.Held? && s.callers[c].id == id
                              then s.callers[c].(slot := slot) else s.callers[c]
    {
      assert CallerFits(s, c);
    }
  }

  lemma TableStep(s: State, a: Action)
    requires TableInv(s)
    ensures TableInv(Apply(s, a)) && Forward(s, Apply(s, a))
  {
    match a
    case Register(c) => if At(s, c, Numbered) { RegisterKeeps(s, c); }
    case WriteReturns(c, length, io) =>
      if At(s, c, Writing) && (length > s.max || !io) {
        FailedWriteKeeps(s, a);
      } else {
        OwnStepKeeps(s, a);
      }
    case Arrive(frame) => ArrivalKeeps(s, frame);
    case DrainRemove(d, id) =>
      if In(s, d, Removing) && id in s.drains[d].keys {
        var drained := s.(drains := s.drains[d := s.drains[d].(keys := s.drains[d].keys - {id})]);
        SameTable(s, drained);
        SentKeeps(drained, id, DrainReply(s.drains[d].reason));
      }
    case _ => OwnStepKeeps(s, a);
  }

  lemma SameTable(s: State, t: State)
    requires TableInv(s) && t == s.(drains := t.drains, handedOn := t.handedOn)
    ensures TableInv(t) && Forward(s, t)
  {
    forall c | 0 <= c < |s.callers| ensures CallerFits(t, c) { assert CallerFits(s, c); }
    forall id | id in s.pending ensures EntryFits(t, id) { assert EntryFits(s, id); }
  }

  lemma ArrivalKeeps(s: State, frame: Frame)
    requires TableInv(s)
    ensures TableInv(Apply(s, Arrive(frame))) && Forward(s, Apply(s, Arrive(frame)))
  {
    var m := ParseMessage(frame);
    if m.Ok? && m.value.Response? && m.value.id in s.pending {
      SentKeeps(s, m.value.id, AnswerOf(m.value.result, m.value.error));
    } else {
      SameTable(s, Apply(s, Arrive(frame)));
    }
  }

  // Steps that take nothing out of the table and put nothing in.
  lemma OwnStepKeeps(s: State, a: Action)
    requires TableInv(s) && !a.Register? && !a.Arrive? && !a.DrainRemove?
    requires a.WriteReturns? ==> !At(s, a.c, Writing) || (a.length <= s.max && a.io)
    ensures TableInv(Apply(s, a)) && Forward(s, Apply(s, a))
  {
    var t := Apply(s, a);
    NextId(|s.callers|);
    hide IdOf, ParseMessage;
    forall c | 0 <= c < |t.callers| ensures CallerFits(t, c) {
      if c < |s.callers| { assert CallerFits(s, c); } else { FreshIsFree(s, c); }
    }
    forall id | id in t.pending ensures EntryFits(t, id) { assert EntryFits(s, id); }
  }

  lemma FreshIsFree(s: State, c: CallId)
    requires TableInv(s) && c == |s.callers|
    ensures IdOf(c) in s.pending ==> s.pending[IdOf(c)] != c
  {
    if IdOf(c) in s.pending { assert EntryFits(s, IdOf(c)); }
  }

  lemma SentKeeps(s: State, id: nat, reply: Reply)
    requires TableInv(s)
    ensures var t := Settle(s, id, Sent(reply)); TableInv(t) && Forward(s, t)
  {
    var t := Settle(s, id, Sent(reply));
    SettleSpec(s, id, Sent(reply));
    forall i | i in t.pending ensures EntryFits(t, i) { assert EntryFits(s, i); }
    forall c | 0 <= c < |t.callers| ensures CallerFits(t, c) { assert CallerFits(s, c); }
  }

  lemma RegisterKeeps(s: State, c: CallId)
    requires TableInv(s) && At(s, c, Numbered)
    ensures var t := Apply(s, Register(c)); TableInv(t) && Forward(s, t)
  {
    hide IdOf;
    var t := Apply(s, Register(c));
    SettleSpec(s, s.callers[c].id, Lost);
    forall i | i in t.pending ensures EntryFits(t, i) {
      if i in s.pending { assert EntryFits(s, i); }
    }
    forall b | 0 <= b < |t.callers| ensures CallerFits(t, b) {
      assert CallerFits(s, b);
      if b != c && IdOf(b) == IdOf(c) && |s.callers| <= IDS { IdsDistinct(b, c); }
    }
  }

  lemma FailedWriteKeeps(s: State, a: Action)
    requires TableInv(s) && a.WriteReturns? && At(s, a.c, Writing) && (a.length > s.max || !a.io)
    ensures var t := Apply(s, a); TableInv(t) && Forward(s, t)
  {
    hide IdOf;
    var t := Apply(s, a);
    SettleSpec(s, s.callers[a.c].id, Lost);
    forall i | i in t.pending ensures EntryFits(t, i) { assert EntryFits(s, i); }
    forall b | 0 <= b < |t.callers| ensures CallerFits(t, b) {
      assert CallerFits(s, b);
      if b != a.c && IdOf(b) == IdOf(a.c) && |s.callers| <= IDS { IdsDistinct(b, a.c); }
    }
  }

  lemma DrainMoves(s: State, t: State, drain: Drain)
    requires Forward(s, t) && DrainFits(s, drain)
    ensures DrainFits(t, drain)
  {}

  lemma DrainStep(s: State, a: Action)
    requires Inv(s)
    ensures DrainInv(Apply(s, a))
  {
    hide TableInv, Forward, CallerFits, EntryFits, IdOf, ParseMessage;
    TableStep(s, a);
    var t := Apply(s, a);
    forall d | 0 <= d < |t.drains| ensures DrainFits(t, t.drains[d]) {
      if d == |s.drains| {
        BegunFits(s, a);
      } else {
        assert DrainFits(s, s.drains[d]);
        DrainMoves(s, t, s.drains[d]);
        if t.drains[d] != s.drains[d] { OneDrainStep(s, a, d); }
      }
    }
  }

  lemma BegunFits(s: State, a: Action)
    requires TableInv(s) && a.DrainBegin?
    ensures DrainFits(Apply(s, a), Drain(a.reason, Collecting, {}, s.pending))
  {
    SnapshotFits(s);
  }

  lemma OneDrainStep(s: State, a: Action, d: nat)
    requires TableInv(s) && d < |s.drains| && DrainFits(s, s.drains[d]) && DrainFits(Apply(s, a), s.drains[d])
    requires d < |Apply(s, a).drains| && Apply(s, a).drains[d] != s.drains[d]
    ensures DrainFits(Apply(s, a), Apply(s, a).drains[d])
  {
    hide IdOf, ParseMessage;
    if a.DrainCollected? { NothingMissed(s, s.drains[d]); }
    if a.DrainRemove? { RemovedIsSettled(s, a, s.drains[d]); }
  }

  lemma SnapshotFits(s: State)
    requires TableInv(s)
    ensures forall id | id in s.pending :: EntryFits(s, id) && s.callers[s.pending[id]].slot.Held?
  {
    forall id | id in s.pending ensures EntryFits(s, id) && s.callers[s.pending[id]].slot.Held? {
      assert EntryFits(s, id);
      assert CallerFits(s, s.pending[id]);
    }
  }

  lemma NothingMissed(s: State, drain: Drain)
    requires TableInv(s) && DrainFits(s, drain) && Seen(s, drain)
    ensures forall id | id in drain.owed && s.callers[drain.owed[id]].slot.Held? :: id in drain.keys
  {
    forall id | id in drain.owed && s.callers[drain.owed[id]].slot.Held? ensures id in drain.keys {
      assert CallerFits(s, drain.owed[id]);
    }
  }

  lemma RemovedIsSettled(s: State, a: Action, drain: Drain)
    requires TableInv(s) && a.DrainRemove? && In(s, a.d, Removing) && drain == s.drains[a.d] && a.id in drain.keys
    requires DrainFits(s, drain)
    ensures a.id in drain.owed ==> !Apply(s, a).callers[drain.owed[a.id]].slot.Held?
  {
    if a.id in drain.owed { assert CallerFits(s, drain.owed[a.id]); }
  }

  lemma CallerOfId(c: CallId)
    requires c < IDS
    ensures CallerOf(IdOf(c)) == c
  {}

  lemma KeysMove(s: State, t: State, keys: set<nat>)
    requires Forward(s, t) && KeysFit(s, keys)
    ensures KeysFit(t, keys)
  {}

  lemma KeysStep(s: State, a: Action)
    requires TableInv(s) && KeysInv(s)
    ensures KeysInv(Apply(s, a))
  {
    hide TableInv, Forward, CallerFits, EntryFits, IdOf, CallerOf, ParseMessage;
    TableStep(s, a);
    var t := Apply(s, a);
    forall d | 0 <= d < |t.drains| ensures KeysFit(t, t.drains[d].keys) {
      if d < |s.drains| {
        assert KeysFit(s, s.drains[d].keys);
        KeysMove(s, t, s.drains[d].keys);
        if a.DrainSee? && a.id in s.pending { EntryCaller(s, a.id); }
      }
    }
  }

  lemma EntryCaller(s: State, id: nat)
    requires TableInv(s) && id in s.pending
    ensures |s.callers| <= IDS ==> CallerOf(id) == s.pending[id]
    ensures s.pending[id] < |s.callers| && s.callers[s.pending[id]].slot.Held?
  {
    SnapshotFits(s);
    if |s.callers| <= IDS { CallerOfId(s.pending[id]); }
  }

  lemma ApplyKeeps(s: State, a: Action)
    requires Inv(s)
    ensures Inv(Apply(s, a)) && Forward(s, Apply(s, a))
  {
    TableStep(s, a);
    DrainStep(s, a);
    KeysStep(s, a);
  }

  lemma {:induction false} RunKeeps(s: State, actions: seq<Action>)
    requires Inv(s)
    ensures Inv(Run(s, actions)) && Forward(s, Run(s, actions))
    decreases |actions|
  {
    hide TableInv, DrainInv, KeysInv, Apply;
    if actions != [] {
      ApplyKeeps(s, actions[0]);
      RunKeeps(Apply(s, actions[0]), actions[1..]);
    }
  }

  lemma StartInv(max: nat)
    ensures Inv(Start(max))
  {}

  lemma {:induction false} RunAppend(s: State, before: seq<Action>, after: seq<Action>)
    ensures Run(s, before + after) == Run(Run(s, before), after)
    decreases |before|
  {
    if before == [] {
      assert before + after == after;
    } else {
      assert (before + after)[1..] == before[1..] + after;
      RunAppend(Apply(s, before[0]), before[1..], after);
    }
  }

  lemma RunFrom(s: State, actions: seq<Action>, k: nat)
    requires k < |actions|
    ensures Run(s, actions[k..]) == Run(Apply(s, actions[k]), actions[k + 1..])
  {
    assert actions[k..][1..] == actions[k + 1..];
  }
}
