// The session runtime as a state machine. One action is one stretch of code that runs without
// giving way to another task or thread: a locked section, or the return of an awaited operation.
// Entries, clocks and destroy calls are named by identities, as the shared references name them.
module SessionMachine {
  import opened Wrappers

  type EntryId = nat
  type ClockId = nat
  type CallId = nat
  type Event = nat

  const MAX_SEQ: nat := 0xFFFF_FFFF_FFFF_FFFF

  // SessionSeq::next saturates.
  function Next(n: nat): nat { if n < MAX_SEQ then n + 1 else MAX_SEQ }

  datatype Envelope = Envelope(session: string, sequence: nat, event: Event)

  // `history` records what the clock has stamped so far.
  datatype Clock = Clock(next: nat, history: seq<Envelope>)

  const NEW_CLOCK := Clock(1, [])

  // A registration: its session, handle and clock, the completion flag, and the destroy call that
  // holds the flag's lock.
  datatype Entry = Entry(session: string, handle: nat, clock: ClockId, completed: bool, lock: Option<CallId>)

  datatype Phase =
    | Waiting
    | Joining
    | Persisting
    | Draining
    | Stamping(events: seq<Event>)
    | Removing(envelopes: seq<Envelope>)
    | Finishing(envelopes: seq<Envelope>)
    | Done(envelopes: seq<Envelope>)
    | Failed
    | Cancelled

  // What a destroy call has done so far.
  datatype Effect =
    | StopAccepting
    | CancelOwned
    | Joined(inTime: bool)
    | Abort
    | Persisted(ok: bool)
    | Drain
    | Stamp
    | Unmap

  datatype Call = Call(session: string, entry: EntryId, phase: Phase, trace: seq<Effect>)

  datatype State = State(
    sessions: map<string, EntryId>,
    entries: map<EntryId, Entry>,
    clocks: map<ClockId, Clock>,
    calls: map<CallId, Call>)

  const INITIAL := State(map[], map[], map[], map[])

  // Identities of new objects are chosen by the action and must be unused.
  datatype Action =
    | Register(session: string, handle: nat, entry: EntryId, clock: ClockId)
    | RegisterOrReplace(session: string, handle: nat, entry: EntryId, clock: ClockId)
    | StampOne(session: string, event: Event)
    | Begin(call: CallId, session: string)
    | Acquire(call: CallId)
    | JoinReturns(call: CallId, inTime: bool)
    | PersistReturns(call: CallId, ok: bool)
    | DrainEvents(call: CallId, events: seq<Event>)
    | StampEvents(call: CallId)
    | Remove(call: CallId)
    | Finish(call: CallId)
    | Cancel(call: CallId)

  // ---- clocks ----

  function Tick(c: Clock, session: string, e: Event): Clock {
    Clock(Next(c.next), c.history + [Envelope(session, c.next, e)])
  }

  function TickAll(c: Clock, session: string, events: seq<Event>): Clock
    decreases |events|
  {
    if events == [] then c else TickAll(Tick(c, session, events[0]), session, events[1..])
  }

  // The envelopes that stamping these events will produce.
  function Stamped(c: Clock, session: string, events: seq<Event>): seq<Envelope>
    decreases |events|
  {
    if events == [] then []
    else [Envelope(session, c.next, events[0])] + Stamped(Tick(c, session, events[0]), session, events[1..])
  }

  // ---- helpers on the state ----

  predicate Known(s: State, c: CallId) { c in s.calls && s.calls[c].entry in s.entries }

  function Moved(s: State, c: CallId, phase: Phase, effects: seq<Effect>): State
    requires c in s.calls
  {
    s.(calls := s.calls[c := s.calls[c].(phase := phase, trace := s.calls[c].trace + effects)])
  }

  function WithEntry(s: State, e: EntryId, entry: Entry): State { s.(entries := s.entries[e := entry]) }

  function Unlocked(s: State, c: CallId): State
    requires c in s.calls && s.calls[c].entry in s.entries
  {
    var e := s.calls[c].entry;
    if s.entries[e].lock == Some(c) then WithEntry(s, e, s.entries[e].(lock := None)) else s
  }

  predicate FreshIds(s: State, e: EntryId, k: ClockId) { e !in s.entries && k !in s.clocks }

  // ---- actions ----

  function ApplyRegister(s: State, session: string, handle: nat, e: EntryId, k: ClockId): State {
    if session in s.sessions || !FreshIds(s, e, k) then s
    else State(s.sessions[session := e], s.entries[e := Entry(session, handle, k, false, None)],
               s.clocks[k := NEW_CLOCK], s.calls)
  }

  // The new entry takes over the clock of the one it replaces.
  function ApplyReplace(s: State, session: string, handle: nat, e: EntryId, k: ClockId): State {
    if !FreshIds(s, e, k) then s
    else if session in s.sessions && s.sessions[session] in s.entries then
      var clock := s.entries[s.sessions[session]].clock;
      s.(sessions := s.sessions[session := e], entries := s.entries[e := Entry(session, handle, clock, false, None)])
    else State(s.sessions[session := e], s.entries[e := Entry(session, handle, k, false, None)],
               s.clocks[k := NEW_CLOCK], s.calls)
  }

  function ApplyStamp(s: State, session: string, event: Event): State {
    if session !in s.sessions || s.sessions[session] !in s.entries then s
    else
      var k := s.entries[s.sessions[session]].clock;
      if k !in s.clocks then s else s.(clocks := s.clocks[k := Tick(s.clocks[k], session, event)])
  }

  function ApplyBegin(s: State, c: CallId, session: string): State {
    if c in s.calls || session !in s.sessions then s
    else s.(calls := s.calls[c := Call(session, s.sessions[session], Waiting, [])])
  }

  // Taking the completion lock: a completed entry is answered with no events at once.
  function ApplyAcquire(s: State, c: CallId): State {
    if !Known(s, c) || !s.calls[c].phase.Waiting? then s
    else
      var e := s.calls[c].entry;
      if s.entries[e].lock.Some? then s
      else if s.entries[e].completed then Moved(s, c, Done([]), [])
      else WithEntry(Moved(s, c, Joining, [StopAccepting, CancelOwned]), e, s.entries[e].(lock := Some(c)))
  }

  function ApplyJoin(s: State, c: CallId, inTime: bool): State {
    if !Known(s, c) || !s.calls[c].phase.Joining? then s
    else Moved(s, c, Persisting, [Joined(inTime)] + if inTime then [] else [Abort])
  }

  function ApplyPersist(s: State, c: CallId, ok: bool): State {
    if !Known(s, c) || !s.calls[c].phase.Persisting? then s
    else if ok then Moved(s, c, Draining, [Persisted(true)])
    else Unlocked(Moved(s, c, Failed, [Persisted(false)]), c)
  }

  function ApplyDrain(s: State, c: CallId, events: seq<Event>): State {
    if !Known(s, c) || !s.calls[c].phase.Draining? then s else Moved(s, c, Stamping(events), [Drain])
  }

  function ApplyStampEvents(s: State, c: CallId): State {
    if !Known(s, c) || !s.calls[c].phase.Stamping? || s.entries[s.calls[c].entry].clock !in s.clocks then s
    else
      var call := s.calls[c];
      var k := s.entries[call.entry].clock;
      var clock := s.clocks[k];
      Moved(s, c, Removing(Stamped(clock, call.session, call.phase.events)), [Stamp])
        .(clocks := s.clocks[k := TickAll(clock, call.session, call.phase.events)])
  }

  // The mapping is removed only while it still holds the captured entry.
  function ApplyRemove(s: State, c: CallId): State {
    if !Known(s, c) || !s.calls[c].phase.Removing? then s
    else
      var call := s.calls[c];
      if call.session in s.sessions && s.sessions[call.session] == call.entry
      then Moved(s, c, Finishing(call.phase.envelopes), [Unmap]).(sessions := s.sessions - {call.session})
      else Moved(s, c, Finishing(call.phase.envelopes), [])
  }

  function ApplyFinish(s: State, c: CallId): State {
    if !Known(s, c) || !s.calls[c].phase.Finishing? then s
    else
      var call := s.calls[c];
      WithEntry(Moved(s, c, Done(call.phase.envelopes), []), call.entry,
                s.entries[call.entry].(completed := true, lock := None))
  }

  // A call can be dropped only while it awaits the lock, the join or the persistence.
  predicate Awaiting(p: Phase) { p.Waiting? || p.Joining? || p.Persisting? }

  function ApplyCancel(s: State, c: CallId): State {
    if !Known(s, c) || !Awaiting(s.calls[c].phase) then s else Unlocked(Moved(s, c, Cancelled, []), c)
  }

  function Apply(s: State, a: Action): State {
    match a
    case Register(session, handle, e, k) => ApplyRegister(s, session, handle, e, k)
    case RegisterOrReplace(session, handle, e, k) => ApplyReplace(s, session, handle, e, k)
    case StampOne(session, event) => ApplyStamp(s, session, event)
    case Begin(c, session) => ApplyBegin(s, c, session)
    case Acquire(c) => ApplyAcquire(s, c)
    case JoinReturns(c, inTime) => ApplyJoin(s, c, inTime)
    case PersistReturns(c, ok) => ApplyPersist(s, c, ok)
    case DrainEvents(c, events) => ApplyDrain(s, c, events)
    case StampEvents(c) => ApplyStampEvents(s, c)
    case Remove(c) => ApplyRemove(s, c)
    case Finish(c) => ApplyFinish(s, c)
    case Cancel(c) => ApplyCancel(s, c)
  }

  function Run(s: State, actions: seq<Action>): State
    decreases |actions|
  {
    if actions == [] then s else Run(Apply(s, actions[0]), actions[1..])
  }
}
