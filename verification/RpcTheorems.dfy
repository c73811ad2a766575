// What holds over every run of the request table: callers are settled once, by the first response with
// their identifier or by a drain, and a drain settles what it found.
module RpcTheorems {
  import opened Wrappers
  import opened RpcTable

  // What the peer of a channel reads from each kind of frame it writes.
  function Meant(o: Outgoing): Message {
    match o
    case Call(id, methodName, params) =>
      Request(Some(id), methodName, if params.Null? then None else Some(params))
    case Notice(methodName, params) => Request(None, methodName, if params.Null? then None else Some(params))
    case Answer(id, result) => Response(id, Some(result), None)
    case Refusal(id, error) => Response(id, None, Some(error))
  }

  lemma WrittenIsRead(o: Outgoing)
    ensures ParseMessage(Written(o)) == Ok(Meant(o))
  {}

  // A caller is settled at most once, over any run.
  lemma SettledForGood(max: nat, before: seq<Action>, after: seq<Action>, c: CallId)
    requires var s := Run(Start(max), before);
             c < |s.callers| && (s.callers[c].slot.Sent? || s.callers[c].slot.Lost?)
    ensures var s := Run(Start(max), before);
            var t := Run(Start(max), before + after);
            c < |t.callers| && t.callers[c].slot == s.callers[c].slot
  {
    StartInv(max);
    RunKeeps(Start(max), before);
    RunKeeps(Run(Start(max), before), after);
    RunAppend(Start(max), before, after);
  }

  // What callers have come back with, in every reachable state: exactly what came through their channel,
  // and until identifiers wrap around nobody is told that the request was abandoned.
  lemma ResultsAreAnswers(max: nat, actions: seq<Action>, c: CallId)
    requires var s := Run(Start(max), actions); c < |s.callers|
    ensures var s := Run(Start(max), actions);
            var caller := s.callers[c];
            && (caller.slot.Held? <==> caller.id in s.pending && s.pending[caller.id] == c)
            && (forall v :: caller.place == Returned(Ok(v)) ==> caller.slot == Sent(Ok(v)))
            && (forall e :: caller.place == Returned(Err(RpcResponse(e))) ==> caller.slot == Sent(Err(e)))
            && (|s.callers| <= IDS ==>
                  && caller.place != Returned(Err(Abandoned))
                  && (caller.place.Waiting? || caller.place.Dropped? ==> caller.slot.Held? || caller.slot.Sent?))
  {
    StartInv(max);
    RunKeeps(Start(max), actions);
    assert CallerFits(Run(Start(max), actions), c);
  }

  // The reply in a response frame with this identifier, and the first such reply of a run.
  function ReplyIn(a: Action, id: nat): Option<Reply> {
    if !a.Arrive? then None
    else
      match ParseMessage(a.frame)
      case Ok(Response(i, result, error)) => if i == id then Some(AnswerOf(result, error)) else None
      case _ => None
  }

  function FirstReply(actions: seq<Action>, id: nat): Option<Reply>
    decreases |actions|
  {
    if actions == [] then None
    else if ReplyIn(actions[0], id).Some? then ReplyIn(actions[0], id)
    else FirstReply(actions[1..], id)
  }

  function Settled(reply: Option<Reply>): Slot { if reply.Some? then Sent(reply.value) else Held }

  // Nothing but a response settles the caller: no drain gets at it, and its own write goes well.
  predicate LeavesAlone(a: Action, max: nat, c: CallId) {
    && (a.DrainRemove? ==> a.id != IdOf(c))
    && (a.WriteReturns? && a.c == c ==> a.length <= max && a.io)
  }

  // Correlation: whatever the other callers and drains do, a registered caller gets the reply of the
  // first response with its identifier, and nothing as long as none has come.
  lemma {:induction false} FirstReplyAnswers(s: State, actions: seq<Action>, c: CallId)
    requires Inv(s) && c < |s.callers| && s.callers[c].slot.Held?
    requires |Run(s, actions).callers| <= IDS
    requires forall i | 0 <= i < |actions| :: LeavesAlone(actions[i], s.max, c)
    ensures var t := Run(s, actions);
            && c < |t.callers|
            && t.callers[c].slot == Settled(FirstReply(actions, IdOf(c)))
    decreases |actions|
  {
    hide Inv, Apply, IdOf, ParseMessage, LeavesAlone;
    if actions != [] {
      var t := Apply(s, actions[0]);
      ApplyKeeps(s, actions[0]);
      RunKeeps(t, actions[1..]);
      OneReply(s, actions[0], c);
      if t.callers[c].slot.Held? { FirstReplyAnswers(t, actions[1..], c); }
    }
  }

  lemma OneReply(s: State, a: Action, c: CallId)
    requires Inv(s) && c < |s.callers| && s.callers[c].slot.Held? && |Apply(s, a).callers| <= IDS
    requires LeavesAlone(a, s.max, c)
    ensures var t := Apply(s, a);
            && t.max == s.max && c < |t.callers|
            && t.callers[c].slot == Settled(ReplyIn(a, IdOf(c)))
  {
    hide IdOf;
    assert CallerFits(s, c);
    if (a.Register? || a.WriteReturns?) && a.c < |s.callers| {
      assert CallerFits(s, a.c);
      if IdOf(a.c) == IdOf(c) { IdsDistinct(a.c, c); }
    }
    forall i, slot ensures Settle(s, i, slot).callers[c].slot == if i == IdOf(c) then slot else Held {
      if i in s.pending { assert EntryFits(s, i); }
    }
  }

  // Once its answer is sent, a waiting call returns it, whatever happens before it wakes.
  lemma SettledComesBack(s: State, c: CallId, first: Action, reply: Reply, between: seq<Action>)
    requires Inv(s) && At(Apply(s, first), c, Waiting) && Apply(s, first).callers[c].slot == Sent(reply)
    requires forall i | 0 <= i < |between| :: between[i] != Wake(c) && between[i] != DropCaller(c)
    ensures At(Run(s, [first] + between + [Wake(c)]), c,
               Returned(if reply.Ok? then Ok(reply.value) else Err(RpcResponse(reply.error))))
  {
    var t := Apply(s, first);
    ApplyKeeps(s, first);
    hide Inv, Apply, Run;
    RunKeeps(t, between);
    StillWaiting(t, c, between);
    RunTwice(s, first, between, Wake(c));
    WakesWith(Run(t, between), c, reply);
  }

  lemma RunTwice(s: State, first: Action, between: seq<Action>, last: Action)
    ensures Run(s, [first] + between + [last]) == Apply(Run(Apply(s, first), between), last)
  {
    hide Apply;
    assert ([first] + between + [last])[1..] == between + [last];
    RunAppend(Apply(s, first), between, [last]);
    RunFrom(Run(Apply(s, first), between), [last], 0);
  }

  lemma WakesWith(s: State, c: CallId, reply: Reply)
    requires At(s, c, Waiting) && s.callers[c].slot == Sent(reply)
    ensures At(Apply(s, Wake(c)), c, Returned(if reply.Ok? then Ok(reply.value) else Err(RpcResponse(reply.error))))
  {}

  // Round trip: the result or the error the peer answers with comes out of the waiting call, whatever
  // happens between.
  lemma AnswerComesBack(s: State, c: CallId, result: Value, between: seq<Action>)
    requires Inv(s) && At(s, c, Waiting) && s.callers[c].slot.Held?
    requires forall i | 0 <= i < |between| :: between[i] != Wake(c) && between[i] != DropCaller(c)
    ensures At(Run(s, [Arrive(Written(Answer(IdOf(c), result)))] + between + [Wake(c)]), c, Returned(Ok(result)))
  {
    assert CallerFits(s, c);
    hide Run;
    SettledComesBack(s, c, Arrive(Written(Answer(IdOf(c), result))), Ok(result), between);
  }

  lemma RefusalComesBack(s: State, c: CallId, error: RpcError, between: seq<Action>)
    requires Inv(s) && At(s, c, Waiting) && s.callers[c].slot.Held?
    requires forall i | 0 <= i < |between| :: between[i] != Wake(c) && between[i] != DropCaller(c)
    ensures At(Run(s, [Arrive(Written(Refusal(IdOf(c), error)))] + between + [Wake(c)]), c,
               Returned(Err(RpcResponse(error))))
  {
    assert CallerFits(s, c);
    hide Run;
    SettledComesBack(s, c, Arrive(Written(Refusal(IdOf(c), error))), Err(error), between);
  }

  // A call that a drain takes out of the table fails with the reason of the drain.
  lemma DrainedCallFails(s: State, d: nat, c: CallId, between: seq<Action>)
    requires Inv(s) && At(s, c, Waiting) && s.callers[c].slot.Held?
    requires In(s, d, Removing) && IdOf(c) in s.drains[d].keys
    requires forall i | 0 <= i < |between| :: between[i] != Wake(c) && between[i] != DropCaller(c)
    ensures At(Run(s, [DrainRemove(d, IdOf(c))] + between + [Wake(c)]), c,
               Returned(Err(RpcResponse(RpcError(-32000, s.drains[d].reason, None)))))
  {
    assert CallerFits(s, c);
    hide Run;
    SettledComesBack(s, c, DrainRemove(d, IdOf(c)), Err(RpcError(-32000, s.drains[d].reason, None)), between);
  }

  lemma {:induction false} StillWaiting(s: State, c: CallId, actions: seq<Action>)
    requires Inv(s) && At(s, c, Waiting)
    requires forall i | 0 <= i < |actions| :: actions[i] != Wake(c) && actions[i] != DropCaller(c)
    ensures At(Run(s, actions), c, Waiting)
    decreases |actions|
  {
    hide Inv;
    if actions != [] {
      hide Apply;
      ApplyKeeps(s, actions[0]);
      WaitsOn(s, c, actions[0]);
      StillWaiting(Apply(s, actions[0]), c, actions[1..]);
    }
  }

  lemma WaitsOn(s: State, c: CallId, a: Action)
    requires At(s, c, Waiting) && a != Wake(c) && a != DropCaller(c)
    ensures At(Apply(s, a), c, Waiting)
  {
    hide ParseMessage;
  }

  // ---- where answers come from ----

  // A response frame with this identifier carries this reply.
  predicate Answers(a: Action, id: nat, reply: Reply) {
    && a.Arrive? && ParseMessage(a.frame).Ok?
    && var m := ParseMessage(a.frame).value;
    && m.Response? && m.id == id
    && match reply
       case Err(e) => m.error == Some(e)
       case Ok(v) => m.error.None? && v == if m.result.Some? then m.result.value else Null
  }

  predicate Aborts(a: Action, reply: Reply) {
    a.DrainBegin? && reply == Err(RpcError(-32000, a.reason, None))
  }

  // Every answer and every drain goes back to something that happened.
  ghost predicate Sourced(s: State, past: seq<Action>) {
    && (forall c | 0 <= c < |s.callers| && s.callers[c].slot.Sent? ::
          exists a :: a in past
                      && (Answers(a, IdOf(c), s.callers[c].slot.reply) || Aborts(a, s.callers[c].slot.reply)))
    && (forall d | 0 <= d < |s.drains| :: DrainBegin(s.drains[d].reason) in past)
  }

  lemma SourceStep(s: State, past: seq<Action>, a: Action)
    requires Inv(s) && Sourced(s, past)
    ensures Sourced(Apply(s, a), past + [a])
  {
    hide IdOf, ParseMessage, Answers, Aborts;
    var t := Apply(s, a);
    forall c | 0 <= c < |t.callers| && t.callers[c].slot.Sent?
      ensures exists b :: b in past + [a]
                          && (Answers(b, IdOf(c), t.callers[c].slot.reply) || Aborts(b, t.callers[c].slot.reply))
    {
      NewAnswer(s, past, a, c);
    }
    forall d | 0 <= d < |t.drains| ensures DrainBegin(t.drains[d].reason) in past + [a] {
      if d < |s.drains| { DrainKeptOnce(s, d, a); }
    }
  }

  lemma NewAnswer(s: State, past: seq<Action>, a: Action, c: CallId)
    requires Inv(s) && Sourced(s, past)
    requires c < |Apply(s, a).callers| && Apply(s, a).callers[c].slot.Sent?
    ensures var reply := Apply(s, a).callers[c].slot.reply;
            exists b :: b in past + [a] && (Answers(b, IdOf(c), reply) || Aborts(b, reply))
  {
    ApplyKeeps(s, a);
    hide Inv, Apply, Answers, Aborts, IdOf;
    SentIsOld(s, a, c);
    var reply := Apply(s, a).callers[c].slot.reply;
    if !s.callers[c].slot.Sent? {
      assert a in past + [a];
      if a.Arrive? {
        ArrivalAnswers(s, a, c);
      } else {
        RemovalAborts(s, a, c);
        var begun := DrainBegin(s.drains[a.d].reason);
        assert begun in past && Aborts(begun, reply);
      }
    }
  }

  // An answer is there before the step, or the step is an arrival or a removal by a drain.
  lemma SentIsOld(s: State, a: Action, c: CallId)
    requires c < |Apply(s, a).callers| && Apply(s, a).callers[c].slot.Sent? && Forward(s, Apply(s, a))
    ensures c < |s.callers|
    ensures s.callers[c].slot.Sent? ==> s.callers[c].slot == Apply(s, a).callers[c].slot
    ensures !s.callers[c].slot.Sent? ==> a.Arrive? || a.DrainRemove?
  {
    hide ParseMessage, IdOf;
  }

  lemma ArrivalAnswers(s: State, a: Action, c: CallId)
    requires Inv(s) && a.Arrive? && c < |s.callers| && !s.callers[c].slot.Sent?
    requires c < |Apply(s, a).callers| && Apply(s, a).callers[c].slot.Sent?
    ensures Answers(a, IdOf(c), Apply(s, a).callers[c].slot.reply)
  {
    hide IdOf, ParseMessage;
    ArriveMeans(s, a.frame);
    assert CallerFits(s, c);
    var m := ParseMessage(a.frame);
    if m.Ok? && m.value.Response? && m.value.id in s.pending { assert EntryFits(s, m.value.id); }
  }

  lemma RemovalAborts(s: State, a: Action, c: CallId)
    requires Inv(s) && a.DrainRemove? && c < |s.callers| && !s.callers[c].slot.Sent?
    requires c < |Apply(s, a).callers| && Apply(s, a).callers[c].slot.Sent?
    ensures a.d < |s.drains| && Aborts(DrainBegin(s.drains[a.d].reason), Apply(s, a).callers[c].slot.reply)
  {
    hide IdOf;
  }

  lemma {:induction false} SourcesRun(s: State, past: seq<Action>, actions: seq<Action>)
    requires Inv(s) && Sourced(s, past)
    ensures Sourced(Run(s, actions), past + actions)
    decreases |actions|
  {
    hide Inv, Apply, Sourced;
    if actions == [] {
      assert past + [] == past;
    } else {
      SourceStep(s, past, actions[0]);
      ApplyKeeps(s, actions[0]);
      SourcesRun(Apply(s, actions[0]), past + [actions[0]], actions[1..]);
      assert past + [actions[0]] + actions[1..] == past + actions;
    }
  }

  // In every run, a call that returns a result returns the result of a response frame with its
  // identifier, and one that returns an error of the peer the error of such a frame or of a drain.
  lemma EveryAnswerHasASource(max: nat, actions: seq<Action>, c: CallId)
    requires var s := Run(Start(max), actions); c < |s.callers| && s.callers[c].place.Returned?
    ensures var r := Run(Start(max), actions).callers[c].place.result;
            && (r.Ok? ==> exists a :: a in actions && Answers(a, IdOf(c), Ok(r.value)))
            && (r.Err? && r.error.RpcResponse? ==>
                  exists a :: a in actions
                              && (Answers(a, IdOf(c), Err(r.error.error)) || Aborts(a, Err(r.error.error))))
  {
    StartInv(max);
    ResultsAreAnswers(max, actions, c);
    SourcesRun(Start(max), [], actions);
    assert [] + actions == actions;
  }

  // ---- drains ----

  lemma {:induction false} DrainKept(s: State, d: nat, actions: seq<Action>)
    requires d < |s.drains|
    ensures var t := Run(s, actions); d < |t.drains| && t.drains[d].owed == s.drains[d].owed
    decreases |actions|
  {
    if actions != [] {
      DrainKeptOnce(s, d, actions[0]);
      hide Apply;
      DrainKept(Apply(s, actions[0]), d, actions[1..]);
    }
  }

  lemma DrainKeptOnce(s: State, d: nat, a: Action)
    requires d < |s.drains|
    ensures var t := Apply(s, a); d < |t.drains| && t.drains[d].owed == s.drains[d].owed
  {
    hide ParseMessage;
  }

  // A drain that has ended has settled every caller that was in the table when it began, although the
  // table changes while it is copied and while its keys are removed, and other drains run beside it.
  lemma DrainSettlesAll(s: State, reason: string, actions: seq<Action>, c: CallId)
    requires Inv(s) && c < |s.callers| && s.callers[c].slot.Held?
    requires In(Run(s, [DrainBegin(reason)] + actions), |s.drains|, Done)
    ensures var t := Run(s, [DrainBegin(reason)] + actions);
            c < |t.callers| && (t.callers[c].slot.Sent? || t.callers[c].slot.Lost?)
  {
    var begun := Apply(s, DrainBegin(reason));
    assert ([DrainBegin(reason)] + actions)[1..] == actions;
    ApplyKeeps(s, DrainBegin(reason));
    assert CallerFits(s, c) && begun.drains[|s.drains|].owed == s.pending;
    DrainKept(begun, |s.drains|, actions);
    RunKeeps(begun, actions);
    var t := Run(begun, actions);
    assert DrainFits(t, t.drains[|s.drains|]);
  }

  // ---- the last drain ----

  // No drain other than `d` is under way, and `d` has copied its keys.
  predicate Last(s: State, d: nat) {
    && d < |s.drains| && !s.drains[d].phase.Collecting?
    && forall e | 0 <= e < |s.drains| && e != d :: s.drains[e].phase.Done?
  }

  // The reader has stopped and no drain begins.
  predicate Quiet(a: Action) { !a.Arrive? && !a.DrainBegin? }

  // The drain has still to come to this caller.
  predicate Listed(s: State, d: nat, c: CallId)
    requires d < |s.drains|
  {
    c < |s.callers| && s.callers[c].slot.Held? && s.drains[d].phase.Removing? && IdOf(c) in s.drains[d].keys
  }

  predicate Answered(s: State, c: CallId) { c < |s.callers| && s.callers[c].slot.Sent? }

  predicate WriteFailed(caller: Caller) {
    caller.place.Returned? && caller.place.result.Err? && !caller.place.result.error.RpcResponse?
  }

  lemma LastStays(s: State, d: nat, a: Action)
    requires Last(s, d) && Quiet(a)
    ensures Last(Apply(s, a), d) && Apply(s, a).drains[d].reason == s.drains[d].reason
  {
    hide ParseMessage, IdOf;
  }

  lemma ListedStays(s: State, d: nat, a: Action, c: CallId)
    requires Inv(s) && Last(s, d) && Quiet(a) && Listed(s, d, c)
    ensures var t := Apply(s, a);
            && d < |t.drains| && c < |t.callers| && !t.callers[c].slot.Idle?
            && (t.callers[c].slot.Held? ==> Listed(t, d, c))
            && (t.callers[c].slot.Sent? ==>
                  t.callers[c].slot.reply == Err(RpcError(-32000, s.drains[d].reason, None)))
  {
    hide ParseMessage, IdOf;
    ApplyKeeps(s, a);
    assert CallerFits(s, c);
  }

  lemma UnlistedStays(s: State, d: nat, a: Action, c: CallId)
    requires Inv(s) && Last(s, d) && Quiet(a) && |Apply(s, a).callers| <= IDS
    requires !Answered(s, c) && !Listed(s, d, c)
    ensures var t := Apply(s, a); d < |t.drains| && !Answered(t, c) && !Listed(t, d, c)
  {
    hide ParseMessage, IdOf, CallerOf;
    if a.Register? && At(s, a.c, Numbered) {
      RegisteredIsUnlisted(s, d, a.c);
      SettleSpec(s, s.callers[a.c].id, Lost);
    } else if a.WriteReturns? && At(s, a.c, Writing) {
      SettleSpec(s, s.callers[a.c].id, Lost);
    } else if a.DrainRemove? && In(s, a.d, Removing) && a.id in s.drains[a.d].keys {
      assert c < |s.callers| ==> CallerFits(s, c);
      SettleSpec(s, a.id, Sent(DrainReply(s.drains[a.d].reason)));
      assert a.id in s.pending ==> EntryFits(s, a.id);
    }
  }

  lemma RegisteredIsUnlisted(s: State, d: nat, c: CallId)
    requires Inv(s) && d < |s.drains| && At(s, c, Numbered) && |s.callers| <= IDS
    ensures s.callers[c].id == IdOf(c) && IdOf(c) !in s.drains[d].keys
  {
    assert CallerFits(s, c) && KeysFit(s, s.drains[d].keys);
    CallerOfId(c);
  }

  // The last drain answers exactly the callers whose keys it copied, with its reason: a request that
  // enters the table later waits until another drain begins, unless its write fails.
  lemma {:induction false} LastDrainExactly(s: State, d: nat, actions: seq<Action>, c: CallId)
    requires Inv(s) && Last(s, d) && !Answered(s, c)
    requires forall i | 0 <= i < |actions| :: Quiet(actions[i])
    requires |Run(s, actions).callers| <= IDS && In(Run(s, actions), d, Done)
    requires c < |Run(s, actions).callers| && !WriteFailed(Run(s, actions).callers[c])
    ensures Answered(Run(s, actions), c) <==> Listed(s, d, c)
    ensures Answered(Run(s, actions), c) ==>
              Run(s, actions).callers[c].slot == Sent(Err(RpcError(-32000, s.drains[d].reason, None)))
    decreases |actions|
  {
    hide Inv, Apply, Listed, Answered;
    var t := Run(s, actions);
    if actions == [] {
      NotListedWhenDone(s, d, c);
    } else {
      var next := Apply(s, actions[0]);
      ApplyKeeps(s, actions[0]);
      RunKeeps(next, actions[1..]);
      LastStays(s, d, actions[0]);
      if Listed(s, d, c) {
        ListedStays(s, d, actions[0], c);
        AnsweredOrListed(next, t, d, c);
      } else {
        UnlistedStays(s, d, actions[0], c);
      }
      if Answered(next, c) {
        StaysAnswered(next, t, c);
      } else {
        LastDrainExactly(next, d, actions[1..], c);
      }
    }
  }

  lemma AnsweredOrListed(s: State, t: State, d: nat, c: CallId)
    requires Inv(t) && Forward(s, t) && |t.callers| <= IDS
    requires c < |s.callers| && !s.callers[c].slot.Idle? && !WriteFailed(t.callers[c]) && d < |s.drains|
    requires s.callers[c].slot.Held? ==> Listed(s, d, c)
    ensures Answered(s, c) || Listed(s, d, c)
  {
    assert CallerFits(t, c);
  }

  lemma NotListedWhenDone(s: State, d: nat, c: CallId)
    requires In(s, d, Done)
    ensures !Listed(s, d, c)
  {}

  lemma StaysAnswered(s: State, t: State, c: CallId)
    requires Forward(s, t) && Answered(s, c)
    ensures Answered(t, c) && t.callers[c].slot == s.callers[c].slot
  {}

  // A drain misses a caller that is between taking its number and entering the table; its write, of a
  // request of any length that is allowed, goes well, and it waits until another drain begins.
  function Late(length: nat): seq<Action> {
    [TakeNumber, DrainBegin("exited"), DrainCollected(0), DrainEnd(0), Register(0), WriteReturns(0, length, true)]
  }

  lemma LateRequestWaits(max: nat, length: nat, actions: seq<Action>)
    requires 0 < length <= max
    requires forall i | 0 <= i < |actions| :: Quiet(actions[i]) && actions[i] != DropCaller(0)
    requires |Run(Start(max), Late(length) + actions).callers| <= IDS
    ensures At(Run(Start(max), Late(length) + actions), 0, Waiting)
  {
    hide Late;
    var late := Run(Start(max), Late(length));
    LateState(max, length);
    StartInv(max);
    RunKeeps(Start(max), Late(length));
    RunAppend(Start(max), Late(length), actions);
    NeverSettled(late, actions);
  }

  lemma LateState(max: nat, length: nat)
    requires length <= max
    ensures var t := Run(Start(max), Late(length));
            Last(t, 0) && In(t, 0, Done) && t.callers == [Caller(1, Waiting, Held)]
  {
    var late := Late(length);
    var s1 := Apply(Start(max), late[0]);
    var s2 := Apply(s1, late[1]);
    var s3 := Apply(s2, late[2]);
    var s4 := Apply(s3, late[3]);
    var s5 := Apply(s4, late[4]);
    assert s4.drains == [Drain("exited", Done, {}, map[])];
    var s6 := Apply(s5, late[5]);
    hide Apply;
    RunFrom(Start(max), late, 0);
    RunFrom(s1, late, 1);
    RunFrom(s2, late, 2);
    RunFrom(s3, late, 3);
    RunFrom(s4, late, 4);
    RunFrom(s5, late, 5);
    assert late[6..] == [] && late[0..] == late;
  }

  lemma {:induction false} NeverSettled(s: State, actions: seq<Action>)
    requires Inv(s) && Last(s, 0) && In(s, 0, Done) && At(s, 0, Waiting) && s.callers[0].slot.Held?
    requires forall i | 0 <= i < |actions| :: Quiet(actions[i]) && actions[i] != DropCaller(0)
    requires |Run(s, actions).callers| <= IDS
    ensures At(Run(s, actions), 0, Waiting)
    decreases |actions|
  {
    hide Inv, Apply;
    if actions != [] {
      var next := Apply(s, actions[0]);
      ApplyKeeps(s, actions[0]);
      RunKeeps(next, actions[1..]);
      HeldStays(s, actions[0]);
      NeverSettled(next, actions[1..]);
    }
  }

  lemma HeldStays(s: State, a: Action)
    requires Inv(s) && Last(s, 0) && In(s, 0, Done) && At(s, 0, Waiting) && s.callers[0].slot.Held?
    requires Quiet(a) && a != DropCaller(0) && |Apply(s, a).callers| <= IDS
    ensures var t := Apply(s, a);
            Last(t, 0) && In(t, 0, Done) && At(t, 0, Waiting) && t.callers[0].slot.Held?
  {
    hide ParseMessage, IdOf;
    LastStays(s, 0, a);
    if a != Wake(0) { WaitsOn(s, 0, a); }
    UnlistedStays(s, 0, a, 0);
    ApplyKeeps(s, a);
    assert CallerFits(Apply(s, a), 0);
  }

  // ---- what a frame is ----

  // A frame is a response if and only if it is of version 2.0, has an unsigned identifier and a result or
  // an error, and the error, if present, decodes.
  lemma ResponseExactly(frame: Frame, id: nat, result: Option<Value>, error: Option<RpcError>)
    ensures ParseMessage(frame) == Ok(Response(id, result, error)) <==>
            && frame.Object? && frame.version == Some("2.0") && frame.id == Some(id)
            && (frame.result.Some? || frame.error.Some?)
            && frame.result == result
            && frame.error == if error.Some? then Some(error) else None
  {}

  // It is a request if and only if it is of version 2.0, has neither result nor error, and names a method.
  lemma RequestExactly(frame: Frame, caller: Option<nat>, methodName: string, params: Option<Value>)
    ensures ParseMessage(frame) == Ok(Request(caller, methodName, params)) <==>
            && frame.Object? && frame.version == Some("2.0")
            && frame.result.None? && frame.error.None?
            && frame.id == caller && frame.methodName == Some(methodName) && frame.params == params
  {}

  // Where a frame goes: a response to a call in the table takes the call out and answers it with the error
  // if there is one, else with the result or null; every other message is handed on; a malformed frame
  // changes nothing by itself.
  lemma ArriveMeans(s: State, frame: Frame)
    requires Inv(s)
    ensures var t := Apply(s, Arrive(frame));
            match ParseMessage(frame)
            case Err(_) => t == s
            case Ok(Request(_, _, _)) => t == s.(handedOn := s.handedOn + [ParseMessage(frame).value])
            case Ok(Response(id, result, error)) =>
              if id !in s.pending then t == s.(handedOn := s.handedOn + [ParseMessage(frame).value])
              else
                && s.pending[id] < |s.callers|
                && t.handedOn == s.handedOn && t.drains == s.drains && t.pending == s.pending - {id}
                && t.callers == s.callers[s.pending[id] := s.callers[s.pending[id]].(slot :=
                     Sent(if error.Some? then Err(error.value)
                          else if result.Some? then Ok(result.value) else Ok(Null)))]
  {
    hide ParseMessage;
    match ParseMessage(frame)
    case Ok(Response(id, _, _)) => if id in s.pending { assert EntryFits(s, id); }
    case _ =>
  }

  // Callers are numbered 1, 2, 3, ... in the order they come, in every run of fewer than 2^64 - 1 of them;
  // so no two share a number.
  lemma NumbersInOrder(max: nat, actions: seq<Action>, c: CallId)
    requires var n := |Run(Start(max), actions).callers|; c < n < 0xFFFF_FFFF_FFFF_FFFF
    ensures Run(Start(max), actions).callers[c].id == c + 1
  {
    StartInv(max);
    RunKeeps(Start(max), actions);
    assert CallerFits(Run(Start(max), actions), c);
  }
}
