// The session's registry of remote skills: a second discovery machine next to the command registry,
// and the proof that the two stay in step.
module McpSkills {
  import opened Wrappers
  import opened CommandName
  import opened RegistryIndex
  import opened RegistryState

  // A skill as far as the registry looks at it: its name, and the rest as an opaque identity.
  datatype Skill = Skill(name: string, content: nat)

  datatype Server = ServerStarted(handle: Handle) | ServerDiscovered(handle: Handle, skills: seq<Skill>)

  type Servers = map<string, Server>

  datatype ServerOp =
    | Project(connected: seq<(string, Handle)>)
    | Start(server: string, handle: Handle)
    | Complete(server: string, handle: Handle, skills: seq<Skill>)
    | Refresh(server: string, handle: Handle, skills: seq<Skill>)
    | Clear(server: string, handle: Handle)

  predicate ServerCurrent(servers: Servers, server: string, handle: Handle) {
    server in servers && servers[server].handle == handle
  }

  function Disconnected(servers: Servers, connected: seq<(string, Handle)>): set<string> {
    set k | k in servers && forall c | c in connected :: c.0 != k
  }

  function Unseen(servers: Servers, connected: seq<(string, Handle)>): seq<(string, Handle)> {
    if connected == [] then []
    else
      (if ServerCurrent(servers, connected[0].0, connected[0].1) then [] else [connected[0]])
      + Unseen(servers, connected[1..])
  }

  function Step(servers: Servers, op: ServerOp): Servers {
    match op
    case Project(connected) => servers - Disconnected(servers, connected)
    case Start(server, handle) => servers[server := ServerStarted(handle)]
    case Complete(server, handle, skills) =>
      if ServerCurrent(servers, server, handle) then servers[server := ServerDiscovered(handle, skills)] else servers
    case Refresh(server, handle, skills) =>
      if ServerCurrent(servers, server, handle) && servers[server].ServerDiscovered?
      then servers[server := ServerDiscovered(handle, skills)] else servers
    case Clear(server, handle) =>
      if server in servers && servers[server] == ServerStarted(handle) then servers - {server} else servers
  }

  function SkillNames(skills: seq<Skill>): set<string> { set s | s in skills :: Lower(s.name) }

  // The skill names a server offers.
  function Offered(servers: Servers, server: string): set<string> {
    if server in servers && servers[server].ServerDiscovered? then SkillNames(servers[server].skills) else {}
  }

  function StepFires(servers: Servers, op: ServerOp): bool {
    match op
    case Project(connected) => Disconnected(servers, connected) != {}
    case Start(server, _) => server in servers && servers[server].ServerDiscovered? && servers[server].skills != []
    case Complete(server, handle, skills) =>
      ServerCurrent(servers, server, handle) && Offered(servers, server) != SkillNames(skills)
    case Refresh(server, handle, skills) =>
      && ServerCurrent(servers, server, handle) && servers[server].ServerDiscovered?
      && (servers[server].skills != [] || skills != [])
    case Clear(_, _) => false
  }

  class McpSkillRegistry {
    var servers: Servers
    var callback: bool
    var notified: nat

    constructor ()
      ensures servers == map[] && !callback && notified == 0
    {
      servers, callback, notified := map[], false, 0;
    }

    method Notify(fire: bool)
      modifies this`notified
      ensures notified == old(notified) + if callback && fire then 1 else 0
    {
      if callback && fire { notified := notified + 1; }
    }

    // The loop over the connected servers: those without a state for their handle, in order.
    method ListUnseen(connected: seq<(string, Handle)>) returns (toDiscover: seq<(string, Handle)>)
      ensures toDiscover == Unseen(servers, connected)
    {
      hide Unseen;
      toDiscover := [];
      UnseenSplit(servers, connected, 0);
      for i := 0 to |connected|
        invariant toDiscover == Unseen(servers, connected[..i])
      {
        UnseenSplit(servers, connected, i);
        var (name, handle) := connected[i];
        if name !in servers || servers[name].handle != handle { toDiscover := toDiscover + [connected[i]]; }
      }
      assert connected[..|connected|] == connected;
    }

    method ProjectConnected(connected: seq<(string, Handle)>) returns (projection: Projection)
      modifies this
      ensures servers == Step(old(servers), Project(connected)) && callback == old(callback)
      ensures projection == Projection(Unseen(servers, connected), Disconnected(old(servers), connected) != {})
      ensures notified == old(notified) + if callback && StepFires(old(servers), Project(connected)) then 1 else 0
    {
      var before := servers;
      servers := map k | k in servers && exists c :: c in connected && c.0 == k :: servers[k];
      assert servers == before - Disconnected(before, connected);
      Shrinks(before, Disconnected(before, connected));
      var toDiscover := ListUnseen(connected);
      projection := Projection(toDiscover, |servers| < |before|);
      Notify(projection.removedAny);
    }

    // Returns whether this call is the one that has to spawn the discovery.
    method MarkDiscoveryStarted(server: string, handle: Handle) returns (first: bool)
      modifies this
      ensures servers == Step(old(servers), Start(server, handle)) && callback == old(callback)
      ensures first <==> !(server in old(servers) && old(servers)[server].ServerStarted?)
      ensures notified == old(notified)
                          + if callback && StepFires(old(servers), Start(server, handle)) then 1 else 0
    {
      var wasStarted := server in servers && servers[server].ServerStarted?;
      var fire := !wasStarted && server in servers && servers[server].skills != [];
      servers := servers[server := ServerStarted(handle)];
      Notify(fire);
      first := !wasStarted;
    }

    method MarkDiscoveryCompleted(server: string, handle: Handle, skills: seq<Skill>)
      modifies this
      ensures servers == Step(old(servers), Complete(server, handle, skills)) && callback == old(callback)
      ensures notified == old(notified)
                          + if callback && StepFires(old(servers), Complete(server, handle, skills)) then 1 else 0
    {
      if server !in servers || servers[server].handle != handle { return; }
      var oldNames := match servers[server]
        case ServerDiscovered(_, had) => SkillNames(had)
        case ServerStarted(_) => {};
      servers := servers[server := ServerDiscovered(handle, skills)];
      Notify(oldNames != SkillNames(skills));
    }

    method RefreshEntries(server: string, handle: Handle, skills: seq<Skill>) returns (written: bool)
      modifies this
      ensures servers == Step(old(servers), Refresh(server, handle, skills)) && callback == old(callback)
      ensures written <==> ServerCurrent(old(servers), server, handle) && old(servers)[server].ServerDiscovered?
      ensures notified == old(notified)
                          + if callback && StepFires(old(servers), Refresh(server, handle, skills)) then 1 else 0
    {
      if server !in servers || !servers[server].ServerDiscovered? { return false; }
      if servers[server].handle != handle { return false; }
      var fire := servers[server].skills != [] || skills != [];
      servers := servers[server := ServerDiscovered(handle, skills)];
      Notify(fire);
      return true;
    }

    method ClearDiscoveryStarted(server: string, handle: Handle)
      modifies this`servers
      ensures servers == Step(old(servers), Clear(server, handle))
    {
      if server in servers && servers[server] == ServerStarted(handle) {
        servers := servers - {server};
      }
    }
  }

  lemma UnseenSplit(servers: Servers, connected: seq<(string, Handle)>, i: nat)
    requires i <= |connected|
    ensures i == 0 ==> Unseen(servers, connected[..i]) == []
    ensures i < |connected| ==>
              Unseen(servers, connected[..i + 1]) ==
              Unseen(servers, connected[..i])
              + if ServerCurrent(servers, connected[i].0, connected[i].1) then [] else [connected[i]]
  {
    if i < |connected| {
      assert connected[..i + 1] == connected[..i] + [connected[i]];
      UnseenSnoc(servers, connected[..i], connected[i]);
    }
  }

  lemma {:induction false} UnseenSnoc(servers: Servers, front: seq<(string, Handle)>, c: (string, Handle))
    ensures Unseen(servers, front + [c]) ==
            Unseen(servers, front) + if ServerCurrent(servers, c.0, c.1) then [] else [c]
  {
    if front == [] {
      assert front + [c] == [c] && [c][1..] == [];
    } else {
      assert (front + [c])[1..] == front[1..] + [c];
      UnseenSnoc(servers, front[1..], c);
    }
  }

  lemma Shrinks(m: Servers, ks: set<string>)
    requires ks <= m.Keys
    ensures |m - ks| == |m| - |ks|
    ensures |m - ks| < |m| <==> ks != {}
  {
    assert (m - ks).Keys == m.Keys - ks;
  }

  // A step that reports nothing leaves every server's offered skill names as they were.
  lemma SilentStepsKeepOffers(servers: Servers, op: ServerOp, server: string)
    requires !StepFires(servers, op)
    ensures Offered(Step(servers, op), server) == Offered(servers, server)
  {
    match op
    case Project(connected) => assert servers - {} == servers;
    case Start(s, _) =>
      if s in servers && servers[s].ServerDiscovered? { assert SkillNames(servers[s].skills) == {}; }
    case Refresh(s, handle, skills) =>
      if ServerCurrent(servers, s, handle) && servers[s].ServerDiscovered? { assert servers[s].skills == skills; }
    case _ =>
  }

  // ---- the two machines in step ----

  // One driver action as both machines see it. Refreshing concerns only the skill registry, the
  // other registry operations only the command registry.
  datatype Drive =
    | Lifecycle(server: ServerOp, command: Op)
    | SkillsOnly(skills: ServerOp)
    | CommandsOnly(commands: Op)

  predicate SameAction(s: ServerOp, c: Op) {
    || (s.Project? && c.ProjectOp? && s.connected == c.connected)
    || (s.Start? && c.StartOp? && s.server == c.prefix && s.handle == c.handle)
    || (s.Complete? && c.CompleteOp? && s.server == c.prefix && s.handle == c.handle)
    || (s.Clear? && c.ClearOp? && s.server == c.prefix && s.handle == c.handle)
  }

  predicate Allowed(d: Drive) {
    match d
    case Lifecycle(s, c) => SameAction(s, c)
    case SkillsOnly(s) => s.Refresh?
    case CommandsOnly(c) => !(c.ProjectOp? || c.StartOp? || c.CompleteOp? || c.ClearOp?)
  }

  function DriveSkills(servers: Servers, ds: seq<Drive>): Servers
    decreases |ds|
  {
    if ds == [] then servers
    else
      DriveSkills(match ds[0]
                  case Lifecycle(s, _) => Step(servers, s)
                  case SkillsOnly(s) => Step(servers, s)
                  case CommandsOnly(_) => servers,
                  ds[1..])
  }

  function DriveCommands(st: State, ds: seq<Drive>): State
    decreases |ds|
  {
    if ds == [] then st
    else
      DriveCommands(match ds[0]
                    case Lifecycle(_, c) => Apply(st, c)
                    case SkillsOnly(_) => st
                    case CommandsOnly(c) => Apply(st, c),
                    ds[1..])
  }

  // The same sources, in the same discovery state, with the same handle.
  ghost predicate InStep(sources: map<string, Discovery>, servers: Servers) {
    && sources.Keys == servers.Keys
    && forall k | k in sources ::
         sources[k].handle == servers[k].handle && (sources[k].Started? <==> servers[k].ServerStarted?)
  }

  lemma ActionInStep(st: State, servers: Servers, s: ServerOp, c: Op)
    requires InStep(st.sources, servers) && SameAction(s, c)
    ensures InStep(Apply(st, c).sources, Step(servers, s))
  {
    hide Without, RegisterSeq, KeysBelow, KeysBelowAny;
    if s.Project? { assert Gone(st.sources, s.connected) == Disconnected(servers, s.connected); }
  }

  // Both projections ask for the same discoveries and report the same removals.
  lemma ProjectionsAgree(st: State, servers: Servers, connected: seq<(string, Handle)>)
    requires InStep(st.sources, servers)
    ensures ProjectResult(st, connected) ==
            Projection(Unseen(Step(servers, Project(connected)), connected), Disconnected(servers, connected) != {})
  {
    var gone := Gone(st.sources, connected);
    assert gone == Disconnected(servers, connected);
    UnseenAgree(st.sources - gone, servers - gone, connected);
  }

  lemma {:induction false} UnseenAgree(sources: map<string, Discovery>, servers: Servers,
                                      connected: seq<(string, Handle)>)
    requires InStep(sources, servers)
    ensures ToDiscover(sources, connected) == Unseen(servers, connected)
  {
    if connected != [] { UnseenAgree(sources, servers, connected[1..]); }
  }

  // Driven by the same actions, however interleaved with refreshes and other registrations, the two
  // machines never drift apart.
  lemma {:induction false} MachinesStayInStep(st: State, servers: Servers, ds: seq<Drive>)
    requires InStep(st.sources, servers)
    requires forall i | 0 <= i < |ds| :: Allowed(ds[i])
    ensures InStep(DriveCommands(st, ds).sources, DriveSkills(servers, ds))
    decreases |ds|
  {
    hide Apply, Step, InStep;
    if ds != [] {
      match ds[0]
      case Lifecycle(s, c) =>
        ActionInStep(st, servers, s, c);
        MachinesStayInStep(Apply(st, c), Step(servers, s), ds[1..]);
      case SkillsOnly(s) =>
        RefreshInStep(st.sources, servers, s);
        MachinesStayInStep(st, Step(servers, s), ds[1..]);
      case CommandsOnly(c) =>
        OthersKeepSources(st, c);
        MachinesStayInStep(Apply(st, c), servers, ds[1..]);
    }
  }

  lemma RefreshInStep(sources: map<string, Discovery>, servers: Servers, s: ServerOp)
    requires InStep(sources, servers) && s.Refresh?
    ensures InStep(sources, Step(servers, s))
  {}

  lemma OthersKeepSources(st: State, c: Op)
    requires Allowed(CommandsOnly(c))
    ensures Apply(st, c).sources == st.sources
  {}

  // ---- every step in terms of what was there before ----

  // What a step does to any server: a projection drops the servers that are not connected and keeps the
  // others; every other step concerns one server only. Starting stores the handle; a completion or a
  // refresh with the stored handle stores the skills, a refresh only if some were stored before; clearing
  // forgets a server that is started with this handle.
  lemma StepMeans(servers: Servers, op: ServerOp, server: string)
    ensures var next := Step(servers, op);
            var was := if server in servers then {servers[server]} else {};
            var now := if server in next then {next[server]} else {};
            match op
            case Project(connected) => now == if exists c :: c in connected && c.0 == server then was else {}
            case Start(s, handle) => now == if s == server then {ServerStarted(handle)} else was
            case Complete(s, handle, skills) =>
              now == if s == server && server in servers && servers[server].handle == handle
                     then {ServerDiscovered(handle, skills)} else was
            case Refresh(s, handle, skills) =>
              now == if s == server && exists had :: was == {ServerDiscovered(handle, had)}
                     then {ServerDiscovered(handle, skills)} else was
            case Clear(s, handle) => now == if s == server && was == {ServerStarted(handle)} then {} else was
  {
    match op
    case Project(connected) =>
    case Start(s, handle) =>
    case Complete(s, handle, skills) =>
    case Refresh(s, handle, skills) =>
      var was := if server in servers then {servers[server]} else {};
      if s == server && server in servers {
        if had :| was == {ServerDiscovered(handle, had)} { assert servers[server] in was; }
        if servers[server].ServerDiscovered? && servers[server].handle == handle {
          assert was == {ServerDiscovered(handle, servers[server].skills)};
        }
      }
    case Clear(s, handle) =>
      if server in servers && {servers[server]} == {ServerStarted(handle)} {
        assert servers[server] in {ServerStarted(handle)};
      }
  }

  // A server offers the lower-cased names of the skills stored for it.
  lemma OfferedMeans(servers: Servers, server: string, name: string)
    ensures name in Offered(servers, server) <==>
            exists h, had, s: Skill :: server in servers && servers[server] == ServerDiscovered(h, had)
                                && s in had && Lower(s.name) == name
  {
    hide Lower;
    if name in Offered(servers, server) {
      var had := servers[server].skills;
      var s :| s in had && Lower(s.name) == name;
      assert servers[server] == ServerDiscovered(servers[server].handle, had);
    }
  }

  // When the callback is called, exactly: when a server is dropped; when skills were withdrawn by a start;
  // when a current completion changes the offered names; when a refresh replaces skills or brings some.
  lemma StepFiresExactly(servers: Servers, op: ServerOp)
    ensures StepFires(servers, op) <==>
            match op
            case Project(_) => exists s :: s in servers && s !in Step(servers, op)
            case Start(s, _) => exists h, had :: had != [] && s in servers && servers[s] == ServerDiscovered(h, had)
            case Complete(s, handle, _) =>
              && s in servers && servers[s].handle == handle
              && Offered(Step(servers, op), s) != Offered(servers, s)
            case Refresh(s, handle, skills) =>
              exists had :: s in servers && servers[s] == ServerDiscovered(handle, had) && !(had == skills == [])
            case Clear(_, _) => false
  {
    match op
    case Project(connected) =>
      if Disconnected(servers, connected) != {} {
        var s :| s in Disconnected(servers, connected);
        assert s in servers && s !in Step(servers, op);
      }
    case Start(s, _) =>
      if s in servers && servers[s].ServerDiscovered? && servers[s].skills != [] {
        assert servers[s] == ServerDiscovered(servers[s].handle, servers[s].skills);
      }
    case Refresh(s, handle, skills) =>
      if ServerCurrent(servers, s, handle) && servers[s].ServerDiscovered? {
        assert servers[s] == ServerDiscovered(handle, servers[s].skills);
      }
    case _ =>
  }
}
