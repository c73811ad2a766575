// The install protocol of the runtime package: any number of processes share one target directory
// and one lock file. One step is one file-system operation or one check.
module ArtifactInstall {
  import opened Wrappers

  type Pid = nat

  // What validate_install sees: nothing there, something that does not validate, or a valid package.
  datatype Target = Absent | Corrupt | Valid

  datatype Failure = Cancelled | Unavailable | Io

  // How the installer came back.
  datatype Installer = Installed | NotInstalled | Broken

  // Where a process is. `Checking` has the lock and re-checks the target; `Clearing` is about to move
  // an unusable target away; `Staging`, `Installing` and `Renaming` prepare and publish a new one;
  // `Confirming` validates the result. The quarantine operation has its own two places.
  datatype Place =
    | Entering
    | Locking
    | Checking
    | Clearing
    | Staging
    | Installing
    | Renaming
    | Confirming
    | Returned(result: Outcome<Failure>)
    | QuarantineLocking
    | QuarantineMoving

  // `published` and `retired` count the targets put in place and the valid targets moved away,
  // `installerRuns` how often an installer was started.
  datatype State = State(
    target: Target,
    lock: Option<Pid>,
    places: map<Pid, Place>,
    installerRuns: nat,
    published: nat,
    retired: nat)

  datatype Action =
    | EnterEnsure(p: Pid)
    | EnterQuarantine(p: Pid)
    | FirstCheck(p: Pid)
    | TryLock(p: Pid)
    | SecondCheck(p: Pid)
    | MoveAway(p: Pid, moved: bool, deleted: bool)
    | MakeStaging(p: Pid, made: bool)
    | InstallerReturns(p: Pid, installer: Installer, stagingValid: bool, cancelled: bool)
    | Publish(p: Pid, renamed: bool)
    | Confirm(p: Pid)
    | QuarantineMove(p: Pid, moved: bool, deleted: bool)
    | GiveUp(p: Pid, failure: Failure)
    | Crash(p: Pid)

  predicate HoldsLock(place: Place) {
    || place.Checking? || place.Clearing? || place.Staging? || place.Installing? || place.Renaming?
    || place.Confirming? || place.QuarantineMoving?
  }

  predicate At(s: State, p: Pid, place: Place) { p in s.places && s.places[p] == place }

  function Goes(s: State, p: Pid, place: Place): State { s.(places := s.places[p := place]) }

  // Leaving drops the lock guard.
  function Leaves(s: State, p: Pid, result: Outcome<Failure>): State {
    Goes(s, p, Returned(result)).(lock := if s.lock == Some(p) then None else s.lock)
  }

  function Apply(s: State, a: Action): State {
    match a
    case EnterEnsure(p) => if p in s.places then s else Goes(s, p, Entering)
    case EnterQuarantine(p) => if p in s.places then s else Goes(s, p, QuarantineLocking)
    case FirstCheck(p) =>
      if !At(s, p, Entering) then s
      else if s.target.Valid? then Leaves(s, p, Pass) else Goes(s, p, Locking)
    case TryLock(p) =>
      if s.lock.Some? then s
      else if At(s, p, Locking) then Goes(s, p, Checking).(lock := Some(p))
      else if At(s, p, QuarantineLocking) then Goes(s, p, QuarantineMoving).(lock := Some(p))
      else s
    case SecondCheck(p) =>
      if !At(s, p, Checking) then s
      else if s.target.Valid? then Leaves(s, p, Pass)
      else Goes(s, p, if s.target.Corrupt? then Clearing else Staging)
    case MoveAway(p, moved, deleted) =>
      if !At(s, p, Clearing) then s else AfterMove(s, p, moved, deleted, Staging)
    case MakeStaging(p, made) =>
      if !At(s, p, Staging) then s
      else if made then Goes(s, p, Installing).(installerRuns := s.installerRuns + 1)
      else Leaves(s, p, Fail(Io))
    case InstallerReturns(p, installer, stagingValid, cancelled) =>
      if !At(s, p, Installing) then s
      else if cancelled then Leaves(s, p, Fail(Cancelled))
      else if installer.Broken? then Leaves(s, p, Fail(Io))
      else if installer.Installed? && stagingValid then Goes(s, p, Renaming)
      else Leaves(s, p, Fail(Unavailable))
    case Publish(p, renamed) =>
      if !At(s, p, Renaming) then s
      else if renamed then Goes(s, p, Confirming).(target := Valid, published := s.published + 1)
      else if s.target.Valid? then Goes(s, p, Confirming)
      else Leaves(s, p, Fail(Io))
    case Confirm(p) =>
      if !At(s, p, Confirming) then s
      else Leaves(s, p, if s.target.Valid? then Pass else Fail(Unavailable))
    case QuarantineMove(p, moved, deleted) =>
      if !At(s, p, QuarantineMoving) then s
      else if s.target.Absent? then Leaves(s, p, Pass)
      else AfterMove(s, p, moved, deleted, Returned(Pass))
    case GiveUp(p, failure) =>
      if At(s, p, Entering) || At(s, p, Locking) || (At(s, p, QuarantineLocking) && failure.Io?)
      then Leaves(s, p, Fail(failure)) else s
    case Crash(p) => if p in s.places && !s.places[p].Returned? then Leaves(s, p, Fail(Io)) else s
  }

  // quarantine_locked: the rename takes the target away at once; deleting the renamed directory may
  // still fail afterwards.
  function AfterMove(s: State, p: Pid, moved: bool, deleted: bool, onward: Place): State {
    if !moved then Leaves(s, p, Fail(Io))
    else
      var gone := s.(target := Absent, retired := s.retired + if s.target.Valid? then 1 else 0);
      if !deleted then Leaves(gone, p, Fail(Io))
      else if onward.Returned? then Leaves(gone, p, Pass)
      else Goes(gone, p, onward)
  }

  function Run(s: State, actions: seq<Action>): State
    decreases |actions|
  {
    if actions == [] then s else Run(Apply(s, actions[0]), actions[1..])
  }

  // ---- the invariant ----

  predicate PlaceFits(s: State, p: Pid) {
    && (s.lock == Some(p) <==> p in s.places && HoldsLock(s.places[p]))
    && (At(s, p, Clearing) ==> s.target.Corrupt?)
    && (At(s, p, Staging) || At(s, p, Installing) || At(s, p, Renaming) ==> s.target.Absent?)
    && (At(s, p, Confirming) ==> s.target.Valid?)
  }

  // The lock names the one process inside the protected part, and what that process has established
  // about the target still holds.
  ghost predicate Inv(s: State) { forall p :: PlaceFits(s, p) }

  function Start(target: Target): State { State(target, None, map[], 0, 0, 0) }

  lemma StartInv(target: Target)
    ensures Inv(Start(target))
  {}

  lemma ApplyKeeps(s: State, a: Action)
    requires Inv(s)
    ensures Inv(Apply(s, a))
  {
    var t := Apply(s, a);
    assert PlaceFits(s, a.p);
    forall q ensures PlaceFits(t, q) {
      assert PlaceFits(s, q);
    }
  }

  lemma {:induction false} RunKeeps(s: State, actions: seq<Action>)
    requires Inv(s)
    ensures Inv(Run(s, actions))
    decreases |actions|
  {
    hide Inv, Apply;
    if actions != [] {
      ApplyKeeps(s, actions[0]);
      RunKeeps(Apply(s, actions[0]), actions[1..]);
    }
  }

  // ---- theorems ----

  // Only the process that holds the lock changes the target; a valid target is taken away only by the
  // quarantine operation; success is reported only while the target is valid.
  lemma StepIsSafe(s: State, a: Action)
    requires Inv(s)
    ensures var t := Apply(s, a);
            && (t.target != s.target ==> s.lock == Some(a.p))
            && (s.target.Valid? && !t.target.Valid? ==> a.QuarantineMove?)
            && (At(t, a.p, Returned(Pass)) && !At(s, a.p, Returned(Pass)) && !a.QuarantineMove? ==> t.target.Valid?)
            && (t.installerRuns != s.installerRuns ==> s.lock == Some(a.p) && !s.target.Valid?)
  {
    assert PlaceFits(s, a.p);
  }

  // A valid target is enough: the first check succeeds at once, whoever holds the lock, and leaves
  // everything else alone. An operation that quarantines is never cancelled.
  lemma ValidIsEnough(s: State, p: Pid)
    requires Inv(s) && At(s, p, Entering)
    ensures s.target.Valid? <==> At(Apply(s, FirstCheck(p)), p, Returned(Pass))
    ensures Apply(s, FirstCheck(p)) == s.(places := Apply(s, FirstCheck(p)).places)
  {
    assert PlaceFits(s, p);
  }

  lemma QuarantineIsNotCancelled(s: State, a: Action)
    requires At(s, a.p, QuarantineLocking) || At(s, a.p, QuarantineMoving)
    ensures !At(Apply(s, a), a.p, Returned(Fail(Cancelled)))
  {}

  // At most one process is ever preparing or publishing a package.
  lemma OneInstaller(target: Target, actions: seq<Action>, p: Pid, q: Pid)
    requires var s := Run(Start(target), actions);
             p in s.places && q in s.places && HoldsLock(s.places[p]) && HoldsLock(s.places[q])
    ensures p == q
  {
    var s := Run(Start(target), actions);
    StartInv(target);
    RunKeeps(Start(target), actions);
    assert PlaceFits(s, p) && PlaceFits(s, q);
  }

  // Once the target is valid it stays valid and no installer is started, by any number of processes
  // in any interleaving and with any crashes, until a quarantine moves it away.
  lemma {:induction false} ValidStays(s: State, actions: seq<Action>)
    requires Inv(s) && s.target.Valid?
    requires forall i | 0 <= i < |actions| :: !actions[i].QuarantineMove?
    ensures var t := Run(s, actions);
            t.target.Valid? && t.installerRuns == s.installerRuns && t.published == s.published
    decreases |actions|
  {
    hide Inv, Apply;
    if actions != [] {
      StepIsSafe(s, actions[0]);
      ApplyKeeps(s, actions[0]);
      NothingPublished(s, actions[0]);
      ValidStays(Apply(s, actions[0]), actions[1..]);
    }
  }

  lemma NothingPublished(s: State, a: Action)
    requires Inv(s) && s.target.Valid?
    ensures Apply(s, a).published == s.published
  {
    assert PlaceFits(s, a.p);
  }

  function Count(target: Target): nat { if target.Valid? then 1 else 0 }

  // Conservation: every published package is either still in place or has been retired.
  lemma {:induction false} PackagesConserved(s: State, actions: seq<Action>)
    requires Inv(s)
    ensures var t := Run(s, actions);
            t.retired + Count(t.target) - t.published == s.retired + Count(s.target) - s.published
    decreases |actions|
  {
    hide Inv, Apply;
    if actions != [] {
      ApplyKeeps(s, actions[0]);
      StepConserves(s, actions[0]);
      PackagesConserved(Apply(s, actions[0]), actions[1..]);
    }
  }

  lemma StepConserves(s: State, a: Action)
    requires Inv(s)
    ensures var t := Apply(s, a);
            t.retired + Count(t.target) - t.published == s.retired + Count(s.target) - s.published
  {
    assert PlaceFits(s, a.p);
  }

  lemma {:induction false} NoneRetired(s: State, actions: seq<Action>)
    requires Inv(s)
    requires forall i | 0 <= i < |actions| :: !actions[i].QuarantineMove?
    ensures Run(s, actions).retired == s.retired
    decreases |actions|
  {
    hide Inv, Apply;
    if actions != [] {
      ApplyKeeps(s, actions[0]);
      EnsureRetiresNothing(s, actions[0]);
      NoneRetired(Apply(s, actions[0]), actions[1..]);
    }
  }

  lemma EnsureRetiresNothing(s: State, a: Action)
    requires Inv(s) && !a.QuarantineMove?
    ensures Apply(s, a).retired == s.retired
  {
    assert PlaceFits(s, a.p);
  }

  // Without quarantines at most one package is published in a whole run, by however many concurrent
  // installers, and exactly then the target is valid at the end if it was not at the start.
  lemma OneWinner(target: Target, actions: seq<Action>)
    requires forall i | 0 <= i < |actions| :: !actions[i].QuarantineMove?
    ensures var t := Run(Start(target), actions);
            && t.published <= 1
            && (t.target.Valid? <==> target.Valid? || t.published == 1)
  {
    StartInv(target);
    PackagesConserved(Start(target), actions);
    NoneRetired(Start(target), actions);
  }

  // ---- one process on its own ----

  predicate OthersStay(before: map<Pid, Place>, after: map<Pid, Place>, p: Pid) {
    forall q | q in before && q != p :: q in after && after[q] == before[q]
  }

  lemma OneActs(s: State, a: Action)
    ensures OthersStay(s.places, Apply(s, a).places, a.p)
  {
    hide HoldsLock, Goes, Leaves, AfterMove;
    MovesAlone(s, a.p);
    if a.MoveAway? { AfterMoveAlone(s, a.p, a.moved, a.deleted, Staging); }
    if a.QuarantineMove? { AfterMoveAlone(s, a.p, a.moved, a.deleted, Returned(Pass)); }
  }

  lemma MovesAlone(s: State, p: Pid)
    ensures forall place :: OthersStay(s.places, Goes(s, p, place).places, p)
    ensures forall result :: OthersStay(s.places, Leaves(s, p, result).places, p)
  {}

  lemma AfterMoveAlone(s: State, p: Pid, moved: bool, deleted: bool, onward: Place)
    ensures OthersStay(s.places, AfterMove(s, p, moved, deleted, onward).places, p)
  {}

  // Why a package is not staged: what a file operation or the installer's launch answers is passed on as
  // an I/O failure, cancelling as such, and an installer that leaves no valid package as unavailable.
  function StagingFailure(clearing: bool, moved: bool, deleted: bool, made: bool, installer: Installer, cancelled: bool)
    : Failure
  {
    if (clearing && !(moved && deleted)) || !made then Io
    else if cancelled then Cancelled
    else if installer.Broken? then Io
    else Unavailable
  }

  // The shared directory, its lock and the processes, changed step by step.
  class SharedHome {
    var target: Target
    var lock: Option<Pid>
    var places: map<Pid, Place>
    var installerRuns: nat
    var published: nat
    var retired: nat

    function St(): State
      reads this
    {
      State(target, lock, places, installerRuns, published, retired)
    }

    constructor (initial: Target)
      ensures St() == Start(initial)
    {
      target, lock, places, installerRuns, published, retired := initial, None, map[], 0, 0, 0;
    }

    // One step of one process.
    method Take(a: Action)
      requires Inv(St())
      modifies this
      ensures Inv(St()) && St() == Apply(old(St()), a) && OthersStay(old(places), places, a.p)
    {
      hide Inv;
      ApplyKeeps(St(), a);
      OneActs(St(), a);
      var t := Apply(St(), a);
      target, lock, places := t.target, t.lock, t.places;
      installerRuns, published, retired := t.installerRuns, t.published, t.retired;
    }

    // The two checks around taking the lock: done if the target is valid, else inside with the lock.
    method CheckAndLock(p: Pid)
      requires Inv(St()) && p !in places && lock.None?
      modifies this
      ensures Inv(St()) && OthersStay(old(places), places, p)
      ensures target == old(target) && published == old(published) && installerRuns == old(installerRuns)
      ensures At(St(), p, if target.Valid? then Returned(Pass) else if target.Corrupt? then Clearing else Staging)
      ensures lock == if target.Valid? then None else Some(p)
    {
      hide Inv;
      Take(EnterEnsure(p));
      Take(FirstCheck(p));
      if places[p].Returned? { return; }
      Take(TryLock(p));
      Take(SecondCheck(p));
    }

    // From the lock to a staged package: clear an unusable target, make the staging directory, install.
    method PrepareStaging(p: Pid, moved: bool, deleted: bool, made: bool, installer: Installer, stagingValid: bool,
                          cancelled: bool)
      requires Inv(St()) && lock == Some(p) && (At(St(), p, Clearing) || At(St(), p, Staging))
      modifies this
      ensures Inv(St()) && OthersStay(old(places), places, p) && published == old(published)
      ensures p in places && (places[p] == Renaming || (places[p].Returned? && places[p].result.Fail?))
      ensures places[p] == Renaming <==> (old(places)[p].Clearing? ==> moved && deleted) && made && !cancelled
                                         && installer.Installed? && stagingValid
      ensures lock == if places[p] == Renaming then Some(p) else None
      ensures places[p] != Renaming ==>
                places[p] == Returned(Fail(StagingFailure(old(places)[p].Clearing?, moved, deleted, made, installer,
                                                          cancelled)))
    {
      hide Inv;
      if places[p].Clearing? {
        Take(MoveAway(p, moved, deleted));
        if places[p].Returned? { return; }
      }
      Take(MakeStaging(p, made));
      if places[p].Returned? { return; }
      Take(InstallerReturns(p, installer, stagingValid, cancelled));
    }

    // Publishing the staged package and validating the result.
    method PublishStaged(p: Pid, renamed: bool)
      requires Inv(St()) && lock == Some(p) && At(St(), p, Renaming)
      modifies this
      ensures Inv(St()) && OthersStay(old(places), places, p) && lock.None?
      ensures At(St(), p, Returned(if renamed then Pass else Fail(Io)))
      ensures renamed ==> target.Valid? && published == old(published) + 1
      ensures !renamed ==> published == old(published)
    {
      assert PlaceFits(St(), p);
      hide Inv;
      Take(Publish(p, renamed));
      if places[p].Returned? { return; }
      Take(Confirm(p));
    }

    // ensure_install without interference; what the file system and the installer answer is given. It
    // succeeds at once on a valid target, and otherwise exactly when every operation it needs does.
    method EnsureInstall(p: Pid, moved: bool, deleted: bool, made: bool, installer: Installer, stagingValid: bool,
                         cancelled: bool, renamed: bool)
      returns (r: Outcome<Failure>)
      requires Inv(St()) && p !in places && lock.None?
      modifies this
      ensures Inv(St()) && lock.None? && At(St(), p, Returned(r)) && OthersStay(old(places), places, p)
      ensures r.Pass? ==> target.Valid?
      ensures old(target).Valid? ==> r.Pass? && installerRuns == old(installerRuns)
      ensures !old(target).Valid? ==>
                (r.Pass? <==> (old(target).Corrupt? ==> moved && deleted) && made && !cancelled
                              && installer.Installed? && stagingValid && renamed)
      ensures published == old(published) + if r.Pass? && !old(target).Valid? then 1 else 0
      ensures r.Fail? ==>
                var cleared := old(target).Corrupt? ==> moved && deleted;
                r == Fail(if cleared && made && cancelled then Cancelled
                          else if cleared && made && !installer.Broken? && !(installer.Installed? && stagingValid)
                          then Unavailable
                          else Io)
    {
      hide Inv, Apply;
      CheckAndLock(p);
      if places[p].Returned? { return places[p].result; }
      PrepareStaging(p, moved, deleted, made, installer, stagingValid, cancelled);
      if places[p].Returned? { return places[p].result; }
      PublishStaged(p, renamed);
      return places[p].result;
    }

    // quarantine without interference: afterwards nothing is at the target, unless the move failed.
    method Quarantine(p: Pid, moved: bool, deleted: bool) returns (r: Outcome<Failure>)
      requires Inv(St()) && p !in places && lock.None?
      modifies this
      ensures Inv(St()) && lock.None? && At(St(), p, Returned(r))
      ensures target == if moved then Absent else old(target)
      ensures r.Pass? <==> old(target).Absent? || (moved && deleted)
      ensures retired == old(retired) + if moved then Count(old(target)) else 0
    {
      hide Inv;
      Take(EnterQuarantine(p));
      Take(TryLock(p));
      Take(QuarantineMove(p, moved, deleted));
      return places[p].result;
    }
  }
}
