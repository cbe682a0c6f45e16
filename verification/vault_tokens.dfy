/** The local vault's `init`: it may stop between any two calls, and is run again later. */
module VaultTokens {
  import opened Basics

  // --- The vault and its directory --------------------------------------------------------------

  /** The saved root file: the root token, and the accessor of the app token it last recorded. */
  datatype RootFile = RootFile(root: string, accessor: Option<nat>)

  /** `live` holds the accessor of each live app token; accessors are numbered as they are given out. */
  datatype World = World(
    initialized: bool,
    root: string,
    file: Option<RootFile>,
    mounts: set<string>,
    policy: Option<string>,
    lease: Option<string>,
    live: map<string, nat>,
    accessors: nat)

  function InitVault(w: World, root: string): World { w.(initialized := true, root := root) }

  function SaveFile(w: World, file: RootFile): World { w.(file := Some(file)) }

  function AddMount(w: World, mount: string): World { w.(mounts := w.mounts + {mount}) }

  /** The token with this accessor, if there is one, is dead. */
  function Revoke(w: World, accessor: nat): World {
    w.(live := map t | t in w.live && w.live[t] != accessor :: w.live[t])
  }

  function Mint(w: World, app: string): World {
    w.(live := w.live[app := w.accessors], accessors := w.accessors + 1)
  }

  predicate Known(w: World, token: string) { token == w.root || token in w.live }

  // --- One run ----------------------------------------------------------------------------

  /** `calls` is the number of state-changing calls the run makes before it stops; `root` is what a
      vault would answer to being initialized, and `policyOf` writes a mount's policy. */
  datatype Run = Run(app: string, mount: string, root: string, calls: nat)

  datatype Done = Done(initialized: bool, mounted: bool, granted: bool)

  datatype Outcome =
    | Completed(done: Done)
    | Stopped
    | StoppedUnsaved   // the app token was minted and its accessor not yet saved
    | FileMissing
    | Denied

  const LEASE := "87600h"

  /** The last part: the new token replaces the one on record. */
  function GrantAccess(w: World, app: string, left: nat, file: RootFile, done: Done): (World, Outcome)
  {
    if Known(w, app) then (w, Completed(done))
    else if left == 0 then (w, Stopped)
    else
      var (w1, left1) := if file.accessor.Some? then (Revoke(w, file.accessor.value), left - 1) else (w, left);
      if left1 == 0 then (w1, Stopped)
      else
        var w2 := Mint(w1, app);
        if left1 == 1 then (w2, StoppedUnsaved)
        else (SaveFile(w2, file.(accessor := Some(w1.accessors))), Completed(done.(granted := true)))
  }

  /** The middle part: the mount, the policy and the longest lease. */
  function Prepare(w: World, run: Run, policyOf: string -> string, left: nat, file: RootFile, done: Done): (World, Outcome) {
    var missing := run.mount !in w.mounts;
    var need := if missing then 3 else 2;
    var w1 := if missing && left > 0 then AddMount(w, run.mount) else w;
    var w2 := if left >= need - 1 then w1.(policy := Some(policyOf(run.mount))) else w1;
    if left < need then (w2, Stopped)
    else GrantAccess(w2.(lease := Some(LEASE)), run.app, left - need, file, done.(mounted := missing))
  }

  /** A run from the root file on. */
  function FromFile(w: World, run: Run, policyOf: string -> string, left: nat, initialized: bool): (World, Outcome) {
    if w.file.None? then (w, FileMissing)
    else if w.file.value.root != w.root then (w, Denied)
    else Prepare(w, run, policyOf, left, w.file.value, Done(initialized, false, false))
  }

  function After(w: World, run: Run, policyOf: string -> string): (World, Outcome) {
    if w.initialized then FromFile(w, run, policyOf, run.calls, false)
    else if run.calls == 0 then (w, Stopped)
    else
      var w1 := InitVault(w, run.root);
      if run.calls == 1 then (w1, Stopped)
      else FromFile(SaveFile(w1, RootFile(run.root, None)), run, policyOf, run.calls - 2, true)
  }

  class Stack {
    var world: World

    constructor (world: World)
      ensures this.world == world
    {
      this.world := world;
    }

    /** Makes the vault usable by the app, call by call. */
    method Init(run: Run, policyOf: string -> string) returns (outcome: Outcome)
      modifies this
      ensures (world, outcome) == After(old(world), run, policyOf)
    {
      var left := run.calls;
      var done := Done(false, false, false);
      if !world.initialized {
        if left == 0 { return Stopped; }
        world, left := InitVault(world, run.root), left - 1;
        if left == 0 { return Stopped; }
        world, left := SaveFile(world, RootFile(run.root, None)), left - 1;
        done := done.(initialized := true);
      }
      if world.file.None? { return FileMissing; }
      var state := world.file.value;
      if state.root != world.root { return Denied; }
      if run.mount !in world.mounts {
        if left == 0 { return Stopped; }
        world, left := AddMount(world, run.mount), left - 1;
        done := done.(mounted := true);
      }
      if left == 0 { return Stopped; }
      world, left := world.(policy := Some(policyOf(run.mount))), left - 1;
      if left == 0 { return Stopped; }
      world, left := world.(lease := Some(LEASE)), left - 1;
      if !Known(world, run.app) {
        if state.accessor.Some? {
          if left == 0 { return Stopped; }
          world, left := Revoke(world, state.accessor.value), left - 1;
        }
        if left == 0 { return Stopped; }
        var accessor := world.accessors;
        world, left := Mint(world, run.app), left - 1;
        if left == 0 { return StoppedUnsaved; }
        world := SaveFile(world, state.(accessor := Some(accessor)));
        done := done.(granted := true);
      }
      return Completed(done);
    }
  }

  // --- Many runs --------------------------------------------------------------------------

  /** The world after the runs, and how many of them stopped between minting and saving. */
  function AfterAll(w: World, runs: seq<Run>, policyOf: string -> string): (World, nat) {
    if runs == [] then (w, 0)
    else
      var (before, unsaved) := AfterAll(w, runs[..|runs| - 1], policyOf);
      var (now, outcome) := After(before, runs[|runs| - 1], policyOf);
      (now, if outcome == StoppedUnsaved then unsaved + 1 else unsaved)
  }

  /** Nothing has been done yet, whatever a root file left lying around says. */
  predicate IsNew(w: World) { !w.initialized && w.live == map[] }

  predicate HasRoot(w: World) { w.initialized && w.file.Some? && w.file.value.root == w.root }

  /** The live tokens the root file does not know. */
  function Strays(w: World): set<string> {
    set t | t in w.live && !(w.file.Some? && w.file.value.accessor == Some(w.live[t]))
  }

  /** Accessors tell tokens apart, none is given out twice, and the strays are accounted for. */
  ghost predicate Accounted(w: World, unsaved: nat) {
    && (forall t | t in w.live :: w.live[t] < w.accessors)
    && (forall s, t | s in w.live && t in w.live && w.live[s] == w.live[t] :: s == t)
    && |Strays(w)| <= unsaved
    && (!HasRoot(w) ==> w.live == map[])
  }

  lemma GrantKeepsAccount(w: World, app: string, left: nat, file: RootFile, done: Done, unsaved: nat)
    requires Accounted(w, unsaved) && HasRoot(w) && file == w.file.value
    ensures
      var (now, outcome) := GrantAccess(w, app, left, file, done);
      Accounted(now, if outcome == StoppedUnsaved then unsaved + 1 else unsaved) && HasRoot(now)
  {
    var (now, outcome) := GrantAccess(w, app, left, file, done);
    if outcome.StoppedUnsaved? {
      SubsetSize(Strays(now), Strays(w) + {app});
    } else {
      SubsetSize(Strays(now), Strays(w));
    }
  }

  lemma PrepareKeepsAccount(w: World, run: Run, policyOf: string -> string, left: nat, file: RootFile, done: Done, unsaved: nat)
    requires Accounted(w, unsaved) && HasRoot(w) && file == w.file.value
    ensures
      var (now, outcome) := Prepare(w, run, policyOf, left, file, done);
      Accounted(now, if outcome == StoppedUnsaved then unsaved + 1 else unsaved) && HasRoot(now)
  {
    var ready := w.(mounts := w.mounts + {run.mount}, policy := Some(policyOf(run.mount)), lease := Some(LEASE));
    var missing := run.mount !in w.mounts;
    var need := if missing then 3 else 2;
    assert Strays(Prepare(w, run, policyOf, need - 1, file, done).0) == Strays(w);
    if left >= need {
      assert missing || w.mounts + {run.mount} == w.mounts;
      GrantKeepsAccount(ready, run.app, left - need, file, done.(mounted := missing), unsaved);
    }
  }

  lemma RunKeepsAccount(w: World, run: Run, policyOf: string -> string, unsaved: nat)
    requires Accounted(w, unsaved) && (w.initialized || w.live == map[])
    ensures
      var (now, outcome) := After(w, run, policyOf);
      && Accounted(now, if outcome == StoppedUnsaved then unsaved + 1 else unsaved)
      && (now.initialized || now.live == map[])
  {
    if w.initialized {
      if HasRoot(w) {
        PrepareKeepsAccount(w, run, policyOf, run.calls, w.file.value, Done(false, false, false), unsaved);
      }
    } else if run.calls >= 2 {
      var w2 := SaveFile(InitVault(w, run.root), RootFile(run.root, None));
      assert Strays(w2) == {};
      PrepareKeepsAccount(w2, run, policyOf, run.calls - 2, w2.file.value, Done(true, false, false), unsaved);
    } else {
      assert Strays(After(w, run, policyOf).0) == {};
    }
  }

  lemma {:induction false} RunsKeepAccount(w: World, runs: seq<Run>, policyOf: string -> string)
    requires IsNew(w)
    ensures
      var (now, unsaved) := AfterAll(w, runs, policyOf);
      Accounted(now, unsaved) && (now.initialized || now.live == map[])
  {
    if runs == [] {
      assert Strays(w) == {};
    } else {
      RunsKeepAccount(w, runs[..|runs| - 1], policyOf);
      var (before, unsaved) := AfterAll(w, runs[..|runs| - 1], policyOf);
      RunKeepsAccount(before, runs[|runs| - 1], policyOf, unsaved);
    }
  }

  /** However often `init` ran and wherever it stopped, the live app tokens are at most one more than the
      stops between minting a token and saving its accessor. */
  lemma LiveTokensAreBounded(w: World, runs: seq<Run>, policyOf: string -> string)
    requires IsNew(w)
    ensures
      var (now, unsaved) := AfterAll(w, runs, policyOf);
      |now.live| <= 1 + unsaved
  {
    RunsKeepAccount(w, runs, policyOf);
    var (now, unsaved) := AfterAll(w, runs, policyOf);
    if now.live.Keys != Strays(now) {
      var kept :| kept in now.live && kept !in Strays(now);
      assert now.live.Keys == Strays(now) + {kept};
    }
    assert |now.live| == |now.live.Keys|;
  }

  /** A run that completes leaves the requested token live, and only it unless some run stopped between
      minting and saving. */
  lemma CompletedRunGrantsItsToken(w: World, runs: seq<Run>, policyOf: string -> string)
    requires IsNew(w) && runs != []
    requires
      var last := runs[|runs| - 1];
      var before := AfterAll(w, runs[..|runs| - 1], policyOf).0;
      After(before, last, policyOf).1.Completed? && After(before, last, policyOf).0.root != last.app
    ensures
      var (now, unsaved) := AfterAll(w, runs, policyOf);
      var app := runs[|runs| - 1].app;
      app in now.live && (unsaved == 0 ==> now.live.Keys == {app})
  {
    RunsKeepAccount(w, runs, policyOf);
    var (now, unsaved) := AfterAll(w, runs, policyOf);
    var app := runs[|runs| - 1].app;
    RunsKeepAccount(w, runs[..|runs| - 1], policyOf);
    CompletedIsKnown(AfterAll(w, runs[..|runs| - 1], policyOf).0, runs[|runs| - 1], policyOf);
    if unsaved == 0 {
      forall t | t in now.live ensures t == app {
        assert t !in Strays(now) && app !in Strays(now);
      }
    }
  }

  lemma CompletedIsKnown(w: World, run: Run, policyOf: string -> string)
    requires After(w, run, policyOf).1.Completed?
    ensures
      var now := After(w, run, policyOf).0;
      && Known(now, run.app) && HasRoot(now)
      && run.mount in now.mounts && now.policy == Some(policyOf(run.mount)) && now.lease == Some(LEASE)
  {
  }

  /** The app token is accepted at the start of a run: it is live, or it is the root token the vault has or
      will be given. */
  predicate Accepted(w: World, run: Run) { run.app in w.live || run.app == if w.initialized then w.root else run.root }

  /** A run that completes reports what it did: whether it initialized the vault, made the mount, and
      granted the token. */
  lemma ReportTellsWhatWasDone(w: World, run: Run, policyOf: string -> string)
    requires After(w, run, policyOf).1.Completed?
    ensures After(w, run, policyOf).1.done == Done(!w.initialized, run.mount !in w.mounts, !Accepted(w, run))
  {
  }

  /** The calls a run has to make: initializing and saving, the mount, the policy and the lease, and, for a
      new token, revoking the one on record, minting and saving. */
  function CallsNeeded(w: World, run: Run): nat {
    var recorded := w.initialized && w.file.Some? && w.file.value.accessor.Some?;
    (if w.initialized then 0 else 2) + (if run.mount in w.mounts then 2 else 3)
    + (if Accepted(w, run) then 0 else if recorded then 3 else 2)
  }

  /** How a run ends: it finds the file missing, is denied, completes when it is given that many calls, and is
      stopped short otherwise; one call short, a new token stays unsaved. */
  lemma EndOfARun(w: World, run: Run, policyOf: string -> string)
    ensures
      var outcome := After(w, run, policyOf).1;
      && (outcome.FileMissing? <==> w.initialized && w.file.None?)
      && (outcome.Denied? <==> w.initialized && w.file.Some? && w.file.value.root != w.root)
      && (outcome.Completed? <==> !IsLost(w) && run.calls >= CallsNeeded(w, run))
      && (outcome.StoppedUnsaved? <==> !IsLost(w) && !Accepted(w, run) && run.calls == CallsNeeded(w, run) - 1)
  {
  }

  /** What a completed run changes: the token on record is revoked when a new one is minted, and then the new
      one is on record; other tokens and mounts stay. */
  lemma CompletedRunChanges(w: World, run: Run, policyOf: string -> string)
    requires After(w, run, policyOf).1.Completed?
    ensures
      var now := After(w, run, policyOf).0;
      && now.mounts == w.mounts + {run.mount}
      && now.root == (if w.initialized then w.root else run.root)
      && (Accepted(w, run) ==> now.live == w.live && now.accessors == w.accessors)
      && (!Accepted(w, run) ==>
            && now.accessors == w.accessors + 1
            && now.file == Some(RootFile(now.root, Some(w.accessors)))
            && run.app in now.live && now.live[run.app] == w.accessors
            && forall t | t != run.app :: t in now.live <==>
                 t in w.live && !(w.initialized && w.file.value.accessor == Some(w.live[t])))
  {
    if run.mount in w.mounts {
      assert w.mounts + {run.mount} == w.mounts;
    }
  }

  /** Repeating a completed run reports everything kept, and leaves the vault and the file as they were. */
  lemma RepeatingKeepsEverything(w: World, run: Run, again: Run, policyOf: string -> string)
    requires After(w, run, policyOf).1.Completed?
    requires again.app == run.app && again.mount == run.mount && again.calls >= 2
    ensures
      var now := After(w, run, policyOf).0;
      After(now, again, policyOf) == (now, Completed(Done(false, false, false)))
  {
    CompletedIsKnown(w, run, policyOf);
  }

  /** A run with calls enough completes, whatever the runs before it left behind. */
  lemma LongRunCompletes(w: World, run: Run, policyOf: string -> string)
    requires (HasRoot(w) || !w.initialized) && run.calls >= 8
    ensures After(w, run, policyOf).1.Completed?
  {
  }

  predicate IsLost(w: World) { w.initialized && !HasRoot(w) }

  /** The run initializes the vault and stops with the root token unsaved. */
  predicate StopsBeforeSaving(w: World, run: Run) {
    !w.initialized && run.calls == 1 && !(w.file.Some? && w.file.value.root == run.root)
  }

  /** From a lost vault on no run completes, and none changes anything. */
  lemma {:induction false} LostRootIsForGood(w: World, runs: seq<Run>, policyOf: string -> string)
    requires IsLost(w)
    ensures AfterAll(w, runs, policyOf) == (w, 0)
    ensures forall run :: !After(w, run, policyOf).1.Completed?
  {
    if runs != [] {
      LostRootIsForGood(w, runs[..|runs| - 1], policyOf);
    }
  }

  /** The vault is lost exactly by a first run that stops between initializing it and saving its root
      token, unless a file with that very token was lying there. */
  lemma RootIsLostIffStoppedBeforeSaving(w: World, run: Run, policyOf: string -> string)
    requires !IsLost(w)
    ensures IsLost(After(w, run, policyOf).0) <==> StopsBeforeSaving(w, run)
  {
  }

  /** Such a stop is for good: whatever runs follow, with however many calls, none completes and the
      world stays as the stop left it, with no app token. */
  lemma StopBeforeSavingIsForGood(w: World, run: Run, runs: seq<Run>, policyOf: string -> string)
    requires IsNew(w) && StopsBeforeSaving(w, run)
    ensures
      var lost := After(w, run, policyOf).0;
      && lost == InitVault(w, run.root) && lost.live == map[]
      && AfterAll(lost, runs, policyOf) == (lost, 0)
      && forall again :: !After(lost, again, policyOf).1.Completed?
  {
    RootIsLostIffStoppedBeforeSaving(w, run, policyOf);
    LostRootIsForGood(After(w, run, policyOf).0, runs, policyOf);
  }

  lemma LostStep(w: World, run: Run, policyOf: string -> string)
    ensures IsLost(After(w, run, policyOf).0) <==> IsLost(w) || StopsBeforeSaving(w, run)
  {
    if !IsLost(w) {
      RootIsLostIffStoppedBeforeSaving(w, run, policyOf);
    }
  }

  ghost predicate SomeRunStopped(w: World, runs: seq<Run>, policyOf: string -> string) {
    exists i | 0 <= i < |runs| :: StopsBeforeSaving(AfterAll(w, runs[..i], policyOf).0, runs[i])
  }

  lemma SomeRunStoppedStep(w: World, front: seq<Run>, last: Run, policyOf: string -> string)
    ensures SomeRunStopped(w, front + [last], policyOf) <==>
      SomeRunStopped(w, front, policyOf) || StopsBeforeSaving(AfterAll(w, front, policyOf).0, last)
  {
    var runs := front + [last];
    assert runs[..|front|] == front && runs[|front|] == last;
    assert forall i | 0 <= i < |front| :: runs[..i] == front[..i] && runs[i] == front[i];
  }

  /** Over any runs of a new vault: it is lost exactly when one of them stopped there. */
  lemma {:induction false} LostIffSomeRunStopped(w: World, runs: seq<Run>, policyOf: string -> string)
    requires IsNew(w)
    ensures IsLost(AfterAll(w, runs, policyOf).0) <==> SomeRunStopped(w, runs, policyOf)
  {
    if runs != [] {
      var (front, last) := (runs[..|runs| - 1], runs[|runs| - 1]);
      LostIffSomeRunStopped(w, front, policyOf);
      LostStep(AfterAll(w, front, policyOf).0, last, policyOf);
      SomeRunStoppedStep(w, front, last, policyOf);
      assert front + [last] == runs;
    }
  }
}
