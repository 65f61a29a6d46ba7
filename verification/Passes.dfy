/** Reconciliations and the client singleton: what a pass makes of the client that GetClient gives it. */
module Passes {
  import opened Documents
  import opened Api
  import opened Workflow
  import Coupling
  import Effects
  import Safety
  import Scripts
  import Singleton
  import Touches

  /** InitializeGiteaClient, when its call of GetClient has returned: an error, a client that is not initialised and is
      replaced by nil without an error, or a client whose user query has the given answer. */
  function InitializeGiteaClient(s: Singleton.State, call: Singleton.Goroutine, userOk: bool): GiteaClient
    requires call in s.places && Singleton.Finished(s.places[call])
  {
    match s.places[call]
    case Rejected => InitFailed
    case Returned(client) =>
      if client.None? || client.value !in s.started || !s.started[client.value] then NotInitialized
      else if userOk then Ready
      else InitFailed
  }

  /** With an initialised client a pass makes at least one call. */
  lemma PassGrows(e: Env, spec: Spec, w: World)
    requires LawfulEnv(e)
    ensures |w.trace| < |Reconcile(e, Found(spec), Ready, w).world.trace|
  {
    var m := Scripts.RunScript(e, spec, TargetOf(spec.clusterInfo), w);
  }

  /** The client of every pass that returns from GetClient after a publication. */
  lemma ClientOfPass(schedule: seq<Singleton.Turn>, earlier: nat, call: Singleton.Goroutine, userOk: bool)
    requires earlier <= |schedule| && Singleton.After(schedule[..earlier]).single.Some?
    requires var s := Singleton.After(schedule); call in s.places && s.places[call].Returned?
    ensures InitializeGiteaClient(Singleton.After(schedule), call, userOk) ==
            if !Singleton.StartOk(schedule[..earlier]) then NotInitialized else if userOk then Ready else InitFailed
  {
    Singleton.StartIsDecided(schedule, earlier);
    Singleton.PublicationIsFinal(schedule, earlier);
    Singleton.PublishedExactly(schedule);
    assert schedule[..|schedule|] == schedule;
    Singleton.ReturnsAgree(schedule, |schedule|, call, call);
  }

  /** A pass whose call of GetClient was turned away, as it is if and only if it found an argument nil, ends in nil
      before its first call. */
  lemma RejectedPass(schedule: seq<Singleton.Turn>, k: nat, call: Singleton.Goroutine, userOk: bool, e: Env, spec: Spec,
                     w: World)
    requires Singleton.ChecksArguments(schedule, k, call) && !schedule[k].answer
    ensures var s := Singleton.After(schedule);
            && call in s.places && Singleton.Finished(s.places[call])
            && Reconcile(e, Found(spec), InitializeGiteaClient(s, call, userOk), w) == Result(w, Done)
  {
    Singleton.RejectedExactly(schedule, call);
  }

  /** A pass panics before its first call only for want of a client. */
  lemma CrashesAtOnce(e: Env, spec: Spec, gitea: GiteaClient, w: World)
    requires LawfulEnv(e)
    ensures Reconcile(e, Found(spec), gitea, w) == Result(w, Crashed) <==> gitea == NotInitialized
  {
    if gitea == Ready {
      PassGrows(e, spec, w);
    }
  }

  /** Once a client is published, every pass that GetClient serves and that finds its object ends as that one Start did:
      it panics before its first call if and only if the Start failed, whatever else the environment answers. */
  lemma PassesCrashExactly(schedule: seq<Singleton.Turn>, earlier: nat, call: Singleton.Goroutine, userOk: bool,
                           e: Env, spec: Spec, w: World)
    requires LawfulEnv(e) && earlier <= |schedule| && Singleton.After(schedule[..earlier]).single.Some?
    requires var s := Singleton.After(schedule); call in s.places && s.places[call].Returned?
    ensures var gitea := InitializeGiteaClient(Singleton.After(schedule), call, userOk);
            Reconcile(e, Found(spec), gitea, w) == Result(w, Crashed) <==> !Singleton.StartOk(schedule[..earlier])
  {
    ClientOfPass(schedule, earlier, call, userOk);
    CrashesAtOnce(e, spec, InitializeGiteaClient(Singleton.After(schedule), call, userOk), w);
  }

  // --- What a pass does ---

  /** The result of a pass whose handler was run on the given entry: only a panic gets past it. */
  predicate Handles(e: Env, spec: Spec, ci: ClusterInfo, w: World, r: Result) {
    var h := HandleTarget(e, spec, ci, w);
    r.world == h.world && r.outcome == if h.outcome == Crashed then Crashed else Done
  }

  /** A pass that finds its object and has a client handles the last entry that names an NFDeployment, or the zero entry
      when none does. */
  lemma PassHandlesTarget(e: Env, spec: Spec, w: World)
    ensures forall i: nat :: LastTarget(spec.clusterInfo, i) ==>
              Handles(e, spec, spec.clusterInfo[i], w, Reconcile(e, Found(spec), Ready, w))
    ensures (forall i :: 0 <= i < |spec.clusterInfo| ==> !NamesNF(spec.clusterInfo[i])) ==>
              Handles(e, spec, NO_CLUSTER, w, Reconcile(e, Found(spec), Ready, w))
  {
    forall i: nat | LastTarget(spec.clusterInfo, i)
      ensures TargetOf(spec.clusterInfo) == spec.clusterInfo[i]
    {
      LastTargetIsTarget(spec.clusterInfo, i);
    }
    if forall i :: 0 <= i < |spec.clusterInfo| ==> !NamesNF(spec.clusterInfo[i]) {
      NoTarget(spec.clusterInfo);
    }
  }

  /** Every other pass makes no call: an object that is gone and a client that cannot be had end it in nil, an object
      that cannot be read in an error, a nil client in a panic. */
  lemma OtherPasses(e: Env, fetched: Fetched, gitea: GiteaClient, w: World)
    ensures var r := Reconcile(e, fetched, gitea, w);
            && (!fetched.Found? || gitea != Ready ==> r.world == w)
            && (fetched.Missing? ==> r.outcome == Done)
            && (fetched.Unreadable? ==> r.outcome == Failed)
            && (fetched.Found? && gitea.InitFailed? ==> r.outcome == Done)
            && (fetched.Found? && gitea.NotInitialized? ==> r.outcome == Crashed)
            && (r.outcome == Failed ==> fetched.Unreadable?)
  {
  }

  lemma PassWorld(e: Env, spec: Spec, w: World, i: nat)
    requires LastTarget(spec.clusterInfo, i)
    ensures Reconcile(e, Found(spec), Ready, w).world == HandleTarget(e, spec, spec.clusterInfo[i], w).world
  {
    LastTargetIsTarget(spec.clusterInfo, i);
  }

  /** The safety of runs, for passes: every change of a cluster or a repository has its event, every event is allowed by
      those before it, only objects of the target and of the dependents are removed, and only their files changed. */
  lemma PassSafety(e: Env, spec: Spec, gitea: GiteaClient, w: World, i: nat)
    requires LawfulEnv(e) && LastTarget(spec.clusterInfo, i)
    ensures var w' := Reconcile(e, Found(spec), gitea, w).world;
            var ci := spec.clusterInfo[i];
            && Safety.Explained(w, w') && Safety.SafeTrace(spec, ci, w'.trace, |w.trace|)
            && Effects.RemovesOnly(spec, Some(ci), w, w')
            && Touches.StandsButApp(e, spec, ci, e.appPath(|w.trace| + 8), w, w')
  {
    if gitea == Ready {
      PassWorld(e, spec, w, i);
      Safety.TraceSafety(e, spec, spec.clusterInfo[i], w);
      Effects.RunRemovesOnly(e, spec, spec.clusterInfo[i], w);
      Touches.RunTouchesOnly(e, spec, spec.clusterInfo[i], w);
    } else {
      Touches.NothingTouched(e, spec, spec.clusterInfo[i], e.appPath(|w.trace| + 8), w, w);
    }
  }

  lemma RunCouples(e: Env, spec: Spec, ci: ClusterInfo, w: World, t: seq<Event>)
    requires LawfulEnv(e) && Coupling.WorldSingle(e.codec, w)
    requires t == HandleTarget(e, spec, ci, w).world.trace && Safety.Matched(t, |w.trace|, ci)
    requires Scripts.EndsWell(t)
    ensures NewIPsOf(spec.interfaces).Some?
    ensures Coupling.Coupled(e.codec, spec, ci, NewIPsOf(spec.interfaces).value, |spec.clusterInfo|,
              HandleTarget(e, spec, ci, w).world)
  {
    Scripts.DoneByTrace(e, spec, ci, w);
    Coupling.CouplingConsistency(e, spec, ci, w);
  }

  /** Coupling consistency, for passes, which return nil even when their handler does not: the last call tells. After a
      pass that matched its target and did not stop early, target and dependents hold the same addresses. */
  lemma PassCouples(e: Env, spec: Spec, w: World, i: nat)
    requires LawfulEnv(e) && Coupling.WorldSingle(e.codec, w)
    requires LastTarget(spec.clusterInfo, i)
    requires var t := Reconcile(e, Found(spec), Ready, w).world.trace;
             Safety.Matched(t, |w.trace|, spec.clusterInfo[i]) && Scripts.EndsWell(t)
    ensures NewIPsOf(spec.interfaces).Some?
    ensures Coupling.Coupled(e.codec, spec, spec.clusterInfo[i], NewIPsOf(spec.interfaces).value, |spec.clusterInfo|,
              Reconcile(e, Found(spec), Ready, w).world)
  {
    PassWorld(e, spec, w, i);
    RunCouples(e, spec, spec.clusterInfo[i], w, HandleTarget(e, spec, spec.clusterInfo[i], w).world.trace);
  }
}
