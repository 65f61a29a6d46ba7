/** What the trace of a run tells, over all runs, the failed and the crashed ones included. */
module Safety {
  import opened Files
  import opened Repos
  import opened Api
  import opened Workflow

  /** The event happened in the pass that began at `base`. */
  ghost predicate Happened(t: seq<Event>, base: nat, ev: Event) {
    exists j :: base <= j < |t| && t[j] == ev
  }

  predicate IsMatch(ev: Event, repo: string) {
    ev.phase == Target && ev.ok && ev.act.Clone? && ev.act.repo == repo && ev.act.matches > 0
  }

  ghost predicate Matched(t: seq<Event>, base: nat, ci: ClusterInfo) {
    exists j :: base <= j < |t| && IsMatch(t[j], ci.repo)
  }

  /** The target's own manifests matched, and after that were pushed. */
  ghost predicate TargetPushed(t: seq<Event>, base: nat, ci: ClusterInfo) {
    exists j :: base <= j < |t| && t[j] == Event(Target, Push(ci.repo), true) && Matched(t[..j], base, ci)
  }

  /** What must have happened before an event. */
  ghost predicate SafeEvent(spec: Spec, ci: ClusterInfo, before: seq<Event>, base: nat, ev: Event) {
    match ev.phase
    case Target =>
      (match ev.act
       case GetUser => true
       case ListRepos => true
       case Clone(repo, _) => repo == ci.repo
       case ReadSecret => Matched(before, base, ci)
       case Push(repo) => repo == ci.repo && Matched(before, base, ci)
       case DeleteNF(cluster) => cluster == ci.name && TargetPushed(before, base, ci)
       case DeleteConfig(_) => false
       case _ => TargetPushed(before, base, ci))
    case DependentStart => TargetPushed(before, base, ci) && (ev.act.GetUser? || ev.act.ListRepos?)
    case Dependent(i) =>
      && TargetPushed(before, base, ci)
      && i < |spec.clusterInfo| && spec.clusterInfo[i].configRef != NO_CONFIG
      && !ev.act.DeleteNF? && !ev.act.PushApp? && !ev.act.SyncApp?
      && (ev.act.Push? ==> ev.act.repo == spec.clusterInfo[i].repo)
      && (ev.act.DeleteConfig? ==>
            && ev.act.cluster == spec.clusterInfo[i].name
            && Happened(before, base, Event(Dependent(i), Push(spec.clusterInfo[i].repo), true)))
    case Sync => TargetPushed(before, base, ci) && ev.act.SyncApp?
  }

  ghost predicate SafeTrace(spec: Spec, ci: ClusterInfo, t: seq<Event>, base: nat) {
    forall k :: base <= k < |t| ==> SafeEvent(spec, ci, t[..k], base, t[k])
  }

  predicate Deletes(act: Act, cluster: string) {
    act == DeleteNF(cluster) || act == DeleteConfig(cluster)
  }

  predicate Writes(ev: Event, repo: string) {
    ev.ok && (ev.act == Push(repo) || ev.act == PushApp(repo))
  }

  ghost predicate SameAt<T(!new)>(a: map<string, T>, b: map<string, T>, key: string) {
    (key in a <==> key in b) && (key in a ==> a[key] == b[key])
  }

  /** Every change of a cluster or a repository since `a` has its event. */
  ghost predicate Explained(a: World, b: World) {
    && |a.trace| <= |b.trace| && b.trace[..|a.trace|] == a.trace
    && (forall x :: SameAt(a.clusters, b.clusters, x) ||
          exists k :: |a.trace| <= k < |b.trace| && Deletes(b.trace[k].act, x))
    && (forall x :: SameAt(a.repos, b.repos, x) ||
          exists k :: |a.trace| <= k < |b.trace| && Writes(b.trace[k], x))
  }

  ghost predicate Good(spec: Spec, ci: ClusterInfo, w0: World, w: World) {
    Explained(w0, w) && SafeTrace(spec, ci, w.trace, |w0.trace|)
  }

  lemma Grows(t: seq<Event>, ev: Event, base: nat, ci: ClusterInfo)
    ensures Matched(t, base, ci) ==> Matched(t + [ev], base, ci)
    ensures TargetPushed(t, base, ci) ==> TargetPushed(t + [ev], base, ci)
    ensures base <= |t| && IsMatch(ev, ci.repo) ==> Matched(t + [ev], base, ci)
    ensures base <= |t| && Matched(t, base, ci) && ev == Event(Target, Push(ci.repo), true) ==>
              TargetPushed(t + [ev], base, ci)
  {
    var t' := t + [ev];
    assert t'[|t|] == ev && t'[..|t|] == t;
    if Matched(t, base, ci) {
      var j :| base <= j < |t| && IsMatch(t[j], ci.repo);
      assert IsMatch(t'[j], ci.repo);
    }
    if TargetPushed(t, base, ci) {
      var j :| base <= j < |t| && t[j] == Event(Target, Push(ci.repo), true) && Matched(t[..j], base, ci);
      assert t'[j] == t[j] && t'[..j] == t[..j];
    }
  }

  lemma HappenedGrows(t: seq<Event>, ev: Event, base: nat, f: Event)
    requires base <= |t|
    ensures Happened(t + [ev], base, ev)
    ensures Happened(t, base, f) ==> Happened(t + [ev], base, f)
  {
    assert (t + [ev])[|t|] == ev;
    if Happened(t, base, f) {
      var j :| base <= j < |t| && t[j] == f;
      assert (t + [ev])[j] == f;
    }
  }

  /** One call more. */
  lemma StepGood(spec: Spec, ci: ClusterInfo, w0: World, w: World, w1: World, ev: Event)
    requires Good(spec, ci, w0, w)
    requires w1.trace == w.trace + [ev]
    requires SafeEvent(spec, ci, w.trace, |w0.trace|, ev)
    requires forall x :: SameAt(w.clusters, w1.clusters, x) || Deletes(ev.act, x)
    requires forall x :: SameAt(w.repos, w1.repos, x) || Writes(ev, x)
    ensures Good(spec, ci, w0, w1)
    ensures TargetPushed(w.trace, |w0.trace|, ci) ==> TargetPushed(w1.trace, |w0.trace|, ci)
    ensures Matched(w.trace, |w0.trace|, ci) ==> Matched(w1.trace, |w0.trace|, ci)
    ensures IsMatch(ev, ci.repo) ==> Matched(w1.trace, |w0.trace|, ci)
    ensures Matched(w.trace, |w0.trace|, ci) && ev == Event(Target, Push(ci.repo), true) ==>
              TargetPushed(w1.trace, |w0.trace|, ci)
  {
    Grows(w.trace, ev, |w0.trace|, ci);
    StepSafe(spec, ci, w.trace, |w0.trace|, ev);
    StepExplained(w0, w, w1, ev);
  }

  lemma StepSafe(spec: Spec, ci: ClusterInfo, t: seq<Event>, base: nat, ev: Event)
    requires SafeTrace(spec, ci, t, base) && SafeEvent(spec, ci, t, base, ev)
    ensures SafeTrace(spec, ci, t + [ev], base)
  {
    var t' := t + [ev];
    forall k | base <= k < |t'|
      ensures SafeEvent(spec, ci, t'[..k], base, t'[k])
    {
      if k < |t| {
        assert t'[..k] == t[..k] && t'[k] == t[k];
      } else {
        assert t'[..k] == t;
      }
    }
  }

  lemma StepExplained(a: World, b: World, c: World, ev: Event)
    requires Explained(a, b)
    requires c.trace == b.trace + [ev]
    requires forall x :: SameAt(b.clusters, c.clusters, x) || Deletes(ev.act, x)
    requires forall x :: SameAt(b.repos, c.repos, x) || Writes(ev, x)
    ensures Explained(a, c)
  {
    var n := |b.trace|;
    assert c.trace[n] == ev;
    assert forall k :: 0 <= k < n ==> c.trace[k] == b.trace[k];
    forall x
      ensures SameAt(a.clusters, c.clusters, x) || exists k :: |a.trace| <= k < |c.trace| && Deletes(c.trace[k].act, x)
    {
      if Deletes(ev.act, x) {
        assert Deletes(c.trace[n].act, x);
      } else if !SameAt(a.clusters, b.clusters, x) {
        var k :| |a.trace| <= k < n && Deletes(b.trace[k].act, x);
        assert Deletes(c.trace[k].act, x);
      }
    }
    forall x
      ensures SameAt(a.repos, c.repos, x) || exists k :: |a.trace| <= k < |c.trace| && Writes(c.trace[k], x)
    {
      if Writes(ev, x) {
        assert Writes(c.trace[n], x);
      } else if !SameAt(a.repos, b.repos, x) {
        var k :| |a.trace| <= k < n && Writes(b.trace[k], x);
        assert Writes(c.trace[k], x);
      }
    }
  }

  lemma StartGood(spec: Spec, ci: ClusterInfo, w: World)
    ensures Good(spec, ci, w, w)
  {
  }

  /** So far so good, and the target is pushed. */
  ghost predicate Pass(spec: Spec, ci: ClusterInfo, w0: World, w: World) {
    Good(spec, ci, w0, w) && TargetPushed(w.trace, |w0.trace|, ci)
  }

  lemma PassPlain(e: Env, spec: Spec, ci: ClusterInfo, w0: World, w: World, phase: Phase, act: Act)
    requires Pass(spec, ci, w0, w)
    requires SafeEvent(spec, ci, w.trace, |w0.trace|, Event(phase, act, Asked(e, w)))
    ensures Pass(spec, ci, w0, Plain(e, w, phase, act))
  {
    StepGood(spec, ci, w0, w, Plain(e, w, phase, act), Event(phase, act, Asked(e, w)));
  }

  lemma PassLookup(e: Env, spec: Spec, ci: ClusterInfo, w0: World, w: World, phase: Phase, cluster: string)
    requires Pass(spec, ci, w0, w)
    requires phase == Target || (phase.Dependent? && phase.entry < |spec.clusterInfo| &&
                                 spec.clusterInfo[phase.entry].configRef != NO_CONFIG)
    ensures Pass(spec, ci, w0, AfterLookup(e, w, phase, cluster))
    ensures LastOk(AfterLookup(e, w, phase, cluster)) ==> cluster in w.clusters
  {
    var w1 := AfterLookup(e, w, phase, cluster);
    StepGood(spec, ci, w0, w, w1, w1.trace[|w.trace|]);
  }

  lemma PassPush(e: Env, spec: Spec, ci: ClusterInfo, w0: World, w: World, i: nat, files: Repo)
    requires Pass(spec, ci, w0, w)
    requires i < |spec.clusterInfo| && spec.clusterInfo[i].configRef != NO_CONFIG
    ensures var w1 := AfterPush(e, w, Dependent(i), spec.clusterInfo[i].repo, files);
            && Pass(spec, ci, w0, w1)
            && (LastOk(w1) ==>
                  Happened(w1.trace, |w0.trace|, Event(Dependent(i), Push(spec.clusterInfo[i].repo), true)))
  {
    var w1 := AfterPush(e, w, Dependent(i), spec.clusterInfo[i].repo, files);
    var ev := w1.trace[|w.trace|];
    StepGood(spec, ci, w0, w, w1, ev);
    HappenedGrows(w.trace, ev, |w0.trace|, ev);
  }

  lemma PassDeleteConfig(e: Env, spec: Spec, ci: ClusterInfo, w0: World, w: World, i: nat)
    requires Pass(spec, ci, w0, w)
    requires i < |spec.clusterInfo| && spec.clusterInfo[i].configRef != NO_CONFIG
    requires Happened(w.trace, |w0.trace|, Event(Dependent(i), Push(spec.clusterInfo[i].repo), true))
    requires spec.clusterInfo[i].name in w.clusters
    ensures var dep := spec.clusterInfo[i];
            Pass(spec, ci, w0, AfterDeleteConfig(e, w, Dependent(i), dep.name, dep.configRef))
  {
    var w1 := AfterDeleteConfig(e, w, Dependent(i), spec.clusterInfo[i].name, spec.clusterInfo[i].configRef);
    StepGood(spec, ci, w0, w, w1, w1.trace[|w.trace|]);
  }

  lemma PassDeleteNF(e: Env, spec: Spec, ci: ClusterInfo, w0: World, w: World)
    requires Pass(spec, ci, w0, w) && ci.name in w.clusters
    ensures Pass(spec, ci, w0, AfterDeleteNF(e, w, Target, ci.name, ci.nfDeployment))
  {
    var w1 := AfterDeleteNF(e, w, Target, ci.name, ci.nfDeployment);
    StepGood(spec, ci, w0, w, w1, w1.trace[|w.trace|]);
  }

  lemma PassPushApp(e: Env, spec: Spec, ci: ClusterInfo, w0: World, w: World)
    requires Pass(spec, ci, w0, w)
    ensures Pass(spec, ci, w0, AfterPushApp(e, w, ci))
  {
    var w1 := AfterPushApp(e, w, ci);
    StepGood(spec, ci, w0, w, w1, w1.trace[|w.trace|]);
  }

  // --- Through the dependent handler ---

  lemma EntryGood(e: Env, spec: Spec, ci: ClusterInfo, w0: World, i: nat, w: World, apps: Apps)
    requires i < |spec.clusterInfo|
    requires Pass(spec, ci, w0, w)
    ensures Pass(spec, ci, w0, Entry(e, spec, i, w, apps).world)
  {
    var dep := spec.clusterInfo[i];
    if dep.configRef != NO_CONFIG {
      var c := CheckRepo(e, w, dep.repo, dep.configRef.id);
      var w1 := AfterCheck(w, Dependent(i), dep.repo, c);
      StepGood(spec, ci, w0, w, w1, w1.trace[|w.trace|]);
      if c.Some? && c.value.matches != [] {
        RewriteEntryGood(e, spec, ci, w0, i, w1, apps, c.value);
      }
    }
  }

  lemma RewriteEntryGood(e: Env, spec: Spec, ci: ClusterInfo, w0: World, i: nat, w: World, apps: Apps, c: Checkout)
    requires i < |spec.clusterInfo| && spec.clusterInfo[i].configRef != NO_CONFIG
    requires Pass(spec, ci, w0, w)
    ensures Pass(spec, ci, w0, RewriteEntry(e, spec, i, w, apps, c).world)
  {
    if NewIPsOf(spec.interfaces).Some? {
      var tree := Fold(e.codec, UpdateConfig(NewIPsOf(spec.interfaces).value), c.files, c.matches);
      if tree.status.Success? {
        var w1 := Plain(e, w, Dependent(i), ReadSecret);
        PassPlain(e, spec, ci, w0, w, Dependent(i), ReadSecret);
        if LastOk(w1) {
          PassPush(e, spec, ci, w0, w1, i, tree.repo);
          var w2 := AfterPush(e, w1, Dependent(i), spec.clusterInfo[i].repo, tree.repo);
          if LastOk(w2) {
            FinishEntryGood(e, spec, ci, w0, i, w2, apps);
          }
        }
      }
    }
  }

  lemma FinishEntryGood(e: Env, spec: Spec, ci: ClusterInfo, w0: World, i: nat, w: World, apps: Apps)
    requires i < |spec.clusterInfo| && spec.clusterInfo[i].configRef != NO_CONFIG
    requires Pass(spec, ci, w0, w)
    requires Happened(w.trace, |w0.trace|, Event(Dependent(i), Push(spec.clusterInfo[i].repo), true))
    ensures Pass(spec, ci, w0, FinishEntry(e, spec.clusterInfo[i], i, w, apps).world)
  {
    var dep := spec.clusterInfo[i];
    var push := Event(Dependent(i), Push(dep.repo), true);
    var w1 := AfterLookup(e, w, Dependent(i), dep.name);
    PassLookup(e, spec, ci, w0, w, Dependent(i), dep.name);
    if LastOk(w1) {
      PassPlain(e, spec, ci, w0, w1, Dependent(i), ListApps(dep.name));
      HappenedGrows(w.trace, w1.trace[|w.trace|], |w0.trace|, push);
      HappenedGrows(w1.trace, Event(Dependent(i), ListApps(dep.name), Asked(e, w1)), |w0.trace|, push);
      PassDeleteConfig(e, spec, ci, w0, Plain(e, w1, Dependent(i), ListApps(dep.name)), i);
    }
  }

  lemma {:induction false} EntriesGood(e: Env, spec: Spec, ci: ClusterInfo, w0: World, i: nat, w: World, apps: Apps)
    requires i <= |spec.clusterInfo|
    requires Pass(spec, ci, w0, w)
    ensures Pass(spec, ci, w0, Entries(e, spec, i, w, apps).world)
    decreases |spec.clusterInfo| - i
  {
    if i == |spec.clusterInfo| {
    } else {
      EntryGood(e, spec, ci, w0, i, w, apps);
      var p := Entry(e, spec, i, w, apps);
      if p.outcome == Done {
        EntriesGood(e, spec, ci, w0, i + 1, p.world, p.apps);
      }
    }
  }

  lemma {:induction false} SyncAppsGood(e: Env, spec: Spec, ci: ClusterInfo, w0: World, keys: seq<string>, apps: Apps,
                                        w: World)
    requires forall k :: k in keys ==> k in apps
    requires Pass(spec, ci, w0, w)
    ensures Pass(spec, ci, w0, SyncApps(e, keys, apps, w))
    decreases |keys|
  {
    if keys == [] {
    } else {
      var act := SyncApp(apps[keys[0]].name, apps[keys[0]].client);
      var w1 := Plain(e, w, Sync, act);
      PassPlain(e, spec, ci, w0, w, Sync, act);
      PassPlain(e, spec, ci, w0, w1, Sync, act);
      SyncAppsGood(e, spec, ci, w0, keys[1..], apps, Plain(e, w1, Sync, act));
    }
  }

  lemma DependentsGood(e: Env, spec: Spec, ci: ClusterInfo, w0: World, w: World)
    requires Pass(spec, ci, w0, w)
    ensures Pass(spec, ci, w0, HandleDependents(e, spec, w).world)
  {
    var w1 := Plain(e, w, DependentStart, GetUser);
    PassPlain(e, spec, ci, w0, w, DependentStart, GetUser);
    if LastOk(w1) {
      var w2 := Plain(e, w1, DependentStart, ListRepos);
      PassPlain(e, spec, ci, w0, w1, DependentStart, ListRepos);
      EntriesGood(e, spec, ci, w0, 0, w2, map[]);
      var p := Entries(e, spec, 0, w2, map[]);
      if p.outcome == Done {
        SyncAppsGood(e, spec, ci, w0, Order(e, p.world, p.apps), p.apps, p.world);
      }
    }
  }

  // --- Through the target handler ---

  lemma DeployGood(e: Env, spec: Spec, ci: ClusterInfo, w0: World, w: World)
    requires Pass(spec, ci, w0, w)
    ensures Pass(spec, ci, w0, Deploy(e, spec, ci, w).world)
  {
    var w1 := AfterLookup(e, w, Target, ci.name);
    PassLookup(e, spec, ci, w0, w, Target, ci.name);
    if LastOk(w1) {
      var w2 := Plain(e, w1, Target, ListApps(ci.name));
      PassPlain(e, spec, ci, w0, w1, Target, ListApps(ci.name));
      PassDeleteNF(e, spec, ci, w0, w2);
      var w3 := AfterPushApp(e, AfterDeleteNF(e, w2, Target, ci.name, ci.nfDeployment), ci);
      PassPushApp(e, spec, ci, w0, AfterDeleteNF(e, w2, Target, ci.name, ci.nfDeployment));
      HandOverGood(e, spec, ci, w0, w3);
    }
  }

  lemma HandOverGood(e: Env, spec: Spec, ci: ClusterInfo, w0: World, w: World)
    requires Pass(spec, ci, w0, w)
    ensures var w1 := AfterLookup(e, w, Target, ci.targetCluster.name);
            && Pass(spec, ci, w0, w1)
            && (LastOk(w1) ==>
                  var w2 := Plain(e, w1, Target, SyncApp(ci.targetCluster.name, |w.trace|));
                  Pass(spec, ci, w0, HandleDependents(e, spec, w2).world))
  {
    var w1 := AfterLookup(e, w, Target, ci.targetCluster.name);
    PassLookup(e, spec, ci, w0, w, Target, ci.targetCluster.name);
    if LastOk(w1) {
      PassPlain(e, spec, ci, w0, w1, Target, SyncApp(ci.targetCluster.name, |w.trace|));
      DependentsGood(e, spec, ci, w0, Plain(e, w1, Target, SyncApp(ci.targetCluster.name, |w.trace|)));
    }
  }

  lemma TargetPushGood(e: Env, spec: Spec, ci: ClusterInfo, w0: World, w: World, files: Repo)
    requires Good(spec, ci, w0, w) && Matched(w.trace, |w0.trace|, ci)
    ensures var w1 := AfterPush(e, w, Target, ci.repo, files);
            Good(spec, ci, w0, w1) && (LastOk(w1) ==> Pass(spec, ci, w0, w1))
  {
    var w1 := AfterPush(e, w, Target, ci.repo, files);
    StepGood(spec, ci, w0, w, w1, w1.trace[|w.trace|]);
  }

  lemma RewriteAndPushGood(e: Env, spec: Spec, ci: ClusterInfo, w0: World, w: World, c: Checkout)
    requires Good(spec, ci, w0, w) && Matched(w.trace, |w0.trace|, ci)
    ensures Good(spec, ci, w0, RewriteAndPush(e, spec, ci, w, c).world)
  {
    var tree := RewriteTarget(e.codec, spec.interfaces, c.files, e.walk(c.files.Keys), c.matches);
    if tree.status.Success? {
      var w1 := Plain(e, w, Target, ReadSecret);
      StepGood(spec, ci, w0, w, w1, Event(Target, ReadSecret, Asked(e, w)));
      if LastOk(w1) {
        TargetPushGood(e, spec, ci, w0, w1, tree.repo);
        var w2 := AfterPush(e, w1, Target, ci.repo, tree.repo);
        if LastOk(w2) {
          DeployGood(e, spec, ci, w0, w2);
        }
      }
    }
  }

  /** Up to the clone of the target's repository. */
  lemma CheckGood(e: Env, spec: Spec, ci: ClusterInfo, w: World)
    ensures var w2 := Plain(e, Plain(e, w, Target, GetUser), Target, ListRepos);
            var c := CheckRepo(e, w2, ci.repo, ci.nfDeployment);
            var w3 := AfterCheck(w2, Target, ci.repo, c);
            && Good(spec, ci, w, w3)
            && (c.Some? && c.value.matches != [] ==> Matched(w3.trace, |w.trace|, ci))
  {
    StartGood(spec, ci, w);
    var w1 := Plain(e, w, Target, GetUser);
    StepGood(spec, ci, w, w, w1, w1.trace[|w.trace|]);
    var w2 := Plain(e, w1, Target, ListRepos);
    StepGood(spec, ci, w, w1, w2, w2.trace[|w1.trace|]);
    var c := CheckRepo(e, w2, ci.repo, ci.nfDeployment);
    var w3 := AfterCheck(w2, Target, ci.repo, c);
    StepGood(spec, ci, w, w2, w3, w3.trace[|w2.trace|]);
    if c.Some? && c.value.matches != [] {
      assert IsMatch(w3.trace[|w2.trace|], ci.repo);
    }
  }

  /** Trace safety. In every run of the handler, however it ends: a cluster changes only by a delete that the trace
      shows, a repository only by a successful push; every delete on the source cluster, and on the cluster of a
      dependent entry, comes after a successful push to that very repository in the same pass; and nothing of the
      dependent phase comes before the target's manifests have matched and been pushed. */
  lemma TraceSafety(e: Env, spec: Spec, ci: ClusterInfo, w: World)
    ensures var w' := HandleTarget(e, spec, ci, w).world;
            Explained(w, w') && SafeTrace(spec, ci, w'.trace, |w.trace|)
  {
    var w1 := Plain(e, w, Target, GetUser);
    StartGood(spec, ci, w);
    StepGood(spec, ci, w, w, w1, w1.trace[|w.trace|]);
    if LastOk(w1) {
      CheckGood(e, spec, ci, w);
      var w2 := Plain(e, w1, Target, ListRepos);
      var c := CheckRepo(e, w2, ci.repo, ci.nfDeployment);
      if c.Some? && c.value.matches != [] {
        RewriteAndPushGood(e, spec, ci, w, AfterCheck(w2, Target, ci.repo, c), c.value);
      }
    }
  }

  /** A push for the same part of the run, before time `k`, of manifests that describe the cluster. */
  ghost predicate PushedFor(spec: Spec, ci: ClusterInfo, t: seq<Event>, base: nat, k: nat, cluster: string)
    requires k < |t|
  {
    exists j :: base <= j < k && t[j].ok && t[j].phase == t[k].phase && PushDescribes(spec, ci, t[j], cluster)
  }

  predicate PushDescribes(spec: Spec, ci: ClusterInfo, ev: Event, cluster: string) {
    || (ev.phase == Target && cluster == ci.name && ev.act == Push(ci.repo))
    || (ev.phase.Dependent? && ev.phase.entry < |spec.clusterInfo| && spec.clusterInfo[ev.phase.entry].name == cluster
        && ev.act == Push(spec.clusterInfo[ev.phase.entry].repo))
  }

  lemma DeleteWasPushed(spec: Spec, ci: ClusterInfo, t: seq<Event>, base: nat, k: nat, cluster: string)
    requires SafeTrace(spec, ci, t, base) && base <= k < |t| && Deletes(t[k].act, cluster)
    ensures PushedFor(spec, ci, t, base, k, cluster)
  {
    var before := t[..k];
    assert SafeEvent(spec, ci, before, base, t[k]);
    if t[k].phase == Target {
      var j :| base <= j < |before| && before[j] == Event(Target, Push(ci.repo), true) &&
               Matched(before[..j], base, ci);
      assert PushDescribes(spec, ci, t[j], cluster);
    } else {
      var push := Event(t[k].phase, Push(spec.clusterInfo[t[k].phase.entry].repo), true);
      var j :| base <= j < |before| && before[j] == push;
      assert PushDescribes(spec, ci, t[j], cluster);
    }
  }

  /** The same, read off for one cluster: if its objects changed, manifests describing it were pushed before. */
  lemma NoDeleteWithoutPush(e: Env, spec: Spec, ci: ClusterInfo, w: World, cluster: string) returns (k: nat)
    requires !SameAt(w.clusters, HandleTarget(e, spec, ci, w).world.clusters, cluster)
    ensures var t := HandleTarget(e, spec, ci, w).world.trace;
            && |w.trace| <= k < |t| && Deletes(t[k].act, cluster)
            && PushedFor(spec, ci, t, |w.trace|, k, cluster)
  {
    TraceSafety(e, spec, ci, w);
    var t := HandleTarget(e, spec, ci, w).world.trace;
    k :| |w.trace| <= k < |t| && Deletes(t[k].act, cluster);
    DeleteWasPushed(spec, ci, t, |w.trace|, k, cluster);
  }
}
