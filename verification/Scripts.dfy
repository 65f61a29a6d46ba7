/** Which calls a run makes, in which order, where it ends, and how. */
module Scripts {
  import opened Documents
  import opened Files
  import opened Repos
  import opened Api
  import opened Settling
  import opened Workflow
  import Returns
  import SyncPhase

  /** The calls of the target handler before it turns to the dependents, when `m` files match; the run begins at
      time `base`. */
  function TargetScript(e: Env, ci: ClusterInfo, base: nat, m: nat): seq<Act> {
    [GetUser, ListRepos, Clone(ci.repo, m), ReadSecret, Push(ci.repo),
     Lookup(ci.name), ListApps(ci.name), DeleteNF(ci.name), PushApp(e.repoUrl(ci.targetCluster.name)),
     Lookup(ci.targetCluster.name), SyncApp(ci.targetCluster.name, base + 9)]
  }

  /** The target handler goes on after this call. */
  predicate GoesOn(ev: Event) {
    && ((ev.act.GetUser? || ev.act.Clone? || ev.act.ReadSecret? || ev.act.Push? || ev.act.Lookup?) ==> ev.ok)
    && (ev.act.Clone? ==> ev.act.matches > 0)
  }

  /** The trace since `base` is a beginning of the target's script. */
  ghost predicate OnScript(e: Env, ci: ClusterInfo, base: nat, m: nat, t: seq<Event>) {
    base <= |t| <= base + 11 && forall k :: base <= k < |t| ==> OnScriptAt(e, ci, base, m, t, k)
  }

  predicate OnScriptAt(e: Env, ci: ClusterInfo, base: nat, m: nat, t: seq<Event>, k: nat)
    requires base <= k < |t| && k < base + 11
  {
    && t[k].phase == Target && t[k].act == TargetScript(e, ci, base, m)[k - base]
    && (k > base ==> GoesOn(t[k - 1]))
  }

  // --- The dependents' calls, from one to the next ---

  /** The entry from which the loop goes on after this call, if an entry ends with it. */
  function NextEntry(ev: Event): Option<nat> {
    match ev.phase
    case DependentStart => if ev.act.ListRepos? then Some(0) else None
    case Dependent(i) =>
      if ev.act.DeleteConfig? || (ev.act.Clone? && ev.ok && ev.act.matches == 0) then Some(i + 1) else None
    case _ => None
  }

  ghost predicate NoConfigs(spec: Spec, from: nat, to: nat) {
    forall j :: from <= j < to && j < |spec.clusterInfo| ==> spec.clusterInfo[j].configRef == NO_CONFIG
  }

  /** The call begins the first entry with a Config from `i` on, or the syncs if there is none. */
  ghost predicate Begins(spec: Spec, i: nat, ev: Event) {
    match ev.phase
    case Dependent(j) =>
      && i <= j < |spec.clusterInfo| && NoConfigs(spec, i, j) && spec.clusterInfo[j].configRef != NO_CONFIG
      && ev.act.Clone? && ev.act.repo == spec.clusterInfo[j].repo
    case Sync => NoConfigs(spec, i, |spec.clusterInfo|) && ev.act.SyncApp?
    case _ => false
  }

  /** What comes after a call within one entry. */
  predicate Continues(dep: ClusterInfo, prev: Event, act: Act) {
    match prev.act
    case Clone(_, _) => prev.ok && act == ReadSecret
    case ReadSecret => prev.ok && act == Push(dep.repo)
    case Push(_) => prev.ok && act == Lookup(dep.name)
    case Lookup(_) => prev.ok && act == ListApps(dep.name)
    case ListApps(_) => act == DeleteConfig(dep.name)
    case _ => false
  }

  ghost predicate Follows(spec: Spec, prev: Event, ev: Event) {
    match NextEntry(prev)
    case Some(i) => Begins(spec, i, ev)
    case None =>
      match prev.phase
      case Target => false
      case DependentStart => prev.act.GetUser? && prev.ok && ev.phase == DependentStart && ev.act == ListRepos
      case Dependent(i) =>
        i < |spec.clusterInfo| && ev.phase == prev.phase && Continues(spec.clusterInfo[i], prev, ev.act)
      case Sync => ev.phase == Sync && ev.act.SyncApp?
  }

  /** From `base` on, the trace is one of the dependent handler. */
  ghost predicate Chained(spec: Spec, base: nat, t: seq<Event>) {
    && base < |t| && t[base].phase == DependentStart && t[base].act == GetUser
    && forall k :: base < k < |t| ==> Follows(spec, t[k - 1], t[k])
  }

  // --- How runs end ---

  /** The outcome, by the last call: an error after a failed user query, clone, secret or push; a panic after a lookup
      that gave no client, or right after a clone with matches, when rewriting panicked; nil otherwise. */
  predicate EndsAs(ev: Event, outcome: Outcome) {
    if !ev.ok && (ev.act.GetUser? || ev.act.Clone? || ev.act.ReadSecret? || ev.act.Push?) then outcome == Failed
    else if (!ev.ok && ev.act.Lookup?) || (ev.act.Clone? && ev.act.matches > 0) then outcome == Crashed
    else outcome == Done
  }

  /** A run may return nil after this call: the target has no match, or no entry with a Config is left. */
  ghost predicate Complete(spec: Spec, ev: Event) {
    || (ev.phase == Target && ev.act.Clone? && ev.act.matches == 0)
    || ev.phase == Sync
    || (NextEntry(ev).Some? && NoConfigs(spec, NextEntry(ev).value, |spec.clusterInfo|))
  }

  ghost predicate Ends(spec: Spec, t: seq<Event>, outcome: Outcome) {
    t != [] && EndsAs(t[|t| - 1], outcome) && (outcome == Done ==> Complete(spec, t[|t| - 1]))
  }

  // --- Through the dependent handler ---

  lemma ChainStep(spec: Spec, base: nat, t: seq<Event>, ev: Event)
    requires Chained(spec, base, t) && Follows(spec, t[|t| - 1], ev)
    ensures Chained(spec, base, t + [ev])
  {
    var t' := t + [ev];
    forall k | base < k < |t'|
      ensures Follows(spec, t'[k - 1], t'[k])
    {
      if k < |t| {
        assert t'[k - 1] == t[k - 1] && t'[k] == t[k];
      }
    }
  }

  /** Entry `i` comes next. */
  ghost predicate At(spec: Spec, base: nat, i: nat, t: seq<Event>) {
    && Chained(spec, base, t)
    && var o := NextEntry(t[|t| - 1]);
    o.Some? && o.value <= i && NoConfigs(spec, o.value, i) && EndsAs(t[|t| - 1], Done)
  }

  /** The loop has stopped with this outcome, or entry `i` comes next. */
  ghost predicate Progresses(spec: Spec, base: nat, i: nat, t: seq<Event>, outcome: Outcome) {
    if outcome == Done then At(spec, base, i, t) else Chained(spec, base, t) && EndsAs(t[|t| - 1], outcome)
  }

  lemma FinishScript(e: Env, spec: Spec, base: nat, i: nat, w: World, apps: Apps)
    requires i < |spec.clusterInfo| && Chained(spec, base, w.trace)
    requires w.trace[|w.trace| - 1] == Event(Dependent(i), Push(spec.clusterInfo[i].repo), true)
    ensures var p := FinishEntry(e, spec.clusterInfo[i], i, w, apps);
            Progresses(spec, base, i + 1, p.world.trace, p.outcome)
  {
    var dep := spec.clusterInfo[i];
    var w1 := AfterLookup(e, w, Dependent(i), dep.name);
    ChainStep(spec, base, w.trace, w1.trace[|w.trace|]);
    if LastOk(w1) {
      var w2 := Plain(e, w1, Dependent(i), ListApps(dep.name));
      ChainStep(spec, base, w1.trace, w2.trace[|w1.trace|]);
      var w3 := AfterDeleteConfig(e, w2, Dependent(i), dep.name, dep.configRef);
      ChainStep(spec, base, w2.trace, w3.trace[|w2.trace|]);
    }
  }

  lemma PublishScript(e: Env, spec: Spec, base: nat, i: nat, w: World, apps: Apps, files: Repo)
    requires i < |spec.clusterInfo| && Chained(spec, base, w.trace)
    requires var last := w.trace[|w.trace| - 1];
             last.phase == Dependent(i) && last.act.Clone? && last.act.matches > 0 && last.ok
    ensures var p := PublishEntry(e, spec.clusterInfo[i], i, w, apps, files);
            Progresses(spec, base, i + 1, p.world.trace, p.outcome)
  {
    var w1 := Plain(e, w, Dependent(i), ReadSecret);
    ChainStep(spec, base, w.trace, w1.trace[|w.trace|]);
    if LastOk(w1) {
      var w2 := AfterPush(e, w1, Dependent(i), spec.clusterInfo[i].repo, files);
      ChainStep(spec, base, w1.trace, w2.trace[|w1.trace|]);
      if LastOk(w2) {
        FinishScript(e, spec, base, i, w2, apps);
      }
    }
  }

  lemma RewriteScript(e: Env, spec: Spec, base: nat, i: nat, w: World, apps: Apps, c: Checkout)
    requires LawfulEnv(e) && i < |spec.clusterInfo| && Chained(spec, base, w.trace)
    requires var last := w.trace[|w.trace| - 1];
             last.phase == Dependent(i) && last.act.Clone? && last.act.matches > 0 && last.ok
    requires Scan(e.codec, c.files, e.walk(c.files.Keys), spec.clusterInfo[i].configRef.id) == Some(c.matches)
    ensures var p := RewriteEntry(e, spec, i, w, apps, c); Progresses(spec, base, i + 1, p.world.trace, p.outcome)
  {
    if NewIPsOf(spec.interfaces).Some? {
      var ips, paths := NewIPsOf(spec.interfaces).value, e.walk(c.files.Keys);
      assert Enumerates(paths, c.files.Keys);
      Returns.ScannedConfigsOk(e.codec, ips, c.files, paths, spec.clusterInfo[i].configRef.id);
      FoldMeaning(e.codec, UpdateConfig(ips), c.files, c.matches);
      PublishScript(e, spec, base, i, w, apps, Fold(e.codec, UpdateConfig(ips), c.files, c.matches).repo);
    }
  }

  lemma EntryScript(e: Env, spec: Spec, base: nat, i: nat, w: World, apps: Apps)
    requires LawfulEnv(e) && i < |spec.clusterInfo| && At(spec, base, i, w.trace)
    ensures var p := Entry(e, spec, i, w, apps); Progresses(spec, base, i + 1, p.world.trace, p.outcome)
  {
    var dep := spec.clusterInfo[i];
    if dep.configRef != NO_CONFIG {
      var c := CheckRepo(e, w, dep.repo, dep.configRef.id);
      var w1 := AfterCheck(w, Dependent(i), dep.repo, c);
      ChainStep(spec, base, w.trace, w1.trace[|w.trace|]);
      if c.Some? && c.value.matches != [] {
        RewriteScript(e, spec, base, i, w1, apps, c.value);
      }
    }
  }

  lemma {:induction false} EntriesScript(e: Env, spec: Spec, base: nat, i: nat, w: World, apps: Apps)
    requires LawfulEnv(e) && i <= |spec.clusterInfo| && At(spec, base, i, w.trace)
    ensures var p := Entries(e, spec, i, w, apps);
            Progresses(spec, base, |spec.clusterInfo|, p.world.trace, p.outcome)
    decreases |spec.clusterInfo| - i
  {
    if i == |spec.clusterInfo| {
    } else {
      EntryScript(e, spec, base, i, w, apps);
      var p := Entry(e, spec, i, w, apps);
      if p.outcome == Done {
        EntriesScript(e, spec, base, i + 1, p.world, p.apps);
      }
    }
  }

  lemma {:induction false} SyncsScript(e: Env, spec: Spec, base: nat, keys: seq<string>, apps: Apps, w: World)
    requires forall k :: k in keys ==> k in apps
    requires Chained(spec, base, w.trace) && Ends(spec, w.trace, Done)
    requires var last := w.trace[|w.trace| - 1]; last.phase == Sync || NextEntry(last).Some?
    ensures var t := SyncApps(e, keys, apps, w).trace; Chained(spec, base, t) && Ends(spec, t, Done)
    decreases |keys|
  {
    if keys == [] {
    } else {
      var act := SyncApp(apps[keys[0]].name, apps[keys[0]].client);
      var w1 := Plain(e, w, Sync, act);
      ChainStep(spec, base, w.trace, w1.trace[|w.trace|]);
      var w2 := Plain(e, w1, Sync, act);
      ChainStep(spec, base, w1.trace, w2.trace[|w1.trace|]);
      SyncsScript(e, spec, base, keys[1..], apps, w2);
    }
  }

  /** The dependent handler, over all runs: each call follows the one before it as `Follows` says, for the entries with
      a Config in their order and none left out; the run ends where it may, and the last call tells how. */
  lemma DependentsScript(e: Env, spec: Spec, w: World)
    requires LawfulEnv(e)
    ensures var r := HandleDependents(e, spec, w);
            Chained(spec, |w.trace|, r.world.trace) && Ends(spec, r.world.trace, r.outcome)
  {
    var w1 := Plain(e, w, DependentStart, GetUser);
    if LastOk(w1) {
      var w2 := Plain(e, w1, DependentStart, ListRepos);
      ChainStep(spec, |w.trace|, w1.trace, w2.trace[|w1.trace|]);
      EntriesScript(e, spec, |w.trace|, 0, w2, map[]);
      var p := Entries(e, spec, 0, w2, map[]);
      if p.outcome == Done {
        SyncsScript(e, spec, |w.trace|, Order(e, p.world, p.apps), p.apps, p.world);
      }
    }
  }

  // --- Through the target handler ---

  lemma ScriptStep(e: Env, ci: ClusterInfo, base: nat, m: nat, t: seq<Event>, ev: Event)
    requires OnScript(e, ci, base, m, t) && |t| < base + 11
    requires ev.phase == Target && ev.act == TargetScript(e, ci, base, m)[|t| - base]
    requires |t| > base ==> GoesOn(t[|t| - 1])
    ensures OnScript(e, ci, base, m, t + [ev])
  {
    var t' := t + [ev];
    forall k | base <= k < |t'|
      ensures OnScriptAt(e, ci, base, m, t', k)
    {
      if k < |t| {
        assert OnScriptAt(e, ci, base, m, t, k) && t'[k] == t[k] && (k > base ==> t'[k - 1] == t[k - 1]);
      }
    }
  }

  /** A whole run: a beginning of the target's script, or all of it and then a run of the dependent handler. */
  ghost predicate Scripted(e: Env, spec: Spec, ci: ClusterInfo, base: nat, m: nat, t: seq<Event>) {
    if |t| < base + 11 then base < |t| && OnScript(e, ci, base, m, t)
    else OnScript(e, ci, base, m, t[..base + 11]) && Chained(spec, base + 11, t)
  }

  lemma DependentsExtend(e: Env, spec: Spec, w: World)
    requires LawfulEnv(e)
    ensures var t := HandleDependents(e, spec, w).world.trace; |w.trace| <= |t| && t[..|w.trace|] == w.trace
  {
    var split := SyncPhase.SyncPhaseMeaning(e, spec, w, "");
  }

  lemma HandOverScript(e: Env, spec: Spec, ci: ClusterInfo, base: nat, m: nat, w: World)
    requires LawfulEnv(e) && OnScript(e, ci, base, m, w.trace)
    requires |w.trace| == base + 9 && GoesOn(w.trace[base + 8])
    ensures var r := HandOver(e, spec, ci, w);
            Scripted(e, spec, ci, base, m, r.world.trace) && Ends(spec, r.world.trace, r.outcome)
  {
    var w1 := AfterLookup(e, w, Target, ci.targetCluster.name);
    ScriptStep(e, ci, base, m, w.trace, w1.trace[|w.trace|]);
    if LastOk(w1) {
      var w2 := Plain(e, w1, Target, SyncApp(ci.targetCluster.name, |w.trace|));
      ScriptStep(e, ci, base, m, w1.trace, w2.trace[|w1.trace|]);
      DependentsScript(e, spec, w2);
      DependentsExtend(e, spec, w2);
    }
  }

  /** From the first lookup to the push of the application. */
  lemma TakeDownScript(e: Env, ci: ClusterInfo, base: nat, m: nat, w: World)
    requires OnScript(e, ci, base, m, w.trace) && |w.trace| == base + 6 && GoesOn(w.trace[base + 5])
    requires ci.name in w.clusters
    ensures var w1 := AfterDeleteNF(e, Plain(e, w, Target, ListApps(ci.name)), Target, ci.name, ci.nfDeployment);
            var w2 := AfterPushApp(e, w1, ci);
            OnScript(e, ci, base, m, w2.trace) && |w2.trace| == base + 9 && GoesOn(w2.trace[base + 8])
  {
    var w1 := Plain(e, w, Target, ListApps(ci.name));
    ScriptStep(e, ci, base, m, w.trace, w1.trace[|w.trace|]);
    var w2 := AfterDeleteNF(e, w1, Target, ci.name, ci.nfDeployment);
    ScriptStep(e, ci, base, m, w1.trace, w2.trace[|w1.trace|]);
    ScriptStep(e, ci, base, m, w2.trace, AfterPushApp(e, w2, ci).trace[|w2.trace|]);
  }

  lemma DeployScript(e: Env, spec: Spec, ci: ClusterInfo, base: nat, m: nat, w: World)
    requires LawfulEnv(e) && OnScript(e, ci, base, m, w.trace)
    requires |w.trace| == base + 5 && GoesOn(w.trace[base + 4])
    ensures var r := Deploy(e, spec, ci, w);
            Scripted(e, spec, ci, base, m, r.world.trace) && Ends(spec, r.world.trace, r.outcome)
  {
    var w1 := AfterLookup(e, w, Target, ci.name);
    ScriptStep(e, ci, base, m, w.trace, w1.trace[|w.trace|]);
    if LastOk(w1) {
      TakeDownScript(e, ci, base, m, w1);
      var w2 := AfterDeleteNF(e, Plain(e, w1, Target, ListApps(ci.name)), Target, ci.name, ci.nfDeployment);
      HandOverScript(e, spec, ci, base, m, AfterPushApp(e, w2, ci));
    }
  }

  lemma CloneNeverFails(e: Env, spec: Spec, ci: ClusterInfo, c: Checkout)
    requires LawfulEnv(e)
    requires Scan(e.codec, c.files, e.walk(c.files.Keys), ci.nfDeployment) == Some(c.matches)
    ensures !RewriteTarget(e.codec, spec.interfaces, c.files, e.walk(c.files.Keys), c.matches).status.Failure?
  {
    var paths := e.walk(c.files.Keys);
    assert Enumerates(paths, c.files.Keys);
    RewriteNeverFails(e.codec, spec.interfaces, ci.nfDeployment, c.files, paths, c.matches);
  }

  /** From the commit on. */
  lemma CommitScript(e: Env, spec: Spec, ci: ClusterInfo, base: nat, m: nat, w: World, files: Repo)
    requires LawfulEnv(e) && OnScript(e, ci, base, m, w.trace)
    requires |w.trace| == base + 4 && GoesOn(w.trace[base + 3])
    ensures var w1 := AfterPush(e, w, Target, ci.repo, files);
            var r := if LastOk(w1) then Deploy(e, spec, ci, w1) else Result(w1, Failed);
            Scripted(e, spec, ci, base, m, r.world.trace) && Ends(spec, r.world.trace, r.outcome)
  {
    var w1 := AfterPush(e, w, Target, ci.repo, files);
    ScriptStep(e, ci, base, m, w.trace, w1.trace[|w.trace|]);
    if LastOk(w1) {
      DeployScript(e, spec, ci, base, m, w1);
    }
  }

  lemma RewriteAndPushScript(e: Env, spec: Spec, ci: ClusterInfo, base: nat, w: World, c: Checkout)
    requires LawfulEnv(e) && OnScript(e, ci, base, |c.matches|, w.trace)
    requires |w.trace| == base + 3 && w.trace[base + 2] == Event(Target, Clone(ci.repo, |c.matches|), true)
    requires c.matches != []
    requires Scan(e.codec, c.files, e.walk(c.files.Keys), ci.nfDeployment) == Some(c.matches)
    ensures var r := RewriteAndPush(e, spec, ci, w, c);
            Scripted(e, spec, ci, base, |c.matches|, r.world.trace) && Ends(spec, r.world.trace, r.outcome)
  {
    CloneNeverFails(e, spec, ci, c);
    var tree := RewriteTarget(e.codec, spec.interfaces, c.files, e.walk(c.files.Keys), c.matches);
    if tree.status.Success? {
      var w1 := Plain(e, w, Target, ReadSecret);
      ScriptStep(e, ci, base, |c.matches|, w.trace, w1.trace[|w.trace|]);
      if LastOk(w1) {
        CommitScript(e, spec, ci, base, |c.matches|, w1, tree.repo);
      }
    }
  }

  /** The target handler, over all runs: it makes these calls in this order, goes on past none that fails where its
      failure counts, nor without a match, then does what the dependent handler does; and the last call tells how the
      run ended. */
  lemma RunScript(e: Env, spec: Spec, ci: ClusterInfo, w: World) returns (m: nat)
    requires LawfulEnv(e)
    ensures var r := HandleTarget(e, spec, ci, w);
            Scripted(e, spec, ci, |w.trace|, m, r.world.trace) && Ends(spec, r.world.trace, r.outcome)
  {
    var base := |w.trace|;
    var w1 := Plain(e, w, Target, GetUser);
    var w2 := Plain(e, w1, Target, ListRepos);
    var c := CheckRepo(e, w2, ci.repo, ci.nfDeployment);
    m := if c.Some? then |c.value.matches| else 0;
    ScriptStep(e, ci, base, m, w.trace, w1.trace[base]);
    if LastOk(w1) {
      ScriptStep(e, ci, base, m, w1.trace, w2.trace[base + 1]);
      var w3 := AfterCheck(w2, Target, ci.repo, c);
      ScriptStep(e, ci, base, m, w2.trace, w3.trace[base + 2]);
      if c.Some? && c.value.matches != [] {
        RewriteAndPushScript(e, spec, ci, base, w3, c.value);
      }
    }
  }

  predicate EndsWell(t: seq<Event>) {
    t != [] && EndsAs(t[|t| - 1], Done)
  }

  /** Whether a run returned nil can be read off its trace. */
  lemma DoneByTrace(e: Env, spec: Spec, ci: ClusterInfo, w: World)
    requires LawfulEnv(e)
    ensures HandleTarget(e, spec, ci, w).outcome == Done <==> EndsWell(HandleTarget(e, spec, ci, w).world.trace)
  {
    var m := RunScript(e, spec, ci, w);
  }
}
