/** A second run, after one that pushed its target, finds nothing to do and stops at the commit. */
module Rerun {
  import opened Documents
  import opened Rewrites
  import opened Files
  import opened Repos
  import opened Api
  import opened Settling
  import opened Workflow
  import Safety

  /** The run left repositories and clusters alone, and made no call but these. */
  ghost predicate Inert(w: World, w': World) {
    && w'.repos == w.repos && w'.clusters == w.clusters
    && |w.trace| <= |w'.trace| && w'.trace[..|w.trace|] == w.trace
    && forall k :: |w.trace| <= k < |w'.trace| ==> Harmless(w'.trace[k])
  }

  /** No delete, no Argo push, no sync, no successful push, and nothing of the dependent phase. */
  predicate Harmless(ev: Event) {
    && ev.phase == Target
    && (ev.act.GetUser? || ev.act.ListRepos? || ev.act.Clone? || ev.act.ReadSecret? || (ev.act.Push? && !ev.ok))
  }

  /** The target phase leaves the remote contents of the target repository alone. */
  ghost predicate SettledAt(e: Env, spec: Spec, ci: ClusterInfo, found: seq<string>, w: World)
    requires LawfulEnv(e)
  {
    && found != [] && ci.repo in w.repos
    && Settled(e.codec, spec.interfaces, ci.nfDeployment, w.repos[ci.repo], e.walk(w.repos[ci.repo].Keys), found)
  }

  lemma InertStep(w: World, w1: World, w2: World, ev: Event)
    requires Inert(w, w1) && Harmless(ev)
    requires w2.repos == w1.repos && w2.clusters == w1.clusters && w2.trace == w1.trace + [ev]
    ensures Inert(w, w2)
  {
  }

  /** On a settled tree the handler gets no further than the refused commit. */
  lemma SettledStops(e: Env, spec: Spec, ci: ClusterInfo, found: seq<string>, w: World)
    requires LawfulEnv(e) && SettledAt(e, spec, ci, found, w)
    ensures var r := HandleTarget(e, spec, ci, w);
            Inert(w, r.world) && r.outcome == Failed
  {
    var w1 := Plain(e, w, Target, GetUser);
    InertStep(w, w, w1, Event(Target, GetUser, Asked(e, w)));
    if LastOk(w1) {
      var w2 := Plain(e, w1, Target, ListRepos);
      InertStep(w, w1, w2, Event(Target, ListRepos, Asked(e, w1)));
      var c := CheckRepo(e, w2, ci.repo, ci.nfDeployment);
      var w3 := AfterCheck(w2, Target, ci.repo, c);
      InertStep(w, w2, w3, w3.trace[|w2.trace|]);
      if c.Some? {
        var files := c.value.files;
        SettledMeansUnchanged(e.codec, spec.interfaces, ci.nfDeployment, files, e.walk(files.Keys), found);
        CleanCommitStops(e, spec, ci, w, w3, c.value);
      }
    }
  }

  lemma CleanCommitStops(e: Env, spec: Spec, ci: ClusterInfo, w: World, w1: World, c: Checkout)
    requires Inert(w, w1) && ci.repo in w1.repos && c.files == w1.repos[ci.repo]
    requires RewriteTarget(e.codec, spec.interfaces, c.files, e.walk(c.files.Keys), c.matches) == Tree(c.files, Success)
    ensures var r := RewriteAndPush(e, spec, ci, w1, c);
            Inert(w, r.world) && r.outcome == Failed
  {
    var w2 := Plain(e, w1, Target, ReadSecret);
    InertStep(w, w1, w2, Event(Target, ReadSecret, Asked(e, w1)));
    if LastOk(w2) {
      InertStep(w, w2, AfterPush(e, w2, Target, ci.repo, c.files), Event(Target, Push(ci.repo), false));
    }
  }

  /** A fresh clone of a tree that some target phase produced, whatever else has changed in between. */
  lemma RerunOnPushedTree(e: Env, spec: Spec, ci: ClusterInfo, repo: Repo, found: seq<string>, w: World)
    requires LawfulEnv(e) && AllSingle(e.codec, repo)
    requires Scan(e.codec, repo, e.walk(repo.Keys), ci.nfDeployment) == Some(found) && found != []
    requires var tree := RewriteTarget(e.codec, spec.interfaces, repo, e.walk(repo.Keys), found);
             tree.status.Success? && ci.repo in w.repos && w.repos[ci.repo] == tree.repo
    ensures var r := HandleTarget(e, spec, ci, w);
            Inert(w, r.world) && r.outcome == Failed
  {
    assert Enumerates(e.walk(repo.Keys), repo.Keys);
    TargetSettles(e.codec, spec.interfaces, ci.nfDeployment, repo, e.walk(repo.Keys), found);
    SettledStops(e, spec, ci, found, w);
  }

  // --- The rest of the first run keeps the target repository settled ---

  lemma SettledIgnoresTheRest(e: Env, spec: Spec, ci: ClusterInfo, found: seq<string>, w: World, w': World)
    requires LawfulEnv(e) && SettledAt(e, spec, ci, found, w)
    requires ci.repo in w'.repos && w'.repos[ci.repo] == w.repos[ci.repo]
    ensures SettledAt(e, spec, ci, found, w')
  {
  }

  lemma DependentPushSettled(e: Env, spec: Spec, ci: ClusterInfo, found: seq<string>, ips: NewIPs, w: World, w': World,
                             url: string, ms: seq<string>)
    requires LawfulEnv(e) && SettledAt(e, spec, ci, found, w)
    requires url in w.repos && w'.repos == w.repos[url := UpdateAll(e.codec, UpdateConfig(ips), w.repos[url], ms)]
    ensures SettledAt(e, spec, ci, found, w')
  {
    if url == ci.repo {
      var repo := w.repos[url];
      assert Enumerates(e.walk(repo.Keys), repo.Keys);
      DependentKeepsSettled(e.codec, spec.interfaces, ci.nfDeployment, repo, e.walk(repo.Keys), found, ips, ms);
      assert w'.repos[url].Keys == repo.Keys;
    }
  }

  lemma EntrySettled(e: Env, spec: Spec, ci: ClusterInfo, found: seq<string>, i: nat, w: World, apps: Apps)
    requires LawfulEnv(e) && i < |spec.clusterInfo| && SettledAt(e, spec, ci, found, w)
    ensures SettledAt(e, spec, ci, found, Entry(e, spec, i, w, apps).world)
  {
    var dep := spec.clusterInfo[i];
    if dep.configRef != NO_CONFIG {
      var c := CheckRepo(e, w, dep.repo, dep.configRef.id);
      var w1 := AfterCheck(w, Dependent(i), dep.repo, c);
      SettledIgnoresTheRest(e, spec, ci, found, w, w1);
      if c.Some? && c.value.matches != [] && NewIPsOf(spec.interfaces).Some? {
        RewriteSettled(e, spec, ci, found, i, w1, apps, c.value);
      }
    }
  }

  lemma RewriteSettled(e: Env, spec: Spec, ci: ClusterInfo, found: seq<string>, i: nat, w: World, apps: Apps,
                       c: Checkout)
    requires LawfulEnv(e) && i < |spec.clusterInfo| && SettledAt(e, spec, ci, found, w)
    requires NewIPsOf(spec.interfaces).Some?
    requires spec.clusterInfo[i].repo in w.repos && c.files == w.repos[spec.clusterInfo[i].repo]
    ensures SettledAt(e, spec, ci, found, RewriteEntry(e, spec, i, w, apps, c).world)
  {
    var url := spec.clusterInfo[i].repo;
    var u := UpdateConfig(NewIPsOf(spec.interfaces).value);
    var tree := Fold(e.codec, u, c.files, c.matches);
    FoldMeaning(e.codec, u, c.files, c.matches);
    if tree.status.Success? {
      var w1 := Plain(e, w, Dependent(i), ReadSecret);
      var w2 := AfterPush(e, w1, Dependent(i), url, tree.repo);
      SettledIgnoresTheRest(e, spec, ci, found, w, w1);
      if LastOk(w1) {
        if LastOk(w2) {
          DependentPushSettled(e, spec, ci, found, u.ips, w1, w2, url, c.matches);
          var last := FinishEntry(e, spec.clusterInfo[i], i, w2, apps).world;
          SettledIgnoresTheRest(e, spec, ci, found, w2, last);
        } else {
          SettledIgnoresTheRest(e, spec, ci, found, w1, w2);
        }
      }
    }
  }

  /** What every single entry keeps, the loop over the entries keeps. */
  lemma {:induction false} EntriesKeep(e: Env, spec: Spec, inv: World -> bool, i: nat, w: World, apps: Apps)
    requires i <= |spec.clusterInfo| && inv(w)
    requires forall k: nat, v: World, a: Apps :: k < |spec.clusterInfo| && inv(v) ==> inv(Entry(e, spec, k, v, a).world)
    ensures inv(Entries(e, spec, i, w, apps).world)
    decreases |spec.clusterInfo| - i
  {
    if i == |spec.clusterInfo| {
    } else {
      var p := Entry(e, spec, i, w, apps);
      if p.outcome == Done {
        EntriesKeep(e, spec, inv, i + 1, p.world, p.apps);
      }
    }
  }

  lemma EntriesSettled(e: Env, spec: Spec, ci: ClusterInfo, found: seq<string>, w: World, apps: Apps)
    requires LawfulEnv(e) && SettledAt(e, spec, ci, found, w)
    ensures SettledAt(e, spec, ci, found, Entries(e, spec, 0, w, apps).world)
  {
    var inv := (v: World) => SettledAt(e, spec, ci, found, v);
    forall k: nat, v: World, a: Apps | k < |spec.clusterInfo| && inv(v)
      ensures inv(Entry(e, spec, k, v, a).world)
    {
      EntrySettled(e, spec, ci, found, k, v, a);
    }
    EntriesKeep(e, spec, inv, 0, w, apps);
  }

  lemma {:induction false} SyncSettled(e: Env, spec: Spec, ci: ClusterInfo, found: seq<string>, keys: seq<string>,
                                       apps: Apps, w: World)
    requires LawfulEnv(e) && SettledAt(e, spec, ci, found, w)
    requires forall k :: k in keys ==> k in apps
    ensures SettledAt(e, spec, ci, found, SyncApps(e, keys, apps, w))
    decreases |keys|
  {
    if keys == [] {
    } else {
      var act := SyncApp(apps[keys[0]].name, apps[keys[0]].client);
      var w1 := Plain(e, Plain(e, w, Sync, act), Sync, act);
      SettledIgnoresTheRest(e, spec, ci, found, w, w1);
      SyncSettled(e, spec, ci, found, keys[1..], apps, w1);
    }
  }

  lemma DependentsSettled(e: Env, spec: Spec, ci: ClusterInfo, found: seq<string>, w: World)
    requires LawfulEnv(e) && SettledAt(e, spec, ci, found, w)
    ensures SettledAt(e, spec, ci, found, HandleDependents(e, spec, w).world)
  {
    var w1 := Plain(e, w, DependentStart, GetUser);
    SettledIgnoresTheRest(e, spec, ci, found, w, w1);
    if LastOk(w1) {
      var w2 := Plain(e, w1, DependentStart, ListRepos);
      SettledIgnoresTheRest(e, spec, ci, found, w1, w2);
      EntriesSettled(e, spec, ci, found, w2, map[]);
      var p := Entries(e, spec, 0, w2, map[]);
      if p.outcome == Done {
        SyncSettled(e, spec, ci, found, Order(e, p.world, p.apps), p.apps, p.world);
      }
    }
  }

  lemma AppIsForeign(ci: ClusterInfo)
    ensures Foreign(AppDoc(ci))
  {
    assert "Application" != NAD_KIND && |"Application"| != |NAD_KIND|;
  }

  /** The Argo application may even go to the target's own repository. */
  lemma AppSettled(e: Env, spec: Spec, ci: ClusterInfo, found: seq<string>, w: World) returns (found': seq<string>)
    requires LawfulEnv(e) && SettledAt(e, spec, ci, found, w)
    ensures SettledAt(e, spec, ci, found', AfterPushApp(e, w, ci))
  {
    var w' := AfterPushApp(e, w, ci);
    found' := found;
    if w'.repos[ci.repo] != w.repos[ci.repo] {
      var repo, path := w.repos[ci.repo], e.appPath(|w.trace|);
      var repo' := repo[path := e.codec.yamlEncode(AppDoc(ci))];
      assert w'.repos[ci.repo] == repo' && repo'.Keys == repo.Keys + {path};
      assert Without(e.walk(repo.Keys + {path}), path) == e.walk(repo.Keys);
      assert Enumerates(e.walk(repo.Keys), repo.Keys) && Enumerates(e.walk(repo'.Keys), repo'.Keys);
      AppIsForeign(ci);
      found' := SettledWithNewFile(e.codec, spec.interfaces, ci.nfDeployment, repo, e.walk(repo.Keys), found, repo',
        e.walk(repo'.Keys), path, AppDoc(ci));
    } else {
      SettledIgnoresTheRest(e, spec, ci, found, w, w');
    }
  }

  lemma HandOverSettled(e: Env, spec: Spec, ci: ClusterInfo, found: seq<string>, w: World)
    requires LawfulEnv(e) && SettledAt(e, spec, ci, found, w)
    ensures SettledAt(e, spec, ci, found, HandOver(e, spec, ci, w).world)
  {
    var w1 := AfterLookup(e, w, Target, ci.targetCluster.name);
    SettledIgnoresTheRest(e, spec, ci, found, w, w1);
    if LastOk(w1) {
      var w2 := Plain(e, w1, Target, SyncApp(ci.targetCluster.name, |w.trace|));
      SettledIgnoresTheRest(e, spec, ci, found, w1, w2);
      DependentsSettled(e, spec, ci, found, w2);
    }
  }

  lemma DeploySettled(e: Env, spec: Spec, ci: ClusterInfo, found: seq<string>, w: World) returns (found': seq<string>)
    requires LawfulEnv(e) && SettledAt(e, spec, ci, found, w)
    ensures SettledAt(e, spec, ci, found', Deploy(e, spec, ci, w).world)
  {
    var w1 := AfterLookup(e, w, Target, ci.name);
    found' := found;
    SettledIgnoresTheRest(e, spec, ci, found, w, w1);
    if LastOk(w1) {
      var w2 := AfterDeleteNF(e, Plain(e, w1, Target, ListApps(ci.name)), Target, ci.name, ci.nfDeployment);
      SettledIgnoresTheRest(e, spec, ci, found, w1, w2);
      found' := AppSettled(e, spec, ci, found, w2);
      HandOverSettled(e, spec, ci, found', AfterPushApp(e, w2, ci));
    }
  }

  /** The matches of the target in the remote contents of its repository. */
  function TargetMatches(e: Env, ci: ClusterInfo, w: World): Option<seq<string>> {
    if ci.repo !in w.repos then None
    else Scan(e.codec, w.repos[ci.repo], e.walk(w.repos[ci.repo].Keys), ci.nfDeployment)
  }

  /** What the target phase makes of a clone of that repository. */
  function TargetTree(e: Env, spec: Spec, ci: ClusterInfo, w: World): Tree
    requires TargetMatches(e, ci, w).Some?
  {
    var repo := w.repos[ci.repo];
    RewriteTarget(e.codec, spec.interfaces, repo, e.walk(repo.Keys), TargetMatches(e, ci, w).value)
  }

  /** The state just before the target's push, and what is pushed. */
  function BeforePush(e: Env, ci: ClusterInfo, w: World, found: seq<string>): World {
    var w2 := Plain(e, Plain(e, w, Target, GetUser), Target, ListRepos);
    Plain(e, Record(w2, Target, Clone(ci.repo, |found|), true), Target, ReadSecret)
  }

  /** The target push of a run went through. */
  ghost predicate TargetWentThrough(e: Env, spec: Spec, ci: ClusterInfo, w: World) {
    Safety.Happened(HandleTarget(e, spec, ci, w).world.trace, |w.trace|, Event(Target, Push(ci.repo), true))
  }

  /** The calls up to the target's push are served: user, clone, secret, push; the listing in between may fail. */
  predicate ServedToPush(e: Env, w: World) {
    var n := |w.trace|;
    e.ok(n) && e.ok(n + 2) && e.ok(n + 3) && e.ok(n + 4)
  }

  /** What a run adds to the trace up to its target push, if it does not get past it. */
  predicate NotPushed(ci: ClusterInfo, w: World, w': World) {
    && |w.trace| <= |w'.trace| && w'.trace[..|w.trace|] == w.trace
    && forall k :: |w.trace| <= k < |w'.trace| ==> w'.trace[k] != Event(Target, Push(ci.repo), true)
  }

  /** From the rewrite on, a run that does not stop at its push reached it with both calls served. */
  lemma RewriteReaches(e: Env, spec: Spec, ci: ClusterInfo, w: World, c: Checkout)
    ensures var tree := RewriteTarget(e.codec, spec.interfaces, c.files, e.walk(c.files.Keys), c.matches);
            var w1 := AfterPush(e, Plain(e, w, Target, ReadSecret), Target, ci.repo, tree.repo);
            var r := RewriteAndPush(e, spec, ci, w, c);
            || NotPushed(ci, w, r.world)
            || (tree.status.Success? && LastOk(w1) && e.ok(|w.trace|) && e.ok(|w.trace| + 1) &&
                r == Deploy(e, spec, ci, w1))
  {
  }

  /** A target push in the trace was the one after a successful rewrite, with the calls up to it served. */
  lemma PushReached(e: Env, spec: Spec, ci: ClusterInfo, w: World)
    requires TargetWentThrough(e, spec, ci, w)
    ensures var found := TargetMatches(e, ci, w);
            && found.Some? && found.value != []
            && var tree := TargetTree(e, spec, ci, w);
            var w1 := AfterPush(e, BeforePush(e, ci, w, found.value), Target, ci.repo, tree.repo);
            && tree.status.Success? && LastOk(w1)
            && HandleTarget(e, spec, ci, w) == Deploy(e, spec, ci, w1)
    ensures ServedToPush(e, w)
  {
    var w2 := Plain(e, Plain(e, w, Target, GetUser), Target, ListRepos);
    var c := CheckRepo(e, w2, ci.repo, ci.nfDeployment);
    var w3 := AfterCheck(w2, Target, ci.repo, c);
    if e.ok(|w.trace|) && c.Some? && c.value.matches != [] {
      RewriteReaches(e, spec, ci, w3, c.value);
      var w' := HandleTarget(e, spec, ci, w).world;
      if NotPushed(ci, w3, w') {
        NotPushedYet(e, ci, w, w3, w');
      }
    }
  }

  lemma NotPushedYet(e: Env, ci: ClusterInfo, w: World, w3: World, w': World)
    requires |w3.trace| == |w.trace| + 3 && w3.trace[..|w.trace|] == w.trace
    requires w3.trace[|w.trace|].act.GetUser? && w3.trace[|w.trace| + 1].act.ListRepos?
    requires w3.trace[|w.trace| + 2].act.Clone?
    requires NotPushed(ci, w3, w')
    ensures NotPushed(ci, w, w')
  {
    assert forall k :: 0 <= k < |w3.trace| ==> w'.trace[k] == w3.trace[k];
    assert w'.trace[..|w.trace|] == w3.trace[..|w.trace|];
  }

  /** After a run whose target push went through, however that run ended, the target repository is settled. */
  lemma FirstRunSettles(e: Env, spec: Spec, ci: ClusterInfo, w: World) returns (found: seq<string>)
    requires LawfulEnv(e)
    requires ci.repo in w.repos && AllSingle(e.codec, w.repos[ci.repo])
    requires TargetWentThrough(e, spec, ci, w)
    ensures SettledAt(e, spec, ci, found, HandleTarget(e, spec, ci, w).world)
  {
    var repo := w.repos[ci.repo];
    var paths := e.walk(repo.Keys);
    assert Enumerates(paths, repo.Keys);
    PushReached(e, spec, ci, w);
    var ms, tree := TargetMatches(e, ci, w).value, TargetTree(e, spec, ci, w);
    TargetSettles(e.codec, spec.interfaces, ci.nfDeployment, repo, paths, ms);
    found := DeploySettled(e, spec, ci, ms, AfterPush(e, BeforePush(e, ci, w, ms), Target, ci.repo, tree.repo));
  }

  /** Running twice. After a run whose target push went through, a second run, under any other fate of its calls, does
      nothing but look, and fails at the commit: repositories and clusters stay as they are. */
  lemma SecondRunIsInert(e: Env, e': Env, spec: Spec, ci: ClusterInfo, w: World)
    requires LawfulEnv(e) && LawfulEnv(e') && e'.codec == e.codec && e'.walk == e.walk
    requires ci.repo in w.repos && AllSingle(e.codec, w.repos[ci.repo])
    requires TargetWentThrough(e, spec, ci, w)
    ensures var w1 := HandleTarget(e, spec, ci, w).world;
            var r := HandleTarget(e', spec, ci, w1);
            Inert(w1, r.world) && r.outcome == Failed
  {
    var found := FirstRunSettles(e, spec, ci, w);
    var w1 := HandleTarget(e, spec, ci, w).world;
    assert SettledAt(e', spec, ci, found, w1);
    SettledStops(e', spec, ci, found, w1);
  }

  // --- Exactly when a later run carries the change through ---

  lemma TargetPushedHappened(ci: ClusterInfo, t: seq<Event>, base: nat, k: nat)
    requires k <= |t| && Safety.TargetPushed(t[..k], base, ci)
    ensures Safety.Happened(t, base, Event(Target, Push(ci.repo), true))
  {
    var j :| base <= j < k && t[..k][j] == Event(Target, Push(ci.repo), true);
    assert t[j] == Event(Target, Push(ci.repo), true);
  }

  /** A write to the target's repository comes with the target push. */
  lemma WriteNeedsThePush(spec: Spec, ci: ClusterInfo, t: seq<Event>, base: nat, k: nat)
    requires Safety.SafeTrace(spec, ci, t, base) && base <= k < |t| && Safety.Writes(t[k], ci.repo)
    ensures Safety.Happened(t, base, Event(Target, Push(ci.repo), true))
  {
    assert Safety.SafeEvent(spec, ci, t[..k], base, t[k]);
    if t[k] != Event(Target, Push(ci.repo), true) {
      TargetPushedHappened(ci, t, base, k);
    }
  }

  /** A run whose target push did not go through leaves every repository as it was. */
  lemma NoPushNoChange(e: Env, spec: Spec, ci: ClusterInfo, w: World)
    requires ci.repo in w.repos && !TargetWentThrough(e, spec, ci, w)
    ensures var w' := HandleTarget(e, spec, ci, w).world;
            ci.repo in w'.repos && w'.repos[ci.repo] == w.repos[ci.repo]
  {
    Safety.TraceSafety(e, spec, ci, w);
    var w' := HandleTarget(e, spec, ci, w).world;
    if !Safety.SameAt(w.repos, w'.repos, ci.repo) {
      var k :| |w.trace| <= k < |w'.trace| && Safety.Writes(w'.trace[k], ci.repo);
      WriteNeedsThePush(spec, ci, w'.trace, |w.trace|, k);
    }
  }

  /** The target has matches in its repository, and rewriting them panics nowhere and has an effect. */
  ghost predicate HasWork(e: Env, spec: Spec, ci: ClusterInfo, w: World)
    requires LawfulEnv(e)
  {
    && TargetMatches(e, ci, w).Some? && TargetMatches(e, ci, w).value != []
    && CanRewrite(e, spec, ci, w) && TargetTree(e, spec, ci, w).repo != w.repos[ci.repo]
  }

  ghost predicate CanRewrite(e: Env, spec: Spec, ci: ClusterInfo, w: World)
    requires LawfulEnv(e) && TargetMatches(e, ci, w).Some?
  {
    var repo := w.repos[ci.repo];
    assert Enumerates(e.walk(repo.Keys), repo.Keys);
    Rewritable(e.codec, spec.interfaces, repo, e.walk(repo.Keys), TargetMatches(e, ci, w).value)
  }

  lemma CanRewriteExactly(e: Env, spec: Spec, ci: ClusterInfo, w: World)
    requires LawfulEnv(e) && TargetMatches(e, ci, w).Some? && AllSingle(e.codec, w.repos[ci.repo])
    ensures TargetTree(e, spec, ci, w).status.Success? <==> CanRewrite(e, spec, ci, w)
    ensures TargetTree(e, spec, ci, w).status.Crash? <==> !CanRewrite(e, spec, ci, w)
  {
    var repo := w.repos[ci.repo];
    var paths := e.walk(repo.Keys);
    assert Enumerates(paths, repo.Keys);
    RewriteSucceedsExactly(e.codec, spec.interfaces, ci.nfDeployment, repo, paths, TargetMatches(e, ci, w).value);
  }

  /** A run with work to do and these calls served pushes the target. */
  lemma ServedRunPushes(e: Env, spec: Spec, ci: ClusterInfo, w: World)
    requires LawfulEnv(e) && ci.repo in w.repos && AllSingle(e.codec, w.repos[ci.repo])
    requires HasWork(e, spec, ci, w) && ServedToPush(e, w)
    ensures TargetWentThrough(e, spec, ci, w)
  {
    var w1 := Plain(e, w, Target, GetUser);
    var w2 := Plain(e, w1, Target, ListRepos);
    var c := CheckRepo(e, w2, ci.repo, ci.nfDeployment);
    var w3 := AfterCheck(w2, Target, ci.repo, c);
    CanRewriteExactly(e, spec, ci, w);
    Safety.CheckGood(e, spec, ci, w);
    assert LastOk(w1);
    RewritePushes(e, spec, ci, w, w3, c.value);
    WentThrough(e, spec, ci, w);
  }

  lemma WentThrough(e: Env, spec: Spec, ci: ClusterInfo, w: World)
    requires Safety.TargetPushed(HandleTarget(e, spec, ci, w).world.trace, |w.trace|, ci)
    ensures TargetWentThrough(e, spec, ci, w)
  {
    var t := HandleTarget(e, spec, ci, w).world.trace;
    assert t[..|t|] == t;
    TargetPushedHappened(ci, t, |w.trace|, |t|);
  }

  lemma PushThenDeploy(e: Env, spec: Spec, ci: ClusterInfo, w0: World, w: World, files: Repo)
    requires Safety.Good(spec, ci, w0, w) && Safety.Matched(w.trace, |w0.trace|, ci)
    requires Pushes(e, w, ci.repo, files)
    ensures var w1 := AfterPush(e, w, Target, ci.repo, files);
            Safety.TargetPushed(Deploy(e, spec, ci, w1).world.trace, |w0.trace|, ci)
  {
    Safety.TargetPushGood(e, spec, ci, w0, w, files);
    Safety.DeployGood(e, spec, ci, w0, AfterPush(e, w, Target, ci.repo, files));
  }

  lemma RewritePushes(e: Env, spec: Spec, ci: ClusterInfo, w0: World, w: World, c: Checkout)
    requires e.ok(|w.trace|) && e.ok(|w.trace| + 1) && ci.repo in w.repos
    requires Safety.Good(spec, ci, w0, w) && Safety.Matched(w.trace, |w0.trace|, ci)
    requires var tree := RewriteTarget(e.codec, spec.interfaces, c.files, e.walk(c.files.Keys), c.matches);
             tree.status.Success? && tree.repo != w.repos[ci.repo]
    ensures Safety.TargetPushed(RewriteAndPush(e, spec, ci, w, c).world.trace, |w0.trace|, ci)
  {
    var tree := RewriteTarget(e.codec, spec.interfaces, c.files, e.walk(c.files.Keys), c.matches);
    var w1 := Plain(e, w, Target, ReadSecret);
    Safety.StepGood(spec, ci, w0, w, w1, Event(Target, ReadSecret, true));
    PushThenDeploy(e, spec, ci, w0, w1, tree.repo);
  }

  /** Exactly when a run pushes its target. */
  lemma RunPushesExactly(e: Env, spec: Spec, ci: ClusterInfo, w: World)
    requires LawfulEnv(e) && ci.repo in w.repos && AllSingle(e.codec, w.repos[ci.repo])
    ensures TargetWentThrough(e, spec, ci, w) <==> HasWork(e, spec, ci, w) && ServedToPush(e, w)
  {
    if TargetWentThrough(e, spec, ci, w) {
      PushReached(e, spec, ci, w);
      CanRewriteExactly(e, spec, ci, w);
    } else if HasWork(e, spec, ci, w) && ServedToPush(e, w) {
      ServedRunPushes(e, spec, ci, w);
    }
  }

  /** The second run pushes the target if and only if there is work to do, the first run did not, and the calls up to
      the push are served now. */
  lemma SecondRunPushesExactly(e: Env, e': Env, spec: Spec, ci: ClusterInfo, w: World)
    requires LawfulEnv(e) && LawfulEnv(e') && e'.codec == e.codec && e'.walk == e.walk
    requires ci.repo in w.repos && AllSingle(e.codec, w.repos[ci.repo])
    ensures var w1 := HandleTarget(e, spec, ci, w).world;
            TargetWentThrough(e', spec, ci, w1) <==>
            HasWork(e, spec, ci, w) && !TargetWentThrough(e, spec, ci, w) && ServedToPush(e', w1)
  {
    var w1 := HandleTarget(e, spec, ci, w).world;
    if TargetWentThrough(e, spec, ci, w) {
      SecondRunIsInert(e, e', spec, ci, w);
    } else {
      NoPushNoChange(e, spec, ci, w);
      RunPushesExactly(e', spec, ci, w1);
    }
  }

  // --- Any number of runs ---

  /** The state after further runs, one for each environment. */
  function Runs(es: seq<Env>, spec: Spec, ci: ClusterInfo, w: World): World {
    if es == [] then w else Runs(es[1..], spec, ci, HandleTarget(es[0], spec, ci, w).world)
  }

  lemma {:induction false} SettledRunsAreInert(e: Env, es: seq<Env>, spec: Spec, ci: ClusterInfo, found: seq<string>,
                                               w: World)
    requires LawfulEnv(e) && SettledAt(e, spec, ci, found, w)
    requires forall i :: 0 <= i < |es| ==> LawfulEnv(es[i]) && es[i].codec == e.codec && es[i].walk == e.walk
    ensures Inert(w, Runs(es, spec, ci, w))
    decreases |es|
  {
    if es == [] {
    } else {
      var w1 := HandleTarget(es[0], spec, ci, w).world;
      assert SettledAt(es[0], spec, ci, found, w);
      SettledStops(es[0], spec, ci, found, w);
      SettledIgnoresTheRest(e, spec, ci, found, w, w1);
      SettledRunsAreInert(e, es[1..], spec, ci, found, w1);
      InertTransitive(w, w1, Runs(es, spec, ci, w));
    }
  }

  /** No number of later runs heals a first run that pushed its target and then failed: none of them deletes, syncs,
      or reaches a dependent. */
  lemma {:induction false} LaterRunsAreInert(e: Env, es: seq<Env>, spec: Spec, ci: ClusterInfo, w: World)
    requires LawfulEnv(e) && ci.repo in w.repos && AllSingle(e.codec, w.repos[ci.repo])
    requires forall i :: 0 <= i < |es| ==> LawfulEnv(es[i]) && es[i].codec == e.codec && es[i].walk == e.walk
    requires TargetWentThrough(e, spec, ci, w)
    ensures var w1 := HandleTarget(e, spec, ci, w).world;
            Inert(w1, Runs(es, spec, ci, w1))
  {
    var found := FirstRunSettles(e, spec, ci, w);
    SettledRunsAreInert(e, es, spec, ci, found, HandleTarget(e, spec, ci, w).world);
  }

  lemma InertTransitive(a: World, b: World, c: World)
    requires Inert(a, b) && Inert(b, c)
    ensures Inert(a, c)
  {
    assert c.trace[..|b.trace|][..|a.trace|] == c.trace[..|a.trace|];
    assert forall k :: 0 <= k < |b.trace| ==> c.trace[k] == b.trace[k];
  }
}
