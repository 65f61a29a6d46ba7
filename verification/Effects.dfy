/** What runs do to the objects on the clusters: what they may remove, and what they do remove. */
module Effects {
  import opened Documents
  import opened Files
  import opened Repos
  import opened Api
  import opened Workflow
  import opened Coupling
  import opened Repeats
  import opened Rerun
  import Deletion
  import SyncPhase

  // --- What may go ---

  /** The target's own function and the pods of its namespace, on its old cluster. */
  predicate OfTarget(ci: ClusterInfo, cluster: string, o: Deletion.Obj) {
    && cluster == ci.name
    && (o == Deletion.Obj(Deletion.NFDeploymentKind, ci.nfDeployment) || Deletion.IsPodOf(o, ci.nfDeployment.namespace))
  }

  predicate ClaimedBy(dep: ClusterInfo, cluster: string, o: Deletion.Obj) {
    && dep.configRef != NO_CONFIG && cluster == dep.name
    && Deletion.InScope(o, dep.configRef.id, dep.configRef.nfDeployment)
  }

  ghost predicate OfDependents(spec: Spec, cluster: string, o: Deletion.Obj) {
    exists j :: 0 <= j < |spec.clusterInfo| && ClaimedBy(spec.clusterInfo[j], cluster, o)
  }

  /** No cluster comes or goes, no object is added to any, and those removed are the dependents' or the target's. */
  ghost predicate RemovesOnly(spec: Spec, target: Option<ClusterInfo>, w: World, w': World) {
    && w'.clusters.Keys == w.clusters.Keys
    && (forall x :: x in w.clusters ==> w'.clusters[x].objects <= w.clusters[x].objects)
    && forall x, o :: x in w.clusters && o in w.clusters[x].objects && o !in w'.clusters[x].objects ==>
         OfDependents(spec, x, o) || (target.Some? && OfTarget(target.value, x, o))
  }

  lemma RemovesTransitive(spec: Spec, target: Option<ClusterInfo>, a: World, b: World, c: World)
    requires RemovesOnly(spec, None, a, b) || RemovesOnly(spec, target, a, b)
    requires RemovesOnly(spec, None, b, c) || RemovesOnly(spec, target, b, c)
    ensures RemovesOnly(spec, target, a, c)
  {
  }

  lemma DeleteConfigRemoves(e: Env, spec: Spec, i: nat, w: World)
    requires i < |spec.clusterInfo| && spec.clusterInfo[i].configRef != NO_CONFIG
    requires spec.clusterInfo[i].name in w.clusters
    ensures var dep := spec.clusterInfo[i];
            RemovesOnly(spec, None, w, AfterDeleteConfig(e, w, Dependent(i), dep.name, dep.configRef))
  {
    var dep := spec.clusterInfo[i];
    var id, nf := dep.configRef.id, dep.configRef.nfDeployment;
    Deletion.DeleteConfigFrame(e.api, dep.name, w.clusters[dep.name], id, nf);
    assert w.clusters.Keys + {dep.name} == w.clusters.Keys;
    assert forall o :: Deletion.InScope(o, id, nf) ==> ClaimedBy(dep, dep.name, o);
  }

  lemma FinishRemoves(e: Env, spec: Spec, i: nat, w: World, apps: Apps)
    requires i < |spec.clusterInfo| && spec.clusterInfo[i].configRef != NO_CONFIG
    ensures RemovesOnly(spec, None, w, FinishEntry(e, spec.clusterInfo[i], i, w, apps).world)
  {
    var dep := spec.clusterInfo[i];
    var w1 := AfterLookup(e, w, Dependent(i), dep.name);
    if LastOk(w1) {
      DeleteConfigRemoves(e, spec, i, Plain(e, w1, Dependent(i), ListApps(dep.name)));
    }
  }

  lemma PublishRemoves(e: Env, spec: Spec, i: nat, w: World, apps: Apps, files: Repo)
    requires i < |spec.clusterInfo| && spec.clusterInfo[i].configRef != NO_CONFIG
    ensures RemovesOnly(spec, None, w, PublishEntry(e, spec.clusterInfo[i], i, w, apps, files).world)
  {
    var w1 := Plain(e, w, Dependent(i), ReadSecret);
    FinishRemoves(e, spec, i, AfterPush(e, w1, Dependent(i), spec.clusterInfo[i].repo, files), apps);
  }

  lemma EntryRemoves(e: Env, spec: Spec, i: nat, w: World, apps: Apps)
    requires i < |spec.clusterInfo|
    ensures RemovesOnly(spec, None, w, Entry(e, spec, i, w, apps).world)
  {
    var dep := spec.clusterInfo[i];
    if dep.configRef != NO_CONFIG {
      var c := CheckRepo(e, w, dep.repo, dep.configRef.id);
      var w1 := AfterCheck(w, Dependent(i), dep.repo, c);
      if c.Some? && c.value.matches != [] && NewIPsOf(spec.interfaces).Some? {
        var u := UpdateConfig(NewIPsOf(spec.interfaces).value);
        PublishRemoves(e, spec, i, w1, apps, Fold(e.codec, u, c.value.files, c.value.matches).repo);
      }
    }
  }

  lemma EntriesRemove(e: Env, spec: Spec, i: nat, w: World, apps: Apps)
    requires i <= |spec.clusterInfo|
    ensures RemovesOnly(spec, None, w, Entries(e, spec, i, w, apps).world)
  {
    var inv := (v: World) => RemovesOnly(spec, None, w, v);
    forall k: nat, v: World, a: Apps | k < |spec.clusterInfo| && inv(v)
      ensures inv(Entry(e, spec, k, v, a).world)
    {
      EntryRemoves(e, spec, k, v, a);
      RemovesTransitive(spec, None, w, v, Entry(e, spec, k, v, a).world);
    }
    EntriesKeep(e, spec, inv, i, w, apps);
  }

  lemma {:induction false} SyncsKeepClusters(e: Env, keys: seq<string>, apps: Apps, w: World)
    requires forall k :: k in keys ==> k in apps
    ensures SyncApps(e, keys, apps, w).clusters == w.clusters
    decreases |keys|
  {
    if keys == [] {
    } else {
      var act := SyncApp(apps[keys[0]].name, apps[keys[0]].client);
      SyncsKeepClusters(e, keys[1..], apps, Plain(e, Plain(e, w, Sync, act), Sync, act));
    }
  }

  /** Under any fate of its calls the dependent handler removes nothing but what its Config entries name. */
  lemma DependentsRemoveOnly(e: Env, spec: Spec, w: World)
    ensures RemovesOnly(spec, None, w, HandleDependents(e, spec, w).world)
  {
    var w1 := Plain(e, w, DependentStart, GetUser);
    if LastOk(w1) {
      var w2 := Plain(e, w1, DependentStart, ListRepos);
      EntriesRemove(e, spec, 0, w2, map[]);
      var p := Entries(e, spec, 0, w2, map[]);
      if p.outcome == Done {
        SyncsKeepClusters(e, Order(e, p.world, p.apps), p.apps, p.world);
      }
    }
  }

  lemma HandOverRemoves(e: Env, spec: Spec, ci: ClusterInfo, w: World)
    ensures RemovesOnly(spec, None, w, HandOver(e, spec, ci, w).world)
  {
    var w1 := AfterLookup(e, w, Target, ci.targetCluster.name);
    if LastOk(w1) {
      DependentsRemoveOnly(e, spec, Plain(e, w1, Target, SyncApp(ci.targetCluster.name, |w.trace|)));
    }
  }

  lemma DeleteNFRemoves(e: Env, spec: Spec, ci: ClusterInfo, w: World)
    requires ci.name in w.clusters
    ensures RemovesOnly(spec, Some(ci), w, AfterDeleteNF(e, w, Target, ci.name, ci.nfDeployment))
  {
    Deletion.DeleteNFExactly(e.api, ci.name, w.clusters[ci.name], ci.nfDeployment);
    assert w.clusters.Keys + {ci.name} == w.clusters.Keys;
  }

  lemma DeployRemoves(e: Env, spec: Spec, ci: ClusterInfo, w: World)
    ensures RemovesOnly(spec, Some(ci), w, Deploy(e, spec, ci, w).world)
  {
    var w1 := AfterLookup(e, w, Target, ci.name);
    if LastOk(w1) {
      var w2 := Plain(e, w1, Target, ListApps(ci.name));
      DeleteNFRemoves(e, spec, ci, w2);
      var w3 := AfterPushApp(e, AfterDeleteNF(e, w2, Target, ci.name, ci.nfDeployment), ci);
      HandOverRemoves(e, spec, ci, w3);
      RemovesTransitive(spec, Some(ci), w, w3, Deploy(e, spec, ci, w).world);
    }
  }

  lemma RewriteRemoves(e: Env, spec: Spec, ci: ClusterInfo, w: World, c: Checkout)
    ensures RemovesOnly(spec, Some(ci), w, RewriteAndPush(e, spec, ci, w, c).world)
  {
    var files := RewriteTarget(e.codec, spec.interfaces, c.files, e.walk(c.files.Keys), c.matches).repo;
    DeployRemoves(e, spec, ci, AfterPush(e, Plain(e, w, Target, ReadSecret), Target, ci.repo, files));
  }

  /** Under any fate of its calls a run removes from a cluster nothing but the target's NFDeployment and the pods of its
      namespace, on the target's old cluster, and what the Config entries of that cluster name. */
  lemma RunRemovesOnly(e: Env, spec: Spec, ci: ClusterInfo, w: World)
    ensures RemovesOnly(spec, Some(ci), w, HandleTarget(e, spec, ci, w).world)
  {
    var w2 := Plain(e, Plain(e, w, Target, GetUser), Target, ListRepos);
    var c := CheckRepo(e, w2, ci.repo, ci.nfDeployment);
    if c.Some? {
      RewriteRemoves(e, spec, ci, AfterCheck(w2, Target, ci.repo, c), c.value);
    }
  }

  // --- What does go ---

  /** Neither the NFDeployment nor a pod of its namespace is among the objects. */
  ghost predicate Gone(objects: set<Deletion.Obj>, nf: ObjectName) {
    && Deletion.Obj(Deletion.NFDeploymentKind, nf) !in objects
    && forall o :: o in objects ==> !Deletion.IsPodOf(o, nf.namespace)
  }

  ghost predicate HealthyApi(e: Env, cluster: string) {
    forall n: nat :: Deletion.Healthy(e.api(cluster, n))
  }

  lemma DeployTakesDown(e: Env, spec: Spec, ci: ClusterInfo, w: World)
    requires e.ok(|w.trace|) && ci.name in w.clusters && HealthyApi(e, ci.name)
    requires Deletion.Obj(Deletion.NFDeploymentKind, ci.nfDeployment) in w.clusters[ci.name].objects
    ensures var clusters := Deploy(e, spec, ci, w).world.clusters;
            ci.name in clusters && Gone(clusters[ci.name].objects, ci.nfDeployment)
  {
    var cl := w.clusters[ci.name];
    var w2 := Plain(e, AfterLookup(e, w, Target, ci.name), Target, ListApps(ci.name));
    assert Deletion.Healthy(e.api(ci.name, |cl.calls|)) && Deletion.Healthy(e.api(ci.name, |cl.calls| + 1));
    Deletion.DeleteNFExactly(e.api, ci.name, cl, ci.nfDeployment);
    HandOverRemoves(e, spec, ci, AfterPushApp(e, AfterDeleteNF(e, w2, Target, ci.name, ci.nfDeployment), ci));
  }

  /** Once its push went through, and the lookup right after that is served, a run takes the target's function down: if
      the API of its old cluster serves every call, and the NFDeployment was there, then neither it nor any pod of its
      namespace is there in the end, however the run ends. */
  lemma TargetTakenDown(e: Env, spec: Spec, ci: ClusterInfo, w: World)
    requires TargetWentThrough(e, spec, ci, w)
    requires e.ok(|w.trace| + 5) && ci.name in w.clusters && HealthyApi(e, ci.name)
    requires Deletion.Obj(Deletion.NFDeploymentKind, ci.nfDeployment) in w.clusters[ci.name].objects
    ensures var clusters := HandleTarget(e, spec, ci, w).world.clusters;
            ci.name in clusters && Gone(clusters[ci.name].objects, ci.nfDeployment)
  {
    PushReached(e, spec, ci, w);
    var before := BeforePush(e, ci, w, TargetMatches(e, ci, w).value);
    DeployTakesDown(e, spec, ci, AfterPush(e, before, Target, ci.repo, TargetTree(e, spec, ci, w).repo));
  }

  /** An Application by this name for this repository, and nothing else. */
  predicate IsAppFile(c: Codec, bytes: string, name: string, repo: string) {
    var stream := c.yamlDecode(bytes);
    && |stream.docs| == 1 && !stream.broken
    && var doc := stream.docs[0];
    && doc.Get("kind") == Str("Application") && doc.Get("metadata").Get("name") == Str(name)
    && doc.Get("metadata").Get("namespace") == Str("argocd")
    && doc.Get("spec").Get("source").Get("repoURL") == Str(repo)
  }

  lemma AppReadsBack(c: Codec, ci: ClusterInfo)
    requires Lawful(c)
    ensures IsAppFile(c, c.yamlEncode(AppDoc(ci)), "argocd-" + ci.name, ci.repo)
  {
  }

  /** The push of the Argo application: exactly when it goes through, and then a new file, in no other place, that
      reads back as an Application by the name of the old cluster, for the repository of the target's manifests. */
  lemma AppArrives(e: Env, ci: ClusterInfo, w: World)
    requires LawfulEnv(e)
    ensures var url, path := e.repoUrl(ci.targetCluster.name), e.appPath(|w.trace|);
            var w' := AfterPushApp(e, w, ci);
            && (LastOk(w') <==> e.ok(|w.trace|) && url in w.repos && path !in w.repos[url])
            && (!LastOk(w') ==> w'.repos == w.repos)
            && (LastOk(w') ==>
                  && url in w'.repos && path in w'.repos[url]
                  && w'.repos == w.repos[url := w.repos[url][path := w'.repos[url][path]]]
                  && IsAppFile(e.codec, w'.repos[url][path], "argocd-" + ci.name, ci.repo))
  {
    AppReadsBack(e.codec, ci);
  }

  // --- What dependents lose ---

  /** The NFDeployment is there, or else no pod of its namespace. */
  ghost predicate Tidy(objects: set<Deletion.Obj>, nf: ObjectName) {
    Deletion.Obj(Deletion.NFDeploymentKind, nf) in objects || Gone(objects, nf)
  }

  ghost predicate Cleared(objects: set<Deletion.Obj>, config: ConfigRef) {
    forall o :: o in objects ==> !Deletion.InScope(o, config.id, config.nfDeployment)
  }

  /** Both at the cluster of a dependent entry. */
  ghost predicate TidyAt(dep: ClusterInfo, w: World) {
    dep.name in w.clusters && Tidy(w.clusters[dep.name].objects, dep.configRef.nfDeployment)
  }

  ghost predicate ClearedAt(dep: ClusterInfo, w: World) {
    dep.name in w.clusters && Cleared(w.clusters[dep.name].objects, dep.configRef)
  }

  lemma DeleteConfigClears(api: Deletion.Api, name: string, cl: Deletion.Cluster, config: ConfigRef)
    requires forall n: nat :: Deletion.Healthy(api(name, n))
    requires Tidy(cl.objects, config.nfDeployment)
    ensures var r := Deletion.DeleteConfig(api, name, cl, config.id, config.nfDeployment);
            Cleared(r.cluster.objects, config)
  {
    var n, own := |cl.calls|, Deletion.Obj(Deletion.ConfigKind, config.id);
    assert Deletion.Healthy(api(name, n)) && Deletion.Healthy(api(name, n + 1));
    Deletion.NilExactly(api, name, cl, config.id, config.nfDeployment);
    Deletion.DeleteConfigFrame(api, name, cl, config.id, config.nfDeployment);
    var first := Deletion.Serve(api, name, cl, Deletion.Delete(own)).cluster;
    assert own in cl.objects ==> own in Deletion.Targets(cl.objects, Deletion.Delete(own));
    var second := Deletion.Serve(api, name, first, Deletion.DeletePods(config.id.namespace)).cluster;
    assert own !in second.objects && forall o :: o in second.objects ==> !Deletion.IsPodOf(o, config.id.namespace);
    Deletion.DeleteNFExactly(api, name, second, config.nfDeployment);
  }

  /** Whatever another entry deletes, it leaves no pods of a namespace whose NFDeployment it took. */
  lemma DeleteConfigKeepsTidy(api: Deletion.Api, name: string, cl: Deletion.Cluster, config: ConfigRef, nf: ObjectName)
    requires forall n: nat :: Deletion.Healthy(api(name, n))
    requires Tidy(cl.objects, nf)
    ensures var r := Deletion.DeleteConfig(api, name, cl, config.id, config.nfDeployment); Tidy(r.cluster.objects, nf)
  {
    Deletion.NilExactly(api, name, cl, config.id, config.nfDeployment);
    Deletion.DeleteConfigFrame(api, name, cl, config.id, config.nfDeployment);
  }

  /** What the clone of an entry finds. */
  ghost predicate Finds(e: Env, dep: ClusterInfo, w: World) {
    var c := CheckRepo(e, w, dep.repo, dep.configRef.id); c.Some? && c.value.matches != []
  }

  lemma EntryKeepsTidy(e: Env, spec: Spec, i: nat, w: World, apps: Apps, other: ClusterInfo)
    requires i < |spec.clusterInfo| && HealthyApi(e, other.name) && TidyAt(other, w)
    ensures TidyAt(other, Entry(e, spec, i, w, apps).world)
  {
    var dep := spec.clusterInfo[i];
    DeletesOnce(e, spec, i, w, apps);
    if dep.name == other.name {
      DeleteConfigKeepsTidy(e.api, dep.name, w.clusters[dep.name], dep.configRef, other.configRef.nfDeployment);
    }
  }

  /** The clusters after a call of DeleteConfigRefs for one entry. */
  function WithoutConfig(e: Env, dep: ClusterInfo, w: World): map<string, Deletion.Cluster>
    requires dep.name in w.clusters
  {
    var r := Deletion.DeleteConfig(e.api, dep.name, w.clusters[dep.name], dep.configRef.id, dep.configRef.nfDeployment);
    w.clusters[dep.name := r.cluster]
  }

  /** An entry deletes once or not at all; once, if it finds a match and ends well. */
  lemma DeletesOnce(e: Env, spec: Spec, i: nat, w: World, apps: Apps)
    requires i < |spec.clusterInfo|
    ensures var p := Entry(e, spec, i, w, apps);
            var dep := spec.clusterInfo[i];
            && (p.world.clusters == w.clusters ||
                (dep.name in w.clusters && p.world.clusters == WithoutConfig(e, dep, w)))
            && (p.outcome == Done && dep.configRef != NO_CONFIG && Finds(e, dep, w) ==>
                  dep.name in w.clusters && p.world.clusters == WithoutConfig(e, dep, w))
  {
    var dep := spec.clusterInfo[i];
    if dep.configRef != NO_CONFIG {
      var c := CheckRepo(e, w, dep.repo, dep.configRef.id);
      var w1 := AfterCheck(w, Dependent(i), dep.repo, c);
      if c.Some? && c.value.matches != [] && NewIPsOf(spec.interfaces).Some? {
        var u := UpdateConfig(NewIPsOf(spec.interfaces).value);
        PublishDeletes(e, dep, i, w1, apps, Fold(e.codec, u, c.value.files, c.value.matches).repo);
      }
    }
  }

  lemma PublishDeletes(e: Env, dep: ClusterInfo, i: nat, w: World, apps: Apps, files: Repo)
    ensures var p := PublishEntry(e, dep, i, w, apps, files);
            && (p.world.clusters == w.clusters ||
                (dep.name in w.clusters && p.world.clusters == WithoutConfig(e, dep, w)))
            && (p.outcome == Done ==> dep.name in w.clusters && p.world.clusters == WithoutConfig(e, dep, w))
  {
    var w2 := AfterPush(e, Plain(e, w, Dependent(i), ReadSecret), Dependent(i), dep.repo, files);
    assert w2.clusters == w.clusters;
  }

  // --- Which entries matched, by the trace and by the repositories ---

  /** From time `from` on the events belong to entries from `i` on. */
  predicate LaterEntries(t: seq<Event>, from: nat, i: nat) {
    forall k :: from <= k < |t| ==> t[k].phase.Dependent? && i <= t[k].phase.entry
  }

  lemma PhasesJoin(t: seq<Event>, before: seq<Event>, from: nat, i: nat)
    requires from <= |before| <= |t| && t[..|before|] == before
    requires LaterEntries(before, from, i) && LaterEntries(t, |before|, i + 1)
    ensures LaterEntries(t, from, i)
  {
    assert forall k :: 0 <= k < |before| ==> t[k] == before[k];
  }

  lemma EntryPhases(e: Env, spec: Spec, i: nat, w: World, apps: Apps)
    requires i < |spec.clusterInfo|
    ensures var t := Entry(e, spec, i, w, apps).world.trace; |w.trace| <= |t| && LaterEntries(t, |w.trace|, i)
  {
    var added := SyncPhase.EntryShape(e, spec, i, w, apps);
  }

  /** The events of the loop from entry `i` on. */
  lemma {:induction false} EntriesPhases(e: Env, spec: Spec, i: nat, w: World, apps: Apps)
    requires i <= |spec.clusterInfo|
    ensures var t := Entries(e, spec, i, w, apps).world.trace;
            && |w.trace| <= |t| && t[..|w.trace|] == w.trace && LaterEntries(t, |w.trace|, i)
    decreases |spec.clusterInfo| - i
  {
    SyncPhase.EntriesExtend(e, spec, i, w, apps);
    if i == |spec.clusterInfo| {
    } else {
      EntryPhases(e, spec, i, w, apps);
      var p := Entry(e, spec, i, w, apps);
      if p.outcome == Done {
        EntriesPhases(e, spec, i + 1, p.world, p.apps);
        PhasesJoin(Entries(e, spec, i + 1, p.world, p.apps).world.trace, p.world.trace, |w.trace|, i);
      }
    }
  }

  lemma FindsByTrace(e: Env, spec: Spec, i: nat, w: World, apps: Apps)
    requires i < |spec.clusterInfo| && Entry(e, spec, i, w, apps).outcome == Done
    ensures var t := Entry(e, spec, i, w, apps).world.trace;
            SyncPhase.EntryMatched(t, |w.trace|, i) <==>
            spec.clusterInfo[i].configRef != NO_CONFIG && Finds(e, spec.clusterInfo[i], w)
  {
    var dep := spec.clusterInfo[i];
    var t := Entry(e, spec, i, w, apps).world.trace;
    var added := SyncPhase.EntryShape(e, spec, i, w, apps);
    if dep.configRef != NO_CONFIG {
      var c := CheckRepo(e, w, dep.repo, dep.configRef.id);
      var w1 := AfterCheck(w, Dependent(i), dep.repo, c);
      if c.value.matches != [] {
        var more := SyncPhase.RewriteShape(e, spec, i, w1, apps, c.value);
        assert t == w1.trace + more && SyncPhase.IsClone(t[|w.trace|], i);
      }
    }
  }

  /** Within a longer trace, entry `j` matches in its own turn or not at all. */
  lemma MatchedInTurn(e: Env, spec: Spec, i: nat, j: nat, w: World, apps: Apps, t: seq<Event>)
    requires i <= j < |spec.clusterInfo| && Entry(e, spec, i, w, apps).outcome == Done
    requires var before := Entry(e, spec, i, w, apps).world.trace;
             |before| <= |t| && t[..|before|] == before && LaterEntries(t, |before|, i + 1)
    ensures SyncPhase.EntryMatched(t, |w.trace|, j) <==>
            if i == j then spec.clusterInfo[j].configRef != NO_CONFIG && Finds(e, spec.clusterInfo[j], w)
            else SyncPhase.EntryMatched(t, |Entry(e, spec, i, w, apps).world.trace|, j)
  {
    OnlyOwnMatches(e, spec, i, j, w, apps);
    SplitMatched(t, |w.trace|, |Entry(e, spec, i, w, apps).world.trace|, j);
    if i == j {
      FindsByTrace(e, spec, i, w, apps);
    }
  }

  /** The same in the trace of the loop. */
  lemma MatchedFrom(e: Env, spec: Spec, i: nat, j: nat, w: World, apps: Apps)
    requires i <= j < |spec.clusterInfo| && Entries(e, spec, i, w, apps).outcome == Done
    ensures var p := Entry(e, spec, i, w, apps);
            && p.outcome == Done
            && (SyncPhase.EntryMatched(Entries(e, spec, i, w, apps).world.trace, |w.trace|, j) <==>
                if i == j then spec.clusterInfo[j].configRef != NO_CONFIG && Finds(e, spec.clusterInfo[j], w)
                else SyncPhase.EntryMatched(Entries(e, spec, i + 1, p.world, p.apps).world.trace, |p.world.trace|, j))
  {
    var p := Entry(e, spec, i, w, apps);
    EntriesPhases(e, spec, i + 1, p.world, p.apps);
    MatchedInTurn(e, spec, i, j, w, apps, Entries(e, spec, i + 1, p.world, p.apps).world.trace);
  }

  lemma OnlyOwnMatches(e: Env, spec: Spec, i: nat, j: nat, w: World, apps: Apps)
    requires i < |spec.clusterInfo|
    ensures |w.trace| <= |Entry(e, spec, i, w, apps).world.trace|
    ensures i != j ==> !SyncPhase.EntryMatched(Entry(e, spec, i, w, apps).world.trace, |w.trace|, j)
  {
    var added := SyncPhase.EntryShape(e, spec, i, w, apps);
    assert i != j ==> forall k :: 0 <= k < |added| ==> !SyncPhase.IsClone(added[k], j);
  }

  lemma SplitMatched(t: seq<Event>, base: nat, m: nat, j: nat)
    requires base <= m <= |t|
    ensures SyncPhase.EntryMatched(t, base, j) <==>
            SyncPhase.EntryMatched(t[..m], base, j) || SyncPhase.EntryMatched(t, m, j)
  {
    if SyncPhase.EntryMatched(t[..m], base, j) {
      var k :| base <= k < m && SyncPhase.IsClone(t[..m][k], j) && t[..m][k].act.matches > 0;
      assert SyncPhase.IsClone(t[k], j);
    }
    if SyncPhase.EntryMatched(t, base, j) {
      var k :| base <= k < |t| && SyncPhase.IsClone(t[k], j) && t[k].act.matches > 0;
      assert k < m ==> SyncPhase.IsClone(t[..m][k], j);
    }
  }

  /** Entry `j` is still to come, matches, and finds its cluster tidy. */
  ghost predicate Pending(e: Env, spec: Spec, i: nat, j: nat, w: World, apps: Apps)
    requires i <= j < |spec.clusterInfo|
  {
    && Entries(e, spec, i, w, apps).outcome == Done
    && SyncPhase.EntryMatched(Entries(e, spec, i, w, apps).world.trace, |w.trace|, j)
    && HealthyApi(e, spec.clusterInfo[j].name) && TidyAt(spec.clusterInfo[j], w)
  }

  /** The turn of the entry, and what comes after. */
  lemma ClearsInTurn(e: Env, spec: Spec, j: nat, w: World, apps: Apps)
    requires j < |spec.clusterInfo| && Pending(e, spec, j, j, w, apps)
    ensures ClearedAt(spec.clusterInfo[j], Entries(e, spec, j, w, apps).world)
  {
    var p, dep := Entry(e, spec, j, w, apps), spec.clusterInfo[j];
    MatchedFrom(e, spec, j, j, w, apps);
    DeletesOnce(e, spec, j, w, apps);
    DeleteConfigClears(e.api, dep.name, w.clusters[dep.name], dep.configRef);
    EntriesRemove(e, spec, j + 1, p.world, p.apps);
  }

  /** The turn of another entry. */
  lemma PendsOn(e: Env, spec: Spec, i: nat, j: nat, w: World, apps: Apps) returns (w': World, apps': Apps)
    requires i < j < |spec.clusterInfo| && Pending(e, spec, i, j, w, apps)
    ensures Pending(e, spec, i + 1, j, w', apps')
    ensures Entries(e, spec, i, w, apps) == Entries(e, spec, i + 1, w', apps')
  {
    var p := Entry(e, spec, i, w, apps);
    MatchedFrom(e, spec, i, j, w, apps);
    EntryKeepsTidy(e, spec, i, w, apps, spec.clusterInfo[j]);
    w', apps' := p.world, p.apps;
  }

  lemma {:induction false} EntriesClear(e: Env, spec: Spec, i: nat, j: nat, w: World, apps: Apps)
    requires i <= j < |spec.clusterInfo| && Pending(e, spec, i, j, w, apps)
    ensures ClearedAt(spec.clusterInfo[j], Entries(e, spec, i, w, apps).world)
    decreases |spec.clusterInfo| - i
  {
    if i == j {
      ClearsInTurn(e, spec, j, w, apps);
    } else {
      var w', apps' := PendsOn(e, spec, i, j, w, apps);
      EntriesClear(e, spec, i + 1, j, w', apps');
    }
  }

  /** When the dependent handler returns nil, every entry with a match has its Config, its NFDeployment and the pods of
      both namespaces gone, if the API of its cluster serves every call and the NFDeployment was there, or no pod of its
      namespace. */
  lemma DependentsCleared(e: Env, spec: Spec, j: nat, w: World)
    requires j < |spec.clusterInfo| && HandleDependents(e, spec, w).outcome == Done
    requires SyncPhase.EntryMatched(HandleDependents(e, spec, w).world.trace, |w.trace|, j)
    requires HealthyApi(e, spec.clusterInfo[j].name) && TidyAt(spec.clusterInfo[j], w)
    ensures ClearedAt(spec.clusterInfo[j], HandleDependents(e, spec, w).world)
  {
    var w2 := Plain(e, Plain(e, w, DependentStart, GetUser), DependentStart, ListRepos);
    var p := Entries(e, spec, 0, w2, map[]);
    MatchedBeforeSyncs(e, spec, j, w);
    EntriesClear(e, spec, 0, j, w2, map[]);
    SyncsKeepClusters(e, Order(e, p.world, p.apps), p.apps, p.world);
  }

  lemma {:induction false} SyncsAddSyncs(e: Env, keys: seq<string>, apps: Apps, w: World)
    requires forall k :: k in keys ==> k in apps
    ensures var t := SyncApps(e, keys, apps, w).trace;
            && |w.trace| <= |t| && t[..|w.trace|] == w.trace
            && forall k :: |w.trace| <= k < |t| ==> t[k].phase == Sync
    decreases |keys|
  {
    if keys == [] {
    } else {
      var act := SyncApp(apps[keys[0]].name, apps[keys[0]].client);
      var w2 := Plain(e, Plain(e, w, Sync, act), Sync, act);
      SyncsAddSyncs(e, keys[1..], apps, w2);
      var t := SyncApps(e, keys, apps, w).trace;
      assert t[..|w2.trace|] == w2.trace;
      assert forall k :: 0 <= k < |w2.trace| ==> t[k] == w2.trace[k];
    }
  }

  /** The matches of a run of the dependent handler are those of its loop. */
  lemma MatchedBeforeSyncs(e: Env, spec: Spec, j: nat, w: World)
    requires HandleDependents(e, spec, w).outcome == Done
    ensures var w2 := Plain(e, Plain(e, w, DependentStart, GetUser), DependentStart, ListRepos);
            var p := Entries(e, spec, 0, w2, map[]);
            p.outcome == Done &&
            (SyncPhase.EntryMatched(HandleDependents(e, spec, w).world.trace, |w.trace|, j) <==>
             SyncPhase.EntryMatched(p.world.trace, |w2.trace|, j))
  {
    var w2 := Plain(e, Plain(e, w, DependentStart, GetUser), DependentStart, ListRepos);
    var p := Entries(e, spec, 0, w2, map[]);
    var t := HandleDependents(e, spec, w).world.trace;
    EntriesPhases(e, spec, 0, w2, map[]);
    SyncsAddSyncs(e, Order(e, p.world, p.apps), p.apps, p.world);
    SplitMatched(t, |w.trace|, |p.world.trace|, j);
    SplitMatched(p.world.trace, |w.trace|, |w2.trace|, j);
    assert p.world.trace[..|w2.trace|] == w2.trace;
  }

  /** A clone of the entry's repository would find a match. */
  ghost predicate HasMatch(e: Env, dep: ClusterInfo, w: World) {
    dep.configRef != NO_CONFIG && MatchesAt(e, dep, w).Some? && MatchesAt(e, dep, w).value != []
  }

  lemma {:induction false} EntriesMatch(e: Env, spec: Spec, i: nat, j: nat, w: World, apps: Apps)
    requires LawfulEnv(e) && WorldSingle(e.codec, w)
    requires i <= j < |spec.clusterInfo| && Entries(e, spec, i, w, apps).outcome == Done
    ensures SyncPhase.EntryMatched(Entries(e, spec, i, w, apps).world.trace, |w.trace|, j) <==>
            HasMatch(e, spec.clusterInfo[j], w)
    decreases |spec.clusterInfo| - i
  {
    var p := Entry(e, spec, i, w, apps);
    MatchedFrom(e, spec, i, j, w, apps);
    if i < j {
      EntryKeepsMatches(e, spec, i, j, w, apps);
      EntriesMatch(e, spec, i + 1, j, p.world, p.apps);
    }
  }

  lemma EntryKeepsMatches(e: Env, spec: Spec, i: nat, j: nat, w: World, apps: Apps)
    requires LawfulEnv(e) && WorldSingle(e.codec, w) && i < |spec.clusterInfo| && j < |spec.clusterInfo|
    ensures var w' := Entry(e, spec, i, w, apps).world;
            WorldSingle(e.codec, w') && MatchesAt(e, spec.clusterInfo[j], w') == MatchesAt(e, spec.clusterInfo[j], w)
  {
    var w' := Entry(e, spec, i, w, apps).world;
    EntryEffect(e, spec, i, w, apps);
    if w'.repos != w.repos {
      var dep := spec.clusterInfo[i];
      var ips, ms := NewIPsOf(spec.interfaces).value, MatchesAt(e, dep, w).value;
      PushKeeps(e, dep, ips, ms, w, w', spec.clusterInfo[j]);
    }
  }

  /** In repositories of single-document files, a run of the dependent handler that returns nil found a match for
      exactly the entries whose repository has one in the state that the run started from. */
  lemma MatchedExactly(e: Env, spec: Spec, j: nat, w: World)
    requires LawfulEnv(e) && WorldSingle(e.codec, w)
    requires j < |spec.clusterInfo| && HandleDependents(e, spec, w).outcome == Done
    ensures SyncPhase.EntryMatched(HandleDependents(e, spec, w).world.trace, |w.trace|, j) <==>
            HasMatch(e, spec.clusterInfo[j], w)
  {
    var w2 := Plain(e, Plain(e, w, DependentStart, GetUser), DependentStart, ListRepos);
    MatchedBeforeSyncs(e, spec, j, w);
    EntriesMatch(e, spec, 0, j, w2, map[]);
  }
}
