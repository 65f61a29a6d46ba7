/** Exactly when the handlers return nil. */
module Returns {
  import opened Documents
  import opened Rewrites
  import opened Files
  import opened Repos
  import opened Api
  import opened Settling
  import opened Workflow
  import opened Coupling
  import opened Repeats
  import opened Rerun
  import opened Safety

  // --- Served calls ---

  ghost predicate Extends(w: World, w': World) {
    |w.trace| <= |w'.trace| && w'.trace[..|w.trace|] == w.trace
  }

  lemma ServedJoin(e: Env, a: World, b: World, c: World)
    requires Extends(a, b) && Extends(b, c)
    ensures Extends(a, c)
    ensures Served(e, a, c) <==> Served(e, a, b) && Served(e, b, c)
  {
    assert forall k :: 0 <= k < |b.trace| ==> c.trace[k] == b.trace[k];
    assert c.trace[..|a.trace|] == b.trace[..|a.trace|];
  }

  /** One call. */
  lemma ServedOnce(e: Env, w: World, w': World, ev: Event)
    requires w'.trace == w.trace + [ev]
    ensures Extends(w, w')
    ensures Served(e, w, w') <==> (Essential(ev.act) ==> e.ok(|w.trace|))
  {
    assert w'.trace[|w.trace|] == ev;
  }

  // --- The dependent handler ---

  /** What one entry needs, in the state that it finds: its manifests decode, and if any match, the address map exists,
      rewriting has an effect, and the cluster is known. */
  ghost predicate Ready(e: Env, spec: Spec, dep: ClusterInfo, w: World) {
    dep.configRef != NO_CONFIG ==>
      var ms := MatchesAt(e, dep, w);
      && ms.Some?
      && (ms.value != [] ==>
            && NewIPsOf(spec.interfaces).Some?
            && dep.name in w.clusters
            && Effective(e.codec, UpdateConfig(NewIPsOf(spec.interfaces).value), w.repos[dep.repo], ms.value))
  }

  /** Some listed file changes. */
  ghost predicate Effective(c: Codec, u: Update, repo: Repo, ms: seq<string>) {
    exists p :: p in ms && p in repo && !UnchangedBy(c, u, repo[p])
  }

  /** No entry from `k` on comes before `j` and is for the same Config. */
  ghost predicate FirstOfItsKind(spec: Spec, k: nat, j: nat)
    requires j < |spec.clusterInfo|
  {
    forall i: nat :: k <= i < j ==> !Twins(spec, i, j)
  }

  /** Entry `j` is ready, and is the first for its Config when that has a match. */
  ghost predicate ReadyFrom(e: Env, spec: Spec, k: nat, j: nat, w: World)
    requires j < |spec.clusterInfo|
  {
    var dep := spec.clusterInfo[j];
    && Ready(e, spec, dep, w)
    && (dep.configRef != NO_CONFIG && MatchesAt(e, dep, w) != Some([]) ==> FirstOfItsKind(spec, k, j))
  }

  ghost predicate AllReady(e: Env, spec: Spec, k: nat, w: World) {
    forall j: nat :: k <= j < |spec.clusterInfo| ==> ReadyFrom(e, spec, k, j, w)
  }

  /** Config updates of files that a scan could decode never fail. */
  lemma ScannedConfigsOk(c: Codec, ips: NewIPs, repo: Repo, paths: seq<string>, id: ObjectName)
    requires Enumerates(paths, repo.Keys) && Scan(c, repo, paths, id).Some?
    ensures AllOk(c, UpdateConfig(ips), repo, Scan(c, repo, paths, id).value)
  {
    var ms := Scan(c, repo, paths, id).value;
    forall p | p in ms
      ensures p in repo && EditFile(c, UpdateConfig(ips), repo[p]).Ok()
    {
      ScanCount(c, repo, paths, id, p);
      ScannedDecodes(c, repo[p], id);
      EmbeddingLaw(FirstDoc(c, repo[p]).value, ips);
    }
  }

  lemma EffectiveChanges(c: Codec, u: Update, repo: Repo, ms: seq<string>)
    requires AllOk(c, u, repo, ms)
    ensures UpdateAll(c, u, repo, ms) != repo <==> Effective(c, u, repo, ms)
  {
    var repo' := UpdateAll(c, u, repo, ms);
    if Effective(c, u, repo, ms) {
      var p :| p in ms && p in repo && !UnchangedBy(c, u, repo[p]);
      assert repo'[p] != repo[p];
    } else {
      assert forall p :: p in ms ==> UnchangedBy(c, u, repo[p]);
      assert repo' == repo;
    }
  }

  /** An entry ends well exactly when it is ready and its essential calls are served. */
  lemma EntryDone(e: Env, spec: Spec, i: nat, w: World, apps: Apps)
    requires LawfulEnv(e) && i < |spec.clusterInfo|
    ensures var p := Entry(e, spec, i, w, apps);
            && Extends(w, p.world)
            && (p.outcome == Done <==> Ready(e, spec, spec.clusterInfo[i], w) && Served(e, w, p.world))
  {
    var dep := spec.clusterInfo[i];
    if dep.configRef != NO_CONFIG {
      var c := CheckRepo(e, w, dep.repo, dep.configRef.id);
      var w1 := AfterCheck(w, Dependent(i), dep.repo, c);
      ServedOnce(e, w, w1, w1.trace[|w.trace|]);
      if c.Some? && c.value.matches != [] {
        RewriteDone(e, spec, i, w1, apps, c.value);
        ServedJoin(e, w, w1, Entry(e, spec, i, w, apps).world);
      }
    }
  }

  lemma RewriteDone(e: Env, spec: Spec, i: nat, w: World, apps: Apps, c: Checkout)
    requires LawfulEnv(e) && i < |spec.clusterInfo|
    requires var dep := spec.clusterInfo[i];
             dep.repo in w.repos && c.files == w.repos[dep.repo] && MatchesAt(e, dep, w) == Some(c.matches)
    ensures var p := RewriteEntry(e, spec, i, w, apps, c);
            var dep := spec.clusterInfo[i];
            && Extends(w, p.world)
            && (p.outcome == Done <==>
                  && NewIPsOf(spec.interfaces).Some?
                  && dep.name in w.clusters
                  && Effective(e.codec, UpdateConfig(NewIPsOf(spec.interfaces).value), c.files, c.matches)
                  && Served(e, w, p.world))
  {
    if NewIPsOf(spec.interfaces).Some? {
      var dep, ips := spec.clusterInfo[i], NewIPsOf(spec.interfaces).value;
      var u := UpdateConfig(ips);
      var paths := e.walk(c.files.Keys);
      assert Enumerates(paths, c.files.Keys);
      ScannedConfigsOk(e.codec, ips, c.files, paths, dep.configRef.id);
      FoldMeaning(e.codec, u, c.files, c.matches);
      EffectiveChanges(e.codec, u, c.files, c.matches);
      PublishDone(e, dep, i, w, apps, Fold(e.codec, u, c.files, c.matches).repo);
    }
  }

  lemma PublishDone(e: Env, dep: ClusterInfo, i: nat, w: World, apps: Apps, files: Repo)
    requires dep.repo in w.repos
    ensures var p := PublishEntry(e, dep, i, w, apps, files);
            && Extends(w, p.world)
            && (p.outcome == Done <==>
                  files != w.repos[dep.repo] && dep.name in w.clusters && Served(e, w, p.world))
  {
    var w1 := Plain(e, w, Dependent(i), ReadSecret);
    var w2 := AfterPush(e, w1, Dependent(i), dep.repo, files);
    ServedOnce(e, w, w1, w1.trace[|w.trace|]);
    if LastOk(w1) {
      ServedOnce(e, w1, w2, w2.trace[|w1.trace|]);
      ServedJoin(e, w, w1, w2);
      if LastOk(w2) {
        FinishDone(e, dep, i, w2, apps);
        ServedJoin(e, w, w2, FinishEntry(e, dep, i, w2, apps).world);
      }
    }
  }

  lemma FinishDone(e: Env, dep: ClusterInfo, i: nat, w: World, apps: Apps)
    ensures var p := FinishEntry(e, dep, i, w, apps);
            && Extends(w, p.world)
            && (p.outcome == Done <==> dep.name in w.clusters && Served(e, w, p.world))
  {
    var w1 := AfterLookup(e, w, Dependent(i), dep.name);
    ServedOnce(e, w, w1, w1.trace[|w.trace|]);
    if LastOk(w1) {
      var w2 := Plain(e, w1, Dependent(i), ListApps(dep.name));
      var w3 := AfterDeleteConfig(e, w2, Dependent(i), dep.name, dep.configRef);
      ServedOnce(e, w1, w2, w2.trace[|w1.trace|]);
      ServedOnce(e, w2, w3, w3.trace[|w2.trace|]);
      ServedJoin(e, w1, w2, w3);
      ServedJoin(e, w, w1, w3);
    }
  }

  lemma EntryKeepsClusters(e: Env, spec: Spec, i: nat, w: World, apps: Apps)
    requires i < |spec.clusterInfo|
    ensures Entry(e, spec, i, w, apps).world.clusters.Keys == w.clusters.Keys
  {
    var dep := spec.clusterInfo[i];
    if dep.configRef != NO_CONFIG {
      var c := CheckRepo(e, w, dep.repo, dep.configRef.id);
      var w1 := AfterCheck(w, Dependent(i), dep.repo, c);
      if c.Some? && c.value.matches != [] && NewIPsOf(spec.interfaces).Some? {
        var u := UpdateConfig(NewIPsOf(spec.interfaces).value);
        PublishKeepsClusters(e, dep, i, w1, apps, Fold(e.codec, u, c.value.files, c.value.matches).repo);
      }
    }
  }

  lemma PublishKeepsClusters(e: Env, dep: ClusterInfo, i: nat, w: World, apps: Apps, files: Repo)
    ensures PublishEntry(e, dep, i, w, apps, files).world.clusters.Keys == w.clusters.Keys
  {
    assert dep.name in w.clusters ==> w.clusters.Keys + {dep.name} == w.clusters.Keys;
  }

  lemma OneName(c: Codec, repo: Repo, p: string, id: ObjectName)
    requires AllSingle(c, repo) && Matching(c, repo, p, id) > 0
    ensures var docs := c.yamlDecode(repo[p]).docs;
            docs != [] && DecodeName(docs[0]) == Some(id)
  {
    var docs := c.yamlDecode(repo[p]).docs;
    if docs != [] {
      assert docs[1..] == [] && CountNamed([], id) == Some(0);
    }
  }

  /** In single-document files the manifests of two Configs are different files. */
  lemma MatchesApart(c: Codec, repo: Repo, paths: seq<string>, a: ObjectName, b: ObjectName, p: string)
    requires AllSingle(c, repo) && Distinct(paths) && a != b
    requires Scan(c, repo, paths, a).Some? && Scan(c, repo, paths, b).Some?
    ensures !(p in Scan(c, repo, paths, a).value && p in Scan(c, repo, paths, b).value)
  {
    ScanCount(c, repo, paths, a, p);
    ScanCount(c, repo, paths, b, p);
    if Matching(c, repo, p, a) > 0 {
      OneName(c, repo, p, a);
    }
    if Matching(c, repo, p, b) > 0 {
      OneName(c, repo, p, b);
    }
  }

  /** The push of one entry leaves the matches of an entry for another Config as they were. */
  lemma PushSparesOthers(e: Env, dep: ClusterInfo, ips: NewIPs, ms: seq<string>, w: World, w': World,
                         other: ClusterInfo)
    requires LawfulEnv(e) && WorldSingle(e.codec, w) && PushedOnce(e, dep, ips, ms, w, w')
    requires other.repo != dep.repo || other.configRef.id != dep.configRef.id
    requires MatchesAt(e, other, w).Some?
    ensures forall p :: p in MatchesAt(e, other, w).value ==>
              SameAt(w.repos[other.repo], w'.repos[other.repo], p)
  {
    if other.repo == dep.repo {
      var repo := w.repos[dep.repo];
      var paths := e.walk(repo.Keys);
      assert Enumerates(paths, repo.Keys);
      forall p | p in MatchesAt(e, other, w).value
        ensures p !in ms
      {
        MatchesApart(e.codec, repo, paths, other.configRef.id, dep.configRef.id, p);
      }
    }
  }

  lemma EffectiveSame(c: Codec, u: Update, repo: Repo, repo': Repo, ms: seq<string>)
    requires forall p :: p in ms ==> SameAt(repo, repo', p)
    ensures Effective(c, u, repo, ms) <==> Effective(c, u, repo', ms)
  {
    assert forall p :: p in ms ==> (p in repo <==> p in repo');
    assert forall p :: p in ms && p in repo ==> repo[p] == repo'[p];
  }

  lemma FirstOfItsKindStep(spec: Spec, k: nat, j: nat)
    requires k < j < |spec.clusterInfo|
    ensures FirstOfItsKind(spec, k, j) <==> !Twins(spec, k, j) && FirstOfItsKind(spec, k + 1, j)
  {
    if !Twins(spec, k, j) && FirstOfItsKind(spec, k + 1, j) {
      forall i: nat | k <= i < j
        ensures !Twins(spec, i, j)
      {
        if i != k {
          assert k + 1 <= i;
        }
      }
    }
  }

  /** The push of an earlier entry for another Config does not decide whether an entry is ready. */
  lemma PushKeepsReady(e: Env, spec: Spec, dep: ClusterInfo, ms: seq<string>, w: World, w': World, other: ClusterInfo)
    requires LawfulEnv(e) && WorldSingle(e.codec, w) && NewIPsOf(spec.interfaces).Some?
    requires PushedOnce(e, dep, NewIPsOf(spec.interfaces).value, ms, w, w') && w'.clusters.Keys == w.clusters.Keys
    requires other.configRef != NO_CONFIG
    requires other.repo != dep.repo || other.configRef.id != dep.configRef.id
    ensures Ready(e, spec, other, w) <==> Ready(e, spec, other, w')
  {
    var ips := NewIPsOf(spec.interfaces).value;
    PushKeeps(e, dep, ips, ms, w, w', other);
    if MatchesAt(e, other, w).Some? {
      var found := MatchesAt(e, other, w).value;
      PushSparesOthers(e, dep, ips, ms, w, w', other);
      EffectiveSame(e.codec, UpdateConfig(ips), w.repos[other.repo], w'.repos[other.repo], found);
    }
  }

  /** After the push of its twin an entry is not ready. */
  lemma TwinIsNotReady(e: Env, spec: Spec, dep: ClusterInfo, ms: seq<string>, w: World, w': World, other: ClusterInfo)
    requires LawfulEnv(e) && WorldSingle(e.codec, w) && NewIPsOf(spec.interfaces).Some?
    requires PushedOnce(e, dep, NewIPsOf(spec.interfaces).value, ms, w, w') && ms != []
    requires other.configRef != NO_CONFIG
    requires other.repo == dep.repo && other.configRef.id == dep.configRef.id
    ensures !Ready(e, spec, other, w')
  {
    PushRewrites(e, dep, NewIPsOf(spec.interfaces).value, ms, w, w');
    assert MatchesAt(e, other, w') == MatchesAt(e, dep, w');
  }

  /** One entry that ends well decides nothing about a later one, unless the two are for the same Config. */
  lemma EntryKeepsReady(e: Env, spec: Spec, k: nat, j: nat, w: World, apps: Apps)
    requires LawfulEnv(e) && k < j < |spec.clusterInfo| && WorldSingle(e.codec, w)
    requires Entry(e, spec, k, w, apps).outcome == Done
    ensures ReadyFrom(e, spec, k, j, w) <==> ReadyFrom(e, spec, k + 1, j, Entry(e, spec, k, w, apps).world)
  {
    var w' := Entry(e, spec, k, w, apps).world;
    var dep, other := spec.clusterInfo[k], spec.clusterInfo[j];
    FirstOfItsKindStep(spec, k, j);
    EntryEffect(e, spec, k, w, apps);
    EntryKeepsClusters(e, spec, k, w, apps);
    if w'.repos == w.repos {
      SameReposReady(e, spec, w, w', other);
    } else {
      var ips, ms := NewIPsOf(spec.interfaces).value, MatchesAt(e, dep, w).value;
      PushedSomething(e, dep, ips, ms, w, w');
      PushKeeps(e, dep, ips, ms, w, w', other);
      if other.configRef != NO_CONFIG {
        if Twins(spec, k, j) {
          TwinIsNotReady(e, spec, dep, ms, w, w', other);
        } else {
          PushKeepsReady(e, spec, dep, ms, w, w', other);
        }
      }
    }
  }

  lemma SameReposReady(e: Env, spec: Spec, w: World, w': World, dep: ClusterInfo)
    requires w'.repos == w.repos && w'.clusters.Keys == w.clusters.Keys
    ensures Ready(e, spec, dep, w) <==> Ready(e, spec, dep, w')
    ensures MatchesAt(e, dep, w) == MatchesAt(e, dep, w')
  {
  }

  lemma PushedSomething(e: Env, dep: ClusterInfo, ips: NewIPs, ms: seq<string>, w: World, w': World)
    requires PushedOnce(e, dep, ips, ms, w, w')
    ensures ms != []
  {
    UpdateNothing(e.codec, UpdateConfig(ips), w.repos[dep.repo]);
  }

  lemma UpdateNothing(c: Codec, u: Update, repo: Repo)
    ensures UpdateAll(c, u, repo, []) == repo
  {
  }

  lemma EntryKeepsSingle(e: Env, spec: Spec, k: nat, w: World, apps: Apps)
    requires LawfulEnv(e) && k < |spec.clusterInfo| && WorldSingle(e.codec, w)
    ensures WorldSingle(e.codec, Entry(e, spec, k, w, apps).world)
  {
    EntryEffect(e, spec, k, w, apps);
    var w' := Entry(e, spec, k, w, apps).world;
    if w'.repos != w.repos {
      var dep := spec.clusterInfo[k];
      PushKeeps(e, dep, NewIPsOf(spec.interfaces).value, MatchesAt(e, dep, w).value, w, w', dep);
    }
  }

  lemma AllReadyStep(e: Env, spec: Spec, k: nat, w: World, apps: Apps)
    requires LawfulEnv(e) && k < |spec.clusterInfo| && WorldSingle(e.codec, w)
    requires Entry(e, spec, k, w, apps).outcome == Done
    ensures AllReady(e, spec, k, w) <==> AllReady(e, spec, k + 1, Entry(e, spec, k, w, apps).world)
  {
    var w' := Entry(e, spec, k, w, apps).world;
    EntryDone(e, spec, k, w, apps);
    assert ReadyFrom(e, spec, k, k, w);
    var next := k + 1;
    forall j: nat | next <= j < |spec.clusterInfo|
      ensures ReadyFrom(e, spec, k, j, w) <==> ReadyFrom(e, spec, next, j, w')
    {
      EntryKeepsReady(e, spec, k, j, w, apps);
    }
    assert forall j: nat :: k <= j < |spec.clusterInfo| ==>
        j == k || ReadyFrom(e, spec, k, j, w) == ReadyFrom(e, spec, next, j, w');
  }

  lemma {:induction false} EntriesDone(e: Env, spec: Spec, k: nat, w: World, apps: Apps)
    requires LawfulEnv(e) && k <= |spec.clusterInfo| && WorldSingle(e.codec, w)
    ensures var p := Entries(e, spec, k, w, apps);
            && Extends(w, p.world)
            && (p.outcome == Done <==> AllReady(e, spec, k, w) && Served(e, w, p.world))
    decreases |spec.clusterInfo| - k
  {
    if k == |spec.clusterInfo| {
    } else {
      EntryDone(e, spec, k, w, apps);
      var p := Entry(e, spec, k, w, apps);
      if p.outcome == Done {
        EntryKeepsSingle(e, spec, k, w, apps);
        AllReadyStep(e, spec, k, w, apps);
        EntriesDone(e, spec, k + 1, p.world, p.apps);
        ServedJoin(e, w, p.world, Entries(e, spec, k + 1, p.world, p.apps).world);
      } else {
        assert ReadyFrom(e, spec, k, k, w) ==> !Served(e, w, p.world);
      }
    }
  }

  lemma {:induction false} SyncsOnly(e: Env, keys: seq<string>, apps: Apps, w: World)
    requires forall k :: k in keys ==> k in apps
    ensures var w' := SyncApps(e, keys, apps, w); Extends(w, w') && Served(e, w, w')
    decreases |keys|
  {
    if keys == [] {
    } else {
      var act := SyncApp(apps[keys[0]].name, apps[keys[0]].client);
      var w1 := Plain(e, w, Sync, act);
      var w2 := Plain(e, w1, Sync, act);
      ServedOnce(e, w, w1, w1.trace[|w.trace|]);
      ServedOnce(e, w1, w2, w2.trace[|w1.trace|]);
      ServedJoin(e, w, w1, w2);
      SyncsOnly(e, keys[1..], apps, w2);
      ServedJoin(e, w, w2, SyncApps(e, keys, apps, w));
    }
  }

  /** The dependent handler returns nil exactly when, in the state that it starts from, every entry with a Config is
      ready and none that has a match repeats the Config of an earlier entry, and every essential call of the run is
      served; whatever the fate of its other calls. */
  lemma DependentsDoneExactly(e: Env, spec: Spec, w: World)
    requires LawfulEnv(e) && WorldSingle(e.codec, w)
    ensures var r := HandleDependents(e, spec, w);
            && Extends(w, r.world)
            && (r.outcome == Done <==> AllReady(e, spec, 0, w) && Served(e, w, r.world))
  {
    var w1 := Plain(e, w, DependentStart, GetUser);
    ServedOnce(e, w, w1, w1.trace[|w.trace|]);
    if LastOk(w1) {
      var w2 := Plain(e, w1, DependentStart, ListRepos);
      ServedOnce(e, w1, w2, w2.trace[|w1.trace|]);
      ServedJoin(e, w, w1, w2);
      EntriesDone(e, spec, 0, w2, map[]);
      AllReadySame(e, spec, 0, w, w2);
      var p := Entries(e, spec, 0, w2, map[]);
      ServedJoin(e, w, w2, p.world);
      if p.outcome == Done {
        SyncsOnly(e, Order(e, p.world, p.apps), p.apps, p.world);
        ServedJoin(e, w, p.world, HandleDependents(e, spec, w).world);
      }
    }
  }

  lemma AllReadySame(e: Env, spec: Spec, k: nat, w: World, w': World)
    requires w'.repos == w.repos && w'.clusters.Keys == w.clusters.Keys
    ensures AllReady(e, spec, k, w) <==> AllReady(e, spec, k, w')
  {
    forall j: nat | k <= j < |spec.clusterInfo|
      ensures ReadyFrom(e, spec, k, j, w) <==> ReadyFrom(e, spec, k, j, w')
    {
      SameReposReady(e, spec, w, w', spec.clusterInfo[j]);
    }
  }

  // --- The target handler ---

  /** The state that the dependent handler starts from: the target's tree is pushed, and, when that call is served and
      its file is new, so is the Argo application. */
  function HandedOver(e: Env, ci: ClusterInfo, w: World, files: Repo): World {
    var repos := w.repos[ci.repo := files];
    var url := e.repoUrl(ci.targetCluster.name);
    var time := |w.trace| + 8;
    var path := e.appPath(time);
    if e.ok(time) && url in repos && path !in repos[url]
    then w.(repos := repos[url := repos[url][path := e.codec.yamlEncode(AppDoc(ci))]])
    else w.(repos := repos)
  }

  /** What a target with matches needs. */
  ghost predicate TargetReady(e: Env, spec: Spec, ci: ClusterInfo, w: World)
    requires LawfulEnv(e)
  {
    && HasWork(e, spec, ci, w)
    && ci.name in w.clusters && ci.targetCluster.name in w.clusters
    && AllReady(e, spec, 0, HandedOver(e, ci, w, TargetTree(e, spec, ci, w).repo))
  }

  lemma HandedOverSingle(e: Env, ci: ClusterInfo, w: World, files: Repo)
    requires LawfulEnv(e) && WorldSingle(e.codec, w) && AllSingle(e.codec, files)
    ensures WorldSingle(e.codec, HandedOver(e, ci, w, files))
  {
    var repos := w.repos[ci.repo := files];
    var url := e.repoUrl(ci.targetCluster.name);
    if url in repos {
      AppSingle(e.codec, repos[url], e.appPath(|w.trace| + 8), ci);
    }
  }

  lemma TargetTreeSingle(e: Env, spec: Spec, ci: ClusterInfo, w: World)
    requires LawfulEnv(e) && WorldSingle(e.codec, w)
    requires TargetMatches(e, ci, w).Some? && TargetTree(e, spec, ci, w).status.Success?
    ensures AllSingle(e.codec, TargetTree(e, spec, ci, w).repo)
  {
    var repo := w.repos[ci.repo];
    var paths := e.walk(repo.Keys);
    assert Enumerates(paths, repo.Keys);
    TargetSettles(e.codec, spec.interfaces, ci.nfDeployment, repo, paths, TargetMatches(e, ci, w).value);
  }

  /** From the hand-over on. */
  lemma HandOverDone(e: Env, spec: Spec, ci: ClusterInfo, w: World, start: World)
    requires LawfulEnv(e) && WorldSingle(e.codec, w)
    requires start.repos == w.repos && start.clusters.Keys == w.clusters.Keys
    ensures var r := HandOver(e, spec, ci, w);
            && Extends(w, r.world)
            && (r.outcome == Done <==>
                  ci.targetCluster.name in w.clusters && AllReady(e, spec, 0, start) && Served(e, w, r.world))
  {
    var w1 := AfterLookup(e, w, Target, ci.targetCluster.name);
    ServedOnce(e, w, w1, w1.trace[|w.trace|]);
    if LastOk(w1) {
      var w2 := Plain(e, w1, Target, SyncApp(ci.targetCluster.name, |w.trace|));
      ServedOnce(e, w1, w2, w2.trace[|w1.trace|]);
      ServedJoin(e, w, w1, w2);
      DependentsDoneExactly(e, spec, w2);
      AllReadySame(e, spec, 0, start, w2);
      ServedJoin(e, w, w2, HandOver(e, spec, ci, w).world);
    }
  }

  /** The target's cluster is known: the function is taken down there and the application pushed. */
  lemma TakenDown(e: Env, ci: ClusterInfo, w0: World, w: World, files: Repo)
    requires ci.name in w.clusters
    requires w.repos == w0.repos[ci.repo := files] && |w.trace| == |w0.trace| + 6
    ensures var w2 := AfterDeleteNF(e, Plain(e, w, Target, ListApps(ci.name)), Target, ci.name, ci.nfDeployment);
            var w3 := AfterPushApp(e, w2, ci);
            && w3.repos == HandedOver(e, ci, w0, files).repos && w3.clusters.Keys == w.clusters.Keys
            && Extends(w, w3) && Served(e, w, w3)
  {
    var w1 := Plain(e, w, Target, ListApps(ci.name));
    var w2 := AfterDeleteNF(e, w1, Target, ci.name, ci.nfDeployment);
    var w3 := AfterPushApp(e, w2, ci);
    assert w.clusters.Keys + {ci.name} == w.clusters.Keys;
    ServedOnce(e, w, w1, w1.trace[|w.trace|]);
    ServedOnce(e, w1, w2, w2.trace[|w1.trace|]);
    ServedOnce(e, w2, w3, w3.trace[|w2.trace|]);
    ServedJoin(e, w, w1, w2);
    ServedJoin(e, w, w2, w3);
  }

  /** From the push on. */
  lemma DeployDone(e: Env, spec: Spec, ci: ClusterInfo, w0: World, w: World, files: Repo)
    requires LawfulEnv(e) && WorldSingle(e.codec, HandedOver(e, ci, w0, files))
    requires w.repos == w0.repos[ci.repo := files] && w.clusters == w0.clusters && |w.trace| == |w0.trace| + 5
    ensures var r := Deploy(e, spec, ci, w);
            && Extends(w, r.world)
            && (r.outcome == Done <==>
                  && ci.name in w0.clusters && ci.targetCluster.name in w0.clusters
                  && AllReady(e, spec, 0, HandedOver(e, ci, w0, files))
                  && Served(e, w, r.world))
  {
    var w1 := AfterLookup(e, w, Target, ci.name);
    ServedOnce(e, w, w1, w1.trace[|w.trace|]);
    if LastOk(w1) {
      var w2 := AfterDeleteNF(e, Plain(e, w1, Target, ListApps(ci.name)), Target, ci.name, ci.nfDeployment);
      var w3 := AfterPushApp(e, w2, ci);
      TakenDown(e, ci, w0, w1, files);
      HandOverDone(e, spec, ci, w3, HandedOver(e, ci, w0, files));
      ServedJoin(e, w1, w3, HandOver(e, spec, ci, w3).world);
      ServedJoin(e, w, w1, HandOver(e, spec, ci, w3).world);
    }
  }

  /** From the rewrite on. */
  lemma RewriteAndPushDone(e: Env, spec: Spec, ci: ClusterInfo, w0: World, w: World, c: Checkout)
    requires LawfulEnv(e) && WorldSingle(e.codec, w0)
    requires w.repos == w0.repos && w.clusters == w0.clusters && |w.trace| == |w0.trace| + 3
    requires TargetMatches(e, ci, w0) == Some(c.matches) && c.matches != [] && c.files == w0.repos[ci.repo]
    ensures var r := RewriteAndPush(e, spec, ci, w, c);
            && Extends(w, r.world)
            && (r.outcome == Done <==> TargetReady(e, spec, ci, w0) && Served(e, w, r.world))
  {
    CanRewriteExactly(e, spec, ci, w0);
    var tree := TargetTree(e, spec, ci, w0);
    if tree.status.Success? {
      var w1 := Plain(e, w, Target, ReadSecret);
      ServedOnce(e, w, w1, w1.trace[|w.trace|]);
      if LastOk(w1) {
        var w2 := AfterPush(e, w1, Target, ci.repo, tree.repo);
        ServedOnce(e, w1, w2, w2.trace[|w1.trace|]);
        ServedJoin(e, w, w1, w2);
        if LastOk(w2) {
          TargetTreeSingle(e, spec, ci, w0);
          HandedOverSingle(e, ci, w0, tree.repo);
          DeployDone(e, spec, ci, w0, w2, tree.repo);
          ServedJoin(e, w, w2, Deploy(e, spec, ci, w2).world);
        }
      }
    }
  }

  /** The target handler returns nil exactly when its repository decodes, and either nothing in it matches, or the
      rewrite panics nowhere and has an effect, both clusters are known, and the dependents are ready in the state that
      the two pushes leave; and every essential call of the run is served, whatever the fate of its other calls. */
  lemma TargetDoneExactly(e: Env, spec: Spec, ci: ClusterInfo, w: World)
    requires LawfulEnv(e) && WorldSingle(e.codec, w)
    ensures var r := HandleTarget(e, spec, ci, w);
            var found := TargetMatches(e, ci, w);
            r.outcome == Done <==>
            && found.Some? && (found.value != [] ==> TargetReady(e, spec, ci, w))
            && Served(e, w, r.world)
  {
    var w1 := Plain(e, w, Target, GetUser);
    ServedOnce(e, w, w1, w1.trace[|w.trace|]);
    if LastOk(w1) {
      var w2 := Plain(e, w1, Target, ListRepos);
      var c := CheckRepo(e, w2, ci.repo, ci.nfDeployment);
      var w3 := AfterCheck(w2, Target, ci.repo, c);
      ServedOnce(e, w1, w2, w2.trace[|w1.trace|]);
      ServedOnce(e, w2, w3, w3.trace[|w2.trace|]);
      ServedJoin(e, w, w1, w2);
      ServedJoin(e, w, w2, w3);
      if c.Some? && c.value.matches != [] {
        RewriteAndPushDone(e, spec, ci, w, w3, c.value);
        ServedJoin(e, w, w3, HandleTarget(e, spec, ci, w).world);
      }
    }
  }
}
