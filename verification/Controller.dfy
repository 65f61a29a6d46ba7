/** The reconciler: it changes repositories and clusters through external calls, in the order of its source, and is
    proved to do exactly what the workflow functions say. */
module Controller {
  import opened Documents
  import opened Rewrites
  import opened Files
  import opened Repos
  import opened Api
  import opened Worktrees
  import opened Workflow
  import Deletion

  class Reconciler {
    const env: Env
    var repos: map<string, Repo>
    var clusters: map<string, Deletion.Cluster>
    var trace: seq<Event>

    constructor (env: Env, w: World)
      ensures this.env == env && State() == w
    {
      this.env := env;
      repos, clusters, trace := w.repos, w.clusters, w.trace;
    }

    function State(): World
      reads this
    {
      World(repos, clusters, trace)
    }

    // --- External calls ---

    method Call(phase: Phase, act: Act) returns (ok: bool)
      modifies this
      ensures State() == Plain(env, old(State()), phase, act) && ok == LastOk(State())
    {
      ok := env.ok(|trace|);
      trace := trace + [Event(phase, act, ok)];
    }

    /** A clone in a fresh directory, and the matching walk over it. */
    method CheckRepoForMatchingManifests(phase: Phase, repo: string, id: ObjectName)
      returns (tree: Worktree?, matches: seq<string>)
      requires LawfulEnv(env)
      modifies this
      ensures var c := CheckRepo(env, old(State()), repo, id);
              && State() == AfterCheck(old(State()), phase, repo, c)
              && (tree == null <==> c.None?)
              && (tree != null ==> fresh(tree) && tree.files == c.value.files && matches == c.value.matches)
    {
      matches := [];
      if !env.ok(|trace|) || repo !in repos {
        trace := trace + [Event(phase, Clone(repo, 0), false)];
        return null, [];
      }
      tree := new Worktree(repos[repo]);
      var paths := env.walk(tree.files.Keys);
      assert Enumerates(paths, tree.files.Keys);
      var found := tree.FindMatching(env.codec, paths, id);
      if found.None? {
        trace := trace + [Event(phase, Clone(repo, 0), false)];
        return null, [];
      }
      trace := trace + [Event(phase, Clone(repo, |found.value|), true)];
      return tree, found.value;
    }

    /** The commit is refused when the clone is as it was fetched; the push sends the clone's contents. */
    method CommitAndPush(phase: Phase, repo: string, files: Repo) returns (ok: bool)
      modifies this
      ensures State() == AfterPush(env, old(State()), phase, repo, files) && ok == LastOk(State())
      ensures repo !in old(repos) || files == old(repos)[repo] ==> !ok
      ensures ok ==> repo in old(repos) && repos == old(repos)[repo := files]
      ensures !ok ==> repos == old(repos)
      ensures clusters == old(clusters) && trace == old(trace) + [Event(phase, Push(repo), ok)]
    {
      ok := env.ok(|trace|) && repo in repos && files != repos[repo];
      if ok {
        repos := repos[repo := files];
      }
      trace := trace + [Event(phase, Push(repo), ok)];
    }

    /** None stands for the nil client. */
    method GetWorkloadClusterClient(phase: Phase, cluster: string) returns (client: Option<nat>)
      modifies this
      ensures State() == AfterLookup(env, old(State()), phase, cluster)
      ensures client.Some? <==> LastOk(State())
      ensures client.Some? ==> client.value == |old(trace)| && cluster in clusters
    {
      var ok := env.ok(|trace|) && cluster in clusters;
      client := if ok then Some(|trace|) else None;
      trace := trace + [Event(phase, Lookup(cluster), ok)];
    }

    method DeleteNFDeployment(cluster: string, nf: ObjectName)
      requires cluster in clusters
      modifies this
      ensures State() == AfterDeleteNF(env, old(State()), Target, cluster, nf)
    {
      var client := new Deletion.Client(env.api, cluster, clusters[cluster]);
      var isNil := client.DeleteNFDeployment(nf);
      clusters := clusters[cluster := client.cluster];
      trace := trace + [Event(Target, DeleteNF(cluster), isNil)];
    }

    method DeleteConfigRefs(entry: nat, cluster: string, config: ConfigRef)
      requires cluster in clusters
      modifies this
      ensures State() == AfterDeleteConfig(env, old(State()), Dependent(entry), cluster, config)
    {
      var client := new Deletion.Client(env.api, cluster, clusters[cluster]);
      var isNil := client.DeleteConfigRefs(config.id, config.nfDeployment);
      clusters := clusters[cluster := client.cluster];
      trace := trace + [Event(Dependent(entry), DeleteConfig(cluster), isNil)];
    }

    method CreateAndPushArgoApp(ci: ClusterInfo)
      modifies this
      ensures State() == AfterPushApp(env, old(State()), ci)
    {
      var url := env.repoUrl(ci.targetCluster.name);
      var path := env.appPath(|trace|);
      var ok := env.ok(|trace|) && url in repos && path !in repos[url];
      if ok {
        repos := repos[url := repos[url][path := env.codec.yamlEncode(AppDoc(ci))]];
      }
      trace := trace + [Event(Target, PushApp(url), ok)];
    }

    // --- The address maps, written once in each handler ---

    method TargetIPs(ifaces: seq<NFInterface>) returns (r: Option<NewIPs>)
      ensures r == NewIPsOf(ifaces)
    {
      var newIPs: NewIPs := map[];
      for i := 0 to |ifaces|
        invariant NewIPsOf(ifaces[..i]) == Some(newIPs)
      {
        assert ifaces[..i + 1][..i] == ifaces[..i];
        var iface := ifaces[i];
        if iface.ipv4.None? {
          NewIPsMeaning(ifaces);
          return None;
        }
        if iface.ipv4.value.address != "" || iface.ipv4.value.gateway != "" {
          newIPs := newIPs[iface.name := IPInfo(iface.ipv4.value.address, iface.ipv4.value.gateway)];
        }
      }
      assert ifaces[..|ifaces|] == ifaces;
      return Some(newIPs);
    }

    // --- The dependent handler ---

    /** The loop over the matches of one entry, on its clone. */
    method UpdateConfigs(tree: Worktree, matches: seq<string>, ips: NewIPs) returns (st: Status)
      modifies tree
      ensures Tree(tree.files, st) == Fold(env.codec, UpdateConfig(ips), old(tree.files), matches)
    {
      assert matches[0..] == matches;
      for i := 0 to |matches|
        invariant Fold(env.codec, UpdateConfig(ips), old(tree.files), matches) ==
                  Fold(env.codec, UpdateConfig(ips), tree.files, matches[i..])
      {
        assert matches[i..][1..] == matches[i + 1..];
        ghost var before := tree.files;
        st := tree.UpdateInterfaceIPsConfigRefs(env.codec, matches[i], ips);
        if st != Success {
          NotOkKeeps(env.codec, UpdateConfig(ips), matches[i], before, tree.files, st);
          return;
        }
      }
      return Success;
    }

    /** After the push of one entry. */
    method FinishConfigRef(ci: ClusterInfo, i: nat, apps: Apps) returns (apps': Apps, out: Outcome)
      modifies this
      ensures Progress(State(), apps', out) == FinishEntry(env, ci, i, old(State()), apps)
    {
      apps' := apps;
      var client := GetWorkloadClusterClient(Dependent(i), ci.name);
      if client.None? {
        return apps, Crashed;
      }
      var _ := Call(Dependent(i), ListApps(ci.name));
      DeleteConfigRefs(i, ci.name, ci.configRef);
      var key := ci.name + "/argocd";
      if key !in apps {
        apps' := apps[key := App(ci.name, client.value)];
      }
      out := Done;
    }

    method PublishConfigRef(ci: ClusterInfo, i: nat, apps: Apps, files: Repo) returns (apps': Apps, out: Outcome)
      modifies this
      ensures Progress(State(), apps', out) == PublishEntry(env, ci, i, old(State()), apps, files)
    {
      var ok := Call(Dependent(i), ReadSecret);
      if !ok {
        return apps, Failed;
      }
      ok := CommitAndPush(Dependent(i), ci.repo, files);
      if !ok {
        return apps, Failed;
      }
      apps', out := FinishConfigRef(ci, i, apps);
    }

    /** One round of the loop over the cluster entries. */
    method HandleConfigRef(spec: Spec, i: nat, apps: Apps) returns (apps': Apps, out: Outcome)
      requires LawfulEnv(env) && i < |spec.clusterInfo|
      modifies this
      ensures Progress(State(), apps', out) == Entry(env, spec, i, old(State()), apps)
    {
      var ci := spec.clusterInfo[i];
      if ci.configRef == NO_CONFIG {
        return apps, Done;
      }
      var tree, matches := CheckRepoForMatchingManifests(Dependent(i), ci.repo, ci.configRef.id);
      if tree == null {
        return apps, Failed;
      }
      if |matches| == 0 {
        return apps, Done;
      }
      var newIPs := DependentIPs(spec.interfaces);
      if newIPs.None? {
        return apps, Crashed;
      }
      var st := UpdateConfigs(tree, matches, newIPs.value);
      if st != Success {
        return apps, if st == Crash then Crashed else Failed;
      }
      apps', out := PublishConfigRef(ci, i, apps, tree.files);
    }

    method DependentIPs(ifaces: seq<NFInterface>) returns (r: Option<NewIPs>)
      ensures r == NewIPsOf(ifaces)
    {
      var newIPs: NewIPs := map[];
      var i := 0;
      while i < |ifaces|
        invariant 0 <= i <= |ifaces| && NewIPsOf(ifaces[..i]) == Some(newIPs)
      {
        assert ifaces[..i + 1][..i] == ifaces[..i];
        match ifaces[i].ipv4 {
          case None =>
            NewIPsMeaning(ifaces);
            return None;
          case Some(info) =>
            if info.address != "" || info.gateway != "" {
              newIPs := newIPs[ifaces[i].name := info];
            }
        }
        i := i + 1;
      }
      assert ifaces[..|ifaces|] == ifaces;
      return Some(newIPs);
    }

    /** The loop over the remembered applications, each synced twice. */
    method SyncAll(keys: seq<string>, apps: Apps)
      requires forall k :: k in keys ==> k in apps
      modifies this
      ensures State() == SyncApps(env, keys, apps, old(State()))
    {
      assert keys[0..] == keys;
      for j := 0 to |keys|
        invariant SyncApps(env, keys, apps, old(State())) == SyncApps(env, keys[j..], apps, State())
      {
        assert keys[j..][1..] == keys[j + 1..];
        var app := apps[keys[j]];
        ghost var act := SyncApp(app.name, app.client);
        ghost var before := State();
        for attempt := 1 to 3
          invariant State() == if attempt == 1 then before
                               else if attempt == 2 then Plain(env, before, Sync, act)
                               else Plain(env, Plain(env, before, Sync, act), Sync, act)
        {
          var _ := Call(Sync, SyncApp(app.name, app.client));
        }
      }
    }

    method HandleDependentClusterPkgNF(spec: Spec) returns (out: Outcome)
      requires LawfulEnv(env)
      modifies this
      ensures Result(State(), out) == HandleDependents(env, spec, old(State()))
    {
      var ok := Call(DependentStart, GetUser);
      if !ok {
        return Failed;
      }
      var _ := Call(DependentStart, ListRepos);
      var uniqueApps: Apps := map[];
      ghost var start := State();
      for i := 0 to |spec.clusterInfo|
        invariant Entries(env, spec, 0, start, map[]) == Entries(env, spec, i, State(), uniqueApps)
      {
        uniqueApps, out := HandleConfigRef(spec, i, uniqueApps);
        if out != Done {
          return;
        }
      }
      SyncAll(Order(env, State(), uniqueApps), uniqueApps);
      return Done;
    }

    // --- The target handler ---

    method UpdateNFDeployments(tree: Worktree, matches: seq<string>, ips: NewIPs) returns (st: Status)
      modifies tree
      ensures Tree(tree.files, st) == Fold(env.codec, UpdateNF(ips), old(tree.files), matches)
    {
      assert matches[0..] == matches;
      for i := 0 to |matches|
        invariant Fold(env.codec, UpdateNF(ips), old(tree.files), matches) ==
                  Fold(env.codec, UpdateNF(ips), tree.files, matches[i..])
      {
        assert matches[i..][1..] == matches[i + 1..];
        ghost var before := tree.files;
        st := tree.UpdateInterfaceIPsNFDeployment(env.codec, matches[i], ips);
        if st != Success {
          NotOkKeeps(env.codec, UpdateNF(ips), matches[i], before, tree.files, st);
          return;
        }
      }
      return Success;
    }

    /** The NAD walk, whose error is only logged, the address map, and the loop over the matches. */
    method RewriteClone(spec: Spec, tree: Worktree, matches: seq<string>) returns (st: Status)
      modifies tree
      ensures Tree(tree.files, st) ==
              RewriteTarget(env.codec, spec.interfaces, old(tree.files), env.walk(old(tree.files).Keys), matches)
    {
      var filesNads;
      filesNads, st := tree.FindMatchingNADs(env.codec, env.walk(tree.files.Keys), spec.interfaces);
      if st == Crash {
        return;
      }
      var newIPs := TargetIPs(spec.interfaces);
      if newIPs.None? {
        return Crash;
      }
      st := UpdateNFDeployments(tree, matches, newIPs.value);
    }

    method DeployTarget(spec: Spec, ci: ClusterInfo) returns (out: Outcome)
      requires LawfulEnv(env)
      modifies this
      ensures Result(State(), out) == Deploy(env, spec, ci, old(State()))
    {
      var client := GetWorkloadClusterClient(Target, ci.name);
      if client.None? {
        return Crashed;
      }
      var _ := Call(Target, ListApps(ci.name));
      DeleteNFDeployment(ci.name, ci.nfDeployment);
      CreateAndPushArgoApp(ci);
      var targetClient := GetWorkloadClusterClient(Target, ci.targetCluster.name);
      if targetClient.None? {
        return Crashed;
      }
      var _ := Call(Target, SyncApp(ci.targetCluster.name, targetClient.value));
      out := HandleDependentClusterPkgNF(spec);
    }

    method HandleTargetClusterPkgNF(spec: Spec, ci: ClusterInfo) returns (out: Outcome)
      requires LawfulEnv(env)
      modifies this
      ensures Result(State(), out) == HandleTarget(env, spec, ci, old(State()))
    {
      var ok := Call(Target, GetUser);
      if !ok {
        return Failed;
      }
      var _ := Call(Target, ListRepos);
      var tree, matches := CheckRepoForMatchingManifests(Target, ci.repo, ci.nfDeployment);
      if tree == null {
        return Failed;
      }
      if |matches| == 0 {
        return Done;
      }
      var st := RewriteClone(spec, tree, matches);
      if st != Success {
        return if st == Crash then Crashed else Failed;
      }
      ok := Call(Target, ReadSecret);
      if !ok {
        return Failed;
      }
      ok := CommitAndPush(Target, ci.repo, tree.files);
      if !ok {
        return Failed;
      }
      out := DeployTarget(spec, ci);
    }

    // --- Reconcile ---

    /** The loop that overwrites the target with every entry that names an NFDeployment. */
    method FindTarget(infos: seq<ClusterInfo>) returns (target: ClusterInfo)
      ensures target == TargetOf(infos)
    {
      target := NO_CLUSTER;
      for i := 0 to |infos|
        invariant target == TargetOf(infos[..i])
      {
        assert infos[..i + 1][..i] == infos[..i];
        if infos[i].nfDeployment == NO_OBJECT {
          continue;
        }
        target := infos[i];
      }
      assert infos[..|infos|] == infos;
    }

    method ReconcileOnce(fetched: Fetched, gitea: GiteaClient) returns (out: Outcome)
      requires LawfulEnv(env)
      modifies this
      ensures Result(State(), out) == Reconcile(env, fetched, gitea, old(State()))
    {
      match fetched
      case Missing => return Done;
      case Unreadable => return Failed;
      case Found(spec) =>
        if gitea == InitFailed {
          return Done;
        }
        if gitea == NotInitialized {
          return Crashed;
        }
        var target := FindTarget(spec.clusterInfo);
        out := HandleTargetClusterPkgNF(spec, target);
        return if out == Crashed then Crashed else Done;
    }
  }

  lemma NotOkKeeps(c: Codec, u: Update, path: string, before: Repo, after: Repo, st: Status)
    requires FileUpdated(c, u, path, before, after, st) && st != Success
    ensures after == before
    ensures path in before ==> !EditFile(c, u, before[path]).Ok() && st == StatusOf(EditFile(c, u, before[path]))
  {
  }
}
