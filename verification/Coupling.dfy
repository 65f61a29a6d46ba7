/** After a run that matched its target and returned nil, the target's manifests and the dependents' configurations
    hold the same addresses. */
module Coupling {
  import opened Documents
  import opened Rewrites
  import opened Files
  import opened Repos
  import opened Api
  import opened Settling
  import opened Workflow
  import Safety

  // --- Agreement of one document with the new addresses ---

  predicate IPv4Agrees(ipv4: Value, info: IPInfo) {
    && (info.address != "" ==> ipv4.Get("address") == Str(info.address))
    && (info.gateway != "" ==> ipv4.Get("gateway") == Str(info.gateway))
  }

  /** Every interface with a name in the map and an ipv4 map has the new non-empty fields. */
  predicate ListAgrees(items: seq<Value>, ips: NewIPs) {
    forall i :: 0 <= i < |items| && Addressed(items[i], ips) ==>
      IPv4Agrees(items[i].Get("ipv4"), ips[items[i].Get("name").text])
  }

  /** Whether a document is read as an NFDeployment or as a Config that embeds one. */
  datatype Role = AsNF | AsConfig

  function InterfacesOf(role: Role, doc: Value): Value {
    if role.AsNF? then doc.Get("spec").Get("interfaces") else EmbeddedInterfaces(doc)
  }

  predicate DocAgrees(role: Role, doc: Value, ips: NewIPs) {
    InterfacesOf(role, doc).List? ==> ListAgrees(InterfacesOf(role, doc).items, ips)
  }

  predicate FileAgrees(c: Codec, role: Role, bytes: string, ips: NewIPs) {
    FirstDoc(c, bytes).Some? ==> DocAgrees(role, FirstDoc(c, bytes).value, ips)
  }

  /** Every manifest of the repository that carries the name agrees. */
  ghost predicate RepoAgrees(c: Codec, repo: Repo, role: Role, id: ObjectName, ips: NewIPs) {
    forall p :: p in repo && Matching(c, repo, p, id) > 0 ==> FileAgrees(c, role, repo[p], ips)
  }

  lemma RewriteAllAgrees(items: seq<Value>, ips: NewIPs)
    ensures ListAgrees(RewriteAll(items, ips), ips)
  {
    forall i | 0 <= i < |items| && Addressed(RewriteAll(items, ips)[i], ips)
      ensures IPv4Agrees(RewriteAll(items, ips)[i].Get("ipv4"), ips[RewriteAll(items, ips)[i].Get("name").text])
    {
      RewriteIfaceAgrees(items[i], ips);
    }
  }

  lemma RewriteIfaceAgrees(iface: Value, ips: NewIPs)
    ensures var iface' := RewriteIface(iface, ips);
            Addressed(iface', ips) ==> IPv4Agrees(iface'.Get("ipv4"), ips[iface'.Get("name").text])
  {
    if Addressed(iface, ips) {
      var info := ips[iface.Get("name").text];
      var ipv4 := iface.Get("ipv4");
      assert RewriteIface(iface, ips).Get("name") == iface.Get("name");
      assert RewriteIface(iface, ips).Get("ipv4") == RewriteIPv4(ipv4, info);
      assert RewriteIPv4(ipv4, info).Get("address") == SetNonEmpty(ipv4, "address", info.address).Get("address");
    }
  }

  lemma NFUpdateAgrees(c: Codec, bytes: string, ips: NewIPs)
    requires Lawful(c) && EditFile(c, UpdateNF(ips), bytes).Ok()
    ensures FileAgrees(c, AsNF, After(bytes, EditFile(c, UpdateNF(ips), bytes)), ips)
  {
    var doc := FirstDoc(c, bytes).value;
    EditNFShape(doc, ips);
    if EditFile(c, UpdateNF(ips), bytes).Rewritten? {
      OnlyFirstDocumentSurvives(c, UpdateNF(ips), bytes);
      RewriteAllAgrees(doc.Get("spec").Get("interfaces").items, ips);
    }
  }

  lemma ConfigUpdateAgrees(c: Codec, bytes: string, ips: NewIPs)
    requires Lawful(c) && EditFile(c, UpdateConfig(ips), bytes).Ok()
    ensures FileAgrees(c, AsConfig, After(bytes, EditFile(c, UpdateConfig(ips), bytes)), ips)
  {
    var doc := FirstDoc(c, bytes).value;
    EditConfigShape(doc, ips);
    if EditFile(c, UpdateConfig(ips), bytes).Rewritten? {
      OnlyFirstDocumentSurvives(c, UpdateConfig(ips), bytes);
      var items := EmbeddedInterfaces(doc).items;
      RewriteAllAgrees(items, ips);
      PutEmbeddedTwice(doc, RewriteAll(items, ips), items);
    }
  }

  /** A Config update keeps agreement in either role. */
  lemma ConfigUpdateKeeps(c: Codec, role: Role, bytes: string, ips: NewIPs)
    requires Lawful(c) && FileAgrees(c, role, bytes, ips)
    ensures FileAgrees(c, role, After(bytes, EditFile(c, UpdateConfig(ips), bytes)), ips)
  {
    if EditFile(c, UpdateConfig(ips), bytes).Rewritten? {
      if role.AsConfig? {
        ConfigUpdateAgrees(c, bytes, ips);
      } else {
        OnlyFirstDocumentSurvives(c, UpdateConfig(ips), bytes);
        var doc := FirstDoc(c, bytes).value;
        assert EditConfig(doc, ips).doc.Get("spec").Get("interfaces") == doc.Get("spec").Get("interfaces");
      }
    }
  }

  // --- Whole repositories ---

  lemma MatchingSame(c: Codec, ips: NewIPs, repo: Repo, ms: seq<string>, p: string, id: ObjectName)
    requires Lawful(c) && AllSingle(c, repo) && p in repo
    ensures var repo' := UpdateAll(c, UpdateConfig(ips), repo, ms);
            && Matching(c, repo', p, id) == Matching(c, repo, p, id)
            && (YamlPath(p) ==> Single(c, repo'[p]))
  {
    if YamlPath(p) {
      EditKeepsScan(c, UpdateConfig(ips), repo[p], id);
    }
  }

  lemma DependentPushKeeps(c: Codec, repo: Repo, ips: NewIPs, ms: seq<string>, role: Role, id: ObjectName)
    requires Lawful(c) && AllSingle(c, repo)
    requires RepoAgrees(c, repo, role, id, ips)
    ensures RepoAgrees(c, UpdateAll(c, UpdateConfig(ips), repo, ms), role, id, ips)
  {
    var repo' := UpdateAll(c, UpdateConfig(ips), repo, ms);
    forall p | p in repo' && Matching(c, repo', p, id) > 0
      ensures FileAgrees(c, role, repo'[p], ips)
    {
      MatchingSame(c, ips, repo, ms, p, id);
      ConfigUpdateKeeps(c, role, repo[p], ips);
    }
  }

  lemma DependentPushAgrees(c: Codec, repo: Repo, paths: seq<string>, ips: NewIPs, ms: seq<string>, id: ObjectName)
    requires Lawful(c) && AllSingle(c, repo) && Enumerates(paths, repo.Keys)
    requires Scan(c, repo, paths, id) == Some(ms) && AllOk(c, UpdateConfig(ips), repo, ms)
    ensures RepoAgrees(c, UpdateAll(c, UpdateConfig(ips), repo, ms), AsConfig, id, ips)
    ensures AllSingle(c, UpdateAll(c, UpdateConfig(ips), repo, ms))
  {
    var repo' := UpdateAll(c, UpdateConfig(ips), repo, ms);
    forall p | p in repo'
      ensures Matching(c, repo', p, id) > 0 ==> FileAgrees(c, AsConfig, repo'[p], ips)
      ensures YamlPath(p) ==> Single(c, repo'[p])
    {
      MatchingSame(c, ips, repo, ms, p, id);
      if Matching(c, repo', p, id) > 0 {
        ScanCount(c, repo, paths, id, p);
        assert p in ms;
        ConfigUpdateAgrees(c, repo[p], ips);
      }
    }
  }

  lemma TargetPushAgrees(c: Codec, ifaces: seq<NFInterface>, repo: Repo, paths: seq<string>, found: seq<string>,
                         id: ObjectName)
    requires Lawful(c) && AllSingle(c, repo) && Enumerates(paths, repo.Keys)
    requires Scan(c, repo, paths, id) == Some(found)
    requires RewriteTarget(c, ifaces, repo, paths, found).status.Success?
    ensures var repo' := RewriteTarget(c, ifaces, repo, paths, found).repo;
            && NewIPsOf(ifaces).Some?
            && AllSingle(c, repo')
            && RepoAgrees(c, repo', AsNF, id, NewIPsOf(ifaces).value)
  {
    var ips := NewIPsOf(ifaces).value;
    var mid := WalkNads(c, ifaces, repo, paths).repo;
    TargetSettles(c, ifaces, id, repo, paths, found);
    FoldMeaning(c, UpdateNF(ips), mid, found);
    var repo' := RewriteTarget(c, ifaces, repo, paths, found).repo;
    forall p | p in repo' && Matching(c, repo', p, id) > 0
      ensures FileAgrees(c, AsNF, repo'[p], ips)
    {
      ScanCount(c, repo', paths, id, p);
      assert p in found;
      NFUpdateAgrees(c, mid[p], ips);
    }
  }

  lemma AppAgrees(c: Codec, repo: Repo, path: string, ci: ClusterInfo, role: Role, id: ObjectName, ips: NewIPs)
    requires Lawful(c) && path !in repo
    requires AllSingle(c, repo) && RepoAgrees(c, repo, role, id, ips)
    ensures var repo' := repo[path := c.yamlEncode(AppDoc(ci))];
            AllSingle(c, repo') && RepoAgrees(c, repo', role, id, ips)
  {
    var repo' := repo[path := c.yamlEncode(AppDoc(ci))];
    assert c.yamlDecode(repo'[path]) == Stream([AppDoc(ci)], false);
    assert !InterfacesOf(role, AppDoc(ci)).List?;
    forall p | p in repo' && Matching(c, repo', p, id) > 0
      ensures FileAgrees(c, role, repo'[p], ips)
    {
      if p != path {
        assert Matching(c, repo', p, id) == Matching(c, repo, p, id);
      }
    }
  }

  // --- The whole world ---

  ghost predicate WorldSingle(c: Codec, w: World) {
    forall url :: url in w.repos ==> AllSingle(c, w.repos[url])
  }

  ghost predicate DependentAgrees(c: Codec, spec: Spec, w: World, j: nat, ips: NewIPs)
    requires j < |spec.clusterInfo|
  {
    var dep := spec.clusterInfo[j];
    dep.configRef != NO_CONFIG ==>
      dep.repo in w.repos && RepoAgrees(c, w.repos[dep.repo], AsConfig, dep.configRef.id, ips)
  }

  /** The target repository and those of the first `i` entries agree with the new addresses. */
  ghost predicate Coupled(c: Codec, spec: Spec, ci: ClusterInfo, ips: NewIPs, i: nat, w: World)
    requires i <= |spec.clusterInfo|
  {
    && WorldSingle(c, w)
    && ci.repo in w.repos && RepoAgrees(c, w.repos[ci.repo], AsNF, ci.nfDeployment, ips)
    && forall j :: 0 <= j < i ==> DependentAgrees(c, spec, w, j, ips)
  }

  /** A dependent's push on top of what its clone found. */
  lemma PushKeepsCoupled(e: Env, spec: Spec, ci: ClusterInfo, ips: NewIPs, i: nat, w: World, w': World, ms: seq<string>)
    requires LawfulEnv(e) && i < |spec.clusterInfo|
    requires Coupled(e.codec, spec, ci, ips, i, w)
    requires var dep := spec.clusterInfo[i];
             && dep.repo in w.repos
             && Scan(e.codec, w.repos[dep.repo], e.walk(w.repos[dep.repo].Keys), dep.configRef.id) == Some(ms)
             && AllOk(e.codec, UpdateConfig(ips), w.repos[dep.repo], ms)
             && w'.repos == w.repos[dep.repo := UpdateAll(e.codec, UpdateConfig(ips), w.repos[dep.repo], ms)]
    ensures Coupled(e.codec, spec, ci, ips, i + 1, w')
  {
    var c := e.codec;
    var dep := spec.clusterInfo[i];
    var repo := w.repos[dep.repo];
    assert Enumerates(e.walk(repo.Keys), repo.Keys);
    DependentPushAgrees(c, repo, e.walk(repo.Keys), ips, ms, dep.configRef.id);
    if ci.repo == dep.repo {
      DependentPushKeeps(c, repo, ips, ms, AsNF, ci.nfDeployment);
    }
    forall j | 0 <= j < i + 1
      ensures DependentAgrees(c, spec, w', j, ips)
    {
      if j < i {
        assert DependentAgrees(c, spec, w, j, ips);
        var other := spec.clusterInfo[j];
        if other.configRef != NO_CONFIG && other.repo == dep.repo {
          DependentPushKeeps(c, repo, ips, ms, AsConfig, other.configRef.id);
        }
      }
    }
  }

  /** Calls that touch no repository. */
  lemma SameReposCoupled(c: Codec, spec: Spec, ci: ClusterInfo, ips: NewIPs, i: nat, w: World, w': World)
    requires i <= |spec.clusterInfo| && w'.repos == w.repos
    requires Coupled(c, spec, ci, ips, i, w)
    ensures Coupled(c, spec, ci, ips, i, w')
  {
    forall j | 0 <= j < i
      ensures DependentAgrees(c, spec, w', j, ips)
    {
      assert DependentAgrees(c, spec, w, j, ips);
    }
  }

  /** Without a match there is nothing to agree. */
  lemma NoMatchAgrees(e: Env, spec: Spec, i: nat, w: World, ips: NewIPs)
    requires LawfulEnv(e) && i < |spec.clusterInfo|
    requires var dep := spec.clusterInfo[i];
             dep.repo in w.repos &&
             Scan(e.codec, w.repos[dep.repo], e.walk(w.repos[dep.repo].Keys), dep.configRef.id) == Some([])
    ensures DependentAgrees(e.codec, spec, w, i, ips)
  {
    var dep := spec.clusterInfo[i];
    var repo := w.repos[dep.repo];
    var paths := e.walk(repo.Keys);
    assert Enumerates(paths, repo.Keys);
    forall p | p in repo
      ensures Matching(e.codec, repo, p, dep.configRef.id) == 0
    {
      ScanCount(e.codec, repo, paths, dep.configRef.id, p);
    }
  }

  lemma FinishKeepsRepos(e: Env, ci: ClusterInfo, i: nat, w: World, apps: Apps)
    ensures FinishEntry(e, ci, i, w, apps).world.repos == w.repos
  {
  }

  lemma EntryKeepsCoupled(e: Env, spec: Spec, ci: ClusterInfo, ips: NewIPs, i: nat, w: World, apps: Apps)
    requires LawfulEnv(e) && i < |spec.clusterInfo| && NewIPsOf(spec.interfaces) == Some(ips)
    requires Coupled(e.codec, spec, ci, ips, i, w)
    requires Entry(e, spec, i, w, apps).outcome == Done
    ensures Coupled(e.codec, spec, ci, ips, i + 1, Entry(e, spec, i, w, apps).world)
  {
    var dep := spec.clusterInfo[i];
    if dep.configRef == NO_CONFIG {
      assert DependentAgrees(e.codec, spec, w, i, ips);
    } else {
      var c := CheckRepo(e, w, dep.repo, dep.configRef.id);
      var w1 := AfterCheck(w, Dependent(i), dep.repo, c);
      if c.value.matches == [] {
        SameReposCoupled(e.codec, spec, ci, ips, i, w, w1);
        NoMatchAgrees(e, spec, i, w1, ips);
      } else {
        var u := UpdateConfig(ips);
        var tree := Fold(e.codec, u, c.value.files, c.value.matches);
        FoldMeaning(e.codec, u, c.value.files, c.value.matches);
        var w2 := Plain(e, w1, Dependent(i), ReadSecret);
        var w3 := AfterPush(e, w2, Dependent(i), dep.repo, tree.repo);
        PushKeepsCoupled(e, spec, ci, ips, i, w, w3, c.value.matches);
        FinishKeepsRepos(e, dep, i, w3, apps);
        SameReposCoupled(e.codec, spec, ci, ips, i + 1, w3, Entry(e, spec, i, w, apps).world);
      }
    }
  }

  lemma {:induction false} EntriesKeepCoupled(e: Env, spec: Spec, ci: ClusterInfo, ips: NewIPs, i: nat, w: World,
                                              apps: Apps)
    requires LawfulEnv(e) && i <= |spec.clusterInfo| && NewIPsOf(spec.interfaces) == Some(ips)
    requires Coupled(e.codec, spec, ci, ips, i, w)
    requires Entries(e, spec, i, w, apps).outcome == Done
    ensures Coupled(e.codec, spec, ci, ips, |spec.clusterInfo|, Entries(e, spec, i, w, apps).world)
    decreases |spec.clusterInfo| - i
  {
    if i == |spec.clusterInfo| {
    } else {
      EntryKeepsCoupled(e, spec, ci, ips, i, w, apps);
      var p := Entry(e, spec, i, w, apps);
      EntriesKeepCoupled(e, spec, ci, ips, i + 1, p.world, p.apps);
    }
  }

  lemma {:induction false} SyncKeepsRepos(e: Env, keys: seq<string>, apps: Apps, w: World)
    requires forall k :: k in keys ==> k in apps
    ensures SyncApps(e, keys, apps, w).repos == w.repos
    decreases |keys|
  {
    if keys == [] {
    } else {
      var act := SyncApp(apps[keys[0]].name, apps[keys[0]].client);
      SyncKeepsRepos(e, keys[1..], apps, Plain(e, Plain(e, w, Sync, act), Sync, act));
    }
  }

  lemma DependentsCouple(e: Env, spec: Spec, ci: ClusterInfo, ips: NewIPs, w: World)
    requires LawfulEnv(e) && NewIPsOf(spec.interfaces) == Some(ips)
    requires Coupled(e.codec, spec, ci, ips, 0, w)
    requires HandleDependents(e, spec, w).outcome == Done
    ensures Coupled(e.codec, spec, ci, ips, |spec.clusterInfo|, HandleDependents(e, spec, w).world)
  {
    var w2 := Plain(e, Plain(e, w, DependentStart, GetUser), DependentStart, ListRepos);
    SameReposCoupled(e.codec, spec, ci, ips, 0, w, w2);
    EntriesKeepCoupled(e, spec, ci, ips, 0, w2, map[]);
    var p := Entries(e, spec, 0, w2, map[]);
    SyncKeepsRepos(e, Order(e, p.world, p.apps), p.apps, p.world);
    SameReposCoupled(e.codec, spec, ci, ips, |spec.clusterInfo|, p.world, HandleDependents(e, spec, w).world);
  }

  lemma PushAppKeepsCoupled(e: Env, spec: Spec, ci: ClusterInfo, ips: NewIPs, w: World)
    requires LawfulEnv(e)
    requires Coupled(e.codec, spec, ci, ips, 0, w)
    ensures Coupled(e.codec, spec, ci, ips, 0, AfterPushApp(e, w, ci))
  {
    var url := e.repoUrl(ci.targetCluster.name);
    var path := e.appPath(|w.trace|);
    if url in w.repos && path !in w.repos[url] {
      AppSingle(e.codec, w.repos[url], path, ci);
      if url == ci.repo {
        AppAgrees(e.codec, w.repos[url], path, ci, AsNF, ci.nfDeployment, ips);
      }
    }
  }

  lemma AppSingle(c: Codec, repo: Repo, path: string, ci: ClusterInfo)
    requires Lawful(c) && AllSingle(c, repo)
    ensures AllSingle(c, repo[path := c.yamlEncode(AppDoc(ci))])
  {
    assert c.yamlDecode(c.yamlEncode(AppDoc(ci))) == Stream([AppDoc(ci)], false);
  }

  lemma DeployCouples(e: Env, spec: Spec, ci: ClusterInfo, ips: NewIPs, w: World)
    requires LawfulEnv(e) && NewIPsOf(spec.interfaces) == Some(ips)
    requires Coupled(e.codec, spec, ci, ips, 0, w)
    requires Deploy(e, spec, ci, w).outcome == Done
    ensures Coupled(e.codec, spec, ci, ips, |spec.clusterInfo|, Deploy(e, spec, ci, w).world)
  {
    var w1 := AfterLookup(e, w, Target, ci.name);
    var w2 := Plain(e, w1, Target, ListApps(ci.name));
    var w3 := AfterDeleteNF(e, w2, Target, ci.name, ci.nfDeployment);
    SameReposCoupled(e.codec, spec, ci, ips, 0, w, w3);
    PushAppKeepsCoupled(e, spec, ci, ips, w3);
    var w4 := AfterPushApp(e, w3, ci);
    var sync := SyncApp(ci.targetCluster.name, |w4.trace|);
    var w5 := Plain(e, AfterLookup(e, w4, Target, ci.targetCluster.name), Target, sync);
    SameReposCoupled(e.codec, spec, ci, ips, 0, w4, w5);
    DependentsCouple(e, spec, ci, ips, w5);
  }

  /** The world between the target's push and its deployment. */
  lemma TargetPushCouples(e: Env, spec: Spec, ci: ClusterInfo, w: World, c: Checkout)
    requires LawfulEnv(e) && WorldSingle(e.codec, w)
    requires ci.repo in w.repos && c.files == w.repos[ci.repo]
    requires Scan(e.codec, c.files, e.walk(c.files.Keys), ci.nfDeployment) == Some(c.matches)
    requires RewriteAndPush(e, spec, ci, w, c).outcome == Done
    ensures NewIPsOf(spec.interfaces).Some?
    ensures Coupled(e.codec, spec, ci, NewIPsOf(spec.interfaces).value, |spec.clusterInfo|,
              RewriteAndPush(e, spec, ci, w, c).world)
  {
    var paths := e.walk(c.files.Keys);
    assert Enumerates(paths, c.files.Keys);
    TargetPushAgrees(e.codec, spec.interfaces, c.files, paths, c.matches, ci.nfDeployment);
    var tree := RewriteTarget(e.codec, spec.interfaces, c.files, paths, c.matches);
    var w2 := AfterPush(e, Plain(e, w, Target, ReadSecret), Target, ci.repo, tree.repo);
    DeployCouples(e, spec, ci, NewIPsOf(spec.interfaces).value, w2);
  }

  /** Coupling consistency. In repositories of single-document manifests, after a run that matched the target and
      returned nil, every manifest that carries the target's name, and every one that carries the name of a dependent
      entry's Config in that entry's repository, agrees with the new addresses: even when several entries share a
      repository, with each other or with the target. */
  lemma CouplingConsistency(e: Env, spec: Spec, ci: ClusterInfo, w: World)
    requires LawfulEnv(e) && WorldSingle(e.codec, w)
    requires HandleTarget(e, spec, ci, w).outcome == Done
    requires Safety.Matched(HandleTarget(e, spec, ci, w).world.trace, |w.trace|, ci)
    ensures NewIPsOf(spec.interfaces).Some?
    ensures Coupled(e.codec, spec, ci, NewIPsOf(spec.interfaces).value, |spec.clusterInfo|,
              HandleTarget(e, spec, ci, w).world)
  {
    var w2 := Plain(e, Plain(e, w, Target, GetUser), Target, ListRepos);
    var c := CheckRepo(e, w2, ci.repo, ci.nfDeployment);
    var w3 := AfterCheck(w2, Target, ci.repo, c);
    if c.value.matches != [] {
      TargetPushCouples(e, spec, ci, w3, c.value);
    }
  }

  /** Read off for one pair of manifests: interfaces of the same name in a target NFDeployment and in a dependent
      Config that both have an ipv4 map have the same address and gateway, wherever the new value is non-empty. */
  lemma SameAddresses(c: Codec, spec: Spec, ci: ClusterInfo, ips: NewIPs, w: World, j: nat, p: string, q: string,
                      a: nat, b: nat)
    requires Coupled(c, spec, ci, ips, |spec.clusterInfo|, w)
    requires j < |spec.clusterInfo| && spec.clusterInfo[j].configRef != NO_CONFIG
    requires spec.clusterInfo[j].repo in w.repos
    requires var repo := w.repos[ci.repo];
             p in repo && Matching(c, repo, p, ci.nfDeployment) > 0 && FirstDoc(c, repo[p]).Some?
    requires var repo := w.repos[spec.clusterInfo[j].repo];
             q in repo && Matching(c, repo, q, spec.clusterInfo[j].configRef.id) > 0 && FirstDoc(c, repo[q]).Some?
    requires var mine := InterfacesOf(AsNF, FirstDoc(c, w.repos[ci.repo][p]).value);
             var theirs := InterfacesOf(AsConfig, FirstDoc(c, w.repos[spec.clusterInfo[j].repo][q]).value);
             && mine.List? && theirs.List? && a < |mine.items| && b < |theirs.items|
             && Addressed(mine.items[a], ips) && Addressed(theirs.items[b], ips)
             && mine.items[a].Get("name") == theirs.items[b].Get("name")
    ensures var mine := InterfacesOf(AsNF, FirstDoc(c, w.repos[ci.repo][p]).value).items[a];
            var theirs := InterfacesOf(AsConfig, FirstDoc(c, w.repos[spec.clusterInfo[j].repo][q]).value).items[b];
            var info := ips[mine.Get("name").text];
            && (info.address != "" ==>
                  mine.Get("ipv4").Get("address") == theirs.Get("ipv4").Get("address") == Str(info.address))
            && (info.gateway != "" ==>
                  mine.Get("ipv4").Get("gateway") == theirs.Get("ipv4").Get("gateway") == Str(info.gateway))
  {
    assert DependentAgrees(c, spec, w, j, ips);
    assert FileAgrees(c, AsNF, w.repos[ci.repo][p], ips);
    assert FileAgrees(c, AsConfig, w.repos[spec.clusterInfo[j].repo][q], ips);
  }
}
