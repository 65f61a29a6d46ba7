/** Which files of which repositories a run may change, and what becomes of them. */
module Touches {
  import opened Documents
  import opened Rewrites
  import opened Files
  import opened Repos
  import opened Api
  import opened Workflow
  import opened Repeats
  import opened Rerun
  import opened Revisits
  import Coupling

  // --- One file ---

  /** Some document of the file has the name. */
  ghost predicate Carries(c: Codec, bytes: string, id: ObjectName) {
    var docs := c.yamlDecode(bytes).docs; exists k :: 0 <= k < |docs| && NamesObject(docs[k], id)
  }

  /** Some document of the file is a definition that an interface names. */
  ghost predicate Asks(c: Codec, ifaces: seq<NFInterface>, bytes: string) {
    var docs := c.yamlDecode(bytes).docs; exists k :: 0 <= k < |docs| && IsAskedFor(ifaces, docs[k])
  }

  ghost predicate OnlySpec(doc: Value, doc': Value) {
    doc'.Map? && forall key :: key != "spec" ==> doc'.Get(key) == doc.Get(key)
  }

  /** The new file holds the first document of the old one, with another `spec`, and nothing else. */
  ghost predicate Respecified(c: Codec, bytes: string, bytes': string) {
    var docs, stream := c.yamlDecode(bytes).docs, c.yamlDecode(bytes');
    docs != [] && |stream.docs| == 1 && !stream.broken && OnlySpec(docs[0], stream.docs[0])
  }

  ghost predicate EntryMay(c: Codec, dep: ClusterInfo, url: string, bytes: string) {
    dep.configRef != NO_CONFIG && url == dep.repo && Carries(c, bytes, dep.configRef.id)
  }

  /** A dependent's Config, or, in the target's repository, its NFDeployment or a definition that is asked for. */
  ghost predicate MayChange(c: Codec, spec: Spec, target: Option<ClusterInfo>, url: string, bytes: string) {
    || (exists j :: 0 <= j < |spec.clusterInfo| && EntryMay(c, spec.clusterInfo[j], url, bytes))
    || (target.Some? && url == target.value.repo
        && (Carries(c, bytes, target.value.nfDeployment) || Asks(c, spec.interfaces, bytes)))
  }

  ghost predicate FileStands(c: Codec, spec: Spec, target: Option<ClusterInfo>, url: string, bytes: string,
                             bytes': string)
  {
    bytes' == bytes || (MayChange(c, spec, target, url, bytes) && Respecified(c, bytes, bytes'))
  }

  lemma EditRespecifies(c: Codec, u: Update, bytes: string)
    requires Lawful(c)
    ensures var e := EditFile(c, u, bytes); e.Rewritten? ==> Respecified(c, bytes, e.bytes)
  {
    if EditFile(c, u, bytes).Rewritten? {
      OnlyFirstDocumentSurvives(c, u, bytes);
      var doc := c.yamlDecode(bytes).docs[0];
      var doc' := EditDoc(c, u, doc).doc;
      assert doc' == doc.With("spec", doc'.Get("spec"));
    }
  }

  /** What a rewritten file carries or asks for, it did before. */
  lemma RespecifiedKeeps(c: Codec, bytes: string, bytes': string)
    requires Respecified(c, bytes, bytes')
    ensures forall id :: Carries(c, bytes', id) ==> Carries(c, bytes, id)
    ensures forall ifaces :: Asks(c, ifaces, bytes') ==> Asks(c, ifaces, bytes)
    ensures forall bytes'' :: Respecified(c, bytes', bytes'') ==> Respecified(c, bytes, bytes'')
  {
    var doc, doc' := c.yamlDecode(bytes).docs[0], c.yamlDecode(bytes').docs[0];
    assert doc'.Get("metadata") == doc.Get("metadata") && doc'.Get("kind") == doc.Get("kind");
  }

  lemma StandsTransitive(c: Codec, spec: Spec, target: Option<ClusterInfo>, url: string, a: string, b: string,
                         d: string)
    requires FileStands(c, spec, target, url, a, b) && FileStands(c, spec, target, url, b, d)
    ensures FileStands(c, spec, target, url, a, d)
  {
    if a != b && b != d {
      RespecifiedKeeps(c, a, b);
    }
  }

  // --- One repository ---

  ghost predicate PathStands(c: Codec, spec: Spec, target: Option<ClusterInfo>, url: string, repo: Repo, repo': Repo,
                             p: string)
  {
    (p in repo' <==> p in repo) && (p in repo ==> FileStands(c, spec, target, url, repo[p], repo'[p]))
  }

  ghost predicate RepoStands(c: Codec, spec: Spec, target: Option<ClusterInfo>, url: string, repo: Repo, repo': Repo) {
    forall p :: PathStands(c, spec, target, url, repo, repo', p)
  }

  /** Updates of files that may be changed. */
  lemma UpdatesStand(c: Codec, spec: Spec, target: Option<ClusterInfo>, url: string, u: Update, repo: Repo,
                     ms: seq<string>)
    requires Lawful(c)
    requires forall p :: p in ms && p in repo ==> MayChange(c, spec, target, url, repo[p])
    ensures RepoStands(c, spec, target, url, repo, UpdateAll(c, u, repo, ms))
  {
    forall p
      ensures PathStands(c, spec, target, url, repo, UpdateAll(c, u, repo, ms), p)
    {
      if p in repo {
        EditRespecifies(c, u, repo[p]);
      }
    }
  }

  lemma MatchesCarry(c: Codec, repo: Repo, paths: seq<string>, id: ObjectName, p: string)
    requires Enumerates(paths, repo.Keys) && Scan(c, repo, paths, id).Some? && p in Scan(c, repo, paths, id).value
    ensures p in repo && Carries(c, repo[p], id)
  {
    ScanMeaning(c, repo, paths, id, p);
    var found := Positions(c.yamlDecode(repo[p]).docs, id);
    assert |found| > 0;
    var k :| k in found;
  }

  lemma {:induction false} AskedByDocuments(c: Codec, ifaces: seq<NFInterface>, docs: seq<Value>)
    requires HostsAsked(ifaces, docs) != []
    ensures exists k :: 0 <= k < |docs| && IsAskedFor(ifaces, docs[k])
    decreases |docs|
  {
    HostsOfMeaning(ifaces, docs[0]);
    if !IsAskedFor(ifaces, docs[0]) {
      AskedByDocuments(c, ifaces, docs[1..]);
      var k :| 0 <= k < |docs[1..]| && IsAskedFor(ifaces, docs[1..][k]);
      assert IsAskedFor(ifaces, docs[k + 1]);
    }
  }

  /** A visit changes a file that asks for it only. */
  lemma VisitStands(c: Codec, ifaces: seq<NFInterface>, bytes: string)
    requires Lawful(c)
    ensures var bytes' := VisitFile(c, ifaces, bytes).bytes;
            bytes' == bytes || (Asks(c, ifaces, bytes) && Respecified(c, bytes, bytes'))
  {
    var stream := c.yamlDecode(bytes);
    var hosts := HostsAsked(ifaces, stream.docs);
    VisitMeaning(c, ifaces, stream.docs, stream.broken, bytes);
    if hosts != [] {
      AskedByDocuments(c, ifaces, stream.docs);
      EditRespecifies(c, UpdateNad(hosts[|hosts| - 1]), bytes);
    }
  }

  lemma WalkStands(c: Codec, spec: Spec, ci: ClusterInfo, repo: Repo, paths: seq<string>)
    requires Lawful(c) && Enumerates(paths, repo.Keys)
    ensures RepoStands(c, spec, Some(ci), ci.repo, repo, WalkNads(c, spec.interfaces, repo, paths).repo)
  {
    WalkMeaning(c, spec.interfaces, repo, paths);
    var repo' := WalkNads(c, spec.interfaces, repo, paths).repo;
    forall p
      ensures PathStands(c, spec, Some(ci), ci.repo, repo, repo', p)
    {
      assert p in repo' <==> p in repo;
      if p in repo {
        assert repo'[p] == repo[p] || repo'[p] == VisitFile(c, spec.interfaces, repo[p]).bytes;
        VisitStands(c, spec.interfaces, repo[p]);
      }
    }
  }

  lemma StandsThrough(c: Codec, spec: Spec, target: Option<ClusterInfo>, url: string, a: Repo, b: Repo, d: Repo)
    requires RepoStands(c, spec, target, url, a, b) && RepoStands(c, spec, target, url, b, d)
    ensures RepoStands(c, spec, target, url, a, d)
  {
    forall p
      ensures PathStands(c, spec, target, url, a, d, p)
    {
      assert PathStands(c, spec, target, url, a, b, p) && PathStands(c, spec, target, url, b, d, p);
      if p in a {
        StandsTransitive(c, spec, target, url, a[p], b[p], d[p]);
      }
    }
  }

  /** A matching file, which the walk may have changed before. */
  lemma MatchStands(c: Codec, spec: Spec, ci: ClusterInfo, u: Update, bytes: string, mid: string)
    requires Lawful(c) && Carries(c, bytes, ci.nfDeployment)
    requires FileStands(c, spec, Some(ci), ci.repo, bytes, mid)
    ensures FileStands(c, spec, Some(ci), ci.repo, bytes, After(mid, EditFile(c, u, mid)))
  {
    EditRespecifies(c, u, mid);
    if mid != bytes {
      RespecifiedKeeps(c, bytes, mid);
    }
  }

  /** What the target phase makes of a clone. */
  lemma RewriteStands(c: Codec, spec: Spec, ci: ClusterInfo, repo: Repo, paths: seq<string>, found: seq<string>)
    requires Lawful(c) && Enumerates(paths, repo.Keys) && Scan(c, repo, paths, ci.nfDeployment) == Some(found)
    requires RewriteTarget(c, spec.interfaces, repo, paths, found).status.Success?
    ensures RepoStands(c, spec, Some(ci), ci.repo, repo, RewriteTarget(c, spec.interfaces, repo, paths, found).repo)
  {
    var mid, u := WalkNads(c, spec.interfaces, repo, paths).repo, UpdateNF(NewIPsOf(spec.interfaces).value);
    WalkStands(c, spec, ci, repo, paths);
    FoldMeaning(c, u, mid, found);
    forall p
      ensures PathStands(c, spec, Some(ci), ci.repo, repo, UpdateAll(c, u, mid, found), p)
    {
      assert PathStands(c, spec, Some(ci), ci.repo, repo, mid, p);
      if p in found {
        MatchesCarry(c, repo, paths, ci.nfDeployment, p);
        MatchStands(c, spec, ci, u, repo[p], mid[p]);
      }
    }
  }

  // --- The whole world ---

  /** No repository comes or goes, and each stands but for files that may be changed. */
  ghost predicate WorldStands(c: Codec, spec: Spec, target: Option<ClusterInfo>, w: World, w': World) {
    forall url :: StandsAt(c, spec, target, w, w', url)
  }

  ghost predicate StandsAt(c: Codec, spec: Spec, target: Option<ClusterInfo>, w: World, w': World, url: string) {
    && (url in w'.repos <==> url in w.repos)
    && (url in w.repos ==> RepoStands(c, spec, target, url, w.repos[url], w'.repos[url]))
  }

  lemma StandsByReposOnly(c: Codec, spec: Spec, target: Option<ClusterInfo>, a: World, a': World, b: World, b': World)
    requires a'.repos == a.repos && b'.repos == b.repos && WorldStands(c, spec, target, a, b)
    ensures WorldStands(c, spec, target, a', b')
  {
    forall url
      ensures StandsAt(c, spec, target, a', b', url)
    {
      assert StandsAt(c, spec, target, a, b, url);
    }
  }

  lemma SameStands(c: Codec, spec: Spec, target: Option<ClusterInfo>, url: string, repo: Repo)
    ensures RepoStands(c, spec, target, url, repo, repo)
  {
  }

  /** One repository may have other contents. */
  lemma OneRepoStands(c: Codec, spec: Spec, target: Option<ClusterInfo>, w: World, w': World, url: string)
    requires w'.repos == w.repos ||
             (url in w.repos && url in w'.repos && w'.repos == w.repos[url := w'.repos[url]] &&
              RepoStands(c, spec, target, url, w.repos[url], w'.repos[url]))
    ensures WorldStands(c, spec, target, w, w')
  {
    forall u
      ensures StandsAt(c, spec, target, w, w', u)
    {
      if u in w.repos && w'.repos[u] == w.repos[u] {
        SameStands(c, spec, target, u, w.repos[u]);
      }
    }
  }

  lemma WorldStandsThrough(c: Codec, spec: Spec, target: Option<ClusterInfo>, a: World, b: World, d: World)
    requires WorldStands(c, spec, target, a, b) && WorldStands(c, spec, target, b, d)
    ensures WorldStands(c, spec, target, a, d)
  {
    forall url
      ensures StandsAt(c, spec, target, a, d, url)
    {
      assert StandsAt(c, spec, target, a, b, url) && StandsAt(c, spec, target, b, d, url);
      if url in a.repos {
        StandsThrough(c, spec, target, url, a.repos[url], b.repos[url], d.repos[url]);
      }
    }
  }

  lemma EntryStands(e: Env, spec: Spec, i: nat, w: World, apps: Apps)
    requires LawfulEnv(e) && i < |spec.clusterInfo|
    ensures WorldStands(e.codec, spec, None, w, Entry(e, spec, i, w, apps).world)
  {
    var w', dep := Entry(e, spec, i, w, apps).world, spec.clusterInfo[i];
    EntryEffect(e, spec, i, w, apps);
    if w'.repos != w.repos {
      var repo, ms := w.repos[dep.repo], MatchesAt(e, dep, w).value;
      assert Enumerates(e.walk(repo.Keys), repo.Keys);
      EntryHasConfig(e, spec, i, w, apps);
      forall p | p in ms
        ensures p in repo && MayChange(e.codec, spec, None, dep.repo, repo[p])
      {
        MatchesCarry(e.codec, repo, e.walk(repo.Keys), dep.configRef.id, p);
        assert EntryMay(e.codec, spec.clusterInfo[i], dep.repo, repo[p]);
      }
      UpdatesStand(e.codec, spec, None, dep.repo, UpdateConfig(NewIPsOf(spec.interfaces).value), repo, ms);
    }
    OneRepoStands(e.codec, spec, None, w, w', dep.repo);
  }

  lemma EntryHasConfig(e: Env, spec: Spec, i: nat, w: World, apps: Apps)
    requires i < |spec.clusterInfo| && Entry(e, spec, i, w, apps).world.repos != w.repos
    ensures spec.clusterInfo[i].configRef != NO_CONFIG
  {
  }

  ghost predicate HasFile(w: World, url: string, path: string, bytes: string) {
    url in w.repos && path in w.repos[url] && w.repos[url][path] == bytes
  }

  /** No dependent has anything to change in an Argo application, even if it goes by the name of its Config. */
  lemma AppUntouched(c: Codec, ips: NewIPs, ci: ClusterInfo)
    requires Lawful(c)
    ensures EditFile(c, UpdateConfig(ips), c.yamlEncode(AppDoc(ci))) == Untouched
  {
    assert c.yamlDecode(c.yamlEncode(AppDoc(ci))) == Stream([AppDoc(ci)], false);
  }

  lemma UpdateKeepsApp(e: Env, dep: ClusterInfo, ips: NewIPs, ms: seq<string>, w: World, w': World, url: string,
                       path: string, ci: ClusterInfo)
    requires LawfulEnv(e) && PushedOnce(e, dep, ips, ms, w, w')
    requires HasFile(w, url, path, e.codec.yamlEncode(AppDoc(ci)))
    ensures HasFile(w', url, path, e.codec.yamlEncode(AppDoc(ci)))
  {
    AppUntouched(e.codec, ips, ci);
  }

  lemma EntryKeepsApp(e: Env, spec: Spec, i: nat, w: World, apps: Apps, url: string, path: string, ci: ClusterInfo)
    requires LawfulEnv(e) && i < |spec.clusterInfo|
    requires HasFile(w, url, path, e.codec.yamlEncode(AppDoc(ci)))
    ensures HasFile(Entry(e, spec, i, w, apps).world, url, path, e.codec.yamlEncode(AppDoc(ci)))
  {
    var w', dep := Entry(e, spec, i, w, apps).world, spec.clusterInfo[i];
    EntryEffect(e, spec, i, w, apps);
    if w'.repos != w.repos {
      UpdateKeepsApp(e, dep, NewIPsOf(spec.interfaces).value, MatchesAt(e, dep, w).value, w, w', url, path, ci);
    }
  }

  lemma DependentsStand(e: Env, spec: Spec, w: World)
    requires LawfulEnv(e)
    ensures WorldStands(e.codec, spec, None, w, HandleDependents(e, spec, w).world)
  {
    var inv := (v: World) => WorldStands(e.codec, spec, None, w, v);
    forall k: nat, v: World, a: Apps | k < |spec.clusterInfo| && inv(v)
      ensures inv(Entry(e, spec, k, v, a).world)
    {
      EntryStands(e, spec, k, v, a);
      WorldStandsThrough(e.codec, spec, None, w, v, Entry(e, spec, k, v, a).world);
    }
    OneRepoStands(e.codec, spec, None, w, w, "");
    forall a: World, b: World | a.repos == b.repos && inv(a)
      ensures inv(b)
    {
      StandsByReposOnly(e.codec, spec, None, w, w, a, b);
    }
    DependentsKeepRepos(e, spec, w, inv);
  }

  /** What depends on the repositories alone, and every entry keeps, the dependent handler keeps. */
  lemma DependentsKeepRepos(e: Env, spec: Spec, w: World, inv: World -> bool)
    requires inv(w) && forall a: World, b: World :: a.repos == b.repos && inv(a) ==> inv(b)
    requires forall k: nat, v: World, a: Apps :: k < |spec.clusterInfo| && inv(v) ==> inv(Entry(e, spec, k, v, a).world)
    ensures inv(HandleDependents(e, spec, w).world)
  {
    var w1 := Plain(e, w, DependentStart, GetUser);
    if LastOk(w1) {
      var w2 := Plain(e, w1, DependentStart, ListRepos);
      assert w2.repos == w.repos;
      EntriesKeep(e, spec, inv, 0, w2, map[]);
      var p := Entries(e, spec, 0, w2, map[]);
      if p.outcome == Done {
        Coupling.SyncKeepsRepos(e, Order(e, p.world, p.apps), p.apps, p.world);
      }
    } else {
      assert w1.repos == w.repos;
    }
  }

  lemma DependentsKeepApp(e: Env, spec: Spec, w: World, url: string, path: string, ci: ClusterInfo)
    requires LawfulEnv(e) && HasFile(w, url, path, e.codec.yamlEncode(AppDoc(ci)))
    ensures HasFile(HandleDependents(e, spec, w).world, url, path, e.codec.yamlEncode(AppDoc(ci)))
  {
    var inv := (v: World) => HasFile(v, url, path, e.codec.yamlEncode(AppDoc(ci)));
    forall k: nat, v: World, a: Apps | k < |spec.clusterInfo| && inv(v)
      ensures inv(Entry(e, spec, k, v, a).world)
    {
      EntryKeepsApp(e, spec, k, v, a, url, path, ci);
    }
    DependentsKeepRepos(e, spec, w, inv);
  }

  // --- The whole run ---

  /** A file that was there still is, and stands but if it may be changed; one that was not is the Argo application. */
  ghost predicate FileOutcome(e: Env, spec: Spec, ci: ClusterInfo, path: string, w: World, w': World, url: string,
                              p: string)
  {
    && (url in w'.repos <==> url in w.repos)
    && (url in w.repos && p in w.repos[url] ==>
          p in w'.repos[url] && FileStands(e.codec, spec, Some(ci), url, w.repos[url][p], w'.repos[url][p]))
    && (url in w.repos && p in w'.repos[url] && p !in w.repos[url] ==>
          url == e.repoUrl(ci.targetCluster.name) && p == path && w'.repos[url][p] == e.codec.yamlEncode(AppDoc(ci)))
  }

  ghost predicate StandsButApp(e: Env, spec: Spec, ci: ClusterInfo, path: string, w: World, w': World) {
    forall url, p :: FileOutcome(e, spec, ci, path, w, w', url, p)
  }

  lemma WithTarget(e: Env, spec: Spec, ci: ClusterInfo, path: string, w: World, w': World)
    requires WorldStands(e.codec, spec, None, w, w')
    ensures StandsButApp(e, spec, ci, path, w, w')
  {
    forall url, p
      ensures FileOutcome(e, spec, ci, path, w, w', url, p)
    {
      assert StandsAt(e.codec, spec, None, w, w', url);
      assert url in w.repos ==> PathStands(e.codec, spec, None, url, w.repos[url], w'.repos[url], p);
    }
  }

  lemma HandOverStands(e: Env, spec: Spec, ci: ClusterInfo, w: World)
    requires LawfulEnv(e)
    ensures WorldStands(e.codec, spec, None, w, HandOver(e, spec, ci, w).world)
    ensures forall url, path :: HasFile(w, url, path, e.codec.yamlEncode(AppDoc(ci))) ==>
              HasFile(HandOver(e, spec, ci, w).world, url, path, e.codec.yamlEncode(AppDoc(ci)))
  {
    var w1 := AfterLookup(e, w, Target, ci.targetCluster.name);
    if LastOk(w1) {
      var w2 := Plain(e, w1, Target, SyncApp(ci.targetCluster.name, |w.trace|));
      DependentsStand(e, spec, w2);
      var w' := HandleDependents(e, spec, w2).world;
      StandsByReposOnly(e.codec, spec, None, w2, w, w', w');
      forall url, path | HasFile(w, url, path, e.codec.yamlEncode(AppDoc(ci)))
        ensures HasFile(HandOver(e, spec, ci, w).world, url, path, e.codec.yamlEncode(AppDoc(ci)))
      {
        DependentsKeepApp(e, spec, w2, url, path, ci);
      }
    } else {
      OneRepoStands(e.codec, spec, None, w, w1, "");
    }
  }

  /** With a new file on top. */
  lemma AppOnTop(e: Env, spec: Spec, ci: ClusterInfo, path: string, w: World, w1: World, w': World)
    requires w1.repos == w.repos || var url := e.repoUrl(ci.targetCluster.name);
             && url in w.repos && path !in w.repos[url]
             && w1.repos == w.repos[url := w.repos[url][path := e.codec.yamlEncode(AppDoc(ci))]]
             && HasFile(w', url, path, e.codec.yamlEncode(AppDoc(ci)))
    requires WorldStands(e.codec, spec, None, w1, w')
    ensures StandsButApp(e, spec, ci, path, w, w')
  {
    if w1.repos == w.repos {
      StandsByReposOnly(e.codec, spec, None, w1, w, w', w');
      WithTarget(e, spec, ci, path, w, w');
    } else {
      var app := e.repoUrl(ci.targetCluster.name);
      assert w1.repos.Keys == w.repos.Keys && w1.repos[app].Keys == w.repos[app].Keys + {path};
      forall url, p
        ensures FileOutcome(e, spec, ci, path, w, w', url, p)
      {
        assert StandsAt(e.codec, spec, None, w1, w', url);
        assert url in w.repos ==> PathStands(e.codec, spec, None, url, w1.repos[url], w'.repos[url], p);
      }
    }
  }

  lemma NothingTouched(e: Env, spec: Spec, ci: ClusterInfo, path: string, w: World, w': World)
    requires w'.repos == w.repos
    ensures StandsButApp(e, spec, ci, path, w, w')
  {
  }

  lemma AppPushed(e: Env, ci: ClusterInfo, w: World)
    ensures var url, path, w' := e.repoUrl(ci.targetCluster.name), e.appPath(|w.trace|), AfterPushApp(e, w, ci);
            || w'.repos == w.repos
            || (url in w.repos && path !in w.repos[url] && HasFile(w', url, path, e.codec.yamlEncode(AppDoc(ci))) &&
                w'.repos == w.repos[url := w.repos[url][path := e.codec.yamlEncode(AppDoc(ci))]])
  {
  }

  /** From the push of the application on. */
  lemma AppStands(e: Env, spec: Spec, ci: ClusterInfo, w: World)
    requires LawfulEnv(e)
    ensures StandsButApp(e, spec, ci, e.appPath(|w.trace|), w, HandOver(e, spec, ci, AfterPushApp(e, w, ci)).world)
  {
    var w1 := AfterPushApp(e, w, ci);
    AppPushed(e, ci, w);
    HandOverStands(e, spec, ci, w1);
    AppOnTop(e, spec, ci, e.appPath(|w.trace|), w, w1, HandOver(e, spec, ci, w1).world);
  }

  lemma StandsByRepos(e: Env, spec: Spec, ci: ClusterInfo, path: string, w: World, w1: World, w': World)
    requires w1.repos == w.repos && StandsButApp(e, spec, ci, path, w1, w')
    ensures StandsButApp(e, spec, ci, path, w, w')
  {
    forall url, p
      ensures FileOutcome(e, spec, ci, path, w, w', url, p)
    {
      assert FileOutcome(e, spec, ci, path, w1, w', url, p);
    }
  }

  lemma DeployStands(e: Env, spec: Spec, ci: ClusterInfo, w: World)
    requires LawfulEnv(e)
    ensures StandsButApp(e, spec, ci, e.appPath(|w.trace| + 3), w, Deploy(e, spec, ci, w).world)
  {
    var path := e.appPath(|w.trace| + 3);
    var w1 := AfterLookup(e, w, Target, ci.name);
    if LastOk(w1) {
      var w2 := AfterDeleteNF(e, Plain(e, w1, Target, ListApps(ci.name)), Target, ci.name, ci.nfDeployment);
      assert |w2.trace| == |w.trace| + 3;
      AppStands(e, spec, ci, w2);
      StandsByRepos(e, spec, ci, path, w, w2, Deploy(e, spec, ci, w).world);
    } else {
      NothingTouched(e, spec, ci, path, w, w1);
    }
  }

  lemma StandsThenApp(e: Env, spec: Spec, ci: ClusterInfo, path: string, w: World, w1: World, w': World)
    requires WorldStands(e.codec, spec, Some(ci), w, w1) && StandsButApp(e, spec, ci, path, w1, w')
    ensures StandsButApp(e, spec, ci, path, w, w')
  {
    forall url, p
      ensures FileOutcome(e, spec, ci, path, w, w', url, p)
    {
      assert FileOutcome(e, spec, ci, path, w1, w', url, p);
      assert StandsAt(e.codec, spec, Some(ci), w, w1, url);
      if url in w.repos {
        assert PathStands(e.codec, spec, Some(ci), url, w.repos[url], w1.repos[url], p);
        if p in w.repos[url] {
          StandsTransitive(e.codec, spec, Some(ci), url, w.repos[url][p], w1.repos[url][p], w'.repos[url][p]);
        }
      }
    }
  }

  /** From the commit on. */
  lemma CommitStands(e: Env, spec: Spec, ci: ClusterInfo, w: World, files: Repo)
    requires LawfulEnv(e) && ci.repo in w.repos
    requires RepoStands(e.codec, spec, Some(ci), ci.repo, w.repos[ci.repo], files)
    ensures var w1 := AfterPush(e, w, Target, ci.repo, files);
            var w' := if LastOk(w1) then Deploy(e, spec, ci, w1).world else w1;
            StandsButApp(e, spec, ci, e.appPath(|w.trace| + 4), w, w')
  {
    var path := e.appPath(|w.trace| + 4);
    var w1 := AfterPush(e, w, Target, ci.repo, files);
    if LastOk(w1) {
      assert |w1.trace| + 3 == |w.trace| + 4;
      DeployStands(e, spec, ci, w1);
      OneRepoStands(e.codec, spec, Some(ci), w, w1, ci.repo);
      StandsThenApp(e, spec, ci, path, w, w1, Deploy(e, spec, ci, w1).world);
    } else {
      NothingTouched(e, spec, ci, path, w, w1);
    }
  }

  lemma PushStands(e: Env, spec: Spec, ci: ClusterInfo, w: World, c: Checkout)
    requires LawfulEnv(e) && ci.repo in w.repos && c.files == w.repos[ci.repo]
    requires Scan(e.codec, c.files, e.walk(c.files.Keys), ci.nfDeployment) == Some(c.matches)
    ensures StandsButApp(e, spec, ci, e.appPath(|w.trace| + 5), w, RewriteAndPush(e, spec, ci, w, c).world)
  {
    var path, w' := e.appPath(|w.trace| + 5), RewriteAndPush(e, spec, ci, w, c).world;
    var tree := RewriteTarget(e.codec, spec.interfaces, c.files, e.walk(c.files.Keys), c.matches);
    var w1 := Plain(e, w, Target, ReadSecret);
    if tree.status.Success? && LastOk(w1) {
      assert Enumerates(e.walk(c.files.Keys), c.files.Keys);
      RewriteStands(e.codec, spec, ci, c.files, e.walk(c.files.Keys), c.matches);
      assert |w1.trace| + 4 == |w.trace| + 5;
      CommitStands(e, spec, ci, w1, tree.repo);
      StandsByRepos(e, spec, ci, path, w, w1, w');
    } else {
      NothingTouched(e, spec, ci, path, w, w');
    }
  }

  /** What a run does to repositories, under any fate of its calls and for any files. Every file stays, and stays as it
      is, but for those that carry the name of a dependent's Config in that dependent's repository, and, in the
      target's, those that carry the name of the NFDeployment or hold a definition that some interface names; such a
      file may be left with its first document alone, changed in its `spec` alone. The Argo application is the only new
      file. */
  lemma RunTouchesOnly(e: Env, spec: Spec, ci: ClusterInfo, w: World)
    requires LawfulEnv(e)
    ensures StandsButApp(e, spec, ci, e.appPath(|w.trace| + 8), w, HandleTarget(e, spec, ci, w).world)
  {
    var path, w' := e.appPath(|w.trace| + 8), HandleTarget(e, spec, ci, w).world;
    var w2 := Plain(e, Plain(e, w, Target, GetUser), Target, ListRepos);
    var c := CheckRepo(e, w2, ci.repo, ci.nfDeployment);
    var w3 := AfterCheck(w2, Target, ci.repo, c);
    if e.ok(|w.trace|) && c.Some? && c.value.matches != [] {
      assert |w3.trace| + 5 == |w.trace| + 8;
      PushStands(e, spec, ci, w3, c.value);
      StandsByRepos(e, spec, ci, path, w, w3, w');
    } else {
      NothingTouched(e, spec, ci, path, w, w');
    }
  }
}
