/** The reconfiguration workflow as functions on the outside world: every external call asks an oracle whether it
    succeeds and leaves one event in a trace. The controller's methods are proved against these functions. */
module Workflow {
  import opened Documents
  import opened Files
  import opened Repos
  import opened Api
  import Deletion

  /** How a handler ends: it returns nil, returns an error, or panics. */
  datatype Outcome = Done | Failed | Crashed

  /** Which part of a run a call belongs to; a dependent entry is given by its index in the spec. */
  datatype Phase = Target | DependentStart | Dependent(entry: nat) | Sync

  datatype Act =
    | GetUser
    | ListRepos
    | Clone(repo: string, matches: nat)
    | ReadSecret
    | Push(repo: string)
    | Lookup(cluster: string)
    | ListApps(cluster: string)
    | DeleteNF(cluster: string)
    | DeleteConfig(cluster: string)
    | PushApp(repo: string)
    | SyncApp(cluster: string, client: nat)

  datatype Event = Event(phase: Phase, act: Act, ok: bool)

  /** The outside world: repositories by URL, clusters by name, and what has been asked of it so far. */
  datatype World = World(repos: map<string, Repo>, clusters: map<string, Deletion.Cluster>, trace: seq<Event>)

  /** Everything a run depends on besides its input: the codecs, the order of a directory walk, the fate of the n-th
      external call, the replies of cluster APIs, the timestamped path of a new Argo file, the order in which a map is
      ranged over at a given time, and the URL of a repository known by name. */
  datatype Env = Env(
    codec: Codec,
    walk: set<string> -> seq<string>,
    ok: nat -> bool,
    api: Deletion.Api,
    appPath: nat -> string,
    mapOrder: (nat, set<string>) -> seq<string>,
    repoUrl: string -> string)

  /** A walk is lexical: a new file takes its place among the others and does not move them. */
  ghost predicate Lexical(walk: set<string> -> seq<string>) {
    forall files: set<string>, p {:trigger walk(files + {p})} ::
      p !in files ==> Without(walk(files + {p}), p) == walk(files)
  }

  ghost predicate LawfulEnv(e: Env) {
    && Lawful(e.codec)
    && (forall files: set<string> :: Enumerates(e.walk(files), files))
    && Lexical(e.walk)
    && (forall n: nat, keys: set<string> :: Enumerates(e.mapOrder(n, keys), keys))
  }

  /** The calls whose failure ends a run; that of any other call is only logged. */
  predicate Essential(act: Act) {
    act.GetUser? || act.Clone? || act.ReadSecret? || act.Push? || act.Lookup?
  }

  /** The environment served every essential call between two states of a run. */
  ghost predicate Served(e: Env, w: World, w': World) {
    forall k :: |w.trace| <= k < |w'.trace| && Essential(w'.trace[k].act) ==> e.ok(k)
  }

  // --- External calls ---

  function Asked(e: Env, w: World): bool {
    e.ok(|w.trace|)
  }

  function Record(w: World, phase: Phase, act: Act, ok: bool): World {
    w.(trace := w.trace + [Event(phase, act, ok)])
  }

  /** A call whose only effect is its answer. */
  function Plain(e: Env, w: World, phase: Phase, act: Act): World {
    Record(w, phase, act, Asked(e, w))
  }

  function LastOk(w: World): bool {
    w.trace != [] && w.trace[|w.trace| - 1].ok
  }

  datatype Checkout = Checkout(files: Repo, matches: seq<string>)

  /** CheckRepoForMatchingManifests: clone and match. */
  function CheckRepo(e: Env, w: World, repo: string, id: ObjectName): Option<Checkout> {
    if !Asked(e, w) || repo !in w.repos then None
    else match Scan(e.codec, w.repos[repo], e.walk(w.repos[repo].Keys), id)
      case None => None
      case Some(matches) => Some(Checkout(w.repos[repo], matches))
  }

  function AfterCheck(w: World, phase: Phase, repo: string, c: Option<Checkout>): World {
    Record(w, phase, Clone(repo, if c.Some? then |c.value.matches| else 0), c.Some?)
  }

  /** CommitAndPush: a commit of a clean tree is refused; a push replaces the remote contents. */
  function Pushes(e: Env, w: World, repo: string, files: Repo): bool {
    Asked(e, w) && repo in w.repos && files != w.repos[repo]
  }

  function AfterPush(e: Env, w: World, phase: Phase, repo: string, files: Repo): World {
    var ok := Pushes(e, w, repo, files);
    Record(if ok then w.(repos := w.repos[repo := files]) else w, phase, Push(repo), ok)
  }

  /** GetWorkloadClusterClient: no client for an unknown or unready cluster. */
  function AfterLookup(e: Env, w: World, phase: Phase, cluster: string): World {
    Record(w, phase, Lookup(cluster), Asked(e, w) && cluster in w.clusters)
  }

  function AfterDelete(w: World, phase: Phase, act: Act, cluster: string, r: Deletion.Outcome): World {
    Record(w.(clusters := w.clusters[cluster := r.cluster]), phase, act, r.isNil)
  }

  function AfterDeleteNF(e: Env, w: World, phase: Phase, cluster: string, nf: ObjectName): World
    requires cluster in w.clusters
  {
    AfterDelete(w, phase, DeleteNF(cluster), cluster, Deletion.DeleteNF(e.api, cluster, w.clusters[cluster], nf))
  }

  function AfterDeleteConfig(e: Env, w: World, phase: Phase, cluster: string, config: ConfigRef): World
    requires cluster in w.clusters
  {
    AfterDelete(w, phase, DeleteConfig(cluster), cluster,
      Deletion.DeleteConfig(e.api, cluster, w.clusters[cluster], config.id, config.nfDeployment))
  }

  /** The Argo application that is pushed for a target cluster; constant settings are left out. */
  function AppDoc(ci: ClusterInfo): Value {
    Map(map[
      "apiVersion" := Str("argoproj.io/v1alpha1"),
      "kind" := Str("Application"),
      "metadata" := Map(map["name" := Str("argocd-" + ci.name), "namespace" := Str("argocd")]),
      "spec" := Map(map[
        "project" := Str("default"),
        "source" := Map(map["repoURL" := Str(ci.repo), "targetRevision" := Str("HEAD"), "path" := Str(".")])])])
  }

  /** CreateAndPushArgoApp: a new file in the repository that has the target cluster's name. */
  function AfterPushApp(e: Env, w: World, ci: ClusterInfo): World {
    var url := e.repoUrl(ci.targetCluster.name);
    var path := e.appPath(|w.trace|);
    var ok := Asked(e, w) && url in w.repos && path !in w.repos[url];
    Record(
      if ok then w.(repos := w.repos[url := w.repos[url][path := e.codec.yamlEncode(AppDoc(ci))]]) else w,
      Target, PushApp(url), ok)
  }

  // --- The dependent handler ---

  /** One Argo application to sync: its name, and the client, known by the time of its lookup. */
  datatype App = App(name: string, client: nat)

  type Apps = map<string, App>

  datatype Progress = Progress(world: World, apps: Apps, outcome: Outcome)

  function AppKey(name: string): string {
    name + "/argocd"
  }

  function AddApp(apps: Apps, name: string, client: nat): Apps {
    if AppKey(name) in apps then apps else apps[AppKey(name) := App(name, client)]
  }

  /** After the push of one entry: delete, and remember the application. */
  function FinishEntry(e: Env, ci: ClusterInfo, i: nat, w: World, apps: Apps): Progress {
    var ph := Dependent(i);
    var w1 := AfterLookup(e, w, ph, ci.name);
    if !LastOk(w1) then Progress(w1, apps, Crashed)
    else
      var w2 := Plain(e, w1, ph, ListApps(ci.name));
      var w3 := AfterDeleteConfig(e, w2, ph, ci.name, ci.configRef);
      Progress(w3, AddApp(apps, ci.name, |w.trace|), Done)
  }

  /** Commit and push the rewritten clone of one entry. */
  function PublishEntry(e: Env, ci: ClusterInfo, i: nat, w: World, apps: Apps, files: Repo): Progress {
    var w1 := Plain(e, w, Dependent(i), ReadSecret);
    if !LastOk(w1) then Progress(w1, apps, Failed)
    else
      var w2 := AfterPush(e, w1, Dependent(i), ci.repo, files);
      if !LastOk(w2) then Progress(w2, apps, Failed) else FinishEntry(e, ci, i, w2, apps)
  }

  /** One entry whose repository has matches. */
  function RewriteEntry(e: Env, spec: Spec, i: nat, w: World, apps: Apps, c: Checkout): Progress
    requires i < |spec.clusterInfo|
  {
    match NewIPsOf(spec.interfaces)
    case None => Progress(w, apps, Crashed)
    case Some(ips) =>
      var tree := Fold(e.codec, UpdateConfig(ips), c.files, c.matches);
      if !tree.status.Success? then Progress(w, apps, if tree.status.Crash? then Crashed else Failed)
      else PublishEntry(e, spec.clusterInfo[i], i, w, apps, tree.repo)
  }

  function Entry(e: Env, spec: Spec, i: nat, w: World, apps: Apps): Progress
    requires i < |spec.clusterInfo|
  {
    var ci := spec.clusterInfo[i];
    if ci.configRef == NO_CONFIG then Progress(w, apps, Done)
    else
      var c := CheckRepo(e, w, ci.repo, ci.configRef.id);
      var w1 := AfterCheck(w, Dependent(i), ci.repo, c);
      match c
      case None => Progress(w1, apps, Failed)
      case Some(checkout) =>
        if checkout.matches == [] then Progress(w1, apps, Done) else RewriteEntry(e, spec, i, w1, apps, checkout)
  }

  function Entries(e: Env, spec: Spec, i: nat, w: World, apps: Apps): Progress
    requires i <= |spec.clusterInfo|
    decreases |spec.clusterInfo| - i
  {
    if i == |spec.clusterInfo| then Progress(w, apps, Done)
    else
      var p := Entry(e, spec, i, w, apps);
      if p.outcome != Done then p else Entries(e, spec, i + 1, p.world, p.apps)
  }

  /** Two attempts for every application. */
  function SyncApps(e: Env, keys: seq<string>, apps: Apps, w: World): World
    requires forall k :: k in keys ==> k in apps
  {
    if keys == [] then w
    else
      var act := SyncApp(apps[keys[0]].name, apps[keys[0]].client);
      SyncApps(e, keys[1..], apps, Plain(e, Plain(e, w, Sync, act), Sync, act))
  }

  datatype Result = Result(world: World, outcome: Outcome)

  function HandleDependents(e: Env, spec: Spec, w: World): Result {
    var w1 := Plain(e, w, DependentStart, GetUser);
    if !LastOk(w1) then Result(w1, Failed)
    else
      var p := Entries(e, spec, 0, Plain(e, w1, DependentStart, ListRepos), map[]);
      if p.outcome != Done then Result(p.world, p.outcome)
      else Result(SyncApps(e, Order(e, p.world, p.apps), p.apps, p.world), Done)
  }

  /** The order in which the application map is ranged over. */
  function Order(e: Env, w: World, apps: Apps): (keys: seq<string>)
    ensures forall k :: k in keys ==> k in apps
  {
    var keys := e.mapOrder(|w.trace|, apps.Keys);
    if forall k | k in keys :: k in apps then keys else []
  }

  // --- The target handler ---

  /** The target cluster's side: sync there, and turn to the dependents. */
  function HandOver(e: Env, spec: Spec, ci: ClusterInfo, w: World): Result {
    var w1 := AfterLookup(e, w, Target, ci.targetCluster.name);
    if !LastOk(w1) then Result(w1, Crashed)
    else HandleDependents(e, spec, Plain(e, w1, Target, SyncApp(ci.targetCluster.name, |w.trace|)))
  }

  /** After the push: take the function down, hand its repository to Argo CD on the target cluster, and hand over. */
  function Deploy(e: Env, spec: Spec, ci: ClusterInfo, w: World): Result {
    var w1 := AfterLookup(e, w, Target, ci.name);
    if !LastOk(w1) then Result(w1, Crashed)
    else
      var w2 := Plain(e, w1, Target, ListApps(ci.name));
      HandOver(e, spec, ci, AfterPushApp(e, AfterDeleteNF(e, w2, Target, ci.name, ci.nfDeployment), ci))
  }

  /** What the target handler does to its clone once manifests matched: the NAD walk, whose errors are only logged,
      the address map, and the loop over the matches. */
  function RewriteTarget(c: Codec, ifaces: seq<NFInterface>, repo: Repo, paths: seq<string>, found: seq<string>): Tree {
    var walk := WalkNads(c, ifaces, repo, paths);
    if walk.status.Crash? then Tree(walk.repo, Crash)
    else match NewIPsOf(ifaces)
      case None => Tree(walk.repo, Crash)
      case Some(ips) => Fold(c, UpdateNF(ips), walk.repo, found)
  }

  function RewriteAndPush(e: Env, spec: Spec, ci: ClusterInfo, w: World, c: Checkout): Result {
    var tree := RewriteTarget(e.codec, spec.interfaces, c.files, e.walk(c.files.Keys), c.matches);
    if !tree.status.Success? then Result(w, if tree.status.Crash? then Crashed else Failed)
    else
      var w1 := Plain(e, w, Target, ReadSecret);
      if !LastOk(w1) then Result(w1, Failed)
      else
        var w2 := AfterPush(e, w1, Target, ci.repo, tree.repo);
        if !LastOk(w2) then Result(w2, Failed) else Deploy(e, spec, ci, w2)
  }

  function HandleTarget(e: Env, spec: Spec, ci: ClusterInfo, w: World): Result {
    var w1 := Plain(e, w, Target, GetUser);
    if !LastOk(w1) then Result(w1, Failed)
    else
      var w2 := Plain(e, w1, Target, ListRepos);
      var c := CheckRepo(e, w2, ci.repo, ci.nfDeployment);
      var w3 := AfterCheck(w2, Target, ci.repo, c);
      match c
      case None => Result(w3, Failed)
      case Some(checkout) =>
        if checkout.matches == [] then Result(w3, Done) else RewriteAndPush(e, spec, ci, w3, checkout)
  }

  // --- Reconcile ---

  /** The last entry that names an NFDeployment; the zero entry when there is none. */
  function TargetOf(infos: seq<ClusterInfo>): ClusterInfo {
    if infos == [] then NO_CLUSTER
    else
      var last := infos[|infos| - 1];
      if last.nfDeployment != NO_OBJECT then last else TargetOf(infos[..|infos| - 1])
  }

  datatype Fetched = Missing | Unreadable | Found(spec: Spec)

  datatype GiteaClient = InitFailed | NotInitialized | Ready

  /** Errors of the handler are only logged; a client that is not initialised is nil and panics at its first use. */
  function Reconcile(e: Env, fetched: Fetched, gitea: GiteaClient, w: World): Result {
    match (fetched, gitea)
    case (Missing, _) => Result(w, Done)
    case (Unreadable, _) => Result(w, Failed)
    case (Found(_), InitFailed) => Result(w, Done)
    case (Found(_), NotInitialized) => Result(w, Crashed)
    case (Found(spec), Ready) =>
      var r := HandleTarget(e, spec, TargetOf(spec.clusterInfo), w);
      Result(r.world, if r.outcome == Crashed then Crashed else Done)
  }

  predicate NamesNF(ci: ClusterInfo) {
    ci.nfDeployment.name != "" || ci.nfDeployment.namespace != ""
  }

  /** Entry `i` is the last one that names an NFDeployment. */
  ghost predicate LastTarget(infos: seq<ClusterInfo>, i: nat) {
    && i < |infos| && NamesNF(infos[i])
    && forall j :: i < j < |infos| ==> !NamesNF(infos[j])
  }

  lemma {:induction false} LastTargetIsTarget(infos: seq<ClusterInfo>, i: nat)
    requires LastTarget(infos, i)
    ensures TargetOf(infos) == infos[i]
  {
    if i == |infos| - 1 {
    } else {
      LastTargetIsTarget(infos[..|infos| - 1], i);
    }
  }

  lemma {:induction false} NoTarget(infos: seq<ClusterInfo>)
    requires forall i :: 0 <= i < |infos| ==> !NamesNF(infos[i])
    ensures TargetOf(infos) == NO_CLUSTER
  {
    if infos == [] {
    } else {
      NoTarget(infos[..|infos| - 1]);
    }
  }

  lemma SomeTargetIsLast(infos: seq<ClusterInfo>, some: nat) returns (last: nat)
    requires some < |infos| && NamesNF(infos[some])
    ensures LastTarget(infos, last)
  {
    last := some;
    for j := some + 1 to |infos|
      invariant some <= last < j && NamesNF(infos[last])
      invariant forall i :: last < i < j ==> !NamesNF(infos[i])
    {
      if NamesNF(infos[j]) {
        last := j;
      }
    }
  }

  /** The target is the last entry that names an NFDeployment, or the zero entry when there is none. */
  lemma TargetIsLast(infos: seq<ClusterInfo>)
    ensures if exists i :: 0 <= i < |infos| && NamesNF(infos[i])
            then exists i: nat :: LastTarget(infos, i) && infos[i] == TargetOf(infos)
            else TargetOf(infos) == NO_CLUSTER
  {
    if some :| 0 <= some < |infos| && NamesNF(infos[some]) {
      var last := SomeTargetIsLast(infos, some);
      LastTargetIsTarget(infos, last);
    } else {
      NoTarget(infos);
    }
  }
}
