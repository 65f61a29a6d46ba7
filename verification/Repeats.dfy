/** Dependent entries that find their Config already rewritten: the commit of a clean clone is refused, so the
    dependent handler cannot return nil. */
module Repeats {
  import opened Documents
  import opened Rewrites
  import opened Files
  import opened Repos
  import opened Api
  import opened Settling
  import opened Workflow
  import opened Coupling

  /** The matches that a clone of the entry's repository gives. */
  function MatchesAt(e: Env, dep: ClusterInfo, w: World): Option<seq<string>> {
    if dep.repo !in w.repos then None
    else Scan(e.codec, w.repos[dep.repo], e.walk(w.repos[dep.repo].Keys), dep.configRef.id)
  }

  /** The entry has matches, and rewriting them changes nothing. */
  ghost predicate Rewritten(e: Env, dep: ClusterInfo, found: seq<string>, ips: NewIPs, w: World) {
    && MatchesAt(e, dep, w) == Some(found) && found != []
    && forall p :: p in found ==>
         p in w.repos[dep.repo] && UnchangedBy(e.codec, UpdateConfig(ips), w.repos[dep.repo][p])
  }

  predicate UnchangedBy(c: Codec, u: Update, bytes: string) {
    EditFile(c, u, bytes).Ok() && After(bytes, EditFile(c, u, bytes)) == bytes
  }

  /** What an entry does to the repositories: nothing, or one push of its rewritten matches. */
  ghost predicate PushedOnce(e: Env, dep: ClusterInfo, ips: NewIPs, ms: seq<string>, w: World, w': World) {
    && dep.repo in w.repos && MatchesAt(e, dep, w) == Some(ms)
    && AllOk(e.codec, UpdateConfig(ips), w.repos[dep.repo], ms)
    && UpdateAll(e.codec, UpdateConfig(ips), w.repos[dep.repo], ms) != w.repos[dep.repo]
    && w'.repos == w.repos[dep.repo := UpdateAll(e.codec, UpdateConfig(ips), w.repos[dep.repo], ms)]
  }

  lemma EntryEffect(e: Env, spec: Spec, i: nat, w: World, apps: Apps)
    requires LawfulEnv(e) && i < |spec.clusterInfo|
    ensures var p := Entry(e, spec, i, w, apps);
            var dep := spec.clusterInfo[i];
            var ms := MatchesAt(e, dep, w);
            && (p.world.repos == w.repos ||
                (NewIPsOf(spec.interfaces).Some? && ms.Some? &&
                 PushedOnce(e, dep, NewIPsOf(spec.interfaces).value, ms.value, w, p.world)))
            && (p.outcome == Done && dep.configRef != NO_CONFIG ==>
                  && ms.Some?
                  && (ms.value != [] ==>
                        && NewIPsOf(spec.interfaces).Some?
                        && PushedOnce(e, dep, NewIPsOf(spec.interfaces).value, ms.value, w, p.world)))
  {
    var dep := spec.clusterInfo[i];
    if dep.configRef != NO_CONFIG {
      var c := CheckRepo(e, w, dep.repo, dep.configRef.id);
      var w1 := AfterCheck(w, Dependent(i), dep.repo, c);
      if c.Some? && c.value.matches != [] && NewIPsOf(spec.interfaces).Some? {
        var u := UpdateConfig(NewIPsOf(spec.interfaces).value);
        FoldMeaning(e.codec, u, c.value.files, c.value.matches);
        var tree := Fold(e.codec, u, c.value.files, c.value.matches);
        if tree.status.Success? {
          PublishEffect(e, dep, i, w1, apps, tree.repo);
        }
      }
    }
  }

  lemma PublishEffect(e: Env, dep: ClusterInfo, i: nat, w: World, apps: Apps, files: Repo)
    ensures var p := PublishEntry(e, dep, i, w, apps, files);
            && (p.world.repos == w.repos ||
                (dep.repo in w.repos && files != w.repos[dep.repo] && p.world.repos == w.repos[dep.repo := files]))
            && (p.outcome == Done ==>
                  dep.repo in w.repos && files != w.repos[dep.repo] && p.world.repos == w.repos[dep.repo := files])
  {
    var w2 := AfterPush(e, Plain(e, w, Dependent(i), ReadSecret), Dependent(i), dep.repo, files);
    FinishKeepsRepos(e, dep, i, w2, apps);
  }

  /** A push of some entry keeps single documents, every entry's matches, and what is rewritten already. */
  lemma PushKeeps(e: Env, dep: ClusterInfo, ips: NewIPs, ms: seq<string>, w: World, w': World, other: ClusterInfo)
    requires LawfulEnv(e) && WorldSingle(e.codec, w) && PushedOnce(e, dep, ips, ms, w, w')
    ensures WorldSingle(e.codec, w') && MatchesAt(e, other, w') == MatchesAt(e, other, w)
    ensures forall found :: Rewritten(e, other, found, ips, w) ==> Rewritten(e, other, found, ips, w')
  {
    var c, u, repo := e.codec, UpdateConfig(ips), w.repos[dep.repo];
    var repo' := w'.repos[dep.repo];
    var paths := e.walk(repo.Keys);
    assert Enumerates(paths, repo.Keys) && repo'.Keys == repo.Keys;
    forall p | p in repo && YamlPath(p)
      ensures Single(c, repo'[p])
      ensures ScanFile(c, repo'[p], other.configRef.id) == ScanFile(c, repo[p], other.configRef.id)
    {
      EditKeepsScan(c, u, repo[p], other.configRef.id);
    }
    ScanSame(c, repo, repo', paths, other.configRef.id);
    assert MatchesAt(e, other, w') == MatchesAt(e, other, w);
  }

  /** After its own push an entry's Config is rewritten. */
  lemma PushRewrites(e: Env, dep: ClusterInfo, ips: NewIPs, ms: seq<string>, w: World, w': World)
    requires LawfulEnv(e) && WorldSingle(e.codec, w) && PushedOnce(e, dep, ips, ms, w, w') && ms != []
    ensures Rewritten(e, dep, ms, ips, w')
  {
    PushKeeps(e, dep, ips, ms, w, w', dep);
    forall p | p in ms
      ensures p in w'.repos[dep.repo] && UnchangedBy(e.codec, UpdateConfig(ips), w'.repos[dep.repo][p])
    {
      IdempotentFile(e.codec, UpdateConfig(ips), w.repos[dep.repo][p]);
    }
  }

  /** A rewritten entry does not get past its commit. */
  lemma RewrittenIsRefused(e: Env, spec: Spec, i: nat, w: World, apps: Apps, found: seq<string>)
    requires LawfulEnv(e) && i < |spec.clusterInfo| && spec.clusterInfo[i].configRef != NO_CONFIG
    requires NewIPsOf(spec.interfaces).Some?
    requires Rewritten(e, spec.clusterInfo[i], found, NewIPsOf(spec.interfaces).value, w)
    ensures Entry(e, spec, i, w, apps).outcome != Done
  {
    EntryEffect(e, spec, i, w, apps);
    var repo := w.repos[spec.clusterInfo[i].repo];
    assert UpdateAll(e.codec, UpdateConfig(NewIPsOf(spec.interfaces).value), repo, found) == repo;
  }

  /** From entry `k` on, with a rewritten entry `j` still to come. */
  lemma {:induction false} RewrittenAhead(e: Env, spec: Spec, k: nat, j: nat, w: World, apps: Apps, found: seq<string>)
    requires LawfulEnv(e) && k <= j < |spec.clusterInfo| && spec.clusterInfo[j].configRef != NO_CONFIG
    requires NewIPsOf(spec.interfaces).Some? && WorldSingle(e.codec, w)
    requires Rewritten(e, spec.clusterInfo[j], found, NewIPsOf(spec.interfaces).value, w)
    ensures Entries(e, spec, k, w, apps).outcome != Done
    decreases |spec.clusterInfo| - k
  {
    var ips := NewIPsOf(spec.interfaces).value;
    if k == j {
      RewrittenIsRefused(e, spec, j, w, apps, found);
    } else {
      EntryEffect(e, spec, k, w, apps);
      var p := Entry(e, spec, k, w, apps);
      if p.world.repos != w.repos {
        var dep := spec.clusterInfo[k];
        PushKeeps(e, dep, ips, MatchesAt(e, dep, w).value, w, p.world, spec.clusterInfo[j]);
      }
      if p.outcome == Done {
        RewrittenAhead(e, spec, k + 1, j, p.world, p.apps, found);
      }
    }
  }

  /** From entry `k` on, with two entries for the same Config still to come. */
  lemma {:induction false} TwinsAhead(e: Env, spec: Spec, k: nat, i: nat, j: nat, w: World, apps: Apps,
                                      found: seq<string>)
    requires LawfulEnv(e) && k <= i < j < |spec.clusterInfo| && Twins(spec, i, j)
    requires WorldSingle(e.codec, w)
    requires MatchesAt(e, spec.clusterInfo[i], w) == Some(found) && found != []
    ensures Entries(e, spec, k, w, apps).outcome != Done
    decreases |spec.clusterInfo| - k
  {
    EntryEffect(e, spec, k, w, apps);
    var p := Entry(e, spec, k, w, apps);
    if p.outcome == Done {
      var dep := spec.clusterInfo[k];
      if p.world.repos != w.repos {
        PushKeeps(e, dep, NewIPsOf(spec.interfaces).value, MatchesAt(e, dep, w).value, w, p.world, spec.clusterInfo[i]);
      }
      if k == i {
        PushRewrites(e, dep, NewIPsOf(spec.interfaces).value, found, w, p.world);
        RewrittenAhead(e, spec, k + 1, j, p.world, p.apps, found);
      } else {
        TwinsAhead(e, spec, k + 1, i, j, p.world, p.apps, found);
      }
    }
  }

  predicate Twins(spec: Spec, i: nat, j: nat)
    requires i < |spec.clusterInfo| && j < |spec.clusterInfo|
  {
    && spec.clusterInfo[i].configRef != NO_CONFIG
    && spec.clusterInfo[j].configRef.id == spec.clusterInfo[i].configRef.id
    && spec.clusterInfo[j].configRef != NO_CONFIG
    && spec.clusterInfo[j].repo == spec.clusterInfo[i].repo
  }

  /** Two entries for the same Config in the same repository: when it has a match, the dependent handler never returns
      nil, whatever the fate of its calls, and by SyncPhaseMeaning no dependent cluster is ever synced. */
  lemma TwinEntriesNeverFinish(e: Env, spec: Spec, i: nat, j: nat, w: World)
    requires LawfulEnv(e) && i < j < |spec.clusterInfo| && Twins(spec, i, j)
    requires WorldSingle(e.codec, w)
    requires MatchesAt(e, spec.clusterInfo[i], w).Some? && MatchesAt(e, spec.clusterInfo[i], w).value != []
    ensures HandleDependents(e, spec, w).outcome != Done
  {
    var w2 := Plain(e, Plain(e, w, DependentStart, GetUser), DependentStart, ListRepos);
    TwinsAhead(e, spec, 0, i, j, w2, map[], MatchesAt(e, spec.clusterInfo[i], w).value);
  }
}
