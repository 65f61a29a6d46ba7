/** When dependent clusters are synced, how often, and with which client. */
module SyncPhase {
  import opened Files
  import opened Repos
  import opened Api
  import opened Workflow

  predicate IsSync(ev: Event, name: string) {
    ev.phase == Sync && ev.act.SyncApp? && ev.act.cluster == name
  }

  function SyncCount(t: seq<Event>, name: string): nat {
    if t == [] then 0
    else SyncCount(t[..|t| - 1], name) + if IsSync(t[|t| - 1], name) then 1 else 0
  }

  /** A dependent entry got a client for the cluster. */
  predicate GotClient(ev: Event, name: string) {
    ev.phase.Dependent? && ev.act == Lookup(name) && ev.ok
  }

  ghost predicate FirstClient(t: seq<Event>, base: nat, name: string, k: nat) {
    base <= k < |t| && GotClient(t[k], name) && forall j :: base <= j < k ==> !GotClient(t[j], name)
  }

  predicate IsClone(ev: Event, i: nat) {
    ev.phase == Dependent(i) && ev.act.Clone? && ev.ok
  }

  ghost predicate Processed(t: seq<Event>, base: nat, i: nat) {
    exists k :: base <= k < |t| && IsClone(t[k], i)
  }

  /** The repository of entry `i` had a matching manifest. */
  ghost predicate EntryMatched(t: seq<Event>, base: nat, i: nat) {
    exists k :: base <= k < |t| && IsClone(t[k], i) && t[k].act.matches > 0
  }

  ghost predicate NameMatched(spec: Spec, t: seq<Event>, base: nat, name: string) {
    exists i :: 0 <= i < |spec.clusterInfo| && spec.clusterInfo[i].name == name && EntryMatched(t, base, i)
  }

  ghost predicate NoSyncYet(t: seq<Event>, base: nat) {
    forall k :: base <= k < |t| ==> t[k].phase != Sync
  }

  // --- What one entry adds to the trace ---

  /** The events of an entry with matches, after its clone. */
  predicate Finishes(added: seq<Event>, name: string) {
    && |added| == 3
    && GotClient(added[0], name) && added[1].act.ListApps? && added[2].act.DeleteConfig?
  }

  predicate Rewrites(added: seq<Event>, name: string) {
    |added| == 5 && added[0].act == ReadSecret && added[1].act.Push? && Finishes(added[2..], name)
  }

  predicate AllOf(added: seq<Event>, i: nat) {
    forall k :: 0 <= k < |added| ==> added[k].phase == Dependent(i)
  }

  lemma FinishShape(e: Env, ci: ClusterInfo, i: nat, w: World, apps: Apps) returns (added: seq<Event>)
    ensures var p := FinishEntry(e, ci, i, w, apps);
            && p.world.trace == w.trace + added && AllOf(added, i)
            && (p.outcome == Done ==> Finishes(added, ci.name) && p.apps == AddApp(apps, ci.name, |w.trace|))
  {
    var w1 := AfterLookup(e, w, Dependent(i), ci.name);
    added := [w1.trace[|w.trace|]];
    if LastOk(w1) {
      var w2 := Plain(e, w1, Dependent(i), ListApps(ci.name));
      var w3 := AfterDeleteConfig(e, w2, Dependent(i), ci.name, ci.configRef);
      added := added + [w2.trace[|w1.trace|], w3.trace[|w2.trace|]];
    }
  }

  lemma Extend(t: seq<Event>, added: seq<Event>, more: seq<Event>, i: nat)
    requires AllOf(added, i) && AllOf(more, i)
    ensures t + added + more == t + (added + more) && AllOf(added + more, i)
    ensures (added + more)[|added|..] == more
  {
  }

  lemma PublishShape(e: Env, ci: ClusterInfo, i: nat, w: World, apps: Apps, files: Repo) returns (added: seq<Event>)
    ensures var p := PublishEntry(e, ci, i, w, apps, files);
            && p.world.trace == w.trace + added && AllOf(added, i)
            && (p.outcome == Done ==> Rewrites(added, ci.name) && p.apps == AddApp(apps, ci.name, |w.trace| + 2))
  {
    var w1 := Plain(e, w, Dependent(i), ReadSecret);
    added := [Event(Dependent(i), ReadSecret, Asked(e, w))];
    if LastOk(w1) {
      var push := [Event(Dependent(i), Push(ci.repo), Pushes(e, w1, ci.repo, files))];
      Extend(w.trace, added, push, i);
      added := added + push;
      var w2 := AfterPush(e, w1, Dependent(i), ci.repo, files);
      assert w2.trace == w.trace + added;
      if LastOk(w2) {
        var more := FinishShape(e, ci, i, w2, apps);
        Extend(w.trace, added, more, i);
        added := added + more;
      }
    }
  }

  /** What an entry with matches does after its clone. */
  lemma RewriteShape(e: Env, spec: Spec, i: nat, w: World, apps: Apps, c: Checkout) returns (added: seq<Event>)
    requires i < |spec.clusterInfo|
    ensures var p := RewriteEntry(e, spec, i, w, apps, c);
            var name := spec.clusterInfo[i].name;
            && p.world.trace == w.trace + added && AllOf(added, i)
            && (p.outcome == Done ==> Rewrites(added, name) && p.apps == AddApp(apps, name, |w.trace| + 2))
  {
    added := [];
    if NewIPsOf(spec.interfaces).Some? {
      var tree := Fold(e.codec, UpdateConfig(NewIPsOf(spec.interfaces).value), c.files, c.matches);
      if tree.status.Success? {
        added := PublishShape(e, spec.clusterInfo[i], i, w, apps, tree.repo);
      }
    }
  }

  /** An entry either is no ConfigRef entry, or is cloned without a match, or is cloned, rewritten and finished. */
  ghost predicate EntryAdds(spec: Spec, i: nat, t: seq<Event>, apps: Apps, added: seq<Event>, apps': Apps)
    requires i < |spec.clusterInfo|
  {
    var ci := spec.clusterInfo[i];
    && AllOf(added, i)
    && if ci.configRef == NO_CONFIG then added == [] && apps' == apps
       else
         && added != [] && IsClone(added[0], i)
         && if added[0].act.matches == 0 then |added| == 1 && apps' == apps
            else Rewrites(added[1..], ci.name) && apps' == AddApp(apps, ci.name, |t| + 3)
  }

  lemma EntryShape(e: Env, spec: Spec, i: nat, w: World, apps: Apps) returns (added: seq<Event>)
    requires i < |spec.clusterInfo|
    ensures var p := Entry(e, spec, i, w, apps);
            && p.world.trace == w.trace + added && AllOf(added, i)
            && (p.outcome == Done ==> EntryAdds(spec, i, w.trace, apps, added, p.apps))
  {
    added := [];
    var ci := spec.clusterInfo[i];
    if ci.configRef != NO_CONFIG {
      var c := CheckRepo(e, w, ci.repo, ci.configRef.id);
      var w1 := AfterCheck(w, Dependent(i), ci.repo, c);
      added := [Event(Dependent(i), Clone(ci.repo, if c.Some? then |c.value.matches| else 0), c.Some?)];
      if c.Some? && c.value.matches != [] {
        var more := RewriteShape(e, spec, i, w1, apps, c.value);
        Extend(w.trace, added, more, i);
        added := added + more;
      }
    }
  }

  // --- The invariant over the entries ---

  ghost predicate AppsInv(spec: Spec, base: nat, i: nat, t: seq<Event>, apps: Apps) {
    && base <= |t| && i <= |spec.clusterInfo|
    && NoSyncYet(t, base)
    && (forall j :: 0 <= j < i && spec.clusterInfo[j].configRef != NO_CONFIG ==> Processed(t, base, j))
    && (forall j, k :: i <= j && base <= k < |t| ==> t[k].phase != Dependent(j))
    && (forall key :: key in apps ==>
          && key == AppKey(apps[key].name)
          && FirstClient(t, base, apps[key].name, apps[key].client)
          && NameMatched(spec, t, base, apps[key].name))
    && (forall k, name :: base <= k < |t| && GotClient(t[k], name) ==> AppKey(name) in apps)
    && (forall j :: 0 <= j < i && EntryMatched(t, base, j) ==> AppKey(spec.clusterInfo[j].name) in apps)
  }

  lemma KeyInjective(a: string, b: string)
    requires AppKey(a) == AppKey(b)
    ensures a == b
  {
    assert |a| == |b|;
    assert AppKey(a)[..|a|] == a && AppKey(b)[..|b|] == b;
  }

  lemma ExistsGrows(spec: Spec, base: nat, t: seq<Event>, t': seq<Event>)
    requires base <= |t| <= |t'| && t'[..|t|] == t
    ensures forall j :: Processed(t, base, j) ==> Processed(t', base, j)
    ensures forall j :: EntryMatched(t, base, j) ==> EntryMatched(t', base, j)
    ensures forall name, k :: FirstClient(t, base, name, k) ==> FirstClient(t', base, name, k)
    ensures forall name :: NameMatched(spec, t, base, name) ==> NameMatched(spec, t', base, name)
  {
    assert forall k :: 0 <= k < |t| ==> t'[k] == t[k];
    forall j | Processed(t, base, j)
      ensures Processed(t', base, j)
    {
      var k :| base <= k < |t| && IsClone(t[k], j);
      assert IsClone(t'[k], j);
    }
    forall j | EntryMatched(t, base, j)
      ensures EntryMatched(t', base, j)
    {
      var k :| base <= k < |t| && IsClone(t[k], j) && t[k].act.matches > 0;
      assert IsClone(t'[k], j);
    }
    forall name | NameMatched(spec, t, base, name)
      ensures NameMatched(spec, t', base, name)
    {
      var i :| 0 <= i < |spec.clusterInfo| && spec.clusterInfo[i].name == name && EntryMatched(t, base, i);
      assert EntryMatched(t', base, i);
    }
  }

  /** Other entries match no more by what entry `i` adds. */
  lemma OthersUnmatched(base: nat, t: seq<Event>, added: seq<Event>, i: nat, j: nat)
    requires base <= |t| && j != i && AllOf(added, i)
    requires EntryMatched(t + added, base, j)
    ensures EntryMatched(t, base, j)
  {
    var t' := t + added;
    forall k | |t| <= k < |t'|
      ensures !IsClone(t'[k], j)
    {
      assert t'[k] == added[k - |t|];
    }
    var k :| base <= k < |t'| && IsClone(t'[k], j) && t'[k].act.matches > 0;
    assert IsClone(t[k], j);
  }

  /** Entry `i` matches only by what it adds itself. */
  lemma EntryMatchedAdded(base: nat, t: seq<Event>, added: seq<Event>, i: nat)
    requires base <= |t|
    requires forall k :: base <= k < |t| ==> t[k].phase != Dependent(i)
    requires EntryMatched(t + added, base, i)
    ensures exists k :: 0 <= k < |added| && IsClone(added[k], i) && added[k].act.matches > 0
  {
    var t' := t + added;
    assert forall k :: base <= k < |t| ==> !IsClone(t'[k], i);
    var k :| base <= k < |t'| && IsClone(t'[k], i) && t'[k].act.matches > 0;
    assert IsClone(added[k - |t|], i);
  }

  lemma EntryKeepsInv(e: Env, spec: Spec, base: nat, i: nat, w: World, apps: Apps)
    requires i < |spec.clusterInfo|
    requires AppsInv(spec, base, i, w.trace, apps)
    ensures var p := Entry(e, spec, i, w, apps);
            && base <= |p.world.trace| && NoSyncYet(p.world.trace, base)
            && (p.outcome == Done ==> AppsInv(spec, base, i + 1, p.world.trace, p.apps))
  {
    var p := Entry(e, spec, i, w, apps);
    var added := EntryShape(e, spec, i, w, apps);
    PhasesAfter(base, w.trace, added, i);
    if p.outcome == Done {
      EntryProcessed(spec, base, i, w.trace, apps, added, p.apps);
      AppsStep(spec, base, i, w.trace, apps, added, p.apps);
      ClientsStep(spec, base, i, w.trace, apps, added, p.apps);
      MatchesStep(spec, base, i, w.trace, apps, added, p.apps);
    }
  }

  lemma PhasesAfter(base: nat, t: seq<Event>, added: seq<Event>, i: nat)
    requires base <= |t| && NoSyncYet(t, base) && AllOf(added, i)
    requires forall j, k :: i <= j && base <= k < |t| ==> t[k].phase != Dependent(j)
    ensures NoSyncYet(t + added, base)
    ensures forall j, k :: i + 1 <= j && base <= k < |t + added| ==> (t + added)[k].phase != Dependent(j)
  {
    var t' := t + added;
    forall k | base <= k < |t'|
      ensures t'[k].phase != Sync
      ensures forall j :: i + 1 <= j ==> t'[k].phase != Dependent(j)
    {
      if k >= |t| {
        assert t'[k] == added[k - |t|];
      } else {
        assert t'[k] == t[k];
      }
    }
  }

  lemma EntryProcessed(spec: Spec, base: nat, i: nat, t: seq<Event>, apps: Apps, added: seq<Event>, apps': Apps)
    requires i < |spec.clusterInfo| && AppsInv(spec, base, i, t, apps)
    requires EntryAdds(spec, i, t, apps, added, apps')
    ensures forall j :: 0 <= j < i + 1 && spec.clusterInfo[j].configRef != NO_CONFIG ==> Processed(t + added, base, j)
  {
    assert (t + added)[..|t|] == t;
    ExistsGrows(spec, base, t, t + added);
    if spec.clusterInfo[i].configRef != NO_CONFIG {
      assert IsClone((t + added)[|t|], i);
    }
  }

  lemma OldAppStep(spec: Spec, base: nat, t: seq<Event>, t': seq<Event>, app: App)
    requires base <= |t| <= |t'| && t <= t'
    requires FirstClient(t, base, app.name, app.client) && NameMatched(spec, t, base, app.name)
    ensures FirstClient(t', base, app.name, app.client) && NameMatched(spec, t', base, app.name)
  {
    assert t'[..|t|] == t;
    ExistsGrows(spec, base, t, t');
  }

  lemma NewAppStep(spec: Spec, base: nat, i: nat, t: seq<Event>, apps: Apps, added: seq<Event>, apps': Apps)
    requires i < |spec.clusterInfo| && base <= |t| && apps' != apps
    requires forall k, name :: base <= k < |t| && GotClient(t[k], name) ==> AppKey(name) in apps
    requires EntryAdds(spec, i, t, apps, added, apps')
    ensures var name := spec.clusterInfo[i].name;
            && NameMatched(spec, t + added, base, name)
            && AppKey(name) in apps' && FirstClient(t + added, base, name, apps'[AppKey(name)].client)
  {
    var t' := t + added;
    var name := spec.clusterInfo[i].name;
    assert IsClone(t'[|t|], i);
    assert EntryMatched(t', base, i);
    NewFirstClient(base, t, added, name);
  }

  lemma AppStep(spec: Spec, base: nat, i: nat, t: seq<Event>, apps: Apps, added: seq<Event>, apps': Apps, key: string)
    requires i < |spec.clusterInfo| && AppsInv(spec, base, i, t, apps)
    requires EntryAdds(spec, i, t, apps, added, apps') && key in apps'
    ensures key == AppKey(apps'[key].name)
    ensures FirstClient(t + added, base, apps'[key].name, apps'[key].client)
    ensures NameMatched(spec, t + added, base, apps'[key].name)
  {
    if key in apps {
      OldAppStep(spec, base, t, t + added, apps[key]);
    } else {
      NewAppStep(spec, base, i, t, apps, added, apps');
    }
  }

  lemma AppsStep(spec: Spec, base: nat, i: nat, t: seq<Event>, apps: Apps, added: seq<Event>, apps': Apps)
    requires i < |spec.clusterInfo| && AppsInv(spec, base, i, t, apps)
    requires EntryAdds(spec, i, t, apps, added, apps')
    ensures forall key :: key in apps' ==>
              && key == AppKey(apps'[key].name)
              && FirstClient(t + added, base, apps'[key].name, apps'[key].client)
              && NameMatched(spec, t + added, base, apps'[key].name)
  {
    forall key | key in apps'
      ensures key == AppKey(apps'[key].name)
      ensures FirstClient(t + added, base, apps'[key].name, apps'[key].client)
      ensures NameMatched(spec, t + added, base, apps'[key].name)
    {
      AppStep(spec, base, i, t, apps, added, apps', key);
    }
  }

  lemma NewFirstClient(base: nat, t: seq<Event>, added: seq<Event>, name: string)
    requires base <= |t| && forall k :: base <= k < |t| ==> !GotClient(t[k], name)
    requires added != [] && added[0].act.Clone? && Rewrites(added[1..], name)
    ensures FirstClient(t + added, base, name, |t| + 3)
  {
    var t' := t + added;
    assert added[1..][2..][0] == added[3];
    assert t'[|t|] == added[0] && t'[|t| + 1] == added[1..][0];
    assert t'[|t| + 2] == added[1..][1] && t'[|t| + 3] == added[3];
    assert forall k :: base <= k < |t| ==> t'[k] == t[k];
  }

  lemma ClientsStep(spec: Spec, base: nat, i: nat, t: seq<Event>, apps: Apps, added: seq<Event>, apps': Apps)
    requires i < |spec.clusterInfo| && AppsInv(spec, base, i, t, apps)
    requires EntryAdds(spec, i, t, apps, added, apps')
    ensures forall k, n :: base <= k < |t + added| && GotClient((t + added)[k], n) ==> AppKey(n) in apps'
  {
    var t' := t + added;
    forall k, n | base <= k < |t'| && GotClient(t'[k], n)
      ensures AppKey(n) in apps'
    {
      if k < |t| {
        assert GotClient(t[k], n);
      } else {
        assert GotClient(added[k - |t|], n);
        OneClient(added, k - |t|, n, spec.clusterInfo[i].name);
      }
    }
  }

  lemma OneClient(added: seq<Event>, k: nat, n: string, name: string)
    requires k < |added| && GotClient(added[k], n) && added[0].act.Clone?
    requires |added| == 1 || Rewrites(added[1..], name)
    ensures |added| > 1 && n == name
  {
    if |added| > 1 {
      var tail := added[1..];
      assert tail[0] == added[1] && tail[1] == added[2];
      assert tail[2..][0] == added[3] && tail[2..][1] == added[4] && tail[2..][2] == added[5];
    }
  }

  lemma MatchStep(spec: Spec, base: nat, i: nat, t: seq<Event>, apps: Apps, added: seq<Event>, apps': Apps, j: nat)
    requires j <= i < |spec.clusterInfo| && base <= |t|
    requires forall k :: base <= k < |t| ==> t[k].phase != Dependent(i)
    requires j < i && EntryMatched(t, base, j) ==> AppKey(spec.clusterInfo[j].name) in apps
    requires EntryAdds(spec, i, t, apps, added, apps') && EntryMatched(t + added, base, j)
    ensures AppKey(spec.clusterInfo[j].name) in apps'
  {
    if j < i {
      OthersUnmatched(base, t, added, i, j);
    } else {
      EntryMatchedAdded(base, t, added, i);
    }
  }

  lemma MatchesStep(spec: Spec, base: nat, i: nat, t: seq<Event>, apps: Apps, added: seq<Event>, apps': Apps)
    requires i < |spec.clusterInfo| && AppsInv(spec, base, i, t, apps)
    requires EntryAdds(spec, i, t, apps, added, apps')
    ensures forall j :: 0 <= j < i + 1 && EntryMatched(t + added, base, j) ==> AppKey(spec.clusterInfo[j].name) in apps'
  {
    forall j | 0 <= j < i + 1 && EntryMatched(t + added, base, j)
      ensures AppKey(spec.clusterInfo[j].name) in apps'
    {
      MatchStep(spec, base, i, t, apps, added, apps', j);
    }
  }

  lemma {:induction false} EntriesInv(e: Env, spec: Spec, base: nat, i: nat, w: World, apps: Apps)
    requires i <= |spec.clusterInfo|
    requires AppsInv(spec, base, i, w.trace, apps)
    ensures var p := Entries(e, spec, i, w, apps);
            && base <= |p.world.trace| && NoSyncYet(p.world.trace, base)
            && (p.outcome == Done ==> AppsInv(spec, base, |spec.clusterInfo|, p.world.trace, p.apps))
    decreases |spec.clusterInfo| - i
  {
    if i == |spec.clusterInfo| {
    } else {
      EntryKeepsInv(e, spec, base, i, w, apps);
      var p := Entry(e, spec, i, w, apps);
      if p.outcome == Done {
        EntriesInv(e, spec, base, i + 1, p.world, p.apps);
      }
    }
  }

  // --- The syncs ---

  lemma SyncCountSnoc(t: seq<Event>, ev: Event, name: string)
    ensures SyncCount(t + [ev], name) == SyncCount(t, name) + if IsSync(ev, name) then 1 else 0
  {
    assert (t + [ev])[..|t|] == t;
  }

  lemma AmongKeys(keys: seq<string>, first: string, name: string)
    requires Distinct(keys) && keys != [] && keys[0] == AppKey(first)
    ensures AppKey(name) in keys <==> name == first || AppKey(name) in keys[1..]
    ensures !(name == first && AppKey(name) in keys[1..])
  {
    assert keys == [keys[0]] + keys[1..] && keys[0] !in keys[1..];
    if AppKey(name) == keys[0] {
      KeyInjective(name, first);
    }
  }

  /** Ranging over keys makes attempts for these only, with the clients on record. */
  lemma {:induction false} SyncAppsEvents(e: Env, keys: seq<string>, apps: Apps, w: World)
    requires forall k :: k in keys ==> k in apps && k == AppKey(apps[k].name)
    ensures var t := SyncApps(e, keys, apps, w).trace;
            && |w.trace| <= |t| && t[..|w.trace|] == w.trace
            && (forall k :: |w.trace| <= k < |t| ==>
                  && t[k].phase == Sync && t[k].act.SyncApp?
                  && AppKey(t[k].act.cluster) in keys
                  && t[k].act.client == apps[AppKey(t[k].act.cluster)].client)
    decreases |keys|
  {
    if keys == [] {
    } else {
      var act := SyncApp(apps[keys[0]].name, apps[keys[0]].client);
      var w2 := Plain(e, Plain(e, w, Sync, act), Sync, act);
      SyncAppsEvents(e, keys[1..], apps, w2);
      var t := SyncApps(e, keys, apps, w).trace;
      assert t[..|w2.trace|] == w2.trace;
      assert forall k :: 0 <= k < |w2.trace| ==> t[k] == w2.trace[k];
    }
  }

  /** Ranging over keys in any order gives two attempts for each. */
  lemma {:induction false} SyncAppsCount(e: Env, keys: seq<string>, apps: Apps, w: World, name: string)
    requires forall k :: k in keys ==> k in apps && k == AppKey(apps[k].name)
    requires Distinct(keys)
    ensures SyncCount(SyncApps(e, keys, apps, w).trace, name) ==
            SyncCount(w.trace, name) + (if AppKey(name) in keys then 2 else 0)
    decreases |keys|
  {
    if keys == [] {
    } else {
      var app := apps[keys[0]];
      var act := SyncApp(app.name, app.client);
      var w1 := Plain(e, w, Sync, act);
      SyncAppsCount(e, keys[1..], apps, Plain(e, w1, Sync, act), name);
      SyncCountSnoc(w.trace, Event(Sync, act, Asked(e, w)), name);
      SyncCountSnoc(w1.trace, Event(Sync, act, Asked(e, w1)), name);
      AmongKeys(keys, app.name, name);
    }
  }

  lemma NoSyncNoCount(t: seq<Event>, base: nat, name: string)
    requires base <= |t| && NoSyncYet(t, base)
    ensures SyncCount(t, name) == SyncCount(t[..base], name)
    decreases |t|
  {
    if |t| == base {
      assert t[..base] == t;
    } else {
      var front := t[..|t| - 1];
      assert front[..base] == t[..base];
      NoSyncNoCount(front, base, name);
    }
  }

  /** The loop over the entries, from the start of the phase. */
  lemma AfterEntries(e: Env, spec: Spec, w: World) returns (p: Progress)
    requires LawfulEnv(e)
    ensures var w2 := Plain(e, Plain(e, w, DependentStart, GetUser), DependentStart, ListRepos);
            p == Entries(e, spec, 0, w2, map[])
    ensures var base, t := |w.trace|, p.world.trace;
            && base <= |t| && t[..base] == w.trace && NoSyncYet(t, base)
            && (p.outcome == Done ==> AppsInv(spec, base, |spec.clusterInfo|, t, p.apps))
  {
    var base := |w.trace|;
    var w2 := Plain(e, Plain(e, w, DependentStart, GetUser), DependentStart, ListRepos);
    NothingYet(spec, base, w, w2);
    EntriesInv(e, spec, base, 0, w2, map[]);
    EntriesExtend(e, spec, 0, w2, map[]);
    p := Entries(e, spec, 0, w2, map[]);
    assert p.world.trace[..base] == p.world.trace[..|w2.trace|][..base] == w2.trace[..base] == w.trace;
  }

  /** The syncing loop, after all entries. */
  lemma SyncsAfterEntries(e: Env, spec: Spec, base: nat, p: Progress, name: string)
    requires LawfulEnv(e)
    requires AppsInv(spec, base, |spec.clusterInfo|, p.world.trace, p.apps)
    ensures var before := p.world.trace;
            var t := SyncApps(e, Order(e, p.world, p.apps), p.apps, p.world).trace;
            && |before| <= |t| && t[..|before|] == before
            && SyncCount(t, name) - SyncCount(before[..base], name) ==
               (if NameMatched(spec, before, base, name) then 2 else 0)
            && (forall k :: |before| <= k < |t| ==>
                  && t[k].phase == Sync && t[k].act.SyncApp?
                  && FirstClient(before, base, t[k].act.cluster, t[k].act.client))
  {
    var keys := Order(e, p.world, p.apps);
    assert Enumerates(keys, p.apps.Keys);
    SyncAppsEvents(e, keys, p.apps, p.world);
    SyncAppsCount(e, keys, p.apps, p.world, name);
    NoSyncNoCount(p.world.trace, base, name);
    NameMatchedInApps(spec, base, p.world.trace, p.apps, name);
    var t := SyncApps(e, keys, p.apps, p.world).trace;
    forall k | |p.world.trace| <= k < |t|
      ensures FirstClient(p.world.trace, base, t[k].act.cluster, t[k].act.client)
    {
      KeyInjective(t[k].act.cluster, p.apps[AppKey(t[k].act.cluster)].name);
    }
  }

  /** What a run of the dependent phase, from `w` to `r`, has done before and after the point `m` of its trace. */
  ghost predicate SplitsAt(spec: Spec, name: string, w: World, r: Result, m: nat) {
    var t := r.world.trace;
    var base := |w.trace|;
    && base <= m <= |t| && t[..base] == w.trace && NoSyncYet(t[..m], base)
    && (r.outcome != Done ==> m == |t|)
    && (r.outcome == Done ==>
          && (forall j :: 0 <= j < |spec.clusterInfo| && spec.clusterInfo[j].configRef != NO_CONFIG ==>
                Processed(t[..m], base, j))
          && SyncCount(t, name) - SyncCount(w.trace, name) == (if NameMatched(spec, t[..m], base, name) then 2 else 0)
          && (forall k :: m <= k < |t| ==>
                && t[k].phase == Sync && t[k].act.SyncApp?
                && FirstClient(t[..m], base, t[k].act.cluster, t[k].act.client)))
  }

  /** A phase that ended early. */
  lemma EndsEarly(spec: Spec, name: string, w: World, r: Result)
    requires r.outcome != Done && NoSyncYet(r.world.trace, |w.trace|)
    requires |w.trace| <= |r.world.trace| && r.world.trace[..|w.trace|] == w.trace
    ensures SplitsAt(spec, name, w, r, |r.world.trace|)
  {
    assert r.world.trace[..|r.world.trace|] == r.world.trace;
  }

  /** What the entries' part of the trace must have shown when the syncs begin. */
  ghost predicate EntriesOver(spec: Spec, w: World, t: seq<Event>) {
    && |w.trace| <= |t| && t[..|w.trace|] == w.trace && NoSyncYet(t, |w.trace|)
    && (forall j :: 0 <= j < |spec.clusterInfo| && spec.clusterInfo[j].configRef != NO_CONFIG ==>
          Processed(t, |w.trace|, j))
  }

  lemma SplitAtSyncs(spec: Spec, name: string, w: World, before: seq<Event>, r: Result)
    requires r.outcome == Done && EntriesOver(spec, w, before)
    requires |before| <= |r.world.trace| && r.world.trace[..|before|] == before
    requires SyncCount(r.world.trace, name) - SyncCount(w.trace, name) ==
             (if NameMatched(spec, before, |w.trace|, name) then 2 else 0)
    requires forall k :: |before| <= k < |r.world.trace| ==>
               && r.world.trace[k].phase == Sync && r.world.trace[k].act.SyncApp?
               && FirstClient(before, |w.trace|, r.world.trace[k].act.cluster, r.world.trace[k].act.client)
    ensures SplitsAt(spec, name, w, r, |before|)
  {
    assert r.world.trace[..|w.trace|] == before[..|w.trace|];
  }

  lemma InvEntriesOver(spec: Spec, w: World, t: seq<Event>, apps: Apps)
    requires |w.trace| <= |t| && t[..|w.trace|] == w.trace
    requires AppsInv(spec, |w.trace|, |spec.clusterInfo|, t, apps)
    ensures EntriesOver(spec, w, t)
  {
  }

  /** A phase whose entries all ended well. */
  lemma EndsInSyncs(e: Env, spec: Spec, name: string, w: World, p: Progress)
    requires LawfulEnv(e) && |w.trace| <= |p.world.trace| && p.world.trace[..|w.trace|] == w.trace
    requires AppsInv(spec, |w.trace|, |spec.clusterInfo|, p.world.trace, p.apps)
    ensures var r := Result(SyncApps(e, Order(e, p.world, p.apps), p.apps, p.world), Done);
            SplitsAt(spec, name, w, r, |p.world.trace|)
  {
    var r := Result(SyncApps(e, Order(e, p.world, p.apps), p.apps, p.world), Done);
    SyncsAfterEntries(e, spec, |w.trace|, p, name);
    InvEntriesOver(spec, w, p.world.trace, p.apps);
    SplitAtSyncs(spec, name, w, p.world.trace, r);
  }

  /** The dependent phase, over all its runs. A run that does not end in nil has made no dependent sync. In one that
      does, all syncs come after a point `m` by which every ConfigRef entry was cloned and none aborted; then every
      cluster name with a matching entry, and no other, has had exactly two attempts, each with the client of its
      first occurrence, in whatever order the map was ranged over. */
  lemma SyncPhaseMeaning(e: Env, spec: Spec, w: World, name: string) returns (m: nat)
    requires LawfulEnv(e)
    ensures SplitsAt(spec, name, w, HandleDependents(e, spec, w), m)
  {
    var w1 := Plain(e, w, DependentStart, GetUser);
    var r := HandleDependents(e, spec, w);
    if !LastOk(w1) {
      m := |r.world.trace|;
      EndsEarly(spec, name, w, r);
    } else {
      var p := AfterEntries(e, spec, w);
      m := |p.world.trace|;
      if p.outcome != Done {
        EndsEarly(spec, name, w, r);
      } else {
        EndsInSyncs(e, spec, name, w, p);
      }
    }
  }

  // --- The order of the attempts ---

  /** From `m` on, two attempts in a row for every key, in the order of the keys. */
  ghost predicate InPairs(t: seq<Event>, m: nat, keys: seq<string>) {
    && |t| == m + 2 * |keys|
    && forall i :: 0 <= i < |keys| ==> PairAt(t, m + 2 * i, keys[i])
  }

  predicate PairAt(t: seq<Event>, k: nat, key: string) {
    && k + 1 < |t|
    && t[k].act.SyncApp? && AppKey(t[k].act.cluster) == key
    && t[k].phase == Sync && t[k + 1].phase == Sync && t[k + 1].act == t[k].act
  }

  lemma PairWritten(e: Env, w: World, app: App, key: string, t: seq<Event>)
    requires AppKey(app.name) == key
    requires var act := SyncApp(app.name, app.client);
             var w2 := Plain(e, Plain(e, w, Sync, act), Sync, act);
             |w2.trace| <= |t| && t[..|w2.trace|] == w2.trace
    ensures PairAt(t, |w.trace|, key)
  {
    var act, n := SyncApp(app.name, app.client), |w.trace|;
    var w1 := Plain(e, w, Sync, act);
    var w2 := Plain(e, w1, Sync, act);
    assert t[n] == w2.trace[n] == w1.trace[n] && t[n + 1] == w2.trace[n + 1];
  }

  lemma {:induction false} SyncAppsInPairs(e: Env, keys: seq<string>, apps: Apps, w: World)
    requires forall k :: k in keys ==> k in apps && k == AppKey(apps[k].name)
    ensures InPairs(SyncApps(e, keys, apps, w).trace, |w.trace|, keys)
    decreases |keys|
  {
    if keys == [] {
    } else {
      var act := SyncApp(apps[keys[0]].name, apps[keys[0]].client);
      var w2 := Plain(e, Plain(e, w, Sync, act), Sync, act);
      SyncAppsInPairs(e, keys[1..], apps, w2);
      SyncAppsEvents(e, keys[1..], apps, w2);
      var t := SyncApps(e, keys[1..], apps, w2).trace;
      PairWritten(e, w, apps[keys[0]], keys[0], t);
      PairsCons(t, |w.trace|, keys);
    }
  }

  lemma PairsCons(t: seq<Event>, m: nat, keys: seq<string>)
    requires keys != [] && InPairs(t, m + 2, keys[1..]) && PairAt(t, m, keys[0])
    ensures InPairs(t, m, keys)
  {
    forall i | 0 <= i < |keys|
      ensures PairAt(t, m + 2 * i, keys[i])
    {
      if i > 0 {
        assert PairAt(t, m + 2 + 2 * (i - 1), keys[1..][i - 1]);
      }
    }
  }

  /** A phase that returns nil ends in its attempts: two in a row for one cluster after another, in the order in which
      the map is ranged over at that time. */
  lemma SyncsInPairs(e: Env, spec: Spec, w: World) returns (m: nat, keys: set<string>)
    requires LawfulEnv(e) && HandleDependents(e, spec, w).outcome == Done
    ensures var t := HandleDependents(e, spec, w).world.trace;
            && |w.trace| <= m <= |t| && NoSyncYet(t[..m], |w.trace|)
            && InPairs(t, m, e.mapOrder(m, keys))
  {
    var p := AfterEntries(e, spec, w);
    m, keys := |p.world.trace|, p.apps.Keys;
    var order := Order(e, p.world, p.apps);
    assert Enumerates(e.mapOrder(m, keys), keys);
    SyncAppsEvents(e, order, p.apps, p.world);
    SyncAppsInPairs(e, order, p.apps, p.world);
  }

  lemma NothingYet(spec: Spec, base: nat, w: World, w2: World)
    requires base == |w.trace| && |w2.trace| == base + 2 && w2.trace[..base] == w.trace
    requires w2.trace[base].phase == DependentStart && w2.trace[base + 1].phase == DependentStart
    ensures AppsInv(spec, base, 0, w2.trace, map[])
  {
  }

  lemma NameMatchedInApps(spec: Spec, base: nat, t: seq<Event>, apps: Apps, name: string)
    requires AppsInv(spec, base, |spec.clusterInfo|, t, apps)
    ensures NameMatched(spec, t, base, name) <==> AppKey(name) in apps
  {
    if AppKey(name) in apps {
      KeyInjective(name, apps[AppKey(name)].name);
    }
  }

  lemma EntryExtends(e: Env, spec: Spec, i: nat, w: World, apps: Apps)
    requires i < |spec.clusterInfo|
    ensures var t := Entry(e, spec, i, w, apps).world.trace;
            |w.trace| <= |t| && t[..|w.trace|] == w.trace
  {
    var added := EntryShape(e, spec, i, w, apps);
  }

  lemma {:induction false} EntriesExtend(e: Env, spec: Spec, i: nat, w: World, apps: Apps)
    requires i <= |spec.clusterInfo|
    ensures var t := Entries(e, spec, i, w, apps).world.trace;
            |w.trace| <= |t| && t[..|w.trace|] == w.trace
    decreases |spec.clusterInfo| - i
  {
    if i == |spec.clusterInfo| {
    } else {
      EntryExtends(e, spec, i, w, apps);
      var p := Entry(e, spec, i, w, apps);
      if p.outcome == Done {
        EntriesExtend(e, spec, i + 1, p.world, p.apps);
        var t := Entries(e, spec, i, w, apps).world.trace;
        assert t[..|p.world.trace|][..|w.trace|] == t[..|w.trace|];
      }
    }
  }
}
