/** What the first-document rule does to later entries: a rewrite cuts a file down to one document, and with the others
    go the manifests that later clones would have matched. */
module Truncation {
  import opened Documents
  import opened Rewrites
  import opened Files
  import opened Repos
  import opened Api
  import opened Settling
  import opened Workflow
  import opened Repeats

  // --- One file ---

  /** Some document after the first carries the name. */
  predicate NamedBehind(c: Codec, bytes: string, id: ObjectName) {
    var docs := c.yamlDecode(bytes).docs;
    docs != [] && CountNamed(docs[1..], id) != Some(0)
  }

  /** A rewritten file matches as often as it did if and only if no later document carries the name. */
  lemma RewriteKeepsScanExactly(c: Codec, u: Update, bytes: string, id: ObjectName)
    requires Lawful(c) && ScanFile(c, bytes, id).Some?
    requires EditFile(c, u, bytes).Rewritten?
    ensures var bytes' := EditFile(c, u, bytes).bytes;
            var docs := c.yamlDecode(bytes).docs;
            && docs != []
            && ScanFile(c, bytes', id) == Some(if DecodeName(docs[0]) == Some(id) then 1 else 0)
            && (ScanFile(c, bytes', id) == ScanFile(c, bytes, id) <==> !NamedBehind(c, bytes, id))
  {
    OnlyFirstDocumentSurvives(c, u, bytes);
    var doc := c.yamlDecode(bytes).docs[0];
    var doc' := EditDoc(c, u, doc).doc;
    EditKeepsHeader(c, u, doc);
    assert [doc'][1..] == [] && CountNamed([], id) == Some(0);
  }

  // --- One repository ---

  /** The update of the listed files drops a manifest of the name from the file. */
  predicate Drops(c: Codec, u: Update, repo: Repo, ms: seq<string>, id: ObjectName, p: string) {
    && p in ms && p in repo && YamlPath(p)
    && EditFile(c, u, repo[p]).Rewritten? && NamedBehind(c, repo[p], id)
  }

  /** Matching finds the same list after an update if and only if no file drops a manifest of the name. */
  lemma UpdateKeepsScanExactly(c: Codec, u: Update, repo: Repo, ms: seq<string>, paths: seq<string>, id: ObjectName)
    requires Lawful(c) && Enumerates(paths, repo.Keys) && Scan(c, repo, paths, id).Some?
    ensures var repo' := UpdateAll(c, u, repo, ms);
            && Scan(c, repo', paths, id).Some?
            && (Scan(c, repo', paths, id) == Scan(c, repo, paths, id) <==>
                  forall p :: p in repo ==> !Drops(c, u, repo, ms, id, p))
  {
    var repo' := UpdateAll(c, u, repo, ms);
    ScanSucceeds(c, repo, paths, id);
    forall p | p in paths && YamlPath(p)
      ensures ScanFile(c, repo'[p], id).Some?
      ensures ScanFile(c, repo'[p], id) == ScanFile(c, repo[p], id) <==> !Drops(c, u, repo, ms, id, p)
    {
      if EditFile(c, u, repo[p]).Rewritten? {
        RewriteKeepsScanExactly(c, u, repo[p], id);
      }
    }
    ScanSucceeds(c, repo', paths, id);
    if forall p :: p in repo ==> !Drops(c, u, repo, ms, id, p) {
      ScanSame(c, repo, repo', paths, id);
    } else {
      var p :| p in repo && Drops(c, u, repo, ms, id, p);
      ScanCount(c, repo, paths, id, p);
      ScanCount(c, repo', paths, id, p);
      assert Matching(c, repo', p, id) != Matching(c, repo, p, id);
    }
  }

  /** Matching finds nothing any more if and only if all files that matched are rewritten, and begin with a document of
      another name. */
  lemma UpdateLosesExactly(c: Codec, u: Update, repo: Repo, ms: seq<string>, paths: seq<string>, id: ObjectName)
    requires Lawful(c) && Enumerates(paths, repo.Keys) && Scan(c, repo, paths, id).Some?
    ensures Scan(c, UpdateAll(c, u, repo, ms), paths, id) == Some([]) <==>
            forall p :: p in Scan(c, repo, paths, id).value ==> Loses(c, u, repo, ms, id, p)
  {
    var repo' := UpdateAll(c, u, repo, ms);
    var found := Scan(c, repo, paths, id).value;
    UpdateKeepsScanExactly(c, u, repo, ms, paths, id);
    var found' := Scan(c, repo', paths, id).value;
    forall p
      ensures p in found' <==> p in found && !Loses(c, u, repo, ms, id, p)
    {
      ScanCount(c, repo, paths, id, p);
      ScanCount(c, repo', paths, id, p);
      if p in paths && YamlPath(p) {
        ScanSucceeds(c, repo, paths, id);
        if EditFile(c, u, repo[p]).Rewritten? {
          RewriteKeepsScanExactly(c, u, repo[p], id);
        }
      }
    }
    assert found' == [] <==> forall p :: p !in found' by {
      if found' != [] {
        assert found'[0] in found';
      }
    }
  }

  predicate Loses(c: Codec, u: Update, repo: Repo, ms: seq<string>, id: ObjectName, p: string) {
    && p in ms && p in repo && EditFile(c, u, repo[p]).Rewritten?
    && c.yamlDecode(repo[p]).docs != [] && DecodeName(c.yamlDecode(repo[p]).docs[0]) != Some(id)
  }

  // --- One push of the dependent handler ---

  /** The push of one entry leaves another entry its matches exactly when no rewritten file drops one of them; whatever
      number of documents the files have. */
  lemma PushKeepsMatchesExactly(e: Env, dep: ClusterInfo, ips: NewIPs, ms: seq<string>, w: World, w': World,
                                other: ClusterInfo)
    requires LawfulEnv(e) && PushedOnce(e, dep, ips, ms, w, w') && MatchesAt(e, other, w).Some?
    ensures MatchesAt(e, other, w').Some?
    ensures MatchesAt(e, other, w') == MatchesAt(e, other, w) <==>
            (other.repo == dep.repo ==>
               forall p :: p in w.repos[dep.repo] ==>
                 !Drops(e.codec, UpdateConfig(ips), w.repos[dep.repo], ms, other.configRef.id, p))
  {
    if other.repo == dep.repo {
      var repo := w.repos[dep.repo];
      assert Enumerates(e.walk(repo.Keys), repo.Keys);
      assert w'.repos[dep.repo].Keys == repo.Keys;
      UpdateKeepsScanExactly(e.codec, UpdateConfig(ips), repo, ms, e.walk(repo.Keys), other.configRef.id);
    }
  }

  /** And exactly when it leaves that entry without a match: the entry is then passed over as if it had nothing to
      rewrite. */
  lemma PushHidesExactly(e: Env, dep: ClusterInfo, ips: NewIPs, ms: seq<string>, w: World, w': World,
                         other: ClusterInfo)
    requires LawfulEnv(e) && PushedOnce(e, dep, ips, ms, w, w') && MatchesAt(e, other, w).Some?
    requires other.repo == dep.repo
    ensures MatchesAt(e, other, w') == Some([]) <==>
            forall p :: p in MatchesAt(e, other, w).value ==>
              Loses(e.codec, UpdateConfig(ips), w.repos[dep.repo], ms, other.configRef.id, p)
  {
    var repo := w.repos[dep.repo];
    assert Enumerates(e.walk(repo.Keys), repo.Keys);
    assert w'.repos[dep.repo].Keys == repo.Keys;
    UpdateLosesExactly(e.codec, UpdateConfig(ips), repo, ms, e.walk(repo.Keys), other.configRef.id);
  }
}
