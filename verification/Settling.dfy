/** Trees that the target phase leaves alone: every tree it produces is one, and address updates by the dependent
    phase keep it one. */
module Settling {
  import opened Documents
  import opened Rewrites
  import opened Files
  import opened Repos
  import opened Api
  import opened Workflow

  // --- One file ---

  predicate NadSettled(c: Codec, ifaces: seq<NFInterface>, bytes: string) {
    NadEdit(c, ifaces, bytes).Ok() ==> After(bytes, NadEdit(c, ifaces, bytes)) == bytes
  }

  predicate NFSettled(c: Codec, ips: NewIPs, bytes: string) {
    EditFile(c, UpdateNF(ips), bytes).Ok() && After(bytes, EditFile(c, UpdateNF(ips), bytes)) == bytes
  }

  predicate AddressUpdate(u: Update) {
    u.UpdateNF? || u.UpdateConfig?
  }

  lemma EditKeepsScan(c: Codec, u: Update, bytes: string, id: ObjectName)
    requires Lawful(c) && Single(c, bytes)
    ensures var bytes' := After(bytes, EditFile(c, u, bytes));
            Single(c, bytes') && ScanFile(c, bytes', id) == ScanFile(c, bytes, id)
  {
    if EditFile(c, u, bytes).Rewritten? {
      OnlyFirstDocumentSurvives(c, u, bytes);
      var doc := c.yamlDecode(bytes).docs[0];
      var doc' := EditDoc(c, u, doc).doc;
      EditKeepsHeader(c, u, doc);
      assert CountNamed([doc'][1..], id) == Some(0) == CountNamed([doc][1..], id);
      assert c.yamlDecode(bytes).docs == [doc];
    }
  }

  lemma EditKeepsHost(c: Codec, ifaces: seq<NFInterface>, u: Update, bytes: string)
    requires Lawful(c) && Single(c, bytes)
    requires EditFile(c, u, bytes).Rewritten?
    ensures var bytes' := EditFile(c, u, bytes).bytes;
            && HostOf(c, ifaces, bytes') == HostOf(c, ifaces, bytes)
            && DecodeHeader(c.yamlDecode(bytes').docs[0]) == DecodeHeader(c.yamlDecode(bytes).docs[0])
  {
    OnlyFirstDocumentSurvives(c, u, bytes);
    EditKeepsHeader(c, u, c.yamlDecode(bytes).docs[0]);
  }

  lemma NadEditSettles(c: Codec, ifaces: seq<NFInterface>, bytes: string)
    requires Lawful(c) && Single(c, bytes)
    requires NadEdit(c, ifaces, bytes).Ok()
    ensures var bytes' := After(bytes, NadEdit(c, ifaces, bytes));
            NadEdit(c, ifaces, bytes').Ok() && NadSettled(c, ifaces, bytes')
  {
    if NadEdit(c, ifaces, bytes).Rewritten? {
      var u := UpdateNad(HostOf(c, ifaces, bytes).value);
      OnlyFirstDocumentSurvives(c, u, bytes);
      EditKeepsHost(c, ifaces, u, bytes);
      IdempotentFile(c, u, bytes);
    }
  }

  /** A rewrite that gives back the same text leaves the document itself as it is. */
  lemma SettledDoc(c: Codec, u: Update, bytes: string)
    requires Lawful(c)
    requires EditFile(c, u, bytes) == Rewritten(bytes)
    ensures EditDoc(c, u, FirstDoc(c, bytes).value) == Write(FirstDoc(c, bytes).value)
  {
    OnlyFirstDocumentSurvives(c, u, bytes);
  }

  /** Address updates do not disturb the NAD walk: a file's visit ends as before, and a settled file stays settled. */
  lemma AddressUpdateKeepsNad(c: Codec, ifaces: seq<NFInterface>, u: Update, bytes: string)
    requires Lawful(c) && Single(c, bytes) && AddressUpdate(u)
    ensures var bytes' := After(bytes, EditFile(c, u, bytes));
            && StatusOf(NadEdit(c, ifaces, bytes')) == StatusOf(NadEdit(c, ifaces, bytes))
            && (NadSettled(c, ifaces, bytes) ==> NadSettled(c, ifaces, bytes'))
  {
    if EditFile(c, u, bytes).Rewritten? && HostOf(c, ifaces, bytes).Some? {
      var bytes' := EditFile(c, u, bytes).bytes;
      var host := HostOf(c, ifaces, bytes).value;
      OnlyFirstDocumentSurvives(c, u, bytes);
      EditKeepsHost(c, ifaces, u, bytes);
      var doc := FirstDoc(c, bytes).value;
      NadAfterAddressUpdate(c, u, doc, host);
      if NadEdit(c, ifaces, bytes) == Rewritten(bytes) {
        SettledDoc(c, UpdateNad(host), bytes);
      }
    } else if EditFile(c, u, bytes).Rewritten? {
      OnlyFirstDocumentSurvives(c, u, bytes);
      EditKeepsHost(c, ifaces, u, bytes);
    }
  }

  lemma NadAfterAddressUpdate(c: Codec, u: Update, doc: Value, host: string)
    requires AddressUpdate(u) && EditDoc(c, u, doc).Write?
    ensures var doc' := EditDoc(c, u, doc).doc;
            match EditNad(c, doc, host)
            case Write(nad) => EditNad(c, doc', host).Write? && (nad == doc ==> EditNad(c, doc', host) == Write(doc'))
            case other => EditNad(c, doc', host) == other
  {
    var doc' := EditDoc(c, u, doc).doc;
    var spec, spec' := doc.Get("spec"), doc'.Get("spec");
    if u.UpdateNF? {
      assert spec'.Get("config") == spec.Get("config");
      if EditNad(c, doc, host) == Write(doc) {
        var cfg := c.jsonDecode(spec.Get("config").text).value;
        var text := Str(c.jsonEncode(cfg.With("master", Str(host))));
        assert doc.Get("spec") == spec.With("config", text);
        assert spec.Get("config") == text;
        assert spec'.With("config", text) == spec' by { assert "config" in spec'.fields; }
        assert doc'.With("spec", spec') == doc';
      }
    }
  }

  lemma NFEditSettles(c: Codec, ips: NewIPs, bytes: string)
    requires Lawful(c)
    requires EditFile(c, UpdateNF(ips), bytes).Ok()
    ensures NFSettled(c, ips, After(bytes, EditFile(c, UpdateNF(ips), bytes)))
  {
    IdempotentFile(c, UpdateNF(ips), bytes);
  }

  /** Rewriting embedded interfaces does not disturb the interfaces of the document itself. */
  lemma ConfigUpdateKeepsNF(c: Codec, ips: NewIPs, other: NewIPs, bytes: string)
    requires Lawful(c)
    requires NFSettled(c, ips, bytes)
    ensures NFSettled(c, ips, After(bytes, EditFile(c, UpdateConfig(other), bytes)))
  {
    var u := UpdateConfig(other);
    if EditFile(c, u, bytes).Rewritten? {
      OnlyFirstDocumentSurvives(c, u, bytes);
      NFAfterConfigUpdate(FirstDoc(c, bytes).value, ips, other);
      if EditFile(c, UpdateNF(ips), bytes).Rewritten? {
        SettledDoc(c, UpdateNF(ips), bytes);
      }
    }
  }

  lemma NFAfterConfigUpdate(doc: Value, ips: NewIPs, other: NewIPs)
    requires EditConfig(doc, other).Write?
    ensures var doc' := EditConfig(doc, other).doc;
            && (EditNF(doc, ips).Keep? ==> EditNF(doc', ips).Keep?)
            && (EditNF(doc, ips) == Write(doc) ==> EditNF(doc', ips) == Write(doc'))
  {
    var doc' := EditConfig(doc, other).doc;
    var spec, spec' := doc.Get("spec"), doc'.Get("spec");
    assert spec'.Get("interfaces") == spec.Get("interfaces");
    if EditNF(doc, ips) == Write(doc) {
      var items := spec.Get("interfaces").items;
      assert spec.With("interfaces", List(StrictItems(items, ips).value)) == spec;
      assert StrictItems(items, ips) == Some(items);
      assert spec'.With("interfaces", List(items)) == spec' by {
        assert spec'.fields["interfaces" := List(items)] == spec'.fields;
      }
      assert doc'.With("spec", spec') == doc' by { assert doc'.fields["spec" := spec'] == doc'.fields; }
    }
  }

  // --- Whole trees ---

  /** The target phase, on a clone of this tree, finds the same matches and changes nothing. */
  ghost predicate Settled(c: Codec, ifaces: seq<NFInterface>, id: ObjectName, repo: Repo, paths: seq<string>,
                          found: seq<string>)
    requires Enumerates(paths, repo.Keys)
  {
    && AllSingle(c, repo)
    && Scan(c, repo, paths, id) == Some(found)
    && NewIPsOf(ifaces).Some?
    && var k := Reach(c, ifaces, repo, paths);
    && (k < |paths| ==> !NadEdit(c, ifaces, repo[paths[k]]).Panicked?)
    && (forall p :: p in paths[..k] && YamlPath(p) ==> NadSettled(c, ifaces, repo[p]))
    && (forall p :: p in found ==> p in repo && NFSettled(c, NewIPsOf(ifaces).value, repo[p]))
  }

  lemma SettledMeansUnchanged(c: Codec, ifaces: seq<NFInterface>, id: ObjectName, repo: Repo, paths: seq<string>,
                              found: seq<string>)
    requires Lawful(c)
    requires Enumerates(paths, repo.Keys)
    requires Settled(c, ifaces, id, repo, paths, found)
    ensures RewriteTarget(c, ifaces, repo, paths, found) == Tree(repo, Success)
  {
    SettledWalk(c, ifaces, id, repo, paths, found);
    SettledFold(c, NewIPsOf(ifaces).value, repo, found);
  }

  lemma SettledWalk(c: Codec, ifaces: seq<NFInterface>, id: ObjectName, repo: Repo, paths: seq<string>,
                    found: seq<string>)
    requires Lawful(c)
    requires Enumerates(paths, repo.Keys)
    requires Settled(c, ifaces, id, repo, paths, found)
    ensures WalkNads(c, ifaces, repo, paths).repo == repo && !WalkNads(c, ifaces, repo, paths).status.Crash?
  {
    NadWalkMeaning(c, ifaces, repo, paths);
    ReachIsOk(c, ifaces, repo, paths);
    assert NadEdited(c, ifaces, repo, paths[..Reach(c, ifaces, repo, paths)]) == repo;
  }

  lemma SettledFold(c: Codec, ips: NewIPs, repo: Repo, found: seq<string>)
    requires Lawful(c)
    requires forall p :: p in found ==> p in repo && NFSettled(c, ips, repo[p])
    ensures Fold(c, UpdateNF(ips), repo, found) == Tree(repo, Success)
  {
    FoldMeaning(c, UpdateNF(ips), repo, found);
    assert UpdateAll(c, UpdateNF(ips), repo, found) == repo;
  }

  lemma {:induction false} ReachSame(c: Codec, ifaces: seq<NFInterface>, repo: Repo, repo': Repo, paths: seq<string>)
    requires forall p :: p in paths ==> p in repo && p in repo'
    requires forall p :: p in paths && YamlPath(p) ==>
               (NadEdit(c, ifaces, repo[p]).Ok() <==> NadEdit(c, ifaces, repo'[p]).Ok())
    ensures Reach(c, ifaces, repo, paths) == Reach(c, ifaces, repo', paths)
  {
    if paths == [] {
    } else {
      ReachSame(c, ifaces, repo, repo', paths[1..]);
    }
  }

  lemma {:induction false} ScanSame(c: Codec, repo: Repo, repo': Repo, paths: seq<string>, id: ObjectName)
    requires forall p :: p in paths ==> p in repo && p in repo'
    requires forall p :: p in paths && YamlPath(p) ==> ScanFile(c, repo[p], id) == ScanFile(c, repo'[p], id)
    ensures Scan(c, repo, paths, id) == Scan(c, repo', paths, id)
  {
    if paths == [] {
    } else {
      ScanSame(c, repo, repo', paths[1..], id);
    }
  }

  lemma MatchesSettle(c: Codec, ips: NewIPs, repo: Repo, found: seq<string>)
    requires Lawful(c) && AllOk(c, UpdateNF(ips), repo, found)
    ensures var repo' := UpdateAll(c, UpdateNF(ips), repo, found);
            forall p :: p in found ==> p in repo' && NFSettled(c, ips, repo'[p])
  {
    forall p | p in found
      ensures p in repo && NFSettled(c, ips, UpdateAll(c, UpdateNF(ips), repo, found)[p])
    {
      NFEditSettles(c, ips, repo[p]);
    }
  }

  /** One file on its way through the target phase: visited by the walk or not, then possibly rewritten. */
  lemma TargetSettlesFile(c: Codec, ifaces: seq<NFInterface>, id: ObjectName, bytes: string, visited: bool, ips: NewIPs)
    requires Lawful(c) && Single(c, bytes)
    requires visited ==> NadEdit(c, ifaces, bytes).Ok()
    ensures var mid := if visited then After(bytes, NadEdit(c, ifaces, bytes)) else bytes;
            forall last | last == mid || last == After(mid, EditFile(c, UpdateNF(ips), mid)) ::
              && Single(c, last) && ScanFile(c, last, id) == ScanFile(c, bytes, id)
              && StatusOf(NadEdit(c, ifaces, last)) == StatusOf(NadEdit(c, ifaces, bytes))
              && (visited ==> NadSettled(c, ifaces, last))
  {
    var mid := if visited then After(bytes, NadEdit(c, ifaces, bytes)) else bytes;
    if visited {
      NadEditSettles(c, ifaces, bytes);
      if HostOf(c, ifaces, bytes).Some? {
        EditKeepsScan(c, UpdateNad(HostOf(c, ifaces, bytes).value), bytes, id);
      }
    }
    EditKeepsScan(c, UpdateNF(ips), mid, id);
    AddressUpdateKeepsNad(c, ifaces, UpdateNF(ips), mid);
  }

  /** All files on their way through the target phase, whose walk gets as far as `k`. */
  lemma TargetSettlesFiles(c: Codec, ifaces: seq<NFInterface>, id: ObjectName, repo: Repo, paths: seq<string>,
                           found: seq<string>, ips: NewIPs, k: nat)
    requires Lawful(c) && AllSingle(c, repo) && Enumerates(paths, repo.Keys) && k <= |paths|
    requires forall p :: p in paths[..k] && YamlPath(p) ==> NadEdit(c, ifaces, repo[p]).Ok()
    ensures var repo' := UpdateAll(c, UpdateNF(ips), NadEdited(c, ifaces, repo, paths[..k]), found);
            forall p :: p in paths && YamlPath(p) ==>
              && Single(c, repo'[p]) && ScanFile(c, repo'[p], id) == ScanFile(c, repo[p], id)
              && StatusOf(NadEdit(c, ifaces, repo'[p])) == StatusOf(NadEdit(c, ifaces, repo[p]))
              && (p in paths[..k] ==> NadSettled(c, ifaces, repo'[p]))
  {
    forall p | p in paths && YamlPath(p) {
      TargetSettlesFile(c, ifaces, id, repo[p], p in paths[..k], ips);
    }
  }

  /** A tree is settled when all its files are, and end their visits as those of a tree that the walk got through. */
  lemma SettledAfter(c: Codec, ifaces: seq<NFInterface>, id: ObjectName, repo: Repo, paths: seq<string>,
                     found: seq<string>, repo': Repo)
    requires Enumerates(paths, repo.Keys) && repo'.Keys == repo.Keys && NewIPsOf(ifaces).Some?
    requires Scan(c, repo, paths, id) == Some(found)
    requires forall p :: p in paths && YamlPath(p) ==>
               && Single(c, repo'[p]) && ScanFile(c, repo'[p], id) == ScanFile(c, repo[p], id)
               && StatusOf(NadEdit(c, ifaces, repo'[p])) == StatusOf(NadEdit(c, ifaces, repo[p]))
    requires var k := Reach(c, ifaces, repo, paths);
             && (k < |paths| ==> !NadEdit(c, ifaces, repo[paths[k]]).Panicked?)
             && forall p :: p in paths[..k] && YamlPath(p) ==> NadSettled(c, ifaces, repo'[p])
    requires forall p :: p in found ==> p in repo' && NFSettled(c, NewIPsOf(ifaces).value, repo'[p])
    ensures Settled(c, ifaces, id, repo', paths, found)
  {
    ReachSame(c, ifaces, repo, repo', paths);
    ReachIsOk(c, ifaces, repo, paths);
    ScanSame(c, repo, repo', paths, id);
  }

  /** The tree that a successful target phase produces is settled. */
  lemma TargetSettles(c: Codec, ifaces: seq<NFInterface>, id: ObjectName, repo: Repo, paths: seq<string>,
                      found: seq<string>)
    requires Lawful(c) && AllSingle(c, repo)
    requires Enumerates(paths, repo.Keys)
    requires Scan(c, repo, paths, id) == Some(found)
    requires RewriteTarget(c, ifaces, repo, paths, found).status.Success?
    ensures var repo' := RewriteTarget(c, ifaces, repo, paths, found).repo;
            repo'.Keys == repo.Keys && Settled(c, ifaces, id, repo', paths, found)
  {
    var ips := NewIPsOf(ifaces).value;
    var k := Reach(c, ifaces, repo, paths);
    NadWalkMeaning(c, ifaces, repo, paths);
    ReachIsOk(c, ifaces, repo, paths);
    var mid := NadEdited(c, ifaces, repo, paths[..k]);
    FoldMeaning(c, UpdateNF(ips), mid, found);
    TargetSettlesFiles(c, ifaces, id, repo, paths, found, ips, k);
    MatchesSettle(c, ips, mid, found);
    SettledAfter(c, ifaces, id, repo, paths, found, UpdateAll(c, UpdateNF(ips), mid, found));
  }

  /** Pushes of the dependent phase keep a settled tree settled. */
  lemma DependentKeepsSettled(c: Codec, ifaces: seq<NFInterface>, id: ObjectName, repo: Repo, paths: seq<string>,
                              found: seq<string>, ips: NewIPs, matched: seq<string>)
    requires Lawful(c)
    requires Enumerates(paths, repo.Keys)
    requires Settled(c, ifaces, id, repo, paths, found)
    ensures Settled(c, ifaces, id, UpdateAll(c, UpdateConfig(ips), repo, matched), paths, found)
  {
    var u := UpdateConfig(ips);
    var repo' := UpdateAll(c, u, repo, matched);
    forall p | p in paths && YamlPath(p)
      ensures Single(c, repo'[p]) && ScanFile(c, repo'[p], id) == ScanFile(c, repo[p], id)
      ensures StatusOf(NadEdit(c, ifaces, repo'[p])) == StatusOf(NadEdit(c, ifaces, repo[p]))
      ensures NadSettled(c, ifaces, repo[p]) ==> NadSettled(c, ifaces, repo'[p])
    {
      EditKeepsScan(c, u, repo[p], id);
      AddressUpdateKeepsNad(c, ifaces, u, repo[p]);
    }
    forall p | p in found
      ensures p in repo' && NFSettled(c, NewIPsOf(ifaces).value, repo'[p])
    {
      ConfigUpdateKeepsNF(c, NewIPsOf(ifaces).value, ips, repo[p]);
    }
    SettledAfter(c, ifaces, id, repo, paths, found, repo');
  }

  // --- Exactly when the target phase succeeds ---

  /** The interface list of a manifest, if it has one, holds only maps with string names. */
  predicate InterfacesNamed(c: Codec, bytes: string) {
    FirstDoc(c, bytes).Some? &&
    var interfaces := FirstDoc(c, bytes).value.Get("spec").Get("interfaces");
    interfaces.List? ==> AllNamed(interfaces.items)
  }

  /** A definition that is to get a host, but holds the JSON text `null`. */
  predicate HoldsNull(c: Codec, ifaces: seq<NFInterface>, bytes: string) {
    HostOf(c, ifaces, bytes).Some? && NadConfig(c, bytes) == Some(Null)
  }

  /** The target phase panics nowhere: no IPv4 pointer is nil, the first definition that the walk fails on does not hold
      null, and all matched manifests have named interfaces. */
  ghost predicate Rewritable(c: Codec, ifaces: seq<NFInterface>, repo: Repo, paths: seq<string>, found: seq<string>)
    requires forall p :: p in paths ==> p in repo
  {
    && (forall i :: 0 <= i < |ifaces| ==> ifaces[i].ipv4.Some?)
    && (var k := Reach(c, ifaces, repo, paths); k < |paths| ==> !HoldsNull(c, ifaces, repo[paths[k]]))
    && (forall p :: p in found ==> p in repo && InterfacesNamed(c, repo[p]))
  }

  lemma NadPanicsExactly(c: Codec, ifaces: seq<NFInterface>, bytes: string)
    ensures NadEdit(c, ifaces, bytes).Panicked? <==> HoldsNull(c, ifaces, bytes)
  {
  }

  lemma NFUpdateOkExactly(c: Codec, ips: NewIPs, bytes: string)
    requires FirstDoc(c, bytes).Some?
    ensures EditFile(c, UpdateNF(ips), bytes).Ok() <==> InterfacesNamed(c, bytes)
    ensures !EditFile(c, UpdateNF(ips), bytes).Broken?
  {
    var interfaces := FirstDoc(c, bytes).value.Get("spec").Get("interfaces");
    if interfaces.List? {
      StrictItemsClosed(interfaces.items, ips);
    }
  }

  /** A visit of the walk leaves the interfaces of a manifest as they are. */
  lemma NadEditKeepsInterfaces(c: Codec, ifaces: seq<NFInterface>, bytes: string)
    requires Lawful(c) && FirstDoc(c, bytes).Some?
    ensures var bytes' := After(bytes, NadEdit(c, ifaces, bytes));
            FirstDoc(c, bytes').Some? && (InterfacesNamed(c, bytes') <==> InterfacesNamed(c, bytes))
  {
    if NadEdit(c, ifaces, bytes).Rewritten? {
      var host := HostOf(c, ifaces, bytes).value;
      OnlyFirstDocumentSurvives(c, UpdateNad(host), bytes);
      var doc := FirstDoc(c, bytes).value;
      assert EditNad(c, doc, host).doc.Get("spec").Get("interfaces") == doc.Get("spec").Get("interfaces");
    }
  }

  /** Where files decode, the loop over the matches either succeeds or panics. */
  lemma {:induction false} FoldNeverFails(c: Codec, ips: NewIPs, repo: Repo, paths: seq<string>)
    requires Lawful(c)
    requires forall p :: p in paths ==> p in repo && FirstDoc(c, repo[p]).Some?
    ensures !Fold(c, UpdateNF(ips), repo, paths).status.Failure?
    decreases |paths|
  {
    if paths == [] {
    } else {
      var first, u := paths[0], UpdateNF(ips);
      NFUpdateOkExactly(c, ips, repo[first]);
      if EditFile(c, u, repo[first]).Rewritten? {
        OnlyFirstDocumentSurvives(c, u, repo[first]);
      }
      FoldNeverFails(c, ips, repo[first := After(repo[first], EditFile(c, u, repo[first]))], paths[1..]);
    }
  }

  /** The matches, after the walk. */
  lemma MatchesAfterWalk(c: Codec, ifaces: seq<NFInterface>, id: ObjectName, repo: Repo, paths: seq<string>,
                         found: seq<string>, ips: NewIPs, done: seq<string>)
    requires Lawful(c) && Enumerates(paths, repo.Keys) && Scan(c, repo, paths, id) == Some(found)
    ensures var mid := NadEdited(c, ifaces, repo, done);
            && (forall p :: p in found ==> p in mid && FirstDoc(c, mid[p]).Some?)
            && (AllOk(c, UpdateNF(ips), mid, found) <==> forall p :: p in found ==> InterfacesNamed(c, repo[p]))
    ensures forall p :: p in found ==> p in repo
  {
    var mid := NadEdited(c, ifaces, repo, done);
    forall p | p in found
      ensures p in repo && p in mid && FirstDoc(c, mid[p]).Some?
      ensures EditFile(c, UpdateNF(ips), mid[p]).Ok() <==> InterfacesNamed(c, repo[p])
    {
      ScanCount(c, repo, paths, id, p);
      ScannedDecodes(c, repo[p], id);
      NadEditKeepsInterfaces(c, ifaces, repo[p]);
      NFUpdateOkExactly(c, ips, mid[p]);
    }
  }

  /** The target phase succeeds if and only if it panics nowhere; it does not fail in another way. */
  lemma RewriteSucceedsExactly(c: Codec, ifaces: seq<NFInterface>, id: ObjectName, repo: Repo, paths: seq<string>,
                               found: seq<string>)
    requires Lawful(c) && AllSingle(c, repo)
    requires Enumerates(paths, repo.Keys) && Scan(c, repo, paths, id) == Some(found)
    ensures var status := RewriteTarget(c, ifaces, repo, paths, found).status;
            && (status.Success? <==> Rewritable(c, ifaces, repo, paths, found))
            && (status.Crash? <==> !Rewritable(c, ifaces, repo, paths, found))
  {
    NewIPsExists(ifaces);
    NadWalkMeaning(c, ifaces, repo, paths);
    var k := Reach(c, ifaces, repo, paths);
    if k < |paths| {
      ReachIsOk(c, ifaces, repo, paths);
      NadPanicsExactly(c, ifaces, repo[paths[k]]);
    }
    if NewIPsOf(ifaces).Some? {
      var ips, mid := NewIPsOf(ifaces).value, NadEdited(c, ifaces, repo, paths[..k]);
      MatchesAfterWalk(c, ifaces, id, repo, paths, found, ips, paths[..k]);
      FoldMeaning(c, UpdateNF(ips), mid, found);
      FoldNeverFails(c, ips, mid, found);
    }
  }

  lemma {:induction false} HostsKeepReadable(c: Codec, hosts: seq<string>, bytes: string)
    requires Lawful(c) && FirstDoc(c, bytes).Some?
    ensures FirstDoc(c, ApplyHosts(c, hosts, bytes).bytes).Some?
    decreases |hosts|
  {
    if hosts == [] {
    } else {
      var e := EditFile(c, UpdateNad(hosts[0]), bytes);
      if e.Rewritten? {
        OnlyFirstDocumentSurvives(c, UpdateNad(hosts[0]), bytes);
      }
      if e.Ok() {
        HostsKeepReadable(c, hosts[1..], After(bytes, e));
      }
    }
  }

  lemma {:induction false} VisitKeepsReadable(c: Codec, ifaces: seq<NFInterface>, docs: seq<Value>, broken: bool,
                                              bytes: string)
    requires Lawful(c) && FirstDoc(c, bytes).Some?
    ensures FirstDoc(c, VisitDocs(c, ifaces, docs, broken, bytes).bytes).Some?
    decreases |docs|
  {
    if docs == [] {
    } else if DecodeHeader(docs[0]).Some? {
      var hosts := HostsOf(ifaces, DecodeHeader(docs[0]).value);
      HostsKeepReadable(c, hosts, bytes);
      VisitKeepsReadable(c, ifaces, docs[1..], broken, ApplyHosts(c, hosts, bytes).bytes);
    }
  }

  lemma {:induction false} WalkKeepsReadable(c: Codec, ifaces: seq<NFInterface>, repo: Repo, paths: seq<string>)
    requires Lawful(c)
    ensures var repo' := WalkNads(c, ifaces, repo, paths).repo;
            && repo'.Keys == repo.Keys
            && forall p :: p in repo && FirstDoc(c, repo[p]).Some? ==> FirstDoc(c, repo'[p]).Some?
    decreases |paths|
  {
    if paths == [] {
    } else {
      var first, rest := paths[0], paths[1..];
      if YamlPath(first) && first in repo {
        var stream := c.yamlDecode(repo[first]);
        var repo' := repo[first := VisitFile(c, ifaces, repo[first]).bytes];
        assert repo'.Keys == repo.Keys;
        if FirstDoc(c, repo[first]).Some? {
          VisitKeepsReadable(c, ifaces, stream.docs, stream.broken, repo[first]);
        }
        WalkKeepsReadable(c, ifaces, repo', rest);
      } else {
        WalkKeepsReadable(c, ifaces, repo, rest);
      }
    }
  }

  /** Over any files that a scan could decode, the target phase succeeds or panics. */
  lemma RewriteNeverFails(c: Codec, ifaces: seq<NFInterface>, id: ObjectName, repo: Repo, paths: seq<string>,
                          found: seq<string>)
    requires Lawful(c) && Enumerates(paths, repo.Keys) && Scan(c, repo, paths, id) == Some(found)
    ensures !RewriteTarget(c, ifaces, repo, paths, found).status.Failure?
  {
    var mid := WalkNads(c, ifaces, repo, paths).repo;
    WalkKeepsReadable(c, ifaces, repo, paths);
    forall p | p in found
      ensures p in mid && FirstDoc(c, mid[p]).Some?
    {
      ScanCount(c, repo, paths, id, p);
      ScannedDecodes(c, repo[p], id);
    }
    if NewIPsOf(ifaces).Some? {
      FoldNeverFails(c, NewIPsOf(ifaces).value, mid, found);
    }
  }

  // --- A new file that the target phase has no business with ---

  /** A document that is no network attachment definition and has no interfaces. */
  predicate Foreign(doc: Value) {
    && doc.Map?
    && DecodeHeader(doc).Some? && !EqualFold(DecodeHeader(doc).value.kind, NAD_KIND)
    && !doc.Get("spec").Get("interfaces").List?
  }

  lemma ForeignFile(c: Codec, ifaces: seq<NFInterface>, ips: NewIPs, id: ObjectName, doc: Value)
    requires Lawful(c) && Foreign(doc)
    ensures var bytes := c.yamlEncode(doc);
            && Single(c, bytes) && ScanFile(c, bytes, id).Some?
            && NadEdit(c, ifaces, bytes) == Untouched && NFSettled(c, ips, bytes)
  {
    assert c.yamlDecode(c.yamlEncode(Map(doc.fields))) == Stream([doc], false);
    assert [doc][1..] == [] && CountNamed([], id) == Some(0);
  }

  /** The walk with the new file passes that file and otherwise gets as far as the walk without it. */
  ghost predicate GetsAsFar(c: Codec, ifaces: seq<NFInterface>, repo: Repo, others: seq<string>, repo': Repo,
                            paths: seq<string>, x: string)
    requires forall p :: p in others ==> p in repo
    requires forall p :: p in paths ==> p in repo'
  {
    var k, k' := Reach(c, ifaces, repo, others), Reach(c, ifaces, repo', paths);
    && (forall p :: p in paths[..k'] ==> p == x || p in others[..k])
    && (k' < |paths| ==> k < |others| && paths[k'] == others[k])
  }

  lemma {:induction false} ReachWithNewFile(c: Codec, ifaces: seq<NFInterface>, repo: Repo, repo': Repo,
                                            paths: seq<string>, x: string)
    requires x in paths && x in repo' && NadEdit(c, ifaces, repo'[x]).Ok() && Distinct(paths)
    requires forall p :: p in paths && p != x ==> p in repo && p in repo' && repo'[p] == repo[p]
    requires forall p :: p in Without(paths, x) ==> p in repo
    ensures GetsAsFar(c, ifaces, repo, Without(paths, x), repo', paths, x)
  {
    var rest := paths[1..];
    if paths[0] == x {
      ReachFrame(c, ifaces, repo, repo', rest);
      GetsPast(c, ifaces, repo, repo', rest, x);
      assert [x] + rest == paths;
    } else {
      assert Without(paths, x) == [paths[0]] + Without(rest, x);
      ReachWithNewFile(c, ifaces, repo, repo', rest, x);
      GetsAsFarCons(c, ifaces, repo, Without(rest, x), repo', rest, x, paths[0]);
      assert [paths[0]] + rest == paths;
    }
  }

  lemma GetsPast(c: Codec, ifaces: seq<NFInterface>, repo: Repo, repo': Repo, rest: seq<string>, x: string)
    requires x in repo' && NadEdit(c, ifaces, repo'[x]).Ok()
    requires forall p :: p in rest ==> p in repo && p in repo'
    requires Reach(c, ifaces, repo', rest) == Reach(c, ifaces, repo, rest)
    ensures GetsAsFar(c, ifaces, repo, rest, repo', [x] + rest, x)
  {
    var k := Reach(c, ifaces, repo, rest);
    assert ([x] + rest)[1..] == rest;
    assert ([x] + rest)[..1 + k] == [x] + rest[..k];
  }

  lemma GetsAsFarCons(c: Codec, ifaces: seq<NFInterface>, repo: Repo, others: seq<string>, repo': Repo,
                      paths: seq<string>, x: string, first: string)
    requires first in repo && first in repo' && repo'[first] == repo[first]
    requires forall p :: p in others ==> p in repo
    requires forall p :: p in paths ==> p in repo'
    requires GetsAsFar(c, ifaces, repo, others, repo', paths, x)
    ensures GetsAsFar(c, ifaces, repo, [first] + others, repo', [first] + paths, x)
  {
    var k, k' := Reach(c, ifaces, repo, others), Reach(c, ifaces, repo', paths);
    assert ([first] + others)[1..] == others && ([first] + paths)[1..] == paths;
    assert ([first] + others)[..1 + k] == [first] + others[..k];
    assert ([first] + paths)[..1 + k'] == [first] + paths[..k'];
  }

  /** A settled tree stays settled when a foreign file joins it, wherever the walk meets that file. */
  lemma SettledWithNewFile(c: Codec, ifaces: seq<NFInterface>, id: ObjectName, repo: Repo, paths: seq<string>,
                           found: seq<string>, repo': Repo, paths': seq<string>, x: string, doc: Value)
    returns (found': seq<string>)
    requires Lawful(c) && Foreign(doc) && x !in repo && repo' == repo[x := c.yamlEncode(doc)]
    requires Enumerates(paths, repo.Keys) && Enumerates(paths', repo'.Keys) && Without(paths', x) == paths
    requires Settled(c, ifaces, id, repo, paths, found)
    ensures Settled(c, ifaces, id, repo', paths', found')
    ensures found != [] ==> found' != []
  {
    var ips := NewIPsOf(ifaces).value;
    ForeignFile(c, ifaces, ips, id, doc);
    ScanWithNewFile(c, repo, repo', paths, paths', id, x);
    found' := Scan(c, repo', paths', id).value;
    MatchesSettledWithNewFile(c, ips, repo, found, repo', found', x);
    ReachWithNewFile(c, ifaces, repo, repo', paths', x);
    NadsSettledWithNewFile(c, ifaces, repo, paths, repo', paths', x);
  }

  lemma MatchesSettledWithNewFile(c: Codec, ips: NewIPs, repo: Repo, found: seq<string>, repo': Repo,
                                  found': seq<string>, x: string)
    requires x !in repo && x in repo' && repo' == repo[x := repo'[x]] && NFSettled(c, ips, repo'[x])
    requires forall p :: p in found ==> p in repo && NFSettled(c, ips, repo[p])
    requires forall p :: p in found' ==> p == x || p in found
    requires forall p :: p in found ==> p in found'
    ensures forall p :: p in found' ==> p in repo' && NFSettled(c, ips, repo'[p])
    ensures found != [] ==> found' != []
  {
    if found != [] {
      assert found[0] in found';
    }
  }

  lemma NadsSettledWithNewFile(c: Codec, ifaces: seq<NFInterface>, repo: Repo, paths: seq<string>, repo': Repo,
                               paths': seq<string>, x: string)
    requires x !in repo && x in repo' && repo' == repo[x := repo'[x]] && NadEdit(c, ifaces, repo'[x]) == Untouched
    requires Enumerates(paths, repo.Keys) && Enumerates(paths', repo'.Keys)
    requires GetsAsFar(c, ifaces, repo, paths, repo', paths', x)
    requires var k := Reach(c, ifaces, repo, paths);
             && (k < |paths| ==> !NadEdit(c, ifaces, repo[paths[k]]).Panicked?)
             && (forall p :: p in paths[..k] && YamlPath(p) ==> NadSettled(c, ifaces, repo[p]))
    ensures var k' := Reach(c, ifaces, repo', paths');
            && (k' < |paths'| ==> !NadEdit(c, ifaces, repo'[paths'[k']]).Panicked?)
            && (forall p :: p in paths'[..k'] && YamlPath(p) ==> NadSettled(c, ifaces, repo'[p]))
  {
    var k, k' := Reach(c, ifaces, repo, paths), Reach(c, ifaces, repo', paths');
    forall p | p in paths'[..k'] && YamlPath(p)
      ensures NadSettled(c, ifaces, repo'[p])
    {
      if p != x {
        assert p in paths[..k] && repo'[p] == repo[p];
      }
    }
  }

  lemma ScanWithNewFile(c: Codec, repo: Repo, repo': Repo, paths: seq<string>, paths': seq<string>, id: ObjectName,
                        x: string)
    requires x !in repo && x in repo' && ScanFile(c, repo'[x], id).Some? && repo' == repo[x := repo'[x]]
    requires Enumerates(paths, repo.Keys) && Enumerates(paths', repo'.Keys)
    requires Scan(c, repo, paths, id).Some?
    ensures Scan(c, repo', paths', id).Some?
    ensures forall p :: p in Scan(c, repo', paths', id).value ==> p == x || p in Scan(c, repo, paths, id).value
    ensures forall p :: p in Scan(c, repo, paths, id).value ==> p in Scan(c, repo', paths', id).value
  {
    ScanSucceeds(c, repo, paths, id);
    ScanSucceeds(c, repo', paths', id);
    forall p
      ensures p != x && p in Scan(c, repo', paths', id).value ==> p in Scan(c, repo, paths, id).value
      ensures p in Scan(c, repo, paths, id).value ==> p in Scan(c, repo', paths', id).value
    {
      ScanCount(c, repo, paths, id, p);
      ScanCount(c, repo', paths', id, p);
      assert p != x ==> Matching(c, repo', p, id) == Matching(c, repo, p, id);
    }
  }

  /** Re-run is a fixpoint: on a clone of the tree that a successful target phase produced, matching finds the same
      list and rewriting changes nothing. */
  lemma RerunIsFixpoint(c: Codec, ifaces: seq<NFInterface>, id: ObjectName, repo: Repo, paths: seq<string>,
                        found: seq<string>)
    requires Lawful(c) && AllSingle(c, repo)
    requires Enumerates(paths, repo.Keys)
    requires Scan(c, repo, paths, id) == Some(found)
    requires RewriteTarget(c, ifaces, repo, paths, found).status.Success?
    ensures var repo' := RewriteTarget(c, ifaces, repo, paths, found).repo;
            && Scan(c, repo', paths, id) == Some(found)
            && RewriteTarget(c, ifaces, repo', paths, found) == Tree(repo', Success)
  {
    TargetSettles(c, ifaces, id, repo, paths, found);
    SettledMeansUnchanged(c, ifaces, id, RewriteTarget(c, ifaces, repo, paths, found).repo, paths, found);
  }
}
