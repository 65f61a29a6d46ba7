/** Visiting files of any number of documents twice: exactly when the second walk over network attachment definitions
    finds nothing left to change. */
module Revisits {
  import opened Documents
  import opened Rewrites
  import opened Files
  import opened Repos
  import opened Api

  /** All hosts that the documents of a file ask for, up to the first whose header does not decode. */
  function HostsAsked(ifaces: seq<NFInterface>, docs: seq<Value>): seq<string> {
    if docs == [] || DecodeHeader(docs[0]).None? then []
    else HostsOf(ifaces, DecodeHeader(docs[0]).value) + HostsAsked(ifaces, docs[1..])
  }

  /** The edit that a whole list of hosts comes to: that of the last one. */
  function LastEdit(c: Codec, hosts: seq<string>, bytes: string): FileEdit {
    if hosts == [] then Untouched else EditFile(c, UpdateNad(hosts[|hosts| - 1]), bytes)
  }

  /** One list of hosts after another, the second being applied to what the first leaves. */
  lemma LastEditConcat(c: Codec, a: seq<string>, b: seq<string>, bytes: string)
    requires Lawful(c)
    ensures var mid := After(bytes, LastEdit(c, a, bytes));
            if LastEdit(c, a, bytes).Ok()
            then After(mid, LastEdit(c, b, mid)) == After(bytes, LastEdit(c, a + b, bytes))
            else After(bytes, LastEdit(c, a + b, bytes)) == bytes
  {
    if b == [] {
      assert a + b == a;
    } else if a == [] {
      assert a + b == b;
    } else {
      assert (a + b)[|a + b| - 1] == b[|b| - 1];
      ComposeFile(c, UpdateNad(a[|a| - 1]), UpdateNad(b[|b| - 1]), bytes);
      ComposeFile(c, UpdateNad(b[|b| - 1]), UpdateNad(a[|a| - 1]), bytes);
    }
  }

  /** However many documents a file has and however they decode, a visit leaves what the update with the last host
      asked for makes of the first of them. */
  lemma {:induction false} VisitMeaning(c: Codec, ifaces: seq<NFInterface>, docs: seq<Value>, broken: bool,
                                        bytes: string)
    requires Lawful(c)
    ensures VisitDocs(c, ifaces, docs, broken, bytes).bytes ==
            After(bytes, LastEdit(c, HostsAsked(ifaces, docs), bytes))
    decreases |docs|
  {
    if docs == [] || DecodeHeader(docs[0]).None? {
    } else {
      var hosts := HostsOf(ifaces, DecodeHeader(docs[0]).value);
      var v := ApplyHosts(c, hosts, bytes);
      if hosts == [] {
        assert v == Visit(bytes, 0, Success);
      } else {
        ApplyHostsMeaning(c, hosts, bytes);
      }
      LastEditConcat(c, hosts, HostsAsked(ifaces, docs[1..]), bytes);
      if v.status.Success? {
        VisitMeaning(c, ifaces, docs[1..], broken, v.bytes);
      }
    }
  }

  /** What a second visit does to a rewritten file: one document is left, and it gets its own host. */
  lemma SecondVisit(c: Codec, ifaces: seq<NFInterface>, host: string, bytes: string)
    requires Lawful(c) && EditFile(c, UpdateNad(host), bytes).Rewritten? && c.yamlDecode(bytes).docs != []
    ensures var once := EditFile(c, UpdateNad(host), bytes).bytes;
            && (DecodeHeader(c.yamlDecode(bytes).docs[0]).Some? ==> VisitFile(c, ifaces, once).status.Success?)
            && match HostOf(c, ifaces, bytes)
               case None => VisitFile(c, ifaces, once).bytes == once
               case Some(own) =>
                 && EditFile(c, UpdateNad(own), once).Rewritten?
                 && VisitFile(c, ifaces, once).bytes == EditFile(c, UpdateNad(own), once).bytes
  {
    var u := UpdateNad(host);
    var once := EditFile(c, u, bytes).bytes;
    OnlyFirstDocumentSurvives(c, u, bytes);
    EditKeepsHeader(c, u, c.yamlDecode(bytes).docs[0]);
    VisitSingle(c, ifaces, once);
    if HostOf(c, ifaces, bytes).Some? {
      var own := UpdateNad(HostOf(c, ifaces, bytes).value);
      ComposeFile(c, u, own, bytes);
      ComposeFile(c, own, u, bytes);
    }
  }

  // --- Exactly when the walk succeeds ---

  /** A header that the walk can decode. */
  predicate HeaderReadable(doc: Value) {
    Readable(doc) && IsText(doc.Get("kind")) && IsText(doc.Get("apiVersion"))
  }

  predicate IsNad(doc: Value) {
    var kind := doc.Get("kind");
    (kind.Str? || kind.Scalar?) && EqualFold(kind.text, NAD_KIND)
  }

  /** Some interface names the definition in the document. */
  predicate IsAskedFor(ifaces: seq<NFInterface>, doc: Value) {
    IsNad(doc) &&
    exists i :: 0 <= i < |ifaces| && NamesObject(doc, ObjectName(ifaces[i].nameNad, ifaces[i].namespaceNad))
  }

  predicate FileHoldsObject(c: Codec, bytes: string) {
    FirstDoc(c, bytes).Some? && HoldsObject(c, FirstDoc(c, bytes).value)
  }

  lemma HostsOfMeaning(ifaces: seq<NFInterface>, doc: Value)
    requires DecodeHeader(doc).Some?
    ensures HostsOf(ifaces, DecodeHeader(doc).value) != [] <==> IsAskedFor(ifaces, doc)
  {
    var h := DecodeHeader(doc).value;
    DecodeHeaderExactly(doc, h.kind, h.id);
    HostsForMeaning(ifaces, h.id);
    forall i | 0 <= i < |ifaces|
      ensures NamesObject(doc, ObjectName(ifaces[i].nameNad, ifaces[i].namespaceNad)) <==>
              ifaces[i].nameNad == h.id.name && ifaces[i].namespaceNad == h.id.namespace
    {
    }
    assert IsNad(doc) <==> EqualFold(h.kind, NAD_KIND);
  }

  /** Whether an update of the file succeeds does not depend on the host, and is the same after it. */
  lemma NadUpdateExactly(c: Codec, host: string, bytes: string)
    requires Lawful(c)
    ensures EditFile(c, UpdateNad(host), bytes).Ok() <==> FileHoldsObject(c, bytes)
    ensures FileHoldsObject(c, bytes) ==> FileHoldsObject(c, After(bytes, EditFile(c, UpdateNad(host), bytes)))
  {
    if FirstDoc(c, bytes).Some? {
      var doc := FirstDoc(c, bytes).value;
      EditNadExactly(c, doc, host);
      if HoldsObject(c, doc) {
        OnlyFirstDocumentSurvives(c, UpdateNad(host), bytes);
        FrameNad(c, doc, host, []);
      }
    }
  }

  lemma HostsApplied(c: Codec, hosts: seq<string>, bytes: string)
    requires Lawful(c)
    ensures var v := ApplyHosts(c, hosts, bytes);
            && (v.status.Success? <==> (hosts != [] ==> FileHoldsObject(c, bytes)))
            && (FileHoldsObject(c, bytes) ==> FileHoldsObject(c, v.bytes))
            && (hosts == [] ==> v.bytes == bytes)
  {
    if hosts != [] {
      ApplyHostsMeaning(c, hosts, bytes);
      NadUpdateExactly(c, hosts[|hosts| - 1], bytes);
    }
  }

  lemma {:induction false} VisitStatus(c: Codec, ifaces: seq<NFInterface>, docs: seq<Value>, broken: bool,
                                       bytes: string)
    requires Lawful(c)
    ensures VisitDocs(c, ifaces, docs, broken, bytes).status.Success? <==>
            && !broken && (forall i :: 0 <= i < |docs| ==> HeaderReadable(docs[i]))
            && ((exists i :: 0 <= i < |docs| && IsAskedFor(ifaces, docs[i])) ==> FileHoldsObject(c, bytes))
    decreases |docs|
  {
    if docs == [] {
    } else {
      DecodeHeaderExactly(docs[0], "", ObjectName("", ""));
      assert forall i :: 1 <= i < |docs| ==> docs[i] == docs[1..][i - 1];
      if DecodeHeader(docs[0]).None? {
        assert !HeaderReadable(docs[0]);
      } else {
        var hosts := HostsOf(ifaces, DecodeHeader(docs[0]).value);
        HostsOfMeaning(ifaces, docs[0]);
        HostsApplied(c, hosts, bytes);
        VisitStatus(c, ifaces, docs[1..], broken, ApplyHosts(c, hosts, bytes).bytes);
        VisitStatusStep(c, ifaces, docs, ApplyHosts(c, hosts, bytes).bytes, bytes);
      }
    }
  }

  lemma VisitStatusStep(c: Codec, ifaces: seq<NFInterface>, docs: seq<Value>, bytes': string, bytes: string)
    requires docs != []
    requires FileHoldsObject(c, bytes) ==> FileHoldsObject(c, bytes')
    requires !IsAskedFor(ifaces, docs[0]) ==> bytes' == bytes
    ensures (exists i :: 0 <= i < |docs| && IsAskedFor(ifaces, docs[i])) <==>
            IsAskedFor(ifaces, docs[0]) || exists i :: 0 <= i < |docs[1..]| && IsAskedFor(ifaces, docs[1..][i])
    ensures (forall i :: 0 <= i < |docs| ==> HeaderReadable(docs[i])) <==>
            HeaderReadable(docs[0]) && forall i :: 0 <= i < |docs[1..]| ==> HeaderReadable(docs[1..][i])
  {
    assert forall i :: 1 <= i < |docs| ==> docs[i] == docs[1..][i - 1];
    assert forall i :: 0 <= i < |docs[1..]| ==> docs[1..][i] == docs[i + 1];
  }

  /** What the walk needs of a file: every header decodes to the end of the file, and if any of its documents is a
      definition that some interface names, the first document holds a JSON object as its configuration. */
  predicate Visitable(c: Codec, ifaces: seq<NFInterface>, bytes: string) {
    var stream := c.yamlDecode(bytes);
    && !stream.broken && (forall i :: 0 <= i < |stream.docs| ==> HeaderReadable(stream.docs[i]))
    && ((exists i :: 0 <= i < |stream.docs| && IsAskedFor(ifaces, stream.docs[i])) ==> FileHoldsObject(c, bytes))
  }

  /** The walk succeeds if and only if it can visit every YAML file. */
  lemma WalkSucceedsExactly(c: Codec, ifaces: seq<NFInterface>, repo: Repo, paths: seq<string>)
    requires Lawful(c) && Distinct(paths) && forall p :: p in paths ==> p in repo
    ensures WalkNads(c, ifaces, repo, paths).status.Success? <==>
            forall p :: p in paths && HasYamlEnding(p) ==> Visitable(c, ifaces, repo[p])
  {
    WalkMeaning(c, ifaces, repo, paths);
    ReachesTheEnd(c, ifaces, repo, paths);
    forall p | p in paths
      ensures YamlPath(p) <==> HasYamlEnding(p)
      ensures VisitFile(c, ifaces, repo[p]).status.Success? <==> Visitable(c, ifaces, repo[p])
    {
      YamlPathExactly(p);
      VisitStatus(c, ifaces, c.yamlDecode(repo[p]).docs, c.yamlDecode(repo[p]).broken, repo[p]);
    }
  }

  /** After a successful walk over any files, a definition that is alone in its file has the host of the last interface
      with its name and namespace; the other settings of its configuration are kept. */
  lemma NadGetsLastHost(c: Codec, ifaces: seq<NFInterface>, repo: Repo, paths: seq<string>, p: string, doc: Value,
                        id: ObjectName, i: nat)
    requires Lawful(c) && Enumerates(paths, repo.Keys) && WalkNads(c, ifaces, repo, paths).status.Success?
    requires p in repo && HasYamlEnding(p) && c.yamlDecode(repo[p]) == Stream([doc], false)
    requires IsNad(doc) && NamesObject(doc, id) && LastNaming(ifaces, id, i)
    ensures var repo' := WalkNads(c, ifaces, repo, paths).repo;
            && HoldsObject(c, doc) && p in repo'
            && NadConfig(c, repo'[p]) ==
               Some(c.jsonDecode(doc.Get("spec").Get("config").text).value.With("master", Str(ifaces[i].hostInterface)))
  {
    WalkSucceedsExactly(c, ifaces, repo, paths);
    WalkMeaning(c, ifaces, repo, paths);
    ReachesTheEnd(c, ifaces, repo, paths);
    YamlPathExactly(p);
    assert IsAskedFor(ifaces, doc) && HeaderReadable(doc);
    AloneInItsFile(c, ifaces, repo[p], doc, id, i);
    NadUpdateExactly(c, ifaces[i].hostInterface, repo[p]);
    NadEditMaster(c, ifaces[i].hostInterface, repo[p]);
  }

  lemma AloneInItsFile(c: Codec, ifaces: seq<NFInterface>, bytes: string, doc: Value, id: ObjectName, i: nat)
    requires Lawful(c) && c.yamlDecode(bytes) == Stream([doc], false)
    requires HeaderReadable(doc) && IsNad(doc) && NamesObject(doc, id) && LastNaming(ifaces, id, i)
    ensures VisitFile(c, ifaces, bytes).bytes ==
            After(bytes, EditFile(c, UpdateNad(ifaces[i].hostInterface), bytes))
  {
    DecodeHeaderExactly(doc, doc.Get("kind").text, id);
    LastHostMeaning(ifaces, id, i);
    LastHostIsLast(ifaces, id);
    VisitMeaning(c, ifaces, [doc], false, bytes);
    assert [doc][1..] == [] && HostsAsked(ifaces, [doc]) == HostsFor(ifaces, id) + [] == HostsFor(ifaces, id);
  }

  /** No host is asked for, or the first document cannot take one, or the last host asked for is what the first
      document asks for itself, if it asks at all. */
  predicate VisitedForGood(c: Codec, ifaces: seq<NFInterface>, bytes: string) {
    var hosts := HostsAsked(ifaces, c.yamlDecode(bytes).docs);
    var own := HostOf(c, ifaces, bytes);
    !LastEdit(c, hosts, bytes).Rewritten? || own.None? || own == Some(hosts[|hosts| - 1])
  }

  /** Visiting twice, for any file at all: exactly when it is visiting once; a visit that succeeds succeeds again. */
  lemma VisitTwiceExactly(c: Codec, ifaces: seq<NFInterface>, bytes: string)
    requires Lawful(c)
    ensures var once := VisitFile(c, ifaces, bytes);
            var twice := VisitFile(c, ifaces, once.bytes);
            && (twice.bytes == once.bytes <==> VisitedForGood(c, ifaces, bytes))
            && (once.status.Success? ==> twice.status.Success?)
  {
    var stream := c.yamlDecode(bytes);
    var hosts := HostsAsked(ifaces, stream.docs);
    VisitMeaning(c, ifaces, stream.docs, stream.broken, bytes);
    if LastEdit(c, hosts, bytes).Rewritten? {
      var last := hosts[|hosts| - 1];
      SecondVisit(c, ifaces, last, bytes);
      if HostOf(c, ifaces, bytes).Some? {
        HostsDiffer(c, last, HostOf(c, ifaces, bytes).value, bytes);
      }
    }
  }

  /** Giving a definition another host changes the file. */
  lemma HostsDiffer(c: Codec, host: string, other: string, bytes: string)
    requires Lawful(c) && EditFile(c, UpdateNad(host), bytes).Rewritten?
    ensures var bytes' := EditFile(c, UpdateNad(host), bytes).bytes;
            && NadConfig(c, bytes').Some? && NadConfig(c, bytes').value.Get("master") == Str(host)
            && EditFile(c, UpdateNad(other), bytes').Rewritten?
            && (EditFile(c, UpdateNad(other), bytes').bytes == bytes' <==> other == host)
  {
    var bytes' := EditFile(c, UpdateNad(host), bytes).bytes;
    ComposeFile(c, UpdateNad(host), UpdateNad(other), bytes);
    ComposeFile(c, UpdateNad(other), UpdateNad(host), bytes);
    IdempotentFile(c, UpdateNad(host), bytes);
    NadEditMaster(c, host, bytes);
    NadEditMaster(c, other, bytes');
  }

  /** Files of one document at most are visited for good: the last host asked for is the first document's own. */
  lemma SingleIsVisitedForGood(c: Codec, ifaces: seq<NFInterface>, bytes: string)
    requires Single(c, bytes)
    ensures VisitedForGood(c, ifaces, bytes)
  {
    var docs := c.yamlDecode(bytes).docs;
    if docs != [] && DecodeHeader(docs[0]).Some? {
      var h := DecodeHeader(docs[0]).value;
      LastHostIsLast(ifaces, h.id);
      assert docs[1..] == [] && HostsAsked(ifaces, docs) == HostsOf(ifaces, h) + [] == HostsOf(ifaces, h);
    }
  }

  ghost predicate VisitsSucceed(c: Codec, ifaces: seq<NFInterface>, repo: Repo, paths: seq<string>) {
    forall p :: p in paths && YamlPath(p) ==> p in repo && VisitFile(c, ifaces, repo[p]).status.Success?
  }

  /** The walk gets to its end exactly when every visit succeeds. */
  lemma {:induction false} ReachesTheEnd(c: Codec, ifaces: seq<NFInterface>, repo: Repo, paths: seq<string>)
    requires forall p :: p in paths ==> p in repo
    ensures VisitReach(c, ifaces, repo, paths) == |paths| <==> VisitsSucceed(c, ifaces, repo, paths)
  {
    if paths == [] {
    } else {
      ReachesTheEnd(c, ifaces, repo, paths[1..]);
      assert forall p :: p in paths <==> p == paths[0] || p in paths[1..];
    }
  }

  /** Walking twice, whatever the files hold: after a walk that succeeds another one succeeds too, and it changes
      nothing exactly when every YAML file was visited for good. */
  lemma WalkTwiceExactly(c: Codec, ifaces: seq<NFInterface>, repo: Repo, paths: seq<string>)
    requires Lawful(c) && Enumerates(paths, repo.Keys)
    requires WalkNads(c, ifaces, repo, paths).status.Success?
    ensures var once := WalkNads(c, ifaces, repo, paths).repo;
            && WalkNads(c, ifaces, once, paths).status.Success?
            && (WalkNads(c, ifaces, once, paths).repo == once <==>
                  forall p :: p in repo && YamlPath(p) ==> VisitedForGood(c, ifaces, repo[p]))
  {
    WalkMeaning(c, ifaces, repo, paths);
    ReachesTheEnd(c, ifaces, repo, paths);
    var once := AllVisited(c, ifaces, repo, paths);
    VisitedTwice(c, ifaces, repo, paths);
    WalkMeaning(c, ifaces, once, paths);
    ReachesTheEnd(c, ifaces, once, paths);
  }

  lemma VisitedTwice(c: Codec, ifaces: seq<NFInterface>, repo: Repo, paths: seq<string>)
    requires Lawful(c) && Enumerates(paths, repo.Keys) && VisitsSucceed(c, ifaces, repo, paths)
    ensures var once := AllVisited(c, ifaces, repo, paths);
            && VisitsSucceed(c, ifaces, once, paths)
            && (AllVisited(c, ifaces, once, paths) == once <==>
                  forall p :: p in repo && YamlPath(p) ==> VisitedForGood(c, ifaces, repo[p]))
  {
    var once := AllVisited(c, ifaces, repo, paths);
    var twice := AllVisited(c, ifaces, once, paths);
    forall p | p in repo && YamlPath(p)
      ensures VisitFile(c, ifaces, once[p]).status.Success?
      ensures twice[p] == once[p] <==> VisitedForGood(c, ifaces, repo[p])
    {
      assert p in paths;
      VisitTwiceExactly(c, ifaces, repo[p]);
    }
    assert twice == once <==> forall p :: p in repo ==> twice[p] == once[p];
  }

  /** A file of two documents, both definitions that some interface names, the first with an object as its
      configuration. */
  ghost predicate TwoNads(c: Codec, ifaces: seq<NFInterface>, bytes: string, first: Value, second: Value) {
    && c.yamlDecode(bytes) == Stream([first, second], false)
    && IsNamedNad(ifaces, first) && IsNamedNad(ifaces, second)
    && EditNad(c, first, "").Write?
  }

  predicate IsNamedNad(ifaces: seq<NFInterface>, doc: Value) {
    && DecodeHeader(doc).Some? && EqualFold(DecodeHeader(doc).value.kind, NAD_KIND)
    && LastHost(ifaces, DecodeHeader(doc).value.id).Some?
  }

  function HostFor(ifaces: seq<NFInterface>, doc: Value): string
    requires IsNamedNad(ifaces, doc)
  {
    LastHost(ifaces, DecodeHeader(doc).value.id).value
  }

  lemma TwoNadsAsk(ifaces: seq<NFInterface>, first: Value, second: Value)
    requires IsNamedNad(ifaces, first) && IsNamedNad(ifaces, second)
    ensures var hosts := HostsAsked(ifaces, [first, second]);
            hosts != [] && hosts[|hosts| - 1] == HostFor(ifaces, second)
  {
    var a, b := HostsOf(ifaces, DecodeHeader(first).value), HostsOf(ifaces, DecodeHeader(second).value);
    LastHostIsLast(ifaces, DecodeHeader(second).value.id);
    assert [first, second][1..] == [second] && [second][1..] == [];
    assert HostsAsked(ifaces, [second]) == b + HostsAsked(ifaces, []) == b;
    assert HostsAsked(ifaces, [first, second]) == a + b;
  }

  lemma AnyHostIsWritten(c: Codec, doc: Value, host: string)
    requires Lawful(c) && EditNad(c, doc, "").Write?
    ensures EditNad(c, doc, host).Write?
  {
    ComposeNad(c, doc, "", host);
  }

  lemma TwoNadsEdit(c: Codec, ifaces: seq<NFInterface>, bytes: string, first: Value, second: Value)
    requires Lawful(c) && TwoNads(c, ifaces, bytes, first, second)
    ensures var hosts := HostsAsked(ifaces, c.yamlDecode(bytes).docs);
            && hosts != [] && hosts[|hosts| - 1] == HostFor(ifaces, second)
            && LastEdit(c, hosts, bytes).Rewritten?
            && HostOf(c, ifaces, bytes) == Some(HostFor(ifaces, first))
  {
    TwoNadsAsk(ifaces, first, second);
    AnyHostIsWritten(c, first, HostFor(ifaces, second));
  }

  /** For two definitions: the updates meant for either one all go to the first document and cut the file down to it,
      so the next run gives it back the host of its own interface. */
  lemma TwoDocumentsAreNotAFixpoint(c: Codec, ifaces: seq<NFInterface>, bytes: string, first: Value, second: Value)
    requires Lawful(c) && TwoNads(c, ifaces, bytes, first, second)
    ensures var once := VisitFile(c, ifaces, bytes).bytes;
            var twice := VisitFile(c, ifaces, once).bytes;
            && NadConfig(c, once).Some? && NadConfig(c, once).value.Get("master") == Str(HostFor(ifaces, second))
            && NadConfig(c, twice).Some? && NadConfig(c, twice).value.Get("master") == Str(HostFor(ifaces, first))
            && (twice == once <==> HostFor(ifaces, first) == HostFor(ifaces, second))
  {
    TwoNadsEdit(c, ifaces, bytes, first, second);
    var a, b := HostFor(ifaces, first), HostFor(ifaces, second);
    VisitMeaning(c, ifaces, c.yamlDecode(bytes).docs, false, bytes);
    SecondVisit(c, ifaces, b, bytes);
    HostsDiffer(c, b, a, bytes);
    HostsDiffer(c, a, b, EditFile(c, UpdateNad(b), bytes).bytes);
  }
}
