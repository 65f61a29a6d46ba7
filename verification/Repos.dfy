/** A cloned repository: matching manifests, the NAD walk, and folding an updater over the matches. */
module Repos {
  import opened Documents
  import opened Rewrites
  import opened Files
  import opened Api

  /** Contents by path. */
  type Repo = map<string, string>

  datatype Status = Success | Failure | Crash

  function StatusOf(e: FileEdit): Status {
    if e.Ok() then Success else if e.Broken? then Failure else Crash
  }

  predicate Distinct(paths: seq<string>) {
    forall i, j :: 0 <= i < j < |paths| ==> paths[i] != paths[j]
  }

  /** A directory walk lists every file once. */
  predicate Enumerates(paths: seq<string>, files: set<string>) {
    Distinct(paths) && (forall p :: p in paths ==> p in files) && (forall p :: p in files ==> p in paths)
  }

  /** The list without the first occurrence of `p`. */
  function Without(paths: seq<string>, p: string): seq<string> {
    if paths == [] then []
    else if paths[0] == p then paths[1..]
    else [paths[0]] + Without(paths[1..], p)
  }

  // --- Which files are walked ---

  /** The file name extension with its dot, of the last path element. */
  function Ext(path: string): string {
    if path == "" then ""
    else
      var n := |path| - 1;
      if path[n] == '/' then ""
      else if path[n] == '.' then "."
      else
        var e := Ext(path[..n]);
        if e == "" then "" else e + [path[n]]
  }

  function LowerChar(ch: char): char {
    if 'A' <= ch <= 'Z' then ch - 'A' + 'a' else ch
  }

  function Lower(s: string): string {
    seq(|s|, i requires 0 <= i < |s| => LowerChar(s[i]))
  }

  predicate YamlPath(path: string) {
    Lower(Ext(path)) == ".yaml" || Lower(Ext(path)) == ".yml"
  }

  predicate EndsWith(s: string, ending: string) {
    |s| >= |ending| && s[|s| - |ending|..] == ending
  }

  /** The path ends in `.yaml` or `.yml`, in letters of any case. */
  predicate HasYamlEnding(path: string) {
    EndsWith(Lower(path), ".yaml") || EndsWith(Lower(path), ".yml")
  }

  predicate Marks(ch: char) {
    ch == '.' || ch == '/'
  }

  /** Where the extension begins: at a dot with neither dot nor slash behind it, or at the end of a path that has no dot
      behind its last slash. */
  ghost predicate ExtBegins(path: string, k: nat, slash: nat) {
    && k <= |path| && slash <= |path|
    && (k < |path| ==> path[k] == '.' && forall i :: k < i < |path| ==> !Marks(path[i]))
    && (k == |path| ==> (slash > 0 ==> path[slash - 1] == '/') && forall i :: slash <= i < |path| ==> path[i] != '.')
  }

  lemma {:induction false} ExtMeaning(path: string) returns (k: nat, slash: nat)
    ensures ExtBegins(path, k, slash) && Ext(path) == path[k..]
    decreases |path|
  {
    k, slash := |path|, |path|;
    if path != "" {
      var n := |path| - 1;
      if path[n] == '.' {
        k := n;
      } else if path[n] != '/' {
        var front := path[..n];
        k, slash := ExtMeaning(front);
        if k == n {
          k := |path|;
        } else {
          assert path[k..] == front[k..] + [path[n]];
        }
      }
    }
  }

  /** Where an ending that is an extension begins, the extension does. */
  lemma EndsAtExt(path: string, ending: string, k: nat, slash: nat)
    requires ExtBegins(path, k, slash) && EndsWith(Lower(path), ending)
    requires ending != "" && ending[0] == '.' && forall i :: 1 <= i < |ending| ==> !Marks(ending[i])
    ensures k == |path| - |ending|
  {
    var low, q := Lower(path), |path| - |ending|;
    forall i | q <= i < |path|
      ensures LowerChar(path[i]) == ending[i - q]
    {
      assert low[i] == low[q..][i - q];
    }
    assert path[q] == '.';
    forall i | q < i < |path|
      ensures !Marks(path[i])
    {
      assert !Marks(ending[i - q]);
    }
  }

  lemma ExtIs(path: string, ending: string)
    requires ending != "" && ending[0] == '.' && forall i :: 1 <= i < |ending| ==> !Marks(ending[i])
    ensures Lower(Ext(path)) == ending <==> EndsWith(Lower(path), ending)
  {
    var k, slash := ExtMeaning(path);
    assert Lower(path[k..]) == Lower(path)[k..];
    if EndsWith(Lower(path), ending) {
      EndsAtExt(path, ending, k, slash);
    }
  }

  lemma YamlPathExactly(path: string)
    ensures YamlPath(path) <==> HasYamlEnding(path)
  {
    ExtIs(path, ".yaml");
    ExtIs(path, ".yml");
  }

  // --- Matching by name and namespace ---

  /** How many documents carry the name; None is a decode error. */
  function CountNamed(docs: seq<Value>, id: ObjectName): Option<nat> {
    if docs == [] then Some(0)
    else match (DecodeName(docs[0]), CountNamed(docs[1..], id))
      case (Some(name), Some(n)) => Some((if name == id then 1 else 0) + n)
      case _ => None
  }

  function ScanFile(c: Codec, bytes: string, id: ObjectName): Option<nat> {
    var stream := c.yamlDecode(bytes);
    if stream.broken then None else CountNamed(stream.docs, id)
  }

  /** A file that a scan decodes has a first document, if perhaps an empty one. */
  lemma ScannedDecodes(c: Codec, bytes: string, id: ObjectName)
    requires ScanFile(c, bytes, id).Some?
    ensures FirstDoc(c, bytes).Some?
  {
  }

  function Repeat(path: string, n: nat): seq<string> {
    seq(n, _ => path)
  }

  /** The matching loop after the clone; None is an error. */
  function Scan(c: Codec, repo: Repo, paths: seq<string>, id: ObjectName): Option<seq<string>> {
    if paths == [] then Some([])
    else if !YamlPath(paths[0]) then Scan(c, repo, paths[1..], id)
    else if paths[0] !in repo then None
    else match ScanFile(c, repo[paths[0]], id)
      case None => None
      case Some(n) =>
        match Scan(c, repo, paths[1..], id)
        case None => None
        case Some(rest) => Some(Repeat(paths[0], n) + rest)
  }

  /** The number of documents of a file that carry the name. */
  function Matching(c: Codec, repo: Repo, path: string, id: ObjectName): nat {
    if path in repo && YamlPath(path) && ScanFile(c, repo[path], id).Some?
    then ScanFile(c, repo[path], id).value else 0
  }

  function IndexIn(paths: seq<string>, p: string): nat
    requires p in paths
  {
    if paths[0] == p then 0 else 1 + IndexIn(paths[1..], p)
  }

  lemma RepeatCount(path: string, n: nat, p: string)
    ensures multiset(Repeat(path, n))[p] == if p == path then n else 0
  {
    if n == 0 {
    } else {
      RepeatCount(path, n - 1, p);
      assert Repeat(path, n) == Repeat(path, n - 1) + [path];
    }
  }

  /** A scan fails exactly when some YAML file does not decode to its end. */
  lemma {:induction false} ScanSucceeds(c: Codec, repo: Repo, paths: seq<string>, id: ObjectName)
    requires forall p :: p in paths ==> p in repo
    ensures Scan(c, repo, paths, id).Some? <==>
            forall p :: p in paths && YamlPath(p) ==> ScanFile(c, repo[p], id).Some?
  {
    if paths == [] {
    } else {
      ScanSucceeds(c, repo, paths[1..], id);
      assert forall p :: p in paths <==> p == paths[0] || p in paths[1..];
    }
  }

  /** A scan lists every path once per matching document. */
  lemma {:induction false} ScanCount(c: Codec, repo: Repo, paths: seq<string>, id: ObjectName, p: string)
    requires Distinct(paths)
    requires Scan(c, repo, paths, id).Some?
    ensures multiset(Scan(c, repo, paths, id).value)[p] == if p in paths then Matching(c, repo, p, id) else 0
  {
    if paths == [] {
    } else {
      var first, rest := paths[0], paths[1..];
      assert p in paths <==> p == first || p in rest;
      assert first !in rest;
      ScanCount(c, repo, rest, id, p);
      if YamlPath(first) {
        RepeatCount(first, ScanFile(c, repo[first], id).value, p);
      }
    }
  }

  lemma {:induction false} CountNamedSnoc(docs: seq<Value>, doc: Value, id: ObjectName)
    ensures CountNamed(docs + [doc], id) ==
            match (CountNamed(docs, id), DecodeName(doc))
            case (Some(n), Some(name)) => Some(n + if name == id then 1 else 0)
            case _ => None
  {
    if docs == [] {
      assert [] + [doc] == [doc] && [doc][1..] == [];
    } else {
      assert (docs + [doc])[1..] == docs[1..] + [doc];
      CountNamedSnoc(docs[1..], doc, id);
    }
  }

  /** The positions of the documents whose metadata carries the name. */
  function Positions(docs: seq<Value>, id: ObjectName): set<int> {
    set i | 0 <= i < |docs| && NamesObject(docs[i], id)
  }

  /** Counting fails exactly when some document cannot be decoded, and otherwise counts the documents whose metadata has
      the two texts. */
  lemma {:induction false} CountNamedMeaning(docs: seq<Value>, id: ObjectName)
    ensures CountNamed(docs, id).Some? <==> forall i :: 0 <= i < |docs| ==> Readable(docs[i])
    ensures CountNamed(docs, id).Some? ==> CountNamed(docs, id).value == |Positions(docs, id)|
    decreases |docs|
  {
    if docs == [] {
      assert Positions(docs, id) == {};
    } else {
      var n := |docs| - 1;
      var front, last := docs[..n], docs[n];
      assert docs == front + [last];
      CountNamedMeaning(front, id);
      CountNamedSnoc(front, last, id);
      DecodeNameExactly(last, id);
      assert Positions(docs, id) == Positions(front, id) + if NamesObject(last, id) then {n} else {};
    }
  }

  /** A file that the matchers can decode to its end. */
  predicate Decodes(c: Codec, bytes: string) {
    var stream := c.yamlDecode(bytes);
    !stream.broken && forall i :: 0 <= i < |stream.docs| ==> Readable(stream.docs[i])
  }

  /** What matching finds, in terms of the repository alone: it fails exactly when some YAML file cannot be decoded to
      its end, and otherwise lists every YAML file once for each document whose `metadata.name` and
      `metadata.namespace` have the wanted texts, and nothing else. */
  lemma ScanMeaning(c: Codec, repo: Repo, paths: seq<string>, id: ObjectName, p: string)
    requires Distinct(paths) && forall q :: q in paths ==> q in repo
    ensures Scan(c, repo, paths, id).Some? <==> forall q :: q in paths && HasYamlEnding(q) ==> Decodes(c, repo[q])
    ensures Scan(c, repo, paths, id).Some? ==>
              multiset(Scan(c, repo, paths, id).value)[p] ==
              if p in paths && HasYamlEnding(p) then |Positions(c.yamlDecode(repo[p]).docs, id)| else 0
  {
    ScanSucceeds(c, repo, paths, id);
    forall q | q in paths
      ensures YamlPath(q) <==> HasYamlEnding(q)
      ensures ScanFile(c, repo[q], id).Some? <==> Decodes(c, repo[q])
    {
      YamlPathExactly(q);
      CountNamedMeaning(c.yamlDecode(repo[q]).docs, id);
    }
    if Scan(c, repo, paths, id).Some? {
      ScanCount(c, repo, paths, id, p);
      if p in paths {
        CountNamedMeaning(c.yamlDecode(repo[p]).docs, id);
      }
    }
  }

  /** A scan lists paths in walk order. */
  lemma {:induction false} ScanOrder(c: Codec, repo: Repo, paths: seq<string>, id: ObjectName, i: nat, j: nat)
    requires Distinct(paths)
    requires Scan(c, repo, paths, id).Some?
    requires i <= j < |Scan(c, repo, paths, id).value|
    ensures var found := Scan(c, repo, paths, id).value;
            found[i] in paths && found[j] in paths && IndexIn(paths, found[i]) <= IndexIn(paths, found[j])
  {
    var found := Scan(c, repo, paths, id).value;
    var rest := paths[1..];
    var n := if YamlPath(paths[0]) then ScanFile(c, repo[paths[0]], id).value else 0;
    assert found == Repeat(paths[0], n) + Scan(c, repo, rest, id).value;
    assert paths[0] !in rest;
    if j < n {
    } else if i < n {
      ScanOrder(c, repo, rest, id, j - n, j - n);
    } else {
      ScanOrder(c, repo, rest, id, i - n, j - n);
    }
  }

  // --- Folding an updater over a list of paths ---

  datatype Tree = Tree(repo: Repo, status: Status)

  /** The loop over the matches: it stops at the first error or panic. */
  function Fold(c: Codec, u: Update, repo: Repo, paths: seq<string>): Tree {
    if paths == [] then Tree(repo, Success)
    else if paths[0] !in repo then Tree(repo, Failure)
    else
      var e := EditFile(c, u, repo[paths[0]]);
      if e.Ok() then Fold(c, u, repo[paths[0] := After(repo[paths[0]], e)], paths[1..])
      else Tree(repo, StatusOf(e))
  }

  /** Every listed file updated once. */
  function UpdateAll(c: Codec, u: Update, repo: Repo, paths: seq<string>): Repo {
    map p | p in repo :: if p in paths then After(repo[p], EditFile(c, u, repo[p])) else repo[p]
  }

  predicate AllOk(c: Codec, u: Update, repo: Repo, paths: seq<string>) {
    forall p :: p in paths ==> p in repo && EditFile(c, u, repo[p]).Ok()
  }

  lemma {:induction false} FoldMeaning(c: Codec, u: Update, repo: Repo, paths: seq<string>)
    requires Lawful(c)
    ensures Fold(c, u, repo, paths).status.Success? <==> AllOk(c, u, repo, paths)
    ensures AllOk(c, u, repo, paths) ==> Fold(c, u, repo, paths).repo == UpdateAll(c, u, repo, paths)
    decreases |paths|
  {
    if paths == [] {
      assert UpdateAll(c, u, repo, paths) == repo;
    } else {
      assert paths[0] in paths;
      if paths[0] in repo && EditFile(c, u, repo[paths[0]]).Ok() {
        FoldMeaning(c, u, repo[paths[0] := After(repo[paths[0]], EditFile(c, u, repo[paths[0]]))], paths[1..]);
        FoldStep(c, u, repo, paths);
      }
    }
  }

  /** Updating the first file and then all the others. */
  lemma FoldStep(c: Codec, u: Update, repo: Repo, paths: seq<string>)
    requires Lawful(c)
    requires paths != [] && paths[0] in repo && EditFile(c, u, repo[paths[0]]).Ok()
    ensures var repo' := repo[paths[0] := After(repo[paths[0]], EditFile(c, u, repo[paths[0]]))];
            && (AllOk(c, u, repo', paths[1..]) <==> AllOk(c, u, repo, paths))
            && UpdateAll(c, u, repo', paths[1..]) == UpdateAll(c, u, repo, paths)
  {
    var first, rest := paths[0], paths[1..];
    var repo' := repo[first := After(repo[first], EditFile(c, u, repo[first]))];
    IdempotentFile(c, u, repo[first]);
    FoldStepFrame(c, u, repo, repo', first, rest);
    assert paths == [first] + rest;
  }

  lemma FoldStepFrame(c: Codec, u: Update, repo: Repo, repo': Repo, first: string, rest: seq<string>)
    requires first in repo && repo' == repo[first := After(repo[first], EditFile(c, u, repo[first]))]
    requires EditFile(c, u, repo[first]).Ok() && EditFile(c, u, repo'[first]) == EditFile(c, u, repo[first])
    ensures AllOk(c, u, repo', rest) <==> AllOk(c, u, repo, [first] + rest)
    ensures UpdateAll(c, u, repo', rest) == UpdateAll(c, u, repo, [first] + rest)
  {
    var a, b := UpdateAll(c, u, repo', rest), UpdateAll(c, u, repo, [first] + rest);
    assert a.Keys == repo.Keys == b.Keys;
    forall p | p in repo
      ensures a[p] == b[p]
    {
      if p == first {
        assert p in [first] + rest;
      } else {
        assert repo'[p] == repo[p];
        assert p in rest <==> p in [first] + rest;
      }
    }
    AllOkCons(c, u, repo, repo', first, rest);
  }

  lemma AllOkCons(c: Codec, u: Update, repo: Repo, repo': Repo, first: string, rest: seq<string>)
    requires first in repo && first in repo' && repo' == repo[first := repo'[first]]
    requires EditFile(c, u, repo[first]).Ok() && EditFile(c, u, repo'[first]) == EditFile(c, u, repo[first])
    ensures AllOk(c, u, repo', rest) <==> AllOk(c, u, repo, [first] + rest)
  {
    if AllOk(c, u, repo', rest) {
      forall p | p in [first] + rest
        ensures p in repo && EditFile(c, u, repo[p]).Ok()
      {
        if p != first {
          assert p in rest && repo'[p] == repo[p];
        }
      }
    }
    if AllOk(c, u, repo, [first] + rest) {
      forall p | p in rest
        ensures p in repo' && EditFile(c, u, repo'[p]).Ok()
      {
        assert p in [first] + rest;
      }
    }
  }

  /** Duplicates are harmless and order does not matter: a successful fold gives what any other list of the same
      paths gives. */
  lemma DuplicatesHarmless(c: Codec, u: Update, repo: Repo, paths: seq<string>, others: seq<string>)
    requires Lawful(c)
    requires forall p :: p in paths <==> p in others
    requires Fold(c, u, repo, paths).status.Success?
    ensures Fold(c, u, repo, others) == Fold(c, u, repo, paths)
  {
    FoldMeaning(c, u, repo, paths);
    FoldMeaning(c, u, repo, others);
    assert UpdateAll(c, u, repo, paths) == UpdateAll(c, u, repo, others);
  }

  // --- The NAD walk ---

  /** What visiting one file does: its new contents, how often its path is appended, and how the visit ends. */
  datatype Visit = Visit(bytes: string, hits: nat, status: Status)

  /** One update per matching interface, the file being read afresh each time. */
  function ApplyHosts(c: Codec, hosts: seq<string>, bytes: string): Visit {
    if hosts == [] then Visit(bytes, 0, Success)
    else
      var e := EditFile(c, UpdateNad(hosts[0]), bytes);
      if !e.Ok() then Visit(bytes, 1, StatusOf(e))
      else
        var rest := ApplyHosts(c, hosts[1..], After(bytes, e));
        rest.(hits := rest.hits + 1)
  }

  /** The hosts that one document asks for. */
  function HostsOf(ifaces: seq<NFInterface>, h: Header): seq<string> {
    if EqualFold(h.kind, NAD_KIND) then HostsFor(ifaces, h.id) else []
  }

  /** The decoding loop: the documents come from the old contents, the updates go to the file as it is now. */
  function VisitDocs(c: Codec, ifaces: seq<NFInterface>, docs: seq<Value>, broken: bool, bytes: string): Visit {
    if docs == [] then Visit(bytes, 0, if broken then Failure else Success)
    else match DecodeHeader(docs[0])
      case None => Visit(bytes, 0, Failure)
      case Some(h) =>
        var v := ApplyHosts(c, HostsOf(ifaces, h), bytes);
        if !v.status.Success? then v
        else
          var rest := VisitDocs(c, ifaces, docs[1..], broken, v.bytes);
          rest.(hits := v.hits + rest.hits)
  }

  function VisitFile(c: Codec, ifaces: seq<NFInterface>, bytes: string): Visit {
    var stream := c.yamlDecode(bytes);
    VisitDocs(c, ifaces, stream.docs, stream.broken, bytes)
  }

  datatype NadWalk = NadWalk(repo: Repo, found: seq<string>, status: Status)

  function WalkNads(c: Codec, ifaces: seq<NFInterface>, repo: Repo, paths: seq<string>): NadWalk {
    if paths == [] then NadWalk(repo, [], Success)
    else if !YamlPath(paths[0]) then WalkNads(c, ifaces, repo, paths[1..])
    else if paths[0] !in repo then NadWalk(repo, [], Failure)
    else
      var v := VisitFile(c, ifaces, repo[paths[0]]);
      var repo' := repo[paths[0] := v.bytes];
      if !v.status.Success? then NadWalk(repo', [], v.status)
      else
        var rest := WalkNads(c, ifaces, repo', paths[1..]);
        if rest.status.Success? then rest.(found := Repeat(paths[0], v.hits) + rest.found) else rest
  }

  // --- The walk over any files ---

  /** Every YAML file visited once. */
  function AllVisited(c: Codec, ifaces: seq<NFInterface>, repo: Repo, paths: seq<string>): Repo {
    map p | p in repo :: if p in paths && YamlPath(p) then VisitFile(c, ifaces, repo[p]).bytes else repo[p]
  }

  /** How far the walk gets: the number of paths before the first file whose own visit does not succeed. */
  function VisitReach(c: Codec, ifaces: seq<NFInterface>, repo: Repo, paths: seq<string>): nat
    requires forall p :: p in paths ==> p in repo
    ensures VisitReach(c, ifaces, repo, paths) <= |paths|
  {
    if paths == [] || (YamlPath(paths[0]) && !VisitFile(c, ifaces, repo[paths[0]]).status.Success?) then 0
    else 1 + VisitReach(c, ifaces, repo, paths[1..])
  }

  /** The first `k` files are visited to their end, the next one, which fails, is left as its own visit leaves it, and
      all later ones are unchanged. */
  ghost predicate VisitedUpTo(c: Codec, ifaces: seq<NFInterface>, repo: Repo, paths: seq<string>, walk: NadWalk, k: nat)
    requires k <= |paths| && forall p :: p in paths ==> p in repo
  {
    if k == |paths| then walk.status.Success? && walk.repo == AllVisited(c, ifaces, repo, paths)
    else
      && walk.status == VisitFile(c, ifaces, repo[paths[k]]).status && !walk.status.Success?
      && walk.repo == AllVisited(c, ifaces, repo, paths[..k + 1])
  }

  ghost predicate PrefixOfVisits(c: Codec, ifaces: seq<NFInterface>, repo: Repo, paths: seq<string>, walk: NadWalk)
    requires forall p :: p in paths ==> p in repo
  {
    VisitedUpTo(c, ifaces, repo, paths, walk, VisitReach(c, ifaces, repo, paths))
  }

  /** The walk over any files. */
  lemma {:induction false} WalkMeaning(c: Codec, ifaces: seq<NFInterface>, repo: Repo, paths: seq<string>)
    requires Distinct(paths) && forall p :: p in paths ==> p in repo
    ensures PrefixOfVisits(c, ifaces, repo, paths, WalkNads(c, ifaces, repo, paths))
    decreases |paths|
  {
    if paths == [] {
      assert AllVisited(c, ifaces, repo, paths) == repo;
    } else {
      var first, rest := paths[0], paths[1..];
      assert paths == [first] + rest && first !in rest && first in repo && forall p :: p in rest ==> p in paths;
      if YamlPath(first) && !VisitFile(c, ifaces, repo[first]).status.Success? {
        WalkStops(c, ifaces, repo, first, rest);
      } else {
        var repo' := FirstVisited(c, ifaces, repo, first);
        WalkMeaning(c, ifaces, repo', rest);
        WalkGoesOn(c, ifaces, repo, first, rest);
        PrefixOfVisitsCons(c, ifaces, repo, first, rest, WalkNads(c, ifaces, repo, paths));
      }
    }
  }

  lemma WalkStops(c: Codec, ifaces: seq<NFInterface>, repo: Repo, first: string, rest: seq<string>)
    requires first in repo && forall p :: p in rest ==> p in repo
    requires YamlPath(first) && !VisitFile(c, ifaces, repo[first]).status.Success?
    ensures forall p :: p in [first] + rest ==> p in repo
    ensures PrefixOfVisits(c, ifaces, repo, [first] + rest, WalkNads(c, ifaces, repo, [first] + rest))
  {
    var repo' := FirstVisited(c, ifaces, repo, first);
    assert ([first] + rest)[..1] == [first] == [first] + [];
    VisitedCons(c, ifaces, repo, first, []);
    assert AllVisited(c, ifaces, repo', []) == repo';
  }

  lemma WalkGoesOn(c: Codec, ifaces: seq<NFInterface>, repo: Repo, first: string, rest: seq<string>)
    requires first in repo && (YamlPath(first) ==> VisitFile(c, ifaces, repo[first]).status.Success?)
    ensures var walk := WalkNads(c, ifaces, repo, [first] + rest);
            var others := WalkNads(c, ifaces, FirstVisited(c, ifaces, repo, first), rest);
            walk.repo == others.repo && walk.status == others.status
  {
    assert ([first] + rest)[1..] == rest;
  }

  function FirstVisited(c: Codec, ifaces: seq<NFInterface>, repo: Repo, first: string): Repo
    requires first in repo
  {
    if YamlPath(first) then repo[first := VisitFile(c, ifaces, repo[first]).bytes] else repo
  }

  lemma VisitedCons(c: Codec, ifaces: seq<NFInterface>, repo: Repo, first: string, rest: seq<string>)
    requires first in repo && first !in rest
    ensures AllVisited(c, ifaces, repo, [first] + rest) ==
            AllVisited(c, ifaces, FirstVisited(c, ifaces, repo, first), rest)
  {
    assert forall p :: p in [first] + rest <==> p == first || p in rest;
    assert FirstVisited(c, ifaces, repo, first).Keys == repo.Keys;
  }

  lemma {:induction false} VisitReachFrame(c: Codec, ifaces: seq<NFInterface>, repo: Repo, repo': Repo,
                                           paths: seq<string>)
    requires forall p :: p in paths ==> p in repo && p in repo' && repo[p] == repo'[p]
    ensures VisitReach(c, ifaces, repo, paths) == VisitReach(c, ifaces, repo', paths)
  {
    if paths == [] {
    } else {
      VisitReachFrame(c, ifaces, repo, repo', paths[1..]);
    }
  }

  lemma VisitReachCons(c: Codec, ifaces: seq<NFInterface>, repo: Repo, first: string, rest: seq<string>)
    requires first in repo && first !in rest && forall p :: p in rest ==> p in repo
    requires YamlPath(first) ==> VisitFile(c, ifaces, repo[first]).status.Success?
    ensures forall p :: p in [first] + rest ==> p in repo
    ensures VisitReach(c, ifaces, repo, [first] + rest) ==
            1 + VisitReach(c, ifaces, FirstVisited(c, ifaces, repo, first), rest)
  {
    assert ([first] + rest)[1..] == rest;
    VisitReachFrame(c, ifaces, repo, FirstVisited(c, ifaces, repo, first), rest);
  }

  lemma VisitedUpToCons(c: Codec, ifaces: seq<NFInterface>, repo: Repo, first: string, rest: seq<string>,
                        walk: NadWalk, k: nat)
    requires first in repo && first !in rest && (forall p :: p in rest ==> p in repo) && k <= |rest|
    requires VisitedUpTo(c, ifaces, FirstVisited(c, ifaces, repo, first), rest, walk, k)
    ensures VisitedUpTo(c, ifaces, repo, [first] + rest, walk, k + 1)
  {
    if k == |rest| {
      VisitedCons(c, ifaces, repo, first, rest);
    } else {
      assert rest[k] in rest && ([first] + rest)[1 + k] == rest[k];
      assert ([first] + rest)[..k + 2] == [first] + rest[..k + 1];
      VisitedCons(c, ifaces, repo, first, rest[..k + 1]);
    }
  }

  lemma PrefixOfVisitsCons(c: Codec, ifaces: seq<NFInterface>, repo: Repo, first: string, rest: seq<string>,
                           walk: NadWalk)
    requires first in repo && first !in rest && forall p :: p in rest ==> p in repo
    requires YamlPath(first) ==> VisitFile(c, ifaces, repo[first]).status.Success?
    requires PrefixOfVisits(c, ifaces, FirstVisited(c, ifaces, repo, first), rest, walk)
    ensures forall p :: p in [first] + rest ==> p in repo
    ensures PrefixOfVisits(c, ifaces, repo, [first] + rest, walk)
  {
    VisitReachCons(c, ifaces, repo, first, rest);
    VisitedUpToCons(c, ifaces, repo, first, rest, walk,
      VisitReach(c, ifaces, FirstVisited(c, ifaces, repo, first), rest));
  }

  // --- The walk over single-document files, in closed form ---

  /** What the walk makes of a single-document file: one update, with the last host that asks for it. */
  function NadEdit(c: Codec, ifaces: seq<NFInterface>, bytes: string): FileEdit {
    var stream := c.yamlDecode(bytes);
    if stream.docs == [] then (if stream.broken then Broken else Untouched)
    else match DecodeHeader(stream.docs[0])
      case None => Broken
      case Some(h) =>
        if !EqualFold(h.kind, NAD_KIND) then Untouched
        else match LastHost(ifaces, h.id)
          case None => Untouched
          case Some(host) => EditFile(c, UpdateNad(host), bytes)
  }

  /** How many interfaces match the definition in a single-document file. */
  function Hits(c: Codec, ifaces: seq<NFInterface>, bytes: string): nat {
    var docs := c.yamlDecode(bytes).docs;
    if docs == [] || DecodeHeader(docs[0]).None? then 0
    else |HostsOf(ifaces, DecodeHeader(docs[0]).value)|
  }

  lemma {:induction false} ApplyHostsMeaning(c: Codec, hosts: seq<string>, bytes: string)
    requires Lawful(c)
    requires hosts != []
    ensures var e := EditFile(c, UpdateNad(hosts[|hosts| - 1]), bytes);
            var v := ApplyHosts(c, hosts, bytes);
            && v.bytes == After(bytes, e)
            && v.status == StatusOf(e)
            && (v.status.Success? ==> v.hits == |hosts|)
    decreases |hosts|
  {
    var last := UpdateNad(hosts[|hosts| - 1]);
    ComposeFile(c, UpdateNad(hosts[0]), last, bytes);
    var e := EditFile(c, UpdateNad(hosts[0]), bytes);
    if |hosts| > 1 && e.Ok() {
      ApplyHostsMeaning(c, hosts[1..], After(bytes, e));
    } else if e.Ok() {
      assert ApplyHosts(c, hosts[1..], After(bytes, e)) == Visit(After(bytes, e), 0, Success);
    }
  }

  lemma VisitSingle(c: Codec, ifaces: seq<NFInterface>, bytes: string)
    requires Lawful(c)
    requires Single(c, bytes)
    ensures var e := NadEdit(c, ifaces, bytes);
            var v := VisitFile(c, ifaces, bytes);
            && v.bytes == After(bytes, e)
            && v.status == StatusOf(e)
            && (v.status.Success? ==> v.hits == Hits(c, ifaces, bytes))
  {
    var stream := c.yamlDecode(bytes);
    if stream.docs != [] {
      assert stream.docs[1..] == [];
      if DecodeHeader(stream.docs[0]).Some? {
        var h := DecodeHeader(stream.docs[0]).value;
        var v := ApplyHosts(c, HostsOf(ifaces, h), bytes);
        assert VisitDocs(c, ifaces, stream.docs[1..], stream.broken, v.bytes) == Visit(v.bytes, 0, Success);
        LastHostIsLast(ifaces, h.id);
        if HostsOf(ifaces, h) == [] {
          assert v == Visit(bytes, 0, Success);
        } else {
          ApplyHostsMeaning(c, HostsOf(ifaces, h), bytes);
        }
      }
    }
  }

  predicate AllSingle(c: Codec, repo: Repo) {
    forall p :: p in repo && YamlPath(p) ==> Single(c, repo[p])
  }

  /** How far the walk gets: the number of paths before the first file whose visit does not succeed. */
  function Reach(c: Codec, ifaces: seq<NFInterface>, repo: Repo, paths: seq<string>): nat
    requires forall p :: p in paths ==> p in repo
    ensures Reach(c, ifaces, repo, paths) <= |paths|
  {
    if paths == [] || (YamlPath(paths[0]) && !NadEdit(c, ifaces, repo[paths[0]]).Ok()) then 0
    else 1 + Reach(c, ifaces, repo, paths[1..])
  }

  function NadEdited(c: Codec, ifaces: seq<NFInterface>, repo: Repo, done: seq<string>): Repo {
    map p | p in repo :: if p in done && YamlPath(p) then After(repo[p], NadEdit(c, ifaces, repo[p])) else repo[p]
  }

  /** The effect of the walk is that of its successful prefix, whole file by whole file: files before the failing
      one are final, the failing file and all later ones are unchanged. */
  ghost predicate PrefixOfWalk(c: Codec, ifaces: seq<NFInterface>, repo: Repo, paths: seq<string>, walk: NadWalk)
    requires forall p :: p in paths ==> p in repo
  {
    var k := Reach(c, ifaces, repo, paths);
    && walk.repo == NadEdited(c, ifaces, repo, paths[..k])
    && (walk.status.Success? <==> k == |paths|)
    && (k < |paths| ==> walk.status == StatusOf(NadEdit(c, ifaces, repo[paths[k]])))
  }

  /** On single-document files both accounts of the walk get equally far. */
  lemma {:induction false} ReachIsVisitReach(c: Codec, ifaces: seq<NFInterface>, repo: Repo, paths: seq<string>)
    requires Lawful(c) && AllSingle(c, repo) && forall p :: p in paths ==> p in repo
    ensures VisitReach(c, ifaces, repo, paths) == Reach(c, ifaces, repo, paths)
  {
    if paths == [] {
    } else {
      if YamlPath(paths[0]) {
        VisitSingle(c, ifaces, repo[paths[0]]);
      }
      ReachIsVisitReach(c, ifaces, repo, paths[1..]);
    }
  }

  /** Visiting files of one document is editing them, and a visit that fails changes nothing. */
  lemma VisitedIsEdited(c: Codec, ifaces: seq<NFInterface>, repo: Repo, done: seq<string>, last: seq<string>)
    requires Lawful(c) && AllSingle(c, repo)
    requires forall p :: p in last ==> p in repo && YamlPath(p) && !NadEdit(c, ifaces, repo[p]).Ok()
    ensures AllVisited(c, ifaces, repo, done + last) == NadEdited(c, ifaces, repo, done)
  {
    forall p | p in repo
      ensures AllVisited(c, ifaces, repo, done + last)[p] == NadEdited(c, ifaces, repo, done)[p]
    {
      assert p in done + last <==> p in done || p in last;
      if YamlPath(p) {
        VisitSingle(c, ifaces, repo[p]);
      }
    }
  }

  lemma {:induction false} ReachIsOk(c: Codec, ifaces: seq<NFInterface>, repo: Repo, paths: seq<string>)
    requires forall p :: p in paths ==> p in repo
    ensures forall p :: p in paths[..Reach(c, ifaces, repo, paths)] && YamlPath(p) ==> NadEdit(c, ifaces, repo[p]).Ok()
    ensures var k := Reach(c, ifaces, repo, paths);
            k < |paths| ==> YamlPath(paths[k]) && !NadEdit(c, ifaces, repo[paths[k]]).Ok()
  {
    var k := Reach(c, ifaces, repo, paths);
    if k == 0 {
    } else {
      ReachIsOk(c, ifaces, repo, paths[1..]);
      assert paths[..k] == [paths[0]] + paths[1..][..k - 1];
    }
  }

  lemma WalkCompletes(c: Codec, ifaces: seq<NFInterface>, repo: Repo, paths: seq<string>, walk: NadWalk)
    requires Lawful(c) && AllSingle(c, repo) && forall p :: p in paths ==> p in repo
    requires VisitedUpTo(c, ifaces, repo, paths, walk, |paths|)
    ensures walk.status.Success? && walk.repo == NadEdited(c, ifaces, repo, paths)
  {
    assert paths + [] == paths;
    VisitedIsEdited(c, ifaces, repo, paths, []);
  }

  lemma WalkBreaksOff(c: Codec, ifaces: seq<NFInterface>, repo: Repo, paths: seq<string>, walk: NadWalk, k: nat)
    requires Lawful(c) && AllSingle(c, repo) && forall p :: p in paths ==> p in repo
    requires k < |paths| && VisitedUpTo(c, ifaces, repo, paths, walk, k)
    requires YamlPath(paths[k]) && !NadEdit(c, ifaces, repo[paths[k]]).Ok()
    ensures walk.status == StatusOf(NadEdit(c, ifaces, repo[paths[k]])) && !walk.status.Success?
    ensures walk.repo == NadEdited(c, ifaces, repo, paths[..k])
  {
    VisitSingle(c, ifaces, repo[paths[k]]);
    VisitedIsEdited(c, ifaces, repo, paths[..k], [paths[k]]);
    assert paths[..k + 1] == paths[..k] + [paths[k]];
  }

  /** Over single-document files: as WalkMeaning, the failing file being unchanged. */
  lemma NadWalkMeaning(c: Codec, ifaces: seq<NFInterface>, repo: Repo, paths: seq<string>)
    requires Lawful(c) && AllSingle(c, repo)
    requires Distinct(paths) && forall p :: p in paths ==> p in repo
    ensures PrefixOfWalk(c, ifaces, repo, paths, WalkNads(c, ifaces, repo, paths))
  {
    var walk, k := WalkNads(c, ifaces, repo, paths), Reach(c, ifaces, repo, paths);
    WalkMeaning(c, ifaces, repo, paths);
    ReachIsVisitReach(c, ifaces, repo, paths);
    if k == |paths| {
      assert paths[..k] == paths;
      WalkCompletes(c, ifaces, repo, paths, walk);
    } else {
      ReachIsOk(c, ifaces, repo, paths);
      WalkBreaksOff(c, ifaces, repo, paths, walk, k);
    }
  }

  /** A successful walk lists every path once per matching interface. */
  lemma {:induction false} NadWalkCount(c: Codec, ifaces: seq<NFInterface>, repo: Repo, paths: seq<string>, p: string)
    requires Lawful(c) && AllSingle(c, repo)
    requires Distinct(paths) && forall q :: q in paths ==> q in repo
    requires WalkNads(c, ifaces, repo, paths).status.Success?
    ensures multiset(WalkNads(c, ifaces, repo, paths).found)[p] ==
            if p in paths && YamlPath(p) then Hits(c, ifaces, repo[p]) else 0
    decreases |paths|
  {
    if paths == [] {
    } else {
      var first, rest := paths[0], paths[1..];
      assert first in repo && first !in rest && forall q :: q in rest ==> q in paths;
      assert p in paths <==> p == first || p in rest;
      if !YamlPath(first) {
        NadWalkCount(c, ifaces, repo, rest, p);
      } else {
        VisitSingle(c, ifaces, repo[first]);
        NadEditSingle(c, ifaces, repo[first]);
        NadWalkCount(c, ifaces, repo[first := VisitFile(c, ifaces, repo[first]).bytes], rest, p);
        RepeatCount(first, Hits(c, ifaces, repo[first]), p);
      }
    }
  }

  lemma NadEditSingle(c: Codec, ifaces: seq<NFInterface>, bytes: string)
    requires Lawful(c) && Single(c, bytes)
    ensures Single(c, After(bytes, NadEdit(c, ifaces, bytes)))
  {
    if NadEdit(c, ifaces, bytes).Rewritten? {
      var h := DecodeHeader(c.yamlDecode(bytes).docs[0]).value;
      OnlyFirstDocumentSurvives(c, UpdateNad(LastHost(ifaces, h.id).value), bytes);
    }
  }

  lemma {:induction false} ReachFrame(c: Codec, ifaces: seq<NFInterface>, repo: Repo, repo': Repo, paths: seq<string>)
    requires forall p :: p in paths ==> p in repo && p in repo' && repo[p] == repo'[p]
    ensures Reach(c, ifaces, repo, paths) == Reach(c, ifaces, repo', paths)
  {
    if paths == [] {
    } else {
      ReachFrame(c, ifaces, repo, repo', paths[1..]);
    }
  }

  /** Decoding spec.config of the one document of a file as a JSON object. */
  function NadConfig(c: Codec, bytes: string): Option<Value> {
    match FirstDoc(c, bytes)
    case None => None
    case Some(doc) =>
      var config := doc.Get("spec").Get("config");
      if config.Str? then c.jsonDecode(config.text) else None
  }

  /** The host that a single-document file is given, when it is a definition that some interface names. */
  function HostOf(c: Codec, ifaces: seq<NFInterface>, bytes: string): Option<string> {
    var docs := c.yamlDecode(bytes).docs;
    if docs == [] then None
    else match DecodeHeader(docs[0])
      case None => None
      case Some(h) => if EqualFold(h.kind, NAD_KIND) then LastHost(ifaces, h.id) else None
  }

  /** After a successful walk a matched definition has as `master` the host interface of the last spec interface
      that names it, its other settings being kept, and every other file is as it was. */
  lemma NadWalkMaster(c: Codec, ifaces: seq<NFInterface>, repo: Repo, paths: seq<string>, path: string)
    requires Lawful(c) && AllSingle(c, repo)
    requires Enumerates(paths, repo.Keys) && path in repo
    requires WalkNads(c, ifaces, repo, paths).status.Success?
    ensures var repo' := WalkNads(c, ifaces, repo, paths).repo;
            && repo'.Keys == repo.Keys
            && if YamlPath(path) && HostOf(c, ifaces, repo[path]).Some?
               then
                 && NadConfig(c, repo[path]).Some? && NadConfig(c, repo[path]).value.Map?
                 && NadConfig(c, repo'[path]) ==
                    Some(NadConfig(c, repo[path]).value.With("master", Str(HostOf(c, ifaces, repo[path]).value)))
               else repo'[path] == repo[path]
  {
    NadWalkMeaning(c, ifaces, repo, paths);
    assert paths[..|paths|] == paths;
    assert path in paths;
    if YamlPath(path) {
      ReachAll(c, ifaces, repo, paths, path);
      NadEditHost(c, ifaces, repo[path]);
    }
  }

  lemma NadEditHost(c: Codec, ifaces: seq<NFInterface>, bytes: string)
    requires Lawful(c) && NadEdit(c, ifaces, bytes).Ok()
    ensures var bytes' := After(bytes, NadEdit(c, ifaces, bytes));
            match HostOf(c, ifaces, bytes)
            case None => bytes' == bytes
            case Some(host) =>
              && NadConfig(c, bytes).Some? && NadConfig(c, bytes).value.Map?
              && NadConfig(c, bytes') == Some(NadConfig(c, bytes).value.With("master", Str(host)))
  {
    if HostOf(c, ifaces, bytes).Some? {
      NadEditMaster(c, HostOf(c, ifaces, bytes).value, bytes);
    }
  }

  lemma NadEditMaster(c: Codec, host: string, bytes: string)
    requires Lawful(c)
    requires EditFile(c, UpdateNad(host), bytes).Ok()
    ensures var bytes' := After(bytes, EditFile(c, UpdateNad(host), bytes));
            && NadConfig(c, bytes).Some? && NadConfig(c, bytes).value.Map?
            && NadConfig(c, bytes') == Some(NadConfig(c, bytes).value.With("master", Str(host)))
  {
    OnlyFirstDocumentSurvives(c, UpdateNad(host), bytes);
    FrameNad(c, FirstDoc(c, bytes).value, host, []);
  }

  lemma {:induction false} ReachAll(c: Codec, ifaces: seq<NFInterface>, repo: Repo, paths: seq<string>, path: string)
    requires forall p :: p in paths ==> p in repo
    requires Reach(c, ifaces, repo, paths) == |paths|
    requires path in paths && YamlPath(path)
    ensures NadEdit(c, ifaces, repo[path]).Ok()
  {
    if path == paths[0] {
    } else {
      ReachAll(c, ifaces, repo, paths[1..], path);
    }
  }
}
