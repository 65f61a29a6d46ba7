/** A clone on disk: the methods that read, match and overwrite its files. */
module Worktrees {
  import opened Documents
  import opened Rewrites
  import opened Files
  import opened Repos
  import opened Api
  import opened HeapDocs
  import opened Updaters

  /** What an update of one file does to the tree, and how it ends; a missing file is a read error. */
  ghost predicate FileUpdated(c: Codec, u: Update, path: string, before: Repo, after: Repo, st: Status) {
    if path !in before then after == before && st == Failure
    else
      var e := EditFile(c, u, before[path]);
      after == before[path := After(before[path], e)] && st == StatusOf(e)
  }

  /** `found` already listed, then the rest of a scan. */
  function Listed(found: seq<string>, rest: Option<seq<string>>): Option<seq<string>> {
    match rest
    case None => None
    case Some(more) => Some(found + more)
  }

  /** `found` already listed, then the rest of a walk; an error drops the list. */
  function Walked(found: seq<string>, rest: NadWalk): NadWalk {
    if rest.status.Success? then rest.(found := found + rest.found) else rest
  }

  function Visited(hits: nat, rest: Visit): Visit {
    rest.(hits := hits + rest.hits)
  }

  lemma ApplyStep(c: Codec, ifaces: seq<NFInterface>, i: nat, id: ObjectName, bytes: string)
    requires i < |ifaces|
    ensures ApplyHosts(c, HostsFor(ifaces[i..], id), bytes) ==
            if !MatchesNad(ifaces[i], id) then ApplyHosts(c, HostsFor(ifaces[i + 1..], id), bytes)
            else
              var e := EditFile(c, UpdateNad(ifaces[i].hostInterface), bytes);
              if e.Ok() then Visited(1, ApplyHosts(c, HostsFor(ifaces[i + 1..], id), After(bytes, e)))
              else Visit(bytes, 1, StatusOf(e))
  {
    assert ifaces[i..][1..] == ifaces[i + 1..];
    if MatchesNad(ifaces[i], id) {
      assert HostsFor(ifaces[i..], id) == [ifaces[i].hostInterface] + HostsFor(ifaces[i + 1..], id);
      assert HostsFor(ifaces[i..], id)[1..] == HostsFor(ifaces[i + 1..], id);
    } else {
      assert HostsFor(ifaces[i..], id) == [] + HostsFor(ifaces[i + 1..], id) == HostsFor(ifaces[i + 1..], id);
    }
  }

  /** What one decoded document makes the walk do to the file. */
  function VisitDoc(c: Codec, ifaces: seq<NFInterface>, doc: Value, bytes: string): Visit {
    match DecodeHeader(doc)
    case None => Visit(bytes, 0, Failure)
    case Some(h) =>
      if EqualFold(h.kind, NAD_KIND) then ApplyHosts(c, HostsFor(ifaces, h.id), bytes) else Visit(bytes, 0, Success)
  }

  lemma VisitStep(c: Codec, ifaces: seq<NFInterface>, docs: seq<Value>, broken: bool, i: nat, bytes: string)
    requires i < |docs|
    ensures var v := VisitDoc(c, ifaces, docs[i], bytes);
            VisitDocs(c, ifaces, docs[i..], broken, bytes) ==
            if v.status.Success? then Visited(v.hits, VisitDocs(c, ifaces, docs[i + 1..], broken, v.bytes)) else v
  {
    assert docs[i..][1..] == docs[i + 1..];
  }

  class Worktree {
    var files: Repo

    constructor (files: Repo)
      ensures this.files == files
    {
      this.files := files;
    }

    /** Reading and decoding the first document of a file into fresh map objects. */
    method Load(c: Codec, path: string) returns (r: Option<Cell>, ghost v: Value, ghost s: set<GoMap>)
      ensures r.Some? <==> path in files && FirstDoc(c, files[path]).Some?
      ensures r.Some? ==> v == FirstDoc(c, files[path]).value && Holds(r.value, v, s) && fresh(s)
    {
      v, s := Null, {};
      if path !in files {
        return None, v, s;
      }
      var first := FirstDoc(c, files[path]);
      if first.None? {
        return None, v, s;
      }
      v := first.value;
      var doc;
      doc, s := Unmarshal(first.value);
      r := Some(doc);
    }

    /** Encoding the updated document and writing it back. */
    method Save(c: Codec, path: string, doc: Cell, ghost v: Value, ghost s: set<GoMap>)
      requires Denotes(Snapshot(s), doc, v)
      modifies this
      ensures files == old(files)[path := c.yamlEncode(v)]
    {
      var tree := Marshal(doc, v, s);
      files := files[path := c.yamlEncode(tree)];
    }

    method UpdateInterfaceIPsNFDeployment(c: Codec, path: string, ips: NewIPs) returns (st: Status)
      modifies this
      ensures FileUpdated(c, UpdateNF(ips), path, old(files), files, st)
    {
      var doc, v, s := Load(c, path);
      if doc.None? {
        return Failure;
      }
      var ending := UpdateNFInPlace(doc.value, ips, v, s);
      if ending == Panicking {
        return Crash;
      }
      if ending == Changed {
        Save(c, path, doc.value, EditNF(v, ips).doc, s);
      }
      return Success;
    }

    method UpdateInterfaceIPsConfigRefs(c: Codec, path: string, ips: NewIPs) returns (st: Status)
      modifies this
      ensures FileUpdated(c, UpdateConfig(ips), path, old(files), files, st)
    {
      var doc, v, s := Load(c, path);
      if doc.None? {
        return Failure;
      }
      var ending := UpdateConfigInPlace(doc.value, ips, v, s);
      if ending == Changed {
        Save(c, path, doc.value, EditConfig(v, ips).doc, s);
      }
      return Success;
    }

    method UpdateNADMaster(c: Codec, path: string, host: string) returns (st: Status)
      modifies this
      ensures FileUpdated(c, UpdateNad(host), path, old(files), files, st)
    {
      var doc, v, s := Load(c, path);
      if doc.None? {
        return Failure;
      }
      var ending := UpdateNadInPlace(c, doc.value, host, v, s);
      if ending != Changed {
        return if ending == Panicking then Crash else Failure;
      }
      Save(c, path, doc.value, EditNad(c, v, host).doc, s);
      return Success;
    }

    // --- Matching ---

    /** The decoding loop over one file. */
    method MatchFile(c: Codec, path: string, id: ObjectName) returns (matches: Option<seq<string>>)
      requires path in files
      ensures matches == match ScanFile(c, files[path], id) case None => None case Some(n) => Some(Repeat(path, n))
    {
      var stream := c.yamlDecode(files[path]);
      var found := [];
      for i := 0 to |stream.docs|
        invariant found == Repeat(path, |found|)
        invariant CountNamed(stream.docs, id) ==
                  match CountNamed(stream.docs[i..], id) case None => None case Some(n) => Some(|found| + n)
      {
        var name := DecodeName(stream.docs[i]);
        assert stream.docs[i..][1..] == stream.docs[i + 1..];
        if name.None? {
          return None;
        }
        if name.value == id {
          found := found + [path];
        }
      }
      matches := if stream.broken then None else Some(found);
    }

    /** The walk of CheckRepoForMatchingManifests over the clone. */
    method FindMatching(c: Codec, paths: seq<string>, id: ObjectName) returns (matches: Option<seq<string>>)
      requires forall p :: p in paths ==> p in files
      ensures matches == Scan(c, files, paths, id)
    {
      var found := [];
      assert paths[0..] == paths;
      assert Listed([], Scan(c, files, paths, id)) == Scan(c, files, paths, id) by {
        if Scan(c, files, paths, id).Some? {
          assert [] + Scan(c, files, paths, id).value == Scan(c, files, paths, id).value;
        }
      }
      for i := 0 to |paths|
        invariant Scan(c, files, paths, id) == Listed(found, Scan(c, files, paths[i..], id))
      {
        assert paths[i..][1..] == paths[i + 1..];
        if YamlPath(paths[i]) {
          var more := MatchFile(c, paths[i], id);
          if more.None? {
            return None;
          }
          ghost var rest := Scan(c, files, paths[i + 1..], id);
          if rest.Some? {
            assert found + (more.value + rest.value) == found + more.value + rest.value;
          }
          found := found + more.value;
        }
      }
      assert found + [] == found;
      return Some(found);
    }

    // --- The NAD walk ---

    /** The loop over the spec interfaces for one decoded definition. */
    method ApplyInterfaces(c: Codec, path: string, ifaces: seq<NFInterface>, id: ObjectName)
      returns (hits: nat, st: Status)
      requires path in files
      modifies this
      ensures var v := ApplyHosts(c, HostsFor(ifaces, id), old(files)[path]);
              && files == old(files)[path := v.bytes] && st == v.status && hits == v.hits
    {
      hits := 0;
      assert ifaces[0..] == ifaces;
      ghost var start := files[path];
      for i := 0 to |ifaces|
        invariant path in files && files == old(files)[path := files[path]]
        invariant ApplyHosts(c, HostsFor(ifaces, id), start) ==
                  Visited(hits, ApplyHosts(c, HostsFor(ifaces[i..], id), files[path]))
      {
        ApplyStep(c, ifaces, i, id, files[path]);
        if id.name == ifaces[i].nameNad && id.namespace == ifaces[i].namespaceNad {
          hits := hits + 1;
          st := UpdateNADMaster(c, path, ifaces[i].hostInterface);
          if st != Success {
            return;
          }
        }
      }
      st := Success;
    }

    /** One round of the decoding loop. */
    method VisitDecoded(c: Codec, path: string, ifaces: seq<NFInterface>, doc: Value) returns (hits: nat, st: Status)
      requires path in files
      modifies this
      ensures var v := VisitDoc(c, ifaces, doc, old(files)[path]);
              files == old(files)[path := v.bytes] && st == v.status && hits == v.hits
    {
      var header := DecodeHeader(doc);
      if header.None? {
        return 0, Failure;
      }
      if !EqualFold(header.value.kind, NAD_KIND) {
        return 0, Success;
      }
      hits, st := ApplyInterfaces(c, path, ifaces, header.value.id);
    }

    /** The decoding loop over one file; it goes on with the contents read at its start. */
    method VisitOne(c: Codec, path: string, ifaces: seq<NFInterface>) returns (hits: nat, st: Status)
      requires path in files
      modifies this
      ensures var v := VisitFile(c, ifaces, old(files)[path]);
              files == old(files)[path := v.bytes] && st == v.status && (st.Success? ==> hits == v.hits)
    {
      var stream := c.yamlDecode(files[path]);
      hits := 0;
      assert stream.docs[0..] == stream.docs;
      ghost var before, cur := files, files[path];
      assert before == before[path := cur];
      for i := 0 to |stream.docs|
        invariant files == before[path := cur]
        invariant VisitFile(c, ifaces, before[path]) ==
                  Visited(hits, VisitDocs(c, ifaces, stream.docs[i..], stream.broken, cur))
      {
        VisitStep(c, ifaces, stream.docs, stream.broken, i, cur);
        var more;
        more, st := VisitDecoded(c, path, ifaces, stream.docs[i]);
        cur := VisitDoc(c, ifaces, stream.docs[i], cur).bytes;
        assert files == before[path := cur];
        if st != Success {
          return;
        }
        hits := hits + more;
      }
      st := if stream.broken then Failure else Success;
    }

    method FindMatchingNADs(c: Codec, paths: seq<string>, ifaces: seq<NFInterface>)
      returns (found: seq<string>, st: Status)
      modifies this
      ensures NadWalk(files, found, st) == WalkNads(c, ifaces, old(files), paths)
    {
      found := [];
      assert paths[0..] == paths;
      for i := 0 to |paths|
        invariant WalkNads(c, ifaces, old(files), paths) == Walked(found, WalkNads(c, ifaces, files, paths[i..]))
      {
        assert paths[i..][1..] == paths[i + 1..];
        if YamlPath(paths[i]) {
          if paths[i] !in files {
            return [], Failure;
          }
          var hits;
          hits, st := VisitOne(c, paths[i], ifaces);
          if st != Success {
            return [], st;
          }
          ghost var rest := WalkNads(c, ifaces, files, paths[i + 1..]);
          assert found + (Repeat(paths[i], hits) + rest.found) == found + Repeat(paths[i], hits) + rest.found;
          found := found + Repeat(paths[i], hits);
        }
      }
      return found, Success;
    }
  }
}
