/** The updaters on whole files: read, edit the first document, write back. */
module Files {
  import opened Documents
  import opened Rewrites

  datatype Update = UpdateNF(ips: NewIPs) | UpdateConfig(ips: NewIPs) | UpdateNad(host: string)

  function EditDoc(c: Codec, u: Update, doc: Value): Edit {
    match u
    case UpdateNF(ips) => EditNF(doc, ips)
    case UpdateConfig(ips) => EditConfig(doc, ips)
    case UpdateNad(host) => EditNad(c, doc, host)
  }

  datatype FileEdit = Untouched | Rewritten(bytes: string) | Broken | Panicked
  {
    predicate Ok() {
      Untouched? || Rewritten?
    }
  }

  /** What `yaml.Unmarshal` into a map reads: the first document only; an empty file gives the nil map. */
  function FirstDoc(c: Codec, bytes: string): Option<Value> {
    var stream := c.yamlDecode(bytes);
    if stream.docs == [] then (if stream.broken then None else Some(Null))
    else if stream.docs[0].Map? || stream.docs[0].Null? then Some(stream.docs[0])
    else None
  }

  function EditFile(c: Codec, u: Update, bytes: string): FileEdit {
    match FirstDoc(c, bytes)
    case None => Broken
    case Some(doc) =>
      match EditDoc(c, u, doc)
      case Keep => Untouched
      case Write(doc') => Rewritten(c.yamlEncode(doc'))
      case Fail => Broken
      case Panic => Panicked
  }

  function After(bytes: string, e: FileEdit): string {
    if e.Rewritten? then e.bytes else bytes
  }

  /** The file holds at most one document, and nothing after it. */
  predicate Single(c: Codec, bytes: string) {
    var stream := c.yamlDecode(bytes);
    |stream.docs| <= 1 && (stream.broken ==> stream.docs == [])
  }

  /** Edits write a mapping and keep the object's header. */
  lemma EditKeepsHeader(c: Codec, u: Update, doc: Value)
    requires EditDoc(c, u, doc).Write?
    ensures doc.Map? && EditDoc(c, u, doc).doc.Map?
    ensures DecodeName(EditDoc(c, u, doc).doc) == DecodeName(doc)
    ensures DecodeHeader(EditDoc(c, u, doc).doc) == DecodeHeader(doc)
  {
    var doc' := EditDoc(c, u, doc).doc;
    assert doc' == doc.With("spec", doc'.Get("spec"));
    assert forall key :: key != "spec" ==> doc'.Get(key) == doc.Get(key);
  }

  /** A rewritten file holds the edited first document and nothing else: whatever followed that document in the
      old file is gone. */
  lemma OnlyFirstDocumentSurvives(c: Codec, u: Update, bytes: string)
    requires Lawful(c)
    requires EditFile(c, u, bytes).Rewritten?
    ensures var docs := c.yamlDecode(bytes).docs;
            var bytes' := EditFile(c, u, bytes).bytes;
            && docs != [] && EditDoc(c, u, docs[0]).Write?
            && c.yamlDecode(bytes') == Stream([EditDoc(c, u, docs[0]).doc], false)
            && bytes' == c.yamlEncode(EditDoc(c, u, docs[0]).doc)
            && FirstDoc(c, bytes') == Some(EditDoc(c, u, docs[0]).doc)
            && Single(c, bytes')
  {
    var doc := FirstDoc(c, bytes).value;
    EditKeepsHeader(c, u, doc);
    var doc' := EditDoc(c, u, doc).doc;
    assert c.yamlDecode(c.yamlEncode(Map(doc'.fields))) == Stream([doc'], false);
  }

  /** The one update that does the work of `u` followed by `v`, for two updates of the same kind. */
  function Combined(u: Update, v: Update): Option<Update> {
    match (u, v)
    case (UpdateNF(a), UpdateNF(b)) => Some(UpdateNF(Merge(a, b)))
    case (UpdateConfig(a), UpdateConfig(b)) => Some(UpdateConfig(Merge(a, b)))
    case (UpdateNad(_), UpdateNad(host)) => Some(UpdateNad(host))
    case _ => None
  }

  /** Two updates of one kind in a row leave the file that the combined update leaves. */
  lemma ComposeFile(c: Codec, u: Update, v: Update, bytes: string)
    requires Lawful(c)
    requires Combined(u, v).Some?
    ensures var first := EditFile(c, u, bytes);
            if first.Rewritten? then EditFile(c, v, first.bytes) == EditFile(c, Combined(u, v).value, bytes)
            else EditFile(c, Combined(u, v).value, bytes) == first
  {
    if FirstDoc(c, bytes).Some? {
      var doc := FirstDoc(c, bytes).value;
      match (u, v) {
        case (UpdateNF(a), UpdateNF(b)) => ComposeNF(doc, a, b);
        case (UpdateConfig(a), UpdateConfig(b)) => ComposeConfig(doc, a, b);
        case (UpdateNad(a), UpdateNad(b)) => ComposeNad(c, doc, a, b);
      }
      if EditFile(c, u, bytes).Rewritten? {
        OnlyFirstDocumentSurvives(c, u, bytes);
      }
    }
  }

  /** Updating twice is updating once, on any file at all. */
  lemma IdempotentFile(c: Codec, u: Update, bytes: string)
    requires Lawful(c)
    ensures EditFile(c, u, After(bytes, EditFile(c, u, bytes))) == EditFile(c, u, bytes)
  {
    match u {
      case UpdateNF(ips) => MergeSelf(ips);
      case UpdateConfig(ips) => MergeSelf(ips);
      case UpdateNad(_) =>
    }
    ComposeFile(c, u, u, bytes);
  }

  predicate Disjoint(u: Update, v: Update) {
    match (u, v)
    case (UpdateNF(a), UpdateNF(b)) => a.Keys !! b.Keys
    case (UpdateConfig(a), UpdateConfig(b)) => a.Keys !! b.Keys
    case _ => false
  }

  /** Whether an address update writes does not depend on the addresses. */
  lemma AddressesDoNotDecide(c: Codec, u: Update, v: Update, bytes: string)
    requires (u.UpdateNF? && v.UpdateNF?) || (u.UpdateConfig? && v.UpdateConfig?)
    ensures EditFile(c, u, bytes).Rewritten? <==> EditFile(c, v, bytes).Rewritten?
  {
    if FirstDoc(c, bytes).Some? {
      var doc := FirstDoc(c, bytes).value;
      if u.UpdateNF? && doc.Get("spec").Get("interfaces").List? {
        StrictItemsClosed(doc.Get("spec").Get("interfaces").items, u.ips);
        StrictItemsClosed(doc.Get("spec").Get("interfaces").items, v.ips);
      }
    }
  }

  /** Address updates with no interface name in common commute. */
  lemma DisjointUpdatesCommute(c: Codec, u: Update, v: Update, bytes: string)
    requires Lawful(c)
    requires Disjoint(u, v)
    ensures var uv := EditFile(c, v, After(bytes, EditFile(c, u, bytes)));
            var vu := EditFile(c, u, After(bytes, EditFile(c, v, bytes)));
            After(After(bytes, EditFile(c, u, bytes)), uv) == After(After(bytes, EditFile(c, v, bytes)), vu)
  {
    MergeDisjoint(u.ips, v.ips);
    AddressesDoNotDecide(c, u, v, bytes);
    AddressesDoNotDecide(c, u, Combined(u, v).value, bytes);
    ComposeFile(c, u, v, bytes);
    ComposeFile(c, v, u, bytes);
  }
}
