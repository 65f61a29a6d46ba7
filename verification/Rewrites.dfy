/** The three manifest rewriters as functions on document trees, and the laws they obey. */
module Rewrites {
  import opened Documents

  datatype IPInfo = IPInfo(address: string, gateway: string)

  type NewIPs = map<string, IPInfo>

  /** What an updater does with a decoded document: return without writing, write a new document, return an
      error, or panic. */
  datatype Edit = Keep | Write(doc: Value) | Fail | Panic

  // --- One interface ---

  function SetNonEmpty(v: Value, key: string, text: string): Value
    requires v.Map?
  {
    if text == "" then v else v.With(key, Str(text))
  }

  function RewriteIPv4(v: Value, info: IPInfo): Value
    requires v.Map?
  {
    SetNonEmpty(SetNonEmpty(v, "address", info.address), "gateway", info.gateway)
  }

  predicate Named(iface: Value) {
    iface.Get("name").Str?
  }

  /** The update applies to an interface with a known name and an ipv4 map. */
  predicate Addressed(iface: Value, ips: NewIPs) {
    Named(iface) && iface.Get("name").text in ips && iface.Get("ipv4").Map?
  }

  function RewriteIface(iface: Value, ips: NewIPs): Value {
    if Addressed(iface, ips)
    then iface.With("ipv4", RewriteIPv4(iface.Get("ipv4"), ips[iface.Get("name").text]))
    else iface
  }

  function RewriteAll(items: seq<Value>, ips: NewIPs): seq<Value> {
    seq(|items|, i requires 0 <= i < |items| => RewriteIface(items[i], ips))
  }

  // --- The NFDeployment updater: a nameless interface panics ---

  function StrictItems(items: seq<Value>, ips: NewIPs): Option<seq<Value>> {
    if items == [] then Some([])
    else if !Named(items[0]) then None
    else match StrictItems(items[1..], ips)
      case None => None
      case Some(rest) => Some([RewriteIface(items[0], ips)] + rest)
  }

  function EditNF(doc: Value, ips: NewIPs): Edit {
    var spec := doc.Get("spec");
    if !spec.Map? then Keep
    else
      var ifaces := spec.Get("interfaces");
      if !ifaces.List? then Keep
      else match StrictItems(ifaces.items, ips)
        case None => Panic
        case Some(items) => Write(doc.With("spec", spec.With("interfaces", List(items))))
  }

  // --- The Config updater: a nameless interface is skipped ---

  function TolerantItems(items: seq<Value>, ips: NewIPs): seq<Value> {
    if items == [] then []
    else [if Named(items[0]) then RewriteIface(items[0], ips) else items[0]] + TolerantItems(items[1..], ips)
  }

  function EditConfig(doc: Value, ips: NewIPs): Edit {
    var spec := doc.Get("spec");
    if !spec.Map? then Keep
    else
      var config := spec.Get("config");
      if !config.Map? then Keep
      else
        var nfSpec := config.Get("spec");
        if !nfSpec.Map? then Keep
        else
          var ifaces := nfSpec.Get("interfaces");
          if !ifaces.List? then Keep
          else
            var items := List(TolerantItems(ifaces.items, ips));
            Write(doc.With("spec", spec.With("config", config.With("spec", nfSpec.With("interfaces", items)))))
  }

  // --- The NAD updater: spec.config is a JSON text ---

  /** Assigning into the nil map that the JSON text `null` decodes to panics. */
  function EditNad(c: Codec, doc: Value, host: string): Edit {
    var spec := doc.Get("spec");
    if !spec.Map? then Fail
    else
      var config := spec.Get("config");
      if !config.Str? then Fail
      else match c.jsonDecode(config.text)
        case None => Fail
        case Some(cfg) =>
          if cfg.Null? then Panic
          else if !cfg.Map? then Fail
          else Write(doc.With("spec", spec.With("config", Str(c.jsonEncode(cfg.With("master", Str(host)))))))
  }

  // --- Closed forms ---

  predicate AllNamed(items: seq<Value>) {
    forall i :: 0 <= i < |items| ==> Named(items[i])
  }

  lemma {:induction false} StrictItemsClosed(items: seq<Value>, ips: NewIPs)
    ensures StrictItems(items, ips) == if AllNamed(items) then Some(RewriteAll(items, ips)) else None
  {
    if items == [] {
      assert RewriteAll(items, ips) == [];
    } else {
      var rest := items[1..];
      StrictItemsClosed(rest, ips);
      assert AllNamed(items) <==> Named(items[0]) && AllNamed(rest) by {
        assert items == [items[0]] + rest;
      }
      assert RewriteAll(items, ips) == [RewriteIface(items[0], ips)] + RewriteAll(rest, ips);
    }
  }

  lemma {:induction false} TolerantItemsClosed(items: seq<Value>, ips: NewIPs)
    ensures TolerantItems(items, ips) == RewriteAll(items, ips)
  {
    if items == [] {
    } else {
      TolerantItemsClosed(items[1..], ips);
      assert RewriteAll(items, ips) == [RewriteIface(items[0], ips)] + RewriteAll(items[1..], ips);
    }
  }

  // --- When an update writes ---

  /** `spec.config` is a text that decodes to a JSON object. */
  predicate HoldsObject(c: Codec, doc: Value) {
    var config := doc.Get("spec").Get("config");
    config.Str? && c.jsonDecode(config.text).Some? && c.jsonDecode(config.text).value.Map?
  }

  /** The NAD updater writes exactly when there is a JSON object to set the key in, whatever keys it has; it panics
      exactly when the text is `null`; everything else is an error. */
  lemma EditNadExactly(c: Codec, doc: Value, host: string)
    ensures EditNad(c, doc, host).Write? <==> HoldsObject(c, doc)
    ensures var config := doc.Get("spec").Get("config");
            EditNad(c, doc, host).Panic? <==> config.Str? && c.jsonDecode(config.text) == Some(Null)
    ensures !EditNad(c, doc, host).Keep?
  {
  }

  /** The NFDeployment updater writes exactly when there is a list of named interfaces, and panics exactly when the list
      holds another item; it is never an error. */
  lemma EditNFExactly(doc: Value, ips: NewIPs)
    ensures var interfaces := doc.Get("spec").Get("interfaces");
            && (EditNF(doc, ips).Write? <==> interfaces.List? && AllNamed(interfaces.items))
            && (EditNF(doc, ips).Panic? <==> interfaces.List? && !AllNamed(interfaces.items))
            && !EditNF(doc, ips).Fail?
  {
    if doc.Get("spec").Get("interfaces").List? {
      StrictItemsClosed(doc.Get("spec").Get("interfaces").items, ips);
    }
  }

  /** The Config updater writes exactly when there is an embedded list, and returns without writing otherwise. */
  lemma EditConfigExactly(doc: Value, ips: NewIPs)
    ensures EditConfig(doc, ips).Write? <==> doc.Get("spec").Get("config").Get("spec").Get("interfaces").List?
    ensures EditConfig(doc, ips).Write? || EditConfig(doc, ips).Keep?
  {
  }

  // --- Embedding: the Config updater is the NFDeployment updater seen through spec.config ---

  /** The NFDeployment edit of the subtree at spec.config, put back in its place. */
  function EditThroughConfig(doc: Value, ips: NewIPs): Edit {
    var spec := doc.Get("spec");
    if !spec.Map? || !spec.Get("config").Map? then Keep
    else match EditNF(spec.Get("config"), ips)
      case Write(config) => Write(doc.With("spec", spec.With("config", config)))
      case other => other
  }

  function EmbeddedInterfaces(doc: Value): Value {
    doc.Get("spec").Get("config").Get("spec").Get("interfaces")
  }

  /** The two updaters implement one function exactly on documents whose embedded interfaces are all maps with
      string names; on any other list the one skips where the other panics. */
  lemma EmbeddingLaw(doc: Value, ips: NewIPs)
    ensures EditConfig(doc, ips) == EditThroughConfig(doc, ips) <==>
            (EmbeddedInterfaces(doc).List? ==> AllNamed(EmbeddedInterfaces(doc).items))
    ensures !EditConfig(doc, ips).Panic? && !EditConfig(doc, ips).Fail?
  {
    if EmbeddedInterfaces(doc).List? {
      StrictItemsClosed(EmbeddedInterfaces(doc).items, ips);
      TolerantItemsClosed(EmbeddedInterfaces(doc).items, ips);
    }
  }

  // --- Frame: which paths a rewrite changes ---

  /** `q` leads from an interface list to, or below, one of the two fields the update sets there. */
  predicate Touched(items: seq<Value>, ips: NewIPs, q: Path) {
    && |q| >= 3
    && q[0].Index? && q[0].index < |items| && Addressed(items[q[0].index], ips)
    && q[1] == Key("ipv4")
    && (q[2] == Key("address") || q[2] == Key("gateway"))
    && NewText(items, ips, q) != ""
  }

  function NewText(items: seq<Value>, ips: NewIPs, q: Path): string
    requires |q| >= 3
    requires q[0].Index? && q[0].index < |items| && Addressed(items[q[0].index], ips)
  {
    var info := ips[items[q[0].index].Get("name").text];
    if q[2] == Key("address") then info.address else info.gateway
  }

  /** The rest of `p` below `root`, when `p` runs through it. */
  function Below(root: Path, p: Path): Option<Path> {
    if root == [] then Some(p)
    else if p != [] && p[0] == root[0] then Below(root[1..], p[1..])
    else None
  }

  /** The label that path `p` must have after the update of the interface list `items` found at `root`: a touched
      field is the new text and nothing lies below it; every other path keeps its label, so nothing is added,
      removed, reordered or rewritten there. */
  function Expected(doc: Value, root: Path, items: seq<Value>, ips: NewIPs, p: Path): Option<Label> {
    match Below(root, p)
    case Some(q) =>
      if Touched(items, ips, q)
      then (if |q| == 3 then Some(StrLabel(NewText(items, ips, q))) else None)
      else LabelAt(doc, p)
    case None => LabelAt(doc, p)
  }

  ghost predicate Framed(doc: Value, doc': Value, root: Path, ips: NewIPs) {
    && At(doc, root).Some? && At(doc, root).value.List?
    && forall p: Path :: LabelAt(doc', p) == Expected(doc, root, At(doc, root).value.items, ips, p)
  }

  lemma WithAt(v: Value, key: string, w: Value, p: Path)
    requires v.Map?
    ensures LabelAt(v.With(key, w), p) ==
            if p != [] && p[0] == Key(key) then LabelAt(w, p[1..]) else LabelAt(v, p)
  {
  }

  lemma SetNonEmptyAt(v: Value, key: string, text: string, p: Path)
    requires v.Map?
    ensures SetNonEmpty(v, key, text).Map?
    ensures LabelAt(SetNonEmpty(v, key, text), p) ==
            if p != [] && p[0] == Key(key) && text != "" then (if |p| == 1 then Some(StrLabel(text)) else None)
            else LabelAt(v, p)
  {
    WithAt(v, key, Str(text), p);
    if |p| > 1 { assert p[1..] != []; }
  }

  lemma RewriteIfaceAt(items: seq<Value>, i: nat, ips: NewIPs, p: Path)
    requires i < |items|
    ensures LabelAt(RewriteIface(items[i], ips), p) ==
            if Touched(items, ips, [Index(i)] + p)
            then (if |p| == 2 then Some(StrLabel(NewText(items, ips, [Index(i)] + p))) else None)
            else LabelAt(items[i], p)
  {
    var iface := items[i];
    if Addressed(iface, ips) {
      var info := ips[iface.Get("name").text];
      var ipv4 := iface.Get("ipv4");
      WithAt(iface, "ipv4", RewriteIPv4(ipv4, info), p);
      if p != [] && p[0] == Key("ipv4") {
        SetNonEmptyAt(ipv4, "address", info.address, p[1..]);
        SetNonEmptyAt(SetNonEmpty(ipv4, "address", info.address), "gateway", info.gateway, p[1..]);
      }
    }
  }

  lemma FrameAtList(items: seq<Value>, ips: NewIPs)
    ensures Framed(List(items), List(RewriteAll(items, ips)), [], ips)
  {
    assert At(List(items), []) == Some(List(items));
    forall p: Path
      ensures LabelAt(List(RewriteAll(items, ips)), p) == Expected(List(items), [], items, ips, p)
    {
      if p != [] && p[0].Index? && p[0].index < |items| {
        assert p == [p[0]] + p[1..];
        RewriteIfaceAt(items, p[0].index, ips, p[1..]);
      }
    }
  }

  /** A frame below one key is a frame of the whole. */
  lemma FrameUnderKey(doc: Value, key: string, w: Value, root: Path, ips: NewIPs)
    requires doc.Map? && key in doc.fields
    requires Framed(doc.Get(key), w, root, ips)
    ensures Framed(doc, doc.With(key, w), [Key(key)] + root, ips)
  {
    StepInto(doc, Key(key), root);
    var items := At(doc.Get(key), root).value.items;
    forall p: Path
      ensures LabelAt(doc.With(key, w), p) == Expected(doc, [Key(key)] + root, items, ips, p)
    {
      WithAt(doc, key, w, p);
      assert ([Key(key)] + root)[1..] == root;
      if p != [] && p[0] == Key(key) {
        assert LabelAt(w, p[1..]) == Expected(doc.Get(key), root, items, ips, p[1..]);
      }
    }
  }

  const NF_INTERFACES: Path := [Key("spec")] + ([Key("interfaces")] + [])

  const CONFIG_INTERFACES: Path := [Key("spec")] + ([Key("config")] + NF_INTERFACES)

  /** Path-level frame of the NFDeployment updater. */
  lemma FrameNF(doc: Value, ips: NewIPs)
    requires EditNF(doc, ips).Write?
    ensures Framed(doc, EditNF(doc, ips).doc, NF_INTERFACES, ips)
  {
    var spec := doc.Get("spec");
    var items := spec.Get("interfaces").items;
    StrictItemsClosed(items, ips);
    FrameAtList(items, ips);
    FrameUnderKey(spec, "interfaces", List(RewriteAll(items, ips)), [], ips);
    FrameUnderKey(doc, "spec", EditNF(doc, ips).doc.Get("spec"), [Key("interfaces")] + [], ips);
  }

  /** Path-level frame of the Config updater, through the embedding. */
  lemma FrameConfig(doc: Value, ips: NewIPs)
    requires EditConfig(doc, ips).Write?
    ensures Framed(doc, EditConfig(doc, ips).doc, CONFIG_INTERFACES, ips)
  {
    var spec := doc.Get("spec");
    var config := spec.Get("config");
    var nfSpec := config.Get("spec");
    var items := nfSpec.Get("interfaces").items;
    TolerantItemsClosed(items, ips);
    FrameAtList(items, ips);
    var nfSpec' := nfSpec.With("interfaces", List(RewriteAll(items, ips)));
    FrameUnderKey(nfSpec, "interfaces", List(RewriteAll(items, ips)), [], ips);
    FrameUnderKey(config, "spec", nfSpec', [Key("interfaces")] + [], ips);
    FrameUnderKey(spec, "config", config.With("spec", nfSpec'), NF_INTERFACES, ips);
    FrameUnderKey(doc, "spec", spec.With("config", config.With("spec", nfSpec')), [Key("config")] + NF_INTERFACES, ips);
  }

  /** The frame leaves no choice: it holds of one result only. */
  lemma OneFramedResult(doc: Value, a: Value, b: Value, root: Path, ips: NewIPs)
    requires Framed(doc, a, root, ips) && Framed(doc, b, root, ips)
    ensures a == b
  {
    forall p: Path
      ensures LabelAt(a, p) == LabelAt(b, p)
    {
      assert LabelAt(a, p) == Expected(doc, root, At(doc, root).value.items, ips, p);
    }
    LabelsDetermineTree(a, b);
  }

  /** So the frames say all there is to say about the two updaters. */
  lemma FramedExactly(doc: Value, ips: NewIPs, doc': Value)
    ensures EditNF(doc, ips).Write? ==> (Framed(doc, doc', NF_INTERFACES, ips) <==> doc' == EditNF(doc, ips).doc)
    ensures EditConfig(doc, ips).Write? ==>
              (Framed(doc, doc', CONFIG_INTERFACES, ips) <==> doc' == EditConfig(doc, ips).doc)
  {
    if EditNF(doc, ips).Write? {
      FrameNF(doc, ips);
      if Framed(doc, doc', NF_INTERFACES, ips) {
        OneFramedResult(doc, doc', EditNF(doc, ips).doc, NF_INTERFACES, ips);
      }
    }
    if EditConfig(doc, ips).Write? {
      FrameConfig(doc, ips);
      if Framed(doc, doc', CONFIG_INTERFACES, ips) {
        OneFramedResult(doc, doc', EditConfig(doc, ips).doc, CONFIG_INTERFACES, ips);
      }
    }
  }

  /** The NAD updater: decoding the new spec.config gives the old JSON object with exactly `master` set, and no
      path outside spec.config changes. */
  lemma FrameNad(c: Codec, doc: Value, host: string, p: Path)
    requires Lawful(c)
    requires EditNad(c, doc, host).Write?
    ensures var doc' := EditNad(c, doc, host).doc;
            var cfg := c.jsonDecode(doc.Get("spec").Get("config").text);
            && doc'.Get("spec").Get("config").Str?
            && cfg.Some? && cfg.value.Map?
            && c.jsonDecode(doc'.Get("spec").Get("config").text) ==
               Some(Map(cfg.value.fields["master" := Str(host)]))
            && (!(|p| >= 2 && p[0] == Key("spec") && p[1] == Key("config")) ==> LabelAt(doc', p) == LabelAt(doc, p))
  {
    var doc' := EditNad(c, doc, host).doc;
    if |p| >= 1 && p[0] == Key("spec") {
      assert At(doc, p) == At(doc.Get("spec"), p[1..]);
      assert At(doc', p) == At(doc'.Get("spec"), p[1..]);
    }
  }

  // --- Composition ---

  function Override(a: IPInfo, b: IPInfo): IPInfo {
    IPInfo(if b.address != "" then b.address else a.address, if b.gateway != "" then b.gateway else a.gateway)
  }

  /** `b` over `a`, field by field and only where `b` is non-empty. */
  function Merge(a: NewIPs, b: NewIPs): NewIPs {
    map n | n in a.Keys + b.Keys ::
      if n !in b then a[n] else if n !in a then b[n] else Override(a[n], b[n])
  }

  lemma MergeIface(iface: Value, a: NewIPs, b: NewIPs)
    ensures RewriteIface(RewriteIface(iface, a), b) == RewriteIface(iface, Merge(a, b))
    ensures Named(RewriteIface(iface, a)) == Named(iface)
  {
    if Addressed(iface, a) {
      var name := iface.Get("name").text;
      var ipv4 := iface.Get("ipv4");
      var iface1 := RewriteIface(iface, a);
      assert iface1.Get("name") == iface.Get("name");
      assert iface1.Get("ipv4") == RewriteIPv4(ipv4, a[name]);
      if name in b {
        assert RewriteIPv4(RewriteIPv4(ipv4, a[name]), b[name]).fields ==
               RewriteIPv4(ipv4, Override(a[name], b[name])).fields;
        assert RewriteIface(iface1, b).fields == RewriteIface(iface, Merge(a, b)).fields;
      }
    }
  }

  lemma MergeAll(items: seq<Value>, a: NewIPs, b: NewIPs)
    ensures RewriteAll(RewriteAll(items, a), b) == RewriteAll(items, Merge(a, b))
    ensures AllNamed(RewriteAll(items, a)) == AllNamed(items)
  {
    forall i | 0 <= i < |items|
      ensures RewriteIface(RewriteIface(items[i], a), b) == RewriteIface(items[i], Merge(a, b))
      ensures Named(RewriteAll(items, a)[i]) == Named(items[i])
    {
      MergeIface(items[i], a, b);
    }
  }

  lemma WithTwice(v: Value, key: string, a: Value, b: Value)
    requires v.Map?
    ensures v.With(key, a).With(key, b) == v.With(key, b)
    ensures v.With(key, a).Get(key) == a
  {
  }

  /** Applying map A and then B is applying one merged map; the NFDeployment updater. */
  lemma ComposeNF(doc: Value, a: NewIPs, b: NewIPs)
    ensures match EditNF(doc, a)
            case Write(doc') => EditNF(doc', b) == EditNF(doc, Merge(a, b))
            case other => EditNF(doc, Merge(a, b)) == other
  {
    if doc.Get("spec").Get("interfaces").List? {
      var items := doc.Get("spec").Get("interfaces").items;
      StrictItemsClosed(items, a);
      StrictItemsClosed(items, Merge(a, b));
      StrictItemsClosed(RewriteAll(items, a), b);
      MergeAll(items, a, b);
      if AllNamed(items) {
        var spec := doc.Get("spec");
        var first := List(RewriteAll(items, a));
        var both := List(RewriteAll(items, Merge(a, b)));
        WithTwice(spec, "interfaces", first, both);
        WithTwice(doc, "spec", spec.With("interfaces", first), spec.With("interfaces", both));
      }
    }
  }

  function PutInterfaces(doc: Value, items: seq<Value>): Value
    requires doc.Get("spec").Get("interfaces").List?
  {
    doc.With("spec", doc.Get("spec").With("interfaces", List(items)))
  }

  lemma EditNFShape(doc: Value, ips: NewIPs)
    ensures EditNF(doc, ips) ==
            if !doc.Get("spec").Get("interfaces").List? then Keep
            else if !AllNamed(doc.Get("spec").Get("interfaces").items) then Panic
            else Write(PutInterfaces(doc, RewriteAll(doc.Get("spec").Get("interfaces").items, ips)))
  {
    if doc.Get("spec").Get("interfaces").List? {
      StrictItemsClosed(doc.Get("spec").Get("interfaces").items, ips);
    }
  }

  lemma EditConfigShape(doc: Value, ips: NewIPs)
    ensures EditConfig(doc, ips) ==
            if !EmbeddedInterfaces(doc).List? then Keep
            else Write(PutEmbedded(doc, RewriteAll(EmbeddedInterfaces(doc).items, ips)))
  {
    if EmbeddedInterfaces(doc).List? {
      TolerantItemsClosed(EmbeddedInterfaces(doc).items, ips);
    }
  }

  function PutEmbedded(doc: Value, items: seq<Value>): Value
    requires EmbeddedInterfaces(doc).List?
  {
    var spec := doc.Get("spec");
    var config := spec.Get("config");
    doc.With("spec", spec.With("config", config.With("spec", config.Get("spec").With("interfaces", List(items)))))
  }

  lemma PutEmbeddedTwice(doc: Value, a: seq<Value>, b: seq<Value>)
    requires EmbeddedInterfaces(doc).List?
    ensures EmbeddedInterfaces(PutEmbedded(doc, a)) == List(a)
    ensures PutEmbedded(PutEmbedded(doc, a), b) == PutEmbedded(doc, b)
  {
    var spec := doc.Get("spec");
    var config := spec.Get("config");
    var nfSpec := config.Get("spec");
    var nfSpecA, nfSpecB := nfSpec.With("interfaces", List(a)), nfSpec.With("interfaces", List(b));
    var configA, configB := config.With("spec", nfSpecA), config.With("spec", nfSpecB);
    WithTwice(nfSpec, "interfaces", List(a), List(b));
    WithTwice(config, "spec", nfSpecA, nfSpecB);
    WithTwice(spec, "config", configA, configB);
    WithTwice(doc, "spec", spec.With("config", configA), spec.With("config", configB));
  }

  /** The same law for the Config updater. */
  lemma ComposeConfig(doc: Value, a: NewIPs, b: NewIPs)
    ensures match EditConfig(doc, a)
            case Write(doc') => EditConfig(doc', b) == EditConfig(doc, Merge(a, b))
            case other => EditConfig(doc, Merge(a, b)) == other
  {
    EditConfigShape(doc, a);
    EditConfigShape(doc, Merge(a, b));
    if EmbeddedInterfaces(doc).List? {
      var items := EmbeddedInterfaces(doc).items;
      MergeAll(items, a, b);
      PutEmbeddedTwice(doc, RewriteAll(items, a), RewriteAll(items, Merge(a, b)));
      EditConfigShape(PutEmbedded(doc, RewriteAll(items, a)), b);
    }
  }

  lemma MergeSelf(a: NewIPs)
    ensures Merge(a, a) == a
  {
  }

  lemma MergeDisjoint(a: NewIPs, b: NewIPs)
    requires a.Keys !! b.Keys
    ensures Merge(a, b) == Merge(b, a)
  {
  }

  /** Of two NAD updates only the second shows. */
  lemma ComposeNad(c: Codec, doc: Value, host1: string, host2: string)
    requires Lawful(c)
    ensures match EditNad(c, doc, host1)
            case Write(doc') => EditNad(c, doc', host2) == EditNad(c, doc, host2)
            case other => EditNad(c, doc, host2) == other
  {
    if EditNad(c, doc, host1).Write? {
      var spec := doc.Get("spec");
      var cfg := c.jsonDecode(spec.Get("config").text).value;
      var cfg1 := cfg.With("master", Str(host1));
      assert c.jsonDecode(c.jsonEncode(Map(cfg1.fields))) == Some(cfg1);
      var text1, text2 := Str(c.jsonEncode(cfg1)), Str(c.jsonEncode(cfg.With("master", Str(host2))));
      WithTwice(cfg, "master", Str(host1), Str(host2));
      WithTwice(spec, "config", text1, text2);
      WithTwice(doc, "spec", spec.With("config", text1), spec.With("config", text2));
    }
  }
}
