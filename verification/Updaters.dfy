/** The three updaters as they work: in place, on decoded map objects. */
module Updaters {
  import opened Documents
  import opened Rewrites
  import opened HeapDocs

  /** How the in-place part of an updater ends. */
  datatype Ending = Returned | Changed | Errored | Panicking

  ghost predicate Holds(c: Cell, v: Value, s: set<GoMap>)
    reads s
  {
    Denotes(Snapshot(s), c, v) && Foot(Snapshot(s), c, v) <= s
  }

  /** Reading a key of a map, or of a value that is no map. */
  function Get(c: Cell, key: string): Cell
    reads if c.MapCell? then {c.node} else {}
  {
    if c.MapCell? && key in c.node.entries then c.node.entries[key] else NilCell
  }

  /** The same on a heap value. */
  ghost function Field(h: Heap, c: Cell, key: string): Cell {
    if c.MapCell? && c.node in h && key in h[c.node] then h[c.node][key] else NilCell
  }

  lemma FieldDenotes(h: Heap, c: Cell, v: Value, key: string)
    requires Denotes(h, c, v)
    ensures Denotes(h, Field(h, c, key), v.Get(key))
    ensures Foot(h, Field(h, c, key), v.Get(key)) <= Foot(h, c, v)
  {
    if v.Map? && key in v.fields {
      assert [Key(key)][1..] == [];
      DenotesAt(h, c, v, [Key(key)]);
    }
  }

  lemma GetHolds(c: Cell, v: Value, s: set<GoMap>, key: string)
    requires Holds(c, v, s)
    ensures Holds(Get(c, key), v.Get(key), s)
    ensures Get(c, key) == Field(Snapshot(s), c, key)
    ensures KindOf(c) == LabelOf(v) && (c.MapCell? ==> c.node in s)
    ensures KindOf(Get(c, key)) == LabelOf(v.Get(key))
  {
    FieldDenotes(Snapshot(s), c, v, key);
    if c.MapCell? {
      assert c.node in Foot(Snapshot(s), c, v);
    }
  }

  function KindOf(c: Cell): Label {
    match c
    case NilCell => NullLabel
    case StrCell(t) => StrLabel(t)
    case ScalarCell(t) => ScalarLabel(t)
    case ListCell(items) => ListLabel(|items|)
    case MapCell(_) => MapLabel
  }

  /** The heap holds `v`, whose interface list is at `root`, in the slice `cells`. */
  ghost predicate HoldsList(doc: Cell, v: Value, s: set<GoMap>, root: Path, items: seq<Value>, cells: seq<Cell>)
    reads s
  {
    && Holds(doc, v, s)
    && At(v, root) == Some(List(items))
    && CellAt(Snapshot(s), doc, root) == Some(ListCell(cells))
  }

  /** The same on a heap value. */
  ghost predicate DenotesList(h: Heap, doc: Cell, v: Value, root: Path, items: seq<Value>, cells: seq<Cell>) {
    && Denotes(h, doc, v)
    && At(v, root) == Some(List(items))
    && CellAt(h, doc, root) == Some(ListCell(cells))
  }

  /** What one assignment into the ipv4 map of an interface does. */
  lemma AssignIPv4(h: Heap, doc: Cell, v: Value, root: Path, items: seq<Value>, cells: seq<Cell>, i: nat, node: GoMap,
                   key: string, text: string)
    requires DenotesList(h, doc, v, root, items, cells)
    requires i < |items| == |cells|
    requires Field(h, cells[i], "ipv4") == MapCell(node)
    ensures node in h && node != cells[i].node && node in Foot(h, doc, v)
    ensures items[i].Map? && items[i].Get("ipv4").Map?
    ensures var items' := items[i := items[i].With("ipv4", items[i].Get("ipv4").With(key, Str(text)))];
            var h' := Assign(h, node, key, text);
            && DenotesList(h', doc, Replace(v, root, List(items')), root, items', cells)
            && Foot(h', doc, Replace(v, root, List(items'))) <= Foot(h, doc, v)
  {
    var q := [Index(i), Key("ipv4")];
    DenotesAt(h, doc, v, root);
    FieldDenotes(h, cells[i], items[i], "ipv4");
    assert "ipv4" in items[i].fields;
    var w := items[i].Get("ipv4").With(key, Str(text));
    ReplaceInList(items, i, w);
    WayToNode(h, doc, root, cells, i, node);
    AssignKeepsWay(h, doc, v, root, q, key, text);
    AssignAt(h, doc, v, root + q, key, text);
    ReplaceBelow(v, root, q, w);
    ReplaceAt(v, root, List(items[i := items[i].With("ipv4", w)]), Null);
    OwnNode(h, cells[i], items[i], "ipv4");
  }

  lemma OwnNode(h: Heap, c: Cell, v: Value, key: string)
    requires Denotes(h, c, v) && Field(h, c, key).MapCell?
    ensures Field(h, c, key).node != c.node
  {
    FieldDenotes(h, c, v, key);
    assert Field(h, c, key).node in Foot(h, Field(h, c, key), v.Get(key));
  }

  lemma {:induction false} WayToNode(h: Heap, doc: Cell, root: Path, cells: seq<Cell>, i: nat, node: GoMap)
    requires CellAt(h, doc, root) == Some(ListCell(cells))
    requires i < |cells| && Field(h, cells[i], "ipv4") == MapCell(node)
    ensures CellAt(h, doc, root + [Index(i), Key("ipv4")]) == Some(MapCell(node))
    decreases |root|
  {
    var q := [Index(i), Key("ipv4")];
    if root == [] {
      assert root + q == q;
      assert q[1..] == [Key("ipv4")] && q[1..][1..] == [];
      assert CellAt(h, cells[i], [Key("ipv4")]) == CellAt(h, MapCell(node), [Key("ipv4")][1..]);
    } else {
      assert (root + q)[1..] == root[1..] + q;
      match root[0]
      case Key(k) => WayToNode(h, h[doc.node][k], root[1..], cells, i, node);
      case Index(j) => WayToNode(h, doc.items[j], root[1..], cells, i, node);
    }
  }

  /** One assignment into the ipv4 map of an interface. */
  method SetField(node: GoMap, key: string, text: string, ghost doc: Cell, ghost v: Value, ghost s: set<GoMap>,
                  ghost root: Path, ghost items: seq<Value>, ghost cells: seq<Cell>, ghost i: nat)
    returns (ghost items': seq<Value>)
    requires HoldsList(doc, v, s, root, items, cells)
    requires i < |items| == |cells|
    requires cells[i].MapCell? && cells[i].node in s && Get(cells[i], "ipv4") == MapCell(node)
    modifies s
    ensures items[i].Map? && items[i].Get("ipv4").Map?
    ensures items' == items[i := items[i].With("ipv4", items[i].Get("ipv4").With(key, Str(text)))]
    ensures HoldsList(doc, Replace(v, root, List(items')), s, root, items', cells)
    ensures Get(cells[i], "ipv4") == MapCell(node)
  {
    ghost var h := Snapshot(s);
    AssignIPv4(h, doc, v, root, items, cells, i, node, key, text);
    items' := items[i := items[i].With("ipv4", items[i].Get("ipv4").With(key, Str(text)))];
    node.Set(key, text, s);
  }

  lemma ReplaceInList(items: seq<Value>, i: nat, w: Value)
    requires i < |items| && items[i].Map? && "ipv4" in items[i].fields
    ensures At(List(items), [Index(i), Key("ipv4")]) == Some(items[i].fields["ipv4"])
    ensures Replace(List(items), [Index(i), Key("ipv4")], w) == List(items[i := items[i].With("ipv4", w)])
  {
    var q := [Index(i), Key("ipv4")];
    assert q[1..] == [Key("ipv4")] && q[1..][1..] == [];
    assert At(items[i], [Key("ipv4")]) == Some(items[i].fields["ipv4"]);
    assert Replace(items[i], [Key("ipv4")], w) == items[i].With("ipv4", w);
  }

  lemma TwoFields(items: seq<Value>, i: nat, info: IPInfo)
    requires i < |items| && items[i].Map? && items[i].Get("ipv4").Map?
    ensures var ipv4 := items[i].Get("ipv4");
            var one := if info.address == "" then items
                       else items[i := items[i].With("ipv4", ipv4.With("address", Str(info.address)))];
            && one[i].Map? && one[i].Get("ipv4") == SetNonEmpty(ipv4, "address", info.address)
            && (info.gateway == "" ==> one == items[i := items[i].With("ipv4", RewriteIPv4(ipv4, info))])
            && (info.gateway != "" ==>
                  one[i := one[i].With("ipv4", one[i].Get("ipv4").With("gateway", Str(info.gateway)))] ==
                  items[i := items[i].With("ipv4", RewriteIPv4(ipv4, info))])
  {
    var ipv4 := items[i].Get("ipv4");
    WithTwice(items[i], "ipv4", ipv4.With("address", Str(info.address)), RewriteIPv4(ipv4, info));
    assert items[i].With("ipv4", ipv4) == items[i] by { assert items[i].fields["ipv4" := ipv4] == items[i].fields; }
  }

  /** Both assignments, each for a non-empty text only. */
  method SetIPv4(node: GoMap, info: IPInfo, ghost doc: Cell, ghost v: Value, ghost s: set<GoMap>, ghost root: Path,
                 ghost items: seq<Value>, ghost cells: seq<Cell>, ghost i: nat)
    returns (ghost v': Value)
    requires HoldsList(doc, v, s, root, items, cells)
    requires i < |items| == |cells|
    requires cells[i].MapCell? && cells[i].node in s && Get(cells[i], "ipv4") == MapCell(node)
    requires items[i].Map? && items[i].Get("ipv4").Map?
    modifies s
    ensures var items' := items[i := items[i].With("ipv4", RewriteIPv4(items[i].Get("ipv4"), info))];
            v' == Replace(v, root, List(items')) && HoldsList(doc, v', s, root, items', cells)
  {
    ReplaceAt(v, root, Null, Null);
    v' := v;
    ghost var items' := items;
    if info.address != "" {
      items' := SetField(node, "address", info.address, doc, v', s, root, items', cells, i);
      v' := Replace(v, root, List(items'));
    }
    if info.gateway != "" {
      ReplaceAt(v, root, List(items'), Null);
      ghost var items1 := items';
      items' := SetField(node, "gateway", info.gateway, doc, v', s, root, items', cells, i);
      ReplaceAt(v, root, List(items1), List(items'));
      v' := Replace(v, root, List(items'));
    }
    TwoFields(items, i, info);
  }

  /** The body shared by both loops: an interface whose name has new addresses. */
  method SetAddresses(name: string, ips: NewIPs, cell: Cell, ghost doc: Cell, ghost v: Value, ghost s: set<GoMap>,
                      ghost root: Path, ghost items: seq<Value>, ghost cells: seq<Cell>, ghost i: nat)
    returns (ghost v': Value)
    requires HoldsList(doc, v, s, root, items, cells)
    requires i < |items| == |cells| && cell == cells[i]
    requires items[i].Get("name") == Str(name)
    modifies s
    ensures var items' := items[i := RewriteIface(items[i], ips)];
            v' == Replace(v, root, List(items')) && HoldsList(doc, v', s, root, items', cells)
  {
    ghost var h := Snapshot(s);
    DenotesAt(h, doc, v, root);
    assert Holds(cell, items[i], s) by {
      assert Denotes(h, cells[i], items[i]);
      assert Foot(h, cells[i], items[i]) <= Foot(h, ListCell(cells), List(items));
    }
    assert cell.node in Foot(h, cell, items[i]);
    ReplaceAt(v, root, Null, Null);
    v' := v;
    assert items[i := items[i]] == items;
    if name in ips {
      var ipv4 := Get(cell, "ipv4");
      GetHolds(cell, items[i], s, "ipv4");
      if ipv4.MapCell? {
        v' := SetIPv4(ipv4.node, ips[name], doc, v, s, root, items, cells, i);
      }
    }
  }

  /** The first `i` interfaces rewritten. */
  function Partly(items: seq<Value>, ips: NewIPs, i: nat): seq<Value>
    requires i <= |items|
  {
    RewriteAll(items[..i], ips) + items[i..]
  }

  lemma PartlyNext(items: seq<Value>, ips: NewIPs, i: nat)
    requires i < |items|
    ensures Partly(items, ips, i)[i] == items[i]
    ensures Partly(items, ips, i)[i := RewriteIface(items[i], ips)] == Partly(items, ips, i + 1)
  {
  }

  /** After `i` rounds of the loop over the interface list at `root`. */
  ghost predicate Progress(doc: Cell, v: Value, s: set<GoMap>, root: Path, items: seq<Value>, cells: seq<Cell>,
                           ips: NewIPs, i: nat)
    reads s
  {
    && i <= |items| == |cells|
    && At(v, root) == Some(List(items))
    && HoldsList(doc, Replace(v, root, List(Partly(items, ips, i))), s, root, Partly(items, ips, i), cells)
  }

  lemma Start(doc: Cell, v: Value, s: set<GoMap>, root: Path, items: seq<Value>, cells: seq<Cell>, ips: NewIPs)
    requires HoldsList(doc, v, s, root, items, cells)
    ensures Progress(doc, v, s, root, items, cells, ips, 0)
  {
    assert Partly(items, ips, 0) == items;
    ReplaceAt(v, root, Null, Null);
    DenotesAt(Snapshot(s), doc, v, root);
  }

  lemma CurrentItem(doc: Cell, v: Value, s: set<GoMap>, root: Path, items: seq<Value>, cells: seq<Cell>, ips: NewIPs,
                    i: nat)
    requires Progress(doc, v, s, root, items, cells, ips, i) && i < |items|
    ensures Holds(cells[i], items[i], s)
  {
    PartlyNext(items, ips, i);
    ItemHolds(doc, Replace(v, root, List(Partly(items, ips, i))), s, root, Partly(items, ips, i), cells, i);
  }

  /** A round that leaves its interface alone. */
  lemma Skip(doc: Cell, v: Value, s: set<GoMap>, root: Path, items: seq<Value>, cells: seq<Cell>, ips: NewIPs, i: nat)
    requires Progress(doc, v, s, root, items, cells, ips, i) && i < |items|
    requires RewriteIface(items[i], ips) == items[i]
    ensures Progress(doc, v, s, root, items, cells, ips, i + 1)
  {
    PartlyNext(items, ips, i);
    assert Partly(items, ips, i)[i := items[i]] == Partly(items, ips, i);
  }

  /** A round on a named interface. */
  method Round(name: string, ips: NewIPs, cell: Cell, ghost doc: Cell, ghost v: Value, ghost s: set<GoMap>,
               ghost root: Path, ghost items: seq<Value>, ghost cells: seq<Cell>, ghost i: nat)
    requires Progress(doc, v, s, root, items, cells, ips, i) && i < |items|
    requires cell == cells[i] && items[i].Get("name") == Str(name)
    modifies s
    ensures Progress(doc, v, s, root, items, cells, ips, i + 1)
  {
    ghost var now := Partly(items, ips, i);
    PartlyNext(items, ips, i);
    ReplaceAt(v, root, List(now), List(Partly(items, ips, i + 1)));
    ghost var _ := SetAddresses(name, ips, cell, doc, Replace(v, root, List(now)), s, root, now, cells, i);
  }

  /** The drill-down to spec.interfaces. */
  method NFInterfaces(doc: Cell, ghost v: Value, ghost s: set<GoMap>) returns (cells: Option<seq<Cell>>)
    requires Holds(doc, v, s)
    ensures cells.Some? <==> v.Get("spec").Get("interfaces").List?
    ensures cells.Some? ==>
              HoldsList(doc, v, s, NF_INTERFACES, v.Get("spec").Get("interfaces").items, cells.value)
  {
    var spec := Get(doc, "spec");
    GetHolds(doc, v, s, "spec");
    if !spec.MapCell? {
      return None;
    }
    var ifaces := Get(spec, "interfaces");
    GetHolds(spec, v.Get("spec"), s, "interfaces");
    if !ifaces.ListCell? {
      return None;
    }
    NFRoot(Snapshot(s), doc, v);
    return Some(ifaces.items);
  }

  /** One round of the strict loop; both type assertions panic when they fail. */
  method NFRound(m: Cell, ips: NewIPs, ghost doc: Cell, ghost v: Value, ghost s: set<GoMap>, ghost root: Path,
                 ghost items: seq<Value>, ghost cells: seq<Cell>, ghost i: nat)
    returns (panics: bool)
    requires Progress(doc, v, s, root, items, cells, ips, i) && i < |items| && m == cells[i]
    modifies s
    ensures panics <==> !Named(items[i])
    ensures !panics ==> Progress(doc, v, s, root, items, cells, ips, i + 1)
  {
    CurrentItem(doc, v, s, root, items, cells, ips, i);
    GetHolds(m, items[i], s, "name");
    if !m.MapCell? {
      return true;
    }
    var name := Get(m, "name");
    if !name.StrCell? {
      return true;
    }
    Round(name.text, ips, m, doc, v, s, root, items, cells, i);
    return false;
  }

  /** One round of the tolerant loop; it continues with the next interface when an assertion fails. */
  method ConfigRound(iface: Cell, ips: NewIPs, ghost doc: Cell, ghost v: Value, ghost s: set<GoMap>, ghost root: Path,
                     ghost items: seq<Value>, ghost cells: seq<Cell>, ghost i: nat)
    requires Progress(doc, v, s, root, items, cells, ips, i) && i < |items| && iface == cells[i]
    modifies s
    ensures Progress(doc, v, s, root, items, cells, ips, i + 1)
  {
    CurrentItem(doc, v, s, root, items, cells, ips, i);
    GetHolds(iface, items[i], s, "name");
    if !iface.MapCell? {
      Skip(doc, v, s, root, items, cells, ips, i);
      return;
    }
    var name := Get(iface, "name");
    if !name.StrCell? {
      Skip(doc, v, s, root, items, cells, ips, i);
      return;
    }
    Round(name.text, ips, iface, doc, v, s, root, items, cells, i);
  }

  lemma Finish(doc: Cell, v: Value, s: set<GoMap>, root: Path, items: seq<Value>, cells: seq<Cell>, ips: NewIPs)
    requires Progress(doc, v, s, root, items, cells, ips, |items|)
    ensures At(v, root).Some? && Holds(doc, Replace(v, root, List(RewriteAll(items, ips))), s)
  {
    assert Partly(items, ips, |items|) == RewriteAll(items, ips);
  }

  /** The strict loop. */
  method NFLoop(cells: seq<Cell>, ips: NewIPs, ghost doc: Cell, ghost v: Value, ghost s: set<GoMap>, ghost root: Path,
                ghost items: seq<Value>)
    returns (panics: bool)
    requires Progress(doc, v, s, root, items, cells, ips, 0)
    modifies s
    ensures panics <==> !AllNamed(items)
    ensures !panics ==> Progress(doc, v, s, root, items, cells, ips, |items|)
  {
    for i := 0 to |cells|
      invariant Progress(doc, v, s, root, items, cells, ips, i)
      invariant forall j :: 0 <= j < i ==> Named(items[j])
    {
      panics := NFRound(cells[i], ips, doc, v, s, root, items, cells, i);
      if panics {
        return;
      }
    }
    panics := false;
  }

  /** UpdateInterfaceIPsNFDeployment, between decoding and encoding. */
  method UpdateNFInPlace(doc: Cell, ips: NewIPs, ghost v: Value, ghost s: set<GoMap>) returns (r: Ending)
    requires Holds(doc, v, s)
    modifies s
    ensures match EditNF(v, ips)
            case Keep => r == Returned && Holds(doc, v, s)
            case Write(v') => r == Changed && Holds(doc, v', s)
            case Panic => r == Panicking
            case Fail => false
  {
    EditNFShape(v, ips);
    var found := NFInterfaces(doc, v, s);
    if found.None? {
      return Returned;
    }
    ghost var items := v.Get("spec").Get("interfaces").items;
    Start(doc, v, s, NF_INTERFACES, items, found.value, ips);
    var panics := NFLoop(found.value, ips, doc, v, s, NF_INTERFACES, items);
    if panics {
      return Panicking;
    }
    Finish(doc, v, s, NF_INTERFACES, items, found.value, ips);
    NFReplace(v, List(RewriteAll(items, ips)));
    return Changed;
  }

  /** The drill-down to spec.config.spec.interfaces. */
  method ConfigInterfaces(doc: Cell, ghost v: Value, ghost s: set<GoMap>) returns (cells: Option<seq<Cell>>)
    requires Holds(doc, v, s)
    ensures cells.Some? <==> EmbeddedInterfaces(v).List?
    ensures cells.Some? ==> HoldsList(doc, v, s, CONFIG_INTERFACES, EmbeddedInterfaces(v).items, cells.value)
  {
    var spec := Get(doc, "spec");
    GetHolds(doc, v, s, "spec");
    if !spec.MapCell? {
      return None;
    }
    var config := Get(spec, "config");
    GetHolds(spec, v.Get("spec"), s, "config");
    if !config.MapCell? {
      return None;
    }
    var nfSpec := Get(config, "spec");
    GetHolds(config, v.Get("spec").Get("config"), s, "spec");
    if !nfSpec.MapCell? {
      return None;
    }
    var ifaces := Get(nfSpec, "interfaces");
    GetHolds(nfSpec, v.Get("spec").Get("config").Get("spec"), s, "interfaces");
    if !ifaces.ListCell? {
      return None;
    }
    ConfigRoot(Snapshot(s), doc, v);
    return Some(ifaces.items);
  }

  /** UpdateInterfaceIPsConfigRefs, between decoding and encoding. */
  method UpdateConfigInPlace(doc: Cell, ips: NewIPs, ghost v: Value, ghost s: set<GoMap>) returns (r: Ending)
    requires Holds(doc, v, s)
    modifies s
    ensures match EditConfig(v, ips)
            case Keep => r == Returned && Holds(doc, v, s)
            case Write(v') => r == Changed && Holds(doc, v', s)
            case _ => false
  {
    EditConfigShape(v, ips);
    var found := ConfigInterfaces(doc, v, s);
    if found.None? {
      return Returned;
    }
    var cells := found.value;
    ghost var items := EmbeddedInterfaces(v).items;
    Start(doc, v, s, CONFIG_INTERFACES, items, cells, ips);
    for i := 0 to |cells|
      invariant Progress(doc, v, s, CONFIG_INTERFACES, items, cells, ips, i)
    {
      ConfigRound(cells[i], ips, doc, v, s, CONFIG_INTERFACES, items, cells, i);
    }
    Finish(doc, v, s, CONFIG_INTERFACES, items, cells, ips);
    ConfigReplace(v, RewriteAll(items, ips));
    return Changed;
  }

  /** Assigning one key of a map at the top of a tree. */
  method SetTop(node: GoMap, key: string, text: string, ghost v: Value, ghost s: set<GoMap>)
    requires Holds(MapCell(node), v, s)
    modifies s
    ensures v.Map? && Holds(MapCell(node), v.With(key, Str(text)), s)
  {
    ghost var h := Snapshot(s);
    AssignHere(h, MapCell(node), v, key, text);
    assert node in Foot(h, MapCell(node), v);
    node.Set(key, text, s);
  }

  lemma AssignInSpec(h: Heap, doc: Cell, v: Value, spec: GoMap, key: string, text: string)
    requires Denotes(h, doc, v) && v.Get("spec").Map? && Field(h, doc, "spec") == MapCell(spec)
    ensures spec in h && spec in Foot(h, doc, v)
    ensures var v' := v.With("spec", v.Get("spec").With(key, Str(text)));
            Denotes(Assign(h, spec, key, text), doc, v') && Foot(Assign(h, spec, key, text), doc, v') <= Foot(h, doc, v)
  {
    var p := [Key("spec")];
    assert p[1..] == [];
    assert CellAt(h, doc, p) == Some(MapCell(spec));
    assert At(v, p) == Some(v.Get("spec"));
    AssignAt(h, doc, v, p, key, text);
    assert Replace(v, p, v.Get("spec").With(key, Str(text))) == v.With("spec", v.Get("spec").With(key, Str(text)));
  }

  /** Assigning one key of the map at `spec`. */
  method SetInSpec(spec: GoMap, key: string, text: string, ghost doc: Cell, ghost v: Value, ghost s: set<GoMap>)
    requires Holds(doc, v, s) && v.Get("spec").Map? && Field(Snapshot(s), doc, "spec") == MapCell(spec)
    modifies s
    ensures Holds(doc, v.With("spec", v.Get("spec").With(key, Str(text))), s)
  {
    ghost var h := Snapshot(s);
    AssignInSpec(h, doc, v, spec, key, text);
    spec.Set(key, text, s);
  }

  /** The drill-down to a spec.config that is a text. */
  method NadText(doc: Cell, ghost v: Value, ghost s: set<GoMap>) returns (spec: Cell, json: Option<string>)
    requires Holds(doc, v, s)
    ensures json.Some? <==> v.Get("spec").Map? && v.Get("spec").Get("config").Str?
    ensures json.Some? ==> v.Get("spec").Get("config") == Str(json.value)
    ensures spec == Field(Snapshot(s), doc, "spec") && (json.Some? ==> spec.MapCell?)
  {
    spec := Get(doc, "spec");
    GetHolds(doc, v, s, "spec");
    if !spec.MapCell? {
      return spec, None;
    }
    var config := Get(spec, "config");
    GetHolds(spec, v.Get("spec"), s, "config");
    return spec, if config.StrCell? then Some(config.text) else None;
  }

  /** The JSON part: decode to fresh objects, set `master`, print. None stands for the two ways it can end early. */
  method SetMaster(c: Codec, json: string, host: string) returns (r: Ending, text: string)
    ensures match c.jsonDecode(json)
            case None => r == Errored
            case Some(Null) => r == Panicking
            case Some(Map(fields)) => r == Changed && text == c.jsonEncode(Map(fields["master" := Str(host)]))
            case _ => r == Errored
  {
    text := "";
    var decoded := c.jsonDecode(json);
    if decoded.None? || (!decoded.value.Null? && !decoded.value.Map?) {
      return Errored, text;
    }
    var cfg, t := Unmarshal(decoded.value);
    if cfg.NilCell? {
      return Panicking, text;
    }
    SetTop(cfg.node, "master", host, decoded.value, t);
    var tree := Marshal(cfg, decoded.value.With("master", Str(host)), t);
    return Changed, c.jsonEncode(tree);
  }

  /** UpdateNADMaster, between decoding and encoding: the JSON object is a second tree, printed back into the
      first. */
  method UpdateNadInPlace(c: Codec, doc: Cell, host: string, ghost v: Value, ghost s: set<GoMap>) returns (r: Ending)
    requires Holds(doc, v, s)
    modifies s
    ensures match EditNad(c, v, host)
            case Fail => r == Errored
            case Write(v') => r == Changed && Holds(doc, v', s)
            case Panic => r == Panicking
            case Keep => false
  {
    var spec, json := NadText(doc, v, s);
    if json.None? {
      return Errored;
    }
    var ending, text := SetMaster(c, json.value, host);
    if ending != Changed {
      return ending;
    }
    assert EditNad(c, v, host) == Write(v.With("spec", v.Get("spec").With("config", Str(text))));
    SetInSpec(spec.node, "config", text, doc, v, s);
    return Changed;
  }

  // --- The two roots ---

  lemma NFRoot(h: Heap, doc: Cell, v: Value)
    requires Denotes(h, doc, v)
    requires v.Get("spec").Map? && v.Get("spec").Get("interfaces").List?
    ensures At(v, NF_INTERFACES) == Some(v.Get("spec").Get("interfaces"))
    ensures CellAt(h, doc, NF_INTERFACES) == Some(Field(h, Field(h, doc, "spec"), "interfaces"))
    ensures Replace(v, NF_INTERFACES, v.Get("spec").Get("interfaces")) == v
  {
    assert NF_INTERFACES[1..] == [Key("interfaces")] && NF_INTERFACES[1..][1..] == [];
    assert CellAt(h, Field(h, doc, "spec"), [Key("interfaces")]) == Some(Field(h, Field(h, doc, "spec"), "interfaces"));
    assert At(v.Get("spec"), [Key("interfaces")]) == Some(v.Get("spec").Get("interfaces"));
    ReplaceAt(v, NF_INTERFACES, Null, Null);
  }

  lemma NFReplace(v: Value, w: Value)
    requires v.Get("spec").Map? && v.Get("spec").Get("interfaces").List?
    requires At(v, NF_INTERFACES).Some?
    ensures Replace(v, NF_INTERFACES, w) == v.With("spec", v.Get("spec").With("interfaces", w))
  {
    assert NF_INTERFACES[1..] == [Key("interfaces")] && NF_INTERFACES[1..][1..] == [];
    assert Replace(v.Get("spec"), [Key("interfaces")], w) == v.Get("spec").With("interfaces", w);
  }

  lemma ConfigRoot(h: Heap, doc: Cell, v: Value)
    requires Denotes(h, doc, v)
    requires EmbeddedInterfaces(v).List?
    ensures At(v, CONFIG_INTERFACES) == Some(EmbeddedInterfaces(v))
    ensures CellAt(h, doc, CONFIG_INTERFACES) ==
            Some(Field(h, Field(h, Field(h, Field(h, doc, "spec"), "config"), "spec"), "interfaces"))
    ensures Replace(v, CONFIG_INTERFACES, EmbeddedInterfaces(v)) == v
  {
    var config, configCell := v.Get("spec").Get("config"), Field(h, Field(h, doc, "spec"), "config");
    DenotesAt(h, doc, v, [Key("spec"), Key("config")]) by { TwoKeys(h, doc, v); }
    TwoKeys(h, doc, v);
    NFRoot(h, configCell, config);
    assert CONFIG_INTERFACES[1..] == [Key("config")] + NF_INTERFACES;
    assert ([Key("config")] + NF_INTERFACES)[1..] == NF_INTERFACES;
    assert CellAt(h, Field(h, doc, "spec"), [Key("config")] + NF_INTERFACES) == CellAt(h, configCell, NF_INTERFACES);
    assert At(v.Get("spec"), [Key("config")] + NF_INTERFACES) == At(config, NF_INTERFACES);
    ReplaceAt(v, CONFIG_INTERFACES, Null, Null);
  }

  lemma TwoKeys(h: Heap, doc: Cell, v: Value)
    requires Denotes(h, doc, v)
    requires v.Get("spec").Map? && v.Get("spec").Get("config").Map?
    ensures At(v, [Key("spec"), Key("config")]) == Some(v.Get("spec").Get("config"))
    ensures CellAt(h, doc, [Key("spec"), Key("config")]) == Some(Field(h, Field(h, doc, "spec"), "config"))
  {
    var p := [Key("spec"), Key("config")];
    assert p[1..] == [Key("config")] && p[1..][1..] == [];
    assert CellAt(h, Field(h, doc, "spec"), [Key("config")]) == Some(Field(h, Field(h, doc, "spec"), "config"));
    assert At(v.Get("spec"), [Key("config")]) == Some(v.Get("spec").Get("config"));
  }

  lemma ConfigReplace(v: Value, items: seq<Value>)
    requires EmbeddedInterfaces(v).List?
    requires At(v, CONFIG_INTERFACES).Some?
    ensures Replace(v, CONFIG_INTERFACES, List(items)) == PutEmbedded(v, items)
  {
    var spec := v.Get("spec");
    var config := spec.Get("config");
    assert CONFIG_INTERFACES[1..] == [Key("config")] + NF_INTERFACES;
    assert ([Key("config")] + NF_INTERFACES)[1..] == NF_INTERFACES;
    assert At(v, CONFIG_INTERFACES) == At(spec, [Key("config")] + NF_INTERFACES) == At(config, NF_INTERFACES);
    NFReplace(config, List(items));
    assert Replace(spec, [Key("config")] + NF_INTERFACES, List(items)) ==
           spec.With("config", Replace(config, NF_INTERFACES, List(items)));
  }

  lemma ItemHolds(doc: Cell, v: Value, s: set<GoMap>, root: Path, items: seq<Value>, cells: seq<Cell>, i: nat)
    requires HoldsList(doc, v, s, root, items, cells)
    requires i < |items|
    ensures |cells| == |items| && Holds(cells[i], items[i], s)
  {
    var h := Snapshot(s);
    DenotesAt(h, doc, v, root);
    assert Foot(h, cells[i], items[i]) <= Foot(h, ListCell(cells), List(items));
  }
}
