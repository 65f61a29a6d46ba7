/** Documents as the decoder builds them: Go maps are heap objects that are updated in place. A heap and a cell
    denote a tree when no map object is reached twice; an assignment to one map object is then an update at one
    path of the tree. */
module HeapDocs {
  import opened Documents

  /** A `map[string]interface{}`. */
  class GoMap {
    var entries: map<string, Cell>

    constructor (entries: map<string, Cell>)
      ensures this.entries == entries
    {
      this.entries := entries;
    }

    /** `m[key] = text` */
    method Set(key: string, text: string, ghost s: set<GoMap>)
      requires this in s
      modifies this
      ensures Snapshot(s) == Assign(old(Snapshot(s)), this, key, text)
    {
      entries := entries[key := StrCell(text)];
    }
  }

  /** An `interface{}` value. */
  datatype Cell =
    | NilCell
    | StrCell(text: string)
    | ScalarCell(text: string)
    | ListCell(items: seq<Cell>)
    | MapCell(node: GoMap)

  type Heap = map<GoMap, map<string, Cell>>

  ghost function Snapshot(s: set<GoMap>): Heap
    reads s
  {
    map n | n in s :: n.entries
  }

  // --- Denotation ---

  /** The map objects of a tree. */
  ghost function Foot(h: Heap, c: Cell, v: Value): set<GoMap>
    decreases v
  {
    match v
    case Map(m) =>
      if c.MapCell? && c.node in h
      then {c.node} + set k, n | k in m && k in h[c.node] && n in Foot(h, h[c.node][k], m[k]) :: n
      else {}
    case List(vs) =>
      if c.ListCell? && |c.items| == |vs|
      then set i, n | 0 <= i < |vs| && n in Foot(h, c.items[i], vs[i]) :: n
      else {}
    case _ => {}
  }

  /** Cell `c` holds tree `v`, without sharing. */
  ghost predicate Denotes(h: Heap, c: Cell, v: Value)
    decreases v
  {
    match v
    case Null => c.NilCell?
    case Str(s) => c == StrCell(s)
    case Scalar(s) => c == ScalarCell(s)
    case List(vs) =>
      && c.ListCell? && |c.items| == |vs|
      && (forall i :: 0 <= i < |vs| ==> Denotes(h, c.items[i], vs[i]))
      && (forall i, j :: 0 <= i < j < |vs| ==> Foot(h, c.items[i], vs[i]) !! Foot(h, c.items[j], vs[j]))
    case Map(m) =>
      && c.MapCell? && c.node in h && h[c.node].Keys == m.Keys
      && (forall k :: k in m ==> Denotes(h, h[c.node][k], m[k]) && c.node !in Foot(h, h[c.node][k], m[k]))
      && (forall k, l :: k in m && l in m && k != l ==> Foot(h, h[c.node][k], m[k]) !! Foot(h, h[c.node][l], m[l]))
  }

  /** Only the map objects of the tree matter. */
  lemma {:induction false} DenotesAgree(h: Heap, h': Heap, c: Cell, v: Value)
    requires Denotes(h, c, v)
    requires forall n :: n in Foot(h, c, v) ==> n in h && n in h' && h'[n] == h[n]
    ensures Denotes(h', c, v) && Foot(h', c, v) == Foot(h, c, v)
    decreases v
  {
    match v
    case List(vs) =>
      forall i | 0 <= i < |vs|
        ensures Denotes(h', c.items[i], vs[i]) && Foot(h', c.items[i], vs[i]) == Foot(h, c.items[i], vs[i])
      {
        DenotesAgree(h, h', c.items[i], vs[i]);
      }
    case Map(m) =>
      assert c.node in Foot(h, c, v);
      forall k | k in m
        ensures Denotes(h', h'[c.node][k], m[k]) && Foot(h', h'[c.node][k], m[k]) == Foot(h, h[c.node][k], m[k])
      {
        assert Foot(h, h[c.node][k], m[k]) <= Foot(h, c, v);
        DenotesAgree(h, h', h[c.node][k], m[k]);
      }
    case _ =>
  }

  // --- Paths ---

  ghost function CellAt(h: Heap, c: Cell, p: Path): Option<Cell>
    decreases |p|
  {
    if p == [] then Some(c)
    else match p[0]
      case Key(k) =>
        if c.MapCell? && c.node in h && k in h[c.node] then CellAt(h, h[c.node][k], p[1..]) else None
      case Index(i) =>
        if c.ListCell? && i < |c.items| then CellAt(h, c.items[i], p[1..]) else None
  }

  /** The tree with the subtree at a path replaced. */
  function Replace(v: Value, p: Path, w: Value): Value
    requires At(v, p).Some?
    decreases |p|
  {
    if p == [] then w
    else match p[0]
      case Key(k) => v.With(k, Replace(v.fields[k], p[1..], w))
      case Index(i) => List(v.items[i := Replace(v.items[i], p[1..], w)])
  }

  lemma {:induction false} DenotesAt(h: Heap, c: Cell, v: Value, p: Path)
    requires Denotes(h, c, v)
    requires At(v, p).Some?
    ensures CellAt(h, c, p).Some? && Denotes(h, CellAt(h, c, p).value, At(v, p).value)
    ensures Foot(h, CellAt(h, c, p).value, At(v, p).value) <= Foot(h, c, v)
    decreases |p|
  {
    if p == [] {
    } else {
      match p[0]
      case Key(k) => DenotesAt(h, h[c.node][k], v.fields[k], p[1..]);
      case Index(i) => DenotesAt(h, c.items[i], v.items[i], p[1..]);
    }
  }

  /** What an assignment `n[key] = text` makes of the heap. */
  ghost function Assign(h: Heap, n: GoMap, key: string, text: string): Heap
    requires n in h
  {
    h[n := h[n][key := StrCell(text)]]
  }

  lemma {:induction false} FootInHeap(h: Heap, c: Cell, v: Value)
    ensures forall n :: n in Foot(h, c, v) ==> n in h
    decreases v
  {
    match v
    case List(vs) =>
      if c.ListCell? && |c.items| == |vs| {
        forall i | 0 <= i < |vs| { FootInHeap(h, c.items[i], vs[i]); }
      }
    case Map(m) =>
      if c.MapCell? && c.node in h {
        forall k | k in m && k in h[c.node] { FootInHeap(h, h[c.node][k], m[k]); }
      }
    case _ =>
  }

  /** A map whose fields denote within the feet they had before. */
  lemma MapFromParts(h: Heap, v: Value, h': Heap, v': Value, c: Cell)
    requires Denotes(h, c, v) && v.Map? && v'.Map?
    requires c.node in h' && h'[c.node].Keys == v'.fields.Keys
    requires forall k :: k in v'.fields ==> Denotes(h', h'[c.node][k], v'.fields[k])
    requires forall k :: k in v'.fields ==>
               if k in v.fields then Foot(h', h'[c.node][k], v'.fields[k]) <= Foot(h, h[c.node][k], v.fields[k])
               else Foot(h', h'[c.node][k], v'.fields[k]) == {}
    ensures Denotes(h', c, v') && Foot(h', c, v') <= Foot(h, c, v)
  {
    forall k, l | k in v'.fields && l in v'.fields && k != l
      ensures Foot(h', h'[c.node][k], v'.fields[k]) !! Foot(h', h'[c.node][l], v'.fields[l])
    {
    }
    forall n | n in Foot(h', c, v')
      ensures n in Foot(h, c, v)
    {
      if n != c.node {
        var k :| k in v'.fields && n in Foot(h', h'[c.node][k], v'.fields[k]);
        assert n in Foot(h, h[c.node][k], v.fields[k]);
      }
    }
  }

  lemma AssignHere(h: Heap, c: Cell, v: Value, key: string, text: string)
    requires Denotes(h, c, v) && v.Map?
    ensures var h' := Assign(h, c.node, key, text);
            var v' := v.With(key, Str(text));
            Denotes(h', c, v') && Foot(h', c, v') <= Foot(h, c, v)
  {
    var h' := Assign(h, c.node, key, text);
    var v' := v.With(key, Str(text));
    forall k | k in v.fields && k != key
      ensures Denotes(h', h'[c.node][k], v'.fields[k])
      ensures Foot(h', h'[c.node][k], v'.fields[k]) == Foot(h, h[c.node][k], v.fields[k])
    {
      FootInHeap(h, h[c.node][k], v.fields[k]);
      DenotesAgree(h, h', h[c.node][k], v.fields[k]);
    }
    assert Foot(h', h'[c.node][key], v'.fields[key]) == {};
    MapFromParts(h, v, h', v', c);
  }

  /** A change below one key does not reach another field. */
  lemma FieldKept(h: Heap, h': Heap, c: Cell, v: Value, key: string, k: string, n: GoMap)
    requires Denotes(h, c, v) && v.Map? && key in v.fields && k in v.fields && k != key
    requires n in Foot(h, h[c.node][key], v.fields[key])
    requires forall m :: m in h && m != n ==> m in h' && h'[m] == h[m]
    ensures Denotes(h', h[c.node][k], v.fields[k])
    ensures Foot(h', h[c.node][k], v.fields[k]) == Foot(h, h[c.node][k], v.fields[k])
  {
    FootInHeap(h, h[c.node][k], v.fields[k]);
    DenotesAgree(h, h', h[c.node][k], v.fields[k]);
  }

  lemma AssignUnderKey(h: Heap, h': Heap, c: Cell, v: Value, key: string, w: Value, n: GoMap)
    requires Denotes(h, c, v) && v.Map? && key in v.fields
    requires n in Foot(h, h[c.node][key], v.fields[key])
    requires forall m :: m in h && m != n ==> m in h' && h'[m] == h[m]
    requires Denotes(h', h[c.node][key], w)
    requires Foot(h', h[c.node][key], w) <= Foot(h, h[c.node][key], v.fields[key])
    ensures Denotes(h', c, v.With(key, w)) && Foot(h', c, v.With(key, w)) <= Foot(h, c, v)
    ensures c.node != n
  {
    var v' := v.With(key, w);
    assert n in Foot(h, c, v) && c.node != n && h'[c.node] == h[c.node];
    assert v'.fields.Keys == v.fields.Keys;
    forall k | k in v'.fields
      ensures Denotes(h', h[c.node][k], v'.fields[k])
      ensures Foot(h', h[c.node][k], v'.fields[k]) <= Foot(h, h[c.node][k], v.fields[k])
    {
      if k != key {
        FieldKept(h, h', c, v, key, k, n);
      }
    }
    MapFromParts(h, v, h', v', c);
  }

  lemma AssignUnderIndex(h: Heap, h': Heap, c: Cell, v: Value, index: nat, w: Value, n: GoMap)
    requires Denotes(h, c, v) && v.List? && index < |v.items|
    requires n in Foot(h, c.items[index], v.items[index])
    requires forall m :: m in h && m != n ==> m in h' && h'[m] == h[m]
    requires Denotes(h', c.items[index], w)
    requires Foot(h', c.items[index], w) <= Foot(h, c.items[index], v.items[index])
    ensures Denotes(h', c, List(v.items[index := w])) && Foot(h', c, List(v.items[index := w])) <= Foot(h, c, v)
  {
    forall i | 0 <= i < |v.items| && i != index
      ensures Denotes(h', c.items[i], v.items[i])
      ensures Foot(h', c.items[i], v.items[i]) == Foot(h, c.items[i], v.items[i])
    {
      FootInHeap(h, c.items[i], v.items[i]);
      DenotesAgree(h, h', c.items[i], v.items[i]);
    }
  }

  /** An assignment to the map object at path `p` is an update of the tree at that path, and leaves the tree without
      sharing. */
  ghost predicate Assigned(h: Heap, c: Cell, v: Value, p: Path, key: string, text: string)
    requires At(v, p).Some? && At(v, p).value.Map?
  {
    var target := CellAt(h, c, p);
    && target.Some? && target.value.MapCell?
    && target.value.node in Foot(h, c, v) && target.value.node in h
    && var h' := Assign(h, target.value.node, key, text);
    var v' := Replace(v, p, At(v, p).value.With(key, Str(text)));
    Denotes(h', c, v') && Foot(h', c, v') <= Foot(h, c, v)
  }

  lemma {:induction false} AssignAt(h: Heap, c: Cell, v: Value, p: Path, key: string, text: string)
    requires Denotes(h, c, v)
    requires At(v, p).Some? && At(v, p).value.Map?
    ensures Assigned(h, c, v, p, key, text)
    decreases |p|
  {
    if p == [] {
      AssignHere(h, c, v, key, text);
    } else {
      match p[0]
      case Key(k) =>
        AssignAt(h, h[c.node][k], v.fields[k], p[1..], key, text);
        AssignedUnderKey(h, c, v, k, p, key, text);
      case Index(i) =>
        AssignAt(h, c.items[i], v.items[i], p[1..], key, text);
        AssignedUnderIndex(h, c, v, i, p, key, text);
    }
  }

  lemma AssignedUnderKey(h: Heap, c: Cell, v: Value, k: string, p: Path, key: string, text: string)
    requires Denotes(h, c, v)
    requires p != [] && p[0] == Key(k) && At(v, p).Some? && At(v, p).value.Map?
    requires Assigned(h, h[c.node][k], v.fields[k], p[1..], key, text)
    ensures Assigned(h, c, v, p, key, text)
    ensures c.node != CellAt(h, c, p).value.node
  {
    var n := CellAt(h, h[c.node][k], p[1..]).value.node;
    assert n in Foot(h, c, v);
    AssignUnderKey(h, Assign(h, n, key, text), c, v, k,
      Replace(v.fields[k], p[1..], At(v, p).value.With(key, Str(text))), n);
  }

  lemma AssignedUnderIndex(h: Heap, c: Cell, v: Value, i: nat, p: Path, key: string, text: string)
    requires Denotes(h, c, v)
    requires p != [] && p[0] == Index(i) && At(v, p).Some? && At(v, p).value.Map?
    requires Assigned(h, c.items[i], v.items[i], p[1..], key, text)
    ensures Assigned(h, c, v, p, key, text)
  {
    var n := CellAt(h, c.items[i], p[1..]).value.node;
    assert n in Foot(h, c, v);
    AssignUnderIndex(h, Assign(h, n, key, text), c, v, i,
      Replace(v.items[i], p[1..], At(v, p).value.With(key, Str(text))), n);
  }

  /** The object that a path leads to below a key is not the one that holds the key. */
  lemma OtherNode(h: Heap, c: Cell, v: Value, k: string, p: Path, key: string, text: string)
    requires Denotes(h, c, v) && v.Map? && k in v.fields
    requires At(v.fields[k], p).Some? && At(v.fields[k], p).value.Map?
    ensures var target := CellAt(h, h[c.node][k], p);
            target.Some? && target.value.MapCell? && target.value.node != c.node
  {
    AssignAt(h, h[c.node][k], v.fields[k], p, key, text);
  }

  lemma WayUnderKey(h: Heap, h': Heap, c: Cell, k: string, p: Path)
    requires c.MapCell? && c.node in h && c.node in h' && h'[c.node] == h[c.node] && k in h[c.node]
    requires p != [] && p[0] == Key(k) && CellAt(h', h[c.node][k], p[1..]) == CellAt(h, h[c.node][k], p[1..])
    ensures CellAt(h', c, p) == CellAt(h, c, p)
  {
  }

  /** The assignment moves no cell on the way to its target. */
  lemma {:induction false} AssignKeepsWay(h: Heap, c: Cell, v: Value, p: Path, q: Path, key: string, text: string)
    requires Denotes(h, c, v)
    requires At(v, p).Some? && At(At(v, p).value, q).Some? && At(At(v, p).value, q).value.Map?
    ensures At(v, p + q) == At(At(v, p).value, q)
    ensures CellAt(h, c, p + q).Some? && CellAt(h, c, p + q).value.MapCell?
    ensures CellAt(h, c, p + q).value.node in h
    ensures CellAt(Assign(h, CellAt(h, c, p + q).value.node, key, text), c, p) == CellAt(h, c, p)
    decreases |p|
  {
    ReplaceBelow(v, p, q, Null);
    AssignAt(h, c, v, p + q, key, text);
    if p == [] {
    } else {
      assert (p + q)[1..] == p[1..] + q;
      match p[0]
      case Key(k) =>
        AssignKeepsWay(h, h[c.node][k], v.fields[k], p[1..], q, key, text);
        var n := CellAt(h, c, p + q).value.node;
        OtherNode(h, c, v, k, p[1..] + q, key, text);
        WayUnderKey(h, Assign(h, n, key, text), c, k, p);
      case Index(i) =>
        AssignKeepsWay(h, c.items[i], v.items[i], p[1..], q, key, text);
    }
  }

  // --- Replacing at a path ---

  lemma {:induction false} ReplaceAt(v: Value, p: Path, a: Value, b: Value)
    requires At(v, p).Some?
    ensures At(Replace(v, p, a), p) == Some(a)
    ensures Replace(Replace(v, p, a), p, b) == Replace(v, p, b)
    ensures Replace(v, p, At(v, p).value) == v
    decreases |p|
  {
    if p == [] {
    } else {
      match p[0]
      case Key(k) =>
        ReplaceAt(v.fields[k], p[1..], a, b);
        assert v.fields[k := Replace(v.fields[k], p[1..], a)][k := Replace(v.fields[k], p[1..], b)] ==
               v.fields[k := Replace(v.fields[k], p[1..], b)];
        assert v.fields[k := v.fields[k]] == v.fields;
      case Index(i) =>
        ReplaceAt(v.items[i], p[1..], a, b);
        assert v.items[i := Replace(v.items[i], p[1..], a)][i := Replace(v.items[i], p[1..], b)] ==
               v.items[i := Replace(v.items[i], p[1..], b)];
        assert v.items[i := v.items[i]] == v.items;
    }
  }

  lemma {:induction false} ReplaceBelow(v: Value, p: Path, q: Path, w: Value)
    requires At(v, p).Some? && At(At(v, p).value, q).Some?
    ensures At(v, p + q) == At(At(v, p).value, q)
    ensures Replace(v, p + q, w) == Replace(v, p, Replace(At(v, p).value, q, w))
    decreases |p|
  {
    if p == [] {
      assert p + q == q;
    } else {
      assert (p + q)[1..] == p[1..] + q;
      match p[0]
      case Key(k) => ReplaceBelow(v.fields[k], p[1..], q, w);
      case Index(i) => ReplaceBelow(v.items[i], p[1..], q, w);
    }
  }

  // --- The decoder and encoder libraries, between trees and heaps ---

  /** Decoding builds fresh objects. */
  method Unmarshal(v: Value) returns (c: Cell, ghost s: set<GoMap>)
    ensures fresh(s)
    ensures Denotes(Snapshot(s), c, v) && Foot(Snapshot(s), c, v) <= s
    decreases v, 1
  {
    match v
    case Null => c, s := NilCell, {};
    case Str(t) => c, s := StrCell(t), {};
    case Scalar(t) => c, s := ScalarCell(t), {};
    case List(vs) => c, s := UnmarshalList(v, vs);
    case Map(m) => c, s := UnmarshalMap(v, m);
  }

  method UnmarshalList(ghost v: Value, vs: seq<Value>) returns (c: Cell, ghost s: set<GoMap>)
    requires v == List(vs)
    ensures fresh(s)
    ensures Denotes(Snapshot(s), c, v) && Foot(Snapshot(s), c, v) <= s
    decreases v, 0
  {
    var items := [];
    ghost var feet: seq<set<GoMap>> := [];
    s := {};
    for i := 0 to |vs|
      invariant |items| == |feet| == i && fresh(s)
      invariant forall j :: 0 <= j < i ==> feet[j] <= s
      invariant forall j :: 0 <= j < i ==>
        Denotes(Snapshot(feet[j]), items[j], vs[j]) && Foot(Snapshot(feet[j]), items[j], vs[j]) <= feet[j]
      invariant forall j, k :: 0 <= j < k < i ==> feet[j] !! feet[k]
    {
      var item, f := Unmarshal(vs[i]);
      items, feet, s := items + [item], feet + [f], s + f;
    }
    c := ListCell(items);
    ghost var h := Snapshot(s);
    forall j | 0 <= j < |vs|
      ensures Denotes(h, items[j], vs[j]) && Foot(h, items[j], vs[j]) <= feet[j]
    {
      DenotesAgree(Snapshot(feet[j]), h, items[j], vs[j]);
    }
  }

  method UnmarshalMap(ghost v: Value, m: map<string, Value>) returns (c: Cell, ghost s: set<GoMap>)
    requires v == Map(m)
    ensures fresh(s)
    ensures Denotes(Snapshot(s), c, v) && Foot(Snapshot(s), c, v) <= s
    decreases v, 0
  {
    var entries: map<string, Cell> := map[];
    var todo := m.Keys;
    ghost var feet: map<string, set<GoMap>> := map[];
    s := {};
    while todo != {}
      invariant todo <= m.Keys && entries.Keys == feet.Keys == m.Keys - todo
      invariant fresh(s)
      invariant forall k :: k in feet ==> feet[k] <= s
      invariant forall k :: k in feet ==>
        Denotes(Snapshot(feet[k]), entries[k], m[k]) && Foot(Snapshot(feet[k]), entries[k], m[k]) <= feet[k]
      invariant forall k, l :: k in feet && l in feet && k != l ==> feet[k] !! feet[l]
    {
      var k :| k in todo;
      var item, f := Unmarshal(m[k]);
      entries, todo, feet, s := entries[k := item], todo - {k}, feet[k := f], s + f;
    }
    var node := new GoMap(entries);
    c := MapCell(node);
    s := s + {node};
    ghost var h := Snapshot(s);
    forall k | k in m
      ensures Denotes(h, h[node][k], m[k]) && Foot(h, h[node][k], m[k]) <= feet[k]
    {
      DenotesAgree(Snapshot(feet[k]), h, entries[k], m[k]);
    }
  }

  /** Encoding reads the tree back. */
  method Marshal(c: Cell, ghost v: Value, ghost s: set<GoMap>) returns (w: Value)
    requires Denotes(Snapshot(s), c, v)
    ensures w == v
    decreases v
  {
    match c
    case NilCell => w := Null;
    case StrCell(t) => w := Str(t);
    case ScalarCell(t) => w := Scalar(t);
    case ListCell(cells) =>
      var items := [];
      for i := 0 to |cells|
        invariant items == v.items[..i]
      {
        var item := Marshal(cells[i], v.items[i], s);
        items := items + [item];
      }
      w := List(items);
    case MapCell(node) =>
      var todo := node.entries.Keys;
      var fields: map<string, Value> := map[];
      while todo != {}
        invariant todo <= v.fields.Keys && fields.Keys == v.fields.Keys - todo
        invariant forall k :: k in fields ==> fields[k] == v.fields[k]
      {
        var k :| k in todo;
        var field := Marshal(node.entries[k], v.fields[k], s);
        todo, fields := todo - {k}, fields[k := field];
      }
      assert fields == v.fields;
      w := Map(fields);
  }
}
