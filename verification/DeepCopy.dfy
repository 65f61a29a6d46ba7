/** The generated deep copies: structural equality, and no slice or pointer in common. A struct is a value that may
    hold references; a slice is a possibly nil array; a pointer to a struct is a reference to a cell. */
module DeepCopy {
  import opened Rewrites
  import Api

  /** What a pointer points to. */
  class Ref<T> {
    var value: T

    constructor (value: T)
      ensures this.value == value
    {
      this.value := value;
    }
  }

  type IPv4 = Ref<IPInfo>

  datatype NFInterface = NFInterface(
    name: string,
    nameNad: string,
    namespaceNad: string,
    hostInterface: string,
    ipv4: Ref?<IPInfo>)

  datatype NetworkInstance = NetworkInstance(name: string, interfaces: array?<string>)

  datatype ParameterReference = ParameterReference(name: string, apiVersion: string, kind: string, namespace: string)

  datatype NFCondition = NFCondition(kind: string, status: string, reason: string, message: string, time: int)

  datatype NFReconfigSpec = NFReconfigSpec(
    provider: string,
    interfaces: array?<NFInterface>,
    networkInstances: array?<NetworkInstance>,
    parametersRefs: array?<ParameterReference>,
    clusterInfo: array?<Api.ClusterInfo>)

  datatype NFReconfigStatus = NFReconfigStatus(conditions: array?<NFCondition>)

  /** `meta` stands for the metav1 parts, whose own deep copies are assumed. */
  datatype NFReconfig = NFReconfig(meta: string, spec: NFReconfigSpec, status: NFReconfigStatus)

  datatype NFReconfigList = NFReconfigList(meta: string, items: array?<NFReconfig>)

  // --- Ownership: every slice and pointer of a structure lies in a region ---

  ghost predicate Owned<T>(a: array?<T>, region: set<object>) {
    a != null ==> a in region
  }

  ghost predicate OwnsInterfaces(a: array?<NFInterface>, region: set<object>)
    reads a
  {
    a != null ==>
      a in region && forall i :: 0 <= i < a.Length && a[i].ipv4 != null ==> (a[i].ipv4 as object) in region
  }

  ghost predicate OwnsNetworks(a: array?<NetworkInstance>, region: set<object>)
    reads a
  {
    a != null ==> a in region && forall i :: 0 <= i < a.Length ==> Owned(a[i].interfaces, region)
  }

  ghost predicate OwnsSpec(x: NFReconfigSpec, region: set<object>)
    reads x.interfaces, x.networkInstances
  {
    && OwnsInterfaces(x.interfaces, region)
    && OwnsNetworks(x.networkInstances, region)
    && Owned(x.parametersRefs, region)
    && Owned(x.clusterInfo, region)
  }

  ghost predicate OwnsReconfig(x: NFReconfig, region: set<object>)
    reads x.spec.interfaces, x.spec.networkInstances
  {
    OwnsSpec(x.spec, region) && Owned(x.status.conditions, region)
  }

  // --- Structural equality: references are looked through, and a nil slice is not an empty one ---

  ghost predicate SameSlice<T(!new)>(a: array?<T>, b: array?<T>)
    reads a, b
  {
    && (a == null <==> b == null)
    && (a != null ==> a.Length == b.Length && forall i :: 0 <= i < a.Length ==> a[i] == b[i])
  }

  ghost predicate SameInterface(x: NFInterface, y: NFInterface)
    reads x.ipv4, y.ipv4
  {
    && x.name == y.name && x.nameNad == y.nameNad && x.namespaceNad == y.namespaceNad
    && x.hostInterface == y.hostInterface
    && (x.ipv4 == null <==> y.ipv4 == null)
    && (x.ipv4 != null ==> x.ipv4.value == y.ipv4.value)
  }

  ghost predicate SameInterfaces(a: array?<NFInterface>, b: array?<NFInterface>)
    reads *
  {
    && (a == null <==> b == null)
    && (a != null ==> a.Length == b.Length && forall i :: 0 <= i < a.Length ==> SameInterface(a[i], b[i]))
  }

  ghost predicate SameNetwork(x: NetworkInstance, y: NetworkInstance)
    reads x.interfaces, y.interfaces
  {
    x.name == y.name && SameSlice(x.interfaces, y.interfaces)
  }

  ghost predicate SameNetworks(a: array?<NetworkInstance>, b: array?<NetworkInstance>)
    reads *
  {
    && (a == null <==> b == null)
    && (a != null ==> a.Length == b.Length && forall i :: 0 <= i < a.Length ==> SameNetwork(a[i], b[i]))
  }

  ghost predicate SameSpec(x: NFReconfigSpec, y: NFReconfigSpec)
    reads *
  {
    && x.provider == y.provider
    && SameInterfaces(x.interfaces, y.interfaces)
    && SameNetworks(x.networkInstances, y.networkInstances)
    && SameSlice(x.parametersRefs, y.parametersRefs)
    && SameSlice(x.clusterInfo, y.clusterInfo)
  }

  ghost predicate SameReconfig(x: NFReconfig, y: NFReconfig)
    reads *
  {
    x.meta == y.meta && SameSpec(x.spec, y.spec) && SameSlice(x.status.conditions, y.status.conditions)
  }

  ghost predicate SameList(x: NFReconfigList, y: NFReconfigList)
    reads *
  {
    && x.meta == y.meta
    && (x.items == null <==> y.items == null)
    && (x.items != null ==>
          && x.items.Length == y.items.Length
          && forall i :: 0 <= i < x.items.Length ==> SameReconfig(x.items[i], y.items[i]))
  }

  // --- The copies: each comes with the fresh region that it owns ---

  method CopyInterface(x: NFInterface) returns (y: NFInterface)
    ensures SameInterface(x, y)
    ensures y.ipv4 != null ==> fresh(y.ipv4)
  {
    y := x;
    if x.ipv4 != null {
      var copy := new Ref(x.ipv4.value);
      y := y.(ipv4 := copy);
    }
  }

  /** `make` and `copy` for a slice of plain values. */
  method CopySlice<T(0,!new)>(a: array?<T>) returns (b: array?<T>)
    ensures SameSlice(a, b)
    ensures b != null ==> fresh(b)
  {
    if a == null {
      return null;
    }
    b := new T[a.Length];
    for i := 0 to a.Length
      invariant forall j :: 0 <= j < i ==> b[j] == a[j]
    {
      b[i] := a[i];
    }
  }

  method CopyNetwork(x: NetworkInstance) returns (y: NetworkInstance)
    ensures SameNetwork(x, y)
    ensures y.interfaces != null ==> fresh(y.interfaces)
  {
    var copy := CopySlice(x.interfaces);
    y := NetworkInstance(x.name, copy);
  }

  /** No two entries point to the same address pair. */
  ghost predicate Unshared(a: array?<NFInterface>)
    reads a
  {
    a != null ==>
      forall i, j :: 0 <= i < j < a.Length && a[i].ipv4 != null && a[j].ipv4 != null ==> a[i].ipv4 != a[j].ipv4
  }

  /** The region of at most one reference. */
  ghost function Cell(o: object?): set<object> {
    if o == null then {} else {o}
  }

  /** The entries of the copy are apart from each other even where entries of the original share a pointer. */
  method CopyInterfaces(a: array?<NFInterface>) returns (b: array?<NFInterface>, ghost own: set<object>)
    ensures SameInterfaces(a, b)
    ensures fresh(own) && OwnsInterfaces(b, own) && Unshared(b)
  {
    if a == null {
      return null, {};
    }
    b := new NFInterface[a.Length];
    own := {b};
    for i := 0 to a.Length
      invariant fresh(own) && b in own
      invariant forall j :: 0 <= j < i ==> SameInterface(a[j], b[j])
      invariant forall j :: 0 <= j < i && b[j].ipv4 != null ==> (b[j].ipv4 as object) in own
      invariant forall j, k :: 0 <= j < k < i && b[j].ipv4 != null && b[k].ipv4 != null ==> b[j].ipv4 != b[k].ipv4
    {
      label before:
      var copy := CopyInterface(a[i]);
      assert copy.ipv4 != null ==> fresh@before(copy.ipv4);
      b[i] := copy;
      own := own + Cell(copy.ipv4);
    }
  }

  method CopyNetworks(a: array?<NetworkInstance>) returns (b: array?<NetworkInstance>, ghost own: set<object>)
    ensures SameNetworks(a, b)
    ensures fresh(own) && OwnsNetworks(b, own)
  {
    if a == null {
      return null, {};
    }
    b := new NetworkInstance[a.Length];
    own := {b};
    for i := 0 to a.Length
      invariant fresh(own) && b in own
      invariant forall j :: 0 <= j < i ==> SameNetwork(a[j], b[j])
      invariant forall j :: 0 <= j < i ==> Owned(b[j].interfaces, own)
    {
      var copy := CopyNetwork(a[i]);
      b[i] := copy;
      own := own + Cell(copy.interfaces);
    }
  }

  /** Structurally equal, and sharing no slice or pointer with anything that existed before. */
  method CopySpec(x: NFReconfigSpec) returns (y: NFReconfigSpec, ghost own: set<object>)
    ensures SameSpec(x, y)
    ensures fresh(own) && OwnsSpec(y, own) && Unshared(y.interfaces)
  {
    var interfaces, own1 := CopyInterfaces(x.interfaces);
    var networks, own2 := CopyNetworks(x.networkInstances);
    var refs := CopySlice(x.parametersRefs);
    var clusters := CopySlice(x.clusterInfo);
    y := NFReconfigSpec(x.provider, interfaces, networks, refs, clusters);
    own := own1 + own2 + Cell(refs) + Cell(clusters);
  }

  method CopyStatus(x: NFReconfigStatus) returns (y: NFReconfigStatus)
    ensures SameSlice(x.conditions, y.conditions)
    ensures y.conditions != null ==> fresh(y.conditions)
  {
    var conditions := CopySlice(x.conditions);
    y := NFReconfigStatus(conditions);
  }

  method CopyReconfig(x: NFReconfig) returns (y: NFReconfig, ghost own: set<object>)
    ensures SameReconfig(x, y)
    ensures fresh(own) && OwnsReconfig(y, own)
  {
    var spec, own1 := CopySpec(x.spec);
    var status := CopyStatus(x.status);
    y := NFReconfig(x.meta, spec, status);
    own := own1 + Cell(status.conditions);
  }

  // --- Lists ---

  ghost predicate OwnsList(x: NFReconfigList, region: set<object>)
    reads *
  {
    x.items != null ==>
      x.items in region && forall i :: 0 <= i < x.items.Length ==> OwnsReconfig(x.items[i], region)
  }

  /** An item and its copy, with a region of each. */
  datatype Item = Item(from: NFReconfig, mine: set<object>, to: NFReconfig, own: set<object>) {
    ghost predicate Copied()
      reads *
    {
      SameReconfig(from, to) && OwnsReconfig(from, mine) && OwnsReconfig(to, own)
    }
  }

  /** A copy stays a copy while neither region is written. */
  twostate lemma StillCopied(item: Item)
    requires old(item.Copied())
    requires forall o: object :: o in item.mine ==> unchanged(o)
    requires forall o: object :: o in item.own ==> unchanged(o)
    ensures item.Copied()
  {
    var x, y := item.from.spec, item.to.spec;
    if x.interfaces != null {
      forall i | 0 <= i < x.interfaces.Length
        ensures SameInterface(x.interfaces[i], y.interfaces[i])
      {
        assert old(SameInterface(x.interfaces[i], y.interfaces[i]));
      }
    }
    if x.networkInstances != null {
      forall i | 0 <= i < x.networkInstances.Length
        ensures SameNetwork(x.networkInstances[i], y.networkInstances[i])
      {
        assert old(SameNetwork(x.networkInstances[i], y.networkInstances[i]));
      }
    }
  }

  /** The first items of a slice are copied, each into a region of its own. */
  ghost predicate Filled(a: array<NFReconfig>, mine: set<object>, b: array<NFReconfig>, owns: seq<set<object>>)
    reads *
  {
    && |owns| <= a.Length == b.Length
    && forall j :: 0 <= j < |owns| ==> b !in owns[j] && Item(a[j], mine, b[j], owns[j]).Copied()
  }

  /** One round of the loop over the items. */
  method CopyItem(
      a: array<NFReconfig>, ghost mine: set<object>, b: array<NFReconfig>, i: nat, ghost owns: seq<set<object>>)
    returns (ghost own: set<object>)
    requires |owns| == i < a.Length && Filled(a, mine, b, owns)
    requires a in mine && b !in mine && OwnsReconfig(a[i], mine)
    modifies b
    ensures Filled(a, mine, b, owns + [own])
    ensures fresh(own)
    ensures forall j :: 0 <= j < a.Length ==> a[j] == old(a[j])
  {
    var copy, region := CopyReconfig(a[i]);
    b[i] := copy;
    forall j | 0 <= j < i
      ensures Item(a[j], mine, b[j], owns[j]).Copied()
    {
      StillCopied(Item(a[j], mine, b[j], owns[j]));
    }
    own := region;
  }

  /** NFReconfigList: every item of the copy owns a fresh region of its own. `mine` is any region of the original. */
  method CopyList(x: NFReconfigList, ghost mine: set<object>) returns (y: NFReconfigList, ghost owns: seq<set<object>>)
    requires OwnsList(x, mine)
    ensures SameList(x, y)
    ensures y.items != null ==>
              && fresh(y.items) && |owns| == y.items.Length
              && forall i :: 0 <= i < |owns| ==> fresh(owns[i]) && OwnsReconfig(y.items[i], owns[i])
    ensures forall i, j :: 0 <= i < j < |owns| ==> owns[i] !! owns[j]
  {
    owns := [];
    if x.items == null {
      return NFReconfigList(x.meta, null), [];
    }
    var a := x.items;
    var b := new NFReconfig[a.Length];
    for i := 0 to a.Length
      invariant |owns| == i && Filled(a, mine, b, owns)
      invariant forall j :: 0 <= j < i ==> fresh(owns[j])
      invariant forall j, k :: 0 <= j < k < i ==> owns[j] !! owns[k]
    {
      var own := CopyItem(a, mine, b, i, owns);
      owns := owns + [own];
    }
    y := NFReconfigList(x.meta, b);
  }

  // --- Through pointers ---

  const ZERO_INTERFACE := NFInterface("", "", "", "", null)
  const ZERO_NETWORK := NetworkInstance("", null)
  const ZERO_REFERENCE := ParameterReference("", "", "", "")

  /** A slice of zero values that is as long as another, and nil with it. */
  ghost predicate BlankSlice<T>(a: array?<T>, b: array?<T>, zero: T)
    reads b
  {
    && (a == null <==> b == null)
    && (a != null ==> a.Length == b.Length && forall i :: 0 <= i < b.Length ==> b[i] == zero)
  }

  ghost predicate Blank(x: NFReconfigSpec, y: NFReconfigSpec)
    reads y.interfaces, y.networkInstances, y.parametersRefs, y.clusterInfo
  {
    && x.provider == y.provider
    && BlankSlice(x.interfaces, y.interfaces, ZERO_INTERFACE)
    && BlankSlice(x.networkInstances, y.networkInstances, ZERO_NETWORK)
    && BlankSlice(x.parametersRefs, y.parametersRefs, ZERO_REFERENCE)
    && BlankSlice(x.clusterInfo, y.clusterInfo, Api.NO_CLUSTER)
  }

  method MakeSlice<T>(a: array?<T>, zero: T) returns (b: array?<T>)
    ensures BlankSlice(a, b, zero)
    ensures b != null ==> fresh(b)
  {
    if a == null {
      return null;
    }
    b := new T[a.Length](_ => zero);
  }

  /** The slices as `make` leaves them. */
  method MakeSlices(x: NFReconfigSpec) returns (y: NFReconfigSpec)
    ensures Blank(x, y)
  {
    var interfaces := MakeSlice(x.interfaces, ZERO_INTERFACE);
    var networks := MakeSlice(x.networkInstances, ZERO_NETWORK);
    var refs := MakeSlice(x.parametersRefs, ZERO_REFERENCE);
    var clusters := MakeSlice(x.clusterInfo, Api.NO_CLUSTER);
    y := NFReconfigSpec(x.provider, interfaces, networks, refs, clusters);
  }

  /** `in.DeepCopyInto(out)`: writes through `out`. When both are one struct the slices are made before they are read,
      and so only zero values are copied. */
  method DeepCopyInto(from: Ref<NFReconfigSpec>, to: Ref<NFReconfigSpec>) returns (ghost own: set<object>)
    modifies to
    ensures from != to ==> SameSpec(from.value, to.value)
    ensures from == to ==> Blank(old(from.value), to.value)
    ensures fresh(own) && OwnsSpec(to.value, own) && Unshared(to.value.interfaces)
  {
    var read := from.value;
    if from == to {
      read := MakeSlices(from.value);
    }
    var copy, region := CopySpec(read);
    assert from == to ==> Blank(from.value, copy);
    to.value := copy;
    own := region;
  }

  /** Copying a struct onto itself keeps it exactly when all that its slices hold are zero values. */
  lemma SelfCopyExactly(x: NFReconfigSpec, y: NFReconfigSpec)
    requires Blank(x, y)
    ensures SameSpec(x, y) <==> Blank(x, x)
  {
    if SameSpec(x, y) {
      assert x.interfaces != null ==>
          forall i :: 0 <= i < x.interfaces.Length ==> SameInterface(x.interfaces[i], y.interfaces[i]);
      assert x.networkInstances != null ==>
          forall i :: 0 <= i < x.networkInstances.Length ==> SameNetwork(x.networkInstances[i], y.networkInstances[i]);
    }
  }

  /** `in.DeepCopy()`: nil for nil. */
  method DeepCopy(from: Ref?<NFReconfigSpec>) returns (to: Ref?<NFReconfigSpec>, ghost own: set<object>)
    ensures from == null <==> to == null
    ensures from != null ==> fresh(to) && SameSpec(from.value, to.value) && OwnsSpec(to.value, own)
    ensures fresh(own)
  {
    if from == null {
      return null, {};
    }
    to := new Ref(from.value);
    own := DeepCopyInto(from, to);
  }

  /** What a reconfiguration refers to is as it was. */
  twostate predicate Untouched(x: NFReconfig)
    reads *
  {
    var spec := x.spec;
    && (spec.interfaces != null ==> spec.interfaces[..] == old(spec.interfaces[..]))
    && (spec.interfaces != null ==> forall i :: 0 <= i < spec.interfaces.Length && spec.interfaces[i].ipv4 != null ==>
          spec.interfaces[i].ipv4.value == old(spec.interfaces[i].ipv4.value))
    && (spec.networkInstances != null ==> spec.networkInstances[..] == old(spec.networkInstances[..]))
    && (spec.networkInstances != null ==>
          forall i :: 0 <= i < spec.networkInstances.Length && spec.networkInstances[i].interfaces != null ==>
            spec.networkInstances[i].interfaces[..] == old(spec.networkInstances[i].interfaces[..]))
    && (spec.parametersRefs != null ==> spec.parametersRefs[..] == old(spec.parametersRefs[..]))
    && (spec.clusterInfo != null ==> spec.clusterInfo[..] == old(spec.clusterInfo[..]))
    && (x.status.conditions != null ==> x.status.conditions[..] == old(x.status.conditions[..]))
  }

  /** Later writes within one region do not show in an object that owns another, disjoint one: writes to the original
      not in its copy, writes to the copy not in the original, and those to one item of a list in no other item. */
  twostate lemma WritesStayApart(mine: set<object>, y: NFReconfig, own: set<object>)
    requires old(OwnsReconfig(y, own)) && mine !! own
    requires forall o: object :: old(allocated(o)) && o !in mine ==> unchanged(o)
    ensures Untouched(y) && OwnsReconfig(y, own)
  {
    assert forall o: object :: o in own ==> o !in mine && unchanged(o);
  }
}
