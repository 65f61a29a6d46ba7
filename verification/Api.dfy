/** The NFReconfig specification as a value, and the address map that both handlers build from it. */
module Api {
  import opened Documents
  import opened Rewrites

  /** `ipv4` is an optional pointer in the Go type. */
  datatype NFInterface = NFInterface(
    name: string,
    nameNad: string,
    namespaceNad: string,
    hostInterface: string,
    ipv4: Option<IPInfo>)

  datatype ConfigRef = ConfigRef(id: ObjectName, nfDeployment: ObjectName)

  datatype TargetCluster = TargetCluster(name: string, repo: string)

  datatype ClusterInfo = ClusterInfo(
    name: string,
    repo: string,
    clusterType: string,
    nfDeployment: ObjectName,
    targetCluster: TargetCluster,
    configRef: ConfigRef)

  datatype Spec = Spec(interfaces: seq<NFInterface>, clusterInfo: seq<ClusterInfo>)

  const NO_OBJECT := ObjectName("", "")
  const NO_CONFIG := ConfigRef(NO_OBJECT, NO_OBJECT)
  const NO_CLUSTER := ClusterInfo("", "", "", NO_OBJECT, TargetCluster("", ""), NO_CONFIG)

  predicate HasAddress(info: IPInfo) {
    info.address != "" || info.gateway != ""
  }

  /** One round of the loop that fills newIPs; None is the panic on a nil IPv4 pointer. */
  function AddInterface(ips: NewIPs, iface: NFInterface): Option<NewIPs> {
    match iface.ipv4
    case None => None
    case Some(info) => Some(if HasAddress(info) then ips[iface.name := info] else ips)
  }

  function NewIPsOf(ifaces: seq<NFInterface>): Option<NewIPs> {
    if ifaces == [] then Some(map[])
    else match NewIPsOf(ifaces[..|ifaces| - 1])
      case None => None
      case Some(ips) => AddInterface(ips, ifaces[|ifaces| - 1])
  }

  /** Entry `i` is the last one that gives `name` an address or a gateway. */
  ghost predicate LastEntry(ifaces: seq<NFInterface>, name: string, i: nat) {
    && i < |ifaces|
    && Gives(ifaces[i], name)
    && forall j :: i < j < |ifaces| ==> !Gives(ifaces[j], name)
  }

  predicate Gives(iface: NFInterface, name: string) {
    && iface.name == name && iface.ipv4.Some?
    && (iface.ipv4.value.address != "" || iface.ipv4.value.gateway != "")
  }

  lemma {:induction false} NewIPsExists(ifaces: seq<NFInterface>)
    ensures NewIPsOf(ifaces).Some? <==> forall i :: 0 <= i < |ifaces| ==> ifaces[i].ipv4.Some?
  {
    if ifaces == [] {
    } else {
      NewIPsExists(ifaces[..|ifaces| - 1]);
    }
  }

  ghost predicate Given(ifaces: seq<NFInterface>, name: string) {
    exists i :: 0 <= i < |ifaces| && Gives(ifaces[i], name)
  }

  lemma GivenSnoc(front: seq<NFInterface>, last: NFInterface, name: string)
    ensures Given(front + [last], name) <==> Given(front, name) || Gives(last, name)
  {
    var ifaces := front + [last];
    assert ifaces[|front|] == last;
    if Given(front, name) {
      var i :| 0 <= i < |front| && Gives(front[i], name);
      assert Gives(ifaces[i], name);
    }
  }

  lemma {:induction false} NewIPsBinds(ifaces: seq<NFInterface>, name: string)
    requires NewIPsOf(ifaces).Some?
    ensures name in NewIPsOf(ifaces).value <==> Given(ifaces, name)
  {
    if ifaces == [] {
    } else {
      var front, last := ifaces[..|ifaces| - 1], ifaces[|ifaces| - 1];
      NewIPsBinds(front, name);
      GivenSnoc(front, last, name);
      assert ifaces == front + [last];
    }
  }

  lemma {:induction false} NewIPsLast(ifaces: seq<NFInterface>, name: string, i: nat)
    requires NewIPsOf(ifaces).Some? && LastEntry(ifaces, name, i)
    ensures name in NewIPsOf(ifaces).value && NewIPsOf(ifaces).value[name] == ifaces[i].ipv4.value
  {
    var n := |ifaces| - 1;
    if i == n {
    } else {
      assert !Gives(ifaces[n], name);
      NewIPsLast(ifaces[..n], name, i);
    }
  }

  /** The map exists exactly when no IPv4 pointer is nil; it then binds exactly the names that some entry gives an
      address or gateway, each to its last such entry. */
  lemma NewIPsMeaning(ifaces: seq<NFInterface>)
    ensures NewIPsOf(ifaces).Some? <==> forall i :: 0 <= i < |ifaces| ==> ifaces[i].ipv4.Some?
    ensures NewIPsOf(ifaces).Some? ==>
              && (forall name :: name in NewIPsOf(ifaces).value <==> Given(ifaces, name))
              && (forall name, i: nat :: LastEntry(ifaces, name, i) ==>
                    name in NewIPsOf(ifaces).value && NewIPsOf(ifaces).value[name] == ifaces[i].ipv4.value)
  {
    NewIPsExists(ifaces);
    if NewIPsOf(ifaces).Some? {
      forall name
        ensures name in NewIPsOf(ifaces).value <==> Given(ifaces, name)
      {
        NewIPsBinds(ifaces, name);
      }
      forall name, i: nat | LastEntry(ifaces, name, i)
        ensures name in NewIPsOf(ifaces).value && NewIPsOf(ifaces).value[name] == ifaces[i].ipv4.value
      {
        NewIPsLast(ifaces, name, i);
      }
    }
  }

  // --- Hosts for a network attachment definition ---

  predicate MatchesNad(iface: NFInterface, id: ObjectName) {
    id == ObjectName(iface.nameNad, iface.namespaceNad)
  }

  /** The host interfaces of all entries that name the definition, in order. */
  function HostsFor(ifaces: seq<NFInterface>, id: ObjectName): seq<string> {
    if ifaces == [] then []
    else (if MatchesNad(ifaces[0], id) then [ifaces[0].hostInterface] else []) + HostsFor(ifaces[1..], id)
  }

  /** The host interface of the last entry that names the definition. */
  function LastHost(ifaces: seq<NFInterface>, id: ObjectName): Option<string> {
    if ifaces == [] then None
    else
      var last := ifaces[|ifaces| - 1];
      if MatchesNad(last, id) then Some(last.hostInterface) else LastHost(ifaces[..|ifaces| - 1], id)
  }

  lemma {:induction false} HostsForSnoc(ifaces: seq<NFInterface>, iface: NFInterface, id: ObjectName)
    ensures HostsFor(ifaces + [iface], id) ==
            HostsFor(ifaces, id) + if MatchesNad(iface, id) then [iface.hostInterface] else []
  {
    if ifaces == [] {
      assert [] + [iface] == [iface];
    } else {
      HostsForSnoc(ifaces[1..], iface, id);
      assert (ifaces + [iface])[1..] == ifaces[1..] + [iface];
    }
  }

  lemma {:induction false} LastHostIsLast(ifaces: seq<NFInterface>, id: ObjectName)
    ensures var hosts := HostsFor(ifaces, id);
            LastHost(ifaces, id) == if hosts == [] then None else Some(hosts[|hosts| - 1])
  {
    if ifaces == [] {
    } else {
      var front, last := ifaces[..|ifaces| - 1], ifaces[|ifaces| - 1];
      assert ifaces == front + [last];
      HostsForSnoc(front, last, id);
      LastHostIsLast(front, id);
    }
  }

  /** Entry `i` is the last one with the name and the namespace of the definition. */
  ghost predicate LastNaming(ifaces: seq<NFInterface>, id: ObjectName, i: nat) {
    && i < |ifaces| && ifaces[i].nameNad == id.name && ifaces[i].namespaceNad == id.namespace
    && forall j :: i < j < |ifaces| ==> !(ifaces[j].nameNad == id.name && ifaces[j].namespaceNad == id.namespace)
  }

  lemma {:induction false} LastHostMeaning(ifaces: seq<NFInterface>, id: ObjectName, i: nat)
    requires LastNaming(ifaces, id, i)
    ensures LastHost(ifaces, id) == Some(ifaces[i].hostInterface)
  {
    var n := |ifaces| - 1;
    if i == n {
    } else {
      assert !MatchesNad(ifaces[n], id);
      LastHostMeaning(ifaces[..n], id, i);
    }
  }

  lemma {:induction false} HostsForMeaning(ifaces: seq<NFInterface>, id: ObjectName)
    ensures HostsFor(ifaces, id) == [] <==>
            forall i :: 0 <= i < |ifaces| ==> !(ifaces[i].nameNad == id.name && ifaces[i].namespaceNad == id.namespace)
  {
    if ifaces == [] {
    } else {
      HostsForMeaning(ifaces[1..], id);
      if HostsFor(ifaces, id) == [] {
        assert !MatchesNad(ifaces[0], id);
      }
      assert forall i :: 1 <= i < |ifaces| ==> ifaces[i] == ifaces[1..][i - 1];
    }
  }
}
