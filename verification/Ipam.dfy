/**
 Reserving the addresses of a nodeset's nodes. A node without networks of its own takes the slice of the node
 template, and with it the backing array: the fixed address written for one node is then seen by the next.
 */
module Ipam {
  import opened Wrappers

  const CTLPLANE := "ctlplane"

  datatype Network = Network(name: string, subnet: string, fixedIP: Option<string>)

  /** A node, with its networks by reference to their backing array. */
  datatype Node<Ref> = Node(hostName: string, networks: Ref, ansibleHost: string)

  /** The contents of the backing arrays. */
  type Store<!Ref(==)> = map<Ref, seq<Network>>

  /** The Ready condition of an IPSet; one that was never set is Unknown. */
  datatype Readiness = Unknown | IsFalse | IsTrue

  /** An IPSet of the API server: whether it has the nodeset's labels, its networks, and what it reports. */
  datatype IPSet = IPSet(labelled: bool, networks: seq<Network>, ready: Readiness)

  type Cluster = map<string, IPSet>

  /** What a pass meets: the nodeset's flag, the network names, what parses as an address, and the answers of the
      API server to the i-th patch and to the i-th deletion. */
  datatype Env = Env(preProvisioned: bool, serviceNets: map<string, string>, isIP: string -> bool,
                     patched: nat -> bool, deleted: nat -> bool)

  // ---------------------------------------------------------------- network names

  function Lower(name: string): (r: string)
    ensures |r| == |name|
  {
    seq(|name|, i requires 0 <= i < |name| => if 'A' <= name[i] <= 'Z' then name[i] - 'A' + 'a' else name[i])
  }

  /** The service network that a network of the configuration names, or else its own lower-case name. */
  function ServiceNet(net: (string, string)): string {
    if net.1 == "" then Lower(net.0) else net.1
  }

  /** Network i is the last of its name, whatever the case of the letters. */
  ghost predicate LastOfItsLowerName(nets: seq<(string, string)>, i: nat) {
    i < |nets| && forall j :: i < j < |nets| ==> Lower(nets[j].0) != Lower(nets[i].0)
  }

  /** The map knows exactly the lower-case names, each with the service network of the last network of that name. */
  ghost predicate MapsNets(serviceNets: map<string, string>, nets: seq<(string, string)>) {
    && (forall name :: name in serviceNets <==> exists i :: 0 <= i < |nets| && Lower(nets[i].0) == name)
    && (forall i :: 0 <= i < |nets| && LastOfItsLowerName(nets, i) ==>
        Lower(nets[i].0) in serviceNets && serviceNets[Lower(nets[i].0)] == ServiceNet(nets[i]))
  }

  lemma {:induction false} OneMoreNet(serviceNets: map<string, string>, nets: seq<(string, string)>,
      net: (string, string))
    requires MapsNets(serviceNets, nets)
    ensures MapsNets(serviceNets[Lower(net.0) := ServiceNet(net)], nets + [net])
  {
    var more, longer := serviceNets[Lower(net.0) := ServiceNet(net)], nets + [net];
    assert forall i :: 0 <= i < |nets| ==> longer[i] == nets[i];
    assert longer[|nets|] == net;
    forall name
      ensures name in more <==> exists i :: 0 <= i < |longer| && Lower(longer[i].0) == name
    {
      if name in serviceNets {
        var i :| 0 <= i < |nets| && Lower(nets[i].0) == name;
        assert Lower(longer[i].0) == name;
      }
      if name == Lower(net.0) {
        assert Lower(longer[|nets|].0) == name;
      }
    }
    forall i | 0 <= i < |longer| && LastOfItsLowerName(longer, i)
      ensures Lower(longer[i].0) in more && more[Lower(longer[i].0)] == ServiceNet(longer[i])
    {
      if i < |nets| {
        assert Lower(longer[|nets|].0) != Lower(longer[i].0);
        assert LastOfItsLowerName(nets, i);
      }
    }
  }

  function ServiceNets(nets: seq<(string, string)>): map<string, string> {
    if nets == [] then map[]
    else ServiceNets(nets[..|nets| - 1])[Lower(nets[|nets| - 1].0) := ServiceNet(nets[|nets| - 1])]
  }

  lemma {:induction false} ServiceNetsHold(nets: seq<(string, string)>)
    ensures MapsNets(ServiceNets(nets), nets)
  {
    if nets != [] {
      var init, last := nets[..|nets| - 1], nets[|nets| - 1];
      ServiceNetsHold(init);
      OneMoreNet(ServiceNets(init), init, last);
      assert init + [last] == nets;
    }
  }

  method BuildNetServiceNetMap(nets: seq<(string, string)>) returns (serviceNets: map<string, string>)
    ensures MapsNets(serviceNets, nets)
  {
    serviceNets := map[];
    for i := 0 to |nets|
      invariant MapsNets(serviceNets, nets[..i])
    {
      assert nets[..i + 1] == nets[..i] + [nets[i]];
      OneMoreNet(serviceNets, nets[..i], nets[i]);
      var lower := Lower(nets[i].0);
      if nets[i].1 == "" {
        serviceNets := serviceNets[lower := lower];
      } else {
        serviceNets := serviceNets[lower := nets[i].1];
      }
    }
    assert nets[..|nets|] == nets;
  }

  /** What the map holds is settled by the list. */
  lemma {:induction false} NetMapIsUnique(a: map<string, string>, b: map<string, string>, nets: seq<(string, string)>)
    requires MapsNets(a, nets) && MapsNets(b, nets)
    ensures a == b
  {
    forall name
      ensures name in a <==> name in b
    {
    }
    forall name | name in a
      ensures a[name] == b[name]
    {
      var i := LastOfName(nets, name);
    }
  }

  lemma {:induction false} LastOfName(nets: seq<(string, string)>, name: string) returns (i: nat)
    requires exists j :: 0 <= j < |nets| && Lower(nets[j].0) == name
    ensures LastOfItsLowerName(nets, i) && Lower(nets[i].0) == name
  {
    i := |nets| - 1;
    while Lower(nets[i].0) != name
      invariant i < |nets|
      invariant exists j :: 0 <= j <= i && Lower(nets[j].0) == name
      invariant forall j :: i < j < |nets| ==> Lower(nets[j].0) != name
      decreases i
    {
      i := i - 1;
    }
  }

  predicate IsCtlplane(env: Env, name: string) {
    Lower(name) == CTLPLANE || (Lower(name) in env.serviceNets && env.serviceNets[Lower(name)] == CTLPLANE)
  }

  /** Which names serve as ctlplane: that name in any case, and those whose last network, in any case, names it as its
      service network. */
  lemma {:induction false} CtlplaneNames(env: Env, nets: seq<(string, string)>, name: string)
    requires MapsNets(env.serviceNets, nets)
    ensures IsCtlplane(env, name) <==>
      || Lower(name) == CTLPLANE
      || exists i :: (
        && 0 <= i < |nets| && LastOfItsLowerName(nets, i)
        && Lower(nets[i].0) == Lower(name) && ServiceNet(nets[i]) == CTLPLANE)
  {
    if Lower(name) in env.serviceNets {
      var i := LastOfName(nets, Lower(name));
    }
  }

  // ---------------------------------------------------------------- one node

  /** The first network that serves as ctlplane. */
  function CtlplaneIndex(env: Env, nets: seq<Network>): (i: nat)
    ensures i <= |nets|
  {
    if nets == [] || IsCtlplane(env, nets[0].name) then 0 else 1 + CtlplaneIndex(env, nets[1..])
  }

  lemma {:induction false} CtlplaneIsFirst(env: Env, nets: seq<Network>, i: nat)
    requires i <= |nets|
    ensures CtlplaneIndex(env, nets) == i
        <==> (i < |nets| ==> IsCtlplane(env, nets[i].name)) && forall k :: 0 <= k < i ==> !IsCtlplane(env, nets[k].name)
  {
    if nets != [] && !IsCtlplane(env, nets[0].name) && i > 0 {
      CtlplaneIsFirst(env, nets[1..], i - 1);
      assert forall k :: 0 <= k < i - 1 ==> nets[1..][k] == nets[k + 1];
      assert forall k :: 0 < k < i ==> nets[k] == nets[1..][k - 1];
    }
  }

  /** Whether the host of a node may be used as its address. */
  predicate Usable(env: Env, ansibleHost: string) {
    env.preProvisioned && ansibleHost != "" && env.isIP(ansibleHost)
  }

  predicate Unset(net: Network) {
    net.fixedIP.None? || net.fixedIP.value == ""
  }

  /** The networks with the address, if there is one, at their ctlplane network. */
  function Given(env: Env, nets: seq<Network>, address: Option<string>): (r: seq<Network>)
    ensures |r| == |nets|
  {
    var i := CtlplaneIndex(env, nets);
    if i < |nets| && address.Some? then nets[i := nets[i].(fixedIP := address)] else nets
  }

  /** The address that the loop over a node's networks writes. */
  function Written(env: Env, ansibleHost: string, nets: seq<Network>): Option<string> {
    var i := CtlplaneIndex(env, nets);
    if i < |nets| && Unset(nets[i]) && Usable(env, ansibleHost) then Some(ansibleHost) else None
  }

  /** The array a node uses: its own unless that is empty. */
  function Used<Ref(==)>(store: Store<Ref>, template: Ref, node: Node<Ref>): Ref
    requires node.networks in store
  {
    if store[node.networks] == [] then template else node.networks
  }

  ghost predicate Holds<Ref>(store: Store<Ref>, template: Ref, nodes: seq<Node<Ref>>) {
    template in store && forall i :: 0 <= i < |nodes| ==> nodes[i].networks in store
  }

  /** A network serves as ctlplane: by its name in any case, or by its service network. */
  ghost predicate Serves(env: Env, net: Network) {
    || Lower(net.name) == "ctlplane"
    || (Lower(net.name) in env.serviceNets && env.serviceNets[Lower(net.name)] == "ctlplane")
  }

  ghost predicate IsFirstServing(env: Env, nets: seq<Network>, k: int) {
    0 <= k < |nets| && Serves(env, nets[k]) && forall j :: 0 <= j < k ==> !Serves(env, nets[j])
  }

  /** The host may be written into network k: the nodeset is pre-provisioned, the host is an address, and network k, the
      first that serves as ctlplane, has none yet. */
  ghost predicate MayBeWritten(env: Env, ansibleHost: string, nets: seq<Network>, k: int) {
    && env.preProvisioned && ansibleHost != "" && env.isIP(ansibleHost)
    && IsFirstServing(env, nets, k) && (nets[k].fixedIP == None || nets[k].fixedIP == Some(""))
  }

  /** The networks afterwards: where the host may be written it is the fixed address, and nothing else has changed. */
  ghost predicate HostWritten(env: Env, ansibleHost: string, before: seq<Network>, after: seq<Network>) {
    && |after| == |before|
    && forall k :: 0 <= k < |before| ==>
      after[k] == if MayBeWritten(env, ansibleHost, before, k) then before[k].(fixedIP := Some(ansibleHost))
        else before[k]
  }

  /** Letters count in any case. */
  lemma {:induction false} CaseDoesNotMatter(env: Env)
    ensures forall name :: name in {"ctlplane", "CtlPlane", "CTLPLANE"} ==> Serves(env, Network(name, "", None))
  {
    assert Lower("ctlplane") == "ctlplane" && Lower("CtlPlane") == "ctlplane" && Lower("CTLPLANE") == "ctlplane";
  }

  lemma {:induction false} ServingIsCtlplane(env: Env, nets: seq<Network>)
    ensures forall k :: IsFirstServing(env, nets, k) <==> (k == CtlplaneIndex(env, nets) && k < |nets|)
    ensures CtlplaneIndex(env, nets) < |nets| <==> exists net :: net in nets && Serves(env, net)
  {
    var i := CtlplaneIndex(env, nets);
    CtlplaneIsFirst(env, nets, i);
    forall k | 0 <= k < |nets| ensures Serves(env, nets[k]) <==> IsCtlplane(env, nets[k].name) {
    }
  }

  /** What the loop over a node's networks writes, and where. */
  lemma {:induction false} GivenIsWritten(env: Env, nets: seq<Network>, ansibleHost: string)
    ensures HostWritten(env, ansibleHost, nets, Given(env, nets, Written(env, ansibleHost, nets)))
  {
    ServingIsCtlplane(env, nets);
  }

  // ---------------------------------------------------------------- all nodes

  /** The arrays, the API server's IPSets, the Ready condition of each returned IPSet, the number of nodes visited,
      and the absence of error. */
  datatype State<!Ref(==)> = State(store: Store<Ref>, cluster: Cluster, reserved: map<string, Readiness>, visits: nat,
      ok: bool)

  function Patched(cluster: Cluster, hostName: string, nets: seq<Network>): IPSet {
    IPSet(true, nets, ReadinessOf(cluster, hostName))
  }

  /** The i-th node: its address, then its IPSet. */
  function ReserveOne<Ref(==)>(env: Env, template: Ref, node: Node<Ref>, i: nat, st: State<Ref>): State<Ref>
    requires template in st.store && node.networks in st.store
  {
    var used := Used(st.store, template, node);
    var after := Given(env, st.store[used], Written(env, node.ansibleHost, st.store[used]));
    var store := st.store[used := after];
    if CtlplaneIndex(env, after) == |after| || !env.patched(i) then st.(store := store, visits := i + 1, ok := false)
    else
      var ipSet := Patched(st.cluster, node.hostName, after);
      State(store, st.cluster[node.hostName := ipSet], st.reserved[node.hostName := ipSet.ready], i + 1, true)
  }

  /** The first n nodes, in the order in which the map of nodes is iterated; an error ends the loop. */
  function Reserve<Ref(==)>(env: Env, template: Ref, nodes: seq<Node<Ref>>, n: nat, store: Store<Ref>,
      cluster: Cluster): (r: State<Ref>)
    requires n <= |nodes| && Holds(store, template, nodes)
    ensures r.store.Keys == store.Keys
    ensures r.visits <= n && (r.ok ==> r.visits == n)
  {
    if n == 0 then State(store, cluster, map[], 0, true)
    else
      var before := Reserve(env, template, nodes, n - 1, store, cluster);
      if before.ok then ReserveOne(env, template, nodes[n - 1], n - 1, before) else before
  }

  /** The address that array r is given by the first n nodes: that of the first node that uses it and has one. */
  function Address<Ref(==)>(env: Env, template: Ref, nodes: seq<Node<Ref>>, n: nat, store: Store<Ref>,
      r: Ref): (a: Option<string>)
    requires n <= |nodes| && Holds(store, template, nodes) && r in store
    ensures a.Some? ==> Usable(env, a.value)
  {
    if n == 0 then None
    else
      var before := Address(env, template, nodes, n - 1, store, r);
      if before.Some? || Used(store, template, nodes[n - 1]) != r then before
      else Written(env, nodes[n - 1].ansibleHost, store[r])
  }

  lemma {:induction false} ErrorEnds<Ref>(env: Env, template: Ref, nodes: seq<Node<Ref>>, n: nat, m: nat,
      store: Store<Ref>, cluster: Cluster)
    requires n <= m <= |nodes| && Holds(store, template, nodes)
    requires !Reserve(env, template, nodes, n, store, cluster).ok
    ensures Reserve(env, template, nodes, m, store, cluster) == Reserve(env, template, nodes, n, store, cluster)
    decreases m
  {
    if n < m {
      ErrorEnds(env, template, nodes, n, m - 1, store, cluster);
    }
  }

  // ---------------------------------------------------------------- the arrays

  lemma {:induction false} GivenKeepsIndex(env: Env, nets: seq<Network>, address: Option<string>)
    ensures CtlplaneIndex(env, Given(env, nets, address)) == CtlplaneIndex(env, nets)
  {
    var after := Given(env, nets, address);
    assert forall k :: 0 <= k < |nets| ==> after[k].name == nets[k].name;
    CtlplaneIsFirst(env, nets, CtlplaneIndex(env, nets));
    CtlplaneIsFirst(env, after, CtlplaneIndex(env, nets));
  }

  /** What one node does to the networks it uses, given what earlier ones did to them. */
  lemma {:induction false} GivenOnce(env: Env, nets: seq<Network>, address: Option<string>, ansibleHost: string)
    requires address.Some? ==> Usable(env, address.value)
    ensures var now := Given(env, nets, address);
            Given(env, now, Written(env, ansibleHost, now))
            == Given(env, nets, if address.Some? then address else Written(env, ansibleHost, nets))
  {
    GivenKeepsIndex(env, nets, address);
  }

  lemma {:induction false} NextArray<Ref>(env: Env, template: Ref, node: Node<Ref>, i: nat, before: State<Ref>,
      store: Store<Ref>, r: Ref, address: Option<string>)
    requires r in store && node.networks in store && template in store && before.store.Keys == store.Keys
    requires |before.store[node.networks]| == |store[node.networks]|
    requires before.store[r] == Given(env, store[r], address)
    requires address.Some? ==> Usable(env, address.value)
    ensures ReserveOne(env, template, node, i, before).store[r]
         == Given(env, store[r],
           if address.Some? || Used(store, template, node) != r then address
           else Written(env, node.ansibleHost, store[r]))
  {
    GivenOnce(env, store[r], address, node.ansibleHost);
  }

  lemma {:induction false} LengthsStay<Ref>(env: Env, template: Ref, nodes: seq<Node<Ref>>, n: nat, store: Store<Ref>,
      cluster: Cluster, r: Ref)
    requires n <= |nodes| && Holds(store, template, nodes) && r in store
    ensures |Reserve(env, template, nodes, n, store, cluster).store[r]| == |store[r]|
  {
    if n > 0 {
      LengthsStay(env, template, nodes, n - 1, store, cluster, r);
    }
  }

  /** The frame, on success and on failure: an array is as it was, but for the address of the first visited node that
      uses it and has one, at its ctlplane network and only when that had none. */
  lemma {:induction false} ArraysAfter<Ref>(env: Env, template: Ref, nodes: seq<Node<Ref>>, n: nat, store: Store<Ref>,
      cluster: Cluster, r: Ref)
    requires n <= |nodes| && Holds(store, template, nodes) && r in store
    ensures var after := Reserve(env, template, nodes, n, store, cluster);
            after.store[r] == Given(env, store[r], Address(env, template, nodes, after.visits, store, r))
  {
    if n > 0 {
      ArraysAfter(env, template, nodes, n - 1, store, cluster, r);
      var before := Reserve(env, template, nodes, n - 1, store, cluster);
      if before.ok {
        LengthsStay(env, template, nodes, n - 1, store, cluster, nodes[n - 1].networks);
        NextArray(env, template, nodes[n - 1], n - 1, before, store, r, Address(env, template, nodes, n - 1, store, r));
      }
    }
  }

  // ---------------------------------------------------------------- the IPSets

  function ReadinessOf(cluster: Cluster, hostName: string): Readiness {
    if hostName in cluster then cluster[hostName].ready else Unknown
  }

  ghost function HostNames<Ref>(nodes: seq<Node<Ref>>, n: nat): set<string>
    requires n <= |nodes|
  {
    if n == 0 then {} else HostNames(nodes, n - 1) + {nodes[n - 1].hostName}
  }

  /** Node j is the last of the first n with its host name. */
  ghost predicate LastOfItsName<Ref>(nodes: seq<Node<Ref>>, n: nat, j: nat)
    requires n <= |nodes|
  {
    j < n && forall k :: j < k < n ==> nodes[k].hostName != nodes[j].hostName
  }

  /** The networks node j asks for: those of its array, with the address of its first user up to j. */
  function Requested<Ref(==)>(env: Env, template: Ref, nodes: seq<Node<Ref>>, store: Store<Ref>, j: nat): seq<Network>
    requires j < |nodes| && Holds(store, template, nodes)
  {
    var used := Used(store, template, nodes[j]);
    Given(env, store[used], Address(env, template, nodes, j + 1, store, used))
  }

  /** Of an IPSet, one cluster keeps what the other has. */
  ghost predicate Alike(before: Cluster, after: Cluster, h: string) {
    (h in after <==> h in before) && (h in before ==> after[h] == before[h])
  }

  lemma {:induction false} OneOther<Ref>(env: Env, template: Ref, node: Node<Ref>, i: nat, st: State<Ref>, h: string)
    requires template in st.store && node.networks in st.store
    ensures ReadinessOf(ReserveOne(env, template, node, i, st).cluster, h) == ReadinessOf(st.cluster, h)
    ensures h != node.hostName ==> Alike(st.cluster, ReserveOne(env, template, node, i, st).cluster, h)
  {
  }

  /** The loop writes the IPSets of the host names only, and never what these report. */
  lemma {:induction false} OthersAfter<Ref>(env: Env, template: Ref, nodes: seq<Node<Ref>>, n: nat, store: Store<Ref>,
      cluster: Cluster, h: string)
    requires n <= |nodes| && Holds(store, template, nodes)
    ensures ReadinessOf(Reserve(env, template, nodes, n, store, cluster).cluster, h) == ReadinessOf(cluster, h)
    ensures h !in HostNames(nodes, n) ==> Alike(cluster, Reserve(env, template, nodes, n, store, cluster).cluster, h)
  {
    if n > 0 {
      OthersAfter(env, template, nodes, n - 1, store, cluster, h);
      OneOther(env, template, nodes[n - 1], n - 1, Reserve(env, template, nodes, n - 1, store, cluster), h);
    }
  }

  lemma {:induction false} OneName<Ref>(env: Env, template: Ref, node: Node<Ref>, i: nat, st: State<Ref>, h: string)
    requires template in st.store && node.networks in st.store
    requires ReserveOne(env, template, node, i, st).ok
    ensures h in ReserveOne(env, template, node, i, st).reserved <==> h in st.reserved || h == node.hostName
  {
  }

  lemma {:induction false} ReservedNames<Ref>(env: Env, template: Ref, nodes: seq<Node<Ref>>, n: nat,
      store: Store<Ref>, cluster: Cluster, h: string)
    requires n <= |nodes| && Holds(store, template, nodes)
    requires Reserve(env, template, nodes, n, store, cluster).ok
    ensures h in Reserve(env, template, nodes, n, store, cluster).reserved <==> h in HostNames(nodes, n)
  {
    if n > 0 {
      var before := Reserve(env, template, nodes, n - 1, store, cluster);
      if before.ok {
        ReservedNames(env, template, nodes, n - 1, store, cluster, h);
        OneName(env, template, nodes[n - 1], n - 1, before, h);
      }
    }
  }

  lemma {:induction false} ReservedReadiness<Ref>(env: Env, template: Ref, nodes: seq<Node<Ref>>, n: nat,
      store: Store<Ref>, cluster: Cluster, h: string)
    requires n <= |nodes| && Holds(store, template, nodes)
    ensures var after := Reserve(env, template, nodes, n, store, cluster);
            h in after.reserved ==> after.reserved[h] == ReadinessOf(after.cluster, h)
  {
    if n > 0 {
      ReservedReadiness(env, template, nodes, n - 1, store, cluster, h);
      OneReadiness(env, template, nodes[n - 1], n - 1, Reserve(env, template, nodes, n - 1, store, cluster), h);
    }
  }

  lemma {:induction false} OneReadiness<Ref>(env: Env, template: Ref, node: Node<Ref>, i: nat, st: State<Ref>,
      h: string)
    requires template in st.store && node.networks in st.store
    requires h in st.reserved ==> st.reserved[h] == ReadinessOf(st.cluster, h)
    ensures var after := ReserveOne(env, template, node, i, st);
            h in after.reserved ==> after.reserved[h] == ReadinessOf(after.cluster, h)
  {
  }

  /** An IPSet is stored as given, and returned with its readiness. */
  ghost predicate Stored<Ref>(st: State<Ref>, h: string, ipSet: IPSet) {
    && h in st.cluster && st.cluster[h] == ipSet
    && h in st.reserved && st.reserved[h] == ipSet.ready
  }

  lemma {:induction false} OneStored<Ref>(env: Env, template: Ref, node: Node<Ref>, i: nat, st: State<Ref>, h: string,
      ipSet: IPSet)
    requires template in st.store && node.networks in st.store
    requires h != node.hostName && Stored(st, h, ipSet)
    ensures Stored(ReserveOne(env, template, node, i, st), h, ipSet)
  {
  }

  lemma {:induction false} OneStores<Ref>(env: Env, template: Ref, node: Node<Ref>, i: nat, st: State<Ref>)
    requires template in st.store && node.networks in st.store && ReserveOne(env, template, node, i, st).ok
    ensures var after := ReserveOne(env, template, node, i, st);
            var used := Used(st.store, template, node);
            Stored(after, node.hostName, IPSet(true, after.store[used], ReadinessOf(st.cluster, node.hostName)))
  {
  }

  /** The node visited last asks for its networks as requested. */
  lemma {:induction false} LastStored<Ref>(env: Env, template: Ref, nodes: seq<Node<Ref>>, n: nat, store: Store<Ref>,
      cluster: Cluster)
    requires 0 < n <= |nodes| && Holds(store, template, nodes)
    requires Reserve(env, template, nodes, n, store, cluster).ok
    ensures var h := nodes[n - 1].hostName;
            var ipSet := IPSet(true, Requested(env, template, nodes, store, n - 1), ReadinessOf(cluster, h));
            Stored(Reserve(env, template, nodes, n, store, cluster), h, ipSet)
  {
    var node, used := nodes[n - 1], Used(store, template, nodes[n - 1]);
    var before, after := Reserve(env, template, nodes, n - 1, store, cluster), Reserve(env, template, nodes, n, store,
        cluster);
    assert after.store[used] == Requested(env, template, nodes, store, n - 1) by {
      ArraysAfter(env, template, nodes, n, store, cluster, used);
    }
    assert ReadinessOf(before.cluster, node.hostName) == ReadinessOf(cluster, node.hostName) by {
      OthersAfter(env, template, nodes, n - 1, store, cluster, node.hostName);
    }
    assert Used(before.store, template, node) == used by {
      LengthsStay(env, template, nodes, n - 1, store, cluster, node.networks);
    }
    assert before.ok && after == ReserveOne(env, template, node, n - 1, before);
    OneStores(env, template, node, n - 1, before);
  }

  /** A stored IPSet stays while no further node has its name. */
  lemma {:induction false} StoredStays<Ref>(env: Env, template: Ref, nodes: seq<Node<Ref>>, m: nat, n: nat,
      store: Store<Ref>, cluster: Cluster, h: string, ipSet: IPSet)
    requires m <= n <= |nodes| && Holds(store, template, nodes)
    requires Stored(Reserve(env, template, nodes, m, store, cluster), h, ipSet)
    requires forall k :: m <= k < n ==> nodes[k].hostName != h
    ensures Stored(Reserve(env, template, nodes, n, store, cluster), h, ipSet)
    decreases n
  {
    if m < n {
      StoredStays(env, template, nodes, m, n - 1, store, cluster, h, ipSet);
      OneStored(env, template, nodes[n - 1], n - 1, Reserve(env, template, nodes, n - 1, store, cluster), h, ipSet);
    }
  }

  /** After the loop, the IPSet of a node holds the networks it asked for, and is returned with its readiness; of nodes
      with one host name, this is the last. */
  lemma {:induction false} IPSetsAfter<Ref>(env: Env, template: Ref, nodes: seq<Node<Ref>>, n: nat, store: Store<Ref>,
      cluster: Cluster, j: nat)
    requires n <= |nodes| && Holds(store, template, nodes) && LastOfItsName(nodes, n, j)
    requires Reserve(env, template, nodes, n, store, cluster).ok
    ensures var h := nodes[j].hostName;
            var ipSet := IPSet(true, Requested(env, template, nodes, store, j), ReadinessOf(cluster, h));
            Stored(Reserve(env, template, nodes, n, store, cluster), h, ipSet)
  {
    var h := nodes[j].hostName;
    if !Reserve(env, template, nodes, j + 1, store, cluster).ok {
      ErrorEnds(env, template, nodes, j + 1, n, store, cluster);
    }
    LastStored(env, template, nodes, j + 1, store, cluster);
    StoredStays(env, template, nodes, j + 1, n, store, cluster, h, IPSet(true,
        Requested(env, template, nodes, store, j), ReadinessOf(cluster, h)));
  }

  // ---------------------------------------------------------------- whose address

  /** A node may write its address into array r. */
  predicate Uses<Ref(==)>(env: Env, template: Ref, node: Node<Ref>, store: Store<Ref>, r: Ref)
    requires node.networks in store
  {
    && r == (if store[node.networks] == [] then template else node.networks)
    && env.preProvisioned && node.ansibleHost != "" && env.isIP(node.ansibleHost)
  }

  /** The first of the first n nodes that may write its address into array r; n if there is none. */
  function FirstUser<Ref(==)>(env: Env, template: Ref, nodes: seq<Node<Ref>>, n: nat, store: Store<Ref>,
      r: Ref): (f: nat)
    requires n <= |nodes| && Holds(store, template, nodes)
    ensures f <= n
    ensures f < n ==> Uses(env, template, nodes[f], store, r)
    ensures forall k :: 0 <= k < f ==> !Uses(env, template, nodes[k], store, r)
  {
    if n == 0 then 0
    else
      var f := FirstUser(env, template, nodes, n - 1, store, r);
      if f < n - 1 || Uses(env, template, nodes[n - 1], store, r) then f else n
  }

  lemma {:induction false} AddressIsFirstUsers<Ref>(env: Env, template: Ref, nodes: seq<Node<Ref>>, n: nat,
      store: Store<Ref>, r: Ref)
    requires n <= |nodes| && Holds(store, template, nodes) && r in store
    requires CtlplaneIndex(env, store[r]) < |store[r]| && Unset(store[r][CtlplaneIndex(env, store[r])])
    ensures var f := FirstUser(env, template, nodes, n, store, r);
            Address(env, template, nodes, n, store, r) == if f < n then Some(nodes[f].ansibleHost) else None
  {
    if n > 0 {
      AddressIsFirstUsers(env, template, nodes, n - 1, store, r);
    }
  }

  /** The fixed address on the ctlplane network. */
  function FixedAddress(env: Env, nets: seq<Network>): Option<string> {
    var i := CtlplaneIndex(env, nets);
    if i < |nets| then nets[i].fixedIP else None
  }

  /** Node j is to get its own host as its address: nothing is fixed on the ctlplane network it lists or inherits. */
  ghost predicate Needs<Ref>(env: Env, template: Ref, nodes: seq<Node<Ref>>, store: Store<Ref>, j: nat)
    requires j < |nodes| && Holds(store, template, nodes)
  {
    MayGetOne(env, template, nodes[j], store)
  }

  ghost predicate MayGetOne<Ref>(env: Env, template: Ref, node: Node<Ref>, store: Store<Ref>)
    requires node.networks in store && template in store
  {
    exists k :: MayBeWritten(env, node.ansibleHost, OwnOrInherited(store, template, node), k)
  }

  /** The networks that a node lists, or else those of the template. */
  ghost function OwnOrInherited<Ref>(store: Store<Ref>, template: Ref, node: Node<Ref>): seq<Network>
    requires node.networks in store && template in store
  {
    if store[node.networks] == [] then store[template] else store[node.networks]
  }

  lemma {:induction false} WrittenIff(env: Env, nets: seq<Network>, ansibleHost: string)
    ensures (exists k :: MayBeWritten(env, ansibleHost, nets, k)) <==> Written(env, ansibleHost, nets).Some?
  {
    ServingIsCtlplane(env, nets);
    var i := CtlplaneIndex(env, nets);
    forall k | MayBeWritten(env, ansibleHost, nets, k) ensures k == i && Written(env, ansibleHost, nets).Some? {
      assert IsFirstServing(env, nets, k);
    }
    if Written(env, ansibleHost, nets).Some? {
      assert IsFirstServing(env, nets, i) && MayBeWritten(env, ansibleHost, nets, i);
    }
  }

  lemma {:induction false} NeedsMeansWritten<Ref>(env: Env, template: Ref, node: Node<Ref>, store: Store<Ref>)
    requires node.networks in store && template in store
    ensures MayGetOne(env, template, node, store)
      <==> Written(env, node.ansibleHost, store[Used(store, template, node)]).Some?
  {
    var nets := OwnOrInherited(store, template, node);
    WrittenIff(env, nets, node.ansibleHost);
    assert nets == store[Used(store, template, node)];
    assert MayGetOne(env, template, node, store) <==> exists k :: MayBeWritten(env, node.ansibleHost, nets, k);
  }

  /** What the IPSet of a node says after a pass. */
  function AddressOf<Ref(==)>(env: Env, st: State<Ref>, h: string): Option<string> {
    if h in st.cluster then FixedAddress(env, st.cluster[h].networks) else None
  }

  /** A node that needs an address gets that of the first node visited that may write one into the same array. */
  lemma {:induction false} FirstUserIsReserved<Ref>(env: Env, template: Ref, nodes: seq<Node<Ref>>, store: Store<Ref>,
      cluster: Cluster, j: nat)
    requires Holds(store, template, nodes) && LastOfItsName(nodes, |nodes|, j)
    requires Reserve(env, template, nodes, |nodes|, store, cluster).ok && Needs(env, template, nodes, store, j)
    ensures var used := Used(store, template, nodes[j]);
            var f := FirstUser(env, template, nodes, j + 1, store, used);
            && f <= j
            && AddressOf(env, Reserve(env, template, nodes, |nodes|, store, cluster), nodes[j].hostName)
              == Some(nodes[f].ansibleHost)
  {
    var used := Used(store, template, nodes[j]);
    NeedsMeansWritten(env, template, nodes[j], store);
    IPSetsAfter(env, template, nodes, |nodes|, store, cluster, j);
    AddressIsFirstUsers(env, template, nodes, j + 1, store, used);
    GivenKeepsIndex(env, store[used], Address(env, template, nodes, j + 1, store, used));
  }

  /** Exactly when a node gets its own address: no node visited before it may write another one into the same array. */
  lemma {:induction false} OwnAddressIffUnshared<Ref>(env: Env, template: Ref, nodes: seq<Node<Ref>>,
      store: Store<Ref>, cluster: Cluster, j: nat)
    requires Holds(store, template, nodes) && LastOfItsName(nodes, |nodes|, j)
    requires Reserve(env, template, nodes, |nodes|, store, cluster).ok && Needs(env, template, nodes, store, j)
    requires forall i :: 0 <= i < j ==> nodes[i].ansibleHost != nodes[j].ansibleHost
    ensures var after := Reserve(env, template, nodes, |nodes|, store, cluster);
            var used := Used(store, template, nodes[j]);
            (AddressOf(env, after, nodes[j].hostName) == Some(nodes[j].ansibleHost))
            <==> (forall i :: 0 <= i < j ==> !Uses(env, template, nodes[i], store, used))
  {
    FirstUserIsReserved(env, template, nodes, store, cluster, j);
  }

  /** All nodes that inherit the template's networks and need an address get one and the same. */
  lemma {:induction false} InheritorsShareOneAddress<Ref>(env: Env, template: Ref, nodes: seq<Node<Ref>>,
      store: Store<Ref>, cluster: Cluster, i: nat, j: nat)
    requires Holds(store, template, nodes) && i < j
    requires LastOfItsName(nodes, |nodes|, i) && LastOfItsName(nodes, |nodes|, j)
    requires store[nodes[i].networks] == [] && store[nodes[j].networks] == []
    requires Needs(env, template, nodes, store, i) && Needs(env, template, nodes, store, j)
    requires Reserve(env, template, nodes, |nodes|, store, cluster).ok
    ensures var after := Reserve(env, template, nodes, |nodes|, store, cluster);
            AddressOf(env, after, nodes[i].hostName) == AddressOf(env, after, nodes[j].hostName)
  {
    FirstUserIsReserved(env, template, nodes, store, cluster, i);
    FirstUserIsReserved(env, template, nodes, store, cluster, j);
  }

  /** Two nodes that inherit the template's networks: the one the map yields first gives its address to both, so the
      IPSets of one and the same nodeset depend on the order of iteration. */
  lemma {:induction false} InheritedAddressFollowsTheOrder<Ref>(env: Env, template: Ref, ab: seq<Node<Ref>>,
      ba: seq<Node<Ref>>, store: Store<Ref>, cluster: Cluster)
    requires |ab| == 2 && ba == [ab[1], ab[0]] && ab[0].hostName != ab[1].hostName
    requires Holds(store, template, ab) && Holds(store, template, ba)
    requires store[ab[0].networks] == [] && store[ab[1].networks] == []
    requires Needs(env, template, ab, store, 0) && Needs(env, template, ab, store, 1)
    requires Reserve(env, template, ab, 2, store, cluster).ok && Reserve(env, template, ba, 2, store, cluster).ok
    ensures AddressOf(env, Reserve(env, template, ab, 2, store, cluster), ab[1].hostName) == Some(ab[0].ansibleHost)
    ensures AddressOf(env, Reserve(env, template, ba, 2, store, cluster), ab[1].hostName) == Some(ab[1].ansibleHost)
  {
    FirstUserIsReserved(env, template, ab, store, cluster, 1);
    assert MayGetOne(env, template, ab[0], store);
    assert Uses(env, template, ab[0], store, template);
    FirstUserIsReserved(env, template, ba, store, cluster, 0);
  }

  // ---------------------------------------------------------------- the order of the nodes

  /** The nodes have different host names and use different arrays. */
  ghost predicate Apart<Ref>(template: Ref, nodes: seq<Node<Ref>>, store: Store<Ref>)
    requires Holds(store, template, nodes)
  {
    forall i, j :: 0 <= i < j < |nodes| ==>
      && nodes[i].hostName != nodes[j].hostName
      && Used(store, template, nodes[i]) != Used(store, template, nodes[j])
  }

  lemma {:induction false} NoUserNoAddress<Ref>(env: Env, template: Ref, nodes: seq<Node<Ref>>, n: nat,
      store: Store<Ref>, r: Ref)
    requires n <= |nodes| && Holds(store, template, nodes) && r in store
    requires forall i :: 0 <= i < n ==> Used(store, template, nodes[i]) != r
    ensures Address(env, template, nodes, n, store, r) == None
  {
    if n > 0 {
      NoUserNoAddress(env, template, nodes, n - 1, store, r);
    }
  }

  /** What a node asks for when no other node uses its array. */
  function Alone<Ref(==)>(env: Env, template: Ref, node: Node<Ref>, store: Store<Ref>): seq<Network>
    requires node.networks in store && template in store
  {
    var nets := store[Used(store, template, node)];
    Given(env, nets, Written(env, node.ansibleHost, nets))
  }

  /** The IPSet of a node after a pass over nodes that share nothing. */
  lemma {:induction false} ApartIPSet<Ref>(env: Env, template: Ref, nodes: seq<Node<Ref>>, store: Store<Ref>,
      cluster: Cluster, node: Node<Ref>)
    requires Holds(store, template, nodes) && Apart(template, nodes, store) && node in nodes
    requires Reserve(env, template, nodes, |nodes|, store, cluster).ok
    ensures node.networks in store
    ensures var after := Reserve(env, template, nodes, |nodes|, store, cluster).cluster;
            var h := node.hostName;
            h in after && after[h] == IPSet(true, Alone(env, template, node, store), ReadinessOf(cluster, h))
  {
    var j :| 0 <= j < |nodes| && nodes[j] == node;
    IPSetsAfter(env, template, nodes, |nodes|, store, cluster, j);
    NoUserNoAddress(env, template, nodes, j, store, Used(store, template, nodes[j]));
  }

  /** Of nodes that share nothing, the IPSet has the nodeset's labels and the node's own networks, or the template's,
      with the address of the node where it may be written, and it reports what it did before. */
  lemma {:induction false} ApartNodeGetsItsOwn<Ref>(env: Env, template: Ref, nodes: seq<Node<Ref>>, store: Store<Ref>,
      cluster: Cluster, node: Node<Ref>)
    requires Holds(store, template, nodes) && Apart(template, nodes, store) && node in nodes
    requires Reserve(env, template, nodes, |nodes|, store, cluster).ok
    ensures node.networks in store
    ensures var after := Reserve(env, template, nodes, |nodes|, store, cluster).cluster;
            var h := node.hostName;
            && h in after && after[h].labelled
            && after[h].ready == (if h in cluster then cluster[h].ready else Unknown)
            && HostWritten(env, node.ansibleHost, OwnOrInherited(store, template, node), after[h].networks)
  {
    ApartIPSet(env, template, nodes, store, cluster, node);
    GivenIsWritten(env, store[Used(store, template, node)], node.ansibleHost);
  }

  lemma {:induction false} OneIsOkIff<Ref>(env: Env, template: Ref, node: Node<Ref>, i: nat, before: State<Ref>,
      store: Store<Ref>, address: Option<string>)
    requires node.networks in store && template in store && before.store.Keys == store.Keys
    requires |before.store[node.networks]| == |store[node.networks]|
    requires var used := Used(store, template, node); before.store[used] == Given(env, store[used], address)
    ensures ReserveOne(env, template, node, i, before).ok
      <==> HasCtlplane(env, template, node, store) && env.patched(i)
  {
    var used := Used(store, template, node);
    GivenKeepsIndex(env, store[used], address);
    GivenKeepsIndex(env, before.store[used], Written(env, node.ansibleHost, before.store[used]));
    ServingIsCtlplane(env, store[used]);
    assert HasCtlplane(env, template, node, store) <==> CtlplaneIndex(env, store[used]) < |store[used]|;
    assert Used(before.store, template, node) == used;
  }

  /** One of the networks that the node lists or inherits serves as ctlplane. */
  ghost predicate HasCtlplane<Ref>(env: Env, template: Ref, node: Node<Ref>, store: Store<Ref>)
    requires node.networks in store && template in store
  {
    exists net :: net in OwnOrInherited(store, template, node) && Serves(env, net)
  }

  /** Node i has a ctlplane network, and its patch is not refused. */
  ghost predicate GoesThrough<Ref>(env: Env, template: Ref, nodes: seq<Node<Ref>>, store: Store<Ref>, i: nat)
    requires i < |nodes| && Holds(store, template, nodes)
  {
    HasCtlplane(env, template, nodes[i], store) && env.patched(i)
  }

  lemma {:induction false} NextIsOkIff<Ref>(env: Env, template: Ref, nodes: seq<Node<Ref>>, n: nat, store: Store<Ref>,
      cluster: Cluster)
    requires n < |nodes| && Holds(store, template, nodes)
    ensures Reserve(env, template, nodes, n + 1, store, cluster).ok
      <==> Reserve(env, template, nodes, n, store, cluster).ok && GoesThrough(env, template, nodes, store, n)
  {
    var node := nodes[n];
    var used := Used(store, template, node);
    LengthsStay(env, template, nodes, n, store, cluster, node.networks);
    ArraysAfter(env, template, nodes, n, store, cluster, used);
    var before := Reserve(env, template, nodes, n, store, cluster);
    OneIsOkIff(env, template, node, n, before, store, Address(env, template, nodes, before.visits, store, used));
    assert Reserve(env, template, nodes, n + 1, store, cluster)
      == if before.ok then ReserveOne(env, template, node, n, before) else before;
  }

  ghost predicate FirstGoThrough<Ref>(env: Env, template: Ref, nodes: seq<Node<Ref>>, store: Store<Ref>, n: nat)
    requires n <= |nodes| && Holds(store, template, nodes)
  {
    forall i :: 0 <= i < n ==> GoesThrough(env, template, nodes, store, i)
  }

  lemma {:induction false} OneMoreGoes<Ref>(env: Env, template: Ref, nodes: seq<Node<Ref>>, store: Store<Ref>, n: nat)
    requires n < |nodes| && Holds(store, template, nodes)
    ensures FirstGoThrough(env, template, nodes, store, n + 1)
      <==> FirstGoThrough(env, template, nodes, store, n) && GoesThrough(env, template, nodes, store, n)
  {
  }

  /** The reservation goes through exactly when every node has a ctlplane network and no patch is refused. */
  lemma {:induction false} ReserveOkIff<Ref>(env: Env, template: Ref, nodes: seq<Node<Ref>>, n: nat, store: Store<Ref>,
      cluster: Cluster)
    requires n <= |nodes| && Holds(store, template, nodes)
    ensures Reserve(env, template, nodes, n, store, cluster).ok <==> FirstGoThrough(env, template, nodes, store, n)
  {
    if n == 0 {
      assert Reserve(env, template, nodes, n, store, cluster).ok;
    } else {
      var m: nat := n - 1;
      ReserveOkIff(env, template, nodes, m, store, cluster);
      NextIsOkIff(env, template, nodes, m, store, cluster);
      OneMoreGoes(env, template, nodes, store, m);
      assert m + 1 == n;
    }
  }

  lemma {:induction false} InHostNames<Ref>(nodes: seq<Node<Ref>>, n: nat, h: string)
    requires n <= |nodes|
    ensures h in HostNames(nodes, n) <==> exists i :: 0 <= i < n && nodes[i].hostName == h
  {
    if n > 0 {
      InHostNames(nodes, n - 1, h);
    }
  }

  ghost predicate SameNodes<Ref>(a: seq<Node<Ref>>, b: seq<Node<Ref>>) {
    |a| == |b| && (forall i :: 0 <= i < |a| ==> a[i] in b) && (forall j :: 0 <= j < |b| ==> b[j] in a)
  }

  lemma {:induction false} SameHostNames<Ref>(a: seq<Node<Ref>>, b: seq<Node<Ref>>, h: string)
    requires SameNodes(a, b)
    ensures h in HostNames(a, |a|) <==> h in HostNames(b, |b|)
  {
    InHostNames(a, |a|, h);
    InHostNames(b, |b|, h);
  }

  lemma {:induction false} SameIPSet<Ref>(env: Env, template: Ref, a: seq<Node<Ref>>, b: seq<Node<Ref>>,
      store: Store<Ref>, cluster: Cluster, h: string)
    requires Holds(store, template, a) && Apart(template, a, store)
    requires Holds(store, template, b) && Apart(template, b, store)
    requires SameNodes(a, b)
    requires Reserve(env, template, a, |a|, store, cluster).ok && Reserve(env, template, b, |b|, store, cluster).ok
    ensures Alike(Reserve(env, template, a, |a|, store, cluster).cluster, Reserve(env, template, b, |b|, store,
        cluster).cluster, h)
  {
    SameHostNames(a, b, h);
    if h in HostNames(a, |a|) {
      InHostNames(a, |a|, h);
      var i :| 0 <= i < |a| && a[i].hostName == h;
      ApartIPSet(env, template, a, store, cluster, a[i]);
      ApartIPSet(env, template, b, store, cluster, a[i]);
    } else {
      OthersAfter(env, template, a, |a|, store, cluster, h);
      OthersAfter(env, template, b, |b|, store, cluster, h);
    }
  }

  lemma {:induction false} AlikeEverywhere(x: Cluster, y: Cluster)
    requires forall h: string :: Alike(x, y, h)
    ensures x == y
  {
    forall h: string
      ensures h in x.Keys <==> h in y.Keys
    {
      assert Alike(x, y, h);
    }
    forall h | h in x
      ensures x[h] == y[h]
    {
      assert Alike(x, y, h);
    }
  }

  /** With nodes that share nothing, the order in which their map is iterated does not show in the IPSets. */
  lemma {:induction false} OrderDoesNotMatter<Ref>(env: Env, template: Ref, a: seq<Node<Ref>>, b: seq<Node<Ref>>,
      store: Store<Ref>, cluster: Cluster)
    requires Holds(store, template, a) && Apart(template, a, store)
    requires Holds(store, template, b) && Apart(template, b, store)
    requires SameNodes(a, b)
    requires Reserve(env, template, a, |a|, store, cluster).ok && Reserve(env, template, b, |b|, store, cluster).ok
    ensures Reserve(env, template, a, |a|, store, cluster).cluster
      == Reserve(env, template, b, |b|, store, cluster).cluster
  {
    var x, y := Reserve(env, template, a, |a|, store, cluster).cluster, Reserve(env, template, b, |b|, store,
        cluster).cluster;
    forall h: string
      ensures Alike(x, y, h)
    {
      SameIPSet(env, template, a, b, store, cluster, h);
    }
    AlikeEverywhere(x, y);
  }

  // ---------------------------------------------------------------- the whole pass

  /** Deleting the first n listed IPSets whose name is no current host name; a refused deletion ends the loop. */
  function CleanUp(env: Env, current: set<string>, listed: seq<string>, n: nat, cluster: Cluster): (r: (Cluster, bool))
    requires n <= |listed|
  {
    if n == 0 then (cluster, true)
    else
      var before := CleanUp(env, current, listed, n - 1, cluster);
      if !before.1 || listed[n - 1] in current then before
      else if env.deleted(n - 1) then (before.0 - {listed[n - 1]}, true)
      else (before.0, false)
  }

  /** The clean-up goes through exactly when no deletion of a stale one is refused. */
  lemma {:induction false} CleanUpOkIff(env: Env, current: set<string>, listed: seq<string>, n: nat, cluster: Cluster)
    requires n <= |listed|
    ensures CleanUp(env, current, listed, n, cluster).1
      <==> forall i :: 0 <= i < n ==> listed[i] in current || env.deleted(i)
  {
    if n > 0 {
      CleanUpOkIff(env, current, listed, n - 1, cluster);
    }
  }

  /** After the loop without errors, the listed stale IPSets are gone and all others as they were. */
  lemma {:induction false} CleanUpRemovesTheStale(env: Env, current: set<string>, listed: seq<string>, n: nat,
      cluster: Cluster, h: string)
    requires n <= |listed| && CleanUp(env, current, listed, n, cluster).1
    ensures var after := CleanUp(env, current, listed, n, cluster).0;
            if h in listed[..n] && h !in current then h !in after else Alike(cluster, after, h)
  {
    if n > 0 {
      CleanUpRemovesTheStale(env, current, listed, n - 1, cluster, h);
      assert listed[..n] == listed[..n - 1] + [listed[n - 1]];
    }
  }

  ghost predicate Labelled(cluster: Cluster, h: string) {
    h in cluster && cluster[h].labelled
  }

  /** The list holds exactly the IPSets with the nodeset's labels. */
  ghost predicate Lists(listed: seq<string>, cluster: Cluster) {
    forall h: string :: h in listed <==> Labelled(cluster, h)
  }

  /** After clean-up and reservation without errors, the IPSets with the nodeset's labels are those of the current host
      names, whatever was there before. */
  lemma {:induction false} LabelledAreCurrent<Ref>(cleaning: Env, env: Env, template: Ref, nodes: seq<Node<Ref>>,
      store: Store<Ref>, listed: seq<string>, cluster: Cluster, h: string)
    requires Holds(store, template, nodes) && Lists(listed, cluster)
    requires CleanUp(cleaning, HostNames(nodes, |nodes|), listed, |listed|, cluster).1
    requires var cleaned := CleanUp(cleaning, HostNames(nodes, |nodes|), listed, |listed|, cluster).0;
             Reserve(env, template, nodes, |nodes|, store, cleaned).ok
    ensures var cleaned := CleanUp(cleaning, HostNames(nodes, |nodes|), listed, |listed|, cluster).0;
            var after := Reserve(env, template, nodes, |nodes|, store, cleaned).cluster;
            Labelled(after, h) <==> h in HostNames(nodes, |nodes|)
  {
    var current := HostNames(nodes, |nodes|);
    var cleaned := CleanUp(cleaning, current, listed, |listed|, cluster).0;
    CleanUpRemovesTheStale(cleaning, current, listed, |listed|, cluster, h);
    assert listed[..|listed|] == listed;
    if h in current {
      HostIsLabelled(env, template, nodes, |nodes|, store, cleaned, h);
    } else {
      OthersAfter(env, template, nodes, |nodes|, store, cleaned, h);
    }
  }

  lemma {:induction false} OneLabelled<Ref>(env: Env, template: Ref, node: Node<Ref>, i: nat, st: State<Ref>, h: string)
    requires template in st.store && node.networks in st.store && ReserveOne(env, template, node, i, st).ok
    ensures h == node.hostName || Labelled(st.cluster, h) ==>
      Labelled(ReserveOne(env, template, node, i, st).cluster, h)
  {
  }

  lemma {:induction false} HostIsLabelled<Ref>(env: Env, template: Ref, nodes: seq<Node<Ref>>, n: nat,
      store: Store<Ref>, cluster: Cluster, h: string)
    requires n <= |nodes| && Holds(store, template, nodes)
    requires Reserve(env, template, nodes, n, store, cluster).ok
    ensures h in HostNames(nodes, n) ==> Labelled(Reserve(env, template, nodes, n, store, cluster).cluster, h)
  {
    if n > 0 {
      var m: nat := n - 1;
      var before := Reserve(env, template, nodes, m, store, cluster);
      var after := ReserveOne(env, template, nodes[m], m, before);
      assert before.ok && Reserve(env, template, nodes, n, store, cluster) == after;
      HostIsLabelled(env, template, nodes, m, store, cluster, h);
      OneLabelled(env, template, nodes[m], m, before, h);
    }
  }

  // ---------------------------------------------------------------- the pass on the heap

  ghost function Contents(arrays: set<array<Network>>): (store: Store<array<Network>>)
    reads arrays
  {
    map a | a in arrays :: a[..]
  }

  datatype Outcome = Error | Waiting | Ready(ipSets: map<string, Readiness>)

  /** The result of the reservation: a reserved IPSet whose Ready is False is waited for; one without it is not. */
  ghost function Verdict<Ref>(st: State<Ref>): Outcome {
    if !st.ok then Error
    else if exists h :: h in st.reserved && st.reserved[h].IsFalse? then Waiting
    else Ready(st.reserved)
  }

  /** The labelled IPSets are those of the host names, and Ready is False of none of them. */
  ghost predicate Settled(names: set<string>, hosts: set<string>, cluster: Cluster) {
    && names == hosts
    && forall h: string :: (Labelled(cluster, h) <==> h in hosts) && (h in hosts ==> !ReadinessOf(cluster, h).IsFalse?)
  }

  lemma {:induction false} ReadyMeansSettled<Ref>(cleaning: Env, env: Env, template: Ref, nodes: seq<Node<Ref>>,
      store: Store<Ref>, listed: seq<string>, cluster: Cluster)
    requires Holds(store, template, nodes) && Lists(listed, cluster)
    requires CleanUp(cleaning, HostNames(nodes, |nodes|), listed, |listed|, cluster).1
    requires var cleaned := CleanUp(cleaning, HostNames(nodes, |nodes|), listed, |listed|, cluster).0;
             Verdict(Reserve(env, template, nodes, |nodes|, store, cleaned)).Ready?
    ensures var cleaned := CleanUp(cleaning, HostNames(nodes, |nodes|), listed, |listed|, cluster).0;
            var st := Reserve(env, template, nodes, |nodes|, store, cleaned);
            Settled(st.reserved.Keys, HostNames(nodes, |nodes|), st.cluster)
  {
    var hosts := HostNames(nodes, |nodes|);
    var cleaned := CleanUp(cleaning, hosts, listed, |listed|, cluster).0;
    var st := Reserve(env, template, nodes, |nodes|, store, cleaned);
    forall h: string
      ensures h in st.reserved.Keys <==> h in hosts
    {
      ReservedNames(env, template, nodes, |nodes|, store, cleaned, h);
    }
    forall h: string
      ensures (Labelled(st.cluster, h) <==> h in hosts) && (h in hosts ==> !ReadinessOf(st.cluster, h).IsFalse?)
    {
      LabelledAreCurrent(cleaning, env, template, nodes, store, listed, cluster, h);
      ReservedReadiness(env, template, nodes, |nodes|, store, cleaned, h);
      assert h in hosts <==> h in st.reserved.Keys;
    }
  }

  /** Of a current host name, clean-up keeps the IPSet and reservation returns what it reported before. */
  lemma {:induction false} ReturnedReadiness<Ref>(cleaning: Env, env: Env, template: Ref, nodes: seq<Node<Ref>>,
      store: Store<Ref>, listed: seq<string>, cluster: Cluster, h: string)
    requires Holds(store, template, nodes) && h in HostNames(nodes, |nodes|)
    requires CleanUp(cleaning, HostNames(nodes, |nodes|), listed, |listed|, cluster).1
    requires var cleaned := CleanUp(cleaning, HostNames(nodes, |nodes|), listed, |listed|, cluster).0;
             Reserve(env, template, nodes, |nodes|, store, cleaned).ok
    ensures var cleaned := CleanUp(cleaning, HostNames(nodes, |nodes|), listed, |listed|, cluster).0;
            var st := Reserve(env, template, nodes, |nodes|, store, cleaned);
            h in st.reserved && st.reserved[h] == ReadinessOf(cluster, h)
  {
    var cleaned := CleanUp(cleaning, HostNames(nodes, |nodes|), listed, |listed|, cluster).0;
    CleanUpRemovesTheStale(cleaning, HostNames(nodes, |nodes|), listed, |listed|, cluster, h);
    ReservedNames(env, template, nodes, |nodes|, store, cleaned, h);
    ReservedReadiness(env, template, nodes, |nodes|, store, cleaned, h);
    OthersAfter(env, template, nodes, |nodes|, store, cleaned, h);
  }

  /** Exactly when a nodeset that counts as ready has all its addresses: each of its hosts had an IPSet before the pass,
      and that had reported. */
  lemma {:induction false} ReadyIsTrueIffReported<Ref>(cleaning: Env, env: Env, template: Ref, nodes: seq<Node<Ref>>,
      store: Store<Ref>, listed: seq<string>, cluster: Cluster)
    requires Holds(store, template, nodes)
    requires CleanUp(cleaning, HostNames(nodes, |nodes|), listed, |listed|, cluster).1
    requires var cleaned := CleanUp(cleaning, HostNames(nodes, |nodes|), listed, |listed|, cluster).0;
             Verdict(Reserve(env, template, nodes, |nodes|, store, cleaned)).Ready?
    ensures var cleaned := CleanUp(cleaning, HostNames(nodes, |nodes|), listed, |listed|, cluster).0;
            var st := Reserve(env, template, nodes, |nodes|, store, cleaned);
            AllTrue(Verdict(st).ipSets) <==> AllReported(cluster, HostNames(nodes, |nodes|))
  {
    var hosts := HostNames(nodes, |nodes|);
    var cleaned := CleanUp(cleaning, hosts, listed, |listed|, cluster).0;
    var reserved := Reserve(env, template, nodes, |nodes|, store, cleaned).reserved;
    forall h: string
      ensures h in reserved <==> h in hosts
      ensures h in hosts ==> reserved[h] == ReadinessOf(cluster, h)
    {
      ReservedNames(env, template, nodes, |nodes|, store, cleaned, h);
      if h in hosts {
        ReturnedReadiness(cleaning, env, template, nodes, store, listed, cluster, h);
      }
    }
    TrueIffReported(reserved, cluster, hosts);
  }

  ghost predicate AllTrue(ipSets: map<string, Readiness>) {
    forall h :: h in ipSets ==> ipSets[h].IsTrue?
  }

  /** Each of the hosts has an IPSet whose Ready condition was set. */
  ghost predicate AllReported(cluster: Cluster, hosts: set<string>) {
    forall h :: h in hosts ==> h in cluster && !cluster[h].ready.Unknown?
  }

  lemma {:induction false} TrueIffReported(reserved: map<string, Readiness>, cluster: Cluster, hosts: set<string>)
    requires forall h: string :: h in reserved <==> h in hosts
    requires forall h :: h in hosts ==> reserved[h] == ReadinessOf(cluster, h)
    requires forall h :: h in reserved ==> !reserved[h].IsFalse?
    ensures AllTrue(reserved) <==> AllReported(cluster, hosts)
  {
    if AllTrue(reserved) {
      forall h | h in hosts
        ensures h in cluster && !cluster[h].ready.Unknown?
      {
        assert reserved[h] == ReadinessOf(cluster, h);
      }
    }
    if AllReported(cluster, hosts) {
      forall h | h in reserved
        ensures reserved[h].IsTrue?
      {
        assert h in hosts && reserved[h] == ReadinessOf(cluster, h);
      }
    }
  }

  /** What a pass over all IPSets means that counts as ready. */
  lemma {:induction false} ReadyMeans<Ref>(cleaning: Env, env: Env, template: Ref, nodes: seq<Node<Ref>>,
      store: Store<Ref>, listed: seq<string>, cluster: Cluster)
    requires Holds(store, template, nodes)
    requires CleanUp(cleaning, HostNames(nodes, |nodes|), listed, |listed|, cluster).1
    requires var cleaned := CleanUp(cleaning, HostNames(nodes, |nodes|), listed, |listed|, cluster).0;
             Verdict(Reserve(env, template, nodes, |nodes|, store, cleaned)).Ready?
    ensures var cleaned := CleanUp(cleaning, HostNames(nodes, |nodes|), listed, |listed|, cluster).0;
            var st := Reserve(env, template, nodes, |nodes|, store, cleaned);
            && (AllTrue(Verdict(st).ipSets) <==> AllReported(cluster, HostNames(nodes, |nodes|)))
            && (Lists(listed, cluster) ==> Settled(Verdict(st).ipSets.Keys, HostNames(nodes, |nodes|), st.cluster))
  {
    ReadyIsTrueIffReported(cleaning, env, template, nodes, store, listed, cluster);
    if Lists(listed, cluster) {
      ReadyMeansSettled(cleaning, env, template, nodes, store, listed, cluster);
    }
  }

  /** A nodeset with one new host: it counts as ready at once, although the IPSet has never reported. */
  lemma {:induction false} NewHostIsNotWaitedFor<Ref>(env: Env, template: Ref, node: Node<Ref>, store: Store<Ref>,
      cluster: Cluster)
    requires template in store && node.networks in store && node.hostName !in cluster && env.patched(0)
    requires CtlplaneIndex(env, store[Used(store, template, node)]) < |store[Used(store, template, node)]|
    ensures Verdict(Reserve(env, template, [node], 1, store, cluster)) == Ready(map[node.hostName := Unknown])
  {
    var used := Used(store, template, node);
    GivenKeepsIndex(env, store[used], Written(env, node.ansibleHost, store[used]));
    var st := Reserve(env, template, [node], 1, store, cluster);
    assert Reserve(env, template, [node], 0, store, cluster) == State(store, cluster, map[], 0, true);
    assert st == ReserveOne(env, template, [node][0], 0, State(store, cluster, map[], 0, true));
    assert st.reserved == map[node.hostName := Unknown];
  }

  class Client {
    var ipSets: Cluster

    constructor (ipSets: Cluster)
      ensures this.ipSets == ipSets
    {
      this.ipSets := ipSets;
    }

    method CleanupStaleReservations(env: Env, nodes: seq<Node<array<Network>>>, listed: seq<string>) returns (ok: bool)
      modifies this
      ensures (ipSets, ok) == CleanUp(env, HostNames(nodes, |nodes|), listed, |listed|, old(ipSets))
    {
      var current: set<string> := {};
      for i := 0 to |nodes|
        invariant current == HostNames(nodes, i)
      {
        current := current + {nodes[i].hostName};
      }
      ok := true;
      var i := 0;
      while i < |listed|
        invariant 0 <= i <= |listed| && ok
        invariant (ipSets, ok) == CleanUp(env, current, listed, i, old(ipSets))
      {
        if listed[i] !in current {
          if !env.deleted(i) {
            RefusalEnds(env, current, listed, i + 1, |listed|, old(ipSets));
            return false;
          }
          ipSets := ipSets - {listed[i]};
        }
        i := i + 1;
      }
    }

    /** The loop over the networks of one node, written through to their backing array. */
    method FixAddress(env: Env, nets: array<Network>, ansibleHost: string) returns (found: bool)
      modifies nets
      ensures nets[..] == Given(env, old(nets[..]), Written(env, ansibleHost, old(nets[..])))
      ensures found <==> CtlplaneIndex(env, old(nets[..])) < nets.Length
      ensures HostWritten(env, ansibleHost, old(nets[..]), nets[..])
    {
      GivenIsWritten(env, nets[..], ansibleHost);
      found := false;
      var i := 0;
      while i < nets.Length && !found
        invariant 0 <= i <= nets.Length && !found
        invariant nets[..] == old(nets[..])
        invariant forall k :: 0 <= k < i ==> !IsCtlplane(env, nets[k].name)
      {
        if IsCtlplane(env, nets[i].name) {
          CtlplaneIsFirst(env, nets[..], i);
          if env.preProvisioned && ansibleHost != "" && Unset(nets[i]) && env.isIP(ansibleHost) {
            nets[i] := nets[i].(fixedIP := Some(ansibleHost));
          }
          return true;
        }
        i := i + 1;
      }
      CtlplaneIsFirst(env, nets[..], i);
    }

    /** The heap and the results so far are those of a state. */
    ghost predicate Reached(st: State<array<Network>>, arrays: set<array<Network>>, reserved: map<string, Readiness>,
        ok: bool)
      reads this, arrays
    {
      Contents(arrays) == st.store && ipSets == st.cluster && reserved == st.reserved && ok == st.ok
    }

    /** One node: its networks, its address, its IPSet. */
    method ReserveNode(env: Env, template: array<Network>, node: Node<array<Network>>, i: nat,
        known: map<string, Readiness>,
                       ghost arrays: set<array<Network>>, ghost st: State<array<Network>>)
      returns (reserved: map<string, Readiness>, ok: bool)
      requires template in arrays && node.networks in arrays
      requires Reached(st, arrays, known, true)
      modifies this, arrays
      ensures Reached(ReserveOne(env, template, node, i, st), arrays, reserved, ok)
    {
      reserved := known;
      var nets := if node.networks.Length == 0 then template else node.networks;
      ghost var before := Contents(arrays);
      var found := FixAddress(env, nets, node.ansibleHost);
      assert Contents(arrays) == before[nets := nets[..]];
      GivenKeepsIndex(env, before[nets], Written(env, node.ansibleHost, before[nets]));
      ok := found && env.patched(i);
      if ok {
        var ready := if node.hostName in ipSets then ipSets[node.hostName].ready else Unknown;
        ipSets := ipSets[node.hostName := IPSet(true, nets[..], ready)];
        reserved := reserved[node.hostName := ready];
      }
    }

    method ReserveIPs(env: Env, template: array<Network>, nodes: seq<Node<array<Network>>>,
        ghost arrays: set<array<Network>>)
      returns (reserved: map<string, Readiness>, ok: bool)
      requires template in arrays && forall i :: 0 <= i < |nodes| ==> nodes[i].networks in arrays
      modifies this, arrays
      ensures var st := Reserve(env, template, nodes, |nodes|, old(Contents(arrays)), old(ipSets));
              && Contents(arrays) == st.store && ipSets == st.cluster && ok == st.ok
              && reserved == if ok then st.reserved else map[]
    {
      ghost var store, cluster := Contents(arrays), ipSets;
      ghost var st := State(store, ipSets, map[], 0, true);
      reserved, ok := map[], true;
      var i := 0;
      while i < |nodes| && ok
        invariant 0 <= i <= |nodes|
        invariant st == Reserve(env, template, nodes, i, store, cluster)
        invariant Reached(st, arrays, reserved, ok)
      {
        var node := nodes[i];
        reserved, ok := ReserveNode(env, template, node, i, reserved, arrays, st);
        st := ReserveOne(env, template, node, i, st);
        i := i + 1;
      }
      if !ok {
        ErrorEnds(env, template, nodes, i, |nodes|, store, cluster);
        reserved := map[];
      }
    }

    /** A whole pass: clean up, reserve, and report. The list of IPSets may fail; there may be no network
        configuration. */
    method EnsureIPSets(env: Env, template: array<Network>, nodes: seq<Node<array<Network>>>,
        ghost arrays: set<array<Network>>, listed: Option<seq<string>>, netConfig: Fetch<seq<(string, string)>>)
      returns (outcome: Outcome)
      requires template in arrays && forall i :: 0 <= i < |nodes| ==> nodes[i].networks in arrays
      modifies this, arrays
      ensures listed.None? ==> outcome == Error && ipSets == old(ipSets) && Contents(arrays) == old(Contents(arrays))
      ensures listed.Some? ==>
        var cleaned := CleanUp(env, HostNames(nodes, |nodes|), listed.value, |listed.value|, old(ipSets));
        if !cleaned.1 || !netConfig.Found? then
          outcome == Error && ipSets == cleaned.0 && Contents(arrays) == old(Contents(arrays))
        else
          var st := Reserve(env.(serviceNets := ServiceNets(netConfig.value)), template, nodes, |nodes|,
              old(Contents(arrays)), cleaned.0);
          Contents(arrays) == st.store && ipSets == st.cluster && outcome == Verdict(st)
      ensures outcome.Ready? && Lists(listed.value, old(ipSets)) ==>
        Settled(outcome.ipSets.Keys, HostNames(nodes, |nodes|), ipSets)
      ensures outcome.Ready? ==> (AllTrue(outcome.ipSets) <==> AllReported(old(ipSets), HostNames(nodes, |nodes|)))
    {
      if listed.None? {
        return Error;
      }
      var ok := CleanupStaleReservations(env, nodes, listed.value);
      if !ok || !netConfig.Found? {
        return Error;
      }
      outcome := ReserveAndReport(env, netConfig.value, template, nodes, arrays);
      ghost var full := env.(serviceNets := ServiceNets(netConfig.value));
      if outcome.Ready? {
        ReadyMeans(env, full, template, nodes, old(Contents(arrays)), listed.value, old(ipSets));
      }
    }

    method ReserveAndReport(env: Env, nets: seq<(string, string)>, template: array<Network>,
        nodes: seq<Node<array<Network>>>,
        ghost arrays: set<array<Network>>)
      returns (outcome: Outcome)
      requires template in arrays && forall i :: 0 <= i < |nodes| ==> nodes[i].networks in arrays
      modifies this, arrays
      ensures var st := Reserve(env.(serviceNets := ServiceNets(nets)), template, nodes, |nodes|,
          old(Contents(arrays)), old(ipSets));
              Contents(arrays) == st.store && ipSets == st.cluster && outcome == Verdict(st)
    {
      var serviceNets := BuildNetServiceNetMap(nets);
      ServiceNetsHold(nets);
      NetMapIsUnique(serviceNets, ServiceNets(nets), nets);
      var reserved, ok := ReserveIPs(env.(serviceNets := serviceNets), template, nodes, arrays);
      if !ok {
        return Error;
      }
      outcome := Report(reserved);
    }

    method Report(reserved: map<string, Readiness>) returns (outcome: Outcome)
      ensures outcome == if exists h :: h in reserved && reserved[h].IsFalse? then Waiting else Ready(reserved)
    {
      var left := reserved.Keys;
      while left != {}
        invariant left <= reserved.Keys
        invariant forall h :: h in reserved && h !in left ==> !reserved[h].IsFalse?
        decreases |left|
      {
        var h :| h in left;
        if reserved[h].IsFalse? {
          return Waiting;
        }
        left := left - {h};
      }
      outcome := Ready(reserved);
    }
  }

  lemma {:induction false} RefusalEnds(env: Env, current: set<string>, listed: seq<string>, n: nat, m: nat,
      cluster: Cluster)
    requires n <= m <= |listed| && !CleanUp(env, current, listed, n, cluster).1
    ensures CleanUp(env, current, listed, m, cluster) == CleanUp(env, current, listed, n, cluster)
    decreases m
  {
    if n < m {
      RefusalEnds(env, current, listed, n, m - 1, cluster);
    }
  }
}
