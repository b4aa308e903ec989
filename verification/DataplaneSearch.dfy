/**
 Whether a deployment that is still running deploys a service of a given type: the search over deployments, their
 nodesets and their services, with a cache for the services it has fetched.
 */
module DataplaneSearch {
  import opened Wrappers

  datatype NodeSet = NodeSet(name: string, nodes: nat, services: seq<string>)

  datatype Deployment = Deployment(deployed: bool, nodeSets: seq<string>, servicesOverride: seq<string>)

  /** The type of a service by name; Missing is not-found, Failed any other error. Stable during the call. */
  type Services = string -> Fetch<string>

  datatype Answer = Running(yes: bool) | LookupError

  // ---------------------------------------------------------------- the plain search

  /** The nodeset of a name; of several, the last. */
  function FindNodeSet(nodesets: seq<NodeSet>, name: string): Option<NodeSet> {
    if nodesets == [] then None
    else if nodesets[|nodesets| - 1].name == name then Some(nodesets[|nodesets| - 1])
    else FindNodeSet(nodesets[..|nodesets| - 1], name)
  }

  /** The services a deployment runs on one of its nodesets: none on an unknown or an empty one. */
  function ServicesOn(d: Deployment, nodesets: seq<NodeSet>, name: string): seq<string> {
    var found := FindNodeSet(nodesets, name);
    if found.None? || found.value.nodes == 0 then []
    else if d.servicesOverride != [] then d.servicesOverride
    else found.value.services
  }

  /** The services in the order in which the search meets them. */
  function Visited(deployments: seq<Deployment>, nodesets: seq<NodeSet>): seq<string> {
    if deployments == [] then []
    else
      var last := deployments[|deployments| - 1];
      Visited(deployments[..|deployments| - 1], nodesets) + OfDeployment(last, nodesets)
  }

  function OfDeployment(d: Deployment, nodesets: seq<NodeSet>): seq<string> {
    if d.deployed then [] else Of(d, nodesets, |d.nodeSets|)
  }

  /** The services of the first n nodesets of a deployment. */
  function Of(d: Deployment, nodesets: seq<NodeSet>, n: nat): seq<string>
    requires n <= |d.nodeSets|
  {
    if n == 0 then [] else Of(d, nodesets, n - 1) + ServicesOn(d, nodesets, d.nodeSets[n - 1])
  }

  predicate Skipped(services: Services, serviceType: string, s: string) {
    services(s).Missing? || (services(s).Found? && services(s).value != serviceType)
  }

  /** The first service that is not skipped decides. */
  function Decide(services: Services, serviceType: string, visited: seq<string>): Answer {
    if visited == [] then Running(false)
    else if Skipped(services, serviceType, visited[0]) then Decide(services, serviceType, visited[1..])
    else if services(visited[0]).Found? then Running(true)
    else LookupError
  }

  ghost predicate AllSkipped(services: Services, serviceType: string, names: seq<string>) {
    forall i :: 0 <= i < |names| ==> Skipped(services, serviceType, names[i])
  }

  /** The names settle the search, whatever follows them. */
  ghost predicate Decides(services: Services, serviceType: string, names: seq<string>, answer: Answer) {
    forall more: seq<string> :: Decide(services, serviceType, names + more) == answer
  }

  lemma {:induction false} SkippedPrefix(services: Services, serviceType: string, a: seq<string>, b: seq<string>)
    requires AllSkipped(services, serviceType, a)
    ensures Decide(services, serviceType, a + b) == Decide(services, serviceType, b)
    decreases |a|
  {
    if a == [] {
      assert a + b == b;
    } else {
      assert (a + b)[1..] == a[1..] + b;
      SkippedPrefix(services, serviceType, a[1..], b);
    }
  }

  // ---------------------------------------------------------------- the cached search

  class Client {
    const services: Services
    /** The names asked of the API server, in order. */
    ghost var requests: seq<string>

    constructor (services: Services)
      ensures this.services == services && requests == []
    {
      this.services := services;
      requests := [];
    }

    method Get(name: string) returns (r: Fetch<string>)
      modifies this`requests
      ensures r == services(name) && requests == old(requests) + [name]
    {
      requests := requests + [name];
      r := services(name);
    }
  }

  /** The cache holds types of services as they are. */
  ghost predicate Faithful(services: Services, cache: map<string, string>) {
    forall s :: s in cache ==> services(s) == Found(cache[s])
  }

  /** No existing service was asked for twice, and what was asked for and exists is in the cache. */
  ghost predicate AskedOnce(services: Services, cache: map<string, string>, requests: seq<string>) {
    && (forall i, j :: 0 <= i < j < |requests| && services(requests[i]).Found? ==> requests[i] != requests[j])
    && (forall s :: s in requests && services(s).Found? ==> s in cache)
  }

  /** The innermost loop: the services of one nodeset. A decided answer ends the search. */
  method SearchServices(client: Client, serviceType: string, names: seq<string>, cache: map<string, string>)
    returns (answer: Option<Answer>, cache': map<string, string>)
    requires Faithful(client.services, cache) && AskedOnce(client.services, cache, client.requests)
    modifies client
    ensures Faithful(client.services, cache') && AskedOnce(client.services, cache', client.requests)
    ensures answer.None? ==> AllSkipped(client.services, serviceType, names)
    ensures answer.Some? ==> Decides(client.services, serviceType, names, answer.value)
  {
    cache' := cache;
    for i := 0 to |names|
      invariant Faithful(client.services, cache') && AskedOnce(client.services, cache', client.requests)
      invariant forall k :: 0 <= k < i ==> Skipped(client.services, serviceType, names[k])
    {
      var serviceName := names[i];
      var found: string;
      if serviceName in cache' {
        found := cache'[serviceName];
      } else {
        var r := client.Get(serviceName);
        if r.Missing? {
          continue;
        }
        if r.Failed? {
          DecidedAt(client.services, serviceType, names, i);
          return Some(LookupError), cache';
        }
        found := r.value;
        cache' := cache'[serviceName := found];
      }
      if found == serviceType {
        DecidedAt(client.services, serviceType, names, i);
        return Some(Running(true)), cache';
      }
    }
    answer := None;
  }

  lemma {:induction false} DecidedAt(services: Services, serviceType: string, names: seq<string>, i: nat)
    requires i < |names| && !Skipped(services, serviceType, names[i])
    requires forall k :: 0 <= k < i ==> Skipped(services, serviceType, names[k])
    ensures Decides(services, serviceType, names, if services(names[i]).Found? then Running(true) else LookupError)
  {
    forall more: seq<string>
      ensures Decide(services, serviceType, names + more) == Decide(services, serviceType, names[i..] + more)
    {
      assert names + more == names[..i] + (names[i..] + more);
      SkippedPrefix(services, serviceType, names[..i], names[i..] + more);
    }
  }

  /** The nodesets by name. */
  ghost predicate MapOf(nodesetMap: map<string, NodeSet>, nodesets: seq<NodeSet>) {
    forall n {:trigger FindNodeSet(nodesets, n)} ::
      FindNodeSet(nodesets, n) == if n in nodesetMap then Some(nodesetMap[n]) else None
  }

  /** The services of one unfinished deployment, nodeset by nodeset. */
  method SearchDeployment(
    client: Client, serviceType: string, d: Deployment, nodesetMap: map<string, NodeSet>, ghost nodesets: seq<NodeSet>,
    cache: map<string, string>)
    returns (answer: Option<Answer>, cache': map<string, string>)
    requires MapOf(nodesetMap, nodesets)
    requires Faithful(client.services, cache) && AskedOnce(client.services, cache, client.requests)
    modifies client
    ensures Faithful(client.services, cache') && AskedOnce(client.services, cache', client.requests)
    ensures answer.None? ==> AllSkipped(client.services, serviceType, Of(d, nodesets, |d.nodeSets|))
    ensures answer.Some? ==> Decides(client.services, serviceType, Of(d, nodesets, |d.nodeSets|), answer.value)
  {
    cache' := cache;
    for i := 0 to |d.nodeSets|
      invariant Faithful(client.services, cache') && AskedOnce(client.services, cache', client.requests)
      invariant AllSkipped(client.services, serviceType, Of(d, nodesets, i))
    {
      var name := d.nodeSets[i];
      assert FindNodeSet(nodesets, name) == if name in nodesetMap then Some(nodesetMap[name]) else None;
      assert Of(d, nodesets, i + 1) == Of(d, nodesets, i) + ServicesOn(d, nodesets, name);
      if name !in nodesetMap || nodesetMap[name].nodes == 0 {
        continue;
      }
      var names := nodesetMap[name].services;
      if |d.servicesOverride| != 0 {
        names := d.servicesOverride;
      }
      answer, cache' := SearchServices(client, serviceType, names, cache');
      if answer.Some? {
        DecidesLater(client.services, serviceType, Of(d, nodesets, i), names, answer.value);
        OfPrefix(client.services, serviceType, d, nodesets, i + 1, answer.value);
        return;
      }
      SkippedBoth(client.services, serviceType, Of(d, nodesets, i), names);
    }
    answer := None;
  }

  lemma {:induction false} SkippedBoth(services: Services, serviceType: string, a: seq<string>, b: seq<string>)
    requires AllSkipped(services, serviceType, a) && AllSkipped(services, serviceType, b)
    ensures AllSkipped(services, serviceType, a + b)
  {
  }

  lemma {:induction false} DecidesLater(services: Services, serviceType: string, skipped: seq<string>,
      names: seq<string>, answer: Answer)
    requires AllSkipped(services, serviceType, skipped) && Decides(services, serviceType, names, answer)
    ensures Decides(services, serviceType, skipped + names, answer)
  {
    forall more: seq<string> ensures Decide(services, serviceType, skipped + names + more) == answer {
      assert skipped + names + more == skipped + (names + more);
      SkippedPrefix(services, serviceType, skipped, names + more);
    }
  }

  lemma {:induction false} DecidesLonger(services: Services, serviceType: string, names: seq<string>,
      more: seq<string>, answer: Answer)
    requires Decides(services, serviceType, names, answer)
    ensures Decides(services, serviceType, names + more, answer)
  {
    forall rest: seq<string> ensures Decide(services, serviceType, names + more + rest) == answer {
      assert names + more + rest == names + (more + rest);
    }
  }

  lemma {:induction false} OfPrefix(services: Services, serviceType: string, d: Deployment, nodesets: seq<NodeSet>,
      i: nat, answer: Answer)
    requires i <= |d.nodeSets| && Decides(services, serviceType, Of(d, nodesets, i), answer)
    ensures Decides(services, serviceType, Of(d, nodesets, |d.nodeSets|), answer)
    decreases |d.nodeSets| - i
  {
    if i < |d.nodeSets| {
      DecidesLonger(services, serviceType, Of(d, nodesets, i), ServicesOn(d, nodesets, d.nodeSets[i]), answer);
      OfPrefix(services, serviceType, d, nodesets, i + 1, answer);
    }
  }

  lemma {:induction false} VisitedPrefix(
    services: Services, serviceType: string, deployments: seq<Deployment>, nodesets: seq<NodeSet>, i: nat,
    answer: Answer)
    requires i <= |deployments| && Decides(services, serviceType, Visited(deployments[..i], nodesets), answer)
    ensures Decides(services, serviceType, Visited(deployments, nodesets), answer)
    decreases |deployments| - i
  {
    if i < |deployments| {
      VisitedStep(deployments, nodesets, i);
      DecidesLonger(services, serviceType, Visited(deployments[..i], nodesets),
          OfDeployment(deployments[i], nodesets), answer);
      VisitedPrefix(services, serviceType, deployments, nodesets, i + 1, answer);
    } else {
      assert deployments[..i] == deployments;
    }
  }

  lemma {:induction false} VisitedStep(deployments: seq<Deployment>, nodesets: seq<NodeSet>, i: nat)
    requires i < |deployments|
    ensures Visited(deployments[..i + 1], nodesets)
      == Visited(deployments[..i], nodesets) + OfDeployment(deployments[i], nodesets)
  {
    assert deployments[..i + 1][..i] == deployments[..i];
  }

  method BuildNodeSetMap(nodesets: seq<NodeSet>) returns (nodesetMap: map<string, NodeSet>)
    ensures MapOf(nodesetMap, nodesets)
  {
    nodesetMap := map[];
    for i := 0 to |nodesets|
      invariant MapOf(nodesetMap, nodesets[..i])
    {
      assert nodesets[..i + 1][..i] == nodesets[..i];
      nodesetMap := nodesetMap[nodesets[i].name := nodesets[i]];
    }
    assert nodesets[..|nodesets|] == nodesets;
  }

  /**
   The whole search. When the deployments cannot be listed it asks for nothing and fails. Otherwise its answer is that
   of the plain search, however the cache fills, and no existing service is fetched twice.
   */
  method IsDeploymentRunning(client: Client, serviceType: string, listed: Option<seq<Deployment>>,
      nodesets: seq<NodeSet>)
    returns (answer: Answer)
    requires client.requests == []
    modifies client
    ensures listed.None? ==> answer == LookupError && client.requests == []
    ensures listed.Some? ==> answer == Decide(client.services, serviceType, Visited(listed.value, nodesets))
    ensures forall i, j :: 0 <= i < j < |client.requests| && client.services(client.requests[i]).Found? ==>
      client.requests[i] != client.requests[j]
  {
    if listed.None? {
      return LookupError;
    }
    var deployments := listed.value;
    var nodesetMap := BuildNodeSetMap(nodesets);
    var serviceCache: map<string, string> := map[];
    for i := 0 to |deployments|
      invariant Faithful(client.services, serviceCache) && AskedOnce(client.services, serviceCache, client.requests)
      invariant AllSkipped(client.services, serviceType, Visited(deployments[..i], nodesets))
    {
      VisitedStep(deployments, nodesets, i);
      if deployments[i].deployed {
        continue;
      }
      var decided;
      decided, serviceCache := SearchDeployment(client, serviceType, deployments[i], nodesetMap, nodesets,
          serviceCache);
      if decided.Some? {
        DecidesLater(client.services, serviceType, Visited(deployments[..i], nodesets),
            OfDeployment(deployments[i], nodesets), decided.value);
        VisitedPrefix(client.services, serviceType, deployments, nodesets, i + 1, decided.value);
        assert Visited(deployments, nodesets) + [] == Visited(deployments, nodesets);
        return decided.value;
      }
    }
    assert deployments[..|deployments|] == deployments;
    assert Visited(deployments, nodesets) + [] == Visited(deployments, nodesets);
    SkippedPrefix(client.services, serviceType, Visited(deployments, nodesets), []);
    return Running(false);
  }

  // ---------------------------------------------------------------- the answer, said of the deployments

  /** The nodeset at m is the last one of a name. */
  ghost predicate IsLastNamed(nodesets: seq<NodeSet>, m: int, name: string) {
    0 <= m < |nodesets| && nodesets[m].name == name && forall j :: m < j < |nodesets| ==> nodesets[j].name != name
  }

  /** What a deployment runs on the nodeset at m, which has nodes: its override, or else the services of the nodeset. */
  ghost predicate Runs(d: Deployment, nodesets: seq<NodeSet>, m: int, name: string, list: seq<string>) {
    && IsLastNamed(nodesets, m, name) && nodesets[m].nodes > 0
    && list == (if d.servicesOverride == [] then nodesets[m].services else d.servicesOverride)
  }

  /** The k-th nodeset of a deployment has the service to run. */
  ghost predicate RunsAt(d: Deployment, nodesets: seq<NodeSet>, k: nat, s: string) {
    k < |d.nodeSets| && exists m, list :: Runs(d, nodesets, m, d.nodeSets[k], list) && s in list
  }

  /** The deployment is not done and has the service to run on one of its nodesets. */
  ghost predicate RunBy(d: Deployment, nodesets: seq<NodeSet>, s: string) {
    !d.deployed && exists k: nat :: RunsAt(d, nodesets, k, s)
  }

  lemma {:induction false} FindsTheLast(nodesets: seq<NodeSet>, name: string) returns (m: int)
    ensures FindNodeSet(nodesets, name).Some? ==>
      IsLastNamed(nodesets, m, name) && FindNodeSet(nodesets, name).value == nodesets[m]
    ensures FindNodeSet(nodesets, name).None? ==> forall j :: 0 <= j < |nodesets| ==> nodesets[j].name != name
    decreases |nodesets|
  {
    m := |nodesets| - 1;
    if nodesets != [] && nodesets[m].name != name {
      m := FindsTheLast(nodesets[..m], name);
    }
  }

  lemma {:induction false} ServicesOnIs(d: Deployment, nodesets: seq<NodeSet>, name: string)
    ensures forall m, list :: Runs(d, nodesets, m, name, list) ==> list == ServicesOn(d, nodesets, name)
    ensures ServicesOn(d, nodesets, name) != [] ==>
      exists m :: Runs(d, nodesets, m, name, ServicesOn(d, nodesets, name))
  {
    var last := FindsTheLast(nodesets, name);
    forall m, list | Runs(d, nodesets, m, name, list) ensures m == last && list == ServicesOn(d, nodesets, name) {
    }
    if ServicesOn(d, nodesets, name) != [] {
      assert Runs(d, nodesets, last, name, ServicesOn(d, nodesets, name));
    }
  }

  lemma {:induction false} RunsAtIff(d: Deployment, nodesets: seq<NodeSet>, k: nat, s: string)
    requires k < |d.nodeSets|
    ensures RunsAt(d, nodesets, k, s) <==> s in ServicesOn(d, nodesets, d.nodeSets[k])
  {
    ServicesOnIs(d, nodesets, d.nodeSets[k]);
  }

  lemma {:induction false} OfMembers(d: Deployment, nodesets: seq<NodeSet>, n: nat, s: string)
    requires n <= |d.nodeSets|
    ensures s in Of(d, nodesets, n) <==> exists k :: 0 <= k < n && RunsAt(d, nodesets, k, s)
  {
    if n > 0 {
      OfMembers(d, nodesets, n - 1, s);
      RunsAtIff(d, nodesets, n - 1, s);
    }
  }

  lemma {:induction false} VisitedMembers(deployments: seq<Deployment>, nodesets: seq<NodeSet>, s: string)
    ensures s in Visited(deployments, nodesets) <==> exists d :: d in deployments && RunBy(d, nodesets, s)
    decreases |deployments|
  {
    if deployments != [] {
      var init, last := deployments[..|deployments| - 1], deployments[|deployments| - 1];
      VisitedMembers(init, nodesets, s);
      RunByOne(last, nodesets, s);
      assert deployments == init + [last];
    }
  }

  lemma {:induction false} RunByOne(d: Deployment, nodesets: seq<NodeSet>, s: string)
    ensures s in OfDeployment(d, nodesets) <==> RunBy(d, nodesets, s)
  {
    OfMembers(d, nodesets, |d.nodeSets|, s);
    if RunBy(d, nodesets, s) {
      var k: nat :| RunsAt(d, nodesets, k, s);
      assert 0 <= k < |d.nodeSets|;
    }
  }

  lemma {:induction false} DecideFindsTheType(services: Services, serviceType: string, visited: seq<string>)
    requires forall s :: s in visited ==> !services(s).Failed?
    ensures Decide(services, serviceType, visited)
      == Running(exists s :: s in visited && services(s) == Found(serviceType))
    decreases |visited|
  {
    if visited != [] {
      var first, rest := visited[0], visited[1..];
      DecideFindsTheType(services, serviceType, rest);
      assert forall s :: s in visited <==> s == first || s in rest;
      assert first in visited;
    }
  }

  /**
   When no lookup fails otherwise than by not-found, the answer is true exactly when some unfinished deployment has
   a known, non-empty nodeset whose services, or the override of the deployment, include an existing one of the type.
   */
  lemma {:induction false} SearchAgreesWithPlain(services: Services, serviceType: string,
      deployments: seq<Deployment>, nodesets: seq<NodeSet>)
    requires forall d, s :: d in deployments && RunBy(d, nodesets, s) ==> !services(s).Failed?
    ensures Decide(services, serviceType, Visited(deployments, nodesets)) == Running(
      exists d, s :: d in deployments && RunBy(d, nodesets, s) && services(s) == Found(serviceType))
  {
    forall s ensures s in Visited(deployments, nodesets) <==> exists d :: d in deployments && RunBy(d, nodesets, s) {
      VisitedMembers(deployments, nodesets, s);
    }
    DecideFindsTheType(services, serviceType, Visited(deployments, nodesets));
  }

  /** A positive answer is right even when other lookups fail. */
  lemma {:induction false} PositiveIsAlwaysRight(services: Services, serviceType: string, visited: seq<string>)
    requires Decide(services, serviceType, visited) == Running(true)
    ensures exists s :: s in visited && services(s) == Found(serviceType)
    decreases |visited|
  {
    var p := FirstDecides(services, serviceType, visited);
    assert visited[p] in visited;
  }

  /** The first service that is neither missing nor of another type, and what it decides. */
  lemma {:induction false} FirstDecides(services: Services, serviceType: string, visited: seq<string>)
    returns (p: nat)
    ensures p <= |visited| && forall q :: 0 <= q < p ==> IsPassedOver(services, serviceType, visited[q])
    ensures Decide(services, serviceType, visited)
      == if p == |visited| then Running(false)
         else if services(visited[p]) == Failed then LookupError else Running(true)
    ensures p < |visited| ==> services(visited[p]) == Failed || services(visited[p]) == Found(serviceType)
    decreases |visited|
  {
    p := 0;
    if visited != [] && Skipped(services, serviceType, visited[0]) {
      var rest := FirstDecides(services, serviceType, visited[1..]);
      p := rest + 1;
      forall q | 0 <= q < p ensures IsPassedOver(services, serviceType, visited[q]) {
        if q > 0 {
          assert visited[q] == visited[1..][q - 1];
        }
      }
    }
  }

  ghost predicate IsPassedOver(services: Services, serviceType: string, s: string) {
    services(s) == Missing || (services(s).Found? && services(s) != Found(serviceType))
  }

  /** Where in the order of the search a position of the visited services lies. */
  lemma {:induction false} LocateOf(d: Deployment, nodesets: seq<NodeSet>, n: nat, p: nat) returns (k: nat, l: nat)
    requires n <= |d.nodeSets| && p < |Of(d, nodesets, n)|
    ensures k < n && l < |ServicesOn(d, nodesets, d.nodeSets[k])|
    ensures var on := ServicesOn(d, nodesets, d.nodeSets[k]);
      Of(d, nodesets, n)[p] == on[l] && Of(d, nodesets, n)[..p] == Of(d, nodesets, k) + on[..l]
  {
    var before := Of(d, nodesets, n - 1);
    if p < |before| {
      k, l := LocateOf(d, nodesets, n - 1, p);
      assert Of(d, nodesets, n)[..p] == before[..p];
    } else {
      k, l := n - 1, p - |before|;
    }
  }

  /** Position p of the visited services is service l of the k-th nodeset of the i-th deployment. */
  ghost predicate IsAt(deployments: seq<Deployment>, nodesets: seq<NodeSet>, p: nat, i: nat, k: nat, l: nat)
    requires p < |Visited(deployments, nodesets)|
  {
    && i < |deployments| && !deployments[i].deployed && k < |deployments[i].nodeSets|
    && var on := ServicesOn(deployments[i], nodesets, deployments[i].nodeSets[k]);
       && l < |on| && Visited(deployments, nodesets)[p] == on[l]
       && Visited(deployments, nodesets)[..p]
         == Visited(deployments[..i], nodesets) + Of(deployments[i], nodesets, k) + on[..l]
  }

  lemma {:induction false} IsAtLonger(deployments: seq<Deployment>, nodesets: seq<NodeSet>, p: nat, i: nat, k: nat,
      l: nat)
    requires deployments != []
    requires p < |Visited(deployments[..|deployments| - 1], nodesets)|
    requires IsAt(deployments[..|deployments| - 1], nodesets, p, i, k, l)
    ensures IsAt(deployments, nodesets, p, i, k, l)
  {
    var init := deployments[..|deployments| - 1];
    assert init[..i] == deployments[..i];
    assert Visited(deployments, nodesets)[..p] == Visited(init, nodesets)[..p];
  }

  lemma {:induction false} IsAtLast(deployments: seq<Deployment>, nodesets: seq<NodeSet>, p: nat)
    returns (k: nat, l: nat)
    requires deployments != []
    requires |Visited(deployments[..|deployments| - 1], nodesets)| <= p < |Visited(deployments, nodesets)|
    ensures IsAt(deployments, nodesets, p, |deployments| - 1, k, l)
  {
    var last, before := deployments[|deployments| - 1], Visited(deployments[..|deployments| - 1], nodesets);
    k, l := LocateOf(last, nodesets, |last.nodeSets|, p - |before|);
    assert Visited(deployments, nodesets)[..p] == before + OfDeployment(last, nodesets)[..p - |before|];
  }

  lemma {:induction false} Locate(deployments: seq<Deployment>, nodesets: seq<NodeSet>, p: nat)
    returns (i: nat, k: nat, l: nat)
    requires p < |Visited(deployments, nodesets)|
    ensures IsAt(deployments, nodesets, p, i, k, l)
    decreases |deployments|
  {
    var init := deployments[..|deployments| - 1];
    if p < |Visited(init, nodesets)| {
      i, k, l := Locate(init, nodesets, p);
      IsAtLonger(deployments, nodesets, p, i, k, l);
    } else {
      i := |init|;
      k, l := IsAtLast(deployments, nodesets, p);
    }
  }

  /** Service l of the k-th nodeset of the i-th deployment, list being what is run there. */
  ghost predicate IsSlot(deployments: seq<Deployment>, nodesets: seq<NodeSet>, i: nat, k: nat, l: nat,
      list: seq<string>) {
    && i < |deployments| && !deployments[i].deployed && k < |deployments[i].nodeSets| && l < |list|
    && exists m :: Runs(deployments[i], nodesets, m, deployments[i].nodeSets[k], list)
  }

  /** A service that the search meets before slot (i, k, l). */
  ghost predicate MetBefore(deployments: seq<Deployment>, nodesets: seq<NodeSet>, i: nat, k: nat, l: nat,
      list: seq<string>, s: string)
    requires i < |deployments| && l < |list|
  {
    || (exists d :: d in deployments[..i] && RunBy(d, nodesets, s))
    || (exists j :: 0 <= j < k && RunsAt(deployments[i], nodesets, j, s))
    || s in list[..l]
  }

  /**
   What the search answers, whatever fails: the first service met that is neither missing nor of another type decides, a
   failed lookup with an error; and the answer is no exactly when there is none.
   */
  lemma {:induction false} FirstMetDecides(services: Services, serviceType: string, deployments: seq<Deployment>,
      nodesets: seq<NodeSet>) returns (i: nat, k: nat, l: nat, list: seq<string>)
    ensures var answer := Decide(services, serviceType, Visited(deployments, nodesets));
      if answer == Running(false) then
        forall d, s :: d in deployments && RunBy(d, nodesets, s) ==> IsPassedOver(services, serviceType, s)
      else (
        && IsSlot(deployments, nodesets, i, k, l, list)
        && services(list[l]) == (if answer == LookupError then Failed else Found(serviceType))
        && forall s :: MetBefore(deployments, nodesets, i, k, l, list, s) ==> IsPassedOver(services, serviceType, s))
  {
    var visited := Visited(deployments, nodesets);
    var p := FirstDecides(services, serviceType, visited);
    if p == |visited| {
      i, k, l, list := 0, 0, 0, [];
      forall d, s | d in deployments && RunBy(d, nodesets, s) ensures IsPassedOver(services, serviceType, s) {
        VisitedMembers(deployments, nodesets, s);
      }
    } else {
      i, k, l := Locate(deployments, nodesets, p);
      list := ServicesOn(deployments[i], nodesets, deployments[i].nodeSets[k]);
      ServicesOnIs(deployments[i], nodesets, deployments[i].nodeSets[k]);
      forall s | MetBefore(deployments, nodesets, i, k, l, list, s) ensures IsPassedOver(services, serviceType, s) {
        VisitedMembers(deployments[..i], nodesets, s);
        OfMembers(deployments[i], nodesets, k, s);
        assert s in visited[..p];
      }
    }
  }
}
