/**
 Publishing the certificate secrets of a service, one change a pass, and mounting them through the label of the
 first one.
 */
module CertPublication {
  import opened Wrappers
  import opened StringOrder
  import opened Decimal
  import opened CertPacking
  import opened CertGrouping

  // ---------------------------------------------------------------- names

  const MAX_NAME_LENGTH: nat := 253

  /** The hash keeps different names apart and prints in hexadecimal, so without a dash. */
  ghost predicate HexHash(hash: string -> string) {
    && (forall a, b :: hash(a) == hash(b) ==> a == b)
    && (forall a :: '-' !in hash(a))
  }

  /** Which certificates: of a nodeset, a service and one of its certificate keys. */
  datatype Owner = Owner(nodeSet: string, service: string, certKey: string)

  function PlainName(o: Owner, index: nat): string {
    o.nodeSet + "-" + o.service + "-" + o.certKey + "-certs-" + Itoa(index)
  }

  function SecretName(hash: string -> string, o: Owner, index: nat): string {
    var name := PlainName(o, index);
    if |name| > MAX_NAME_LENGTH then "cert-" + hash(name) else name
  }

  lemma {:induction false} PlainNamesDiffer(o: Owner, i: nat, j: nat)
    requires PlainName(o, i) == PlainName(o, j)
    ensures i == j
  {
    var p := o.nodeSet + "-" + o.service + "-" + o.certKey + "-certs-";
    assert PlainName(o, i)[|p|..] == Itoa(i) && PlainName(o, j)[|p|..] == Itoa(j);
    ItoaIsInjective(i, j);
  }

  /** A hashed name has one dash, a plain one has more. */
  lemma {:induction false} HashedIsNotPlain(hash: string -> string, o: Owner, x: string, index: nat)
    requires HexHash(hash)
    ensures "cert-" + hash(x) != PlainName(o, index)
  {
    var hashed, plain := "cert-" + hash(x), PlainName(o, index);
    forall k | 4 < k < |hashed| ensures hashed[k] != '-' {
      assert hashed[k] == hash(x)[k - 5];
      assert hash(x)[k - 5] in hash(x);
    }
    assert forall k :: 0 <= k < 4 ==> hashed[k] == "cert"[k];
    var first, second := |o.nodeSet|, |o.nodeSet| + 1 + |o.service|;
    assert plain[first] == '-' && plain[second] == '-';
  }

  /** The secrets of one owner have different names, hashed or not. */
  lemma {:induction false} NamesDiffer(hash: string -> string, o: Owner, i: nat, j: nat)
    requires HexHash(hash) && SecretName(hash, o, i) == SecretName(hash, o, j)
    ensures i == j
  {
    var a, b := PlainName(o, i), PlainName(o, j);
    HashedIsNotPlain(hash, o, a, j);
    HashedIsNotPlain(hash, o, b, i);
    if |a| > MAX_NAME_LENGTH && |b| > MAX_NAME_LENGTH {
      assert ("cert-" + hash(a))[5..] == hash(a) && ("cert-" + hash(b))[5..] == hash(b);
    }
    PlainNamesDiffer(o, i, j);
  }

  /** What a name looks like, and that it fits, with a hash of 56 digits. */
  lemma {:induction false} NamesFit(hash: string -> string, o: Owner, index: nat)
    requires forall a :: |hash(a)| == 56
    ensures |SecretName(hash, o, index)| <= 253
    ensures SecretName(hash, Owner("openstack-epdm", "nova", "default"), 0) == "openstack-epdm-nova-default-certs-0"
  {
    assert Itoa(0) == "0";
    assert PlainName(Owner("openstack-epdm", "nova", "default"), 0) == "openstack-epdm-nova-default-certs-0";
  }

  // ---------------------------------------------------------------- one pass of the publisher

  datatype Stored = Stored(numberOfSecrets: string, secretNumber: string, data: CertsData)

  type Cluster = map<string, Stored>

  function Desired(secrets: seq<CertsData>, i: nat): Stored
    requires i < |secrets|
  {
    Stored(Itoa(|secrets|), Itoa(i), secrets[i])
  }

  predicate UpToDate(hash: string -> string, o: Owner, cluster: Cluster, secrets: seq<CertsData>, i: nat)
    requires i < |secrets|
  {
    SecretName(hash, o, i) in cluster && cluster[SecretName(hash, o, i)] == Desired(secrets, i)
  }

  datatype Outcome = Err | Requeue | Done

  datatype Published = Published(cluster: Cluster, outcome: Outcome)

  /** The publishing loop from its i-th secret on; fails(i) tells whether the i-th request is refused. */
  function PublishFrom(hash: string -> string, o: Owner, cluster: Cluster, secrets: seq<CertsData>,
      fails: nat -> bool, i: nat): Published
    requires i <= |secrets|
    decreases |secrets| - i
  {
    if i == |secrets| then Published(cluster, Done)
    else if fails(i) then Published(cluster, Err)
    else if UpToDate(hash, o, cluster, secrets, i) then PublishFrom(hash, o, cluster, secrets, fails, i + 1)
    else Published(cluster[SecretName(hash, o, i) := Desired(secrets, i)], Requeue)
  }

  function Publish(hash: string -> string, o: Owner, cluster: Cluster, secrets: seq<CertsData>,
      fails: nat -> bool): Published {
    PublishFrom(hash, o, cluster, secrets, fails, 0)
  }

  ghost predicate AllUpToDate(hash: string -> string, o: Owner, cluster: Cluster, secrets: seq<CertsData>) {
    forall i :: 0 <= i < |secrets| ==> UpToDate(hash, o, cluster, secrets, i)
  }

  /** The number of secrets from i on that are missing or differ. */
  function Stale(hash: string -> string, o: Owner, cluster: Cluster, secrets: seq<CertsData>, i: nat): (n: nat)
    requires i <= |secrets|
    ensures n <= |secrets| - i
    decreases |secrets| - i
  {
    if i == |secrets| then 0
    else (if UpToDate(hash, o, cluster, secrets, i) then 0 else 1) + Stale(hash, o, cluster, secrets, i + 1)
  }

  lemma {:induction false} StaleAfterRepair(hash: string -> string, o: Owner, cluster: Cluster,
      secrets: seq<CertsData>, k: nat, i: nat)
    requires HexHash(hash) && k < |secrets| && i <= |secrets| && !UpToDate(hash, o, cluster, secrets, k)
    ensures var repaired := cluster[SecretName(hash, o, k) := Desired(secrets, k)];
      Stale(hash, o, repaired, secrets, i) == Stale(hash, o, cluster, secrets, i) - if i <= k then 1 else 0
    decreases |secrets| - i
  {
    if i < |secrets| {
      StaleAfterRepair(hash, o, cluster, secrets, k, i + 1);
      if SecretName(hash, o, i) == SecretName(hash, o, k) {
        NamesDiffer(hash, o, i, k);
      }
    }
  }

  /** The k-th secret is the first from i on that differs, and it is the only one that changes. */
  ghost predicate RepairsFirst(
    hash: string -> string, o: Owner, cluster: Cluster, secrets: seq<CertsData>, i: nat, k: nat, after: Cluster)
    requires k < |secrets|
  {
    && !UpToDate(hash, o, cluster, secrets, k)
    && after == cluster[SecretName(hash, o, k) := Desired(secrets, k)]
    && (forall j :: i <= j < k ==> UpToDate(hash, o, cluster, secrets, j))
  }

  /** A pass repairs the first secret that differs and requeues, or finds them all in order and is done. */
  lemma {:induction false} PassRepairsFirst(
    hash: string -> string, o: Owner, cluster: Cluster, secrets: seq<CertsData>, fails: nat -> bool, i: nat)
    requires HexHash(hash) && i <= |secrets|
    ensures var r := PublishFrom(hash, o, cluster, secrets, fails, i);
      && (r.outcome.Done? ==>
          r.cluster == cluster && forall k :: i <= k < |secrets| ==> UpToDate(hash, o, cluster, secrets, k))
      && (r.outcome.Err? ==> r.cluster == cluster)
      && (r.outcome.Requeue? ==>
        Stale(hash, o, r.cluster, secrets, i) == Stale(hash, o, cluster, secrets, i) - 1
        && exists k :: i <= k < |secrets| && RepairsFirst(hash, o, cluster, secrets, i, k, r.cluster))
    decreases |secrets| - i
  {
    if i < |secrets| && !fails(i) {
      if UpToDate(hash, o, cluster, secrets, i) {
        PassRepairsFirst(hash, o, cluster, secrets, fails, i + 1);
        var r := PublishFrom(hash, o, cluster, secrets, fails, i);
        if r.outcome.Requeue? {
          var k :| i + 1 <= k < |secrets| && RepairsFirst(hash, o, cluster, secrets, i + 1, k, r.cluster);
          StaleAfterRepair(hash, o, cluster, secrets, k, i);
          assert RepairsFirst(hash, o, cluster, secrets, i, k, r.cluster);
        }
      } else {
        StaleAfterRepair(hash, o, cluster, secrets, i, i);
        assert RepairsFirst(hash, o, cluster, secrets, i, i, PublishFrom(hash, o, cluster, secrets, fails, i).cluster);
      }
    }
  }

  lemma {:induction false} DoneIffNothingStale(
    hash: string -> string, o: Owner, cluster: Cluster, secrets: seq<CertsData>, fails: nat -> bool, i: nat)
    requires i <= |secrets| && forall k: nat :: !fails(k)
    ensures PublishFrom(hash, o, cluster, secrets, fails, i).outcome
      == if Stale(hash, o, cluster, secrets, i) == 0 then Done else Requeue
    decreases |secrets| - i
  {
    if i < |secrets| && UpToDate(hash, o, cluster, secrets, i) {
      DoneIffNothingStale(hash, o, cluster, secrets, fails, i + 1);
    }
  }

  /** The cluster after n passes without errors. */
  function AfterPasses(hash: string -> string, o: Owner, cluster: Cluster, secrets: seq<CertsData>,
      fails: nat -> bool, n: nat): Cluster {
    if n == 0 then cluster
    else Publish(hash, o, AfterPasses(hash, o, cluster, secrets, fails, n - 1), secrets, fails).cluster
  }

  lemma {:induction false} StaleAfterPasses(
    hash: string -> string, o: Owner, cluster: Cluster, secrets: seq<CertsData>, fails: nat -> bool, n: nat)
    requires HexHash(hash) && forall k: nat :: !fails(k)
    ensures var stale := Stale(hash, o, cluster, secrets, 0);
      Stale(hash, o, AfterPasses(hash, o, cluster, secrets, fails, n), secrets, 0)
        == if n <= stale then stale - n else 0
  {
    if n > 0 {
      StaleAfterPasses(hash, o, cluster, secrets, fails, n - 1);
      var before := AfterPasses(hash, o, cluster, secrets, fails, n - 1);
      DoneIffNothingStale(hash, o, before, secrets, fails, 0);
      PassRepairsFirst(hash, o, before, secrets, fails, 0);
    }
  }

  /**
   Convergence with unchanged certificates: exactly as many passes requeue as secrets were missing or different,
   at most all of them, and every later pass is done with everything in order.
   */
  lemma {:induction false} PublicationConverges(
    hash: string -> string, o: Owner, cluster: Cluster, secrets: seq<CertsData>, fails: nat -> bool, n: nat)
    requires HexHash(hash) && forall k: nat :: !fails(k)
    ensures var stale := Stale(hash, o, cluster, secrets, 0);
      var reached := AfterPasses(hash, o, cluster, secrets, fails, n);
      && stale <= |secrets|
      && Publish(hash, o, reached, secrets, fails).outcome == (if n < stale then Requeue else Done)
      && (n >= stale ==> AllUpToDate(hash, o, reached, secrets))
  {
    StaleAfterPasses(hash, o, cluster, secrets, fails, n);
    var reached := AfterPasses(hash, o, cluster, secrets, fails, n);
    DoneIffNothingStale(hash, o, reached, secrets, fails, 0);
    PassRepairsFirst(hash, o, reached, secrets, fails, 0);
  }

  // ---------------------------------------------------------------- the reader

  /** The names from i up to n, unless one of them is missing. */
  function SourcesFrom(hash: string -> string, o: Owner, cluster: Cluster, i: nat, n: nat): Option<seq<string>>
    decreases n - i
  {
    if i >= n then Some([])
    else if SecretName(hash, o, i) !in cluster then None
    else Prepend([SecretName(hash, o, i)], SourcesFrom(hash, o, cluster, i + 1, n))
  }

  function Prepend(names: seq<string>, rest: Option<seq<string>>): Option<seq<string>> {
    if rest.None? then None else Some(names + rest.value)
  }

  lemma {:induction false} PrependOne(names: seq<string>, name: string, rest: Option<seq<string>>)
    ensures Prepend(names, Prepend([name], rest)) == Prepend(names + [name], rest)
  {
    if rest.Some? {
      assert names + ([name] + rest.value) == names + [name] + rest.value;
    }
  }

  /** The projected sources of a certificate volume. */
  function Sources(hash: string -> string, o: Owner, cluster: Cluster): Option<seq<string>> {
    var first := SecretName(hash, o, 0);
    if first !in cluster then None else SourcesFrom(hash, o, cluster, 0, Atoi(cluster[first].numberOfSecrets))
  }

  /** Every source is labelled with its number and with how many there are. */
  ghost predicate Labelled(cluster: Cluster, sources: seq<string>) {
    forall i :: 0 <= i < |sources| ==>
      && sources[i] in cluster
      && cluster[sources[i]].secretNumber == Itoa(i) && cluster[sources[i]].numberOfSecrets == Itoa(|sources|)
  }

  /** The volume shows exactly the data, every file from one source. */
  ghost predicate Shows(cluster: Cluster, sources: seq<string>, data: CertsData) {
    && (forall i :: 0 <= i < |sources| ==> sources[i] in cluster)
    && (forall i, k :: 0 <= i < |sources| && k in cluster[sources[i]].data ==>
        k in data && cluster[sources[i]].data[k] == data[k])
    && (forall k :: k in data ==> exists i :: 0 <= i < |sources| && k in cluster[sources[i]].data)
    && (forall i, j :: 0 <= i < j < |sources| ==> cluster[sources[i]].data.Keys !! cluster[sources[j]].data.Keys)
  }

  lemma {:induction false} SourcesOfPublished(hash: string -> string, o: Owner, cluster: Cluster,
      secrets: seq<CertsData>, i: nat)
    requires AllUpToDate(hash, o, cluster, secrets) && i <= |secrets|
    ensures var s := SourcesFrom(hash, o, cluster, i, |secrets|);
      && s.Some? && |s.value| == |secrets| - i
      && forall k :: 0 <= k < |s.value| ==> s.value[k] == SecretName(hash, o, i + k)
    decreases |secrets| - i
  {
    if i < |secrets| {
      assert UpToDate(hash, o, cluster, secrets, i);
      SourcesOfPublished(hash, o, cluster, secrets, i + 1);
    }
  }

  /**
   After a pass that is done, the volume built from the label of the first secret shows exactly the data that was
   packed, whatever other secrets, such as higher-numbered older ones, are still in the cluster.
   */
  lemma {:induction false} ReaderSeesEverything(
    hash: string -> string, o: Owner, cluster: Cluster, max: int, data: CertsData, keys: seq<string>,
    fails: nat -> bool)
    requires HexHash(hash) && AscendingListing(keys, data.Keys) && |keys| % 3 == 0 && data != map[]
    requires Publish(hash, o, cluster, PackKeys(max, data, keys).secrets, fails).outcome.Done?
    ensures Sources(hash, o, cluster).Some? && Shows(cluster, Sources(hash, o, cluster).value, data)
    ensures Labelled(cluster, Sources(hash, o, cluster).value)
  {
    var secrets := PackKeys(max, data, keys).secrets;
    PackingPartitions(max, data, keys);
    PassRepairsFirst(hash, o, cluster, secrets, fails, 0);
    assert secrets != [] by {
      var k :| k in data;
      assert k in keys;
    }
    SourcesAreTheSecrets(hash, o, cluster, secrets);
    ShowsPartition(cluster, Sources(hash, o, cluster).value, data, keys, secrets);
  }

  lemma {:induction false} SourcesAreTheSecrets(hash: string -> string, o: Owner, cluster: Cluster,
      secrets: seq<CertsData>)
    requires AllUpToDate(hash, o, cluster, secrets) && secrets != []
    ensures var s := Sources(hash, o, cluster);
      && s.Some? && |s.value| == |secrets|
      && Labelled(cluster, s.value)
      && forall i :: 0 <= i < |secrets| ==> s.value[i] in cluster && cluster[s.value[i]].data == secrets[i]
  {
    assert UpToDate(hash, o, cluster, secrets, 0);
    AtoiOfItoa(|secrets|);
    SourcesOfPublished(hash, o, cluster, secrets, 0);
    var sources := Sources(hash, o, cluster).value;
    forall i | 0 <= i < |secrets| ensures sources[i] in cluster && cluster[sources[i]] == Desired(secrets, i) {
      assert sources[i] == SecretName(hash, o, 0 + i) && UpToDate(hash, o, cluster, secrets, i);
    }
  }

  lemma {:induction false} ShowsPartition(cluster: Cluster, sources: seq<string>, data: CertsData, keys: seq<string>,
      secrets: seq<CertsData>)
    requires Partition(data, keys, secrets) && |sources| == |secrets| && forall k :: k in data ==> k in keys
    requires forall i :: 0 <= i < |sources| ==> sources[i] in cluster && cluster[sources[i]].data == secrets[i]
    ensures Shows(cluster, sources, data)
  {
    forall k | k in data ensures exists i :: 0 <= i < |sources| && k in cluster[sources[i]].data {
      var i :| 0 <= i < |secrets| && k in secrets[i];
      assert k in cluster[sources[i]].data;
    }
  }

  // ---------------------------------------------------------------- when the reader is right

  /** If there is a first secret, its label counts it and it holds data. */
  ghost predicate FirstHoldsData(hash: string -> string, o: Owner, cluster: Cluster) {
    SecretName(hash, o, 0) in cluster ==>
      var first := cluster[SecretName(hash, o, 0)];
      Atoi(first.numberOfSecrets) >= 1 && first.data != map[]
  }

  lemma {:induction false} PackedSecretsHoldData(max: int, data: CertsData, keys: seq<string>)
    requires AscendingListing(keys, data.Keys) && |keys| % 3 == 0
    ensures forall i :: 0 <= i < |PackKeys(max, data, keys).secrets| ==> PackKeys(max, data, keys).secrets[i] != map[]
  {
    var n := |keys| / 3;
    var bins := NextFit(max, data, Triples(keys, n)).bins;
    NextFitIsGood(max, data, Triples(keys, n));
    TriplesHoldKeys(keys, n);
    forall i | 0 <= i < |bins|
      ensures Contents(data, bins[i]) != map[]
    {
      var k := bins[i][|bins[i]| - 1].ca;
      BinKeysWithin(bins, i);
      assert k in keys[..3 * n] && k in keys;
      assert k in Contents(data, bins[i]);
    }
  }

  /** Publishing, also when it stops half-way, never leaves a first secret that is empty or not counted. */
  lemma {:induction false} PublishKeepsFirst(hash: string -> string, o: Owner, cluster: Cluster,
      secrets: seq<CertsData>,
      fails: nat -> bool)
    requires HexHash(hash) && FirstHoldsData(hash, o, cluster)
    requires forall i :: 0 <= i < |secrets| ==> secrets[i] != map[]
    ensures FirstHoldsData(hash, o, Publish(hash, o, cluster, secrets, fails).cluster)
  {
    PassRepairsFirst(hash, o, cluster, secrets, fails, 0);
    var r := Publish(hash, o, cluster, secrets, fails);
    if r.outcome.Requeue? {
      var k :| 0 <= k < |secrets| && RepairsFirst(hash, o, cluster, secrets, 0, k, r.cluster);
      AtoiOfItoa(|secrets|);
      if k != 0 && SecretName(hash, o, k) == SecretName(hash, o, 0) {
        NamesDiffer(hash, o, k, 0);
      }
    }
  }

  /** A publishing pass over the certificates of the moment. */
  datatype PublishPass = PublishPass(max: int, data: CertsData, keys: seq<string>, fails: nat -> bool)

  ghost predicate ThreeByThree(p: PublishPass) {
    AscendingListing(p.keys, p.data.Keys) && |p.keys| % 3 == 0
  }

  /** Passes over changing certificates, from a cluster without the first secret; clusters[i] is before the i-th. */
  ghost predicate IsPublishRun(hash: string -> string, o: Owner, clusters: seq<Cluster>, passes: seq<PublishPass>) {
    && |clusters| == |passes| + 1
    && SecretName(hash, o, 0) !in clusters[0]
    && (forall i :: 0 <= i < |passes| ==> ThreeByThree(passes[i]))
    && forall i, j :: 0 <= i < |passes| && j == i + 1 ==>
         clusters[j] == Publish(hash, o, clusters[i], PackKeys(passes[i].max, passes[i].data, passes[i].keys).secrets,
             passes[i].fails).cluster
  }

  lemma {:induction false} RunKeepsFirst(hash: string -> string, o: Owner, clusters: seq<Cluster>,
      passes: seq<PublishPass>,
      n: nat)
    requires HexHash(hash) && IsPublishRun(hash, o, clusters, passes) && n <= |passes|
    ensures FirstHoldsData(hash, o, clusters[n])
  {
    if n > 0 {
      var p := passes[n - 1];
      RunKeepsFirst(hash, o, clusters, passes, n - 1);
      assert ThreeByThree(p);
      PackedSecretsHoldData(p.max, p.data, p.keys);
      PublishKeepsFirst(hash, o, clusters[n - 1], PackKeys(p.max, p.data, p.keys).secrets, p.fails);
    }
  }

  /** The reader gets a volume that shows exactly the data. */
  ghost predicate ReaderIsRight(hash: string -> string, o: Owner, cluster: Cluster, data: CertsData) {
    Sources(hash, o, cluster).Some? && Shows(cluster, Sources(hash, o, cluster).value, data)
  }

  /** A first secret that is there is mounted, and so the volume is never the empty one. */
  lemma {:induction false} NeverShowsNothing(hash: string -> string, o: Owner, cluster: Cluster)
    requires FirstHoldsData(hash, o, cluster)
    ensures !ReaderIsRight(hash, o, cluster, map[])
    ensures SecretName(hash, o, 0) !in cluster ==> Sources(hash, o, cluster).None?
  {
    var first := SecretName(hash, o, 0);
    if first in cluster && Sources(hash, o, cluster).Some? {
      var sources := Sources(hash, o, cluster).value;
      assert sources[0] == first;
      var k :| k in cluster[first].data;
      assert k in cluster[sources[0]].data;
    }
  }

  /** Exactly when the reader is right after a pass that is done: when there are certificates. */
  lemma {:induction false} ReaderIsRightIffData(
    hash: string -> string, o: Owner, cluster: Cluster, max: int, data: CertsData, keys: seq<string>,
    fails: nat -> bool)
    requires HexHash(hash) && AscendingListing(keys, data.Keys) && |keys| % 3 == 0 && FirstHoldsData(hash, o, cluster)
    requires Publish(hash, o, cluster, PackKeys(max, data, keys).secrets, fails).outcome.Done?
    ensures ReaderIsRight(hash, o, cluster, data) <==> data != map[]
  {
    if data == map[] {
      NeverShowsNothing(hash, o, cluster);
    } else {
      ReaderSeesEverything(hash, o, cluster, max, data, keys, fails);
    }
  }

  /** The same in every run. Without certificates the reader fails if nothing was ever published, and else shows the
      certificates that an earlier pass left, or fails on the way. */
  lemma {:induction false} RunReaderIsRightIffData(hash: string -> string, o: Owner, clusters: seq<Cluster>,
      passes: seq<PublishPass>, n: nat)
    requires HexHash(hash) && IsPublishRun(hash, o, clusters, passes) && n < |passes|
    requires var p := passes[n];
      Publish(hash, o, clusters[n], PackKeys(p.max, p.data, p.keys).secrets, p.fails).outcome.Done?
    ensures ReaderIsRight(hash, o, clusters[n], passes[n].data) <==> passes[n].data != map[]
    ensures SecretName(hash, o, 0) !in clusters[n] ==> Sources(hash, o, clusters[n]).None?
  {
    var p := passes[n];
    RunKeepsFirst(hash, o, clusters, passes, n);
    assert ThreeByThree(p);
    ReaderIsRightIffData(hash, o, clusters[n], p.max, p.data, p.keys, p.fails);
  }

  /** Without nodes nothing is published, and the reader still mounts what an earlier nodeset left behind. */
  lemma {:induction false} EmptyNodesetLeavesStaleCertificates(hash: string -> string, o: Owner,
      fails: nat -> bool) returns (cluster: Cluster)
    ensures Publish(hash, o, cluster, [], fails) == Published(cluster, Done)
    ensures Sources(hash, o, cluster) == Some([SecretName(hash, o, 0)])
    ensures !Shows(cluster, [SecretName(hash, o, 0)], map[])
  {
    var name := SecretName(hash, o, 0);
    cluster := map[name := Stored(Itoa(1), Itoa(0), map["old-tls.key" := "x"])];
    AtoiOfItoa(1);
    assert SourcesFrom(hash, o, cluster, 1, 1) == Some([]);
    assert [name] + [] == [name];
    assert SourcesFrom(hash, o, cluster, 0, 1) == Some([name]);
    assert "old-tls.key" in cluster[[name][0]].data;
  }

  // ---------------------------------------------------------------- EnsureTLSCerts

  datatype CertSecret = CertSecret(ca: string, crt: string, key: string)

  /** A node: its control plane name, if it has one, and its certificate; Missing means try again later. */
  datatype Node = Node(baseName: Option<string>, cert: Fetch<CertSecret>)

  function AddNode(data: CertsData, b: string, cert: CertSecret): CertsData {
    data[b + KEY_SUFFIX := cert.key][b + CRT_SUFFIX := cert.crt][b + CA_SUFFIX := cert.ca]
  }

  predicate Issued(node: Node) {
    node.baseName.Some? && node.cert.Found?
  }

  /** The data of the nodes, in the order in which they are ranged over. */
  function Collect(nodes: seq<Node>): CertsData
    requires forall i :: 0 <= i < |nodes| ==> Issued(nodes[i])
  {
    if nodes == [] then map[]
    else
      var last := nodes[|nodes| - 1];
      assert Issued(last);
      AddNode(Collect(nodes[..|nodes| - 1]), last.baseName.value, last.cert.value)
  }

  ghost function Bases(nodes: seq<Node>): set<string> {
    set node | node in nodes && node.baseName.Some? :: node.baseName.value
  }

  lemma {:induction false} CollectHoldsBlocks(nodes: seq<Node>)
    requires forall i :: 0 <= i < |nodes| ==> Issued(nodes[i])
    ensures Collect(nodes).Keys == CertKeys(Bases(nodes))
    decreases |nodes|
  {
    if nodes == [] {
      assert CertKeys(Bases([])) == {};
    } else {
      var init, last := nodes[..|nodes| - 1], nodes[|nodes| - 1];
      CollectHoldsBlocks(init);
      assert nodes == init + [last];
      assert Bases(nodes) == Bases(init) + {last.baseName.value};
      assert CertKeys(Bases(nodes)) == CertKeys(Bases(init)) + BlockKeys(last.baseName.value);
    }
  }

  lemma {:induction false} CertKeysInThrees(bases: set<string>)
    ensures |CertKeys(bases)| == 3 * |bases|
    decreases |bases|
  {
    if bases != {} {
      var b :| b in bases;
      CertKeysInThrees(bases - {b});
      CertKeysSplit(bases, b);
      assert CertKeys(bases - {b}) !! BlockKeys(b) by {
        forall k | k in CertKeys(bases - {b}) ensures k !in BlockKeys(b) {
          var c :| c in bases - {b} && k in BlockKeys(c);
          if k in BlockKeys(b) {
            KeyHasOneBase(b, c, k);
          }
        }
      }
      ThreeKeys(b);
    } else {
      assert CertKeys(bases) == {};
    }
  }

  lemma {:induction false} ThreeKeysDiffer(b: string)
    ensures b + CA_SUFFIX != b + CRT_SUFFIX && b + CRT_SUFFIX != b + KEY_SUFFIX && b + CA_SUFFIX != b + KEY_SUFFIX
  {
    BlockAscends(b);
    LessIrreflexive(b + CA_SUFFIX);
    LessIrreflexive(b + CRT_SUFFIX);
  }

  lemma {:induction false} ThreeKeys(b: string)
    ensures |BlockKeys(b)| == 3
  {
    ThreeKeysDiffer(b);
  }

  lemma {:induction false} BlocksInThrees(bases: set<string>, keys: seq<string>)
    requires AscendingListing(keys, CertKeys(bases))
    ensures |keys| == 3 * |bases|
  {
    CertKeysInThrees(bases);
    ListingLength(keys, CertKeys(bases));
  }

  lemma {:induction false} AllKeysPacked(keys: seq<string>, n: nat)
    requires |keys| == 3 * n
    ensures |keys| % 3 == 0 && PackedKeys(keys) == keys
  {
  }

  /** The keys of a nodeset come in threes, so packing them never panics and drops none. */
  lemma {:induction false} NodesetKeysInThrees(nodes: seq<Node>, keys: seq<string>)
    requires forall i :: 0 <= i < |nodes| ==> Issued(nodes[i])
    requires AscendingListing(keys, Collect(nodes).Keys)
    ensures |keys| == 3 * |Bases(nodes)| && |keys| % 3 == 0 && PackedKeys(keys) == keys
  {
    CollectHoldsBlocks(nodes);
    BlocksInThrees(Bases(nodes), keys);
    AllKeysPacked(keys, |Bases(nodes)|);
  }

  // ---------------------------------------------------------------- what is shown for the nodes

  /** No later node has the control plane name of the i-th one. */
  ghost predicate LastOfName(nodes: seq<Node>, i: int) {
    0 <= i < |nodes| && forall j :: i < j < |nodes| ==> nodes[j].baseName != nodes[i].baseName
  }

  ghost predicate Has(data: CertsData, key: string, value: string) {
    key in data && data[key] == value
  }

  /** The data holds the certificate of a node. */
  ghost predicate HasNode(data: CertsData, node: Node) {
    && node.baseName.Some? && node.cert.Found?
    && var b, cert := node.baseName.value, node.cert.value;
       && Has(data, b + "-ca.crt", cert.ca)
       && Has(data, b + "-tls.crt", cert.crt)
       && Has(data, b + "-tls.key", cert.key)
  }

  ghost predicate KeyOfNode(node: Node, k: string) {
    && node.baseName.Some?
    && (k == node.baseName.value + "-ca.crt" || k == node.baseName.value + "-tls.crt"
      || k == node.baseName.value + "-tls.key")
  }

  /** The data holds the certificates of all nodes, that of the last one for a repeated name, and nothing else. */
  ghost predicate HasExactly(data: CertsData, nodes: seq<Node>) {
    && (forall i :: LastOfName(nodes, i) ==> HasNode(data, nodes[i]))
    && (forall k :: k in data ==> exists node :: node in nodes && KeyOfNode(node, k))
  }

  /** One more node does not touch the keys of a node with another name. */
  lemma {:induction false} AddNodeKeepsOthers(data: CertsData, b: string, cert: CertSecret, other: Node)
    requires HasNode(data, other) && other.baseName.value != b
    ensures HasNode(AddNode(data, b, cert), other)
  {
    var c := other.baseName.value;
    forall k | k in BlockKeys(c) ensures k !in BlockKeys(b) {
      if k in BlockKeys(b) {
        KeyHasOneBase(b, c, k);
      }
    }
    assert c + "-ca.crt" in BlockKeys(c) && c + "-tls.crt" in BlockKeys(c) && c + "-tls.key" in BlockKeys(c);
  }

  lemma {:induction false} AddNodeHasNode(data: CertsData, node: Node)
    requires Issued(node)
    ensures HasNode(AddNode(data, node.baseName.value, node.cert.value), node)
  {
    ThreeKeysDiffer(node.baseName.value);
  }

  /** Keys that one more node adds are its own. */
  lemma {:induction false} AddNodeAddsItsKeys(data: CertsData, node: Node, k: string)
    requires Issued(node) && k in AddNode(data, node.baseName.value, node.cert.value)
    ensures k in data || KeyOfNode(node, k)
  {
  }

  lemma {:induction false} OneMoreNode(data: CertsData, init: seq<Node>, last: Node)
    requires HasExactly(data, init) && Issued(last)
    ensures HasExactly(AddNode(data, last.baseName.value, last.cert.value), init + [last])
  {
    var nodes, more := init + [last], AddNode(data, last.baseName.value, last.cert.value);
    forall i | LastOfName(nodes, i) ensures HasNode(more, nodes[i]) {
      if i < |init| {
        assert forall j :: 0 <= j < |init| ==> nodes[j] == init[j];
        assert LastOfName(init, i) && nodes[|init|].baseName != nodes[i].baseName;
        AddNodeKeepsOthers(data, last.baseName.value, last.cert.value, init[i]);
      } else {
        AddNodeHasNode(data, last);
      }
    }
    forall k | k in more ensures exists node :: node in nodes && KeyOfNode(node, k) {
      AddNodeAddsItsKeys(data, last, k);
      if k in data {
        var node :| node in init && KeyOfNode(node, k);
        assert node in nodes;
      } else {
        assert nodes[|init|] in nodes;
      }
    }
  }

  lemma {:induction false} CollectHasExactly(nodes: seq<Node>)
    requires forall i :: 0 <= i < |nodes| ==> Issued(nodes[i])
    ensures HasExactly(Collect(nodes), nodes)
    decreases |nodes|
  {
    if nodes == [] {
      assert forall i :: !LastOfName(nodes, i);
    } else {
      var init, last := nodes[..|nodes| - 1], nodes[|nodes| - 1];
      assert nodes == init + [last] && Issued(last);
      CollectHasExactly(init);
      OneMoreNode(Collect(init), init, last);
    }
  }

  /** One of the sources holds the key with the value, and no other one holds the key. */
  ghost predicate ShowsFile(cluster: Cluster, sources: seq<string>, key: string, value: string) {
    exists i :: 0 <= i < |sources| && sources[i] in cluster && Has(cluster[sources[i]].data, key, value)
      && forall j :: 0 <= j < |sources| && j != i ==> sources[j] in cluster && key !in cluster[sources[j]].data
  }

  ghost predicate ShowsNode(cluster: Cluster, sources: seq<string>, node: Node) {
    && node.baseName.Some? && node.cert.Found?
    && var b, cert := node.baseName.value, node.cert.value;
       && ShowsFile(cluster, sources, b + "-ca.crt", cert.ca)
       && ShowsFile(cluster, sources, b + "-tls.crt", cert.crt)
       && ShowsFile(cluster, sources, b + "-tls.key", cert.key)
  }

  /** The sources show the certificate of every node, that of the last one for a repeated name, and nothing else. */
  ghost predicate ShowsNodes(cluster: Cluster, sources: seq<string>, nodes: seq<Node>) {
    && (forall i :: LastOfName(nodes, i) ==> ShowsNode(cluster, sources, nodes[i]))
    && (forall i, k :: 0 <= i < |sources| && sources[i] in cluster && k in cluster[sources[i]].data ==>
      exists node :: node in nodes && KeyOfNode(node, k))
  }

  lemma {:induction false} ShowsHasFile(cluster: Cluster, sources: seq<string>, data: CertsData, key: string)
    requires Shows(cluster, sources, data) && key in data
    ensures ShowsFile(cluster, sources, key, data[key])
  {
    var i :| 0 <= i < |sources| && key in cluster[sources[i]].data;
    forall j | 0 <= j < |sources| && j != i ensures key !in cluster[sources[j]].data {
      if j < i {
        assert cluster[sources[j]].data.Keys !! cluster[sources[i]].data.Keys;
      } else {
        assert cluster[sources[i]].data.Keys !! cluster[sources[j]].data.Keys;
      }
    }
    assert Has(cluster[sources[i]].data, key, data[key]);
  }

  lemma {:induction false} ShowsTheNodes(cluster: Cluster, sources: seq<string>, data: CertsData, nodes: seq<Node>)
    requires Shows(cluster, sources, data) && HasExactly(data, nodes)
    ensures ShowsNodes(cluster, sources, nodes)
  {
    forall i | LastOfName(nodes, i) ensures ShowsNode(cluster, sources, nodes[i]) {
      assert HasNode(data, nodes[i]);
      var b := nodes[i].baseName.value;
      ShowsHasFile(cluster, sources, data, b + "-ca.crt");
      ShowsHasFile(cluster, sources, data, b + "-tls.crt");
      ShowsHasFile(cluster, sources, data, b + "-tls.key");
    }
    forall i, k | 0 <= i < |sources| && sources[i] in cluster && k in cluster[sources[i]].data
      ensures exists node :: node in nodes && KeyOfNode(node, k)
    {
      assert k in data;
    }
  }

  /** After a pass over some nodes that is done, the reader's sources show exactly the certificates of the nodes. */
  lemma {:induction false} DonePassShowsNodes(hash: string -> string, o: Owner, cluster: Cluster, nodes: seq<Node>,
      max: int, fails: nat -> bool, keys: seq<string>)
    requires HexHash(hash) && nodes != [] && forall i :: 0 <= i < |nodes| ==> Issued(nodes[i])
    requires AscendingListing(keys, Collect(nodes).Keys) && |keys| % 3 == 0
    requires Publish(hash, o, cluster, PackKeys(max, Collect(nodes), keys).secrets, fails).outcome.Done?
    ensures Sources(hash, o, cluster).Some? && ShowsNodes(cluster, Sources(hash, o, cluster).value, nodes)
    ensures Labelled(cluster, Sources(hash, o, cluster).value)
  {
    CollectHasExactly(nodes);
    assert LastOfName(nodes, |nodes| - 1);
    assert HasNode(Collect(nodes), nodes[|nodes| - 1]);
    ReaderSeesEverything(hash, o, cluster, max, Collect(nodes), keys, fails);
    ShowsTheNodes(cluster, Sources(hash, o, cluster).value, Collect(nodes), nodes);
  }

  class Publisher {
    var cluster: Cluster

    /** One pass for one certificate key of a service; nodes in the order in which they are ranged over. */
    method EnsureTLSCerts(
      hash: string -> string, o: Owner, nodes: seq<Node>, secretMaxSize: int, fails: nat -> bool,
      ghost keys: seq<string>)
      returns (outcome: Outcome)
      requires (forall i :: 0 <= i < |nodes| ==> Issued(nodes[i])) ==> AscendingListing(keys, Collect(nodes).Keys)
      modifies this
      ensures (exists i :: 0 <= i < |nodes| && !Issued(nodes[i])) ==> !outcome.Done? && cluster == old(cluster)
      ensures (forall i :: 0 <= i < |nodes| ==> Issued(nodes[i])) ==>
        var packed := PackKeys(secretMaxSize, Collect(nodes), keys);
        && packed.Packed?
        && Published(cluster, outcome) == Publish(hash, o, old(cluster), packed.secrets, fails)
      ensures forall i :: 0 <= i < |nodes| && !Issued(nodes[i]) && (forall k :: 0 <= k < i ==> Issued(nodes[k])) ==>
        outcome == if nodes[i].baseName == None || nodes[i].cert.Failed? then Err else Requeue
      ensures outcome.Done? && nodes != [] && HexHash(hash) ==>
        && Sources(hash, o, cluster).Some?
        && ShowsNodes(cluster, Sources(hash, o, cluster).value, nodes)
        && Labelled(cluster, Sources(hash, o, cluster).value)
    {
      var certsData: CertsData := map[];
      for i := 0 to |nodes|
        invariant forall k :: 0 <= k < i ==> Issued(nodes[k])
        invariant certsData == Collect(nodes[..i])
      {
        if nodes[i].baseName.None? || nodes[i].cert.Failed? {
          return Err;
        }
        if nodes[i].cert.Missing? {
          return Requeue;
        }
        certsData := AddNode(certsData, nodes[i].baseName.value, nodes[i].cert.value);
        assert nodes[..i + 1][..i] == nodes[..i];
      }
      assert nodes[..|nodes|] == nodes;
      NodesetKeysInThrees(nodes, keys);
      var packed := CreateSecretsDataStructure(secretMaxSize, certsData, keys);
      outcome := PublishSecrets(hash, o, packed.secrets, fails);
      if outcome.Done? && nodes != [] && HexHash(hash) {
        PassRepairsFirst(hash, o, old(cluster), packed.secrets, fails, 0);
        DonePassShowsNodes(hash, o, cluster, nodes, secretMaxSize, fails, keys);
      }
    }

    /** Creates or patches the secrets in order and stops after the first change. */
    method PublishSecrets(hash: string -> string, o: Owner, ci: seq<CertsData>,
        fails: nat -> bool) returns (outcome: Outcome)
      modifies this
      ensures Published(cluster, outcome) == Publish(hash, o, old(cluster), ci, fails)
    {
      for i := 0 to |ci|
        invariant cluster == old(cluster)
        invariant PublishFrom(hash, o, cluster, ci, fails, i) == Publish(hash, o, cluster, ci, fails)
      {
        if fails(i) {
          return Err;
        }
        var name := SecretName(hash, o, i);
        var desired := Stored(Itoa(|ci|), Itoa(i), ci[i]);
        if name !in cluster || cluster[name] != desired {
          cluster := cluster[name := desired];
          return Requeue;
        }
      }
      return Done;
    }

    /** The sources of the certificate volume, or nothing when a secret is missing. */
    method CertSources(hash: string -> string, o: Owner) returns (sources: Option<seq<string>>)
      ensures sources == Sources(hash, o, cluster)
    {
      var first := SecretName(hash, o, 0);
      if first !in cluster {
        return None;
      }
      var numberOfSecrets := Atoi(cluster[first].numberOfSecrets);
      var names: seq<string> := [];
      ghost var all := Sources(hash, o, cluster);
      assert all.Some? ==> [] + all.value == all.value;
      for i := 0 to numberOfSecrets
        invariant all == Prepend(names, SourcesFrom(hash, o, cluster, i, numberOfSecrets))
      {
        var name := SecretName(hash, o, i);
        if name !in cluster {
          return None;
        }
        PrependOne(names, name, SourcesFrom(hash, o, cluster, i + 1, numberOfSecrets));
        names := names + [name];
      }
      assert names + [] == names;
      sources := Some(names);
    }
  }
}
