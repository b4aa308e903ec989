/**
 One pass of the CA reconciliation and whole runs of passes. A pass loads the bundle secret it wrote last time,
 folds every CA source into it and writes it back.
 */
module CaReconcile {
  import opened Wrappers
  import opened PemText
  import opened CaBundle
  import opened StringOrder

  /** The two bundle files of the secret; None when the key is absent. */
  datatype BundleSecret = BundleSecret(full: Option<Pem>, caOnly: Option<Pem>)

  datatype CaInput = CaInput(name: string, pem: Fetch<Pem>)

  datatype UserSecret = NotConfigured | Unreadable | Provided(data: map<string, Option<Pem>>)

  /** What the environment answers during one pass. */
  datatype Inputs = Inputs(
    secretReadable: bool,
    ingress: CaInput, internalCa: CaInput, libvirt: CaInput, ovn: CaInput,
    user: UserSecret,
    mirrors: Fetch<map<string, Pem>>,
    operatorBundle: Fetch<Pem>)

  datatype CaStatus = CaStatus(name: string, expires: int)

  /** One step of a pass after the bundle secret was loaded, with what the parser meets in its text. */
  datatype Source =
    | Issuer(name: string, read: Scanned)
    | Trusted(read: Scanned)
    | Mirror(read: Scanned)
    | Unavailable

  datatype Bundles = Bundles(full: seq<CaCert>, caOnly: seq<CaCert>, caList: seq<CaStatus>)

  datatype Progress = Progress(bundles: Bundles, ok: bool)

  /** The times at which the certificates of the k-th text that is parsed are looked at. The k-th step parses the
      texts 3k, 3k+1 and 3k+2: its own one, once for each bundle it goes into. */
  type Clock = nat -> Times

  function At(clock: Clock, text: nat, i: nat): int {
    clock(text)(i)
  }

  /** The clock runs forward within a pass. */
  ghost predicate Monotone(clock: Clock) {
    forall k: nat, i: nat, l: nat, j: nat {:trigger At(clock, k, i), At(clock, l, j)} ::
      k < l || (k == l && i <= j) ==> At(clock, k, i) <= At(clock, l, j)
  }

  /** A text that is nil is an error before anything is read. */
  function Read(lib: Crypto, text: Option<Pem>): Scanned {
    if text.Some? then Scan(lib, text.value) else Scanned([], false)
  }

  function IssuerSource(lib: Crypto, ca: CaInput): Source {
    if ca.pem.Found? then Issuer(ca.name, Read(lib, Some(ca.pem.value))) else Unavailable
  }

  function UserSources(lib: Crypto, user: UserSecret, order: seq<string>): seq<Source>
    requires user.Provided? ==> Enumerates(order, user.data.Keys)
  {
    match user
    case NotConfigured => []
    case Unreadable => [Unavailable]
    case Provided(data) => seq(|order|, i requires 0 <= i < |order| => assert order[i] in order; Trusted(Read(lib,
        data[order[i]])))
  }

  /** hosts: the mirror registries in ascending order. */
  function MirrorSources(lib: Crypto, mirrors: Fetch<map<string, Pem>>, hosts: seq<string>): seq<Source>
    requires mirrors.Found? ==> forall h :: h in hosts ==> h in mirrors.value
  {
    if !mirrors.Found? then [Unavailable]
    else seq(|hosts|, i requires 0 <= i < |hosts| => assert hosts[i] in hosts; Mirror(Read(lib,
        Some(mirrors.value[hosts[i]]))))
  }

  ghost function Hosts(mirrors: Fetch<map<string, Pem>>): (hosts: seq<string>)
    ensures mirrors.Found? ==> AscendingListing(hosts, mirrors.value.Keys)
  {
    if mirrors.Found? then SortedKeys(mirrors.value.Keys) else []
  }

  function OperatorSource(lib: Crypto, pem: Fetch<Pem>): Source {
    if pem.Found? then Trusted(Read(lib, Some(pem.value))) else Unavailable
  }

  /** order: the order in which the user's secret happens to be ranged over. */
  ghost predicate ValidOrder(inp: Inputs, order: seq<string>) {
    inp.user.Provided? ==> Enumerates(order, inp.user.data.Keys)
  }

  function IssuerSources(lib: Crypto, inp: Inputs): seq<Source> {
    [IssuerSource(lib, inp.ingress), IssuerSource(lib, inp.internalCa), IssuerSource(lib, inp.libvirt),
        IssuerSource(lib, inp.ovn)]
  }

  ghost function Sources(lib: Crypto, inp: Inputs, order: seq<string>): seq<Source>
    requires ValidOrder(inp, order)
  {
    IssuerSources(lib, inp)
    + UserSources(lib, inp.user, order)
    + MirrorSources(lib, inp.mirrors, Hosts(inp.mirrors))
    + [OperatorSource(lib, inp.operatorBundle)]
  }

  /** Where each kind of source stands in the list of a pass. */
  ghost predicate Layout(lib: Crypto, inp: Inputs, users: seq<Source>, mirrors: seq<Source>, sources: seq<Source>) {
    && |sources| == 4 + |users| + |mirrors| + 1
    && sources[0] == IssuerSource(lib, inp.ingress) && sources[1] == IssuerSource(lib, inp.internalCa)
    && sources[2] == IssuerSource(lib, inp.libvirt) && sources[3] == IssuerSource(lib, inp.ovn)
    && sources[4..4 + |users|] == users
    && sources[4 + |users|..4 + |users| + |mirrors|] == mirrors
    && sources[4 + |users| + |mirrors|] == OperatorSource(lib, inp.operatorBundle)
  }

  lemma {:induction false} Parts(a: seq<Source>, b: seq<Source>, c: seq<Source>, last: Source)
    ensures var whole := a + b + c + [last];
      && |whole| == |a| + |b| + |c| + 1
      && whole[..|a|] == a
      && whole[|a|..|a| + |b|] == b
      && whole[|a| + |b|..|a| + |b| + |c|] == c
      && whole[|a| + |b| + |c|] == last
  {
  }

  lemma {:induction false} SourcesLayout(lib: Crypto, inp: Inputs, order: seq<string>)
    requires ValidOrder(inp, order)
    ensures Layout(lib, inp, UserSources(lib, inp.user, order),
      MirrorSources(lib, inp.mirrors, Hosts(inp.mirrors)), Sources(lib, inp, order))
  {
    var issuers, sources := IssuerSources(lib, inp), Sources(lib, inp, order);
    Parts(issuers, UserSources(lib, inp.user, order), MirrorSources(lib, inp.mirrors, Hosts(inp.mirrors)),
      OperatorSource(lib, inp.operatorBundle));
    assert forall i :: 0 <= i < 4 ==> sources[i] == sources[..4][i] == issuers[i];
  }

  /** Folds one source in. A parse error ends the pass, except for a mirror, whose readable part is kept. */
  function Step(lib: Crypto, clock: Clock, k: nat, s: Source, b: Bundles): Progress {
    if s.Unavailable? then Progress(b, false)
    else
      var xs := s.read.certs;
      var full := Absorb(lib, clock(3 * k), b.full, xs);
      if s.Mirror? then Progress(b.(full := full), true)
      else if !s.read.ok || s.Trusted? then Progress(b.(full := full), s.read.ok)
      else
        var caOnly := Absorb(lib, clock(3 * k + 1), b.caOnly, xs);
        var status := Absorb(lib, clock(3 * k + 2), [], xs);
        if status == [] then Progress(b.(full := full, caOnly := caOnly), false)
        else Progress(Bundles(full, caOnly, b.caList + [CaStatus(s.name, status[0].expire)]), true)
  }

  /** Folds the sources in, one after the other; the first that fails ends the pass. */
  function Fold(lib: Crypto, clock: Clock, sources: seq<Source>, b: Bundles): Progress
    decreases |sources|
  {
    if sources == [] then Progress(b, true)
    else
      var p := Fold(lib, clock, sources[..|sources| - 1], b);
      if p.ok then Step(lib, clock, |sources|, sources[|sources| - 1], p.bundles) else p
  }

  function LoadFile(lib: Crypto, times: Times, file: Option<Pem>): seq<CaCert> {
    if file.None? then [] else Absorb(lib, times, [], Scan(lib, file.value).certs)
  }

  function LoadOk(lib: Crypto, readable: bool, secret: Option<BundleSecret>): bool {
    && readable
    && (secret.Some? && secret.value.full.Some? ==> Scan(lib, secret.value.full.value).ok)
    && (secret.Some? && secret.value.caOnly.Some? ==> Scan(lib, secret.value.caOnly.value).ok)
  }

  function Load(lib: Crypto, clock: Clock, secret: Option<BundleSecret>): Bundles {
    if secret.None? then Bundles([], [], [])
    else Bundles(LoadFile(lib, clock(0), secret.value.full), LoadFile(lib, clock(1), secret.value.caOnly), [])
  }

  function Write(b: Bundles): BundleSecret {
    BundleSecret(Some(Print(b.full)), Some(Print(b.caOnly)))
  }

  /** A whole pass up to the write: the bundles it arrives at, and whether it gets there. */
  ghost function Pass(lib: Crypto, clock: Clock, secret: Option<BundleSecret>, inp: Inputs,
      order: seq<string>): Progress
    requires ValidOrder(inp, order)
  {
    if !LoadOk(lib, inp.secretReadable, secret) then Progress(Bundles([], [], []), false)
    else Fold(lib, clock, Sources(lib, inp, order), Load(lib, clock, secret))
  }

  /** The secret after a pass; stored tells whether writing it succeeds. */
  ghost function SecretAfter(
    lib: Crypto, clock: Clock, secret: Option<BundleSecret>, inp: Inputs, order: seq<string>,
    stored: bool): Option<BundleSecret>
    requires ValidOrder(inp, order)
  {
    var p := Pass(lib, clock, secret, inp, order);
    if p.ok && stored then Some(Write(p.bundles)) else secret
  }

  lemma {:induction false} FoldNext(lib: Crypto, clock: Clock, sources: seq<Source>, n: nat, b: Bundles)
    requires n < |sources|
    ensures var p := Fold(lib, clock, sources[..n], b);
      Fold(lib, clock, sources[..n + 1], b) == if p.ok then Step(lib, clock, n + 1, sources[n], p.bundles) else p
  {
    assert sources[..n + 1][..n] == sources[..n];
  }

  /** A pass that stopped in a prefix of its sources stopped for good. */
  lemma {:induction false} FoldStops(lib: Crypto, clock: Clock, sources: seq<Source>, n: nat, b: Bundles)
    requires n <= |sources| && !Fold(lib, clock, sources[..n], b).ok
    ensures Fold(lib, clock, sources, b) == Fold(lib, clock, sources[..n], b)
    decreases |sources|
  {
    if n == |sources| {
      assert sources[..n] == sources;
    } else {
      var init := sources[..|sources| - 1];
      assert init[..n] == sources[..n];
      FoldStops(lib, clock, init, n, b);
    }
  }

  // ---------------------------------------------------------------- the imperative pass

  class ControlPlane {
    var caList: seq<CaStatus>
    var bundleSecretName: string
    /** The bundle secret in the cluster. */
    var secret: Option<BundleSecret>

    /** Folds the CA of one issuer into both bundles and lists it in the status. */
    method EnsureCaBundles(lib: Crypto, clock: Clock, k: nat, ca: CaInput, bundle: Bundle, caOnlyBundle: Bundle)
      returns (ok: bool)
      requires lib.Sound() && bundle != caOnlyBundle
      modifies this`caList, bundle, caOnlyBundle
      ensures var p := Step(lib, clock, k, IssuerSource(lib, ca), Bundles(old(bundle.certs), old(caOnlyBundle.certs),
          old(caList)));
        && ok == p.ok
        && bundle.certs == p.bundles.full && caOnlyBundle.certs == p.bundles.caOnly && caList == p.bundles.caList
      ensures ok ==>
        && ca.pem.Found?
        && var xs := Scan(lib, ca.pem.value).certs;
           var valid := Absorb(lib, clock(3 * k + 2), [], xs);
           && bundle.certs == Absorb(lib, clock(3 * k), old(bundle.certs), xs)
           && caOnlyBundle.certs == Absorb(lib, clock(3 * k + 1), old(caOnlyBundle.certs), xs)
           && valid != [] && caList == old(caList) + [CaStatus(ca.name, valid[0].expire)]
      ensures !ok ==> caList == old(caList)
    {
      if !ca.pem.Found? {
        return false;
      }
      ok := bundle.GetCertsFromPEM(lib, clock(3 * k), Some(ca.pem.value));
      if !ok {
        return;
      }
      ok := caOnlyBundle.GetCertsFromPEM(lib, clock(3 * k + 1), Some(ca.pem.value));
      if !ok {
        return;
      }
      var status := new Bundle();
      ok := status.GetCertsFromPEM(lib, clock(3 * k + 2), Some(ca.pem.value));
      if !ok {
        return;
      }
      if |status.certs| == 0 {
        return false;
      }
      caList := caList + [CaStatus(ca.name, status.certs[0].expire)];
    }

    /** Ghost view of the pass: the first n sources are folded in. */
    ghost predicate Reached(
      lib: Crypto, clock: Clock, sources: seq<Source>, n: nat, b: Bundles, bundle: Bundle, caOnlyBundle: Bundle)
      requires n <= |sources|
      reads this, bundle, caOnlyBundle
    {
      Fold(lib, clock, sources[..n], b) == Progress(Bundles(bundle.certs, caOnlyBundle.certs, caList), true)
    }

    /** Folds the n-th source of the pass in, a CA of an issuer. */
    method FoldIssuer(lib: Crypto, clock: Clock, ca: CaInput, bundle: Bundle, caOnlyBundle: Bundle,
      ghost sources: seq<Source>, n: nat, ghost b: Bundles)
      returns (ok: bool)
      requires lib.Sound() && bundle != caOnlyBundle
      requires n < |sources| && sources[n] == IssuerSource(lib, ca)
      requires Reached(lib, clock, sources, n, b, bundle, caOnlyBundle)
      modifies this`caList, bundle, caOnlyBundle
      ensures ok ==> Reached(lib, clock, sources, n + 1, b, bundle, caOnlyBundle)
      ensures !ok ==> !Fold(lib, clock, sources, b).ok && Fold(lib, clock, sources, b).bundles.caList == caList
    {
      FoldNext(lib, clock, sources, n, b);
      ok := EnsureCaBundles(lib, clock, 1 + n, ca, bundle, caOnlyBundle);
      if !ok {
        FoldStops(lib, clock, sources, n + 1, b);
      }
    }

    /** Folds the n-th source in, a text that goes into the full bundle only. */
    method FoldText(lib: Crypto, clock: Clock, text: Option<Pem>, bundle: Bundle, caOnlyBundle: Bundle,
      ghost sources: seq<Source>, n: nat, ghost b: Bundles)
      returns (ok: bool)
      requires lib.Sound() && bundle != caOnlyBundle
      requires n < |sources| && (sources[n].Trusted? || sources[n].Mirror?) && sources[n].read == Read(lib, text)
      requires Reached(lib, clock, sources, n, b, bundle, caOnlyBundle)
      modifies bundle
      ensures ok || sources[n].Mirror? ==> Reached(lib, clock, sources, n + 1, b, bundle, caOnlyBundle)
      ensures !ok && !sources[n].Mirror? ==>
        !Fold(lib, clock, sources, b).ok && Fold(lib, clock, sources, b).bundles.caList == caList
    {
      FoldNext(lib, clock, sources, n, b);
      ok := bundle.GetCertsFromPEM(lib, clock(3 * (1 + n)), text);
      if !ok && !sources[n].Mirror? {
        FoldStops(lib, clock, sources, n + 1, b);
      }
    }

    /** A source that cannot be had ends the pass. */
    lemma {:induction false} Stuck(lib: Crypto, clock: Clock, sources: seq<Source>, n: nat, b: Bundles,
        bundle: Bundle, caOnlyBundle: Bundle)
      requires n < |sources| && sources[n].Unavailable?
      requires Reached(lib, clock, sources, n, b, bundle, caOnlyBundle)
      ensures !Fold(lib, clock, sources, b).ok && Fold(lib, clock, sources, b).bundles.caList == caList
    {
      FoldNext(lib, clock, sources, n, b);
      FoldStops(lib, clock, sources, n + 1, b);
    }

    method LoadSecret(lib: Crypto, clock: Clock, readable: bool, bundle: Bundle,
        caOnlyBundle: Bundle) returns (ok: bool)
      requires lib.Sound() && bundle != caOnlyBundle && bundle.certs == [] && caOnlyBundle.certs == []
      modifies bundle, caOnlyBundle
      ensures ok == LoadOk(lib, readable, secret)
      ensures ok ==> Bundles(bundle.certs, caOnlyBundle.certs, []) == Load(lib, clock, secret)
    {
      if !readable {
        return false;
      }
      if secret.Some? {
        if secret.value.full.Some? {
          ok := bundle.GetCertsFromPEM(lib, clock(0), secret.value.full);
          if !ok {
            return;
          }
        }
        if secret.value.caOnly.Some? {
          ok := caOnlyBundle.GetCertsFromPEM(lib, clock(1), secret.value.caOnly);
          if !ok {
            return;
          }
        }
      }
      ok := true;
    }

    /** Folds the user's secret in, in the order in which it is ranged over. */
    method FoldUser(lib: Crypto, clock: Clock, user: UserSecret, order: seq<string>, bundle: Bundle,
        caOnlyBundle: Bundle,
      ghost sources: seq<Source>, n: nat, ghost b: Bundles)
      returns (ok: bool, count: nat)
      requires lib.Sound() && bundle != caOnlyBundle
      requires user.Provided? ==> Enumerates(order, user.data.Keys)
      requires n + |UserSources(lib, user, order)| <= |sources|
      requires sources[n..n + |UserSources(lib, user, order)|] == UserSources(lib, user, order)
      requires Reached(lib, clock, sources, n, b, bundle, caOnlyBundle)
      modifies bundle
      ensures ok ==>
        count == |UserSources(lib, user, order)| && Reached(lib, clock, sources, n + count, b, bundle, caOnlyBundle)
      ensures !ok ==> !Fold(lib, clock, sources, b).ok && Fold(lib, clock, sources, b).bundles.caList == caList
    {
      if user.Unreadable? {
        assert sources[n] == UserSources(lib, user, order)[0];
        Stuck(lib, clock, sources, n, b, bundle, caOnlyBundle);
        return false, 0;
      }
      count := 0;
      if user.Provided? {
        for i := 0 to |order|
          invariant Reached(lib, clock, sources, n + i, b, bundle, caOnlyBundle)
        {
          UserAt(lib, user, order, sources, n, i);
          ok := FoldText(lib, clock, user.data[order[i]], bundle, caOnlyBundle, sources, n + i, b);
          if !ok { return; }
        }
      }
      return true, if user.Provided? then |order| else 0;
    }

    lemma {:induction false} UserAt(lib: Crypto, user: UserSecret, order: seq<string>, sources: seq<Source>, n: nat,
        i: nat)
      requires user.Provided? && Enumerates(order, user.data.Keys) && i < |order|
      requires n + |order| <= |sources| && sources[n..n + |order|] == UserSources(lib, user, order)
      ensures order[i] in user.data
      ensures sources[n + i] == Trusted(Read(lib, user.data[order[i]]))
    {
      assert order[i] in order;
      assert sources[n + i] == sources[n..n + |order|][i];
    }

    /** Folds the mirror registries' certificates in, sorted by host; one that fails to parse is skipped. */
    method FoldMirrors(lib: Crypto, clock: Clock, mirrors: map<string, Pem>, bundle: Bundle, caOnlyBundle: Bundle,
      ghost hosts: seq<string>, ghost sources: seq<Source>, n: nat, ghost b: Bundles)
      returns (count: nat)
      requires lib.Sound() && bundle != caOnlyBundle
      requires AscendingListing(hosts, mirrors.Keys)
      requires n + |hosts| <= |sources|
      requires sources[n..n + |hosts|] == MirrorSources(lib, Found(mirrors), hosts)
      requires Reached(lib, clock, sources, n, b, bundle, caOnlyBundle)
      modifies bundle
      ensures count == |hosts| && Reached(lib, clock, sources, n + count, b, bundle, caOnlyBundle)
    {
      var registryHosts := CollectAndSort(mirrors.Keys);
      AscendingIsUnique(registryHosts, hosts);
      FoldHosts(lib, clock, mirrors, registryHosts, bundle, caOnlyBundle, sources, n, b);
      count := |registryHosts|;
    }

    method FoldHosts(lib: Crypto, clock: Clock, mirrors: map<string, Pem>, registryHosts: seq<string>, bundle: Bundle,
      caOnlyBundle: Bundle, ghost sources: seq<Source>, n: nat, ghost b: Bundles)
      requires lib.Sound() && bundle != caOnlyBundle
      requires AscendingListing(registryHosts, mirrors.Keys)
      requires n + |registryHosts| <= |sources|
      requires sources[n..n + |registryHosts|] == MirrorSources(lib, Found(mirrors), registryHosts)
      requires Reached(lib, clock, sources, n, b, bundle, caOnlyBundle)
      modifies bundle
      ensures Reached(lib, clock, sources, n + |registryHosts|, b, bundle, caOnlyBundle)
    {
      for i := 0 to |registryHosts|
        invariant Reached(lib, clock, sources, n + i, b, bundle, caOnlyBundle)
      {
        MirrorAt(lib, mirrors, registryHosts, sources, n, i);
        var text := Some(mirrors[registryHosts[i]]);
        var _ := FoldText(lib, clock, text, bundle, caOnlyBundle, sources, n + i, b);
      }
    }

    lemma {:induction false} MirrorAt(lib: Crypto, mirrors: map<string, Pem>, hosts: seq<string>, sources: seq<Source>,
        n: nat, i: nat)
      requires AscendingListing(hosts, mirrors.Keys) && i < |hosts|
      requires n + |hosts| <= |sources|
      requires sources[n..n + |hosts|] == MirrorSources(lib, Found(mirrors), hosts)
      ensures hosts[i] in mirrors
      ensures sources[n + i] == Mirror(Read(lib, Some(mirrors[hosts[i]])))
    {
      assert hosts[i] in hosts;
      assert sources[n + i] == sources[n..n + |hosts|][i];
    }

    /** The four issuers, each created or taken from the user's choice. */
    method FoldIssuers(lib: Crypto, clock: Clock, inp: Inputs, bundle: Bundle, caOnlyBundle: Bundle,
      ghost sources: seq<Source>, n: nat, ghost b: Bundles)
      returns (ok: bool)
      requires lib.Sound() && bundle != caOnlyBundle
      requires n + 4 <= |sources|
      requires sources[n] == IssuerSource(lib, inp.ingress) && sources[n + 1] == IssuerSource(lib, inp.internalCa)
      requires sources[n + 2] == IssuerSource(lib, inp.libvirt) && sources[n + 3] == IssuerSource(lib, inp.ovn)
      requires Reached(lib, clock, sources, n, b, bundle, caOnlyBundle)
      modifies this`caList, bundle, caOnlyBundle
      ensures ok ==> Reached(lib, clock, sources, n + 4, b, bundle, caOnlyBundle)
      ensures !ok ==> !Fold(lib, clock, sources, b).ok && Fold(lib, clock, sources, b).bundles.caList == caList
    {
      ok := FoldIssuer(lib, clock, inp.ingress, bundle, caOnlyBundle, sources, n, b);
      if ok {
        ok := FoldIssuer(lib, clock, inp.internalCa, bundle, caOnlyBundle, sources, n + 1, b);
      }
      if ok {
        ok := FoldIssuer(lib, clock, inp.libvirt, bundle, caOnlyBundle, sources, n + 2, b);
      }
      if ok {
        ok := FoldIssuer(lib, clock, inp.ovn, bundle, caOnlyBundle, sources, n + 3, b);
      }
    }

    /** The trust store of the operator image comes last. */
    method FoldOperator(lib: Crypto, clock: Clock, pem: Fetch<Pem>, bundle: Bundle, caOnlyBundle: Bundle,
      ghost sources: seq<Source>, n: nat, ghost b: Bundles)
      returns (ok: bool)
      requires lib.Sound() && bundle != caOnlyBundle
      requires n + 1 == |sources| && sources[n] == OperatorSource(lib, pem)
      requires Reached(lib, clock, sources, n, b, bundle, caOnlyBundle)
      modifies bundle
      ensures ok ==> Fold(lib, clock, sources, b) == Progress(Bundles(bundle.certs, caOnlyBundle.certs, caList), true)
      ensures !ok ==> !Fold(lib, clock, sources, b).ok && Fold(lib, clock, sources, b).bundles.caList == caList
    {
      if !pem.Found? {
        Stuck(lib, clock, sources, n, b, bundle, caOnlyBundle);
        return false;
      }
      ok := FoldText(lib, clock, Some(pem.value), bundle, caOnlyBundle, sources, n, b);
      assert sources[..n + 1] == sources;
    }

    /** The mirror registries and the trust store of the operator image: the last sources of the pass. */
    method FoldImages(lib: Crypto, clock: Clock, inp: Inputs, bundle: Bundle, caOnlyBundle: Bundle,
      ghost hosts: seq<string>, ghost sources: seq<Source>, n: nat, ghost b: Bundles)
      returns (ok: bool)
      requires lib.Sound() && bundle != caOnlyBundle
      requires inp.mirrors.Found? ==> AscendingListing(hosts, inp.mirrors.value.Keys)
      requires n + |MirrorSources(lib, inp.mirrors, hosts)| + 1 == |sources|
      requires sources[n..|sources| - 1] == MirrorSources(lib, inp.mirrors, hosts)
      requires sources[|sources| - 1] == OperatorSource(lib, inp.operatorBundle)
      requires Reached(lib, clock, sources, n, b, bundle, caOnlyBundle)
      modifies bundle
      ensures ok ==> Fold(lib, clock, sources, b) == Progress(Bundles(bundle.certs, caOnlyBundle.certs, caList), true)
      ensures !ok ==> !Fold(lib, clock, sources, b).ok && Fold(lib, clock, sources, b).bundles.caList == caList
    {
      if !inp.mirrors.Found? {
        assert sources[n] == MirrorSources(lib, inp.mirrors, hosts)[0];
        Stuck(lib, clock, sources, n, b, bundle, caOnlyBundle);
        ok := false;
      } else {
        var count := FoldMirrors(lib, clock, inp.mirrors.value, bundle, caOnlyBundle, hosts, sources, n, b);
        ok := FoldOperator(lib, clock, inp.operatorBundle, bundle, caOnlyBundle, sources, n + count, b);
      }
    }

    /** Folds every source of the pass in, in the order of the source code. */
    method FoldAll(lib: Crypto, clock: Clock, inp: Inputs, order: seq<string>, bundle: Bundle, caOnlyBundle: Bundle,
      ghost hosts: seq<string>, ghost sources: seq<Source>, ghost b: Bundles)
      returns (ok: bool)
      requires lib.Sound() && bundle != caOnlyBundle
      requires ValidOrder(inp, order)
      requires inp.mirrors.Found? ==> AscendingListing(hosts, inp.mirrors.value.Keys)
      requires Layout(lib, inp, UserSources(lib, inp.user, order), MirrorSources(lib, inp.mirrors, hosts), sources)
      requires Reached(lib, clock, sources, 0, b, bundle, caOnlyBundle)
      modifies this`caList, bundle, caOnlyBundle
      ensures ok ==> Fold(lib, clock, sources, b) == Progress(Bundles(bundle.certs, caOnlyBundle.certs, caList), true)
      ensures !ok ==> !Fold(lib, clock, sources, b).ok && Fold(lib, clock, sources, b).bundles.caList == caList
    {
      ok := FoldIssuers(lib, clock, inp, bundle, caOnlyBundle, sources, 0, b);
      if !ok {
        return;
      }
      var count;
      ok, count := FoldUser(lib, clock, inp.user, order, bundle, caOnlyBundle, sources, 4, b);
      if ok {
        assert |sources| - 1 == 4 + count + |MirrorSources(lib, inp.mirrors, hosts)|;
        ok := FoldImages(lib, clock, inp, bundle, caOnlyBundle, hosts, sources, 4 + count, b);
      }
    }

    /**
     The pass. order is the order in which the user's secret is ranged over; stored tells whether the final
     write succeeds. The secret changes only at the very end of a pass that goes through.
     */
    method ReconcileCAs(lib: Crypto, clock: Clock, inp: Inputs, order: seq<string>, stored: bool) returns (ok: bool)
      requires lib.Sound() && ValidOrder(inp, order)
      modifies this
      ensures secret == SecretAfter(lib, clock, old(secret), inp, order, stored)
      ensures ok == (Pass(lib, clock, old(secret), inp, order).ok && stored)
      ensures caList == if LoadOk(lib, inp.secretReadable, old(secret)) then Pass(lib, clock, old(secret), inp,
          order).bundles.caList else old(caList)
      ensures bundleSecretName == if ok then "combined-ca-bundle" else old(bundleSecretName)
    {
      var bundle := new Bundle();
      var caOnlyBundle := new Bundle();
      ok := LoadSecret(lib, clock, inp.secretReadable, bundle, caOnlyBundle);
      if ok {
        caList := [];
        ghost var b := Load(lib, clock, secret);
        SourcesLayout(lib, inp, order);
        ok := FoldAll(lib, clock, inp, order, bundle, caOnlyBundle, Hosts(inp.mirrors), Sources(lib, inp, order), b);
        if ok {
          var fullText := bundle.GetBundlePEM();
          var caOnlyText := caOnlyBundle.GetBundlePEM();
          ok := stored;
          if ok {
            secret := Some(BundleSecret(Some(fullText), Some(caOnlyText)));
            bundleSecretName := "combined-ca-bundle";
          }
        }
      }
    }
  }
}
